/** EtherCAT payloads: a run of datagrams that must fill the payload exactly. */
module Ethercat {
  import opened Bytes
  import opened Collections

  const HEADER := 10
  const COUNTER := 2

  datatype Datagram = Datagram(command: byte, index: byte, adp: nat, ado: nat, circulating: bool, more: bool,
                               irq: nat, payload: seq<byte>, workingCounter: nat)

  function Word(s: seq<byte>, i: nat): (n: nat)
    requires i + 2 <= |s|
    ensures n < 0x1_0000
  {
    Pow256Values();
    LeValue(s[i..i + 2])
  }

  /** The datagram at the front of `s`; what follows it is ignored. */
  function DatagramOf(s: seq<byte>): Option<Datagram> {
    if |s| < HEADER + COUNTER || s[0] > 0x0E then None else
    var raw := Word(s, 6);
    var end: nat := HEADER + raw % 0x800;
    if |s| < end + COUNTER then None else
    Some(Datagram(s[0], s[1], Word(s, 2), Word(s, 4), raw / 0x4000 % 2 == 1, raw / 0x8000 % 2 == 1,
                  Word(s, 8), s[HEADER..end], Word(s, end)))
  }

  function Size(d: Datagram): nat { HEADER + |d.payload| + COUNTER }

  /** The datagrams that fill `s`, if it can be cut into datagrams without a remainder. */
  function Filled(s: seq<byte>): Option<seq<Datagram>> {
    if s == [] then Some([]) else
    match DatagramOf(s)
    case None => None
    case Some(d) =>
      if Size(d) > |s| then None else
      match Filled(s[Size(d)..])
      case None => None
      case Some(ds) => Some([d] + ds)
  }

  lemma FilledStep(ds: seq<Datagram>, s: seq<byte>)
    ensures s == [] ==> Behind(ds, Filled(s)) == Some(ds)
    ensures s != [] && DatagramOf(s).None? ==> Behind(ds, Filled(s)) == None
    ensures DatagramOf(s).Some? ==>
              var d := DatagramOf(s).value;
              Size(d) <= |s| && Behind(ds, Filled(s)) == Behind(ds + [d], Filled(s[Size(d)..]))
  {
    assert ds + [] == ds;
    if DatagramOf(s).Some? {
      var d := DatagramOf(s).value;
      var rest := Filled(s[Size(d)..]);
      assert rest.Some? ==> ds + ([d] + rest.value) == (ds + [d]) + rest.value;
    }
  }

  method ParsePayload(data: seq<byte>) returns (r: Option<seq<Datagram>>)
    ensures r == if data == [] then None else Filled(data)
  {
    hide Filled, DatagramOf;
    var datagrams: seq<Datagram> := [];
    var offset := 0;
    while offset + HEADER + COUNTER <= |data|
      invariant offset <= |data| && (datagrams == [] <==> offset == 0)
      invariant Behind(datagrams, Filled(data[offset..])) == Filled(data)
      decreases |data| - offset
    {
      FilledStep(datagrams, data[offset..]);
      var datagram := DatagramOf(data[offset..]);
      if datagram.None? {
        return None;
      }
      offset := offset + HEADER + |datagram.value.payload| + COUNTER;
      datagrams := datagrams + [datagram.value];
      assert data[offset..] == data[offset - Size(datagram.value)..][Size(datagram.value)..];
    }
    FilledStep(datagrams, data[offset..]);
    TooShort(data[offset..]);
    if datagrams == [] || offset != |data| {
      return None;
    }
    r := Some(datagrams);
  }

  lemma TooShort(s: seq<byte>)
    requires |s| < HEADER + COUNTER
    ensures DatagramOf(s).None?
  {
  }

  // ======== Encodings ========

  /** A datagram on the wire: the parsed one and the three reserved bits of its length word. */
  datatype Wire = Wire(d: Datagram, reserved: nat) {
    predicate Valid() {
      && d.command <= 0x0E && d.adp < 0x1_0000 && d.ado < 0x1_0000 && d.irq < 0x1_0000
      && d.workingCounter < 0x1_0000 && |d.payload| < 0x800 && reserved < 8
    }
    function LengthWord(): nat {
      |d.payload| + 0x800 * reserved + (if d.circulating then 0x4000 else 0) + (if d.more then 0x8000 else 0)
    }
    function Head(): (b: seq<byte>)
      ensures |b| == HEADER
    {
      [d.command, d.index] + LeBytes(d.adp, 2) + LeBytes(d.ado, 2) + LeBytes(LengthWord(), 2) + LeBytes(d.irq, 2)
    }
    function Bytes(): (b: seq<byte>)
      ensures |b| == Size(d)
    { Head() + d.payload + LeBytes(d.workingCounter, 2) }
  }

  lemma LengthWordParts(w: Wire)
    requires w.Valid()
    ensures var n := w.LengthWord();
            && n < 0x1_0000 && n % 0x800 == |w.d.payload| && n / 0x800 % 8 == w.reserved
            && (n / 0x4000 % 2 == 1 <==> w.d.circulating) && (n / 0x8000 % 2 == 1 <==> w.d.more)
  {
  }

  lemma HeadFields(w: Wire, s: seq<byte>)
    requires w.Valid() && |s| >= HEADER && s[..HEADER] == w.Head()
    ensures s[0] == w.d.command && s[1] == w.d.index && Word(s, 2) == w.d.adp && Word(s, 4) == w.d.ado
    ensures Word(s, 6) == w.LengthWord() && Word(s, 8) == w.d.irq
  {
    hide LeValue, LeBytes, Wire.LengthWord;
    LengthWordParts(w);
    var h := w.Head();
    assert s[0] == h[0] && s[1] == h[1];
    assert s[2..4] == h[2..4] == LeBytes(w.d.adp, 2);
    assert s[4..6] == h[4..6] == LeBytes(w.d.ado, 2);
    assert s[6..8] == h[6..8] == LeBytes(w.LengthWord(), 2);
    assert s[8..10] == h[8..10] == LeBytes(w.d.irq, 2);
    Pow256Values();
    LeRoundTrip(w.d.adp, 2);
    LeRoundTrip(w.d.ado, 2);
    LeRoundTrip(w.LengthWord(), 2);
    LeRoundTrip(w.d.irq, 2);
  }

  lemma DatagramForward(w: Wire, rest: seq<byte>)
    requires w.Valid()
    ensures DatagramOf(w.Bytes() + rest) == Some(w.d)
  {
    hide LeValue, LeBytes, Wire.LengthWord, Wire.Head;
    var s := w.Bytes() + rest;
    assert s[..HEADER] == w.Head();
    HeadFields(w, s);
    LengthWordParts(w);
    var end := HEADER + |w.d.payload|;
    assert s[HEADER..end] == w.d.payload;
    assert s[end..end + 2] == LeBytes(w.d.workingCounter, 2);
    Pow256Values();
    LeRoundTrip(w.d.workingCounter, 2);
  }

  lemma DatagramBackward(s: seq<byte>) returns (w: Wire)
    requires DatagramOf(s).Some?
    ensures w.Valid() && w.d == DatagramOf(s).value && Size(w.d) <= |s| && w.Bytes() == s[..Size(w.d)]
  {
    hide LeValue, LeBytes;
    var raw, d := Word(s, 6), DatagramOf(s).value;
    w := Wire(d, raw / 0x800 % 8);
    WordParts(raw);
    assert w.LengthWord() == raw;
    var end := HEADER + |d.payload|;
    HeadBack(s, w);
    LeBytesOfValue(s[end..end + 2]);
    assert s[..end + 2] == s[..HEADER] + s[HEADER..end] + s[end..end + 2];
  }

  lemma WordParts(raw: nat)
    requires raw < 0x1_0000
    ensures raw == raw % 0x800 + 0x800 * (raw / 0x800 % 8) + 0x4000 * (raw / 0x4000 % 2) + 0x8000 * (raw / 0x8000 % 2)
  {
    assert raw / 0x800 == raw / 0x800 % 8 + 8 * (raw / 0x4000);
    assert raw / 0x4000 == raw / 0x4000 % 2 + 2 * (raw / 0x8000);
  }

  lemma HeadBack(s: seq<byte>, w: Wire)
    requires |s| >= HEADER && s[0] == w.d.command && s[1] == w.d.index
    requires Word(s, 2) == w.d.adp && Word(s, 4) == w.d.ado && Word(s, 6) == w.LengthWord() && Word(s, 8) == w.d.irq
    ensures s[..HEADER] == w.Head()
  {
    hide LeValue, LeBytes, Wire.LengthWord;
    LeBytesOfValue(s[2..4]);
    LeBytesOfValue(s[4..6]);
    LeBytesOfValue(s[6..8]);
    LeBytesOfValue(s[8..10]);
    assert s[..10] == [s[0], s[1]] + s[2..4] + s[4..6] + s[6..8] + s[8..10];
  }

  function Wires(ws: seq<Wire>): seq<byte> {
    if ws == [] then [] else ws[0].Bytes() + Wires(ws[1..])
  }

  function Datagrams(ws: seq<Wire>): (ds: seq<Datagram>)
    ensures |ds| == |ws|
  { seq(|ws|, i requires 0 <= i < |ws| => ws[i].d) }

  /** Every concatenation of well-formed datagrams is parsed into those datagrams, in order. */
  lemma {:induction false} PayloadForward(ws: seq<Wire>)
    requires forall w <- ws :: w.Valid()
    ensures Filled(Wires(ws)) == Some(Datagrams(ws))
  {
    hide DatagramOf, Wire.Bytes, Wire.Valid, Filled;
    if ws == [] {
      FilledStep([], []);
    } else {
      PayloadForward(ws[1..]);
      FirstDatagram(ws[0], Wires(ws[1..]));
      assert Datagrams(ws) == [ws[0].d] + Datagrams(ws[1..]);
    }
  }

  lemma FirstDatagram(w: Wire, rest: seq<byte>)
    requires w.Valid() && Filled(rest).Some?
    ensures Filled(w.Bytes() + rest) == Some([w.d] + Filled(rest).value)
  {
    hide DatagramOf, Wire.Bytes, Wire.Valid;
    DatagramForward(w, rest);
    assert (w.Bytes() + rest)[Size(w.d)..] == rest;
  }

  /** Nothing else is accepted. */
  lemma {:induction false} PayloadBackward(s: seq<byte>) returns (ws: seq<Wire>)
    requires Filled(s).Some?
    ensures (forall w <- ws :: w.Valid()) && Wires(ws) == s && Datagrams(ws) == Filled(s).value
    decreases |s|
  {
    hide DatagramOf, Wire.Bytes, Wire.Valid;
    if s == [] { return []; }
    var w := DatagramBackward(s);
    var more := PayloadBackward(s[Size(w.d)..]);
    ws := [w] + more;
    assert ws[1..] == more;
    assert s == s[..Size(w.d)] + s[Size(w.d)..];
    assert Datagrams(ws) == [w.d] + Datagrams(more);
  }

  // ======== Re-encoding ========

  /** What encoding the parsed datagrams again gives: the reserved bits are lost. */
  function Reencoded(ds: seq<Datagram>): seq<byte> {
    if ds == [] then [] else Wire(ds[0], 0).Bytes() + Reencoded(ds[1..])
  }

  lemma SameBytesIff(w: Wire)
    requires w.Valid()
    ensures Wire(w.d, 0).Bytes() == w.Bytes() <==> w.reserved == 0
  {
    hide LeValue, LeBytes, Wire.LengthWord, Wire.Head;
    var a, b := Wire(w.d, 0), w;
    if a.Bytes() == b.Bytes() {
      assert a.Bytes()[..HEADER] == a.Head() && b.Bytes()[..HEADER] == b.Head();
      HeadFields(a, a.Bytes());
      HeadFields(b, a.Bytes());
      LengthWordParts(a);
      LengthWordParts(b);
    }
  }

  /** Re-encoding an accepted payload gives back its bytes exactly when no reserved bit was set. */
  lemma {:induction false} ReencodeIff(ws: seq<Wire>)
    requires forall w <- ws :: w.Valid()
    ensures Reencoded(Datagrams(ws)) == Wires(ws) <==> forall w <- ws :: w.reserved == 0
  {
    hide Wire.Bytes, Wire.Valid;
    if ws != [] {
      SameBytesIff(ws[0]);
      ReencodeIff(ws[1..]);
      var a, b := Wire(ws[0].d, 0).Bytes(), ws[0].Bytes();
      var more, rest := Reencoded(Datagrams(ws[1..])), Wires(ws[1..]);
      assert Datagrams(ws)[1..] == Datagrams(ws[1..]);
      assert a + more == b + rest <==> a == b && more == rest by {
        assert (a + more)[..|a|] == a && (a + more)[|a|..] == more;
        assert (b + rest)[..|a|] == b && (b + rest)[|a|..] == rest;
      }
      assert ws == [ws[0]] + ws[1..];
    }
  }

  // ======== The frame around the payload ========

  /** The first two bytes can be a frame header. */
  predicate LooksFramed(data: seq<byte>) {
    |data| >= 2 && var n := Word(data, 0) % 0x800; HEADER + COUNTER <= n <= |data| - 2
  }

  /** A two-byte header whose low eleven bits give the payload length is honoured when it can be one;
      otherwise the bytes are taken as a payload without a header. */
  function FramePayload(data: seq<byte>): seq<byte> {
    if LooksFramed(data) then data[2..2 + Word(data, 0) % 0x800] else data
  }

  method ParseFrame(data: seq<byte>) returns (r: Option<seq<Datagram>>)
    ensures r == if data == [] then None else Filled(FramePayload(data))
  {
    hide Filled;
    if |data| >= 2 {
      var n := Word(data, 0) % 0x800;
      if n >= HEADER + COUNTER && 2 + n <= |data| {
        r := ParsePayload(data[2..2 + n]);
        return;
      }
    }
    r := ParsePayload(data);
  }

  /** A frame is its datagrams, whatever padding follows and whatever the header's high bits. */
  lemma FrameForward(ws: seq<Wire>, high: nat, padding: seq<byte>)
    requires ws != [] && (forall w <- ws :: w.Valid()) && |Wires(ws)| < 0x800 && high < 0x20
    ensures FramePayload(LeBytes(|Wires(ws)| + 0x800 * high, 2) + Wires(ws) + padding) == Wires(ws)
    ensures Filled(Wires(ws)) == Some(Datagrams(ws))
  {
    hide LeValue, LeBytes, Wire.Bytes, Wire.Valid, Filled;
    PayloadForward(ws);
    assert |Wires(ws)| >= HEADER + COUNTER by { assert |ws[0].Bytes()| == Size(ws[0].d); }
    hide Wires;
    var n := |Wires(ws)|;
    var data := LeBytes(n + 0x800 * high, 2) + Wires(ws) + padding;
    assert data[0..2] == LeBytes(n + 0x800 * high, 2);
    Pow256Values();
    LeRoundTrip(n + 0x800 * high, 2);
    assert data[2..2 + n] == Wires(ws);
  }

  lemma {:induction false} SizesAdd(ws: seq<Wire>, vs: seq<Wire>)
    requires Datagrams(ws) == Datagrams(vs)
    ensures |Wires(ws)| == |Wires(vs)|
  {
    hide Wire.Bytes;
    assert |ws| == |Datagrams(ws)| == |Datagrams(vs)| == |vs|;
    if ws != [] {
      assert Datagrams(ws)[0] == ws[0].d && Datagrams(vs)[0] == vs[0].d;
      assert Datagrams(ws)[1..] == Datagrams(ws[1..]) && Datagrams(vs)[1..] == Datagrams(vs[1..]);
      SizesAdd(ws[1..], vs[1..]);
    }
  }

  /** Without a frame header, a run of datagrams is recovered if and only if its first two bytes cannot
      be taken for one; otherwise the payload is cut short. */
  lemma HeaderlessIff(ws: seq<Wire>)
    requires ws != [] && forall w <- ws :: w.Valid()
    ensures Filled(FramePayload(Wires(ws))) == Some(Datagrams(ws)) <==> !LooksFramed(Wires(ws))
  {
    hide LeValue, Wire.Bytes, Wire.Valid, Filled, Wires;
    PayloadForward(ws);
    var data := Wires(ws);
    if LooksFramed(data) && Filled(FramePayload(data)) == Some(Datagrams(ws)) {
      var vs := PayloadBackward(FramePayload(data));
      SizesAdd(ws, vs);
    }
  }

  /** The condition in terms of the first datagram: its command and the low bits of its index. */
  lemma LooksFramedIff(ws: seq<Wire>)
    requires ws != [] && ws[0].Valid()
    ensures var n: int := ws[0].d.command + 256 * (ws[0].d.index % 8);
            LooksFramed(Wires(ws)) <==> HEADER + COUNTER <= n <= |Wires(ws)| - 2
  {
    hide LeBytes, Wire.LengthWord, Wire.Valid;
    var data, d := Wires(ws), ws[0].d;
    assert data[0] == d.command && data[1] == d.index;
    TwoBytes(data[0..2]);
    var c, i: int := d.command, d.index;
    assert (c + 256 * i) % 0x800 == c + 256 * (i % 8);
  }

  lemma TwoBytes(s: seq<byte>)
    requires |s| == 2
    ensures var lo: int, hi: int := s[0], s[1]; LeValue(s) == lo + 256 * hi
  {
    assert s[1..] == [s[1]] && LeValue([s[1]]) == s[1] by { assert [s[1]][1..] == []; }
  }
}
