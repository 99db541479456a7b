/** Cutting a byte stream into frames that announce their own length. */
module Framing {
  import opened Bytes
  import opened Collections

  /** A frame size function gives the size of the whole frame at the front of its argument, or 0. */
  type Sizer = seq<byte> -> nat

  /** The size is announced at the front: it does not depend on what follows the frame. */
  ghost predicate FromFront(size: Sizer) {
    && (forall s :: size(s) <= |s|)
    && (forall s, t :: size(s) > 0 ==> size(s + t) == size(s))
    && (forall s, n: nat :: 0 < size(s) == n ==> size(s[..n]) == n)
  }

  function Split(size: Sizer, s: seq<byte>): seq<seq<byte>>
    decreases |s|
  {
    var n := size(s);
    if 0 < n <= |s| then [s[..n]] + Split(size, s[n..]) else []
  }

  predicate IsFrame(size: Sizer, f: seq<byte>) { f != [] && size(f) == |f| }

  /** A run of whole frames is split into exactly those frames, and what follows is split on its own. */
  lemma {:induction false} SplitForward(size: Sizer, fs: seq<seq<byte>>, rest: seq<byte>)
    requires FromFront(size) && forall f <- fs :: IsFrame(size, f)
    ensures Split(size, Concat(fs) + rest) == fs + Split(size, rest)
    decreases |fs|
  {
    hide FromFront, IsFrame, Split;
    if fs == [] {
      assert Concat(fs) + rest == rest;
    } else {
      var tail := Concat(fs[1..]) + rest;
      SplitForward(size, fs[1..], rest);
      assert Concat(fs) + rest == fs[0] + tail;
      FirstFrame(size, fs[0], tail);
      assert [fs[0]] + (fs[1..] + Split(size, rest)) == fs + Split(size, rest);
    }
  }

  lemma FirstFrame(size: Sizer, f: seq<byte>, tail: seq<byte>)
    requires FromFront(size) && IsFrame(size, f)
    ensures Split(size, f + tail) == [f] + Split(size, tail)
  {
    assert (f + tail)[..|f|] == f && (f + tail)[|f|..] == tail;
  }

  lemma SplitHead(size: Sizer, s: seq<byte>)
    requires FromFront(size)
    ensures var n := size(s);
            && n <= |s| && (n == 0 ==> Split(size, s) == [])
            && (n > 0 ==> IsFrame(size, s[..n]) && Split(size, s) == [s[..n]] + Split(size, s[n..]))
  {
    assert size(s) <= |s|;
  }

  /** Conversely, the frames found are the bytes themselves, cut as far as whole frames reach. */
  lemma {:induction false} SplitBackward(size: Sizer, s: seq<byte>) returns (rest: seq<byte>)
    requires FromFront(size)
    ensures Concat(Split(size, s)) + rest == s && size(rest) == 0
    ensures forall f <- Split(size, s) :: IsFrame(size, f)
    decreases |s|
  {
    hide FromFront, IsFrame, Split;
    SplitHead(size, s);
    var n := size(s);
    if n == 0 {
      rest := s;
      assert [] + rest == s;
    } else {
      rest := SplitBackward(size, s[n..]);
      var more := Split(size, s[n..]);
      assert ([s[..n]] + more)[1..] == more;
      assert s[..n] + Concat(more) + rest == s[..n] + (Concat(more) + rest) == s;
    }
  }

  /** `a` consists of whole frames: splitting it leaves nothing over. */
  predicate Whole(size: Sizer, a: seq<byte>) { Concat(Split(size, a)) == a }

  lemma WholeIfFrames(size: Sizer, fs: seq<seq<byte>>)
    requires FromFront(size) && forall f <- fs :: IsFrame(size, f)
    ensures Whole(size, Concat(fs)) && Split(size, Concat(fs)) == fs
  {
    hide FromFront, IsFrame, Split;
    SplitForward(size, fs, []);
    SplitHead(size, []);
    assert Concat(fs) + [] == Concat(fs) && fs + [] == fs;
  }

  /** Splitting is additive behind whole frames. */
  lemma SplitAdds(size: Sizer, a: seq<byte>, b: seq<byte>)
    requires FromFront(size) && Whole(size, a)
    ensures Split(size, a + b) == Split(size, a) + Split(size, b)
  {
    hide FromFront, IsFrame, Split;
    var rest := SplitBackward(size, a);
    SplitForward(size, Split(size, a), b);
  }

  // ======== Parsing the frames of a stream ========

  /** What a splitter loop returns: it stops at the first frame that is not whole or not parsed. */
  function Parsed<F>(size: Sizer, parse: seq<byte> -> Option<F>, s: seq<byte>): seq<F>
    decreases |s|
  {
    var n := size(s);
    if 0 < n <= |s| && parse(s[..n]).Some? then [parse(s[..n]).value] + Parsed(size, parse, s[n..]) else []
  }

  /** Every whole frame is parsed. */
  ghost predicate Parses<F>(size: Sizer, parse: seq<byte> -> Option<F>) {
    forall f :: IsFrame(size, f) ==> parse(f).Some?
  }

  /** The frames parsed are the frames of the stream, one by one. */
  lemma {:induction false} ParsedIsSplit<F>(size: Sizer, parse: seq<byte> -> Option<F>, s: seq<byte>)
    requires FromFront(size) && Parses(size, parse)
    ensures |Parsed(size, parse, s)| == |Split(size, s)|
    ensures forall i :: 0 <= i < |Split(size, s)| ==> parse(Split(size, s)[i]) == Some(Parsed(size, parse, s)[i])
    decreases |s|
  {
    hide FromFront, IsFrame, Split;
    SplitHead(size, s);
    var n := size(s);
    if n > 0 {
      assert parse(s[..n]).Some?;
      ParsedIsSplit(size, parse, s[n..]);
    }
  }

  /** Parsing a stream is additive behind whole frames. */
  lemma ParsedAdds<F>(size: Sizer, parse: seq<byte> -> Option<F>, a: seq<byte>, b: seq<byte>)
    requires FromFront(size) && Parses(size, parse) && Whole(size, a)
    ensures Parsed(size, parse, a + b) == Parsed(size, parse, a) + Parsed(size, parse, b)
  {
    hide FromFront, IsFrame, Split, Parsed, Parses, Whole;
    SplitAdds(size, a, b);
    ParsedIsSplit(size, parse, a);
    ParsedIsSplit(size, parse, b);
    ParsedIsSplit(size, parse, a + b);
    var x, y, z := Parsed(size, parse, a), Parsed(size, parse, b), Parsed(size, parse, a + b);
    var fs, gs := Split(size, a), Split(size, b);
    forall i | 0 <= i < |z| ensures z[i] == (x + y)[i] {
      assert parse((fs + gs)[i]) == Some(z[i]);
      if i < |fs| { assert parse(fs[i]) == Some(x[i]); } else { assert parse(gs[i - |fs|]) == Some(y[i - |fs|]); }
    }
  }

  /** One round of a splitter loop at `offset`. */
  lemma ParsedStep<F>(size: Sizer, parse: seq<byte> -> Option<F>, done: seq<F>, s: seq<byte>, offset: nat)
    requires offset <= |s|
    ensures var n, rest := size(s[offset..]), Parsed(size, parse, s[offset..]);
            if n == 0 || offset + n > |s| || parse(s[offset..offset + n]).None? then done + rest == done
            else done + rest ==
                 (done + [parse(s[offset..offset + n]).value]) + Parsed(size, parse, s[offset + n..])
  {
    var n := size(s[offset..]);
    if offset + n <= |s| {
      assert s[offset..][n..] == s[offset + n..] && s[offset..][..n] == s[offset..offset + n];
    }
  }
}

/** IEC 60870-5-104 streams. */
module Iec104 {
  import opened Bytes
  import opened Collections
  import opened Framing

  datatype Asdu = Asdu(typeId: byte, cause: nat, commonAddress: nat, objectAddress: Option<nat>)
  datatype Frame =
    | I(send: nat, receive: nat, asdu: Option<Asdu>, payload: seq<byte>)
    | S(receive: nat)
    | U(code: byte)

  /** A start byte, a length of at least four, and that many bytes. */
  function Size(s: seq<byte>): (n: nat)
    ensures n == 0 || 6 <= n <= |s|
  {
    if |s| < 2 || s[0] != 0x68 then 0 else
    var len: nat := s[1];
    if len < 4 || 2 + len > |s| then 0 else 2 + len
  }

  lemma SizeFromFront()
    ensures FromFront(Size)
  {
    forall s: seq<byte>, t: seq<byte> | Size(s) > 0 ensures Size(s + t) == Size(s) {
      assert (s + t)[0] == s[0] && (s + t)[1] == s[1];
    }
    forall s: seq<byte>, n: nat | 0 < Size(s) == n ensures Size(s[..n]) == n {
      assert s[..n][0] == s[0] && s[..n][1] == s[1];
    }
  }

  function AsduOf(a: seq<byte>): Option<Asdu> {
    if |a| < 6 then None else
    var objectAddress: nat := if |a| >= 9 then LeValue(a[6..9]) else 0;
    Some(Asdu(a[0], LeValue(a[2..4]) % 0x40, LeValue(a[4..6]), if |a| >= 9 then Some(objectAddress) else None))
  }

  function FrameOf(f: seq<byte>): Option<Frame> {
    if |f| < 6 || f[0] != 0x68 then None
    else if f[2] % 2 == 0 then Some(I(LeValue(f[2..4]) / 2, LeValue(f[4..6]) / 2, AsduOf(f[6..]), f[6..]))
    else if f[2] % 4 == 1 then Some(S(LeValue(f[4..6]) / 2))
    else if f[2] % 4 == 3 then Some(U(f[2]))
    else None
  }

  /** A frame that has been delimited is always parsed: the control field of none of the three formats,
      the last case of the source, cannot occur. */
  lemma FrameAlwaysParsed()
    ensures Parses(Size, FrameOf)
  {
    hide LeValue, AsduOf;
  }

  method ParseFrames(data: seq<byte>) returns (frames: seq<Frame>)
    ensures frames == Parsed(Size, FrameOf, data)
  {
    hide Parsed, FrameOf, Size;
    frames := [];
    var offset := 0;
    assert data[0..] == data;
    while offset + 2 <= |data|
      invariant offset <= |data| && frames + Parsed(Size, FrameOf, data[offset..]) == Parsed(Size, FrameOf, data)
      decreases |data| - offset
    {
      ParsedStep(Size, FrameOf, frames, data, offset);
      SizeAt(data, offset);
      if data[offset] != 0x68 {
        break;
      }
      var len: nat := data[offset + 1];
      if len < 4 || offset + 2 + len > |data| {
        break;
      }
      var frame := FrameOf(data[offset..offset + 2 + len]);
      if frame.None? {
        break;
      }
      frames := frames + [frame.value];
      offset := offset + 2 + len;
    }
    ParsedStep(Size, FrameOf, frames, data, offset);
    SizeAt(data, offset);
  }

  lemma SizeAt(data: seq<byte>, offset: nat)
    requires offset <= |data|
    ensures var n := Size(data[offset..]);
            if offset + 2 > |data| || data[offset] != 0x68 then n == 0 else
            var len: nat := data[offset + 1];
            if len < 4 || offset + 2 + len > |data| then n == 0 else n == 2 + len
  {
  }

  /** parse(a + b) = parse(a) + parse(b) whenever `a` is a concatenation of whole frames. */
  lemma StreamAdds(fs: seq<seq<byte>>, b: seq<byte>)
    requires forall f <- fs :: IsFrame(Size, f)
    ensures var a := Concat(fs);
            && Parsed(Size, FrameOf, a + b) == Parsed(Size, FrameOf, a) + Parsed(Size, FrameOf, b)
            && |Parsed(Size, FrameOf, a)| == |fs|
            && forall i :: 0 <= i < |fs| ==> FrameOf(fs[i]) == Some(Parsed(Size, FrameOf, a)[i])
  {
    hide FromFront, Parses, IsFrame, Split, Parsed, Size, FrameOf;
    SizeFromFront();
    FrameAlwaysParsed();
    WholeIfFrames(Size, fs);
    ParsedAdds(Size, FrameOf, Concat(fs), b);
    ParsedIsSplit(Size, FrameOf, Concat(fs));
  }

  // ======== Frames on the wire ========

  function FrameWire(control: seq<byte>, asdu: seq<byte>): seq<byte>
    requires |control| == 4 && |asdu| < 252
  { [0x68, 4 + |asdu|] + control + asdu }

  lemma FrameWhole(control: seq<byte>, asdu: seq<byte>)
    requires |control| == 4 && |asdu| < 252
    ensures IsFrame(Size, FrameWire(control, asdu))
    ensures var f := FrameWire(control, asdu); f[2..4] == control[..2] && f[4..6] == control[2..] && f[6..] == asdu
  {
  }

  /** An information frame gives back its sequence numbers and its ASDU; bit 0 of the second is unused. */
  lemma IForward(send: nat, receive: nat, spare: nat, asdu: seq<byte>)
    requires send < 0x8000 && receive < 0x8000 && spare < 2 && |asdu| < 252
    ensures FrameOf(FrameWire(LeBytes(2 * send, 2) + LeBytes(2 * receive + spare, 2), asdu)) ==
            Some(I(send, receive, AsduOf(asdu), asdu))
  {
    hide LeValue, AsduOf;
    var a, b := LeBytes(2 * send, 2), LeBytes(2 * receive + spare, 2);
    var control := a + b;
    FrameWhole(control, asdu);
    assert control[..2] == a && control[2..] == b;
    Pow256Values();
    LeRoundTrip(2 * send, 2);
    LeRoundTrip(2 * receive + spare, 2);
    var f := FrameWire(control, asdu);
    assert f[2] == a[0] == 2 * send % 256;
    assert (2 * send % 256) % 2 == 0;
  }

  /** Supervisory and unnumbered frames, told apart by the low two bits of the control field. */
  lemma SUForward(control: seq<byte>, asdu: seq<byte>)
    requires |control| == 4 && |asdu| < 252 && control[0] % 2 == 1
    ensures FrameOf(FrameWire(control, asdu)) ==
            Some(if control[0] % 4 == 1 then S(LeValue(control[2..]) / 2) else U(control[0]))
  {
    hide LeValue;
    FrameWhole(control, asdu);
    assert FrameWire(control, asdu)[2] == control[0];
  }

  /** Every delimited frame is one of these: an information frame of its sequence numbers and ASDU ... */
  lemma IBackward(f: seq<byte>) returns (send: nat, receive: nat, spare: nat, asdu: seq<byte>)
    requires IsFrame(Size, f) && FrameOf(f).value.I?
    ensures send < 0x8000 && receive < 0x8000 && spare < 2 && |asdu| < 252
    ensures f == FrameWire(LeBytes(2 * send, 2) + LeBytes(2 * receive + spare, 2), asdu)
    ensures FrameOf(f) == Some(I(send, receive, AsduOf(asdu), asdu))
  {
    hide LeValue, LeBytes, AsduOf;
    var a, b := LeValue(f[2..4]), LeValue(f[4..6]);
    Pow256Values();
    EvenFront(f[2..4]);
    send, receive, spare, asdu := a / 2, b / 2, b % 2, f[6..];
    LeBytesOfValue(f[2..4]);
    LeBytesOfValue(f[4..6]);
    assert f == [f[0], f[1]] + (f[2..4] + f[4..6]) + f[6..];
  }

  lemma EvenFront(s: seq<byte>)
    requires s != []
    ensures LeValue(s) % 2 == s[0] % 2
  {
  }

  /** ... or one of the other two formats, whatever its control field and its ASDU. */
  lemma SUBackward(f: seq<byte>) returns (control: seq<byte>, asdu: seq<byte>)
    requires IsFrame(Size, f) && !FrameOf(f).value.I?
    ensures |control| == 4 && |asdu| < 252 && control[0] % 2 == 1 && f == FrameWire(control, asdu)
    ensures FrameOf(f) == Some(if control[0] % 4 == 1 then S(LeValue(control[2..]) / 2) else U(control[0]))
  {
    hide LeValue, AsduOf;
    control, asdu := f[2..6], f[6..];
    assert control[2..] == f[4..6];
    assert f == [f[0], f[1]] + control + asdu;
  }

  lemma AsduForward(typeId: byte, vsq: byte, cause: nat, high: nat, common: nat, ioa: nat, rest: seq<byte>)
    requires cause < 0x40 && high < 0x400 && common < 0x1_0000 && ioa < 0x100_0000
    ensures AsduOf([typeId, vsq] + LeBytes(cause + 0x40 * high, 2) + LeBytes(common, 2) + LeBytes(ioa, 3) + rest) ==
            Some(Asdu(typeId, cause, common, Some(ioa)))
  {
    hide LeValue, LeBytes;
    var a := [typeId, vsq] + LeBytes(cause + 0x40 * high, 2) + LeBytes(common, 2) + LeBytes(ioa, 3) + rest;
    assert a[2..4] == LeBytes(cause + 0x40 * high, 2) && a[4..6] == LeBytes(common, 2) && a[6..9] == LeBytes(ioa, 3);
    Pow256Values();
    assert Pow256(3) == 0x100_0000;
    LeRoundTrip(cause + 0x40 * high, 2);
    LeRoundTrip(common, 2);
    LeRoundTrip(ioa, 3);
  }

  /** An ASDU too short for an object address has none. */
  lemma ShortAsduForward(typeId: byte, vsq: byte, cause: nat, high: nat, common: nat, rest: seq<byte>)
    requires cause < 0x40 && high < 0x400 && common < 0x1_0000 && |rest| < 3
    ensures AsduOf([typeId, vsq] + LeBytes(cause + 0x40 * high, 2) + LeBytes(common, 2) + rest) ==
            Some(Asdu(typeId, cause, common, None))
  {
    hide LeValue, LeBytes;
    var a := [typeId, vsq] + LeBytes(cause + 0x40 * high, 2) + LeBytes(common, 2) + rest;
    assert a[2..4] == LeBytes(cause + 0x40 * high, 2) && a[4..6] == LeBytes(common, 2);
    Pow256Values();
    LeRoundTrip(cause + 0x40 * high, 2);
    LeRoundTrip(common, 2);
  }

  /** Every ASDU that is read is one of these two. */
  lemma AsduBackward(a: seq<byte>)
    returns (vsq: byte, high: nat, rest: seq<byte>)
    requires AsduOf(a).Some?
    ensures var d := AsduOf(a).value;
            && d.cause < 0x40 && high < 0x400 && d.commonAddress < 0x1_0000
            && (d.objectAddress.Some? ==> d.objectAddress.value < 0x100_0000) && (d.objectAddress.None? ==> |rest| < 3)
            && a == [d.typeId, vsq] + LeBytes(d.cause + 0x40 * high, 2) + LeBytes(d.commonAddress, 2)
                    + (if d.objectAddress.Some? then LeBytes(d.objectAddress.value, 3) else []) + rest
  {
    hide LeValue, LeBytes;
    Pow256Values();
    assert Pow256(3) == 0x100_0000;
    vsq, high := a[1], LeValue(a[2..4]) / 0x40;
    LeBytesOfValue(a[2..4]);
    LeBytesOfValue(a[4..6]);
    assert a == [a[0], a[1]] + a[2..4] + a[4..6] + a[6..];
    if |a| >= 9 {
      rest := a[9..];
      LeBytesOfValue(a[6..9]);
      assert a[6..] == a[6..9] + rest;
    } else {
      rest := a[6..];
    }
  }
}

/** HART-IP streams. */
module HartIp {
  import opened Bytes
  import opened Collections
  import opened Framing

  const HEADER := 8

  datatype Frame = Frame(version: byte, messageType: byte, messageId: byte, status: byte,
                         transaction: nat, length: nat, payload: seq<byte>)

  /** The length at offset six counts the header too. */
  function Size(s: seq<byte>): (n: nat)
    ensures n == 0 || HEADER <= n <= |s|
  {
    if |s| < HEADER then 0 else
    var len := BeValue(s[6..8]);
    if len < HEADER || len > |s| then 0 else len
  }

  lemma SizeFromFront()
    ensures FromFront(Size)
  {
    hide BeValue;
    forall s: seq<byte>, t: seq<byte> | Size(s) > 0 ensures Size(s + t) == Size(s) {
      assert (s + t)[6..8] == s[6..8];
    }
    forall s: seq<byte>, n: nat | 0 < Size(s) == n ensures Size(s[..n]) == n {
      assert s[..n][6..8] == s[6..8];
    }
  }

  function FrameOf(f: seq<byte>): Option<Frame> {
    var len := Size(f);
    if len == 0 then None else
    Some(Frame(f[0], f[1], f[2], f[3], BeValue(f[4..6]), len, f[HEADER..len]))
  }

  lemma FrameAlwaysParsed()
    ensures Parses(Size, FrameOf)
  {
    hide BeValue;
  }

  method ParseFrames(data: seq<byte>) returns (frames: seq<Frame>)
    ensures frames == Parsed(Size, FrameOf, data)
  {
    hide Parsed, FrameOf, Size, BeValue;
    frames := [];
    var offset := 0;
    assert data[0..] == data;
    while offset + HEADER <= |data|
      invariant offset <= |data| && frames + Parsed(Size, FrameOf, data[offset..]) == Parsed(Size, FrameOf, data)
      decreases |data| - offset
    {
      ParsedStep(Size, FrameOf, frames, data, offset);
      SizeAt(data, offset);
      var len := BeValue(data[offset + 6..offset + 8]);
      if len < HEADER || offset + len > |data| {
        break;
      }
      var frame := FrameOf(data[offset..offset + len]);
      if frame.None? {
        break;
      }
      frames := frames + [frame.value];
      offset := offset + len;
    }
    ParsedStep(Size, FrameOf, frames, data, offset);
    SizeAt(data, offset);
  }

  lemma SizeAt(data: seq<byte>, offset: nat)
    requires offset <= |data|
    ensures var n := Size(data[offset..]);
            if offset + HEADER > |data| then n == 0 else
            var len := BeValue(data[offset + 6..offset + 8]);
            if len < HEADER || offset + len > |data| then n == 0 else n == len
  {
    hide BeValue;
    if offset + HEADER <= |data| {
      assert data[offset..][6..8] == data[offset + 6..offset + 8];
    }
  }

  // ======== Frames on the wire ========

  function FrameWire(f: Frame): seq<byte> {
    [f.version, f.messageType, f.messageId, f.status] + BeBytes(f.transaction, 2) + BeBytes(f.length, 2) + f.payload
  }

  predicate Valid(f: Frame) { f.transaction < 0x1_0000 && f.length == HEADER + |f.payload| < 0x1_0000 }

  /** Encoding and parsing are inverse to each other on whole frames. */
  lemma FrameForward(f: Frame)
    requires Valid(f)
    ensures IsFrame(Size, FrameWire(f)) && FrameOf(FrameWire(f)) == Some(f)
  {
    hide BeValue, BeBytes;
    var s := FrameWire(f);
    assert s[4..6] == BeBytes(f.transaction, 2) && s[6..8] == BeBytes(f.length, 2) && s[8..f.length] == f.payload;
    Pow256Values();
    BeRoundTrip(f.transaction, 2);
    BeRoundTrip(f.length, 2);
  }

  lemma FrameBackward(s: seq<byte>)
    requires IsFrame(Size, s)
    ensures FrameOf(s).Some? && Valid(FrameOf(s).value) && FrameWire(FrameOf(s).value) == s
  {
    hide BeValue, BeBytes;
    Pow256Values();
    BeBytesOfValue(s[4..6]);
    BeBytesOfValue(s[6..8]);
    assert s == [s[0], s[1], s[2], s[3]] + s[4..6] + s[6..8] + s[8..];
  }

  function Wires(fs: seq<Frame>): (ws: seq<seq<byte>>)
    ensures |ws| == |fs|
  { seq(|fs|, i requires 0 <= i < |fs| => FrameWire(fs[i])) }

  /** What the splitter returns is exactly the frames that make up the longest prefix of whole frames. */
  lemma ParsedIff(s: seq<byte>) returns (rest: seq<byte>)
    ensures var fs := Parsed(Size, FrameOf, s);
            s == Concat(Wires(fs)) + rest && Size(rest) == 0 && forall f <- fs :: Valid(f)
  {
    hide FromFront, Parses, IsFrame, Split, Parsed, Size, FrameOf, FrameWire, Valid, Concat;
    SizeFromFront();
    FrameAlwaysParsed();
    var fs, ws := Parsed(Size, FrameOf, s), Split(Size, s);
    rest := SplitBackward(Size, s);
    ParsedIsSplit(Size, FrameOf, s);
    forall i | 0 <= i < |fs| ensures FrameWire(fs[i]) == ws[i] && Valid(fs[i]) {
      assert IsFrame(Size, ws[i]) && FrameOf(ws[i]) == Some(fs[i]);
      FrameBackward(ws[i]);
    }
    assert Wires(fs) == ws;
  }

  /** Any run of whole frames is recovered, and what follows it is parsed on its own. */
  lemma StreamAdds(fs: seq<Frame>, b: seq<byte>)
    requires forall f <- fs :: Valid(f)
    ensures Parsed(Size, FrameOf, Concat(Wires(fs)) + b) == fs + Parsed(Size, FrameOf, b)
  {
    hide FromFront, Parses, IsFrame, Split, Parsed, Size, FrameOf, FrameWire, Valid, Concat;
    SizeFromFront();
    FrameAlwaysParsed();
    var ws := Wires(fs);
    forall i | 0 <= i < |fs| ensures IsFrame(Size, ws[i]) && FrameOf(ws[i]) == Some(fs[i]) {
      FrameForward(fs[i]);
    }
    WholeIfFrames(Size, ws);
    ParsedIsSplit(Size, FrameOf, Concat(ws));
    var gs := Parsed(Size, FrameOf, Concat(ws));
    forall i | 0 <= i < |fs| ensures gs[i] == fs[i] {
      assert FrameOf(ws[i]) == Some(gs[i]);
    }
    assert gs == fs;
    ParsedAdds(Size, FrameOf, Concat(ws), b);
  }
}
