/** The BER subset the SNMP dissector reads: TLV headers (section 8.1.3 of X.690), INTEGER (8.3) and
    OBJECT IDENTIFIER (8.19), with the encoders its tests use. */
module Ber {
  import opened Bytes

  // ======== TLV ========

  /** A decoded tag and length, and where the contents begin. */
  datatype Head = Head(tag: byte, len: nat, at: nat)

  function HeadAt(data: seq<byte>, p: nat): (h: Option<Head>)
    ensures h.Some? ==> p + 2 <= h.value.at <= |data|
  {
    if p + 2 > |data| then None
    else if data[p + 1] < 0x80 then Some(Head(data[p], data[p + 1], p + 2))
    else
      var n := data[p + 1] - 0x80;
      if n == 0 || n > 4 || p + 2 + n > |data| then None
      else Some(Head(data[p], BeValue(data[p + 2..p + 2 + n]), p + 2 + n))
  }

  /** A whole TLV that must end by `end`. */
  function TlvAt(data: seq<byte>, p: nat, end: nat): (h: Option<Head>)
    ensures h.Some? ==> p + 2 <= h.value.at && h.value.at + h.value.len <= end && h.value.at + h.value.len <= |data|
  {
    var h := HeadAt(data, p);
    if h.None? || h.value.at + h.value.len > end || h.value.at + h.value.len > |data| then None else h
  }

  method ReadTlvHeader(data: seq<byte>, cursor: nat) returns (h: Option<Head>)
    ensures h == HeadAt(data, cursor)
  {
    if cursor + 2 > |data| { return None; }
    var tag, first := data[cursor], data[cursor + 1];
    var at: nat := cursor + 2;
    if first < 0x80 { return Some(Head(tag, first, at)); }
    var n: nat := first - 0x80;
    if n == 0 || n > 4 || at + n > |data| { return None; }
    var len: nat := 0;
    for i := 0 to n
      invariant at == cursor + 2 + i && len == BeValue(data[cursor + 2..at])
    {
      assert data[cursor + 2..at + 1][..i] == data[cursor + 2..at];
      len := len * 256 + data[at];
      at := at + 1;
    }
    return Some(Head(tag, len, at));
  }

  /** A length in short form, or in long form with `k` octets, which need not be the fewest. */
  predicate LengthFits(n: nat, k: nat) { if k == 0 then n < 0x80 else k <= 4 && n < Pow256(k) }

  function LengthIn(n: nat, k: nat): (e: seq<byte>)
    requires LengthFits(n, k)
    ensures |e| == 1 + k
  { if k == 0 then [n] else [0x80 + k] + BeBytes(n, k) }

  /** A header with any definite length below 2^32, in any form, is read back. */
  lemma HeadForward(data: seq<byte>, p: nat, tag: byte, n: nat, k: nat)
    requires LengthFits(n, k) && At(data, p, [tag] + LengthIn(n, k))
    ensures HeadAt(data, p) == Some(Head(tag, n, p + 2 + k))
  {
    hide At, BeBytes, BeValue;
    AtHead(data, p, tag, LengthIn(n, k));
    if k == 0 {
      AtByte(data, p + 1, n);
    } else {
      AtHead(data, p + 1, 0x80 + k, BeBytes(n, k));
      AtSlice(data, p + 2, BeBytes(n, k));
      BeRoundTrip(n, k);
    }
  }

  /** Nothing else is accepted as a header. */
  lemma HeadBackward(data: seq<byte>, p: nat) returns (k: nat)
    requires HeadAt(data, p).Some?
    ensures var h := HeadAt(data, p).value;
            LengthFits(h.len, k) && At(data, p, [h.tag] + LengthIn(h.len, k)) && h.at == p + 2 + k
  {
    hide At, BeBytes, BeValue;
    var h := HeadAt(data, p).value;
    if data[p + 1] < 0x80 {
      k := 0;
      AtByte(data, p + 1, h.len);
    } else {
      k := data[p + 1] - 0x80;
      AtHere(data, p + 2, p + 2 + k);
      BeBytesOfValue(data[p + 2..p + 2 + k]);
      AtHead(data, p + 1, 0x80 + k, BeBytes(h.len, k));
    }
    AtHead(data, p, h.tag, LengthIn(h.len, k));
  }

  /** The number of long-form octets an encoder uses: none below 128, else as few as hold the length. */
  function Fewest(n: nat): (k: nat)
    requires n < Pow256(4)
    ensures LengthFits(n, k) && k <= 4
  {
    Pow256Values();
    assert Pow256(3) == 0x100_0000;
    if n < 0x80 then 0 else if n < 0x100 then 1 else if n < 0x1_0000 then 2 else if n < 0x100_0000 then 3 else 4
  }

  function Contents(data: seq<byte>, h: Head): seq<byte>
    requires h.at + h.len <= |data|
  { data[h.at..h.at + h.len] }

  /** An element with its length in any definite form. */
  datatype Elem = Elem(tag: byte, form: nat, content: seq<byte>) {
    predicate Ok() { LengthFits(|content|, form) }
    function Encode(): (e: seq<byte>)
      requires Ok()
      ensures |e| == 2 + form + |content|
    { [tag] + LengthIn(|content|, form) + content }
    function Header(p: nat): Head { Head(tag, |content|, p + 2 + form) }
  }

  /** An element, wherever it occurs, is read back whole. */
  lemma ElemForward(data: seq<byte>, p: nat, end: nat, w: Elem)
    requires w.Ok() && At(data, p, w.Encode()) && p + |w.Encode()| <= end <= |data|
    ensures HeadAt(data, p) == TlvAt(data, p, end) == Some(w.Header(p))
    ensures At(data, p + 2 + w.form, w.content) && Contents(data, w.Header(p)) == w.content
  {
    hide At, HeadAt, LengthIn, LengthFits;
    var n := |w.content|;
    AtSplit(data, p, [w.tag] + LengthIn(n, w.form), w.content);
    HeadForward(data, p, w.tag, n, w.form);
    AtSlice(data, p + 2 + w.form, w.content);
  }

  /** Nothing else is delimited as an element. */
  lemma ElemBackward(data: seq<byte>, p: nat, end: nat) returns (w: Elem)
    requires end <= |data| && HeadAt(data, p).Some? && HeadAt(data, p).value.at + HeadAt(data, p).value.len <= end
    ensures w.Ok() && At(data, p, w.Encode()) && p + |w.Encode()| <= end
    ensures HeadAt(data, p) == TlvAt(data, p, end) == Some(w.Header(p)) && Contents(data, w.Header(p)) == w.content
  {
    hide At, HeadAt, LengthIn, LengthFits;
    var h := HeadAt(data, p).value;
    var k := HeadBackward(data, p);
    w := Elem(h.tag, k, data[h.at..h.at + h.len]);
    AtHere(data, h.at, h.at + h.len);
    AtSplit(data, p, [w.tag] + LengthIn(h.len, k), w.content);
  }

  /** An element with the fewest length octets. */
  function Shortest(tag: byte, content: seq<byte>): (w: Elem)
    requires |content| < Pow256(4)
    ensures w.Ok() && w.tag == tag && w.content == content && |w.Encode()| <= |content| + 6
  {
    Elem(tag, Fewest(|content|), content)
  }

  lemma TlvIsHead(data: seq<byte>, p: nat, end: nat)
    requires TlvAt(data, p, end).Some?
    ensures HeadAt(data, p) == TlvAt(data, p, end)
    ensures HeadAt(data, p).value.at + HeadAt(data, p).value.len <= end
  {
    hide HeadAt;
  }

  // ======== INTEGER ========

  /** 64 accumulated bits read as an `i64`. */
  function AsI64(low: nat): int { if low >= 0x8000_0000_0000_0000 then low - MOD64 else low }

  /** The accumulated low 64 bits, sign-extended when fewer than eight bytes were read. */
  function ParseInt(bytes: seq<byte>): Option<int> {
    if bytes == [] then None else
    var value := AsI64(BeValue(bytes) % MOD64);
    Some(if bytes[0] >= 0x80 && |bytes| < 8 then value - Pow256(|bytes|) else value)
  }

  lemma ParseIntIff(bytes: seq<byte>)
    ensures ParseInt(bytes).Some? <==> bytes != []
  {
  }

  method ParseInteger(bytes: seq<byte>) returns (v: Option<int>)
    ensures v == ParseInt(bytes)
  {
    if bytes == [] { return None; }
    var acc: nat := 0;
    for i := 0 to |bytes|
      invariant acc == BeValue(bytes[..i]) % MOD64
    {
      assert bytes[..i + 1][..i] == bytes[..i];
      ShiftInto(BeValue(bytes[..i]), bytes[i]);
      acc := (acc * 256 + bytes[i]) % MOD64;
    }
    assert bytes[..|bytes|] == bytes;
    var value := AsI64(acc);
    if bytes[0] >= 0x80 && |bytes| < 8 { value := value - Pow256(|bytes|); }
    return Some(value);
  }

  lemma Remainder(k: nat, r: nat)
    requires r < MOD64
    ensures (k * MOD64 + r) % MOD64 == r
  {
  }

  /** Dropping the high bits early or late makes no difference. */
  lemma ShiftInto(x: nat, b: byte)
    ensures ((x % MOD64) * 256 + b) % MOD64 == (256 * x + b) % MOD64
  {
    var q, low := x / MOD64, x % MOD64;
    var y := low * 256 + b;
    var k, r := y / MOD64, y % MOD64;
    assert y == k * MOD64 + r && x == q * MOD64 + low;
    Remainder(256 * q + k, r);
    assert 256 * x + b == (256 * q + k) * MOD64 + r;
  }

  lemma {:induction false} Pow256Mono(i: nat, j: nat)
    requires i <= j
    ensures Pow256(i) <= Pow256(j)
    decreases j
  {
    if i < j { Pow256Mono(i, j - 1); }
  }

  lemma NoBytes(s: seq<byte>)
    requires s == []
    ensures BeValue(s) == 0
  {
  }

  lemma BeLast(s: seq<byte>)
    requires s != []
    ensures BeValue(s) == 256 * BeValue(s[..|s| - 1]) + s[|s| - 1]
  {
  }

  /** The sign bit is the top bit of the first byte. */
  lemma {:induction false} TopByte(s: seq<byte>)
    requires s != []
    ensures s[0] >= 0x80 <==> 2 * BeValue(s) >= Pow256(|s|)
  {
    hide BeValue;
    BeLast(s);
    var n := |s| - 1;
    if n == 0 {
      NoBytes(s[..0]);
      assert Pow256(1) == 256;
    } else {
      TopByte(s[..n]);
      assert Pow256(|s|) == 256 * Pow256(n) && Pow256(n) == 256 * Pow256(n - 1);
    }
  }

  /** What a leading 0x00 or 0xFF adds to the value. */
  lemma {:induction false} LeadingByte(s: seq<byte>)
    requires s != [] && (s[0] == 0x00 || s[0] == 0xFF)
    ensures BeValue(s) == BeValue(s[1..]) + if s[0] == 0x00 then 0 else 255 * Pow256(|s| - 1)
  {
    var n := |s| - 1;
    if n == 0 {
      assert s[..0] == [] && s[1..] == [];
    } else {
      LeadingByte(s[..n]);
      assert s[..n][1..] == s[1..][..n - 1] && s[1..][n - 1] == s[n];
      assert Pow256(n) == 256 * Pow256(n - 1);
    }
  }

  /** The last eight octets, or all of them. */
  function LastEight(bytes: seq<byte>): seq<byte> {
    if |bytes| <= 8 then bytes else bytes[|bytes| - 8..]
  }

  lemma {:induction false} LowBytes(s: seq<byte>, k: nat)
    requires k <= |s|
    ensures BeValue(s) == BeValue(s[..|s| - k]) * Pow256(k) + BeValue(s[|s| - k..])
    decreases k
  {
    hide BeValue, Pow256;
    var m := |s| - k;
    if k == 0 {
      assert s[..m] == s;
      NoBytes(s[m..]);
      assert Pow256(0) == 1 by { PowNext(1); }
    } else {
      var init := s[..|s| - 1];
      LowBytes(init, k - 1);
      assert init[..m] == s[..m] && init[m..] == s[m..][..k - 1];
      BeLast(s);
      BeLast(s[m..]);
      PowNext(k);
      ShiftUp(BeValue(s[..m]), Pow256(k - 1), BeValue(init[m..]), s[|s| - 1]);
    }
  }

  lemma PowNext(k: nat)
    requires k > 0
    ensures Pow256(k) == 256 * Pow256(k - 1) && Pow256(0) == 1
  {
  }

  lemma ShiftUp(high: nat, unit: nat, low: nat, b: nat)
    ensures 256 * (high * unit + low) + b == high * (256 * unit) + (256 * low + b)
  {
  }

  /** Content octets mean the two's complement of their own width; of more than eight, the code keeps
      the last eight. */
  lemma IntegerMeaning(bytes: seq<byte>)
    requires bytes != []
    ensures ParseInt(bytes) == Some(ToSigned(BeValue(LastEight(bytes)), |LastEight(bytes)|))
  {
    hide BeValue;
    Pow256Values();
    if |bytes| <= 8 {
      ShortMeaning(bytes);
    } else {
      var last := LastEight(bytes);
      LowBytes(bytes, 8);
      Remainder(BeValue(bytes[..|bytes| - 8]), BeValue(last));
    }
  }

  lemma ShortMeaning(bytes: seq<byte>)
    requires 0 < |bytes| <= 8
    ensures ParseInt(bytes) == Some(ToSigned(BeValue(bytes), |bytes|))
  {
    hide BeValue;
    TopByte(bytes);
    Pow256Values();
    Pow256Mono(|bytes|, 8);
    if |bytes| < 8 {
      Pow256Mono(|bytes| + 1, 8);
      assert Pow256(|bytes| + 1) == 256 * Pow256(|bytes|);
    }
    assert BeValue(bytes) % MOD64 == BeValue(bytes);
  }

  /** A leading byte that only repeats the sign. */
  predicate Redundant(s: seq<byte>) {
    |s| > 1 && ((s[0] == 0x00 && s[1] < 0x80) || (s[0] == 0xFF && s[1] >= 0x80))
  }

  function Shorten(s: seq<byte>): seq<byte> {
    if Redundant(s) then Shorten(s[1..]) else s
  }

  lemma RedundantDrop(s: seq<byte>)
    requires Redundant(s)
    ensures ToSigned(BeValue(s), |s|) == ToSigned(BeValue(s[1..]), |s| - 1)
  {
    hide BeValue;
    LeadingByte(s);
    TopByte(s);
    TopByte(s[1..]);
    assert Pow256(|s|) == 256 * Pow256(|s| - 1);
  }

  lemma {:induction false} ShortenKeepsValue(s: seq<byte>)
    requires s != []
    ensures Shorten(s) != [] && |Shorten(s)| <= |s|
    ensures ToSigned(BeValue(Shorten(s)), |Shorten(s)|) == ToSigned(BeValue(s), |s|)
  {
    hide BeValue, ToSigned;
    if Redundant(s) {
      RedundantDrop(s);
      ShortenKeepsValue(s[1..]);
    }
  }

  /** The minimal two's-complement contents of an `i64`. */
  function IntContent(v: int): (e: seq<byte>)
    requires SignedRange(v, 8)
    ensures 0 < |e| <= 8
  {
    var s := BeBytes(FromSigned(v, 8), 8);
    ShortenKeepsValue(s);
    Shorten(s)
  }

  /** Every 64-bit integer survives its minimal encoding. */
  lemma IntegerRoundTrip(v: int)
    requires SignedRange(v, 8)
    ensures ParseInt(IntContent(v)) == Some(v)
  {
    var s := BeBytes(FromSigned(v, 8), 8);
    BeRoundTrip(FromSigned(v, 8), 8);
    ShortenKeepsValue(s);
    ShortMeaning(IntContent(v));
  }

  // ======== OBJECT IDENTIFIER ========

  const U32 := 0x1_0000_0000

  /** Arcs completed so far and the base-128 value under way (32 bits, high bits lost). */
  datatype Arcs = Arcs(done: seq<nat>, value: nat)

  function Feed(st: Arcs, b: byte): Arcs {
    var v := (st.value * 128) % U32 + b % 128;
    if b < 0x80 then Arcs(st.done + [v], 0) else Arcs(st.done, v)
  }

  function FeedAll(st: Arcs, bytes: seq<byte>): Arcs {
    if bytes == [] then st else Feed(FeedAll(st, bytes[..|bytes| - 1]), bytes[|bytes| - 1])
  }

  function OidArcs(bytes: seq<byte>): Option<seq<nat>> {
    if bytes == [] then None else
    var st := FeedAll(Arcs([bytes[0] / 40, bytes[0] % 40], 0), bytes[1..]);
    if st.value != 0 then None else Some(st.done)
  }

  method OidToArcs(bytes: seq<byte>) returns (arcs: Option<seq<nat>>)
    ensures arcs == OidArcs(bytes)
  {
    if bytes == [] { return None; }
    var done: seq<nat> := [bytes[0] / 40, bytes[0] % 40];
    var value: nat := 0;
    ghost var start := Arcs(done, 0);
    var rest := bytes[1..];
    for i := 0 to |rest|
      invariant Arcs(done, value) == FeedAll(start, rest[..i])
    {
      assert rest[..i + 1][..i] == rest[..i];
      var b: int := rest[i];
      value := (value * 128) % U32 + b % 128;
      if b < 0x80 {
        done, value := done + [value], 0;
      }
    }
    assert rest[..|rest|] == rest;
    if value != 0 { return None; }
    return Some(done);
  }

  function Continued(n: nat): seq<byte> {
    if n == 0 then [] else Continued(n / 128) + [n % 128 + 128]
  }

  function ArcBytes(n: nat): seq<byte> { Continued(n / 128) + [n % 128] }

  function ArcsBytes(arcs: seq<nat>): seq<byte> {
    if arcs == [] then [] else ArcBytes(arcs[0]) + ArcsBytes(arcs[1..])
  }

  lemma {:induction false} FeedConcat(st: Arcs, a: seq<byte>, b: seq<byte>)
    ensures FeedAll(st, a + b) == FeedAll(FeedAll(st, a), b)
    decreases |b|
  {
    hide Feed;
    if b == [] {
      assert a + b == a;
    } else {
      var n := |b| - 1;
      assert (a + b)[..|a + b| - 1] == a + b[..n];
      FeedConcat(st, a, b[..n]);
    }
  }

  lemma FeedOne(st: Arcs, b: byte)
    ensures FeedAll(st, [b]) == Feed(st, b)
  {
    assert [b][..0] == [];
  }

  lemma {:induction false} FeedContinued(done: seq<nat>, n: nat)
    requires n < U32
    ensures FeedAll(Arcs(done, 0), Continued(n)) == Arcs(done, n)
    decreases n
  {
    if n > 0 {
      FeedContinued(done, n / 128);
      FeedConcat(Arcs(done, 0), Continued(n / 128), [n % 128 + 128]);
      FeedOne(Arcs(done, n / 128), n % 128 + 128);
      Base128(n);
    }
  }

  lemma Base128(n: nat)
    requires n < U32
    ensures ((n / 128) * 128) % U32 + n % 128 == n
  {
    assert (n / 128) * 128 + n % 128 == n;
  }

  lemma FeedArc(done: seq<nat>, n: nat)
    requires n < U32
    ensures FeedAll(Arcs(done, 0), ArcBytes(n)) == Arcs(done + [n], 0)
  {
    hide FeedAll, Continued;
    FeedConcat(Arcs(done, 0), Continued(n / 128), [n % 128]);
    FeedContinued(done, n / 128);
    FeedOne(Arcs(done, n / 128), n % 128);
    Base128(n);
  }

  lemma {:induction false} FeedArcs(done: seq<nat>, arcs: seq<nat>)
    requires forall i :: 0 <= i < |arcs| ==> arcs[i] < U32
    ensures FeedAll(Arcs(done, 0), ArcsBytes(arcs)) == Arcs(done + arcs, 0)
    decreases |arcs|
  {
    hide ArcBytes, Feed;
    if arcs == [] {
      assert done + arcs == done;
    } else {
      FeedConcat(Arcs(done, 0), ArcBytes(arcs[0]), ArcsBytes(arcs[1..]));
      FeedArc(done, arcs[0]);
      FeedArcs(done + [arcs[0]], arcs[1..]);
      assert done + arcs == done + [arcs[0]] + arcs[1..];
    }
  }

  predicate OidOk(arcs: seq<nat>) {
    && |arcs| >= 2 && arcs[0] <= 2 && arcs[1] < 40
    && forall i :: 2 <= i < |arcs| ==> arcs[i] < U32
  }

  function OidContent(arcs: seq<nat>): seq<byte>
    requires OidOk(arcs)
  { [arcs[0] * 40 + arcs[1]] + ArcsBytes(arcs[2..]) }

  /** Object identifiers with 32-bit arcs survive their encoding. */
  lemma OidRoundTrip(arcs: seq<nat>)
    requires OidOk(arcs)
    ensures OidArcs(OidContent(arcs)) == Some(arcs)
  {
    var e := OidContent(arcs);
    assert e[1..] == ArcsBytes(arcs[2..]);
    assert e[0] / 40 == arcs[0] && e[0] % 40 == arcs[1];
    FeedArcs([arcs[0], arcs[1]], arcs[2..]);
    assert arcs == [arcs[0], arcs[1]] + arcs[2..];
  }

  lemma {:induction false} FeedKeeps(st: Arcs, bytes: seq<byte>)
    ensures |FeedAll(st, bytes).done| >= |st.done| && FeedAll(st, bytes).done[..|st.done|] == st.done
    decreases |bytes|
  {
    if bytes != [] { FeedKeeps(st, bytes[..|bytes| - 1]); }
  }

  lemma {:induction false} ContinuedTop(n: nat)
    requires n > 0
    ensures Continued(n) != [] && Continued(n)[0] >= 0x80
  {
    if n >= 128 { ContinuedTop(n / 128); }
  }

  /** The contents octets of section 8.19 of X.690: the first two arcs share one subidentifier. */
  function OidWire(a: nat, b: nat, rest: seq<nat>): seq<byte> { ArcBytes(40 * a + b) + ArcsBytes(rest) }

  /** Every identifier that section 8.19 of X.690 can encode, with later arcs below 2^32, is read back if
      and only if its second arc is below 40. Otherwise its root is 2, and the root read is 3 or more. */
  lemma FirstArcsIff(a: nat, b: nat, rest: seq<nat>)
    requires a <= 2 && (a < 2 ==> b < 40) && forall i :: 0 <= i < |rest| ==> rest[i] < U32
    ensures OidArcs(OidWire(a, b, rest)) == Some([a, b] + rest) <==> b < 40
    ensures var r := OidArcs(OidWire(a, b, rest));
            b >= 40 && r.Some? ==> |r.value| > 0 && r.value[0] >= 3
  {
    hide FeedAll, ArcsBytes;
    var e := OidWire(a, b, rest);
    if b < 40 {
      var arcs := [a, b] + rest;
      assert arcs[2..] == rest && ArcBytes(40 * a + b) == [40 * a + b];
      OidRoundTrip(arcs);
    } else {
      BigSecondArc(80 + b);
      assert e[0] == ArcBytes(80 + b)[0];
      FeedKeeps(Arcs([e[0] / 40, e[0] % 40], 0), e[1..]);
      assert e[0] / 40 >= 3;
    }
  }

  lemma BigSecondArc(n: nat)
    requires n >= 120
    ensures ArcBytes(n)[0] >= 120
  {
    if n >= 128 { ContinuedTop(n / 128); }
  }

  /** For example 2.999, the octets 0x88 0x37, is read as 3.16.55. */
  lemma ReadsAnotherRoot()
    ensures OidWire(2, 999, []) == [0x88, 0x37] && OidArcs([0x88, 0x37]) == Some([3, 16, 55])
  {
    assert Continued(8) == [0x88] by { assert Continued(0) == []; }
    assert ArcBytes(1079) == [0x88] + [0x37];
    var e: seq<byte> := [0x88, 0x37];
    assert e[1..] == [0x37];
    FeedOne(Arcs([3, 16], 0), 0x37);
    assert [3, 16] + [55] == [3, 16, 55];
  }
}
