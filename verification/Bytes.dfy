/** Bytes, fixed-width integers and the "occurs at" predicate that the wire decoders share. */
module Bytes {

  type byte = b: int | 0 <= b < 256

  datatype Option<+T> = None | Some(value: T)

  /** The source's `b & flag != 0`, for a `flag` that is a power of two. */
  predicate HasFlag(b: byte, flag: nat)
    requires flag > 0
  {
    (b / flag) % 2 == 1
  }

  // ---- Integers of a fixed number of bytes ----

  function Pow256(k: nat): (n: nat)
    ensures n > 0
  {
    if k == 0 then 1 else 256 * Pow256(k - 1)
  }

  lemma Pow256Values()
    ensures Pow256(1) == 0x100
    ensures Pow256(2) == 0x1_0000
    ensures Pow256(4) == 0x1_0000_0000
    ensures Pow256(8) == 0x1_0000_0000_0000_0000
  {
    assert Pow256(3) == 0x100_0000;
    assert Pow256(5) == 0x100_0000_0000;
    assert Pow256(6) == 0x1_0000_0000_0000;
    assert Pow256(7) == 0x100_0000_0000_0000;
  }

  /** One more than the largest 64-bit value. */
  const MOD64 := 0x1_0000_0000_0000_0000

  /** The unsigned little-endian value of `s` (`from_le_bytes`). */
  function LeValue(s: seq<byte>): (n: nat)
    ensures n < Pow256(|s|)
  {
    if s == [] then 0 else s[0] + 256 * LeValue(s[1..])
  }

  /** The low `k` bytes of `n`, least significant first (`to_le_bytes`). */
  function LeBytes(n: nat, k: nat): (s: seq<byte>)
    ensures |s| == k
  {
    if k == 0 then [] else [n % 256] + LeBytes(n / 256, k - 1)
  }

  lemma {:induction false} LeRoundTrip(n: nat, k: nat)
    requires n < Pow256(k)
    ensures LeValue(LeBytes(n, k)) == n
  {
    if k > 0 {
      LeRoundTrip(n / 256, k - 1);
      assert LeBytes(n, k)[1..] == LeBytes(n / 256, k - 1);
    }
  }

  lemma {:induction false} LeBytesOfValue(s: seq<byte>)
    ensures LeBytes(LeValue(s), |s|) == s
  {
    if s != [] {
      LeBytesOfValue(s[1..]);
      assert (s[0] + 256 * LeValue(s[1..])) / 256 == LeValue(s[1..]);
    }
  }

  /** The unsigned big-endian value of `s`, accumulated from the left. */
  function BeValue(s: seq<byte>): (n: nat)
    ensures n < Pow256(|s|)
  {
    if s == [] then 0 else 256 * BeValue(s[..|s| - 1]) + s[|s| - 1]
  }

  /** The low `k` bytes of `n`, most significant first (`to_be_bytes`). */
  function BeBytes(n: nat, k: nat): (s: seq<byte>)
    ensures |s| == k
  {
    if k == 0 then [] else BeBytes(n / 256, k - 1) + [n % 256]
  }

  lemma {:induction false} BeRoundTrip(n: nat, k: nat)
    requires n < Pow256(k)
    ensures BeValue(BeBytes(n, k)) == n
  {
    if k > 0 {
      BeRoundTrip(n / 256, k - 1);
      assert BeBytes(n, k)[..k - 1] == BeBytes(n / 256, k - 1);
    }
  }

  lemma {:induction false} BeBytesOfValue(s: seq<byte>)
    ensures BeBytes(BeValue(s), |s|) == s
  {
    if s != [] {
      var init := s[..|s| - 1];
      BeBytesOfValue(init);
      assert (256 * BeValue(init) + s[|s| - 1]) / 256 == BeValue(init);
      assert s == init + [s[|s| - 1]];
    }
  }

  /** Reads `n`, an unsigned `k`-byte value, as two's complement. */
  function ToSigned(n: nat, k: nat): (v: int)
    requires n < Pow256(k)
    ensures SignedRange(v, k)
  {
    if 2 * n >= Pow256(k) then n - Pow256(k) else n
  }

  function FromSigned(v: int, k: nat): (n: nat)
    requires SignedRange(v, k)
    ensures n < Pow256(k)
    ensures ToSigned(n, k) == v
  {
    if v < 0 then v + Pow256(k) else v
  }

  predicate SignedRange(v: int, k: nat) {
    0 <= 2 * v + Pow256(k) && 2 * v < Pow256(k)
  }

  // ---- Occurrence of an encoding inside a larger byte string ----

  /** The bytes `e` occur in `s` at offset `p`; what precedes and follows them is arbitrary. */
  predicate At(s: seq<byte>, p: nat, e: seq<byte>) {
    p + |e| <= |s| && s[p..p + |e|] == e
  }

  lemma AtSplit(s: seq<byte>, p: nat, a: seq<byte>, b: seq<byte>)
    ensures At(s, p, a + b) <==> At(s, p, a) && At(s, p + |a|, b)
  {
    if p + |a| + |b| <= |s| {
      var m := s[p..p + |a + b|];
      assert m[..|a|] == s[p..p + |a|];
      assert m[|a|..] == s[p + |a|..p + |a| + |b|];
      assert m == m[..|a|] + m[|a|..];
      assert (a + b)[..|a|] == a && (a + b)[|a|..] == b;
    }
  }

  lemma AtHead(s: seq<byte>, p: nat, b: byte, rest: seq<byte>)
    ensures At(s, p, [b] + rest) <==> p < |s| && s[p] == b && At(s, p + 1, rest)
  {
    AtSplit(s, p, [b], rest);
    assert p < |s| ==> s[p..p + 1] == [s[p]];
  }

  lemma AtByte(s: seq<byte>, p: nat, b: byte)
    ensures At(s, p, [b]) <==> p < |s| && s[p] == b
  {
    assert p < |s| ==> s[p..p + 1] == [s[p]];
  }

  lemma AtNothing(s: seq<byte>, p: nat)
    ensures At(s, p, []) <==> p <= |s|
  {
  }

  lemma AtAround(pre: seq<byte>, e: seq<byte>, post: seq<byte>)
    ensures At(pre + e + post, |pre|, e)
  {
  }

  lemma AtSlice(s: seq<byte>, p: nat, e: seq<byte>)
    requires At(s, p, e)
    ensures p + |e| <= |s| && s[p..p + |e|] == e
  {
  }

  lemma AtHere(s: seq<byte>, p: nat, n: nat)
    requires p <= n <= |s|
    ensures At(s, p, s[p..n])
  {
  }

  // ---- UTF-8 well-formedness (what `std::str::from_utf8` accepts) ----

  predicate Continuation(b: byte) {
    0x80 <= b <= 0xBF
  }

  /** Length of the well-formed scalar at the front of `s`, or 0 when there is none. */
  function Utf8Front(s: seq<byte>): (n: nat)
    requires s != []
    ensures n <= |s|
  {
    if s[0] <= 0x7F then 1
    else if |s| >= 2 && 0xC2 <= s[0] <= 0xDF && Continuation(s[1]) then 2
    else if |s| >= 3 && 0xE0 <= s[0] <= 0xEF && Continuation(s[1]) && Continuation(s[2])
            && (s[0] == 0xE0 ==> s[1] >= 0xA0) && (s[0] == 0xED ==> s[1] <= 0x9F) then 3
    else if |s| >= 4 && 0xF0 <= s[0] <= 0xF4 && Continuation(s[1]) && Continuation(s[2])
            && Continuation(s[3]) && (s[0] == 0xF0 ==> s[1] >= 0x90) && (s[0] == 0xF4 ==> s[1] <= 0x8F) then 4
    else 0
  }

  predicate Utf8(s: seq<byte>) {
    s == [] || (Utf8Front(s) > 0 && Utf8(s[Utf8Front(s)..]))
  }
}
