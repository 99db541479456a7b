/** Where the name parser agrees with RFC 1035, and where it does not. */
module DnsRfc {
  import opened Bytes
  import opened DnsName

  const MAX_OCTETS := 255

  /** Bytes that no name of the RFC has where a label or a pointer should be: a length byte whose top two
      bits are 01 or 10, reserved by section 4.1.4, and a pointer that does not lead back, where the same
      section allows prior occurrences only. */
  predicate Reserved(data: seq<byte>, off: nat) { off < |data| && 0x40 <= data[off] < 0xC0 }

  predicate LeadsOn(data: seq<byte>, off: nat) {
    off + 1 < |data| && IsPointer(data[off]) && Target(data, off) >= off
  }

  predicate Plain(data: seq<byte>, off: nat) { !Reserved(data, off) && !LeadsOn(data, off) }

  /** The relation of RFC 1035: labels of at most 63 bytes, pointers back, a terminator. */
  predicate RfcDerives(data: seq<byte>, off: nat, labels: seq<seq<byte>>, n: nat)
    decreases n
  {
    && off < |data|
    && if n == 0 then data[off] == 0 && labels == []
       else if 0 < data[off] < 0x40 then
         && off + 1 + data[off] <= |data| && labels != [] && labels[0] == data[off + 1..off + 1 + data[off]]
         && RfcDerives(data, off + 1 + data[off], labels[1..], n - 1)
       else
         && off + 1 < |data| && data[off] >= 0xC0 && Target(data, off) < off
         && RfcDerives(data, Target(data, off), labels, n - 1)
  }

  /** The octets of a name written in full, which section 2.3.4 limits to 255. */
  function Octets(labels: seq<seq<byte>>): (n: nat)
    ensures n > 0
  {
    if labels == [] then 1 else 1 + |labels[0]| + Octets(labels[1..])
  }

  /** At `off` stands a name of RFC 1035, spelled in `n` steps. */
  predicate RfcName(data: seq<byte>, off: nat, labels: seq<seq<byte>>, n: nat) {
    RfcDerives(data, off, labels, n) && Octets(labels) <= MAX_OCTETS
  }

  // ======== What a caller can see on the walk ========

  /** Step `k` of the walk from `off`, if there is one, stands on a plain byte. */
  predicate PlainVisit(data: seq<byte>, off: nat, k: nat) {
    Hops(data, off, k).Some? ==> Plain(data, Hops(data, off, k).value)
  }

  ghost predicate PlainWalk(data: seq<byte>, off: nat, n: nat) {
    forall k :: 0 <= k <= n ==> PlainVisit(data, off, k)
  }

  /** The octets of the labels met in at most `n` steps, and of a terminator. */
  function WalkOctets(data: seq<byte>, off: nat, n: nat): nat
    decreases n
  {
    if n == 0 || Hop(data, off).None? then 1
    else (if LabelFits(data, off) then 1 + data[off] else 0) + WalkOctets(data, Hop(data, off).value, n - 1)
  }

  lemma PlainNext(data: seq<byte>, off: nat, n: nat)
    requires n > 0 && Hop(data, off).Some?
    ensures PlainWalk(data, off, n) <==> Plain(data, off) && PlainWalk(data, Hop(data, off).value, n - 1)
  {
    hide Hop, Plain;
    var next := Hop(data, off).value;
    assert forall k :: 0 < k <= n ==> PlainVisit(data, off, k) == PlainVisit(data, next, k - 1);
    assert PlainVisit(data, off, 0) <==> Plain(data, off);
    if PlainWalk(data, off, n) {
      forall k | 0 <= k <= n - 1 ensures PlainVisit(data, next, k) {
        assert PlainVisit(data, off, k + 1);
      }
    }
  }

  lemma PlainEnd(data: seq<byte>, off: nat)
    ensures PlainWalk(data, off, 0) <==> Plain(data, off)
  {
    assert PlainVisit(data, off, 0) <==> Plain(data, off);
  }

  /** A derivable name is derivable in the RFC exactly when its walk stands on plain bytes only. */
  lemma {:induction false} RfcIff(data: seq<byte>, off: nat, labels: seq<seq<byte>>, n: nat)
    requires Derives(data, off, labels, n)
    ensures RfcDerives(data, off, labels, n) <==> PlainWalk(data, off, n)
    decreases n
  {
    hide PlainWalk;
    if n == 0 {
      PlainEnd(data, off);
    } else {
      PlainNext(data, off, n);
      RfcIff(data, Hop(data, off).value, if LabelFits(data, off) then labels[1..] else labels, n - 1);
    }
  }

  lemma {:induction false} RfcIsDerivable(data: seq<byte>, off: nat, labels: seq<seq<byte>>, n: nat)
    requires RfcDerives(data, off, labels, n)
    ensures Derives(data, off, labels, n)
    decreases n
  {
    if n > 0 {
      if LabelFits(data, off) {
        RfcIsDerivable(data, off + 1 + data[off], labels[1..], n - 1);
      } else {
        RfcIsDerivable(data, Target(data, off), labels, n - 1);
      }
    }
  }

  /** A terminator ends the walk. */
  lemma WalkEnds(data: seq<byte>, off: nat, labels: seq<seq<byte>>, n: nat, m: nat)
    requires Derives(data, off, labels, n) && n <= m
    ensures PlainWalk(data, off, m) <==> PlainWalk(data, off, n)
  {
    hide Derives, Hops, Plain;
    forall k | n < k <= m ensures PlainVisit(data, off, k) {
      if Hops(data, off, k).Some? {
        var rest := DerivesAlong(data, off, labels, n, k);
      }
    }
  }

  lemma {:induction false} WalkMeasures(data: seq<byte>, off: nat, labels: seq<seq<byte>>, n: nat, m: nat)
    requires Derives(data, off, labels, n) && n <= m
    ensures WalkOctets(data, off, m) == Octets(labels)
    decreases n
  {
    if n > 0 {
      WalkMeasures(data, Hop(data, off).value, if LabelFits(data, off) then labels[1..] else labels, n - 1, m - 1);
    }
  }

  // ======== Agreement ========

  /** The walk of the parser, at most 128 steps, meets plain bytes only and at most 255 octets. */
  ghost predicate Conforming(data: seq<byte>, off: nat) {
    PlainWalk(data, off, MAX_HOPS) && WalkOctets(data, off, MAX_HOPS) <= MAX_OCTETS
  }

  lemma ConformingIff(data: seq<byte>, off: nat, labels: seq<seq<byte>>, n: nat)
    requires Derives(data, off, labels, n) && n <= MAX_HOPS
    ensures RfcName(data, off, labels, n) <==> Conforming(data, off)
  {
    hide Derives, RfcDerives, PlainWalk, WalkOctets, Octets;
    WalkEnds(data, off, labels, n, MAX_HOPS);
    WalkMeasures(data, off, labels, n, MAX_HOPS);
    RfcIff(data, off, labels, n);
  }

  /** What the parser returns is a name of the RFC exactly when the walk is conforming; and the names so
      returned are exactly the names of the RFC of at most 128 steps whose labels are UTF-8. */
  lemma RfcNameIff(data: seq<byte>, off: nat, labels: seq<seq<byte>>, next: nat)
    ensures NameAt(data, off) == Some(Name(labels, next)) && Conforming(data, off)
            <==> && AllUtf8(labels) && next == End(data, off)
                 && exists n :: 0 <= n <= MAX_HOPS && RfcName(data, off, labels, n)
  {
    hide Utf8, NameAt, End, Derives, RfcName, Conforming;
    NameIff(data, off, labels, next);
    if NameAt(data, off) == Some(Name(labels, next)) && Conforming(data, off) {
      var n: nat :| n <= MAX_HOPS && Derives(data, off, labels, n);
      ConformingIff(data, off, labels, n);
    }
    if exists n :: 0 <= n <= MAX_HOPS && RfcName(data, off, labels, n) {
      var n: nat :| n <= MAX_HOPS && RfcName(data, off, labels, n);
      RfcNameDerives(data, off, labels, n);
      ConformingIff(data, off, labels, n);
    }
  }

  lemma RfcNameDerives(data: seq<byte>, off: nat, labels: seq<seq<byte>>, n: nat)
    requires RfcName(data, off, labels, n)
    ensures Derives(data, off, labels, n)
  {
    RfcIsDerivable(data, off, labels, n);
  }

  /** A name of the RFC is rejected exactly when it takes more than 128 steps or a label is not UTF-8. */
  lemma RejectedIff(data: seq<byte>, off: nat, labels: seq<seq<byte>>, n: nat)
    requires RfcName(data, off, labels, n)
    ensures NameAt(data, off) == None <==> n > MAX_HOPS || !AllUtf8(labels)
  {
    hide Utf8, End, Spell, Derives, RfcName;
    RfcNameDerives(data, off, labels, n);
    if n <= MAX_HOPS && AllUtf8(labels) {
      SpellForward(data, off, labels, n, MAX_HOPS);
    }
    if NameAt(data, off).Some? {
      var m := SpellBackward(data, off, MAX_HOPS);
      DerivesUnique(data, off, labels, n, Spell(data, off, MAX_HOPS).value, m);
    }
  }

  // ======== Inputs on which they differ ========

  lemma NotPlain(data: seq<byte>, off: nat)
    requires !Plain(data, off)
    ensures !Conforming(data, off)
  {
    hide Plain;
    assert !PlainVisit(data, off, 0);
  }

  /** A label of 64 to 191 bytes. */
  lemma ReservedLengthAccepted(one: seq<byte>)
    requires 0x40 <= |one| < 0xC0 && Utf8(one)
    ensures var data := [|one|] + one + [0];
            NameAt(data, 0) == Some(Name([one], |one| + 2)) && !Conforming(data, 0)
  {
    hide Utf8, At, NameAt, Conforming;
    var data := [|one|] + one + [0];
    assert Written([one]) + [0] == data by {
      assert [one][1..] == [] && Written([]) == [];
      assert one + [] == one;
    }
    AtAround([], data, []);
    assert [] + data + [] == data;
    WrittenName(data, 0, [one]);
    NotPlain(data, 0);
  }

  /** Any name of more than 255 octets, written in full. */
  lemma LongNameAccepted(labels: seq<seq<byte>>)
    requires |labels| <= MAX_HOPS && AllUtf8(labels) && forall i :: 0 <= i < |labels| ==> 0 < |labels[i]| < 0x40
    requires Octets(labels) > MAX_OCTETS
    ensures var data := Written(labels) + [0];
            NameAt(data, 0) == Some(Name(labels, |data|)) && !Conforming(data, 0)
  {
    hide Utf8, At, NameAt, End, Derives, PlainWalk, WalkOctets, Written, Octets;
    var data := Written(labels) + [0];
    AtAround([], data, []);
    assert [] + data + [] == data;
    WrittenName(data, 0, labels);
    NameIff(data, 0, labels, |data|);
    var n: nat :| n <= MAX_HOPS && Derives(data, 0, labels, n);
    WalkMeasures(data, 0, labels, n, MAX_HOPS);
  }

  /** For example five labels of 63 bytes. */
  lemma FiveLongLabels()
    ensures var one := seq(63, _ => 97 as byte);
            var labels := [one, one, one, one, one];
            AllUtf8(labels) && Octets(labels) == 321
  {
    var one := seq(63, _ => 97 as byte);
    Ascii(one);
    var labels := [one, one, one, one, one];
    assert labels[1..] == [one, one, one, one] && labels[1..][1..] == [one, one, one];
    assert labels[1..][1..][1..] == [one, one] && labels[1..][1..][1..][1..] == [one];
    assert Octets([one]) == 65 by { assert [one][1..] == []; }
    assert Octets([one, one]) == 129 && Octets([one, one, one]) == 193 && Octets([one, one, one, one]) == 257;
  }

  lemma {:induction false} Ascii(s: seq<byte>)
    requires forall i :: 0 <= i < |s| ==> s[i] < 0x80
    ensures Utf8(s)
  {
    if s != [] { Ascii(s[1..]); }
  }

  /** A pointer to a name behind it. */
  lemma ForwardPointerAccepted()
    ensures var data: seq<byte> := [0xC0, 2, 1, 97, 0];
            NameAt(data, 0) == Some(Name([[97]], 2)) && !Conforming(data, 0)
  {
    hide Utf8, NameAt, Conforming;
    var data: seq<byte> := [0xC0, 2, 1, 97, 0];
    var one: seq<byte> := [97];
    Ascii(one);
    assert LabelAt(data, 2) == one && Derives(data, 4, [], 0);
    LabelStep(data, 2, one, [], 0);
    assert [one] + [] == [one];
    FollowPointer(data, 0, [one], 1);
    NameIff(data, 0, [one], 2);
    NotPlain(data, 0);
  }

  /** A terminator, then 129 pointers, each to the one before it; pointer `j` is at `ChainAt(j)`. */
  const CHAIN: seq<byte> := seq(259, i requires 0 <= i < 259 => ChainByte(i))

  function ChainAt(j: nat): nat { if j == 0 then 0 else 2 * j - 1 }

  function ChainByte(i: nat): byte
    requires i < 259
  { if i == 0 || i == 2 then 0 else if i % 2 == 1 then 0xC0 else i - 3 }

  lemma Terminates(data: seq<byte>, off: nat)
    requires off < |data| && data[off] == 0
    ensures RfcDerives(data, off, [], 0)
  {
  }

  lemma PointBack(data: seq<byte>, off: nat, n: nat)
    requires off + 1 < |data| && data[off] == 0xC0 && data[off + 1] < off && RfcDerives(data, data[off + 1], [], n)
    ensures RfcDerives(data, off, [], n + 1)
  {
  }

  lemma {:induction false} ChainDerives(k: nat)
    requires k <= 129
    ensures RfcDerives(CHAIN, ChainAt(k), [], k)
  {
    hide RfcDerives;
    if k > 0 {
      ChainDerives(k - 1);
      var at := ChainAt(k);
      assert CHAIN[at] == ChainByte(at) == 0xC0 && CHAIN[at + 1] == ChainByte(at + 1) == ChainAt(k - 1);
      PointBack(CHAIN, at, k - 1);
    } else {
      assert CHAIN[0] == ChainByte(0);
      Terminates(CHAIN, 0);
    }
  }

  /** A name of the RFC reached through more than 128 pointers is rejected. */
  lemma LongChainRejected()
    ensures RfcName(CHAIN, ChainAt(129), [], 129) && NameAt(CHAIN, ChainAt(129)) == None
  {
    hide NameAt, RfcDerives, CHAIN;
    ChainDerives(129);
    RejectedIff(CHAIN, ChainAt(129), [], 129);
  }

  /** So is a label that is not UTF-8. */
  lemma BinaryLabelRejected()
    ensures var data: seq<byte> := [1, 0xFF, 0];
            RfcName(data, 0, [[0xFF]], 1) && NameAt(data, 0) == None
  {
    hide NameAt;
    var data: seq<byte> := [1, 0xFF, 0];
    var one: seq<byte> := [0xFF];
    assert data[1..2] == one && [one][1..] == [];
    assert RfcDerives(data, 2, [], 0);
    assert Octets([one]) == 3;
    assert !Utf8(one) && !AllUtf8([one]) by { assert [one][0] == one; }
    RejectedIff(data, 0, [one], 1);
  }
}
