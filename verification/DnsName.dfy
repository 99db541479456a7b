/** Domain names with compression pointers (section 4.1.4 of RFC 1035). */
module DnsName {
  import opened Bytes
  import opened Collections

  const MAX_HOPS := 128

  datatype Name = Name(labels: seq<seq<byte>>, next: nat)

  // ======== The name relation ========

  predicate IsPointer(b: byte) { b >= 0xC0 }

  function Target(data: seq<byte>, off: nat): nat
    requires off + 1 < |data|
  {
    var hi: int := data[off] % 64;
    256 * hi + data[off + 1]
  }

  /** A label of `data[off]` bytes fits after the length byte at `off`. */
  predicate LabelFits(data: seq<byte>, off: nat) {
    off < |data| && 0 < data[off] < 0xC0 && off + 1 + data[off] <= |data|
  }

  function LabelAt(data: seq<byte>, off: nat): seq<byte>
    requires LabelFits(data, off)
  { data[off + 1..off + 1 + data[off]] }

  /** The name at `off` spells `labels` in `n` label and pointer steps before its terminator. */
  predicate Derives(data: seq<byte>, off: nat, labels: seq<seq<byte>>, n: nat)
    decreases n
  {
    if n == 0 then off < |data| && data[off] == 0 && labels == []
    else if LabelFits(data, off) then
      labels != [] && labels[0] == LabelAt(data, off) && Derives(data, off + 1 + data[off], labels[1..], n - 1)
    else off + 1 < |data| && IsPointer(data[off]) && Derives(data, Target(data, off), labels, n - 1)
  }

  /** Where the bytes of the name at `off` itself end: after its terminator or its first pointer. */
  function End(data: seq<byte>, off: nat): (e: nat)
    ensures e > off
    decreases |data| - off
  {
    if LabelFits(data, off) then End(data, off + 1 + data[off])
    else if off < |data| && IsPointer(data[off]) then off + 2
    else off + 1
  }

  predicate AllUtf8(labels: seq<seq<byte>>) {
    forall i :: 0 <= i < |labels| ==> Utf8(labels[i])
  }

  /** The relation is functional: a name has one spelling and one length in steps. */
  lemma {:induction false} DerivesUnique(data: seq<byte>, off: nat, a: seq<seq<byte>>, m: nat,
                                         b: seq<seq<byte>>, n: nat)
    requires Derives(data, off, a, m) && Derives(data, off, b, n)
    ensures a == b && m == n
    decreases m
  {
    if m > 0 && n > 0 {
      if LabelFits(data, off) {
        DerivesUnique(data, off + 1 + data[off], a[1..], m - 1, b[1..], n - 1);
        assert a == [a[0]] + a[1..] && b == [b[0]] + b[1..];
      } else {
        DerivesUnique(data, Target(data, off), a, m - 1, b, n - 1);
      }
    }
  }

  // ======== The parser ========

  /** What is left to read at `off` with `n` steps to go. */
  function Spell(data: seq<byte>, off: nat, n: nat): (r: Option<seq<seq<byte>>>)
    decreases n
  {
    if off >= |data| then None
    else if data[off] == 0 then Some([])
    else if n == 0 then None
    else if IsPointer(data[off]) then
      if off + 1 >= |data| then None else Spell(data, Target(data, off), n - 1)
    else if !LabelFits(data, off) || !Utf8(LabelAt(data, off)) then None
    else
      Behind([LabelAt(data, off)], Spell(data, off + 1 + data[off], n - 1))
  }

  function NameAt(data: seq<byte>, off: nat): Option<Name> {
    var labels := Spell(data, off, MAX_HOPS);
    if labels.None? then None else Some(Name(labels.value, End(data, off)))
  }

  /** The cases of one round at an offset inside the message. */
  ghost predicate SpellsOn(data: seq<byte>, labels: seq<seq<byte>>, off: nat, n: nat)
    requires off < |data|
  {
    if data[off] == 0 then Behind(labels, Spell(data, off, n)) == Some(labels) && End(data, off) == off + 1
    else if IsPointer(data[off]) then
      if off + 1 >= |data| then Spell(data, off, n) == None
      else && End(data, off) == off + 2
           && Spell(data, off, n) == if n == 0 then None else Spell(data, Target(data, off), n - 1)
    else
      var next: nat := off + 1 + data[off];
      if next > |data| || !Utf8(data[off + 1..next]) then Spell(data, off, n) == None
      else && End(data, off) == End(data, next)
           && Behind(labels, Spell(data, off, n)) ==
              if n == 0 then None else Behind(labels + [data[off + 1..next]], Spell(data, next, n - 1))
  }

  /** One round of the loop, with `n` steps to go behind the labels already read. */
  lemma SpellRound(data: seq<byte>, labels: seq<seq<byte>>, off: nat, n: nat)
    ensures off >= |data| ==> Spell(data, off, n) == None
    ensures off < |data| ==> SpellsOn(data, labels, off, n)
  {
    hide Utf8, Target;
    if off < |data| && data[off] != 0 && !IsPointer(data[off]) && LabelFits(data, off) && n > 0 {
      BehindOne(labels, LabelAt(data, off), Spell(data, off + 1 + data[off], n - 1));
    }
  }

  method ParseDnsName(data: seq<byte>, start: nat) returns (r: Option<Name>)
    ensures r == NameAt(data, start)
  {
    hide Utf8, Spell, End, IsPointer, Target;
    var labels: seq<seq<byte>> := [];
    var jumped := false;
    var offset: nat := start;
    var finalOffset: nat := start;
    var hops: nat := 0;
    while true
      invariant hops <= MAX_HOPS + 1
      invariant hops <= MAX_HOPS ==>
                  Spell(data, start, MAX_HOPS) == Behind(labels, Spell(data, offset, MAX_HOPS - hops))
      invariant hops > MAX_HOPS ==> Spell(data, start, MAX_HOPS) == None
      invariant if jumped then finalOffset == End(data, start) else End(data, start) == End(data, offset)
      decreases MAX_HOPS + 1 - hops
    {
      if hops <= MAX_HOPS {
        SpellRound(data, labels, offset, MAX_HOPS - hops);
      }
      if offset >= |data| || hops > MAX_HOPS {
        return None;
      }
      var b := data[offset];
      if b == 0 {
        if !jumped { finalOffset := offset + 1; }
        break;
      }
      if IsPointer(b) {
        if offset + 1 >= |data| { return None; }
        if !jumped { finalOffset := offset + 2; }
        offset, jumped, hops := Target(data, offset), true, hops + 1;
        continue;
      }
      if offset + 1 + b > |data| { return None; }
      var text := data[offset + 1..offset + 1 + b];
      if !Utf8(text) { return None; }
      labels, offset, hops := labels + [text], offset + 1 + b, hops + 1;
    }
    return Some(Name(labels, finalOffset));
  }

  // ======== The parser finds exactly the derivable names ========

  lemma {:induction false} SpellForward(data: seq<byte>, off: nat, labels: seq<seq<byte>>, n: nat, max: nat)
    requires Derives(data, off, labels, n) && AllUtf8(labels) && n <= max
    ensures Spell(data, off, max) == Some(labels)
    decreases n
  {
    hide Utf8;
    if n > 0 {
      if LabelFits(data, off) {
        SpellForward(data, off + 1 + data[off], labels[1..], n - 1, max - 1);
        assert labels == [labels[0]] + labels[1..];
      } else {
        SpellForward(data, Target(data, off), labels, n - 1, max - 1);
      }
    }
  }

  lemma {:induction false} SpellBackward(data: seq<byte>, off: nat, max: nat) returns (n: nat)
    requires Spell(data, off, max).Some?
    ensures n <= max && Derives(data, off, Spell(data, off, max).value, n) && AllUtf8(Spell(data, off, max).value)
    decreases max
  {
    hide Utf8;
    if data[off] == 0 {
      n := 0;
    } else if IsPointer(data[off]) {
      n := SpellBackward(data, Target(data, off), max - 1);
      n := n + 1;
    } else {
      n := SpellBackward(data, off + 1 + data[off], max - 1);
      var rest := Spell(data, off + 1 + data[off], max - 1).value;
      assert ([LabelAt(data, off)] + rest)[1..] == rest;
      n := n + 1;
    }
  }

  /** A name is returned exactly when the relation derives its labels in at most 128 steps and every
      label is UTF-8; the offset after it is where its own bytes end. */
  lemma NameIff(data: seq<byte>, off: nat, labels: seq<seq<byte>>, next: nat)
    ensures NameAt(data, off) == Some(Name(labels, next))
            <==> && AllUtf8(labels) && next == End(data, off)
                 && exists n :: 0 <= n <= MAX_HOPS && Derives(data, off, labels, n)
  {
    hide Utf8, Spell, End, Derives;
    if NameAt(data, off) == Some(Name(labels, next)) {
      var n := SpellBackward(data, off, MAX_HOPS);
      assert 0 <= n <= MAX_HOPS && Derives(data, off, labels, n);
    }
    if AllUtf8(labels) && exists n :: 0 <= n <= MAX_HOPS && Derives(data, off, labels, n) {
      var n: nat :| 0 <= n <= MAX_HOPS && Derives(data, off, labels, n);
      SpellForward(data, off, labels, n, MAX_HOPS);
    }
  }

  /** The next offset is past the start and inside the message. */
  lemma {:induction false} EndWithin(data: seq<byte>, off: nat, labels: seq<seq<byte>>, n: nat)
    requires Derives(data, off, labels, n)
    ensures off < End(data, off) <= |data|
    decreases n
  {
    if n > 0 && LabelFits(data, off) {
      EndWithin(data, off + 1 + data[off], labels[1..], n - 1);
    }
  }

  lemma NameWithin(data: seq<byte>, off: nat)
    requires NameAt(data, off).Some?
    ensures off < NameAt(data, off).value.next <= |data|
  {
    hide Utf8, Spell, Derives, End;
    var n := SpellBackward(data, off, MAX_HOPS);
    EndWithin(data, off, NameAt(data, off).value.labels, n);
  }

  /** It depends on nothing but the bytes before it: any message that agrees with this one up to there
      ends the name at the same place. */
  lemma {:induction false} EndIsLocal(a: seq<byte>, b: seq<byte>, off: nat, labels: seq<seq<byte>>, n: nat)
    requires Derives(a, off, labels, n) && off < End(a, off) <= |a|
    requires End(a, off) <= |b| && forall i :: off <= i < End(a, off) ==> a[i] == b[i]
    ensures End(b, off) == End(a, off)
    decreases n
  {
    if n > 0 && LabelFits(a, off) {
      EndIsLocal(a, b, off + 1 + a[off], labels[1..], n - 1);
    }
  }

  // ======== Pointer loops ========

  /** The offset one label or pointer step further on. */
  function Hop(data: seq<byte>, off: nat): Option<nat> {
    if LabelFits(data, off) then Some(off + 1 + data[off])
    else if off + 1 < |data| && IsPointer(data[off]) then Some(Target(data, off))
    else None
  }

  function Hops(data: seq<byte>, off: nat, k: nat): Option<nat>
    decreases k
  {
    if k == 0 then Some(off)
    else if Hop(data, off).None? then None
    else Hops(data, Hop(data, off).value, k - 1)
  }

  lemma {:induction false} DerivesAlong(data: seq<byte>, off: nat, labels: seq<seq<byte>>, n: nat, k: nat)
    returns (rest: seq<seq<byte>>)
    requires Derives(data, off, labels, n) && Hops(data, off, k).Some?
    ensures k <= n && Derives(data, Hops(data, off, k).value, rest, n - k)
    decreases k
  {
    if k == 0 {
      rest := labels;
    } else {
      var tail := if LabelFits(data, off) then labels[1..] else labels;
      rest := DerivesAlong(data, Hop(data, off).value, tail, n - 1, k - 1);
    }
  }

  /** A name whose labels and pointers lead back to an offset already visited is rejected. */
  lemma LoopRejected(data: seq<byte>, off: nat, j: nat, k: nat)
    requires k > 0 && Hops(data, off, j).Some? && Hops(data, Hops(data, off, j).value, k) == Hops(data, off, j)
    ensures NameAt(data, off) == None
  {
    hide Utf8, Spell, Derives, Hops, End;
    if NameAt(data, off).Some? {
      var labels := NameAt(data, off).value.labels;
      var n := SpellBackward(data, off, MAX_HOPS);
      var at := Hops(data, off, j).value;
      var rest := DerivesAlong(data, off, labels, n, j);
      var again := DerivesAlong(data, at, rest, n - j, k);
      DerivesUnique(data, at, rest, n - j, again, n - j - k);
    }
  }

  // ======== Names as they are written ========

  /** Labels in place, each behind its length byte. */
  function Written(labels: seq<seq<byte>>): seq<byte>
    requires forall i :: 0 <= i < |labels| ==> 0 < |labels[i]| < 0xC0
  {
    if labels == [] then [] else [|labels[0]|] + (labels[0] + Written(labels[1..]))
  }

  lemma LabelStep(data: seq<byte>, off: nat, one: seq<byte>, rest: seq<seq<byte>>, n: nat)
    requires LabelFits(data, off) && LabelAt(data, off) == one && Derives(data, off + 1 + data[off], rest, n)
    ensures Derives(data, off, [one] + rest, n + 1) && End(data, off) == End(data, off + 1 + data[off])
  {
    assert ([one] + rest)[1..] == rest;
  }

  lemma WrittenHead(data: seq<byte>, off: nat, front: seq<seq<byte>>)
    requires front != [] && forall i :: 0 <= i < |front| ==> 0 < |front[i]| < 0xC0
    requires At(data, off, Written(front))
    ensures LabelFits(data, off) && LabelAt(data, off) == front[0] && data[off] == |front[0]|
    ensures At(data, off + 1 + |front[0]|, Written(front[1..]))
    ensures |Written(front)| == 1 + |front[0]| + |Written(front[1..])|
  {
    hide At;
    var one, rest := front[0], Written(front[1..]);
    AtHead(data, off, |one|, one + rest);
    AtSplit(data, off + 1, one, rest);
    AtSlice(data, off + 1, one);
  }

  lemma {:induction false} WrittenSteps(data: seq<byte>, off: nat, front: seq<seq<byte>>, back: seq<seq<byte>>, n: nat)
    requires forall i :: 0 <= i < |front| ==> 0 < |front[i]| < 0xC0
    requires At(data, off, Written(front)) && Derives(data, off + |Written(front)|, back, n)
    ensures Derives(data, off, front + back, n + |front|)
    ensures End(data, off) == End(data, off + |Written(front)|)
    decreases |front|
  {
    hide At, Derives, End, LabelFits;
    if front == [] {
      assert front + back == back;
    } else {
      WrittenHead(data, off, front);
      WrittenSteps(data, off + 1 + |front[0]|, front[1..], back, n);
      LabelStep(data, off, front[0], front[1..] + back, n + |front| - 1);
      assert front + back == [front[0]] + (front[1..] + back);
    }
  }

  /** A name written out in full, anywhere in a message, reads back as its labels. */
  lemma WrittenName(data: seq<byte>, off: nat, labels: seq<seq<byte>>)
    requires forall i :: 0 <= i < |labels| ==> 0 < |labels[i]| < 0xC0
    requires |labels| <= MAX_HOPS && AllUtf8(labels) && At(data, off, Written(labels) + [0])
    ensures NameAt(data, off) == Some(Name(labels, off + |Written(labels)| + 1))
  {
    hide Utf8, At, Spell;
    var end := off + |Written(labels)|;
    AtSplit(data, off, Written(labels), [0]);
    AtByte(data, end, 0);
    assert Derives(data, end, [], 0) && End(data, end) == end + 1;
    WrittenSteps(data, off, labels, [], 0);
    assert labels + [] == labels;
    SpellForward(data, off, labels, |labels|, MAX_HOPS);
  }

  /** Labels followed by a pointer to a name found elsewhere in the message, before or after it, read
      back as those labels and then that name's, as long as all steps together stay within 128. */
  lemma CompressedName(data: seq<byte>, off: nat, front: seq<seq<byte>>, target: nat, back: seq<seq<byte>>, n: nat)
    requires forall i :: 0 <= i < |front| ==> 0 < |front[i]| < 0xC0
    requires target < 0x4000 && Derives(data, target, back, n) && |front| + 1 + n <= MAX_HOPS
    requires AllUtf8(front) && AllUtf8(back)
    requires At(data, off, Written(front) + [0xC0 + target / 256, target % 256])
    ensures NameAt(data, off) == Some(Name(front + back, off + |Written(front)| + 2))
  {
    hide Utf8, At, Spell, Derives, End;
    var hi, lo := 0xC0 + target / 256, target % 256;
    var p := off + |Written(front)|;
    AtSplit(data, off, Written(front), [hi, lo]);
    PointerStep(data, p, target, back, n);
    WrittenSteps(data, off, front, back, n + 1);
    SpellForward(data, off, front + back, n + 1 + |front|, MAX_HOPS);
  }

  lemma PointerStep(data: seq<byte>, p: nat, target: nat, labels: seq<seq<byte>>, n: nat)
    requires target < 0x4000 && Derives(data, target, labels, n)
    requires At(data, p, [0xC0 + target / 256, target % 256])
    ensures Derives(data, p, labels, n + 1) && End(data, p) == p + 2
  {
    hide Derives, End;
    var e: seq<byte> := [0xC0 + target / 256, target % 256];
    assert data[p] == data[p..p + 2][0] == e[0] && data[p + 1] == data[p..p + 2][1] == e[1];
    assert Target(data, p) == target;
    FollowPointer(data, p, labels, n);
  }

  lemma FollowPointer(data: seq<byte>, p: nat, labels: seq<seq<byte>>, n: nat)
    requires p + 1 < |data| && IsPointer(data[p]) && Derives(data, Target(data, p), labels, n)
    ensures Derives(data, p, labels, n + 1) && End(data, p) == p + 2
  {
    hide Target;
  }
}
