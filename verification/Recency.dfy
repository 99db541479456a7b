/** When the entries of a bounded table were last used. A history of uses names the key that each event
    used, if it used any. */
module Recency {
  import opened Bytes

  /** The event at which `k` was last used, among the first `t`. */
  function LastUse<K(==)>(uses: seq<Option<K>>, t: nat, k: K): (i: Option<nat>)
    requires t <= |uses|
    ensures i.Some? ==> i.value < t && uses[i.value] == Some(k) && forall j :: i.value < j < t ==> uses[j] != Some(k)
    ensures i.None? ==> forall j :: 0 <= j < t ==> uses[j] != Some(k)
  {
    if t == 0 then None else if uses[t - 1] == Some(k) then Some(t - 1) else LastUse(uses, t - 1, k)
  }

  /** The keys used at `lo` to `hi`. */
  function UsedIn<K>(uses: seq<Option<K>>, lo: nat, hi: nat): set<K>
    requires hi <= |uses|
  {
    set i | lo <= i < hi && uses[i].Some? :: uses[i].value
  }

  lemma UseAfter<K>(uses: seq<Option<K>>, t: nat, k: K)
    requires t < |uses|
    ensures LastUse(uses, t + 1, k) == if uses[t] == Some(k) then Some(t) else LastUse(uses, t, k)
  {
  }

  lemma UsedNext<K>(uses: seq<Option<K>>, lo: nat, t: nat)
    requires lo <= t < |uses|
    ensures UsedIn(uses, lo, t + 1) == UsedIn(uses, lo, t) + if uses[t].Some? then {uses[t].value} else {}
  {
  }

  lemma UsedKey<K>(uses: seq<Option<K>>, t: nat, k: K)
    requires t <= |uses|
    ensures k in UsedIn(uses, 0, t) <==> LastUse(uses, t, k).Some?
  {
  }

  lemma UsedSince<K>(uses: seq<Option<K>>, t: nat, i: nat, k: K)
    requires t <= |uses|
    ensures k in UsedIn(uses, i + 1, t) <==> LastUse(uses, t, k).Some? && LastUse(uses, t, k).value > i
  {
    var last := LastUse(uses, t, k);
    if last.Some? && last.value > i { assert uses[last.value] == Some(k); }
  }

  lemma LastUseApart<K>(uses: seq<Option<K>>, t: nat, a: K, b: K)
    requires t <= |uses|
    ensures a != b && LastUse(uses, t, a).Some? ==> LastUse(uses, t, a) != LastUse(uses, t, b)
  {
  }
}
