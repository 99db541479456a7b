/** Bounded tables that evict the entry with the smallest stamp. The iteration order of a hash map is
    arbitrary, so among equal smallest stamps any entry may be the one that goes. */
module Eviction {
  import opened Collections

  predicate Oldest<K, V>(m: map<K, V>, stamp: V -> nat, k: K) {
    k in m && forall j :: j in m ==> stamp(m[k]) <= stamp(m[j])
  }

  lemma {:induction false} OldestExists<K, V>(m: map<K, V>, stamp: V -> nat)
    requires m != map[]
    ensures exists k :: Oldest(m, stamp, k)
    decreases |m|
  {
    var k :| k in m;
    var rest := m - {k};
    if rest == map[] {
      assert m.Keys == {k} by {
        assert forall j :: j in m && j != k ==> j in rest;
      }
      assert Oldest(m, stamp, k);
    } else {
      assert |rest| < |m| by { assert m.Keys == rest.Keys + {k}; }
      OldestExists(rest, stamp);
      var j :| Oldest(rest, stamp, j);
      assert forall i :: i in m ==> i == k || i in rest;
      assert Oldest(m, stamp, if stamp(m[k]) <= stamp(m[j]) then k else j);
    }
  }

  /** `post` is `pre` without one oldest entry (an empty table stays empty). */
  ghost predicate EvictedOne<K, V>(pre: map<K, V>, stamp: V -> nat, post: map<K, V>) {
    if pre == map[] then post == pre else exists k :: k in pre && Oldest(pre, stamp, k) && post == pre - {k}
  }

  /** `mid` is what is left of `pre` once there is room for `key` under `cap`. */
  ghost predicate MadeRoom<K, V>(pre: map<K, V>, stamp: V -> nat, cap: nat, key: K, mid: map<K, V>) {
    if key !in pre && |pre| >= cap then EvictedOne(pre, stamp, mid) else mid == pre
  }

  /** A capacity of 0 still admits one entry. */
  function Bound(cap: nat): nat { if cap == 0 then 1 else cap }

  lemma RemoveSize<K, V>(m: map<K, V>, k: K)
    requires k in m
    ensures |m - {k}| == |m| - 1
  {
    assert (m - {k}).Keys == m.Keys - {k};
  }

  lemma StaysBounded<K, V>(pre: map<K, V>, stamp: V -> nat, cap: nat, key: K, mid: map<K, V>, v: V)
    requires |pre| <= Bound(cap) && MadeRoom(pre, stamp, cap, key, mid)
    ensures |mid[key := v]| <= Bound(cap)
    ensures forall k :: k in mid ==> k in pre && mid[k] == pre[k]
  {
    assert mid[key := v].Keys == mid.Keys + {key};
    if key in pre {
      assert mid.Keys + {key} == pre.Keys;
    } else if |pre| >= cap && pre != map[] {
      var k :| Oldest(pre, stamp, k) && mid == pre - {k};
      RemoveSize(pre, k);
    }
  }

  /** The TTL sweep: with a positive `ttl` exactly the entries younger than it stay, with a zero `ttl` none do. */
  function Sweep<K, V>(m: map<K, V>, stamp: V -> nat, ttl: nat, now: nat): (r: map<K, V>)
    ensures forall k :: k in m ==> (k in r <==> ttl > 0 && now < stamp(m[k]) + ttl)
    ensures forall k :: k in r ==> k in m && r[k] == m[k]
    ensures |r| <= |m|
  {
    var r := map k | k in m && SaturatingSub(now, stamp(m[k])) < ttl :: m[k];
    SubmapSize(r, m);
    r
  }

  lemma {:induction false} SubmapSize<K, V>(a: map<K, V>, b: map<K, V>)
    requires a.Keys <= b.Keys
    ensures |a| <= |b|
  {
    assert b.Keys == a.Keys + (b.Keys - a.Keys);
    assert |a.Keys + (b.Keys - a.Keys)| == |a.Keys| + |b.Keys - a.Keys|;
  }

  /** The eviction step itself: `min_by_key` then `remove`. */
  method EvictOldest<K(==), V>(m: map<K, V>, stamp: V -> nat) returns (post: map<K, V>)
    ensures EvictedOne(m, stamp, post)
  {
    if m == map[] { return m; }
    OldestExists(m, stamp);
    var k :| k in m.Keys && Oldest(m, stamp, k);
    post := m - {k};
  }
}
