/** Sliding-window deduplication. The SHA-256 digest is modelled as free of collisions: a record is
    keyed by the bytes that are hashed. */
module Dedup {
  import opened Bytes
  import opened Collections

  datatype Config = Config(windowNs: nat, bucketNs: nat)

  datatype Record = Record(timestampNs: nat, srcIp: seq<byte>, dstIp: seq<byte>, srcPort: nat, dstPort: nat,
                           protocol: seq<byte>)
  {
    predicate Valid() { timestampNs < Pow256(8) && srcPort < Pow256(2) && dstPort < Pow256(2) }
  }

  type Seen = map<seq<byte>, nat>

  function BucketOf(cfg: Config, timestampNs: nat): nat {
    if cfg.bucketNs > 0 then timestampNs / cfg.bucketNs else timestampNs
  }

  /** The hashed bytes: bucket, endpoints, ports and protocol, with no separators. */
  function Preimage(cfg: Config, r: Record): seq<byte> {
    BeBytes(BucketOf(cfg, r.timestampNs), 8)
    + (r.srcIp + (r.dstIp + (BeBytes(r.srcPort, 2) + (BeBytes(r.dstPort, 2) + r.protocol))))
  }

  function Evict(cfg: Config, seen: Seen, now: nat): Seen {
    map h | h in seen && seen[h] >= SaturatingSub(now, cfg.windowNs) :: seen[h]
  }

  /** The table after one record; an occupied key keeps its first-seen time. */
  function After(cfg: Config, seen: Seen, r: Record): Seen {
    var kept := Evict(cfg, seen, r.timestampNs);
    if Preimage(cfg, r) in kept then kept else kept[Preimage(cfg, r) := r.timestampNs]
  }

  predicate IsDup(cfg: Config, seen: Seen, r: Record) {
    Preimage(cfg, r) in Evict(cfg, seen, r.timestampNs)
  }

  class DedupEngine {
    var seen: Seen
    const config: Config
    /** Every record so far. */
    ghost var log: seq<Record>

    ghost predicate Valid()
      reads this
    { seen == Table(config, log, |log|) }

    constructor (config: Config)
      ensures Valid() && this.config == config && log == []
    {
      seen, this.config, log := map[], config, [];
    }

    method IsDuplicate(r: Record) returns (dup: bool)
      requires Valid()
      modifies this
      ensures Valid() && log == old(log) + [r] && dup == Dropped(config, log, |log| - 1)
    {
      log := log + [r];
      TablePrefix(config, old(log), r, |old(log)|);
      EvictExpired(r.timestampNs);
      var hash := Preimage(config, r);
      if hash !in seen {
        seen := seen[hash := r.timestampNs];
        return false;
      }
      return true;
    }

    method EvictExpired(now: nat)
      modifies this`seen
      ensures seen == Evict(config, old(seen), now)
    {
      var cutoff := SaturatingSub(now, config.windowNs);
      seen := map h | h in seen && seen[h] >= cutoff :: seen[h];
    }
  }

  // ======== Whole runs ========

  /** The table before record `t`. */
  function Table(cfg: Config, log: seq<Record>, t: nat): Seen
    requires t <= |log|
  {
    if t == 0 then map[] else After(cfg, Table(cfg, log, t - 1), log[t - 1])
  }

  lemma {:induction false} TablePrefix(cfg: Config, log: seq<Record>, r: Record, t: nat)
    requires t <= |log|
    ensures Table(cfg, log + [r], t) == Table(cfg, log, t)
  {
    hide After;
    if t > 0 { TablePrefix(cfg, log, r, t - 1); }
  }

  /** Record `t` is reported as a duplicate. */
  predicate Dropped(cfg: Config, log: seq<Record>, t: nat)
    requires t < |log|
  {
    IsDup(cfg, Table(cfg, log, t), log[t])
  }

  /** Record `i` was passed and no record after it, before `t`, came more than a window later. */
  ghost predicate Remembered(cfg: Config, log: seq<Record>, i: nat, t: nat)
    requires t <= |log|
  {
    && i < t && !Dropped(cfg, log, i)
    && forall j :: i < j < t ==> log[j].timestampNs <= log[i].timestampNs + cfg.windowNs
  }

  /** The table holds exactly the remembered records, under their first-seen times. */
  lemma {:induction false} TableHolds(cfg: Config, log: seq<Record>, t: nat, i: nat)
    requires t <= |log| && Remembered(cfg, log, i, t)
    ensures var h := Preimage(cfg, log[i]);
            h in Table(cfg, log, t) && Table(cfg, log, t)[h] == log[i].timestampNs
    decreases t
  {
    hide Preimage;
    if i < t - 1 {
      assert Remembered(cfg, log, i, t - 1);
      TableHolds(cfg, log, t - 1, i);
    }
  }

  lemma {:induction false} TableOnlyHolds(cfg: Config, log: seq<Record>, t: nat, h: seq<byte>) returns (i: nat)
    requires t <= |log| && h in Table(cfg, log, t)
    ensures Remembered(cfg, log, i, t) && Preimage(cfg, log[i]) == h && Table(cfg, log, t)[h] == log[i].timestampNs
    decreases t
  {
    hide Preimage;
    if h in Evict(cfg, Table(cfg, log, t - 1), log[t - 1].timestampNs) {
      i := TableOnlyHolds(cfg, log, t - 1, h);
    } else {
      i := t - 1;
    }
  }

  /** For arbitrary timestamps, even out of order: a record is a duplicate exactly when an earlier one
      with the same hashed bytes was passed and every record after that one, this one included, came
      at most a window later than it. */
  lemma DuplicateIff(cfg: Config, log: seq<Record>, t: nat)
    requires t < |log|
    ensures Dropped(cfg, log, t) <==>
            exists i :: 0 <= i < t && Preimage(cfg, log[i]) == Preimage(cfg, log[t]) && !Dropped(cfg, log, i)
                        && forall j :: i < j <= t ==> log[j].timestampNs <= log[i].timestampNs + cfg.windowNs
  {
    hide Preimage;
    var h := Preimage(cfg, log[t]);
    if Dropped(cfg, log, t) {
      var i := TableOnlyHolds(cfg, log, t, h);
      assert 0 <= i < t && Preimage(cfg, log[i]) == h && !Dropped(cfg, log, i)
             && forall j :: i < j <= t ==> log[j].timestampNs <= log[i].timestampNs + cfg.windowNs;
    }
    forall i | 0 <= i < t && Preimage(cfg, log[i]) == h && !Dropped(cfg, log, i)
               && forall j :: i < j <= t ==> log[j].timestampNs <= log[i].timestampNs + cfg.windowNs
      ensures Dropped(cfg, log, t)
    {
      assert Remembered(cfg, log, i, t);
      TableHolds(cfg, log, t, i);
    }
  }

  // ======== In-order logs ========

  ghost predicate InOrder(log: seq<Record>) {
    && (forall i :: 0 <= i < |log| ==> log[i].Valid())
    && forall i, j :: 0 <= i < j < |log| ==> log[i].timestampNs <= log[j].timestampNs
  }

  /** Records with the same hashed bytes lie in one bucket, so less than a bucket apart. */
  lemma SameBucket(cfg: Config, a: Record, b: Record)
    requires a.Valid() && b.Valid() && Preimage(cfg, a) == Preimage(cfg, b)
    ensures b.timestampNs <= a.timestampNs + SaturatingSub(cfg.bucketNs, 1)
  {
    var x, y := BucketOf(cfg, a.timestampNs), BucketOf(cfg, b.timestampNs);
    assert x < Pow256(8) && y < Pow256(8) by {
      if cfg.bucketNs > 0 {
        QuotientBelow(a.timestampNs, cfg.bucketNs);
        QuotientBelow(b.timestampNs, cfg.bucketNs);
      }
    }
    assert BeBytes(x, 8) == Preimage(cfg, a)[..8] && BeBytes(y, 8) == Preimage(cfg, b)[..8];
    BeRoundTrip(x, 8);
    BeRoundTrip(y, 8);
    if cfg.bucketNs > 0 {
      QuotientBelow(a.timestampNs, cfg.bucketNs);
      QuotientBelow(b.timestampNs, cfg.bucketNs);
    }
  }

  lemma Grows(d: nat, q: nat)
    requires d > 0
    ensures q <= d * q
  {
    assert d * q == q + (d - 1) * q;
  }

  lemma QuotientBelow(n: nat, d: nat)
    requires d > 0
    ensures d * (n / d) <= n < d * (n / d) + d && n / d <= n
  {
    var q, r := n / d, n % d;
    assert n == d * q + r && 0 <= r < d;
    Grows(d, q);
  }

  /** In order, with a bucket no longer than the window (plus one tick): a record is dropped exactly
      when its hashed bytes were seen before, at any time. */
  lemma {:induction false} DroppedIffRepeated(cfg: Config, log: seq<Record>, t: nat)
    requires InOrder(log) && t < |log| && cfg.bucketNs <= cfg.windowNs + 1
    ensures Dropped(cfg, log, t) <==> exists i :: 0 <= i < t && Preimage(cfg, log[i]) == Preimage(cfg, log[t])
    decreases t
  {
    hide Preimage, Table, Evict;
    DuplicateIff(cfg, log, t);
    if i :| 0 <= i < t && Preimage(cfg, log[i]) == Preimage(cfg, log[t]) {
      var f := FirstWith(cfg, log, i);
      DroppedIffRepeated(cfg, log, f);
      SameBucket(cfg, log[f], log[t]);
      assert forall j :: f < j <= t ==> log[j].timestampNs <= log[t].timestampNs;
    }
  }

  /** The first record with the same hashed bytes as record `i`. */
  lemma {:induction false} FirstWith(cfg: Config, log: seq<Record>, i: nat) returns (f: nat)
    requires i < |log|
    ensures f <= i && Preimage(cfg, log[f]) == Preimage(cfg, log[i])
    ensures forall j :: 0 <= j < f ==> Preimage(cfg, log[j]) != Preimage(cfg, log[f])
    decreases i
  {
    hide Preimage;
    f := i;
    if j :| 0 <= j < i && Preimage(cfg, log[j]) == Preimage(cfg, log[i]) {
      f := FirstWith(cfg, log, j);
    }
  }

  function PassedCount(cfg: Config, log: seq<Record>, t: nat): nat
    requires t <= |log|
  {
    if t == 0 then 0 else PassedCount(cfg, log, t - 1) + if Dropped(cfg, log, t - 1) then 0 else 1
  }

  function Preimages(cfg: Config, log: seq<Record>, t: nat): set<seq<byte>>
    requires t <= |log|
  {
    set i | 0 <= i < t :: Preimage(cfg, log[i])
  }

  lemma PreimagesNext(cfg: Config, log: seq<Record>, t: nat)
    requires t < |log|
    ensures Preimages(cfg, log, t + 1) == Preimages(cfg, log, t) + {Preimage(cfg, log[t])}
    ensures Preimage(cfg, log[t]) in Preimages(cfg, log, t)
            <==> exists i :: 0 <= i < t && Preimage(cfg, log[i]) == Preimage(cfg, log[t])
  {
    hide Preimage;
  }

  lemma NoPreimages(cfg: Config, log: seq<Record>)
    ensures Preimages(cfg, log, 0) == {}
  {
  }

  /** Each distinct preimage is passed exactly once over the whole run. */
  lemma {:induction false} PassedOncePerPreimage(cfg: Config, log: seq<Record>, t: nat)
    requires InOrder(log) && t <= |log| && cfg.bucketNs <= cfg.windowNs + 1
    ensures PassedCount(cfg, log, t) == |Preimages(cfg, log, t)|
    decreases t
  {
    hide Preimage, Dropped, Preimages;
    if t > 0 {
      PassedOncePerPreimage(cfg, log, t - 1);
      DroppedIffRepeated(cfg, log, t - 1);
      PreimagesNext(cfg, log, t - 1);
      var h, before := Preimage(cfg, log[t - 1]), Preimages(cfg, log, t - 1);
      assert Dropped(cfg, log, t - 1) <==> h in before;
      assert |before + {h}| == |before| + if h in before then 0 else 1 by {
        assert h in before ==> before + {h} == before;
      }
    } else {
      NoPreimages(cfg, log);
    }
  }

  /** That bound is exact: for any longer bucket some in-order log passes one preimage twice. */
  lemma LongerBucketPassesTwice(cfg: Config) returns (log: seq<Record>)
    requires cfg.bucketNs > cfg.windowNs + 1 && cfg.windowNs + 1 < Pow256(8)
    ensures InOrder(log) && |log| == 2 && Preimage(cfg, log[0]) == Preimage(cfg, log[1])
    ensures !Dropped(cfg, log, 0) && !Dropped(cfg, log, 1)
  {
    var a := Record(0, [], [], 0, 0, []);
    var b := a.(timestampNs := cfg.windowNs + 1);
    log := [a, b];
    assert BucketOf(cfg, 0) == 0 && BucketOf(cfg, cfg.windowNs + 1) == 0;
    DuplicateIff(cfg, log, 1);
    assert Table(cfg, log, 0) == map[];
  }

  // ======== Which records share their hashed bytes ========

  ghost predicate SameFields(cfg: Config, a: Record, b: Record) {
    && BucketOf(cfg, a.timestampNs) == BucketOf(cfg, b.timestampNs)
    && a.srcIp == b.srcIp && a.dstIp == b.dstIp
    && a.srcPort == b.srcPort && a.dstPort == b.dstPort && a.protocol == b.protocol
  }

  lemma CutPrefix(a: seq<byte>, b: seq<byte>, x: seq<byte>, y: seq<byte>)
    requires |a| == |b|
    ensures a + x == b + y <==> a == b && x == y
  {
    if a + x == b + y {
      assert a == (a + x)[..|a|] && b == (b + y)[..|b|];
      assert x == (a + x)[|a|..] && y == (b + y)[|b|..];
    }
  }

  lemma BucketFits(cfg: Config, r: Record)
    requires r.Valid()
    ensures BucketOf(cfg, r.timestampNs) < Pow256(8)
  {
    if cfg.bucketNs > 0 { QuotientBelow(r.timestampNs, cfg.bucketNs); }
  }

  lemma BeInjective(x: nat, y: nat, k: nat)
    requires x < Pow256(k) && y < Pow256(k) && BeBytes(x, k) == BeBytes(y, k)
    ensures x == y
  {
    BeRoundTrip(x, k);
    BeRoundTrip(y, k);
  }

  /** Two records mean the same exactly when they hash the same bytes AND their addresses have the same
      lengths: with nothing between the two addresses, equal bytes alone do not tell them apart. */
  lemma SameFieldsIff(cfg: Config, a: Record, b: Record)
    requires a.Valid() && b.Valid()
    ensures SameFields(cfg, a, b)
            <==> Preimage(cfg, a) == Preimage(cfg, b) && |a.srcIp| == |b.srcIp| && |a.dstIp| == |b.dstIp|
  {
    hide BeBytes, BucketOf;
    if Preimage(cfg, a) == Preimage(cfg, b) && |a.srcIp| == |b.srcIp| && |a.dstIp| == |b.dstIp| {
      var x, y := BucketOf(cfg, a.timestampNs), BucketOf(cfg, b.timestampNs);
      var a3, b3 := BeBytes(a.dstPort, 2) + a.protocol, BeBytes(b.dstPort, 2) + b.protocol;
      var a2, b2 := BeBytes(a.srcPort, 2) + a3, BeBytes(b.srcPort, 2) + b3;
      var a1, b1 := a.dstIp + a2, b.dstIp + b2;
      CutPrefix(BeBytes(x, 8), BeBytes(y, 8), a.srcIp + a1, b.srcIp + b1);
      CutPrefix(a.srcIp, b.srcIp, a1, b1);
      CutPrefix(a.dstIp, b.dstIp, a2, b2);
      CutPrefix(BeBytes(a.srcPort, 2), BeBytes(b.srcPort, 2), a3, b3);
      CutPrefix(BeBytes(a.dstPort, 2), BeBytes(b.dstPort, 2), a.protocol, b.protocol);
      BucketFits(cfg, a);
      BucketFits(cfg, b);
      BeInjective(x, y, 8);
      BeInjective(a.srcPort, b.srcPort, 2);
      BeInjective(a.dstPort, b.dstPort, 2);
    }
  }

  /** "10.0.0.1" to "11.0.0.2" and "10.0.0.11" to "1.0.0.2" hash the same bytes, so the second is
      dropped as a duplicate of the first. */
  lemma DifferentEndpointsDropped(cfg: Config, now: nat, sport: nat, dport: nat, protocol: seq<byte>)
    returns (log: seq<Record>)
    requires now < Pow256(8) && sport < Pow256(2) && dport < Pow256(2)
    ensures InOrder(log) && |log| == 2 && log[0].srcIp != log[1].srcIp && log[0].dstIp != log[1].dstIp
    ensures Dropped(cfg, log, 1)
  {
    var dot, zero, one, two := 0x2E, 0x30, 0x31, 0x32;
    var tenOne: seq<byte> := [one, zero, dot, zero, dot, zero, dot, one];
    var eleven: seq<byte> := [one, one, dot, zero, dot, zero, dot, two];
    var a := Record(now, tenOne, eleven, sport, dport, protocol);
    var b := Record(now, tenOne + [one], eleven[1..], sport, dport, protocol);
    log := [a, b];
    var rest := BeBytes(sport, 2) + (BeBytes(dport, 2) + protocol);
    assert tenOne + (eleven + rest) == (tenOne + [one]) + (eleven[1..] + rest);
    assert Preimage(cfg, a) == Preimage(cfg, b);
    assert !Dropped(cfg, log, 0);
    DuplicateIff(cfg, log, 1);
  }
}
