/** The bounded flow table of the streaming session, against a most-recently-used list. */
module FlowTable {
  import opened Bytes
  import opened Collections
  import opened Eviction
  import opened Recency

  const U32_MAX := 0xFFFF_FFFF
  const TICK_LIMIT := 0x1_0000_0000_0000_0000

  datatype FlowKey = FlowKey(srcIp: seq<byte>, dstIp: seq<byte>, srcPort: nat, dstPort: nat, l4Proto: byte)
  datatype Config = Config(maxAttempts: nat, maxFlows: nat) {
    predicate Valid() { maxAttempts <= U32_MAX }
  }

  datatype Answer = NeedMore | Classified(protocol: string) | Unknown

  /** What one packet shows: no L4 payload, a payload no dissector accepts, or a protocol. */
  datatype Verdict = Unparseable | NoMatch | Match(protocol: string)

  /** What the table remembers of one flow, apart from when it was last fed. */
  datatype View = View(attempts: nat, protocol: Option<string>)

  datatype FlowState = FlowState(view: View, lastSeen: nat)
  datatype Table = Table(flows: map<FlowKey, FlowState>, tick: nat)
  datatype Feed = Feed(key: FlowKey, verdict: Verdict)

  function LastSeen(s: FlowState): nat { s.lastSeen }

  function SaturatingInc(n: nat): nat { if n >= U32_MAX then U32_MAX else n + 1 }

  /** One packet of one flow. A flow that is not resident always gets a classification attempt. */
  function Judge(cfg: Config, prior: Option<View>, verdict: Verdict): (View, Answer) {
    if prior.Some? && prior.value.protocol.Some? then (prior.value, Classified(prior.value.protocol.value))
    else if prior.Some? && prior.value.attempts >= cfg.maxAttempts then (prior.value, Unknown)
    else
      var v := if prior.Some? then prior.value else View(0, None);
      match verdict
      case Match(p) => (v.(protocol := Some(p)), Classified(p))
      case Unparseable => (v.(attempts := SaturatingInc(v.attempts)), NeedMore)
      case NoMatch =>
        var n := SaturatingInc(v.attempts);
        (v.(attempts := n), if n >= cfg.maxAttempts then Unknown else NeedMore)
  }

  function ViewOf(t: Table, key: FlowKey): Option<View> {
    if key in t.flows then Some(t.flows[key].view) else None
  }

  function NextTick(tick: nat): nat { (tick + 1) % TICK_LIMIT }

  /** One feed. The LRU victim is whichever entry has the smallest tick. */
  ghost predicate Step(cfg: Config, pre: Table, feed: Feed, post: Table, answer: Answer) {
    var (view, a) := Judge(cfg, ViewOf(pre, feed.key), feed.verdict);
    && answer == a && post.tick == NextTick(pre.tick)
    && Stored(cfg, pre.flows, feed.key, FlowState(view, post.tick), post.flows)
  }

  /** Storing the state of a flow after making room for it. */
  ghost predicate Stored(cfg: Config, pre: map<FlowKey, FlowState>, key: FlowKey, s: FlowState,
                         post: map<FlowKey, FlowState>)
  {
    exists mid: map<FlowKey, FlowState> :: MadeRoom(pre, LastSeen, cfg.maxFlows, key, mid) && post == mid[key := s]
  }

  /** Any number of feeds that does not wrap the 64-bit tick. */
  datatype Run = Run(cfg: Config, feeds: seq<Feed>, tables: seq<Table>, answers: seq<Answer>) {
    ghost predicate Valid() { cfg.Valid() && |feeds| < TICK_LIMIT && Steps() }
    ghost predicate Steps() {
      && |tables| == |feeds| + 1 && |answers| == |feeds| && tables[0] == Table(map[], 0)
      && forall t :: 0 <= t < |feeds| ==> StepAt(t)
    }
    ghost predicate StepAt(t: nat)
      requires t < |feeds| && |tables| == |feeds| + 1 && |answers| == |feeds|
    { Step(cfg, tables[t], feeds[t], tables[t + 1], answers[t]) }
    function Then(feed: Feed, post: Table, answer: Answer): Run {
      Run(cfg, feeds + [feed], tables + [post], answers + [answer])
    }
  }

  lemma RunNext(run: Run, feed: Feed, post: Table, answer: Answer)
    requires run.Steps() && Step(run.cfg, run.tables[|run.feeds|], feed, post, answer)
    ensures var next := run.Then(feed, post, answer);
            next.Steps() && |next.tables| == |next.feeds| + 1 && next.tables[|next.feeds|] == post
  {
    hide Step;
    var next := run.Then(feed, post, answer);
    forall t | 0 <= t < |next.feeds| ensures next.StepAt(t) {
      if t < |run.feeds| { assert run.StepAt(t); }
    }
  }

  // ======== The resident flows are the most recently fed ones ========

  /** The key of every feed. */
  function Uses(feeds: seq<Feed>): (uses: seq<Option<FlowKey>>)
    ensures |uses| == |feeds| && forall i :: 0 <= i < |feeds| ==> uses[i] == Some(feeds[i].key)
  { seq(|feeds|, i requires 0 <= i < |feeds| => Some(feeds[i].key)) }

  ghost predicate FedLater(uses: seq<Option<FlowKey>>, t: nat, a: FlowKey, b: FlowKey)
    requires t <= |uses|
  {
    var i, j := LastUse(uses, t, a), LastUse(uses, t, b);
    i.Some? && j.Some? && i.value > j.value
  }

  /** `keys` are the `min(c, d)` most recently fed of the `d` distinct keys fed so far. */
  ghost predicate MostRecent(uses: seq<Option<FlowKey>>, t: nat, keys: set<FlowKey>, c: nat)
    requires t <= |uses|
  {
    && keys <= UsedIn(uses, 0, t) && |keys| == Min(c, |UsedIn(uses, 0, t)|)
    && forall a, b :: b in keys && FedLater(uses, t, a, b) ==> a in keys
  }

  /** Every resident flow carries the tick of its own last feed. */
  ghost predicate Stamped(uses: seq<Option<FlowKey>>, t: nat, flows: map<FlowKey, FlowState>)
    requires t <= |uses|
  {
    forall k :: k in flows ==> LastUse(uses, t, k).Some? && flows[k].lastSeen == LastUse(uses, t, k).value + 1
  }

  ghost predicate Tracks(cfg: Config, uses: seq<Option<FlowKey>>, t: nat, table: Table)
    requires t <= |uses|
  {
    table.tick == t && Stamped(uses, t, table.flows) && MostRecent(uses, t, table.flows.Keys, Bound(cfg.maxFlows))
  }

  /** Equal sizes make a subset the whole set. */
  lemma SameSize<T>(a: set<T>, b: set<T>)
    requires a <= b && |a| == |b|
    ensures a == b
  {
    assert b == a + (b - a);
    assert |b - a| == 0;
  }

  /** Feeding a key that is already resident. */
  lemma RecentTouched(uses: seq<Option<FlowKey>>, t: nat, keys: set<FlowKey>, c: nat)
    requires t < |uses| && uses[t].Some? && MostRecent(uses, t, keys, c) && uses[t].value in keys
    ensures MostRecent(uses, t + 1, keys, c)
  {
    hide LastUse, UsedIn;
    UsedNext(uses, 0, t);
    assert UsedIn(uses, 0, t + 1) == UsedIn(uses, 0, t);
    forall a, b | b in keys && FedLater(uses, t + 1, a, b)
      ensures a in keys
    {
      UseAfter(uses, t, a);
      UseAfter(uses, t, b);
    }
  }

  /** Feeding a key when there is still room: every key fed so far is resident, so the key is new. */
  lemma RecentAdmitted(uses: seq<Option<FlowKey>>, t: nat, keys: set<FlowKey>, c: nat)
    requires t < |uses| && uses[t].Some? && MostRecent(uses, t, keys, c) && uses[t].value !in keys && |keys| < c
    ensures MostRecent(uses, t + 1, keys + {uses[t].value}, c)
  {
    hide LastUse, UsedIn;
    UsedNext(uses, 0, t);
    SameSize(keys, UsedIn(uses, 0, t));
    forall a | LastUse(uses, t + 1, a).Some?
      ensures a in keys + {uses[t].value}
    {
      UsedKey(uses, t + 1, a);
    }
  }

  /** Feeding a new key when the table is full: the key fed longest ago makes way. */
  lemma RecentReplaced(uses: seq<Option<FlowKey>>, t: nat, keys: set<FlowKey>, c: nat, v: FlowKey)
    requires t < |uses| && uses[t].Some? && MostRecent(uses, t, keys, c) && uses[t].value !in keys && |keys| == c
    requires v in keys && forall k :: k in keys ==> !FedLater(uses, t, v, k)
    ensures MostRecent(uses, t + 1, keys - {v} + {uses[t].value}, c)
  {
    hide LastUse, UsedIn;
    UsedNext(uses, 0, t);
    var post := keys - {v} + {uses[t].value};
    assert |post| == c;
    SubsetSize(UsedIn(uses, 0, t), UsedIn(uses, 0, t + 1));
    forall a, b | b in post && FedLater(uses, t + 1, a, b)
      ensures a in post
    {
      UseAfter(uses, t, a);
      UseAfter(uses, t, b);
    }
  }

  /** The smallest tick belongs to the key fed longest ago, and to no other. */
  lemma OldestFedFirst(uses: seq<Option<FlowKey>>, t: nat, flows: map<FlowKey, FlowState>, v: FlowKey)
    requires t <= |uses| && Stamped(uses, t, flows) && Oldest(flows, LastSeen, v)
    ensures forall k :: k in flows ==> !FedLater(uses, t, v, k)
    ensures forall k :: k in flows && Oldest(flows, LastSeen, k) ==> k == v
  {
    forall k | k in flows && Oldest(flows, LastSeen, k)
      ensures k == v
    {
      assert LastSeen(flows[k]) == LastSeen(flows[v]);
    }
  }

  lemma SizeWithin(uses: seq<Option<FlowKey>>, t: nat, keys: set<FlowKey>, c: nat)
    requires t <= |uses| && MostRecent(uses, t, keys, c)
    ensures |keys| <= c
  {
  }

  lemma StampedNext(uses: seq<Option<FlowKey>>, t: nat, pre: map<FlowKey, FlowState>, mid: map<FlowKey, FlowState>,
                    view: View)
    requires t < |uses| && uses[t].Some? && Stamped(uses, t, pre)
    requires forall k :: k in mid ==> k in pre && mid[k] == pre[k]
    ensures Stamped(uses, t + 1, mid[uses[t].value := FlowState(view, t + 1)])
  {
    hide LastUse;
    forall k { UseAfter(uses, t, k); }
  }

  lemma KeysNext(cfg: Config, uses: seq<Option<FlowKey>>, t: nat, pre: map<FlowKey, FlowState>,
                 mid: map<FlowKey, FlowState>)
    requires t < |uses| && uses[t].Some? && Stamped(uses, t, pre) && MostRecent(uses, t, pre.Keys, Bound(cfg.maxFlows))
    requires MadeRoom(pre, LastSeen, cfg.maxFlows, uses[t].value, mid)
    ensures MostRecent(uses, t + 1, mid.Keys + {uses[t].value}, Bound(cfg.maxFlows))
    ensures forall k :: k in mid ==> k in pre && mid[k] == pre[k]
  {
    hide LastUse, UsedIn, MostRecent, Stamped;
    var k, c := uses[t].value, Bound(cfg.maxFlows);
    SizeWithin(uses, t, pre.Keys, c);
    if k in pre {
      RecentTouched(uses, t, pre.Keys, c);
      assert mid.Keys + {k} == pre.Keys;
    } else if |pre.Keys| < c {
      assert mid == pre;
      RecentAdmitted(uses, t, pre.Keys, c);
    } else {
      var v :| Oldest(pre, LastSeen, v) && mid == pre - {v};
      OldestFedFirst(uses, t, pre, v);
      RecentReplaced(uses, t, pre.Keys, c, v);
      assert mid.Keys == pre.Keys - {v};
    }
  }

  lemma StepTracks(cfg: Config, feeds: seq<Feed>, t: nat, pre: Table, post: Table, a: Answer)
    requires t < |feeds| < TICK_LIMIT && Tracks(cfg, Uses(feeds), t, pre) && Step(cfg, pre, feeds[t], post, a)
    ensures Tracks(cfg, Uses(feeds), t + 1, post)
  {
    hide LastUse, UsedIn, Judge, MostRecent, Stamped, MadeRoom;
    var k := feeds[t].key;
    var view := Judge(cfg, ViewOf(pre, k), feeds[t].verdict).0;
    var mid: map<FlowKey, FlowState> :|
      MadeRoom(pre.flows, LastSeen, cfg.maxFlows, k, mid) && post.flows == mid[k := FlowState(view, post.tick)];
    KeysNext(cfg, Uses(feeds), t, pre.flows, mid);
    StampedNext(Uses(feeds), t, pre.flows, mid, view);
    assert post.flows.Keys == mid.Keys + {k};
  }

  lemma NothingFed(cfg: Config, uses: seq<Option<FlowKey>>)
    ensures Tracks(cfg, uses, 0, Table(map[], 0))
  {
    assert UsedIn(uses, 0, 0) == {};
  }

  /** After any run the resident flows are the `min(C, d)` most recently fed of the `d` distinct flows,
      for `C = max(1, max_flows)`, each stamped with its own last feed. */
  lemma {:induction false} TableTracks(run: Run, t: nat)
    requires run.Valid() && t <= |run.feeds|
    ensures Tracks(run.cfg, Uses(run.feeds), t, run.tables[t])
  {
    hide Step, Tracks;
    if t == 0 {
      NothingFed(run.cfg, Uses(run.feeds));
    } else {
      TableTracks(run, t - 1);
      assert run.StepAt(t - 1);
      StepTracks(run.cfg, run.feeds, t - 1, run.tables[t - 1], run.tables[t], run.answers[t - 1]);
    }
  }

  /** A flow is resident exactly when it has been fed and fewer than `max(1, max_flows)` distinct flows
      have been fed since. */
  lemma ResidentIff(run: Run, t: nat, k: FlowKey)
    requires run.Valid() && t <= |run.feeds|
    ensures k in run.tables[t].flows
            <==> var i := LastUse(Uses(run.feeds), t, k);
                 i.Some? && |UsedIn(Uses(run.feeds), i.value + 1, t)| < Bound(run.cfg.maxFlows)
  {
    hide LastUse, UsedIn, MostRecent, Stamped, Run.StepAt;
    TableTracks(run, t);
    var uses, keys, c := Uses(run.feeds), run.tables[t].flows.Keys, Bound(run.cfg.maxFlows);
    if k in keys { RecentHasFewSince(uses, t, keys, c, k); }
    if k !in keys && LastUse(uses, t, k).Some? { OthersHaveManySince(uses, t, keys, c, k); }
  }

  lemma RecentHasFewSince(uses: seq<Option<FlowKey>>, t: nat, keys: set<FlowKey>, c: nat, k: FlowKey)
    requires t <= |uses| && MostRecent(uses, t, keys, c) && k in keys
    ensures var i := LastUse(uses, t, k); i.Some? && |UsedIn(uses, i.value + 1, t)| < c
  {
    hide LastUse, UsedIn;
    UsedKey(uses, t, k);
    var i := LastUse(uses, t, k).value;
    var since := UsedIn(uses, i + 1, t);
    forall x | x in since
      ensures x in keys - {k}
    {
      UsedSince(uses, t, i, x);
      assert FedLater(uses, t, x, k);
    }
    SubsetSize(since, keys - {k});
  }

  lemma OthersHaveManySince(uses: seq<Option<FlowKey>>, t: nat, keys: set<FlowKey>, c: nat, k: FlowKey)
    requires t <= |uses| && MostRecent(uses, t, keys, c) && k !in keys && LastUse(uses, t, k).Some?
    ensures |UsedIn(uses, LastUse(uses, t, k).value + 1, t)| >= c
  {
    hide LastUse, UsedIn;
    var i := LastUse(uses, t, k).value;
    var since := UsedIn(uses, i + 1, t);
    forall x | x in keys
      ensures x in since
    {
      UsedSince(uses, t, i, x);
      UsedKey(uses, t, x);
      LastUseApart(uses, t, x, k);
      assert !FedLater(uses, t, k, x);
    }
    SubsetSize(keys, since);
    UsedKey(uses, t, k);
    SubsetSize(keys + {k}, UsedIn(uses, 0, t));
  }

  /** The victim is never a matter of luck: a run is determined by its configuration and its feeds. */
  lemma {:induction false} RunsAreDetermined(a: Run, b: Run, t: nat)
    requires a.Valid() && b.Valid() && a.cfg == b.cfg && a.feeds == b.feeds && t <= |a.feeds|
    ensures a.tables[t] == b.tables[t]
    ensures t < |a.feeds| ==> a.answers[t] == b.answers[t]
  {
    hide Tracks, MadeRoom, Judge;
    if t > 0 {
      RunsAreDetermined(a, b, t - 1);
      TableTracks(a, t - 1);
      assert a.StepAt(t - 1) && b.StepAt(t - 1);
      StepDetermined(a.cfg, a.feeds, t - 1, a.tables[t - 1], a.tables[t], b.tables[t],
                     a.answers[t - 1], b.answers[t - 1]);
    }
    if t < |a.feeds| { assert a.StepAt(t) && b.StepAt(t); }
  }

  lemma StepDetermined(cfg: Config, feeds: seq<Feed>, t: nat, pre: Table, p: Table, q: Table, a: Answer, b: Answer)
    requires t < |feeds| && Tracks(cfg, Uses(feeds), t, pre)
    requires Step(cfg, pre, feeds[t], p, a) && Step(cfg, pre, feeds[t], q, b)
    ensures p == q
  {
    hide LastUse, UsedIn, Judge, MostRecent, Stamped;
    var k := feeds[t].key;
    var view := Judge(cfg, ViewOf(pre, k), feeds[t].verdict).0;
    var m: map<FlowKey, FlowState> :|
      MadeRoom(pre.flows, LastSeen, cfg.maxFlows, k, m) && p.flows == m[k := FlowState(view, p.tick)];
    var n: map<FlowKey, FlowState> :|
      MadeRoom(pre.flows, LastSeen, cfg.maxFlows, k, n) && q.flows == n[k := FlowState(view, q.tick)];
    if k !in pre.flows && |pre.flows| >= cfg.maxFlows && pre.flows != map[] {
      var v :| Oldest(pre.flows, LastSeen, v) && m == pre.flows - {v};
      var u :| Oldest(pre.flows, LastSeen, u) && n == pre.flows - {u};
      OldestFedFirst(Uses(feeds), t, pre.flows, v);
    }
  }
}
