/** Pairing of read requests with read responses over whole runs of the pending table. */
module OpcUaCorrelation {
  import opened Bytes
  import opened Collections
  import opened Bronze
  import opened Eviction
  import opened OpcUaNodeId
  import opened OpcUaDataValue
  import opened OpcUaPending

  /** A process reading. The event id, capture id, schema version and envelope that wrap it are not modelled. */
  datatype Reading = Reading(point: NodeId, value: PointValue, statusCode: nat, sourceTs: Option<nat>, observedTs: nat)

  /** What the decoder is told: a decoded read service, a body it ignores, or a call to expire old reads. */
  datatype Event =
    | Request(key: PendingKey, nodes: seq<NodeId>, now: nat)
    | Response(key: PendingKey, results: seq<DataValue>, now: nat)
    | Ignored
    | Expire(now: nat)
  {
    predicate Asks(k: PendingKey) { Request? && key == k }
    predicate Answers(k: PendingKey) { Response? && key == k }
    predicate Concerns(k: PendingKey) { Asks(k) || Answers(k) }
  }

  function PointAt(nodes: seq<NodeId>, i: nat): NodeId {
    if i < |nodes| then nodes[i] else NodeId(0, Numeric(i))
  }

  function ReadingAt(nodes: seq<NodeId>, results: seq<DataValue>, now: nat, i: nat): Reading
    requires i < |results|
  {
    Reading(PointAt(nodes, i), results[i].value, results[i].statusCode, results[i].sourceTs, now)
  }

  /** The readings of a response: one per result, in order, named by position. */
  function Paired(nodes: seq<NodeId>, results: seq<DataValue>, now: nat): (out: seq<Reading>)
    ensures |out| == |results|
  {
    seq(|results|, i requires 0 <= i < |results| => ReadingAt(nodes, results, now, i))
  }

  function PendingNodes(t: Table, key: PendingKey): seq<NodeId> {
    if key in t then t[key].nodes else []
  }

  ghost predicate Step(cfg: PendingConfig, pre: Table, ev: Event, post: Table, out: seq<Reading>) {
    match ev
    case Request(key, nodes, now) => Inserted(cfg, pre, key, PendingEntry(nodes, now), post) && out == []
    case Response(key, results, now) => post == pre - {key} && out == Paired(PendingNodes(pre, key), results, now)
    case Ignored => post == pre && out == []
    case Expire(now) => post == Sweep(pre, Stamp, cfg.ttlUs, now) && out == []
  }

  datatype Run = Run(cfg: PendingConfig, events: seq<Event>, tables: seq<Table>, outs: seq<seq<Reading>>) {
    /** `tables[t]` is the table before event `t`; the run starts from the empty table. */
    ghost predicate Valid() {
      && |tables| == |events| + 1 && |outs| == |events| && tables[0] == map[]
      && forall t :: 0 <= t < |events| ==> StepAt(t)
    }
    ghost predicate StepAt(t: nat)
      requires t < |events| && |tables| == |events| + 1 && |outs| == |events|
    { Step(cfg, tables[t], events[t], tables[t + 1], outs[t]) }
    function Then(ev: Event, post: Table, out: seq<Reading>): Run {
      Run(cfg, events + [ev], tables + [post], outs + [out])
    }
  }

  lemma RunNext(run: Run, ev: Event, post: Table, out: seq<Reading>)
    requires run.Valid() && Step(run.cfg, run.tables[|run.events|], ev, post, out)
    ensures var next := run.Then(ev, post, out);
            next.Valid() && |next.tables| == |next.events| + 1 && next.tables[|next.events|] == post
  {
    hide Step;
    var next := run.Then(ev, post, out);
    forall t | 0 <= t < |next.events| ensures next.StepAt(t) {
      if t < |run.events| { assert run.StepAt(t); }
    }
  }

  /** The request that a response to `key` after the first `t` events answers: the last request on
      `key` among them, unless a response on `key` came later. */
  function Source(events: seq<Event>, t: nat, key: PendingKey): (src: Option<nat>)
    requires t <= |events|
    ensures src.Some? ==> src.value < t && events[src.value].Asks(key)
    ensures src.Some? ==> forall j :: src.value < j < t ==> !events[j].Concerns(key)
  {
    if t == 0 || events[t - 1].Answers(key) then None
    else if events[t - 1].Asks(key) then Some(t - 1)
    else Source(events, t - 1, key)
  }

  /** `Source` is the only event with those properties. */
  lemma {:induction false} SourceUnique(events: seq<Event>, t: nat, key: PendingKey, i: nat)
    requires i < t <= |events| && events[i].Asks(key)
    requires forall j :: i < j < t ==> !events[j].Concerns(key)
    ensures Source(events, t, key) == Some(i)
    decreases t
  {
    if i < t - 1 {
      assert !events[t - 1].Concerns(key);
      SourceUnique(events, t - 1, key, i);
    }
  }

  /** An event leaves the entry of a key it does not ask for as it was, or removes it. */
  lemma EntryKept(cfg: PendingConfig, pre: Table, ev: Event, post: Table, out: seq<Reading>, key: PendingKey)
    requires Step(cfg, pre, ev, post, out) && !ev.Asks(key) && key in post
    ensures key in pre && post[key] == pre[key] && !ev.Answers(key)
  {
    if ev.Request? {
      var e := PendingEntry(ev.nodes, ev.now);
      var mid: Table :| MadeRoom(pre, Stamp, cfg.maxPending, ev.key, mid) && post == mid[ev.key := e];
      assert key in mid && mid[key] == pre[key];
    }
  }

  /** Each pending entry is exactly what its source request put there. */
  lemma {:induction false} Provenance(run: Run, t: nat, key: PendingKey)
    requires run.Valid() && t <= |run.events| && key in run.tables[t]
    ensures var src := Source(run.events, t, key);
            src.Some? && run.tables[t][key] == PendingEntry(run.events[src.value].nodes, run.events[src.value].now)
    decreases t
  {
    assert t > 0 && run.StepAt(t - 1);
    var ev := run.events[t - 1];
    if !ev.Asks(key) {
      EntryKept(run.cfg, run.tables[t - 1], ev, run.tables[t], run.outs[t - 1], key);
      Provenance(run, t - 1, key);
    }
  }

  /** Over every run, a response emits one reading per value, in order; the points are those of the
      request it answers if that request is still pending, and positional placeholders otherwise. */
  lemma ResponseReadings(run: Run, j: nat)
    requires run.Valid() && j < |run.events| && run.events[j].Response?
    ensures var Response(key, results, now) := run.events[j];
            var src := Source(run.events, j, key);
            if key in run.tables[j] then src.Some? && run.outs[j] == Paired(run.events[src.value].nodes, results, now)
            else run.outs[j] == Paired([], results, now)
  {
    assert run.StepAt(j);
    var key := run.events[j].key;
    if key in run.tables[j] { Provenance(run, j, key); }
  }

  /** A node list serves at most one response. */
  lemma AnsweredOnce(events: seq<Event>, j: nat, k: nat, key: PendingKey)
    requires j < k < |events| && events[j].Answers(key) && events[k].Answers(key)
    requires Source(events, j, key).Some?
    ensures Source(events, k, key) != Source(events, j, key)
  {
    assert events[j].Concerns(key);
  }

  lemma StepBounded(cfg: PendingConfig, pre: Table, ev: Event, post: Table, out: seq<Reading>)
    requires |pre| <= Bound(cfg.maxPending) && Step(cfg, pre, ev, post, out)
    ensures |post| <= Bound(cfg.maxPending)
  {
    hide Paired, Oldest, MadeRoom, Bound;
    match ev
    case Request(key, nodes, now) =>
      var e := PendingEntry(nodes, now);
      var mid: Table :| MadeRoom(pre, Stamp, cfg.maxPending, key, mid) && post == mid[key := e];
      StaysBounded(pre, Stamp, cfg.maxPending, key, mid, e);
    case Response(key, _, _) => SubmapSize(post, pre);
    case Ignored =>
    case Expire(_) =>
  }

  /** The table never outgrows its bound. */
  lemma {:induction false} TableBounded(run: Run, t: nat)
    requires run.Valid() && t <= |run.events|
    ensures |run.tables[t]| <= Bound(run.cfg.maxPending)
  {
    hide Step;
    if t > 0 {
      TableBounded(run, t - 1);
      assert run.StepAt(t - 1);
      StepBounded(run.cfg, run.tables[t - 1], run.events[t - 1], run.tables[t], run.outs[t - 1]);
    }
  }

  // ======== What a response answers ========

  /** No message on `key` comes between events `i` and `j`. */
  ghost predicate Undisturbed(events: seq<Event>, i: nat, j: nat, key: PendingKey)
    requires j <= |events|
  {
    forall t :: i < t < j ==> !events[t].Concerns(key)
  }

  /** Without a message on its key an entry that is there at the end was there all along, so "never
      evicted" can be read off the table the response meets. */
  lemma {:induction false} NeverEvictedIff(run: Run, i: nat, j: nat)
    requires run.Valid() && i < j <= |run.events| && run.events[i].Request?
    requires Undisturbed(run.events, i, j, run.events[i].key)
    ensures var key := run.events[i].key;
            key in run.tables[j] <==> forall t :: i < t <= j ==> key in run.tables[t]
    decreases j
  {
    hide Paired, Sweep, MadeRoom;
    var key := run.events[i].key;
    if i + 1 < j {
      NeverEvictedIff(run, i, j - 1);
      if key in run.tables[j] {
        assert run.StepAt(j - 1) && !run.events[j - 1].Concerns(key);
        EntryKept(run.cfg, run.tables[j - 1], run.events[j - 1], run.tables[j], run.outs[j - 1], key);
      }
    }
  }

  /** A request and the next message on its key, a response: the readings carry the request's nodes if
      and as long as its entry was never evicted, and placeholders otherwise. */
  lemma Answered(run: Run, i: nat, j: nat)
    requires run.Valid() && i < j < |run.events| && run.events[i].Request?
    requires Undisturbed(run.events, i, j, run.events[i].key) && run.events[j].Answers(run.events[i].key)
    ensures var nodes := if run.events[i].key in run.tables[j] then run.events[i].nodes else [];
            run.outs[j] == Paired(nodes, run.events[j].results, run.events[j].now)
  {
    SourceUnique(run.events, j, run.events[i].key, i);
    ResponseReadings(run, j);
  }

  // ======== When a request is sure to be still pending ========

  /** The keys that may still be pending before event `j` with a stamp of at least that of the request
      at event `i`: those requested after it, and those of unanswered requests before it that are not
      older. */
  function Rivals(events: seq<Event>, i: nat, j: nat): set<PendingKey>
    requires i < j <= |events| && events[i].Request?
  {
    set t | 0 <= t < j && Rival(events, i, t) :: events[t].key
  }

  predicate Rival(events: seq<Event>, i: nat, t: nat)
    requires i < |events| && t < |events| && events[i].Request?
  {
    && events[t].Request? && events[t].key != events[i].key
    && (t < i ==> events[t].now >= events[i].now && Source(events, i, events[t].key) == Some(t))
  }

  /** The request at event `i` is out of reach of every eviction before event `j`: no message on its
      key, no sweep that finds it expired, and too few rivals to push it out. All of this can be read
      off the events. */
  ghost predicate Protected(cfg: PendingConfig, events: seq<Event>, i: nat, j: nat)
    requires i < j <= |events| && events[i].Request?
  {
    var Request(key, _, since) := events[i];
    && Undisturbed(events, i, j, key)
    && (forall t :: i < t < j && events[t].Expire? ==> cfg.ttlUs > 0 && events[t].now < since + cfg.ttlUs)
    && |Rivals(events, i, j)| < Bound(cfg.maxPending)
  }

  /** An entry that is not older than the request's is a rival's. */
  lemma PendingRival(run: Run, i: nat, t: nat, j: nat, k: PendingKey)
    requires run.Valid() && i < t < j <= |run.events| && run.events[i].Request?
    requires k in run.tables[t] && k != run.events[i].key && run.tables[t][k].insertedUs >= run.events[i].now
    ensures k in Rivals(run.events, i, j)
  {
    Provenance(run, t, k);
    var src := Source(run.events, t, k).value;
    if src < i {
      SourceUnique(run.events, i, k, src);
    }
    assert Rival(run.events, i, src);
  }

  /** If the protected entry were the oldest, every other entry would be a rival's. */
  lemma NotTheVictim(run: Run, i: nat, t: nat, j: nat)
    requires run.Valid() && i < t < j <= |run.events| && run.events[i].Request?
    requires Protected(run.cfg, run.events, i, j)
    requires var key := run.events[i].key;
             key in run.tables[t] && run.tables[t][key].insertedUs == run.events[i].now
    requires run.events[t].Request? && run.events[t].key !in run.tables[t] && |run.tables[t]| >= run.cfg.maxPending
    ensures !Oldest(run.tables[t], Stamp, run.events[i].key)
  {
    hide Rivals;
    var key, table, rivals := run.events[i].key, run.tables[t], Rivals(run.events, i, j);
    if Oldest(table, Stamp, key) {
      forall k | k in table.Keys && k != key
        ensures k in rivals
      {
        assert Stamp(table[key]) <= Stamp(table[k]);
        PendingRival(run, i, t, j, k);
      }
      var others := table.Keys - {key} + {run.events[t].key};
      LaterRival(run.events, i, t, j);
      assert others <= rivals;
      assert |others| == |table|;
      SubsetSize(others, rivals);
    }
  }

  lemma LaterRival(events: seq<Event>, i: nat, t: nat, j: nat)
    requires i < t < j <= |events| && events[i].Request? && events[t].Request? && events[t].key != events[i].key
    ensures events[t].key in Rivals(events, i, j)
  {
    assert Rival(events, i, t);
  }

  /** A step keeps an entry it neither concerns, nor expires, nor picks as the victim. */
  lemma StepKeeps(cfg: PendingConfig, pre: Table, ev: Event, post: Table, out: seq<Reading>, key: PendingKey)
    requires Step(cfg, pre, ev, post, out) && key in pre && !ev.Concerns(key)
    requires ev.Expire? ==> cfg.ttlUs > 0 && ev.now < pre[key].insertedUs + cfg.ttlUs
    requires ev.Request? && ev.key !in pre && |pre| >= cfg.maxPending ==> !Oldest(pre, Stamp, key)
    ensures key in post
  {
    if ev.Request? {
      var mid: Table :| MadeRoom(pre, Stamp, cfg.maxPending, ev.key, mid)
                        && post == mid[ev.key := PendingEntry(ev.nodes, ev.now)];
    }
  }

  lemma {:induction false} Survives(run: Run, i: nat, t: nat, j: nat)
    requires run.Valid() && i < t <= j <= |run.events| && run.events[i].Request?
    requires Protected(run.cfg, run.events, i, j)
    ensures run.events[i].key in run.tables[t]
    decreases t
  {
    hide Step, Source, Rivals, Bound;
    assert run.StepAt(t - 1);
    if t == i + 1 {
      RequestStored(run.cfg, run.tables[i], run.events[i], run.tables[t], run.outs[i]);
    } else {
      Survives(run, i, t - 1, j);
      SurvivesStep(run, i, t - 1, j);
    }
  }

  lemma RequestStored(cfg: PendingConfig, pre: Table, ev: Event, post: Table, out: seq<Reading>)
    requires Step(cfg, pre, ev, post, out) && ev.Request?
    ensures ev.key in post
  {
  }

  lemma SurvivesStep(run: Run, i: nat, t: nat, j: nat)
    requires run.Valid() && i < t < j <= |run.events| && run.events[i].Request?
    requires Protected(run.cfg, run.events, i, j) && run.events[i].key in run.tables[t]
    ensures run.events[i].key in run.tables[t + 1]
  {
    hide Step, Oldest, Rivals, Bound;
    var key, ev := run.events[i].key, run.events[t];
    assert run.StepAt(t);
    Provenance(run, t, key);
    SourceUnique(run.events, t, key, i);
    assert !ev.Concerns(key);
    if ev.Request? && ev.key !in run.tables[t] && |run.tables[t]| >= run.cfg.maxPending {
      NotTheVictim(run, i, t, j);
    }
    StepKeeps(run.cfg, run.tables[t], ev, run.tables[t + 1], run.outs[t], key);
  }

  /** A protected request is answered by the next response on its key: its nodes name the values. */
  lemma Correlates(run: Run, i: nat, j: nat)
    requires run.Valid() && i < j < |run.events| && run.events[i].Request?
    requires run.events[j].Answers(run.events[i].key)
    requires Protected(run.cfg, run.events, i, j)
    ensures run.outs[j] == Paired(run.events[i].nodes, run.events[j].results, run.events[j].now)
  {
    hide Rivals;
    Survives(run, i, j, j);
    Answered(run, i, j);
  }

  /** Requests of few keys never push each other out, whatever their times and answers: with no sweep
      in between and no more other keys than fit beside it, a request is protected. */
  lemma RoomForAll(cfg: PendingConfig, events: seq<Event>, i: nat, j: nat, keys: set<PendingKey>)
    requires i < j <= |events| && events[i].Request? && Undisturbed(events, i, j, events[i].key)
    requires forall t :: i < t < j ==> !events[t].Expire?
    requires forall t :: 0 <= t < j && events[t].Request? && events[t].key != events[i].key ==> events[t].key in keys
    requires |keys| < Bound(cfg.maxPending)
    ensures Protected(cfg, events, i, j)
  {
    assert Rivals(events, i, j) <= keys;
    SubsetSize(Rivals(events, i, j), keys);
  }
}
