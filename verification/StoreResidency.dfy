/** Which sessions the multi-session store holds, after any run of fetches, operations and sweeps. */
module StoreResidency {
  import opened Bytes
  import opened Collections
  import opened Eviction
  import opened Recency
  import opened SparkplugSession
  import opened SparkplugStore

  /** The key of every fetch. */
  function Uses(events: seq<Event>): (uses: seq<Option<SessionKey>>)
    ensures |uses| == |events|
    ensures forall i :: 0 <= i < |events| ==> uses[i] == if events[i].Fetch? then Some(events[i].key) else None
  { seq(|events|, i requires 0 <= i < |events| => if events[i].Fetch? then Some(events[i].key) else None) }

  /** The last fetch of `k` among the first `t` events. */
  function LastFetch(events: seq<Event>, t: nat, k: SessionKey): (i: Option<nat>)
    requires t <= |events|
    ensures i.Some? ==> i.value < t && events[i.value].Fetch? && events[i.value].key == k
    ensures i.Some? ==> forall j :: i.value < j < t ==> !(events[j].Fetch? && events[j].key == k)
    ensures i.None? ==> forall j :: 0 <= j < t ==> !(events[j].Fetch? && events[j].key == k)
  {
    var i := LastUse(Uses(events), t, k);
    assert forall j :: 0 <= j < t ==> (Uses(events)[j] == Some(k) <==> events[j].Fetch? && events[j].key == k);
    i
  }

  lemma FetchAfter(events: seq<Event>, t: nat, k: SessionKey)
    requires t < |events|
    ensures LastFetch(events, t + 1, k)
         == if events[t].Fetch? && events[t].key == k then Some(t) else LastFetch(events, t, k)
  {
    UseAfter(Uses(events), t, k);
  }

  /** A sweep before event `t` found the fetch at `i` expired. */
  predicate SweptSince(cfg: Config, events: seq<Event>, i: nat, t: nat)
    requires i < t <= |events| && events[i].Fetch?
  {
    exists s :: i < s < t && events[s].Expire? && (cfg.ttlUs == 0 || events[i].now + cfg.ttlUs <= events[s].now)
  }

  /** The event at `j` fetches another session than the fetch at `i` does. */
  predicate FetchesOther(events: seq<Event>, i: nat, j: nat)
    requires i < |events| && events[i].Fetch? && j < |events|
  { events[j].Fetch? && events[j].key != events[i].key }

  /** The sessions that may outlive the one fetched at `i`: those fetched since, and those fetched before it
      at no earlier time. */
  function MayOutlive(events: seq<Event>, i: nat, t: nat): set<SessionKey>
    requires i < t <= |events| && events[i].Fetch?
  { set j | 0 <= j < t && FetchesOther(events, i, j) && (i < j || events[i].now <= events[j].now) :: events[j].key }

  /** The session `x` has been fetched since `i`, and only at later times. */
  predicate LaterOnly(events: seq<Event>, i: nat, t: nat, x: SessionKey)
    requires i < t <= |events| && events[i].Fetch?
  {
    && (exists j :: i < j < t && FetchesOther(events, i, j) && events[j].key == x)
    && forall j :: i < j < t && events[j].Fetch? && events[j].key == x ==> events[i].now < events[j].now
  }

  /** The sessions that must outlive the one fetched at `i`. */
  function MustOutlive(events: seq<Event>, i: nat, t: nat): set<SessionKey>
    requires i < t <= |events| && events[i].Fetch?
  { set j | i < j < t && FetchesOther(events, i, j) && LaterOnly(events, i, t, events[j].key) :: events[j].key }

  lemma MustIff(events: seq<Event>, i: nat, t: nat, x: SessionKey)
    requires i < t <= |events| && events[i].Fetch?
    ensures x in MustOutlive(events, i, t) <==> LaterOnly(events, i, t, x)
  {
  }

  lemma MayGrows(events: seq<Event>, i: nat, t: nat)
    requires i < t < |events| && events[i].Fetch?
    ensures MayOutlive(events, i, t) <= MayOutlive(events, i, t + 1)
    ensures FetchesOther(events, i, t) ==> events[t].key in MayOutlive(events, i, t + 1)
  {
  }

  // ======== Stamps ========

  /** Whatever the times, a resident session is stamped with the time of its last fetch. */
  lemma {:induction false} StampIsLastFetch(run: Run, t: nat, k: SessionKey)
    requires run.Valid() && t <= |run.events| && k in run.tables[t]
    ensures var i := LastFetch(run.events, t, k); i.Some? && run.tables[t][k].lastTouched == run.events[i.value].now
    decreases t
  {
    hide LastFetch, Fetched, Sweep;
    assert t > 0 && run.StepAt(t - 1);
    var ev := run.events[t - 1];
    FetchAfter(run.events, t - 1, k);
    EntryAfter(run.cfg, run.tables[t - 1], ev, run.tables[t], run.answers[t - 1], k);
    if !(ev.Fetch? && ev.key == k) {
      if ev.On(k) { WorkKeepsTouch(run.tables[t - 1][k], ev.op); }
      StampIsLastFetch(run, t - 1, k);
    }
  }

  // ======== Sessions that go ========

  /** A step that a session does not survive was a sweep that found it expired, or a fetch of an absent
      session into a full store in which nothing was touched before it. */
  lemma WhyGone(cfg: Config, pre: Sessions, ev: Event, post: Sessions, answer: bool, k: SessionKey)
    requires Step(cfg, pre, ev, post, answer) && k in pre && k !in post
    ensures ev.Expire? ==> cfg.ttlUs == 0 || pre[k].lastTouched + cfg.ttlUs <= ev.now
    ensures ev.Fetch? ==> ev.key !in pre && |pre| >= Bound(cfg.maxSessions) && Oldest(pre, Touched, k)
    ensures !ev.Work?
  {
    hide Do;
    if ev.Fetch? {
      var s := Do(Entry(pre, ev.key), Touch(ev.now));
      var mid: Sessions :| MadeRoom(pre, Touched, cfg.maxSessions, ev.key, mid) && post == mid[ev.key := s];
      assert |pre| > 0 by { assert k in pre.Keys; }
    }
  }

  /** Whatever the times, a session evicted for room is one that as many others as fit may outlive. */
  lemma VictimDead(run: Run, t: nat, v: SessionKey, i: nat)
    requires run.Valid() && t < |run.events| && run.events[t].Fetch?
    requires v in run.tables[t] && v !in run.tables[t + 1] && LastFetch(run.events, t, v) == Some(i)
    ensures |MayOutlive(run.events, i, t + 1)| >= Bound(run.cfg.maxSessions)
  {
    hide LastFetch, Step, Bound, MayOutlive;
    assert run.StepAt(t);
    var m, x := run.tables[t], run.events[t].key;
    WhyGone(run.cfg, m, run.events[t], run.tables[t + 1], run.answers[t], v);
    StampIsLastFetch(run, t, v);
    forall k | k in m.Keys - {v}
      ensures k in MayOutlive(run.events, i, t)
    {
      StampIsLastFetch(run, t, k);
      NoEarlierMayOutlive(run.events, i, t, LastFetch(run.events, t, k).value);
    }
    MayGrows(run.events, i, t);
    assert |m.Keys - {v} + {x}| == |m|;
    SubsetSize(m.Keys - {v} + {x}, MayOutlive(run.events, i, t + 1));
  }

  lemma NoEarlierMayOutlive(events: seq<Event>, i: nat, t: nat, j: nat)
    requires i < t <= |events| && events[i].Fetch? && j < t && FetchesOther(events, i, j)
    requires events[i].now <= events[j].now
    ensures events[j].key in MayOutlive(events, i, t)
  {
  }

  // ======== Every run ========

  /** In every run, whatever the times: a session stays as long as no sweep finds it expired and fewer
      others than there is room for may outlive it. */
  lemma {:induction false} SurelyKept(run: Run, t: nat, k: SessionKey, i: nat)
    requires run.Valid() && t <= |run.events| && LastFetch(run.events, t, k) == Some(i)
    requires !SweptSince(run.cfg, run.events, i, t)
    requires |MayOutlive(run.events, i, t)| < Bound(run.cfg.maxSessions)
    ensures k in run.tables[t]
    decreases t
  {
    hide LastFetch, MayOutlive, Bound, Step;
    var u := t - 1;
    FetchAfter(run.events, u, k);
    if i == u {
      WorkHasEntry(run, u);
    } else {
      MayGrows(run.events, i, u);
      SubsetSize(MayOutlive(run.events, i, u), MayOutlive(run.events, i, t));
      SurelyKept(run, u, k, i);
      if k !in run.tables[t] {
        assert run.StepAt(u);
        WhyGone(run.cfg, run.tables[u], run.events[u], run.tables[t], run.answers[u], k);
        StampIsLastFetch(run, u, k);
        if run.events[u].Fetch? { VictimDead(run, u, k, i); }
      }
    }
  }

  /** A session that a step leaves in the store was there before it, unless the step fetched it. */
  lemma WasIn(run: Run, t: nat, k: SessionKey, i: nat)
    requires run.Valid() && i < t < |run.events| && k in run.tables[t + 1]
    requires LastFetch(run.events, t + 1, k) == Some(i)
    ensures k in run.tables[t] && LastFetch(run.events, t, k) == Some(i)
  {
    hide LastFetch, Step;
    assert run.StepAt(t);
    FetchAfter(run.events, t, k);
    EntryAfter(run.cfg, run.tables[t], run.events[t], run.tables[t + 1], run.answers[t], k);
    if run.events[t].On(k) { WorkHasEntry(run, t); }
  }

  lemma WorkHasEntry(run: Run, t: nat)
    requires run.Valid() && t < |run.events|
    ensures run.events[t].Work? ==> run.events[t].key in run.tables[t]
    ensures run.events[t].Fetch? ==> run.events[t].key in run.tables[t + 1]
  {
    assert run.StepAt(t);
  }

  /** A step that one session survives is survived by every session touched later. */
  lemma LaterSurvives(cfg: Config, pre: Sessions, ev: Event, post: Sessions, answer: bool, k: SessionKey, x: SessionKey)
    requires Step(cfg, pre, ev, post, answer) && k in pre && k in post
    requires x in pre && pre[k].lastTouched < pre[x].lastTouched
    ensures x in post
  {
    if x !in post {
      WhyGone(cfg, pre, ev, post, answer, x);
    }
  }

  lemma LaterBefore(events: seq<Event>, i: nat, u: nat, x: SessionKey)
    requires i < u < |events| && events[i].Fetch? && LaterOnly(events, i, u + 1, x)
    requires !(events[u].Fetch? && events[u].key == x)
    ensures LaterOnly(events, i, u, x)
  {
  }

  lemma LaterStamp(events: seq<Event>, i: nat, t: nat, x: SessionKey)
    requires i < t <= |events| && events[i].Fetch? && LaterOnly(events, i, t, x)
    ensures var j := LastFetch(events, t, x); j.Some? && i < j.value && events[i].now < events[j.value].now
  {
    hide LastFetch;
  }

  /** In every run, whatever the times: what must outlive a resident session is resident with it. */
  lemma {:induction false} LaterAlive(run: Run, t: nat, k: SessionKey, i: nat, x: SessionKey)
    requires run.Valid() && t <= |run.events| && k in run.tables[t] && LastFetch(run.events, t, k) == Some(i)
    requires LaterOnly(run.events, i, t, x)
    ensures x in run.tables[t]
    decreases t
  {
    assert t - 1 > i;
    hide LastFetch, Step, LaterOnly;
    var u := t - 1;
    var ev := run.events[u];
    if ev.Fetch? && ev.key == x {
      WorkHasEntry(run, u);
    } else {
      WasIn(run, u, k, i);
      LaterBefore(run.events, i, u, x);
      LaterAlive(run, u, k, i, x);
      StampIsLastFetch(run, u, k);
      StampIsLastFetch(run, u, x);
      LaterStamp(run.events, i, u, x);
      assert run.StepAt(u);
      LaterSurvives(run.cfg, run.tables[u], ev, run.tables[t], run.answers[u], k, x);
    }
  }

  lemma {:induction false} NotSwept(run: Run, t: nat, k: SessionKey, i: nat)
    requires run.Valid() && t <= |run.events| && k in run.tables[t] && LastFetch(run.events, t, k) == Some(i)
    ensures !SweptSince(run.cfg, run.events, i, t)
    decreases t
  {
    hide LastFetch, Fetched;
    var u := t - 1;
    if i < u {
      WasIn(run, u, k, i);
      NotSwept(run, u, k, i);
      StampIsLastFetch(run, u, k);
      assert run.StepAt(u);
    }
  }

  /** In every run, whatever the times: no sweep has found a resident session expired, and fewer others
      than there is room for must outlive it. */
  lemma SurelyGone(run: Run, t: nat, k: SessionKey)
    requires run.Valid() && t <= |run.events| && k in run.tables[t]
    ensures var i := LastFetch(run.events, t, k);
            && i.Some? && !SweptSince(run.cfg, run.events, i.value, t)
            && |MustOutlive(run.events, i.value, t)| < Bound(run.cfg.maxSessions)
  {
    hide LastFetch, SweptSince, MustOutlive, LaterOnly, Bound, Step;
    StampIsLastFetch(run, t, k);
    var i := LastFetch(run.events, t, k).value;
    NotSwept(run, t, k, i);
    var must, keys := MustOutlive(run.events, i, t), run.tables[t].Keys;
    forall x | x in must
      ensures x in keys - {k}
    {
      MustIff(run.events, i, t, x);
      LaterAlive(run, t, k, i, x);
      LaterStamp(run.events, i, t, x);
    }
    SubsetSize(must, keys - {k});
    StoreBounded(run, t);
  }

  // ======== Times in order ========

  /** The fetch at `i` is in order with the fetches of other sessions: each before it has an earlier time,
      each after it a later one. */
  predicate InOrder(events: seq<Event>, i: nat, t: nat)
    requires i < t <= |events| && events[i].Fetch?
  {
    forall j :: 0 <= j < t && FetchesOther(events, i, j) ==>
      (j < i ==> events[j].now < events[i].now) && (i < j ==> events[i].now < events[j].now)
  }

  /** The fetches of different sessions come at rising times. A session may be fetched again at once. */
  predicate Rising(events: seq<Event>) {
    forall i, j :: 0 <= i < j < |events| && events[i].Fetch? && FetchesOther(events, i, j) ==>
      events[i].now < events[j].now
  }

  lemma RisingInOrder(events: seq<Event>, i: nat, t: nat)
    requires Rising(events) && i < t <= |events| && events[i].Fetch?
    ensures InOrder(events, i, t)
  {
    forall j | 0 <= j < i && FetchesOther(events, i, j) ensures events[j].now < events[i].now {
      assert FetchesOther(events, j, i);
    }
  }

  /** There the sessions that may and that must outlive it are those fetched since. */
  lemma InOrderSame(events: seq<Event>, t: nat, k: SessionKey, i: nat)
    requires t <= |events| && LastFetch(events, t, k) == Some(i) && InOrder(events, i, t)
    ensures MayOutlive(events, i, t) == MustOutlive(events, i, t) == UsedIn(Uses(events), i + 1, t)
  {
    hide LastFetch, LaterOnly;
    var since := UsedIn(Uses(events), i + 1, t);
    forall x
      ensures x in since <==> x in MayOutlive(events, i, t)
    {
      if x in since {
        var j :| i + 1 <= j < t && Uses(events)[j].Some? && Uses(events)[j].value == x;
        assert FetchesOther(events, i, j);
      }
    }
    forall x | x in since
      ensures x in MustOutlive(events, i, t)
    {
      var j :| i + 1 <= j < t && Uses(events)[j].Some? && Uses(events)[j].value == x;
      assert FetchesOther(events, i, j);
      InOrderLater(events, i, t, j);
      MustIff(events, i, t, x);
    }
  }

  lemma InOrderLater(events: seq<Event>, i: nat, t: nat, j: nat)
    requires i < j < t <= |events| && events[i].Fetch? && FetchesOther(events, i, j) && InOrder(events, i, t)
    ensures LaterOnly(events, i, t, events[j].key)
  {
    forall n | i < n < t && events[n].Fetch? && events[n].key == events[j].key
      ensures events[i].now < events[n].now
    {
      assert FetchesOther(events, i, n);
    }
  }

  /** After any run, a session whose last fetch is in order is resident exactly when fewer than
      `max(1, max_sessions)` distinct sessions were fetched since and no sweep since found it expired. */
  lemma ResidentInOrder(run: Run, t: nat, k: SessionKey)
    requires run.Valid() && t <= |run.events|
    requires LastFetch(run.events, t, k).Some? ==> InOrder(run.events, LastFetch(run.events, t, k).value, t)
    ensures k in run.tables[t]
            <==> var i := LastFetch(run.events, t, k);
                 && i.Some? && |UsedIn(Uses(run.events), i.value + 1, t)| < Bound(run.cfg.maxSessions)
                 && !SweptSince(run.cfg, run.events, i.value, t)
  {
    hide LastFetch, UsedIn, InOrder, SweptSince, MayOutlive, MustOutlive, Bound, Step;
    var i := LastFetch(run.events, t, k);
    if i.Some? { InOrderSame(run.events, t, k, i.value); }
    if k in run.tables[t] {
      SurelyGone(run, t, k);
    } else if i.Some? && |UsedIn(Uses(run.events), i.value + 1, t)| < Bound(run.cfg.maxSessions)
              && !SweptSince(run.cfg, run.events, i.value, t) {
      SurelyKept(run, t, k, i.value);
    }
  }

  /** So for every session of a run in which the fetches of different sessions come at rising times. */
  lemma ResidentIff(run: Run, t: nat, k: SessionKey)
    requires run.Valid() && Rising(run.events) && t <= |run.events|
    ensures k in run.tables[t]
            <==> var i := LastFetch(run.events, t, k);
                 && i.Some? && |UsedIn(Uses(run.events), i.value + 1, t)| < Bound(run.cfg.maxSessions)
                 && !SweptSince(run.cfg, run.events, i.value, t)
  {
    hide LastFetch, UsedIn, Rising, InOrder, SweptSince, Bound, Step;
    var i := LastFetch(run.events, t, k);
    if i.Some? { RisingInOrder(run.events, i.value, t); }
    ResidentInOrder(run, t, k);
  }

  // ======== Times out of order ========

  /** Of two sessions fetched at one time either may be the one that goes, so two runs of the same calls
      hold different sessions. */
  lemma TiesAreLuck(a: SessionKey, b: SessionKey, c: SessionKey, ttl: nat) returns (p: Run, q: Run)
    requires a != b && b != c && a != c
    ensures p.Valid() && q.Valid() && p.cfg == q.cfg && p.events == q.events && |p.events| == 3
    ensures a !in p.tables[3] && b in p.tables[3] && a in q.tables[3] && b !in q.tables[3]
  {
    hide Run.Valid, Do;
    var r := BothFetched(a, 0, b, 0, ttl);
    p := OneGoes(r, a, 0, b, 0, a, c, 1);
    q := OneGoes(r, a, 0, b, 0, b, c, 1);
  }

  /** A session fetched at an earlier time than one before it goes first, whenever the next is fetched. */
  lemma EarlierTimeGoesFirst(a: SessionKey, x: nat, b: SessionKey, y: nat, c: SessionKey, z: nat, ttl: nat)
    returns (p: Run)
    requires a != b && b != c && a != c && y < x
    ensures p.Valid() && p.cfg == Config(ttl, 2) && p.events == [Fetch(a, x), Fetch(b, y), Fetch(c, z)]
    ensures a in p.tables[3] && b !in p.tables[3]
  {
    hide Run.Valid, Do;
    var r := BothFetched(a, x, b, y, ttl);
    p := OneGoes(r, a, x, b, y, b, c, z);
  }

  function Both(a: SessionKey, x: nat, b: SessionKey, y: nat): Sessions {
    map[a := Do(FRESH, Touch(x)), b := Do(FRESH, Touch(y))]
  }

  lemma BothFetched(a: SessionKey, x: nat, b: SessionKey, y: nat, ttl: nat) returns (r: Run)
    requires a != b
    ensures r.Valid() && r.cfg == Config(ttl, 2) && r.events == [Fetch(a, x), Fetch(b, y)]
    ensures r.tables[2] == Both(a, x, b, y)
  {
    hide Step, Do;
    var cfg, one, two := Config(ttl, 2), map[a := Do(FRESH, Touch(x))], Both(a, x, b, y);
    r := Run(cfg, [], [map[]], []);
    FetchStep(cfg, map[], a, x, map[], one);
    RunNext(r, Fetch(a, x), one, false);
    r := r.Then(Fetch(a, x), one, false);
    FetchStep(cfg, one, b, y, one, two);
    RunNext(r, Fetch(b, y), two, false);
    r := r.Then(Fetch(b, y), two, false);
  }

  lemma OneGoes(r: Run, a: SessionKey, x: nat, b: SessionKey, y: nat, v: SessionKey, c: SessionKey, z: nat)
    returns (p: Run)
    requires a != b && b != c && a != c && ((v == a && x <= y) || (v == b && y <= x))
    requires r.Valid() && r.cfg.maxSessions == 2 && |r.events| == 2 && r.tables[2] == Both(a, x, b, y)
    ensures p.Valid() && p.cfg == r.cfg && p.events == r.events + [Fetch(c, z)]
    ensures p.tables[3].Keys == {a, b, c} - {v}
  {
    hide Step, Run.Valid;
    var pre := Both(a, x, b, y);
    var mid := pre - {v};
    assert Oldest(pre, Touched, v);
    hide Do;
    assert |pre| == |pre.Keys| == |{a, b}| == 2;
    var post := mid[c := Do(Entry(pre, c), Touch(z))];
    FetchStep(r.cfg, pre, c, z, mid, post);
    RunNext(r, Fetch(c, z), post, false);
    p := r.Then(Fetch(c, z), post, false);
  }

  lemma FetchStep(cfg: Config, pre: Sessions, key: SessionKey, now: nat, mid: Sessions, post: Sessions)
    requires MadeRoom(pre, Touched, cfg.maxSessions, key, mid) && post == mid[key := Do(Entry(pre, key), Touch(now))]
    ensures Step(cfg, pre, Fetch(key, now), post, false)
  {
    hide MadeRoom, Do;
  }
}
