/** The multi-session store: a bounded table of sessions with LRU and TTL eviction. */
module SparkplugStore {
  import opened Bytes
  import opened Eviction
  import opened SparkplugSession

  const SWEEP_EVERY := 1024

  datatype SessionKey = SessionKey(broker: seq<byte>, group: string, edge: string, device: Option<string>)
  datatype Config = Config(ttlUs: nat, maxSessions: nat)
  type Sessions = map<SessionKey, Session>

  function Touched(s: Session): nat { s.lastTouched }

  /** A session as the store has it: a fresh one if absent. */
  function Entry(m: Sessions, key: SessionKey): Session { if key in m then m[key] else FRESH }

  /** A call on the store, or an operation through the reference that the last fetch of a session gave. */
  datatype Event = Fetch(key: SessionKey, now: nat) | Work(key: SessionKey, op: Op) | Expire(now: nat) {
    predicate On(k: SessionKey) { !Expire? && key == k }
    function Op(): Op
      requires !Expire?
    { if Fetch? then Touch(now) else op }
  }

  /** What a fetch may leave: the LRU victim is free among ties. */
  ghost predicate Fetched(cfg: Config, pre: Sessions, key: SessionKey, now: nat, post: Sessions) {
    exists mid: Sessions ::
      MadeRoom(pre, Touched, cfg.maxSessions, key, mid) && post == mid[key := Do(Entry(pre, key), Touch(now))]
  }

  ghost predicate Step(cfg: Config, pre: Sessions, ev: Event, post: Sessions, answer: bool) {
    match ev
    case Fetch(key, now) => Fetched(cfg, pre, key, now, post) && !answer
    case Work(key, op) =>
      key in pre && !op.Touch? && post == pre[key := Do(pre[key], op)] && answer == Says(pre[key], op)
    case Expire(now) => post == Sweep(pre, Touched, cfg.ttlUs, now) && !answer
  }

  /** Any sequence of calls from the empty store, with the answers of the operations. */
  datatype Run = Run(cfg: Config, events: seq<Event>, tables: seq<Sessions>, answers: seq<bool>) {
    ghost predicate Valid() {
      && |tables| == |events| + 1 && |answers| == |events| && tables[0] == map[]
      && forall t :: 0 <= t < |events| ==> StepAt(t)
    }
    ghost predicate StepAt(t: nat)
      requires t < |events| && |tables| == |events| + 1 && |answers| == |events|
    { Step(cfg, tables[t], events[t], tables[t + 1], answers[t]) }
    function Then(ev: Event, post: Sessions, answer: bool): Run {
      Run(cfg, events + [ev], tables + [post], answers + [answer])
    }
  }

  lemma RunNext(run: Run, ev: Event, post: Sessions, answer: bool)
    requires run.Valid() && Step(run.cfg, run.tables[|run.events|], ev, post, answer)
    ensures var next := run.Then(ev, post, answer);
            next.Valid() && |next.tables| == |next.events| + 1 && next.tables[|next.events|] == post
  {
    hide Step;
    var next := run.Then(ev, post, answer);
    forall t | 0 <= t < |next.events| ensures next.StepAt(t) {
      if t < |run.events| { assert run.StepAt(t); }
    }
  }

  class SessionStore {
    var sessions: Sessions
    const config: Config
    var publishesSinceSweep: nat
    ghost var calls: nat
    /** Every fetch, operation and sweep so far. */
    ghost var run: Run

    ghost predicate Valid()
      reads this
    {
      && run.Valid() && run.cfg == config && run.tables[|run.events|] == sessions
      && publishesSinceSweep == calls % SWEEP_EVERY
    }

    constructor (config: Config)
      ensures Valid() && sessions == map[] && this.config == config && calls == 0 && run.events == []
    {
      sessions, this.config, publishesSinceSweep, calls := map[], config, 0, 0;
      run := Run(config, [], [map[]], []);
    }

    /** Get-or-create, touched; the session returned is the one now stored. */
    method EntryMut(key: SessionKey, now: nat) returns (s: Session)
      requires Valid()
      modifies this
      ensures Valid() && calls == old(calls) && run == old(run).Then(Fetch(key, now), sessions, false)
      ensures key in sessions && s == sessions[key] && |sessions| <= Bound(config.maxSessions)
    {
      hide Run.Valid;
      ghost var pre := sessions;
      var inserting := key !in sessions;
      if inserting && |sessions| >= config.maxSessions {
        sessions := EvictOldest(sessions, Touched);
      }
      assert MadeRoom(pre, Touched, config.maxSessions, key, sessions);
      s := Entry(sessions, key).(lastTouched := now);
      sessions := sessions[key := s];
      RunNext(run, Fetch(key, now), sessions, false);
      run := run.Then(Fetch(key, now), sessions, false);
      StoreBounded(run, |run.events|);
    }

    /** One operation through the reference to a session: that session's own method, seen by the store. */
    method Work(key: SessionKey, op: Op) returns (answer: bool)
      requires Valid() && key in sessions && !op.Touch?
      modifies this
      ensures Valid() && calls == old(calls) && run == old(run).Then(Event.Work(key, op), sessions, answer)
    {
      hide Run.Valid;
      var state := new SessionState.Of(sessions[key]);
      answer := false;
      match op {
        case Bind(alias, name) => state.BindAlias(alias, name);
        case Birth(b) => answer := state.RecordBirth(b);
        case ClearAliases => state.ForgetAliases();
        case Death => state.RecordDeath();
        case NoteGap => answer := state.NoteGapAnomalyIfFirst();
      }
      sessions := sessions[key := state.Contents()];
      RunNext(run, Event.Work(key, op), sessions, answer);
      run := run.Then(Event.Work(key, op), sessions, answer);
    }

    /** The `n`-th call says true exactly when 1024 divides `n`. */
    method ShouldSweep() returns (sweep: bool)
      requires Valid()
      modifies this`publishesSinceSweep, this`calls
      ensures Valid() && calls == old(calls) + 1
      ensures sweep <==> calls % SWEEP_EVERY == 0
    {
      publishesSinceSweep := publishesSinceSweep + 1;
      calls := calls + 1;
      if publishesSinceSweep >= SWEEP_EVERY {
        publishesSinceSweep := 0;
        return true;
      }
      return false;
    }

    method EvictExpired(now: nat) returns (removed: nat)
      requires Valid()
      modifies this
      ensures Valid() && calls == old(calls) && run == old(run).Then(Expire(now), sessions, false)
      ensures removed == |old(sessions)| - |sessions|
    {
      hide Run.Valid;
      var before := |sessions|;
      sessions := Sweep(sessions, Touched, config.ttlUs, now);
      removed := before - |sessions|;
      RunNext(run, Expire(now), sessions, false);
      run := run.Then(Expire(now), sessions, false);
    }
  }

  // ======== Sweeping ========

  /** The documented rule (drop once `last_touched + ttl <= now`) is the implemented one, except that a
      TTL of zero also drops sessions touched in the future. */
  lemma SweepRule(m: Sessions, ttl: nat, now: nat, k: SessionKey)
    requires k in m
    ensures k !in Sweep(m, Touched, ttl, now) <==> m[k].lastTouched + ttl <= now || ttl == 0
  {
  }

  /** With a TTL of zero every session touched after `now` is dropped against the documented rule. */
  lemma ZeroTtlDropsFuture(k: SessionKey, now: nat, later: nat)
    requires now < later
    ensures var m := map[k := FRESH.(lastTouched := later)];
            !(m[k].lastTouched + 0 <= now) && k !in Sweep(m, Touched, 0, now)
  {
  }

  // ======== Whole runs ========

  lemma StepBounded(cfg: Config, pre: Sessions, ev: Event, post: Sessions, answer: bool)
    requires |pre| <= Bound(cfg.maxSessions) && Step(cfg, pre, ev, post, answer)
    ensures |post| <= Bound(cfg.maxSessions)
  {
    hide Do, Says, Oldest, MadeRoom, Bound;
    match ev
    case Fetch(key, now) =>
      var s := Do(Entry(pre, key), Touch(now));
      var mid: Sessions :| MadeRoom(pre, Touched, cfg.maxSessions, key, mid) && post == mid[key := s];
      StaysBounded(pre, Touched, cfg.maxSessions, key, mid, s);
    case Work(key, op) => assert post.Keys == pre.Keys;
    case Expire(_) =>
  }

  lemma {:induction false} StoreBounded(run: Run, t: nat)
    requires run.Valid() && t <= |run.events|
    ensures |run.tables[t]| <= Bound(run.cfg.maxSessions)
  {
    hide Step;
    if t > 0 {
      StoreBounded(run, t - 1);
      assert run.StepAt(t - 1);
      StepBounded(run.cfg, run.tables[t - 1], run.events[t - 1], run.tables[t], run.answers[t - 1]);
    }
  }

  /** What happened to session `key` among events `a` to `t`, and what its operations answered. */
  function History(events: seq<Event>, a: nat, t: nat, key: SessionKey): seq<Op>
    requires a <= t <= |events|
  {
    if a == t then []
    else History(events, a, t - 1, key) + if events[t - 1].On(key) then [events[t - 1].Op()] else []
  }

  function Said(run: Run, a: nat, t: nat, key: SessionKey): (said: seq<bool>)
    requires a <= t <= |run.events| == |run.answers|
    ensures |said| == |History(run.events, a, t, key)|
  {
    if a == t then []
    else Said(run, a, t - 1, key) + if run.events[t - 1].On(key) then [run.answers[t - 1]] else []
  }

  /** `key` was admitted by event `a` and has been in the store ever since, up to event `t`. */
  ghost predicate PresentSince(run: Run, a: nat, t: nat, key: SessionKey)
    requires run.Valid()
  {
    && a < t <= |run.events| && run.events[a].Fetch? && run.events[a].key == key && key !in run.tables[a]
    && forall u :: a < u <= t ==> key in run.tables[u]
  }

  /** Every resident session has an admission that its residence goes back to. */
  lemma {:induction false} AdmissionExists(run: Run, t: nat, key: SessionKey) returns (a: nat)
    requires run.Valid() && t <= |run.events| && key in run.tables[t]
    ensures PresentSince(run, a, t, key)
    decreases t
  {
    hide Do, Says, Sweep;
    assert t > 0 && run.StepAt(t - 1);
    if key in run.tables[t - 1] {
      a := AdmissionExists(run, t - 1, key);
    } else {
      a := t - 1;
      EntryAfter(run.cfg, run.tables[a], run.events[a], run.tables[t], run.answers[a], key);
    }
  }

  lemma EntryAfter(cfg: Config, pre: Sessions, ev: Event, post: Sessions, answer: bool, key: SessionKey)
    requires Step(cfg, pre, ev, post, answer) && key in post
    ensures if ev.On(key) then post[key] == Do(Entry(pre, key), ev.Op()) && answer == Says(Entry(pre, key), ev.Op())
            else key in pre && post[key] == pre[key]
  {
    hide Do;
    if ev.Fetch? {
      var s := Do(Entry(pre, ev.key), Touch(ev.now));
      var mid: Sessions :| MadeRoom(pre, Touched, cfg.maxSessions, ev.key, mid) && post == mid[ev.key := s];
      assert key != ev.key ==> key in mid && mid[key] == pre[key];
    }
  }

  /** `ops` played on a fresh session give `s` and the answers `said`. */
  ghost predicate Plays(ops: seq<Op>, said: seq<bool>, s: Session) {
    && |said| == |ops| && s == Before(ops, |ops|)
    && forall i :: 0 <= i < |ops| ==> said[i] == Says(Before(ops, i), ops[i])
  }

  lemma PlaysOn(ops: seq<Op>, said: seq<bool>, s: Session, op: Op)
    requires Plays(ops, said, s)
    ensures Plays(ops + [op], said + [Says(s, op)], Do(s, op))
  {
    hide Says, Do;
    forall i | 0 <= i <= |ops| ensures Before(ops + [op], i) == Before(ops, i) {
      BeforePrefix(ops, [op], i);
    }
  }

  /** Sessions do not disturb each other: as long as a session stays in the store, its state and every
      answer it gave are what its own operations since its admission make of a fresh one. */
  lemma {:induction false} SessionIsItsOwnHistory(run: Run, a: nat, t: nat, key: SessionKey)
    requires run.Valid() && PresentSince(run, a, t, key)
    ensures Plays(History(run.events, a, t, key), Said(run, a, t, key), run.tables[t][key])
    decreases t
  {
    hide Do, Says, Step, Plays;
    assert run.StepAt(t - 1);
    var ev := run.events[t - 1];
    EntryAfter(run.cfg, run.tables[t - 1], ev, run.tables[t], run.answers[t - 1], key);
    if t - 1 > a {
      SessionIsItsOwnHistory(run, a, t - 1, key);
    } else {
      NothingPlayed();
    }
    var ops, said, s := History(run.events, a, t - 1, key), Said(run, a, t - 1, key), Entry(run.tables[t - 1], key);
    assert Plays(ops, said, s);
    if ev.On(key) {
      PlaysOn(ops, said, s, ev.Op());
    } else {
      assert ops + [] == ops && said + [] == said;
    }
  }

  lemma NothingPlayed()
    ensures Plays([], [], FRESH)
  {
  }

  // ======== A resident session of a store run ========

  /** Operation `k` of the history was a birth, and was told that it supersedes. */
  predicate ToldSuperseding(ops: seq<Op>, said: seq<bool>, k: nat)
    requires k < |ops| == |said|
  { ops[k].Birth? && said[k] }

  lemma ToldIsSuperseding(ops: seq<Op>, said: seq<bool>, s: Session, k: nat)
    requires Plays(ops, said, s) && k < |ops|
    ensures ToldSuperseding(ops, said, k) <==> Superseding(ops, k)
    ensures ops[k].NoteGap? ==> (said[k] <==> Fires(ops, k))
  {
  }

  /** In every run of the store, a resident session answers a gap with the signal exactly when every
      earlier gap since its admission is separated from it by a birth that was told it supersedes. */
  lemma GapFiresOncePerStoreEpoch(run: Run, a: nat, t: nat, key: SessionKey, i: nat)
    requires run.Valid() && PresentSince(run, a, t, key)
    requires i < |History(run.events, a, t, key)| && History(run.events, a, t, key)[i].NoteGap?
    ensures var ops, said := History(run.events, a, t, key), Said(run, a, t, key);
            said[i] <==>
              forall g :: 0 <= g < i && ops[g].NoteGap? ==> exists k :: g < k < i && ToldSuperseding(ops, said, k)
  {
    hide History, Said, Superseding, Fires, Plays, ToldSuperseding;
    var ops, said := History(run.events, a, t, key), Said(run, a, t, key);
    SessionIsItsOwnHistory(run, a, t, key);
    forall k | 0 <= k < |ops|
      ensures ToldSuperseding(ops, said, k) <==> Superseding(ops, k)
      ensures ops[k].NoteGap? ==> (said[k] <==> Fires(ops, k))
    {
      ToldIsSuperseding(ops, said, run.tables[t][key], k);
    }
    GapFiresOncePerEpoch(ops, i);
  }

  /** In every run, the bdSeq of a resident session is the largest offered since its last birth without
      one, and a birth with a number is told that it supersedes exactly when none offered is above it. */
  lemma BdSeqInStore(run: Run, a: nat, t: nat, key: SessionKey, i: nat)
    requires run.Valid() && PresentSince(run, a, t, key) && i < |History(run.events, a, t, key)|
    ensures var ops, said := History(run.events, a, t, key), Said(run, a, t, key);
            && IsMax(run.tables[t][key].bdSeq, Offered(ops, |ops|))
            && (ops[i].Birth? && ops[i].bdSeq.Some? ==> (said[i] <==> NoneAbove(ops[i].bdSeq.value, Offered(ops, i))))
  {
    hide History, Said, Superseding, NoneAbove, IsMax, Offered;
    var ops, said := History(run.events, a, t, key), Said(run, a, t, key);
    SessionIsItsOwnHistory(run, a, t, key);
    BdSeqIsMax(ops, |ops|);
    ToldIsSuperseding(ops, said, run.tables[t][key], i);
    if ops[i].Birth? && ops[i].bdSeq.Some? {
      SupersedesIff(ops, i);
    }
  }

  /** In every run, the numbers of a resident session's births that were told they supersede never
      decrease, unless a birth without a number comes between. */
  lemma BdSeqNeverDecreasesInStore(run: Run, a: nat, t: nat, key: SessionKey, i: nat, j: nat)
    requires run.Valid() && PresentSince(run, a, t, key) && i < j < |History(run.events, a, t, key)|
    requires var ops, said := History(run.events, a, t, key), Said(run, a, t, key);
             && ToldSuperseding(ops, said, i) && ToldSuperseding(ops, said, j)
             && ops[i].bdSeq.Some? && ops[j].bdSeq.Some? && forall k :: i < k < j ==> ops[k] != Birth(None)
    ensures var ops := History(run.events, a, t, key); ops[i].bdSeq.value <= ops[j].bdSeq.value
  {
    hide History, Said, Superseding;
    var ops, said := History(run.events, a, t, key), Said(run, a, t, key);
    SessionIsItsOwnHistory(run, a, t, key);
    ToldIsSuperseding(ops, said, run.tables[t][key], i);
    ToldIsSuperseding(ops, said, run.tables[t][key], j);
    BdSeqNeverDecreases(ops, i, j);
  }

  /** In every run, an alias of a resident session resolves to a name exactly when it was bound to it
      since the admission and has not been rebound, cleared or ended since. */
  lemma AliasInStore(run: Run, a: nat, t: nat, key: SessionKey, alias: nat, name: string)
    requires run.Valid() && PresentSince(run, a, t, key)
    ensures var ops, aliases := History(run.events, a, t, key), run.tables[t][key].aliases;
            alias in aliases && aliases[alias] == name <==> BoundTo(ops, |ops|, alias, name)
  {
    hide History, Said, BoundTo;
    SessionIsItsOwnHistory(run, a, t, key);
    var ops := History(run.events, a, t, key);
    AliasIff(ops, |ops|, alias, name);
  }

  // ======== Eviction ========

  /** When a fetch makes room, the session that goes was touched no later than any that stays. */
  lemma VictimTouchedFirst(run: Run, t: nat, gone: SessionKey, kept: SessionKey)
    requires run.Valid() && t < |run.events| && run.events[t].Fetch?
    requires gone in run.tables[t] && gone !in run.tables[t + 1]
    requires kept in run.tables[t] && kept in run.tables[t + 1]
    ensures run.tables[t][gone].lastTouched <= run.tables[t][kept].lastTouched
  {
    hide Do;
    assert run.StepAt(t);
    var pre, ev, post := run.tables[t], run.events[t], run.tables[t + 1];
    var s := Do(Entry(pre, ev.key), Touch(ev.now));
    var mid: Sessions :| MadeRoom(pre, Touched, run.cfg.maxSessions, ev.key, mid) && post == mid[ev.key := s];
    var v :| Oldest(pre, Touched, v) && mid == pre - {v};
    assert gone == v;
  }

  lemma WorkKeepsTouch(s: Session, op: Op)
    requires !op.Touch?
    ensures Do(s, op).lastTouched == s.lastTouched
  {
  }

  /** The touch time a session is judged by is that of its latest fetch. */
  lemma {:induction false} TouchIsLatestFetch(run: Run, a: nat, t: nat, key: SessionKey) returns (u: nat)
    requires run.Valid() && PresentSince(run, a, t, key)
    ensures a <= u < t && run.events[u].Fetch? && run.events[u].key == key
    ensures forall j :: u < j < t ==> !(run.events[j].Fetch? && run.events[j].key == key)
    ensures run.tables[t][key].lastTouched == run.events[u].now
    decreases t
  {
    hide Fetched, Sweep;
    assert run.StepAt(t - 1);
    var ev := run.events[t - 1];
    EntryAfter(run.cfg, run.tables[t - 1], ev, run.tables[t], run.answers[t - 1], key);
    if ev.Fetch? && ev.key == key {
      u := t - 1;
    } else {
      u := TouchIsLatestFetch(run, a, t - 1, key);
      if ev.On(key) { WorkKeepsTouch(run.tables[t - 1][key], ev.op); }
    }
  }
}
