/** Flows do not disturb each other's answers, and the answers to a flow settle. */
module FlowAnswers {
  import opened Bytes
  import opened Collections
  import opened Eviction
  import opened FlowTable

  // ======== One flow on its own ========

  /** What a flow's packets, taken alone, leave behind. */
  function Alone(cfg: Config, vs: seq<Verdict>): Option<View> {
    if vs == [] then None else Some(Judge(cfg, Alone(cfg, vs[..|vs| - 1]), vs[|vs| - 1]).0)
  }

  /** The answers to them. */
  function AnswersAlone(cfg: Config, vs: seq<Verdict>): (a: seq<Answer>)
    ensures |a| == |vs|
  {
    if vs == [] then []
    else AnswersAlone(cfg, vs[..|vs| - 1]) + [Judge(cfg, Alone(cfg, vs[..|vs| - 1]), vs[|vs| - 1]).1]
  }

  lemma AloneNext(cfg: Config, vs: seq<Verdict>, v: Verdict)
    ensures Alone(cfg, vs + [v]) == Some(Judge(cfg, Alone(cfg, vs), v).0)
    ensures AnswersAlone(cfg, vs + [v]) == AnswersAlone(cfg, vs) + [Judge(cfg, Alone(cfg, vs), v).1]
  {
    assert (vs + [v])[..|vs|] == vs;
  }

  // ======== Non-interference ========

  /** The packets of flow `k` among feeds `a` to `t`, and the answers they got. */
  function VerdictsOf(feeds: seq<Feed>, a: nat, t: nat, k: FlowKey): seq<Verdict>
    requires a <= t <= |feeds|
  {
    if a == t then []
    else VerdictsOf(feeds, a, t - 1, k) + if feeds[t - 1].key == k then [feeds[t - 1].verdict] else []
  }

  function AnswersOf(run: Run, a: nat, t: nat, k: FlowKey): seq<Answer>
    requires a <= t <= |run.feeds| && |run.answers| == |run.feeds|
  {
    if a == t then []
    else AnswersOf(run, a, t - 1, k) + if run.feeds[t - 1].key == k then [run.answers[t - 1]] else []
  }

  /** Flow `k` was admitted at feed `a` and has been resident ever since, up to feed `t`. */
  ghost predicate ResidentSince(run: Run, a: nat, t: nat, k: FlowKey)
    requires run.Valid()
  {
    && a < t <= |run.feeds| && run.feeds[a].key == k && k !in run.tables[a].flows
    && forall u :: a < u < t ==> k in run.tables[u].flows
  }

  lemma ViewAfter(run: Run, t: nat, k: FlowKey)
    requires run.Valid() && t < |run.feeds|
    ensures run.feeds[t].key == k ==>
              var (view, answer) := Judge(run.cfg, ViewOf(run.tables[t], k), run.feeds[t].verdict);
              ViewOf(run.tables[t + 1], k) == Some(view) && run.answers[t] == answer
    ensures run.feeds[t].key != k && k in run.tables[t + 1].flows ==>
              ViewOf(run.tables[t + 1], k) == ViewOf(run.tables[t], k)
  {
    hide Judge;
    assert run.StepAt(t);
    var pre, post, key := run.tables[t], run.tables[t + 1], run.feeds[t].key;
    var view := Judge(run.cfg, ViewOf(pre, key), run.feeds[t].verdict).0;
    var mid: map<FlowKey, FlowState> :|
      MadeRoom(pre.flows, LastSeen, run.cfg.maxFlows, key, mid) && post.flows == mid[key := FlowState(view, post.tick)];
  }

  /** While a flow stays resident, its state and its answers are those of its own packets alone. */
  lemma {:induction false} OwnPacketsOnly(run: Run, a: nat, t: nat, k: FlowKey)
    requires run.Valid() && ResidentSince(run, a, t, k)
    ensures AnswersOf(run, a, t, k) == AnswersAlone(run.cfg, VerdictsOf(run.feeds, a, t, k))
    ensures k in run.tables[t].flows ==> ViewOf(run.tables[t], k) == Alone(run.cfg, VerdictsOf(run.feeds, a, t, k))
    decreases t
  {
    hide Judge, Alone, AnswersAlone, Run.StepAt;
    var vs := VerdictsOf(run.feeds, a, t - 1, k);
    ViewAfter(run, t - 1, k);
    NothingAlone(run.cfg);
    if t - 1 > a {
      OwnPacketsOnly(run, a, t - 1, k);
      if run.feeds[t - 1].key == k {
        AloneNext(run.cfg, vs, run.feeds[t - 1].verdict);
      } else {
        assert VerdictsOf(run.feeds, a, t, k) == vs;
        assert AnswersOf(run, a, t, k) == AnswersOf(run, a, t - 1, k);
      }
    } else {
      AloneNext(run.cfg, [], run.feeds[a].verdict);
      assert [] + [run.feeds[a].verdict] == VerdictsOf(run.feeds, a, t, k);
    }
  }

  lemma NothingAlone(cfg: Config)
    ensures Alone(cfg, []) == None && AnswersAlone(cfg, []) == []
  {
  }

  /** A session that is fed one flow only never evicts it. */
  lemma {:induction false} SoloStaysResident(solo: Run, t: nat, k: FlowKey)
    requires solo.Valid() && (forall i :: 0 <= i < |solo.feeds| ==> solo.feeds[i].key == k) && 0 < t <= |solo.feeds|
    ensures k in solo.tables[t].flows
  {
    ViewAfter(solo, t - 1, k);
  }

  lemma {:induction false} SoloIsAll(solo: Run, t: nat, k: FlowKey)
    requires |solo.answers| == |solo.feeds| && t <= |solo.feeds|
    requires forall i :: 0 <= i < |solo.feeds| ==> solo.feeds[i].key == k
    ensures AnswersOf(solo, 0, t, k) == solo.answers[..t]
    ensures |VerdictsOf(solo.feeds, 0, t, k)| == t
    ensures forall i :: 0 <= i < t ==> VerdictsOf(solo.feeds, 0, t, k)[i] == solo.feeds[i].verdict
    decreases t
  {
    if t > 0 {
      SoloIsAll(solo, t - 1, k);
      assert solo.answers[..t] == solo.answers[..t - 1] + [solo.answers[t - 1]];
    }
  }

  /** Non-interference: while a flow stays resident, its answers are those of any fresh session of the
      same configuration that is fed only this flow's packets since its admission. */
  lemma NonInterference(run: Run, a: nat, t: nat, k: FlowKey, solo: Run)
    requires run.Valid() && ResidentSince(run, a, t, k)
    requires solo.Valid() && solo.cfg == run.cfg
    requires var vs := VerdictsOf(run.feeds, a, t, k);
             |solo.feeds| == |vs| && forall i :: 0 <= i < |vs| ==> solo.feeds[i] == Feed(k, vs[i])
    ensures AnswersOf(run, a, t, k) == solo.answers
  {
    var n := |solo.feeds|;
    OwnPacketsOnly(run, a, t, k);
    SoloIsAll(solo, n, k);
    assert VerdictsOf(solo.feeds, 0, n, k) == VerdictsOf(run.feeds, a, t, k);
    assert solo.answers[..n] == solo.answers;
    if n > 0 {
      forall u | 0 < u < n
        ensures k in solo.tables[u].flows
      {
        SoloStaysResident(solo, u, k);
      }
      OwnPacketsOnly(solo, 0, n, k);
    }
  }

  // ======== The shape of a flow's answers ========

  /** `n` times NeedMore, then one and the same other answer forever. */
  ghost predicate Settles(answers: seq<Answer>, n: nat, verdict: Answer) {
    && n <= |answers| && verdict != NeedMore
    && forall i :: 0 <= i < |answers| ==> answers[i] == if i < n then NeedMore else verdict
  }

  /** What the remembered view says about the answers so far. */
  ghost predicate Explains(cfg: Config, view: Option<View>, answers: seq<Answer>, n: nat, verdict: Answer) {
    && Settles(answers, n, verdict) && n <= Bound(cfg.maxAttempts)
    && (view.None? <==> answers == [])
    && (view.Some? && view.value.protocol.Some? ==> n < |answers| && verdict == Classified(view.value.protocol.value))
    && (view.Some? && view.value.protocol.None? && view.value.attempts >= cfg.maxAttempts ==> verdict == Unknown)
    && (view.Some? && view.value.protocol.None? && view.value.attempts < cfg.maxAttempts ==>
          n == |answers| == view.value.attempts)
  }

  /** Every sequence of packets of one flow settles: at most `max(1, max_classify_attempts)` times
      NeedMore, then one constant Classified or Unknown. */
  lemma {:induction false} AnswersSettle(cfg: Config, vs: seq<Verdict>) returns (n: nat, verdict: Answer)
    requires cfg.Valid()
    ensures Explains(cfg, Alone(cfg, vs), AnswersAlone(cfg, vs), n, verdict)
  {
    if vs == [] {
      n, verdict := 0, Unknown;
    } else {
      var m := |vs| - 1;
      n, verdict := AnswersSettle(cfg, vs[..m]);
      AloneNext(cfg, vs[..m], vs[m]);
      assert vs[..m] + [vs[m]] == vs;
      n, verdict := SettlesNext(cfg, Alone(cfg, vs[..m]), AnswersAlone(cfg, vs[..m]), vs[m], n, verdict);
    }
  }

  lemma SettlesNext(cfg: Config, view: Option<View>, answers: seq<Answer>, v: Verdict, n: nat, verdict: Answer)
    returns (n': nat, verdict': Answer)
    requires cfg.Valid() && Explains(cfg, view, answers, n, verdict)
    ensures var (view', a) := Judge(cfg, view, v);
            Explains(cfg, Some(view'), answers + [a], n', verdict')
  {
    var (view', a) := Judge(cfg, view, v);
    if view.Some? && (view.value.protocol.Some? || view.value.attempts >= cfg.maxAttempts) {
      n', verdict' := n, verdict;
    } else if a == NeedMore {
      n', verdict' := n + 1, Unknown;
    } else {
      n', verdict' := n, a;
    }
  }

  // ======== Exactly which answer ========

  /** The first packet that shows a protocol among the first `c`. */
  function FirstMatch(vs: seq<Verdict>, c: nat): (m: Option<nat>)
    ensures m.Some? ==> m.value < |vs| && m.value < c && vs[m.value].Match?
    ensures m.Some? ==> forall j :: 0 <= j < m.value ==> !vs[j].Match?
    ensures m.None? ==> forall j :: 0 <= j < |vs| && j < c ==> !vs[j].Match?
  {
    if vs == [] then None else
    var n := |vs| - 1;
    var m := FirstMatch(vs[..n], c);
    if m.Some? then m else if n < c && vs[n].Match? then Some(n) else None
  }

  /** The answer to packet `i` of a flow: the protocol of the first of its attempts that shows one, up
      to then undecided, and unknown once the attempts are used up. */
  function Expected(cfg: Config, vs: seq<Verdict>, i: nat): Answer
    requires i < |vs|
  {
    var m := FirstMatch(vs[..i + 1], Bound(cfg.maxAttempts));
    if m.Some? then Classified(vs[m.value].protocol)
    else if i >= Bound(cfg.maxAttempts) || (vs[i].NoMatch? && i + 1 >= cfg.maxAttempts) then Unknown
    else NeedMore
  }

  lemma {:induction false} ViewIs(cfg: Config, vs: seq<Verdict>)
    requires cfg.Valid() && vs != []
    ensures var m, view := FirstMatch(vs, Bound(cfg.maxAttempts)), Alone(cfg, vs);
            && view.Some?
            && (if m.Some? then view.value.protocol == Some(vs[m.value].protocol)
                else view.value.protocol.None? && view.value.attempts == Min(|vs|, Bound(cfg.maxAttempts)))
  {
    if |vs| > 1 {
      ViewIs(cfg, vs[..|vs| - 1]);
    } else {
      assert vs[..0] == [] && Alone(cfg, vs[..0]) == None;
    }
  }

  lemma LastAnswer(cfg: Config, vs: seq<Verdict>)
    requires cfg.Valid() && vs != []
    ensures var n := |vs| - 1;
            Judge(cfg, Alone(cfg, vs[..n]), vs[n]).1 == Expected(cfg, vs, n)
  {
    var n := |vs| - 1;
    assert vs[..n + 1] == vs;
    if n > 0 {
      ViewIs(cfg, vs[..n]);
    } else {
      assert Alone(cfg, vs[..n]) == None;
    }
  }

  lemma {:induction false} AnswersAre(cfg: Config, vs: seq<Verdict>, i: nat)
    requires cfg.Valid() && i < |vs|
    ensures AnswersAlone(cfg, vs)[i] == Expected(cfg, vs, i)
    decreases |vs|
  {
    hide Judge, Alone, FirstMatch;
    var n := |vs| - 1;
    if i < n {
      AnswersAre(cfg, vs[..n], i);
      assert vs[..n][..i + 1] == vs[..i + 1];
    } else {
      LastAnswer(cfg, vs);
    }
  }

  /** In every run, every answer to a resident flow is the expected one for its packets since admission. */
  lemma ResidentAnswersAre(run: Run, a: nat, t: nat, k: FlowKey, i: nat)
    requires run.Valid() && ResidentSince(run, a, t, k) && i < |AnswersOf(run, a, t, k)|
    ensures var vs := VerdictsOf(run.feeds, a, t, k);
            i < |vs| && AnswersOf(run, a, t, k)[i] == Expected(run.cfg, vs, i)
  {
    hide Expected;
    OwnPacketsOnly(run, a, t, k);
    AnswersAre(run.cfg, VerdictsOf(run.feeds, a, t, k), i);
  }

  /** Every resident flow has an admission that its residence goes back to. */
  lemma {:induction false} AdmissionExists(run: Run, t: nat, k: FlowKey) returns (a: nat)
    requires run.Valid() && t <= |run.feeds| && k in run.tables[t].flows
    ensures ResidentSince(run, a, t, k)
    decreases t
  {
    assert t > 0;
    if k in run.tables[t - 1].flows {
      a := AdmissionExists(run, t - 1, k);
    } else {
      a := t - 1;
      assert run.StepAt(a);
    }
  }

  /** So, in every run, the answers to a flow since its admission settle. */
  lemma ResidentAnswersSettle(run: Run, a: nat, t: nat, k: FlowKey) returns (n: nat, verdict: Answer)
    requires run.Valid() && ResidentSince(run, a, t, k)
    ensures Settles(AnswersOf(run, a, t, k), n, verdict) && n <= Bound(run.cfg.maxAttempts)
  {
    OwnPacketsOnly(run, a, t, k);
    n, verdict := AnswersSettle(run.cfg, VerdictsOf(run.feeds, a, t, k));
  }
}
