/** The streaming session: header stripping, the registry and the flow table together. */
module Session {
  import opened Bytes
  import opened Collections
  import opened Eviction
  import opened Recency
  import opened FlowTable
  import L4
  import Registry

  /** What one raw IP packet shows to a registry with these registrations. */
  function Inspect<D>(h: seq<Registry.Registration<D>>, pkt: seq<byte>): Verdict {
    var seg := L4.Extract(pkt);
    if seg.None? then Unparseable else
    var (src, dst) := (seg.value.srcPort, seg.value.dstPort);
    var accepts := Registry.Accepts<D>(seg.value.payload, src, dst);
    var name := Registry.NameOf(Registry.FirstOf(Registry.Scan(h, src, dst), accepts));
    if name.Some? then Match(name.value) else NoMatch
  }

  class DpiSession<!D> {
    const registry: Registry.DissectorRegistry<D>
    const config: Config
    var flows: map<FlowKey, FlowState>
    var tick: nat
    /** Every packet so far, its verdict and its answer. */
    ghost var run: Run

    ghost predicate Valid()
      reads this, registry
    {
      && registry.Valid() && config.Valid() && tick < TICK_LIMIT
      && run.Steps() && run.cfg == config && run.tables[|run.feeds|] == Contents()
    }

    ghost function Contents(): Table
      reads this
    { Table(flows, tick) }

    constructor (registry: Registry.DissectorRegistry<D>, config: Config)
      requires registry.Valid() && config.Valid()
      ensures Valid() && this.registry == registry && this.config == config && run.feeds == []
    {
      this.registry, this.config, flows, tick := registry, config, map[], 0;
      run := Run(config, [], [Table(map[], 0)], []);
    }

    /** As many as distinct flows were ever fed, up to the capacity. */
    method FlowCount() returns (n: nat)
      requires Valid()
      ensures run.Valid() ==> n == Min(Bound(config.maxFlows), |UsedIn(Uses(run.feeds), 0, |run.feeds|)|)
    {
      n := |flows|;
      if run.Valid() {
        TableTracks(run, |run.feeds|);
        assert |flows.Keys| == |flows|;
      }
    }

    /** Get-or-create, evicting the least recently fed flow when at capacity. */
    method TouchFlow(flow: FlowKey) returns (view: View)
      modifies this`flows
      ensures view == if flow in old(flows) then old(flows)[flow].view else View(0, None)
      ensures Stored(config, old(flows), flow, FlowState(view, tick), flows)
    {
      if flow !in flows && |flows| >= config.maxFlows {
        flows := EvictOldest(flows, LastSeen);
      }
      ghost var mid := flows;
      view := if flow in flows then flows[flow].view else View(0, None);
      flows := flows[flow := FlowState(view, tick)];
      assert MadeRoom(old(flows), LastSeen, config.maxFlows, flow, mid);
    }

    /** Header stripping and the registry walk: the packet's verdict. */
    method Inspected(pkt: seq<byte>) returns (verdict: Verdict)
      requires registry.Valid()
      ensures verdict == Inspect(registry.history, pkt)
    {
      hide L4.Extract, Registry.FirstOf, Registry.Scan;
      var seg := L4.ExtractL4Payload(pkt);
      if seg.None? {
        return Unparseable;
      }
      var name := registry.ClassifyName(seg.value.payload, seg.value.srcPort, seg.value.dstPort);
      return if name.Some? then Match(name.value) else NoMatch;
    }

    /** One packet: a step of the flow table with the packet's verdict. */
    method FeedPacket(flow: FlowKey, pkt: seq<byte>) returns (answer: Answer)
      requires Valid()
      modifies this
      ensures Valid()
      ensures run == old(run).Then(Feed(flow, Inspect(registry.history, pkt)), Contents(), answer)
    {
      hide Step, Inspect, Run.Steps;
      ghost var feed := Feed(flow, Inspect(registry.history, pkt));
      answer := Judged(flow, pkt);
      RunNext(run, feed, Contents(), answer);
      run := run.Then(feed, Contents(), answer);
    }

    method Judged(flow: FlowKey, pkt: seq<byte>) returns (answer: Answer)
      requires Valid()
      modifies this`flows, this`tick
      ensures tick < TICK_LIMIT
      ensures Step(config, old(Contents()), Feed(flow, Inspect(registry.history, pkt)), Contents(), answer)
    {
      hide Stored, Inspect;
      tick := (tick + 1) % TICK_LIMIT;
      ghost var before := flows;
      if flow in flows {
        flows := flows[flow := flows[flow].(lastSeen := tick)];
        var view := flows[flow].view;
        Restamped(config, before, flow, FlowState(view, tick));
        if view.protocol.Some? {
          return Classified(view.protocol.value);
        }
        if view.attempts >= config.maxAttempts {
          return Unknown;
        }
      }
      ghost var touched := flows;
      var verdict := Inspected(pkt);
      var view := TouchFlow(flow);
      if verdict.Match? {
        var s := FlowState(view.(protocol := Some(verdict.protocol)), tick);
        StoredAgain(config, before, touched, flow, FlowState(view, tick), flows, s);
        flows := flows[flow := s];
        return Classified(verdict.protocol);
      }
      var s := FlowState(view.(attempts := SaturatingInc(view.attempts)), tick);
      StoredAgain(config, before, touched, flow, FlowState(view, tick), flows, s);
      flows := flows[flow := s];
      return if verdict.NoMatch? && s.view.attempts >= config.maxAttempts then Unknown else NeedMore;
    }
  }

  lemma Restamped(cfg: Config, pre: map<FlowKey, FlowState>, flow: FlowKey, s: FlowState)
    requires flow in pre
    ensures Stored(cfg, pre, flow, s, pre[flow := s])
  {
    assert MadeRoom(pre, LastSeen, cfg.maxFlows, flow, pre);
  }

  /** Stamping a resident flow before it is stored changes nothing else about the result. */
  lemma StoredAgain(cfg: Config, pre: map<FlowKey, FlowState>, touched: map<FlowKey, FlowState>, flow: FlowKey,
                    s: FlowState, post: map<FlowKey, FlowState>, last: FlowState)
    requires if flow in pre then flow in touched && touched == pre[flow := touched[flow]] else touched == pre
    requires Stored(cfg, touched, flow, s, post)
    ensures Stored(cfg, pre, flow, last, post[flow := last])
  {
    var mid: map<FlowKey, FlowState> :| MadeRoom(touched, LastSeen, cfg.maxFlows, flow, mid) && post == mid[flow := s];
    if flow in pre {
      Restamped(cfg, pre, flow, last);
      assert post[flow := last] == pre[flow := last];
    } else {
      assert post[flow := last] == mid[flow := last];
    }
  }
}
