/** The table of outstanding reads, keyed by secure channel and request. */
module OpcUaPending {
  import opened Bytes
  import opened Eviction
  import opened OpcUaNodeId

  datatype PendingKey = PendingKey(channel: nat, request: nat)
  datatype PendingEntry = PendingEntry(nodes: seq<NodeId>, insertedUs: nat)
  datatype PendingConfig = PendingConfig(ttlUs: nat, maxPending: nat)
  type Table = map<PendingKey, PendingEntry>

  function Stamp(e: PendingEntry): nat { e.insertedUs }

  /** What an insertion may leave: the LRU victim is free among ties. */
  ghost predicate Inserted(cfg: PendingConfig, pre: Table, key: PendingKey, e: PendingEntry, post: Table) {
    exists mid: Table :: MadeRoom(pre, Stamp, cfg.maxPending, key, mid) && post == mid[key := e]
  }

  class PendingReads {
    var entries: Table
    const config: PendingConfig

    constructor (config: PendingConfig)
      ensures entries == map[] && this.config == config
    {
      entries := map[];
      this.config := config;
    }

    method Insert(key: PendingKey, nodes: seq<NodeId>, now: nat)
      modifies this
      ensures Inserted(config, old(entries), key, PendingEntry(nodes, now), entries)
    {
      if |entries| >= config.maxPending && key !in entries {
        entries := EvictOldest(entries, Stamp);
      }
      assert MadeRoom(old(entries), Stamp, config.maxPending, key, entries);
      entries := entries[key := PendingEntry(nodes, now)];
    }

    method Take(key: PendingKey) returns (nodes: Option<seq<NodeId>>)
      modifies this
      ensures entries == old(entries) - {key}
      ensures nodes == if key in old(entries) then Some(old(entries)[key].nodes) else None
    {
      nodes := if key in entries then Some(entries[key].nodes) else None;
      entries := entries - {key};
    }

    method EvictExpired(now: nat) returns (removed: nat)
      modifies this
      ensures entries == Sweep(old(entries), Stamp, config.ttlUs, now)
      ensures removed == |old(entries)| - |entries|
    {
      var before := |entries|;
      entries := Sweep(entries, Stamp, config.ttlUs, now);
      removed := before - |entries|;
    }
  }
}
