/** The dissector registry: a port index in front of a free list, against a linear scan of the
    registrations. Each dissector's `can_parse` and `parse` are arbitrary functions. */
module Registry {
  import opened Bytes

  datatype PacketContext = PacketContext(srcMac: seq<byte>, dstMac: seq<byte>, srcIp: seq<byte>, dstIp: seq<byte>,
                                         srcPort: nat, dstPort: nat, vlanId: Option<nat>, timestamp: nat)

  datatype Dissector<!D> = Dissector(name: string, canParse: (seq<byte>, nat, nat) -> bool,
                                     parse: (seq<byte>, PacketContext) -> Option<D>)

  /** One call of `register` (no ports) or `register_with_ports`. */
  datatype Registration<!D> = Free(d: Dissector<D>) | Indexed(d: Dissector<D>, ports: seq<nat>)

  // ======== Searching a list of dissectors ========

  /** The first dissector of `ds` that passes `test`. */
  function FirstOf<D>(ds: seq<Dissector<D>>, test: Dissector<D> -> bool): (r: Option<Dissector<D>>)
    ensures r.None? <==> forall d :: d in ds ==> !test(d)
    ensures r.Some? ==> r.value in ds && test(r.value)
  {
    if ds == [] then None else if test(ds[0]) then Some(ds[0]) else FirstOf(ds[1..], test)
  }

  /** Its position. */
  function FirstIndex<D>(ds: seq<Dissector<D>>, test: Dissector<D> -> bool): (k: nat)
    requires FirstOf(ds, test).Some?
    ensures k < |ds| && FirstOf(ds, test) == Some(ds[k]) && forall j :: 0 <= j < k ==> !test(ds[j])
  {
    if test(ds[0]) then 0 else FirstIndex(ds[1..], test) + 1
  }

  function OrElse<T>(a: Option<T>, b: Option<T>): Option<T> {
    if a.Some? then a else b
  }

  lemma {:induction false} FirstOfConcat<D>(a: seq<Dissector<D>>, b: seq<Dissector<D>>, test: Dissector<D> -> bool)
    ensures FirstOf(a + b, test) == OrElse(FirstOf(a, test), FirstOf(b, test))
  {
    if a == [] {
      assert a + b == b;
    } else {
      assert (a + b)[1..] == a[1..] + b;
      FirstOfConcat(a[1..], b, test);
    }
  }

  // ======== The linear scan ========

  function FreeList<D>(h: seq<Registration<D>>): seq<Dissector<D>> {
    if h == [] then []
    else FreeList(h[..|h| - 1]) + if h[|h| - 1].Free? then [h[|h| - 1].d] else []
  }

  /** The dissectors registered for `port`, in registration order, each registration once. */
  function Listing<D>(h: seq<Registration<D>>, port: nat): seq<Dissector<D>> {
    if h == [] then []
    else Listing(h[..|h| - 1], port) + if h[|h| - 1].Indexed? && port in h[|h| - 1].ports then [h[|h| - 1].d] else []
  }

  /** Registrations listing `dst`, then those listing `src`, then the port-less ones. */
  function Scan<D>(h: seq<Registration<D>>, src: nat, dst: nat): seq<Dissector<D>> {
    Listing(h, dst) + (Listing(h, src) + FreeList(h))
  }

  /** With equal ports, scanning the port's registrations twice finds what scanning them once finds. */
  lemma ScanSkipsRepeatedPort<D>(h: seq<Registration<D>>, src: nat, dst: nat, test: Dissector<D> -> bool)
    ensures FirstOf(Scan(h, src, dst), test)
         == OrElse(FirstOf(Listing(h, dst), test),
                   OrElse(if src == dst then None else FirstOf(Listing(h, src), test), FirstOf(FreeList(h), test)))
  {
    FirstOfConcat(Listing(h, dst), Listing(h, src) + FreeList(h), test);
    FirstOfConcat(Listing(h, src), FreeList(h), test);
  }

  lemma {:induction false} ListingMember<D>(h: seq<Registration<D>>, port: nat, r: Registration<D>)
    requires r in h && r.Indexed? && port in r.ports
    ensures r.d in Listing(h, port)
  {
    if r != h[|h| - 1] { ListingMember(h[..|h| - 1], port, r); }
  }

  lemma {:induction false} FreeMember<D>(h: seq<Registration<D>>, r: Registration<D>)
    requires r in h && r.Free?
    ensures r.d in FreeList(h)
  {
    if r != h[|h| - 1] { FreeMember(h[..|h| - 1], r); }
  }

  lemma {:induction false} ScanMember<D>(h: seq<Registration<D>>, src: nat, dst: nat, d: Dissector<D>)
    requires d in Scan(h, src, dst)
    ensures exists r :: r in h && r.d == d && Reachable(r, src, dst)
  {
    var last := h[..|h| - 1];
    if d in Scan(last, src, dst) {
      ScanMember(last, src, dst, d);
      var r :| r in last && r.d == d && Reachable(r, src, dst);
      assert r in h;
    } else {
      var r := h[|h| - 1];
      assert r in h && r.d == d && Reachable(r, src, dst);
    }
  }

  function Accepts<D>(data: seq<byte>, src: nat, dst: nat): Dissector<D> -> bool {
    (d: Dissector<D>) => d.canParse(data, src, dst)
  }

  function Parses<D>(data: seq<byte>, ctx: PacketContext): Dissector<D> -> bool {
    (d: Dissector<D>) => d.canParse(data, ctx.srcPort, ctx.dstPort) && d.parse(data, ctx).Some?
  }

  function NameOf<D>(d: Option<Dissector<D>>): Option<string> {
    if d.Some? then Some(d.value.name) else None
  }

  /** A packet is classified exactly when some accepting dissector is either port-less or registered
      for one of the packet's ports. */
  lemma ClassifiedIff<D>(h: seq<Registration<D>>, data: seq<byte>, src: nat, dst: nat)
    ensures FirstOf(Scan(h, src, dst), Accepts(data, src, dst)).Some?
            <==> exists r :: r in h && r.d.canParse(data, src, dst) && Reachable(r, src, dst)
  {
    var found := FirstOf(Scan(h, src, dst), Accepts(data, src, dst));
    if found.Some? { ScanMember(h, src, dst, found.value); }
    forall r | r in h && r.d.canParse(data, src, dst) && Reachable(r, src, dst)
      ensures found.Some?
    {
      if r.Free? {
        FreeMember(h, r);
      } else if dst in r.ports {
        ListingMember(h, dst, r);
      } else {
        ListingMember(h, src, r);
      }
      assert r.d in Scan(h, src, dst) && Accepts<D>(data, src, dst)(r.d);
    }
  }

  predicate Reachable<D>(r: Registration<D>, src: nat, dst: nat) {
    r.Free? || src in r.ports || dst in r.ports
  }

  /** So the index loses nothing when indexed dissectors keep to their own ports. */
  lemma CompleteForPortBound<D>(h: seq<Registration<D>>, data: seq<byte>, src: nat, dst: nat)
    requires forall r :: r in h && r.d.canParse(data, src, dst) ==> Reachable(r, src, dst)
    ensures FirstOf(Scan(h, src, dst), Accepts(data, src, dst)).Some?
            <==> exists r :: r in h && r.d.canParse(data, src, dst)
  {
    ClassifiedIff(h, data, src, dst);
  }

  /** And it loses exactly the packets that only indexed dissectors accept, none of them on its ports. */
  lemma LostIff<D>(h: seq<Registration<D>>, data: seq<byte>, src: nat, dst: nat)
    ensures (exists r :: r in h && r.d.canParse(data, src, dst))
              && FirstOf(Scan(h, src, dst), Accepts(data, src, dst)).None?
            <==> (exists r :: r in h && r.d.canParse(data, src, dst))
                 && forall r :: r in h && r.d.canParse(data, src, dst) ==>
                      r.Indexed? && src !in r.ports && dst !in r.ports
  {
    ClassifiedIff(h, data, src, dst);
  }

  /** What the DNS dissector accepts: it is registered for port 53 only. */
  predicate DnsAccepts(data: seq<byte>, src: nat, dst: nat) {
    (src == 53 || dst == 53 || src == 5353 || dst == 5353) && |data| >= 12
  }

  /** A registry that holds the DNS dissector as the defaults do loses every multicast DNS packet that no
      other dissector accepts. */
  lemma MulticastDnsLost<D>(h: seq<Registration<D>>, dns: Dissector<D>, data: seq<byte>, src: nat, dst: nat)
    requires Indexed(dns, [53]) in h && dns.canParse(data, src, dst) == DnsAccepts(data, src, dst)
    requires (src == 5353 || dst == 5353) && src != 53 && dst != 53 && |data| >= 12
    requires forall r :: r in h && r.d.canParse(data, src, dst) ==> r == Indexed(dns, [53])
    ensures dns.canParse(data, src, dst) && FirstOf(Scan(h, src, dst), Accepts(data, src, dst)).None?
  {
    assert Indexed(dns, [53]) in h;
    LostIff(h, data, src, dst);
  }

  /** The seven message types of an OPC UA header: HEL, ACK, OPN, CLO, MSG, ERR and RHE. */
  const OPC_UA_TYPES: seq<seq<byte>> := [[72, 69, 76], [65, 67, 75], [79, 80, 78], [67, 76, 79], [77, 83, 71],
                                         [69, 82, 82], [82, 72, 69]]

  /** What the OPC UA dissector accepts: it is registered for port 4840 only. */
  predicate OpcUaAccepts(data: seq<byte>, src: nat, dst: nat) {
    (src == 4840 || dst == 4840 || src == 12001 || dst == 12001) && |data| >= 8 && data[..3] in OPC_UA_TYPES
  }

  /** The same for OPC UA on its alternative port. */
  lemma OpcUaAltPortLost<D>(h: seq<Registration<D>>, opc: Dissector<D>, data: seq<byte>, src: nat, dst: nat)
    requires Indexed(opc, [4840]) in h && opc.canParse(data, src, dst) == OpcUaAccepts(data, src, dst)
    requires (src == 12001 || dst == 12001) && src != 4840 && dst != 4840
    requires |data| >= 8 && data[..3] in OPC_UA_TYPES
    requires forall r :: r in h && r.d.canParse(data, src, dst) ==> r == Indexed(opc, [4840])
    ensures opc.canParse(data, src, dst) && FirstOf(Scan(h, src, dst), Accepts(data, src, dst)).None?
  {
    assert Indexed(opc, [4840]) in h;
    LostIff(h, data, src, dst);
  }

  /** What the MQTT dissector accepts: it is registered for port 1883 only. */
  predicate MqttAccepts(data: seq<byte>, src: nat, dst: nat) {
    (src == 1883 || src == 8883 || dst == 1883 || dst == 8883) && data != [] && 1 <= data[0] / 16
  }

  /** The same for MQTT on its port for secured connections. */
  lemma MqttTlsPortLost<D>(h: seq<Registration<D>>, mqtt: Dissector<D>, data: seq<byte>, src: nat, dst: nat)
    requires Indexed(mqtt, [1883]) in h && mqtt.canParse(data, src, dst) == MqttAccepts(data, src, dst)
    requires (src == 8883 || dst == 8883) && src != 1883 && dst != 1883 && data != [] && 1 <= data[0] / 16
    requires forall r :: r in h && r.d.canParse(data, src, dst) ==> r == Indexed(mqtt, [1883])
    ensures mqtt.canParse(data, src, dst) && FirstOf(Scan(h, src, dst), Accepts(data, src, dst)).None?
  {
    assert Indexed(mqtt, [1883]) in h;
    LostIff(h, data, src, dst);
  }

  /** What the BACnet dissector accepts, on any port for one of two first bytes: it is registered for 47808. */
  predicate BacnetAccepts(data: seq<byte>, src: nat, dst: nat) {
    || ((src == 47808 || dst == 47808) && |data| >= 6 && data[0] == 0x81)
    || (|data| >= 3 && data[0] == 0x01)
  }

  /** The same for BACnet on every port but its own. */
  lemma BacnetElsewhereLost<D>(h: seq<Registration<D>>, bacnet: Dissector<D>, data: seq<byte>, src: nat, dst: nat)
    requires Indexed(bacnet, [47808]) in h && bacnet.canParse(data, src, dst) == BacnetAccepts(data, src, dst)
    requires src != 47808 && dst != 47808 && |data| >= 3 && data[0] == 0x01
    requires forall r :: r in h && r.d.canParse(data, src, dst) ==> r == Indexed(bacnet, [47808])
    ensures bacnet.canParse(data, src, dst) && FirstOf(Scan(h, src, dst), Accepts(data, src, dst)).None?
  {
    assert Indexed(bacnet, [47808]) in h;
    LostIff(h, data, src, dst);
  }

  /** `dispatch` finds a parser only where `classify_name` finds a name, and never earlier in the scan. */
  lemma DispatchAfterClassify<D>(h: seq<Registration<D>>, data: seq<byte>, ctx: PacketContext)
    requires FirstOf(Scan(h, ctx.srcPort, ctx.dstPort), Parses(data, ctx)).Some?
    ensures var scan := Scan(h, ctx.srcPort, ctx.dstPort);
            var accepts := Accepts<D>(data, ctx.srcPort, ctx.dstPort);
            FirstOf(scan, accepts).Some? && FirstIndex(scan, accepts) <= FirstIndex(scan, Parses(data, ctx))
  {
    var scan := Scan(h, ctx.srcPort, ctx.dstPort);
    var accepts := Accepts<D>(data, ctx.srcPort, ctx.dstPort);
    var k := FirstIndex(scan, Parses(data, ctx));
    assert accepts(scan[k]);
  }

  // ======== The index ========

  function IndexedList<D>(h: seq<Registration<D>>): seq<Dissector<D>> {
    if h == [] then []
    else IndexedList(h[..|h| - 1]) + if h[|h| - 1].Indexed? then [h[|h| - 1].d] else []
  }

  function Slot(index: map<nat, seq<nat>>, port: nat): seq<nat> {
    if port in index then index[port] else []
  }

  /** `k` once for every occurrence of `port` in `ports`: a port listed twice is indexed twice. */
  function Copies(ports: seq<nat>, port: nat, k: nat): seq<nat> {
    if ports == [] then []
    else Copies(ports[..|ports| - 1], port, k) + if ports[|ports| - 1] == port then [k] else []
  }

  lemma {:induction false} CopiesAre(ports: seq<nat>, port: nat, k: nat)
    ensures port in ports <==> Copies(ports, port, k) != []
    ensures forall i :: 0 <= i < |Copies(ports, port, k)| ==> Copies(ports, port, k)[i] == k
  {
    if ports != [] {
      CopiesAre(ports[..|ports| - 1], port, k);
      assert ports == ports[..|ports| - 1] + [ports[|ports| - 1]];
    }
  }

  /** The slot of `port` after the registrations `h`. */
  function SlotAfter<D>(h: seq<Registration<D>>, port: nat): (slot: seq<nat>)
    ensures forall i :: 0 <= i < |slot| ==> slot[i] < |IndexedList(h)|
  {
    if h == [] then []
    else
      var init := h[..|h| - 1];
      if h[|h| - 1].Indexed? then
        CopiesAre(h[|h| - 1].ports, port, |IndexedList(init)|);
        SlotAfter(init, port) + Copies(h[|h| - 1].ports, port, |IndexedList(init)|)
      else SlotAfter(init, port)
  }

  ghost function Resolve<D>(slot: seq<nat>, indexed: seq<Dissector<D>>): (r: seq<Dissector<D>>)
    requires forall i :: 0 <= i < |slot| ==> slot[i] < |indexed|
    ensures |r| == |slot| && forall i :: 0 <= i < |r| ==> r[i] == indexed[slot[i]]
  {
    seq(|slot|, i requires 0 <= i < |slot| => indexed[slot[i]])
  }

  lemma RepeatsSearch<D>(ds: seq<Dissector<D>>, d: Dissector<D>, test: Dissector<D> -> bool)
    requires forall i :: 0 <= i < |ds| ==> ds[i] == d
    ensures FirstOf(ds, test) == FirstOf(if ds == [] then [] else [d], test)
  {
  }

  /** The index is as good as the scan: searching a port's slot finds what searching its registrations finds. */
  lemma {:induction false} SlotSearch<D>(h: seq<Registration<D>>, port: nat, test: Dissector<D> -> bool)
    ensures FirstOf(Resolve(SlotAfter(h, port), IndexedList(h)), test) == FirstOf(Listing(h, port), test)
  {
    hide FirstOf, OrElse, Copies;
    if h != [] {
      var init, last := h[..|h| - 1], h[|h| - 1];
      SlotSearch(init, port, test);
      var earlier := Resolve(SlotAfter(init, port), IndexedList(init));
      if last.Indexed? {
        CopiesAre(last.ports, port, |IndexedList(init)|);
        var copies := Resolve(Copies(last.ports, port, |IndexedList(init)|), IndexedList(h));
        assert Resolve(SlotAfter(h, port), IndexedList(h)) == earlier + copies;
        FirstOfConcat(earlier, copies, test);
        RepeatsSearch(copies, last.d, test);
        FirstOfConcat(Listing(init, port), if port in last.ports then [last.d] else [], test);
      } else {
        assert Resolve(SlotAfter(h, port), IndexedList(h)) == earlier;
        assert Listing(h, port) == Listing(init, port);
      }
    }
  }

  lemma CopiesNone(port: nat, k: nat)
    ensures Copies([], port, k) == []
  {
  }

  lemma CopiesNext(ports: seq<nat>, i: nat, port: nat, k: nat)
    requires i < |ports|
    ensures Copies(ports[..i + 1], port, k) == Copies(ports[..i], port, k) + if ports[i] == port then [k] else []
  {
    assert ports[..i + 1][..i] == ports[..i];
  }

  /** Pushes `k` onto the slot of every listed port. */
  method PushPorts(index: map<nat, seq<nat>>, ports: seq<nat>, k: nat) returns (post: map<nat, seq<nat>>)
    ensures forall port: nat :: Slot(post, port) == Slot(index, port) + Copies(ports, port, k)
  {
    hide Copies;
    post := index;
    forall port: nat { CopiesNone(port, k); }
    for i := 0 to |ports|
      invariant forall port: nat :: Slot(post, port) == Slot(index, port) + Copies(ports[..i], port, k)
    {
      ghost var before := post;
      post := post[ports[i] := Slot(post, ports[i]) + [k]];
      forall port: nat
        ensures Slot(post, port) == Slot(index, port) + Copies(ports[..i + 1], port, k)
      {
        CopiesNext(ports, i, port, k);
        assert Slot(before, port) == Slot(index, port) + Copies(ports[..i], port, k);
      }
    }
    assert ports[..|ports|] == ports;
  }

  class DissectorRegistry<!D> {
    var free: seq<Dissector<D>>
    var indexed: seq<Dissector<D>>
    var portIndex: map<nat, seq<nat>>
    ghost var history: seq<Registration<D>>

    ghost predicate Valid()
      reads this
    {
      && free == FreeList(history)
      && indexed == IndexedList(history)
      && forall port: nat :: Slot(portIndex, port) == SlotAfter(history, port)
    }

    constructor ()
      ensures Valid() && history == []
    {
      free, indexed, portIndex, history := [], [], map[], [];
    }

    method Register(d: Dissector<D>)
      requires Valid()
      modifies this
      ensures Valid() && history == old(history) + [Free(d)]
    {
      free := free + [d];
      history := history + [Free(d)];
      assert history[..|history| - 1] == old(history);
    }

    method RegisterWithPorts(d: Dissector<D>, ports: seq<nat>)
      requires Valid()
      modifies this
      ensures Valid() && history == old(history) + [Indexed(d, ports)]
    {
      portIndex := PushPorts(portIndex, ports, |indexed|);
      indexed := indexed + [d];
      history := history + [Indexed(d, ports)];
      assert history[..|history| - 1] == old(history);
    }

    /** The indexed dissectors of one port, in slot order. */
    method Probe(port: nat, test: Dissector<D> -> bool) returns (found: Option<Dissector<D>>)
      requires Valid()
      ensures found == FirstOf(Listing(history, port), test)
    {
      assert Slot(portIndex, port) == SlotAfter(history, port);
      SlotSearch(history, port, test);
      if port in portIndex {
        var slot := portIndex[port];
        ghost var ds := Resolve(slot, indexed);
        for i := 0 to |slot|
          invariant FirstOf(ds, test) == FirstOf(ds[i..], test)
        {
          if test(indexed[slot[i]]) { return Some(indexed[slot[i]]); }
        }
      }
      return None;
    }

    method ProbeFree(test: Dissector<D> -> bool) returns (found: Option<Dissector<D>>)
      requires Valid()
      ensures found == FirstOf(FreeList(history), test)
    {
      for i := 0 to |free|
        invariant FirstOf(free, test) == FirstOf(free[i..], test)
      {
        if test(free[i]) { return Some(free[i]); }
      }
      return None;
    }

    /** `dst` first, `src` only when it differs, then the free list. */
    method Search(src: nat, dst: nat, test: Dissector<D> -> bool) returns (found: Option<Dissector<D>>)
      requires Valid()
      ensures found == FirstOf(Scan(history, src, dst), test)
    {
      ScanSkipsRepeatedPort(history, src, dst, test);
      found := Probe(dst, test);
      if found.Some? { return; }
      if src != dst {
        found := Probe(src, test);
        if found.Some? { return; }
      }
      found := ProbeFree(test);
    }

    method ClassifyName(data: seq<byte>, src: nat, dst: nat) returns (name: Option<string>)
      requires Valid()
      ensures name == NameOf(FirstOf(Scan(history, src, dst), Accepts(data, src, dst)))
    {
      var found := Search(src, dst, Accepts(data, src, dst));
      name := NameOf(found);
    }

    method Dispatch(data: seq<byte>, ctx: PacketContext) returns (result: Option<D>)
      requires Valid()
      ensures var found := FirstOf(Scan(history, ctx.srcPort, ctx.dstPort), Parses(data, ctx));
              result == if found.Some? then found.value.parse(data, ctx) else None
    {
      var found := Search(ctx.srcPort, ctx.dstPort, Parses(data, ctx));
      result := if found.Some? then found.value.parse(data, ctx) else None;
    }
  }
}
