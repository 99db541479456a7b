/** The stateful decoder: raw message bodies in, readings out. */
module OpcUaDecoder {
  import opened Bytes
  import opened Eviction
  import opened OpcUaReader
  import opened OpcUaNodeId
  import opened OpcUaDataValue
  import opened OpcUaServices
  import opened OpcUaPending
  import opened OpcUaCorrelation

  // ======== One message body ========

  datatype Service = Other | ReadRequest(nodes: seq<NodeId>) | ReadResponse(results: seq<DataValue>)

  /** What a message body says; a body that cannot be decoded says nothing. */
  function ServiceOf(body: seq<byte>): Service {
    var t := ServiceTypeAt(body, 0);
    if t.Err? then Other
    else if t.value == READ_REQUEST_TYPE_ID then
      var q := RequestBodyAt(body, t.next);
      if q.Ok? then ReadRequest(q.value) else Other
    else if t.value == READ_RESPONSE_TYPE_ID then
      var q := ResponseBodyAt(body, t.next);
      if q.Ok? then Service.ReadResponse(q.value.results) else Other
    else Other
  }

  /** A Read service message: a namespace-0 numeric type identifier in any of its encodings, then a body. */
  datatype WireMessage =
    | RequestMessage(typeId: WireNodeId, request: WireRequest)
    | ResponseMessage(typeId: WireNodeId, response: WireResponse)
  {
    predicate Valid() {
      && typeId.Valid()
      && match this
         case RequestMessage(t, r) => t.Meaning() == NodeId(0, Numeric(READ_REQUEST_TYPE_ID)) && r.Valid()
         case ResponseMessage(t, r) => t.Meaning() == NodeId(0, Numeric(READ_RESPONSE_TYPE_ID)) && r.Valid()
    }
    function Encode(): seq<byte>
      requires Valid()
    { typeId.Encode() + if RequestMessage? then request.Encode() else response.Encode() }
    function Meaning(): Service
      requires Valid()
    {
      if RequestMessage? then ReadRequest(request.nodes.Meaning())
      else Service.ReadResponse(response.results.Meaning())
    }
  }

  /** Every valid message is understood, whatever bytes follow it. */
  lemma MessageForward(w: WireMessage, trailing: seq<byte>)
    requires w.Valid()
    ensures ServiceOf(w.Encode() + trailing) == w.Meaning()
  {
    hide At, NodeIdAt, RequestBodyAt, ResponseBodyAt, WireNodeId.Encode, WireNodeId.Meaning, WireRequest.Encode,
         WireResponse.Encode, WireRequest.Valid, WireResponse.Valid;
    var s := w.Encode() + trailing;
    var tail := if w.RequestMessage? then w.request.Encode() else w.response.Encode();
    AtAround([], w.Encode(), trailing);
    assert [] + w.Encode() + trailing == s;
    AtSplit(s, 0, w.typeId.Encode(), tail);
    NodeIdForward(s, 0, w.typeId);
    match w
    case RequestMessage(t, r) => RequestBodyForward(s, |t.Encode()|, r);
    case ResponseMessage(t, r) => ResponseBodyForward(s, |t.Encode()|, r);
  }

  /** Nothing else is: a body with an effect begins with a valid message of that meaning. */
  lemma MessageBackward(body: seq<byte>) returns (w: WireMessage)
    requires !ServiceOf(body).Other?
    ensures w.Valid() && w.Encode() <= body && w.Meaning() == ServiceOf(body)
  {
    hide NodeIdAt, RequestBodyAt, ResponseBodyAt, WireNodeId.Encode, WireNodeId.Meaning, WireRequest.Encode,
         WireResponse.Encode, WireRequest.Valid, WireResponse.Valid, WireResults.Meaning, WireReadItems.Meaning;
    var t := NodeIdBackward(body, 0);
    var q := |t.Encode()|;
    if ServiceOf(body).ReadRequest? {
      var r := RequestBodyBackward(body, q);
      w := RequestMessage(t, r);
      AtSplit(body, 0, t.Encode(), r.Encode());
    } else {
      var r := ResponseBodyBackward(body, q);
      w := ResponseMessage(t, r);
      AtSplit(body, 0, t.Encode(), r.Encode());
    }
  }

  // ======== The decoder ========

  datatype Input = Body(key: PendingKey, body: seq<byte>, now: nat) | ExpireAt(at: nat)

  function EventOf(input: Input): Event {
    match input
    case ExpireAt(at) => Expire(at)
    case Body(key, body, now) =>
      match ServiceOf(body)
      case Other => Ignored
      case ReadRequest(nodes) => Request(key, nodes, now)
      case ReadResponse(results) => Response(key, results, now)
  }

  function EventsOf(inputs: seq<Input>): (es: seq<Event>)
    ensures |es| == |inputs| && forall t :: 0 <= t < |es| ==> es[t] == EventOf(inputs[t])
  {
    seq(|inputs|, t requires 0 <= t < |inputs| => EventOf(inputs[t]))
  }

  lemma EventsNext(inputs: seq<Input>, input: Input)
    ensures EventsOf(inputs + [input]) == EventsOf(inputs) + [EventOf(input)]
  {
    hide EventOf;
  }

  /** From raw bytes over whole runs: an encoded ReadRequest and, with no message on its key between, an
      encoded ReadResponse on the same key, each followed by arbitrary bytes, yield exactly one reading
      per response value, in order; reading `i` carries the request's node `i`, or the placeholder
      (0, Numeric(i)) past the end of the list. Once the entry has been evicted there is no list. */
  lemma CorrelatesFromBytes(inputs: seq<Input>, run: Run, i: nat, j: nat, req: WireMessage, resp: WireMessage,
                            afterReq: seq<byte>, afterResp: seq<byte>)
    requires run.Valid() && run.events == EventsOf(inputs) && i < j < |inputs|
    requires req.Valid() && req.RequestMessage? && resp.Valid() && resp.ResponseMessage?
    requires inputs[i].Body? && inputs[i].body == req.Encode() + afterReq
    requires inputs[j].Body? && inputs[j].body == resp.Encode() + afterResp && inputs[j].key == inputs[i].key
    requires Undisturbed(run.events, i, j, inputs[i].key)
    ensures var kept := forall t :: i < t <= j ==> inputs[i].key in run.tables[t];
            var nodes := if kept then req.request.nodes.Meaning() else [];
            var values := resp.response.results.Meaning();
            && |run.outs[j]| == |values|
            && forall n :: 0 <= n < |values| ==>
                 run.outs[j][n] == Reading(if n < |nodes| then nodes[n] else NodeId(0, Numeric(n)),
                                           values[n].value, values[n].statusCode, values[n].sourceTs, inputs[j].now)
  {
    hide ServiceOf, WireMessage.Encode, WireReadItems.Meaning, WireResults.Meaning, WireRequest.Valid,
         WireResponse.Valid;
    MessageForward(req, afterReq);
    MessageForward(resp, afterResp);
    assert run.events[i] == EventOf(inputs[i]) && run.events[j] == EventOf(inputs[j]);
    NeverEvictedIff(run, i, j);
    Answered(run, i, j);
  }

  /** When the entry of an encoded request is sure to be kept, as far as the events tell. */
  lemma KeptFromBytes(inputs: seq<Input>, run: Run, i: nat, j: nat, req: WireMessage, afterReq: seq<byte>)
    requires run.Valid() && run.events == EventsOf(inputs) && i < j <= |inputs|
    requires req.Valid() && req.RequestMessage? && inputs[i].Body? && inputs[i].body == req.Encode() + afterReq
    requires run.events[i].Request? ==> Protected(run.cfg, run.events, i, j)
    ensures forall t :: i < t <= j ==> inputs[i].key in run.tables[t]
  {
    hide ServiceOf, WireMessage.Encode, WireReadItems.Meaning, WireRequest.Valid, Protected;
    MessageForward(req, afterReq);
    assert run.events[i] == EventOf(inputs[i]);
    forall t | i < t <= j ensures inputs[i].key in run.tables[t] {
      Survives(run, i, t, j);
    }
  }

  class OpcUaServiceDecoder {
    const pending: PendingReads
    /** Every call so far, and the run they make. */
    ghost var inputs: seq<Input>
    ghost var run: Run

    ghost predicate Valid()
      reads this, pending
    {
      && run.Valid() && run.cfg == pending.config && run.events == EventsOf(inputs)
      && run.tables[|run.events|] == pending.entries
    }

    constructor (config: PendingConfig)
      ensures Valid() && pending.config == config && inputs == [] && fresh(pending)
    {
      pending := new PendingReads(config);
      inputs, run := [], Run(config, [], [map[]], []);
    }

    /** One message body: one more event of the run, answered by its readings. */
    method HandleMsgBody(body: seq<byte>, key: PendingKey, now: nat) returns (out: seq<Reading>)
      requires Valid()
      modifies this, pending
      ensures Valid() && inputs == old(inputs) + [Body(key, body, now)]
      ensures run == old(run).Then(EventOf(Body(key, body, now)), pending.entries, out)
    {
      hide EventOf, EventsOf, Step, Run.Valid;
      out := Handle(body, key, now);
      ghost var ev := EventOf(Body(key, body, now));
      RunNext(run, ev, pending.entries, out);
      EventsNext(inputs, Body(key, body, now));
      inputs, run := inputs + [Body(key, body, now)], run.Then(ev, pending.entries, out);
    }

    method Handle(body: seq<byte>, key: PendingKey, now: nat) returns (out: seq<Reading>)
      modifies pending
      ensures Step(pending.config, old(pending.entries), EventOf(Body(key, body, now)), pending.entries, out)
    {
      hide ServiceTypeAt, RequestBodyAt, ResponseBodyAt, Inserted, Sweep;
      var r := new Reader(body);
      out := [];
      var typeId := ReadServiceTypeId(r);
      if typeId.Failure? { return; }
      if typeId.value == READ_REQUEST_TYPE_ID {
        var nodes := ParseReadRequestBody(r);
        if nodes.Success? { pending.Insert(key, nodes.value, now); }
      } else if typeId.value == READ_RESPONSE_TYPE_ID {
        var response := ParseReadResponseBody(r);
        if response.Failure? { return; }
        var taken := pending.Take(key);
        var nodes := if taken.Some? then taken.value else [];
        var results := response.value.results;
        for i := 0 to |results|
          invariant out == Paired(nodes, results, now)[..i]
        {
          out := out + [ReadingAt(nodes, results, now, i)];
        }
      }
    }

    method EvictExpired(now: nat) returns (removed: nat)
      requires Valid()
      modifies this, pending
      ensures Valid() && inputs == old(inputs) + [ExpireAt(now)]
      ensures run == old(run).Then(Expire(now), pending.entries, [])
      ensures removed == |old(pending.entries)| - |pending.entries|
    {
      hide EventsOf, Run.Valid;
      removed := pending.EvictExpired(now);
      RunNext(run, Expire(now), pending.entries, []);
      EventsNext(inputs, ExpireAt(now));
      inputs, run := inputs + [ExpireAt(now)], run.Then(Expire(now), pending.entries, []);
    }
  }
}
