/** PCCC correlation: responses paired with pending read requests, over whole runs of raw PDUs. */
module Pccc {
  import opened Bytes
  import opened Bronze
  import opened PcccWire

  type Client = seq<byte>
  datatype Key = Key(client: Client, tns: nat)
  datatype Reading = Reading(id: nat, address: Address, value: PointValue)
  type Table = map<Key, Pending>
  datatype State = State(pending: Table, ids: nat)
  datatype Event = Event(bytes: seq<byte>, isRequest: bool, client: Client)

  // ======== Readings of one response ========

  function Count(p: Pending, body: seq<byte>): nat {
    var w := ValueWidth(p.start.fileType);
    if w == 0 then 0 else if p.quantity < |body| / w then p.quantity else |body| / w
  }

  lemma SliceFits(p: Pending, body: seq<byte>, n: nat)
    requires ValueWidth(p.start.fileType) > 0
    ensures var w := ValueWidth(p.start.fileType);
            && (n < |body| / w <==> w * n + w <= |body|)
            && w * (n + 1) == w * n + w
  {
    if ValueWidth(p.start.fileType) == 2 {
      assert n < |body| / 2 <==> 2 * n + 2 <= |body|;
    } else {
      assert n < |body| / 4 <==> 4 * n + 4 <= |body|;
    }
  }

  /** Reading `n` of a response: `n` elements after the start (in 16 bits), from the `n`-th slice of the body. */
  function ReadingAt(p: Pending, body: seq<byte>, ids: nat, n: nat): Reading
    requires n < Count(p, body)
  {
    SliceFits(p, body, n);
    var w := ValueWidth(p.start.fileType);
    Reading((ids + n + 1) % MOD64, p.start.(element := (p.start.element + n) % 0x1_0000),
            ValueOf(p.start.fileType, body[w * n..w * n + w]))
  }

  function Readings(p: Pending, body: seq<byte>, ids: nat): (out: seq<Reading>)
    ensures |out| == Count(p, body)
  {
    seq(Count(p, body), n requires 0 <= n < Count(p, body) => ReadingAt(p, body, ids, n))
  }

  // ======== One PDU ========

  datatype Action = Nothing | Ask(tns: nat, pending: Pending) | Answer(tns: nat, sts: byte, body: seq<byte>)

  function ActionOf(bytes: seq<byte>, isRequest: bool): Action {
    match PduOf(bytes)
    case None => Nothing
    case Some(p) =>
      if !isRequest then Answer(p.tns, p.sts, p.body)
      else if p.cmd != CMD_PROTECTED_TYPED_LOGICAL then Nothing
      else match ReadAsk(p.body)
        case None => Nothing
        case Some(ask) => Ask(p.tns, ask)
  }

  function Out(st: State, client: Client, a: Action): seq<Reading> {
    if a.Answer? && Key(client, a.tns) in st.pending && a.sts == 0
    then Readings(st.pending[Key(client, a.tns)], a.body, st.ids)
    else []
  }

  function Next(st: State, client: Client, a: Action): State {
    match a
    case Nothing => st
    case Ask(tns, p) => st.(pending := st.pending[Key(client, tns) := p])
    case Answer(tns, _, _) =>
      State(st.pending - {Key(client, tns)}, (st.ids + |Out(st, client, a)|) % MOD64)
  }

  class PcccDecoder {
    var pending: Table
    var eventIds: nat
    /** Every PDU so far. */
    ghost var events: seq<Event>

    ghost predicate Valid()
      reads this
    { Abstract() == After(events, |events|) && eventIds < MOD64 }

    ghost function Abstract(): State
      reads this
    { State(pending, eventIds) }

    constructor ()
      ensures Valid() && events == []
    {
      pending, eventIds, events := map[], 0, [];
    }

    /** One PDU: one more event of the run, answered by its readings. */
    method HandlePdu(bytes: seq<byte>, isRequest: bool, client: Client) returns (out: seq<Reading>)
      requires Valid()
      modifies this
      ensures Valid() && events == old(events) + [Event(bytes, isRequest, client)]
      ensures out == OutAt(events, |events| - 1)
    {
      hide ActionOf, Out, Next;
      out := Handle(bytes, isRequest, client);
      AfterPrefix(events, Event(bytes, isRequest, client), |events|);
      events := events + [Event(bytes, isRequest, client)];
    }

    method Handle(bytes: seq<byte>, isRequest: bool, client: Client) returns (out: seq<Reading>)
      requires eventIds < MOD64
      modifies this`pending, this`eventIds
      ensures out == Out(old(Abstract()), client, ActionOf(bytes, isRequest))
      ensures Abstract() == Next(old(Abstract()), client, ActionOf(bytes, isRequest))
      ensures eventIds < MOD64
    {
      hide PduOf, ReadAsk, Readings;
      out := [];
      var pdu := PduOf(bytes);
      if pdu.None? {
        return;
      }
      if isRequest && pdu.value.cmd == CMD_PROTECTED_TYPED_LOGICAL {
        HandleRequest(pdu.value, client);
        return;
      }
      if !isRequest {
        out := HandleResponse(pdu.value, client);
      }
    }

    method HandleRequest(pdu: Pdu, client: Client)
      modifies this`pending
      ensures eventIds == old(eventIds)
      ensures pending == match ReadAsk(pdu.body) case None => old(pending)
                         case Some(p) => old(pending)[Key(client, pdu.tns) := p]
    {
      var ask := ReadAsk(pdu.body);
      if ask.Some? {
        pending := pending[Key(client, pdu.tns) := ask.value];
      }
    }

    method HandleResponse(pdu: Pdu, client: Client) returns (out: seq<Reading>)
      requires eventIds < MOD64
      modifies this`pending, this`eventIds
      ensures var key := Key(client, pdu.tns);
              && out == (if key !in old(pending) || pdu.sts != 0 then []
                         else Readings(old(pending)[key], pdu.body, old(eventIds)))
              && pending == old(pending) - {key}
              && eventIds == (old(eventIds) + |out|) % MOD64
    {
      hide Readings, Count;
      out := [];
      var key := Key(client, pdu.tns);
      if key !in pending {
        assert pending - {key} == pending;
        return;
      }
      var p := pending[key];
      pending := pending - {key};
      if pdu.sts != 0 {
        return;
      }
      out := Collect(p, pdu.body);
    }

    /** The loop stops at the first value that does not fit; what it collects is `Readings`. */
    method Collect(p: Pending, body: seq<byte>) returns (out: seq<Reading>)
      requires eventIds < MOD64
      modifies this`eventIds
      ensures out == Readings(p, body, old(eventIds)) && eventIds == (old(eventIds) + |out|) % MOD64
    {
      hide Readings, Count, ValueOf, ValueWidth;
      out := [];
      var i, n := 0, 0;
      ghost var w, count := ValueWidth(p.start.fileType), Count(p, body);
      CountFits(p, body);
      while n < p.quantity
        invariant n <= count && i == w * n <= |body|
        invariant out == Readings(p, body, old(eventIds))[..n]
        invariant eventIds == (old(eventIds) + n) % MOD64
      {
        var got := DecodeValue(body, i, p.start.fileType);
        Collected(p, body, old(eventIds), n);
        IdsAdd(old(eventIds) + n, 1);
        if got.Short? {
          break;
        }
        eventIds := (eventIds + 1) % MOD64;
        out := out + [Reading(eventIds, p.start.(element := (p.start.element + n) % 0x1_0000), got.value)];
        i, n := got.next, n + 1;
      }
    }
  }

  lemma IdsAdd(a: nat, k: nat)
    ensures (a % MOD64 + k) % MOD64 == (a + k) % MOD64
  {
  }

  lemma CountFits(p: Pending, body: seq<byte>)
    ensures Count(p, body) <= p.quantity
  {
  }

  /** One round of the loop: a value is found at the `n`-th slice exactly when reading `n` exists. */
  lemma Collected(p: Pending, body: seq<byte>, ids: nat, n: nat)
    requires n < p.quantity && n <= Count(p, body)
    ensures var w, all := ValueWidth(p.start.fileType), Readings(p, body, ids);
            if w == 0 || w * n + w > |body| then n == |all| && all[..n] == all
            else && n < |all| && w * n + w == w * (n + 1)
                 && all[..n + 1] == all[..n] + [Reading((ids + n + 1) % MOD64,
                      p.start.(element := (p.start.element + n) % 0x1_0000),
                      ValueOf(p.start.fileType, body[w * n..w * n + w]))]
  {
    hide ValueOf;
    if ValueWidth(p.start.fileType) > 0 {
      SliceFits(p, body, n);
    }
  }

  // ======== Whole runs ========

  function ActionAt(ev: Event): Action { ActionOf(ev.bytes, ev.isRequest) }

  predicate Asks(ev: Event, key: Key) {
    ev.client == key.client && ActionAt(ev).Ask? && ActionAt(ev).tns == key.tns
  }

  predicate Answers(ev: Event, key: Key) {
    ev.client == key.client && ActionAt(ev).Answer? && ActionAt(ev).tns == key.tns
  }

  function After(events: seq<Event>, t: nat): State
    requires t <= |events|
  {
    if t == 0 then State(map[], 0) else Next(After(events, t - 1), events[t - 1].client, ActionAt(events[t - 1]))
  }

  lemma {:induction false} AfterPrefix(events: seq<Event>, ev: Event, t: nat)
    requires t <= |events|
    ensures After(events + [ev], t) == After(events, t)
  {
    hide Next, ActionAt;
    if t > 0 {
      AfterPrefix(events, ev, t - 1);
      assert (events + [ev])[t - 1] == events[t - 1];
    }
  }

  function OutAt(events: seq<Event>, t: nat): seq<Reading>
    requires t < |events|
  {
    Out(After(events, t), events[t].client, ActionAt(events[t]))
  }

  /** The latest read request on `key` before event `t`, if no response has consumed it. */
  function Source(events: seq<Event>, t: nat, key: Key): (src: Option<nat>)
    requires t <= |events|
    ensures src.Some? ==> src.value < t && Asks(events[src.value], key)
  {
    if t == 0 || Answers(events[t - 1], key) then None
    else if Asks(events[t - 1], key) then Some(t - 1)
    else Source(events, t - 1, key)
  }

  lemma {:induction false} SourceLatest(events: seq<Event>, t: nat, key: Key)
    requires t <= |events|
    ensures var src := Source(events, t, key);
            src.Some? ==> forall j :: src.value < j < t ==> !Asks(events[j], key) && !Answers(events[j], key)
  {
    hide Asks, Answers;
    if t > 0 && !Answers(events[t - 1], key) && !Asks(events[t - 1], key) {
      SourceLatest(events, t - 1, key);
    }
  }

  lemma {:induction false} SourceUnique(events: seq<Event>, t: nat, key: Key, i: nat)
    requires i < t <= |events| && Asks(events[i], key)
    requires forall j :: i < j < t ==> !Asks(events[j], key) && !Answers(events[j], key)
    ensures Source(events, t, key) == Some(i)
    decreases t
  {
    hide ActionAt;
    if i < t - 1 {
      assert !Asks(events[t - 1], key) && !Answers(events[t - 1], key);
      SourceUnique(events, t - 1, key, i);
    } else {
      assert !Answers(events[i], key);
    }
  }

  /** The table holds a key exactly when an unconsumed request on it exists, and then holds that request. */
  lemma {:induction false} TableIsSource(events: seq<Event>, t: nat, key: Key)
    requires t <= |events|
    ensures var table, src := After(events, t).pending, Source(events, t, key);
            && (key in table <==> src.Some?)
            && (key in table ==> table[key] == ActionAt(events[src.value]).pending)
  {
    hide ActionAt, Readings;
    if t > 0 {
      TableIsSource(events, t - 1, key);
    }
  }

  /** Over every run: a response yields the readings of the request it answers, or nothing when there is
      none or its status reports an error; every other PDU yields nothing. */
  lemma ResponseReadings(events: seq<Event>, t: nat)
    requires t < |events|
    ensures var a, out := ActionAt(events[t]), OutAt(events, t);
            if !a.Answer? then out == [] else
            var src := Source(events, t, Key(events[t].client, a.tns));
            if src.None? || a.sts != 0 then out == []
            else out == Readings(ActionAt(events[src.value]).pending, a.body, After(events, t).ids)
  {
    hide ActionAt, Readings, After, Source;
    var a := ActionAt(events[t]);
    if a.Answer? {
      TableIsSource(events, t, Key(events[t].client, a.tns));
    }
  }

  /** No request is answered twice. */
  lemma AnsweredOnce(events: seq<Event>, j: nat, k: nat, key: Key)
    requires j < k < |events| && Answers(events[j], key) && Answers(events[k], key)
    requires Source(events, j, key).Some?
    ensures Source(events, k, key) != Source(events, j, key)
  {
    hide Answers, Asks;
    SourceLatest(events, k, key);
  }

  function Emitted(events: seq<Event>, t: nat): nat
    requires t <= |events|
  {
    if t == 0 then 0 else Emitted(events, t - 1) + |OutAt(events, t - 1)|
  }

  lemma {:induction false} IdsCount(events: seq<Event>, t: nat)
    requires t <= |events|
    ensures After(events, t).ids == Emitted(events, t) % MOD64
  {
    hide ActionAt, Readings;
    if t > 0 {
      IdsCount(events, t - 1);
      var before, k := Emitted(events, t - 1), |OutAt(events, t - 1)|;
      IdsAdd(before, k);
    }
  }

  /** The readings of a run are numbered 1, 2, 3, ... in the order they are emitted, modulo 2^64. */
  lemma IdIsPosition(events: seq<Event>, t: nat, n: nat)
    requires t < |events| && n < |OutAt(events, t)|
    ensures OutAt(events, t)[n].id == (Emitted(events, t) + n + 1) % MOD64
  {
    hide ActionAt, After, Emitted;
    IdsCount(events, t);
    var e := Emitted(events, t);
    IdsAdd(e, n + 1);
  }

  // ======== What the readings of a response say ========

  /** The elements are consecutive exactly when the last one still fits in 16 bits. */
  lemma ConsecutiveIff(p: Pending, body: seq<byte>, ids: nat)
    requires p.start.element < 0x1_0000
    ensures (forall n :: 0 <= n < Count(p, body) ==> Readings(p, body, ids)[n].address.element == p.start.element + n)
            <==> p.start.element + Count(p, body) <= 0x1_0000 || Count(p, body) == 0
  {
    hide Count, ValueOf;
    var c, out := Count(p, body), Readings(p, body, ids);
    if c > 0 && p.start.element + c > 0x1_0000 {
      assert out[c - 1].address.element != p.start.element + (c - 1);
    }
  }

  /** A value that an element of this type can hold. */
  predicate Holds(fileType: byte, v: PointValue) {
    if fileType == FT_INTEGER then v.Int? && v.width == 2 && SignedRange(v.v, 2)
    else if fileType == FT_BIT then v.UInt? && v.width == 2 && v.n < 0x1_0000
    else fileType == FT_FLOAT && v.Float? && v.bits < 0x1_0000_0000
  }

  function ValueWire(fileType: byte, v: PointValue): (b: seq<byte>)
    requires Holds(fileType, v)
    ensures |b| == ValueWidth(fileType)
  {
    if v.Int? then LeBytes(FromSigned(v.v, 2), 2) else if v.UInt? then LeBytes(v.n, 2) else LeBytes(v.bits, 4)
  }

  lemma ValueRoundTrip(fileType: byte, v: PointValue)
    requires Holds(fileType, v)
    ensures ValueOf(fileType, ValueWire(fileType, v)) == v
  {
    Pow256Values();
    match v
    case Int(_, x) => LeRoundTrip(FromSigned(x, 2), 2);
    case UInt(_, n) => LeRoundTrip(n, 2);
    case Float(bits) => LeRoundTrip(bits, 4);
  }

  function ValuesWire(fileType: byte, vs: seq<PointValue>): (b: seq<byte>)
    requires forall v <- vs :: Holds(fileType, v)
  {
    if vs == [] then [] else ValuesWire(fileType, vs[..|vs| - 1]) + ValueWire(fileType, vs[|vs| - 1])
  }

  lemma {:induction false} ValuesSlice(fileType: byte, vs: seq<PointValue>, n: nat)
    requires (forall v <- vs :: Holds(fileType, v)) && n < |vs|
    ensures var b, w := ValuesWire(fileType, vs), ValueWidth(fileType);
            |b| == w * |vs| && w * n + w <= |b| && b[w * n..w * n + w] == ValueWire(fileType, vs[n])
  {
    hide Holds, ValueWire, ValuesWire;
    var w, last := ValueWidth(fileType), |vs| - 1;
    var front, one := ValuesWire(fileType, vs[..last]), ValueWire(fileType, vs[last]);
    ValuesLast(fileType, vs);
    ValuesSize(fileType, vs[..last]);
    Offsets(w, n, |vs|);
    if n < last {
      ValuesSlice(fileType, vs[..last], n);
    }
    SliceOfConcat(front, one, w * n, w);
  }

  lemma ValuesLast(fileType: byte, vs: seq<PointValue>)
    requires vs != [] && forall v <- vs :: Holds(fileType, v)
    ensures var last := |vs| - 1;
            ValuesWire(fileType, vs) == ValuesWire(fileType, vs[..last]) + ValueWire(fileType, vs[last])
  {
    hide Holds, ValueWire;
  }

  lemma {:induction false} ValuesSize(fileType: byte, vs: seq<PointValue>)
    requires forall v <- vs :: Holds(fileType, v)
    ensures |ValuesWire(fileType, vs)| == ValueWidth(fileType) * |vs|
  {
    hide Holds, ValueWire;
    if vs != [] {
      ValuesSize(fileType, vs[..|vs| - 1]);
      Offsets(ValueWidth(fileType), 0, |vs|);
    }
  }

  /** Value `n` of `k` values of `w` bytes ends no later than they do, and no later than the last begins unless it
      is the last. */
  lemma Offsets(w: nat, n: nat, k: nat)
    requires n < k && (w == 0 || w == 2 || w == 4)
    ensures 0 <= w * n && w * k == w * (k - 1) + w && w * n + w <= w * k && (n < k - 1 ==> w * n + w <= w * (k - 1))
  {
    if w == 0 { assert w * n == 0; } else if w == 2 { assert w * n == 2 * n; } else { assert w * n == 4 * n; }
  }

  /** A slice of a concatenation that lies in its front, or is its back. */
  lemma SliceOfConcat(a: seq<byte>, b: seq<byte>, p: nat, w: nat)
    requires p + w <= |a| || (p == |a| && w == |b|)
    ensures p + w <= |a + b| && (a + b)[p..p + w] == if p + w <= |a| then a[p..p + w] else b
  {
  }

  /** Writing `vs` as a response body to a request for that many elements and handling it gives back
      exactly `vs`, in order; a shorter or longer body gives as many whole values as fit. */
  lemma ResponseRoundTrip(p: Pending, vs: seq<PointValue>, rest: seq<byte>, ids: nat, n: nat)
    requires forall v <- vs :: Holds(p.start.fileType, v)
    requires p.quantity <= |vs| || |rest| < ValueWidth(p.start.fileType)
    requires n < |vs| && n < p.quantity
    ensures var out := Readings(p, ValuesWire(p.start.fileType, vs) + rest, ids);
            |out| == (if p.quantity < |vs| then p.quantity else |vs|) && out[n].value == vs[n]
  {
    hide Holds, ValueWire, ValuesWire, ValueOf;
    var t := p.start.fileType;
    var w, b := ValueWidth(t), ValuesWire(t, vs);
    WidthOf(t, vs[n]);
    ValuesSlice(t, vs, n);
    ValueRoundTrip(t, vs[n]);
    assert (b + rest)[w * n..w * n + w] == b[w * n..w * n + w];
    assert (b + rest)[w * n..w * n + w] == ValueWire(t, vs[n]);
    WholeValues(w, |vs|, |rest|);
  }

  lemma WidthOf(fileType: byte, v: PointValue)
    requires Holds(fileType, v)
    ensures ValueWidth(fileType) > 0
  {
  }

  lemma WholeValues(w: nat, k: nat, r: nat)
    requires w == 2 || w == 4
    ensures (w * k + r) / w >= k && (r < w ==> (w * k + r) / w == k)
  {
  }

  /** From raw bytes: a read request and the next response on its transaction number, from the same
      client, with status zero, yield the values of the response at the addresses of the request. */
  lemma CorrelatesFromBytes(events: seq<Event>, i: nat, j: nat, rq: Requestor, sts: byte, tns: nat, size: byte,
                            w: WireAddress, tail: seq<byte>, rs: Requestor, cmd: byte, body: seq<byte>)
    requires i < j < |events| && rq.Valid() && rs.Valid() && w.Valid() && tns < 0x1_0000
    requires var ask := Pdu(CMD_PROTECTED_TYPED_LOGICAL, sts, tns, AskBody(size, w) + tail);
             events[i] == Event(PduWire(rq, ask), true, events[i].client)
    requires events[j] == Event(PduWire(rs, Pdu(cmd, 0, tns, body)), false, events[i].client)
    requires var key := Key(events[i].client, tns);
             forall t :: i < t < j ==> !Asks(events[t], key) && !Answers(events[t], key)
    ensures OutAt(events, j) == Readings(Pending(Quantity(size, w.fileType), w.Meaning()), body, After(events, j).ids)
  {
    hide PduOf, PduWire, ReadAsk, AskBody, Quantity, Readings, After, Source, WireAddress.Meaning;
    PduForward(rq, Pdu(CMD_PROTECTED_TYPED_LOGICAL, sts, tns, AskBody(size, w) + tail));
    AskForward(size, w, tail);
    PduForward(rs, Pdu(cmd, 0, tns, body));
    SourceUnique(events, j, Key(events[i].client, tns), i);
    ResponseReadings(events, j);
  }
}
