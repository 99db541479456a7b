/** DNS messages: questions, resource records and typed record data. Names are label sequences;
    joining labels with dots and formatting values as text are not modelled. */
module DnsMessage {
  import opened Bytes
  import opened Collections
  import opened DnsName

  type Labels = seq<seq<byte>>

  datatype Query = Query(name: Labels, qtype: nat, qclass: nat)

  /** A resource record and where its data lies in the message. */
  datatype Resource = Resource(name: Labels, rtype: nat, ttl: nat, at: nat, rdata: seq<byte>)

  datatype RecordData =
    | A(address: seq<byte>)
    | Aaaa(address: seq<byte>)
    | Ptr(name: Option<Labels>)
    | Txt(entries: seq<seq<byte>>)
    | Srv(target: Option<Labels>, port: nat, priority: nat, weight: nat)
    | Raw(rtype: nat, bytes: seq<byte>)

  datatype Fields = Fields(transactionId: nat, isResponse: bool, queries: seq<Query>, answers: seq<Resource>,
                           records: seq<(Labels, RecordData)>)

  function BeAt(data: seq<byte>, off: nat, k: nat): nat
    requires off + k <= |data|
  { BeValue(data[off..off + k]) }

  // ======== TXT data ========

  /** The length-prefixed strings of TXT data; those that are not UTF-8 are left out, and a length that
      overruns the data ends the list. */
  function TxtEntries(data: seq<byte>, off: nat): seq<seq<byte>>
    decreases |data| - off
  {
    if off >= |data| || off + 1 + data[off] > |data| then []
    else
      var one := data[off + 1..off + 1 + data[off]];
      (if Utf8(one) then [one] else []) + TxtEntries(data, off + 1 + data[off])
  }

  method ParseTxtRdata(data: seq<byte>) returns (entries: seq<seq<byte>>)
    ensures entries == TxtEntries(data, 0)
  {
    hide Utf8;
    entries := [];
    var offset: nat := 0;
    while offset < |data|
      invariant TxtEntries(data, 0) == entries + TxtEntries(data, offset)
      decreases |data| - offset
    {
      var len: nat := data[offset];
      if offset + 1 + len > |data| { break; }
      var one := data[offset + 1..offset + 1 + len];
      if Utf8(one) { entries := entries + [one]; }
      offset := offset + 1 + len;
    }
  }

  function TxtBytes(ss: seq<seq<byte>>): seq<byte>
    requires forall i :: 0 <= i < |ss| ==> |ss[i]| < 256
  { if ss == [] then [] else [|ss[0]|] + (ss[0] + TxtBytes(ss[1..])) }

  function KeepUtf8(ss: seq<seq<byte>>): seq<seq<byte>> {
    if ss == [] then [] else (if Utf8(ss[0]) then [ss[0]] else []) + KeepUtf8(ss[1..])
  }

  /** TXT data written as length-prefixed strings reads back as the strings that are UTF-8, in order. */
  lemma {:induction false} TxtRoundTrip(data: seq<byte>, off: nat, ss: seq<seq<byte>>)
    requires forall i :: 0 <= i < |ss| ==> |ss[i]| < 256
    requires At(data, off, TxtBytes(ss)) && off + |TxtBytes(ss)| == |data|
    ensures TxtEntries(data, off) == KeepUtf8(ss)
    decreases |ss|
  {
    hide Utf8, At;
    if ss != [] {
      var one, rest := ss[0], TxtBytes(ss[1..]);
      AtHead(data, off, |one|, one + rest);
      AtSplit(data, off + 1, one, rest);
      AtSlice(data, off + 1, one);
      TxtRoundTrip(data, off + 1 + |one|, ss[1..]);
    }
  }

  // ======== Typed record data ========

  function NameIn(data: seq<byte>, at: nat, len: nat): Option<Labels> {
    if len == 0 || NameAt(data, at).None? then None else Some(NameAt(data, at).value.labels)
  }

  function Typed(data: seq<byte>, r: Resource): RecordData {
    if r.rtype == 1 && |r.rdata| == 4 then A(r.rdata)
    else if r.rtype == 28 && |r.rdata| == 16 then Aaaa(r.rdata)
    else if r.rtype == 12 then Ptr(NameIn(data, r.at, |r.rdata|))
    else if r.rtype == 16 then Txt(TxtEntries(r.rdata, 0))
    else if r.rtype == 33 && |r.rdata| >= 6 then
      Srv(NameIn(data, r.at + 6, |r.rdata| - 6), BeAt(r.rdata, 4, 2), BeAt(r.rdata, 0, 2), BeAt(r.rdata, 2, 2))
    else Raw(r.rtype, r.rdata)
  }

  // ======== Decoding at an offset ========

  function QueryAt(data: seq<byte>, off: nat): (r: Option<(Query, nat)>)
    ensures r.Some? ==> off + 5 <= r.value.1 <= |data|
  {
    var name := NameAt(data, off);
    if name.None? then None else
    NameWithin(data, off);
    var q := name.value.next;
    if q + 4 > |data| then None
    else Some((Query(name.value.labels, BeAt(data, q, 2), BeAt(data, q + 2, 2)), q + 4))
  }

  function QueriesAt(data: seq<byte>, off: nat, n: nat): (r: Option<(seq<Query>, nat)>)
    ensures r.Some? && off <= |data| ==> |r.value.0| == n && off + 5 * n <= r.value.1 <= |data|
    decreases n
  {
    if n == 0 then Some(([], off)) else
    var q := QueryAt(data, off);
    if q.None? then None else
    QueriesBehind([q.value.0], QueriesAt(data, q.value.1, n - 1))
  }

  function ResourceAt(data: seq<byte>, off: nat): (r: Option<(Resource, nat)>)
    ensures r.Some? ==> off + 11 <= r.value.1 <= |data|
  {
    var name := NameAt(data, off);
    if name.None? then None else
    NameWithin(data, off);
    var q := name.value.next;
    if q + 10 > |data| then None else
    var len := BeAt(data, q + 8, 2);
    if q + 10 + len > |data| then None
    else Some((Resource(name.value.labels, BeAt(data, q, 2), BeAt(data, q + 4, 4), q + 10, data[q + 10..q + 10 + len]),
               q + 10 + len))
  }

  /** Up to `n` records; the first one that cannot be read ends the list without an error. */
  function ResourcesAt(data: seq<byte>, off: nat, n: nat): (r: seq<Resource>)
    ensures |r| <= n && (off <= |data| ==> off + 11 * |r| <= |data|)
    decreases n
  {
    if n == 0 || ResourceAt(data, off).None? then []
    else [ResourceAt(data, off).value.0] + ResourcesAt(data, ResourceAt(data, off).value.1, n - 1)
  }

  function TypedAll(data: seq<byte>, rs: seq<Resource>): (out: seq<(Labels, RecordData)>)
    ensures |out| == |rs|
  {
    seq(|rs|, i requires 0 <= i < |rs| => (rs[i].name, Typed(data, rs[i])))
  }

  function Message(data: seq<byte>): Option<Fields> {
    if |data| < 12 then None else
    var ancount := BeAt(data, 6, 2);
    var queries := QueriesAt(data, 12, BeAt(data, 4, 2));
    if queries.None? then None else
    var rs := ResourcesAt(data, queries.value.1, ancount + BeAt(data, 8, 2) + BeAt(data, 10, 2));
    Some(Fields(BeAt(data, 0, 2), data[2] >= 0x80, queries.value.0, rs[..Min(ancount, |rs|)], TypedAll(data, rs)))
  }

  /** Whatever counts the header claims, an accepted message is big enough for what was read from it:
      all its questions are there, and the answers are the first of its records. */
  lemma MessageBounds(data: seq<byte>)
    requires Message(data).Some?
    ensures var f := Message(data).value;
            && |f.queries| == BeAt(data, 4, 2)
            && |f.answers| == Min(BeAt(data, 6, 2), |f.records|)
            && |f.records| <= BeAt(data, 6, 2) + BeAt(data, 8, 2) + BeAt(data, 10, 2)
            && 12 + 5 * |f.queries| + 11 * |f.records| <= |data|
  {
    hide QueryAt, ResourceAt, BeAt, Typed;
  }

  // ======== The loops ========

  method Parse(data: seq<byte>) returns (r: Option<Fields>)
    ensures r == Message(data)
  {
    hide QueriesAt, ResourcesAt, TypedAll, BeAt;
    if |data| < 12 { return None; }
    var qdcount, ancount := BeAt(data, 4, 2), BeAt(data, 6, 2);
    var total := ancount + BeAt(data, 8, 2) + BeAt(data, 10, 2);
    var queries, offset := ParseQueries(data, qdcount);
    if queries.None? { return None; }
    var answers, records := ParseRecords(data, offset, ancount, total);
    return Some(Fields(BeAt(data, 0, 2), data[2] >= 0x80, queries.value, answers, records));
  }

  /** The loop over the records of all three sections. */
  method ParseRecords(data: seq<byte>, start: nat, ancount: nat, total: nat)
    returns (answers: seq<Resource>, records: seq<(Labels, RecordData)>)
    ensures var rs := ResourcesAt(data, start, total);
            answers == rs[..Min(ancount, |rs|)] && records == TypedAll(data, rs)
  {
    hide ResourceAt, ResourcesAt, Typed, TypedAll;
    ghost var rs: seq<Resource> := [];
    answers, records := [], [];
    var i, offset := 0, start;
    NoRecords(data, start, total);
    while i < total
      invariant 0 <= i <= total && |rs| == i
      invariant rs + ResourcesAt(data, offset, total - i) == ResourcesAt(data, start, total)
      invariant records == TypedAll(data, rs) && answers == rs[..Min(ancount, |rs|)]
    {
      NextRecord(data, rs, offset, total - i, ancount);
      var next := ResourceAt(data, offset);
      if next.None? { break; }
      var (one, after) := next.value;
      if i < ancount { answers := answers + [one]; }
      records := records + [(one.name, Typed(data, one))];
      rs := rs + [one];
      offset := after;
      i := i + 1;
    }
    NoRecords(data, offset, total - i);
    assert rs + [] == rs;
  }

  lemma NoRecords(data: seq<byte>, off: nat, n: nat)
    ensures [] + ResourcesAt(data, off, n) == ResourcesAt(data, off, n) && TypedAll(data, []) == []
    ensures n == 0 || ResourceAt(data, off).None? ==> ResourcesAt(data, off, n) == []
  {
    hide ResourceAt;
  }

  lemma NextRecord(data: seq<byte>, rs: seq<Resource>, off: nat, n: nat, ancount: nat)
    requires n > 0
    ensures ResourceAt(data, off).Some? ==>
              var (one, after) := ResourceAt(data, off).value;
              && rs + ResourcesAt(data, off, n) == (rs + [one]) + ResourcesAt(data, after, n - 1)
              && TypedAll(data, rs + [one]) == TypedAll(data, rs) + [(one.name, Typed(data, one))]
              && (rs + [one])[..Min(ancount, |rs| + 1)]
                 == rs[..Min(ancount, |rs|)] + if |rs| < ancount then [one] else []
  {
    hide ResourceAt, Typed;
    if ResourceAt(data, off).Some? {
      var (one, after) := ResourceAt(data, off).value;
      assert rs + ([one] + ResourcesAt(data, after, n - 1)) == (rs + [one]) + ResourcesAt(data, after, n - 1);
    }
  }

  function QueriesBehind(qs: seq<Query>, rest: Option<(seq<Query>, nat)>): (r: Option<(seq<Query>, nat)>)
    ensures qs == [] ==> r == rest
    ensures rest.Some? && rest.value.0 == [] ==> r == Some((qs, rest.value.1))
  {
    assert rest.Some? ==> [] + rest.value.0 == rest.value.0;
    assert qs + [] == qs;
    if rest.None? then None else Some((qs + rest.value.0, rest.value.1))
  }

  lemma QueriesBehindOne(qs: seq<Query>, q: Query, rest: Option<(seq<Query>, nat)>)
    ensures QueriesBehind(qs + [q], rest) == QueriesBehind(qs, QueriesBehind([q], rest))
  {
    if rest.Some? { assert qs + [q] + rest.value.0 == qs + ([q] + rest.value.0); }
  }

  method ParseQueries(data: seq<byte>, n: nat) returns (queries: Option<seq<Query>>, offset: nat)
    requires |data| >= 12
    ensures var spec := QueriesAt(data, 12, n);
            if spec.None? then queries.None? else queries == Some(spec.value.0) && offset == spec.value.1
  {
    hide QueryAt;
    offset := 12;
    var qs: seq<Query> := [];
    for i := 0 to n
      invariant QueriesAt(data, 12, n) == QueriesBehind(qs, QueriesAt(data, offset, n - i))
    {
      var next := QueryAt(data, offset);
      if next.Some? { QueriesBehindOne(qs, next.value.0, QueriesAt(data, next.value.1, n - i - 1)); }
      if next.None? { return None, offset; }
      qs, offset := qs + [next.value.0], next.value.1;
    }
    queries := Some(qs);
  }

  // ======== Messages as they are written ========

  /** A pointer to a name spelled elsewhere in the message, in `n` steps. */
  datatype Link = Link(target: nat, back: Labels, n: nat)

  /** A name: labels in place, then a terminator or a pointer. */
  datatype WireName = WireName(front: Labels, link: Option<Link>) {
    predicate Ok() {
      && AllUtf8(front) && (forall i :: 0 <= i < |front| ==> 0 < |front[i]| < 0xC0)
      && if link.None? then |front| <= MAX_HOPS
         else link.value.target < 0x4000 && AllUtf8(link.value.back) && |front| + 1 + link.value.n <= MAX_HOPS
    }
    /** The pointer leads to the name it stands for. */
    predicate Resolves(data: seq<byte>) {
      link.Some? ==> Derives(data, link.value.target, link.value.back, link.value.n)
    }
    function Bytes(): (e: seq<byte>)
      requires Ok()
      ensures |e| > 0
    {
      Written(front) + if link.None? then [0] else [0xC0 + link.value.target / 256, link.value.target % 256]
    }
    function Meaning(): Labels { if link.None? then front else front + link.value.back }
  }

  lemma NameForward(data: seq<byte>, off: nat, w: WireName)
    requires w.Ok() && w.Resolves(data) && At(data, off, w.Bytes())
    ensures NameAt(data, off) == Some(Name(w.Meaning(), off + |w.Bytes()|))
    ensures NameIn(data, off, |w.Bytes()|) == Some(w.Meaning())
  {
    hide At, NameAt, Derives;
    if w.link.None? {
      WrittenName(data, off, w.front);
    } else {
      CompressedName(data, off, w.front, w.link.value.target, w.link.value.back, w.link.value.n);
    }
  }

  datatype WireQuery = WireQuery(name: WireName, qtype: nat, qclass: nat) {
    predicate Ok() { name.Ok() && qtype < Pow256(2) && qclass < Pow256(2) }
    function Encode(): seq<byte>
      requires Ok()
    { name.Bytes() + (BeBytes(qtype, 2) + BeBytes(qclass, 2)) }
    function Meaning(): Query { Query(name.Meaning(), qtype, qclass) }
  }

  datatype WireResource = WireResource(name: WireName, rtype: nat, rclass: nat, ttl: nat, rdata: seq<byte>) {
    predicate Ok() {
      name.Ok() && rtype < Pow256(2) && rclass < Pow256(2) && ttl < Pow256(4) && |rdata| < Pow256(2)
    }
    function Encode(): seq<byte>
      requires Ok()
    {
      name.Bytes()
      + (BeBytes(rtype, 2) + (BeBytes(rclass, 2) + (BeBytes(ttl, 4) + (BeBytes(|rdata|, 2) + rdata))))
    }
    /** `r` is what was written, found in `data` at the place it says. */
    predicate Read(data: seq<byte>, r: Resource) {
      r.name == name.Meaning() && r.rtype == rtype && r.ttl == ttl && r.rdata == rdata && At(data, r.at, rdata)
    }
  }

  lemma BeForward(data: seq<byte>, off: nat, n: nat, k: nat)
    requires n < Pow256(k) && At(data, off, BeBytes(n, k))
    ensures off + k <= |data| && BeAt(data, off, k) == n
  {
    BeRoundTrip(n, k);
  }

  lemma QueryForward(data: seq<byte>, off: nat, q: WireQuery)
    requires q.Ok() && q.name.Resolves(data) && At(data, off, q.Encode())
    ensures QueryAt(data, off) == Some((q.Meaning(), off + |q.Encode()|))
  {
    hide At, NameAt, BeBytes, BeAt, WireName.Bytes, WireName.Ok, WireName.Resolves, WireName.Meaning;
    var a, b := BeBytes(q.qtype, 2), BeBytes(q.qclass, 2);
    var p := off + |q.name.Bytes()|;
    AtSplit(data, off, q.name.Bytes(), a + b);
    AtSplit(data, p, a, b);
    NameForward(data, off, q.name);
    BeForward(data, p, q.qtype, 2);
    BeForward(data, p + 2, q.qclass, 2);
  }

  lemma ResourceForward(data: seq<byte>, off: nat, w: WireResource)
    requires w.Ok() && w.name.Resolves(data) && At(data, off, w.Encode())
    ensures ResourceAt(data, off).Some? && w.Read(data, ResourceAt(data, off).value.0)
    ensures ResourceAt(data, off).value.1 == off + |w.Encode()|
  {
    hide At, NameAt, BeBytes, BeAt, WireName.Bytes, WireName.Ok, WireName.Resolves, WireName.Meaning;
    var p := off + |w.name.Bytes()|;
    var t, c, l, n := BeBytes(w.rtype, 2), BeBytes(w.rclass, 2), BeBytes(w.ttl, 4), BeBytes(|w.rdata|, 2);
    AtSplit(data, off, w.name.Bytes(), t + (c + (l + (n + w.rdata))));
    AtSplit(data, p, t, c + (l + (n + w.rdata)));
    AtSplit(data, p + 2, c, l + (n + w.rdata));
    AtSplit(data, p + 4, l, n + w.rdata);
    AtSplit(data, p + 8, n, w.rdata);
    NameForward(data, off, w.name);
    BeForward(data, p, w.rtype, 2);
    BeForward(data, p + 4, w.ttl, 4);
    BeForward(data, p + 8, |w.rdata|, 2);
    AtSlice(data, p + 10, w.rdata);
  }

  function QueriesBytes(qs: seq<WireQuery>): seq<byte>
    requires forall i :: 0 <= i < |qs| ==> qs[i].Ok()
  { if qs == [] then [] else qs[0].Encode() + QueriesBytes(qs[1..]) }

  function Asked(qs: seq<WireQuery>): (r: seq<Query>)
    ensures |r| == |qs|
  { seq(|qs|, i requires 0 <= i < |qs| => qs[i].Meaning()) }

  function ResourcesBytes(ws: seq<WireResource>): seq<byte>
    requires forall i :: 0 <= i < |ws| ==> ws[i].Ok()
  { if ws == [] then [] else ws[0].Encode() + ResourcesBytes(ws[1..]) }

  lemma {:induction false} QueriesForward(data: seq<byte>, off: nat, qs: seq<WireQuery>)
    requires forall i :: 0 <= i < |qs| ==> qs[i].Ok() && qs[i].name.Resolves(data)
    requires At(data, off, QueriesBytes(qs))
    ensures QueriesAt(data, off, |qs|) == Some((Asked(qs), off + |QueriesBytes(qs)|))
    decreases |qs|
  {
    hide At, QueryAt, WireQuery.Encode, WireQuery.Ok, WireName.Resolves;
    if qs != [] {
      AtSplit(data, off, qs[0].Encode(), QueriesBytes(qs[1..]));
      QueryForward(data, off, qs[0]);
      QueriesForward(data, off + |qs[0].Encode()|, qs[1..]);
      assert Asked(qs) == [qs[0].Meaning()] + Asked(qs[1..]);
    }
  }

  lemma {:induction false} ResourcesForward(data: seq<byte>, off: nat, ws: seq<WireResource>)
    requires forall i :: 0 <= i < |ws| ==> ws[i].Ok() && ws[i].name.Resolves(data)
    requires At(data, off, ResourcesBytes(ws))
    ensures |ResourcesAt(data, off, |ws|)| == |ws|
    ensures forall i :: 0 <= i < |ws| ==> ws[i].Read(data, ResourcesAt(data, off, |ws|)[i])
    decreases |ws|
  {
    hide At, ResourceAt, WireResource.Encode, WireResource.Ok, WireResource.Read, WireName.Resolves;
    if ws != [] {
      AtSplit(data, off, ws[0].Encode(), ResourcesBytes(ws[1..]));
      ResourceForward(data, off, ws[0]);
      var next := off + |ws[0].Encode()|;
      ResourcesForward(data, next, ws[1..]);
      var r := ResourcesAt(data, off, |ws|);
      assert r == [ResourceAt(data, off).value.0] + ResourcesAt(data, next, |ws| - 1);
      forall i | 0 <= i < |ws|
        ensures ws[i].Read(data, r[i])
      {
        if i > 0 { assert ws[i] == ws[1..][i - 1] && r[i] == ResourcesAt(data, next, |ws| - 1)[i - 1]; }
      }
    }
  }

  datatype WireMessage = WireMessage(id: nat, flags: nat, queries: seq<WireQuery>, answers: seq<WireResource>,
                                     authority: seq<WireResource>, additional: seq<WireResource>)
  {
    predicate Ok() {
      && id < Pow256(2) && flags < Pow256(2) && |queries| < Pow256(2)
      && |answers| < Pow256(2) && |authority| < Pow256(2) && |additional| < Pow256(2)
      && (forall i :: 0 <= i < |queries| ==> queries[i].Ok())
      && forall i :: 0 <= i < |Resources()| ==> Resources()[i].Ok()
    }
    /** Every name that ends in a pointer is spelled where the pointer leads. */
    predicate Resolves(data: seq<byte>) {
      && (forall i :: 0 <= i < |queries| ==> queries[i].name.Resolves(data))
      && forall i :: 0 <= i < |Resources()| ==> Resources()[i].name.Resolves(data)
    }
    function Resources(): seq<WireResource> { answers + authority + additional }
    function Header(): (e: seq<byte>)
      ensures |e| == 12
    {
      BeBytes(id, 2) + (BeBytes(flags, 2) + (BeBytes(|queries|, 2)
      + (BeBytes(|answers|, 2) + (BeBytes(|authority|, 2) + BeBytes(|additional|, 2)))))
    }
    function Encode(): seq<byte>
      requires Ok()
    { Header() + (QueriesBytes(queries) + ResourcesBytes(Resources())) }
  }

  lemma HeaderForward(data: seq<byte>, w: WireMessage)
    requires w.Ok() && At(data, 0, w.Header())
    ensures |data| >= 12 && BeAt(data, 0, 2) == w.id && BeAt(data, 2, 2) == w.flags
    ensures BeAt(data, 4, 2) == |w.queries| && BeAt(data, 6, 2) == |w.answers|
    ensures BeAt(data, 8, 2) == |w.authority| && BeAt(data, 10, 2) == |w.additional|
  {
    hide At, BeBytes, BeAt;
    var a, b, c := BeBytes(w.id, 2), BeBytes(w.flags, 2), BeBytes(|w.queries|, 2);
    var d, e, f := BeBytes(|w.answers|, 2), BeBytes(|w.authority|, 2), BeBytes(|w.additional|, 2);
    AtSplit(data, 0, a, b + (c + (d + (e + f))));
    AtSplit(data, 2, b, c + (d + (e + f)));
    AtSplit(data, 4, c, d + (e + f));
    AtSplit(data, 6, d, e + f);
    AtSplit(data, 8, e, f);
    BeForward(data, 0, w.id, 2);
    BeForward(data, 2, w.flags, 2);
    BeForward(data, 4, |w.queries|, 2);
    BeForward(data, 6, |w.answers|, 2);
    BeForward(data, 8, |w.authority|, 2);
    BeForward(data, 10, |w.additional|, 2);
  }

  lemma TopBit(data: seq<byte>)
    requires |data| >= 4
    ensures data[2] >= 0x80 <==> BeAt(data, 2, 2) >= 0x8000
  {
    assert data[2..4] == [data[2], data[3]] && [data[2], data[3]][..1] == [data[2]];
    assert BeValue([data[2]]) == data[2] by { assert [data[2]][..0] == []; }
  }

  /** Where the questions and the records of a written message are found. */
  lemma MessageRecords(w: WireMessage, trailing: seq<byte>)
    requires w.Ok() && w.Resolves(w.Encode() + trailing)
    ensures var data := w.Encode() + trailing;
            var rs := ResourcesAt(data, 12 + |QueriesBytes(w.queries)|, |w.Resources()|);
            && |rs| == |w.Resources()| && (forall i :: 0 <= i < |rs| ==> w.Resources()[i].Read(data, rs[i]))
            && Message(data) ==
               Some(Fields(w.id, w.flags >= 0x8000, Asked(w.queries), rs[..|w.answers|], TypedAll(data, rs)))
  {
    hide At, BeAt, WireMessage.Header, WireQuery.Ok, WireResource.Ok, WireResource.Read, WireName.Resolves, TypedAll,
         QueryAt, ResourceAt, QueriesBytes, ResourcesBytes, Asked;
    var data := w.Encode() + trailing;
    var q, r := QueriesBytes(w.queries), ResourcesBytes(w.Resources());
    AtAround([], w.Encode(), trailing);
    assert [] + w.Encode() + trailing == data;
    AtSplit(data, 0, w.Header(), q + r);
    AtSplit(data, 12, q, r);
    HeaderForward(data, w);
    TopBit(data);
    QueriesForward(data, 12, w.queries);
    ResourcesForward(data, 12 + |q|, w.Resources());
  }

  /** Round trip of a whole message, its names in full or compressed: every question and every record of
      the three sections comes back in order, the answer section apart. */
  lemma MessageRoundTrip(w: WireMessage, trailing: seq<byte>)
    requires w.Ok() && w.Resolves(w.Encode() + trailing)
    ensures var m := Message(w.Encode() + trailing);
            && m.Some? && m.value.transactionId == w.id && (m.value.isResponse <==> w.flags >= 0x8000)
            && |m.value.queries| == |w.queries|
            && (forall i :: 0 <= i < |w.queries| ==> m.value.queries[i] == w.queries[i].Meaning())
            && |m.value.answers| == |w.answers|
            && (forall i :: 0 <= i < |w.answers| ==> w.answers[i].Read(w.Encode() + trailing, m.value.answers[i]))
            && |m.value.records| == |w.Resources()|
            && forall i :: 0 <= i < |w.Resources()| ==> m.value.records[i].0 == w.Resources()[i].name.Meaning()
  {
    hide At, WireMessage.Encode, WireMessage.Ok, WireMessage.Resolves, ResourcesAt, Message, QueriesBytes, Typed;
    MessageRecords(w, trailing);
    assert forall i :: 0 <= i < |w.answers| ==> w.Resources()[i] == w.answers[i];
  }

  // ======== Record data as it is written ========

  datatype WireData =
    | AddressV4(address: seq<byte>)
    | AddressV6(address: seq<byte>)
    | Pointer(name: WireName)
    | Text(entries: seq<seq<byte>>)
    | Service(priority: nat, weight: nat, port: nat, target: WireName)
    | Opaque(rtype: nat, bytes: seq<byte>)
  {
    predicate Ok() {
      match this
      case AddressV4(a) => |a| == 4
      case AddressV6(a) => |a| == 16
      case Pointer(name) => name.Ok()
      case Text(ss) => forall i :: 0 <= i < |ss| ==> |ss[i]| < 256
      case Service(p, w, port, target) => p < Pow256(2) && w < Pow256(2) && port < Pow256(2) && target.Ok()
      case Opaque(t, b) =>
        t != 12 && t != 16 && (t == 1 ==> |b| != 4) && (t == 28 ==> |b| != 16) && (t == 33 ==> |b| < 6)
    }
    predicate Resolves(data: seq<byte>) {
      (Pointer? ==> name.Resolves(data)) && (Service? ==> target.Resolves(data))
    }
    function Rtype(): nat {
      match this
      case AddressV4(_) => 1
      case AddressV6(_) => 28
      case Pointer(_) => 12
      case Text(_) => 16
      case Service(_, _, _, _) => 33
      case Opaque(t, _) => t
    }
    function Bytes(): seq<byte>
      requires Ok()
    {
      match this
      case AddressV4(a) => a
      case AddressV6(a) => a
      case Pointer(name) => name.Bytes()
      case Text(ss) => TxtBytes(ss)
      case Service(p, w, port, target) => BeBytes(p, 2) + (BeBytes(w, 2) + (BeBytes(port, 2) + target.Bytes()))
      case Opaque(_, b) => b
    }
    function Meaning(): RecordData {
      match this
      case AddressV4(a) => A(a)
      case AddressV6(a) => Aaaa(a)
      case Pointer(name) => Ptr(Some(name.Meaning()))
      case Text(ss) => Txt(KeepUtf8(ss))
      case Service(p, w, port, target) => Srv(Some(target.Meaning()), port, p, w)
      case Opaque(t, b) => Raw(t, b)
    }
  }

  lemma ServiceNumbers(d: WireData)
    requires d.Service? && d.Ok()
    ensures var b := d.Bytes();
            |b| >= 6 && BeAt(b, 0, 2) == d.priority && BeAt(b, 2, 2) == d.weight && BeAt(b, 4, 2) == d.port
            && |b| - 6 == |d.target.Bytes()|
  {
    hide At, BeBytes, BeAt, WireName.Bytes, WireName.Ok;
    var p, w, port, name := BeBytes(d.priority, 2), BeBytes(d.weight, 2), BeBytes(d.port, 2), d.target.Bytes();
    var b := d.Bytes();
    AtAround([], b, []);
    assert [] + b + [] == b;
    AtSplit(b, 0, p, w + (port + name));
    AtSplit(b, 2, w, port + name);
    AtSplit(b, 4, port, name);
    BeForward(b, 0, d.priority, 2);
    BeForward(b, 2, d.weight, 2);
    BeForward(b, 4, d.port, 2);
  }

  lemma ServiceForward(data: seq<byte>, r: Resource, d: WireData)
    requires d.Service? && d.Ok() && d.Resolves(data)
    requires r.rtype == 33 && r.rdata == d.Bytes() && At(data, r.at, r.rdata)
    ensures Typed(data, r) == d.Meaning()
  {
    hide At, NameAt, BeBytes, BeAt, NameIn, TxtEntries, WireName.Bytes, WireName.Ok, WireName.Resolves,
         WireName.Meaning;
    var p, w, port, name := BeBytes(d.priority, 2), BeBytes(d.weight, 2), BeBytes(d.port, 2), d.target.Bytes();
    ServiceNumbers(d);
    AtSplit(data, r.at, p, w + (port + name));
    AtSplit(data, r.at + 2, w, port + name);
    AtSplit(data, r.at + 4, port, name);
    NameForward(data, r.at + 6, d.target);
  }

  /** Record data of every kind is given its meaning back, wherever the record stands. */
  lemma TypedForward(data: seq<byte>, r: Resource, d: WireData)
    requires d.Ok() && d.Resolves(data) && r.rtype == d.Rtype() && r.rdata == d.Bytes() && At(data, r.at, r.rdata)
    ensures Typed(data, r) == d.Meaning()
  {
    hide At, NameAt, BeBytes, BeAt, TxtEntries, TxtBytes, NameIn, WireName.Bytes, WireName.Ok, WireName.Resolves,
         WireName.Meaning;
    match d
    case Pointer(name) => NameForward(data, r.at, name);
    case Text(ss) =>
      AtAround([], r.rdata, []);
      assert [] + r.rdata + [] == r.rdata;
      TxtRoundTrip(r.rdata, 0, ss);
    case Service(_, _, _, _) => ServiceForward(data, r, d);
    case _ =>
  }

  /** Record `i` of a written message comes back as a record of its name and of its data's meaning. */
  lemma RecordRoundTrip(w: WireMessage, trailing: seq<byte>, i: nat, d: WireData)
    requires w.Ok() && w.Resolves(w.Encode() + trailing) && i < |w.Resources()|
    requires d.Ok() && d.Resolves(w.Encode() + trailing)
    requires w.Resources()[i].rtype == d.Rtype() && w.Resources()[i].rdata == d.Bytes()
    ensures var m := Message(w.Encode() + trailing);
            m.Some? && i < |m.value.records| && m.value.records[i] == (w.Resources()[i].name.Meaning(), d.Meaning())
  {
    hide At, Message, WireQuery.Ok, WireResource.Ok, WireMessage.Encode, WireMessage.Resolves, Typed, ResourcesAt,
         QueriesBytes,
         WireData.Ok, WireData.Meaning, WireData.Bytes, WireData.Rtype, WireData.Resolves;
    var data := w.Encode() + trailing;
    MessageRecords(w, trailing);
    var q := |QueriesBytes(w.queries)|;
    TypedForward(data, ResourcesAt(data, 12 + q, |w.Resources()|)[i], d);
  }
}
