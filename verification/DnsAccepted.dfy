/** What the DNS dissector accepts is what can be written: names, questions, records and messages. */
module DnsAccepted {
  import opened Bytes
  import opened Collections
  import opened DnsName
  import opened DnsMessage

  // ======== Names ========

  lemma LabelAhead(data: seq<byte>, off: nat, rest: WireName) returns (w: WireName)
    requires LabelFits(data, off) && Utf8(LabelAt(data, off)) && rest.Ok() && rest.Resolves(data)
    requires |rest.front| + (if rest.link.None? then 0 else 1 + rest.link.value.n) < MAX_HOPS
    requires At(data, off + 1 + data[off], rest.Bytes())
    ensures w == WireName([LabelAt(data, off)] + rest.front, rest.link)
    ensures w.Ok() && w.Resolves(data) && At(data, off, w.Bytes())
    ensures w.Meaning() == [LabelAt(data, off)] + rest.Meaning()
  {
    hide At, Utf8, Derives;
    var one, front := LabelAt(data, off), rest.front;
    w := WireName([one] + front, rest.link);
    assert ([one] + front)[1..] == front;
    var tail := if rest.link.None? then [0] else [0xC0 + rest.link.value.target / 256, rest.link.value.target % 256];
    AtHere(data, off + 1, off + 1 + data[off]);
    AtSplit(data, off + 1, one, Written(front) + tail);
    AtHead(data, off, |one|, one + (Written(front) + tail));
    assert w.Bytes() == [|one|] + (one + (Written(front) + tail));
    if rest.link.Some? { assert [one] + (front + rest.link.value.back) == w.Meaning(); }
  }

  lemma PointerAhead(data: seq<byte>, off: nat, labels: Labels, n: nat) returns (w: WireName)
    requires off + 1 < |data| && IsPointer(data[off]) && Derives(data, Target(data, off), labels, n)
    requires AllUtf8(labels) && n < MAX_HOPS
    ensures w == WireName([], Some(Link(Target(data, off), labels, n)))
    ensures w.Ok() && w.Resolves(data) && At(data, off, w.Bytes()) && w.Meaning() == labels
  {
    hide Utf8, Derives;
    w := WireName([], Some(Link(Target(data, off), labels, n)));
    assert w.Bytes() == [data[off], data[off + 1]] == data[off..off + 2];
    assert [] + labels == labels;
  }

  /** A derivable name is labels in place, then a terminator or a pointer to the rest of it. */
  lemma {:induction false} DerivesBackward(data: seq<byte>, off: nat, labels: Labels, n: nat) returns (w: WireName)
    requires Derives(data, off, labels, n) && AllUtf8(labels) && n <= MAX_HOPS
    ensures w.Ok() && w.Resolves(data) && At(data, off, w.Bytes()) && w.Meaning() == labels
    ensures |w.front| + (if w.link.None? then 0 else 1 + w.link.value.n) == n
    decreases n
  {
    hide Utf8, At, WireName.Bytes, WireName.Ok, WireName.Resolves, WireName.Meaning;
    if n == 0 {
      w := Terminator(data, off);
    } else if LabelFits(data, off) {
      var rest := DerivesBackward(data, off + 1 + data[off], labels[1..], n - 1);
      w := LabelAhead(data, off, rest);
      assert labels == [labels[0]] + labels[1..];
    } else {
      w := PointerAhead(data, off, labels, n - 1);
    }
  }

  lemma Terminator(data: seq<byte>, off: nat) returns (w: WireName)
    requires off < |data| && data[off] == 0
    ensures w == WireName([], None) && w.Ok() && w.Resolves(data) && At(data, off, w.Bytes()) && w.Meaning() == []
  {
    w := WireName([], None);
    assert w.Bytes() == [0];
    AtByte(data, off, 0);
  }

  /** Every name that is read was written so. */
  lemma NameBackward(data: seq<byte>, off: nat) returns (w: WireName)
    requires NameAt(data, off).Some?
    ensures w.Ok() && w.Resolves(data) && At(data, off, w.Bytes())
    ensures NameAt(data, off) == Some(Name(w.Meaning(), off + |w.Bytes()|))
  {
    hide At, Utf8, Spell, Derives, End, WireName.Bytes, WireName.Ok, WireName.Resolves, WireName.Meaning;
    var n := SpellBackward(data, off, MAX_HOPS);
    w := DerivesBackward(data, off, NameAt(data, off).value.labels, n);
    NameForward(data, off, w);
  }

  // ======== Questions and records ========

  lemma BeBackward(data: seq<byte>, off: nat, k: nat)
    requires off + k <= |data|
    ensures BeAt(data, off, k) < Pow256(k) && At(data, off, BeBytes(BeAt(data, off, k), k))
  {
    hide BeValue, BeBytes;
    BeBytesOfValue(data[off..off + k]);
    AtHere(data, off, off + k);
  }

  lemma QueryBackward(data: seq<byte>, off: nat) returns (q: WireQuery)
    requires QueryAt(data, off).Some?
    ensures q.Ok() && q.name.Resolves(data) && At(data, off, q.Encode())
    ensures QueryAt(data, off) == Some((q.Meaning(), off + |q.Encode()|))
  {
    hide At, NameAt, BeBytes, BeAt, WireName.Bytes, WireName.Ok, WireName.Resolves, WireName.Meaning;
    var name := NameBackward(data, off);
    var p := off + |name.Bytes()|;
    q := WireQuery(name, BeAt(data, p, 2), BeAt(data, p + 2, 2));
    BeBackward(data, p, 2);
    BeBackward(data, p + 2, 2);
    AtSplit(data, p, BeBytes(q.qtype, 2), BeBytes(q.qclass, 2));
    AtSplit(data, off, name.Bytes(), BeBytes(q.qtype, 2) + BeBytes(q.qclass, 2));
    QueryForward(data, off, q);
  }

  /** The record `w` as it is read, with its data at `at`. */
  function AsRead(w: WireResource, at: nat): Resource {
    Resource(w.name.Meaning(), w.rtype, w.ttl, at, w.rdata)
  }

  /** Where the data of a record written at `off` stands: behind its name and ten bytes. */
  function DataBehind(w: WireResource, off: nat): nat
    requires w.Ok()
  { off + |w.name.Bytes()| + 10 }

  lemma ResourceBackward(data: seq<byte>, off: nat) returns (w: WireResource)
    requires ResourceAt(data, off).Some?
    ensures w.Ok() && w.name.Resolves(data) && At(data, off, w.Encode())
    ensures ResourceAt(data, off) == Some((AsRead(w, DataBehind(w, off)), off + |w.Encode()|))
    ensures w.Read(data, ResourceAt(data, off).value.0)
  {
    hide At, NameAt, BeBytes, BeAt, WireName.Bytes, WireName.Ok, WireName.Resolves, WireName.Meaning;
    var name := NameBackward(data, off);
    var p := off + |name.Bytes()|;
    var rdata := data[p + 10..p + 10 + BeAt(data, p + 8, 2)];
    w := WireResource(name, BeAt(data, p, 2), BeAt(data, p + 2, 2), BeAt(data, p + 4, 4), rdata);
    BeBackward(data, p, 2);
    BeBackward(data, p + 2, 2);
    BeBackward(data, p + 4, 4);
    BeBackward(data, p + 8, 2);
    AtHere(data, p + 10, p + 10 + |rdata|);
    var t, c, l, n := BeBytes(w.rtype, 2), BeBytes(w.rclass, 2), BeBytes(w.ttl, 4), BeBytes(|rdata|, 2);
    AtSplit(data, p + 8, n, rdata);
    AtSplit(data, p + 4, l, n + rdata);
    AtSplit(data, p + 2, c, l + (n + rdata));
    AtSplit(data, p, t, c + (l + (n + rdata)));
    AtSplit(data, off, name.Bytes(), t + (c + (l + (n + rdata))));
    ResourceForward(data, off, w);
  }

  lemma {:induction false} QueriesBackward(data: seq<byte>, off: nat, n: nat) returns (qs: seq<WireQuery>)
    requires off <= |data| && QueriesAt(data, off, n).Some?
    ensures |qs| == n && forall i :: 0 <= i < n ==> qs[i].Ok() && qs[i].name.Resolves(data)
    ensures At(data, off, QueriesBytes(qs))
    decreases n
  {
    hide At, QueryAt, WireQuery.Encode, WireQuery.Ok, WireName.Resolves;
    if n == 0 {
      qs := [];
      AtNothing(data, off);
    } else {
      var q := QueryBackward(data, off);
      var more := QueriesBackward(data, off + |q.Encode()|, n - 1);
      qs := [q] + more;
      assert qs[1..] == more;
      AtSplit(data, off, q.Encode(), QueriesBytes(more));
    }
  }

  /** Where the data of record `i` of those written at `off` stands. */
  function DataOf(ws: seq<WireResource>, off: nat, i: nat): nat
    requires (forall k :: 0 <= k < |ws| ==> ws[k].Ok()) && i < |ws|
  { if i == 0 then DataBehind(ws[0], off) else DataOf(ws[1..], off + |ws[0].Encode()|, i - 1) }

  /** Reading stops at the count or at the first bytes that no record can be read from. */
  lemma {:induction false} ResourcesBackward(data: seq<byte>, off: nat, n: nat) returns (ws: seq<WireResource>)
    requires off <= |data|
    ensures |ws| == |ResourcesAt(data, off, n)| <= n
    ensures forall i :: 0 <= i < |ws| ==>
              ws[i].Ok() && ws[i].name.Resolves(data) && ws[i].Read(data, ResourcesAt(data, off, n)[i])
    ensures forall i :: 0 <= i < |ws| ==> ResourcesAt(data, off, n)[i] == AsRead(ws[i], DataOf(ws, off, i))
    ensures At(data, off, ResourcesBytes(ws))
    ensures |ws| < n ==> ResourceAt(data, off + |ResourcesBytes(ws)|).None?
    decreases n
  {
    hide At, ResourceAt, WireResource.Encode, WireResource.Ok, WireResource.Read, AsRead, DataBehind,
         WireName.Resolves;
    if n == 0 || ResourceAt(data, off).None? {
      ws := [];
      AtNothing(data, off);
    } else {
      var w := ResourceBackward(data, off);
      var more := ResourcesBackward(data, off + |w.Encode()|, n - 1);
      ws := [w] + more;
      assert ws[1..] == more;
      AtSplit(data, off, w.Encode(), ResourcesBytes(more));
      forall i | 0 <= i < |ws|
        ensures ResourcesAt(data, off, n)[i] == AsRead(ws[i], DataOf(ws, off, i))
      {
        if i > 0 { assert ws[i] == more[i - 1]; }
      }
    }
  }

  // ======== Messages ========

  /** An accepted message is a header, as many questions as the header says, and records up to the number
      the header says or to the first bytes that are none; what is reported is what they say. */
  lemma MessageBackward(data: seq<byte>) returns (qs: seq<WireQuery>, ws: seq<WireResource>)
    requires Message(data).Some?
    ensures forall i :: 0 <= i < |qs| ==> qs[i].Ok() && qs[i].name.Resolves(data)
    ensures forall i :: 0 <= i < |ws| ==> ws[i].Ok() && ws[i].name.Resolves(data)
    ensures |data| >= 12 && At(data, 12, QueriesBytes(qs) + ResourcesBytes(ws)) && |qs| == BeAt(data, 4, 2)
    ensures var total := BeAt(data, 6, 2) + BeAt(data, 8, 2) + BeAt(data, 10, 2);
            var end := 12 + |QueriesBytes(qs) + ResourcesBytes(ws)|;
            |ws| <= total && (|ws| < total ==> ResourceAt(data, end).None?)
    ensures var m := Message(data).value;
            && m.transactionId == BeAt(data, 0, 2) && (m.isResponse <==> data[2] >= 0x80)
            && m.queries == Asked(qs) && |m.records| == |ws| && |m.answers| == Min(BeAt(data, 6, 2), |ws|)
            && forall i :: 0 <= i < |m.answers| ==> ws[i].Read(data, m.answers[i])
    ensures var m := Message(data).value;
            var off := 12 + |QueriesBytes(qs)|;
            && (forall i :: 0 <= i < |m.answers| ==> m.answers[i] == AsRead(ws[i], DataOf(ws, off, i)))
            && forall i :: 0 <= i < |ws| ==>
                 m.records[i] == (ws[i].name.Meaning(), Typed(data, AsRead(ws[i], DataOf(ws, off, i))))
  {
    hide At, BeAt, QueriesAt, ResourcesAt, ResourceAt, QueriesBytes, ResourcesBytes, Asked, WireQuery.Ok,
         WireResource.Ok, WireName.Resolves, WireName.Meaning, Typed, DataOf;
    var ancount := BeAt(data, 6, 2);
    var total := ancount + BeAt(data, 8, 2) + BeAt(data, 10, 2);
    qs := QueriesBackward(data, 12, BeAt(data, 4, 2));
    QueriesForward(data, 12, qs);
    var p := 12 + |QueriesBytes(qs)|;
    ws := ResourcesBackward(data, p, total);
    AtSplit(data, 12, QueriesBytes(qs), ResourcesBytes(ws));
    var rs := ResourcesAt(data, p, total);
    assert Message(data).value.records == TypedAll(data, rs);
    assert forall i :: 0 <= i < |ws| ==> rs[i].name == ws[i].name.Meaning();
  }
}
