/** SNMP messages over BER: versions 1 and 2c, every request-like PDU and the version 1 trap. */
module Snmp {
  import opened Bytes
  import opened Collections
  import opened Ber

  /** A variable's value. Octet strings are kept as bytes; values of other tags are kept raw. */
  datatype Value = Octets(bytes: seq<byte>) | NullValue | Oid(arcs: seq<nat>) | Integer(v: int)
                 | IpAddress(address: seq<byte>) | Hex(bytes: seq<byte>)

  datatype VarBind = VarBind(oid: seq<nat>, value: Value)

  datatype Fields = Fields(version: int, community: seq<byte>, pduTag: byte, requestId: Option<int>,
                           varBinds: seq<VarBind>, sysName: Option<Value>, sysDescr: Option<Value>,
                           sysObjectId: Option<Value>)

  const SYS_NAME: seq<nat> := [1, 3, 6, 1, 2, 1, 1, 5, 0]
  const SYS_DESCR: seq<nat> := [1, 3, 6, 1, 2, 1, 1, 1, 0]
  const SYS_OBJECT_ID: seq<nat> := [1, 3, 6, 1, 2, 1, 1, 2, 0]

  function DecodeValue(tag: byte, bytes: seq<byte>): Option<Value> {
    if tag == 0x04 then Some(Octets(bytes))
    else if tag == 0x05 then Some(NullValue)
    else if tag == 0x06 then if OidArcs(bytes).None? then None else Some(Oid(OidArcs(bytes).value))
    else if tag == 0x02 then if ParseInt(bytes).None? then None else Some(Integer(ParseInt(bytes).value))
    else if tag == 0x40 then if |bytes| == 4 then Some(IpAddress(bytes)) else None
    else Some(Hex(bytes))
  }

  // ======== Variable bindings ========

  /** One binding: a sequence of an object identifier and a value. */
  function BindingAt(data: seq<byte>, p: nat, end: nat): (r: Option<(VarBind, nat)>)
    requires end <= |data|
    ensures r.Some? ==> p + 2 <= r.value.1 <= end
  {
    var s := HeadAt(data, p);
    if s.None? || s.value.tag != 0x30 || s.value.at + s.value.len > end then None else
    var itemEnd := s.value.at + s.value.len;
    var o := TlvAt(data, s.value.at, itemEnd);
    if o.None? || o.value.tag != 0x06 || OidArcs(Contents(data, o.value)).None? then None else
    var v := TlvAt(data, o.value.at + o.value.len, itemEnd);
    if v.None? || DecodeValue(v.value.tag, Contents(data, v.value)).None? then None else
    var oid, value := OidArcs(Contents(data, o.value)).value, DecodeValue(v.value.tag, Contents(data, v.value)).value;
    Some((VarBind(oid, value), itemEnd))
  }

  function BindingsAt(data: seq<byte>, p: nat, end: nat): Option<seq<VarBind>>
    requires end <= |data|
    decreases end - p
  {
    if p >= end then Some([])
    else if BindingAt(data, p, end).None? then None
    else Behind([BindingAt(data, p, end).value.0], BindingsAt(data, BindingAt(data, p, end).value.1, end))
  }

  /** The list of bindings that closes a PDU. */
  function VarBindsAt(data: seq<byte>, p: nat, end: nat): Option<seq<VarBind>>
    requires end <= |data|
  {
    var h := HeadAt(data, p);
    if h.None? || h.value.tag != 0x30 || h.value.at + h.value.len > end then None
    else BindingsAt(data, h.value.at, h.value.at + h.value.len)
  }

  /** The value last bound to `oid`. */
  function LastValue(vs: seq<VarBind>, oid: seq<nat>): Option<Value> {
    if vs == [] then None
    else if vs[|vs| - 1].oid == oid then Some(vs[|vs| - 1].value)
    else LastValue(vs[..|vs| - 1], oid)
  }

  /** Binding `i` gives `oid` the value `v`, and no later one gives it another. */
  ghost predicate LastBound(vs: seq<VarBind>, oid: seq<nat>, v: Value, i: nat) {
    i < |vs| && vs[i] == VarBind(oid, v) && forall k :: i < k < |vs| ==> vs[k].oid != oid
  }

  lemma {:induction false} LastValueIff(vs: seq<VarBind>, oid: seq<nat>, v: Value)
    ensures LastValue(vs, oid) == Some(v) <==> exists i: nat :: LastBound(vs, oid, v, i)
  {
    if vs != [] {
      var n := |vs| - 1;
      LastValueIff(vs[..n], oid, v);
      LastBoundNext(vs, oid, v, n);
      if vs[n].oid != oid && LastValue(vs[..n], oid) == Some(v) {
        var i: nat :| LastBound(vs[..n], oid, v, i);
        LastBoundNext(vs, oid, v, i);
      }
      if exists i: nat :: LastBound(vs, oid, v, i) {
        var i: nat :| LastBound(vs, oid, v, i);
        LastBoundNext(vs, oid, v, i);
      }
    }
  }

  lemma LastBoundNext(vs: seq<VarBind>, oid: seq<nat>, v: Value, i: nat)
    requires vs != []
    ensures var n := |vs| - 1;
            LastBound(vs, oid, v, i) <==> if i == n then vs[n] == VarBind(oid, v)
                                          else vs[n].oid != oid && LastBound(vs[..n], oid, v, i)
  {
    var n := |vs| - 1;
    assert forall k :: 0 <= k < n ==> vs[..n][k] == vs[k];
  }

  method ParseVarBinds(data: seq<byte>, cursor: nat, end: nat)
    returns (out: Option<seq<VarBind>>, sysName: Option<Value>, sysDescr: Option<Value>, sysObjectId: Option<Value>)
    requires end <= |data|
    ensures out == VarBindsAt(data, cursor, end)
    ensures out.Some? ==> sysName == LastValue(out.value, SYS_NAME) && sysDescr == LastValue(out.value, SYS_DESCR)
                          && sysObjectId == LastValue(out.value, SYS_OBJECT_ID)
  {
    hide BindingAt;
    sysName, sysDescr, sysObjectId := None, None, None;
    var h := ReadTlvHeader(data, cursor);
    if h.None? || h.value.tag != 0x30 || h.value.at + h.value.len > end { return None, None, None, None; }
    var p: nat, stop: nat := h.value.at, h.value.at + h.value.len;
    var vs: seq<VarBind> := [];
    while p < stop
      invariant BindingsAt(data, h.value.at, stop) == Behind(vs, BindingsAt(data, p, stop))
      invariant sysName == LastValue(vs, SYS_NAME) && sysDescr == LastValue(vs, SYS_DESCR)
      invariant sysObjectId == LastValue(vs, SYS_OBJECT_ID)
      decreases stop - p
    {
      var next := ParseBinding(data, p, stop);
      if next.None? { return None, None, None, None; }
      var (vb, after) := next.value;
      BehindOne(vs, vb, BindingsAt(data, after, stop));
      assert (vs + [vb])[..|vs|] == vs;
      vs := vs + [vb];
      if vb.oid == SYS_NAME { sysName := Some(vb.value); }
      if vb.oid == SYS_DESCR { sysDescr := Some(vb.value); }
      if vb.oid == SYS_OBJECT_ID { sysObjectId := Some(vb.value); }
      p := after;
    }
    out := Some(vs);
  }

  method ParseBinding(data: seq<byte>, p: nat, end: nat) returns (r: Option<(VarBind, nat)>)
    requires end <= |data|
    ensures r == BindingAt(data, p, end)
  {
    hide HeadAt, OidArcs;
    var s := ReadTlvHeader(data, p);
    if s.None? || s.value.tag != 0x30 || s.value.at + s.value.len > end { return None; }
    var itemEnd := s.value.at + s.value.len;
    var o := TlvAt(data, s.value.at, itemEnd);
    if o.None? || o.value.tag != 0x06 { return None; }
    var oid := OidToArcs(Contents(data, o.value));
    if oid.None? { return None; }
    var v := TlvAt(data, o.value.at + o.value.len, itemEnd);
    if v.None? { return None; }
    var value := DecodeValue(v.value.tag, Contents(data, v.value));
    if value.None? { return None; }
    return Some((VarBind(oid.value, value.value), itemEnd));
  }

  // ======== Messages ========

  /** Past `n` TLVs, whatever they hold. */
  function Skip(data: seq<byte>, p: nat, end: nat, n: nat): Option<nat>
    decreases n
  {
    if n == 0 then Some(p)
    else if TlvAt(data, p, end).None? then None
    else Skip(data, TlvAt(data, p, end).value.at + TlvAt(data, p, end).value.len, end, n - 1)
  }

  predicate RequestTag(tag: byte) { 0xA0 <= tag <= 0xA3 || 0xA5 <= tag <= 0xA7 }

  datatype Pdu = Pdu(requestId: Option<int>, varBinds: seq<VarBind>)

  /** Request-like PDUs: request id, two skipped TLVs, bindings. The version 1 trap: five skipped, bindings. */
  function PduAt(data: seq<byte>, tag: byte, p: nat, end: nat): Option<Pdu>
    requires end <= |data|
  {
    if RequestTag(tag) then
      var id := TlvAt(data, p, end);
      if id.None? || ParseInt(Contents(data, id.value)).None? then None else
      var q := Skip(data, id.value.at + id.value.len, end, 2);
      if q.None? || VarBindsAt(data, q.value, end).None? then None
      else Some(Pdu(ParseInt(Contents(data, id.value)), VarBindsAt(data, q.value, end).value))
    else if tag == 0xA4 then
      var q := Skip(data, p, end, 5);
      if q.None? || VarBindsAt(data, q.value, end).None? then None
      else Some(Pdu(None, VarBindsAt(data, q.value, end).value))
    else None
  }

  /** Request identifiers outside 32 bits are dropped. */
  function AsI32(v: Option<int>): Option<int> {
    if v.Some? && SignedRange(v.value, 4) then v else None
  }

  function Message(data: seq<byte>): Option<Fields> {
    var m := HeadAt(data, 0);
    if m.None? || m.value.tag != 0x30 || m.value.at + m.value.len > |data| then None else
    var end := m.value.at + m.value.len;
    var v := TlvAt(data, m.value.at, end);
    if v.None? || ParseInt(Contents(data, v.value)).None? then None else
    var c := TlvAt(data, v.value.at + v.value.len, end);
    if c.None? then None else
    var h := HeadAt(data, c.value.at + c.value.len);
    if h.None? || h.value.at + h.value.len > end then None else
    var pdu := PduAt(data, h.value.tag, h.value.at, h.value.at + h.value.len);
    if pdu.None? then None else
    var vs := pdu.value.varBinds;
    var version := ParseInt(Contents(data, v.value)).value;
    Some(Fields(version, Contents(data, c.value), h.value.tag, AsI32(pdu.value.requestId),
                vs, LastValue(vs, SYS_NAME), LastValue(vs, SYS_DESCR), LastValue(vs, SYS_OBJECT_ID)))
  }

  method ParseSnmp(data: seq<byte>) returns (r: Option<Fields>)
    ensures r == Message(data)
  {
    hide HeadAt, TlvAt, VarBindsAt, LastValue, ParseInt;
    var m := ReadTlvHeader(data, 0);
    if m.None? || m.value.tag != 0x30 || m.value.at + m.value.len > |data| { return None; }
    var end := m.value.at + m.value.len;
    var v := TlvAt(data, m.value.at, end);
    if v.None? { return None; }
    var version := ParseInteger(Contents(data, v.value));
    if version.None? { return None; }
    var c := TlvAt(data, v.value.at + v.value.len, end);
    if c.None? { return None; }
    var h := ReadTlvHeader(data, c.value.at + c.value.len);
    if h.None? || h.value.at + h.value.len > end { return None; }
    var tag, p, stop := h.value.tag, h.value.at, h.value.at + h.value.len;
    var id: Option<int> := None;
    var q: Option<nat>;
    if RequestTag(tag) {
      var t := TlvAt(data, p, stop);
      if t.None? { return None; }
      id := ParseInteger(Contents(data, t.value));
      if id.None? { return None; }
      q := Skip(data, t.value.at + t.value.len, stop, 2);
    } else if tag == 0xA4 {
      q := Skip(data, p, stop, 5);
    } else {
      return None;
    }
    if q.None? { return None; }
    var vs, sysName, sysDescr, sysObjectId := ParseVarBinds(data, q.value, stop);
    if vs.None? { return None; }
    return Some(Fields(version.value, Contents(data, c.value), tag, AsI32(id),
                       vs.value, sysName, sysDescr, sysObjectId));
  }

  // ======== Messages on the wire ========

  /** A binding: an identifier, a value, and octets that nothing reads. */
  datatype WireBinding = WireBinding(form: nat, oid: Elem, value: Elem, junk: seq<byte>) {
    predicate Readable() { OidArcs(oid.content).Some? && DecodeValue(value.tag, value.content).Some? }
    predicate Ok()
      ensures Ok() ==> Readable()
    { oid.Ok() && value.Ok() && oid.tag == 0x06 && Readable() && Outer().Ok() }
    function Inner(): seq<byte>
      requires oid.Ok() && value.Ok()
    { oid.Encode() + (value.Encode() + junk) }
    function Outer(): Elem
      requires oid.Ok() && value.Ok()
    { Elem(0x30, form, Inner()) }
    function Encode(): (e: seq<byte>)
      requires Ok()
      ensures |e| >= 2
    { Outer().Encode() }
    function Meaning(): VarBind
      requires Readable()
    { VarBind(OidArcs(oid.content).value, DecodeValue(value.tag, value.content).value) }
  }

  lemma BindingForward(data: seq<byte>, p: nat, end: nat, w: WireBinding)
    requires w.Ok() && At(data, p, w.Encode()) && p + |w.Encode()| <= end <= |data|
    ensures BindingAt(data, p, end) == Some((w.Meaning(), p + |w.Encode()|))
  {
    hide At, HeadAt, TlvAt, DecodeValue, OidArcs, Elem.Encode;
    ElemForward(data, p, end, w.Outer());
    var at, stop := p + 2 + w.form, p + |w.Encode()|;
    AtSplit(data, at, w.oid.Encode(), w.value.Encode() + w.junk);
    AtSplit(data, at + |w.oid.Encode()|, w.value.Encode(), w.junk);
    ElemForward(data, at, stop, w.oid);
    ElemForward(data, at + |w.oid.Encode()|, stop, w.value);
  }

  lemma BindingBackward(data: seq<byte>, p: nat, end: nat) returns (w: WireBinding)
    requires end <= |data| && BindingAt(data, p, end).Some?
    ensures w.Ok() && At(data, p, w.Encode()) && p + |w.Encode()| <= end
    ensures BindingAt(data, p, end) == Some((w.Meaning(), p + |w.Encode()|))
  {
    hide At, HeadAt, TlvAt, DecodeValue, OidArcs, Elem.Encode, Elem.Ok;
    var outer := ElemBackward(data, p, end);
    var at, stop := p + 2 + outer.form, p + |outer.Encode()|;
    TlvIsHead(data, at, stop);
    var oid := ElemBackward(data, at, stop);
    var q := at + |oid.Encode()|;
    TlvIsHead(data, q, stop);
    var value := ElemBackward(data, q, stop);
    var r := q + |value.Encode()|;
    var junk := data[r..stop];
    AtHere(data, r, stop);
    AtSplit(data, q, value.Encode(), junk);
    AtSplit(data, at, oid.Encode(), value.Encode() + junk);
    w := WireBinding(outer.form, oid, value, junk);
    SameSlice(data, at, w.Inner(), outer.content);
    BindingForward(data, p, end, w);
  }

  /** Two strings of one length at one place are the same. */
  lemma SameSlice(data: seq<byte>, p: nat, a: seq<byte>, b: seq<byte>)
    requires At(data, p, a) && |a| == |b| && p + |b| <= |data| && data[p..p + |b|] == b
    ensures a == b
  {
  }

  function BindingsBytes(ws: seq<WireBinding>): seq<byte>
    requires forall i :: 0 <= i < |ws| ==> ws[i].Ok()
  { if ws == [] then [] else ws[0].Encode() + BindingsBytes(ws[1..]) }

  function Meanings(ws: seq<WireBinding>): (vs: seq<VarBind>)
    requires forall i :: 0 <= i < |ws| ==> ws[i].Readable()
    ensures |vs| == |ws| && forall i :: 0 <= i < |ws| ==> vs[i] == ws[i].Meaning()
  { seq(|ws|, i requires 0 <= i < |ws| => ws[i].Meaning()) }

  lemma {:induction false} BindingsForward(data: seq<byte>, p: nat, ws: seq<WireBinding>)
    requires forall i :: 0 <= i < |ws| ==> ws[i].Ok()
    requires At(data, p, BindingsBytes(ws)) && p + |BindingsBytes(ws)| <= |data|
    ensures BindingsAt(data, p, p + |BindingsBytes(ws)|) == Some(Meanings(ws))
    decreases |ws|
  {
    hide At, BindingAt, WireBinding.Encode, WireBinding.Meaning, WireBinding.Ok, Meanings;
    if ws != [] {
      var e, end := ws[0].Encode(), p + |BindingsBytes(ws)|;
      AtSplit(data, p, e, BindingsBytes(ws[1..]));
      BindingForward(data, p, end, ws[0]);
      BindingsForward(data, p + |e|, ws[1..]);
      MeaningsHead(ws);
    }
  }

  lemma MeaningsHead(ws: seq<WireBinding>)
    requires ws != [] && forall i :: 0 <= i < |ws| ==> ws[i].Readable()
    ensures Meanings(ws) == [ws[0].Meaning()] + Meanings(ws[1..])
  {
    hide WireBinding.Readable, WireBinding.Meaning;
  }

  lemma {:induction false} BindingsBackward(data: seq<byte>, p: nat, end: nat) returns (ws: seq<WireBinding>)
    requires p <= end <= |data| && BindingsAt(data, p, end).Some?
    ensures forall i :: 0 <= i < |ws| ==> ws[i].Ok()
    ensures At(data, p, BindingsBytes(ws)) && p + |BindingsBytes(ws)| == end
    decreases end - p
  {
    hide At, BindingAt, WireBinding.Encode, WireBinding.Meaning, WireBinding.Ok;
    if p == end {
      ws := [];
      AtNothing(data, p);
    } else {
      var w := BindingBackward(data, p, end);
      var more := BindingsBackward(data, p + |w.Encode()|, end);
      ws := [w] + more;
      assert ws[1..] == more;
      AtSplit(data, p, w.Encode(), BindingsBytes(more));
    }
  }

  datatype WireBindings = WireBindings(form: nat, items: seq<WireBinding>) {
    predicate ItemsOk() { forall i :: 0 <= i < |items| ==> items[i].Ok() }
    predicate Ok() { ItemsOk() && Outer().Ok() }
    function Outer(): Elem
      requires ItemsOk()
    { Elem(0x30, form, BindingsBytes(items)) }
    function Encode(): seq<byte>
      requires Ok()
    { Outer().Encode() }
  }

  lemma VarBindsForward(data: seq<byte>, p: nat, end: nat, w: WireBindings)
    requires w.Ok() && At(data, p, w.Encode()) && p + |w.Encode()| <= end <= |data|
    ensures VarBindsAt(data, p, end) == Some(Meanings(w.items))
  {
    hide At, HeadAt, TlvAt, BindingsBytes, Meanings, BindingsAt, Elem.Encode, WireBinding.Ok;
    ElemForward(data, p, end, w.Outer());
    BindingsForward(data, p + 2 + w.form, w.items);
  }

  lemma VarBindsBackward(data: seq<byte>, p: nat, end: nat) returns (w: WireBindings)
    requires end <= |data| && VarBindsAt(data, p, end).Some?
    ensures w.Ok() && At(data, p, w.Encode()) && p + |w.Encode()| <= end
    ensures VarBindsAt(data, p, end) == Some(Meanings(w.items))
  {
    hide At, HeadAt, TlvAt, BindingsBytes, Meanings, BindingsAt, Elem.Encode, Elem.Ok, WireBinding.Ok;
    var outer := ElemBackward(data, p, end);
    var at := p + 2 + outer.form;
    var items := BindingsBackward(data, at, at + |outer.content|);
    w := WireBindings(outer.form, items);
    SameSlice(data, at, BindingsBytes(items), outer.content);
    VarBindsForward(data, p, end, w);
  }

  function ElemsBytes(ts: seq<Elem>): seq<byte>
    requires forall i :: 0 <= i < |ts| ==> ts[i].Ok()
  { if ts == [] then [] else ts[0].Encode() + ElemsBytes(ts[1..]) }

  lemma {:induction false} SkipForward(data: seq<byte>, p: nat, end: nat, ts: seq<Elem>)
    requires forall i :: 0 <= i < |ts| ==> ts[i].Ok()
    requires At(data, p, ElemsBytes(ts)) && p + |ElemsBytes(ts)| <= end <= |data|
    ensures Skip(data, p, end, |ts|) == Some(p + |ElemsBytes(ts)|)
    decreases |ts|
  {
    hide At, HeadAt, TlvAt, Elem.Encode, Elem.Ok;
    if ts != [] {
      AtSplit(data, p, ts[0].Encode(), ElemsBytes(ts[1..]));
      ElemForward(data, p, end, ts[0]);
      SkipForward(data, p + |ts[0].Encode()|, end, ts[1..]);
    }
  }

  lemma {:induction false} SkipBackward(data: seq<byte>, p: nat, end: nat, n: nat) returns (ts: seq<Elem>)
    requires p <= end <= |data| && Skip(data, p, end, n).Some?
    ensures |ts| == n && forall i :: 0 <= i < n ==> ts[i].Ok()
    ensures At(data, p, ElemsBytes(ts)) && p + |ElemsBytes(ts)| == Skip(data, p, end, n).value <= end
    decreases n
  {
    hide At, HeadAt, TlvAt, Elem.Encode, Elem.Ok;
    if n == 0 {
      ts := [];
      AtNothing(data, p);
    } else {
      TlvIsHead(data, p, end);
      var t := ElemBackward(data, p, end);
      var more := SkipBackward(data, p + |t.Encode()|, end, n - 1);
      ts := [t] + more;
      assert ts[1..] == more;
      AtSplit(data, p, t.Encode(), ElemsBytes(more));
    }
  }

  /** A PDU: a request id where there is one, the elements the dissector skips, the bindings, and octets
      that nothing reads. */
  datatype WirePdu = WirePdu(tag: byte, id: Option<Elem>, skipped: seq<Elem>, binds: WireBindings, junk: seq<byte>) {
    predicate Ok() {
      && (if RequestTag(tag) then id.Some? && |skipped| == 2 else tag == 0xA4 && id.None? && |skipped| == 5)
      && (id.Some? ==> id.value.Ok() && id.value.content != [])
      && (forall i :: 0 <= i < |skipped| ==> skipped[i].Ok()) && binds.Ok()
    }
    function IdBytes(): seq<byte>
      requires Ok()
    { if id.Some? then id.value.Encode() else [] }
    function Inner(): seq<byte>
      requires Ok()
    { IdBytes() + (ElemsBytes(skipped) + (binds.Encode() + junk)) }
    function RequestId(): Option<int> { if id.Some? then ParseInt(id.value.content) else None }
  }

  lemma PduForward(data: seq<byte>, p: nat, end: nat, w: WirePdu)
    requires w.Ok() && At(data, p, w.Inner()) && p + |w.Inner()| == end <= |data|
    ensures PduAt(data, w.tag, p, end) == Some(Pdu(w.RequestId(), Meanings(w.binds.items)))
  {
    hide At, HeadAt, TlvAt, ElemsBytes, WireBindings.Encode, WireBindings.Ok, Elem.Encode, Elem.Ok, Meanings,
         VarBindsAt, ParseInt, Skip;
    if w.id.Some? { ParseIntIff(w.id.value.content); }
    var i, s, b := w.IdBytes(), ElemsBytes(w.skipped), w.binds.Encode();
    AtSplit(data, p, i, s + (b + w.junk));
    AtSplit(data, p + |i|, s, b + w.junk);
    AtSplit(data, p + |i| + |s|, b, w.junk);
    if w.id.Some? {
      ElemForward(data, p, end, w.id.value);
    }
    SkipForward(data, p + |i|, end, w.skipped);
    VarBindsForward(data, p + |i| + |s|, end, w.binds);
  }

  lemma IdBackward(data: seq<byte>, tag: byte, p: nat, end: nat) returns (id: Option<Elem>)
    requires p <= end <= |data| && PduAt(data, tag, p, end).Some?
    ensures id.Some? <==> RequestTag(tag)
    ensures id.Some? ==> id.value.Ok() && id.value.content != []
    ensures var e := if id.Some? then id.value.Encode() else [];
            && At(data, p, e) && p + |e| <= end
            && (id.Some? ==> TlvAt(data, p, end) == Some(id.value.Header(p)))
  {
    hide At, HeadAt, TlvAt, VarBindsAt, Skip, Elem.Encode, Elem.Ok;
    if RequestTag(tag) {
      TlvIsHead(data, p, end);
      var t := ElemBackward(data, p, end);
      id := Some(t);
    } else {
      id := None;
      AtNothing(data, p);
    }
  }

  lemma PduBackward(data: seq<byte>, tag: byte, p: nat, end: nat) returns (w: WirePdu)
    requires p <= end <= |data| && PduAt(data, tag, p, end).Some?
    ensures w.Ok() && w.tag == tag && At(data, p, w.Inner()) && p + |w.Inner()| == end
    ensures PduAt(data, tag, p, end) == Some(Pdu(w.RequestId(), Meanings(w.binds.items)))
  {
    hide At, HeadAt, TlvAt, ElemsBytes, WireBindings.Encode, WireBindings.Ok, Elem.Encode, Elem.Ok, Meanings,
         VarBindsAt, ParseInt, Skip;
    var id := IdBackward(data, tag, p, end);
    var i := if id.Some? then id.value.Encode() else [];
    var skipped := SkipBackward(data, p + |i|, end, if id.Some? then 2 else 5);
    var q := p + |i| + |ElemsBytes(skipped)|;
    var binds := VarBindsBackward(data, q, end);
    var r := q + |binds.Encode()|;
    w := WirePdu(tag, id, skipped, binds, data[r..end]);
    AtHere(data, r, end);
    AtSplit(data, q, binds.Encode(), w.junk);
    AtSplit(data, p + |i|, ElemsBytes(skipped), binds.Encode() + w.junk);
    AtSplit(data, p, i, ElemsBytes(skipped) + (binds.Encode() + w.junk));
    PduForward(data, p, end, w);
  }

  /** A message: version, community, PDU, and octets that nothing reads. */
  datatype WireMessage = WireMessage(form: nat, version: Elem, community: Elem, pduForm: nat, pdu: WirePdu,
                                     junk: seq<byte>)
  {
    predicate PartsOk() {
      version.Ok() && version.content != [] && community.Ok() && pdu.Ok() && PduElem().Ok()
    }
    predicate Ok() { PartsOk() && Outer().Ok() }
    function PduElem(): Elem
      requires pdu.Ok()
    { Elem(pdu.tag, pduForm, pdu.Inner()) }
    function Inner(): seq<byte>
      requires PartsOk()
    { version.Encode() + (community.Encode() + (PduElem().Encode() + junk)) }
    function Outer(): Elem
      requires PartsOk()
    { Elem(0x30, form, Inner()) }
    function Encode(): seq<byte>
      requires Ok()
    { Outer().Encode() }
    /** What the dissector reports. */
    function Meaning(): Fields
      requires Ok()
    {
      var vs := Meanings(pdu.binds.items);
      Fields(ParseInt(version.content).value, community.content, pdu.tag, AsI32(pdu.RequestId()),
             vs, LastValue(vs, SYS_NAME), LastValue(vs, SYS_DESCR), LastValue(vs, SYS_OBJECT_ID))
    }
  }

  /** The four elements of a message are found one behind the other. */
  lemma PartsForward(data: seq<byte>, w: WireMessage)
    requires w.Ok() && At(data, 0, w.Encode()) && |w.Encode()| <= |data|
    ensures var at, end := 2 + w.form, |w.Encode()|;
            var q := at + |w.version.Encode()|;
            var r := q + |w.community.Encode()|;
            && HeadAt(data, 0) == Some(Head(0x30, end - at, at))
            && TlvAt(data, at, end) == Some(w.version.Header(at)) && q <= r <= end
            && Contents(data, w.version.Header(at)) == w.version.content
            && TlvAt(data, q, end) == Some(w.community.Header(q))
            && Contents(data, w.community.Header(q)) == w.community.content
            && HeadAt(data, r) == Some(w.PduElem().Header(r)) && r + |w.PduElem().Encode()| <= end
            && At(data, r + 2 + w.pduForm, w.pdu.Inner())
  {
    hide At, HeadAt, TlvAt, WirePdu.Inner, WirePdu.Ok, Elem.Encode, Elem.Ok;
    var v, c, u := w.version.Encode(), w.community.Encode(), w.PduElem().Encode();
    ElemForward(data, 0, |data|, w.Outer());
    var at, end := 2 + w.form, |w.Encode()|;
    AtSplit(data, at, v, c + (u + w.junk));
    AtSplit(data, at + |v|, c, u + w.junk);
    AtSplit(data, at + |v| + |c|, u, w.junk);
    ElemForward(data, at, end, w.version);
    ElemForward(data, at + |v|, end, w.community);
    ElemForward(data, at + |v| + |c|, end, w.PduElem());
  }

  /** Every message of this shape, whatever the forms of its lengths, is read, whatever bytes follow. */
  lemma MessageForward(w: WireMessage, trailing: seq<byte>)
    requires w.Ok()
    ensures Message(w.Encode() + trailing) == Some(w.Meaning())
  {
    hide At, HeadAt, TlvAt, PduAt, Meanings, WirePdu.Inner, WirePdu.Ok, WirePdu.RequestId, LastValue, Elem.Encode,
         Elem.Ok, WireMessage.Inner, ParseInt;
    var data := w.Encode() + trailing;
    AtAround([], w.Encode(), trailing);
    assert [] + w.Encode() + trailing == data;
    PartsForward(data, w);
    ParseIntIff(w.version.content);
    var p := 2 + w.form + |w.version.Encode()| + |w.community.Encode()| + 2 + w.pduForm;
    PduForward(data, p, p + |w.pdu.Inner()|, w.pdu);
  }

  /** Nothing else is: whatever is accepted begins with such a message and means what it means. */
  lemma MessageBackward(data: seq<byte>) returns (w: WireMessage, trailing: seq<byte>)
    requires Message(data).Some?
    ensures w.Ok() && data == w.Encode() + trailing && Message(data) == Some(w.Meaning())
  {
    hide At, HeadAt, TlvAt, PduAt, Meanings, WirePdu.Inner, WirePdu.Ok, WirePdu.RequestId, LastValue, Elem.Encode,
         Elem.Ok, ParseInt;
    var outer := ElemBackward(data, 0, |data|);
    var at, end := 2 + outer.form, |outer.Encode()|;
    TlvIsHead(data, at, end);
    var version := ElemBackward(data, at, end);
    ParseIntIff(version.content);
    var q := at + |version.Encode()|;
    TlvIsHead(data, q, end);
    var community := ElemBackward(data, q, end);
    var r := q + |community.Encode()|;
    var u := ElemBackward(data, r, end);
    var p := r + 2 + u.form;
    var pdu := PduBackward(data, u.tag, p, p + |u.content|);
    SameSlice(data, p, pdu.Inner(), u.content);
    var z := r + |u.Encode()|;
    w := WireMessage(outer.form, version, community, u.form, pdu, data[z..end]);
    AtHere(data, z, end);
    AtSplit(data, r, u.Encode(), w.junk);
    AtSplit(data, q, community.Encode(), u.Encode() + w.junk);
    AtSplit(data, at, version.Encode(), community.Encode() + (u.Encode() + w.junk));
    SameSlice(data, at, w.Inner(), outer.content);
    trailing := data[end..];
    AtSlice(data, 0, w.Encode());
    assert data == data[0..end] + trailing;
    MessageForward(w, trailing);
  }

  // ======== Messages of given values ========

  /** A value to be sent: one of a known tag, or raw contents under any other tag. */
  datatype WireValue = Known(v: Value) | Other(tag: byte, bytes: seq<byte>) {
    predicate Ok() {
      match this
      case Known(Oid(arcs)) => OidOk(arcs)
      case Known(Integer(n)) => SignedRange(n, 8)
      case Known(IpAddress(a)) => |a| == 4
      case Known(Hex(_)) => false
      case Known(_) => true
      case Other(t, _) => t !in {0x02, 0x04, 0x05, 0x06, 0x40}
    }
    function Tag(): byte
      requires Ok()
    {
      match this
      case Known(Octets(_)) => 0x04
      case Known(NullValue) => 0x05
      case Known(Oid(_)) => 0x06
      case Known(Integer(_)) => 0x02
      case Known(IpAddress(_)) => 0x40
      case Other(t, _) => t
    }
    function Content(): seq<byte>
      requires Ok()
    {
      match this
      case Known(Octets(b)) => b
      case Known(NullValue) => []
      case Known(Oid(arcs)) => OidContent(arcs)
      case Known(Integer(n)) => IntContent(n)
      case Known(IpAddress(a)) => a
      case Other(_, b) => b
    }
    /** What the reader is told: the value itself, or the raw contents. */
    function Meaning(): Value { if Known? then v else Hex(bytes) }
  }

  lemma ValueRoundTrip(w: WireValue)
    requires w.Ok()
    ensures DecodeValue(w.Tag(), w.Content()) == Some(w.Meaning())
  {
    hide ParseInt, OidArcs;
    match w
    case Known(Oid(arcs)) => OidRoundTrip(arcs);
    case Known(Integer(n)) => IntegerRoundTrip(n);
    case _ =>
  }

  /** An identifier and the value to be bound to it. */
  datatype Bound = Bound(oid: seq<nat>, value: WireValue) {
    predicate Ok() { OidOk(oid) && value.Ok() }
    /** `w` is this binding, its lengths in forms of its own and any octets behind the value. */
    predicate WrittenAs(w: WireBinding)
      requires Ok()
    {
      && w.oid.tag == 0x06 && w.oid.content == OidContent(oid)
      && w.value.tag == value.Tag() && w.value.content == value.Content()
    }
  }

  lemma BoundForward(b: Bound, w: WireBinding)
    requires b.Ok() && b.WrittenAs(w)
    ensures w.Readable() && w.Meaning() == VarBind(b.oid, b.value.Meaning())
  {
    hide OidArcs, DecodeValue, OidContent, WireValue.Tag, WireValue.Content, WireValue.Meaning;
    OidRoundTrip(b.oid);
    ValueRoundTrip(b.value);
  }

  /** What a message says: a version, a community, a request id where the PDU has one, and bindings. */
  datatype Sent = Sent(version: int, community: seq<byte>, tag: byte, requestId: Option<int>, binds: seq<Bound>) {
    predicate Ok() {
      && SignedRange(version, 8) && (requestId.Some? ==> SignedRange(requestId.value, 8))
      && forall i :: 0 <= i < |binds| ==> binds[i].Ok()
    }
    /** `w` is this message, with lengths in any form, skipped elements and octets nothing reads. */
    predicate WrittenAs(w: WireMessage)
      requires Ok()
    {
      && w.version.content == IntContent(version) && w.community.content == community && w.pdu.tag == tag
      && requestId.Some? == w.pdu.id.Some?
      && (requestId.Some? ==> w.pdu.id.value.content == IntContent(requestId.value))
      && |w.pdu.binds.items| == |binds|
      && forall i :: 0 <= i < |binds| ==> binds[i].WrittenAs(w.pdu.binds.items[i])
    }
  }

  /** Round trip: version, community, request id and every identifier and value of a message come back,
      in whatever form its lengths are written and whatever bytes follow. */
  lemma MessageRoundTrip(m: Sent, w: WireMessage, trailing: seq<byte>)
    requires m.Ok() && w.Ok() && m.WrittenAs(w)
    ensures var r := Message(w.Encode() + trailing);
            && r.Some? && r.value.version == m.version && r.value.community == m.community && r.value.pduTag == m.tag
            && r.value.requestId == AsI32(m.requestId) && |r.value.varBinds| == |m.binds|
            && forall i :: 0 <= i < |m.binds| ==>
                 r.value.varBinds[i] == VarBind(m.binds[i].oid, m.binds[i].value.Meaning())
  {
    hide Message, WireMessage.Encode, ParseInt, IntContent, LastValue, WireBinding.Ok,
         WireBinding.Meaning, Bound.Ok, Bound.WrittenAs;
    MessageForward(w, trailing);
    IntegerRoundTrip(m.version);
    if m.requestId.Some? { IntegerRoundTrip(m.requestId.value); }
    forall i | 0 <= i < |m.binds|
      ensures w.pdu.binds.items[i].Readable()
      ensures w.pdu.binds.items[i].Meaning() == VarBind(m.binds[i].oid, m.binds[i].value.Meaning())
    {
      BoundForward(m.binds[i], w.pdu.binds.items[i]);
    }
  }

  // ======== Every message can be written ========

  lemma BoundWritable(b: Bound) returns (w: WireBinding)
    requires b.Ok() && |OidContent(b.oid)| + |b.value.Content()| + 12 < Pow256(4)
    ensures w.Ok() && b.WrittenAs(w) && |w.Encode()| <= |OidContent(b.oid)| + |b.value.Content()| + 18
  {
    hide OidContent, OidOk, Elem.Encode, Elem.Ok, WireValue.Tag, WireValue.Content, OidArcs, DecodeValue;
    var oid, value := Shortest(0x06, OidContent(b.oid)), Shortest(b.value.Tag(), b.value.Content());
    var outer := Shortest(0x30, oid.Encode() + (value.Encode() + []));
    w := WireBinding(outer.form, oid, value, []);
    assert w.Outer() == outer;
    BoundForward(b, w);
  }

  /** Request-like PDUs have a request id, and the version 1 trap has none. */
  predicate ShapeOk(m: Sent) { if RequestTag(m.tag) then m.requestId.Some? else m.tag == 0xA4 && m.requestId.None? }

  lemma PduWritable(m: Sent, ws: seq<WireBinding>) returns (w: WirePdu)
    requires m.Ok() && ShapeOk(m) && (forall i :: 0 <= i < |ws| ==> ws[i].Ok()) && |BindingsBytes(ws)| < Pow256(4)
    ensures w.Ok() && w.tag == m.tag && w.binds.items == ws && m.requestId.Some? == w.id.Some?
    ensures m.requestId.Some? ==> w.id.value.content == IntContent(m.requestId.value)
    ensures |w.Inner()| <= |BindingsBytes(ws)| + 50
  {
    hide IntContent, BindingsBytes, WireBinding.Ok, Elem.Encode, Elem.Ok;
    Pow256Values();
    var id := if m.requestId.Some? then Some(Shortest(0x02, IntContent(m.requestId.value))) else None;
    var nothing := Shortest(0x05, []);
    var skipped := if m.requestId.Some? then [nothing, nothing] else [nothing, nothing, nothing, nothing, nothing];
    var list := Shortest(0x30, BindingsBytes(ws));
    w := WirePdu(m.tag, id, skipped, WireBindings(list.form, ws), []);
    SkippedSize(skipped);
  }

  lemma {:induction false} SkippedSize(ts: seq<Elem>)
    requires forall i :: 0 <= i < |ts| ==> ts[i].Ok() && |ts[i].Encode()| <= 6
    ensures |ElemsBytes(ts)| <= 6 * |ts|
  {
    if ts != [] { SkippedSize(ts[1..]); }
  }

  /** What fits in 2^32 octets can be written around any bindings. */
  lemma MessageWritable(m: Sent, ws: seq<WireBinding>) returns (w: WireMessage)
    requires m.Ok() && ShapeOk(m) && |ws| == |m.binds|
    requires forall i :: 0 <= i < |ws| ==> ws[i].Ok() && m.binds[i].WrittenAs(ws[i])
    requires |m.community| + |BindingsBytes(ws)| + 76 < Pow256(4)
    ensures w.Ok() && m.WrittenAs(w) && w.pdu.binds.items == ws
  {
    hide IntContent, BindingsBytes, WireBinding.Ok, Elem.Encode, Elem.Ok, Bound.WrittenAs, WirePdu.Inner, WirePdu.Ok;
    Pow256Values();
    var pdu := PduWritable(m, ws);
    var version, community := Shortest(0x02, IntContent(m.version)), Shortest(0x04, m.community);
    var elem := Shortest(m.tag, pdu.Inner());
    var outer := Shortest(0x30, version.Encode() + (community.Encode() + (elem.Encode() + [])));
    w := WireMessage(outer.form, version, community, elem.form, pdu, []);
    assert w.PduElem() == elem;
    assert w.Outer() == outer;
  }
}
