/** DataValue (section 5.2.2.17 of OPC 10000-6): a Variant and optional fields gated by a mask byte. */
module OpcUaDataValue {
  import opened Bytes
  import opened OpcUaReader
  import opened OpcUaVariant
  import opened Bronze

  const HAS_VALUE := 0x01
  const HAS_STATUS_CODE := 0x02
  const HAS_SOURCE_TIMESTAMP := 0x04
  const HAS_SERVER_TIMESTAMP := 0x08
  const HAS_SOURCE_PICOSECONDS := 0x10
  const HAS_SERVER_PICOSECONDS := 0x20

  datatype DataValue = DataValue(value: PointValue, statusCode: nat, sourceTs: Option<nat>, serverTs: Option<nat>)

  // ---- Fields present only when a mask bit is set ----

  function OptUintAt(s: seq<byte>, p: nat, present: bool, k: nat): (r: Parsed<Option<nat>>)
    ensures r.Within(s, p)
  {
    if !present then Ok(None, p) else
    var (n, q) :- UintAt(s, p, k);
    Ok(Some(n), q)
  }

  function OptIntAt(s: seq<byte>, p: nat, present: bool, k: nat): (r: Parsed<Option<int>>)
    ensures r.Within(s, p)
  {
    if !present then Ok(None, p) else
    var (v, q) :- IntAt(s, p, k);
    Ok(Some(v), q)
  }

  predicate OptUintFits(v: Option<nat>, present: bool, k: nat) {
    (v.Some? <==> present) && (v.Some? ==> v.value < Pow256(k))
  }

  predicate OptIntFits(v: Option<int>, present: bool, k: nat) {
    (v.Some? <==> present) && (v.Some? ==> SignedRange(v.value, k))
  }

  function OptUintBytes(v: Option<nat>, k: nat): seq<byte> {
    if v.Some? then LeBytes(v.value, k) else []
  }

  function OptIntBytes(v: Option<int>, k: nat): seq<byte>
    requires v.Some? ==> SignedRange(v.value, k)
  {
    if v.Some? then IntBytes(v.value, k) else []
  }

  lemma OptUintForward(s: seq<byte>, p: nat, v: Option<nat>, present: bool, k: nat)
    requires OptUintFits(v, present, k) && At(s, p, OptUintBytes(v, k))
    ensures OptUintAt(s, p, present, k) == Ok(v, p + |OptUintBytes(v, k)|)
  {
    if v.Some? { UintForward(s, p, v.value, k); }
  }

  lemma OptUintBackward(s: seq<byte>, p: nat, present: bool, k: nat)
    requires p <= |s| && OptUintAt(s, p, present, k).Ok?
    ensures var v := OptUintAt(s, p, present, k).value;
            OptUintFits(v, present, k) && At(s, p, OptUintBytes(v, k))
            && OptUintAt(s, p, present, k).next == p + |OptUintBytes(v, k)|
  {
    if present { UintBackward(s, p, k); }
  }

  lemma OptIntForward(s: seq<byte>, p: nat, v: Option<int>, present: bool, k: nat)
    requires OptIntFits(v, present, k) && At(s, p, OptIntBytes(v, k))
    ensures OptIntAt(s, p, present, k) == Ok(v, p + |OptIntBytes(v, k)|)
  {
    if v.Some? { IntForward(s, p, v.value, k); }
  }

  lemma OptIntBackward(s: seq<byte>, p: nat, present: bool, k: nat)
    requires p <= |s| && OptIntAt(s, p, present, k).Ok?
    ensures var v := OptIntAt(s, p, present, k).value;
            OptIntFits(v, present, k) && At(s, p, OptIntBytes(v, k))
            && OptIntAt(s, p, present, k).next == p + |OptIntBytes(v, k)|
  {
    if present { IntBackward(s, p, k); }
  }

  method ReadOptUint(r: Reader, present: bool, k: nat) returns (res: Result<Option<nat>>)
    requires r.Valid()
    modifies r
    ensures r.Did(old(r.pos), OptUintAt(r.bytes, old(r.pos), present, k), res)
  {
    if !present { return Success(None); }
    var n :- r.ReadUint(k);
    return Success(Some(n));
  }

  method ReadOptInt(r: Reader, present: bool, k: nat) returns (res: Result<Option<int>>)
    requires r.Valid()
    modifies r
    ensures r.Did(old(r.pos), OptIntAt(r.bytes, old(r.pos), present, k), res)
  {
    if !present { return Success(None); }
    var v :- r.ReadInt(k);
    return Success(Some(v));
  }

  // ---- Decoding at an offset ----

  function OptVariantAt(s: seq<byte>, p: nat, present: bool): (r: Parsed<PointValue>)
    ensures r.Within(s, p)
  {
    if present then VariantAt(s, p) else Ok(Null, p)
  }

  function Micros(ticks: Option<int>): Option<nat> {
    if ticks.None? then None else UnixMicros(ticks.value)
  }

  /** A timestamp and its picosecond refinement; the refinement is read past and dropped. */
  function StampAt(s: seq<byte>, p: nat, ticks: bool, pico: bool): (r: Parsed<Option<nat>>)
    ensures r.Within(s, p)
  {
    var (t, q) :- OptIntAt(s, p, ticks, 8);
    var (_, e) :- OptUintAt(s, q, pico, 2);
    Ok(Micros(t), e)
  }

  /** The six mask bits, named. */
  datatype Present = Present(value: bool, status: bool, source: bool, sourcePico: bool, server: bool, serverPico: bool)

  function Decoded(mask: byte): Present {
    Present(HasFlag(mask, HAS_VALUE), HasFlag(mask, HAS_STATUS_CODE),
            HasFlag(mask, HAS_SOURCE_TIMESTAMP), HasFlag(mask, HAS_SOURCE_PICOSECONDS),
            HasFlag(mask, HAS_SERVER_TIMESTAMP), HasFlag(mask, HAS_SERVER_PICOSECONDS))
  }

  function StampsAt(s: seq<byte>, p: nat, f: Present): (r: Parsed<(Option<nat>, Option<nat>)>)
    ensures r.Within(s, p)
  {
    var (source, q) :- StampAt(s, p, f.source, f.sourcePico);
    var (server, e) :- StampAt(s, q, f.server, f.serverPico);
    Ok((source, server), e)
  }

  function FieldsAt(s: seq<byte>, p: nat, f: Present): (r: Parsed<DataValue>)
    ensures r.Within(s, p)
  {
    var (value, p1) :- OptVariantAt(s, p, f.value);
    var (status, p2) :- OptUintAt(s, p1, f.status, 4);
    var (stamps, p3) :- StampsAt(s, p2, f);
    Ok(DataValue(value, if status.Some? then status.value else 0, stamps.0, stamps.1), p3)
  }

  function DataValueAt(s: seq<byte>, p: nat): (r: Parsed<DataValue>)
    ensures r.Within(s, p)
  {
    var (mask, q) :- U8At(s, p);
    FieldsAt(s, q, Decoded(mask))
  }

  // ---- What may appear on the wire ----

  datatype WireStamp = WireStamp(ticks: Option<int>, pico: Option<nat>) {
    predicate Valid(hasTicks: bool, hasPico: bool) {
      OptIntFits(ticks, hasTicks, 8) && OptUintFits(pico, hasPico, 2)
    }
    function Encode(): seq<byte>
      requires ticks.Some? ==> SignedRange(ticks.value, 8)
    { OptIntBytes(ticks, 8) + OptUintBytes(pico, 2) }
  }

  lemma StampForward(s: seq<byte>, p: nat, w: WireStamp, t: bool, pico: bool)
    requires w.Valid(t, pico) && At(s, p, w.Encode())
    ensures StampAt(s, p, t, pico) == Ok(Micros(w.ticks), p + |w.Encode()|)
  {
    AtSplit(s, p, OptIntBytes(w.ticks, 8), OptUintBytes(w.pico, 2));
    OptIntForward(s, p, w.ticks, t, 8);
    OptUintForward(s, p + |OptIntBytes(w.ticks, 8)|, w.pico, pico, 2);
  }

  lemma StampBackward(s: seq<byte>, p: nat, t: bool, pico: bool) returns (w: WireStamp)
    requires p <= |s| && StampAt(s, p, t, pico).Ok?
    ensures w.Valid(t, pico) && At(s, p, w.Encode())
    ensures StampAt(s, p, t, pico) == Ok(Micros(w.ticks), p + |w.Encode()|)
  {
    OptIntBackward(s, p, t, 8);
    var q := OptIntAt(s, p, t, 8).next;
    OptUintBackward(s, q, pico, 2);
    w := WireStamp(OptIntAt(s, p, t, 8).value, OptUintAt(s, q, pico, 2).value);
    AtSplit(s, p, OptIntBytes(w.ticks, 8), OptUintBytes(w.pico, 2));
  }

  datatype WireFields = WireFields(variant: Option<WireVariant>, status: Option<nat>,
                                   source: WireStamp, server: WireStamp)
  {
    predicate Valid(f: Present) {
      && (variant.Some? <==> f.value) && (variant.Some? ==> variant.value.Valid())
      && OptUintFits(status, f.status, 4)
      && source.Valid(f.source, f.sourcePico) && server.Valid(f.server, f.serverPico)
    }
    function VariantBytes(f: Present): seq<byte>
      requires Valid(f)
    { if variant.Some? then variant.value.Encode() else [] }
    function Stamps(f: Present): seq<byte>
      requires Valid(f)
    { source.Encode() + server.Encode() }
    function Encode(f: Present): seq<byte>
      requires Valid(f)
    { VariantBytes(f) + (OptUintBytes(status, 4) + Stamps(f)) }
    function Meaning(f: Present): DataValue
      requires Valid(f)
    {
      DataValue(if variant.Some? then variant.value.Meaning() else Null,
                if status.Some? then status.value else 0, Micros(source.ticks), Micros(server.ticks))
    }
  }

  lemma StampsForward(s: seq<byte>, p: nat, w: WireFields, f: Present)
    requires w.Valid(f) && At(s, p, w.Stamps(f))
    ensures StampsAt(s, p, f) == Ok((Micros(w.source.ticks), Micros(w.server.ticks)), p + |w.Stamps(f)|)
  {
    hide At, StampAt, WireStamp.Encode;
    AtSplit(s, p, w.source.Encode(), w.server.Encode());
    StampForward(s, p, w.source, f.source, f.sourcePico);
    StampForward(s, p + |w.source.Encode()|, w.server, f.server, f.serverPico);
  }

  lemma OptVariantForward(s: seq<byte>, p: nat, w: WireFields, f: Present)
    requires w.Valid(f) && At(s, p, w.VariantBytes(f))
    ensures OptVariantAt(s, p, f.value) == Ok(w.Meaning(f).value, p + |w.VariantBytes(f)|)
  {
    if w.variant.Some? { VariantForward(s, p, w.variant.value); }
  }

  lemma FieldsForward(s: seq<byte>, p: nat, w: WireFields, f: Present)
    requires w.Valid(f) && At(s, p, w.Encode(f))
    ensures FieldsAt(s, p, f) == Ok(w.Meaning(f), p + |w.Encode(f)|)
  {
    hide At, OptVariantAt, OptUintAt, StampsAt, OptUintBytes, WireFields.VariantBytes, WireFields.Stamps;
    var vb, sb, tb := w.VariantBytes(f), OptUintBytes(w.status, 4), w.Stamps(f);
    AtSplit(s, p, vb, sb + tb);
    AtSplit(s, p + |vb|, sb, tb);
    OptVariantForward(s, p, w, f);
    OptUintForward(s, p + |vb|, w.status, f.status, 4);
    StampsForward(s, p + |vb| + |sb|, w, f);
  }

  lemma OptVariantBackward(s: seq<byte>, p: nat, present: bool) returns (w: Option<WireVariant>)
    requires p <= |s| && OptVariantAt(s, p, present).Ok?
    ensures (w.Some? <==> present) && (w.Some? ==> w.value.Valid())
    ensures var e := if w.Some? then w.value.Encode() else [];
            At(s, p, e) && OptVariantAt(s, p, present) == Ok(if w.Some? then w.value.Meaning() else Null, p + |e|)
  {
    w := None;
    if present {
      var v := VariantBackward(s, p);
      w := Some(v);
    }
  }

  lemma StampsBackward(s: seq<byte>, p: nat, f: Present) returns (a: WireStamp, b: WireStamp)
    requires p <= |s| && StampsAt(s, p, f).Ok?
    ensures a.Valid(f.source, f.sourcePico) && b.Valid(f.server, f.serverPico)
    ensures At(s, p, a.Encode() + b.Encode())
    ensures StampsAt(s, p, f) == Ok((Micros(a.ticks), Micros(b.ticks)), p + |a.Encode() + b.Encode()|)
  {
    hide At, StampAt, WireStamp.Encode;
    a := StampBackward(s, p, f.source, f.sourcePico);
    b := StampBackward(s, p + |a.Encode()|, f.server, f.serverPico);
    AtSplit(s, p, a.Encode(), b.Encode());
  }

  lemma FieldsBackward(s: seq<byte>, p: nat, f: Present) returns (w: WireFields)
    requires p <= |s| && FieldsAt(s, p, f).Ok?
    ensures w.Valid(f) && At(s, p, w.Encode(f))
    ensures FieldsAt(s, p, f) == Ok(w.Meaning(f), p + |w.Encode(f)|)
  {
    hide At, OptVariantAt, OptUintAt, StampsAt, OptUintBytes, WireStamp.Encode, WireVariant.Encode, WireVariant.Meaning;
    var v := OptVariantBackward(s, p, f.value);
    var p1 := OptVariantAt(s, p, f.value).next;
    OptUintBackward(s, p1, f.status, 4);
    var status := OptUintAt(s, p1, f.status, 4).value;
    var sb := OptUintBytes(status, 4);
    var source, server := StampsBackward(s, p1 + |sb|, f);
    w := WireFields(v, status, source, server);
    assert At(s, p, w.Encode(f)) by {
      var vb, tb := w.VariantBytes(f), w.Stamps(f);
      AtSplit(s, p1, sb, tb);
      AtSplit(s, p, vb, sb + tb);
    }
    FieldsForward(s, p, w, f);
  }

  datatype WireDataValue = WireDataValue(mask: byte, fields: WireFields) {
    predicate Valid() { fields.Valid(Decoded(mask)) }
    function Encode(): seq<byte>
      requires Valid()
    { [mask] + fields.Encode(Decoded(mask)) }
    function Meaning(): DataValue
      requires Valid()
    { fields.Meaning(Decoded(mask)) }
  }

  lemma DataValueForward(s: seq<byte>, p: nat, w: WireDataValue)
    requires w.Valid() && At(s, p, w.Encode())
    ensures DataValueAt(s, p) == Ok(w.Meaning(), p + |w.Encode()|)
  {
    hide At, FieldsAt, WireFields.Encode, WireFields.Meaning, WireFields.Valid, Decoded;
    AtHead(s, p, w.mask, w.fields.Encode(Decoded(w.mask)));
    FieldsForward(s, p + 1, w.fields, Decoded(w.mask));
  }

  lemma DataValueBackward(s: seq<byte>, p: nat) returns (w: WireDataValue)
    requires DataValueAt(s, p).Ok?
    ensures w.Valid() && At(s, p, w.Encode())
    ensures DataValueAt(s, p) == Ok(w.Meaning(), p + |w.Encode()|)
  {
    var fields := FieldsBackward(s, p + 1, Decoded(s[p]));
    w := WireDataValue(s[p], fields);
    AtHead(s, p, w.mask, w.fields.Encode(Decoded(w.mask)));
  }

  // ---- The cursor's own read ----

  method ReadStamp(r: Reader, ticks: bool, pico: bool) returns (res: Result<Option<nat>>)
    requires r.Valid()
    modifies r
    ensures r.Did(old(r.pos), StampAt(r.bytes, old(r.pos), ticks, pico), res)
  {
    hide OptIntAt, OptUintAt, Micros;
    var t :- ReadOptInt(r, ticks, 8);
    var _ :- ReadOptUint(r, pico, 2);
    return Success(Micros(t));
  }

  method ReadStamps(r: Reader, f: Present) returns (res: Result<(Option<nat>, Option<nat>)>)
    requires r.Valid()
    modifies r
    ensures r.Did(old(r.pos), StampsAt(r.bytes, old(r.pos), f), res)
  {
    hide StampAt;
    var source :- ReadStamp(r, f.source, f.sourcePico);
    var server :- ReadStamp(r, f.server, f.serverPico);
    return Success((source, server));
  }

  method ReadOptVariant(r: Reader, present: bool) returns (res: Result<PointValue>)
    requires r.Valid()
    modifies r
    ensures r.Did(old(r.pos), OptVariantAt(r.bytes, old(r.pos), present), res)
  {
    hide VariantAt;
    if !present { return Success(Null); }
    res := ReadVariant(r);
  }

  method ReadDataValue(r: Reader) returns (res: Result<DataValue>)
    requires r.Valid()
    modifies r
    ensures r.Did(old(r.pos), DataValueAt(r.bytes, old(r.pos)), res)
  {
    hide OptVariantAt, OptUintAt, StampsAt, Decoded, U8At;
    var mask :- r.ReadU8();
    var f := Decoded(mask);
    var value :- ReadOptVariant(r, f.value);
    var status :- ReadOptUint(r, f.status, 4);
    var stamps :- ReadStamps(r, f);
    return Success(DataValue(value, if status.Some? then status.value else 0, stamps.0, stamps.1));
  }
}
