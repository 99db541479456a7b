/** Rendering process readings as line-protocol lines, and reading the lines back. */
module InfluxLine {
  import opened Bytes
  import opened InfluxText

  // ======== Readings and their fields ========

  /** A reading's value, floats already as text and text as characters. */
  datatype Value =
    | Null
    | Bool(b: bool)
    | Int(v: int)
    | UInt(n: nat)
    | Float(repr: string)
    | Text(text: string)
    | Raw(bytes: seq<byte>)
    | DateTime(us: nat)

  datatype Quality =
    | Unspecified
    | DnpFlags(flags: nat)
    | Iec104Qds(flags: nat)
    | OpcUaStatusCode(code: nat)
    | Iec61850Quality(word: nat)
    | SparkplugQuality(value: Option<nat>, isHistorical: bool, isTransient: bool, isNull: bool)
    | CipGeneralStatus(status: nat)
    | HartFieldDeviceStatus(status: nat)

  datatype Reading = Reading(protocol: string, tags: seq<(string, string)>, value: Value, quality: Quality,
                             sourceTs: Option<nat>, observedTs: nat)

  /** What a line carries, as its reader sees it. */
  datatype FieldValue =
    | Flag(b: bool)
    | Signed64(v: int)
    | Unsigned64(n: nat)
    | Number(repr: string)
    | Quote(text: string)

  type Field = (string, FieldValue)
  datatype Line = Line(measurement: string, tags: seq<(string, string)>, fields: seq<Field>, timestampNs: nat)

  const HEX := "0123456789abcdef"

  function Hex(b: seq<byte>): string {
    if b == [] then "" else [HEX[b[0] / 16], HEX[b[0] % 16]] + Hex(b[1..])
  }

  function ValueField(v: Value): Option<FieldValue> {
    match v
    case Null => None
    case Bool(b) => Some(Flag(b))
    case Int(n) => Some(Signed64(n))
    case UInt(n) => Some(Unsigned64(n))
    case Float(repr) => Some(Number(repr))
    case Text(s) => Some(Quote(s))
    case Raw(b) => Some(Quote(Hex(b)))
    case DateTime(us) => Some(Unsigned64(us))
  }

  function QualityKind(q: Quality): string {
    match q
    case Unspecified => "none"
    case DnpFlags(_) => "dnp_flags"
    case Iec104Qds(_) => "iec104_qds"
    case OpcUaStatusCode(_) => "opcua_status_code"
    case Iec61850Quality(_) => "iec61850_quality"
    case SparkplugQuality(_, _, _, _) => "sparkplug_quality"
    case CipGeneralStatus(_) => "cip_general_status"
    case HartFieldDeviceStatus(_) => "hart_field_device_status"
  }

  function QualityValue(n: nat): Field { ("quality_value", Unsigned64(n)) }

  function QualityDetails(q: Quality): seq<Field> {
    match q
    case Unspecified => []
    case DnpFlags(n) => [QualityValue(n)]
    case Iec104Qds(n) => [QualityValue(n)]
    case OpcUaStatusCode(n) => [QualityValue(n)]
    case Iec61850Quality(n) => [QualityValue(n)]
    case CipGeneralStatus(n) => [QualityValue(n)]
    case HartFieldDeviceStatus(n) => [QualityValue(n)]
    case SparkplugQuality(value, historical, transient, isNull) =>
      (if value.Some? then [QualityValue(value.value)] else []) +
      [("is_historical", Flag(historical)), ("is_transient", Flag(transient)), ("is_null", Flag(isNull))]
  }

  function QualityFields(q: Quality): seq<Field> {
    [("quality_kind", Quote(QualityKind(q)))] + QualityDetails(q)
  }

  /** The quality is never lost: equal quality fields come from equal qualities. */
  lemma QualityRecoverable(p: Quality, q: Quality)
    requires QualityFields(p) == QualityFields(q)
    ensures p == q
  {
    assert QualityFields(p)[0] == QualityFields(q)[0];
    assert QualityKind(p) == QualityKind(q);
    assert QualityFields(p)[1..] == QualityDetails(p);
    assert QualityFields(q)[1..] == QualityDetails(q);
    SameKind(p, q);
  }

  lemma SameKind(p: Quality, q: Quality)
    requires QualityKind(p) == QualityKind(q) && QualityDetails(p) == QualityDetails(q)
    ensures p == q
  {
    var a, b := QualityKind(p), QualityKind(q);
    assert a[0] == b[0] && |a| == |b| && (|a| > 4 ==> a[5] == b[5]);
    if p.SparkplugQuality? {
      var ds, es := QualityDetails(p), QualityDetails(q);
      assert ds[|ds| - 1] == es[|es| - 1] && ds[|ds| - 2] == es[|es| - 2] && ds[|ds| - 3] == es[|es| - 3];
      assert ds[0] == es[0];
    } else if !p.Unspecified? {
      assert QualityDetails(p)[0] == QualityDetails(q)[0];
    }
  }

  function FieldsOf(r: Reading): (fs: seq<Field>)
    ensures fs != []
  {
    (match ValueField(r.value) case Some(v) => [("value", v)] case None => []) + QualityFields(r.quality)
  }

  function Timestamp(r: Reading): nat {
    var us := if r.sourceTs.Some? then r.sourceTs.value else r.observedTs;
    if us * 1000 >= 0x1_0000_0000_0000_0000 then 0xFFFF_FFFF_FFFF_FFFF else us * 1000
  }

  function LineOf(r: Reading): Line { Line(r.protocol, r.tags, FieldsOf(r), Timestamp(r)) }

  // ======== Rendering ========

  function Repr(v: FieldValue): string {
    match v
    case Flag(b) => if b then "t" else "f"
    case Signed64(n) => Signed(n) + "i"
    case Unsigned64(n) => Decimal(n) + "u"
    case Number(repr) => repr
    case Quote(s) => Quoted(s)
  }

  function TagText(t: (string, string)): string {
    "," + Escaped(COMPONENT, t.0) + "=" + Escaped(COMPONENT, t.1)
  }

  function TagsText(tags: seq<(string, string)>): string {
    if tags == [] then "" else TagText(tags[0]) + TagsText(tags[1..])
  }

  function FieldText(f: Field): string { Escaped(COMPONENT, f.0) + "=" + Repr(f.1) }

  function MoreFieldsText(fs: seq<Field>): string {
    if fs == [] then "" else "," + FieldText(fs[0]) + MoreFieldsText(fs[1..])
  }

  function FieldsText(fs: seq<Field>): string {
    if fs == [] then "" else FieldText(fs[0]) + MoreFieldsText(fs[1..])
  }

  /** What is still to be written of the fields, once some field has been written or not. */
  function Unwritten(wroteAny: bool, fs: seq<Field>): string {
    if wroteAny then MoreFieldsText(fs) else FieldsText(fs)
  }

  lemma WriteNext(wroteAny: bool, fs: seq<Field>, i: nat)
    requires i < |fs|
    ensures Unwritten(wroteAny, fs[i..]) ==
            (if wroteAny then "," else "") + FieldText(fs[i]) + Unwritten(true, fs[i + 1..])
  {
    hide FieldText;
    assert fs[i..][1..] == fs[i + 1..];
    assert "" + FieldText(fs[i]) == FieldText(fs[i]);
  }

  function LineText(l: Line): string {
    Escaped(MEASUREMENT, l.measurement) + TagsText(l.tags) + " " + FieldsText(l.fields) + " " + Decimal(l.timestampNs)
  }

  method PushTags(start: string, tags: seq<(string, string)>) returns (line: string)
    ensures line == start + TagsText(tags)
  {
    hide Escaped;
    line := start;
    for i := 0 to |tags|
      invariant line + TagsText(tags[i..]) == start + TagsText(tags)
    {
      ghost var before := line;
      line := line + ",";
      line := PushEscaped(line, COMPONENT, tags[i].0);
      line := line + "=";
      line := PushEscaped(line, COMPONENT, tags[i].1);
      assert line == before + TagText(tags[i]);
      assert tags[i..][1..] == tags[i + 1..];
      assert line + TagsText(tags[i + 1..]) == before + (TagText(tags[i]) + TagsText(tags[i + 1..]));
    }
  }

  method PushField(start: string, f: Field) returns (line: string)
    ensures line == start + FieldText(f)
  {
    hide Escaped;
    line := PushEscaped(start, COMPONENT, f.0);
    line := line + "=";
    line := line + Repr(f.1);
  }

  /** The loop over the fields; its sentinel branch for a line without fields is never taken. */
  method PushFields(start: string, value: Option<FieldValue>, quality: seq<Field>) returns (line: string)
    requires quality != []
    ensures line == start + FieldsText((if value.Some? then [("value", value.value)] else []) + quality)
  {
    hide FieldText, FieldsText, MoreFieldsText, Unwritten;
    ghost var all := (if value.Some? then [("value", value.value)] else []) + quality;
    line := start;
    var wroteAny := false;
    if value.Some? {
      line := PushField(line, ("value", value.value));
      wroteAny := true;
    }
    AllUnwritten(value, quality);
    for i := 0 to |quality|
      invariant i > 0 ==> wroteAny
      invariant line + Unwritten(wroteAny, quality[i..]) == start + FieldsText(all)
    {
      WriteNext(wroteAny, quality, i);
      ghost var before, rest := line, Unwritten(true, quality[i + 1..]);
      if wroteAny {
        line := line + ",";
      }
      line := PushField(line, quality[i]);
      assert line + rest == before + ((if wroteAny then "," else "") + FieldText(quality[i]) + rest);
      wroteAny := true;
    }
    if !wroteAny {
      line := line + "value_present=false";
    }
    NoneUnwritten(quality[|quality|..]);
  }

  lemma AllUnwritten(value: Option<FieldValue>, quality: seq<Field>)
    ensures var all := (if value.Some? then [("value", value.value)] else []) + quality;
            var first := if value.Some? then FieldText(("value", value.value)) else "";
            FieldsText(all) == first + Unwritten(value.Some?, quality[0..])
  {
    hide FieldText;
    var all := (if value.Some? then [("value", value.value)] else []) + quality;
    assert quality[0..] == quality;
    assert if value.Some? then all[1..] == quality else all == quality;
  }

  lemma NoneUnwritten(fs: seq<Field>)
    requires fs == []
    ensures Unwritten(true, fs) == ""
  {
  }

  method RenderProcessReading(r: Reading) returns (line: string)
    ensures line == LineText(LineOf(r))
  {
    hide Escaped, TagsText, FieldsText, Decimal, QualityKind, QualityDetails;
    line := PushEscaped("", MEASUREMENT, r.protocol);
    line := PushTags(line, r.tags);
    line := line + " ";
    line := PushFields(line, ValueField(r.value), QualityFields(r.quality));
    line := line + " " + Decimal(Timestamp(r));
  }

  // ======== Reading a line back ========

  function ReadBareValue(t: string): Option<FieldValue> {
    if t == "t" then Some(Flag(true))
    else if t == "f" then Some(Flag(false))
    else if t == "" then None
    else if t[|t| - 1] == 'i' then
      (match ReadSigned(t[..|t| - 1]) case None => None case Some(v) => Some(Signed64(v)))
    else if t[|t| - 1] == 'u' then
      (match ReadDecimal(t[..|t| - 1]) case None => None case Some(n) => Some(Unsigned64(n)))
    else Some(Number(t))
  }

  function ReadValue(s: string): (r: Option<(FieldValue, string)>)
    ensures r.Some? ==> |r.value.1| <= |s|
  {
    if s != "" && s[0] == '"' then
      match ReadQuoted(s[1..])
      case None => None
      case Some((t, rest)) => Some((Quote(t), rest))
    else
      var (t, rest) := ReadUntil({}, MEASUREMENT, s);
      match ReadBareValue(t)
      case None => None
      case Some(v) => Some((v, rest))
  }

  function ReadTags(s: string): Option<(seq<(string, string)>, string)>
    decreases |s|
  {
    if s == "" || s[0] != ',' then Some(([], s)) else
    var (key, afterKey) := ReadUntil(COMPONENT, {'='}, s[1..]);
    if afterKey == "" then None else
    var (value, rest) := ReadUntil(COMPONENT, MEASUREMENT, afterKey[1..]);
    match ReadTags(rest)
    case None => None
    case Some((more, end)) => Some(([(key, value)] + more, end))
  }

  function ReadFields(s: string): Option<(seq<Field>, string)>
    decreases |s|
  {
    var (key, afterKey) := ReadUntil(COMPONENT, {'='}, s);
    if afterKey == "" then None else
    match ReadValue(afterKey[1..])
    case None => None
    case Some((value, rest)) =>
      if rest == "" || rest[0] != ',' then Some(([(key, value)], rest)) else
      match ReadFields(rest[1..])
      case None => None
      case Some((more, end)) => Some(([(key, value)] + more, end))
  }

  function ReadLine(s: string): Option<Line> {
    var (measurement, afterName) := ReadUntil(MEASUREMENT, MEASUREMENT, s);
    match ReadTags(afterName)
    case None => None
    case Some((tags, afterTags)) =>
      if afterTags == "" || afterTags[0] != ' ' then None else
      match ReadFields(afterTags[1..])
      case None => None
      case Some((fields, afterFields)) =>
        if afterFields == "" || afterFields[0] != ' ' then None else
        match ReadDecimal(afterFields[1..])
        case None => None
        case Some(ts) => Some(Line(measurement, tags, fields, ts))
  }

  // ======== The round trip ========

  /** The shape of a printed float: digits, a sign and a point. */
  predicate FloatText(t: string) { t != "" && forall c <- t :: IsDigit(c) || c == '-' || c == '.' }

  predicate FieldOk(f: Field) { !EndsInBackslash(f.0) && (f.1.Number? ==> FloatText(f.1.repr)) }

  predicate TagClean(t: (string, string)) { !EndsInBackslash(t.0) && !EndsInBackslash(t.1) }

  /** Exactly the lines that can be read back: no separator is swallowed by a backslash. */
  predicate Clean(l: Line) { !EndsInBackslash(l.measurement) && forall t <- l.tags :: TagClean(t) }

  ghost predicate EndsValue(rest: string) { rest != "" && rest[0] in MEASUREMENT }

  lemma BareValue(v: FieldValue)
    requires !v.Quote? && (v.Number? ==> FloatText(v.repr))
    ensures ReadBareValue(Repr(v)) == Some(v)
    ensures Repr(v) != "" && Repr(v)[0] != '"' && forall c <- Repr(v) :: c !in MEASUREMENT
  {
    hide Decimal, Signed, ReadDecimal, ReadSigned;
    var t := Repr(v);
    match v
    case Flag(_) =>
    case Number(_) =>
      assert t[|t| - 1] in t && t[0] in t;
    case Signed64(n) =>
      SignedRoundTrip(n);
      assert t[..|t| - 1] == Signed(n) && Signed(n)[0] in Signed(n);
    case Unsigned64(n) =>
      DecimalRoundTrip(n);
      assert t[..|t| - 1] == Decimal(n) && Decimal(n)[0] in Decimal(n);
  }

  lemma ValueRoundTrip(v: FieldValue, rest: string)
    requires EndsValue(rest) && (v.Number? ==> FloatText(v.repr))
    ensures ReadValue(Repr(v) + rest) == Some((v, rest))
  {
    hide Escaped, ReadUntil, ReadBareValue, ReadQuoted;
    if v.Quote? {
      QuoteRoundTrip(v.text, rest);
      assert (Repr(v) + rest)[1..] == Escaped(QUOTED, v.text) + "\"" + rest;
    } else {
      hide Repr;
      BareValue(v);
      BareRead(MEASUREMENT, Repr(v), rest);
    }
  }

  lemma FieldKey(f: Field, rest: string)
    requires FieldOk(f)
    ensures ReadUntil(COMPONENT, {'='}, FieldText(f) + rest) == (f.0, "=" + Repr(f.1) + rest)
  {
    hide Escaped, ReadUntil, Repr;
    var after := "=" + Repr(f.1) + rest;
    EscapeRoundTrip(COMPONENT, {'='}, f.0, after);
    assert FieldText(f) + rest == Escaped(COMPONENT, f.0) + after;
  }

  /** One field read, and the reader at the separator behind it. */
  lemma ReadOneField(f: Field, rest: string)
    requires FieldOk(f) && EndsValue(rest)
    ensures ReadFields(FieldText(f) + rest) ==
            if rest[0] != ',' then Some(([f], rest)) else
            match ReadFields(rest[1..])
            case None => None
            case Some((more, end)) => Some(([f] + more, end))
  {
    hide Escaped, ReadUntil, Repr, ReadValue, FieldText;
    FieldKey(f, rest);
    assert ("=" + Repr(f.1) + rest)[1..] == Repr(f.1) + rest;
    ValueRoundTrip(f.1, rest);
  }

  lemma {:induction false} FieldsRoundTrip(fs: seq<Field>, rest: string)
    requires fs != [] && (forall f <- fs :: FieldOk(f)) && rest != "" && rest[0] == ' '
    ensures ReadFields(FieldsText(fs) + rest) == Some((fs, rest))
  {
    hide ReadFields, FieldText, FieldOk;
    var more := MoreFieldsText(fs[1..]) + rest;
    assert FieldsText(fs) + rest == FieldText(fs[0]) + more;
    if |fs| > 1 {
      FieldsRoundTrip(fs[1..], rest);
      assert fs[1..][0] == fs[1] && fs[1..][1..] == fs[2..];
      assert more == "," + (FieldsText(fs[1..]) + rest);
      assert more[1..] == FieldsText(fs[1..]) + rest;
      assert fs == [fs[0]] + fs[1..];
    } else {
      assert more == rest && fs == [fs[0]];
    }
    ReadOneField(fs[0], more);
  }

  /** One tag read: right, with the reader at the next separator, unless one of its strings ends in a
      backslash; then what is read differs. */
  lemma ReadOneTag(t: (string, string), rest: string)
    requires EndsValue(rest)
    ensures var r, more := ReadTags(TagText(t) + rest), ReadTags(rest);
            if !TagClean(t) then r.None? || (r.value.0 != [] && r.value.0[0] != t)
            else if more.None? then r.None?
            else r == Some(([t] + more.value.0, more.value.1))
  {
    hide Escaped, ReadUntil, EndsInBackslash;
    var tail := Escaped(COMPONENT, t.1) + rest;
    var s := TagText(t) + rest;
    assert s[1..] == Escaped(COMPONENT, t.0) + ("=" + tail);
    EscapeRoundTrip(COMPONENT, {'='}, t.0, "=" + tail);
    assert ("=" + tail)[1..] == tail;
    EscapeRoundTrip(COMPONENT, MEASUREMENT, t.1, rest);
  }

  lemma TagsTextStart(tags: seq<(string, string)>, rest: string)
    requires rest != "" && rest[0] == ' '
    ensures EndsValue(TagsText(tags) + rest)
    ensures tags == [] ==> TagsText(tags) + rest == rest
  {
    if tags == [] {
      assert TagsText(tags) + rest == rest;
    } else {
      assert (TagsText(tags) + rest)[0] == ',';
    }
  }

  /** Tags are read back in order exactly when none of their strings ends in a backslash. */
  lemma {:induction false} TagsRoundTrip(tags: seq<(string, string)>, rest: string)
    requires rest != "" && rest[0] == ' '
    ensures var r := ReadTags(TagsText(tags) + rest);
            if forall t <- tags :: TagClean(t) then r == Some((tags, rest)) else r.None? || r.value.0 != tags
  {
    hide ReadTags, TagText, TagClean;
    TagsTextStart(tags, rest);
    if tags == [] {
      NoTags(rest);
    } else {
      var more := TagsText(tags[1..]) + rest;
      TagsTextStart(tags[1..], rest);
      assert TagsText(tags) + rest == TagText(tags[0]) + more;
      ReadOneTag(tags[0], more);
      TagsRoundTrip(tags[1..], rest);
      assert tags == [tags[0]] + tags[1..];
      var r := ReadTags(more);
      if r.Some? && TagClean(tags[0]) {
        assert ([tags[0]] + r.value.0)[1..] == r.value.0;
      }
    }
  }

  lemma NoTags(rest: string)
    requires rest != "" && rest[0] == ' '
    ensures ReadTags(rest) == Some(([], rest))
  {
  }

  lemma AfterTags(l: Line)
    requires l.fields != [] && (forall f <- l.fields :: FieldOk(f))
    ensures var rest := " " + FieldsText(l.fields) + " " + Decimal(l.timestampNs);
            && ReadFields(rest[1..]) == Some((l.fields, " " + Decimal(l.timestampNs)))
            && ReadDecimal((" " + Decimal(l.timestampNs))[1..]) == Some(l.timestampNs)
  {
    hide FieldsText, ReadFields, Decimal, FieldOk, ReadDecimal;
    var end := " " + Decimal(l.timestampNs);
    FieldsRoundTrip(l.fields, end);
    assert (" " + FieldsText(l.fields) + " " + Decimal(l.timestampNs))[1..] == FieldsText(l.fields) + end;
    DecimalRoundTrip(l.timestampNs);
    assert end[1..] == Decimal(l.timestampNs);
  }

  /** A line is recovered whole exactly when neither its measurement nor a tag string ends in a backslash. */
  lemma LineRoundTrip(l: Line)
    requires l.fields != [] && (forall f <- l.fields :: FieldOk(f))
    ensures ReadLine(LineText(l)) == Some(l) <==> Clean(l)
  {
    hide Escaped, TagsText, FieldsText, ReadUntil, ReadTags, ReadFields, ReadDecimal, Decimal, FieldOk, TagClean,
         EndsInBackslash;
    var rest := " " + FieldsText(l.fields) + " " + Decimal(l.timestampNs);
    var afterName := TagsText(l.tags) + rest;
    assert LineText(l) == Escaped(MEASUREMENT, l.measurement) + afterName;
    TagsTextStart(l.tags, rest);
    EscapeRoundTrip(MEASUREMENT, MEASUREMENT, l.measurement, afterName);
    TagsRoundTrip(l.tags, rest);
    AfterTags(l);
  }
}
