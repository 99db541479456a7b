/** Rendering a batch of events as newline-separated lines, and splitting the batch again. */
module InfluxMany {
  import opened Bytes
  import opened Collections
  import opened InfluxText
  import opened InfluxLine

  datatype Event = Process(reading: Reading) | Other

  function Readings(events: seq<Event>): seq<Reading> {
    if events == [] then [] else
    var before, ev := Readings(events[..|events| - 1]), events[|events| - 1];
    if ev.Process? then before + [ev.reading] else before
  }

  function Lines(rs: seq<Reading>): seq<string> { seq(|rs|, i requires 0 <= i < |rs| => LineText(LineOf(rs[i]))) }

  function Joined(lines: seq<string>): string {
    if lines == [] then "" else
    var before := lines[..|lines| - 1];
    (if before == [] then "" else Joined(before) + "\n") + lines[|lines| - 1]
  }

  lemma LineNotEmpty(l: Line)
    ensures LineText(l) != ""
  {
    hide Escaped, TagsText, FieldsText, Decimal;
    assert Decimal(l.timestampNs) != "";
  }

  lemma JoinedEmptyIff(lines: seq<string>)
    requires forall l <- lines :: l != ""
    ensures Joined(lines) == "" <==> lines == []
  {
    if lines != [] {
      assert lines[|lines| - 1] in lines;
    }
  }

  lemma RenderedNext(rs: seq<Reading>, r: Reading)
    ensures var out, line := Joined(Lines(rs)), LineText(LineOf(r));
            Joined(Lines(rs + [r])) == if out == "" then line else out + "\n" + line
  {
    hide LineText, LineOf, Joined;
    var lines, line := Lines(rs), LineText(LineOf(r));
    forall l | l in lines ensures l != "" {
      var i :| 0 <= i < |rs| && l == lines[i];
      LineNotEmpty(LineOf(rs[i]));
    }
    assert Lines(rs + [r]) == lines + [line];
    JoinedLast(lines, line);
    JoinedEmptyIff(lines);
  }

  lemma JoinedLast(lines: seq<string>, line: string)
    ensures Joined(lines + [line]) == if lines == [] then line else Joined(lines) + "\n" + line
  {
    assert (lines + [line])[..|lines|] == lines;
  }

  method RenderMany(events: seq<Event>) returns (out: string)
    ensures out == Joined(Lines(Readings(events)))
  {
    hide LineText, LineOf, Lines, Joined;
    out := "";
    NothingJoined();
    for i := 0 to |events|
      invariant out == Joined(Lines(Readings(events[..i])))
    {
      assert events[..i + 1][..i] == events[..i];
      if events[i].Process? {
        var line := RenderProcessReading(events[i].reading);
        RenderedNext(Readings(events[..i]), events[i].reading);
        if out != "" {
          out := out + "\n";
        }
        out := out + line;
      }
    }
    assert events[..|events|] == events;
  }

  lemma NothingJoined()
    ensures Joined(Lines([])) == ""
  {
  }

  // ======== Splitting ========

  predicate OneLine(s: string) { '\n' !in s }

  function Pieces(s: string): (ps: seq<string>)
    ensures ps != [] && forall p <- ps :: OneLine(p)
  {
    if s == "" then [""]
    else if s[|s| - 1] == '\n' then Pieces(s[..|s| - 1]) + [""]
    else
      var ps := Pieces(s[..|s| - 1]);
      var last := ps[|ps| - 1];
      assert last in ps && OneLine(last);
      ps[..|ps| - 1] + [last + [s[|s| - 1]]]
  }

  function SplitLines(s: string): (ps: seq<string>)
    ensures forall p <- ps :: OneLine(p)
  { if s == "" then [] else Pieces(s) }

  lemma PiecesBreak(s: string)
    ensures Pieces(s + "\n") == Pieces(s) + [""]
  {
    assert (s + "\n")[..|s|] == s;
  }

  lemma PiecesChar(s: string, c: char)
    requires c != '\n'
    ensures var ps := Pieces(s); Pieces(s + [c]) == ps[..|ps| - 1] + [ps[|ps| - 1] + [c]]
  {
    assert (s + [c])[..|s|] == s;
  }

  lemma {:induction false} PiecesNext(s: string, line: string)
    requires OneLine(line)
    ensures Pieces(s + "\n" + line) == Pieces(s) + [line]
  {
    hide Pieces;
    if line == "" {
      PiecesBreak(s);
      assert s + "\n" + line == s + "\n";
    } else {
      var front, c := line[..|line| - 1], line[|line| - 1];
      assert line == front + [c] && c in line;
      PiecesNext(s, front);
      PiecesChar(s + "\n" + front, c);
      ConcatAssoc(s + "\n", front, [c]);
      var ps := Pieces(s);
      assert (ps + [front])[..|ps|] == ps;
    }
  }

  lemma {:induction false} PiecesOne(line: string)
    requires OneLine(line)
    ensures Pieces(line) == [line]
  {
    if line != "" {
      PiecesOne(line[..|line| - 1]);
      assert line == line[..|line| - 1] + [line[|line| - 1]];
    }
  }

  lemma {:induction false} JoinedPieces(lines: seq<string>)
    requires lines != [] && forall l <- lines :: l != "" && OneLine(l)
    ensures Pieces(Joined(lines)) == lines
  {
    hide Pieces, OneLine;
    var before, last := lines[..|lines| - 1], lines[|lines| - 1];
    assert lines == before + [last];
    if before == [] {
      PiecesOne(last);
      assert "" + last == last;
    } else {
      assert forall l <- before :: l in lines;
      JoinedPieces(before);
      PiecesNext(Joined(before), last);
    }
  }

  /** Non-empty lines are recovered by splitting the joined text exactly when none holds a newline. */
  lemma SplitIff(lines: seq<string>)
    requires forall l <- lines :: l != ""
    ensures SplitLines(Joined(lines)) == lines <==> forall l <- lines :: OneLine(l)
  {
    hide Pieces, Joined, OneLine;
    JoinedEmptyIff(lines);
    if lines != [] && forall l <- lines :: OneLine(l) {
      JoinedPieces(lines);
    }
  }

  // ======== When a line holds no newline ========

  lemma {:induction false} EscapedOneLine(specials: set<char>, s: string)
    requires '\n' !in specials
    ensures OneLine(Escaped(specials, s)) <==> OneLine(s)
  {
    if s != "" {
      EscapedOneLine(specials, s[1..]);
      assert s == [s[0]] + s[1..];
    }
  }

  predicate TagOneLine(t: (string, string)) { OneLine(t.0) && OneLine(t.1) }

  predicate FieldOneLine(f: Field) { OneLine(f.0) && (f.1.Quote? ==> OneLine(f.1.text)) }

  predicate LineIsOne(l: Line) {
    OneLine(l.measurement) && (forall t <- l.tags :: TagOneLine(t)) && (forall f <- l.fields :: FieldOneLine(f))
  }

  lemma ReprOneLine(v: FieldValue)
    requires v.Number? ==> FloatText(v.repr)
    ensures OneLine(Repr(v)) <==> (v.Quote? ==> OneLine(v.text))
  {
    if v.Quote? {
      EscapedOneLine(QUOTED, v.text);
    }
  }

  lemma FieldTextOneLine(f: Field)
    requires FieldOk(f)
    ensures OneLine(FieldText(f)) <==> FieldOneLine(f)
  {
    hide Escaped, Repr;
    EscapedOneLine(COMPONENT, f.0);
    ReprOneLine(f.1);
  }

  lemma {:induction false} MoreFieldsOneLine(fs: seq<Field>)
    requires forall f <- fs :: FieldOk(f)
    ensures OneLine(MoreFieldsText(fs)) <==> forall f <- fs :: FieldOneLine(f)
  {
    hide FieldText, FieldOk, FieldOneLine;
    if fs != [] {
      MoreFieldsOneLine(fs[1..]);
      FieldTextOneLine(fs[0]);
      assert fs == [fs[0]] + fs[1..];
    }
  }

  lemma TagTextOneLine(t: (string, string))
    ensures OneLine(TagText(t)) <==> TagOneLine(t)
  {
    hide Escaped;
    EscapedOneLine(COMPONENT, t.0);
    EscapedOneLine(COMPONENT, t.1);
  }

  lemma {:induction false} TagsOneLine(tags: seq<(string, string)>)
    ensures OneLine(TagsText(tags)) <==> forall t <- tags :: TagOneLine(t)
  {
    hide TagText, TagOneLine;
    if tags != [] {
      TagsOneLine(tags[1..]);
      TagTextOneLine(tags[0]);
      assert tags == [tags[0]] + tags[1..];
    }
  }

  lemma FieldsOneLine(fs: seq<Field>)
    requires fs != [] && forall f <- fs :: FieldOk(f)
    ensures OneLine(FieldsText(fs)) <==> forall f <- fs :: FieldOneLine(f)
  {
    hide FieldText, FieldOk, FieldOneLine;
    MoreFieldsOneLine(fs[1..]);
    FieldTextOneLine(fs[0]);
    assert fs == [fs[0]] + fs[1..];
  }

  lemma DecimalOneLine(n: nat)
    ensures OneLine(Decimal(n))
  {
  }

  lemma LineOneLine(l: Line)
    requires l.fields != [] && forall f <- l.fields :: FieldOk(f)
    ensures OneLine(LineText(l)) <==> LineIsOne(l)
  {
    hide Escaped, TagsText, FieldsText, FieldOk, FieldOneLine, TagOneLine, Decimal;
    EscapedOneLine(MEASUREMENT, l.measurement);
    TagsOneLine(l.tags);
    FieldsOneLine(l.fields);
    DecimalOneLine(l.timestampNs);
  }

  // ======== Batches of readings ========

  /** Floats are printed as floats; the source's printer guarantees it. */
  predicate Printed(r: Reading) { r.value.Float? ==> FloatText(r.value.repr) }

  /** No string that comes from the wire holds a newline. */
  predicate NoNewline(r: Reading) {
    && OneLine(r.protocol) && (forall t <- r.tags :: TagOneLine(t))
    && (r.value.Text? ==> OneLine(r.value.text))
  }

  /** No measurement or tag string ends in a backslash. */
  predicate NoFinalBackslash(r: Reading) { !EndsInBackslash(r.protocol) && forall t <- r.tags :: TagClean(t) }

  lemma {:induction false} HexOneLine(b: seq<byte>)
    ensures OneLine(Hex(b))
  {
    if b != [] {
      HexOneLine(b[1..]);
      assert forall c <- HEX :: c != '\n';
      assert HEX[b[0] / 16] in HEX && HEX[b[0] % 16] in HEX;
    }
  }

  lemma KindOneLine(q: Quality)
    ensures OneLine(QualityKind(q))
  {
  }

  lemma DetailsPlain(q: Quality, f: Field)
    requires f in QualityDetails(q)
    ensures FieldOk(f) && FieldOneLine(f)
  {
    assert f.0 in {"quality_value", "is_historical", "is_transient", "is_null"};
  }

  lemma QualityPlain(q: Quality)
    ensures forall f <- QualityFields(q) :: FieldOk(f) && FieldOneLine(f)
  {
    hide QualityKind, QualityDetails;
    KindOneLine(q);
    forall f | f in QualityDetails(q) ensures FieldOk(f) && FieldOneLine(f) {
      DetailsPlain(q, f);
    }
  }

  lemma FieldsPlain(r: Reading)
    requires Printed(r)
    ensures forall f <- FieldsOf(r) :: FieldOk(f)
    ensures (forall f <- FieldsOf(r) :: FieldOneLine(f)) <==> (r.value.Text? ==> OneLine(r.value.text))
  {
    hide QualityFields, Hex;
    QualityPlain(r.quality);
    if r.value.Raw? {
      HexOneLine(r.value.bytes);
    }
    if r.value.Text? {
      assert ("value", Quote(r.value.text)) in FieldsOf(r);
    }
  }

  /** Splitting a rendered batch gives back exactly its lines, in order, if and only if no string that
      came from the wire holds a newline. */
  lemma BatchSplitsIff(events: seq<Event>)
    requires forall r <- Readings(events) :: Printed(r)
    ensures var rs := Readings(events);
            SplitLines(Joined(Lines(rs))) == Lines(rs) <==> forall r <- rs :: NoNewline(r)
  {
    hide LineText, FieldsOf, Joined, SplitLines, OneLine, NoNewline;
    var rs := Readings(events);
    var lines := Lines(rs);
    forall i | 0 <= i < |rs| ensures lines[i] != "" && (OneLine(lines[i]) <==> NoNewline(rs[i])) {
      LineNotEmpty(LineOf(rs[i]));
      ReadingOneLine(rs[i]);
    }
    SplitIff(lines);
    assert (forall l <- lines :: OneLine(l)) <==> (forall i :: 0 <= i < |rs| ==> OneLine(lines[i]));
  }

  lemma ReadingOneLine(r: Reading)
    requires Printed(r)
    ensures OneLine(LineText(LineOf(r))) <==> NoNewline(r)
  {
    hide LineText, FieldsOf, OneLine, FieldOneLine, TagOneLine, FieldOk;
    FieldsPlain(r);
    LineOneLine(LineOf(r));
  }

  /** The reading behind every line of a batch is recovered from the text: measurement, ordered tags,
      fields and timestamp. */
  lemma BatchRoundTrip(events: seq<Event>, i: nat)
    requires i < |Readings(events)|
    requires forall r <- Readings(events) :: Printed(r) && NoNewline(r) && NoFinalBackslash(r)
    ensures var rs := Readings(events);
            var pieces := SplitLines(Joined(Lines(rs)));
            |pieces| == |rs| && ReadLine(pieces[i]) == Some(LineOf(rs[i]))
  {
    hide LineText, FieldsOf, Joined, SplitLines, NoNewline, ReadLine, FieldOk, TagClean, EndsInBackslash;
    var r := Readings(events)[i];
    BatchSplitsIff(events);
    FieldsPlain(r);
    LineRoundTrip(LineOf(r));
  }

  // ======== What a line does not tell ========

  /** Values whose fields look the same: equal ones, raw bytes and the text of their hex digits, an
      unsigned number and a time of as many microseconds. */
  predicate SameField(v: Value, w: Value) {
    || v == w
    || (v.Raw? && w.Text? && Hex(v.bytes) == w.text) || (v.Text? && w.Raw? && v.text == Hex(w.bytes))
    || (v.UInt? && w.DateTime? && v.n == w.us) || (v.DateTime? && w.UInt? && v.us == w.n)
  }

  lemma HexDigit(a: nat, b: nat)
    requires a < 16 && b < 16 && HEX[a] == HEX[b]
    ensures a == b
  {
  }

  lemma {:induction false} HexInjective(a: seq<byte>, b: seq<byte>)
    requires Hex(a) == Hex(b)
    ensures a == b
  {
    hide HEX;
    if a != [] && b != [] {
      var x, y := Hex(a), Hex(b);
      assert x[0] == y[0] && x[1] == y[1] && x[2..] == Hex(a[1..]) && y[2..] == Hex(b[1..]);
      HexDigit(a[0] / 16, b[0] / 16);
      HexDigit(a[0] % 16, b[0] % 16);
      HexInjective(a[1..], b[1..]);
      assert a == [a[0]] + a[1..] && b == [b[0]] + b[1..];
    }
  }

  lemma SameFieldIff(v: Value, w: Value)
    ensures ValueField(v) == ValueField(w) <==> SameField(v, w)
  {
    hide Hex;
    if v.Raw? && w.Raw? && Hex(v.bytes) == Hex(w.bytes) {
      HexInjective(v.bytes, w.bytes);
    }
  }

  lemma SameFieldsIff(r: Reading, q: Reading)
    ensures FieldsOf(r) == FieldsOf(q)
            <==> ValueField(r.value) == ValueField(q.value) && QualityFields(r.quality) == QualityFields(q.quality)
  {
    hide ValueField, QualityDetails, QualityKind;
    var a, b := FieldsOf(r), FieldsOf(q);
    var x, y := ValueField(r.value), ValueField(q.value);
    assert x.Some? ==> a[0] == ("value", x.value) && a[1..] == QualityFields(r.quality);
    assert y.Some? ==> b[0] == ("value", y.value) && b[1..] == QualityFields(q.quality);
    assert x.None? ==> a == QualityFields(r.quality) && a[0].0 == "quality_kind";
    assert y.None? ==> b == QualityFields(q.quality) && b[0].0 == "quality_kind";
    assert "value"[0] != "quality_kind"[0];
  }

  /** Two readings give the same line exactly when they differ in nothing but the kind of value that a
      field does not show, and in times that give the same timestamp. */
  lemma SameLineIff(r: Reading, q: Reading)
    ensures LineOf(r) == LineOf(q)
            <==> && r.protocol == q.protocol && r.tags == q.tags && SameField(r.value, q.value)
                 && r.quality == q.quality && Timestamp(r) == Timestamp(q)
  {
    hide FieldsOf, ValueField, QualityFields, Timestamp, SameField;
    SameFieldsIff(r, q);
    SameFieldIff(r.value, q.value);
    if QualityFields(r.quality) == QualityFields(q.quality) {
      QualityRecoverable(r.quality, q.quality);
    }
  }
}
