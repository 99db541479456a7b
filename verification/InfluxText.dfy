/** The escaping, quoting and number printing of the line protocol, and a reader that undoes them. */
module InfluxText {
  import opened Bytes
  import opened Collections

  const MEASUREMENT: set<char> := {',', ' '}
  const COMPONENT: set<char> := {',', '=', ' '}

  predicate EndsInBackslash(s: string) { s != "" && s[|s| - 1] == '\\' }

  // ======== Backslash escaping ========

  function Escaped(specials: set<char>, s: string): string {
    if s == "" then "" else
    (if s[0] in specials then ['\\', s[0]] else [s[0]]) + Escaped(specials, s[1..])
  }

  method PushEscaped(line: string, specials: set<char>, s: string) returns (r: string)
    ensures r == line + Escaped(specials, s)
  {
    r := line;
    for i := 0 to |s|
      invariant r + Escaped(specials, s[i..]) == line + Escaped(specials, s)
    {
      assert s[i..][1..] == s[i + 1..];
      ghost var before := r;
      ghost var rest := Escaped(specials, s[i + 1..]);
      if s[i] in specials {
        r := r + ['\\'];
        r := r + [s[i]];
        assert r + rest == before + (['\\', s[i]] + rest);
      } else {
        r := r + [s[i]];
        assert r + rest == before + ([s[i]] + rest);
      }
    }
  }

  /** Reading a component: a backslash before a special stands for it, any other backslash for itself;
      the component ends at the first bare stop character, which is left in the remaining text. */
  function ReadUntil(specials: set<char>, stops: set<char>, s: string): (r: (string, string))
    ensures |r.1| <= |s|
    ensures r.1 != "" ==> r.1[0] in stops
  {
    if s == "" then ("", "")
    else if s[0] == '\\' && |s| > 1 && s[1] in specials then
      var (t, rest) := ReadUntil(specials, stops, s[2..]);
      ([s[1]] + t, rest)
    else if s[0] in stops then ("", s)
    else
      var (t, rest) := ReadUntil(specials, stops, s[1..]);
      ([s[0]] + t, rest)
  }

  ghost predicate Delimited(specials: set<char>, stops: set<char>, rest: string) {
    stops <= specials && '\\' !in specials && rest != "" && rest[0] in stops
  }

  lemma ReadChar(specials: set<char>, stops: set<char>, c: char, tail: string)
    ensures c in specials ==>
              var r := ReadUntil(specials, stops, tail);
              ReadUntil(specials, stops, ['\\', c] + tail) == ([c] + r.0, r.1)
    ensures c !in stops && (c == '\\' ==> tail == "" || tail[0] !in specials) ==>
              var r := ReadUntil(specials, stops, tail);
              ReadUntil(specials, stops, [c] + tail) == ([c] + r.0, r.1)
  {
    assert (['\\', c] + tail)[2..] == tail;
    assert ([c] + tail)[1..] == tail;
  }

  lemma EscapedHead(specials: set<char>, s: string, rest: string)
    requires s != ""
    ensures var tail := Escaped(specials, s[1..]) + rest;
            Escaped(specials, s) + rest == if s[0] in specials then ['\\', s[0]] + tail else [s[0]] + tail
  {
    var head := if s[0] in specials then ['\\', s[0]] else [s[0]];
    assert Escaped(specials, s) == head + Escaped(specials, s[1..]);
    hide Escaped;
    ConcatAssoc(head, Escaped(specials, s[1..]), rest);
  }

  /** One step of reading an escaped string back, when the string is not a lone backslash. */
  lemma ReadStep(specials: set<char>, stops: set<char>, s: string, rest: string)
    requires Delimited(specials, stops, rest) && s != "" && s != "\\"
    ensures var whole := ReadUntil(specials, stops, Escaped(specials, s) + rest);
            var tail := ReadUntil(specials, stops, Escaped(specials, s[1..]) + rest);
            whole == ([s[0]] + tail.0, tail.1)
  {
    hide ReadUntil, Escaped;
    EscapedHead(specials, s, rest);
    ReadChar(specials, stops, s[0], Escaped(specials, s[1..]) + rest);
    if s[0] == '\\' {
      assert s[1..] != "" by { assert |s| == 1 ==> s == "\\"; }
      EscapedHead(specials, s[1..], rest);
    }
  }

  /** Escaping is undone by reading exactly when the string does not end in a backslash: a final
      backslash would swallow the separator that follows. */
  lemma {:induction false} EscapeRoundTrip(specials: set<char>, stops: set<char>, s: string, rest: string)
    requires Delimited(specials, stops, rest)
    ensures var r := ReadUntil(specials, stops, Escaped(specials, s) + rest);
            if EndsInBackslash(s) then r.0 != s else r == (s, rest)
  {
    if s == "" {
      assert Escaped(specials, s) + rest == rest;
    } else if s == "\\" {
      assert Escaped(specials, s) == "\\" by { assert s[1..] == ""; }
      var text := "\\" + rest;
      assert ReadUntil(specials, stops, text).0[0] == rest[0];
    } else {
      ReadStep(specials, stops, s, rest);
      EscapeRoundTrip(specials, stops, s[1..], rest);
      assert s == [s[0]] + s[1..];
    }
  }

  /** Text without specials or stops is read as it stands. */
  lemma {:induction false} BareRead(stops: set<char>, s: string, rest: string)
    requires rest != "" && rest[0] in stops && forall c <- s :: c !in stops
    ensures ReadUntil({}, stops, s + rest) == (s, rest)
  {
    if s == "" {
      assert s + rest == rest;
    } else {
      BareRead(stops, s[1..], rest);
      assert (s + rest)[1..] == s[1..] + rest;
      assert s == [s[0]] + s[1..];
    }
  }

  // ======== Quoted strings ========

  const QUOTED: set<char> := {'"', '\\'}

  function Quoted(s: string): string { "\"" + Escaped(QUOTED, s) + "\"" }

  method FormatString(s: string) returns (r: string)
    ensures r == Quoted(s)
  {
    r := PushEscaped("\"", QUOTED, s);
    r := r + "\"";
  }

  /** Reading on after the opening quote, up to and over the closing one. */
  function ReadQuoted(s: string): (r: Option<(string, string)>)
    ensures r.Some? ==> |r.value.1| < |s|
  {
    if s == "" then None
    else if s[0] == '"' then Some(("", s[1..]))
    else if s[0] == '\\' && |s| > 1 && s[1] in QUOTED then
      match ReadQuoted(s[2..])
      case None => None
      case Some((t, rest)) => Some(([s[1]] + t, rest))
    else
      match ReadQuoted(s[1..])
      case None => None
      case Some((t, rest)) => Some(([s[0]] + t, rest))
  }

  /** Quoting is undone for every string, whatever it ends in. */
  lemma {:induction false} QuoteRoundTrip(s: string, rest: string)
    ensures ReadQuoted(Escaped(QUOTED, s) + "\"" + rest) == Some((s, rest))
  {
    var text := Escaped(QUOTED, s) + "\"" + rest;
    if s == "" {
      assert text == "\"" + rest;
    } else {
      QuoteRoundTrip(s[1..], rest);
      var tail := Escaped(QUOTED, s[1..]) + "\"" + rest;
      if s[0] in QUOTED {
        assert text == ['\\', s[0]] + tail;
        assert text[2..] == tail;
      } else {
        assert text == [s[0]] + tail;
        assert text[1..] == tail;
      }
      assert s == [s[0]] + s[1..];
    }
  }

  // ======== Numbers ========

  const DIGITS := "0123456789"

  predicate IsDigit(c: char) { '0' <= c <= '9' }

  function Decimal(n: nat): (s: string)
    ensures s != "" && forall c <- s :: IsDigit(c)
  {
    if n < 10 then [DIGITS[n]] else Decimal(n / 10) + [DIGITS[n % 10]]
  }

  function ReadDecimal(s: string): Option<nat> {
    if s == "" then None else
    var c := s[|s| - 1];
    if !IsDigit(c) then None
    else if |s| == 1 then Some((c as int) - ('0' as int))
    else match ReadDecimal(s[..|s| - 1])
      case None => None
      case Some(n) => Some(10 * n + ((c as int) - ('0' as int)))
  }

  lemma DigitValue(d: nat)
    requires d < 10
    ensures IsDigit(DIGITS[d]) && (DIGITS[d] as int) - ('0' as int) == d
  {
  }

  lemma {:induction false} DecimalRoundTrip(n: nat)
    ensures ReadDecimal(Decimal(n)) == Some(n)
  {
    hide DIGITS;
    DigitValue(n % 10);
    if n >= 10 {
      DecimalRoundTrip(n / 10);
      var s := Decimal(n);
      assert s[..|s| - 1] == Decimal(n / 10);
    }
  }

  function Signed(v: int): (s: string)
    ensures s != "" && forall c <- s :: IsDigit(c) || c == '-'
  {
    if v < 0 then "-" + Decimal(-v) else Decimal(v)
  }

  function ReadSigned(s: string): Option<int> {
    if s == "" then None
    else if s[0] != '-' then ReadDecimal(s)
    else match ReadDecimal(s[1..])
      case None => None
      case Some(n) => Some(0 - n)
  }

  lemma SignedRoundTrip(v: int)
    ensures ReadSigned(Signed(v)) == Some(v)
  {
    DecimalRoundTrip(if v < 0 then -v else v);
    if v < 0 {
      assert Signed(v)[1..] == Decimal(-v);
    } else {
      assert Decimal(v)[0] in Decimal(v);
    }
  }
}
