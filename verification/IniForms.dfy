/** Every way of writing an INI line, and what the file of a plugin with such lines means. */
module IniForms {
  import opened Names
  import opened Text
  import opened PhpScanner
  import opened PhpParser
  import opened PhpPrinter
  import opened PhpManifest

  predicate White(x: string) {
    AllAre(x, IsWhitespace)
  }

  lemma TrimWsParts(s: string) returns (a: string, d: string)
    ensures s == a + TrimWs(s) + d && White(a) && White(d) && Trimmed(TrimWs(s), IsWhitespace)
  {
    hide Trim;
    a, d := TrimParts(s, IsWhitespace);
  }

  // ----- the forms -----

  datatype Form = Bare(s: string) | Double(s: string) | Single(s: string) | Numeral(digits: string) | Truth(b: bool)

  function ShowForm(f: Form): string {
    match f
    case Bare(s) => s
    case Double(s) => "\"" + s + "\""
    case Single(s) => "'" + s + "'"
    case Numeral(digits) => digits
    case Truth(b) => if b then "true" else "false"
  }

  predicate QuotedBy(s: string, quote: char) {
    s != "" && s[0] == quote && s[|s| - 1] == quote
  }

  /** Bare text is what no other form is read as. */
  predicate FormOk(f: Form) {
    match f
    case Bare(s) =>
      && Trimmed(s, IsWhitespace) && !QuotedBy(s, '"') && !QuotedBy(s, '\'')
      && s != "true" && s != "false" && ParseI64(s).None?
    case Numeral(digits) => ParseI64(digits).Some?
    case _ => true
  }

  function FormValue(f: Form): PhpValue {
    match f
    case Bare(s) => Str(s)
    case Double(s) => Str(s)
    case Single(s) => Str(s)
    case Numeral(digits) => if ParseI64(digits).Some? then Int(ParseI64(digits).value) else Str(digits)
    case Truth(b) => Bool(b)
  }

  /** A line: a setting with any white space around key, equals sign and value, or a line that sets
      nothing. */
  datatype Line = Setting(a: string, key: string, b: string, c: string, form: Form, d: string) | Note(text: string)

  function ShowLine(x: Line): string {
    match x
    case Setting(a, key, b, c, form, d) => (a + key + b) + ("=" + (c + ShowForm(form) + d))
    case Note(text) => text
  }

  predicate CommentMark(c: char) {
    c == '#' || c == ';'
  }

  predicate KeyOk(key: string) {
    Trimmed(key, IsWhitespace) && '=' !in key && (key == "" || !CommentMark(key[0]))
  }

  /** Blank, a comment, or without an equals sign. */
  ghost predicate SetsNothing(text: string) {
    '=' !in text || exists a, rest :: text == a + rest && White(a) && (rest == "" || CommentMark(rest[0]))
  }

  ghost predicate LineOk(x: Line) {
    match x
    case Setting(a, key, b, c, form, d) => White(a) && White(b) && White(c) && White(d) && KeyOk(key) && FormOk(form)
    case Note(text) => SetsNothing(text)
  }

  function Settings(xs: seq<Line>): seq<Entry> {
    if xs == [] then []
    else (if xs[0].Setting? then [(xs[0].key, FormValue(xs[0].form))] else []) + Settings(xs[1..])
  }

  lemma FormIsTrimmed(f: Form)
    requires FormOk(f)
    ensures Trimmed(ShowForm(f), IsWhitespace)
  {
    hide IsWhitespace;
    match f
    case Bare(_) =>
    case Double(s) => QuotesEnd('"', s);
    case Single(s) => QuotesEnd('\'', s);
    case Numeral(digits) => NumeralIsTrimmed(digits);
    case Truth(_) => LettersAreNoBlanks();
  }

  lemma QuotesEnd(quote: char, s: string)
    requires IsQuote(quote)
    ensures
      var x := [quote] + s + [quote];
      Trimmed(x, IsWhitespace) && QuotedBy(x, quote) && |x| >= 2 && x[1..|x| - 1] == s
  {
  }

  lemma LettersAreNoBlanks()
    ensures !IsWhitespace('t') && !IsWhitespace('f') && !IsWhitespace('e')
  {
  }

  lemma NumeralIsTrimmed(s: string)
    requires ParseI64(s).Some?
    ensures s != "" && Trimmed(s, IsWhitespace) && (IsDigit(s[0]) || s[0] == '-' || s[0] == '+') && IsDigit(s[|s| - 1])
  {
    ParseI64Iff(s, ParseI64(s).value);
    var sign, digits :| Writes(s, sign, digits, ParseI64(s).value);
    assert s[|s| - 1] == digits[|digits| - 1] && IsDigit(digits[|digits| - 1]);
    assert sign == "" ==> s[0] == digits[0];
  }

  lemma FormRead(f: Form)
    requires FormOk(f)
    ensures IniValue(ShowForm(f)) == Some(FormValue(f))
  {
    match f
    case Bare(_) =>
    case Double(s) => QuotesEnd('"', s);
    case Single(s) => QuotesEnd('\'', s);
    case Numeral(digits) => NumeralIsTrimmed(digits);
    case Truth(_) =>
  }

  // ----- reading lines -----

  lemma {:induction false} TrimLeftBefore(f: string, y: string)
    requires y != "" && !IsWhitespace(y[0])
    ensures TrimLeft(f + y, IsWhitespace) == TrimLeft(f, IsWhitespace) + y
  {
    hide IsWhitespace;
    if f == "" {
      assert f + y == y;
    } else {
      assert (f + y)[0] == f[0] && (f + y)[1..] == f[1..] + y;
      TrimLeftBefore(f[1..], y);
    }
  }

  lemma {:induction false} TrimRightBehind(y: string, r: string)
    requires y != "" && !IsWhitespace(y[|y| - 1])
    ensures TrimRight(y + r, IsWhitespace) == y + TrimRight(r, IsWhitespace)
  {
    hide IsWhitespace;
    if r == "" {
      assert y + r == y && y + "" == y;
    } else {
      var n := |r| - 1;
      assert (y + r)[|y + r| - 1] == r[n] && (y + r)[..|y + r| - 1] == y + r[..n];
      TrimRightBehind(y, r[..n]);
    }
  }

  /** The two sides of an equals sign are trimmed on their outer ends. */
  lemma TrimAroundEquals(f: string, r: string)
    ensures TrimWs(f + ("=" + r)) == TrimLeft(f, IsWhitespace) + ("=" + TrimRight(r, IsWhitespace))
  {
    hide TrimLeft, TrimRight;
    var x := TrimLeft(f, IsWhitespace);
    assert !IsWhitespace('=');
    TrimLeftBefore(f, "=" + r);
    assert x + ("=" + r) == (x + "=") + r && (x + "=") + TrimRight(r, IsWhitespace) == x + ("=" + TrimRight(r, IsWhitespace));
    TrimRightBehind(x + "=", r);
  }

  lemma KeySide(a: string, key: string, b: string)
    requires White(a) && White(b) && Trimmed(key, IsWhitespace)
    ensures
      var x := TrimLeft(a + key + b, IsWhitespace);
      TrimWs(x) == key && (x != "" ==> key != "" && x[0] == key[0]) && (key != "" ==> x == key + b)
      && (key == "" ==> x == "")
  {
    hide IsWhitespace;
    if key == "" {
      assert a + key + b == (a + b) + "";
      TrimLeftOver(a + b, "", IsWhitespace);
      assert TrimWs("") == "";
    } else {
      assert a + key + b == a + (key + b) && "" + key + b == key + b;
      TrimLeftOver(a, key + b, IsWhitespace);
      TrimAround("", key, b, IsWhitespace);
    }
  }

  lemma ValueSide(c: string, v: string, d: string)
    requires White(c) && White(d) && Trimmed(v, IsWhitespace)
    ensures TrimWs(TrimRight(c + v + d, IsWhitespace)) == v
  {
    hide IsWhitespace;
    if v == "" {
      assert c + v + d == "" + (c + d);
      TrimRightOver("", c + d, IsWhitespace);
      assert TrimWs("") == "";
    } else {
      assert c + v + "" == c + v;
      TrimRightOver(c + v, d, IsWhitespace);
      TrimAround(c, v, "", IsWhitespace);
    }
  }

  lemma EqualsFound(x: string, y: string)
    requires '=' !in x
    ensures RunEnd(x + ("=" + y), 0, NotEquals) == |x|
  {
    var t := x + ("=" + y);
    assert t[0..] == t;
    assert At(t, 0, x) && t[|x|] == '=';
    RunOver(t, 0, x, NotEquals);
  }

  lemma {:induction false} TrimLeftKeepsOut(s: string, c: char)
    requires c !in s
    ensures c !in TrimLeft(s, IsWhitespace)
  {
    if s != "" && IsWhitespace(s[0]) { TrimLeftKeepsOut(s[1..], c); }
  }

  lemma {:induction false} WhiteHasNoEquals(x: string)
    requires White(x)
    ensures '=' !in x
  {
  }

  /** A line with an equals sign, by what stands on its two sides. */
  lemma SidesRead(f: string, r: string)
    requires '=' !in f
    ensures
      var x, y := TrimLeft(f, IsWhitespace), TrimRight(r, IsWhitespace);
      ParseIniLine(f + ("=" + r)) ==
        if x != "" && CommentMark(x[0]) then Nothing
        else if IniValue(TrimWs(y)).None? then Abort else Pair(TrimWs(x), IniValue(TrimWs(y)).value)
  {
    var x, y := TrimLeft(f, IsWhitespace), TrimRight(r, IsWhitespace);
    hide TrimLeft, TrimRight, TrimWs, IniValue, RunEnd;
    TrimAroundEquals(f, r);
    TrimLeftKeepsOut(f, '=');
    EqualsFound(x, y);
    var line := x + ("=" + y);
    assert line[..|x|] == x && line[|x| + 1..] == y;
    assert line[0] == if x != "" then x[0] else '=';
  }

  /** A setting is read as its key and its value. */
  lemma SettingRead(x: Line)
    requires x.Setting? && LineOk(x)
    ensures ParseIniLine(ShowLine(x)) == Pair(x.key, FormValue(x.form))
  {
    hide TrimLeft, TrimRight, TrimWs, IniValue, ShowForm, FormOk, FormValue, White, Trimmed;
    var v := ShowForm(x.form);
    WhiteHasNoEquals(x.a);
    WhiteHasNoEquals(x.b);
    KeySide(x.a, x.key, x.b);
    FormIsTrimmed(x.form);
    ValueSide(x.c, v, x.d);
    FormRead(x.form);
    SidesRead(x.a + x.key + x.b, x.c + v + x.d);
  }

  lemma NoteRead(text: string)
    requires SetsNothing(text)
    ensures ParseIniLine(text) == Nothing
  {
    var front, back := TrimWsParts(text);
    var line := TrimWs(text);
    if '=' !in text {
      NoEqualsFound(line, 0);
    } else {
      var a, rest :| text == a + rest && White(a) && (rest == "" || CommentMark(rest[0]));
      MarkIsTrimmed(a, rest);
    }
  }

  lemma MarkIsTrimmed(a: string, rest: string)
    requires White(a) && (rest == "" || CommentMark(rest[0]))
    ensures TrimWs(a + rest) == "" || CommentMark(TrimWs(a + rest)[0])
  {
    hide TrimRight;
    assert rest != "" ==> !IsWhitespace(rest[0]);
    hide IsWhitespace;
    TrimLeftOver(a, rest, IsWhitespace);
    var d := TrimRightParts(rest, IsWhitespace);
    var x := TrimRight(rest, IsWhitespace);
    assert x != "" ==> x[0] == (x + d)[0];
  }

  lemma {:induction false} NoEqualsFound(line: string, i: nat)
    requires '=' !in line && i <= |line|
    ensures RunEnd(line, i, NotEquals) == |line|
    decreases |line| - i
  {
    if i < |line| {
      assert line[i] in line;
      NoEqualsFound(line, i + 1);
    }
  }

  // ----- files -----

  function ShowLines(xs: seq<Line>): (r: seq<string>)
    ensures |r| == |xs| && forall k :: 0 <= k < |xs| ==> r[k] == ShowLine(xs[k])
  {
    if xs == [] then [] else [ShowLine(xs[0])] + ShowLines(xs[1..])
  }

  lemma {:induction false} LinesRead(m: map<string, PhpValue>, xs: seq<Line>)
    requires forall k :: 0 <= k < |xs| ==> LineOk(xs[k])
    ensures IniFrom(m, ShowLines(xs)) == Some(Inserted(m, Settings(xs)))
    decreases |xs|
  {
    hide ParseIniLine, ShowLine, LineOk, FormValue;
    if xs != [] {
      var x := xs[0];
      assert LineOk(x);
      assert ShowLines(xs)[1..] == ShowLines(xs[1..]);
      if x.Setting? {
        SettingIsOk(x);
        SettingRead(x);
        LinesRead(m[x.key := FormValue(x.form)], xs[1..]);
      } else {
        NoteIsOk(x);
        NoteRead(x.text);
        LinesRead(m, xs[1..]);
        assert [] + Settings(xs[1..]) == Settings(xs[1..]);
      }
    }
  }

  lemma SettingIsOk(x: Line)
    requires x.Setting? && LineOk(x)
    ensures FormOk(x.form)
  {
  }

  lemma NoteIsOk(x: Line)
    requires x.Note? && LineOk(x)
    ensures SetsNothing(x.text) && ShowLine(x) == x.text
  {
  }

  /** A file of settings in any of the forms, with any white space around key, equals sign and value, also
      a carriage return at the end of a line, and with other lines in between, is parsed back. */
  lemma FormsRoundTrip(m: map<string, PhpValue>, xs: seq<Line>)
    requires xs != [] && forall k :: 0 <= k < |xs| ==> LineOk(xs[k]) && '\n' !in ShowLine(xs[k])
    ensures IniFrom(m, Split(Join(ShowLines(xs), '\n'), '\n')) == Some(Inserted(m, Settings(xs)))
  {
    hide LineOk, ShowLine;
    SplitJoin(ShowLines(xs), '\n');
    LinesRead(m, xs);
  }

  // ----- every line is one of these -----

  lemma FormOf(v: string) returns (f: Form)
    requires Trimmed(v, IsWhitespace) && v != "\"" && v != "'"
    ensures FormOk(f) && ShowForm(f) == v
  {
    if QuotedBy(v, '"') {
      f := Double(v[1..|v| - 1]);
      assert v == "\"" + v[1..|v| - 1] + "\"";
    } else if QuotedBy(v, '\'') {
      f := Single(v[1..|v| - 1]);
      assert v == "'" + v[1..|v| - 1] + "'";
    } else if v == "true" || v == "false" {
      f := Truth(v == "true");
    } else if ParseI64(v).Some? {
      f := Numeral(v);
    } else {
      f := Bare(v);
    }
  }

  lemma FirstEquals(raw: string) returns (f: string, r: string)
    requires '=' in raw
    ensures raw == f + ("=" + r) && '=' !in f
  {
    var n := RunEnd(raw, 0, NotEquals);
    var k :| 0 <= k < |raw| && raw[k] == '=';
    assert !NotEquals(raw[k]);
    f, r := raw[..n], raw[n + 1..];
    forall l | 0 <= l < n ensures f[l] != '=' { assert NotEquals(raw[l]); }
  }

  lemma LoneQuoteAborts(v: string)
    requires v == "\"" || v == "'"
    ensures IniValue(v).None?
  {
  }

  lemma SettingOf(raw: string, f: string, r: string) returns (x: Line)
    requires !ParseIniLine(raw).Abort? && raw == f + ("=" + r) && '=' !in f
    ensures LineOk(x) && ShowLine(x) == raw
  {
    hide TrimLeft, TrimRight, TrimWs, IniValue, White, Trimmed, IsWhitespace, ParseIniLine, ShowForm, FormOk;
    var a, b := TrimWsParts(f);
    var c, d := TrimWsParts(r);
    var key, v := TrimWs(f), TrimWs(r);
    KeySide(a, key, b);
    ValueSide(c, v, d);
    SidesRead(f, r);
    if key != "" && CommentMark(key[0]) {
      x := Note(raw);
      assert raw == a + (key + b + ("=" + r));
      assert SetsNothing(raw);
    } else {
      if v == "\"" || v == "'" { LoneQuoteAborts(v); }
      var form := FormOf(v);
      x := Setting(a, key, b, c, form, d);
      assert forall k :: 0 <= k < |key| ==> key[k] == f[|a| + k];
    }
  }

  /** There are no other lines: one that does not make the parser abort is a setting in one of the forms,
      or sets nothing. */
  lemma EveryLineIs(raw: string) returns (x: Line)
    requires !ParseIniLine(raw).Abort?
    ensures LineOk(x) && ShowLine(x) == raw
  {
    if '=' in raw {
      var f, r := FirstEquals(raw);
      x := SettingOf(raw, f, r);
    } else {
      x := Note(raw);
    }
  }

  // ----- exactly what is parsed, and as what -----

  /** The text of a file with these lines. */
  ghost predicate FileOf(t: string, xs: seq<Line>) {
    && xs != [] && t == Join(ShowLines(xs), '\n')
    && forall k :: 0 <= k < |xs| ==> LineOk(xs[k]) && '\n' !in ShowLine(xs[k])
  }

  lemma {:induction false} LinesOf(lines: seq<string>) returns (xs: seq<Line>)
    requires forall k :: 0 <= k < |lines| ==> !ParseIniLine(lines[k]).Abort?
    ensures ShowLines(xs) == lines && |xs| == |lines| && forall k :: 0 <= k < |xs| ==> LineOk(xs[k])
  {
    hide ParseIniLine, LineOk, ShowLine;
    xs := [];
    if lines != [] {
      var x := EveryLineIs(lines[0]);
      var rest := LinesOf(lines[1..]);
      xs := [x] + rest;
      assert xs[1..] == rest && lines == [lines[0]] + lines[1..];
    }
  }

  /** An INI file is parsed, and as these entries, if and only if its lines are settings and lines that set
      nothing, and the settings are these entries. */
  lemma IniParsedIff(m: map<string, PhpValue>, t: string, r: map<string, PhpValue>)
    ensures IniFrom(m, Split(t, '\n')) == Some(r) <==> exists xs :: FileOf(t, xs) && r == Inserted(m, Settings(xs))
  {
    hide IniFrom, Split, Join, ParseIniLine, LineOk, ShowLine, Settings, Inserted;
    if IniFrom(m, Split(t, '\n')) == Some(r) {
      AbortsIff(m, Split(t, '\n'));
      var xs := LinesOf(Split(t, '\n'));
      JoinSplit(t, '\n');
      SplitRemoves(t, '\n');
      assert FileOf(t, xs);
      FormsRoundTrip(m, xs);
    }
    if xs :| FileOf(t, xs) && r == Inserted(m, Settings(xs)) {
      FormsRoundTrip(m, xs);
    }
  }
}
