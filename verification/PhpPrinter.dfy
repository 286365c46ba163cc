/** A canonical printer for `$info` arrays, and the proof that the parser undoes it. */
module PhpPrinter {
  import opened Names
  import opened Text
  import opened PhpScanner
  import opened PhpParser

  // ----- the printer -----

  /** How to print: the kind of quotes, whether control characters are written as escape sequences,
      and whether the empty string is written as `null`. */
  datatype Style = Style(quote: char, controls: bool, nulls: bool)

  /** One character as it stands inside a literal. */
  function EscapeChar(c: char, style: Style): (r: string)
    ensures |r| == 1 || |r| == 2
  {
    if c == '\\' || c == style.quote then ['\\', c]
    else if style.controls && c == '\n' then ['\\', 'n']
    else if style.controls && c == '\t' then ['\\', 't']
    else if style.controls && c == '\r' then ['\\', 'r']
    else [c]
  }

  /** A backslash before every backslash and before every quote of the kind that delimits the literal,
      and escape sequences for control characters where the style asks for them. */
  function Escape(s: string, style: Style): string {
    if s == [] then []
    else EscapeChar(s[0], style) + Escape(s[1..], style)
  }

  function Quoted(s: string, style: Style): string {
    [style.quote] + (Escape(s, style) + [style.quote])
  }

  function Digit(n: nat): (c: char)
    requires n < 10
    ensures IsDigit(c) && DigitValue(c) == n
  {
    '0' + n as char
  }

  function PrintNat(n: nat): (s: string)
    ensures s != [] && AllDigits(s)
    ensures DigitsValue(s) == n
  {
    if n < 10 then
      [Digit(n)]
    else
      var s := PrintNat(n / 10) + [Digit(n % 10)];
      assert s[..|s| - 1] == PrintNat(n / 10);
      s
  }

  function PrintInt(n: int): string {
    if n < 0 then ['-'] + PrintNat(-n) else PrintNat(n)
  }

  function PrintValue(v: PhpValue, style: Style): string {
    match v
    case Str(s) => if style.nulls && s == "" then "null" else Quoted(s, style)
    case Int(i) => PrintInt(i)
    case Bool(b) => if b then "true" else "false"
  }

  type Entry = (string, PhpValue)

  const ARROW := " => "
  const ENTRY_END := ",\n"

  function PrintEntry(e: Entry, style: Style): string {
    Quoted(e.0, style) + (ARROW + (PrintValue(e.1, style) + ENTRY_END))
  }

  function PrintEntries(es: seq<Entry>, style: Style): string {
    if es == [] then [] else PrintEntry(es[0], style) + PrintEntries(es[1..], style)
  }

  const INFO_START := "$info = ["

  function Print(es: seq<Entry>, style: Style): string {
    INFO_START + (PrintEntries(es, style) + "]")
  }

  /** Adding the entries one after the other; a later value for the same key wins. */
  function Inserted(m: map<string, PhpValue>, es: seq<Entry>): map<string, PhpValue>
    decreases |es|
  {
    if es == [] then m else Inserted(m[es[0].0 := es[0].1], es[1..])
  }

  predicate Printable(v: PhpValue) {
    v.Int? ==> I64_MIN <= v.i <= I64_MAX
  }

  // ----- numbers -----

  /** A printed integer is parsed back if it fits into 64 bits, and is rejected otherwise. */
  lemma ParsePrintedInt(n: int)
    ensures ParseI64(PrintInt(n)) == if I64_MIN <= n <= I64_MAX then Some(n) else None
  {
    hide ParseI64, DigitsValue, PrintNat;
    if n < 0 { ParseNegative(PrintNat(-n), n); } else { ParseUnsigned(PrintNat(n)); }
  }

  lemma ParseUnsigned(digits: string)
    requires digits != "" && AllDigits(digits)
    ensures ParseI64(digits) == if DigitsValue(digits) <= I64_MAX then Some(DigitsValue(digits)) else None
  {
    hide DigitsValue;
    assert IsDigit(digits[0]);
  }

  lemma ParseNegative(digits: string, n: int)
    requires digits != "" && AllDigits(digits) && n + DigitsValue(digits) == 0
    ensures ParseI64("-" + digits) == if I64_MIN <= n then Some(n) else None
  {
    hide DigitsValue;
    assert ("-" + digits)[1..] == digits;
  }

  /** A sign, or none, and the digits of a natural number with any number of zeros in front. */
  ghost predicate Writes(s: string, sign: string, digits: string, n: int) {
    && s == sign + digits && (sign == "" || sign == "+" || sign == "-")
    && digits != "" && AllDigits(digits)
    && (if sign == "-" then n + DigitsValue(digits) == 0 else n == DigitsValue(digits))
  }

  /** A string is read as an integer if and only if it writes one that fits into 64 bits. */
  lemma ParseI64Iff(s: string, n: int)
    ensures ParseI64(s) == Some(n) <==>
            I64_MIN <= n <= I64_MAX && exists sign, digits :: Writes(s, sign, digits, n)
  {
    var signed := s != "" && (s[0] == '-' || s[0] == '+');
    var sign, digits := if signed then [s[0]] else "", if signed then s[1..] else s;
    assert s == sign + digits;
    if ParseI64(s) == Some(n) {
      assert Writes(s, sign, digits, n);
    }
    if exists sign', digits' :: Writes(s, sign', digits', n) {
      var sign', digits' :| Writes(s, sign', digits', n);
      SignIsFirst(s, sign', digits', n);
      hide DigitsValue;
    }
  }

  lemma SignIsFirst(s: string, sign: string, digits: string, n: int)
    requires Writes(s, sign, digits, n)
    ensures sign == (if s[0] == '-' || s[0] == '+' then [s[0]] else "") && digits == s[|sign|..]
  {
    assert digits == s[|sign|..] && IsDigit(digits[0]);
  }

  /** Zeros in front do not count. */
  lemma {:induction false} LeadingZero(digits: string)
    requires AllDigits(digits)
    ensures AllDigits(['0'] + digits) && DigitsValue(['0'] + digits) == DigitsValue(digits)
    decreases |digits|
  {
    var z := ['0'] + digits;
    if digits == "" {
      assert z[..0] == "";
    } else {
      LeadingZero(digits[..|digits| - 1]);
      assert z[..|z| - 1] == ['0'] + digits[..|digits| - 1];
    }
  }

  lemma PrintedIntChars(n: int)
    ensures var s := PrintInt(n);
      s != [] && (IsDigit(s[0]) || s[0] == '-') && forall k :: 0 <= k < |s| ==> NumberChar(s[k])
  {
  }

  // ----- reading back one literal -----

  lemma EscapeFirst(s: string, style: Style)
    requires s != []
    ensures Escape(s, style) == EscapeChar(s[0], style) + Escape(s[1..], style)
    ensures Escape(s, style) + [style.quote] == EscapeChar(s[0], style) + (Escape(s[1..], style) + [style.quote])
  {
  }

  lemma EscapedHead(t: string, i: nat, s: string, style: Style)
    requires s != [] && At(t, i, Escape(s, style) + [style.quote])
    ensures
      var head := EscapeChar(s[0], style);
      && i + |head| <= |t| && At(t, i, head) && At(t, i + |head|, Escape(s[1..], style) + [style.quote])
      && t[i] == head[0] && t[i + |head| - 1] == head[|head| - 1]
      && |Escape(s, style)| == |head| + |Escape(s[1..], style)|
  {
    hide At, Escape;
    var head := EscapeChar(s[0], style);
    var rest := Escape(s[1..], style) + [style.quote];
    EscapeFirst(s, style);
    AtSplit(t, i, head, rest);
    AtChar(t, i, head, 0);
    AtChar(t, i, head, |head| - 1);
  }

  lemma ReadOne(t: string, i: nat, c: char, style: Style)
    requires IsQuote(style.quote)
    requires var head := EscapeChar(c, style); i + |head| <= |t| && t[i] == head[0] && t[i + |head| - 1] == head[|head| - 1]
    ensures
      var rest := ReadString(t, i + |EscapeChar(c, style)|, style.quote, false);
      ReadString(t, i, style.quote, false) == rest.(value := [c] + rest.value)
  {
  }

  lemma ReadQuote(t: string, i: nat, style: Style)
    requires At(t, i, Escape("", style) + [style.quote]) && IsQuote(style.quote)
    ensures |Escape("", style)| == 0 && i < |t| && ReadString(t, i, style.quote, false) == Literal("", i + 1, true)
  {
    AtChar(t, i, Escape("", style) + [style.quote], 0);
  }

  lemma {:induction false} ReadEscaped(t: string, i: nat, s: string, style: Style)
    requires IsQuote(style.quote) && At(t, i, Escape(s, style) + [style.quote])
    ensures ReadString(t, i, style.quote, false) == Literal(s, i + |Escape(s, style)| + 1, true)
    decreases |s|
  {
    hide *;
    if s == [] {
      ReadQuote(t, i, style);
    } else {
      EscapedHead(t, i, s, style);
      ReadOne(t, i, s[0], style);
      ReadEscaped(t, i + |EscapeChar(s[0], style)|, s[1..], style);
      assert s == [s[0]] + s[1..];
    }
  }

  lemma ScanOne(t: string, i: nat, c: char, style: Style, depth: int)
    requires IsQuote(style.quote)
    requires var head := EscapeChar(c, style); i + |head| <= |t| && t[i] == head[0] && t[i + |head| - 1] == head[|head| - 1]
    ensures ScanEnd(t, i, InString(style.quote), depth) == ScanEnd(t, i + |EscapeChar(c, style)|, InString(style.quote), depth)
  {
  }

  lemma ScanQuote(t: string, i: nat, style: Style, depth: int)
    requires At(t, i, Escape("", style) + [style.quote]) && IsQuote(style.quote)
    ensures |Escape("", style)| == 0
    ensures ScanEnd(t, i, InString(style.quote), depth) == ScanEnd(t, i + 1, Outside, depth)
  {
    AtChar(t, i, Escape("", style) + [style.quote], 0);
  }

  lemma {:induction false} ScanEscaped(t: string, i: nat, s: string, style: Style, depth: int)
    requires IsQuote(style.quote) && At(t, i, Escape(s, style) + [style.quote])
    ensures ScanEnd(t, i, InString(style.quote), depth) == ScanEnd(t, i + |Escape(s, style)| + 1, Outside, depth)
    decreases |s|
  {
    hide *;
    if s == [] {
      ScanQuote(t, i, style, depth);
    } else {
      EscapedHead(t, i, s, style);
      ScanOne(t, i, s[0], style, depth);
      ScanEscaped(t, i + |EscapeChar(s[0], style)|, s[1..], style, depth);
    }
  }

  lemma ScanQuoted(t: string, i: nat, s: string, style: Style, depth: int)
    requires IsQuote(style.quote) && At(t, i, Quoted(s, style))
    ensures ScanEnd(t, i, Outside, depth) == ScanEnd(t, i + |Quoted(s, style)|, Outside, depth)
  {
    AtSplit(t, i, [style.quote], Escape(s, style) + [style.quote]);
    AtChar(t, i, [style.quote], 0);
    ScanEscaped(t, i + 1, s, style, depth);
  }

  lemma ScanValue(t: string, i: nat, v: PhpValue, style: Style, depth: int)
    requires IsQuote(style.quote) && At(t, i, PrintValue(v, style))
    ensures ScanEnd(t, i, Outside, depth) == ScanEnd(t, i + |PrintValue(v, style)|, Outside, depth)
  {
    match v
    case Str(s) =>
      if style.nulls && s == "" {
        ScanPlain(t, i, "null", depth);
      } else {
        ScanQuoted(t, i, s, style, depth);
      }
    case Int(n) =>
      PrintedIntChars(n);
      ScanPlain(t, i, PrintInt(n), depth);
    case Bool(b) =>
      ScanPlain(t, i, PrintValue(v, style), depth);
  }

  /** The scanner passes over a printed entry without changing its depth. */
  lemma ScanEntry(t: string, i: nat, e: Entry, style: Style, depth: int)
    requires IsQuote(style.quote) && At(t, i, PrintEntry(e, style))
    ensures ScanEnd(t, i, Outside, depth) == ScanEnd(t, i + |PrintEntry(e, style)|, Outside, depth)
  {
    hide At, ScanEnd, Quoted, PrintValue;
    var key, value := Quoted(e.0, style), PrintValue(e.1, style);
    AtSplit(t, i, key, ARROW + (value + ENTRY_END));
    AtSplit(t, i + |key|, ARROW, value + ENTRY_END);
    AtSplit(t, i + |key| + |ARROW|, value, ENTRY_END);
    ScanQuoted(t, i, e.0, style, depth);
    ScanPlain(t, i + |key|, ARROW, depth);
    ScanValue(t, i + |key| + |ARROW|, e.1, style, depth);
    ScanPlain(t, i + |key| + |ARROW| + |value|, ENTRY_END, depth);
  }

  lemma {:induction false} ScanEntries(t: string, i: nat, es: seq<Entry>, style: Style, depth: int)
    requires IsQuote(style.quote) && At(t, i, PrintEntries(es, style))
    ensures ScanEnd(t, i, Outside, depth) == ScanEnd(t, i + |PrintEntries(es, style)|, Outside, depth)
    decreases |es|
  {
    hide At, ScanEnd, PrintEntry;
    if es != [] {
      var first := PrintEntry(es[0], style);
      AtSplit(t, i, first, PrintEntries(es[1..], style));
      ScanEntry(t, i, es[0], style, depth);
      ScanEntries(t, i + |first|, es[1..], style, depth);
    }
  }

  // ----- parsing back one entry -----

  /** Separators before the next token are skipped. */
  lemma {:induction false} ParseSeparators(table: CharTable, t: string, i: nat, x: string, p: Progress)
    requires At(t, i, x) && forall k :: 0 <= k < |x| ==> Separator(x[k])
    ensures ParseFrom(table, t, i, p) == ParseFrom(table, t, i + |x|, p)
    decreases |x|
  {
    if x != [] {
      assert x == [x[0]] + x[1..];
      AtSplit(t, i, [x[0]], x[1..]);
      AtChar(t, i, x, 0);
      ParseSeparators(table, t, i + 1, x[1..], p);
    }
  }

  lemma LiteralAt(t: string, i: nat, s: string, style: Style)
    requires IsQuote(style.quote) && At(t, i, Quoted(s, style))
    ensures t[i] == style.quote
    ensures ReadString(t, i + 1, style.quote, false) == Literal(s, i + |Quoted(s, style)|, true)
  {
    AtSplit(t, i, [style.quote], Escape(s, style) + [style.quote]);
    AtChar(t, i, [style.quote], 0);
    ReadEscaped(t, i + 1, s, style);
  }

  lemma ArrowAt(t: string, i: nat)
    requires At(t, i, ARROW)
    ensures ArrowAfter(t, i) == (Arrow.Arrow, i + 3)
  {
    AtChar(t, i, ARROW, 0);
    AtChar(t, i, ARROW, 1);
    AtChar(t, i, ARROW, 2);
    AtSplit(t, i, " ", "=> ");
    RunOver(t, i, " ", IsWhitespace);
  }

  lemma NoArrowAt(t: string, i: nat)
    requires At(t, i, ENTRY_END)
    ensures ArrowAfter(t, i) == (NoArrow, i)
  {
    AtChar(t, i, ENTRY_END, 0);
  }

  /** A printed key makes the key pending. */
  lemma ParseKey(table: CharTable, t: string, i: nat, key: string, style: Style, p: Progress)
    requires IsQuote(style.quote) && At(t, i, Quoted(key, style) + ARROW)
    ensures ParseFrom(table, t, i, p)
            == ParseFrom(table, t, i + |Quoted(key, style)| + |ARROW|, p.(key := Some(key)))
  {
    hide At, Quoted, ParseFrom;
    var j := i + |Quoted(key, style)|;
    AtSplit(t, i, Quoted(key, style), ARROW);
    KeyTurn(table, t, i, key, style, p);
    BlankAfterArrow(t, j);
    ParseSeparators(table, t, j + 3, " ", p.(key := Some(key)));
  }

  lemma BlankAfterArrow(t: string, j: nat)
    requires At(t, j, ARROW)
    ensures j + 4 <= |t| && At(t, j + 3, " ")
  {
    assert ARROW == " =>" + " ";
    AtSplit(t, j, " =>", " ");
  }

  lemma KeyTurn(table: CharTable, t: string, i: nat, key: string, style: Style, p: Progress)
    requires IsQuote(style.quote) && At(t, i, Quoted(key, style)) && At(t, i + |Quoted(key, style)|, ARROW)
    ensures i + |Quoted(key, style)| + 3 <= |t|
    ensures ParseFrom(table, t, i, p) == ParseFrom(table, t, i + |Quoted(key, style)| + 3, p.(key := Some(key)))
  {
    hide At, Quoted, ReadString, ArrowAfter, ParseFrom;
    LiteralAt(t, i, key, style);
    ArrowAt(t, i + |Quoted(key, style)|);
    OneTurn(table, t, i, p);
  }

  lemma ParseString(table: CharTable, t: string, i: nat, s: string, style: Style, p: Progress)
    requires IsQuote(style.quote) && At(t, i, Quoted(s, style) + ENTRY_END)
    ensures ParseFrom(table, t, i, p) == ParseFrom(table, t, i + |Quoted(s, style)|, p.Give(Str(s)))
  {
    hide At, Quoted, ReadString, ArrowAfter, ParseFrom;
    AtSplit(t, i, Quoted(s, style), ENTRY_END);
    LiteralAt(t, i, s, style);
    NoArrowAt(t, i + |Quoted(s, style)|);
    OneTurn(table, t, i, p);
  }

  lemma ParseNumber(table: CharTable, t: string, i: nat, n: int, p: Progress)
    requires I64_MIN <= n <= I64_MAX && At(t, i, PrintInt(n) + ENTRY_END)
    ensures ParseFrom(table, t, i, p) == ParseFrom(table, t, i + |PrintInt(n)|, p.Give(Int(n)))
  {
    hide At, ParseFrom, ParseI64, PrintInt, RunEnd;
    var x := PrintInt(n);
    AtSplit(t, i, x, ENTRY_END);
    AtChar(t, i + |x|, ENTRY_END, 0);
    PrintedIntChars(n);
    AtChar(t, i, x, 0);
    RunOver(t, i, x, NumberChar);
    RunText(t, i, x);
    ParsePrintedInt(n);
    OneTurn(table, t, i, p);
  }

  lemma RunText(t: string, i: nat, x: string)
    requires At(t, i, x)
    ensures i + |x| <= |t| && t[i..i + |x|] == x
  {
  }

  lemma ParseBool(table: CharTable, t: string, i: nat, b: bool, p: Progress)
    requires At(t, i, (if b then "true" else "false") + ENTRY_END)
    ensures ParseFrom(table, t, i, p) == ParseFrom(table, t, i + |if b then "true" else "false"|, p.Give(Bool(b)))
  {
    hide At, ParseFrom, ParseI64, RunEnd;
    var x := if b then "true" else "false";
    AtSplit(t, i, x, ENTRY_END);
    AtChar(t, i + |x|, ENTRY_END, 0);
    AtChar(t, i, x, 0);
    RunOver(t, i, x, table.Alphabetic);
    RunText(t, i, x);
    OneTurn(table, t, i, p);
  }

  lemma ParseNull(table: CharTable, t: string, i: nat, p: Progress)
    requires At(t, i, "null" + ENTRY_END)
    ensures ParseFrom(table, t, i, p) == ParseFrom(table, t, i + 4, p.Give(Str("")))
  {
    hide At, ParseFrom, ParseI64, RunEnd;
    AtSplit(t, i, "null", ENTRY_END);
    AtChar(t, i + 4, ENTRY_END, 0);
    AtChar(t, i, "null", 0);
    RunOver(t, i, "null", table.Alphabetic);
    RunText(t, i, "null");
    OneTurn(table, t, i, p);
  }

  lemma ParseValue(table: CharTable, t: string, i: nat, v: PhpValue, style: Style, p: Progress)
    requires IsQuote(style.quote) && Printable(v) && At(t, i, PrintValue(v, style) + ENTRY_END)
    ensures ParseFrom(table, t, i, p) == ParseFrom(table, t, i + |PrintValue(v, style)|, p.Give(v))
  {
    hide ParseFrom, ParseI64, At, Quoted, PrintInt;
    match v
    case Str(s) =>
      if style.nulls && s == "" {
        ParseNull(table, t, i, p);
      } else {
        ParseString(table, t, i, s, style, p);
      }
    case Int(n) => ParseNumber(table, t, i, n, p);
    case Bool(b) => ParseBool(table, t, i, b, p);
  }

  lemma ParseEntry(table: CharTable, t: string, i: nat, e: Entry, style: Style, m: map<string, PhpValue>)
    requires IsQuote(style.quote) && Printable(e.1) && At(t, i, PrintEntry(e, style))
    ensures ParseFrom(table, t, i, Progress(None, m))
            == ParseFrom(table, t, i + |PrintEntry(e, style)|, Progress(None, m[e.0 := e.1]))
  {
    hide ParseFrom;
    var key, value := Quoted(e.0, style), PrintValue(e.1, style);
    var j := i + |key| + |ARROW|;
    assert PrintEntry(e, style) == (key + ARROW) + (value + ENTRY_END);
    AtSplit(t, i, key + ARROW, value + ENTRY_END);
    AtSplit(t, j, value, ENTRY_END);
    ParseKey(table, t, i, e.0, style, Progress(None, m));
    ParseValue(table, t, j, e.1, style, Progress(Some(e.0), m));
    ParseSeparators(table, t, j + |value|, ENTRY_END, Progress(None, m[e.0 := e.1]));
  }

  lemma {:induction false} ParseEntries(table: CharTable, t: string, i: nat, es: seq<Entry>, style: Style,
      m: map<string, PhpValue>)
    requires IsQuote(style.quote) && (forall e :: e in es ==> Printable(e.1)) && At(t, i, PrintEntries(es, style))
    ensures ParseFrom(table, t, i, Progress(None, m))
            == ParseFrom(table, t, i + |PrintEntries(es, style)|, Progress(None, Inserted(m, es)))
    decreases |es|
  {
    hide At, ParseFrom, PrintEntry;
    if es != [] {
      var first := PrintEntry(es[0], style);
      AtSplit(t, i, first, PrintEntries(es[1..], style));
      ParseEntry(table, t, i, es[0], style, m);
      ParseEntries(table, t, i + |first|, es[1..], style, m[es[0].0 := es[0].1]);
    }
  }

  // ----- the round trip -----

  lemma {:induction false} RunInPrefix(a: string, b: string, i: nat, p: char -> bool)
    requires i <= |a| && RunEnd(a + b, i, p) < |a|
    ensures RunEnd(a, i, p) == RunEnd(a + b, i, p)
    decreases |a| - i
  {
    if i < |a| && p(a[i]) { RunInPrefix(a, b, i + 1, p); }
  }

  /** No start of an array straddles the border to a text that begins with a dollar sign. */
  lemma NoStraddle(a: string, b: string, i: nat)
    requires i < |a| && b != [] && b[0] == '$' && InfoAt(a + b, i).Some?
    ensures InfoAt(a, i).Some?
  {
    var t := a + b;
    assert t[|a|] == '$';
    if i + 5 > |a| {
      AtChar(t, i, "$info", |a| - i);
    }
    assert a[i..i + 5] == t[i..i + 5];
    var j := SkipWhitespace(t, i + 5);
    RunInPrefix(a, b, i + 5, IsWhitespace);
    RunInPrefix(a, b, j + 1, IsWhitespace);
  }

  lemma {:induction false} FoundNone(a: string, i: nat, k: nat)
    requires i <= k < |a| && FindInfo(a, i).None?
    ensures InfoAt(a, k).None?
    decreases k - i
  {
    if i < k { FoundNone(a, i + 1, k); }
  }

  lemma {:induction false} FindsFirst(t: string, i: nat, n: nat)
    requires i <= n < |t| && InfoAt(t, n).Some? && forall k :: i <= k < n ==> InfoAt(t, k) == None
    ensures FindInfo(t, i) == InfoAt(t, n)
    decreases n - i
  {
    if i < n { FindsFirst(t, i + 1, n); }
  }

  /** Any white space may stand around the equals sign. */
  lemma InfoWithBlanks(t: string, n: nat, a: string, b: string)
    requires At(t, n, "$info" + (a + ("=" + (b + "["))))
    requires forall k :: 0 <= k < |a| ==> IsWhitespace(a[k])
    requires forall k :: 0 <= k < |b| ==> IsWhitespace(b[k])
    ensures InfoAt(t, n) == Some(n + 6 + |a| + |b|)
  {
    hide At, RunEnd;
    var j := n + 5 + |a|;
    AtSplit(t, n, "$info", a + ("=" + (b + "[")));
    AtSplit(t, n + 5, a, "=" + (b + "["));
    AtSplit(t, j, "=", b + "[");
    AtSplit(t, j + 1, b, "[");
    AtChar(t, j, "=", 0);
    AtChar(t, j + 1 + |b|, "[", 0);
    RunOver(t, n + 5, a, IsWhitespace);
    RunOver(t, j + 1, b, IsWhitespace);
  }

  /** The start of an array: the name at `i`, any white space, an equals sign, any white space, and the
      bracket at `k`. */
  ghost predicate StartsArray(t: string, i: nat, k: nat) {
    i <= k < |t| && exists a, b :: AllAre(a, IsWhitespace) && AllAre(b, IsWhitespace)
                                   && t[i..k + 1] == "$info" + (a + ("=" + (b + "[")))
  }

  lemma InfoAtIff(t: string, i: nat, k: nat)
    ensures InfoAt(t, i) == Some(k) <==> StartsArray(t, i, k)
  {
    hide RunEnd;
    if StartsArray(t, i, k) {
      var a, b :| AllAre(a, IsWhitespace) && AllAre(b, IsWhitespace) && t[i..k + 1] == "$info" + (a + ("=" + (b + "[")));
      InfoWithBlanks(t, i, a, b);
    }
    if InfoAt(t, i) == Some(k) {
      var j := SkipWhitespace(t, i + 5);
      InfoParts(t, i, j, k);
      assert AllAre(t[i + 5..j], IsWhitespace) && AllAre(t[j + 1..k], IsWhitespace);
    }
  }

  lemma InfoParts(t: string, i: nat, j: nat, k: nat)
    requires At(t, i, "$info") && i + 5 <= j < k < |t| && t[j] == '=' && t[k] == '['
    ensures t[i..k + 1] == "$info" + (t[i + 5..j] + ("=" + (t[j + 1..k] + "[")))
  {
    JoinSlices(t, i, i + 5, k + 1);
    JoinSlices(t, i + 5, j, k + 1);
    JoinSlices(t, j, j + 1, k + 1);
    JoinSlices(t, j + 1, k, k + 1);
  }

  /** The first start of an array in a text is found, if there is one. */
  lemma FindInfoIff(t: string, k: nat)
    ensures FindInfo(t, 0) == Some(k) <==>
            exists i: nat :: StartsArray(t, i, k) && forall h: nat, l: nat :: h < i ==> !StartsArray(t, h, l)
    ensures FindInfo(t, 0).None? <==> forall h: nat, l: nat :: !StartsArray(t, h, l)
  {
    hide StartsArray, InfoAt, FindInfo;
    forall h: nat, l: nat ensures InfoAt(t, h) == Some(l) <==> StartsArray(t, h, l) { InfoAtIff(t, h, l); }
    var n := FirstStart(t, 0);
    forall h: nat, l: nat | h < n ensures !StartsArray(t, h, l) { assert InfoAt(t, h).None?; }
    if n < |t| { assert StartsArray(t, n, InfoAt(t, n).value); }
    forall h: nat, l: nat | StartsArray(t, h, l) ensures h < |t| { assert InfoAt(t, h) == Some(l); }
  }

  /** Where the first start from `i` on is, or the end of the text. */
  lemma {:induction false} FirstStart(t: string, i: nat) returns (n: nat)
    requires i <= |t|
    ensures i <= n <= |t| && forall h :: i <= h < n ==> InfoAt(t, h).None?
    ensures if n < |t| then InfoAt(t, n).Some? && FindInfo(t, i) == InfoAt(t, n) else FindInfo(t, i).None?
    decreases |t| - i
  {
    hide InfoAt;
    n := i;
    if i < |t| && InfoAt(t, i).None? { n := FirstStart(t, i + 1); }
  }

  lemma InfoStart(t: string, n: nat)
    requires At(t, n, INFO_START)
    ensures InfoAt(t, n) == Some(n + 8)
  {
    assert INFO_START == "$info" + (" " + ("=" + (" " + "[")));
    InfoWithBlanks(t, n, " ", " ");
  }

  /** The scanner finds the end of a printed array. */
  lemma ScanPrinted(t: string, n: nat, es: seq<Entry>, style: Style)
    requires IsQuote(style.quote) && At(t, n, Print(es, style))
    ensures ScanEnd(t, n + 8, Outside, 0) == Some(n + 9 + |PrintEntries(es, style)|)
  {
    hide At, ScanEnd, PrintEntries;
    var body := PrintEntries(es, style);
    AtSplit(t, n, INFO_START, body + "]");
    AtSplit(t, n + 9, body, "]");
    ScanBrackets(t, n, n + 9 + |body|);
    ScanEntries(t, n + 9, es, style, 1);
  }

  lemma ScanBrackets(t: string, n: nat, e: nat)
    requires At(t, n, INFO_START) && At(t, e, "]")
    ensures n + 9 <= |t| && ScanEnd(t, n + 8, Outside, 0) == ScanEnd(t, n + 9, Outside, 1)
    ensures e < |t| && ScanEnd(t, e, Outside, 1) == Some(e)
  {
    AtChar(t, n, INFO_START, 8);
    AtChar(t, e, "]", 0);
  }

  lemma NothingBefore(before: string, es: seq<Entry>, style: Style, after: string)
    requires FindInfo(before, 0).None?
    ensures forall k :: 0 <= k < |before| ==> InfoAt(before + Print(es, style) + after, k) == None
  {
    var rest := Print(es, style) + after;
    assert before + Print(es, style) + after == before + rest;
    forall k | 0 <= k < |before| ensures InfoAt(before + rest, k) == None {
      FoundNone(before, 0, k);
      if InfoAt(before + rest, k).Some? { NoStraddle(before, rest, k); }
    }
  }

  /** Printing entries as an array, in either kind of quotes, after any text without another `$info`
      array and before any text at all, and then parsing gives the entries back. */
  lemma RoundTrip(table: CharTable, before: string, es: seq<Entry>, style: Style, after: string)
    requires IsQuote(style.quote) && forall e :: e in es ==> Printable(e.1)
    requires FindInfo(before, 0).None?
    ensures ParseInfo(table, before + Print(es, style) + after) == Some(Inserted(map[], es))
  {
    hide Print;
    assert At(before + Print(es, style) + after, |before|, Print(es, style));
    NothingBefore(before, es, style, after);
    ParsesAt(table, before + Print(es, style) + after, |before|, es, style);
  }

  lemma ParsesAt(table: CharTable, t: string, n: nat, es: seq<Entry>, style: Style)
    requires IsQuote(style.quote) && (forall e :: e in es ==> Printable(e.1)) && At(t, n, Print(es, style))
    requires forall k :: 0 <= k < n ==> InfoAt(t, k) == None
    ensures ParseInfo(table, t) == Some(Inserted(map[], es))
  {
    hide InfoAt, FindInfo, ScanEnd, ParseBody, Print;
    var body := PrintEntries(es, style);
    PrintedParts(t, n, es, style);
    FindsFirst(t, 0, n);
    ScanPrinted(t, n, es, style);
    assert t[n + 9..n + 9 + |body|] == body;
    ParseWhole(table, es, style);
  }

  lemma PrintedParts(t: string, n: nat, es: seq<Entry>, style: Style)
    requires At(t, n, Print(es, style))
    ensures InfoAt(t, n) == Some(n + 8) && At(t, n + 9, PrintEntries(es, style))
  {
    var body := PrintEntries(es, style);
    AtSplit(t, n, INFO_START, body + "]");
    InfoStart(t, n);
    AtSplit(t, n + 9, body, "]");
  }

  lemma ParseWhole(table: CharTable, es: seq<Entry>, style: Style)
    requires IsQuote(style.quote) && forall e :: e in es ==> Printable(e.1)
    ensures ParseBody(table, PrintEntries(es, style)) == Inserted(map[], es)
  {
    hide PrintEntries;
    var body := PrintEntries(es, style);
    assert At(body, 0, body);
    ParseEntries(table, body, 0, es, style, map[]);
  }

  /** `es` lists the entries of `m`, each key once. */
  ghost predicate Lists(es: seq<Entry>, m: map<string, PhpValue>) {
    && (forall i, j :: 0 <= i < j < |es| ==> es[i].0 != es[j].0)
    && (forall i :: 0 <= i < |es| ==> es[i].0 in m && m[es[i].0] == es[i].1)
    && (forall k :: k in m ==> exists i :: 0 <= i < |es| && es[i].0 == k)
  }

  lemma {:induction false} InsertedLooksUp(m: map<string, PhpValue>, es: seq<Entry>, i: nat)
    requires i < |es| && forall j :: i < j < |es| ==> es[j].0 != es[i].0
    ensures es[i].0 in Inserted(m, es) && Inserted(m, es)[es[i].0] == es[i].1
    decreases |es|
  {
    var next := m[es[0].0 := es[0].1];
    if i > 0 {
      InsertedLooksUp(next, es[1..], i - 1);
    } else {
      InsertedKeeps(next, es[1..], es[0].0);
    }
  }

  lemma {:induction false} InsertedKeeps(m: map<string, PhpValue>, es: seq<Entry>, k: string)
    requires forall j :: 0 <= j < |es| ==> es[j].0 != k
    ensures k in Inserted(m, es) <==> k in m
    ensures k in m ==> Inserted(m, es)[k] == m[k]
    decreases |es|
  {
    if es != [] { InsertedKeeps(m[es[0].0 := es[0].1], es[1..], k); }
  }

  lemma ListedIsInserted(m: map<string, PhpValue>, es: seq<Entry>)
    requires Lists(es, m)
    ensures Inserted(map[], es) == m
  {
    var r := Inserted(map[], es);
    forall k ensures (k in r <==> k in m) && (k in m ==> r[k] == m[k]) {
      if k in m {
        var i :| 0 <= i < |es| && es[i].0 == k;
        InsertedLooksUp(map[], es, i);
      } else {
        InsertedKeeps(map[], es, k);
      }
    }
  }

  /** Every map of strings, 64-bit integers and booleans, printed with its entries in any order,
      is parsed back. */
  lemma RoundTripMap(table: CharTable, before: string, m: map<string, PhpValue>, es: seq<Entry>, style: Style,
      after: string)
    requires IsQuote(style.quote) && Lists(es, m) && forall k :: k in m ==> Printable(m[k])
    requires FindInfo(before, 0).None?
    ensures ParseInfo(table, before + Print(es, style) + after) == Some(m)
  {
    ListedIsInserted(m, es);
    RoundTrip(table, before, es, style, after);
  }
}
