/** The body of the `$info` array: a second lexer over the slice that the scanner delimited. */
module PhpParser {
  import opened Names
  import opened Text
  import opened PhpScanner

  datatype PhpValue = Str(s: string) | Int(i: int) | Bool(b: bool)

  const I64_MIN: int := -0x8000_0000_0000_0000
  const I64_MAX: int := 0x7FFF_FFFF_FFFF_FFFF

  /** Which characters beyond ASCII are letters or numerals. */
  datatype CharTable = CharTable(letter: char -> bool, numeral: char -> bool) {
    predicate Alphabetic(c: char) {
      if c < '\U{0080}' then 'a' <= c <= 'z' || 'A' <= c <= 'Z' else letter(c)
    }

    predicate Alphanumeric(c: char) {
      Alphabetic(c) || (if c < '\U{0080}' then '0' <= c <= '9' else numeral(c))
    }

    predicate WordChar(c: char) {
      Alphanumeric(c) || c == '_'
    }
  }

  predicate IsDigit(c: char) {
    '0' <= c <= '9'
  }

  predicate NumberChar(c: char) {
    IsDigit(c) || c == '-' || c == '+'
  }

  /** The letters are the second to the 27th place in two columns of the ASCII table; numerals are the
      first ten of another. Beyond ASCII the table decides. */
  lemma AsciiWords(table: CharTable, c: char)
    ensures
      var n := c as int;
      && (n < 0x80 ==> (table.Alphabetic(c) <==> (n / 0x20 == 2 || n / 0x20 == 3) && 1 <= n % 0x20 <= 26))
      && (n < 0x80 ==> (table.Alphanumeric(c) <==> table.Alphabetic(c) || (n / 0x10 == 3 && n % 0x10 <= 9)))
      && (n >= 0x80 ==> table.Alphabetic(c) == table.letter(c))
      && (n >= 0x80 ==> table.Alphanumeric(c) == (table.letter(c) || table.numeral(c)))
      && (table.WordChar(c) <==> table.Alphanumeric(c) || n == 0x5F)
  {
  }

  // ----- numbers -----

  function DigitValue(c: char): nat
    requires IsDigit(c)
  {
    c as int - '0' as int
  }

  predicate AllDigits(s: string) {
    forall k :: 0 <= k < |s| ==> IsDigit(s[k])
  }

  function DigitsValue(s: string): nat
    requires AllDigits(s)
  {
    if s == [] then 0
    else
      assert IsDigit(s[|s| - 1]);
      10 * DigitsValue(s[..|s| - 1]) + DigitValue(s[|s| - 1])
  }

  /** Parsing a signed 64-bit integer: an optional sign, at least one digit, no overflow. */
  function ParseI64(s: string): Option<int> {
    var negative := s != [] && s[0] == '-';
    var digits := if s != [] && (s[0] == '-' || s[0] == '+') then s[1..] else s;
    if digits == [] || !AllDigits(digits) then None else
      var magnitude: int := DigitsValue(digits);
      var n := if negative then -magnitude else magnitude;
      if I64_MIN <= n <= I64_MAX then Some(n) else None
  }

  // ----- string literals -----

  function Unescape(c: char): char {
    match c
    case 'n' => '\n'
    case 't' => '\t'
    case 'r' => '\r'
    case _ => c
  }

  datatype Literal = Literal(value: string, next: nat, closed: bool)

  /** Reads a string literal whose opening quote stands before `i`. */
  function ReadString(t: string, i: nat, quote: char, escaped: bool): (r: Literal)
    requires i <= |t|
    ensures i <= r.next <= |t| && (r.closed ==> i < r.next)
    decreases |t| - i
  {
    if i == |t| then Literal([], i, false)
    else if escaped then
      var rest := ReadString(t, i + 1, quote, false);
      rest.(value := [Unescape(t[i])] + rest.value)
    else if t[i] == '\\' then ReadString(t, i + 1, quote, true)
    else if t[i] == quote then Literal([], i + 1, true)
    else
      var rest := ReadString(t, i + 1, quote, false);
      rest.(value := [t[i]] + rest.value)
  }

  // ----- one turn of the parser's loop -----

  predicate Separator(c: char) {
    c == ' ' || c == '\t' || c == '\n' || c == '\r' || c == ','
  }

  /** What follows a literal that ended before `j`: `=>`, a lone `=`, or something else. */
  datatype Arrow = Arrow | LoneEquals | NoArrow

  function ArrowAfter(t: string, i: nat): (r: (Arrow, nat))
    requires i <= |t|
    ensures i <= r.1 <= |t|
  {
    var j := SkipWhitespace(t, i);
    if j < |t| && t[j] == '=' then
      if j + 1 < |t| && t[j + 1] == '>' then (Arrow.Arrow, j + 2) else (LoneEquals, j + 1)
    else (NoArrow, j)
  }

  /** Where the loop stands after a turn that starts at `i`. */
  function NextPos(table: CharTable, t: string, i: nat): (j: nat)
    requires i < |t|
    ensures i < j <= |t|
  {
    var c := t[i];
    if Separator(c) then i + 1
    else if IsQuote(c) then ArrowAfter(t, ReadString(t, i + 1, c, false).next).1
    else if IsDigit(c) || c == '-' then RunEnd(t, i, NumberChar)
    else if c == 't' || c == 'f' || c == 'n' then RunEnd(t, i, table.Alphabetic)
    else if table.Alphabetic(c) || c == '_' then RunEnd(t, i, table.WordChar)
    else i + 1
  }

  datatype Progress = Progress(key: Option<string>, entries: map<string, PhpValue>) {
    /** Gives the pending key its value, if there is a pending key. */
    function Give(v: PhpValue): Progress {
      if key.Some? then Progress(None, entries[key.value := v]) else this
    }
  }

  function WordValue(word: string): Option<PhpValue> {
    if word == "true" then Some(Bool(true))
    else if word == "false" then Some(Bool(false))
    else if word == "null" then Some(Str(""))
    else None
  }

  /** What a turn that starts at `i` does to the pending key and the entries. */
  function Effect(table: CharTable, t: string, i: nat, p: Progress): Progress
    requires i < |t|
  {
    var c := t[i];
    if Separator(c) then p
    else if IsQuote(c) then
      var literal := ReadString(t, i + 1, c, false);
      match ArrowAfter(t, literal.next).0
      case Arrow => p.(key := Some(literal.value))
      case LoneEquals => p
      case NoArrow => p.Give(Str(literal.value))
    else if IsDigit(c) || c == '-' then
      var n := ParseI64(t[i..RunEnd(t, i, NumberChar)]);
      if n.Some? then p.Give(Int(n.value)) else p
    else if c == 't' || c == 'f' || c == 'n' then
      var v := WordValue(t[i..RunEnd(t, i, table.Alphabetic)]);
      if v.Some? then p.Give(v.value) else p
    else p
  }

  function ParseFrom(table: CharTable, t: string, i: nat, p: Progress): Progress
    requires i <= |t|
    decreases |t| - i
  {
    if i == |t| then p
    else ParseFrom(table, t, NextPos(table, t, i), Effect(table, t, i, p))
  }

  /** The entries of an array body. */
  function ParseBody(table: CharTable, body: string): map<string, PhpValue> {
    ParseFrom(table, body, 0, Progress(None, map[])).entries
  }

  // ----- the loops -----

  method ReadRun(t: string, i: nat, p: char -> bool) returns (word: string, j: nat)
    requires i <= |t|
    ensures j == RunEnd(t, i, p) && word == t[i..j]
  {
    word, j := [], i;
    while j < |t| && p(t[j])
      invariant i <= j <= |t| && word == t[i..j]
      invariant RunEnd(t, i, p) == RunEnd(t, j, p)
    {
      word := word + [t[j]];
      j := j + 1;
    }
  }

  method ReadLiteral(t: string, i: nat, quote: char) returns (value: string, j: nat)
    requires i <= |t|
    ensures value == ReadString(t, i, quote, false).value && j == ReadString(t, i, quote, false).next
  {
    value, j := [], i;
    var escaped := false;
    ghost var whole := ReadString(t, i, quote, false);
    while j < |t|
      invariant i <= j <= |t|
      invariant whole.value == value + ReadString(t, j, quote, escaped).value
      invariant whole.next == ReadString(t, j, quote, escaped).next
    {
      var cc := t[j];
      if escaped {
        value := value + [Unescape(cc)];
        escaped := false;
      } else if cc == '\\' {
        escaped := true;
      } else if cc == quote {
        j := j + 1;
        return;
      } else {
        value := value + [cc];
      }
      j := j + 1;
    }
  }

  /** The parser's loop. It consumes at least one character in every turn. */
  method ParseArrayBody(table: CharTable, body: string) returns (entries: map<string, PhpValue>)
    ensures entries == ParseBody(table, body)
  {
    hide ParseFrom, ReadString, RunEnd, ParseI64;
    entries := map[];
    var currentKey: Option<string> := None;
    var i := 0;
    while i < |body|
      invariant 0 <= i <= |body|
      invariant ParseFrom(table, body, 0, Progress(None, map[])) == ParseFrom(table, body, i, Progress(currentKey, entries))
    {
      var c := body[i];
      ghost var before, start := Progress(currentKey, entries), i;
      if Separator(c) {
        i := i + 1;
      } else if IsQuote(c) {
        var value, j := ReadLiteral(body, i + 1, c);
        var skipped, k := ReadRun(body, j, IsWhitespace);
        i := k;
        if i < |body| && body[i] == '=' {
          i := i + 1;
          if i < |body| && body[i] == '>' {
            i := i + 1;
            currentKey := Some(value);
          }
        } else if currentKey.Some? {
          entries := entries[currentKey.value := Str(value)];
          currentKey := None;
        }
      } else if IsDigit(c) || c == '-' {
        var num, j := ReadRun(body, i, NumberChar);
        i := j;
        var n := ParseI64(num);
        if n.Some? && currentKey.Some? {
          entries := entries[currentKey.value := Int(n.value)];
          currentKey := None;
        }
      } else if c == 't' || c == 'f' || c == 'n' {
        var word, j := ReadRun(body, i, table.Alphabetic);
        i := j;
        var value := WordValue(word);
        if value.Some? && currentKey.Some? {
          entries := entries[currentKey.value := value.value];
          currentKey := None;
        }
      } else if table.Alphabetic(c) || c == '_' {
        var word, j := ReadRun(body, i, table.WordChar);
        i := j;
      } else {
        i := i + 1;
      }
      assert i == NextPos(table, body, start);
      assert Progress(currentKey, entries) == Effect(table, body, start, before);
      OneTurn(table, body, start, before);
    }
    AllParsed(table, body, Progress(currentKey, entries));
  }

  lemma OneTurn(table: CharTable, t: string, i: nat, p: Progress)
    requires i < |t|
    ensures ParseFrom(table, t, i, p) == ParseFrom(table, t, NextPos(table, t, i), Effect(table, t, i, p))
  {
  }

  lemma AllParsed(table: CharTable, t: string, p: Progress)
    ensures ParseFrom(table, t, |t|, p) == p
  {
  }

  /** The `$info` array of a PHP file. */
  function ParseInfo(table: CharTable, content: string): Option<map<string, PhpValue>> {
    var start := FindInfo(content, 0);
    if start.None? then None else
      var end := ScanEnd(content, start.value, Outside, 0);
      if end.None? then None else
        Some(ParseBody(table, content[start.value + 1..end.value]))
  }

  method ParsePhpInfoArray(table: CharTable, content: string) returns (info: Option<map<string, PhpValue>>)
    ensures info == ParseInfo(table, content)
  {
    var start := FindInfo(content, 0);
    if start.None? { return None; }
    var end := ScanArray(content, start.value);
    if end.None? { return None; }
    var entries := ParseArrayBody(table, content[start.value + 1..end.value]);
    return Some(entries);
  }
}
