/** What a body means that holds more than entries: every array body as a list of pieces. */
module PhpPieces {
  import opened Names
  import opened Text
  import opened Literals
  import opened PhpScanner
  import opened PhpParser
  import opened PhpPrinter
  import PhpLexers

  // ----- the pieces -----

  function CharValue(x: LitChar): char {
    if x == Slashed('n') then '\n'
    else if x == Slashed('t') then '\t'
    else if x == Slashed('r') then '\r'
    else x.c
  }

  function InsideValue(xs: seq<LitChar>): string {
    if xs == [] then "" else [CharValue(xs[0])] + InsideValue(xs[1..])
  }

  /** A quoted literal with the white space behind it. */
  datatype Quoting = Quoting(quote: char, inside: seq<LitChar>, blanks: string)

  function ShowQuoting(q: Quoting): string {
    [q.quote] + (ShowInside(q.inside) + ([q.quote] + q.blanks))
  }

  /** A key with its arrow; a literal; a literal before a lone equals sign; a run of digits and signs; a
      word; any other character. */
  datatype Piece =
    | Key(name: Quoting)
    | Text(text: Quoting)
    | Odd(text: Quoting)
    | Number(digits: string)
    | Word(word: string)
    | Mark(c: char)

  function Show(x: Piece): string {
    match x
    case Key(name) => ShowQuoting(name) + "=>"
    case Text(text) => ShowQuoting(text)
    case Odd(text) => ShowQuoting(text) + "="
    case Number(digits) => digits
    case Word(word) => word
    case Mark(c) => [c]
  }

  function ShowAll(ps: seq<Piece>): string {
    if ps == [] then "" else Show(ps[0]) + ShowAll(ps[1..])
  }

  /** The value a piece stands for, if it stands for one. */
  function ValueOf(x: Piece): Option<PhpValue> {
    match x
    case Text(text) => Some(Str(InsideValue(text.inside)))
    case Number(digits) => if ParseI64(digits).Some? then Some(Int(ParseI64(digits).value)) else None
    case Word(word) =>
      if word == "true" then Some(Bool(true))
      else if word == "false" then Some(Bool(false))
      else if word == "null" then Some(Str(""))
      else None
    case _ => None
  }

  /** The entries that are left after all pieces: a value goes to the latest key that has none yet. */
  function Meaning(ps: seq<Piece>, key: Option<string>, m: map<string, PhpValue>): map<string, PhpValue>
    decreases |ps|
  {
    if ps == [] then m
    else if ps[0].Key? then Meaning(ps[1..], Some(InsideValue(ps[0].name.inside)), m)
    else if key.Some? && ValueOf(ps[0]).Some? then Meaning(ps[1..], None, m[key.value := ValueOf(ps[0]).value])
    else Meaning(ps[1..], key, m)
  }

  // ----- where pieces end -----

  predicate QuotingOk(q: Quoting) {
    IsQuote(q.quote) && AllAre(q.blanks, IsWhitespace) && InsideOk(q.inside, q.quote)
  }

  predicate LiteralStart(c: char) {
    c == 't' || c == 'f' || c == 'n'
  }

  predicate StartsPiece(table: CharTable, c: char) {
    IsQuote(c) || IsDigit(c) || c == '-' || table.Alphabetic(c) || c == '_'
  }

  /** `rest` is the text behind the piece. */
  predicate PieceOk(table: CharTable, x: Piece, rest: string) {
    match x
    case Key(name) => QuotingOk(name)
    case Text(text) => QuotingOk(text) && NotFirst(rest, c => c == '=' || IsWhitespace(c))
    case Odd(text) => QuotingOk(text) && NotFirst(rest, c => c == '>')
    case Number(digits) =>
      && digits != "" && (IsDigit(digits[0]) || digits[0] == '-')
      && AllAre(digits, NumberChar) && NotFirst(rest, NumberChar)
    case Word(word) =>
      && word != ""
      && if LiteralStart(word[0]) then AllAre(word, c => table.Alphabetic(c)) && NotFirst(rest, c => table.Alphabetic(c))
         else (table.Alphabetic(word[0]) || word[0] == '_')
              && AllAre(word, c => table.WordChar(c)) && NotFirst(rest, c => table.WordChar(c))
    case Mark(c) => !StartsPiece(table, c)
  }

  predicate AllOk(table: CharTable, ps: seq<Piece>) {
    ps == [] || (PieceOk(table, ps[0], ShowAll(ps[1..])) && AllOk(table, ps[1..]))
  }

  // ----- parsing pieces -----

  lemma {:induction false} InsideRead(t: string, i: nat, xs: seq<LitChar>, quote: char, rest: string)
    requires i <= |t| && t[i..] == ShowInside(xs) + ([quote] + rest) && IsQuote(quote)
    requires InsideOk(xs, quote)
    ensures ReadString(t, i, quote, false) == Literal(InsideValue(xs), i + |ShowInside(xs)| + 1, true)
    decreases |xs|
  {
    if xs == [] {
      assert t[i..] == [quote] + rest;
      assert t[i] == t[i..][0];
    } else {
      InsideFirst(xs, quote);
      hide ShowInside, ShowChar, At, ReadString, InsideValue, InsideOk;
      var head, tail := ShowChar(xs[0]), ShowInside(xs[1..]) + ([quote] + rest);
      InsideParts(xs, [quote] + rest);
      SuffixParts(t, i, head, tail);
      InsideRead(t, i + |head|, xs[1..], quote, rest);
      CharRead(t, i, xs[0], quote);
    }
  }

  lemma InsideFirst(xs: seq<LitChar>, quote: char)
    requires xs != [] && InsideOk(xs, quote)
    ensures InsideOk(xs[1..], quote) && (xs[0].Plain? ==> xs[0].c != quote && xs[0].c != '\\')
    ensures InsideValue(xs) == [CharValue(xs[0])] + InsideValue(xs[1..])
    ensures |ShowInside(xs)| == |ShowChar(xs[0])| + |ShowInside(xs[1..])|
  {
  }

  lemma CharRead(t: string, i: nat, x: LitChar, quote: char)
    requires At(t, i, ShowChar(x)) && (x.Plain? ==> x.c != quote && x.c != '\\') && IsQuote(quote)
    ensures
      var rest := ReadString(t, i + |ShowChar(x)|, quote, false);
      ReadString(t, i, quote, false) == rest.(value := [CharValue(x)] + rest.value)
  {
    AtChar(t, i, ShowChar(x), 0);
    if x.Slashed? { AtChar(t, i, ShowChar(x), 1); }
  }

  /** A literal in a text: its quote, its inside, its quote and white space, one behind the other. */
  lemma QuotingStands(t: string, i: nat, q: Quoting, rest: string)
    requires i <= |t| && t[i..] == ShowQuoting(q) + rest
    ensures i < |t| && t[i] == q.quote
    ensures t[i + 1..] == ShowInside(q.inside) + ([q.quote] + (q.blanks + rest))
    ensures
      var j := i + 2 + |ShowInside(q.inside)|;
      i + |ShowQuoting(q)| == j + |q.blanks| <= |t| && t[j..] == q.blanks + rest
  {
    hide ShowInside;
    var inside, tail := ShowInside(q.inside), [q.quote] + (q.blanks + rest);
    QuotingParts(q, rest);
    SuffixParts(t, i, [q.quote], inside + tail);
    assert t[i] == t[i..][0];
    SuffixParts(t, i + 1, inside, tail);
    SuffixParts(t, i + 1 + |inside|, [q.quote], q.blanks + rest);
  }

  lemma QuotingParts(q: Quoting, rest: string)
    ensures ShowQuoting(q) + rest == [q.quote] + (ShowInside(q.inside) + ([q.quote] + (q.blanks + rest)))
    ensures |ShowQuoting(q)| == 2 + |ShowInside(q.inside)| + |q.blanks|
  {
    hide ShowInside;
    var inside := ShowInside(q.inside);
    Associate([q.quote], inside + ([q.quote] + q.blanks), rest);
    Associate(inside, [q.quote] + q.blanks, rest);
    Associate([q.quote], q.blanks, rest);
  }

  /** A literal and the white space behind it. */
  lemma QuotingRead(t: string, i: nat, q: Quoting, rest: string)
    requires i <= |t| && t[i..] == ShowQuoting(q) + rest && QuotingOk(q) && NotFirst(rest, IsWhitespace)
    ensures i < |t| && t[i] == q.quote
    ensures
      var r := ReadString(t, i + 1, q.quote, false);
      && r.value == InsideValue(q.inside) && r.closed && r.next <= |t|
      && SkipWhitespace(t, r.next) == i + |ShowQuoting(q)|
  {
    hide ReadString, RunEnd, ShowInside, InsideValue, ShowQuoting, At;
    QuotingStands(t, i, q, rest);
    InsideRead(t, i + 1, q.inside, q.quote, q.blanks + rest);
    RunRead(t, i + 2 + |ShowInside(q.inside)|, q.blanks, rest, IsWhitespace);
  }

  /** What a piece does to the pending key and the entries. */
  function After(x: Piece, p: Progress): Progress {
    if x.Key? then Progress(Some(InsideValue(x.name.inside)), p.entries)
    else if p.key.Some? && ValueOf(x).Some? then Progress(None, p.entries[p.key.value := ValueOf(x).value])
    else p
  }

  lemma KeyRead(table: CharTable, t: string, i: nat, x: Piece, rest: string, p: Progress)
    requires i <= |t| && t[i..] == Show(x) + rest && x.Key? && PieceOk(table, x, rest)
    ensures i < |t| && NextPos(table, t, i) == i + |Show(x)| && Effect(table, t, i, p) == After(x, p)
  {
    hide ReadString, RunEnd, InsideValue, ShowQuoting, At;
    var q := x.name;
    var n := |ShowQuoting(q)|;
    Associate(ShowQuoting(q), "=>", rest);
    QuotingRead(t, i, q, "=>" + rest);
    SuffixParts(t, i, ShowQuoting(q), "=>" + rest);
    SuffixParts(t, i + n, "=>", rest);
    AtChar(t, i + n, "=>", 0);
    AtChar(t, i + n, "=>", 1);
  }

  lemma OddRead(table: CharTable, t: string, i: nat, x: Piece, rest: string, p: Progress)
    requires i <= |t| && t[i..] == Show(x) + rest && x.Odd? && PieceOk(table, x, rest)
    ensures i < |t| && NextPos(table, t, i) == i + |Show(x)| && Effect(table, t, i, p) == After(x, p)
  {
    hide ReadString, RunEnd, InsideValue, ShowQuoting, At;
    var q := x.text;
    var n := |ShowQuoting(q)|;
    Associate(ShowQuoting(q), "=", rest);
    QuotingRead(t, i, q, "=" + rest);
    SuffixParts(t, i, ShowQuoting(q), "=" + rest);
    SuffixParts(t, i + n, "=", rest);
    AtChar(t, i + n, "=", 0);
  }

  lemma TextRead(table: CharTable, t: string, i: nat, x: Piece, rest: string, p: Progress)
    requires i <= |t| && t[i..] == Show(x) + rest && x.Text? && PieceOk(table, x, rest)
    ensures i < |t| && NextPos(table, t, i) == i + |Show(x)| && Effect(table, t, i, p) == After(x, p)
  {
    hide ReadString, RunEnd, InsideValue, ShowQuoting, At;
    QuotingRead(t, i, x.text, rest);
    SuffixParts(t, i, ShowQuoting(x.text), rest);
  }

  lemma NumberRead(table: CharTable, t: string, i: nat, x: Piece, rest: string, p: Progress)
    requires i <= |t| && t[i..] == Show(x) + rest && x.Number? && PieceOk(table, x, rest)
    ensures i < |t| && NextPos(table, t, i) == i + |Show(x)| && Effect(table, t, i, p) == After(x, p)
  {
    hide RunEnd, ParseI64;
    RunRead(t, i, x.digits, rest, NumberChar);
    assert t[i] == x.digits[0];
  }

  lemma LiteralWordRead(table: CharTable, t: string, i: nat, w: string, rest: string, p: Progress)
    requires i <= |t| && t[i..] == w + rest && PieceOk(table, Word(w), rest) && LiteralStart(w[0])
    ensures i < |t| && NextPos(table, t, i) == i + |w| && Effect(table, t, i, p) == After(Word(w), p)
  {
    hide RunEnd;
    SuffixParts(t, i, w, rest);
    AtChar(t, i, w, 0);
    RunRead(t, i, w, rest, table.Alphabetic);
    hide At;
  }

  lemma IdentifierRead(table: CharTable, t: string, i: nat, w: string, rest: string, p: Progress)
    requires i <= |t| && t[i..] == w + rest && PieceOk(table, Word(w), rest) && !LiteralStart(w[0])
    ensures i < |t| && NextPos(table, t, i) == i + |w| && Effect(table, t, i, p) == After(Word(w), p)
  {
    hide RunEnd;
    SuffixParts(t, i, w, rest);
    AtChar(t, i, w, 0);
    RunRead(t, i, w, rest, table.WordChar);
    hide At, AllAre, NotFirst;
    assert ValueOf(Word(w)).None?;
  }

  lemma MarkRead(table: CharTable, t: string, i: nat, x: Piece, rest: string, p: Progress)
    requires i <= |t| && t[i..] == Show(x) + rest && x.Mark? && PieceOk(table, x, rest)
    ensures i < |t| && NextPos(table, t, i) == i + |Show(x)| && Effect(table, t, i, p) == After(x, p)
  {
    assert t[i] == t[i..][0] == x.c;
  }

  lemma WordRead(table: CharTable, t: string, i: nat, w: string, rest: string, p: Progress)
    requires i <= |t| && t[i..] == w + rest && PieceOk(table, Word(w), rest)
    ensures i < |t| && NextPos(table, t, i) == i + |w| && Effect(table, t, i, p) == After(Word(w), p)
  {
    hide NextPos, Effect, After;
    if LiteralStart(w[0]) {
      LiteralWordRead(table, t, i, w, rest, p);
    } else {
      IdentifierRead(table, t, i, w, rest, p);
    }
  }

  /** One turn of the parser consumes one piece. */
  lemma PieceRead(table: CharTable, t: string, i: nat, x: Piece, rest: string, p: Progress)
    requires i <= |t| && t[i..] == Show(x) + rest && PieceOk(table, x, rest)
    ensures i < |t| && NextPos(table, t, i) == i + |Show(x)| && Effect(table, t, i, p) == After(x, p)
  {
    hide NextPos, Effect, PieceOk, After;
    match x
    case Key(_) => KeyRead(table, t, i, x, rest, p);
    case Text(_) => TextRead(table, t, i, x, rest, p);
    case Odd(_) => OddRead(table, t, i, x, rest, p);
    case Number(_) => NumberRead(table, t, i, x, rest, p);
    case Word(w) => WordRead(table, t, i, w, rest, p);
    case Mark(_) => MarkRead(table, t, i, x, rest, p);
  }

  lemma {:induction false} PiecesRead(table: CharTable, t: string, i: nat, ps: seq<Piece>, p: Progress)
    requires i <= |t| && t[i..] == ShowAll(ps) && AllOk(table, ps)
    ensures ParseFrom(table, t, i, p).entries == Meaning(ps, p.key, p.entries)
    decreases |ps|
  {
    hide PieceOk, Show, ParseFrom;
    if ps == [] {
      AllParsed(table, t, p);
    } else {
      var rest := ShowAll(ps[1..]);
      PieceRead(table, t, i, ps[0], rest, p);
      SuffixParts(t, i, Show(ps[0]), rest);
      OneTurn(table, t, i, p);
      PiecesRead(table, t, i + |Show(ps[0])|, ps[1..], After(ps[0], p));
    }
  }

  /** The parser reads a body as its pieces mean it. */
  lemma BodyMeans(table: CharTable, ps: seq<Piece>)
    requires AllOk(table, ps)
    ensures ParseBody(table, ShowAll(ps)) == Meaning(ps, None, map[])
  {
    hide ParseFrom, ShowAll, AllOk, Meaning;
    var t := ShowAll(ps);
    assert t[0..] == t;
    PiecesRead(table, t, 0, ps, Progress(None, map[]));
  }

  // ----- scanning pieces -----

  /** The bracket depth behind a piece. */
  function DepthBehind(x: Piece, depth: int): int {
    if x == Mark('[') then depth + 1 else if x == Mark(']') then depth - 1 else depth
  }

  /** At depth `depth`, brackets outside literals never close more than was opened, and all are closed. */
  predicate Balanced(ps: seq<Piece>, depth: int)
    decreases |ps|
  {
    if ps == [] then depth == 0
    else DepthBehind(ps[0], depth) >= 0 && Balanced(ps[1..], DepthBehind(ps[0], depth))
  }

  lemma CharScanned(t: string, i: nat, x: LitChar, quote: char, depth: int)
    requires At(t, i, ShowChar(x)) && (x.Plain? ==> x.c != quote && x.c != '\\') && IsQuote(quote)
    ensures ScanEnd(t, i, InString(quote), depth) == ScanEnd(t, i + |ShowChar(x)|, InString(quote), depth)
  {
    AtChar(t, i, ShowChar(x), 0);
    if x.Slashed? { AtChar(t, i, ShowChar(x), 1); }
  }

  lemma ClosingScanned(t: string, i: nat, quote: char, rest: string, depth: int)
    requires i <= |t| && t[i..] == [quote] + rest && IsQuote(quote)
    ensures i < |t| && ScanEnd(t, i, InString(quote), depth) == ScanEnd(t, i + 1, Outside, depth)
  {
    assert t[i] == t[i..][0];
  }

  lemma {:induction false} InsideScanned(t: string, i: nat, xs: seq<LitChar>, quote: char, rest: string, depth: int)
    requires i <= |t| && t[i..] == ShowInside(xs) + ([quote] + rest) && IsQuote(quote) && InsideOk(xs, quote)
    ensures i + |ShowInside(xs)| + 1 <= |t|
    ensures ScanEnd(t, i, InString(quote), depth) == ScanEnd(t, i + |ShowInside(xs)| + 1, Outside, depth)
    decreases |xs|
  {
    hide ScanEnd, ShowChar, At;
    if xs == [] {
      assert t[i..] == [quote] + rest;
      ClosingScanned(t, i, quote, rest, depth);
    } else {
      hide ShowInside;
      var head, tail := ShowChar(xs[0]), ShowInside(xs[1..]) + ([quote] + rest);
      InsideParts(xs, [quote] + rest);
      SuffixParts(t, i, head, tail);
      InsideScanned(t, i + |head|, xs[1..], quote, rest, depth);
      CharScanned(t, i, xs[0], quote, depth);
    }
  }

  lemma QuotingScanned(t: string, i: nat, q: Quoting, rest: string, depth: int)
    requires i <= |t| && t[i..] == ShowQuoting(q) + rest && QuotingOk(q)
    ensures i + |ShowQuoting(q)| <= |t|
    ensures ScanEnd(t, i, Outside, depth) == ScanEnd(t, i + |ShowQuoting(q)|, Outside, depth)
  {
    hide *;
    PartsAreOk(q);
    QuotingStands(t, i, q, rest);
    LiteralScanned(t, i, q.inside, q.blanks + rest, depth);
    PlainScanned(t, i + 2 + |ShowInside(q.inside)|, q.blanks, rest, depth);
  }

  lemma LiteralScanned(t: string, i: nat, xs: seq<LitChar>, rest: string, depth: int)
    requires i < |t| && t[i + 1..] == ShowInside(xs) + ([t[i]] + rest) && IsQuote(t[i]) && InsideOk(xs, t[i])
    ensures i + 2 + |ShowInside(xs)| <= |t|
    ensures ScanEnd(t, i, Outside, depth) == ScanEnd(t, i + 2 + |ShowInside(xs)|, Outside, depth)
  {
    hide ScanEnd, ShowInside, InsideOk, IsQuote;
    OpeningScanned(t, i, depth);
    InsideScanned(t, i + 1, xs, t[i], rest, depth);
  }

  lemma PartsAreOk(q: Quoting)
    requires QuotingOk(q)
    ensures IsQuote(q.quote) && InsideOk(q.inside, q.quote) && PhpScanner.Plain(q.blanks)
  {
    BlanksArePlain(q.blanks);
  }

  lemma BlanksArePlain(x: string)
    requires AllAre(x, IsWhitespace)
    ensures PhpScanner.Plain(x)
  {
  }

  lemma OpeningScanned(t: string, i: nat, depth: int)
    requires i < |t| && IsQuote(t[i])
    ensures ScanEnd(t, i, Outside, depth) == ScanEnd(t, i + 1, InString(t[i]), depth)
  {
  }

  lemma PlainScanned(t: string, i: nat, x: string, rest: string, depth: int)
    requires i <= |t| && t[i..] == x + rest && PhpScanner.Plain(x)
    ensures i + |x| <= |t| && ScanEnd(t, i, Outside, depth) == ScanEnd(t, i + |x|, Outside, depth)
  {
    SuffixParts(t, i, x, rest);
    ScanPlain(t, i, x, depth);
  }

  lemma MarkScanned(t: string, i: nat, c: char, rest: string, depth: int)
    requires i <= |t| && t[i..] == [c] + rest && !IsQuote(c) && DepthBehind(Mark(c), depth) >= 0
    ensures i < |t| && ScanEnd(t, i, Outside, depth + 1) == ScanEnd(t, i + 1, Outside, DepthBehind(Mark(c), depth) + 1)
  {
    assert t[i] == t[i..][0] == c;
  }

  lemma WordIsPlain(table: CharTable, w: string, rest: string)
    requires PieceOk(table, Word(w), rest)
    ensures PhpScanner.Plain(w)
  {
    forall k | 0 <= k < |w| ensures table.WordChar(w[k]) { }
  }

  lemma QuotingAndScanned(t: string, i: nat, q: Quoting, mark: string, rest: string, depth: int)
    requires i <= |t| && t[i..] == ShowQuoting(q) + mark + rest && QuotingOk(q) && PhpScanner.Plain(mark)
    ensures i + |ShowQuoting(q) + mark| <= |t|
    ensures ScanEnd(t, i, Outside, depth) == ScanEnd(t, i + |ShowQuoting(q) + mark|, Outside, depth)
  {
    hide ScanEnd, ShowQuoting, At, PhpScanner.Plain, QuotingOk;
    assert ShowQuoting(q) + mark + rest == ShowQuoting(q) + (mark + rest);
    QuotingScanned(t, i, q, mark + rest, depth);
    SuffixParts(t, i, ShowQuoting(q), mark + rest);
    PlainScanned(t, i + |ShowQuoting(q)|, mark, rest, depth);
  }

  /** Scanning passes over a piece. What follows it in the text need not be what follows it in the body. */
  lemma PieceScanned(table: CharTable, t: string, i: nat, x: Piece, rest: string, follows: string, depth: int)
    requires i <= |t| && t[i..] == Show(x) + rest && PieceOk(table, x, follows) && DepthBehind(x, depth) >= 0
    ensures i + |Show(x)| <= |t|
    ensures ScanEnd(t, i, Outside, depth + 1) == ScanEnd(t, i + |Show(x)|, Outside, DepthBehind(x, depth) + 1)
  {
    hide ScanEnd, ShowQuoting, QuotingOk;
    match x
    case Key(q) => QuotingAndScanned(t, i, q, "=>", rest, depth + 1);
    case Text(q) => QuotingScanned(t, i, q, rest, depth + 1);
    case Odd(q) => QuotingAndScanned(t, i, q, "=", rest, depth + 1);
    case Number(d) => PlainScanned(t, i, d, rest, depth + 1);
    case Word(w) =>
      WordIsPlain(table, w, follows);
      PlainScanned(t, i, w, rest, depth + 1);
    case Mark(c) => MarkScanned(t, i, c, rest, depth);
  }

  /** A closing bracket at depth zero ends the scan, before it has passed over all pieces. */
  lemma ScanEndsEarly(t: string, i: nat, rest: string)
    requires i <= |t| && t[i..] == "]" + rest
    ensures ScanEnd(t, i, Outside, 1) == Some(i)
  {
    assert t[i] == t[i..][0];
  }

  lemma ScanGoesOn(t: string, i: nat, rest: string, depth: int)
    requires i <= |t| && t[i..] == "]" + rest && depth > 0
    ensures ScanEnd(t, i, Outside, depth + 1) != Some(i)
  {
    assert t[i] == t[i..][0];
  }

  /** The scan ends behind the pieces if and only if their brackets are balanced. */
  lemma {:induction false} PiecesScanned(table: CharTable, t: string, i: nat, ps: seq<Piece>, rest: string, depth: int)
    requires i <= |t| && t[i..] == ShowAll(ps) + ("]" + rest) && AllOk(table, ps) && depth >= 0
    ensures ScanEnd(t, i, Outside, depth + 1) == Some(i + |ShowAll(ps)|) <==> Balanced(ps, depth)
    decreases |ps|
  {
    hide PieceOk, Show, ScanEnd;
    if ps == [] {
      assert t[i..] == "]" + rest;
      if depth == 0 { ScanEndsEarly(t, i, rest); } else { ScanGoesOn(t, i, rest, depth); }
    } else {
      var tail := ShowAll(ps[1..]) + ("]" + rest);
      assert t[i..] == Show(ps[0]) + tail;
      SomeShown(table, ps[0], ShowAll(ps[1..]));
      if DepthBehind(ps[0], depth) < 0 {
        BracketShown(ps[0], depth);
        ScanEndsEarly(t, i, tail);
      } else {
        PieceScanned(table, t, i, ps[0], tail, ShowAll(ps[1..]), depth);
        SuffixParts(t, i, Show(ps[0]), tail);
        PiecesScanned(table, t, i + |Show(ps[0])|, ps[1..], rest, DepthBehind(ps[0], depth));
      }
    }
  }

  lemma SomeShown(table: CharTable, x: Piece, rest: string)
    requires PieceOk(table, x, rest)
    ensures Show(x) != ""
  {
  }

  lemma BracketShown(x: Piece, depth: int)
    requires depth >= 0 && DepthBehind(x, depth) < 0
    ensures depth == 0 && x == Mark(']') && Show(x) == "]"
  {
  }

  // ----- the round trip of pieces -----

  /** An array as it stands in a file: `a` and `b` around the equals sign, and the body. */
  function ArrayText(a: string, b: string, body: string): string {
    "$info" + (a + ("=" + (b + ("[" + (body + "]")))))
  }

  lemma FirstArray(before: string, rest: string, k: nat)
    requires FindInfo(before, 0).None? && rest != "" && rest[0] == '$'
    requires InfoAt(before + rest, |before|) == Some(k)
    ensures FindInfo(before + rest, 0) == Some(k)
  {
    hide InfoAt, FindInfo;
    var t := before + rest;
    forall i | 0 <= i < |before| ensures InfoAt(t, i) == None {
      FoundNone(before, 0, i);
      if InfoAt(t, i).Some? { NoStraddle(before, rest, i); }
    }
    FindsFirst(t, 0, |before|);
  }

  lemma ArrayParts(before: string, a: string, b: string, body: string, after: string)
    ensures
      var t, head := before + ArrayText(a, b, body) + after, "$info" + (a + ("=" + (b + "[")));
      var n := |before| + |head|;
      && n <= |t| && |head| == 7 + |a| + |b| && At(t, |before|, head) && t[n - 1] == '['
      && t[n..] == body + ("]" + after) && n + |body| <= |t| && t[n..n + |body|] == body
  {
    var head := "$info" + (a + ("=" + (b + "[")));
    assert ArrayText(a, b, body) == head + (body + "]");
    var t := before + (head + (body + "]")) + after;
    assert t[|before|..|before| + |head|] == head;
  }

  lemma ArrayFound(before: string, a: string, b: string, body: string, after: string)
    requires FindInfo(before, 0).None? && AllAre(a, IsWhitespace) && AllAre(b, IsWhitespace)
    ensures FindInfo(before + ArrayText(a, b, body) + after, 0) == Some(|before| + 6 + |a| + |b|)
  {
    hide InfoAt, FindInfo, At;
    ArrayParts(before, a, b, body, after);
    var rest := ArrayText(a, b, body) + after;
    assert before + ArrayText(a, b, body) + after == before + rest;
    InfoWithBlanks(before + rest, |before|, a, b);
    FirstArray(before, rest, |before| + 6 + |a| + |b|);
  }

  /** Pieces with balanced brackets, written as an array, are parsed as they mean. */
  lemma PiecesRoundTrip(table: CharTable, before: string, a: string, b: string, ps: seq<Piece>, after: string)
    requires FindInfo(before, 0).None? && AllAre(a, IsWhitespace) && AllAre(b, IsWhitespace)
    requires AllOk(table, ps) && Balanced(ps, 0)
    ensures ParseInfo(table, before + ArrayText(a, b, ShowAll(ps)) + after) == Some(Meaning(ps, None, map[]))
  {
    hide FindInfo, ScanEnd, ParseBody, ArrayText, ShowAll, AllOk, Balanced, Meaning, At;
    var body := ShowAll(ps);
    var t, start := before + ArrayText(a, b, body) + after, |before| + 6 + |a| + |b|;
    ArrayParts(before, a, b, body, after);
    ArrayFound(before, a, b, body, after);
    BracketScanned(t, start);
    PiecesScanned(table, t, start + 1, ps, after, 0);
    BodyMeans(table, ps);
  }

  lemma BracketScanned(t: string, start: nat)
    requires start < |t| && t[start] == '['
    ensures ScanEnd(t, start, Outside, 0) == ScanEnd(t, start + 1, Outside, 1)
  {
  }

  // ----- entries with other text around their values -----

  /** A key; pieces without a value; the value, if there is one; and what follows it. */
  datatype Item = Item(key: Quoting, junk: seq<Piece>, value: Option<Piece>, trail: seq<Piece>)

  predicate KeyFree(xs: seq<Piece>) {
    forall k :: 0 <= k < |xs| ==> !xs[k].Key?
  }

  predicate Idle(xs: seq<Piece>) {
    KeyFree(xs) && forall k :: 0 <= k < |xs| ==> ValueOf(xs[k]).None?
  }

  predicate ItemOk(x: Item) {
    && Idle(x.junk) && KeyFree(x.trail)
    && if x.value.Some? then ValueOf(x.value.value).Some? else x.trail == []
  }

  function PiecesOf(items: seq<Item>): seq<Piece> {
    if items == [] then [] else
      var x := items[0];
      [Key(x.key)] + (x.junk + ((if x.value.Some? then [x.value.value] else []) + (x.trail + PiecesOf(items[1..]))))
  }

  /** The keys that have a value, with it. */
  function Given(items: seq<Item>): seq<Entry>
    requires forall k :: 0 <= k < |items| ==> ItemOk(items[k])
  {
    if items == [] then [] else
      var x := items[0];
      assert ItemOk(x);
      (if x.value.Some? then [(InsideValue(x.key.inside), ValueOf(x.value.value).value)] else []) + Given(items[1..])
  }

  lemma {:induction false} KeyFreeSkipped(xs: seq<Piece>, rest: seq<Piece>, key: Option<string>, m: map<string, PhpValue>)
    requires Idle(xs) || (KeyFree(xs) && key.None?)
    ensures Meaning(xs + rest, key, m) == Meaning(rest, key, m)
    decreases |xs|
  {
    if xs == [] {
      assert xs + rest == rest;
    } else {
      assert (xs + rest)[1..] == xs[1..] + rest && (xs + rest)[0] == xs[0];
      KeyFreeSkipped(xs[1..], rest, key, m);
    }
  }

  lemma OnePiece(x: Piece, rest: seq<Piece>, key: Option<string>, m: map<string, PhpValue>)
    ensures x.Key? ==> Meaning([x] + rest, key, m) == Meaning(rest, Some(InsideValue(x.name.inside)), m)
    ensures !x.Key? && key.Some? && ValueOf(x).Some? ==>
      Meaning([x] + rest, key, m) == Meaning(rest, None, m[key.value := ValueOf(x).value])
  {
    assert ([x] + rest)[1..] == rest;
  }

  /** A key that is still without a value makes no difference before the next key or the end. */
  lemma PendingForgotten(items: seq<Item>, key: Option<string>, m: map<string, PhpValue>)
    ensures Meaning(PiecesOf(items), key, m) == Meaning(PiecesOf(items), None, m)
  {
    if items != [] {
      assert PiecesOf(items)[0].Key?;
    }
  }

  /** Every key gets its own value, and a key without one gets none. */
  lemma {:induction false} ItemsMean(items: seq<Item>, m: map<string, PhpValue>)
    requires forall k :: 0 <= k < |items| ==> ItemOk(items[k])
    ensures Meaning(PiecesOf(items), None, m) == Inserted(m, Given(items))
    decreases |items|
  {
    hide Meaning, ValueOf;
    if items == [] {
      NoPieces(m);
    } else {
      var x, rest := items[0], PiecesOf(items[1..]);
      var name := InsideValue(x.key.inside);
      var tail := x.trail + rest;
      OnePiece(Key(x.key), x.junk + ((if x.value.Some? then [x.value.value] else []) + tail), None, m);
      KeyFreeSkipped(x.junk, (if x.value.Some? then [x.value.value] else []) + tail, Some(name), m);
      if x.value.Some? {
        var v := ValueOf(x.value.value).value;
        ValueIsNoKey(x.value.value);
        OnePiece(x.value.value, tail, Some(name), m);
        KeyFreeSkipped(x.trail, rest, None, m[name := v]);
        ItemsMean(items[1..], m[name := v]);
      } else {
        assert [] + tail == rest;
        PendingForgotten(items[1..], Some(name), m);
        ItemsMean(items[1..], m);
        assert [] + Given(items[1..]) == Given(items[1..]);
      }
    }
  }

  lemma NoPieces(m: map<string, PhpValue>)
    ensures Meaning([], None, m) == m
  {
  }

  lemma ValueIsNoKey(x: Piece)
    requires ValueOf(x).Some?
    ensures !x.Key?
  {
  }

  /** Entries with other text around their values, after leading text without a key: words, signs, nested
      brackets, numbers that are none. The entries are those without that text, and a key followed by
      nothing else gets no entry. */
  lemma LooseRoundTrip(table: CharTable, before: string, a: string, b: string, lead: seq<Piece>, items: seq<Item>,
      after: string)
    requires FindInfo(before, 0).None? && AllAre(a, IsWhitespace) && AllAre(b, IsWhitespace)
    requires KeyFree(lead) && forall k :: 0 <= k < |items| ==> ItemOk(items[k])
    requires AllOk(table, lead + PiecesOf(items)) && Balanced(lead + PiecesOf(items), 0)
    ensures ParseInfo(table, before + ArrayText(a, b, ShowAll(lead + PiecesOf(items))) + after)
            == Some(Inserted(map[], Given(items)))
  {
    hide FindInfo, ParseInfo, ArrayText, ShowAll, AllOk, Balanced, Meaning, ItemOk, PiecesOf, KeyFree;
    PiecesRoundTrip(table, before, a, b, lead + PiecesOf(items), after);
    KeyFreeSkipped(lead, PiecesOf(items), None, map[]);
    ItemsMean(items, map[]);
  }

  // ----- every array is made of pieces -----

  /** The inside of a closed literal, character by character. */
  lemma {:induction false} InsideOf(t: string, i: nat, quote: char) returns (xs: seq<LitChar>)
    requires i <= |t| && ReadString(t, i, quote, false).closed && quote != '\\'
    ensures
      var next := ReadString(t, i, quote, false).next;
      InsideOk(xs, quote) && i < next <= |t| && t[i..next] == ShowInside(xs) + [quote]
    decreases |t| - i
  {
    var next := ReadString(t, i, quote, false).next;
    if t[i] == '\\' {
      assert ReadString(t, i, quote, false).closed ==> i + 2 <= |t|;
      var rest := InsideOf(t, i + 2, quote);
      xs := [Slashed(t[i + 1])] + rest;
      ConsInside(Slashed(t[i + 1]), rest, quote);
      assert t[i..next] == ['\\', t[i + 1]] + t[i + 2..next];
    } else if t[i] == quote {
      xs := [];
      assert t[i..i + 1] == [quote];
    } else {
      var rest := InsideOf(t, i + 1, quote);
      xs := [Plain(t[i])] + rest;
      ConsInside(Plain(t[i]), rest, quote);
      assert t[i..next] == [t[i]] + t[i + 1..next];
    }
  }

  lemma RestAfter(t: string, i: nat, j: nat)
    requires i <= j <= |t|
    ensures t[i..] == t[i..j] + t[j..]
  {
  }

  /** The literal at `i` with the white space behind it. */
  lemma QuotingAt(t: string, i: nat) returns (q: Quoting)
    requires i < |t| && IsQuote(t[i]) && ReadString(t, i + 1, t[i], false).closed
    ensures
      var j := SkipWhitespace(t, ReadString(t, i + 1, t[i], false).next);
      QuotingOk(q) && t[i..j] == ShowQuoting(q)
  {
    var next := ReadString(t, i + 1, t[i], false).next;
    var j := SkipWhitespace(t, next);
    var xs := InsideOf(t, i + 1, t[i]);
    hide ReadString, ShowInside, RunEnd;
    q := Quoting(t[i], xs, t[next..j]);
    assert t[i..j] == [t[i]] + (t[i + 1..next] + t[next..j]);
  }

  /** Where a literal ends whose white space ends before `j`. */
  function EndWithSign(t: string, j: nat): nat {
    if j < |t| && t[j] == '=' then if j + 1 < |t| && t[j + 1] == '>' then j + 2 else j + 1 else j
  }

  lemma NextOfLiteral(table: CharTable, t: string, i: nat)
    requires i < |t| && IsQuote(t[i])
    ensures NextPos(table, t, i) == EndWithSign(t, SkipWhitespace(t, ReadString(t, i + 1, t[i], false).next))
  {
    hide ReadString, RunEnd;
    assert !Separator(t[i]);
  }

  lemma QuotingPiece(table: CharTable, t: string, i: nat, j: nat, q: Quoting) returns (x: Piece)
    requires i <= j <= |t| && t[i..j] == ShowQuoting(q) && QuotingOk(q) && (j < |t| ==> !IsWhitespace(t[j]))
    ensures EndWithSign(t, j) <= |t| && t[i..EndWithSign(t, j)] == Show(x)
    ensures PieceOk(table, x, t[EndWithSign(t, j)..])
  {
    hide ShowQuoting, QuotingOk;
    var end := EndWithSign(t, j);
    JoinSlices(t, i, j, end);
    if end == j + 2 {
      x := Key(q);
      assert t[j..end] == "=>";
    } else if end == j + 1 {
      x := Odd(q);
      assert t[j..end] == "=";
    } else {
      x := Text(q);
    }
  }

  lemma LiteralPiece(table: CharTable, t: string, i: nat) returns (x: Piece)
    requires i < |t| && IsQuote(t[i]) && ReadString(t, i + 1, t[i], false).closed
    ensures t[i..NextPos(table, t, i)] == Show(x) && PieceOk(table, x, t[NextPos(table, t, i)..])
  {
    var q := QuotingAt(t, i);
    NextOfLiteral(table, t, i);
    hide ReadString, ShowQuoting, QuotingOk, RunEnd, NextPos, EndWithSign, PieceOk;
    x := QuotingPiece(table, t, i, SkipWhitespace(t, ReadString(t, i + 1, t[i], false).next), q);
  }

  lemma OtherPiece(table: CharTable, t: string, i: nat) returns (x: Piece)
    requires i < |t| && !IsQuote(t[i])
    ensures t[i..NextPos(table, t, i)] == Show(x) && PieceOk(table, x, t[NextPos(table, t, i)..])
  {
    var c, j := t[i], NextPos(table, t, i);
    if IsDigit(c) || c == '-' {
      x := Number(t[i..j]);
    } else if table.Alphabetic(c) || c == '_' {
      x := Word(t[i..j]);
    } else {
      x := Mark(c);
      assert t[i..i + 1] == [c];
    }
  }

  /** A text that is outside strings at its end, from a place outside strings on. */
  lemma {:induction false} TextIsPieces(table: CharTable, t: string, i: nat) returns (ps: seq<Piece>)
    requires i <= |t| && ScanMode(t, 0, i) == Outside && ScanMode(t, 0, |t|) == Outside
    ensures t[i..] == ShowAll(ps) && AllOk(table, ps)
    decreases |t| - i
  {
    hide NextPos, PieceOk, Show;
    if i == |t| {
      ps := [];
    } else {
      PhpLexers.TurnAgrees(table, t, i);
      var j := NextPos(table, t, i);
      var x;
      if IsQuote(t[i]) { x := LiteralPiece(table, t, i); } else { x := OtherPiece(table, t, i); }
      var rest := TextIsPieces(table, t, j);
      ps := [x] + rest;
      RestAfter(t, i, j);
      assert ps[1..] == rest;
    }
  }

  /** The body of every array that is found is made of pieces, and it is parsed as they mean: there is
      nothing else that an array can hold. */
  lemma EveryArrayIsPieces(table: CharTable, content: string, start: nat, end: nat) returns (ps: seq<Piece>)
    requires FindInfo(content, 0) == Some(start) && ScanEnd(content, start, Outside, 0) == Some(end)
    ensures start < end && content[start + 1..end] == ShowAll(ps) && AllOk(table, ps)
    ensures Balanced(ps, 0) && ParseInfo(table, content) == Some(Meaning(ps, None, map[]))
  {
    hide AllOk, ShowAll, Meaning, ParseBody, FindInfo, Balanced, ScanEnd;
    var lo := start + 1;
    var body := content[lo..end];
    BracketOutside(content, start, end);
    ModeOfPart(content, start, lo, end, |body|);
    ps := TextIsPieces(table, body, 0);
    assert body[0..] == body;
    BodyMeans(table, ps);
    assert content[lo..] == body + ("]" + content[end + 1..]);
    PiecesScanned(table, content, lo, ps, content[end + 1..], 0);
  }

  // ----- exactly what is parsed, and as what -----

  /** The text holds an array made of balanced pieces, and no array starts before it. */
  ghost predicate HoldsArray(table: CharTable, t: string, before: string, a: string, b: string, ps: seq<Piece>, after: string) {
    && t == before + ArrayText(a, b, ShowAll(ps)) + after
    && FindInfo(before, 0).None? && AllAre(a, IsWhitespace) && AllAre(b, IsWhitespace)
    && AllOk(table, ps) && Balanced(ps, 0)
  }

  ghost predicate MeansArray(table: CharTable, t: string, m: map<string, PhpValue>) {
    exists before, a, b, ps, after :: HoldsArray(table, t, before, a, b, ps, after) && m == Meaning(ps, None, map[])
  }

  lemma StartInPrefix(t: string, i: nat, h: nat, l: nat)
    requires i <= |t| && StartsArray(t[..i], h, l)
    ensures h < i && StartsArray(t, h, l)
  {
    assert t[..i][h..l + 1] == t[h..l + 1];
  }

  lemma NoneBefore(t: string, i: nat)
    requires i <= |t| && forall h: nat, l: nat :: h < i ==> !StartsArray(t, h, l)
    ensures FindInfo(t[..i], 0).None?
  {
    hide StartsArray, FindInfo;
    FindInfoIff(t[..i], 0);
    forall h: nat, l: nat ensures !StartsArray(t[..i], h, l) {
      if StartsArray(t[..i], h, l) { StartInPrefix(t, i, h, l); }
    }
  }

  lemma TextOfArray(t: string, i: nat, start: nat, end: nat, a: string, b: string)
    requires i <= start < end < |t| && t[end] == ']' && t[i..start + 1] == "$info" + (a + ("=" + (b + "[")))
    ensures t == t[..i] + ArrayText(a, b, t[start + 1..end]) + t[end + 1..]
  {
    hide ArrayText;
    var body := t[start + 1..end];
    HeadOfArray(a, b, body);
    JoinSlices(t, i, start + 1, end + 1);
    JoinSlices(t, start + 1, end, end + 1);
    assert t[end..end + 1] == "]";
    JoinSlices(t, 0, i, end + 1);
    assert t == t[0..end + 1] + t[end + 1..];
  }

  lemma HeadOfArray(a: string, b: string, body: string)
    ensures ArrayText(a, b, body) == "$info" + (a + ("=" + (b + "["))) + (body + "]")
  {
  }

  lemma ParsedHolds(table: CharTable, t: string)
    requires ParseInfo(table, t).Some?
    ensures MeansArray(table, t, ParseInfo(table, t).value)
  {
    hide StartsArray, FindInfo, ScanEnd, ArrayText, AllOk, Balanced, ShowAll, Meaning, ParseBody;
    var start := FindInfo(t, 0).value;
    var end := ScanEnd(t, start, Outside, 0).value;
    FindInfoIff(t, start);
    var i: nat :| StartsArray(t, i, start) && forall h: nat, l: nat :: h < i ==> !StartsArray(t, h, l);
    var a, b := BlanksOf(t, i, start);
    var ps := EveryArrayIsPieces(table, t, start, end);
    BracketOutside(t, start, end);
    NoneBefore(t, i);
    TextOfArray(t, i, start, end, a, b);
    assert HoldsArray(table, t, t[..i], a, b, ps, t[end + 1..]);
  }

  lemma BlanksOf(t: string, i: nat, k: nat) returns (a: string, b: string)
    requires StartsArray(t, i, k)
    ensures i <= k < |t| && AllAre(a, IsWhitespace) && AllAre(b, IsWhitespace)
    ensures t[i..k + 1] == "$info" + (a + ("=" + (b + "[")))
  {
    a, b :| AllAre(a, IsWhitespace) && AllAre(b, IsWhitespace) && t[i..k + 1] == "$info" + (a + ("=" + (b + "[")));
  }

  /** A file is parsed, and as these entries, if and only if it holds an array of balanced pieces that
      means them, before any other start of an array. */
  lemma ParsedIff(table: CharTable, t: string, m: map<string, PhpValue>)
    ensures ParseInfo(table, t) == Some(m) <==> MeansArray(table, t, m)
  {
    hide ParseInfo, FindInfo, ArrayText, AllOk, Balanced, ShowAll, Meaning;
    if ParseInfo(table, t) == Some(m) { ParsedHolds(table, t); }
    if MeansArray(table, t, m) {
      var before, a, b, ps, after :| HoldsArray(table, t, before, a, b, ps, after) && m == Meaning(ps, None, map[]);
      PiecesRoundTrip(table, before, a, b, ps, after);
    }
  }

  lemma BracketOutside(t: string, start: nat, end: nat)
    requires start < |t| && t[start] == '[' && ScanEnd(t, start, Outside, 0) == Some(end)
    ensures start < end < |t| && t[end] == ']' && ScanEnd(t, start + 1, Outside, 1) == Some(end)
    ensures ScanMode(t, start, start + 1) == Outside && ScanMode(t, start, end) == Outside
  {
    EndIsOutside(t, start, start, 0);
    assert ScanMode(t, start, start + 1) == StepMode(Outside, t[start]);
  }
}
