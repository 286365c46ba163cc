/** What stripping keeps: every source text as code, comments and literals. */
module SourceFragments {
  import opened Names
  import opened Text
  import opened Literals
  import opened SourceStripper

  // ----- where something else than code opens -----

  ghost predicate RawOpensAt(t: string, i: nat, r: nat, hashes: nat) {
    && i < |t| && (r == i || (r == i + 1 && t[i] == 'b'))
    && r + hashes + 1 < |t| && t[r] == 'r' && t[r + 1 + hashes] == '"'
    && forall k :: r < k <= r + hashes ==> t[k] == '#'
  }

  ghost predicate RawOpensHere(t: string, i: nat) {
    exists r: nat, hashes: nat :: RawOpensAt(t, i, r, hashes)
  }

  /** A comment, a raw string, a string, or a single quote begins at `i`. */
  ghost predicate Opens(t: string, i: nat)
    requires i < |t|
  {
    var next := if i + 1 < |t| then t[i + 1] else ' ';
    || (t[i] == '/' && (next == '/' || next == '*'))
    || RawOpensHere(t, i)
    || ((t[i] == 'b' || t[i] == 'c') && next == '"')
    || t[i] == '"' || t[i] == '\''
  }

  lemma RawOpenIff(t: string, i: nat)
    requires i < |t|
    ensures RawOpen(t, i).Some? <==> RawOpensHere(t, i)
  {
    if RawOpensHere(t, i) {
      var r: nat, hashes: nat :| RawOpensAt(t, i, r, hashes);
      RawOpens(t, i, r, hashes);
    }
    if RawOpen(t, i).Some? {
      var j := if CharAt(t, i) == Some('b') then i + 1 else i;
      var k := RunEnd(t, j + 1, IsHash);
      assert forall m :: j < m <= j + (k - (j + 1)) ==> IsHash(t[m]);
      assert RawOpensAt(t, i, j, k - (j + 1));
    }
  }

  /** A character is kept by itself, whatever follows, exactly where nothing opens. */
  lemma CodeIsKept(t: string, i: nat)
    requires i < |t| && !Opens(t, i)
    ensures TokenAt(t, i) == Token(i + 1, true)
  {
    RawOpenIff(t, i);
  }

  /** Where something opens, the token is dropped, unless it is a lifetime. */
  lemma OpenedIsDropped(t: string, i: nat)
    requires i < |t| && Opens(t, i)
    ensures TokenAt(t, i).kept <==> t[i] == '\'' && LifetimeEnd(t, i).Some?
  {
    RawOpenIff(t, i);
    if t[i] == '\'' {
      assert !RawOpensHere(t, i);
    }
  }

  // ----- tokens depend on what follows only -----

  lemma AtShift(t: string, i: nat, k: nat, x: string)
    requires i <= k && i <= |t|
    ensures At(t, k, x) <==> At(t[i..], k - i, x)
  {
    if k + |x| <= |t| {
      assert t[k..k + |x|] == t[i..][k - i..k - i + |x|];
    }
  }

  lemma {:induction false} RunEndShift(t: string, i: nat, k: nat, p: char -> bool)
    requires i <= k <= |t|
    ensures RunEnd(t, k, p) == RunEnd(t[i..], k - i, p) + i
    decreases |t| - k
  {
    if k < |t| && p(t[k]) { RunEndShift(t, i, k + 1, p); }
  }

  lemma {:induction false} FindOrEndShift(t: string, i: nat, k: nat, x: string)
    requires i <= k <= |t|
    ensures FindOrEnd(t, k, x) == FindOrEnd(t[i..], k - i, x) + i
    decreases |t| - k
  {
    AtShift(t, i, k, x);
    hide At;
    if k < |t| { FindOrEndShift(t, i, k + 1, x); }
  }

  lemma MarksShift(t: string, i: nat, k: nat)
    requires i <= k <= |t|
    ensures At(t, k, "/*") == At(t[i..], k - i, "/*") && At(t, k, "*/") == At(t[i..], k - i, "*/")
    ensures At(t, k, "/*") || At(t, k, "*/") ==> k + 2 <= |t|
  {
    AtShift(t, i, k, "/*");
    AtShift(t, i, k, "*/");
  }

  lemma {:induction false} BlockEndShift(t: string, i: nat, k: nat, depth: nat)
    requires i <= k <= |t|
    ensures BlockEnd(t, k, depth) == BlockEnd(t[i..], k - i, depth) + i
    decreases |t| - k
  {
    hide *;
    MarksShift(t, i, k);
    BlockEndStep(t, k, depth);
    BlockEndStep(t[i..], k - i, depth);
    if k < |t| && depth > 0 {
      if At(t, k, "/*") {
        BlockEndShift(t, i, k + 2, depth + 1);
      } else if At(t, k, "*/") {
        BlockEndShift(t, i, k + 2, depth - 1);
      } else {
        BlockEndShift(t, i, k + 1, depth);
      }
    }
  }

  lemma BlockEndStep(t: string, k: nat, depth: nat)
    requires k <= |t|
    ensures
      BlockEnd(t, k, depth) ==
      if k == |t| || depth == 0 then k
      else if At(t, k, "/*") then BlockEnd(t, k + 2, depth + 1)
      else if At(t, k, "*/") then BlockEnd(t, k + 2, depth - 1)
      else BlockEnd(t, k + 1, depth)
  {
  }

  lemma {:induction false} SkipQuotedShift(t: string, i: nat, k: nat, quote: char)
    requires i <= k && i <= |t|
    ensures SkipQuoted(t, k, quote) == SkipQuoted(t[i..], k - i, quote) + i
    decreases |t| - k
  {
    if k < |t| {
      if t[k] == '\\' {
        SkipQuotedShift(t, i, k + 2, quote);
      } else if t[k] != quote {
        SkipQuotedShift(t, i, k + 1, quote);
      }
    }
  }

  lemma RawOpenShift(t: string, i: nat)
    requires i < |t|
    ensures
      var whole, part := RawOpen(t, i), RawOpen(t[i..], 0);
      && (whole.Some? <==> part.Some?)
      && (whole.Some? ==> whole.value == (part.value.0 + i, part.value.1))
  {
    var j := if CharAt(t, i) == Some('b') then i + 1 else i;
    if j + 1 <= |t| { RunEndShift(t, i, j + 1, IsHash); }
  }

  lemma LifetimeEndShift(t: string, i: nat)
    requires i < |t|
    ensures
      var whole, part := LifetimeEnd(t, i), LifetimeEnd(t[i..], 0);
      && (whole.Some? <==> part.Some?)
      && (whole.Some? ==> whole.value == part.value + i)
  {
    RunEndShift(t, i, i + 1, LifetimeChar);
  }

  lemma RawEndShift(t: string, i: nat, body: nat, hashes: nat)
    requires i <= body <= |t|
    ensures RawEnd(t, body, hashes) == RawEnd(t[i..], body - i, hashes) + i
  {
    FindOrEndShift(t, i, body, RawTerminator(hashes));
  }

  lemma TokenShift(t: string, i: nat)
    requires i < |t|
    ensures
      var part := TokenAt(t[i..], 0);
      TokenAt(t, i) == Token(part.next + i, part.kept)
  {
    hide RawOpen, RawEnd, LifetimeEnd, BlockEnd, FindOrEnd, SkipQuoted;
    RawOpenShift(t, i);
    LifetimeEndShift(t, i);
    FindOrEndShift(t, i, i + 1, "\n");
    if i + 2 <= |t| { BlockEndShift(t, i, i + 2, 1); }
    SkipQuotedShift(t, i, i + 1, '"');
    SkipQuotedShift(t, i, i + 1, '\'');
    SkipQuotedShift(t, i, i + 2, '"');
    if RawOpen(t, i).Some? {
      RawEndShift(t, i, RawOpen(t, i).value.0, RawOpen(t, i).value.1);
    }
  }

  lemma ImageShift(t: string, i: nat, k: nat)
    requires i <= k < |t|
    ensures
      var part := TokenAt(t[i..], k - i);
      TokenAt(t, k) == Token(part.next + i, part.kept) && Image(t, k) == Image(t[i..], k - i)
  {
    TokenShift(t, k);
    TokenShift(t[i..], k - i);
    assert t[i..][k - i..] == t[k..];
    var next := TokenAt(t, k).next;
    assert t[i..][k - i..next - i] == t[k..next];
    hide TokenAt, OnlyNewlines;
  }

  lemma {:induction false} StripShift(t: string, i: nat, k: nat)
    requires i <= k <= |t|
    ensures StripFrom(t, k) == StripFrom(t[i..], k - i)
    decreases |t| - k
  {
    hide TokenAt, Image;
    if k < |t| {
      ImageShift(t, i, k);
      StripShift(t, i, TokenAt(t, k).next);
    }
  }

  lemma FirstImage(x: string, rest: string)
    requires x != "" && TokenAt(x + rest, 0).next == |x|
    ensures Image(x + rest, 0) == if TokenAt(x + rest, 0).kept then x else OnlyNewlines(x)
  {
    hide TokenAt, OnlyNewlines;
    assert (x + rest)[0..|x|] == x;
  }

  lemma StripFirst(t: string)
    requires t != ""
    ensures Strip(t) == Image(t, 0) + StripFrom(t, TokenAt(t, 0).next)
  {
    hide TokenAt, Image;
  }

  lemma Behind(x: string, rest: string)
    ensures (x + rest)[|x|..] == rest
  {
  }

  lemma StripBehind(x: string, rest: string)
    ensures StripFrom(x + rest, |x|) == Strip(rest)
  {
    hide StripFrom;
    StripShift(x + rest, |x|, |x|);
    Behind(x, rest);
  }

  /** Stripping goes on behind the first token. */
  lemma StripTokenFirst(x: string, rest: string)
    requires x != "" && TokenAt(x + rest, 0).next == |x|
    ensures Strip(x + rest) == (if TokenAt(x + rest, 0).kept then x else OnlyNewlines(x)) + Strip(rest)
  {
    hide TokenAt, OnlyNewlines, Image, StripFrom, Strip;
    FirstImage(x, rest);
    StripFirst(x + rest);
    StripBehind(x, rest);
  }

  // ----- the fragments -----

  /** What a source text is made of: a character of code; a lifetime; a line comment; a block comment; a
      string or character literal; a raw string. The last three may be unclosed at the end of the text. */
  datatype Fragment =
    | Code(c: char)
    | Lifetime(name: string)
    | LineComment(text: string)
    | BlockComment(content: Inside)
    | OpenComment(text: string)
    | Literal(opening: string, inside: seq<LitChar>, quote: char)
    | OpenLiteral(opening: string, inside: seq<LitChar>, quote: char, slash: bool)
    | RawLiteral(letters: string, hashes: nat, text: string)
    | OpenRaw(letters: string, hashes: nat, text: string)

  function Hashes(n: nat): string {
    seq(n, _ => '#')
  }

  function ShowFragment(f: Fragment): string {
    match f
    case Code(c) => [c]
    case Lifetime(name) => "'" + name
    case LineComment(text) => "//" + text
    case BlockComment(content) => Show(Nested(content, Done))
    case OpenComment(text) => "/*" + text
    case Literal(opening, inside, quote) => opening + (ShowInside(inside) + [quote])
    case OpenLiteral(opening, inside, quote, slash) => opening + (ShowInside(inside) + if slash then "\\" else "")
    case RawLiteral(letters, hashes, text) => letters + (Hashes(hashes) + ("\"" + (text + ("\"" + Hashes(hashes)))))
    case OpenRaw(letters, hashes, text) => letters + (Hashes(hashes) + ("\"" + text))
  }

  predicate IsKept(f: Fragment) {
    f.Code? || f.Lifetime?
  }

  predicate OpeningOk(opening: string, quote: char) {
    || (quote == '"' && (opening == "\"" || opening == "b\"" || opening == "c\""))
    || (quote == '\'' && opening == "'")
  }

  /** A character literal is no lifetime: it does not begin with a letter, or a quote ends it right behind
      the name. */
  predicate NoLifetime(inside: seq<LitChar>, closed: bool) {
    || inside == [] || inside[0].Slashed? || !LifetimeStart(inside[0].c)
    || (closed && forall k :: 0 <= k < |inside| ==> inside[k].Plain? && LifetimeChar(inside[k].c))
  }

  /** No quote with `hashes` hashes behind it stands in `text`. */
  predicate NoneClosesRaw(text: string, hashes: nat, tail: string) {
    forall k :: 0 <= k < |text| ==> !At(text + tail, k, "\"" + Hashes(hashes))
  }

  /** `rest` is the text behind the fragment. */
  ghost predicate FragmentOk(f: Fragment, rest: string) {
    match f
    case Code(c) => !Opens([c] + rest, 0)
    case Lifetime(name) =>
      && name != "" && LifetimeStart(name[0]) && AllAre(name, LifetimeChar)
      && (rest == "" || (!LifetimeChar(rest[0]) && rest[0] != '\''))
    case LineComment(text) => '\n' !in text && (rest == "" || rest[0] == '\n')
    case BlockComment(content) => WellFormed(content, '*')
    case OpenComment(text) => rest == "" && ReadInside(text, 0).None?
    case Literal(opening, inside, quote) =>
      OpeningOk(opening, quote) && InsideOk(inside, quote) && (quote == '\'' ==> NoLifetime(inside, true))
    case OpenLiteral(opening, inside, quote, _) =>
      && rest == "" && OpeningOk(opening, quote) && InsideOk(inside, quote)
      && (quote == '\'' ==> NoLifetime(inside, false))
    case RawLiteral(letters, hashes, text) =>
      (letters == "r" || letters == "br") && NoneClosesRaw(text, hashes, "\"" + Hashes(hashes))
    case OpenRaw(letters, hashes, text) =>
      (letters == "r" || letters == "br") && rest == "" && NoneClosesRaw(text, hashes, "")
  }

  function ShowFragments(fs: seq<Fragment>): string {
    if fs == [] then "" else ShowFragment(fs[0]) + ShowFragments(fs[1..])
  }

  ghost predicate FragmentsOk(fs: seq<Fragment>) {
    fs == [] || (FragmentOk(fs[0], ShowFragments(fs[1..])) && FragmentsOk(fs[1..]))
  }

  /** As many newlines as there are in `x`. */
  function NewlinesOf(x: string): string {
    seq(CountChar(x, '\n'), _ => '\n')
  }

  /** Code and lifetimes as they are, and the newlines of everything else. */
  function KeptOf(fs: seq<Fragment>): string {
    if fs == [] then ""
    else
      var x := ShowFragment(fs[0]);
      (if IsKept(fs[0]) then x else NewlinesOf(x)) + KeptOf(fs[1..])
  }

  lemma {:induction false} OnlyNewlinesAre(x: string)
    ensures OnlyNewlines(x) == NewlinesOf(x)
  {
    if x != "" { OnlyNewlinesAre(x[1..]); }
  }

  // ----- the token of each fragment -----

  lemma CodeToken(c: char, rest: string)
    requires !Opens([c] + rest, 0)
    ensures TokenAt([c] + rest, 0) == Token(1, true)
  {
    CodeIsKept([c] + rest, 0);
  }

  lemma LifetimeToken(name: string, rest: string)
    requires FragmentOk(Lifetime(name), rest)
    ensures TokenAt("'" + name + rest, 0) == Token(1 + |name|, true)
  {
    var t := "'" + name + rest;
    assert t[1..] == name + rest;
    RunRead(t, 1, name, rest, LifetimeChar);
    assert t[0] == '\'' && t[1] == name[0];
    assert rest != "" ==> t[1 + |name|] == rest[0];
  }

  lemma LineCommentToken(text: string, rest: string)
    requires FragmentOk(LineComment(text), rest)
    ensures TokenAt("//" + text + rest, 0) == Token(2 + |text|, false)
  {
    var t := "//" + text + rest;
    assert t[0] == '/' && t[1] == '/';
    forall k | 1 <= k < 2 + |text| ensures !At(t, k, "\n") {
      assert k >= 2 ==> t[k] == text[k - 2];
      assert t[k..k + 1] == [t[k]];
    }
    if rest != "" { assert t[2 + |text|..2 + |text| + 1] == [rest[0]]; }
    FoundAt(t, 1, 2 + |text|, "\n");
  }

  lemma {:induction false} FoundAt(t: string, i: nat, j: nat, x: string)
    requires i <= j <= |t| && (forall k :: i <= k < j ==> !At(t, k, x)) && (j == |t| || At(t, j, x))
    ensures FindOrEnd(t, i, x) == j
    decreases j - i
  {
    if i < j { FoundAt(t, i + 1, j, x); }
  }

  lemma BlockCommentToken(x: Inside, rest: string)
    requires WellFormed(x, '*')
    ensures TokenAt(Show(Nested(x, Done)) + rest, 0) == Token(|Show(Nested(x, Done))|, false)
  {
    hide Show, WellFormed, TokenAt;
    var t := Show(Nested(x, Done)) + rest;
    assert t[0..|Show(Nested(x, Done))|] == Show(Nested(x, Done));
    NestedParts(t, 0, x, Done);
    NestedCommentIsOneToken(t, 0, x);
    ShowDone("", 0);
  }

  lemma OpenCommentToken(text: string)
    requires ReadInside(text, 0).None?
    ensures TokenAt("/*" + text, 0) == Token(2 + |text|, false)
  {
    hide BlockEnd, ReadInside;
    var t := "/*" + text;
    assert t[2..] == text && t[0..2] == "/*";
    CommentToken(t, 0);
    UnclosedRunsOn(text, 0, 1);
    BlockEndShift(t, 2, 2, 1);
  }

  lemma CharSkipped(t: string, i: nat, x: LitChar, quote: char)
    requires At(t, i, ShowChar(x)) && (x.Plain? ==> x.c != quote && x.c != '\\')
    ensures SkipQuoted(t, i, quote) == SkipQuoted(t, i + |ShowChar(x)|, quote)
  {
    AtChar(t, i, ShowChar(x), 0);
  }

  lemma {:induction false} InsideSkipped(t: string, i: nat, xs: seq<LitChar>, quote: char, rest: string)
    requires i <= |t| && t[i..] == ShowInside(xs) + rest && InsideOk(xs, quote) && quote != '\\'
    ensures i + |ShowInside(xs)| <= |t| && t[i + |ShowInside(xs)|..] == rest
    ensures SkipQuoted(t, i, quote) == SkipQuoted(t, i + |ShowInside(xs)|, quote)
    decreases |xs|
  {
    hide SkipQuoted, ShowChar, At;
    if xs == [] {
      assert "" + rest == rest;
    } else {
      assert InsideOk(xs[1..], quote) && (xs[0].Plain? ==> xs[0].c != quote && xs[0].c != '\\');
      hide ShowInside, InsideOk;
      var head, tail := ShowChar(xs[0]), ShowInside(xs[1..]) + rest;
      InsideParts(xs, rest);
      SuffixParts(t, i, head, tail);
      CharSkipped(t, i, xs[0], quote);
      InsideSkipped(t, i + |head|, xs[1..], quote, rest);
    }
  }

  lemma OpeningToken(opening: string, quote: char, rest: string)
    requires OpeningOk(opening, quote) && (quote == '\'' ==> LifetimeEnd(opening + rest, 0).None?)
    ensures TokenAt(opening + rest, 0) == Token(SkipQuoted(opening + rest, |opening|, quote), false)
  {
    var t := opening + rest;
    assert t[0] == opening[0] && (|opening| == 2 ==> t[1] == opening[1]);
    hide SkipQuoted, LifetimeEnd;
    assert RawOpen(t, 0).None?;
  }

  lemma NoLifetimeHere(inside: seq<LitChar>, tail: string, closed: bool)
    requires NoLifetime(inside, closed) && (closed ==> tail != "" && tail[0] == '\'')
    requires !closed ==> tail == "" || tail == "\\"
    ensures LifetimeEnd("'" + (ShowInside(inside) + tail), 0).None?
  {
    var t := "'" + (ShowInside(inside) + tail);
    assert t[1..] == ShowInside(inside) + tail;
    if inside != [] {
      InsideParts(inside, tail);
      assert t[1] == ShowChar(inside[0])[0];
      if closed && (forall k :: 0 <= k < |inside| ==> inside[k].Plain? && LifetimeChar(inside[k].c)) {
        PlainName(inside);
        RunRead(t, 1, ShowInside(inside), tail, LifetimeChar);
      }
    } else if tail != "" {
      assert t[1] == tail[0];
    }
  }

  lemma {:induction false} PlainName(inside: seq<LitChar>)
    requires forall k :: 0 <= k < |inside| ==> inside[k].Plain? && LifetimeChar(inside[k].c)
    ensures AllAre(ShowInside(inside), LifetimeChar)
  {
    if inside != [] { PlainName(inside[1..]); }
  }

  lemma LiteralToken(f: Fragment, rest: string)
    requires f.Literal? && FragmentOk(f, rest)
    ensures TokenAt(ShowFragment(f) + rest, 0) == Token(|ShowFragment(f)|, false)
  {
    hide TokenAt, LifetimeEnd, NoLifetime, InsideOk, ShowInside;
    var inside := ShowInside(f.inside);
    var tail := [f.quote] + rest;
    Associate(f.opening, inside + [f.quote], rest);
    Associate(inside, [f.quote], rest);
    var t := f.opening + (inside + tail);
    if f.quote == '\'' { NoLifetimeHere(f.inside, tail, true); }
    OpeningToken(f.opening, f.quote, inside + tail);
    Behind(f.opening, inside + tail);
    InsideSkipped(t, |f.opening|, f.inside, f.quote, tail);
    QuoteSkipped(t, |f.opening| + |inside|, f.quote, rest);
  }

  lemma QuoteSkipped(t: string, i: nat, quote: char, rest: string)
    requires i <= |t| && t[i..] == [quote] + rest && quote != '\\'
    ensures SkipQuoted(t, i, quote) == i + 1
  {
    assert t[i] == t[i..][0];
  }

  lemma OpenLiteralToken(f: Fragment)
    requires f.OpenLiteral? && FragmentOk(f, "")
    ensures TokenAt(ShowFragment(f), 0) == Token(|ShowFragment(f)|, false)
  {
    hide TokenAt, LifetimeEnd, NoLifetime, InsideOk, ShowInside, SkipQuoted;
    var inside, tail := ShowInside(f.inside), if f.slash then "\\" else "";
    var t := f.opening + (inside + tail);
    assert ShowFragment(f) == t;
    if f.quote == '\'' { NoLifetimeHere(f.inside, tail, false); }
    OpeningToken(f.opening, f.quote, inside + tail);
    Behind(f.opening, inside + tail);
    InsideSkipped(t, |f.opening|, f.inside, f.quote, tail);
    EndSkipped(t, |f.opening| + |inside|, f.quote, tail);
  }

  lemma EndSkipped(t: string, i: nat, quote: char, tail: string)
    requires i <= |t| && t[i..] == tail && (tail == "" || tail == "\\") && quote != '\\'
    ensures SkipQuoted(t, i, quote) == |t|
  {
    if tail != "" { assert t[i] == t[i..][0]; }
  }

  /** The parts of a raw string. */
  lemma RawParts(letters: string, hashes: nat, after: string)
    requires letters == "r" || letters == "br"
    ensures
      var t := letters + (Hashes(hashes) + ("\"" + after));
      var body := |letters| + hashes + 1;
      && body <= |t| && t[body..] == after && TokenAt(t, 0) == Token(RawEnd(t, body, hashes), false)
  {
    var t := letters + (Hashes(hashes) + ("\"" + after));
    var r := |letters| - 1;
    assert t[r] == 'r' && (r == 1 ==> t[0] == 'b') && t[r + 1 + hashes] == '"';
    assert forall k :: r < k <= r + hashes ==> t[k] == Hashes(hashes)[k - r - 1];
    RawOpens(t, 0, r, hashes);
    hide RawOpen, RawEnd;
  }

  lemma TerminatorText(hashes: nat)
    ensures RawTerminator(hashes) == "\"" + Hashes(hashes)
  {
  }

  lemma RawToken(f: Fragment, rest: string)
    requires (f.RawLiteral? || f.OpenRaw?) && FragmentOk(f, rest)
    ensures TokenAt(ShowFragment(f) + rest, 0) == Token(|ShowFragment(f)|, false)
  {
    var tail := if f.RawLiteral? then "\"" + Hashes(f.hashes) else "";
    RawText(f.letters, f.hashes, f.text, tail, rest);
    assert f.text + "" == f.text;
    var shown := f.letters + (Hashes(f.hashes) + ("\"" + (f.text + tail)));
    assert ShowFragment(f) == shown && NoneClosesRaw(f.text, f.hashes, tail);
    hide *;
    var t, body := shown + rest, |f.letters| + f.hashes + 1;
    RawParts(f.letters, f.hashes, f.text + tail + rest);
    RawFound(t, body, f.text, tail, rest, f.hashes);
  }

  lemma RawText(letters: string, hashes: nat, text: string, tail: string, rest: string)
    ensures
      var shown := letters + (Hashes(hashes) + ("\"" + (text + tail)));
      && shown + rest == letters + (Hashes(hashes) + ("\"" + (text + tail + rest)))
      && |shown| == |letters| + hashes + 1 + |text| + |tail|
  {
    var h := Hashes(hashes);
    assert |h| == hashes;
    hide *;
    Associate("\"", text + tail, rest);
    Associate(h, "\"" + (text + tail), rest);
    Associate(letters, h + ("\"" + (text + tail)), rest);
  }

  lemma RawFound(t: string, body: nat, text: string, tail: string, rest: string, hashes: nat)
    requires body <= |t| && t[body..] == text + tail + rest && NoneClosesRaw(text, hashes, tail)
    requires tail == "\"" + Hashes(hashes) || (tail == "" && rest == "")
    ensures RawEnd(t, body, hashes) == body + |text| + |tail|
  {
    var term := RawTerminator(hashes);
    TerminatorText(hashes);
    forall k | body <= k < body + |text| ensures !At(t, k, term) {
      TermShift(t, body, text, tail, rest, k, term);
    }
    assert tail != "" ==> t[body + |text|..body + |text| + |tail|] == tail;
    FoundAt(t, body, body + |text|, term);
  }

  lemma TermShift(t: string, body: nat, text: string, tail: string, rest: string, k: nat, term: string)
    requires body <= |t| && t[body..] == text + tail + rest && body <= k < body + |text|
    requires |term| == |tail| || (tail == "" && rest == "")
    ensures At(t, k, term) ==> At(text + tail, k - body, term)
  {
    AtShift(t, body, k, term);
    if At(t, k, term) {
      var m := k - body;
      assert (text + tail + rest)[m..m + |term|] == (text + tail)[m..m + |term|];
    }
  }

  /** A fragment is one token, and it is kept if it is code or a lifetime. */
  lemma FragmentToken(f: Fragment, rest: string)
    requires FragmentOk(f, rest)
    ensures ShowFragment(f) != ""
    ensures TokenAt(ShowFragment(f) + rest, 0) == Token(|ShowFragment(f)|, IsKept(f))
  {
    match f
    case Code(c) => CodeToken(c, rest);
    case Lifetime(name) => LifetimeToken(name, rest);
    case LineComment(text) => LineCommentToken(text, rest);
    case BlockComment(content) =>
      ShowNested(content, Done);
      BlockCommentToken(content, rest);
    case OpenComment(text) =>
      assert ShowFragment(f) + rest == "/*" + text;
      OpenCommentToken(text);
    case Literal(_, _, _) => LiteralToken(f, rest);
    case OpenLiteral(_, _, _, _) =>
      assert ShowFragment(f) + rest == ShowFragment(f);
      OpenLiteralToken(f);
    case RawLiteral(_, _, _) => RawToken(f, rest);
    case OpenRaw(_, _, _) => RawToken(f, rest);
  }

  /** Stripping keeps code and lifetimes as they are, in their order, and of everything between them the
      newlines. */
  lemma {:induction false} StripKeeps(fs: seq<Fragment>)
    requires FragmentsOk(fs)
    ensures Strip(ShowFragments(fs)) == KeptOf(fs)
  {
    hide TokenAt, ShowFragment, FragmentOk, Strip;
    if fs == [] {
      NothingToStrip();
    } else {
      var x, rest := ShowFragment(fs[0]), ShowFragments(fs[1..]);
      FragmentToken(fs[0], rest);
      StripTokenFirst(x, rest);
      OnlyNewlinesAre(x);
      StripKeeps(fs[1..]);
    }
  }

  lemma NothingToStrip()
    ensures Strip("") == ""
  {
  }

  // ----- every text is made of fragments -----

  /** What stands behind the inside of a literal: its quote, or the end of the text, maybe after a lone
      backslash. */
  function TailOf(quote: char, closed: bool, slash: bool): string {
    if closed then [quote] else if slash then "\\" else ""
  }

  /** The inside of a literal from `i` on. */
  ghost predicate IsInside(t: string, i: nat, quote: char, xs: seq<LitChar>, closed: bool, slash: bool)
    requires i <= |t|
  {
    var j := SkipQuoted(t, i, quote);
    && InsideOk(xs, quote) && i <= j && (!closed ==> j == |t|)
    && t[i..j] == ShowInside(xs) + TailOf(quote, closed, slash)
  }

  lemma InsideEnds(t: string, i: nat, quote: char) returns (closed: bool, slash: bool)
    requires i <= |t| && quote != '\\' && (i == |t| || t[i] == quote || (t[i] == '\\' && i + 1 == |t|))
    ensures IsInside(t, i, quote, [], closed, slash)
  {
    closed, slash := i < |t| && t[i] == quote, i < |t| && t[i] != quote;
    assert i < |t| ==> t[i..i + 1] == [t[i]];
  }

  lemma InsideStep(t: string, i: nat, quote: char, x: LitChar, xs: seq<LitChar>, closed: bool, slash: bool)
    requires i < |t| && quote != '\\' && t[i] != quote && !(t[i] == '\\' && i + 1 == |t|)
    requires x == if t[i] == '\\' then Slashed(t[i + 1]) else Plain(t[i])
    requires IsInside(t, i + |ShowChar(x)|, quote, xs, closed, slash)
    ensures IsInside(t, i, quote, [x] + xs, closed, slash)
  {
    var n, tail := i + |ShowChar(x)|, TailOf(quote, closed, slash);
    var j := SkipQuoted(t, n, quote);
    SkipsChar(t, i, quote, x);
    hide SkipQuoted, TailOf, ShowInside, ShowChar;
    ConsParts(x, xs, tail);
    JoinSlices(t, i, n, j);
    assert InsideOk([x] + xs, quote);
    hide *;
  }

  lemma SkipsChar(t: string, i: nat, quote: char, x: LitChar)
    requires i < |t| && quote != '\\' && t[i] != quote && !(t[i] == '\\' && i + 1 == |t|)
    requires x == if t[i] == '\\' then Slashed(t[i + 1]) else Plain(t[i])
    ensures i + |ShowChar(x)| <= |t| && t[i..i + |ShowChar(x)|] == ShowChar(x)
    ensures SkipQuoted(t, i, quote) == SkipQuoted(t, i + |ShowChar(x)|, quote)
  {
  }

  lemma {:induction false} InsideOf(t: string, i: nat, quote: char) returns (xs: seq<LitChar>, closed: bool, slash: bool)
    requires i <= |t| && quote != '\\'
    ensures IsInside(t, i, quote, xs, closed, slash)
    ensures xs != [] ==> i < |t| && t[i] == ShowChar(xs[0])[0]
    decreases |t| - i
  {
    hide IsInside;
    if i == |t| || t[i] == quote || (t[i] == '\\' && i + 1 == |t|) {
      xs := [];
      closed, slash := InsideEnds(t, i, quote);
    } else {
      var x := if t[i] == '\\' then Slashed(t[i + 1]) else Plain(t[i]);
      xs, closed, slash := InsideOf(t, i + |ShowChar(x)|, quote);
      InsideStep(t, i, quote, x, xs, closed, slash);
      xs := [x] + xs;
    }
  }

  lemma ConsParts(x: LitChar, xs: seq<LitChar>, tail: string)
    ensures ShowInside([x] + xs) + tail == ShowChar(x) + (ShowInside(xs) + tail)
  {
    InsideParts([x] + xs, tail);
    assert ([x] + xs)[1..] == xs;
  }

  function PlainUnits(x: string): (r: seq<LitChar>)
    ensures |r| == |x| && forall k :: 0 <= k < |x| ==> r[k] == Plain(x[k])
  {
    seq(|x|, k requires 0 <= k < |x| => Plain(x[k]))
  }

  lemma {:induction false} PlainUnitsShow(x: string)
    ensures ShowInside(PlainUnits(x)) == x
  {
    if x != "" {
      PlainUnitsShow(x[1..]);
      assert PlainUnits(x)[1..] == PlainUnits(x[1..]);
    }
  }

  /** The fragment with which a text begins. */
  ghost predicate Begins(t: string, f: Fragment) {
    var x := ShowFragment(f);
    x != "" && |x| <= |t| && t[..|x|] == x && FragmentOk(f, t[|x|..])
  }

  lemma LiteralBegins(t: string, opening: string, quote: char) returns (f: Fragment)
    requires OpeningOk(opening, quote) && opening <= t
    requires quote == '\'' && |t| > 1 ==> !LifetimeStart(t[1])
    ensures Begins(t, f)
  {
    var n := |opening|;
    var xs, closed, slash := InsideOf(t, n, quote);
    assert quote == '\'' ==> NoLifetime(xs, closed);
    f := LiteralOf(t, opening, quote, xs, closed, slash);
  }

  lemma LiteralOf(t: string, opening: string, quote: char, xs: seq<LitChar>, closed: bool, slash: bool) returns (f: Fragment)
    requires OpeningOk(opening, quote) && opening <= t && IsInside(t, |opening|, quote, xs, closed, slash)
    requires quote == '\'' ==> NoLifetime(xs, closed)
    ensures Begins(t, f)
  {
    hide SkipQuoted, ShowInside, InsideOk, NoLifetime;
    var n := |opening|;
    var j := SkipQuoted(t, n, quote);
    JoinSlices(t, 0, n, j);
    assert t[0..n] == opening;
    f := if closed then Literal(opening, xs, quote) else OpenLiteral(opening, xs, quote, slash);
    BeginsWith(t, f, j);
  }

  lemma BeginsWith(t: string, f: Fragment, j: nat)
    requires 0 < j <= |t| && ShowFragment(f) == t[0..j] && FragmentOk(f, t[j..])
    ensures Begins(t, f)
  {
    hide ShowFragment, FragmentOk;
  }

  lemma NamedBegins(t: string) returns (f: Fragment)
    requires |t| > 1 && t[0] == '\'' && LifetimeStart(t[1])
    ensures Begins(t, f)
  {
    var j := RunEnd(t, 1, LifetimeChar);
    var name := t[1..j];
    assert AllAre(name, LifetimeChar) && name[0] == t[1];
    hide RunEnd;
    if j < |t| && t[j] == '\'' {
      f := Literal("'", PlainUnits(name), '\'');
      PlainUnitsShow(name);
      PlainUnitsOk(name);
      hide PlainUnits, AllAre;
      assert t[..j + 1] == "'" + (name + "'");
    } else {
      f := Lifetime(name);
      assert t[..j] == "'" + name;
    }
  }

  lemma PlainUnitsOk(name: string)
    requires AllAre(name, LifetimeChar)
    ensures InsideOk(PlainUnits(name), '\'') && NoLifetime(PlainUnits(name), true)
  {
  }

  lemma QuoteBegins(t: string) returns (f: Fragment)
    requires t != "" && t[0] == '\''
    ensures Begins(t, f)
  {
    if |t| > 1 && LifetimeStart(t[1]) {
      f := NamedBegins(t);
    } else {
      assert t[..1] == "'";
      f := LiteralBegins(t, "'", '\'');
    }
  }

  lemma RawFront(t: string, r: nat, hashes: nat)
    requires RawOpensAt(t, 0, r, hashes)
    ensures
      var letters, body := t[..r + 1], r + hashes + 2;
      (letters == "r" || letters == "br") && body <= |t| && t[..body] == letters + (Hashes(hashes) + "\"")
  {
    assert t[r + 1..r + 1 + hashes] == Hashes(hashes);
  }

  lemma RawBegins(t: string) returns (f: Fragment)
    requires t != "" && RawOpensHere(t, 0)
    ensures Begins(t, f)
  {
    var r: nat, hashes: nat :| RawOpensAt(t, 0, r, hashes);
    RawFront(t, r, hashes);
    hide At, RawOpensAt, FindOrEnd;
    var letters, body, term := t[..r + 1], r + hashes + 2, RawTerminator(hashes);
    TerminatorText(hashes);
    var j := FindOrEnd(t, body, term);
    var text := t[body..j];
    forall k | 0 <= k < |text| ensures !At(t[body..], k, term) { AtShift(t, body, body + k, term); }
    if j < |t| {
      f := ClosedRawBegins(t, letters, hashes, body, j);
    } else {
      f := OpenRawBegins(t, letters, hashes, body);
    }
  }

  lemma ClosedRawBegins(t: string, letters: string, hashes: nat, body: nat, j: nat) returns (f: Fragment)
    requires body <= j < |t| && (letters == "r" || letters == "br")
    requires t[..body] == letters + (Hashes(hashes) + "\"") && At(t, j, "\"" + Hashes(hashes))
    requires forall k :: 0 <= k < j - body ==> !At(t[body..], k, "\"" + Hashes(hashes))
    ensures Begins(t, f)
  {
    var text, term := t[body..j], "\"" + Hashes(hashes);
    f := RawLiteral(letters, hashes, text);
    var end := j + |term|;
    assert t[body..end] == text + term && t[..end] == t[..body] + t[body..end];
    assert text + term <= t[body..];
    forall k | 0 <= k < |text| ensures !At(text + term, k, term) { AtPrefix(t[body..], text + term, k, term); }
    hide At, Hashes;
    assert ShowFragment(f) == letters + (Hashes(hashes) + "\"") + (text + term);
  }

  lemma OpenRawBegins(t: string, letters: string, hashes: nat, body: nat) returns (f: Fragment)
    requires body <= |t| && (letters == "r" || letters == "br")
    requires t[..body] == letters + (Hashes(hashes) + "\"")
    requires forall k :: 0 <= k < |t| - body ==> !At(t[body..], k, "\"" + Hashes(hashes))
    ensures Begins(t, f)
  {
    var text := t[body..];
    f := OpenRaw(letters, hashes, text);
    assert text + "" == text;
    hide At, Hashes;
    assert ShowFragment(f) == letters + (Hashes(hashes) + "\"") + text;
    assert t == t[..body] + text && t[|t|..] == "";
  }

  lemma AtPrefix(t: string, x: string, k: nat, term: string)
    requires x <= t && !At(t, k, term)
    ensures !At(x, k, term)
  {
    if k + |term| <= |x| { assert t[k..k + |term|] == x[k..k + |term|]; }
  }

  lemma CommentBegins(t: string) returns (f: Fragment)
    requires At(t, 0, "/*")
    ensures Begins(t, f)
  {
    var text := t[2..];
    if ReadInside(text, 0).None? {
      f := OpenComment(text);
      assert t == "/*" + text;
    } else {
      var (x, e) := ReadInside(text, 0).value;
      ReadStands(text, 0);
      f := BlockComment(x);
      NestedBegins(t, x);
    }
  }

  lemma NestedBegins(t: string, x: Inside)
    requires At(t, 0, "/*") && At(t[2..], 0, Show(x)) && At(t[2..], |Show(x)|, "*/") && WellFormed(x, '*')
    ensures Begins(t, BlockComment(x))
  {
    hide At, Show, WellFormed;
    var f, e := BlockComment(x), |Show(x)|;
    AtLength(t, 0, "/*");
    AtShift(t, 2, 2, Show(x));
    AtShift(t, 2, 2 + e, "*/");
    AtLength(t, 2 + e, "*/");
    ShowDone(t, 4 + e);
    NestedStands(t, 0, x, Done);
    AtStart(t, ShowFragment(f));
    BeginsWith(t, f, |ShowFragment(f)|);
  }

  lemma AtLength(t: string, i: nat, x: string)
    requires At(t, i, x)
    ensures i + |x| <= |t|
  {
  }

  lemma AtStart(t: string, x: string)
    requires At(t, 0, x)
    ensures |x| <= |t| && x == t[0..|x|]
  {
  }

  lemma LineBegins(t: string) returns (f: Fragment)
    requires At(t, 0, "//")
    ensures Begins(t, f)
  {
    var j := FindOrEnd(t, 2, "\n");
    var text := t[2..j];
    forall k | 2 <= k < j ensures t[k] != '\n' {
      assert !At(t, k, "\n") && t[k..k + 1] == [t[k]];
    }
    if j < |t| { AtChar(t, j, "\n", 0); }
    f := LineComment(text);
    assert t[..j] == "//" + text;
  }

  lemma FirstFragment(t: string) returns (f: Fragment)
    requires t != ""
    ensures Begins(t, f)
  {
    MarkChars(t, 0, '/', '/');
    MarkChars(t, 0, '/', '*');
    if At(t, 0, "//") {
      f := LineBegins(t);
    } else if At(t, 0, "/*") {
      f := CommentBegins(t);
    } else if RawOpensHere(t, 0) {
      f := RawBegins(t);
    } else if t[0] == '"' {
      assert t[..1] == "\"";
      f := LiteralBegins(t, "\"", '"');
    } else if |t| > 1 && (t[0] == 'b' || t[0] == 'c') && t[1] == '"' {
      assert t[..2] == [t[0], '"'];
      f := LiteralBegins(t, t[..2], '"');
    } else if t[0] == '\'' {
      f := QuoteBegins(t);
    } else {
      f := Code(t[0]);
      assert [t[0]] + t[1..] == t;
    }
  }

  /** Every text is made of fragments, so what stripping keeps of it is known. */
  lemma {:induction false} EveryTextIsFragments(t: string) returns (fs: seq<Fragment>)
    ensures ShowFragments(fs) == t && FragmentsOk(fs) && Strip(t) == KeptOf(fs)
    decreases |t|
  {
    hide ShowFragment, FragmentOk, Strip, KeptOf;
    if t == "" {
      fs := [];
    } else {
      var f := FirstFragment(t);
      var n := |ShowFragment(f)|;
      var rest := EveryTextIsFragments(t[n..]);
      fs := [f] + rest;
      assert fs[1..] == rest;
      assert t == t[..n] + t[n..];
    }
    StripKeeps(fs);
  }
}
