/** Blanking out comments and literals of Rust source text while keeping its line structure. */
module SourceStripper {
  import opened Names
  import opened Text

  // ----- searching -----

  /** The first position at or after `i` where `x` stands, or the length of `t`. */
  function FindOrEnd(t: string, i: nat, x: string): (j: nat)
    requires i <= |t|
    ensures i <= j <= |t|
    ensures j < |t| ==> At(t, j, x)
    ensures forall k :: i <= k < j ==> !At(t, k, x)
    decreases |t| - i
  {
    if i == |t| || At(t, i, x) then i else FindOrEnd(t, i + 1, x)
  }

  function OnlyNewlines(x: string): (r: string)
    ensures forall k :: 0 <= k < |r| ==> r[k] == '\n'
  {
    if x == [] then [] else (if x[0] == '\n' then "\n" else "") + OnlyNewlines(x[1..])
  }

  // ----- the tokens -----

  predicate LifetimeStart(c: char) {
    'a' <= c <= 'z' || 'A' <= c <= 'Z' || c == '_'
  }

  predicate LifetimeChar(c: char) {
    LifetimeStart(c) || '0' <= c <= '9'
  }

  predicate IsHash(c: char) {
    c == '#'
  }

  function CharAt(t: string, i: nat): Option<char> {
    if i < |t| then Some(t[i]) else None
  }

  /** The end of a block comment with `depth` comments open at `i`. */
  function BlockEnd(t: string, i: nat, depth: nat): (j: nat)
    requires i <= |t|
    ensures i <= j <= |t|
    decreases |t| - i
  {
    if i == |t| || depth == 0 then i
    else if At(t, i, "/*") then BlockEnd(t, i + 2, depth + 1)
    else if At(t, i, "*/") then BlockEnd(t, i + 2, depth - 1)
    else BlockEnd(t, i + 1, depth)
  }

  /** After the closing quote of a literal whose inside starts at `i`; a backslash takes the next
      character with it. */
  function SkipQuoted(t: string, i: nat, quote: char): (j: nat)
    ensures j <= |t|
    ensures i <= |t| ==> i <= j
    decreases |t| - i
  {
    if i >= |t| then |t|
    else if t[i] == '\\' then SkipQuoted(t, i + 2, quote)
    else if t[i] == quote then i + 1
    else SkipQuoted(t, i + 1, quote)
  }

  /** A raw string opens at `i` (`r`, or `br`, hashes, quote): where its text begins and how many
      hashes it has. */
  function RawOpen(t: string, i: nat): (r: Option<(nat, nat)>)
    ensures r.Some? ==> i + 1 < r.value.0 <= |t|
  {
    var j := if CharAt(t, i) == Some('b') then i + 1 else i;
    if CharAt(t, j) != Some('r') then None else
      var k := RunEnd(t, j + 1, IsHash);
      if CharAt(t, k) == Some('"') then Some((k + 1, k - (j + 1))) else None
  }

  function RawTerminator(hashes: nat): string {
    ['"'] + seq(hashes, _ => '#')
  }

  function RawEnd(t: string, body: nat, hashes: nat): (j: nat)
    requires body <= |t|
    ensures body <= j <= |t|
  {
    var term := RawTerminator(hashes);
    var j := FindOrEnd(t, body, term);
    if j == |t| then |t| else j + |term|
  }

  /** A lifetime at `i`: a quote and a name that is not closed by another quote. */
  function LifetimeEnd(t: string, i: nat): (r: Option<nat>)
    requires i < |t|
    ensures r.Some? ==> i < r.value <= |t| && forall k :: i < k < r.value ==> t[k] != '\n'
  {
    if i + 1 < |t| && LifetimeStart(t[i + 1]) then
      var j := RunEnd(t, i + 1, LifetimeChar);
      if j < |t| && t[j] == '\'' then None else Some(j)
    else None
  }

  /** One token: where it ends, and whether its text is kept, or only its newlines. */
  datatype Token = Token(next: nat, kept: bool)

  function TokenAt(t: string, i: nat): (r: Token)
    requires i < |t|
    ensures i < r.next <= |t|
  {
    var c, d := t[i], CharAt(t, i + 1);
    if c == '/' && d == Some('/') then Token(FindOrEnd(t, i + 1, "\n"), false)
    else if c == '/' && d == Some('*') then Token(BlockEnd(t, i + 2, 1), false)
    else if RawOpen(t, i).Some? then
      var (body, hashes) := RawOpen(t, i).value;
      Token(RawEnd(t, body, hashes), false)
    else if (c == 'b' || c == 'c') && d == Some('"') then Token(SkipQuoted(t, i + 2, '"'), false)
    else if c == '"' then Token(SkipQuoted(t, i + 1, '"'), false)
    else if c == '\'' then
      var lifetime := LifetimeEnd(t, i);
      if lifetime.Some? then Token(lifetime.value, true) else Token(SkipQuoted(t, i + 1, '\''), false)
    else Token(i + 1, true)
  }

  function Image(t: string, i: nat): string
    requires i < |t|
  {
    var token := TokenAt(t, i);
    if token.kept then t[i..token.next] else OnlyNewlines(t[i..token.next])
  }

  function StripFrom(t: string, i: nat): string
    requires i <= |t|
    decreases |t| - i
  {
    if i == |t| then [] else Image(t, i) + StripFrom(t, TokenAt(t, i).next)
  }

  function Strip(t: string): string {
    StripFrom(t, 0)
  }

  // ----- the loops -----

  method SkipQuotedLoop(t: string, start: nat, quote: char) returns (j: nat)
    ensures j == SkipQuoted(t, start, quote)
  {
    var i := start;
    while i < |t|
      invariant SkipQuoted(t, start, quote) == SkipQuoted(t, i, quote)
      decreases |t| - i
    {
      if t[i] == '\\' {
        i := i + 2;
      } else if t[i] == quote {
        return i + 1;
      } else {
        i := i + 1;
      }
    }
    return |t|;
  }

  method SkipBlockComment(t: string, start: nat) returns (i: nat)
    requires start <= |t|
    ensures i == BlockEnd(t, start, 1)
  {
    var depth: nat := 1;
    i := start;
    while i < |t| && depth > 0
      invariant i <= |t| && BlockEnd(t, start, 1) == BlockEnd(t, i, depth)
      decreases |t| - i
    {
      if At(t, i, "/*") {
        depth := depth + 1;
        i := i + 2;
      } else if At(t, i, "*/") {
        depth := depth - 1;
        i := i + 2;
      } else {
        i := i + 1;
      }
    }
  }

  /** One turn of the lexer at `i`: what it puts out and where it goes on. */
  method ReadToken(src: string, i: nat) returns (piece: string, next: nat)
    requires i < |src|
    ensures next == TokenAt(src, i).next && piece == Image(src, i)
  {
    var ch, nxt := src[i], CharAt(src, i + 1);
    if ch == '/' && nxt == Some('/') {
      LineCommentHasNoNewline(src, i);
      return "", FindOrEnd(src, i, "\n");
    }
    if ch == '/' && nxt == Some('*') {
      next := SkipBlockComment(src, i + 2);
      PrefixWithoutNewline(src, i, i + 2, next);
      return OnlyNewlines(src[i + 2..next]), next;
    }
    var raw := RawOpen(src, i);
    if raw.Some? {
      next := RawEnd(src, raw.value.0, raw.value.1);
      return OnlyNewlines(src[i..next]), next;
    }
    if (ch == 'b' || ch == 'c') && nxt == Some('"') {
      next := SkipQuotedLoop(src, i + 2, '"');
      return OnlyNewlines(src[i..next]), next;
    }
    if ch == '"' {
      next := SkipQuotedLoop(src, i + 1, '"');
      return OnlyNewlines(src[i..next]), next;
    }
    if ch == '\'' {
      var lifetime := LifetimeEnd(src, i);
      if lifetime.Some? {
        return src[i..lifetime.value], lifetime.value;
      }
      next := SkipQuotedLoop(src, i + 1, '\'');
      return OnlyNewlines(src[i..next]), next;
    }
    return [ch], i + 1;
  }

  /** The lexer's loop. Nothing but characters other than newlines is dropped. */
  method StripSource(src: string) returns (out: string)
    ensures out == Strip(src) && Pruned(src, out)
  {
    hide TokenAt, Image, StripFrom;
    out := [];
    var i := 0;
    while i < |src|
      invariant 0 <= i <= |src|
      invariant Strip(src) == out + StripFrom(src, i)
    {
      StripStep(src, i, out);
      var piece, next := ReadToken(src, i);
      out := out + piece;
      i := next;
    }
    StripDone(src, out);
    StripPrunes(src);
  }

  lemma StripStep(t: string, i: nat, out: string)
    requires i < |t|
    ensures out + StripFrom(t, i) == (out + Image(t, i)) + StripFrom(t, TokenAt(t, i).next)
  {
    hide TokenAt, Image;
  }

  lemma StripDone(t: string, out: string)
    ensures out + StripFrom(t, |t|) == out
  {
  }

  lemma {:induction false} NoNewlinesLeft(x: string)
    requires forall k :: 0 <= k < |x| ==> x[k] != '\n'
    ensures OnlyNewlines(x) == []
  {
    if x != [] { NoNewlinesLeft(x[1..]); }
  }

  /** A line comment ends before its newline, wherever the search for it starts. */
  lemma LineCommentHasNoNewline(t: string, i: nat)
    requires i + 1 < |t| && t[i] == '/' && t[i + 1] == '/'
    ensures FindOrEnd(t, i, "\n") == FindOrEnd(t, i + 1, "\n")
    ensures OnlyNewlines(t[i..FindOrEnd(t, i + 1, "\n")]) == []
  {
    var j := FindOrEnd(t, i + 1, "\n");
    assert t[i..i + 1] == ['/'];
    forall k | i <= k < j ensures t[k] != '\n' {
      assert k > i ==> !At(t, k, "\n");
      assert t[k..k + 1] == [t[k]];
    }
    NoNewlinesLeft(t[i..j]);
  }

  lemma PrefixWithoutNewline(t: string, i: nat, from: nat, j: nat)
    requires i + 2 == from <= j <= |t| && t[i] != '\n' && t[i + 1] != '\n'
    ensures OnlyNewlines(t[i..j]) == OnlyNewlines(t[from..j])
  {
    assert t[i..j] == [t[i], t[i + 1]] + t[from..j];
    NoNewlinesLeft([t[i], t[i + 1]]);
  }

  // ----- what stripping keeps -----

  /** `y` is `x` with some characters other than newlines deleted. */
  ghost predicate Pruned(x: string, y: string) {
    if x == [] then y == []
    else (y != [] && y[0] == x[0] && Pruned(x[1..], y[1..])) || (x[0] != '\n' && Pruned(x[1..], y))
  }

  lemma {:induction false} PrunedSelf(x: string)
    ensures Pruned(x, x)
  {
    if x != [] { PrunedSelf(x[1..]); }
  }

  lemma {:induction false} PrunedNewlines(x: string)
    ensures Pruned(x, OnlyNewlines(x))
  {
    if x != [] {
      PrunedNewlines(x[1..]);
      if x[0] == '\n' {
        assert OnlyNewlines(x) == "\n" + OnlyNewlines(x[1..]);
        assert OnlyNewlines(x)[1..] == OnlyNewlines(x[1..]);
      } else {
        assert OnlyNewlines(x) == OnlyNewlines(x[1..]);
      }
    }
  }

  lemma {:induction false} PrunedConcat(a: string, b: string, x: string, y: string)
    requires Pruned(a, b) && Pruned(x, y)
    ensures Pruned(a + x, b + y)
  {
    if a == [] {
      assert a + x == x && b + y == y;
    } else {
      assert (a + x)[1..] == a[1..] + x;
      if b != [] && b[0] == a[0] && Pruned(a[1..], b[1..]) {
        assert (b + y)[1..] == b[1..] + y;
        PrunedConcat(a[1..], b[1..], x, y);
      } else {
        PrunedConcat(a[1..], b, x, y);
      }
    }
  }

  lemma ImagePrunes(t: string, i: nat)
    requires i < |t|
    ensures Pruned(t[i..TokenAt(t, i).next], Image(t, i))
  {
    PrunedSelf(t[i..TokenAt(t, i).next]);
    PrunedNewlines(t[i..TokenAt(t, i).next]);
  }

  lemma NothingPruned(x: string, y: string)
    requires x == [] && y == []
    ensures Pruned(x, y)
  {
  }

  lemma {:induction false} StripFromPrunes(t: string, i: nat)
    requires i <= |t|
    ensures Pruned(t[i..], StripFrom(t, i))
    decreases |t| - i
  {
    hide TokenAt, Image, Pruned;
    if i == |t| {
      NothingPruned(t[i..], StripFrom(t, i));
    } else {
      var next := TokenAt(t, i).next;
      ImagePrunes(t, i);
      StripFromPrunes(t, next);
      assert t[i..] == t[i..next] + t[next..];
      PrunedConcat(t[i..next], Image(t, i), t[next..], StripFrom(t, next));
    }
  }

  /** Stripping deletes nothing but characters other than newlines. */
  lemma StripPrunes(t: string)
    ensures Pruned(t, Strip(t))
  {
    StripFromPrunes(t, 0);
    assert t[0..] == t;
  }

  /** The texts of the tokens, in order. */
  function TokenTexts(t: string, i: nat): seq<string>
    requires i <= |t|
    decreases |t| - i
  {
    if i == |t| then [] else [t[i..TokenAt(t, i).next]] + TokenTexts(t, TokenAt(t, i).next)
  }

  function Concat(parts: seq<string>): string {
    if parts == [] then [] else parts[0] + Concat(parts[1..])
  }

  /** The tokens are consecutive: together they are the whole input. */
  lemma {:induction false} TokensCoverInput(t: string, i: nat)
    requires i <= |t|
    ensures Concat(TokenTexts(t, i)) == t[i..]
    decreases |t| - i
  {
    hide TokenAt;
    if i < |t| {
      var next := TokenAt(t, i).next;
      TokensCoverInput(t, next);
      assert TokenTexts(t, i)[1..] == TokenTexts(t, next);
      assert t[i..] == t[i..next] + t[next..];
    }
  }

  // ----- lines -----

  function Lines(x: string): (r: seq<string>)
    ensures r != []
  {
    Split(x, '\n')
  }

  /** Line numbers survive pruning: there are as many lines, and each is what is left of its original. */
  lemma {:induction false} PrunedLineByLine(x: string, y: string)
    requires Pruned(x, y)
    ensures |Lines(x)| == |Lines(y)|
    ensures forall k :: 0 <= k < |Lines(x)| ==> Pruned(Lines(x)[k], Lines(y)[k])
  {
    if x != [] {
      if y != [] && y[0] == x[0] && Pruned(x[1..], y[1..]) {
        PrunedLineByLine(x[1..], y[1..]);
        if x[0] != '\n' { PrunedPrepend(x[0], Lines(x[1..])[0], Lines(y[1..])[0]); }
      } else {
        PrunedLineByLine(x[1..], y);
      }
    }
  }

  lemma PrunedPrepend(c: char, x: string, y: string)
    requires Pruned(x, y)
    ensures Pruned([c] + x, [c] + y)
  {
    assert ([c] + x)[1..] == x && ([c] + y)[1..] == y;
  }

  /** Line `k` of the stripped text is line `k` of the source with characters deleted. */
  lemma StripKeepsLines(t: string, k: nat)
    requires k < |Lines(t)|
    ensures |Lines(Strip(t))| == |Lines(t)| && Pruned(Lines(t)[k], Lines(Strip(t))[k])
  {
    StripPrunes(t);
    PrunedLineByLine(t, Strip(t));
  }

  // ----- what single tokens are -----

  /** How many backslashes stand in a row directly before position `j`, counting back to `i`. */
  function BackslashesBefore(t: string, i: nat, j: nat): nat
    requires i <= j <= |t|
    decreases j
  {
    if j > i && t[j - 1] == '\\' then 1 + BackslashesBefore(t, i, j - 1) else 0
  }

  /** A quote with an even number of backslashes directly before it. */
  ghost predicate ClosingQuote(t: string, i: nat, j: nat, quote: char)
    requires i <= j <= |t|
  {
    j < |t| && t[j] == quote && BackslashesBefore(t, i, j) % 2 == 0
  }

  /** A backslash and the character after it do not change the parity seen further on. */
  lemma {:induction false} ParityAfterEscape(t: string, i: nat, k: nat)
    requires i + 2 <= k <= |t| && t[i] == '\\'
    ensures BackslashesBefore(t, i, k) % 2 == BackslashesBefore(t, i + 2, k) % 2
    decreases k
  {
    if k == i + 2 {
      assert BackslashesBefore(t, i, i + 1) == 1 + BackslashesBefore(t, i, i);
    } else if t[k - 1] == '\\' {
      ParityAfterEscape(t, i, k - 1);
    }
  }

  lemma {:induction false} CountAfterOther(t: string, i: nat, k: nat)
    requires i + 1 <= k <= |t| && t[i] != '\\'
    ensures BackslashesBefore(t, i, k) == BackslashesBefore(t, i + 1, k)
    decreases k
  {
    if k > i + 1 && t[k - 1] == '\\' { CountAfterOther(t, i, k - 1); }
  }

  ghost predicate NoClosingQuote(t: string, i: nat, j: nat, quote: char)
    requires i <= j <= |t|
  {
    forall k :: i <= k < j ==> !ClosingQuote(t, i, k, quote)
  }

  lemma EscapeStep(t: string, i: nat, j: nat, quote: char)
    requires quote != '\\' && i + 2 <= j <= |t| && t[i] == '\\' && NoClosingQuote(t, i + 2, j, quote)
    ensures NoClosingQuote(t, i, j, quote)
  {
    forall k | i <= k < j ensures !ClosingQuote(t, i, k, quote) {
      if k >= i + 2 {
        ParityAfterEscape(t, i, k);
        assert !ClosingQuote(t, i + 2, k, quote);
      } else {
        assert BackslashesBefore(t, i, i + 1) == 1 + BackslashesBefore(t, i, i);
      }
    }
  }

  lemma OtherStep(t: string, i: nat, j: nat, quote: char)
    requires i + 1 <= j <= |t| && t[i] != '\\' && t[i] != quote && NoClosingQuote(t, i + 1, j, quote)
    ensures NoClosingQuote(t, i, j, quote)
  {
    forall k | i <= k < j ensures !ClosingQuote(t, i, k, quote) {
      if k > i {
        CountAfterOther(t, i, k);
        assert !ClosingQuote(t, i + 1, k, quote);
      }
    }
  }

  /** A literal ends at the first quote that is preceded by an even number of backslashes; without
      one it takes the rest of the text. */
  lemma {:induction false} SkipQuotedEndsAtClosingQuote(t: string, i: nat, quote: char)
    requires quote != '\\' && i <= |t|
    ensures
      var j := SkipQuoted(t, i, quote);
      || (j > i && ClosingQuote(t, i, j - 1, quote) && NoClosingQuote(t, i, j - 1, quote))
      || (j == |t| && NoClosingQuote(t, i, j, quote))
    decreases |t| - i
  {
    var j := SkipQuoted(t, i, quote);
    if i < |t| && t[i] == '\\' {
      if i + 2 > |t| {
        assert NoClosingQuote(t, i, |t|, quote);
      } else {
        SkipQuotedEndsAtClosingQuote(t, i + 2, quote);
        if NoClosingQuote(t, i + 2, j, quote) {
          EscapeStep(t, i, j, quote);
        } else {
          EscapeStep(t, i, j - 1, quote);
          ParityAfterEscape(t, i, j - 1);
        }
      }
    } else if i < |t| && t[i] != quote {
      SkipQuotedEndsAtClosingQuote(t, i + 1, quote);
      if NoClosingQuote(t, i + 1, j, quote) {
        OtherStep(t, i, j, quote);
      } else {
        OtherStep(t, i, j - 1, quote);
        CountAfterOther(t, i, j - 1);
      }
    }
  }

  /** A literal opens at `i`, with its inside from `body` on: a string, also with prefix `b` or `c`, or a
      character, which is a single quote that starts no lifetime. */
  predicate OpensLiteral(t: string, i: nat, body: nat, quote: char)
    requires i < |t|
  {
    if quote == '"' then
      || (t[i] == '"' && body == i + 1)
      || ((t[i] == 'b' || t[i] == 'c') && CharAt(t, i + 1) == Some('"') && body == i + 2)
    else quote == '\'' == t[i] && LifetimeEnd(t, i).None? && body == i + 1
  }

  /** A string or character literal is one token that ends at its closing quote, or at the end of an
      unterminated text. */
  lemma LiteralIsOneToken(t: string, i: nat, body: nat, quote: char)
    requires i < |t| && OpensLiteral(t, i, body, quote)
    ensures
      var token := TokenAt(t, i);
      && !token.kept && body <= |t|
      && (|| (token.next > body && ClosingQuote(t, body, token.next - 1, quote)
              && NoClosingQuote(t, body, token.next - 1, quote))
          || (token.next == |t| && NoClosingQuote(t, body, token.next, quote)))
  {
    hide LifetimeEnd, NoClosingQuote, ClosingQuote;
    SkipQuotedEndsAtClosingQuote(t, body, quote);
  }

  /** In particular a single character in quotes, a brace for instance, is one token that is dropped. */
  lemma CharacterIsOneToken(t: string, i: nat, c: char)
    requires At(t, i, ['\'', c, '\'']) && c != '\\' && c != '\''
    ensures TokenAt(t, i) == Token(i + 3, false)
  {
    AtChar(t, i, ['\'', c, '\''], 0);
    AtChar(t, i, ['\'', c, '\''], 1);
    AtChar(t, i, ['\'', c, '\''], 2);
    assert RunEnd(t, i + 2, LifetimeChar) == i + 2;
    assert LifetimeEnd(t, i).None?;
    assert SkipQuoted(t, i + 2, '\'') == i + 3;
  }

  /** A line comment is one token that ends right before the first newline after it, or at the end of the text. */
  lemma LineCommentIsOneToken(t: string, i: nat)
    requires At(t, i, "//")
    ensures
      var token := TokenAt(t, i);
      && !token.kept
      && (forall k :: i + 1 < k < token.next ==> t[k] != '\n')
      && (token.next < |t| ==> t[token.next] == '\n')
  {
    AtSplit(t, i, "/", "/");
    AtChar(t, i, "//", 0);
    AtChar(t, i, "//", 1);
    var j := FindOrEnd(t, i + 1, "\n");
    forall k | i + 1 < k < j ensures t[k] != '\n' {
      assert !At(t, k, "\n");
      assert t[k..k + 1] == [t[k]];
    }
    if j < |t| { AtChar(t, j, "\n", 0); }
  }

  lemma HashesEnd(t: string, i: nat, n: nat)
    requires i + n < |t| && t[i + n] != '#' && forall k :: i <= k < i + n ==> t[k] == '#'
    ensures RunEnd(t, i, IsHash) == i + n
    decreases n
  {
    if n > 0 { HashesEnd(t, i + 1, n - 1); }
  }

  /** A quote at `k` with at least `hashes` hashes right behind it. */
  ghost predicate ClosesRaw(t: string, k: nat, hashes: nat) {
    k + hashes < |t| && t[k] == '"' && forall m :: k < m <= k + hashes ==> t[m] == '#'
  }

  lemma TerminatorIs(t: string, k: nat, hashes: nat)
    ensures At(t, k, RawTerminator(hashes)) <==> ClosesRaw(t, k, hashes)
  {
    var term := RawTerminator(hashes);
    if At(t, k, term) {
      forall m | k <= m <= k + hashes ensures t[m] == term[m - k] {
        AtChar(t, k, term, m - k);
      }
    }
    if ClosesRaw(t, k, hashes) {
      assert t[k..k + |term|] == term;
    }
  }

  /** A raw string, opened by `r` or `br`, is one token that ends after the first quote that has as many
      hashes behind it as stand before the opening quote; no backslash and no shorter run of hashes
      ends it. `r` is the position of the letter r. */
  lemma RawStringIsOneToken(t: string, i: nat, r: nat, hashes: nat)
    requires i < |t| && (r == i || (r == i + 1 && t[i] == 'b'))
    requires r + hashes + 1 < |t| && t[r] == 'r' && t[r + 1 + hashes] == '"'
    requires forall k :: r < k <= r + hashes ==> t[k] == '#'
    ensures
      var body, token := r + hashes + 2, TokenAt(t, i);
      var quote := token.next - (hashes + 1);
      && !token.kept
      && (|| (token.next == |t| && forall k :: body <= k < |t| ==> !ClosesRaw(t, k, hashes))
          || (body <= quote && ClosesRaw(t, quote, hashes)
              && forall k :: body <= k < quote ==> !ClosesRaw(t, k, hashes)))
  {
    RawOpens(t, i, r, hashes);
    RawEndIsQuote(t, r + hashes + 2, hashes);
    hide RawOpen, RawEnd, SkipQuoted, LifetimeEnd, BlockEnd, FindOrEnd, ClosesRaw;
  }

  lemma RawOpens(t: string, i: nat, r: nat, hashes: nat)
    requires i < |t| && (r == i || (r == i + 1 && t[i] == 'b'))
    requires r + hashes + 1 < |t| && t[r] == 'r' && t[r + 1 + hashes] == '"'
    requires forall k :: r < k <= r + hashes ==> t[k] == '#'
    ensures RawOpen(t, i) == Some((r + hashes + 2, hashes))
  {
    HashesEnd(t, r + 1, hashes);
  }

  lemma RawEndIsQuote(t: string, body: nat, hashes: nat)
    requires body <= |t|
    ensures
      var next := RawEnd(t, body, hashes);
      var quote := next - (hashes + 1);
      || (next == |t| && forall k :: body <= k < |t| ==> !ClosesRaw(t, k, hashes))
      || (body <= quote && ClosesRaw(t, quote, hashes) && forall k :: body <= k < quote ==> !ClosesRaw(t, k, hashes))
  {
    var j := FindOrEnd(t, body, RawTerminator(hashes));
    TerminatorIs(t, j, hashes);
    forall k | body <= k < j ensures !ClosesRaw(t, k, hashes) {
      TerminatorIs(t, k, hashes);
    }
  }

  /** A lifetime is kept; the same name closed by a quote is a character literal and is not. */
  lemma LifetimeOrCharacter(t: string, i: nat, n: nat)
    requires i + n < |t| && n > 0 && t[i] == '\'' && LifetimeStart(t[i + 1])
    requires forall k :: i < k <= i + n ==> LifetimeChar(t[k])
    requires i + n + 1 < |t| ==> !LifetimeChar(t[i + n + 1])
    ensures TokenAt(t, i).kept <==> !(i + n + 1 < |t| && t[i + n + 1] == '\'')
    ensures TokenAt(t, i).kept ==> TokenAt(t, i).next == i + n + 1
  {
  }

  // ----- nested comments -----

  /** The inside of a block comment: text, and comments nested in it. */
  datatype Inside = Done | Text(c: char, rest: Inside) | Nested(inner: Inside, rest: Inside)

  /** The first character of `x` followed by `after`. */
  function First(x: Inside, after: char): char {
    match x
    case Done => after
    case Text(c, _) => c
    case Nested(_, _) => '/'
  }

  /** Followed by `after`, no two neighbouring characters of text look like a comment mark. */
  predicate WellFormed(x: Inside, after: char) {
    match x
    case Done => true
    case Text(c, rest) =>
      var next := First(rest, after);
      !(c == '/' && next == '*') && !(c == '*' && next == '/') && WellFormed(rest, after)
    case Nested(inner, rest) => WellFormed(inner, '*') && WellFormed(rest, after)
  }

  function Show(x: Inside): string {
    match x
    case Done => ""
    case Text(c, rest) => [c] + Show(rest)
    case Nested(inner, rest) => "/*" + (Show(inner) + ("*/" + Show(rest)))
  }

  lemma ShowNested(inner: Inside, rest: Inside)
    ensures Show(Nested(inner, rest)) == "/*" + (Show(inner) + ("*/" + Show(rest)))
  {
  }

  lemma NestedParts(t: string, i: nat, inner: Inside, rest: Inside)
    requires At(t, i, Show(Nested(inner, rest)))
    ensures
      var n := |Show(inner)|;
      && At(t, i, "/*") && At(t, i + 2, Show(inner))
      && At(t, i + 2 + n, "*/") && At(t, i + 4 + n, Show(rest))
      && |Show(Nested(inner, rest))| == n + 4 + |Show(rest)|
  {
    hide At, Show;
    ShowNested(inner, rest);
    AtSplit(t, i, "/*", Show(inner) + ("*/" + Show(rest)));
    AtSplit(t, i + 2, Show(inner), "*/" + Show(rest));
    AtSplit(t, i + 2 + |Show(inner)|, "*/", Show(rest));
  }

  lemma TextParts(t: string, i: nat, c: char, rest: Inside)
    requires At(t, i, Show(Text(c, rest)))
    ensures i < |t| && t[i] == c && At(t, i + 1, Show(rest))
  {
    AtSplit(t, i, [c], Show(rest));
    assert t[i..i + 1][0] == c;
  }

  lemma FirstStands(t: string, i: nat, x: Inside, after: char)
    requires At(t, i, Show(x)) && i + |Show(x)| < |t| && t[i + |Show(x)|] == after
    ensures t[i] == First(x, after)
  {
    match x
    case Done =>
    case Text(c, rest) => TextParts(t, i, c, rest);
    case Nested(inner, rest) =>
      NestedParts(t, i, inner, rest);
      AtChar(t, i, "/*", 0);
  }

  /** The scan passes over well-formed comment text at the depth at which it started. */
  lemma {:induction false} CommentTextSkipped(t: string, i: nat, x: Inside, depth: nat)
    requires depth > 0 && At(t, i, Show(x)) && i + |Show(x)| < |t| && WellFormed(x, t[i + |Show(x)|])
    ensures BlockEnd(t, i, depth) == BlockEnd(t, i + |Show(x)|, depth)
    decreases x
  {
    hide BlockEnd;
    match x
    case Done =>
    case Text(c, rest) =>
      TextParts(t, i, c, rest);
      FirstStands(t, i + 1, rest, t[i + |Show(x)|]);
      PlainCommentChar(t, i, depth);
      CommentTextSkipped(t, i + 1, rest, depth);
    case Nested(inner, rest) =>
      CommentSkipped(t, i, inner, rest, depth);
  }

  lemma {:induction false} CommentSkipped(t: string, i: nat, inner: Inside, rest: Inside, depth: nat)
    requires depth > 0 && At(t, i, Show(Nested(inner, rest))) && i + |Show(Nested(inner, rest))| < |t|
    requires WellFormed(inner, '*') && WellFormed(rest, t[i + |Show(Nested(inner, rest))|])
    ensures BlockEnd(t, i, depth) == BlockEnd(t, i + |Show(Nested(inner, rest))|, depth)
    decreases Nested(inner, rest), 0
  {
    hide BlockEnd, At, Show, WellFormed;
    var n := |Show(inner)|;
    NestedParts(t, i, inner, rest);
    MarkChars(t, i + 2 + n, '*', '/');
    OpenerRaisesDepth(t, i, depth);
    CommentTextSkipped(t, i + 2, inner, depth + 1);
    CloserLowersDepth(t, i + 2 + n, depth + 1);
    CommentTextSkipped(t, i + 4 + n, rest, depth);
  }

  lemma MarkChars(t: string, i: nat, c: char, d: char)
    ensures At(t, i, [c, d]) <==> i + 1 < |t| && t[i] == c && t[i + 1] == d
  {
    if i + 2 <= |t| {
      assert t[i..i + 2] == [t[i], t[i + 1]];
    }
  }

  lemma PlainCommentChar(t: string, i: nat, depth: nat)
    requires i + 1 < |t| && !(t[i] == '/' && t[i + 1] == '*') && !(t[i] == '*' && t[i + 1] == '/') && depth > 0
    ensures BlockEnd(t, i, depth) == BlockEnd(t, i + 1, depth)
  {
    MarkChars(t, i, '/', '*');
    MarkChars(t, i, '*', '/');
  }

  lemma OpenerRaisesDepth(t: string, i: nat, depth: nat)
    requires At(t, i, "/*") && depth > 0
    ensures i + 2 <= |t| && BlockEnd(t, i, depth) == BlockEnd(t, i + 2, depth + 1)
  {
  }

  lemma CloserLowersDepth(t: string, i: nat, depth: nat)
    requires At(t, i, "*/") && depth > 0
    ensures i + 2 <= |t| && BlockEnd(t, i, depth) == BlockEnd(t, i + 2, depth - 1)
  {
    assert t[i..i + 2][0] == '*';
  }

  lemma CommentToken(t: string, i: nat)
    requires At(t, i, "/*")
    ensures i + 2 <= |t| && TokenAt(t, i) == Token(BlockEnd(t, i + 2, 1), false)
  {
    MarkChars(t, i, '/', '*');
  }

  /** A block comment, however deeply nested and whatever its text, is one token that ends at its own
      closing mark. */
  lemma NestedCommentIsOneToken(t: string, i: nat, x: Inside)
    requires WellFormed(x, '*') && At(t, i, Show(Nested(x, Done)))
    ensures TokenAt(t, i) == Token(i + |Show(x)| + 4, false)
  {
    hide BlockEnd, Show, WellFormed;
    var n := |Show(x)|;
    NestedParts(t, i, x, Done);
    CommentToken(t, i);
    MarkChars(t, i + 2 + n, '*', '/');
    CommentTextSkipped(t, i + 2, x, 1);
    CloserLowersDepth(t, i + 2 + n, 1);
    ClosedHere(t, i + 4 + n);
  }

  lemma ClosedHere(t: string, i: nat)
    requires i <= |t|
    ensures BlockEnd(t, i, 0) == i
  {
  }

  /** Reads comment text from `i` on: the text and the position of the mark that closes it. */
  function ReadInside(t: string, i: nat): (r: Option<(Inside, nat)>)
    requires i <= |t|
    ensures r.Some? ==> i <= r.value.1 && At(t, r.value.1, "*/")
    decreases |t| - i
  {
    if i == |t| then None
    else if At(t, i, "/*") then
      var inner := ReadInside(t, i + 2);
      if inner.None? then None else
        var rest := ReadInside(t, inner.value.1 + 2);
        if rest.None? then None else Some((Nested(inner.value.0, rest.value.0), rest.value.1))
    else if At(t, i, "*/") then Some((Done, i))
    else
      var rest := ReadInside(t, i + 1);
      if rest.None? then None else Some((Text(t[i], rest.value.0), rest.value.1))
  }

  /** What is read stands there, and is well-formed. */
  lemma {:induction false} ReadStands(t: string, i: nat)
    requires i <= |t| && ReadInside(t, i).Some?
    ensures
      var (x, e) := ReadInside(t, i).value;
      At(t, i, Show(x)) && e == i + |Show(x)| && WellFormed(x, '*')
    decreases |t| - i
  {
    hide At, Show;
    if At(t, i, "/*") {
      MarkChars(t, i, '/', '*');
      var (inner, e) := ReadInside(t, i + 2).value;
      MarkChars(t, e, '*', '/');
      ReadStands(t, i + 2);
      ReadStands(t, e + 2);
      NestedStands(t, i, inner, ReadInside(t, e + 2).value.0);
    } else if !At(t, i, "*/") {
      hide WellFormed;
      ReadStands(t, i + 1);
      TextStands(t, i, ReadInside(t, i + 1).value.0);
    } else {
      ShowDone(t, i);
    }
  }

  lemma ShowDone(t: string, i: nat)
    requires i <= |t|
    ensures Show(Done) == "" && At(t, i, Show(Done))
  {
  }

  lemma TextStands(t: string, i: nat, rest: Inside)
    requires i < |t| && !At(t, i, "/*") && !At(t, i, "*/")
    requires At(t, i + 1, Show(rest)) && At(t, i + 1 + |Show(rest)|, "*/") && WellFormed(rest, '*')
    ensures
      var x := Text(t[i], rest);
      At(t, i, Show(x)) && |Show(x)| == 1 + |Show(rest)| && WellFormed(x, '*')
  {
    var e := i + 1 + |Show(rest)|;
    MarkChars(t, e, '*', '/');
    FirstStands(t, i + 1, rest, '*');
    MarkChars(t, i, '/', '*');
    MarkChars(t, i, '*', '/');
    assert t[i..e] == [t[i]] + t[i + 1..e];
  }

  lemma NestedStands(t: string, i: nat, inner: Inside, rest: Inside)
    requires At(t, i, "/*") && At(t, i + 2, Show(inner)) && At(t, i + 2 + |Show(inner)|, "*/")
    requires At(t, i + 4 + |Show(inner)|, Show(rest))
    ensures At(t, i, Show(Nested(inner, rest))) && |Show(Nested(inner, rest))| == |Show(inner)| + 4 + |Show(rest)|
  {
    hide Show;
    ShowNested(inner, rest);
    var a, b := Show(inner), Show(rest);
    var n := i + 4 + |a| + |b|;
    assert t[i..n] == t[i..i + 2] + (t[i + 2..i + 2 + |a|] + (t[i + 2 + |a|..i + 4 + |a|] + t[i + 4 + |a|..n]));
  }

  /** A comment that is read is passed over. */
  lemma ReadIsSkipped(t: string, i: nat, depth: nat)
    requires depth > 0 && At(t, i, "/*") && ReadInside(t, i + 2).Some?
    ensures BlockEnd(t, i, depth) == BlockEnd(t, ReadInside(t, i + 2).value.1 + 2, depth)
  {
    hide BlockEnd, Show, ReadInside, WellFormed;
    var (inner, e) := ReadInside(t, i + 2).value;
    ReadStands(t, i + 2);
    MarkChars(t, e, '*', '/');
    OpenerRaisesDepth(t, i, depth);
    CommentTextSkipped(t, i + 2, inner, depth + 1);
    CloserLowersDepth(t, e, depth + 1);
  }

  lemma UnreadCases(t: string, i: nat)
    requires i < |t| && ReadInside(t, i).None?
    ensures
      if At(t, i, "/*") then
        i + 2 <= |t| && var inner := ReadInside(t, i + 2);
        inner.None? || (inner.value.1 + 2 <= |t| && ReadInside(t, inner.value.1 + 2).None?)
      else !At(t, i, "*/") && ReadInside(t, i + 1).None?
  {
  }

  lemma TextSkipped(t: string, i: nat, depth: nat)
    requires i < |t| && depth > 0 && !At(t, i, "/*") && !At(t, i, "*/")
    ensures BlockEnd(t, i, depth) == BlockEnd(t, i + 1, depth)
  {
  }

  lemma EndReached(t: string, depth: nat)
    ensures BlockEnd(t, |t|, depth) == |t|
  {
  }

  /** Where nothing closes the text, the scan runs to the end. */
  lemma {:induction false} UnclosedRunsOn(t: string, i: nat, depth: nat)
    requires i <= |t| && depth > 0 && ReadInside(t, i).None?
    ensures BlockEnd(t, i, depth) == |t|
    decreases |t| - i
  {
    hide BlockEnd, ReadInside, At;
    if i == |t| {
      EndReached(t, depth);
    } else {
      UnreadCases(t, i);
      if !At(t, i, "/*") {
        TextSkipped(t, i, depth);
        UnclosedRunsOn(t, i + 1, depth);
      } else if ReadInside(t, i + 2).None? {
        OpenerRaisesDepth(t, i, depth);
        UnclosedRunsOn(t, i + 2, depth + 1);
      } else {
        ReadIsSkipped(t, i, depth);
        UnclosedRunsOn(t, ReadInside(t, i + 2).value.1 + 2, depth);
      }
    }
  }

  /** There are no other block comments: one that is not of this form is unclosed and runs to the end. */
  lemma BlockCommentIsNestedOrUnclosed(t: string, i: nat)
    requires At(t, i, "/*")
    ensures
      || (exists x :: WellFormed(x, '*') && At(t, i, Show(Nested(x, Done))))
      || TokenAt(t, i) == Token(|t|, false)
  {
    hide BlockEnd, Show, WellFormed, ReadInside, TokenAt, At;
    CommentToken(t, i);
    if ReadInside(t, i + 2).None? {
      UnclosedRunsOn(t, i + 2, 1);
    } else {
      var (x, e) := ReadInside(t, i + 2).value;
      ReadStands(t, i + 2);
      MarkChars(t, e, '*', '/');
      ShowDone(t, e + 2);
      NestedStands(t, i, x, Done);
    }
  }

  /** Text without quotes and slashes is code and stays as it is. */
  lemma {:induction false} PlainCodeKept(t: string, i: nat)
    requires i <= |t| && forall k :: 0 <= k < |t| ==> t[k] != '/' && t[k] != '"' && t[k] != '\''
    ensures StripFrom(t, i) == t[i..]
    decreases |t| - i
  {
    if i < |t| {
      assert RawOpen(t, i).None?;
      PlainCodeKept(t, i + 1);
    }
  }
}
