/** The scanner and the body parser agree on where string literals begin and end. */
module PhpLexers {
  import opened Names
  import opened PhpScanner
  import opened PhpParser

  /** A scan that begins at `start` is in string mode exactly from after `o` up to `c`: a literal whose
      opening quote is at `o` and whose closing quote is at `c`. */
  ghost predicate IsLiteral(t: string, start: nat, o: nat, c: nat) {
    && start <= o < c < |t|
    && ScanMode(t, start, o) == Outside
    && (forall k :: o < k <= c ==> ScanMode(t, start, k) != Outside)
    && ScanMode(t, start, c + 1) == Outside
  }

  datatype Opened = Opened(open: nat, literal: Literal)

  /** The literals that the body parser opens from position `i` on. */
  function OpenedFrom(table: CharTable, t: string, i: nat): seq<Opened>
    requires i <= |t|
    decreases |t| - i
  {
    if i == |t| then []
    else
      (if IsQuote(t[i]) then [Opened(i, ReadString(t, i + 1, t[i], false))] else [])
      + OpenedFrom(table, t, NextPos(table, t, i))
  }

  /** Reading a literal follows the scanner's string mode character by character. */
  lemma {:induction false} ReadFollowsMode(t: string, i: nat, quote: char, escaped: bool)
    requires i <= |t| && quote != '\\'
    requires ScanMode(t, 0, i) == if escaped then Escaped(quote) else InString(quote)
    ensures
      var r := ReadString(t, i, quote, escaped);
      && (forall k :: i <= k < r.next ==> ScanMode(t, 0, k) != Outside)
      && (r.closed ==> ScanMode(t, 0, r.next) == Outside)
      && (!r.closed ==> r.next == |t| && ScanMode(t, 0, |t|) != Outside)
    decreases |t| - i
  {
    if i < |t| {
      assert ScanMode(t, 0, i + 1) == StepMode(ScanMode(t, 0, i), t[i]);
      if escaped {
        ReadFollowsMode(t, i + 1, quote, false);
      } else if t[i] == '\\' {
        ReadFollowsMode(t, i + 1, quote, true);
      } else if t[i] != quote {
        ReadFollowsMode(t, i + 1, quote, false);
      }
    }
  }

  lemma {:induction false} StaysOutside(t: string, i: nat, j: nat)
    requires i <= j <= |t| && ScanMode(t, 0, i) == Outside
    requires forall k :: i <= k < j ==> !IsQuote(t[k])
    ensures forall k :: i <= k <= j ==> ScanMode(t, 0, k) == Outside
    decreases j - i
  {
    if i < j {
      assert ScanMode(t, 0, i + 1) == StepMode(ScanMode(t, 0, i), t[i]);
      StaysOutside(t, i + 1, j);
    }
  }

  /** What the parser consumes after a literal contains no quote. */
  lemma ArrowHasNoQuote(t: string, i: nat)
    requires i <= |t|
    ensures forall k :: i <= k < ArrowAfter(t, i).1 ==> !IsQuote(t[k])
  {
  }

  /** From `i` up to `j` the scanner is outside strings and meets no quote. */
  ghost predicate QuietRun(t: string, i: nat, j: nat)
    requires i <= j <= |t|
  {
    forall k :: i <= k < j ==> ScanMode(t, 0, k) == Outside && !IsQuote(t[k])
  }

  /** A literal opened outside strings, in a text that ends outside strings, is a literal of the scanner. */
  lemma LiteralHere(t: string, i: nat)
    requires i < |t| && ScanMode(t, 0, i) == Outside && ScanMode(t, 0, |t|) == Outside && IsQuote(t[i])
    ensures
      var r := ReadString(t, i + 1, t[i], false);
      r.closed && IsLiteral(t, 0, i, r.next - 1) && ScanMode(t, 0, r.next) == Outside
  {
    assert ScanMode(t, 0, i + 1) == InString(t[i]);
    ReadFollowsMode(t, i + 1, t[i], false);
  }

  /** A turn that opens a literal, seen by the scanner: the literal, then characters outside strings. */
  lemma LiteralTurn(table: CharTable, t: string, i: nat)
    requires i < |t| && ScanMode(t, 0, i) == Outside && ScanMode(t, 0, |t|) == Outside && IsQuote(t[i])
    ensures
      var r := ReadString(t, i + 1, t[i], false);
      && r.closed && IsLiteral(t, 0, i, r.next - 1)
      && r.next <= NextPos(table, t, i) && QuietRun(t, r.next, NextPos(table, t, i))
      && ScanMode(t, 0, NextPos(table, t, i)) == Outside
  {
    hide ReadString, IsLiteral, ArrowAfter;
    LiteralHere(t, i);
    var r := ReadString(t, i + 1, t[i], false);
    ArrowHasNoQuote(t, r.next);
    StaysOutside(t, r.next, ArrowAfter(t, r.next).1);
  }

  /** Any other turn stays outside strings. */
  lemma OtherTurn(table: CharTable, t: string, i: nat)
    requires i < |t| && ScanMode(t, 0, i) == Outside && !IsQuote(t[i])
    ensures QuietRun(t, i, NextPos(table, t, i)) && ScanMode(t, 0, NextPos(table, t, i)) == Outside
  {
    StaysOutside(t, i, NextPos(table, t, i));
  }

  /** One turn of the parser, seen by the scanner: it starts and ends outside strings, and the only
      literal in between is the one the turn opened. */
  lemma TurnAgrees(table: CharTable, t: string, i: nat)
    requires i < |t| && ScanMode(t, 0, i) == Outside && ScanMode(t, 0, |t|) == Outside
    ensures ScanMode(t, 0, NextPos(table, t, i)) == Outside
    ensures IsQuote(t[i]) ==>
      var r := ReadString(t, i + 1, t[i], false);
      && r.closed && IsLiteral(t, 0, i, r.next - 1)
      && r.next <= NextPos(table, t, i) && QuietRun(t, r.next, NextPos(table, t, i))
    ensures !IsQuote(t[i]) ==> QuietRun(t, i, NextPos(table, t, i))
  {
    hide NextPos, ReadString;
    if IsQuote(t[i]) {
      LiteralTurn(table, t, i);
    } else {
      OtherTurn(table, t, i);
    }
  }

  ghost predicate Among(literals: seq<Opened>, o: nat, c: nat) {
    exists x :: x in literals && x.open == o && x.literal.closed && x.literal.next == c + 1
  }

  /** A literal of the scanner starts at a quote, and an earlier start means an earlier end. */
  lemma LiteralStartsAtQuote(t: string, o: nat, c: nat)
    requires IsLiteral(t, 0, o, c)
    ensures IsQuote(t[o])
  {
    assert ScanMode(t, 0, o + 1) == StepMode(ScanMode(t, 0, o), t[o]);
    assert ScanMode(t, 0, o + 1) != Outside;
  }

  /** From a position outside strings on, in a text that ends outside strings, the literals the parser
      opens are all closed, and they are exactly the scanner's literals. */
  lemma {:induction false} OpenedAreLiterals(table: CharTable, t: string, i: nat)
    requires i <= |t| && ScanMode(t, 0, i) == Outside && ScanMode(t, 0, |t|) == Outside
    ensures forall x :: x in OpenedFrom(table, t, i) ==>
      x.open >= i && x.literal.closed && x.literal.next > 0 && IsLiteral(t, 0, x.open, x.literal.next - 1)
    decreases |t| - i
  {
    if i < |t| {
      TurnAgrees(table, t, i);
      OpenedAreLiterals(table, t, NextPos(table, t, i));
    }
  }

  lemma {:induction false} LiteralsAreOpened(table: CharTable, t: string, i: nat, o: nat, c: nat)
    requires i <= o && ScanMode(t, 0, |t|) == Outside && IsLiteral(t, 0, o, c) && ScanMode(t, 0, i) == Outside
    ensures Among(OpenedFrom(table, t, i), o, c)
    decreases |t| - i
  {
    var next := NextPos(table, t, i);
    var rest := OpenedFrom(table, t, next);
    TurnAgrees(table, t, i);
    LiteralStartsAtQuote(t, o, c);
    if o == i {
      var x := Opened(i, ReadString(t, i + 1, t[i], false));
      assert OpenedFrom(table, t, i)[0] == x;
    } else {
      LiteralsAreOpened(table, t, next, o, c);
      var x :| x in rest && x.open == o && x.literal.closed && x.literal.next == c + 1;
      assert x in OpenedFrom(table, t, i);
    }
  }

  /** Scanned alone, a part that begins outside strings has the literals that it has in the text. */
  lemma LiteralOfPart(t: string, start: nat, lo: nat, hi: nat, o: nat, c: nat)
    requires start <= lo <= hi <= |t| && ScanMode(t, start, lo) == Outside && o < c < hi - lo
    ensures IsLiteral(t[lo..hi], 0, o, c) <==> IsLiteral(t, start, lo + o, lo + c)
  {
    var part := t[lo..hi];
    forall k: nat | k <= |part| ensures ScanMode(part, 0, k) == ScanMode(t, start, lo + k) {
      ModeOfPart(t, start, lo, hi, k);
    }
    if IsLiteral(part, 0, o, c) {
      forall k | lo + o < k <= lo + c ensures ScanMode(t, start, k) != Outside {
        assert ScanMode(part, 0, k - lo) == ScanMode(t, start, lo + (k - lo));
      }
    }
  }

  lemma LiteralInside(t: string, start: nat, o: nat, c: nat)
    ensures IsLiteral(t, start, o, c) ==> start <= o < c < |t|
  {
  }

  /** In a text that ends outside strings, the parser's literals are exactly the scanner's. */
  lemma LiteralsOfText(table: CharTable, t: string, o: nat, c: nat)
    requires ScanMode(t, 0, |t|) == Outside
    ensures forall x :: x in OpenedFrom(table, t, 0) ==> x.literal.closed
    ensures Among(OpenedFrom(table, t, 0), o, c) <==> IsLiteral(t, 0, o, c)
  {
    hide OpenedFrom;
    OpenedAreLiterals(table, t, 0);
    if IsLiteral(t, 0, o, c) {
      LiteralsAreOpened(table, t, 0, o, c);
    }
  }

  /** For every file in which the scanner finds the array, the body parser's literals are exactly those
      that the scanner met on its way: each literal the parser opens inside the slice is closed inside
      the slice, where the scanner left string mode, and none is missed. */
  lemma LexersAgree(table: CharTable, content: string, start: nat, end: nat, o: nat, c: nat)
    requires FindInfo(content, 0) == Some(start) && ScanEnd(content, start, Outside, 0) == Some(end)
    ensures start < end
    ensures
      var literals := OpenedFrom(table, content[start + 1..end], 0);
      && (forall x :: x in literals ==> x.literal.closed)
      && (Among(literals, o, c) <==> start + 1 + c < end && IsLiteral(content, start, start + 1 + o, start + 1 + c))
  {
    hide IsLiteral, Among, OpenedFrom, ScanEnd, FindInfo;
    var lo := start + 1;
    var body := content[lo..end];
    EndIsOutside(content, start, start, 0);
    assert ScanMode(content, start, lo) == StepMode(Outside, content[start]);
    ModeOfPart(content, start, lo, end, |body|);
    LiteralsOfText(table, body, o, c);
    LiteralInside(body, 0, o, c);
    LiteralInside(content, start, lo + o, lo + c);
    if o < c < |body| { LiteralOfPart(content, start, lo, end, o, c); }
  }
}
