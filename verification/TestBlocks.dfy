/** Tracking test items by brace depth, and the `.unwrap()` lines outside all of them. */
module TestBlocks {
  import opened Names
  import opened Text
  import opened SourceStripper

  // ----- lines -----

  /** What the scan needs to know about one stripped line. */
  datatype Line =
    | Blank
    | Attribute(marksTest: bool)
    | Code(testModule: bool, opens: nat, closes: nat, unwraps: bool)

  /** The regular expressions of the scan, as predicates on a trimmed line. */
  datatype Patterns = Patterns(cfgTest: string -> bool, testAttr: string -> bool, testMod: string -> bool)

  /** White space as the scanner's language sees it: Unicode white space and four more controls. */
  predicate IsSpace(c: char) {
    IsWhitespace(c) || '\U{001C}' <= c <= '\U{001F}'
  }

  lemma SpaceTable(c: char)
    ensures IsSpace(c) <==> IsWhitespace(c) || c as int in {0x1C, 0x1D, 0x1E, 0x1F}
  {
  }

  predicate Contains(s: string, x: string) {
    exists i :: 0 <= i <= |s| && At(s, i, x)
  }

  function Classify(p: Patterns, raw: string): Line {
    var s := Trim(raw, IsSpace);
    if s == "" then Blank
    else if At(s, 0, "#[") then Attribute(p.cfgTest(s) || p.testAttr(s))
    else Code(p.testMod(s), CountChar(s, '{'), CountChar(s, '}'), Contains(s, ".unwrap()"))
  }

  lemma {:induction false} TrimKeepsCounts(s: string, c: char)
    requires !IsSpace(c)
    ensures CountChar(TrimLeft(s, IsSpace), c) == CountChar(s, c)
    ensures CountChar(TrimRight(s, IsSpace), c) == CountChar(s, c)
    decreases |s|
  {
    if s != [] {
      var n := |s| - 1;
      TrimKeepsCounts(s[1..], c);
      TrimKeepsCounts(s[..n], c);
      assert s == s[..n] + [s[n]];
      CountConcat(s[..n], [s[n]], c);
    }
  }

  /** A line of code changes the depth by the braces it holds, indentation or not. */
  lemma CodeLineBalance(p: Patterns, raw: string)
    requires Classify(p, raw).Code?
    ensures Classify(p, raw).opens == CountChar(raw, '{')
    ensures Balance(Classify(p, raw)) == CountChar(raw, '{') - CountChar(raw, '}')
  {
    TrimKeepsCounts(raw, '{');
    TrimKeepsCounts(raw, '}');
    TrimKeepsCounts(TrimLeft(raw, IsSpace), '{');
    TrimKeepsCounts(TrimLeft(raw, IsSpace), '}');
  }

  // ----- the meaning: which lines lie inside a test item -----

  function Balance(line: Line): int {
    if line.Code? then line.opens - line.closes else 0
  }

  /** The brace depth before line `i`. */
  function DepthBefore(ls: seq<Line>, i: nat): int
    requires i <= |ls|
  {
    if i == 0 then 0 else DepthBefore(ls, i - 1) + Balance(ls[i - 1])
  }

  ghost predicate NoCodeBetween(ls: seq<Line>, a: nat, i: nat)
    requires i <= |ls|
  {
    forall k :: a < k < i ==> !ls[k].Code?
  }

  /** A test attribute stands before line `i` with nothing but blank lines and attributes between. */
  ghost predicate Marked(ls: seq<Line>, i: nat)
    requires i <= |ls|
  {
    exists a :: 0 <= a < i && ls[a] == Attribute(true) && NoCodeBetween(ls, a, i)
  }

  /** Line `j` is the head of a test item with a body. */
  ghost predicate StartsTest(ls: seq<Line>, j: nat)
    requires j < |ls|
  {
    ls[j].Code? && ls[j].opens > 0 && (ls[j].testModule || Marked(ls, j))
  }

  /** From line `j` up to before line `i` the depth has not fallen back to what it was before `j`. */
  ghost predicate StaysAbove(ls: seq<Line>, j: nat, i: nat)
    requires j < |ls| && i <= |ls|
  {
    forall k :: j < k <= i ==> DepthBefore(ls, k) > DepthBefore(ls, j)
  }

  /** Line `i` lies in the test item whose head is line `j`. */
  ghost predicate InItem(ls: seq<Line>, j: nat, i: nat)
    requires i < |ls|
  {
    j <= i && StartsTest(ls, j) && StaysAbove(ls, j, i)
  }

  ghost predicate InTest(ls: seq<Line>, i: nat)
    requires i < |ls|
  {
    exists j: nat :: InItem(ls, j, i)
  }

  /** Line `i` unwraps in production code. */
  ghost predicate IsHit(ls: seq<Line>, i: nat)
    requires i < |ls|
  {
    ls[i].Code? && ls[i].unwraps && !InTest(ls, i)
  }

  // ----- the stack -----

  ghost predicate Increasing(stack: seq<int>) {
    forall i, j :: 0 <= i < j < |stack| ==> stack[i] < stack[j]
  }

  /** Pops while the depth is below the top. */
  function PopBelow(stack: seq<int>, depth: int): seq<int> {
    if stack != [] && depth < stack[|stack| - 1] then PopBelow(stack[..|stack| - 1], depth) else stack
  }

  lemma {:induction false} PopBelowKeeps(stack: seq<int>, depth: int)
    requires Increasing(stack)
    ensures
      var r := PopBelow(stack, depth);
      && r <= stack && Increasing(r)
      && (r != [] ==> r[|r| - 1] <= depth)
      && (forall v :: v in r <==> v in stack && v <= depth)
  {
    if stack != [] && depth < stack[|stack| - 1] {
      var init := stack[..|stack| - 1];
      assert stack == init + [stack[|stack| - 1]];
      PopBelowKeeps(init, depth);
    } else if stack != [] {
      assert forall i :: 0 <= i < |stack| ==> stack[i] <= stack[|stack| - 1];
    }
  }

  /** An open test item as seen before line `i`. */
  ghost predicate OpenItem(ls: seq<Line>, j: nat, i: nat)
    requires i <= |ls|
  {
    j < i && StartsTest(ls, j) && StaysAbove(ls, j, i)
  }

  ghost predicate IsThreshold(ls: seq<Line>, i: nat, v: int)
    requires i <= |ls|
  {
    exists j: nat :: OpenItem(ls, j, i) && v == DepthBefore(ls, j) + 1
  }

  /** The invariant of the scan before line `i`: the stack holds the thresholds of the open test
      items, strictly increasing, the topmost at most the current depth. */
  ghost predicate StackIs(ls: seq<Line>, i: nat, stack: seq<int>)
    requires i <= |ls|
  {
    && Increasing(stack)
    && (stack != [] ==> stack[|stack| - 1] <= DepthBefore(ls, i))
    && (forall v :: v in stack <==> IsThreshold(ls, i, v))
  }

  function PushIf(stack: seq<int>, push: bool, depth: int): seq<int> {
    if push then stack + [depth + 1] else stack
  }

  lemma StaysAboveNext(ls: seq<Line>, j: nat, i: nat)
    requires j <= i < |ls|
    ensures StaysAbove(ls, j, i + 1) <==> StaysAbove(ls, j, i) && DepthBefore(ls, i + 1) > DepthBefore(ls, j)
  {
  }

  /** A threshold after line `i`: it was open or pushed, and the depth has not fallen below it. */
  lemma ThresholdNext(ls: seq<Line>, i: nat, v: int)
    requires i < |ls|
    ensures IsThreshold(ls, i + 1, v) <==>
            (IsThreshold(ls, i, v) || (StartsTest(ls, i) && v == DepthBefore(ls, i) + 1)) && v <= DepthBefore(ls, i + 1)
  {
    hide StaysAbove, StartsTest, DepthBefore;
    if IsThreshold(ls, i + 1, v) {
      var j: nat :| OpenItem(ls, j, i + 1) && v == DepthBefore(ls, j) + 1;
      StaysAboveNext(ls, j, i);
      assert j < i ==> OpenItem(ls, j, i);
    }
    if IsThreshold(ls, i, v) && v <= DepthBefore(ls, i + 1) {
      var j: nat :| OpenItem(ls, j, i) && v == DepthBefore(ls, j) + 1;
      StaysAboveNext(ls, j, i);
      assert OpenItem(ls, j, i + 1);
    }
    if StartsTest(ls, i) && v == DepthBefore(ls, i) + 1 && v <= DepthBefore(ls, i + 1) {
      StaysAboveNext(ls, i, i);
      NothingBetween(ls, i);
      assert OpenItem(ls, i, i + 1);
    }
  }

  lemma NothingBetween(ls: seq<Line>, i: nat)
    requires i < |ls|
    ensures StaysAbove(ls, i, i)
  {
  }

  lemma StackNext(ls: seq<Line>, i: nat, stack: seq<int>)
    requires i < |ls| && StackIs(ls, i, stack)
    ensures StackIs(ls, i + 1, PopBelow(PushIf(stack, StartsTest(ls, i), DepthBefore(ls, i)), DepthBefore(ls, i + 1)))
  {
    hide IsThreshold, StartsTest, DepthBefore;
    var depth := DepthBefore(ls, i);
    var pushed := PushIf(stack, StartsTest(ls, i), depth);
    assert Increasing(pushed);
    PopBelowKeeps(pushed, DepthBefore(ls, i + 1));
    var next := PopBelow(pushed, DepthBefore(ls, i + 1));
    forall v ensures v in next <==> IsThreshold(ls, i + 1, v) {
      ThresholdNext(ls, i, v);
    }
  }

  /** A line lies in a test item if it starts one or an earlier one is still open. */
  lemma InTestIff(ls: seq<Line>, i: nat)
    requires i < |ls|
    ensures InTest(ls, i) <==> StartsTest(ls, i) || exists v :: IsThreshold(ls, i, v)
  {
    hide StaysAbove, StartsTest, DepthBefore;
    if InTest(ls, i) && !StartsTest(ls, i) {
      var j: nat :| InItem(ls, j, i);
      assert OpenItem(ls, j, i);
      assert IsThreshold(ls, i, DepthBefore(ls, j) + 1);
    }
    if exists v :: IsThreshold(ls, i, v) {
      var v :| IsThreshold(ls, i, v);
      var j: nat :| OpenItem(ls, j, i) && v == DepthBefore(ls, j) + 1;
      assert InItem(ls, j, i);
    }
    if StartsTest(ls, i) {
      NothingBetween(ls, i);
      assert InItem(ls, i, i);
    }
  }

  /** With the item of line `i` pushed, the stack is empty exactly if the line is in no test item. */
  lemma EmptyIffOutside(ls: seq<Line>, i: nat, stack: seq<int>)
    requires i < |ls| && StackIs(ls, i, stack)
    ensures PushIf(stack, StartsTest(ls, i), DepthBefore(ls, i)) == [] <==> !InTest(ls, i)
  {
    hide IsThreshold, StartsTest, DepthBefore, InTest;
    InTestIff(ls, i);
    if stack != [] {
      assert stack[0] in stack;
    }
  }

  /** What the flag for a pending test attribute is before line `i`. */
  lemma MarkedNext(ls: seq<Line>, i: nat)
    requires i < |ls|
    ensures Marked(ls, i + 1) <==>
            ls[i] == Attribute(true) || (!ls[i].Code? && Marked(ls, i))
  {
    if Marked(ls, i + 1) {
      var a :| 0 <= a < i + 1 && ls[a] == Attribute(true) && NoCodeBetween(ls, a, i + 1);
      if a < i {
        assert NoCodeBetween(ls, a, i);
      }
    }
    if ls[i] == Attribute(true) {
      assert NoCodeBetween(ls, i, i + 1);
    } else if !ls[i].Code? && Marked(ls, i) {
      var a :| 0 <= a < i && ls[a] == Attribute(true) && NoCodeBetween(ls, a, i);
      assert NoCodeBetween(ls, a, i + 1);
    }
  }

  lemma SkippedLine(ls: seq<Line>, i: nat, stack: seq<int>)
    requires i < |ls| && StackIs(ls, i, stack) && !ls[i].Code?
    ensures StackIs(ls, i + 1, stack) && DepthBefore(ls, i + 1) == DepthBefore(ls, i)
  {
    StackNext(ls, i, stack);
  }

  // ----- the machine with a stack, and a simpler one that it refines -----

  /** Before line `i`: the flag for a pending test attribute and the stack of thresholds. */
  datatype Tracker = Tracker(pending: bool, stack: seq<int>)

  /** Line `line` is taken for the head of a test item. */
  predicate Opens(pending: bool, line: Line) {
    line.Code? && (pending || line.testModule) && line.opens > 0
  }

  function PendingAfter(pending: bool, line: Line): bool {
    match line
    case Blank => pending
    case Attribute(marksTest) => pending || marksTest
    case Code(_, _, _, _) => false
  }

  function Track(ls: seq<Line>, i: nat): Tracker
    requires i <= |ls|
  {
    if i == 0 then Tracker(false, []) else
      var t, line := Track(ls, i - 1), ls[i - 1];
      var pushed := PushIf(t.stack, Opens(t.pending, line), DepthBefore(ls, i - 1));
      Tracker(PendingAfter(t.pending, line), if line.Code? then PopBelow(pushed, DepthBefore(ls, i)) else pushed)
  }

  /** The flag and, instead of the stack, the threshold of the outermost open test item only. */
  datatype Simple = Simple(pending: bool, outer: Option<int>)

  function TrackSimple(ls: seq<Line>, i: nat): Simple
    requires i <= |ls|
  {
    if i == 0 then Simple(false, None) else
      var t, line := TrackSimple(ls, i - 1), ls[i - 1];
      Simple(PendingAfter(t.pending, line),
             OuterAfter(t.outer, Opens(t.pending, line), DepthBefore(ls, i - 1), DepthBefore(ls, i)))
  }

  /** The simple machine reports line `i`. */
  predicate SimpleHit(ls: seq<Line>, i: nat)
    requires i < |ls|
  {
    var t := TrackSimple(ls, i);
    ls[i].Code? && ls[i].unwraps && t.outer.None? && !Opens(t.pending, ls[i])
  }

  lemma {:induction false} PopBelowBottom(stack: seq<int>, depth: int)
    requires Increasing(stack) && stack != []
    ensures PopBelow(stack, depth) == [] <==> depth < stack[0]
    ensures PopBelow(stack, depth) != [] ==> PopBelow(stack, depth)[0] == stack[0]
  {
    PopBelowKeeps(stack, depth);
    if PopBelow(stack, depth) == [] {
      assert stack[0] in stack;
    }
  }

  /** `outer` is the bottom of the stack, and `None` if the stack is empty. */
  ghost predicate Bottom(stack: seq<int>, outer: Option<int>) {
    if stack == [] then outer.None? else outer == Some(stack[0])
  }

  function OuterAfter(outer: Option<int>, push: bool, before: int, after: int): Option<int> {
    var pushed := if push && outer.None? then Some(before + 1) else outer;
    if pushed.Some? && after < pushed.value then None else pushed
  }

  lemma OuterStep(stack: seq<int>, outer: Option<int>, push: bool, before: int, after: int)
    requires Increasing(stack) && Bottom(stack, outer) && (stack != [] ==> stack[|stack| - 1] <= before)
    ensures
      var next := PopBelow(PushIf(stack, push, before), after);
      && Increasing(next) && Bottom(next, OuterAfter(outer, push, before, after))
      && (next != [] ==> next[|next| - 1] <= after)
  {
    var pushed := PushIf(stack, push, before);
    assert Increasing(pushed);
    PopBelowKeeps(pushed, after);
    if pushed != [] { PopBelowBottom(pushed, after); }
  }

  lemma SkippedStep(stack: seq<int>, outer: Option<int>, depth: int)
    requires Bottom(stack, outer) && Increasing(stack) && (stack != [] ==> stack[|stack| - 1] <= depth)
    ensures OuterAfter(outer, false, depth, depth) == outer
  {
  }

  /** On every line sequence the stack is strictly increasing with its top at most the depth, and the
      machine without a stack has the same flag and remembers exactly the bottom of the stack. */
  lemma {:induction false} StackRefinesOutermost(ls: seq<Line>, i: nat)
    requires i <= |ls|
    ensures
      var t, simple := Track(ls, i), TrackSimple(ls, i);
      && Increasing(t.stack) && (t.stack != [] ==> t.stack[|t.stack| - 1] <= DepthBefore(ls, i))
      && Bottom(t.stack, simple.outer) && t.pending == simple.pending
  {
    if i > 0 {
      hide Increasing, PopBelow, Bottom, OuterAfter;
      StackRefinesOutermost(ls, i - 1);
      var t, simple, line := Track(ls, i - 1), TrackSimple(ls, i - 1), ls[i - 1];
      if line.Code? {
        OuterStep(t.stack, simple.outer, Opens(t.pending, line), DepthBefore(ls, i - 1), DepthBefore(ls, i));
      } else {
        SkippedStep(t.stack, simple.outer, DepthBefore(ls, i));
      }
    } else {
      assert Increasing([]) && Bottom([], None);
    }
  }

  lemma OpensIff(ls: seq<Line>, i: nat, pending: bool)
    requires i < |ls| && (pending <==> Marked(ls, i))
    ensures Opens(pending, ls[i]) <==> StartsTest(ls, i)
  {
  }

  lemma PendingMeans(ls: seq<Line>, i: nat, pending: bool)
    requires i < |ls| && (pending <==> Marked(ls, i))
    ensures PendingAfter(pending, ls[i]) <==> Marked(ls, i + 1)
  {
    hide Marked;
    MarkedNext(ls, i);
  }

  /** The flag means that a test attribute is pending, and the stack holds the thresholds of the open
      test items. */
  lemma {:induction false} TrackMeans(ls: seq<Line>, i: nat)
    requires i <= |ls|
    ensures StackIs(ls, i, Track(ls, i).stack) && (Track(ls, i).pending <==> Marked(ls, i))
  {
    if i > 0 {
      hide StackIs, Marked, PopBelow, StartsTest, Opens, PendingAfter, DepthBefore;
      TrackMeans(ls, i - 1);
      var t := Track(ls, i - 1);
      OpensIff(ls, i - 1, t.pending);
      PendingMeans(ls, i - 1, t.pending);
      if ls[i - 1].Code? {
        StackNext(ls, i - 1, t.stack);
      } else {
        NotCode(t.pending, ls[i - 1]);
        SkippedLine(ls, i - 1, t.stack);
      }
    } else {
      assert StackIs(ls, 0, []) && !Marked(ls, 0);
    }
  }

  lemma NotCode(pending: bool, line: Line)
    requires !line.Code?
    ensures !Opens(pending, line)
  {
  }

  /** The simple machine reports exactly the unwrapping lines outside all test items. */
  lemma SimpleHitIff(ls: seq<Line>, i: nat)
    requires i < |ls|
    ensures SimpleHit(ls, i) <==> IsHit(ls, i)
  {
    hide InTest, StackIs, Marked, DepthBefore;
    var t := Track(ls, i);
    TrackMeans(ls, i);
    StackRefinesOutermost(ls, i);
    EmptyIffOutside(ls, i, t.stack);
    OpensIff(ls, i, t.pending);
  }

  // ----- the scan -----

  /** A reported line: its number and its text, cut to a hundred characters. */
  datatype Hit = Hit(line: nat, text: string)

  /** The lines found so far: in order, each of them a hit with its text, and none left out. */
  ghost predicate HitsUpTo(ls: seq<Line>, texts: seq<string>, i: nat, hits: seq<Hit>)
    requires i <= |ls| == |texts|
  {
    && (forall a, b :: 0 <= a < b < |hits| ==> hits[a].line < hits[b].line)
    && (forall h :: h in hits <==> 1 <= h.line <= i && IsHit(ls, h.line - 1) && h.text == texts[h.line - 1])
  }

  lemma HitsNext(ls: seq<Line>, texts: seq<string>, i: nat, hits: seq<Hit>)
    requires i < |ls| == |texts| && HitsUpTo(ls, texts, i, hits)
    ensures IsHit(ls, i) ==> HitsUpTo(ls, texts, i + 1, hits + [Hit(i + 1, texts[i])])
    ensures !IsHit(ls, i) ==> HitsUpTo(ls, texts, i + 1, hits)
  {
    hide IsHit;
    forall a | 0 <= a < |hits| ensures hits[a].line <= i {
      assert hits[a] in hits;
    }
    if IsHit(ls, i) {
      var more := hits + [Hit(i + 1, texts[i])];
      forall h ensures h in more <==> 1 <= h.line <= i + 1 && IsHit(ls, h.line - 1) && h.text == texts[h.line - 1] {
        assert h in more <==> h in hits || h == Hit(i + 1, texts[i]);
      }
    }
  }

  lemma StartState(ls: seq<Line>, texts: seq<string>)
    requires |texts| == |ls|
    ensures StackIs(ls, 0, []) && !Marked(ls, 0) && HitsUpTo(ls, texts, 0, [])
  {
  }

  /** The lines that unwrap outside all test items, exactly and in order, with their texts. They are
      the lines that the simple machine reports. */
  method ScanLines(ls: seq<Line>, texts: seq<string>) returns (hits: seq<Hit>)
    requires |texts| == |ls|
    ensures HitsUpTo(ls, texts, |ls|, hits)
    ensures forall n :: 0 <= n < |ls| ==> (Hit(n + 1, texts[n]) in hits <==> SimpleHit(ls, n))
  {
    hide StackIs, Marked, HitsUpTo, InTest, PopBelow, SimpleHit;
    hits := [];
    var depth: int := 0;
    var testBlocks: seq<int> := [];
    var pendingTest := false;
    var i := 0;
    StartState(ls, texts);
    while i < |ls|
      invariant 0 <= i <= |ls|
      invariant depth == DepthBefore(ls, i)
      invariant testBlocks == Track(ls, i).stack && pendingTest == Track(ls, i).pending
      invariant HitsUpTo(ls, texts, i, hits)
    {
      var line := ls[i];
      HitsNext(ls, texts, i, hits);
      match line {
      case Blank =>
      case Attribute(marksTest) =>
        if marksTest { pendingTest := true; }
      case Code(testModule, opens, closes, unwraps) =>
        TrackMeans(ls, i);
        EmptyIffOutside(ls, i, testBlocks);
        var itemIsTest := pendingTest || testModule;
        pendingTest := false;
        if itemIsTest && opens > 0 {
          testBlocks := testBlocks + [depth + 1];
        }
        if |testBlocks| == 0 && unwraps {
          hits := hits + [Hit(i + 1, texts[i])];
        }
        depth := depth + opens - closes;
        testBlocks := PopLoop(testBlocks, depth);
      }
      i := i + 1;
    }
    forall n | 0 <= n < |ls| ensures Hit(n + 1, texts[n]) in hits <==> SimpleHit(ls, n) {
      SimpleHitIff(ls, n);
      HitIsListed(ls, texts, hits, n);
    }
  }

  lemma HitIsListed(ls: seq<Line>, texts: seq<string>, hits: seq<Hit>, n: nat)
    requires |texts| == |ls| && n < |ls| && HitsUpTo(ls, texts, |ls|, hits)
    ensures Hit(n + 1, texts[n]) in hits <==> IsHit(ls, n)
  {
    hide IsHit;
  }

  method PopLoop(stack: seq<int>, depth: int) returns (r: seq<int>)
    ensures r == PopBelow(stack, depth)
  {
    r := stack;
    while |r| > 0 && depth < r[|r| - 1]
      invariant PopBelow(stack, depth) == PopBelow(r, depth)
    {
      r := r[..|r| - 1];
    }
  }

  // ----- what a raw line is -----

  predicate White(x: string) {
    AllAre(x, IsSpace)
  }

  /** `x` is the line without the white space at its ends. */
  ghost predicate IsCore(raw: string, x: string) {
    Trimmed(x, IsSpace) && exists a, b :: raw == a + x + b && White(a) && White(b)
  }

  ghost predicate IsBlank(raw: string) {
    IsCore(raw, "")
  }

  /** The line starts with the mark of an attribute. */
  ghost predicate IsAttribute(raw: string) {
    exists rest :: IsCore(raw, "#[" + rest)
  }

  ghost predicate Unwraps(raw: string) {
    exists a, b :: raw == a + ".unwrap()" + b
  }

  /** What is to be known of a raw line: blank, an attribute that marks a test if and only if one of the
      two patterns matches, or code with its braces. */
  ghost predicate Describes(p: Patterns, raw: string, line: Line) {
    match line
    case Blank => IsBlank(raw)
    case Attribute(marksTest) =>
      IsAttribute(raw) && (marksTest <==> exists x :: IsCore(raw, x) && (p.cfgTest(x) || p.testAttr(x)))
    case Code(testModule, opens, closes, unwraps) =>
      && !IsBlank(raw) && !IsAttribute(raw)
      && (testModule <==> exists x :: IsCore(raw, x) && p.testMod(x))
      && opens == CountChar(raw, '{') && closes == CountChar(raw, '}')
      && (unwraps <==> Unwraps(raw))
  }

  lemma TrimIsCore(raw: string)
    ensures IsCore(raw, Trim(raw, IsSpace))
  {
    hide Trim;
    var a, b := TrimParts(raw, IsSpace);
    assert White(a) && White(b);
  }

  /** A line has one core. */
  lemma CoreIs(raw: string, x: string)
    requires IsCore(raw, x)
    ensures x == Trim(raw, IsSpace)
  {
    hide Trim;
    var a, b :| raw == a + x + b && White(a) && White(b);
    TrimAround(a, x, b, IsSpace);
  }

  lemma FrontIsWhite(a: string, y: string, k: nat)
    requires White(a) && k < |a|
    ensures IsSpace((a + y)[k])
  {
  }

  lemma BackIsWhite(y: string, b: string, k: nat)
    requires White(b) && |y| <= k < |y + b|
    ensures IsSpace((y + b)[k])
  {
  }

  /** The call stands in the core if and only if it stands in the line: it holds no white space. */
  lemma UnwrapInCore(raw: string)
    ensures Contains(Trim(raw, IsSpace), ".unwrap()") <==> Unwraps(raw)
  {
    hide Trim, IsSpace, White, Contains;
    var x := Trim(raw, IsSpace);
    TrimIsCore(raw);
    var a, b :| raw == a + x + b && White(a) && White(b);
    if Contains(x, ".unwrap()") { CallInLine(a, x, b); }
    if Unwraps(raw) {
      var c, d :| raw == c + ".unwrap()" + d;
      CallInCore(a, x, b, c, d);
    }
  }

  lemma CallInLine(a: string, x: string, b: string)
    requires Contains(x, ".unwrap()")
    ensures Unwraps(a + x + b)
  {
    var i :| 0 <= i <= |x| && At(x, i, ".unwrap()");
    assert x == x[..i] + ".unwrap()" + x[i + 9..];
    assert a + x + b == (a + x[..i]) + ".unwrap()" + (x[i + 9..] + b);
  }

  lemma CallInCore(a: string, x: string, b: string, c: string, d: string)
    requires a + x + b == c + ".unwrap()" + d && White(a) && White(b)
    ensures Contains(x, ".unwrap()")
  {
    var raw := a + x + b;
    assert raw[|c|] == '.' && raw[|c| + 8] == ')' && raw[|c|..|c| + 9] == ".unwrap()";
    NoDotOutside(a, x, b, |c|);
    NoDotOutside(a, x, b, |c| + 8);
    var i := |c| - |a|;
    assert x[i..i + 9] == raw[|c|..|c| + 9];
    assert At(x, i, ".unwrap()");
  }

  lemma NoDotOutside(a: string, x: string, b: string, k: nat)
    requires White(a) && White(b) && k < |a + x + b| && ((a + x + b)[k] == '.' || (a + x + b)[k] == ')')
    ensures |a| <= k < |a| + |x|
  {
    assert a + x + b == a + (x + b);
    if k < |a| { FrontIsWhite(a, x + b, k); }
    if k >= |a| + |x| { BackIsWhite(a + x, b, k); }
  }

  lemma {:induction false} BracesInCore(raw: string, c: char)
    requires !IsSpace(c)
    ensures CountChar(Trim(raw, IsSpace), c) == CountChar(raw, c)
  {
    TrimKeepsCounts(raw, c);
    TrimKeepsCounts(TrimLeft(raw, IsSpace), c);
  }

  lemma AttributeStart(x: string)
    ensures At(x, 0, "#[") <==> exists rest :: x == "#[" + rest
  {
    if At(x, 0, "#[") {
      assert x == "#[" + x[2..];
    }
    if exists rest :: x == "#[" + rest {
      var rest :| x == "#[" + rest;
      assert x[0..2] == "#[";
    }
  }

  lemma AttributeIff(raw: string)
    ensures At(Trim(raw, IsSpace), 0, "#[") <==> IsAttribute(raw)
  {
    hide IsCore, Trim, At;
    var x := Trim(raw, IsSpace);
    TrimIsCore(raw);
    AttributeStart(x);
    if IsAttribute(raw) {
      var rest :| IsCore(raw, "#[" + rest);
      CoreIs(raw, "#[" + rest);
    }
  }

  lemma BlankIff(raw: string)
    ensures Trim(raw, IsSpace) == "" <==> IsBlank(raw)
  {
    hide IsCore, Trim;
    TrimIsCore(raw);
    if IsBlank(raw) { CoreIs(raw, ""); }
  }

  lemma PatternOnCore(raw: string, match_: string -> bool)
    ensures match_(Trim(raw, IsSpace)) <==> exists x :: IsCore(raw, x) && match_(x)
  {
    hide IsCore, Trim;
    TrimIsCore(raw);
    forall x | IsCore(raw, x) ensures x == Trim(raw, IsSpace) { CoreIs(raw, x); }
  }

  /** The scan knows of every line what there is to know. */
  lemma ClassifyDescribes(p: Patterns, raw: string)
    ensures Describes(p, raw, Classify(p, raw))
  {
    hide IsCore, Trim, IsBlank, IsAttribute, Unwraps, Contains, At, CountChar;
    var x := Trim(raw, IsSpace);
    BlankIff(raw);
    AttributeIff(raw);
    UnwrapInCore(raw);
    BracesInCore(raw, '{');
    BracesInCore(raw, '}');
    PatternOnCore(raw, p.testMod);
    TrimIsCore(raw);
    forall y | IsCore(raw, y) ensures y == x { CoreIs(raw, y); }
  }

  lemma DescribedOnce(p: Patterns, raw: string, a: Line, b: Line)
    requires Describes(p, raw, a) && Describes(p, raw, b)
    ensures a == b
  {
    hide IsCore, Unwraps, CountChar;
    if IsBlank(raw) && IsAttribute(raw) {
      var rest :| IsCore(raw, "#[" + rest);
      CoreIs(raw, "");
      CoreIs(raw, "#[" + rest);
    }
  }

  // ----- a whole file -----

  /** `ls` says of every line what is to be known of it. */
  ghost predicate DescribesAll(p: Patterns, raws: seq<string>, ls: seq<Line>) {
    |ls| == |raws| && forall k :: 0 <= k < |raws| ==> Describes(p, raws[k], ls[k])
  }

  function ClassifyAll(p: Patterns, raws: seq<string>): (ls: seq<Line>)
    ensures |ls| == |raws| && forall i :: 0 <= i < |raws| ==> ls[i] == Classify(p, raws[i])
  {
    if raws == [] then [] else [Classify(p, raws[0])] + ClassifyAll(p, raws[1..])
  }

  /** The lines of a text are described in one way only. */
  lemma DescribedInOneWay(p: Patterns, raws: seq<string>, ls: seq<Line>, ks: seq<Line>)
    requires DescribesAll(p, raws, ls) && DescribesAll(p, raws, ks)
    ensures ls == ks
  {
    hide Describes;
    forall k | 0 <= k < |raws| ensures ls[k] == ks[k] { DescribedOnce(p, raws[k], ls[k], ks[k]); }
  }

  /** The text reported for a line. */
  function Excerpt(raw: string): (r: string)
    ensures |r| <= 100 && r <= Trim(raw, IsSpace)
  {
    var s := Trim(raw, IsSpace);
    if |s| <= 100 then s else s[..100]
  }

  function Excerpts(raws: seq<string>): (r: seq<string>)
    ensures |r| == |raws| && forall i :: 0 <= i < |raws| ==> r[i] == Excerpt(raws[i])
  {
    if raws == [] then [] else [Excerpt(raws[0])] + Excerpts(raws[1..])
  }

  /** `text` is the line without the white space at its ends, cut after a hundred characters. */
  ghost predicate IsExcerpt(raw: string, text: string) {
    exists rest :: IsCore(raw, text + rest) && (|text| == 100 || (|text| < 100 && rest == ""))
  }

  lemma ExcerptIs(raw: string)
    ensures IsExcerpt(raw, Excerpt(raw))
  {
    hide IsCore, Trim;
    TrimIsCore(raw);
    var s := Trim(raw, IsSpace);
    assert s == Excerpt(raw) + s[|Excerpt(raw)|..];
  }

  /** The hits of a text with these lines, `ls` saying what they are: those that hold the call, are no
      attribute and lie outside all test items, each with its number and excerpt, in order. */
  ghost predicate HitsOf(raws: seq<string>, ls: seq<Line>, hits: seq<Hit>) {
    && |ls| == |raws|
    && (forall a, b :: 0 <= a < b < |hits| ==> hits[a].line < hits[b].line)
    && (forall h :: h in hits ==> 1 <= h.line <= |raws| && IsExcerpt(raws[h.line - 1], h.text))
    && (forall n :: 0 <= n < |raws| ==>
          ((exists h :: h in hits && h.line == n + 1)
           <==> Unwraps(raws[n]) && !IsAttribute(raws[n]) && !InTest(ls, n)))
  }

  lemma HitIff(p: Patterns, raws: seq<string>, ls: seq<Line>, n: nat)
    requires DescribesAll(p, raws, ls) && n < |raws|
    ensures IsHit(ls, n) <==> Unwraps(raws[n]) && !IsAttribute(raws[n]) && !InTest(ls, n)
  {
    hide InTest, IsCore;
    if Unwraps(raws[n]) { UnwrapsNotBlank(raws[n]); }
  }

  lemma UnwrapsNotBlank(raw: string)
    requires Unwraps(raw)
    ensures !IsBlank(raw)
  {
    hide IsCore, Trim;
    UnwrapInCore(raw);
    if IsBlank(raw) { CoreIs(raw, ""); }
  }

  lemma HitsMean(p: Patterns, raws: seq<string>, ls: seq<Line>, hits: seq<Hit>)
    requires DescribesAll(p, raws, ls) && HitsUpTo(ls, Excerpts(raws), |raws|, hits)
    ensures HitsOf(raws, ls, hits)
  {
    hide IsHit, InTest, IsExcerpt, Excerpt, Unwraps, IsAttribute, Describes;
    assert |Excerpts(raws)| == |raws|;
    forall h | h in hits ensures 1 <= h.line <= |raws| && IsExcerpt(raws[h.line - 1], h.text) {
      ExcerptIs(raws[h.line - 1]);
    }
    forall n | 0 <= n < |raws|
      ensures (exists h :: h in hits && h.line == n + 1)
              <==> Unwraps(raws[n]) && !IsAttribute(raws[n]) && !InTest(ls, n)
    {
      HitIff(p, raws, ls, n);
      HitIsListed(ls, Excerpts(raws), hits, n);
    }
  }

  lemma ClassifiedIsDescribed(p: Patterns, raws: seq<string>)
    ensures DescribesAll(p, raws, ClassifyAll(p, raws))
  {
    hide Describes, Classify;
    forall k | 0 <= k < |raws| ensures Describes(p, raws[k], ClassifyAll(p, raws)[k]) { ClassifyDescribes(p, raws[k]); }
  }

  /** Scans a source text. A line is reported if and only if what stripping leaves of it holds the call,
      is no attribute and lies outside all test items. Each reported number is that of the line in the
      source itself, because stripping keeps every line at its place. */
  method Scan(p: Patterns, src: string) returns (hits: seq<Hit>)
    ensures
      var stripped := Lines(Strip(src));
      && |stripped| == |Lines(src)|
      && (forall k :: 0 <= k < |stripped| ==> Pruned(Lines(src)[k], stripped[k]))
      && exists ls :: DescribesAll(p, stripped, ls) && HitsOf(stripped, ls, hits)
  {
    hide HitsUpTo, HitsOf, DescribesAll, Excerpts, ClassifyAll, Pruned, IsHit, SimpleHit;
    var stripped := StripSource(src);
    PrunedLineByLine(src, stripped);
    var lines := Lines(stripped);
    assert |ClassifyAll(p, lines)| == |lines| == |Excerpts(lines)|;
    hits := ScanLines(ClassifyAll(p, lines), Excerpts(lines));
    ClassifiedIsDescribed(p, lines);
    HitsMean(p, lines, ClassifyAll(p, lines), hits);
  }
}
