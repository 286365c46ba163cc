/** Strings: parts at a position, runs of characters, trimming, splitting and joining. */
module Text {
  /** Unicode white space. */
  predicate IsWhitespace(c: char) {
    || '\U{0009}' <= c <= '\U{000D}' || c == ' '
    || c == '\U{0085}' || c == '\U{00A0}' || c == '\U{1680}'
    || '\U{2000}' <= c <= '\U{200A}' || c == '\U{2028}' || c == '\U{2029}'
    || c == '\U{202F}' || c == '\U{205F}' || c == '\U{3000}'
  }

  /** The same by code points. */
  lemma WhitespaceTable(c: char)
    ensures IsWhitespace(c) <==>
            c as int in {0x9, 0xA, 0xB, 0xC, 0xD, 0x20, 0x85, 0xA0, 0x1680,
                         0x2000, 0x2001, 0x2002, 0x2003, 0x2004, 0x2005, 0x2006, 0x2007, 0x2008, 0x2009, 0x200A,
                         0x2028, 0x2029, 0x202F, 0x205F, 0x3000}
  {
  }

  /** `x` stands in `t` at position `i`. */
  predicate At(t: string, i: nat, x: string) {
    i + |x| <= |t| && t[i..i + |x|] == x
  }

  lemma AtSplit(t: string, i: nat, x: string, y: string)
    requires At(t, i, x + y)
    ensures i + |x| + |y| <= |t| && At(t, i, x) && At(t, i + |x|, y)
  {
    var n := |x + y|;
    assert t[i..i + n][..|x|] == x && t[i..i + n][|x|..] == y;
  }

  lemma AtChar(t: string, i: nat, x: string, k: nat)
    requires At(t, i, x) && k < |x|
    ensures i + k < |t| && t[i + k] == x[k]
  {
    assert t[i..i + |x|][k] == x[k];
  }

  /** The end of the run of characters satisfying `p` that starts at `i`. */
  function RunEnd(t: string, i: nat, p: char -> bool): (j: nat)
    requires i <= |t|
    ensures i <= j <= |t|
    ensures forall k :: i <= k < j ==> p(t[k])
    ensures j < |t| ==> !p(t[j])
    decreases |t| - i
  {
    if i < |t| && p(t[i]) then RunEnd(t, i + 1, p) else i
  }

  // ----- counting -----

  function CountChar(s: string, c: char): nat {
    if s == [] then 0 else (if s[0] == c then 1 else 0) + CountChar(s[1..], c)
  }

  lemma {:induction false} CountConcat(s: string, x: string, c: char)
    ensures CountChar(s + x, c) == CountChar(s, c) + CountChar(x, c)
  {
    if s == [] {
      assert s + x == x;
    } else {
      CountConcat(s[1..], x, c);
      assert (s + x)[1..] == s[1..] + x;
    }
  }

  lemma {:induction false} NoneCounted(s: string, c: char)
    ensures CountChar(s, c) == 0 <==> c !in s
  {
    if s != [] { NoneCounted(s[1..], c); }
  }

  // ----- trimming -----

  function TrimLeft(s: string, space: char -> bool): string {
    if s != [] && space(s[0]) then TrimLeft(s[1..], space) else s
  }

  function TrimRight(s: string, space: char -> bool): string {
    if s != [] && space(s[|s| - 1]) then TrimRight(s[..|s| - 1], space) else s
  }

  function Trim(s: string, space: char -> bool): string {
    TrimRight(TrimLeft(s, space), space)
  }

  // ----- splitting and joining -----

  /** Splits at every `c`; the result has one part more than `s` has separators. */
  function Split(s: string, c: char): (r: seq<string>)
    ensures r != []
  {
    if s == [] then [""]
    else if s[0] == c then [""] + Split(s[1..], c)
    else
      var rest := Split(s[1..], c);
      [[s[0]] + rest[0]] + rest[1..]
  }

  function Join(parts: seq<string>, c: char): string
    requires parts != []
  {
    if |parts| == 1 then parts[0] else parts[0] + ([c] + Join(parts[1..], c))
  }

  lemma JoinHead(h: char, r: seq<string>, c: char)
    requires r != []
    ensures Join([[h] + r[0]] + r[1..], c) == [h] + Join(r, c)
  {
    var t := [[h] + r[0]] + r[1..];
    assert t[1..] == r[1..];
  }

  lemma {:induction false} JoinSplit(s: string, c: char)
    ensures Join(Split(s, c), c) == s
  {
    if s != [] {
      JoinSplit(s[1..], c);
      var rest := Split(s[1..], c);
      assert s == [s[0]] + s[1..];
      if s[0] == c {
        assert Split(s, c)[1..] == rest;
      } else {
        JoinHead(s[0], rest, c);
      }
    }
  }

  lemma HeadOfConcat(h: char, r: seq<string>, y: seq<string>)
    requires r != []
    ensures ([[h] + r[0]] + r[1..]) + y == [[h] + (r + y)[0]] + (r + y)[1..]
  {
  }

  lemma ConsConcat<T>(h: T, x: seq<T>, y: seq<T>)
    ensures [h] + x + y == [h] + (x + y)
  {
  }

  lemma SplitFirst(h: char, s: string, c: char)
    ensures
      var rest := Split(s, c);
      Split([h] + s, c) == if h == c then [""] + rest else [[h] + rest[0]] + rest[1..]
  {
    assert ([h] + s)[1..] == s;
  }

  lemma {:induction false} SplitAround(x: string, c: char, y: string)
    ensures Split(x + ([c] + y), c) == Split(x, c) + Split(y, c)
  {
    if x == [] {
      assert x + ([c] + y) == [c] + y;
      SplitFirst(c, y, c);
    } else {
      var h, rest := x[0], x[1..];
      SplitAround(rest, c, y);
      hide Split;
      assert x == [h] + rest;
      ConsConcat(h, rest, [c] + y);
      SplitFirst(h, rest, c);
      SplitFirst(h, rest + ([c] + y), c);
      if h == c {
        ConsConcat("", Split(rest, c), Split(y, c));
      } else {
        HeadOfConcat(h, Split(rest, c), Split(y, c));
      }
    }
  }

  lemma {:induction false} SplitWithout(x: string, c: char)
    requires c !in x
    ensures Split(x, c) == [x]
  {
    if x != [] {
      SplitWithout(x[1..], c);
      assert x == [x[0]] + x[1..];
    }
  }

  lemma {:induction false} SplitJoin(parts: seq<string>, c: char)
    requires parts != [] && forall i :: 0 <= i < |parts| ==> c !in parts[i]
    ensures Split(Join(parts, c), c) == parts
  {
    SplitWithout(parts[0], c);
    if |parts| > 1 {
      SplitAround(parts[0], c, Join(parts[1..], c));
      SplitJoin(parts[1..], c);
      assert parts == [parts[0]] + parts[1..];
    }
  }

  lemma {:induction false} PartsWithout(s: string, c: char, d: char)
    requires d !in s
    ensures forall i :: 0 <= i < |Split(s, c)| ==> d !in Split(s, c)[i]
  {
    if s != [] { PartsWithout(s[1..], c, d); }
  }

  /** The parts of a split hold no separator. */
  lemma {:induction false} SplitRemoves(s: string, c: char)
    ensures forall i :: 0 <= i < |Split(s, c)| ==> c !in Split(s, c)[i]
  {
    if s != [] { SplitRemoves(s[1..], c); }
  }

  lemma {:induction false} JoinWithout(parts: seq<string>, c: char, d: char)
    requires parts != [] && c != d && forall i :: 0 <= i < |parts| ==> d !in parts[i]
    ensures d !in Join(parts, c)
  {
    if |parts| > 1 { JoinWithout(parts[1..], c, d); }
  }

  // ----- a text in front of the rest -----

  predicate NotFirst(rest: string, p: char -> bool) {
    rest == "" || !p(rest[0])
  }

  predicate AllAre(x: string, p: char -> bool) {
    forall k :: 0 <= k < |x| ==> p(x[k])
  }

  lemma Associate<T>(a: seq<T>, b: seq<T>, c: seq<T>)
    ensures a + b + c == a + (b + c)
  {
  }

  lemma JoinSlices(t: string, i: nat, n: nat, j: nat)
    requires i <= n <= j <= |t|
    ensures t[i..j] == t[i..n] + t[n..j]
  {
  }

  lemma SuffixParts(t: string, i: nat, x: string, rest: string)
    requires i <= |t| && t[i..] == x + rest
    ensures i + |x| <= |t| && At(t, i, x) && t[i + |x|..] == rest
    ensures rest == "" <==> i + |x| == |t|
    ensures rest != "" ==> t[i + |x|] == rest[0]
  {
    assert t[i..][..|x|] == x && t[i..][|x|..] == rest;
  }

  lemma {:induction false} RunOver(t: string, i: nat, x: string, p: char -> bool)
    requires At(t, i, x) && (forall k :: 0 <= k < |x| ==> p(x[k]))
    requires i + |x| < |t| ==> !p(t[i + |x|])
    ensures RunEnd(t, i, p) == i + |x|
    decreases |x|
  {
    if x != [] {
      assert x == [x[0]] + x[1..];
      AtSplit(t, i, [x[0]], x[1..]);
      AtChar(t, i, x, 0);
      RunOver(t, i + 1, x[1..], p);
    }
  }

  lemma RunRead(t: string, i: nat, x: string, rest: string, p: char -> bool)
    requires i <= |t| && t[i..] == x + rest && AllAre(x, p) && NotFirst(rest, p)
    ensures i + |x| <= |t| && RunEnd(t, i, p) == i + |x| && t[i..i + |x|] == x
  {
    SuffixParts(t, i, x, rest);
    RunOver(t, i, x, p);
  }

  // ----- what trimming does -----

  predicate Trimmed(x: string, space: char -> bool) {
    x == "" || (!space(x[0]) && !space(x[|x| - 1]))
  }

  lemma {:induction false} TrimLeftOver(a: string, y: string, space: char -> bool)
    requires AllAre(a, space) && (y == "" || !space(y[0]))
    ensures TrimLeft(a + y, space) == y
  {
    if a == "" {
      assert a + y == y;
    } else {
      assert (a + y)[0] == a[0] && (a + y)[1..] == a[1..] + y;
      TrimLeftOver(a[1..], y, space);
    }
  }

  lemma {:induction false} TrimRightOver(y: string, d: string, space: char -> bool)
    requires AllAre(d, space) && (y == "" || !space(y[|y| - 1]))
    ensures TrimRight(y + d, space) == y
  {
    if d == "" {
      assert y + d == y;
    } else {
      var n := |d| - 1;
      assert (y + d)[|y + d| - 1] == d[n] && (y + d)[..|y + d| - 1] == y + d[..n];
      TrimRightOver(y, d[..n], space);
    }
  }

  /** Trimming takes exactly the white space around a text away. */
  lemma TrimAround(a: string, x: string, d: string, space: char -> bool)
    requires AllAre(a, space) && AllAre(d, space) && Trimmed(x, space)
    ensures Trim(a + x + d, space) == x
  {
    hide TrimLeft, TrimRight;
    if x == "" {
      assert a + x + d == (a + d) + "" && "" + "" == "";
      TrimLeftOver(a + d, "", space);
      TrimRightOver("", "", space);
    } else {
      assert a + x + d == a + (x + d);
      TrimLeftOver(a, x + d, space);
      TrimRightOver(x, d, space);
    }
  }

  lemma {:induction false} TrimLeftParts(s: string, space: char -> bool) returns (a: string)
    ensures s == a + TrimLeft(s, space) && AllAre(a, space)
    ensures TrimLeft(s, space) == "" || !space(TrimLeft(s, space)[0])
  {
    if s != "" && space(s[0]) {
      var rest := TrimLeftParts(s[1..], space);
      a := [s[0]] + rest;
      assert s == [s[0]] + s[1..];
    } else {
      a := "";
    }
  }

  lemma {:induction false} TrimRightParts(s: string, space: char -> bool) returns (d: string)
    ensures s == TrimRight(s, space) + d && AllAre(d, space)
    ensures TrimRight(s, space) == "" || !space(TrimRight(s, space)[|TrimRight(s, space)| - 1])
  {
    if s != "" && space(s[|s| - 1]) {
      var rest := TrimRightParts(s[..|s| - 1], space);
      d := rest + [s[|s| - 1]];
      assert s == s[..|s| - 1] + [s[|s| - 1]];
    } else {
      d := "";
    }
  }

  /** Every text is its trimmed form with white space around it. */
  lemma TrimParts(s: string, space: char -> bool) returns (a: string, d: string)
    ensures s == a + Trim(s, space) + d && AllAre(a, space) && AllAre(d, space) && Trimmed(Trim(s, space), space)
  {
    hide TrimLeft, TrimRight;
    a := TrimLeftParts(s, space);
    d := TrimRightParts(TrimLeft(s, space), space);
    var x := Trim(s, space);
    assert TrimLeft(s, space) == x + d;
    assert x != "" ==> x[0] == (x + d)[0];
  }
}
