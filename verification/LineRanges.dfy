/** Compressing a list of line numbers into ranges of consecutive numbers. */
module LineRanges {

  datatype Range = Range(first: int, last: int)

  /** The numbers of a range, in order. */
  function Numbers(r: Range): seq<int>
    decreases r.last - r.first
  {
    if r.first > r.last then [] else [r.first] + Numbers(Range(r.first + 1, r.last))
  }

  function Expand(ranges: seq<Range>): seq<int> {
    if ranges == [] then [] else Expand(ranges[..|ranges| - 1]) + Numbers(ranges[|ranges| - 1])
  }

  ghost predicate NonEmpty(ranges: seq<Range>) {
    forall i :: 0 <= i < |ranges| ==> ranges[i].first <= ranges[i].last
  }

  /** Two neighbouring ranges that could be one. */
  ghost predicate Mergeable(a: Range, b: Range) {
    b.first == a.last + 1
  }

  ghost predicate Maximal(ranges: seq<Range>) {
    forall i :: 0 <= i < |ranges| - 1 ==> !Mergeable(ranges[i], ranges[i + 1])
  }

  lemma {:induction false} NumbersSnoc(r: Range)
    requires r.first <= r.last + 1
    ensures Numbers(Range(r.first, r.last + 1)) == Numbers(r) + [r.last + 1]
    decreases r.last - r.first + 1
  {
    if r.first <= r.last {
      NumbersSnoc(Range(r.first + 1, r.last));
    }
  }

  lemma NoRanges()
    ensures Expand([]) == [] && Maximal([])
  {
  }

  lemma OneNumber(n: int)
    ensures Numbers(Range(n, n)) == [n]
  {
  }

  lemma AppendRange(ranges: seq<Range>, r: Range)
    requires Maximal(ranges) && (ranges != [] ==> !Mergeable(ranges[|ranges| - 1], r))
    ensures Expand(ranges + [r]) == Expand(ranges) + Numbers(r) && Maximal(ranges + [r])
  {
    assert (ranges + [r])[..|ranges|] == ranges;
  }

  /** The ranges expand to exactly the given list, none is empty, and no two neighbours could be merged. */
  method CompressRanges(lines: seq<int>) returns (ranges: seq<Range>)
    ensures Expand(ranges) == lines && NonEmpty(ranges) && Maximal(ranges)
  {
    hide Expand, Numbers, Maximal;
    if |lines| == 0 { NoRanges(); return []; }
    NoRanges();
    ranges := [];
    var start, end := lines[0], lines[0];
    OneNumber(lines[0]);
    assert lines[..1] == [lines[0]];
    var i := 1;
    while i < |lines|
      invariant 1 <= i <= |lines| && start <= end
      invariant Expand(ranges) + Numbers(Range(start, end)) == lines[..i]
      invariant NonEmpty(ranges) && Maximal(ranges)
      invariant ranges != [] ==> !Mergeable(ranges[|ranges| - 1], Range(start, end))
    {
      assert lines[..i + 1] == lines[..i] + [lines[i]];
      if lines[i] == end + 1 {
        NumbersSnoc(Range(start, end));
        end := lines[i];
      } else {
        AppendRange(ranges, Range(start, end));
        OneNumber(lines[i]);
        ranges := ranges + [Range(start, end)];
        start, end := lines[i], lines[i];
      }
      i := i + 1;
    }
    assert lines[..i] == lines;
    AppendRange(ranges, Range(start, end));
    ranges := ranges + [Range(start, end)];
  }

  // ----- shortest -----

  /** At how many places a list does not go on with the next number. */
  function Breaks(s: seq<int>): nat {
    if |s| <= 1 then 0
    else Breaks(s[..|s| - 1]) + if s[|s| - 1] == s[|s| - 2] + 1 then 0 else 1
  }

  lemma {:induction false} NumbersEnds(r: Range)
    requires r.first <= r.last
    ensures |Numbers(r)| == r.last - r.first + 1
    ensures Numbers(r)[0] == r.first && Numbers(r)[|Numbers(r)| - 1] == r.last
    decreases r.last - r.first
  {
    if r.first < r.last { NumbersEnds(Range(r.first + 1, r.last)); }
  }

  lemma BreaksSnoc(s: seq<int>, x: int)
    ensures Breaks(s + [x]) == Breaks(s) + if s == [] || x == s[|s| - 1] + 1 then 0 else 1
  {
    assert (s + [x])[..|s|] == s;
  }

  lemma AppendAssociates(s: seq<int>, t: seq<int>, x: int)
    ensures s + (t + [x]) == (s + t) + [x]
  {
  }

  /** Appending a range breaks the list at most once, at the seam. */
  lemma {:induction false} BreaksOfAppended(s: seq<int>, r: Range)
    requires r.first <= r.last
    ensures Breaks(s + Numbers(r)) == Breaks(s) + if s == [] || r.first == s[|s| - 1] + 1 then 0 else 1
    decreases r.last - r.first
  {
    hide Breaks, Numbers;
    if r.first == r.last {
      OneNumber(r.first);
      BreaksSnoc(s, r.first);
    } else {
      var init := Range(r.first, r.last - 1);
      NumbersSnoc(init);
      NumbersEnds(init);
      BreaksOfAppended(s, init);
      AppendAssociates(s, Numbers(init), r.last);
      BreaksSnoc(s + Numbers(init), r.last);
    }
  }

  lemma ExpandEnds(ranges: seq<Range>)
    requires NonEmpty(ranges) && ranges != []
    ensures Expand(ranges) != [] && Expand(ranges)[|Expand(ranges)| - 1] == ranges[|ranges| - 1].last
  {
    NumbersEnds(ranges[|ranges| - 1]);
  }

  /** Any split into ranges needs at least one more range than the list has breaks, and a split in
      which no neighbours can be merged needs exactly that. */
  lemma {:induction false} RangesVersusBreaks(ranges: seq<Range>)
    requires NonEmpty(ranges) && ranges != []
    ensures |ranges| >= Breaks(Expand(ranges)) + 1
    ensures Maximal(ranges) ==> |ranges| == Breaks(Expand(ranges)) + 1
    decreases |ranges|
  {
    var k := |ranges| - 1;
    var init := ranges[..k];
    if init == [] {
      assert Expand(ranges) == [] + Numbers(ranges[0]);
    } else {
      RangesVersusBreaks(init);
      ExpandEnds(init);
      assert !Maximal(ranges) || !Mergeable(ranges[k - 1], ranges[k]);
    }
    BreaksOfAppended(Expand(init), ranges[k]);
  }

  /** No way of writing the list as ranges is shorter than the compressed one. */
  lemma CompressedIsShortest(compressed: seq<Range>, other: seq<Range>)
    requires NonEmpty(compressed) && Maximal(compressed) && NonEmpty(other)
    requires Expand(compressed) == Expand(other)
    ensures |compressed| <= |other|
  {
    if compressed != [] {
      ExpandEnds(compressed);
      RangesVersusBreaks(compressed);
      RangesVersusBreaks(other);
    }
  }
}
