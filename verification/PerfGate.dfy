/** Order statistics and the adaptive threshold of the benchmark gate, over exact reals. */
module PerfGate {
  import opened Sorting

  // ----- sorting numbers -----

  ghost predicate Ascending(s: seq<real>) {
    forall i, j :: 0 <= i < j < |s| ==> s[i] <= s[j]
  }

  predicate AtMost(x: real, y: real) { x <= y }

  function Sorted(s: seq<real>): (r: seq<real>)
    ensures |r| == |s|
  {
    MemberOfPermutation(Sort(AtMost, s), s);
    Sort(AtMost, s)
  }

  lemma SortedMember(s: seq<real>, i: nat)
    requires i < |s|
    ensures Sorted(s)[i] in s
  {
    MemberOfPermutation(Sort(AtMost, s), s);
  }

  /** How many samples lie strictly below `x`. */
  function CountBelow(s: seq<real>, x: real): nat {
    if s == [] then 0 else (if s[0] < x then 1 else 0) + CountBelow(s[1..], x)
  }

  /** How many samples lie at or below `x`. */
  function CountUpTo(s: seq<real>, x: real): nat {
    if s == [] then 0 else (if s[0] <= x then 1 else 0) + CountUpTo(s[1..], x)
  }

  function CountAbove(s: seq<real>, x: real): nat {
    if s == [] then 0 else (if s[0] > x then 1 else 0) + CountAbove(s[1..], x)
  }

  lemma SortedAscending(s: seq<real>)
    ensures Ascending(Sorted(s))
  {
    SortIsSorted(AtMost, s);
    assert forall i, j :: 0 <= i < j < |s| ==> AtMost(Sorted(s)[i], Sorted(s)[j]);
  }

  lemma {:induction false} InsertCounts(y: real, s: seq<real>, x: real)
    ensures CountBelow(Insert(AtMost, y, s), x) == CountBelow(s, x) + (if y < x then 1 else 0)
  {
    if s != [] && !(y <= s[0]) {
      InsertCounts(y, s[1..], x);
    }
  }

  lemma {:induction false} SortCounts(s: seq<real>, x: real)
    ensures CountBelow(Sorted(s), x) == CountBelow(s, x)
  {
    if s != [] {
      SortCounts(s[1..], x);
      InsertCounts(s[0], Sorted(s[1..]), x);
    }
  }

  lemma {:induction false} AtLeastBelow(s: seq<real>, k: nat, x: real)
    requires k <= |s| && forall i :: 0 <= i < k ==> s[i] < x
    ensures CountBelow(s, x) >= k
  {
    if k > 0 { AtLeastBelow(s[1..], k - 1, x); }
  }

  lemma {:induction false} AtMostBelow(s: seq<real>, k: nat, x: real)
    requires k <= |s| && forall i :: k <= i < |s| ==> s[i] >= x
    ensures CountBelow(s, x) <= k
  {
    if s != [] { AtMostBelow(s[1..], if k > 0 then k - 1 else 0, x); }
  }

  lemma {:induction false} AtLeastUpTo(s: seq<real>, k: nat, x: real)
    requires k <= |s| && forall i :: 0 <= i < k ==> s[i] <= x
    ensures CountUpTo(s, x) >= k
  {
    if k > 0 { AtLeastUpTo(s[1..], k - 1, x); }
  }

  /** What does not lie at or below `x` lies above it. */
  lemma {:induction false} UpToAndAbove(s: seq<real>, x: real)
    ensures CountUpTo(s, x) + CountAbove(s, x) == |s|
  {
    if s != [] { UpToAndAbove(s[1..], x); }
  }

  // ----- percentiles -----

  function Ceil(x: real): (r: int)
    ensures (r - 1) as real < x <= r as real
  {
    -((-x).Floor)
  }

  function Min(a: int, b: int): int {
    if a <= b then a else b
  }

  function Max(a: int, b: int): int {
    if a >= b then a else b
  }

  /** The share `p` of a sample of size `n`. */
  function Share(p: real, n: nat): real {
    p * n as real
  }

  /** Nearest-rank percentile of an ascending sample. */
  function Percentile(sorted: seq<real>, p: real): real {
    if sorted == [] then 0.0
    else
      var idx := Min(|sorted| - 1, Ceil(Share(p, |sorted|)) - 1);
      sorted[Max(0, idx)]
  }

  lemma ShareInRange(p: real, n: nat)
    requires n > 0 && 0.0 < p <= 1.0
    ensures 0.0 < Share(p, n) <= n as real
  {
  }

  lemma ShareMonotone(p: real, q: real, n: nat)
    requires p <= q
    ensures Share(p, n) <= Share(q, n)
  {
  }

  /** The element at the rank of `t` has at least `t` samples up to it and fewer than `t` below it. */
  lemma RankCounts(s: seq<real>, t: real)
    requires Ascending(s) && 0 < Ceil(t) <= |s|
    ensures
      var v := s[Ceil(t) - 1];
      CountUpTo(s, v) as real >= t && (CountBelow(s, v) as real) < t
  {
    var k := Ceil(t) - 1;
    AtLeastUpTo(s, k + 1, s[k]);
    AtMostBelow(s, k, s[k]);
  }

  /** At least `p` of the sample is not above the percentile, and less than `p` is strictly below it. */
  lemma PercentileIsNearestRank(s: seq<real>, p: real)
    requires s != [] && Ascending(s) && 0.0 < p <= 1.0
    ensures
      var v := Percentile(s, p);
      && v in s
      && CountUpTo(s, v) as real >= Share(p, |s|)
      && (CountBelow(s, v) as real) < Share(p, |s|)
  {
    hide Ceil, Share;
    var t := Share(p, |s|);
    ShareInRange(p, |s|);
    RankCounts(s, t);
  }

  /** Percentiles grow with `p` and never exceed the maximum. */
  lemma PercentileMonotone(s: seq<real>, p: real, q: real)
    requires s != [] && Ascending(s) && 0.0 < p <= q <= 1.0
    ensures Percentile(s, p) <= Percentile(s, q) <= s[|s| - 1]
  {
    hide Ceil, Share;
    ShareInRange(p, |s|);
    ShareInRange(q, |s|);
    ShareMonotone(p, q, |s|);
  }

  // ----- medians -----

  function Median(values: seq<real>): real {
    if values == [] then 0.0
    else
      var sorted := Sorted(values);
      var mid := |sorted| / 2;
      if |sorted| % 2 == 0 then (sorted[mid - 1] + sorted[mid]) / 2.0 else sorted[mid]
  }

  /** Nothing measured counts as zero. */
  lemma NothingMeasured(p: real)
    ensures Median([]) == 0.0 && Percentile([], p) == 0.0
  {
  }

  /** If the median of three or more values lies below a threshold, so do at least two of them. */
  lemma MedianBelowForcesTwo(values: seq<real>, threshold: real)
    requires |values| >= 3 && Median(values) < threshold
    ensures CountBelow(values, threshold) >= 2
  {
    hide Sorted, CountBelow;
    var sorted := Sorted(values);
    var mid := |sorted| / 2;
    SortedAscending(values);
    SortCounts(values, threshold);
    assert sorted[0] <= sorted[1];
    if |sorted| % 2 == 0 {
      assert sorted[mid - 1] <= sorted[mid];
      assert 1 <= mid - 1 && sorted[1] <= sorted[mid - 1];
    } else {
      assert sorted[1] <= sorted[mid];
    }
    AtLeastBelow(sorted, 2, threshold);
  }

  /** The median of any ascending arrangement of the values: its middle, or the mean of the two there. */
  lemma MedianIs(values: seq<real>, s: seq<real>)
    requires values != [] && Ascending(s) && multiset(s) == multiset(values)
    ensures
      var n := |values|;
      && |s| == n
      && (n % 2 == 1 ==> Median(values) == s[(n - 1) / 2])
      && (n % 2 == 0 ==> 2.0 * Median(values) == s[n / 2 - 1] + s[n / 2])
  {
    SortedAscending(values);
    assert multiset(Sorted(values)) == multiset(values);
    hide Sorted, Sort;
    SortedOnce(AtMost, s, Sorted(values));
  }

  lemma {:induction false} InsertCountsAbove(y: real, s: seq<real>, x: real)
    ensures CountAbove(Insert(AtMost, y, s), x) == CountAbove(s, x) + (if y > x then 1 else 0)
  {
    if s != [] && !(y <= s[0]) { InsertCountsAbove(y, s[1..], x); }
  }

  lemma {:induction false} SortCountsAbove(s: seq<real>, x: real)
    ensures CountAbove(Sorted(s), x) == CountAbove(s, x)
  {
    if s != [] {
      SortCountsAbove(s[1..], x);
      InsertCountsAbove(s[0], Sorted(s[1..]), x);
    }
  }

  lemma {:induction false} AtMostAbove(s: seq<real>, k: nat, x: real)
    requires k <= |s| && forall i :: 0 <= i < k ==> s[i] <= x
    ensures CountAbove(s, x) <= |s| - k
  {
    if s != [] { AtMostAbove(s[1..], if k > 0 then k - 1 else 0, x); }
  }

  /** No more than half of the values lie strictly on either side of the median. */
  lemma MedianSplits(values: seq<real>)
    requires values != []
    ensures 2 * CountBelow(values, Median(values)) <= |values|
    ensures 2 * CountAbove(values, Median(values)) <= |values|
  {
    hide CountBelow, CountAbove, Sorted, Ascending;
    var m := Median(values);
    SortedAscending(values);
    SortCounts(values, m);
    SortCountsAbove(values, m);
    MiddleSplits(Sorted(values), m);
  }

  lemma MiddleSplits(s: seq<real>, m: real)
    requires s != [] && Ascending(s)
    requires var mid := |s| / 2; if |s| % 2 == 0 then m == (s[mid - 1] + s[mid]) / 2.0 else m == s[mid]
    ensures 2 * CountBelow(s, m) <= |s| && 2 * CountAbove(s, m) <= |s|
  {
    hide CountBelow, CountAbove;
    var mid := |s| / 2;
    if |s| % 2 == 0 {
      assert s[mid - 1] <= m <= s[mid];
      AtMostAbove(s, mid, m);
    } else {
      AtMostAbove(s, mid + 1, m);
    }
    AtMostBelow(s, mid, m);
  }

  // ----- rounding to one digit -----

  /** Rounding half up to one decimal digit. */
  function Round1(x: real): real {
    Tenth((x * 10.0 + 0.5).Floor)
  }

  function Tenth(k: int): real {
    k as real / 10.0
  }

  ghost predicate Tenths(x: real) {
    exists k: int :: x == Tenth(k)
  }

  /** One digit is the nearest, the higher of two equally near ones. */
  lemma Round1Iff(x: real, k: int)
    ensures Round1(x) == k as real / 10.0 <==> k as real / 10.0 - 0.05 <= x < k as real / 10.0 + 0.05
  {
    if k as real <= x * 10.0 + 0.5 < k as real + 1.0 { FloorIs(x * 10.0 + 0.5, k); }
  }

  lemma FloorIs(x: real, n: int)
    requires n as real <= x < n as real + 1.0
    ensures x.Floor == n
  {
  }

  lemma HalfUp(k: int, x: real)
    requires x == k as real / 2.0
    ensures (x + 0.5).Floor as real >= x
  {
    var half := k / 2;
    if k == 2 * half {
      assert x == half as real;
      FloorIs(x + 0.5, half);
    } else {
      assert k == 2 * half + 1;
      assert x + 0.5 == (half + 1) as real;
    }
  }

  /** Rounding the mean of two values with one digit never lowers it. */
  lemma RoundedMeanNotLower(x: real, y: real)
    requires Tenths(x) && Tenths(y)
    ensures Round1((x + y) / 2.0) >= (x + y) / 2.0
  {
    var a: int :| x == Tenth(a);
    var b: int :| y == Tenth(b);
    var m := (x + y) / 2.0 * 10.0;
    assert m == (a + b) as real / 2.0;
    HalfUp(a + b, m);
  }

  lemma RoundedTenthsSame(x: real)
    requires Tenths(x)
    ensures Round1(x) == x
  {
    var k: int :| x == Tenth(k);
    FloorIs(x * 10.0 + 0.5, k);
  }

  /** The median that is reported is not below the true median of the reported samples. */
  lemma ReportedMedianNotLower(values: seq<real>)
    requires values != [] && forall i :: 0 <= i < |values| ==> Tenths(values[i])
    ensures Round1(Median(values)) >= Median(values)
  {
    var sorted := Sorted(values);
    var mid := |sorted| / 2;
    SortedMember(values, mid);
    if |sorted| % 2 == 0 {
      SortedMember(values, mid - 1);
      RoundedMeanNotLower(sorted[mid - 1], sorted[mid]);
    } else {
      RoundedTenthsSame(sorted[mid]);
    }
  }

  // ----- the reported coefficient of variation -----

  function Sum(s: seq<real>): real {
    if s == [] then 0.0 else s[0] + Sum(s[1..])
  }

  function Mean(s: seq<real>): real {
    if s == [] then 0.0 else Sum(s) / |s| as real
  }

  function SquaredDeviations(s: seq<real>, m: real): (r: seq<real>)
    ensures |r| == |s| && forall i :: 0 <= i < |s| ==> r[i] == (s[i] - m) * (s[i] - m)
  {
    if s == [] then [] else [(s[0] - m) * (s[0] - m)] + SquaredDeviations(s[1..], m)
  }

  function Variance(s: seq<real>): real {
    if |s| < 2 then 0.0 else Mean(SquaredDeviations(s, Mean(s)))
  }

  ghost predicate IsStdDev(s: seq<real>, sd: real) {
    sd >= 0.0 && sd * sd == Variance(s)
  }

  /** Rounding half up to two decimal digits. */
  function Round2(x: real): real {
    (x * 100.0 + 0.5).Floor as real / 100.0
  }

  /** Rounding half up to three decimal digits. */
  function Round3(x: real): real {
    (x * 1000.0 + 0.5).Floor as real / 1000.0
  }

  lemma Round2Iff(x: real, k: int)
    ensures Round2(x) == k as real / 100.0 <==> k as real / 100.0 - 0.005 <= x < k as real / 100.0 + 0.005
  {
    if k as real <= x * 100.0 + 0.5 < k as real + 1.0 { FloorIs(x * 100.0 + 0.5, k); }
  }

  lemma Round3Iff(x: real, k: int)
    ensures Round3(x) == k as real / 1000.0 <==> k as real / 1000.0 - 0.0005 <= x < k as real / 1000.0 + 0.0005
  {
    if k as real <= x * 1000.0 + 0.5 < k as real + 1.0 { FloorIs(x * 1000.0 + 0.5, k); }
  }

  /** `pct` is the coefficient of variation that is reported for the samples. */
  ghost predicate IsCvPct(s: seq<real>, pct: real) {
    if Mean(s) == 0.0 then pct == 0.0
    else exists sd: real :: IsStdDev(s, sd) && pct == Round2(sd / Mean(s) * 100.0)
  }

  lemma Positive(a: real, b: real)
    requires a > 0.0 && b > 0.0
    ensures a * b > 0.0
  {
  }

  lemma SquareLess(x: real, y: real)
    requires 0.0 <= x < y
    ensures x * x < y * y
  {
    Positive(y - x, y + x);
    assert (y - x) * (y + x) == y * y - x * x;
  }

  lemma RootUnique(x: real, y: real)
    requires x >= 0.0 && y >= 0.0 && x * x == y * y
    ensures x == y
  {
    if x < y { SquareLess(x, y); }
    if y < x { SquareLess(y, x); }
  }

  /** The samples determine the coefficient that is reported. */
  lemma CvPctUnique(s: seq<real>, a: real, b: real)
    requires IsCvPct(s, a) && IsCvPct(s, b)
    ensures a == b
  {
    hide Mean, Variance, Round2;
    if Mean(s) != 0.0 {
      var x: real :| IsStdDev(s, x) && a == Round2(x / Mean(s) * 100.0);
      var y: real :| IsStdDev(s, y) && b == Round2(y / Mean(s) * 100.0);
      RootUnique(x, y);
    }
  }

  lemma {:induction false} SumOfEqual(s: seq<real>, q: real)
    requires forall i :: 0 <= i < |s| ==> s[i] == q
    ensures Sum(s) == |s| as real * q
  {
    if s != [] {
      SumOfEqual(s[1..], q);
      assert |s| as real * q == (|s| - 1) as real * q + q;
    }
  }

  lemma MeanOfEqual(s: seq<real>, q: real)
    requires s != [] && forall i :: 0 <= i < |s| ==> s[i] == q
    ensures Mean(s) == q
  {
    SumOfEqual(s, q);
    var n := |s| as real;
    assert (n * q) / n == q;
  }

  /** Equal repetitions have coefficient zero. */
  lemma CvOfEqual(s: seq<real>, q: real)
    requires s != [] && forall i :: 0 <= i < |s| ==> s[i] == q
    ensures IsCvPct(s, 0.0)
  {
    MeanOfEqual(s, q);
    MeanOfEqual(SquaredDeviations(s, q), 0.0);
    assert IsStdDev(s, 0.0);
    if q != 0.0 {
      assert 0.0 / q * 100.0 == 0.0;
      FloorIs(0.5, 0);
    }
  }

  // ----- the gate -----

  /** What one repetition measured before rounding. */
  datatype Rep = Rep(qps: real) {
    function QpsOk(): real { Round1(qps) }
  }

  /** A measured endpoint. Statements that do not require `Measures` hold for any `qpsCvPct`. */
  datatype Measured = Measured(reps: seq<Rep>, qpsCvPct: real, p99MedianMs: real, maxErrorRatePct: real) {
    function Samples(): (r: seq<real>)
      ensures |r| == |reps|
      ensures forall i :: 0 <= i < |reps| ==> r[i] == reps[i].QpsOk()
    {
      seq(|reps|, i requires 0 <= i < |reps| => reps[i].QpsOk())
    }

    function QpsMedian(): real { Round1(Median(Samples())) }
  }

  /** There are `reps` repetitions, none of them with a negative throughput. */
  ghost predicate Repeated(m: Measured, reps: nat) {
    |m.reps| == reps && forall i :: 0 <= i < |m.reps| ==> m.reps[i].qps >= 0.0
  }

  /** What measuring an endpoint with `reps` repetitions can give. */
  ghost predicate Measures(m: Measured, reps: nat) {
    Repeated(m, reps) && IsCvPct(m.Samples(), m.qpsCvPct)
  }

  datatype Baseline = Baseline(qpsMedian: real, p99MedianMs: real)

  datatype Args = Args(reps: nat, qpsThresholdPct: real, p99ThresholdPct: real, maxErrorRatePct: real, skipBusiness: bool)

  function MinReal(a: real, b: real): real { if a <= b then a else b }
  function MaxReal(a: real, b: real): real { if a >= b then a else b }

  /** The relative loss that is tolerated: the nominal one, or three times the noise, capped at 30%. */
  function EffectivePct(cur: Measured, args: Args): real {
    MaxReal(args.qpsThresholdPct, MinReal(30.0, cur.qpsCvPct * 3.0))
  }

  function Threshold(cur: Measured, b: Baseline, args: Args): real {
    b.qpsMedian * (1.0 - EffectivePct(cur, args) / 100.0)
  }

  function P99Limit(b: Baseline, args: Args): real {
    b.p99MedianMs * (1.0 + args.p99ThresholdPct / 100.0)
  }

  /** How many repetitions lie below the threshold. */
  function Regressed(cur: Measured, b: Baseline, args: Args): nat {
    CountBelow(cur.Samples(), Threshold(cur, b, args))
  }

  function QpsFail(cur: Measured, b: Baseline, args: Args): bool {
    cur.QpsMedian() < Threshold(cur, b, args) && Regressed(cur, b, args) >= Min(args.reps, 2)
  }

  function EndpointFails(cur: Measured, b: Baseline, args: Args): bool {
    || QpsFail(cur, b, args)
    || cur.p99MedianMs > P99Limit(b, args)
    || cur.maxErrorRatePct > args.maxErrorRatePct
  }

  datatype Status = Pass | Fail | NoBaseline

  datatype Endpoint = Endpoint(id: string, measured: Measured)

  function StatusOf(e: Endpoint, base: map<string, Baseline>, args: Args): Status {
    if e.id !in base then NoBaseline
    else if EndpointFails(e.measured, base[e.id], args) then Fail
    else Pass
  }

  predicate IsMeasured(current: seq<Endpoint>, id: string) {
    exists e :: e in current && e.id == id
  }

  /** Some measured endpoint does not pass, or an endpoint of the baseline was not measured. */
  ghost predicate GateFails(current: seq<Endpoint>, base: map<string, Baseline>, args: Args) {
    || (exists i :: 0 <= i < |current| && StatusOf(current[i], base, args) != Pass)
    || (!args.skipBusiness && exists id :: id in base && !IsMeasured(current, id))
  }

  /** A reason for failure, with the numbers it reports. */
  datatype Reason =
    | WithoutBaseline(id: string)
    | LowThroughput(id: string, median: real, threshold: real, effectivePct: real, regressed: nat, reps: nat)
    | HighLatency(id: string, median: real, limit: real)
    | HighErrorRate(id: string, rate: real, limit: real)
    | NotMeasured(id: string)

  function LowThroughputOf(id: string, cur: Measured, b: Baseline, args: Args): Reason {
    LowThroughput(id, cur.QpsMedian(), Round1(Threshold(cur, b, args)), Round2(EffectivePct(cur, args)),
                  Regressed(cur, b, args), |cur.reps|)
  }

  function ReasonsOf(e: Endpoint, base: map<string, Baseline>, args: Args): (r: seq<Reason>)
    ensures r == [] <==> StatusOf(e, base, args) == Pass
  {
    if e.id !in base then [WithoutBaseline(e.id)]
    else
      var cur, b := e.measured, base[e.id];
      (if QpsFail(cur, b, args) then [LowThroughputOf(e.id, cur, b, args)] else [])
      + (if cur.p99MedianMs > P99Limit(b, args) then [HighLatency(e.id, cur.p99MedianMs, Round3(P99Limit(b, args)))] else [])
      + (if cur.maxErrorRatePct > args.maxErrorRatePct
         then [HighErrorRate(e.id, cur.maxErrorRatePct, args.maxErrorRatePct)] else [])
  }

  /** The reasons of the measured endpoints, in the order in which these were measured. */
  function MeasuredReasons(current: seq<Endpoint>, base: map<string, Baseline>, args: Args): seq<Reason> {
    if current == [] then [] else
      var n := |current| - 1;
      MeasuredReasons(current[..n], base, args) + ReasonsOf(current[n], base, args)
  }

  /** The baseline's endpoints that were not measured, in the baseline's order. */
  function MissingReasons(ids: seq<string>, current: seq<Endpoint>, args: Args): seq<Reason> {
    if ids == [] then [] else
      var n := |ids| - 1;
      MissingReasons(ids[..n], current, args)
      + if !IsMeasured(current, ids[n]) && !args.skipBusiness then [NotMeasured(ids[n])] else []
  }

  lemma {:induction false} MeasuredReasonsIff(current: seq<Endpoint>, base: map<string, Baseline>, args: Args)
    ensures MeasuredReasons(current, base, args) != [] <==>
            exists i :: 0 <= i < |current| && StatusOf(current[i], base, args) != Pass
  {
    hide StatusOf, ReasonsOf;
    if current != [] {
      var n := |current| - 1;
      MeasuredReasonsIff(current[..n], base, args);
      assert forall i :: 0 <= i < n ==> current[..n][i] == current[i];
    }
  }

  /** The reasons for an endpoint are among all reasons, and these are for some endpoint. */
  lemma {:induction false} MeasuredReasonsAre(current: seq<Endpoint>, base: map<string, Baseline>, args: Args, r: Reason)
    ensures r in MeasuredReasons(current, base, args) <==> exists e :: e in current && r in ReasonsOf(e, base, args)
  {
    hide ReasonsOf;
    if current != [] {
      var n := |current| - 1;
      MeasuredReasonsAre(current[..n], base, args, r);
      assert forall e :: e in current <==> e in current[..n] || e == current[n];
    }
  }

  lemma {:induction false} MissingReasonsAre(ids: seq<string>, current: seq<Endpoint>, args: Args, r: Reason)
    ensures r in MissingReasons(ids, current, args) <==>
            !args.skipBusiness && exists id :: id in ids && r == NotMeasured(id) && forall e :: e in current ==> e.id != id
  {
    hide IsMeasured;
    forall id ensures IsMeasured(current, id) <==> !forall e :: e in current ==> e.id != id { MeasuredIff(current, id); }
    if ids != [] {
      var n := |ids| - 1;
      MissingReasonsAre(ids[..n], current, args, r);
      assert forall id :: id in ids <==> id in ids[..n] || id == ids[n];
    }
  }

  lemma MeasuredIff(current: seq<Endpoint>, id: string)
    ensures IsMeasured(current, id) <==> !forall e :: e in current ==> e.id != id
  {
  }

  lemma {:induction false} MissingReasonsIff(ids: seq<string>, current: seq<Endpoint>, args: Args)
    ensures MissingReasons(ids, current, args) != [] <==>
            !args.skipBusiness && exists id :: id in ids && !IsMeasured(current, id)
  {
    hide IsMeasured;
    if ids != [] {
      var n := |ids| - 1;
      MissingReasonsIff(ids[..n], current, args);
      assert forall id :: id in ids <==> id in ids[..n] || id == ids[n];
    }
  }

  /** Compares one endpoint with its baseline, if there is one. */
  method Judge(e: Endpoint, base: map<string, Baseline>, args: Args) returns (status: Status, reasons: seq<Reason>)
    ensures status == StatusOf(e, base, args) && reasons == ReasonsOf(e, base, args)
  {
    hide QpsFail, P99Limit, LowThroughputOf, Round3;
    if e.id !in base {
      return NoBaseline, [WithoutBaseline(e.id)];
    }
    var cur, b := e.measured, base[e.id];
    var qpsFail := QpsFail(cur, b, args);
    var p99Fail := cur.p99MedianMs > P99Limit(b, args);
    var errFail := cur.maxErrorRatePct > args.maxErrorRatePct;
    reasons := [];
    if qpsFail { reasons := reasons + [LowThroughputOf(e.id, cur, b, args)]; }
    if p99Fail { reasons := reasons + [HighLatency(e.id, cur.p99MedianMs, Round3(P99Limit(b, args)))]; }
    if errFail { reasons := reasons + [HighErrorRate(e.id, cur.maxErrorRatePct, args.maxErrorRatePct)]; }
    status := if qpsFail || p99Fail || errFail then Fail else Pass;
  }

  /** Judges the measured endpoints in order. */
  method JudgeAll(current: seq<Endpoint>, base: map<string, Baseline>, args: Args)
    returns (rows: seq<Status>, reasons: seq<Reason>)
    ensures |rows| == |current| && forall i :: 0 <= i < |current| ==> rows[i] == StatusOf(current[i], base, args)
    ensures reasons == MeasuredReasons(current, base, args)
  {
    hide StatusOf, ReasonsOf;
    rows, reasons := [], [];
    var i := 0;
    while i < |current|
      invariant 0 <= i <= |current| && |rows| == i
      invariant forall k :: 0 <= k < i ==> rows[k] == StatusOf(current[k], base, args)
      invariant reasons == MeasuredReasons(current[..i], base, args)
    {
      assert current[..i + 1][..i] == current[..i];
      var status, more := Judge(current[i], base, args);
      rows, reasons := rows + [status], reasons + more;
      i := i + 1;
    }
    assert current[..i] == current;
  }

  /** The gate: a row per measured endpoint, and failure if any row does not pass or an endpoint of
      the baseline is missing. `baseIds` is the order of the baseline's endpoints. */
  method Evaluate(current: seq<Endpoint>, base: map<string, Baseline>, baseIds: seq<string>, args: Args)
    returns (rows: seq<Status>, reasons: seq<Reason>, failed: bool)
    requires forall id :: id in baseIds <==> id in base
    ensures |rows| == |current| && forall i :: 0 <= i < |current| ==> rows[i] == StatusOf(current[i], base, args)
    ensures reasons == MeasuredReasons(current, base, args) + MissingReasons(baseIds, current, args)
    ensures failed <==> GateFails(current, base, args)
  {
    hide StatusOf, IsMeasured, MeasuredReasons;
    rows, reasons := JudgeAll(current, base, args);
    var j := 0;
    while j < |baseIds|
      invariant 0 <= j <= |baseIds|
      invariant reasons == MeasuredReasons(current, base, args) + MissingReasons(baseIds[..j], current, args)
    {
      assert baseIds[..j + 1][..j] == baseIds[..j];
      if !IsMeasured(current, baseIds[j]) && !args.skipBusiness {
        reasons := reasons + [NotMeasured(baseIds[j])];
      }
      j := j + 1;
    }
    assert baseIds[..j] == baseIds;
    MeasuredReasonsIff(current, base, args);
    MissingReasonsIff(baseIds, current, args);
    failed := |reasons| > 0;
  }

  // ----- what the gate guarantees -----

  lemma SamplesAreTenths(m: Measured)
    ensures forall i :: 0 <= i < |m.Samples()| ==> Tenths(m.Samples()[i])
  {
    forall i | 0 <= i < |m.Samples()| ensures Tenths(m.Samples()[i]) {
    }
  }

  lemma OneSample(x: real, threshold: real)
    requires Tenths(x) && Round1(Median([x])) < threshold
    ensures CountBelow([x], threshold) == 1
  {
    assert [x][1..] == [];
    assert Sorted([x][1..]) == [];
    assert Sorted([x]) == [x];
    RoundedTenthsSame(x);
  }

  /** Except with exactly two repetitions, the demand on the number of repetitions below the threshold
      adds nothing: the reported median decides alone. */
  lemma MedianDecides(cur: Measured, b: Baseline, args: Args)
    requires args.reps == |cur.reps| != 2
    ensures QpsFail(cur, b, args) <==> cur.QpsMedian() < Threshold(cur, b, args)
  {
    if cur.QpsMedian() < Threshold(cur, b, args) && |cur.reps| == 1 {
      SamplesAreTenths(cur);
      assert cur.Samples() == [cur.Samples()[0]];
      OneSample(cur.Samples()[0], Threshold(cur, b, args));
    } else if cur.QpsMedian() < Threshold(cur, b, args) && |cur.reps| >= 3 {
      SamplesAreTenths(cur);
      ReportedMedianNotLower(cur.Samples());
      MedianBelowForcesTwo(cur.Samples(), Threshold(cur, b, args));
    }
  }

  /** Rounding the mean of two values with one digit never takes it above the larger. */
  lemma RoundedMeanNotHigher(x: real, y: real)
    requires Tenths(x) && Tenths(y) && x <= y
    ensures Round1((x + y) / 2.0) <= y
  {
    var b: int :| y == Tenth(b);
    var m := (x + y) / 2.0 * 10.0;
    assert m + 0.5 < b as real + 1.0;
    assert (m + 0.5).Floor <= b;
  }

  lemma SortTwo(x: real, y: real)
    ensures Sorted([x, y]) == if x <= y then [x, y] else [y, x]
    ensures forall t: real :: CountBelow([x, y], t) == (if x < t then 1 else 0) + (if y < t then 1 else 0)
  {
    assert [x, y][1..] == [y] && [y][1..] == [];
    assert Sorted([]) == [] && Insert(AtMost, y, []) == [y] && Insert(AtMost, x, []) == [x];
    assert Sorted([y]) == [y];
    assert Sorted([x, y]) == Insert(AtMost, x, [y]);
    forall t: real ensures CountBelow([x, y], t) == (if x < t then 1 else 0) + (if y < t then 1 else 0) {
      assert CountBelow([y], t) == if y < t then 1 else 0;
    }
  }

  /** With two repetitions the throughput test fails if and only if both are below the threshold. */
  lemma TwoRepetitionsNeedBoth(cur: Measured, b: Baseline, args: Args)
    requires args.reps == |cur.reps| == 2
    ensures QpsFail(cur, b, args) <==>
            cur.Samples()[0] < Threshold(cur, b, args) && cur.Samples()[1] < Threshold(cur, b, args)
  {
    hide Round1, Threshold, Sorted, CountBelow;
    var x, y := cur.Samples()[0], cur.Samples()[1];
    assert cur.Samples() == [x, y];
    SamplesAreTenths(cur);
    SortTwo(x, y);
    if x <= y { RoundedMeanNotHigher(x, y); } else { RoundedMeanNotHigher(y, x); }
  }

  /** Noise never raises the tolerated loss above 30% unless the nominal threshold does. */
  lemma ThresholdFloor(cur: Measured, b: Baseline, args: Args)
    requires args.qpsThresholdPct <= 30.0 && b.qpsMedian >= 0.0
    ensures Threshold(cur, b, args) >= b.qpsMedian * 0.7
  {
    var e := EffectivePct(cur, args);
    assert e <= 30.0;
    assert 1.0 - e / 100.0 >= 0.7;
  }

  /** A loss within the nominal threshold, or within three times the noise up to 30%, never fails the
      throughput test. */
  lemma NoFalseAlarm(cur: Measured, b: Baseline, args: Args, pct: real)
    requires b.qpsMedian >= 0.0
    requires pct <= args.qpsThresholdPct || (pct <= 30.0 && pct <= cur.qpsCvPct * 3.0)
    requires cur.QpsMedian() >= b.qpsMedian * (1.0 - pct / 100.0)
    ensures !QpsFail(cur, b, args)
  {
    ThresholdCeiling(cur, b, args, pct);
    hide Threshold, Median, CountBelow;
  }

  lemma ThresholdCeiling(cur: Measured, b: Baseline, args: Args, pct: real)
    requires b.qpsMedian >= 0.0
    requires pct <= args.qpsThresholdPct || (pct <= 30.0 && pct <= cur.qpsCvPct * 3.0)
    ensures Threshold(cur, b, args) <= b.qpsMedian * (1.0 - pct / 100.0)
  {
    var e := EffectivePct(cur, args);
    assert pct <= e;
    hide EffectivePct;
  }

  /** However noisy the measurement, a loss of more than 30% fails the endpoint, unless there are
      exactly two repetitions or the nominal threshold is above 30%. */
  lemma NoiseCannotDisableGate(e: Endpoint, base: map<string, Baseline>, args: Args)
    requires args.qpsThresholdPct <= 30.0 && args.reps == |e.measured.reps| != 2
    requires e.id in base && base[e.id].qpsMedian >= 0.0
    requires e.measured.QpsMedian() < base[e.id].qpsMedian * 0.7
    ensures StatusOf(e, base, args) == Fail
  {
    ThresholdFloor(e.measured, base[e.id], args);
    MedianDecides(e.measured, base[e.id], args);
  }

  /** One such endpoint fails the whole gate. */
  lemma LossFailsGate(current: seq<Endpoint>, base: map<string, Baseline>, args: Args, e: Endpoint)
    requires e in current && args.qpsThresholdPct <= 30.0 && args.reps == |e.measured.reps| != 2
    requires e.id in base && base[e.id].qpsMedian >= 0.0
    requires e.measured.QpsMedian() < base[e.id].qpsMedian * 0.7
    ensures GateFails(current, base, args)
  {
    NoiseCannotDisableGate(e, base, args);
    var i :| 0 <= i < |current| && current[i] == e;
    assert StatusOf(current[i], base, args) != Pass;
  }

  // ----- when the gate fails, in numbers -----

  /** `pct` is the loss in percent that is tolerated: the nominal one if three times the noise is not
      above it, and otherwise three times the noise up to 30%, unless the nominal one is 30% or more. */
  ghost predicate Tolerates(cur: Measured, args: Args, pct: real) {
    var nominal, noise := args.qpsThresholdPct, 3.0 * cur.qpsCvPct;
    if noise <= nominal || 30.0 <= nominal then pct == nominal
    else if noise <= 30.0 then pct == noise
    else pct == 30.0
  }

  /** The reported median, or with two repetitions each of them, has lost more than `pct`. */
  ghost predicate LosesMore(cur: Measured, b: Baseline, pct: real) {
    var least := b.qpsMedian * (1.0 - pct / 100.0);
    if |cur.reps| == 2 then cur.reps[0].QpsOk() < least && cur.reps[1].QpsOk() < least
    else cur.QpsMedian() < least
  }

  ghost predicate TooSlow(cur: Measured, b: Baseline, args: Args) {
    exists pct: real :: Tolerates(cur, args, pct) && LosesMore(cur, b, pct)
  }

  ghost predicate TooLate(cur: Measured, b: Baseline, args: Args) {
    cur.p99MedianMs > b.p99MedianMs + b.p99MedianMs * args.p99ThresholdPct / 100.0
  }

  lemma ToleratesIs(cur: Measured, b: Baseline, args: Args, pct: real)
    requires Tolerates(cur, args, pct)
    ensures Threshold(cur, b, args) == b.qpsMedian * (1.0 - pct / 100.0)
    ensures EffectivePct(cur, args) == pct
  {
    assert EffectivePct(cur, args) == pct;
    hide EffectivePct, Tolerates;
  }

  lemma SomeIsTolerated(cur: Measured, args: Args) returns (pct: real)
    ensures Tolerates(cur, args, pct)
  {
    var nominal, noise := args.qpsThresholdPct, 3.0 * cur.qpsCvPct;
    pct := if noise <= nominal || 30.0 <= nominal then nominal else if noise <= 30.0 then noise else 30.0;
  }

  /** The throughput test fails if and only if the loss is more than what is tolerated. */
  lemma ThroughputFailsIff(cur: Measured, b: Baseline, args: Args)
    requires args.reps == |cur.reps|
    ensures QpsFail(cur, b, args) <==> TooSlow(cur, b, args)
  {
    hide Tolerates, Threshold, QpsFail, Median, Round1, CountBelow, EffectivePct;
    var pct := SomeIsTolerated(cur, args);
    ToleratesIs(cur, b, args, pct);
    forall q: real | Tolerates(cur, args, q) ensures q == pct { ToleratesIs(cur, b, args, q); }
    if args.reps == 2 { TwoRepetitionsNeedBoth(cur, b, args); } else { MedianDecides(cur, b, args); }
  }

  /** An endpoint of the baseline fails if and only if its throughput, its latency or its error rate does. */
  lemma StatusIff(e: Endpoint, base: map<string, Baseline>, args: Args)
    requires args.reps == |e.measured.reps|
    ensures StatusOf(e, base, args) == NoBaseline <==> e.id !in base
    ensures StatusOf(e, base, args) == Fail <==>
            && e.id in base
            && (|| TooSlow(e.measured, base[e.id], args)
                || TooLate(e.measured, base[e.id], args)
                || e.measured.maxErrorRatePct > args.maxErrorRatePct)
  {
    hide QpsFail, TooSlow, TooLate, P99Limit;
    if e.id in base {
      ThroughputFailsIff(e.measured, base[e.id], args);
      LateIff(e.measured, base[e.id], args);
    }
  }

  lemma LimitIs(b: Baseline, args: Args)
    ensures P99Limit(b, args) == b.p99MedianMs + b.p99MedianMs * args.p99ThresholdPct / 100.0
  {
    var m, t := b.p99MedianMs, args.p99ThresholdPct;
    assert m * (1.0 + t / 100.0) == m + m * (t / 100.0);
    assert m * (t / 100.0) == m * t / 100.0;
  }

  lemma LateIff(cur: Measured, b: Baseline, args: Args)
    ensures TooLate(cur, b, args) <==> cur.p99MedianMs > P99Limit(b, args)
  {
    LimitIs(b, args);
  }

  /** The gate fails if and only if a measured endpoint has no baseline, loses more throughput than is
      tolerated, exceeds the latency or the error rate, or an endpoint of the baseline was not measured. */
  lemma GateFailsIff(current: seq<Endpoint>, base: map<string, Baseline>, args: Args)
    requires forall e :: e in current ==> |e.measured.reps| == args.reps
    ensures GateFails(current, base, args) <==>
            || (exists e :: e in current && e.id !in base)
            || (exists e :: e in current && e.id in base && TooSlow(e.measured, base[e.id], args))
            || (exists e :: e in current && e.id in base && TooLate(e.measured, base[e.id], args))
            || (exists e :: e in current && e.measured.maxErrorRatePct > args.maxErrorRatePct)
            || (!args.skipBusiness && exists id :: id in base && forall e :: e in current ==> e.id != id)
  {
    hide TooSlow, TooLate, StatusOf;
    forall e | e in current
      ensures StatusOf(e, base, args) != Pass <==>
              || e.id !in base || TooSlow(e.measured, base[e.id], args) || TooLate(e.measured, base[e.id], args)
              || e.measured.maxErrorRatePct > args.maxErrorRatePct
    {
      StatusIff(e, base, args);
    }
    if e :| e in current && StatusOf(e, base, args) != Pass {
      var i :| 0 <= i < |current| && current[i] == e;
    }
  }

  lemma ReasonsAre(e: Endpoint, base: map<string, Baseline>, args: Args, pct: real, least: real, limit: real, r: Reason)
    requires e.id in base && EffectivePct(e.measured, args) == pct
    requires Threshold(e.measured, base[e.id], args) == least && P99Limit(base[e.id], args) == limit
    ensures r in ReasonsOf(e, base, args) <==>
            var cur := e.measured;
            || (QpsFail(cur, base[e.id], args)
                && r == LowThroughput(e.id, cur.QpsMedian(), Round1(least), Round2(pct), CountBelow(cur.Samples(), least), |cur.reps|))
            || (cur.p99MedianMs > limit && r == HighLatency(e.id, cur.p99MedianMs, Round3(limit)))
            || (cur.maxErrorRatePct > args.maxErrorRatePct
                && r == HighErrorRate(e.id, cur.maxErrorRatePct, args.maxErrorRatePct))
  {
    hide QpsFail, P99Limit, Threshold, EffectivePct, Round1, Round2, Round3, CountBelow;
  }

  lemma NoBaselineReason(e: Endpoint, base: map<string, Baseline>, args: Args)
    requires e.id !in base
    ensures ReasonsOf(e, base, args) == [WithoutBaseline(e.id)]
  {
  }

  /** The reasons that are reported for an endpoint, with their numbers. */
  lemma ReasonsIff(e: Endpoint, base: map<string, Baseline>, args: Args, pct: real, limit: real, r: Reason)
    requires e.id in base && args.reps == |e.measured.reps| && Tolerates(e.measured, args, pct)
    requires limit == base[e.id].p99MedianMs + base[e.id].p99MedianMs * args.p99ThresholdPct / 100.0
    ensures r in ReasonsOf(e, base, args) <==>
            var cur, b := e.measured, base[e.id];
            var least := b.qpsMedian * (1.0 - pct / 100.0);
            || (TooSlow(cur, b, args)
                && r == LowThroughput(e.id, cur.QpsMedian(), Round1(least), Round2(pct), CountBelow(cur.Samples(), least), |cur.reps|))
            || (cur.p99MedianMs > limit && r == HighLatency(e.id, cur.p99MedianMs, Round3(limit)))
            || (cur.maxErrorRatePct > args.maxErrorRatePct
                && r == HighErrorRate(e.id, cur.maxErrorRatePct, args.maxErrorRatePct))
  {
    hide QpsFail, TooSlow, P99Limit, Threshold, EffectivePct, Round1, Round2, Round3, CountBelow, Tolerates, ReasonsOf;
    ToleratesIs(e.measured, base[e.id], args, pct);
    ThroughputFailsIff(e.measured, base[e.id], args);
    LimitIs(base[e.id], args);
    ReasonsAre(e, base, args, pct, base[e.id].qpsMedian * (1.0 - pct / 100.0), limit, r);
  }

  lemma TwoOfThem(x: real, y: real, t: real)
    requires Tenths(x) && Tenths(y) && x >= 0.0 && y >= 0.0 && (x >= t || y >= t)
    ensures 2.0 * Round1(Median([x, y])) >= t
  {
    SortTwo(x, y);
    hide Round1;
    if x <= y { RoundedMeanNotLower(x, y); } else { RoundedMeanNotLower(y, x); }
  }

  lemma RoundNotNegative(x: real)
    requires x >= 0.0
    ensures Round1(x) >= 0.0
  {
  }

  /** A pass means that the reported median has lost no more than the effective threshold allows;
      with two repetitions, that one of them has not, and so that the median is at least half of the
      threshold. */
  lemma PassBoundsLoss(e: Endpoint, base: map<string, Baseline>, args: Args)
    requires Repeated(e.measured, args.reps) && e.id in base
    requires StatusOf(e, base, args) == Pass
    ensures
      var cur, t := e.measured, Threshold(e.measured, base[e.id], args);
      if args.reps != 2 then cur.QpsMedian() >= t
      else (cur.Samples()[0] >= t || cur.Samples()[1] >= t) && 2.0 * cur.QpsMedian() >= t
  {
    hide Threshold, Round1, Median;
    var cur := e.measured;
    if args.reps != 2 {
      MedianDecides(cur, base[e.id], args);
    } else {
      TwoRepetitionsNeedBoth(cur, base[e.id], args);
      SamplesAreTenths(cur);
      RoundNotNegative(cur.reps[0].qps);
      RoundNotNegative(cur.reps[1].qps);
      assert cur.Samples() == [cur.Samples()[0], cur.Samples()[1]];
      TwoOfThem(cur.Samples()[0], cur.Samples()[1], Threshold(cur, base[e.id], args));
    }
  }

  /** What a pass of the whole gate means for a measured endpoint. With a nominal threshold of at most
      30% its reported median has lost at most 30% of the baseline, or at most 65% if there are two
      repetitions. */
  lemma GatePassMeans(current: seq<Endpoint>, base: map<string, Baseline>, args: Args, e: Endpoint)
    requires !GateFails(current, base, args) && e in current && Repeated(e.measured, args.reps)
    ensures e.id in base
    ensures e.measured.p99MedianMs <= P99Limit(base[e.id], args)
    ensures e.measured.maxErrorRatePct <= args.maxErrorRatePct
    ensures (if args.reps == 2 then 2.0 else 1.0) * e.measured.QpsMedian() >= Threshold(e.measured, base[e.id], args)
    ensures args.qpsThresholdPct <= 30.0 && base[e.id].qpsMedian >= 0.0 ==>
      e.measured.QpsMedian() >= base[e.id].qpsMedian * if args.reps == 2 then 0.35 else 0.7
    ensures !args.skipBusiness ==> forall id :: id in base ==> IsMeasured(current, id)
  {
    hide Threshold, Repeated, Round1;
    if e.id in base && args.qpsThresholdPct <= 30.0 && base[e.id].qpsMedian >= 0.0 {
      ThresholdFloor(e.measured, base[e.id], args);
    }
    var i :| 0 <= i < |current| && current[i] == e;
    assert StatusOf(current[i], base, args) == Pass;
    PassBoundsLoss(e, base, args);
  }

  // ----- exactly when noise cannot hide a large loss -----

  /** Whatever is measured, a reported median below 70% of the baseline fails the throughput test. */
  ghost predicate LargeLossFails(args: Args) {
    forall m: Measured, b: Baseline :: Measures(m, args.reps) && b.qpsMedian >= 0.0 && m.QpsMedian() < b.qpsMedian * 0.7 ==>
      QpsFail(m, b, args)
  }

  lemma MeanOfTwo(x: real, y: real)
    ensures Mean([x, y]) == (x + y) / 2.0
  {
    var s := [x, y];
    assert s[1..] == [y] && [y][1..] == [];
    assert Sum([y]) == y + Sum([]);
    assert Sum(s) == x + Sum([y]);
  }

  lemma CvOfTenTwenty()
    ensures IsCvPct([10.0, 20.0], 33.33)
  {
    hide Mean;
    var s := [10.0, 20.0];
    MeanOfTwo(10.0, 20.0);
    var d := SquaredDeviations(s, 15.0);
    assert d == [25.0, 25.0];
    MeanOfTwo(25.0, 25.0);
    assert IsStdDev(s, 5.0);
    FloorIs(5.0 / 15.0 * 100.0 * 100.0 + 0.5, 3333);
  }

  /** Two repetitions hide a loss of 40%: at 10 and 20 requests per second the coefficient of variation
      is 33.33%, the tolerated loss is 30%, and against a baseline of 25 only one repetition is below
      the threshold of 17.5. With any latency as in the baseline and any tolerated error rate the
      endpoint passes. */
  lemma TwoRepetitionsHideLoss(id: string, base: map<string, Baseline>, args: Args, p99: real, errors: real)
    requires args.reps == 2 && args.qpsThresholdPct <= 30.0
    requires p99 >= 0.0 && args.p99ThresholdPct >= 0.0 && errors <= args.maxErrorRatePct
    requires id in base && base[id] == Baseline(25.0, p99)
    ensures
      var m := Measured([Rep(10.0), Rep(20.0)], 33.33, p99, errors);
      && Measures(m, 2) && m.QpsMedian() == 15.0 < base[id].qpsMedian * 0.7
      && StatusOf(Endpoint(id, m), base, args) == Pass
  {
    var m := Measured([Rep(10.0), Rep(20.0)], 33.33, p99, errors);
    TenTwenty(m);
    assert EffectivePct(m, args) == 30.0;
    assert Threshold(m, base[id], args) == 17.5;
    SortTwo(10.0, 20.0);
    NotAboveLimit(base[id], args);
    hide P99Limit, Measures, Threshold;
  }

  lemma NotAboveLimit(b: Baseline, args: Args)
    requires b.p99MedianMs >= 0.0 && args.p99ThresholdPct >= 0.0
    ensures b.p99MedianMs <= P99Limit(b, args)
  {
  }

  lemma TenTwenty(m: Measured)
    requires m.reps == [Rep(10.0), Rep(20.0)] && m.qpsCvPct == 33.33
    ensures Measures(m, 2) && m.Samples() == [10.0, 20.0] && m.QpsMedian() == 15.0
  {
    FloorIs(10.0 * 10.0 + 0.5, 100);
    FloorIs(20.0 * 10.0 + 0.5, 200);
    FloorIs(15.0 * 10.0 + 0.5, 150);
    assert m.Samples() == [10.0, 20.0];
    SortTwo(10.0, 20.0);
    CvOfTenTwenty();
  }

  /** Equal repetitions: the median is the common value, and the coefficient of variation is zero. */
  lemma EqualRepetitions(m: Measured, n: nat, q: real)
    requires n > 0 && Tenths(q) && q >= 0.0 && m.qpsCvPct == 0.0
    requires |m.reps| == n && forall i :: 0 <= i < n ==> m.reps[i] == Rep(q)
    ensures Measures(m, n) && m.QpsMedian() == q
  {
    RoundedTenthsSame(q);
    var s := m.Samples();
    hide Round1;
    CvOfEqual(s, q);
    var sorted := Sorted(s);
    var mid := n / 2;
    SortedMember(s, mid);
    SortedMember(s, if mid > 0 then mid - 1 else 0);
    hide Sorted, IsCvPct;
    assert Median(s) == q;
  }

  /** A nominal threshold above 30% hides a loss above 30%, with any number of repetitions. */
  lemma LooseThresholdHidesLoss(args: Args) returns (m: Measured, b: Baseline)
    requires args.reps >= 1 && args.qpsThresholdPct > 30.0
    ensures Measures(m, args.reps) && b.qpsMedian >= 0.0
    ensures m.QpsMedian() < b.qpsMedian * 0.7 && !QpsFail(m, b, args)
  {
    var q;
    q, b := EscapingMedian(args);
    m := Measured(seq(args.reps, _ => Rep(q)), 0.0, 0.0, 0.0);
    hide Threshold, Measures, Median, Round1, Tenths, CountBelow;
    EqualRepetitions(m, args.reps, q);
    QuietThreshold(m, b, args);
  }

  lemma EscapingMedian(args: Args) returns (q: real, b: Baseline)
    requires args.qpsThresholdPct > 30.0
    ensures Tenths(q) && q >= 0.0 && b.qpsMedian >= 0.0 && q < b.qpsMedian * 0.7
    ensures q >= b.qpsMedian * (1.0 - args.qpsThresholdPct / 100.0)
  {
    var big := JustBelow(args.qpsThresholdPct);
    q, b := Tenth(7 * big - 1), Baseline(big as real, 0.0);
  }

  /** Without noise the nominal threshold counts. */
  lemma QuietThreshold(m: Measured, b: Baseline, args: Args)
    requires m.qpsCvPct == 0.0 <= args.qpsThresholdPct
    ensures Threshold(m, b, args) == b.qpsMedian * (1.0 - args.qpsThresholdPct / 100.0)
  {
    ToleratesIs(m, b, args, args.qpsThresholdPct);
  }

  /** For a large enough baseline there is a value between the loosened threshold and 70%. */
  lemma JustBelow(pct: real) returns (big: int)
    requires pct > 30.0
    ensures big >= 1 && 0.0 <= Tenth(7 * big - 1) < big as real * 0.7
    ensures Tenth(7 * big - 1) >= big as real * (1.0 - pct / 100.0)
  {
    var gap := pct - 30.0;
    big := Max(1, Ceil(10.0 / gap));
    var b := big as real;
    assert b * (1.0 - pct / 100.0) == b * 0.7 - b * gap / 100.0;
  }

  /** A loss of more than 30% always fails the throughput test if and only if the number of repetitions
      is not two and the nominal threshold is at most 30%. */
  lemma LargeLossFailsIff(args: Args)
    requires args.reps >= 1
    ensures LargeLossFails(args) <==> args.reps != 2 && args.qpsThresholdPct <= 30.0
  {
    hide Measures, QpsFail, Median, Round1;
    if args.qpsThresholdPct > 30.0 {
      var m, b := LooseThresholdHidesLoss(args);
    } else if args.reps == 2 {
      TwoRepetitionsEscape(args);
    } else {
      forall m: Measured, b: Baseline | Measures(m, args.reps) && b.qpsMedian >= 0.0 && m.QpsMedian() < b.qpsMedian * 0.7
        ensures QpsFail(m, b, args)
      {
        LargeLossSeen(m, b, args);
      }
    }
  }

  lemma LargeLossSeen(m: Measured, b: Baseline, args: Args)
    requires args.reps != 2 && args.qpsThresholdPct <= 30.0
    requires Measures(m, args.reps) && b.qpsMedian >= 0.0 && m.QpsMedian() < b.qpsMedian * 0.7
    ensures QpsFail(m, b, args)
  {
    ThresholdFloor(m, b, args);
    MedianDecides(m, b, args);
  }

  lemma TwoRepetitionsEscape(args: Args)
    requires args.reps == 2 && args.qpsThresholdPct <= 30.0
    ensures !LargeLossFails(args)
  {
    var m, b := Measured([Rep(10.0), Rep(20.0)], 33.33, 0.0, 0.0), Baseline(25.0, 0.0);
    TwoRepetitionsHideLoss("", map["" := b], args.(p99ThresholdPct := 0.0, maxErrorRatePct := 0.0), 0.0, 0.0);
    assert !QpsFail(m, b, args);
  }
}
