/** Averaging thermal-calibration samples over 2000 equal temperature bins, over the reals. */
module Resampler {

  const INTERVALS: nat := 2000

  // ---------------------------------------------------------------- bins

  function Lowest(x: seq<real>): (r: real)
    requires x != []
    ensures r in x && forall i | 0 <= i < |x| :: r <= x[i]
  {
    var last := x[|x| - 1];
    if |x| == 1 then last
    else
      var before := Lowest(x[..|x| - 1]);
      assert forall i | 0 <= i < |x| - 1 :: x[i] == x[..|x| - 1][i];
      if before <= last then before else last
  }

  function Highest(x: seq<real>): (r: real)
    requires x != []
    ensures r in x && forall i | 0 <= i < |x| :: x[i] <= r
  {
    var last := x[|x| - 1];
    if |x| == 1 then last
    else
      var before := Highest(x[..|x| - 1]);
      assert forall i | 0 <= i < |x| - 1 :: x[i] == x[..|x| - 1][i];
      if before >= last then before else last
  }

  function Width(lo: real, hi: real, bins: nat): real
    requires bins > 0
  {
    (hi - lo) / (bins as real)
  }

  /** The lower edge of bin `b`. */
  function Edge(lo: real, width: real, b: int): real {
    lo + (b as real) * width
  }

  /** The bin of one sample: a truncating division, with the extremes caught beforehand. */
  function BinOf(v: real, lo: real, hi: real, bins: nat): int
    requires bins > 0
  {
    if v < lo then 0
    else if v < hi then WidthPositive(lo, hi, bins); ((v - lo) / Width(lo, hi, bins)).Floor
    else bins - 1
  }

  lemma WidthPositive(lo: real, hi: real, bins: nat)
    requires bins > 0 && lo < hi
    ensures Width(lo, hi, bins) > 0.0
  {
  }

  /** All intervals together are the range. */
  lemma Widths(lo: real, hi: real, bins: nat)
    requires bins > 0
    ensures (bins as real) * Width(lo, hi, bins) == hi - lo
  {
  }

  /** floor(a / w) * w <= a < (floor(a / w) + 1) * w */
  lemma FloorBrackets(a: real, w: real)
    requires w > 0.0
    ensures var f := (a / w).Floor; (f as real) * w <= a < ((f + 1) as real) * w
  {
    var q := a / w;
    Brackets(a, q, q.Floor as real, (q.Floor + 1) as real, w);
  }

  lemma Brackets(a: real, q: real, below: real, above: real, w: real)
    requires w > 0.0 && below <= q < above && q * w == a
    ensures below * w <= a < above * w
  {
  }

  lemma Monotone(a: real, b: real, w: real)
    requires a <= b && w >= 0.0
    ensures a * w <= b * w
  {
  }

  lemma QuotientAtLeast(s: real, c: real, low: real)
    requires c > 0.0 && c * low <= s
    ensures low <= s / c
  {
  }

  lemma QuotientBelow(s: real, c: real, high: real)
    requires c > 0.0 && s < c * high
    ensures s / c < high
  {
  }

  lemma Undivided(a: real, b: real)
    requires b != 0.0
    ensures b * (a / b) == a
  {
  }

  /** The truncated quotient is a valid bin. */
  lemma QuotientInRange(a: real, w: real, bins: nat)
    requires w > 0.0 && 0.0 <= a < (bins as real) * w
    ensures 0 <= (a / w).Floor < bins
  {
  }

  /** Every sample lands in a valid bin, between that bin's edges. */
  lemma BinIsRight(v: real, lo: real, hi: real, bins: nat)
    requires bins > 0 && lo <= v <= hi
    ensures var b, w := BinOf(v, lo, hi, bins), Width(lo, hi, bins);
            && 0 <= b < bins
            && Edge(lo, w, b) <= v
            && (b < bins - 1 ==> v < Edge(lo, w, b + 1))
  {
    var w := Width(lo, hi, bins);
    Widths(lo, hi, bins);
    if v < hi {
      WidthPositive(lo, hi, bins);
      QuotientInRange(v - lo, w, bins);
      FloorBrackets(v - lo, w);
    } else {
      WidthNotNegative(lo, hi, bins);
      Monotone((bins - 1) as real, bins as real, w);
    }
  }

  lemma WidthNotNegative(lo: real, hi: real, bins: nat)
    requires bins > 0 && lo <= hi
    ensures Width(lo, hi, bins) >= 0.0
  {
  }

  function Keys(x: seq<real>, lo: real, hi: real, bins: nat): (r: seq<int>)
    requires bins > 0
    ensures |r| == |x|
  {
    seq(|x|, i requires 0 <= i < |x| => BinOf(x[i], lo, hi, bins))
  }

  // ---------------------------------------------------------------- sums per bin

  /** Sum of the first `n` values. */
  function Sum(v: seq<real>, n: nat): real
    requires n <= |v|
  {
    if n == 0 then 0.0 else Sum(v, n - 1) + v[n - 1]
  }

  /** Sum of those among the first `n` values whose key is `b`. */
  function SumAt(key: seq<int>, v: seq<real>, n: nat, b: int): real
    requires n <= |key| && n <= |v|
  {
    if n == 0 then 0.0
    else if key[n - 1] == b then SumAt(key, v, n - 1, b) + v[n - 1]
    else SumAt(key, v, n - 1, b)
  }

  /** How many among the first `n` keys are `b`. */
  function CountAt(key: seq<int>, n: nat, b: int): nat
    requires n <= |key|
  {
    if n == 0 then 0
    else if key[n - 1] == b then CountAt(key, n - 1, b) + 1
    else CountAt(key, n - 1, b)
  }

  /** Bin sums added up over the bins below `bins`. */
  function SumOverBins(key: seq<int>, v: seq<real>, n: nat, bins: nat): real
    requires n <= |key| && n <= |v|
  {
    if bins == 0 then 0.0
    else SumOverBins(key, v, n, bins - 1) + SumAt(key, v, n, bins - 1)
  }

  function CountOverBins(key: seq<int>, n: nat, bins: nat): nat
    requires n <= |key|
  {
    if bins == 0 then 0 else CountOverBins(key, n, bins - 1) + CountAt(key, n, bins - 1)
  }

  /** One more sample is added in exactly one place. */
  lemma {:induction false} OneMoreSum(key: seq<int>, v: seq<real>, n: nat, bins: nat)
    requires 0 < n <= |key| && n <= |v| && 0 <= key[n - 1]
    ensures SumOverBins(key, v, n, bins)
            == SumOverBins(key, v, n - 1, bins) + if key[n - 1] < bins then v[n - 1] else 0.0
  {
    if bins > 0 {
      OneMoreSum(key, v, n, bins - 1);
    }
  }

  lemma {:induction false} OneMoreCount(key: seq<int>, n: nat, bins: nat)
    requires 0 < n <= |key| && 0 <= key[n - 1]
    ensures CountOverBins(key, n, bins)
            == CountOverBins(key, n - 1, bins) + if key[n - 1] < bins then 1 else 0
  {
    if bins > 0 {
      OneMoreCount(key, n, bins - 1);
    }
  }

  ghost predicate KeysBelow(key: seq<int>, bins: nat) {
    forall i | 0 <= i < |key| :: 0 <= key[i] < bins
  }

  /** No sample is lost and none is counted twice. */
  lemma {:induction false} BinsConserve(key: seq<int>, v: seq<real>, n: nat, bins: nat)
    requires n <= |key| && n <= |v| && KeysBelow(key, bins)
    ensures SumOverBins(key, v, n, bins) == Sum(v, n)
    ensures CountOverBins(key, n, bins) == n
    decreases n
  {
    if n > 0 {
      BinsConserve(key, v, n - 1, bins);
      OneMoreSum(key, v, n, bins);
      OneMoreCount(key, n, bins);
    } else {
      EmptyBins(key, v, bins);
    }
  }

  lemma {:induction false} EmptyBins(key: seq<int>, v: seq<real>, bins: nat)
    ensures SumOverBins(key, v, 0, bins) == 0.0 && CountOverBins(key, 0, bins) == 0
  {
    if bins > 0 {
      EmptyBins(key, v, bins - 1);
    }
  }

  // ---------------------------------------------------------------- averages

  /** Averages of the non-empty bins, in bin order. */
  function Means(key: seq<int>, v: seq<real>, bins: nat): (r: seq<real>)
    requires |key| <= |v|
    ensures |r| == |Weights(key, bins)|
  {
    if bins == 0 then []
    else if CountAt(key, |key|, bins - 1) == 0 then Means(key, v, bins - 1)
    else Means(key, v, bins - 1) + [Mean(key, v, bins - 1)]
  }

  function Mean(key: seq<int>, v: seq<real>, b: int): real
    requires |key| <= |v| && CountAt(key, |key|, b) != 0
  {
    SumAt(key, v, |key|, b) / (CountAt(key, |key|, b) as real)
  }

  /** How many samples stand behind each of those averages. */
  function Weights(key: seq<int>, bins: nat): seq<nat> {
    if bins == 0 then []
    else if CountAt(key, |key|, bins - 1) == 0 then Weights(key, bins - 1)
    else Weights(key, bins - 1) + [CountAt(key, |key|, bins - 1)]
  }

  function Share(c: nat, a: real): real {
    (c as real) * a
  }

  /** Each average times its weight, added up. */
  function Weighted(w: seq<nat>, m: seq<real>): real
    requires |w| == |m|
  {
    if w == [] then 0.0
    else Weighted(w[..|w| - 1], m[..|m| - 1]) + Share(w[|w| - 1], m[|m| - 1])
  }

  function TotalWeight(w: seq<nat>): nat {
    if w == [] then 0 else TotalWeight(w[..|w| - 1]) + w[|w| - 1]
  }

  lemma NothingWeighted()
    ensures Weighted([], []) == 0.0
  {
  }

  lemma WeightedLast(w: seq<nat>, m: seq<real>, c: nat, a: real)
    requires |w| == |m|
    ensures Weighted(w + [c], m + [a]) == Weighted(w, m) + Share(c, a)
  {
    hide Share;
    var w', m' := w + [c], m + [a];
    assert w'[..|w|] == w && m'[..|m|] == m && w'[|w|] == c && m'[|m|] == a;
  }

  lemma WeightedAppend(w: seq<nat>, m: seq<real>, c: nat, sum: real)
    requires |w| == |m| && c > 0
    ensures Weighted(w + [c], m + [sum / (c as real)]) == Weighted(w, m) + sum
  {
    hide Weighted;
    WeightedLast(w, m, c, sum / (c as real));
    Undivided(sum, c as real);
  }

  lemma {:induction false} EmptyBinSum(key: seq<int>, v: seq<real>, n: nat, b: int)
    requires n <= |key| && n <= |v| && CountAt(key, n, b) == 0
    ensures SumAt(key, v, n, b) == 0.0
    decreases n
  {
    if n > 0 {
      EmptyBinSum(key, v, n - 1, b);
    }
  }

  lemma {:induction false} WeightsPositive(key: seq<int>, bins: nat)
    ensures forall k | 0 <= k < |Weights(key, bins)| :: Weights(key, bins)[k] > 0
  {
    if bins > 0 {
      WeightsPositive(key, bins - 1);
    }
  }

  lemma {:induction false} WeightsConserve(key: seq<int>, bins: nat)
    ensures TotalWeight(Weights(key, bins)) == CountOverBins(key, |key|, bins)
  {
    if bins > 0 {
      WeightsConserve(key, bins - 1);
      var w, c := Weights(key, bins - 1), CountAt(key, |key|, bins - 1);
      assert (w + [c])[..|w|] == w;
    }
  }

  lemma {:induction false} MeansConserve(key: seq<int>, v: seq<real>, bins: nat)
    requires |key| <= |v|
    ensures Weighted(Weights(key, bins), Means(key, v, bins)) == SumOverBins(key, v, |key|, bins)
  {
    hide Weighted, SumAt, CountAt;
    if bins == 0 {
      NothingWeighted();
    } else {
      var b := bins - 1;
      MeansConserve(key, v, b);
      if CountAt(key, |key|, b) == 0 {
        EmptyBinSum(key, v, |key|, b);
      } else {
        WeightedAppend(Weights(key, b), Means(key, v, b), CountAt(key, |key|, b), SumAt(key, v, |key|, b));
      }
    }
  }

  // ---------------------------------------------------------------- order

  /** Samples of bin `b` are at least `low`, so their sum is at least that often `low`. */
  lemma {:induction false} SumAtLeast(key: seq<int>, v: seq<real>, n: nat, b: int, low: real)
    requires n <= |key| && n <= |v|
    requires forall i | 0 <= i < n :: key[i] == b ==> low <= v[i]
    ensures (CountAt(key, n, b) as real) * low <= SumAt(key, v, n, b)
    decreases n
  {
    if n > 0 {
      SumAtLeast(key, v, n - 1, b, low);
      OneTimesMore(CountAt(key, n - 1, b), low);
    }
  }

  lemma {:induction false} SumBelow(key: seq<int>, v: seq<real>, n: nat, b: int, high: real)
    requires n <= |key| && n <= |v|
    requires forall i | 0 <= i < n :: key[i] == b ==> v[i] < high
    ensures SumAt(key, v, n, b) <= (CountAt(key, n, b) as real) * high
    ensures CountAt(key, n, b) > 0 ==> SumAt(key, v, n, b) < (CountAt(key, n, b) as real) * high
    decreases n
  {
    if n > 0 {
      SumBelow(key, v, n - 1, b, high);
      OneTimesMore(CountAt(key, n - 1, b), high);
    }
  }

  lemma OneTimesMore(c: nat, a: real)
    ensures ((c + 1) as real) * a == (c as real) * a + a
  {
  }

  /** Where the keys put the values: at or above the lower edge of the bin, and below the upper
      one except in the last bin. */
  ghost predicate Placed(key: seq<int>, v: seq<real>, lo: real, w: real, bins: nat) {
    && |key| == |v| && w >= 0.0
    && forall i | 0 <= i < |key| :: InBin(v[i], lo, w, key[i], bins)
  }

  ghost predicate InBin(a: real, lo: real, w: real, b: int, bins: nat) {
    Edge(lo, w, b) <= a && (b < bins - 1 ==> a < Edge(lo, w, b + 1))
  }

  lemma MeanInBin(key: seq<int>, v: seq<real>, lo: real, w: real, bins: nat, b: int)
    requires Placed(key, v, lo, w, bins) && CountAt(key, |key|, b) != 0
    ensures Edge(lo, w, b) <= Mean(key, v, b)
    ensures b < bins - 1 ==> Mean(key, v, b) < Edge(lo, w, b + 1)
  {
    hide CountAt, SumAt, Edge;
    var c, s := CountAt(key, |key|, b) as real, SumAt(key, v, |key|, b);
    SumAtLeast(key, v, |key|, b, Edge(lo, w, b));
    QuotientAtLeast(s, c, Edge(lo, w, b));
    if b < bins - 1 {
      SumBelow(key, v, |key|, b, Edge(lo, w, b + 1));
      QuotientBelow(s, c, Edge(lo, w, b + 1));
    }
  }

  ghost predicate Increasing(m: seq<real>) {
    forall i, j | 0 <= i < j < |m| :: m[i] < m[j]
  }

  lemma {:induction false} MeansIncrease(key: seq<int>, v: seq<real>, lo: real, w: real, bins: nat, b: nat)
    requires Placed(key, v, lo, w, bins) && b <= bins
    ensures Increasing(Means(key, v, b))
    ensures b < bins ==> forall k | 0 <= k < |Means(key, v, b)| :: Means(key, v, b)[k] < Edge(lo, w, b)
    decreases b
  {
    if b > 0 {
      MeansIncrease(key, v, lo, w, bins, b - 1);
      EdgesAscend(lo, w, b - 1);
      if CountAt(key, |key|, b - 1) != 0 {
        MeanInBin(key, v, lo, w, bins, b - 1);
      }
    }
  }

  lemma EdgesAscend(lo: real, w: real, b: int)
    requires w >= 0.0
    ensures Edge(lo, w, b) <= Edge(lo, w, b + 1)
  {
  }

  // ---------------------------------------------------------------- the resampler

  datatype Result = Resampled(x: seq<real>, y: seq<real>) | EmptyInput | IndexError

  /** The specification: averages over the bins between the smallest and the largest abscissa. */
  function Resample(x: seq<real>, y: seq<real>, bins: nat): Result
    requires bins > 0
  {
    if x == [] then EmptyInput
    else if |y| < |x| then IndexError
    else
      var key := Keys(x, Lowest(x), Highest(x), bins);
      Resampled(Means(key, x, bins), Means(key, y, bins))
  }

  lemma KeysPlaced(x: seq<real>, bins: nat)
    requires x != [] && bins > 0
    ensures var lo, hi := Lowest(x), Highest(x);
            KeysBelow(Keys(x, lo, hi, bins), bins)
            && Placed(Keys(x, lo, hi, bins), x, lo, Width(lo, hi, bins), bins)
  {
    var lo, hi := Lowest(x), Highest(x);
    var key := Keys(x, lo, hi, bins);
    WidthNotNegative(lo, hi, bins);
    forall i | 0 <= i < |key|
      ensures 0 <= key[i] < bins && InBin(x[i], lo, Width(lo, hi, bins), key[i], bins)
    {
      BinIsRight(x[i], lo, hi, bins);
    }
  }

  /** Main result, for any number of bins. There are weights, all positive and adding up to the
      number of samples, with which the outputs add up to the inputs; the output abscissae
      strictly increase. */
  lemma ResampleConserves(x: seq<real>, y: seq<real>, bins: nat) returns (weights: seq<nat>)
    requires bins > 0 && 0 < |x| <= |y|
    ensures var r := Resample(x, y, bins);
            && r.Resampled?
            && |weights| == |r.x| == |r.y|
            && (forall k | 0 <= k < |weights| :: weights[k] > 0)
            && TotalWeight(weights) == |x|
            && Weighted(weights, r.x) == Sum(x, |x|)
            && Weighted(weights, r.y) == Sum(y, |x|)
            && Increasing(r.x)
  {
    var lo, hi := Lowest(x), Highest(x);
    var key := Keys(x, lo, hi, bins);
    weights := Weights(key, bins);
    KeysPlaced(x, bins);
    MeansIncrease(key, x, lo, Width(lo, hi, bins), bins, bins);
    WeightsPositive(key, bins);
    WeightsConserve(key, bins);
    MeansConserve(key, x, bins);
    MeansConserve(key, y, bins);
    BinsConserve(key, x, |x|, bins);
    BinsConserve(key, y, |x|, bins);
  }

  /** The samples behind one average lie within one interval, of which there are as many as bins in
      the range (`Widths`). */
  lemma BinsAreNarrow(x: seq<real>, bins: nat, i: nat, j: nat)
    requires bins > 0 && i < |x| && j < |x|
    requires var key := Keys(x, Lowest(x), Highest(x), bins); key[i] == key[j]
    ensures x[i] - x[j] <= Width(Lowest(x), Highest(x), bins)
  {
    hide Keys, Placed, KeysBelow, Width;
    var lo, hi := Lowest(x), Highest(x);
    KeysPlaced(x, bins);
    NarrowBins(Keys(x, lo, hi, bins), x, lo, hi, bins, i, j);
  }

  lemma NarrowBins(key: seq<int>, v: seq<real>, lo: real, hi: real, bins: nat, i: nat, j: nat)
    requires bins > 0 && i < |key| && j < |key| && KeysBelow(key, bins)
    requires Placed(key, v, lo, Width(lo, hi, bins), bins) && lo <= v[i] <= hi && key[i] == key[j]
    ensures v[i] - v[j] <= Width(lo, hi, bins)
  {
    hide InBin, Width;
    assert InBin(v[i], lo, Width(lo, hi, bins), key[i], bins) && InBin(v[j], lo, Width(lo, hi, bins), key[j], bins);
    OneBin(v[i], v[j], lo, hi, key[i], bins);
  }

  lemma OneBin(a: real, c: real, lo: real, hi: real, b: int, bins: nat)
    requires bins > 0 && b < bins && lo <= a <= hi
    requires var w := Width(lo, hi, bins); InBin(a, lo, w, b, bins) && InBin(c, lo, w, b, bins)
    ensures a - c <= Width(lo, hi, bins)
  {
    var w := Width(lo, hi, bins);
    Widths(lo, hi, bins);
    assert Edge(lo, w, b + 1) == Edge(lo, w, b) + w by { OneTimesMoreInt(b, w); }
    if b == bins - 1 {
      assert Edge(lo, w, bins) == hi;
    }
  }

  lemma OneTimesMoreInt(b: int, w: real)
    ensures ((b + 1) as real) * w == (b as real) * w + w
  {
    assert (b + 1) as real == (b as real) + 1.0;
  }

  predicate OnLine(a: real, b: real, slope: real, offset: real) {
    b == slope * a + offset
  }

  ghost predicate AllOnLine(x: seq<real>, y: seq<real>, n: nat, slope: real, offset: real) {
    n <= |x| && n <= |y| && forall i | 0 <= i < n :: OnLine(x[i], y[i], slope, offset)
  }

  /** Readings on a straight line are averaged onto the same line. */
  lemma LineIsKept(x: seq<real>, y: seq<real>, bins: nat, slope: real, offset: real)
    requires bins > 0 && x != [] && AllOnLine(x, y, |x|, slope, offset)
    ensures var r := Resample(x, y, bins);
            r.Resampled? && |r.x| == |r.y| && AllOnLine(r.x, r.y, |r.x|, slope, offset)
  {
    hide OnLine, Means, Lowest, Highest, BinOf;
    MeansOnLine(Keys(x, Lowest(x), Highest(x), bins), x, y, bins, slope, offset);
  }

  /** A sum of `c` ordinates and the sum of their abscissae. */
  ghost predicate Balanced(sy: real, sx: real, c: nat, slope: real, offset: real) {
    sy == slope * sx + (c as real) * offset
  }

  lemma BalancedNext(sy: real, sx: real, c: nat, x: real, y: real, slope: real, offset: real)
    requires Balanced(sy, sx, c, slope, offset) && OnLine(x, y, slope, offset)
    ensures Balanced(sy + y, sx + x, c + 1, slope, offset)
  {
    OneTimesMore(c, offset);
    Distribute(slope, sx, x);
  }

  lemma {:induction false} SumOnLine(key: seq<int>, x: seq<real>, y: seq<real>, n: nat, b: int, slope: real,
                                     offset: real)
    requires n <= |key| && AllOnLine(x, y, |key|, slope, offset)
    ensures Balanced(SumAt(key, y, n, b), SumAt(key, x, n, b), CountAt(key, n, b), slope, offset)
    decreases n
  {
    if n > 0 {
      hide Balanced, OnLine;
      SumOnLine(key, x, y, n - 1, b, slope, offset);
      assert OnLine(x[n - 1], y[n - 1], slope, offset);
      if key[n - 1] == b {
        BalancedNext(SumAt(key, y, n - 1, b), SumAt(key, x, n - 1, b), CountAt(key, n - 1, b), x[n - 1], y[n - 1],
                     slope, offset);
      }
    }
  }

  lemma Distribute(a: real, b: real, c: real)
    ensures a * (b + c) == a * b + a * c
  {
  }

  lemma MeanOnLine(key: seq<int>, x: seq<real>, y: seq<real>, b: int, slope: real, offset: real)
    requires AllOnLine(x, y, |key|, slope, offset) && CountAt(key, |key|, b) != 0
    ensures OnLine(Mean(key, x, b), Mean(key, y, b), slope, offset)
  {
    hide OnLine, SumAt, CountAt;
    SumOnLine(key, x, y, |key|, b, slope, offset);
    QuotientOnLine(SumAt(key, x, |key|, b), SumAt(key, y, |key|, b), CountAt(key, |key|, b) as real, slope, offset);
  }

  lemma QuotientOnLine(s: real, t: real, c: real, slope: real, offset: real)
    requires c > 0.0 && t == slope * s + c * offset
    ensures OnLine(s / c, t / c, slope, offset)
  {
    var q, r := s / c, t / c;
    assert c * q == s && c * r == t;
    assert c * (slope * q + offset) == slope * (c * q) + c * offset;
    assert c * (r - (slope * q + offset)) == 0.0;
  }

  lemma {:induction false} MeansOnLine(key: seq<int>, x: seq<real>, y: seq<real>, bins: nat, slope: real,
                                       offset: real)
    requires AllOnLine(x, y, |key|, slope, offset)
    ensures AllOnLine(Means(key, x, bins), Means(key, y, bins), |Means(key, x, bins)|, slope, offset)
    ensures |Means(key, x, bins)| == |Means(key, y, bins)|
    decreases bins
  {
    if bins > 0 {
      hide Mean, OnLine, SumAt, CountAt;
      MeansOnLine(key, x, y, bins - 1, slope, offset);
      if CountAt(key, |key|, bins - 1) != 0 {
        MeanOnLine(key, x, y, bins - 1, slope, offset);
      }
    }
  }

  // ---------------------------------------------------------------- the method

  /** One round of the accumulation loop: sample `i` goes to bin `b`. */
  method Accumulate(ghost key: seq<int>, x: seq<real>, y: seq<real>, sx: array<real>, sy: array<real>,
                    count: array<nat>, i: nat, b: nat)
    requires i < |key| <= |x| && |key| <= |y|
    requires sx.Length == sy.Length == count.Length && sx != sy && b == key[i] < sx.Length
    requires forall c | 0 <= c < sx.Length ::
               sx[c] == SumAt(key, x, i, c) && sy[c] == SumAt(key, y, i, c) && count[c] == CountAt(key, i, c)
    modifies sx, sy, count
    ensures forall c | 0 <= c < sx.Length ::
              sx[c] == SumAt(key, x, i + 1, c) && sy[c] == SumAt(key, y, i + 1, c)
              && count[c] == CountAt(key, i + 1, c)
  {
    sy[b] := sy[b] + y[i];
    sx[b] := sx[b] + x[i];
    count[b] := count[b] + 1;
  }

  /** The bins that are not empty, each sum divided by its count. */
  method Average(ghost key: seq<int>, ghost v: seq<real>, sum: array<real>, count: array<nat>)
    returns (means: seq<real>)
    requires |key| <= |v| && sum.Length == count.Length
    requires forall b | 0 <= b < sum.Length :: sum[b] == SumAt(key, v, |key|, b) && count[b] == CountAt(key, |key|, b)
    ensures means == Means(key, v, sum.Length)
  {
    means := [];
    for b := 0 to sum.Length
      invariant means == Means(key, v, b)
    {
      if count[b] != 0 {
        means := means + [sum[b] / (count[b] as real)];
      }
    }
  }

  /** `resampleWithDeltaX`. */
  method ResampleWithDeltaX(x: seq<real>, y: seq<real>) returns (r: Result)
    ensures r == Resample(x, y, 2000)
  {
    if x == [] {
      return EmptyInput;
    }
    if |y| < |x| {
      return IndexError;
    }
    var lo, hi := Lowest(x), Highest(x);
    ghost var key := Keys(x, lo, hi, INTERVALS);
    KeysPlaced(x, INTERVALS);
    var sx, sy := new real[INTERVALS](_ => 0.0), new real[INTERVALS](_ => 0.0);
    var count := new nat[INTERVALS](_ => 0);
    for i := 0 to |x|
      invariant forall b | 0 <= b < sx.Length ::
                  sx[b] == SumAt(key, x, i, b) && sy[b] == SumAt(key, y, i, b) && count[b] == CountAt(key, i, b)
    {
      var bin := BinOf(x[i], lo, hi, INTERVALS);
      assert bin == key[i];
      Accumulate(key, x, y, sx, sy, count, i, bin);
    }
    var rx := Average(key, x, sx, count);
    var ry := Average(key, y, sy, count);
    r := Resampled(rx, ry);
  }
}
