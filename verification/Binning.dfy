/** The histograms of the recording comparison: the bounds and the counts. Samples are real numbers. */
module Binning {
  import opened Rounding

  const MAX_BINS := 500

  datatype Bounds = Bounds(lo: int, hi: int, step: int)

  // ---------------------------------------------------------------------------------------------
  // histogram
  // ---------------------------------------------------------------------------------------------

  /** The bin a sample belongs to, as a number of steps above `lo`. */
  function Index(v: real, lo: int, step: int): int
    requires step > 0
  {
    ((v - lo as real) / step as real).Floor
  }

  /** The samples that fall in the bin that starts at `bin`. */
  function Count(vals: seq<real>, lo: int, step: int, bin: int): nat
    requires step > 0
  {
    if vals == [] then 0
    else
      var last := |vals| - 1;
      Count(vals[..last], lo, step, bin) + if Index(vals[last], lo, step) * step + lo == bin then 1 else 0
  }

  function CeilDiv(a: int, b: int): int
    requires b > 0
  {
    (a + b - 1) / b
  }

  /** The length of `range(lo, hi, step)`. */
  function RangeLength(lo: int, hi: int, step: int): nat
    requires step > 0
  {
    if lo < hi then CeilDiv(hi - lo, step) else 0
  }

  /** A share of `n`, in percent to four decimals. */
  function Percent(count: nat, n: nat): real
    requires n > 0
  {
    RoundHalfEven(count as real / n as real * 100.0 * 10000.0) as real / 10000.0
  }

  /** `histogram`. */
  method Histogram(vals: seq<real>, lo: int, hi: int, step: int) returns (shares: seq<real>)
    requires step > 0
    ensures vals == [] ==> |shares| == (if lo <= hi then (hi - lo) / step else 0)
    ensures vals == [] ==> forall i | 0 <= i < |shares| :: shares[i] == 0.0
    ensures vals != [] ==> |shares| == RangeLength(lo, hi, step)
    ensures vals != [] ==>
              forall i | 0 <= i < |shares| :: shares[i] == Percent(Count(vals, lo, step, lo + i * step), |vals|)
  {
    var n := |vals|;
    if n == 0 {
      return seq(if lo <= hi then (hi - lo) / step else 0, _ => 0.0);
    }
    var c: map<int, nat> := map[];
    for k := 0 to n
      invariant forall bin :: Get(c, bin) == Count(vals[..k], lo, step, bin)
    {
      assert vals[..k + 1][..k] == vals[..k];
      var bucket := Index(vals[k], lo, step) * step + lo;
      c := c[bucket := Get(c, bucket) + 1];
    }
    assert vals[..n] == vals;
    shares := seq(RangeLength(lo, hi, step), i => Percent(Get(c, lo + i * step), n));
  }

  function Get(c: map<int, nat>, bin: int): nat { if bin in c then c[bin] else 0 }

  // ---------------------------------------------------------------------------------------------
  // hist_bounds
  // ---------------------------------------------------------------------------------------------

  function Min(vals: seq<real>): (m: real)
    requires vals != []
    ensures m in vals && forall v | v in vals :: m <= v
  {
    if |vals| == 1 then vals[0]
    else
      var rest := Min(vals[1..]);
      assert vals == [vals[0]] + vals[1..];
      if vals[0] <= rest then vals[0] else rest
  }

  function Max(vals: seq<real>): (m: real)
    requires vals != []
    ensures m in vals && forall v | v in vals :: v <= m
  {
    if |vals| == 1 then vals[0]
    else
      var rest := Max(vals[1..]);
      assert vals == [vals[0]] + vals[1..];
      if vals[0] >= rest then vals[0] else rest
  }

  /** `hist_bounds`. */
  function HistBounds(va: seq<real>, vb: seq<real>, baseStep: int): Bounds
    requires va + vb != [] && baseStep > 0
  {
    var lo := (Min(va + vb) / baseStep as real).Floor * baseStep;
    var hi := ((Max(va + vb) / baseStep as real).Floor + 2) * baseStep;
    var bins := (hi - lo) / baseStep;
    var wanted := CeilDiv(bins, MAX_BINS);
    var factor := if wanted > 1 then wanted else 1;
    var step := baseStep * factor;
    assert step > 0 by { Positive(baseStep, factor); }
    Bounds(lo, lo + step * CeilDiv(hi - lo, step), step)
  }

  function OrZero(vals: seq<real>): seq<real> { if vals == [] then [0.0] else vals }

  lemma Positive(a: int, b: int)
    requires a > 0 && b > 0
    ensures a * b > 0
  {}

  // ---------------------------------------------------------------------------------------------
  // The bounds
  // ---------------------------------------------------------------------------------------------

  lemma NotNegative(a: int, b: int)
    requires a >= 0 && b >= 0
    ensures a * b >= 0
  {}

  lemma DivOfMultiple(a: int, b: int)
    requires b > 0
    ensures (a * b) / b == a && (a * b) % b == 0
  {
    var p := a * b;
    var q := p / b;
    assert p == q * b + p % b;
    if q > a { NotNegative(q - a - 1, b); }
    if q < a { NotNegative(a - q - 1, b); }
  }

  lemma CeilDivBounds(a: int, b: int)
    requires b > 0
    ensures (CeilDiv(a, b) - 1) * b < a <= CeilDiv(a, b) * b
  {
    assert a + b - 1 == (a + b - 1) / b * b + (a + b - 1) % b;
  }

  /** A quotient is at least (or below) a whole number when the dividend is at least (or below) that many divisors. */
  lemma QuotientCompare(x: real, d: real, k: real)
    requires d > 0.0
    ensures x / d >= k <==> x >= k * d
  {
    var q := x / d;
    assert q * d == x;
    if q >= k {
      assert (q - k) * d >= 0.0;
    } else {
      assert (k - q) * d > 0.0;
    }
  }

  /** The sample lies in the half-open interval of bin number `i`. */
  predicate InBin(v: real, lo: int, step: int, i: int) {
    (lo + i * step) as real <= v < (lo + (i + 1) * step) as real
  }

  /** A sample's bin is the one whose half-open interval holds it. */
  lemma IndexIsInterval(v: real, lo: int, step: int, i: int)
    requires step > 0
    ensures InBin(v, lo, step, i) <==> i == Index(v, lo, step)
  {
    var q := (v - lo as real) / step as real;
    QuotientCompare(v - lo as real, step as real, i as real);
    QuotientCompare(v - lo as real, step as real, (i + 1) as real);
    IntTimes(i, step);
    IntTimes(i + 1, step);
  }

  /** The bounds in terms of the first and last base bin and the factor by which bins are widened. */
  lemma BoundsParts(va: seq<real>, vb: seq<real>, baseStep: int) returns (bins: int, factor: int)
    requires va + vb != [] && baseStep > 0
    ensures bins >= 2 && factor >= 1 && bins <= MAX_BINS * factor
    ensures var b := HistBounds(va, vb, baseStep);
            b.step == baseStep * factor && b.step > 0 && b.hi == b.lo + b.step * CeilDiv(bins * baseStep, b.step)
  {
    var first := (Min(va + vb) / baseStep as real).Floor;
    var last := (Max(va + vb) / baseStep as real).Floor;
    QuotientCompare(Max(va + vb), baseStep as real, Min(va + vb) / baseStep as real);
    bins := last + 2 - first;
    Distribute(last + 2, first, baseStep);
    DivOfMultiple(bins, baseStep);
    CeilDivBounds(bins, MAX_BINS);
    factor := if CeilDiv(bins, MAX_BINS) > 1 then CeilDiv(bins, MAX_BINS) else 1;
    Positive(baseStep, factor);
  }

  lemma Distribute(a: int, b: int, c: int)
    ensures a * c - b * c == (a - b) * c
  {}

  /** At most five hundred bins, and the width is a whole number of steps. */
  lemma BoundedBins(va: seq<real>, vb: seq<real>, baseStep: int)
    requires va + vb != [] && baseStep > 0
    ensures var b := HistBounds(va, vb, baseStep);
            b.step > 0 && b.step % baseStep == 0 && b.hi - b.lo == b.step * RangeLength(b.lo, b.hi, b.step) &&
            1 <= RangeLength(b.lo, b.hi, b.step) <= MAX_BINS
  {
    hide HistBounds, CeilDiv;
    var b := HistBounds(va, vb, baseStep);
    var bins, factor := BoundsParts(va, vb, baseStep);
    ProductMod(factor, baseStep);
    var k := CeilDiv(bins * baseStep, b.step);
    CeilDivBounds(bins * baseStep, b.step);
    FewBins(bins, baseStep, factor, k);
    Positive(bins, baseStep);
    if k <= 0 { NotNegative(-k, b.step); }
    ExactRange(k, b.step);
    Positive(k, b.step);
  }

  lemma ProductMod(a: int, b: int)
    requires b > 0
    ensures (b * a) % b == 0
  {
    assert b * a == a * b;
    DivOfMultiple(a, b);
  }

  lemma ExactRange(k: int, step: int)
    requires step > 0
    ensures CeilDiv(k * step, step) == k
  {
    var product := k * step;
    CeilDivBounds(product, step);
    var c := CeilDiv(product, step);
    OnlyCeiling(product, step, k, c);
  }

  lemma OnlyCeiling(a: int, step: int, k: int, c: int)
    requires step > 0 && a == k * step && (c - 1) * step < a <= c * step
    ensures c == k
  {
    if c > k { NotNegative(c - 1 - k, step); }
    if c < k { Positive(k - c, step); }
  }

  lemma Reorder(a: int, b: int, c: int)
    ensures a * (c * b) == a * b * c
  {}

  lemma FewBins(bins: int, baseStep: int, factor: int, k: int)
    requires baseStep > 0 && factor > 0 && bins <= MAX_BINS * factor
    requires (k - 1) * (baseStep * factor) < bins * baseStep
    ensures k <= MAX_BINS
  {
    if k > MAX_BINS {
      var step := baseStep * factor;
      Reorder(MAX_BINS, factor, baseStep);
      NotNegative(k - 1 - MAX_BINS, step);
      NotNegative(MAX_BINS * factor - bins, baseStep);
    }
  }

  /** Every sample of either recording lies inside the bounds. */
  lemma BoundsCover(va: seq<real>, vb: seq<real>, baseStep: int, v: real)
    requires baseStep > 0 && v in va + vb
    ensures var b := HistBounds(va, vb, baseStep); b.lo as real <= v < b.hi as real
  {
    var least, most := Min(va + vb), Max(va + vb);
    assert least <= v <= most;
    FloorBelow(least, baseStep);
    FloorBelow(most, baseStep);
    LargestEdge(va, vb, baseStep);
  }

  /** The multiple of the step just below a number. */
  lemma FloorBelow(x: real, step: int)
    requires step > 0
    ensures ((x / step as real).Floor * step) as real <= x < (((x / step as real).Floor + 1) * step) as real
  {
    var d := step as real;
    var f := (x / d).Floor;
    QuotientCompare(x, d, f as real);
    QuotientCompare(x, d, (f + 1) as real);
    IntTimes(f, step);
    IntTimes(f + 1, step);
  }

  lemma IntTimes(a: int, b: int)
    ensures (a * b) as real == a as real * b as real
  {}

  /** Rounding the width up to whole steps keeps the upper edge at least one base step above the largest sample's. */
  lemma LargestEdge(va: seq<real>, vb: seq<real>, baseStep: int)
    requires va + vb != [] && baseStep > 0
    ensures ((Max(va + vb) / baseStep as real).Floor + 1) * baseStep <= HistBounds(va, vb, baseStep).hi
  {
    BoundedBins(va, vb, baseStep);
    var b := HistBounds(va, vb, baseStep);
    var last := (Max(va + vb) / baseStep as real).Floor;
    var width := (last + 2) * baseStep - b.lo;
    CeilDivBounds(width, b.step);
    assert b.hi == b.lo + b.step * CeilDiv(width, b.step);
    assert (last + 2) * baseStep == (last + 1) * baseStep + baseStep;
  }

  /** Inside bounds a whole number of steps wide, a sample's bin is one of the displayed ones. */
  lemma IndexInRange(v: real, lo: int, step: int, k: nat)
    requires step > 0
    requires lo as real <= v < (lo + step * k) as real
    ensures 0 <= Index(v, lo, step) < k
  {
    QuotientCompare(v - lo as real, step as real, 0.0);
    QuotientCompare(v - lo as real, step as real, k as real);
    IntTimes(k, step);
  }

  /** Exactly one displayed bin holds a sample, and it is the one that counts it. */
  lemma OneBin(va: seq<real>, vb: seq<real>, baseStep: int, v: real)
    requires baseStep > 0 && v in va + vb
    ensures var b := HistBounds(va, vb, baseStep);
            b.step > 0 && 0 <= Index(v, b.lo, b.step) < RangeLength(b.lo, b.hi, b.step)
    ensures var b := HistBounds(va, vb, baseStep);
            forall i: int :: InBin(v, b.lo, b.step, i) <==> i == Index(v, b.lo, b.step)
  {
    hide *;
    var b := HistBounds(va, vb, baseStep);
    BoundedBins(va, vb, baseStep);
    BoundsCover(va, vb, baseStep, v);
    IndexInRange(v, b.lo, b.step, RangeLength(b.lo, b.hi, b.step));
    forall i: int
      ensures InBin(v, b.lo, b.step, i) <==> i == Index(v, b.lo, b.step)
    {
      IndexIsInterval(v, b.lo, b.step, i);
    }
  }

  // ---------------------------------------------------------------------------------------------
  // The counts
  // ---------------------------------------------------------------------------------------------

  /** The sum over the first `k` bins. */
  function Total(vals: seq<real>, lo: int, step: int, k: nat): nat
    requires step > 0
  {
    if k == 0 then 0 else Total(vals, lo, step, k - 1) + Count(vals, lo, step, lo + (k - 1) * step)
  }

  lemma {:induction false} TotalOfNone(lo: int, step: int, k: nat)
    requires step > 0
    ensures Total([], lo, step, k) == 0
  {
    if k > 0 { TotalOfNone(lo, step, k - 1); }
  }

  lemma {:induction false} TotalOfOneMore(vals: seq<real>, lo: int, step: int, k: nat)
    requires step > 0 && vals != []
    ensures Total(vals, lo, step, k) == Total(vals[..|vals| - 1], lo, step, k) +
            if 0 <= Index(vals[|vals| - 1], lo, step) < k then 1 else 0
  {
    if k > 0 {
      hide Index;
      TotalOfOneMore(vals, lo, step, k - 1);
      var i := Index(vals[|vals| - 1], lo, step);
      SameBin(i, k - 1, lo, step);
    }
  }

  lemma SameBin(i: int, j: int, lo: int, step: int)
    requires step > 0
    ensures i * step + lo == lo + j * step <==> i == j
  {
    if i > j { assert (i - j) * step > 0; }
    if i < j { assert (j - i) * step > 0; }
  }

  /** When every sample has a bin below `k`, the bins hold all samples. */
  lemma {:induction false} CountsAddUp(vals: seq<real>, lo: int, step: int, k: nat)
    requires step > 0
    requires forall v | v in vals :: 0 <= Index(v, lo, step) < k
    ensures Total(vals, lo, step, k) == |vals|
  {
    if vals == [] {
      TotalOfNone(lo, step, k);
    } else {
      TotalOfOneMore(vals, lo, step, k);
      assert vals[|vals| - 1] in vals;
      CountsAddUp(vals[..|vals| - 1], lo, step, k);
    }
  }

  /** Conservation: with the computed bounds, the counts of each recording sum to its number of samples. */
  lemma NothingIsLost(va: seq<real>, vb: seq<real>, baseStep: int)
    requires va + vb != [] && baseStep > 0
    ensures var b := HistBounds(va, vb, baseStep);
            b.step > 0 &&
            Total(va, b.lo, b.step, RangeLength(b.lo, b.hi, b.step)) == |va| &&
            Total(vb, b.lo, b.step, RangeLength(b.lo, b.hi, b.step)) == |vb|
  {
    var b := HistBounds(va, vb, baseStep);
    BoundedBins(va, vb, baseStep);
    var k := RangeLength(b.lo, b.hi, b.step);
    forall v | v in va + vb ensures 0 <= Index(v, b.lo, b.step) < k {
      OneBin(va, vb, baseStep, v);
    }
    CountsAddUp(va, b.lo, b.step, k);
    CountsAddUp(vb, b.lo, b.step, k);
  }

  /** An empty recording gets as many zeros as the other has bins exactly when the step divides the width. */
  lemma EmptyLengthExactly(lo: int, hi: int, step: int)
    requires step > 0 && lo <= hi
    ensures (hi - lo) / step == RangeLength(lo, hi, step) <==> (hi - lo) % step == 0
  {
    var w := hi - lo;
    assert w == w / step * step + w % step;
    if w % step == 0 {
      ExactRange(w / step, step);
    } else if w > 0 {
      CeilDivBounds(w, step);
      if CeilDiv(w, step) <= w / step { NotNegative(w / step - CeilDiv(w, step), step); }
    }
  }

  // ---------------------------------------------------------------------------------------------
  // The rendered report
  // ---------------------------------------------------------------------------------------------

  function Sum(shares: seq<real>): real { if shares == [] then 0.0 else Sum(shares[..|shares| - 1]) + shares[|shares| - 1] }

  /** What `histogram` returns for a recording with samples. */
  function Shares(vals: seq<real>, lo: int, step: int, k: nat): seq<real>
    requires step > 0 && vals != []
  {
    seq(k, i requires 0 <= i < k => Percent(Count(vals, lo, step, lo + i * step), |vals|))
  }

  /** One share is within half a ten-thousandth of the true one. */
  lemma ShareDrift(count: nat, n: nat)
    requires n > 0
    ensures -0.00005 <= Percent(count, n) - count as real / n as real * 100.0 <= 0.00005
  {}

  lemma AddShares(t: real, c: real, n: real)
    requires n > 0.0
    ensures (t + c) / n * 100.0 == t / n * 100.0 + c / n * 100.0
  {}

  /** So the first `k` shares together are within `k` such halves. */
  lemma {:induction false} RoundingDrift(vals: seq<real>, lo: int, step: int, k: nat)
    requires step > 0 && vals != []
    ensures var exact := Total(vals, lo, step, k) as real / |vals| as real * 100.0;
            -0.00005 * k as real <= Sum(Shares(vals, lo, step, k)) - exact <= 0.00005 * k as real
  {
    hide Count, Percent;
    if k > 0 {
      RoundingDrift(vals, lo, step, k - 1);
      var n := |vals|;
      assert Shares(vals, lo, step, k)[..k - 1] == Shares(vals, lo, step, k - 1);
      var c := Count(vals, lo, step, lo + (k - 1) * step);
      assert Shares(vals, lo, step, k)[k - 1] == Percent(c, n);
      ShareDrift(c, n);
      AddShares(Total(vals, lo, step, k - 1) as real, c as real, n as real);
    }
  }

  lemma Whole(n: real)
    requires n > 0.0
    ensures n / n * 100.0 == 100.0
  {}

  /** The shares are those of the bins one by one, or zeros. */
  predicate Charted(vals: seq<real>, lo: int, step: int, shares: seq<real>)
    requires step > 0
  {
    if vals == [] then forall i | 0 <= i < |shares| :: shares[i] == 0.0
    else shares == Shares(vals, lo, step, |shares|)
  }

  /** The two charts of `build_html`: as many entries as bins, at most five hundred, each the share of its own bin, and
      the shares of a recording with samples total one hundred percent to within a fortieth of a percent. */
  method Charts(a: seq<real>, b: seq<real>, baseStep: int) returns (bins: seq<int>, sharesA: seq<real>, sharesB: seq<real>)
    requires baseStep > 0
    ensures |bins| == |sharesA| == |sharesB| <= MAX_BINS
    ensures var s := HistBounds(OrZero(a), OrZero(b), baseStep);
            s.step > 0 && forall i | 0 <= i < |bins| :: bins[i] == s.lo + i * s.step
    ensures var s := HistBounds(OrZero(a), OrZero(b), baseStep);
            s.step > 0 && Charted(a, s.lo, s.step, sharesA) && Charted(b, s.lo, s.step, sharesB)
    ensures a != [] ==> 99.975 <= Sum(sharesA) <= 100.025
    ensures b != [] ==> 99.975 <= Sum(sharesB) <= 100.025
  {
    hide Count, Percent, Total, Sum;
    var s := HistBounds(OrZero(a), OrZero(b), baseStep);
    BoundedBins(OrZero(a), OrZero(b), baseStep);
    var k := RangeLength(s.lo, s.hi, s.step);
    DivOfMultiple(k, s.step);
    bins := seq(k, i => s.lo + i * s.step);
    sharesA := Histogram(a, s.lo, s.hi, s.step);
    sharesB := Histogram(b, s.lo, s.hi, s.step);
    NothingIsLost(OrZero(a), OrZero(b), baseStep);
    if a != [] { FullShares(a, s.lo, s.step, k, sharesA); }
    if b != [] { FullShares(b, s.lo, s.step, k, sharesB); }
  }

  lemma FullShares(vals: seq<real>, lo: int, step: int, k: nat, shares: seq<real>)
    requires step > 0 && vals != [] && k <= MAX_BINS && |shares| == k
    requires forall i | 0 <= i < k :: shares[i] == Percent(Count(vals, lo, step, lo + i * step), |vals|)
    requires Total(vals, lo, step, k) == |vals|
    ensures shares == Shares(vals, lo, step, k) && 99.975 <= Sum(shares) <= 100.025
  {
    hide Count, Percent, Total, Sum;
    RoundingDrift(vals, lo, step, k);
    Whole(|vals| as real);
    assert shares == Shares(vals, lo, step, k);
  }

  // ---------------------------------------------------------------------------------------------
  // The answers spelled out
  // ---------------------------------------------------------------------------------------------

  /** A share is the nearest multiple of a ten-thousandth, of two the even one. */
  lemma PercentExactly(count: nat, n: nat) returns (r: int)
    requires n > 0
    ensures Percent(count, n) == r as real / 10000.0
    ensures var x := count as real / n as real * 1000000.0;
      -0.5 <= r as real - x <= 0.5 && (x - x.Floor as real == 0.5 ==> r % 2 == 0)
  {
    r := RoundHalfEven(count as real / n as real * 100.0 * 10000.0);
  }

  /** The bins are those that begin below the upper bound. */
  lemma RangeExactly(lo: int, hi: int, step: int, i: nat)
    requires step > 0
    ensures i < RangeLength(lo, hi, step) <==> lo + i * step < hi
  {
    var n := CeilDiv(hi - lo, step);
    CeilDivBounds(hi - lo, step);
    if i < n { NotNegative(n - 1 - i, step); } else { NotNegative(i - n, step); }
    if hi <= lo { NotNegative(i, step); }
  }

  /** A bin counts the samples that lie in it. */
  lemma {:induction false} CountExactly(a: seq<real>, v: real, lo: int, step: int, i: int)
    requires step > 0
    ensures Count([], lo, step, lo + i * step) == 0
    ensures Count(a + [v], lo, step, lo + i * step) ==
            Count(a, lo, step, lo + i * step) + if InBin(v, lo, step, i) then 1 else 0
  {
    assert (a + [v])[..|a|] == a;
    IndexIsInterval(v, lo, step, i);
    SameBin(Index(v, lo, step), i, lo, step);
  }

  /** The bounds: the lower one is the base bin of the least sample; the width is `n` base bins, up to one beyond that of
      the greatest sample; a step is the fewest base bins, `f`, with which five hundred suffice; and the upper bound is as
      many steps up as cover the width. */
  lemma HistBoundsExactly(va: seq<real>, vb: seq<real>, baseStep: int) returns (n: int, f: int, k: int)
    requires va + vb != [] && baseStep > 0
    ensures var b := HistBounds(va, vb, baseStep);
      && b.lo % baseStep == 0 && InBin(Min(va + vb), b.lo, baseStep, 0) && InBin(Max(va + vb), b.lo, baseStep, n - 2)
      && f >= 1 && n <= 500 * f && (f > 1 ==> 500 * (f - 1) < n)
      && b.step == baseStep * f
      && b.hi == b.lo + b.step * k && (k - 1) * f < n <= k * f
  {
    hide HistBounds, CeilDiv;
    var b := HistBounds(va, vb, baseStep);
    var x, y := Min(va + vb), Max(va + vb);
    var first, last := Index(x, 0, baseStep), Index(y, 0, baseStep);
    n := last + 2 - first;
    f := if CeilDiv(n, MAX_BINS) > 1 then CeilDiv(n, MAX_BINS) else 1;
    BoundsByBins(va, vb, baseStep, first, last, n, f);
    CeilDivBounds(n, MAX_BINS);
    k := CeilDiv(n * baseStep, b.step);
    Positive(baseStep, f);
    CeilDivBounds(n * baseStep, b.step);
    StepsCover(n, f, k, baseStep);
    DivOfMultiple(first, baseStep);
    IndexIsInterval(x, 0, baseStep, first);
    IndexIsInterval(y, 0, baseStep, last);
    Shifted(x, first, baseStep, 0);
    Shifted(y, first, baseStep, n - 2);
  }

  lemma BoundsByBins(va: seq<real>, vb: seq<real>, baseStep: int, first: int, last: int, n: int, f: int)
    requires va + vb != [] && baseStep > 0
    requires first == Index(Min(va + vb), 0, baseStep) && last == Index(Max(va + vb), 0, baseStep)
    requires n == last + 2 - first && f == if CeilDiv(n, MAX_BINS) > 1 then CeilDiv(n, MAX_BINS) else 1
    ensures var b := HistBounds(va, vb, baseStep);
      b.lo == first * baseStep && b.step == baseStep * f > 0 && b.hi == b.lo + b.step * CeilDiv(n * baseStep, b.step)
  {
    Distribute(last + 2, first, baseStep);
    DivOfMultiple(n, baseStep);
    Positive(baseStep, f);
    assert Min(va + vb) - 0 as real == Min(va + vb) && Max(va + vb) - 0 as real == Max(va + vb);
  }

  lemma StepsCover(n: int, f: int, k: int, baseStep: int)
    requires baseStep > 0 && (k - 1) * (baseStep * f) < n * baseStep <= k * (baseStep * f)
    ensures (k - 1) * f < n <= k * f
  {
    assert (k - 1) * (baseStep * f) == (k - 1) * f * baseStep && k * (baseStep * f) == k * f * baseStep;
    if (k - 1) * f >= n { NotNegative((k - 1) * f - n, baseStep); Distribute((k - 1) * f, n, baseStep); }
    if n > k * f { NotNegative(n - k * f, baseStep); Positive(n - k * f, baseStep); Distribute(n, k * f, baseStep); }
  }

  lemma Shifted(v: real, first: int, step: int, i: int)
    requires step > 0
    ensures InBin(v, first * step, step, i) <==> InBin(v, 0, step, first + i)
  {
    Distribute(first, -i, step);
    Distribute(first, -(i + 1), step);
  }
}
