/** Otsu's method: the threshold that maximises the between-class variance of
    a 256-bin intensity histogram, the earliest one winning ties. */
module Threshold {
  import opened Pixels

  /** The 256-bin histogram of a gray buffer. */
  function Histogram(gray: seq<Byte>): (h: seq<nat>)
    ensures |h| == 256
    ensures forall v :: 0 <= v < 256 ==> h[v] == Count(gray, v)
  {
    seq(256, v => Count(gray, v))
  }

  /** Number of pixels with intensity below `n`. */
  function Weight(h: seq<nat>, n: nat): nat
    requires n <= |h|
  {
    if n == 0 then 0 else Weight(h, n - 1) + h[n - 1]
  }

  /** Sum of the intensities below `n`. */
  function Mass(h: seq<nat>, n: nat): nat
    requires n <= |h|
  {
    if n == 0 then 0 else Mass(h, n - 1) + (n - 1) * h[n - 1]
  }

  /** Threshold `t` puts at least one pixel on each side: intensities at most
      `t` form the background class, the others the foreground class. */
  predicate Splits(h: seq<nat>, total: nat, t: int)
    requires |h| == 256
  {
    0 <= t < 256 && 0 < Weight(h, t + 1) < total
  }

  /** Between-class variance wB * wF * (mB - mF)^2 at threshold t, in exact arithmetic. */
  function Between(h: seq<nat>, total: nat, t: int): real
    requires |h| == 256 && Splits(h, total, t)
  {
    Spread(Weight(h, t + 1), total - Weight(h, t + 1), Mass(h, t + 1), Mass(h, |h|) - Mass(h, t + 1))
  }

  /** wB * wF * (mB - mF)^2 for class weights wB, wF and intensity sums sumB, sumF,
      with the means mB = sumB / wB and mF = sumF / wF. */
  function Spread(wB: int, wF: int, sumB: int, sumF: int): real
    requires wB > 0 && wF > 0
  {
    var mB := sumB as real / wB as real;
    var mF := sumF as real / wF as real;
    wB as real * wF as real * (mB - mF) * (mB - mF)
  }

  /** No threshold below `n` splits the histogram. */
  predicate NoSplitBelow(h: seq<nat>, total: nat, n: int)
    requires |h| == 256
  {
    forall t :: 0 <= t < n ==> !Splits(h, total, t)
  }

  /** `th` is the earliest threshold below `n` with the largest between-class variance. */
  predicate BestBelow(h: seq<nat>, total: nat, n: int, th: int)
    requires |h| == 256
  {
    0 <= th < n && Splits(h, total, th) &&
    (forall t :: 0 <= t < n && Splits(h, total, t) ==> Between(h, total, t) <= Between(h, total, th)) &&
    (forall t :: 0 <= t < th && Splits(h, total, t) ==> Between(h, total, t) < Between(h, total, th))
  }

  /** Otsu's threshold of a histogram: 0 when no threshold splits it (an empty
      or single-intensity image), otherwise the earliest maximiser. */
  predicate IsOtsuThreshold(h: seq<nat>, total: nat, th: int)
    requires |h| == 256
  {
    if NoSplitBelow(h, total, 256) then th == 0 else BestBelow(h, total, 256, th)
  }

  /** The state of the scan before threshold `n`: `th` and `varMax` are the
      best seen so far, or 0 and 0.0 while nothing has split. */
  predicate ScanState(h: seq<nat>, total: nat, n: int, th: int, varMax: real)
    requires |h| == 256
  {
    if NoSplitBelow(h, total, n) then th == 0 && varMax == 0.0
    else BestBelow(h, total, n, th) && varMax == Between(h, total, th)
  }

  /** The source's three loops: fill the histogram, sum the intensities, scan
      the thresholds. */
  method Otsu(gray: seq<Byte>) returns (threshold: Byte)
    ensures IsOtsuThreshold(Histogram(gray), |gray|, threshold)
  {
    var hist := FillHistogram(gray);
    HistogramTotal(gray);
    var sum: int := 0;
    for t := 0 to 256
      invariant sum == Mass(hist, t)
    {
      sum := sum + t * hist[t];
    }
    threshold := ScanThresholds(hist, |gray|, sum);
  }

  /** The scan over thresholds 0..255, skipping while the background is empty,
      stopping once the foreground is, and replacing the best only on a
      strictly larger variance. */
  method ScanThresholds(hist: seq<nat>, total: nat, sum: int) returns (threshold: Byte)
    requires |hist| == 256 && Weight(hist, 256) == total && sum == Mass(hist, 256)
    ensures IsOtsuThreshold(hist, total, threshold)
  {
    var sumB: int, wB: int, wF: int := 0, 0, 0;
    var varMax := 0.0;
    threshold := 0;
    for t := 0 to 256
      invariant wB == Weight(hist, t) && sumB == Mass(hist, t)
      invariant ScanState(hist, total, t, threshold, varMax)
    {
      wB := wB + hist[t];
      if wB == 0 {
        ScanSkip(hist, total, t, threshold, varMax);
        continue;
      }
      wF := total - wB;
      if wF == 0 {
        ScanStop(hist, total, t, threshold, varMax);
        break;
      }
      WeightMonotone(hist, t + 1, |hist|);
      sumB := sumB + t * hist[t];
      var between := ClassVariance(wB, wF, sumB, sum - sumB);
      SpreadClosedForm(wB, wF, sumB, sum - sumB);
      ScanAdvance(hist, total, t, threshold, varMax);
      if between > varMax {
        varMax, threshold := between, t;
      }
    }
  }

  /** While the background is still empty nothing has split yet, so the scan
      skips the threshold without touching its state. */
  lemma ScanSkip(h: seq<nat>, total: nat, t: int, th: int, varMax: real)
    requires |h| == 256 && 0 <= t < 256 && Weight(h, t + 1) == 0
    requires ScanState(h, total, t, th, varMax)
    ensures ScanState(h, total, t + 1, th, varMax)
  {
    forall u | 0 <= u <= t ensures !Splits(h, total, u) {
      WeightMonotone(h, u + 1, t + 1);
    }
    assert NoSplitBelow(h, total, t + 1);
  }

  /** The scan may stop at a threshold whose background already holds every
      pixel: no later threshold splits, so the best so far is Otsu's threshold. */
  lemma ScanStop(h: seq<nat>, total: nat, t: int, th: int, varMax: real)
    requires |h| == 256 && 0 <= t < 256 && Weight(h, t + 1) == total
    requires ScanState(h, total, t, th, varMax)
    ensures IsOtsuThreshold(h, total, th)
  {
    NoSplitFrom(h, total, t);
  }

  /** One step of the scan at a threshold that splits: the variance is
      positive, so it replaces the best exactly when it is strictly larger. */
  lemma ScanAdvance(h: seq<nat>, total: nat, t: int, th: int, varMax: real)
    requires |h| == 256 && 0 <= t < 256 && Weight(h, |h|) == total
    requires 0 < Weight(h, t + 1) && total - Weight(h, t + 1) != 0
    requires ScanState(h, total, t, th, varMax)
    ensures Splits(h, total, t) && Between(h, total, t) > 0.0
    ensures var b := Between(h, total, t);
      if b > varMax then ScanState(h, total, t + 1, t, b) else ScanState(h, total, t + 1, th, varMax)
  {
    WeightMonotone(h, t + 1, |h|);
    BetweenPositive(h, total, t);
    var b := Between(h, total, t);
    if NoSplitBelow(h, total, t) {
      assert b > varMax;
      assert BestBelow(h, total, t + 1, t);
    } else if b > varMax {
      assert BestBelow(h, total, t + 1, t);
    } else {
      assert BestBelow(h, total, t + 1, th);
    }
  }

  /** The first loop of the source: one increment per pixel. */
  method FillHistogram(gray: seq<Byte>) returns (hist: seq<nat>)
    ensures hist == Histogram(gray)
  {
    var bins := new nat[256];
    forall v | 0 <= v < 256 { bins[v] := 0; }
    for i := 0 to |gray|
      invariant forall v :: 0 <= v < 256 ==> bins[v] == Count(gray[..i], v)
    {
      assert gray[..i + 1][..i] == gray[..i];
      bins[gray[i]] := bins[gray[i]] + 1;
    }
    assert gray[..|gray|] == gray;
    hist := bins[..];
  }

  /** Adding `h[n]` more pixels at intensity `n` grows the weight below larger
      bounds; the weight never decreases. */
  lemma {:induction false} WeightMonotone(h: seq<nat>, m: nat, n: nat)
    requires m <= n <= |h|
    ensures Weight(h, m) <= Weight(h, n)
    decreases n
  {
    if m < n { WeightMonotone(h, m, n - 1); }
  }

  /** Once the background holds every pixel it keeps holding them: no later
      threshold splits. */
  lemma NoSplitFrom(h: seq<nat>, total: nat, t: nat)
    requires |h| == 256 && t < 256 && Weight(h, t + 1) >= total
    ensures forall u :: t <= u < 256 ==> !Splits(h, total, u)
  {
    forall u | t <= u < 256 ensures !Splits(h, total, u) {
      WeightMonotone(h, t + 1, u + 1);
    }
  }

  /** The histogram holds exactly the pixels of the image. */
  lemma {:induction false} HistogramTotal(gray: seq<Byte>)
    ensures Weight(Histogram(gray), |Histogram(gray)|) == |gray|
    decreases |gray|
  {
    if gray != [] {
      var s := gray[..|gray| - 1];
      var x := gray[|gray| - 1];
      HistogramTotal(s);
      forall v | 0 <= v < 256 ensures Count(gray, v) == Count(s, v) + (if v == x then 1 else 0) {
      }
      assert Histogram(gray) == Histogram(s)[x := Histogram(s)[x] + 1];
      WeightBump(Histogram(s), x, |Histogram(s)|);
    } else {
      WeightOfEmpty(Histogram(gray), |Histogram(gray)|);
    }
  }

  lemma {:induction false} WeightOfEmpty(h: seq<nat>, n: nat)
    requires n <= |h| && forall v :: 0 <= v < |h| ==> h[v] == 0
    ensures Weight(h, n) == 0
  {
    if n > 0 { WeightOfEmpty(h, n - 1); }
  }

  /** One more pixel of intensity x adds one to every weight bound above x. */
  lemma {:induction false} WeightBump(h: seq<nat>, x: nat, n: nat)
    requires x < |h| && n <= |h|
    ensures Weight(h[x := h[x] + 1], n) == Weight(h, n) + (if x < n then 1 else 0)
  {
    if n > 0 { WeightBump(h, x, n - 1); }
  }

  lemma WeightAtMostTotal(h: seq<nat>, n: nat)
    requires |h| == 256 && n <= 256
    ensures Weight(h, n) <= Weight(h, |h|)
  {
    WeightMonotone(h, n, |h|);
  }

  /** The background mean is at most its largest intensity: Mass(h, n) <= (n - 1) * Weight(h, n). */
  lemma {:induction false} MassBelow(h: seq<nat>, n: nat)
    requires 0 < n <= |h|
    ensures Mass(h, n) <= (n - 1) * Weight(h, n)
  {
    if n > 1 {
      MassBelow(h, n - 1);
      var w, k := Weight(h, n - 1), h[n - 1];
      MulMono(n - 2, n - 1, w);
      Distribute(n - 1, w, k);
    }
  }

  /** a <= b and c >= 0 give a * c <= b * c. */
  lemma MulMono(a: int, b: int, c: nat)
    requires a <= b
    ensures a * c <= b * c
  {
    assert b * c - a * c == (b - a) * c;
  }

  lemma Distribute(a: int, x: int, y: int)
    ensures a * (x + y) == a * x + a * y
  {
  }

  /** The foreground mean is at least its smallest intensity:
      Mass(h, n) - Mass(h, m) >= m * (Weight(h, n) - Weight(h, m)). */
  lemma {:induction false} MassAbove(h: seq<nat>, m: nat, n: nat)
    requires m <= n <= |h|
    ensures Mass(h, n) - Mass(h, m) >= m * (Weight(h, n) - Weight(h, m))
    decreases n
  {
    if m < n {
      MassAbove(h, m, n - 1);
      var k := h[n - 1];
      MulMono(m, n - 1, k);
      Distribute(m, Weight(h, n - 1) - Weight(h, m), k);
    }
  }

  /** Every splitting threshold has a strictly positive between-class variance,
      since the background mean is at most t and the foreground mean at least t + 1. */
  lemma BetweenPositive(h: seq<nat>, total: nat, t: int)
    requires |h| == 256 && Splits(h, total, t) && Weight(h, |h|) == total
    ensures Between(h, total, t) > 0.0
  {
    var wB := Weight(h, t + 1);
    var wF := total - wB;
    var sumB := Mass(h, t + 1);
    var sum := Mass(h, |h|);
    MassBelow(h, t + 1);
    MassAbove(h, t + 1, |h|);
    assert sumB <= t * wB;
    assert sum - sumB >= (t + 1) * wF;
    Separated(sumB, wB, sum - sumB, wF, t);
  }

  /** The scan's variance at one threshold, from the two class means: it is
      the square of the cross difference sumB * wF - sumF * wB over wB * wF,
      a form with a single division. */
  method ClassVariance(wB: int, wF: int, sumB: int, sumF: int) returns (between: real)
    requires wB > 0 && wF > 0
    ensures between == ((sumB * wF - sumF * wB) * (sumB * wF - sumF * wB)) as real / (wB * wF) as real
  {
    var mB := sumB as real / wB as real;
    var mF := sumF as real / wF as real;
    between := wB as real * wF as real * (mB - mF) * (mB - mF);
    SpreadClosedForm(wB, wF, sumB, sumF);
  }

  /** The between-class variance from the means equals the single-division form. */
  lemma SpreadClosedForm(wB: int, wF: int, sumB: int, sumF: int)
    requires wB > 0 && wF > 0
    ensures Spread(wB, wF, sumB, sumF) ==
      ((sumB * wF - sumF * wB) * (sumB * wF - sumF * wB)) as real / (wB * wF) as real
  {
    var b, f := wB as real, wF as real;
    var n := (sumB * wF - sumF * wB) as real;
    var d := (wB * wF) as real;
    assert d == b * f;
    assert n == sumB as real * f - sumF as real * b;
    var mB, mF := sumB as real / b, sumF as real / f;
    assert mB - mF == n / d;
    assert ((sumB * wF - sumF * wB) * (sumB * wF - sumF * wB)) as real == n * n;
    assert b * f * (n / d) * (n / d) == n * n / d;
  }

  /** Real-number core of BetweenPositive: means on either side of t + 1/2 give
      a positive spread. */
  lemma Separated(sumB: int, wB: int, sumF: int, wF: int, t: int)
    requires wB > 0 && wF > 0 && sumB <= t * wB && sumF >= (t + 1) * wF
    ensures Spread(wB, wF, sumB, sumF) > 0.0
  {
    var mB := sumB as real / wB as real;
    var mF := sumF as real / wF as real;
    QuotientAtMost(sumB as real, wB as real, t as real);
    QuotientAtLeast(sumF as real, wF as real, (t + 1) as real);
    var d := mB - mF;
    assert d < 0.0;
    PositiveProduct(wB as real * wF as real, d);
  }

  lemma QuotientAtMost(a: real, b: real, c: real)
    requires b > 0.0 && a <= c * b
    ensures a / b <= c
  {
  }

  lemma QuotientAtLeast(a: real, b: real, c: real)
    requires b > 0.0 && a >= c * b
    ensures a / b >= c
  {
  }

  lemma PositiveProduct(w: real, d: real)
    requires w > 0.0 && d != 0.0
    ensures w * d * d > 0.0
  {
    assert d * d > 0.0;
  }

  /** Every pixel of a two-level image is one of the two levels. */
  lemma {:induction false} CountTwoLevel(gray: seq<Byte>, a: int, b: int)
    requires a != b && forall i :: 0 <= i < |gray| ==> gray[i] == a || gray[i] == b
    ensures forall v :: v != a && v != b ==> Count(gray, v) == 0
    ensures Count(gray, a) + Count(gray, b) == |gray|
    decreases |gray|
  {
    if gray != [] {
      CountTwoLevel(gray[..|gray| - 1], a, b);
    }
  }

  /** A value that occurs is counted. */
  lemma {:induction false} CountPresent(s: seq<int>, v: int)
    requires v in s
    ensures Count(s, v) > 0
    decreases |s|
  {
    if s[|s| - 1] != v {
      var i :| 0 <= i < |s| && s[i] == v;
      assert s[..|s| - 1][i] == v;
      CountPresent(s[..|s| - 1], v);
    }
  }

  /** Weight and mass of a histogram that is empty outside the bins a and b. */
  lemma {:induction false} TwoBinSums(h: seq<nat>, a: int, b: int, n: nat)
    requires 0 <= a < |h| && 0 <= b < |h| && a != b && n <= |h|
    requires forall v :: 0 <= v < |h| && v != a && v != b ==> h[v] == 0
    ensures Weight(h, n) == (if a < n then h[a] else 0) + (if b < n then h[b] else 0)
    ensures Mass(h, n) == (if a < n then a * h[a] else 0) + (if b < n then b * h[b] else 0)
  {
    if n > 0 { TwoBinSums(h, a, b, n - 1); }
  }

  /** An image with a single intensity, or none, has threshold 0: no
      threshold puts pixels on both sides. */
  lemma SingleIntensityThreshold(gray: seq<Byte>, th: int)
    requires forall i, j :: 0 <= i < |gray| && 0 <= j < |gray| ==> gray[i] == gray[j]
    requires IsOtsuThreshold(Histogram(gray), |gray|, th)
    ensures th == 0
  {
    var h := Histogram(gray);
    if gray == [] {
      forall t | 0 <= t < 256 ensures !Splits(h, |gray|, t) { WeightOfEmpty(h, t + 1); }
    } else {
      var a := gray[0];
      var b := if a == 255 then 0 else a + 1;
      CountTwoLevel(gray, a, b);
      assert Count(gray, b) == 0 by {
        if Count(gray, b) > 0 { CountIsOccurrence(gray, b); }
      }
      forall t | 0 <= t < 256 ensures !Splits(h, |gray|, t) { TwoBinSums(h, a, b, t + 1); }
    }
    assert NoSplitBelow(h, |gray|, 256);
  }

  /** A counted value occurs. */
  lemma {:induction false} CountIsOccurrence(s: seq<int>, v: int)
    requires Count(s, v) > 0
    ensures v in s
    decreases |s|
  {
    if s[|s| - 1] != v {
      CountIsOccurrence(s[..|s| - 1], v);
    }
  }

  /** For an image with exactly two intensities a < b, every threshold from a
      to b - 1 makes the same split, so the earliest one, a, is chosen: the
      background is exactly the darker level. */
  lemma TwoLevelThreshold(gray: seq<Byte>, a: int, b: int, th: int)
    requires 0 <= a < b < 256
    requires forall i :: 0 <= i < |gray| ==> gray[i] == a || gray[i] == b
    requires a in gray && b in gray
    requires IsOtsuThreshold(Histogram(gray), |gray|, th)
    ensures th == a
  {
    var h := Histogram(gray);
    var total := |gray|;
    CountTwoLevel(gray, a, b);
    CountPresent(gray, a);
    CountPresent(gray, b);
    TwoBinSums(h, a, b, a + 1);
    assert Splits(h, total, a);
    assert BestBelow(h, total, 256, th);
    TwoBinSums(h, a, b, th + 1);
    assert a <= th < b;
  }
}
