/** The ON/OFF activity classifier of Scripts/on_off.py: six movement
    metrics of the tracked vertical position, five threshold scores with
    fixed weights, and the status rule. */
module OnOff {
  import opened Results
  import opened Sorting
  import opened Points

  // ---------------------------------------------------------------------
  // load_points
  // ---------------------------------------------------------------------

  /** load_points of the classifier: a missing file (`None`) reads as no
      samples at all; otherwise the lines are parsed in order, and a number
      that float() rejects still raises. */
  method LoadPoints(file: Option<seq<string>>) returns (r: Result<Samples>)
    ensures file.None? ==> r == Ok(Samples([], []))
    ensures file.Some? ==> r == Parsed(file.value)
  {
    if file.None? {
      return Ok(Samples([], []));
    }
    r := ParseLines(file.value);
  }

  // ---------------------------------------------------------------------
  // calculate_movement_metrics
  // ---------------------------------------------------------------------

  function Sum(s: seq<real>): real
  {
    if s == [] then 0.0 else Sum(s[..|s| - 1]) + s[|s| - 1]
  }

  /** The sum lies between |s| times any lower bound and |s| times any upper
      bound of the values. */
  lemma {:induction false} SumBounds(s: seq<real>, lo: real, hi: real)
    requires forall k :: 0 <= k < |s| ==> lo <= s[k] <= hi
    ensures |s| as real * lo <= Sum(s) <= |s| as real * hi
  {
    if s != [] {
      var p := s[..|s| - 1];
      assert forall k :: 0 <= k < |p| ==> p[k] == s[k];
      SumBounds(p, lo, hi);
      assert |s| as real * lo == |p| as real * lo + lo;
      assert |s| as real * hi == |p| as real * hi + hi;
    }
  }

  /** np.mean */
  function Mean(s: seq<real>): real
    requires |s| > 0
  {
    Sum(s) / |s| as real
  }

  /** The mean lies between the smallest and the largest value. */
  lemma MeanBounds(s: seq<real>)
    requires |s| > 0
    ensures MinOf(s) <= Mean(s) <= MaxOf(s)
  {
    var lo, hi := MinOf(s), MaxOf(s);
    SumBounds(s, lo, hi);
    MeanFromSum(s, lo, hi);
  }

  lemma MeanFromSum(s: seq<real>, lo: real, hi: real)
    requires |s| > 0
    requires |s| as real * lo <= Sum(s) <= |s| as real * hi
    ensures lo <= Mean(s) <= hi
  {
    DivisionBounds(Sum(s), |s| as real, lo, hi);
  }

  lemma DivisionBounds(x: real, n: real, lo: real, hi: real)
    requires n > 0.0 && n * lo <= x <= n * hi
    ensures lo <= x / n <= hi
  {
    assert x / n * n == x;
  }

  /** Sum of squared deviations from `c`. */
  function SquaredDeviations(s: seq<real>, c: real): (r: real)
    ensures r >= 0.0
  {
    if s == [] then 0.0
    else
      var d := s[|s| - 1] - c;
      SquaredDeviations(s[..|s| - 1], c) + d * d
  }

  /** np.var: the population variance. */
  function Variance(s: seq<real>): (v: real)
    requires |s| > 0
    ensures v >= 0.0
  {
    SquaredDeviations(s, Mean(s)) / |s| as real
  }

  function Abs(x: real): (r: real)
    ensures r >= 0.0 && (r == x || r == -x)
  {
    if x < 0.0 then -x else x
  }

  /** np.abs(np.diff(s)) */
  function Changes(s: seq<real>): (c: seq<real>)
    requires |s| > 0
    ensures |c| == |s| - 1
    ensures forall k :: 0 <= k < |c| ==> c[k] == Abs(s[k + 1] - s[k])
  {
    seq(|s| - 1, k requires 0 <= k < |s| - 1 => Abs(s[k + 1] - s[k]))
  }

  /** np.arange(n), as reals. */
  function Positions(n: nat): (x: seq<real>)
    ensures |x| == n
    ensures forall k :: 0 <= k < n ==> x[k] == k as real
  {
    seq(n, k requires 0 <= k < n => k as real)
  }

  /** The products (u[k] - cu) * (v[k] - cv) of paired deviations. */
  function Products(u: seq<real>, v: seq<real>, cu: real, cv: real): (p: seq<real>)
    requires |u| == |v|
    ensures |p| == |u|
    ensures forall k :: 0 <= k < |p| ==> p[k] == (u[k] - cu) * (v[k] - cv)
  {
    seq(|u|, k requires 0 <= k < |u| => (u[k] - cu) * (v[k] - cv))
  }

  /** The mean position (n - 1) / 2 of the samples 0 .. n - 1. */
  function MidPosition(n: nat): real
  {
    (n - 1) as real / 2.0
  }

  /** The positions of two or more samples are spread out: the sum of their
      squared deviations from the mean position is positive. */
  lemma PositionSpread(n: nat)
    requires n >= 2
    ensures Sum(Products(Positions(n), Positions(n), MidPosition(n), MidPosition(n))) > 0.0
  {
    var x, xm := Positions(n), MidPosition(n);
    var v := Products(x, x, xm, xm);
    forall k | 0 <= k < n ensures v[k] >= 0.0 {
      Square(x[k] - xm);
    }
    SumAtLeastFirst(v);
    assert v[0] == (0.0 - xm) * (0.0 - xm);
    assert xm >= 0.5;
  }

  lemma Square(d: real)
    ensures d * d >= 0.0
  {
  }

  /** A sum of non-negative values is at least its first value. */
  lemma {:induction false} SumAtLeastFirst(u: seq<real>)
    requires |u| > 0
    requires forall k :: 0 <= k < |u| ==> u[k] >= 0.0
    ensures Sum(u) >= u[0]
  {
    if |u| > 1 {
      var p := u[..|u| - 1];
      assert forall k :: 0 <= k < |p| ==> p[k] == u[k];
      SumAtLeastFirst(p);
    }
  }

  /** np.polyfit(arange(n), s, 1)[0]: the least-squares slope of the samples
      against their positions, the centred cross sum over the centred sum of
      squares. */
  function Slope(s: seq<real>): real
    requires |s| >= 2
  {
    var x, xm := Positions(|s|), MidPosition(|s|);
    assert Sum(Products(x, x, xm, xm)) > 0.0 by {
      PositionSpread(|s|);
    }
    Sum(Products(x, s, xm, Mean(s))) / Sum(Products(x, x, xm, xm))
  }

  /** Sum of an affine image: a term-wise a * v[k] + b sums to
      a * Sum(v) + |v| * b. */
  lemma {:induction false} SumAffine(u: seq<real>, v: seq<real>, a: real, b: real)
    requires |u| == |v|
    requires forall k :: 0 <= k < |u| ==> u[k] == a * v[k] + b
    ensures Sum(u) == a * Sum(v) + |u| as real * b
  {
    if u != [] {
      var n := |u| - 1;
      assert forall k :: 0 <= k < n ==> u[..n][k] == a * v[..n][k] + b;
      SumAffine(u[..n], v[..n], a, b);
      assert Sum(u) == Sum(u[..n]) + u[n] && Sum(v) == Sum(v[..n]) + v[n];
      calc {
        Sum(u);
        a * Sum(v[..n]) + n as real * b + (a * v[n] + b);
        a * (Sum(v[..n]) + v[n]) + (n as real + 1.0) * b;
      }
    }
  }

  /** 0 + 1 + ... + (n - 1) == n * (n - 1) / 2. */
  lemma {:induction false} SumPositions(n: nat)
    ensures Sum(Positions(n)) == n as real * MidPosition(n)
  {
    if n > 0 {
      assert Positions(n)[..n - 1] == Positions(n - 1);
      SumPositions(n - 1);
    }
  }

  /** MidPosition is the mean of the positions. */
  lemma MeanPosition(n: nat)
    requires n > 0
    ensures Mean(Positions(n)) == MidPosition(n)
  {
    SumPositions(n);
    QuotientOf(Sum(Positions(n)), n as real, MidPosition(n));
  }

  lemma QuotientOf(x: real, n: real, c: real)
    requires n > 0.0 && x == n * c
    ensures x / n == c
  {
  }

  /** Samples on the line a * k + b. */
  predicate OnLine(s: seq<real>, a: real, b: real)
  {
    forall k :: 0 <= k < |s| ==> s[k] == a * (k as real) + b
  }

  /** The mean of samples on a line is the line at the mean position. */
  lemma MeanOfLine(s: seq<real>, a: real, b: real)
    requires |s| > 0 && OnLine(s, a, b)
    ensures Mean(s) == a * MidPosition(|s|) + b
  {
    var n := |s|;
    SumAffine(s, Positions(n), a, b);
    SumPositions(n);
    assert Sum(s) == n as real * (a * MidPosition(n) + b);
    MeanFromTotal(s, a * MidPosition(n) + b);
  }

  lemma MeanFromTotal(s: seq<real>, c: real)
    requires |s| > 0 && Sum(s) == |s| as real * c
    ensures Mean(s) == c
  {
    QuotientOf(Sum(s), |s| as real, c);
  }

  /** On a line each centred cross product is the slope times the squared
      deviation of the position. */
  lemma LineProducts(s: seq<real>, a: real, b: real)
    requires |s| > 0 && OnLine(s, a, b)
    ensures var x, xm := Positions(|s|), MidPosition(|s|);
      Sum(Products(x, s, xm, Mean(s))) == a * Sum(Products(x, x, xm, xm))
  {
    MeanOfLine(s, a, b);
    CrossOfLine(s, a, b, Mean(s));
  }

  lemma CrossOfLine(s: seq<real>, a: real, b: real, c: real)
    requires |s| > 0 && OnLine(s, a, b) && c == a * MidPosition(|s|) + b
    ensures var x, xm := Positions(|s|), MidPosition(|s|);
      Sum(Products(x, s, xm, c)) == a * Sum(Products(x, x, xm, xm))
  {
    var x, xm := Positions(|s|), MidPosition(|s|);
    var u, v := Products(x, s, xm, c), Products(x, x, xm, xm);
    forall k | 0 <= k < |s| ensures u[k] == a * v[k] + 0.0 {
      LineDeviation(x[k], xm, a, b);
    }
    SumAffine(u, v, a, 0.0);
  }

  lemma LineDeviation(p: real, m: real, a: real, b: real)
    ensures (p - m) * ((a * p + b) - (a * m + b)) == a * ((p - m) * (p - m)) + 0.0
  {
  }

  /** The fit recovers an exact line: samples a * k + b have slope a. */
  lemma SlopeOfLine(s: seq<real>, a: real, b: real)
    requires |s| >= 2 && OnLine(s, a, b)
    ensures Slope(s) == a
  {
    var x, xm := Positions(|s|), MidPosition(|s|);
    LineProducts(s, a, b);
    PositionSpread(|s|);
    QuotientOf(Sum(Products(x, s, xm, Mean(s))), Sum(Products(x, x, xm, xm)), a);
  }

  /** The six metrics of calculate_movement_metrics. */
  datatype Metrics = Metrics(
    variance: real,
    stdDev: real,
    range: real,
    meanChange: real,
    maxChange: real,
    trend: real)

  /** np.max(s) - np.min(s): bounds every difference of two values. */
  function Range(s: seq<real>): (r: real)
    requires |s| > 0
    ensures r >= 0.0
    ensures forall i, j :: 0 <= i < |s| && 0 <= j < |s| ==> s[i] - s[j] <= r
  {
    MaxOf(s) - MinOf(s)
  }

  /** np.mean(np.abs(np.diff(s))): at most the largest change. */
  function MeanChange(s: seq<real>): (r: real)
    requires |s| >= 2
    ensures 0.0 <= r <= MaxOf(Changes(s))
  {
    var changes := Changes(s);
    MeanBounds(changes);
    assert changes[0] >= 0.0;
    Mean(changes)
  }

  /** calculate_movement_metrics.  `sqrt` is the square root np.std applies
      to the variance.  Fewer than two values give all-zero metrics; the
      range bounds every difference of two values, the largest change
      bounds every step and the mean change, and the trend is a magnitude. */
  function MovementMetrics(ys: seq<real>, sqrt: real -> real): (m: Metrics)
    ensures |ys| < 2 ==> m == Metrics(0.0, 0.0, 0.0, 0.0, 0.0, 0.0)
    ensures m.variance >= 0.0 && m.range >= 0.0 && m.trend >= 0.0
    ensures 0.0 <= m.meanChange <= m.maxChange
    ensures |ys| >= 2 ==> m.stdDev == sqrt(m.variance)
    ensures forall i, j :: 0 <= i < |ys| && 0 <= j < |ys| ==> ys[i] - ys[j] <= m.range
    ensures forall k :: 0 <= k < |ys| - 1 ==> Abs(ys[k + 1] - ys[k]) <= m.maxChange
  {
    if |ys| < 2 then Metrics(0.0, 0.0, 0.0, 0.0, 0.0, 0.0)
    else
      var variance := Variance(ys);
      Metrics(variance, sqrt(variance), Range(ys), MeanChange(ys), MaxOf(Changes(ys)), Abs(Slope(ys)))
  }

  // ---------------------------------------------------------------------
  // detect_on_off
  // ---------------------------------------------------------------------

  /** The four adjustable thresholds of detect_on_off. */
  datatype Thresholds = Thresholds(minRange: real, minStd: real, minMeanChange: real, minVariance: real)

  /** The defaults: 10 pixels of range, 5 of standard deviation, 1 pixel per
      frame of mean change, and a variance of 25. */
  const Defaults := Thresholds(10.0, 5.0, 1.0, 25.0)

  /** The trend counts only above this magnitude (strictly). */
  const TrendLimit := 0.1

  /** The five scores, in the order the weighted sum visits them. */
  datatype Scores = Scores(range: real, std: real, meanChange: real, variance: real, trend: real)

  const RangeWeight := 0.3
  const StdWeight := 0.25
  const MeanChangeWeight := 0.25
  const VarianceWeight := 0.1
  const TrendWeight := 0.1

  /** A score is exactly 0 or 1. */
  predicate Binary(x: real)
  {
    x == 0.0 || x == 1.0
  }

  predicate ValidScores(s: Scores)
  {
    Binary(s.range) && Binary(s.std) && Binary(s.meanChange) && Binary(s.variance) && Binary(s.trend)
  }

  function Indicator(b: bool): (x: real)
    ensures Binary(x) && (x > 0.0 <==> b)
  {
    if b then 1.0 else 0.0
  }

  /** The scores: inclusive thresholds for range, std, mean change and
      variance, a strict one for the trend. */
  function ScoresOf(m: Metrics, t: Thresholds): (s: Scores)
    ensures ValidScores(s)
    ensures s.range == 1.0 <==> m.range >= t.minRange
    ensures s.std == 1.0 <==> m.stdDev >= t.minStd
    ensures s.meanChange == 1.0 <==> m.meanChange >= t.minMeanChange
    ensures s.variance == 1.0 <==> m.variance >= t.minVariance
    ensures s.trend == 1.0 <==> Abs(m.trend) > TrendLimit
  {
    Scores(
      Indicator(m.range >= t.minRange),
      Indicator(m.stdDev >= t.minStd),
      Indicator(m.meanChange >= t.minMeanChange),
      Indicator(m.variance >= t.minVariance),
      Indicator(Abs(m.trend) > TrendLimit))
  }

  /** total_score: the weighted sum of the scores.  The weights add up to
      one, so the total lies in [0, 1] and is 1 exactly when every score
      is. */
  function TotalScore(s: Scores): (total: real)
    ensures ValidScores(s) ==> 0.0 <= total <= 1.0
    ensures ValidScores(s) ==> (total == 1.0 <==> s == Scores(1.0, 1.0, 1.0, 1.0, 1.0))
  {
    s.range * RangeWeight + s.std * StdWeight + s.meanChange * MeanChangeWeight
      + s.variance * VarianceWeight + s.trend * TrendWeight
  }

  /** active_metrics: how many scores are positive. */
  function ActiveCount(s: Scores): (n: nat)
    ensures n <= 5
  {
    (if s.range > 0.0 then 1 else 0) + (if s.std > 0.0 then 1 else 0)
      + (if s.meanChange > 0.0 then 1 else 0) + (if s.variance > 0.0 then 1 else 0)
      + (if s.trend > 0.0 then 1 else 0)
  }

  /** No two weights reach 0.6 together (the largest pair gives 0.55), and
      any three reach at least 0.45: the score clause of the status rule
      adds nothing, so ON means exactly that three or more metrics are
      active, as the header of on_off.py states. */
  lemma OnIffThreeActive(s: Scores)
    requires ValidScores(s)
    ensures ActiveCount(s) <= 2 ==> TotalScore(s) <= 0.55
    ensures (ActiveCount(s) >= 3 || TotalScore(s) >= 0.6) <==> ActiveCount(s) >= 3
  {
    if s.range == 0.0 {
      assert ActiveCount(s) <= 2 ==> TotalScore(s) <= 0.5;
    } else {
      assert ActiveCount(s) <= 2 ==> TotalScore(s) <= 0.55;
    }
  }

  datatype Status = On | Off | Unknown

  /** The reason texts, with what they report. */
  datatype Reason =
    | NoData
    | InsufficientData(points: nat)
    | Movement(active: nat, score: real)
    | NoMovement(active: nat, score: real)

  /** The result dictionary; `metrics` is `None` for the empty dictionary of
      the early exits, and `nPoints` is present only on a decision. */
  datatype Classification = Classification(
    status: Status,
    confidence: real,
    metrics: Option<Metrics>,
    reason: Reason,
    nPoints: Option<nat>)

  /** detect_on_off after loading: two UNKNOWN early exits, then the
      weighted decision. */
  function Classify(ys: seq<real>, t: Thresholds, sqrt: real -> real): (c: Classification)
    ensures |ys| == 0 ==> c == Classification(Unknown, 0.0, None, NoData, None)
    ensures 0 < |ys| < 5 ==> c == Classification(Unknown, 0.0, None, InsufficientData(|ys|), None)
    ensures |ys| >= 5 ==>
      var s := ScoresOf(MovementMetrics(ys, sqrt), t);
      c.status != Unknown && c.nPoints == Some(|ys|) &&
      c.metrics == Some(MovementMetrics(ys, sqrt)) &&
      c.confidence == TotalScore(s) && 0.0 <= c.confidence <= 1.0 &&
      (c.status == On <==> ActiveCount(s) >= 3) &&
      c.reason == (if c.status == On then Movement(ActiveCount(s), TotalScore(s))
                   else NoMovement(ActiveCount(s), TotalScore(s)))
  {
    if |ys| == 0 then Classification(Unknown, 0.0, None, NoData, None)
    else if |ys| < 5 then Classification(Unknown, 0.0, None, InsufficientData(|ys|), None)
    else
      var metrics := MovementMetrics(ys, sqrt);
      var scores := ScoresOf(metrics, t);
      var total := TotalScore(scores);
      var active := ActiveCount(scores);
      OnIffThreeActive(scores);
      if active >= 3 || total >= 0.6 then
        Classification(On, total, Some(metrics), Movement(active, total), Some(|ys|))
      else
        Classification(Off, total, Some(metrics), NoMovement(active, total), Some(|ys|))
  }

  /** detect_on_off: load the file and classify its vertical positions. */
  method DetectOnOff(file: Option<seq<string>>, t: Thresholds, sqrt: real -> real) returns (r: Result<Classification>)
    ensures file.None? ==> r == Ok(Classification(Unknown, 0.0, None, NoData, None))
    ensures file.Some? ==>
      match Parsed(file.value)
      case Err(e) => r == Err(e)
      case Ok(samples) => r == Ok(Classify(samples.ys, t, sqrt))
  {
    var points := LoadPoints(file);
    if points.Err? {
      return Err(points.error);
    }
    return Ok(Classify(points.value.ys, t, sqrt));
  }

  // ---------------------------------------------------------------------
  // Properties of the metrics
  // ---------------------------------------------------------------------

  /** A motionless signal: every sample equal. */
  predicate Flat(ys: seq<real>)
  {
    forall k :: 0 <= k < |ys| ==> ys[k] == ys[0]
  }

  /** A motionless signal has no variance, no range, no change and no
      trend. */
  lemma FlatMetrics(ys: seq<real>, sqrt: real -> real)
    requires |ys| >= 2 && Flat(ys)
    ensures var m := MovementMetrics(ys, sqrt);
      m.variance == 0.0 && m.range == 0.0 && m.meanChange == 0.0 &&
      m.maxChange == 0.0 && m.trend == 0.0 && m.stdDev == sqrt(0.0)
  {
    MetricsFields(ys, sqrt);
    FlatVariance(ys);
    FlatRange(ys);
    FlatChanges(ys);
    FlatSlope(ys);
  }

  lemma MetricsFields(ys: seq<real>, sqrt: real -> real)
    requires |ys| >= 2
    ensures var m := MovementMetrics(ys, sqrt);
      m.variance == Variance(ys) && m.stdDev == sqrt(Variance(ys)) &&
      m.range == Range(ys) && m.meanChange == MeanChange(ys) &&
      m.maxChange == MaxOf(Changes(ys)) && m.trend == Abs(Slope(ys))
  {
  }

  lemma FlatMean(ys: seq<real>)
    requires |ys| > 0 && Flat(ys)
    ensures MinOf(ys) == MaxOf(ys) == Mean(ys) == ys[0]
  {
    MeanBounds(ys);
  }

  lemma FlatVariance(ys: seq<real>)
    requires |ys| > 0 && Flat(ys)
    ensures Variance(ys) == 0.0
  {
    FlatMean(ys);
    FlatDeviations(ys, ys[0]);
  }

  lemma FlatRange(ys: seq<real>)
    requires |ys| > 0 && Flat(ys)
    ensures Range(ys) == 0.0
  {
    FlatMean(ys);
  }

  lemma FlatChanges(ys: seq<real>)
    requires |ys| >= 2 && Flat(ys)
    ensures MaxOf(Changes(ys)) == MeanChange(ys) == 0.0
  {
    var changes := Changes(ys);
    assert forall k :: 0 <= k < |changes| ==> changes[k] == 0.0;
    FlatMean(changes);
  }

  lemma FlatSlope(ys: seq<real>)
    requires |ys| >= 2 && Flat(ys)
    ensures Slope(ys) == 0.0
  {
    FlatMean(ys);
    FlatCross(ys);
    PositionSpread(|ys|);
  }

  lemma FlatCross(ys: seq<real>)
    requires |ys| > 0 && Flat(ys)
    ensures Sum(Products(Positions(|ys|), ys, MidPosition(|ys|), ys[0])) == 0.0
  {
    var u := Products(Positions(|ys|), ys, MidPosition(|ys|), ys[0]);
    forall k | 0 <= k < |u| ensures u[k] == 0.0 {
      ZeroFactor(k as real - MidPosition(|ys|), ys[k] - ys[0]);
    }
    SumBounds(u, 0.0, 0.0);
  }

  lemma ZeroFactor(p: real, q: real)
    requires q == 0.0
    ensures p * q == 0.0
  {
  }

  lemma {:induction false} FlatDeviations(s: seq<real>, c: real)
    requires forall k :: 0 <= k < |s| ==> s[k] == c
    ensures SquaredDeviations(s, c) == 0.0
  {
    if s != [] {
      FlatDeviations(s[..|s| - 1], c);
    }
  }

  /** With the default thresholds a motionless pump jack seen in five or
      more frames is OFF with confidence 0, whatever square root is used
      as long as it maps 0 to 0. */
  lemma FlatSignalOff(ys: seq<real>, sqrt: real -> real)
    requires |ys| >= 5 && Flat(ys) && sqrt(0.0) == 0.0
    ensures var c := Classify(ys, Defaults, sqrt);
      c.status == Off && c.confidence == 0.0 && c.reason == NoMovement(0, 0.0)
  {
    FlatMetrics(ys, sqrt);
  }

  /** Raising a threshold never turns an OFF decision into ON. */
  lemma StricterThresholdsStayOff(ys: seq<real>, t1: Thresholds, t2: Thresholds, sqrt: real -> real)
    requires t1.minRange <= t2.minRange && t1.minStd <= t2.minStd
    requires t1.minMeanChange <= t2.minMeanChange && t1.minVariance <= t2.minVariance
    requires Classify(ys, t1, sqrt).status == Off
    ensures Classify(ys, t2, sqrt).status == Off
  {
    var m := MovementMetrics(ys, sqrt);
    var s1 := ScoresOf(m, t1);
    var s2 := ScoresOf(m, t2);
    assert ActiveCount(s2) <= ActiveCount(s1);
  }
}
