/** Signal reconstruction, smoothing and turning-point detection of the
    stroke-rate estimator: interpolate_signal, smooth_ma and find_extrema.
    Samples are real numbers; floating-point rounding is not modelled. */
module Signal {
  import opened Results

  predicate Increasing(s: seq<nat>)
  {
    forall i, j :: 0 <= i < j < |s| ==> s[i] < s[j]
  }

  // ---------------------------------------------------------------------
  // interpolate_signal
  // ---------------------------------------------------------------------

  /** frames.max() */
  function MaxFrame(frames: seq<nat>): (m: nat)
    requires |frames| > 0
    ensures m in frames
    ensures forall k :: 0 <= k < |frames| ==> frames[k] <= m
  {
    if |frames| == 1 then frames[0]
    else
      var m := MaxFrame(frames[..|frames| - 1]);
      assert m in frames[..|frames| - 1];
      if frames[|frames| - 1] > m then frames[|frames| - 1] else m
  }

  /** What `y[frames] = ys` leaves at index `i`: the value of the last sample
      with that frame, or nothing (NaN) when no sample has it. */
  function StoredAt(frames: seq<nat>, ys: seq<real>, i: nat): (v: Option<real>)
    requires |frames| == |ys|
    ensures v.Some? <==> i in frames
    ensures v.Some? ==> v.value in ys
    ensures forall k :: (0 <= k < |frames| && frames[k] == i &&
                         forall j :: k < j < |frames| ==> frames[j] != i) ==> v == Some(ys[k])
  {
    if frames == [] then None
    else
      var n := |frames| - 1;
      if frames[n] == i then Some(ys[n])
      else
        var v := StoredAt(frames[..n], ys[..n], i);
        assert forall k :: 0 <= k < n ==> frames[..n][k] == frames[k];
        assert i in frames[..n] <==> i in frames;
        v
  }

  /** The value stored at an observed frame. */
  function ValueAt(frames: seq<nat>, ys: seq<real>, i: nat): real
    requires |frames| == |ys| && i in frames
  {
    StoredAt(frames, ys, i).value
  }

  /** The nearest observed frame strictly below `i`, if any. */
  function PrevObserved(frames: seq<nat>, i: nat): (p: Option<nat>)
    ensures p.Some? ==> p.value < i && p.value in frames
    ensures p.Some? ==> forall j :: p.value < j < i ==> j !in frames
    ensures p.None? ==> forall j :: 0 <= j < i ==> j !in frames
  {
    if i == 0 then None
    else if i - 1 in frames then Some(i - 1)
    else PrevObserved(frames, i - 1)
  }

  /** The nearest observed frame strictly above `i`; below the largest frame
      there always is one. */
  function NextObserved(frames: seq<nat>, i: nat): (q: nat)
    requires |frames| > 0 && i < MaxFrame(frames)
    ensures i < q <= MaxFrame(frames) && q in frames
    ensures forall j :: i < j < q ==> j !in frames
    decreases MaxFrame(frames) - i
  {
    if i + 1 in frames then i + 1 else NextObserved(frames, i + 1)
  }

  /** The straight line through (x0, v0) and (x1, v1), at x: what np.interp
      computes between two neighbouring observed points. */
  function Lerp(x0: nat, v0: real, x1: nat, v1: real, x: nat): real
    requires x0 < x1
  {
    v0 + (x - x0) as real * (v1 - v0) / (x1 - x0) as real
  }

  /** The dense value at index `i`: the stored value when `i` was observed;
      otherwise np.interp over the observed indices, which holds the first
      observed value flat to its left and joins neighbours by a line. */
  function FillAt(frames: seq<nat>, ys: seq<real>, i: nat): (v: real)
    requires |frames| == |ys| && |frames| > 0 && i <= MaxFrame(frames)
    ensures i in frames ==> v == ValueAt(frames, ys, i)
    ensures exists lo, hi :: lo in ys && hi in ys && lo <= v <= hi
  {
    match StoredAt(frames, ys, i)
    case Some(v) => v
    case None =>
      var q := NextObserved(frames, i);
      match PrevObserved(frames, i)
      case None => ValueAt(frames, ys, q)
      case Some(p) =>
        var v0, v1 := ValueAt(frames, ys, p), ValueAt(frames, ys, q);
        LerpBetween(p, v0, q, v1, i);
        Lerp(p, v0, q, v1, i)
  }

  /** Between its two ends the line stays between their values. */
  lemma LerpBetween(x0: nat, v0: real, x1: nat, v1: real, x: nat)
    requires x0 <= x <= x1 && x0 < x1
    ensures v0 <= v1 ==> v0 <= Lerp(x0, v0, x1, v1, x) <= v1
    ensures v1 <= v0 ==> v1 <= Lerp(x0, v0, x1, v1, x) <= v0
  {
    var a, b, d := (x - x0) as real, (x1 - x0) as real, v1 - v0;
    assert Lerp(x0, v0, x1, v1, x) == v0 + a * d / b;
    PartOf(a, b, d);
  }

  /** a / b of d, for 0 <= a <= b, lies between 0 and d. */
  lemma PartOf(a: real, b: real, d: real)
    requires 0.0 <= a <= b && b > 0.0
    ensures d >= 0.0 ==> 0.0 <= a * d / b <= d
    ensures d <= 0.0 ==> d <= a * d / b <= 0.0
  {
    var m := a * d / b;
    assert m * b == a * d;
    if d >= 0.0 {
      MulNonNeg(a, d);
      MulNonNeg(b - a, d);
      assert m * b <= b * d;
    } else {
      MulNonNeg(a, -d);
      MulNonNeg(b - a, -d);
      assert m * b >= b * d;
    }
  }

  lemma MulNonNeg(p: real, q: real)
    requires p >= 0.0 && q >= 0.0
    ensures p * q >= 0.0
  {
  }

  /** interpolate_signal: one value per frame index 0 .. max(frames); the
      frames.max() of an empty sample set raises. */
  function Interpolate(frames: seq<nat>, ys: seq<real>): (r: Result<seq<real>>)
    requires |frames| == |ys|
    ensures r.Err? <==> |frames| == 0
    ensures r.Err? ==> r.error == EmptyFrames
    ensures r.Ok? ==> |r.value| == MaxFrame(frames) + 1
    ensures r.Ok? ==> forall k :: 0 <= k < |frames| ==> r.value[frames[k]] == ValueAt(frames, ys, frames[k])
  {
    if |frames| == 0 then Err(EmptyFrames)
    else
      var n := MaxFrame(frames) + 1;
      Ok(seq(n, i requires 0 <= i < n => FillAt(frames, ys, i)))
  }

  /** With distinct frames every observed sample keeps its own value. */
  lemma InterpolateKeepsSamples(frames: seq<nat>, ys: seq<real>, k: nat)
    requires |frames| == |ys| && k < |frames|
    requires forall a, b :: 0 <= a < b < |frames| ==> frames[a] != frames[b]
    ensures Interpolate(frames, ys).value[frames[k]] == ys[k]
  {
    assert StoredAt(frames, ys, frames[k]) == Some(ys[k]);
  }

  /** An index strictly between two neighbouring observed frames p and q gets
      the point of the line through them. */
  lemma InterpolateBetween(frames: seq<nat>, ys: seq<real>, p: nat, i: nat, q: nat)
    requires |frames| == |ys| && p < i < q
    requires p in frames && q in frames
    requires forall j :: p < j < q ==> j !in frames
    ensures Interpolate(frames, ys).Ok?
    ensures Interpolate(frames, ys).value[i]
         == Lerp(p, ValueAt(frames, ys, p), q, ValueAt(frames, ys, q), i)
  {
    assert q <= MaxFrame(frames);
    FillBetween(frames, ys, p, i, q);
  }

  lemma FillBetween(frames: seq<nat>, ys: seq<real>, p: nat, i: nat, q: nat)
    requires |frames| == |ys| && p < i < q
    requires p in frames && q in frames && q <= MaxFrame(frames)
    requires forall j :: p < j < q ==> j !in frames
    ensures FillAt(frames, ys, i) == Lerp(p, ValueAt(frames, ys, p), q, ValueAt(frames, ys, q), i)
  {
    assert i !in frames;
    NextIs(frames, i, q);
    PrevIs(frames, p, i);
  }

  lemma PrevIs(frames: seq<nat>, p: nat, i: nat)
    requires p < i && p in frames
    requires forall j :: p < j < i ==> j !in frames
    ensures PrevObserved(frames, i) == Some(p)
  {
  }

  lemma NextIs(frames: seq<nat>, i: nat, q: nat)
    requires |frames| > 0 && i < q <= MaxFrame(frames) && q in frames
    requires forall j :: i < j < q ==> j !in frames
    ensures NextObserved(frames, i) == q
  {
  }

  /** An index to the left of every observed frame gets the value of the
      first observed frame (flat extrapolation). */
  lemma InterpolateBeforeFirst(frames: seq<nat>, ys: seq<real>, i: nat, q: nat)
    requires |frames| == |ys| && i < q && q in frames
    requires forall j :: 0 <= j < q ==> j !in frames
    ensures Interpolate(frames, ys).Ok?
    ensures Interpolate(frames, ys).value[i] == ValueAt(frames, ys, q)
  {
    var m := MaxFrame(frames);
    assert q <= m;
    assert i !in frames;
    var q' := NextObserved(frames, i);
    assert q' == q;
    assert PrevObserved(frames, i) == None;
  }

  /** When every sample has the same frame, the whole dense signal is that
      frame's value. */
  lemma InterpolateSingleFrame(frames: seq<nat>, ys: seq<real>, f: nat)
    requires |frames| == |ys| > 0
    requires forall k :: 0 <= k < |frames| ==> frames[k] == f
    ensures Interpolate(frames, ys).Ok?
    ensures forall i :: 0 <= i < |Interpolate(frames, ys).value| ==>
              Interpolate(frames, ys).value[i] == ValueAt(frames, ys, f)
  {
    assert frames[0] == f;
    forall i | 0 <= i < |Interpolate(frames, ys).value|
      ensures Interpolate(frames, ys).value[i] == ValueAt(frames, ys, f)
    {
      if i < f {
        InterpolateBeforeFirst(frames, ys, i, f);
      }
    }
  }

  // ---------------------------------------------------------------------
  // smooth_ma
  // ---------------------------------------------------------------------

  /** One product of the correlation sum, zero outside `a`. */
  function Tap(a: seq<real>, v: seq<real>, off: int, j: nat): real
    requires j < |v|
  {
    if 0 <= off + j < |a| then a[off + j] * v[j] else 0.0
  }

  /** Sum of the first `m` taps of `v` laid over `a` from offset `off`. */
  function Dot(a: seq<real>, v: seq<real>, off: int, m: nat): real
    requires m <= |v|
  {
    if m == 0 then 0.0 else Dot(a, v, off, m - 1) + Tap(a, v, off, m - 1)
  }

  /** numpy's correlate in "same" mode when `a` is at least as long as `v`:
      one output per element of `a`, the kernel starting |v|/2 places to the
      left, zeros outside `a`. */
  function CorrelateSame(a: seq<real>, v: seq<real>): (r: seq<real>)
    requires |a| >= |v| >= 1
    ensures |r| == |a|
  {
    seq(|a|, i requires 0 <= i < |a| => Dot(a, v, i - |v| / 2, |v|))
  }

  function Reverse(s: seq<real>): (r: seq<real>)
    ensures |r| == |s|
    ensures forall k :: 0 <= k < |s| ==> r[k] == s[|s| - 1 - k]
  {
    seq(|s|, k requires 0 <= k < |s| => s[|s| - 1 - k])
  }

  /** np.convolve(a, v, mode="same"): the longer argument is correlated with
      the reversed shorter one, so the output has the longer length; an empty
      argument raises. */
  function ConvolveSame(a: seq<real>, v: seq<real>): (r: Result<seq<real>>)
    ensures r.Err? <==> |a| == 0 || |v| == 0
    ensures r.Err? ==> r.error == EmptySignal
    ensures r.Ok? ==> |r.value| == if |a| >= |v| then |a| else |v|
  {
    var (long, short) := if |v| > |a| then (v, a) else (a, v);
    if |long| == 0 || |short| == 0 then Err(EmptySignal)
    else Ok(CorrelateSame(long, Reverse(short)))
  }

  /** max(1, int(win)) */
  function Window(win: int): (w: nat)
    ensures w >= 1 && (win >= 1 ==> w == win)
  {
    if win < 1 then 1 else win
  }

  /** The kernel np.ones(w) / w. */
  function BoxKernel(w: nat): (k: seq<real>)
    requires w >= 1
  {
    seq(w, _ => 1.0 / w as real)
  }

  /** smooth_ma: convolution with a box kernel of the coerced window.  It
      fails exactly on an empty signal; otherwise the output is as long as
      the longer of the signal and the window. */
  function SmoothMA(y: seq<real>, win: int): (r: Result<seq<real>>)
    ensures r.Err? <==> |y| == 0
    ensures r.Err? ==> r.error == EmptySignal
    ensures r.Ok? ==> |r.value| == if |y| >= Window(win) then |y| else Window(win)
  {
    ConvolveSame(y, BoxKernel(Window(win)))
  }

  /** Sum of `a` over the `m` positions from `off`, counting positions
      outside `a` as zero (the zero padding of the convolution). */
  function WindowSum(a: seq<real>, off: int, m: nat): real
  {
    if m == 0 then 0.0
    else WindowSum(a, off, m - 1) + (if 0 <= off + m - 1 < |a| then a[off + m - 1] else 0.0)
  }

  /** With a constant kernel the correlation sum is a scaled window sum. */
  lemma {:induction false} DotConstant(a: seq<real>, v: seq<real>, c: real, off: int, m: nat)
    requires m <= |v| && forall j :: 0 <= j < |v| ==> v[j] == c
    ensures Dot(a, v, off, m) == c * WindowSum(a, off, m)
  {
    if m > 0 {
      DotConstant(a, v, c, off, m - 1);
      assert Tap(a, v, off, m - 1)
          == c * (if 0 <= off + m - 1 < |a| then a[off + m - 1] else 0.0);
    }
  }

  /** With a window of (at most) 1 the smoother returns its input. */
  lemma SmoothIdentity(y: seq<real>, win: int)
    requires |y| > 0 && win <= 1
    ensures SmoothMA(y, win) == Ok(y)
  {
    var k := BoxKernel(Window(win));
    assert k == [1.0];
    assert Reverse(k) == [1.0];
    var r := CorrelateSame(y, [1.0]);
    forall i | 0 <= i < |y| ensures r[i] == y[i] {
      assert Dot(y, [1.0], i, 1) == Dot(y, [1.0], i, 0) + Tap(y, [1.0], i, 0);
    }
    assert r == y;
  }

  /** When the signal is at least as long as the window, each output is the
      sum of the window centred on it, with zeros past either end, divided by
      the full window length. */
  lemma SmoothWindowMean(y: seq<real>, win: int, i: nat)
    requires |y| >= Window(win) && i < |y|
    ensures SmoothMA(y, win).Ok? && |SmoothMA(y, win).value| == |y|
    ensures SmoothMA(y, win).value[i]
         == WindowSum(y, i - Window(win) / 2, Window(win)) / Window(win) as real
  {
    var w := Window(win);
    assert SmoothMA(y, win) == Ok(CorrelateSame(y, Reverse(BoxKernel(w))));
    BoxCorrelation(y, w, i);
  }

  /** Correlating with the reversed box kernel of width w averages the
      zero-padded window centred on each sample. */
  lemma BoxCorrelation(y: seq<real>, w: nat, i: nat)
    requires 1 <= w <= |y| && i < |y|
    ensures CorrelateSame(y, Reverse(BoxKernel(w)))[i] == WindowSum(y, i - w / 2, w) / w as real
  {
    var rk := Reverse(BoxKernel(w));
    var c := 1.0 / w as real;
    ReversedBox(w, c);
    ConstantDot(y, rk, c, i - w / 2);
    CorrelateAt(y, rk, i);
  }

  /** One output of the "same" correlation. */
  lemma CorrelateAt(a: seq<real>, v: seq<real>, i: nat)
    requires |a| >= |v| >= 1 && i < |a|
    ensures CorrelateSame(a, v)[i] == Dot(a, v, i - |v| / 2, |v|)
  {
  }

  /** A kernel of n taps that are all 1 / n averages the window. */
  lemma ConstantDot(a: seq<real>, v: seq<real>, c: real, off: int)
    requires |v| >= 1 && c == 1.0 / |v| as real
    requires forall j :: 0 <= j < |v| ==> v[j] == c
    ensures Dot(a, v, off, |v|) == WindowSum(a, off, |v|) / |v| as real
  {
    DotConstant(a, v, c, off, |v|);
    OneOver(Dot(a, v, off, |v|), WindowSum(a, off, |v|), |v| as real, c);
  }

  /** The box kernel is symmetric: reversed, every tap is still 1 / w. */
  lemma ReversedBox(w: nat, c: real)
    requires w >= 1 && c == 1.0 / w as real
    ensures |Reverse(BoxKernel(w))| == w
    ensures forall j :: 0 <= j < w ==> Reverse(BoxKernel(w))[j] == c
  {
  }

  lemma OneOver(d: real, x: real, n: real, c: real)
    requires n > 0.0 && c == 1.0 / n && d == c * x
    ensures d == x / n
  {
  }

  // ---------------------------------------------------------------------
  // find_extrema
  // ---------------------------------------------------------------------

  /** The two kinds of turning point. */
  datatype Kind = Max | Min

  /** np.sign(np.diff(y))[k], with an exact zero replaced by 1e-6. */
  function Step(y: seq<real>, k: nat): real
    requires k + 1 < |y|
  {
    var d := y[k + 1] - y[k];
    if d > 0.0 then 1.0 else if d < 0.0 then -1.0 else 0.000001
  }

  /** The sign change that find_extrema looks for at index `i`. */
  predicate SignChange(y: seq<real>, i: nat, kind: Kind)
    requires 1 <= i && i + 1 < |y|
  {
    match kind
    case Max => Step(y, i - 1) > 0.0 && Step(y, i) < 0.0
    case Min => Step(y, i - 1) < 0.0 && Step(y, i) > 0.0
  }

  /** A turning point in plain terms: a maximum is reached from below or from
      a plateau and left downwards; a minimum is reached from above and left
      upwards or onto a plateau. */
  predicate Turn(y: seq<real>, i: nat, kind: Kind)
  {
    1 <= i && i + 1 < |y| &&
    match kind
    case Max => y[i - 1] <= y[i] && y[i + 1] < y[i]
    case Min => y[i] < y[i - 1] && y[i] <= y[i + 1]
  }

  /** The indices below `hi` where the sign changes, in increasing order. */
  function TurnsBelow(y: seq<real>, hi: nat, kind: Kind): (r: seq<nat>)
    ensures Increasing(r)
    ensures forall k :: 0 <= k < |r| ==> r[k] < hi && Turn(y, r[k], kind)
    ensures forall i: nat :: i < hi && Turn(y, i, kind) ==> i in r
  {
    if hi == 0 then []
    else
      var r := TurnsBelow(y, hi - 1, kind);
      var i := hi - 1;
      if 1 <= i && i + 1 < |y| && SignChange(y, i, kind) then r + [i] else r
  }

  /** find_extrema: the maxima and the minima, each in increasing order. */
  function FindExtrema(y: seq<real>): (r: (seq<nat>, seq<nat>))
    ensures Increasing(r.0) && Increasing(r.1)
    ensures forall i: nat :: i in r.0 <==> Turn(y, i, Max)
    ensures forall i: nat :: i in r.1 <==> Turn(y, i, Min)
    ensures forall i: nat :: !(i in r.0 && i in r.1)
  {
    (TurnsBelow(y, |y|, Max), TurnsBelow(y, |y|, Min))
  }
}
