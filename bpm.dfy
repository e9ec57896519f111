/** The stroke-rate estimator of Scripts/bpm.py: loading the detections,
    consolidating the turning points of the smoothed signal into alternating
    events, and turning the spacing of same-kind events into strokes per
    minute. */
module Bpm {
  import opened Results
  import opened Sorting
  import opened Points
  import opened Signal
  import opened Events

  // ---------------------------------------------------------------------
  // load_points
  // ---------------------------------------------------------------------

  /** load_points of the estimator: a missing file raises (here `None`
      stands for a path that does not open); otherwise the lines are parsed
      in order. */
  method LoadPoints(file: Option<seq<string>>) returns (r: Result<Samples>)
    ensures file.None? ==> r == Err(FileNotFound)
    ensures file.Some? ==> r == Parsed(file.value)
  {
    if file.None? {
      return Err(FileNotFound);
    }
    r := ParseLines(file.value);
  }

  // ---------------------------------------------------------------------
  // alternating_extrema
  // ---------------------------------------------------------------------

  /** Python's int() of a float: truncation toward zero. */
  function Trunc(x: real): (n: int)
    ensures 0.0 <= x ==> 0 <= n && n as real <= x < n as real + 1.0
    ensures x < 0.0 ==> n <= 0 && n as real - 1.0 < x <= n as real
  {
    if x >= 0.0 then x.Floor else -((-x).Floor)
  }

  /** merge_dist: 15% of the shortest period bpm_max allows, in whole
      frames, and never less than one frame. */
  function MergeDistance(fps: real, bpmMax: real): (d: int)
    requires bpmMax != 0.0
    ensures d >= 1
    ensures d == 1 || d as real <= 0.15 * (fps * 60.0 / bpmMax)
  {
    var minPeriod := Trunc(fps * 60.0 / bpmMax);
    var d := Trunc(minPeriod as real * 0.15);
    if d < 1 then 1 else d
  }

  /** At 30 frames per second and at most 20 strokes per minute the shortest
      period is 90 frames, and turning points up to 13 frames apart merge. */
  lemma MergeDistanceAtDefaults()
    ensures MergeDistance(30.0, 20.0) == 13
  {
    assert Trunc(30.0 * 60.0 / 20.0) == 90;
    assert Trunc(90.0 * 0.15) == 13;
  }

  /** Every index find_extrema reports lies inside the signal. */
  lemma ExtremaInRange(ys: seq<real>)
    ensures ValidIndices(FindExtrema(ys).0, ys) && ValidIndices(FindExtrema(ys).1, ys)
  {
    var x := FindExtrema(ys);
    forall t | 0 <= t < |x.0| ensures x.0[t] < |ys| {
      assert x.0[t] in x.0;
    }
    forall t | 0 <= t < |x.1| ensures x.1[t] < |ys| {
      assert x.1[t] in x.1;
    }
  }

  /** The maxima and the minima after group_close, tagged and sorted by
      index: the events list before alternation is forced. */
  function MergedEvents(ys: seq<real>, d: int): (es: seq<Event>)
    ensures ValidEvents(es, ys)
    ensures forall e :: e in es ==> Turn(ys, e.index, e.kind)
  {
    var x := FindExtrema(ys);
    ExtremaInRange(ys);
    var maxs := Grouped(x.0, ys, d, Max);
    var mins := Grouped(x.1, ys, d, Min);
    GroupedFromInput(x.0, ys, d, Max);
    GroupedFromInput(x.1, ys, d, Min);
    var es := MergeByIndex(maxs, mins);
    forall k | 0 <= k < |es| ensures es[k].index < |ys| {
      assert es[k] in es;
    }
    es
  }

  /** The events alternating_extrema returns for the smoothed signal `ys`:
      merged events only, alternating, and turning points of `ys`. */
  function Consolidate(ys: seq<real>, d: int): (es: seq<Event>)
    ensures ValidEvents(es, ys) && Alternating(es)
    ensures forall e :: e in es ==> e in MergedEvents(ys, d) && Turn(ys, e.index, e.kind)
  {
    Alternate(MergedEvents(ys, d), ys)
  }

  /** The events strictly alternate between maxima and minima, lie in
      strictly increasing frame order, each is a genuine turning point of
      the smoothed signal, and there are none exactly when the smoothed
      signal has no turning point at all. */
  lemma ConsolidateFacts(ys: seq<real>, d: int)
    requires d >= 0
    ensures var es := Consolidate(ys, d);
      Alternating(es) && IncreasingIdx(es) &&
      (forall e :: e in es ==> Turn(ys, e.index, e.kind)) &&
      (|es| == 0 <==> forall i: nat :: !Turn(ys, i, Max) && !Turn(ys, i, Min))
  {
    var x := FindExtrema(ys);
    ExtremaInRange(ys);
    var maxs := Grouped(x.0, ys, d, Max);
    var mins := Grouped(x.1, ys, d, Min);
    GroupedFromInput(x.0, ys, d, Max);
    GroupedFromInput(x.1, ys, d, Min);
    GroupedIncreasing(x.0, ys, d, Max);
    GroupedIncreasing(x.1, ys, d, Min);
    MergeIncreasing(maxs, mins);
    var merged := MergedEvents(ys, d);
    AlternateIncreasing(merged, ys);
    var es := Consolidate(ys, d);
    forall e | e in es ensures Turn(ys, e.index, e.kind) {
      assert e in merged;
    }
    if |es| != 0 {
      assert |x.0| + |x.1| > 0;
      if |x.0| > 0 {
        assert x.0[0] in x.0;
      } else {
        assert x.1[0] in x.1;
      }
    }
    if exists i: nat :: Turn(ys, i, Max) || Turn(ys, i, Min) {
      var i: nat :| Turn(ys, i, Max) || Turn(ys, i, Min);
      assert i in x.0 || i in x.1;
    }
  }

  /** The result of alternating_extrema: the events and the smoothed
      signal. */
  datatype Extrema = Extrema(events: seq<Event>, smoothed: seq<real>)

  /** alternating_extrema: smooth, find the turning points, merge close ones,
      sort by index and force alternation.  An empty signal makes the
      convolution raise and a zero bpm_max makes the division raise. */
  function ExtremaOf(y: seq<real>, fps: real, bpmMax: real, smoothWin: int): (r: Result<Extrema>)
    ensures r.Err? <==> |y| == 0 || bpmMax == 0.0
    ensures |y| == 0 ==> r == Err(EmptySignal)
    ensures |y| > 0 && bpmMax == 0.0 ==> r == Err(DivisionByZero)
    ensures r.Ok? ==> r.value.smoothed == SmoothMA(y, smoothWin).value
  {
    match SmoothMA(y, smoothWin)
    case Err(e) => Err(e)
    case Ok(ys) =>
      if bpmMax == 0.0 then Err(DivisionByZero)
      else Ok(Extrema(Consolidate(ys, MergeDistance(fps, bpmMax)), ys))
  }

  /** What alternating_extrema promises: it fails only on an empty signal or
      a zero bpm_max, the smoothed signal is as long as the longer of the
      signal and the window, and the events alternate, increase and are
      turning points of the smoothed signal. */
  lemma ExtremaOfFacts(y: seq<real>, fps: real, bpmMax: real, smoothWin: int)
    ensures var r := ExtremaOf(y, fps, bpmMax, smoothWin);
      (r.Err? <==> |y| == 0 || bpmMax == 0.0) &&
      (r.Ok? ==>
        |r.value.smoothed| == (if |y| >= Window(smoothWin) then |y| else Window(smoothWin)) &&
        Alternating(r.value.events) && IncreasingIdx(r.value.events) &&
        forall e :: e in r.value.events ==> Turn(r.value.smoothed, e.index, e.kind))
  {
    var r := ExtremaOf(y, fps, bpmMax, smoothWin);
    if r.Ok? {
      ConsolidateFacts(r.value.smoothed, MergeDistance(fps, bpmMax));
    }
  }

  /** alternating_extrema as written: the two group_close calls, the stable
      sort of the tagged events, and the loop that forces alternation by
      keeping the strictly more extreme of two same-kind neighbours. */
  method AlternatingExtrema(y: seq<real>, fps: real, bpmMin: real, bpmMax: real, smoothWin: int)
    returns (r: Result<Extrema>)
    ensures r == ExtremaOf(y, fps, bpmMax, smoothWin)
  {
    var smoothed := SmoothMA(y, smoothWin);
    if smoothed.Err? {
      return Err(smoothed.error);
    }
    var ys := smoothed.value;
    var x := FindExtrema(ys);
    if bpmMax == 0.0 {
      return Err(DivisionByZero);
    }
    var mergeDist := MergeDistance(fps, bpmMax);
    ExtremaInRange(ys);
    var maxIdx := GroupClose(x.0, ys, mergeDist, Max);
    var minIdx := GroupClose(x.1, ys, mergeDist, Min);
    var events := MergeByIndex(maxIdx, minIdx);
    assert events == MergedEvents(ys, mergeDist);
    if |events| == 0 {
      return Ok(Extrema([], ys));
    }
    var cleaned := ForceAlternation(events, ys);
    return Ok(Extrema(cleaned, ys));
  }

  /** The loop of alternating_extrema that forces alternation: an event of
      the other kind is appended, one of the same kind replaces the last
      kept event when it is strictly more extreme. */
  method ForceAlternation(events: seq<Event>, ys: seq<real>) returns (cleaned: seq<Event>)
    requires |events| > 0 && ValidEvents(events, ys)
    ensures cleaned == Alternate(events, ys)
  {
    cleaned := [events[0]];
    assert events[..1] == [events[0]] && events[..1][..0] == [];
    for k := 1 to |events|
      invariant cleaned == Alternate(events[..k], ys)
    {
      AlternateStep(events, ys, k);
      var e := events[k];
      var p := Last(cleaned);
      if e.kind != p.kind {
        cleaned := cleaned + [e];
      } else {
        if e.kind == Max && ys[e.index] > ys[p.index] {
          cleaned := cleaned[..|cleaned| - 1] + [e];
        }
        if e.kind == Min && ys[e.index] < ys[p.index] {
          cleaned := cleaned[..|cleaned| - 1] + [e];
        }
      }
    }
    assert events[..|events|] == events;
  }

  /** One turn of the cleaning loop, as Alternate sees it. */
  lemma AlternateStep(es: seq<Event>, y: seq<real>, k: nat)
    requires ValidEvents(es, y) && 0 < k < |es|
    ensures ValidEvents(es[..k], y) && ValidEvents(es[..k + 1], y)
    ensures var c, e := Alternate(es[..k], y), es[k];
      |c| > 0 && e.index < |y| && Last(c).index < |y| &&
      Alternate(es[..k + 1], y) ==
        if e.kind != Last(c).kind then c + [e]
        else if Beats(e.kind, y[e.index], y[Last(c).index]) then c[..|c| - 1] + [e]
        else c
  {
    assert es[..k + 1][..k] == es[..k];
  }

  // ---------------------------------------------------------------------
  // bpm_cycle
  // ---------------------------------------------------------------------

  /** Whether some event from the third on has the kind of the event two
      places before it, i.e. whether bpm_cycle measures any period. */
  predicate HasPeriod(es: seq<Event>)
  {
    exists k :: 2 <= k < |es| && es[k].kind == es[k - 2].kind
  }

  /** The time in seconds from event `a` to event `b`. */
  function Period(a: Event, b: Event, fps: real): real
    requires fps != 0.0
  {
    (b.index - a.index) as real / fps
  }

  /** The period list of bpm_cycle, in seconds: for every event whose kind
      matches the event two places back, the frame distance over fps. */
  function PeriodList(es: seq<Event>, fps: real): (ps: seq<real>)
    requires fps != 0.0
    ensures |ps| <= if |es| < 3 then 0 else |es| - 2
    ensures |ps| > 0 <==> HasPeriod(es)
  {
    if |es| < 3 then []
    else
      var n := |es| - 1;
      var prev := PeriodList(es[..n], fps);
      HasPeriodStep(es);
      if es[n].kind == es[n - 2].kind then prev + [Period(es[n - 2], es[n], fps)] else prev
  }

  /** A list has a period when its prefix has one or its last event matches
      the kind two places back. */
  lemma HasPeriodStep(es: seq<Event>)
    requires |es| >= 3
    ensures var n := |es| - 1;
      HasPeriod(es) <==> HasPeriod(es[..n]) || es[n].kind == es[n - 2].kind
  {
    var n := |es| - 1;
    if HasPeriod(es) {
      var k :| 2 <= k < |es| && es[k].kind == es[k - 2].kind;
      if k < n {
        assert es[..n][k] == es[k] && es[..n][k - 2] == es[k - 2];
      }
    }
    if HasPeriod(es[..n]) {
      var k :| 2 <= k < n && es[..n][k].kind == es[..n][k - 2].kind;
      assert es[k] == es[..n][k];
    }
  }

  /** With events in increasing frame order and a positive frame rate,
      every period spans at least two frames, i.e. 2 / fps seconds. */
  lemma {:induction false} PeriodsAtLeastTwoFrames(es: seq<Event>, fps: real)
    requires IncreasingIdx(es) && fps > 0.0
    ensures forall k :: 0 <= k < |PeriodList(es, fps)| ==> PeriodList(es, fps)[k] >= 2.0 / fps
  {
    if |es| >= 3 {
      var n := |es| - 1;
      assert IncreasingIdx(es[..n]);
      PeriodsAtLeastTwoFrames(es[..n], fps);
      var ps := PeriodList(es, fps);
      var prev := PeriodList(es[..n], fps);
      if es[n].kind == es[n - 2].kind {
        assert ps == prev + [Period(es[n - 2], es[n], fps)];
        assert es[n - 2].index < es[n - 1].index < es[n].index;
        PeriodSign(es[n - 2], es[n], fps);
        forall k | 0 <= k < |ps| ensures ps[k] >= 2.0 / fps {
          if k < |prev| {
            assert ps[k] == prev[k];
          }
        }
      } else {
        assert ps == prev;
      }
    }
  }

  /** With a negative frame rate every period comes out negative. */
  lemma {:induction false} PeriodsNegative(es: seq<Event>, fps: real)
    requires IncreasingIdx(es) && fps < 0.0
    ensures forall k :: 0 <= k < |PeriodList(es, fps)| ==> PeriodList(es, fps)[k] < 0.0
  {
    if |es| >= 3 {
      var n := |es| - 1;
      assert IncreasingIdx(es[..n]);
      PeriodsNegative(es[..n], fps);
      var ps := PeriodList(es, fps);
      var prev := PeriodList(es[..n], fps);
      if es[n].kind == es[n - 2].kind {
        assert ps == prev + [Period(es[n - 2], es[n], fps)];
        assert es[n - 2].index < es[n - 1].index < es[n].index;
        PeriodSign(es[n - 2], es[n], fps);
        forall k | 0 <= k < |ps| ensures ps[k] < 0.0 {
          if k < |prev| {
            assert ps[k] == prev[k];
          }
        }
      } else {
        assert ps == prev;
      }
    }
  }

  /** A gap of at least two frames lasts at least 2 / fps seconds, or is
      negative when fps is. */
  lemma PeriodSign(a: Event, b: Event, fps: real)
    requires a.index + 2 <= b.index && fps != 0.0
    ensures fps > 0.0 ==> Period(a, b, fps) >= 2.0 / fps
    ensures fps < 0.0 ==> Period(a, b, fps) < 0.0
  {
    var gap := (b.index - a.index) as real;
    if fps > 0.0 {
      DivideMonotone(2.0, gap, fps);
    } else {
      NegativeQuotient(gap, fps);
    }
  }

  lemma NegativeQuotient(a: real, c: real)
    requires a > 0.0 && c < 0.0
    ensures a / c < 0.0
  {
    assert a / c == -(a / -c);
  }

  lemma DivideMonotone(a: real, b: real, c: real)
    requires a <= b && c > 0.0
    ensures a / c <= b / c
  {
    assert b / c - a / c == (b - a) / c;
  }

  /** Two kinds only: in an alternating list every event has the kind of
      the event two places before it. */
  lemma AlternatingRepeats(es: seq<Event>, k: nat)
    requires Alternating(es) && 2 <= k < |es|
    ensures es[k].kind == es[k - 2].kind
  {
    assert es[k - 2].kind != es[k - 1].kind && es[k - 1].kind != es[k].kind;
  }

  /** On alternating events every event from the third on closes a period:
      there are |events| - 2 periods and the k-th spans events k and k + 2. */
  lemma {:induction false} PeriodsOfAlternating(es: seq<Event>, fps: real)
    requires Alternating(es) && fps != 0.0
    ensures var ps := PeriodList(es, fps);
      |ps| == (if |es| < 3 then 0 else |es| - 2) &&
      forall k :: 0 <= k < |ps| ==> ps[k] == Period(es[k], es[k + 2], fps)
  {
    if |es| >= 3 {
      var n := |es| - 1;
      PeriodsOfAlternating(es[..n], fps);
      AlternatingRepeats(es, n);
      var ps := PeriodList(es, fps);
      var prev := PeriodList(es[..n], fps);
      assert ps == prev + [Period(es[n - 2], es[n], fps)];
      forall k | 0 <= k < |prev| ensures ps[k] == Period(es[k], es[k + 2], fps) {
        assert es[..n][k + 2] == es[k + 2] && es[..n][k] == es[k];
      }
    }
  }

  /** bpm_cycle's period loop.  The division by fps raises only once a
      period is actually found. */
  method Periods(es: seq<Event>, fps: real) returns (r: Result<seq<real>>)
    ensures r.Err? <==> fps == 0.0 && HasPeriod(es)
    ensures r.Err? ==> r.error == DivisionByZero
    ensures r.Ok? && fps != 0.0 ==> r.value == PeriodList(es, fps)
    ensures r.Ok? && fps == 0.0 ==> r.value == []
  {
    var periods := [];
    if |es| < 3 {
      assert fps != 0.0 ==> PeriodList(es, fps) == [];
      return Ok(periods);
    }
    for k := 2 to |es|
      invariant fps != 0.0 ==> periods == PeriodList(es[..k], fps)
      invariant fps == 0.0 ==> periods == [] && forall m :: 2 <= m < k ==> es[m].kind != es[m - 2].kind
    {
      assert es[..k + 1][..k] == es[..k];
      var i := es[k];
      var j := es[k - 2];
      if i.kind == j.kind {
        if fps == 0.0 {
          return Err(DivisionByZero);
        }
        periods := periods + [Period(j, i, fps)];
      }
    }
    assert es[..|es|] == es;
    return Ok(periods);
  }

  function Identity(x: real): real
  {
    x
  }

  /** np.median: the middle of the sorted values, or the mean of the two
      middle ones for an even count.  It lies between the smallest and the
      largest value, and for an odd count it is one of them. */
  function Median(s: seq<real>): (r: real)
    requires |s| > 0
    ensures MinOf(s) <= r <= MaxOf(s)
    ensures |s| % 2 == 1 ==> r in s
  {
    var t := SortBy(s, Identity);
    var n := |t|;
    assert forall j :: 0 <= j < n ==> MinOf(s) <= t[j] <= MaxOf(s) && t[j] in s by {
      forall j | 0 <= j < n ensures MinOf(s) <= t[j] <= MaxOf(s) && t[j] in s {
        assert t[j] in t;
        SortByMembers(s, Identity, t[j]);
      }
    }
    if n % 2 == 1 then t[n / 2] else (t[n / 2 - 1] + t[n / 2]) / 2.0
  }

  /** The first ten events, as events[:10]. */
  function Sample(es: seq<Event>): (r: seq<Event>)
    ensures |r| <= |es| && |r| <= 10 && r == es[..|r|]
    ensures |es| >= 10 ==> |r| == 10
    ensures |es| < 10 ==> r == es
  {
    if |es| < 10 then es else es[..10]
  }

  /** The two returns of bpm_cycle: no complete cycle (with a sample of the
      events), or the estimate with its diagnostics. */
  datatype Estimate =
    | NoCycles(eventsSample: seq<Event>)
    | Cycles(bpm: real, eventsSample: seq<Event>, medianPeriod: real, periodCount: nat)

  /** The sign of the periods keeps their median away from zero. */
  lemma MedianOfPeriods(ps: seq<real>, fps: real)
    requires |ps| > 0 && fps != 0.0
    requires fps > 0.0 ==> forall k :: 0 <= k < |ps| ==> ps[k] >= 2.0 / fps
    requires fps < 0.0 ==> forall k :: 0 <= k < |ps| ==> ps[k] < 0.0
    ensures fps > 0.0 ==> Median(ps) >= 2.0 / fps > 0.0
    ensures fps < 0.0 ==> Median(ps) < 0.0
  {
    assert MinOf(ps) in ps && MaxOf(ps) in ps;
  }

  /** With events in increasing frame order the median period is never
      zero, so the final division of bpm_cycle cannot fail. */
  lemma MedianNonZero(es: seq<Event>, fps: real)
    requires IncreasingIdx(es) && fps != 0.0 && |PeriodList(es, fps)| > 0
    ensures Median(PeriodList(es, fps)) != 0.0
  {
    if fps > 0.0 {
      PeriodsAtLeastTwoFrames(es, fps);
    } else {
      PeriodsNegative(es, fps);
    }
    MedianOfPeriods(PeriodList(es, fps), fps);
  }

  /** The tail of bpm_cycle on the consolidated events: no complete cycle
      when no period is measured, otherwise 60 over the median period. */
  function EstimateOf(es: seq<Event>, fps: real): (r: Result<Estimate>)
    requires IncreasingIdx(es)
    ensures r.Err? <==> fps == 0.0 && HasPeriod(es)
    ensures r.Err? ==> r.error == DivisionByZero
    ensures r.Ok? ==> (r.value.NoCycles? <==> !HasPeriod(es)) && r.value.eventsSample == Sample(es)
    ensures r.Ok? && r.value.Cycles? ==>
      r.value.medianPeriod != 0.0 && r.value.bpm == 60.0 / r.value.medianPeriod &&
      r.value.periodCount == |PeriodList(es, fps)|
  {
    if fps == 0.0 then
      if HasPeriod(es) then Err(DivisionByZero) else Ok(NoCycles(Sample(es)))
    else
      var ps := PeriodList(es, fps);
      if |ps| == 0 then Ok(NoCycles(Sample(es)))
      else
        MedianNonZero(es, fps);
        var t := Median(ps);
        Ok(Cycles(60.0 / t, Sample(es), t, |ps|))
  }

  /** On alternating events in increasing frame order and a positive frame
      rate: no cycle exactly when fewer than three events survive;
      otherwise |events| - 2 periods, a median period of at least two
      frames, and a positive rate of 60 over that median, never above 30
      times the frame rate. */
  lemma EstimateFacts(es: seq<Event>, fps: real)
    requires Alternating(es) && IncreasingIdx(es) && fps > 0.0
    ensures var r := EstimateOf(es, fps);
      r.Ok? &&
      (r.value.NoCycles? <==> |es| < 3) &&
      (r.value.Cycles? ==>
        r.value.periodCount == |es| - 2 &&
        r.value.medianPeriod >= 2.0 / fps > 0.0 &&
        r.value.bpm == 60.0 / r.value.medianPeriod &&
        0.0 < r.value.bpm <= 30.0 * fps)
  {
    PeriodsOfAlternating(es, fps);
    var ps := PeriodList(es, fps);
    if |ps| > 0 {
      PeriodsAtLeastTwoFrames(es, fps);
      MedianOfPeriods(ps, fps);
      RateBound(Median(ps), fps);
    }
  }

  /** bpm_cycle: interpolate, consolidate the events, then estimate. */
  function CycleOf(frames: seq<nat>, ys: seq<real>, fps: real, bpmMax: real, smoothWin: int): (r: Result<Estimate>)
    requires |frames| == |ys|
    ensures |frames| == 0 ==> r == Err(EmptyFrames)
    ensures |frames| > 0 && bpmMax == 0.0 ==> r == Err(DivisionByZero)
    ensures r.Err? ==> |frames| == 0 || bpmMax == 0.0 || fps == 0.0
    ensures r.Err? && |frames| > 0 ==> r.error == DivisionByZero
  {
    match Interpolate(frames, ys)
    case Err(e) => Err(e)
    case Ok(y) =>
      match ExtremaOf(y, fps, bpmMax, smoothWin)
      case Err(e) => Err(e)
      case Ok(x) =>
        ExtremaOfFacts(y, fps, bpmMax, smoothWin);
        EstimateOf(x.events, fps)
  }

  /** bpm_cycle as written: interpolate, consolidate the events, run the
      period loop and take the median. */
  method BpmCycle(frames: seq<nat>, ys: seq<real>, fps: real, bpmMin: real, bpmMax: real, smoothWin: int)
    returns (r: Result<Estimate>)
    requires |frames| == |ys|
    ensures r == CycleOf(frames, ys, fps, bpmMax, smoothWin)
  {
    var y := Interpolate(frames, ys);
    if y.Err? {
      return Err(y.error);
    }
    var x := AlternatingExtrema(y.value, fps, bpmMin, bpmMax, smoothWin);
    if x.Err? {
      return Err(x.error);
    }
    ExtremaOfFacts(y.value, fps, bpmMax, smoothWin);
    var events := x.value.events;
    var periods := Periods(events, fps);
    if periods.Err? {
      return Err(periods.error);
    }
    if |periods.value| < 1 {
      return Ok(NoCycles(Sample(events)));
    }
    MedianNonZero(events, fps);
    var t := Median(periods.value);
    var bpm := 60.0 / t;
    return Ok(Cycles(bpm, Sample(events), t, |periods.value|));
  }

  /** What bpm_cycle promises for a positive frame rate and a non-zero
      bpm_max: it fails only without samples, and otherwise gives the
      estimate of the consolidated events of the interpolated signal. */
  lemma CycleFacts(frames: seq<nat>, ys: seq<real>, fps: real, bpmMax: real, smoothWin: int)
    requires |frames| == |ys| && fps > 0.0 && bpmMax != 0.0
    ensures var r := CycleOf(frames, ys, fps, bpmMax, smoothWin);
      (r.Err? <==> |frames| == 0) &&
      (r.Ok? ==>
        var es := ExtremaOf(Interpolate(frames, ys).value, fps, bpmMax, smoothWin).value.events;
        (r.value.NoCycles? <==> |es| < 3) &&
        (r.value.Cycles? ==>
          r.value.periodCount == |es| - 2 &&
          r.value.medianPeriod >= 2.0 / fps > 0.0 &&
          0.0 < r.value.bpm <= 30.0 * fps))
  {
    if |frames| > 0 {
      var y := Interpolate(frames, ys).value;
      ExtremaOfFacts(y, fps, bpmMax, smoothWin);
      EstimateFacts(ExtremaOf(y, fps, bpmMax, smoothWin).value.events, fps);
    }
  }

  /** 60 / t is positive and at most 30 * fps when t >= 2 / fps. */
  lemma RateBound(t: real, fps: real)
    requires fps > 0.0 && t >= 2.0 / fps
    ensures t > 0.0 && 0.0 < 60.0 / t <= 30.0 * fps
  {
    assert 2.0 / fps > 0.0;
    assert t * fps >= 2.0 by {
      assert (2.0 / fps) * fps == 2.0;
    }
    assert 60.0 / t <= 30.0 * fps by {
      assert 60.0 <= 30.0 * fps * t;
      assert 60.0 / t == 60.0 * (1.0 / t);
    }
  }
}
