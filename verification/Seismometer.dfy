/** The streaming detector: one-pass statistics, the adaptive threshold, the
    five-second event state machine and the samples-per-second counter.

    `unsigned long` is 32 bits wide.  Square roots are inputs: a tick carries the
    value that sqrt returned, and RootsComputed says it was the exact root.
 */
module Detection {
  import opened Words
  import opened Statistics

  const HOLD_OFF: Word32 := 5000
  const PROBE_PERIOD: Word32 := 1000

  /** The statistics fields of the seismometer. */
  datatype Detector = Detector(partialAvg: real, partialStdDev: real, elements: Word32,
                               quakeThreshold: real, sigmaIter: real)
  {
    /** What getCurrentSTDDEV takes the root of; at one element the code computes 0/0. */
    function Variance(): real
      requires elements != 1
    {
      partialStdDev / Elapsed(elements, 1) as real
    }
  }

  datatype State = State(det: Detector, inEvent: bool, lastEventWas: Word32,
                         statLastCounterTime: Word32, statLastCounter: Word32, statProbeSpeed: Word32)

  const INITIAL: State := State(Detector(0.0, 0.0, 0, 1.0, 3.0), false, 0, 0, 0, 0)

  /** The alert that is sent to the server. */
  datatype Record = Record(ts: Word32, accel: real, overThreshold: bool)

  /** Everything one tick reads: the accelerometer, the UNIX time, the result of sqrt
      and the true times of its clock readings, in program order. */
  datatype TickInput = TickInput(accel: real, root: real, ts: Word32,
                                 tProbe: nat, tStamp: nat, tRelease: nat, tHold: nat, tAlert: nat)
  {
    predicate InOrder() {
      tProbe <= tStamp <= tRelease <= tHold <= tAlert
    }
  }

  datatype TickResult = TickResult(state: State, published: Option<Word32>, alert: Option<Record>)

  function AddValue(d: Detector, val: real, root: real): (d': Detector)
    requires d.elements < TWO_32 - 1
    ensures d'.elements == d.elements + 1
  {
    var n := d.elements + 1;
    var delta := val - d.partialAvg;
    var avg := d.partialAvg + delta / n as real;
    Detector(avg, d.partialStdDev + delta * (val - avg), n,
             if n > 1 then avg + root * d.sigmaIter else d.quakeThreshold, d.sigmaIter)
  }

  function Probe(s: State, i: TickInput): State {
    var counter := (s.statLastCounter + 1) % TWO_32;
    if Elapsed(Millis(i.tProbe), s.statLastCounterTime) > PROBE_PERIOD
    then s.(statProbeSpeed := counter, statLastCounter := 0, statLastCounterTime := Millis(i.tStamp))
    else s.(statLastCounter := counter)
  }

  predicate Publishes(s: State, i: TickInput) {
    Elapsed(Millis(i.tProbe), s.statLastCounterTime) > PROBE_PERIOD
  }

  function Tick(s: State, i: TickInput): TickResult
    requires s.det.elements < TWO_32 - 1
  {
    var over := i.accel > s.det.quakeThreshold;
    var s1 := Probe(s.(det := AddValue(s.det, i.accel, i.root)), i);
    var published := if Publishes(s, i) then Some(s1.statProbeSpeed) else None;
    var released := Elapsed(Millis(i.tRelease), s1.lastEventWas) >= HOLD_OFF;
    if s1.inEvent && !released && Elapsed(Millis(i.tHold), s1.lastEventWas) < HOLD_OFF then
      TickResult(s1, published, None)
    else
      var s2 := if s1.inEvent && released then s1.(inEvent := false) else s1;
      if over && !s2.inEvent then
        TickResult(s2.(inEvent := true, lastEventWas := Millis(i.tAlert)), published, Some(Record(i.ts, i.accel, over)))
      else
        TickResult(s2, published, None)
  }

  /** The second clock reading of the hold-off test never changes the outcome, although
      the hold-off may run out between the two readings. */
  lemma SecondReadingIrrelevant(s: State, i: TickInput, t: nat)
    requires s.det.elements < TWO_32 - 1
    ensures Tick(s, i.(tHold := t)) == Tick(s, i)
  {
    var j := i.(tHold := t);
    var s1 := s.(det := AddValue(s.det, i.accel, i.root));
    assert Probe(s1, j) == Probe(s1, i);
  }

  // ----- histories: ticks interleaved with configuration changes -----

  datatype Event = Sample(input: TickInput) | SigmaSet(sigma: real) | PeriodReset

  function Step(s: State, e: Event): (r: TickResult)
    requires s.det.elements < TWO_32 - 1
    ensures r.state.det.elements <= s.det.elements + 1 && r.state.statLastCounter <= s.statLastCounter + 1
  {
    match e
    case Sample(i) => Tick(s, i)
    case SigmaSet(sigma) => TickResult(s.(det := s.det.(sigmaIter := sigma)), None, None)
    case PeriodReset =>
      TickResult(s.(det := s.det.(partialAvg := 0.0, partialStdDev := 0.0, elements := 0)), None, None)
  }

  /** The state after a history.  (Fewer than 2^32 events, so no counter wraps.) */
  function After(h: seq<Event>): (s: State)
    requires |h| < TWO_32
    ensures s.det.elements <= |h| && s.statLastCounter <= |h|
  {
    hide AddValue, Elapsed, Millis;
    if h == [] then INITIAL else Step(After(h[..|h| - 1]), h[|h| - 1]).state
  }

  function StepAt(h: seq<Event>, i: nat): TickResult
    requires i < |h| < TWO_32
  {
    Step(After(h[..i]), h[i])
  }

  lemma AfterStep(h: seq<Event>, n: nat)
    requires n < |h| < TWO_32
    ensures After(h[..n + 1]) == StepAt(h, n).state == Step(After(h[..n]), h[n]).state
  {
    assert h[..n + 1][..n] == h[..n];
  }

  lemma AfterLast(h: seq<Event>)
    requires 0 < |h| < TWO_32
    ensures After(h) == StepAt(h, |h| - 1).state == Step(After(h[..|h| - 1]), h[|h| - 1]).state
  {
  }

  // What one step does to the threshold, to the event and to the probe counter.

  lemma ThresholdStep(s: State, e: Event)
    requires s.det.elements < TWO_32 - 1
    ensures var d, d' := s.det, Step(s, e).state.det;
            && (!e.Sample? || d'.elements <= 1 ==> d'.quakeThreshold == d.quakeThreshold)
            && (e.Sample? && d'.elements > 1 ==>
                  d'.quakeThreshold == d'.partialAvg + e.input.root * d.sigmaIter && d'.sigmaIter == d.sigmaIter)
  {
    hide Elapsed, Millis;
  }

  /** The hold-off is in force for tick i. */
  predicate HeldOff(s: State, i: TickInput) {
    s.inEvent && Elapsed(Millis(i.tRelease), s.lastEventWas) < HOLD_OFF
  }

  lemma EventStep(s: State, e: Event)
    requires s.det.elements < TWO_32 - 1
    ensures var r := Step(s, e);
            && (!e.Sample? ==>
                  r.alert == None && r.state.inEvent == s.inEvent && r.state.lastEventWas == s.lastEventWas)
            && (e.Sample? ==>
                  var over := e.input.accel > s.det.quakeThreshold;
                  && r.alert == (if over && !HeldOff(s, e.input) then Some(Record(e.input.ts, e.input.accel, true))
                                 else None)
                  && r.state.inEvent == (r.alert.Some? || HeldOff(s, e.input))
                  && r.state.lastEventWas == if r.alert.Some? then Millis(e.input.tAlert) else s.lastEventWas)
  {
    hide Elapsed, Millis, AddValue;
  }

  lemma ProbeStep(s: State, e: Event)
    requires s.det.elements < TWO_32 - 1 && s.statLastCounter < TWO_32 - 1
    ensures var r := Step(s, e);
            var counter := s.statLastCounter + 1;
            && (!e.Sample? ==>
                  && r.published == None && r.state.statLastCounter == s.statLastCounter
                  && r.state.statLastCounterTime == s.statLastCounterTime)
            && r.state.statProbeSpeed == (if r.published.Some? then r.published.value else s.statProbeSpeed)
            && (e.Sample? && Publishes(s, e.input) ==>
                  && r.published == Some(counter) && r.state.statLastCounter == 0
                  && r.state.statLastCounterTime == Millis(e.input.tStamp))
            && (e.Sample? && !Publishes(s, e.input) ==>
                  && r.published == None && r.state.statLastCounter == counter
                  && r.state.statLastCounterTime == s.statLastCounterTime)
  {
    hide Elapsed, Millis, AddValue;
  }

  lemma StepAtPrefix(h: seq<Event>, n: nat, i: nat)
    requires i < n <= |h| < TWO_32
    ensures StepAt(h[..n], i) == StepAt(h, i)
    ensures h[..n][..i] == h[..i] && h[..n][i] == h[i]
  {
    assert h[..n][..i] == h[..i];
  }

  // ----- statistics and threshold over a history -----

  /** The samples since the last reset. */
  function Period(h: seq<Event>): (xs: seq<real>)
    ensures |xs| <= |h|
  {
    if h == [] then []
    else
      var before := Period(h[..|h| - 1]);
      match h[|h| - 1]
      case Sample(i) => before + [i.accel]
      case SigmaSet(_) => before
      case PeriodReset => []
  }

  /** Until the server sets one, sigma is 3. */
  lemma {:induction false} DefaultSigma(h: seq<Event>)
    requires |h| < TWO_32 && forall i :: 0 <= i < |h| ==> !h[i].SigmaSet?
    ensures After(h).det.sigmaIter == 3.0
  {
    if h != [] {
      var h0 := h[..|h| - 1];
      DefaultSigma(h0);
      AfterLast(h);
      assert !h[|h| - 1].SigmaSet?;
      hide After, Elapsed, Millis;
    }
  }

  /** The last sigma set, or the default. */
  function Sigma(h: seq<Event>): real {
    if h == [] then 3.0
    else if h[|h| - 1].SigmaSet? then h[|h| - 1].sigma
    else Sigma(h[..|h| - 1])
  }

  /** Event i is at least the second sample of its period. */
  predicate Recomputes(h: seq<Event>, i: nat)
    requires i < |h|
  {
    h[i].Sample? && |Period(h[..i + 1])| >= 2
  }

  /** mean + sigma * stddev. */
  function ThresholdFrom(xs: seq<real>, root: real, sigma: real): real
    requires xs != []
  {
    Mean(xs) + root * sigma
  }

  lemma RecomputesPrefix(h: seq<Event>, n: nat)
    requires n <= |h|
    ensures forall i :: 0 <= i < n ==> Recomputes(h[..n], i) == Recomputes(h, i)
  {
    forall i | 0 <= i < n ensures Recomputes(h[..n], i) == Recomputes(h, i) {
      assert h[..n][..i + 1] == h[..i + 1];
    }
  }

  /** Index of the last event that recomputes the threshold, or -1. */
  function LastRecompute(h: seq<Event>): (k: int)
    ensures -1 <= k < |h|
    ensures k >= 0 ==> Recomputes(h, k)
    ensures forall i :: k < i < |h| ==> !Recomputes(h, i)
  {
    if h == [] then -1
    else if Recomputes(h, |h| - 1) then |h| - 1
    else
      RecomputesPrefix(h, |h| - 1);
      LastRecompute(h[..|h| - 1])
  }

  /** Every root used for a threshold was the exact root of the radicand. */
  ghost predicate RootsComputed(h: seq<Event>)
    requires |h| < TWO_32
  {
    forall i {:trigger h[i]} :: 0 <= i < |h| ==> RootComputed(h, i)
  }

  predicate RootComputed(h: seq<Event>, i: nat)
    requires i < |h| < TWO_32
  {
    h[i].Sample? && After(h[..i + 1]).det.elements > 1 ==>
      IsRoot(h[i].input.root, After(h[..i + 1]).det.Variance())
  }

  /** The one-pass fields hold the count, the mean and the sum of squared deviations. */
  ghost predicate Tracks(d: Detector, xs: seq<real>) {
    && d.elements == |xs|
    && d.partialAvg * |xs| as real == Sum(xs)
    && d.partialStdDev == SquaredDeviations(xs, d.partialAvg)
    && (if xs == [] then d.partialAvg == 0.0 else d.partialAvg == Mean(xs))
  }

  /** Every tick folds in exactly one sample, in an event or not, and the one-pass
      fields hold the two-pass mean and sum of squared deviations. */
  lemma {:induction false} OnePassRefinesTwoPass(h: seq<Event>)
    requires |h| < TWO_32
    ensures Tracks(After(h).det, Period(h)) && After(h).det.sigmaIter == Sigma(h)
  {
    if h != [] {
      var h0, e := h[..|h| - 1], h[|h| - 1];
      OnePassRefinesTwoPass(h0);
      var s0, xs0 := After(h0), Period(h0);
      AfterLast(h);
      assert Period(h) == if e.Sample? then xs0 + [e.input.accel] else if e.SigmaSet? then xs0 else [];
      assert Sigma(h) == if e.SigmaSet? then e.sigma else Sigma(h0);
      assert Tracks(s0.det, xs0) ==> s0.det.elements == |xs0| < TWO_32 - 1;
      hide Tracks, Period, Sigma, After;
      TracksStep(s0, e, xs0);
    } else {
      assert After(h) == INITIAL;
      hide After;
    }
  }

  lemma TracksStep(s: State, e: Event, xs: seq<real>)
    requires Tracks(s.det, xs) && s.det.elements < TWO_32 - 1
    ensures Tracks(Step(s, e).state.det, if e.Sample? then xs + [e.input.accel] else if e.SigmaSet? then xs else [])
    ensures Step(s, e).state.det.sigmaIter == if e.SigmaSet? then e.sigma else s.det.sigmaIter
  {
    if e.Sample? {
      assert Step(s, e).state.det == AddValue(s.det, e.input.accel, e.input.root) by {
        hide Tracks, AddValue, Elapsed, Millis;
      }
      hide Step, Tracks;
      FoldSample(s.det, xs, e.input.accel, e.input.root);
    } else {
      hide SumBy, Mean;
      assert Sum([]) == 0.0 && SquaredDeviations([], 0.0) == 0.0 by { NoSamples(); }
    }
  }

  lemma NoSamples()
    ensures Sum([]) == 0.0 && SquaredDeviations([], 0.0) == 0.0
  {
  }

  lemma FoldSample(d: Detector, xs: seq<real>, x: real, root: real)
    requires Tracks(d, xs) && d.elements < TWO_32 - 1
    ensures Tracks(AddValue(d, x, root), xs + [x])
  {
    hide Sum, SquaredDeviations, Mean;
    var d', ys := AddValue(d, x, root), xs + [x];
    assert d'.partialAvg == d.partialAvg + (x - d.partialAvg) / (|xs| + 1) as real;
    assert d'.partialStdDev == d.partialStdDev + CrossTerm(x, d.partialAvg, d'.partialAvg);
    assert d'.elements == |ys|;
    hide AddValue, CrossTerm;
    Welford(xs, d.partialAvg, x, d'.partialAvg);
    MeanTimes(ys, d'.partialAvg);
  }

  /** What getCurrentSTDDEV takes the root of is the two-pass radicand of Utils::stddev;
      so it is never negative, and arrival order does not matter. */
  lemma CurrentVarianceIsTwoPass(h: seq<Event>, ys: seq<real>)
    requires |h| < TWO_32 && |Period(h)| >= 2 && multiset(ys) == multiset(Period(h))
    ensures After(h).det.elements == |ys| == |Period(h)|
    ensures After(h).det.Variance() == Variance(ys) >= 0.0
  {
    hide *;
    OnePassRefinesTwoPass(h);
    VarianceTracks(After(h).det, Period(h));
    SameVariance(Period(h), ys);
  }

  lemma VarianceTracks(d: Detector, xs: seq<real>)
    requires Tracks(d, xs) && |xs| >= 2
    ensures d.elements == |xs| && d.Variance() == Variance(xs)
  {
    assert Elapsed(|xs|, 1) == |xs| - 1;
    hide Elapsed, SquaredDeviations, Mean, Sum;
  }

  lemma SameVariance(xs: seq<real>, ys: seq<real>)
    requires |xs| >= 2 && multiset(ys) == multiset(xs)
    ensures |ys| == |xs| && Variance(ys) == Variance(xs) >= 0.0
  {
    OrderIndependent(Identity(), xs, ys);
    OrderIndependent(SquareFrom(Mean(xs)), xs, ys);
    SquaredDeviationsNonNegative(ys, Mean(ys));
    hide SumBy;
  }

  /** Samuelson's inequality on the fields: after any history every sample since the last
      reset, on either side, satisfies n * (x - avg)^2 <= (n - 1) * M2. */
  lemma EverySampleNearMean(h: seq<Event>, i: nat)
    requires |h| < TWO_32 && i < |Period(h)|
    ensures var d, n := After(h).det, After(h).det.elements as real;
            n * Square(Period(h)[i] - d.partialAvg) <= (n - 1.0) * d.partialStdDev
  {
    hide *;
    OnePassRefinesTwoPass(h);
    NearMean(After(h).det, Period(h), i);
  }

  lemma NearMean(d: Detector, xs: seq<real>, i: nat)
    requires Tracks(d, xs) && i < |xs|
    ensures var n := d.elements as real; n * Square(xs[i] - d.partialAvg) <= (n - 1.0) * d.partialStdDev
  {
    hide Sum, SquaredDeviations, Mean, Square;
    SamuelsonPointwise(xs, i);
  }

  /** The threshold over any interleaving of ticks, sigma changes and resets: 1 until the
      second sample of some period, then mean + sigma * stddev of the samples since the
      last reset as of the last sample that had two, with the sigma of that moment. */
  lemma {:induction false} ThresholdOverRun(h: seq<Event>)
    requires |h| < TWO_32 && RootsComputed(h)
    ensures var j := LastRecompute(h);
            if j == -1 then After(h).det.quakeThreshold == 1.0
            else
              && |Period(h[..j + 1])| >= 2
              && IsStdDev(h[j].input.root, Period(h[..j + 1]))
              && After(h).det.quakeThreshold == ThresholdFrom(Period(h[..j + 1]), h[j].input.root, Sigma(h[..j]))
  {
    if h != [] {
      var n := |h| - 1;
      var h0 := h[..n];
      assert h[..n + 1] == h;
      var j0 := LastRecompute(h0);
      if Recomputes(h, n) {
        assert LastRecompute(h) == n && Sigma(h) == Sigma(h0);
        hide *;
        RecomputedThreshold(h);
      } else {
        assert LastRecompute(h) == j0;
        hide *;
        RootsPrefix(h, n);
        ThresholdOverRun(h0);
        assert j0 >= 0 ==> h0[..j0 + 1] == h[..j0 + 1] && h0[..j0] == h[..j0] && h0[j0] == h[j0];
        ThresholdUnchanged(h);
      }
    } else {
      assert LastRecompute(h) == -1;
    }
  }

  lemma RootsPrefix(h: seq<Event>, n: nat)
    requires n <= |h| < TWO_32 && RootsComputed(h)
    ensures RootsComputed(h[..n])
  {
    forall i | 0 <= i < n ensures RootComputed(h[..n], i) {
      assert RootComputed(h, i) && h[..n][..i + 1] == h[..i + 1];
    }
  }

  lemma ThresholdUnchanged(h: seq<Event>)
    requires 0 < |h| < TWO_32 && !Recomputes(h, |h| - 1)
    ensures After(h).det.quakeThreshold == After(h[..|h| - 1]).det.quakeThreshold
  {
    assert h[..|h| - 1 + 1] == h;
    OnePassRefinesTwoPass(h);
    AfterLast(h);
    ThresholdStep(After(h[..|h| - 1]), h[|h| - 1]);
    var xs := Period(h);
    assert h[|h| - 1].Sample? ==> |xs| < 2;
    assert After(h).det.elements == |xs|;
    hide *;
  }

  lemma RecomputedThreshold(h: seq<Event>)
    requires 0 < |h| < TWO_32 && RootsComputed(h) && Recomputes(h, |h| - 1)
    ensures |Period(h)| >= 2 && IsStdDev(h[|h| - 1].input.root, Period(h))
    ensures After(h).det.quakeThreshold == ThresholdFrom(Period(h), h[|h| - 1].input.root, Sigma(h))
  {
    hide Sum, SquaredDeviations, Mean, After, Period, Step;
    var n := |h| - 1;
    assert h[..n + 1] == h;
    assert RootComputed(h, n);
    CurrentVarianceIsTwoPass(h, Period(h));
    var d := After(h).det;
    OnePassRefinesTwoPass(h);
    assert d.partialAvg == Mean(Period(h)) && d.sigmaIter == Sigma(h) && d.elements > 1;
    hide Tracks;
    AfterLast(h);
    ThresholdStep(After(h[..n]), h[n]);
  }

  /** How many of the samples xs can lie above q at the given sigma: Chebyshev's bound,
      the sharp one, and none at all under Samuelson's condition. */
  predicate FewAbove(xs: seq<real>, q: real, sigma: real) {
    var n, k := |xs|, CountAbove(xs, q);
    && k as real * Square(sigma) <= n as real - 1.0
    && (k > 0 ==> Fits(n, k, sigma))
    && (Square(n as real - 1.0) <= Square(sigma) * n as real ==> k == 0)
  }

  /** The threshold just computed bounds how many samples of its own period exceed it. */
  lemma RecomputedThresholdBounds(h: seq<Event>)
    requires 0 < |h| < TWO_32 && RootsComputed(h) && Recomputes(h, |h| - 1) && Sigma(h) >= 0.0
    ensures FewAbove(Period(h), After(h).det.quakeThreshold, Sigma(h))
  {
    assert h[|h| - 1].Sample?;
    hide *;
    RecomputedThreshold(h);
    FewAboveFromRoot(Period(h), h[|h| - 1].input.root, Sigma(h));
  }

  lemma FewAboveFromRoot(xs: seq<real>, root: real, sigma: real)
    requires |xs| >= 2 && sigma >= 0.0 && IsStdDev(root, xs)
    ensures FewAbove(xs, ThresholdFrom(xs, root, sigma), sigma)
  {
    hide CountAbove, Square, Mean;
    Chebyshev(xs, sigma, root);
    AboveThresholdBound(xs, sigma, root);
    if Square(|xs| as real - 1.0) <= Square(sigma) * |xs| as real { Samuelson(xs, sigma, root); }
  }

  /** At the default sigma no sample of a period of up to ten exceeds the new threshold... */
  lemma TenSamplesNeverExceed(h: seq<Event>)
    requires 0 < |h| < TWO_32 && RootsComputed(h) && Recomputes(h, |h| - 1) && Sigma(h) == 3.0
    requires |Period(h)| <= 10
    ensures CountAbove(Period(h), After(h).det.quakeThreshold) == 0
  {
    assert h[..|h| - 1 + 1] == h;
    hide Period, After, CountAbove, Square;
    RecomputedThresholdBounds(h);
    SmallPeriod(|Period(h)|);
  }

  lemma SmallPeriod(n: nat)
    requires 2 <= n <= 10
    ensures Square(n as real - 1.0) <= Square(3.0) * n as real
  {
    assert (n - 1) * (n - 1) <= 9 * n;
    assert ((n - 1) * (n - 1)) as real == (n - 1) as real * (n - 1) as real;
  }

  /** Whenever the sharp bound allows k samples above, a period of k spikes reaches it. */
  lemma SpikesExceed(h: seq<Event>, k: nat)
    requires 0 < |h| < TWO_32 && RootsComputed(h) && Recomputes(h, |h| - 1) && Sigma(h) >= 0.0
    requires 1 <= k < |Period(h)| && Fits(|Period(h)|, k, Sigma(h)) && Period(h) == Spike(|Period(h)|, k)
    ensures CountAbove(Period(h), After(h).det.quakeThreshold) == k
  {
    var xs, root, sigma := Period(h), h[|h| - 1].input.root, Sigma(h);
    assert xs != [] ==> ThresholdFrom(xs, root, sigma) == Mean(xs) + root * sigma;
    hide *;
    RecomputedThreshold(h);
    AboveThresholdSharp(|xs|, k, sigma, root);
  }

  /** ...and eleven samples are enough: a lone spike is above it. */
  lemma ElevenSamplesCanExceed(h: seq<Event>)
    requires 0 < |h| < TWO_32 && RootsComputed(h) && Recomputes(h, |h| - 1) && Sigma(h) == 3.0
    requires Period(h) == Spike(11, 1)
    ensures CountAbove(Period(h), After(h).det.quakeThreshold) == 1
  {
    assert Fits(11, 1, 3.0);
    hide *;
    assert |Period(h)| == 11;
    SpikesExceed(h, 1);
  }

  // ----- the alert stream -----

  /** Clock readings never go backwards. */
  ghost predicate Monotone(h: seq<Event>) {
    && (forall i :: 0 <= i < |h| && h[i].Sample? ==> h[i].input.InOrder())
    && (forall i, j :: 0 <= i < j < |h| && h[i].Sample? && h[j].Sample? ==> h[i].input.tAlert <= h[j].input.tProbe)
  }

  predicate OverAt(h: seq<Event>, i: nat)
    requires i < |h| < TWO_32
  {
    h[i].Sample? && h[i].input.accel > After(h[..i]).det.quakeThreshold
  }

  predicate AlertAt(h: seq<Event>, i: nat)
    requires i < |h| < TWO_32
  {
    StepAt(h, i).alert.Some?
  }

  /** Index of the latest alert, or -1. */
  function LastAlert(h: seq<Event>): (k: int)
    requires |h| < TWO_32
    ensures -1 <= k < |h|
  {
    if h == [] then -1
    else if AlertAt(h, |h| - 1) then |h| - 1
    else LastAlert(h[..|h| - 1])
  }

  lemma {:induction false} LastAlertIsLast(h: seq<Event>, i: nat)
    requires i < |h| < TWO_32
    ensures AlertAt(h, i) ==> i <= LastAlert(h)
    ensures LastAlert(h) >= 0 ==> AlertAt(h, LastAlert(h))
  {
    var n := |h| - 1;
    if !AlertAt(h, n) && n > 0 {
      LastAlertIsLast(h[..n], if i < n then i else 0);
      if i < n { StepAtPrefix(h, n, i); }
      if LastAlert(h) >= 0 { StepAtPrefix(h, n, LastAlert(h)); }
    }
  }

  /** Some tick in (l, n) has read the counter at least the hold-off after alert l. */
  ghost predicate Released(h: seq<Event>, l: nat, n: nat)
    requires l < |h| && n <= |h| && h[l].Sample?
  {
    exists r :: l < r < n && Releases(h, l, r)
  }

  predicate Releases(h: seq<Event>, l: nat, r: nat)
    requires l < |h| && r < |h| && h[l].Sample?
  {
    h[r].Sample? && Elapsed(Millis(h[r].input.tRelease), Millis(h[l].input.tAlert)) >= 5000
  }

  lemma ReleasedPrefix(h: seq<Event>, l: nat, n: nat)
    requires l < n < |h| && h[l].Sample?
    ensures Released(h[..n], l, n) <==> Released(h, l, n)
    ensures Released(h, l, n + 1) <==> Released(h, l, n) || Releases(h, l, n)
  {
    var h0 := h[..n];
    hide Elapsed, Millis;
    assert forall r :: l < r < n ==> Releases(h0, l, r) == Releases(h, l, r);
  }

  /** The detector is in an event exactly while no tick since the latest alert has seen the
      hold-off pass, and then lastEventWas is the stamp of that alert. */
  lemma {:induction false} InEventExactly(h: seq<Event>)
    requires |h| < TWO_32
    ensures var s, l := After(h), LastAlert(h);
            && (l >= 0 ==> h[l].Sample?)
            && (s.inEvent <==> l >= 0 && !Released(h, l, |h|))
            && (s.inEvent ==> s.lastEventWas == Millis(h[l].input.tAlert))
  {
    if h != [] {
      var n := |h| - 1;
      var h0, e := h[..n], h[n];
      InEventExactly(h0);
      AfterLast(h);
      var s0, l0 := After(h0), LastAlert(h0);
      EventStep(s0, e);
      assert LastAlert(h) == if AlertAt(h, n) then n else l0;
      hide After, Step, StepAt, LastAlert, Elapsed, Millis;
      if l0 >= 0 { ReleasedPrefix(h, l0, n); }
    } else {
      AfterNothing();
    }
  }

  /** The alert stream of every history, whatever its clock readings: a sample alerts if and
      only if it is over the threshold and some tick since the latest alert, this one
      included, has read the wrapped counter at least the hold-off after it. */
  lemma AlertsExactly(h: seq<Event>, j: nat)
    requires j < |h| < TWO_32
    ensures var l := LastAlert(h[..j]);
            AlertAt(h, j) <==> OverAt(h, j) && (l >= 0 ==> h[l].Sample? && Released(h, l, j + 1))
  {
    var h0, l := h[..j], LastAlert(h[..j]);
    InEventExactly(h0);
    EventStep(After(h0), h[j]);
    hide After, Step, LastAlert, Elapsed, Millis;
    if l >= 0 && h[j].Sample? { ReleasedPrefix(h, l, j); }
  }

  /** With a clock that does not go back the latest alert is really over once some tick has
      seen the hold-off pass. */
  lemma EventState(h: seq<Event>)
    requires |h| < TWO_32 && Monotone(h)
    ensures var s, l := After(h), LastAlert(h);
            && (l >= 0 ==> h[l].Sample?)
            && (s.inEvent ==> l >= 0 && s.lastEventWas == Millis(h[l].input.tAlert))
            && (!s.inEvent && l >= 0 ==>
                  exists r :: l < r < |h| && h[r].Sample? && h[r].input.tRelease >= h[l].input.tAlert + 5000)
  {
    InEventExactly(h);
    var l := LastAlert(h);
    hide After, LastAlert, Elapsed, Millis;
    if !After(h).inEvent && l >= 0 {
      var r :| l < r < |h| && Releases(h, l, r);
      InOrderAfter(h, l, r);
      ElapsedIsTrueTime(h[r].input.tRelease, h[l].input.tAlert);
    }
  }

  lemma ReleasedLate(s: State, i: TickInput, t: nat)
    requires s.lastEventWas == Millis(t) && t <= i.tRelease
    ensures s.inEvent && !HeldOff(s, i) ==> i.tRelease >= t + HOLD_OFF
    ensures s.inEvent && HeldOff(s, i) ==> (i.tRelease - t) % TWO_32 < HOLD_OFF
    ensures s.inEvent && HeldOff(s, i) && i.tRelease - t < TWO_32 ==> i.tRelease - t < HOLD_OFF
  {
    ElapsedIsTrueTime(i.tRelease, t);
    hide Elapsed, Millis;
  }

  /** Consecutive alerts are at least five seconds apart in true time, even when the
      counter wraps in between. */
  lemma AlertSpacing(h: seq<Event>, i: nat, j: nat)
    requires i < j < |h| < TWO_32 && Monotone(h) && AlertAt(h, i) && AlertAt(h, j)
    ensures h[i].Sample? && h[j].Sample?
    ensures h[j].input.tAlert >= h[j].input.tRelease >= h[i].input.tAlert + 5000
  {
    var hj := h[..j];
    EventState(hj);
    StepAtPrefix(h, j, i);
    LastAlertIsLast(hj, i);
    var l := LastAlert(hj);
    assert h[i].input.tAlert <= h[l].input.tAlert;
    if After(hj).inEvent {
      ElapsedIsTrueTime(h[j].input.tRelease, h[l].input.tAlert);
    } else {
      var r :| l < r < |hj| && hj[r].Sample? && hj[r].input.tRelease >= hj[l].input.tAlert + 5000;
      assert h[r] == hj[r];
    }
  }

  /** An over-threshold sample goes unalerted only within five seconds (on the wrapped
      counter) of the latest alert; and only over-threshold samples are alerted. */
  lemma UnalertedIsHeldOff(h: seq<Event>, j: nat)
    requires j < |h| < TWO_32 && Monotone(h)
    ensures AlertAt(h, j) ==> OverAt(h, j) && StepAt(h, j).alert == Some(Record(h[j].input.ts, h[j].input.accel, true))
    ensures OverAt(h, j) && !AlertAt(h, j) ==>
              var l := LastAlert(h[..j]);
              l >= 0 && h[l].Sample? && (h[j].input.tRelease - h[l].input.tAlert) % 0x1_0000_0000 < 5000
  {
    EventState(h[..j]);
    var l := LastAlert(h[..j]);
    if OverAt(h, j) && !AlertAt(h, j) { ElapsedIsTrueTime(h[j].input.tRelease, h[l].input.tAlert); }
  }

  /** No two consecutive samples are further apart than this. */
  ghost predicate Gaps(h: seq<Event>, bound: int) {
    forall i, j :: 0 <= i < j < |h| && h[i].Sample? && h[j].Sample? && (forall k :: i < k < j ==> !h[k].Sample?) ==>
      h[j].input.tRelease - h[i].input.tRelease <= bound
  }

  /** All samples in (l, n) were read within the hold-off of event l. */
  ghost predicate HeldSince(h: seq<Event>, l: nat, n: nat)
    requires l < |h| && n <= |h| && h[l].Sample?
  {
    forall p :: l < p < n && h[p].Sample? ==> h[p].input.tRelease - h[l].input.tAlert < HOLD_OFF
  }

  lemma {:induction false} HeldOffSinceAlert(h: seq<Event>)
    requires |h| < TWO_32 && Monotone(h) && Gaps(h, TWO_32 - HOLD_OFF)
    ensures var l := LastAlert(h);
            After(h).inEvent ==> l >= 0 && h[l].Sample? && HeldSince(h, l, |h|)
  {
    hide *;
    EventState(h);
    if h != [] {
      var n := |h| - 1;
      var h0, e := h[..n], h[n];
      PrefixGaps(h, n, TWO_32 - HOLD_OFF);
      PrefixMonotone(h, n);
      HeldOffSinceAlert(h0);
      EventState(h0);
      LastEventStep(h);
      var l0 := LastAlert(h0);
      if After(h).inEvent && !AlertAt(h, n) {
        SamePrefixHeld(h, l0, n);
        if e.Sample? {
          TrueElapsedBelowWrap(h, n);
          InOrderAfter(h, l0, n);
          ReleasedLate(After(h0), e.input, h[l0].input.tAlert);
        }
        ExtendHeld(h, l0);
      } else if After(h).inEvent {
        NothingSince(h, n);
      }
    } else {
      AfterNothing();
    }
  }

  lemma AfterNothing()
    ensures After([]) == INITIAL && !INITIAL.inEvent
  {
  }

  lemma PrefixMonotone(h: seq<Event>, n: nat)
    requires n <= |h| && Monotone(h)
    ensures Monotone(h[..n])
  {
  }

  lemma InOrderAfter(h: seq<Event>, l: nat, n: nat)
    requires l < n < |h| && Monotone(h) && h[l].Sample? && h[n].Sample?
    ensures h[l].input.tAlert <= h[n].input.tProbe <= h[n].input.tRelease
  {
  }

  lemma LastEventStep(h: seq<Event>)
    requires 0 < |h| < TWO_32
    ensures var n, h0 := |h| - 1, h[..|h| - 1];
            && LastAlert(h) == (if AlertAt(h, n) then n else LastAlert(h0))
            && (AlertAt(h, n) ==> h[n].Sample?)
            && After(h).inEvent == (|| AlertAt(h, n)
                                    || if h[n].Sample? then HeldOff(After(h0), h[n].input) else After(h0).inEvent)
            && (h[n].Sample? && HeldOff(After(h0), h[n].input) ==> After(h0).inEvent)
  {
    AfterLast(h);
    EventStep(After(h[..|h| - 1]), h[|h| - 1]);
    hide Step;
  }

  lemma NothingSince(h: seq<Event>, l: nat)
    requires l + 1 == |h| && h[l].Sample?
    ensures HeldSince(h, l, |h|)
  {
  }

  lemma SamePrefixHeld(h: seq<Event>, l: nat, n: nat)
    requires l < n <= |h| && h[l].Sample?
    ensures HeldSince(h[..n], l, n) <==> HeldSince(h, l, n)
  {
    assert forall p :: l <= p < n ==> h[..n][p] == h[p];
  }

  lemma ExtendHeld(h: seq<Event>, l: nat)
    requires l + 1 < |h| && h[l].Sample? && HeldSince(h, l, |h| - 1)
    requires h[|h| - 1].Sample? ==> h[|h| - 1].input.tRelease - h[l].input.tAlert < HOLD_OFF
    ensures HeldSince(h, l, |h|)
  {
  }

  lemma PrefixGaps(h: seq<Event>, n: nat, bound: int)
    requires n <= |h| && Gaps(h, bound)
    ensures Gaps(h[..n], bound)
  {
    var h0 := h[..n];
    forall i, j | 0 <= i < j < n && h0[i].Sample? && h0[j].Sample? && (forall k :: i < k < j ==> !h0[k].Sample?)
      ensures h0[j].input.tRelease - h0[i].input.tRelease <= bound
    {
      assert forall k :: i < k < j ==> h[k] == h0[k];
    }
  }

  /** Index of the latest sample at or after l. */
  function LastSample(h: seq<Event>, l: nat): (p: nat)
    requires l < |h| && h[l].Sample?
    ensures l <= p < |h| && h[p].Sample? && forall k :: p < k < |h| ==> !h[k].Sample?
    decreases |h|
  {
    if h[|h| - 1].Sample? then |h| - 1 else LastSample(h[..|h| - 1], l)
  }

  lemma TrueElapsedBelowWrap(h: seq<Event>, n: nat)
    requires n < |h| < TWO_32 && Monotone(h) && Gaps(h, TWO_32 - HOLD_OFF)
    requires h[n].Sample? && After(h[..n]).inEvent && LastAlert(h[..n]) >= 0 && h[LastAlert(h[..n])].Sample?
    requires HeldSince(h, LastAlert(h[..n]), n)
    ensures 0 <= h[n].input.tRelease - h[LastAlert(h[..n])].input.tAlert < TWO_32
  {
    var l := LastAlert(h[..n]);
    var p := LastSample(h[..n], l);
    assert h[p] == h[..n][p];
    assert forall k :: p < k < n ==> !h[k].Sample? by { assert forall k :: p < k < n ==> h[k] == h[..n][k]; }
    assert h[n].input.tRelease - h[p].input.tRelease <= TWO_32 - HOLD_OFF;
  }

  /** Sample j is read at least five seconds of true time after every earlier alert. */
  ghost predicate ClearOfAlerts(h: seq<Event>, j: nat)
    requires j < |h| < TWO_32
  {
    forall i :: 0 <= i < j && AlertAt(h, i) ==>
      h[i].Sample? && h[j].Sample? && h[j].input.tRelease - h[i].input.tAlert >= 5000
  }

  /** The alerts are the greedy selection of over-threshold samples with a five-second
      hold-off in true time, as long as ticks are less than 2^32 - 5000 ms apart. */
  lemma AlertsAreGreedy(h: seq<Event>, j: nat)
    requires j < |h| < TWO_32 && Monotone(h) && Gaps(h, 0x1_0000_0000 - 5000)
    ensures AlertAt(h, j) <==> OverAt(h, j) && ClearOfAlerts(h, j)
  {
    if AlertAt(h, j) {
      UnalertedIsHeldOff(h, j);
      forall i | 0 <= i < j && AlertAt(h, i)
        ensures h[i].Sample? && h[j].input.tRelease - h[i].input.tAlert >= 5000
      {
        AlertSpacing(h, i, j);
      }
    } else if OverAt(h, j) && After(h[..j]).inEvent {
      var hj := h[..j];
      PrefixGaps(h, j, TWO_32 - HOLD_OFF);
      HeldOffSinceAlert(hj);
      EventState(hj);
      var l := LastAlert(hj);
      LastAlertIsLast(hj, l);
      StepAtPrefix(h, j, l);
      SamePrefixHeld(h, l, j);
      TrueElapsedBelowWrap(h, j);
      ElapsedIsTrueTime(h[j].input.tRelease, h[l].input.tAlert);
    }
  }

  function At(accel: real, t: nat): Event {
    Sample(TickInput(accel, 0.0, 0, t, t, t, t, t))
  }

  /** The alerts of every history whose samples are at most `bound` apart are greedy. */
  ghost predicate Greedy(bound: int) {
    forall h: seq<Event>, j: nat ::
      j < |h| < TWO_32 && Monotone(h) && RootsComputed(h) && Gaps(h, bound) ==>
        (AlertAt(h, j) <==> OverAt(h, j) && ClearOfAlerts(h, j))
  }

  /** One millisecond more than 2^32 - 5000 ms and the selection is no longer greedy: a strong
      sample 2^32 ms after the alert is taken for one in the same event. */
  lemma GreedyExactly(bound: int)
    ensures Greedy(bound) <==> bound <= 0x1_0000_0000 - 5000
  {
    hide Greedy, Monotone, RootsComputed, Gaps, AlertAt, OverAt, ClearOfAlerts, At;
    if bound <= TWO_32 - HOLD_OFF {
      assert Greedy(bound) by { SmallGapsAreGreedy(bound); }
    } else {
      var h := [At(2.0, 0), At(2.0, 4999), PeriodReset, At(3.0, TWO_32)];
      SharpShape();
      SharpStates();
      WiderGaps(h, TWO_32 - HOLD_OFF + 1, bound);
      NotGreedy(h, 3, bound);
    }
  }

  lemma SmallGapsAreGreedy(bound: int)
    requires bound <= TWO_32 - HOLD_OFF
    ensures Greedy(bound)
  {
    hide Monotone, RootsComputed, Gaps, AlertAt, OverAt, ClearOfAlerts;
    forall h: seq<Event>, j: nat | j < |h| < TWO_32 && Monotone(h) && RootsComputed(h) && Gaps(h, bound)
      ensures AlertAt(h, j) <==> OverAt(h, j) && ClearOfAlerts(h, j)
    {
      WiderGaps(h, bound, TWO_32 - HOLD_OFF);
      AlertsAreGreedy(h, j);
    }
  }

  lemma NotGreedy(h: seq<Event>, j: nat, bound: int)
    requires j < |h| < TWO_32 && Monotone(h) && RootsComputed(h) && Gaps(h, bound)
    requires OverAt(h, j) && ClearOfAlerts(h, j) && !AlertAt(h, j)
    ensures !Greedy(bound)
  {
    hide Monotone, RootsComputed, Gaps, AlertAt, OverAt, ClearOfAlerts;
  }

  lemma WiderGaps(h: seq<Event>, a: int, b: int)
    requires Gaps(h, a) && a <= b
    ensures Gaps(h, b)
  {
  }

  lemma SharpShape()
    ensures var h := [At(2.0, 0), At(2.0, 4999), PeriodReset, At(3.0, TWO_32)];
            Monotone(h) && Gaps(h, TWO_32 - HOLD_OFF + 1)
  {
    var h := [At(2.0, 0), At(2.0, 4999), PeriodReset, At(3.0, TWO_32)];
    assert h[1].Sample?;
    forall i, j | 0 <= i < j < 4 && h[i].Sample? && h[j].Sample? && (forall k :: i < k < j ==> !h[k].Sample?)
      ensures h[j].input.tRelease - h[i].input.tRelease <= TWO_32 - HOLD_OFF + 1
    {
      var mid := h[1];
      assert mid.Sample?;
    }
  }

  lemma SharpStates()
    ensures var h := [At(2.0, 0), At(2.0, 4999), PeriodReset, At(3.0, TWO_32)];
            RootsComputed(h) && OverAt(h, 3) && ClearOfAlerts(h, 3) && !AlertAt(h, 3)
  {
    var h := [At(2.0, 0), At(2.0, 4999), PeriodReset, At(3.0, TWO_32)];
    hide Step;
    var s0, s1, s2, s3 := After(h[..0]), After(h[..1]), After(h[..2]), After(h[..3]);
    assert s0 == INITIAL;
    hide After;
    AfterStep(h, 0);
    AfterStep(h, 1);
    AfterStep(h, 2);
    AfterStep(h, 3);
    SharpSteps();
    assert forall i :: 0 <= i < 4 ==> RootComputed(h, i);
  }

  lemma SharpSteps()
    ensures var s1 := State(Detector(2.0, 0.0, 1, 1.0, 3.0), true, 0, 0, 1, 0);
            var s2 := State(Detector(2.0, 0.0, 2, 2.0, 3.0), true, 0, 4999, 0, 2);
            var s3 := s2.(det := Detector(0.0, 0.0, 0, 2.0, 3.0));
            && Step(INITIAL, At(2.0, 0)).state == s1
            && Step(s1, At(2.0, 4999)) == TickResult(s2, Some(2), None)
            && s2.det.Variance() == 0.0
            && Step(s2, PeriodReset) == TickResult(s3, None, None)
            && Step(s3, At(3.0, TWO_32)).alert == None && Step(s3, At(3.0, TWO_32)).state.det.elements == 1
  {
    assert AddValue(INITIAL.det, 2.0, 0.0) == Detector(2.0, 0.0, 1, 1.0, 3.0);
    assert AddValue(Detector(2.0, 0.0, 1, 1.0, 3.0), 2.0, 0.0) == Detector(2.0, 0.0, 2, 2.0, 3.0);
  }

  // ----- the probe counter -----

  /** The values of statProbeSpeed that were published, in order. */
  function Published(h: seq<Event>): (ps: seq<Word32>)
    requires |h| < TWO_32
  {
    if h == [] then []
    else
      var before := Published(h[..|h| - 1]);
      var p := StepAt(h, |h| - 1).published;
      if p.Some? then before + [p.value] else before
  }

  function Total(ps: seq<Word32>): nat {
    if ps == [] then 0 else Total(ps[..|ps| - 1]) + ps[|ps| - 1]
  }

  function Ticks(h: seq<Event>): nat {
    if h == [] then 0 else Ticks(h[..|h| - 1]) + if h[|h| - 1].Sample? then 1 else 0
  }

  /** No tick is lost or counted twice, and statProbeSpeed is the latest published value. */
  lemma {:induction false} ProbeConservation(h: seq<Event>)
    requires |h| < TWO_32
    ensures Ticks(h) == Total(Published(h)) + After(h).statLastCounter
    ensures var ps := Published(h); After(h).statProbeSpeed == if ps == [] then 0 else ps[|ps| - 1]
  {
    if h != [] {
      var h0 := h[..|h| - 1];
      ProbeConservation(h0);
      AfterLast(h);
      ProbeStep(After(h0), h[|h| - 1]);
      var ps, ps0 := Published(h), Published(h0);
      assert ps == ps0 || ps[..|ps| - 1] == ps0;
      hide Step, After, Elapsed, Millis;
    }
  }

  /** How the main loop spaces ticks: 50 ms from the end of one to the start of the next. */
  ghost predicate Spaced(h: seq<Event>) {
    forall i, j :: 0 <= i < j < |h| && h[i].Sample? && h[j].Sample? ==> h[j].input.tProbe >= h[i].input.tAlert + 50
  }

  ghost predicate ProbeGaps(h: seq<Event>) {
    forall i, j :: 0 <= i < j < |h| && h[i].Sample? && h[j].Sample? && (forall k :: i < k < j ==> !h[k].Sample?) ==>
      h[j].input.tProbe - h[i].input.tProbe < TWO_32 - PROBE_PERIOD
  }

  /** True time at which the current counting period began: the last publication, or the
      last wrap of the counter before the first tick. */
  function Anchor(h: seq<Event>): nat
    requires |h| < TWO_32
  {
    if h == [] then 0
    else
      var h0, e := h[..|h| - 1], h[|h| - 1];
      if StepAt(h, |h| - 1).published.Some? then e.input.tStamp
      else if e.Sample? && Ticks(h0) == 0 then e.input.tProbe / TWO_32 * TWO_32
      else Anchor(h0)
  }

  /** c ticks have been counted since the anchor a; p is the latest tick. */
  ghost predicate Counting(h: seq<Event>, p: nat, first: bool, a: nat, c: nat)
    requires p < |h| && h[p].Sample?
  {
    if c == 0 then a == h[p].input.tStamp
    else a + 50 * c - (if first then 50 else 0) <= h[p].input.tProbe <= a + PROBE_PERIOD
  }

  ghost predicate BoundedSpeeds(ps: seq<Word32>) {
    (|ps| > 0 ==> ps[0] <= 22) && forall i :: 1 <= i < |ps| ==> ps[i] <= 21
  }

  ghost predicate ProbeInvariant(h: seq<Event>)
    requires |h| < TWO_32
  {
    var s, ps, a := After(h), Published(h), Anchor(h);
    && s.statLastCounterTime == Millis(a)
    && BoundedSpeeds(ps)
    && if Ticks(h) == 0 then ps == [] && a == 0 && s.statLastCounter == 0 && s.statLastCounterTime == 0
       else exists p :: LatestSample(h, p) && Counting(h, p, ps == [], a, s.statLastCounter)
  }

  ghost predicate LatestSample(h: seq<Event>, p: nat) {
    p < |h| && h[p].Sample? && forall k :: p < k < |h| ==> !h[k].Sample?
  }

  lemma {:induction false} ProbeState(h: seq<Event>)
    requires |h| < TWO_32 && Monotone(h) && Spaced(h) && ProbeGaps(h)
    ensures ProbeInvariant(h)
  {
    if h != [] {
      hide *;
      PrefixProbe(h, |h| - 1);
      ProbeState(h[..|h| - 1]);
      ProbeStateStep(h);
    } else {
      assert ProbeInvariant([]) by { hide ProbeGaps, Spaced, Monotone; }
    }
  }

  lemma ProbeStateStep(h: seq<Event>)
    requires 0 < |h| < TWO_32 && Monotone(h) && Spaced(h) && ProbeGaps(h) && ProbeInvariant(h[..|h| - 1])
    ensures ProbeInvariant(h)
  {
    var n := |h| - 1;
    var h0, e := h[..n], h[n];
    LastProbeStep(h);
    var s0, s, c := After(h0), After(h), After(h0).statLastCounter;
    var ps0, a0 := Published(h0), Anchor(h0);
    hide After, Published, Anchor, Ticks, Spaced, ProbeGaps, Monotone, Millis, Elapsed;
    hide Publishes, Counting, BoundedSpeeds;
    if Ticks(h0) > 0 {
      var p :| LatestSample(h0, p) && Counting(h0, p, ps0 == [], a0, c);
      PrefixCounting(h, n, p, ps0 == [], a0, c);
      if e.Sample? {
        ProbeSpacing(h, p, n);
        NextCount(s0, h, p, n, ps0 == [], a0, c);
        AppendSpeed(ps0, c + 1);
        assert LatestSample(h, n);
      } else {
        assert LatestSample(h, p);
      }
    } else if e.Sample? {
      FirstProbe(e.input.tProbe);
      FirstCount(s0, h, n, Published(h) == [], Anchor(h), s.statLastCounter);
      AppendSpeed(ps0, 1);
      assert LatestSample(h, n);
    }
  }

  lemma AppendSpeed(ps: seq<Word32>, v: Word32)
    requires BoundedSpeeds(ps) && v <= if ps == [] then 22 else 21
    ensures BoundedSpeeds(ps + [v])
  {
  }

  lemma PrefixCounting(h: seq<Event>, n: nat, p: nat, first: bool, a: nat, c: nat)
    requires n + 1 == |h| && LatestSample(h[..n], p) && Counting(h[..n], p, first, a, c)
    ensures h[p].Sample? && Counting(h, p, first, a, c)
    ensures forall k :: p < k < n ==> !h[k].Sample?
    ensures !h[n].Sample? ==> LatestSample(h, p)
  {
    assert forall k :: 0 <= k < n ==> h[..n][k] == h[k];
  }

  lemma ProbeSpacing(h: seq<Event>, p: nat, n: nat)
    requires p < n < |h| && h[p].Sample? && h[n].Sample? && (forall k :: p < k < n ==> !h[k].Sample?)
    requires Monotone(h) && Spaced(h) && ProbeGaps(h)
    ensures h[p].input.InOrder() && h[n].input.InOrder()
    ensures 50 <= h[n].input.tProbe - h[p].input.tAlert && h[n].input.tProbe - h[p].input.tProbe < TWO_32 - PROBE_PERIOD
  {
  }

  lemma LastProbeStep(h: seq<Event>)
    requires 0 < |h| < TWO_32
    ensures var n, h0, e := |h| - 1, h[..|h| - 1], h[|h| - 1];
            var s0, s := After(h0), After(h);
            && Ticks(h) == Ticks(h0) + (if e.Sample? then 1 else 0)
            && (if e.Sample? && Publishes(s0, e.input) then
                  && Published(h) == Published(h0) + [s0.statLastCounter + 1] && Anchor(h) == e.input.tStamp
                  && s.statLastCounter == 0 && s.statLastCounterTime == Millis(e.input.tStamp)
                else
                  && Published(h) == Published(h0) && s.statLastCounterTime == s0.statLastCounterTime
                  && s.statLastCounter == s0.statLastCounter + (if e.Sample? then 1 else 0)
                  && Anchor(h) == if e.Sample? && Ticks(h0) == 0 then e.input.tProbe / TWO_32 * TWO_32 else Anchor(h0))
  {
    AfterLast(h);
    ProbeStep(After(h[..|h| - 1]), h[|h| - 1]);
    hide Step, Publishes;
  }

  lemma FirstCount(s: State, h: seq<Event>, n: nat, first: bool, a: nat, c: nat)
    requires n < |h| && h[n].Sample? && s.statLastCounterTime == 0
    requires if Publishes(s, h[n].input) then !first && a == h[n].input.tStamp && c == 0
             else first && a == h[n].input.tProbe / TWO_32 * TWO_32 && c == 1
    ensures Counting(h, n, first, a, c)
  {
    FirstProbe(h[n].input.tProbe);
  }

  /** The next tick j after p either publishes at most 21 (22 the first time) or counts on. */
  lemma NextCount(s: State, h: seq<Event>, p: nat, j: nat, first: bool, a: nat, c: nat)
    requires p < j < |h| && h[p].Sample? && h[j].Sample? && h[p].input.InOrder() && h[j].input.InOrder()
    requires Counting(h, p, first, a, c) && s.statLastCounterTime == Millis(a)
    requires 50 <= h[j].input.tProbe - h[p].input.tAlert
    requires h[j].input.tProbe - h[p].input.tProbe < TWO_32 - PROBE_PERIOD
    ensures c + 1 <= if first then 22 else 21
    ensures Publishes(s, h[j].input) ==> Counting(h, j, false, h[j].input.tStamp, 0)
    ensures !Publishes(s, h[j].input) ==> Counting(h, j, first, a, c + 1)
  {
    ElapsedIsTrueTime(h[j].input.tProbe, a);
    hide Elapsed, Millis;
  }

  lemma FirstProbe(t: nat)
    ensures t / TWO_32 * TWO_32 <= t
    ensures Millis(t / TWO_32 * TWO_32) == 0
    ensures Elapsed(Millis(t), 0) == t - t / TWO_32 * TWO_32
  {
    var a := t / TWO_32 * TWO_32;
    assert a % TWO_32 == 0;
  }

  lemma PrefixProbe(h: seq<Event>, n: nat)
    requires n <= |h| && Monotone(h) && Spaced(h) && ProbeGaps(h)
    ensures Monotone(h[..n]) && Spaced(h[..n]) && ProbeGaps(h[..n])
  {
    var h0 := h[..n];
    forall i, j | 0 <= i < j < n && h0[i].Sample? && h0[j].Sample? && (forall k :: i < k < j ==> !h0[k].Sample?)
      ensures h0[j].input.tProbe - h0[i].input.tProbe < TWO_32 - PROBE_PERIOD
    {
      assert forall k :: i < k < j ==> h[k] == h0[k];
    }
  }

  /** After the first publication no published speed exceeds 21 samples a second (the
      first may be 22). */
  lemma ProbeSpeedBound(h: seq<Event>, i: nat)
    requires |h| < TWO_32 && Monotone(h) && Spaced(h) && ProbeGaps(h) && i < |Published(h)|
    ensures Published(h)[i] <= if i == 0 then 22 else 21
  {
    ProbeState(h);
  }

  // ----- when a probe speed is published -----

  predicate PublishesAt(h: seq<Event>, i: nat)
    requires i < |h| < TWO_32
  {
    StepAt(h, i).published.Some?
  }

  /** Index of the latest publication, or -1. */
  function LastPublication(h: seq<Event>): (k: int)
    requires |h| < TWO_32
    ensures -1 <= k < |h|
  {
    if h == [] then -1
    else if PublishesAt(h, |h| - 1) then |h| - 1
    else LastPublication(h[..|h| - 1])
  }

  lemma {:induction false} LastPublicationIsLast(h: seq<Event>, i: nat)
    requires i < |h| < TWO_32
    ensures PublishesAt(h, i) ==> i <= LastPublication(h)
    ensures LastPublication(h) >= 0 ==> PublishesAt(h, LastPublication(h))
  {
    var n := |h| - 1;
    if !PublishesAt(h, n) && n > 0 {
      LastPublicationIsLast(h[..n], if i < n then i else 0);
      if i < n { StepAtPrefix(h, n, i); }
      if LastPublication(h) >= 0 { StepAtPrefix(h, n, LastPublication(h)); }
    }
  }

  /** The counting period began at the latest publication, and the counter holds the ticks since. */
  lemma {:induction false} CountingSince(h: seq<Event>)
    requires |h| < TWO_32
    ensures var s, l := After(h), LastPublication(h);
            && (l >= 0 ==> h[l].Sample?)
            && s.statLastCounterTime == (if l < 0 then 0 else Millis(h[l].input.tStamp))
            && s.statLastCounter == Ticks(h) - Ticks(h[..l + 1])
  {
    if h != [] {
      var n := |h| - 1;
      var h0, e := h[..n], h[n];
      CountingSince(h0);
      AfterLast(h);
      ProbeStep(After(h0), e);
      var l0 := LastPublication(h0);
      assert h[..n + 1] == h && h0[..l0 + 1] == h[..l0 + 1];
      hide After, Step, Elapsed, Millis, Publishes;
    }
  }

  /** A sample publishes if and only if the wrapped counter shows more than 1000 ms since the stamp of
      the latest publication; the value is the number of samples since that one. */
  lemma PublishesExactly(h: seq<Event>, j: nat)
    requires j < |h| < TWO_32 && Monotone(h)
    ensures var l := LastPublication(h[..j]);
            && (l >= 0 ==> h[l].Sample?)
            && (PublishesAt(h, j) <==>
                  h[j].Sample? && (h[j].input.tProbe - if l < 0 then 0 else h[l].input.tStamp) % TWO_32 > 1000)
            && (PublishesAt(h, j) ==> StepAt(h, j).published == Some(Ticks(h[..j + 1]) - Ticks(h[..l + 1])))
  {
    PublishesWrapped(h, j);
    hide *;
    var l := LastPublication(h[..j]);
    if h[j].Sample? {
      if l >= 0 { SampleOrder(h, l, j); }
      ElapsedSince(h[j].input.tProbe, if l < 0 then 0 else h[l].input.tStamp);
    }
  }

  lemma ElapsedSince(now: nat, since: nat)
    requires since <= now
    ensures Elapsed(Millis(now), Millis(since)) == (now - since) % TWO_32 && Millis(0) == 0
  {
    ElapsedIsTrueTime(now, since);
  }

  lemma PublishesWrapped(h: seq<Event>, j: nat)
    requires j < |h| < TWO_32
    ensures var l := LastPublication(h[..j]);
            && (l >= 0 ==> h[l].Sample?)
            && (PublishesAt(h, j) <==>
                  && h[j].Sample?
                  && Elapsed(Millis(h[j].input.tProbe), if l < 0 then 0 else Millis(h[l].input.tStamp)) > 1000)
            && (PublishesAt(h, j) ==> StepAt(h, j).published == Some(Ticks(h[..j + 1]) - Ticks(h[..l + 1])))
  {
    var h0, l := h[..j], LastPublication(h[..j]);
    CountingSince(h0);
    ProbeStep(After(h0), h[j]);
    assert h0[..l + 1] == h[..l + 1] && h[..j + 1][..j] == h0;
    TicksStep(h[..j + 1]);
    hide After, Step, LastPublication, Ticks, Elapsed, Millis;
  }

  lemma SampleOrder(h: seq<Event>, l: nat, j: nat)
    requires l < j < |h| && Monotone(h) && h[l].Sample? && h[j].Sample?
    ensures h[l].input.tProbe <= h[l].input.tStamp <= h[l].input.tAlert <= h[j].input.tProbe <= h[j].input.tStamp
  {
  }

  lemma TicksStep(h: seq<Event>)
    requires h != []
    ensures Ticks(h) == Ticks(h[..|h| - 1]) + if h[|h| - 1].Sample? then 1 else 0
  {
  }

  lemma PublishesLate(h: seq<Event>, l: int, j: nat)
    requires j < |h| < TWO_32 && Monotone(h) && PublishesAt(h, j) && l == LastPublication(h[..j]) >= 0
    ensures h[l].Sample? && h[j].Sample? && h[j].input.tProbe > h[l].input.tStamp + 1000
    ensures StepAt(h, j).published == Some(Ticks(h[..j + 1]) - Ticks(h[..l + 1]))
  {
    PublishesExactly(h, j);
    hide *;
    SampleOrder(h, l, j);
    Remainder(h[j].input.tProbe - h[l].input.tStamp);
  }

  lemma Remainder(d: nat)
    ensures d % TWO_32 <= d
  {
  }

  /** Two publications are more than a second of true time apart. */
  lemma PublicationSpacing(h: seq<Event>, i: nat, j: nat)
    requires i < j < |h| < TWO_32 && Monotone(h) && PublishesAt(h, i) && PublishesAt(h, j)
    ensures h[i].Sample? && h[j].Sample? && h[j].input.tProbe > h[i].input.tStamp + 1000
  {
    PublishesExactly(h, i);
    StepAtPrefix(h, j, i);
    assert PublishesAt(h[..j], i);
    hide *;
    LastPublicationIsLast(h[..j], i);
    var l := LastPublication(h[..j]);
    PublishesLate(h, l, j);
    if i < l { SampleOrder(h, i, l); }
  }

  /** Samples follow one another within g ms. */
  ghost predicate Paced(h: seq<Event>, g: nat) {
    forall i, j :: 0 <= i < j < |h| && h[i].Sample? && h[j].Sample? && (forall k :: i < k < j ==> !h[k].Sample?) ==>
      h[j].input.tProbe - h[i].input.tProbe <= g
  }

  function Span(n: nat, g: nat): nat { n * g }

  /** n samples at most g ms apart span at most n * g ms. */
  lemma {:induction false} TicksSpan(h: seq<Event>, l: nat, j: nat, g: nat)
    requires l <= j < |h| && h[l].Sample? && h[j].Sample? && Paced(h, g)
    ensures Ticks(h[..j + 1]) >= Ticks(h[..l + 1])
    ensures h[j].input.tProbe - h[l].input.tProbe <= Span(Ticks(h[..j + 1]) - Ticks(h[..l + 1]), g)
    decreases j
  {
    hide *;
    OneMore(0, g);
    if l < j {
      var p := PreviousSample(h, l, j);
      PacedStep(h, p, j, g);
      TicksSpan(h, l, p, g);
      NoTicksBetween(h, p, j);
      OneMore(Ticks(h[..p + 1]) - Ticks(h[..l + 1]), g);
    }
  }

  lemma PreviousSample(h: seq<Event>, l: nat, j: nat) returns (p: nat)
    requires l < j < |h| && h[l].Sample?
    ensures l <= p < j && h[p].Sample? && forall k :: p < k < j ==> !h[k].Sample?
  {
    p := LastSample(h[..j], l);
    assert h[p] == h[..j][p] && forall k :: p < k < j ==> h[k] == h[..j][k];
  }

  lemma PacedStep(h: seq<Event>, p: nat, j: nat, g: nat)
    requires p < j < |h| && h[p].Sample? && h[j].Sample? && Paced(h, g)
    requires forall k :: p < k < j ==> !h[k].Sample?
    ensures h[j].input.tProbe - h[p].input.tProbe <= g
  {
  }

  lemma OneMore(n: nat, g: nat)
    ensures Span(0, g) == 0 && Span(n + 1, g) == Span(n, g) + g
  {
  }

  lemma {:induction false} NoTicksBetween(h: seq<Event>, p: nat, j: nat)
    requires p < j < |h| && h[j].Sample? && forall k :: p < k < j ==> !h[k].Sample?
    ensures Ticks(h[..j + 1]) == Ticks(h[..p + 1]) + 1
  {
    SameTicks(h, p + 1, j);
    assert h[..j + 1][..j] == h[..j];
    TicksStep(h[..j + 1]);
  }

  lemma {:induction false} SameTicks(h: seq<Event>, p: nat, j: nat)
    requires p <= j <= |h| && forall k :: p <= k < j ==> !h[k].Sample?
    ensures Ticks(h[..j]) == Ticks(h[..p])
    decreases j
  {
    if p < j {
      SameTicks(h, p, j - 1);
      assert h[..j][..j - 1] == h[..j - 1];
    }
  }

  /** With samples at most g ms apart, taken instantaneously, every speed after the first is more
      than 1000 / g: at 50 ms it is 21, no more and no less. */
  lemma ProbeSpeedFloor(h: seq<Event>, j: nat, g: nat)
    requires j < |h| < TWO_32 && Monotone(h) && Paced(h, g)
    requires forall i :: 0 <= i < |h| && h[i].Sample? ==> h[i].input.tProbe == h[i].input.tStamp
    requires PublishesAt(h, j) && LastPublication(h[..j]) >= 0
    ensures StepAt(h, j).published.value * g > 1000
  {
    hide Monotone, Paced, PublishesAt, StepAt, LastPublication, Ticks;
    var l := LastPublication(h[..j]);
    PublishesLate(h, l, j);
    TicksSpan(h, l, j, g);
    assert Span(Ticks(h[..j + 1]) - Ticks(h[..l + 1]), g) > 1000;
  }

  // ----- the seismometer object -----

  class Seismometer {
    const hasAccelerometer: bool
    var inEvent: bool
    var lastEventWas: Word32
    var partialAvg: real
    var partialStdDev: real
    var elements: Word32
    var quakeThreshold: real
    var sigmaIter: real
    var statLastCounterTime: Word32
    var statLastCounter: Word32
    var statProbeSpeed: Word32
    /** Everything that has happened to this object. */
    ghost var history: seq<Event>

    function Det(): Detector
      reads this
    {
      Detector(partialAvg, partialStdDev, elements, quakeThreshold, sigmaIter)
    }

    function View(): State
      reads this
    {
      State(Det(), inEvent, lastEventWas, statLastCounterTime, statLastCounter, statProbeSpeed)
    }

    ghost predicate Valid()
      reads this
    {
      |history| < TWO_32 && View() == After(history)
    }

    constructor (hasAccelerometer: bool)
      ensures Valid() && history == [] && this.hasAccelerometer == hasAccelerometer
    {
      this.hasAccelerometer := hasAccelerometer;
      inEvent, lastEventWas := false, 0;
      partialAvg, partialStdDev, elements := 0.0, 0.0, 0;
      quakeThreshold, sigmaIter := 1.0, 3.0;
      statLastCounterTime, statLastCounter, statProbeSpeed := 0, 0, 0;
      history := [];
    }

    method AddValueToAvgVar(val: real, root: real)
      requires elements < TWO_32 - 1
      modifies `elements, `partialAvg, `partialStdDev, `quakeThreshold
      ensures Det() == AddValue(old(Det()), val, root)
    {
      ghost var d := AddValue(Det(), val, root);
      elements := elements + 1;
      var delta := val - partialAvg;
      partialAvg := partialAvg + delta / elements as real;
      assert partialAvg == d.partialAvg;
      partialStdDev := partialStdDev + delta * (val - partialAvg);
      assert partialStdDev == d.partialStdDev;
      if elements > 1 {
        quakeThreshold := partialAvg + root * sigmaIter;
      }
    }

    /** Without an accelerometer a tick does nothing. */
    method TickOnce(i: TickInput) returns (alert: Option<Record>)
      requires Valid() && |history| < TWO_32 - 1
      modifies this
      ensures Valid()
      ensures history == if hasAccelerometer then old(history) + [Sample(i)] else old(history)
      ensures hasAccelerometer ==> alert == StepAt(history, |history| - 1).alert
      ensures !hasAccelerometer ==> alert == None && View() == old(View())
    {
      if !hasAccelerometer { return None; }
      alert := TickBody(i);
      history := history + [Sample(i)];
      assert history[..|history| - 1] == old(history);
      AfterLast(history);
    }

    method TickBody(i: TickInput) returns (alert: Option<Record>)
      requires elements < TWO_32 - 1
      modifies this
      ensures history == old(history)
      ensures View() == Tick(old(View()), i).state && alert == Tick(old(View()), i).alert
    {
      hide AddValue, Elapsed, Millis;
      alert := None;
      var overThreshold := i.accel > quakeThreshold;
      AddValueToAvgVar(i.accel, i.root);
      statLastCounter := (statLastCounter + 1) % TWO_32;
      if Elapsed(Millis(i.tProbe), statLastCounterTime) > PROBE_PERIOD {
        statProbeSpeed := statLastCounter;
        statLastCounter := 0;
        statLastCounterTime := Millis(i.tStamp);
      }
      if inEvent && Elapsed(Millis(i.tRelease), lastEventWas) >= HOLD_OFF {
        inEvent := false;
      } else if inEvent && Elapsed(Millis(i.tHold), lastEventWas) < HOLD_OFF {
        return;
      }
      if overThreshold && !inEvent {
        inEvent := true;
        lastEventWas := Millis(i.tAlert);
        alert := Some(Record(i.ts, i.accel, overThreshold));
      }
    }

    method SetSigmaIter(sigma: real)
      requires Valid() && |history| < TWO_32 - 1
      modifies this
      ensures Valid() && history == old(history) + [SigmaSet(sigma)]
    {
      sigmaIter := sigma;
      history := history + [SigmaSet(sigma)];
      assert history[..|history| - 1] == old(history);
    }

    method ResetLastPeriod()
      requires Valid() && |history| < TWO_32 - 1
      modifies this
      ensures Valid() && history == old(history) + [PeriodReset]
    {
      partialAvg := 0.0;
      partialStdDev := 0.0;
      elements := 0;
      history := history + [PeriodReset];
      assert history[..|history| - 1] == old(history);
    }
  }

  /** Utils::stddev up to the final root: the two-pass loop. */
  method TwoPassRadicand(buf: array<real>, size: nat, avg: real) returns (r: real)
    requires size <= buf.Length && size != 1
    ensures r == SquaredDeviations(buf[..size], avg) / (size - 1) as real
    ensures size >= 2 && avg == Mean(buf[..size]) ==> r == Variance(buf[..size])
  {
    var sum := 0.0;
    for i := 0 to size
      invariant sum == SquaredDeviations(buf[..i], avg)
    {
      assert buf[..i + 1] == buf[..i] + [buf[i]];
      Append(buf[..i], buf[i], avg);
      sum := sum + Square(buf[i] - avg);
    }
    r := sum / (size - 1) as real;
  }
}
