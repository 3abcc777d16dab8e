/** The main loop: a cooperative scheduler whose tasks run when their interval has passed on
    the wrapped millisecond counter, and what the detector and the watchdog get out of it.
 */
module Sketch {
  import opened Words
  import opened Detection
  import ServerConfig
  import Watchdog

  const CHECK_NETWORK_INTERVAL: Word32 := 30 * 1000
  const CHECK_CONFIG_INTERVAL: Word32 := 15 * 60 * 1000
  const NTP_SYNC_INTERVAL: Word32 := 60 * 60 * 1000
  const SEISMOMETER_TICK_INTERVAL: Word32 := 50

  /** A task is due. */
  predicate Due(t: nat, last: Word32, interval: Word32) {
    Elapsed(Millis(t), last) >= interval
  }

  datatype Timers = Timers(netLastMs: Word32, cfgLastMs: Word32, ntpLastMs: Word32, seismoLastMs: Word32)

  /** One pass: the true times of its clock readings in program order (each `...Done` is read
      only if its task ran), the MAC address of the interface, the configuration text that the
      server would deliver (both empty if missing), and what the seismometer reads. */
  datatype Pass = Pass(tBeat: nat, tNet: nat, mac: string, tNetDone: nat, tCfg: nat, cfg: string, tCfgDone: nat,
                       tNtp: nat, tNtpDone: nat, tGate: nat, tick: TickInput, tSeismoDone: nat)
  {
    predicate InOrder() {
      && tBeat <= tNet <= tNetDone <= tCfg <= tCfgDone <= tNtp <= tNtpDone <= tGate <= tick.tProbe
      && tick.InOrder() && tick.tAlert <= tSeismoDone
    }
  }

  /** What an accepted configuration does to the detector. */
  function Configured(p: Pass, current: real, atof: string -> real): (es: seq<Event>)
    ensures |es| <= 2
  {
    match ServerConfig.SigmaOf(p.cfg, current, atof)
    case None => []
    case Some(sigma) => [SigmaSet(sigma), PeriodReset]
  }

  /** What one pass does to the detector, whose sigma is `current`. */
  function PassEvents(t: Timers, p: Pass, current: real, atof: string -> real): seq<Event> {
    (if Due(p.tCfg, t.cfgLastMs, CHECK_CONFIG_INTERVAL) then Configured(p, current, atof) else [])
    + if Due(p.tGate, t.seismoLastMs, SEISMOMETER_TICK_INTERVAL) then [Sample(p.tick)] else []
  }

  function PassTimers(t: Timers, p: Pass): Timers {
    Timers(if Due(p.tNet, t.netLastMs, CHECK_NETWORK_INTERVAL) then Millis(p.tNetDone) else t.netLastMs,
           if Due(p.tCfg, t.cfgLastMs, CHECK_CONFIG_INTERVAL) then Millis(p.tCfgDone) else t.cfgLastMs,
           if Due(p.tNtp, t.ntpLastMs, NTP_SYNC_INTERVAL) then Millis(p.tNtpDone) else t.ntpLastMs,
           if Due(p.tGate, t.seismoLastMs, SEISMOMETER_TICK_INTERVAL) then Millis(p.tSeismoDone) else t.seismoLastMs)
  }

  // ----- the loop as a method -----

  class MainLoop {
    var netLastMs: Word32
    var ntpLastMs: Word32
    var cfgLastMs: Word32
    var seismoLastMs: Word32
    const seismometer: Seismometer
    const heart: Watchdog.Heart
    /** The C library's. */
    const atof: string -> real

    constructor (seismometer: Seismometer, heart: Watchdog.Heart, atof: string -> real)
      ensures View() == Timers(0, 0, 0, 0)
      ensures this.seismometer == seismometer && this.heart == heart && this.atof == atof
    {
      netLastMs, ntpLastMs, cfgLastMs, seismoLastMs := 0, 0, 0, 0;
      this.seismometer, this.heart, this.atof := seismometer, heart, atof;
    }

    function View(): Timers
      reads this
    {
      Timers(netLastMs, cfgLastMs, ntpLastMs, seismoLastMs)
    }

    method PollConfig(p: Pass)
      requires seismometer.Valid() && |seismometer.history| < TWO_32 - 3
      modifies seismometer
      ensures seismometer.Valid()
      ensures seismometer.history == old(seismometer.history) + Configured(p, Sigma(old(seismometer.history)), atof)
    {
      OnePassRefinesTwoPass(seismometer.history);
      hide After, ServerConfig.SigmaOf, ServerConfig.Accepted, Sigma, Tracks;
      var request := ServerConfig.CheckServerConfig(p.cfg, seismometer, atof);
    }

    /** loop(), for a seismometer with an accelerometer.  Reboot requests return. */
    method Loop(p: Pass, opens: bool) returns (alert: Option<Record>, reboots: bool)
      requires seismometer.Valid() && seismometer.hasAccelerometer && |seismometer.history| < TWO_32 - 3
      modifies this, seismometer, heart, heart.file
      ensures seismometer.Valid()
      ensures View() == PassTimers(old(View()), p)
      ensures seismometer.history
           == old(seismometer.history) + PassEvents(old(View()), p, Sigma(old(seismometer.history)), atof)
      ensures heart.View() == Watchdog.HeartBeat(old(heart.View()), p.tBeat, opens)
      ensures alert == if Due(p.tGate, old(seismoLastMs), SEISMOMETER_TICK_INTERVAL)
                       then StepAt(seismometer.history, |seismometer.history| - 1).alert else None
      ensures reboots <==> || (Due(p.tNet, old(netLastMs), CHECK_NETWORK_INTERVAL) && p.mac == "")
                           || (!opens && Elapsed(Millis(p.tBeat), old(heart.lastBeat)) > Watchdog.BEAT_INTERVAL)
    {
      hide Due, Watchdog.HeartBeat, Millis, Elapsed, After, StepAt, Configured, Sigma;
      alert := None;
      reboots := heart.Beat(p.tBeat, opens);
      if Due(p.tNet, netLastMs, CHECK_NETWORK_INTERVAL) {
        if p.mac == "" { reboots := true; }
        netLastMs := Millis(p.tNetDone);
      }
      if Due(p.tCfg, cfgLastMs, CHECK_CONFIG_INTERVAL) {
        PollConfig(p);
        cfgLastMs := Millis(p.tCfgDone);
      }
      if Due(p.tNtp, ntpLastMs, NTP_SYNC_INTERVAL) {
        ntpLastMs := Millis(p.tNtpDone);
      }
      if Due(p.tGate, seismoLastMs, SEISMOMETER_TICK_INTERVAL) {
        alert := seismometer.TickOnce(p.tick);
        seismoLastMs := Millis(p.tSeismoDone);
      }
    }
  }

  // ----- runs of the loop -----

  function RunTimers(ps: seq<Pass>): Timers {
    if ps == [] then Timers(0, 0, 0, 0) else PassTimers(RunTimers(ps[..|ps| - 1]), ps[|ps| - 1])
  }

  /** The detector's history after a run that found the history `boot`. */
  function RunEvents(boot: seq<Event>, ps: seq<Pass>, atof: string -> real): seq<Event> {
    if ps == [] then boot
    else
      var h := RunEvents(boot, ps[..|ps| - 1], atof);
      h + PassEvents(RunTimers(ps[..|ps| - 1]), ps[|ps| - 1], Sigma(h), atof)
  }

  /** The first phase of the program does not tick the detector. */
  ghost predicate NotTicked(boot: seq<Event>) {
    forall i :: 0 <= i < |boot| ==> !boot[i].Sample?
  }

  // ----- every task keeps its interval -----

  datatype Task = Net | Cfg | Ntp | Seismo
  {
    function Interval(): Word32 {
      match this
      case Net => 30_000
      case Cfg => 900_000
      case Ntp => 3_600_000
      case Seismo => 50
    }

    function Starts(p: Pass): nat {
      match this case Net => p.tNet case Cfg => p.tCfg case Ntp => p.tNtp case Seismo => p.tGate
    }

    function Done(p: Pass): nat {
      match this case Net => p.tNetDone case Cfg => p.tCfgDone case Ntp => p.tNtpDone case Seismo => p.tSeismoDone
    }

    function Last(t: Timers): Word32 {
      match this case Net => t.netLastMs case Cfg => t.cfgLastMs case Ntp => t.ntpLastMs case Seismo => t.seismoLastMs
    }
  }

  /** The task runs in pass i. */
  predicate Runs(ps: seq<Pass>, i: nat, task: Task)
    requires i < |ps|
  {
    Due(task.Starts(ps[i]), task.Last(RunTimers(ps[..i])), task.Interval())
  }

  /** The latest pass in which the task ran, or -1. */
  function LatestRun(ps: seq<Pass>, task: Task): (k: int)
    ensures -1 <= k < |ps|
  {
    if ps == [] then -1 else if Runs(ps, |ps| - 1, task) then |ps| - 1 else LatestRun(ps[..|ps| - 1], task)
  }

  lemma {:induction false} TimerIsLatestRun(ps: seq<Pass>, task: Task)
    ensures var l := LatestRun(ps, task);
            task.Last(RunTimers(ps)) == if l < 0 then 0 else Millis(task.Done(ps[l]))
  {
    if ps != [] {
      TimerIsLatestRun(ps[..|ps| - 1], task);
      hide Due;
    }
  }

  /** A task runs at least its interval after its latest run ended, in true time; and it does
      run then, unless a whole round of the counter has passed. */
  lemma TaskKeepsInterval(ps: seq<Pass>, j: nat, task: Task)
    requires j < |ps| && LatestRun(ps[..j], task) >= 0
    requires task.Done(ps[LatestRun(ps[..j], task)]) <= task.Starts(ps[j])
    ensures var waited := task.Starts(ps[j]) - task.Done(ps[LatestRun(ps[..j], task)]);
            && (Runs(ps, j, task) ==> waited >= task.Interval())
            && (waited < TWO_32 ==> (Runs(ps, j, task) <==> waited >= task.Interval()))
  {
    var l := LatestRun(ps[..j], task);
    TimerIsLatestRun(ps[..j], task);
    ElapsedIsTrueTime(task.Starts(ps[j]), task.Done(ps[l]));
    hide Elapsed, Millis, RunTimers;
  }

  /** What an accepted configuration text does: the sigma of its last pair, if it has one, and a new
      period. */
  function ConfigEvents(cfg: string, current: real, atof: string -> real): seq<Event> {
    var params := ServerConfig.Split(cfg, '|', map[]);
    if cfg == "" || params == map[] then []
    else [SigmaSet(if "sigma" in params then atof(params["sigma"]) else current), PeriodReset]
  }

  /** What pass j adds to the detector's history: the configuration if it is due, then a tick if
      that is due. */
  lemma PassEffect(boot: seq<Event>, ps: seq<Pass>, atof: string -> real, j: nat)
    requires j < |ps|
    ensures var h := RunEvents(boot, ps[..j], atof);
            var config := if Runs(ps, j, Cfg) then ConfigEvents(ps[j].cfg, Sigma(h), atof) else [];
            var tick := if Runs(ps, j, Seismo) then [Sample(ps[j].tick)] else [];
            RunEvents(boot, ps[..j + 1], atof) == h + config + tick
  {
    var qs := ps[..j + 1];
    assert qs[..j] == ps[..j] && qs[j] == ps[j];
    assert RunEvents(boot, qs, atof)
        == RunEvents(boot, qs[..j], atof)
           + PassEvents(RunTimers(qs[..j]), qs[j], Sigma(RunEvents(boot, qs[..j], atof)), atof);
    hide RunEvents, RunTimers, Due, Sigma, Configured;
    ConfiguredEvents(ps[j], Sigma(RunEvents(boot, ps[..j], atof)), atof);
  }

  lemma ConfiguredEvents(p: Pass, current: real, atof: string -> real)
    ensures Configured(p, current, atof) == ConfigEvents(p.cfg, current, atof)
  {
    hide ServerConfig.Split;
  }

  // ----- what the detector gets -----

  /** Passes follow one another, each done within `period` of its start and followed by the next
      within `period` of its start. */
  ghost predicate Orderly(ps: seq<Pass>, period: nat) {
    && (forall i :: 0 <= i < |ps| ==> ps[i].InOrder() && ps[i].tSeismoDone <= ps[i].tBeat + period)
    && (forall i :: 0 <= i < |ps| - 1 ==> ps[i].tSeismoDone <= ps[i + 1].tBeat <= ps[i].tBeat + period)
  }

  /** Consecutive samples are close together. */
  ghost predicate Close(h: seq<Event>, period: nat) {
    forall i, j :: 0 <= i < j < |h| && h[i].Sample? && h[j].Sample? && (forall k :: i < k < j ==> !h[k].Sample?) ==>
      h[j].input.tAlert - h[i].input.tProbe <= 3 * period + 50
  }

  ghost predicate EndsBy(h: seq<Event>, d: nat) {
    forall i :: 0 <= i < |h| && h[i].Sample? ==> h[i].input.tAlert <= d
  }

  /** Samples of a history that ends by true time d: in order, spaced, close together. */
  ghost predicate Steady(h: seq<Event>, d: nat, period: nat) {
    Monotone(h) && Spaced(h) && EndsBy(h, d) && Close(h, period)
  }

  /** The last tick was stamped at d, and the pass that started at b is not long after it. */
  ghost predicate Ticking(h: seq<Event>, t: Timers, d: nat, b: nat, period: nat) {
    && Steady(h, d, period) && t.seismoLastMs == Millis(d)
    && forall p: nat :: LatestSample(h, p) ==>
         && b <= h[p].input.tProbe + period + 50
         && h[p].input.tProbe <= d <= h[p].input.tProbe + period
  }

  /** g is h followed by events that are not samples. */
  ghost predicate SameSamples(h: seq<Event>, g: seq<Event>) {
    && |h| <= |g| && (forall i :: 0 <= i < |h| ==> g[i] == h[i])
    && forall i :: |h| <= i < |g| ==> !g[i].Sample?
  }

  lemma CloseSame(h: seq<Event>, g: seq<Event>, period: nat)
    requires SameSamples(h, g) && Close(h, period)
    ensures Close(g, period)
  {
    forall i, j | 0 <= i < j < |g| && g[i].Sample? && g[j].Sample? && (forall k :: i < k < j ==> !g[k].Sample?)
      ensures g[j].input.tAlert - g[i].input.tProbe <= 3 * period + 50
    {
      assert forall k :: i < k < j ==> h[k] == g[k];
    }
  }

  lemma OrderSame(h: seq<Event>, g: seq<Event>, d: nat)
    requires SameSamples(h, g) && Monotone(h) && Spaced(h) && EndsBy(h, d)
    ensures Monotone(g) && Spaced(g) && EndsBy(g, d)
  {
  }

  lemma LatestSame(h: seq<Event>, g: seq<Event>, p: nat)
    requires SameSamples(h, g) && LatestSample(g, p)
    ensures LatestSample(h, p) && g[p] == h[p]
  {
    assert forall k :: p < k < |h| ==> h[k] == g[k];
  }

  lemma SteadyNoSample(h: seq<Event>, es: seq<Event>, d: nat, period: nat)
    requires Steady(h, d, period) && forall i :: 0 <= i < |es| ==> !es[i].Sample?
    ensures Steady(h + es, d, period)
    ensures forall p: nat :: LatestSample(h + es, p) ==> LatestSample(h, p) && (h + es)[p] == h[p]
  {
    var g := h + es;
    assert SameSamples(h, g) by {
      forall i | |h| <= i < |g| ensures !g[i].Sample? { assert g[i] == es[i - |h|]; }
    }
    hide Monotone, Spaced, EndsBy, Close, SameSamples, LatestSample;
    CloseSame(h, g, period);
    OrderSame(h, g, d);
    forall p: nat | LatestSample(g, p) ensures LatestSample(h, p) && g[p] == h[p] { LatestSame(h, g, p); }
  }

  lemma SteadySample(h: seq<Event>, i: TickInput, d: nat, d': nat, period: nat)
    requires Steady(h, d, period) && i.InOrder() && i.tAlert <= d' && d <= d'
    requires i.tProbe >= d + 50
    requires forall p: nat :: LatestSample(h, p) ==> i.tAlert - h[p].input.tProbe <= 3 * period + 50
    ensures Steady(h + [Sample(i)], d', period)
    ensures forall p: nat :: LatestSample(h + [Sample(i)], p) ==> p == |h|
  {
    var g, n := h + [Sample(i)], |h|;
    assert forall k :: 0 <= k < n ==> g[k] == h[k];
    SampleCloses(h, i, period);
    hide Close;
    forall p: nat | LatestSample(g, p) ensures p == n { assert g[n].Sample?; }
  }

  lemma SampleCloses(h: seq<Event>, i: TickInput, period: nat)
    requires Close(h, period)
    requires forall p: nat :: LatestSample(h, p) ==> i.tAlert - h[p].input.tProbe <= 3 * period + 50
    ensures Close(h + [Sample(i)], period)
  {
    var g, n := h + [Sample(i)], |h|;
    assert forall k :: 0 <= k < n ==> g[k] == h[k];
    forall a, b | 0 <= a < b < |g| && g[a].Sample? && g[b].Sample? && (forall k :: a < k < b ==> !g[k].Sample?)
      ensures g[b].input.tAlert - g[a].input.tProbe <= 3 * period + 50
    {
      if b == n { assert LatestSample(h, a); }
    }
  }

  /** One pass keeps the rhythm. */
  lemma PassTicks(h: seq<Event>, t: Timers, d: nat, b: nat, p: Pass, current: real, atof: string -> real, period: nat)
    returns (d': nat)
    requires Ticking(h, t, d, b, period) && p.InOrder() && p.tSeismoDone <= p.tBeat + period
    requires 3 * period + 50 <= TWO_32 - HOLD_OFF && d <= p.tBeat && b <= p.tBeat <= b + period
    ensures Ticking(h + PassEvents(t, p, current, atof), PassTimers(t, p), d', p.tBeat, period) && d' <= p.tSeismoDone
  {
    var es := if Due(p.tCfg, t.cfgLastMs, CHECK_CONFIG_INTERVAL) then Configured(p, current, atof) else [];
    var g := h + es;
    SteadyNoSample(h, es, d, period);
    var due := Due(p.tGate, t.seismoLastMs, SEISMOMETER_TICK_INTERVAL);
    assert PassEvents(t, p, current, atof) == es + if due then [Sample(p.tick)] else [];
    assert h + PassEvents(t, p, current, atof) == if due then g + [Sample(p.tick)] else g;
    assert PassTimers(t, p).seismoLastMs == if due then Millis(p.tSeismoDone) else t.seismoLastMs;
    hide Steady, Millis, Elapsed, Due, PassEvents, PassTimers;
    d' := if due then p.tSeismoDone else d;
    if due {
      TickPass(g, t, d, b, p, period);
    } else {
      SkipPass(g, t, d, b, p, period);
    }
  }

  /** After the configuration step of a pass: as Ticking, seen from the start of the pass before. */
  ghost predicate Pending(g: seq<Event>, t: Timers, d: nat, b: nat, p: Pass, period: nat) {
    && 3 * period + 50 <= TWO_32 - HOLD_OFF
    && Ticking(g, t, d, b, period) && p.InOrder() && p.tSeismoDone <= p.tBeat + period
    && d <= p.tBeat <= b + period
  }

  lemma TickPass(g: seq<Event>, t: Timers, d: nat, b: nat, p: Pass, period: nat)
    requires Pending(g, t, d, b, p, period) && Due(p.tGate, t.seismoLastMs, SEISMOMETER_TICK_INTERVAL)
    ensures var h := g + [Sample(p.tick)];
            && Steady(h, p.tSeismoDone, period)
            && forall q: nat :: LatestSample(h, q) ==>
                 && p.tBeat <= h[q].input.tProbe + period + 50
                 && h[q].input.tProbe <= p.tSeismoDone <= h[q].input.tProbe + period
  {
    hide Steady, Millis, Elapsed, Due, LatestSample;
    GateTime(p.tGate, d, t.seismoLastMs);
    SteadySample(g, p.tick, d, p.tSeismoDone, period);
  }

  lemma SkipPass(g: seq<Event>, t: Timers, d: nat, b: nat, p: Pass, period: nat)
    requires Pending(g, t, d, b, p, period) && !Due(p.tGate, t.seismoLastMs, SEISMOMETER_TICK_INTERVAL)
    ensures forall q: nat :: LatestSample(g, q) ==> p.tBeat <= g[q].input.tProbe + period + 50
  {
    hide Steady, Millis, Elapsed, Due, LatestSample;
    GateTime(p.tGate, d, t.seismoLastMs);
  }

  /** While less than 2^32 ms pass the gate opens exactly after 50 true milliseconds; when it
      opens at least those have passed in any case. */
  lemma GateTime(t: nat, d: nat, last: Word32)
    requires last == Millis(d) && d <= t
    ensures Due(t, last, SEISMOMETER_TICK_INTERVAL) ==> t >= d + 50
    ensures t - d < TWO_32 && !Due(t, last, SEISMOMETER_TICK_INTERVAL) ==> t < d + 50
  {
    ElapsedIsTrueTime(t, d);
    hide Elapsed, Millis;
  }

  lemma {:induction false} RunTicks(boot: seq<Event>, ps: seq<Pass>, atof: string -> real, period: nat)
    returns (d: nat)
    requires NotTicked(boot) && Orderly(ps, period) && 3 * period + 50 <= TWO_32 - HOLD_OFF && ps != []
    ensures Ticking(RunEvents(boot, ps, atof), RunTimers(ps), d, ps[|ps| - 1].tBeat, period)
    ensures d <= ps[|ps| - 1].tSeismoDone
    decreases |ps|
  {
    var n := |ps| - 1;
    var d0, b0 := 0, ps[n].tBeat;
    if n > 0 {
      assert ps[..n][n - 1] == ps[n - 1];
      d0 := RunTicks(boot, ps[..n], atof, period);
      b0 := ps[n - 1].tBeat;
    } else {
      assert ps[..0] == [] && RunEvents(boot, ps[..0], atof) == boot && RunTimers(ps[..0]) == Timers(0, 0, 0, 0);
      assert Steady(boot, 0, period);
    }
    var h := RunEvents(boot, ps[..n], atof);
    hide Ticking, PassEvents, PassTimers;
    d := PassTicks(h, RunTimers(ps[..n]), d0, b0, ps[n], Sigma(h), atof, period);
  }

  lemma SteadyGaps(h: seq<Event>, d: nat, period: nat)
    requires Steady(h, d, period) && 3 * period + 50 <= TWO_32 - HOLD_OFF
    ensures Monotone(h) && Spaced(h) && ProbeGaps(h) && Gaps(h, TWO_32 - HOLD_OFF)
  {
    forall i, j | 0 <= i < j < |h| && h[i].Sample? && h[j].Sample? && (forall k :: i < k < j ==> !h[k].Sample?)
      ensures h[j].input.tProbe - h[i].input.tProbe < TWO_32 - PROBE_PERIOD
      ensures h[j].input.tRelease - h[i].input.tRelease <= TWO_32 - HOLD_OFF
    {
      assert h[i].input.InOrder() && h[j].input.InOrder();
      assert h[j].input.tAlert - h[i].input.tProbe <= 3 * period + 50;
    }
  }

  /** For every run of passes of at most `period` each, which can be over sixteen days, the
      detector is ticked in order, at least 50 ms apart and never so late that the counter
      could mislead it. */
  lemma LoopSpacesTicks(boot: seq<Event>, ps: seq<Pass>, atof: string -> real, period: nat)
    requires NotTicked(boot) && Orderly(ps, period) && 3 * period + 50 <= TWO_32 - HOLD_OFF
    ensures var h := RunEvents(boot, ps, atof);
            Monotone(h) && Spaced(h) && ProbeGaps(h) && Gaps(h, 0x1_0000_0000 - 5000)
  {
    if ps != [] {
      var d := RunTicks(boot, ps, atof, period);
      SteadyGaps(RunEvents(boot, ps, atof), d, period);
    }
  }

  /** Whole runs of the sketch: published probe speeds are at most 21 after the first, and an
      over-threshold sample is alerted if and only if no earlier alert is less than five
      seconds old in true time. */
  lemma LoopDetects(boot: seq<Event>, ps: seq<Pass>, atof: string -> real, period: nat, i: nat, j: nat)
    requires NotTicked(boot) && Orderly(ps, period) && 3 * period + 50 <= TWO_32 - HOLD_OFF
    requires |RunEvents(boot, ps, atof)| < TWO_32
    ensures var h := RunEvents(boot, ps, atof);
            && (i < |Published(h)| ==> Published(h)[i] <= if i == 0 then 22 else 21)
            && (j < |h| ==> (AlertAt(h, j) <==> OverAt(h, j) && ClearOfAlerts(h, j)))
  {
    hide *;
    LoopSpacesTicks(boot, ps, atof, period);
    var h := RunEvents(boot, ps, atof);
    if i < |Published(h)| { ProbeSpeedBound(h, i); }
    if j < |h| { AlertsAreGreedy(h, j); }
  }

  // ----- the loop and the watchdog -----

  function Beats(ps: seq<Pass>, opens: seq<bool>): seq<Watchdog.Event>
    requires |ps| == |opens|
  {
    seq(|ps|, i requires 0 <= i < |ps| => Watchdog.Beat(ps[i].tBeat, opens[i]))
  }

  /** What came before the loop: the call at launch, from a good start, and any calls while
      waiting for a position, with no more than 40 s from call to call and to the loop. */
  ghost predicate Launched(s: Watchdog.State, boot: seq<Watchdog.Event>, loops: nat) {
    && Watchdog.Admissible(boot, Watchdog.SAFE_PERIOD) && s.lastBeat == 0 && Watchdog.GoodStart(s.file, boot[0].t)
    && boot[|boot| - 1].t <= loops <= Watchdog.LastCall(boot) + Watchdog.SAFE_PERIOD
  }

  /** Over the whole run of the sketch, launch included, a check by the watchdog at any moment t
      of any pass k leaves the living sketch alone. */
  lemma WatchdogQuietDuringLoop(s: Watchdog.State, boot: seq<Watchdog.Event>, ps: seq<Pass>, opens: seq<bool>,
                                k: nat, t: nat)
    requires |ps| == |opens| && Orderly(ps, Watchdog.SAFE_PERIOD) && k < |ps|
    requires ps[k].tBeat <= t <= ps[k].tBeat + Watchdog.SAFE_PERIOD
    requires Launched(s, boot, ps[0].tBeat)
    ensures var seen := Watchdog.Run(s, boot + Beats(ps[..k + 1], opens[..k + 1])).file;
            Watchdog.Verdict(Watchdog.Observation(t, seen, true)) == None
  {
    var bs := boot + Beats(ps[..k + 1], opens[..k + 1]);
    BeatsAdmissible(s, boot, ps, opens, k + 1);
    var es, n := bs + [Watchdog.Check(t)], |bs|;
    assert es[..n] == bs && es[n].Check? && es[0] == boot[0];
    hide Watchdog.Verdict, Watchdog.Run, Orderly, Watchdog.Admissible, Beats;
    Watchdog.AdmissibleAppend(bs, Watchdog.Check(t), Watchdog.SAFE_PERIOD);
    Watchdog.NeverMissed(s, es);
  }

  lemma {:induction false} BeatsAdmissible(s: Watchdog.State, boot: seq<Watchdog.Event>, ps: seq<Pass>,
                                          opens: seq<bool>, k: nat)
    requires |ps| == |opens| && Orderly(ps, Watchdog.SAFE_PERIOD) && k <= |ps|
    requires ps != [] && Launched(s, boot, ps[0].tBeat)
    ensures var es := boot + Beats(ps[..k], opens[..k]);
            && Watchdog.Admissible(es, Watchdog.SAFE_PERIOD)
            && (k > 0 ==> es[|es| - 1] == Watchdog.Beat(ps[k - 1].tBeat, opens[k - 1]))
    decreases k
  {
    if k == 0 {
      assert boot + Beats(ps[..0], opens[..0]) == boot;
    } else {
      BeatsAdmissible(s, boot, ps, opens, k - 1);
      var es := boot + Beats(ps[..k - 1], opens[..k - 1]);
      var e := Watchdog.Beat(ps[k - 1].tBeat, opens[k - 1]);
      OneMoreBeat(boot, ps, opens, k);
      if k > 1 { NextBeat(ps, Watchdog.SAFE_PERIOD, k - 2); }
      hide Watchdog.Admissible, Beats, Orderly;
      Watchdog.AdmissibleAppend(es, e, Watchdog.SAFE_PERIOD);
    }
  }

  lemma OneMoreBeat(boot: seq<Watchdog.Event>, ps: seq<Pass>, opens: seq<bool>, k: nat)
    requires |ps| == |opens| && 0 < k <= |ps|
    ensures boot + Beats(ps[..k], opens[..k])
         == boot + Beats(ps[..k - 1], opens[..k - 1]) + [Watchdog.Beat(ps[k - 1].tBeat, opens[k - 1])]
    ensures k == 1 ==> boot + Beats(ps[..k - 1], opens[..k - 1]) == boot
  {
    assert Beats(ps[..k], opens[..k])
        == Beats(ps[..k - 1], opens[..k - 1]) + [Watchdog.Beat(ps[k - 1].tBeat, opens[k - 1])];
  }

  lemma NextBeat(ps: seq<Pass>, period: nat, i: nat)
    requires Orderly(ps, period) && i + 1 < |ps|
    ensures ps[i].tBeat <= ps[i + 1].tBeat <= ps[i].tBeat + period
  {
    assert ps[i].InOrder() && ps[i].tSeismoDone <= ps[i + 1].tBeat;
  }

  /** The other way round: a pass in which the loop hangs for 76 s, as it does when the NTP server
      stays silent, is met by a check that reboots the living sketch, unless the heartbeat file
      could not be written. */
  lemma LongPassIsRebooted(s: Watchdog.State, boot: seq<Watchdog.Event>, ps: seq<Pass>, opens: seq<bool>,
                           k: nat, period: nat, cs: seq<nat>)
    requires |ps| == |opens| && Orderly(ps, period) && k < |ps|
    requires forall i :: 0 <= i < |boot| ==> boot[i].t <= ps[0].tBeat
    requires s.file.Some? ==> s.file.value <= Seconds(ps[0].tBeat)
    requires Watchdog.Checks(cs, ps[k].tBeat + 61000)
    ensures var seen := Watchdog.Run(s, boot + Beats(ps[..k + 1], opens[..k + 1])).file;
            seen.Some? ==> exists i :: 0 <= i < |cs| && cs[i] < ps[k].tBeat + 76000 &&
                             Watchdog.Verdict(Watchdog.Observation(cs[i], seen, true)).Some?
  {
    var b, es := ps[k].tBeat, boot + Beats(ps[..k + 1], opens[..k + 1]);
    forall i | 0 <= i < |es| ensures es[i].t <= b {
      BeatsInOrder(ps, period, if i < |boot| then 0 else i - |boot|, k);
      BeatsInOrder(ps, period, 0, k);
    }
    BeatsInOrder(ps, period, 0, k);
    Watchdog.FileNotAfter(s, es, b);
    Watchdog.SilenceIsDetected(b, cs, true);
  }

  lemma {:induction false} BeatsInOrder(ps: seq<Pass>, period: nat, i: nat, j: nat)
    requires Orderly(ps, period) && i <= j < |ps|
    ensures ps[i].tBeat <= ps[j].tBeat
    decreases j - i
  {
    if i < j {
      NextBeat(ps, period, i);
      BeatsInOrder(ps, period, i + 1, j);
    }
  }
}
