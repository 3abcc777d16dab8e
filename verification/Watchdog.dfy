/** The heartbeat protocol.  The sketch rewrites a file when it has not done so for
    20 s; a second process looks at the file's modification time every 15 s and
    reboots the board when it is more than 60 s old.

    Both sides read the same real-time clock, the sketch in wrapped milliseconds and
    the watchdog in whole seconds.  The clock is never stepped and writing the file
    takes no time.
 */
module Watchdog {
  import opened Words

  const WATCHDOG_TIMER: int := 60 * 1000
  const BEAT_INTERVAL: int := WATCHDOG_TIMER / 3
  const SLEEP: int := 15000
  /** The longest time between two heartBeat calls that is always safe. */
  const SAFE_PERIOD: int := 40000

  /** The sketch's static field and the modification second of the file, if it exists. */
  datatype State = State(lastBeat: Word32, file: Option<nat>)

  /** heartBeat at a true time; fopen may fail, and then the file is unlinked. */
  function HeartBeat(s: State, t: nat, opens: bool): State {
    if Elapsed(Millis(t), s.lastBeat) > BEAT_INTERVAL then
      if opens then State(Millis(t), Some(Seconds(t))) else s.(file := None)
    else s
  }

  /** The watchdog's test of the file at a true time. */
  predicate Missed(file: Option<nat>, t: nat) {
    file.Some? && file.value < Seconds(t) - WATCHDOG_TIMER / 1000
  }

  /** One round of the monitoring loop: what it saw, and when. */
  datatype Observation = Observation(t: nat, file: Option<nat>, alive: bool)

  /** The reboot reason of a round, or None for no reboot. */
  function Verdict(o: Observation): Option<string> {
    if !o.alive || Missed(o.file, o.t) then
      Some((if Missed(o.file, o.t) then "Heartbeat missed;" else "")
           + (if o.alive then "Sketch is not running" else ""))
    else None
  }

  /** A round leaves the board alone exactly if the sketch lives and the file is absent or not more
      than 60 s old by the second; otherwise the reason is one of three texts. */
  lemma RebootExactly(o: Observation)
    ensures Verdict(o) == None <==> o.alive && (o.file.Some? ==> o.file.value >= o.t / 1000 - 60)
    ensures var stale := o.file.Some? && o.file.value < o.t / 1000 - 60;
            Verdict(o).Some? ==>
              Verdict(o).value == if !stale then "" else if o.alive then "Heartbeat missed;Sketch is not running"
                                  else "Heartbeat missed;"
  {
    assert "Heartbeat missed;" + "" == "Heartbeat missed;" && "" + "" == "";
    assert "Heartbeat missed;" + "Sketch is not running" == "Heartbeat missed;Sketch is not running";
  }

  /** The text that goes into the log has its second half the wrong way round: it says the
      sketch is not running exactly when it is, and says nothing when it is gone. */
  lemma ReasonMisreportsSketch(o: Observation)
    requires Verdict(o).Some?
    ensures EndsWith(Verdict(o).value, "Sketch is not running") <==> o.alive
    ensures !o.alive && !Missed(o.file, o.t) ==> Verdict(o).value == ""
  {
    var head := if Missed(o.file, o.t) then "Heartbeat missed;" else "";
    var tail := "Sketch is not running";
    if o.alive {
      assert (head + tail)[|head|..] == tail;
    } else {
      assert head + "" == head;
    }
  }

  predicate EndsWith(s: string, tail: string) {
    |tail| <= |s| && s[|s| - |tail|..] == tail
  }

  /** heartBeat in true time, b being when lastBeat was stamped: the file is written afresh exactly
      if more than 20 s have passed (and no whole round of the counter), and a failure to write
      removes it without putting the next attempt off. */
  lemma BeatExactly(s: State, b: nat, t: nat, opens: bool)
    requires s.lastBeat == Millis(b) && b <= t < b + TWO_32
    ensures HeartBeat(s, t, opens) ==
              if t - b <= 20000 then s
              else if opens then State(t % 0x1_0000_0000, Some(t / 1000))
              else State(s.lastBeat, None)
  {
    ElapsedIsTrueTime(t, b);
  }

  // ----- runs -----

  datatype Event = Beat(t: nat, opens: bool) | Check(t: nat)

  function Step(s: State, e: Event): State {
    match e
    case Beat(t, opens) => HeartBeat(s, t, opens)
    case Check(_) => s
  }

  function Run(s: State, es: seq<Event>): State {
    if es == [] then s else Step(Run(s, es[..|es| - 1]), es[|es| - 1])
  }

  /** Time of the latest heartBeat call; the run starts with one. */
  function LastCall(es: seq<Event>): nat
    requires es != [] && es[0].Beat?
  {
    if es[|es| - 1].Beat? then es[|es| - 1].t else LastCall(es[..|es| - 1])
  }

  /** The sketch launches with a heartBeat call, times never go backwards, and at every
      moment the latest call is at most `period` old. */
  ghost predicate Admissible(es: seq<Event>, period: int) {
    && es != [] && es[0].Beat?
    && (forall i, j :: 0 <= i < j < |es| ==> es[i].t <= es[j].t)
    && (forall i {:trigger es[i]} :: 1 <= i < |es| ==> es[i].t <= LastCall(es[..i]) + period)
  }

  /** No check of the run takes the reboot branch, the sketch being alive. */
  ghost predicate Quiet(s: State, es: seq<Event>) {
    forall i {:trigger es[i]} :: 0 <= i < |es| && es[i].Check? ==>
      Verdict(Observation(es[i].t, Run(s, es[..i]).file, true)) == None
  }

  /** The latest multiple of 2^32 ms. */
  function Wrap(t: nat): nat {
    t / TWO_32 * TWO_32
  }

  /** At launch lastBeat is 0, which reads as "beat at the last counter wrap".  The state
      is good if the first call writes, or the file is absent or no older than that. */
  predicate GoodStart(file: Option<nat>, launch: nat) {
    file.Some? ==> Millis(launch) > BEAT_INTERVAL || file.value >= Seconds(Wrap(launch))
  }

  /** If the file exists it is as fresh as true time b, which lastBeat stands for and
      which is no more than 20 s before the latest call. */
  ghost predicate Fresh(s: State, call: nat, b: nat) {
    s.file.Some? ==> s.lastBeat == Millis(b) && b <= call <= b + BEAT_INTERVAL && s.file.value >= Seconds(b)
  }

  lemma FreshStep(s: State, call: nat, b: nat, t: nat, opens: bool)
    requires Fresh(s, call, b) && call <= t <= call + SAFE_PERIOD
    ensures Fresh(HeartBeat(s, t, opens), t, if Elapsed(Millis(t), s.lastBeat) > BEAT_INTERVAL then t else b)
  {
    if s.file.Some? { ElapsedIsTrueTime(t, b); }
  }

  lemma FreshLaunch(s: State, t: nat, opens: bool)
    requires s.lastBeat == 0 && GoodStart(s.file, t)
    ensures Fresh(HeartBeat(s, t, opens), t, if Millis(t) > BEAT_INTERVAL then t else Wrap(t))
  {
    assert Elapsed(Millis(t), 0) == Millis(t);
    assert Wrap(t) == t - Millis(t) && Millis(Wrap(t)) == 0;
  }

  lemma FreshIsNotMissed(s: State, call: nat, b: nat, t: nat)
    requires Fresh(s, call, b) && t <= call + SAFE_PERIOD
    ensures !Missed(s.file, t)
  {
    if s.file.Some? {
      assert Seconds(t) <= Seconds(b + 60 * 1000) == Seconds(b) + 60;
    }
  }

  lemma AdmissiblePrefix(es: seq<Event>, n: nat, period: int)
    requires Admissible(es, period) && 1 <= n <= |es|
    ensures Admissible(es[..n], period)
  {
    forall i {:trigger es[..n][i]} | 1 <= i < n ensures es[..n][i].t <= LastCall(es[..n][..i]) + period {
      assert es[..n][..i] == es[..i] && es[..n][i] == es[i];
    }
  }

  lemma AdmissibleAppend(es: seq<Event>, e: Event, period: int)
    requires Admissible(es, period) && es[|es| - 1].t <= e.t <= LastCall(es) + period
    ensures Admissible(es + [e], period) && LastCall(es + [e]) == if e.Beat? then e.t else LastCall(es)
  {
    var g, n := es + [e], |es|;
    assert g[..n] == es;
    assert LastCall(g) == if e.Beat? then e.t else LastCall(es);
    OrderAppend(es, e);
    hide LastCall;
    forall i {:trigger g[i]} | 1 <= i < |g| ensures g[i].t <= LastCall(g[..i]) + period {
      if i < n { assert g[..i] == es[..i] && g[i] == es[i]; }
    }
  }

  lemma OrderAppend(es: seq<Event>, e: Event)
    requires es != [] && es[|es| - 1].t <= e.t && forall i, j :: 0 <= i < j < |es| ==> es[i].t <= es[j].t
    ensures forall i, j :: 0 <= i < j <= |es| ==> (es + [e])[i].t <= (es + [e])[j].t
  {
    var n := |es|;
    forall i, j | 0 <= i < j <= n ensures (es + [e])[i].t <= (es + [e])[j].t {
      assert i < n - 1 ==> es[i].t <= es[n - 1].t;
    }
  }

  lemma {:induction false} RunIsFresh(s: State, es: seq<Event>) returns (b: nat)
    requires Admissible(es, SAFE_PERIOD) && s.lastBeat == 0 && GoodStart(s.file, es[0].t)
    ensures Fresh(Run(s, es), LastCall(es), b)
  {
    var n := |es| - 1;
    var e := es[n];
    if n == 0 {
      assert es[..0] == [] && Run(s, es[..0]) == s;
      FreshLaunch(s, e.t, e.opens);
      b := if Millis(e.t) > BEAT_INTERVAL then e.t else Wrap(e.t);
    } else {
      AdmissiblePrefix(es, n, SAFE_PERIOD);
      var es0 := es[..n];
      b := RunIsFresh(s, es0);
      if e.Beat? {
        LastCallInOrder(es, n);
        FreshStep(Run(s, es0), LastCall(es0), b, e.t, e.opens);
        b := if Elapsed(Millis(e.t), Run(s, es0).lastBeat) > BEAT_INTERVAL then e.t else b;
      }
    }
  }

  lemma {:induction false} LastCallInOrder(es: seq<Event>, n: nat)
    requires Admissible(es, SAFE_PERIOD) && 1 <= n < |es|
    ensures LastCall(es[..n]) <= es[n].t
  {
    if es[n - 1].Check? {
      assert n > 1 && es[..n][..n - 1] == es[..n - 1];
      LastCallInOrder(es, n - 1);
    }
  }

  /** Safety over whole runs: with calls at most 40 s apart and a good start, no check ever
      reboots a living sketch, whatever the counter does and whether fopen works. */
  lemma NeverMissed(s: State, es: seq<Event>)
    requires Admissible(es, SAFE_PERIOD) && s.lastBeat == 0 && GoodStart(s.file, es[0].t)
    ensures Quiet(s, es)
  {
    forall i {:trigger es[i]} | 0 <= i < |es| && es[i].Check?
      ensures Verdict(Observation(es[i].t, Run(s, es[..i]).file, true)) == None
    {
      AdmissiblePrefix(es, i, SAFE_PERIOD);
      var b := RunIsFresh(s, es[..i]);
      FreshIsNotMissed(Run(s, es[..i]), LastCall(es[..i]), b, es[i].t);
    }
  }

  /** A good start is also necessary: a stale file met within 20 s of a counter wrap is not
      rewritten by the first call, and a run with calls 40 s apart gets rebooted. */
  lemma GoodStartIsNecessary(s: State, launch: nat)
    requires s.lastBeat == 0 && !GoodStart(s.file, launch)
    ensures exists es: seq<Event> :: Admissible(es, SAFE_PERIOD) && es[0].t == launch && !Quiet(s, es)
  {
    var w := Wrap(launch);
    assert w == launch - Millis(launch);
    var es := [Beat(launch, true), Beat(w + BEAT_INTERVAL, true), Check(w + WATCHDOG_TIMER)];
    assert es[..0] == [] && es[..1] == [es[0]] && es[..2] == [es[0], es[1]];
    assert es[..1][..0] == [] && es[..2][..1] == es[..1];
    assert Run(s, es[..0]) == s && Run(s, es[..1]) == s;
    MillisAfterWrap(launch, BEAT_INTERVAL);
    assert Run(s, es[..2]) == s;
    assert Seconds(w + WATCHDOG_TIMER) == Seconds(w) + 60;
    assert es[2].Check? && Missed(Run(s, es[..2]).file, es[2].t);
    assert Admissible(es, SAFE_PERIOD);
  }

  lemma MillisAfterWrap(t: nat, d: nat)
    requires d < TWO_32
    ensures Elapsed(Millis(Wrap(t) + d), 0) == d
  {
    assert (t / TWO_32 * TWO_32 + d) % TWO_32 == d;
  }

  /** All admissible runs from good starts are quiet. */
  ghost predicate SafePeriod(period: int) {
    forall s: State, es: seq<Event> ::
      Admissible(es, period) && s.lastBeat == 0 && GoodStart(s.file, es[0].t) ==> Quiet(s, es)
  }

  lemma LongerPeriod(es: seq<Event>, p: int, q: int)
    requires Admissible(es, p) && p <= q
    ensures Admissible(es, q)
  {
  }

  /** 40 s is exactly what the protocol tolerates between calls; 40.001 s is too much. */
  lemma SafePeriodIsExact(period: int)
    ensures SafePeriod(period) <==> period <= SAFE_PERIOD
  {
    if period <= SAFE_PERIOD {
      forall s: State, es: seq<Event> | Admissible(es, period) && s.lastBeat == 0 && GoodStart(s.file, es[0].t)
        ensures Quiet(s, es)
      {
        LongerPeriod(es, period, SAFE_PERIOD);
        NeverMissed(s, es);
      }
    } else {
      var s := State(0, None);
      var es := LateRun(s);
      LongerPeriod(es, SAFE_PERIOD + 1, period);
    }
  }

  /** Written at 99.999 s, not rewritten at 119.999 s (20000 ms is not more than 20000),
      checked 40.001 s later: second 160 against second 99. */
  lemma LateRun(s: State) returns (es: seq<Event>)
    requires s == State(0, None)
    ensures Admissible(es, SAFE_PERIOD + 1) && GoodStart(s.file, es[0].t) && !Quiet(s, es)
  {
    es := [Beat(99999, true), Beat(119999, true), Check(160000)];
    assert es[..0] == [] && es[..1] == [es[0]] && es[..2] == [es[0], es[1]];
    assert es[..1][..0] == [] && es[..2][..1] == es[..1];
    assert Run(s, es[..0]) == s;
    assert Run(s, es[..1]) == State(99999, Some(99));
    assert Run(s, es[..2]) == State(99999, Some(99));
    assert es[2].Check? && Missed(Run(s, es[..2]).file, es[2].t);
  }

  // ----- bounded detection -----

  /** Check times: at most 15 s apart, starting before the deadline and going on past the
      first moment at which the file is surely too old. */
  ghost predicate Checks(cs: seq<nat>, from: nat) {
    && cs != []
    && (forall i :: 0 <= i < |cs| - 1 ==> cs[i] <= cs[i + 1] <= cs[i] + SLEEP)
    && cs[0] < from + SLEEP && cs[|cs| - 1] >= from
  }

  lemma {:induction false} SomeCheckInWindow(cs: seq<nat>, from: nat) returns (i: nat)
    requires Checks(cs, from)
    ensures i < |cs| && from <= cs[i] < from + SLEEP
  {
    i := 0;
    while cs[i] < from
      invariant i < |cs| && cs[i] < from + SLEEP
      decreases |cs| - i
    {
      i := i + 1;
    }
  }

  /** If the file was last written at m, some check before m + 76 s takes the reboot branch. */
  lemma SilenceIsDetected(m: nat, cs: seq<nat>, alive: bool)
    requires Checks(cs, m + 61000)
    ensures exists i :: 0 <= i < |cs| && cs[i] < m + 76000 && Verdict(Observation(cs[i], Some(Seconds(m)), alive)).Some?
  {
    var i := SomeCheckInWindow(cs, m + 61000);
    assert Seconds(cs[i]) >= Seconds(m + 61000) == Seconds(m) + 61;
    assert Missed(Some(Seconds(m)), cs[i]);
    assert Verdict(Observation(cs[i], Some(Seconds(m)), alive)).Some?;
  }

  /** What was never written after b is no newer than b. */
  lemma {:induction false} FileNotAfter(s: State, es: seq<Event>, b: nat)
    requires forall i :: 0 <= i < |es| ==> es[i].t <= b
    requires s.file.Some? ==> s.file.value <= Seconds(b)
    ensures Run(s, es).file.Some? ==> Run(s, es).file.value <= Seconds(b)
  {
    if es != [] {
      FileNotAfter(s, es[..|es| - 1], b);
      hide Elapsed, Millis;
    }
  }

  /** If the sketch is gone from m on, a check before m + 15 s reboots, whatever the file is like. */
  lemma DeathIsDetected(m: nat, rounds: seq<Observation>)
    requires Checks(seq(|rounds|, i requires 0 <= i < |rounds| => rounds[i].t), m)
    requires forall i :: 0 <= i < |rounds| && rounds[i].t >= m ==> !rounds[i].alive
    ensures exists i :: 0 <= i < |rounds| && m <= rounds[i].t < m + 15000 && Verdict(rounds[i]).Some?
  {
    var i := SomeCheckInWindow(seq(|rounds|, i requires 0 <= i < |rounds| => rounds[i].t), m);
    assert Verdict(rounds[i]).Some?;
  }

  /** And not sooner in general: the last millisecond of the bound is needed. */
  lemma DetectionBoundIsTight()
    ensures exists cs :: Checks(cs, 61000) &&
              forall i :: 0 <= i < |cs| && cs[i] < 75999 ==> Verdict(Observation(cs[i], Some(Seconds(0)), true)) == None
  {
    var cs: seq<nat> := [60999, 75999];
    assert Checks(cs, 61000);
    assert forall i :: 0 <= i < |cs| && cs[i] < 75999 ==> cs[i] == 60999;
  }

  // ----- the two sides as objects -----

  /** The file both processes share. */
  class HeartbeatFile {
    var mtime: Option<nat>

    constructor (mtime: Option<nat>)
      ensures this.mtime == mtime
    {
      this.mtime := mtime;
    }
  }

  class Heart {
    var lastBeat: Word32
    const file: HeartbeatFile

    constructor (file: HeartbeatFile)
      ensures this.file == file && lastBeat == 0
    {
      this.file := file;
      lastBeat := 0;
    }

    function View(): State
      reads this, file
    {
      State(lastBeat, file.mtime)
    }

    /** Also says whether the sketch gave up and asked for a reboot. */
    method Beat(t: nat, opens: bool) returns (reboots: bool)
      modifies this, file
      ensures View() == HeartBeat(old(View()), t, opens)
      ensures reboots <==> !opens && Elapsed(Millis(t), old(lastBeat)) > BEAT_INTERVAL
    {
      reboots := false;
      if Elapsed(Millis(t), lastBeat) > BEAT_INTERVAL {
        if !opens {
          file.mtime := None;
          return true;
        }
        file.mtime := Some(Seconds(t));
        lastBeat := Millis(t);
      }
    }
  }

  /** The monitoring loop over a sequence of rounds, for as long as reboot requests return. */
  method Monitor(rounds: seq<Observation>) returns (verdicts: seq<Option<string>>)
    ensures |verdicts| == |rounds|
    ensures forall i :: 0 <= i < |rounds| ==> verdicts[i] == Verdict(rounds[i])
  {
    verdicts := [];
    for i := 0 to |rounds|
      invariant |verdicts| == i
      invariant forall k :: 0 <= k < i ==> verdicts[k] == Verdict(rounds[k])
    {
      var o := rounds[i];
      var heartbeat := true;
      if o.file.Some? {
        if o.file.value < Seconds(o.t) - WATCHDOG_TIMER / 1000 { heartbeat := false; }
      }
      var verdict := None;
      if !o.alive || !heartbeat {
        var reason := "";
        if !heartbeat { reason := reason + "Heartbeat missed;"; }
        ghost var head := reason;
        if o.alive { reason := reason + "Sketch is not running"; }
        assert head == if Missed(o.file, o.t) then "Heartbeat missed;" else "";
        assert reason == head + if o.alive then "Sketch is not running" else "";
        verdict := Some(reason);
      }
      verdicts := verdicts + [verdict];
    }
  }
}
