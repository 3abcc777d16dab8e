/** The clock: synchronising with an NTP server and interpolating UNIX time between
    synchronisations from the wrapped millisecond counter.

    time_t is a signed 32-bit integer, like `long` on the embedded targets.  The packets
    that arrive, the resolved addresses and the clock readings are inputs; the inputs are
    finite, so a call may end in StillTrying.
 */
module Ntp {
  import opened Words

  const NTP_PACKET_SIZE := 48
  const JAN_1970: int := 2208988800
  const RESPONSE_TIMEOUT: int := 5 * 1000
  /** 2015-07-23: any earlier time is taken for an unset clock. */
  const EARLIEST: int := 1437648361

  // ----- the epoch of a packet -----

  /** Conversion to a signed 32-bit time_t. */
  function ToTimeT(x: int): int {
    (x + 0x8000_0000) % TWO_32 - 0x8000_0000
  }

  /** Seconds of an NTP timestamp: four bytes, most significant first. */
  function FromBigEndian(b: seq<Byte>): nat {
    if b == [] then 0 else 256 * FromBigEndian(b[..|b| - 1]) + b[|b| - 1]
  }

  /** Utils::hton64, which reads four bytes. */
  method Hton64(bignum: seq<Byte>) returns (aux: nat)
    requires |bignum| >= 4
    ensures aux == FromBigEndian(bignum[..4]) && aux < TWO_32
  {
    aux := 0;
    for i := 0 to 4
      invariant aux == FromBigEndian(bignum[..i])
    {
      assert bignum[..i + 1][..i] == bignum[..i];
      aux := aux * 256 + bignum[i];
    }
    FromBigEndianBound(bignum[..4]);
  }

  lemma FromBigEndianBound(b: seq<Byte>)
    requires |b| == 4
    ensures FromBigEndian(b) < TWO_32
    ensures FromBigEndian(b)
         == 0x100_0000 * (b[0] as int) + 0x1_0000 * (b[1] as int) + 0x100 * (b[2] as int) + b[3] as int
  {
    assert b[..3][..2] == b[..2] && b[..2][..1] == b[..1] && b[..1][..0] == [];
    assert FromBigEndian(b[..1]) == b[0] as int;
    assert FromBigEndian(b[..2]) == 256 * (b[0] as int) + b[1] as int;
    assert FromBigEndian(b[..3]) == 256 * FromBigEndian(b[..2]) + b[2] as int;
  }

  function Epoch(packet: seq<Byte>): int
    requires |packet| >= NTP_PACKET_SIZE
  {
    ToTimeT(FromBigEndian(packet[40..44]) - JAN_1970)
  }

  /** RFC 5905, section 6: seconds since 1900 in era 0, and the first 61505152 seconds of
      era 1 (which begins in 2036) come out right as well; nothing else passes for a time
      after the earliest one. */
  lemma EpochEras(n: nat)
    requires n < TWO_32
    ensures ToTimeT(n - JAN_1970) == if n < 61505152 then n + TWO_32 - JAN_1970 else n - JAN_1970
    ensures ToTimeT(n - JAN_1970) >= EARLIEST <==> n < 61505152 || n >= JAN_1970 + EARLIEST
  {
    var x := n - JAN_1970;
    if n < 61505152 {
      assert (x + 0x8000_0000) % TWO_32 == x + 0x8000_0000 + TWO_32;
    } else {
      assert (x + 0x8000_0000) % TWO_32 == x + 0x8000_0000;
    }
  }

  // ----- synchronising -----

  datatype Clock = Clock(unixTimeTS: int, unixTimeUpdate: Word32)

  /** One pass of the receive loop: the time of the loop test, what receive returned, and the
      time at which a packet is stamped. */
  datatype Poll = Poll(t: nat, packet: seq<Byte>, stamp: nat)

  /** One pass of the outer loop: the resolved server (0: failure), the time after the
      request, and the polls until the time-out. */
  datatype Attempt = Attempt(server: Word32, start: nat, polls: seq<Poll>)

  datatype Outcome = Returned(ok: bool) | StillTrying

  datatype Progress = Progress(clock: Clock, ret: bool)

  function Receive(p: Progress, start: nat, polls: seq<Poll>): Progress
    decreases |polls|
  {
    if polls == [] || p.ret || Elapsed(Millis(polls[0].t), Millis(start)) >= RESPONSE_TIMEOUT then p
    else if |polls[0].packet| >= NTP_PACKET_SIZE then
      Progress(Clock(Epoch(polls[0].packet), Millis(polls[0].stamp)), true)
    else Receive(p, start, polls[1..])
  }

  datatype SyncResult = SyncResult(clock: Clock, outcome: Outcome)

  function SyncLoop(p: Progress, attempts: seq<Attempt>): SyncResult
    decreases |attempts|
  {
    if attempts == [] then SyncResult(p.clock, StillTrying)
    else if attempts[0].server == 0 then SyncResult(p.clock, Returned(false))
    else
      var q := Receive(p, attempts[0].start, attempts[0].polls);
      if q.clock.unixTimeTS < EARLIEST then SyncLoop(q, attempts[1..]) else SyncResult(q.clock, Returned(q.ret))
  }

  /** The clock was set from this poll. */
  predicate SetFrom(c: Clock, p: Poll) {
    && |p.packet| >= NTP_PACKET_SIZE
    && c == Clock(Epoch(p.packet), Millis(p.stamp))
  }

  /** The clock was set from some packet of these attempts. */
  ghost predicate FromPacket(c: Clock, attempts: seq<Attempt>) {
    exists i, j :: 0 <= i < |attempts| && 0 <= j < |attempts[i].polls| && SetFrom(c, attempts[i].polls[j])
  }

  lemma {:induction false} ReceiveSource(p: Progress, start: nat, polls: seq<Poll>)
    ensures var q := Receive(p, start, polls);
            q == p || (!p.ret && q.ret && exists j :: 0 <= j < |polls| && SetFrom(q.clock, polls[j]))
    decreases |polls|
  {
    if polls != [] {
      var q := Receive(p, start, polls);
      ReceiveSource(p, start, polls[1..]);
      if q != p {
        if q != Receive(p, start, polls[1..]) {
          assert SetFrom(q.clock, polls[0]);
        } else {
          var j :| 0 <= j < |polls[1..]| && SetFrom(q.clock, polls[1..][j]);
          assert polls[1..][j] == polls[j + 1];
        }
      }
    }
  }

  /** A call returns true only with a clock that a full packet of this call set to a time
      that is not too early; if no packet arrived, the clock is what it was. */
  lemma {:induction false} SyncReturnsTrueOnlyIfSet(c: Clock, attempts: seq<Attempt>)
    ensures var r := SyncLoop(Progress(c, false), attempts);
            && (r.outcome == Returned(true) ==> r.clock.unixTimeTS >= EARLIEST && FromPacket(r.clock, attempts))
            && (r.clock == c || FromPacket(r.clock, attempts))
    decreases |attempts|
  {
    if attempts != [] && attempts[0].server != 0 {
      var a := attempts[0];
      ReceiveSource(Progress(c, false), a.start, a.polls);
      var q := Receive(Progress(c, false), a.start, a.polls);
      if q.ret {
        assert FromPacket(q.clock, attempts) by {
          var j :| 0 <= j < |a.polls| && SetFrom(q.clock, a.polls[j]);
          assert attempts[0].polls[j] == a.polls[j];
        }
        if q.clock.unixTimeTS < EARLIEST { EarlyPacketBlocks(q.clock, attempts[1..]); }
      } else {
        SyncReturnsTrueOnlyIfSet(c, attempts[1..]);
        var r := SyncLoop(Progress(c, false), attempts[1..]);
        if FromPacket(r.clock, attempts[1..]) {
          var i, j :| 0 <= i < |attempts[1..]| && 0 <= j < |attempts[1..][i].polls|
                      && SetFrom(r.clock, attempts[1..][i].polls[j]);
          assert attempts[i + 1].polls[j] == attempts[1..][i].polls[j];
        }
      }
    }
  }

  /** Once a packet with too early a time has been accepted the call cannot receive any more:
      it goes on for ever unless a name lookup fails, and never returns true. */
  lemma {:induction false} EarlyPacketBlocks(c: Clock, attempts: seq<Attempt>)
    requires c.unixTimeTS < EARLIEST
    ensures SyncLoop(Progress(c, true), attempts)
         == SyncResult(c, if exists i :: 0 <= i < |attempts| && attempts[i].server == 0 then Returned(false)
                          else StillTrying)
    decreases |attempts|
  {
    if attempts != [] {
      EarlyPacketBlocks(c, attempts[1..]);
      assert attempts[0].server != 0 ==>
        ((exists i :: 0 <= i < |attempts| && attempts[i].server == 0) <==>
         (exists i :: 0 <= i < |attempts[1..]| && attempts[1..][i].server == 0)) by {
        forall i | 0 <= i < |attempts| && attempts[i].server == 0 && attempts[0].server != 0
          ensures attempts[1..][i - 1].server == 0 { }
        forall i | 0 <= i < |attempts[1..]| && attempts[1..][i].server == 0
          ensures attempts[i + 1].server == 0 { }
      }
    }
  }

  // ----- reading the time -----

  /** getUNIXTime at a true time: unsigned 32-bit arithmetic. */
  function UnixTime(c: Clock, t: nat): Word32 {
    (c.unixTimeTS + Elapsed(Millis(t), c.unixTimeUpdate) / 1000) % TWO_32
  }

  /** getUNIXTimeMS, in 64 bits. */
  function UnixTimeMs(c: Clock, t: nat): nat {
    (c.unixTimeTS * 1000 + Elapsed(Millis(t), c.unixTimeUpdate)) % 0x1_0000_0000_0000_0000
  }

  /** Interpolated time is right exactly as long as the counter has not gone once round since
      the packet was stamped; then it falls back by 2^32 ms. */
  lemma InterpolatedClock(c: Clock, stamp: nat, t: nat)
    requires c.unixTimeUpdate == Millis(stamp) && 0 <= c.unixTimeTS < 0x8000_0000 && stamp <= t
    ensures UnixTime(c, t) == c.unixTimeTS + (t - stamp) / 1000 <==> t - stamp < TWO_32
    ensures UnixTime(c, t) == c.unixTimeTS + (t - stamp) % TWO_32 / 1000
    ensures UnixTimeMs(c, t) == 1000 * c.unixTimeTS + (t - stamp) % TWO_32
    ensures UnixTime(c, t) == UnixTimeMs(c, t) / 1000
  {
    ElapsedIsTrueTime(t, stamp);
    var e := Elapsed(Millis(t), c.unixTimeUpdate);
    assert c.unixTimeTS * 1000 + e < 0x1_0000_0000_0000_0000;
    assert (c.unixTimeTS * 1000 + e) / 1000 == c.unixTimeTS + e / 1000;
    assert UnixTime(c, t) == c.unixTimeTS + e / 1000;
    if t - stamp >= TWO_32 { assert (t - stamp) / 1000 > (t - stamp) % TWO_32 / 1000 by { OneRound(t - stamp); } }
  }

  lemma OneRound(d: nat)
    requires d >= TWO_32
    ensures d % TWO_32 / 1000 < d / 1000
  {
    assert d % TWO_32 <= d - TWO_32;
  }

  /** It never goes backwards within that time. */
  lemma InterpolatedClockMonotone(c: Clock, stamp: nat, t: nat, u: nat)
    requires c.unixTimeUpdate == Millis(stamp) && 0 <= c.unixTimeTS < 0x8000_0000 && stamp <= t <= u < stamp + TWO_32
    ensures UnixTime(c, t) <= UnixTime(c, u)
  {
    InterpolatedClock(c, stamp, t);
    InterpolatedClock(c, stamp, u);
  }

  /** After a call that returned true the interpolated time is the packet's time plus the
      true seconds since it was stamped. */
  lemma TimeAfterSync(c: Clock, attempts: seq<Attempt>)
    requires SyncLoop(Progress(c, false), attempts).outcome == Returned(true)
    ensures var now := SyncLoop(Progress(c, false), attempts).clock;
            exists i, j :: 0 <= i < |attempts| && 0 <= j < |attempts[i].polls| &&
              var p := attempts[i].polls[j];
              && SetFrom(now, p) && Epoch(p.packet) >= EARLIEST
              && forall t :: p.stamp <= t < p.stamp + TWO_32 ==>
                   UnixTime(now, t) == Epoch(p.packet) + (t - p.stamp) / 1000
  {
    SyncReturnsTrueOnlyIfSet(c, attempts);
    var now := SyncLoop(Progress(c, false), attempts).clock;
    var i, j :| 0 <= i < |attempts| && 0 <= j < |attempts[i].polls| && SetFrom(now, attempts[i].polls[j]);
    var p := attempts[i].polls[j];
    hide SyncLoop;
    forall t | p.stamp <= t < p.stamp + TWO_32 ensures UnixTime(now, t) == Epoch(p.packet) + (t - p.stamp) / 1000 {
      InterpolatedClock(now, p.stamp, t);
    }
  }

  // ----- which reply is taken -----

  /** The polls of an attempt are made one after the other, within one round of the counter. */
  ghost predicate Polled(a: Attempt) {
    && (forall i :: 0 <= i < |a.polls| ==> a.start <= a.polls[i].t < a.start + TWO_32)
    && (forall i, j :: 0 <= i < j < |a.polls| ==> a.polls[i].t <= a.polls[j].t)
  }

  /** Poll j is the first to deliver a full packet, within five seconds. */
  ghost predicate AnsweredAt(a: Attempt, j: nat) {
    && j < |a.polls| && |a.polls[j].packet| >= 48 && a.polls[j].t < a.start + 5000
    && forall i :: 0 <= i < j ==> |a.polls[i].packet| < 48
  }

  /** No full packet was polled within five seconds. */
  ghost predicate Unanswered(a: Attempt) {
    forall i :: 0 <= i < |a.polls| && a.polls[i].t < a.start + 5000 ==> |a.polls[i].packet| < 48
  }

  /** The seconds since 1970 in bytes 40 to 43 of a packet; too small a number belongs to the
      era that begins in 2036. */
  function UnixSeconds(b: seq<Byte>): int
    requires |b| >= 48
  {
    var n := 0x100_0000 * (b[40] as int) + 0x1_0000 * (b[41] as int) + 0x100 * (b[42] as int) + b[43] as int;
    if n < 61505152 then n + 0x1_0000_0000 - 2208988800 else n - 2208988800
  }

  lemma EpochBytes(b: seq<Byte>)
    requires |b| >= 48
    ensures Epoch(b) == UnixSeconds(b) < 0x8000_0000
  {
    var q := b[40..44];
    FromBigEndianBound(q);
    assert q[0] == b[40] && q[1] == b[41] && q[2] == b[42] && q[3] == b[43];
    EpochEras(FromBigEndian(q));
    hide FromBigEndian;
  }

  lemma {:induction false} ReceiveAnswer(c: Clock, a: Attempt, j: nat)
    requires Polled(a) && AnsweredAt(a, j)
    ensures Receive(Progress(c, false), a.start, a.polls)
         == Progress(Clock(Epoch(a.polls[j].packet), Millis(a.polls[j].stamp)), true)
    decreases j
  {
    ElapsedIsTrueTime(a.polls[0].t, a.start);
    hide Elapsed, Millis, Epoch;
    if j > 0 {
      var a' := a.(polls := a.polls[1..]);
      assert a'.polls[j - 1] == a.polls[j];
      ReceiveAnswer(c, a', j - 1);
    }
  }

  lemma {:induction false} ReceiveNothing(c: Clock, a: Attempt)
    requires Polled(a) && Unanswered(a)
    ensures Receive(Progress(c, false), a.start, a.polls) == Progress(c, false)
    decreases |a.polls|
  {
    if a.polls != [] {
      ElapsedIsTrueTime(a.polls[0].t, a.start);
      hide Elapsed, Millis, Epoch;
      ReceiveNothing(c, a.(polls := a.polls[1..]));
    }
  }

  /** While the time is not plausible the call tries again after every attempt without an answer;
      the first full packet within five seconds of a request ends it with true and the time
      that its bytes 40 to 43 say, or makes it impossible to end with true if that is before the
      earliest plausible time. */
  lemma {:induction false} AnswerIsTaken(c: Clock, attempts: seq<Attempt>, k: nat, j: nat)
    requires k < |attempts| && (k > 0 ==> c.unixTimeTS < 1437648361)
    requires forall i :: 0 <= i <= k ==> attempts[i].server != 0 && Polled(attempts[i])
    requires (forall i :: 0 <= i < k ==> Unanswered(attempts[i])) && AnsweredAt(attempts[k], j)
    ensures var r, p := SyncLoop(Progress(c, false), attempts), attempts[k].polls[j];
            && r.clock == Clock(UnixSeconds(p.packet), Millis(p.stamp))
            && (r.outcome == Returned(true) <==> UnixSeconds(p.packet) >= 1437648361)
            && (UnixSeconds(p.packet) >= 1437648361 ==> forall t :: p.stamp <= t < p.stamp + TWO_32 ==>
                  UnixTime(r.clock, t) == UnixSeconds(p.packet) + (t - p.stamp) / 1000)
    decreases k
  {
    var p := attempts[k].polls[j];
    EpochBytes(p.packet);
    if k == 0 {
      ReceiveAnswer(c, attempts[0], j);
      var now := Clock(Epoch(p.packet), Millis(p.stamp));
      hide Receive, UnixTime, Epoch, Millis;
      if UnixSeconds(p.packet) >= 1437648361 {
        ClockFromPacket(now, p);
      } else {
        EarlyPacketBlocks(now, attempts[1..]);
      }
    } else {
      ReceiveNothing(c, attempts[0]);
      assert forall i :: 0 <= i < k ==> attempts[1..][i] == attempts[i + 1];
      hide Receive, UnixTime, Epoch, Millis, Polled, Unanswered, AnsweredAt, UnixSeconds;
      AnswerIsTaken(c, attempts[1..], k - 1, j);
    }
  }

  lemma ClockFromPacket(c: Clock, p: Poll)
    requires |p.packet| >= 48 && c == Clock(UnixSeconds(p.packet), Millis(p.stamp)) && c.unixTimeTS >= 1437648361
    requires c.unixTimeTS < 0x8000_0000
    ensures forall t :: p.stamp <= t < p.stamp + TWO_32 ==>
              UnixTime(c, t) == UnixSeconds(p.packet) + (t - p.stamp) / 1000
  {
    hide UnixTime, UnixSeconds;
    forall t | p.stamp <= t < p.stamp + TWO_32 ensures UnixTime(c, t) == c.unixTimeTS + (t - p.stamp) / 1000 {
      InterpolatedClock(c, p.stamp, t);
    }
  }

  /** A call whose first request is not answered within five seconds returns false with the
      clock as it was, if that shows a plausible time; otherwise it goes on to the next. */
  lemma NoAnswer(c: Clock, attempts: seq<Attempt>)
    requires attempts != [] && attempts[0].server != 0 && Polled(attempts[0]) && Unanswered(attempts[0])
    ensures SyncLoop(Progress(c, false), attempts)
         == if c.unixTimeTS >= 1437648361 then SyncResult(c, Returned(false))
            else SyncLoop(Progress(c, false), attempts[1..])
  {
    ReceiveNothing(c, attempts[0]);
    hide Receive;
  }

  // ----- the object -----

  class NtpClient {
    var unixTimeTS: int
    var unixTimeUpdate: Word32
    var ntpserver: string

    constructor (ntpserver: string)
      ensures View() == Clock(0, 0) && this.ntpserver == ntpserver
    {
      unixTimeTS, unixTimeUpdate, this.ntpserver := 0, 0, ntpserver;
    }

    function View(): Clock
      reads this
    {
      Clock(unixTimeTS, unixTimeUpdate)
    }

    method Sync(attempts: seq<Attempt>) returns (outcome: Outcome)
      modifies `unixTimeTS, `unixTimeUpdate
      ensures if ntpserver == "" then outcome == Returned(false) && View() == old(View())
              else SyncResult(View(), outcome) == SyncLoop(Progress(old(View()), false), attempts)
    {
      var ret := false;
      if ntpserver == "" { return Returned(false); }
      var rest := attempts;
      hide Receive;
      while rest != []
        invariant SyncLoop(Progress(old(View()), false), attempts) == SyncLoop(Progress(View(), ret), rest)
        decreases |rest|
      {
        var a := rest[0];
        if a.server == 0 { return Returned(false); }
        ret := WaitForResponse(ret, a.start, a.polls);
        if unixTimeTS >= EARLIEST { return Returned(ret); }
        rest := rest[1..];
      }
      outcome := StillTrying;
    }

    method WaitForResponse(was: bool, start: nat, polls: seq<Poll>) returns (ret: bool)
      modifies `unixTimeTS, `unixTimeUpdate
      ensures Progress(View(), ret) == Receive(Progress(old(View()), was), start, polls)
    {
      ret := was;
      var i := 0;
      while i < |polls| && !ret && Elapsed(Millis(polls[i].t), Millis(start)) < RESPONSE_TIMEOUT
        invariant i <= |polls|
        invariant Receive(Progress(old(View()), was), start, polls) == Receive(Progress(View(), ret), start, polls[i..])
      {
        if |polls[i].packet| >= NTP_PACKET_SIZE {
          var ntptime := Hton64(polls[i].packet[40..]);
          assert polls[i].packet[40..][..4] == polls[i].packet[40..44];
          unixTimeTS := ToTimeT(ntptime - JAN_1970);
          unixTimeUpdate := Millis(polls[i].stamp);
          ret := true;
        }
        assert polls[i..][0] == polls[i] && polls[i..][1..] == polls[i + 1..];
        i := i + 1;
      }
    }
  }
}
