/** Machine words shared by the other modules: bytes, the 32-bit `unsigned long`
    of the embedded targets, and the millisecond counter read by Utils::millis.

    True time is an unbounded number of milliseconds on CLOCK_REALTIME.  The code
    only ever sees it reduced to 32 bits (Utils::millis) or to whole seconds
    (time(NULL), file modification times).
 */
module Words {

  const TWO_16 := 0x1_0000
  const TWO_32 := 0x1_0000_0000

  type Byte = b: int | 0 <= b < 256
  type Word16 = w: int | 0 <= w < TWO_16
  type Word32 = w: int | 0 <= w < TWO_32

  datatype Option<+T> = None | Some(value: T)

  /** The counter value at a true time. */
  function Millis(t: nat): Word32 {
    t % TWO_32
  }

  /** time(NULL) at a true time. */
  function Seconds(t: nat): nat {
    t / 1000
  }

  /** `now - since` in 32-bit unsigned arithmetic. */
  function Elapsed(now: Word32, since: Word32): Word32 {
    (now - since) % TWO_32
  }

  /** The wrapped difference is the true one modulo 2^32, so it never exceeds the
      true one, and it is exact until the counter has gone all the way round. */
  lemma ElapsedIsTrueTime(now: nat, since: nat)
    requires since <= now
    ensures Elapsed(Millis(now), Millis(since)) == (now - since) % TWO_32
    ensures Elapsed(Millis(now), Millis(since)) <= now - since
    ensures Elapsed(Millis(now), Millis(since)) == now - since <==> now - since < TWO_32
  {
    var a, b := now / TWO_32, since / TWO_32;
    assert Millis(now) == now - a * TWO_32;
    assert Millis(since) == since - b * TWO_32;
  }

  // ----- sequences -----

  /** The C string at the start of s: what precedes the first nul. */
  function UpTo<T(==)>(s: seq<T>, nul: T): (t: seq<T>)
    ensures t <= s && nul !in t && (|t| < |s| ==> s[|t|] == nul)
  {
    if s == [] || s[0] == nul then [] else [s[0]] + UpTo(s[1..], nul)
  }

  /** There is only one such prefix. */
  lemma {:induction false} UpToIs<T>(s: seq<T>, t: seq<T>, nul: T)
    requires t <= s && nul !in t && (|t| < |s| ==> s[|t|] == nul)
    ensures UpTo(s, nul) == t
  {
    if t != [] {
      assert s[0] == t[0] && t[0] in t;
      UpToIs(s[1..], t[1..], nul);
    }
  }

  lemma WithoutOne<T>(rest: seq<T>, l: seq<T>, r: seq<T>, x: T)
    requires multiset(rest + [x]) == multiset(l + [x] + r)
    ensures multiset(rest) == multiset(l + r)
  {
    assert multiset(rest) == multiset(rest + [x]) - multiset{x};
    assert multiset(l + r) == multiset(l + [x] + r) - multiset{x};
  }
}
