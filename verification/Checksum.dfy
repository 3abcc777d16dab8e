/** The Internet checksum of NetworkManager::checksum, on a little-endian machine:
    16-bit words added up in a 32-bit accumulator that wraps, two folds, complement.
    The reference is one's-complement addition (RFC 1071, section 1).
 */
module Checksum {
  import opened Words

  const ONES: Word16 := 0xFFFF
  /** The longest buffer whose words cannot overflow the accumulator. */
  const MAX_LENGTH := 131074

  // ----- the reference: one's-complement sums -----

  /** A word loaded from memory, low byte first. */
  function Pair(lo: Byte, hi: Byte): Word16 {
    lo as int + 256 * (hi as int)
  }

  /** The 16-bit words of a buffer; an odd last byte counts as a word by itself. */
  function WordAt(b: seq<Byte>, i: nat): Word16
    requires 2 * i < |b|
  {
    Pair(b[2 * i], if 2 * i + 1 < |b| then b[2 * i + 1] else 0)
  }

  function AsWords(b: seq<Byte>): (ws: seq<Word16>)
    ensures |ws| == (|b| + 1) / 2
  {
    seq((|b| + 1) / 2, i requires 0 <= i < (|b| + 1) / 2 => WordAt(b, i))
  }

  /** Addition with end-around carry. */
  function OcAdd(x: Word16, y: Word16): Word16 {
    if x + y < TWO_16 then x + y else x + y - ONES
  }

  function OcSum(ws: seq<Word16>): Word16 {
    if ws == [] then 0 else OcAdd(OcSum(ws[..|ws| - 1]), ws[|ws| - 1])
  }

  // ----- what the code computes -----

  function WordSum(ws: seq<Word16>): (s: nat)
    ensures s <= |ws| * ONES
  {
    if ws == [] then 0 else WordSum(ws[..|ws| - 1]) + ws[|ws| - 1]
  }

  /** The representative of s modulo 65535 that is 0 only for 0. */
  function Residue(s: nat): Word16 {
    if s == 0 then 0 else (s - 1) % ONES + 1
  }

  function Result(b: seq<Byte>): Word16 {
    ONES - Residue(WordSum(AsWords(b)) % TWO_32)
  }

  lemma ResidueStep(s: nat, w: Word16)
    ensures OcAdd(Residue(s), w) == Residue(s + w)
  {
    if s > 0 {
      var q := (s - 1) / ONES;
      assert s - 1 == q * ONES + (s - 1) % ONES;
      ResidueOf(s + w, q, (s - 1) % ONES + w);
    }
  }

  lemma ResidueOf(s: nat, q: int, r: nat)
    requires s >= 1 && s - 1 == q * ONES + r && r < 2 * ONES
    ensures Residue(s) == if r < ONES then r + 1 else r - ONES + 1
  {
  }

  lemma {:induction false} OcSumIsResidue(ws: seq<Word16>)
    ensures OcSum(ws) == Residue(WordSum(ws))
  {
    if ws != [] {
      OcSumIsResidue(ws[..|ws| - 1]);
      ResidueStep(WordSum(ws[..|ws| - 1]), ws[|ws| - 1]);
    }
  }

  /** Two folds are enough for any 32-bit accumulator. */
  lemma TwoFolds(sum: Word32)
    ensures var once := sum / TWO_16 + sum % TWO_16;
            var twice := once + once / TWO_16;
            twice < TWO_32 && twice % TWO_16 == Residue(sum)
  {
    var hi, lo := sum / TWO_16, sum % TWO_16;
    var once := hi + lo;
    if sum > 0 {
      assert sum == hi * TWO_16 + lo && once >= 1;
      ResidueOf(sum, hi, once - 1);
    }
  }

  /** The loop over a buffer of any length, with the accumulator reduced at every addition. */
  method Compute(b: array<Byte>) returns (r: Word16)
    ensures r == Result(b[..])
    ensures b.Length <= MAX_LENGTH ==> r == ONES - OcSum(AsWords(b[..]))
  {
    ghost var ws := AsWords(b[..]);
    var sum: Word32 := 0;
    assert WordSum(ws[..0]) == 0;
    hide AsWords, WordSum, OcSum, Residue, Result;
    var buf, len := 0, b.Length;
    while len > 1
      invariant 0 <= len && 2 * buf + len == b.Length
      invariant sum == WordSum(ws[..buf]) % TWO_32
    {
      Accumulate(b[..], buf);
      sum := (sum + Pair(b[2 * buf], b[2 * buf + 1])) % TWO_32;
      buf := buf + 1;
      len := len - 2;
    }
    if len == 1 {
      Accumulate(b[..], buf);
      sum := (sum + Pair(b[2 * buf], 0)) % TWO_32;
      buf := buf + 1;
    }
    assert ws[..buf] == ws;
    hide *;
    r := FoldAndComplement(sum);
    Definition(b[..]);
  }

  method FoldAndComplement(accumulator: Word32) returns (r: Word16)
    ensures r == ONES - Residue(accumulator)
  {
    var sum := accumulator;
    TwoFolds(sum);
    hide Residue;
    sum := sum / TWO_16 + sum % TWO_16;
    sum := sum + sum / TWO_16;
    r := (TWO_32 - 1 - sum) % TWO_16;
  }

  lemma Definition(b: seq<Byte>)
    ensures Result(b) == ONES - Residue(WordSum(AsWords(b)) % TWO_32)
    ensures |b| <= MAX_LENGTH ==> Result(b) == ONES - OcSum(AsWords(b)) == ONES - Residue(WordSum(AsWords(b)))
  {
    OcSumIsResidue(AsWords(b));
    hide Residue, WordSum, OcSum;
    if |b| <= MAX_LENGTH { ShortBufferFits(b); }
  }

  lemma Accumulate(b: seq<Byte>, i: nat)
    requires 2 * i < |b|
    ensures var ws := AsWords(b);
            WordSum(ws[..i + 1]) % TWO_32 == (WordSum(ws[..i]) % TWO_32 + WordAt(b, i)) % TWO_32
  {
    var ws := AsWords(b);
    assert ws[..i + 1][..i] == ws[..i];
    ModAdd(WordSum(ws[..i]), WordAt(b, i));
  }

  lemma ModAdd(s: nat, w: Word16)
    ensures (s % TWO_32 + w) % TWO_32 == (s + w) % TWO_32
  {
  }

  lemma ShortBufferFits(b: seq<Byte>)
    requires |b| <= MAX_LENGTH
    ensures WordSum(AsWords(b)) < TWO_32
  {
    assert |AsWords(b)| * ONES <= 65537 * ONES;
  }

  // ----- correctness, exactly -----

  /** For every length that an `int` can carry, the result is the Internet checksum if and
      only if the sum of the words fits the 32-bit accumulator. */
  lemma CorrectExactlyWhenSumFits(b: seq<Byte>)
    requires |b| < 0x8000_0000
    ensures Result(b) == ONES - OcSum(AsWords(b)) <==> WordSum(AsWords(b)) < TWO_32
  {
    Definition(b);
    OcSumIsResidue(AsWords(b));
    assert |AsWords(b)| <= 0x4000_0000;
    assert WordSum(AsWords(b)) <= 0x4000_0000 * ONES;
    hide *;
    WrappedResidue(WordSum(AsWords(b)));
  }

  lemma WrappedResidue(s: nat)
    requires s <= 0x4000_0000 * ONES
    ensures Residue(s % TWO_32) == Residue(s) <==> s < TWO_32
  {
    if s >= TWO_32 {
      var k := s / TWO_32;
      assert 1 <= k < 0x8000;
      LostCarries(s, k, s % TWO_32);
    }
  }

  /** Every carry out of the accumulator is one unit lost from the sum modulo 65535. */
  lemma LostCarries(s: nat, k: nat, rest: nat)
    requires s == k * TWO_32 + rest && 1 <= k < 0x8000
    ensures Residue(s) != Residue(rest)
  {
    // 2^32 = 65537 * 65535 + 1
    if rest > 0 {
      var q := (rest - 1) / ONES;
      var r := (rest - 1) % ONES;
      ResidueOf(rest, q, r);
      ResidueOf(s, k * 65537 + q, k + r);
    }
  }

  /** Every buffer of up to 131074 bytes is summed correctly, and the length is the best possible. */
  lemma LengthBound(b: seq<Byte>)
    requires |b| <= MAX_LENGTH
    ensures Result(b) == ONES - OcSum(AsWords(b))
    ensures var long := seq(MAX_LENGTH + 2, _ => 255); Result(long) != ONES - OcSum(AsWords(long))
  {
    ShortBufferFits(b);
    CorrectExactlyWhenSumFits(b);
    var long: seq<Byte> := seq(MAX_LENGTH + 2, _ => 255);
    AllOnes(AsWords(long));
    CorrectExactlyWhenSumFits(long);
  }

  lemma {:induction false} AllOnes(ws: seq<Word16>)
    requires forall i :: 0 <= i < |ws| ==> ws[i] == ONES
    ensures WordSum(ws) == |ws| * ONES
  {
    if ws != [] { AllOnes(ws[..|ws| - 1]); }
  }

  // ----- verifying a checksummed buffer -----

  lemma {:induction false} SumOfUpdate(ws: seq<Word16>, k: nat, v: Word16)
    requires k < |ws|
    ensures WordSum(ws[k := v]) == WordSum(ws) - ws[k] + v
  {
    var n := |ws| - 1;
    if k < n {
      assert ws[k := v][..n] == ws[..n][k := v];
      SumOfUpdate(ws[..n], k, v);
    } else {
      assert ws[k := v][..n] == ws[..n];
    }
  }

  /** Store a word, low byte first, at word position k. */
  function Store(b: seq<Byte>, k: nat, v: Word16): (b': seq<Byte>)
    requires 2 * k + 1 < |b|
    ensures |b'| == |b|
  {
    b[2 * k := v % 256][2 * k + 1 := v / 256]
  }

  lemma WordsOfStore(b: seq<Byte>, k: nat, v: Word16)
    requires 2 * k + 1 < |b|
    ensures AsWords(Store(b, k, v)) == AsWords(b)[k := v]
  {
    var b' := Store(b, k, v);
    forall i | 0 <= i < |AsWords(b)| ensures AsWords(b')[i] == AsWords(b)[k := v][i] {
      assert AsWords(b')[i] == WordAt(b', i) && AsWords(b)[i] == WordAt(b, i);
    }
  }

  /** Writing the result into a zeroed word makes the checksum of the whole buffer zero. */
  lemma StoredChecksumVerifies(b: seq<Byte>, k: nat)
    requires 2 * k + 1 < |b| <= MAX_LENGTH && b[2 * k] == b[2 * k + 1] == 0
    ensures Result(Store(b, k, Result(b))) == 0
  {
    assert AsWords(b)[k] == WordAt(b, k) == 0;
    hide *;
    var c := Result(b);
    Definition(b);
    WordsOfStore(b, k, c);
    Definition(Store(b, k, c));
    SumOfUpdate(AsWords(b), k, c);
    CompletesToOnes(WordSum(AsWords(b)));
  }

  lemma CompletesToOnes(s: nat)
    ensures Residue(s + (ONES - Residue(s))) == ONES
  {
    if s > 0 { ResidueOf(s + (ONES - Residue(s)), (s - 1) / ONES, ONES - 1); }
  }

  /** A receiver that sees zero has detected any change to a single aligned word, other
      than between the two representations of zero. */
  lemma SingleWordChangeDetected(b: seq<Byte>, k: nat, v: Word16)
    requires 2 * k + 1 < |b| <= MAX_LENGTH && Result(b) == 0 && v != AsWords(b)[k]
    ensures Result(Store(b, k, v)) == 0 ==> {v, AsWords(b)[k]} == {0, ONES}
  {
    hide *;
    var w, s, b' := AsWords(b)[k], WordSum(AsWords(b)), Store(b, k, v);
    WordsOfStore(b, k, v);
    Definition(b);
    Definition(b');
    SumOfUpdate(AsWords(b), k, v);
    if Result(b') == 0 { BothFull(s, s - w + v, w, v); }
  }

  lemma BothFull(s: nat, s': nat, w: Word16, v: Word16)
    requires s' == s - w + v && w != v && Residue(s) == Residue(s') == ONES
    ensures {v, w} == {0, ONES}
  {
    var q, q' := (s - 1) / ONES, (s' - 1) / ONES;
    assert s == q * ONES + ONES && s' == q' * ONES + ONES;
    assert v - w == (q' - q) * ONES;
    assert q' - q == 1 || q' - q == -1;
  }

  // ----- algebra -----

  lemma {:induction false} SumOfParts(us: seq<Word16>, vs: seq<Word16>)
    ensures WordSum(us + vs) == WordSum(us) + WordSum(vs)
  {
    if vs == [] {
      assert us + vs == us;
    } else {
      assert (us + vs)[..|us + vs| - 1] == us + vs[..|vs| - 1];
      SumOfParts(us, vs[..|vs| - 1]);
    }
  }

  lemma {:induction false} SumIgnoresOrder(us: seq<Word16>, vs: seq<Word16>)
    requires multiset(us) == multiset(vs)
    ensures WordSum(us) == WordSum(vs)
  {
    assert |multiset(us)| == |us| && |multiset(vs)| == |vs|;
    if us != [] {
      var w, rest := us[|us| - 1], us[..|us| - 1];
      assert us == rest + [w];
      assert w in multiset(vs);
      var i :| 0 <= i < |vs| && vs[i] == w;
      var l, r := vs[..i], vs[i + 1..];
      assert vs == l + [w] + r;
      hide *;
      WithoutOne(rest, l, r, w);
      SumIgnoresOrder(rest, l + r);
      SumOfParts(rest, [w]);
      SumOfParts(l, r);
      SumOfParts(l, [w]);
      SumOfParts(l + [w], r);
    }
  }

  /** RFC 1071, section 2 (A): the order of the words does not matter, at any length. */
  lemma WordOrderIrrelevant(b: seq<Byte>, c: seq<Byte>)
    requires multiset(AsWords(b)) == multiset(AsWords(c))
    ensures Result(b) == Result(c)
  {
    SumIgnoresOrder(AsWords(b), AsWords(c));
  }

  /** RFC 1071, section 2 (A): a buffer split at an even offset is summed in parts. */
  lemma PartialSums(b: seq<Byte>, c: seq<Byte>)
    requires |b| % 2 == 0 && |b| + |c| <= MAX_LENGTH
    ensures ONES - Result(b + c) == OcAdd(ONES - Result(b), ONES - Result(c))
  {
    hide *;
    WordsOfParts(b, c);
    Definition(b);
    Definition(c);
    Definition(b + c);
    SumOfParts(AsWords(b), AsWords(c));
    ResidueSum(WordSum(AsWords(b)), WordSum(AsWords(c)));
  }

  /** An odd last byte counts as a word with a zero behind it, at any length. */
  lemma OddByteIsPadded(b: seq<Byte>)
    requires |b| % 2 == 1
    ensures Result(b + [0]) == Result(b)
  {
    var c := b + [0];
    assert AsWords(c) == AsWords(b) by {
      forall i | 0 <= i < |AsWords(b)| ensures AsWords(c)[i] == AsWords(b)[i] {
        assert AsWords(c)[i] == WordAt(c, i) && AsWords(b)[i] == WordAt(b, i);
      }
    }
    hide Residue, WordSum;
  }

  /** The words of which every sum consists: low byte first, complemented. */
  lemma OneWord(lo: Byte, hi: Byte)
    ensures Result([lo, hi]) == 0xFFFF - (lo as int + 0x100 * (hi as int))
    ensures Result([]) == 0xFFFF
  {
    var ws := AsWords([lo, hi]);
    assert ws[0] == WordAt([lo, hi], 0) && ws[..0] == [];
    assert WordSum(ws) == lo as int + 0x100 * (hi as int);
  }

  lemma WordsOfParts(b: seq<Byte>, c: seq<Byte>)
    requires |b| % 2 == 0
    ensures AsWords(b + c) == AsWords(b) + AsWords(c)
  {
    forall i | 0 <= i < |AsWords(b + c)| ensures AsWords(b + c)[i] == (AsWords(b) + AsWords(c))[i] {
      assert AsWords(b + c)[i] == WordAt(b + c, i);
      if 2 * i < |b| {
        assert (AsWords(b) + AsWords(c))[i] == WordAt(b, i);
      } else {
        assert (AsWords(b) + AsWords(c))[i] == WordAt(c, i - |b| / 2);
      }
    }
  }

  lemma ResidueSum(s: nat, t: nat)
    ensures Residue(s + t) == OcAdd(Residue(s), Residue(t))
  {
    ResidueStep(s, Residue(t));
    if t > 0 {
      var q := (t - 1) / ONES;
      assert t == Residue(t) + q * ONES;
      SameResidue(s + Residue(t), q);
    }
  }

  lemma SameResidue(s: nat, q: nat)
    requires s > 0
    ensures Residue(s + q * ONES) == Residue(s)
  {
    var r := (s - 1) % ONES;
    ResidueOf(s, (s - 1) / ONES, r);
    ResidueOf(s + q * ONES, (s - 1) / ONES + q, r);
  }

  function Swap(w: Word16): Word16 {
    w % 256 * 256 + w / 256
  }

  function SwapBytes(b: seq<Byte>): (c: seq<Byte>)
    requires |b| % 2 == 0
    ensures |c| == |b|
  {
    seq(|b|, i requires 0 <= i < |b| => if i % 2 == 0 then b[i + 1] else b[i - 1])
  }

  /** RFC 1071, section 2 (B): swapping the bytes of every word swaps those of the result. */
  lemma ByteOrderIndependence(b: seq<Byte>)
    requires |b| % 2 == 0 && |b| <= MAX_LENGTH
    ensures Result(SwapBytes(b)) == Swap(Result(b))
  {
    var c := SwapBytes(b);
    hide *;
    SwappedWords(b);
    Definition(b);
    Definition(c);
    var q := SwappedSum(AsWords(b), AsWords(c));
    SwappedResidue(WordSum(AsWords(b)), WordSum(AsWords(c)), q);
  }

  lemma SwappedWords(b: seq<Byte>)
    requires |b| % 2 == 0
    ensures forall i :: 0 <= i < |AsWords(b)| ==> AsWords(SwapBytes(b))[i] == Swap(AsWords(b)[i])
  {
    var c := SwapBytes(b);
    forall i | 0 <= i < |AsWords(b)| ensures AsWords(c)[i] == Swap(AsWords(b)[i]) {
      assert AsWords(c)[i] == WordAt(c, i) && AsWords(b)[i] == WordAt(b, i);
      hide AsWords, Swap, Pair;
      assert c[2 * i] == b[2 * i + 1] && c[2 * i + 1] == b[2 * i];
      SwapPair(b[2 * i], b[2 * i + 1]);
    }
  }

  lemma SwapPair(lo: Byte, hi: Byte)
    ensures Swap(Pair(lo, hi)) == Pair(hi, lo)
  {
    var w := Pair(lo, hi);
    assert w % 256 == lo && w / 256 == hi;
  }

  /** Swapping multiplies by 256 modulo 65535. */
  lemma {:induction false} SwappedSum(ws: seq<Word16>, vs: seq<Word16>) returns (q: nat)
    requires |vs| == |ws| && forall i :: 0 <= i < |ws| ==> vs[i] == Swap(ws[i])
    ensures 256 * WordSum(ws) == WordSum(vs) + q * ONES
    ensures WordSum(ws) == 0 <==> WordSum(vs) == 0
  {
    if ws == [] {
      q := 0;
    } else {
      var n := |ws| - 1;
      q := SwappedSum(ws[..n], vs[..n]);
      q := q + ws[n] / 256;
    }
  }

  lemma SwappedResidue(s: nat, t: nat, q: nat)
    requires 256 * s == t + q * ONES && (s == 0 <==> t == 0)
    ensures ONES - Residue(t) == Swap(ONES - Residue(s))
  {
    if s > 0 {
      var w, p := Residue(s), (s - 1) / ONES;
      assert s == w + p * ONES;
      SwapTimes256(w);
      SwapComplement(w);
      assert t + q * ONES == Swap(w) + (w / 256 + 256 * p) * ONES;
      hide *;
      SameResidue(t, q);
      SameResidue(Swap(w), w / 256 + 256 * p);
    } else {
      assert Residue(t) == Residue(s) == 0;
    }
  }

  lemma SwapTimes256(w: Word16)
    ensures 256 * w == Swap(w) + (w / 256) * ONES
    ensures w > 0 ==> Swap(w) > 0 && Residue(Swap(w)) == Swap(w)
  {
  }

  lemma SwapComplement(w: Word16)
    ensures Swap(ONES - w) == ONES - Swap(w)
  {
    assert (ONES - w) / 256 == 255 - w / 256 && (ONES - w) % 256 == 255 - w % 256;
  }
}
