/** The saved configuration: printing it, reading it back line by line, the eight-character
    coordinates, and the hexadecimal device identifier.

    Coordinates are whole micro-degrees, which is what "%f" prints; a file is its text.
 */
module ConfigFile {
  import opened Words
  import opened HttpHead

  const MICRO := 1_000_000
  const LINE_BUFFER := 100
  const PRINT_BUFFER := 200
  const COORDINATE_WIDTH := 8

  // ----- decimal text -----

  function Pow10(k: nat): (p: nat)
    ensures p >= 1
  {
    if k == 0 then 1 else 10 * Pow10(k - 1)
  }

  /** n in decimal, without leading zeros. */
  function Decimal(n: nat): (s: string)
    ensures |s| >= 1 && forall i :: 0 <= i < |s| ==> IsDigit(s[i])
  {
    if n < 10 then [DigitChar(n)] else Decimal(n / 10) + [DigitChar(n % 10)]
  }

  /** The last k decimal digits of n. */
  function Padded(n: nat, k: nat): (s: string)
    ensures |s| == k && forall i :: 0 <= i < k ==> IsDigit(s[i])
  {
    if k == 0 then "" else Padded(n / 10, k - 1) + [DigitChar(n % 10)]
  }

  /** The number written by a string of digits. */
  function Value(s: string): nat
    requires forall i :: 0 <= i < |s| ==> IsDigit(s[i])
  {
    if s == "" then 0 else 10 * Value(s[..|s| - 1]) + DigitValue(s[|s| - 1])
  }

  lemma {:induction false} DecimalValue(n: nat)
    ensures Value(Decimal(n)) == n
  {
    if n >= 10 {
      DecimalValue(n / 10);
      assert Decimal(n)[..|Decimal(n)| - 1] == Decimal(n / 10);
    } else {
      assert [DigitChar(n)][..0] == "";
    }
  }

  lemma {:induction false} DecimalLength(n: nat, k: nat)
    requires k >= 1
    ensures |Decimal(n)| <= k <==> n < Pow10(k)
  {
    if k == 1 {
      assert Pow10(1) == 10;
      if n >= 10 { assert |Decimal(n)| == |Decimal(n / 10)| + 1; }
    } else if n >= 10 {
      DecimalLength(n / 10, k - 1);
      assert n / 10 < Pow10(k - 1) <==> n < 10 * Pow10(k - 1);
    } else {
      assert Pow10(k - 1) >= 1;
    }
  }

  lemma {:induction false} PaddedValue(n: nat, k: nat)
    ensures Value(Padded(n, k)) == n % Pow10(k)
  {
    if k > 0 {
      PaddedValue(n / 10, k - 1);
      assert Padded(n, k)[..k - 1] == Padded(n / 10, k - 1);
      ModSplit(n, Pow10(k - 1));
    }
  }

  lemma ModSplit(n: nat, p: nat)
    requires p >= 1
    ensures n % (10 * p) == 10 * (n / 10 % p) + n % 10
  {
    var m, q, r := n / 10, n / 10 / p, n / 10 % p;
    assert m == p * q + r;
    assert n == 10 * m + n % 10;
    var rest := 10 * r + n % 10;
    assert n == (10 * p) * q + rest;
    assert 0 <= rest < 10 * p;
    UniqueRemainder(n, 10 * p, q, rest);
  }

  lemma UniqueRemainder(n: nat, d: nat, q: nat, r: nat)
    requires n == d * q + r && r < d
    ensures n % d == r && n / d == q
  {
    var e := n / d - q;
    assert d * e == r - n % d;
    SmallMultiple(d, e);
  }

  lemma SmallMultiple(d: nat, e: int)
    requires d > 0
    ensures e > 0 ==> d * e >= d
    ensures e < 0 ==> d * e <= 0 - d
  {
  }

  /** n without its last j digits. */
  function Drop(n: nat, j: nat): nat {
    hide Pow10;
    n / Pow10(j)
  }

  lemma DropStep(n: nat, j: nat)
    ensures Drop(n, 0) == n && Drop(n, j + 1) == Drop(n / 10, j)
  {
    assert Pow10(0) == 1;
    DivDiv(n, Pow10(j));
  }

  /** The first f of k digits are those of the number without its last k - f digits. */
  lemma {:induction false} PaddedPrefix(n: nat, k: nat, f: nat)
    requires f <= k
    ensures Padded(n, k)[..f] == Padded(Drop(n, k - f), f)
  {
    DropStep(n, if f < k then k - 1 - f else 0);
    if f < k {
      assert Padded(n, k)[..f] == Padded(n / 10, k - 1)[..f];
      hide Padded, Drop;
      PaddedPrefix(n / 10, k - 1, f);
    }
  }

  lemma DivDiv(n: nat, p: nat)
    requires p >= 1
    ensures n / (10 * p) == n / 10 / p
  {
    var q, r := n / 10 / p, n / 10 % p;
    assert n == (10 * p) * q + (10 * r + n % 10);
    UniqueRemainder(n, 10 * p, q, 10 * r + n % 10);
  }

  // ----- coordinates -----

  function Abs(v: int): nat {
    if v < 0 then -v else v
  }

  function Sign(v: int): string {
    if v < 0 then "-" else ""
  }

  /** printf("%f"). */
  function Fixed(v: int): string {
    Sign(v) + Decimal(Abs(v) / MICRO) + "." + Padded(Abs(v) % MICRO, 6)
  }

  function SkipSpaces(s: string): string {
    if s != "" && IsSpace(s[0]) then SkipSpaces(s[1..]) else s
  }

  /** Length of the run of digits at the start. */
  function DigitRun(s: string): (n: nat)
    ensures n <= |s| && forall i :: 0 <= i < n ==> IsDigit(s[i])
    ensures n < |s| ==> !IsDigit(s[n])
  {
    if s == "" || !IsDigit(s[0]) then 0 else 1 + DigitRun(s[1..])
  }

  /** A digit string as micro-units after the decimal point. */
  function Fraction(s: string): nat
    requires |s| <= 6 && forall i :: 0 <= i < |s| ==> IsDigit(s[i])
  {
    Value(s) * Pow10(6 - |s|)
  }

  /** An unsigned fixed-point numeral in micro-units, cut to six decimals. */
  function Numeral(s: string): nat {
    var n := DigitRun(s);
    var whole := Value(s[..n]) * MICRO;
    if n < |s| && s[n] == '.' then
      var t := s[n + 1..];
      var f := DigitRun(t);
      whole + Fraction(t[..if f < 6 then f else 6])
    else whole
  }

  /** atof on fixed-point numerals. */
  function Atof(s: string): int {
    var t := SkipSpaces(s);
    if t != "" && t[0] == '-' then var m: int := Numeral(t[1..]); -m
    else if t != "" && t[0] == '+' then Numeral(t[1..])
    else Numeral(t)
  }

  /** Utils::atofn: atof on at most max characters. */
  function Atofn(s: string, max: nat): int {
    Atof(s[..if max < |s| then max else |s|])
  }

  /** a cut to a multiple of u. */
  function CutDown(a: nat, u: nat): nat
    requires u >= 1
  {
    a / u * u
  }

  /** The decimal place at which eight characters cut the coordinate off. */
  function Unit(v: int): nat {
    Pow10(|Sign(v)| + |Decimal(Abs(v) / MICRO)| - 1)
  }

  /** v cut towards zero at that place. */
  function Truncated(v: int): int {
    var m: int := CutDown(Abs(v), Unit(v));
    if v < 0 then -m else m
  }

  lemma {:induction false} DigitRunIs(s: string, n: nat)
    requires n <= |s| && (forall i :: 0 <= i < n ==> IsDigit(s[i])) && (n < |s| ==> !IsDigit(s[n]))
    ensures DigitRun(s) == n
  {
    if n > 0 { DigitRunIs(s[1..], n - 1); }
  }

  lemma NumeralValue(d: string, f: string)
    requires |f| <= 6 && (forall i :: 0 <= i < |d| ==> IsDigit(d[i])) && (forall i :: 0 <= i < |f| ==> IsDigit(f[i]))
    ensures Numeral(d + "." + f) == Value(d) * MICRO + Fraction(f)
  {
    FractionNumeral(d, f, "");
    assert d + "." + f + "" == d + "." + f;
    hide *;
  }

  lemma {:induction false} Pow10Add(a: nat, b: nat)
    ensures Pow10(a + b) == Pow10(a) * Pow10(b)
  {
    if a > 0 { Pow10Add(a - 1, b); }
  }

  /** w whole units and six decimals m, cut after f decimals. */
  lemma CutNumeral(w: nat, m: nat, f: nat)
    requires f <= 6 && m < MICRO
    ensures var v, u := w * MICRO + m, Pow10(6 - f);
            Numeral(Decimal(w) + "." + Padded(m, 6)[..f]) == CutDown(v, u)
  {
    assert Pow10(6) == MICRO;
    hide Decimal, Padded, Numeral, Pow10, Value;
    var u, p := Pow10(6 - f), Pow10(f);
    PaddedPrefix(m, 6, f);
    var g := Padded(m / u, f);
    NumeralValue(Decimal(w), g);
    DecimalValue(w);
    PaddedValue(m / u, f);
    Pow10Add(f, 6 - f);
    CutArithmetic(w, m, u, p);
    assert Fraction(g) == m / u * u;
  }

  lemma CutArithmetic(w: nat, m: nat, u: nat, p: nat)
    requires u >= 1 && p * u == MICRO && m < MICRO
    ensures m / u < p && (m / u) % p == m / u
    ensures (w * MICRO + m) / u * u == w * MICRO + m / u * u
  {
    var q, r := m / u, m % u;
    assert m == u * q + r;
    Quotient(m, u, p);
    UniqueRemainder(q, p, 0, q);
    assert w * MICRO + m == u * (w * p + q) + r by { assert u * (w * p) == w * (p * u); }
    UniqueRemainder(w * MICRO + m, u, w * p + q, r);
    assert (w * p + q) * u == w * (p * u) + q * u;
  }

  lemma Quotient(m: nat, u: nat, p: nat)
    requires u >= 1 && m < p * u
    ensures m / u < p
  {
  }

  /** Eight characters of the printed coordinate read back as the coordinate cut towards zero. */
  lemma CoordinateReadBack(v: int)
    requires Abs(v) < MICRO * MICRO
    ensures Atofn(Fixed(v), COORDINATE_WIDTH) == Truncated(v)
  {
    hide Decimal, Padded, Numeral, Pow10, Fixed, Truncated, Unit, Atof, Atofn, CutDown, Abs, Sign, IsDigit;
    var a, sg := Abs(v), Sign(v);
    var w, m := a / MICRO, a % MICRO;
    var d := Decimal(w);
    WholeDigits(v);
    CoordinateParts(v);
    var f := 7 - |sg| - |d|;
    EightCharacters(sg, d, Padded(m, 6), f);
    CutNumeral(w, m, f);
    AtofSigned(sg, d + "." + Padded(m, 6)[..f]);
  }

  lemma WholeDigits(v: int)
    requires Abs(v) < MICRO * MICRO
    ensures 1 <= |Decimal(Abs(v) / MICRO)| <= 6 && |Sign(v)| <= 1
    ensures Abs(v) == Abs(v) / MICRO * MICRO + Abs(v) % MICRO
  {
    DecimalLength(Abs(v) / MICRO, 6);
    assert Pow10(6) == MICRO;
    hide Decimal;
  }

  lemma CoordinateParts(v: int)
    ensures var a, sg, d := Abs(v), Sign(v), Decimal(Abs(v) / MICRO);
            && Fixed(v) == sg + d + "." + Padded(a % MICRO, 6)
            && (sg == "" || sg == "-") && (v < 0 <==> sg == "-") && IsDigit(d[0])
            && Truncated(v) == (var t: int := CutDown(a, Pow10(|sg| + |d| - 1)); if v < 0 then -t else t)
    ensures |Fixed(v)| >= COORDINATE_WIDTH ==> Atofn(Fixed(v), COORDINATE_WIDTH) == Atof(Fixed(v)[..COORDINATE_WIDTH])
  {
    hide Decimal, Padded, Pow10, Atof, CutDown;
  }

  lemma EightCharacters(sg: string, d: string, p: string, f: nat)
    requires |sg| + |d| + 1 + f == COORDINATE_WIDTH && f <= |p|
    ensures |sg + d + "." + p| >= COORDINATE_WIDTH
    ensures (sg + d + "." + p)[..COORDINATE_WIDTH] == sg + (d + "." + p[..f])
  {
  }

  lemma AtofSigned(sg: string, body: string)
    requires (sg == "" || sg == "-") && body != "" && IsDigit(body[0])
    ensures Atof(sg + body) == (var m: int := Numeral(body); if sg == "-" then -m else m)
  {
    SkipNothing(sg + body);
    if sg == "-" { assert (sg + body)[1..] == body; } else { assert sg + body == body; }
    hide Numeral;
  }

  /** The whole printed numeral is worth the coordinate, and has six decimals. */
  lemma FixedExactly(v: int)
    ensures Atof(Fixed(v)) == v && |Fixed(v)| > 7 && Fixed(v)[|Fixed(v)| - 7] == '.'
  {
    var sg, d, f := Sign(v), Decimal(Abs(v) / MICRO), Padded(Abs(v) % MICRO, 6);
    FixedParts(v);
    FixedValue(v);
    hide *;
    AtofSigned(sg, d + "." + f);
    LastSeven(sg, d, f);
  }

  lemma LastSeven(sg: string, d: string, f: string)
    requires |f| == 6 && |d| > 0
    ensures var s := sg + (d + "." + f); |s| > 7 && s[|s| - 7] == '.'
  {
  }

  lemma FixedParts(v: int)
    ensures var d, f := Decimal(Abs(v) / MICRO), Padded(Abs(v) % MICRO, 6);
            && Fixed(v) == Sign(v) + (d + "." + f) && |f| == 6 && |d| > 0 && IsDigit((d + "." + f)[0])
            && Sign(v) == (if v < 0 then "-" else "")
  {
    hide Decimal, Padded;
  }

  lemma FixedValue(v: int)
    ensures var m: int := Numeral(Decimal(Abs(v) / MICRO) + "." + Padded(Abs(v) % MICRO, 6));
            v == if v < 0 then -m else m
  {
    var w, m := Abs(v) / MICRO, Abs(v) % MICRO;
    CutNumeral(w, m, 6);
    var p := Padded(m, 6);
    assert p[..6] == p && Pow10(0) == 1 && w * MICRO + m == Abs(v);
    assert CutDown(Abs(v), 1) == Abs(v);
    hide Decimal, Padded, Numeral, Pow10, CutDown;
  }

  /** A coordinate written by hand: blanks, a sign, digits, perhaps a fraction, and anything else
      behind it. */
  lemma HandWritten(w: string, sg: string, d: string, f: string, rest: string)
    requires forall i :: 0 <= i < |w| ==> w[i] == ' ' || 9 <= w[i] as int <= 13
    requires sg == "" || sg == "-" || sg == "+"
    requires d != "" && |f| <= 6 && (forall i :: 0 <= i < |d| ==> '0' <= d[i] <= '9')
    requires (forall i :: 0 <= i < |f| ==> '0' <= f[i] <= '9') && (rest != "" ==> rest[0] < '0' || rest[0] > '9')
    ensures var m: int := Value(d) * 1_000_000 + Fraction(f);
            Atof(w + (sg + (d + "." + f + rest))) == if sg == "-" then -m else m
    ensures var m: int := Value(d) * 1_000_000;
            !("." <= rest) ==> Atof(w + (sg + (d + rest))) == if sg == "-" then -m else m
  {
    FractionNumeral(d, f, rest);
    if !("." <= rest) { WholeNumeral(d, rest); }
    assert IsDigit(d[0]) && (d + "." + f + rest)[0] == d[0] && (d + rest)[0] == d[0];
    hide Numeral, Value, Pow10, IsDigit, Fraction, Atof;
    SignedNumeral(w, sg, d + "." + f + rest);
    SignedNumeral(w, sg, d + rest);
  }

  lemma SignedNumeral(w: string, sg: string, t: string)
    requires (forall i :: 0 <= i < |w| ==> IsSpace(w[i])) && (sg == "" || sg == "-" || sg == "+")
    requires t != "" && IsDigit(t[0])
    ensures Atof(w + (sg + t)) == (var m: int := Numeral(t); if sg == "-" then -m else m)
  {
    SkipBlanks(w, sg + t);
    assert sg == "" ==> sg + t == t;
    assert sg != "" ==> (sg + t)[1..] == t;
    hide SkipSpaces, Numeral;
  }

  lemma NumeralParts(s: string, d: string, f: string)
    requires (forall i :: 0 <= i < |d| ==> IsDigit(d[i])) && (forall i :: 0 <= i < |f| ==> IsDigit(f[i]))
    requires DigitRun(s) == |d| < |s| && s[..|d|] == d && s[|d|] == '.'
    requires DigitRun(s[|d| + 1..]) == |f| <= 6 && s[|d| + 1..][..|f|] == f
    ensures Numeral(s) == Value(d) * MICRO + Fraction(f)
  {
    hide DigitRun, Value, Pow10, Fraction, IsDigit;
  }

  lemma FractionNumeral(d: string, f: string, rest: string)
    requires |f| <= 6 && (forall i :: 0 <= i < |d| ==> IsDigit(d[i])) && (forall i :: 0 <= i < |f| ==> IsDigit(f[i]))
    requires rest != "" ==> !IsDigit(rest[0])
    ensures Numeral(d + "." + f + rest) == Value(d) * MICRO + Fraction(f)
  {
    DotBehind(d, f + rest);
    hide *;
    var s := d + ("." + (f + rest));
    assert d + "." + f + rest == s;
    DigitRunConcat(d, "." + (f + rest));
    DigitRunConcat(f, rest);
    NumeralParts(s, d, f);
  }

  lemma DotBehind(d: string, t: string)
    ensures var s := d + ("." + t); s[|d| + 1..] == t && s[|d|] == '.' && !IsDigit(("." + t)[0])
  {
  }

  lemma DigitRunConcat(d: string, rest: string)
    requires (forall i :: 0 <= i < |d| ==> IsDigit(d[i])) && (rest != "" ==> !IsDigit(rest[0]))
    ensures DigitRun(d + rest) == |d| && (d + rest)[..|d|] == d
  {
    assert forall i :: 0 <= i < |d| ==> (d + rest)[i] == d[i];
    DigitRunIs(d + rest, |d|);
  }

  lemma WholeNumeral(d: string, rest: string)
    requires (forall i :: 0 <= i < |d| ==> IsDigit(d[i])) && (rest != "" ==> !IsDigit(rest[0]) && rest[0] != '.')
    ensures Numeral(d + rest) == Value(d) * MICRO
  {
    DigitRunConcat(d, rest);
    hide DigitRun, Pow10, Value;
  }

  lemma {:induction false} SkipBlanks(w: string, t: string)
    requires (forall i :: 0 <= i < |w| ==> IsSpace(w[i])) && t != "" && !IsSpace(t[0])
    ensures SkipSpaces(w + t) == t
  {
    if w == "" {
      assert w + t == t;
    } else {
      assert (w + t)[1..] == w[1..] + t;
      SkipBlanks(w[1..], t);
    }
  }

  lemma SkipNothing(s: string)
    requires s != "" && (IsDigit(s[0]) || s[0] == '-')
    ensures SkipSpaces(s) == s
  {
  }

  /** Within the range of degrees a coordinate loses as many of its six decimals as it has digits before
      the point beyond the first, and one more to a sign: the error is towards zero and below a
      thousandth. */
  lemma TruncationError(v: int)
    requires Abs(v) <= 180 * MICRO
    ensures var unit := (if Abs(v) < 10_000_000 then 1 else if Abs(v) < 100_000_000 then 10 else 100)
                        * (if v < 0 then 10 else 1);
            Truncated(v) == if v < 0 then -((-v) - (-v) % unit) else v - v % unit
    ensures Abs(v) - 1000 < Abs(Truncated(v)) <= Abs(v) && Abs(v - Truncated(v)) < 1000
    ensures v != 0 ==> (Truncated(v) == 0 <==> -10 < v < 0)
  {
    UnitRange(v);
    CutBounds(Abs(v), Unit(v));
    hide Unit, CutDown;
  }

  lemma CutBounds(a: nat, u: nat)
    requires u >= 1
    ensures CutDown(a, u) <= a < CutDown(a, u) + u
    ensures CutDown(a, u) == 0 <==> a < u
    ensures CutDown(a, u) == a - a % u
  {
    var q := a / u;
    assert a == u * q + a % u;
    assert q >= 1 ==> u * q >= u;
  }

  lemma UnitRange(v: int)
    requires Abs(v) <= 180 * MICRO
    ensures Unit(v) == (if Abs(v) < 10_000_000 then 1 else if Abs(v) < 100_000_000 then 10 else 100)
                       * (if v < 0 then 10 else 1)
    ensures v > 0 ==> Unit(v) <= v
    ensures v < 0 ==> (Abs(v) < Unit(v) <==> Abs(v) < 10)
  {
    var w := Abs(v) / MICRO;
    DecimalLength(w, 3);
    DecimalLength(w, 2);
    DecimalLength(w, 1);
    assert Pow10(0) == 1 && Pow10(1) == 10 && Pow10(2) == 100 && Pow10(3) == 1000;
    hide Decimal, Pow10;
  }

  /** Cutting twice is cutting once. */
  lemma TruncatedTwice(v: int)
    requires Abs(v) < MICRO * MICRO
    ensures Truncated(Truncated(v)) == Truncated(v) && Abs(Truncated(v)) < MICRO * MICRO
  {
    var u, t := Unit(v), Truncated(v);
    var e := |Sign(v)| + |Decimal(Abs(v) / MICRO)| - 1;
    DecimalLength(Abs(v) / MICRO, 6);
    assert Pow10(6) == MICRO;
    Pow10Add(e, 6 - e);
    var p := Pow10(6 - e);
    SameWhole(Abs(v), u, p);
    CutTwice(Abs(v), u);
    assert Abs(t) == CutDown(Abs(v), u);
    hide CutDown, Pow10, Decimal;
    if t == 0 {
      assert Truncated(0) == 0 by { CutBounds(0, Unit(0)); }
    } else {
      assert Sign(t) == Sign(v) && Abs(t) / MICRO == Abs(v) / MICRO;
      assert Unit(t) == u;
    }
  }

  lemma CutTwice(a: nat, u: nat)
    requires u >= 1
    ensures CutDown(CutDown(a, u), u) == CutDown(a, u)
  {
    UniqueRemainder(CutDown(a, u), u, a / u, 0);
  }

  lemma SameWhole(a: nat, u: nat, p: nat)
    requires u >= 1 && u * p == MICRO
    ensures CutDown(a, u) <= a && CutDown(a, u) / MICRO == a / MICRO
  {
    var q, r := a / u, a % u;
    var x, y := q / p, q % p;
    assert p >= 1;
    assert a == u * q + r && q == p * x + y;
    WholeParts(u, p, q, x, y, r);
    Wholes(q * u, a, x, u * y, u * y + r);
  }

  lemma WholeParts(u: nat, p: nat, q: nat, x: nat, y: nat, r: nat)
    requires u * p == MICRO && q == p * x + y && y < p && r < u
    ensures q * u == MICRO * x + u * y && u * q == MICRO * x + u * y && u * y + r < MICRO
  {
    assert u * (p * x) == (u * p) * x;
    assert u * y <= u * (p - 1) by { MulAtMost(u, y, p - 1); }
    assert u * (p - 1) == MICRO - u;
  }

  lemma MulAtMost(u: nat, y: nat, z: nat)
    requires y <= z
    ensures u * y <= u * z
  {
  }

  lemma Wholes(b: nat, a: nat, x: nat, y: nat, z: nat)
    requires b == MICRO * x + y && a == MICRO * x + z && y <= z < MICRO
    ensures b <= a && b / MICRO == a / MICRO
  {
  }

  // ----- the device identifier -----

  function HexChar(d: nat): char
    requires d < 16
  {
    if d < 10 then DigitChar(d) else ('a' as int + d - 10) as char
  }

  /** "%02x". */
  function HexText(b: Byte): (s: string)
    ensures |s| == 2
  {
    [HexChar(b / 16), HexChar(b % 16)]
  }

  /** Value of a hexadecimal digit, or None. */
  function HexValue(c: char): Option<nat> {
    if IsDigit(c) then Some(DigitValue(c))
    else if 'a' <= c <= 'f' then Some(c as int - 'a' as int + 10)
    else if 'A' <= c <= 'F' then Some(c as int - 'A' as int + 10)
    else None
  }

  function HexDigits(s: string, acc: nat): nat
    decreases |s|
  {
    if s == "" then acc
    else match HexValue(s[0]) { case None => acc case Some(d) => HexDigits(s[1..], 16 * acc + d) }
  }

  /** strtol(s, NULL, 16) of at most two characters, which leave no room for 0x and a digit. */
  function HexStrtol(s: string): int
    requires |s| <= 2
  {
    var t := SkipSpaces(s);
    if t != "" && t[0] == '-' then var m: int := HexDigits(t[1..], 0); -m
    else if t != "" && t[0] == '+' then HexDigits(t[1..], 0)
    else HexDigits(t, 0)
  }

  lemma HexValueExactly(c: char, d: nat)
    ensures HexValue(c) == Some(d) <==>
              d < 16 && (c == "0123456789abcdef"[d] || c == "0123456789ABCDEF"[d])
  {
  }

  /** What any two characters of an identifier are worth: digits up to the first other character,
      after at most one blank or sign. */
  lemma PairExactly(c: char, d: char)
    ensures var second := if HexValue(d).Some? then HexValue(d).value else 0;
            HexStrtol(HttpHead.CString([c, d])) ==
              if HexValue(c).Some? then if HexValue(d).Some? then 16 * HexValue(c).value + second else HexValue(c).value
              else if c == '-' then -second
              else if c == '+' || c == ' ' || 9 <= c as int <= 13 then second
              else 0
  {
    CutPair(c, d);
    OneDigit(c);
    OneDigit(d);
    TwoDigits(c, d);
    BlanksInPair(c, d);
    assert [c, d][1..] == [d] && [d][1..] == "" && [c][1..] == "";
    hide HexDigits, SkipSpaces, HttpHead.CString, HexValue;
  }

  lemma CutPair(c: char, d: char)
    ensures HttpHead.CString([c, d]) == if c == '\0' then "" else if d == '\0' then [c] else [c, d]
  {
    UpToIs([c, d], if c == '\0' then "" else if d == '\0' then [c] else [c, d], '\0');
  }

  lemma BlanksInPair(c: char, d: char)
    ensures SkipSpaces("") == "" && SkipSpaces([c]) == (if IsSpace(c) then "" else [c])
    ensures SkipSpaces([c, d]) == if !IsSpace(c) then [c, d] else if IsSpace(d) then "" else [d]
  {
    assert [c, d][1..] == [d] && [d][1..] == "" && [c][1..] == "";
    assert SkipSpaces([d]) == if IsSpace(d) then "" else [d];
  }

  lemma OneDigit(d: char)
    ensures HexDigits("", 0) == 0
    ensures HexDigits([d], 0) == if HexValue(d).Some? then HexValue(d).value else 0
    ensures HexValue('-') == HexValue('+') == HexValue('\0') == None
    ensures IsSpace(d) ==> HexValue(d) == None
  {
    assert [d][1..] == "";
  }

  lemma TwoDigits(c: char, d: char)
    ensures HexDigits([c, d], 0) ==
              if HexValue(c).None? then 0
              else if HexValue(d).None? then HexValue(c).value
              else 16 * HexValue(c).value + HexValue(d).value
  {
    assert [c, d][1..] == [d] && [d][1..] == "";
    if HexValue(c).Some? {
      var v := HexValue(c).value;
      assert HexDigits([c, d], 0) == HexDigits([d], v);
      assert HexDigits([d], v) == if HexValue(d).Some? then HexDigits("", 16 * v + HexValue(d).value) else v;
    }
    hide HexValue;
  }

  /** The printing of getInterfaceMAC: two lower-case hexadecimal digits a byte. */
  function PrintMac(mac: seq<Byte>): (s: string)
    ensures |s| == 2 * |mac|
  {
    if mac == [] then ""
    else PrintMac(mac[..|mac| - 1]) + HexText(mac[|mac| - 1])
  }

  /** A character of a std::string; the one at its length is NUL. */
  function CharAt(s: string, i: nat): char
    requires i <= |s|
  {
    if i < |s| then s[i] else '\0'
  }

  function MacByte(s: string, i: nat): Byte
    requires 2 * i + 1 <= |s|
  {
    HexStrtol(HttpHead.CString([CharAt(s, 2 * i), CharAt(s, 2 * i + 1)])) % 256
  }

  method GetMacAddressAsByte(macAddress: string, mac: array<Byte>)
    requires |macAddress| >= 11 && mac.Length == 6
    modifies mac
    ensures forall i :: 0 <= i < 6 ==> mac[i] == MacByte(macAddress, i)
  {
    for i := 0 to 6
      invariant forall k :: 0 <= k < i ==> mac[k] == MacByte(macAddress, k)
    {
      var b := HttpHead.CString([CharAt(macAddress, i * 2), CharAt(macAddress, i * 2 + 1)]);
      mac[i] := HexStrtol(b) % 256;
    }
  }

  lemma HexTextReadBack(b: Byte)
    ensures HttpHead.CString(HexText(b)) == HexText(b) && HexStrtol(HexText(b)) == b && Plain(HexText(b))
  {
    var h, l := HexChar(b / 16), HexChar(b % 16);
    var s := [h, l];
    assert HexValue(h) == Some(b / 16) && HexValue(l) == Some(b % 16);
    assert Clean(s);
    CleanIsCString(s);
    assert SkipSpaces(s) == s;
    assert s[1..] == [l] && [l][1..] == "";
    assert HexDigits([l], b / 16) == 16 * (b / 16) + b % 16;
    assert HexDigits(s, 0) == HexDigits([l], b / 16);
  }

  lemma {:induction false} PrintMacAt(mac: seq<Byte>, i: nat)
    requires i < |mac|
    ensures PrintMac(mac)[2 * i..2 * i + 2] == HexText(mac[i])
  {
    var n := |mac| - 1;
    var s, s0 := PrintMac(mac), PrintMac(mac[..n]);
    hide HexText;
    if i < n {
      PrintMacAt(mac[..n], i);
      assert s[2 * i..2 * i + 2] == s0[2 * i..2 * i + 2];
    } else {
      assert s == s0 + HexText(mac[n]);
    }
  }

  /** The printed bytes are read back. */
  lemma MacReadBack(mac: seq<Byte>, i: nat)
    requires i < |mac|
    ensures MacByte(PrintMac(mac), i) == mac[i]
  {
    hide PrintMac, HexText, HexStrtol, HttpHead.CString;
    var s := PrintMac(mac);
    PrintMacAt(mac, i);
    HexTextReadBack(mac[i]);
    assert [CharAt(s, 2 * i), CharAt(s, 2 * i + 1)] == s[2 * i..2 * i + 2];
  }

  /** The letters of hexadecimal digits in the other case. */
  function UpperCase(s: string): (t: string)
    ensures |t| == |s|
  {
    seq(|s|, i requires 0 <= i < |s| => if 'a' <= s[i] <= 'f' then (s[i] as int - 32) as char else s[i])
  }

  /** An identifier in capitals names the same bytes. */
  lemma CapitalsReadBack(mac: seq<Byte>, i: nat)
    requires i < |mac|
    ensures MacByte(UpperCase(PrintMac(mac)), i) == mac[i]
  {
    hide *;
    CapitalsAt(mac, i);
    CapitalByte(mac[i]);
    BytePair(UpperCase(PrintMac(mac)), i, UpperCase(HexText(mac[i])));
  }

  lemma CapitalsAt(mac: seq<Byte>, i: nat)
    requires i < |mac|
    ensures UpperCase(PrintMac(mac))[2 * i..2 * i + 2] == UpperCase(HexText(mac[i]))
  {
    hide *;
    PrintMacAt(mac, i);
    CapitalText(PrintMac(mac), 2 * i, HexText(mac[i]));
  }

  lemma BytePair(s: string, i: nat, q: string)
    requires 2 * i + 2 <= |s| && s[2 * i..2 * i + 2] == q && |q| == 2
    ensures MacByte(s, i) == HexStrtol(HttpHead.CString(q)) % 256
  {
    hide HexStrtol, HttpHead.CString;
    assert [CharAt(s, 2 * i), CharAt(s, 2 * i + 1)] == q;
  }

  lemma CapitalByte(b: Byte)
    ensures |UpperCase(HexText(b))| == 2 && HexStrtol(HttpHead.CString(UpperCase(HexText(b)))) == b
  {
    CapitalDigit(b / 16);
    CapitalDigit(b % 16);
    var q := UpperCase(HexText(b));
    assert q[0] == UpperCase([HexChar(b / 16)])[0] && q[1] == UpperCase([HexChar(b % 16)])[0];
    hide HexChar, HexValue, HexText, UpperCase, IsSpace, HexStrtol, HttpHead.CString;
    CapitalPair(q, b);
  }

  lemma CapitalText(s: string, k: nat, t: string)
    requires k + 2 <= |s| && s[k..k + 2] == t
    ensures UpperCase(s)[k..k + 2] == UpperCase(t)
  {
    assert forall i :: 0 <= i < 2 ==> t[i] == s[k + i];
  }

  lemma CapitalDigit(d: nat)
    requires d < 16
    ensures var c := UpperCase([HexChar(d)])[0]; HexValue(c) == Some(d) && !IsSpace(c) && c !in "-+xX\0"
  {
  }

  lemma CapitalPair(s: string, b: Byte)
    requires |s| == 2 && HexValue(s[0]) == Some(b / 16) && HexValue(s[1]) == Some(b % 16)
    requires !IsSpace(s[0]) && s[0] !in "-+\0" && s[1] !in "\0"
    ensures HexStrtol(HttpHead.CString(s)) == b
  {
    CStringWhole(s);
    assert s[1..] == [s[1]] && [s[1]][1..] == "";
    assert HexDigits([s[1]], b / 16) == 16 * (b / 16) + b % 16;
    assert HexDigits(s, 0) == HexDigits([s[1]], b / 16);
    hide HexValue;
  }

  /** Every printed identifier is one that the file can hold. */
  lemma {:induction false} PrintMacIsPlain(mac: seq<Byte>)
    ensures Plain(PrintMac(mac))
  {
    if mac != [] {
      hide HexText;
      PrintMacIsPlain(mac[..|mac| - 1]);
      HexTextReadBack(mac[|mac| - 1]);
    }
  }

  // ----- the file -----

  datatype Settings = Settings(macAddress: string, lat: int, lon: int)

  /** The state after reading, and whether an exception escaped. */
  datatype Loaded = Loaded(settings: Settings, threw: bool)

  /** No blank, line break or NUL. */
  predicate Plain(s: string) {
    forall i :: 0 <= i < |s| ==> s[i] !in " \n\r\0"
  }

  function LineText(key: string, argument: string): string {
    key + ":" + argument + "\n"
  }

  /** snprintf of a C string into the print buffer, which cuts a long line and its end off. */
  function Printed(key: string, argument: string): string {
    var line := LineText(key, CString(argument));
    if |line| < PRINT_BUFFER then line else line[..PRINT_BUFFER - 1]
  }

  function FileText(c: Settings): string {
    Printed("deviceid", c.macAddress) + (Printed("lat", Fixed(c.lat)) + Printed("lon", Fixed(c.lon)))
  }

  /** How many characters fgets takes: up to a line feed, at most `room`. */
  function LineLength(s: string, room: nat): (n: nat)
    ensures n <= |s| && n <= room
    ensures s != "" && room > 0 ==> n > 0
  {
    if s == "" || room == 0 then 0
    else if s[0] == '\n' then 1
    else 1 + LineLength(s[1..], room - 1)
  }

  function FirstNot(s: string, c: char): (n: nat)
    ensures n <= |s|
  {
    if s == "" || s[0] != c then 0 else 1 + FirstNot(s[1..], c)
  }

  function LastNot(s: string, c: char): (n: nat)
    ensures n <= |s|
  {
    if s == "" || s[|s| - 1] != c then |s| else LastNot(s[..|s| - 1], c)
  }

  /** Utils::trim; substr throws when there is nothing else in the string. */
  function Trim(s: string, c: char): Option<string> {
    if FirstNot(s, c) == |s| || FirstNot(s, c) > LastNot(s, c) then None
    else Some(s[FirstNot(s, c)..LastNot(s, c)])
  }

  function TrimAll(s: string): Option<string> {
    match Trim(s, ' ')
    case None => None
    case Some(a) =>
      match Trim(a, '\n')
      case None => None
      case Some(b) => Trim(b, '\r')
  }

  /** What one line does to the settings. */
  function ApplyLine(c: Settings, buf: string): Loaded {
    var line := HttpHead.CString(buf);
    match Find(line, ':')
    case None => Loaded(c, false)
    case Some(p) =>
      match TrimAll(line[p + 1..])
      case None => Loaded(c, true)
      case Some(argument) =>
        Loaded(if "deviceid" <= line then if |argument| < 12 then c else c.(macAddress := argument)
               else if "lat" <= line then c.(lat := Atofn(argument, COORDINATE_WIDTH))
               else if "lon" <= line then c.(lon := Atofn(argument, COORDINATE_WIDTH))
               else c, false)
  }

  function ReadLines(c: Settings, text: string): Loaded
    decreases |text|
  {
    if text == "" then Loaded(c, false)
    else
      var n := LineLength(text, LINE_BUFFER - 1);
      var l := ApplyLine(c, text[..n]);
      if l.threw then l else ReadLines(l.settings, text[n..])
  }

  // ----- reading back what was saved -----

  lemma {:induction false} LineLengthIs(s: string, k: nat, room: nat)
    requires k < |s| && s[k] == '\n' && k < room && forall i :: 0 <= i < k ==> s[i] != '\n'
    ensures LineLength(s, room) == k + 1
  {
    if k > 0 { LineLengthIs(s[1..], k - 1, room - 1); }
  }

  lemma TrimNone(s: string, c: char)
    requires s != "" && s[0] != c && s[|s| - 1] != c
    ensures Trim(s, c) == Some(s)
  {
    assert s[0..|s|] == s;
  }

  /** The argument of a printed line is trimmed back to what was printed; an empty one throws. */
  lemma TrimArgument(a: string)
    requires Plain(a)
    ensures TrimAll(a + "\n") == if a == "" then None else Some(a)
  {
    var s := a + "\n";
    if a == "" {
      assert s == "\n" && "\n"[..0] == "" && "\n"[1..] == "";
      TrimNone("\n", ' ');
    } else {
      TrimNone(s, ' ');
      assert s[..|s| - 1] == a && a[|a| - 1] != '\n' && a[0] != '\n';
      assert LastNot(s, '\n') == |a|;
      TrimNone(a, '\r');
    }
  }

  /** A carriage return before the line end is trimmed off as well. */
  lemma TrimCarriageReturn(a: string)
    requires Plain(a)
    ensures TrimAll(a + "\r\n") == if a == "" then None else Some(a)
  {
    var s, t := a + "\r\n", a + "\r";
    assert s[..|s| - 1] == t && t[..|t| - 1] == a;
    TrimNone(s, ' ');
    assert LastNot(s, '\n') == |t|;
    assert Trim(s, '\n') == Some(t) by { assert s[0..|t|] == t; }
    if a != "" {
      assert LastNot(t, '\r') == |a|;
      assert t[0..|a|] == a;
    } else {
      assert t == "\r" && t[1..] == "";
    }
  }

  lemma LineTextShape(key: string, a: string)
    requires Plain(key) && ':' !in key && Plain(a)
    ensures var line := LineText(key, a);
            && |line| == |key| + |a| + 2 && line[|line| - 1] == '\n'
            && (forall i :: 0 <= i < |line| - 1 ==> line[i] !in "\n\0")
            && HttpHead.CString(line) == line && Find(line, ':') == Some(|key|) && line[|key| + 1..] == a + "\n"
            && line[..|key|] == key
  {
    var line := LineText(key, a);
    assert forall i :: 0 <= i < |key| ==> line[i] == key[i];
    assert forall i :: 0 <= i < |a| ==> line[|key| + 1 + i] == a[i];
    forall i | 0 <= i < |line| - 1 ensures line[i] !in "\n\0" {
      if i > |key| { assert line[|key| + 1 + (i - |key| - 1)] == a[i - |key| - 1]; }
    }
    CStringWhole(line);
    FindFirst(line, ':', |key|);
  }

  lemma {:induction false} LineLengthFull(s: string, room: nat)
    requires room <= |s| && forall i :: 0 <= i < room ==> s[i] != '\n'
    ensures LineLength(s, room) == room
  {
    if room > 0 { LineLengthFull(s[1..], room - 1); }
  }

  /** What fgets takes in one go: a line with its end, or as much as fits. */
  predicate Piece(line: string) {
    && 0 < |line| < LINE_BUFFER && (forall i :: 0 <= i < |line| - 1 ==> line[i] != '\n')
    && (line[|line| - 1] == '\n' || |line| == LINE_BUFFER - 1)
  }

  /** Reading a piece applies it. */
  lemma ReadPiece(c: Settings, line: string, rest: string)
    requires Piece(line)
    ensures var l := ApplyLine(c, line);
            ReadLines(c, line + rest) == if l.threw then l else ReadLines(l.settings, rest)
  {
    hide ApplyLine;
    var s := line + rest;
    assert forall i :: 0 <= i < |line| ==> s[i] == line[i];
    if line[|line| - 1] == '\n' {
      LineLengthIs(s, |line| - 1, LINE_BUFFER - 1);
    } else {
      LineLengthFull(s, LINE_BUFFER - 1);
    }
    hide LineLength;
    assert s[..|line|] == line && s[|line|..] == rest;
  }

  /** A piece without a colon is skipped. */
  lemma SkipPiece(c: Settings, line: string, rest: string)
    requires Piece(line) && ':' !in line
    ensures ReadLines(c, line + rest) == ReadLines(c, rest)
  {
    ReadPiece(c, line, rest);
    assert ApplyLine(c, line) == Loaded(c, false);
    hide ApplyLine, ReadLines;
  }

  /** Reading a printed line applies it. */
  lemma PrintedLine(c: Settings, key: string, a: string, rest: string)
    requires Plain(key) && ':' !in key && Plain(a) && |key| + |a| + 2 < LINE_BUFFER
    ensures Printed(key, a) == LineText(key, a)
    ensures var l := ApplyLine(c, LineText(key, a));
            ReadLines(c, LineText(key, a) + rest) == if l.threw then l else ReadLines(l.settings, rest)
  {
    LineTextShape(key, a);
    CStringWhole(a);
    hide LineText, ApplyLine, HttpHead.CString, Find, Plain;
    var line := LineText(key, a);
    assert forall i :: 0 <= i < |line| - 1 ==> line[i] !in "\n\0" ==> line[i] != '\n';
    ReadPiece(c, line, rest);
  }

  lemma CStringWhole(s: string)
    requires forall i :: 0 <= i < |s| ==> s[i] != '\0'
    ensures HttpHead.CString(s) == s
  {
    UpToIs(s, s, '\0');
  }

  lemma FixedIsPlain(v: int)
    requires Abs(v) < MICRO * MICRO
    ensures Plain(Fixed(v)) && 8 <= |Fixed(v)| <= 14
  {
    DecimalLength(Abs(v) / MICRO, 6);
    assert Pow10(6) == MICRO;
    var d, p, s := Decimal(Abs(v) / MICRO), Padded(Abs(v) % MICRO, 6), Fixed(v);
    assert s == Sign(v) + d + "." + p;
    assert Plain(Sign(v)) && Plain(d) && Plain(".") && Plain(p);
    hide Decimal, Padded, Fixed, Pow10, Sign, IsDigit;
    PlainConcat(Sign(v), d);
    PlainConcat(Sign(v) + d, ".");
    PlainConcat(Sign(v) + d + ".", p);
  }

  lemma PlainConcat(s: string, t: string)
    requires Plain(s) && Plain(t)
    ensures Plain(s + t)
  {
  }

  /** What any line of the form key:argument does: the first characters of the key decide, others and
      short identifiers are ignored, and an empty argument throws, whatever the key. */
  lemma AnyLine(c: Settings, key: string, a: string)
    requires Plain(key) && ':' !in key && Plain(a)
    ensures ApplyLine(c, LineText(key, a)) ==
              if a == "" then Loaded(c, true)
              else if |key| >= 8 && key[..8] == "deviceid" then
                Loaded(if |a| < 12 then c else c.(macAddress := a), false)
              else if |key| >= 3 && key[..3] == "lat" then Loaded(c.(lat := Atofn(a, 8)), false)
              else if |key| >= 3 && key[..3] == "lon" then Loaded(c.(lon := Atofn(a, 8)), false)
              else Loaded(c, false)
  {
    var line := LineText(key, a);
    hide *;
    LineTextShape(key, a);
    TrimArgument(a);
    ColonAt(line, |key|);
    ParsedLine(c, line, |key|, if a == "" then None else Some(a));
    KeyPrefix(key, line, "deviceid");
    KeyPrefix(key, line, "lat");
    KeyPrefix(key, line, "lon");
  }

  lemma ColonAt(line: string, k: nat)
    requires Find(line, ':') == Some(k)
    ensures k < |line| && line[k] == ':'
  {
  }

  lemma ParsedLine(c: Settings, line: string, p: nat, argument: Option<string>)
    requires HttpHead.CString(line) == line && Find(line, ':') == Some(p) && p < |line|
    requires TrimAll(line[p + 1..]) == argument
    ensures ApplyLine(c, line) ==
              if argument.None? then Loaded(c, true)
              else
                var a := argument.value;
                Loaded(if "deviceid" <= line then if |a| < 12 then c else c.(macAddress := a)
                       else if "lat" <= line then c.(lat := Atofn(a, 8))
                       else if "lon" <= line then c.(lon := Atofn(a, 8))
                       else c, false)
  {
    hide HttpHead.CString, Find, TrimAll, Atofn;
  }

  lemma KeyPrefix(key: string, line: string, name: string)
    requires |line| > |key| && line[..|key|] == key && line[|key|] == ':' && ':' !in name
    ensures name <= line <==> |key| >= |name| && key[..|name|] == name
  {
    if |key| >= |name| {
      assert line[..|name|] == key[..|name|];
    } else {
      assert name[|key|] in name;
    }
  }

  /** The saved text, as long as the identifier fits into the print buffer. */
  lemma SavedText(c: Settings)
    requires '\0' !in c.macAddress && |c.macAddress| < PRINT_BUFFER - 10
    requires Abs(c.lat) < MICRO * MICRO && Abs(c.lon) < MICRO * MICRO
    ensures FileText(c)
         == "deviceid:" + c.macAddress + "\n" + ("lat:" + Fixed(c.lat) + "\n" + ("lon:" + Fixed(c.lon) + "\n"))
  {
    FixedIsPlain(c.lat);
    FixedIsPlain(c.lon);
    WholeLine("deviceid", c.macAddress);
    WholeLine("lat", Fixed(c.lat));
    WholeLine("lon", Fixed(c.lon));
    hide Printed, Fixed;
    assert "deviceid" + ":" == "deviceid:" && "lat" + ":" == "lat:" && "lon" + ":" == "lon:";
  }

  lemma WholeLine(key: string, a: string)
    requires '\0' !in a && |key| + |a| + 2 < PRINT_BUFFER
    ensures Printed(key, a) == key + ":" + a + "\n"
  {
    UpToIs(a, a, '\0');
    hide HttpHead.CString;
  }

  // ----- the identifier on its way through the file -----

  /** Any text of one line. */
  predicate Textual(s: string) {
    forall i :: 0 <= i < |s| ==> s[i] !in "\n\r\0"
  }

  /** What the line buffer holds behind "deviceid:". */
  const ID_ROOM := LINE_BUFFER - 10

  function Fitting(a: string): string {
    if |a| < ID_ROOM then a else a[..ID_ROOM]
  }

  /** The identifier that comes back: what fits into the line buffer without blanks in front, and
      without blanks behind if it filled the buffer. */
  function Kept(a: string): string {
    var b := Fitting(a);
    var lo, hi := FirstNot(b, ' '), if |a| < ID_ROOM then |b| else LastNot(b, ' ');
    if lo < hi then b[lo..hi] else ""
  }

  lemma {:induction false} FirstNotIs(s: string, c: char, n: nat)
    requires n <= |s| && (forall i :: 0 <= i < n ==> s[i] == c) && (n < |s| ==> s[n] != c)
    ensures FirstNot(s, c) == n
  {
    if n > 0 { FirstNotIs(s[1..], c, n - 1); }
  }

  lemma {:induction false} FirstNotEnd(s: string, c: char)
    ensures var n := FirstNot(s, c); (forall i :: 0 <= i < n ==> s[i] == c) && (n < |s| ==> s[n] != c)
  {
    if s != "" && s[0] == c { FirstNotEnd(s[1..], c); }
  }

  lemma {:induction false} LastNotEnd(s: string, c: char)
    ensures var n := LastNot(s, c); (forall i :: n <= i < |s| ==> s[i] == c) && (n > 0 ==> s[n - 1] != c)
  {
    if s != "" && s[|s| - 1] == c { LastNotEnd(s[..|s| - 1], c); }
  }

  /** The argument of the first line, as fgets delivers it. */
  function IdArgument(a: string): string {
    if |a| < ID_ROOM then a + "\n" else a[..ID_ROOM]
  }

  lemma TrimmedId(a: string)
    requires Textual(a)
    ensures TrimAll(IdArgument(a)) == if Kept(a) == "" then None else Some(Kept(a))
  {
    if |a| < ID_ROOM {
      FirstNotEnd(a, ' ');
      TrimFront(a, IdArgument(a));
      hide Trim, FirstNot, LastNot;
      var t := a[FirstNot(a, ' ')..];
      assert Kept(a) == t;
      NoBlanksAround(t, t + "\n");
    } else {
      TrimBothEnds(a[..ID_ROOM]);
      hide TrimAll, FirstNot, LastNot;
    }
  }

  lemma TrimBothEnds(b: string)
    requires Textual(b)
    ensures var lo, hi := FirstNot(b, ' '), LastNot(b, ' ');
            TrimAll(b) == if lo < hi then Some(b[lo..hi]) else None
  {
    FirstNotEnd(b, ' ');
    LastNotEnd(b, ' ');
    var lo, hi := FirstNot(b, ' '), LastNot(b, ' ');
    assert lo < |b| ==> lo < hi;
    if lo < hi {
      var y := b[lo..hi];
      assert Trim(b, ' ') == Some(y);
      TrimNone(y, '\n');
      TrimNone(y, '\r');
    }
    hide FirstNot, LastNot;
  }

  lemma TrimFront(a: string, x: string)
    requires x == a + "\n"
    ensures Trim(x, ' ') == Some(a[FirstNot(a, ' ')..] + "\n")
  {
    var lo := FirstNot(a, ' ');
    FirstNotEnd(a, ' ');
    FirstNotIs(x, ' ', lo);
    assert LastNot(x, ' ') == |x|;
    hide FirstNot, LastNot;
    assert x[lo..|x|] == a[lo..] + "\n";
  }

  lemma NoBlanksAround(t: string, y: string)
    requires Textual(t) && y == t + "\n"
    ensures (match Trim(y, '\n') case None => None case Some(b) => Trim(b, '\r')) == if t == "" then None else Some(t)
  {
    if t != "" {
      assert y[..|y| - 1] == t;
      assert LastNot(y, '\n') == |t| && FirstNot(y, '\n') == 0;
      TrimNone(t, '\r');
    }
  }

  lemma KeptShape(a: string)
    requires Textual(a)
    ensures var k := Kept(a);
            && Textual(k) && |k| <= ID_ROOM && (k != "" ==> k[0] != ' ')
            && (k != "" && |k| == ID_ROOM ==> k[|k| - 1] != ' ')
  {
    var b, k := Fitting(a), Kept(a);
    FirstNotEnd(b, ' ');
    LastNotEnd(b, ' ');
    hide FirstNot, LastNot;
    var lo := FirstNot(b, ' ');
    if k != "" {
      assert k[0] == b[lo] != ' ';
      assert |k| == ID_ROOM ==> lo == 0 && k[|k| - 1] == b[ID_ROOM - 1];
      forall i | 0 <= i < |k| ensures k[i] !in "\n\r\0" { assert k[i] == b[lo + i] == a[lo + i]; }
    }
  }

  lemma KeptTwice(a: string)
    requires Textual(a)
    ensures Kept(Kept(a)) == Kept(a) && Textual(Kept(a)) && |Kept(a)| <= ID_ROOM
  {
    KeptShape(a);
    hide Textual;
    KeptAsItIs(Kept(a));
  }

  lemma KeptAsItIs(k: string)
    requires |k| <= ID_ROOM && (k != "" ==> k[0] != ' ')
    requires k != "" && |k| == ID_ROOM ==> k[|k| - 1] != ' '
    ensures Kept(k) == k
  {
    FirstNotIs(k, ' ', 0);
    assert Fitting(k) == k;
    assert k == "" || |k| < ID_ROOM || LastNot(k, ' ') == |k|;
    hide FirstNot, LastNot, Fitting;
    assert k[0..|k|] == k;
  }

  /** The first piece of the printed identifier sets it. */
  lemma FirstPiece(c: Settings, a: string, rest: string)
    requires Textual(a)
    ensures var id, l := Kept(a), ReadLines(c, "deviceid:" + IdArgument(a) + rest);
            if id == "" then l == Loaded(c, true)
            else l == ReadLines(if |id| < 12 then c else c.(macAddress := id), rest)
  {
    TrimmedId(a);
    assert var x := IdArgument(a);
           && (forall i :: 0 <= i < |x| ==> x[i] !in "\r\0") && (forall i :: 0 <= i < |x| - 1 ==> x[i] != '\n')
           && 0 < |x| <= ID_ROOM && (x[|x| - 1] == '\n' || |x| == ID_ROOM);
    hide TrimAll, Kept, IdArgument, Textual, ReadLines, ApplyLine;
    ApplyId(c, IdArgument(a));
    ReadPiece(c, "deviceid:" + IdArgument(a), rest);
  }

  lemma ApplyId(c: Settings, x: string)
    requires 0 < |x| <= ID_ROOM && (x[|x| - 1] == '\n' || |x| == ID_ROOM)
    requires (forall i :: 0 <= i < |x| ==> x[i] != '\0') && (forall i :: 0 <= i < |x| - 1 ==> x[i] != '\n')
    ensures var line := "deviceid:" + x;
            && Piece(line)
            && ApplyLine(c, line) == match TrimAll(x)
                 case None => Loaded(c, true)
                 case Some(id) => Loaded(if |id| < 12 then c else c.(macAddress := id), false)
  {
    var line := "deviceid:" + x;
    forall i | 0 <= i < |line| ensures line[i] != '\0' && (i < |line| - 1 ==> line[i] != '\n') {
      if i >= 9 { assert line[i] == x[i - 9]; }
    }
    CStringWhole(line);
    FindFirst(line, ':', 8);
    assert line[9..] == x && line[..8] == "deviceid";
    hide TrimAll, HttpHead.CString, Find;
  }

  /** An identifier longer than the line buffer leaves pieces behind, which are skipped; one that
      fills the print buffer takes the line of the latitude with it. */
  lemma IdLine(c: Settings, a: string, lat: int, rest: string)
    requires Textual(a) && (|a| > ID_ROOM ==> ':' !in a[ID_ROOM..]) && Abs(lat) < MICRO * MICRO
    ensures var id, l := Kept(a), ReadLines(c, Printed("deviceid", a) + (LineText("lat", Fixed(lat)) + rest));
            if id == "" then l == Loaded(c, true)
            else
              var c1 := if |id| < 12 then c else c.(macAddress := id);
              l == ReadLines(if |a| < PRINT_BUFFER - 10 then c1.(lat := Truncated(lat)) else c1, rest)
  {
    var id, latLine := Kept(a), LineText("lat", Fixed(lat));
    var c1 := if |id| < 12 then c else c.(macAddress := id);
    hide Kept, LineText, Fixed, Truncated, Printed, IdArgument, ReadLines, Abs, Leftover;
    var tail := Leftover(a);
    PrintedId(a, latLine + rest);
    FirstPiece(c, a, tail + (latLine + rest));
    if |a| < PRINT_BUFFER - 10 {
      SkipLeftover(c1, a, latLine + rest);
      CoordinateLine(c1, "lat", lat, rest);
    } else {
      LostLatitude(c1, a, lat, rest);
    }
  }

  /** What of the printed identifier follows its first piece. */
  function Leftover(a: string): string {
    if |a| < ID_ROOM then ""
    else if |a| < PRINT_BUFFER - 10 then a[ID_ROOM..] + "\n"
    else a[ID_ROOM..PRINT_BUFFER - 10]
  }

  lemma PrintedId(a: string, rest: string)
    requires Textual(a)
    ensures Printed("deviceid", a) + rest == "deviceid:" + IdArgument(a) + (Leftover(a) + rest)
  {
    CStringWhole(a);
    var line := LineText("deviceid", a);
    assert Printed("deviceid", a) == if |line| < PRINT_BUFFER then line else line[..PRINT_BUFFER - 1];
    assert |line| == |a| + 10 && line == "deviceid:" + a + "\n";
    assert |a| < ID_ROOM ==> IdArgument(a) == a + "\n" && Leftover(a) == "";
    assert ID_ROOM <= |a| < PRINT_BUFFER - 10 ==> IdArgument(a) == a[..ID_ROOM] && Leftover(a) == a[ID_ROOM..] + "\n";
    assert |a| >= PRINT_BUFFER - 10 ==> IdArgument(a) == a[..ID_ROOM] && Leftover(a) == a[ID_ROOM..PRINT_BUFFER - 10];
    hide CString, Printed, LineText, Textual, IdArgument, Leftover;
    if |a| >= PRINT_BUFFER - 10 {
      CutText("deviceid:", a, "\n", PRINT_BUFFER - 1, ID_ROOM);
    } else if |a| >= ID_ROOM {
      assert a == a[..ID_ROOM] + a[ID_ROOM..];
      Regroup("deviceid:", a[..ID_ROOM], a[ID_ROOM..], "\n");
    } else {
      Regroup("deviceid:", a, "\n", "");
    }
    Regroup("deviceid:", IdArgument(a), Leftover(a), rest);
  }

  lemma CutText(key: string, a: string, end: string, width: nat, room: nat)
    requires |key| + room <= width <= |key| + |a|
    ensures (key + a + end)[..width] == key + a[..room] + a[room..width - |key|]
  {
  }

  lemma Regroup(a: string, b: string, c: string, d: string)
    ensures a + b + c + d == a + b + (c + d) == a + (b + c) + d
  {
  }

  lemma SkipLeftover(c: Settings, a: string, rest: string)
    requires Textual(a) && |a| < PRINT_BUFFER - 10 && (|a| > ID_ROOM ==> ':' !in a[ID_ROOM..])
    ensures ReadLines(c, Leftover(a) + rest) == ReadLines(c, rest)
  {
    hide ReadLines;
    var tail := Leftover(a);
    if |a| < ID_ROOM {
      assert tail + rest == rest;
    } else if |tail| < LINE_BUFFER {
      SkipPiece(c, tail, rest);
    } else {
      var piece := a[ID_ROOM..];
      assert tail + rest == piece + ("\n" + rest);
      SkipPiece(c, piece, "\n" + rest);
      SkipPiece(c, "\n", rest);
    }
  }

  lemma LostLatitude(c: Settings, a: string, lat: int, rest: string)
    requires Textual(a) && |a| >= PRINT_BUFFER - 10 && ':' !in a[ID_ROOM..] && Abs(lat) < MICRO * MICRO
    ensures ReadLines(c, Leftover(a) + (LineText("lat", Fixed(lat)) + rest)) == ReadLines(c, rest)
  {
    var last := PRINT_BUFFER - 11;
    var piece, x := a[ID_ROOM..last], [a[last]];
    var line := x + LineText("lat", Fixed(lat));
    assert Leftover(a) + (LineText("lat", Fixed(lat)) + rest) == piece + (line + rest);
    assert a[last] == a[ID_ROOM..][last - ID_ROOM];
    hide ReadLines, Fixed;
    SkipPiece(c, piece, line + rest);
    MisreadLatitude(c, a[last], lat);
    ReadPiece(c, line, rest);
  }

  lemma MisreadLatitude(c: Settings, x: char, lat: int)
    requires Textual([x]) && x != ':' && Abs(lat) < MICRO * MICRO
    ensures var line := [x] + LineText("lat", Fixed(lat));
            Piece(line) && ApplyLine(c, line) == Loaded(c, false)
  {
    var a, t := Fixed(lat), LineText("lat", Fixed(lat));
    FixedIsPlain(lat);
    assert Plain("lat");
    LineTextShape("lat", a);
    FindIn(t);
    assert t[0] == t[..3][0] == 'l' && t[1] == t[..3][1] && t[2] == t[..3][2];
    TrimArgument(a);
    assert [x][0] == x;
    hide LineText, Fixed, TrimAll, HttpHead.CString, Find, Plain, ApplyLine;
    ShiftedLine(c, x, t, a);
  }

  /** A line whose key has moved by one character is not recognised. */
  lemma ShiftedLine(c: Settings, x: char, t: string, a: string)
    requires x !in ":\n\0" && 4 < |t| < LINE_BUFFER - 1
    requires t[|t| - 1] == '\n' && forall i :: 0 <= i < |t| - 1 ==> t[i] !in "\n\0"
    requires t[0] == 'l' && ':' !in t[..3] && t[3] == ':' && t[4..] == a + "\n" && TrimAll(a + "\n").Some?
    ensures Piece([x] + t) && ApplyLine(c, [x] + t) == Loaded(c, false)
  {
    var line := [x] + t;
    forall i | 0 <= i < |line| ensures line[i] != '\0' && (i < |line| - 1 ==> line[i] != '\n') {
      if i > 0 { assert line[i] == t[i - 1]; }
    }
    CStringWhole(line);
    assert forall i :: 1 <= i < 4 ==> line[i] == t[..3][i - 1];
    FindFirst(line, ':', 4);
    assert line[5..] == t[4..];
    assert line[1] == 'l' && "deviceid"[1] == 'e' && "lat"[1] == 'a' && "lon"[1] == 'o';
    hide TrimAll, HttpHead.CString, Find;
  }

  lemma FindIn(t: string)
    requires Find(t, ':') == Some(3)
    ensures |t| > 3 && t[3] == ':'
  {
  }

  lemma CoordinateLine(c: Settings, key: string, v: int, rest: string)
    requires (key == "lat" || key == "lon") && Abs(v) < MICRO * MICRO
    ensures Printed(key, Fixed(v)) == LineText(key, Fixed(v))
    ensures ReadLines(c, LineText(key, Fixed(v)) + rest)
         == ReadLines(if key == "lat" then c.(lat := Truncated(v)) else c.(lon := Truncated(v)), rest)
  {
    var a := Fixed(v);
    FixedIsPlain(v);
    assert Plain("lat") && Plain("lon");
    PrintedLine(c, key, a, rest);
    LineTextShape(key, a);
    TrimArgument(a);
    CoordinateReadBack(v);
    hide HttpHead.CString, Find, TrimAll, ReadLines, Plain, Fixed, Truncated, Atofn, LineText;
    var line := LineText(key, a);
    assert line[0] == line[..3][0] && line[1] == line[..3][1];
    assert "deviceid"[0] == 'd' && "lat"[0] == "lon"[0] == 'l' && "lat"[1] == 'a' && "lon"[1] == 'o';
    var c1 := if key == "lat" then c.(lat := Truncated(v)) else c.(lon := Truncated(v));
    assert ApplyLine(c, line) == Loaded(c1, false);
  }

  /** Loading what was saved, over any previous settings: coordinates cut towards zero, the
      identifier back as far as a line holds it and if that is long enough, an escaping exception
      exactly if nothing is left of it, and the latitude lost exactly if it has 190 characters. */
  lemma SaveThenLoad(c: Settings, prior: Settings)
    requires Textual(c.macAddress) && (|c.macAddress| > ID_ROOM ==> ':' !in c.macAddress[ID_ROOM..])
    requires Abs(c.lat) < MICRO * MICRO && Abs(c.lon) < MICRO * MICRO
    ensures var id, l := Kept(c.macAddress), ReadLines(prior, FileText(c));
            if id == "" then l == Loaded(prior, true)
            else l == Loaded(Settings(if |id| < 12 then prior.macAddress else id,
                                      if |c.macAddress| < PRINT_BUFFER - 10 then Truncated(c.lat) else prior.lat,
                                      Truncated(c.lon)), false)
  {
    var id, last := Kept(c.macAddress), LineText("lon", Fixed(c.lon));
    var c1 := if |id| < 12 then prior else prior.(macAddress := id);
    var c2 := if |c.macAddress| < PRINT_BUFFER - 10 then c1.(lat := Truncated(c.lat)) else c1;
    CoordinateLine(prior, "lat", c.lat, "");
    CoordinateLine(c2, "lon", c.lon, "");
    assert FileText(c) == Printed("deviceid", c.macAddress) + (LineText("lat", Fixed(c.lat)) + last);
    hide Fixed, Truncated, FileText, Printed, LineText, Abs, ReadLines, Kept, Textual;
    IdLine(prior, c.macAddress, c.lat, last);
    assert last + "" == last;
    ReadNothing(c2.(lon := Truncated(c.lon)));
  }

  lemma ReadNothing(c: Settings)
    ensures ReadLines(c, "") == Loaded(c, false)
  {
  }

  /** Once loaded, a configuration whose identifier was long enough (and did not fill the print
      buffer) comes back unchanged from every further save and load, over any other settings. */
  lemma ReloadIsIdempotent(c: Settings, prior: Settings, later: Settings)
    requires Textual(c.macAddress) && |c.macAddress| < PRINT_BUFFER - 10 && |Kept(c.macAddress)| >= 12
    requires |c.macAddress| > ID_ROOM ==> ':' !in c.macAddress[ID_ROOM..]
    requires Abs(c.lat) < MICRO * MICRO && Abs(c.lon) < MICRO * MICRO
    ensures var once := ReadLines(prior, FileText(c));
            && once == Loaded(Settings(Kept(c.macAddress), Truncated(c.lat), Truncated(c.lon)), false)
            && ReadLines(later, FileText(once.settings)) == once
  {
    TruncatedTwice(c.lat);
    TruncatedTwice(c.lon);
    KeptTwice(c.macAddress);
    hide Truncated, FileText, ReadLines, Abs, Kept, Textual;
    SaveThenLoad(c, prior);
    SaveThenLoad(Settings(Kept(c.macAddress), Truncated(c.lat), Truncated(c.lon)), later);
  }

  /** The six bytes of a MAC address printed as the identifier come back through the file. */
  lemma MacThroughFile(mac: seq<Byte>, lat: int, lon: int, prior: Settings, i: nat)
    requires |mac| == 6 && Abs(lat) < MICRO * MICRO && Abs(lon) < MICRO * MICRO && i < 6
    ensures var l := ReadLines(prior, FileText(Settings(PrintMac(mac), lat, lon)));
            && !l.threw && l.settings.macAddress == PrintMac(mac) && MacByte(l.settings.macAddress, i) == mac[i]
  {
    PrintMacIsPlain(mac);
    MacReadBack(mac, i);
    assert Textual(PrintMac(mac));
    KeptAsItIs(PrintMac(mac));
    hide Truncated, FileText, MacByte, Plain, ReadLines, Abs, Kept, Textual, PrintMac;
    SaveThenLoad(Settings(PrintMac(mac), lat, lon), prior);
  }

  // ----- the configuration object -----

  class File {
    var text: Option<string>

    constructor ()
      ensures text == None
    {
      text := None;
    }
  }

  class Config {
    var macAddress: string
    var lat: int
    var lon: int

    constructor ()
      ensures View() == Settings("", 0, 0)
    {
      macAddress, lat, lon := "", 0, 0;
    }

    function View(): Settings
      reads this
    {
      Settings(macAddress, lat, lon)
    }

    method Save(file: File, opens: bool)
      modifies file
      ensures file.text == if opens then Some(FileText(View())) else old(file.text)
    {
      if !opens { return; }
      hide Printed, Fixed;
      var text := Printed("deviceid", macAddress);
      text := text + Printed("lat", Fixed(lat));
      text := text + Printed("lon", Fixed(lon));
      file.text := Some(text);
      assert text == FileText(View());
    }

    method ReadConfigFile(file: File) returns (ok: bool, threw: bool)
      modifies this
      ensures ok <==> file.text.Some?
      ensures if file.text.Some? then Loaded(View(), threw) == ReadLines(old(View()), file.text.value)
              else View() == old(View()) && !threw
    {
      threw := false;
      if file.text.None? { return false, false; }
      var rest := file.text.value;
      hide ApplyLine;
      while rest != ""
        invariant ReadLines(old(View()), file.text.value) == ReadLines(View(), rest)
        decreases |rest|
      {
        var n := LineLength(rest, LINE_BUFFER - 1);
        threw := ReadLine(rest[..n]);
        if threw { return true, true; }
        rest := rest[n..];
      }
      ok := true;
    }

    /** One pass of the loop over the lines. */
    method ReadLine(buf: string) returns (threw: bool)
      modifies this
      ensures Loaded(View(), threw) == ApplyLine(old(View()), buf)
    {
      hide TrimAll, Atofn;
      var line := HttpHead.CString(buf);
      var arg := Find(line, ':');
      if arg.None? { return false; }
      var argument := TrimAll(line[arg.value + 1..]);
      if argument.None? { return true; }
      if "deviceid" <= line {
        if |argument.value| < 12 { return false; }
        macAddress := argument.value;
      } else if "lat" <= line {
        lat := Atofn(argument.value, COORDINATE_WIDTH);
      } else if "lon" <= line {
        lon := Atofn(argument.value, COORDINATE_WIDTH);
      }
      threw := false;
    }
  }
}
