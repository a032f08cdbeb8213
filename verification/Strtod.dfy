/** Reading decimals: the exact comparison behind strtod, and its answer on digit strings of any length. */
module Strtod {
  import opened Powers
  import opened Decimal
  import opened Words
  import opened Ieee
  import opened BigitSeq
  import opened BigitArrays
  import opened BignumFacts
  import opened Bignums

  const MAX_DECIMAL_POWER := 309
  const MIN_DECIMAL_POWER := -324
  const MAX_SIGNIFICANT_DECIMAL_DIGITS := 780

  // ---------- the exact comparison ----------

  /** What CompareBufferWithDiyFp asks of its callers; the last line is the range of a double's boundary. */
  predicate Comparable(buffer: seq<char>, exponent: int, diyFp: DiyFp) {
    && |buffer| + exponent <= MAX_DECIMAL_POWER + 1
    && |buffer| + exponent > MIN_DECIMAL_POWER
    && |buffer| <= MAX_SIGNIFICANT_DECIMAL_DIGITS
    && -1100 <= diyFp.e <= 1100
  }

  lemma FitsInBits(v: nat, m: nat, n: nat)
    requires v <= Pow(2, m) && m < 28 * n
    ensures v < P(n)
  {
    hide Pow, P;
    PIsPow2(n);
    PowStrictMono(2, m, 28 * n);
  }

  lemma FiveBelowEight(n: nat)
    ensures Pow(5, n) <= Pow(2, 3 * n)
  {
    PowBaseMono(5, 8, n);
    assert Pow(2, 3) == 8 by {
      Pow2Small();
      PowAdd(2, 1, 2);
    }
    PowOfPow(2, 3, n);
  }

  /** The decimal's integer with its power of ten. */
  method BufferTimesPower(x: Bignum, buffer: seq<char>, exponent: int)
    requires x.Valid() && AllDigits(buffer) && |buffer| <= MAX_SIGNIFICANT_DECIMAL_DIGITS
    requires |buffer| + exponent <= MAX_DECIMAL_POWER + 1
    modifies x, x.bigits
    ensures x.Valid() && x.Value() == DecVal(buffer) * Up(10, exponent)
    ensures x.used < CAPACITY && x.exponent <= 100
  {
    hide V, P, Pow, DecVal, Up;
    UpDown(10, exponent);
    x.AssignDecimalString(buffer);
    MantissaIsValue(V(x.Mantissa()));
    BufferSize(buffer, exponent);
    if exponent >= 0 {
      x.MultiplyByPowerOfTen(exponent);
    }
    Shorter(x.Mantissa(), x.exponent, CAPACITY - 1);
  }

  lemma BufferSize(buffer: seq<char>, exponent: int)
    requires AllDigits(buffer) && |buffer| <= MAX_SIGNIFICANT_DECIMAL_DIGITS
    requires |buffer| + exponent <= MAX_DECIMAL_POWER + 1
    ensures 0 <= DecVal(buffer) * Up(10, exponent) < P(CAPACITY - 1)
    ensures exponent >= 0 ==> DecVal(buffer) * Pow(5, exponent) < P(CAPACITY - 1)
  {
    hide Pow, P, Up, DecVal;
    DecValBound(buffer);
    UpDown(10, exponent);
    TenBelowSixteen(|buffer|);
    var k := if exponent >= 0 then exponent else 0;
    TenBelowSixteen(k);
    FiveBelowEight(k);
    PowMono(2, 3 * k, 4 * k);
    ProductBelow(DecVal(buffer), Up(10, exponent), 4 * |buffer|, 4 * k) by {
      if exponent < 0 {
        PowMono(2, 0, 4 * k);
        PowZero(2);
      }
    }
    FitsInBits(DecVal(buffer) * Up(10, exponent), 4 * |buffer| + 4 * k, CAPACITY - 1);
    if exponent >= 0 {
      ProductBelow(DecVal(buffer), Pow(5, k), 4 * |buffer|, 4 * k);
      FitsInBits(DecVal(buffer) * Pow(5, k), 4 * |buffer| + 4 * k, CAPACITY - 1);
    }
  }

  /** The floating-point number's integer with the decimal's denominator. */
  method FloatTimesPower(x: Bignum, f: uint64, exponent: int)
    requires x.Valid() && exponent > MIN_DECIMAL_POWER - MAX_SIGNIFICANT_DECIMAL_DIGITS
    modifies x, x.bigits
    ensures x.Valid() && x.Value() == f as int * Down(10, exponent)
    ensures x.used < CAPACITY && x.exponent <= 100
  {
    hide V, P, Pow, Down;
    UpDown(10, exponent);
    x.AssignUInt64(f);
    MantissaIsValue(V(x.Mantissa()));
    FloatSize(f as int, exponent);
    var k := 0;
    if exponent < 0 {
      k := -exponent;
      x.MultiplyByPowerOfTen(k);
    }
    Shorter(x.Mantissa(), x.exponent, k / 7 + 4);
  }

  lemma FloatSize(f: nat, exponent: int)
    requires f < 0x1_0000_0000_0000_0000 && exponent > MIN_DECIMAL_POWER - MAX_SIGNIFICANT_DECIMAL_DIGITS
    ensures exponent < 0 ==> f * Pow(5, -exponent) < P(CAPACITY - 1)
    ensures f * Down(10, exponent) < P((if exponent < 0 then -exponent else 0) / 7 + 4)
  {
    hide Pow, P, Down;
    Pow2Table();
    UpDown(10, exponent);
    if exponent < 0 {
      var k := -exponent;
      FiveBelowEight(k);
      ProductBelow(f, Pow(5, k), 64, 3 * k);
      FitsInBits(f * Pow(5, k), 64 + 3 * k, CAPACITY - 1);
      TenBelowSixteen(k);
      ProductBelow(f, Pow(10, k), 64, 4 * k);
      FitsInBits(f * Pow(10, k), 64 + 4 * k, k / 7 + 4);
    } else {
      FitsInBits(f, 64, 4);
    }
  }

  /** The exact sign of buffer * 10^exponent - f * 2^e. */
  method CompareBufferWithDiyFp(buffer: seq<char>, exponent: int, diyFp: DiyFp) returns (r: int)
    requires AllDigits(buffer) && Comparable(buffer, exponent, diyFp)
    ensures r == Sign(DecVal(buffer) * Up(10, exponent) * Down(2, diyFp.e)
                      - diyFp.f as int * Down(10, exponent) * Up(2, diyFp.e))
  {
    hide V, P, Pow, DecVal, Up, Down, Bignum.Valid, Bignum.Value;
    var bufferBignum := new Bignum();
    var diyFpBignum := new Bignum();
    BufferTimesPower(bufferBignum, buffer, exponent);
    FloatTimesPower(diyFpBignum, diyFp.f, exponent);
    UpDown(2, diyFp.e);
    if diyFp.e > 0 {
      diyFpBignum.ShiftLeft(diyFp.e);
    } else {
      bufferBignum.ShiftLeft(-diyFp.e);
      if diyFp.e == 0 {
        PowZero(2);
      }
    }
    r := Compare(bufferBignum, diyFpBignum);
  }

  // ---------- rounding decimals ----------

  /** The units of Ieee: one unit is 2^-1074. */
  ghost const UNITS := Pow(2, 1074)

  /** d is the double nearest to digits * 10^exponent, ties going to the even significand. */
  ghost predicate ReadsAs(digits: seq<char>, exponent: int, d: Double) {
    Nearest(DecVal(digits) * Up(10, exponent) * UNITS, Down(10, exponent), d)
  }

  /** The integer comparison is the comparison with the midpoint. */
  lemma {:induction false} ComparedWithMidpoint(num: int, den: int, d: Double)
    requires den > 0 && d < INFINITY
    ensures var b := UpperBoundary(d);
            Sign(num * Down(2, b.e) - b.f as int * den * Up(2, b.e)) == Side(num * UNITS, den, Mid(d))
  {
    hide Pow, Mid, Up, Down;
    var b := UpperBoundary(d);
    var f, e := b.f as int, b.e;
    UpperBoundaryIsMidpoint(d);
    UpDown(2, e);
    var k := if e < 0 then Pow(2, e + 1075) else Pow(2, 1075);
    if e < 0 {
      PowAdd(2, -e, e + 1075);
    } else {
      PowAdd(2, e, 1075);
    }
    PowStep(2, 1074);
    ScaledSide(num, f, den, Down(2, e), Up(2, e), k, UNITS, Pow(2, e + 1075));
  }

  lemma ScaledSide(num: int, f: int, den: int, down: int, up: int, k: int, units: int, ulp: int)
    requires k > 0 && down * k == 2 * units && up * k == ulp
    ensures Sign(num * down - f * den * up) == Side(num * units, den, f * ulp)
  {
    MulCompare(num * down, f * den * up, k);
    TwoFactors(num, down, k, units);
    ThreeFactors(f, den, up, k, ulp);
  }

  lemma TwoFactors(x: int, down: int, k: int, units: int)
    requires down * k == 2 * units
    ensures x * down * k == 2 * (x * units)
  {
    MulAssoc(x, down, k);
    assert x * (2 * units) == 2 * (x * units);
  }

  lemma ThreeFactors(f: int, den: int, up: int, k: int, ulp: int)
    requires up * k == ulp
    ensures f * den * up * k == f * ulp * den
  {
    MulAssoc(f * den, up, k);
    assert f * den * ulp == f * ulp * den;
  }

  /** Between a double and its successor, the side of the midpoint and then parity decide. */
  lemma {:induction false} UpperOrLower(x: int, den: int, d: Double)
    requires den > 0 && d < INFINITY && (Nearest(x, den, d) || Nearest(x, den, d + 1))
    ensures Side(x, den, Mid(d)) < 0 || (Side(x, den, Mid(d)) == 0 && Significand(d) % 2 == 0) ==> Nearest(x, den, d)
    ensures Side(x, den, Mid(d)) > 0 || (Side(x, den, Mid(d)) == 0 && Significand(d) % 2 != 0)
            ==> Nearest(x, den, d + 1)
  {
    hide Val, Side, Dist;
    MidpointDecides(x, den, d, d + 1);
    NeighboursAlternate(d);
    NeighboursAlternate(d + 1);
    assert Nearest(x, den, d) ==> Prefers(x, den, d, d + 1);
    assert Nearest(x, den, d + 1) ==> Prefers(x, den, d + 1, d);
  }

  // ---------- sizes ----------

  lemma TenTo28()
    ensures Pow(2, 93) <= Pow(10, 28)
    ensures Pow(2, 53) <= Pow(10, 16) && Pow(2, 3) <= 10 == Pow(10, 1)
  {
    hide Pow;
    Pow10Table();
    Pow2Table();
    Pow2Small();
    PowAdd(10, 10, 10);
    PowAdd(10, 20, 8);
    PowAdd(10, 10, 6);
    PowAdd(2, 1, 2);
    PowAdd(2, 8, 8);
    PowAdd(2, 16, 4);
    PowAdd(2, 20, 8);
    PowAdd(2, 28, 1);
    PowAdd(2, 64, 29);
    PowAdd(2, 32, 20);
    PowAdd(2, 52, 1);
  }

  lemma PowersMeet()
    ensures Pow(2, 1024) <= Pow(10, 309)
    ensures Pow(2, 1075) < Pow(10, 324)
  {
    hide Pow;
    TenTo28();
    PowBaseMono(Pow(2, 93), Pow(10, 28), 11);
    PowOfPow(2, 93, 11);
    PowOfPow(10, 28, 11);
    PowAdd(2, 1023, 3);
    PowAdd(10, 308, 1);
    PowAdd(2, 1023, 53);
    PowAdd(10, 308, 16);
    MulBoth(Pow(2, 1023), Pow(10, 308), Pow(2, 3), Pow(10, 1));
    MulBoth(Pow(2, 1023), Pow(10, 308), Pow(2, 53), Pow(10, 16));
    PowMono(2, 1024, 1026);
    PowStrictMono(2, 1075, 1076);
  }

  /** 779 digits outweigh everything a midpoint can need below 10^-1075. */
  lemma {:induction false} EnoughDigits()
    ensures Pow(2, 54) * Pow(5, 1074) <= Pow(10, 778)
  {
    hide Pow;
    PowOfProduct(2, 5, 778);
    PowAdd(2, 54, 724);
    PowAdd(5, 296, 778);
    FiveBelow(99);
    PowMono(5, 296, 297);
    PowMono(2, 693, 724);
    MulMono(Pow(5, 296), Pow(2, 724), Pow(5, 778));
    MulMonoRight(Pow(2, 54), Pow(5, 296) * Pow(5, 778), Pow(2, 724) * Pow(5, 778));
    MulAssoc(Pow(2, 54), Pow(2, 724), Pow(5, 778));
  }

  lemma FiveBelow(n: nat)
    ensures Pow(5, 3 * n) <= Pow(2, 7 * n)
  {
    hide Pow;
    assert Pow(5, 3) <= Pow(2, 7) by {
      Pow2Small();
      PowAdd(2, 1, 2);
      PowAdd(2, 3, 4);
      CubeOfFive();
    }
    PowBaseMono(Pow(5, 3), Pow(2, 7), n);
    PowOfPow(5, 3, n);
    PowOfPow(2, 7, n);
  }

  lemma CubeOfFive()
    ensures Pow(5, 3) == 125
  {
    assert Pow(5, 1) == 5 && Pow(5, 2) == 25;
  }

  // ---------- decimals of one value ----------

  /** 10^m * 10^exponent is 10^(exponent+m), as fractions. */
  lemma {:induction false} ShiftExponent(exponent: int, m: nat)
    ensures Pow(10, m) * Up(10, exponent) * Down(10, exponent + m) == Up(10, exponent + m) * Down(10, exponent)
  {
    hide Pow, Up, Down;
    UpDown(10, exponent);
    UpDown(10, exponent + m);
    if exponent >= 0 {
      PowAdd(10, m, exponent);
    } else if exponent + m >= 0 {
      PowAdd(10, exponent + m, -exponent);
      if exponent + m == 0 {
        PowZero(10);
      }
    } else {
      PowAdd(10, m, -exponent - m);
    }
  }

  /** Zeros at the end can go into the exponent. */
  lemma {:induction false} TrailingZerosMove(digits: seq<char>, n: nat, exponent: int, d: Double)
    requires n <= |digits| && forall i :: n <= i < |digits| ==> digits[i] == '0'
    ensures ReadsAs(digits, exponent, d) <==> ReadsAs(digits[..n], exponent + |digits| - n, d)
  {
    hide Pow, DecVal, Up, Down, Nearest;
    var m, v := |digits| - n, DecVal(digits[..n]);
    DecValJoin(digits, n, m);
    assert digits[..n + m] == digits && digits[n..n + m] == digits[n..];
    ZerosAreNothing(digits[n..]);
    ShiftExponent(exponent, m);
    MovedFactor(v, Pow(10, m), Up(10, exponent), Down(10, exponent + m), Up(10, exponent + m), Down(10, exponent));
    SameQuotient(DecVal(digits) * Up(10, exponent) * UNITS, Down(10, exponent),
                 v * Up(10, exponent + m) * UNITS, Down(10, exponent + m), d);
  }

  lemma MovedFactor(v: int, t: int, u: int, d': int, u': int, d: int)
    requires t * u * d' == u' * d
    ensures v * t * u * UNITS * d' == v * u' * UNITS * d
  {
    hide Pow;
    var k := UNITS;
    assert v * t * u * k * d' == v * k * (t * u * d');
    assert v * u' * k * d == v * k * (u' * d);
  }

  // ---------- cutting to 780 digits ----------

  /**
   * No midpoint lies strictly between p * 10^q and (p+1) * 10^q when p has 779 digits: a midpoint is a
   * multiple of 2^-1075 and has at most 54 significant bits.
   */
  lemma {:induction false} NoMidpointBetween(p: nat, q: int, d: Double)
    requires Pow(10, 778) <= p && d < INFINITY
    ensures || Side(p * Up(10, q) * UNITS, Down(10, q), Mid(d)) >= 0
            || Side((p + 1) * Up(10, q) * UNITS, Down(10, q), Mid(d)) <= 0
  {
    hide Pow, Mid, Up, Down;
    UpDown(10, q);
    UpperBoundaryIsMidpoint(d);
    var m, j := 2 * Significand(d) as int + 1, Exponent(d) - DENORMAL_EXPONENT;
    PowStep(2, 1074);
    if q >= 0 {
      HugeIsAbove(p, q, m, j);
    } else {
      OddAndTwos(m, j, -q);
      if j - q >= 1075 {
        MultipleOfUnit(m * Pow(5, -q), j - q, p);
      } else {
        TinyMidpoint(p, m, j, -q);
      }
    }
  }

  lemma {:induction false} HugeIsAbove(p: nat, q: nat, m: nat, j: nat)
    requires Pow(10, 778) <= p && m < 2 * 0x20_0000_0000_0000 && j <= 2046
    ensures m * Pow(2, j) <= 2 * (p * Pow(10, q) * UNITS)
  {
    hide Pow;
    Below54();
    PowMono(2, j, 2046);
    MulBoth(m, Pow(2, 54), Pow(2, j), Pow(2, 2046));
    PowAdd(2, 54, 2046);
    EightBelowTen();
    PowMono(2, 2100, 2334 + 1074);
    PowAdd(2, 2334, 1074);
    MulMono(Pow(2, 2334), p, UNITS);
    MulMonoRight(p, 1, Pow(10, q));
    MulMono(p, p * Pow(10, q), UNITS);
  }

  lemma Below54()
    ensures Pow(2, 54) == 2 * 0x20_0000_0000_0000
  {
    hide Pow;
    Pow2Table();
    Pow2Small();
    PowAdd(2, 32, 16);
    PowAdd(2, 48, 4);
    PowAdd(2, 52, 2);
  }

  lemma EightBelowTen()
    ensures Pow(2, 2334) <= Pow(10, 778)
  {
    hide Pow;
    Pow2Small();
    PowAdd(2, 1, 2);
    PowBaseMono(Pow(2, 3), 10, 778);
    PowOfPow(2, 3, 778);
  }

  lemma OddAndTwos(m: nat, j: nat, k: nat)
    ensures m * Pow(2, j) * Pow(10, k) == m * Pow(5, k) * Pow(2, j + k)
  {
    hide Pow;
    PowOfProduct(2, 5, k);
    PowAdd(2, j, k);
    var a, b, c := Pow(2, j), Pow(2, k), Pow(5, k);
    assert m * a * (b * c) == m * c * (a * b);
  }

  /** A multiple of 2^1075 is not strictly between p and p + 1 times 2^1075. */
  lemma {:induction false} MultipleOfUnit(a: nat, n: nat, p: nat)
    requires n >= 1075
    ensures a * Pow(2, n) <= p * Pow(2, 1075) || (p + 1) * Pow(2, 1075) <= a * Pow(2, n)
  {
    hide Pow;
    PowAdd(2, n - 1075, 1075);
    MulAssoc(a, Pow(2, n - 1075), Pow(2, 1075));
    var b := a * Pow(2, n - 1075);
    if b <= p {
      MulMono(b, p, Pow(2, 1075));
    } else {
      MulMono(p + 1, b, Pow(2, 1075));
    }
  }

  lemma {:induction false} TinyMidpoint(p: nat, m: nat, j: nat, k: nat)
    requires Pow(10, 778) <= p && m < 2 * 0x20_0000_0000_0000 && j + k < 1075
    ensures m * Pow(5, k) * Pow(2, j + k) <= p * Pow(2, 1075)
  {
    hide Pow;
    Below54();
    EnoughDigits();
    PowMono(5, k, 1074);
    MulBoth(m, Pow(2, 54), Pow(5, k), Pow(5, 1074));
    PowMono(2, j + k, 1075);
    MulBoth(m * Pow(5, k), p, Pow(2, j + k), Pow(2, 1075));
  }

  /** v * 10^exponent, cut off m digits early, is strictly between neighbouring multiples of 10^(exponent+m). */
  lemma {:induction false} SideIsDecided(v: nat, exponent: int, p: nat, m: nat, d: Double)
    requires Pow(10, 778) <= p && d < INFINITY && p * Pow(10, m) < v < (p + 1) * Pow(10, m)
    ensures Side(v * Up(10, exponent) * UNITS, Down(10, exponent), Mid(d))
         == if Side(p * Up(10, exponent + m) * UNITS, Down(10, exponent + m), Mid(d)) >= 0 then 1 else -1
  {
    hide Pow, Mid, Up, Down, Side;
    var q := exponent + m;
    NoMidpointBetween(p, q, d);
    ShiftExponent(exponent, m);
    Bracket(v, p, Pow(10, m), Up(10, exponent), Down(10, q), Up(10, q), Down(10, exponent));
    Between(v * Up(10, exponent) * UNITS, Down(10, exponent),
            p * Up(10, q) * UNITS, (p + 1) * Up(10, q) * UNITS, Down(10, q), Mid(d));
  }

  lemma {:induction false} Bracket(v: int, p: int, t: int, u: int, d': int, u': int, d: int)
    requires t * u * d' == u' * d && u > 0 && d' > 0 && p * t < v < (p + 1) * t
    ensures p * u' * UNITS * d < v * u * UNITS * d' < (p + 1) * u' * UNITS * d
  {
    hide Pow;
    MovedFactor(p, t, u, d', u', d);
    MovedFactor(p + 1, t, u, d', u', d);
    Scaled4(p * t, v, u, UNITS, d');
    Scaled4(v, (p + 1) * t, u, UNITS, d');
  }

  lemma Scaled4(x: int, y: int, a: int, b: int, c: int)
    requires x < y && a > 0 && b > 0 && c > 0
    ensures x * a * b * c < y * a * b * c
  {
    MulStrictMono(x, y, a);
    MulStrictMono(x * a, y * a, b);
    MulStrictMono(x * a * b, y * a * b, c);
  }

  lemma Between(y: int, b: int, x0: int, x1: int, den: int, m: int)
    requires b > 0 && den > 0 && x0 * b < y * den < x1 * b
    requires Side(x0, den, m) >= 0 || Side(x1, den, m) <= 0
    ensures Side(y, b, m) == if Side(x0, den, m) >= 0 then 1 else -1
  {
    assert m * den * b == m * b * den;
    if 2 * x0 >= m * den {
      MulMono(m * den, 2 * x0, b);
      assert 2 * x0 * b == 2 * (x0 * b);
      MulLtInv(m * b, 2 * y, den);
    } else {
      MulMono(2 * x1, m * den, b);
      assert 2 * x1 * b == 2 * (x1 * b) && 2 * y * den == 2 * (y * den);
      MulLtInv(2 * y, m * b, den);
    }
  }

  /** Trimmed digits: none at all, or a first and a last digit that are not zero. */
  ghost predicate Trimmed(s: seq<char>) {
    && AllDigits(s)
    && (|s| > 0 ==> s[0] != '0' && s[|s| - 1] != '0')
  }

  /** What is kept and what is cut off, in numbers. */
  lemma CutParts(s: seq<char>)
    requires Trimmed(s) && |s| > MAX_SIGNIFICANT_DECIMAL_DIGITS
    ensures var p, m := DecVal(s[..779]), |s| - 779;
            && Pow(10, 778) <= p
            && p * Pow(10, m) < DecVal(s) < (p + 1) * Pow(10, m)
            && p * Pow(10, 1) < DecVal(s[..779] + ['1']) < (p + 1) * Pow(10, 1)
  {
    hide DecVal, Pow;
    var p, m := DecVal(s[..779]), |s| - 779;
    LeadingDigitCounts(s[..779]);
    DecValJoin(s, 779, m);
    assert s[..779 + m] == s && s[779..779 + m] == s[779..];
    DecValBound(s[779..]);
    LastDigitCounts(s[779..]);
    Distribute(p, 1, Pow(10, m));
    Pow10Table();
    DecValAppend(s[..779], '1');
  }

  lemma LastDigitCounts(s: seq<char>)
    requires AllDigits(s) && |s| > 0 && s[|s| - 1] != '0'
    ensures DecVal(s) > 0
  {
    DecValBound(s[..|s| - 1]);
  }

  /** Replacing everything after 779 digits by a single '1' does not change how the decimal rounds. */
  lemma {:induction false} CuttingIsHarmless(s: seq<char>, exponent: int, d: Double)
    requires Trimmed(s) && |s| > MAX_SIGNIFICANT_DECIMAL_DIGITS
    ensures ReadsAs(s[..779] + ['1'], exponent + |s| - 780, d) <==> ReadsAs(s, exponent, d)
  {
    hide DecVal, Pow, Up, Down, Side, Mid, Nearest;
    var t, e := s[..779] + ['1'], exponent + |s| - 780;
    CutParts(s);
    var p := DecVal(s[..779]);
    forall c: Double | c < INFINITY
      ensures Side(DecVal(t) * Up(10, e) * UNITS, Down(10, e), Mid(c))
           == Side(DecVal(s) * Up(10, exponent) * UNITS, Down(10, exponent), Mid(c))
    {
      SideIsDecided(DecVal(s), exponent, p, |s| - 779, c);
      SideIsDecided(DecVal(t), e, p, 1, c);
    }
    SameSides(DecVal(t) * Up(10, e) * UNITS, Down(10, e), DecVal(s) * Up(10, exponent) * UNITS, Down(10, exponent), d);
  }

  // ---------- the answers known beforehand ----------

  lemma NothingReadsAsZero(exponent: int)
    ensures ReadsAs([], exponent, 0)
  {
    hide Pow, Mid, Up, Down, Nearest;
    NearestIffInside(0, Down(10, exponent), 0);
    NeighboursAlternate(0);
    MidOfZero();
    assert DecVal([]) == 0;
  }

  /** 10^n against digits * 10^exponent. */
  lemma {:induction false} Magnitude(length: nat, exponent: int, n: nat)
    ensures length + exponent >= n ==> Pow(10, n) * Down(10, exponent) <= Pow(10, length) * Up(10, exponent)
    ensures length + exponent + n <= 0 ==> Pow(10, length) * Up(10, exponent) * Pow(10, n) <= Down(10, exponent)
  {
    hide Pow, Up, Down;
    UpDown(10, exponent);
    PowZero(10);
    if length + exponent >= n {
      if exponent >= 0 {
        PowAdd(10, length, exponent);
        PowMono(10, n, length + exponent);
      } else {
        PowAdd(10, n, -exponent);
        PowMono(10, n - exponent, length);
      }
    }
    if length + exponent + n <= 0 {
      if exponent >= 0 {
        assert length == 0 && exponent == 0 && n == 0;
      } else {
        PowAdd(10, length, n);
        PowMono(10, length + n, -exponent);
      }
    }
  }

  lemma {:induction false} TooLargeReadsAsInfinity(digits: seq<char>, exponent: int)
    requires Trimmed(digits) && |digits| > 0 && exponent + |digits| - 1 >= MAX_DECIMAL_POWER
    ensures ReadsAs(digits, exponent, INFINITY)
  {
    hide Pow, Up, Down, Nearest, DecVal;
    var v, u, den := DecVal(digits), Up(10, exponent), Down(10, exponent);
    LeadingDigitCounts(digits);
    Magnitude(|digits| - 1, exponent, 309);
    PowersMeet();
    MulMono(Pow(2, 1024), Pow(10, 309), den);
    MulMono(Pow(10, |digits| - 1), v, u);
    MulMono(Pow(2, 1024) * den, v * u, UNITS);
    InfinityIsFarEnough(v * u * UNITS, den);
    NearestIffInside(v * u * UNITS, den, INFINITY);
  }

  lemma {:induction false} InfinityIsFarEnough(x: int, den: int)
    requires den > 0 && Pow(2, 1024) * den * UNITS <= x
    ensures Side(x, den, Mid(INFINITY - 1)) > 0
  {
    hide Pow, Val;
    ValOfInfinity();
    ValIsMonotone(INFINITY - 1, INFINITY);
    assert Pow(2, 1024) * den * UNITS == Pow(2, 1024) * UNITS * den;
    SideMono(x, den, Mid(INFINITY - 1), 2 * Val(INFINITY));
    assert 2 * Val(INFINITY) * den == 2 * (Val(INFINITY) * den);
  }

  /** Infinity takes part in rounding as 2^1024. */
  lemma ValOfInfinity()
    ensures Val(INFINITY) == Pow(2, 1024) * UNITS
  {
    hide Pow;
    Below54();
    PowAdd(2, 52, 2);
    Pow2Small();
    PowAdd(2, 52, 2046);
    PowAdd(2, 1024, 1074);
  }

  lemma {:induction false} TooSmallReadsAsZero(digits: seq<char>, exponent: int)
    requires Trimmed(digits) && |digits| > 0 && exponent + |digits| <= MIN_DECIMAL_POWER
    ensures ReadsAs(digits, exponent, 0)
  {
    hide Pow, Up, Down, Nearest, DecVal;
    var v, u, den := DecVal(digits), Up(10, exponent), Down(10, exponent);
    LeadingDigitCounts(digits);
    Magnitude(|digits|, exponent, 324);
    PowersMeet();
    PowStep(2, 1074);
    MulStrictMono(v, Pow(10, |digits|), u);
    MulMono(v * u, Pow(10, |digits|) * u, 2 * UNITS);
    MulMonoRight(Pow(10, |digits|) * u, 2 * UNITS, Pow(10, 324));
    BelowHalfUnit(v * u * UNITS, den, v * u, Pow(10, |digits|) * u);
    NearestIffInside(v * u * UNITS, den, 0);
  }

  lemma BelowHalfUnit(x: int, den: int, y: int, z: int)
    requires den > 0 && 0 <= y < z && x == y * UNITS && z * (2 * UNITS) <= den
    ensures Side(x, den, Mid(0)) < 0
  {
    hide Pow;
    MulStrictMono(y, z, 2 * UNITS);
    assert y * (2 * UNITS) == 2 * (y * UNITS);
    MidOfZero();
  }

  lemma MidOfZero()
    ensures Mid(0) == 1
  {
    NextIsOneUlpUp(0);
  }

  // ---------- strtod ----------

  /** What the floating-point part answers: a double, and whether it is sure of it. */
  datatype Guess = Guess(isCorrect: bool, double: Double)

  /** Its documented contract: sure means right; otherwise the double is right or the next one is. */
  ghost predicate GoodGuess(digits: seq<char>, exponent: int, g: Guess) {
    || ReadsAs(digits, exponent, g.double)
    || (!g.isCorrect && g.double < INFINITY && ReadsAs(digits, exponent, g.double + 1))
  }

  /** The inputs that reach the floating-point part. */
  ghost predicate InFloatRange(digits: seq<char>, exponent: int) {
    && Trimmed(digits) && 0 < |digits| <= MAX_SIGNIFICANT_DECIMAL_DIGITS
    && exponent + |digits| - 1 < MAX_DECIMAL_POWER
    && exponent + |digits| > MIN_DECIMAL_POWER
  }

  /** floatingPoint stands for DoubleStrtod and DiyFpStrtod, which are not modelled. */
  ghost predicate Reliable(floatingPoint: (seq<char>, int) -> Guess) {
    forall s: seq<char>, e: int :: InFloatRange(s, e) ==> GoodGuess(s, e, floatingPoint(s, e))
  }

  method ComputeGuess(trimmed: seq<char>, exponent: int, floatingPoint: (seq<char>, int) -> Guess) returns (g: Guess)
    requires Trimmed(trimmed) && |trimmed| <= MAX_SIGNIFICANT_DECIMAL_DIGITS && Reliable(floatingPoint)
    ensures GoodGuess(trimmed, exponent, g)
    ensures !g.isCorrect ==> g.double < INFINITY && InFloatRange(trimmed, exponent)
  {
    hide ReadsAs;
    if |trimmed| == 0 {
      NothingReadsAsZero(exponent);
      return Guess(true, 0);
    }
    if exponent + |trimmed| - 1 >= MAX_DECIMAL_POWER {
      TooLargeReadsAsInfinity(trimmed, exponent);
      return Guess(true, INFINITY);
    }
    if exponent + |trimmed| <= MIN_DECIMAL_POWER {
      TooSmallReadsAsZero(trimmed, exponent);
      return Guess(true, 0);
    }
    g := floatingPoint(trimmed, exponent);
    if g.double == INFINITY {
      g := g.(isCorrect := true);
    }
  }

  /** The double nearest to trimmed * 10^exponent. */
  method StrtodTrimmed(trimmed: seq<char>, exponent: int, floatingPoint: (seq<char>, int) -> Guess) returns (d: Double)
    requires Trimmed(trimmed) && |trimmed| <= MAX_SIGNIFICANT_DECIMAL_DIGITS && Reliable(floatingPoint)
    ensures ReadsAs(trimmed, exponent, d)
  {
    hide DecVal, Up, Down, Pow, Side, Mid, Nearest, Reliable, Sign;
    var g := ComputeGuess(trimmed, exponent, floatingPoint);
    if g.isCorrect {
      return g.double;
    }
    var guess := g.double;
    var comparison := CompareBufferWithDiyFp(trimmed, exponent, UpperBoundary(guess));
    ComparedWithMidpoint(DecVal(trimmed) * Up(10, exponent), Down(10, exponent), guess);
    UpperOrLower(DecVal(trimmed) * Up(10, exponent) * UNITS, Down(10, exponent), guess);
    if comparison < 0 {
      return guess;
    } else if comparison > 0 {
      return NextDouble(guess);
    } else if Significand(guess) % 2 == 0 {
      // Exactly in the middle, and the guess is even.
      return guess;
    } else {
      return NextDouble(guess);
    }
  }

  method TrimLeadingZeros(buffer: seq<char>) returns (n: nat)
    ensures n <= |buffer| && (forall i :: 0 <= i < n ==> buffer[i] == '0')
    ensures n < |buffer| ==> buffer[n] != '0'
  {
    for i := 0 to |buffer|
      invariant forall k :: 0 <= k < i ==> buffer[k] == '0'
    {
      if buffer[i] != '0' {
        return i;
      }
    }
    return |buffer|;
  }

  method TrimTrailingZeros(buffer: seq<char>) returns (n: nat)
    ensures n <= |buffer| && (forall i :: n <= i < |buffer| ==> buffer[i] == '0')
    ensures n > 0 ==> buffer[n - 1] != '0'
  {
    var i := |buffer| - 1;
    while i >= 0
      invariant -1 <= i < |buffer| && forall k :: i < k < |buffer| ==> buffer[k] == '0'
    {
      if buffer[i] != '0' {
        return i + 1;
      }
      i := i - 1;
    }
    return 0;
  }

  /** The first 779 digits and a final '1'. */
  method CutToMaxSignificantDigits(buffer: seq<char>, exponent: int, significantBuffer: array<char>)
    returns (significantExponent: int)
    requires |buffer| > MAX_SIGNIFICANT_DECIMAL_DIGITS && significantBuffer.Length >= MAX_SIGNIFICANT_DECIMAL_DIGITS
    modifies significantBuffer
    ensures significantBuffer[..MAX_SIGNIFICANT_DECIMAL_DIGITS] == buffer[..MAX_SIGNIFICANT_DECIMAL_DIGITS - 1] + ['1']
    ensures significantExponent == exponent + |buffer| - MAX_SIGNIFICANT_DECIMAL_DIGITS
  {
    for i := 0 to MAX_SIGNIFICANT_DECIMAL_DIGITS - 1
      invariant significantBuffer[..i] == buffer[..i]
    {
      significantBuffer[i] := buffer[i];
    }
    significantBuffer[MAX_SIGNIFICANT_DECIMAL_DIGITS - 1] := '1';
    significantExponent := exponent + (|buffer| - MAX_SIGNIFICANT_DECIMAL_DIGITS);
  }

  /** At most 780 digits without zeros at either end that round to the same double as the whole buffer. */
  method TrimAndCut(buffer: seq<char>, exponent: int, copySpace: array<char>)
    returns (trimmed: seq<char>, updatedExponent: int)
    requires AllDigits(buffer) && copySpace.Length >= MAX_SIGNIFICANT_DECIMAL_DIGITS
    modifies copySpace
    ensures Trimmed(trimmed) && |trimmed| <= MAX_SIGNIFICANT_DECIMAL_DIGITS
    ensures forall d: Double :: ReadsAs(trimmed, updatedExponent, d) <==> ReadsAs(buffer, exponent, d)
  {
    hide DecVal, Up, Down, Pow, Nearest;
    var first := TrimLeadingZeros(buffer);
    var leftTrimmed := buffer[first..];
    LeadingZerosVanish(buffer, first);
    var n := TrimTrailingZeros(leftTrimmed);
    var rightTrimmed := leftTrimmed[..n];
    var newExponent := exponent + |leftTrimmed| - |rightTrimmed|;
    forall d: Double ensures ReadsAs(rightTrimmed, newExponent, d) <==> ReadsAs(buffer, exponent, d) {
      TrailingZerosMove(leftTrimmed, n, exponent, d);
    }
    if |rightTrimmed| > MAX_SIGNIFICANT_DECIMAL_DIGITS {
      updatedExponent := CutToMaxSignificantDigits(rightTrimmed, newExponent, copySpace);
      trimmed := copySpace[..MAX_SIGNIFICANT_DECIMAL_DIGITS];
      forall d: Double ensures ReadsAs(trimmed, updatedExponent, d) <==> ReadsAs(rightTrimmed, newExponent, d) {
        CuttingIsHarmless(rightTrimmed, newExponent, d);
      }
    } else {
      trimmed, updatedExponent := rightTrimmed, newExponent;
    }
  }

  /** The double nearest to buffer * 10^exponent, for any number of digits. */
  method Strtod(buffer: seq<char>, exponent: int, floatingPoint: (seq<char>, int) -> Guess) returns (d: Double)
    requires AllDigits(buffer) && Reliable(floatingPoint)
    ensures ReadsAs(buffer, exponent, d)
    ensures forall c: Double :: ReadsAs(buffer, exponent, c) ==> c == d
  {
    hide DecVal, Up, Down, Pow, Nearest, Reliable, AllDigits;
    var copyBuffer := new char[MAX_SIGNIFICANT_DECIMAL_DIGITS];
    var trimmed, updatedExponent := TrimAndCut(buffer, exponent, copyBuffer);
    d := StrtodTrimmed(trimmed, updatedExponent, floatingPoint);
    forall c: Double | ReadsAs(buffer, exponent, c) ensures c == d {
      NearestIsUnique(DecVal(buffer) * Up(10, exponent) * UNITS, Down(10, exponent), c, d);
    }
  }
}
