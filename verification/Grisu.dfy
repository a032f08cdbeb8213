/** Grisu3 shortest digit generation: DigitGen, RoundWeed and BiggestPowerTen on 64-bit words. */
module Grisu {
  import opened Ieee
  import opened Powers
  import opened Decimal
  import opened Words

  const SIGNIFICAND_SIZE := 64
  const MINIMAL_TARGET_EXPONENT := -60
  const MAXIMAL_TARGET_EXPONENT := -32

  // ---------- what the digits mean, in units in the last place of w ----------

  /** 10^k for any integer k. */
  ghost function Ten(k: int): real {
    if k >= 0 then Pow(10, k) as real else 1.0 / (Pow(10, -k) as real)
  }

  /** c * 10^k, measured in units in the last place: `one` units make up the number 1. */
  ghost function Units(c: int, k: int, one: int): real {
    c as real * Ten(k) * one as real
  }

  /** x is less than one unit away from f. */
  ghost predicate Near(x: real, f: int) {
    f as real - 1.0 < x < f as real + 1.0
  }

  ghost function Abs(x: real): real { if x < 0.0 then -x else x }

  /** Every number outside the unsafe interval ]low-1; high+1[ fails to read back as the input. */
  ghost predicate Unsafe(x: real, low: int, high: int) {
    low as real - 1.0 < x < high as real + 1.0
  }

  /** The n digits D at position kappa are certain to be inside the real rounding interval. */
  ghost predicate SurelyInside(D: int, kappa: int, one: int, low: int, high: int) {
    forall l: real, h: real :: Near(l, low) && Near(h, high) ==> l < Units(D, kappa, one) < h
  }

  /** No number with fewer than n significant digits is in the unsafe interval. */
  ghost predicate NoShorter(n: nat, one: int, low: int, high: int) {
    forall c: nat, k: int :: Unsafe(Units(c, k, one), low, high) && n > 0 ==> c >= Pow(10, n - 1)
  }

  /** Whatever real number w stands for, D is strictly the closest candidate at its position. */
  ghost predicate StrictlyClosest(D: int, kappa: int, one: int, low: int, w: int, high: int) {
    forall c: int, v: real ::
      c != D && Unsafe(Units(c, kappa, one), low, high) && Near(v, w)
      ==> Abs(Units(D, kappa, one) - v) < Abs(Units(c, kappa, one) - v)
  }

  /** The same for candidates from low - 1 up to high + 1, these two included. */
  ghost predicate ClosestCandidate(D: int, kappa: int, one: int, low: int, w: int, high: int) {
    forall c: int, v: real ::
      c != D && low as real - 1.0 <= Units(c, kappa, one) <= high as real + 1.0 && Near(v, w)
      ==> Abs(Units(D, kappa, one) - v) < Abs(Units(c, kappa, one) - v)
  }

  /**
   * The most that can be known when every number is uncertain by one unit: D keeps its distance from both ends, three
   * units from low where one would do, and is the closest candidate whatever w stands for.
   */
  ghost predicate Certain(D: int, kappa: int, one: int, low: int, w: int, high: int) {
    && low as real + 3.0 <= Units(D, kappa, one) <= high as real - 1.0
    && ClosestCandidate(D, kappa, one, low, w, high)
  }

  /** A multiple of 10^kappa lies above low - 1 and up to high + 1. */
  ghost predicate HasMultiple(kappa: int, one: int, low: int, high: int) {
    exists c: int :: low as real - 1.0 < Units(c, kappa, one) <= high as real + 1.0
  }

  /** The position of the shortest candidates: the next higher one has none. */
  ghost predicate ShortestPosition(kappa: int, one: int, low: int, high: int) {
    HasMultiple(kappa, one, low, high) && !HasMultiple(kappa + 1, one, low, high)
  }

  /** One of the shortest candidates is certain to be right. */
  ghost predicate SomeCertain(one: int, low: int, w: int, high: int) {
    exists D: int, kappa: int :: ShortestPosition(kappa, one, low, high) && Certain(D, kappa, one, low, w, high)
  }

  ghost predicate Decidable(low: DiyFp, w: DiyFp, high: DiyFp)
    requires low.e == w.e == high.e <= 0
  {
    SomeCertain(Pow(2, -w.e), low.f as int, w.f as int, high.f as int)
  }

  // ---------- BiggestPowerTen ----------

  const SMALL_POWERS_OF_TEN: seq<uint32> :=
    [0, 1, 10, 100, 1000, 10000, 100000, 1000000, 10000000, 100000000, 1000000000]

  lemma SmallPowers(i: nat)
    requires 1 <= i <= 10
    ensures SMALL_POWERS_OF_TEN[i] as int == Pow(10, i - 1)
  {
    Pow10Table();
  }

  /** The largest power of ten not above `number`, for a number with numberBits or at most two fewer bits. */
  method BiggestPowerTen(number: uint32, numberBits: int) returns (power: uint32, exponentPlusOne: int)
    requires 4 <= numberBits <= 32
    requires Pow(2, numberBits - 2) <= number as int < Pow(2, numberBits)
    ensures 1 <= exponentPlusOne <= 10
    ensures power as int == Pow(10, exponentPlusOne - 1)
    ensures power <= number && number as int < Pow(10, exponentPlusOne)
  {
    var guess := (numberBits + 1) * 1233 / 4096;
    guess := guess + 1;
    GuessIsClose(numberBits, guess);
    SmallPowers(guess);
    if number < SMALL_POWERS_OF_TEN[guess] {
      guess := guess - 1;
    }
    SmallPowers(guess);
    power := SMALL_POWERS_OF_TEN[guess];
    exponentPlusOne := guess;
  }

  lemma Pow2Words()
    ensures Pow(2, 2) == 0x4 && Pow(2, 3) == 0x8 && Pow(2, 4) == 0x10 && Pow(2, 5) == 0x20
    ensures Pow(2, 6) == 0x40 && Pow(2, 7) == 0x80 && Pow(2, 8) == 0x100 && Pow(2, 9) == 0x200
    ensures Pow(2, 10) == 0x400 && Pow(2, 11) == 0x800 && Pow(2, 12) == 0x1000 && Pow(2, 13) == 0x2000
    ensures Pow(2, 14) == 0x4000 && Pow(2, 15) == 0x8000 && Pow(2, 16) == 0x10000 && Pow(2, 17) == 0x20000
    ensures Pow(2, 18) == 0x40000 && Pow(2, 19) == 0x80000 && Pow(2, 20) == 0x100000 && Pow(2, 21) == 0x200000
    ensures Pow(2, 22) == 0x400000 && Pow(2, 23) == 0x800000 && Pow(2, 24) == 0x1000000 && Pow(2, 25) == 0x2000000
    ensures Pow(2, 26) == 0x4000000 && Pow(2, 27) == 0x8000000 && Pow(2, 28) == 0x10000000 && Pow(2, 29) == 0x20000000
    ensures Pow(2, 30) == 0x40000000 && Pow(2, 31) == 0x80000000 && Pow(2, 32) == 0x100000000
  {
    assert Pow(2, 1) == 0x2;
    assert Pow(2, 2) == 0x4;
    assert Pow(2, 3) == 0x8;
    assert Pow(2, 4) == 0x10;
    assert Pow(2, 5) == 0x20;
    assert Pow(2, 6) == 0x40;
    assert Pow(2, 7) == 0x80;
    assert Pow(2, 8) == 0x100;
    assert Pow(2, 9) == 0x200;
    assert Pow(2, 10) == 0x400;
    assert Pow(2, 11) == 0x800;
    assert Pow(2, 12) == 0x1000;
    assert Pow(2, 13) == 0x2000;
    assert Pow(2, 14) == 0x4000;
    assert Pow(2, 15) == 0x8000;
    assert Pow(2, 16) == 0x10000;
    assert Pow(2, 17) == 0x20000;
    assert Pow(2, 18) == 0x40000;
    assert Pow(2, 19) == 0x80000;
    assert Pow(2, 20) == 0x100000;
    assert Pow(2, 21) == 0x200000;
    assert Pow(2, 22) == 0x400000;
    assert Pow(2, 23) == 0x800000;
    assert Pow(2, 24) == 0x1000000;
    assert Pow(2, 25) == 0x2000000;
    assert Pow(2, 26) == 0x4000000;
    assert Pow(2, 27) == 0x8000000;
    assert Pow(2, 28) == 0x10000000;
    assert Pow(2, 29) == 0x20000000;
    assert Pow(2, 30) == 0x40000000;
    assert Pow(2, 31) == 0x80000000;
    assert Pow(2, 32) == 0x100000000;
  }

  lemma GuessIsClose(bits: int, guess: int)
    requires 4 <= bits <= 32 && guess == (bits + 1) * 1233 / 4096 + 1
    ensures 2 <= guess <= 10
    ensures Pow(10, guess - 2) <= Pow(2, bits - 2)
    ensures Pow(2, bits) <= Pow(10, guess)
  {
    Pow10Table();
    Pow2Words();
    // The guess is constant between these sizes.
    if bits <= 5 { PowMono(2, 2, bits - 2); PowMono(2, bits, 5);
    } else if bits <= 8 { PowMono(2, 4, bits - 2); PowMono(2, bits, 8);
    } else if bits <= 12 { PowMono(2, 7, bits - 2); PowMono(2, bits, 12);
    } else if bits <= 15 { PowMono(2, 11, bits - 2); PowMono(2, bits, 15);
    } else if bits <= 18 { PowMono(2, 14, bits - 2); PowMono(2, bits, 18);
    } else if bits <= 22 { PowMono(2, 17, bits - 2); PowMono(2, bits, 22);
    } else if bits <= 25 { PowMono(2, 21, bits - 2); PowMono(2, bits, 25);
    } else if bits <= 28 { PowMono(2, 24, bits - 2); PowMono(2, bits, 28);
    } else { PowMono(2, 27, bits - 2); PowMono(2, bits, 32);
    }
  }

  // ---------- RoundWeed ----------

  /**
   * Moves the last digit towards w and decides whether the result can be trusted. All distances are
   * measured downwards from too_high: `rest` is the distance of the number in the buffer.
   */
  method RoundWeed(buffer: array<char>, length: nat, distanceTooHighW: uint64, unsafeInterval: uint64,
                   rest0: uint64, tenKappa: uint64, unit: uint64)
    returns (ok: bool)
    requires 1 <= length <= buffer.Length && AllDigits(buffer[..length])
    requires 0 < tenKappa && 0 < unit
    requires unit < distanceTooHighW && distanceTooHighW as int + unit as int <= unsafeInterval as int
    requires 4 * unit as int <= unsafeInterval as int
    requires rest0 <= unsafeInterval
    // Going below digit 0 would leave the unsafe interval.
    requires rest0 as int + (DigitVal(buffer[length - 1]) + 1) * tenKappa as int > unsafeInterval as int
    modifies buffer
    ensures AllDigits(buffer[..length]) && buffer[..length - 1] == old(buffer[..length - 1])
    ensures buffer[length..] == old(buffer[length..])
    ensures ok <==> Weeded(old(DecVal(buffer[..length])), DecVal(buffer[..length]), distanceTooHighW as int,
                           unsafeInterval as int, rest0 as int, tenKappa as int, unit as int)
    ensures ok <==> CanWeed(old(DecVal(buffer[..length])), distanceTooHighW as int, unsafeInterval as int, rest0 as int,
                            tenKappa as int, unit as int)
  {
    hide DecVal, AllDigits, Weeded;
    var smallDistance := distanceTooHighW - unit;
    var bigDistance := distanceTooHighW + unit;
    var rest := rest0;
    ghost var D0, last := DecVal(buffer[..length]), DigitVal(buffer[length - 1]);
    ghost var k := 0;
    while rest < smallDistance
       && unsafeInterval - rest >= tenKappa
       && (rest + tenKappa < smallDistance || smallDistance - rest >= rest + tenKappa - smallDistance)
      invariant 0 <= k && rest as int == rest0 as int + k * tenKappa as int
      invariant rest <= unsafeInterval && DigitVal(buffer[length - 1]) == last - k
      invariant DecVal(buffer[..length]) == D0 - k
      invariant k > 0 ==> 2 * rest as int - tenKappa as int <= 2 * smallDistance as int
      invariant AllDigits(buffer[..length])
      invariant buffer[..length - 1] == old(buffer[..length - 1]) && buffer[length..] == old(buffer[length..])
      decreases unsafeInterval - rest
    {
      DigitLeft(rest0 as int, k, last, tenKappa as int, unsafeInterval as int);
      LowerLastDigit(buffer, length);
      rest := rest + tenKappa;
      k := k + 1;
    }
    OnlyWeeded(D0, D0 - k, rest0 as int, rest as int, distanceTooHighW as int, unsafeInterval as int, tenKappa as int,
               unit as int);
    if rest < bigDistance
       && unsafeInterval - rest >= tenKappa
       && (rest + tenKappa < bigDistance || bigDistance - rest > rest + tenKappa - bigDistance) {
      return false;
    }
    return 2 * unit <= rest && rest <= unsafeInterval - 4 * unit;
  }

  /** Some last digit meets the guarantee. */
  ghost predicate CanWeed(D0: int, distance: int, interval: int, rest0: int, tenKappa: int, unit: int) {
    exists D :: Weeded(D0, D, distance, interval, rest0, tenKappa, unit)
  }

  /** Where the loop of RoundWeed ends, the guarantee is a matter of two tests, and no other digit meets it. */
  lemma OnlyWeeded(D0: int, D: int, rest0: int, rest: int, distance: int, interval: int, tenKappa: int, unit: int)
    requires D <= D0 && rest == rest0 + (D0 - D) * tenKappa && tenKappa > 0 && 0 < unit < distance
    requires D < D0 ==> rest <= interval && 2 * rest - tenKappa <= 2 * (distance - unit)
    requires rest >= distance - unit || interval - rest < tenKappa || 2 * rest + tenKappa > 2 * (distance - unit)
    ensures Weeded(D0, D, distance, interval, rest0, tenKappa, unit) <==>
            && (interval - rest < tenKappa || 2 * (distance + unit) <= 2 * rest + tenKappa)
            && 2 * unit <= rest <= interval - 4 * unit
    ensures forall c :: Weeded(D0, c, distance, interval, rest0, tenKappa, unit) ==> c == D
  {
    forall c | Weeded(D0, c, distance, interval, rest0, tenKappa, unit)
      ensures c == D
    {
      Distribute(D0 - D, D - c, tenKappa);
      assert rest + (D - c) * tenKappa == rest0 + (D0 - c) * tenKappa;
      if c < D {
        MulMono(1, D - c, tenKappa);
      } else if c > D {
        MulMono(D - c, -1, tenKappa);
      }
    }
  }

  /** The last digit one lower. */
  method LowerLastDigit(buffer: array<char>, length: nat)
    requires 1 <= length <= buffer.Length && AllDigits(buffer[..length]) && DigitVal(buffer[length - 1]) > 0
    modifies buffer
    ensures AllDigits(buffer[..length]) && DecVal(buffer[..length]) == old(DecVal(buffer[..length])) - 1
    ensures DigitVal(buffer[length - 1]) == old(DigitVal(buffer[length - 1])) - 1
    ensures buffer[..length - 1] == old(buffer[..length - 1]) && buffer[length..] == old(buffer[length..])
  {
    hide DecVal;
    ghost var s := buffer[..length];
    buffer[length - 1] := (buffer[length - 1] as int - 1) as char;
    assert buffer[..length] == s[length - 1 := buffer[length - 1]];
    DecValLast(s, buffer[length - 1]);
  }

  /** After k steps there is room for one more only if the digit was larger than k. */
  lemma DigitLeft(rest0: int, k: int, last: int, tenKappa: int, limit: int)
    requires tenKappa > 0 && rest0 + k * tenKappa + tenKappa <= limit
    requires rest0 + (last + 1) * tenKappa > limit
    ensures last - k > 0 && (k + 1) * tenKappa == k * tenKappa + tenKappa
  {
    Distribute(k, 1, tenKappa);
    MulLtInv(k + 1, last + 1, tenKappa);
  }

  /** The guarantee of a successful RoundWeed that turned the number D0 into D. */
  ghost predicate Weeded(D0: int, D: int, distance: int, interval: int, rest0: int, tenKappa: int, unit: int) {
    var rest := rest0 + (D0 - D) * tenKappa;
    && D <= D0
    && 2 * unit <= rest <= interval - 4 * unit
    && (D == D0 || 2 * rest - tenKappa <= 2 * (distance - unit))
    && (interval - rest < tenKappa || 2 * (distance + unit) <= 2 * rest + tenKappa)
  }

  // ---------- from distances to the meaning of the digits ----------

  /** The integer scale at position kappa: lengths are multiplied by ScaleUnit, digits by ScaleTen * one. */
  ghost function ScaleUnit(kappa: int): (r: nat)
    ensures r > 0
  {
    Pow(10, if kappa < 0 then -kappa else 0)
  }

  ghost function ScaleTen(kappa: int): (r: nat)
    ensures r > 0
  {
    Pow(10, if kappa > 0 then kappa else 0)
  }

  lemma Shuffle(r: real, t: real, p: real, o: real)
    ensures r * (t * p) * o == (r * p) * t * o
  {
    assert r * (t * p) == (r * p) * t;
  }

  lemma UnitsScaled(c: int, kappa: int, one: int)
    ensures Units(c, kappa, one) * ScaleUnit(kappa) as real == (c * (ScaleTen(kappa) * one)) as real
  {
    var o, r := one as real, c as real;
    if kappa >= 0 {
      var t := Pow(10, kappa);
      assert Units(c, kappa, one) == r * t as real * o;
      MulAssoc(c, t, one);
    } else {
      var u := Pow(10, -kappa) as real;
      var inv := 1.0 / u;
      assert inv * u == 1.0;
      Shuffle(r, inv, u, o);
    }
  }

  /** Comparing digits at position kappa with a whole number of units is a comparison of integers. */
  lemma UnitsVsInt(c: int, kappa: int, one: int, b: int)
    ensures Units(c, kappa, one) < b as real <==> c * (ScaleTen(kappa) * one) < b * ScaleUnit(kappa)
    ensures b as real < Units(c, kappa, one) <==> b * ScaleUnit(kappa) < c * (ScaleTen(kappa) * one)
  {
    var x, u, y := Units(c, kappa, one), ScaleUnit(kappa) as real, b as real;
    UnitsScaled(c, kappa, one);
    assert y * u == (b * ScaleUnit(kappa)) as real;
    if x < y {
      RealMulLt(x, y, u);
    } else if y < x {
      RealMulLt(y, x, u);
    }
  }

  lemma RealMulLt(x: real, y: real, z: real)
    requires x < y && 0.0 < z
    ensures x * z < y * z
  {
  }

  lemma TenNext(k: int)
    ensures Ten(k + 1) == 10.0 * Ten(k)
  {
    if k < 0 {
      var p := Pow(10, -k - 1) as real;
      assert Pow(10, -k) as real == 10.0 * p;
      InverseTimesTen(p);
    }
  }

  lemma InverseTimesTen(p: real)
    requires p > 0.0
    ensures 1.0 / p == 10.0 * (1.0 / (10.0 * p))
  {
  }

  lemma {:induction false} UnitsShift(c: int, k: int, j: nat, one: int)
    ensures Units(c, k + j, one) == Units(c * Pow(10, j), k, one)
    decreases j
  {
    if j > 0 {
      TenNext(k + j - 1);
      UnitsTimesTen(c, k + j - 1, one);
      UnitsShift(c * 10, k, j - 1, one);
      MulAssoc(c, 10, Pow(10, j - 1));
    }
  }

  lemma UnitsTimesTen(c: int, k: int, one: int)
    ensures Units(c, k + 1, one) == Units(c * 10, k, one)
  {
    TenNext(k);
    Shuffle(c as real, Ten(k), 10.0, one as real);
  }

  /**
    * The state in which DigitGen stops: D0 is too_high cut off at kappa, and cutting one digit
    * earlier left the interval.
    */
  ghost predicate Stopped(D0: int, n: nat, kappa: int, one: int, low: int, high: int, rest0: int) {
    var unit, ten := ScaleUnit(kappa), ScaleTen(kappa) * one;
    && n >= 1 && 1 <= low <= high && one > 0
    && Pow(10, n - 1) <= D0
    && D0 * ten + rest0 == (high + 1) * unit
    && 0 <= rest0 < ten
    && D0 / 10 * (10 * ten) <= (low - 1) * unit
  }

  lemma {:induction false} InsideHolds(D0: int, D: int, n: nat, kappa: int, one: int, low: int, w: int, high: int,
                                       rest0: int)
    requires Stopped(D0, n, kappa, one, low, high, rest0)
    requires Weeded(D0, D, (high + 1 - w) * ScaleUnit(kappa), (high - low + 2) * ScaleUnit(kappa),
                    rest0, ScaleTen(kappa) * one, ScaleUnit(kappa))
    ensures SurelyInside(D, kappa, one, low, high)
  {
    var unit, ten := ScaleUnit(kappa), ScaleTen(kappa) * one;
    Distribute(D0, D, ten);
    Distribute(high + 1, low - 1, unit);
    Distribute(high + 1, 2, unit);
    Distribute(low - 1, 4, unit);
    UnitsVsInt(D, kappa, one, low + 3);
    UnitsVsInt(D, kappa, one, high - 1);
  }

  lemma {:induction false} NoShorterHolds(D0: int, n: nat, kappa: int, one: int, low: int, high: int, rest0: int)
    requires Stopped(D0, n, kappa, one, low, high, rest0)
    ensures NoShorter(n, one, low, high)
  {
    forall c: nat, k: int | Unsafe(Units(c, k, one), low, high)
      ensures c >= Pow(10, n - 1)
    {
      if c < Pow(10, n - 1) {
        TooFewDigits(D0, n, kappa, one, low, high, rest0, c, k);
      }
    }
  }

  lemma {:induction false} TooFewDigits(D0: int, n: nat, kappa: int, one: int, low: int, high: int, rest0: int,
                                        c: nat, k: int)
    requires Stopped(D0, n, kappa, one, low, high, rest0)
    requires c < Pow(10, n - 1)
    ensures !Unsafe(Units(c, k, one), low, high)
  {
    if k > kappa {
      var m := c * Pow(10, k - kappa - 1);
      UnitsShift(c, kappa + 1, k - kappa - 1, one);
      UnitsTimesTen(m, kappa, one);
      MultipleOutside(D0, n, kappa, one, low, high, rest0, m);
    } else if n == 1 {
      assert c == 0;
      assert Units(c, k, one) == 0.0;
    } else {
      var m := Pow(10, n - 2);
      assert Pow(10, n - 1) == 10 * m;
      assert Units(10 * m, kappa, one) <= low as real - 1.0 by {
        MultipleBelow(D0, n, kappa, one, low, high, rest0, m);
      }
      SmallerUnits(c, 10 * m, k, kappa, one);
    }
  }

  lemma SmallerUnits(c: nat, d: nat, k: int, kappa: int, one: int)
    requires c <= d && k <= kappa && one > 0
    ensures Units(c, k, one) <= Units(d, kappa, one)
  {
    var p := Pow(10, kappa - k);
    UnitsShift(d, k, kappa - k, one);
    MulMono(1, p, d);
    UnitsMono(c, d * p, k, one);
  }

  lemma UnitsMono(c: int, d: int, k: int, one: int)
    requires c <= d && one > 0
    ensures Units(c, k, one) <= Units(d, k, one)
  {
    UnitsScaled(c, k, one);
    UnitsScaled(d, k, one);
    MulMono(c, d, ScaleTen(k) * one);
    if Units(d, k, one) < Units(c, k, one) {
      RealMulLt(Units(d, k, one), Units(c, k, one), ScaleUnit(k) as real);
    }
  }

  /** A multiple of 10^(kappa+1) up to the cut-off prefix is not above too_low. */
  lemma {:induction false} MultipleBelow(D0: int, n: nat, kappa: int, one: int, low: int, high: int, rest0: int, m: int)
    requires Stopped(D0, n, kappa, one, low, high, rest0) && m <= D0 / 10
    ensures Units(10 * m, kappa, one) <= low as real - 1.0
  {
    var ten := ScaleTen(kappa) * one;
    MulMono(m, D0 / 10, 10 * ten);
    MulAssoc(m, 10, ten);
    UnitsVsInt(10 * m, kappa, one, low - 1);
  }

  lemma MultipleOutside(D0: int, n: nat, kappa: int, one: int, low: int, high: int, rest0: int, m: int)
    requires Stopped(D0, n, kappa, one, low, high, rest0)
    ensures !Unsafe(Units(m * 10, kappa, one), low, high)
  {
    if m <= D0 / 10 {
      MultipleBelow(D0, n, kappa, one, low, high, rest0, m);
    } else {
      var ten := ScaleTen(kappa) * one;
      MulMono(D0 + 1, m * 10, ten);
      Distribute(D0, 1, ten);
      UnitsVsInt(m * 10, kappa, one, high + 1);
    }
  }

  lemma {:induction false} ClosestHolds(D0: int, D: int, n: nat, kappa: int, one: int, low: int, w: int, high: int,
                                        rest0: int)
    requires Stopped(D0, n, kappa, one, low, high, rest0)
    requires Weeded(D0, D, (high + 1 - w) * ScaleUnit(kappa), (high - low + 2) * ScaleUnit(kappa),
                    rest0, ScaleTen(kappa) * one, ScaleUnit(kappa))
    ensures ClosestCandidate(D, kappa, one, low, w, high) && StrictlyClosest(D, kappa, one, low, w, high)
  {
    forall c: int, v: real |
      c != D && low as real - 1.0 <= Units(c, kappa, one) <= high as real + 1.0 && Near(v, w)
      ensures Abs(Units(D, kappa, one) - v) < Abs(Units(c, kappa, one) - v)
    {
      Midpoint(D0, D, n, kappa, one, low, w, high, rest0, c);
      CloserThanMidpoint(D, c, kappa, one, w, v);
    }
  }

  lemma {:induction false} Midpoint(D0: int, D: int, n: nat, kappa: int, one: int, low: int, w: int, high: int,
                                    rest0: int, c: int)
    requires Stopped(D0, n, kappa, one, low, high, rest0)
    requires Weeded(D0, D, (high + 1 - w) * ScaleUnit(kappa), (high - low + 2) * ScaleUnit(kappa),
                    rest0, ScaleTen(kappa) * one, ScaleUnit(kappa))
    requires c != D && low as real - 1.0 <= Units(c, kappa, one) <= high as real + 1.0
    ensures c > D ==> 2 * (w + 1) * ScaleUnit(kappa) <= (D + c) * (ScaleTen(kappa) * one)
    ensures c < D ==> (D + c) * (ScaleTen(kappa) * one) <= 2 * (w - 1) * ScaleUnit(kappa)
  {
    var unit, ten := ScaleUnit(kappa), ScaleTen(kappa) * one;
    Distribute(high + 1, w, unit);
    Distribute(high + 1, low - 1, unit);
    Distribute(w, 1, unit);
    MulAssoc(2, w + 1, unit);
    MulAssoc(2, w - 1, unit);
    UnitsVsInt(c, kappa, one, low - 1);
    UnitsVsInt(c, kappa, one, high + 1);
    MidpointScaled(D0, D, c, (high + 1) * unit, (low - 1) * unit, w * unit, rest0, ten, unit);
  }

  lemma {:induction false} UnitsStrictMono(c: int, d: int, k: int, one: int)
    requires c < d && one > 0
    ensures Units(c, k, one) < Units(d, k, one)
  {
    UnitsScaled(c, k, one);
    UnitsScaled(d, k, one);
    MulMono(1, ScaleTen(k), one);
    MulStrictMono(c, d, ScaleTen(k) * one);
    UnitsMono(c, d, k, one);
  }

  /** A point below the middle of two numbers is closer to the smaller one. */
  lemma CloserToSmaller(x: real, y: real, v: real)
    requires x < y && 2.0 * v < x + y
    ensures Abs(x - v) < Abs(y - v)
  {
  }

  lemma CloserToLarger(x: real, y: real, v: real)
    requires x < y && x + y < 2.0 * v
    ensures Abs(y - v) < Abs(x - v)
  {
  }

  /** v is on D's side of the midpoint between D and c. */
  lemma {:induction false} CloserThanMidpoint(D: int, c: int, kappa: int, one: int, w: int, v: real)
    requires Near(v, w) && one > 0 && c != D
    requires c > D ==> 2 * (w + 1) * ScaleUnit(kappa) <= (D + c) * (ScaleTen(kappa) * one)
    requires c < D ==> (D + c) * (ScaleTen(kappa) * one) <= 2 * (w - 1) * ScaleUnit(kappa)
    ensures Abs(Units(D, kappa, one) - v) < Abs(Units(c, kappa, one) - v)
  {
    hide Units, Abs, Ten, ScaleUnit, ScaleTen;
    UnitsSum(D, c, kappa, one);
    if c > D {
      UnitsStrictMono(D, c, kappa, one);
      UnitsVsInt(D + c, kappa, one, 2 * (w + 1));
      CloserToSmaller(Units(D, kappa, one), Units(c, kappa, one), v);
    } else {
      UnitsStrictMono(c, D, kappa, one);
      UnitsVsInt(D + c, kappa, one, 2 * (w - 1));
      CloserToLarger(Units(c, kappa, one), Units(D, kappa, one), v);
    }
  }

  lemma UnitsSum(c: int, d: int, k: int, one: int)
    ensures Units(c, k, one) + Units(d, k, one) == Units(c + d, k, one)
  {
    var t, o := Ten(k), one as real;
    assert (c as real + d as real) * t == c as real * t + d as real * t;
  }

  lemma {:induction false} MidpointScaled(D0: int, D: int, c: int, T: int, B: int, w: int, rest0: int, ten: int,
                                          unit: int)
    requires ten > 0 && 0 <= rest0 < ten && D0 * ten + rest0 == T
    requires Weeded(D0, D, T - w, T - B, rest0, ten, unit)
    requires c != D && B <= c * ten <= T
    ensures c > D ==> 2 * (w + unit) <= (D + c) * ten
    ensures c < D ==> (D + c) * ten <= 2 * (w - unit)
  {
    var rest := rest0 + (D0 - D) * ten;
    Distribute(D0, D, ten);
    Distribute(D, c, ten);
    Distribute(D, 1, ten);
    assert D * ten == T - rest;
    if c > D {
      MulMono(D + 1, c, ten);
    } else {
      MulMono(c, D - 1, ten);
    }
  }

  // ---------- what a refusal means ----------

  /** The guarantee of RoundWeed in terms of the number x = D * ten between B and T. */
  lemma WeededScaled(D0: int, D: int, T: int, B: int, w: int, rest0: int, ten: int, unit: int)
    requires ten > 0 && unit > 0 && 0 <= rest0 < ten && D0 * ten + rest0 == T
    ensures var x := D * ten;
            Weeded(D0, D, T - w, T - B, rest0, ten, unit) <==>
            && B + 4 * unit <= x <= T - 2 * unit
            && (x + ten <= T ==> 2 * (w + unit) <= x + (x + ten))
            && (B <= x - ten ==> x + (x - ten) <= 2 * (w - unit))
  {
    Distribute(D0, D, ten);
    if D > D0 {
      MulMono(D0 + 1, D, ten);
      Distribute(D0, 1, ten);
    } else if D < D0 {
      MulMono(D + 1, D0, ten);
      Distribute(D, 1, ten);
    }
  }

  /** If the upper of two neighbours is never as close, w + 1 is not beyond their middle. */
  lemma NeverCloserAbove(x: real, y: real, w: int)
    requires x < y && forall v: real :: Near(v, w) ==> Abs(x - v) < Abs(y - v)
    ensures 2.0 * (w as real + 1.0) <= x + y
  {
    var middle := (x + y) / 2.0;
    if middle < w as real + 1.0 {
      var v := if middle < w as real then w as real else middle;
      assert Near(v, w);
    }
  }

  lemma NeverCloserBelow(x: real, y: real, w: int)
    requires y < x && forall v: real :: Near(v, w) ==> Abs(x - v) < Abs(y - v)
    ensures x + y <= 2.0 * (w as real - 1.0)
  {
    var middle := (x + y) / 2.0;
    if w as real - 1.0 < middle {
      var v := if w as real < middle then w as real else middle;
      assert Near(v, w);
    }
  }

  lemma NeighbourAbove(D: int, kappa: int, one: int, low: int, w: int, high: int)
    requires ClosestCandidate(D, kappa, one, low, w, high) && one > 0
    requires low as real - 1.0 <= Units(D + 1, kappa, one) <= high as real + 1.0
    ensures 2 * (w + 1) * ScaleUnit(kappa) <= (D + (D + 1)) * (ScaleTen(kappa) * one)
  {
    hide Units, ScaleUnit, ScaleTen, Near, Abs;
    UnitsStrictMono(D, D + 1, kappa, one);
    NeverCloserAbove(Units(D, kappa, one), Units(D + 1, kappa, one), w);
    UnitsSum(D, D + 1, kappa, one);
    UnitsVsInt(D + (D + 1), kappa, one, 2 * (w + 1));
  }

  lemma NeighbourBelow(D: int, kappa: int, one: int, low: int, w: int, high: int)
    requires ClosestCandidate(D, kappa, one, low, w, high) && one > 0
    requires low as real - 1.0 <= Units(D - 1, kappa, one) <= high as real + 1.0
    ensures (D + (D - 1)) * (ScaleTen(kappa) * one) <= 2 * (w - 1) * ScaleUnit(kappa)
  {
    hide Units, ScaleUnit, ScaleTen, Near, Abs;
    UnitsStrictMono(D - 1, D, kappa, one);
    NeverCloserBelow(Units(D, kappa, one), Units(D - 1, kappa, one), w);
    UnitsSum(D, D - 1, kappa, one);
    UnitsVsInt(D + (D - 1), kappa, one, 2 * (w - 1));
  }

  /** RoundWeed's guarantee holds exactly if D is certain. */
  lemma WeededIsCertain(D0: int, D: int, n: nat, kappa: int, one: int, low: int, w: int, high: int, rest0: int)
    requires Stopped(D0, n, kappa, one, low, high, rest0)
    ensures Weeded(D0, D, (high + 1 - w) * ScaleUnit(kappa), (high - low + 2) * ScaleUnit(kappa),
                   rest0, ScaleTen(kappa) * one, ScaleUnit(kappa))
            <==> Certain(D, kappa, one, low, w, high)
  {
    hide Units, Weeded, ClosestCandidate, ScaleUnit, ScaleTen, Pow;
    var unit, ten := ScaleUnit(kappa), ScaleTen(kappa) * one;
    var T, B := (high + 1) * unit, (low - 1) * unit;
    Distribute(high + 1, w, unit);
    Distribute(high + 1, low - 1, unit);
    Lengths(low, w, high, unit);
    UnitsVsInt(D, kappa, one, low + 3);
    UnitsVsInt(D, kappa, one, high - 1);
    WeededScaled(D0, D, T, B, w * unit, rest0, ten, unit);
    if Weeded(D0, D, T - w * unit, T - B, rest0, ten, unit) {
      ClosestHolds(D0, D, n, kappa, one, low, w, high, rest0);
    } else if Certain(D, kappa, one, low, w, high) {
      NeighboursApart(D, kappa, one, low, w, high);
      assert false;
    }
  }

  lemma Lengths(low: int, w: int, high: int, unit: int)
    ensures (low + 3) * unit == (low - 1) * unit + 4 * unit && (high - 1) * unit == (high + 1) * unit - 2 * unit
    ensures 2 * (w + 1) * unit == 2 * (w * unit + unit) && 2 * (w - 1) * unit == 2 * (w * unit - unit)
  {
  }

  lemma NeighboursApart(D: int, kappa: int, one: int, low: int, w: int, high: int)
    requires Certain(D, kappa, one, low, w, high) && one > 0
    ensures var unit, x, ten := ScaleUnit(kappa), D * (ScaleTen(kappa) * one), ScaleTen(kappa) * one;
            && (x + ten <= (high + 1) * unit ==> 2 * (w * unit + unit) <= x + (x + ten))
            && ((low - 1) * unit <= x - ten ==> x + (x - ten) <= 2 * (w * unit - unit))
  {
    hide Units, ClosestCandidate, ScaleUnit, ScaleTen;
    var unit, ten := ScaleUnit(kappa), ScaleTen(kappa) * one;
    Lengths(low, w, high, unit);
    Distribute(D, 1, ten);
    Distribute(D, D + 1, ten);
    Distribute(D, D - 1, ten);
    UnitsVsInt(D + 1, kappa, one, high + 1);
    UnitsVsInt(D - 1, kappa, one, low - 1);
    UnitsStrictMono(D, D + 1, kappa, one);
    UnitsStrictMono(D - 1, D, kappa, one);
    if Units(D + 1, kappa, one) <= high as real + 1.0 {
      NeighbourAbove(D, kappa, one, low, w, high);
    }
    if low as real - 1.0 <= Units(D - 1, kappa, one) {
      NeighbourBelow(D, kappa, one, low, w, high);
    }
  }

  /** Where the digits stop there is a candidate, and one position further up there was none. */
  lemma StoppedThere(D0: int, n: nat, kappa: int, one: int, low: int, high: int, rest0: int)
    requires Stopped(D0, n, kappa, one, low, high, rest0) && rest0 < (high - low + 2) * ScaleUnit(kappa)
    ensures ShortestPosition(kappa, one, low, high)
  {
    hide Units, ScaleUnit, ScaleTen, Pow;
    var unit, ten := ScaleUnit(kappa), ScaleTen(kappa) * one;
    Distribute(high + 1, low - 1, unit);
    UnitsVsInt(D0, kappa, one, low - 1);
    UnitsVsInt(D0, kappa, one, high + 1);
    assert low as real - 1.0 < Units(D0, kappa, one) <= high as real + 1.0;
    var above := kappa + 1;
    forall c: int
      ensures !(low as real - 1.0 < Units(c, above, one) <= high as real + 1.0)
    {
      UnitsTimesTen(c, kappa, one);
      if c <= D0 / 10 {
        assert Units(10 * c, kappa, one) <= low as real - 1.0 by {
          MultipleBelow(D0, n, kappa, one, low, high, rest0, c);
        }
      } else {
        MulMono(D0 + 1, c * 10, ten);
        Distribute(D0, 1, ten);
        UnitsVsInt(c * 10, kappa, one, high + 1);
      }
    }
  }

  lemma MultipleStays(k: int, kappa: int, one: int, low: int, high: int)
    requires HasMultiple(kappa, one, low, high) && k <= kappa
    ensures HasMultiple(k, one, low, high)
  {
    hide Units;
    var c: int :| low as real - 1.0 < Units(c, kappa, one) <= high as real + 1.0;
    UnitsShift(c, k, kappa - k, one);
  }

  lemma OneShortestPosition(k: int, kappa: int, one: int, low: int, high: int)
    requires ShortestPosition(k, one, low, high) && ShortestPosition(kappa, one, low, high)
    ensures k == kappa
  {
    hide HasMultiple;
    if k < kappa {
      MultipleStays(k + 1, kappa, one, low, high);
    } else if kappa < k {
      MultipleStays(kappa + 1, k, one, low, high);
    }
  }

  /** RoundWeed decides the question: success if and only if one of the shortest candidates is certain. */
  lemma DecidedHere(P: int, d: int, n: nat, kappa: int, low: DiyFp, w: DiyFp, high: DiyFp,
                    distance: int, interval: int, rest0: int, ten: int, unit: int)
    requires low.e == w.e == high.e <= 0 && n >= 1 && 1 <= low.f < w.f < high.f && 0 <= d <= 9
    requires Cut(P * 10 + d, kappa, Pow(2, -w.e), rest0, high.f as int + 1)
    requires PrefixBelow(P, kappa, Pow(2, -w.e), low.f as int - 1)
    requires P * 10 + d >= Pow(10, n - 1) && rest0 < interval
    requires Scales(kappa, Pow(2, -w.e), low.f as int, w.f as int, high.f as int, distance, interval, ten, unit)
    ensures CanWeed(P * 10 + d, distance, interval, rest0, ten, unit) <==> Decidable(low, w, high)
  {
    hide Weeded, Certain, ShortestPosition, Units, ScaleUnit, ScaleTen, Pow;
    var one, D0, l, u, h := Pow(2, -w.e), P * 10 + d, low.f as int, w.f as int, high.f as int;
    assert D0 / 10 == P;
    assert Stopped(D0, n, kappa, one, l, h, rest0);
    StoppedThere(D0, n, kappa, one, l, h, rest0);
    forall D
      ensures Weeded(D0, D, distance, interval, rest0, ten, unit) <==> Certain(D, kappa, one, l, u, h)
    {
      WeededIsCertain(D0, D, n, kappa, one, l, u, h, rest0);
    }
    forall k: int | ShortestPosition(k, one, l, h)
      ensures k == kappa
    {
      OneShortestPosition(k, kappa, one, l, h);
    }
  }

  // ---------- DigitGen ----------

  /** too_high has no digit in front of the n digits from position kappa on. */
  ghost predicate FirstDigitFirst(n: nat, kappa: int, one: int, high: int) {
    high as real + 1.0 < Units(Pow(10, n), kappa, one)
  }

  /** Success means: certainly correct, shortest, and strictly closest. */
  ghost predicate ShortestAndClosest(digits: seq<char>, kappa: int, low: DiyFp, w: DiyFp, high: DiyFp)
    requires low.e == w.e == high.e <= 0
  {
    var D, one := DecVal(digits), Pow(2, -w.e);
    && AllDigits(digits) && |digits| >= 1
    && Pow(10, |digits| - 1) <= D < Pow(10, |digits|)
    && SurelyInside(D, kappa, one, low.f as int, high.f as int)
    && NoShorter(|digits|, one, low.f as int, high.f as int)
    && StrictlyClosest(D, kappa, one, low.f as int, w.f as int, high.f as int)
    && FirstDigitFirst(|digits|, kappa, one, high.f as int)
  }

  /** Everything known about a successful RoundWeed, with the scaled lengths given by name. */
  lemma {:induction false} Finish(P: int, d: int, digits: seq<char>, kappa: int, low: DiyFp, w: DiyFp, high: DiyFp,
               distance: int, interval: int, rest0: int, ten: int, unit: int)
    requires low.e == w.e == high.e <= 0 && |digits| >= 1 && AllDigits(digits)
    requires 1 <= low.f < w.f < high.f && 0 <= d <= 9
    requires Cut(P * 10 + d, kappa, Pow(2, -w.e), rest0, high.f as int + 1)
    requires PrefixBelow(P, kappa, Pow(2, -w.e), low.f as int - 1)
    requires P * 10 + d >= Pow(10, |digits| - 1) && P == DecVal(digits[..|digits| - 1])
    requires Scales(kappa, Pow(2, -w.e), low.f as int, w.f as int, high.f as int, distance, interval, ten, unit)
    requires Weeded(P * 10 + d, DecVal(digits), distance, interval, rest0, ten, unit)
    ensures ShortestAndClosest(digits, kappa, low, w, high)
  {
    var n, one, D, D0 := |digits|, Pow(2, -w.e), DecVal(digits), P * 10 + d;
    assert D0 / 10 == P;
    assert Stopped(D0, |digits|, kappa, one, low.f as int, high.f as int, rest0);
    InsideHolds(D0, D, n, kappa, one, low.f as int, w.f as int, high.f as int, rest0);
    NoShorterHolds(D0, n, kappa, one, low.f as int, high.f as int, rest0);
    ClosestHolds(D0, D, n, kappa, one, low.f as int, w.f as int, high.f as int, rest0);
    DecValBound(digits);
    FirstDigitStays(D0, digits, kappa, one, low.f as int, high.f as int, rest0);
    DecValBound(digits[..n - 1]);
    NothingInFront(D0, P, n, kappa, one, high.f as int, rest0);
  }

  lemma NothingInFront(D0: int, P: int, n: nat, kappa: int, one: int, high: int, rest0: int)
    requires n >= 1 && P < Pow(10, n - 1) && D0 <= 10 * P + 9 && Cut(D0, kappa, one, rest0, high + 1)
    ensures FirstDigitFirst(n, kappa, one, high)
  {
    hide Pow;
    PowStep(10, n - 1);
    MulMono(D0 + 1, Pow(10, n), ScaleTen(kappa) * one);
    Distribute(D0, 1, ScaleTen(kappa) * one);
    UnitsVsInt(Pow(10, n), kappa, one, high + 1);
    assert (high + 1) as real == high as real + 1.0;
  }

  /** Only the last digit moves, so the first one stays nonzero. */
  lemma FirstDigitStays(D0: int, digits: seq<char>, kappa: int, one: int, low: int, high: int, rest0: int)
    requires |digits| >= 1 && AllDigits(digits)
    requires Stopped(D0, |digits|, kappa, one, low, high, rest0)
    requires D0 / 10 == DecVal(digits[..|digits| - 1])
    requires SurelyInside(DecVal(digits), kappa, one, low, high)
    ensures DecVal(digits) >= Pow(10, |digits| - 1)
  {
    if |digits| == 1 {
      InsideIsPositive(DecVal(digits), kappa, one, low, high);
    } else {
      PrefixStays(D0, |digits|, DecVal(digits[..|digits| - 1]));
    }
  }

  lemma InsideIsPositive(D: int, kappa: int, one: int, low: int, high: int)
    requires SurelyInside(D, kappa, one, low, high) && 1 <= low && one > 0
    ensures D >= 1
  {
    assert Near(low as real, low) && Near(high as real, high);
    assert low as real < Units(D, kappa, one);
    if D <= 0 {
      UnitsMono(D, 0, kappa, one);
    }
  }

  lemma PrefixStays(D0: int, n: nat, prefix: int)
    requires n >= 2 && Pow(10, n - 1) <= D0 && D0 / 10 == prefix
    ensures Pow(10, n - 1) == 10 * Pow(10, n - 2) && Pow(10, n - 2) <= prefix
  {
  }

  /** D is too_high cut off at position kappa, `rest` is what was cut away. */
  ghost predicate Cut(D: int, kappa: int, one: int, rest: int, T: int) {
    && D * (ScaleTen(kappa) * one) + rest == T * ScaleUnit(kappa)
    && 0 <= rest < ScaleTen(kappa) * one
  }

  /** The number cut off at kappa is not above B. */
  ghost predicate NotAbove(D: int, kappa: int, one: int, B: int) {
    D * (ScaleTen(kappa) * one) <= B * ScaleUnit(kappa)
  }

  /** The digits before the last one, followed by zeros, are not above B. */
  ghost predicate PrefixBelow(P: int, kappa: int, one: int, B: int) {
    P * (10 * (ScaleTen(kappa) * one)) <= B * ScaleUnit(kappa)
  }

  /** What is left to print: whole numbers and fraction together. */
  ghost function Remaining(integrals: int, fractionals: int, one: int): int {
    integrals * one + fractionals
  }

  /** The lengths handed to RoundWeed at position kappa. */
  ghost predicate Scales(kappa: int, one: int, low: int, w: int, high: int, distance: int, interval: int, ten: int,
                         unit: int) {
    && unit == ScaleUnit(kappa) && ten == ScaleTen(kappa) * one
    && distance == (high + 1 - w) * unit && interval == (high - low + 2) * unit
  }

  lemma {:induction false} StepIntegral(D: int, kappa: int, one: int, integrals: int, fractionals: int, divisor: int,
                                        T: int, B: int)
    requires kappa > 0 && 0 <= fractionals < one && 0 <= integrals && divisor == Pow(10, kappa - 1)
    requires Cut(D, kappa, one, Remaining(integrals, fractionals, one), T) && NotAbove(D, kappa, one, B)
    ensures Cut(D * 10 + integrals / divisor, kappa - 1, one, Remaining(integrals % divisor, fractionals, one), T)
    ensures PrefixBelow(D, kappa - 1, one, B)
    ensures 0 <= integrals / divisor <= 9
  {
    DivMod(integrals, divisor);
    CarryOver(integrals / divisor, divisor, integrals % divisor, fractionals, one);
    assert ScaleTen(kappa) == 10 * divisor && ScaleTen(kappa - 1) == divisor;
    MulAssoc(10, divisor, one);
    DigitsAdd(D, integrals / divisor, divisor * one);
    TopDigit(integrals / divisor, divisor * one, Remaining(integrals % divisor, fractionals, one));
  }

  /** Splitting off the leading digit d of the whole numbers. */
  lemma {:induction false} CarryOver(d: int, divisor: int, r: int, fractionals: int, one: int)
    requires 0 <= r < divisor && 0 <= fractionals < one
    ensures Remaining(d * divisor + r, fractionals, one) == d * (divisor * one) + Remaining(r, fractionals, one)
    ensures 0 <= Remaining(r, fractionals, one) < divisor * one
  {
    MulAssoc(d, divisor, one);
    Distribute(d * divisor, r, one);
    MulMono(r + 1, divisor, one);
    Distribute(r, 1, one);
    MulMono(0, r, one);
  }

  lemma DigitsAdd(D: int, d: int, ten: int)
    ensures D * (10 * ten) == D * 10 * ten && (D * 10 + d) * ten == D * (10 * ten) + d * ten
  {
  }

  lemma TopDigit(d: int, ten: int, r: int)
    requires ten > 0 && 0 <= r < ten && 0 <= d * ten + r < 10 * ten
    ensures 0 <= d <= 9
  {
    if d <= -1 {
      MulMono(d, -1, ten);
    } else if d >= 10 {
      MulMono(10, d, ten);
    }
  }

  lemma StepFraction(D: int, kappa: int, one: int, f: int, d: int, f': int, T: int, B: int)
    requires kappa <= 0 && one > 0
    requires Cut(D, kappa, one, f, T) && NotAbove(D, kappa, one, B)
    requires f * 10 == d * one + f' && 0 <= f' < one
    ensures Cut(D * 10 + d, kappa - 1, one, f', T)
    ensures PrefixBelow(D, kappa - 1, one, B)
    ensures 0 <= d <= 9
    ensures ScaleUnit(kappa - 1) == 10 * ScaleUnit(kappa)
  {
    assert ScaleTen(kappa) == ScaleTen(kappa - 1) == 1;
    var u := ScaleUnit(kappa);
    assert ScaleUnit(kappa - 1) == 10 * u;
    MulAssoc(T, 10, u);
    MulAssoc(B, 10, u);
    DigitsAdd(D, d, one);
    TopDigit(d, one, f');
  }

  /** Everything RoundWeed asks for when the cut-off part is smaller than the interval. */
  lemma {:induction false} ReadyToWeed(P: int, d: int, kappa: int, one: int, rest: int, low: int, w: int, high: int,
                    distance: int, interval: int, ten: int, unit: int)
    requires one > 0 && low < w < high && 0 <= d <= 9
    requires Cut(P * 10 + d, kappa, one, rest, high + 1)
    requires PrefixBelow(P, kappa, one, low - 1)
    requires Scales(kappa, one, low, w, high, distance, interval, ten, unit)
    ensures 0 < unit < distance && distance + unit <= interval && 4 * unit <= interval && 0 < ten
    ensures rest + (d + 1) * ten > interval
  {
    MulMono(2, high + 1 - w, unit);
    MulMono(4, high - low + 2, unit);
    MulMono(high + 2 - w, high - low + 2, unit);
    Distribute(high + 1 - w, 1, unit);
    Distribute(high + 1, low - 1, unit);
    Distribute(P * 10, d, ten);
    MulAssoc(P, 10, ten);
    Distribute(d, 1, ten);
    MulMono(1, one, ScaleTen(kappa));
  }

  lemma NotStopped(D: int, kappa: int, one: int, rest: int, low: int, high: int)
    requires Cut(D, kappa, one, rest, high + 1) && rest >= (high - low + 2) * ScaleUnit(kappa)
    ensures NotAbove(D, kappa, one, low - 1)
  {
    Distribute(high + 1, low - 1, ScaleUnit(kappa));
  }

  lemma FewFractionDigits(kappa: int, interval: int, one: int)
    requires kappa <= 0 && interval >= 4 && interval * ScaleUnit(kappa) < one <= 0x1000_0000_0000_0000
    ensures -kappa <= 17
  {
    if -kappa >= 18 {
      PowMono(10, 18, -kappa);
      Pow10Table();
      PowAdd(10, 9, 9);
      MulMono(4, interval, ScaleUnit(kappa));
    }
  }

  lemma {:induction false} OneBounds(shift: nat, tooHigh: int)
    requires 32 <= shift <= 60 && 0x4000_0000_0000_0000 <= tooHigh < 0x1_0000_0000_0000_0000
    ensures Pow(2, 62 - shift) <= tooHigh / Pow(2, shift) < Pow(2, 64 - shift) <= 0x1_0000_0000
    ensures 0x1_0000_0000 <= Pow(2, shift) <= 0x1000_0000_0000_0000
  {
    Pow2Table();
    PowMono(2, 32, shift);
    PowMono(2, shift, 60);
    PowMono(2, 64 - shift, 32);
    PowAdd(2, 62 - shift, shift);
    PowAdd(2, 64 - shift, shift);
    assert Pow(2, 62) == 0x4000_0000_0000_0000 by {
      PowAdd(2, 2, 60);
      assert Pow(2, 2) == 2 * Pow(2, 1) == 4;
    }
    DivBounds(tooHigh, Pow(2, shift), Pow(2, 62 - shift), Pow(2, 64 - shift));
  }

  lemma Appended(s: seq<char>, t: seq<char>, d: int)
    requires AllDigits(s) && 0 <= d <= 9 && t == s + [DigitChar(d)]
    ensures AllDigits(t) && DecVal(t) == DecVal(s) * 10 + d && t[..|t| - 1] == s
  {
    DecValAppend(s, DigitChar(d));
  }

  lemma GrowsByOneDigit(D: int, d: int, n: nat)
    requires 0 <= d && if n == 0 then D == 0 && d >= 1 else D >= Pow(10, n - 1)
    ensures D * 10 + d >= Pow(10, n)
  {
  }

  lemma {:induction false} StartCut(one: int, integrals: int, fractionals: int, kappa: int, T: int, B: int)
    requires kappa > 0 && B >= 0 && 0 <= integrals < Pow(10, kappa) && 0 <= fractionals < one
    requires T == integrals * one + fractionals
    ensures Cut(0, kappa, one, Remaining(integrals, fractionals, one), T)
    ensures NotAbove(0, kappa, one, B)
  {
    MulMono(integrals + 1, Pow(10, kappa), one);
    Distribute(integrals, 1, one);
    MulMono(0, integrals, one);
  }

  /** In the integral part the scaled lengths are the plain ones, and they fit a word. */
  lemma IntegralFits(D: int, kappa: int, one: int, integrals: int, fractionals: int, divisor: int, T: int)
    requires kappa >= 0 && divisor == Pow(10, kappa) && D >= 1 && one > 0 && integrals >= 0 && fractionals >= 0
    requires Cut(D, kappa, one, Remaining(integrals, fractionals, one), T)
    ensures 0 <= integrals * one <= integrals * one + fractionals <= T && 0 <= divisor * one <= T
    ensures divisor == ScaleTen(kappa) && ScaleUnit(kappa) == 1
  {
    MulMono(1, D, ScaleTen(kappa) * one);
    MulMono(0, D, ScaleTen(kappa) * one);
    MulMono(0, integrals, one);
  }

  lemma IntegralScales(kappa: int, one: int, low: int, w: int, high: int, ten: int)
    requires ten == ScaleTen(kappa) * one && ScaleUnit(kappa) == 1
    ensures Scales(kappa, one, low, w, high, high + 1 - w, high - low + 2, ten, 1)
    ensures (high - low + 2) * ScaleUnit(kappa) == high - low + 2
  {
  }

  lemma NextDivisor(kappa: nat)
    ensures Pow(10, kappa) / 10 == if kappa == 0 then 0 else Pow(10, kappa - 1)
  {
  }

  /** No whole numbers are left once the decimal point is reached. */
  lemma NoIntegralsLeft(D: int, one: int, integrals: int, fractionals: int, T: int)
    requires one > 0 && integrals >= 0 && fractionals >= 0 && Cut(D, 0, one, Remaining(integrals, fractionals, one), T)
    ensures integrals == 0 && Cut(D, 0, one, fractionals, T) && fractionals < one
  {
    if integrals >= 1 {
      MulMono(1, integrals, one);
    }
  }

  lemma RemainingFraction(fractionals: int, one: int)
    ensures Remaining(0, fractionals, one) == fractionals
  {
  }

  /** The number of digits grows by one; the very first digit is not zero. */
  lemma FirstDigit(integrals: int, divisor: int, D: int, n: nat)
    requires divisor > 0 && integrals >= 0
    requires if n == 0 then D == 0 && integrals >= divisor else D >= Pow(10, n - 1)
    ensures D * 10 + integrals / divisor >= Pow(10, n) >= 1
  {
    if n == 0 {
      DivMod(integrals, divisor);
      if integrals / divisor <= 0 {
        MulMono(integrals / divisor, 0, divisor);
      }
    }
  }

  /** RoundWeed where DigitGen calls it: what its success means for the digits. */
  method WeedAt(ghost P: int, ghost d: int, ghost low: DiyFp, ghost w: DiyFp, ghost high: DiyFp, ghost kappa: int,
                buffer: array<char>, length: nat, distance: uint64, interval: uint64, rest: uint64, ten: uint64,
                unit: uint64)
    returns (ok: bool)
    requires low.e == w.e == high.e <= 0 && 1 <= low.f < w.f < high.f
    requires 1 <= length <= buffer.Length && AllDigits(buffer[..length]) && 0 <= d <= 9
    requires P == DecVal(buffer[..length - 1]) && DigitVal(buffer[length - 1]) == d
    requires P * 10 + d >= Pow(10, length - 1)
    requires Cut(P * 10 + d, kappa, Pow(2, -w.e), rest as int, high.f as int + 1)
    requires PrefixBelow(P, kappa, Pow(2, -w.e), low.f as int - 1)
    requires Scales(kappa, Pow(2, -w.e), low.f as int, w.f as int, high.f as int,
                    distance as int, interval as int, ten as int, unit as int)
    requires rest < interval
    modifies buffer
    ensures ok <==> Decidable(low, w, high)
    ensures ok ==> ShortestAndClosest(buffer[..length], kappa, low, w, high)
  {
    hide Cut, PrefixBelow, Scales, Weeded, ShortestAndClosest, Pow, ScaleUnit, ScaleTen, Decidable;
    ghost var s := buffer[..length];
    assert s[..length - 1] == buffer[..length - 1];
    ReadyToWeed(P, d, kappa, Pow(2, -w.e), rest as int, low.f as int, w.f as int, high.f as int,
                distance as int, interval as int, ten as int, unit as int);
    DecidedHere(P, d, length, kappa, low, w, high, distance as int, interval as int, rest as int, ten as int,
              unit as int);
    ok := RoundWeed(buffer, length, distance, interval, rest, ten, unit);
    assert buffer[..length][..length - 1] == buffer[..length - 1] == s[..length - 1];
    if ok {
      Finish(P, d, buffer[..length], kappa, low, w, high, distance as int, interval as int, rest as int, ten as int,
             unit as int);
    }
  }

  /** One turn of the first loop: the next digit, what is left, and 10^kappa in units. */
  method NextIntegral(ghost D: int, ghost kappa: int, ghost n: nat, ghost T: int, ghost B: int,
                      integrals: uint32, fractionals: uint64, divisor: uint32, one: uint64)
    returns (digit: uint32, integrals': uint32, rest: uint64, tenKappa: uint64)
    requires kappa > 0 && divisor as int == Pow(10, kappa - 1) && fractionals < one
    requires if n == 0 then D == 0 && integrals >= divisor else D >= Pow(10, n - 1)
    requires Cut(D, kappa, one as int, Remaining(integrals as int, fractionals as int, one as int), T)
    requires NotAbove(D, kappa, one as int, B) && T < 0x1_0000_0000_0000_0000
    ensures digit <= 9 && D * 10 + digit as int >= Pow(10, n)
    ensures Cut(D * 10 + digit as int, kappa - 1, one as int, rest as int, T)
    ensures PrefixBelow(D, kappa - 1, one as int, B)
    ensures rest as int == Remaining(integrals' as int, fractionals as int, one as int)
    ensures tenKappa as int == ScaleTen(kappa - 1) * one as int && ScaleUnit(kappa - 1) == 1
  {
    hide Cut, NotAbove, PrefixBelow;
    StepIntegral(D, kappa, one as int, integrals as int, fractionals as int, divisor as int, T, B);
    FirstDigit(integrals as int, divisor as int, D, n);
    digit := integrals / divisor;
    integrals' := integrals % divisor;
    IntegralFits(D * 10 + digit as int, kappa - 1, one as int,
                 integrals' as int, fractionals as int, divisor as int, T);
    rest := integrals' as uint64 * one + fractionals;
    tenKappa := divisor as uint64 * one;
  }

  /** The first half of DigitGen: digits before the decimal point, until the rest is inside the interval. */
  method GenerateIntegrals(low: DiyFp, w: DiyFp, high: DiyFp, one: uint64, integrals0: uint32, fractionals: uint64,
                           divisor0: uint32, kappa0: int, buffer: array<char>)
    returns (done: bool, ok: bool, length: nat, kappa: int)
    requires low.e == w.e == high.e && MINIMAL_TARGET_EXPONENT <= w.e <= MAXIMAL_TARGET_EXPONENT
    requires 1 <= low.f < w.f < high.f < 0xFFFF_FFFF_FFFF_FFFF
    requires one as int == Pow(2, -w.e) && fractionals < one
    requires 1 <= kappa0 <= 10 && divisor0 as int == Pow(10, kappa0 - 1) && integrals0 >= divisor0
    requires Cut(0, kappa0, one as int, Remaining(integrals0 as int, fractionals as int, one as int), high.f as int + 1)
    requires NotAbove(0, kappa0, one as int, low.f as int - 1)
    requires buffer.Length >= 28
    modifies buffer
    ensures done ==> (ok <==> Decidable(low, w, high))
    ensures done && ok ==> length <= buffer.Length && ShortestAndClosest(buffer[..length], kappa, low, w, high)
    ensures !done ==>
      && length == kappa0 && kappa == 0
      && AllDigits(buffer[..length]) && DecVal(buffer[..length]) >= Pow(10, length - 1)
      && Cut(DecVal(buffer[..length]), 0, one as int, fractionals as int, high.f as int + 1)
      && NotAbove(DecVal(buffer[..length]), 0, one as int, low.f as int - 1)
      && high.f - low.f + 2 <= fractionals
  {
    hide Cut, NotAbove, PrefixBelow, Scales, Weeded, ShortestAndClosest, Pow, ScaleUnit, ScaleTen, Remaining, DecVal,
         Decidable;
    var tooHigh := high.f + 1;
    var unsafeInterval := tooHigh - (low.f - 1);
    var integrals, divisor := integrals0, divisor0;
    kappa, length := kappa0, 0;
    ghost var D, T, B := 0, high.f as int + 1, low.f as int - 1;
    assert DecVal(buffer[..0]) == 0 by { NoDigits(buffer[..0]); }
    while kappa > 0
      invariant 0 <= kappa <= kappa0 && length == kappa0 - kappa
      invariant kappa > 0 ==> divisor as int == Pow(10, kappa - 1)
      invariant D == DecVal(buffer[..length]) && AllDigits(buffer[..length])
      invariant if length == 0 then D == 0 && integrals >= divisor else D >= Pow(10, length - 1)
      invariant Cut(D, kappa, one as int, Remaining(integrals as int, fractionals as int, one as int), T)
      invariant NotAbove(D, kappa, one as int, B)
      invariant kappa == 0 ==> unsafeInterval as int <= Remaining(integrals as int, fractionals as int, one as int)
    {
      ghost var s := buffer[..length];
      var digit, integrals', rest, tenKappa :=
        NextIntegral(D, kappa, length, T, B, integrals, fractionals, divisor, one);
      integrals := integrals';
      buffer[length] := DigitChar(digit as int);
      assert buffer[..length + 1] == s + [DigitChar(digit as int)];
      Appended(s, buffer[..length + 1], digit as int);
      assert buffer[..length] == s;
      length := length + 1;
      kappa := kappa - 1;
      IntegralScales(kappa, one as int, low.f as int, w.f as int, high.f as int, tenKappa as int);
      if rest < unsafeInterval {
        ok := WeedAt(D, digit as int, low, w, high, kappa, buffer, length, tooHigh - w.f, unsafeInterval, rest,
                     tenKappa, 1);
        done := true;
        return;
      }
      D := D * 10 + digit as int;
      NotStopped(D, kappa, one as int, rest as int, low.f as int, high.f as int);
      NextDivisor(kappa);
      divisor := divisor / 10;
    }
    NoIntegralsLeft(D, one as int, integrals as int, fractionals as int, T);
    RemainingFraction(fractionals as int, one as int);
    done, ok := false, false;
  }

  /** The second half of DigitGen: the fraction's digits; everything else is scaled up by ten each time. */
  method GenerateFractionals(low: DiyFp, w: DiyFp, high: DiyFp, one: uint64, fractionals0: uint64,
                             buffer: array<char>, length0: nat)
    returns (ok: bool, length: nat, kappa: int)
    requires low.e == w.e == high.e && MINIMAL_TARGET_EXPONENT <= w.e <= MAXIMAL_TARGET_EXPONENT
    requires 1 <= low.f < w.f < high.f < 0xFFFF_FFFF_FFFF_FFFF
    requires one as int == Pow(2, -w.e) <= 0x1000_0000_0000_0000
    requires high.f - low.f + 2 <= fractionals0 < one
    requires 1 <= length0 <= 10 && buffer.Length >= 28
    requires AllDigits(buffer[..length0]) && DecVal(buffer[..length0]) >= Pow(10, length0 - 1)
    requires Cut(DecVal(buffer[..length0]), 0, one as int, fractionals0 as int, high.f as int + 1)
    requires NotAbove(DecVal(buffer[..length0]), 0, one as int, low.f as int - 1)
    modifies buffer
    ensures ok <==> Decidable(low, w, high)
    ensures ok ==> length <= buffer.Length && ShortestAndClosest(buffer[..length], kappa, low, w, high)
  {
    hide Cut, NotAbove, PrefixBelow, Scales, Weeded, ShortestAndClosest, Pow, ScaleUnit, ScaleTen, DecVal, Decidable;
    var unit: uint64 := 1;
    var tooHigh := high.f + unit;
    var unsafeInterval := tooHigh - (low.f - unit);
    var fractionals := fractionals0;
    length, kappa := length0, 0;
    ghost var T, B, interval := high.f as int + 1, low.f as int - 1, high.f as int - low.f as int + 2;
    ghost var D := DecVal(buffer[..length]);
    UnscaledInterval(interval);
    while true
      invariant -18 <= kappa <= 0 && length == length0 - kappa
      invariant D == DecVal(buffer[..length]) && AllDigits(buffer[..length]) && D >= Pow(10, length - 1)
      invariant Cut(D, kappa, one as int, fractionals as int, T) && NotAbove(D, kappa, one as int, B)
      invariant unsafeInterval <= fractionals < one
      invariant unit as int == ScaleUnit(kappa) && unsafeInterval as int == interval * ScaleUnit(kappa)
      decreases one - unsafeInterval
    {
      ScaledFits(kappa, interval, one as int);
      DivMod(fractionals as int * 10, one as int);
      StepFraction(D, kappa, one as int, fractionals as int, fractionals as int * 10 / one as int,
                   fractionals as int * 10 % one as int, T, B);
      ghost var s := buffer[..length];
      fractionals := fractionals * 10;
      unit := unit * 10;
      unsafeInterval := unsafeInterval * 10;
      var digit := fractionals / one;
      fractionals := fractionals % one;
      buffer[length] := DigitChar(digit as int);
      assert buffer[..length + 1] == s + [DigitChar(digit as int)];
      Appended(s, buffer[..length + 1], digit as int);
      assert buffer[..length] == s;
      GrowsByOneDigit(D, digit as int, length);
      length := length + 1;
      kappa := kappa - 1;
      FractionScales(kappa, one as int, low.f as int, w.f as int, high.f as int, unit as int, unsafeInterval as int);
      if fractionals < unsafeInterval {
        var distance := (tooHigh - w.f) * unit;
        ok := WeedAt(D, digit as int, low, w, high, kappa, buffer, length, distance, unsafeInterval, fractionals, one,
                     unit);
        return;
      }
      D := D * 10 + digit as int;
      NotStopped(D, kappa, one as int, fractionals as int, low.f as int, high.f as int);
    }
  }

  lemma UnscaledInterval(interval: int)
    ensures ScaleUnit(0) == 1 && interval == interval * ScaleUnit(0)
  {
  }

  lemma ScaledFits(kappa: int, interval: int, one: int)
    requires kappa <= 0 && interval >= 4 && interval * ScaleUnit(kappa) < one <= 0x1000_0000_0000_0000
    ensures -kappa <= 17 && ScaleUnit(kappa) <= interval * ScaleUnit(kappa) && 0 < interval * ScaleUnit(kappa)
    ensures interval * ScaleUnit(kappa) * 10 == interval * (10 * ScaleUnit(kappa))
  {
    hide ScaleUnit;
    FewFractionDigits(kappa, interval, one);
    MulMono(1, interval, ScaleUnit(kappa));
    MulAssoc(interval, 10, ScaleUnit(kappa));
  }

  lemma FractionScales(kappa: int, one: int, low: int, w: int, high: int, unit: int, interval: int)
    requires kappa <= 0 && low < w < high && unit == ScaleUnit(kappa) && interval == (high - low + 2) * ScaleUnit(kappa)
    ensures Scales(kappa, one, low, w, high, (high + 1 - w) * unit, interval, one, unit)
    ensures 0 <= (high + 1 - w) * unit <= interval
  {
    MulMono(high + 1 - w, high - low + 2, unit);
    MulMono(0, high + 1 - w, unit);
  }

  /**
   * Generates the shortest digits that are certainly inside ]low; high[, or reports failure. Its
   * arguments are products of normalised numbers, so at most one leading bit of high is zero.
   */
  method DigitGen(low: DiyFp, w: DiyFp, high: DiyFp, buffer: array<char>)
    returns (ok: bool, length: nat, kappa: int)
    requires low.e == w.e == high.e && MINIMAL_TARGET_EXPONENT <= w.e <= MAXIMAL_TARGET_EXPONENT
    requires 1 <= low.f < w.f < high.f < 0xFFFF_FFFF_FFFF_FFFF
    requires high.f >= 0x3FFF_FFFF_FFFF_FFFF
    requires buffer.Length >= 28
    modifies buffer
    ensures ok <==> Decidable(low, w, high)
    ensures ok ==> length <= buffer.Length && ShortestAndClosest(buffer[..length], kappa, low, w, high)
  {
    hide Cut, NotAbove, ShortestAndClosest, Pow, Remaining, DecVal, Decidable;
    var tooHigh := high.f + 1;
    var one := Bit(-w.e);
    OneBounds(-w.e, tooHigh as int);
    var integrals := (tooHigh / one) as uint32;
    var fractionals := tooHigh % one;
    var divisor, exponentPlusOne := BiggestPowerTen(integrals, SIGNIFICAND_SIZE + w.e);
    DivMod(tooHigh as int, one as int);
    StartCut(one as int, integrals as int, fractionals as int, exponentPlusOne, high.f as int + 1, low.f as int - 1);
    var done;
    done, ok, length, kappa :=
      GenerateIntegrals(low, w, high, one, integrals, fractionals, divisor, exponentPlusOne, buffer);
    if !done {
      ok, length, kappa := GenerateFractionals(low, w, high, one, fractionals, buffer, length);
    }
  }

  // ---------- the closest one of its length ----------

  /** A power of ten in the unsafe interval is a decimal of one digit. */
  lemma NoPowerOfTen(n: nat, one: int, low: int, high: int, k: int)
    requires NoShorter(n, one, low, high) && n >= 2
    ensures !Unsafe(Units(1, k, one), low, high)
  {
    hide Unsafe, Units;
    PowStep(10, n - 2);
  }

  /** With two digits or more every candidate of that length stands at the same position. */
  lemma OnlyThisPosition(D: int, n: nat, kappa: int, one: int, low: int, high: int, c: nat, k: int)
    requires n >= 2 && one > 0 && Pow(10, n - 1) <= D < Pow(10, n)
    requires SurelyInside(D, kappa, one, low, high) && NoShorter(n, one, low, high)
    requires c < Pow(10, n) && Unsafe(Units(c, k, one), low, high)
    ensures k == kappa
  {
    hide Pow, Units;
    assert Near(low as real, low) && Near(high as real, high);
    if k < kappa {
      UnitsStrictMono(c, Pow(10, n), k, one);
      UnitsShift(1, k, n, one);
      SmallerUnits(1, 1, k + n, kappa + n - 1, one);
      UnitsShift(1, kappa, n - 1, one);
      UnitsMono(Pow(10, n - 1), D, kappa, one);
      NoPowerOfTen(n, one, low, high, kappa + n - 1);
    } else if k > kappa {
      UnitsMono(Pow(10, n - 1), c, k, one);
      UnitsShift(1, k, n - 1, one);
      SmallerUnits(1, 1, kappa + n, k + n - 1, one);
      UnitsShift(1, kappa, n, one);
      UnitsStrictMono(D, Pow(10, n), kappa, one);
      NoPowerOfTen(n, one, low, high, kappa + n);
    }
  }

  /** The digits are the closest decimal of their length, wherever the point of the others stands. */
  ghost predicate ClosestAnywhere(D: int, n: nat, kappa: int, one: int, low: int, w: int, high: int) {
    forall c: nat, k: int, v: real ::
      c < Pow(10, n) && Unsafe(Units(c, k, one), low, high) && Near(v, w) && !(c == D && k == kappa)
      ==> Abs(Units(D, kappa, one) - v) < Abs(Units(c, k, one) - v)
  }

  /** 0.9 at the first digit's position is unsafe, and w may stand for a number closer to it than to 1. */
  ghost predicate Blurred(kappa: int, one: int, low: int, w: int, high: int) {
    Unsafe(Units(9, kappa - 1, one), low, high) && 20.0 * (w as real - 1.0) < 19.0 * Units(1, kappa, one)
  }

  lemma TenthsOf(kappa: int, one: int)
    requires one > 0
    ensures 10.0 * Units(9, kappa - 1, one) == 9.0 * Units(1, kappa, one) && Units(1, kappa, one) > 0.0
  {
    TenNext(kappa - 1);
    var t, o := Ten(kappa - 1), one as real;
    NineOfTen(t, o);
    UnitsStrictMono(0, 1, kappa, one);
  }

  lemma NineOfTen(t: real, o: real)
    ensures 10.0 * (9.0 * t * o) == 9.0 * (1.0 * (10.0 * t) * o)
  {
  }

  /** With one digit: where another candidate can stand, and that it is no closer than 0.9. */
  lemma OneDigitElsewhere(D: int, kappa: int, one: int, low: int, high: int, c: nat, k: int)
    requires one > 0 && low >= 1 && 1 <= D <= 9 && SurelyInside(D, kappa, one, low, high)
    requires FirstDigitFirst(1, kappa, one, high)
    requires c < 10 && k != kappa && Unsafe(Units(c, k, one), low, high)
    ensures k < kappa && Units(c, k, one) <= Units(9, kappa - 1, one) < Units(1, kappa, one)
    ensures Unsafe(Units(9, kappa - 1, one), low, high) && Unsafe(Units(1, kappa, one), low, high)
  {
    hide Pow, Units;
    assert Near(low as real, low) && Near(high as real, high);
    PowOne(10);
    TenthsOf(kappa, one);
    UnitsMono(1, D, kappa, one);
    if k > kappa {
      if c == 0 {
        NoUnits(k, one);
      }
      UnitsMono(1, c, k, one);
      SmallerUnits(1, 1, kappa + 1, k, one);
      UnitsTimesTen(1, kappa, one);
    } else {
      SmallerUnits(c, 9, k, kappa - 1, one);
    }
  }

  lemma NoUnits(k: int, one: int)
    ensures Units(0, k, one) == 0.0
  {
  }

  /** v is beyond the middle of 0.9 and 1, so it is closer to 1 than to anything up to 0.9. */
  lemma BeyondMiddle(x: real, nine: real, unit: real, v: real)
    requires x <= nine && 10.0 * nine == 9.0 * unit && unit > 0.0 && 20.0 * v > 19.0 * unit
    ensures Abs(unit - v) < Abs(x - v)
  {
  }

  /** Before that middle, 0.9 is closer than 1 and everything above. */
  lemma BeforeMiddle(d: real, nine: real, unit: real, v: real)
    requires d >= unit && 10.0 * nine == 9.0 * unit && unit > 0.0 && 20.0 * v < 19.0 * unit
    ensures Abs(nine - v) < Abs(d - v)
  {
  }

  lemma OneDigitClosest(D: int, kappa: int, one: int, low: int, w: int, high: int, c: nat, k: int, v: real)
    requires one > 0 && low >= 1 && 1 <= D <= 9 && SurelyInside(D, kappa, one, low, high)
    requires FirstDigitFirst(1, kappa, one, high) && StrictlyClosest(D, kappa, one, low, w, high)
    requires !Blurred(kappa, one, low, w, high)
    requires c < 10 && Unsafe(Units(c, k, one), low, high) && Near(v, w) && !(c == D && k == kappa)
    ensures Abs(Units(D, kappa, one) - v) < Abs(Units(c, k, one) - v)
  {
    hide Pow, Units, Unsafe, Abs;
    if k != kappa {
      OneDigitElsewhere(D, kappa, one, low, high, c, k);
      TenthsOf(kappa, one);
      BeyondMiddle(Units(c, k, one), Units(9, kappa - 1, one), Units(1, kappa, one), v);
    }
  }

  /** Between w - 1 and the middle there is a number that w may stand for. */
  lemma BlurredNumber(D: int, kappa: int, one: int, low: int, w: int, high: int) returns (v: real)
    requires Blurred(kappa, one, low, w, high) && one > 0 && D >= 1
    ensures Near(v, w) && Abs(Units(9, kappa - 1, one) - v) < Abs(Units(D, kappa, one) - v)
  {
    hide Units, Unsafe;
    var middle, least := 0.95 * Units(1, kappa, one), w as real - 1.0;
    var most := if middle < w as real + 1.0 then middle else w as real + 1.0;
    v := (least + most) / 2.0;
    TenthsOf(kappa, one);
    UnitsMono(1, D, kappa, one);
    BeforeMiddle(Units(D, kappa, one), Units(9, kappa - 1, one), Units(1, kappa, one), v);
  }

  /**
   * Success gives the closest decimal of its length, at whatever position, if and only if 0.9 at the first digit's
   * position does not get in the way; with two digits or more it never does.
   */
  lemma ClosestOfItsLength(digits: seq<char>, kappa: int, low: DiyFp, w: DiyFp, high: DiyFp)
    requires low.e == w.e == high.e <= 0 && low.f >= 1 && ShortestAndClosest(digits, kappa, low, w, high)
    ensures var one := Pow(2, -w.e);
            ClosestAnywhere(DecVal(digits), |digits|, kappa, one, low.f as int, w.f as int, high.f as int)
            <==> !Blurred(kappa, one, low.f as int, w.f as int, high.f as int)
    ensures |digits| >= 2 ==> !Blurred(kappa, Pow(2, -w.e), low.f as int, w.f as int, high.f as int)
  {
    hide Pow, Units, Unsafe, Near, Abs, DecVal, FirstDigitFirst, StrictlyClosest, SurelyInside;
    var D, n, one, l, u, h := DecVal(digits), |digits|, Pow(2, -w.e), low.f as int, w.f as int, high.f as int;
    PowOne(10);
    PowZero(10);
    if Blurred(kappa, one, l, u, h) {
      if n >= 2 {
        PowMono(10, 1, n - 1);
      }
      assert 9 >= Pow(10, n - 1);
      var v := BlurredNumber(D, kappa, one, l, u, h);
      assert 9 < Pow(10, n);
    } else {
      forall c: nat, k: int, v: real |
        c < Pow(10, n) && Unsafe(Units(c, k, one), l, h) && Near(v, u) && !(c == D && k == kappa)
        ensures Abs(Units(D, kappa, one) - v) < Abs(Units(c, k, one) - v)
      {
        if n == 1 {
          OneDigitClosest(D, kappa, one, l, u, h, c, k, v);
        } else {
          OnlyThisPosition(D, n, kappa, one, l, h, c, k);
          SamePosition(D, kappa, one, l, u, h, c, v);
        }
      }
    }
  }

  lemma SamePosition(D: int, kappa: int, one: int, low: int, w: int, high: int, c: int, v: real)
    requires StrictlyClosest(D, kappa, one, low, w, high)
    requires c != D && Unsafe(Units(c, kappa, one), low, high) && Near(v, w)
    ensures Abs(Units(D, kappa, one) - v) < Abs(Units(c, kappa, one) - v)
  {
  }
}
