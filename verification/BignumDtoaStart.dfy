/** From a significand and exponent to the digit generator's starting values, and the whole conversion. */
module BignumDtoaStart {
  import opened Powers
  import opened Words
  import opened BigitSeq
  import opened BigitArrays
  import opened BignumFacts
  import opened Bignums
  import opened BignumDtoa

  /**
   * v stands for f * 2^e / 10^ten: upper boundary half a unit of 2^e above, lower boundary half a unit
   * below, or a quarter when the next smaller number is closer.
   */
  ghost predicate Represents(v: Scaled, f: nat, e: int, closer: bool, ten: int) {
    var a, b := Up(10, ten) * Down(2, e), Up(2, e) * Down(10, ten);
    && v.s > 0
    && v.n * a == v.s * b * f
    && 2 * v.plus * a == v.s * b
    && (if closer then 4 else 2) * v.minus * a == v.s * b
  }

  /** The range of significands and exponents of IEEE doubles, with room to spare. */
  ghost predicate InRange(f: nat, e: int, ten: int) {
    && 0 < f < 0x1_0000_0000_0000_0000
    && -1100 <= e <= 1100 && -330 <= ten <= 330
    && (if e >= 0 then ten >= 0 else ten <= 20)
  }

  // ---------- sizes ----------

  /** Small enough for every operation of this module. */
  ghost predicate Moderate(x: Bignum)
    reads x, x.bigits
  {
    x.Valid() && x.Value() < P(60) && 0 <= x.exponent <= 1000
  }

  lemma {:induction false} ModerateFits(x: Bignum)
    requires Moderate(x)
    ensures x.used <= 60 && V(x.Mantissa()) < P(60)
  {
    hide V, P;
    MulMono(1, P(x.exponent), V(x.Mantissa()));
    assert V(x.Mantissa()) * P(x.exponent) == P(x.exponent) * V(x.Mantissa());
    if x.used > 0 {
      FitsBelow(x.Mantissa(), 60);
    }
  }

  lemma TenBits()
    ensures BitSize(OddPart(10)) == 3
  {
    assert OddPart(10) == OddPart(5) == 5;
    assert BitSize(5) == 1 + BitSize(2) == 2 + BitSize(1) == 3;
  }

  lemma BelowP60(x: nat, m: nat)
    requires x <= Pow(2, m) && m < 1680
    ensures x < P(60)
  {
    hide Pow, P;
    PIsPow2(60);
    PowStrictMono(2, m, 1680);
  }

  lemma {:induction false} StartSizes(f: nat, e: int, ten: int)
    requires InRange(f, e, ten)
    ensures e >= 0 ==> f * Pow(2, e) < P(60) && 4 * (f * Pow(2, e)) < P(60) && 4 * Pow(2, e) < P(60)
    ensures ten >= 0 ==> 4 * Pow(10, ten) < P(60)
    ensures ten >= 0 && e < 0 ==> 4 * (Pow(10, ten) * Pow(2, -e)) < P(60)
    ensures ten < 0 ==> 4 * (f * Pow(10, -ten)) < P(60) && 4 * Pow(10, -ten) < P(60)
    ensures e < 0 ==> 4 * Pow(2, -e) < P(60)
    ensures 4 * f < P(60) && 1 < P(60)
  {
    hide Pow, P;
    Pow2Table();
    Pow2Small();
    var m := if e >= 0 then e else -e;
    var k := if ten >= 0 then ten else -ten;
    TenBelowSixteen(k);
    ProductBelow(f, Pow(2, m), 64, m);
    ProductBelow(4, f * Pow(2, m), 2, 64 + m);
    BelowP60(4 * (f * Pow(2, m)), 66 + m);
    ProductBelow(4, Pow(2, m), 2, m);
    BelowP60(4 * Pow(2, m), 2 + m);
    ProductBelow(4, Pow(10, k), 2, 4 * k);
    BelowP60(4 * Pow(10, k), 2 + 4 * k);
    ProductBelow(f, Pow(10, k), 64, 4 * k);
    ProductBelow(4, f * Pow(10, k), 2, 64 + 4 * k);
    BelowP60(4 * (f * Pow(10, k)), 66 + 4 * k);
    ProductBelow(4, f, 2, 64);
    BelowP60(4 * f, 66);
    BelowP60(1, 1);
    if e < 0 && ten >= 0 {
      ProductBelow(Pow(10, k), Pow(2, m), 4 * k, m);
      ProductBelow(4, Pow(10, k) * Pow(2, m), 2, 4 * k + m);
      BelowP60(4 * (Pow(10, k) * Pow(2, m)), 2 + 4 * k + m);
    }
  }

  // ---------- the starting values ----------

  /** x *= 2^shift on moderate numbers. */
  method Shift(x: Bignum, shift: nat)
    requires Moderate(x) && x.exponent + shift / BIGIT_SIZE <= 1000 && x.Value() * Pow(2, shift) < P(60)
    modifies x, x.bigits
    ensures Moderate(x) && x.Value() == old(x.Value()) * Pow(2, shift)
    ensures x.exponent <= old(x.exponent) + shift / BIGIT_SIZE
  {
    hide V, P, Pow;
    ModerateFits(x);
    x.ShiftLeft(shift);
  }

  /** x = 10^k. */
  method TenTo(x: Bignum, k: nat)
    requires x.Valid() && k <= 330 && Pow(10, k) < P(60)
    modifies x, x.bigits
    ensures Moderate(x) && x.Value() == Pow(10, k) && x.exponent <= 200
  {
    hide V, P, Pow, BitSize, OddPart;
    TenBits();
    x.AssignPowerUInt16(10, k);
  }

  method Assign(x: Bignum, value: uint64)
    requires x.Valid() && value as int < P(60)
    modifies x, x.bigits
    ensures Moderate(x) && x.Value() == value as int && x.exponent == 0
  {
    x.AssignUInt64(value);
  }

  /** x = value * 2^shift. */
  method AssignShifted(x: Bignum, value: uint64, shift: nat)
    requires x.Valid() && value as int < P(60) && shift <= 1100 && value as int * Pow(2, shift) < P(60)
    modifies x, x.bigits
    ensures Moderate(x) && x.Value() == value as int * Pow(2, shift) && x.exponent <= 40
  {
    hide V, P, Pow, Bignum.Valid, Bignum.Value, Moderate;
    Assign(x, value);
    Shift(x, shift);
  }

  method Copy(x: Bignum, other: Bignum)
    requires x.Valid() && Moderate(other) && Separate(x, other)
    modifies x, x.bigits
    ensures Moderate(x) && x.Value() == other.Value() && x.exponent == other.exponent
  {
    hide V, P;
    x.AssignBignum(other);
  }

  method StartPositiveExponent(significand: uint64, exponent: nat, estimatedPower: nat,
                               numerator: Bignum, denominator: Bignum, deltaMinus: Bignum, deltaPlus: Bignum)
    requires AllSeparate(numerator, denominator, deltaMinus, deltaPlus) && Separate(deltaMinus, deltaPlus)
    requires numerator.Valid() && denominator.Valid() && deltaMinus.Valid() && deltaPlus.Valid()
    requires InRange(significand as int, exponent, estimatedPower)
    modifies numerator, numerator.bigits, denominator, denominator.bigits
    modifies deltaMinus, deltaMinus.bigits, deltaPlus, deltaPlus.bigits
    ensures Moderate(numerator) && Moderate(denominator) && Moderate(deltaMinus) && Moderate(deltaPlus)
    ensures numerator.Value() == significand as int * Pow(2, exponent) * 2
    ensures denominator.Value() == Pow(10, estimatedPower) * 2
    ensures deltaPlus.Value() == Pow(2, exponent) && deltaMinus.Value() == Pow(2, exponent)
    ensures numerator.exponent <= 500 && denominator.exponent <= 500 && deltaPlus.exponent <= 500
  {
    hide V, P, Pow, Bignum.Valid, Bignum.Value, Moderate;
    StartSizes(significand as int, exponent, estimatedPower);
    PowOne(2);
    AssignShifted(numerator, significand, exponent);
    TenTo(denominator, estimatedPower);
    // A common denominator of two makes the deltas integers.
    Shift(denominator, 1);
    Shift(numerator, 1);
    AssignShifted(deltaPlus, 1, exponent);
    AssignShifted(deltaMinus, 1, exponent);
  }

  method StartNegativeExponentPositivePower(significand: uint64, exponent: int, estimatedPower: nat,
                                            numerator: Bignum, denominator: Bignum, deltaMinus: Bignum,
                                            deltaPlus: Bignum)
    requires AllSeparate(numerator, denominator, deltaMinus, deltaPlus) && Separate(deltaMinus, deltaPlus)
    requires numerator.Valid() && denominator.Valid() && deltaMinus.Valid() && deltaPlus.Valid()
    requires exponent < 0 && InRange(significand as int, exponent, estimatedPower)
    modifies numerator, numerator.bigits, denominator, denominator.bigits
    modifies deltaMinus, deltaMinus.bigits, deltaPlus, deltaPlus.bigits
    ensures Moderate(numerator) && Moderate(denominator) && Moderate(deltaMinus) && Moderate(deltaPlus)
    ensures numerator.Value() == significand as int * 2
    ensures denominator.Value() == Pow(10, estimatedPower) * Pow(2, -exponent) * 2
    ensures deltaPlus.Value() == 1 && deltaMinus.Value() == 1
    ensures numerator.exponent <= 500 && denominator.exponent <= 500 && deltaPlus.exponent <= 500
  {
    hide V, P, Pow, Bignum.Valid, Bignum.Value, Moderate;
    StartSizes(significand as int, exponent, estimatedPower);
    PowOne(2);
    Assign(numerator, significand);
    TenTo(denominator, estimatedPower);
    Shift(denominator, -exponent);
    Shift(denominator, 1);
    Shift(numerator, 1);
    Assign(deltaPlus, 1);
    Assign(deltaMinus, 1);
  }

  method StartNegativeExponentNegativePower(significand: uint64, exponent: int, estimatedPower: int,
                                            numerator: Bignum, denominator: Bignum, deltaMinus: Bignum,
                                            deltaPlus: Bignum)
    requires AllSeparate(numerator, denominator, deltaMinus, deltaPlus) && Separate(deltaMinus, deltaPlus)
    requires numerator.Valid() && denominator.Valid() && deltaMinus.Valid() && deltaPlus.Valid()
    requires exponent < 0 && estimatedPower < 0 && InRange(significand as int, exponent, estimatedPower)
    modifies numerator, numerator.bigits, denominator, denominator.bigits
    modifies deltaMinus, deltaMinus.bigits, deltaPlus, deltaPlus.bigits
    ensures Moderate(numerator) && Moderate(denominator) && Moderate(deltaMinus) && Moderate(deltaPlus)
    ensures numerator.Value() == significand as int * Pow(10, -estimatedPower) * 2
    ensures denominator.Value() == Pow(2, -exponent) * 2
    ensures deltaPlus.Value() == Pow(10, -estimatedPower) && deltaMinus.Value() == Pow(10, -estimatedPower)
    ensures numerator.exponent <= 500 && denominator.exponent <= 500 && deltaPlus.exponent <= 500
  {
    hide V, P, Pow, Bignum.Valid, Bignum.Value, Moderate;
    StartSizes(significand as int, exponent, estimatedPower);
    PowOne(2);
    // The numerator holds the power of ten until the deltas have been copied from it.
    TenTo(numerator, -estimatedPower);
    Copy(deltaPlus, numerator);
    Copy(deltaMinus, numerator);
    Times(numerator, significand);
    Assign(denominator, 1);
    Shift(denominator, -exponent);
    Shift(numerator, 1);
    Shift(denominator, 1);
  }

  method Times(x: Bignum, factor: uint64)
    requires Moderate(x) && factor > 0 && factor as int * x.Value() < P(60)
    modifies x, x.bigits
    ensures Moderate(x) && x.Value() == factor as int * old(x.Value()) && x.exponent <= old(x.exponent)
  {
    hide V, P;
    MantissaFits(V(x.Mantissa()), x.exponent, factor as int);
    x.MultiplyByUInt64(factor);
  }

  lemma {:induction false} MantissaFits(v: nat, e: nat, f: nat)
    requires f * (v * P(e)) < P(60)
    ensures f * v < P(CAPACITY)
  {
    MulAssoc(f, v, P(e));
    MulMono(1, P(e), f * v);
    assert f * v * P(e) == P(e) * (f * v);
    PMono(60, CAPACITY);
  }

  /** The values of the three variants, with the lower boundary's correction, stand for f * 2^e / 10^ten. */
  lemma {:induction false} StartRepresents(v: Scaled, f: nat, e: int, closer: bool, ten: int, k: int)
    requires k == if closer then 2 else 1
    requires v.n == f * (Up(2, e) * Down(10, ten)) * 2 * k
    requires v.s == Up(10, ten) * Down(2, e) * 2 * k
    requires v.plus == Up(2, e) * Down(10, ten) * k && v.minus == Up(2, e) * Down(10, ten)
    ensures Represents(v, f, e, closer, ten)
  {
    MulMono(1, Up(10, ten), Down(2, e));
    StartAlgebra(v.n, v.s, v.plus, v.minus, f, Up(10, ten) * Down(2, e), Up(2, e) * Down(10, ten), k);
  }

  lemma StartAlgebra(n: int, s: int, plus: int, minus: int, f: int, a: int, b: int, k: int)
    requires k == 1 || k == 2
    requires n == f * b * 2 * k && s == a * 2 * k && plus == b * k && minus == b
    ensures n * a == s * b * f && 2 * plus * a == s * b && 2 * k * minus * a == s * b
  {
    assert f * b * a == a * b * f;
    assert b * a == a * b;
  }

  ghost predicate AllModerate(numerator: Bignum, denominator: Bignum, deltaMinus: Bignum, deltaPlus: Bignum)
    reads numerator, numerator.bigits, denominator, denominator.bigits
    reads deltaMinus, deltaMinus.bigits, deltaPlus, deltaPlus.bigits
  {
    Moderate(numerator) && Moderate(denominator) && Moderate(deltaMinus) && Moderate(deltaPlus)
  }

  /** The three variants have one meaning: 2fb/2a with both deltas b, for a and b the powers on either side. */
  method StartVariants(significand: uint64, exponent: int, estimatedPower: int,
                       numerator: Bignum, denominator: Bignum, deltaMinus: Bignum, deltaPlus: Bignum, ghost a: nat,
                       ghost b: nat)
    requires AllSeparate(numerator, denominator, deltaMinus, deltaPlus) && Separate(deltaMinus, deltaPlus)
    requires numerator.Valid() && denominator.Valid() && deltaMinus.Valid() && deltaPlus.Valid()
    requires InRange(significand as int, exponent, estimatedPower)
    requires a == Up(10, estimatedPower) * Down(2, exponent) && b == Up(2, exponent) * Down(10, estimatedPower)
    modifies numerator, numerator.bigits, denominator, denominator.bigits
    modifies deltaMinus, deltaMinus.bigits, deltaPlus, deltaPlus.bigits
    ensures AllModerate(numerator, denominator, deltaMinus, deltaPlus)
    ensures numerator.exponent <= 500 && denominator.exponent <= 500 && deltaPlus.exponent <= 500
    ensures numerator.Value() == significand as int * b * 2 && denominator.Value() == a * 2
    ensures deltaPlus.Value() == b && deltaMinus.Value() == b
  {
    hide V, P, Pow, Up, Down, Bignum.Valid, Bignum.Value, Moderate;
    UpDown(2, exponent);
    UpDown(10, estimatedPower);
    if exponent >= 0 {
      StartPositiveExponent(significand, exponent, estimatedPower, numerator, denominator, deltaMinus, deltaPlus);
    } else if estimatedPower >= 0 {
      StartNegativeExponentPositivePower(significand, exponent, estimatedPower,
                                         numerator, denominator, deltaMinus, deltaPlus);
    } else {
      StartNegativeExponentNegativePower(significand, exponent, estimatedPower,
                                         numerator, denominator, deltaMinus, deltaPlus);
    }
  }

  lemma DoubledSizes(f: nat, e: int, ten: int, a: nat, b: nat)
    requires InRange(f, e, ten)
    requires a == Up(10, ten) * Down(2, e) && b == Up(2, e) * Down(10, ten)
    ensures f * b * 2 * Pow(2, 1) < P(60) && a * 2 * Pow(2, 1) < P(60) && b * Pow(2, 1) < P(60)
    ensures Pow(2, 1) == 2
  {
    hide P;
    UpDown(2, e);
    UpDown(10, ten);
    PowOne(2);
    StartSizes(f, e, ten);
    assert f * b * 2 * 2 == 4 * (f * b) && a * 2 * 2 == 4 * a;
    MulMono(1, f, b);
  }

  /** Exact starting values: numerator/denominator = f * 2^e / 10^estimatedPower and its two deltas. */
  method InitialScaledStartValues(significand: uint64, exponent: int, lowerBoundaryIsCloser: bool, estimatedPower: int,
                                  numerator: Bignum, denominator: Bignum, deltaMinus: Bignum, deltaPlus: Bignum)
    returns (ghost v: Scaled)
    requires AllSeparate(numerator, denominator, deltaMinus, deltaPlus) && Separate(deltaMinus, deltaPlus)
    requires numerator.Valid() && denominator.Valid() && deltaMinus.Valid() && deltaPlus.Valid()
    requires InRange(significand as int, exponent, estimatedPower)
    modifies numerator, numerator.bigits, denominator, denominator.bigits
    modifies deltaMinus, deltaMinus.bigits, deltaPlus, deltaPlus.bigits
    ensures AllModerate(numerator, denominator, deltaMinus, deltaPlus)
    ensures v == Scaled(numerator.Value(), denominator.Value(), deltaMinus.Value(), deltaPlus.Value(),
                        significand % 2 == 0)
    ensures Represents(v, significand as int, exponent, lowerBoundaryIsCloser, estimatedPower)
  {
    hide V, P, Pow, Up, Down, Bignum.Valid, Bignum.Value, Represents;
    ghost var a, b := Up(10, estimatedPower) * Down(2, exponent), Up(2, exponent) * Down(10, estimatedPower);
    StartVariants(significand, exponent, estimatedPower, numerator, denominator, deltaMinus, deltaPlus, a, b);
    if lowerBoundaryIsCloser {
      // The lower boundary is at half the distance: everything but its delta is doubled.
      DoubledSizes(significand as int, exponent, estimatedPower, a, b);
      Shift(denominator, 1);
      Shift(numerator, 1);
      Shift(deltaPlus, 1);
    }
    v := Scaled(numerator.Value(), denominator.Value(), deltaMinus.Value(), deltaPlus.Value(), significand % 2 == 0);
    StartRepresents(v, significand as int, exponent, lowerBoundaryIsCloser, estimatedPower,
                    if lowerBoundaryIsCloser then 2 else 1);
  }

  // ---------- FixupMultiply10 ----------

  /** The estimate's contract: it is right for the upper boundary, or one too low. */
  ghost predicate EstimateIsClose(v: Scaled) {
    && 0 < v.minus < v.n && 0 < v.plus && 0 < v.s
    && if v.isEven then v.s <= 10 * (v.n + v.plus) && v.n + v.plus < 10 * v.s
       else v.s < 10 * (v.n + v.plus) && v.n + v.plus <= 10 * v.s
  }

  ghost function TimesTen(v: Scaled): Scaled {
    v.(n := 10 * v.n, minus := 10 * v.minus, plus := 10 * v.plus)
  }

  lemma {:induction false} TimesTenRepresents(v: Scaled, f: nat, e: int, closer: bool, ten: int)
    requires Represents(v, f, e, closer, ten)
    ensures Represents(TimesTen(v), f, e, closer, ten - 1)
  {
    hide Pow;
    UpDown(10, ten);
    UpDown(10, ten - 1);
    var a, b := Up(10, ten) * Down(2, e), Up(2, e) * Down(10, ten);
    var a', b' := Up(10, ten - 1) * Down(2, e), Up(2, e) * Down(10, ten - 1);
    PowZero(10);
    if ten >= 1 {
      PowStep(10, ten - 1);
      MulAssoc(10, Pow(10, ten - 1), Down(2, e));
      assert a == 10 * a' && b == b';
    } else {
      PowStep(10, -ten);
      TenTimes(Up(2, e), Down(10, ten));
      assert a == a' && b' == 10 * b;
    }
    var k := if closer then 4 else 2;
    TenthFactor(v.n, 1, v.s, f, a, b, a', b');
    TenthFactor(v.plus, 2, v.s, 1, a, b, a', b');
    TenthFactor(v.minus, k, v.s, 1, a, b, a', b');
  }

  lemma TenthFactor(x: int, k: int, s: int, f: int, a: int, b: int, a': int, b': int)
    requires k * x * a == s * b * f
    requires (a == 10 * a' && b == b') || (a == a' && b' == 10 * b)
    ensures k * (10 * x) * a' == s * b' * f
  {
    if b == b' {
      assert k * (10 * x) * a' == k * x * (10 * a');
    } else {
      assert k * (10 * x) * a == 10 * (k * x * a);
      assert s * (10 * b) * f == 10 * (s * b * f);
    }
  }

  /** Brings the upper boundary between 1 and 10. */
  method FixupMultiply10(estimatedPower: int, isEven: bool, numerator: Bignum, denominator: Bignum,
                         deltaMinus: Bignum, deltaPlus: Bignum, ghost v: Scaled)
    returns (decimalPoint: int, ghost v': Scaled)
    requires AllSeparate(numerator, denominator, deltaMinus, deltaPlus) && Separate(deltaMinus, deltaPlus)
    requires AllValid(numerator, denominator, deltaMinus, deltaPlus, v.s)
    requires v == Scaled(numerator.Value(), denominator.Value(), deltaMinus.Value(), deltaPlus.Value(), isEven)
    requires EstimateIsClose(v)
    modifies numerator, numerator.bigits, deltaMinus, deltaMinus.bigits, deltaPlus, deltaPlus.bigits
    ensures AllValid(numerator, denominator, deltaMinus, deltaPlus, v.s)
    ensures v' == Scaled(numerator.Value(), denominator.Value(), deltaMinus.Value(), deltaPlus.Value(), isEven)
    ensures v' == (if decimalPoint == estimatedPower + 1 then v else TimesTen(v))
    ensures decimalPoint == estimatedPower + 1 || decimalPoint == estimatedPower
    ensures InDecade(v')
  {
    hide V, P, Bignum.Valid, Bignum.Value, InDecade;
    var sum := PlusCompare(numerator, deltaPlus, denominator);
    var inRange := if isEven then sum >= 0 else sum > 0;
    DecadeFound(v, inRange);
    v' := v;
    if inRange {
      decimalPoint := estimatedPower + 1;
    } else {
      decimalPoint := estimatedPower;
      numerator.Times10();
      DeltasTimes10(deltaMinus, deltaPlus, v.s);
      v' := TimesTen(v);
    }
  }

  /** Whether the upper boundary has reached 1 already, or does so after one multiplication by 10. */
  lemma DecadeFound(v: Scaled, inRange: bool)
    requires EstimateIsClose(v)
    requires inRange <==> if v.isEven then v.n + v.plus >= v.s else v.n + v.plus > v.s
    ensures if inRange then InDecade(v) else InDecade(TimesTen(v))
    ensures !inRange ==> v.n <= v.s && v.plus <= v.s && v.minus <= v.s
  {
  }

  /** Both deltas times ten, with one multiplication if they are equal. */
  method DeltasTimes10(deltaMinus: Bignum, deltaPlus: Bignum, ghost s: nat)
    requires Separate(deltaMinus, deltaPlus) && deltaMinus.Valid() && deltaPlus.Valid()
    requires Room(deltaMinus, s) && Room(deltaPlus, s) && deltaMinus.Value() <= s && deltaPlus.Value() <= s
    modifies deltaMinus, deltaMinus.bigits, deltaPlus, deltaPlus.bigits
    ensures deltaMinus.Valid() && deltaPlus.Valid() && Room(deltaMinus, s) && Room(deltaPlus, s)
    ensures deltaMinus.Value() == 10 * old(deltaMinus.Value()) && deltaPlus.Value() == 10 * old(deltaPlus.Value())
  {
    hide V, P, Bignum.Valid, Bignum.Value;
    var same := Equal(deltaMinus, deltaPlus);
    deltaMinus.Times10();
    if same {
      deltaPlus.AssignBignum(deltaMinus);
    } else {
      deltaPlus.Times10();
    }
  }

  // ---------- the whole conversion ----------

  /**
   * The contract of the floating-point estimate, which is not modelled: with m = (2f+1) * 2^(e-1) the
   * upper boundary, 10^(ten-1) <= m < 10^(ten+1); for odd significands, whose interval is open,
   * 10^(ten-1) < m <= 10^(ten+1).
   */
  ghost predicate EstimateContract(f: nat, e: int, ten: int) {
    var a, b := Up(10, ten) * Down(2, e), Up(2, e) * Down(10, ten);
    if f % 2 == 0 then 2 * a <= 10 * (b * (2 * f + 1)) && b * (2 * f + 1) < 20 * a
    else 2 * a < 10 * (b * (2 * f + 1)) && b * (2 * f + 1) <= 20 * a
  }

  lemma {:induction false} ContractIsEnough(v: Scaled, f: nat, e: int, closer: bool, ten: int)
    requires Represents(v, f, e, closer, ten) && EstimateContract(f, e, ten) && f > 0 && v.isEven == (f % 2 == 0)
    ensures EstimateIsClose(v)
  {
    hide Pow, Up, Down;
    var a, b, k := Up(10, ten) * Down(2, e), Up(2, e) * Down(10, ten), if closer then 4 else 2;
    FactorsPositive(e, ten);
    UpperBoundary(v.n, v.plus, v.s, f, a, b);
    LowerDelta(v.n, v.minus, v.s, f, a, b, k);
    CompareScaled(v.n + v.plus, v.s, b * (2 * f + 1), a);
  }

  lemma FactorsPositive(e: int, ten: int)
    ensures Up(10, ten) * Down(2, e) > 0 && Up(2, e) * Down(10, ten) > 0
  {
    MulMono(1, Up(10, ten), Down(2, e));
    MulMono(1, Up(2, e), Down(10, ten));
  }

  lemma UpperBoundary(n: int, plus: int, s: int, f: int, a: int, b: int)
    requires n * a == s * b * f && 2 * plus * a == s * b && a > 0 && b > 0 && s > 0
    ensures 2 * ((n + plus) * a) == s * (b * (2 * f + 1)) && plus > 0
  {
    Distribute(n, plus, a);
    assert 2 * (plus * a) == s * b;
    assert s * (b * (2 * f + 1)) == 2 * (s * b * f) + s * b;
    MulMono(1, s, b);
    if plus <= 0 {
      MulMono(plus, 0, a);
    }
  }

  lemma LowerDelta(n: int, minus: int, s: int, f: int, a: int, b: int, k: int)
    requires n * a == s * b * f && k * minus * a == s * b && a > 0 && b > 0 && s > 0 && f > 0 && k >= 2
    ensures 0 < minus < n
  {
    MulMono(1, s, b);
    var d := k * minus;
    if d <= 0 {
      MulMono(d, 0, a);
    }
    assert minus > 0 by {
      if minus <= 0 {
        MulMonoRight(k, minus, 0);
      }
    }
    MulMono(1, f, d * a);
    assert s * b * f == f * (d * a);
    MulLeInv(d, n, a);
    MulMono(2, k, minus);
  }

  lemma CompareScaled(u: int, s: int, m: int, a: int)
    requires 2 * (u * a) == s * m && a > 0 && s > 0
    ensures 2 * a <= 10 * m ==> s <= 10 * u
    ensures 2 * a < 10 * m ==> s < 10 * u
    ensures m < 20 * a ==> u < 10 * s
    ensures m <= 20 * a ==> u <= 10 * s
  {
    // Both sides are compared after multiplication by the positive s * a.
    assert 2 * (10 * u * a) == 10 * (s * m);
    CompareProducts(s, 10 * u, 2 * a, 10 * m, s, a);
    assert 2 * (u * a) == s * m && 2 * (10 * s * a) == s * (20 * a);
    CompareProducts(u, 10 * s, m, 20 * a, s, a);
  }

  /** When 2xa = sp and 2ya = sq, x and y compare like p and q. */
  lemma CompareProducts(x: int, y: int, p: int, q: int, s: int, a: int)
    requires a > 0 && s > 0 && 2 * (x * a) == s * p && 2 * (y * a) == s * q
    ensures p < q ==> x < y
    ensures p <= q ==> x <= y
  {
    if p <= q {
      MulMonoRight(s, p, q);
      MulLeInv(x, y, a);
      if p < q && x == y {
        assert s * p == s * q;
        MulStrictMono(p, q, s);
      }
    }
  }

  /** Twenty-two characters always suffice. */
  lemma {:induction false} BufferSuffices(v: Scaled, f: nat, e: int, closer: bool, ten: int, capacity: nat)
    requires Represents(v, f, e, closer, ten) && EstimateContract(f, e, ten)
    requires 0 < f < 0x1_0000_0000_0000_0000 && capacity >= 22
    ensures v.minus * Pow(10, capacity - 1) >= v.s
  {
    hide Up, Down, Pow;
    var a, b, k := Up(10, ten) * Down(2, e), Up(2, e) * Down(10, ten), if closer then 4 else 2;
    FactorsPositive(e, ten);
    PowMono(10, 21, capacity - 1);
    Pow10Table();
    PowAdd(10, 10, 10);
    PowAdd(10, 20, 1);
    var t := Pow(10, capacity - 1);
    MulMonoRight(b, 2 * f + 1, 0x2_0000_0000_0000_0000);
    MulMonoRight(b, 20 * 0x2_0000_0000_0000_0000, t);
    assert k * a <= b * t;
    LongEnough(v.minus, v.s, a, b, k, t);
  }

  lemma LongEnough(minus: int, s: int, a: int, b: int, k: int, t: int)
    requires k * minus * a == s * b && k * a <= b * t && k > 0 && a > 0 && s > 0 && b > 0
    ensures minus * t >= s
  {
    MulMonoRight(s, k * a, b * t);
    assert s * (b * t) == k * minus * a * t == minus * t * (k * a);
    MulMono(1, k, a);
    MulLeInv(s, minus * t, k * a);
  }

  /**
   * The shortest digits of f * 2^e: D / 10^(length-1) * 10^(decimalPoint-1) reads back as that number,
   * no shorter decimal does, and it is the closest of its length.
   */
  method ShortestDtoa(significand: uint64, exponent: int, lowerBoundaryIsCloser: bool, estimatedPower: int,
                      buffer: array<char>)
    returns (length: nat, decimalPoint: int, ghost v: Scaled)
    requires InRange(significand as int, exponent, estimatedPower)
    requires EstimateContract(significand as int, exponent, estimatedPower)
    requires buffer.Length >= 22
    modifies buffer
    ensures length <= buffer.Length && Shortest(v, buffer[..length])
    ensures Represents(v, significand as int, exponent, lowerBoundaryIsCloser, decimalPoint - 1)
    ensures v.isEven == (significand % 2 == 0) && InDecade(v)
  {
    hide V, P, Pow, Bignum.Valid, Bignum.Value, Represents, EstimateContract, InDecade, Shortest, AllValid;
    var numerator := new Bignum();
    var denominator := new Bignum();
    var deltaMinus := new Bignum();
    var deltaPlus := new Bignum();
    decimalPoint, v := StartInDecade(significand, exponent, lowerBoundaryIsCloser, estimatedPower,
                                     numerator, denominator, deltaMinus, deltaPlus, buffer.Length);
    length := GenerateShortestDigits(numerator, denominator, deltaMinus, deltaPlus, significand % 2 == 0, buffer, v);
  }

  /** The starting values with the decimal point in its place, and what a buffer needs to hold all digits. */
  method StartInDecade(significand: uint64, exponent: int, lowerBoundaryIsCloser: bool, estimatedPower: int,
                       numerator: Bignum, denominator: Bignum, deltaMinus: Bignum, deltaPlus: Bignum,
                       ghost capacity: nat)
    returns (decimalPoint: int, ghost v: Scaled)
    requires AllSeparate(numerator, denominator, deltaMinus, deltaPlus) && Separate(deltaMinus, deltaPlus)
    requires numerator.Valid() && denominator.Valid() && deltaMinus.Valid() && deltaPlus.Valid()
    requires InRange(significand as int, exponent, estimatedPower) && capacity >= 22
    requires EstimateContract(significand as int, exponent, estimatedPower)
    modifies numerator, numerator.bigits, denominator, denominator.bigits
    modifies deltaMinus, deltaMinus.bigits, deltaPlus, deltaPlus.bigits
    ensures AllValid(numerator, denominator, deltaMinus, deltaPlus, v.s) && InDecade(v)
    ensures v == Scaled(numerator.Value(), denominator.Value(), deltaMinus.Value(), deltaPlus.Value(),
                        significand % 2 == 0)
    ensures Represents(v, significand as int, exponent, lowerBoundaryIsCloser, decimalPoint - 1)
    ensures v.minus * Pow(10, capacity - 1) >= v.s
  {
    hide V, P, Pow, Up, Down, Bignum.Valid, Bignum.Value, Represents, EstimateIsClose, EstimateContract, InDecade,
         Moderate, AllValid;
    ghost var v0 := InitialScaledStartValues(significand, exponent, lowerBoundaryIsCloser, estimatedPower,
                                             numerator, denominator, deltaMinus, deltaPlus);
    ModerateRoom(numerator, denominator, deltaMinus, deltaPlus, v0.s);
    ContractIsEnough(v0, significand as int, exponent, lowerBoundaryIsCloser, estimatedPower);
    BufferSuffices(v0, significand as int, exponent, lowerBoundaryIsCloser, estimatedPower, capacity);
    TimesTenRepresents(v0, significand as int, exponent, lowerBoundaryIsCloser, estimatedPower);
    decimalPoint, v := FixupMultiply10(estimatedPower, significand % 2 == 0,
                                       numerator, denominator, deltaMinus, deltaPlus, v0);
    KeepsBuffer(v0, Pow(10, capacity - 1));
  }

  lemma {:induction false} ModerateRoom(numerator: Bignum, denominator: Bignum, deltaMinus: Bignum, deltaPlus: Bignum,
                                        s: nat)
    requires AllModerate(numerator, denominator, deltaMinus, deltaPlus) && denominator.Value() == s
    ensures AllValid(numerator, denominator, deltaMinus, deltaPlus, s)
  {
    hide V, P;
    PNext(60);
    PMono(61, CAPACITY + numerator.exponent);
    PMono(61, CAPACITY + denominator.exponent);
    PMono(61, CAPACITY + deltaMinus.exponent);
    PMono(61, CAPACITY + deltaPlus.exponent);
  }

  lemma KeepsBuffer(v: Scaled, t: int)
    requires v.minus * t >= v.s
    ensures TimesTen(v).minus * t >= v.s
  {
    assert 10 * v.minus * t == 10 * (v.minus * t);
  }
}
