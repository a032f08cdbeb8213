/** The non-negative IEEE doubles, given by their bit patterns, and what they stand for. */
module Ieee {
  import opened Powers
  import opened Words

  /** f * 2^e. */
  datatype DiyFp = DiyFp(f: uint64, e: int)

  const HIDDEN_BIT := 0x10_0000_0000_0000
  const EXPONENT_BIAS := 0x3FF + 52
  const DENORMAL_EXPONENT := 1 - EXPONENT_BIAS
  const INFINITY: int := 0x7FF0_0000_0000_0000

  /** The bit patterns of the doubles from +0.0 up to infinity; their order is that of the numbers. */
  type Double = d: int | 0 <= d <= 0x7FF0_0000_0000_0000

  predicate IsDenormal(d: Double) {
    d / HIDDEN_BIT == 0
  }

  function Significand(d: Double): (f: uint64)
    ensures f as int < 2 * HIDDEN_BIT
  {
    if IsDenormal(d) then (d % HIDDEN_BIT) as uint64 else (d % HIDDEN_BIT + HIDDEN_BIT) as uint64
  }

  function Exponent(d: Double): (e: int)
    ensures DENORMAL_EXPONENT <= e <= 972
  {
    if IsDenormal(d) then DENORMAL_EXPONENT else d / HIDDEN_BIT - EXPONENT_BIAS
  }

  function NextDouble(d: Double): Double {
    if d == INFINITY then d else d + 1
  }

  /** Halfway to the next double. */
  function UpperBoundary(d: Double): DiyFp {
    DiyFp(Significand(d) * 2 + 1, Exponent(d) - 1)
  }

  predicate LowerBoundaryIsCloser(d: Double) {
    d % HIDDEN_BIT == 0 && Exponent(d) != DENORMAL_EXPONENT
  }

  // ---------- the numbers, in units of the smallest denormal, 2^-1074 ----------

  /** The double's distance to its successor. */
  ghost function Ulp(d: Double): (r: nat)
    ensures r > 0
  {
    Pow(2, Exponent(d) - DENORMAL_EXPONENT)
  }

  /** The number itself; infinity's pattern reads as 2^1024. */
  ghost function Val(d: Double): nat {
    Significand(d) as int * Ulp(d)
  }

  /** The format of section 3.4 of IEEE 754: 52 bits of fraction, and exponents offset by 1023. */
  lemma FormatIsIeee754(d: Double)
    requires d < INFINITY
    ensures var biased, fraction := d / 0x10_0000_0000_0000, d % 0x10_0000_0000_0000;
            Val(d) == if biased == 0 then fraction else (0x10_0000_0000_0000 + fraction) * Pow(2, biased - 1)
    ensures d >= 0x10_0000_0000_0000 ==> Exponent(d) == d / 0x10_0000_0000_0000 - 1023 - 52
    ensures Exponent(0) == -1074
  {
    PowZero(2);
  }

  /** Twice the number halfway between d and the next double. */
  ghost function Mid(d: Double): nat
    requires d < INFINITY
  {
    Val(d) + Val(d + 1)
  }

  /** The successor's pattern is one higher in every case: denormals, the first normal, binades, infinity. */
  lemma NextIsOneUlpUp(d: Double)
    requires d < INFINITY
    ensures Val(d + 1) == Val(d) + Ulp(d)
  {
    hide Pow;
    var f, g := Significand(d) as int, Significand(d + 1) as int;
    Distribute(f, 1, Ulp(d));
    if g != f + 1 {
      // Into the next binade: the significand starts over at the hidden bit, twice as heavy.
      Carry(d);
      PowStep(2, Exponent(d) - DENORMAL_EXPONENT);
      MulAssoc(g, 2, Ulp(d));
    }
  }

  lemma Carry(d: Double)
    requires d < INFINITY && Significand(d + 1) != Significand(d) + 1
    ensures Significand(d) as int == 2 * HIDDEN_BIT - 1 && Significand(d + 1) as int == HIDDEN_BIT
    ensures Exponent(d + 1) == Exponent(d) + 1
  {
  }

  /** The order of the patterns is the order of the numbers. */
  lemma {:induction false} ValIsMonotone(c: Double, d: Double)
    requires c < d
    ensures Val(c) < Val(d)
    decreases d
  {
    hide Val, Ulp;
    NextIsOneUlpUp(d - 1);
    if c < d - 1 {
      ValIsMonotone(c, d - 1);
    }
  }

  /** The upper boundary is the exact midpoint. */
  lemma UpperBoundaryIsMidpoint(d: Double)
    requires d < INFINITY
    ensures Exponent(d) - 1 >= -1075
    ensures Mid(d) == UpperBoundary(d).f as int * Pow(2, UpperBoundary(d).e + 1075)
            == (2 * Significand(d) as int + 1) * Ulp(d)
  {
    hide Pow;
    NextIsOneUlpUp(d);
    Distribute(2 * Significand(d) as int, 1, Ulp(d));
    MulAssoc(2, Significand(d) as int, Ulp(d));
  }

  /** The predecessor is half as far away exactly when the code says so. */
  lemma LowerNeighbour(d: Double)
    requires 0 < d < INFINITY
    ensures Ulp(d) == if LowerBoundaryIsCloser(d) then 2 * Ulp(d - 1) else Ulp(d - 1)
    ensures Mid(d - 1) == 2 * Val(d) - Ulp(d - 1)
  {
    hide Pow;
    NextIsOneUlpUp(d - 1);
    if LowerBoundaryIsCloser(d) {
      assert Exponent(d) == Exponent(d - 1) + 1;
      PowStep(2, Exponent(d - 1) - DENORMAL_EXPONENT);
    } else {
      assert Exponent(d) == Exponent(d - 1);
    }
  }

  lemma NeighboursAlternate(d: Double)
    ensures Significand(d) % 2 == 0 <==> d % 2 == 0
  {
    DivMod(d, HIDDEN_BIT);
  }

  // ---------- rounding ----------

  ghost function Dist(x: int, den: int, d: Double): nat {
    if x < Val(d) * den then Val(d) * den - x else x - Val(d) * den
  }

  /** x/den is nearer to d than to c, or equally near and d's significand is even. */
  ghost predicate Prefers(x: int, den: int, d: Double, c: Double) {
    Dist(x, den, d) < Dist(x, den, c) || (Dist(x, den, d) == Dist(x, den, c) && Significand(d) % 2 == 0)
  }

  /** d is the double nearest to x/den (in units of 2^-1074), ties going to the even significand. */
  ghost predicate Nearest(x: int, den: int, d: Double) {
    forall c: Double :: c != d ==> Prefers(x, den, d, c)
  }

  /** Whether 2x/den is above (1), on (0) or below (-1) a number. */
  ghost function Side(x: int, den: int, m: int): int {
    if 2 * x < m * den then -1 else if 2 * x > m * den then 1 else 0
  }

  /** x/den is inside d's rounding interval, whose ends belong to it when d's significand is even. */
  ghost predicate InRoundingInterval(x: int, den: int, d: Double) {
    && (d > 0 ==> Side(x, den, Mid(d - 1)) > 0 || (Side(x, den, Mid(d - 1)) == 0 && Significand(d) % 2 == 0))
    && (d < INFINITY ==> Side(x, den, Mid(d)) < 0 || (Side(x, den, Mid(d)) == 0 && Significand(d) % 2 == 0))
  }

  /** Of two doubles, the side of their midpoint decides. */
  lemma MidpointDecides(x: int, den: int, c: Double, d: Double)
    requires den > 0 && c < d
    ensures Dist(x, den, d) - Dist(x, den, c) > 0 <==> Side(x, den, Val(c) + Val(d)) < 0
    ensures Dist(x, den, d) == Dist(x, den, c) <==> Side(x, den, Val(c) + Val(d)) == 0
  {
    hide Val;
    ValIsMonotone(c, d);
    MulStrictMono(Val(c), Val(d), den);
    Distribute(Val(c), Val(d), den);
  }

  lemma SideMono(x: int, den: int, m: int, n: int)
    requires den > 0 && m < n
    ensures Side(x, den, n) >= 0 ==> Side(x, den, m) > 0
    ensures Side(x, den, m) <= 0 ==> Side(x, den, n) < 0
  {
    MulStrictMono(m, n, den);
  }

  lemma {:induction false} InsidePrefers(x: int, den: int, d: Double, c: Double)
    requires den > 0 && InRoundingInterval(x, den, d) && c != d
    ensures Prefers(x, den, d, c)
  {
    hide Val, Side, Dist;
    if c < d {
      MidpointDecides(x, den, c, d);
      if c < d - 1 {
        ValIsMonotone(c, d - 1);
        SideMono(x, den, Val(c) + Val(d), Mid(d - 1));
      }
    } else {
      MidpointDecides(x, den, d, c);
      if d + 1 < c {
        ValIsMonotone(d + 1, c);
        SideMono(x, den, Mid(d), Val(c) + Val(d));
      }
    }
  }

  /** Being nearest is being inside the rounding interval. */
  lemma NearestIffInside(x: int, den: int, d: Double)
    requires den > 0
    ensures Nearest(x, den, d) <==> InRoundingInterval(x, den, d)
  {
    hide Val, Side, Dist;
    if InRoundingInterval(x, den, d) {
      forall c: Double | c != d ensures Prefers(x, den, d, c) {
        InsidePrefers(x, den, d, c);
      }
    }
    if Nearest(x, den, d) {
      if d > 0 {
        MidpointDecides(x, den, d - 1, d);
        assert Prefers(x, den, d, d - 1);
      }
      if d < INFINITY {
        MidpointDecides(x, den, d, d + 1);
        assert Prefers(x, den, d, d + 1);
      }
    }
  }

  /** There is only one nearest double. */
  lemma NearestIsUnique(x: int, den: int, c: Double, d: Double)
    requires den > 0 && Nearest(x, den, c) && Nearest(x, den, d)
    ensures c == d
  {
    hide Val, Dist, Side;
    if c < d {
      NotBoth(x, den, c, d);
    } else if d < c {
      NotBoth(x, den, d, c);
    }
  }

  lemma NotBoth(x: int, den: int, c: Double, d: Double)
    requires den > 0 && c < d
    ensures !(Nearest(x, den, c) && Nearest(x, den, d))
  {
    hide Val, Dist, Side;
    if Nearest(x, den, c) && Nearest(x, den, d) {
      assert Prefers(x, den, c, d) && Prefers(x, den, d, c);
      NeighboursAlternate(c);
      NeighboursAlternate(d);
      // Both even, so there is a double between them, and it is nearer than either.
      NearestIffInside(x, den, c);
      NearestIffInside(x, den, d);
      ValIsMonotone(c, d - 1);
      ValIsMonotone(c + 1, d);
      SideMono(x, den, Mid(c), Mid(d - 1));
    }
  }

  /** Two fractions that are on the same side of every midpoint round to the same double. */
  lemma SameSides(x: int, a: int, y: int, b: int, d: Double)
    requires a > 0 && b > 0
    requires forall c: Double :: c < INFINITY ==> Side(x, a, Mid(c)) == Side(y, b, Mid(c))
    ensures Nearest(x, a, d) <==> Nearest(y, b, d)
  {
    hide Mid, Side, Nearest;
    NearestIffInside(x, a, d);
    NearestIffInside(y, b, d);
  }

  /** Only the quotient matters. */
  lemma {:induction false} SameQuotient(x: int, a: int, y: int, b: int, d: Double)
    requires a > 0 && b > 0 && x * b == y * a
    ensures Nearest(x, a, d) <==> Nearest(y, b, d)
  {
    hide Mid, Side, Nearest;
    forall c: Double | c < INFINITY ensures Side(x, a, Mid(c)) == Side(y, b, Mid(c)) {
      SideOfQuotient(x, a, y, b, Mid(c));
    }
    SameSides(x, a, y, b, d);
  }

  lemma SideOfQuotient(x: int, a: int, y: int, b: int, m: int)
    requires a > 0 && b > 0 && x * b == y * a
    ensures Side(x, a, m) == Side(y, b, m)
  {
    assert 2 * x * b == 2 * y * a && m * a * b == m * b * a;
    MulCompare(2 * x, m * a, b);
    MulCompare(2 * y, m * b, a);
  }
}
