/** Writing a double as its shortest decimal and reading that decimal gives the double back. */
module DoubleRoundTrip {
  import opened Powers
  import opened Decimal
  import opened Ieee
  import opened BignumFacts
  import opened BignumDtoa
  import opened BignumDtoaStart
  import opened ClosestDecimal
  import opened Strtod

  // ---------- the writer's interval is the reader's ----------

  /** A boundary of the digit generator, n = s * b * g / 4a, compared with D / t; t is a power of ten. */
  lemma BoundaryCompared(D: int, t: int, s: int, a: int, b: int, n: int, g: int)
    requires 4 * (n * a) == s * (b * g) && s > 0 && a > 0
    ensures Sign(D * s - n * t) == Sign(4 * (a * D) - t * (b * g))
  {
    MulCompare(D * s, n * t, 4 * a);
    MulCompare(4 * (a * D), t * (b * g), s);
    assert D * s * (4 * a) == 4 * (a * D) * s;
    assert n * t * (4 * a) == t * (4 * (n * a));
    assert t * (b * g) * s == t * (s * (b * g));
  }

  /** Up(2, e) * 2^1074 and the unit in the last place agree. */
  lemma UlpOf(d: Double)
    ensures Up(2, Exponent(d)) * UNITS == Ulp(d) * Down(2, Exponent(d))
  {
    hide Pow, Up, Down;
    var e := Exponent(d);
    UpDown(2, e);
    if e >= 0 {
      PowAdd(2, e, 1074);
    } else {
      PowAdd(2, e + 1074, -e);
    }
  }

  /** The reader compares 2 * D * 10^ex with twice the midpoint m; that is the writer's comparison. */
  lemma {:induction false} SideCompared(D: int, k: nat, ten: int, d: Double, m: int, g: int)
    requires 2 * m == g * Ulp(d)
    ensures var a, b := Up(10, ten) * Down(2, Exponent(d)), Up(2, Exponent(d)) * Down(10, ten);
            Side(D * Up(10, ten - k) * UNITS, Down(10, ten - k), m) == Sign(4 * (a * D) - Pow(10, k) * (b * g))
  {
    hide Pow, Up, Down, Ulp;
    var e, ex := Exponent(d), ten - k;
    ShiftExponent(ex, k);
    UlpOf(d);
    Rescaled(D, g, m, Pow(10, k), Up(10, ten), Down(10, ten), Up(10, ex), Down(10, ex), Up(2, e), Down(2, e), Ulp(d),
             UNITS);
  }

  lemma {:induction false} Rescaled(D: int, g: int, m: int, t: int, u: int, w: int, u': int, w': int, p: int, q: int,
                                    ulp: int, units: int)
    requires t * u' * w == u * w' && p * units == ulp * q && 2 * m == g * ulp
    requires t > 0 && w > 0 && q > 0 && units > 0 && w' > 0
    ensures Side(D * u' * units, w', m) == Sign(4 * (u * q * D) - t * (p * w * g))
  {
    var z := t * w * q;
    var left, right := 4 * (D * u' * units), g * ulp * w';
    Positive2(t * w, q, t, w);
    Positive2(units, w', units, w');
    LeftRescaled(D, t, u, w, u', w', q, units);
    RightRescaled(g, t, w, w', p, q, ulp, units);
    MulCompare(left, right, z);
    MulCompare(4 * (u * q * D), t * (p * w * g), units * w');
    DoubleSide(D * u' * units, w', m, g * ulp);
  }

  lemma DoubleSide(x: int, w: int, m: int, m2: int)
    requires 2 * m == m2
    ensures Side(x, w, m) == Sign(4 * x - m2 * w)
  {
    assert 2 * (m * w) == m2 * w;
  }

  lemma LeftRescaled(D: int, t: int, u: int, w: int, u': int, w': int, q: int, units: int)
    requires t * u' * w == u * w'
    ensures 4 * (D * u' * units) * (t * w * q) == 4 * (u * q * D) * (units * w')
  {
    var r := D * units * q;
    assert 4 * (D * u' * units) * (t * w * q) == 4 * (r * (t * u' * w));
    assert 4 * (u * q * D) * (units * w') == 4 * (r * (u * w'));
  }

  lemma RightRescaled(g: int, t: int, w: int, w': int, p: int, q: int, ulp: int, units: int)
    requires p * units == ulp * q
    ensures g * ulp * w' * (t * w * q) == t * (p * w * g) * (units * w')
  {
    var r := g * w' * t * w;
    assert g * ulp * w' * (t * w * q) == r * (ulp * q);
    assert t * (p * w * g) * (units * w') == r * (p * units);
  }

  lemma Positive2(a: int, b: int, c: int, d: int)
    requires b > 0 && c > 0 && d > 0 && (a == c || a == c * d)
    ensures a * b > 0 && c * d > 0
  {
    MulStrictMono(0, c, d);
    MulStrictMono(0, a, b);
  }

  lemma {:induction false} UpperCompared(v: Scaled, D: int, k: nat, ten: int, d: Double)
    requires d < INFINITY && Significand(d) > 0
    requires Represents(v, Significand(d) as nat, Exponent(d), LowerBoundaryIsCloser(d), ten)
    ensures Side(D * Up(10, ten - k) * UNITS, Down(10, ten - k), Mid(d)) == Sign(D * v.s - (v.n + v.plus) * Pow(10, k))
  {
    hide Pow, Up, Down, Ulp, Mid, LowerBoundaryIsCloser;
    var f, e := Significand(d) as int, Exponent(d);
    var a, b := Up(10, ten) * Down(2, e), Up(2, e) * Down(10, ten);
    FactorsPositive(e, ten);
    BignumDtoaStart.UpperBoundary(v.n, v.plus, v.s, f, a, b);
    UpperBoundaryIsMidpoint(d);
    Doubled(v.n + v.plus, a, v.s, b, 2 * f + 1);
    assert 2 * ((2 * f + 1) * Ulp(d)) == 2 * (2 * f + 1) * Ulp(d);
    BoundaryCompared(D, Pow(10, k), v.s, a, b, v.n + v.plus, 2 * (2 * f + 1));
    SideCompared(D, k, ten, d, Mid(d), 2 * (2 * f + 1));
  }

  lemma Doubled(n: int, a: int, s: int, b: int, g: int)
    requires 2 * (n * a) == s * (b * g)
    ensures 4 * (n * a) == s * (b * (2 * g))
  {
    assert b * (2 * g) == 2 * (b * g);
    assert s * (2 * (b * g)) == 2 * (s * (b * g));
  }

  lemma {:induction false} LowerCompared(v: Scaled, D: int, k: nat, ten: int, d: Double)
    requires 0 < d < INFINITY
    requires Represents(v, Significand(d) as nat, Exponent(d), LowerBoundaryIsCloser(d), ten)
    ensures Side(D * Up(10, ten - k) * UNITS, Down(10, ten - k), Mid(d - 1))
            == Sign(D * v.s - (v.n - v.minus) * Pow(10, k))
  {
    hide Pow, Up, Down, Ulp, Mid, LowerBoundaryIsCloser;
    var f, e, closer := Significand(d) as int, Exponent(d), LowerBoundaryIsCloser(d);
    var a, b := Up(10, ten) * Down(2, e), Up(2, e) * Down(10, ten);
    var g := if closer then 4 * f - 1 else 4 * f - 2;
    FactorsPositive(e, ten);
    LowerNeighbour(d);
    LowerMid(f, Ulp(d), Ulp(d - 1), Mid(d - 1), closer);
    LowerScaled(v.n, v.minus, v.s, f, a, b, closer);
    BoundaryCompared(D, Pow(10, k), v.s, a, b, v.n - v.minus, g);
    SideCompared(D, k, ten, d, Mid(d - 1), g);
  }

  lemma LowerMid(f: int, ulp: int, lower: int, m: int, closer: bool)
    requires ulp == (if closer then 2 * lower else lower) && m == 2 * (f * ulp) - lower
    ensures 2 * m == (if closer then 4 * f - 1 else 4 * f - 2) * ulp
  {
    Distribute(4 * f, if closer then 1 else 2, ulp);
    assert 4 * f * ulp == 4 * (f * ulp);
  }

  lemma LowerScaled(n: int, minus: int, s: int, f: int, a: int, b: int, closer: bool)
    requires n * a == s * b * f && (if closer then 4 else 2) * minus * a == s * b
    ensures 4 * ((n - minus) * a) == s * (b * (if closer then 4 * f - 1 else 4 * f - 2))
  {
    Distribute(n, minus, a);
    var j := if closer then 1 else 2;
    assert s * (b * (4 * f - j)) == 4 * (s * b * f) - j * (s * b);
    assert 4 * (minus * a) == j * (s * b);
  }

  /** c / 10^k is inside the writer's interval exactly when c * 10^(ten-k) is inside d's rounding interval. */
  lemma {:induction false} IntervalsAgree(v: Scaled, c: int, k: nat, ten: int, d: Double)
    requires 0 < d < INFINITY && v.isEven == (Significand(d) % 2 == 0)
    requires Represents(v, Significand(d) as nat, Exponent(d), LowerBoundaryIsCloser(d), ten)
    ensures InInterval(v, c, k) <==> Nearest(c * Up(10, ten - k) * UNITS, Down(10, ten - k), d)
  {
    hide Pow, Up, Down, Ulp, Mid, LowerBoundaryIsCloser, Represents, Side, Nearest;
    if Significand(d) == 0 {
      ZeroSignificand(d);
    }
    UpperCompared(v, c, k, ten, d);
    LowerCompared(v, c, k, ten, d);
    NearestIffInside(c * Up(10, ten - k) * UNITS, Down(10, ten - k), d);
  }

  lemma ZeroSignificand(d: Double)
    requires Significand(d) == 0
    ensures d == 0
  {
  }

  // ---------- the estimate's range ----------

  lemma SmallPositivePower(f: nat, e: int, ten: int)
    requires f < 0x20_0000_0000_0000 && e < 0
             && Up(10, ten) * Down(2, e) <= 5 * (Up(2, e) * Down(10, ten) * (2 * f + 1))
    ensures ten <= 20
  {
    hide Pow, Up, Down;
    UpDown(10, ten);
    UpDown(2, e);
    if ten > 20 {
      Pow10Table();
      PowAdd(10, 10, 10);
      PowMono(10, 20, ten);
      MulMonoRight(Up(10, ten), 1, Down(2, e));
    }
  }

  lemma NoNegativePower(f: nat, e: int, ten: int)
    requires f > 0 && e >= 0 && Up(2, e) * Down(10, ten) * (2 * f + 1) <= 20 * (Up(10, ten) * Down(2, e))
    ensures ten >= 0
  {
    hide Pow, Up, Down;
    UpDown(10, ten);
    UpDown(2, e);
    if ten < 0 {
      Pow10Table();
      PowMono(10, 1, -ten);
      MulMono(1, Up(2, e), Down(10, ten));
      MulMonoRight(Up(2, e) * Down(10, ten), 3, 2 * f + 1);
    }
  }

  lemma PowerNotTooLarge(f: nat, e: int, ten: int)
    requires f < 0x20_0000_0000_0000 && e <= 971
    requires Up(10, ten) * Down(2, e) <= 5 * (Up(2, e) * Down(10, ten) * (2 * f + 1))
    ensures ten <= 310
  {
    hide Pow, Up, Down;
    UpDown(10, ten);
    UpDown(2, e);
    if ten > 310 {
      PowersMeet();
      Pow10Table();
      PowMono(10, 311, ten);
      PowAdd(10, 309, 2);
      Below54();
      PowZero(2);
      PowMono(2, if e > 0 then e else 0, 971);
      PowAdd(2, 971, 54);
      PowStep(2, 1024);
      MulBoth(Up(2, e), Pow(2, 971), 2 * f + 1, Pow(2, 54));
      MulMonoRight(Up(10, ten), 1, Down(2, e));
    }
  }

  lemma PowerNotTooSmall(f: nat, e: int, ten: int)
    requires f > 0 && e >= -1074 && Up(2, e) * Down(10, ten) * (2 * f + 1) <= 20 * (Up(10, ten) * Down(2, e))
    ensures ten >= -325
  {
    hide Pow, Up, Down;
    UpDown(10, ten);
    UpDown(2, e);
    if ten < -325 {
      PowersMeet();
      Pow10Table();
      PowMono(10, 326, -ten);
      PowAdd(10, 324, 2);
      PowMono(2, if e < 0 then -e else 0, 1075);
      PowZero(2);
      MulMono(1, Up(2, e), Down(10, ten));
      MulMonoRight(Up(2, e) * Down(10, ten), 1, 2 * f + 1);
    }
  }

  /** A good estimate is in the range the bignums are made for. */
  lemma EstimateInRange(d: Double, ten: int)
    requires 0 < d < INFINITY && EstimateContract(Significand(d) as nat, Exponent(d), ten)
    ensures InRange(Significand(d) as nat, Exponent(d), ten)
  {
    hide Pow, Up, Down;
    var f, e := Significand(d) as nat, Exponent(d);
    if f == 0 {
      ZeroSignificand(d);
    }
    LargestExponent(d);
    PowerNotTooLarge(f, e, ten);
    PowerNotTooSmall(f, e, ten);
    if e < 0 {
      SmallPositivePower(f, e, ten);
    } else {
      NoNegativePower(f, e, ten);
    }
  }

  lemma LargestExponent(d: Double)
    requires d < INFINITY
    ensures -1074 <= Exponent(d) <= 971
  {
  }

  // ---------- there and back ----------

  /** A decimal that would have to start above the first digit's position is outside. */
  lemma {:induction false} AboveFirstDigit(v: Scaled, other: seq<char>, ten: int, exponent: int, d: Double)
    requires 0 < d < INFINITY && v.isEven == (Significand(d) % 2 == 0) && InDecade(v)
    requires Represents(v, Significand(d) as nat, Exponent(d), LowerBoundaryIsCloser(d), ten)
    requires AllDigits(other) && exponent > ten
    ensures !ReadsAs(other, exponent, d)
  {
    hide Pow, DecVal, Nearest, Represents, Significand, Exponent, LowerBoundaryIsCloser, InInterval, Up, Down;
    var c, t := DecVal(other), Pow(10, exponent - ten);
    DecValBound(other);
    OutsideDecade(v, c, exponent - ten);
    IntervalsAgree(v, c * t, 0, ten, d);
    ShiftExponent(ten, exponent - ten);
    MovedFactor(c, t, Up(10, ten), Down(10, exponent), Up(10, exponent), Down(10, ten));
    SameQuotient(c * t * Up(10, ten) * UNITS, Down(10, ten), c * Up(10, exponent) * UNITS, Down(10, exponent), d);
  }

  lemma {:induction false} OutsideDecade(v: Scaled, c: nat, i: nat)
    requires InDecade(v) && i > 0
    ensures !InInterval(v, c * Pow(10, i), 0)
  {
    PowZero(10);
    PowStep(10, i - 1);
    if c > 0 {
      MulMono(1, Pow(10, i - 1), c);
      MulMono(10, c * Pow(10, i), v.s);
    }
  }

  /** No decimal with fewer digits reads back as d. */
  lemma {:induction false} NothingShorterReadsBack(v: Scaled, digits: seq<char>, ten: int, other: seq<char>,
                                                   exponent: int, d: Double)
    requires 0 < d < INFINITY && v.isEven == (Significand(d) % 2 == 0) && InDecade(v) && Shortest(v, digits)
    requires Represents(v, Significand(d) as nat, Exponent(d), LowerBoundaryIsCloser(d), ten)
    requires AllDigits(other) && |other| < |digits|
    ensures !ReadsAs(other, exponent, d)
  {
    hide Pow, DecVal, Nearest, Represents, Significand, Exponent, LowerBoundaryIsCloser, InDecade, InInterval;
    if exponent > ten {
      AboveFirstDigit(v, other, ten, exponent, d);
    } else {
      IntervalsAgree(v, DecVal(other), ten - exponent, ten, d);
      DecValBound(other);
      PowMono(10, |other|, |digits| - 1);
    }
  }

  // ---------- the closest one of its length ----------

  /** digits * 10^exponent is no farther from d than other * 10^otherExponent. */
  ghost predicate NoFartherFrom(d: Double, digits: seq<char>, exponent: int, other: seq<char>, otherExponent: int) {
    Dist(DecVal(digits) * Up(10, exponent) * UNITS, Down(10, exponent), d) * Down(10, otherExponent)
    <= Dist(DecVal(other) * Up(10, otherExponent) * UNITS, Down(10, otherExponent), d) * Down(10, exponent)
  }

  /** The scaled number v / 10^ten and the double are the same. */
  lemma SameNumber(v: Scaled, ten: int, d: Double)
    requires Represents(v, Significand(d) as nat, Exponent(d), LowerBoundaryIsCloser(d), ten)
    ensures Val(d) * (v.s * Down(10, ten)) == v.n * (Up(10, ten) * UNITS)
  {
    hide Pow, Up, Down, Ulp, LowerBoundaryIsCloser;
    var e := Exponent(d);
    UlpOf(d);
    CancelDown(v.n, v.s, Significand(d) as int, Up(10, ten), Down(10, ten), Up(2, e), Down(2, e), UNITS, Ulp(d));
  }

  lemma CancelDown(n: int, s: int, f: int, u: int, w: int, p: int, q: int, units: int, ulp: int)
    requires q > 0 && n * (u * q) == s * (p * w) * f && p * units == ulp * q
    ensures f * ulp * (s * w) == n * (u * units)
  {
    var x, y := f * ulp * (s * w), n * (u * units);
    assert y * q == n * (u * q) * units;
    assert s * (p * w) * f * units == s * w * f * (p * units);
    assert s * w * f * (ulp * q) == x * q;
    if x < y {
      MulStrictMono(x, y, q);
    } else if y < x {
      MulStrictMono(y, x, q);
    }
  }

  /** The generator's distance is the reader's, scaled. */
  lemma DistanceScaled(v: Scaled, c: int, k: nat, ten: int, d: Double)
    requires Represents(v, Significand(d) as nat, Exponent(d), LowerBoundaryIsCloser(d), ten)
    ensures Dist(c * Up(10, ten - k) * UNITS, Down(10, ten - k), d) * (v.s * Down(10, ten) * Pow(10, k))
            == Distance(v, c, k) * (Up(10, ten) * UNITS * Down(10, ten - k))
  {
    hide Pow, Up, Down, Val, LowerBoundaryIsCloser;
    SameNumber(v, ten, d);
    ShiftExponent(ten - k, k);
    ScaleDistance(c, v.n, v.s, Val(d), Pow(10, k), Up(10, ten), Down(10, ten),
                  Up(10, ten - k), Down(10, ten - k), UNITS);
  }

  lemma ScaleDistance(c: int, n: int, s: int, val: int, t: int, u: int, w: int, u': int, w': int, units: int)
    requires s > 0 && t > 0 && u > 0 && w > 0 && w' > 0 && units > 0
    requires val * (s * w) == n * (u * units) && t * u' * w == u * w'
    ensures var x, y := c * u' * units - val * w', c * s - n * t;
            (if x < 0 then -x else x) * (s * w * t) == (if y < 0 then -y else y) * (u * units * w')
  {
    var x, y := c * u' * units - val * w', c * s - n * t;
    SignedScale(c, n, s, val, t, u, w, u', w', units);
    MulPositive(s, w, t);
    MulPositive(u, units, w');
    SameSize(x, y, s * w * t, u * units * w');
  }

  lemma SignedScale(c: int, n: int, s: int, val: int, t: int, u: int, w: int, u': int, w': int, units: int)
    requires val * (s * w) == n * (u * units) && t * u' * w == u * w'
    ensures (c * u' * units - val * w') * (s * w * t) == (c * s - n * t) * (u * units * w')
  {
    assert c * u' * units * (s * w * t) == c * s * units * (t * u' * w);
    assert c * s * units * (u * w') == c * s * (u * units * w');
    assert val * w' * (s * w * t) == val * (s * w) * (w' * t);
    assert n * (u * units) * (w' * t) == n * t * (u * units * w');
    Distribute(c * u' * units, val * w', s * w * t);
    Distribute(c * s, n * t, u * units * w');
  }

  lemma MulPositive(a: int, b: int, c: int)
    requires a > 0 && b > 0 && c > 0
    ensures a * b * c > 0
  {
    MulStrictMono(0, a, b);
    MulStrictMono(0, a * b, c);
  }

  lemma SameSize(x: int, y: int, p: int, q: int)
    requires p > 0 && q > 0 && x * p == y * q
    ensures (if x < 0 then -x else x) * p == (if y < 0 then -y else y) * q
  {
    if x < 0 && y >= 0 {
      MulStrictMono(x, 0, p);
      MulMono(0, y, q);
    } else if x >= 0 && y < 0 {
      MulMono(0, x, p);
      MulStrictMono(y, 0, q);
    }
  }

  lemma InPairs(x: int, r: int, k: int, p: int, q: int)
    ensures x * r * (k * p * q) == x * (k * p) * (r * q)
  {
  }

  lemma Regrouped(a: int, m: int, t: int, r: int, q: int)
    ensures a * (m * t) * (r * q) == a * q * (m * t * r)
  {
  }

  /** Distances compared by the generator, and the same compared by the reader. */
  lemma DistancesCompared(a: int, b: int, x: int, y: int, m: int, k: int, t: int, r: int, p: int, q: int)
    requires m > 0 && k > 0 && t > 0 && r > 0 && p > 0 && q > 0
    requires a * (m * t) == x * (k * p) && b * (m * r) == y * (k * q) && x * r <= y * t
    ensures a * q <= b * p
  {
    MulPositive(k, p, q);
    MulMono(x * r, y * t, k * p * q);
    InPairs(x, r, k, p, q);
    InPairs(y, t, k, q, p);
    assert k * p * q == k * q * p && m * t * r == m * r * t;
    Regrouped(a, m, t, r, q);
    Regrouped(b, m, r, t, p);
    MulPositive(m, t, r);
    MulLeInv(a * q, b * p, m * t * r);
  }

  /** No decimal with as many digits or fewer that reads back as d is closer to it. */
  lemma NothingCloserReadsBack(v: Scaled, digits: seq<char>, ten: int, other: seq<char>, exponent: int, d: Double)
    requires 0 < d < INFINITY && v.isEven == (Significand(d) % 2 == 0) && InDecade(v) && Shortest(v, digits)
    requires Represents(v, Significand(d) as nat, Exponent(d), LowerBoundaryIsCloser(d), ten)
    requires AllDigits(other) && |other| <= |digits| && ReadsAs(other, exponent, d)
    ensures NoFartherFrom(d, digits, ten + 1 - |digits|, other, exponent)
  {
    hide Pow, Up, Down, DecVal, Nearest, Represents, Significand, Exponent, LowerBoundaryIsCloser, InDecade, InInterval,
         Dist, Distance, Skewed;
    if exponent > ten {
      AboveFirstDigit(v, other, ten, exponent, d);
    } else {
      var k, j := |digits| - 1, ten - exponent;
      var D, c := DecVal(digits), DecVal(other);
      IntervalsAgree(v, c, j, ten, d);
      DecValBound(other);
      PowMono(10, |other|, |digits|);
      NeverSkewed(v, d, ten);
      ClosestOfItsLength(v, digits);
      DistanceScaled(v, D, k, ten, d);
      DistanceScaled(v, c, j, ten, d);
      ScalesPositive(v, d, ten);
      DistancesCompared(Dist(D * Up(10, ten - k) * UNITS, Down(10, ten - k), d),
                        Dist(c * Up(10, exponent) * UNITS, Down(10, exponent), d),
                        Distance(v, D, k), Distance(v, c, j), v.s * Down(10, ten), Up(10, ten) * UNITS,
                        Pow(10, k), Pow(10, j), Down(10, ten - k), Down(10, exponent));
    }
  }

  lemma ScalesPositive(v: Scaled, d: Double, ten: int)
    requires Represents(v, Significand(d) as nat, Exponent(d), LowerBoundaryIsCloser(d), ten)
    ensures v.s * Down(10, ten) > 0 && Up(10, ten) * UNITS > 0
  {
    hide Pow, Up, Down, LowerBoundaryIsCloser;
    MulStrictMono(0, v.s, Down(10, ten));
    MulStrictMono(0, Up(10, ten), UNITS);
  }

  /** The shortest decimal of d, and what Strtod makes of it. */
  method WriteAndRead(d: Double, estimatedPower: int, floatingPoint: (seq<char>, int) -> Guess, buffer: array<char>)
    returns (digits: seq<char>, decimalPoint: int, back: Double)
    requires 0 < d < INFINITY && buffer.Length >= 22
    requires EstimateContract(Significand(d) as nat, Exponent(d), estimatedPower) && Reliable(floatingPoint)
    modifies buffer
    ensures back == d
    ensures ReadsAs(digits, decimalPoint - |digits|, d)
    ensures forall other: seq<char>, e: int :: AllDigits(other) && |other| < |digits| ==> !ReadsAs(other, e, d)
    ensures forall other: seq<char>, e: int ::
              AllDigits(other) && |other| <= |digits| && ReadsAs(other, e, d)
              ==> NoFartherFrom(d, digits, decimalPoint - |digits|, other, e)
  {
    hide InRange, EstimateContract, Reliable, Represents, Nearest, LowerBoundaryIsCloser, Significand, Exponent,
         DecVal, Pow, AllDigits, InDecade, InInterval, NoFartherFrom;
    EstimateInRange(d, estimatedPower);
    var length;
    ghost var v;
    length, decimalPoint, v := ShortestDtoa(Significand(d), Exponent(d), LowerBoundaryIsCloser(d), estimatedPower,
                                            buffer);
    digits := buffer[..length];
    IntervalsAgree(v, DecVal(digits), length - 1, decimalPoint - 1, d);
    assert ReadsAs(digits, decimalPoint - length, d) by {
      assert decimalPoint - 1 - (length - 1) == decimalPoint - length;
    }
    forall other: seq<char>, e: int | AllDigits(other) && |other| < |digits| ensures !ReadsAs(other, e, d) {
      NothingShorterReadsBack(v, digits, decimalPoint - 1, other, e, d);
    }
    forall other: seq<char>, e: int | AllDigits(other) && |other| <= |digits| && ReadsAs(other, e, d)
      ensures NoFartherFrom(d, digits, decimalPoint - |digits|, other, e)
    {
      NothingCloserReadsBack(v, digits, decimalPoint - 1, other, e, d);
    }
    back := Strtod.Strtod(digits, decimalPoint - length, floatingPoint);
  }
}
