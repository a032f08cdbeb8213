/**
 * The digit generator compares candidates of one decimal position. Here is when its answer is also the closest among
 * all decimals with as many digits, wherever their point stands: always with two digits or more, and with one digit
 * exactly if 0.9 does not get in the way. For doubles it never does.
 */
module ClosestDecimal {
  import opened Powers
  import opened Decimal
  import opened Ieee
  import opened BignumDtoa
  import opened BignumDtoaStart

  // ---------- numbers scaled to one digit before the point ----------

  /** No decimal of that many digits that reads back as v, at any position, is closer to v. */
  ghost predicate Closest(v: Scaled, digits: seq<char>) {
    forall c: nat, j: nat :: InInterval(v, c, j) && c < Pow(10, |digits|) ==> NoFarther(v, digits, c, j)
  }

  ghost predicate NoFarther(v: Scaled, digits: seq<char>, c: int, j: nat) {
    digits != [] && Distance(v, DecVal(digits), |digits| - 1) * Pow(10, j) <= Distance(v, c, j) * Pow(10, |digits| - 1)
  }

  /** 0.9 is inside the interval, which reaches up to 1, and v is closer to it than to 1. */
  ghost predicate Skewed(v: Scaled) { InInterval(v, 9, 1) && 20 * v.n < 19 * v.s }

  /** Numbers from 10 on are outside. */
  lemma TenOrMore(v: Scaled, c: nat, j: nat)
    requires InDecade(v) && c >= 10 * Pow(10, j)
    ensures !InInterval(v, c, j)
  {
    hide Pow;
    var t := Pow(10, j);
    MulMono(10 * t, c, v.s);
    MulAssoc(10, t, v.s);
    MulMono(v.n + v.plus, 10 * v.s, t);
    MulAssoc(10, v.s, t);
    if v.isEven {
      MulStrictMono(v.n + v.plus, 10 * v.s, t);
    }
  }

  /** If a number below 1 is inside, then so is 1. */
  lemma OneInside(v: Scaled, c: nat, j: nat)
    requires InDecade(v) && InInterval(v, c, j) && c < Pow(10, j)
    ensures InInterval(v, 1, 0)
  {
    hide Pow;
    var t := Pow(10, j);
    MulStrictMono(c, t, v.s);
    MulLtInv(v.n - v.minus, v.s, t);
    PowZero(10);
  }

  /** With two digits or more all candidates of that length stand at the same position. */
  lemma OnePosition(v: Scaled, digits: seq<char>, c: nat, j: nat)
    requires InDecade(v) && Shortest(v, digits) && InInterval(v, c, j) && c < Pow(10, |digits|)
    ensures j == |digits| - 1 || (|digits| == 1 && j > 0)
  {
    hide Pow, InInterval, InDecade, DecVal;
    var k := |digits| - 1;
    if j < k {
      PowAdd(10, j, k - j);
      PowStep(10, k - j - 1);
      MulMonoRight(Pow(10, j), 10, Pow(10, k - j));
      TenOrMore(v, c, j);
    } else if j > k {
      PowMono(10, k + 1, j);
      OneInside(v, c, j);
      PowStep(10, 0);
      PowZero(10);
      if k > 0 {
        PowMono(10, 1, k);
      }
    }
  }

  /** One digit: a candidate below 1 is at most 0.9, and that is inside, too. */
  lemma AtMostNineTenths(v: Scaled, c: nat, j: nat)
    requires InDecade(v) && InInterval(v, c, j) && c <= 9 && j > 0
    ensures InInterval(v, 9, 1) && 10 * c <= 9 * Pow(10, j)
  {
    hide Pow;
    PowStep(10, j - 1);
    PowOne(10);
    Tenths(v.n - v.minus, c, v.s, Pow(10, j));
  }

  lemma Tenths(x: int, c: int, s: int, t: int)
    requires x * t <= c * s && 10 * c <= 9 * t && t > 0 && s > 0
    ensures 10 * x <= 9 * s && (x * t < c * s ==> 10 * x < 9 * s)
  {
    MulMono(10 * c, 9 * t, s);
    MulAssoc(10, c, s);
    MulAssoc(9, t, s);
    MulAssoc(10, x, t);
    MulAssoc(9, s, t);
    MulLeInv(10 * x, 9 * s, t);
    if x * t < c * s {
      MulLtInv(10 * x, 9 * s, t);
    }
  }

  // ---------- one digit ----------

  lemma Nearer(v: Scaled, D: int, c: nat, j: nat)
    requires v.s > 0 && Distance(v, D, 0) <= Distance(v, 1, 0) && 10 * c <= 9 * Pow(10, j) && 20 * v.n >= 19 * v.s
    ensures Distance(v, D, 0) * Pow(10, j) <= Distance(v, c, j)
  {
    hide Pow;
    PowZero(10);
    var t := Pow(10, j);
    NinetyFive(v.n, v.s, c, t);
    MulMono(Distance(v, D, 0), Distance(v, 1, 0), t);
  }

  lemma NinetyFive(n: int, s: int, c: int, t: int)
    requires s > 0 && t > 0 && n >= 0 && c >= 0 && 10 * c <= 9 * t && 20 * n >= 19 * s
    ensures (if n < s then s - n else n - s) * t <= n * t - c * s
  {
    var d := if n < s then s - n else n - s;
    MulMono(10 * c, 9 * t, s);
    MulAssoc(10, c, s);
    MulAssoc(9, t, s);
    assert t * s == s * t;
    MulMono(10 * d, 10 * n - 9 * s, t);
    MulAssoc(10, d, t);
    Distribute(10 * n, -9 * s, t);
    MulAssoc(10, n, t);
    MulAssoc(-9, s, t);
  }

  /**
   * The answer is the closest decimal of its length, at whatever position, if and only if 0.9 is not both a candidate
   * and closer than 1.
   */
  lemma ClosestOfItsLength(v: Scaled, digits: seq<char>)
    requires InDecade(v) && Shortest(v, digits)
    ensures Closest(v, digits) <==> !Skewed(v)
  {
    hide Pow, InInterval, DecVal, Distance;
    PowZero(10);
    PowOne(10);
    var D := DecVal(digits);
    if Skewed(v) {
      OneInside(v, 9, 1);
      PowMono(10, 1, |digits|);
      if |digits| > 1 {
        PowMono(10, 1, |digits| - 1);
      }
      NineTenthsCloser(v, D);
      assert !NoFarther(v, digits, 9, 1);
    } else {
      forall c: nat, j: nat | InInterval(v, c, j) && c < Pow(10, |digits|)
        ensures NoFarther(v, digits, c, j)
      {
        OnePosition(v, digits, c, j);
        if j == |digits| - 1 {
          MulMono(Distance(v, D, j), Distance(v, c, j), Pow(10, j));
        } else {
          AtMostNineTenths(v, c, j);
          OneIsCandidate(v, digits, c, j);
          Nearer(v, D, c, j);
        }
      }
    }
  }

  lemma OneIsCandidate(v: Scaled, digits: seq<char>, c: nat, j: nat)
    requires InDecade(v) && Shortest(v, digits) && |digits| == 1 && InInterval(v, c, j) && c <= 9 && j > 0
    ensures Distance(v, DecVal(digits), 0) <= Distance(v, 1, 0)
  {
    hide Pow, InInterval, InDecade, DecVal, Distance;
    PowStep(10, j - 1);
    OneInside(v, c, j);
  }

  lemma NineTenthsCloser(v: Scaled, D: int)
    requires D >= 1 && v.s > 0 && 20 * v.n < 19 * v.s
    ensures Distance(v, D, 0) * Pow(10, 1) > Distance(v, 9, 1) * Pow(10, 0)
  {
    hide Pow;
    PowZero(10);
    PowOne(10);
    MulMono(1, D, v.s);
  }

  /** 0.94 between 0.84 and 1.04: the answer is 1, and 0.9 is closer. */
  lemma NotAlwaysClosest(digits: seq<char>)
    ensures var v := Scaled(94, 100, 10, 10, true);
            InDecade(v) && Skewed(v) && (Shortest(v, digits) ==> !Closest(v, digits))
  {
    hide Shortest, Closest;
    PowOne(10);
    var v := Scaled(94, 100, 10, 10, true);
    if Shortest(v, digits) {
      ClosestOfItsLength(v, digits);
    }
  }

  // ---------- doubles ----------

  /** 2^1074 is about 2.02 * 10^323. */
  lemma SmallestDouble()
    ensures 3 * Pow(10, 323) < 2 * Pow(2, 1074) && 10 * Pow(2, 1074) < 21 * Pow(10, 323)
  {
    hide Pow;
    Bits93();
    PowBaseMono(99 * Pow(10, 26), Pow(2, 93), 11);
    PowBaseMono(Pow(2, 93), 991 * Pow(10, 25), 11);
    PowOfProduct(99, Pow(10, 26), 11);
    PowOfProduct(991, Pow(10, 25), 11);
    PowOfPow(2, 93, 11);
    PowOfPow(10, 26, 11);
    PowOfPow(10, 25, 11);
    PowAdd(2, 1023, 51);
    PowAdd(10, 286, 37);
    PowAdd(10, 275, 48);
    EleventhPowers();
    BetweenTens(Pow(99, 11), Pow(991, 11), Pow(10, 286), Pow(10, 275), Pow(2, 1023), Pow(2, 51),
                Pow(10, 37), Pow(10, 48));
  }

  lemma BetweenTens(low: int, high: int, s: int, t: int, x: int, y: int, p: int, q: int)
    requires low * s <= x <= high * t && s > 0 && t > 0 && y > 0
    requires 3 * p < 2 * low * y && 10 * high * y < 21 * q
    ensures 3 * (s * p) < 2 * (x * y) && 10 * (x * y) < 21 * (t * q)
  {
    MulMono(low * s, x, y);
    MulMono(x, high * t, y);
    MulStrictMono(3 * p, 2 * low * y, s);
    MulStrictMono(10 * high * y, 21 * q, t);
    assert low * s * y == low * y * s && high * t * y == high * y * t;
    assert 2 * low * y * s == 2 * (low * y * s) && 10 * high * y * t == 10 * (high * y * t);
    assert 3 * p * s == 3 * (s * p) && 21 * q * t == 21 * (t * q);
  }

  lemma Bits93()
    ensures 99 * Pow(10, 26) <= Pow(2, 93) <= 991 * Pow(10, 25)
  {
    hide Pow;
    Pow10Table();
    Pow2Table();
    Pow2Small();
    PowAdd(2, 1, 4);
    PowAdd(2, 5, 8);
    PowAdd(2, 13, 16);
    PowAdd(2, 29, 64);
    PowAdd(10, 10, 10);
    PowAdd(10, 20, 5);
    PowAdd(10, 20, 6);
  }

  lemma EleventhPowers()
    ensures 3 * Pow(10, 37) < 2 * Pow(99, 11) * Pow(2, 51) && 10 * Pow(991, 11) * Pow(2, 51) < 21 * Pow(10, 48)
  {
    hide Pow;
    PowersOf99();
    PowersOf991();
    Pow10Table();
    Pow2Table();
    Pow2Small();
    PowAdd(2, 1, 2);
    PowAdd(2, 3, 16);
    PowAdd(2, 19, 32);
    PowAdd(10, 10, 10);
    PowAdd(10, 20, 10);
    PowAdd(10, 30, 7);
    PowAdd(10, 30, 10);
    PowAdd(10, 40, 8);
  }

  lemma PowersOf99()
    ensures Pow(99, 11) == 8953382542587164451099
  {
    assert Pow(99, 0) == 1 && Pow(99, 1) == 99;
    assert Pow(99, 2) == 9801;
    assert Pow(99, 3) == 970299;
    assert Pow(99, 4) == 96059601;
    assert Pow(99, 5) == 9509900499;
    assert Pow(99, 6) == 941480149401;
    assert Pow(99, 7) == 93206534790699;
    assert Pow(99, 8) == 9227446944279201;
    assert Pow(99, 9) == 913517247483640899;
    assert Pow(99, 10) == 90438207500880449001;
    assert Pow(99, 11) == 8953382542587164451099;
  }

  lemma PowersOf991()
    ensures Pow(991, 11) == 905336853093316443669161352351391
  {
    assert Pow(991, 0) == 1 && Pow(991, 1) == 991;
    assert Pow(991, 2) == 982081;
    assert Pow(991, 3) == 973242271;
    assert Pow(991, 4) == 964483090561;
    assert Pow(991, 5) == 955802742745951;
    assert Pow(991, 6) == 947200518061237441;
    assert Pow(991, 7) == 938675713398686304031;
    assert Pow(991, 8) == 930227631978098127294721;
    assert Pow(991, 9) == 921855583290295244149068511;
    assert Pow(991, 10) == 913558883040682586951726894401;
    assert Pow(991, 11) == 905336853093316443669161352351391;
  }

  /** Only significands below ten have intervals wide enough for 0.9 and 1. */
  lemma WideInterval(v: Scaled, f: nat, a: int, b: int, j: int)
    requires v.s > 0 && a > 0 && b > 0 && 2 <= j && v.n * a == v.s * b * f
    requires 2 * v.plus * a == v.s * b && j * v.minus * a == v.s * b
    requires 10 * (v.n - v.minus) <= 9 * v.s <= 9 * (v.n + v.plus) && 20 * v.n < 19 * v.s
    ensures f <= 9 && 2 * a <= (2 * f + 1) * b && 20 * f * b < 19 * a
  {
    var unit := v.s * b;
    Half(v.minus, a, j, unit);
    TimesA(v.n, v.s, v.minus, v.plus, a);
    MulAssoc(2, v.plus, a);
    WideUnits(v.n * a, v.s * a, v.minus * a, v.plus * a, f, unit);
    CancelScale(v.s, f, a, b);
  }

  lemma TimesA(n: int, s: int, minus: int, plus: int, a: int)
    requires a > 0 && 10 * (n - minus) <= 9 * s && s <= n + plus && 20 * n < 19 * s
    ensures 10 * (n * a - minus * a) <= 9 * (s * a) && s * a <= n * a + plus * a && 20 * (n * a) < 19 * (s * a)
  {
    MulMono(10 * (n - minus), 9 * s, a);
    MulMono(s, n + plus, a);
    MulStrictMono(20 * n, 19 * s, a);
    MulAssoc(10, n - minus, a);
    Distribute(n, minus, a);
    Distribute(n, plus, a);
    MulAssoc(9, s, a);
    MulAssoc(19, s, a);
    MulAssoc(20, n, a);
  }

  lemma Half(minus: int, a: int, j: int, unit: int)
    requires minus >= 0 && a > 0 && 2 <= j && j * minus * a == unit
    ensures 2 * (minus * a) <= unit
  {
    MulAssoc(j, minus, a);
    MulMono(2, j, minus * a);
  }

  lemma WideUnits(n: int, s: int, minus: int, plus: int, f: nat, unit: int)
    requires unit > 0 && n == unit * f && 2 * plus == unit && 2 * minus <= unit
    requires 10 * (n - minus) <= 9 * s && s <= n + plus && 20 * n < 19 * s
    ensures f <= 9 && 2 * s <= (2 * f + 1) * unit && 20 * (f * unit) < 19 * s
  {
    assert (2 * f + 1) * unit == 2 * (unit * f) + unit && f * unit == unit * f;
    if f >= 10 {
      MulMono(10, f, unit);
    }
  }

  lemma CancelScale(s: int, f: nat, a: int, b: int)
    requires s > 0 && 2 * (s * a) <= (2 * f + 1) * (s * b) && 20 * (f * (s * b)) < 19 * (s * a)
    ensures 2 * a <= (2 * f + 1) * b && 20 * f * b < 19 * a
  {
    assert 2 * (s * a) == 2 * a * s && (2 * f + 1) * (s * b) == (2 * f + 1) * b * s;
    assert 20 * (f * (s * b)) == 20 * f * b * s && 19 * (s * a) == 19 * a * s;
    MulLeInv(2 * a, (2 * f + 1) * b, s);
    MulLtInv(20 * f * b, 19 * a, s);
  }

  /** Among the nine smallest doubles there is none between 0.9 and 0.95 times a power of ten that reaches up to it. */
  lemma NineSmallest(f: nat, ten: int)
    requires 1 <= f <= 9
    ensures var a, b := Up(10, ten) * Pow(2, 1074), Down(10, ten);
            !(2 * a <= (2 * f + 1) * b && 20 * f * b < 19 * a)
  {
    hide Pow, Up, Down;
    SmallestDouble();
    UpDown(10, ten);
    var w := Pow(2, 1074);
    if ten >= -322 {
      PowStep(10, 322);
      PowMono(10, if ten < 0 then -ten else 0, 322);
      PowZero(10);
      FarAbove(f, Up(10, ten), w, Down(10, ten), Pow(10, 322));
    } else if ten == -323 {
      Between(f, w, Pow(10, 323));
    } else {
      PowMono(10, 324, -ten);
      PowStep(10, 323);
      FarBelow(f, w, Pow(10, -ten));
    }
  }

  lemma FarAbove(f: nat, u: int, w: int, b: int, q: int)
    requires f <= 9 && u >= 1 && 0 < b <= q && 30 * q < 2 * w
    ensures 2 * (u * w) > (2 * f + 1) * b
  {
    MulMono(1, u, w);
    MulMono(2 * f + 1, 19, b);
  }

  lemma Between(f: nat, w: int, p: int)
    requires 1 <= f && 3 * p < 2 * w && 10 * w < 21 * p
    ensures !(2 * w <= (2 * f + 1) * p && 20 * f * p < 19 * w)
  {
    if f >= 2 {
      MulMono(40, 20 * f, p);
    }
  }

  lemma FarBelow(f: nat, w: int, b: int)
    requires 1 <= f && 100 * w < 21 * b && b > 0
    ensures 20 * f * b >= 19 * w
  {
    MulMono(20, 20 * f, b);
  }

  /** No double is skewed. */
  lemma NeverSkewed(v: Scaled, d: Double, ten: int)
    requires 0 < d < INFINITY && InDecade(v)
    requires Represents(v, Significand(d) as nat, Exponent(d), LowerBoundaryIsCloser(d), ten)
    ensures !Skewed(v)
  {
    hide Pow, LowerBoundaryIsCloser;
    var f, e := Significand(d) as nat, Exponent(d);
    var a, b := Up(10, ten) * Down(2, e), Up(2, e) * Down(10, ten);
    if Skewed(v) {
      PowZero(10);
      PowOne(10);
      WideInterval(v, f, a, b, if LowerBoundaryIsCloser(d) then 4 else 2);
      SmallIsDenormal(d);
      UpDown(2, e);
      NineSmallest(f, ten);
    }
  }

  lemma SmallIsDenormal(d: Double)
    requires d > 0 && Significand(d) <= 9
    ensures Exponent(d) == -1074 && Significand(d) > 0
  {
  }
}
