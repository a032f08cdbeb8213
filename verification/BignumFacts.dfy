/** Arithmetic facts about numbers given as bigits and an exponent, used by the class Bignum. */
module BignumFacts {
  import opened Powers
  import opened Words
  import opened BigitSeq
  import opened BigitArrays

  function Sign(x: int): int {
    if x < 0 then -1 else if x > 0 then 1 else 0
  }

  lemma NextBigit(s: seq<uint32>, t: seq<uint32>, i: nat)
    requires i < |s| == |t| && V(s[i + 1..]) == V(t[i + 1..])
    ensures V(s[i..]) - V(t[i..]) == s[i] as int - t[i] as int
  {
    VFrom(s, i);
    VFrom(t, i);
  }

  lemma EqualAbove(s: seq<uint32>, t: seq<uint32>, i: nat)
    requires Bigits(s) && Bigits(t) && i <= |s| == |t| && V(s[i..]) == V(t[i..])
    requires forall k :: 0 <= k < i ==> s[k] == 0 && t[k] == 0
    ensures V(s) == V(t)
  {
    hide V, P;
    VHigh(s, i);
    VHigh(t, i);
  }

  lemma {:induction false} ColumnStep(s: seq<uint32>, t: seq<uint32>, u: seq<uint32>, i: nat, borrow: int)
    requires i < |s| == |t| == |u|
    requires BASE * (V(u[i + 1..]) - V(s[i + 1..]) - V(t[i + 1..])) == borrow
    ensures V(u[i..]) - V(s[i..]) - V(t[i..]) == borrow + u[i] as int - s[i] as int - t[i] as int
  {
    hide V;
    VFrom(s, i);
    VFrom(t, i);
    VFrom(u, i);
  }

  lemma NothingAbove(s: seq<uint32>, t: seq<uint32>, u: seq<uint32>)
    requires |s| == |t| == |u|
    ensures V(s[|s|..]) == V(t[|s|..]) == V(u[|s|..]) == 0
  {
  }

  /** A number that is a multiple of BASE^e stays at least BASE^e below the next power of its length. */
  lemma {:induction false} RoomBelowPower(s: seq<uint32>, e: nat)
    requires Bigits(s)
    ensures V(s) * P(e) + P(e) <= P(|s| + e)
  {
    hide V;
    VBound(s);
    PowAdd(BASE, |s|, e);
    MulMono(V(s) + 1, P(|s|), P(e));
    Distribute(V(s), 1, P(e));
  }

  lemma {:induction false} SumExceeds(s: seq<uint32>, t: seq<uint32>, u: seq<uint32>, i: nat)
    requires Bigits(s) && Bigits(t) && Bigits(u) && i < |s| == |t| == |u|
    requires V(u[i..]) + 1 <= V(s[i..]) + V(t[i..])
    ensures V(u) < V(s) + V(t)
  {
    hide V, P;
    VHigh(s, i);
    VHigh(t, i);
    VHigh(u, i);
    ScaledGap(V(s[i..]), V(t[i..]), V(u[i..]), P(i));
  }

  lemma {:induction false} SumFallsShort(s: seq<uint32>, t: seq<uint32>, u: seq<uint32>, i: nat)
    requires Bigits(s) && Bigits(t) && Bigits(u) && i < |s| == |t| == |u|
    requires V(s[i..]) + V(t[i..]) + 2 <= V(u[i..])
    ensures V(s) + V(t) < V(u)
  {
    hide V, P;
    VHigh(s, i);
    VHigh(t, i);
    VHigh(u, i);
    ScaledGap(V(s[i..]), V(t[i..]), V(u[i..]), P(i));
  }

  lemma {:induction false} ScaledGap(x: int, y: int, z: int, p: int)
    requires p > 0
    ensures z + 1 <= x + y ==> z * p + p <= x * p + y * p
    ensures x + y + 2 <= z ==> x * p + y * p + 2 * p <= z * p
    ensures Sign(x * p + y * p - z * p) == Sign(x + y - z)
  {
    Distribute(x, y, p);
    Distribute(x + y, z, p);
    var d := x + y - z;
    if d > 0 {
      MulMono(1, d, p);
    } else if d < 0 {
      MulMono(d, -1, p);
      if d <= -2 {
        MulMono(d, -2, p);
      }
    }
  }

  lemma {:induction false} ZerosBelow(s: seq<uint32>, t: seq<uint32>, u: seq<uint32>, i: nat)
    requires Bigits(s) && Bigits(t) && Bigits(u) && i <= |s| == |t| == |u|
    requires forall k :: 0 <= k < i ==> s[k] == 0 && t[k] == 0 && u[k] == 0
    ensures Sign(V(s) + V(t) - V(u)) == Sign(V(s[i..]) + V(t[i..]) - V(u[i..]))
  {
    hide V, P;
    VHigh(s, i);
    VHigh(t, i);
    VHigh(u, i);
    ScaledGap(V(s[i..]), V(t[i..]), V(u[i..]), P(i));
  }

  lemma {:induction false} AddQuotients(q: int, r: int, d: int, total: int, rest: int)
    requires 0 < d && 0 <= rest && total < 0x10000 * d
    requires total - q * d == r * d + rest
    ensures total == (q + r) * d + rest && q + r < 0x10000
  {
    Distribute(q, r, d);
    MulLtInv(q + r, 0x10000, d);
  }

  lemma OneMoreFits(q: int, d: int, rest: int, total: int)
    requires 0 < d <= rest && total == q * d + rest && total < 0x10000 * d
    ensures q + 1 < 0x10000 && (q + 1) * d == q * d + d
  {
    Distribute(q, 1, d);
    MulLtInv(q + 1, 0x10000, d);
  }

  /** When s is longer than t, its top bigit times t can be subtracted, and t's length is still reached or nearly so. */
  lemma {:induction false} TopMultiple(s: seq<uint32>, e: nat, t: seq<uint32>, d: nat, q: int, total: int)
    requires Bigits(s) && |s| > 0 && s[|s| - 1] != 0 && Bigits(t) && |t| > 0 && t[|t| - 1] != 0
    requires |t| + d < |s| + e && 0 <= q
    requires total == q * (V(t) * P(d)) + V(s) * P(e) && total < 0x10000 * (V(t) * P(d))
    ensures var top := s[|s| - 1] as int;
            && 1 <= top < BASE && q + top < 0x10000
            && top * (V(t) * P(d)) <= V(s) * P(e)
            && V(s) * P(e) - top * (V(t) * P(d)) >= P(|t| + d) - V(t) * P(d) > 0
  {
    hide V, P;
    var n, top, sv, ov := |t| + d, s[|s| - 1] as int, V(s) * P(e), V(t) * P(d);
    LengthBounds(s, e);
    LengthBounds(t, d);
    TopBounds(s, e);
    assert sv < P(n + 1) by {
      MulMono(0, q, ov);
      PNext(n);
    }
    LengthIs(|s| - 1 + e, n);
    TopFits(top, sv, ov, P(n), q, total);
  }

  lemma {:induction false} TopFits(top: int, sv: int, ov: int, p: int, q: int, total: int)
    requires top >= 1 && q >= 0 && 0 < ov < p && top * p <= sv
    requires total == q * ov + sv && total < 0x10000 * ov
    ensures q + top < 0x10000 && top * ov <= sv && sv - top * ov >= p - ov
  {
    MulMono(1, top, p - ov);
    Distribute(p, ov, top);
    Distribute(q, top, ov);
    MulLtInv(q + top, 0x10000, ov);
  }

  lemma LengthIs(m: nat, n: nat)
    requires n <= m && P(m) < P(n + 1)
    ensures m == n
  {
    PowLtInv(BASE, m, n + 1);
  }

  /** A number shorter than t that is still at least P(n) - t forces t to start with the largest bigit. */
  lemma OtherIsAlmostPower(s: seq<uint32>, e: nat, t: seq<uint32>, d: nat)
    requires Bigits(s) && Bigits(t) && |t| > 0
    requires |s| + e < |t| + d && V(s) * P(e) >= P(|t| + d) - V(t) * P(d)
    ensures |t| >= 2 && t[|t| - 1] as int == BASE - 1
  {
    hide V, P;
    var n, ob := |t| + d, t[|t| - 1] as int;
    LengthBounds(s, e);
    PMono(|s| + e, n - 1);
    TopBounds(t, d);
    PNext(n - 1);
    if ob + 1 <= BASE - 1 {
      MulMono(ob + 1, BASE - 1, P(n - 1));
    }
  }

  lemma {:induction false} SingleBigit(s: seq<uint32>, e: nat, t: seq<uint32>, d: nat, q: int)
    requires Bigits(s) && |s| > 0 && Bigits(t) && |t| == 1 && t[0] != 0
    requires |s| + e == 1 + d && V(s) * P(e) < 0x10000 * (V(t) * P(d))
    requires q == s[|s| - 1] as int / t[0] as int
    ensures 0 <= q < 0x10000 && 0 <= t[0] as int * q <= s[|s| - 1] as int
    ensures var s' := s[|s| - 1 := (s[|s| - 1] as int - t[0] as int * q) as uint32];
            && Bigits(s') && V(s) * P(e) == q * (V(t) * P(d)) + V(s') * P(e) && V(s') * P(e) < V(t) * P(d)
  {
    hide V, P;
    var n, tb, ob := |s| - 1, s[|s| - 1] as int, t[0] as int;
    SingleDigit(tb, ob, q);
    var s' := s[n := (tb - ob * q) as uint32];
    TopBounds(t, d);
    TopBounds(s', e);
    ReplaceTop(s, s', e);
    SingleDigitScaled(tb, ob, q, P(d));
    LengthBounds(t, d);
    MulLtInv(q, 0x10000, V(t) * P(d));
  }

  lemma SingleDigit(tb: int, ob: int, q: int)
    requires 0 <= tb < BASE && 1 <= ob && q == tb / ob
    ensures 0 <= q && 0 <= ob * q <= tb && tb - ob * q < ob
  {
    DivMod(tb, ob);
    if q < 0 {
      MulMono(q, -1, ob);
    }
    MulMono(0, q, ob);
    assert q * ob == ob * q;
  }

  lemma SingleDigitScaled(tb: int, ob: int, q: int, p: int)
    requires p > 0 && tb - ob * q < ob
    ensures tb * p - (tb - ob * q) * p == q * (ob * p)
    ensures (tb - ob * q + 1) * p <= ob * p
  {
    Distribute(tb, ob * q, p);
    MulMono(tb - ob * q + 1, ob, p);
    assert ob * q * p == q * (ob * p);
  }

  lemma {:induction false} ReplaceTop(s: seq<uint32>, s': seq<uint32>, e: nat)
    requires |s| == |s'| > 0 && s[..|s| - 1] == s'[..|s| - 1]
    ensures V(s) * P(e) - V(s') * P(e) == s[|s| - 1] as int * P(|s| - 1 + e) - s'[|s| - 1] as int * P(|s| - 1 + e)
    ensures V(s') * P(e) >= 0
  {
    var n, a, b := |s| - 1, s[|s| - 1] as int, s'[|s| - 1] as int;
    PowAdd(BASE, n, e);
    Distribute(V(s[..n]), a * P(n), P(e));
    Distribute(V(s[..n]), b * P(n), P(e));
    MulAssoc(a, P(n), P(e));
    MulAssoc(b, P(n), P(e));
  }

  /** The estimate from the top bigits never overshoots, and undershoots only if the test says it might. */
  lemma {:induction false} Estimate(s: seq<uint32>, e: nat, t: seq<uint32>, d: nat, estimate: int)
    requires Bigits(s) && |s| > 0 && Bigits(t) && |t| > 0 && t[|t| - 1] != 0
    requires |s| + e <= |t| + d && (|s| + e < |t| + d ==> t[|t| - 1] as int == BASE - 1)
    requires V(s) * P(e) < 0x10000 * (V(t) * P(d))
    requires estimate == s[|s| - 1] as int / (t[|t| - 1] as int + 1)
    ensures 0 <= estimate < 0x10000 && estimate * (V(t) * P(d)) <= V(s) * P(e)
    ensures 0 <= t[|t| - 1] as int * (estimate + 1) <= s[|s| - 1] as int + t[|t| - 1] as int
    ensures t[|t| - 1] as int * (estimate + 1) > s[|s| - 1] as int
            ==> V(s) * P(e) - estimate * (V(t) * P(d)) < V(t) * P(d)
  {
    hide V, P;
    var n, tb, ob, sv, ov := |t| + d, s[|s| - 1] as int, t[|t| - 1] as int, V(s) * P(e), V(t) * P(d);
    TopBounds(s, e);
    TopBounds(t, d);
    Positive(t, d);
    EstimateTops(tb, ob, estimate);
    if |s| + e == n {
      EstimateScaled(tb, ob, estimate, P(n - 1), sv, ov);
    } else {
      assert estimate == 0;
      LengthBounds(s, e);
      PMono(|s| + e, n - 1);
    }
    MulLtInv(estimate, 0x10000, ov);
  }

  lemma EstimateTops(tb: int, ob: int, estimate: int)
    requires 0 <= tb < BASE && 1 <= ob < BASE && estimate == tb / (ob + 1)
    ensures 0 <= estimate && estimate * (ob + 1) <= tb && 0 <= ob * (estimate + 1) <= tb + ob
    ensures ob == BASE - 1 ==> estimate == 0
  {
    DivMod(tb, ob + 1);
    if estimate < 0 {
      MulMono(estimate, -1, ob + 1);
    }
    assert estimate * (ob + 1) == estimate * ob + estimate;
    assert ob * (estimate + 1) == estimate * ob + ob;
    MulMono(0, estimate, ob);
  }

  lemma {:induction false} EstimateScaled(tb: int, ob: int, estimate: int, p: int, sv: int, ov: int)
    requires p > 0 && estimate >= 0 && estimate * (ob + 1) <= tb
    requires tb * p <= sv < (tb + 1) * p && ob * p <= ov < (ob + 1) * p
    ensures estimate * ov <= sv
    ensures ob * (estimate + 1) > tb ==> sv - estimate * ov < ov
  {
    NoOvershoot(tb, ob, estimate, p, ov);
    if ob * (estimate + 1) > tb {
      NoUndershoot(tb, ob, estimate, p, ov);
    }
  }

  lemma NoOvershoot(tb: int, ob: int, estimate: int, p: int, ov: int)
    requires p > 0 && estimate >= 0 && estimate * (ob + 1) <= tb && ov < (ob + 1) * p
    ensures estimate * ov <= tb * p
  {
    MulMono(ov, (ob + 1) * p, estimate);
    MulAssoc(estimate, ob + 1, p);
    MulMono(estimate * (ob + 1), tb, p);
  }

  lemma {:induction false} NoUndershoot(tb: int, ob: int, estimate: int, p: int, ov: int)
    requires p > 0 && estimate >= 0 && ob * (estimate + 1) > tb && ob * p <= ov
    ensures (tb + 1) * p <= estimate * ov + ov
  {
    var f := estimate + 1;
    MulMono(tb + 1, ob * f, p);
    MulMono(ob * p, ov, f);
    MulAssoc(f, ob, p);
    Distribute(estimate, 1, ov);
  }

  lemma OneMore(i: int, factor: int, v: int)
    requires 0 <= i < factor && 0 <= v
    ensures (i + 1) * v == i * v + v <= factor * v
  {
    Distribute(i, 1, v);
    MulMono(i + 1, factor, v);
  }

  /** The subtrahend, moved to its place, fits below the minuend. */
  lemma {:induction false} TimesFits(s: seq<uint32>, e: nat, t: seq<uint32>, d: nat, factor: int)
    requires Bigits(s) && Bigits(t) && e <= d && |t| > 0 && t[|t| - 1] != 0 && factor >= 1
    requires factor * (V(t) * P(d)) <= V(s) * P(e)
    ensures |t| + d - e <= |s|
    ensures factor * V(t) * P(d - e) <= V(s)
    ensures V(t) * P(d - e) <= V(s)
  {
    MulMono(1, factor, V(t) * P(d));
    LengthMono(t, d, s, e);
    Rescale(V(t), d, e, factor);
    MulLeInv(factor * V(t) * P(d - e), V(s), P(e));
    MulMono(1, factor, V(t) * P(d - e));
    MulAssoc(factor, V(t), P(d - e));
  }

  lemma Rescale(v: int, d: nat, e: nat, factor: int)
    requires e <= d
    ensures factor * (v * P(d)) == factor * v * P(d - e) * P(e)
  {
    PowAdd(BASE, d - e, e);
    MulAssoc(factor, v, P(d));
    MulAssoc(factor * v, P(d - e), P(e));
  }

  lemma Positive(s: seq<uint32>, e: nat)
    requires Bigits(s) && |s| > 0 && s[|s| - 1] != 0
    ensures V(s) * P(e) > 0
  {
    LengthBounds(s, e);
  }

  lemma NothingIsZero(s: seq<uint32>, e: nat)
    ensures s == [] ==> V(s) * P(e) == 0
  {
  }

  lemma NothingFits(s: seq<uint32>, t: seq<uint32>, offset: nat)
    requires t == []
    ensures V(t) * P(offset) <= V(s)
  {
  }

  lemma {:induction false} TimesValue(s: seq<uint32>, a: seq<uint32>, e: nat, t: seq<uint32>, d: nat, factor: int)
    requires e <= d
    requires V(a) == V(s) - factor * V(t) * P(d - e)
    ensures V(a) * P(e) == V(s) * P(e) - factor * (V(t) * P(d))
  {
    Rescale(V(t), d, e, factor);
    Distribute(V(s), factor * V(t) * P(d - e), P(e));
  }

  lemma SpreadTop(s: seq<uint32>, z: nat, n: nat)
    requires |s| > 0 && n == |s| + z
    ensures Spread(s, z, n)[n - 1] == s[|s| - 1]
  {
  }

  lemma {:induction false} SpreadAligned(s: seq<uint32>, z: nat, e: nat)
    requires z <= e
    ensures V(Spread(s, z, z + |s|)) * P(e - z) == V(s) * P(e)
    ensures Bigits(s) ==> Bigits(Spread(s, z, z + |s|))
  {
    VSpread(s, z, z + |s|);
    PowAdd(BASE, z, e - z);
    MulAssoc(V(s), P(z), P(e - z));
  }

  lemma DigitOut(v: int, rest: int, p: int, n: int)
    requires v + rest * p == n
    ensures v + rest % BASE * p + rest / BASE * (BASE * p) == n
  {
    DivMod(rest, BASE);
    Distribute(rest / BASE * BASE, rest % BASE, p);
    MulAssoc(rest / BASE, BASE, p);
  }

  lemma {:induction false} RoomForCarry(v: int, carry: int, k: nat, target: int)
    requires 0 <= v && 0 < carry && v + carry * P(k) == target < P(CAPACITY)
    ensures k < CAPACITY && P(k) <= target
  {
    MulMono(1, carry, P(k));
    PowLtInv(BASE, k, CAPACITY);
  }

  /** A nonzero multiple of a number keeps at least its length. */
  lemma {:induction false} TargetReached(s: seq<uint32>, f: int)
    requires Bigits(s) && |s| > 0 && s[|s| - 1] != 0 && f >= 1
    ensures P(|s| - 1) <= f * V(s)
  {
    VTop(s);
    MulMono(1, f, V(s));
  }

  lemma ShiftCarry(v: int, carry: int, p: int)
    ensures carry == 0 ==> v + carry * p == v
  {
  }

  lemma {:induction false} ShiftedValue(v: int, e: nat, shift: nat)
    ensures Pow(2, shift % BIGIT_SIZE) * v * P(e + shift / BIGIT_SIZE) == v * P(e) * Pow(2, shift)
  {
    hide V;
    var q, r := shift / BIGIT_SIZE, shift % BIGIT_SIZE;
    PowAdd(BASE, e, q);
    PIsPow2(q);
    PowAdd(2, BIGIT_SIZE * q, r);
    Shuffle4(Pow(2, r), v, P(e), P(q));
  }

  lemma Shuffle4(a: int, b: int, c: int, d: int)
    ensures a * b * (c * d) == b * c * (d * a)
  {
    assert a * b * (c * d) == a * b * c * d;
    assert b * c * (d * a) == b * c * d * a;
  }

  const FIVE_1_TO_12: seq<uint32> :=
    [5, 25, 125, 625, 3125, 15625, 78125, 390625, 1953125, 9765625, 48828125, 244140625]

  lemma FiveTable(i: nat)
    requires 1 <= i <= 13
    ensures i <= 12 ==> FIVE_1_TO_12[i - 1] as int == Pow(5, i)
    ensures Pow(5, 13) == 1220703125
  {
    assert Pow(5, 1) == 5 && Pow(5, 2) == 25 && Pow(5, 3) == 125 && Pow(5, 4) == 625;
    assert Pow(5, 5) == 5 * Pow(5, 4) && Pow(5, 6) == 5 * Pow(5, 5) && Pow(5, 7) == 5 * Pow(5, 6);
    assert Pow(5, 8) == 5 * Pow(5, 7) && Pow(5, 9) == 5 * Pow(5, 8) && Pow(5, 10) == 5 * Pow(5, 9);
    assert Pow(5, 11) == 5 * Pow(5, 10) && Pow(5, 12) == 5 * Pow(5, 11) && Pow(5, 13) == 5 * Pow(5, 12);
  }

  lemma FiveTo27()
    ensures Pow(5, 27) == 0x6765c793fa10079d
  {
    FiveTable(13);
    FiveTable(1);
    PowAdd(5, 13, 13);
    PowAdd(5, 26, 1);
  }

  lemma FiveWords()
    ensures Pow(5, 13) == 1220703125 && Pow(5, 27) == 0x6765c793fa10079d
  {
    FiveTable(1);
    FiveTo27();
  }

  /** Taking n fives out of the remaining power. */
  lemma FivesStep(s: seq<uint32>, n: nat, remaining: nat, target: nat)
    requires n <= remaining && V(s) * Pow(5, remaining) == target
    ensures Pow(5, n) * V(s) * Pow(5, remaining - n) == target
    ensures Pow(5, n) * V(s) <= target
  {
    hide V, Pow;
    PowAdd(5, n, remaining - n);
    Regroup(V(s), Pow(5, n), Pow(5, remaining - n));
  }

  lemma Regroup(v: int, a: int, b: int)
    requires v >= 0 && a > 0 && b > 0
    ensures v * (a * b) == a * v * b && a * v <= a * v * b
  {
    MulAssoc(v, a, b);
    assert v * a == a * v;
    MulMono(0, v, a);
    MulMono(1, b, a * v);
  }

  lemma NoFivesLeft(v: int, target: int)
    requires v * Pow(5, 0) == target
    ensures v == target
  {
  }

  lemma PositiveProduct(s: seq<uint32>, f: int)
    requires Bigits(s) && |s| > 0 && s[|s| - 1] != 0 && f > 0
    ensures V(s) * f > 0
  {
    VTop(s);
    MulMono(1, f, V(s));
  }

  lemma TimesOne(v: nat)
    ensures v * Pow(10, 0) == v
  {
  }

  lemma StillUsed(s: seq<uint32>, f: int, target: int)
    requires V(s) * f == target
    ensures target > 0 ==> |s| > 0
    ensures f == Pow(5, 0) ==> V(s) == target
  {
  }

  lemma {:induction false} FitsBelow(s: seq<uint32>, n: nat)
    requires Bigits(s) && |s| > 0 && s[|s| - 1] != 0 && V(s) < P(n)
    ensures |s| <= n
  {
    VTop(s);
    PowLtInv(BASE, |s| - 1, n);
  }

  lemma FivesAndTwos(v0: int, v: int, p: int, n: nat)
    requires v == v0 * Pow(5, n)
    ensures v * p * Pow(2, n) == v0 * p * Pow(10, n)
  {
    PowOfProduct(5, 2, n);
    var f, t := Pow(5, n), Pow(2, n);
    assert v0 * f * p * t == v0 * p * (f * t);
  }

  lemma SquareValue(v: int, e: nat)
    ensures v * v * P(2 * e) == v * P(e) * (v * P(e))
  {
    PowAdd(BASE, e, e);
    Interchange(v, v, P(e), P(e));
  }

  // ---------- powers by repeated squaring ----------

  /** base without its factors of two. */
  function OddPart(base: nat): (r: nat)
    requires base > 0
    ensures 0 < r <= base && r % 2 == 1
  {
    if base % 2 == 0 then OddPart(base / 2) else base
  }

  /** The number of binary digits. */
  function BitSize(n: nat): nat {
    if n == 0 then 0 else 1 + BitSize(n / 2)
  }

  lemma {:induction false} BitSizeBound(n: nat)
    ensures n < Pow(2, BitSize(n))
  {
    if n > 0 {
      BitSizeBound(n / 2);
    }
  }

  lemma {:induction false} BitSizeLeast(n: nat, m: nat)
    requires n < Pow(2, m)
    ensures BitSize(n) <= m
  {
    if n > 0 {
      BitSizeLeast(n / 2, m - 1);
    }
  }

  lemma WordBitSize(n: nat)
    requires 0 < n < 0x1_0000
    ensures 1 <= BitSize(n) <= 16
  {
    Pow2Table();
    BitSizeLeast(n, 16);
  }

  /** The power's leading bits are used up, `mask` points at the next one (0 when none is left). */
  ghost predicate LeadingBits(power: nat, mask: nat, j: int, e: nat) {
    && j >= -1
    && mask == (if j >= 0 then Pow(2, j) else 0)
    && e == power / Pow(2, j + 1)
  }

  /** Going on to the next bit doubles the exponent reached and adds the bit. */
  lemma {:induction false} NextBit(power: nat, mask: nat, j: int, e: nat)
    requires LeadingBits(power, mask, j, e) && mask != 0
    ensures LeadingBits(power, mask / 2, j - 1, 2 * e + power / mask % 2)
    ensures 2 * e + power / mask % 2 <= power
    ensures 2 * e <= power
  {
    assert Pow(2, j + 1) == 2 * Pow(2, j) && Pow(2, j) * 2 == Pow(2, j + 1);
    DivDiv(power, mask, 2);
    DivMod(power, mask);
    assert j > 0 ==> mask == 2 * Pow(2, j - 1);
    MulMono(1, mask, power / mask);
  }

  lemma {:induction false} FirstBit(power: nat, mask: nat, p: nat)
    requires power > 0 && mask == Pow(2, p) && mask > power && p > 0 && Pow(2, p - 1) <= power
    ensures LeadingBits(power, mask / 4, p - 2, 1)
  {
    DivModUnique(power, Pow(2, p - 1), 1, power - Pow(2, p - 1));
    if p >= 2 {
      assert Pow(2, p) == 4 * Pow(2, p - 2);
    } else {
      assert Pow(2, 1) == 2;
    }
  }

  lemma AllBitsUsed(power: nat, mask: nat, j: int, e: nat)
    requires LeadingBits(power, mask, j, e) && mask == 0
    ensures e == power
  {
  }

  /** Squaring and multiplying follow the exponent. */
  lemma {:induction false} PowSquare(b: nat, e: nat)
    ensures Pow(b, 2 * e) == Pow(b, e) * Pow(b, e) && Pow(b, 2 * e + 1) == b * Pow(b, 2 * e)
  {
    PowAdd(b, e, e);
  }

  /** Whatever part of the power has been reached, it leaves a bigit free. */
  lemma {:induction false} PowerFits(b: nat, power: nat, e: nat)
    requires b > 0 && e <= power && BitSize(b) * power / BIGIT_SIZE + 2 <= CAPACITY
    ensures 0 < Pow(b, e) < P(CAPACITY - 1)
  {
    hide Pow, P;
    var n := BitSize(b);
    BitSizeBound(b);
    PowMono(b, e, power);
    PowBaseMono(b, Pow(2, n), power);
    PowOfPow(2, n, power);
    PIsPow2(CAPACITY - 1);
    PowStrictMono(2, n * power, BIGIT_SIZE * (CAPACITY - 1));
  }

  /** Half the exponent needs at most half the bigits. */
  lemma {:induction false} HalfPowerFits(s: seq<uint32>, b: nat, power: nat, e: nat)
    requires Bigits(s) && |s| > 0 && s[|s| - 1] != 0 && V(s) == Pow(b, e)
    requires b > 0 && 2 * e <= power && BitSize(b) * power / BIGIT_SIZE + 2 <= CAPACITY
    ensures 2 * |s| <= CAPACITY
  {
    hide Pow, P, V;
    var n := BitSize(b);
    VTop(s);
    BitSizeBound(b);
    PowBaseMono(b, Pow(2, n), e);
    PowOfPow(2, n, e);
    PIsPow2(|s| - 1);
    PowCompare(BIGIT_SIZE * (|s| - 1), n * e);
    HalfLength(|s|, n, e, power);
  }

  lemma HalfLength(length: int, n: nat, e: nat, power: nat)
    requires BIGIT_SIZE * (length - 1) <= n * e && 2 * e <= power && n * power / BIGIT_SIZE + 2 <= CAPACITY
    ensures 2 * length <= CAPACITY
  {
    MulMono(2 * e, power, n);
    MulAssoc(2, e, n);
    assert e * n == n * e && power * n == n * power;
  }

  lemma PowCompare(m: nat, n: nat)
    requires Pow(2, m) <= Pow(2, n)
    ensures m <= n
  {
    if n < m {
      PowStrictMono(2, n, m);
    }
  }

  /** base^power from the odd part's power and a shift. */
  lemma {:induction false} OddPower(base: nat, odd: nat, shifts: nat, power: nat)
    requires base == odd * Pow(2, shifts)
    ensures Pow(odd, power) * Pow(2, shifts * power) == Pow(base, power)
  {
    PowOfProduct(odd, Pow(2, shifts), power);
    PowOfPow(2, shifts, power);
  }

  /** Room for one more decimal digit, told from the value. */
  lemma RoomForTen(v: int, e: nat)
    requires 10 * (v * P(e)) < P(CAPACITY + e)
    ensures 10 * v < P(CAPACITY)
  {
    PowAdd(BASE, CAPACITY, e);
    MulAssoc(10, v, P(e));
    MulLtInv(10 * v, P(CAPACITY), P(e));
  }
}
