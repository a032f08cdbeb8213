/** Exact digit generation: the shortest decimal in the rounding interval of a floating-point number. */
module BignumDtoa {
  import opened Powers
  import opened Decimal
  import opened BigitSeq
  import opened BigitArrays
  import opened BignumFacts
  import opened Bignums

  // ---------- what the digits mean ----------

  /**
   * The number v = n/s with its boundaries (n - minus)/s and (n + plus)/s. A decimal on a boundary
   * reads back as v only if v's significand is even.
   */
  datatype Scaled = Scaled(n: nat, s: nat, minus: nat, plus: nat, isEven: bool)

  /** c / 10^k is inside the rounding interval of v. */
  ghost predicate InInterval(v: Scaled, c: int, k: nat) {
    var t := Pow(10, k);
    if v.isEven then (v.n - v.minus) * t <= c * v.s <= (v.n + v.plus) * t
    else (v.n - v.minus) * t < c * v.s < (v.n + v.plus) * t
  }

  /** The distance between c / 10^k and v, scaled. */
  ghost function Distance(v: Scaled, c: int, k: nat): nat {
    var d := c * v.s - v.n * Pow(10, k);
    if d < 0 then -d else d
  }

  /** The digit generator's precondition: 1 <= upper boundary < 10, where an open interval may touch 10. */
  ghost predicate InDecade(v: Scaled) {
    && 0 < v.minus < v.n && 0 < v.plus && 0 < v.s
    && if v.isEven then v.s <= v.n + v.plus < 10 * v.s else v.s < v.n + v.plus <= 10 * v.s
  }

  /** D / 10^(length-1) reads back as v, nothing with fewer digits does, and no other candidate is closer. */
  ghost predicate Shortest(v: Scaled, digits: seq<char>) {
    var D, k := DecVal(digits), |digits| - 1;
    && |digits| >= 1 && AllDigits(digits) && Pow(10, k) <= D < Pow(10, |digits|)
    && InInterval(v, D, k)
    && (forall c: nat, j: nat :: InInterval(v, c, j) ==> c >= Pow(10, k))
    && (forall c: int :: InInterval(v, c, k) && c != D ==>
          || Distance(v, D, k) < Distance(v, c, k)
          || (Distance(v, D, k) == Distance(v, c, k) && D % 2 == 0))
  }

  // ---------- one position after another ----------

  /** D is v cut off at position k; `rest` is the remainder. */
  ghost predicate CutOff(v: Scaled, D: int, k: nat, rest: int) {
    v.n * Pow(10, k) == D * v.s + rest && 0 <= rest < v.s
  }

  /** Rounding down, or up, at position k lands inside the interval. */
  ghost predicate RoomDown(v: Scaled, rest: int, k: nat) {
    if v.isEven then rest <= v.minus * Pow(10, k) else rest < v.minus * Pow(10, k)
  }

  ghost predicate RoomUp(v: Scaled, rest: int, k: nat) {
    if v.isEven then rest + v.plus * Pow(10, k) >= v.s else rest + v.plus * Pow(10, k) > v.s
  }

  /** No candidate at position k. */
  ghost predicate Empty(v: Scaled, k: nat) {
    forall c: int :: !InInterval(v, c, k)
  }

  lemma Boundaries(v: Scaled, k: nat)
    ensures (v.n - v.minus) * Pow(10, k) == v.n * Pow(10, k) - v.minus * Pow(10, k)
    ensures (v.n + v.plus) * Pow(10, k) == v.n * Pow(10, k) + v.plus * Pow(10, k)
  {
    Distribute(v.n, v.minus, Pow(10, k));
    Distribute(v.n, v.plus, Pow(10, k));
  }

  lemma RoundDownInside(v: Scaled, D: int, k: nat, rest: int)
    requires CutOff(v, D, k, rest) && RoomDown(v, rest, k) && v.plus > 0
    ensures InInterval(v, D, k)
  {
    Boundaries(v, k);
    MulMono(1, v.plus, Pow(10, k));
  }

  lemma RoundUpInside(v: Scaled, D: int, k: nat, rest: int)
    requires CutOff(v, D, k, rest) && RoomUp(v, rest, k) && v.minus > 0
    ensures InInterval(v, D + 1, k)
  {
    Boundaries(v, k);
    Distribute(D, 1, v.s);
    MulMono(1, v.minus, Pow(10, k));
  }

  /** Anything inside the interval on the lower side means room to round down, and likewise above. */
  lemma {:induction false} InsideMeansRoom(v: Scaled, D: int, k: nat, rest: int, c: int)
    requires CutOff(v, D, k, rest) && InInterval(v, c, k) && v.s > 0
    ensures c <= D ==> RoomDown(v, rest, k)
    ensures c > D ==> RoomUp(v, rest, k)
  {
    Boundaries(v, k);
    if c <= D {
      MulMono(c, D, v.s);
    } else {
      MulMono(D + 1, c, v.s);
      Distribute(D, 1, v.s);
    }
  }

  lemma {:induction false} NoRoomMeansEmpty(v: Scaled, D: int, k: nat, rest: int)
    requires CutOff(v, D, k, rest) && !RoomDown(v, rest, k) && !RoomUp(v, rest, k)
    ensures Empty(v, k)
  {
    forall c: int
      ensures !InInterval(v, c, k)
    {
      if InInterval(v, c, k) {
        InsideMeansRoom(v, D, k, rest, c);
      }
    }
  }

  /** A candidate stays one when zeros are appended. */
  lemma {:induction false} AppendZeros(v: Scaled, c: int, k: nat, j: nat)
    requires InInterval(v, c, k)
    ensures InInterval(v, c * Pow(10, j), k + j)
    decreases j
  {
    if j > 0 {
      AppendZeros(v, c, k, j - 1);
      AppendZero(v, c * Pow(10, j - 1), k + j - 1);
      assert c * Pow(10, j - 1) * 10 == c * Pow(10, j);
    }
  }

  lemma AppendZero(v: Scaled, c: int, k: nat)
    ensures InInterval(v, c, k) <==> InInterval(v, c * 10, k + 1)
  {
    PowStep(10, k);
    TenTimes(v.n - v.minus, Pow(10, k));
    TenTimes(v.n + v.plus, Pow(10, k));
    TenTimes(c, v.s);
  }

  /** Nothing with at most k digits is inside when the position before the last one has no candidate. */
  lemma {:induction false} NoShorterDecimal(v: Scaled, k: nat, c: nat, j: nat)
    requires InDecade(v) && InInterval(v, c, j)
    requires k > 0 ==> Empty(v, k - 1)
    ensures c >= Pow(10, k)
  {
    if c >= Pow(10, k) {
    } else if k == 0 {
      ZeroOutside(v, j);
    } else if j < k {
      AppendZeros(v, c, j, k - 1 - j);
    } else {
      BelowOne(v, c, j, k);
      AppendZeros(v, 1, 0, k - 1);
    }
  }

  lemma ZeroOutside(v: Scaled, j: nat)
    requires InDecade(v)
    ensures !InInterval(v, 0, j)
  {
    MulMono(1, v.n - v.minus, Pow(10, j));
  }

  /** A candidate below 1 makes 1 itself a candidate. */
  lemma BelowOne(v: Scaled, c: nat, j: nat, k: nat)
    requires InDecade(v) && InInterval(v, c, j) && c < Pow(10, k) && k <= j
    ensures InInterval(v, 1, 0)
  {
    PowMono(10, k, j);
    var t, low := Pow(10, j), v.n - v.minus;
    MulStrictMono(c, t, v.s);
    assert t * v.s == v.s * t;
    MulLtInv(low, v.s, t);
  }

  /** A digit 9 is never rounded up. */
  lemma NineNotRounded(v: Scaled, D: int, k: nat, rest: int)
    requires InDecade(v) && CutOff(v, D, k, rest) && RoomUp(v, rest, k)
    requires if k == 0 then 0 <= D <= 9 else Empty(v, k - 1)
    ensures D % 10 != 9
  {
    RoundUpInside(v, D, k, rest);
    if k == 0 {
      TenOutside(v);
    } else if D % 10 == 9 {
      AppendZero(v, D / 10 + 1, k - 1);
    }
  }

  lemma TenOutside(v: Scaled)
    requires InDecade(v)
    ensures !InInterval(v, 10, 0)
  {
  }

  /** The rounding decision picks the closer candidate, and the even one on a tie. */
  ghost predicate Decision(v: Scaled, D: int, k: nat, rest: int, up: bool) {
    var down, above := RoomDown(v, rest, k), RoomUp(v, rest, k);
    && (down || above)
    && (up <==> above && (!down || 2 * rest > v.s || (2 * rest == v.s && D % 2 == 1)))
  }

  lemma {:induction false} DecisionIsClosest(v: Scaled, D: int, k: nat, rest: int, up: bool)
    requires CutOff(v, D, k, rest) && Decision(v, D, k, rest, up) && v.minus > 0 && v.plus > 0
    ensures var R := if up then D + 1 else D;
            && InInterval(v, R, k)
            && forall c: int :: InInterval(v, c, k) && c != R ==>
                 || Distance(v, R, k) < Distance(v, c, k)
                 || (Distance(v, R, k) == Distance(v, c, k) && R % 2 == 0)
  {
    var R := if up then D + 1 else D;
    if up {
      RoundUpInside(v, D, k, rest);
    } else {
      RoundDownInside(v, D, k, rest);
    }
    forall c: int | InInterval(v, c, k) && c != R
      ensures || Distance(v, R, k) < Distance(v, c, k)
              || (Distance(v, R, k) == Distance(v, c, k) && R % 2 == 0)
    {
      CloserThan(v, D, k, rest, up, c);
    }
  }

  lemma {:induction false} CloserThan(v: Scaled, D: int, k: nat, rest: int, up: bool, c: int)
    requires CutOff(v, D, k, rest) && Decision(v, D, k, rest, up)
    requires InInterval(v, c, k) && c != if up then D + 1 else D
    ensures var R := if up then D + 1 else D;
            || Distance(v, R, k) < Distance(v, c, k)
            || (Distance(v, R, k) == Distance(v, c, k) && R % 2 == 0)
  {
    hide Pow, Distance, RoomDown, RoomUp, InInterval;
    InsideMeansRoom(v, D, k, rest, c);
    Distances(v, D, k, rest, c);
    Distances(v, D, k, rest, if up then D + 1 else D);
  }

  lemma {:induction false} Distances(v: Scaled, D: int, k: nat, rest: int, c: int)
    requires CutOff(v, D, k, rest)
    ensures c <= D ==> Distance(v, c, k) == rest + (D - c) * v.s
    ensures c > D ==> Distance(v, c, k) == v.s - rest + (c - D - 1) * v.s
    ensures c < D ==> Distance(v, c, k) >= rest + v.s
    ensures c > D + 1 ==> Distance(v, c, k) >= v.s - rest + v.s
  {
    Distribute(D, c, v.s);
    Distribute(c, D, v.s);
    Distribute(c - D, 1, v.s);
    if c < D {
      MulMono(1, D - c, v.s);
    } else if c > D + 1 {
      MulMono(1, c - D - 1, v.s);
    }
    if c > D {
      MulMono(0, c - D - 1, v.s);
    } else {
      MulMono(0, D - c, v.s);
    }
  }

  // ---------- GenerateShortestDigits ----------

  ghost predicate Separate(a: Bignum, b: Bignum) {
    a != b && a.bigits != b.bigits
  }

  /** x has room for ten times the denominator s. */
  ghost predicate Room(x: Bignum, s: nat)
    reads x
  {
    0 <= x.exponent && 10 * s < P(CAPACITY + x.exponent)
  }

  lemma {:induction false} RoomToAlign(x: Bignum, other: Bignum)
    requires x.Valid() && other.Valid() && x.Value() < 10 * other.Value() && Room(other, other.Value())
    ensures x.BigitLength() - other.exponent <= CAPACITY
  {
    hide V, P;
    if x.used > 0 {
      LengthBounds(x.Mantissa(), x.exponent);
      PowerBelow(x.BigitLength() - 1, CAPACITY + other.exponent);
    }
  }

  lemma PowerBelow(m: nat, n: nat)
    requires P(m) < P(n)
    ensures m < n
  {
    PowLtInv(BASE, m, n);
  }

  /** One more digit: the quotient goes to the buffer, the remainder stays. */
  method NextDigit(numerator: Bignum, denominator: Bignum, buffer: array<char>, length: nat, ghost v: Scaled,
                   ghost D: int)
    returns (digit: int)
    requires numerator.Valid() && denominator.Valid() && Separate(numerator, denominator)
    requires length < buffer.Length && AllDigits(buffer[..length]) && D == DecVal(buffer[..length])
    requires denominator.Value() == v.s > 0 && Room(denominator, v.s) && Room(numerator, v.s)
    requires numerator.Value() < 10 * v.s
    requires v.n * Pow(10, length) == D * 10 * v.s + numerator.Value()
    modifies numerator, numerator.bigits, buffer
    ensures numerator.Valid() && denominator.Valid() && denominator.Value() == v.s
    ensures denominator.exponent == old(denominator.exponent)
    ensures numerator.used > 0 ==> Room(numerator, v.s)
    ensures 0 <= digit <= 9 && buffer[..length + 1] == old(buffer[..length]) + [DigitChar(digit)]
    ensures AllDigits(buffer[..length + 1]) && DecVal(buffer[..length + 1]) == D * 10 + digit
    ensures CutOff(v, D * 10 + digit, length, numerator.Value())
  {
    hide V, P, Pow, DecVal;
    RoomToAlign(numerator, denominator);
    ghost var before := buffer[..length];
    var quotient := numerator.DivideModuloIntBignum(denominator);
    digit := quotient as int;
    SmallQuotient(digit, v.s, old(numerator.Value()), numerator.Value(), D);
    buffer[length] := DigitChar(digit);
    assert buffer[..length + 1] == before + [DigitChar(digit)];
    DecValAppend(before, DigitChar(digit));
  }

  lemma PositiveUsed(x: Bignum)
    requires x.Valid() && x.Value() > 0
    ensures x.used > 0
  {
    NothingIsZero(x.Mantissa(), x.exponent);
  }

  lemma SmallQuotient(q: int, s: int, total: int, rest: int, D: int)
    requires s > 0 && q >= 0 && total == q * s + rest && 0 <= rest && total < 10 * s
    ensures q <= 9 && D * 10 * s + total == (D * 10 + q) * s + rest
  {
    Distribute(D * 10, q, s);
    if q >= 10 {
      MulMono(10, q, s);
    }
  }

  /** Whether rounding down or up would already give a candidate. */
  method DeltaRoom(numerator: Bignum, denominator: Bignum, deltaMinus: Bignum, deltaPlus: Bignum, isEven: bool,
                   ghost v: Scaled, ghost k: nat)
    returns (inDeltaRoomMinus: bool, inDeltaRoomPlus: bool)
    requires numerator.Valid() && denominator.Valid() && deltaMinus.Valid() && deltaPlus.Valid()
    requires denominator.Value() == v.s && isEven == v.isEven
    requires deltaMinus.Value() == v.minus * Pow(10, k) && deltaPlus.Value() == v.plus * Pow(10, k)
    ensures inDeltaRoomMinus <==> RoomDown(v, numerator.Value(), k)
    ensures inDeltaRoomPlus <==> RoomUp(v, numerator.Value(), k)
  {
    hide V, P, Pow;
    if isEven {
      inDeltaRoomMinus := LessEqual(numerator, deltaMinus);
    } else {
      inDeltaRoomMinus := Less(numerator, deltaMinus);
    }
    var sum := PlusCompare(numerator, deltaPlus, denominator);
    if isEven {
      inDeltaRoomPlus := sum >= 0;
    } else {
      inDeltaRoomPlus := sum > 0;
    }
  }

  /** Everything but the denominator times ten; a shared delta is multiplied once. */
  method ScaleUp(numerator: Bignum, deltaMinus: Bignum, deltaPlus: Bignum, ghost s: nat)
    requires numerator.Valid() && deltaMinus.Valid() && deltaPlus.Valid()
    requires Separate(numerator, deltaMinus) && Separate(numerator, deltaPlus)
    requires deltaMinus == deltaPlus || Separate(deltaMinus, deltaPlus)
    requires numerator.Value() <= s && deltaMinus.Value() <= s && deltaPlus.Value() <= s
    requires Room(numerator, s) && Room(deltaMinus, s) && Room(deltaPlus, s)
    modifies numerator, numerator.bigits, deltaMinus, deltaMinus.bigits, deltaPlus, deltaPlus.bigits
    ensures numerator.Valid() && deltaMinus.Valid() && deltaPlus.Valid()
    ensures numerator.Value() == 10 * old(numerator.Value())
    ensures deltaMinus.Value() == 10 * old(deltaMinus.Value())
    ensures deltaPlus.Value() == 10 * old(deltaPlus.Value())
    ensures Room(numerator, s) && Room(deltaMinus, s) && Room(deltaPlus, s)
  {
    hide V, P;
    numerator.Times10();
    deltaMinus.Times10();
    if deltaMinus != deltaPlus {
      deltaPlus.Times10();
    }
  }

  method RoundLastUp(buffer: array<char>, length: nat)
    requires 0 < length <= buffer.Length && AllDigits(buffer[..length]) && DecVal(buffer[..length]) % 10 != 9
    modifies buffer
    ensures AllDigits(buffer[..length]) && DecVal(buffer[..length]) == old(DecVal(buffer[..length])) + 1
  {
    ghost var before := buffer[..length];
    var last := buffer[length - 1];
    assert before[length - 1] == last;
    LastDigit(before);
    buffer[length - 1] := DigitChar(DigitVal(last) + 1);
    assert buffer[..length] == before[length - 1 := buffer[length - 1]];
    DecValLast(before, buffer[length - 1]);
  }

  lemma LastDigit(s: seq<char>)
    requires |s| > 0 && AllDigits(s)
    ensures DecVal(s) % 10 == DigitVal(s[|s| - 1])
  {
    DivModUnique(DecVal(s), 10, DecVal(s[..|s| - 1]), DigitVal(s[|s| - 1]));
  }

  /** The state before the digit at position k is generated. */
  ghost predicate AtPosition(v: Scaled, D: int, k: nat, numerator: int, deltaMinus: int, deltaPlus: int) {
    && v.n * Pow(10, k) == D * 10 * v.s + numerator && 0 < numerator < 10 * v.s
    && deltaMinus == v.minus * Pow(10, k) && deltaPlus == v.plus * Pow(10, k)
    && 0 < deltaMinus < 10 * v.s
    && (if k == 0 then D == 0 else Empty(v, k - 1) && v.minus * Pow(10, k - 1) < v.s)
  }

  lemma Start(v: Scaled)
    requires InDecade(v)
    ensures AtPosition(v, 0, 0, v.n, v.minus, v.plus)
  {
  }

  /** No room on either side: the next position starts from ten times everything. */
  lemma {:induction false} GoOn(v: Scaled, D: int, k: nat, rest: int, deltaMinus: int, deltaPlus: int)
    requires InDecade(v) && CutOff(v, D, k, rest) && !RoomDown(v, rest, k) && !RoomUp(v, rest, k)
    requires deltaMinus == v.minus * Pow(10, k) && deltaPlus == v.plus * Pow(10, k) && 0 < deltaMinus
    ensures deltaMinus <= rest < v.s && deltaPlus <= v.s && deltaMinus < v.s
    ensures AtPosition(v, D, k + 1, 10 * rest, 10 * deltaMinus, 10 * deltaPlus)
  {
    hide Pow;
    NoRoomMeansEmpty(v, D, k, rest);
    TenTimes(v.n, Pow(10, k));
    TenTimes(v.minus, Pow(10, k));
    TenTimes(v.plus, Pow(10, k));
    TenTimes(D, v.s);
    PowStep(10, k);
  }

  lemma TenTimes(x: int, t: int)
    ensures x * (10 * t) == 10 * (x * t) && x * 10 * t == 10 * (x * t)
  {
  }

  /** The buffer is long enough as long as the lower delta has not reached the denominator. */
  lemma StillRoomInBuffer(v: Scaled, D: int, k: nat, n: int, dm: int, dp: int, capacity: nat)
    requires AtPosition(v, D, k, n, dm, dp)
    requires capacity >= 1 && v.minus * Pow(10, capacity - 1) >= v.s
    ensures k < capacity
  {
    if k >= capacity {
      PowMono(10, capacity - 1, k - 1);
      MulMonoRight(v.minus, Pow(10, capacity - 1), Pow(10, k - 1));
    }
  }

  /** The rounding decision at the first position with a candidate gives the shortest digits. */
  lemma {:induction false} Stop(v: Scaled, D: int, k: nat, rest: int, up: bool, digits: seq<char>)
    requires InDecade(v) && CutOff(v, D, k, rest) && Decision(v, D, k, rest, up)
    requires k > 0 ==> Empty(v, k - 1)
    requires AllDigits(digits) && |digits| == k + 1 && DecVal(digits) == if up then D + 1 else D
    ensures Shortest(v, digits)
  {
    DecisionIsClosest(v, D, k, rest, up);
    DecValBound(digits);
    forall c: nat, j: nat | InInterval(v, c, j)
      ensures c >= Pow(10, k)
    {
      NoShorterDecimal(v, k, c, j);
    }
  }

  ghost predicate AllValid(numerator: Bignum, denominator: Bignum, deltaMinus: Bignum, deltaPlus: Bignum, s: nat)
    reads numerator, numerator.bigits, denominator, denominator.bigits
    reads deltaMinus, deltaMinus.bigits, deltaPlus, deltaPlus.bigits
  {
    && numerator.Valid() && denominator.Valid() && deltaMinus.Valid() && deltaPlus.Valid()
    && denominator.Value() == s && Room(denominator, s)
    && Room(numerator, s) && Room(deltaMinus, s) && Room(deltaPlus, s)
  }

  ghost predicate AllSeparate(numerator: Bignum, denominator: Bignum, deltaMinus: Bignum, deltaPlus: Bignum) {
    && Separate(numerator, denominator) && Separate(numerator, deltaMinus) && Separate(numerator, deltaPlus)
    && Separate(denominator, deltaMinus) && Separate(denominator, deltaPlus)
  }

  /** Generates the digit at position k and either decides the rounding or prepares the next position. */
  method OnePosition(numerator: Bignum, denominator: Bignum, deltaMinus: Bignum, deltaPlus: Bignum, isEven: bool,
                     buffer: array<char>, k: nat, ghost v: Scaled, ghost D: int)
    returns (digit: int, done: bool, up: bool, ghost rest: int)
    requires AllSeparate(numerator, denominator, deltaMinus, deltaPlus)
    requires deltaMinus == deltaPlus || Separate(deltaMinus, deltaPlus)
    requires AllValid(numerator, denominator, deltaMinus, deltaPlus, v.s)
    requires InDecade(v) && isEven == v.isEven
    requires AtPosition(v, D, k, numerator.Value(), deltaMinus.Value(), deltaPlus.Value())
    requires k < buffer.Length && AllDigits(buffer[..k]) && D == DecVal(buffer[..k])
    modifies numerator, numerator.bigits, deltaMinus, deltaMinus.bigits, deltaPlus, deltaPlus.bigits, buffer
    ensures 0 <= digit <= 9
    ensures AllDigits(buffer[..k + 1]) && DecVal(buffer[..k + 1]) == D * 10 + digit
    ensures CutOff(v, D * 10 + digit, k, rest)
    ensures !done ==>
      && AllValid(numerator, denominator, deltaMinus, deltaPlus, v.s)
      && AtPosition(v, D * 10 + digit, k + 1, numerator.Value(), deltaMinus.Value(), deltaPlus.Value())
      && deltaMinus.Value() == 10 * old(deltaMinus.Value()) > 0
    ensures done ==> Decision(v, D * 10 + digit, k, rest, up) && (up ==> RoomUp(v, rest, k))
  {
    hide V, P, Pow, DecVal, AllDigits, AtPosition, CutOff, RoomDown, RoomUp, Empty, InDecade, Decision, Bignum.Valid,
         Bignum.Value, Room;
    Unpack(v, D, k, numerator.Value(), deltaMinus.Value(), deltaPlus.Value());
    digit := NextDigit(numerator, denominator, buffer, k, v, D);
    rest := numerator.Value();
    done, up := Decide(numerator, denominator, deltaMinus, deltaPlus, isEven, digit, k, v, D * 10 + digit);
  }

  /** Decides the rounding if there is room on a side, and otherwise scales up for the next position. */
  method Decide(numerator: Bignum, denominator: Bignum, deltaMinus: Bignum, deltaPlus: Bignum, isEven: bool,
                digit: int, ghost k: nat, ghost v: Scaled, ghost D: int)
    returns (done: bool, up: bool)
    requires AllSeparate(numerator, denominator, deltaMinus, deltaPlus)
    requires deltaMinus == deltaPlus || Separate(deltaMinus, deltaPlus)
    requires numerator.Valid() && denominator.Valid() && deltaMinus.Valid() && deltaPlus.Valid()
    requires denominator.Value() == v.s && Room(denominator, v.s) && (numerator.used > 0 ==> Room(numerator, v.s))
    requires Room(deltaMinus, v.s) && Room(deltaPlus, v.s)
    requires InDecade(v) && isEven == v.isEven && digit % 2 == D % 2
    requires CutOff(v, D, k, numerator.Value())
    requires deltaMinus.Value() == v.minus * Pow(10, k) && deltaPlus.Value() == v.plus * Pow(10, k)
             && 0 < deltaMinus.Value()
    modifies numerator, numerator.bigits, deltaMinus, deltaMinus.bigits, deltaPlus, deltaPlus.bigits
    ensures !done ==>
      && AllValid(numerator, denominator, deltaMinus, deltaPlus, v.s)
      && AtPosition(v, D, k + 1, numerator.Value(), deltaMinus.Value(), deltaPlus.Value())
      && deltaMinus.Value() == 10 * old(deltaMinus.Value()) > 0
    ensures done ==> Decision(v, D, k, old(numerator.Value()), up) && (up ==> RoomUp(v, old(numerator.Value()), k))
  {
    hide V, P, Pow, AtPosition, CutOff, RoomDown, RoomUp, InDecade, Decision, Bignum.Valid, Bignum.Value, Room;
    var inDeltaRoomMinus, inDeltaRoomPlus :=
      DeltaRoom(numerator, denominator, deltaMinus, deltaPlus, isEven, v, k);
    if !inDeltaRoomMinus && !inDeltaRoomPlus {
      GoOn(v, D, k, numerator.Value(), deltaMinus.Value(), deltaPlus.Value());
      PositiveUsed(numerator);
      ScaleUp(numerator, deltaMinus, deltaPlus, v.s);
      done, up := false, false;
    } else {
      up := RoundUpNeeded(numerator, denominator, digit, inDeltaRoomMinus, inDeltaRoomPlus, v, D, k);
      done := true;
    }
  }

  /** Generates the shortest digits for the number numerator/denominator with its two deltas. */
  method GenerateShortestDigits(numerator: Bignum, denominator: Bignum, deltaMinus: Bignum, deltaPlus0: Bignum,
                                isEven: bool, buffer: array<char>, ghost v: Scaled)
    returns (length: nat)
    requires AllSeparate(numerator, denominator, deltaMinus, deltaPlus0) && Separate(deltaMinus, deltaPlus0)
    requires AllValid(numerator, denominator, deltaMinus, deltaPlus0, v.s)
    requires v == Scaled(numerator.Value(), denominator.Value(), deltaMinus.Value(), deltaPlus0.Value(), isEven)
    requires InDecade(v)
    requires buffer.Length >= 1 && v.minus * Pow(10, buffer.Length - 1) >= v.s
    modifies numerator, numerator.bigits, deltaMinus, deltaMinus.bigits, deltaPlus0, deltaPlus0.bigits, buffer
    ensures length <= buffer.Length && Shortest(v, buffer[..length])
  {
    hide V, P, Pow, DecVal, AllDigits, AtPosition, CutOff, RoomUp, Empty, InDecade, Shortest, Decision, Bignum.Valid,
         Bignum.Value;
    var deltaPlus := deltaPlus0;
    // Equal deltas share one object.
    var same := Equal(deltaMinus, deltaPlus);
    if same {
      deltaPlus := deltaMinus;
    }
    length := 0;
    ghost var D := 0;
    Start(v);
    NoDigits(buffer[..0]);
    while true
      invariant AllValid(numerator, denominator, deltaMinus, deltaPlus, v.s)
      invariant deltaPlus == deltaMinus || deltaPlus == deltaPlus0
      invariant AtPosition(v, D, length, numerator.Value(), deltaMinus.Value(), deltaPlus.Value())
      invariant length <= buffer.Length && AllDigits(buffer[..length]) && D == DecVal(buffer[..length])
      decreases 10 * v.s - deltaMinus.Value()
    {
      Unpack(v, D, length, numerator.Value(), deltaMinus.Value(), deltaPlus.Value());
      StillRoomInBuffer(v, D, length, numerator.Value(), deltaMinus.Value(), deltaPlus.Value(), buffer.Length);
      var digit, done, up;
      ghost var rest;
      digit, done, up, rest := OnePosition(numerator, denominator, deltaMinus, deltaPlus, isEven, buffer, length, v, D);
      length := length + 1;
      if done {
        if up {
          NoNine(v, D * 10 + digit, length - 1, rest, digit);
          RoundLastUp(buffer, length);
        }
        Stop(v, D * 10 + digit, length - 1, rest, up, buffer[..length]);
        return;
      }
      D := D * 10 + digit;
    }
  }

  lemma Unpack(v: Scaled, D: int, k: nat, n: int, dm: int, dp: int)
    requires AtPosition(v, D, k, n, dm, dp)
    ensures v.n * Pow(10, k) == D * 10 * v.s + n && 0 < n < 10 * v.s
    ensures dm == v.minus * Pow(10, k) && dp == v.plus * Pow(10, k) && 0 < dm < 10 * v.s
    ensures if k == 0 then D == 0 else Empty(v, k - 1)
  {
  }

  lemma NoNine(v: Scaled, D: int, k: nat, rest: int, digit: int)
    requires InDecade(v) && CutOff(v, D, k, rest) && RoomUp(v, rest, k)
    requires if k == 0 then D == digit else Empty(v, k - 1)
    requires 0 <= digit <= 9
    ensures D % 10 != 9
  {
    NineNotRounded(v, D, k, rest);
  }

  /** The decision once a candidate is in reach; remainders of exactly one half go to the even digit. */
  method RoundUpNeeded(numerator: Bignum, denominator: Bignum, digit: int, roomMinus: bool, roomPlus: bool,
                       ghost v: Scaled, ghost D: int, ghost k: nat)
    returns (up: bool)
    requires numerator.Valid() && denominator.Valid() && denominator.Value() == v.s
    requires roomMinus == RoomDown(v, numerator.Value(), k) && roomPlus == RoomUp(v, numerator.Value(), k)
    requires (roomMinus || roomPlus) && digit % 2 == D % 2
    ensures Decision(v, D, k, numerator.Value(), up)
    ensures up ==> roomPlus
  {
    hide V, P, Pow, RoomDown, RoomUp;
    if roomMinus && roomPlus {
      var compare := PlusCompare(numerator, numerator, denominator);
      if compare < 0 {
        up := false;
      } else if compare > 0 {
        up := true;
      } else {
        // Halfway case.
        up := digit % 2 != 0;
      }
    } else if roomMinus {
      up := false;
    } else {
      up := true;
    }
  }
}
