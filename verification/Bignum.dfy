/** The fixed-capacity big natural number: 28-bit bigits in an array, times a power of 2^28. */
module Bignums {
  import opened Powers
  import opened Words
  import opened BigitSeq
  import opened BigitArrays
  import opened BignumFacts
  import opened BigitSquare
  import opened Decimal

  class Bignum {
    var used: int16      // used_bigits_
    var exponent: int16  // exponent_
    const bigits: array<uint32>

    ghost predicate Valid()
      reads this, bigits
    {
      && bigits.Length == CAPACITY
      && 0 <= used <= CAPACITY && 0 <= exponent
      && Bigits(Mantissa())
      && (used > 0 ==> bigits[used - 1] != 0)  // IsClamped
      && (used == 0 ==> exponent == 0)
    }

    /** The bigits in use. */
    ghost function Mantissa(): seq<uint32>
      reads this, bigits
      requires 0 <= used <= bigits.Length
    {
      bigits[..used]
    }

    /** The number this object stands for. */
    ghost function Value(): nat
      reads this, bigits
      requires Valid()
    {
      V(Mantissa()) * P(exponent)
    }

    /** The number of bigits including the ones the exponent hides. */
    function BigitLength(): int
      reads this
    {
      used + exponent
    }

    constructor ()
      ensures Valid() && Value() == 0 && fresh(bigits)
    {
      bigits := new uint32[CAPACITY];
      used, exponent := 0, 0;
      new;
      assert Mantissa() == [];
    }

    method Zero()
      requires Valid()
      modifies this
      ensures Valid() && Value() == 0 && used == 0 && exponent == 0
    {
      used, exponent := 0, 0;
      assert Mantissa() == [];
    }

    method AssignUInt16(value: uint16)
      requires Valid()
      modifies this, bigits
      ensures Valid() && Value() == value as int && exponent == 0
    {
      Zero();
      if value > 0 {
        bigits[0] := value as uint32;
        used := 1;
        assert Mantissa() == [] + [value as uint32];
        VPush([], value as uint32);
      }
    }

    method AssignUInt64(value: uint64)
      requires Valid()
      modifies this, bigits
      ensures Valid() && Value() == value as int && exponent == 0
    {
      Zero();
      var rest := value;
      var i := 0;
      while rest > 0
        invariant 0 <= i <= 3 && used == i && exponent == 0 && bigits.Length == CAPACITY
        invariant Bigits(Mantissa())
        invariant V(Mantissa()) + rest as int * P(i) == value as int
        invariant rest as int < if i == 0 then 0x1_0000_0000_0000_0000
                                else if i == 1 then 0x10_0000_0000
                                else if i == 2 then 0x100
                                else 1
        invariant i > 0 && rest == 0 ==> bigits[i - 1] != 0
        decreases rest
      {
        ghost var s := Mantissa();
        bigits[i] := (rest % 0x1000_0000) as uint32;
        used := used + 1;
        assert Mantissa() == s + [bigits[i]];
        VPush(s, bigits[i]);
        DigitOut(V(s), rest as int, P(i), value as int);
        PNext(i);
        rest := rest / 0x1000_0000;
        i := i + 1;
      }
    }

    method AssignBignum(other: Bignum)
      requires Valid() && other.Valid() && other != this && other.bigits != bigits
      modifies this, bigits
      ensures Valid() && Mantissa() == other.Mantissa() && exponent == other.exponent && Value() == other.Value()
    {
      exponent := other.exponent;
      for i := 0 to other.used
        modifies bigits
        invariant bigits[..i] == other.bigits[..i]
      {
        bigits[i] := other.bigits[i];
      }
      used := other.used;
    }

    /** Forgets zero bigits at the top. */
    method Clamp()
      requires bigits.Length == CAPACITY && 0 <= used <= CAPACITY && 0 <= exponent && Bigits(Mantissa())
      modifies this
      ensures Valid() && Value() == old(V(Mantissa()) * P(exponent))
      ensures used <= old(used) && (used > 0 ==> exponent == old(exponent))
      ensures used == 0 || Mantissa() == old(Mantissa())[..used]
    {
      while used > 0 && bigits[used - 1] == 0
        invariant 0 <= used <= old(used) && exponent == old(exponent)
        invariant forall i :: used <= i < old(used) ==> bigits[i] == 0
      {
        used := used - 1;
      }
      assert old(Mantissa())[..used] == Mantissa();
      VDropTop(old(Mantissa()), used);
      if used == 0 {
        exponent := 0;
      }
    }

    /** Makes hidden zero bigits explicit until the exponent is no larger than other's. */
    method Align(other: Bignum)
      requires Valid() && other.Valid() && other != this
      requires exponent > other.exponent ==> BigitLength() - other.exponent <= CAPACITY
      modifies this, bigits
      ensures Valid() && Value() == old(Value()) && BigitLength() == old(BigitLength())
      ensures exponent == if old(exponent) > other.exponent then other.exponent else old(exponent)
    {
      hide V, P, Spread;
      if exponent > other.exponent {
        var zeroBigits := exponent - other.exponent;
        ghost var s, e := Mantissa(), exponent;
        MoveUp(bigits, used, zeroBigits);
        assert used > 0 ==> bigits[used + zeroBigits - 1] == s[used - 1] by {
          SpreadTop(s, zeroBigits, used + zeroBigits);
        }
        used := used + zeroBigits;
        exponent := exponent - zeroBigits;
        SpreadAligned(s, zeroBigits, e);
      }
    }

    /** this -= factor * other, for this >= factor * other and exponents already aligned. */
    method SubtractTimes(other: Bignum, factor: uint32)
      requires Valid() && other.Valid() && other != this && other.bigits != bigits
      requires exponent <= other.exponent && (factor as int) < BASE && other.used > 0
      requires factor as int * other.Value() <= Value()
      modifies this, bigits
      ensures Valid() && Value() == old(Value()) - factor as int * other.Value()
      ensures used > 0 ==> exponent == old(exponent)
      ensures other.Valid() && other.Value() == old(other.Value())
    {
      hide V, P;
      if factor < 3 {
        for i := 0 to factor as int
          invariant Valid() && other.Valid() && other.Value() == old(other.Value())
          invariant exponent <= other.exponent && (used > 0 ==> exponent == old(exponent))
          invariant Value() == old(Value()) - i * other.Value()
        {
          OneMore(i, factor as int, other.Value());
          Positive(other.Mantissa(), other.exponent);
          assert used > 0 by { NothingIsZero(Mantissa(), exponent); }
          SubtractBignum(other);
        }
        return;
      }
      ghost var s, t, e := Mantissa(), other.Mantissa(), exponent;
      var exponentDiff := other.exponent - exponent;
      TimesFits(s, e, t, other.exponent, factor as int);
      var toTheEnd := SubtractTimesAt(bigits, used, other.bigits, other.used, exponentDiff, factor);
      assert other.Mantissa() == t;
      TimesValue(s, Mantissa(), e, t, other.exponent, factor as int);
      if toTheEnd {
        Clamp();
      }
    }

    /** this -= other, for this >= other. */
    method SubtractBignum(other: Bignum)
      requires Valid() && other.Valid() && other != this && other.bigits != bigits
      requires other.Value() <= Value()
      requires exponent > other.exponent ==> BigitLength() - other.exponent <= CAPACITY
      modifies this, bigits
      ensures Valid() && Value() == old(Value()) - other.Value()
      ensures used > 0 ==> exponent == if old(exponent) > other.exponent then other.exponent else old(exponent)
      ensures other.Valid() && other.Value() == old(other.Value())
    {
      hide V, P;
      Align(other);
      ghost var s, t, e := Mantissa(), other.Mantissa(), exponent;
      var offset := other.exponent - exponent;
      if other.used > 0 {
        TimesFits(s, e, t, other.exponent, 1);
      } else {
        NothingFits(s, t, offset);
      }
      SubtractAt(bigits, used, other.bigits, other.used, offset);
      assert other.Mantissa() == t;
      TimesValue(s, Mantissa(), e, t, other.exponent, 1);
      Clamp();
    }

    /**
     * this, other = this % other and the quotient, for a quotient of at most 16 bits. Works by
     * subtraction and is meant for quotients below ten.
     */
    method DivideModuloIntBignum(other: Bignum) returns (result: uint16)
      requires Valid() && other.Valid() && other != this && other.bigits != bigits
      requires other.Value() > 0 && Value() < 0x10000 * other.Value()
      requires exponent > other.exponent ==> BigitLength() - other.exponent <= CAPACITY
      modifies this, bigits
      ensures Valid() && other.Valid() && other.Value() == old(other.Value())
      ensures old(Value()) == result as int * other.Value() + Value() && Value() < other.Value()
      ensures used > 0 ==> exponent == old(exponent) || exponent == other.exponent < old(exponent)
    {
      hide V, P;
      if other.used == 0 {
        NothingIsZero(other.Mantissa(), other.exponent);
      }
      if BigitLength() < other.BigitLength() {
        ShorterIsLess(this, other);
        return 0;
      }
      Align(other);
      result := ReduceLength(other);
      var quotient := DivideTop(other);
      AddQuotients(result as int, quotient as int, other.Value(), old(Value()), Value());
      result := result + quotient;
    }

    /** Subtracts other as often as the top bigit says, as long as this is longer; it may end up shorter. */
    method ReduceLength(other: Bignum) returns (result: uint16)
      requires Valid() && other.Valid() && other != this && other.bigits != bigits
      requires other.used > 0 && Value() < 0x10000 * other.Value()
      requires exponent <= other.exponent && BigitLength() >= other.BigitLength()
      modifies this, bigits
      ensures Valid() && other.Valid() && other.Value() == old(other.Value())
      ensures other.used == old(other.used) && other.exponent == old(other.exponent)
      ensures old(Value()) == result as int * other.Value() + Value()
      ensures used > 0 && exponent == old(exponent) && BigitLength() <= other.BigitLength()
      ensures BigitLength() < other.BigitLength() ==> Value() >= P(other.BigitLength()) - other.Value()
    {
      hide V, P;
      ghost var n := other.BigitLength();
      result := 0;
      Positive(other.Mantissa(), other.exponent);
      while BigitLength() > other.BigitLength()
        invariant Valid() && other.Valid() && other.Value() == old(other.Value())
        invariant other.used == old(other.used) && other.exponent == old(other.exponent)
        invariant used > 0 && exponent == old(exponent)
        invariant old(Value()) == result as int * other.Value() + Value()
        invariant BigitLength() >= n || Value() >= P(n) - other.Value()
        decreases Value()
      {
        var top := bigits[used - 1];
        ghost var before := Value();
        TopMultiple(Mantissa(), exponent, other.Mantissa(), other.exponent, result as int, old(Value()));
        SubtractTimes(other, top);
        AddQuotients(result as int, top as int, other.Value(), old(Value()), Value());
        result := result + top as uint16;
        if used == 0 {
          NothingIsZero(Mantissa(), 0);
        }
      }
    }

    /** The quotient and remainder once this is no longer than other. */
    method DivideTop(other: Bignum) returns (quotient: uint16)
      requires Valid() && other.Valid() && other != this && other.bigits != bigits
      requires other.used > 0 && used > 0 && Value() < 0x10000 * other.Value()
      requires exponent <= other.exponent && BigitLength() <= other.BigitLength()
      requires BigitLength() < other.BigitLength() ==> Value() >= P(other.BigitLength()) - other.Value()
      modifies this, bigits
      ensures Valid() && other.Valid() && other.Value() == old(other.Value())
      ensures old(Value()) == quotient as int * other.Value() + Value() && Value() < other.Value()
      ensures used > 0 ==> exponent == old(exponent)
    {
      hide V, P;
      var thisBigit := bigits[used - 1];
      var otherBigit := other.bigits[other.used - 1];
      ghost var s, t := Mantissa(), other.Mantissa();
      if BigitLength() < other.BigitLength() {
        OtherIsAlmostPower(s, exponent, t, other.exponent);
      }
      if other.used == 1 {
        quotient := DivideSingle(other);
        return;
      }
      var estimate := thisBigit / (otherBigit + 1);
      Estimate(s, exponent, t, other.exponent, estimate as int);
      SubtractTimes(other, estimate);
      if otherBigit * (estimate + 1) > thisBigit {
        quotient := estimate as uint16;
        return;
      }
      quotient := CorrectUpwards(other, estimate as uint16, old(Value()));
    }

    /** Shortcut for the easy and common case of a divisor with one bigit. */
    method DivideSingle(other: Bignum) returns (quotient: uint16)
      requires Valid() && other.Valid() && other != this && other.bigits != bigits
      requires other.used == 1 && used > 0 && Value() < 0x10000 * other.Value()
      requires BigitLength() == other.BigitLength()
      modifies this, bigits
      ensures Valid() && other.Valid() && other.Value() == old(other.Value())
      ensures old(Value()) == quotient as int * other.Value() + Value() && Value() < other.Value()
      ensures used > 0 ==> exponent == old(exponent)
    {
      hide V, P;
      ghost var s, t := Mantissa(), other.Mantissa();
      var thisBigit, otherBigit := bigits[used - 1], other.bigits[0];
      var q := thisBigit / otherBigit;
      SingleBigit(s, exponent, t, other.exponent, q as int);
      bigits[used - 1] := thisBigit - otherBigit * q;
      assert Mantissa() == s[used - 1 := thisBigit - otherBigit * q];
      assert other.Mantissa() == t;
      quotient := q as uint16;
      Clamp();
    }

    /** Subtracts other until what is left is smaller. */
    method CorrectUpwards(other: Bignum, quotient0: uint16, ghost total: int) returns (quotient: uint16)
      requires Valid() && other.Valid() && other != this && other.bigits != bigits
      requires other.used > 0 && exponent <= other.exponent
      requires total == quotient0 as int * other.Value() + Value() && total < 0x10000 * other.Value()
      modifies this, bigits
      ensures Valid() && other.Valid() && other.Value() == old(other.Value())
      ensures total == quotient as int * other.Value() + Value() && Value() < other.Value()
      ensures used > 0 ==> old(used) > 0 && exponent == old(exponent)
    {
      hide V, P;
      quotient := quotient0;
      Positive(other.Mantissa(), other.exponent);
      var fits := LessEqual(other, this);
      while fits
        invariant Valid() && other.Valid() && other.Value() == old(other.Value())
        invariant exponent <= other.exponent && (used > 0 ==> old(used) > 0 && exponent == old(exponent))
        invariant total == quotient as int * other.Value() + Value()
        invariant fits <==> other.Value() <= Value()
        decreases Value()
      {
        assert used > 0 by { NothingIsZero(Mantissa(), exponent); }
        OneMoreFits(quotient as int, other.Value(), Value(), total);
        SubtractBignum(other);
        quotient := quotient + 1;
        fits := LessEqual(other, this);
      }
    }

    /** Appends what a multiplication still carries. */
    method PushCarry(carry0: uint64, ghost target: nat)
      requires bigits.Length == CAPACITY && 0 <= used <= CAPACITY && 0 <= exponent && Bigits(Mantissa())
      requires V(Mantissa()) + carry0 as int * P(used) == target < P(CAPACITY)
      requires used > 0 && P(used - 1) <= target
      modifies this`used, bigits
      ensures Valid() && used > 0 && V(Mantissa()) == target
    {
      hide V, P;
      var carry := carry0;
      while carry != 0
        invariant bigits.Length == CAPACITY && 0 < used <= CAPACITY && Bigits(Mantissa())
        invariant V(Mantissa()) + carry as int * P(used) == target
        invariant P(used - 1) <= target
        decreases carry
      {
        RoomForCarry(V(Mantissa()), carry as int, used, target);
        ghost var s := Mantissa();
        bigits[used] := (carry % 0x1000_0000) as uint32;
        used := used + 1;
        assert Mantissa() == s + [bigits[used - 1]];
        VPush(s, bigits[used - 1]);
        DigitOut(V(s), carry as int, P(used - 1), target);
        PNext(used - 1);
        carry := carry / 0x1000_0000;
      }
      VTop(Mantissa());
    }

    method MultiplyByUInt32(factor: uint32)
      requires Valid() && factor as int * V(Mantissa()) < P(CAPACITY)
      modifies this, bigits
      ensures Valid() && Value() == factor as int * old(Value())
      ensures V(Mantissa()) == factor as int * old(V(Mantissa()))
      ensures factor > 0 ==> exponent == old(exponent)
    {
      hide V, P;
      if factor == 1 {
        return;
      }
      if factor == 0 {
        Zero();
        VZeros(Mantissa());
        return;
      }
      if used == 0 {
        VZeros(Mantissa());
        return;
      }
      ghost var s := Mantissa();
      var carry := Times32(bigits, used, factor);
      TargetReached(s, factor as int);
      PushCarry(carry, factor as int * V(s));
      MulAssoc(factor as int, V(s), P(exponent));
    }

    method MultiplyByUInt64(factor: uint64)
      requires Valid() && factor as int * V(Mantissa()) < P(CAPACITY)
      modifies this, bigits
      ensures Valid() && Value() == factor as int * old(Value())
      ensures V(Mantissa()) == factor as int * old(V(Mantissa()))
      ensures factor > 0 ==> exponent == old(exponent)
    {
      hide V, P;
      if factor == 1 {
        return;
      }
      if factor == 0 {
        Zero();
        VZeros(Mantissa());
        return;
      }
      if used == 0 {
        VZeros(Mantissa());
        return;
      }
      ghost var s := Mantissa();
      var carry := Times64(bigits, used, factor);
      TargetReached(s, factor as int);
      PushCarry(carry, factor as int * V(s));
      MulAssoc(factor as int, V(s), P(exponent));
    }

    /** this *= 2^shiftAmount. */
    method ShiftLeft(shiftAmount: nat)
      requires Valid() && used < CAPACITY && exponent + shiftAmount / BIGIT_SIZE < 0x8000
      modifies this, bigits
      ensures Valid() && Value() == old(Value()) * Pow(2, shiftAmount)
      ensures used > 0 ==> exponent == old(exponent) + shiftAmount / BIGIT_SIZE
      ensures old(used) <= used <= old(used) + 1
    {
      hide V, P, Pow;
      if used == 0 {
        NothingIsZero(Mantissa(), exponent);
        return;
      }
      ghost var s, e := Mantissa(), exponent;
      exponent := exponent + shiftAmount / BIGIT_SIZE;
      var localShift := shiftAmount % BIGIT_SIZE;
      BigitsShiftLeft(localShift);
      ShiftedValue(V(s), e, shiftAmount);
    }

    /** Shifts the bigits by less than one bigit. */
    method BigitsShiftLeft(shiftAmount: nat)
      requires Valid() && 0 < used < CAPACITY && shiftAmount < BIGIT_SIZE
      modifies this`used, bigits
      ensures Valid() && V(Mantissa()) == Pow(2, shiftAmount) * old(V(Mantissa()))
      ensures old(used) <= used <= old(used) + 1
    {
      hide V, P, Pow;
      ghost var s := Mantissa();
      var carry := ShiftBigits(bigits, used, shiftAmount);
      TargetReached(s, Pow(2, shiftAmount));
      ShiftCarry(V(Mantissa()), carry as int, P(used));
      if carry != 0 {
        ghost var t := Mantissa();
        bigits[used] := carry;
        used := used + 1;
        assert Mantissa() == t + [carry];
        VPush(t, carry);
      } else {
        VTop(Mantissa());
      }
    }

    /** this *= 10^power: first the fives, then the twos as a shift. */
    method MultiplyByPowerOfTen(power: nat)
      requires Valid() && V(Mantissa()) * Pow(5, power) < P(CAPACITY - 1)
      requires exponent + power / BIGIT_SIZE < 0x8000
      modifies this, bigits
      ensures Valid() && Value() == old(Value()) * Pow(10, power)
      ensures used > 0 ==> exponent == old(exponent) + power / BIGIT_SIZE
    {
      hide V, P, Pow;
      if power == 0 {
        TimesOne(Value());
        return;
      }
      if used == 0 {
        NothingIsZero(Mantissa(), exponent);
        return;
      }
      PMono(CAPACITY - 1, CAPACITY);
      MultiplyByFives(power);
      FitsBelow(Mantissa(), CAPACITY - 1);
      FivesAndTwos(old(V(Mantissa())), V(Mantissa()), P(exponent), power);
      ShiftLeft(power);
    }

    /** Multiplies by 5^power in steps that fit a word. */
    method MultiplyByFives(power: nat)
      requires Valid() && used > 0 && V(Mantissa()) * Pow(5, power) < P(CAPACITY)
      modifies this, bigits
      ensures Valid() && used > 0 && exponent == old(exponent)
      ensures V(Mantissa()) == old(V(Mantissa())) * Pow(5, power)
    {
      hide V, P, Pow, Bignum.Value;
      ghost var target := V(Mantissa()) * Pow(5, power);
      PositiveProduct(Mantissa(), Pow(5, power));
      FiveWords();
      var remaining := power;
      while remaining >= 27
        invariant Valid() && used > 0 && exponent == old(exponent)
        invariant 0 <= remaining <= power && V(Mantissa()) * Pow(5, remaining) == target
      {
        FivesStep(Mantissa(), 27, remaining, target);
        MultiplyByUInt64(0x6765c793fa10079d);
        remaining := remaining - 27;
        StillUsed(Mantissa(), Pow(5, remaining), target);
      }
      while remaining >= 13
        invariant Valid() && used > 0 && exponent == old(exponent)
        invariant 0 <= remaining < 27 && V(Mantissa()) * Pow(5, remaining) == target
      {
        FivesStep(Mantissa(), 13, remaining, target);
        MultiplyByUInt32(1220703125);
        remaining := remaining - 13;
        StillUsed(Mantissa(), Pow(5, remaining), target);
      }
      if remaining > 0 {
        FivesStep(Mantissa(), remaining, remaining, target);
        FiveTable(remaining);
        MultiplyByUInt32(FIVE_1_TO_12[remaining - 1]);
        StillUsed(Mantissa(), Pow(5, 0), target);
      }
      NoFivesLeft(V(Mantissa()), target);
    }

    /** this *= this. */
    method Square()
      requires Valid() && 2 * used <= CAPACITY && 2 * exponent < 0x8000
      modifies this, bigits
      ensures Valid() && Value() == old(Value()) * old(Value())
      ensures exponent == if used > 0 then 2 * old(exponent) else 0
    {
      hide V, P;
      ghost var s, e := Mantissa(), exponent;
      SquareInPlace(bigits, used);
      used := 2 * used;
      exponent := 2 * exponent;
      SquareValue(V(s), e);
      Clamp();
    }

    /** this = base^power, for a power that leaves room for the final shift. */
    method AssignPowerUInt16(base: uint16, power: nat)
      requires Valid() && base != 0
      requires BitSize(OddPart(base as int)) * power / BIGIT_SIZE + 2 <= CAPACITY
      modifies this, bigits
      ensures Valid() && Value() == Pow(base as int, power)
      ensures 0 <= exponent <= 15 * power / BIGIT_SIZE
    {
      hide V, P, Pow, BitSize, OddPart;
      if power == 0 {
        AssignUInt16(1);
        PowZero(base as int);
        return;
      }
      var odd, shifts := StripTwos(base);
      var bitSize := CountBits(odd);
      ghost var j, e;
      var thisValue, mask, delayedMultiplication;
      thisValue, mask, delayedMultiplication, j, e := PowerInWord(odd, bitSize, power);
      ReachedFits(odd as int, power, mask, j, e);
      AssignUInt64(thisValue);
      MantissaIsValue(V(Mantissa()));
      if delayedMultiplication {
        MultiplyByUInt32(odd as uint32);
      }
      FinishPower(odd, power, mask, j, e);
      PowerShift(odd as int, shifts, power);
      MantissaIsValue(V(Mantissa()));
      FitsBelow(Mantissa(), CAPACITY - 1);
      ShiftLeft(shifts * power);
      OddPower(base as int, odd as int, shifts, power);
    }

    /** The bignum part of AssignPowerUInt16: squares and multiplies for the bits that are left. */
    method FinishPower(odd: uint16, power: nat, mask0: nat, ghost j0: int, ghost e0: nat)
      requires Valid() && exponent == 0 && odd != 0
      requires BitSize(odd as int) * power / BIGIT_SIZE + 2 <= CAPACITY
      requires LeadingBits(power, mask0, j0, e0) && e0 <= power && Value() == Pow(odd as int, e0)
      modifies this, bigits
      ensures Valid() && exponent == 0 && used > 0
      ensures Value() == Pow(odd as int, power) && V(Mantissa()) < P(CAPACITY - 1)
    {
      hide V, P, Pow, BitSize, OddPart, LeadingBits;
      var mask := mask0;
      ghost var j, b := j0, odd as int;
      ghost var e: nat := e0;
      while mask != 0
        invariant Valid() && exponent == 0
        invariant LeadingBits(power, mask, j, e) && e <= power && Value() == Pow(b, e)
        decreases mask
      {
        PowerFits(b, power, e);
        MantissaIsValue(V(Mantissa()));
        NothingIsZero(Mantissa(), 0);
        NextBit(power, mask, j, e);
        HalfPowerFits(Mantissa(), b, power, e);
        Square();
        PowSquare(b, e);
        MantissaIsValue(V(Mantissa()));
        if power / mask % 2 == 1 {
          PowerFits(b, power, 2 * e + 1);
          PMono(CAPACITY - 1, CAPACITY);
          MultiplyByUInt32(odd as uint32);
        }
        e := 2 * e + power / mask % 2;
        mask := mask / 2;
        j := j - 1;
      }
      AllBitsUsed(power, mask, j, e);
      PowerFits(b, power, e);
      MantissaIsValue(V(Mantissa()));
      NothingIsZero(Mantissa(), 0);
    }

    method Times10()
      requires Valid() && 10 * Value() < P(CAPACITY + exponent)
      modifies this, bigits
      ensures Valid() && Value() == 10 * old(Value()) && exponent == old(exponent)
    {
      hide V, P;
      RoomForTen(V(Mantissa()), exponent);
      MultiplyByUInt32(10);
    }

    /** this += other. */
    method AddBignum(other: Bignum)
      requires Valid() && other.Valid() && other != this && other.bigits != bigits
      requires exponent > other.exponent ==> BigitLength() - other.exponent <= CAPACITY
      requires BigitLength() - exponent < CAPACITY && BigitLength() - other.exponent < CAPACITY
      requires other.BigitLength() - exponent < CAPACITY && other.BigitLength() - other.exponent < CAPACITY
      modifies this, bigits
      ensures Valid() && Value() == old(Value()) + other.Value()
      ensures other.Valid() && other.Value() == old(other.Value())
      ensures exponent == if old(exponent) > other.exponent then other.exponent else old(exponent)
    {
      hide V, P;
      ghost var t := other.Mantissa();
      Align(other);
      assert other.Mantissa() == t;
      AddAligned(other);
    }

    /** The addition itself, once this exponent is the smaller one. */
    method AddAligned(other: Bignum)
      requires Valid() && other.Valid() && other != this && other.bigits != bigits
      requires exponent <= other.exponent && used < CAPACITY && other.BigitLength() - exponent < CAPACITY
      modifies this`used, bigits
      ensures Valid() && Value() == old(Value()) + other.Value()
      ensures other.Valid() && other.Value() == old(other.Value())
    {
      hide V, P, Bigits;
      ghost var s, t := Mantissa(), other.Mantissa();
      var offset := other.exponent - exponent;
      ghost var longest := if BigitLength() > other.BigitLength() then BigitLength() else other.BigitLength();
      ghost var n := 1 + longest - exponent;
      SumFits(s, t, offset, n);
      var sum := AddAt(bigits, used, n, other.bigits, other.used, offset);
      assert other.Mantissa() == t;
      SumTop(s, bigits[..sum]);
      used := sum;
      TimesValue(s, Mantissa(), exponent, t, other.exponent, -1);
    }

    method AddUInt64(operand: uint64)
      requires Valid() && BigitLength() < CAPACITY
      modifies this, bigits
      ensures Valid() && Value() == old(Value()) + operand as int && (old(exponent) == 0 ==> exponent == 0)
    {
      hide V, P;
      if operand == 0 {
        return;
      }
      var other := new Bignum();
      other.AssignUInt64(operand);
      WordLength(other.Mantissa(), operand as int);
      AddBignum(other);
    }

    /** The digits of s from position `from` on. */
    static method ReadUInt64(s: seq<char>, from: nat, digitsToRead: nat) returns (result: uint64)
      requires AllDigits(s) && from + digitsToRead <= |s| && digitsToRead <= 19
      ensures result as int == DecVal(s[from..from + digitsToRead]) < Pow(10, digitsToRead)
    {
      hide DecVal, Pow;
      result := 0;
      NoDigits(s[from..from]);
      PowZero(10);
      for i := from to from + digitsToRead
        invariant result as int == DecVal(s[from..i]) < Pow(10, i - from)
      {
        DecValAppend(s[from..i], s[i]);
        assert s[from..i + 1] == s[from..i] + [s[i]];
        NineteenFit(result as int, DigitVal(s[i]), i - from);
        result := result * 10 + DigitVal(s[i]) as uint64;
      }
    }

    /** this = the number that the digits denote. */
    method AssignDecimalString(s: seq<char>)
      requires Valid() && AllDigits(s) && |s| <= 780
      modifies this, bigits
      ensures Valid() && Value() == DecVal(s) && exponent == 0
    {
      hide V, P, Pow, DecVal;
      Zero();
      var length, pos := |s|, 0;
      NoDigits(s[..0]);
      while length >= 19
        invariant 0 <= length && pos + length == |s| && Valid() && exponent == 0 && Value() == DecVal(s[..pos])
        decreases length
      {
        Chunk(s, pos, 19);
        pos, length := pos + 19, length - 19;
      }
      Chunk(s, pos, length);
      assert s[..pos + length] == s;
      Clamp();
    }

    /** Appends some more digits. */
    method Chunk(s: seq<char>, pos: nat, count: nat)
      requires Valid() && exponent == 0 && AllDigits(s) && pos + count <= |s| <= 780 && count <= 19
      requires Value() == DecVal(s[..pos])
      modifies this, bigits
      ensures Valid() && exponent == 0 && Value() == DecVal(s[..pos + count])
    {
      hide V, P, Pow, DecVal;
      var digits := ReadUInt64(s, pos, count);
      DecValJoin(s, pos, count);
      DecValBound(s[..pos]);
      MantissaIsValue(V(Mantissa()));
      DigitsFit(V(Mantissa()), pos, count);
      MultiplyByPowerOfTen(count);
      Shorter(Mantissa(), exponent, CAPACITY - 2);
      AddUInt64(digits);
    }

    /** The bigit at a position counted from the number's true end. */
    function BigitOrZero(index: int): uint32
      reads this, bigits
      requires Valid() && index >= 0
    {
      if index >= BigitLength() then 0
      else if index < exponent then 0
      else bigits[index - exponent]
    }

    /** All bigits up to position n, hidden ones included. */
    ghost function Frame(n: nat): (r: seq<uint32>)
      reads this, bigits
      requires Valid() && BigitLength() <= n
      ensures |r| == n && Bigits(r)
      ensures forall i :: 0 <= i < n ==> r[i] == BigitOrZero(i)
    {
      Spread(Mantissa(), exponent, n)
    }

    lemma Sized()
      requires Valid()
      ensures 0 <= exponent <= BigitLength()
    {
    }

    lemma FrameValue(n: nat)
      requires Valid() && BigitLength() <= n
      ensures V(Frame(n)) == Value()
      ensures forall i :: 0 <= i < exponent && i < n ==> Frame(n)[i] == 0
    {
      VSpread(Mantissa(), exponent, n);
    }
  }

  /** Three-way comparison of the numbers. */
  method Compare(a: Bignum, b: Bignum) returns (r: int)
    requires a.Valid() && b.Valid()
    ensures r == Sign(a.Value() - b.Value())
  {
    var bigitLengthA, bigitLengthB := a.BigitLength(), b.BigitLength();
    if bigitLengthA < bigitLengthB {
      ShorterIsLess(a, b);
      return -1;
    }
    if bigitLengthA > bigitLengthB {
      ShorterIsLess(b, a);
      return 1;
    }
    r := CompareBigits(a, b);
  }

  /** The loop of Compare: the first difference from the top decides. */
  method CompareBigits(a: Bignum, b: Bignum) returns (r: int)
    requires a.Valid() && b.Valid() && a.BigitLength() == b.BigitLength()
    ensures r == Sign(a.Value() - b.Value())
  {
    hide V, P, Spread, Bignum.Valid, Bignum.Value, Bignum.BigitOrZero;
    a.Sized();
    b.Sized();
    var minExponent := Min(a.exponent, b.exponent);
    var i := a.BigitLength() - 1;
    ghost var n := a.BigitLength();
    a.FrameValue(n);
    b.FrameValue(n);
    ghost var s, t := a.Frame(n), b.Frame(n);
    NothingAbove(s, t, t);
    while i >= minExponent
      invariant minExponent - 1 <= i < n
      invariant V(s[i + 1..]) == V(t[i + 1..])
    {
      var bigitA, bigitB := a.BigitOrZero(i), b.BigitOrZero(i);
      assert bigitA == s[i] && bigitB == t[i];
      NextBigit(s, t, i);
      if bigitA < bigitB {
        VHighLess(s, t, i);
        return -1;
      }
      if bigitA > bigitB {
        VHighLess(t, s, i);
        return 1;
      }
      i := i - 1;
    }
    EqualAbove(s, t, i + 1);
    return 0;
  }

  function Min(x: int, y: int): int { if x < y then x else y }

  lemma {:induction false} ShorterIsLess(a: Bignum, b: Bignum)
    requires a.Valid() && b.Valid() && a.BigitLength() < b.BigitLength()
    ensures a.Value() < b.Value()
  {
    LengthBounds(a.Mantissa(), a.exponent);
    LengthBounds(b.Mantissa(), b.exponent);
    PowMono(BASE, a.BigitLength(), b.BigitLength() - 1);
  }

  /** The length of a number that lies between two powers. */
  lemma LengthOf(x: Bignum, n: nat)
    requires x.Valid() && x.used > 0
    ensures x.Value() < P(n) ==> x.BigitLength() <= n
    ensures P(n) <= x.Value() ==> n < x.BigitLength()
  {
    LengthBounds(x.Mantissa(), x.exponent);
    if x.Value() < P(n) {
      PowLtInv(BASE, x.BigitLength() - 1, n);
    } else {
      PowLtInv(BASE, n, x.BigitLength());
    }
  }

  /**
   * DivideModuloIntBignum asserts that both numbers have the same length after its first loop. With n bigits in the
   * divisor that is so for every dividend if the divisor is at most P(n) - P(n-1).
   */
  method LengthsAgree(a: Bignum, b: Bignum) returns (result: uint16)
    requires a.Valid() && b.Valid() && a != b && a.bigits != b.bigits && a.exponent <= b.exponent && b.used > 0
    requires a.Value() < 0x10000 * b.Value() && b.BigitLength() <= a.BigitLength()
    requires b.Value() <= P(b.BigitLength()) - P(b.BigitLength() - 1)
    modifies a, a.bigits
    ensures a.Valid() && b.Valid() && old(a.Value()) == result as int * b.Value() + a.Value()
    ensures a.BigitLength() == b.BigitLength()
  {
    hide V, P;
    var n := b.BigitLength();
    result := a.ReduceLength(b);
    LengthOf(a, n - 1);
  }

  /** Above that the dividend P(n), one bigit longer than the divisor, always ends up shorter than it. */
  method LengthsDiffer(a: Bignum, b: Bignum) returns (result: uint16)
    requires a.Valid() && b.Valid() && a != b && a.bigits != b.bigits && a.exponent <= b.exponent && b.used > 0
    requires b.Value() > P(b.BigitLength()) - P(b.BigitLength() - 1) && a.Value() == P(b.BigitLength())
    modifies a, a.bigits
    ensures a.Valid() && b.Valid() && old(a.Value()) == result as int * b.Value() + a.Value()
    ensures a.BigitLength() < b.BigitLength()
  {
    hide V, P;
    var n := b.BigitLength();
    ValueUsed(a);
    LengthOf(a, n);
    LengthOf(b, n);
    PNext(n - 1);
    PowerAdmissible(b.Value(), P(n), P(n - 1));
    result := a.ReduceLength(b);
    OnceOnly(result as int, b.Value(), a.Value(), P(n), P(n - 1));
    LengthOf(a, n);
    LengthOf(a, n - 1);
  }

  lemma PowerAdmissible(b: int, p: int, q: int)
    requires p == BASE * q && q > 0 && b > p - q
    ensures p < 2 * b
  {
  }

  lemma OnceOnly(quotient: nat, b: nat, rest: nat, p: nat, q: nat)
    requires p == quotient * b + rest && p == BASE * q && q > 0 && b > p - q
    ensures rest == p || rest < q
  {
    PowerAdmissible(b, p, q);
    if quotient >= 2 {
      MulMono(2, quotient, b);
    }
  }

  lemma ValueUsed(x: Bignum)
    requires x.Valid() && x.Value() > 0
    ensures x.used > 0
  {
  }

  method LessEqual(a: Bignum, b: Bignum) returns (r: bool)
    requires a.Valid() && b.Valid()
    ensures r <==> a.Value() <= b.Value()
  {
    var c := Compare(a, b);
    r := c <= 0;
  }

  method Less(a: Bignum, b: Bignum) returns (r: bool)
    requires a.Valid() && b.Valid()
    ensures r <==> a.Value() < b.Value()
  {
    var c := Compare(a, b);
    r := c < 0;
  }

  method Equal(a: Bignum, b: Bignum) returns (r: bool)
    requires a.Valid() && b.Valid()
    ensures r <==> a.Value() == b.Value()
  {
    var c := Compare(a, b);
    r := c == 0;
  }

  /** Compares a + b with c without computing the sum. */
  method PlusCompare(a: Bignum, b: Bignum, c: Bignum) returns (r: int)
    requires a.Valid() && b.Valid() && c.Valid()
    ensures r == Sign(a.Value() + b.Value() - c.Value())
    decreases a.BigitLength() < b.BigitLength()
  {
    hide V, P, Spread;
    if a.BigitLength() < b.BigitLength() {
      r := PlusCompare(b, a, c);
      return;
    }
    if a.BigitLength() + 1 < c.BigitLength() {
      SumTooShort(a, b, c);
      return -1;
    }
    if a.BigitLength() > c.BigitLength() {
      ShorterIsLess(c, a);
      return 1;
    }
    if a.exponent >= b.BigitLength() && a.BigitLength() < c.BigitLength() {
      NoCarryIntoNext(a, b, c);
      return -1;
    }
    r := CompareColumns(a, b, c);
  }

  /** The column loop of PlusCompare, from c's top bigit down to where all three have only zeros. */
  method CompareColumns(a: Bignum, b: Bignum, c: Bignum) returns (r: int)
    requires a.Valid() && b.Valid() && c.Valid()
    requires b.BigitLength() <= a.BigitLength() <= c.BigitLength()
    ensures r == Sign(a.Value() + b.Value() - c.Value())
  {
    hide V, P, Spread, Bignum.Valid, Bignum.Value, Bignum.BigitOrZero;
    a.Sized();
    b.Sized();
    c.Sized();
    var borrow: uint32 := 0;
    var minExponent := Min(Min(a.exponent, b.exponent), c.exponent);
    var i := c.BigitLength() - 1;
    ghost var n := c.BigitLength();
    a.FrameValue(n);
    b.FrameValue(n);
    c.FrameValue(n);
    ghost var s, t, u := a.Frame(n), b.Frame(n), c.Frame(n);
    NothingAbove(s, t, u);
    while i >= minExponent
      invariant minExponent - 1 <= i < n
      invariant borrow == 0 || borrow as int == BASE
      invariant BASE * (V(u[i + 1..]) - V(s[i + 1..]) - V(t[i + 1..])) == borrow as int
    {
      var chunkA, chunkB, chunkC := a.BigitOrZero(i), b.BigitOrZero(i), c.BigitOrZero(i);
      assert chunkA == s[i] && chunkB == t[i] && chunkC == u[i];
      var sum := chunkA + chunkB;
      ColumnStep(s, t, u, i, borrow as int);
      if sum > chunkC + borrow {
        SumExceeds(s, t, u, i);
        return 1;
      }
      borrow := chunkC + borrow - sum;
      if borrow > 1 {
        SumFallsShort(s, t, u, i);
        return -1;
      }
      borrow := borrow * 0x1000_0000;
      i := i - 1;
    }
    ZerosBelow(s, t, u, i + 1);
    if borrow == 0 {
      return 0;
    }
    return -1;
  }

  lemma SumTooShort(a: Bignum, b: Bignum, c: Bignum)
    requires a.Valid() && b.Valid() && c.Valid()
    requires b.BigitLength() <= a.BigitLength() && a.BigitLength() + 1 < c.BigitLength()
    ensures a.Value() + b.Value() < c.Value()
  {
    hide V, P;
    LengthBounds(a.Mantissa(), a.exponent);
    LengthBounds(b.Mantissa(), b.exponent);
    LengthBounds(c.Mantissa(), c.exponent);
    PMono(b.BigitLength(), a.BigitLength());
    PMono(a.BigitLength() + 1, c.BigitLength() - 1);
    PNext(a.BigitLength());
  }

  /** b only fills zeros that a's exponent hides, so the sum is no longer than a. */
  lemma {:induction false} NoCarryIntoNext(a: Bignum, b: Bignum, c: Bignum)
    requires a.Valid() && b.Valid() && c.Valid()
    requires b.BigitLength() <= a.exponent && a.BigitLength() < c.BigitLength()
    ensures a.Value() + b.Value() < c.Value()
  {
    hide V, P;
    LengthBounds(b.Mantissa(), b.exponent);
    PMono(b.BigitLength(), a.exponent);
    LengthBounds(c.Mantissa(), c.exponent);
    PMono(a.BigitLength(), c.BigitLength() - 1);
    RoomBelowPower(a.Mantissa(), a.exponent);
  }

  lemma MantissaIsValue(v: int)
    ensures v * P(0) == v
  {
  }

  lemma ReachedFits(odd: nat, power: nat, mask: nat, j: int, e: nat)
    requires LeadingBits(power, mask, j, e) && odd > 0
    requires BitSize(odd) * power / BIGIT_SIZE + 2 <= CAPACITY
    ensures e <= power && Pow(odd, e) < P(CAPACITY)
  {
    hide P;
    DivMod(power, Pow(2, j + 1));
    MulMono(1, Pow(2, j + 1), power / Pow(2, j + 1));
    PowerFits(odd, power, e);
    PMono(CAPACITY - 1, CAPACITY);
  }

  lemma PowerShift(odd: nat, shifts: nat, power: nat)
    requires odd > 0 && shifts < 16 && BitSize(odd) * power / BIGIT_SIZE + 2 <= CAPACITY
    ensures 0 <= shifts * power / BIGIT_SIZE <= 15 * power / BIGIT_SIZE < 0x8000 && 0 <= shifts * power
  {
    MulMono(1, BitSize(odd), power);
    MulMono(shifts, 15, power);
  }

  /** base = odd * 2^shifts. */
  method StripTwos(base: uint16) returns (odd: uint16, shifts: nat)
    requires base != 0
    ensures base as int == odd as int * Pow(2, shifts) && odd as int == OddPart(base as int) && shifts < 16
  {
    odd, shifts := base, 0;
    Pow2Table();
    while odd % 2 == 0
      invariant odd != 0 && base as int == odd as int * Pow(2, shifts) && shifts < 16
      invariant OddPart(odd as int) == OddPart(base as int)
      decreases odd
    {
      TwosFit(odd as int, shifts);
      odd := odd / 2;
      shifts := shifts + 1;
    }
  }

  lemma TwosFit(odd: int, shifts: nat)
    requires odd > 0 && odd % 2 == 0 && odd * Pow(2, shifts) < 0x1_0000
    ensures odd * Pow(2, shifts) == odd / 2 * Pow(2, shifts + 1) && shifts + 1 < 16
  {
    MulAssoc(odd / 2, 2, Pow(2, shifts));
    MulMono(1, odd / 2, Pow(2, shifts + 1));
    Pow2Table();
    PowLtInv(2, shifts + 1, 16);
  }

  method CountBits(base: uint16) returns (bitSize: nat)
    ensures bitSize == BitSize(base as int)
  {
    bitSize := 0;
    var tmpBase := base;
    while tmpBase != 0
      invariant bitSize + BitSize(tmpBase as int) == BitSize(base as int)
    {
      tmpBase := tmpBase / 2;
      bitSize := bitSize + 1;
    }
  }

  /** The mask above the power's top bit, moved down to the second bit. */
  method SecondBit(power: nat) returns (mask: nat, ghost j: int)
    requires power > 0
    ensures LeadingBits(power, mask, j, 1)
  {
    mask := 1;
    ghost var p := 0;
    while power >= mask
      invariant mask == Pow(2, p) && (p > 0 ==> Pow(2, p - 1) <= power) && (p == 0 ==> power >= mask)
      decreases power - mask
    {
      mask := mask * 2;
      p := p + 1;
    }
    FirstBit(power, mask, p);
    mask, j := mask / 4, p - 2;
  }

  /**
   * Squares and multiplies in one 64-bit word while the value is below 2^32. When the last
   * multiplication might not fit it is left to the caller.
   */
  method PowerInWord(odd: uint16, bitSize: nat, power: nat)
    returns (thisValue: uint64, mask: nat, delayed: bool, ghost j: int, ghost e: nat)
    requires odd != 0 && power > 0 && bitSize == BitSize(odd as int)
    ensures LeadingBits(power, mask, j, e)
    ensures (if delayed then odd as int * thisValue as int else thisValue as int) == Pow(odd as int, e)
  {
    hide Pow, LeadingBits, BitSize;
    mask, j := SecondBit(power);
    thisValue, delayed, e := odd as uint64, false, 1;
    PowOne(odd as int);
    WordBitSize(odd as int);
    var limit := Bit(64 - bitSize);
    LimitFits(odd as int, bitSize);
    while mask != 0 && thisValue <= 0xFFFF_FFFF
      invariant LeadingBits(power, mask, j, e)
      invariant (if delayed then odd as int * thisValue as int else thisValue as int) == Pow(odd as int, e)
      invariant delayed ==> thisValue > 0xFFFF_FFFF
      decreases mask
    {
      NextBit(power, mask, j, e);
      PowSquare(odd as int, e);
      WordSquare(thisValue as int);
      thisValue := thisValue * thisValue;
      if power / mask % 2 != 0 {
        // Is there room for the multiplication?
        var highBitsZero := thisValue < limit;
        if highBitsZero {
          BelowLimit(thisValue as int, odd as int, limit as int);
          thisValue := thisValue * odd as uint64;
        } else {
          delayed := true;
        }
      }
      e := 2 * e + power / mask % 2;
      mask := mask / 2;
      j := j - 1;
    }
  }

  lemma WordSquare(v: int)
    requires 0 <= v <= 0xFFFF_FFFF
    ensures 0 <= v * v < 0x1_0000_0000_0000_0000
  {
    MulMono(v, 0xFFFF_FFFF, v);
  }

  lemma LimitFits(odd: nat, bitSize: nat)
    requires 0 < odd < 0x1_0000 && bitSize == BitSize(odd)
    ensures 1 <= bitSize <= 16 && 0x1_0000_0000 < Pow(2, 64 - bitSize)
            && odd * Pow(2, 64 - bitSize) < 0x1_0000_0000_0000_0000
  {
    hide BitSize, Pow;
    WordBitSize(odd);
    BitSizeBound(odd);
    Pow2Table();
    PowStrictMono(2, 32, 64 - bitSize);
    PowAdd(2, bitSize, 64 - bitSize);
    MulStrictMono(odd, Pow(2, bitSize), Pow(2, 64 - bitSize));
  }

  lemma BelowLimit(v: int, odd: int, limit: int)
    requires 0 <= v < limit && 0 < odd && odd * limit < 0x1_0000_0000_0000_0000
    ensures 0 <= v * odd < 0x1_0000_0000_0000_0000 && v * odd == odd * v
  {
    MulMono(v, limit, odd);
    assert limit * odd == odd * limit;
    MulMono(0, v, odd);
  }

  // ---------- facts for additions and decimal strings ----------

  lemma {:induction false} SumFits(s: seq<uint32>, t: seq<uint32>, offset: nat, n: nat)
    requires Bigits(s) && Bigits(t) && n > 0 && |s| <= n - 1 && |t| + offset <= n - 1
    requires |t| > 0 ==> t[|t| - 1] != 0
    ensures V(s) + V(t) * P(offset) < P(n) && 0 <= V(t) * P(offset)
    ensures |t| > 0 ==> P(|t| - 1) <= V(t)
  {
    hide V, P;
    VBound(s);
    LengthBounds(t, offset);
    PMono(|s|, n - 1);
    PMono(|t| + offset, n - 1);
    PNext(n - 1);
    MulMono(0, V(t), P(offset));
    if |t| > 0 {
      VTop(t);
    }
  }

  /** A sum that is at least as long as s, and as long as its value says, has a nonzero top bigit. */
  lemma SumTop(s: seq<uint32>, r: seq<uint32>)
    requires Bigits(s) && Bigits(r) && |s| <= |r| && V(s) <= V(r) && (|s| > 0 ==> s[|s| - 1] != 0)
    requires |r| > |s| ==> P(|r| - 1) <= V(r)
    ensures |r| > 0 ==> r[|r| - 1] != 0
  {
    hide V, P;
    if |s| > 0 {
      VTop(s);
    }
    if |r| > 0 {
      VTop(r);
    }
  }

  /** A 64-bit number has at most three bigits. */
  lemma WordLength(s: seq<uint32>, v: int)
    requires Bigits(s) && |s| > 0 ==> s[|s| - 1] != 0
    requires Bigits(s) && V(s) * P(0) == v < 0x1_0000_0000_0000_0000
    ensures |s| <= 3
  {
    hide V;
    if |s| > 0 {
      LengthBounds(s, 0);
      ThreeBigits();
      PowLtInv(BASE, |s| - 1, 3);
    }
  }

  lemma ThreeBigits()
    ensures P(3) > 0x1_0000_0000_0000_0000
  {
    assert P(1) == BASE && P(2) == BASE * BASE;
  }

  lemma NineteenFit(v: int, d: int, k: nat)
    requires 0 <= v < Pow(10, k) && 0 <= d <= 9 && k < 19
    ensures 0 <= v * 10 + d < Pow(10, k + 1) && v * 10 + d < 0x1_0000_0000_0000_0000
  {
    Pow10Table();
    PowMono(10, k + 1, 19);
  }

  /** A number below a power has fewer bigits than that. */
  lemma Shorter(s: seq<uint32>, e: nat, n: nat)
    requires Bigits(s) && (|s| > 0 ==> s[|s| - 1] != 0) && V(s) * P(e) < P(n)
    ensures |s| > 0 ==> |s| + e <= n
  {
    hide V;
    if |s| > 0 {
      LengthBounds(s, e);
      PowLtInv(BASE, |s| - 1 + e, n);
    }
  }

  /** A number of at most 780 digits leaves room for nineteen more factors of ten. */
  lemma {:induction false} DigitsFit(v: int, pos: nat, count: nat)
    requires 0 <= v < Pow(10, pos) && pos + count <= 780 && count <= 19
    ensures v * Pow(5, count) < P(CAPACITY - 1) && v * Pow(10, count) < P(CAPACITY - 2)
  {
    hide Pow;
    PowBaseMono(5, 10, count);
    PowAdd(10, pos, count);
    MulMonoRight(v, Pow(5, count), Pow(10, count));
    MulStrictMono(v, Pow(10, pos), Pow(10, count));
    TenBelowSixteen(pos + count);
    PIsPow2(CAPACITY - 2);
    PowMono(2, 4 * (pos + count), 28 * (CAPACITY - 2));
    PMono(CAPACITY - 2, CAPACITY - 1);
  }
}
