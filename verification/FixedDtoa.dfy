/** Numbers with a fixed count of digits after the point: 64- and 128-bit arithmetic on digit buffers. */
module FixedDtoa {
  import opened Powers
  import opened Decimal
  import opened Words
  import opened Ieee

  const TWO32: int := 0x1_0000_0000
  const TWO64: int := 0x1_0000_0000_0000_0000
  const TWO128: int := 0x1_0000_0000_0000_0000_0000_0000_0000_0000

  // ---------- 128-bit numbers ----------

  /** Schoolbook multiplication of four 32-bit limbs by one. */
  lemma FourLimbs(l0: int, l1: int, h0: int, h1: int, m: int, a0: int, a1: int, a2: int, a3: int)
    requires a0 == l0 * m && a1 == a0 / TWO32 + l1 * m && a2 == a1 / TWO32 + h0 * m && a3 == a2 / TWO32 + h1 * m
    ensures ((h1 * TWO32 + h0) * TWO64 + l1 * TWO32 + l0) * m
         == a3 * TWO32 * TWO64 + a2 % TWO32 * TWO64 + a1 % TWO32 * TWO32 + a0 % TWO32
  {
    var v := (h1 * TWO32 + h0) * TWO64 + l1 * TWO32 + l0;
    assert v * m == h1 * m * (TWO32 * TWO64) + h0 * m * TWO64 + l1 * m * TWO32 + l0 * m;
  }

  lemma WordProduct(h: int, l: int, m: int, a0: int, a1: int, a2: int, a3: int)
    requires 0 <= h < TWO64 && 0 <= l < TWO64 && 0 <= m && (h * TWO64 + l) * m < TWO128
    requires a0 == l % TWO32 * m && a1 == l / TWO32 * m + a0 / TWO32
    requires a2 == h % TWO32 * m + a1 / TWO32 && a3 == h / TWO32 * m + a2 / TWO32 && 0 <= a0 && 0 <= a1 && 0 <= a2
             && 0 <= a3
    ensures a3 < TWO32
    ensures (a3 % TWO32 * TWO32 + a2 % TWO32) * TWO64 + a1 % TWO32 * TWO32 + a0 % TWO32 == (h * TWO64 + l) * m
  {
    FourLimbs(l % TWO32, l / TWO32, h % TWO32, h / TWO32, m, a0, a1, a2, a3);
    assert (h / TWO32 * TWO32 + h % TWO32) * TWO64 + l / TWO32 * TWO32 + l % TWO32 == h * TWO64 + l;
  }

  lemma LimbProduct(x: int, m: int, carry: int)
    requires 0 <= x < TWO32 && 0 <= m < TWO32 && 0 <= carry < TWO32
    ensures 0 <= x * m <= x * m + carry < TWO64
  {
    MulMono(x, TWO32 - 1, m);
    MulMono(0, x, m);
  }

  /** What a word loses when it is shifted to the left. */
  lemma ShiftedWord(high: int, p: int, q: int)
    requires 0 <= high && p > 0 && q > 0 && p * q == TWO64
    ensures high * q == high / p * TWO64 + high % p * q && 0 <= high % p * q <= TWO64 - q
    ensures high * q % TWO64 == high % p * q
  {
    DivMod(high, p);
    var a, b := high / p, high % p;
    Distribute(a * p, b, q);
    MulAssoc(a, p, q);
    MulMono(b + 1, p, q);
    Distribute(b, 1, q);
    MulMono(0, b, q);
    DivModUnique(high * q, TWO64, a, b * q);
  }

  /** The quotient of a two-word number by a power of two, from the quotients of its words. */
  lemma WordsDivided(high: int, low: int, p: int, q: int)
    requires 0 <= high && 0 <= low < TWO64 && p > 0 && q > 0 && p * q == TWO64
    ensures (high * TWO64 + low) / p == high / p * TWO64 + high % p * q + low / p
    ensures high * q % TWO64 == high % p * q
    ensures 0 <= high % p * q + low / p < TWO64 && 0 <= low / p && 0 <= high / p
  {
    ShiftedWord(high, p, q);
    LowQuotient(low, p, q);
    MulMono(1, p, high + 1);
    DivBounds(high, p, 0, high + 1);
    MulAssoc(high, q, p);
    assert q * p == p * q;
    QuotientOfSum(high * q, low, p, q, high * TWO64);
  }

  lemma QuotientOfSum(x: int, low: int, p: int, q: int, y: int)
    requires p > 0 && y == x * p
    ensures (y + low) / p == x + low / p && (y + low) % p == low % p
  {
    DivMod(low, p);
    Distribute(x, low / p, p);
    DivModUnique(y + low, p, x + low / p, low % p);
  }

  lemma LowQuotient(low: int, p: int, q: int)
    requires 0 <= low < TWO64 && p > 0 && q > 0 && p * q == TWO64
    ensures 0 <= low / p < q
  {
    assert q * p == p * q;
    DivBounds(low, p, 0, q);
  }

  /** A 64-bit product whose upper half is lost. */
  function Truncated(x: uint64, p: uint64): (r: uint64)
    ensures r as int == x as int * p as int % TWO64
  {
    (x as int * p as int % TWO64) as uint64
  }

  function Quotient(x: uint64, p: uint64): (r: uint64)
    requires p > 0
    ensures r as int == x as int / p as int
  {
    x / p
  }

  class UInt128 {
    var highBits: uint64
    var lowBits: uint64

    ghost function Value(): nat
      reads this
    {
      highBits as int * TWO64 + lowBits as int
    }

    constructor (high: uint64, low: uint64)
      ensures Value() == high as int * TWO64 + low as int
    {
      highBits, lowBits := high, low;
    }

    /** this *= multiplicand, if there is room; the shifts to the left drop the upper half of the accumulator. */
    method Multiply(multiplicand: uint32)
      requires Value() * multiplicand as int < TWO128
      modifies this
      ensures Value() == old(Value()) * multiplicand as int
    {
      var a0 := TimesPlus((lowBits % 0x1_0000_0000) as uint32, multiplicand, 0);
      var a1 := TimesPlus((lowBits / 0x1_0000_0000) as uint32, multiplicand, (a0 / 0x1_0000_0000) as uint32);
      var a2 := TimesPlus((highBits % 0x1_0000_0000) as uint32, multiplicand, (a1 / 0x1_0000_0000) as uint32);
      var a3 := TimesPlus((highBits / 0x1_0000_0000) as uint32, multiplicand, (a2 / 0x1_0000_0000) as uint32);
      WordProduct(highBits as int, lowBits as int, multiplicand as int, a0 as int, a1 as int, a2 as int, a3 as int);
      lowBits := a1 % 0x1_0000_0000 * 0x1_0000_0000 + a0 % 0x1_0000_0000;
      highBits := a3 % 0x1_0000_0000 * 0x1_0000_0000 + a2 % 0x1_0000_0000;
    }

    /** One step of the accumulator. */
    static method TimesPlus(x: uint32, m: uint32, carry: uint32) returns (accumulator: uint64)
      ensures accumulator as int == x as int * m as int + carry as int
    {
      LimbProduct(x as int, m as int, carry as int);
      accumulator := x as uint64 * m as uint64;
      accumulator := accumulator + carry as uint64;
    }

    /** To the right for positive amounts, to the left for negative ones. */
    method Shift(shiftAmount: int)
      requires -64 <= shiftAmount <= 64
      modifies this
      ensures shiftAmount >= 0 ==> Value() == old(Value()) / Pow(2, shiftAmount)
      ensures shiftAmount < 0 ==> Value() == old(Value()) * Pow(2, -shiftAmount) % TWO128
    {
      hide Pow;
      Pow2Table();
      PowZero(2);
      if shiftAmount == 0 {
        return;
      } else if shiftAmount == -64 {
        ShiftedLeftAll(highBits as int, lowBits as int);
        highBits := lowBits;
        lowBits := 0;
      } else if shiftAmount == 64 {
        DivModUnique(Value(), TWO64, highBits as int, lowBits as int);
        lowBits := highBits;
        highBits := 0;
      } else if shiftAmount <= 0 {
        ToTheLeft(-shiftAmount);
      } else {
        ToTheRight(shiftAmount);
      }
    }

    method ToTheLeft(n: nat)
      requires 0 < n < 64
      modifies this
      ensures Value() == old(Value()) * Pow(2, n) % TWO128
    {
      hide Pow, Truncated, Quotient;
      Pow2Table();
      var p, q := Bit(n), Bit(64 - n);
      PowAdd(2, n, 64 - n);
      ShiftedLeft(highBits as int, lowBits as int, p as int, q as int);
      highBits := Truncated(highBits, p);
      highBits := highBits + Quotient(lowBits, q);
      lowBits := Truncated(lowBits, p);
    }

    method ToTheRight(n: nat)
      requires 0 < n < 64
      modifies this
      ensures Value() == old(Value()) / Pow(2, n)
    {
      hide Pow, Truncated, Quotient;
      Pow2Table();
      var p, q := Bit(n), Bit(64 - n);
      PowAdd(2, n, 64 - n);
      WordsDivided(highBits as int, lowBits as int, p as int, q as int);
      lowBits := Quotient(lowBits, p);
      lowBits := lowBits + Truncated(highBits, q);
      highBits := Quotient(highBits, p);
    }

    /** this, result = this % 2^power and this / 2^power. */
    method DivModPowerOf2(power: nat) returns (result: int)
      requires 0 < power < 128 && Value() < 0x8000_0000 * Pow(2, power)
      modifies this
      ensures old(Value()) == result * Pow(2, power) + Value() && Value() < Pow(2, power) && 0 <= result * Pow(2, power)
    {
      hide Pow;
      Pow2Table();
      DivMod(Value(), Pow(2, power));
      DivBounds(Value(), Pow(2, power), 0, 0x8000_0000);
      MulMono(0, Value() / Pow(2, power), Pow(2, power));
      if power >= 64 {
        var p := Bit(power - 64);
        PowAdd(2, power - 64, 64);
        HighDivided(highBits as int, lowBits as int, p as int);
        result := (highBits / p) as int;
        highBits := highBits - (highBits / p) * p;
      } else {
        result := LowDivMod(power);
      }
    }

    method LowDivMod(power: nat) returns (result: int)
      requires 0 < power < 64 && Value() / Pow(2, power) < 0x8000_0000
      modifies this
      ensures result == old(Value()) / Pow(2, power) && Value() == old(Value()) % Pow(2, power)
    {
      hide Pow, Truncated, Quotient;
      Pow2Table();
      var p, q := Bit(power), Bit(64 - power);
      PowAdd(2, power, 64 - power);
      WordsDivided(highBits as int, lowBits as int, p as int, q as int);
      SmallQuotient(highBits as int, lowBits as int, p as int, q as int);
      var partLow := Quotient(lowBits, p);
      var partHigh := Truncated(highBits, q);
      result := (partLow + partHigh) as int;
      highBits := 0;
      lowBits := lowBits - partLow * p;
    }

    function IsZero(): (r: bool)
      reads this
      ensures r <==> Value() == 0
    {
      highBits == 0 && lowBits == 0
    }

    method BitAt(position: nat) returns (r: int)
      requires position < 128
      ensures r == Value() / Pow(2, position) % 2
    {
      hide Pow;
      Pow2Table();
      if position >= 64 {
        var p := Bit(position - 64);
        PowAdd(2, position - 64, 64);
        HighDivided(highBits as int, lowBits as int, p as int);
        r := (highBits / p % 2) as int;
      } else {
        var p := Bit(position);
        ghost var q := Pow(2, 64 - position);
        PowAdd(2, position, 64 - position);
        WordsDivided(highBits as int, lowBits as int, p as int, q);
        PowStep(2, 63 - position);
        EvenHigh(highBits as int, p as int, q);
        r := (lowBits / p % 2) as int;
      }
    }
  }

  lemma ShiftedLeftAll(h: int, l: int)
    requires 0 <= h < TWO64 && 0 <= l < TWO64
    ensures (h * TWO64 + l) * TWO64 % TWO128 == l * TWO64
  {
    DivModUnique((h * TWO64 + l) * TWO64, TWO128, h, l * TWO64);
  }

  lemma ShiftedLeft(h: int, l: int, p: int, q: int)
    requires 0 <= h < TWO64 && 0 <= l < TWO64 && p > 0 && q > 0 && p * q == TWO64
    ensures 0 <= h * p % TWO64 + l / q < TWO64
    ensures (h * TWO64 + l) * p % TWO128 == (h * p % TWO64 + l / q) * TWO64 + l * p % TWO64
  {
    DivMod(h * p, TWO64);
    DivMod(l * p, TWO64);
    assert q * p == p * q;
    ProductQuotient(l, p, q);
    HighBitsFit(h, l, p, q);
    var a, b := h * p / TWO64, h * p % TWO64;
    var v := (b + l / q) * TWO64 + l * p % TWO64;
    assert (h * TWO64 + l) * p == a * TWO128 + v by {
      assert (h * TWO64 + l) * p == h * p * TWO64 + l * p;
    }
    DivModUnique((h * TWO64 + l) * p, TWO128, a, v);
  }

  lemma ProductQuotient(l: int, p: int, q: int)
    requires 0 <= l && p > 0 && q > 0 && p * q == TWO64
    ensures l * p / TWO64 == l / q
  {
    DivMod(l, q);
    var c, r := l / q, l % q;
    assert l * p == c * TWO64 + r * p by {
      Distribute(c * q, r, p);
      MulAssoc(c, q, p);
      assert q * p == p * q;
    }
    MulMono(r + 1, q, p);
    Distribute(r, 1, p);
    MulMono(0, r, p);
    assert q * p == p * q;
    DivModUnique(l * p, TWO64, c, r * p);
  }

  /** h * p mod 2^64 is a multiple of p, so that there is room for p - 1 below it. */
  lemma HighBitsFit(h: int, l: int, p: int, q: int)
    requires 0 <= h && 0 <= l < TWO64 && p > 0 && q > 0 && p * q == TWO64
    ensures 0 <= h * p % TWO64 + l / q < TWO64
  {
    assert q * p == p * q;
    WordsDivided(h, 0, q, p);
    LowQuotient(l, q, p);
    DivMod(h, q);
    MulMono(h % q + 1, q, p);
    Distribute(h % q, 1, p);
    MulMono(0, h % q, p);
  }

  /** Dividing by at least 2^64 only looks at the upper word. */
  lemma HighDivided(h: int, l: int, p: int)
    requires 0 <= h && 0 <= l < TWO64 && p > 0
    ensures p * TWO64 > 0
    ensures (h * TWO64 + l) / (p * TWO64) == h / p
    ensures (h * TWO64 + l) % (p * TWO64) == (h - h / p * p) * TWO64 + l
    ensures 0 <= h / p * p <= h
  {
    DivMod(h, p);
    var q, r := h / p, h % p;
    MulMono(0, q, p);
    MulMono(r + 1, p, TWO64);
    MulAssoc(q, p, TWO64);
    DivModUnique(h * TWO64 + l, p * TWO64, q, r * TWO64 + l);
  }

  lemma SmallQuotient(h: int, l: int, p: int, q: int)
    requires 0 <= h && 0 <= l < TWO64 && p > 0 && q > 0 && p * q == TWO64
    requires (h * TWO64 + l) / p < 0x8000_0000
    ensures h * q % TWO64 + l / p == (h * TWO64 + l) / p && 0 <= l / p && 0 <= h * q % TWO64
    ensures 0 <= l / p * p <= l && l - l / p * p == l % p
    ensures (h * TWO64 + l) % p == l % p
  {
    WordsDivided(h, l, p, q);
    ShiftedWord(h, p, q);
    DivMod(l, p);
    MulMono(0, l / p, p);
    MulAssoc(h, q, p);
    assert q * p == p * q;
    QuotientOfSum(h * q, l, p, q, h * TWO64);
  }

  lemma EvenHigh(h: int, p: int, q: int)
    requires 0 <= h && p > 0 && q > 0 && p * q == TWO64 && q % 2 == 0
    ensures forall x: int :: (h / p * TWO64 + h % p * q + x) % 2 == x % 2
  {
    assert h % p * q == 2 * (h % p * (q / 2));
  }

  // ---------- digits into a buffer ----------

  /** A number in exactly requestedLength digits, from the last one to the first. */
  method FillDigits32FixedLength(number0: uint32, requestedLength: nat, buffer: array<char>, length: nat)
    returns (newLength: nat)
    requires length + requestedLength <= buffer.Length
    modifies buffer
    ensures newLength == length + requestedLength && buffer[..length] == old(buffer[..length])
    ensures AllDigits(buffer[length..newLength])
    ensures DecVal(buffer[length..newLength]) == number0 as int % Pow(10, requestedLength)
  {
    hide DecVal, Pow;
    var number := number0;
    var i := requestedLength;
    newLength := length + requestedLength;
    NoDigits(buffer[newLength..newLength]);
    PowZero(10);
    while i > 0
      invariant 0 <= i <= requestedLength && buffer[..length] == old(buffer[..length])
      invariant AllDigits(buffer[length + i..newLength])
      invariant 0 <= DecVal(buffer[length + i..newLength]) < Pow(10, requestedLength - i)
      invariant number0 as int == number as int * Pow(10, requestedLength - i) + DecVal(buffer[length + i..newLength])
    {
      i := i - 1;
      ghost var s := buffer[length + i + 1..newLength];
      buffer[length + i] := DigitChar((number % 10) as int);
      assert buffer[length + i..newLength] == [buffer[length + i]] + s;
      DecValFront(buffer[length + i], s);
      DecValBound(buffer[length + i..newLength]);
      MoreDigits(number as int, Pow(10, requestedLength - i - 1), number0 as int, DecVal(s));
      PowStep(10, requestedLength - i - 1);
      number := number / 10;
    }
    DivModUnique(number0 as int, Pow(10, requestedLength), number as int, DecVal(buffer[length..newLength]));
  }

  /** One more digit is taken from what is left of the number. */
  lemma MoreDigits(number: int, t: int, total: int, done: int)
    requires total == number * t + done
    ensures total == number / 10 * (10 * t) + (number % 10 * t + done)
  {
    DivMod(number, 10);
    Distribute(number / 10 * 10, number % 10, t);
    MulAssoc(number / 10, 10, t);
  }

  /** The number whose digits stand in reverse order. */
  ghost function RevVal(s: seq<char>): int {
    if s == [] then 0 else RevVal(s[..|s| - 1]) + DigitVal(s[|s| - 1]) * Pow(10, |s| - 1)
  }

  lemma RevValAppend(s: seq<char>, c: char)
    ensures RevVal(s + [c]) == RevVal(s) + DigitVal(c) * Pow(10, |s|)
  {
    hide Pow;
    assert (s + [c])[..|s|] == s;
  }

  lemma {:induction false} Reversed(s: seq<char>, t: seq<char>)
    requires |s| == |t| && forall k :: 0 <= k < |s| ==> t[k] == s[|s| - 1 - k]
    ensures DecVal(t) == RevVal(s)
    decreases |s|
  {
    hide DecVal, Pow;
    if s == [] {
      NoDigits(t);
    } else {
      var n := |s| - 1;
      Reversed(s[..n], t[1..]);
      assert t == [s[n]] + t[1..];
      DecValFront(s[n], t[1..]);
    }
  }

  /** The digits in s, last one first, have been taken from the total; `number` is what is left. */
  ghost predicate Taken(s: seq<char>, number: nat, total: nat) {
    && AllDigits(s) && RevVal(s) >= 0 && total == number * Pow(10, |s|) + RevVal(s)
    && (number == 0 && s != [] ==> s[|s| - 1] != '0') && (s != [] <==> number < total) && number <= total
  }

  lemma TakenNothing(s: seq<char>, total: nat)
    requires s == []
    ensures Taken(s, total, total)
  {
  }

  lemma TakeDigit(s: seq<char>, number: nat, total: nat)
    requires Taken(s, number, total) && 0 < number && total < 0x1_0000_0000
    ensures |s| < 10 && Taken(s + [DigitChar(number % 10)], number / 10, total)
  {
    hide Pow, RevVal;
    var c := DigitChar(number % 10);
    RoomForDigit(number, |s|, total, RevVal(s));
    RevValAppend(s, c);
    MoreDigits(number, Pow(10, |s|), total, RevVal(s));
    MulMono(0, number % 10, Pow(10, |s|));
    PowStep(10, |s|);
  }

  lemma AllTaken(s: seq<char>, t: seq<char>, total: nat)
    requires Taken(s, 0, total) && |t| == |s| && forall k :: 0 <= k < |s| ==> t[k] == s[|s| - 1 - k]
    ensures AllDigits(t) && DecVal(t) == total && (t != [] ==> t[0] != '0') && (t != [] <==> total > 0)
  {
    hide DecVal, RevVal;
    Reversed(s, t);
  }

  /** A number in as many digits as it has; none for zero. */
  method FillDigits32(number0: uint32, buffer: array<char>, length: nat) returns (newLength: nat)
    requires length + 10 <= buffer.Length
    modifies buffer
    ensures length <= newLength <= length + 10 && buffer[..length] == old(buffer[..length])
    ensures AllDigits(buffer[length..newLength]) && DecVal(buffer[length..newLength]) == number0 as int
    ensures newLength > length ==> buffer[length] != '0'
    ensures newLength > length <==> number0 > 0
  {
    hide DecVal, Taken, AllDigits;
    var number, numberLength := number0, 0;
    TakenNothing(buffer[length..length], number0 as int);
    // Last digit first; the order is put right below.
    while number != 0
      invariant 0 <= numberLength <= 10 && buffer[..length] == old(buffer[..length])
      invariant Taken(buffer[length..length + numberLength], number as int, number0 as int)
    {
      ghost var s := buffer[length..length + numberLength];
      TakeDigit(s, number as int, number0 as int);
      buffer[length + numberLength] := DigitChar((number % 10) as int);
      assert buffer[length..length + numberLength + 1] == s + [buffer[length + numberLength]];
      number := number / 10;
      numberLength := numberLength + 1;
    }
    newLength := length + numberLength;
    ghost var s := buffer[length..newLength];
    Exchange(buffer, length, newLength);
    AllTaken(s, buffer[length..newLength], number0 as int);
  }

  lemma RoomForDigit(number: int, n: nat, total: int, done: int)
    requires number > 0 && done >= 0 && total == number * Pow(10, n) + done && total < 0x1_0000_0000
    ensures n < 10
  {
    hide Pow;
    Pow10Table();
    MulMono(1, number, Pow(10, n));
    PowLtInv(10, n, 10);
  }

  /** Reverses part of the buffer by exchanging its ends. */
  method Exchange(buffer: array<char>, from: nat, to: nat)
    requires from <= to <= buffer.Length
    modifies buffer
    ensures buffer[..from] == old(buffer[..from]) && buffer[to..] == old(buffer[to..])
    ensures forall k :: from <= k < to ==> buffer[k] == old(buffer[from + to - 1 - k])
  {
    var i, j := from, to - 1;
    while i < j
      invariant from <= i <= to && i + j == from + to - 1
      invariant forall k :: 0 <= k < from || to <= k < buffer.Length ==> buffer[k] == old(buffer[k])
      invariant forall k :: from <= k < i || j < k < to ==> buffer[k] == old(buffer[from + to - 1 - k])
      invariant forall k :: i <= k <= j ==> buffer[k] == old(buffer[k])
    {
      buffer[i], buffer[j] := buffer[j], buffer[i];
      i := i + 1;
      j := j - 1;
    }
  }

  lemma Joined(s: seq<char>, t: seq<char>)
    requires AllDigits(s) && AllDigits(t)
    ensures AllDigits(s + t) && DecVal(s + t) == DecVal(s) * Pow(10, |t|) + DecVal(t)
  {
    hide DecVal, Pow;
    DecValJoin(s + t, |s|, |t|);
    assert (s + t)[..|s| + |t|] == s + t && (s + t)[..|s|] == s && (s + t)[|s|..|s| + |t|] == t;
  }

  /** Appends seven digits to what has been written from position `from` on. */
  method AppendSeven(number: uint32, buffer: array<char>, ghost from: nat, length: nat, ghost before: int)
    returns (newLength: nat)
    requires from <= length && length + 7 <= buffer.Length && number < 10000000
    requires AllDigits(buffer[from..length]) && DecVal(buffer[from..length]) == before
    modifies buffer
    ensures newLength == length + 7 && forall k :: 0 <= k < length ==> buffer[k] == old(buffer[k])
    ensures AllDigits(buffer[from..newLength]) && DecVal(buffer[from..newLength]) == before * 10000000 + number as int
  {
    hide DecVal, Pow, AllDigits;
    Pow10Table();
    ghost var s := buffer[from..length];
    newLength := FillDigits32FixedLength(number, 7, buffer, length);
    assert buffer[from..length] == s by { assert buffer[from..length] == buffer[..length][from..]; }
    assert forall k :: 0 <= k < length ==> buffer[k] == buffer[..length][k];
    assert buffer[from..newLength] == s + buffer[length..newLength];
    Joined(s, buffer[length..newLength]);
    DivModUnique(number as int, 10000000, 0, number as int);
  }

  lemma ThreeParts(n: int)
    requires 0 <= n
    ensures n == (n / 10000000 / 10000000 * 10000000 + n / 10000000 % 10000000) * 10000000 + n % 10000000
  {
  }

  /** A number below 10^17 in exactly seventeen digits. */
  method FillDigits64FixedLength(number0: uint64, buffer: array<char>, length: nat) returns (newLength: nat)
    requires length + 17 <= buffer.Length && number0 < 100000000000000000
    modifies buffer
    ensures newLength == length + 17 && buffer[..length] == old(buffer[..length])
    ensures AllDigits(buffer[length..newLength]) && DecVal(buffer[length..newLength]) == number0 as int
  {
    hide DecVal, Pow, AllDigits;
    Pow10Table();
    var part2 := (number0 % 10000000) as uint32;
    var number := number0 / 10000000;
    var part1 := (number % 10000000) as uint32;
    var part0 := (number / 10000000) as uint32;
    ThreeParts(number0 as int);
    newLength := FillDigits32FixedLength(part0, 3, buffer, length);
    DivModUnique(part0 as int, 1000, 0, part0 as int);
    newLength := AppendSeven(part1, buffer, length, newLength, part0 as int);
    newLength := AppendSeven(part2, buffer, length, newLength, part0 as int * 10000000 + part1 as int);
  }

  /** A number in as many digits as it has. */
  method FillDigits64(number0: uint64, buffer: array<char>, length: nat) returns (newLength: nat)
    requires length + 24 <= buffer.Length
    modifies buffer
    ensures length <= newLength <= length + 24 && buffer[..length] == old(buffer[..length])
    ensures AllDigits(buffer[length..newLength]) && DecVal(buffer[length..newLength]) == number0 as int
    ensures newLength > length ==> buffer[length] != '0'
  {
    hide DecVal, Pow, AllDigits;
    var part2 := (number0 % 10000000) as uint32;
    var number := number0 / 10000000;
    var part1 := (number % 10000000) as uint32;
    var part0 := (number / 10000000) as uint32;
    ThreeParts(number0 as int);
    if part0 != 0 {
      newLength := FillDigits32(part0, buffer, length);
      newLength := AppendSeven(part1, buffer, length, newLength, part0 as int);
      newLength := AppendSeven(part2, buffer, length, newLength, part0 as int * 10000000 + part1 as int);
    } else if part1 != 0 {
      newLength := FillDigits32(part1, buffer, length);
      newLength := AppendSeven(part2, buffer, length, newLength, part1 as int);
    } else {
      newLength := FillDigits32(part2, buffer, length);
    }
  }

  // ---------- rounding ----------

  /** A ten at position i carried into the position before it. */
  lemma CarryKeeps(s: seq<char>, i: nat)
    requires 0 < i < |s| && DigitVal(s[i]) == 10
    ensures DecVal(s[i := '0'][i - 1 := (s[i - 1] as int + 1) as char]) == DecVal(s)
    requires s[i - 1] as int + 1 < 0xD800
  {
    hide DecVal, Pow;
    var d := (s[i - 1] as int + 1) as char;
    var t := s[i := '0'][i - 1 := d];
    var high, low := s[..i - 1], s[i + 1..];
    assert s == high + [s[i - 1]] + [s[i]] + low && t == high + [d] + ['0'] + low;
    Pieces(high, s[i - 1], s[i], low);
    Pieces(high, d, '0', low);
    CarriedOver(DecVal(high), DigitVal(s[i - 1]), Pow(10, |low|));
  }

  lemma CarriedOver(high: int, d: int, p: int)
    ensures ((high * 10 + d) * 10 + 10) * p == ((high * 10 + (d + 1)) * 10 + 0) * p
  {
  }

  lemma Pieces(high: seq<char>, a: char, b: char, low: seq<char>)
    ensures DecVal(high + [a] + [b] + low)
         == ((DecVal(high) * 10 + DigitVal(a)) * 10 + DigitVal(b)) * Pow(10, |low|) + DecVal(low)
  {
    hide DecVal, Pow;
    var s := high + [a] + [b];
    var t := s + low;
    DecValAppend(high, a);
    DecValAppend(high + [a], b);
    DecValJoin(t, |s|, |low|);
    assert t[..|s| + |low|] == t && t[..|s|] == s && t[|s|..|s| + |low|] == low;
  }

  /** After the carry has run through to the front: ten, then zeros. */
  lemma TenAndZeros(s: seq<char>)
    requires |s| > 0 && DigitVal(s[0]) == 10 && forall k :: 0 < k < |s| ==> s[k] == '0'
    ensures DecVal(s) == Pow(10, |s|) && DecVal(s[0 := '1']) == Pow(10, |s| - 1)
  {
    hide DecVal, Pow;
    var t := s[1..];
    assert s == [s[0]] + t && s[0 := '1'] == ['1'] + t;
    DecValFront(s[0], t);
    DecValFront('1', t);
    ZerosAreNothing(t);
    PowStep(10, |t|);
  }

  /** One more in the last place; if all digits were nines, the point moves. */
  method RoundUp(buffer: array<char>, length: nat, decimalPoint: int) returns (newLength: nat, newPoint: int)
    requires length <= buffer.Length && buffer.Length > 0 && AllDigits(buffer[..length])
    modifies buffer
    ensures newLength <= buffer.Length && AllDigits(buffer[..newLength])
    ensures length == 0 ==> newLength == 1 && newPoint == 1 && DecVal(buffer[..1]) == 1
    ensures length > 0 ==> newLength == length
    ensures length > 0 ==>
      || (newPoint == decimalPoint && DecVal(buffer[..length]) == old(DecVal(buffer[..length])) + 1)
      || (newPoint == decimalPoint + 1 && old(DecVal(buffer[..length])) + 1 == Pow(10, length)
          && DecVal(buffer[..length]) == Pow(10, length - 1))
  {
    hide DecVal, Pow;
    newLength, newPoint := length, decimalPoint;
    // No digits stand for zero, and zero is rounded up to one.
    if length == 0 {
      buffer[0] := '1';
      OneDigit(buffer[..1]);
      return 1, 1;
    }
    ghost var s := buffer[..length];
    buffer[length - 1] := (buffer[length - 1] as int + 1) as char;
    assert buffer[..length] == s[length - 1 := buffer[length - 1]];
    DecValLast(s, buffer[length - 1]);
    var i := length - 1;
    while i > 0
      invariant 0 <= i < length && DecVal(buffer[..length]) == DecVal(s) + 1
      invariant forall k :: 0 <= k < i ==> '0' <= buffer[k] <= '9'
      invariant '0' < buffer[i] && DigitVal(buffer[i]) <= 10
      invariant forall k :: i < k < length ==> buffer[k] == '0'
    {
      if buffer[i] as int != '0' as int + 10 {
        return;
      }
      ghost var t := buffer[..length];
      CarryKeeps(t, i);
      buffer[i] := '0';
      buffer[i - 1] := (buffer[i - 1] as int + 1) as char;
      assert buffer[..length] == t[i := '0'][i - 1 := buffer[i - 1]];
      i := i - 1;
    }
    if buffer[0] as int == '0' as int + 10 {
      TenAndZeros(buffer[..length]);
      ghost var t := buffer[..length];
      buffer[0] := '1';
      assert buffer[..length] == t[0 := '1'];
      newPoint := decimalPoint + 1;
    }
  }

  // ---------- digits after the point ----------

  /** x / y rounded to the nearest integer, halves upwards. */
  ghost function HalfUp(x: nat, y: nat): nat
    requires y > 0
  {
    (2 * x + y) / (2 * y)
  }

  lemma HalfUpExact(m: nat, y: nat)
    requires y > 0
    ensures HalfUp(m * y, y) == m
  {
    MulAssoc(2, m, y);
    assert 2 * (m * y) == m * (2 * y);
    DivModUnique(2 * (m * y) + y, 2 * y, m, y);
  }

  lemma HalfUpScaled(x: nat, y: nat, k: nat)
    requires y > 0 && k > 0
    ensures y * k > 0 && HalfUp(x * k, y * k) == HalfUp(x, y)
  {
    MulStrictMono(0, y, k);
    var q, r := (2 * x + y) / (2 * y), (2 * x + y) % (2 * y);
    DivMod(2 * x + y, 2 * y);
    Distribute(2 * x, y, k);
    Distribute(q * (2 * y), r, k);
    MulAssoc(q, 2 * y, k);
    MulStrictMono(r, 2 * y, k);
    MulMono(0, r, k);
    assert 2 * x * k == 2 * (x * k) && 2 * y * k == 2 * (y * k);
    DivModUnique(2 * (x * k) + y * k, 2 * (y * k), q, r * k);
  }

  /**
   * w / one is being written out: i digits after the point have been appended, D is the number in the buffer,
   * and rest * 2^i / one is what the digits leave out.
   */
  ghost predicate Written(w: nat, one: nat, i: nat, D: int, rest: nat) {
    w * Pow(10, i) == D * one + rest * Pow(2, i)
  }

  /** One more digit: multiplied by five, with the point one place further left. */
  lemma NextDigit(w: nat, one: nat, i: nat, D: int, rest: nat, half: nat, digit: int, rest': int)
    requires Written(w, one, i, D, rest) && half > 0 && half * Pow(2, i + 1) == one && rest < 2 * half
    requires rest * 5 == digit * half + rest' && 0 <= rest' < half
    ensures 0 <= digit <= 9 && Written(w, one, i + 1, D * 10 + digit, rest')
  {
    hide Pow;
    PowStep(10, i);
    PowStep(2, i);
    if digit < 0 {
      MulMono(digit, -1, half);
    } else if digit > 9 {
      MulMono(10, digit, half);
    }
    DigitAlgebra(w, Pow(10, i), one, D, rest, Pow(2, i), half, digit);
  }

  lemma DigitAlgebra(w: int, t: int, one: int, D: int, rest: int, s: int, half: int, digit: int)
    requires w * t == D * one + rest * s && half * (2 * s) == one
    ensures w * (10 * t) == (D * 10 + digit) * one + (rest * 5 - digit * half) * (2 * s)
  {
    assert w * (10 * t) == 10 * (w * t);
    assert (D * 10 + digit) * one == 10 * (D * one) + digit * one;
    Distribute(rest * 5, digit * half, 2 * s);
    assert rest * 5 * (2 * s) == 10 * (rest * s);
    MulAssoc(digit, half, 2 * s);
  }

  /** The last digit is rounded by the first bit that is left. */
  lemma LastDigitRounded(w: nat, one: nat, i: nat, D: nat, rest: nat, half: nat)
    requires Written(w, one, i, D, rest) && half > 0 && half * Pow(2, i + 1) == one && rest < 2 * half
    ensures one > 0
    ensures HalfUp(w * Pow(10, i), one) == if rest >= half then D + 1 else D
  {
    hide Pow, HalfUp;
    PowStep(2, i);
    var s := Pow(2, i);
    TwiceTheRest(rest, half, s);
    RoundedQuotient(w * Pow(10, i), one, D, rest * s);
  }

  lemma TwiceTheRest(rest: nat, half: nat, s: nat)
    requires rest < 2 * half && s > 0
    ensures 0 <= rest * s < half * (2 * s)
    ensures 2 * (rest * s) >= half * (2 * s) <==> rest >= half
  {
    MulAssoc(half, 2, s);
    MulStrictMono(rest, 2 * half, s);
    MulCompare(rest, half, s);
    MulMono(0, rest, s);
  }

  lemma RoundedQuotient(x: nat, one: nat, D: nat, r: nat)
    requires one > 0 && x == D * one + r && r < one
    ensures HalfUp(x, one) == if 2 * r >= one then D + 1 else D
  {
    assert D * (2 * one) == 2 * (D * one);
    if 2 * r < one {
      DivModUnique(2 * x + one, 2 * one, D, 2 * r + one);
    } else {
      Distribute(D, 1, 2 * one);
      DivModUnique(2 * x + one, 2 * one, D + 1, 2 * r - one);
    }
  }

  /** Below 2 * half the quotient by half is one bit. */
  lemma TopBit(rest: int, half: int)
    requires 0 <= rest < 2 * half
    ensures half > 0 && rest / half % 2 == if rest >= half then 1 else 0
  {
    if rest < half {
      DivModUnique(rest, half, 0, rest);
    } else {
      DivModUnique(rest, half, 1, rest - half);
    }
  }

  /** The first digits multiply the number by five; after three of them the point has moved far enough. */
  ghost predicate StillSmall(f: int, limit: nat, i: nat) {
    i >= 3 || f < limit * Pow(5, i)
  }

  /** Nothing is left: the digits that were not written are zeros. */
  lemma NothingLeft(w: nat, one: nat, i: nat, count: nat, D: nat)
    requires Written(w, one, i, D, 0) && one > 0 && i <= count
    ensures HalfUp(w * Pow(10, count), one) == D * Pow(10, count - i)
  {
    hide Pow;
    PowAdd(10, i, count - i);
    var t := Pow(10, count - i);
    MulAssoc(w, Pow(10, i), t);
    assert D * one * t == D * t * one;
    HalfUpExact(D * t, one);
  }

  /** The digits in the buffer, with the point, are w / one rounded to `count` places. */
  ghost predicate Represents(digits: seq<char>, decimalPoint: int, w: nat, one: nat, count: nat)
    requires one > 0
  {
    && AllDigits(digits) && decimalPoint - |digits| + count >= 0
    && DecVal(digits) * Pow(10, decimalPoint - |digits| + count) == HalfUp(w * Pow(10, count), one)
  }

  /** Rounding up the last of `count` digits after the point. */
  method RoundLast(buffer: array<char>, length: nat, decimalPoint: int, ghost count: nat, ghost w: nat, ghost one: nat)
    returns (newLength: nat, newPoint: int)
    requires length < buffer.Length && AllDigits(buffer[..length]) && decimalPoint == length - count >= 0 && one > 0
    requires HalfUp(w * Pow(10, count), one) == DecVal(buffer[..length]) + 1
    modifies buffer
    ensures newLength <= length + 1 && newLength <= buffer.Length
            && Represents(buffer[..newLength], newPoint, w, one, count)
  {
    hide DecVal, Pow, HalfUp, AllDigits;
    PowZero(10);
    PowOne(10);
    NoDigits([]);
    ghost var D := DecVal(buffer[..length]);
    if length == 0 {
      assert buffer[..length] == [];
    }
    newLength, newPoint := RoundUp(buffer, length, decimalPoint);
    if length > 0 && newPoint == decimalPoint + 1 {
      PowStep(10, length - 1);
    }
  }

  /** One digit: five times the fraction, with its point one bit further left, is ten times the fraction. */
  method NextDigit64(fractionals0: uint64, point0: nat, buffer: array<char>, length: nat, ghost w: nat,
                     ghost one: nat, ghost i: nat)
    returns (fractionals: uint64, point: nat)
    requires 0 < fractionals0 as int < Pow(2, point0) && point0 + i <= 64 && one == Pow(2, point0 + i)
    requires StillSmall(fractionals0 as int, LIMIT64, i)
    requires length < buffer.Length && AllDigits(buffer[..length]) && DecVal(buffer[..length]) >= 0
    requires Written(w, one, i, DecVal(buffer[..length]), fractionals0 as int)
    modifies buffer
    ensures point0 > 0 && point == point0 - 1 && (fractionals as int) < Pow(2, point)
    ensures StillSmall(fractionals as int, LIMIT64, i + 1)
    ensures AllDigits(buffer[..length + 1]) && DecVal(buffer[..length + 1]) >= 0
    ensures Written(w, one, i + 1, DecVal(buffer[..length + 1]), fractionals as int)
  {
    hide DecVal, Pow, AllDigits, Written, StillSmall;
    PointPositive(fractionals0 as int, point0);
    FivesFit64(fractionals0 as int, point0, i);
    point := point0 - 1;
    PowAdd(2, point, i + 1);
    PowStep(2, point);
    var half := Bit(point);
    var digit;
    digit, fractionals := TimesFive(fractionals0, half);
    NextDigit(w, one, i, DecVal(buffer[..length]), fractionals0 as int, half as int, digit as int, fractionals as int);
    SmallMono(digit as int * half as int, fractionals as int, fractionals0 as int * 5, LIMIT64, i + 1);
    AppendDigit(buffer, length, digit as int);
  }

  lemma SmallMono(taken: int, rest: int, total: int, limit: nat, i: nat)
    requires StillSmall(total, limit, i) && total == taken + rest && taken >= 0
    ensures StillSmall(rest, limit, i)
  {
  }

  /** The digit in front of the point, and what is behind it. */
  method TimesFive(fractionals: uint64, half: uint64) returns (digit: uint64, rest: uint64)
    requires fractionals as int * 5 < TWO64 && half > 0
    ensures fractionals as int * 5 == digit as int * half as int + rest as int && rest < half
            && digit as int * half as int >= 0
  {
    DivMod(fractionals as int * 5, half as int);
    DivBounds(fractionals as int * 5, half as int, 0, fractionals as int * 5 + 1) by {
      MulMonoRight(fractionals as int * 5 + 1, 1, half as int);
    }
    var product := fractionals * 5;
    digit := product / half;
    MulMono(0, digit as int, half as int);
    rest := product - digit * half;
  }

  /** Fractions that fit one word. */
  method FillFractionals64(fractionals0: uint64, exponent: int, fractionalCount: nat, buffer: array<char>,
                           length: nat, ghost w: nat)
    returns (newLength: nat, newPoint: int)
    requires -64 <= exponent <= 0 && fractionalCount <= 20 && (fractionals0 as int) < Pow(2, -exponent)
    requires fractionals0 < 0x100_0000_0000_0000 && length + 21 < buffer.Length && AllDigits(buffer[..length])
    requires w == DecVal(buffer[..length]) * Pow(2, -exponent) + fractionals0 as int
    modifies buffer
    ensures newLength <= length + 21 && Represents(buffer[..newLength], newPoint, w, Pow(2, -exponent), fractionalCount)
  {
    hide DecVal, Pow, HalfUp, AllDigits, Written, Represents, StillSmall, Quotient;
    var fractionals, point := fractionals0, -exponent;
    ghost var one := Pow(2, -exponent);
    DecValBound(buffer[..length]);
    WrittenStart(w, one, DecVal(buffer[..length]), fractionals0 as int);
    SmallAtStart(fractionals0 as int, LIMIT64);
    var i := 0;
    while i < fractionalCount && fractionals != 0
      invariant 0 <= i <= fractionalCount && point == -exponent - i && point >= 0
                && (fractionals as int) < Pow(2, point)
      invariant StillSmall(fractionals as int, LIMIT64, i)
      invariant AllDigits(buffer[..length + i]) && DecVal(buffer[..length + i]) >= 0
      invariant Written(w, one, i, DecVal(buffer[..length + i]), fractionals as int)
    {
      fractionals, point := NextDigit64(fractionals, point, buffer, length + i, w, one, i);
      i := i + 1;
    }
    var up := false;
    if fractionals != 0 {
      PointPositive(fractionals as int, point);
      PowAdd(2, point - 1, i + 1);
      PowStep(2, point - 1);
      TopBit(fractionals as int, Pow(2, point - 1));
      up := Quotient(fractionals, Bit(point - 1)) % 2 == 1;
    }
    newLength, newPoint := Finish(up, buffer, length + i, length, fractionalCount, i, fractionals as int,
                                  if fractionals != 0 then Pow(2, point - 1) else 1, w, one);
  }

  /** The end of the digits: round up if the first bit that is left says so. */
  method Finish(up: bool, buffer: array<char>, length: nat, decimalPoint: int, ghost count: nat, ghost i: nat,
                ghost rest: nat, ghost half: nat, ghost w: nat, ghost one: nat)
    returns (newLength: nat, newPoint: int)
    requires length < buffer.Length && AllDigits(buffer[..length]) && decimalPoint == length - i >= 0 && one > 0
    requires DecVal(buffer[..length]) >= 0 && Written(w, one, i, DecVal(buffer[..length]), rest) && i <= count
    requires rest == 0 ==> !up
    requires rest > 0 ==> i == count && half > 0 && half * Pow(2, i + 1) == one && rest < 2 * half
                          && up == (rest >= half)
    modifies buffer
    ensures newLength <= length + 1 && newLength <= buffer.Length
            && Represents(buffer[..newLength], newPoint, w, one, count)
  {
    hide DecVal, Pow, HalfUp, AllDigits, Written, Represents;
    newLength, newPoint := length, decimalPoint;
    if rest == 0 {
      NothingLeft(w, one, i, count, DecVal(buffer[..length]));
      ShortlyWritten(buffer[..length], decimalPoint, w, one, count, i);
    } else {
      LastDigitRounded(w, one, i, DecVal(buffer[..length]), rest, half);
    }
    if up {
      newLength, newPoint := RoundLast(buffer, length, decimalPoint, count, w, one);
    } else if rest > 0 {
      ExactlyWritten(buffer[..length], decimalPoint, w, one, count);
    }
  }

  lemma WrittenStart(w: nat, one: nat, D: int, rest: nat)
    requires w == D * one + rest
    ensures Written(w, one, 0, D, rest)
  {
  }

  lemma SmallFives()
    ensures Pow(5, 0) == 1 && Pow(5, 1) == 5 && Pow(5, 2) == 25 && Pow(5, 3) == 125
  {
  }

  /** A number that is not zero leaves the point above its lowest bit. */
  lemma PointPositive(f: int, point: nat)
    requires 0 < f < Pow(2, point)
    ensures point > 0
  {
  }

  const LIMIT64 := 0x100_0000_0000_0000

  lemma SmallAtStart(f: int, limit: nat)
    requires f < limit
    ensures StillSmall(f, limit, 0)
  {
    PowZero(5);
  }

  lemma FivesFit64(f: int, point: nat, i: nat)
    requires 0 <= f < Pow(2, point) && point + i <= 64 && StillSmall(f, LIMIT64, i)
    ensures f * 5 < TWO64 && StillSmall(f * 5, LIMIT64, i + 1)
  {
    hide Pow;
    SmallFives();
    PowStep(5, i);
    if i >= 3 {
      Pow2Table();
      PowMono(2, point, 61);
      Pow2Small();
      PowAdd(2, 1, 60);
    }
  }

  lemma ExactlyWritten(digits: seq<char>, decimalPoint: int, w: nat, one: nat, count: nat)
    requires AllDigits(digits) && one > 0 && decimalPoint == |digits| - count
    requires HalfUp(w * Pow(10, count), one) == DecVal(digits)
    ensures Represents(digits, decimalPoint, w, one, count)
  {
    hide Pow;
    PowZero(10);
  }

  lemma ShortlyWritten(digits: seq<char>, decimalPoint: int, w: nat, one: nat, count: nat, i: nat)
    requires AllDigits(digits) && one > 0 && i <= count && decimalPoint == |digits| - i
    requires HalfUp(w * Pow(10, count), one) == DecVal(digits) * Pow(10, count - i)
    ensures Represents(digits, decimalPoint, w, one, count)
  {
  }

  method AppendDigit(buffer: array<char>, length: nat, digit: int)
    requires length < buffer.Length && 0 <= digit <= 9 && AllDigits(buffer[..length]) && DecVal(buffer[..length]) >= 0
    modifies buffer
    ensures AllDigits(buffer[..length + 1]) && buffer[..length] == old(buffer[..length])
    ensures DecVal(buffer[..length + 1]) == old(DecVal(buffer[..length])) * 10 + digit >= 0
  {
    hide DecVal;
    ghost var s := buffer[..length];
    buffer[length] := DigitChar(digit);
    assert buffer[..length + 1] == s + [buffer[length]];
    DecValAppend(s, buffer[length]);
  }

  /** One digit out of 128 bits. */
  method NextDigit128(fractionals: UInt128, point0: nat, buffer: array<char>, length: nat, ghost w: nat, ghost i: nat)
    returns (point: nat)
    requires fractionals.Value() < Pow(2, point0) && point0 + i == 128 && i < 20
    requires StillSmall(fractionals.Value(), Pow(2, 119), i)
    requires length < buffer.Length && AllDigits(buffer[..length]) && DecVal(buffer[..length]) >= 0
    requires Written(w, TWO128, i, DecVal(buffer[..length]), fractionals.Value())
    modifies buffer, fractionals
    ensures point == point0 - 1 && fractionals.Value() < Pow(2, point)
    ensures StillSmall(fractionals.Value(), Pow(2, 119), i + 1)
    ensures AllDigits(buffer[..length + 1]) && DecVal(buffer[..length + 1]) >= 0
    ensures Written(w, TWO128, i + 1, DecVal(buffer[..length + 1]), fractionals.Value())
  {
    hide DecVal, Pow, AllDigits, Written, StillSmall, UInt128.Value;
    ghost var f := fractionals.Value();
    FivesFit128(f, point0, i);
    point := point0 - 1;
    PowAdd(2, point, i + 1);
    TwoTo128();
    PowStep(2, point);
    fractionals.Multiply(5);
    var digit := fractionals.DivModPowerOf2(point);
    NextDigit(w, TWO128, i, DecVal(buffer[..length]), f, Pow(2, point), digit, fractionals.Value());
    SmallMono(digit * Pow(2, point), fractionals.Value(), f * 5, Pow(2, 119), i + 1);
    AppendDigit(buffer, length, digit);
  }

  lemma TwoTo128()
    ensures Pow(2, 128) == TWO128
  {
    hide Pow;
    Pow2Table();
    PowAdd(2, 64, 64);
  }

  lemma FivesFit128(f: int, point: nat, i: nat)
    requires 0 <= f < Pow(2, point) && point + i == 128 && StillSmall(f, Pow(2, 119), i)
    ensures f * 5 < TWO128 && StillSmall(f * 5, Pow(2, 119), i + 1)
  {
    hide Pow;
    TwoTo128();
    SmallFives();
    PowStep(5, i);
    Pow2Small();
    PowAdd(2, 1, 2);
    PowAdd(2, 3, 125);
    PowAdd(2, 119, 7);
    PowAdd(2, 3, 4);
    PowMono(2, 126, 128);
    if i >= 3 {
      PowMono(2, point, 125);
    } else {
      assert Pow(2, 119) * Pow(5, i + 1) == 5 * (Pow(2, 119) * Pow(5, i));
      MulMonoRight(Pow(2, 119), Pow(5, i + 1), 128);
    }
  }

  /** Numbers with the point far to the left need 128 bits. */
  method FillFractionals128(fractionals: uint64, exponent: int, fractionalCount: nat, buffer: array<char>,
                            length: nat, ghost w: nat)
    returns (newLength: nat, newPoint: int)
    requires -128 <= exponent < -64 && fractionalCount <= 20 && (fractionals as int) < Pow(2, -exponent)
    requires fractionals < 0x100_0000_0000_0000 && length + 21 < buffer.Length && AllDigits(buffer[..length])
    requires w == DecVal(buffer[..length]) * Pow(2, -exponent) + fractionals as int
    modifies buffer
    ensures newLength <= length + 21 && Represents(buffer[..newLength], newPoint, w, Pow(2, -exponent), fractionalCount)
  {
    hide DecVal, Pow, HalfUp, AllDigits, Written, Represents, StillSmall;
    var fractionals128 := new UInt128(fractionals, 0);
    ghost var k := Pow(2, 128 + exponent);
    PlacedAtTop(fractionals as int, exponent);
    fractionals128.Shift(-exponent - 64);
    DecValBound(buffer[..length]);
    ghost var one, D := Pow(2, -exponent), DecVal(buffer[..length]);
    Distribute(D * one, fractionals as int, k);
    MulAssoc(D, one, k);
    WrittenStart(w * k, TWO128, D, fractionals as int * k);
    var point := 128;
    var i := 0;
    TwoTo128();
    while i < fractionalCount && !fractionals128.IsZero()
      invariant 0 <= i <= fractionalCount && point == 128 - i && fractionals128.Value() < Pow(2, point)
      invariant StillSmall(fractionals128.Value(), Pow(2, 119), i)
      invariant AllDigits(buffer[..length + i]) && DecVal(buffer[..length + i]) >= 0
      invariant Written(w * k, TWO128, i, DecVal(buffer[..length + i]), fractionals128.Value())
    {
      point := NextDigit128(fractionals128, point, buffer, length + i, w * k, i);
      i := i + 1;
    }
    PowAdd(2, point - 1, i + 1);
    PowStep(2, point - 1);
    var bit := fractionals128.BitAt(point - 1);
    TopBit(fractionals128.Value(), Pow(2, point - 1));
    newLength, newPoint := Finish(bit == 1, buffer, length + i, length, fractionalCount, i, fractionals128.Value(),
                                  Pow(2, point - 1), w * k, TWO128);
    RepresentsScaled(buffer[..newLength], newPoint, w, one, k, fractionalCount);
  }

  /** The fraction f * 2^exponent as 128 bits after the point. */
  lemma PlacedAtTop(f: int, exponent: int)
    requires -128 <= exponent < -64 && 0 <= f < Pow(2, -exponent) && f < 0x100_0000_0000_0000
    ensures f * TWO64 / Pow(2, -exponent - 64) == f * Pow(2, 128 + exponent) < TWO128
    ensures 0 <= f * Pow(2, 128 + exponent) && StillSmall(f * Pow(2, 128 + exponent), Pow(2, 119), 0)
    ensures Pow(2, -exponent) * Pow(2, 128 + exponent) == TWO128
  {
    hide Pow;
    SmallFives();
    TwoTo128();
    Pow2Table();
    var k := Pow(2, 128 + exponent);
    PowAdd(2, -exponent, 128 + exponent);
    PowAdd(2, -exponent - 64, 128 + exponent);
    MulStrictMono(f, Pow(2, -exponent), k);
    MulMono(0, f, k);
    var p := Pow(2, -exponent - 64);
    assert f * TWO64 == f * k * p by { MulAssoc(f, k, p); assert k * p == p * k; }
    DivModUnique(f * TWO64, p, f * k, 0);
    PowMono(2, 128 + exponent, 63);
    Two56();
    PowAdd(2, 56, 63);
    MulStrictMono(f, Pow(2, 56), k);
    MulMonoRight(Pow(2, 56), k, Pow(2, 63));
    SmallAtStart(f * k, Pow(2, 119));
  }

  lemma Two56()
    ensures Pow(2, 56) == 0x100_0000_0000_0000
  {
    hide Pow;
    Pow2Table();
    PowAdd(2, 32, 16);
    PowAdd(2, 48, 8);
  }

  lemma RepresentsScaled(digits: seq<char>, decimalPoint: int, w: nat, one: nat, k: nat, count: nat)
    requires one > 0 && k > 0 && one * k == TWO128 && Represents(digits, decimalPoint, w * k, TWO128, count)
    ensures Represents(digits, decimalPoint, w, one, count)
  {
    hide Pow, HalfUp, AllDigits, DecVal;
    assert w * k * Pow(10, count) == w * Pow(10, count) * k;
    HalfUpScaled(w * Pow(10, count), one, k);
  }

  /**
   * Appends `fractionalCount` digits of fractionals * 2^exponent, rounded, to the integral part in the buffer,
   * as far as they are not zeros.
   */
  method FillFractionals(fractionals: uint64, exponent: int, fractionalCount: nat, buffer: array<char>, length: nat,
                         ghost w: nat)
    returns (newLength: nat, newPoint: int)
    requires -128 <= exponent <= 0 && fractionalCount <= 20 && (fractionals as int) < Pow(2, -exponent)
    requires fractionals < 0x100_0000_0000_0000 && length + 21 < buffer.Length && AllDigits(buffer[..length])
    requires w == DecVal(buffer[..length]) * Pow(2, -exponent) + fractionals as int
    modifies buffer
    ensures newLength <= length + 21 && Represents(buffer[..newLength], newPoint, w, Pow(2, -exponent), fractionalCount)
  {
    hide Pow, HalfUp, AllDigits, DecVal, Represents;
    if -exponent <= 64 {
      newLength, newPoint := FillFractionals64(fractionals, exponent, fractionalCount, buffer, length, w);
    } else {
      newLength, newPoint := FillFractionals128(fractionals, exponent, fractionalCount, buffer, length, w);
    }
  }

  // ---------- trimming ----------

  /** No zero at either end. */
  ghost predicate NoOuterZeros(s: seq<char>) {
    s != [] ==> s[0] != '0' && s[|s| - 1] != '0'
  }

  /** Leaving out n zeros in front and everything from position m on. */
  lemma ZerosTrimmed(s: seq<char>, n: nat, m: nat)
    requires AllDigits(s) && n <= m <= |s|
    requires forall k :: 0 <= k < n || m <= k < |s| ==> s[k] == '0'
    ensures AllDigits(s[n..m]) && DecVal(s) == DecVal(s[n..m]) * Pow(10, |s| - m)
  {
    hide DecVal, Pow;
    DecValJoin(s, m, |s| - m);
    assert s[..m + (|s| - m)] == s && s[m..m + (|s| - m)] == s[m..];
    ZerosAreNothing(s[m..]);
    LeadingZerosVanish(s[..m], n);
    assert s[..m][n..] == s[n..m];
  }

  /** Leaves out zeros at both ends; the number stays, the point moves with the front. */
  method TrimZeros(buffer: array<char>, length0: nat, decimalPoint0: int) returns (length: nat, decimalPoint: int)
    requires length0 <= buffer.Length && AllDigits(buffer[..length0])
    modifies buffer
    ensures length <= length0 && AllDigits(buffer[..length]) && NoOuterZeros(buffer[..length])
    ensures var moved := (decimalPoint - length) - (decimalPoint0 - length0);
            moved >= 0 && old(DecVal(buffer[..length0])) == DecVal(buffer[..length]) * Pow(10, moved)
  {
    hide DecVal, Pow, AllDigits;
    ghost var s := buffer[..length0];
    length, decimalPoint := length0, decimalPoint0;
    while length > 0 && buffer[length - 1] == '0'
      invariant 0 <= length <= length0 && forall k :: length <= k < length0 ==> buffer[k] == '0'
    {
      length := length - 1;
    }
    var firstNonZero := 0;
    while firstNonZero < length && buffer[firstNonZero] == '0'
      invariant 0 <= firstNonZero <= length && forall k :: 0 <= k < firstNonZero ==> buffer[k] == '0'
    {
      firstNonZero := firstNonZero + 1;
    }
    ZerosTrimmed(s, firstNonZero, length);
    if firstNonZero == 0 {
      assert buffer[..length] == s[0..length];
    } else {
      MoveDown(buffer, firstNonZero, length);
      assert forall k :: 0 <= k < length - firstNonZero ==> buffer[k] == s[firstNonZero + k];
      assert buffer[..length - firstNonZero] == s[firstNonZero..length];
      length := length - firstNonZero;
      decimalPoint := decimalPoint - firstNonZero;
    }
  }

  method MoveDown(buffer: array<char>, n: nat, length: nat)
    requires n <= length <= buffer.Length
    modifies buffer
    ensures forall k :: 0 <= k < length - n ==> buffer[k] == old(buffer[k + n])
  {
    for i := n to length
      invariant forall k :: 0 <= k < i - n ==> buffer[k] == old(buffer[k + n])
      invariant forall k :: i - n <= k < buffer.Length ==> buffer[k] == old(buffer[k])
    {
      buffer[i - n] := buffer[i];
    }
  }

  // ---------- the whole conversion ----------

  lemma IntegralRepresents(digits: seq<char>, x: nat, count: nat)
    requires AllDigits(digits) && DecVal(digits) == x
    ensures Represents(digits, |digits|, x, 1, count)
  {
    hide Pow, HalfUp, DecVal;
    HalfUpExact(x * Pow(10, count), 1);
  }

  lemma FiveTo17()
    ensures Pow(5, 17) == 0xB1A2BC2EC5 && Pow(2, 17) == 131072 && Pow(10, 17) == 100000000000000000
  {
    hide Pow;
    SmallFives();
    Pow2Table();
    Pow2Small();
    Pow10Table();
    PowAdd(5, 3, 3);
    PowAdd(5, 6, 6);
    PowAdd(5, 12, 3);
    PowAdd(5, 15, 2);
    PowAdd(2, 16, 1);
    PowAdd(10, 10, 7);
  }

  /** f * 2^e divided by 10^17 = 5^17 * 2^17, without ever leaving 64 bits. */
  lemma DividedBy17(f: int, e: nat, dividend: int, divisor: int, up: int)
    requires 12 <= e <= 20 && 0 <= f < 0x20_0000_0000_0000
    requires if e > 17 then dividend == f * Pow(2, e - 17) && divisor == Pow(5, 17) && up == Pow(2, 17)
             else dividend == f && divisor == Pow(5, 17) * Pow(2, 17 - e) && up == Pow(2, e)
    ensures divisor > 0
    ensures f * Pow(2, e) == dividend / divisor * 100000000000000000 + dividend % divisor * up
    ensures 0 <= dividend / divisor < 0x1_0000_0000 && 0 <= dividend % divisor * up < 100000000000000000
  {
    hide Pow;
    FiveTo17();
    PowOfProduct(5, 2, 17);
    PowersUpTo8(e);
    if e > 17 {
      PowAdd(2, e - 17, 17);
      MulAssoc(f, Pow(2, e - 17), Pow(2, 17));
      MulMonoRight(f, Pow(2, e - 17), 8);
      MulMono(0, f, Pow(2, e - 17));
    } else {
      PowAdd(2, 17 - e, e);
      MulAssoc(Pow(5, 17), Pow(2, 17 - e), Pow(2, e));
      MulMonoRight(Pow(5, 17), 1, Pow(2, 17 - e));
    }
    QuotientFits(f * Pow(2, e), dividend, divisor, up);
  }

  lemma PowersUpTo8(e: nat)
    requires 12 <= e <= 20
    ensures Pow(2, e) <= 0x10_0000
    ensures e > 17 ==> Pow(2, e - 17) <= 8
    ensures e <= 17 ==> Pow(2, 17 - e) <= 32 && Pow(2, e) <= 131072
  {
    hide Pow;
    FiveTo17();
    Pow2Small();
    PowAdd(2, 1, 2);
    PowAdd(2, 1, 4);
    PowAdd(2, 3, 17);
    PowMono(2, e, 20);
    if e > 17 {
      PowMono(2, e - 17, 3);
    } else {
      PowMono(2, 17 - e, 5);
      PowMono(2, e, 17);
    }
  }

  lemma QuotientFits(total: int, dividend: int, divisor: int, up: int)
    requires divisor > 0 && up > 0 && total == dividend * up && divisor * up == 100000000000000000
    requires 0 <= dividend < 0x100_0000_0000_0000 && divisor >= 0xB1A2BC2EC5
    ensures total == dividend / divisor * 100000000000000000 + dividend % divisor * up
    ensures 0 <= dividend / divisor < 0x1_0000_0000 && 0 <= dividend % divisor * up < 100000000000000000
  {
    DivMod(dividend, divisor);
    var q, r := dividend / divisor, dividend % divisor;
    Distribute(q * divisor, r, up);
    MulAssoc(q, divisor, up);
    MulStrictMono(r, divisor, up);
    MulMono(0, r, up);
    MulMonoRight(0x1_0000_0000, 0xB1A2BC2EC5, divisor);
    DivBounds(dividend, divisor, 0, 0x1_0000_0000);
  }

  /** An integer of more than 64 bits, cut into what is above 10^17 and seventeen digits. */
  method FillLarge(significand: uint64, exponent: nat, buffer: array<char>) returns (length: nat)
    requires 12 <= exponent <= 20 && significand < 0x20_0000_0000_0000 && buffer.Length >= 28
    modifies buffer
    ensures length <= 27 && AllDigits(buffer[..length])
    ensures DecVal(buffer[..length]) == significand as int * Pow(2, exponent)
  {
    hide Pow, DecVal, AllDigits;
    FiveTo17();
    PowersUpTo8(exponent);
    var divisor: uint64, dividend: uint64 := 0xB1A2BC2EC5, significand;
    var up: uint64;
    if exponent > 17 {
      MulMonoRight(significand as int, Pow(2, exponent - 17), 8);
      dividend := dividend * Bit(exponent - 17);
      up := Bit(17);
    } else {
      MulMonoRight(divisor as int, Pow(2, 17 - exponent), 32);
      divisor := divisor * Bit(17 - exponent);
      up := Bit(exponent);
    }
    DividedBy17(significand as int, exponent, dividend as int, divisor as int, up as int);
    var quotient := (dividend / divisor) as uint32;
    var remainder := dividend % divisor * up;
    length := FillDigits32(quotient, buffer, 0);
    ghost var s := buffer[..length];
    assert buffer[0..length] == s;
    length := FillDigits64FixedLength(remainder, buffer, length);
    assert buffer[..length] == s + buffer[|s|..length];
    Joined(s, buffer[|s|..length]);
  }

  /** The number and its places: f * Up(2, e) / Down(2, e). */
  method FillAll(significand: uint64, exponent: int, fractionalCount: nat, buffer: array<char>)
    returns (length: nat, decimalPoint: int)
    requires -128 <= exponent <= 20 && fractionalCount <= 20 && significand < 0x20_0000_0000_0000 && buffer.Length >= 64
    modifies buffer
    ensures length < buffer.Length
    ensures Represents(buffer[..length], decimalPoint, significand as int * Up(2, exponent), Down(2, exponent),
                       fractionalCount)
  {
    hide Pow, DecVal, AllDigits, Represents, Up, Down;
    UpDown(2, exponent);
    PowZero(2);
    if exponent + 53 > 64 {
      length := FillLarge(significand, exponent, buffer);
      decimalPoint := length;
      IntegralRepresents(buffer[..length], significand as int * Pow(2, exponent), fractionalCount);
    } else if exponent >= 0 {
      ShiftFits(significand as int, exponent);
      length := FillDigits64(significand * Bit(exponent), buffer, 0);
      assert buffer[0..length] == buffer[..length];
      decimalPoint := length;
      IntegralRepresents(buffer[..length], significand as int * Pow(2, exponent), fractionalCount);
    } else if exponent > -53 {
      // The point is inside the significand.
      length, decimalPoint := FillMixed(significand, exponent, fractionalCount, buffer);
    } else {
      BelowOne(significand as int, exponent);
      NoDigits(buffer[..0]);
      length, decimalPoint := FillFractionals(significand, exponent, fractionalCount, buffer, 0, significand as int);
    }
  }

  lemma ShiftFits(f: int, e: nat)
    requires 0 <= f < 0x20_0000_0000_0000 && e <= 11
    ensures 0 <= f * Pow(2, e) < TWO64
  {
    hide Pow;
    Pow2Small();
    PowAdd(2, 1, 2);
    PowAdd(2, 3, 8);
    PowMono(2, e, 11);
    MulMonoRight(f, Pow(2, e), 2048);
    MulMono(0, f, Pow(2, e));
  }

  lemma BelowOne(f: int, exponent: int)
    requires 0 <= f < 0x20_0000_0000_0000 && -128 <= exponent <= -53
    ensures f < Pow(2, -exponent)
  {
    hide Pow;
    Pow2Table();
    Pow2Small();
    PowAdd(2, 32, 16);
    PowAdd(2, 48, 4);
    PowAdd(2, 52, 1);
    PowMono(2, 53, -exponent);
  }

  /** Some digits before the point, some after it. */
  method FillMixed(significand: uint64, exponent: int, fractionalCount: nat, buffer: array<char>)
    returns (length: nat, decimalPoint: int)
    requires -53 < exponent < 0 && fractionalCount <= 20 && significand < 0x20_0000_0000_0000 && buffer.Length >= 64
    modifies buffer
    ensures length < buffer.Length
    ensures Represents(buffer[..length], decimalPoint, significand as int, Pow(2, -exponent), fractionalCount)
  {
    hide Pow, DecVal, AllDigits, Represents;
    var p := Bit(-exponent);
    DivMod(significand as int, p as int);
    MulMono(0, significand as int / p as int, p as int);
    var integrals := significand / p;
    var fractionals := significand - integrals * p;
    if integrals > 0xFFFF_FFFF {
      length := FillDigits64(integrals, buffer, 0);
    } else {
      length := FillDigits32(integrals as uint32, buffer, 0);
    }
    assert buffer[0..length] == buffer[..length];
    length, decimalPoint := FillFractionals(fractionals, exponent, fractionalCount, buffer, length, significand as int);
  }

  /** Too small for any digit at the twentieth place. */
  lemma TinyIsZero(f: int, exponent: int, count: nat)
    requires 0 <= f < 0x20_0000_0000_0000 && exponent < -128 && count <= 20
    ensures HalfUp(f * Up(2, exponent) * Pow(10, count), Down(2, exponent)) == 0
  {
    hide Pow, Up, Down;
    UpDown(2, exponent);
    Pow10Table();
    PowAdd(10, 10, 10);
    PowMono(10, count, 20);
    Pow2Table();
    Pow2Small();
    PowAdd(2, 64, 4);
    PowAdd(2, 60, 68);
    PowMono(2, 128, -exponent);
    MulMono(f, 0x20_0000_0000_0000, Pow(10, count));
    MulMono(0, f, Pow(10, count));
    DivModUnique(2 * (f * Pow(10, count)) + Down(2, exponent), 2 * Down(2, exponent), 0,
                 2 * (f * Pow(10, count)) + Down(2, exponent));
  }

  lemma TrimmedRepresents(s: seq<char>, point: int, t: seq<char>, point': int, w: nat, one: nat, count: nat)
    requires one > 0 && Represents(s, point, w, one, count) && AllDigits(t)
    requires var moved := (point' - |t|) - (point - |s|);
             moved >= 0 && DecVal(s) == DecVal(t) * Pow(10, moved)
    ensures Represents(t, point', w, one, count)
    ensures t == [] ==> HalfUp(w * Pow(10, count), one) == 0
  {
    hide Pow, HalfUp;
    var moved, k := (point' - |t|) - (point - |s|), point - |s| + count;
    PowAdd(10, moved, k);
    MulAssoc(DecVal(t), Pow(10, moved), Pow(10, k));
  }

  /** v as a fraction. */
  ghost function Numerator(v: Double): nat {
    MulMono(0, Significand(v) as int, Up(2, Exponent(v)));
    Significand(v) as int * Up(2, Exponent(v))
  }

  ghost function Denominator(v: Double): (r: nat)
    ensures r > 0
  {
    Down(2, Exponent(v))
  }

  /** The digits, with the point, are v rounded half up to `count` places; no digits mean zero. */
  ghost predicate Fixed(v: Double, count: nat, digits: seq<char>, decimalPoint: int) {
    && NoOuterZeros(digits)
    && if digits == [] then HalfUp(Numerator(v) * Pow(10, count), Denominator(v)) == 0 && decimalPoint == 0 - count
       else Represents(digits, decimalPoint, Numerator(v), Denominator(v), count)
  }

  /**
   * The digits of v with `fractionalCount` places after the point, rounded half up, without zeros at either
   * end. Only numbers below about 2^73 and at most twenty places are handled.
   */
  method FastFixedDtoa(v: Double, fractionalCount: nat, buffer: array<char>)
    returns (ok: bool, length: nat, decimalPoint: int)
    requires v < INFINITY && buffer.Length >= 64
    modifies buffer
    ensures ok <==> Exponent(v) <= 20 && fractionalCount <= 20
    ensures ok ==> length < buffer.Length && buffer[length] == '\0'
                   && Fixed(v, fractionalCount, buffer[..length], decimalPoint)
  {
    hide Pow, DecVal, AllDigits, Represents, Up, Down, HalfUp, Significand, Exponent, NoOuterZeros;
    var significand, exponent := Significand(v), Exponent(v);
    length, decimalPoint := 0, 0;
    if exponent > 20 || fractionalCount > 20 {
      return false, length, decimalPoint;
    }
    NothingOutside();
    if exponent < -128 {
      TinyIsZero(significand as int, exponent, fractionalCount);
      buffer[0] := '\0';
      assert buffer[..0] == [];
      return true, 0, 0 - fractionalCount;
    }
    length, decimalPoint := FillAll(significand, exponent, fractionalCount, buffer);
    length, decimalPoint := Trim(v, fractionalCount, buffer, length, decimalPoint);
    ok := true;
  }

  /** The end of the conversion: trim, terminate, and place the point of an empty string. */
  method Trim(v: Double, fractionalCount: nat, buffer: array<char>, length0: nat, decimalPoint0: int)
    returns (length: nat, decimalPoint: int)
    requires length0 < buffer.Length
             && Represents(buffer[..length0], decimalPoint0, Numerator(v), Denominator(v), fractionalCount)
    modifies buffer
    ensures length < buffer.Length && buffer[length] == '\0'
            && Fixed(v, fractionalCount, buffer[..length], decimalPoint)
  {
    hide Pow, DecVal, AllDigits, Represents, HalfUp, NoOuterZeros, Numerator, Denominator;
    ghost var s, w, one := buffer[..length0], Numerator(v), Denominator(v);
    DigitsOf(s, decimalPoint0, w, one, fractionalCount);
    length, decimalPoint := TrimZeros(buffer, length0, decimalPoint0);
    TrimmedRepresents(s, decimalPoint0, buffer[..length], decimalPoint, w, one, fractionalCount);
    ghost var t := buffer[..length];
    buffer[length] := '\0';
    assert buffer[..length] == t;
    if length == 0 {
      decimalPoint := 0 - fractionalCount;
    }
  }

  lemma NothingOutside()
    ensures NoOuterZeros([])
  {
  }

  lemma DigitsOf(s: seq<char>, point: int, w: nat, one: nat, count: nat)
    requires one > 0 && Represents(s, point, w, one, count)
    ensures AllDigits(s)
  {
  }
}
