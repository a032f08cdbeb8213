/** Machine words. Arithmetic on them is checked: an operation that would wrap around does not verify. */
module Words {
  newtype uint64 = x: int | 0 <= x < 0x1_0000_0000_0000_0000
  newtype uint32 = x: int | 0 <= x < 0x1_0000_0000
  newtype uint16 = x: int | 0 <= x < 0x1_0000
  type int16 = x: int | -0x8000 <= x < 0x8000
}

/** Powers of natural numbers and the few multiplication facts the solver needs spelled out. */
module Powers {
  import opened Words

  function Pow(b: nat, n: nat): (r: nat)
    ensures b > 0 ==> r > 0
  {
    if n == 0 then 1 else b * Pow(b, n - 1)
  }

  lemma {:induction false} PowAdd(b: nat, m: nat, n: nat)
    ensures Pow(b, m + n) == Pow(b, m) * Pow(b, n)
  {
    if m == 0 {
    } else {
      PowAdd(b, m - 1, n);
      MulAssoc(b, Pow(b, m - 1), Pow(b, n));
    }
  }

  lemma {:induction false} PowMono(b: nat, m: nat, n: nat)
    requires b > 0 && m <= n
    ensures Pow(b, m) <= Pow(b, n)
  {
    PowAdd(b, m, n - m);
    MulMono(1, Pow(b, n - m), Pow(b, m));
  }

  lemma PowStrictMono(b: nat, m: nat, n: nat)
    requires b > 1 && m < n
    ensures Pow(b, m) < Pow(b, n)
  {
    PowMono(b, m, n - 1);
    MulMono(2, b, Pow(b, n - 1));
  }

  lemma PowZero(b: nat)
    ensures Pow(b, 0) == 1
  {
  }

  lemma PowOne(b: nat)
    ensures Pow(b, 1) == b
  {
  }

  lemma PowStep(b: nat, n: nat)
    ensures Pow(b, n + 1) == b * Pow(b, n)
  {
  }

  lemma Pow2Table()
    ensures Pow(2, 4) == 0x10 && Pow(2, 8) == 0x100 && Pow(2, 16) == 0x1_0000 && Pow(2, 32) == 0x1_0000_0000
    ensures Pow(2, 60) == 0x1000_0000_0000_0000 && Pow(2, 64) == 0x1_0000_0000_0000_0000
  {
    hide Pow;
    Pow2Small();
    PowAdd(2, 8, 8);
    PowAdd(2, 16, 16);
    PowAdd(2, 32, 32);
    PowAdd(2, 4, 60);
  }

  lemma Pow2Small()
    ensures Pow(2, 0) == 1 && Pow(2, 1) == 2 && Pow(2, 2) == 4 && Pow(2, 4) == 0x10 && Pow(2, 8) == 0x100
  {
    assert Pow(2, 4) == 2 * Pow(2, 3) == 4 * Pow(2, 2) == 8 * Pow(2, 1) == 16;
    PowAdd(2, 4, 4);
  }

  /** 1 << n. */
  function Bit(n: nat): (r: uint64)
    requires n <= 63
    ensures r as int == Pow(2, n)
  {
    Pow2Table();
    PowStrictMono(2, n, 64);
    Pow(2, n) as uint64
  }

  lemma Pow10Table()
    ensures Pow(10, 0) == 1 && Pow(10, 1) == 10 && Pow(10, 2) == 100 && Pow(10, 3) == 1000
    ensures Pow(10, 4) == 10000 && Pow(10, 5) == 100000 && Pow(10, 6) == 1000000
    ensures Pow(10, 7) == 10000000 && Pow(10, 8) == 100000000 && Pow(10, 9) == 1000000000
    ensures Pow(10, 10) == 10000000000
  {
    assert Pow(10, 0) == 1;
    assert Pow(10, 1) == 10 * Pow(10, 0);
    assert Pow(10, 2) == 10 * Pow(10, 1);
    assert Pow(10, 3) == 10 * Pow(10, 2);
    assert Pow(10, 4) == 10 * Pow(10, 3);
    assert Pow(10, 5) == 10 * Pow(10, 4);
    assert Pow(10, 6) == 10 * Pow(10, 5);
    assert Pow(10, 7) == 10 * Pow(10, 6);
    assert Pow(10, 8) == 10 * Pow(10, 7);
    assert Pow(10, 9) == 10 * Pow(10, 8);
    assert Pow(10, 10) == 10 * Pow(10, 9);
  }

  /** Comparing powers compares exponents. */
  lemma PowLtInv(b: nat, m: nat, n: nat)
    requires b > 1 && Pow(b, m) < Pow(b, n)
    ensures m < n
  {
    if n <= m {
      PowMono(b, n, m);
    }
  }

  lemma MulAssoc(x: int, y: int, z: int)
    ensures x * (y * z) == (x * y) * z
  {
  }

  lemma MulMono(x: int, y: int, z: int)
    requires x <= y && 0 <= z
    ensures x * z <= y * z
  {
  }

  lemma MulMonoRight(z: int, x: int, y: int)
    requires x <= y && 0 <= z
    ensures z * x <= z * y
  {
  }

  lemma MulStrictMono(x: int, y: int, z: int)
    requires x < y && 0 < z
    ensures x * z < y * z
  {
  }

  /** Cancelling a positive factor. */
  lemma MulLtInv(x: int, y: int, z: int)
    requires x * z < y * z && 0 < z
    ensures x < y
  {
    if y <= x {
      MulMono(y, x, z);
    }
  }

  lemma MulLeInv(x: int, y: int, z: int)
    requires x * z <= y * z && 0 < z
    ensures x <= y
  {
    if y < x {
      MulStrictMono(y, x, z);
    }
  }

  lemma MulBoth(a: nat, b: nat, c: nat, d: nat)
    requires a <= b && c <= d
    ensures a * c <= b * d
  {
    MulMono(a, b, c);
    MulMonoRight(b, c, d);
  }

  /** Multiplying by a positive number keeps every comparison. */
  lemma MulCompare(x: int, y: int, k: int)
    requires k > 0
    ensures x < y <==> x * k < y * k
    ensures x == y <==> x * k == y * k
  {
    if x < y {
      MulStrictMono(x, y, k);
    } else if y < x {
      MulStrictMono(y, x, k);
    }
  }

  lemma Distribute(x: int, y: int, z: int)
    ensures (x + y) * z == x * z + y * z
    ensures (x - y) * z == x * z - y * z
  {
  }

  lemma DivMod(n: int, d: int)
    requires d > 0
    ensures n == n / d * d + n % d && 0 <= n % d < d
  {
  }

  lemma {:induction false} DivBounds(n: int, d: int, lo: int, hi: int)
    requires d > 0 && lo * d <= n < hi * d
    ensures lo <= n / d < hi
  {
    DivMod(n, d);
    if n / d < lo {
      MulMono(n / d + 1, lo, d);
      Distribute(n / d, 1, d);
    } else if hi <= n / d {
      MulMono(hi, n / d, d);
    }
  }

  lemma {:induction false} DivDiv(n: nat, a: nat, b: nat)
    requires a > 0 && b > 0
    ensures a * b > 0 && n / a / b == n / (a * b)
  {
    var q, r := n / a, n % a;
    DivMod(n, a);
    DivMod(q, b);
    Distribute(q / b * b, q % b, a);
    MulAssoc(q / b, b, a);
    assert b * a == a * b;
    MulMono(q % b + 1, b, a);
    Distribute(q % b, 1, a);
    MulMono(0, q % b, a);
    DivModUnique(n, a * b, q / b, q % b * a + r);
  }

  lemma {:induction false} PowOfProduct(x: nat, y: nat, n: nat)
    ensures Pow(x * y, n) == Pow(x, n) * Pow(y, n)
  {
    if n > 0 {
      PowOfProduct(x, y, n - 1);
      Interchange(x, y, Pow(x, n - 1), Pow(y, n - 1));
    }
  }

  lemma Interchange(x: int, y: int, p: int, q: int)
    ensures x * y * (p * q) == (x * p) * (y * q)
  {
    MulAssoc(x * y, p, q);
    MulAssoc(x * p, y, q);
    MulAssoc(x, y, p);
    MulAssoc(x, p, y);
    assert y * p == p * y;
  }

  lemma {:induction false} PowOfPow(b: nat, m: nat, n: nat)
    ensures Pow(Pow(b, m), n) == Pow(b, m * n)
  {
    if n == 0 {
      assert m * n == 0;
    } else {
      PowOfPow(b, m, n - 1);
      PowAdd(b, m, m * (n - 1));
      assert m + m * (n - 1) == m * n;
    }
  }

  lemma {:induction false} PowBaseMono(x: nat, y: nat, n: nat)
    requires x <= y
    ensures Pow(x, n) <= Pow(y, n)
  {
    if n > 0 {
      PowBaseMono(x, y, n - 1);
      MulMono(x, y, Pow(x, n - 1));
      MulMono(Pow(x, n - 1), Pow(y, n - 1), y);
    }
  }

  /** b^k = Up(b, k) / Down(b, k) for any integer k. */
  ghost function Up(b: nat, k: int): (r: nat)
    ensures b > 0 ==> r > 0
  {
    Pow(b, if k > 0 then k else 0)
  }

  ghost function Down(b: nat, k: int): (r: nat)
    ensures b > 0 ==> r > 0
  {
    Pow(b, if k < 0 then -k else 0)
  }

  lemma UpDown(b: nat, k: int)
    ensures Up(b, k) == if k >= 0 then Pow(b, k) else 1
    ensures Down(b, k) == if k < 0 then Pow(b, -k) else 1
  {
  }

  /** Decimal digits take at most four bits each. */
  lemma TenBelowSixteen(n: nat)
    ensures Pow(10, n) <= Pow(2, 4 * n)
  {
    hide Pow;
    Pow2Small();
    PowBaseMono(10, Pow(2, 4), n);
    PowOfPow(2, 4, n);
  }

  /** A product of numbers of m and n bits has at most m + n. */
  lemma ProductBelow(x: nat, y: nat, m: nat, n: nat)
    requires x <= Pow(2, m) && y <= Pow(2, n)
    ensures x * y <= Pow(2, m + n)
  {
    hide Pow;
    PowAdd(2, m, n);
    MulBoth(x, Pow(2, m), y, Pow(2, n));
  }

  /** Quotient and remainder are determined by the equation that defines them. */
  lemma {:induction false} DivModUnique(n: int, d: int, q: int, r: int)
    requires d > 0 && n == q * d + r && 0 <= r < d
    ensures n / d == q && n % d == r
  {
    var q', r' := n / d, n % d;
    assert n == q' * d + r';
    if q' < q {
      MulMono(q' + 1, q, d);
      Distribute(q', 1, d);
    } else if q < q' {
      MulMono(q + 1, q', d);
      Distribute(q, 1, d);
    }
  }
}

/** Digit buffers: a string of the characters '0'..'9', most significant first. */
module Decimal {
  import opened Powers

  ghost predicate AllDigits(s: seq<char>) {
    forall i :: 0 <= i < |s| ==> '0' <= s[i] <= '9'
  }

  function DigitVal(c: char): int {
    c as int - '0' as int
  }

  function DigitChar(d: int): (c: char)
    requires 0 <= d <= 10
    ensures DigitVal(c) == d
  {
    ('0' as int + d) as char
  }

  /** The number the characters denote, each one taken as its distance from '0'. */
  function DecVal(s: seq<char>): int {
    if |s| == 0 then 0 else DecVal(s[..|s| - 1]) * 10 + DigitVal(s[|s| - 1])
  }

  lemma DecValAppend(s: seq<char>, c: char)
    ensures DecVal(s + [c]) == DecVal(s) * 10 + DigitVal(c)
  {
    assert (s + [c])[..|s|] == s;
  }

  lemma {:induction false} DecValBound(s: seq<char>)
    requires AllDigits(s)
    ensures 0 <= DecVal(s) < Pow(10, |s|)
  {
    if |s| > 0 {
      DecValBound(s[..|s| - 1]);
    }
  }

  /** Replacing the last digit changes the value by the difference of the digits. */
  lemma DecValLast(s: seq<char>, c: char)
    requires |s| > 0
    ensures DecVal(s[|s| - 1 := c]) == DecVal(s) - DigitVal(s[|s| - 1]) + DigitVal(c)
  {
    assert s[|s| - 1 := c][..|s| - 1] == s[..|s| - 1];
  }

  lemma NoDigits(s: seq<char>)
    requires s == []
    ensures AllDigits(s) && DecVal(s) == 0
  {
  }

  lemma {:induction false} DecValJoin(s: seq<char>, pos: nat, count: nat)
    requires pos + count <= |s|
    ensures DecVal(s[..pos + count]) == DecVal(s[..pos]) * Pow(10, count) + DecVal(s[pos..pos + count])
    decreases count
  {
    hide DecVal, Pow;
    if count == 0 {
      NoDigits(s[pos..pos]);
      PowZero(10);
    } else {
      var c := s[pos + count - 1];
      DecValJoin(s, pos, count - 1);
      assert s[..pos + count] == s[..pos + count - 1] + [c];
      assert s[pos..pos + count] == s[pos..pos + count - 1] + [c];
      DecValAppend(s[..pos + count - 1], c);
      DecValAppend(s[pos..pos + count - 1], c);
      TenMore(DecVal(s[..pos]), Pow(10, count - 1), Pow(10, count));
      PowStep(10, count - 1);
    }
  }

  lemma TenMore(v: int, p: int, q: int)
    ensures q == 10 * p ==> v * p * 10 == v * q
  {
  }

  lemma {:induction false} ZerosAreNothing(s: seq<char>)
    requires forall i :: 0 <= i < |s| ==> s[i] == '0'
    ensures DecVal(s) == 0
  {
    if |s| > 0 {
      ZerosAreNothing(s[..|s| - 1]);
    }
  }

  lemma OneDigit(s: seq<char>)
    requires |s| == 1
    ensures DecVal(s) == DigitVal(s[0])
  {
    assert s[..0] == [];
  }

  lemma LeadingDigitCounts(s: seq<char>)
    requires AllDigits(s) && |s| > 0 && s[0] != '0'
    ensures Pow(10, |s| - 1) <= DecVal(s) < Pow(10, |s|)
  {
    hide DecVal, Pow;
    DecValBound(s);
    DecValJoin(s, 1, |s| - 1);
    assert s[..1 + (|s| - 1)] == s && s[1..1 + (|s| - 1)] == s[1..];
    DecValBound(s[1..]);
    OneDigit(s[..1]);
    MulMono(1, DecVal(s[..1]), Pow(10, |s| - 1));
  }

  /** Zeros in front mean nothing. */
  lemma LeadingZerosVanish(digits: seq<char>, n: nat)
    requires n <= |digits| && forall i :: 0 <= i < n ==> digits[i] == '0'
    ensures DecVal(digits) == DecVal(digits[n..])
  {
    hide Pow, DecVal;
    DecValJoin(digits, n, |digits| - n);
    assert digits[..n + (|digits| - n)] == digits && digits[n..n + (|digits| - n)] == digits[n..];
    ZerosAreNothing(digits[..n]);
  }

  /** The first digit is worth the power of ten of its place. */
  lemma DecValFront(c: char, s: seq<char>)
    ensures DecVal([c] + s) == DigitVal(c) * Pow(10, |s|) + DecVal(s)
  {
    hide DecVal, Pow;
    var t := [c] + s;
    DecValJoin(t, 1, |s|);
    assert t[..1 + |s|] == t && t[1..1 + |s|] == s && t[..1] == [c];
    OneDigit([c]);
  }
}
