/** Comba squaring: each column of the product is summed up separately and written over the operand. */
module BigitSquare {
  import opened Powers
  import opened Words
  import opened BigitSeq

  // ---------- the product, column by column ----------

  ghost function At(s: seq<uint32>, j: int): nat {
    if 0 <= j < |s| then s[j] as int else 0
  }

  /** Column k of the first m rows: the sum of s[i] * s[k-i] for i < m. */
  ghost function Column(s: seq<uint32>, m: nat, k: int): nat
    requires m <= |s|
  {
    if m == 0 then 0 else Column(s, m - 1, k) + s[m - 1] as int * At(s, k - (m - 1))
  }

  /** The first n columns of the first m rows, each at its place. */
  ghost function Columns(s: seq<uint32>, m: nat, n: nat): nat
    requires m <= |s|
  {
    if n == 0 then 0 else Columns(s, m, n - 1) + Column(s, m, n - 1) * P(n - 1)
  }

  /** The bigits of s moved up by m places, up to column n. */
  ghost function Row(s: seq<uint32>, m: nat, n: nat): nat {
    if n == 0 then 0 else Row(s, m, n - 1) + At(s, n - 1 - m) * P(n - 1)
  }

  lemma {:induction false} RowValue(s: seq<uint32>, m: nat, n: nat)
    ensures n <= m ==> Row(s, m, n) == 0
    ensures m <= n <= m + |s| ==> Row(s, m, n) == P(m) * V(s[..n - m])
    ensures m + |s| <= n ==> Row(s, m, n) == P(m) * V(s)
  {
    if n > 0 {
      RowValue(s, m, n - 1);
      if m < n <= m + |s| {
        var j := n - 1 - m;
        assert s[..j + 1] == s[..j] + [s[j]];
        VPush(s[..j], s[j]);
        PowAdd(BASE, m, j);
        RowStep(V(s[..j]), s[j] as int, P(m), P(j));
      }
    }
    assert s[..|s|] == s;
    assert V(s[..0]) == 0;
  }

  lemma RowStep(v: int, d: int, p: int, q: int)
    ensures p * (v + d * q) == p * v + d * (p * q)
  {
    assert p * (v + d * q) == p * v + p * (d * q);
    MulAssoc(p, d, q);
    MulAssoc(d, p, q);
    assert p * d == d * p;
  }

  lemma {:induction false} ColumnsNextRow(s: seq<uint32>, m: nat, n: nat)
    requires m < |s|
    ensures Columns(s, m + 1, n) == Columns(s, m, n) + s[m] as int * Row(s, m, n)
  {
    if n > 0 {
      ColumnsNextRow(s, m, n - 1);
      NextRowStep(Column(s, m, n - 1), s[m] as int, At(s, n - 1 - m), P(n - 1), Row(s, m, n - 1));
    }
  }

  lemma NextRowStep(c: int, d: int, a: int, p: int, r: int)
    ensures (c + d * a) * p == c * p + d * (a * p) && d * (r + a * p) == d * r + d * (a * p)
  {
    Distribute(c, d * a, p);
    MulAssoc(d, a, p);
  }

  /** All columns together are the product of the rows so far with s. */
  lemma {:induction false} ColumnsValue(s: seq<uint32>, m: nat)
    requires m <= |s|
    ensures Columns(s, m, 2 * |s|) == V(s[..m]) * V(s)
  {
    if m == 0 {
      NoRows(s, 2 * |s|);
    } else {
      ColumnsValue(s, m - 1);
      ColumnsNextRow(s, m - 1, 2 * |s|);
      RowValue(s, m - 1, 2 * |s|);
      assert s[..m] == s[..m - 1] + [s[m - 1]];
      VPush(s[..m - 1], s[m - 1]);
      Distribute(V(s[..m - 1]), s[m - 1] as int * P(m - 1), V(s));
      MulAssoc(s[m - 1] as int, P(m - 1), V(s));
    }
  }

  lemma {:induction false} NoRows(s: seq<uint32>, n: nat)
    ensures Columns(s, 0, n) == 0
  {
    if n > 0 {
      NoRows(s, n - 1);
    }
  }

  /** Rows beyond k contribute nothing to column k. */
  lemma {:induction false} ColumnTail(s: seq<uint32>, k: nat, m: nat)
    requires k < m <= |s|
    ensures Column(s, m, k) == Column(s, k + 1, k)
  {
    if m > k + 1 {
      ColumnTail(s, k, m - 1);
    }
  }

  /** Rows so low that their last bigit stays below column k contribute nothing. */
  lemma {:induction false} ColumnHead(s: seq<uint32>, k: nat, m: nat)
    requires m <= |s| && |s| + m <= k + 1
    ensures Column(s, m, k) == 0
  {
    if m > 0 {
      ColumnHead(s, k, m - 1);
    }
  }

  lemma {:induction false} ColumnBound(s: seq<uint32>, k: int, m: nat)
    requires Bigits(s) && m <= |s|
    ensures Column(s, m, k) <= m * ((BASE - 1) * (BASE - 1))
  {
    if m > 0 {
      ColumnBound(s, k, m - 1);
      var x, y := s[m - 1] as int, At(s, k - (m - 1));
      MulMono(x, BASE - 1, y);
      MulMono(y, BASE - 1, BASE - 1);
    }
  }

  // ---------- the loops ----------

  /** Sums up column k of the lower half: both indices run until the first one is used up. */
  method SumLow(a: array<uint32>, n: nat, k: nat, accumulator0: uint64, ghost s: seq<uint32>)
    returns (accumulator: uint64)
    requires k < n == |s| <= 64 && 2 * n <= a.Length && Bigits(s)
    requires forall j :: 0 <= j < n ==> a[n + j] == s[j]
    requires accumulator0 as int <= n * BASE
    ensures accumulator as int == accumulator0 as int + Column(s, n, k)
  {
    hide Column, At;
    accumulator := accumulator0;
    var bigitIndex1 := k;
    var bigitIndex2 := 0;
    ColumnStart(s, k);
    while bigitIndex1 >= 0
      invariant 0 <= bigitIndex2 <= k + 1 && bigitIndex1 + bigitIndex2 == k
      invariant accumulator as int == accumulator0 as int + Column(s, bigitIndex2, k)
    {
      var chunk1 := a[n + bigitIndex1];
      var chunk2 := a[n + bigitIndex2];
      ColumnNext(s, bigitIndex2, k, accumulator0 as int);
      accumulator := accumulator + chunk1 as uint64 * chunk2 as uint64;
      bigitIndex1 := bigitIndex1 - 1;
      bigitIndex2 := bigitIndex2 + 1;
    }
    ColumnTail(s, k, n);
  }

  /** Sums up column k of the upper half, starting where the first index is the last bigit. */
  method SumHigh(a: array<uint32>, n: nat, k: nat, accumulator0: uint64, ghost s: seq<uint32>)
    returns (accumulator: uint64)
    requires n <= k < 2 * n && n == |s| <= 64 && 2 * n <= a.Length && Bigits(s)
    requires forall j :: k - n < j < n ==> a[n + j] == s[j]
    requires accumulator0 as int <= n * BASE
    ensures accumulator as int == accumulator0 as int + Column(s, n, k)
  {
    hide Column, At;
    accumulator := accumulator0;
    var bigitIndex1 := n - 1;
    var bigitIndex2 := k - bigitIndex1;
    ColumnHead(s, k, bigitIndex2);
    while bigitIndex2 < n
      invariant k - n < bigitIndex2 <= n && bigitIndex1 + bigitIndex2 == k
      invariant accumulator as int == accumulator0 as int + Column(s, bigitIndex2, k)
    {
      var chunk1 := a[n + bigitIndex1];
      var chunk2 := a[n + bigitIndex2];
      ColumnNext(s, bigitIndex2, k, accumulator0 as int);
      accumulator := accumulator + chunk1 as uint64 * chunk2 as uint64;
      bigitIndex1 := bigitIndex1 - 1;
      bigitIndex2 := bigitIndex2 + 1;
    }
  }

  lemma ColumnStart(s: seq<uint32>, k: int)
    ensures Column(s, 0, k) == 0
  {
  }

  /** One more product in column k; the sum of a column and a carry never exceeds 64 bits. */
  lemma ColumnNext(s: seq<uint32>, m: nat, k: int, carry: int)
    requires Bigits(s) && |s| <= 64 && m < |s| && 0 <= k - m < |s| && 0 <= carry <= |s| * BASE
    ensures Column(s, m + 1, k) == Column(s, m, k) + s[k - m] as int * s[m] as int
    ensures 0 <= s[k - m] as int * s[m] as int < 0x100_0000_0000_0000
    ensures carry + Column(s, m + 1, k) < 0x1_0000_0000_0000_0000
  {
    ColumnBound(s, k, m + 1);
    var x, y := s[k - m] as int, s[m] as int;
    MulMono(x, BASE - 1, y);
    MulMono(y, BASE - 1, BASE - 1);
    MulMono(0, x, y);
    assert y * x == x * y;
  }

  /** Squares the n bigits of a in place; afterwards the first 2n are the square. */
  method SquareInPlace(a: array<uint32>, n: nat)
    requires 2 * n <= a.Length && n <= 64 && Bigits(a[..n])
    modifies a
    ensures Bigits(a[..2 * n]) && V(a[..2 * n]) == old(V(a[..n])) * old(V(a[..n]))
  {
    hide V, P, Column, Columns;
    ghost var s := a[..n];
    for i := 0 to n
      invariant a[..n] == s
      invariant forall j :: 0 <= j < i ==> a[n + j] == s[j]
    {
      a[n + i] := a[i];
    }
    var accumulator: uint64 := 0;
    SquaringStart(a[..0], s);
    for i := 0 to n
      invariant forall j :: 0 <= j < n ==> a[n + j] == s[j]
      invariant Squaring(a[..i], s, accumulator as int)
    {
      ghost var done, carry := a[..i], accumulator as int;
      SquaringBound(done, s, accumulator as int);
      accumulator := SumLow(a, n, i, accumulator, s);
      a[i] := (accumulator % 0x1000_0000) as uint32;
      assert a[..i + 1] == done + [(accumulator % 0x1000_0000) as uint32];
      SquaringStep(done, s, carry, accumulator as int, (accumulator % 0x1000_0000) as uint32);
      accumulator := accumulator / 0x1000_0000;
    }
    for i := n to 2 * n
      invariant forall j :: i - n <= j < n ==> a[n + j] == s[j]
      invariant Squaring(a[..i], s, accumulator as int)
    {
      ghost var done, carry := a[..i], accumulator as int;
      SquaringBound(done, s, accumulator as int);
      accumulator := SumHigh(a, n, i, accumulator, s);
      // The overwritten bigit is not read any more: both indices stay above i - n.
      a[i] := (accumulator % 0x1000_0000) as uint32;
      assert a[..i + 1] == done + [(accumulator % 0x1000_0000) as uint32];
      SquaringStep(done, s, carry, accumulator as int, (accumulator % 0x1000_0000) as uint32);
      accumulator := accumulator / 0x1000_0000;
    }
    SquaringDone(a[..2 * n], s, accumulator as int);
  }

  /** The columns written so far and what is carried into the next one. */
  ghost predicate Squaring(r: seq<uint32>, s: seq<uint32>, carry: int) {
    && Bigits(r) && Bigits(s) && |s| <= 64
    && V(r) + carry * P(|r|) == Columns(s, |s|, |r|)
    && 0 <= carry <= |s| * BASE
  }

  lemma SquaringStart(r: seq<uint32>, s: seq<uint32>)
    requires r == [] && Bigits(s) && |s| <= 64
    ensures Squaring(r, s, 0)
  {
  }

  lemma SquaringBound(r: seq<uint32>, s: seq<uint32>, carry: int)
    requires Squaring(r, s, carry)
    ensures 0 <= carry <= |s| * BASE && Bigits(s)
  {
  }

  lemma {:induction false} SquaringStep(r: seq<uint32>, s: seq<uint32>, carry: int, sum: int, digit: uint32)
    requires Squaring(r, s, carry) && sum == carry + Column(s, |s|, |r|)
    requires digit as int == sum % BASE
    ensures Squaring(r + [digit], s, sum / BASE)
  {
    hide V, P;
    VPush(r, digit);
    PNext(|r|);
    ColumnBound(s, |r|, |s|);
    DivMod(sum, BASE);
    ColumnCarry(V(r), carry, Column(s, |s|, |r|), P(|r|), sum);
    CarrySmall(|s|, carry, Column(s, |s|, |r|));
  }

  lemma ColumnCarry(v: int, carry: int, column: int, p: int, sum: int)
    requires sum == carry + column
    ensures v + sum % BASE * p + sum / BASE * (BASE * p) == v + carry * p + column * p
  {
    DivMod(sum, BASE);
    Distribute(sum / BASE * BASE, sum % BASE, p);
    MulAssoc(sum / BASE, BASE, p);
    Distribute(carry, column, p);
  }

  lemma CarrySmall(n: nat, carry: int, column: int)
    requires 0 <= carry <= n * BASE && 0 <= column <= n * ((BASE - 1) * (BASE - 1))
    ensures 0 <= (carry + column) / BASE <= n * BASE
  {
    assert n * BASE + n * ((BASE - 1) * (BASE - 1)) <= n * BASE * BASE;
  }

  /** The square of n bigits fits 2n bigits, so nothing is carried out. */
  lemma SquaringDone(r: seq<uint32>, s: seq<uint32>, carry: int)
    requires Squaring(r, s, carry) && |r| == 2 * |s|
    ensures Bigits(r) && V(r) == V(s) * V(s)
  {
    hide V, P;
    ColumnsValue(s, |s|);
    assert s[..|s|] == s;
    VBound(s);
    PowAdd(BASE, |s|, |s|);
    SquareBelow(V(s), P(|s|));
    assert P(2 * |s|) == P(|s|) * P(|s|) by { PSquare(|s|); }
    if carry > 0 {
      MulMono(1, carry, P(2 * |s|));
    }
  }

  lemma PSquare(n: nat)
    ensures P(2 * n) == P(n) * P(n)
  {
    PowAdd(BASE, n, n);
  }

  lemma SquareBelow(v: int, p: int)
    requires 0 <= v < p
    ensures v * v < p * p
  {
    MulMono(v, p, v);
    MulStrictMono(v, p, p);
    assert p * v == v * p;
  }
}
