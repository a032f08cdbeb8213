/** The loops of the bignum operations, on arrays of bigits. */
module BigitArrays {
  import opened Powers
  import opened Words
  import opened BigitSeq

  const CAPACITY := 128

  /** Subtraction on 32-bit words, which wraps around. */
  function Sub32(a: uint32, b: uint32): (r: uint32)
    ensures r as int == if a >= b then a as int - b as int else a as int - b as int + 0x1_0000_0000
  {
    if a >= b then a - b else 0xFFFF_FFFF - (b - 1 - a)
  }

  /** The bigit and the borrow that a wrapped difference carries in its top bit. */
  lemma BorrowStep(a: int, b: int, diff: int)
    requires 0 <= a < BASE && 0 <= b <= BASE
    requires diff == if a >= b then a - b else a - b + 0x1_0000_0000
    ensures diff % BASE - diff / 0x8000_0000 * BASE == a - b
    ensures 0 <= diff / 0x8000_0000 <= 1 && 0 <= diff % BASE < BASE
  {
  }

  /** Moves the first n bigits up by z places and fills in zeros below. */
  method MoveUp(bigits: array<uint32>, n: nat, z: nat)
    requires n + z <= bigits.Length
    modifies bigits
    ensures bigits[..n + z] == Spread(old(bigits[..n]), z, n + z)
  {
    hide Spread, Zeros;
    SpreadUp(bigits[..n], z);
    CopyUp(bigits, n, z);
    ClearBelow(bigits, n, z);
    assert bigits[..n + z] == bigits[..z] + bigits[z..n + z];
  }

  lemma SpreadUp(s: seq<uint32>, z: nat)
    ensures Spread(s, z, |s| + z) == Zeros(z) + s
  {
  }

  method CopyUp(a: array<uint32>, n: nat, z: nat)
    requires n + z <= a.Length
    modifies a
    ensures a[z..n + z] == old(a[..n])
  {
    var i := n - 1;
    while i >= 0
      invariant -1 <= i < n
      invariant forall j :: 0 <= j <= i ==> a[j] == old(a[j])
      invariant forall k :: i + z < k < n + z ==> a[k] == old(a[k - z])
    {
      a[i + z] := a[i];
      i := i - 1;
    }
  }

  method ClearBelow(a: array<uint32>, n: nat, z: nat)
    requires n + z <= a.Length
    modifies a
    ensures a[..z] == Zeros(z) && a[z..n + z] == old(a[z..n + z])
  {
    for i := 0 to z
      invariant forall j :: 0 <= j < i ==> a[j] == 0
      invariant forall k :: z <= k < n + z ==> a[k] == old(a[k])
    {
      a[i] := 0;
    }
  }

  /** One column of a subtraction: va is what has been written, vs - vb what it should be. */
  lemma SubtractStep(va: int, vs: int, vb: int, borrow: int, digit: int, borrow': int, mine: int, theirs: int, p: int)
    requires va - borrow * p == vs - vb
    requires digit - borrow' * BASE == mine - theirs - borrow
    ensures (va + digit * p) - borrow' * (BASE * p) == (vs + mine * p) - (vb + theirs * p)
  {
    calc {
      digit * p - borrow' * (BASE * p);
      { MulAssoc(borrow', BASE, p); Distribute(digit, borrow' * BASE, p); }
      (digit - borrow' * BASE) * p;
      (mine - theirs - borrow) * p;
      { Distribute(mine, theirs, p); Distribute(mine - theirs, borrow, p); }
      mine * p - theirs * p - borrow * p;
    }
  }

  /** The invariant of the subtraction loops: columns below k are done, `borrow` is owed by column k. */
  ghost predicate Owing(a: seq<uint32>, s: seq<uint32>, k: nat, borrow: int, x: int) {
    && k <= |a| == |s| && Bigits(a)
    && a[k..] == s[k..]
    && V(a[..k]) - borrow * P(k) == V(s[..k]) - x
  }

  lemma OwingStep(a: seq<uint32>, s: seq<uint32>, k: nat, borrow: int, x: int, digit: uint32, borrow': int, theirs: int)
    requires Owing(a, s, k, borrow, x) && k < |a| && (digit as int) < BASE
    requires digit as int - borrow' * BASE == s[k] as int - theirs - borrow
    ensures Owing(a[k := digit], s, k + 1, borrow', x + theirs * P(k))
  {
    assert a[k := digit][..k + 1] == a[..k] + [digit];
    assert s[..k + 1] == s[..k] + [s[k]];
    VPush(a[..k], digit);
    VPush(s[..k], s[k]);
    SubtractStep(V(a[..k]), V(s[..k]), x, borrow, digit as int, borrow', s[k] as int, theirs, P(k));
    PNext(k);
  }

  /** A borrow can always be paid when the subtrahend is not too big. */
  lemma OwingSolvent(a: seq<uint32>, s: seq<uint32>, k: nat, borrow: int, x: int)
    requires Owing(a, s, k, borrow, x) && borrow >= 1 && x <= V(s)
    ensures k < |a|
  {
    if k == |a| {
      assert a[..k] == a && s[..k] == s;
      VBound(a);
      MulMono(1, borrow, P(k));
    }
  }

  lemma {:induction false} OwingNothing(a: seq<uint32>, s: seq<uint32>, k: nat, x: int)
    requires Owing(a, s, k, 0, x)
    ensures V(a) == V(s) - x
  {
    VSplit(a, k);
    VSplit(s, k);
  }

  lemma {:induction false} PrefixGrows(b: seq<uint32>, i: nat, factor: int, offset: nat)
    requires i < |b|
    ensures factor * V(b[..i + 1]) * P(offset) == factor * V(b[..i]) * P(offset) + factor * b[i] as int * P(i + offset)
  {
    assert b[..i + 1] == b[..i] + [b[i]];
    VPush(b[..i], b[i]);
    PowAdd(BASE, i, offset);
    Expand(factor, V(b[..i]), b[i] as int, P(i), P(offset));
  }

  lemma Expand(factor: int, v: int, d: int, p: int, q: int)
    ensures factor * (v + d * p) * q == factor * v * q + factor * d * (p * q)
  {
    assert factor * (d * p) == factor * d * p;
    Distribute(v, d * p, factor);
    Distribute(factor * v, factor * d * p, q);
    MulAssoc(factor * d, p, q);
  }

  /** a -= b << offset, for the n bigits of a and the m bigits of b. */
  method SubtractAt(a: array<uint32>, n: nat, b: array<uint32>, m: nat, offset: nat)
    requires a != b && m + offset <= n <= a.Length && m <= b.Length
    requires Bigits(a[..n]) && Bigits(b[..m])
    requires V(b[..m]) * P(offset) <= V(a[..n])
    modifies a
    ensures Bigits(a[..n]) && V(a[..n]) == old(V(a[..n])) - V(b[..m]) * P(offset)
  {
    hide V, P, Owing;
    ghost var s, t := a[..n], b[..m];
    var borrow: uint32 := 0;
    var i := 0;
    OwingStart(s, t, offset, 1);
    while i < m
      invariant 0 <= i <= m && borrow <= 1
      invariant b[..m] == t
      invariant Owing(a[..n], s, i + offset, borrow as int, 1 * V(t[..i]) * P(offset))
    {
      ghost var a0 := a[..n];
      Untouched(a0, s, i + offset, borrow as int, 1 * V(t[..i]) * P(offset));
      assert b[i] == t[i] && a[i + offset] == s[i + offset];
      var difference := Sub32(Sub32(a[i + offset], b[i]), borrow);
      BorrowStep(a[i + offset] as int, b[i] as int + borrow as int, difference as int);
      a[i + offset] := difference % 0x1000_0000;
      assert a[..n] == a0[i + offset := difference % 0x1000_0000];
      OwingStep(a0, s, i + offset, borrow as int, 1 * V(t[..i]) * P(offset), difference % 0x1000_0000,
                (difference / 0x8000_0000) as int, 1 * b[i] as int);
      PrefixGrows(t, i, 1, offset);
      borrow := difference / 0x8000_0000;
      i := i + 1;
    }
    assert t[..m] == t;
    ghost var x := V(t) * P(offset);
    while borrow != 0
      invariant m <= i && i + offset <= n && borrow <= 1
      invariant Owing(a[..n], s, i + offset, borrow as int, x)
      decreases n - i, borrow
    {
      ghost var a0 := a[..n];
      OwingSolvent(a0, s, i + offset, borrow as int, x);
      Untouched(a0, s, i + offset, borrow as int, x);
      var difference := Sub32(a[i + offset], borrow);
      BorrowStep(a[i + offset] as int, borrow as int, difference as int);
      a[i + offset] := difference % 0x1000_0000;
      assert a[..n] == a0[i + offset := difference % 0x1000_0000];
      OwingStep(a0, s, i + offset, borrow as int, x, difference % 0x1000_0000, (difference / 0x8000_0000) as int, 0);
      borrow := difference / 0x8000_0000;
      i := i + 1;
    }
    OwingNothing(a[..n], s, i + offset, x);
    StaysBigits(a[..n], s, i + offset, 0, x);
  }

  /** Bigits of a below its end or below the writing position, and zeros beyond. */
  ghost predicate ZeroExtended(r: seq<uint32>, a: seq<uint32>, used: nat, pos: nat) {
    && |r| <= |a|
    && forall i :: 0 <= i < |r| ==> r[i] == if i < used || i < pos then a[i] else 0
  }

  /** One column of an addition. */
  method AddColumn(my: uint32, theirs: uint32, carry: uint32) returns (digit: uint32, carry': uint32)
    requires (my as int) < BASE && (theirs as int) < BASE && carry <= 1
    ensures (digit as int) < BASE && carry' <= 1
    ensures digit as int + carry' as int * BASE == my as int + theirs as int + carry as int
  {
    var sum := my + theirs + carry;
    digit, carry' := sum % 0x1000_0000, sum / 0x1000_0000;
  }

  /** A carry at position k is part of the sum, so there is room for it. */
  lemma {:induction false} CarryInside(r: seq<uint32>, s: seq<uint32>, k: nat, x: int)
    requires Owing(r, s, k, -1, -x) && Bigits(s) && V(s) + x < P(|r|)
    ensures k < |r| && P(k) <= V(s) + x
  {
    VSplit(s, k);
    VBound(s[..k]);
    MulMono(0, V(s[k..]), P(k));
  }

  /** The columns where both numbers have bigits. */
  method AddDigits(a: array<uint32>, used: nat, b: array<uint32>, m: nat, offset: nat, ghost s: seq<uint32>)
    returns (carry: uint32, pos: nat, ghost r: seq<uint32>)
    requires a != b && offset + m <= |s| <= a.Length && m <= b.Length && Bigits(s) && Bigits(b[..m])
    requires ZeroExtended(s, a[..], used, offset)
    modifies a
    ensures pos == offset + m && carry <= 1 && |r| == |s| && ZeroExtended(r, a[..], used, pos)
    ensures Owing(r, s, pos, -(carry as int), -(V(b[..m]) * P(offset)))
  {
    hide V, P, Owing;
    ghost var t := b[..m];
    NothingAdded(s, t, offset);
    carry, pos, r := 0, offset, s;
    for i := 0 to m
      invariant pos == i + offset && carry <= 1 && b[..m] == t && |r| == |s| && ZeroExtended(r, a[..], used, pos)
      invariant Owing(r, s, pos, -(carry as int), -(V(t[..i]) * P(offset)))
    {
      Untouched(r, s, pos, -(carry as int), -(V(t[..i]) * P(offset)));
      var my := if pos < used then a[pos] else 0;
      var digit, carry' := AddColumn(my, b[i], carry);
      OwingStep(r, s, pos, -(carry as int), -(V(t[..i]) * P(offset)), digit, -(carry' as int), -(b[i] as int));
      PrefixGrowsDown(t, i, offset);
      a[pos] := digit;
      r := r[pos := digit];
      carry, pos := carry', pos + 1;
    }
    assert t[..m] == t;
  }

  /** The columns that only a carry reaches. */
  method AddCarry(a: array<uint32>, used: nat, carry0: uint32, pos0: nat, ghost s: seq<uint32>, ghost r0: seq<uint32>,
                  ghost x: int)
    returns (pos: nat, ghost r: seq<uint32>)
    requires |r0| == |s| <= a.Length && carry0 <= 1 && pos0 <= |s| && Bigits(s) && ZeroExtended(r0, a[..], used, pos0)
    requires Owing(r0, s, pos0, -(carry0 as int), -x) && V(s) + x < P(|s|)
    requires pos0 > used ==> P(pos0 - 1) <= V(s) + x
    modifies a
    ensures pos0 <= pos <= |s| && |r| == |s| && ZeroExtended(r, a[..], used, pos) && Owing(r, s, pos, 0, -x)
    ensures pos > used ==> P(pos - 1) <= V(s) + x
  {
    hide V, P, Owing;
    var carry := carry0;
    pos, r := pos0, r0;
    while carry != 0
      invariant pos0 <= pos <= |s| && carry <= 1 && |r| == |s| && ZeroExtended(r, a[..], used, pos)
      invariant Owing(r, s, pos, -(carry as int), -x)
      invariant pos > used ==> P(pos - 1) <= V(s) + x
      decreases |s| - pos, carry
    {
      CarryInside(r, s, pos, x);
      Untouched(r, s, pos, -(carry as int), -x);
      var my := if pos < used then a[pos] else 0;
      var digit, carry' := AddColumn(my, 0, carry);
      OwingStep(r, s, pos, -(carry as int), -x, digit, -(carry' as int), 0);
      a[pos] := digit;
      r := r[pos := digit];
      carry, pos := carry', pos + 1;
    }
  }

  /** a += b << offset; n is the room for the sum. Returns the number of bigits of the sum. */
  method AddAt(a: array<uint32>, used: nat, ghost n: nat, b: array<uint32>, m: nat, offset: nat) returns (used': nat)
    requires a != b && used <= n <= a.Length && offset + m <= n && m <= b.Length
    requires Bigits(a[..used]) && Bigits(b[..m]) && (m == 0 ==> offset <= used)
    requires V(a[..used]) + V(b[..m]) * P(offset) < P(n)
    requires m > 0 ==> P(m - 1) <= V(b[..m])
    modifies a
    ensures used <= used' <= n && Bigits(a[..used']) && V(a[..used']) == old(V(a[..used])) + V(b[..m]) * P(offset)
    ensures used' > used ==> P(used' - 1) <= V(a[..used'])
  {
    hide V, P, Owing, Zeros;
    ghost var t, s := b[..m], a[..used] + Zeros(n - used);
    ghost var x := V(t) * P(offset);
    ZerosAbove(a[..used], n - used);
    FirstPart(t, offset, used, m, V(s));
    FillGap(a, used, offset);
    var carry, pos;
    ghost var r;
    carry, pos, r := AddDigits(a, used, b, m, offset, s);
    assert b[..m] == t;
    pos, r := AddCarry(a, used, carry, pos, s, r, x);
    used' := if pos > used then pos else used;
    OwingNothing(r, s, pos, -x);
    StaysBigits(r, s, pos, 0, -x);
    assert r[..used'] == a[..used'];
    VDropTop(r, used');
  }

  /** The bigits between the end of the number and the first place to add to become zero. */
  method FillGap(a: array<uint32>, used: nat, offset: nat)
    requires used <= a.Length && offset <= a.Length
    modifies a
    ensures forall i :: 0 <= i < a.Length ==> a[i] == if used <= i < offset then 0 else old(a[i])
  {
    var i := used;
    while i < offset
      invariant used <= i && (i <= offset || i == used)
      invariant forall k :: 0 <= k < a.Length ==> a[k] == if used <= k < i then 0 else old(a[k])
    {
      a[i] := 0;
      i := i + 1;
    }
  }

  lemma ZerosAbove(s: seq<uint32>, k: nat)
    requires Bigits(s)
    ensures Bigits(s + Zeros(k)) && V(s + Zeros(k)) == V(s)
  {
    assert (s + Zeros(k))[..|s|] == s;
    VDropTop(s + Zeros(k), |s|);
  }

  lemma {:induction false} PrefixGrowsDown(b: seq<uint32>, i: nat, offset: nat)
    requires i < |b|
    ensures -(V(b[..i + 1]) * P(offset)) == -(V(b[..i]) * P(offset)) + -(b[i] as int) * P(i + offset)
  {
    hide V, P;
    PrefixGrows(b, i, 1, offset);
    assert -(b[i] as int) * P(i + offset) == -(b[i] as int * P(i + offset));
  }

  lemma NothingAdded(s: seq<uint32>, t: seq<uint32>, offset: nat)
    requires Bigits(s) && offset <= |s|
    ensures Owing(s, s, offset, 0, -(V(t[..0]) * P(offset)))
  {
    assert V(t[..0]) == 0;
  }

  /** The top bigit of the second number keeps the sum as long as its own place. */
  lemma {:induction false} FirstPart(t: seq<uint32>, offset: nat, used: nat, m: nat, v: int)
    requires |t| == m && (m == 0 ==> offset <= used) && (m > 0 ==> P(m - 1) <= V(t)) && v >= 0
    ensures offset + m > used ==> P(offset + m - 1) <= v + V(t) * P(offset)
  {
    if m > 0 {
      PowAdd(BASE, m - 1, offset);
      MulMono(P(m - 1), V(t), P(offset));
    }
  }

  lemma OwingStart(s: seq<uint32>, t: seq<uint32>, offset: nat, factor: int)
    requires Bigits(s) && offset <= |s|
    ensures Owing(s, s, offset, 0, factor * V(t[..0]) * P(offset))
  {
    assert V(t[..0]) == 0;
  }

  lemma Untouched(a: seq<uint32>, s: seq<uint32>, k: nat, borrow: int, x: int)
    requires Owing(a, s, k, borrow, x) && k < |a|
    ensures |a| == |s| && a[k] == s[k] && (a[k] as int) < BASE
  {
    assert a[k] == a[k..][0] == s[k..][0];
  }

  lemma StaysBigits(a: seq<uint32>, s: seq<uint32>, k: nat, borrow: int, x: int)
    requires Owing(a, s, k, borrow, x)
    ensures Bigits(a) && |a| == |s| && k <= |a| && a[k..] == s[k..]
  {
  }

  lemma {:induction false} TimesColumn(borrow: int, factor: int, digit: int)
    requires 0 <= borrow <= factor < BASE && 0 <= digit < BASE
    ensures 0 <= borrow + factor * digit <= factor * BASE
  {
    MulMono(0, digit, factor);
    MulMono(digit, BASE - 1, factor);
    assert factor * digit == digit * factor;
  }

  /** The borrow of one column of a multiple subtraction, and why it stays at most the factor. */
  lemma TimesBorrowStep(mine: int, remove: int, factor: int, diff: int)
    requires 0 <= mine < BASE && 0 <= remove <= factor * BASE && 0 <= factor < BASE
    requires diff == if mine >= remove % BASE then mine - remove % BASE else mine - remove % BASE + 0x1_0000_0000
    ensures diff % BASE - (diff / 0x8000_0000 + remove / BASE) * BASE == mine - remove
    ensures 0 <= diff / 0x8000_0000 + remove / BASE <= factor && 0 <= diff % BASE < BASE
  {
    BorrowStep(mine, remove % BASE, diff);
  }

  /** a -= factor * b << offset. Reports whether the loop over a's high bigits ran to its end. */
  method SubtractTimesAt(a: array<uint32>, n: nat, b: array<uint32>, m: nat, offset: nat, factor: uint32)
    returns (toTheEnd: bool)
    requires a != b && m + offset <= n <= a.Length && m <= b.Length
    requires Bigits(a[..n]) && Bigits(b[..m]) && (factor as int) < BASE
    requires factor as int * V(b[..m]) * P(offset) <= V(a[..n])
    modifies a
    ensures Bigits(a[..n]) && V(a[..n]) == old(V(a[..n])) - factor as int * V(b[..m]) * P(offset)
    ensures !toTheEnd ==> n > 0 && a[n - 1] == old(a[n - 1])
  {
    hide V, P, Owing;
    ghost var s := a[..n];
    var borrow := SubtractProduct(a, n, b, m, offset, factor);
    ghost var x := factor as int * V(b[..m]) * P(offset);
    var i := m + offset;
    while i < n
      invariant m + offset <= i <= n && (borrow as int) < BASE
      invariant Owing(a[..n], s, i, borrow as int, x)
    {
      if borrow == 0 {
        OwingNothing(a[..n], s, i, x);
        StaysBigits(a[..n], s, i, 0, x);
        assert a[n - 1] == a[..n][i..][n - 1 - i] == s[i..][n - 1 - i];
        return false;
      }
      ghost var a0 := a[..n];
      Untouched(a0, s, i, borrow as int, x);
      var difference := Sub32(a[i], borrow);
      BorrowStep(a[i] as int, borrow as int, difference as int);
      a[i] := difference % 0x1000_0000;
      assert a[..n] == a0[i := difference % 0x1000_0000];
      OwingStep(a0, s, i, borrow as int, x, difference % 0x1000_0000, (difference / 0x8000_0000) as int, 0);
      borrow := difference / 0x8000_0000;
      i := i + 1;
    }
    if borrow > 0 {
      OwingSolvent(a[..n], s, n, borrow as int, x);
    }
    OwingNothing(a[..n], s, n, x);
    StaysBigits(a[..n], s, n, 0, x);
    return true;
  }

  /** The product loop of SubtractTimes; the borrow it leaves never exceeds the factor. */
  method SubtractProduct(a: array<uint32>, n: nat, b: array<uint32>, m: nat, offset: nat, factor: uint32)
    returns (borrow: uint32)
    requires a != b && m + offset <= n <= a.Length && m <= b.Length
    requires Bigits(a[..n]) && Bigits(b[..m]) && (factor as int) < BASE
    modifies a
    ensures Owing(a[..n], old(a[..n]), m + offset, borrow as int, factor as int * V(b[..m]) * P(offset))
    ensures borrow <= factor
  {
    hide V, P, Owing;
    ghost var s, t, f := a[..n], b[..m], factor as int;
    borrow := 0;
    OwingStart(s, t, offset, f);
    for i := 0 to m
      invariant borrow <= factor
      invariant b[..m] == t
      invariant Owing(a[..n], s, i + offset, borrow as int, f * V(t[..i]) * P(offset))
    {
      ghost var a0 := a[..n];
      Untouched(a0, s, i + offset, borrow as int, f * V(t[..i]) * P(offset));
      assert b[i] == t[i] && a[i + offset] == s[i + offset];
      TimesColumn(borrow as int, f, b[i] as int);
      var product := factor as uint64 * b[i] as uint64;
      var remove := borrow as uint64 + product;
      var difference := Sub32(a[i + offset], (remove % 0x1000_0000) as uint32);
      TimesBorrowStep(a[i + offset] as int, remove as int, f, difference as int);
      a[i + offset] := difference % 0x1000_0000;
      assert a[..n] == a0[i + offset := difference % 0x1000_0000];
      borrow := difference / 0x8000_0000 + (remove / 0x1000_0000) as uint32;
      OwingStep(a0, s, i + offset, remove as int - f * b[i] as int, f * V(t[..i]) * P(offset),
                difference % 0x1000_0000, borrow as int, f * b[i] as int);
      PrefixGrows(t, i, f, offset);
    }
    assert t[..m] == t;
  }

  /** The invariant of the multiplication loops: k columns are done and `carry` goes into column k. */
  ghost predicate Carrying(a: seq<uint32>, s: seq<uint32>, k: nat, carry: int, f: int) {
    && k <= |a| == |s| && Bigits(a)
    && a[k..] == s[k..]
    && V(a[..k]) + carry * P(k) == f * V(s[..k])
  }

  lemma CarryingStart(s: seq<uint32>, f: int)
    requires Bigits(s)
    ensures Carrying(s, s, 0, 0, f)
  {
    assert V(s[..0]) == 0;
  }

  lemma {:induction false} CarryingStep(a: seq<uint32>, s: seq<uint32>, k: nat, carry: int, f: int, digit: uint32,
                                        carry': int)
    requires Carrying(a, s, k, carry, f) && k < |a| && (digit as int) < BASE
    requires digit as int + carry' * BASE == carry + f * s[k] as int
    ensures Carrying(a[k := digit], s, k + 1, carry', f)
  {
    assert a[k := digit][..k + 1] == a[..k] + [digit];
    assert s[..k + 1] == s[..k] + [s[k]];
    VPush(a[..k], digit);
    VPush(s[..k], s[k]);
    PNext(k);
    CarryColumn(V(a[..k]), V(s[..k]), carry, f, digit as int, carry', s[k] as int, P(k));
  }

  lemma CarryColumn(va: int, vs: int, carry: int, f: int, digit: int, carry': int, mine: int, p: int)
    requires va + carry * p == f * vs
    requires digit + carry' * BASE == carry + f * mine
    ensures va + digit * p + carry' * (BASE * p) == f * (vs + mine * p)
  {
    calc {
      digit * p + carry' * (BASE * p);
      { MulAssoc(carry', BASE, p); Distribute(digit, carry' * BASE, p); }
      (digit + carry' * BASE) * p;
      (carry + f * mine) * p;
      { Distribute(carry, f * mine, p); MulAssoc(f, mine, p); }
      carry * p + f * (mine * p);
    }
    assert f * (vs + mine * p) == f * vs + f * (mine * p);
  }

  lemma {:induction false} CarryingDone(a: seq<uint32>, s: seq<uint32>, carry: int, f: int)
    requires Carrying(a, s, |a|, carry, f)
    ensures Bigits(a) && V(a) + carry * P(|a|) == f * V(s)
  {
    assert a[..|a|] == a && s[..|s|] == s;
  }

  lemma CarryingUntouched(a: seq<uint32>, s: seq<uint32>, k: nat, carry: int, f: int)
    requires Carrying(a, s, k, carry, f) && k < |a|
    ensures |a| == |s| && a[k] == s[k] && (s[k] as int) < BASE
  {
    assert a[k] == a[k..][0] == s[k..][0];
  }

  /** carry' = (carry + f*digit) / BASE never exceeds the factor if carry does not. */
  lemma {:induction false} CarryBound(carry: int, f: int, digit: int)
    requires 0 <= carry <= f && 0 <= digit < BASE
    ensures 0 <= carry + f * digit <= f * BASE
    ensures 0 <= (carry + f * digit) / BASE <= f
  {
    MulMono(digit, BASE - 1, f);
    MulMono(0, digit, f);
    assert digit * f == f * digit;
  }

  /** One bigit times the factor, plus the carry: no word overflows. */
  method Column32(x: uint32, factor: uint32, carry: uint64) returns (bigit: uint32, next: uint64)
    requires (x as int) < BASE && carry as int <= factor as int
    ensures bigit as int + next as int * BASE == carry as int + factor as int * x as int
    ensures (bigit as int) < BASE && next as int <= factor as int
  {
    CarryBound(carry as int, factor as int, x as int);
    var product := factor as uint64 * x as uint64 + carry;
    bigit, next := (product % 0x1000_0000) as uint32, product / 0x1000_0000;
  }

  /** The same with a 64-bit factor given by its two halves as well. */
  method Column64(x: uint32, factor: uint64, low: uint64, high: uint64, carry: uint64)
    returns (bigit: uint32, next: uint64)
    requires (x as int) < BASE && carry <= factor
    requires low == factor % 0x1_0000_0000 && high == factor / 0x1_0000_0000
    ensures bigit as int + next as int * BASE == carry as int + factor as int * x as int
    ensures (bigit as int) < BASE && next <= factor
  {
    HalvesFit(carry as int, factor as int, x as int);
    var productLow := low * x as uint64;
    var productHigh := high * x as uint64;
    var tmp := carry % 0x1000_0000 + productLow;
    bigit := (tmp % 0x1000_0000) as uint32;
    next := carry / 0x1000_0000 + tmp / 0x1000_0000 + productHigh * 16;
  }

  method Times32(a: array<uint32>, n: nat, factor: uint32) returns (carry: uint64)
    requires n <= a.Length && Bigits(a[..n])
    modifies a
    ensures Bigits(a[..n]) && V(a[..n]) + carry as int * P(n) == factor as int * old(V(a[..n]))
  {
    hide V, P, Carrying;
    ghost var s, f := a[..n], factor as int;
    carry := 0;
    CarryingStart(s, f);
    for i := 0 to n
      invariant carry as int <= f
      invariant Carrying(a[..n], s, i, carry as int, f)
    {
      ghost var a0 := a[..n];
      CarryingUntouched(a0, s, i, carry as int, f);
      var bigit, next := Column32(a[i], factor, carry);
      a[i] := bigit;
      assert a[..n] == a0[i := bigit];
      CarryingStep(a0, s, i, carry as int, f, bigit, next as int);
      carry := next;
    }
    CarryingDone(a[..n], s, carry as int, f);
  }

  /** The same with a 64-bit factor: the product is assembled from the factor's two halves. */
  method Times64(a: array<uint32>, n: nat, factor: uint64) returns (carry: uint64)
    requires n <= a.Length && Bigits(a[..n])
    modifies a
    ensures Bigits(a[..n]) && V(a[..n]) + carry as int * P(n) == factor as int * old(V(a[..n]))
  {
    hide V, P, Carrying;
    ghost var s, f := a[..n], factor as int;
    carry := 0;
    var low, high := factor % 0x1_0000_0000, factor / 0x1_0000_0000;
    CarryingStart(s, f);
    for i := 0 to n
      invariant carry <= factor
      invariant Carrying(a[..n], s, i, carry as int, f)
    {
      ghost var a0 := a[..n];
      CarryingUntouched(a0, s, i, carry as int, f);
      var bigit, next := Column64(a[i], factor, low, high, carry);
      a[i] := bigit;
      assert a[..n] == a0[i := bigit];
      CarryingStep(a0, s, i, carry as int, f, bigit, next as int);
      carry := next;
    }
    CarryingDone(a[..n], s, carry as int, f);
  }

  /** No intermediate value of the split product exceeds a 64-bit word; the carry stays at most the factor. */
  lemma {:induction false} HalvesFit(carry: int, f: int, digit: int)
    requires 0 <= carry <= f < 0x1_0000_0000_0000_0000 && 0 <= digit < BASE
    ensures var low, high := f % 0x1_0000_0000 * digit, f / 0x1_0000_0000 * digit;
            var tmp := carry % BASE + low;
            && 0 <= low < 0x1000_0000_0000_0000 && 0 <= high < 0x1000_0000_0000_0000
            && tmp % BASE + (carry / BASE + tmp / BASE + high * 16) * BASE == carry + f * digit
            && 0 <= carry / BASE + tmp / BASE + high * 16 <= f
  {
    var fl, fh := f % 0x1_0000_0000, f / 0x1_0000_0000;
    WordTimesBigit(fl, digit);
    WordTimesBigit(fh, digit);
    CarryBound(carry, f, digit);
    assert f * digit == fh * digit * 0x1_0000_0000 + fl * digit;
  }

  lemma WordTimesBigit(w: int, digit: int)
    requires 0 <= w < 0x1_0000_0000 && 0 <= digit < BASE
    ensures 0 <= w * digit < 0x1000_0000_0000_0000
  {
    MulMono(0, w, digit);
    MulMono(w, 0xFFFF_FFFF, digit);
  }

  method ShiftBigits(a: array<uint32>, n: nat, shift: nat) returns (carry: uint32)
    requires n <= a.Length && Bigits(a[..n]) && shift < BIGIT_SIZE
    modifies a
    ensures Bigits(a[..n]) && V(a[..n]) + carry as int * P(n) == Pow(2, shift) * old(V(a[..n]))
    ensures (carry as int) < BASE
  {
    hide V, P, Pow, Carrying;
    ghost var s, f := a[..n], Pow(2, shift);
    carry := 0;
    ShiftFactors(shift);
    var up, down := Bit(shift), Bit(BIGIT_SIZE - shift);
    CarryingStart(s, f);
    for i := 0 to n
      invariant (carry as int) < f
      invariant Carrying(a[..n], s, i, carry as int, f)
    {
      ghost var a0 := a[..n];
      CarryingUntouched(a0, s, i, carry as int, f);
      ShiftColumn(a[i] as int, up as int, down as int, carry as int);
      var newCarry := (a[i] as uint64 / down) as uint32;
      // The shift drops everything beyond 32 bits; the mask would drop it anyway.
      var shifted := a[i] as uint64 * up % 0x1_0000_0000;
      var digit := ((shifted + carry as uint64) % 0x1000_0000) as uint32;
      a[i] := digit;
      assert a[..n] == a0[i := digit];
      CarryingStep(a0, s, i, carry as int, f, digit, newCarry as int);
      carry := newCarry;
    }
    CarryingDone(a[..n], s, carry as int, f);
  }

  lemma ShiftFactors(shift: nat)
    requires shift < BIGIT_SIZE
    ensures Pow(2, shift) * Pow(2, BIGIT_SIZE - shift) == BASE
    ensures 1 <= Pow(2, shift) <= BASE && 1 <= Pow(2, BIGIT_SIZE - shift) <= BASE
  {
    PowAdd(2, shift, BIGIT_SIZE - shift);
    BaseIsPow2();
    PowMono(2, shift, BIGIT_SIZE);
    PowMono(2, BIGIT_SIZE - shift, BIGIT_SIZE);
  }

  lemma {:induction false} ShiftColumn(x: int, up: int, down: int, carry: int)
    requires 0 <= x < BASE && 1 <= up <= BASE && 1 <= down <= BASE && up * down == BASE && 0 <= carry < up
    ensures 0 <= x * up < 0x1_0000_0000_0000_0000 && 0 <= x / down < up
    ensures (x * up % 0x1_0000_0000 + carry) % BASE + x / down * BASE == carry + up * x
  {
    DivMod(x, down);
    var hi, lo := x / down, x % down;
    DivBounds(x, down, 0, up);
    ShiftSplit(hi, lo, up, down, carry);
    assert x * up == hi * BASE + lo * up;
    LowBits(hi, lo * up, carry);
  }

  lemma ShiftSplit(hi: int, lo: int, up: int, down: int, carry: int)
    requires 0 <= lo < down && 0 <= hi < up <= BASE && up * down == BASE && 0 <= carry < up
    ensures (hi * down + lo) * up == hi * BASE + lo * up
    ensures 0 <= lo * up && lo * up + carry < BASE
    ensures hi * BASE <= (BASE - 1) * BASE
  {
    Distribute(hi * down, lo, up);
    MulAssoc(hi, down, up);
    assert down * up == up * down;
    MulMono(lo + 1, down, up);
    Distribute(lo, 1, up);
    MulMono(0, lo, up);
  }

  lemma LowBits(hi: int, low: int, carry: int)
    requires 0 <= hi < BASE && 0 <= low && 0 <= carry && low + carry < BASE
    ensures ((hi * BASE + low) % 0x1_0000_0000 + carry) % BASE == low + carry
    ensures 0 <= hi * BASE + low < 0x1_0000_0000_0000_0000
  {
    var t := (hi * BASE + low) % 0x1_0000_0000;
    assert t == hi % 16 * BASE + low;
  }
}
