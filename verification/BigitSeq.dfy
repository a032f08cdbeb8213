/** Numbers as sequences of 28-bit digits ("bigits"), least significant first. */
module BigitSeq {
  import opened Powers
  import opened Words

  const BIGIT_SIZE := 28
  const BASE: int := 0x1000_0000

  /** BASE^n. */
  ghost function P(n: nat): (r: nat)
    ensures r > 0
  {
    Pow(BASE, n)
  }

  ghost predicate Bigits(s: seq<uint32>) {
    forall i :: 0 <= i < |s| ==> (s[i] as int) < BASE
  }

  /** The number a bigit sequence stands for. */
  ghost function V(s: seq<uint32>): nat {
    if |s| == 0 then 0 else V(s[..|s| - 1]) + s[|s| - 1] as int * P(|s| - 1)
  }

  lemma PNext(n: nat)
    ensures P(n + 1) == BASE * P(n)
  {
  }

  lemma PMono(m: nat, n: nat)
    requires m <= n
    ensures P(m) <= P(n)
  {
    PowMono(BASE, m, n);
  }

  lemma VPush(s: seq<uint32>, d: uint32)
    ensures V(s + [d]) == V(s) + d as int * P(|s|)
  {
    assert (s + [d])[..|s|] == s;
  }

  lemma {:induction false} VBound(s: seq<uint32>)
    requires Bigits(s)
    ensures V(s) < P(|s|)
  {
    if |s| > 0 {
      var n := |s| - 1;
      VBound(s[..n]);
      PNext(n);
      MulMono(s[n] as int, BASE - 1, P(n));
      Distribute(BASE, 1, P(n));
    }
  }

  /** Cutting the sequence at i separates the low digits from the high ones. */
  lemma {:induction false} VSplit(s: seq<uint32>, i: nat)
    requires i <= |s|
    ensures V(s) == V(s[..i]) + V(s[i..]) * P(i)
    decreases |s|
  {
    if i == |s| {
      assert s[..i] == s;
    } else {
      var n := |s| - 1;
      VSplit(s[..n], i);
      assert s[..n][..i] == s[..i];
      assert s[i..] == s[..n][i..] + [s[n]];
      VPush(s[..n][i..], s[n]);
      PowAdd(BASE, n - i, i);
      Distribute(V(s[..n][i..]), s[n] as int * P(n - i), P(i));
      MulAssoc(s[n] as int, P(n - i), P(i));
    }
  }

  /** Only the top bigit decides whether the number reaches P(|s|-1). */
  lemma {:induction false} VTop(s: seq<uint32>)
    requires Bigits(s) && |s| > 0
    ensures s[|s| - 1] != 0 <==> V(s) >= P(|s| - 1)
    ensures s[|s| - 1] as int * P(|s| - 1) <= V(s) < (s[|s| - 1] as int + 1) * P(|s| - 1)
  {
    var n := |s| - 1;
    VBound(s[..n]);
    Distribute(s[n] as int, 1, P(n));
    if s[n] != 0 {
      MulMono(1, s[n] as int, P(n));
    }
  }

  ghost function Zeros(n: nat): (z: seq<uint32>)
    ensures |z| == n && forall i :: 0 <= i < n ==> z[i] == 0
  {
    seq(n, _ => 0)
  }

  lemma {:induction false} VZeros(s: seq<uint32>)
    requires forall i :: 0 <= i < |s| ==> s[i] == 0
    ensures V(s) == 0
  {
    if |s| > 0 {
      VZeros(s[..|s| - 1]);
    }
  }

  /** s shifted up by e bigits inside a frame of n bigits. */
  ghost function Spread(s: seq<uint32>, e: nat, n: nat): (r: seq<uint32>)
    requires e + |s| <= n
    ensures |r| == n
    ensures forall i :: 0 <= i < n ==> r[i] == if e <= i < e + |s| then s[i - e] else 0
    ensures Bigits(s) ==> Bigits(r)
  {
    Zeros(e) + s + Zeros(n - e - |s|)
  }

  /** Dropping zero bigits at the top changes nothing. */
  lemma VDropTop(s: seq<uint32>, n: nat)
    requires n <= |s| && forall i :: n <= i < |s| ==> s[i] == 0
    ensures V(s) == V(s[..n])
  {
    VSplit(s, n);
    VZeros(s[n..]);
  }

  lemma {:induction false} VSpread(s: seq<uint32>, e: nat, n: nat)
    requires e + |s| <= n
    ensures V(Spread(s, e, n)) == V(s) * P(e)
  {
    hide V, P;
    var low, high := Zeros(e), s + Zeros(n - e - |s|);
    var r := Spread(s, e, n);
    assert r == low + high;
    assert r[..e] == low && r[e..] == high && high[..|s|] == s;
    VZeros(low);
    VDropTop(high, |s|);
    VSplit(r, e);
  }

  /** A number with a nonzero top bigit is at least the power of its length minus one, and below the next power. */
  lemma {:induction false} LengthBounds(s: seq<uint32>, e: nat)
    requires Bigits(s)
    ensures V(s) * P(e) < P(|s| + e)
    ensures |s| > 0 && s[|s| - 1] != 0 ==> P(|s| - 1 + e) <= V(s) * P(e)
  {
    VBound(s);
    PowAdd(BASE, |s|, e);
    MulStrictMono(V(s), P(|s|), P(e));
    if |s| > 0 && s[|s| - 1] != 0 {
      VTop(s);
      PowAdd(BASE, |s| - 1, e);
      MulMono(P(|s| - 1), V(s), P(e));
    }
  }

  /** Lengths follow values. */
  lemma {:induction false} LengthMono(s: seq<uint32>, e: nat, t: seq<uint32>, d: nat)
    requires Bigits(s) && Bigits(t) && |s| > 0 && s[|s| - 1] != 0
    requires V(s) * P(e) <= V(t) * P(d)
    ensures |s| + e <= |t| + d
  {
    LengthBounds(s, e);
    LengthBounds(t, d);
    PowLtInv(BASE, |s| - 1 + e, |t| + d);
  }

  /** Reading from the top: one more bigit below multiplies what is above by BASE. */
  lemma VFrom(s: seq<uint32>, i: nat)
    requires i < |s|
    ensures V(s[i..]) == s[i] as int + BASE * V(s[i + 1..])
  {
    VSplit(s[i..], 1);
    assert s[i..][1..] == s[i + 1..];
    assert s[i..][..1] == [] + [s[i]];
    VPush([], s[i]);
    assert P(1) == BASE * P(0) == BASE;
  }

  /** What is above position i determines the number up to less than BASE^i. */
  lemma VHigh(s: seq<uint32>, i: nat)
    requires Bigits(s) && i <= |s|
    ensures V(s[i..]) * P(i) <= V(s) < V(s[i..]) * P(i) + P(i)
    ensures (forall k :: 0 <= k < i ==> s[k] == 0) ==> V(s) == V(s[i..]) * P(i)
  {
    VSplit(s, i);
    VBound(s[..i]);
    if forall k :: 0 <= k < i ==> s[k] == 0 {
      VZeros(s[..i]);
    }
  }

  /** If the parts above position i compare strictly, so do the numbers. */
  lemma {:induction false} VHighLess(s: seq<uint32>, t: seq<uint32>, i: nat)
    requires Bigits(s) && Bigits(t) && i <= |s| && i <= |t| && V(s[i..]) < V(t[i..])
    ensures V(s) < V(t)
  {
    VHigh(s, i);
    VHigh(t, i);
    MulMono(V(s[i..]) + 1, V(t[i..]), P(i));
    Distribute(V(s[i..]), 1, P(i));
  }

  /** The top bigit gives the number to within one unit of its place. */
  lemma {:induction false} TopBounds(s: seq<uint32>, e: nat)
    requires Bigits(s) && |s| > 0
    ensures s[|s| - 1] as int * P(|s| - 1 + e) <= V(s) * P(e) < (s[|s| - 1] as int + 1) * P(|s| - 1 + e)
    ensures |s| == 1 ==> V(s) * P(e) == s[0] as int * P(e)
  {
    var n, d := |s| - 1, s[|s| - 1] as int;
    VTop(s);
    PowAdd(BASE, n, e);
    MulMono(d * P(n), V(s), P(e));
    MulStrictMono(V(s), (d + 1) * P(n), P(e));
    MulAssoc(d, P(n), P(e));
    MulAssoc(d + 1, P(n), P(e));
  }

  /** Bigit positions are 28 binary positions apart. */
  lemma {:induction false} PIsPow2(n: nat)
    ensures P(n) == Pow(2, BIGIT_SIZE * n)
  {
    if n > 0 {
      PIsPow2(n - 1);
      PowAdd(2, BIGIT_SIZE, BIGIT_SIZE * (n - 1));
      BaseIsPow2();
    }
  }

  lemma BaseIsPow2()
    ensures Pow(2, BIGIT_SIZE) == BASE
  {
    Pow2Table();
    PowAdd(2, 8, 16);
    PowAdd(2, 4, 24);
  }
}
