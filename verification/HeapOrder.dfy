/** The order part of the binary min heap: keys in level order, index 0 at the root. */
module HeapOrder {

  /** The pair timers are compared by. */
  datatype Key = Key(timeout: nat, startId: nat)

  predicate Before(a: Key, b: Key) {
    a.timeout < b.timeout || (a.timeout == b.timeout && a.startId < b.startId)
  }

  function Parent(i: int): int { (i - 1) / 2 }

  /** Position i is not before its parent. */
  ghost predicate InOrder(k: seq<Key>, i: int)
    requires 0 < i < |k|
  {
    0 <= Parent(i) < i && !Before(k[i], k[Parent(i)])
  }

  ghost predicate HeapOrdered(k: seq<Key>) {
    forall i :: 0 < i < |k| ==> InOrder(k, i)
  }

  /** Only position p may be before its parent; p's children are not before p's parent. */
  ghost predicate OrderedButUp(k: seq<Key>, p: int) {
    && (forall i :: 0 < i < |k| && i != p ==> InOrder(k, i))
    && (forall i :: 0 < i < |k| && Parent(i) == p && p > 0 ==> 0 <= Parent(p) < |k| && !Before(k[i], k[Parent(p)]))
  }

  /** Position p may be out of order with its parent and with its children. */
  ghost predicate OrderedBut(k: seq<Key>, p: int) {
    && (forall i :: 0 < i < |k| && i != p && Parent(i) != p ==> InOrder(k, i))
    && (forall i :: 0 < i < |k| && Parent(i) == p && p > 0 ==> 0 <= Parent(p) < |k| && !Before(k[i], k[Parent(p)]))
  }

  function Swapped<T>(s: seq<T>, i: int, j: int): (r: seq<T>)
    requires 0 <= i < |s| && 0 <= j < |s|
    ensures |r| == |s|
  {
    s[i := s[j]][j := s[i]]
  }

  lemma AppendKey(k: seq<Key>, x: Key)
    requires HeapOrdered(k)
    ensures OrderedButUp(k + [x], |k|)
  {
    forall i | 0 < i < |k|
      ensures InOrder(k + [x], i)
    {
      assert InOrder(k, i);
    }
  }

  /** Swapping a key with its larger parent moves the disorder up. */
  lemma SwapUp(k: seq<Key>, p: int)
    requires 0 < p < |k| && OrderedButUp(k, p) && Before(k[p], k[Parent(p)])
    ensures OrderedButUp(Swapped(k, Parent(p), p), Parent(p))
  {
    var q, r := Parent(p), Swapped(k, Parent(p), p);
    forall i | 0 < i < |r| && i != q
      ensures InOrder(r, i)
    {
      if i != p {
        assert InOrder(k, i);
      }
    }
    forall i | 0 < i < |r| && Parent(i) == q && q > 0
      ensures !Before(r[i], r[Parent(q)])
    {
      assert InOrder(k, q);
      if i != p {
        assert InOrder(k, i);
      }
    }
  }

  lemma UpDone(k: seq<Key>, p: int)
    requires OrderedButUp(k, p) && (0 < p < |k| ==> InOrder(k, p))
    ensures HeapOrdered(k)
  {
  }

  /** Replacing the key at p by the last key disturbs only p. */
  lemma ReplaceKey(k: seq<Key>, p: int)
    requires HeapOrdered(k) && 0 <= p < |k| - 1
    ensures OrderedBut(k[..|k| - 1][p := k[|k| - 1]], p)
  {
    var r := k[..|k| - 1][p := k[|k| - 1]];
    forall i | 0 < i < |r| && i != p && Parent(i) != p
      ensures InOrder(r, i)
    {
      assert InOrder(k, i);
    }
    forall i | 0 < i < |r| && Parent(i) == p && p > 0
      ensures 0 <= Parent(p) < |r| && !Before(r[i], r[Parent(p)])
    {
      assert InOrder(k, i) && InOrder(k, p);
    }
  }

  lemma DropLastKey(k: seq<Key>)
    requires HeapOrdered(k) && |k| > 0
    ensures HeapOrdered(k[..|k| - 1])
  {
    var r := k[..|k| - 1];
    forall i | 0 < i < |r|
      ensures InOrder(r, i)
    {
      assert InOrder(k, i);
    }
  }

  /** Swapping a key with its smallest child, which is before it, moves the disorder down. */
  lemma SwapDown(k: seq<Key>, p: int, c: int)
    requires 0 <= p < |k| && 0 < c < |k| && Parent(c) == p && OrderedBut(k, p)
    requires Before(k[c], k[p])
    requires forall i :: 0 < i < |k| && Parent(i) == p ==> !Before(k[i], k[c])
    ensures OrderedBut(Swapped(k, p, c), c)
  {
    var r := Swapped(k, p, c);
    forall i | 0 < i < |r| && i != c && Parent(i) != c
      ensures InOrder(r, i)
    {
      if i != p && Parent(i) != p {
        assert InOrder(k, i);
      }
    }
    forall i | 0 < i < |r| && Parent(i) == c && c > 0
      ensures 0 <= Parent(c) < |r| && !Before(r[i], r[Parent(c)])
    {
      assert InOrder(k, i);
    }
  }

  lemma DownDone(k: seq<Key>, p: int)
    requires OrderedBut(k, p)
    requires forall i :: 0 < i < |k| && Parent(i) == p ==> !Before(k[i], k[p])
    ensures OrderedButUp(k, p)
  {
    forall i | 0 < i < |k| && i != p
      ensures InOrder(k, i)
    {
    }
  }

  /** The root is before or equal to everything else. */
  lemma {:induction false} RootIsMin(k: seq<Key>, i: int)
    requires HeapOrdered(k) && 0 <= i < |k|
    ensures !Before(k[i], k[0])
    decreases i
  {
    if i > 0 {
      assert InOrder(k, i);
      RootIsMin(k, Parent(i));
    }
  }
}
