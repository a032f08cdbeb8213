/** libuv's binary min heap of linked nodes: node number n sits at the path given by n's bits. */
module PointerHeap {
  import opened Powers
  import opened HeapOrder

  class Node {
    var left: Node?
    var right: Node?
    var parent: Node?
    var timeout: nat
    var startId: nat
    const owner: nat    // the timer that the node is part of
    ghost var pos: nat  // position in level order while in a heap

    constructor (owner: nat, timeout: nat, startId: nat)
      ensures this.owner == owner && this.timeout == timeout && this.startId == startId
    {
      this.owner, this.timeout, this.startId := owner, timeout, startId;
      left, right, parent := null, null, null;
    }

    function NodeKey(): Key
      reads this`timeout, this`startId
    {
      Key(timeout, startId)
    }
  }

  function LessThan(a: Node, b: Node): bool
    reads a`timeout, a`startId, b`timeout, b`startId
  {
    Before(a.NodeKey(), b.NodeKey())
  }

  // ---------- the links of a row of nodes, one sequence per field ----------

  ghost function Lefts(s: seq<Node>): (r: seq<Node?>)
    reads s`left
    ensures |r| == |s|
  {
    if s == [] then [] else Lefts(s[..|s| - 1]) + [s[|s| - 1].left]
  }

  lemma {:induction false} LeftsAt(s: seq<Node>, i: nat)
    requires i < |s|
    ensures Lefts(s)[i] == s[i].left
    decreases |s|
  {
    if i < |s| - 1 {
      LeftsAt(s[..|s| - 1], i);
    }
  }

  lemma {:induction false} LeftsAll(s: seq<Node>)
    ensures forall i :: 0 <= i < |s| ==> Lefts(s)[i] == s[i].left
  {
    forall i | 0 <= i < |s|
      ensures Lefts(s)[i] == s[i].left
    {
      LeftsAt(s, i);
    }
  }

  ghost function Rights(s: seq<Node>): (r: seq<Node?>)
    reads s`right
    ensures |r| == |s|
  {
    if s == [] then [] else Rights(s[..|s| - 1]) + [s[|s| - 1].right]
  }

  lemma {:induction false} RightsAt(s: seq<Node>, i: nat)
    requires i < |s|
    ensures Rights(s)[i] == s[i].right
    decreases |s|
  {
    if i < |s| - 1 {
      RightsAt(s[..|s| - 1], i);
    }
  }

  lemma {:induction false} RightsAll(s: seq<Node>)
    ensures forall i :: 0 <= i < |s| ==> Rights(s)[i] == s[i].right
  {
    forall i | 0 <= i < |s|
      ensures Rights(s)[i] == s[i].right
    {
      RightsAt(s, i);
    }
  }

  ghost function Parents(s: seq<Node>): (r: seq<Node?>)
    reads s`parent
    ensures |r| == |s|
  {
    if s == [] then [] else Parents(s[..|s| - 1]) + [s[|s| - 1].parent]
  }

  lemma {:induction false} ParentsAt(s: seq<Node>, i: nat)
    requires i < |s|
    ensures Parents(s)[i] == s[i].parent
    decreases |s|
  {
    if i < |s| - 1 {
      ParentsAt(s[..|s| - 1], i);
    }
  }

  lemma {:induction false} ParentsAll(s: seq<Node>)
    ensures forall i :: 0 <= i < |s| ==> Parents(s)[i] == s[i].parent
  {
    forall i | 0 <= i < |s|
      ensures Parents(s)[i] == s[i].parent
    {
      ParentsAt(s, i);
    }
  }

  ghost function Keys(s: seq<Node>): (r: seq<Key>)
    reads s`timeout, s`startId
    ensures |r| == |s|
  {
    if s == [] then [] else Keys(s[..|s| - 1]) + [s[|s| - 1].NodeKey()]
  }

  lemma {:induction false} KeysAt(s: seq<Node>, i: nat)
    requires i < |s|
    ensures Keys(s)[i] == s[i].NodeKey()
    decreases |s|
  {
    if i < |s| - 1 {
      KeysAt(s[..|s| - 1], i);
    }
  }

  lemma KeysAll(s: seq<Node>)
    ensures forall i :: 0 <= i < |s| ==> Keys(s)[i] == s[i].NodeKey()
  {
    forall i | 0 <= i < |s|
      ensures Keys(s)[i] == s[i].NodeKey()
    {
      KeysAt(s, i);
    }
  }

  /** Every node knows its position, so no node occurs twice. */
  ghost predicate Placed(s: seq<Node>)
    reads s`pos
  {
    forall i :: 0 <= i < |s| ==> s[i].pos == i
  }

  /** The node at position i, or null beyond the end. */
  ghost function At(s: seq<Node>, i: int): Node? {
    if 0 <= i < |s| then s[i] else null
  }

  /** In a complete binary tree in level order all three links follow from the position. */
  ghost predicate Links(s: seq<Node>, left: seq<Node?>, right: seq<Node?>, parent: seq<Node?>) {
    && |left| == |right| == |parent| == |s|
    && (forall k :: 0 <= k < |s| ==> left[k] == At(s, 2 * k + 1))
    && (forall k :: 0 <= k < |s| ==> right[k] == At(s, 2 * k + 2))
    && (forall k :: 0 <= k < |s| ==> parent[k] == if k == 0 then null else At(s, Parent(k)))
  }

  lemma {:induction false} LinksAt(s: seq<Node>, k: nat)
    requires Links(s, Lefts(s), Rights(s), Parents(s)) && k < |s|
    ensures s[k].left == At(s, 2 * k + 1) && s[k].right == At(s, 2 * k + 2)
    ensures s[k].parent == if k == 0 then null else At(s, Parent(k))
  {
    hide Lefts, Rights, Parents, Links, At, Parent;
    LinksOf(s, Lefts(s), Rights(s), Parents(s), k);
    LeftsAt(s, k);
    RightsAt(s, k);
    ParentsAt(s, k);
  }

  lemma LinksOf(s: seq<Node>, l: seq<Node?>, r: seq<Node?>, a: seq<Node?>, k: nat)
    requires Links(s, l, r, a) && k < |s|
    ensures |l| == |r| == |a| == |s|
    ensures l[k] == At(s, 2 * k + 1) && r[k] == At(s, 2 * k + 2)
    ensures a[k] == if k == 0 then null else At(s, Parent(k))
  {
  }

  /** The row of links after `x` has been stored at position k, if there is such a position. */
  ghost function Put(r: seq<Node?>, k: int, x: Node?): (r': seq<Node?>)
    ensures |r'| == |r|
  {
    if 0 <= k < |r| then r[k := x] else r
  }

  method SetLeft(n: Node, x: Node?, ghost s: seq<Node>, ghost k: nat)
    requires k < |s| && s[k] == n && Placed(s)
    modifies n`left
    ensures n.left == x && Lefts(s) == Put(old(Lefts(s)), k, x)
  {
    LeftsAll(s);
    n.left := x;
    LeftsAll(s);
  }

  method SetRight(n: Node, x: Node?, ghost s: seq<Node>, ghost k: nat)
    requires k < |s| && s[k] == n && Placed(s)
    modifies n`right
    ensures n.right == x && Rights(s) == Put(old(Rights(s)), k, x)
  {
    RightsAll(s);
    n.right := x;
    RightsAll(s);
  }

  method SetParent(n: Node, x: Node?, ghost s: seq<Node>, ghost k: nat)
    requires k < |s| && s[k] == n && Placed(s)
    modifies n`parent
    ensures n.parent == x && Parents(s) == Put(old(Parents(s)), k, x)
  {
    ParentsAll(s);
    n.parent := x;
    ParentsAll(s);
  }

  // ---------- what swapping a child with its parent does to the links ----------

  ghost function SwapLefts(l: seq<Node?>, p: Node, c: Node, i: nat, j: nat): (l': seq<Node?>)
    requires 0 < j < |l| && i == Parent(j)
    ensures |l'| == |l|
  {
    var l1 := Put(Put(l, i, l[j]), j, l[i]);
    var l2 := if j == 2 * i + 1 then Put(l1, j, p) else l1;
    if i > 0 && i == 2 * Parent(i) + 1 then Put(l2, Parent(i), c) else l2
  }

  ghost function SwapRights(r: seq<Node?>, p: Node, c: Node, i: nat, j: nat): (r': seq<Node?>)
    requires 0 < j < |r| && i == Parent(j)
    ensures |r'| == |r|
  {
    var r1 := Put(Put(r, i, r[j]), j, r[i]);
    var r2 := if j == 2 * i + 1 then r1 else Put(r1, j, p);
    if i > 0 && i != 2 * Parent(i) + 1 then Put(r2, Parent(i), c) else r2
  }

  function Sibling(i: nat, j: nat): int {
    if j == 2 * i + 1 then 2 * i + 2 else 2 * i + 1
  }

  ghost function SwapParents(a: seq<Node?>, p: Node, c: Node, i: nat, j: nat): (a': seq<Node?>)
    requires 0 < j < |a| && i == Parent(j)
    ensures |a'| == |a|
  {
    var a1 := Put(Put(Put(a, i, a[j]), j, a[i]), i, c);
    var a2 := if Sibling(i, j) < |a| then Put(a1, Sibling(i, j), c) else a1;
    var a3 := if 2 * j + 1 < |a| then Put(a2, 2 * j + 1, p) else a2;
    if 2 * j + 2 < |a| then Put(a3, 2 * j + 2, p) else a3
  }

  lemma {:induction false} SwapKeepsLinks(s: seq<Node>, l: seq<Node?>, r: seq<Node?>, a: seq<Node?>, i: nat, j: nat)
    requires Links(s, l, r, a) && 0 < j < |s| && i == Parent(j)
    ensures Links(Swapped(s, i, j), Swapped(SwapLefts(l, s[i], s[j], i, j), i, j),
                  Swapped(SwapRights(r, s[i], s[j], i, j), i, j), Swapped(SwapParents(a, s[i], s[j], i, j), i, j))
  {
    SwapKeepsLefts(s, l, r, a, i, j);
    SwapKeepsRights(s, l, r, a, i, j);
    SwapKeepsParents(s, l, r, a, i, j);
  }

  lemma SwapKeepsLefts(s: seq<Node>, l: seq<Node?>, r: seq<Node?>, a: seq<Node?>, i: nat, j: nat)
    requires Links(s, l, r, a) && 0 < j < |s| && i == Parent(j)
    ensures forall k :: 0 <= k < |s| ==>
              Swapped(SwapLefts(l, s[i], s[j], i, j), i, j)[k] == At(Swapped(s, i, j), 2 * k + 1)
  {
    forall k | 0 <= k < |s|
      ensures Swapped(SwapLefts(l, s[i], s[j], i, j), i, j)[k] == At(Swapped(s, i, j), 2 * k + 1)
    {
      LeftAt(s, l, i, j, k);
    }
  }

  lemma LeftAt(s: seq<Node>, l: seq<Node?>, i: nat, j: nat, k: nat)
    requires |l| == |s| && 0 < j < |s| && i == Parent(j) && k < |s|
    requires l[i] == At(s, 2 * i + 1) && l[j] == At(s, 2 * j + 1) && l[k] == At(s, 2 * k + 1)
    ensures Swapped(SwapLefts(l, s[i], s[j], i, j), i, j)[k] == At(Swapped(s, i, j), 2 * k + 1)
  {
    var g := Parent(i);
    assert j == 2 * i + 1 || j == 2 * i + 2;
    assert i > 0 ==> (i == 2 * g + 1 || i == 2 * g + 2) && g < i;
    if k != i && k != j {
      assert 2 * k + 1 != j;
      assert (i > 0 && k == g) || 2 * k + 1 != i;
    }
  }

  lemma SwapKeepsRights(s: seq<Node>, l: seq<Node?>, r: seq<Node?>, a: seq<Node?>, i: nat, j: nat)
    requires Links(s, l, r, a) && 0 < j < |s| && i == Parent(j)
    ensures forall k :: 0 <= k < |s| ==>
              Swapped(SwapRights(r, s[i], s[j], i, j), i, j)[k] == At(Swapped(s, i, j), 2 * k + 2)
  {
    forall k | 0 <= k < |s|
      ensures Swapped(SwapRights(r, s[i], s[j], i, j), i, j)[k] == At(Swapped(s, i, j), 2 * k + 2)
    {
      RightAt(s, r, i, j, k);
    }
  }

  lemma RightAt(s: seq<Node>, r: seq<Node?>, i: nat, j: nat, k: nat)
    requires |r| == |s| && 0 < j < |s| && i == Parent(j) && k < |s|
    requires r[i] == At(s, 2 * i + 2) && r[j] == At(s, 2 * j + 2) && r[k] == At(s, 2 * k + 2)
    ensures Swapped(SwapRights(r, s[i], s[j], i, j), i, j)[k] == At(Swapped(s, i, j), 2 * k + 2)
  {
    var g := Parent(i);
    assert j == 2 * i + 1 || j == 2 * i + 2;
    assert i > 0 ==> (i == 2 * g + 1 || i == 2 * g + 2) && g < i;
    if k != i && k != j {
      assert 2 * k + 2 != j;
      assert (i > 0 && k == g) || 2 * k + 2 != i;
    }
  }

  lemma SwapKeepsParents(s: seq<Node>, l: seq<Node?>, r: seq<Node?>, a: seq<Node?>, i: nat, j: nat)
    requires Links(s, l, r, a) && 0 < j < |s| && i == Parent(j)
    ensures forall k :: 0 <= k < |s| ==>
              Swapped(SwapParents(a, s[i], s[j], i, j), i, j)[k]
              == if k == 0 then null else At(Swapped(s, i, j), Parent(k))
  {
  }

  // ---------- appending, dropping and replacing a node in a row of links ----------

  ghost function HangLefts(l: seq<Node?>, x: Node?, m: nat): (l': seq<Node?>)
    requires m <= |l|
    ensures |l'| == |l|
  {
    if m > 0 && m == 2 * Parent(m) + 1 then Put(l, Parent(m), x) else l
  }

  ghost function HangRights(r: seq<Node?>, x: Node?, m: nat): (r': seq<Node?>)
    requires m <= |r|
    ensures |r'| == |r|
  {
    if m > 0 && m != 2 * Parent(m) + 1 then Put(r, Parent(m), x) else r
  }

  lemma AppendKeepsLinks(s: seq<Node>, l: seq<Node?>, r: seq<Node?>, a: seq<Node?>, x: Node)
    requires Links(s, l, r, a)
    ensures Links(s + [x], HangLefts(l, x, |s|) + [null], HangRights(r, x, |s|) + [null],
                  a + [if |s| == 0 then null else At(s, Parent(|s|))])
  {
    var n := |s|;
    assert n > 0 ==> 0 <= Parent(n) < n && (n == 2 * Parent(n) + 1 || n == 2 * Parent(n) + 2);
    forall k | 0 <= k <= n
      ensures (HangLefts(l, x, n) + [null])[k] == At(s + [x], 2 * k + 1)
      ensures (HangRights(r, x, n) + [null])[k] == At(s + [x], 2 * k + 2)
    {
    }
  }

  lemma DropKeepsLinks(s: seq<Node>, l: seq<Node?>, r: seq<Node?>, a: seq<Node?>)
    requires Links(s, l, r, a) && |s| > 0
    ensures var n := |s| - 1;
            Links(s[..n], HangLefts(l, null, n)[..n], HangRights(r, null, n)[..n], a[..n])
  {
    var n := |s| - 1;
    assert n > 0 ==> 0 <= Parent(n) < n && (n == 2 * Parent(n) + 1 || n == 2 * Parent(n) + 2);
    forall k | 0 <= k < n
      ensures HangLefts(l, null, n)[..n][k] == At(s[..n], 2 * k + 1)
      ensures HangRights(r, null, n)[..n][k] == At(s[..n], 2 * k + 2)
    {
    }
  }

  lemma {:induction false} ReplaceKeepsLinks(s: seq<Node>, l: seq<Node?>, r: seq<Node?>, a: seq<Node?>, p: nat, x: Node)
    requires Links(s, l, r, a) && p < |s|
    ensures Links(s[p := x], HangLefts(l, x, p), HangRights(r, x, p), Put(Put(a, 2 * p + 1, x), 2 * p + 2, x))
  {
    ReplaceKeepsChildren(s, l, r, a, p, x);
    ReplaceKeepsParents(s, l, r, a, p, x);
  }

  lemma ReplaceKeepsChildren(s: seq<Node>, l: seq<Node?>, r: seq<Node?>, a: seq<Node?>, p: nat, x: Node)
    requires Links(s, l, r, a) && p < |s|
    ensures forall k :: 0 <= k < |s| ==> HangLefts(l, x, p)[k] == At(s[p := x], 2 * k + 1)
    ensures forall k :: 0 <= k < |s| ==> HangRights(r, x, p)[k] == At(s[p := x], 2 * k + 2)
  {
    assert p > 0 ==> 0 <= Parent(p) < p && (p == 2 * Parent(p) + 1 || p == 2 * Parent(p) + 2);
  }

  lemma ReplaceKeepsParents(s: seq<Node>, l: seq<Node?>, r: seq<Node?>, a: seq<Node?>, p: nat, x: Node)
    requires Links(s, l, r, a) && p < |s|
    ensures forall k :: 0 <= k < |s| ==>
              Put(Put(a, 2 * p + 1, x), 2 * p + 2, x)[k] == if k == 0 then null else At(s[p := x], Parent(k))
  {
    forall k | 0 <= k < |s|
      ensures Put(Put(a, 2 * p + 1, x), 2 * p + 2, x)[k] == if k == 0 then null else At(s[p := x], Parent(k))
    {
      assert k > 0 ==> ((k == 2 * p + 1 || k == 2 * p + 2) <==> Parent(k) == p) && 0 <= Parent(k) < k;
    }
  }

  // ---------- the place a link is stored in ----------

  /** Where a pointer to a node pointer points: the heap's root field or a node's child field. */
  datatype Slot = Root | LeftOf(n: Node) | RightOf(n: Node)

  /** The slot of the node with number m, counting from 1 at the root. */
  ghost function SlotOf(s: seq<Node>, m: nat): Slot
    requires 1 <= m && m / 2 <= |s|
  {
    if m == 1 then Root else if m % 2 == 0 then LeftOf(s[m / 2 - 1]) else RightOf(s[m / 2 - 1])
  }

  lemma RootSlot(s: seq<Node>)
    ensures SlotOf(s, 1) == Root
  {
  }

  /** The low k bits of n, lowest bit last: the turns from node n / 2^k down to node n. */
  function Turns(n: nat, k: nat): nat {
    if k == 0 then 0 else n / Pow(2, k - 1) % 2 + 2 * Turns(n, k - 1)
  }

  // ---------- the heap ----------

  class Heap {
    var min: Node?
    var nelts: nat
    ghost var nodes: seq<Node>  // in level order

    ghost predicate Shape()
      reads this, nodes
    {
      && nelts == |nodes| && min == At(nodes, 0) && Placed(nodes)
      && Links(nodes, Lefts(nodes), Rights(nodes), Parents(nodes))
    }

    ghost predicate Valid()
      reads this, nodes
    {
      Shape() && HeapOrdered(Keys(nodes))
    }

    constructor ()
      ensures Valid() && nodes == []
    {
      min, nelts, nodes := null, 0, [];
    }

    /** Exchanges a node with one of its children by rewriting the links around both; neither is copied. */
    method NodeSwap(parent: Node, child: Node, ghost i: nat, ghost j: nat)
      requires Shape()
      requires 0 < j < |nodes| && i == Parent(j) && parent == nodes[i] && child == nodes[j]
      modifies this`min, this`nodes, nodes`left, nodes`right, nodes`parent, parent`pos, child`pos
      ensures Shape() && nodes == Swapped(old(nodes), i, j)
    {
      hide Lefts, Rights, Parents, SwapLefts, SwapRights, SwapParents, Links, Placed, Swapped;
      ghost var s := nodes;
      RootSwapped(s, i, j);
      SwapKeepsLinks(s, Lefts(s), Rights(s), Parents(s), i, j);
      min := SwapFields(parent, child, min, s, i, j);
      LeftsSwapped(s, i, j);
      RightsSwapped(s, i, j);
      ParentsSwapped(s, i, j);
      SwapPlaces(parent, child, s, i, j);
      nodes := Swapped(s, i, j);
    }

    /** The path from the root to node number n, lowest bit first, and its length. */
    static method PathTo(n0: nat) returns (path: nat, k: nat)
      requires 1 <= n0
      ensures path == Turns(n0, k) && path < n0 && Pow(2, k) <= n0 < 2 * Pow(2, k)
    {
      var n;
      path, k, n := 0, 0, n0;
      while n >= 2
        invariant n == n0 / Pow(2, k) >= 1
        invariant path == Turns(n0, k) && path < Pow(2, k) <= n0
      {
        HalfAgain(n0, k);
        path := path * 2 + n % 2;
        k, n := k + 1, n / 2;
      }
      DivMod(n0, Pow(2, k));
    }

    /** The slot of node number n, and the slot of its parent, found by walking the path from the root. */
    method Descend(n: nat) returns (up: Slot, slot: Slot)
      requires Shape() && 1 <= n <= |nodes| + 1
      ensures slot == SlotOf(nodes, n) && up == SlotOf(nodes, if n == 1 then 1 else n / 2)
    {
      hide Lefts, Rights, Parents, Links, Placed, Turns, Pow, At, SlotOf;
      var path, k := PathTo(n);
      up, slot := Root, Root;
      ghost var m := 1;
      RootSlot(nodes);
      DivModUnique(n, Pow(2, k), 1, n - Pow(2, k));
      PathEnds(n, k);
      while k > 0
        invariant path == Turns(n, k) && m == n / Pow(2, k) && 1 <= m <= n
        invariant k > 0 ==> m <= n / 2
        invariant slot == SlotOf(nodes, m) && up == SlotOf(nodes, if m == 1 then 1 else m / 2)
      {
        TurnDown(n, k);
        up := slot;
        slot := Step(slot, path % 2, m);
        m := 2 * m + path % 2;
        path, k := path / 2, k - 1;
      }
    }

    /** One turn down from the slot of node m, to the right if the bit is set. */
    method Step(slot: Slot, bit: nat, ghost m: nat) returns (next: Slot)
      requires Shape() && 1 <= m <= |nodes| && slot == SlotOf(nodes, m) && bit <= 1
      ensures next == SlotOf(nodes, 2 * m + bit) && (2 * m + bit) / 2 == m
    {
      hide Lefts, Rights, Parents, Links, Placed;
      var here := Load(slot, m);
      next := if bit == 1 then RightOf(here) else LeftOf(here);
    }

    /** What a slot points to. */
    method Load(slot: Slot, ghost m: nat) returns (n: Node?)
      requires Shape() && 1 <= m && m / 2 <= |nodes| && slot == SlotOf(nodes, m)
      ensures n == At(nodes, m - 1)
    {
      hide Lefts, Rights, Parents, Links, Placed;
      if m > 1 {
        LinksAt(nodes, m / 2 - 1);
      }
      match slot
      case Root => n := min;
      case LeftOf(p) => n := p.left;
      case RightOf(p) => n := p.right;
    }

    /** Point a slot of the row s to x. */
    method Store(slot: Slot, x: Node?, ghost s: seq<Node>, ghost m: nat)
      requires Placed(s) && 1 <= m <= |s| + 1 && m / 2 <= |s| && slot == SlotOf(s, m)
      modifies this`min, s`left, s`right
      ensures Lefts(s) == HangLefts(old(Lefts(s)), x, m - 1)
      ensures Rights(s) == HangRights(old(Rights(s)), x, m - 1)
      ensures min == if m == 1 then x else old(min)
    {
      hide Lefts, Rights, Placed, Put;
      match slot
      case Root => min := x;
      case LeftOf(p) => SetLeft(p, x, s, m / 2 - 1);
      case RightOf(p) => SetRight(p, x, s, m / 2 - 1);
    }

    method Insert(newnode: Node)
      requires Valid() && newnode !in nodes && nelts < 0xFFFF_FFFF
      modifies this, nodes`left, nodes`right, nodes`parent, nodes`pos
      modifies newnode`left, newnode`right, newnode`parent, newnode`pos
      ensures Valid()
      ensures multiset(nodes) == old(multiset(nodes)) + multiset{newnode}
    {
      hide Lefts, Rights, Parents, Links, Placed, Keys, HeapOrdered, OrderedButUp, SlotOf;
      newnode.left, newnode.right, newnode.parent := null, null, null;
      Link(newnode);
      ghost var s := old(nodes);
      AppendKey(Keys(s), newnode.NodeKey());
      KeysAppend(s, newnode);
      SiftUp(newnode, |s|);
    }

    /** Hang a new node at the first free place of the bottom row. */
    method Link(newnode: Node)
      requires Shape() && newnode !in nodes
      requires newnode.left == newnode.right == newnode.parent == null
      modifies this, nodes`left, nodes`right, newnode`parent, newnode`pos
      ensures Shape() && nodes == old(nodes) + [newnode]
    {
      hide Lefts, Rights, Parents, Links, Placed, SlotOf, HangLefts, HangRights;
      ghost var s := nodes;
      var up, slot := Descend(1 + nelts);
      newnode.parent := Load(up, if |s| == 0 then 1 else (|s| + 1) / 2);
      AppendKeepsLinks(s, Lefts(s), Rights(s), Parents(s), newnode);
      Store(slot, newnode, s, |s| + 1);
      nelts := nelts + 1;
      nodes := s + [newnode];
      Place(newnode, s);
      RowsAppend(s, newnode);
    }

    /** Swap a node with its parent as long as it is before it. */
    method SiftUp(node: Node, ghost p0: nat)
      requires Shape() && p0 < |nodes| && nodes[p0] == node && OrderedButUp(Keys(nodes), p0)
      modifies this`min, this`nodes, nodes`left, nodes`right, nodes`parent, nodes`pos
      ensures Valid() && multiset(nodes) == old(multiset(nodes))
    {
      hide Lefts, Rights, Parents, Links, Placed, Keys, HeapOrdered, OrderedButUp;
      ghost var p: nat := p0;
      while node.parent != null && LessThan(node, node.parent)
        invariant Shape() && p < |nodes| && nodes[p] == node && OrderedButUp(Keys(nodes), p)
        invariant multiset(nodes) == old(multiset(nodes)) 
        invariant forall k :: 0 <= k < |nodes| ==> nodes[k] in old(nodes)
        decreases p
      {
        p := SwapWithParent(node, p);
      }
      LinksAt(nodes, p);
      KeysAt(nodes, p);
      if p > 0 {
        KeysAt(nodes, Parent(p));
      }
      UpDone(Keys(nodes), p);
    }

    method SwapWithParent(node: Node, ghost p: nat) returns (ghost q: nat)
      requires Shape() && p < |nodes| && nodes[p] == node && OrderedButUp(Keys(nodes), p)
      requires node.parent != null && LessThan(node, node.parent)
      modifies this`min, this`nodes, nodes`left, nodes`right, nodes`parent, nodes`pos
      ensures Shape() && q < p < |nodes| && nodes[q] == node && OrderedButUp(Keys(nodes), q)
      ensures multiset(nodes) == old(multiset(nodes)) && forall k :: 0 <= k < |nodes| ==> nodes[k] in old(nodes)
    {
      hide Lefts, Rights, Parents, Links, Placed, Keys, OrderedButUp, Swapped;
      LinksAt(nodes, p);
      q := Parent(p);
      KeysAt(nodes, p);
      KeysAt(nodes, q);
      SwapUp(Keys(nodes), p);
      KeysSwapped(nodes, q, p);
      SwappedSame(nodes, q, p);
      assert OrderedButUp(Swapped(Keys(nodes), q, p), q);
      NodeSwap(node.parent, node, q, p);
    }

    /** The smallest of a node and its children. */
    method Smallest(node: Node, ghost p: nat) returns (smallest: Node, ghost c: nat)
      requires Shape() && p < |nodes| && nodes[p] == node
      ensures c < |nodes| && nodes[c] == smallest && (c == p || Parent(c) == p)
      ensures c != p ==> Before(Keys(nodes)[c], Keys(nodes)[p])
      ensures forall i :: 0 < i < |nodes| && Parent(i) == p ==> !Before(Keys(nodes)[i], Keys(nodes)[c])
    {
      hide Lefts, Rights, Parents, Links, Placed, Keys;
      LinksAt(nodes, p);
      KeysAt(nodes, p);
      smallest, c := node, p;
      if node.left != null {
        KeysAt(nodes, 2 * p + 1);
        if LessThan(node.left, smallest) {
          smallest, c := node.left, 2 * p + 1;
        }
      }
      if node.right != null {
        KeysAt(nodes, 2 * p + 2);
        if LessThan(node.right, smallest) {
          smallest, c := node.right, 2 * p + 2;
        }
      }
      assert forall i :: 0 < i && Parent(i) == p ==> i == 2 * p + 1 || i == 2 * p + 2;
    }

    /** Swap a node with its smallest child as long as that child is before it. */
    method SiftDown(node: Node, ghost p0: nat) returns (ghost p: nat)
      requires Shape() && p0 < |nodes| && nodes[p0] == node && OrderedBut(Keys(nodes), p0)
      modifies this`min, this`nodes, nodes`left, nodes`right, nodes`parent, nodes`pos
      ensures Shape() && p < |nodes| && nodes[p] == node && OrderedButUp(Keys(nodes), p)
      ensures multiset(nodes) == old(multiset(nodes)) && forall k :: 0 <= k < |nodes| ==> nodes[k] in old(nodes)
    {
      hide Lefts, Rights, Parents, Links, Placed, Keys, OrderedBut, OrderedButUp, Parent, Swapped;
      p := p0;
      while true
        invariant Shape() && p < |nodes| == |old(nodes)| && nodes[p] == node && OrderedBut(Keys(nodes), p)
        invariant multiset(nodes) == old(multiset(nodes))
        invariant forall k :: 0 <= k < |nodes| ==> nodes[k] in old(nodes)
        decreases |nodes| - p
      {
        var smallest, c := Smallest(node, p);
        if smallest == node {
          SamePlace(nodes, p, c);
          DownDone(Keys(nodes), p);
          break;
        }
        ChildAfter(p, c);
        KeysSwapped(nodes, p, c);
        SwappedSame(nodes, p, c);
        SwapDown(Keys(nodes), p, c);
        NodeSwap(node, smallest, p, c);
        p := c;
      }
    }

    /** Take the last node of the bottom row out of the tree. */
    method Unlink() returns (child: Node)
      requires Shape() && nelts > 0
      modifies this, nodes`left, nodes`right
      ensures Shape() && nodes == old(nodes)[..|old(nodes)| - 1] && child == old(nodes)[|old(nodes)| - 1]
    {
      hide Lefts, Rights, Parents, Links, Placed, SlotOf, HangLefts, HangRights;
      ghost var s := nodes;
      var up, slot := Descend(nelts);
      var max := Load(slot, |s|);
      nelts := nelts - 1;
      child := max;
      DropKeepsLinks(s, Lefts(s), Rights(s), Parents(s));
      Store(slot, null, s, |s|);
      nodes := s[..|s| - 1];
      DropPlaced(s);
      RowsDrop(s);
    }

    /** Put another node in the place of a node of the tree. */
    method Substitute(child: Node, node: Node, ghost p: nat)
      requires Shape() && p < |nodes| && nodes[p] == node && child !in nodes
      modifies this`min, this`nodes, nodes`left, nodes`right, nodes`parent
      modifies child`left, child`right, child`parent, child`pos
      ensures Shape() && nodes == old(nodes)[p := child]
    {
      hide Lefts, Rights, Parents, Links, Placed, HangLefts, HangRights, Put;
      ghost var s, l, r, a := nodes, Lefts(nodes), Rights(nodes), Parents(nodes);
      LinksAt(s, p);
      LinksOf(s, l, r, a, p);
      ReplaceKeepsLinks(s, l, r, a, p, child);
      ReplaceKeepsOwn(l, r, a, p, child);
      child.left, child.right, child.parent := node.left, node.right, node.parent;
      Surround(child, node, s, p);
      nodes := s[p := child];
      RowsReplace(s, p, child);
      PlaceAt(child, s, p);
    }

    /** The neighbours of a node are told of the node that takes its place. */
    method Surround(child: Node, node: Node, ghost s: seq<Node>, ghost p: nat)
      requires Placed(s) && p < |s| && s[p] == node && child !in s && min == At(s, 0)
      requires Links(s, Lefts(s), Rights(s), Parents(s))
      requires child.left == At(s, 2 * p + 1) && child.right == At(s, 2 * p + 2)
      modifies this`min, s`left, s`right, s`parent
      ensures Lefts(s) == HangLefts(old(Lefts(s)), child, p)
      ensures Rights(s) == HangRights(old(Rights(s)), child, p)
      ensures Parents(s) == Put(Put(old(Parents(s)), 2 * p + 1, child), 2 * p + 2, child)
      ensures min == if p == 0 then child else old(min)
    {
      hide Lefts, Rights, Parents, Links, Placed;
      Above(s, p);
      if child.left != null {
        SetParent(child.left, child, s, 2 * p + 1);
      }
      if child.right != null {
        SetParent(child.right, child, s, 2 * p + 2);
      }
      if node.parent == null {
        min := child;
      } else if node.parent.left == node {
        SetLeft(node.parent, child, s, Parent(p));
      } else {
        SetRight(node.parent, child, s, Parent(p));
      }
    }

    /** Remove any node of the heap. */
    method Remove(node: Node?)
      requires Valid() && (nelts > 0 ==> node in nodes)
      modifies this, nodes`left, nodes`right, nodes`parent, nodes`pos
      ensures Valid()
      ensures old(nelts) > 0 ==> multiset(nodes) == old(multiset(nodes)) - multiset{node}
      ensures old(nelts) == 0 ==> nodes == old(nodes)
    {
      if nelts == 0 {
        return;
      }
      RemoveMember(node);
    }

    method RemoveMember(node: Node)
      requires Valid() && node in nodes
      modifies this, nodes`left, nodes`right, nodes`parent, nodes`pos
      ensures Valid()
      ensures multiset(nodes) == old(multiset(nodes)) - multiset{node}
    {
      hide Lefts, Rights, Parents, Links, Placed, Keys, HeapOrdered, OrderedBut, OrderedButUp;
      ghost var s := nodes;
      ghost var p: nat :| p < |s| && s[p] == node;
      var child := Unlink();
      KeysDrop(s);
      if child == node {
        // The node was last, so the slot that pointed to it, maybe the root's, is null already.
        LastNotFirst(s);
        assert child != min;
        SamePlace(s, p, |s| - 1);
        DropLastKey(Keys(s));
        MultisetReplace(s, p);
        return;
      }
      NotLast(s, p);
      ReplaceKey(Keys(s), p);
      KeysReplace(nodes, p, child);
      KeysAt(s, |s| - 1);
      MultisetReplace(s, p);
      Fill(child, node, p);
    }

    /** Put the last node in the place of a removed one and restore the order from there. */
    method Fill(child: Node, node: Node, ghost p: nat)
      requires Shape() && p < |nodes| && nodes[p] == node && child !in nodes
      requires OrderedBut(Keys(nodes[p := child]), p)
      modifies this`min, this`nodes, nodes`left, nodes`right, nodes`parent, nodes`pos
      modifies child`left, child`right, child`parent, child`pos
      ensures Valid() && multiset(nodes) == multiset(old(nodes)[p := child])
    {
      hide Lefts, Rights, Parents, Links, Placed, Keys, HeapOrdered, OrderedBut, OrderedButUp;
      Substitute(child, node, p);
      ghost var q := SiftDown(child, p);
      SiftUp(child, q);
    }

    method Dequeue()
      requires Valid()
      modifies this, nodes`left, nodes`right, nodes`parent, nodes`pos
      ensures Valid()
      ensures old(nelts) > 0 ==> old(min) != null && multiset(nodes) == old(multiset(nodes)) - multiset{old(min)}
      ensures old(nelts) == 0 ==> nodes == old(nodes)
      ensures forall n :: n in nodes && old(min) != null ==> !LessThan(n, old(min))
    {
      hide Lefts, Rights, Parents, Links, Placed, Keys, HeapOrdered;
      MinIsLeast();
      ghost var s := nodes;
      Remove(min);
      forall n | n in nodes
        ensures n in s
      {
        assert n in multiset(nodes);
        assert n in multiset(s);
      }
    }

    lemma Counted()
      requires Valid()
      ensures nelts == |nodes|
    {
    }

    lemma MinIsMember()
      requires Valid()
      ensures min != null ==> min in nodes
    {
    }

    /** A node has one place in the heap. */
    lemma OnlyOnce(n: Node)
      requires Valid() && n in nodes
      ensures multiset(nodes)[n] == 1
    {
      hide Links, HeapOrdered, Keys;
      var k: nat :| k < |nodes| && nodes[k] == n;
      assert nodes == nodes[..k] + [n] + nodes[k + 1..];
      assert n !in nodes[..k] && n !in nodes[k + 1..];
    }

    /** No node of the heap is before the root. */
    lemma MinIsLeast()
      requires Valid()
      ensures nelts > 0 <==> min != null
      ensures forall n :: n in nodes ==> min != null && !LessThan(n, min)
    {
      hide Lefts, Rights, Parents, Links, Placed, Keys, HeapOrdered;
      forall k | 0 <= k < |nodes|
        ensures min != null && !LessThan(nodes[k], min)
      {
        RootIsMin(Keys(nodes), k);
        KeysAt(nodes, k);
        KeysAt(nodes, 0);
      }
    }

    /** One step of emptying the heap: what was taken so far stays before what is left. */
    method TakeFirst(out: seq<Node>) returns (out': seq<Node>)
      requires Valid() && min != null && Ascending(out) && AllAfter(out, nodes)
      modifies this, nodes`left, nodes`right, nodes`parent, nodes`pos
      ensures Valid() && Ascending(out') && AllAfter(out', nodes)
      ensures |nodes| < |old(nodes)| && forall k :: 0 <= k < |nodes| ==> nodes[k] in old(nodes)
      ensures multiset(out') + multiset(nodes) == multiset(out) + old(multiset(nodes))
    {
      hide Lefts, Rights, Parents, Links, Placed, Keys, HeapOrdered, Ascending;
      MinIsLeast();
      AscendingStep(out, nodes);
      ghost var s := nodes;
      out' := out + [min];
      Dequeue();
      Fewer(s, nodes);
    }

    /** Dequeuing until nothing is left gives all the nodes in order. */
    method DequeueAll() returns (out: seq<Node>)
      requires Valid()
      modifies this, nodes`left, nodes`right, nodes`parent, nodes`pos
      ensures Valid() && nodes == [] && multiset(out) == old(multiset(nodes)) && Ascending(out)
    {
      hide Lefts, Rights, Parents, Links, Placed, Keys, HeapOrdered, Ascending, AllAfter;
      out := [];
      AscendingNone(nodes);
      while min != null
        invariant Valid() && multiset(out) + multiset(nodes) == old(multiset(nodes))
        invariant forall k :: 0 <= k < |nodes| ==> nodes[k] in old(nodes)
        invariant Ascending(out) && AllAfter(out, nodes)
        decreases |nodes|
      {
        out := TakeFirst(out);
      }
      MinIsLeast();
      assert nodes == [];
    }
  }

  lemma DropPlaced(s: seq<Node>)
    requires Placed(s) && |s| > 0
    ensures Placed(s[..|s| - 1])
  {
  }

  lemma RowsDrop(s: seq<Node>)
    requires |s| > 0
    ensures var n := |s| - 1;
            Lefts(s[..n]) == Lefts(s)[..n] && Rights(s[..n]) == Rights(s)[..n] && Parents(s[..n]) == Parents(s)[..n]
  {
  }

  lemma KeysDrop(s: seq<Node>)
    requires |s| > 0
    ensures Keys(s[..|s| - 1]) == Keys(s)[..|s| - 1]
  {
  }

  lemma {:induction false} RowsReplace(s: seq<Node>, p: nat, x: Node)
    requires p < |s|
    ensures Lefts(s[p := x]) == Lefts(s)[p := x.left]
    ensures Rights(s[p := x]) == Rights(s)[p := x.right]
    ensures Parents(s[p := x]) == Parents(s)[p := x.parent]
    decreases |s|
  {
    var n := |s| - 1;
    if p < n {
      RowsReplace(s[..n], p, x);
      assert s[p := x][..n] == s[..n][p := x];
    } else {
      assert s[p := x][..n] == s[..n];
    }
  }

  lemma {:induction false} KeysReplace(s: seq<Node>, p: nat, x: Node)
    requires p < |s|
    ensures Keys(s[p := x]) == Keys(s)[p := x.NodeKey()]
    decreases |s|
  {
    var n := |s| - 1;
    if p < n {
      KeysReplace(s[..n], p, x);
      assert s[p := x][..n] == s[..n][p := x];
    } else {
      assert s[p := x][..n] == s[..n];
    }
  }

  /** The substitute has the links of the node it replaces. */
  lemma ReplaceKeepsOwn(l: seq<Node?>, r: seq<Node?>, a: seq<Node?>, p: nat, x: Node)
    requires |l| == |r| == |a| && p < |l|
    ensures HangLefts(l, x, p)[p := l[p]] == HangLefts(l, x, p)
    ensures HangRights(r, x, p)[p := r[p]] == HangRights(r, x, p)
    ensures Put(Put(a, 2 * p + 1, x), 2 * p + 2, x)[p := a[p]] == Put(Put(a, 2 * p + 1, x), 2 * p + 2, x)
  {
  }

  /** A substitute is told its position. */
  ghost method PlaceAt(x: Node, s: seq<Node>, p: nat)
    requires Placed(s) && p < |s| && x !in s
    modifies x`pos
    ensures Placed(s[p := x])
  {
    x.pos := p;
  }

  /** The node above position p has it as its left child exactly if p is odd. */
  lemma {:induction false} Above(s: seq<Node>, p: nat)
    requires Placed(s) && Links(s, Lefts(s), Rights(s), Parents(s)) && p < |s|
    ensures s[p].parent == if p == 0 then null else At(s, Parent(p))
    ensures p > 0 ==> 0 <= Parent(p) < p && (s[Parent(p)].left == s[p] <==> p == 2 * Parent(p) + 1)
    ensures 2 * p + 1 < |s| ==> s[2 * p + 1] != s[p]
    ensures 2 * p + 2 < |s| ==> s[2 * p + 2] != s[p]
  {
    hide Lefts, Rights, Parents, Links;
    LinksAt(s, p);
    assert 2 * p + 1 < |s| ==> s[2 * p + 1].pos == 2 * p + 1;
    assert 2 * p + 2 < |s| ==> s[2 * p + 2].pos == 2 * p + 2;
    if p > 0 {
      LinksAt(s, Parent(p));
      assert s[p].pos == p;
      if 2 * Parent(p) + 1 < |s| {
        assert s[2 * Parent(p) + 1].pos == 2 * Parent(p) + 1;
      }
    }
  }

  lemma LastNotFirst(s: seq<Node>)
    requires Placed(s) && |s| > 0
    ensures s[|s| - 1] != At(s[..|s| - 1], 0)
  {
    assert s[|s| - 1].pos == |s| - 1 && s[0].pos == 0;
  }

  /** No node is before the one that precedes it. */
  ghost predicate Ascending(out: seq<Node>)
    reads out`timeout, out`startId
  {
    forall i :: 0 < i < |out| ==> !LessThan(out[i], out[i - 1])
  }

  ghost predicate AllAfter(out: seq<Node>, s: seq<Node>)
    reads out`timeout, out`startId, s`timeout, s`startId
  {
    out != [] ==> forall n :: n in s ==> !LessThan(n, out[|out| - 1])
  }

  lemma AscendingNone(s: seq<Node>)
    ensures Ascending([]) && AllAfter([], s)
  {
  }

  lemma AscendingStep(out: seq<Node>, s: seq<Node>)
    requires Ascending(out) && s != [] && AllAfter(out, s)
    ensures Ascending(out + [s[0]])
  {
    assert s[0] in s;
  }

  lemma Fewer<T>(s: seq<T>, t: seq<T>)
    requires s != [] && multiset(t) == multiset(s) - multiset{s[0]}
    ensures |t| < |s| && forall k :: 0 <= k < |t| ==> t[k] in s
  {
    assert |multiset(t)| == |t| && |multiset(s)| == |s|;
    forall k | 0 <= k < |t|
      ensures t[k] in s
    {
      assert t[k] in multiset(t);
    }
  }

  lemma NotLast(s: seq<Node>, p: nat)
    requires Placed(s) && p < |s| && s[p] != s[|s| - 1]
    ensures p < |s| - 1 && s[|s| - 1] !in s[..|s| - 1]
  {
    assert s[|s| - 1].pos == |s| - 1;
  }

  /** Moving the last element over the one at p removes exactly the element at p. */
  lemma MultisetReplace<T>(s: seq<T>, p: nat)
    requires p < |s|
    ensures var n := |s| - 1;
            multiset(if p < n then s[..n][p := s[n]] else s[..n]) == multiset(s) - multiset{s[p]}
  {
    var n := |s| - 1;
    assert s == s[..n] + [s[n]];
  }

  lemma SamePlace(s: seq<Node>, i: nat, j: nat)
    requires Placed(s) && i < |s| && j < |s| && s[i] == s[j]
    ensures i == j
  {
    assert s[i].pos == i && s[j].pos == j;
  }

  lemma ChildAfter(p: nat, c: nat)
    requires p == c || Parent(c) == p
    ensures p == c || p < c
  {
  }

  lemma SwappedSame<T>(s: seq<T>, i: nat, j: nat)
    requires i < |s| && j < |s|
    ensures multiset(Swapped(s, i, j)) == multiset(s) && forall k :: 0 <= k < |s| ==> Swapped(s, i, j)[k] in s
    ensures Swapped(s, i, j)[i] == s[j] && Swapped(s, i, j)[j] == s[i]
  {
  }

  lemma RowsAppend(s: seq<Node>, x: Node)
    ensures Lefts(s + [x]) == Lefts(s) + [x.left]
    ensures Rights(s + [x]) == Rights(s) + [x.right]
    ensures Parents(s + [x]) == Parents(s) + [x.parent]
  {
    assert (s + [x])[..|s|] == s;
  }

  lemma KeysAppend(s: seq<Node>, x: Node)
    ensures Keys(s + [x]) == Keys(s) + [x.NodeKey()]
  {
    assert (s + [x])[..|s|] == s;
  }

  /** A node appended to a row is told its position. */
  ghost method Place(x: Node, s: seq<Node>)
    requires Placed(s) && x !in s
    modifies x`pos
    ensures Placed(s + [x])
  {
    x.pos := |s|;
  }

  lemma {:induction false} HalfAgain(n: nat, k: nat)
    requires Pow(2, k) <= n
    ensures n / Pow(2, k) / 2 == n / Pow(2, k + 1)
    ensures n / Pow(2, k) >= 2 ==> 2 * Pow(2, k) <= n
  {
    DivDiv(n, Pow(2, k), 2);
    DivMod(n, Pow(2, k));
  }

  /** One turn of the descent: the next bit of the path leads to the next node number. */
  lemma {:induction false} TurnDown(n: nat, k: nat)
    requires 0 < k && Pow(2, k) <= n
    ensures n / Pow(2, k - 1) == 2 * (n / Pow(2, k)) + Turns(n, k) % 2
    ensures Turns(n, k) / 2 == Turns(n, k - 1)
    ensures n / Pow(2, k - 1) <= n && (k > 1 ==> n / Pow(2, k - 1) <= n / 2) && n / Pow(2, k) <= n / 2
  {
    hide Pow, Turns;
    var q := n / Pow(2, k - 1);
    TurnsStep(n, k);
    PowStep(k);
    DivDiv(n, Pow(2, k - 1), 2);
    QuotientAtMost(n, Pow(2, k - 1), 1);
    QuotientAtMost(n, Pow(2, k), 2);
    if k > 1 {
      PowStep(k - 1);
      QuotientAtMost(n, Pow(2, k - 1), 2);
    }
  }

  lemma TurnsStep(n: nat, k: nat)
    requires 0 < k
    ensures Pow(2, k - 1) > 0 && Turns(n, k) % 2 == n / Pow(2, k - 1) % 2 && Turns(n, k) / 2 == Turns(n, k - 1)
  {
  }

  lemma PowStep(k: nat)
    requires 0 < k
    ensures Pow(2, k) == 2 * Pow(2, k - 1) && Pow(2, k - 1) >= 1
  {
  }

  lemma PathEnds(n: nat, k: nat)
    requires Pow(2, k) <= n
    ensures k > 0 ==> 1 <= n / 2
    ensures n / Pow(2, 0) == n
  {
    if k > 0 {
      PowStep(k);
    }
  }

  lemma {:induction false} QuotientAtMost(n: nat, d: nat, c: nat)
    requires 0 < c <= d
    ensures n / d <= n / c
  {
    DivMod(n, d);
    DivMod(n, c);
    if n / d > n / c {
      MulMono(n / c + 1, n / d, d);
      MulMonoRight(n / c + 1, c, d);
      Distribute(n / c, 1, c);
    }
  }

  lemma RootSwapped(s: seq<Node>, i: nat, j: nat)
    requires 0 < j < |s| && i == Parent(j)
    ensures i < j
    ensures At(Swapped(s, i, j), 0) == if i == 0 then s[j] else At(s, 0)
  {
  }

  lemma {:induction false} LeftsSwapped(s: seq<Node>, i: nat, j: nat)
    requires i < |s| && j < |s|
    ensures Lefts(Swapped(s, i, j)) == Swapped(Lefts(s), i, j)
  {
    hide Lefts;
    LeftsAll(s);
    LeftsAll(Swapped(s, i, j));
  }

  lemma {:induction false} RightsSwapped(s: seq<Node>, i: nat, j: nat)
    requires i < |s| && j < |s|
    ensures Rights(Swapped(s, i, j)) == Swapped(Rights(s), i, j)
  {
    hide Rights;
    RightsAll(s);
    RightsAll(Swapped(s, i, j));
  }

  lemma {:induction false} ParentsSwapped(s: seq<Node>, i: nat, j: nat)
    requires i < |s| && j < |s|
    ensures Parents(Swapped(s, i, j)) == Swapped(Parents(s), i, j)
  {
    hide Parents;
    ParentsAll(s);
    ParentsAll(Swapped(s, i, j));
  }

  lemma {:induction false} KeysSwapped(s: seq<Node>, i: nat, j: nat)
    requires i < |s| && j < |s|
    ensures Keys(Swapped(s, i, j)) == Swapped(Keys(s), i, j)
  {
    hide Keys;
    KeysAll(s);
    KeysAll(Swapped(s, i, j));
  }

  /** The two nodes exchange their recorded positions. */
  ghost method SwapPlaces(parent: Node, child: Node, s: seq<Node>, i: nat, j: nat)
    requires Placed(s) && i < |s| && j < |s| && s[i] == parent && s[j] == child
    modifies parent`pos, child`pos
    ensures Placed(Swapped(s, i, j))
  {
    parent.pos := j;
    child.pos := i;
  }

  /** The pointer assignments of a swap; returns the new root. */
  method SwapFields(parent: Node, child: Node, min: Node?, ghost s: seq<Node>, ghost i: nat, ghost j: nat)
    returns (min': Node?)
    requires Placed(s) && Links(s, Lefts(s), Rights(s), Parents(s))
    requires 0 < j < |s| && i == Parent(j) && parent == s[i] && child == s[j] && min == At(s, 0)
    modifies s`left, s`right, s`parent
    ensures Lefts(s) == SwapLefts(old(Lefts(s)), parent, child, i, j)
    ensures Rights(s) == SwapRights(old(Rights(s)), parent, child, i, j)
    ensures Parents(s) == SwapParents(old(Parents(s)), parent, child, i, j)
    ensures min' == if i == 0 then child else min
  {
    hide Lefts, Rights, Parents, Put, Links, Placed;
    Neighbours(s, i, j);
    SwapOwn(parent, child, s, i, j);
    min' := SwapAround(parent, child, min, s, i, j);
  }

  /** The two nodes exchange their links, and the child takes the parent below itself. */
  method SwapOwn(parent: Node, child: Node, ghost s: seq<Node>, ghost i: nat, ghost j: nat)
    requires Placed(s) && 0 < j < |s| && i == Parent(j) && parent == s[i] && child == s[j] && parent != child
    requires Lefts(s)[i] == parent.left == At(s, 2 * i + 1) && Rights(s)[i] == parent.right == At(s, 2 * i + 2)
    requires Lefts(s)[j] == child.left == At(s, 2 * j + 1) && Rights(s)[j] == child.right == At(s, 2 * j + 2)
    requires Parents(s)[i] == parent.parent && Parents(s)[j] == child.parent
    requires (parent.left == child <==> j == 2 * i + 1) && (j == 2 * i + 1 || j == 2 * i + 2)
    requires Sibling(i, j) < |s| ==> s[Sibling(i, j)] != child
    modifies parent`left, child`left, parent`right, child`right, s`parent
    ensures Lefts(s) == var l1 := Put(Put(old(Lefts(s)), i, old(Lefts(s))[j]), j, old(Lefts(s))[i]);
                        if j == 2 * i + 1 then Put(l1, j, parent) else l1
    ensures Rights(s) == var r1 := Put(Put(old(Rights(s)), i, old(Rights(s))[j]), j, old(Rights(s))[i]);
                         if j == 2 * i + 1 then r1 else Put(r1, j, parent)
    ensures Parents(s)
            == var a1 := Put(Put(Put(old(Parents(s)), i, old(Parents(s))[j]), j, old(Parents(s))[i]), i, child);
                          if Sibling(i, j) < |s| then Put(a1, Sibling(i, j), child) else a1
    ensures parent.left == old(child.left) && parent.right == old(child.right) && child.parent == old(parent.parent)
  {
    hide Lefts, Rights, Parents, Put, Placed;
    var left, right, up := parent.left, parent.right, parent.parent;
    SetLeft(parent, child.left, s, i);
    SetRight(parent, child.right, s, i);
    SetParent(parent, child.parent, s, i);
    SetLeft(child, left, s, j);
    SetRight(child, right, s, j);
    SetParent(child, up, s, j);

    SetParent(parent, child, s, i);
    var sibling;
    if child.left == child {
      SetLeft(child, parent, s, j);
      sibling := child.right;
    } else {
      SetRight(child, parent, s, j);
      sibling := child.left;
    }
    if sibling != null {
      SetParent(sibling, child, s, Sibling(i, j));
    }
  }

  /** The nodes around the two learn about the exchange; returns the root. */
  method SwapAround(parent: Node, child: Node, min: Node?, ghost s: seq<Node>, ghost i: nat, ghost j: nat)
    returns (min': Node?)
    requires Placed(s) && 0 < j < |s| && i == Parent(j) && parent == s[i] && child == s[j]
    requires parent.left == At(s, 2 * j + 1) && parent.right == At(s, 2 * j + 2)
    requires child.parent == if i == 0 then null else At(s, Parent(i))
    requires i > 0 ==> 0 <= Parent(i) < i && (s[Parent(i)].left == parent <==> i == 2 * Parent(i) + 1)
    requires i > 0 ==> 2 * j + 1 != i && 2 * j + 2 != i
    requires child != s[if 2 * j + 1 < |s| then 2 * j + 1 else i]
             && child != s[if 2 * j + 2 < |s| then 2 * j + 2 else i]
    modifies s`left, s`right, s`parent
    ensures Lefts(s) == if i > 0 && i == 2 * Parent(i) + 1 then Put(old(Lefts(s)), Parent(i), child) else old(Lefts(s))
    ensures Rights(s)
            == if i > 0 && i != 2 * Parent(i) + 1 then Put(old(Rights(s)), Parent(i), child) else old(Rights(s))
    ensures Parents(s)
            == var a3 := if 2 * j + 1 < |s| then Put(old(Parents(s)), 2 * j + 1, parent) else old(Parents(s));
                          if 2 * j + 2 < |s| then Put(a3, 2 * j + 2, parent) else a3
    ensures min' == if i == 0 then child else min
  {
    hide Lefts, Rights, Parents, Put, Placed;
    if parent.left != null {
      SetParent(parent.left, parent, s, 2 * j + 1);
    }
    if parent.right != null {
      SetParent(parent.right, parent, s, 2 * j + 2);
    }
    min' := min;
    if child.parent == null {
      min' := child;
    } else if child.parent.left == parent {
      SetLeft(child.parent, child, s, Parent(i));
    } else {
      SetRight(child.parent, child, s, Parent(i));
    }
  }

  /** The nodes around a child and its parent, as the links show them. */
  lemma {:induction false} Neighbours(s: seq<Node>, i: nat, j: nat)
    requires Placed(s) && Links(s, Lefts(s), Rights(s), Parents(s)) && 0 < j < |s| && i == Parent(j)
    ensures i < j && s[i] != s[j]
    ensures j == 2 * i + 1 || j == 2 * i + 2
    ensures Lefts(s)[i] == s[i].left == At(s, 2 * i + 1) && Rights(s)[i] == s[i].right == At(s, 2 * i + 2)
    ensures Lefts(s)[j] == s[j].left == At(s, 2 * j + 1) && Rights(s)[j] == s[j].right == At(s, 2 * j + 2)
    ensures Parents(s)[i] == s[i].parent == if i == 0 then null else At(s, Parent(i))
    ensures Parents(s)[j] == s[j].parent == s[i]
    ensures s[i].left == s[j] <==> j == 2 * i + 1
    ensures Sibling(i, j) < |s| ==> s[Sibling(i, j)] != s[j]
    ensures 2 * j + 1 < |s| ==> s[2 * j + 1] != s[j]
    ensures 2 * j + 2 < |s| ==> s[2 * j + 2] != s[j]
    ensures i > 0 ==> 0 <= Parent(i) < i && s[Parent(i)] != s[i] && s[Parent(i)] != s[j]
    ensures i > 0 ==> (s[Parent(i)].left == s[i] <==> i == 2 * Parent(i) + 1)
  {
    hide Lefts, Rights, Parents;
    assert s[i].pos == i && s[j].pos == j;
    if 2 * j + 1 < |s| {
      assert s[2 * j + 1].pos == 2 * j + 1;
    }
    if 2 * j + 2 < |s| {
      assert s[2 * j + 2].pos == 2 * j + 2;
    }
    if 2 * i + 1 < |s| {
      assert s[2 * i + 1].pos == 2 * i + 1;
    }
    LeftsAt(s, i);
    LeftsAt(s, j);
    RightsAt(s, i);
    RightsAt(s, j);
    ParentsAt(s, i);
    ParentsAt(s, j);
    if i > 0 {
      LeftsAt(s, Parent(i));
      if 2 * Parent(i) + 1 < |s| {
        assert s[2 * Parent(i) + 1].pos == 2 * Parent(i) + 1 && s[i].pos == i;
      }
    }
  }
}
