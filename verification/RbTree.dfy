/** The red-black tree of uv/tree.h: nodes linked by pointers, kept in the order of their keys. */
module RbTree {
  import opened Powers
  import opened RbShape
  import opened RbColor

  class Node {
    const key: int
    var left: Node?
    var right: Node?
    var parent: Node?
    var red: bool

    constructor (key: int)
      ensures this.key == key
    {
      this.key := key;
      left, right, parent, red := null, null, null, false;
    }
  }

  /** The in-order sequence has strictly increasing keys, so no node occurs twice. */
  ghost predicate Sorted(s: seq<Node>) {
    forall i, j :: 0 <= i < j < |s| ==> s[i].key < s[j].key
  }

  ghost function At(s: seq<Node>, i: int): Node? {
    if 0 <= i < |s| then s[i] else null
  }

  lemma SamePlace(s: seq<Node>, i: int, j: int)
    requires Sorted(s) && (0 <= i < |s| || i == -1) && (0 <= j < |s| || j == -1)
    ensures At(s, i) == At(s, j) <==> i == j
  {
  }

  // ---------- the links of the nodes, as rows of positions ----------

  ghost predicate LeftsAre(s: seq<Node>, row: seq<int>)
    reads s`left
  {
    |row| == |s| && forall k :: 0 <= k < |s| ==> s[k].left == At(s, row[k])
  }

  ghost predicate RightsAre(s: seq<Node>, row: seq<int>)
    reads s`right
  {
    |row| == |s| && forall k :: 0 <= k < |s| ==> s[k].right == At(s, row[k])
  }

  ghost predicate ParentsAre(s: seq<Node>, row: seq<int>)
    reads s`parent
  {
    |row| == |s| && forall k :: 0 <= k < |s| ==> s[k].parent == At(s, row[k])
  }

  ghost predicate RedsAre(s: seq<Node>, red: seq<bool>)
    reads s`red
  {
    |red| == |s| && forall k :: 0 <= k < |s| ==> s[k].red == red[k]
  }

  /** The links of the nodes of s, with the given root, are those of the shape. */
  ghost predicate Linked(s: seq<Node>, root: Node?, t: Shape)
    reads s`left, s`right, s`parent
  {
    && Sorted(s) && TreeOk(t) && |t.left| == |s| && root == At(s, t.root)
    && LeftsAre(s, t.left) && RightsAre(s, t.right) && ParentsAre(s, t.parent)
  }

  /** The links of one node. */
  lemma {:induction false} LinksOf(s: seq<Node>, root: Node?, t: Shape, k: int)
    requires Linked(s, root, t) && 0 <= k < |s|
    ensures Sized(t, |s|) && Sorted(s) && root == At(s, t.root)
    ensures s[k].left == At(s, t.left[k]) && s[k].right == At(s, t.right[k]) && s[k].parent == At(s, t.parent[k])
    ensures t.left[k] == -1 || 0 <= t.left[k] < |s|
    ensures t.right[k] == -1 || 0 <= t.right[k] < |s|
    ensures t.parent[k] == -1 || 0 <= t.parent[k] < |s|
    ensures 0 <= t.root < |s|
  {
    Around(t, k);
  }

  lemma RedOf(s: seq<Node>, red: seq<bool>, k: int)
    requires RedsAre(s, red)
    ensures if 0 <= k < |s| then s[k].red == Red(red, k) else !Red(red, k)
  {
  }

  method StoreLeft(n: Node, x: Node?, ghost s: seq<Node>, ghost row: seq<int>, ghost k: int, ghost j: int)
    requires Sorted(s) && LeftsAre(s, row) && 0 <= k < |s| && s[k] == n && x == At(s, j)
    modifies n`left
    ensures n.left == x && LeftsAre(s, Put(row, k, j))
  {
    n.left := x;
  }

  method StoreRight(n: Node, x: Node?, ghost s: seq<Node>, ghost row: seq<int>, ghost k: int, ghost j: int)
    requires Sorted(s) && RightsAre(s, row) && 0 <= k < |s| && s[k] == n && x == At(s, j)
    modifies n`right
    ensures n.right == x && RightsAre(s, Put(row, k, j))
  {
    n.right := x;
  }

  method StoreParent(n: Node, x: Node?, ghost s: seq<Node>, ghost row: seq<int>, ghost k: int, ghost j: int)
    requires Sorted(s) && ParentsAre(s, row) && 0 <= k < |s| && s[k] == n && x == At(s, j)
    modifies n`parent
    ensures n.parent == x && ParentsAre(s, Put(row, k, j))
  {
    n.parent := x;
  }

  method StoreRed(n: Node, c: bool, ghost s: seq<Node>, ghost red: seq<bool>, ghost k: int)
    requires Sorted(s) && RedsAre(s, red) && 0 <= k < |s| && s[k] == n
    modifies n`red
    ensures n.red == c && RedsAre(s, Paint(red, k, c))
  {
    n.red := c;
  }

  /** A row of children on one side after g's child p has been replaced by q. */
  function HangAt(t: Shape, side: Side, row: seq<int>, g: int, p: int, q: int): seq<int>
    requires g < |t.left|
  {
    if g >= 0 && SideOf(t, g, p) == side then Put(row, g, q) else row
  }

  lemma RotateLeftRows(t: Shape, p: int)
    requires TreeOk(t) && Has(t, p) && Has(t, t.right[p]) && t.parent[p] < |t.left|
    ensures var q, g, t' := t.right[p], t.parent[p], Rotate(t, Left, p);
            var r := t.left[q];
            && t'.left == Put(HangAt(t, Left, t.left, g, p, q), q, p)
            && t'.right == HangAt(t, Right, Put(t.right, p, r), g, p, q)
            && t'.parent == Put(Put(Put(t.parent, r, p), q, g), p, q)
            && t'.root == if g < 0 then q else t.root
  {
  }

  lemma RotateRightRows(t: Shape, p: int)
    requires TreeOk(t) && Has(t, p) && Has(t, t.left[p]) && t.parent[p] < |t.left|
    ensures var q, g, t' := t.left[p], t.parent[p], Rotate(t, Right, p);
            var r := t.right[q];
            && t'.right == Put(HangAt(t, Right, t.right, g, p, q), q, p)
            && t'.left == HangAt(t, Left, Put(t.left, p, r), g, p, q)
            && t'.parent == Put(Put(Put(t.parent, r, p), q, g), p, q)
            && t'.root == if g < 0 then q else t.root
  {
  }

  /** Which child of its parent a node is, as the pointers show it. */
  lemma {:induction false} LinksAbove(s: seq<Node>, root: Node?, t: Shape, p: int)
    requires Linked(s, root, t) && 0 <= p < |s| && t.parent[p] != -1
    ensures Has(t, t.parent[p]) && t.parent[p] != p
    ensures s[p] == s[t.parent[p]].left <==> SideOf(t, t.parent[p], p) == Left
    ensures s[p] == s[t.parent[p]].right <==> SideOf(t, t.parent[p], p) == Right
  {
    hide TreeOk;
    var g := t.parent[p];
    Around(t, p);
    LinksOf(s, root, t, g);
    SamePlace(s, p, t.left[g]);
    SamePlace(s, p, t.right[g]);
    Around(t, g);
  }

  /** The link to `elm`, in its parent or at the root, now leads to x. */
  method Replace(elm: Node, x: Node?, parent: Node?, root: Node?, ghost s: seq<Node>, ghost t: Shape,
                 ghost l: seq<int>, ghost r: seq<int>, ghost g: int, ghost p: int, ghost q: int)
    returns (root': Node?)
    requires Sorted(s) && LeftsAre(s, l) && RightsAre(s, r) && x == At(s, q)
    requires parent == At(s, g) && |t.left| == |s| && -1 <= g < |s|
    requires g != -1 ==> (elm == s[g].left <==> SideOf(t, g, p) == Left)
    modifies s`left, s`right
    ensures LeftsAre(s, HangAt(t, Left, l, g, p, q)) && RightsAre(s, HangAt(t, Right, r, g, p, q))
    ensures root' == if g < 0 then x else root
  {
    hide LeftsAre, RightsAre, Sorted, Put, SideOf;
    root' := root;
    if parent != null {
      if parent.left == elm {
        StoreLeft(parent, x, s, l, g, q);
      } else {
        StoreRight(parent, x, s, r, g, q);
      }
    } else {
      root' := x;
    }
  }

  /** A child, if there is one, gets its new parent. */
  method Adopt(child: Node?, elm: Node?, ghost s: seq<Node>, ghost row: seq<int>, ghost r: int, ghost p: int)
    requires Sorted(s) && ParentsAre(s, row) && child == At(s, r) && -1 <= r < |s| && elm == At(s, p)
    modifies if child == null then {} else {child}`parent
    ensures ParentsAre(s, Put(row, r, p))
  {
    hide ParentsAre, Sorted;
    if child != null {
      StoreParent(child, elm, s, row, r, p);
    }
  }

  /** The pointer assignments of a left rotation; returns the new root. */
  method RotateLeft(elm: Node, root: Node?, ghost s: seq<Node>, ghost t: Shape, ghost p: int) returns (root': Node?)
    requires Linked(s, root, t) && CanRotate(t, Left, p) && At(s, p) == elm
    modifies s`left, s`right, s`parent
    ensures Linked(s, root', Rotate(t, Left, p))
  {
    hide LeftsAre, RightsAre, ParentsAre, TreeOk, Rotate, Sorted, Put, SideOf, HangAt;
    LinksOf(s, root, t, p);
    ghost var q, g := t.right[p], t.parent[p];
    LinksOf(s, root, t, q);
    ghost var r := t.left[q];
    RotationLinks(s, root, t, Left, p);
    RotateKeepsTree(t, Left, p);
    RotateLeftRows(t, p);
    var tmp := elm.right;
    StoreRight(elm, tmp.left, s, t.right, p, r);
    Adopt(elm.right, elm, s, t.parent, r, p);
    StoreParent(tmp, elm.parent, s, Put(t.parent, r, p), q, g);
    root' := Replace(elm, tmp, tmp.parent, root, s, t, t.left, Put(t.right, p, r), g, p, q);
    StoreLeft(tmp, elm, s, HangAt(t, Left, t.left, g, p, q), q, p);
    StoreParent(elm, tmp, s, Put(Put(t.parent, r, p), q, g), p, q);
  }

  /** The pointer assignments of a right rotation; returns the new root. */
  method RotateRight(elm: Node, root: Node?, ghost s: seq<Node>, ghost t: Shape, ghost p: int) returns (root': Node?)
    requires Linked(s, root, t) && CanRotate(t, Right, p) && At(s, p) == elm
    modifies s`left, s`right, s`parent
    ensures Linked(s, root', Rotate(t, Right, p))
  {
    hide LeftsAre, RightsAre, ParentsAre, TreeOk, Rotate, Sorted, Put, SideOf, HangAt;
    LinksOf(s, root, t, p);
    ghost var q, g := t.left[p], t.parent[p];
    LinksOf(s, root, t, q);
    ghost var r := t.right[q];
    RotationLinks(s, root, t, Right, p);
    RotateKeepsTree(t, Right, p);
    RotateRightRows(t, p);
    var tmp := elm.left;
    StoreLeft(elm, tmp.right, s, t.left, p, r);
    Adopt(elm.left, elm, s, t.parent, r, p);
    StoreParent(tmp, elm.parent, s, Put(t.parent, r, p), q, g);
    root' := Replace(elm, tmp, tmp.parent, root, s, t, Put(t.left, p, r), t.right, g, p, q);
    StoreRight(tmp, elm, s, HangAt(t, Right, t.right, g, p, q), q, p);
    StoreParent(elm, tmp, s, Put(Put(t.parent, r, p), q, g), p, q);
  }

  /** What the two rotations need to know before the first assignment. */
  lemma {:induction false} RotationLinks(s: seq<Node>, root: Node?, t: Shape, side: Side, p: int)
    requires Linked(s, root, t) && CanRotate(t, side, p) && Has(t, p)
    ensures var q, g := Kid(t, Other(side), p), t.parent[p];
            var r := Kid(t, side, q);
            && (r == -1 || (0 <= r < |s| && s[r] != s[p]))
            && (r == -1 ==> Put(t.parent, r, p) == t.parent)
            && (g == -1 || (0 <= g < |s| && s[g] != s[p] && (s[p] == s[g].left <==> SideOf(t, g, p) == Left)))
  {
    hide TreeOk;
    var q := Kid(t, Other(side), p);
    Around(t, p);
    Around(t, q);
    SamePlace(s, Kid(t, side, q), p);
    if t.parent[p] != -1 {
      LinksAbove(s, root, t, p);
      SamePlace(s, t.parent[p], p);
    }
  }

  // ---------- insertion ----------

  /** The shape, the colours and the black heights of the tree at some moment. */
  datatype State = State(t: Shape, red: seq<bool>, bh: seq<nat>)

  ghost predicate Shows(s: seq<Node>, root: Node?, st: State)
    reads s`left, s`right, s`parent, s`red
  {
    Linked(s, root, st.t) && RedsAre(s, st.red)
  }

  ghost predicate InsertingAt(st: State, x: int) {
    Inserting(st.t, st.red, st.bh, x)
  }

  ghost predicate BalancedState(st: State) {
    Balanced(st.t, st.red, st.bh)
  }

  /** The links and the colour of one node. */
  lemma {:induction false} NodeOf(s: seq<Node>, root: Node?, st: State, k: int)
    requires Shows(s, root, st) && 0 <= k < |s|
    ensures var t := st.t;
            && Sized(t, |s|) && Sorted(s) && root == At(s, t.root) && 0 <= t.root < |s|
            && (t.left[k] == -1 || 0 <= t.left[k] < |s|) && (t.right[k] == -1 || 0 <= t.right[k] < |s|)
            && (t.parent[k] == -1 || 0 <= t.parent[k] < |s|)
            && s[k].left == At(s, t.left[k]) && s[k].right == At(s, t.right[k]) && s[k].parent == At(s, t.parent[k])
            && s[k].red == Red(st.red, k)
            && (s[k].left != null ==> s[k].left.red == Red(st.red, t.left[k]))
            && (s[k].right != null ==> s[k].right.red == Red(st.red, t.right[k]))
            && (s[k].parent != null ==> s[k].parent.red == Red(st.red, t.parent[k]))
            && !Red(st.red, -1)
  {
    hide TreeOk, LeftsAre, RightsAre, ParentsAre, RedsAre;
    LinksOf(s, root, st.t, k);
    RedOf(s, st.red, k);
    RedOf(s, st.red, st.t.left[k]);
    RedOf(s, st.red, st.t.right[k]);
    RedOf(s, st.red, st.t.parent[k]);
    RedOf(s, st.red, -1);
  }

  /** How much is left to climb while the parent is red. */
  ghost function Climb(st: State, x: int): int {
    if Sized(st.t, |st.t.left|) && Has(st.t, x) && Red(st.red, st.t.parent[x]) then
      |st.t.left| - (st.t.hi[x] - st.t.lo[x])
    else 0
  }

  lemma ParentIsWider(t: Shape, x: int, p: int)
    requires TreeOk(t) && Has(t, x) && t.parent[x] == p && Has(t, p)
    ensures 0 <= t.hi[x] - t.lo[x] < t.hi[p] - t.lo[p] < |t.left|
  {
    KidFacts(t, Left, x);
    KidFacts(t, Left, p);
    KidFacts(t, Right, p);
    assert NodeOk(t, x);
  }

  /** A node with a red parent, its parent and its grandparent. */
  lemma {:induction false} Family(s: seq<Node>, root: Node?, st: State, x: int)
    requires Shows(s, root, st) && InsertingAt(st, x) && 0 <= x < |s| && s[x].parent != null && s[x].parent.red
    ensures var t, red := st.t, st.red;
            Sized(t, |s|) && Sorted(s) && Has(t, t.parent[x]) && Has(t, t.parent[t.parent[x]])
    ensures var t, red, p, g := st.t, st.red, st.t.parent[x], st.t.parent[st.t.parent[x]];
            && s[x].parent == s[p] && s[p].parent == s[g]
            && (s[g].left == s[p] <==> SideOf(t, g, p) == Left)
            && Clash(t, red, x, p, g, SideOf(t, g, p))
            && s[g].left == At(s, t.left[g]) && s[g].right == At(s, t.right[g])
            && (s[g].left != null ==> s[g].left.red == Red(red, t.left[g]))
            && (s[g].right != null ==> s[g].right.red == Red(red, t.right[g]))
            && (s[p].left == s[x] <==> t.left[p] == x) && (s[p].right == s[x] <==> t.right[p] == x)
            && (t.left[p] == x || t.right[p] == x) && !Red(red, -1)
            && (t.left[g] == -1 || 0 <= t.left[g] < |s|) && (t.right[g] == -1 || 0 <= t.right[g] < |s|)
    ensures Climb(st, x) > 0
  {
    hide LeftsAre, RightsAre, ParentsAre, RedsAre, BlackOk, RedOk;
    NodeOf(s, root, st, x);
    var t, p := st.t, st.t.parent[x];
    ClashFound(t, st.red, st.bh, x);
    NodeOf(s, root, st, p);
    LinksAbove(s, root, t, p);
    NodeOf(s, root, st, t.parent[p]);
    SamePlace(s, t.left[p], x);
    SamePlace(s, t.right[p], x);
    Around(t, x);
    KidFacts(t, Left, x);
  }

  /** A red uncle: recolour and go on at the grandparent. */
  method PaintUncle(tmp: Node, parent: Node, gparent: Node, ghost root: Node?, ghost s: seq<Node>, ghost st: State,
                    ghost x: int, ghost p: int, ghost g: int, ghost side: Side)
    returns (ghost st': State)
    requires Shows(s, root, st) && InsertingAt(st, x) && Clash(st.t, st.red, x, p, g, side)
    requires Red(st.red, Kid(st.t, Other(side), g)) && At(s, Kid(st.t, Other(side), g)) == tmp
    requires At(s, p) == parent && At(s, g) == gparent
    modifies s`red
    ensures Shows(s, root, st') && InsertingAt(st', g) && Climb(st', g) < Climb(st, x)
  {
    hide LeftsAre, RightsAre, ParentsAre, TreeOk, RedsAre, Sorted, Inserting, SideOf, Paint, Raise, Red;
    ghost var u := Kid(st.t, Other(side), g);
    IsRed(st.red, u);
    RedUncle(st.t, st.red, st.bh, x, p, g, side);
    StoreRed(tmp, false, s, st.red, u);
    StoreRed(parent, false, s, Paint(st.red, u, false), p);
    StoreRed(gparent, true, s, Paint(Paint(st.red, u, false), p, false), g);
    st' := State(st.t, Paint(Paint(Paint(st.red, u, false), p, false), g, true), Raise(Raise(st.bh, u), p));
    ParentIsWider(st.t, x, p);
    ParentIsWider(st.t, p, g);
  }

  ghost function OuterNext(st: State, p: int, g: int, side: Side): State
    requires CanRotate(st.t, Other(side), g)
  {
    State(Rotate(st.t, Other(side), g), Paint(Paint(st.red, p, false), g, true), Raise(Lower(st.bh, g), p))
  }

  lemma OuterState(st: State, x: int, p: int, g: int, side: Side)
    requires InsertingAt(st, x) && Clash(st.t, st.red, x, p, g, side) && Kid(st.t, side, p) == x
    requires !Red(st.red, Kid(st.t, Other(side), g))
    ensures CanRotate(st.t, Other(side), g)
    ensures InsertingAt(OuterNext(st, p, g, side), x) && Climb(OuterNext(st, p, g, side), x) == 0
  {
    hide TreeOk, Rotate, BlackOk, RedOk, Raise, Lower;
    OuterChild(st.t, st.red, st.bh, x, p, g, side);
    var st' := OuterNext(st, p, g, side);
    RotateSize(st.t, Other(side), g);
    Around(st.t, x);
    GrandparentBlack(st.t, st.red, st.bh, x, p, g, side);
    BalancedInserting(st'.t, st'.red, st'.bh, x);
  }

  lemma {:induction false} InnerState(s: seq<Node>, root: Node?, st: State, x: int, p: int, g: int, side: Side)
    requires Shows(s, root, st) && InsertingAt(st, x) && Clash(st.t, st.red, x, p, g, side)
             && Kid(st.t, Other(side), p) == x
    ensures CanRotate(st.t, side, p)
    ensures var t' := Rotate(st.t, side, p);
            && InsertingAt(st.(t := t'), p) && Clash(t', st.red, p, x, g, side) && Kid(t', side, x) == p
            && Kid(t', Other(side), g) == Kid(st.t, Other(side), g)
  {
    hide TreeOk, Rotate, BlackOk, RedOk;
    Around(st.t, p);
    InnerChild(st.t, st.red, st.bh, x, p, g, side);
  }

  /** A parent that is the left child of the grandparent. */
  method FixLeft(elm: Node, root: Node?, ghost s: seq<Node>, ghost st: State, ghost x: int)
    returns (elm': Node, root': Node?, ghost st': State, ghost x': int)
    requires Shows(s, root, st) && InsertingAt(st, x) && At(s, x) == elm
    requires elm.parent != null && elm.parent.red && elm.parent.parent != null && elm.parent == elm.parent.parent.left
    modifies s`left, s`right, s`parent, s`red
    ensures Shows(s, root', st') && InsertingAt(st', x') && At(s, x') == elm' && Climb(st', x') < Climb(st, x)
  {
    hide Linked, RedsAre, Rotate, Sorted, Balanced, Inserting, InsertingAt, Clash, Climb, SideOf;
    Family(s, root, st, x);
    var parent: Node := elm.parent;
    var gparent: Node := parent.parent;
    ghost var p, g := st.t.parent[x], st.t.parent[st.t.parent[x]];
    var tmp := gparent.right;
    if tmp != null && tmp.red {
      st' := PaintUncle(tmp, parent, gparent, root, s, st, x, p, g, Left);
      elm', root', x' := gparent, root, g;
    } else if parent.right == elm {
      InnerState(s, root, st, x, p, g, Left);
      var inner := RotateLeft(parent, root, s, st.t, p);
      root', st' := FinishLeft(parent, elm, gparent, inner, s, st.(t := Rotate(st.t, Left, p)), p, x, g);
      elm', x' := parent, p;
    } else {
      root', st' := FinishLeft(elm, parent, gparent, root, s, st, x, p, g);
      elm', x' := elm, x;
    }
  }

  /** The outer case: parent black, grandparent red, and a rotation. */
  method FinishLeft(elm: Node, parent: Node, gparent: Node, root: Node?, ghost s: seq<Node>, ghost st: State,
                    ghost x: int, ghost p: int, ghost g: int)
    returns (root': Node?, ghost st': State)
    requires Shows(s, root, st) && InsertingAt(st, x) && Clash(st.t, st.red, x, p, g, Left) && Kid(st.t, Left, p) == x
    requires !Red(st.red, Kid(st.t, Right, g)) && At(s, x) == elm && At(s, p) == parent && At(s, g) == gparent
    modifies s`left, s`right, s`parent, s`red
    ensures Shows(s, root', st') && InsertingAt(st', x) && Climb(st', x) == 0
  {
    hide LeftsAre, RightsAre, ParentsAre, TreeOk, RedsAre, Rotate, Sorted, Balanced, Inserting, Clash, Climb, SideOf,
         Paint;
    OuterState(st, x, p, g, Left);
    StoreRed(parent, false, s, st.red, p);
    StoreRed(gparent, true, s, Paint(st.red, p, false), g);
    root' := RotateRight(gparent, root, s, st.t, g);
    st' := OuterNext(st, p, g, Left);
  }

  /** A parent that is the right child of the grandparent. */
  method FixRight(elm: Node, root: Node?, ghost s: seq<Node>, ghost st: State, ghost x: int)
    returns (elm': Node, root': Node?, ghost st': State, ghost x': int)
    requires Shows(s, root, st) && InsertingAt(st, x) && At(s, x) == elm
    requires elm.parent != null && elm.parent.red && elm.parent.parent != null && elm.parent != elm.parent.parent.left
    modifies s`left, s`right, s`parent, s`red
    ensures Shows(s, root', st') && InsertingAt(st', x') && At(s, x') == elm' && Climb(st', x') < Climb(st, x)
  {
    hide Linked, RedsAre, Rotate, Sorted, Balanced, Inserting, InsertingAt, Clash, Climb, SideOf;
    Family(s, root, st, x);
    var parent: Node := elm.parent;
    var gparent: Node := parent.parent;
    ghost var p, g := st.t.parent[x], st.t.parent[st.t.parent[x]];
    var tmp := gparent.left;
    if tmp != null && tmp.red {
      st' := PaintUncle(tmp, parent, gparent, root, s, st, x, p, g, Right);
      elm', root', x' := gparent, root, g;
    } else if parent.left == elm {
      InnerState(s, root, st, x, p, g, Right);
      var inner := RotateRight(parent, root, s, st.t, p);
      root', st' := FinishRight(parent, elm, gparent, inner, s, st.(t := Rotate(st.t, Right, p)), p, x, g);
      elm', x' := parent, p;
    } else {
      root', st' := FinishRight(elm, parent, gparent, root, s, st, x, p, g);
      elm', x' := elm, x;
    }
  }

  /** The outer case: parent black, grandparent red, and a rotation. */
  method FinishRight(elm: Node, parent: Node, gparent: Node, root: Node?, ghost s: seq<Node>, ghost st: State,
                    ghost x: int, ghost p: int, ghost g: int)
    returns (root': Node?, ghost st': State)
    requires Shows(s, root, st) && InsertingAt(st, x) && Clash(st.t, st.red, x, p, g, Right) && Kid(st.t, Right, p) == x
    requires !Red(st.red, Kid(st.t, Left, g)) && At(s, x) == elm && At(s, p) == parent && At(s, g) == gparent
    modifies s`left, s`right, s`parent, s`red
    ensures Shows(s, root', st') && InsertingAt(st', x) && Climb(st', x) == 0
  {
    hide LeftsAre, RightsAre, ParentsAre, TreeOk, RedsAre, Rotate, Sorted, Balanced, Inserting, Clash, Climb, SideOf,
         Paint;
    OuterState(st, x, p, g, Right);
    StoreRed(parent, false, s, st.red, p);
    StoreRed(gparent, true, s, Paint(st.red, p, false), g);
    root' := RotateLeft(gparent, root, s, st.t, g);
    st' := OuterNext(st, p, g, Right);
  }

  /** The last step of an insertion: the root turns black. */
  method BlackenRoot(root: Node?, ghost s: seq<Node>, ghost st: State, ghost x: int) returns (ghost st': State)
    requires Shows(s, root, st) && InsertingAt(st, x) && 0 <= x < |s| && (s[x].parent != null ==> !s[x].parent.red)
    modifies s`red
    ensures Shows(s, root, st') && BalancedState(st')
  {
    hide LeftsAre, RightsAre, ParentsAre, TreeOk, RedsAre, Sorted, BlackOk, RedOk, Paint, Raise, Red;
    NodeOf(s, root, st, x);
    InsertDone(st.t, st.red, st.bh, x);
    StoreRed(root, false, s, st.red, st.t.root);
    st' := State(st.t, Paint(st.red, st.t.root, false),
                 if Red(st.red, st.t.root) then Raise(st.bh, st.t.root) else st.bh);
  }

  /** Restores the red-black conditions after a red leaf x has been hung into a balanced tree. */
  method InsertColor(elm0: Node, root0: Node?, ghost s: seq<Node>, ghost st0: State, ghost x0: int)
    returns (root: Node?, ghost st: State)
    requires Shows(s, root0, st0) && InsertingAt(st0, x0) && At(s, x0) == elm0
    modifies s`left, s`right, s`parent, s`red
    ensures Shows(s, root, st) && BalancedState(st)
  {
    hide Linked, RedsAre, Rotate, Sorted, Balanced, Inserting, Shows, InsertingAt, BalancedState, Climb;
    var elm := elm0;
    root, st := root0, st0;
    ghost var x := x0;
    while elm.parent != null && elm.parent.red
      invariant Shows(s, root, st) && InsertingAt(st, x) && At(s, x) == elm
      decreases Climb(st, x)
    {
      Family(s, root, st, x);
      if elm.parent == elm.parent.parent.left {
        elm, root, st, x := FixLeft(elm, root, s, st, x);
      } else {
        elm, root, st, x := FixRight(elm, root, s, st, x);
      }
    }
    st := BlackenRoot(root, s, st, x);
  }

  // ---------- the search ----------

  /** Everything before position a is below the key, everything from b on is above it. */
  ghost predicate Between(s: seq<Node>, key: int, a: int, b: int) {
    && 0 <= a <= b <= |s|
    && (forall i :: 0 <= i < a ==> s[i].key < key)
    && (forall i :: b <= i < |s| ==> key < s[i].key)
  }

  /** The key belongs below position k, or, once k is -1, at the free place on side `side` of `par`. */
  ghost predicate Searching(s: seq<Node>, t: Shape, key: int, k: int, par: int, side: Side) {
    && Sized(t, |s|)
    && if k == -1 then
         CanHang(t, par, side) && Between(s, key, LeafPos(par, side), LeafPos(par, side))
       else Has(t, k) && Between(s, key, t.lo[k], t.hi[k] + 1)
  }

  lemma SearchStart(s: seq<Node>, root: Node?, t: Shape, key: int)
    requires Linked(s, root, t)
    ensures root == At(s, t.root) && Searching(s, t, key, t.root, -1, Right) && Sized(t, |s|) && -1 <= t.root < |s|
  {
    hide LeftsAre, RightsAre, ParentsAre;
  }

  /** One comparison takes the search to a child. */
  lemma {:induction false} SearchStep(s: seq<Node>, root: Node?, t: Shape, key: int, k: int, par: int, side: Side,
                                      next: Side)
    requires Linked(s, root, t) && Searching(s, t, key, k, par, side) && 0 <= k < |s|
    requires next == if key < s[k].key then Left else Right
    requires key != s[k].key
    ensures Sized(t, |s|) && Searching(s, t, key, Kid(t, next, k), k, next)
    ensures Kid(t, next, k) == -1 || (Has(t, Kid(t, next, k)) &&
              t.hi[Kid(t, next, k)] - t.lo[Kid(t, next, k)] < t.hi[k] - t.lo[k])
    ensures t.lo[k] <= t.hi[k]
  {
    hide LeftsAre, RightsAre, ParentsAre, TreeOk;
    KidFacts(t, next, k);
    if Kid(t, next, k) != -1 {
      KidFacts(t, Left, Kid(t, next, k));
    }
  }

  lemma NothingFound(s: seq<Node>, t: Shape, key: int, par: int, side: Side)
    requires Searching(s, t, key, -1, par, side)
    ensures forall i :: 0 <= i < |s| ==> s[i].key != key
  {
  }

  ghost function Inserted(s: seq<Node>, pos: int, x: Node): seq<Node> {
    if 0 <= pos <= |s| then s[..pos] + [x] + s[pos..] else s
  }

  lemma InsertedSorted(s: seq<Node>, t: Shape, x: Node, par: int, side: Side)
    requires Sorted(s) && Searching(s, t, x.key, -1, par, side)
    ensures Sorted(Inserted(s, LeafPos(par, side), x))
  {
  }

  // ---------- hanging a new leaf ----------

  lemma InsertedAt(s: seq<Node>, pos: int, x: Node, k: int)
    requires 0 <= pos <= |s|
    ensures At(Inserted(s, pos, x), Shift(pos, k)) == At(s, k) && At(Inserted(s, pos, x), pos) == x
    ensures |Inserted(s, pos, x)| == |s| + 1
  {
  }

  lemma {:induction false} GrowLefts(s: seq<Node>, row: seq<int>, pos: nat, x: Node)
    requires LeftsAre(s, row) && pos <= |s| && x.left == null
    ensures LeftsAre(Inserted(s, pos, x), Grow(row, pos, pos, -1))
  {
    hide Inserted;
    InsertedAt(s, pos, x, 0);
    forall m | 0 <= m <= |s|
      ensures Inserted(s, pos, x)[m].left == At(Inserted(s, pos, x), Grow(row, pos, pos, -1)[m])
    {
      if m != pos {
        InsertedAt(s, pos, x, Unshift(pos, m));
        InsertedAt(s, pos, x, row[Unshift(pos, m)]);
      }
    }
  }

  lemma {:induction false} GrowRights(s: seq<Node>, row: seq<int>, pos: nat, x: Node)
    requires RightsAre(s, row) && pos <= |s| && x.right == null
    ensures RightsAre(Inserted(s, pos, x), Grow(row, pos, pos, -1))
  {
    hide Inserted;
    InsertedAt(s, pos, x, 0);
    forall m | 0 <= m <= |s|
      ensures Inserted(s, pos, x)[m].right == At(Inserted(s, pos, x), Grow(row, pos, pos, -1)[m])
    {
      if m != pos {
        InsertedAt(s, pos, x, Unshift(pos, m));
        InsertedAt(s, pos, x, row[Unshift(pos, m)]);
      }
    }
  }

  lemma {:induction false} GrowParents(s: seq<Node>, row: seq<int>, pos: nat, x: Node, par: int)
    requires ParentsAre(s, row) && pos <= |s| && x.parent == At(s, par)
    ensures ParentsAre(Inserted(s, pos, x), Grow(row, pos, pos, Shift(pos, par)))
  {
    hide Inserted;
    InsertedAt(s, pos, x, par);
    forall m | 0 <= m <= |s|
      ensures Inserted(s, pos, x)[m].parent == At(Inserted(s, pos, x), Grow(row, pos, pos, Shift(pos, par))[m])
    {
      if m != pos {
        InsertedAt(s, pos, x, Unshift(pos, m));
        InsertedAt(s, pos, x, row[Unshift(pos, m)]);
      }
    }
  }

  lemma AddLeafRows(t: Shape, par: int, side: Side)
    requires CanHang(t, par, side)
    ensures var pos := LeafPos(par, side);
            var up := if par == -1 then -1 else Shift(pos, par);
            var l, r := Grow(t.left, pos, pos, -1), Grow(t.right, pos, pos, -1);
            && AddLeaf(t, par, side).left == (if side == Left && par != -1 then Put(l, up, pos) else l)
            && AddLeaf(t, par, side).right == (if side == Right && par != -1 then Put(r, up, pos) else r)
            && AddLeaf(t, par, side).parent == Grow(t.parent, pos, pos, up)
  {
  }

  /** The link to a new child, from its parent or from the root. */
  method StoreBelow(elm: Node, parent: Node?, comp: int, root: Node?, ghost s: seq<Node>, ghost l: seq<int>,
                    ghost r: seq<int>,
                    ghost up: int, ghost pos: int, ghost side: Side)
    returns (root': Node?)
    requires Sorted(s) && LeftsAre(s, l) && RightsAre(s, r) && -1 <= up < |s|
    requires At(s, up) == parent && At(s, pos) == elm && (comp < 0 <==> side == Left)
    modifies s`left, s`right
    ensures LeftsAre(s, if side == Left && up != -1 then Put(l, up, pos) else l)
    ensures RightsAre(s, if side == Right && up != -1 then Put(r, up, pos) else r)
    ensures root' == if up == -1 then elm else root
  {
    hide LeftsAre, RightsAre, Put, Sorted;
    root' := root;
    if parent != null {
      if comp < 0 {
        StoreLeft(parent, elm, s, l, up, pos);
      } else {
        StoreRight(parent, elm, s, r, up, pos);
      }
    } else {
      root' := elm;
    }
  }

  method HangLeaf(elm: Node, parent: Node?, comp: int, root: Node?, ghost s: seq<Node>, ghost t: Shape,
                  ghost par: int, ghost side: Side)
    returns (root': Node?)
    requires Linked(s, root, t) && elm !in s && Searching(s, t, elm.key, -1, par, side)
    requires parent == At(s, par) && (comp < 0 <==> side == Left)
    modifies s`left, s`right, elm`left, elm`right, elm`parent, elm`red
    ensures Linked(Inserted(s, LeafPos(par, side), elm), root', AddLeaf(t, par, side))
    ensures elm.red
  {
    hide TreeOk, AddLeaf, Sorted, LeftsAre, RightsAre, ParentsAre, Grow, Put;
    AddLeafKeepsTree(t, par, side);
    AddLeafRoot(t, par, side);
    AddLeafRows(t, par, side);
    InsertedSorted(s, t, elm, par, side);
    elm.parent := parent;
    elm.left, elm.right := null, null;
    elm.red := true;
    ghost var pos := LeafPos(par, side);
    ghost var s' := Inserted(s, pos, elm);
    InsertedAt(s, pos, elm, par);
    InsertedAt(s, pos, elm, t.root);
    GrowLefts(s, t.left, pos, elm);
    GrowRights(s, t.right, pos, elm);
    GrowParents(s, t.parent, pos, elm, par);
    root' := StoreBelow(elm, parent, comp, root, s', Grow(t.left, pos, pos, -1), Grow(t.right, pos, pos, -1),
                        if par == -1 then -1 else Shift(pos, par), pos, side);
  }

  /** The colours of the order with a new red node in it. */
  lemma GrowReds(s: seq<Node>, red: seq<bool>, pos: nat, x: Node)
    requires RedsAre(s, red) && pos <= |s| && x.red
    ensures RedsAre(Inserted(s, pos, x), red[..pos] + [true] + red[pos..])
  {
  }

  // ---------- removal ----------

  ghost predicate ShortState(st: State, x: int, g: int, side: Side) {
    Short(st.t, st.red, st.bh, x, g, side)
  }

  /** The rebalancing loop goes on: x is black and not the root. */
  ghost predicate GoesOn(st: State, x: int, g: int, side: Side) {
    ShortState(st, x, g, side) && !Red(st.red, x) && x != st.t.root
  }

  /** How much is left to climb in a removal. */
  ghost function Rest(st: State, x: int, g: int): int {
    if Sized(st.t, |st.t.left|) && Has(st.t, g) && !Red(st.red, x) then |st.t.left| - (st.t.hi[g] - st.t.lo[g]) else 0
  }

  /** The short side's parent, its sibling and the sibling's children. */
  lemma {:induction false} ShortFamily(s: seq<Node>, root: Node?, st: State, x: int, g: int, side: Side)
    requires Shows(s, root, st) && GoesOn(st, x, g, side)
    ensures Sized(st.t, |s|) && Sorted(s) && Has(st.t, g) && Kid(st.t, side, g) == x
    ensures var w := Kid(st.t, Other(side), g);
            && Has(st.t, w) && w != x && st.t.parent[w] == g
            && s[w].red == Red(st.red, w) && s[g].red == Red(st.red, g)
            && s[g].left == At(s, st.t.left[g]) && s[g].right == At(s, st.t.right[g])
    ensures Rest(st, x, g) > 0
  {
    hide LeftsAre, RightsAre, ParentsAre, TreeOk, RedsAre, BlackOk, RedOk;
    SiblingExists(st.t, st.red, st.bh, x, g, side);
    NodeOf(s, root, st, g);
    NodeOf(s, root, st, Kid(st.t, Other(side), g));
    ParentEnds(st.t, g);
  }

  lemma ParentEnds(t: Shape, g: int)
    requires TreeOk(t) && Has(t, g)
    ensures Sized(t, |t.left|) && 0 <= t.hi[g] - t.lo[g] < |t.left|
  {
    KidFacts(t, Left, g);
  }

  /** A black sibling without red children turns red, and the shortage moves up. */
  method PaintSibling(tmp: Node, ghost root: Node?, ghost s: seq<Node>, ghost st: State, ghost x: int, ghost g: int,
                      ghost side: Side, ghost w: int)
    returns (ghost st': State, ghost g': int, ghost side': Side)
    requires Shows(s, root, st) && GoesOn(st, x, g, side) && Sized(st.t, |s|) && Has(st.t, g)
    requires w == Kid(st.t, Other(side), g) && At(s, w) == tmp && !Red(st.red, w) && Has(st.t, w)
    requires !Red(st.red, st.t.left[w]) && !Red(st.red, st.t.right[w])
    modifies s`red
    ensures Shows(s, root, st') && ShortState(st', g, g', side')
    ensures g' == st.t.parent[g] && -1 <= g' < |s| && At(s, g') == s[g].parent
    ensures st'.t == st.t && Red(st'.red, g) == Red(st.red, g)
  {
    hide LeftsAre, RightsAre, ParentsAre, TreeOk, RedsAre, Sorted, Short, Lower;
    NodeOf(s, root, st, g);
    SiblingExists(st.t, st.red, st.bh, x, g, side);
    Around(st.t, g);
    BlackNephews(st.t, st.red, st.bh, x, g, side, w);
    StoreRed(tmp, true, s, st.red, w);
    st' := State(st.t, Paint(st.red, w, true), Lower(Lower(st.bh, w), g));
    g' := st.t.parent[g];
    side' := if Has(st.t, g') then SideOf(st.t, g', g) else Left;
  }

  /** Moving the shortage up to g leaves less to climb, also after a rotation that made g red. */
  lemma RestDrops(s: seq<Node>, root: Node?, st: State, st1: State, st2: State, x: int, g: int, g': int, side: Side)
    requires GoesOn(st, x, g, side) && Rest(st, x, g) > 0 && (st1 == st || Red(st1.red, g))
    requires Sized(st1.t, |st1.t.left|) && Has(st1.t, g) && st2.t == st1.t && g' == st1.t.parent[g]
    requires Red(st2.red, g) == Red(st1.red, g)
    ensures Rest(st2, g, g') < Rest(st, x, g)
  {
    if st1 == st && Has(st.t, g') {
      ParentIsWider(st.t, g, g');
    }
  }

  lemma NoRest(st: State, x: int)
    ensures Rest(st, x, -1) == 0
  {
  }

  /** A balanced tree is short of nothing at its root. */
  lemma BalancedShort(s: seq<Node>, root: Node?, st: State)
    requires Shows(s, root, st) && BalancedState(st)
    ensures ShortState(st, st.t.root, -1, Left) && root == At(s, st.t.root) && -1 <= st.t.root < |s|
  {
    if st.t.root != -1 {
      Around(st.t, st.t.root);
    }
  }

  /** The sibling on the right; a red one is rotated away first. */
  method SiblingRight(parent: Node, root: Node?, ghost s: seq<Node>, ghost st: State, ghost x: int, ghost g: int)
    returns (tmp: Node, root': Node?, ghost st': State)
    requires Shows(s, root, st) && GoesOn(st, x, g, Left) && At(s, g) == parent
    modifies s`left, s`right, s`parent, s`red
    ensures Shows(s, root', st') && GoesOn(st', x, g, Left)
    ensures Sized(st'.t, |s|) && Has(st'.t, g)
    ensures At(s, Kid(st'.t, Right, g)) == tmp && !Red(st'.red, Kid(st'.t, Right, g))
    ensures st' == st || Red(st'.red, g)
  {
    hide LeftsAre, RightsAre, ParentsAre, TreeOk, RedsAre, Rotate, Sorted, Short, Paint, Raise, Lower, Red;
    ShortFamily(s, root, st, x, g, Left);
    root', st' := root, st;
    tmp := parent.right;
    if tmp.red {
      ghost var t, w := st.t, Kid(st.t, Right, g);
      RedSibling(t, st.red, st.bh, x, g, Left, w);
      StoreRed(tmp, false, s, st.red, w);
      StoreRed(parent, true, s, Paint(st.red, w, false), g);
      root' := RotateLeft(parent, root, s, t, g);
      st' := State(Rotate(t, Left, g), Paint(Paint(st.red, w, false), g, true), Raise(Lower(st.bh, g), w));
      ShortFamily(s, root', st', x, g, Left);
      tmp := parent.right;
    }
  }

  /** One round of the rebalancing loop with the short side on the left. */
  method FixShortLeft(elm: Node?, parent: Node, root: Node?, ghost s: seq<Node>, ghost st: State, ghost x: int,
                      ghost g: int)
    returns (elm': Node?, parent': Node?, root': Node?, ghost st': State, ghost x': int, ghost g': int,
             ghost side': Side)
    requires Shows(s, root, st) && GoesOn(st, x, g, Left) && At(s, g) == parent && At(s, x) == elm
    modifies s`left, s`right, s`parent, s`red
    ensures Shows(s, root', st') && ShortState(st', x', g', side')
    ensures At(s, x') == elm' && At(s, g') == parent' && -1 <= x' < |s| && -1 <= g' < |s|
    ensures Rest(st', x', g') < Rest(st, x, g)
  {
    hide Linked, RedsAre, Rotate, Sorted, Short, Red, Rest;
    ShortFamily(s, root, st, x, g, Left);
    var tmp;
    tmp, root', st' := SiblingRight(parent, root, s, st, x, g);
    ShortFamily(s, root', st', x, g, Left);
    ghost var w := Kid(st'.t, Right, g);
    NodeOf(s, root', st', w);
    if (tmp.left == null || !tmp.left.red) && (tmp.right == null || !tmp.right.red) {
      ghost var before := st';
      st', g', side' := PaintSibling(tmp, root', s, st', x, g, Left, w);
      elm', parent' := parent, parent.parent;
      x' := g;
      RestDrops(s, root, st, before, st', x, g, g', Left);
    } else {
      ghost var st2 := st';
      if tmp.right == null || !tmp.right.red {
        tmp, root', st2 := NearLeft(tmp, root', s, st', x, g, w);
        tmp := parent.right;
      }
      root', st' := FarRight(tmp, parent, root', s, st2, x, g);
      elm', parent' := root', null;
      x', g', side' := st'.t.root, -1, Left;
      BalancedShort(s, root', st');
      NoRest(st', x');
    }
  }

  /** The sibling's red left child takes its place. */
  method NearLeft(tmp: Node, root: Node?, ghost s: seq<Node>, ghost st: State, ghost x: int, ghost g: int, ghost w: int)
    returns (tmp': Node, root': Node?, ghost st': State)
    requires Shows(s, root, st) && GoesOn(st, x, g, Left) && Sized(st.t, |s|) && Has(st.t, g)
    requires w == Kid(st.t, Right, g) && At(s, w) == tmp && !Red(st.red, w) && Has(st.t, w)
    requires Red(st.red, st.t.left[w]) && !Red(st.red, st.t.right[w])
    modifies s`left, s`right, s`parent, s`red
    ensures Shows(s, root', st') && GoesOn(st', x, g, Left) && Sized(st'.t, |s|) && Has(st'.t, g)
    ensures var n := Kid(st'.t, Right, g);
            Has(st'.t, n) && At(s, n) == tmp' == s[g].right && !Red(st'.red, n) && Red(st'.red, st'.t.right[n])
  {
    hide LeftsAre, RightsAre, ParentsAre, TreeOk, RedsAre, Rotate, Sorted, Short, Paint, Raise, Lower, Red;
    NodeOf(s, root, st, w);
    ghost var t, n := st.t, st.t.left[w];
    IsRed(st.red, n);
    RedNear(t, st.red, st.bh, x, g, Left, w, n);
    var oleft := tmp.left;
    if oleft != null {
      StoreRed(oleft, false, s, st.red, n);
    }
    StoreRed(tmp, true, s, Paint(st.red, n, false), w);
    root' := RotateRight(tmp, root, s, t, w);
    st' := State(Rotate(t, Right, w), Paint(Paint(st.red, n, false), w, true), Raise(Lower(st.bh, w), n));
    NodeOf(s, root', st', g);
    tmp' := oleft;
  }

  /** The last round: the sibling takes the parent's colour and its place. */
  method FarRight(tmp: Node, parent: Node, root: Node?, ghost s: seq<Node>, ghost st: State, ghost x: int, ghost g: int)
    returns (root': Node?, ghost st': State)
    requires Shows(s, root, st) && GoesOn(st, x, g, Left) && Sized(st.t, |s|) && Has(st.t, g) && At(s, g) == parent
    requires var w := Kid(st.t, Right, g);
             Has(st.t, w) && At(s, w) == tmp && !Red(st.red, w) && Red(st.red, st.t.right[w])
    modifies s`left, s`right, s`parent, s`red
    ensures Shows(s, root', st') && BalancedState(st')
  {
    hide LeftsAre, RightsAre, ParentsAre, TreeOk, RedsAre, Rotate, Sorted, Short, Paint, Red;
    ghost var t, w := st.t, Kid(st.t, Right, g);
    NodeOf(s, root, st, w);
    NodeOf(s, root, st, g);
    ghost var f := t.right[w];
    IsRed(st.red, f);
    SiblingExists(t, st.red, st.bh, x, g, Left);
    RedFar(t, st.red, st.bh, x, g, Left, w, f);
    StoreRed(tmp, parent.red, s, st.red, w);
    StoreRed(parent, false, s, Paint(st.red, w, Red(st.red, g)), g);
    if tmp.right != null {
      StoreRed(tmp.right, false, s, Paint(Paint(st.red, w, Red(st.red, g)), g, false), f);
    }
    root' := RotateLeft(parent, root, s, t, g);
    st' := State(Rotate(t, Left, g), FarPaint(st.red, w, g, f), FarHeights(st.bh, x, w, g, f));
  }

  /** The sibling on the left; a red one is rotated away first. */
  method SiblingLeft(parent: Node, root: Node?, ghost s: seq<Node>, ghost st: State, ghost x: int, ghost g: int)
    returns (tmp: Node, root': Node?, ghost st': State)
    requires Shows(s, root, st) && GoesOn(st, x, g, Right) && At(s, g) == parent
    modifies s`left, s`right, s`parent, s`red
    ensures Shows(s, root', st') && GoesOn(st', x, g, Right)
    ensures Sized(st'.t, |s|) && Has(st'.t, g)
    ensures At(s, Kid(st'.t, Left, g)) == tmp && !Red(st'.red, Kid(st'.t, Left, g))
    ensures st' == st || Red(st'.red, g)
  {
    hide LeftsAre, RightsAre, ParentsAre, TreeOk, RedsAre, Rotate, Sorted, Short, Paint, Raise, Lower, Red;
    ShortFamily(s, root, st, x, g, Right);
    root', st' := root, st;
    tmp := parent.left;
    if tmp.red {
      ghost var t, w := st.t, Kid(st.t, Left, g);
      RedSibling(t, st.red, st.bh, x, g, Right, w);
      StoreRed(tmp, false, s, st.red, w);
      StoreRed(parent, true, s, Paint(st.red, w, false), g);
      root' := RotateRight(parent, root, s, t, g);
      st' := State(Rotate(t, Right, g), Paint(Paint(st.red, w, false), g, true), Raise(Lower(st.bh, g), w));
      ShortFamily(s, root', st', x, g, Right);
      tmp := parent.left;
    }
  }

  /** One round of the rebalancing loop with the short side on the right. */
  method FixShortRight(elm: Node?, parent: Node, root: Node?, ghost s: seq<Node>, ghost st: State, ghost x: int,
                       ghost g: int)
    returns (elm': Node?, parent': Node?, root': Node?, ghost st': State, ghost x': int, ghost g': int,
             ghost side': Side)
    requires Shows(s, root, st) && GoesOn(st, x, g, Right) && At(s, g) == parent && At(s, x) == elm
    modifies s`left, s`right, s`parent, s`red
    ensures Shows(s, root', st') && ShortState(st', x', g', side')
    ensures At(s, x') == elm' && At(s, g') == parent' && -1 <= x' < |s| && -1 <= g' < |s|
    ensures Rest(st', x', g') < Rest(st, x, g)
  {
    hide Linked, RedsAre, Rotate, Sorted, Short, Red, Rest;
    ShortFamily(s, root, st, x, g, Right);
    var tmp;
    tmp, root', st' := SiblingLeft(parent, root, s, st, x, g);
    ShortFamily(s, root', st', x, g, Right);
    ghost var w := Kid(st'.t, Left, g);
    NodeOf(s, root', st', w);
    if (tmp.right == null || !tmp.right.red) && (tmp.left == null || !tmp.left.red) {
      ghost var before := st';
      st', g', side' := PaintSibling(tmp, root', s, st', x, g, Right, w);
      elm', parent' := parent, parent.parent;
      x' := g;
      RestDrops(s, root, st, before, st', x, g, g', Right);
    } else {
      ghost var st2 := st';
      if tmp.left == null || !tmp.left.red {
        tmp, root', st2 := NearRight(tmp, root', s, st', x, g, w);
        tmp := parent.left;
      }
      root', st' := FarLeft(tmp, parent, root', s, st2, x, g);
      elm', parent' := root', null;
      x', g', side' := st'.t.root, -1, Left;
      BalancedShort(s, root', st');
      NoRest(st', x');
    }
  }

  /** The sibling's red right child takes its place. */
  method NearRight(tmp: Node, root: Node?, ghost s: seq<Node>, ghost st: State, ghost x: int, ghost g: int,
                   ghost w: int)
    returns (tmp': Node, root': Node?, ghost st': State)
    requires Shows(s, root, st) && GoesOn(st, x, g, Right) && Sized(st.t, |s|) && Has(st.t, g)
    requires w == Kid(st.t, Left, g) && At(s, w) == tmp && !Red(st.red, w) && Has(st.t, w)
    requires Red(st.red, st.t.right[w]) && !Red(st.red, st.t.left[w])
    modifies s`left, s`right, s`parent, s`red
    ensures Shows(s, root', st') && GoesOn(st', x, g, Right) && Sized(st'.t, |s|) && Has(st'.t, g)
    ensures var n := Kid(st'.t, Left, g);
            Has(st'.t, n) && At(s, n) == tmp' == s[g].left && !Red(st'.red, n) && Red(st'.red, st'.t.left[n])
  {
    hide LeftsAre, RightsAre, ParentsAre, TreeOk, RedsAre, Rotate, Sorted, Short, Paint, Raise, Lower, Red;
    NodeOf(s, root, st, w);
    ghost var t, n := st.t, st.t.right[w];
    IsRed(st.red, n);
    RedNear(t, st.red, st.bh, x, g, Right, w, n);
    var oright := tmp.right;
    if oright != null {
      StoreRed(oright, false, s, st.red, n);
    }
    StoreRed(tmp, true, s, Paint(st.red, n, false), w);
    root' := RotateLeft(tmp, root, s, t, w);
    st' := State(Rotate(t, Left, w), Paint(Paint(st.red, n, false), w, true), Raise(Lower(st.bh, w), n));
    NodeOf(s, root', st', g);
    tmp' := oright;
  }

  /** The last round: the sibling takes the parent's colour and its place. */
  method FarLeft(tmp: Node, parent: Node, root: Node?, ghost s: seq<Node>, ghost st: State, ghost x: int, ghost g: int)
    returns (root': Node?, ghost st': State)
    requires Shows(s, root, st) && GoesOn(st, x, g, Right) && Sized(st.t, |s|) && Has(st.t, g) && At(s, g) == parent
    requires var w := Kid(st.t, Left, g);
             Has(st.t, w) && At(s, w) == tmp && !Red(st.red, w) && Red(st.red, st.t.left[w])
    modifies s`left, s`right, s`parent, s`red
    ensures Shows(s, root', st') && BalancedState(st')
  {
    hide LeftsAre, RightsAre, ParentsAre, TreeOk, RedsAre, Rotate, Sorted, Short, Paint, Red;
    ghost var t, w := st.t, Kid(st.t, Left, g);
    NodeOf(s, root, st, w);
    NodeOf(s, root, st, g);
    ghost var f := t.left[w];
    IsRed(st.red, f);
    SiblingExists(t, st.red, st.bh, x, g, Right);
    RedFar(t, st.red, st.bh, x, g, Right, w, f);
    StoreRed(tmp, parent.red, s, st.red, w);
    StoreRed(parent, false, s, Paint(st.red, w, Red(st.red, g)), g);
    if tmp.left != null {
      StoreRed(tmp.left, false, s, Paint(Paint(st.red, w, Red(st.red, g)), g, false), f);
    }
    root' := RotateRight(parent, root, s, t, g);
    st' := State(Rotate(t, Right, g), FarPaint(st.red, w, g, f), FarHeights(st.bh, x, w, g, f));
  }

  /** Makes up for the missing black node below `parent`. */
  method RemoveColor(parent0: Node?, elm0: Node?, root0: Node?, ghost s: seq<Node>, ghost st0: State,
                     ghost x0: int, ghost g0: int, ghost side0: Side)
    returns (root: Node?, ghost st: State)
    requires Shows(s, root0, st0) && ShortState(st0, x0, g0, side0)
    requires At(s, x0) == elm0 && At(s, g0) == parent0 && -1 <= x0 < |s| && -1 <= g0 < |s|
    modifies s`left, s`right, s`parent, s`red
    ensures Shows(s, root, st) && BalancedState(st)
  {
    hide LeftsAre, RightsAre, ParentsAre, TreeOk, RedsAre, Sorted, Short, Rest, Red, Paint, Raise, Balanced;
    var parent, elm := parent0, elm0;
    root, st := root0, st0;
    ghost var x, g, side := x0, g0, side0;
    ElmOf(s, root, st, x);
    while (elm == null || !elm.red) && elm != root
      invariant Shows(s, root, st) && ShortState(st, x, g, side)
      invariant At(s, x) == elm && At(s, g) == parent && -1 <= x < |s| && -1 <= g < |s|
      invariant (elm == root <==> x == st.t.root) && (elm != null ==> elm.red == Red(st.red, x)) && !Red(st.red, -1)
      decreases Rest(st, x, g)
    {
      ShortFamily(s, root, st, x, g, side);
      SamePlace(s, st.t.left[g], x);
      if parent.left == elm {
        SideIs(st, x, g, side, Left);
        elm, parent, root, st, x, g, side := FixShortLeft(elm, parent, root, s, st, x, g);
      } else {
        SideIs(st, x, g, side, Right);
        elm, parent, root, st, x, g, side := FixShortRight(elm, parent, root, s, st, x, g);
      }
      ElmOf(s, root, st, x);
    }
    RemoveDone(st.t, st.red, st.bh, x, g, side);
    PaintNothing(st.red);
    if elm != null {
      StoreRed(elm, false, s, st.red, x);
    }
    st := State(st.t, Paint(st.red, x, false), if Red(st.red, x) then Raise(st.bh, x) else st.bh);
  }

  lemma PaintNothing(red: seq<bool>)
    ensures Paint(red, -1, false) == red
  {
  }

  lemma ElmOf(s: seq<Node>, root: Node?, st: State, x: int)
    requires Shows(s, root, st) && -1 <= x < |s|
    ensures At(s, x) == root <==> x == st.t.root
    ensures x != -1 ==> s[x].red == Red(st.red, x)
    ensures !Red(st.red, -1)
  {
    hide TreeOk, LeftsAre, RightsAre, ParentsAre;
    RootPlace(st.t);
    SamePlace(s, x, st.t.root);
  }

  lemma RootPlace(t: Shape)
    requires TreeOk(t)
    ensures -1 <= t.root < |t.left|
  {
  }

  /** The test `left child of the parent` tells the side, even if there is no node there. */
  lemma SideIs(st: State, x: int, g: int, side: Side, found: Side)
    requires GoesOn(st, x, g, side) && Has(st.t, g) && Sized(st.t, |st.t.left|)
    requires found == if st.t.left[g] == x then Left else Right
    ensures side == found
  {
    SiblingExists(st.t, st.red, st.bh, x, g, side);
  }

  // ---------- taking a node out ----------

  ghost function Without(s: seq<Node>, e: int): seq<Node> {
    if 0 <= e < |s| then s[..e] + s[e + 1..] else s
  }

  lemma WithoutAt(s: seq<Node>, e: int, k: int)
    requires 0 <= e < |s|
    ensures |Without(s, e)| == |s| - 1
    ensures k != e ==> At(Without(s, e), Unshift(e, k)) == At(s, k)
  {
  }

  lemma WithoutSorted(s: seq<Node>, e: int)
    requires Sorted(s)
    ensures Sorted(Without(s, e))
  {
  }

  /** No link but the one stored at e leads to e. */
  ghost predicate NoLinkTo(row: seq<int>, e: int) {
    forall k :: 0 <= k < |row| && k != e ==> row[k] != e
  }

  lemma {:induction false} ShrinkLefts(s: seq<Node>, row: seq<int>, e: nat)
    requires LeftsAre(s, row) && e < |s| && NoLinkTo(row, e)
    ensures LeftsAre(Without(s, e), Shrink(row, e, e))
  {
    hide Without;
    WithoutAt(s, e, 0);
    forall m | 0 <= m < |s| - 1
      ensures Without(s, e)[m].left == At(Without(s, e), Shrink(row, e, e)[m])
    {
      WithoutAt(s, e, Shift(e, m));
      WithoutAt(s, e, row[Shift(e, m)]);
    }
  }

  lemma {:induction false} ShrinkRights(s: seq<Node>, row: seq<int>, e: nat)
    requires RightsAre(s, row) && e < |s| && NoLinkTo(row, e)
    ensures RightsAre(Without(s, e), Shrink(row, e, e))
  {
    hide Without;
    WithoutAt(s, e, 0);
    forall m | 0 <= m < |s| - 1
      ensures Without(s, e)[m].right == At(Without(s, e), Shrink(row, e, e)[m])
    {
      WithoutAt(s, e, Shift(e, m));
      WithoutAt(s, e, row[Shift(e, m)]);
    }
  }

  lemma {:induction false} ShrinkParents(s: seq<Node>, row: seq<int>, e: nat)
    requires ParentsAre(s, row) && e < |s| && NoLinkTo(row, e)
    ensures ParentsAre(Without(s, e), Shrink(row, e, e))
  {
    hide Without;
    WithoutAt(s, e, 0);
    forall m | 0 <= m < |s| - 1
      ensures Without(s, e)[m].parent == At(Without(s, e), Shrink(row, e, e)[m])
    {
      WithoutAt(s, e, Shift(e, m));
      WithoutAt(s, e, row[Shift(e, m)]);
    }
  }

  lemma ShrinkReds(s: seq<Node>, red: seq<bool>, e: nat)
    requires RedsAre(s, red) && e < |s|
    ensures RedsAre(Without(s, e), red[..e] + red[e + 1..])
  {
  }

  /** The rows after position e has been bypassed: nothing leads to e any more. */
  lemma BypassRows(t: Shape, e: int)
    requires TreeOk(t) && Has(t, e) && (t.left[e] == -1 || t.right[e] == -1)
    ensures Sized(t, |t.left|) && t.parent[e] < |t.left|
    ensures var c, g, b := OnlyKid(t, e), t.parent[e], Bypass(t, e);
            && b.left == HangAt(t, Left, t.left, g, e, c) && b.right == HangAt(t, Right, t.right, g, e, c)
            && b.parent == Put(t.parent, c, g) && b.root == (if g < 0 then c else t.root)
            && NoLinkTo(b.left, e) && NoLinkTo(b.right, e) && NoLinkTo(b.parent, e) && b.root != e
            && |b.left| == |b.right| == |b.parent| == |t.left|
  {
    Around(t, e);
    forall k | Has(t, k) && k != e
      ensures Bypass(t, e).left[k] != e && Bypass(t, e).right[k] != e && Bypass(t, e).parent[k] != e
    {
      OnlyParent(t, e, k);
      Around(t, k);
    }
  }

  /** The child of a node with at most one child takes its place. */
  method Unlink(elm: Node, child: Node?, root: Node?, ghost s: seq<Node>, ghost t: Shape, ghost e: int)
    returns (parent: Node?, root': Node?)
    requires Linked(s, root, t) && Has(t, e) && (t.left[e] == -1 || t.right[e] == -1)
    requires At(s, e) == elm && child == if elm.left == null then elm.right else elm.left
    modifies s`left, s`right, s`parent
    ensures t.parent[e] < |t.left| && Linked(Without(s, e), root', Splice(t, e))
    ensures elm.parent == old(elm.parent) == parent
  {
    hide LeftsAre, RightsAre, ParentsAre, TreeOk, Sorted, Without, HangAt, Put, Shrink, SideOf;
    LinksOf(s, root, t, e);
    Around(t, e);
    ghost var c, g := OnlyKid(t, e), t.parent[e];
    BypassRows(t, e);
    SpliceKeepsTree(t, e);
    WithoutSorted(s, e);
    SamePlace(s, c, e);
    SamePlace(s, g, e);
    if g != -1 {
      LinksAbove(s, root, t, e);
    }
    parent := elm.parent;
    Adopt(child, parent, s, t.parent, c, g);
    root' := Replace(elm, child, parent, root, s, t, t.left, t.right, g, e, c);
    ShrinkLefts(s, Bypass(t, e).left, e);
    ShrinkRights(s, Bypass(t, e).right, e);
    ShrinkParents(s, Bypass(t, e).parent, e);
    WithoutAt(s, e, Bypass(t, e).root);
  }

  /** The links of s, where x has replaced the node at position d as a target and as a holder of links. */
  ghost predicate LeftsBut(s: seq<Node>, row: seq<int>, d: int, x: Node)
    reads s`left
  {
    |row| == |s| && forall k :: 0 <= k < |s| && k != d ==> s[k].left == if row[k] == d then x else At(s, row[k])
  }

  ghost predicate RightsBut(s: seq<Node>, row: seq<int>, d: int, x: Node)
    reads s`right
  {
    |row| == |s| && forall k :: 0 <= k < |s| && k != d ==> s[k].right == if row[k] == d then x else At(s, row[k])
  }

  ghost predicate ParentsBut(s: seq<Node>, row: seq<int>, d: int, x: Node)
    reads s`parent
  {
    |row| == |s| && forall k :: 0 <= k < |s| && k != d ==> s[k].parent == if row[k] == d then x else At(s, row[k])
  }

  ghost function Substituted(s: seq<Node>, d: int, x: Node): seq<Node> {
    if 0 <= d < |s| then s[d := x] else s
  }

  lemma SubstitutedRows(s: seq<Node>, t: Shape, d: int, x: Node)
    requires 0 <= d < |s| && LeftsBut(s, t.left, d, x) && RightsBut(s, t.right, d, x) && ParentsBut(s, t.parent, d, x)
    requires x.left == At(s, t.left[d]) && x.right == At(s, t.right[d]) && x.parent == At(s, t.parent[d])
    requires t.left[d] != d && t.right[d] != d && t.parent[d] != d
    ensures var s' := Substituted(s, d, x);
            LeftsAre(s', t.left) && RightsAre(s', t.right) && ParentsAre(s', t.parent)
  {
  }

  /** The link from above to the node at d now leads to x. */
  method LinkAbove(old_: Node, x: Node, parent: Node?, root: Node?, ghost s: seq<Node>, ghost t: Shape, ghost d: int)
    returns (root': Node?)
    requires Linked(s, root, t) && Has(t, d) && At(s, d) == old_ && parent == At(s, t.parent[d])
    modifies s`left, s`right
    ensures LeftsBut(s, t.left, d, x) && RightsBut(s, t.right, d, x)
    ensures root' == if t.parent[d] == -1 then x else root
  {
    hide TreeOk, Sorted;
    LinksOf(s, root, t, d);
    if t.parent[d] != -1 {
      LinksAbove(s, root, t, d);
    }
    forall k | 0 <= k < |s| && k != d
      ensures k != t.parent[d] ==> t.left[k] != d && t.right[k] != d
      ensures k != t.parent[d] && t.parent[d] != -1 ==> s[k] != s[t.parent[d]]
    {
      OnlyParent(t, d, k);
      SamePlace(s, k, t.parent[d]);
    }
    root' := root;
    if parent != null {
      OnlyParent(t, d, t.parent[d]);
      if parent.left == old_ {
        parent.left := x;
      } else {
        parent.right := x;
      }
    } else {
      root' := x;
    }
  }

  /** The children of the node at d now have x as their parent. */
  method LinkChildren(left: Node, right: Node?, x: Node, ghost s: seq<Node>, ghost t: Shape, ghost d: int)
    requires Sorted(s) && TreeOk(t) && |t.left| == |s| && ParentsAre(s, t.parent) && Has(t, d)
    requires t.left[d] != -1 && left == At(s, t.left[d]) && right == At(s, t.right[d])
    modifies s`parent
    ensures ParentsBut(s, t.parent, d, x)
  {
    hide TreeOk, Sorted;
    Around(t, d);
    SamePlace(s, t.left[d], t.right[d]);
    forall k | 0 <= k < |s| && k != d
      ensures t.parent[k] == d <==> k == t.left[d] || k == t.right[d]
      ensures (s[k] == left <==> k == t.left[d]) && (s[k] == right <==> k == t.right[d])
    {
      OnlyParent(t, k, d);
      SamePlace(s, k, t.left[d]);
      SamePlace(s, k, t.right[d]);
    }
    left.parent := x;
    if right != null {
      right.parent := x;
    }
  }

  /** A node takes over all the links of another one. */
  method TakePlace(elm: Node, old_: Node, root: Node?, ghost s: seq<Node>, ghost t: Shape, ghost d: int)
    returns (root': Node?)
    requires Linked(s, root, t) && Has(t, d) && At(s, d) == old_ && elm !in s && t.left[d] != -1
    requires Sorted(Substituted(s, d, elm))
    modifies s`left, s`right, s`parent, elm`left, elm`right, elm`parent, elm`red
    ensures Linked(Substituted(s, d, elm), root', t) && elm.red == old(old_.red)
  {
    hide LeftsAre, RightsAre, ParentsAre, TreeOk, Sorted, LeftsBut, RightsBut, ParentsBut;
    LinksOf(s, root, t, d);
    Around(t, d);
    elm.left, elm.right, elm.parent, elm.red := old_.left, old_.right, old_.parent, old_.red;
    root' := LinkAbove(old_, elm, old_.parent, root, s, t, d);
    LinkChildren(elm.left, elm.right, elm, s, t, d);
    SubstitutedRows(s, t, d, elm);
  }

  /** The successor in the right subtree is the next position. */
  method Leftmost(start: Node, root: Node?, ghost s: seq<Node>, ghost t: Shape, ghost d: int) returns (elm: Node)
    requires Linked(s, root, t) && Has(t, d) && t.right[d] != -1 && At(s, t.right[d]) == start
    ensures d + 1 < |s| && elm == s[d + 1] && Sized(t, |s|) && t.left[d + 1] == -1
  {
    hide LeftsAre, RightsAre, ParentsAre, TreeOk, Sorted;
    elm := start;
    KidFacts(t, Right, d);
    ghost var k := t.right[d];
    while elm.left != null
      invariant Sized(t, |s|) && 0 <= k < |s| && elm == s[k] && t.lo[k] == d + 1
      decreases k
    {
      LinksOf(s, root, t, k);
      KidFacts(t, Left, k);
      elm := elm.left;
      k := t.left[k];
      KidFacts(t, Left, k);
    }
    LinksOf(s, root, t, k);
    KidFacts(t, Left, k);
  }

  ghost function SplicedState(st: State, e: int): State
    requires Sized(st.t, |st.t.left|) && Has(st.t, e) && st.t.parent[e] < |st.t.left| == |st.red| == |st.bh|
  {
    State(Splice(st.t, e), st.red[..e] + st.red[e + 1..], st.bh[..e] + st.bh[e + 1..])
  }

  /** After a node has been spliced out: nothing to do if it was red, one black node missing if it was black. */
  lemma {:induction false} SplicedOut(s: seq<Node>, root: Node?, st: State, e: int)
    requires Shows(s, root, st) && BalancedState(st) && Has(st.t, e) && (st.t.left[e] == -1 || st.t.right[e] == -1)
    ensures Sized(st.t, |s|) && st.t.parent[e] < |s| == |st.red| == |st.bh|
    ensures RedsAre(Without(s, e), SplicedState(st, e).red)
    ensures s[e].red == Red(st.red, e)
    ensures s[e].red ==> BalancedState(SplicedState(st, e))
    ensures var c, g := OnlyKid(st.t, e), st.t.parent[e];
            && -1 <= g < |s| && -1 <= c < |s| && c != e && g != e
            && (!s[e].red ==> ShortState(SplicedState(st, e), Unshift(e, c), Unshift(e, g),
                                         if g < 0 then Left else SideOf(st.t, g, e)))
            && At(s, c) == (if s[e].left == null then s[e].right else s[e].left) && At(s, g) == s[e].parent
  {
    hide LeftsAre, RightsAre, ParentsAre, TreeOk, Short, BlackOk, RedOk, Splice, SideOf, Without;
    NodeOf(s, root, st, e);
    Around(st.t, e);
    RemoveStart(st.t, st.red, st.bh, e);
    ShrinkReds(s, st.red, e);
  }

  /** What taking out the successor e = d + 1 of a node with two children will do. */
  lemma {:induction false} SuccessorFacts(s: seq<Node>, root: Node?, st: State, d: int)
    requires Shows(s, root, st) && BalancedState(st) && Sized(st.t, |s|)
    requires 0 <= d && d + 1 < |s| && st.t.left[d] != -1 && st.t.left[d + 1] == -1
    ensures |st.red| == |st.bh| == |s| == |Without(s, d)| + 1 && -1 < st.t.parent[d + 1] < |s| && s[d + 1].left == null
    ensures s[d + 1].red ==> BalancedState(SplicedState(st, d + 1))
    ensures var e, c, g := d + 1, OnlyKid(st.t, d + 1), st.t.parent[d + 1];
            && -1 <= Unshift(e, c) < |s| - 1 && -1 < Unshift(e, g) < |s| - 1
            && (!s[e].red ==> ShortState(SplicedState(st, e), Unshift(e, c), Unshift(e, g), SideOf(st.t, g, e)))
            && At(Without(s, d), Unshift(e, c)) == s[e].right
            && At(Without(s, d), Unshift(e, g)) == if s[e].parent == s[d] then s[e] else s[e].parent
  {
    hide LeftsAre, RightsAre, ParentsAre, TreeOk, RedsAre, Sorted, Balanced, Short, Without, Splice, SideOf;
    var e, c, g := d + 1, OnlyKid(st.t, d + 1), st.t.parent[d + 1];
    NodeOf(s, root, st, e);
    SplicedOut(s, root, st, e);
    SuccessorLinks(s, st.t, d);
    SuccessorAt(s, d, c);
    SuccessorAt(s, d, g);
    WithoutAt(s, d, 0);
  }

  /** Splices out the successor of the node at d and puts it in that node's place. */
  method SuccessorOut(elm: Node, old_: Node, root: Node?, ghost s: seq<Node>, ghost st: State, ghost d: int)
    returns (parent: Node?, child: Node?, root': Node?)
    requires Shows(s, root, st) && 0 <= d && d + 1 < |s| && s[d] == old_ && s[d + 1] == elm
    requires Sized(st.t, |s|) && st.t.left[d] != -1 && st.t.left[d + 1] == -1 && elm.left == null
    requires |st.red| == |st.bh| == |s| && st.t.parent[d + 1] < |s|
    modifies s`left, s`right, s`parent, s`red
    ensures Shows(Without(s, d), root', SplicedState(st, d + 1))
    ensures child == old(elm.right) && parent == if old(elm.parent) == old_ then elm else old(elm.parent)
  {
    hide LeftsAre, RightsAre, ParentsAre, TreeOk, RedsAre, Sorted, Without, Splice;
    SuccessorLinks(s, st.t, d);
    child := elm.right;
    parent, root' := Unlink(elm, child, root, s, st.t, d + 1);
    ShrinkReds(s, st.red, d + 1);
    if elm.parent == old_ {
      parent := elm;
    }
    root' := Exchange(elm, old_, root', s, Splice(st.t, d + 1), SplicedState(st, d + 1).red, d);
  }

  /** The links from a node to its parent, and what they mean for the positions. */
  lemma {:induction false} Upwards(s: seq<Node>, root: Node?, t: Shape, k: int)
    requires Linked(s, root, t) && 0 <= k < |s|
    ensures Sized(t, |s|) && s[k].parent == At(s, t.parent[k]) && (t.parent[k] == -1 || 0 <= t.parent[k] < |s|)
    ensures t.parent[k] == -1 ==> t.hi[k] == |s| - 1
    ensures t.parent[k] != -1 ==>
              var g := t.parent[k];
              && t.hi[k] - t.lo[k] < t.hi[g] - t.lo[g] < |s|
              && (s[k] == s[g].left || s[k] == s[g].right)
              && (s[k] == s[g].left ==> t.hi[k] == g - 1 && s[k] != s[g].right)
              && (s[k] == s[g].right ==> t.hi[g] == t.hi[k])
  {
    hide LeftsAre, RightsAre, ParentsAre, TreeOk;
    LinksOf(s, root, t, k);
    Around(t, k);
    RootEnds(s, root, t);
    if t.parent[k] != -1 {
      var g := t.parent[k];
      Around(t, g);
      LinksOf(s, root, t, g);
      SamePlace(s, k, t.left[g]);
      SamePlace(s, k, t.right[g]);
      ParentIsWider(t, k, g);
      KidFacts(t, Left, g);
      KidFacts(t, Right, g);
    }
  }

  lemma RootEnds(s: seq<Node>, root: Node?, t: Shape)
    requires Linked(s, root, t)
    ensures root == At(s, t.root) && Sized(t, |s|) && -1 <= t.root < |s| && (t.root == -1 <==> s == [])
    ensures t.root != -1 ==> t.lo[t.root] == 0 && t.hi[t.root] == |s| - 1
  {
    hide LeftsAre, RightsAre, ParentsAre;
  }

  /** The first position known to be past the key during a search. */
  ghost function Past(t: Shape, k: int, par: int, side: Side): int
    requires |t.lo| == |t.hi| && -1 <= k < |t.hi|
  {
    if k == -1 then LeafPos(par, side) else t.hi[k] + 1
  }

  lemma SearchedPast(s: seq<Node>, t: Shape, key: int, k: int, par: int, side: Side)
    requires Searching(s, t, key, k, par, side)
    ensures Sized(t, |s|) && -1 <= k < |s| && 0 <= Past(t, k, par, side) <= |s|
    ensures forall i :: Past(t, k, par, side) <= i < |s| ==> key < s[i].key
    ensures k == -1 ==> forall i :: 0 <= i < Past(t, k, par, side) ==> s[i].key < key
  {
  }

  lemma PastStep(t: Shape, k: int, next: Side)
    requires TreeOk(t) && Has(t, k)
    ensures Sized(t, |t.left|) && -1 <= Kid(t, next, k) < |t.left|
    ensures Past(t, Kid(t, next, k), k, next) == if next == Left then k else t.hi[k] + 1
  {
    KidFacts(t, next, k);
  }

  /** The successor of a node with two children is found, spliced out and put in that node's place. */
  method TakeSuccessor(old_: Node, root: Node?, ghost s: seq<Node>, ghost st: State, ghost d: int)
    returns (red: bool, parent: Node?, child: Node?, root': Node?, ghost st': State, ghost x: int, ghost g: int,
             ghost side: Side)
    requires Shows(s, root, st) && BalancedState(st) && 0 <= d < |s| && s[d] == old_
    requires old_.left != null && old_.right != null
    modifies s`left, s`right, s`parent, s`red
    ensures Shows(Without(s, d), root', st')
    ensures if red then BalancedState(st') else ShortState(st', x, g, side)
    ensures At(Without(s, d), x) == child && At(Without(s, d), g) == parent
    ensures -1 <= x < |Without(s, d)| && -1 <= g < |Without(s, d)|
  {
    hide LeftsAre, RightsAre, ParentsAre, TreeOk, RedsAre, Sorted, BalancedState, ShortState, SplicedState, Without,
         Splice, OnlyKid, SideOf;
    LinksOf(s, root, st.t, d);
    var elm := Leftmost(old_.right, root, s, st.t, d);
    SuccessorFacts(s, root, st, d);
    x, g := Unshift(d + 1, OnlyKid(st.t, d + 1)), Unshift(d + 1, st.t.parent[d + 1]);
    side, st' := SideOf(st.t, st.t.parent[d + 1], d + 1), SplicedState(st, d + 1);
    red := elm.red;
    parent, child, root' := SuccessorOut(elm, old_, root, s, st, d);
  }

  /** Each node is a child of the one before. */
  ghost predicate Descends(p: seq<Node>)
    reads p
  {
    forall i :: 0 <= i < |p| - 1 ==> p[i + 1] == p[i].left || p[i + 1] == p[i].right
  }

  lemma ShapeOf(s: seq<Node>, root: Node?, t: Shape)
    requires Linked(s, root, t)
    ensures TreeOk(t) && |t.left| == |s| && root == At(s, t.root)
  {
  }

  /** A walk down from position k is no longer than the height there. */
  lemma {:induction false} PathHeight(s: seq<Node>, root: Node?, t: Shape, p: seq<Node>, k: int)
    requires Linked(s, root, t) && TreeOk(t) && p != [] && Descends(p) && p[0] == At(s, k)
    ensures |p| <= Height(t, k)
    decreases |p|
  {
    hide TreeOk, Linked;
    ShapeOf(s, root, t);
    LinksOf(s, root, t, k);
    if |p| > 1 {
      var q := p[1..];
      forall i | 0 <= i < |q| - 1
        ensures q[i + 1] == q[i].left || q[i + 1] == q[i].right
      {
        assert p[i + 1 + 1] == p[i + 1].left || p[i + 1 + 1] == p[i + 1].right;
      }
      if p[1] == p[0].left {
        PathHeight(s, root, t, q, t.left[k]);
      } else {
        PathHeight(s, root, t, q, t.right[k]);
      }
    }
  }

  class Tree {
    var root: Node?
    ghost var order: seq<Node>  // the nodes in order
    ghost var state: State

    ghost predicate Valid()
      reads this, order
    {
      Shows(order, root, state) && BalancedState(state)
    }

    constructor ()
      ensures Valid() && order == []
    {
      root, order, state := null, [], State(Shape(-1, [], [], [], [], []), [], []);
    }

    /** However one walks down from the root, with n nodes in the tree one meets at most 2 log2(n + 1) of them. */
    lemma PathsAreShort(p: seq<Node>)
      requires Valid() && p != [] && p[0] == root && Descends(p)
      ensures Pow(2, |p|) <= (|order| + 1) * (|order| + 1)
    {
      hide TreeOk, BlackOk, RedOk, Height, Linked, RedsAre;
      ShapeOf(order, root, state.t);
      PathHeight(order, root, state.t, p, state.t.root);
      HeightIsLogarithmic(state.t, state.red, state.bh);
      PowMono(2, |p|, Height(state.t, state.t.root));
    }

    /** Inserts a node, unless there is one with the same key; then that one is returned. */
    method Insert(elm: Node) returns (found: Node?)
      requires Valid() && elm !in order
      modifies this, order`left, order`right, order`parent, order`red
      modifies elm`left, elm`right, elm`parent, elm`red
      ensures Valid()
      ensures found != null ==> found in order && found.key == elm.key && order == old(order) && root == old(root)
      ensures found == null ==>
                && (forall n :: n in old(order) ==> n.key != elm.key)
                && exists pos :: 0 <= pos <= |old(order)| && order == Inserted(old(order), pos, elm)
    {
      hide Linked, RedsAre, Sorted, Balanced, Inserting, Searching, AddLeaf, Inserted, CanHang;
      var parent, comp;
      ghost var par, side;
      parent, comp, found, par, side := Place(elm);
      if found != null {
        return;
      }
      ghost var s, st, pos := order, state, LeafPos(par, side);
      Sizes(s, root, st);
      InsertedMembers(s, pos, elm);
      NothingFound(s, st.t, elm.key, par, side);
      Hangable(s, st.t, elm.key, par, side);
      InsertStart(st.t, st.red, st.bh, par, side);
      InsertedAt(s, pos, elm, 0);
      root := HangLeaf(elm, parent, comp, root, s, st.t, par, side);
      GrowReds(s, st.red, pos, elm);
      order := Inserted(s, pos, elm);
      state := State(AddLeaf(st.t, par, side), st.red[..pos] + [true] + st.red[pos..],
                     st.bh[..pos] + [0] + st.bh[pos..]);
      root, state := InsertColor(elm, root, order, state, pos);
    }

    /** Removes a node of the tree. */
    method Remove(elm: Node) returns (removed: Node)
      requires Valid() && elm in order
      modifies this, order`left, order`right, order`parent, order`red
      ensures Valid() && removed == elm
      ensures exists d :: 0 <= d < |old(order)| && old(order)[d] == elm && order == Without(old(order), d)
    {
      hide Linked, RedsAre, Sorted, Balanced, Without;
      removed := elm;
      ghost var d :| 0 <= d < |order| && order[d] == elm;
      NodeOf(order, root, state, d);
      if elm.left == null || elm.right == null {
        RemoveOuter(elm, d);
      } else {
        RemoveInner(elm, d);
      }
    }

    /** A node with at most one child is replaced by it. */
    method RemoveOuter(elm: Node, ghost d: int)
      requires Valid() && 0 <= d < |order| && order[d] == elm && (elm.left == null || elm.right == null)
      modifies this, order`left, order`right, order`parent, order`red
      ensures Valid() && order == Without(old(order), d)
    {
      hide LeftsAre, RightsAre, ParentsAre, TreeOk, RedsAre, Sorted, Balanced, Short, Without, Splice, OnlyKid, SideOf;
      ghost var s, st := order, state;
      LinksOf(s, root, st.t, d);
      SplicedOut(s, root, st, d);
      ghost var c, g := OnlyKid(st.t, d), st.t.parent[d];
      var child := if elm.left == null then elm.right else elm.left;
      var red := elm.red;
      var parent;
      parent, root := Unlink(elm, child, root, s, st.t, d);
      order, state := Without(s, d), SplicedState(st, d);
      WithoutAt(s, d, c);
      WithoutAt(s, d, g);
      WithoutMembers(s, d);
      if !red {
        root, state := RemoveColor(parent, child, root, order, state, Unshift(d, c), Unshift(d, g),
                                   if g < 0 then Left else SideOf(st.t, g, d));
      }
    }

    /** A node with two children is replaced by its successor, which has at most one. */
    method RemoveInner(old_: Node, ghost d: int)
      requires Valid() && 0 <= d < |order| && order[d] == old_ && old_.left != null && old_.right != null
      modifies this, order`left, order`right, order`parent, order`red
      ensures Valid() && order == Without(old(order), d)
    {
      hide Linked, RedsAre, BalancedState, ShortState, SplicedState, Without;
      var red, parent, child;
      ghost var x, g, side, st;
      red, parent, child, root, st, x, g, side := TakeSuccessor(old_, root, order, state, d);
      WithoutMembers(order, d);
      order, state := Without(order, d), st;
      if !red {
        root, state := RemoveColor(parent, child, root, order, state, x, g, side);
      }
    }

    /** The node with the given key. */
    method Find(key: int) returns (res: Node?)
      requires Valid()
      ensures res != null ==> res in order && res.key == key
      ensures res == null ==> forall n :: n in order ==> n.key != key
    {
      hide LeftsAre, RightsAre, ParentsAre, TreeOk, RedsAre, Sorted, Balanced, Searching;
      var tmp := root;
      ghost var k, par, side := state.t.root, -1, Right;
      SearchStart(order, root, state.t, key);
      while tmp != null
        invariant Sized(state.t, |order|) && -1 <= k < |order| && tmp == At(order, k)
        invariant Searching(order, state.t, key, k, par, side)
        decreases if 0 <= k < |order| then state.t.hi[k] - state.t.lo[k] + 1 else 0
      {
        NodeOf(order, root, state, k);
        if key < tmp.key {
          SearchStep(order, root, state.t, key, k, par, side, Left);
          tmp := tmp.left;
          k, par, side := state.t.left[k], k, Left;
        } else if key > tmp.key {
          SearchStep(order, root, state.t, key, k, par, side, Right);
          tmp := tmp.right;
          k, par, side := state.t.right[k], k, Right;
        } else {
          return tmp;
        }
      }
      NothingFound(order, state.t, key, par, side);
      return null;
    }

    /** The first node whose key is not below the given one. */
    method NFind(key: int) returns (res: Node?)
      requires Valid()
      ensures res != null ==> res in order && res.key >= key
      ensures forall n :: n in order && n.key >= key ==> res != null && res.key <= n.key
    {
      hide LeftsAre, RightsAre, ParentsAre, TreeOk, RedsAre, Balanced, Searching;
      var tmp := root;
      res := null;
      ghost var k, par, side, r := state.t.root, -1, Right, |order|;
      SearchStart(order, root, state.t, key);
      RootEnds(order, root, state.t);
      SearchedPast(order, state.t, key, k, par, side);
      while tmp != null
        invariant Sized(state.t, |order|) && -1 <= k < |order| && tmp == At(order, k)
        invariant Searching(order, state.t, key, k, par, side)
        invariant 0 <= r <= |order| && res == At(order, r) && (res != null ==> res.key > key)
        invariant r == Past(state.t, k, par, side)
        decreases if 0 <= k < |order| then state.t.hi[k] - state.t.lo[k] + 1 else 0
      {
        NodeOf(order, root, state, k);
        if key < tmp.key {
          SearchStep(order, root, state.t, key, k, par, side, Left);
          PastStep(state.t, k, Left);
          res := tmp;
          r := k;
          tmp := tmp.left;
          k, par, side := state.t.left[k], k, Left;
        } else if key > tmp.key {
          SearchStep(order, root, state.t, key, k, par, side, Right);
          PastStep(state.t, k, Right);
          tmp := tmp.right;
          k, par, side := state.t.right[k], k, Right;
        } else {
          return tmp;
        }
        SearchedPast(order, state.t, key, k, par, side);
      }
      SearchedPast(order, state.t, key, k, par, side);
      forall n | n in order && n.key >= key
        ensures res != null && res.key <= n.key
      {
        ghost var i :| 0 <= i < |order| && order[i] == n;
      }
    }

    /** The smallest node, or the largest. */
    method MinMax(val: int) returns (parent: Node?)
      requires Valid()
      ensures parent == if order == [] then null else if val < 0 then order[0] else order[|order| - 1]
    {
      hide LeftsAre, RightsAre, ParentsAre, TreeOk, RedsAre, Sorted, Balanced;
      var tmp := root;
      parent := null;
      ghost var k, par := state.t.root, -1;
      RootEnds(order, root, state.t);
      while tmp != null
        invariant Sized(state.t, |order|) && -1 <= k < |order| && tmp == At(order, k)
        invariant -1 <= par < |order| && parent == At(order, par)
        invariant k == -1 ==> par == if order == [] then -1 else if val < 0 then 0 else |order| - 1
        invariant k != -1 ==> if val < 0 then state.t.lo[k] == 0 else state.t.hi[k] == |order| - 1
        decreases if 0 <= k < |order| then state.t.hi[k] - state.t.lo[k] + 1 else 0
      {
        NodeOf(order, root, state, k);
        KidsShrink(state.t, k);
        KidFacts(state.t, if val < 0 then Left else Right, k);
        parent := tmp;
        par := k;
        if val < 0 {
          tmp := tmp.left;
          k := state.t.left[k];
        } else {
          tmp := tmp.right;
          k := state.t.right[k];
        }
      }
    }

    /** The node after the given one in the order of keys. */
    method Next(elm0: Node, ghost d: int) returns (elm: Node?)
      requires Valid() && 0 <= d < |order| && order[d] == elm0
      ensures elm == At(order, d + 1)
    {
      hide LeftsAre, RightsAre, ParentsAre, TreeOk, RedsAre, Sorted, Balanced, SideOf;
      NodeOf(order, root, state, d);
      KidFacts(state.t, Right, d);
      if elm0.right != null {
        elm := Leftmost(elm0.right, root, order, state.t, d);
      } else {
        elm := elm0;
        ghost var k := d;
        Upwards(order, root, state.t, k);
        if elm.parent != null && elm == elm.parent.left {
          elm := elm.parent;
        } else {
          while elm.parent != null && elm == elm.parent.right
            invariant 0 <= k < |order| && elm == order[k] && Sized(state.t, |order|) && state.t.hi[k] == d
            invariant elm.parent != null ==> elm == elm.parent.right || elm == elm.parent.left
            invariant elm.parent == null ==> d == |order| - 1
            invariant elm.parent != null && elm == elm.parent.left ==> elm.parent == At(order, d + 1)
            decreases |order| - (state.t.hi[k] - state.t.lo[k])
          {
            Upwards(order, root, state.t, k);
            elm := elm.parent;
            k := state.t.parent[k];
            Upwards(order, root, state.t, k);
          }
          elm := elm.parent;
        }
      }
    }

    /** Walks down to the node with the key of `elm`, or to the place where it belongs. */
    method Place(elm: Node) returns (parent: Node?, comp: int, found: Node?, ghost par: int, ghost side: Side)
      requires Valid()
      ensures found != null ==> found in order && found.key == elm.key
      ensures found == null ==> Searching(order, state.t, elm.key, -1, par, side)
      ensures found == null ==> parent == At(order, par) && (comp < 0 <==> side == Left)
    {
      hide LeftsAre, RightsAre, ParentsAre, TreeOk, RedsAre, Sorted, Balanced, Searching;
      var tmp := root;
      parent, comp, found, par, side := null, 0, null, -1, Right;
      ghost var k := state.t.root;
      SearchStart(order, root, state.t, elm.key);
      while tmp != null
        invariant Sized(state.t, |order|) && -1 <= k < |order| && tmp == At(order, k)
        invariant Searching(order, state.t, elm.key, k, par, side)
        invariant parent == At(order, par) && (comp < 0 <==> side == Left)
        decreases if 0 <= k < |order| then state.t.hi[k] - state.t.lo[k] + 1 else 0
      {
        parent := tmp;
        comp := if elm.key < parent.key then -1 else if elm.key > parent.key then 1 else 0;
        NodeOf(order, root, state, k);
        if comp < 0 {
          SearchStep(order, root, state.t, elm.key, k, par, side, Left);
          tmp := tmp.left;
          k, par, side := state.t.left[k], k, Left;
        } else if comp > 0 {
          SearchStep(order, root, state.t, elm.key, k, par, side, Right);
          tmp := tmp.right;
          k, par, side := state.t.right[k], k, Right;
        } else {
          found := tmp;
          return;
        }
      }
    }
  }

  lemma Sizes(s: seq<Node>, root: Node?, st: State)
    requires Shows(s, root, st) && BalancedState(st)
    ensures |st.red| == |st.bh| == |s| && Sized(st.t, |s|)
  {
  }

  lemma InsertedMembers(s: seq<Node>, pos: int, x: Node)
    ensures forall k :: 0 <= k < |Inserted(s, pos, x)| ==> Inserted(s, pos, x)[k] == x || Inserted(s, pos, x)[k] in s
  {
  }

  /** The links around the successor e = d + 1 of a node with two children. */
  lemma SuccessorLinks(s: seq<Node>, t: Shape, d: int)
    requires Sorted(s) && TreeOk(t) && |t.left| == |s| && 0 <= d && d + 1 < |s| && t.left[d] != -1
             && t.left[d + 1] == -1
    ensures var e := d + 1;
            && Sized(t, |s|) && -1 < t.parent[e] < |s| && -1 <= t.right[e] < |s|
            && Sized(Splice(t, e), |s| - 1) && Splice(t, e).left[d] != -1
            && (s[d] == At(s, t.parent[e]) <==> t.parent[e] == d) && t.right[e] != d
  {
    hide Splice;
    var e := d + 1;
    Around(t, e);
    Around(t, d);
    SpliceFields(t, e, d);
    KidFacts(t, Left, e);
    KidFacts(t, Right, e);
    KidFacts(t, Left, d);
    SamePlace(s, d, t.parent[e]);
  }

  /** Without its successor, and with the successor in its place, the order has just lost the node at d. */
  lemma SuccessorOrder(s: seq<Node>, d: int)
    requires Sorted(s) && 0 <= d && d + 1 < |s|
    ensures |Without(s, d + 1)| == |s| - 1 && At(Without(s, d + 1), d) == s[d] && s[d + 1] !in Without(s, d + 1)
    ensures Substituted(Without(s, d + 1), d, s[d + 1]) == Without(s, d) && Sorted(Without(s, d))
  {
    WithoutSorted(s, d);
    var a := Without(s, d + 1);
    forall k | 0 <= k < |a|
      ensures a[k] != s[d + 1]
    {
      assert a[k] == s[Shift(d + 1, k)];
    }
  }

  lemma SuccessorAt(s: seq<Node>, d: int, k: int)
    requires 0 <= d && d + 1 < |s| && k != d + 1
    ensures At(Without(s, d), Unshift(d + 1, k)) == if k == d then s[d + 1] else At(s, k)
  {
  }

  lemma ExchangedReds(s: seq<Node>, red: seq<bool>, d: int)
    requires 0 <= d && d + 1 < |s| && RedsAre(Without(s, d + 1), red) && s[d + 1].red == s[d].red
    ensures RedsAre(Without(s, d), red)
  {
    var a, b := Without(s, d + 1), Without(s, d);
    forall k | 0 <= k < |b|
      ensures b[k].red == red[k]
    {
      assert a[k].red == red[k];
      assert b[k] == if k == d then s[d + 1] else a[k];
    }
  }

  /** The successor, already spliced out, takes the place of the node at d. */
  method Exchange(elm: Node, old_: Node, root: Node?, ghost s: seq<Node>, ghost t: Shape, ghost red: seq<bool>,
                  ghost d: int)
    returns (root': Node?)
    requires Sorted(s) && 0 <= d && d + 1 < |s| && s[d] == old_ && s[d + 1] == elm
    requires Linked(Without(s, d + 1), root, t) && RedsAre(Without(s, d + 1), red) && |t.left| > d && t.left[d] != -1
    modifies s`left, s`right, s`parent, s`red
    ensures Linked(Without(s, d), root', t) && RedsAre(Without(s, d), red)
  {
    hide LeftsAre, RightsAre, ParentsAre, TreeOk, RedsAre, Sorted, Without, Substituted;
    SuccessorOrder(s, d);
    WithoutMembers(s, d + 1);
    root' := TakePlace(elm, old_, root, Without(s, d + 1), t, d);
    ExchangedReds(s, red, d);
  }

  lemma WithoutMembers(s: seq<Node>, e: int)
    ensures forall k :: 0 <= k < |Without(s, e)| ==> Without(s, e)[k] in s
  {
  }

  lemma Hangable(s: seq<Node>, t: Shape, key: int, par: int, side: Side)
    requires Searching(s, t, key, -1, par, side)
    ensures CanHang(t, par, side) && 0 <= LeafPos(par, side) <= |s|
  {
  }
}
