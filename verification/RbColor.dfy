/** Red-black colours over a tree shape, and what each rebalancing step does to them. */
module RbColor {
  import opened Powers
  import opened RbShape

  /** Black height of the subtree at position j, nothing for no subtree. */
  function BH(bh: seq<nat>, j: int): nat {
    if 0 <= j < |bh| then bh[j] else 0
  }

  function Black(red: seq<bool>, k: int): nat {
    if 0 <= k < |red| && red[k] then 0 else 1
  }

  function Red(red: seq<bool>, k: int): bool {
    0 <= k < |red| && red[k]
  }

  /** Both subtrees of k have the same black height, and bh[k] adds k itself. */
  ghost predicate BlackOk(t: Shape, red: seq<bool>, bh: seq<nat>, k: int)
    requires |t.left| == |t.right| && 0 <= k < |t.left|
  {
    BH(bh, t.left[k]) == BH(bh, t.right[k]) == BH(bh, k) - Black(red, k)
  }

  /** A red node has a black parent. */
  ghost predicate RedOk(t: Shape, red: seq<bool>, k: int)
    requires 0 <= k < |t.parent|
  {
    Red(red, k) ==> !Red(red, t.parent[k])
  }

  ghost predicate Painted(t: Shape, red: seq<bool>, bh: seq<nat>) {
    TreeOk(t) && |red| == |bh| == |t.left|
  }

  /** The red-black conditions: equal black heights, no red child of a red node, a black root. */
  ghost predicate Balanced(t: Shape, red: seq<bool>, bh: seq<nat>) {
    && Painted(t, red, bh) && !Red(red, t.root)
    && forall k :: 0 <= k < |t.left| ==> BlackOk(t, red, bh, k) && RedOk(t, red, k)
  }

  // ---------- insertion ----------

  /** Only the red node x may have a red parent. */
  ghost predicate Inserting(t: Shape, red: seq<bool>, bh: seq<nat>, x: int) {
    && Painted(t, red, bh) && Has(t, x) && Red(red, x) && (Red(red, t.root) ==> x == t.root)
    && (forall k :: 0 <= k < |t.left| ==> BlackOk(t, red, bh, k))
    && (forall k :: 0 <= k < |t.left| && k != x ==> RedOk(t, red, k))
  }

  /** x's red parent p is the child of g on side s. */
  ghost predicate Clash(t: Shape, red: seq<bool>, x: int, p: int, g: int, s: Side) {
    && Has(t, x) && Has(t, p) && Has(t, g) && Sized(t, |t.left|)
    && t.parent[x] == p && Red(red, p) && t.parent[p] == g && s == SideOf(t, g, p)
  }

  function Paint(red: seq<bool>, k: int, c: bool): (r: seq<bool>)
    ensures |r| == |red|
  {
    if 0 <= k < |red| then red[k := c] else red
  }

  function Raise(bh: seq<nat>, k: int): (r: seq<nat>)
    ensures |r| == |bh|
  {
    if 0 <= k < |bh| then bh[k := bh[k] + 1] else bh
  }

  function Lower(bh: seq<nat>, k: int): (r: seq<nat>)
    ensures |r| == |bh|
  {
    if 0 <= k < |bh| && bh[k] > 0 then bh[k := bh[k] - 1] else bh
  }

  /** What the links say about a node, its parent and its children. */
  lemma Around(t: Shape, k: int)
    requires TreeOk(t) && Has(t, k)
    ensures Sized(t, |t.left|) && Has(t, t.root)
    ensures t.left[k] != k && t.right[k] != k && t.parent[k] != k && -1 <= t.left[k] && -1 <= t.right[k]
            && -1 <= t.parent[k]
    ensures t.left[k] == t.right[k] ==> t.left[k] == -1
    ensures t.left[k] != -1 ==> Has(t, t.left[k]) && t.parent[t.left[k]] == k
    ensures t.right[k] != -1 ==> Has(t, t.right[k]) && t.parent[t.right[k]] == k
    ensures t.parent[k] == -1 <==> k == t.root
    ensures t.parent[k] != -1 ==> Has(t, t.parent[k]) && (t.left[t.parent[k]] == k || t.right[t.parent[k]] == k)
    ensures t.parent[k] != -1 ==> t.left[k] != t.parent[k] && t.right[k] != t.parent[k]
  {
    NeighboursOk(t, k);
  }

  /** A red parent is not the root, so the grandparent exists and is black. */
  lemma ClashFound(t: Shape, red: seq<bool>, bh: seq<nat>, x: int)
    requires Inserting(t, red, bh, x) && Red(red, t.parent[x])
    ensures Has(t, t.parent[x]) && Has(t, t.parent[t.parent[x]])
    ensures Clash(t, red, x, t.parent[x], t.parent[t.parent[x]], SideOf(t, t.parent[t.parent[x]], t.parent[x]))
    ensures !Red(red, t.parent[t.parent[x]])
  {
    var p := t.parent[x];
    Around(t, x);
    Around(t, p);
    assert RedOk(t, red, p);
  }

  lemma InsertingAt(t: Shape, red: seq<bool>, bh: seq<nat>, x: int, k: int)
    requires Inserting(t, red, bh, x) && Has(t, k)
    ensures Painted(t, red, bh) && Sized(t, |t.left|) && Has(t, x) && Red(red, x) && (Red(red, t.root) ==> x == t.root)
    ensures BlackOk(t, red, bh, k) && (k != x ==> RedOk(t, red, k))
  {
  }

  /** Red uncle: recolour and go on at the grandparent. */
  lemma RedUncle(t: Shape, red: seq<bool>, bh: seq<nat>, x: int, p: int, g: int, s: Side)
    requires Inserting(t, red, bh, x) && Clash(t, red, x, p, g, s) && Red(red, Kid(t, Other(s), g))
    ensures var u := Kid(t, Other(s), g);
            Inserting(t, Paint(Paint(Paint(red, u, false), p, false), g, true), Raise(Raise(bh, u), p), g)
  {
    hide TreeOk, BlackOk, RedOk;
    var u := Kid(t, Other(s), g);
    var red', bh' := Paint(Paint(Paint(red, u, false), p, false), g, true), Raise(Raise(bh, u), p);
    Around(t, g);
    Around(t, p);
    Around(t, x);
    forall k | Has(t, k)
      ensures BlackOk(t, red', bh', k) && (k != g ==> RedOk(t, red', k))
    {
      RedUncleAt(t, red, bh, x, p, g, s, k);
    }
  }

  lemma RedUncleAt(t: Shape, red: seq<bool>, bh: seq<nat>, x: int, p: int, g: int, s: Side, k: int)
    requires Inserting(t, red, bh, x) && Clash(t, red, x, p, g, s) && Red(red, Kid(t, Other(s), g)) && Has(t, k)
    ensures var u := Kid(t, Other(s), g);
            var red', bh' := Paint(Paint(Paint(red, u, false), p, false), g, true), Raise(Raise(bh, u), p);
            BlackOk(t, red', bh', k) && (k != g ==> RedOk(t, red', k))
  {
    hide TreeOk, Inserting, Paint, Raise, BH, Black, Red;
    var u := Kid(t, Other(s), g);
    InsertingAt(t, red, bh, x, k);
    InsertingAt(t, red, bh, x, p);
    InsertingAt(t, red, bh, x, g);
    IsRed(red, u);
    Around(t, g);
    Around(t, p);
    Around(t, k);
    UncleValues(red, bh, u, p, g, k);
    UncleValues(red, bh, u, p, g, t.left[k]);
    UncleValues(red, bh, u, p, g, t.right[k]);
    UncleValues(red, bh, u, p, g, t.parent[k]);
    GrandparentBlack(t, red, bh, x, p, g, s);
  }

  lemma UncleValues(red: seq<bool>, bh: seq<nat>, u: int, p: int, g: int, j: int)
    requires |red| == |bh| && 0 <= u < |bh| && 0 <= p < |bh| && 0 <= g < |bh| && u != p && u != g && p != g
    ensures var red', bh' := Paint(Paint(Paint(red, u, false), p, false), g, true), Raise(Raise(bh, u), p);
            && BH(bh', j) == (if j == u || j == p then BH(bh, j) + 1 else BH(bh, j))
            && Red(red', j) == (if j == g then true else if j == u || j == p then false else Red(red, j))
            && Black(red', j) == (if j == g then 0 else if j == u || j == p then 1 else Black(red, j))
    ensures Black(red, j) == if Red(red, j) then 0 else 1
  {
  }

  /** Inner child: one rotation turns it into the outer case. */
  lemma InnerChild(t: Shape, red: seq<bool>, bh: seq<nat>, x: int, p: int, g: int, s: Side)
    requires Inserting(t, red, bh, x) && Clash(t, red, x, p, g, s) && Kid(t, Other(s), p) == x
    ensures var t' := Rotate(t, s, p);
            Inserting(t', red, bh, p) && Clash(t', red, p, x, g, s) && Kid(t', s, x) == p
            && Kid(t', Other(s), g) == Kid(t, Other(s), g)
  {
    hide Rotate, TreeOk, BlackOk, RedOk;
    Around(t, g);
    Around(t, p);
    Around(t, x);
    RotateKeepsTree(t, s, p);
    RotateParents(t, s, p, p);
    RotateParents(t, s, p, x);
    RotateKids(t, s, p, x);
    RotateKids(t, s, p, g);
    forall k | Has(t, k)
      ensures BlackOk(Rotate(t, s, p), red, bh, k) && (k != p ==> RedOk(Rotate(t, s, p), red, k))
    {
      InnerChildAt(t, red, bh, x, p, g, s, k);
    }
  }

  lemma InnerChildAt(t: Shape, red: seq<bool>, bh: seq<nat>, x: int, p: int, g: int, s: Side, k: int)
    requires Inserting(t, red, bh, x) && Clash(t, red, x, p, g, s) && Kid(t, Other(s), p) == x && Has(t, k)
    requires Sized(Rotate(t, s, p), |t.left|)
    ensures BlackOk(Rotate(t, s, p), red, bh, k) && (k != p ==> RedOk(Rotate(t, s, p), red, k))
  {
    hide Rotate, TreeOk, Inserting;
    InsertingAt(t, red, bh, x, k);
    InsertingAt(t, red, bh, x, p);
    InsertingAt(t, red, bh, x, x);
    RotateKids(t, s, p, k);
    RotateParents(t, s, p, k);
    Around(t, g);
    Around(t, p);
    Around(t, x);
    Around(t, k);
  }

  /** Outer child, black uncle: recolour, rotate, and everything is balanced. */
  lemma OuterChild(t: Shape, red: seq<bool>, bh: seq<nat>, x: int, p: int, g: int, s: Side)
    requires Inserting(t, red, bh, x) && Clash(t, red, x, p, g, s) && Kid(t, s, p) == x
    requires !Red(red, Kid(t, Other(s), g))
    ensures Kid(t, s, g) == p && t.parent[g] < |t.left|
    ensures Balanced(Rotate(t, Other(s), g), Paint(Paint(red, p, false), g, true), Raise(Lower(bh, g), p))
  {
    hide Rotate, TreeOk, BlackOk, RedOk;
    Around(t, g);
    Around(t, p);
    Around(t, x);
    RotateKeepsTree(t, Other(s), g);
    RotateParents(t, Other(s), g, g);
    var red', bh' := Paint(Paint(red, p, false), g, true), Raise(Lower(bh, g), p);
    forall k | Has(t, k)
      ensures BlackOk(Rotate(t, Other(s), g), red', bh', k) && RedOk(Rotate(t, Other(s), g), red', k)
    {
      OuterChildBlack(t, red, bh, x, p, g, s, k);
      OuterChildRed(t, red, bh, x, p, g, s, k);
    }
  }

  lemma OuterChildBlack(t: Shape, red: seq<bool>, bh: seq<nat>, x: int, p: int, g: int, s: Side, k: int)
    requires Inserting(t, red, bh, x) && Clash(t, red, x, p, g, s) && Kid(t, s, p) == x && Has(t, k)
    requires !Red(red, Kid(t, Other(s), g)) && Kid(t, s, g) == p && t.parent[g] < |t.left|
    requires Sized(Rotate(t, Other(s), g), |t.left|)
    ensures BlackOk(Rotate(t, Other(s), g), Paint(Paint(red, p, false), g, true), Raise(Lower(bh, g), p), k)
  {
    hide Rotate, TreeOk, Inserting, RedOk, Paint, Raise, Lower, BH, Black, Red;
    InsertingAt(t, red, bh, x, k);
    InsertingAt(t, red, bh, x, p);
    InsertingAt(t, red, bh, x, g);
    GrandparentBlack(t, red, bh, x, p, g, s);
    RotateKids(t, Other(s), g, k);
    Around(t, g);
    Around(t, p);
    Around(t, k);
    Values(red, bh, p, g, k);
    Values(red, bh, p, g, Kid(Rotate(t, Other(s), g), s, k));
    Values(red, bh, p, g, Kid(Rotate(t, Other(s), g), Other(s), k));
  }

  lemma GrandparentBlack(t: Shape, red: seq<bool>, bh: seq<nat>, x: int, p: int, g: int, s: Side)
    requires Inserting(t, red, bh, x) && Clash(t, red, x, p, g, s)
    ensures !Red(red, g) && x != p && Black(red, g) == 1 && Black(red, p) == 0
  {
    Around(t, x);
    assert RedOk(t, red, p);
  }

  lemma OuterChildRed(t: Shape, red: seq<bool>, bh: seq<nat>, x: int, p: int, g: int, s: Side, k: int)
    requires Inserting(t, red, bh, x) && Clash(t, red, x, p, g, s) && Kid(t, s, p) == x && Has(t, k)
    requires !Red(red, Kid(t, Other(s), g)) && Kid(t, s, g) == p && t.parent[g] < |t.left|
    requires Sized(Rotate(t, Other(s), g), |t.left|)
    ensures RedOk(Rotate(t, Other(s), g), Paint(Paint(red, p, false), g, true), k)
  {
    hide Rotate, TreeOk, Inserting, BlackOk;
    InsertingAt(t, red, bh, x, k);
    RotateParents(t, Other(s), g, k);
    Around(t, g);
    Around(t, p);
    Around(t, k);
  }

  /** A balanced tree is also one where nothing is left to do at a red node. */
  lemma BalancedInserting(t: Shape, red: seq<bool>, bh: seq<nat>, x: int)
    requires Balanced(t, red, bh) && Has(t, x) && Red(red, x)
    ensures Inserting(t, red, bh, x) && !Red(red, t.parent[x])
  {
    assert RedOk(t, red, x);
  }

  /** At the end the root is painted black. */
  lemma InsertDone(t: Shape, red: seq<bool>, bh: seq<nat>, x: int)
    requires Inserting(t, red, bh, x) && !Red(red, t.parent[x])
    ensures Balanced(t, Paint(red, t.root, false), if Red(red, t.root) then Raise(bh, t.root) else bh)
  {
    hide TreeOk;
    var red', bh' := Paint(red, t.root, false), if Red(red, t.root) then Raise(bh, t.root) else bh;
    Around(t, x);
    forall k | Has(t, k)
      ensures BlackOk(t, red', bh', k) && RedOk(t, red', k)
    {
      Around(t, k);
      assert BlackOk(t, red, bh, k) && (k != x ==> RedOk(t, red, k));
    }
  }

  // ---------- removal ----------

  /** The subtree x on side s of g is one black node short; only x may be red beside a red neighbour. */
  ghost predicate Short(t: Shape, red: seq<bool>, bh: seq<nat>, x: int, g: int, s: Side) {
    && Painted(t, red, bh)
    && (if x == -1 then g != -1 || t.root == -1 else Has(t, x) && t.parent[x] == g)
    && (g != -1 ==> Has(t, g) && Kid(t, s, g) == x && ShortAt(t, red, bh, x, g, s))
    && (forall k :: 0 <= k < |t.left| && k != g ==> BlackOk(t, red, bh, k))
    && (forall k :: 0 <= k < |t.left| && k != x && t.parent[k] != x ==> RedOk(t, red, k))
    && (Red(red, t.root) ==> t.root == x)
  }

  ghost predicate ShortAt(t: Shape, red: seq<bool>, bh: seq<nat>, x: int, g: int, s: Side)
    requires |t.left| == |t.right| && Has(t, g)
  {
    BH(bh, x) + 1 == BH(bh, Kid(t, Other(s), g)) == BH(bh, g) - Black(red, g)
  }

  lemma ShortFacts(t: Shape, red: seq<bool>, bh: seq<nat>, x: int, g: int, s: Side, k: int)
    requires Short(t, red, bh, x, g, s) && !Red(red, x) && x != t.root && Has(t, k)
    ensures Painted(t, red, bh) && Sized(t, |t.left|) && Has(t, g) && Kid(t, s, g) == x && ShortAt(t, red, bh, x, g, s)
    ensures k != g ==> BlackOk(t, red, bh, k)
    ensures RedOk(t, red, k) && !Red(red, t.root)
  {
    if x != -1 {
      Around(t, x);
    }
    if t.parent[k] == x && x != -1 {
      Around(t, k);
    }
  }

  /** The short side's sibling exists; it is black unless its parent is black. */
  lemma SiblingExists(t: Shape, red: seq<bool>, bh: seq<nat>, x: int, g: int, s: Side)
    requires Short(t, red, bh, x, g, s) && !Red(red, x) && x != t.root
    ensures Has(t, g) && Sized(t, |t.left|) && Kid(t, s, g) == x
    ensures var w := Kid(t, Other(s), g);
            Has(t, w) && t.parent[w] == g && w != x && (Red(red, w) ==> !Red(red, g))
  {
    if x != -1 {
      Around(t, x);
    }
    Around(t, g);
    ShortFacts(t, red, bh, x, g, s, Kid(t, Other(s), g));
  }

  /** Colour and black height after one node turned red and another black. */
  lemma Values(red: seq<bool>, bh: seq<nat>, up: int, down: int, j: int)
    requires |red| == |bh| && 0 <= up < |bh| && 0 <= down < |bh| && up != down
    ensures var red', bh' := Paint(Paint(red, up, false), down, true), Raise(Lower(bh, down), up);
            && BH(bh', j) == (if j == down && BH(bh, down) > 0 then BH(bh, down) - 1
                              else if j == up then BH(bh, up) + 1
                              else BH(bh, j))
            && Black(red', j) == (if j == down then 0 else if j == up then 1 else Black(red, j))
            && Red(red', j) == (if j == down then true else if j == up then false else Red(red, j))
    ensures Black(red, j) == if Red(red, j) then 0 else 1
  {
  }

  /** Red sibling: recolour and rotate, so that the new sibling is black. */
  lemma RedSibling(t: Shape, red: seq<bool>, bh: seq<nat>, x: int, g: int, s: Side, w: int)
    requires Short(t, red, bh, x, g, s) && !Red(red, x) && x != t.root
    requires Has(t, g) && Sized(t, |t.left|) && w == Kid(t, Other(s), g) && Red(red, w)
    ensures Has(t, w) && t.parent[g] < |t.left|
    ensures var t', red', bh' := Rotate(t, s, g), Paint(Paint(red, w, false), g, true), Raise(Lower(bh, g), w);
            && Short(t', red', bh', x, g, s) && Red(red', g) && !Red(red', x) && x != t'.root
            && !Red(red', Kid(t', Other(s), g)) && Kid(t', Other(s), g) == Kid(t, s, w)
  {
    hide Rotate, TreeOk, BlackOk, RedOk, Paint, Raise, Lower, BH, Black, Red;
    var red', bh' := Paint(Paint(red, w, false), g, true), Raise(Lower(bh, g), w);
    SiblingExists(t, red, bh, x, g, s);
    Around(t, g);
    Around(t, w);
    RotateKeepsTree(t, s, g);
    RotateParents(t, s, g, g);
    RotateKids(t, s, g, g);
    if x != -1 {
      Around(t, x);
      RotateParents(t, s, g, x);
    }
    RedSiblingHeights(t, red, bh, x, g, s, w);
    forall k | Has(t, k)
      ensures k != g ==> BlackOk(Rotate(t, s, g), red', bh', k)
      ensures RedOk(Rotate(t, s, g), red', k)
    {
      RedSiblingBlack(t, red, bh, x, g, s, w, k);
      RedSiblingRed(t, red, bh, x, g, s, w, k);
    }
  }

  lemma RedSiblingHeights(t: Shape, red: seq<bool>, bh: seq<nat>, x: int, g: int, s: Side, w: int)
    requires Short(t, red, bh, x, g, s) && !Red(red, x) && x != t.root
    requires Has(t, g) && Has(t, w) && t.parent[g] < |t.left| && w == Kid(t, Other(s), g) && Red(red, w)
    requires Sized(Rotate(t, s, g), |t.left|)
    ensures var t', red', bh' := Rotate(t, s, g), Paint(Paint(red, w, false), g, true), Raise(Lower(bh, g), w);
            && ShortAt(t', red', bh', x, g, s) && Red(red', g) && !Red(red', w) && !Red(red', x)
            && !Red(red', Kid(t, s, w)) && !Red(red', t'.root)
  {
    hide Rotate, TreeOk, Short, Paint, Raise, Lower;
    SiblingExists(t, red, bh, x, g, s);
    var n := Kid(t, s, w);
    ShortFacts(t, red, bh, x, g, s, w);
    Around(t, g);
    Around(t, w);
    if n != -1 {
      ShortFacts(t, red, bh, x, g, s, n);
    }
    Values(red, bh, w, g, g);
    Values(red, bh, w, g, w);
    Values(red, bh, w, g, x);
    Values(red, bh, w, g, n);
    Values(red, bh, w, g, t.root);
    RotateKids(t, s, g, g);
    RotateParents(t, s, g, g);
  }

  lemma RedSiblingBlack(t: Shape, red: seq<bool>, bh: seq<nat>, x: int, g: int, s: Side, w: int, k: int)
    requires Short(t, red, bh, x, g, s) && !Red(red, x) && x != t.root
    requires Has(t, g) && Has(t, w) && t.parent[g] < |t.left| && w == Kid(t, Other(s), g) && Red(red, w)
    requires Sized(Rotate(t, s, g), |t.left|) && Has(t, k)
    ensures k != g ==> BlackOk(Rotate(t, s, g), Paint(Paint(red, w, false), g, true), Raise(Lower(bh, g), w), k)
  {
    hide Rotate, TreeOk, Short, Paint, Raise, Lower, BH, Black, Red;
    SiblingExists(t, red, bh, x, g, s);
    ShortFacts(t, red, bh, x, g, s, k);
    ShortFacts(t, red, bh, x, g, s, w);
    Around(t, g);
    Around(t, w);
    Around(t, k);
    RotateKids(t, s, g, k);
    Values(red, bh, w, g, k);
    Values(red, bh, w, g, g);
    Values(red, bh, w, g, w);
    Values(red, bh, w, g, Kid(Rotate(t, s, g), s, k));
    Values(red, bh, w, g, Kid(Rotate(t, s, g), Other(s), k));
  }

  lemma RedSiblingRed(t: Shape, red: seq<bool>, bh: seq<nat>, x: int, g: int, s: Side, w: int, k: int)
    requires Short(t, red, bh, x, g, s) && !Red(red, x) && x != t.root
    requires Has(t, g) && Has(t, w) && t.parent[g] < |t.left| && w == Kid(t, Other(s), g) && Red(red, w)
    requires Sized(Rotate(t, s, g), |t.left|) && Has(t, k)
    ensures RedOk(Rotate(t, s, g), Paint(Paint(red, w, false), g, true), k)
  {
    hide Rotate, TreeOk, Short, Paint, Raise, Lower, BH, Black, Red, BlackOk;
    SiblingExists(t, red, bh, x, g, s);
    ShortFacts(t, red, bh, x, g, s, k);
    Around(t, g);
    Around(t, w);
    Around(t, k);
    RotateParents(t, s, g, k);
    Values(red, bh, w, g, k);
    Values(red, bh, w, g, Rotate(t, s, g).parent[k]);
  }

  /** Black sibling with black children: it turns red and the shortage moves up to g. */
  lemma BlackNephews(t: Shape, red: seq<bool>, bh: seq<nat>, x: int, g: int, s: Side, w: int)
    requires Short(t, red, bh, x, g, s) && !Red(red, x) && x != t.root
    requires Has(t, g) && Has(t, w) && Sized(t, |t.left|) && w == Kid(t, Other(s), g) && !Red(red, w)
    requires !Red(red, t.left[w]) && !Red(red, t.right[w])
    ensures var s' := if Has(t, t.parent[g]) then SideOf(t, t.parent[g], g) else Left;
            Short(t, Paint(red, w, true), Lower(Lower(bh, w), g), g, t.parent[g], s')
  {
    hide TreeOk, BlackOk, RedOk, Paint, Lower, BH, Black, Red;
    var red', bh' := Paint(red, w, true), Lower(Lower(bh, w), g);
    ShortFacts(t, red, bh, x, g, s, g);
    SiblingExists(t, red, bh, x, g, s);
    Around(t, g);
    Around(t, w);
    NephewValues(red, bh, w, g, t.root);
    forall k | Has(t, k)
      ensures k != t.parent[g] ==> BlackOk(t, red', bh', k)
      ensures k == t.parent[g] ==> ShortAt(t, red', bh', g, k, SideOf(t, k, g))
      ensures k != g && t.parent[k] != g ==> RedOk(t, red', k)
    {
      BlackNephewsBlack(t, red, bh, x, g, s, w, k);
      BlackNephewsRed(t, red, bh, x, g, s, w, k);
    }
  }

  lemma NephewValues(red: seq<bool>, bh: seq<nat>, w: int, g: int, j: int)
    requires |red| == |bh| && 0 <= w < |bh| && 0 <= g < |bh| && w != g && BH(bh, w) > 0 && BH(bh, g) > 0
    ensures var red', bh' := Paint(red, w, true), Lower(Lower(bh, w), g);
            && |red'| == |bh'| == |bh|
            && BH(bh', j) == (if j == w || j == g then BH(bh, j) - 1 else BH(bh, j))
            && Black(red', j) == (if j == w then 0 else Black(red, j))
            && Red(red', j) == (j == w || Red(red, j))
    ensures Black(red, j) == if Red(red, j) then 0 else 1
  {
  }

  lemma BlackNephewsBlack(t: Shape, red: seq<bool>, bh: seq<nat>, x: int, g: int, s: Side, w: int, k: int)
    requires Short(t, red, bh, x, g, s) && !Red(red, x) && x != t.root
    requires Has(t, g) && Has(t, w) && Sized(t, |t.left|) && w == Kid(t, Other(s), g) && !Red(red, w)
    requires Has(t, k)
    ensures var red', bh' := Paint(red, w, true), Lower(Lower(bh, w), g);
            && (k != t.parent[g] ==> BlackOk(t, red', bh', k))
            && (k == t.parent[g] ==> ShortAt(t, red', bh', g, k, SideOf(t, k, g)))
  {
    hide TreeOk, Short, Paint, Lower, BH, Black, Red;
    ShortFacts(t, red, bh, x, g, s, k);
    ShortFacts(t, red, bh, x, g, s, w);
    SiblingExists(t, red, bh, x, g, s);
    Around(t, g);
    Around(t, w);
    Around(t, k);
    Heights(red, bh, x, w);
    NephewValues(red, bh, w, g, k);
    NephewValues(red, bh, w, g, x);
    NephewValues(red, bh, w, g, t.left[k]);
    NephewValues(red, bh, w, g, t.right[k]);
  }

  lemma Heights(red: seq<bool>, bh: seq<nat>, x: int, w: int)
    ensures BH(bh, x) >= 0 && (!Red(red, w) ==> Black(red, w) == 1)
  {
  }

  lemma BlackNephewsRed(t: Shape, red: seq<bool>, bh: seq<nat>, x: int, g: int, s: Side, w: int, k: int)
    requires Short(t, red, bh, x, g, s) && !Red(red, x) && x != t.root
    requires Has(t, g) && Has(t, w) && Sized(t, |t.left|) && w == Kid(t, Other(s), g) && !Red(red, w)
    requires !Red(red, t.left[w]) && !Red(red, t.right[w]) && Has(t, k)
    ensures k != g && t.parent[k] != g ==> RedOk(t, Paint(red, w, true), k)
  {
    hide TreeOk, Short;
    ShortFacts(t, red, bh, x, g, s, k);
    Around(t, g);
    Around(t, k);
  }

  /** Black sibling, far child black: a rotation of the sibling makes the red near child the sibling. */
  lemma RedNear(t: Shape, red: seq<bool>, bh: seq<nat>, x: int, g: int, s: Side, w: int, n: int)
    requires Short(t, red, bh, x, g, s) && !Red(red, x) && x != t.root
    requires Has(t, g) && Has(t, w) && Sized(t, |t.left|) && w == Kid(t, Other(s), g) && !Red(red, w)
    requires n == Kid(t, s, w) && Red(red, n) && !Red(red, Kid(t, Other(s), w))
    ensures Has(t, n) && t.parent[w] < |t.left|
    ensures var t', red', bh' := Rotate(t, Other(s), w), Paint(Paint(red, n, false), w, true), Raise(Lower(bh, w), n);
            && Short(t', red', bh', x, g, s) && !Red(red', x) && x != t'.root
            && Kid(t', Other(s), g) == n && Kid(t', Other(s), n) == w && Red(red', w) && !Red(red', n)
            && Red(red', g) == Red(red, g)
  {
    hide Rotate, TreeOk, BlackOk, RedOk, Paint, Raise, Lower, BH, Black, Red;
    SiblingExists(t, red, bh, x, g, s);
    IsRed(red, n);
    Around(t, g);
    Around(t, w);
    Around(t, n);
    ShortFacts(t, red, bh, x, g, s, w);
    RotateKeepsTree(t, Other(s), w);
    RotateParents(t, Other(s), w, g);
    RotateKids(t, Other(s), w, g);
    RotateKids(t, Other(s), w, n);
    if x != -1 {
      Around(t, x);
      RotateParents(t, Other(s), w, x);
    }
    Values(red, bh, n, w, x);
    Values(red, bh, n, w, g);
    Values(red, bh, n, w, w);
    Values(red, bh, n, w, n);
    Values(red, bh, n, w, t.root);
    var red', bh' := Paint(Paint(red, n, false), w, true), Raise(Lower(bh, w), n);
    forall k | Has(t, k)
      ensures k != g ==> BlackOk(Rotate(t, Other(s), w), red', bh', k)
      ensures k == g ==> ShortAt(Rotate(t, Other(s), w), red', bh', x, g, s)
      ensures RedOk(Rotate(t, Other(s), w), red', k)
    {
      RedNearBlack(t, red, bh, x, g, s, w, n, k);
      RedNearRed(t, red, bh, x, g, s, w, n, k);
    }
  }

  lemma IsRed(red: seq<bool>, n: int)
    requires Red(red, n)
    ensures 0 <= n < |red|
  {
  }

  lemma RedNearBlack(t: Shape, red: seq<bool>, bh: seq<nat>, x: int, g: int, s: Side, w: int, n: int, k: int)
    requires Short(t, red, bh, x, g, s) && !Red(red, x) && x != t.root
    requires Has(t, g) && Has(t, w) && Has(t, n) && Sized(t, |t.left|) && w == Kid(t, Other(s), g) && !Red(red, w)
    requires n == Kid(t, s, w) && Red(red, n) && t.parent[w] < |t.left|
    requires Sized(Rotate(t, Other(s), w), |t.left|) && Has(t, k)
    ensures var t', red', bh' := Rotate(t, Other(s), w), Paint(Paint(red, n, false), w, true), Raise(Lower(bh, w), n);
            && (k != g ==> BlackOk(t', red', bh', k)) && (k == g ==> ShortAt(t', red', bh', x, g, s))
  {
    hide Rotate, TreeOk, Short, Paint, Raise, Lower, BH, Black, Red;
    SiblingExists(t, red, bh, x, g, s);
    ShortFacts(t, red, bh, x, g, s, k);
    ShortFacts(t, red, bh, x, g, s, w);
    ShortFacts(t, red, bh, x, g, s, n);
    Around(t, g);
    Around(t, w);
    Around(t, n);
    Around(t, k);
    RotateKids(t, Other(s), w, k);
    Values(red, bh, n, w, k);
    Values(red, bh, n, w, w);
    Values(red, bh, n, w, n);
    Values(red, bh, n, w, x);
    Values(red, bh, n, w, Kid(Rotate(t, Other(s), w), s, k));
    Values(red, bh, n, w, Kid(Rotate(t, Other(s), w), Other(s), k));
  }

  lemma RedNearRed(t: Shape, red: seq<bool>, bh: seq<nat>, x: int, g: int, s: Side, w: int, n: int, k: int)
    requires Short(t, red, bh, x, g, s) && !Red(red, x) && x != t.root
    requires Has(t, g) && Has(t, w) && Has(t, n) && Sized(t, |t.left|) && w == Kid(t, Other(s), g) && !Red(red, w)
    requires n == Kid(t, s, w) && Red(red, n) && !Red(red, Kid(t, Other(s), w)) && t.parent[w] < |t.left|
    requires Sized(Rotate(t, Other(s), w), |t.left|) && Has(t, k)
    ensures RedOk(Rotate(t, Other(s), w), Paint(Paint(red, n, false), w, true), k)
  {
    hide Rotate, TreeOk, Short, Paint, Raise, Lower, BH, Black, BlackOk;
    ShortFacts(t, red, bh, x, g, s, k);
    Around(t, w);
    Around(t, n);
    Around(t, k);
    RotateParents(t, Other(s), w, k);
    Values(red, bh, n, w, k);
    Values(red, bh, n, w, Rotate(t, Other(s), w).parent[k]);
  }

  /** The colours and heights after the last step of a removal. */
  function FarPaint(red: seq<bool>, w: int, g: int, f: int): (r: seq<bool>)
    ensures |r| == |red|
  {
    Paint(Paint(Paint(red, w, Red(red, g)), g, false), f, false)
  }

  ghost function FarHeights(bh: seq<nat>, x: int, w: int, g: int, f: int): (r: seq<nat>)
    requires 0 <= w < |bh| && 0 <= g < |bh|
    ensures |r| == |bh|
  {
    Raise(bh[w := bh[g]][g := BH(bh, x) + 1], f)
  }

  lemma FarValues(red: seq<bool>, bh: seq<nat>, x: int, w: int, g: int, f: int, j: int)
    requires |red| == |bh| && 0 <= w < |bh| && 0 <= g < |bh| && 0 <= f < |bh| && w != g && w != f && g != f
    ensures var red', bh' := FarPaint(red, w, g, f), FarHeights(bh, x, w, g, f);
            && BH(bh', j) == (if j == w then BH(bh, g)
                              else if j == g then BH(bh, x) + 1
                              else if j == f then BH(bh, f) + 1
                              else BH(bh, j))
            && Black(red', j) == (if j == w then Black(red, g) else if j == g || j == f then 1 else Black(red, j))
            && Red(red', j) == (if j == w then Red(red, g) else if j == g || j == f then false else Red(red, j))
    ensures Black(red, j) == if Red(red, j) then 0 else 1
  {
  }

  /** Black sibling with a red far child: recolour, rotate, and everything is balanced. */
  lemma RedFar(t: Shape, red: seq<bool>, bh: seq<nat>, x: int, g: int, s: Side, w: int, f: int)
    requires Short(t, red, bh, x, g, s) && !Red(red, x) && x != t.root
    requires Has(t, g) && Has(t, w) && Sized(t, |t.left|) && w == Kid(t, Other(s), g) && !Red(red, w)
    requires f == Kid(t, Other(s), w) && Red(red, f)
    ensures t.parent[g] < |t.left|
    ensures Balanced(Rotate(t, s, g), FarPaint(red, w, g, f), FarHeights(bh, x, w, g, f))
  {
    hide Rotate, TreeOk, BlackOk, RedOk, FarPaint, FarHeights, BH, Black, Red;
    SiblingExists(t, red, bh, x, g, s);
    IsRed(red, f);
    Around(t, g);
    Around(t, w);
    RotateKeepsTree(t, s, g);
    RotateParents(t, s, g, g);
    ShortFacts(t, red, bh, x, g, s, g);
    FarValues(red, bh, x, w, g, f, t.root);
    FarValues(red, bh, x, w, g, f, w);
    forall k | Has(t, k)
      ensures BlackOk(Rotate(t, s, g), FarPaint(red, w, g, f), FarHeights(bh, x, w, g, f), k)
      ensures RedOk(Rotate(t, s, g), FarPaint(red, w, g, f), k)
    {
      RedFarBlack(t, red, bh, x, g, s, w, f, k);
      RedFarRed(t, red, bh, x, g, s, w, f, k);
    }
  }

  /** The child on a side, without looking at which side it is. */
  lemma KidApart(t: Shape, s: Side, k: int)
    requires TreeOk(t) && Has(t, k)
    ensures Sized(t, |t.left|)
    ensures var c := Kid(t, s, k);
            c == -1 || (Has(t, c) && t.parent[c] == k && c != k && c != Kid(t, Other(s), k) && c != t.parent[k])
    ensures Has(t, t.parent[k]) ==> k == Kid(t, SideOf(t, t.parent[k], k), t.parent[k]) && t.parent[k] != k
  {
    Around(t, k);
  }

  /** The height condition, read from either side. */
  lemma BlackBySides(t: Shape, red: seq<bool>, bh: seq<nat>, k: int, s: Side)
    requires Sized(t, |t.left|) && Has(t, k)
    ensures BlackOk(t, red, bh, k)
       <==> BH(bh, Kid(t, s, k)) == BH(bh, Kid(t, Other(s), k)) == BH(bh, k) - Black(red, k)
  {
    hide BH, Black;
  }

  lemma SideCases(a: Side, s: Side)
    ensures a == s || a == Other(s)
    ensures s != Other(s)
  {
  }

  /** What holds at k before the rotation, by sides. */
  lemma ShortBySides(t: Shape, red: seq<bool>, bh: seq<nat>, x: int, g: int, s: Side, k: int)
    requires Short(t, red, bh, x, g, s) && !Red(red, x) && x != t.root && Has(t, k)
    ensures Sized(t, |t.left|) && Has(t, g) && Kid(t, s, g) == x
    ensures k != g ==> BH(bh, Kid(t, s, k)) == BH(bh, Kid(t, Other(s), k)) == BH(bh, k) - Black(red, k)
    ensures BH(bh, x) + 1 == BH(bh, Kid(t, Other(s), g)) == BH(bh, g) - Black(red, g)
  {
    hide TreeOk, BH, Black, Red, BlackOk, Short;
    ShortFacts(t, red, bh, x, g, s, k);
    BlackBySides(t, red, bh, k, s);
  }

  lemma RedFarBlack(t: Shape, red: seq<bool>, bh: seq<nat>, x: int, g: int, s: Side, w: int, f: int, k: int)
    requires Short(t, red, bh, x, g, s) && !Red(red, x) && x != t.root
    requires Has(t, g) && Has(t, w) && Has(t, f) && Sized(t, |t.left|) && w == Kid(t, Other(s), g) && !Red(red, w)
    requires f == Kid(t, Other(s), w) && Red(red, f) && t.parent[g] < |t.left|
    requires Sized(Rotate(t, s, g), |t.left|) && Has(t, k)
    ensures BlackOk(Rotate(t, s, g), FarPaint(red, w, g, f), FarHeights(bh, x, w, g, f), k)
  {
    hide Rotate, TreeOk, Short, FarPaint, FarHeights, BH, Black, BlackOk, Kid, Other, SideOf;
    ShortFacts(t, red, bh, x, g, s, k);
    ShortBySides(t, red, bh, x, g, s, k);
    ShortBySides(t, red, bh, x, g, s, w);
    KidApart(t, s, g);
    KidApart(t, Other(s), g);
    KidApart(t, s, w);
    KidApart(t, Other(s), w);
    KidApart(t, s, k);
    KidApart(t, Other(s), k);
    SideCases(SideOf(t, if Has(t, t.parent[g]) then t.parent[g] else 0, g), s);
    RotateKids(t, s, g, k);
    var t' := Rotate(t, s, g);
    FarValues(red, bh, x, w, g, f, k);
    FarValues(red, bh, x, w, g, f, w);
    FarValues(red, bh, x, w, g, f, Kid(t', s, k));
    FarValues(red, bh, x, w, g, f, Kid(t', Other(s), k));
    BlackBySides(t', FarPaint(red, w, g, f), FarHeights(bh, x, w, g, f), k, s);
  }

  lemma RedFarRed(t: Shape, red: seq<bool>, bh: seq<nat>, x: int, g: int, s: Side, w: int, f: int, k: int)
    requires Short(t, red, bh, x, g, s) && !Red(red, x) && x != t.root
    requires Has(t, g) && Has(t, w) && Has(t, f) && Sized(t, |t.left|) && w == Kid(t, Other(s), g) && !Red(red, w)
    requires f == Kid(t, Other(s), w) && Red(red, f) && t.parent[g] < |t.left|
    requires Sized(Rotate(t, s, g), |t.left|) && Has(t, k)
    ensures RedOk(Rotate(t, s, g), FarPaint(red, w, g, f), k)
  {
    hide Rotate, TreeOk, Short, FarPaint, FarHeights, BH, Black, BlackOk;
    SiblingExists(t, red, bh, x, g, s);
    ShortFacts(t, red, bh, x, g, s, k);
    ShortFacts(t, red, bh, x, g, s, g);
    Around(t, g);
    Around(t, w);
    Around(t, k);
    RotateParents(t, s, g, k);
    FarValues(red, bh, x, w, g, f, k);
    FarValues(red, bh, x, w, g, f, Rotate(t, s, g).parent[k]);
  }

  /** The shortage is made up by painting a red x black, or does not matter at the root. */
  lemma RemoveDone(t: Shape, red: seq<bool>, bh: seq<nat>, x: int, g: int, s: Side)
    requires Short(t, red, bh, x, g, s) && (Red(red, x) || x == t.root)
    ensures Balanced(t, Paint(red, x, false), if Red(red, x) then Raise(bh, x) else bh)
  {
    hide TreeOk, Paint, Raise, BlackOk, RedOk, Red, ShortAt;
    var red', bh' := Paint(red, x, false), if Red(red, x) then Raise(bh, x) else bh;
    RootBlack(t, red, bh, x, g, s);
    forall k | Has(t, k)
      ensures Sized(t, |t.left|) && BlackOk(t, red', bh', k) && RedOk(t, red', k)
    {
      RemoveDoneAt(t, red, bh, x, g, s, k);
    }
  }

  lemma RootBlack(t: Shape, red: seq<bool>, bh: seq<nat>, x: int, g: int, s: Side)
    requires Short(t, red, bh, x, g, s)
    ensures !Red(Paint(red, x, false), t.root)
  {
  }

  lemma BlackValues(red: seq<bool>, bh: seq<nat>, x: int, j: int)
    requires |red| == |bh|
    ensures var red', bh' := Paint(red, x, false), if Red(red, x) then Raise(bh, x) else bh;
            && BH(bh', j) == (if j == x && Red(red, x) then BH(bh, j) + 1 else BH(bh, j))
            && Black(red', j) == (if j == x then 1 else Black(red, j))
            && Red(red', j) == (j != x && Red(red, j))
    ensures Black(red, j) == if Red(red, j) then 0 else 1
  {
  }

  lemma ShortOpen(t: Shape, red: seq<bool>, bh: seq<nat>, x: int, g: int, s: Side, k: int)
    requires Short(t, red, bh, x, g, s) && Has(t, k)
    ensures Painted(t, red, bh) && Sized(t, |t.left|)
    ensures if x == -1 then g != -1 || t.root == -1 else Has(t, x) && t.parent[x] == g
    ensures if k == g then Kid(t, s, g) == x && ShortAt(t, red, bh, x, g, s) else BlackOk(t, red, bh, k)
    ensures k != x && t.parent[k] != x ==> RedOk(t, red, k)
  {
  }

  lemma RemoveDoneAt(t: Shape, red: seq<bool>, bh: seq<nat>, x: int, g: int, s: Side, k: int)
    requires Short(t, red, bh, x, g, s) && (Red(red, x) || x == t.root) && Has(t, k)
    ensures Sized(t, |t.left|)
    ensures BlackOk(t, Paint(red, x, false), if Red(red, x) then Raise(bh, x) else bh, k)
    ensures RedOk(t, Paint(red, x, false), k)
  {
    hide TreeOk, Short, Paint, Raise, BH, Black, Red;
    ShortOpen(t, red, bh, x, g, s, k);
    Around(t, k);
    if Red(red, x) {
      IsRed(red, x);
    }
    if x != -1 {
      Around(t, x);
    }
    BlackValues(red, bh, x, k);
    BlackValues(red, bh, x, t.left[k]);
    BlackValues(red, bh, x, t.right[k]);
    BlackValues(red, bh, x, t.parent[k]);
  }

  // ---------- where the two start ----------

  /** A red leaf added to a balanced tree. */
  lemma InsertStart(t: Shape, red: seq<bool>, bh: seq<nat>, par: int, side: Side)
    requires Balanced(t, red, bh) && CanHang(t, par, side)
    ensures var pos := LeafPos(par, side);
            && 0 <= pos <= |t.left|
            && Inserting(AddLeaf(t, par, side), red[..pos] + [true] + red[pos..], bh[..pos] + [0] + bh[pos..], pos)
  {
    hide AddLeaf, TreeOk, BlackOk, RedOk;
    AddLeafKeepsTree(t, par, side);
    AddLeafNew(t, par, side);
    AddLeafRoot(t, par, side);
    var pos := LeafPos(par, side);
    var red', bh' := red[..pos] + [true] + red[pos..], bh[..pos] + [0] + bh[pos..];
    forall k | 0 <= k <= |t.left|
      ensures BlackOk(AddLeaf(t, par, side), red', bh', k) && (k != pos ==> RedOk(AddLeaf(t, par, side), red', k))
    {
      if k == pos {
        LeafBlack(AddLeaf(t, par, side), red', bh', pos);
      } else {
        InsertStartAt(t, red, bh, par, side, Unshift(pos, k));
      }
    }
    GrownValues(red, bh, pos, t.root);
  }

  lemma LeafBlack(t: Shape, red: seq<bool>, bh: seq<nat>, k: int)
    requires |t.left| == |t.right| && 0 <= k < |t.left| == |red| == |bh| && t.left[k] == t.right[k] == -1
    requires red[k] && bh[k] == 0
    ensures BlackOk(t, red, bh, k)
  {
  }

  lemma GrownValues(red: seq<bool>, bh: seq<nat>, pos: nat, j: int)
    requires |red| == |bh| && pos <= |bh|
    ensures var red', bh' := red[..pos] + [true] + red[pos..], bh[..pos] + [0] + bh[pos..];
            && BH(bh', Shift(pos, j)) == BH(bh, j) && Black(red', Shift(pos, j)) == Black(red, j)
            && Red(red', Shift(pos, j)) == Red(red, j)
            && BH(bh', pos) == 0 && Red(red', pos)
  {
  }

  lemma InsertStartAt(t: Shape, red: seq<bool>, bh: seq<nat>, par: int, side: Side, k: int)
    requires Balanced(t, red, bh) && CanHang(t, par, side) && Has(t, k)
    requires 0 <= LeafPos(par, side) <= |t.left| && Sized(AddLeaf(t, par, side), |t.left| + 1)
    ensures var pos := LeafPos(par, side);
            var red', bh' := red[..pos] + [true] + red[pos..], bh[..pos] + [0] + bh[pos..];
            && BlackOk(AddLeaf(t, par, side), red', bh', Shift(pos, k))
            && RedOk(AddLeaf(t, par, side), red', Shift(pos, k))
  {
    hide AddLeaf, TreeOk, BH, Black, Red;
    assert BlackOk(t, red, bh, k) && RedOk(t, red, k);
    AddLeafOld(t, par, side, k);
    var pos := LeafPos(par, side);
    GrownValues(red, bh, pos, k);
    GrownValues(red, bh, pos, t.left[k]);
    GrownValues(red, bh, pos, t.right[k]);
    GrownValues(red, bh, pos, t.parent[k]);
    NoHeight(bh);
  }

  lemma NoHeight(bh: seq<nat>)
    ensures BH(bh, -1) == 0
  {
  }

  /** After splicing out e: balanced if e was red, otherwise one black node short at its child. */
  lemma RemoveStart(t: Shape, red: seq<bool>, bh: seq<nat>, e: int)
    requires Balanced(t, red, bh) && Has(t, e) && (t.left[e] == -1 || t.right[e] == -1)
    ensures t.parent[e] < |t.left|
    ensures var t', red', bh' := Splice(t, e), red[..e] + red[e + 1..], bh[..e] + bh[e + 1..];
            var s := if t.parent[e] < 0 then Left else SideOf(t, t.parent[e], e);
            if Red(red, e) then Balanced(t', red', bh')
            else Short(t', red', bh', Unshift(e, OnlyKid(t, e)), Unshift(e, t.parent[e]), s)
  {
    hide Splice, TreeOk, BlackOk, RedOk;
    SpliceKeepsTree(t, e);
    Around(t, e);
    SpliceSize(t, e);
    var t', red', bh' := Splice(t, e), red[..e] + red[e + 1..], bh[..e] + bh[e + 1..];
    var c, g := OnlyKid(t, e), t.parent[e];
    forall k | 0 <= k < |t.left| - 1
      ensures k != Unshift(e, g) || Red(red, e) ==> BlackOk(t', red', bh', k)
      ensures k == Unshift(e, g) && !Red(red, e) ==>
                Kid(t', SideOf(t, g, e), k) == Unshift(e, c)
                && ShortAt(t', red', bh', Unshift(e, c), k, SideOf(t, g, e))
      ensures k != Unshift(e, c) || Red(red, e) ==> RedOk(t', red', k)
    {
      RemoveStartBlack(t, red, bh, e, Shift(e, k));
      RemoveStartRed(t, red, bh, e, Shift(e, k));
    }
    RemoveStartRoot(t, red, bh, e);
  }

  lemma ShrunkValues(red: seq<bool>, bh: seq<nat>, e: nat, j: int)
    requires |red| == |bh| && e < |bh| && j != e
    ensures var red', bh' := red[..e] + red[e + 1..], bh[..e] + bh[e + 1..];
            && BH(bh', Unshift(e, j)) == BH(bh, j) && Black(red', Unshift(e, j)) == Black(red, j)
            && Red(red', Unshift(e, j)) == Red(red, j)
  {
  }

  lemma RemoveStartBlack(t: Shape, red: seq<bool>, bh: seq<nat>, e: int, k: int)
    requires Balanced(t, red, bh) && Has(t, e) && (t.left[e] == -1 || t.right[e] == -1) && Has(t, k) && k != e
    requires t.parent[e] < |t.left| && Sized(Splice(t, e), |t.left| - 1)
    ensures var t', red', bh', m := Splice(t, e), red[..e] + red[e + 1..], bh[..e] + bh[e + 1..], Unshift(e, k);
            var c, g := OnlyKid(t, e), t.parent[e];
            && (k != g || Red(red, e) ==> BlackOk(t', red', bh', m))
            && (k == g && !Red(red, e) ==>
                  Kid(t', SideOf(t, g, e), m) == Unshift(e, c)
                  && ShortAt(t', red', bh', Unshift(e, c), m, SideOf(t, g, e)))
  {
    hide Splice, TreeOk, BH, Black, Red;
    Around(t, e);
    Around(t, k);
    assert BlackOk(t, red, bh, k) && BlackOk(t, red, bh, e);
    SpliceFields(t, e, k);
    NoHeight(bh);
    BlackIs(red, e);
    ShrunkValues(red, bh, e, k);
    ShrunkValues(red, bh, e, OnlyKid(t, e));
    if t.left[k] != e {
      ShrunkValues(red, bh, e, t.left[k]);
    }
    if t.right[k] != e {
      ShrunkValues(red, bh, e, t.right[k]);
    }
  }

  lemma BlackIs(red: seq<bool>, j: int)
    ensures Black(red, j) == if Red(red, j) then 0 else 1
  {
  }

  lemma RemoveStartRed(t: Shape, red: seq<bool>, bh: seq<nat>, e: int, k: int)
    requires Balanced(t, red, bh) && Has(t, e) && (t.left[e] == -1 || t.right[e] == -1) && Has(t, k) && k != e
    requires t.parent[e] < |t.left| && Sized(Splice(t, e), |t.left| - 1)
    ensures k != OnlyKid(t, e) || Red(red, e) ==> RedOk(Splice(t, e), red[..e] + red[e + 1..], Unshift(e, k))
  {
    hide Splice, TreeOk, BH, Black, Red;
    Around(t, e);
    Around(t, k);
    assert RedOk(t, red, k) && RedOk(t, red, e);
    SpliceFields(t, e, k);
    ShrunkValues(red, bh, e, k);
    if t.parent[k] != e {
      ShrunkValues(red, bh, e, t.parent[k]);
    }
    if t.parent[e] != e {
      ShrunkValues(red, bh, e, t.parent[e]);
    }
  }

  lemma RemoveStartRoot(t: Shape, red: seq<bool>, bh: seq<nat>, e: int)
    requires Balanced(t, red, bh) && Has(t, e) && (t.left[e] == -1 || t.right[e] == -1)
    ensures t.parent[e] < |t.left| && Sized(Splice(t, e), |t.left| - 1)
    ensures var t', red', c := Splice(t, e), red[..e] + red[e + 1..], Unshift(e, OnlyKid(t, e));
            && (Red(red', t'.root) ==> t'.root == c && !Red(red, e))
            && (if c == -1 then t.parent[e] != -1 || t'.root == -1
                else Has(t', c) && t'.parent[c] == Unshift(e, t.parent[e]))
            && (t.parent[e] != -1 ==> Has(t', Unshift(e, t.parent[e])))
  {
    hide Splice, TreeOk, BH, Black, BlackOk;
    Around(t, e);
    SpliceSize(t, e);
    ShrunkValues(red, bh, e, OnlyKid(t, e));
    if t.root != e {
      ShrunkValues(red, bh, e, t.root);
    }
    if OnlyKid(t, e) != -1 {
      SpliceFields(t, e, OnlyKid(t, e));
    }
  }

  // ---------- the height of a balanced tree ----------

  /** The number of nodes on a longest path down from position k. */
  ghost function Height(t: Shape, k: int): nat
    requires TreeOk(t)
    decreases if Has(t, k) then t.hi[k] - t.lo[k] + 1 else 0
  {
    if !Has(t, k) then 0
    else
      KidsShrink(t, k);
      var l, r := Height(t, t.left[k]), Height(t, t.right[k]);
      1 + if l > r then l else r
  }

  lemma KidsShrink(t: Shape, k: int)
    requires TreeOk(t) && Has(t, k)
    ensures 0 <= t.lo[k] <= k <= t.hi[k]
    ensures t.left[k] == -1 || (Has(t, t.left[k]) && t.hi[t.left[k]] - t.lo[t.left[k]] + 1 == k - t.lo[k])
    ensures t.right[k] == -1 || (Has(t, t.right[k]) && t.hi[t.right[k]] - t.lo[t.right[k]] + 1 == t.hi[k] - k)
  {
    NeighboursOk(t, k);
  }

  /** A subtree of black height h holds at least 2^h - 1 nodes and is at most 2h high, one more below a red node. */
  lemma {:induction false} HeightBound(t: Shape, red: seq<bool>, bh: seq<nat>, k: int)
    requires Balanced(t, red, bh) && Has(t, k)
    ensures t.hi[k] - t.lo[k] + 2 >= Pow(2, bh[k])
    ensures Height(t, k) <= 2 * bh[k] + if red[k] then 1 else 0
    decreases t.hi[k] - t.lo[k] + 1
  {
    hide TreeOk;
    KidsShrink(t, k);
    Around(t, k);
    assert BlackOk(t, red, bh, k);
    if t.left[k] != -1 {
      HeightBound(t, red, bh, t.left[k]);
      assert RedOk(t, red, t.left[k]);
    }
    if t.right[k] != -1 {
      HeightBound(t, red, bh, t.right[k]);
      assert RedOk(t, red, t.right[k]);
    }
  }

  /** The height of a balanced tree of n nodes is at most 2 log2(n + 1). */
  lemma HeightIsLogarithmic(t: Shape, red: seq<bool>, bh: seq<nat>)
    requires Balanced(t, red, bh)
    ensures Pow(2, Height(t, t.root)) <= (|t.left| + 1) * (|t.left| + 1)
  {
    var n := |t.left|;
    if n > 0 {
      HeightBound(t, red, bh, t.root);
      var h := bh[t.root];
      PowMono(2, Height(t, t.root), h + h);
      PowAdd(2, h, h);
      MulMono(Pow(2, h), n + 1, Pow(2, h));
      MulMonoRight(n + 1, Pow(2, h), n + 1);
    }
  }
}
