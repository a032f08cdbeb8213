/** The shape of a binary search tree: rows of links indexed by the in-order position of the nodes. */
module RbShape {

  datatype Side = Left | Right

  function Other(side: Side): Side { if side.Left? then Right else Left }

  function Step(side: Side): int { if side.Left? then -1 else 1 }

  /** Links are positions, -1 for none; the subtree of position k covers the positions lo[k] to hi[k]. */
  datatype Shape = Shape(root: int, left: seq<int>, right: seq<int>, parent: seq<int>, lo: seq<int>, hi: seq<int>)

  function Put(row: seq<int>, k: int, x: int): (r: seq<int>)
    ensures |r| == |row|
  {
    if 0 <= k < |row| then row[k := x] else row
  }

  ghost predicate Sized(t: Shape, n: nat) {
    |t.left| == |t.right| == |t.parent| == |t.lo| == |t.hi| == n
  }

  ghost predicate Has(t: Shape, k: int) {
    0 <= k < |t.left|
  }

  function Kid(t: Shape, side: Side, k: int): int
    requires |t.left| == |t.right| && 0 <= k < |t.left|
  {
    if side.Left? then t.left[k] else t.right[k]
  }

  function SetKid(t: Shape, side: Side, k: int, x: int): Shape {
    if side.Left? then t.(left := Put(t.left, k, x)) else t.(right := Put(t.right, k, x))
  }

  function End(t: Shape, side: Side, k: int): int
    requires |t.lo| == |t.hi| && 0 <= k < |t.lo|
  {
    if side.Left? then t.lo[k] else t.hi[k]
  }

  function SetEnd(t: Shape, side: Side, k: int, x: int): Shape {
    if side.Left? then t.(lo := Put(t.lo, k, x)) else t.(hi := Put(t.hi, k, x))
  }

  function SetParent(t: Shape, k: int, x: int): Shape {
    t.(parent := Put(t.parent, k, x))
  }

  /** A child covers what is between its parent's position and the parent's end on that side. */
  ghost predicate KidOk(t: Shape, side: Side, k: int)
    requires Sized(t, |t.left|) && Has(t, k)
  {
    var c := Kid(t, side, k);
    if c == -1 then End(t, side, k) == k
    else Has(t, c) && t.parent[c] == k && End(t, side, c) == End(t, side, k) && End(t, Other(side), c) == k + Step(side)
  }

  ghost predicate ParentOk(t: Shape, k: int)
    requires Sized(t, |t.left|) && Has(t, k)
  {
    if t.parent[k] == -1 then k == t.root
    else Has(t, t.parent[k]) && (t.left[t.parent[k]] == k || t.right[t.parent[k]] == k)
  }

  ghost predicate NodeOk(t: Shape, k: int)
    requires Sized(t, |t.left|) && Has(t, k)
  {
    && 0 <= t.lo[k] <= k <= t.hi[k] < |t.left|
    && KidOk(t, Left, k) && KidOk(t, Right, k) && ParentOk(t, k)
  }

  ghost predicate RootOk(t: Shape)
    requires Sized(t, |t.left|)
  {
    if |t.left| == 0 then t.root == -1
    else Has(t, t.root) && t.parent[t.root] == -1 && t.lo[t.root] == 0 && t.hi[t.root] == |t.left| - 1
  }

  ghost predicate TreeOk(t: Shape) {
    && Sized(t, |t.left|) && RootOk(t)
    && forall k :: 0 <= k < |t.left| ==> NodeOk(t, k)
  }

  // ---------- rotation ----------

  /** The side of its parent g on which position p hangs. */
  function SideOf(t: Shape, g: int, p: int): Side
    requires 0 <= g < |t.left|
  {
    if t.left[g] == p then Left else Right
  }

  ghost predicate CanRotate(t: Shape, side: Side, p: int) {
    Sized(t, |t.left|) && Has(t, p) && Has(t, Kid(t, Other(side), p)) && t.parent[p] < |t.left|
  }

  /** Position p moves down to the given side, its child on the other side takes its place. */
  ghost function Rotate(t: Shape, side: Side, p: int): Shape
    requires CanRotate(t, side, p)
  {
    var q, g := Kid(t, Other(side), p), t.parent[p];
    var r := Kid(t, side, q);
    var t1 := SetParent(SetKid(t, Other(side), p, r), r, p);
    var t2 := SetParent(t1, q, g);
    var t3 := if g >= 0 then SetKid(t2, SideOf(t, g, p), g, q) else t2.(root := q);
    var t4 := SetParent(SetKid(t3, side, q, p), p, q);
    SetEnd(SetEnd(t4, side, q, End(t, side, p)), Other(side), p, q + Step(side))
  }

  lemma RotateSize(t: Shape, side: Side, p: int)
    requires CanRotate(t, side, p)
    ensures Sized(Rotate(t, side, p), |t.left|)
  {
  }

  lemma RotateParents(t: Shape, side: Side, p: int, k: int)
    requires Sized(t, |t.left|) && Has(t, p) && Has(t, Kid(t, Other(side), p)) && t.parent[p] < |t.left| && Has(t, k)
    ensures var t' := Rotate(t, side, p);
            var q, g := Kid(t, Other(side), p), t.parent[p];
            var r := Kid(t, side, q);
            && Sized(t', |t.left|) && t'.root == (if g < 0 then q else t.root)
            && t'.parent[k] == (if k == p then q else if k == q then g else if k == r then p else t.parent[k])
  {
  }

  lemma RotateKids(t: Shape, side: Side, p: int, k: int)
    requires Sized(t, |t.left|) && Has(t, p) && Has(t, Kid(t, Other(side), p)) && t.parent[p] < |t.left| && Has(t, k)
    ensures var t' := Rotate(t, side, p);
            var q, g := Kid(t, Other(side), p), t.parent[p];
            var r := Kid(t, side, q);
            && Sized(t', |t.left|)
            && Kid(t', side, k) == (if k == q then p
                                    else if k == g && SideOf(t, g, p) == side then q
                                    else Kid(t, side, k))
            && Kid(t', Other(side), k) ==
               (if k == g && SideOf(t, g, p) == Other(side) then q else if k == p then r else Kid(t, Other(side), k))
  {
  }

  lemma RotateEnds(t: Shape, side: Side, p: int, k: int)
    requires Sized(t, |t.left|) && Has(t, p) && Has(t, Kid(t, Other(side), p)) && t.parent[p] < |t.left| && Has(t, k)
    ensures var t' := Rotate(t, side, p);
            var q := Kid(t, Other(side), p);
            && Sized(t', |t.left|)
            && End(t', side, k) == (if k == q then End(t, side, p) else End(t, side, k))
            && End(t', Other(side), k) == (if k == p then q + Step(side) else End(t, Other(side), k))
  {
  }

  lemma {:induction false} RotateSideKid(t: Shape, side: Side, p: int, k: int)
    requires Sized(t, |t.left|) && Has(t, p) && Has(t, Kid(t, Other(side), p)) && t.parent[p] < |t.left| && Has(t, k)
    requires NodeOk(t, p) && NodeOk(t, Kid(t, Other(side), p)) && NodeOk(t, k)
    requires t.parent[p] != -1 ==> NodeOk(t, t.parent[p])
    requires Kid(t, side, k) != -1 ==> NodeOk(t, Kid(t, side, k))
    ensures Sized(Rotate(t, side, p), |t.left|) && KidOk(Rotate(t, side, p), side, k)
  {
    hide Rotate;
    RotateKids(t, side, p, k);
    RotateEnds(t, side, p, k);
    var c := Kid(Rotate(t, side, p), side, k);
    if c != -1 {
      RotateParents(t, side, p, c);
      RotateEnds(t, side, p, c);
    }
  }

  lemma {:induction false} RotateOtherKid(t: Shape, side: Side, p: int, k: int)
    requires Sized(t, |t.left|) && Has(t, p) && Has(t, Kid(t, Other(side), p)) && t.parent[p] < |t.left| && Has(t, k)
    requires NodeOk(t, p) && NodeOk(t, Kid(t, Other(side), p)) && NodeOk(t, k)
    requires t.parent[p] != -1 ==> NodeOk(t, t.parent[p])
    requires Kid(t, Other(side), k) != -1 ==> NodeOk(t, Kid(t, Other(side), k))
    ensures Sized(Rotate(t, side, p), |t.left|) && KidOk(Rotate(t, side, p), Other(side), k)
  {
    hide Rotate;
    RotateKids(t, side, p, k);
    RotateEnds(t, side, p, k);
    var c := Kid(Rotate(t, side, p), Other(side), k);
    if c != -1 {
      RotateParents(t, side, p, c);
      RotateEnds(t, side, p, c);
    }
  }

  lemma {:induction false} RotateParent(t: Shape, side: Side, p: int, k: int)
    requires Sized(t, |t.left|) && Has(t, p) && Has(t, Kid(t, Other(side), p)) && t.parent[p] < |t.left| && Has(t, k)
    requires NodeOk(t, p) && NodeOk(t, Kid(t, Other(side), p)) && NodeOk(t, k)
    requires t.parent[p] != -1 ==> NodeOk(t, t.parent[p])
    ensures Sized(Rotate(t, side, p), |t.left|) && ParentOk(Rotate(t, side, p), k)
  {
    hide Rotate;
    RotateParents(t, side, p, k);
    RotateKids(t, side, p, k);
    var g := Rotate(t, side, p).parent[k];
    if g != -1 {
      RotateKids(t, side, p, g);
    }
  }

  lemma {:induction false} RotateEndsOrder(t: Shape, side: Side, p: int, k: int)
    requires Sized(t, |t.left|) && Has(t, p) && Has(t, Kid(t, Other(side), p)) && t.parent[p] < |t.left| && Has(t, k)
    requires NodeOk(t, p) && NodeOk(t, Kid(t, Other(side), p)) && NodeOk(t, k)
    ensures var t' := Rotate(t, side, p);
            Sized(t', |t.left|) && 0 <= t'.lo[k] <= k <= t'.hi[k] < |t.left|
  {
    hide Rotate;
    RotateEnds(t, side, p, k);
  }

  lemma RotateKeepsTree(t: Shape, side: Side, p: int)
    requires TreeOk(t) && Has(t, p) && Kid(t, Other(side), p) != -1
    ensures Has(t, Kid(t, Other(side), p)) && t.parent[p] < |t.left|
    ensures TreeOk(Rotate(t, side, p)) && |Rotate(t, side, p).left| == |t.left|
  {
    hide Rotate;
    var q, g := Kid(t, Other(side), p), t.parent[p];
    NeighboursOk(t, p);
    NeighboursOk(t, q);
    RotateParents(t, side, p, p);
    forall k | Has(t, k)
      ensures NodeOk(Rotate(t, side, p), k)
    {
      NeighboursOk(t, k);
      RotateSideKid(t, side, p, k);
      RotateOtherKid(t, side, p, k);
      RotateParent(t, side, p, k);
      RotateEndsOrder(t, side, p, k);
    }
    RotateRoot(t, side, p);
  }

  lemma NeighboursOk(t: Shape, k: int)
    requires TreeOk(t) && Has(t, k)
    ensures Sized(t, |t.left|) && NodeOk(t, k)
    ensures t.left[k] != -1 ==> Has(t, t.left[k]) && NodeOk(t, t.left[k])
    ensures t.right[k] != -1 ==> Has(t, t.right[k]) && NodeOk(t, t.right[k])
    ensures t.parent[k] != -1 ==> Has(t, t.parent[k]) && NodeOk(t, t.parent[k])
  {
    assert NodeOk(t, k);
  }

  lemma RotateRoot(t: Shape, side: Side, p: int)
    requires TreeOk(t) && Has(t, p) && Has(t, Kid(t, Other(side), p)) && t.parent[p] < |t.left|
    ensures Sized(Rotate(t, side, p), |t.left|) && RootOk(Rotate(t, side, p))
  {
    hide Rotate;
    var q, g := Kid(t, Other(side), p), t.parent[p];
    NeighboursOk(t, p);
    RotateParents(t, side, p, t.root);
    RotateEnds(t, side, p, t.root);
    RotateParents(t, side, p, q);
    RotateEnds(t, side, p, q);
  }

  // ---------- a new leaf ----------

  function Shift(pos: int, v: int): int { if v >= pos then v + 1 else v }

  function Unshift(pos: int, v: int): int { if v > pos then v - 1 else v }

  /** A row with x put in at pos; entries from the threshold on grow by one. */
  function Grow(row: seq<int>, pos: nat, threshold: int, x: int): (r: seq<int>)
    requires pos <= |row|
    ensures |r| == |row| + 1
  {
    seq(|row| + 1, k requires 0 <= k <= |row| =>
      if k == pos then x else Shift(threshold, row[Unshift(pos, k)]))
  }

  /** Where a new child of `par` comes in the in-order sequence. */
  function LeafPos(par: int, side: Side): int {
    if par == -1 then 0 else if side.Left? then par else par + 1
  }

  ghost predicate CanHang(t: Shape, par: int, side: Side) {
    && Sized(t, |t.left|)
    && (if par == -1 then |t.left| == 0 else Has(t, par) && Kid(t, side, par) == -1)
  }

  /** A node without children hung below `par`, or made the root. */
  ghost function AddLeaf(t: Shape, par: int, side: Side): Shape
    requires CanHang(t, par, side)
  {
    var pos := LeafPos(par, side);
    var up := if par == -1 then -1 else Shift(pos, par);
    var grown := Shape(if par == -1 then pos else Shift(pos, t.root),
                       Grow(t.left, pos, pos, -1), Grow(t.right, pos, pos, -1), Grow(t.parent, pos, pos, up),
                       Grow(t.lo, pos, par + 1, pos), Grow(t.hi, pos, par, pos));
    SetKid(grown, side, up, pos)
  }

  lemma AddLeafNew(t: Shape, par: int, side: Side)
    requires TreeOk(t) && CanHang(t, par, side)
    ensures 0 <= LeafPos(par, side) <= |t.left|
    ensures var t', pos := AddLeaf(t, par, side), LeafPos(par, side);
            && Sized(t', |t.left| + 1) && NodeOk(t', pos)
            && t'.left[pos] == t'.right[pos] == -1 && t'.parent[pos] == if par == -1 then -1 else Shift(pos, par)
  {
  }

  lemma AddLeafOld(t: Shape, par: int, side: Side, k: int)
    requires TreeOk(t) && CanHang(t, par, side) && Has(t, k)
    ensures 0 <= LeafPos(par, side) <= |t.left|
    ensures var t', pos := AddLeaf(t, par, side), LeafPos(par, side);
            var m := Shift(pos, k);
            && Sized(t', |t.left| + 1)
            && t'.parent[m] == Shift(pos, t.parent[k])
            && Kid(t', side, m) == (if k == par then pos else Shift(pos, Kid(t, side, k)))
            && Kid(t', Other(side), m) == Shift(pos, Kid(t, Other(side), k))
            && t'.lo[m] == Shift(par + 1, t.lo[k]) && t'.hi[m] == Shift(par, t.hi[k])
  {
  }

  lemma AddLeafKid(t: Shape, par: int, side: Side, k: int, s: Side)
    requires TreeOk(t) && CanHang(t, par, side) && Has(t, k)
    ensures 0 <= LeafPos(par, side) <= |t.left| && Sized(AddLeaf(t, par, side), |t.left| + 1)
    ensures KidOk(AddLeaf(t, par, side), s, Shift(LeafPos(par, side), k))
  {
    hide AddLeaf, TreeOk, NodeOk, ParentOk;
    KidFacts(t, s, k);
    AddLeafNew(t, par, side);
    AddLeafNewEnds(t, par, side);
    AddLeafOld(t, par, side, k);
    if Kid(t, s, k) != -1 {
      AddLeafOld(t, par, side, Kid(t, s, k));
    }
  }

  lemma AddLeafNewEnds(t: Shape, par: int, side: Side)
    requires TreeOk(t) && CanHang(t, par, side)
    ensures 0 <= LeafPos(par, side) <= |t.left| && Sized(AddLeaf(t, par, side), |t.left| + 1)
    ensures var t', pos := AddLeaf(t, par, side), LeafPos(par, side);
            t'.lo[pos] == t'.hi[pos] == pos
  {
  }

  lemma KidFacts(t: Shape, s: Side, k: int)
    requires TreeOk(t) && Has(t, k)
    ensures Sized(t, |t.left|) && KidOk(t, s, k)
    ensures 0 <= t.lo[k] <= k <= t.hi[k] < |t.left|
  {
    assert NodeOk(t, k);
  }

  lemma AddLeafParent(t: Shape, par: int, side: Side, k: int)
    requires TreeOk(t) && CanHang(t, par, side) && Has(t, k)
    ensures 0 <= LeafPos(par, side) <= |t.left| && Sized(AddLeaf(t, par, side), |t.left| + 1)
    ensures ParentOk(AddLeaf(t, par, side), Shift(LeafPos(par, side), k))
  {
    hide AddLeaf, TreeOk;
    NeighboursOk(t, k);
    AddLeafNew(t, par, side);
    AddLeafOld(t, par, side, k);
    if t.parent[k] != -1 {
      AddLeafOld(t, par, side, t.parent[k]);
    }
    AddLeafRoot(t, par, side);
  }

  lemma AddLeafNode(t: Shape, par: int, side: Side, k: int)
    requires TreeOk(t) && CanHang(t, par, side) && Has(t, k)
    ensures 0 <= LeafPos(par, side) <= |t.left| && Sized(AddLeaf(t, par, side), |t.left| + 1)
    ensures NodeOk(AddLeaf(t, par, side), Shift(LeafPos(par, side), k))
  {
    hide AddLeaf, TreeOk, KidOk, ParentOk;
    NeighboursOk(t, k);
    AddLeafOld(t, par, side, k);
    AddLeafKid(t, par, side, k, Left);
    AddLeafKid(t, par, side, k, Right);
    AddLeafParent(t, par, side, k);
  }

  lemma AddLeafRoot(t: Shape, par: int, side: Side)
    requires TreeOk(t) && CanHang(t, par, side)
    ensures 0 <= LeafPos(par, side) <= |t.left| && Sized(AddLeaf(t, par, side), |t.left| + 1)
    ensures RootOk(AddLeaf(t, par, side))
    ensures AddLeaf(t, par, side).root == if par == -1 then LeafPos(par, side) else Shift(LeafPos(par, side), t.root)
  {
    AddLeafNew(t, par, side);
    if par != -1 {
      AddLeafOld(t, par, side, t.root);
    }
  }

  lemma AddLeafKeepsTree(t: Shape, par: int, side: Side)
    requires TreeOk(t) && CanHang(t, par, side)
    ensures 0 <= LeafPos(par, side) <= |t.left| && TreeOk(AddLeaf(t, par, side))
    ensures |AddLeaf(t, par, side).left| == |t.left| + 1
  {
    hide AddLeaf, NodeOk, RootOk;
    AddLeafNew(t, par, side);
    AddLeafRoot(t, par, side);
    var pos := LeafPos(par, side);
    forall k | 0 <= k <= |t.left|
      ensures NodeOk(AddLeaf(t, par, side), k)
    {
      if k != pos {
        AddLeafNode(t, par, side, Unshift(pos, k));
      }
    }
  }

  // ---------- splicing out a position with at most one child ----------

  /** A row without the entry at e; entries above the threshold shrink by one. */
  function Shrink(row: seq<int>, e: nat, threshold: int): (r: seq<int>)
    requires e < |row|
    ensures |r| == |row| - 1
  {
    seq(|row| - 1, k requires 0 <= k < |row| - 1 => Unshift(threshold, row[Shift(e, k)]))
  }

  /** The only child of a position, or -1. */
  function OnlyKid(t: Shape, e: int): int
    requires |t.left| == |t.right| && 0 <= e < |t.left|
  {
    if t.left[e] == -1 then t.right[e] else t.left[e]
  }

  /** The child of e takes its place below its parent g. */
  function Bypass(t: Shape, e: int): Shape
    requires |t.left| == |t.right| == |t.parent| && 0 <= e < |t.left| && t.parent[e] < |t.left|
  {
    var c, g := OnlyKid(t, e), t.parent[e];
    var t1 := SetParent(t, c, g);
    if g >= 0 then SetKid(t1, SideOf(t, g, e), g, c) else t1.(root := c)
  }

  function Splice(t: Shape, e: int): Shape
    requires |t.left| == |t.right| == |t.parent| == |t.lo| == |t.hi| && 0 <= e < |t.left| && t.parent[e] < |t.left|
  {
    var b := Bypass(t, e);
    Shape(Unshift(e, b.root), Shrink(b.left, e, e), Shrink(b.right, e, e), Shrink(b.parent, e, e),
          Shrink(t.lo, e, e), Shrink(t.hi, e, e - 1))
  }

  /** The links and ends of position k, seen after position e is gone. */
  lemma SpliceFields(t: Shape, e: int, k: int)
    requires Sized(t, |t.left|) && Has(t, e) && t.parent[e] < |t.left| && Has(t, k) && k != e
    ensures var t', m, c, g := Splice(t, e), Unshift(e, k), OnlyKid(t, e), t.parent[e];
            && Sized(t', |t.left| - 1) && 0 <= m < |t.left| - 1
            && t'.parent[m] == Unshift(e, if k == c then g else t.parent[k])
            && t'.left[m] == Unshift(e, if k == g && t.left[g] == e then c else t.left[k])
            && t'.right[m] == Unshift(e, if k == g && t.left[g] != e then c else t.right[k])
            && t'.lo[m] == Unshift(e, t.lo[k]) && t'.hi[m] == Unshift(e - 1, t.hi[k])
            && t'.root == Unshift(e, if g < 0 then c else t.root)
  {
  }

  /** A position hangs only below its parent. */
  lemma OnlyParent(t: Shape, e: int, k: int)
    requires TreeOk(t) && Has(t, e) && Has(t, k)
    ensures Sized(t, |t.left|) && t.parent[e] < |t.left|
    ensures t.left[k] == e || t.right[k] == e <==> t.parent[e] == k
    ensures !(t.left[k] == t.right[k] == e)
  {
    NeighboursOk(t, e);
    NeighboursOk(t, k);
  }

  lemma SpliceKid(t: Shape, e: int, k: int, s: Side)
    requires TreeOk(t) && Has(t, e) && (t.left[e] == -1 || t.right[e] == -1) && Has(t, k) && k != e
    ensures t.parent[e] < |t.left| && Sized(Splice(t, e), |t.left| - 1)
    ensures KidOk(Splice(t, e), s, Unshift(e, k))
  {
    hide Splice, TreeOk, NodeOk, ParentOk;
    KidFacts(t, s, k);
    KidFacts(t, Left, e);
    KidFacts(t, Right, e);
    OnlyParent(t, e, k);
    SpliceLink(t, e, k);
    SpliceLink(t, e, Kid(t, s, k));
    SpliceLink(t, e, OnlyKid(t, e));
  }

  lemma SpliceParent(t: Shape, e: int, k: int)
    requires TreeOk(t) && Has(t, e) && (t.left[e] == -1 || t.right[e] == -1) && Has(t, k) && k != e
    ensures t.parent[e] < |t.left| && Sized(Splice(t, e), |t.left| - 1)
    ensures ParentOk(Splice(t, e), Unshift(e, k))
  {
    hide Splice, TreeOk;
    NeighboursOk(t, k);
    NeighboursOk(t, e);
    SpliceLink(t, e, k);
    SpliceLink(t, e, t.parent[k]);
    SpliceLink(t, e, t.parent[e]);
    SpliceSize(t, e);
  }

  lemma SpliceNode(t: Shape, e: int, k: int)
    requires TreeOk(t) && Has(t, e) && (t.left[e] == -1 || t.right[e] == -1) && Has(t, k) && k != e
    ensures t.parent[e] < |t.left| && Sized(Splice(t, e), |t.left| - 1)
    ensures NodeOk(Splice(t, e), Unshift(e, k))
  {
    hide Splice, TreeOk, KidOk, ParentOk;
    NeighboursOk(t, k);
    NeighboursOk(t, e);
    SpliceLink(t, e, k);
    SpliceKid(t, e, k, Left);
    SpliceKid(t, e, k, Right);
    SpliceParent(t, e, k);
  }

  lemma SpliceLink(t: Shape, e: int, k: int)
    requires TreeOk(t) && Has(t, e) && t.parent[e] < |t.left|
    ensures Has(t, k) && k != e ==>
              var t', m, c, g := Splice(t, e), Unshift(e, k), OnlyKid(t, e), t.parent[e];
              && Sized(t', |t.left| - 1) && 0 <= m < |t.left| - 1 && NodeOk(t, k)
              && t'.parent[m] == Unshift(e, if k == c then g else t.parent[k])
              && t'.left[m] == Unshift(e, if k == g && t.left[g] == e then c else t.left[k])
              && t'.right[m] == Unshift(e, if k == g && t.left[g] != e then c else t.right[k])
              && t'.lo[m] == Unshift(e, t.lo[k]) && t'.hi[m] == Unshift(e - 1, t.hi[k])
  {
    hide Splice;
    if Has(t, k) && k != e {
      SpliceFields(t, e, k);
      NeighboursOk(t, k);
    }
  }

  lemma SpliceKeepsTree(t: Shape, e: int)
    requires TreeOk(t) && Has(t, e) && (t.left[e] == -1 || t.right[e] == -1)
    ensures t.parent[e] < |t.left| && TreeOk(Splice(t, e)) && |Splice(t, e).left| == |t.left| - 1
  {
    hide Splice, NodeOk;
    NeighboursOk(t, e);
    SpliceRoot(t, e);
    forall k | 0 <= k < |t.left| - 1
      ensures NodeOk(Splice(t, e), k)
    {
      SpliceNode(t, e, Shift(e, k));
    }
  }

  lemma SpliceRoot(t: Shape, e: int)
    requires TreeOk(t) && Has(t, e) && (t.left[e] == -1 || t.right[e] == -1)
    ensures t.parent[e] < |t.left| && Sized(Splice(t, e), |t.left| - 1) && RootOk(Splice(t, e))
  {
    hide Splice;
    NeighboursOk(t, e);
    NeighboursOk(t, t.root);
    SpliceLink(t, e, t.root);
    SpliceLink(t, e, OnlyKid(t, e));
    SpliceSize(t, e);
  }

  lemma SpliceSize(t: Shape, e: int)
    requires Sized(t, |t.left|) && Has(t, e) && t.parent[e] < |t.left|
    ensures Sized(Splice(t, e), |t.left| - 1)
    ensures Splice(t, e).root == Unshift(e, if t.parent[e] < 0 then OnlyKid(t, e) else t.root)
  {
  }
}
