/** libuv's intrusive circular lists: a head and its members, linked both ways through the members themselves. */
module Queue {

  class Link {
    var next: Link
    var prev: Link
    const owner: nat  // what the link is part of

    /** A link on its own is an empty list. */
    constructor (owner: nat)
      ensures next == this && prev == this && this.owner == owner
    {
      next, prev, this.owner := this, this, owner;
    }
  }

  /** s with the first occurrence of x left out. */
  function Without<T(==)>(s: seq<T>, x: T): (r: seq<T>)
    ensures |r| == if x in s then |s| - 1 else |s|
    ensures forall y :: y in r ==> y in s
    ensures forall y :: y in s && y != x ==> y in r
  {
    if s == [] then [] else if s[0] == x then s[1..] else [s[0]] + Without(s[1..], x)
  }

  lemma {:induction false} WithoutNothing<T>(s: seq<T>, x: T)
    requires x !in s
    ensures Without(s, x) == s
  {
    if s != [] {
      WithoutNothing(s[1..], x);
    }
  }

  /** Leaving out the only occurrence. */
  lemma {:induction false} WithoutAt<T>(s: seq<T>, k: nat)
    requires k < |s| && forall i :: 0 <= i < k ==> s[i] != s[k]
    ensures Without(s, s[k]) == s[..k] + s[k + 1..]
  {
    if k > 0 {
      WithoutAt(s[1..], k - 1);
    }
  }

  /** The link at position i of the circle that starts at the head h. */
  ghost function At(h: Link, s: seq<Link>, i: int): Link {
    if 0 <= i < |s| then s[i] else h
  }

  /** h is the head of a circle through the links of s, in this order. */
  ghost predicate Ring(h: Link, s: seq<Link>)
    reads h, s
  {
    && (forall i :: 0 <= i < |s| ==> s[i] != h)
    && (forall i, j :: 0 <= i < j < |s| ==> s[i] != s[j])
    && (forall i :: -1 <= i < |s| ==> Joined(h, s, i))
  }

  /** The link at position i and the one after it point at each other. */
  ghost predicate Joined(h: Link, s: seq<Link>, i: int)
    reads h, s
  {
    At(h, s, i).next == At(h, s, i + 1) && At(h, s, i + 1).prev == At(h, s, i)
  }

  method Init(q: Link)
    modifies q
    ensures Ring(q, []) && q.next == q && q.prev == q
  {
    q.next := q;
    q.prev := q;
  }

  method Empty(h: Link, ghost s: seq<Link>) returns (r: bool)
    requires Ring(h, s)
    ensures r <==> s == []
  {
    assert Joined(h, s, -1);
    r := h == h.next;
  }

  method Head(h: Link, ghost s: seq<Link>) returns (r: Link)
    requires Ring(h, s) && s != []
    ensures r == s[0]
  {
    assert Joined(h, s, -1);
    r := h.next;
  }

  method InsertTail(h: Link, q: Link, ghost s: seq<Link>)
    requires Ring(h, s) && q != h && q !in s
    modifies h, q, s
    ensures Ring(h, s + [q])
  {
    assert Joined(h, s, |s| - 1);
    q.next := h;
    q.prev := h.prev;
    q.prev.next := q;
    h.prev := q;
    forall i | -1 <= i <= |s|
      ensures Joined(h, s + [q], i)
    {
      if i < |s| - 1 {
        assert old(Joined(h, s, i));
      }
    }
  }

  method InsertHead(h: Link, q: Link, ghost s: seq<Link>)
    requires Ring(h, s) && q != h && q !in s
    modifies h, q, s
    ensures Ring(h, [q] + s)
  {
    assert Joined(h, s, -1);
    q.next := h.next;
    q.prev := h;
    q.next.prev := q;
    h.next := q;
    forall i | -1 <= i <= |s|
      ensures Joined(h, [q] + s, i)
    {
      if i > 0 {
        assert old(Joined(h, s, i - 1));
      }
    }
  }

  /**
   * Takes a member out; it keeps its stale links until it is initialised again. A link on its own is its own
   * neighbour, and taking it out changes nothing.
   */
  method Remove(q: Link, ghost h: Link, ghost s: seq<Link>)
    requires Ring(h, s) && q != h && (q in s || (q.next == q && q.prev == q))
    modifies h, s, q
    ensures Ring(h, Without(s, q))
    ensures q !in s ==> q.next == q && q.prev == q
  {
    hide Without, Position;
    ghost var k: nat := if q in s then Position(s, q) else 0;
    assert q in s ==> Joined(h, s, k - 1) && Joined(h, s, k);
    q.prev.next := q.next;
    q.next.prev := q.prev;
    if q in s {
      WithoutAt(s, k);
    } else {
      WithoutNothing(s, q);
    }
    ghost var r := Without(s, q);
    forall i | -1 <= i < |r|
      ensures Joined(h, r, i)
    {
      assert old(Joined(h, s, if q in s && i > k - 1 then i + 1 else i));
    }
  }

  ghost function Position<T>(s: seq<T>, x: T): (k: nat)
    requires x in s
    ensures k < |s| && s[k] == x
  {
    var k: nat :| k < |s| && s[k] == x;
    k
  }

  /** Initialises a link that is no member: the circle is none of its business. */
  method Isolate(q: Link, ghost h: Link, ghost s: seq<Link>)
    requires Ring(h, s) && q != h && q !in s
    modifies q
    ensures Ring(h, s) && q.next == q && q.prev == q
  {
    Init(q);
    forall i | -1 <= i < |s|
      ensures Joined(h, s, i)
    {
      assert old(Joined(h, s, i));
    }
  }

  /** All members of h move to n, in order. */
  method Move(h: Link, n: Link, ghost s: seq<Link>)
    requires Ring(h, s) && n != h && n !in s
    modifies h, n, s
    ensures Ring(n, s) && Ring(h, [])
  {
    var empty := Empty(h, s);
    if empty {
      Init(n);
    } else {
      assert Joined(h, s, -1);
      Split(h, h.next, n, s);
    }
  }

  /** Everything from q, the first member, to the end goes to n. */
  method Split(h: Link, q: Link, n: Link, ghost s: seq<Link>)
    requires Ring(h, s) && s != [] && q == s[0] && n != h && n !in s
    modifies h, n, s
    ensures Ring(n, s) && Ring(h, [])
  {
    assert Joined(h, s, -1) && Joined(h, s, |s| - 1);
    n.prev := h.prev;
    n.prev.next := n;
    n.next := q;
    h.prev := q.prev;
    h.prev.next := h;
    q.prev := n;
    forall i | -1 <= i < |s|
      ensures Joined(n, s, i)
    {
      if 0 <= i < |s| - 1 {
        assert old(Joined(h, s, i));
      }
    }
  }
}
