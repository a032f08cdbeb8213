/** Where libuv's timers are: in the heap of linked nodes, in the ready queue, or on their own. */
module TimerStore {
  import opened HeapOrder
  import PointerHeap
  import opened Queue

  /** The links of some timers. */
  ghost function Circle(m: map<nat, Link>, s: seq<nat>): (r: seq<Link>)
    requires forall i :: 0 <= i < |s| ==> s[i] in m
    ensures |r| == |s| && forall i :: 0 <= i < |s| ==> r[i] == m[s[i]]
  {
    seq(|s|, i requires 0 <= i < |s| => m[s[i]])
  }

  lemma {:induction false} CircleWithout(m: map<nat, Link>, s: seq<nat>, x: nat)
    requires (forall i :: 0 <= i < |s| ==> s[i] in m) && x in m
    requires forall a, b :: a in m && b in m && a != b ==> m[a] != m[b]
    ensures forall i :: 0 <= i < |Without(s, x)| ==> Without(s, x)[i] in m
    ensures Circle(m, Without(s, x)) == Without(Circle(m, s), m[x])
    ensures m[x] in Circle(m, s) <==> x in s
    decreases |s|
  {
    if s != [] {
      CircleWithout(m, s[1..], x);
      assert Circle(m, s)[1..] == Circle(m, s[1..]);
      assert Circle(m, s) == [m[s[0]]] + Circle(m, s[1..]);
    }
  }

  /** The heap's row of nodes has one node for each member. */
  ghost predicate Members(s: seq<PointerHeap.Node>, heap: set<nat>, nodes: set<PointerHeap.Node>,
                          node: map<nat, PointerHeap.Node>) {
    && |s| == |heap|
    && (forall n :: n in s ==> n in nodes && n.owner in heap)
    && (forall id :: id in heap ==> id in node && node[id] in s)
  }

  /** A timer in the heap has the key under which it went in. */
  ghost predicate KeysKept(nodes: set<PointerHeap.Node>, heap: set<nat>, keys: map<nat, Key>)
    reads nodes
  {
    forall n :: n in nodes && n.owner in heap ==> n.owner in keys && n.NodeKey() == keys[n.owner]
  }

  ghost predicate Chained(ready: seq<nat>, links: set<Link>, link: map<nat, Link>) {
    forall i :: 0 <= i < |ready| ==> ready[i] in link && link[ready[i]] in links
  }

  /** The links of timers that are not in the queue. */
  ghost predicate Alone(links: set<Link>, ready: seq<nat>)
    reads links
  {
    forall l :: l in links && l.owner !in ready ==> l.next == l && l.prev == l
  }

  /** Every timer has its own node and its own link. */
  ghost predicate Owned(node: map<nat, PointerHeap.Node>, link: map<nat, Link>, nodes: set<PointerHeap.Node>,
                        links: set<Link>, head: Link) {
    && node.Keys == link.Keys && head !in links
    && (forall id :: id in node ==> node[id] in nodes && node[id].owner == id)
    && (forall n :: n in nodes ==> n.owner in node && node[n.owner] == n)
    && (forall id :: id in link ==> link[id] in links && link[id].owner == id)
    && (forall l :: l in links ==> l.owner in link && link[l.owner] == l)
  }

  lemma OwnedMore(node: map<nat, PointerHeap.Node>, link: map<nat, Link>, nodes: set<PointerHeap.Node>,
                  links: set<Link>, head: Link,
                  id: nat, n: PointerHeap.Node, l: Link)
    requires Owned(node, link, nodes, links, head) && id !in node && n.owner == id && l.owner == id && l != head
    ensures Owned(node[id := n], link[id := l], nodes + {n}, links + {l}, head)
  {
  }

  lemma MembersMore(s: seq<PointerHeap.Node>, heap: set<nat>, nodes: set<PointerHeap.Node>,
                    node: map<nat, PointerHeap.Node>,
                    id: nat, n: PointerHeap.Node)
    requires Members(s, heap, nodes, node) && id !in node
    ensures Members(s, heap, nodes + {n}, node[id := n]) && id !in heap
  {
  }

  lemma ChainedMore(ready: seq<nat>, links: set<Link>, link: map<nat, Link>, id: nat, l: Link)
    requires Chained(ready, links, link) && id !in link
    ensures Chained(ready, links + {l}, link[id := l]) && Circle(link[id := l], ready) == Circle(link, ready)
            && id !in ready
  {
  }

  lemma KeysMore(nodes: set<PointerHeap.Node>, heap: set<nat>, keys: map<nat, Key>, n: PointerHeap.Node)
    requires KeysKept(nodes, heap, keys) && n.owner !in heap
    ensures KeysKept(nodes + {n}, heap, keys)
  {
  }

  lemma AloneMore(links: set<Link>, ready: seq<nat>, l: Link)
    requires Alone(links, ready) && l.next == l && l.prev == l
    ensures Alone(links + {l}, ready)
  {
  }

  /** Putting in a node. */
  lemma MembersInserted(s: seq<PointerHeap.Node>, t: seq<PointerHeap.Node>, heap: set<nat>,
                        nodes: set<PointerHeap.Node>,
                        node: map<nat, PointerHeap.Node>, id: nat)
    requires Members(s, heap, nodes, node) && id in node && id !in heap && node[id] in nodes && node[id].owner == id
    requires multiset(t) == multiset(s) + multiset{node[id]}
    ensures Members(t, heap + {id}, nodes, node)
  {
    assert |multiset(t)| == |t| && |multiset(s)| == |s|;
    forall m
      ensures m in t <==> m in s || m == node[id]
    {
      assert (m in t <==> multiset(t)[m] > 0) && (m in s <==> multiset(s)[m] > 0);
    }
  }

  /** Taking out a node. */
  lemma MembersRemoved(s: seq<PointerHeap.Node>, t: seq<PointerHeap.Node>, heap: set<nat>, nodes: set<PointerHeap.Node>,
                       node: map<nat, PointerHeap.Node>, id: nat)
    requires Members(s, heap, nodes, node) && id in heap && multiset(s)[node[id]] == 1
    requires multiset(t) == multiset(s) - multiset{node[id]}
    requires forall n :: n in nodes ==> n.owner in node && node[n.owner] == n
    requires forall o :: o in node ==> node[o].owner == o
    ensures Members(t, heap - {id}, nodes, node)
  {
    assert |multiset(t)| == |t| && |multiset(s)| == |s|;
    forall m
      ensures m in t <==> m in s && m != node[id]
    {
      assert (m in t <==> multiset(t)[m] > 0) && (m in s <==> multiset(s)[m] > 0);
    }
  }

  class Store {
    const timers: PointerHeap.Heap
    const head: Link
    /** Each timer has a node for the heap and a link for the queue. */
    var node: map<nat, PointerHeap.Node>
    var link: map<nat, Link>
    ghost var nodes: set<PointerHeap.Node>
    ghost var links: set<Link>
    /** Which timers are in the heap, under which keys, and which are in the ready queue, in order. */
    ghost var heap: set<nat>
    ghost var keys: map<nat, Key>
    ghost var ready: seq<nat>

    ghost function Repr(): set<object>
      reads this`nodes, this`links
    {
      {timers, head} + nodes + links
    }

    ghost predicate HeapLinked()
      reads this`node, this`nodes, this`heap, this`keys, timers, timers.nodes, nodes
    {
      timers.Valid() && Members(timers.nodes, heap, nodes, node) && KeysKept(nodes, heap, keys)
    }

    /** The circle goes through the links of the timers in `ready`; every other timer's link is on its own. */
    ghost predicate QueueLinked()
      reads this`link, this`links, this`ready, head, links
    {
      Chained(ready, links, link) && Ring(head, Circle(link, ready)) && Alone(links, ready)
    }

    ghost predicate Linked()
      reads this, timers, timers.nodes, nodes, head, links
    {
      Owned(node, link, nodes, links, head) && HeapLinked() && QueueLinked()
    }

    lemma Open()
      requires Linked()
      ensures Owned(node, link, nodes, links, head) && timers.Valid() && Members(timers.nodes, heap, nodes, node)
      ensures KeysKept(nodes, heap, keys) && QueueLinked() && timers.nelts == |heap|
    {
      timers.Counted();
    }

    lemma Close()
      requires Owned(node, link, nodes, links, head) && timers.Valid() && Members(timers.nodes, heap, nodes, node)
      requires KeysKept(nodes, heap, keys) && QueueLinked()
      ensures Linked()
    {
    }

    constructor ()
      ensures Linked() && heap == {} && ready == [] && node == map[] && fresh(Repr())
    {
      timers := new PointerHeap.Heap();
      head := new Link(0);
      node, link, nodes, links, heap, ready, keys := map[], map[], {}, {}, {}, [], map[];
      new;
      assert Circle(link, ready) == [];
    }

    /** Room for another timer. */
    method Add(id: nat)
      requires Linked() && id !in node
      modifies this`node, this`link, this`nodes, this`links
      ensures Linked() && node.Keys == old(node.Keys) + {id}
      ensures fresh(Repr() - old(Repr()))
    {
      hide Linked;
      var n := new PointerHeap.Node(id, 0, 0);
      var l := new Link(id);
      Adopt(id, n, l);
    }

    method Adopt(id: nat, n: PointerHeap.Node, l: Link)
      requires Linked() && id !in node && n.owner == id && l.owner == id && l.next == l && l.prev == l && l != head
      modifies this`node, this`link, this`nodes, this`links
      ensures Linked() && node.Keys == old(node.Keys) + {id} && nodes == old(nodes) + {n} && links == old(links) + {l}
    {
      hide PointerHeap.Heap.Valid, HeapLinked, Linked, Ring, Members, Owned, Chained, Circle, KeysKept, Alone;
      Open();
      OwnedKeys(node, link, nodes, links, head);
      OwnedMore(node, link, nodes, links, head, id, n, l);
      MembersMore(timers.nodes, heap, nodes, node, id, n);
      ChainedMore(ready, links, link, id, l);
      KeysMore(nodes, heap, keys, n);
      AloneMore(links, ready, l);
      node, link, nodes, links := node[id := n], link[id := l], nodes + {n}, links + {l};
      Close();
    }

    /** Gives a free node its key and puts it into the heap. */
    method PutNode(n: PointerHeap.Node, timeout: nat, startId: nat)
      requires timers.Valid() && n !in timers.nodes && timers.nelts < 0xFFFF_FFFF && n in nodes
      requires forall m :: m in timers.nodes ==> m in nodes
      requires forall m :: m in nodes && m.owner == n.owner ==> m == n
      requires KeysKept(nodes, heap, keys) && QueueLinked()
      modifies timers, nodes
      ensures timers.Valid() && multiset(timers.nodes) == old(multiset(timers.nodes)) + multiset{n}
      ensures KeysKept(nodes, heap + {n.owner}, keys[n.owner := Key(timeout, startId)]) && QueueLinked()
    {
      hide PointerHeap.Heap.Valid, QueueLinked;
      n.timeout, n.startId := timeout, startId;
      timers.Insert(n);
    }

    method HeapInsert(id: nat, timeout: nat, startId: nat)
      requires Linked() && id in node && id !in heap && |heap| < 0xFFFF_FFFF
      modifies this`heap, this`keys, timers, nodes
      ensures Linked() && heap == old(heap) + {id} && keys == old(keys)[id := Key(timeout, startId)]
    {
      hide PointerHeap.Heap.Valid, QueueLinked, HeapLinked, Linked, Members, Owned, KeysKept;
      Open();
      NodeIsFree(timers.nodes, heap, id);
      ghost var s := timers.nodes;
      PutNode(node[id], timeout, startId);
      MembersInserted(s, timers.nodes, heap, nodes, node, id);
      heap, keys := heap + {id}, keys[id := Key(timeout, startId)];
      Close();
    }

    /** Takes a node out of the heap. */
    method TakeNode(n: PointerHeap.Node)
      requires timers.Valid() && n in timers.nodes
      requires forall m :: m in timers.nodes ==> m in nodes
      requires KeysKept(nodes, heap, keys) && QueueLinked()
      modifies timers, nodes
      ensures timers.Valid() && multiset(timers.nodes) == old(multiset(timers.nodes)) - multiset{n}
      ensures KeysKept(nodes, heap, keys) && QueueLinked()
    {
      hide PointerHeap.Heap.Valid, QueueLinked;
      timers.Counted();
      timers.Remove(n);
    }

    method HeapRemove(id: nat)
      requires Linked() && id in heap
      modifies this`heap, timers, nodes
      ensures Linked() && heap == old(heap) - {id}
    {
      hide PointerHeap.Heap.Valid, QueueLinked, HeapLinked, Linked, Members, Owned, KeysKept;
      Open();
      NodeIsIn(timers.nodes, heap, id);
      ghost var s := timers.nodes;
      timers.OnlyOnce(node[id]);
      TakeNode(node[id]);
      OwnersDiffer(node, link, nodes, links, head);
      MembersRemoved(s, timers.nodes, heap, nodes, node, id);
      KeysFewer(nodes, heap, keys, id);
      heap := heap - {id};
      Close();
    }

    lemma NodeIsFree(s: seq<PointerHeap.Node>, h: set<nat>, id: nat)
      requires Owned(node, link, nodes, links, head) && Members(s, h, nodes, node) && id in node && id !in h
      ensures node[id] !in s && node[id] in nodes && node[id].owner == id && |s| == |h|
      ensures forall n :: n in s ==> n in nodes
      ensures forall n :: n in nodes && n.owner == id ==> n == node[id]
    {
    }

    lemma NodeIsIn(s: seq<PointerHeap.Node>, h: set<nat>, id: nat)
      requires Members(s, h, nodes, node) && id in h
      ensures id in node && node[id] in s && forall n :: n in s ==> n in nodes
    {
    }

    /** The timer at the root of the heap. */
    method HeapMin() returns (id: nat, found: bool)
      requires Linked()
      ensures found <==> heap != {}
      ensures found ==> id in heap && id in keys
      ensures found ==> forall o :: o in heap ==> o in keys && !Before(keys[o], keys[id])
    {
      hide PointerHeap.Heap.Valid, QueueLinked;
      timers.MinIsLeast();
      timers.Counted();
      if timers.min == null {
        return 0, false;
      }
      timers.MinIsMember();
      id := timers.min.owner;
      found := true;
      forall o | o in heap
        ensures o in keys && !Before(keys[o], keys[id])
      {
        assert node[o] in timers.nodes;
      }
    }

    /** Takes a link out of the circle s, or leaves it on its own if it is not there. */
    method TakeLink(l: Link, ghost s: seq<Link>)
      requires l in links && head !in links && Ring(head, s) && Alone(links, ready) && HeapLinked()
      requires forall m :: m in s ==> m in links
      requires forall m :: m in links ==> (m in s <==> m.owner in ready) && (m.owner == l.owner ==> m == l)
      modifies head, links
      ensures Ring(head, Without(s, l)) && Alone(links, Without(ready, l.owner)) && HeapLinked()
    {
      hide HeapLinked, Ring;
      assert l !in s ==> l.next == l && l.prev == l;
      NotInRest(head, s, l);
      Remove(l, head, s);
      Isolate(l, head, Without(s, l));
    }

    lemma NotInRest(h: Link, s: seq<Link>, l: Link)
      requires Ring(h, s)
      ensures l !in Without(s, l)
    {
      if l in s {
        var k := Position(s, l);
        WithoutAt(s, k);
      } else {
        WithoutNothing(s, l);
      }
    }

    /** Out of the ready queue, or from nowhere; on its own afterwards. */
    method QueueRemove(id: nat)
      requires Linked() && id in node
      modifies this`ready, head, links
      ensures Linked() && ready == Without(old(ready), id)
    {
      hide PointerHeap.Heap.Valid, HeapLinked, Ring, Owned, Alone, Circle, Chained, Without;
      OwnersDiffer(node, link, nodes, links, head);
      ChainedWithout(ready, links, link, id);
      CircleWithout(link, ready, id);
      CircleOwners(link, links, ready);
      TakeLink(link[id], Circle(link, ready));
      ready := Without(ready, id);
    }

    method InsertReady(id: nat)
      requires Linked() && id in node && id !in ready
      modifies this`ready, head, links
      ensures Linked() && ready == old(ready) + [id]
    {
      hide PointerHeap.Heap.Valid, HeapLinked, Ring, Owned, Alone;
      OwnersDiffer(node, link, nodes, links, head);
      CircleOwners(link, links, ready);
      PutLink(link[id], Circle(link, ready));
      assert Circle(link, ready + [id]) == Circle(link, ready) + [link[id]];
      ready := ready + [id];
    }

    method PutLink(l: Link, ghost s: seq<Link>)
      requires l in links && head !in links && l !in s && Ring(head, s) && Alone(links, ready) && HeapLinked()
      requires forall m :: m in s ==> m in links
      requires forall m :: m in links ==> (m in s <==> m.owner in ready) && (m.owner == l.owner ==> m == l)
      modifies head, links
      ensures Ring(head, s + [l]) && Alone(links, ready + [l.owner]) && HeapLinked()
    {
      hide HeapLinked, Ring;
      InsertTail(head, l, s);
    }

    /** The head of the ready queue. */
    method NextReady() returns (id: nat, found: bool)
      requires Linked()
      ensures found <==> ready != []
      ensures found ==> id == ready[0]
    {
      hide PointerHeap.Heap.Valid, HeapLinked, Ring, Owned, Alone;
      OwnersDiffer(node, link, nodes, links, head);
      var empty := Empty(head, Circle(link, ready));
      if empty {
        return 0, false;
      }
      var l := Head(head, Circle(link, ready));
      id, found := l.owner, true;
    }
  }

  lemma ChainedWithout(ready: seq<nat>, links: set<Link>, link: map<nat, Link>, id: nat)
    requires Chained(ready, links, link)
    ensures forall i :: 0 <= i < |ready| ==> ready[i] in link
    ensures Chained(Without(ready, id), links, link)
  {
    forall i | 0 <= i < |Without(ready, id)|
      ensures Without(ready, id)[i] in link && link[Without(ready, id)[i]] in links
    {
      var y := Without(ready, id)[i];
      assert y in ready;
    }
  }

  lemma CircleOwners(link: map<nat, Link>, links: set<Link>, ready: seq<nat>)
    requires Chained(ready, links, link)
    requires forall o :: o in link ==> link[o].owner == o
    requires forall l :: l in links ==> l.owner in link && link[l.owner] == l
    ensures forall m :: m in Circle(link, ready) ==> m in links
    ensures forall m :: m in links ==> (m in Circle(link, ready) <==> m.owner in ready)
  {
    forall m | m in links
      ensures m in Circle(link, ready) <==> m.owner in ready
    {
      if m.owner in ready {
        var i :| 0 <= i < |ready| && ready[i] == m.owner;
        assert Circle(link, ready)[i] == m;
      }
    }
  }

  lemma OwnersDiffer(node: map<nat, PointerHeap.Node>, link: map<nat, Link>, nodes: set<PointerHeap.Node>,
                     links: set<Link>, head: Link)
    requires Owned(node, link, nodes, links, head)
    ensures forall n :: n in nodes ==> n.owner in node && node[n.owner] == n
    ensures forall o :: o in node ==> node[o].owner == o
    ensures forall o :: o in link ==> link[o].owner == o && link[o] in links
    ensures node.Keys == link.Keys && head !in links
    ensures forall l :: l in links ==> l.owner in link && link[l.owner] == l
    ensures forall a, b :: a in link && b in link && a != b ==> link[a] != link[b]
  {
  }

  lemma KeysFewer(nodes: set<PointerHeap.Node>, heap: set<nat>, keys: map<nat, Key>, id: nat)
    requires KeysKept(nodes, heap, keys)
    ensures KeysKept(nodes, heap - {id}, keys)
  {
  }

  lemma OwnedKeys(node: map<nat, PointerHeap.Node>, link: map<nat, Link>, nodes: set<PointerHeap.Node>,
                  links: set<Link>, head: Link)
    requires Owned(node, link, nodes, links, head)
    ensures node.Keys == link.Keys && head !in links
  {
  }
}
