/** The thread pool: what a cancel does to an item, in which order workers take items, and that done callbacks go on. */
module ThreadpoolCancel {
  import opened Queue
  import opened Threadpool

  // ---------- cancelling ----------

  /** The cancel has the item in hand. */
  predicate InHand(p: Pool, l: nat, id: nat) {
    l < |p.loops| && p.loops[l].cancelling == Some(id)
  }

  /** The item is linked into no queue, and no worker has it. */
  ghost predicate Nowhere(p: Pool, id: nat) {
    && Work(id) !in p.q.wq && id !in p.q.slow
    && (forall w :: 0 <= w < |p.workers| ==> !Holds(p.workers[w], id))
    && forall l :: 0 <= l < |p.loops| ==> id !in p.loops[l].queue && id !in p.loops[l].draining
  }

  /** No worker has the item, and its work function has not run. */
  ghost predicate Cancellable(p: Pool, id: nat) {
    id in p.items && p.items[id].runs == 0 && forall w :: 0 <= w < |p.workers| ==> !Holds(p.workers[w], id)
  }

  lemma CancelDecides(p: Pool, id: nat)
    requires Inv(p) && Enabled(p, Cancel(id))
    ensures id in p.items
    ensures var q, l := Do(p, Cancel(id)), p.items[id].loop;
            && (InHand(q, l, id) <==> Cancellable(p, id))
            && (!InHand(q, l, id) ==> q == p)
            && (InHand(q, l, id) ==> id in q.items && q.items[id].place == Moving(l))
  {
    hide LoopsOk, QueuesOk, NotStuck, Without;
    assert Placed(p, id) && HistoryOk(p, id);
    if p.items[id].place.Held? {
      assert Holds(p.workers[p.items[id].place.w], id);
    }
  }

  /** An item that a cancel has in hand, or has had. */
  ghost predicate CancelledOnce(p: Pool, id: nat) {
    id in p.items && (p.items[id].place.Moving? || p.items[id].cancelOk)
  }

  lemma CancelledStays(p: Pool, s: Step, id: nat)
    requires Inv(p) && Enabled(p, s) && CancelledOnce(p, id)
    ensures CancelledOnce(Do(p, s), id)
  {
    hide LoopsOk, QueuesOk, NotStuck, Without, Take, PostSlow, Append;
    assert Placed(p, id) && HistoryOk(p, id);
    if s.Lock? {
      TakenWasQueued(p, s);
    }
  }

  /** What a worker takes was queued, so it was never cancelled. */
  lemma TakenWasQueued(p: Pool, s: Step)
    requires Inv(p) && Enabled(p, s) && s.Lock?
    ensures var out := Take(Entered(p, s.w), |p.workers|).1;
            out.Run? ==> out.id in p.items && (p.items[out.id].place.Queued? || p.items[out.id].place.Pending?)
                         && !p.items[out.id].cancelOk
  {
    hide LoopsOk, NotStuck, Take, NothingToDo, SlowCount, IdleCount;
    TakeDoes(Entered(p, s.w), |p.workers|);
    var out := Take(Entered(p, s.w), |p.workers|).1;
    if out.Run? {
      assert Placed(p, out.id) && HistoryOk(p, out.id);
    }
  }

  lemma {:induction false} CancelledForGood(p: Pool, steps: seq<Step>, id: nat)
    requires Inv(p) && CanRun(p, steps) && CancelledOnce(p, id)
    ensures CancelledOnce(After(p, steps), id)
    decreases |steps|
  {
    hide Inv, Enabled, Do, CancelledOnce;
    if steps != [] {
      CancelledStays(p, steps[0], id);
      StepKeepsInv(p, steps[0]);
      CancelledForGood(Do(p, steps[0]), steps[1..], id);
    }
  }

  lemma CancelledHistory(p: Pool, id: nat)
    requires Inv(p) && CancelledOnce(p, id)
    ensures p.items[id].runs == 0 && (p.items[id].dones == 1 ==> p.items[id].ecanceled)
    ensures forall w :: 0 <= w < |p.workers| ==> !Holds(p.workers[w], id)
  {
    hide LoopsOk, QueuesOk, NotStuck;
    assert Placed(p, id) && HistoryOk(p, id);
  }

  /** Taking out one item leaves the others where they are. */
  lemma OthersStay(p: Pool, id: nat, o: nat)
    requires Inv(p) && Enabled(p, Cancel(id)) && o != id && o in p.items
    ensures var q := Do(p, Cancel(id));
            o in q.items && q.items[o] == p.items[o] && Placed(q, o)
  {
    hide LoopsOk, QueuesOk, NotStuck, Inv, Enabled, Do, Placed;
    StepKeepsInv(p, Cancel(id));
    NowPlaced(Do(p, Cancel(id)), o);
    SameItem(p, id, o);
  }

  lemma NowPlaced(p: Pool, id: nat)
    requires Inv(p)
    ensures Placed(p, id) && (id in p.items ==> HistoryOk(p, id))
  {
    hide LoopsOk, QueuesOk, NotStuck, Placed, HistoryOk;
  }

  lemma SameItem(p: Pool, id: nat, o: nat)
    requires Enabled(p, Cancel(id)) && o != id && o in p.items
    ensures var q := Do(p, Cancel(id));
            o in q.items && q.items[o] == p.items[o]
  {
    hide Without;
  }

  lemma MovingIsNowhere(p: Pool, id: nat)
    requires Inv(p) && id in p.items && p.items[id].place.Moving?
    ensures Nowhere(p, id)
  {
    hide LoopsOk, QueuesOk, NotStuck, HistoryOk;
    assert Placed(p, id);
  }

  /** The item waits for its callback. */
  ghost predicate Given(p: Pool, l: nat, id: nat) {
    && id in p.items && p.items[id].place == Returned(l)
    && l < |p.loops| && id in p.loops[l].queue && p.loops[l].cancelling == None
  }

  lemma FinishIsEnabled(p: Pool, l: nat, id: nat)
    requires Inv(p) && id in p.items && p.items[id].place == Moving(l) && InHand(p, l, id)
    ensures Enabled(p, FinishCancel(l))
    ensures Given(Do(p, FinishCancel(l)), l, id)
  {
    hide LoopsOk, QueuesOk, NotStuck, ItemsOk;
    var queue := p.loops[l].queue + [id];
    assert queue[|p.loops[l].queue|] == id;
  }

  /**
   * In every reachable state a cancel succeeds if and only if no worker has the item and its work has not run. Then it
   * is in no queue any more, every other item is where it was, and the cancel can finish, which gives it to its loop.
   * A refused cancel changes nothing.
   */
  lemma CancelExactly(nthreads: nat, nloops: nat, steps: seq<Step>, id: nat)
    requires nthreads > 0 && CanRun(Threadpool.Init(nthreads, nloops), steps)
    requires Enabled(After(Threadpool.Init(nthreads, nloops), steps), Cancel(id))
    ensures var p := After(Threadpool.Init(nthreads, nloops), steps);
            var q, l := Do(p, Cancel(id)), p.items[id].loop;
            && (InHand(q, l, id) <==> Cancellable(p, id))
            && (!InHand(q, l, id) ==> q == p)
            && (forall o :: o in p.items && o != id ==> o in q.items && q.items[o] == p.items[o] && Placed(q, o))
            && (InHand(q, l, id) ==>
                  Nowhere(q, id) && Enabled(q, FinishCancel(l)) && Given(Do(q, FinishCancel(l)), l, id))
  {
    hide CanRun, After, Inv, Enabled, Do, Threadpool.Init, Placed, Nowhere, Cancellable, Given;
    EveryRun(nthreads, nloops, steps);
    var p := After(Threadpool.Init(nthreads, nloops), steps);
    CancelDecides(p, id);
    StepKeepsInv(p, Cancel(id));
    var q, l := Do(p, Cancel(id)), p.items[id].loop;
    forall o | o in p.items && o != id
      ensures o in q.items && q.items[o] == p.items[o] && Placed(q, o)
    {
      OthersStay(p, id, o);
    }
    if InHand(q, l, id) {
      MovingIsNowhere(q, id);
      FinishIsEnabled(q, l, id);
    }
  }

  /** However things go on after a successful cancel, the work never runs, and a callback gets UV_ECANCELED. */
  lemma CancelledNeverRuns(nthreads: nat, nloops: nat, steps: seq<Step>, id: nat, more: seq<Step>)
    requires nthreads > 0 && CanRun(Threadpool.Init(nthreads, nloops), steps)
    requires Enabled(After(Threadpool.Init(nthreads, nloops), steps), Cancel(id))
    requires Cancellable(After(Threadpool.Init(nthreads, nloops), steps), id)
    requires CanRun(Do(After(Threadpool.Init(nthreads, nloops), steps), Cancel(id)), more)
    ensures var r := After(Do(After(Threadpool.Init(nthreads, nloops), steps), Cancel(id)), more);
            && id in r.items && r.items[id].runs == 0
            && (forall w :: 0 <= w < |r.workers| ==> !Holds(r.workers[w], id))
            && (r.items[id].dones == 1 ==> r.items[id].ecanceled)
  {
    hide CanRun, After, Inv, Enabled, Do, Threadpool.Init, Cancellable;
    EveryRun(nthreads, nloops, steps);
    var p := After(Threadpool.Init(nthreads, nloops), steps);
    CancelDecides(p, id);
    StepKeepsInv(p, Cancel(id));
    CancelledForGood(Do(p, Cancel(id)), more, id);
    RunKeepsInv(Do(p, Cancel(id)), more);
    CancelledHistory(After(Do(p, Cancel(id)), more), id);
  }

  // ---------- done callbacks ----------

  /** A finished or cancelled item whose callback is still to come: its loop always has a step that brings it nearer. */
  lemma CallbackGoesOn(nthreads: nat, nloops: nat, steps: seq<Step>, id: nat)
    requires nthreads > 0 && CanRun(Threadpool.Init(nthreads, nloops), steps)
    requires var p := After(Threadpool.Init(nthreads, nloops), steps);
             id in p.items && (p.items[id].place.Returned? || p.items[id].place.Draining? || p.items[id].place.Moving?)
    ensures var p := After(Threadpool.Init(nthreads, nloops), steps);
            var l := p.items[id].loop;
            && (p.items[id].place.Moving? ==> Enabled(p, FinishCancel(l)))
            && (Enabled(p, FinishCancel(l)) || Enabled(p, Done(l))
                || (Enabled(p, Drain(l)) && (p.items[id].place.Returned? ==> id in Do(p, Drain(l)).loops[l].draining)))
  {
    hide CanRun, After, Inv, Threadpool.Init;
    EveryRun(nthreads, nloops, steps);
    LoopGoesOn(After(Threadpool.Init(nthreads, nloops), steps), id);
  }

  lemma LoopGoesOn(p: Pool, id: nat)
    requires Inv(p) && id in p.items
    requires p.items[id].place.Returned? || p.items[id].place.Draining? || p.items[id].place.Moving?
    ensures var l := p.items[id].loop;
            && (p.items[id].place.Moving? ==> Enabled(p, FinishCancel(l)))
            && (Enabled(p, FinishCancel(l)) || Enabled(p, Done(l))
                || (Enabled(p, Drain(l)) && (p.items[id].place.Returned? ==> id in Do(p, Drain(l)).loops[l].draining)))
  {
    hide LoopsOk, QueuesOk, NotStuck;
    assert Placed(p, id) && HistoryOk(p, id);
    var l := p.items[id].loop;
    if p.loops[l].cancelling.Some? {
      assert Placed(p, p.loops[l].cancelling.value);
    } else if p.loops[l].draining != [] {
      assert Placed(p, p.loops[l].draining[0]);
    } else {
      forall o | o in p.loops[l].queue
        ensures o in p.items
      {
        assert Placed(p, o);
      }
    }
  }

  // ---------- the order in which workers take items ----------

  /** The CPU work in the queue, in order. */
  function Works(wq: seq<Msg>): seq<nat> {
    if wq == [] then [] else Works(wq[..|wq| - 1]) + match wq[|wq| - 1]
                                                     case Work(id) => [id]
                                                     case _ => []
  }

  /** The first entry that is not the message for slow I/O. */
  function FirstOther(wq: seq<Msg>): Option<Msg> {
    if wq == [] then None else if wq[0] != RunSlow then Some(wq[0]) else FirstOther(wq[1..])
  }

  lemma {:induction false} WorksJoin(a: seq<Msg>, b: seq<Msg>)
    ensures Works(a + b) == Works(a) + Works(b)
    decreases |b|
  {
    if b == [] {
      assert a + b == a;
    } else {
      assert (a + b)[..|a + b| - 1] == a + b[..|b| - 1];
      WorksJoin(a, b[..|b| - 1]);
    }
  }

  lemma OneWork(m: Msg)
    ensures Works([m]) == match m case Work(id) => [id] case _ => []
  {
    assert [m][..0] == [] && Works([]) == [];
  }

  /** A message for slow I/O at the front may go to the end, or away. */
  lemma {:induction false} MessageMoves(wq: seq<Msg>)
    requires wq != [] && wq[0] == RunSlow && RunSlow !in wq[1..]
    ensures Works(wq[1..]) == Works(wq) == Works(wq[1..] + [RunSlow])
    ensures FirstOther(wq) == FirstOther(wq[1..]) == FirstOther(wq[1..] + [RunSlow])
  {
    var rest := wq[1..];
    assert wq == [RunSlow] + rest;
    WorksJoin([RunSlow], rest);
    WorksJoin(rest, [RunSlow]);
    OneWork(RunSlow);
    if rest == [] {
      assert rest + [RunSlow] == [RunSlow];
      assert [RunSlow][1..] == [];
    } else {
      assert rest[0] in rest && (rest + [RunSlow])[0] == rest[0];
    }
  }

  /**
   * What a worker takes: slow I/O if its message is first, some is pending, and fewer than half of the threads, rounded
   * up, run slow I/O; otherwise the oldest CPU work or the message to exit; otherwise it waits.
   */
  ghost predicate Chosen(q: Queues, n: nat, out: Outcome) {
    if q.wq != [] && q.wq[0] == RunSlow && q.slow != [] && 2 * q.slowRunning < n then
      out.Run? && out.slow && out.id == q.slow[0]
    else match FirstOther(q.wq)
      case None => out.Wait?
      case Some(Work(id)) => out == Run(id, false, false)
      case Some(_) => out.Quit?
  }

  lemma {:induction false} TakeChooses(q: Queues, n: nat)
    requires NoDup(q.wq)
    ensures var (q', out) := Take(q, n);
            && Chosen(q, n, out)
            && Works(q.wq) == (if out.Run? && !out.slow then [out.id] else []) + Works(q'.wq)
            && q.slow == (if out.Run? && out.slow then [out.id] else []) + q'.slow
    decreases |q.wq|, if q.wq != [] && q.wq[0] == RunSlow then 1 else 0
  {
    hide Works;
    if q.wq != [] {
      var rest := q.wq[1..];
      assert q.wq == [q.wq[0]] + rest && q.wq[0] !in rest;
      WorksJoin([q.wq[0]], rest);
      OneWork(q.wq[0]);
      if q.wq[0] == RunSlow {
        MessageMoves(q.wq);
        if NothingToDo(q, n) {
          assert rest == [];
        } else if q.slowRunning >= Threshold(n) {
          TakeRound(q, n);
          TakeChooses(q.(wq := rest + [RunSlow]), n);
        } else if q.slow == [] {
          TakeRound(q, n);
          TakeChooses(q.(wq := rest), n);
        }
      }
    }
  }

  lemma {:induction false} WorksWithout(wq: seq<Msg>, id: nat)
    requires NoDup(wq)
    ensures Works(Without(wq, Work(id))) == Without(Works(wq), id)
  {
    hide Works;
    if wq == [] {
      NoWorks();
    } else {
      var rest := wq[1..];
      assert wq == [wq[0]] + rest;
      WorksJoin([wq[0]], rest);
      OneWork(wq[0]);
      if wq[0] != Work(id) {
        WorksJoin([wq[0]], Without(rest, Work(id)));
        WorksWithout(rest, id);
        if wq[0].Work? {
          WithoutBehind(wq[0].id, Works(rest), id);
        } else {
          assert [] + Works(rest) == Works(rest);
          assert [] + Works(Without(rest, Work(id))) == Works(Without(rest, Work(id)));
        }
      } else {
        assert ([id] + Works(rest))[1..] == Works(rest);
      }
    }
  }

  lemma WithoutBehind(x: nat, s: seq<nat>, id: nat)
    requires x != id
    ensures Without([x] + s, id) == [x] + Without(s, id)
  {
    assert ([x] + s)[1..] == s;
  }

  lemma NoWorks()
    ensures Works([]) == [] && Without<Msg>([], Exit) == []
  {
  }

  /**
   * Both queues are first in, first out, in every reachable state and for every step of any thread: what is submitted
   * goes to the end, what a worker takes is at the front, a cancel takes out its item, and nothing else changes them.
   */
  lemma FirstInFirstOut(nthreads: nat, nloops: nat, steps: seq<Step>, s: Step)
    requires nthreads > 0 && CanRun(Threadpool.Init(nthreads, nloops), steps)
    requires Enabled(After(Threadpool.Init(nthreads, nloops), steps), s)
    ensures var p := After(Threadpool.Init(nthreads, nloops), steps);
            var q := Do(p, s);
            var cpu, io, cpu', io' := Works(p.q.wq), p.q.slow, Works(q.q.wq), q.q.slow;
            match s
            case Submit(_, id, slow, _) =>
              cpu' == (if slow then cpu else cpu + [id]) && io' == (if slow then io + [id] else io)
            case Lock(w, _) =>
              w < |p.workers| && w < |q.workers|
              && cpu == (if q.workers[w].Busy? && !q.workers[w].slow then [q.workers[w].id] else []) + cpu'
              && io == (if q.workers[w].Busy? && q.workers[w].slow then [q.workers[w].id] else []) + io'
            case Cancel(id) => cpu' == Without(cpu, id) && io' == Without(io, id)
            case _ => cpu' == cpu && io' == io
  {
    hide CanRun, After, Inv, Threadpool.Init;
    EveryRun(nthreads, nloops, steps);
    StepIsFifo(After(Threadpool.Init(nthreads, nloops), steps), s);
  }

  lemma StepIsFifo(p: Pool, s: Step)
    requires Inv(p) && Enabled(p, s)
    ensures var q := Do(p, s);
            var cpu, io, cpu', io' := Works(p.q.wq), p.q.slow, Works(q.q.wq), q.q.slow;
            match s
            case Submit(_, id, slow, _) =>
              cpu' == (if slow then cpu else cpu + [id]) && io' == (if slow then io + [id] else io)
            case Lock(w, _) =>
              w < |p.workers| && w < |q.workers|
              && cpu == (if q.workers[w].Busy? && !q.workers[w].slow then [q.workers[w].id] else []) + cpu'
              && io == (if q.workers[w].Busy? && q.workers[w].slow then [q.workers[w].id] else []) + io'
            case Cancel(id) => cpu' == Without(cpu, id) && io' == Without(io, id)
            case _ => cpu' == cpu && io' == io
  {
    hide LoopsOk, NotStuck, Works, Take, Without, ItemsOk;
    match s
    case Submit(_, id, slow, _) =>
      WorksJoin(p.q.wq, [if slow then RunSlow else Work(id)]);
      OneWork(if slow then RunSlow else Work(id));
    case Lock(w, _) => TakeChooses(Entered(p, w), |p.workers|);
    case Cancel(id) => CancelIsFifo(p, id);
    case Shutdown(_) =>
      WorksJoin(p.q.wq, [Exit]);
      OneWork(Exit);
    case _ =>
  }

  lemma CancelIsFifo(p: Pool, id: nat)
    requires Inv(p) && Enabled(p, Cancel(id))
    ensures var q := Do(p, Cancel(id));
            Works(q.q.wq) == Without(Works(p.q.wq), id) && q.q.slow == Without(p.q.slow, id)
  {
    hide LoopsOk, NotStuck, Works, Without;
    assert Placed(p, id);
    WorksWithout(p.q.wq, id);
    if Work(id) !in p.q.wq {
      WithoutNothing(p.q.wq, Work(id));
    }
    if id !in p.q.slow {
      WithoutNothing(p.q.slow, id);
    }
  }
}
