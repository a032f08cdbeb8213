/**
 * libuv's thread pool as a state machine: one step is one critical section, or one action of a thread between two
 * critical sections. The steps of different threads interleave in any order.
 */
module Threadpool {
  import opened Queue

  // ---------- the state behind the global mutex ----------

  /** The entries of the main work queue: a CPU work item, or one of the two static messages. */
  datatype Msg = Work(id: nat) | RunSlow | Exit

  /** The queues and counters that the global mutex protects. */
  datatype Queues = Queues(wq: seq<Msg>, slow: seq<nat>, slowRunning: nat, idle: nat)

  /** How a worker leaves its critical section. */
  datatype Outcome = Wait | Quit | Run(id: nat, slow: bool, signal: bool)

  function Threshold(nthreads: nat): nat { (nthreads + 1) / 2 }

  predicate NoDup<T(==)>(s: seq<T>) {
    forall i, j :: 0 <= i < j < |s| ==> s[i] != s[j]
  }

  /** Nothing a worker could do: no work, or only slow I/O with the threshold reached. */
  predicate NothingToDo(q: Queues, n: nat) {
    q.wq == [] || (q.wq[0] == RunSlow && |q.wq| == 1 && q.slowRunning >= Threshold(n))
  }

  /** The worker's critical section, from the top of its loop to the wait, the exit or the unlock. */
  function Take(q: Queues, n: nat): (Queues, Outcome)
    requires NoDup(q.wq)
    decreases |q.wq|, if q.wq != [] && q.wq[0] == RunSlow then 1 else 0
  {
    if NothingToDo(q, n) then (q.(idle := q.idle + 1), Wait)
    else if q.wq[0] == Exit then (q, Quit)
    else
      var rest := q.wq[1..];
      if q.wq[0] != RunSlow then (q.(wq := rest), Run(q.wq[0].id, false, false))
      else if q.slowRunning >= Threshold(n) then Take(q.(wq := rest + [RunSlow]), n)
      else if q.slow == [] then Take(q.(wq := rest), n)
      else
        var more := q.slow[1..] != [];
        (Queues(if more then rest + [RunSlow] else rest, q.slow[1..], q.slowRunning + 1, q.idle),
         Run(q.slow[0], true, more && q.idle > 0))
  }

  /** One round of the worker's loop. */
  lemma TakeRound(q: Queues, n: nat)
    requires NoDup(q.wq) && !NothingToDo(q, n) && q.wq[0] == RunSlow
    ensures NoDup(q.wq[1..]) && NoDup(q.wq[1..] + [RunSlow])
    ensures q.slowRunning >= Threshold(n) ==>
              Take(q, n) == Take(q.(wq := q.wq[1..] + [RunSlow]), n) && |q.wq| > 1 && q.wq[1] != RunSlow
    ensures q.slowRunning < Threshold(n) && q.slow == [] ==> Take(q, n) == Take(q.(wq := q.wq[1..]), n)
  {
  }

  /** The critical section of post for CPU work and messages; also tells whether it signals. */
  function Append(q: Queues, m: Msg): (Queues, bool) {
    (q.(wq := q.wq + [m]), q.idle > 0)
  }

  function PostSlow(q: Queues, id: nat): (Queues, bool) {
    var q1 := q.(slow := q.slow + [id]);
    if RunSlow in q.wq then (q1, false) else Append(q1, RunSlow)
  }

  /** The same state as the program keeps it. */
  class Shared {
    var wq: seq<Msg>
    var slow: seq<nat>
    var slowRunning: nat
    var idle: nat
    const nthreads: nat

    constructor (nthreads: nat)
      ensures Value() == Queues([], [], 0, 0) && this.nthreads == nthreads
    {
      wq, slow, slowRunning, idle := [], [], 0, 0;
      this.nthreads := nthreads;
    }

    function Value(): Queues
      reads this
    {
      Queues(wq, slow, slowRunning, idle)
    }

    /** What a worker does from the moment it holds the mutex until it gives it up. */
    method TakeWork() returns (out: Outcome)
      requires NoDup(wq)
      modifies this
      ensures (Value(), out) == Take(old(Value()), nthreads)
    {
      hide NoDup;
      while true
        invariant NoDup(wq) && Take(Value(), nthreads) == Take(old(Value()), nthreads)
        decreases |wq|, if wq != [] && wq[0] == RunSlow then 1 else 0
      {
        if wq == [] || (wq[0] == RunSlow && |wq| == 1 && slowRunning >= Threshold(nthreads)) {
          idle := idle + 1;
          return Wait;
        }
        var q := wq[0];
        if q == Exit {
          return Quit;
        }
        if q == RunSlow {
          TakeRound(Value(), nthreads);
        }
        wq := wq[1..];
        if q == RunSlow {
          if slowRunning >= Threshold(nthreads) {
            wq := wq + [q];
            continue;
          }
          if slow == [] {
            continue;
          }
          slowRunning := slowRunning + 1;
          var id := slow[0];
          slow := slow[1..];
          if slow != [] {
            wq := wq + [RunSlow];
            return Run(id, true, idle > 0);
          }
          return Run(id, true, false);
        }
        return Run(q.id, false, false);
      }
    }

    /** Adds work or a message; returns whether a waiting worker is signalled. */
    method Post(q0: Msg, isSlow: bool) returns (signal: bool)
      requires isSlow ==> q0.Work?
      modifies this
      ensures (Value(), signal) == if isSlow then PostSlow(old(Value()), q0.id) else Append(old(Value()), q0)
    {
      var q := q0;
      if isSlow {
        slow := slow + [q.id];
        if RunSlow in wq {
          return false;
        }
        q := RunSlow;
      }
      wq := wq + [q];
      signal := idle > 0;
    }
  }

  // ---------- the whole machine ----------

  /** Where a work item is. */
  datatype Place = Queued | Pending | Held(w: nat) | Returned(l: nat) | Draining(l: nat) | Moving(l: nat) | Finished

  /** The work pointer of an item. */
  datatype Ptr = Function | Null | Cancelled

  /** A work item, with what has happened to it so far. */
  datatype Item = Item(loop: nat, place: Place, work: Ptr, runs: nat, dones: nat, ecanceled: bool, cancelOk: bool)

  /** Waiting and Woken threads are in the condition wait; Ready threads are about to lock the mutex. */
  datatype Worker = Waiting | Woken | Ready(slow: bool) | Busy(id: nat, slow: bool) | Ran(id: nat, slow: bool) | Exited

  datatype Option<T> = None | Some(value: T)

  /** A loop thread: its result queue, the items uv__work_done is handling, and the item its cancel has in hand. */
  datatype Loop = Loop(queue: seq<nat>, draining: seq<nat>, cancelling: Option<nat>)

  datatype Pool = Pool(q: Queues, workers: seq<Worker>, loops: seq<Loop>, items: map<nat, Item>)

  datatype Step =
    | Submit(l: nat, id: nat, slow: bool, woken: nat)
    | Lock(w: nat, woken: nat)
    | Execute(w: nat)
    | Deliver(w: nat)
    | Spurious(w: nat)
    | Cancel(id: nat)
    | FinishCancel(l: nat)
    | Drain(l: nat)
    | Done(l: nat)
    | Shutdown(woken: nat)

  function Init(nthreads: nat, nloops: nat): Pool {
    Pool(Queues([], [], 0, 0), seq(nthreads, i => Ready(false)), seq(nloops, i => Loop([], [], None)), map[])
  }

  /** A signal wakes some waiting worker, if there is one. */
  predicate Wakes(ws: seq<Worker>, signal: bool, i: nat) {
    signal && (exists k :: 0 <= k < |ws| && ws[k].Waiting?) ==> i < |ws| && ws[i].Waiting?
  }

  function Wake(ws: seq<Worker>, signal: bool, i: nat): seq<Worker> {
    if signal && i < |ws| && ws[i].Waiting? then ws[i := Woken] else ws
  }

  /** The queues as the worker finds them once it has the mutex. */
  function Entered(p: Pool, w: nat): Queues
    requires w < |p.workers|
  {
    match p.workers[w]
    case Woken => p.q.(idle := if p.q.idle > 0 then p.q.idle - 1 else 0)
    case Ready(true) => p.q.(slowRunning := if p.q.slowRunning > 0 then p.q.slowRunning - 1 else 0)
    case _ => p.q
  }

  function Posted(p: Pool, id: nat, slow: bool): (Queues, bool) {
    if slow then PostSlow(p.q, id) else Append(p.q, Work(id))
  }

  predicate Enabled(p: Pool, s: Step) {
    match s
    case Submit(l, id, slow, woken) =>
      l < |p.loops| && id !in p.items && Wakes(p.workers, Posted(p, id, slow).1, woken)
    case Lock(w, woken) =>
      && w < |p.workers| && (p.workers[w].Woken? || p.workers[w].Ready?) && NoDup(p.q.wq)
      && (match Take(Entered(p, w), |p.workers|).1
          case Wait => true
          case Quit => Wakes(p.workers, true, woken)
          case Run(id, slow, signal) => id in p.items && Wakes(p.workers, signal, woken))
    case Execute(w) => w < |p.workers| && p.workers[w].Busy? && p.workers[w].id in p.items
    case Deliver(w) =>
      w < |p.workers| && p.workers[w].Ran? && p.workers[w].id in p.items && p.items[p.workers[w].id].loop < |p.loops|
    case Spurious(w) => w < |p.workers| && p.workers[w].Waiting?
    case Cancel(id) =>
      && id in p.items && p.items[id].place != Finished && p.items[id].loop < |p.loops|
      && p.loops[p.items[id].loop].cancelling.None?
    case FinishCancel(l) => l < |p.loops| && p.loops[l].cancelling.Some? && p.loops[l].cancelling.value in p.items
    case Drain(l) =>
      && l < |p.loops| && p.loops[l].cancelling.None? && p.loops[l].draining == []
      && forall id :: id in p.loops[l].queue ==> id in p.items
    case Done(l) =>
      && l < |p.loops| && p.loops[l].cancelling.None? && p.loops[l].draining != [] && p.loops[l].draining[0] in p.items
    case Shutdown(woken) => Exit !in p.q.wq && Wakes(p.workers, p.q.idle > 0, woken)
  }

  /** The first critical section of a cancel: the item is taken out of whatever queue it is linked into. */
  function Unlinked(p: Pool, id: nat): Pool
    requires id in p.items && p.items[id].loop < |p.loops|
  {
    var it := p.items[id];
    var l := it.loop;
    var moved := it.(place := Moving(l));
    var loops := p.loops[l := p.loops[l].(cancelling := Some(id))];
    match it.place
    case Queued => p.(q := p.q.(wq := Without(p.q.wq, Work(id))), items := p.items[id := moved], loops := loops)
    case Pending => p.(q := p.q.(slow := Without(p.q.slow, id)), items := p.items[id := moved], loops := loops)
    case Returned(_) =>
      if it.work == Null then p
      else p.(items := p.items[id := moved],
               loops := p.loops[l := p.loops[l].(cancelling := Some(id), queue := Without(p.loops[l].queue, id))])
    case Draining(_) =>
      if it.work == Null then p
      else p.(items := p.items[id := moved],
               loops := p.loops[l := p.loops[l].(cancelling := Some(id), draining := Without(p.loops[l].draining, id))])
    case _ => p  // a worker has it: its queue link is empty
  }

  /** All items of a loop's queue move to the local queue of uv__work_done. */
  function Moved(items: map<nat, Item>, queue: seq<nat>, l: nat): map<nat, Item> {
    map id | id in items :: if id in queue then items[id].(place := Draining(l)) else items[id]
  }

  function Do(p: Pool, s: Step): Pool
    requires Enabled(p, s)
  {
    match s
    case Submit(l, id, slow, woken) =>
      var (q, signal) := Posted(p, id, slow);
      var it := Item(l, if slow then Pending else Queued, Function, 0, 0, false, false);
      p.(q := q, workers := Wake(p.workers, signal, woken), items := p.items[id := it])
    case Lock(w, woken) =>
      var (q, out) := Take(Entered(p, w), |p.workers|);
      (match out
       case Wait => p.(q := q, workers := p.workers[w := Waiting])
       case Quit => p.(q := q, workers := Wake(p.workers, true, woken)[w := Exited])
       case Run(id, slow, signal) =>
         p.(q := q, workers := Wake(p.workers, signal, woken)[w := Busy(id, slow)],
            items := p.items[id := p.items[id].(place := Held(w))]))
    case Execute(w) =>
      var id := p.workers[w].id;
      p.(workers := p.workers[w := Ran(id, p.workers[w].slow)],
         items := p.items[id := p.items[id].(runs := p.items[id].runs + 1)])
    case Deliver(w) =>
      var id := p.workers[w].id;
      var l := p.items[id].loop;
      p.(workers := p.workers[w := Ready(p.workers[w].slow)],
         items := p.items[id := p.items[id].(place := Returned(l), work := Null)],
         loops := p.loops[l := p.loops[l].(queue := p.loops[l].queue + [id])])
    case Spurious(w) => p.(workers := p.workers[w := Woken])
    case Cancel(id) => Unlinked(p, id)
    case FinishCancel(l) =>
      var id := p.loops[l].cancelling.value;
      p.(items := p.items[id := p.items[id].(place := Returned(l), work := Cancelled, cancelOk := true)],
         loops := p.loops[l := p.loops[l].(queue := p.loops[l].queue + [id], cancelling := None)])
    case Drain(l) =>
      p.(items := Moved(p.items, p.loops[l].queue, l),
         loops := p.loops[l := Loop([], p.loops[l].queue, None)])
    case Done(l) =>
      var id := p.loops[l].draining[0];
      var it := p.items[id];
      p.(items := p.items[id := it.(place := Finished, dones := it.dones + 1, ecanceled := it.work == Cancelled)],
         loops := p.loops[l := p.loops[l].(draining := p.loops[l].draining[1..])])
    case Shutdown(woken) =>
      var (q, signal) := Append(p.q, Exit);
      p.(q := q, workers := Wake(p.workers, signal, woken))
  }

  // ---------- the invariant ----------

  predicate Holds(w: Worker, id: nat) {
    (w.Busy? || w.Ran?) && w.id == id
  }

  predicate RunsSlow(w: Worker) {
    (w.Busy? || w.Ran? || w.Ready?) && w.slow
  }

  predicate IsIdle(w: Worker) { w.Waiting? || w.Woken? }

  predicate Active(w: Worker) { !w.Waiting? && !w.Exited? }

  function SlowCount(ws: seq<Worker>): nat {
    if ws == [] then 0 else SlowCount(ws[..|ws| - 1]) + if RunsSlow(ws[|ws| - 1]) then 1 else 0
  }

  function IdleCount(ws: seq<Worker>): nat {
    if ws == [] then 0 else IdleCount(ws[..|ws| - 1]) + if IsIdle(ws[|ws| - 1]) then 1 else 0
  }

  /** The place recorded for an item, if it has been submitted. */
  function PlaceOf(p: Pool, id: nat): Option<Place> {
    if id in p.items then Some(p.items[id].place) else None
  }

  /** An item is exactly in the container its place names, and that container exists. */
  ghost predicate Placed(p: Pool, id: nat) {
    var at := PlaceOf(p, id);
    && (Work(id) in p.q.wq <==> at == Some(Queued)) && (id in p.q.slow <==> at == Some(Pending))
    && (forall w :: 0 <= w < |p.workers| ==> (Holds(p.workers[w], id) <==> at == Some(Held(w))))
    && (forall l :: 0 <= l < |p.loops| ==> (id in p.loops[l].queue <==> at == Some(Returned(l))))
    && (forall l :: 0 <= l < |p.loops| ==> (id in p.loops[l].draining <==> at == Some(Draining(l))))
    && (forall l :: 0 <= l < |p.loops| ==> (p.loops[l].cancelling == Some(id) <==> at == Some(Moving(l))))
  }

  /** An item's history fits its place: run at most once, done at most once, cancelled only if never run. */
  ghost predicate HistoryOk(p: Pool, id: nat)
    requires id in p.items
  {
    var it := p.items[id];
    var settled := if it.cancelOk then it.work == Cancelled && it.runs == 0 else it.work == Null && it.runs == 1;
    && it.loop < |p.loops|
    && match it.place
       case Queued => it.work == Function && it.runs == 0 && it.dones == 0 && !it.cancelOk
       case Pending => it.work == Function && it.runs == 0 && it.dones == 0 && !it.cancelOk
       case Held(w) =>
         && w < |p.workers| && it.work == Function && it.dones == 0 && !it.cancelOk
         && it.runs == if p.workers[w].Ran? then 1 else 0
       case Returned(l) => l == it.loop && settled && it.dones == 0
       case Draining(l) => l == it.loop && settled && it.dones == 0
       case Moving(l) =>
         l == it.loop && it.runs == 0 && it.dones == 0 && it.work == if it.cancelOk then Cancelled else Function
       case Finished => settled && it.dones == 1 && it.ecanceled == it.cancelOk
  }

  ghost predicate ItemsOk(p: Pool) {
    forall id: nat :: Placed(p, id) && (id in p.items ==> HistoryOk(p, id))
  }

  ghost predicate LoopsOk(p: Pool) {
    forall l :: 0 <= l < |p.loops| ==> NoDup(p.loops[l].queue) && NoDup(p.loops[l].draining)
  }

  ghost predicate QueuesOk(p: Pool) {
    && NoDup(p.q.wq) && NoDup(p.q.slow)
    && (p.q.slow != [] ==> RunSlow in p.q.wq)
    && p.q.slowRunning == SlowCount(p.workers) <= Threshold(|p.workers|)
    && p.q.idle == IdleCount(p.workers)
  }

  /** Before the shutdown, if there is something to do, some worker is not just waiting. */
  ghost predicate NotStuck(p: Pool) {
    Exit !in p.q.wq ==>
      && (forall w :: 0 <= w < |p.workers| ==> !p.workers[w].Exited?)
      && (!NothingToDo(p.q, |p.workers|) ==> exists w :: 0 <= w < |p.workers| && Active(p.workers[w]))
  }

  ghost predicate Inv(p: Pool) {
    |p.workers| > 0 && ItemsOk(p) && LoopsOk(p) && QueuesOk(p) && NotStuck(p)
  }

  // ---------- lemmas about the parts ----------

  lemma {:induction false} CountsAt(ws: seq<Worker>, i: nat, w: Worker)
    requires i < |ws|
    ensures SlowCount(ws[i := w]) == SlowCount(ws) - (if RunsSlow(ws[i]) then 1 else 0) + if RunsSlow(w) then 1 else 0
    ensures IdleCount(ws[i := w]) == IdleCount(ws) - (if IsIdle(ws[i]) then 1 else 0) + if IsIdle(w) then 1 else 0
    ensures RunsSlow(ws[i]) ==> SlowCount(ws) > 0
    ensures IsIdle(ws[i]) ==> IdleCount(ws) > 0
    decreases |ws|
  {
    var n := |ws| - 1;
    if i < n {
      CountsAt(ws[..n], i, w);
      assert ws[i := w][..n] == ws[..n][i := w];
    } else {
      assert ws[i := w][..n] == ws[..n];
    }
  }

  lemma {:induction false} SomeIdle(ws: seq<Worker>)
    requires IdleCount(ws) > 0
    ensures exists i :: 0 <= i < |ws| && IsIdle(ws[i])
  {
    var n := |ws| - 1;
    if IsIdle(ws[n]) {
    } else {
      SomeIdle(ws[..n]);
      var i :| 0 <= i < n && IsIdle(ws[..n][i]);
      assert ws[i] == ws[..n][i];
    }
  }

  lemma {:induction false} WithoutOne<T>(s: seq<T>, x: T)
    requires NoDup(s)
    ensures NoDup(Without(s, x)) && x !in Without(s, x)
    ensures forall y :: y != x ==> (y in Without(s, x) <==> y in s)
    ensures |Without(s, x)| <= |s|
  {
    hide Without;
    if x in s {
      var k := Position(s, x);
      WithoutAt(s, k);
    } else {
      WithoutNothing(s, x);
    }
  }

  /** What the worker's critical section does to the queues. */
  ghost predicate Taken(q: Queues, n: nat, q': Queues, out: Outcome) {
    && NoDup(q'.wq) && NoDup(q'.slow)
    && (q'.slow != [] ==> RunSlow in q'.wq)
    && (forall id: nat :: Work(id) in q'.wq <==> Work(id) in q.wq && out != Run(id, false, false))
    && (Exit in q'.wq <==> Exit in q.wq)
    && q'.idle == q.idle + (if out.Wait? then 1 else 0)
    && match out
       case Wait => NothingToDo(q', n) && q'.slow == q.slow && q'.slowRunning == q.slowRunning
       case Quit => Exit in q.wq && q'.slow == q.slow && q'.slowRunning == q.slowRunning
       case Run(id, slow, signal) =>
         if slow then
           q.slow != [] && id == q.slow[0] && q'.slow == q.slow[1..]
           && q'.slowRunning == q.slowRunning + 1 <= Threshold(n)
         else
           Work(id) in q.wq && !signal && q'.slow == q.slow && q'.slowRunning == q.slowRunning
  }

  lemma {:induction false} TakeDoes(q: Queues, n: nat)
    requires NoDup(q.wq) && NoDup(q.slow) && (q.slow != [] ==> RunSlow in q.wq)
    ensures Taken(q, n, Take(q, n).0, Take(q, n).1)
    decreases |q.wq|, if q.wq != [] && q.wq[0] == RunSlow then 1 else 0
  {
    if NothingToDo(q, n) || q.wq[0] == Exit {
    } else {
      var rest := q.wq[1..];
      assert q.wq == [q.wq[0]] + rest;
      assert q.wq[0] !in rest;
      if q.wq[0] != RunSlow {
      } else if q.slowRunning >= Threshold(n) {
        TakeDoes(q.(wq := rest + [RunSlow]), n);
      } else if q.slow == [] {
        TakeDoes(q.(wq := rest), n);
      } else {
        var q' := Take(q, n).0;
        assert RunSlow !in rest;
      }
    }
  }

  // ---------- every step keeps the invariant: the items ----------

  lemma SubmitAt(p: Pool, q: Queues, ws: seq<Worker>, it: Item, l: nat, x: nat, id: nat)
    requires ItemsOk(p) && l < |p.loops| && x !in p.items && SameHolders(p.workers, ws)
             && it == Item(l, it.place, Function, 0, 0, false, false)
    requires if it.place == Pending then q.slow == p.q.slow + [x] && (Work(id) in q.wq <==> Work(id) in p.q.wq)
             else it.place == Queued && q.slow == p.q.slow && q.wq == p.q.wq + [Work(x)]
    ensures var p' := p.(q := q, workers := ws, items := p.items[x := it]);
            Placed(p', id) && (id in p'.items ==> HistoryOk(p', id))
  {
    assert Placed(p, id) && Placed(p, x);
  }

  lemma ItemsSubmit(p: Pool, s: Step, id: nat)
    requires Inv(p) && Enabled(p, s) && s.Submit?
    ensures Placed(Do(p, s), id) && (id in Do(p, s).items ==> HistoryOk(Do(p, s), id))
  {
    hide ItemsOk, LoopsOk, NotStuck, QueuesOk, Placed, HistoryOk;
    var (q, signal) := Posted(p, s.id, s.slow);
    SubmitAt(p, q, Wake(p.workers, signal, s.woken),
             Item(s.l, if s.slow then Pending else Queued, Function, 0, 0, false, false), s.l, s.id, id);
  }

  /** Steps that move no item: only who waits, and which messages are queued, may change. */
  ghost predicate SamePlaces(p: Pool, p': Pool) {
    && p'.items == p.items && p'.loops == p.loops && |p'.workers| == |p.workers| && p'.q.slow == p.q.slow
    && (forall id: nat :: Work(id) in p'.q.wq <==> Work(id) in p.q.wq)
    && (forall w :: 0 <= w < |p.workers| ==>
          p'.workers[w] == p.workers[w]
          || !(p.workers[w].Busy? || p.workers[w].Ran? || p'.workers[w].Busy? || p'.workers[w].Ran?))
  }

  lemma SamePlacesItems(p: Pool, p': Pool, id: nat)
    requires ItemsOk(p) && SamePlaces(p, p')
    ensures Placed(p', id) && (id in p'.items ==> HistoryOk(p', id))
  {
    assert Placed(p, id);
  }

  lemma {:induction false} ItemsLock(p: Pool, s: Step, id: nat)
    requires Inv(p) && Enabled(p, s) && s.Lock?
    ensures Placed(Do(p, s), id) && (id in Do(p, s).items ==> HistoryOk(Do(p, s), id))
  {
    hide Take, ItemsOk, LoopsOk, NotStuck, SlowCount, IdleCount, NothingToDo, Placed, HistoryOk;
    var (q, out) := Take(Entered(p, s.w), |p.workers|);
    TakeDoes(Entered(p, s.w), |p.workers|);
    if out.Run? {
      if out.slow {
        LockSlow(p, q, out.id, Wake(p.workers, out.signal, s.woken), s.w, id);
      } else {
        LockWork(p, q, out.id, Wake(p.workers, out.signal, s.woken), s.w, id);
      }
    } else {
      SamePlacesItems(p, Do(p, s), id);
    }
  }

  /** Woken workers held nothing and hold nothing. */
  ghost predicate SameHolders(ws: seq<Worker>, ws': seq<Worker>) {
    |ws'| == |ws| && forall w :: 0 <= w < |ws| ==> ws'[w] == ws[w] || (ws[w].Waiting? && ws'[w].Woken?)
  }

  lemma LockWork(p: Pool, q: Queues, x: nat, ws: seq<Worker>, w: nat, id: nat)
    requires ItemsOk(p) && w < |p.workers| && SameHolders(p.workers, ws) && (p.workers[w].Woken? || p.workers[w].Ready?)
    requires Work(x) in p.q.wq && x in p.items && q.slow == p.q.slow
    requires Work(id) in q.wq <==> Work(id) in p.q.wq && id != x
    ensures var p' := p.(q := q, workers := ws[w := Busy(x, false)],
                         items := p.items[x := p.items[x].(place := Held(w))]);
            Placed(p', id) && (id in p'.items ==> HistoryOk(p', id))
  {
    assert Placed(p, id) && Placed(p, x) && HistoryOk(p, x);
  }

  lemma LockSlow(p: Pool, q: Queues, x: nat, ws: seq<Worker>, w: nat, id: nat)
    requires ItemsOk(p) && w < |p.workers| && SameHolders(p.workers, ws) && (p.workers[w].Woken? || p.workers[w].Ready?)
    requires NoDup(p.q.slow) && p.q.slow != [] && x == p.q.slow[0] && x in p.items && q.slow == p.q.slow[1..]
    requires Work(id) in q.wq <==> Work(id) in p.q.wq
    ensures var p' := p.(q := q, workers := ws[w := Busy(x, true)],
                         items := p.items[x := p.items[x].(place := Held(w))]);
            Placed(p', id) && (id in p'.items ==> HistoryOk(p', id))
  {
    FirstSlow(p.q.slow, id);
    assert Placed(p, id) && Placed(p, x) && HistoryOk(p, x);
  }

  /** The first element of a queue without duplicates is gone once the queue moves on. */
  lemma LoopAt(p: Pool, l: nat)
    requires LoopsOk(p) && l < |p.loops|
    ensures NoDup(p.loops[l].queue) && NoDup(p.loops[l].draining)
  {
  }

  lemma FirstSlow(s: seq<nat>, id: nat)
    requires NoDup(s)
    ensures s != [] ==> (id in s[1..] <==> id in s && id != s[0])
  {
    if s != [] {
      assert s == [s[0]] + s[1..];
    }
  }

  lemma ExecuteAt(p: Pool, w: nat, x: nat, slow: bool, id: nat)
    requires ItemsOk(p) && w < |p.workers| && p.workers[w] == Busy(x, slow) && x in p.items
    ensures var p' := p.(workers := p.workers[w := Ran(x, slow)],
                         items := p.items[x := p.items[x].(runs := p.items[x].runs + 1)]);
            Placed(p', id) && (id in p'.items ==> HistoryOk(p', id))
  {
    assert Placed(p, id) && Placed(p, x) && HistoryOk(p, x);
  }

  lemma ItemsExecute(p: Pool, s: Step, id: nat)
    requires Inv(p) && Enabled(p, s) && s.Execute?
    ensures Placed(Do(p, s), id) && (id in Do(p, s).items ==> HistoryOk(Do(p, s), id))
  {
    hide ItemsOk, LoopsOk, NotStuck, QueuesOk, Placed, HistoryOk;
    ExecuteAt(p, s.w, p.workers[s.w].id, p.workers[s.w].slow, id);
  }

  lemma DeliverAt(p: Pool, w: nat, x: nat, slow: bool, l: nat, id: nat)
    requires ItemsOk(p) && w < |p.workers| && p.workers[w] == Ran(x, slow) && x in p.items
             && p.items[x].loop == l < |p.loops|
    ensures var p' := p.(workers := p.workers[w := Ready(slow)],
                         items := p.items[x := p.items[x].(place := Returned(l), work := Null)],
                       loops := p.loops[l := p.loops[l].(queue := p.loops[l].queue + [x])]);
            Placed(p', id) && (id in p'.items ==> HistoryOk(p', id))
  {
    assert Placed(p, id) && Placed(p, x) && HistoryOk(p, x);
  }

  lemma ItemsDeliver(p: Pool, s: Step, id: nat)
    requires Inv(p) && Enabled(p, s) && s.Deliver?
    ensures Placed(Do(p, s), id) && (id in Do(p, s).items ==> HistoryOk(Do(p, s), id))
  {
    hide ItemsOk, LoopsOk, NotStuck, QueuesOk, Placed, HistoryOk;
    DeliverAt(p, s.w, p.workers[s.w].id, p.workers[s.w].slow, p.items[p.workers[s.w].id].loop, id);
  }

  lemma ItemsSpurious(p: Pool, s: Step, id: nat)
    requires Inv(p) && Enabled(p, s) && s.Spurious?
    ensures Placed(Do(p, s), id) && (id in Do(p, s).items ==> HistoryOk(Do(p, s), id))
  {
    hide ItemsOk, LoopsOk, NotStuck, QueuesOk, Placed, HistoryOk;
    SamePlacesItems(p, Do(p, s), id);
  }

  lemma {:induction false} ItemsCancel(p: Pool, s: Step, id: nat)
    requires Inv(p) && Enabled(p, s) && s.Cancel?
    ensures Placed(Do(p, s), id) && (id in Do(p, s).items ==> HistoryOk(Do(p, s), id))
  {
    hide ItemsOk, LoopsOk, NotStuck, Placed, HistoryOk, Without;
    var it := p.items[s.id];
    LoopAt(p, it.loop);
    if it.place == Queued {
      CancelQueued(p, s.id, it.loop, id);
    } else if it.place == Pending {
      CancelPending(p, s.id, it.loop, id);
    } else if it.place.Returned? && it.work != Null {
      CancelReturned(p, s.id, it.loop, id);
    } else if it.place.Draining? && it.work != Null {
      CancelDraining(p, s.id, it.loop, id);
    } else {
      Unmoved(p, id);
    }
  }

  lemma Unmoved(p: Pool, id: nat)
    requires ItemsOk(p)
    ensures Placed(p, id) && (id in p.items ==> HistoryOk(p, id))
  {
  }

  lemma CancelQueued(p: Pool, x: nat, l: nat, id: nat)
    requires ItemsOk(p) && x in p.items && p.items[x].loop == l < |p.loops| && p.loops[l].cancelling.None?
    requires p.items[x].place == Queued && NoDup(p.q.wq)
    ensures var p' := p.(q := p.q.(wq := Without(p.q.wq, Work(x))),
                         items := p.items[x := p.items[x].(place := Moving(l))],
                       loops := p.loops[l := p.loops[l].(cancelling := Some(x))]);
            Placed(p', id) && (id in p'.items ==> HistoryOk(p', id))
  {
    hide Without;
    assert Placed(p, id) && Placed(p, x) && HistoryOk(p, x);
    WithoutOne(p.q.wq, Work(x));
  }

  lemma CancelPending(p: Pool, x: nat, l: nat, id: nat)
    requires ItemsOk(p) && x in p.items && p.items[x].loop == l < |p.loops| && p.loops[l].cancelling.None?
    requires p.items[x].place == Pending && NoDup(p.q.slow)
    ensures var p' := p.(q := p.q.(slow := Without(p.q.slow, x)),
                         items := p.items[x := p.items[x].(place := Moving(l))],
                       loops := p.loops[l := p.loops[l].(cancelling := Some(x))]);
            Placed(p', id) && (id in p'.items ==> HistoryOk(p', id))
  {
    hide Without;
    assert Placed(p, id) && Placed(p, x) && HistoryOk(p, x);
    WithoutOne(p.q.slow, x);
  }

  lemma CancelReturned(p: Pool, x: nat, l: nat, id: nat)
    requires ItemsOk(p) && x in p.items && p.items[x].loop == l < |p.loops| && p.loops[l].cancelling.None?
    requires p.items[x].place.Returned? && NoDup(p.loops[l].queue) && p.items[x].work != Null
    ensures var p' := p.(items := p.items[x := p.items[x].(place := Moving(l))],
                       loops := p.loops[l := p.loops[l].(cancelling := Some(x),
                                                         queue := Without(p.loops[l].queue, x))]);
            Placed(p', id) && (id in p'.items ==> HistoryOk(p', id))
  {
    hide Without;
    assert Placed(p, id) && Placed(p, x) && HistoryOk(p, x);
    WithoutOne(p.loops[l].queue, x);
  }

  lemma CancelDraining(p: Pool, x: nat, l: nat, id: nat)
    requires ItemsOk(p) && x in p.items && p.items[x].loop == l < |p.loops| && p.loops[l].cancelling.None?
    requires p.items[x].place.Draining? && NoDup(p.loops[l].draining) && p.items[x].work != Null
    ensures var p' := p.(items := p.items[x := p.items[x].(place := Moving(l))],
                       loops := p.loops[l := p.loops[l].(cancelling := Some(x),
                                                         draining := Without(p.loops[l].draining, x))]);
            Placed(p', id) && (id in p'.items ==> HistoryOk(p', id))
  {
    hide Without;
    assert Placed(p, id) && Placed(p, x) && HistoryOk(p, x);
    WithoutOne(p.loops[l].draining, x);
  }

  lemma FinishCancelAt(p: Pool, l: nat, x: nat, id: nat)
    requires ItemsOk(p) && l < |p.loops| && p.loops[l].cancelling == Some(x) && x in p.items
    ensures var p' := p.(items := p.items[x := p.items[x].(place := Returned(l), work := Cancelled, cancelOk := true)],
                       loops := p.loops[l := p.loops[l].(queue := p.loops[l].queue + [x], cancelling := None)]);
            Placed(p', id) && (id in p'.items ==> HistoryOk(p', id))
  {
    assert Placed(p, id) && Placed(p, x) && HistoryOk(p, x);
  }

  lemma ItemsFinishCancel(p: Pool, s: Step, id: nat)
    requires Inv(p) && Enabled(p, s) && s.FinishCancel?
    ensures Placed(Do(p, s), id) && (id in Do(p, s).items ==> HistoryOk(Do(p, s), id))
  {
    hide ItemsOk, LoopsOk, NotStuck, QueuesOk, Placed, HistoryOk;
    FinishCancelAt(p, s.l, p.loops[s.l].cancelling.value, id);
  }

  lemma DrainAt(p: Pool, l: nat, id: nat)
    requires ItemsOk(p) && l < |p.loops| && p.loops[l].cancelling.None? && p.loops[l].draining == []
    ensures var p' := p.(items := Moved(p.items, p.loops[l].queue, l),
                         loops := p.loops[l := Loop([], p.loops[l].queue, None)]);
            Placed(p', id) && (id in p'.items ==> HistoryOk(p', id))
  {
    assert Placed(p, id);
  }

  lemma ItemsDrain(p: Pool, s: Step, id: nat)
    requires Inv(p) && Enabled(p, s) && s.Drain?
    ensures Placed(Do(p, s), id) && (id in Do(p, s).items ==> HistoryOk(Do(p, s), id))
  {
    hide ItemsOk, LoopsOk, NotStuck, QueuesOk, Placed, HistoryOk;
    DrainAt(p, s.l, id);
  }

  lemma DoneAt(p: Pool, l: nat, x: nat, id: nat)
    requires ItemsOk(p) && l < |p.loops| && NoDup(p.loops[l].draining) && p.loops[l].draining != []
             && p.loops[l].draining[0] == x && x in p.items
    ensures var p' := p.(items := p.items[x := p.items[x].(place := Finished, dones := p.items[x].dones + 1,
                                                     ecanceled := p.items[x].work == Cancelled)],
                       loops := p.loops[l := p.loops[l].(draining := p.loops[l].draining[1..])]);
            Placed(p', id) && (id in p'.items ==> HistoryOk(p', id))
  {
    FirstSlow(p.loops[l].draining, id);
    assert Placed(p, id) && Placed(p, x) && HistoryOk(p, x);
  }

  lemma ItemsDone(p: Pool, s: Step, id: nat)
    requires Inv(p) && Enabled(p, s) && s.Done?
    ensures Placed(Do(p, s), id) && (id in Do(p, s).items ==> HistoryOk(Do(p, s), id))
  {
    hide ItemsOk, LoopsOk, NotStuck, QueuesOk, Placed, HistoryOk;
    assert LoopsOk(p);
    LoopAt(p, s.l);
    DoneAt(p, s.l, p.loops[s.l].draining[0], id);
  }

  lemma ItemsShutdown(p: Pool, s: Step, id: nat)
    requires Inv(p) && Enabled(p, s) && s.Shutdown?
    ensures Placed(Do(p, s), id) && (id in Do(p, s).items ==> HistoryOk(Do(p, s), id))
  {
    hide ItemsOk, LoopsOk, NotStuck, QueuesOk, Placed, HistoryOk;
    SamePlacesItems(p, Do(p, s), id);
  }

  // ---------- every step keeps the invariant: loops, queues and progress ----------

  lemma {:induction false} StepItems(p: Pool, s: Step)
    requires Inv(p) && Enabled(p, s)
    ensures ItemsOk(Do(p, s))
  {
    hide Inv, Enabled, Do, Placed, HistoryOk;
    forall id: nat
      ensures Placed(Do(p, s), id) && (id in Do(p, s).items ==> HistoryOk(Do(p, s), id))
    {
      match s
      case Submit(_, _, _, _) => ItemsSubmit(p, s, id);
      case Lock(_, _) => ItemsLock(p, s, id);
      case Execute(_) => ItemsExecute(p, s, id);
      case Deliver(_) => ItemsDeliver(p, s, id);
      case Spurious(_) => ItemsSpurious(p, s, id);
      case Cancel(_) => ItemsCancel(p, s, id);
      case FinishCancel(_) => ItemsFinishCancel(p, s, id);
      case Drain(_) => ItemsDrain(p, s, id);
      case Done(_) => ItemsDone(p, s, id);
      case Shutdown(_) => ItemsShutdown(p, s, id);
    }
  }

  lemma StepLoops(p: Pool, s: Step)
    requires Inv(p) && Enabled(p, s)
    ensures LoopsOk(Do(p, s))
  {
    hide NotStuck, QueuesOk, HistoryOk, Take, PostSlow, Append, Without;
    match s
    case Deliver(w) =>
      assert Placed(p, p.workers[w].id);
    case Cancel(id) =>
      var l := p.items[id].loop;
      WithoutOne(p.loops[l].queue, id);
      WithoutOne(p.loops[l].draining, id);
    case FinishCancel(l) =>
      assert Placed(p, p.loops[l].cancelling.value);
    case _ =>
  }

  lemma WakeCounts(ws: seq<Worker>, signal: bool, i: nat)
    ensures |Wake(ws, signal, i)| == |ws|
    ensures SlowCount(Wake(ws, signal, i)) == SlowCount(ws) && IdleCount(Wake(ws, signal, i)) == IdleCount(ws)
  {
    if signal && i < |ws| && ws[i].Waiting? {
      CountsAt(ws, i, Woken);
    }
  }

  lemma StepQueues(p: Pool, s: Step)
    requires Inv(p) && Enabled(p, s)
    ensures QueuesOk(Do(p, s))
  {
    hide NotStuck, HistoryOk, LoopsOk, Take, Without, SlowCount, IdleCount;
    match s
    case Submit(l, id, slow, woken) =>
      assert Placed(p, id);
      WakeCounts(p.workers, Posted(p, id, slow).1, woken);
    case Lock(w, woken) => QueuesLock(p, s);
    case Execute(w) => CountsAt(p.workers, w, Ran(p.workers[w].id, p.workers[w].slow));
    case Deliver(w) => CountsAt(p.workers, w, Ready(p.workers[w].slow));
    case Spurious(w) => CountsAt(p.workers, w, Woken);
    case Cancel(id) =>
      WithoutOne(p.q.wq, Work(id));
      WithoutOne(p.q.slow, id);
    case Shutdown(woken) => WakeCounts(p.workers, p.q.idle > 0, woken);
    case _ =>
  }

  lemma QueuesLock(p: Pool, s: Step)
    requires Inv(p) && Enabled(p, s) && s.Lock?
    ensures QueuesOk(Do(p, s))
  {
    hide NotStuck, ItemsOk, LoopsOk, Take, SlowCount, IdleCount, NothingToDo;
    var n := |p.workers|;
    var (q, out) := Take(Entered(p, s.w), n);
    CountsAt(p.workers, s.w, p.workers[s.w]);
    TakeDoes(Entered(p, s.w), n);
    var ws := Wake(p.workers, out.Quit? || (out.Run? && out.signal), s.woken);
    WakeCounts(p.workers, out.Quit? || (out.Run? && out.signal), s.woken);
    match out
    case Wait => CountsAt(p.workers, s.w, Waiting);
    case Quit => CountsAt(ws, s.w, Exited);
    case Run(id, slow, signal) => CountsAt(ws, s.w, Busy(id, slow));
  }

  lemma AfterSignal(p: Pool, ws: seq<Worker>, signal: bool, i: nat)
    requires Inv(p) && Exit !in p.q.wq && Wakes(p.workers, signal, i) && ws == Wake(p.workers, signal, i)
    requires signal == (p.q.idle > 0)
    ensures exists w :: 0 <= w < |ws| && Active(ws[w])
  {
    hide ItemsOk, LoopsOk, SlowCount, IdleCount, NothingToDo;
    if signal {
      if exists k :: 0 <= k < |p.workers| && p.workers[k].Waiting? {
        assert Active(ws[i]);
      } else {
        SomeIdle(p.workers);
        var k :| 0 <= k < |p.workers| && IsIdle(p.workers[k]);
        assert Active(ws[k]);
      }
    } else {
      CountsAt(p.workers, 0, p.workers[0]);
      assert Active(ws[0]);
    }
  }

  /** A worker that was active and is not the one that moved is still active. */
  lemma StillActive(ws: seq<Worker>, ws': seq<Worker>)
    requires SameHolders(ws, ws') && exists w :: 0 <= w < |ws| && Active(ws[w])
    ensures exists w :: 0 <= w < |ws'| && Active(ws'[w])
  {
    var w :| 0 <= w < |ws| && Active(ws[w]);
    assert Active(ws'[w]);
  }

  lemma StepProgress(p: Pool, s: Step)
    requires Inv(p) && Enabled(p, s)
    ensures NotStuck(Do(p, s))
  {
    hide ItemsOk, LoopsOk, QueuesOk, Take, Without, NothingToDo;
    match s
    case Submit(l, id, slow, woken) => ProgressSubmit(p, s);
    case Lock(w, woken) => ProgressLock(p, s);
    case Execute(w) => assert Active(Do(p, s).workers[w]);
    case Deliver(w) => assert Active(Do(p, s).workers[w]);
    case Spurious(w) => assert Active(Do(p, s).workers[w]);
    case Cancel(id) => ProgressCancel(p, id);
    case _ =>
  }

  lemma ProgressSubmit(p: Pool, s: Step)
    requires Inv(p) && Enabled(p, s) && s.Submit?
    ensures NotStuck(Do(p, s))
  {
    hide ItemsOk, LoopsOk, SlowCount, IdleCount;
    var (q, signal) := Posted(p, s.id, s.slow);
    if Exit !in p.q.wq {
      if q.wq == p.q.wq {
        if !NothingToDo(p.q, |p.workers|) {
          StillActive(p.workers, Do(p, s).workers);
        }
      } else {
        AfterSignal(p, Do(p, s).workers, signal, s.woken);
      }
    }
  }

  lemma ProgressLock(p: Pool, s: Step)
    requires Inv(p) && Enabled(p, s) && s.Lock?
    ensures NotStuck(Do(p, s))
  {
    hide ItemsOk, LoopsOk, SlowCount, IdleCount, Take, NothingToDo;
    TakeDoes(Entered(p, s.w), |p.workers|);
    var out := Take(Entered(p, s.w), |p.workers|).1;
    if out.Run? {
      assert Active(Do(p, s).workers[s.w]);
    }
  }

  lemma ProgressCancel(p: Pool, id: nat)
    requires Inv(p) && Enabled(p, Cancel(id))
    ensures NotStuck(Unlinked(p, id))
  {
    hide ItemsOk, LoopsOk, SlowCount, IdleCount;
    WithoutOne(p.q.wq, Work(id));
    if NothingToDo(p.q, |p.workers|) && p.q.wq != [] {
      assert p.q.wq == [RunSlow];
      assert Without(p.q.wq, Work(id)) == [RunSlow];
    }
  }

  // ---------- all runs ----------

  /** Every step of every thread keeps the invariant. */
  lemma {:induction false} StepKeepsInv(p: Pool, s: Step)
    requires Inv(p) && Enabled(p, s)
    ensures Inv(Do(p, s))
  {
    hide Enabled, ItemsOk, LoopsOk, QueuesOk, NotStuck;
    StepItems(p, s);
    StepLoops(p, s);
    StepQueues(p, s);
    StepProgress(p, s);
    StepWorkers(p, s);
  }

  lemma StepWorkers(p: Pool, s: Step)
    requires Enabled(p, s)
    ensures |Do(p, s).workers| == |p.workers|
  {
    hide Take, PostSlow, Append, Without;
  }

  lemma {:induction false} NobodyCounts(n: nat)
    ensures var ws := seq(n, i => Ready(false));
            SlowCount(ws) == 0 && IdleCount(ws) == 0
  {
    if n > 0 {
      NobodyCounts(n - 1);
      assert seq(n, i => Ready(false))[..n - 1] == seq(n - 1, i => Ready(false));
    }
  }

  lemma InitInv(nthreads: nat, nloops: nat)
    requires nthreads > 0
    ensures Inv(Init(nthreads, nloops))
  {
    NobodyCounts(nthreads);
    assert Active(Init(nthreads, nloops).workers[0]);
  }

  ghost predicate CanRun(p: Pool, steps: seq<Step>)
    decreases |steps|
  {
    steps == [] || (Enabled(p, steps[0]) && CanRun(Do(p, steps[0]), steps[1..]))
  }

  ghost function After(p: Pool, steps: seq<Step>): Pool
    requires CanRun(p, steps)
    decreases |steps|
  {
    if steps == [] then p else After(Do(p, steps[0]), steps[1..])
  }

  lemma {:induction false} RunKeepsInv(p: Pool, steps: seq<Step>)
    requires Inv(p) && CanRun(p, steps)
    ensures Inv(After(p, steps))
    decreases |steps|
  {
    hide Inv, Enabled, Do;
    if steps != [] {
      StepKeepsInv(p, steps[0]);
      RunKeepsInv(Do(p, steps[0]), steps[1..]);
    }
  }

  /** In every interleaving: the invariant holds after any number of steps. */
  lemma EveryRun(nthreads: nat, nloops: nat, steps: seq<Step>)
    requires nthreads > 0 && CanRun(Init(nthreads, nloops), steps)
    ensures Inv(After(Init(nthreads, nloops), steps))
  {
    hide Inv, Init;
    InitInv(nthreads, nloops);
    RunKeepsInv(Init(nthreads, nloops), steps);
  }

  /** The item is in the container that the place names. */
  ghost predicate InPlace(p: Pool, id: nat, at: Place) {
    match at
    case Queued => Work(id) in p.q.wq
    case Pending => id in p.q.slow
    case Held(w) => w < |p.workers| && Holds(p.workers[w], id)
    case Returned(l) => l < |p.loops| && id in p.loops[l].queue
    case Draining(l) => l < |p.loops| && id in p.loops[l].draining
    case Moving(l) => l < |p.loops| && p.loops[l].cancelling == Some(id)
    case Finished => id in p.items && p.items[id].dones == 1
  }

  /**
   * After any run every submitted item is in exactly one place, its work function has run at most once and its done
   * callback at most once; the callback gets UV_ECANCELED exactly if a cancel succeeded, and then the work never ran.
   */
  lemma ItemSafety(nthreads: nat, nloops: nat, steps: seq<Step>, id: nat)
    requires nthreads > 0 && CanRun(Init(nthreads, nloops), steps) && id in After(Init(nthreads, nloops), steps).items
    ensures var p := After(Init(nthreads, nloops), steps);
            var it := p.items[id];
            && (forall at :: InPlace(p, id, at) <==> at == it.place)
            && it.runs <= 1 && it.dones <= 1
            && (it.dones == 1 ==> it.ecanceled == it.cancelOk && it.runs == if it.cancelOk then 0 else 1)
            && (it.cancelOk ==> it.runs == 0)
  {
    hide CanRun, After, LoopsOk, QueuesOk, NotStuck;
    EveryRun(nthreads, nloops, steps);
    var p := After(Init(nthreads, nloops), steps);
    assert Placed(p, id) && HistoryOk(p, id);
  }

  /** At most half of the threads, rounded up, ever run slow I/O, and the counter says how many do. */
  lemma SlowBound(nthreads: nat, nloops: nat, steps: seq<Step>)
    requires nthreads > 0 && CanRun(Init(nthreads, nloops), steps)
    ensures var p := After(Init(nthreads, nloops), steps);
            p.q.slowRunning == SlowCount(p.workers) <= (nthreads + 1) / 2
  {
    hide CanRun, After, ItemsOk, LoopsOk, NotStuck, SlowCount;
    EveryRun(nthreads, nloops, steps);
    RunSize(Init(nthreads, nloops), steps);
  }

  lemma {:induction false} RunSize(p: Pool, steps: seq<Step>)
    requires CanRun(p, steps)
    ensures |After(p, steps).workers| == |p.workers|
    decreases |steps|
  {
    hide Enabled, Do;
    if steps != [] {
      StepWorkers(p, steps[0]);
      RunSize(Do(p, steps[0]), steps[1..]);
    }
  }

  /** While slow I/O is pending, the message that makes workers look for it is queued, and queued once. */
  lemma PendingIsAnnounced(nthreads: nat, nloops: nat, steps: seq<Step>)
    requires nthreads > 0 && CanRun(Init(nthreads, nloops), steps)
    ensures var p := After(Init(nthreads, nloops), steps);
            && (p.q.slow != [] ==> RunSlow in p.q.wq)
            && forall i, j :: 0 <= i < |p.q.wq| && 0 <= j < |p.q.wq| && p.q.wq[i] == p.q.wq[j] == RunSlow ==> i == j
  {
    hide CanRun, After, ItemsOk, LoopsOk, NotStuck;
    EveryRun(nthreads, nloops, steps);
  }

  /** Before the shutdown, if all workers wait with no wake-up under way, no work is left in either queue. */
  lemma NoStuckWork(nthreads: nat, nloops: nat, steps: seq<Step>)
    requires nthreads > 0 && CanRun(Init(nthreads, nloops), steps)
    requires var p := After(Init(nthreads, nloops), steps);
             Exit !in p.q.wq && forall w :: 0 <= w < |p.workers| ==> p.workers[w].Waiting?
    ensures var p := After(Init(nthreads, nloops), steps);
            p.q.wq == [] && p.q.slow == []
  {
    hide CanRun, After, ItemsOk, LoopsOk;
    EveryRun(nthreads, nloops, steps);
    AllWait(After(Init(nthreads, nloops), steps).workers);
  }

  lemma {:induction false} AllWait(ws: seq<Worker>)
    requires forall w :: 0 <= w < |ws| ==> ws[w].Waiting?
    ensures SlowCount(ws) == 0
  {
    if ws != [] {
      AllWait(ws[..|ws| - 1]);
    }
  }

  /** The step by which a worker that does not wait goes on. */
  ghost predicate CanMove(p: Pool, w: nat) {
    || (exists woken :: Enabled(p, Lock(w, woken)))
    || Enabled(p, Execute(w)) || Enabled(p, Deliver(w))
  }

  /** Before the shutdown, as long as an item still waits for a worker, some worker can take a step. */
  lemma WorkGoesOn(nthreads: nat, nloops: nat, steps: seq<Step>, id: nat)
    requires nthreads > 0 && CanRun(Init(nthreads, nloops), steps)
    requires var p := After(Init(nthreads, nloops), steps);
             Exit !in p.q.wq && id in p.items
             && (p.items[id].place.Queued? || p.items[id].place.Pending? || p.items[id].place.Held?)
    ensures exists w :: CanMove(After(Init(nthreads, nloops), steps), w)
  {
    hide CanRun, After, LoopsOk, Enabled, SlowCount, IdleCount, CanMove;
    EveryRun(nthreads, nloops, steps);
    var p := After(Init(nthreads, nloops), steps);
    assert Placed(p, id) && HistoryOk(p, id);
    if p.items[id].place.Held? {
      ActiveMoves(p, p.items[id].place.w);
    } else if NothingToDo(p.q, |p.workers|) {
      // Only slow I/O at the threshold: the workers that reached it are busy with it.
      SlowIsBusy(p.workers);
      var w :| 0 <= w < |p.workers| && RunsSlow(p.workers[w]);
      ActiveMoves(p, w);
    } else {
      var w :| 0 <= w < |p.workers| && Active(p.workers[w]);
      ActiveMoves(p, w);
    }
  }

  lemma {:induction false} SlowIsBusy(ws: seq<Worker>)
    requires SlowCount(ws) > 0
    ensures exists w :: 0 <= w < |ws| && RunsSlow(ws[w])
  {
    var n := |ws| - 1;
    if RunsSlow(ws[n]) {
    } else {
      SlowIsBusy(ws[..n]);
      var w :| 0 <= w < n && RunsSlow(ws[..n][w]);
      assert ws[w] == ws[..n][w];
    }
  }

  /** A worker outside the condition wait can always take its next step. */
  lemma ActiveMoves(p: Pool, w: nat)
    requires Inv(p) && w < |p.workers| && Active(p.workers[w])
    ensures CanMove(p, w)
  {
    hide LoopsOk, NotStuck, SlowCount, IdleCount, Take, NothingToDo;
    if p.workers[w].Busy? {
      assert Placed(p, p.workers[w].id);
    } else if p.workers[w].Ran? {
      assert Placed(p, p.workers[w].id) && HistoryOk(p, p.workers[w].id);
    } else {
      TakeDoes(Entered(p, w), |p.workers|);
      var out := Take(Entered(p, w), |p.workers|).1;
      if out.Run? {
        assert Placed(p, out.id);
      }
      var woken := WorkerToWake(p.workers);
      assert Enabled(p, Lock(w, woken));
    }
  }

  /** A worker a signal can wake: some waiting one if there is one. */
  ghost function WorkerToWake(ws: seq<Worker>): (k: nat)
    ensures Wakes(ws, true, k)
  {
    if exists k :: 0 <= k < |ws| && ws[k].Waiting? then var k :| 0 <= k < |ws| && ws[k].Waiting?; k else 0
  }
}
