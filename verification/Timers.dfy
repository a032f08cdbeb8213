/** libuv's timers: starting, stopping and restarting them, and the pass that fires the ones that are due. */
module Timers {
  import opened HeapOrder
  import opened Queue
  import opened TimerStore

  const UINT64_MAX := 0xFFFF_FFFF_FFFF_FFFF
  const INT_MAX := 0x7FFF_FFFF

  /** A timer handle; an active one is in the heap. */
  datatype Handle = Handle(hasCb: bool, timeout: nat, repeat: nat, startId: nat, active: bool, closing: bool)

  /** The loop's time and timer counter, all handles, the heap's members, and the ready queue of a running pass. */
  datatype State = State(time: nat, counter: nat, handles: map<nat, Handle>, heap: set<nat>, ready: seq<nat>)

  /** What a callback may do with any timer. */
  datatype Op =
    | Start(id: nat, hasCb: bool, timeout: nat, repeat: nat)
    | Stop(id: nat)
    | Again(id: nat)
    | Close(id: nat)
    | SetRepeat(id: nat, repeat: nat)

  /** What can be observed of a pass: the calls of callbacks, and what they do; `counts` if it takes the timer out. */
  datatype Event = Fire(id: nat) | Did(op: Op, counts: bool)

  function KeyOf(h: Handle): Key { Key(h.timeout, h.startId) }

  /** The sum of two 64-bit numbers, or the largest number if it wraps around. */
  function Clamped(time: nat, timeout: nat): nat {
    var sum := (time + timeout) % (UINT64_MAX + 1);
    if sum < timeout then UINT64_MAX else sum
  }

  lemma ClampedIsMin(time: nat, timeout: nat)
    requires time <= UINT64_MAX && timeout <= UINT64_MAX
    ensures Clamped(time, timeout) == if time + timeout <= UINT64_MAX then time + timeout else UINT64_MAX
  {
  }

  // ---------- the operations on values ----------

  function Stopped(s: State, id: nat): State
    requires id in s.handles
  {
    if s.handles[id].active then
      s.(heap := s.heap - {id}, handles := s.handles[id := s.handles[id].(active := false)])
    else s.(ready := Without(s.ready, id))
  }

  function Started(s: State, id: nat, hasCb: bool, timeout: nat, repeat: nat): State
    requires id in s.handles
  {
    if s.handles[id].closing || !hasCb then s
    else
      var t := Stopped(s, id);
      var h := Handle(true, Clamped(s.time, timeout), repeat, s.counter, true, false);
      t.(counter := s.counter + 1, handles := t.handles[id := h], heap := t.heap + {id})
  }

  function Restarted(s: State, id: nat): State
    requires id in s.handles
  {
    var h := s.handles[id];
    if h.hasCb && h.repeat > 0 then Started(Stopped(s, id), id, h.hasCb, h.repeat, h.repeat) else s
  }

  predicate Known(s: State, op: Op) { op.id in s.handles }

  /** Whether the operation takes the timer out of heap and queue, if it was there. */
  predicate Counts(s: State, op: Op)
    requires Known(s, op)
  {
    match op
    case Start(id, hasCb, _, _) => hasCb && !s.handles[id].closing
    case Stop(_) => true
    case Again(id) => s.handles[id].hasCb && s.handles[id].repeat > 0
    case Close(_) => true
    case SetRepeat(_, _) => false
  }

  function Applied(s: State, op: Op): State
    requires Known(s, op)
  {
    match op
    case Start(id, hasCb, timeout, repeat) => Started(s, id, hasCb, timeout, repeat)
    case Stop(id) => Stopped(s, id)
    case Again(id) => Restarted(s, id)
    case Close(id) =>
      var t := Stopped(s, id);
      t.(handles := t.handles[id := t.handles[id].(closing := true)])
    case SetRepeat(id, repeat) => s.(handles := s.handles[id := s.handles[id].(repeat := repeat)])
  }

  // ---------- the invariant ----------

  ghost predicate Placed(s: State) {
    && (forall id :: id in s.heap <==> id in s.handles && s.handles[id].active)
    && (forall id :: id in s.ready ==>
          id in s.handles && !s.handles[id].active && s.handles[id].hasCb && !s.handles[id].closing)
    && (forall id :: id in s.heap ==>
          s.handles[id].hasCb && s.handles[id].startId < s.counter && !s.handles[id].closing)
    && (forall a, b :: a in s.heap && b in s.heap && a != b ==> s.handles[a].startId != s.handles[b].startId)
  }

  ghost predicate NoDup(s: seq<nat>) {
    forall i, j :: 0 <= i < j < |s| ==> s[i] != s[j]
  }

  /** Every timer is in the heap, in the ready queue, or in neither, never twice. */
  ghost predicate Valid(s: State) {
    Placed(s) && NoDup(s.ready)
  }

  lemma {:induction false} WithoutMembers(s: seq<nat>, x: nat)
    requires NoDup(s)
    ensures NoDup(Without(s, x))
    ensures forall y :: y in Without(s, x) <==> y in s && y != x
  {
    if s != [] {
      assert s == [s[0]] + s[1..];
      assert s[0] !in s[1..];
      WithoutMembers(s[1..], x);
      if s[0] != x {
        var r := Without(s[1..], x);
        forall i, j | 0 <= i < j < |r| + 1
          ensures Without(s, x)[i] != Without(s, x)[j]
        {
          assert Without(s, x)[j] == r[j - 1] && r[j - 1] in r;
        }
      }
    }
  }

  lemma StoppedValid(s: State, id: nat)
    requires Valid(s) && id in s.handles
    ensures var t := Stopped(s, id);
            && Valid(t) && t.heap == s.heap - {id} && (forall y :: y in t.ready <==> y in s.ready && y != id)
            && t.handles == s.handles[id := s.handles[id].(active := false)] && t.counter == s.counter
            && t.time == s.time
  {
    hide Without;
    WithoutMembers(s.ready, id);
    if !s.handles[id].active {
      assert s.handles[id := s.handles[id].(active := false)] == s.handles;
    }
  }

  lemma StartedValid(s: State, id: nat, hasCb: bool, timeout: nat, repeat: nat)
    requires Valid(s) && id in s.handles
    ensures var t := Started(s, id, hasCb, timeout, repeat);
            && Valid(t) && t.handles.Keys == s.handles.Keys && t.time == s.time
            && (if hasCb && !s.handles[id].closing then
                  && (forall y :: y in t.ready <==> y in s.ready && y != id)
                  && t.heap == s.heap + {id} && KeyOf(t.handles[id]) == Key(Clamped(s.time, timeout), s.counter)
                else t == s)
  {
    hide Stopped, NoDup, Clamped, Placed;
    StoppedValid(s, id);
    if hasCb && !s.handles[id].closing {
      var t := Stopped(s, id);
      ArmedPlaced(t, id, Handle(true, Clamped(s.time, timeout), repeat, s.counter, true, false));
    }
  }

  lemma ArmedPlaced(s: State, id: nat, h: Handle)
    requires Placed(s) && id in s.handles && id !in s.ready && h.hasCb && h.active && h.startId == s.counter
    requires !h.closing
    ensures Placed(s.(counter := s.counter + 1, handles := s.handles[id := h], heap := s.heap + {id}))
  {
  }

  /** Fields that say nothing about places and keys do not matter. */
  lemma OtherFields(s: State, id: nat, h: Handle)
    requires Valid(s) && id in s.handles
    requires h.active == s.handles[id].active && h.hasCb == s.handles[id].hasCb && h.startId == s.handles[id].startId
    requires h.closing == s.handles[id].closing || (id !in s.heap && id !in s.ready)
    ensures Valid(s.(handles := s.handles[id := h]))
  {
  }

  lemma RestartedValid(s: State, id: nat)
    requires Valid(s) && id in s.handles
    ensures var t := Restarted(s, id);
            && Valid(t) && t.handles.Keys == s.handles.Keys && t.time == s.time
            && (if s.handles[id].hasCb && s.handles[id].repeat > 0
                then forall y :: y in t.ready <==> y in s.ready && y != id
                else t == s)
  {
    hide Started, Stopped, Valid;
    var h := s.handles[id];
    StoppedValid(s, id);
    StartedValid(Stopped(s, id), id, h.hasCb, h.repeat, h.repeat);
  }

  /** Every operation keeps the invariant, and takes out of the ready queue at most its own timer. */
  lemma AppliedValid(s: State, op: Op)
    requires Valid(s) && Known(s, op)
    ensures var t := Applied(s, op);
            && Valid(t) && t.handles.Keys == s.handles.Keys && t.time == s.time
            && (if Counts(s, op) then forall y :: y in t.ready <==> y in s.ready && y != op.id else t.ready == s.ready)
  {
    hide Started, Stopped, Restarted, Valid;
    match op
    case Start(id, hasCb, timeout, repeat) => StartedValid(s, id, hasCb, timeout, repeat);
    case Stop(id) => StoppedValid(s, id);
    case Again(id) => RestartedValid(s, id);
    case Close(id) =>
      StoppedValid(s, id);
      OtherFields(Stopped(s, id), id, Stopped(s, id).handles[id].(closing := true));
    case SetRepeat(id, repeat) => OtherFields(s, id, s.handles[id].(repeat := repeat));
  }

  /** The ready queue only ever loses timers. */
  lemma {:induction false} WithoutShorter(s: seq<nat>, x: nat)
    ensures |Without(s, x)| <= |s|
  {
    if s != [] {
      WithoutShorter(s[1..], x);
    }
  }

  // ---------- what a pass must look like ----------

  /** Timers in the order they fire, by the keys they had at the start of the pass. */
  ghost predicate Increasing(h: map<nat, Handle>, s: seq<nat>) {
    && (forall i :: 0 <= i < |s| ==> s[i] in h)
    && forall i, j :: 0 <= i < j < |s| ==> Before(KeyOf(h[s[i]]), KeyOf(h[s[j]]))
  }

  /** The event takes timer t out of heap and queue. */
  ghost predicate Touches(e: Event, t: nat) {
    e.Did? && e.counts && e.op.id == t
  }

  ghost predicate TouchedIn(log: seq<Event>, t: nat) {
    exists j :: 0 <= j < |log| && Touches(log[j], t)
  }

  /** Timers fire once, in order, only if due, and only if no callback before has stopped or restarted them. */
  ghost predicate FiresOk(h: map<nat, Handle>, due: seq<nat>, log: seq<Event>) {
    && (forall i :: 0 <= i < |log| && log[i].Fire? ==> log[i].id in due && log[i].id in h)
    && (forall i, j :: 0 <= j < i < |log| && log[i].Fire? ==> log[j] != log[i] && !Touches(log[j], log[i].id))
    && (forall i, j :: 0 <= j < i < |log| && log[i].Fire? && log[j].Fire? ==>
          Before(KeyOf(h[log[j].id]), KeyOf(h[log[i].id])))
  }

  /** While a pass runs: what is left in the ready queue is what has neither fired nor been touched. */
  ghost predicate Progress(h: map<nat, Handle>, due: seq<nat>, ready: seq<nat>, log: seq<Event>) {
    && FiresOk(h, due, log) && Increasing(h, ready)
    && (forall t :: t in ready <==> t in due && Fire(t) !in log && !TouchedIn(log, t))
    && (forall i, r :: 0 <= i < |log| && log[i].Fire? && r in ready ==> Before(KeyOf(h[log[i].id]), KeyOf(h[r])))
  }

  /** The whole pass: every due timer fires exactly once, unless an earlier callback has taken it out. */
  ghost predicate PassOk(h: map<nat, Handle>, due: seq<nat>, log: seq<Event>) {
    FiresOk(h, due, log) && forall t :: t in due ==> Fire(t) in log || TouchedIn(log, t)
  }


  lemma ProgressStart(h: map<nat, Handle>, due: seq<nat>)
    requires Increasing(h, due)
    ensures Progress(h, due, due, [])
  {
  }

  lemma TouchedMore(log: seq<Event>, e: Event, t: nat)
    ensures TouchedIn(log + [e], t) <==> TouchedIn(log, t) || Touches(e, t)
    ensures Fire(t) in log + [e] <==> Fire(t) in log || e == Fire(t)
  {
    var l := log + [e];
    if TouchedIn(log, t) {
      var j :| 0 <= j < |log| && Touches(log[j], t);
      assert Touches(l[j], t);
    }
    if Touches(e, t) {
      assert Touches(l[|log|], t);
    }
  }

  /** The head of the ready queue fires. */
  lemma ProgressFire(h: map<nat, Handle>, due: seq<nat>, ready: seq<nat>, log: seq<Event>)
    requires Progress(h, due, ready, log) && ready != []
    ensures Progress(h, due, ready[1..], log + [Fire(ready[0])])
  {
    var t, l := ready[0], log + [Fire(ready[0])];
    assert ready == [t] + ready[1..];
    forall u
      ensures u in ready[1..] <==> u in due && Fire(u) !in l && !TouchedIn(l, u)
    {
      TouchedMore(log, Fire(t), u);
      if u in ready[1..] {
        var i :| 0 < i < |ready| && ready[i] == u;
        assert Before(KeyOf(h[t]), KeyOf(h[u]));
      }
    }
    forall i, j | 0 <= j < i < |l| && l[i].Fire?
      ensures l[j] != l[i] && !Touches(l[j], l[i].id)
    {
      if i == |log| {
        assert t in ready;
        assert log[j] in log;
      }
    }
  }

  /** A callback's operation leaves the queue, or takes its timer out of it. */
  lemma ProgressOp(h: map<nat, Handle>, due: seq<nat>, ready: seq<nat>, log: seq<Event>, e: Event, ready': seq<nat>)
    requires Progress(h, due, ready, log) && e.Did? && Increasing(h, ready')
    requires forall y :: y in ready' <==> y in ready && !(e.counts && y == e.op.id)
    ensures Progress(h, due, ready', log + [e])
  {
    var l := log + [e];
    forall u
      ensures u in ready' <==> u in due && Fire(u) !in l && !TouchedIn(l, u)
    {
      TouchedMore(log, e, u);
    }
  }

  lemma ProgressDone(h: map<nat, Handle>, due: seq<nat>, log: seq<Event>)
    requires Progress(h, due, [], log)
    ensures PassOk(h, due, log)
  {
  }

  lemma {:induction false} WithoutIncreasing(h: map<nat, Handle>, s: seq<nat>, x: nat)
    requires Increasing(h, s)
    ensures Increasing(h, Without(s, x)) && NoDup(s)
  {
    if s != [] {
      var tail := s[1..];
      WithoutIncreasing(h, tail, x);
      var r := Without(tail, x);
      WithoutMembers(tail, x);
      forall k | 0 <= k < |r|
        ensures Before(KeyOf(h[s[0]]), KeyOf(h[r[k]]))
      {
        assert r[k] in r;
        var i :| 0 <= i < |tail| && tail[i] == r[k];
        assert s[i + 1] == r[k];
      }
    }
  }

  /** The ready queue after an operation is the old one, or the old one without the operation's timer. */
  lemma AppliedReady(s: State, op: Op)
    requires Known(s, op)
    ensures Applied(s, op).ready == s.ready || Applied(s, op).ready == Without(s.ready, op.id)
         || Applied(s, op).ready == Without(Without(s.ready, op.id), op.id)
  {
  }

  lemma AppliedIncreasing(h: map<nat, Handle>, s: State, op: Op)
    requires Known(s, op) && Increasing(h, s.ready)
    ensures Increasing(h, Applied(s, op).ready)
  {
    hide Increasing, Without, Applied;
    AppliedReady(s, op);
    WithoutIncreasing(h, s.ready, op.id);
    WithoutIncreasing(h, Without(s.ready, op.id), op.id);
  }

  // ---------- a pass on values ----------

  ghost predicate KnownOps(s: State, ops: seq<Op>) {
    forall i :: 0 <= i < |ops| ==> Known(s, ops[i])
  }

  ghost predicate KnownScripts(s: State, scripts: seq<seq<Op>>) {
    forall k :: 0 <= k < |scripts| ==> KnownOps(s, scripts[k])
  }

  lemma AppliedShorter(s: State, op: Op)
    requires Known(s, op)
    ensures |Applied(s, op).ready| <= |s.ready|
  {
    hide Applied;
    AppliedReady(s, op);
    WithoutShorter(s.ready, op.id);
    WithoutShorter(Without(s.ready, op.id), op.id);
  }

  /** What the operations of one callback make of the state, and the events they are. */
  ghost function Performed(s: State, ops: seq<Op>): (r: (State, seq<Event>))
    requires Valid(s) && KnownOps(s, ops)
    ensures Valid(r.0) && r.0.handles.Keys == s.handles.Keys && |r.0.ready| <= |s.ready|
    decreases |ops|
  {
    if ops == [] then (s, [])
    else
      AppliedValid(s, ops[0]);
      AppliedShorter(s, ops[0]);
      var (t, events) := Performed(Applied(s, ops[0]), ops[1..]);
      (t, [Did(ops[0], Counts(s, ops[0]))] + events)
  }

  /** The head of the ready queue leaves it and is restarted if it repeats. */
  ghost function Fired(s: State): (t: State)
    requires Valid(s) && s.ready != []
    ensures Valid(t) && t.handles.Keys == s.handles.Keys && t.ready == s.ready[1..]
  {
    HeadKnown(s);
    DropHead(s);
    var t := s.(ready := s.ready[1..]);
    RestartedValid(t, s.ready[0]);
    RestartedReady(t, s.ready[0]);
    Restarted(t, s.ready[0])
  }

  /** The rest of a pass: the ready timers fire in turn, and the callbacks perform the scripts in turn. */
  ghost function PassFrom(s: State, scripts: seq<seq<Op>>): (r: (State, seq<Event>))
    requires Valid(s) && KnownScripts(s, scripts)
    ensures Valid(r.0) && r.0.ready == [] && r.0.handles.Keys == s.handles.Keys
    decreases |s.ready|
  {
    if s.ready == [] then (s, [])
    else if scripts == [] then
      var (u, events) := PassFrom(Fired(s), []);
      (u, [Fire(s.ready[0])] + events)
    else
      var (t, did) := Performed(Fired(s), scripts[0]);
      var (u, events) := PassFrom(t, scripts[1..]);
      (u, [Fire(s.ready[0])] + did + events)
  }

  lemma SameKnown(s: State, t: State, scripts: seq<seq<Op>>)
    requires KnownScripts(s, scripts) && t.handles.Keys == s.handles.Keys
    ensures KnownScripts(t, scripts)
  {
  }

  /** After `did`, which are the events of the first i operations, the state is s. */
  ghost predicate DoneSoFar(s0: State, ops: seq<Op>, s: State, i: nat, did: seq<Event>) {
    && Valid(s0) && KnownOps(s0, ops) && i <= |ops| && Valid(s) && KnownOps(s, ops[i..])
    && var (t, events) := Performed(s, ops[i..]);
       Performed(s0, ops) == (t, did + events)
  }

  lemma DoneNothing(s: State, ops: seq<Op>)
    requires Valid(s) && KnownOps(s, ops)
    ensures DoneSoFar(s, ops, s, 0, [])
  {
    hide Valid;
    assert ops[0..] == ops;
    assert [] + Performed(s, ops).1 == Performed(s, ops).1;
  }

  lemma DoneOneMore(s0: State, ops: seq<Op>, s: State, i: nat, did: seq<Event>)
    requires DoneSoFar(s0, ops, s, i, did) && i < |ops|
    ensures Valid(s) && Known(s, ops[i])
    ensures DoneSoFar(s0, ops, Applied(s, ops[i]), i + 1, did + [Did(ops[i], Counts(s, ops[i]))])
  {
    hide Valid, Applied, Counts;
    var op := ops[i];
    assert ops[i..][0] == op && ops[i..][1..] == ops[i + 1..];
    AppliedValid(s, op);
    var events := Performed(Applied(s, op), ops[i + 1..]).1;
    assert did + ([Did(op, Counts(s, op))] + events) == did + [Did(op, Counts(s, op))] + events;
  }

  lemma DoneAll(s0: State, ops: seq<Op>, s: State, did: seq<Event>)
    requires DoneSoFar(s0, ops, s, |ops|, did)
    ensures Valid(s0) && KnownOps(s0, ops) && Performed(s0, ops) == (s, did)
  {
    hide Valid;
    assert did + [] == did;
  }

  /** After `log` the state is s, and the callbacks still to come perform the scripts in `rest`. */
  ghost predicate PassSoFar(s0: State, scripts: seq<seq<Op>>, s: State, rest: seq<seq<Op>>, log: seq<Event>) {
    && Valid(s0) && KnownScripts(s0, scripts) && Valid(s) && KnownScripts(s, rest)
    && var (t, events) := PassFrom(s, rest);
       PassFrom(s0, scripts) == (t, log + events)
  }

  lemma PassBegins(s: State, scripts: seq<seq<Op>>)
    requires Valid(s) && KnownScripts(s, scripts)
    ensures PassSoFar(s, scripts, s, scripts, [])
  {
    hide Valid, PassFrom;
    assert [] + PassFrom(s, scripts).1 == PassFrom(s, scripts).1;
  }

  lemma PassOpen(s0: State, scripts: seq<seq<Op>>, s: State, rest: seq<seq<Op>>, log: seq<Event>)
    requires PassSoFar(s0, scripts, s, rest, log)
    ensures Valid(s0) && KnownScripts(s0, scripts) && Valid(s)
    ensures s.ready == [] ==> PassFrom(s0, scripts) == (s, log)
  {
    hide Valid;
    assert log + [] == log;
  }

  lemma PassGoesOn(s0: State, scripts: seq<seq<Op>>, s: State, rest: seq<seq<Op>>, log: seq<Event>)
    requires PassSoFar(s0, scripts, s, rest, log) && s.ready != []
    ensures Valid(s) && s.ready[0] in s.handles
    ensures rest == [] ==> PassSoFar(s0, scripts, Fired(s), [], log + [Fire(s.ready[0])])
    ensures rest != [] ==>
      && KnownOps(Fired(s), rest[0])
      && var (t, did) := Performed(Fired(s), rest[0]);
         PassSoFar(s0, scripts, t, rest[1..], log + [Fire(s.ready[0])] + did) && |t.ready| < |s.ready|
  {
    hide Valid, Fired, Performed;
    HeadKnown(s);
    var fire := [Fire(s.ready[0])];
    if rest == [] {
      var events := PassFrom(Fired(s), []).1;
      assert log + (fire + events) == log + fire + events;
    } else {
      var (t, did) := Performed(Fired(s), rest[0]);
      var events := PassFrom(t, rest[1..]).1;
      assert log + (fire + did + events) == log + fire + did + events;
    }
  }

  /** The state in which the timers of `due` have been moved from the heap to the ready queue. */
  ghost function Moved(s: State, due: seq<nat>): State {
    var handles := map id | id in s.handles :: if id in due then s.handles[id].(active := false) else s.handles[id];
    s.(handles := handles, heap := (set id | id in s.heap && id !in due), ready := due)
  }

  lemma MovedNothing(s: State)
    requires s.ready == []
    ensures Moved(s, []) == s
  {
    assert Moved(s, []).handles == s.handles && Moved(s, []).heap == s.heap;
  }

  lemma MovedOneMore(s: State, due: seq<nat>, id: nat)
    requires id in s.heap && id in s.handles && id !in due && s.handles[id].active
    ensures var t := Stopped(Moved(s, due), id);
            t.(ready := due + [id]) == Moved(s, due + [id])
  {
    var t, u := Stopped(Moved(s, due), id), Moved(s, due + [id]);
    assert Moved(s, due).handles[id] == s.handles[id];
    assert t.handles == u.handles && t.heap == u.heap;
  }

  /** The same keys. */
  ghost predicate SameKeys(h: map<nat, Handle>, g: map<nat, Handle>) {
    g.Keys == h.Keys && forall id :: id in h ==> KeyOf(g[id]) == KeyOf(h[id]) && g[id].repeat == h[id].repeat
  }

  /** While due timers are collected: the queue is in order, and what is still in the heap comes after it. */
  ghost predicate Collecting(h: map<nat, Handle>, s0: State, s: State) {
    && Valid(s) && h == s0.handles && s == Moved(s0, s.ready) && SameKeys(h, s.handles) && Increasing(h, s.ready)
    && (forall id :: id in s0.heap <==> id in s.heap || id in s.ready)
    && (forall r :: r in s.ready ==> h[r].timeout <= s0.time)
    && (forall r, o :: r in s.ready && o in s.heap ==> Before(KeyOf(h[r]), KeyOf(h[o])))
  }

  /** A timer that is neither active nor queued joins the queue. */
  lemma Enqueued(s: State, id: nat)
    requires Valid(s) && id in s.handles && !s.handles[id].active && s.handles[id].hasCb && id !in s.ready
    requires !s.handles[id].closing
    ensures Valid(s.(ready := s.ready + [id]))
  {
  }

  lemma IncreasingMore(h: map<nat, Handle>, s: seq<nat>, id: nat)
    requires Increasing(h, s) && id in h && forall r :: r in s ==> Before(KeyOf(h[r]), KeyOf(h[id]))
    ensures Increasing(h, s + [id])
  {
  }

  /** Two active timers never have the same key. */
  lemma MinComesFirst(h: map<nat, Handle>, s0: State, s: State, id: nat, o: nat)
    requires Collecting(h, s0, s) && id in s.heap && o in s.heap && o != id && !Before(KeyOf(h[o]), KeyOf(h[id]))
    ensures Before(KeyOf(h[id]), KeyOf(h[o]))
  {
    assert KeyOf(s.handles[o]) == KeyOf(h[o]) && KeyOf(s.handles[id]) == KeyOf(h[id]);
  }

  /** The smallest active timer goes from the heap to the end of the queue. */
  lemma {:induction false} CollectOne(h: map<nat, Handle>, s0: State, s: State, id: nat)
    requires Collecting(h, s0, s) && id in s.heap && h[id].timeout <= s0.time
    requires forall o :: o in s.heap ==> !Before(KeyOf(h[o]), KeyOf(h[id]))
    ensures var t := Stopped(s, id);
            Collecting(h, s0, t.(ready := t.ready + [id]))
  {
    hide Without, Valid, Increasing, Moved, Stopped;
    HeapKnown(h, s0, s, id);
    ActiveInHeap(s, id);
    StillActive(s0, s.ready, id);
    MovedOneMore(s0, s.ready, id);
    StoppedSmaller(s, id);
    var t := Stopped(s, id);
    StoppedValid(s, id);
    Enqueued(t, id);
    IncreasingMore(h, s.ready, id);
    forall o | o in t.heap
      ensures o in h && Before(KeyOf(h[id]), KeyOf(h[o]))
    {
      HeapKnown(h, s0, s, o);
      MinComesFirst(h, s0, s, id, o);
    }
  }

  lemma StillActive(s: State, due: seq<nat>, id: nat)
    requires id in Moved(s, due).heap && id in Moved(s, due).handles && Moved(s, due).handles[id].active
    ensures id in s.heap && id in s.handles && id !in due && s.handles[id].active
  {
  }

  lemma ActiveIff(s: State, id: nat)
    requires Valid(s) && id in s.handles
    ensures s.handles[id].active <==> id in s.heap
  {
  }

  lemma NewValid(s: State, id: nat, h: Handle)
    requires Valid(s) && id !in s.handles && !h.active
    ensures Valid(s.(handles := s.handles[id := h]))
  {
  }

  lemma ActiveInHeap(s: State, id: nat)
    requires Valid(s) && id in s.heap
    ensures id in s.handles && s.handles[id].active && s.handles[id].hasCb && id !in s.ready && !s.handles[id].closing
  {
  }

  // ---------- the loop's timers ----------

  /** The keys in the heap are those of the handles, and there is room for all timers in the heap. */
  ghost predicate Agree(ids: set<nat>, heap: set<nat>, keys: map<nat, Key>, handles: map<nat, Handle>) {
    && ids == handles.Keys && |handles| < 0xFFFF_FFFF
    && forall id :: id in heap ==> id in handles && id in keys && keys[id] == KeyOf(handles[id])
  }

  /** Changing a handle that is not in the heap, or only fields other than its key. */
  lemma AgreeOther(ids: set<nat>, heap: set<nat>, keys: map<nat, Key>, handles: map<nat, Handle>, id: nat, h: Handle)
    requires Agree(ids, heap, keys, handles) && id in handles && (id !in heap || KeyOf(h) == KeyOf(handles[id]))
    ensures Agree(ids, heap, keys, handles[id := h])
  {
    var g := handles[id := h];
    assert g.Keys == handles.Keys;
    assert |g.Keys| == |g| && |handles.Keys| == |handles|;
  }

  lemma AgreeNew(ids: set<nat>, heap: set<nat>, keys: map<nat, Key>, handles: map<nat, Handle>, id: nat, h: Handle)
    requires Agree(ids, heap, keys, handles) && id !in handles && |handles| + 1 < 0xFFFF_FFFF
    ensures Agree(ids + {id}, heap, keys, handles[id := h])
  {
  }

  lemma AgreeInserted(ids: set<nat>, heap: set<nat>, keys: map<nat, Key>, handles: map<nat, Handle>, id: nat)
    requires Agree(ids, heap, keys, handles) && id in handles
    ensures Agree(ids, heap + {id}, keys[id := KeyOf(handles[id])], handles)
  {
  }

  lemma AgreeRemoved(ids: set<nat>, heap: set<nat>, keys: map<nat, Key>, handles: map<nat, Handle>, id: nat)
    requires Agree(ids, heap, keys, handles)
    ensures Agree(ids, heap - {id}, keys, handles)
  {
  }

  lemma AgreeRoom(ids: set<nat>, heap: set<nat>, keys: map<nat, Key>, handles: map<nat, Handle>)
    requires Agree(ids, heap, keys, handles)
    ensures |heap| < 0xFFFF_FFFF && ids == handles.Keys
  {
    assert |handles.Keys| == |handles|;
    assert handles.Keys == heap + (handles.Keys - heap) && heap !! (handles.Keys - heap);
  }

  class TimerLoop {
    var time: nat
    var counter: nat
    var handles: map<nat, Handle>
    const store: Store

    ghost function Value(): State
      reads this, store`heap, store`ready
    {
      State(time, counter, handles, store.heap, store.ready)
    }

    /** The heap and the queue are as the handles say. */
    ghost predicate Stored()
      reads this`handles, store, store.timers, store.timers.nodes, store.nodes, store.head, store.links
    {
      store.Linked() && Agree(store.node.Keys, store.heap, store.keys, handles)
    }

    constructor (time: nat)
      ensures Valid(Value()) && Stored() && handles == map[] && this.time == time && Value().ready == []
      ensures fresh(store) && fresh(store.Repr())
    {
      this.time := time;
      counter, handles := 0, map[];
      store := new Store();
    }

    method TimerInit(id: nat)
      requires Valid(Value()) && Stored() && id !in handles && |handles| + 1 < 0xFFFF_FFFF
      modifies this`handles, store`node, store`link, store`nodes, store`links
      ensures Valid(Value()) && Stored() && handles == old(handles)[id := Handle(false, 0, 0, 0, false, false)]
      ensures fresh(store.Repr() - old(store.Repr()))
    {
      hide Store.Linked, Agree, Valid;
      NewValid(Value(), id, Handle(false, 0, 0, 0, false, false));
      AgreeRoom(store.node.Keys, store.heap, store.keys, handles);
      AgreeNew(store.node.Keys, store.heap, store.keys, handles, id, Handle(false, 0, 0, 0, false, false));
      store.Add(id);
      handles := handles[id := Handle(false, 0, 0, 0, false, false)];
    }

    method TimerStop(id: nat)
      requires Valid(Value()) && Stored() && id in handles
      modifies this`handles, this`counter
      modifies store`heap, store`keys, store`ready, store.timers, store.nodes, store.head, store.links
      ensures Stored() && Value() == Stopped(old(Value()), id)
    {
      hide Store.Linked, Agree, Valid;
      AgreeRoom(store.node.Keys, store.heap, store.keys, handles);
      ActiveIff(Value(), id);
      if handles[id].active {
        // The queue link shares its memory with the heap node and is initialised again; here it has been on its own.
        AgreeRemoved(store.node.Keys, store.heap, store.keys, handles, id);
        AgreeOther(store.node.Keys, store.heap - {id}, store.keys, handles, id, handles[id].(active := false));
        store.HeapRemove(id);
        handles := handles[id := handles[id].(active := false)];
      } else {
        store.QueueRemove(id);
      }
    }

    method TimerStart(id: nat, hasCb: bool, timeout: nat, repeat: nat) returns (invalid: bool)
      requires Valid(Value()) && Stored() && id in handles && timeout <= UINT64_MAX
      modifies this`handles, this`counter
      modifies store`heap, store`keys, store`ready, store.timers, store.nodes, store.head, store.links
      ensures Stored() && Value() == Started(old(Value()), id, hasCb, timeout, repeat)
      ensures invalid <==> !Counts(old(Value()), Start(id, hasCb, timeout, repeat))
    {
      hide Store.Linked, Valid, Stopped, Agree, TimerLoop.Stored;
      if handles[id].closing || !hasCb {
        return true;
      }
      StoppedValid(Value(), id);
      TimerStop(id);
      var clamped := (time + timeout) % (UINT64_MAX + 1);
      if clamped < timeout {
        clamped := UINT64_MAX;
      }
      Arm(id, Handle(true, clamped, repeat, counter, true, false));
      counter := counter + 1;
      invalid := false;
    }

    /** The handle's new fields, and its node into the heap. */
    method Arm(id: nat, h: Handle)
      requires Stored() && id in handles && id !in Value().heap
      modifies this`handles, store`heap, store`keys, store.timers, store.nodes
      ensures Stored() && Value() == old(Value()).(handles := old(handles)[id := h], heap := old(Value().heap) + {id})
    {
      hide Store.Linked, Agree;
      AgreeRoom(store.node.Keys, store.heap, store.keys, handles);
      AgreeOther(store.node.Keys, store.heap, store.keys, handles, id, h);
      AgreeInserted(store.node.Keys, store.heap, store.keys, handles[id := h], id);
      handles := handles[id := h];
      store.HeapInsert(id, h.timeout, h.startId);
    }

    method TimerAgain(id: nat) returns (invalid: bool)
      requires Valid(Value()) && Stored() && id in handles && handles[id].repeat <= UINT64_MAX
      modifies this`handles, this`counter
      modifies store`heap, store`keys, store`ready, store.timers, store.nodes, store.head, store.links
      ensures Stored() && Value() == Restarted(old(Value()), id)
      ensures invalid <==> !old(handles[id].hasCb)
    {
      hide Store.Linked, Valid, Stopped, Started, TimerLoop.Stored;
      if !handles[id].hasCb {
        return true;
      }
      if handles[id].repeat > 0 {
        var h := handles[id];
        StoppedValid(Value(), id);
        TimerStop(id);
        var rc := TimerStart(id, h.hasCb, h.repeat, h.repeat);
      }
      invalid := false;
    }

    /** What a callback does. */
    method Perform(op: Op)
      requires Valid(Value()) && Stored() && Known(Value(), op) && InRange(op) && handles[op.id].repeat <= UINT64_MAX
      modifies this`handles, this`counter
      modifies store`heap, store`keys, store`ready, store.timers, store.nodes, store.head, store.links
      ensures Stored() && Value() == Applied(old(Value()), op)
    {
      hide Store.Linked, Valid, Stopped, Started, Restarted, Agree;
      match op
      case Start(id, hasCb, timeout, repeat) =>
        var rc := TimerStart(id, hasCb, timeout, repeat);
      case Stop(id) => TimerStop(id);
      case Again(id) =>
        var rc := TimerAgain(id);
      case Close(id) =>
        StoppedValid(Value(), id);
        TimerStop(id);
        AgreeOther(store.node.Keys, store.heap, store.keys, handles, id, handles[id].(closing := true));
        handles := handles[id := handles[id].(closing := true)];
      case SetRepeat(id, repeat) =>
        AgreeOther(store.node.Keys, store.heap, store.keys, handles, id, handles[id].(repeat := repeat));
        handles := handles[id := handles[id].(repeat := repeat)];
    }

    /** The timer at the root of the heap: the one with the smallest key. */
    method HeapMin() returns (id: nat, found: bool)
      requires Stored()
      ensures found <==> Value().heap != {}
      ensures found ==> id in Value().heap && id in handles
      ensures found ==> forall o :: o in Value().heap ==> o in handles && !Before(KeyOf(handles[o]), KeyOf(handles[id]))
    {
      hide Store.Linked;
      id, found := store.HeapMin();
    }

    /** How long the loop may block: until the first timer is due, without end if there is none. */
    method NextTimeout() returns (r: int)
      requires Valid(Value()) && Stored()
      ensures var heap := Value().heap;
              && (r == -1 <==> heap == {})
              && (forall id :: id in heap ==> id in handles)
              && (r == 0 <==> exists id :: id in heap && handles[id].timeout <= time)
              && (r > 0 ==> r <= INT_MAX && forall id :: id in heap ==> handles[id].timeout >= time + r)
              && (0 < r < INT_MAX ==> exists id :: id in heap && handles[id].timeout == time + r)
    {
      hide Store.Linked;
      var id, found := HeapMin();
      if !found {
        return -1;
      }
      if handles[id].timeout <= time {
        return 0;
      }
      var diff := handles[id].timeout - time;
      if diff > INT_MAX {
        diff := INT_MAX;
      }
      r := diff;
    }

    /** Moves all due timers from the heap to the ready queue, in the order of their keys. */
    method CollectDue()
      requires Valid(Value()) && Stored() && Value().ready == []
      modifies this`handles, this`counter
      modifies store`heap, store`keys, store`ready, store.timers, store.nodes, store.head, store.links
      ensures Stored() && Collecting(old(handles), old(Value()), Value())
      ensures forall id :: id in Value().ready <==> id in old(Value().heap) && old(handles)[id].timeout <= time
    {
      hide Valid, Increasing, Store.Linked, TimerLoop.Stored, Moved, Stopped, SameKeys;
      ghost var h, s0 := handles, Value();
      CollectStart(s0);
      while true
        invariant Stored() && Collecting(h, s0, Value())
        decreases |Value().heap|
      {
        var id, found := HeapMin();
        if !found {
          break;
        }
        HeapKnown(h, s0, Value(), id);
        if handles[id].timeout > time {
          NoneDue(h, s0, Value(), id);
          break;
        }
        MinBySameKeys(h, Value(), id);
        CollectOne(h, s0, Value(), id);
        StoppedSmaller(Value(), id);
        Enqueue(id);
      }
    }

    /** One due timer goes from the heap to the end of the queue. */
    method Enqueue(id: nat)
      requires Valid(Value()) && Stored() && id in Value().heap && id in handles
      modifies this`handles, this`counter
      modifies store`heap, store`keys, store`ready, store.timers, store.nodes, store.head, store.links
      ensures Stored()
      ensures var t := Stopped(old(Value()), id);
              Value() == t.(ready := t.ready + [id])
    {
      hide Valid, Store.Linked, Agree, Stopped;
      AgreeRoom(store.node.Keys, store.heap, store.keys, handles);
      ActiveInHeap(Value(), id);
      StoppedSmaller(Value(), id);
      TimerStop(id);
      store.InsertReady(id);
    }

    /** The pass: collects what is due, then fires it; each callback performs the next list of operations. */
    method RunTimers(scripts: seq<seq<Op>>) returns (log: seq<Event>, ghost due: seq<nat>)
      requires Valid(Value()) && Stored() && Value().ready == [] && RepeatsInRange(handles)
      requires KnownScripts(Value(), scripts) && ScriptsInRange(scripts)
      modifies this`handles, this`counter
      modifies store`heap, store`keys, store`ready, store.timers, store.nodes, store.head, store.links
      ensures Stored() && Valid(Value()) && Value().ready == []
      ensures IsDue(old(Value()), due) && (Value(), log) == Pass(old(Value()), due, scripts)
    {
      hide Valid, Increasing, Collecting, RepeatsInRange, TimerLoop.Stored, Fired, Performed, Moved;
      hide KnownScripts, KnownOps, PassFrom, PassSoFar, OpsInRange;
      ghost var s0 := Value();
      CollectDue();
      Collected(s0.handles, s0, Value());
      due := Value().ready;
      ghost var s1 := Value();
      log := [];
      var rest := scripts;
      MovedValid(s0, due);
      SameKnown(s0, s1, scripts);
      PassBegins(s1, scripts);
      while true
        invariant Stored() && RepeatsInRange(handles) && ScriptsInRange(rest)
        invariant PassSoFar(s1, scripts, Value(), rest, log)
        decreases |Value().ready|
      {
        PassOpen(s1, scripts, Value(), rest, log);
        var id, found := NextReady();
        if !found {
          break;
        }
        PassGoesOn(s1, scripts, Value(), rest, log);
        FireOne(id);
        log := log + [Fire(id)];
        if rest != [] {
          var did := Callback(rest[0]);
          log := log + did;
          rest := rest[1..];
        }
      }
    }

    method NextReady() returns (id: nat, found: bool)
      requires Stored()
      ensures found <==> Value().ready != []
      ensures found ==> id == Value().ready[0]
    {
      hide Store.Linked;
      id, found := store.NextReady();
    }

    /** Takes the head of the ready queue and restarts it if it repeats. */
    method FireOne(id: nat)
      requires Valid(Value()) && Stored() && RepeatsInRange(handles) && Value().ready != [] && id == Value().ready[0]
      modifies this`handles, this`counter
      modifies store`heap, store`keys, store`ready, store.timers, store.nodes, store.head, store.links
      ensures Stored() && RepeatsInRange(handles) && Value() == Fired(old(Value()))
    {
      hide Valid, RepeatsInRange, TimerLoop.Stored, Restarted;
      HeadKnown(Value());
      DropHead(Value());
      Dequeue(id);
      RestartedRepeats(Value(), id);
      var rc := TimerAgain(id);
    }

    method Dequeue(id: nat)
      requires Stored() && id in handles && Value().ready != [] && id == Value().ready[0]
      modifies this`handles, this`counter
      modifies store`heap, store`keys, store`ready, store.timers, store.nodes, store.head, store.links
      ensures Stored() && Value() == old(Value()).(ready := old(Value().ready)[1..])
    {
      hide Store.Linked, Agree;
      AgreeRoom(store.node.Keys, store.heap, store.keys, handles);
      store.QueueRemove(id);
    }

    /** The operations of one callback. */
    method Callback(script: seq<Op>) returns (did: seq<Event>)
      requires Valid(Value()) && Stored() && RepeatsInRange(handles) && KnownOps(Value(), script) && OpsInRange(script)
      modifies this`handles, this`counter
      modifies store`heap, store`keys, store`ready, store.timers, store.nodes, store.head, store.links
      ensures Stored() && RepeatsInRange(handles) && (Value(), did) == Performed(old(Value()), script)
    {
      hide Valid, RepeatsInRange, Counts, Applied, TimerLoop.Stored, KnownOps, Performed, DoneSoFar;
      did := [];
      ghost var s0 := Value();
      DoneNothing(s0, script);
      for i := 0 to |script|
        invariant Stored() && RepeatsInRange(handles)
        invariant DoneSoFar(s0, script, Value(), i, did)
      {
        var op := script[i];
        DoneOneMore(s0, script, Value(), i, did);
        AppliedRepeats(Value(), op);
        var takesOut := TakesOut(op);
        Perform(op);
        did := did + [Did(op, takesOut)];
      }
      DoneAll(s0, script, Value(), did);
    }

    /** Whether the operation takes its timer out of heap and queue. */
    method TakesOut(op: Op) returns (counts: bool)
      requires op.id in handles
      ensures counts == Counts(Value(), op)
    {
      var h := handles[op.id];
      counts := match op
        case Start(_, hasCb, _, _) => hasCb && !h.closing
        case Stop(_) => true
        case Again(_) => h.hasCb && h.repeat > 0
        case Close(_) => true
        case SetRepeat(_, _) => false;
    }
  }

  /** Intervals are 64-bit numbers. */
  predicate InRange(op: Op) {
    match op
    case Start(_, _, timeout, repeat) => timeout <= UINT64_MAX && repeat <= UINT64_MAX
    case SetRepeat(_, repeat) => repeat <= UINT64_MAX
    case _ => true
  }

  predicate OpsInRange(ops: seq<Op>) {
    forall i :: 0 <= i < |ops| ==> InRange(ops[i])
  }

  predicate ScriptsInRange(scripts: seq<seq<Op>>) {
    forall k :: 0 <= k < |scripts| ==> OpsInRange(scripts[k])
  }

  ghost predicate RepeatsInRange(h: map<nat, Handle>) {
    forall id :: id in h ==> h[id].repeat <= UINT64_MAX
  }

  lemma HeapKnown(h: map<nat, Handle>, s0: State, s: State, id: nat)
    requires Collecting(h, s0, s) && id in s.heap
    ensures id in s.handles && id in h && KeyOf(s.handles[id]) == KeyOf(h[id])
  {
  }

  lemma CollectStart(s: State)
    requires Valid(s) && s.ready == []
    ensures Collecting(s.handles, s, s)
  {
    MovedNothing(s);
  }

  /** The smallest timer is not due, so none is, and the queue has all that were. */
  lemma NoneDue(h: map<nat, Handle>, s0: State, s: State, id: nat)
    requires Collecting(h, s0, s) && id in s.heap && s.handles[id].timeout > s.time
    requires forall o :: o in s.heap ==> !Before(KeyOf(s.handles[o]), KeyOf(s.handles[id]))
    ensures forall o :: o in s.heap ==> h[o].timeout > s0.time
  {
    forall o | o in s.heap
      ensures h[o].timeout > s0.time
    {
      assert KeyOf(s.handles[o]) == KeyOf(h[o]) && KeyOf(s.handles[id]) == KeyOf(h[id]);
    }
  }

  lemma MinBySameKeys(h: map<nat, Handle>, s: State, id: nat)
    requires SameKeys(h, s.handles) && Valid(s) && id in s.heap
    requires forall o :: o in s.heap ==> !Before(KeyOf(s.handles[o]), KeyOf(s.handles[id]))
    ensures forall o :: o in s.heap ==> !Before(KeyOf(h[o]), KeyOf(h[id]))
  {
    forall o | o in s.heap
      ensures !Before(KeyOf(h[o]), KeyOf(h[id]))
    {
      assert o in h && id in h;
    }
  }

  lemma StoppedSmaller(s: State, id: nat)
    requires Valid(s) && id in s.heap
    ensures Stopped(s, id).ready == s.ready && |Stopped(s, id).heap| < |s.heap|
  {
  }

  lemma Collected(h: map<nat, Handle>, s0: State, s: State)
    requires Collecting(h, s0, s) && RepeatsInRange(h)
    ensures Valid(s) && Increasing(h, s.ready) && RepeatsInRange(s.handles) && s.handles.Keys == h.Keys
            && s == Moved(s0, s.ready)
  {
  }

  lemma HeadKnown(s: State)
    requires Valid(s) && s.ready != []
    ensures s.ready[0] in s.handles
  {
    assert s.ready[0] in s.ready;
  }

  lemma DropHead(s: State)
    requires Valid(s) && s.ready != []
    ensures Valid(s.(ready := s.ready[1..])) && s.ready[0] !in s.ready[1..]
  {
  }

  lemma RestartedReady(s: State, id: nat)
    requires id in s.handles && id !in s.ready
    ensures Restarted(s, id).ready == s.ready && Restarted(s, id).time == s.time
  {
    WithoutNothing(s.ready, id);
  }

  lemma RestartedRepeats(s: State, id: nat)
    requires id in s.handles && RepeatsInRange(s.handles)
    ensures RepeatsInRange(Restarted(s, id).handles) && s.handles[id].repeat <= UINT64_MAX
  {
  }

  // ---------- what every pass keeps ----------

  /** One operation of a callback, with its event. */
  lemma OpStep(h: map<nat, Handle>, due: seq<nat>, s: State, log: seq<Event>, op: Op)
    requires Valid(s) && Known(s, op) && Progress(h, due, s.ready, log)
    ensures Progress(h, due, Applied(s, op).ready, log + [Did(op, Counts(s, op))])
  {
    hide Valid, Applied, Counts, Without, FiresOk;
    AppliedValid(s, op);
    AppliedIncreasing(h, s, op);
    ProgressOp(h, due, s.ready, log, Did(op, Counts(s, op)), Applied(s, op).ready);
  }

  lemma {:induction false} PerformedProgress(h: map<nat, Handle>, due: seq<nat>, s: State, ops: seq<Op>,
                                             log: seq<Event>)
    requires Valid(s) && KnownOps(s, ops) && Progress(h, due, s.ready, log)
    ensures var (t, did) := Performed(s, ops);
            Progress(h, due, t.ready, log + did)
    decreases |ops|
  {
    hide Valid, Applied, Counts, Progress;
    if ops == [] {
      assert log + [] == log;
    } else {
      var e := [Did(ops[0], Counts(s, ops[0]))];
      OpStep(h, due, s, log, ops[0]);
      AppliedValid(s, ops[0]);
      PerformedProgress(h, due, Applied(s, ops[0]), ops[1..], log + e);
      assert log + e + Performed(Applied(s, ops[0]), ops[1..]).1 == log + Performed(s, ops).1;
    }
  }

  lemma {:induction false} PassProgress(h: map<nat, Handle>, due: seq<nat>, s: State, scripts: seq<seq<Op>>,
                                        log: seq<Event>)
    requires Valid(s) && KnownScripts(s, scripts) && Progress(h, due, s.ready, log)
    ensures Progress(h, due, [], log + PassFrom(s, scripts).1)
    decreases |s.ready|
  {
    hide Valid, Progress, Fired, Performed;
    if s.ready == [] {
      assert log + [] == log;
    } else {
      var fire, t := [Fire(s.ready[0])], Fired(s);
      ProgressFire(h, due, s.ready, log);
      if scripts == [] {
        PassProgress(h, due, t, [], log + fire);
        assert log + fire + PassFrom(t, []).1 == log + PassFrom(s, scripts).1;
      } else {
        var (u, did) := Performed(t, scripts[0]);
        PerformedProgress(h, due, t, scripts[0], log + fire);
        PassProgress(h, due, u, scripts[1..], log + fire + did);
        assert log + fire + did + PassFrom(u, scripts[1..]).1 == log + PassFrom(s, scripts).1;
      }
    }
  }

  /** The timers that are due, in the order of their keys. */
  ghost predicate IsDue(s: State, due: seq<nat>) {
    && Increasing(s.handles, due)
    && forall id :: id in due <==> id in s.heap && id in s.handles && s.handles[id].timeout <= s.time
  }

  lemma {:induction false} SortedIsUnique(h: map<nat, Handle>, a: seq<nat>, b: seq<nat>)
    requires Increasing(h, a) && Increasing(h, b) && forall id :: id in a <==> id in b
    ensures a == b
  {
    if b != [] {
      assert b[0] in b;
    }
    if a != [] {
      assert a[0] in b && b[0] in a;
      var i :| 0 <= i < |b| && b[i] == a[0];
      var j :| 0 <= j < |a| && a[j] == b[0];
      assert i == 0 && j == 0;
      forall id
        ensures id in a[1..] <==> id in b[1..]
      {
        TailWithoutHead(h, a, id);
        TailWithoutHead(h, b, id);
      }
      SortedIsUnique(h, a[1..], b[1..]);
    }
  }

  lemma TailWithoutHead(h: map<nat, Handle>, a: seq<nat>, id: nat)
    requires Increasing(h, a) && a != []
    ensures id in a[1..] <==> id in a && id != a[0]
  {
    assert a == [a[0]] + a[1..];
    if id in a[1..] {
      var i :| 0 <= i < |a| - 1 && a[1..][i] == id;
      assert Before(KeyOf(h[a[0]]), KeyOf(h[a[i + 1]]));
    }
  }

  /** There is only one such sequence. */
  lemma DueIsUnique(s: State, a: seq<nat>, b: seq<nat>)
    requires IsDue(s, a) && IsDue(s, b)
    ensures a == b
  {
    hide Increasing;
    SortedIsUnique(s.handles, a, b);
  }

  lemma MovedValid(s: State, due: seq<nat>)
    requires Valid(s) && s.ready == [] && IsDue(s, due)
    ensures Valid(Moved(s, due)) && Moved(s, due).handles.Keys == s.handles.Keys
  {
    WithoutIncreasing(s.handles, due, 0);
  }

  /** A whole pass: what is due at its start is collected, and fires. */
  ghost function Pass(s: State, due: seq<nat>, scripts: seq<seq<Op>>): (r: (State, seq<Event>))
    requires Valid(s) && s.ready == [] && IsDue(s, due) && KnownScripts(s, scripts)
  {
    MovedValid(s, due);
    PassFrom(Moved(s, due), scripts)
  }

  lemma PassIsOk(s: State, due: seq<nat>, scripts: seq<seq<Op>>)
    requires Valid(s) && s.ready == [] && IsDue(s, due) && KnownScripts(s, scripts)
    ensures PassOk(s.handles, due, Pass(s, due, scripts).1)
  {
    hide Valid, Progress, PassOk, PassFrom;
    MovedValid(s, due);
    ProgressStart(s.handles, due);
    PassProgress(s.handles, due, Moved(s, due), scripts, []);
    assert [] + PassFrom(Moved(s, due), scripts).1 == PassFrom(Moved(s, due), scripts).1;
    ProgressDone(s.handles, due, PassFrom(Moved(s, due), scripts).1);
  }

  /** Without operations in the callbacks all due timers fire, in the order of their keys, and nothing else happens. */
  lemma {:induction false} QuietPass(s: State)
    requires Valid(s)
    ensures KnownScripts(s, []) && PassFrom(s, []).1 == Fires(s.ready)
    decreases |s.ready|
  {
    hide Valid, Fired;
    if s.ready != [] {
      QuietPass(Fired(s));
    }
  }

  function Fires(due: seq<nat>): seq<Event> {
    if due == [] then [] else [Fire(due[0])] + Fires(due[1..])
  }

  lemma AppliedRepeats(s: State, op: Op)
    requires RepeatsInRange(s.handles) && Known(s, op) && InRange(op)
    ensures RepeatsInRange(Applied(s, op).handles) && s.handles[op.id].repeat <= UINT64_MAX
  {
  }

  /**
   * Whatever the callbacks of a pass do: a timer that one of them stops, starts, restarts or closes does not fire later
   * in this pass.
   */
  lemma TouchedNeverFires(s: State, due: seq<nat>, scripts: seq<seq<Op>>, j: nat, i: nat)
    requires Valid(s) && s.ready == [] && IsDue(s, due) && KnownScripts(s, scripts)
    ensures var log := Pass(s, due, scripts).1;
            j < i < |log| && log[j].Did? && log[j].counts ==> log[i] != Fire(log[j].op.id)
  {
    hide Pass;
    PassIsOk(s, due, scripts);
    var log := Pass(s, due, scripts).1;
    if j < i < |log| && log[j].Did? && log[j].counts {
      assert Touches(log[j], log[j].op.id);
    }
  }

  /** A due timer that no callback stops, starts, restarts or closes fires at exactly one moment of the pass. */
  lemma UntouchedFiresOnce(s: State, due: seq<nat>, scripts: seq<seq<Op>>, t: nat)
    requires Valid(s) && s.ready == [] && IsDue(s, due) && KnownScripts(s, scripts) && t in due
    ensures var log := Pass(s, due, scripts).1;
            (forall i :: 0 <= i < |log| ==> !Touches(log[i], t)) ==>
              exists i :: 0 <= i < |log| && log[i] == Fire(t)
                          && forall k :: 0 <= k < |log| && log[k] == Fire(t) ==> k == i
  {
    hide Pass, FiresOk, Valid, IsDue, KnownScripts;
    PassIsOk(s, due, scripts);
    var log := Pass(s, due, scripts).1;
    if forall i :: 0 <= i < |log| ==> !Touches(log[i], t) {
      assert !TouchedIn(log, t);
      FiresOnce(s.handles, due, log, t);
    }
  }

  lemma FiresOnce(h: map<nat, Handle>, due: seq<nat>, log: seq<Event>, t: nat)
    requires FiresOk(h, due, log) && Fire(t) in log
    ensures exists i :: 0 <= i < |log| && log[i] == Fire(t)
                        && forall k :: 0 <= k < |log| && log[k] == Fire(t) ==> k == i
  {
    var i :| 0 <= i < |log| && log[i] == Fire(t);
    forall k | 0 <= k < |log| && log[k] == Fire(t)
      ensures k == i
    {
      assert log[if k < i then k else i] != log[if k < i then i else k] || k == i;
    }
  }

  /** Nothing but what was due at the start of the pass fires, and in the order of the keys at that time. */
  lemma OnlyDueFire(s: State, due: seq<nat>, scripts: seq<seq<Op>>, j: nat, i: nat)
    requires Valid(s) && s.ready == [] && IsDue(s, due) && KnownScripts(s, scripts)
    ensures var log := Pass(s, due, scripts).1;
            && (i < |log| && log[i].Fire? ==> log[i].id in due)
            && (j < i < |log| && log[i].Fire? && log[j].Fire? ==>
                  && log[j].id in s.handles && log[i].id in s.handles
                  && Before(KeyOf(s.handles[log[j].id]), KeyOf(s.handles[log[i].id])))
  {
    hide Pass;
    PassIsOk(s, due, scripts);
  }
}
