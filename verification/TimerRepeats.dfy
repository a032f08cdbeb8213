/** What operations and passes leave of a single timer: when it comes due again, and when it never does. */
module TimerRepeats {
  import opened HeapOrder
  import opened Queue
  import opened Timers

  /** The loop some time later; nothing else has happened. */
  function Later(s: State, time: nat): State { s.(time := time) }

  /** The moment `interval` from now, or the end of the clock. */
  function Moment(time: nat, interval: nat): nat {
    if time + interval <= UINT64_MAX then time + interval else UINT64_MAX
  }

  /** A pass at any later time finds the timer due if and only if that moment has come. */
  ghost predicate DueFrom(s: State, id: nat, moment: nat) {
    forall time: nat, due: seq<nat> :: IsDue(Later(s, time), due) ==> (id in due <==> time >= moment)
  }

  ghost predicate NeverDue(s: State, id: nat) {
    forall time: nat, due: seq<nat> :: IsDue(Later(s, time), due) ==> id !in due
  }

  /** The timer waits in the heap with these fields, under a start id that no other waiting timer has. */
  ghost predicate Waits(s: State, id: nat, timeout: nat, repeat: nat) {
    && id in s.heap && id in s.handles && id !in s.ready
    && s.handles[id] == Handle(true, timeout, repeat, s.handles[id].startId, true, false)
    && (forall o :: o in s.heap && o != id ==> o in s.handles && s.handles[o].startId != s.handles[id].startId)
  }

  lemma WaitingComesDue(s: State, id: nat, timeout: nat, repeat: nat)
    requires Waits(s, id, timeout, repeat)
    ensures DueFrom(s, id, timeout)
  {
    hide Increasing;
  }

  lemma IdleNeverDue(s: State, id: nat)
    requires Valid(s) && id in s.handles && !s.handles[id].active
    ensures NeverDue(s, id)
  {
    hide Increasing, NoDup;
  }

  // ---------- single operations ----------

  /** Starting: due after the timeout, behind all timers started before with the same timeout. */
  lemma StartWaits(s: State, id: nat, timeout: nat, repeat: nat)
    requires Valid(s) && id in s.handles && !s.handles[id].closing
    requires s.time <= UINT64_MAX && timeout <= UINT64_MAX
    ensures var t := Applied(s, Start(id, true, timeout, repeat));
            && Waits(t, id, Moment(s.time, timeout), repeat) && DueFrom(t, id, Moment(s.time, timeout))
            && t.handles[id].startId >= s.counter && t.counter > t.handles[id].startId
            && (forall o :: o in t.heap && o != id && t.handles[o].timeout == t.handles[id].timeout
                  ==> Before(KeyOf(t.handles[o]), KeyOf(t.handles[id])))
  {
    hide Stopped, Clamped;
    ClampedIsMin(s.time, timeout);
    StoppedValid(s, id);
    StartedValid(s, id, true, timeout, repeat);
    WaitingComesDue(Applied(s, Start(id, true, timeout, repeat)), id, Moment(s.time, timeout), repeat);
  }

  /** Restarting: due one interval from now; interval and callback stay. Without an interval nothing happens. */
  lemma AgainWaits(s: State, id: nat)
    requires Valid(s) && id in s.handles && s.handles[id].hasCb && !s.handles[id].closing
    requires s.time <= UINT64_MAX && s.handles[id].repeat <= UINT64_MAX
    ensures var t, repeat := Applied(s, Again(id)), s.handles[id].repeat;
            && (repeat > 0 ==>
                  && Waits(t, id, Moment(s.time, repeat), repeat) && DueFrom(t, id, Moment(s.time, repeat))
                  && s.counter <= t.handles[id].startId < t.counter)
            && (repeat == 0 ==> t == s)
  {
    hide Stopped, Started, Valid, Waits;
    StoppedValid(s, id);
    if s.handles[id].repeat > 0 {
      StartWaits(Stopped(s, id), id, s.handles[id].repeat, s.handles[id].repeat);
    }
  }

  /** A changed interval counts from the next restart on, and touches nothing before. */
  lemma SetRepeatWaits(s: State, id: nat, repeat: nat)
    requires Valid(s) && id in s.handles && s.handles[id].hasCb && !s.handles[id].closing
    requires s.time <= UINT64_MAX && 0 < repeat <= UINT64_MAX
    ensures var t := Applied(s, SetRepeat(id, repeat));
            && t.heap == s.heap && t.ready == s.ready && id in t.handles
            && t.handles[id] == s.handles[id].(repeat := repeat)
            && Waits(Applied(t, Again(id)), id, Moment(s.time, repeat), repeat)
  {
    hide Restarted, Valid, Waits, DueFrom;
    AppliedValid(s, SetRepeat(id, repeat));
    AgainWaits(s.(handles := s.handles[id := s.handles[id].(repeat := repeat)]), id);
  }

  /** Stopping: not due any more. */
  lemma StopEnds(s: State, id: nat)
    requires Valid(s) && id in s.handles
    ensures var t := Applied(s, Stop(id));
            NeverDue(t, id) && id !in t.ready && t.handles[id] == s.handles[id].(active := false)
  {
    hide Stopped, Valid, NeverDue;
    StoppedValid(s, id);
    IdleNeverDue(Stopped(s, id), id);
  }

  /** A closed timer is never due again, whatever is done with it and the others. */
  lemma {:induction false} CloseIsForGood(s: State, id: nat, ops: seq<Op>)
    requires Valid(s) && KnownOps(s, ops) && id in s.handles
    ensures Valid(Applied(s, Close(id))) && KnownOps(Applied(s, Close(id)), ops)
    ensures var t := Performed(Applied(s, Close(id)), ops).0;
            id in t.handles && t.handles[id].closing && id !in t.ready && NeverDue(t, id)
  {
    hide Valid, Performed, NeverDue, Applied;
    AppliedValid(s, Close(id));
    ClosedNow(s, id);
    StaysClosed(Applied(s, Close(id)), id, ops);
  }

  lemma ClosedNow(s: State, id: nat)
    requires Valid(s) && id in s.handles
    ensures id in Applied(s, Close(id)).handles && Applied(s, Close(id)).handles[id].closing
  {
    hide Stopped, Valid;
    StoppedValid(s, id);
  }

  lemma ClosingIsIdle(s: State, id: nat)
    requires Valid(s) && id in s.handles && s.handles[id].closing
    ensures !s.handles[id].active && id !in s.ready
  {
    hide NoDup;
  }

  lemma OpKeepsClosing(s: State, id: nat, op: Op)
    requires Valid(s) && id in s.handles && s.handles[id].closing && Known(s, op)
    ensures id in Applied(s, op).handles && Applied(s, op).handles[id].closing
  {
    hide Valid, Without;
  }

  lemma {:induction false} StaysClosed(s: State, id: nat, ops: seq<Op>)
    requires Valid(s) && KnownOps(s, ops) && id in s.handles && s.handles[id].closing
    ensures var t := Performed(s, ops).0;
            id in t.handles && t.handles[id].closing && id !in t.ready && NeverDue(t, id)
    decreases |ops|
  {
    hide Valid, NeverDue, Applied;
    if ops == [] {
      ClosingIsIdle(s, id);
      IdleNeverDue(s, id);
    } else {
      AppliedValid(s, ops[0]);
      OpKeepsClosing(s, id, ops[0]);
      StaysClosed(Applied(s, ops[0]), id, ops[1..]);
    }
  }

  // ---------- a whole pass ----------

  /** No callback does anything with the timer. */
  ghost predicate LeftAlone(log: seq<Event>, id: nat) {
    forall i :: 0 <= i < |log| && log[i].Did? ==> log[i].op.id != id
  }

  /** Nothing has happened to the timer, apart from others being started. */
  ghost predicate SameTimer(s: State, t: State, id: nat) {
    && id in s.handles && id in t.handles && t.handles[id] == s.handles[id] && (id in t.ready <==> id in s.ready)
    && t.time == s.time && t.counter >= s.counter
  }

  lemma StoppedOther(s: State, other: nat, id: nat)
    requires Valid(s) && id in s.handles && other in s.handles && other != id
    ensures SameTimer(s, Stopped(s, other), id)
  {
    hide Stopped, Valid;
    StoppedValid(s, other);
  }

  lemma StartedOther(s: State, other: nat, id: nat, hasCb: bool, timeout: nat, repeat: nat)
    requires Valid(s) && id in s.handles && other in s.handles && other != id
    ensures SameTimer(s, Started(s, other, hasCb, timeout, repeat), id)
  {
    hide Stopped, Valid;
    StoppedOther(s, other, id);
  }

  lemma RestartedOther(s: State, other: nat, id: nat)
    requires Valid(s) && id in s.handles && other in s.handles && other != id
    ensures SameTimer(s, Restarted(s, other), id)
  {
    hide Stopped, Started, Valid;
    StoppedValid(s, other);
    StoppedOther(s, other, id);
    var h := s.handles[other];
    StartedOther(Stopped(s, other), other, id, h.hasCb, h.repeat, h.repeat);
  }

  lemma AppliedOther(s: State, op: Op, id: nat)
    requires Valid(s) && Known(s, op) && id in s.handles && op.id != id
    ensures SameTimer(s, Applied(s, op), id)
  {
    hide Stopped, Started, Restarted, Valid;
    match op
    case Start(x, hasCb, timeout, repeat) => StartedOther(s, x, id, hasCb, timeout, repeat);
    case Stop(x) => StoppedOther(s, x, id);
    case Again(x) => RestartedOther(s, x, id);
    case Close(x) => StoppedOther(s, x, id);
    case SetRepeat(x, repeat) =>
  }

  lemma AloneSplits(a: seq<Event>, b: seq<Event>, id: nat)
    ensures LeftAlone(a + b, id) <==> LeftAlone(a, id) && LeftAlone(b, id)
  {
    if LeftAlone(a + b, id) {
      assert forall i :: 0 <= i < |a| ==> a[i] == (a + b)[i];
      assert forall i :: 0 <= i < |b| ==> b[i] == (a + b)[|a| + i];
    }
  }

  lemma SameTwice(s: State, t: State, u: State, id: nat)
    requires SameTimer(s, t, id) && SameTimer(t, u, id)
    ensures SameTimer(s, u, id)
  {
  }

  lemma {:induction false} PerformedOthers(s: State, ops: seq<Op>, id: nat)
    requires Valid(s) && KnownOps(s, ops) && id in s.handles && LeftAlone(Performed(s, ops).1, id)
    ensures SameTimer(s, Performed(s, ops).0, id)
    decreases |ops|
  {
    hide Valid, Applied, LeftAlone, SameTimer, Counts;
    if ops == [] {
      ItselfIsSame(s, id);
    } else {
      var t := Applied(s, ops[0]);
      AppliedValid(s, ops[0]);
      AloneSplits([Did(ops[0], Counts(s, ops[0]))], Performed(t, ops[1..]).1, id);
      OneAlone(ops[0], Counts(s, ops[0]), id);
      AppliedOther(s, ops[0], id);
      PerformedOthers(t, ops[1..], id);
      SameTwice(s, t, Performed(t, ops[1..]).0, id);
    }
  }

  lemma ItselfIsSame(s: State, id: nat)
    requires id in s.handles
    ensures SameTimer(s, s, id)
  {
  }

  lemma OneAlone(op: Op, counts: bool, id: nat)
    requires LeftAlone([Did(op, counts)], id)
    ensures op.id != id
  {
    assert [Did(op, counts)][0].Did?;
  }

  lemma FiredOther(s: State, id: nat)
    requires Valid(s) && s.ready != [] && s.ready[0] != id && id in s.handles
    ensures SameTimer(s, Fired(s), id)
  {
    hide Valid, Restarted;
    HeadKnown(s);
    DropHead(s);
    var t := s.(ready := s.ready[1..]);
    RestartedOther(t, s.ready[0], id);
    assert id in s.ready <==> id in t.ready by { assert s.ready == [s.ready[0]] + s.ready[1..]; }
  }

  /** The parts of a pass: the first timer fires, its callback performs the first script, and the rest follows. */
  lemma PassParts(s: State, scripts: seq<seq<Op>>, id: nat)
    requires Valid(s) && KnownScripts(s, scripts) && s.ready != [] && LeftAlone(PassFrom(s, scripts).1, id)
    ensures var ops, rest := if scripts == [] then [] else scripts[0], if scripts == [] then [] else scripts[1..];
            var t := Fired(s);
            && KnownOps(t, ops) && LeftAlone(Performed(t, ops).1, id)
            && var u := Performed(t, ops).0;
               && Valid(u) && u.handles.Keys == s.handles.Keys && |u.ready| < |s.ready| && KnownScripts(u, rest)
               && PassFrom(s, scripts).0 == PassFrom(u, rest).0 && LeftAlone(PassFrom(u, rest).1, id)
  {
    hide Valid, Fired, Performed, LeftAlone;
    var t, fire := Fired(s), [Fire(s.ready[0])];
    if scripts == [] {
      NothingPerformed(t, id);
      AloneSplits(fire, PassFrom(t, []).1, id);
    } else {
      var (u, did) := Performed(t, scripts[0]);
      AloneSplits(fire + did, PassFrom(u, scripts[1..]).1, id);
      AloneSplits(fire, did, id);
    }
  }

  lemma NothingPerformed(s: State, id: nat)
    requires Valid(s)
    ensures Performed(s, []) == (s, []) && LeftAlone([], id)
  {
  }

  /** A timer that is not about to fire and is left alone stays as it is. */
  lemma {:induction false} RestOfPass(s: State, scripts: seq<seq<Op>>, id: nat)
    requires Valid(s) && KnownScripts(s, scripts) && id in s.handles && id !in s.ready
    requires LeftAlone(PassFrom(s, scripts).1, id)
    ensures SameTimer(s, PassFrom(s, scripts).0, id)
    decreases |s.ready|
  {
    hide Valid, Fired, Performed, LeftAlone, PassFrom;
    if s.ready == [] {
      NothingReady(s, scripts);
      ItselfIsSame(s, id);
    } else {
      var ops, rest := if scripts == [] then [] else scripts[0], if scripts == [] then [] else scripts[1..];
      PassParts(s, scripts, id);
      FiredOther(s, id);
      PerformedOthers(Fired(s), ops, id);
      RestOfPass(Performed(Fired(s), ops).0, rest, id);
    }
  }

  lemma NothingReady(s: State, scripts: seq<seq<Op>>)
    requires Valid(s) && KnownScripts(s, scripts) && s.ready == []
    ensures PassFrom(s, scripts) == (s, [])
  {
  }

  /** What is left of a timer that has fired and was left alone: h is what it was before. */
  ghost predicate FiredAndBack(t: State, id: nat, h: Handle, time: nat, counter: nat) {
    && id in t.handles && t.time == time && id !in t.ready
    && (h.repeat > 0 ==>
          && t.handles[id] == Handle(true, Moment(time, h.repeat), h.repeat, t.handles[id].startId, true, false)
          && counter <= t.handles[id].startId < t.counter)
    && (h.repeat == 0 ==> t.handles[id] == h.(active := false))
  }

  lemma FiredNow(s: State, id: nat)
    requires Valid(s) && s.ready != [] && s.ready[0] == id && id in s.handles
    requires s.time <= UINT64_MAX && s.handles[id].repeat <= UINT64_MAX
    ensures FiredAndBack(Fired(s), id, s.handles[id], s.time, s.counter)
  {
    hide Valid, Stopped, Restarted, Waits, DueFrom;
    ReadyIsIdle(s, id);
    DropHead(s);
    var t := s.(ready := s.ready[1..]);
    AgainWaits(t, id);
    AgainIs(t, id, Moment(s.time, s.handles[id].repeat));
    RestartedReady(t, id);
    AppliedTime(t, id);
  }

  lemma AppliedTime(s: State, id: nat)
    requires Valid(s) && id in s.handles
    ensures Applied(s, Again(id)) == Restarted(s, id) && Restarted(s, id).time == s.time
  {
    hide Valid, Restarted;
    RestartedValid(s, id);
  }

  lemma AgainIs(t: State, id: nat, timeout: nat)
    requires id in t.handles
    requires t.handles[id].repeat > 0 ==> Waits(Applied(t, Again(id)), id, timeout, t.handles[id].repeat)
    ensures var u, repeat := Applied(t, Again(id)), t.handles[id].repeat;
            repeat > 0 ==>
              id in u.handles && u.handles[id] == Handle(true, timeout, repeat, u.handles[id].startId, true, false)
  {
  }

  lemma ReadyIsIdle(s: State, id: nat)
    requires Valid(s) && id in s.ready
    ensures id in s.handles && !s.handles[id].active && s.handles[id].hasCb && !s.handles[id].closing
  {
  }

  /** A ready timer that is left alone fires and is back. */
  lemma {:induction false} ReadyFiresAndIsBack(s: State, scripts: seq<seq<Op>>, id: nat, h: Handle, counter: nat)
    requires Valid(s) && KnownScripts(s, scripts) && id in s.ready && id in s.handles && s.handles[id] == h
    requires LeftAlone(PassFrom(s, scripts).1, id) && s.time <= UINT64_MAX && h.repeat <= UINT64_MAX
    requires counter <= s.counter
    ensures FiredAndBack(PassFrom(s, scripts).0, id, h, s.time, counter)
    decreases |s.ready|
  {
    hide Valid, Fired, Performed, LeftAlone, PassFrom;
    var ops, rest := if scripts == [] then [] else scripts[0], if scripts == [] then [] else scripts[1..];
    PassParts(s, scripts, id);
    var t := Fired(s);
    var u := Performed(t, ops).0;
    if s.ready[0] == id {
      FiredNow(s, id);
      PerformedOthers(t, ops, id);
      RestOfPass(u, rest, id);
    } else {
      FiredOther(s, id);
      PerformedOthers(t, ops, id);
      ReadyFiresAndIsBack(u, rest, id, h, counter);
    }
  }

  /**
   * A due timer that no callback does anything with, after the pass: with an interval it waits again, with the same
   * interval and callback and a new start id, and is due exactly from one interval after this pass on; without one it
   * is idle and never due.
   */
  lemma RepeatingComesBack(s: State, due: seq<nat>, scripts: seq<seq<Op>>, id: nat)
    requires Valid(s) && s.ready == [] && IsDue(s, due) && KnownScripts(s, scripts) && id in due
    requires LeftAlone(Pass(s, due, scripts).1, id)
    requires s.time <= UINT64_MAX && s.handles[id].repeat <= UINT64_MAX
    ensures var t, repeat := Pass(s, due, scripts).0, s.handles[id].repeat;
            && id in t.handles && (t.handles[id].active <==> repeat > 0)
            && (repeat > 0 ==>
                  && Waits(t, id, Moment(s.time, repeat), repeat) && DueFrom(t, id, Moment(s.time, repeat))
                  && s.counter <= t.handles[id].startId < t.counter)
            && (repeat == 0 ==> NeverDue(t, id))
  {
    hide Valid, PassFrom, DueFrom, NeverDue, IsDue, KnownScripts;
    MovedValid(s, due);
    DueIsActive(s, due, id);
    SameKnown(s, Moved(s, due), scripts);
    ReadyFiresAndIsBack(Moved(s, due), scripts, id, s.handles[id].(active := false), s.counter);
    var t := Pass(s, due, scripts).0;
    if s.handles[id].repeat > 0 {
      ActiveWaits(t, id);
      WaitingComesDue(t, id, Moment(s.time, s.handles[id].repeat), s.handles[id].repeat);
    } else {
      IdleNeverDue(t, id);
    }
  }

  /** A timer that was not due and is left alone is not touched by the pass. */
  lemma NotDueStays(s: State, due: seq<nat>, scripts: seq<seq<Op>>, id: nat)
    requires Valid(s) && s.ready == [] && IsDue(s, due) && KnownScripts(s, scripts) && id in s.handles && id !in due
    requires LeftAlone(Pass(s, due, scripts).1, id)
    ensures var t := Pass(s, due, scripts).0;
            id in t.handles && t.handles[id] == s.handles[id]
  {
    hide Valid, PassFrom, IsDue, KnownScripts;
    MovedValid(s, due);
    SameKnown(s, Moved(s, due), scripts);
    RestOfPass(Moved(s, due), scripts, id);
  }

  lemma DueIsActive(s: State, due: seq<nat>, id: nat)
    requires Valid(s) && IsDue(s, due) && id in due
    ensures id in s.handles && s.handles[id].active && Moved(s, due).ready == due && id in Moved(s, due).handles
    ensures Moved(s, due).handles[id] == s.handles[id].(active := false)
    ensures Moved(s, due).time == s.time && Moved(s, due).counter == s.counter
  {
  }

  lemma ActiveWaits(t: State, id: nat)
    requires Valid(t) && id in t.handles && t.handles[id].active && t.handles[id].hasCb && !t.handles[id].closing
    ensures Waits(t, id, t.handles[id].timeout, t.handles[id].repeat)
  {
    hide NoDup;
  }

  // ---------- there is an order of the due timers ----------

  /** A timer put in its place. */
  lemma {:induction false} PutInPlace(h: map<nat, Handle>, s: seq<nat>, x: nat) returns (r: seq<nat>)
    requires Increasing(h, s) && x in h
    requires forall y :: y in s ==> Before(KeyOf(h[x]), KeyOf(h[y])) || Before(KeyOf(h[y]), KeyOf(h[x]))
    ensures Increasing(h, r) && forall y :: y in r <==> y in s || y == x
  {
    if s == [] || Before(KeyOf(h[x]), KeyOf(h[s[0]])) {
      r := [x] + s;
    } else {
      var tail := s[1..];
      assert s == [s[0]] + tail && s[0] in s;
      var rest := PutInPlace(h, tail, x);
      r := [s[0]] + rest;
      forall j | 0 <= j < |rest|
        ensures Before(KeyOf(h[s[0]]), KeyOf(h[rest[j]]))
      {
        assert rest[j] in rest;
        if rest[j] != x {
          var k :| 0 <= k < |tail| && tail[k] == rest[j];
          assert s[k + 1] == rest[j];
        }
      }
    }
  }

  lemma InOrder(s: State, ids: set<nat>) returns (due: seq<nat>)
    requires Valid(s) && ids <= s.heap
    ensures Increasing(s.handles, due) && forall id :: id in due <==> id in ids
    decreases |ids|
  {
    if ids == {} {
      due := [];
    } else {
      var x :| x in ids;
      var rest := InOrder(s, ids - {x});
      due := PutInPlace(s.handles, rest, x);
    }
  }

  /** So the statements about a later pass speak of every later time. */
  lemma DueExists(s: State, time: nat)
    requires Valid(s)
    ensures exists due :: IsDue(Later(s, time), due)
  {
    hide Increasing, NoDup;
    var due := InOrder(s, set id | id in s.heap && s.handles[id].timeout <= time);
    assert IsDue(Later(s, time), due);
  }
}
