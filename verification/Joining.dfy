// Joining a thread, sys/scheduler/thread.c, and the scheduler's choice,
// sys/scheduler/scheduler.c: what the pending listeners mean for the next thread.

module Joining {
  import B = ThreadBlocking
  import opened Scheduler
  import opened SchedulerProofs

  type Name = (nat, nat)

  function NameFor(t: Thread): Name {
    (t.owner, t.id)
  }

  // Every thread of that name that the scheduler has is the table's thread id.
  ghost predicate Mirrors(ts: B.Table, id: nat, name: Name, s: State) {
    id < |ts| &&
    forall i, j :: 0 <= i < |s.run| && 0 <= j < |s.run[i].threads| && NameFor(s.run[i].threads[j]) == name ==>
      SameBlocking(ts[id], s.run[i].threads[j])
  }

  predicate SameBlocking(b: B.Thread, t: Thread) {
    t.blocks == b.blocks && t.sleeping == b.sleeping && t.alarm == b.alarm
  }

  // The counter is above what the end of a sleep takes away.
  predicate HeldThread(t: Thread, name: Name) {
    NameFor(t) == name ==> (if t.sleeping then 2 else 1) <= t.blocks < 256
  }

  ghost predicate Held(s: State, name: Name) {
    forall i, j {:trigger s.run[i].threads[j]} :: 0 <= i < |s.run| && 0 <= j < |s.run[i].threads| ==>
      HeldThread(s.run[i].threads[j], name)
  }

  lemma PutHeld(s: State, t: Thread, name: Name)
    requires Held(s, name) && Shaped(s) && HeldThread(t, name)
    ensures Held(PutRunning(s, t), name)
  {
    var r := PutRunning(s, t);
    forall i, j | 0 <= i < |r.run| && 0 <= j < |r.run[i].threads| ensures HeldThread(r.run[i].threads[j], name) {
      if i != s.cur || j != s.run[i].at { assert r.run[i].threads[j] == s.run[i].threads[j]; }
    }
  }

  lemma ReapHeld(s: State, name: Name)
    requires Held(s, name) && StateOk(s)
    ensures Held(Reap(s), name)
  {
    var r := Reap(s);
    forall i, j | 0 <= i < |r.run| && 0 <= j < |r.run[i].threads| ensures HeldThread(r.run[i].threads[j], name) {
      if ReapsProcess(s) {
        var k := if i < s.cur then i else i + 1;
        assert r.run[i].threads[j] == s.run[k].threads[j];
      } else if Running(s).died && i == s.cur {
        var k := if j < s.run[i].at then j else j + 1;
        assert r.run[i].threads[j] == s.run[i].threads[k];
      } else {
        assert r.run[i].threads[j] == s.run[i].threads[j];
      }
    }
  }

  lemma EnteredHeld(s: State, name: Name)
    requires Held(s, name) && StateOk(s)
    ensures Held(Entered(s), name)
  {
    ReapOk(s);
    ReapHeld(s, name);
    var r := Reap(s);
    assert HeldThread(r.run[r.cur].threads[r.run[r.cur].at], name);
    PutHeld(r, Running(r).(used := (Running(r).used + 1) % 256), name);
  }

  lemma LeaveHeld(s: State, now: nat, name: Name)
    requires Held(s, name) && Shaped(s)
    ensures Held(PutRunning(s, Leave(Running(s), now)), name)
  {
    assert HeldThread(s.run[s.cur].threads[s.run[s.cur].at], name);
    PutHeld(s, Leave(Running(s), now), name);
  }

  lemma PassHeld(s: State, now: nat, name: Name)
    requires Held(s, name)
    ensures Held(Pass(s, now), name)
  {
    if StateOk(s) {
      LeaveHeld(s, now, name);
      AdvanceOk(s, now);
      var u, a := PutRunning(s, Leave(Running(s), now)), Advance(s, now);
      forall i, j | 0 <= i < |a.run| && 0 <= j < |a.run[i].threads| ensures HeldThread(a.run[i].threads[j], name) {
        assert a.run[i].threads[j] == u.run[i].threads[j];
      }
      if a.run[a.cur].died { EnteredHeld(a, name); }
    }
  }

  lemma {:induction false} AfterHeld(s: State, readings: seq<nat>, name: Name)
    requires Held(s, name)
    ensures Held(After(s, readings), name)
  {
    if readings != [] {
      AfterHeld(s, readings[..|readings| - 1], name);
      PassHeld(After(s, readings[..|readings| - 1]), readings[|readings| - 1], name);
    }
  }

  // A thread that is held is not chosen, whatever the clock says.
  lemma HeldNotChosen(s: State, readings: seq<nat>, end: State, name: Name)
    requires Inv(s) && Running(s).used <= MAX_TICKS && Held(s, name) && Selects(Entered(s), readings, end)
    ensures Inv(end) && NameFor(Running(end)) != name
  {
    EnteredOk(s);
    EnteredHeld(s, name);
    AfterHeld(Entered(s), readings, name);
    ChosenMayRun(s, readings, end);
    var a := After(Entered(s), readings);
    if now :| StopsAsleep(a, now, end) {
      LeaveHeld(a, now, name);
    }
    assert HeldThread(end.run[end.cur].threads[end.run[end.cur].at], name);
  }

  lemma HeldNotCalled(s: State, end: State, name: Name)
    requires Inv(s) && Running(s).used <= MAX_TICKS && Held(s, name) && Call(s, end)
    ensures Inv(end) && NameFor(Running(end)) != name
  {
    var readings :| Selects(Entered(s), readings, end) || Selects(EnteredYielded(s), readings, end);
    if Selects(Entered(s), readings, end) {
      HeldNotChosen(s, readings, end, name);
    } else {
      YieldedOk(s);
      assert HeldThread(s.run[s.cur].threads[s.run[s.cur].at], name);
      PutHeld(s, Running(s).(used := Running(s).wanted), name);
      HeldNotChosen(Yielded(s), readings, end, name);
    }
  }

  // The pending listeners neither vanish in the counter nor wrap it together with the
  // sleep.
  ghost predicate Counted(ts: B.Table, id: nat)
    requires id < |ts|
  {
    B.Pending(ts, id) % B.COUNTER != 0 && (ts[id].sleeping ==> B.Pending(ts, id) % B.COUNTER != 255)
  }

  lemma MirrorsHeld(ts: B.Table, id: nat, name: Name, s: State)
    requires B.Accounted(ts) && Mirrors(ts, id, name, s) && Counted(ts, id)
    ensures Held(s, name)
  {
    assert ts[id].blocks == B.Reasons(ts, id) % B.COUNTER;
    forall i, j | 0 <= i < |s.run| && 0 <= j < |s.run[i].threads| ensures HeldThread(s.run[i].threads[j], name) {
    }
  }

  lemma SmallCounted(ts: B.Table, id: nat)
    requires id < |ts| && B.Pending(ts, id) > 0 && B.Reasons(ts, id) < B.COUNTER
    ensures Counted(ts, id)
  {
  }

  lemma JoinerPending(tables: seq<B.Table>, steps: seq<B.Step>, id: nat, target: nat, k: nat)
    requires B.Run(tables, steps) && k <= |steps| && B.Accounted(tables[0]) && id < |tables[0]|
    requires B.Joins(tables[0], id, target)
    requires forall i :: 0 <= i < k ==> steps[i] != B.Signal(target, B.DidExit)
    ensures B.Accounted(tables[k]) && |tables[k]| == |tables[0]| && B.Pending(tables[k], id) > 0
  {
    B.RunAccounted(tables, steps, k);
    B.JoinStaysOverRun(tables, steps, id, target, k);
    B.WaitsCounts(tables[k][target].listeners, B.Listener(B.DidExit, id, true, true));
    B.PendingCounts(tables[k], target, id);
  }

  // ---- When a thread is chosen after all ----

  // Some call of the scheduler, in some state that has this thread, chooses it.
  ghost predicate MayBeChosen(ts: B.Table, id: nat, name: Name) {
    exists s, end :: Chooses(ts, id, name, s, end)
  }

  ghost predicate Chooses(ts: B.Table, id: nat, name: Name, s: State, end: State) {
    && Inv(s) && Running(s).used <= MAX_TICKS && Mirrors(ts, id, name, s)
    && Call(s, end) && Shaped(end) && NameFor(Running(end)) == name
  }

  // The thread is alone.
  ghost function Alone(t: Thread): State {
    State([Process(t.owner, [t], 0, false)], 0, [], [])
  }

  lemma AloneOk(t: Thread)
    requires ThreadOk(t) && !t.died
    ensures Inv(Alone(t)) && Running(Alone(t)) == t
  {
    var s := Alone(t);
    assert ThreadsOk(s.run[0]) && Idle(s.run[0]);
  }

  lemma AloneTicks(t: Thread)
    requires ThreadOk(t) && !t.died && t.used == 0
    ensures StateOk(Alone(t)) && Entered(Alone(t)) == Alone(t.(used := 1))
  {
    AloneOk(t);
    assert [t][0 := t.(used := 1)] == [t.(used := 1)];
    var p := Process(t.owner, [t], 0, false);
    var q := p.(threads := [t.(used := 1)]);
    assert [p][0 := q] == [q];
  }

  lemma AloneLeaves(t: Thread, now: nat)
    requires ThreadOk(t) && !t.died
    ensures StateOk(Alone(t)) && Pass(Alone(t), now) == Alone(Leave(t, now))
  {
    AloneOk(t);
    var u := Leave(t, now);
    assert [t][0 := u] == [u];
    var p := Process(t.owner, [t], 0, false);
    var q := p.(threads := [u]);
    assert [p][0 := q] == [q] && [q][0 := q] == [q];
  }

  lemma ChosenAtOnce(t: Thread)
    requires ThreadOk(t) && !t.died && t.used == 0 && t.wanted > 1 && t.blocks == 0
    ensures Inv(Alone(t)) && Call(Alone(t), Alone(t.(used := 1)))
  {
    AloneOk(t);
    AloneTicks(t);
    var e := Alone(t.(used := 1));
    AloneOk(t.(used := 1));
    assert Selects(Entered(Alone(t)), [], e);
  }

  lemma ChosenOnWaking(t: Thread)
    requires ThreadOk(t) && !t.died && t.used == 0 && t.wanted > 1 && t.blocks == 1 && t.sleeping
    ensures Inv(Alone(t)) && Call(Alone(t), Alone(Leave(t, t.alarm)))
  {
    AloneOk(t);
    AloneTicks(t);
    var u := t.(used := 1);
    AloneOk(u);
    AloneLeaves(u, t.alarm);
    AloneOk(Leave(u, t.alarm));
    AfterStep(Alone(u), [], t.alarm);
    TakenStep(Alone(u), [], t.alarm);
    assert [] + [t.alarm] == [t.alarm];
    assert Leave(u, t.alarm) == Leave(t, t.alarm);
    assert Selects(Entered(Alone(t)), [t.alarm], Alone(Leave(t, t.alarm)));
  }

  lemma UncountedIsChosen(ts: B.Table, id: nat, name: Name)
    requires B.Accounted(ts) && id < |ts| && !Counted(ts, id)
    ensures MayBeChosen(ts, id, name)
  {
    assert ts[id].blocks == B.Reasons(ts, id) % B.COUNTER;
    var t := Thread(name.1, name.0, 0, MAX_TICKS, ts[id].blocks, ts[id].sleeping, ts[id].alarm, false);
    if t.blocks == 0 {
      ChosenAtOnce(t);
      assert Chooses(ts, id, name, Alone(t), Alone(t.(used := 1)));
    } else {
      ChosenOnWaking(t);
      assert Chooses(ts, id, name, Alone(t), Alone(Leave(t, t.alarm)));
    }
  }

  // Over any run of blocking and unblocking, and before its target's exit is
  // signalled: a joiner can be chosen by a call of the scheduler if and only if its
  // listeners vanish in the counter, or wrap it together with a sleep.
  lemma JoinerChosenExactly(tables: seq<B.Table>, steps: seq<B.Step>, id: nat, target: nat, k: nat, name: Name)
    requires B.Run(tables, steps) && k <= |steps| && B.Accounted(tables[0])
    requires id < |tables[0]| && B.Joins(tables[0], id, target)
    requires forall i :: 0 <= i < k ==> steps[i] != B.Signal(target, B.DidExit)
    ensures |tables[k]| == |tables[0]| && (MayBeChosen(tables[k], id, name) <==> !Counted(tables[k], id))
    ensures B.Reasons(tables[k], id) < B.COUNTER ==> Counted(tables[k], id)
  {
    JoinerPending(tables, steps, id, target, k);
    ChosenExactly(tables[k], id, name);
    if B.Reasons(tables[k], id) < B.COUNTER { SmallCounted(tables[k], id); }
  }

  // The same for any thread with any listeners.
  lemma ChosenExactly(ts: B.Table, id: nat, name: Name)
    requires B.Accounted(ts) && id < |ts|
    ensures MayBeChosen(ts, id, name) <==> !Counted(ts, id)
  {
    if s, end :| Chooses(ts, id, name, s, end) {
      if Counted(ts, id) {
        MirrorsHeld(ts, id, name, s);
        HeldNotCalled(s, end, name);
      }
    }
    if !Counted(ts, id) { UncountedIsChosen(ts, id, name); }
  }

  // A thread with 256 pending joins is chosen, and so it is if it sleeps as well.
  lemma WrappedJoinerChosen(name: Name, now: nat, time: nat) returns (ts: B.Table)
    ensures |ts| == 2 && B.Accounted(ts) && B.Joins(ts, 0, 1) && MayBeChosen(ts, 0, name)
    ensures B.Accounted(B.Asleep(ts, 0, now, time)) && MayBeChosen(B.Asleep(ts, 0, now, time), 0, name)
  {
    ts := B.WrappedCounter();
    B.AsleepKeeps(ts, 0, now, time);
    var us := B.Asleep(ts, 0, now, time);
    B.SameListeners(ts, us, 0);
    ChosenExactly(ts, 0, name);
    ChosenExactly(us, 0, name);
  }
}
