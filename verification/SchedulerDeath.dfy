// When a call of the scheduler, sys/scheduler/scheduler.c, chooses a dead thread or
// a thread of a dead process. The clock decides who wakes on the way; one rotation,
// with readings chosen for the purpose, decides whether any clock leads there.

module SchedulerDeath {
  import opened Scheduler
  import opened SchedulerProofs

  // A dead thread that only its sleep keeps off the processor.
  predicate DeadSleeper(t: Thread) {
    t.died && t.sleeping && t.blocks == 1
  }

  // Whether the clock should free the threads of a process or hold them.
  predicate Keen(mode: bool, p: Process) {
    mode && p.died
  }

  // The reading that holds a sleeper on the list, or frees it. Waking wraps the
  // counter of a sleeper that nothing blocks.
  function Pick(keen: bool, t: Thread): nat {
    if keen == (t.blocks == 0) then 0 else t.alarm
  }

  // What is looked for: a dead thread, or a thread of a dead process, that can stop
  // the loop.
  predicate Target(mode: bool, s: State) {
    && s.cur < |s.run| && ProcessOk(s.run[s.cur])
    && if mode then s.run[s.cur].died && (!Stuck(Running(s)) || DeadSleeper(Running(s)))
       else DeadSleeper(Running(s))
  }

  function PickFor(mode: bool, s: State): nat {
    if s.cur < |s.run| && ProcessOk(s.run[s.cur]) then Pick(Keen(mode, s.run[s.cur]), Running(s)) else 0
  }

  // The readings of the rotation from e.
  ghost function Readings(mode: bool, e: State, k: nat): seq<nat>
    decreases k, 0
  {
    if k == 0 then [] else Readings(mode, e, k - 1) + [PickFor(mode, Rotation(mode, e, k - 1))]
  }

  // The state of the rotation after k passes.
  ghost function Rotation(mode: bool, e: State, k: nat): State
    decreases k, 1
  {
    After(e, Readings(mode, e, k))
  }

  // The rotation comes to what is looked for after k passes, none of which met a
  // thread that was chosen.
  ghost predicate Reaches(mode: bool, e: State, k: nat) {
    Taken(e, Readings(mode, e, k)) && Target(mode, Rotation(mode, e, k))
  }

  // ---- The rotation and any other run ----

  // b is a, but has been woken where a sleeps on, or the other way round where waking
  // wraps the counter: b is blocked no more than a.
  ghost predicate Lags(a: Thread, b: Thread) {
    || a == b
    || (a.sleeping && a.alarm > 0 && a.blocks >= 1 && !DeadSleeper(a) &&
        b == a.(sleeping := false, blocks := a.blocks - 1))
    || (b.sleeping && b.alarm > 0 && b.blocks == 0 && a == b.(sleeping := false, blocks := 255))
  }

  ghost predicate Like(keen: bool, c: Thread, x: Thread) {
    if keen then Lags(x, c) else Lags(c, x)
  }

  ghost predicate LikeProcess(mode: bool, p: Process, q: Process) {
    && p.id == q.id && p.at == q.at && p.died == q.died && |p.threads| == |q.threads|
    && forall j :: 0 <= j < |p.threads| ==> Like(Keen(mode, p), p.threads[j], q.threads[j])
  }

  ghost predicate LikeState(mode: bool, c: State, x: State) {
    && |c.run| == |x.run| && c.cur == x.cur
    && forall i {:trigger c.run[i]} {:trigger x.run[i]} :: 0 <= i < |c.run| ==> LikeProcess(mode, c.run[i], x.run[i])
  }

  lemma BreaksExactly(t: Thread, now: nat)
    requires t.blocks < 256
    ensures Breaks(t, now) <==> DeadSleeper(t) && now >= t.alarm
  {
  }

  // A thread that the other run leaves is left by the rotation too, and stays alike.
  lemma LeaveAlike(keen: bool, c: Thread, x: Thread, now: nat)
    requires Like(keen, c, x) && c.blocks < 256 && x.blocks < 256
    requires Stuck(x) && !Breaks(x, now)
    requires if keen then Stuck(c) && !DeadSleeper(c) else true
    ensures Stuck(c) && (!Breaks(c, Pick(keen, c)))
    ensures Like(keen, Leave(c, Pick(keen, c)), Leave(x, now))
  {
    BreaksExactly(x, now);
    BreaksExactly(c, Pick(keen, c));
  }

  lemma PutAlike(mode: bool, c: State, x: State, t: Thread, u: Thread)
    requires LikeState(mode, c, x) && c.cur < |c.run| && ProcessOk(c.run[c.cur]) && ProcessOk(x.run[x.cur])
    requires Like(Keen(mode, c.run[c.cur]), t, u)
    ensures LikeState(mode, PutRunning(c, t), PutRunning(x, u))
  {
    var p, q := c.run[c.cur], x.run[x.cur];
    assert LikeProcess(mode, p, q);
    var d, y := PutRunning(c, t), PutRunning(x, u);
    assert LikeProcess(mode, d.run[c.cur], y.run[c.cur]);
    forall i | 0 <= i < |d.run| ensures LikeProcess(mode, d.run[i], y.run[i]) {
      if i != c.cur { assert LikeProcess(mode, c.run[i], x.run[i]); }
    }
  }

  lemma RotateAlike(mode: bool, c: State, x: State)
    requires LikeState(mode, c, x) && c.cur < |c.run| && ProcessOk(c.run[c.cur]) && ProcessOk(x.run[x.cur])
    ensures LikeState(mode, Rotate(c), Rotate(x))
  {
    var d, y := Rotate(c), Rotate(x);
    forall i | 0 <= i < |d.run| ensures LikeProcess(mode, d.run[i], y.run[i]) {
      assert LikeProcess(mode, c.run[i], x.run[i]);
    }
  }

  lemma RunningAlike(mode: bool, c: State, x: State)
    requires LikeState(mode, c, x) && c.cur < |c.run| && ProcessOk(c.run[c.cur])
    ensures x.cur < |x.run| && ProcessOk(x.run[x.cur]) && Like(Keen(mode, c.run[c.cur]), Running(c), Running(x))
    ensures c.run[c.cur].died == x.run[x.cur].died && c.run[c.cur].at == x.run[x.cur].at
    ensures Running(c).died == Running(x).died
  {
    assert LikeProcess(mode, c.run[c.cur], x.run[x.cur]);
  }

  lemma ReapProcessAlike(mode: bool, c: State, x: State)
    requires LikeState(mode, c, x) && c.cur < |c.run|
    ensures LikeState(mode, ReapProcess(c), ReapProcess(x))
  {
    var d, y := ReapProcess(c), ReapProcess(x);
    forall i | 0 <= i < |d.run| ensures LikeProcess(mode, d.run[i], y.run[i]) {
      var k := if i < c.cur then i else i + 1;
      assert d.run[i] == c.run[k] && y.run[i] == x.run[k];
    }
  }

  lemma ReapThreadAlike(mode: bool, c: State, x: State)
    requires LikeState(mode, c, x) && c.cur < |c.run| && ProcessOk(c.run[c.cur]) && ProcessOk(x.run[x.cur])
    ensures LikeState(mode, ReapThread(c), ReapThread(x))
  {
    var d, y := ReapThread(c), ReapThread(x);
    var p, q := c.run[c.cur], x.run[x.cur];
    assert LikeProcess(mode, p, q);
    assert LikeProcess(mode, d.run[c.cur], y.run[c.cur]) by {
      var ps, qs := Without(p.threads, p.at), Without(q.threads, q.at);
      forall j | 0 <= j < |ps| ensures Like(Keen(mode, p), ps[j], qs[j]) {
        var k := if j < p.at then j else j + 1;
        assert ps[j] == p.threads[k] && qs[j] == q.threads[k];
      }
    }
    forall i | 0 <= i < |d.run| ensures LikeProcess(mode, d.run[i], y.run[i]) {
      if i != c.cur { assert LikeProcess(mode, c.run[i], x.run[i]); }
    }
  }

  lemma EnteredAlike(mode: bool, c: State, x: State)
    requires StateOk(c) && StateOk(x) && LikeState(mode, c, x)
    ensures LikeState(mode, Entered(c), Entered(x))
  {
    RunningAlike(mode, c, x);
    ReapOk(c);
    ReapOk(x);
    ReapAlike(mode, c, x);
    TickAlike(mode, Reap(c), Reap(x));
  }

  lemma ReapAlike(mode: bool, c: State, x: State)
    requires StateOk(c) && StateOk(x) && LikeState(mode, c, x)
    ensures LikeState(mode, Reap(c), Reap(x))
  {
    RunningAlike(mode, c, x);
    if ReapsProcess(c) {
      ReapProcessAlike(mode, c, x);
    } else if Running(c).died {
      ReapThreadAlike(mode, c, x);
    }
  }

  lemma TickAlike(mode: bool, c: State, x: State)
    requires StateOk(c) && StateOk(x) && LikeState(mode, c, x)
    ensures LikeState(mode, Tick(c), Tick(x))
  {
    RunningAlike(mode, c, x);
    var t, u := Running(c), Running(x);
    PutAlike(mode, c, x, t.(used := (t.used + 1) % 256), u.(used := (u.used + 1) % 256));
  }

  lemma AdvanceAlike(mode: bool, c: State, x: State, now: nat)
    requires StateOk(c) && StateOk(x) && LikeState(mode, c, x) && Movable(x, now) && !Target(mode, c)
    ensures Movable(c, PickFor(mode, c)) && LikeState(mode, Advance(c, PickFor(mode, c)), Advance(x, now))
  {
    RunningAlike(mode, c, x);
    var t, u, keen := Running(c), Running(x), Keen(mode, c.run[c.cur]);
    assert ThreadsOk(c.run[c.cur]) && ThreadsOk(x.run[x.cur]);
    LeaveAlike(keen, t, u, now);
    var d, y := PutRunning(c, Leave(t, Pick(keen, t))), PutRunning(x, Leave(u, now));
    PutAlike(mode, c, x, Leave(t, Pick(keen, t)), Leave(u, now));
    RotateAlike(mode, d, y);
  }

  lemma PassAlike(mode: bool, c: State, x: State, now: nat)
    requires StateOk(c) && StateOk(x) && LikeState(mode, c, x) && Movable(x, now) && !Target(mode, c)
    ensures Movable(c, PickFor(mode, c)) && LikeState(mode, Pass(c, PickFor(mode, c)), Pass(x, now))
  {
    AdvanceAlike(mode, c, x, now);
    AdvanceOk(c, PickFor(mode, c));
    AdvanceOk(x, now);
    var a, b := Advance(c, PickFor(mode, c)), Advance(x, now);
    assert LikeProcess(mode, a.run[a.cur], b.run[b.cur]);
    if a.run[a.cur].died {
      EnteredAlike(mode, a, b);
    }
  }

  lemma LikeItself(mode: bool, s: State)
    ensures LikeState(mode, s, s)
  {
  }

  lemma RotationStep(mode: bool, e: State, k: nat)
    ensures Rotation(mode, e, k + 1) == Pass(Rotation(mode, e, k), PickFor(mode, Rotation(mode, e, k)))
    ensures Taken(e, Readings(mode, e, k + 1)) <==>
      Taken(e, Readings(mode, e, k)) && Movable(Rotation(mode, e, k), PickFor(mode, Rotation(mode, e, k)))
  {
    AfterStep(e, Readings(mode, e, k), PickFor(mode, Rotation(mode, e, k)));
    TakenStep(e, Readings(mode, e, k), PickFor(mode, Rotation(mode, e, k)));
  }

  // As long as the rotation has not come to what is looked for, it is alike to every
  // run of the same length.
  lemma {:induction false} RotationLeads(mode: bool, e: State, readings: seq<nat>)
    requires Inv(e) && Taken(e, readings) && forall j :: 0 <= j < |readings| ==> !Reaches(mode, e, j)
    ensures Taken(e, Readings(mode, e, |readings|))
    ensures LikeState(mode, Rotation(mode, e, |readings|), After(e, readings))
  {
    if readings == [] {
      LikeItself(mode, e);
    } else {
      var init, now := readings[..|readings| - 1], readings[|readings| - 1];
      RotationLeads(mode, e, init);
      AfterOk(e, init);
      AfterOk(e, Readings(mode, e, |init|));
      assert !Reaches(mode, e, |init|);
      PassAlike(mode, Rotation(mode, e, |init|), After(e, init), now);
      RotationStep(mode, e, |init|);
    }
  }

  // What a stop of the other run at a dead thread, or in a dead process, is there.
  lemma StopIsTarget(mode: bool, c: State, x: State, end: State)
    requires StateOk(c) && StateOk(x) && LikeState(mode, c, x) && Stops(x, end)
    requires end.cur < |end.run| && ProcessOk(end.run[end.cur])
    requires if mode then end.run[end.cur].died else Running(end).died
    ensures Target(mode, c)
  {
    RunningAlike(mode, c, x);
    assert ThreadsOk(x.run[x.cur]);
    if now :| StopsAsleep(x, now, end) {
      BreaksExactly(Running(x), now);
    }
  }

  lemma TargetStops(mode: bool, s: State) returns (end: State)
    requires StateOk(s) && Target(mode, s)
    ensures Stops(s, end) && end.cur < |end.run| && ProcessOk(end.run[end.cur])
    ensures if mode then end.run[end.cur].died else Running(end).died
  {
    var t := Running(s);
    assert ThreadsOk(s.run[s.cur]);
    if !Stuck(t) {
      end := s;
    } else {
      BreaksExactly(t, t.alarm);
      end := PutRunning(s, Leave(t, t.alarm));
      assert StopsAsleep(s, t.alarm, end);
    }
  }

  // ---- What a call chooses ----

  // Under some clock the call from s chooses a dead thread.
  ghost predicate MayChooseDead(s: State)
    requires StateOk(s)
  {
    exists readings, end :: Selects(Entered(s), readings, end) && Shaped(end) && Running(end).died
  }

  ghost predicate MayChooseInDead(s: State)
    requires StateOk(s)
  {
    exists readings, end :: Selects(Entered(s), readings, end) && Shaped(end) && end.run[end.cur].died
  }

  lemma ChosenIsReached(mode: bool, s: State, readings: seq<nat>, end: State)
    requires Inv(s) && Running(s).used <= MAX_TICKS && Selects(Entered(s), readings, end) && Shaped(end)
    requires if mode then end.run[end.cur].died else Running(end).died
    ensures exists k :: 0 <= k <= |readings| && Reaches(mode, Entered(s), k)
  {
    EnteredOk(s);
    var e := Entered(s);
    if forall j :: 0 <= j < |readings| ==> !Reaches(mode, e, j) {
      RotationLeads(mode, e, readings);
      AfterOk(e, readings);
      AfterOk(e, Readings(mode, e, |readings|));
      StopIsTarget(mode, Rotation(mode, e, |readings|), After(e, readings), end);
      assert Reaches(mode, e, |readings|);
    }
  }

  lemma ReachedIsChosen(mode: bool, s: State, k: nat) returns (readings: seq<nat>, end: State)
    requires Inv(s) && Running(s).used <= MAX_TICKS && Reaches(mode, Entered(s), k)
    ensures Selects(Entered(s), readings, end) && Shaped(end)
    ensures if mode then end.run[end.cur].died else Running(end).died
  {
    EnteredOk(s);
    var e := Entered(s);
    readings := Readings(mode, e, k);
    AfterOk(e, readings);
    end := TargetStops(mode, After(e, readings));
    ChosenMayRun(s, readings, end);
  }

  // A dead thread is chosen under some clock if and only if the rotation, in which
  // sleepers sleep on, meets a dead sleeper that nothing else blocks before it meets a
  // thread that can be selected.
  lemma DeadChosenExactly(s: State)
    requires Inv(s) && Running(s).used <= MAX_TICKS
    ensures MayChooseDead(s) <==> exists k :: Reaches(false, Entered(s), k)
  {
    if readings, end :| Selects(Entered(s), readings, end) && Shaped(end) && Running(end).died {
      ChosenIsReached(false, s, readings, end);
    }
    if k: nat :| Reaches(false, Entered(s), k) {
      var readings, end := ReachedIsChosen(false, s, k);
    }
  }

  // A thread of a dead process is chosen under some clock if and only if the rotation,
  // in which the sleepers of dead processes wake, arrives in a dead process at a thread
  // that stops the loop.
  lemma DeadProcessChosenExactly(s: State)
    requires Inv(s) && Running(s).used <= MAX_TICKS
    ensures MayChooseInDead(s) <==> exists k :: Reaches(true, Entered(s), k)
  {
    if readings, end :| Selects(Entered(s), readings, end) && Shaped(end) && end.run[end.cur].died {
      ChosenIsReached(true, s, readings, end);
    }
    if k: nat :| Reaches(true, Entered(s), k) {
      var readings, end := ReachedIsChosen(true, s, k);
    }
  }

  // Two dead processes in a row: the first is reaped, the second is chosen.
  lemma DeadProcessChosen() returns (s: State)
    ensures Inv(s) && Running(s).used <= MAX_TICKS && MayChooseInDead(s)
  {
    var first := Process(0, [Thread(0, 0, 0, 4, 0, false, 0, false)], 0, false);
    var dead := Process(1, [Thread(0, 1, 0, 4, 0, false, 0, false)], 0, true);
    var dead' := Process(2, [Thread(0, 2, 0, 4, 0, false, 0, false)], 0, true);
    s := State([first, dead, dead'], 1, [], []);
    assert Idle(s.run[0]) && Idle(s.run[1]) && Idle(s.run[2]);
    assert ThreadsOk(s.run[0]) && ThreadsOk(s.run[1]) && ThreadsOk(s.run[2]);
    EnteredOk(s);
    var e := Entered(s);
    assert e.run[e.cur].died && !Stuck(Running(e));
    assert Selects(e, [], e);
  }
}
