// The two-level round robin scheduler, sys/scheduler/scheduler.c. The linked run
// list and the thread lists of the processes are sequences, main threads first;
// `cur` is the position of the current process, `at` that of a process's scheduled
// thread.

module Scheduler {

  const MAX_TICKS: nat := 10

  datatype Thread = Thread(id: nat, owner: nat, used: nat, wanted: nat, blocks: nat, sleeping: bool, alarm: nat,
                           died: bool)

  datatype Process = Process(id: nat, threads: seq<Thread>, at: nat, died: bool)

  datatype State = State(run: seq<Process>, cur: nat, deadProcesses: seq<Process>, deadThreads: seq<Thread>)

  ghost predicate ThreadOk(t: Thread) {
    1 <= t.wanted <= MAX_TICKS && t.used <= MAX_TICKS + 1 && t.blocks < 256
  }

  predicate ProcessOk(p: Process) {
    p.at < |p.threads|
  }

  ghost predicate ThreadsOk(p: Process) {
    forall j :: 0 <= j < |p.threads| ==> ThreadOk(p.threads[j]) && p.threads[j].owner == p.id
  }

  ghost predicate Shaped(s: State) {
    s.cur < |s.run| && forall i :: 0 <= i < |s.run| ==> ProcessOk(s.run[i])
  }

  // The first process and its main thread never die.
  ghost predicate StateOk(s: State) {
    && Shaped(s)
    && (forall i {:trigger ThreadsOk(s.run[i])} :: 0 <= i < |s.run| ==> ThreadsOk(s.run[i]))
    && !s.run[0].died && |s.run[0].threads| > 0 && !s.run[0].threads[0].died
  }

  // Only the running thread has used part of its quantum.
  ghost predicate Idle(p: Process) {
    forall j :: 0 <= j < |p.threads| && j != p.at ==> p.threads[j].used == 0
  }

  ghost predicate Fresh(p: Process) {
    p.at < |p.threads| ==> p.threads[p.at].used == 0
  }

  ghost predicate OnlyRunningUsed(s: State) {
    forall i {:trigger Idle(s.run[i])} :: 0 <= i < |s.run| ==> Idle(s.run[i]) && (i != s.cur ==> Fresh(s.run[i]))
  }

  // ---- The steps of one call ----

  function Running(s: State): Thread
    requires s.cur < |s.run| && ProcessOk(s.run[s.cur])
  {
    s.run[s.cur].threads[s.run[s.cur].at]
  }

  function PutThread(p: Process, t: Thread): Process
    requires ProcessOk(p)
  {
    p.(threads := p.threads[p.at := t])
  }

  function PutRunning(s: State, t: Thread): State
    requires s.cur < |s.run| && ProcessOk(s.run[s.cur])
  {
    s.(run := s.run[s.cur := PutThread(s.run[s.cur], t)])
  }

  // The list without its i-th element, and the position that follows the gap.
  function Without<T>(xs: seq<T>, i: nat): seq<T>
    requires i < |xs|
  {
    xs[..i] + xs[i + 1..]
  }

  function FollowingGap(i: nat, n: nat): nat {
    if i < n then i else 0
  }

  function Following(i: nat, n: nat): nat {
    if i + 1 < n then i + 1 else 0
  }

  predicate ReapsProcess(s: State)
    requires s.cur < |s.run| && ProcessOk(s.run[s.cur])
  {
    s.run[s.cur].died || (Running(s).died && s.run[s.cur].at == 0)
  }

  function ReapProcess(s: State): State
    requires s.cur < |s.run|
  {
    var run := Without(s.run, s.cur);
    State(run, FollowingGap(s.cur, |run|), [s.run[s.cur]] + s.deadProcesses, s.deadThreads)
  }

  function ReapThread(s: State): State
    requires s.cur < |s.run| && ProcessOk(s.run[s.cur])
  {
    var p := s.run[s.cur];
    var threads := Without(p.threads, p.at);
    s.(run := s.run[s.cur := p.(threads := threads, at := FollowingGap(p.at, |threads|))],
       deadThreads := [Running(s)] + s.deadThreads)
  }

  function Reap(s: State): State
    requires s.cur < |s.run| && ProcessOk(s.run[s.cur])
  {
    if ReapsProcess(s) then ReapProcess(s)
    else if Running(s).died then ReapThread(s)
    else s
  }

  function Tick(s: State): State
    requires s.cur < |s.run| && ProcessOk(s.run[s.cur])
  {
    PutRunning(s, Running(s).(used := (Running(s).used + 1) % 256))
  }

  predicate Stuck(t: Thread) {
    t.used >= t.wanted || t.blocks > 0 || t.died
  }

  predicate Due(t: Thread, now: nat) {
    t.sleeping && now >= t.alarm
  }

  // The running thread loses the processor.
  function Leave(t: Thread, now: nat): Thread {
    var idle := t.(used := 0);
    if Due(t, now) then idle.(sleeping := false, blocks := (t.blocks + 255) % 256) else idle
  }

  // The loop stops at a dead thread whose sleep has just ended.
  predicate Breaks(t: Thread, now: nat) {
    Due(t, now) && Leave(t, now).blocks == 0 && t.died
  }

  function Rotate(s: State): State
    requires s.cur < |s.run| && ProcessOk(s.run[s.cur])
  {
    var p := s.run[s.cur];
    s.(run := s.run[s.cur := p.(at := Following(p.at, |p.threads|))], cur := Following(s.cur, |s.run|))
  }

  function Advance(s: State, now: nat): State
    requires s.cur < |s.run| && ProcessOk(s.run[s.cur])
  {
    Rotate(PutRunning(s, Leave(Running(s), now)))
  }

  // One pass of the loop, with the call for a process that was killed remotely.
  ghost function Pass(s: State, now: nat): State {
    if !StateOk(s) then s
    else
      AdvanceOk(s, now);
      var a := Advance(s, now);
      if a.run[a.cur].died then Entered(a) else a
  }

  // The start of a call: what died is reaped and the running thread is charged.
  ghost function Entered(s: State): State
    requires StateOk(s)
  {
    ReapOk(s);
    Tick(Reap(s))
  }

  // ---- Well-formedness is kept ----

  lemma PutRunningOk(s: State, t: Thread)
    requires StateOk(s) && ThreadOk(t) && t.owner == Running(s).owner && t.died == Running(s).died
    ensures StateOk(PutRunning(s, t))
    ensures Running(PutRunning(s, t)) == t
    ensures OnlyRunningUsed(s) ==> OnlyRunningUsed(PutRunning(s, t))
  {
    var r := PutRunning(s, t);
    var p := s.run[s.cur];
    assert ThreadsOk(p);
    forall i | 0 <= i < |r.run| ensures ProcessOk(r.run[i]) && ThreadsOk(r.run[i]) {
      assert i != s.cur ==> ThreadsOk(s.run[i]);
    }
    if OnlyRunningUsed(s) {
      forall i | 0 <= i < |r.run| ensures Idle(r.run[i]) && (i != r.cur ==> Fresh(r.run[i])) {
        assert Idle(s.run[i]);
      }
    }
  }

  lemma RotateOk(s: State)
    requires StateOk(s)
    ensures StateOk(Rotate(s))
    ensures OnlyRunningUsed(s) && Running(s).used == 0 ==> OnlyRunningUsed(Rotate(s))
  {
    var r := Rotate(s);
    forall i | 0 <= i < |r.run| ensures ProcessOk(r.run[i]) && ThreadsOk(r.run[i]) {
      assert ThreadsOk(s.run[i]);
    }
    if OnlyRunningUsed(s) && Running(s).used == 0 {
      forall i | 0 <= i < |r.run| ensures Idle(r.run[i]) && (i != r.cur ==> Fresh(r.run[i])) {
        assert Idle(s.run[i]);
      }
    }
  }

  lemma AdvanceOk(s: State, now: nat)
    requires StateOk(s)
    ensures StateOk(Advance(s, now))
    ensures OnlyRunningUsed(s) ==> OnlyRunningUsed(Advance(s, now)) && Running(Advance(s, now)).used == 0
  {
    var t := Leave(Running(s), now);
    assert ThreadsOk(s.run[s.cur]);
    PutRunningOk(s, t);
    var u := PutRunning(s, t);
    RotateOk(u);
    if OnlyRunningUsed(s) {
      UnusedAhead(u);
    }
  }

  lemma UnusedAhead(s: State)
    requires StateOk(s) && OnlyRunningUsed(s) && Running(s).used == 0
    ensures Running(Rotate(s)).used == 0
  {
    var r := Rotate(s);
    assert Idle(s.run[r.cur]);
  }

  lemma ReapOk(s: State)
    requires StateOk(s)
    ensures StateOk(Reap(s))
    ensures OnlyRunningUsed(s) ==> OnlyRunningUsed(Reap(s))
  {
    if ReapsProcess(s) {
      ReapProcessOk(s);
    } else if Running(s).died {
      ReapThreadOk(s);
    }
  }

  lemma ReapProcessOk(s: State)
    requires StateOk(s) && ReapsProcess(s)
    ensures StateOk(ReapProcess(s))
    ensures OnlyRunningUsed(s) ==> OnlyRunningUsed(ReapProcess(s))
  {
    var r := ReapProcess(s);
    forall i | 0 <= i < |r.run| ensures ProcessOk(r.run[i]) && ThreadsOk(r.run[i]) {
      assert ThreadsOk(s.run[if i < s.cur then i else i + 1]);
    }
    if OnlyRunningUsed(s) {
      forall i | 0 <= i < |r.run| ensures Idle(r.run[i]) && (i != r.cur ==> Fresh(r.run[i])) {
        assert Idle(s.run[if i < s.cur then i else i + 1]);
      }
    }
  }

  lemma ReapThreadOk(s: State)
    requires StateOk(s) && !ReapsProcess(s) && Running(s).died
    ensures StateOk(ReapThread(s))
    ensures OnlyRunningUsed(s) ==> OnlyRunningUsed(ReapThread(s))
  {
    var r := ReapThread(s);
    var p, q := s.run[s.cur], r.run[s.cur];
    assert ThreadsOk(p);
    assert forall j :: 0 <= j < |q.threads| ==> q.threads[j] == p.threads[if j < p.at then j else j + 1];
    forall i | 0 <= i < |r.run| ensures ProcessOk(r.run[i]) && ThreadsOk(r.run[i]) {
      assert i != s.cur ==> ThreadsOk(s.run[i]);
    }
    if OnlyRunningUsed(s) {
      assert Idle(p);
      forall i | 0 <= i < |r.run| ensures Idle(r.run[i]) && (i != r.cur ==> Fresh(r.run[i])) {
        assert i != s.cur ==> Idle(s.run[i]);
      }
    }
  }

  lemma TickOk(s: State)
    requires StateOk(s) && Running(s).used <= MAX_TICKS
    ensures StateOk(Tick(s))
    ensures OnlyRunningUsed(s) ==> OnlyRunningUsed(Tick(s))
  {
    assert ThreadsOk(s.run[s.cur]);
    PutRunningOk(s, Running(s).(used := (Running(s).used + 1) % 256));
  }

  // Between two calls, and at the head of the loop.
  ghost predicate Inv(s: State) {
    StateOk(s) && OnlyRunningUsed(s)
  }

  lemma ReapUsed(s: State)
    requires Inv(s)
    ensures Inv(Reap(s)) && Running(Reap(s)).used <= Running(s).used
  {
    ReapOk(s);
    var r := Reap(s);
    if ReapsProcess(s) {
      assert Idle(s.run[if r.cur < s.cur then r.cur else r.cur + 1]);
    } else if Running(s).died {
      assert Idle(s.run[s.cur]);
      var p, q := s.run[s.cur], r.run[s.cur];
      assert Running(r) == p.threads[if q.at < p.at then q.at else q.at + 1];
    }
  }

  lemma EnteredOk(s: State)
    requires Inv(s) && Running(s).used <= MAX_TICKS
    ensures Inv(Entered(s))
  {
    ReapUsed(s);
    TickOk(Reap(s));
  }

  lemma PassOk(s: State, now: nat)
    requires Inv(s)
    ensures Inv(Pass(s, now))
  {
    AdvanceOk(s, now);
    if Advance(s, now).run[Advance(s, now).cur].died {
      EnteredOk(Advance(s, now));
    }
  }

  // ---- Runs of the selection loop ----

  // The state after the passes with the given clock readings.
  ghost function After(s: State, readings: seq<nat>): State {
    if readings == [] then s
    else Pass(After(s, readings[..|readings| - 1]), readings[|readings| - 1])
  }

  // The running thread cannot stay and is not a dead thread that just woke.
  ghost predicate Movable(s: State, now: nat) {
    Shaped(s) && Stuck(Running(s)) && !Breaks(Running(s), now)
  }

  // Every one of the passes is taken.
  ghost predicate Taken(s: State, readings: seq<nat>) {
    readings == [] ||
    (Taken(s, readings[..|readings| - 1]) && Movable(After(s, readings[..|readings| - 1]), readings[|readings| - 1]))
  }

  ghost predicate StopsAsleep(s: State, now: nat, end: State) {
    Shaped(s) && Stuck(Running(s)) && Breaks(Running(s), now) && end == PutRunning(s, Leave(Running(s), now))
  }

  ghost predicate Stops(s: State, end: State) {
    (Shaped(s) && !Stuck(Running(s)) && end == s) || exists now :: StopsAsleep(s, now, end)
  }

  ghost predicate Selects(s: State, readings: seq<nat>, end: State) {
    Taken(s, readings) && Stops(After(s, readings), end)
  }

  lemma {:induction false} AfterOk(s: State, readings: seq<nat>)
    requires Inv(s)
    ensures Inv(After(s, readings))
  {
    if readings != [] {
      AfterOk(s, readings[..|readings| - 1]);
      PassOk(After(s, readings[..|readings| - 1]), readings[|readings| - 1]);
    }
  }

  lemma AfterStep(s: State, readings: seq<nat>, now: nat)
    ensures After(s, readings + [now]) == Pass(After(s, readings), now)
  {
    assert (readings + [now])[..|readings|] == readings;
  }

  lemma TakenStep(s: State, readings: seq<nat>, now: nat)
    ensures Taken(s, readings + [now]) <==> Taken(s, readings) && Movable(After(s, readings), now)
  {
    assert (readings + [now])[..|readings|] == readings;
  }

  lemma {:induction false} AfterConcat(s: State, a: seq<nat>, b: seq<nat>)
    ensures After(s, a + b) == After(After(s, a), b)
    decreases |b|
  {
    if b == [] {
      assert a + b == a;
    } else {
      var init, last := b[..|b| - 1], b[|b| - 1];
      calc {
        After(s, a + b);
        { assert a + b == a + init + [last]; }
        After(s, a + init + [last]);
        { AfterStep(s, a + init, last); }
        Pass(After(s, a + init), last);
        { AfterConcat(s, a, init); }
        Pass(After(After(s, a), init), last);
        After(After(s, a), b);
      }
    }
  }

  lemma {:induction false} TakenConcat(s: State, a: seq<nat>, b: seq<nat>)
    ensures Taken(s, a + b) <==> Taken(s, a) && Taken(After(s, a), b)
    decreases |b|
  {
    if b == [] {
      assert a + b == a;
    } else {
      var init, last := b[..|b| - 1], b[|b| - 1];
      calc {
        Taken(s, a + b);
        { assert a + b == a + init + [last]; }
        Taken(s, a + init + [last]);
        { TakenStep(s, a + init, last); }
        Taken(s, a + init) && Movable(After(s, a + init), last);
        { TakenConcat(s, a, init); AfterConcat(s, a, init); }
        Taken(s, a) && Taken(After(s, a), init) && Movable(After(After(s, a), init), last);
        Taken(s, a) && Taken(After(s, a), b);
      }
    }
  }

  // ---- The loop ends ----

  ghost predicate Runnable(t: Thread) {
    !t.died && t.blocks == 0 && !t.sleeping
  }

  ghost predicate CanRun(s: State, p: nat, t: nat) {
    p < |s.run| && !s.run[p].died && t < |s.run[p].threads| && Runnable(s.run[p].threads[t])
  }

  // Steps from position i round to position j.
  ghost function Ahead(i: nat, j: nat, n: nat): nat
    requires i < n && j < n
  {
    if i <= j then j - i else j + n - i
  }

  lemma AheadStep(i: nat, j: nat, n: nat)
    requires i < n && j < n
    ensures i != j ==> Ahead(Following(i, n), j, n) == Ahead(i, j, n) - 1
    ensures Ahead(Following(i, n), i, n) == n - 1
    ensures Ahead(i, j, n) == 0 <==> i == j
  {
  }

  ghost function Turns(s: State, p: nat, t: nat): nat
    requires Shaped(s) && p < |s.run| && t < |s.run[p].threads|
  {
    assert ProcessOk(s.run[p]);
    Ahead(s.run[p].at, t, |s.run[p].threads|)
  }

  ghost function Hops(s: State, p: nat): nat
    requires Shaped(s) && p < |s.run|
  {
    Ahead(s.cur, p, |s.run|)
  }

  ghost function Spent(s: State, p: nat, t: nat): nat
    requires p < |s.run| && t < |s.run[p].threads|
  {
    if s.run[p].threads[t].used >= s.run[p].threads[t].wanted then 1 else 0
  }

  // The runnable thread at t of process p is the running one.
  ghost predicate Here(s: State, p: nat, t: nat) {
    s.cur == p && p < |s.run| && s.run[p].at == t
  }

  // Every rotation brings a thread that can run closer, until it is the running one.
  lemma AdvanceCloser(s: State, now: nat, p: nat, t: nat)
    requires Inv(s) && CanRun(s, p, t) && !Here(s, p, t)
    ensures StateOk(Advance(s, now)) && CanRun(Advance(s, now), p, t)
    ensures |Advance(s, now).run| == |s.run| && |Advance(s, now).run[p].threads| == |s.run[p].threads|
    ensures Spent(s, p, t) == 0 && Spent(Advance(s, now), p, t) == 0
    ensures s.cur == p ==>
      && Turns(Advance(s, now), p, t) == Turns(s, p, t) - 1 && Hops(s, p) == 0
      && Hops(Advance(s, now), p) == |s.run| - 1
    ensures s.cur != p ==> Turns(Advance(s, now), p, t) == Turns(s, p, t) && Hops(Advance(s, now), p) == Hops(s, p) - 1
  {
    AdvanceOk(s, now);
    assert Idle(s.run[p]) && ThreadsOk(s.run[p]);
    AheadStep(s.cur, p, |s.run|);
    AheadStep(s.run[p].at, t, |s.run[p].threads|);
  }

  lemma AdvanceFromHere(s: State, now: nat, p: nat, t: nat)
    requires Inv(s) && CanRun(s, p, t) && Here(s, p, t) && Stuck(Running(s))
    ensures StateOk(Advance(s, now)) && CanRun(Advance(s, now), p, t)
    ensures Spent(s, p, t) == 1 && Spent(Advance(s, now), p, t) == 0
  {
    AdvanceOk(s, now);
    assert ThreadsOk(s.run[p]);
  }

  // Where a thread that can run is found after reaping.
  ghost predicate SurvivesReap(s: State, p: nat, t: nat) {
    Shaped(s) && CanRun(s, p, t) && (p == s.cur ==> !ReapsProcess(s))
  }

  ghost function ProcessAfterReap(s: State, p: nat): nat
    requires Shaped(s)
  {
    if ReapsProcess(s) && p > s.cur then p - 1 else p
  }

  ghost function ThreadAfterReap(s: State, p: nat, t: nat): nat
    requires Shaped(s)
  {
    if !ReapsProcess(s) && Running(s).died && p == s.cur && t > s.run[p].at then t - 1 else t
  }

  lemma ReapKeepsRunnable(s: State, p: nat, t: nat)
    requires StateOk(s) && SurvivesReap(s, p, t)
    ensures CanRun(Reap(s), ProcessAfterReap(s, p), ThreadAfterReap(s, p, t))
  {
  }

  lemma TickKeepsRunnable(s: State, p: nat, t: nat)
    requires Shaped(s) && CanRun(s, p, t)
    ensures CanRun(Tick(s), p, t)
  {
  }

  lemma TakenOnce(s: State, readings: seq<nat>, now: nat)
    requires Taken(s, readings) && Inv(After(s, readings)) && Movable(After(s, readings), now)
    ensures Taken(s, readings + [now])
    ensures var a := Advance(After(s, readings), now);
      StateOk(a) && After(s, readings + [now]) == if a.run[a.cur].died then Entered(a) else a
  {
    TakenStep(s, readings, now);
    AfterStep(s, readings, now);
    AdvanceOk(After(s, readings), now);
  }

  lemma SelectsLater(s: State, first: seq<nat>, middle: State, rest: seq<nat>, end: State)
    requires Taken(s, first) && After(s, first) == middle && Selects(middle, rest, end)
    ensures Selects(s, first + rest, end)
  {
    AfterConcat(s, first, rest);
    TakenConcat(s, first, rest);
  }

  lemma EnteredRunnable(s: State, p: nat, t: nat) returns (q: nat, u: nat)
    requires StateOk(s) && SurvivesReap(s, p, t)
    ensures CanRun(Entered(s), q, u)
    ensures |Entered(s).run| == if ReapsProcess(s) then |s.run| - 1 else |s.run|
  {
    q, u := ProcessAfterReap(s, p), ThreadAfterReap(s, p, t);
    ReapOk(s);
    ReapKeepsRunnable(s, p, t);
    TickKeepsRunnable(Reap(s), q, u);
  }

  lemma PassCloser(s: State, now: nat, p: nat, t: nat)
    requires Inv(s) && CanRun(s, p, t) && Stuck(Running(s))
    ensures var a := Advance(s, now);
      && StateOk(a) && CanRun(a, p, t) && |a.run| == |s.run|
      && (Spent(a, p, t) < Spent(s, p, t) ||
          (Spent(a, p, t) == Spent(s, p, t) &&
           (Turns(a, p, t) < Turns(s, p, t) || (Turns(a, p, t) == Turns(s, p, t) && Hops(a, p) < Hops(s, p)))))
  {
    if Here(s, p, t) { AdvanceFromHere(s, now, p, t); } else { AdvanceCloser(s, now, p, t); }
  }
}
