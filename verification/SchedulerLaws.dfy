// What a call of the scheduler, sys/scheduler/scheduler.c, does to the dead, to the
// running thread and to sleepers, in terms of the lists and the clock alone.

module SchedulerLaws {
  import opened Scheduler
  import opened SchedulerProofs

  // ---- The dead leave ----

  // The scheduled thread of a process is charged a tick, and nothing else differs.
  predicate Charged(p: Process, q: Process) {
    && p.at < |p.threads|
    && q == p.(threads := p.threads[p.at := p.threads[p.at].(used := (p.threads[p.at].used + 1) % 256)])
  }

  // The process that is current is dead, or its main thread is the one that runs and is
  // dead: it leaves the run list with all its threads and heads the dead list; the next
  // process is charged.
  lemma DeadProcessLeaves(s: State)
    requires StateOk(s)
    requires s.run[s.cur].died || (s.run[s.cur].at == 0 && s.run[s.cur].threads[0].died)
    ensures var r := Entered(s);
      && r.deadProcesses == [s.run[s.cur]] + s.deadProcesses && r.deadThreads == s.deadThreads
      && |r.run| + 1 == |s.run| && r.cur == (if s.cur + 1 < |s.run| then s.cur else 0)
      && (forall i :: 0 <= i < |r.run| && i != r.cur ==> r.run[i] == s.run[if i < s.cur then i else i + 1])
      && Charged(s.run[if r.cur < s.cur then r.cur else r.cur + 1], r.run[r.cur])
  {
    ReapOk(s);
  }

  // Any other running thread that is dead leaves its process alone and heads the dead
  // threads; the next thread of the process is charged.
  lemma DeadThreadLeaves(s: State)
    requires StateOk(s) && !s.run[s.cur].died && s.run[s.cur].at != 0 && s.run[s.cur].threads[s.run[s.cur].at].died
    ensures var p, r := s.run[s.cur], Entered(s);
      && r.deadThreads == [p.threads[p.at]] + s.deadThreads && r.deadProcesses == s.deadProcesses
      && |r.run| == |s.run| && r.cur == s.cur
      && (forall i :: 0 <= i < |r.run| && i != s.cur ==> r.run[i] == s.run[i])
      && var next := if p.at + 1 < |p.threads| then p.at else 0;
         Charged(p.(threads := p.threads[..p.at] + p.threads[p.at + 1..], at := next), r.run[s.cur])
  {
    ReapOk(s);
  }

  // With a living process and a living running thread nobody leaves.
  lemma NobodyLeaves(s: State)
    requires StateOk(s) && !s.run[s.cur].died && !s.run[s.cur].threads[s.run[s.cur].at].died
    ensures var r := Entered(s);
      && r.deadThreads == s.deadThreads && r.deadProcesses == s.deadProcesses
      && |r.run| == |s.run| && r.cur == s.cur
      && (forall i :: 0 <= i < |r.run| && i != s.cur ==> r.run[i] == s.run[i])
      && Charged(s.run[s.cur], r.run[s.cur])
  {
    ReapOk(s);
  }

  // `later` is `before` with dead processes in front.
  ghost predicate DeadAhead(before: seq<Process>, later: seq<Process>) {
    && |before| <= |later| && later[|later| - |before|..] == before
    && forall k :: 0 <= k < |later| - |before| ==> later[k].died
  }

  lemma DeadAheadThen(a: seq<Process>, b: seq<Process>, c: seq<Process>)
    requires DeadAhead(a, b) && DeadAhead(b, c)
    ensures DeadAhead(a, c)
  {
    assert c[|c| - |a|..] == c[|c| - |b|..][|b| - |a|..];
    forall k | 0 <= k < |c| - |a| ensures c[k].died {
      if k >= |c| - |b| { assert c[k] == b[k - (|c| - |b|)]; }
    }
  }

  // A pass of the loop takes no thread from its process, and only a dead process from
  // the run list.
  lemma PassReaps(s: State, now: nat)
    ensures Pass(s, now).deadThreads == s.deadThreads && DeadAhead(s.deadProcesses, Pass(s, now).deadProcesses)
  {
    if StateOk(s) {
      AdvanceOk(s, now);
      var a := Advance(s, now);
      if a.run[a.cur].died {
        DeadProcessLeaves(a);
        assert ([a.run[a.cur]] + a.deadProcesses)[1..] == s.deadProcesses;
      }
    }
  }

  lemma {:induction false} AfterReaps(s: State, readings: seq<nat>)
    ensures After(s, readings).deadThreads == s.deadThreads
    ensures DeadAhead(s.deadProcesses, After(s, readings).deadProcesses)
  {
    if readings != [] {
      var before := After(s, readings[..|readings| - 1]);
      AfterReaps(s, readings[..|readings| - 1]);
      PassReaps(before, readings[|readings| - 1]);
      DeadAheadThen(s.deadProcesses, before.deadProcesses, After(s, readings).deadProcesses);
    }
  }

  // Over a whole call: the thread that ran is the only one that can join the dead
  // threads; the process that ran joins the dead processes if it is dead or its main
  // thread ran and is dead, and after it only processes that are dead themselves.
  lemma CallReaps(s: State, readings: seq<nat>, end: State)
    requires StateOk(s) && Selects(Entered(s), readings, end)
    ensures var p := s.run[s.cur];
      var leaves := p.died || (p.at == 0 && p.threads[0].died);
      && end.deadThreads == (if !leaves && p.threads[p.at].died then [p.threads[p.at]] else []) + s.deadThreads
      && DeadAhead((if leaves then [p] else []) + s.deadProcesses, end.deadProcesses)
  {
    var p := s.run[s.cur];
    if p.died || (p.at == 0 && p.threads[0].died) {
      DeadProcessLeaves(s);
    } else if p.threads[p.at].died {
      DeadThreadLeaves(s);
    } else {
      NobodyLeaves(s);
    }
    AfterReaps(Entered(s), readings);
    assert [] + s.deadThreads == s.deadThreads && [] + s.deadProcesses == s.deadProcesses;
  }

  // ---- The running thread stays ----

  lemma TakenFirst(s: State, readings: seq<nat>)
    requires Taken(s, readings) && readings != []
    ensures Movable(s, readings[0])
  {
    assert readings == [readings[0]] + readings[1..];
    TakenConcat(s, [readings[0]], readings[1..]);
    assert [readings[0]][..0] == [];
    assert After(s, []) == s;
  }

  // A living thread of a living process keeps the processor if and only if it is not
  // blocked and has more than this tick left, and then whatever the clock says.
  lemma StaysExactly(s: State)
    requires StateOk(s) && !s.run[s.cur].died && !s.run[s.cur].threads[s.run[s.cur].at].died
    requires s.run[s.cur].threads[s.run[s.cur].at].used <= MAX_TICKS
    ensures var t := s.run[s.cur].threads[s.run[s.cur].at];
      && Running(Entered(s)) == t.(used := t.used + 1)
      && (Selects(Entered(s), [], Entered(s)) <==> t.blocks == 0 && t.used + 1 < t.wanted)
      && (t.blocks == 0 && t.used + 1 < t.wanted ==>
          forall readings, end :: Selects(Entered(s), readings, end) ==> readings == [] && end == Entered(s))
  {
    NobodyLeaves(s);
    var t, e := s.run[s.cur].threads[s.run[s.cur].at], Entered(s);
    ReapOk(s);
    assert Running(e) == t.(used := t.used + 1);
    assert After(e, []) == e && Taken(e, []);
    if t.blocks == 0 && t.used + 1 < t.wanted {
      forall readings, end | Selects(e, readings, end) ensures readings == [] && end == e {
        if readings != [] { TakenFirst(e, readings); }
      }
    }
  }

  // ---- Sleepers ----

  lemma NextAround(k: nat, n: nat)
    requires k < n
    ensures (k + 1) % n == if k + 1 < n then k + 1 else 0
  {
  }

  // The loop leaves a thread: its tick count starts again, its process goes on to the
  // next thread and the loop to the next process, both in a circle. A sleeper sleeps on
  // at every reading below its alarm, and at every other it wakes and gives up one
  // reason to be blocked.
  lemma LeftExactly(s: State, now: nat)
    requires StateOk(s)
    ensures var p, r := s.run[s.cur], Advance(s, now);
      var t := p.threads[p.at];
      var left := if t.sleeping && now >= t.alarm then t.(sleeping := false, blocks := (t.blocks + 255) % 256) else t;
      && r == s.(run := r.run, cur := (s.cur + 1) % |s.run|) && |r.run| == |s.run|
      && r.run[s.cur] == p.(threads := p.threads[p.at := left.(used := 0)], at := (p.at + 1) % |p.threads|)
      && forall i :: 0 <= i < |s.run| && i != s.cur ==> r.run[i] == s.run[i]
  {
    NextAround(s.cur, |s.run|);
    NextAround(s.run[s.cur].at, |s.run[s.cur].threads|);
  }

  // A thread of that name sleeps until the given time.
  predicate SleepsUntil(t: Thread, owner: nat, id: nat, alarm: nat) {
    t.owner == owner && t.id == id ==> t.sleeping && t.alarm == alarm
  }

  ghost predicate AllSleep(s: State, owner: nat, id: nat, alarm: nat) {
    forall i, j {:trigger s.run[i].threads[j]} :: 0 <= i < |s.run| && 0 <= j < |s.run[i].threads| ==>
      SleepsUntil(s.run[i].threads[j], owner, id, alarm)
  }

  lemma EnteredSleep(s: State, owner: nat, id: nat, alarm: nat)
    requires StateOk(s) && AllSleep(s, owner, id, alarm)
    ensures AllSleep(Entered(s), owner, id, alarm)
  {
    var p, r := s.run[s.cur], Entered(s);
    if p.died || (p.at == 0 && p.threads[0].died) {
      DeadProcessLeaves(s);
      forall i, j | 0 <= i < |r.run| && 0 <= j < |r.run[i].threads|
        ensures SleepsUntil(r.run[i].threads[j], owner, id, alarm)
      {
        assert SleepsUntil(s.run[if i < s.cur then i else i + 1].threads[j], owner, id, alarm);
      }
    } else {
      EnteredSleepHere(s, owner, id, alarm);
    }
  }

  lemma EnteredSleepHere(s: State, owner: nat, id: nat, alarm: nat)
    requires StateOk(s) && AllSleep(s, owner, id, alarm)
    requires !s.run[s.cur].died && (s.run[s.cur].at == 0 ==> !s.run[s.cur].threads[0].died)
    ensures AllSleep(Entered(s), owner, id, alarm)
  {
    var p, r := s.run[s.cur], Entered(s);
    if p.threads[p.at].died {
      DeadThreadLeaves(s);
    } else {
      NobodyLeaves(s);
    }
    forall i, j | 0 <= i < |r.run| && 0 <= j < |r.run[i].threads|
      ensures SleepsUntil(r.run[i].threads[j], owner, id, alarm)
    {
      assert SleepsUntil(
          s.run[i].threads[if i == s.cur && p.threads[p.at].died && j >= p.at then j + 1 else j], owner, id, alarm);
    }
  }

  lemma PassSleep(s: State, now: nat, owner: nat, id: nat, alarm: nat)
    requires AllSleep(s, owner, id, alarm) && now < alarm
    ensures AllSleep(Pass(s, now), owner, id, alarm)
  {
    if StateOk(s) {
      AdvanceOk(s, now);
      var a := Advance(s, now);
      forall i, j | 0 <= i < |a.run| && 0 <= j < |a.run[i].threads|
        ensures SleepsUntil(a.run[i].threads[j], owner, id, alarm)
      {
        assert SleepsUntil(s.run[i].threads[j], owner, id, alarm);
      }
      if a.run[a.cur].died { EnteredSleep(a, owner, id, alarm); }
    }
  }

  lemma {:induction false} AfterSleep(s: State, readings: seq<nat>, owner: nat, id: nat, alarm: nat)
    requires AllSleep(s, owner, id, alarm) && forall k :: 0 <= k < |readings| ==> readings[k] < alarm
    ensures AllSleep(After(s, readings), owner, id, alarm)
  {
    if readings != [] {
      AfterSleep(s, readings[..|readings| - 1], owner, id, alarm);
      PassSleep(After(s, readings[..|readings| - 1]), readings[|readings| - 1], owner, id, alarm);
    }
  }

  // A call whose clock stays below a sleeper's alarm does not wake it, unless the call
  // ends at that thread because it is dead.
  lemma CallSleeps(s: State, readings: seq<nat>, end: State, owner: nat, id: nat, alarm: nat)
    requires StateOk(s) && Selects(Entered(s), readings, end) && AllSleep(s, owner, id, alarm)
    requires forall k :: 0 <= k < |readings| ==> readings[k] < alarm
    ensures Shaped(end)
    ensures
      || AllSleep(end, owner, id, alarm)
      || (Running(end).died && Running(end).owner == owner && Running(end).id == id)
  {
    EnteredSleep(s, owner, id, alarm);
    AfterSleep(Entered(s), readings, owner, id, alarm);
    var a := After(Entered(s), readings);
    if now :| StopsAsleep(a, now, end) {
      forall i, j | 0 <= i < |end.run| && 0 <= j < |end.run[i].threads| && (i != end.cur || j != end.run[i].at)
        ensures SleepsUntil(end.run[i].threads[j], owner, id, alarm)
      {
        assert SleepsUntil(a.run[i].threads[j], owner, id, alarm);
      }
    }
  }
}
