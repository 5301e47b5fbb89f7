// The scheduler's global state and the operations on it: sys/scheduler/scheduler.c
// and the parts of sys/scheduler/thread.c that change what it schedules.

module SchedulerMachine {
  import opened Scheduler
  import opened SchedulerProofs

  // The readings are those that the clock gives one after the other, up to number next.
  ghost predicate ReadFrom(clock: nat -> nat, first: nat, readings: seq<nat>, next: nat) {
    next == first + |readings| && forall k :: 0 <= k < |readings| ==> readings[k] == clock(first + k)
  }

  lemma ReadOnce(clock: nat -> nat, first: nat, a: seq<nat>, next: nat, now: nat)
    requires ReadFrom(clock, first, a, next) && now == clock(next)
    ensures ReadFrom(clock, first, a + [now], next + 1)
  {
  }

  lemma ReadOn(clock: nat -> nat, first: nat, a: seq<nat>, next: nat, b: seq<nat>, last: nat)
    requires ReadFrom(clock, first, a, next) && ReadFrom(clock, next, b, last)
    ensures ReadFrom(clock, first, a + b, last)
  {
    forall k | 0 <= k < |a + b| ensures (a + b)[k] == clock(first + k) {
      if k >= |a| { assert b[k - |a|] == clock(next + (k - |a|)); }
    }
  }

  // Only thread t of process p, which keeps its place, may differ.
  ghost predicate OthersKept(s: State, m: State, p: nat, t: nat)
    requires p < |m.run| && t < |m.run[p].threads|
  {
    && m == s.(run := m.run) && |s.run| == |m.run| && |s.run[p].threads| == |m.run[p].threads|
    && m.run == s.run[p := s.run[p].(threads := s.run[p].threads[t := m.run[p].threads[t]])]
  }

  // The new thread is second, all others keep their order, and the same one runs on.
  ghost predicate JoinsBehindMain(before: Process, thread: Thread, after: Process) {
    && after == before.(threads := after.threads, at := if before.at == 0 then 0 else before.at + 1)
    && |before.threads| >= 1 && |after.threads| == |before.threads| + 1
    && after.threads[0] == before.threads[0] && after.threads[1] == thread
    && forall j :: 1 <= j < |before.threads| ==> after.threads[j + 1] == before.threads[j]
  }

  class Machine {
    var run: seq<Process>
    var cur: nat
    var deadProcesses: seq<Process>
    var deadThreads: seq<Thread>

    function Value(): State reads this {
      State(run, cur, deadProcesses, deadThreads)
    }

    // The death check at the start of sd_schedule().
    method ReapDead()
      requires StateOk(Value())
      modifies this
      ensures Value() == Reap(old(Value()))
    {
      var process := run[cur];
      var thread := process.threads[process.at];
      if process.died || thread.died {
        if process.died || process.at == 0 {
          run := run[..cur] + run[cur + 1..];
          deadProcesses := [process] + deadProcesses;
          if cur >= |run| {
            cur := 0;
          }
        } else {
          var threads := process.threads[..process.at] + process.threads[process.at + 1..];
          deadThreads := [thread] + deadThreads;
          run := run[cur := process.(threads := threads, at := if process.at < |threads| then process.at else 0)];
        }
      }
    }

    // The start of sd_schedule() up to the loop.
    method Enter()
      requires Inv(Value()) && Running(Value()).used <= MAX_TICKS
      modifies this
      ensures Value() == Entered(old(Value())) && Inv(Value())
    {
      EnteredOk(Value());
      ReapOk(Value());
      ReapDead();
      var process := run[cur];
      var thread := process.threads[process.at];
      run := run[cur := process.(threads := process.threads[process.at := thread.(used := (thread.used + 1) % 256)])];
    }

    // One pass of the loop up to the test for a killed process.
    method LeaveThread(now: nat) returns (stop: bool)
      requires Inv(Value()) && Stuck(Running(Value()))
      modifies this
      ensures stop ==> StopsAsleep(old(Value()), now, Value()) && Inv(Value())
      ensures !stop ==> Movable(old(Value()), now) && Value() == Advance(old(Value()), now)
      ensures !stop ==> Inv(Value()) && Running(Value()).used == 0
    {
      AdvanceOk(Value(), now);
      var process := run[cur];
      var thread := process.threads[process.at];
      ghost var was := thread;
      assert ThreadsOk(process);
      PutRunningOk(Value(), Leave(was, now));
      thread := thread.(used := 0);
      if thread.sleeping && now >= thread.alarm {
        thread := thread.(sleeping := false, blocks := (thread.blocks + 255) % 256);
        if thread.blocks == 0 && thread.died {
          run := run[cur := process.(threads := process.threads[process.at := thread])];
          return true;
        }
      }
      process := process.(threads := process.threads[process.at := thread]);
      run := run[cur := process.(at := if process.at + 1 < |process.threads| then process.at + 1 else 0)];
      cur := if cur + 1 < |run| then cur + 1 else 0;
      return false;
    }

    // sd_schedule() with the lock held. `clock` gives the successive readings of the
    // time; some thread (at t of process p) must be able to run.
    method Select(clock: nat -> nat, reading: nat, ghost p: nat, ghost t: nat)
      returns (ghost readings: seq<nat>, ghost last: nat)
      requires Inv(Value()) && Running(Value()).used <= MAX_TICKS
      requires SurvivesReap(Value(), p, t)
      modifies this
      ensures Inv(Value())
      ensures Selects(Entered(old(Value())), readings, Value())
      ensures ReadFrom(clock, reading, readings, last)
      decreases |run|, if run[cur].died then 0 else 1
    {
      ghost var q, u := EnteredRunnable(Value(), p, t);
      Enter();
      ghost var entered := Value();
      var next := reading;
      readings, last := [], reading;
      while Stuck(run[cur].threads[run[cur].at])
        invariant Inv(Value()) && CanRun(Value(), q, u)
        invariant Taken(entered, readings) && After(entered, readings) == Value()
        invariant |run| == |entered.run| && ReadFrom(clock, reading, readings, last) && last == next
        decreases Spent(Value(), q, u), Turns(Value(), q, u), Hops(Value(), q)
      {
        ghost var head := Value();
        var now := clock(next);
        ReadOnce(clock, reading, readings, next, now);
        next := next + 1;
        PassCloser(head, now, q, u);
        var stop := LeaveThread(now);
        if stop {
          return;
        }
        TakenOnce(entered, readings, now);
        readings, last := readings + [now], next;
        if run[cur].died {
          ghost var middle := Entered(Value());
          ghost var rest, end := Select(clock, next, q, u);
          SelectsLater(entered, readings, middle, rest, Value());
          ReadOn(clock, reading, readings, next, rest, end);
          readings, last := readings + rest, end;
          return;
        }
      }
    }

    // sd_schedule() from the timer: without the lock nothing happens.
    method Schedule(free: bool, clock: nat -> nat, ghost p: nat, ghost t: nat)
      requires Inv(Value()) && Running(Value()).used <= MAX_TICKS
      requires SurvivesReap(Value(), p, t)
      modifies this
      ensures !free ==> Value() == old(Value())
      ensures free ==> Call(old(Value()), Value())
      ensures Inv(Value()) && Running(Value()).used <= MAX_TICKS
      ensures SameCensus(old(Value()), Value()) && SameFirst(old(Value()), Value())
      ensures free ==>
        && Running(Value()).blocks == 0 && Running(Value()).used < MAX_TICKS
        && Running(Value()).used < Running(Value()).wanted
      ensures free && NoDeadSleeper(old(Value())) ==> !Running(Value()).died
    {
      if !free {
        return;
      }
      ghost var before := Value();
      ghost var readings, _ := Select(clock, 0, p, t);
      CallConserves(before, readings, Value());
      CallKeepsFirst(before, readings, Value());
      ChosenMayRun(before, readings, Value());
      assert ThreadsOk(run[cur]);
    }

    // sd_schedule_kernel(): a thread gives up its processor. Without the lock it keeps
    // it for now, but its quantum is spent.
    method Yield(free: bool, clock: nat -> nat, ghost p: nat, ghost t: nat)
      requires Inv(Value())
      requires SurvivesReap(Value(), p, t)
      modifies this
      ensures !free ==> Value() == Yielded(old(Value())) && SamePlaces(old(Value()), Value())
      ensures !free ==>
        Running(Value()) == old(Running(Value())).(used := old(Running(Value())).wanted)
        && OthersKept(old(Value()), Value(), cur, run[cur].at)
      ensures free ==> Call(old(Value()), Value())
      ensures Inv(Value()) && Running(Value()).used <= MAX_TICKS
      ensures SameCensus(old(Value()), Value()) && SameFirst(old(Value()), Value())
      ensures free ==>
        && Running(Value()).blocks == 0 && Running(Value()).used < MAX_TICKS
        && Running(Value()).used < Running(Value()).wanted
      ensures free && NoDeadSleeper(old(Value())) ==> !Running(Value()).died
    {
      ghost var before := Value();
      YieldedOk(before);
      YieldedKeeps(before, p, t);
      YieldedConserves(before);
      var process := run[cur];
      var thread := process.threads[process.at];
      run := run[cur := process.(threads := process.threads[process.at := thread.(used := thread.wanted)])];
      ghost var yielded := Value();
      assert yielded == Yielded(before);
      if !free {
        return;
      }
      ghost var readings, _ := Select(clock, 0, p, t);
      CallConserves(yielded, readings, Value());
      CallKeepsFirst(yielded, readings, Value());
      ChosenMayRun(yielded, readings, Value());
      assert Selects(EnteredYielded(before), readings, Value());
      assert ThreadsOk(run[cur]);
    }

    // thread_setPriority().
    method SetPriority(p: nat, t: nat, priority: int)
      requires Inv(Value()) && p < |run| && t < |run[p].threads|
      modifies this
      ensures Inv(Value()) && SamePlaces(old(Value()), Value()) && SameCensus(old(Value()), Value())
      ensures OthersKept(old(Value()), Value(), p, t)
      ensures run[p].threads[t] ==
        old(run[p].threads[t]).(wanted := if priority < 1 then 1 else if priority > 10 then 10 else priority)
    {
      var ticks := Quantum(priority);
      WithQuantumOk(Value(), p, t, ticks);
      WithQuantumConserves(Value(), p, t, ticks);
      var process := run[p];
      run := run[p := process.(threads := process.threads[t := process.threads[t].(wanted := ticks)])];
    }

    // thread_attachToProcess(): a new thread goes in behind the main thread.
    method Attach(p: nat, thread: Thread)
      requires Inv(Value()) && p < |run|
      requires ThreadOk(thread) && thread.owner == run[p].id && thread.used == 0
      modifies this
      ensures Inv(Value()) && p < |run| && Value() == old(Value()).(run := old(run)[p := run[p]])
      ensures JoinsBehindMain(old(run[p]), thread, run[p])
      ensures Running(Value()) == old(Running(Value()))
      ensures Processes(Value()) == Processes(old(Value()))
      ensures Threads(Value()) == Threads(old(Value())) + NameOf(thread)
    {
      ghost var before := Value();
      WithThreadOk(before, p, thread);
      WithThreadCensus(before, p, thread);
      var process := run[p];
      process := process.(threads := process.threads[..1] + [thread] + process.threads[1..],
                          at := if process.at == 0 then 0 else process.at + 1);
      assert process == Joined(before.run[p], thread);
      run := run[p := process];
      assert Value() == WithThread(before, p, thread);
    }

    // process_getCollectableProcesses().
    method CollectProcesses() returns (processes: seq<Process>)
      modifies this
      ensures processes == old(deadProcesses) && Value() == old(Value()).(deadProcesses := [])
      ensures Processes(old(Value())) == Processes(Value()) + Sum(processes, PidOf)
    {
      processes, deadProcesses := deadProcesses, [];
    }

    // thread_getCollectableThreads().
    method CollectThreads() returns (threads: seq<Thread>)
      modifies this
      ensures threads == old(deadThreads) && Value() == old(Value()).(deadThreads := [])
      ensures Threads(old(Value())) == Threads(Value()) + Sum(threads, NameOf)
    {
      threads, deadThreads := deadThreads, [];
    }
  }

  lemma YieldedKeeps(s: State, p: nat, t: nat)
    requires Inv(s) && SurvivesReap(s, p, t)
    ensures SurvivesReap(Yielded(s), p, t) && SameFirst(s, Yielded(s))
  {
    YieldedOk(s);
  }

  lemma YieldedConserves(s: State)
    requires Shaped(s)
    ensures SameCensus(s, Yielded(s))
    ensures NoDeadSleeper(s) ==> NoDeadSleeper(Yielded(s))
  {
    PutRunningConserves(s, Running(s).(used := Running(s).wanted));
  }

  lemma ReplaceOk(s: State, p: nat, q: Process)
    requires Inv(s) && p < |s.run| && ProcessOk(q) && ThreadsOk(q) && Idle(q) && (p != s.cur ==> Fresh(q))
    requires p == 0 ==> !q.died && !q.threads[0].died
    ensures Inv(s.(run := s.run[p := q]))
  {
    var r := s.(run := s.run[p := q]);
    forall i | 0 <= i < |r.run| ensures ProcessOk(r.run[i]) && ThreadsOk(r.run[i]) {
      assert i != p ==> ThreadsOk(s.run[i]);
    }
    forall i | 0 <= i < |r.run| ensures Idle(r.run[i]) && (i != r.cur ==> Fresh(r.run[i])) {
      assert i != p ==> Idle(s.run[i]);
    }
  }

  function Quantum(priority: int): (ticks: nat)
    ensures 1 <= ticks <= MAX_TICKS
    ensures ticks > priority ==> ticks == 1
    ensures ticks < priority ==> ticks == MAX_TICKS
  {
    var least := if priority < 1 then 1 else priority;
    if least > MAX_TICKS then MAX_TICKS else least
  }

  ghost function WithQuantum(s: State, p: nat, t: nat, ticks: nat): State
    requires p < |s.run| && t < |s.run[p].threads|
  {
    var process := s.run[p];
    s.(run := s.run[p := process.(threads := process.threads[t := process.threads[t].(wanted := ticks)])])
  }

  lemma WithQuantumOk(s: State, p: nat, t: nat, ticks: nat)
    requires Inv(s) && p < |s.run| && t < |s.run[p].threads| && 1 <= ticks <= MAX_TICKS
    ensures Inv(WithQuantum(s, p, t, ticks)) && SamePlaces(s, WithQuantum(s, p, t, ticks))
  {
    assert ProcessOk(s.run[p]) && ThreadsOk(s.run[p]) && Idle(s.run[p]);
    ReplaceOk(s, p, WithQuantum(s, p, t, ticks).run[p]);
  }

  lemma WithQuantumConserves(s: State, p: nat, t: nat, ticks: nat)
    requires p < |s.run| && t < |s.run[p].threads|
    ensures SameCensus(s, WithQuantum(s, p, t, ticks))
  {
    SameSum(s.run[p].threads, t, s.run[p].threads[t].(wanted := ticks), NameOf);
    ReplaceProcess(s, p, WithQuantum(s, p, t, ticks).run[p]);
  }

  ghost function Joined(process: Process, thread: Thread): Process
    requires ProcessOk(process)
  {
    process.(threads := process.threads[..1] + [thread] + process.threads[1..],
             at := if process.at == 0 then 0 else process.at + 1)
  }

  ghost function WithThread(s: State, p: nat, thread: Thread): State
    requires p < |s.run| && ProcessOk(s.run[p])
  {
    s.(run := s.run[p := Joined(s.run[p], thread)])
  }

  lemma JoinedOk(process: Process, thread: Thread)
    requires ProcessOk(process) && ThreadsOk(process) && Idle(process)
    requires ThreadOk(thread) && thread.owner == process.id && thread.used == 0
    ensures var q := Joined(process, thread);
      && ProcessOk(q) && ThreadsOk(q) && Idle(q) && q.threads[q.at] == process.threads[process.at]
      && q.threads[0] == process.threads[0]
    ensures JoinsBehindMain(process, thread, Joined(process, thread))
  {
    var q, ts := Joined(process, thread), process.threads;
    forall j | 0 <= j < |q.threads|
      ensures q.threads[j] == if j == 0 then ts[0] else if j == 1 then thread else ts[j - 1]
    {
    }
  }

  lemma WithThreadOk(s: State, p: nat, thread: Thread)
    requires Inv(s) && p < |s.run|
    requires ThreadOk(thread) && thread.owner == s.run[p].id && thread.used == 0
    ensures Inv(WithThread(s, p, thread)) && Running(WithThread(s, p, thread)) == Running(s)
    ensures JoinsBehindMain(s.run[p], thread, Joined(s.run[p], thread))
  {
    assert ProcessOk(s.run[p]) && ThreadsOk(s.run[p]) && Idle(s.run[p]);
    JoinedOk(s.run[p], thread);
    ReplaceOk(s, p, Joined(s.run[p], thread));
  }

  lemma SumInsert<T, X>(a: seq<T>, x: T, b: seq<T>, f: T -> multiset<X>)
    ensures Sum(a + [x] + b, f) == Sum(a + b, f) + f(x)
  {
    SumConcat(a + [x], b, f);
    SumConcat(a, [x], f);
    SumOne(x, f);
    SumConcat(a, b, f);
  }

  lemma Grown<X>(a: multiset<X>, b: multiset<X>, p: multiset<X>, x: multiset<X>, d: multiset<X>, e: multiset<X>)
    requires b + p == a + (p + x)
    ensures b + d + e == a + d + e + x
  {
    assert b + p == a + x + p;
    Cancel(b, a + x, p);
  }

  lemma WithThreadCensus(s: State, p: nat, thread: Thread)
    requires p < |s.run| && ProcessOk(s.run[p])
    ensures Processes(WithThread(s, p, thread)) == Processes(s)
    ensures Threads(WithThread(s, p, thread)) == Threads(s) + NameOf(thread)
  {
    var process, q, r := s.run[p], Joined(s.run[p], thread), WithThread(s, p, thread);
    SumInsert(process.threads[..1], thread, process.threads[1..], NameOf);
    assert process.threads == process.threads[..1] + process.threads[1..];
    SameSum(s.run, p, q, PidOf);
    SumUpdate(s.run, p, q, NamesOf);
    Grown(Sum(s.run, NamesOf), Sum(r.run, NamesOf), NamesOf(process), NameOf(thread), Sum(s.deadProcesses, NamesOf),
          Sum(s.deadThreads, NameOf));
  }
}
