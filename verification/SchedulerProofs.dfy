// What the scheduler promises over every call and every run of calls: nothing is
// lost or duplicated, the chosen thread may run, and no runnable thread waits for
// more than ten ticks per departure ahead of it.

module SchedulerProofs {
  import opened Scheduler

  // ---- Conservation ----

  // The multiset of what f finds in every element.
  ghost function Sum<T, X>(xs: seq<T>, f: T -> multiset<X>): multiset<X> {
    if xs == [] then multiset{} else Sum(xs[..|xs| - 1], f) + f(xs[|xs| - 1])
  }

  lemma {:induction false} SumConcat<T, X>(a: seq<T>, b: seq<T>, f: T -> multiset<X>)
    ensures Sum(a + b, f) == Sum(a, f) + Sum(b, f)
    decreases |b|
  {
    if b == [] {
      assert a + b == a;
    } else {
      SumConcat(a, b[..|b| - 1], f);
      assert (a + b)[..|a + b| - 1] == a + b[..|b| - 1];
    }
  }

  lemma SumOne<T, X>(x: T, f: T -> multiset<X>)
    ensures Sum([x], f) == f(x)
  {
    assert Sum([x][..0], f) == multiset{};
  }

  lemma SumSplit<T, X>(xs: seq<T>, i: nat, f: T -> multiset<X>)
    requires i < |xs|
    ensures Sum(xs, f) == Sum(xs[..i], f) + f(xs[i]) + Sum(xs[i + 1..], f)
  {
    assert xs == xs[..i] + [xs[i]] + xs[i + 1..];
    SumConcat(xs[..i] + [xs[i]], xs[i + 1..], f);
    SumConcat(xs[..i], [xs[i]], f);
    SumOne(xs[i], f);
  }

  lemma SumWithout<T, X>(xs: seq<T>, i: nat, f: T -> multiset<X>)
    requires i < |xs|
    ensures Sum(Without(xs, i), f) + f(xs[i]) == Sum(xs, f)
  {
    SumSplit(xs, i, f);
    SumConcat(xs[..i], xs[i + 1..], f);
  }

  lemma SumUpdate<T, X>(xs: seq<T>, i: nat, x: T, f: T -> multiset<X>)
    requires i < |xs|
    ensures Sum(xs[i := x], f) + f(xs[i]) == Sum(xs, f) + f(x)
  {
    SumSplit(xs, i, f);
    SumSplit(xs[i := x], i, f);
    assert xs[i := x][..i] == xs[..i] && xs[i := x][i + 1..] == xs[i + 1..];
  }

  lemma SameSum<T, X>(xs: seq<T>, i: nat, x: T, f: T -> multiset<X>)
    requires i < |xs| && f(x) == f(xs[i])
    ensures Sum(xs[i := x], f) == Sum(xs, f)
  {
    SumUpdate(xs, i, x, f);
    Cancel(Sum(xs[i := x], f), Sum(xs, f), f(x));
  }

  lemma Cancel<X>(a: multiset<X>, b: multiset<X>, c: multiset<X>)
    requires a + c == b + c
    ensures a == b
  {
    assert a == (a + c) - c && b == (b + c) - c;
  }

  // One process goes from the run list to the dead.
  lemma Carried<X>(a: multiset<X>, b: multiset<X>, x: multiset<X>, d: multiset<X>, e: multiset<X>)
    requires b + x == a
    ensures a + d + e == b + (x + d) + e
  {
  }

  // One thread goes from its process, changed from p to q, to the dead.
  lemma Dropped<X>(a: multiset<X>, b: multiset<X>, p: multiset<X>, q: multiset<X>, x: multiset<X>, d: multiset<X>,
                   e: multiset<X>)
    requires b + p == a + q && q + x == p
    ensures a + d + e == b + d + (x + e)
  {
    assert b + x + q == a + q;
    Cancel(b + x, a, q);
  }

  lemma SumCons<T, X>(x: T, xs: seq<T>, f: T -> multiset<X>)
    ensures Sum([x] + xs, f) == f(x) + Sum(xs, f)
  {
    SumConcat([x], xs, f);
    SumOne(x, f);
  }

  ghost function PidOf(p: Process): multiset<nat> { multiset{p.id} }

  ghost function NameOf(t: Thread): multiset<(nat, nat)> { multiset{(t.owner, t.id)} }

  ghost function NamesOf(p: Process): multiset<(nat, nat)> { Sum(p.threads, NameOf) }

  // All processes, on the run list or dead.
  ghost function Processes(s: State): multiset<nat> {
    Sum(s.run, PidOf) + Sum(s.deadProcesses, PidOf)
  }

  // All threads, in their process's list or on the list of dead threads.
  ghost function Threads(s: State): multiset<(nat, nat)> {
    Sum(s.run, NamesOf) + Sum(s.deadProcesses, NamesOf) + Sum(s.deadThreads, NameOf)
  }

  ghost predicate SameCensus(s: State, r: State) {
    Processes(s) == Processes(r) && Threads(s) == Threads(r)
  }

  lemma ReplaceProcess(s: State, i: nat, p: Process)
    requires i < |s.run| && p.id == s.run[i].id && NamesOf(p) == NamesOf(s.run[i])
    ensures SameCensus(s, s.(run := s.run[i := p]))
  {
    SameSum(s.run, i, p, PidOf);
    SameSum(s.run, i, p, NamesOf);
  }

  lemma PutRunningConserves(s: State, t: Thread)
    requires s.cur < |s.run| && ProcessOk(s.run[s.cur])
    requires t.id == Running(s).id && t.owner == Running(s).owner
    ensures SameCensus(s, PutRunning(s, t))
  {
    var p := s.run[s.cur];
    SameSum(p.threads, p.at, t, NameOf);
    ReplaceProcess(s, s.cur, PutThread(p, t));
  }

  lemma RotateConserves(s: State)
    requires s.cur < |s.run| && ProcessOk(s.run[s.cur])
    ensures SameCensus(s, Rotate(s))
  {
    var p := s.run[s.cur];
    ReplaceProcess(s, s.cur, p.(at := Following(p.at, |p.threads|)));
  }

  lemma ReapProcessConserves(s: State)
    requires s.cur < |s.run|
    ensures SameCensus(s, ReapProcess(s))
  {
    var p, rest := s.run[s.cur], Without(s.run, s.cur);
    SumWithout(s.run, s.cur, PidOf);
    SumCons(p, s.deadProcesses, PidOf);
    Carried(Sum(s.run, PidOf), Sum(rest, PidOf), PidOf(p), Sum(s.deadProcesses, PidOf), multiset{});
    SumWithout(s.run, s.cur, NamesOf);
    SumCons(p, s.deadProcesses, NamesOf);
    Carried(Sum(s.run, NamesOf), Sum(rest, NamesOf), NamesOf(p), Sum(s.deadProcesses, NamesOf),
            Sum(s.deadThreads, NameOf));
  }

  lemma ReapThreadConserves(s: State)
    requires s.cur < |s.run| && ProcessOk(s.run[s.cur])
    ensures SameCensus(s, ReapThread(s))
  {
    var p, q := s.run[s.cur], ReapThread(s).run[s.cur];
    SumWithout(p.threads, p.at, NameOf);
    SameSum(s.run, s.cur, q, PidOf);
    SumUpdate(s.run, s.cur, q, NamesOf);
    SumCons(Running(s), s.deadThreads, NameOf);
    Dropped(Sum(s.run, NamesOf), Sum(ReapThread(s).run, NamesOf), NamesOf(p), NamesOf(q), NameOf(Running(s)),
            Sum(s.deadProcesses, NamesOf), Sum(s.deadThreads, NameOf));
  }

  lemma ReapConserves(s: State)
    requires s.cur < |s.run| && ProcessOk(s.run[s.cur])
    ensures SameCensus(s, Reap(s))
  {
    ReapProcessConserves(s);
    ReapThreadConserves(s);
  }

  lemma TickConserves(s: State)
    requires s.cur < |s.run| && ProcessOk(s.run[s.cur])
    ensures SameCensus(s, Tick(s))
  {
    var t := Running(s).(used := (Running(s).used + 1) % 256);
    PutRunningConserves(s, t);
    assert Tick(s) == PutRunning(s, t);
  }

  lemma EnteredConserves(s: State)
    requires StateOk(s)
    ensures SameCensus(s, Entered(s))
  {
    ReapOk(s);
    ReapConserves(s);
    TickConserves(Reap(s));
  }

  lemma PassConserves(s: State, now: nat)
    ensures SameCensus(s, Pass(s, now))
  {
    if StateOk(s) {
      AdvanceOk(s, now);
      PutRunningConserves(s, Leave(Running(s), now));
      RotateConserves(PutRunning(s, Leave(Running(s), now)));
      EnteredIf(Advance(s, now));
    }
  }

  lemma EnteredIf(s: State)
    requires StateOk(s)
    ensures s.run[s.cur].died ==> SameCensus(s, Entered(s))
  {
    EnteredConserves(s);
  }

  lemma {:induction false} AfterConserves(s: State, readings: seq<nat>)
    ensures SameCensus(s, After(s, readings))
  {
    if readings != [] {
      AfterConserves(s, readings[..|readings| - 1]);
      PassConserves(After(s, readings[..|readings| - 1]), readings[|readings| - 1]);
    }
  }

  // A whole call, with all the reaping in it, keeps every process on exactly one of
  // the run list and the dead list, and every thread on exactly one list.
  lemma CallConserves(s: State, readings: seq<nat>, end: State)
    requires StateOk(s) && Selects(Entered(s), readings, end)
    ensures SameCensus(s, end)
  {
    EnteredConserves(s);
    AfterConserves(Entered(s), readings);
    var a := After(Entered(s), readings);
    if now :| StopsAsleep(a, now, end) {
      PutRunningConserves(a, Leave(Running(a), now));
    }
  }

  // ---- The first process stays ----

  ghost predicate SameFirst(s: State, r: State) {
    |s.run| > 0 && |r.run| > 0 && s.run[0].id == r.run[0].id
  }

  lemma EnteredFirst(s: State)
    requires StateOk(s)
    ensures SameFirst(s, Entered(s))
  {
    ReapOk(s);
  }

  lemma {:induction false} AfterFirst(s: State, readings: seq<nat>)
    requires Inv(s)
    ensures SameFirst(s, After(s, readings))
  {
    if readings != [] {
      var before := After(s, readings[..|readings| - 1]);
      AfterFirst(s, readings[..|readings| - 1]);
      AfterOk(s, readings[..|readings| - 1]);
      AdvanceOk(before, readings[|readings| - 1]);
      EnteredFirst(Advance(before, readings[|readings| - 1]));
    }
  }

  lemma CallKeepsFirst(s: State, readings: seq<nat>, end: State)
    requires Inv(s) && Running(s).used <= MAX_TICKS && Selects(Entered(s), readings, end)
    ensures SameFirst(s, end)
  {
    EnteredOk(s);
    EnteredFirst(s);
    AfterFirst(Entered(s), readings);
  }

  // ---- The chosen thread ----

  ghost predicate NoDeadSleeper(s: State) {
    forall i, j :: 0 <= i < |s.run| && 0 <= j < |s.run[i].threads| && s.run[i].threads[j].died ==>
      !s.run[i].threads[j].sleeping
  }

  lemma EnteredNoDeadSleeper(s: State)
    requires StateOk(s) && NoDeadSleeper(s)
    ensures NoDeadSleeper(Entered(s))
  {
    ReapOk(s);
  }

  lemma PassNoDeadSleeper(s: State, now: nat)
    requires NoDeadSleeper(s)
    ensures NoDeadSleeper(Pass(s, now))
  {
    if StateOk(s) {
      AdvanceOk(s, now);
      var a := Advance(s, now);
      assert NoDeadSleeper(a);
      EnteredNoDeadSleeper(a);
    }
  }

  lemma {:induction false} AfterNoDeadSleeper(s: State, readings: seq<nat>)
    requires NoDeadSleeper(s)
    ensures NoDeadSleeper(After(s, readings))
  {
    if readings != [] {
      AfterNoDeadSleeper(s, readings[..|readings| - 1]);
      PassNoDeadSleeper(After(s, readings[..|readings| - 1]), readings[|readings| - 1]);
    }
  }

  // The chosen thread is not blocked and has ticks left; it is alive if no dead
  // thread is asleep.
  lemma ChosenMayRun(s: State, readings: seq<nat>, end: State)
    requires Inv(s) && Running(s).used <= MAX_TICKS && Selects(Entered(s), readings, end)
    ensures Inv(end) && Running(end).blocks == 0 && Running(end).used < Running(end).wanted
    ensures NoDeadSleeper(s) ==> !Running(end).died
  {
    EnteredOk(s);
    AfterOk(Entered(s), readings);
    var a := After(Entered(s), readings);
    assert ThreadsOk(a.run[a.cur]);
    if now :| StopsAsleep(a, now, end) {
      PutRunningOk(a, Leave(Running(a), now));
    }
    if NoDeadSleeper(s) {
      EnteredNoDeadSleeper(s);
      AfterNoDeadSleeper(Entered(s), readings);
    }
  }

  // A dead sleeper is chosen: the only other thread is blocked.
  lemma DeadSleeperChosen() returns (s: State, readings: seq<nat>, end: State)
    ensures Inv(s) && Running(s).used <= MAX_TICKS && Selects(Entered(s), readings, end) && Running(end).died
  {
    var main := Thread(0, 0, 0, 4, 1, false, 0, false);
    var sleeper := Thread(1, 0, 0, 4, 1, true, 0, true);
    s := State([Process(0, [main, sleeper], 0, false)], 0, [], []);
    readings := [0];
    assert Idle(s.run[0]);
    assert ThreadsOk(s.run[0]);
    EnteredOk(s);
    var e := Entered(s);
    AdvanceOk(e, 0);
    AfterStep(e, [], 0);
    TakenStep(e, [], 0);
    assert [] + [0] == readings;
    var a := After(e, readings);
    assert Running(a) == sleeper;
    end := PutRunning(a, Leave(Running(a), 0));
    assert StopsAsleep(a, 0, end);
  }

  // ---- The chosen thread's process ----

  // A call starts on a process that is dead already exactly when it reaped one and
  // the next in line is dead too.
  lemma EnteredDeadExactly(s: State)
    requires StateOk(s)
    ensures Entered(s).run[Entered(s).cur].died <==> ReapsProcess(s) && s.run[Following(s.cur, |s.run|)].died
  {
    ReapOk(s);
  }

  // ---- Bounded waiting ----

  ghost predicate ProcessAlive(p: Process) {
    !p.died && forall j :: 0 <= j < |p.threads| ==> !p.threads[j].died
  }

  ghost predicate AllAlive(s: State) {
    forall i {:trigger ProcessAlive(s.run[i])} :: 0 <= i < |s.run| ==> ProcessAlive(s.run[i])
  }

  lemma PutRunningAlive(s: State, t: Thread)
    requires s.cur < |s.run| && ProcessOk(s.run[s.cur]) && AllAlive(s) && !t.died
    ensures AllAlive(PutRunning(s, t))
  {
    var r := PutRunning(s, t);
    forall i | 0 <= i < |r.run| ensures ProcessAlive(r.run[i]) {
      assert ProcessAlive(s.run[i]);
    }
  }

  lemma AdvanceAlive(s: State, now: nat)
    requires StateOk(s) && AllAlive(s)
    ensures AllAlive(Advance(s, now)) && Pass(s, now) == Advance(s, now)
  {
    AdvanceOk(s, now);
    assert ProcessAlive(s.run[s.cur]);
    var u := PutRunning(s, Leave(Running(s), now));
    PutRunningAlive(s, Leave(Running(s), now));
    var a := Advance(s, now);
    forall i | 0 <= i < |a.run| ensures ProcessAlive(a.run[i]) {
      assert ProcessAlive(u.run[i]);
    }
    assert ProcessAlive(a.run[a.cur]);
  }

  lemma EnteredAlive(s: State)
    requires StateOk(s) && AllAlive(s)
    ensures Entered(s) == Tick(s) && AllAlive(Entered(s))
  {
    assert ProcessAlive(s.run[s.cur]);
    PutRunningAlive(s, Running(s).(used := (Running(s).used + 1) % 256));
  }

  // Departures until the thread at t of process p is the running one: one from each
  // process in turn, and each departure from p moves on to its next thread.
  ghost function Distance(s: State, p: nat, t: nat): nat
    requires Shaped(s) && p < |s.run| && t < |s.run[p].threads|
  {
    Hops(s, p) + |s.run| * Turns(s, p, t)
  }

  lemma LessByOne(n: int, k: int)
    ensures n * (k - 1) == n * k - n
  {
  }

  lemma AdvanceDistance(s: State, now: nat, p: nat, t: nat)
    requires Inv(s) && CanRun(s, p, t) && !Here(s, p, t)
    ensures StateOk(Advance(s, now)) && CanRun(Advance(s, now), p, t)
    ensures Distance(Advance(s, now), p, t) == Distance(s, p, t) - 1
  {
    AdvanceCloser(s, now, p, t);
    LessByOne(|s.run|, Turns(s, p, t));
  }

  ghost predicate SamePopulation(s: State, r: State, p: nat) {
    p < |s.run| == |r.run| && |s.run[p].threads| == |r.run[p].threads|
  }

  lemma {:induction false} AfterDistance(s: State, readings: seq<nat>, p: nat, t: nat)
    requires Inv(s) && AllAlive(s) && CanRun(s, p, t) && !Here(s, p, t) && Taken(s, readings)
    ensures var a := After(s, readings);
      && Inv(a) && AllAlive(a) && CanRun(a, p, t) && SamePopulation(s, a, p)
      && Distance(a, p, t) == Distance(s, p, t) - |readings|
      && (readings != [] ==> Running(a).used == 0)
  {
    if readings != [] {
      var init, now := readings[..|readings| - 1], readings[|readings| - 1];
      AfterDistance(s, init, p, t);
      var b := After(s, init);
      assert ThreadsOk(b.run[b.cur]);
      AdvanceOk(b, now);
      AdvanceAlive(b, now);
      AdvanceCloser(b, now, p, t);
      AdvanceDistance(b, now, p, t);
    }
  }

  // Ten ticks for every departure, and what is left of the running quantum.
  ghost function Rank(s: State, p: nat, t: nat): int
    requires Shaped(s) && p < |s.run| && t < |s.run[p].threads|
  {
    MAX_TICKS * Distance(s, p, t) + MAX_TICKS - Running(s).used
  }

  lemma CallRank(s: State, readings: seq<nat>, end: State, p: nat, t: nat)
    requires Inv(s) && AllAlive(s) && CanRun(s, p, t) && !Here(s, p, t)
    requires Running(s).used <= MAX_TICKS && Selects(Entered(s), readings, end)
    ensures Inv(end) && CanRun(end, p, t) && SamePopulation(s, end, p) && Running(end).used < MAX_TICKS
    ensures Running(s).used < MAX_TICKS ==> Rank(end, p, t) < Rank(s, p, t)
    ensures readings != [] ==> Rank(end, p, t) <= MAX_TICKS * Distance(s, p, t)
  {
    EnteredOk(s);
    EnteredAlive(s);
    ChosenMayRun(s, readings, end);
    var e := Entered(s);
    TickKeepsRunnable(s, p, t);
    assert ThreadsOk(end.run[end.cur]);
    AfterDistance(e, readings, p, t);
    var a := After(e, readings);
    assert ProcessAlive(a.run[a.cur]);
    assert Distance(e, p, t) == Distance(s, p, t);
  }

  // sd_schedule_kernel() gives the rest of the quantum back first.
  ghost function Yielded(s: State): State
    requires s.cur < |s.run| && ProcessOk(s.run[s.cur])
  {
    PutRunning(s, Running(s).(used := Running(s).wanted))
  }

  lemma YieldedOk(s: State)
    requires Inv(s)
    ensures Inv(Yielded(s)) && Running(Yielded(s)).used <= MAX_TICKS
  {
    assert ThreadsOk(s.run[s.cur]);
    PutRunningOk(s, Running(s).(used := Running(s).wanted));
  }

  lemma YieldRank(s: State, readings: seq<nat>, end: State, p: nat, t: nat)
    requires Inv(s) && AllAlive(s) && CanRun(s, p, t) && !Here(s, p, t)
    requires Selects(EnteredYielded(s), readings, end)
    ensures Inv(end) && CanRun(end, p, t) && SamePopulation(s, end, p) && Running(end).used < MAX_TICKS
    ensures Rank(end, p, t) <= MAX_TICKS * Distance(s, p, t)
  {
    YieldedOk(s);
    var y := Yielded(s);
    assert ProcessAlive(s.run[s.cur]);
    PutRunningAlive(s, Running(s).(used := Running(s).wanted));
    EnteredAlive(y);
    CallRank(y, readings, end, p, t);
    assert Distance(y, p, t) == Distance(s, p, t);
    assert ThreadsOk(s.run[s.cur]);
    assert readings == [] ==> Stuck(Running(After(Entered(y), readings)));
    assert ProcessAlive(y.run[y.cur]);
  }

  ghost function EnteredYielded(s: State): State
    requires Inv(s)
  {
    YieldedOk(s);
    Entered(Yielded(s))
  }

  // The state between two calls is changed by nothing that moves threads: others may
  // block, sleep, wake or change their quantum, and a yield that does not get the lock
  // spends the running thread's quantum.
  ghost predicate SamePlaces(s: State, m: State) {
    && |s.run| == |m.run| && s.cur == m.cur
    && (forall i :: 0 <= i < |s.run| ==> s.run[i].at == m.run[i].at && |s.run[i].threads| == |m.run[i].threads|)
    && Shaped(s) && Shaped(m) && (Running(s).used <= MAX_TICKS ==> Running(m).used <= MAX_TICKS)
    && (Running(s).used <= Running(m).used || Running(m).used >= Running(m).wanted)
  }

  // One call by the timer or by a thread that yields.
  ghost predicate Call(m: State, end: State)
    requires Inv(m)
  {
    exists readings :: Selects(Entered(m), readings, end) || Selects(EnteredYielded(m), readings, end)
  }

  // A run of calls: call k leads from mids[k] to states[k + 1], and mids[k] is
  // states[k] with what happened in between. The thread at t of p can run throughout.
  ghost predicate Run(states: seq<State>, mids: seq<State>, p: nat, t: nat) {
    && |states| == |mids| + 1
    && forall k :: 0 <= k < |mids| ==> Link(states[k], mids[k], states[k + 1], p, t)
  }

  ghost predicate Link(s: State, m: State, end: State, p: nat, t: nat) {
    Inv(m) && AllAlive(m) && SamePlaces(s, m) && CanRun(m, p, t) && Call(m, end)
  }

  // A thread whose quantum is spent leaves.
  lemma SpentMoves(s: State, readings: seq<nat>, end: State)
    requires Inv(s) && AllAlive(s) && Running(s).used <= MAX_TICKS && Selects(Entered(s), readings, end)
    ensures Running(s).used >= Running(s).wanted ==> readings != []
  {
    EnteredAlive(s);
    assert ProcessAlive(s.run[s.cur]);
  }

  lemma LinkRank(s: State, m: State, end: State, p: nat, t: nat)
    requires Link(s, m, end, p, t) && !Here(s, p, t) && Running(s).used < MAX_TICKS
    ensures Shaped(s) && p < |s.run| && t < |s.run[p].threads|
    ensures Inv(end) && SamePopulation(s, end, p) && t < |end.run[p].threads| && Running(end).used < MAX_TICKS
    ensures Rank(end, p, t) < Rank(s, p, t)
  {
    assert s.run[p].at == m.run[p].at;
    var readings :| Selects(Entered(m), readings, end) || Selects(EnteredYielded(m), readings, end);
    assert Distance(s, p, t) == Distance(m, p, t);
    if Selects(Entered(m), readings, end) {
      assert ThreadsOk(m.run[m.cur]);
      SpentMoves(m, readings, end);
      CallRank(m, readings, end, p, t);
    } else {
      YieldRank(m, readings, end, p, t);
    }
  }

  lemma {:induction false} RunRank(states: seq<State>, mids: seq<State>, p: nat, t: nat, k: nat)
    requires Run(states, mids, p, t) && 0 < k <= |mids|
    requires Shaped(states[0]) && Running(states[0]).used < MAX_TICKS
    requires forall i :: 0 <= i < k ==> !Here(states[i], p, t)
    ensures SamePopulation(states[0], states[k], p) && t < |states[0].run[p].threads|
    ensures Inv(states[k]) && Running(states[k]).used < MAX_TICKS
    ensures Rank(states[k], p, t) + k <= Rank(states[0], p, t)
  {
    if k > 1 {
      RunRank(states, mids, p, t, k - 1);
    }
    assert Link(states[k - 1], mids[k - 1], states[k - 1 + 1], p, t);
    LinkRank(states[k - 1], mids[k - 1], states[k], p, t);
  }

  lemma RankBound(s: State, p: nat, t: nat)
    requires Shaped(s) && p < |s.run| && t < |s.run[p].threads|
    ensures Rank(s, p, t) <= MAX_TICKS * (|s.run| * |s.run[p].threads|)
  {
    var n, m := |s.run|, |s.run[p].threads|;
    assert ProcessOk(s.run[p]);
    assert Turns(s, p, t) <= m - 1 && Hops(s, p) <= n - 1;
    assert n * Turns(s, p, t) <= n * (m - 1);
    LessByOne(n, m);
  }

  // A thread that stays runnable is chosen within ten calls for every process and
  // every thread of its own process.
  lemma BoundedWaiting(states: seq<State>, mids: seq<State>, p: nat, t: nat)
    requires Run(states, mids, p, t) && |mids| > 0
    requires Shaped(states[0]) && p < |states[0].run| && t < |states[0].run[p].threads|
    requires Running(states[0]).used < MAX_TICKS
    requires |mids| >= MAX_TICKS * (|states[0].run| * |states[0].run[p].threads|)
    ensures exists i ::
      && 0 <= i <= MAX_TICKS * (|states[0].run| * |states[0].run[p].threads|) && i < |states|
      && Here(states[i], p, t)
  {
    var k := MAX_TICKS * (|states[0].run| * |states[0].run[p].threads|);
    RankBound(states[0], p, t);
    if forall i :: 0 <= i < k ==> !Here(states[i], p, t) {
      if k > 0 {
        RunRank(states, mids, p, t, k);
      }
    }
  }
}
