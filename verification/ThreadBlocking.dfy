// Blocking and unblocking of threads, sys/scheduler/thread.c: sleeping, waking,
// listening for another thread's events and joining it. Threads are positions in a
// sequence; `blocks` is the eight bit counter that keeps a thread off the processor.

module ThreadBlocking {

  const COUNTER: nat := 256
  const TIME: nat := 0x1_0000_0000_0000_0000

  datatype Event = DidExit | Other(number: nat)

  datatype Listener = Listener(event: Event, thread: nat, blocks: bool, oneShot: bool)

  datatype Thread = Thread(blocks: nat, sleeping: bool, alarm: nat, listeners: seq<Listener>)

  type Table = seq<Thread>

  // Listeners that block the thread id.
  ghost function Waits(ls: seq<Listener>, id: nat): nat {
    if ls == [] then 0
    else Waits(ls[..|ls| - 1], id) + if ls[|ls| - 1].blocks && ls[|ls| - 1].thread == id then 1 else 0
  }

  ghost function Release(l: Listener, event: Event, id: nat): nat {
    if l.event == event && l.blocks && l.thread == id then 1 else 0
  }

  // Of these, the ones that an event releases.
  ghost function Released(ls: seq<Listener>, event: Event, id: nat): nat {
    if ls == [] then 0
    else Released(ls[..|ls| - 1], event, id)
         + Release(ls[|ls| - 1], event, id)
  }

  ghost function Kept(ls: seq<Listener>, event: Event): seq<Listener> {
    if ls == [] then []
    else
      Kept(ls[..|ls| - 1], event) +
      if ls[|ls| - 1].event == event && ls[|ls| - 1].oneShot then [] else [ls[|ls| - 1]]
  }

  // All pending listeners that block the thread id.
  ghost function Pending(ts: Table, id: nat): nat {
    if ts == [] then 0 else Pending(ts[..|ts| - 1], id) + Waits(ts[|ts| - 1].listeners, id)
  }

  ghost predicate ListenersOk(ls: seq<Listener>, n: nat) {
    forall k :: 0 <= k < |ls| ==> ls[k].thread < n && (ls[k].blocks ==> ls[k].oneShot)
  }

  // What the thread has to wait for.
  ghost function Reasons(ts: Table, id: nat): nat
    requires id < |ts|
  {
    (if ts[id].sleeping then 1 else 0) + Pending(ts, id)
  }

  // The counter counts the reasons.
  ghost predicate Accounted(ts: Table) {
    && (forall id {:trigger ts[id].listeners} :: 0 <= id < |ts| ==> ListenersOk(ts[id].listeners, |ts|))
    && (forall id {:trigger Reasons(ts, id)} :: 0 <= id < |ts| ==> ts[id].blocks == Reasons(ts, id) % COUNTER)
  }

  // A thread is kept off the processor exactly when its reasons are not a multiple
  // of 256; in particular whenever it has between 1 and 255 of them.
  lemma BlockedExactly(ts: Table, id: nat)
    requires Accounted(ts) && id < |ts|
    ensures ts[id].blocks > 0 <==> Reasons(ts, id) % COUNTER != 0
    ensures Reasons(ts, id) < COUNTER ==> ts[id].blocks == Reasons(ts, id)
  {
    assert ts[id].blocks == Reasons(ts, id) % COUNTER;
  }

  // ---- The operations ----

  ghost function Blocked(ts: Table, id: nat, more: nat): Table
    requires id < |ts|
  {
    ts[id := ts[id].(blocks := (ts[id].blocks + more) % COUNTER)]
  }

  ghost function Attached(ts: Table, source: nat, l: Listener): Table
    requires source < |ts| && l.thread < |ts|
  {
    var added := if l.blocks then l.(oneShot := true) else l;
    var ls := ts[source := ts[source].(listeners := ts[source].listeners + [added])];
    if l.blocks then Blocked(ls, l.thread, 1) else ls
  }

  // The state after an event: one-shot listeners for it are gone, and each thread is
  // released once for every blocking one.
  ghost predicate Notified(ts: Table, source: nat, event: Event, us: Table)
    requires source < |ts|
  {
    && |us| == |ts|
    && us[source].listeners == Kept(ts[source].listeners, event)
    && forall id {:trigger us[id]} :: 0 <= id < |ts| ==>
      && us[id].sleeping == ts[id].sleeping && us[id].alarm == ts[id].alarm
      && (id != source ==> us[id].listeners == ts[id].listeners)
      && us[id].blocks < COUNTER
      && (us[id].blocks + Released(ts[source].listeners, event, id)) % COUNTER == ts[id].blocks
  }

  ghost function Asleep(ts: Table, id: nat, now: nat, time: nat): Table
    requires id < |ts|
  {
    var us := if ts[id].sleeping then ts else Blocked(ts[id := ts[id].(sleeping := true, alarm := now)], id, 1);
    us[id := us[id].(alarm := (us[id].alarm + time) % TIME)]
  }

  ghost function Awake(ts: Table, id: nat, alarm: nat): Table
    requires id < |ts|
  {
    if ts[id].sleeping then Blocked(ts[id := ts[id].(sleeping := false, alarm := alarm)], id, 255) else ts
  }

  // ---- Pending listeners under an update ----

  lemma {:induction false} PendingUpdate(ts: Table, k: nat, t: Thread, id: nat)
    requires k < |ts|
    ensures Pending(ts[k := t], id) + Waits(ts[k].listeners, id) == Pending(ts, id) + Waits(t.listeners, id)
    decreases |ts|
  {
    var n := |ts| - 1;
    if k < n {
      PendingUpdate(ts[..n], k, t, id);
      assert ts[k := t][..n] == ts[..n][k := t];
    } else {
      assert ts[k := t][..n] == ts[..n];
    }
  }

  lemma WaitsAppend(ls: seq<Listener>, l: Listener, id: nat)
    ensures Waits(ls + [l], id) == Waits(ls, id) + if l.blocks && l.thread == id then 1 else 0
  {
    assert (ls + [l])[..|ls|] == ls;
  }

  lemma {:induction false} KeptWaits(ls: seq<Listener>, event: Event, n: nat, id: nat)
    requires ListenersOk(ls, n)
    ensures Waits(Kept(ls, event), id) + Released(ls, event, id) == Waits(ls, id)
    ensures ListenersOk(Kept(ls, event), n)
  {
    if ls != [] {
      var init, last := ls[..|ls| - 1], ls[|ls| - 1];
      KeptWaits(init, event, n, id);
      WaitsAppend(Kept(init, event), last, id);
      assert Kept(init, event) + [] == Kept(init, event);
    }
  }

  lemma SameListeners(ts: Table, us: Table, id: nat)
    requires |ts| == |us|
    requires forall k :: 0 <= k < |ts| ==> us[k].listeners == ts[k].listeners
    ensures Pending(us, id) == Pending(ts, id)
    decreases |ts|
  {
    if ts != [] {
      SameListeners(ts[..|ts| - 1], us[..|us| - 1], id);
    }
  }

  lemma SameRemainder(a: nat, c: nat, m: nat)
    requires a < COUNTER && (a + m) % COUNTER == (c + m) % COUNTER
    ensures a == c % COUNTER
  {
    var x, y := (a + m) / COUNTER, (c + m) / COUNTER;
    assert a - c == COUNTER * (x - y);
    assert c == a + COUNTER * (y - x);
  }

  // ---- Each operation keeps the account ----

  lemma BlockedKeeps(ts: Table, us: Table, id: nat, more: int)
    requires Accounted(ts) && id < |ts| == |us|
    requires more == 1 || more == -1
    requires forall k :: 0 <= k < |ts| ==> us[k].listeners == ts[k].listeners
    requires forall k :: 0 <= k < |ts| && k != id ==> us[k].blocks == ts[k].blocks && us[k].sleeping == ts[k].sleeping
    requires (if us[id].sleeping then 1 else 0) == (if ts[id].sleeping then 1 else 0) + more
    requires us[id].blocks == (ts[id].blocks + if more == 1 then 1 else 255) % COUNTER
    ensures Accounted(us)
  {
    forall k | 0 <= k < |us| ensures us[k].blocks == Reasons(us, k) % COUNTER {
      SameListeners(ts, us, k);
      assert ts[k].blocks == Reasons(ts, k) % COUNTER;
    }
  }

  lemma AsleepKeeps(ts: Table, id: nat, now: nat, time: nat)
    requires Accounted(ts) && id < |ts|
    ensures Accounted(Asleep(ts, id, now, time))
  {
    var us := Asleep(ts, id, now, time);
    if ts[id].sleeping {
      forall k | 0 <= k < |us| ensures us[k].blocks == Reasons(us, k) % COUNTER {
        SameListeners(ts, us, k);
        assert ts[k].blocks == Reasons(ts, k) % COUNTER;
      }
    } else {
      BlockedKeeps(ts, us, id, 1);
    }
  }

  lemma AwakeKeeps(ts: Table, id: nat, alarm: nat)
    requires Accounted(ts) && id < |ts|
    ensures Accounted(Awake(ts, id, alarm))
  {
    if ts[id].sleeping {
      BlockedKeeps(ts, Awake(ts, id, alarm), id, -1);
    }
  }

  lemma AttachedReasons(ts: Table, source: nat, l: Listener, id: nat)
    requires source < |ts| && l.thread < |ts| && id < |ts|
    ensures Reasons(Attached(ts, source, l), id) == Reasons(ts, id) + if l.blocks && l.thread == id then 1 else 0
  {
    var added := if l.blocks then l.(oneShot := true) else l;
    var t := ts[source].(listeners := ts[source].listeners + [added]);
    PendingUpdate(ts, source, t, id);
    WaitsAppend(ts[source].listeners, added, id);
    SameListeners(ts[source := t], Attached(ts, source, l), id);
  }

  lemma AttachedKeeps(ts: Table, source: nat, l: Listener)
    requires Accounted(ts) && source < |ts| && l.thread < |ts|
    ensures Accounted(Attached(ts, source, l))
  {
    var us := Attached(ts, source, l);
    forall id | 0 <= id < |us| ensures ListenersOk(us[id].listeners, |us|) {
      assert ListenersOk(ts[id].listeners, |ts|);
    }
    forall id | 0 <= id < |us| ensures us[id].blocks == Reasons(us, id) % COUNTER {
      AttachedReasons(ts, source, l, id);
      assert ts[id].blocks == Reasons(ts, id) % COUNTER;
    }
  }

  lemma NotifiedPending(ts: Table, source: nat, event: Event, us: Table, id: nat)
    requires Accounted(ts) && source < |ts| && Notified(ts, source, event, us)
    ensures Pending(us, id) + Released(ts[source].listeners, event, id) == Pending(ts, id)
  {
    assert ListenersOk(ts[source].listeners, |ts|);
    KeptWaits(ts[source].listeners, event, |ts|, id);
    var t := ts[source].(listeners := us[source].listeners);
    PendingUpdate(ts, source, t, id);
    SameListeners(ts[source := t], us, id);
  }

  lemma NotifiedKeeps(ts: Table, source: nat, event: Event, us: Table)
    requires Accounted(ts) && source < |ts| && Notified(ts, source, event, us)
    ensures Accounted(us)
  {
    forall id | 0 <= id < |us| ensures ListenersOk(us[id].listeners, |us|) {
      assert ListenersOk(ts[id].listeners, |ts|);
      KeptWaits(ts[id].listeners, event, |ts|, id);
    }
    forall id | 0 <= id < |us| ensures us[id].blocks == Reasons(us, id) % COUNTER {
      NotifiedPending(ts, source, event, us, id);
      assert ts[id].blocks == Reasons(ts, id) % COUNTER;
      SameRemainder(us[id].blocks, Reasons(us, id), Released(ts[source].listeners, event, id));
    }
  }

  lemma KeptStep(ls: seq<Listener>, event: Event, n: nat)
    requires n < |ls|
    ensures Kept(ls[..n + 1], event) ==
      Kept(ls[..n], event) + if ls[n].event == event && ls[n].oneShot then [] else [ls[n]]
    ensures forall id: nat ::
      Released(ls[..n + 1], event, id) == Released(ls[..n], event, id) + Release(ls[n], event, id)
  {
    assert ls[..n + 1][..n] == ls[..n];
  }

  class ThreadTable {
    var threads: seq<Thread>

    // thread_attachListener().
    method AttachListener(source: nat, l: Listener)
      requires Accounted(threads) && source < |threads| && l.thread < |threads|
      modifies this
      ensures threads == Attached(old(threads), source, l)
      ensures |threads| == |old(threads)| && forall id :: 0 <= id < |threads| ==>
        var was := old(threads)[id];
        threads[id] == was.(
          listeners := if id == source then was.listeners + [l.(oneShot := l.oneShot || l.blocks)] else was.listeners,
          blocks := (was.blocks + if l.blocks && id == l.thread then 1 else 0) % 256)
      ensures Accounted(threads)
    {
      AttachedKeeps(threads, source, l);
      forall id | 0 <= id < |threads| ensures threads[id].blocks % 256 == threads[id].blocks {
        assert threads[id].blocks == Reasons(threads, id) % 256;
      }
      var added := l;
      if added.blocks {
        added := added.(oneShot := true);
      }
      threads := threads[source := threads[source].(listeners := threads[source].listeners + [added])];
      if added.blocks {
        threads := threads[l.thread := threads[l.thread].(blocks := (threads[l.thread].blocks + 1) % COUNTER)];
      }
    }

    // thread_notify(), without the callbacks.
    method Notify(source: nat, event: Event)
      requires Accounted(threads) && source < |threads|
      modifies this
      ensures Notified(old(threads), source, event, threads)
      ensures OneShotsGone(old(threads)[source].listeners, event, threads[source].listeners)
      ensures Accounted(threads)
    {
      ghost var before := threads;
      ghost var ls := threads[source].listeners;
      ghost var n: nat := 0;
      var i: nat := 0;
      PassedStart(before, source, event);
      while i < |threads[source].listeners|
        invariant 0 <= n <= |ls| && |threads| == |before|
        invariant Progress(threads[source].listeners, ls, n, i, event)
        invariant Passed(before, source, threads, ls[..n], event)
        decreases |ls| - n
      {
        ghost var now := threads;
        Next(threads[source].listeners, ls, n, i, event, |before|);
        i := Handle(source, i, event);
        PassedStep(before, source, now, threads, ls, n, event);
        n := n + 1;
      }
      Finished(before, source, threads, n, i, event);
      KeptExactly(ls, event);
    }

    // One pass of the loop in thread_notify().
    method Handle(source: nat, i: nat, event: Event) returns (next: nat)
      requires source < |threads| && i < |threads[source].listeners| && threads[source].listeners[i].thread < |threads|
      modifies this
      ensures Handled(old(threads), source, old(threads)[source].listeners[i], event, threads)
      ensures old(Drops(threads[source].listeners[i], event)) ==>
        next == i && threads[source].listeners == old(Removed(threads[source].listeners, i))
      ensures old(!Drops(threads[source].listeners[i], event)) ==>
        next == i + 1 && threads[source].listeners == old(threads[source].listeners)
    {
      var l := threads[source].listeners[i];
      if l.event == event {
        if l.blocks {
          threads := threads[l.thread := threads[l.thread].(blocks := (threads[l.thread].blocks + 255) % COUNTER)];
        }
        if l.oneShot {
          var ls := threads[source].listeners;
          threads := threads[source := threads[source].(listeners := ls[..i] + ls[i + 1..])];
          return i;
        }
      }
      return i + 1;
    }

    // thread_join().
    method Join(thread: nat, toJoin: nat)
      requires Accounted(threads) && thread < |threads| && toJoin < |threads|
      modifies this
      ensures threads == Attached(old(threads), toJoin, Listener(DidExit, thread, true, true))
      ensures Accounted(threads)
    {
      AttachListener(toJoin, Listener(DidExit, thread, true, true));
    }

    // thread_sleep().
    method Sleep(thread: nat, now: nat, time: nat)
      requires Accounted(threads) && thread < |threads|
      modifies this
      ensures threads == Asleep(old(threads), thread, now, time)
      ensures |threads| == |old(threads)| && forall id :: 0 <= id < |threads| && id != thread ==>
        threads[id] == old(threads)[id]
      ensures var was := old(threads)[thread];
        threads[thread] == if was.sleeping then was.(alarm := (was.alarm + time) % 0x1_0000_0000_0000_0000)
          else was.(sleeping := true, alarm := (now + time) % 0x1_0000_0000_0000_0000, blocks := (was.blocks + 1) % 256)
      ensures Accounted(threads)
    {
      AsleepKeeps(threads, thread, now, time);
      if !threads[thread].sleeping {
        threads := threads[thread := threads[thread].(alarm := now, sleeping := true,
                                                      blocks := (threads[thread].blocks + 1) % COUNTER)];
      }
      threads := threads[thread := threads[thread].(alarm := (threads[thread].alarm + time) % TIME)];
    }

    // thread_wakeup().
    method Wakeup(thread: nat)
      requires Accounted(threads) && thread < |threads|
      modifies this
      ensures threads == Awake(old(threads), thread, 0)
      ensures |threads| == |old(threads)| && forall id :: 0 <= id < |threads| && id != thread ==>
        threads[id] == old(threads)[id]
      ensures var was := old(threads)[thread];
        threads[thread] ==
          if was.sleeping then was.(sleeping := false, alarm := 0, blocks := (was.blocks + 255) % 256) else was
      ensures Accounted(threads)
    {
      AwakeKeeps(threads, thread, 0);
      if threads[thread].sleeping {
        threads := threads[thread := threads[thread].(sleeping := false, alarm := 0,
                                                      blocks := (threads[thread].blocks + 255) % COUNTER)];
      }
    }

    // The scheduler's test for an alarm that has passed.
    method Expire(thread: nat, now: nat)
      requires Accounted(threads) && thread < |threads|
      modifies this
      ensures threads ==
        if now >= old(threads)[thread].alarm then Awake(old(threads), thread, old(threads)[thread].alarm)
        else old(threads)
      ensures |threads| == |old(threads)| && forall id :: 0 <= id < |threads| && id != thread ==>
        threads[id] == old(threads)[id]
      ensures var was := old(threads)[thread];
        threads[thread] ==
          if was.sleeping && now >= was.alarm then was.(sleeping := false, blocks := (was.blocks + 255) % 256) else was
      ensures Accounted(threads)
    {
      AwakeKeeps(threads, thread, threads[thread].alarm);
      if threads[thread].sleeping {
        if now >= threads[thread].alarm {
          threads := threads[thread := threads[thread].(sleeping := false,
                                                        blocks := (threads[thread].blocks + 255) % COUNTER)];
        }
      }
    }
  }

  // The listeners of a prefix have had their effect.
  ghost predicate Passed(before: Table, source: nat, now: Table, prefix: seq<Listener>, event: Event) {
    && |now| == |before|
    && forall id {:trigger now[id]} :: 0 <= id < |before| ==>
      && now[id].sleeping == before[id].sleeping && now[id].alarm == before[id].alarm
      && (id != source ==> now[id].listeners == before[id].listeners)
      && now[id].blocks < COUNTER
      && (now[id].blocks + Released(prefix, event, id)) % COUNTER == before[id].blocks
  }

  ghost predicate Handled(now: Table, source: nat, l: Listener, event: Event, next: Table) {
    && |next| == |now|
    && forall id {:trigger next[id]} :: 0 <= id < |now| ==>
      && next[id].sleeping == now[id].sleeping && next[id].alarm == now[id].alarm
      && (id != source ==> next[id].listeners == now[id].listeners)
      && next[id].blocks == if Release(l, event, id) == 1 then (now[id].blocks + 255) % COUNTER else now[id].blocks
  }

  lemma PassedStep(before: Table, source: nat, now: Table, next: Table, ls: seq<Listener>, n: nat, event: Event)
    requires n < |ls| && Passed(before, source, now, ls[..n], event) && Handled(now, source, ls[n], event, next)
    ensures Passed(before, source, next, ls[..n + 1], event)
  {
    KeptStep(ls, event, n);
    forall id | 0 <= id < |before|
      ensures next[id].blocks < COUNTER
      ensures (next[id].blocks + Released(ls[..n + 1], event, id)) % COUNTER == before[id].blocks
    {
      assert now[id].blocks < COUNTER;
    }
  }

  ghost predicate Drops(l: Listener, event: Event) {
    l.event == event && l.oneShot
  }

  ghost function Removed(ls: seq<Listener>, i: nat): seq<Listener>
    requires i < |ls|
  {
    ls[..i] + ls[i + 1..]
  }

  lemma PassedStart(ts: Table, source: nat, event: Event)
    requires Accounted(ts) && source < |ts|
    ensures Passed(ts, source, ts, ts[source].listeners[..0], event)
    ensures Progress(ts[source].listeners, ts[source].listeners, 0, 0, event) && ListenersOk(ts[source].listeners, |ts|)
  {
    forall id | 0 <= id < |ts| ensures ts[id].blocks < COUNTER {
      assert ts[id].blocks == Reasons(ts, id) % COUNTER;
    }
  }

  // Of the listeners ls, the first n have been handled; the next one is at i.
  ghost predicate Progress(now: seq<Listener>, ls: seq<Listener>, n: nat, i: nat, event: Event) {
    n <= |ls| && now == Kept(ls[..n], event) + ls[n..] && i == |Kept(ls[..n], event)|
  }

  lemma Next(now: seq<Listener>, ls: seq<Listener>, n: nat, i: nat, event: Event, limit: nat)
    requires Progress(now, ls, n, i, event) && i < |now| && ListenersOk(ls, limit)
    ensures n < |ls| && now[i] == ls[n] && ls[n].thread < limit
    ensures Drops(now[i], event) ==> Progress(Removed(now, i), ls, n + 1, i, event)
    ensures !Drops(now[i], event) ==> Progress(now, ls, n + 1, i + 1, event)
  {
    KeptStep(ls, event, n);
    assert ls[n..] == [ls[n]] + ls[n + 1..];
  }

  lemma Finished(before: Table, source: nat, now: Table, n: nat, i: nat, event: Event)
    requires Accounted(before) && source < |before| == |now|
    requires Progress(now[source].listeners, before[source].listeners, n, i, event) && i >= |now[source].listeners|
    requires Passed(before, source, now, before[source].listeners[..n], event)
    ensures Notified(before, source, event, now) && Accounted(now)
  {
    assert before[source].listeners[..n] == before[source].listeners;
    NotifiedKeeps(before, source, event, now);
  }

  // ---- Runs ----

  datatype Step =
    | Listen(source: nat, l: Listener)
    | Signal(source: nat, event: Event)
    | ToSleep(thread: nat, now: nat, time: nat)
    | ToWake(thread: nat)
    | Alarm(thread: nat, now: nat)

  ghost predicate Takes(ts: Table, step: Step, us: Table) {
    match step
    case Listen(source, l) => source < |ts| && l.thread < |ts| && us == Attached(ts, source, l)
    case Signal(source, event) => source < |ts| && Notified(ts, source, event, us)
    case ToSleep(thread, now, time) => thread < |ts| && us == Asleep(ts, thread, now, time)
    case ToWake(thread) => thread < |ts| && us == Awake(ts, thread, 0)
    case Alarm(thread, now) =>
      thread < |ts| && us == if now >= ts[thread].alarm then Awake(ts, thread, ts[thread].alarm) else ts
  }

  ghost predicate Run(tables: seq<Table>, steps: seq<Step>) {
    |tables| == |steps| + 1 && forall k :: 0 <= k < |steps| ==> Takes(tables[k], steps[k], tables[k + 1])
  }

  lemma StepKeeps(ts: Table, step: Step, us: Table)
    requires Accounted(ts) && Takes(ts, step, us)
    ensures Accounted(us) && |us| == |ts|
  {
    match step
    case Listen(source, l) => AttachedKeeps(ts, source, l);
    case Signal(source, event) => NotifiedKeeps(ts, source, event, us);
    case ToSleep(thread, now, time) => AsleepKeeps(ts, thread, now, time);
    case ToWake(thread) => AwakeKeeps(ts, thread, 0);
    case Alarm(thread, now) => AwakeKeeps(ts, thread, ts[thread].alarm);
  }

  lemma {:induction false} RunAccounted(tables: seq<Table>, steps: seq<Step>, k: nat)
    requires Run(tables, steps) && k <= |steps| && Accounted(tables[0])
    ensures Accounted(tables[k]) && |tables[k]| == |tables[0]|
  {
    if k > 0 {
      RunAccounted(tables, steps, k - 1);
      assert Takes(tables[k - 1], steps[k - 1], tables[k - 1 + 1]);
      StepKeeps(tables[k - 1], steps[k - 1], tables[k]);
    }
  }

  // ---- Sleeping over runs ----

  // Sleeps add up: a second one before the first has ended prolongs it.
  lemma SleepsAddUp(ts: Table, id: nat, now: nat, time: nat, later: nat, more: nat)
    requires id < |ts| && !ts[id].sleeping
    ensures var us := Asleep(Asleep(ts, id, now, time), id, later, more);
      us[id].sleeping && us[id].alarm == (now + time + more) % 0x1_0000_0000_0000_0000
  {
    var a, m := now + time, 0x1_0000_0000_0000_0000;
    assert a == a / m * m + a % m;
    assert (a + more) % m == (a % m + more) % m by {
      var x, y := (a + more) / m, (a % m + more) / m;
      assert (a + more) - (a % m + more) == a / m * m;
      Congruent(a + more, a % m + more, a / m);
    }
  }

  lemma Congruent(a: nat, b: nat, k: nat)
    requires a == b + k * TIME
    ensures a % TIME == b % TIME
  {
    var q, x := b / TIME, b % TIME;
    assert a == (q + k) * TIME + x;
  }

  // Nobody else puts the thread to sleep or wakes it.
  ghost predicate Undisturbed(steps: seq<Step>, thread: nat, from: nat, to: nat)
    requires to <= |steps|
  {
    forall i :: from <= i < to ==> steps[i] != ToWake(thread) && !(steps[i].ToSleep? && steps[i].thread == thread)
  }

  // The alarm is found to have passed.
  ghost predicate Expires(step: Step, thread: nat, alarm: nat) {
    step.Alarm? && step.thread == thread && step.now >= alarm
  }

  // A thread that was put to sleep at `now` for `time` sleeps on exactly as long as no
  // look at the clock shows now + time or later.
  lemma {:induction false} SleepsExactly(tables: seq<Table>, steps: seq<Step>, thread: nat, now: nat, time: nat, j: nat,
                                         k: nat)
    requires Run(tables, steps) && j < k <= |steps| && Undisturbed(steps, thread, j + 1, k)
    requires thread < |tables[j]| && !tables[j][thread].sleeping && steps[j] == ToSleep(thread, now, time)
    requires now + time < 0x1_0000_0000_0000_0000
    ensures |tables[k]| == |tables[j]|
    ensures tables[k][thread].sleeping <==> forall i :: j < i < k ==> !Expires(steps[i], thread, now + time)
    ensures tables[k][thread].sleeping ==> tables[k][thread].alarm == now + time
  {
    if k == j + 1 {
      assert Takes(tables[j], steps[j], tables[j + 1]);
    } else {
      SleepsExactly(tables, steps, thread, now, time, j, k - 1);
      assert Takes(tables[k - 1], steps[k - 1], tables[k - 1 + 1]);
      SleepStep(tables[k - 1], steps[k - 1], tables[k], thread);
    }
  }

  lemma SleepStep(ts: Table, step: Step, us: Table, thread: nat)
    requires Takes(ts, step, us) && thread < |ts|
    requires step != ToWake(thread) && !(step.ToSleep? && step.thread == thread)
    ensures |us| == |ts| && us[thread].alarm == ts[thread].alarm
    ensures us[thread].sleeping <==> ts[thread].sleeping && !Expires(step, thread, ts[thread].alarm)
  {
  }

  // A thread waits for the exit of target.
  ghost predicate Joins(ts: Table, thread: nat, target: nat) {
    target < |ts| && Listener(DidExit, thread, true, true) in ts[target].listeners
  }

  // An event takes away its one-shot listeners and nothing else, and the others keep
  // their order.
  ghost predicate OneShotsGone(ls: seq<Listener>, event: Event, now: seq<Listener>) {
    forall l :: multiset(now)[l] == if l.event == event && l.oneShot then 0 else multiset(ls)[l]
  }

  lemma {:induction false} KeptExactly(ls: seq<Listener>, event: Event)
    ensures OneShotsGone(ls, event, Kept(ls, event))
  {
    if ls != [] {
      var init, last := ls[..|ls| - 1], ls[|ls| - 1];
      assert ls == init + [last];
      KeptExactly(init, event);
    }
  }

  lemma {:induction false} KeptInOrder(ls: seq<Listener>, more: seq<Listener>, event: Event)
    ensures Kept(ls + more, event) == Kept(ls, event) + Kept(more, event)
  {
    if more == [] {
      assert ls + more == ls;
    } else {
      var init, last := more[..|more| - 1], more[|more| - 1];
      assert (ls + more)[..|ls + more| - 1] == ls + init;
      KeptInOrder(ls, init, event);
    }
  }

  lemma {:induction false} KeptOther(ls: seq<Listener>, event: Event, l: Listener)
    requires l in ls && l.event != event
    ensures l in Kept(ls, event)
  {
    var init, last := ls[..|ls| - 1], ls[|ls| - 1];
    assert ls == init + [last];
    if l in init {
      KeptOther(init, event, l);
    }
  }

  lemma JoinStays(ts: Table, step: Step, us: Table, thread: nat, target: nat)
    requires Takes(ts, step, us) && Joins(ts, thread, target) && step != Signal(target, DidExit)
    ensures Joins(us, thread, target)
  {
    if step.Signal? && step.source == target {
      KeptOther(ts[target].listeners, step.event, Listener(DidExit, thread, true, true));
    }
  }

  lemma {:induction false} WaitsCounts(ls: seq<Listener>, l: Listener)
    requires l in ls && l.blocks
    ensures Waits(ls, l.thread) > 0
  {
    var init, last := ls[..|ls| - 1], ls[|ls| - 1];
    assert ls == init + [last];
    if l in init {
      WaitsCounts(init, l);
    }
  }

  lemma {:induction false} PendingCounts(ts: Table, target: nat, id: nat)
    requires target < |ts|
    ensures Pending(ts, id) >= Waits(ts[target].listeners, id)
  {
    if target < |ts| - 1 {
      PendingCounts(ts[..|ts| - 1], target, id);
    }
  }

  lemma {:induction false} JoinStaysOverRun(tables: seq<Table>, steps: seq<Step>, thread: nat, target: nat, k: nat)
    requires Run(tables, steps) && k <= |steps| && Joins(tables[0], thread, target)
    requires forall i :: 0 <= i < k ==> steps[i] != Signal(target, DidExit)
    ensures Joins(tables[k], thread, target)
  {
    if k > 0 {
      JoinStaysOverRun(tables, steps, thread, target, k - 1);
      assert Takes(tables[k - 1], steps[k - 1], tables[k - 1 + 1]);
      JoinStays(tables[k - 1], steps[k - 1], tables[k], thread, target);
    }
  }

  // Until the exit of its target is signalled, a joiner has a reason to wait, and it
  // is kept off the processor exactly when its reasons do not wrap the counter.
  lemma JoinerWaits(tables: seq<Table>, steps: seq<Step>, thread: nat, target: nat, k: nat)
    requires Run(tables, steps) && k <= |steps| && Accounted(tables[0]) && thread < |tables[0]|
    requires Joins(tables[0], thread, target)
    requires forall i :: 0 <= i < k ==> steps[i] != Signal(target, DidExit)
    ensures |tables[k]| == |tables[0]| && Reasons(tables[k], thread) > 0
    ensures tables[k][thread].blocks > 0 <==> Reasons(tables[k], thread) % COUNTER != 0
    ensures Reasons(tables[k], thread) < COUNTER ==> tables[k][thread].blocks > 0
  {
    RunAccounted(tables, steps, k);
    JoinStaysOverRun(tables, steps, thread, target, k);
    WaitsCounts(tables[k][target].listeners, Listener(DidExit, thread, true, true));
    PendingCounts(tables[k], target, thread);
    BlockedExactly(tables[k], thread);
  }

  // The counter wraps: thread 0 joins thread 1 n times.
  ghost function Joined(n: nat): Table {
    if n == 0 then [Thread(0, false, 0, []), Thread(0, false, 0, [])]
    else Again(Joined(n - 1))
  }

  ghost function Again(ts: Table): Table {
    if |ts| == 2 then Attached(ts, 1, Listener(DidExit, 0, true, true)) else ts
  }

  lemma {:induction false} JoinedReasons(n: nat)
    ensures |Joined(n)| == 2 && Accounted(Joined(n)) && Reasons(Joined(n), 0) == n
    ensures !Joined(n)[0].sleeping && (n > 0 ==> Joins(Joined(n), 0, 1))
  {
    if n == 0 {
      var ts := Joined(0);
      assert Pending(ts[..0], 0) == 0 && Pending(ts[..1], 0) == 0;
      assert Pending(ts[..0], 1) == 0 && Pending(ts[..1], 1) == 0;
      assert ts[..1][..0] == ts[..0];
    } else {
      JoinedReasons(n - 1);
      AttachedKeeps(Joined(n - 1), 1, Listener(DidExit, 0, true, true));
      AttachedReasons(Joined(n - 1), 1, Listener(DidExit, 0, true, true), 0);
    }
  }

  // With 256 joins pending the thread may run.
  lemma WrappedCounter() returns (ts: Table)
    ensures |ts| == 2 && Accounted(ts) && Joins(ts, 0, 1) && !ts[0].sleeping && Reasons(ts, 0) == 256
    ensures ts[0].blocks == 0
  {
    var n: nat := 256;
    ts := Joined(n);
    JoinedReasons(n);
    BlockedExactly(ts, 0);
  }
}
