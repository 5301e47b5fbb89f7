// The cross-thread call of libkernel/libio/IORemoteCommand.cpp, as a state
// machine.  One step is one section under the spinlock, or one of the unlocked
// actions between two such sections; a run is any interleaving of the caller's
// steps with the run loop's.

module RemoteCommand {

  datatype Outcome = Success | Timeout

  // Where the run loop stands in doWork().
  datatype LoopPoint =
    | Resting
    | Entered                  // _executing set, lock released, action not yet called
    | Running(request: nat)    // inside _action(...), with the arguments of `request`
    | Returned                 // back from the action, flags not yet updated

  datatype Request<A> = Request(arguments: A, early: bool)

  // `requests` lists every executeCommand() so far, in order; a request is early
  // if _executed was still false when it was submitted.  `outcomes` lists what
  // the finished ones returned: the caller waits for an answer while there are
  // more requests than outcomes.  `arguments` is what _arg0.._arg4 hold, written
  // by request number |requests| - 1.  `calls` records every entry into the
  // action, as the number of the request whose arguments it reads and those
  // arguments; `completed` every return from it.
  datatype State<A> = State(
    waiting: bool, executed: bool, cancelled: bool, executing: bool,
    timeout: nat, arguments: A, loop: LoopPoint,
    requests: seq<Request<A>>, outcomes: seq<Outcome>,
    calls: seq<(nat, A)>, completed: seq<nat>)

  datatype Step<A> =
    | Submit(args: A, timeout: nat)   // executeCommand(), first locked section
    | Poll                            // executeCommand(), locked section of the loop
    | Enter                           // doWork(), first locked section
    | Call                            // the action reads the arguments and starts
    | Return                          // the action returns
    | Finish                          // doWork(), second locked section

  function Init<A>(args: A): State<A> {
    State(false, false, false, false, 0, args, Resting, [], [], [], [])
  }

  predicate CallerWaits<A>(s: State<A>) {
    |s.outcomes| < |s.requests|
  }

  // A step that is not possible in the state leaves it alone.
  function Next<A>(s: State<A>, step: Step<A>): State<A> {
    match step
    case Submit(args, timeout) =>
      if CallerWaits(s) then s
      else s.(cancelled := false, waiting := true, arguments := args, timeout := timeout,
              requests := s.requests + [Request(args, !s.executed)])
    case Poll =>
      if !CallerWaits(s) then s
      else if s.executed then s.(outcomes := s.outcomes + [Success])
      else if s.timeout > 0 && !s.executing then s.(cancelled := true, outcomes := s.outcomes + [Timeout])
      else s
    case Enter =>
      if s.loop.Resting? && s.waiting && !s.cancelled then s.(executing := true, loop := Entered) else s
    case Call =>
      if s.loop.Entered? && |s.requests| > 0 then
        s.(loop := Running(|s.requests| - 1), calls := s.calls + [(|s.requests| - 1, s.arguments)])
      else s
    case Return =>
      if s.loop.Running? then s.(loop := Returned, completed := s.completed + [s.loop.request]) else s
    case Finish =>
      if s.loop.Returned? then s.(executing := false, executed := true, waiting := false, loop := Resting) else s
  }

  function Run<A>(s: State<A>, steps: seq<Step<A>>): State<A> {
    if steps == [] then s else Next(Run(s, steps[..|steps| - 1]), steps[|steps| - 1])
  }

  // What holds at all times.
  ghost predicate Common<A>(s: State<A>) {
    && |s.outcomes| <= |s.requests| <= |s.outcomes| + 1
    && (s.executing <==> !s.loop.Resting?)
    && (s.requests != [] ==> s.arguments == s.requests[|s.requests| - 1].arguments)
    && (s.waiting || s.executing ==> s.requests != [])
  }

  // Before the action has been carried out for the first time.
  ghost predicate Before<A>(s: State<A>) {
    && (forall i :: 0 <= i < |s.outcomes| ==> s.outcomes[i].Timeout?)
    && (forall i :: 0 <= i < |s.requests| ==> s.requests[i].early)
    && (s.executing ==> CallerWaits(s) && s.waiting && !s.cancelled)
    && (CallerWaits(s) <==> s.waiting && !s.cancelled)
    && (s.loop.Running? ==> s.loop.request == |s.requests| - 1)
    && s.calls == (if s.loop.Running? || s.loop.Returned? then [(|s.requests| - 1, s.arguments)] else [])
    && s.completed == (if s.loop.Returned? then [|s.requests| - 1] else [])
  }

  // Afterwards; k is the request it was carried out for.
  ghost predicate After<A>(s: State<A>) {
    && s.calls != [] && s.completed != []
    && var k := s.calls[0].0;
    && k < |s.requests| && s.calls[0].1 == s.requests[k].arguments && s.completed[0] == k
    && (forall j :: 1 <= j < |s.calls| ==> k < s.calls[j].0 < |s.requests|)
    && (forall j :: 1 <= j < |s.completed| ==> s.completed[j] > k)
    && (forall i :: 0 <= i < |s.requests| ==> (s.requests[i].early <==> i <= k))
    && k <= |s.outcomes|
    && (forall i :: 0 <= i < |s.outcomes| ==> (s.outcomes[i].Timeout? <==> i < k))
    && (s.waiting || s.executing ==> |s.requests| - 1 > k)
    && (s.loop.Running? ==> s.loop.request > k)
  }

  ghost predicate Inv<A>(s: State<A>) {
    Common(s) && if s.executed then After(s) else Before(s)
  }

  lemma CallerStep<A>(s: State<A>, step: Step<A>)
    requires Inv(s) && (step.Submit? || step.Poll?)
    ensures Inv(Next(s, step))
  {
  }

  lemma LoopStep<A>(s: State<A>, step: Step<A>)
    requires Inv(s) && !step.Submit? && !step.Poll?
    ensures Inv(Next(s, step))
  {
  }

  lemma InvNext<A>(s: State<A>, step: Step<A>)
    requires Inv(s)
    ensures Inv(Next(s, step))
  {
    if step.Submit? || step.Poll? { CallerStep(s, step); } else { LoopStep(s, step); }
  }

  lemma {:induction false} InvRun<A>(args: A, steps: seq<Step<A>>)
    ensures Inv(Run(Init(args), steps))
  {
    if steps != [] {
      InvRun(args, steps[..|steps| - 1]);
      InvNext(Run(Init(args), steps[..|steps| - 1]), steps[|steps| - 1]);
    }
  }

  lemma TimeoutNotCalled<A>(s: State<A>, r: nat)
    requires Inv(s) && r < |s.outcomes| && s.outcomes[r].Timeout?
    ensures forall j :: 0 <= j < |s.calls| ==> s.calls[j].0 != r
  {
  }

  // In every run: a request that returned Timeout is never carried out, neither
  // before nor after it returned.
  lemma TimeoutMeansNotRun<A>(args: A, steps: seq<Step<A>>, r: nat)
    requires var s := Run(Init(args), steps); r < |s.outcomes| && s.outcomes[r].Timeout?
    ensures var s := Run(Init(args), steps); forall j :: 0 <= j < |s.calls| ==> s.calls[j].0 != r
  {
    InvRun(args, steps);
    TimeoutNotCalled(Run(Init(args), steps), r);
  }

  // In every run: an early request that returned Success was carried out exactly
  // once, with its own arguments, and the action had returned.
  lemma SuccessMeansRunOnce<A>(args: A, steps: seq<Step<A>>, r: nat)
    requires var s := Run(Init(args), steps);
      r < |s.outcomes| && r < |s.requests| && s.outcomes[r].Success? && s.requests[r].early
    ensures var s := Run(Init(args), steps);
      && (exists j :: 0 <= j < |s.calls| && s.calls[j] == (r, s.requests[r].arguments))
      && (forall i, j :: 0 <= i < |s.calls| && 0 <= j < |s.calls| && s.calls[i].0 == r && s.calls[j].0 == r ==> i == j)
      && r in s.completed
  {
    InvRun(args, steps);
    var s := Run(Init(args), steps);
    assert s.calls[0] == (r, s.requests[r].arguments) && s.completed[0] == r;
  }

  lemma {:induction false} RunConcat<A>(s: State<A>, steps: seq<Step<A>>, more: seq<Step<A>>)
    ensures Run(s, steps + more) == Run(Run(s, steps), more)
  {
    if more == [] {
      assert steps + more == steps;
    } else {
      RunConcat(s, steps, more[..|more| - 1]);
      assert (steps + more)[..|steps + more| - 1] == steps + more[..|more| - 1];
    }
  }

  lemma StepGrows<A>(s: State<A>, step: Step<A>)
    ensures s.outcomes <= Next(s, step).outcomes && s.requests <= Next(s, step).requests
  {
  }

  // An answer, once given, stays; so do the requests.
  lemma {:induction false} HistoryGrows<A>(s: State<A>, more: seq<Step<A>>)
    ensures s.outcomes <= Run(s, more).outcomes && s.requests <= Run(s, more).requests
  {
    if more != [] {
      HistoryGrows(s, more[..|more| - 1]);
      StepGrows(Run(s, more[..|more| - 1]), more[|more| - 1]);
    }
  }

  // Whatever happens after a Timeout, that request is not carried out any more.
  lemma TimeoutIsFinal<A>(args: A, steps: seq<Step<A>>, more: seq<Step<A>>, r: nat)
    requires var s := Run(Init(args), steps); r < |s.outcomes| && s.outcomes[r].Timeout?
    ensures var u := Run(Init(args), steps + more); forall j :: 0 <= j < |u.calls| ==> u.calls[j].0 != r
  {
    RunConcat(Init(args), steps, more);
    HistoryGrows(Run(Init(args), steps), more);
    TimeoutMeansNotRun(args, steps + more, r);
  }

  // However the run goes on after the next submission, Success means that the
  // action was called with its arguments.
  ghost predicate SuccessIsHonest<A(!new)>(s: State<A>, args: A, timeout: nat) {
    forall more: seq<Step<A>> ::
      var u := Run(Next(s, Submit(args, timeout)), more);
      |u.outcomes| > |s.requests| && u.outcomes[|s.requests|].Success? ==> (|s.requests|, args) in u.calls
  }

  // _executed is never reset: the answer to the next request can be trusted if
  // and only if no call has been carried out before.
  lemma SuccessIsHonestExactlyBefore<A(!new)>(args: A, steps: seq<Step<A>>, next: A, timeout: nat)
    requires !CallerWaits(Run(Init(args), steps))
    ensures SuccessIsHonest(Run(Init(args), steps), next, timeout) <==> !Run(Init(args), steps).executed
  {
    var s := Run(Init(args), steps);
    var submit := Submit(next, timeout);
    var t := Next(s, submit);
    InvRun(args, steps);
    if s.executed {
      var u := Run(t, [Poll]);
      assert u == Next(Run(t, []), Poll) == Next(t, Poll);
      assert u.outcomes[|s.requests|].Success? && (|s.requests|, next) !in u.calls;
    } else {
      forall more: seq<Step<A>> | |Run(t, more).outcomes| > |s.requests| && Run(t, more).outcomes[|s.requests|].Success?
        ensures (|s.requests|, next) in Run(t, more).calls
      {
        RunConcat(Init(args), steps, [submit]);
        assert Run(s, [submit]) == Next(Run(s, []), submit) == t;
        RunConcat(Init(args), steps + [submit], more);
        HistoryGrows(t, more);
        assert Run(t, more).requests[|s.requests|] == Request(next, true);
        SuccessMeansRunOnce(args, steps + [submit] + more, |s.requests|);
      }
    }
  }

  // ---- Timeouts ----

  // What stays true of the request that is answered next.
  lemma {:induction false} StillWaiting<A>(s: State<A>, more: seq<Step<A>>)
    requires CallerWaits(s) && |s.requests| == |s.outcomes| + 1
    ensures var u := Run(s, more);
      && |u.outcomes| >= |s.outcomes| && (s.executed ==> u.executed)
      && (|u.outcomes| == |s.outcomes| ==> u.timeout == s.timeout && |u.requests| == |s.requests|)
      && (|u.outcomes| > |s.outcomes| && (s.executed || s.timeout == 0) ==> u.outcomes[|s.outcomes|].Success?)
  {
    if more != [] {
      StillWaiting(s, more[..|more| - 1]);
      StepGrows(Run(s, more[..|more| - 1]), more[|more| - 1]);
    }
  }

  ghost predicate MayTimeOut<A(!new)>(s: State<A>, args: A, timeout: nat) {
    exists more: seq<Step<A>> ::
      var u := Run(Next(s, Submit(args, timeout)), more);
      |u.outcomes| > |s.requests| && u.outcomes[|s.requests|].Timeout?
  }

  // The next request can be answered with Timeout if and only if it has a time limit and
  // no request has been carried out before.
  lemma TimesOutExactly<A(!new)>(args: A, steps: seq<Step<A>>, next: A, timeout: nat)
    requires !CallerWaits(Run(Init(args), steps))
    ensures MayTimeOut(Run(Init(args), steps), next, timeout) <==> timeout > 0 && !Run(Init(args), steps).executed
  {
    var s := Run(Init(args), steps);
    var t := Next(s, Submit(next, timeout));
    InvRun(args, steps);
    if timeout > 0 && !s.executed {
      var u := Run(t, [Poll]);
      assert u == Next(Run(t, []), Poll) == Next(t, Poll);
      assert u.outcomes[|s.requests|].Timeout?;
    } else {
      forall more: seq<Step<A>>
        ensures !(|Run(t, more).outcomes| > |s.requests| && Run(t, more).outcomes[|s.requests|].Timeout?)
      {
        StillWaiting(t, more);
      }
    }
  }
}
