/**
 * Which status a maintenance run ends with, and that every run can end: what a status of a stored row
 * tells about the action, in every reachable state.
 */
module MaintenanceOutcomes {
  import opened Wrappers
  import opened MaintenanceLocks
  import opened MaintenanceProtocol
  import opened MaintenanceLaws

  // ----- Status and cause -----

  // The status a cause leads to.
  predicate Tells(status: Status, cause: Cause) {
    match status
    case Running => cause.Inserting?
    case Success => cause == Reported(Clean, false)
    case Failed => cause.Interrupted? || (cause.Reported? && cause.result.OtherError?)
    case Canceled => || cause.Forced? || (cause.Reported? && cause.result.CanceledError?)
                     || cause == Reported(Clean, true)
  }

  // A cancellation was asked for.
  predicate Asked(s: State, runId: string, cause: Cause) {
    cause.Forced? || (cause.Reported? && cause.cancelled) ==> runId in s.requested
  }

  predicate StatusesTold(s: State) {
    && s.causes.Keys == s.rows.Keys
    && forall runId :: runId in s.rows ==>
         Tells(s.rows[runId].status, s.causes[runId]) && Asked(s, runId, s.causes[runId])
  }

  predicate OutcomesTold(s: State) {
    forall call :: call in s.calls && s.calls[call].pc.Returned? ==>
      var pc := s.calls[call].pc;
      pc.cause.Reported? && Tells(pc.outcome, pc.cause) && Asked(s, pc.runId, pc.cause)
  }

  predicate Told(s: State) {
    StatusesTold(s) && OutcomesTold(s)
  }

  lemma ToldOpening(s: State, step: Step)
    requires RowsMatchCalls(s) && Told(s) && Enabled(s, step) && OpensCall(step)
    ensures Told(Apply(s, step))
  {
  }

  lemma ToldReturning(s: State, call: nat, result: ActionResult)
    requires CancelsAimRight(s) && Told(s) && Enabled(s, ActionReturns(call, result))
    ensures Told(Apply(s, ActionReturns(call, result)))
  {
  }

  lemma ToldFinishing(s: State, call: nat, stored: bool)
    requires RowsMatchCalls(s) && Told(s) && Enabled(s, FinishRun(call, stored))
    ensures Told(Apply(s, FinishRun(call, stored)))
  {
  }

  lemma ToldRewriting(s: State, step: Step)
    requires Told(s) && Enabled(s, step) && RewritesLock(step)
    ensures Told(Apply(s, step))
  {
  }

  lemma ToldForcing(s: State, cancel: nat, stored: bool)
    requires RowsMatchCalls(s) && CancelsAimRight(s) && Told(s) && Enabled(s, CancelForces(cancel, stored))
    ensures Told(Apply(s, CancelForces(cancel, stored)))
  {
  }

  lemma ToldCancelling(s: State, step: Step)
    requires Told(s) && Enabled(s, step) && CancelStep(step) && !step.CancelForces?
    ensures Told(Apply(s, step))
  {
  }

  lemma ToldCrashing(s: State)
    requires Told(s) && Enabled(s, Crash)
    ensures Told(Apply(s, Crash))
  {
  }

  lemma ToldStarting(s: State, marked: bool)
    requires Told(s) && Enabled(s, Start(marked))
    ensures Told(Apply(s, Start(marked)))
  {
  }

  lemma ToldStep(s: State, step: Step)
    requires Inv(s) && Told(s) && Enabled(s, step)
    ensures Told(Apply(s, step))
  {
    hide Told, Enabled, Apply, LocksMatchCalls, RowsMatchCalls, CallsAreOlder, RunningRowsHaveOwners, CancelsAimRight,
         OrphansAreDone, DownIsEmpty;
    if OpensCall(step) {
      ToldOpening(s, step);
    } else if RewritesLock(step) {
      ToldRewriting(s, step);
    } else {
      match step
      case ActionReturns(call, result) => ToldReturning(s, call, result);
      case FinishRun(call, stored) => ToldFinishing(s, call, stored);
      case CancelForces(cancel, stored) => ToldForcing(s, cancel, stored);
      case Crash => ToldCrashing(s);
      case Start(marked) => ToldStarting(s, marked);
      case _ => ToldCancelling(s, step);
    }
  }

  lemma {:induction false} RunKeepsTold(s: State, steps: seq<Step>)
    requires Inv(s) && Told(s) && ValidRun(s, steps)
    ensures Told(RunOf(s, steps))
    decreases |steps|
  {
    hide Inv, Told, Enabled, Apply;
    if steps != [] {
      StepKeepsInv(s, steps[0]);
      ToldStep(s, steps[0]);
      RunKeepsTold(Apply(s, steps[0]), steps[1..]);
    }
  }

  lemma ReachableIsTold(s: State)
    ensures Reachable(s) ==> Told(s)
  {
    if Reachable(s) {
      var steps :| ValidRun(INIT, steps) && RunOf(INIT, steps) == s;
      assert Inv(INIT) && Told(INIT);
      RunKeepsTold(INIT, steps);
    }
  }

  /**
   * In every reachable state a row's status tells which write it comes from, and each kind of write leaves
   * its own status: success is an action without error on a live context, failure an action's error or a
   * restart, cancellation a Cancel without a live job, an action that reports it, or one without error on a
   * cancelled context.
   */
  lemma StatusTellsCause(s: State, runId: string)
    ensures Reachable(s) && runId in s.rows ==>
              runId in s.causes
              && var status, cause := s.rows[runId].status, s.causes[runId];
                 && (status == Running <==> cause == Inserting)
                 && (status == Success <==> cause == Reported(Clean, false))
                 && (status == Failed <==> cause == Interrupted || (cause.Reported? && cause.result == OtherError))
                 && (status == Canceled <==> || cause == Forced || cause == Reported(Clean, true)
                                             || (cause.Reported? && cause.result == CanceledError))
  {
    hide Reachable, OutcomesTold;
    ReachableIsTold(s);
  }

  /** A run is canceled only if a Cancel was accepted for it or its action itself reported a cancellation. */
  lemma CanceledWasAsked(s: State, runId: string)
    ensures Reachable(s) && runId in s.rows && s.rows[runId].status == Canceled ==>
              runId in s.requested || (s.causes.Keys == s.rows.Keys && s.causes[runId].Reported?
                                       && s.causes[runId].result == CanceledError)
  {
    hide Reachable, OutcomesTold;
    ReachableIsTold(s);
  }

  // ----- From the action to the row -----

  // The state after the action of a call returned and its outcome was stored.
  function Ended(s: State, call: nat, result: ActionResult): State
    requires Enabled(s, ActionReturns(call, result))
  {
    var t := Apply(s, ActionReturns(call, result));
    assert Enabled(t, FinishRun(call, true));
    Apply(t, FinishRun(call, true))
  }

  /**
   * What an action's result does to the row of its call: success exactly for no error on a live context,
   * failure exactly for an error that is no cancellation, and no other row changes.
   */
  lemma ResultDecidesStatus(s: State, call: nat, result: ActionResult)
    requires Enabled(s, ActionReturns(call, result))
    ensures var t, runId := Ended(s, call, result), s.calls[call].pc.runId;
            Reachable(s) ==>
              && runId in t.rows && t.rows[runId].key == s.calls[call].key
              && (t.rows[runId].status == Success <==> result == Clean && call !in s.cancelled)
              && (t.rows[runId].status == Failed <==> result == OtherError)
              && (t.rows[runId].status == Canceled <==>
                    result == CanceledError || (result == Clean && call in s.cancelled))
              && t.rows - {runId} == s.rows - {runId}
              && t.causes - {runId} == s.causes - {runId} && t.causes[runId] == Reported(result, call in s.cancelled)
  {
    hide Reachable, CancelsAimRight, LocksMatchCalls, RunningRowsHaveOwners, CallsAreOlder, OrphansAreDone, DownIsEmpty;
    ReachableIsInv(s);
  }

  // Of the calls in flight afterwards, exactly the one a Cancel signals has its context cancelled by the step.
  predicate CancelsOnly(s: State, step: Step, call: nat)
    requires Enabled(s, step)
  {
    var t := Apply(s, step);
    call in t.calls ==>
      (call in t.cancelled <==> call in s.cancelled || (step.CancelSignals? && s.cancels[step.cancel].ctx == call))
  }

  lemma ContextDuringCalls(s: State, step: Step, call: nat)
    requires CancelsAimRight(s) && Enabled(s, step) && (OpensCall(step) || AdvancesCall(step) || RewritesLock(step))
    ensures CancelsOnly(s, step, call)
  {
  }

  lemma ContextDuringOthers(s: State, step: Step, call: nat)
    requires Enabled(s, step) && !OpensCall(step) && !AdvancesCall(step) && !RewritesLock(step)
    ensures CancelsOnly(s, step, call)
  {
  }

  /** The context of a live call is cancelled by exactly one kind of step: a Cancel that found this very call. */
  lemma ContextCancelledIff(s: State, step: Step, call: nat)
    requires Enabled(s, step)
    ensures var t := Apply(s, step);
            Reachable(s) && call in t.calls ==>
              (call in t.cancelled <==>
                 call in s.cancelled || (step.CancelSignals? && s.cancels[step.cancel].ctx == call))
  {
    hide Reachable, RowsMatchCalls, LocksMatchCalls, RunningRowsHaveOwners, OrphansAreDone, DownIsEmpty,
         CallsAreOlder, CancelsAimRight, Enabled, Apply;
    ReachableIsInv(s);
    if Reachable(s) {
      if OpensCall(step) || AdvancesCall(step) || RewritesLock(step) {
        ContextDuringCalls(s, step, call);
      } else {
        ContextDuringOthers(s, step, call);
      }
    }
  }

  /** A restart that can write fails exactly the rows that were running, and leaves none running. */
  lemma RestartFailsRunning(s: State)
    requires Enabled(s, Start(true))
    ensures var t := Apply(s, Start(true));
            && t.up && t.rows.Keys == s.rows.Keys
            && forall runId :: runId in s.rows ==>
                 t.rows[runId] ==
                 if s.rows[runId].status == Running then Row(s.rows[runId].key, Failed) else s.rows[runId]
  {
  }

  // ----- Every call can end -----

  // How many steps a call is from its end.
  function StepsLeft(pc: Pc): nat {
    match pc
    case Holding => 5
    case Inserted(_) => 4
    case Executing(_) => 3
    case Returned(_, _, _) => 2
    case Finished(_) => 1
    case InsertFailed => 1
  }

  predicate OwnStep(step: Step, call: nat) {
    match step
    case InsertRow(c, _) => c == call
    case InsertFails(c) => c == call
    case Abandon(c) => c == call
    case BindRunId(c) => c == call
    case ActionReturns(c, _) => c == call
    case FinishRun(c, _) => c == call
    case Unlock(c) => c == call
    case _ => false
  }

  // Some next step of the call, whatever its store writes come to.
  function NextStep(s: State, call: nat, runId: string, insertFails: bool, result: ActionResult, stored: bool): Step
    requires call in s.calls
  {
    match s.calls[call].pc
    case Holding => if insertFails then InsertFails(call) else InsertRow(call, runId)
    case InsertFailed => Abandon(call)
    case Inserted(_) => BindRunId(call)
    case Executing(_) => ActionReturns(call, result)
    case Returned(_, _, _) => FinishRun(call, stored)
    case Finished(_) => Unlock(call)
  }

  predicate AtEnd(pc: Pc) {
    pc.Finished? || pc.InsertFailed?
  }

  lemma LastStep(s: State, call: nat)
    requires InFlight(s, call) && AtEnd(s.calls[call].pc)
    ensures var step := if s.calls[call].pc.Finished? then Unlock(call) else Abandon(call);
            && Enabled(s, step)
            && call !in Apply(s, step).calls && s.calls[call].key !in Apply(s, step).locks
  {
  }

  // The step takes the call nearer to its end.
  predicate Approaches(s: State, step: Step, call: nat) {
    && InFlight(s, call) && Enabled(s, step) && OwnStep(step, call)
    && var t := Apply(s, step);
       && InFlight(t, call) && StepsLeft(t.calls[call].pc) < StepsLeft(s.calls[call].pc)
       && t.calls[call].key == s.calls[call].key && !t.calls[call].pc.Holding?
  }

  lemma InsertApproaches(s: State, call: nat, runId: string)
    requires InFlight(s, call) && s.calls[call].pc.Holding? && runId != "" && runId !in s.rows
    ensures Approaches(s, InsertRow(call, runId), call) && Approaches(s, InsertFails(call), call)
  {
  }

  lemma BindApproaches(s: State, call: nat)
    requires InFlight(s, call) && s.calls[call].pc.Inserted?
    ensures Approaches(s, BindRunId(call), call)
  {
  }

  lemma ReturnApproaches(s: State, call: nat, result: ActionResult)
    requires InFlight(s, call) && s.calls[call].pc.Executing?
    ensures Approaches(s, ActionReturns(call, result), call)
  {
  }

  lemma FinishApproaches(s: State, call: nat, stored: bool)
    requires InFlight(s, call) && s.calls[call].pc.Returned?
    ensures Approaches(s, FinishRun(call, stored), call)
  {
  }

  lemma StepApproachesEnd(s: State, call: nat, runId: string, insertFails: bool, result: ActionResult, stored: bool)
    requires InFlight(s, call) && !AtEnd(s.calls[call].pc)
    requires s.calls[call].pc.Holding? ==> runId != "" && runId !in s.rows
    ensures Approaches(s, NextStep(s, call, runId, insertFails, result, stored), call)
  {
    hide Approaches;
    match s.calls[call].pc
    case Holding => InsertApproaches(s, call, runId);
    case Inserted(_) => BindApproaches(s, call);
    case Executing(_) => ReturnApproaches(s, call, result);
    case Returned(_, _, _) => FinishApproaches(s, call, stored);
  }

  /**
   * No call is ever stuck: from every reachable state it can go on by its own steps alone, whether its
   * insert and its FinishRun succeed or fail and whatever its action returns, until it is gone and its
   * lock is free.
   */
  lemma {:induction false} EveryCallCanEnd(s: State, call: nat, runId: string, insertFails: bool,
                                           result: ActionResult, stored: bool) returns (steps: seq<Step>)
    requires InFlight(s, call) && (s.calls[call].pc.Holding? ==> runId != "" && runId !in s.rows)
    ensures ValidRun(s, steps) && 0 < |steps| <= StepsLeft(s.calls[call].pc) <= 5
    ensures steps[0] == NextStep(s, call, runId, insertFails, result, stored)
    ensures forall i :: 0 <= i < |steps| ==> OwnStep(steps[i], call)
    ensures call !in RunOf(s, steps).calls && s.calls[call].key !in RunOf(s, steps).locks
    decreases StepsLeft(s.calls[call].pc)
  {
    hide Enabled, Apply;
    var step := NextStep(s, call, runId, insertFails, result, stored);
    if AtEnd(s.calls[call].pc) {
      LastStep(s, call);
      steps := [step];
      assert steps[1..] == [] && RunOf(s, steps) == Apply(s, step);
    } else {
      StepApproachesEnd(s, call, runId, insertFails, result, stored);
      var rest := EveryCallCanEnd(Apply(s, step), call, runId, insertFails, result, stored);
      steps := [step] + rest;
      assert steps[1..] == rest;
    }
  }
}
