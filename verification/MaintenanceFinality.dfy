/**
 * When the status of a maintenance run is final: exactly when neither the run's own FinishRun nor a
 * pending Cancel can still write another one.
 */
module MaintenanceFinality {
  import opened MaintenanceLocks
  import opened MaintenanceProtocol
  import opened MaintenanceLaws

  // The call that stored the row is gone, or has stored its outcome, or will store the status the row has.
  predicate OwnWriteAgrees(s: State, runId: string)
    requires runId in s.rows
  {
    && runId in s.jobs && s.jobs[runId] < s.next
    && (s.jobs[runId] in s.calls ==>
          var pc := s.calls[s.jobs[runId]].pc;
          pc.Finished? || (pc.Returned? && pc.outcome == s.rows[runId].status))
  }

  // No Cancel of the row stands between reading it as running and signalling a job.
  predicate NoForceAhead(s: State, runId: string) {
    forall c :: c in s.cancels && s.cancels[c].runId == runId ==> s.cancels[c].FoundJob?
  }

  predicate Final(s: State, runId: string) {
    && runId in s.rows && s.rows[runId].status != Running && OwnWriteAgrees(s, runId)
    && (s.rows[runId].status == Canceled || NoForceAhead(s, runId))
  }

  // The row has its status after every continuation, crashes and restarts included.
  ghost predicate NeverChanges(s: State, runId: string)
    requires runId in s.rows
  {
    forall steps :: ValidRun(s, steps) ==> RowKept(s, RunOf(s, steps), runId)
  }

  predicate RowKept(s: State, t: State, runId: string)
    requires runId in s.rows
  {
    runId in t.rows && t.rows[runId] == s.rows[runId]
  }

  // ----- A final status stays -----

  lemma FinalDuringCalls(s: State, step: Step, runId: string)
    requires RowsMatchCalls(s) && Enabled(s, step) && Final(s, runId)
    requires OpensCall(step) || RewritesLock(step) || step.ActionReturns?
    ensures Final(Apply(s, step), runId) && RowKept(s, Apply(s, step), runId)
  {
  }

  lemma FinalDuringFinish(s: State, call: nat, stored: bool, runId: string)
    requires RowsMatchCalls(s) && Enabled(s, FinishRun(call, stored)) && Final(s, runId)
    ensures var t := Apply(s, FinishRun(call, stored)); Final(t, runId) && RowKept(s, t, runId)
  {
  }

  lemma FinalDuringCancels(s: State, step: Step, runId: string)
    requires RowsMatchCalls(s) && Enabled(s, step) && Final(s, runId)
    requires !OpensCall(step) && !RewritesLock(step) && !AdvancesCall(step)
    ensures Final(Apply(s, step), runId) && RowKept(s, Apply(s, step), runId)
  {
    if step.CancelForces? && s.rows[runId].status != Canceled {
      assert s.cancels[step.cancel].runId != runId;
    }
  }

  lemma FinalStep(s: State, step: Step, runId: string)
    requires RowsMatchCalls(s) && Enabled(s, step) && Final(s, runId)
    ensures Final(Apply(s, step), runId) && RowKept(s, Apply(s, step), runId)
  {
    hide Final, RowsMatchCalls, Enabled, Apply, RowKept;
    if OpensCall(step) || RewritesLock(step) || step.ActionReturns? {
      FinalDuringCalls(s, step, runId);
    } else if step.FinishRun? {
      FinalDuringFinish(s, step.call, step.stored, runId);
    } else {
      FinalDuringCancels(s, step, runId);
    }
  }

  lemma {:induction false} FinalStays(s: State, steps: seq<Step>, runId: string)
    requires Inv(s) && ValidRun(s, steps) && Final(s, runId)
    ensures RowKept(s, RunOf(s, steps), runId)
    decreases |steps|
  {
    hide Enabled, Apply, OwnWriteAgrees, NoForceAhead, LocksMatchCalls, CallsAreOlder, RunningRowsHaveOwners,
         CancelsAimRight, OrphansAreDone, DownIsEmpty, RowsMatchCalls;
    if steps != [] {
      StepKeepsInv(s, steps[0]);
      FinalStep(s, steps[0], runId);
      FinalStays(Apply(s, steps[0]), steps[1..], runId);
    }
  }

  // ----- Any other status can change -----

  ghost predicate CanChange(s: State, runId: string)
    requires runId in s.rows
  {
    exists steps :: ValidRun(s, steps) && !RowKept(s, RunOf(s, steps), runId)
  }

  // A step that changes the row, or leaves it where it can still change.
  lemma StepToChange(s: State, step: Step, runId: string)
    requires runId in s.rows && Enabled(s, step)
    requires RowKept(s, Apply(s, step), runId) ==> CanChange(Apply(s, step), runId)
    ensures CanChange(s, runId)
  {
    hide Enabled, Apply;
    var t := Apply(s, step);
    if RowKept(s, t, runId) {
      var steps :| ValidRun(t, steps) && !RowKept(t, RunOf(t, steps), runId);
      var longer := [step] + steps;
      assert longer[1..] == steps;
      assert ValidRun(s, longer) && RunOf(s, longer) == RunOf(t, steps);
    } else {
      assert ValidRun(t, []);
      assert [step][1..] == [];
      assert ValidRun(s, [step]) && RunOf(s, [step]) == t;
    }
  }

  lemma RunningChanges(s: State, runId: string)
    requires runId in s.rows && s.rows[runId].status == Running
    ensures CanChange(s, runId)
  {
    hide CanChange;
    if s.up {
      StepToChange(Apply(s, Crash), Start(true), runId);
      StepToChange(s, Crash, runId);
    } else {
      StepToChange(s, Start(true), runId);
    }
  }

  // An action result that makes execute store another status than the row has.
  function OtherResult(status: Status): ActionResult {
    if status == Failed then CanceledError else OtherError
  }

  // The row's own call is still to store an outcome that differs from the status.
  lemma ExecutingChanges(s: State, call: nat, runId: string)
    requires InFlight(s, call) && runId in s.rows && s.calls[call].pc == Executing(runId)
    ensures CanChange(s, runId)
  {
    hide CanChange;
    var result := ActionReturns(call, OtherResult(s.rows[runId].status));
    StepToChange(Apply(s, result), FinishRun(call, true), runId);
    StepToChange(s, result, runId);
  }

  lemma OwnWriteChanges(s: State, runId: string)
    requires Inv(s) && runId in s.rows && s.rows[runId].status != Running && !OwnWriteAgrees(s, runId)
    ensures CanChange(s, runId)
  {
    hide CanChange, LocksMatchCalls, CallsAreOlder, CancelsAimRight, OrphansAreDone, RunningRowsHaveOwners;
    var call := s.jobs[runId];
    assert RowOf(s.calls[call].pc).value == runId;
    match s.calls[call].pc
    case Inserted(_) =>
      ExecutingChanges(Apply(s, BindRunId(call)), call, runId);
      StepToChange(s, BindRunId(call), runId);
    case Executing(_) => ExecutingChanges(s, call, runId);
    case Returned(_, _, _) => StepToChange(s, FinishRun(call, true), runId);
  }

  // A Cancel that found no live job forces the row.
  lemma ForceChanges(s: State, c: nat, runId: string)
    requires s.up && runId in s.rows && s.rows[runId].status != Canceled
    requires c in s.cancels && s.cancels[c] == NoLiveJob(runId)
    ensures CanChange(s, runId)
  {
    hide CanChange;
    StepToChange(s, CancelForces(c, true), runId);
  }

  // Once the row's call is gone, its id is in no lock.
  lemma GoneIsMissed(s: State, runId: string)
    requires LocksMatchCalls(s) && RowsMatchCalls(s) && runId in s.jobs && s.jobs[runId] !in s.calls
    ensures !HasRun(s.locks, runId)
  {
  }

  lemma MissChanges(s: State, c: nat, runId: string)
    requires LocksMatchCalls(s) && RowsMatchCalls(s) && s.up && runId in s.rows && s.rows[runId].status != Canceled
    requires s.jobs[runId] !in s.calls && c in s.cancels && s.cancels[c] == ReadRunning(runId)
    ensures CanChange(s, runId)
  {
    hide CanChange, HasRun;
    GoneIsMissed(s, runId);
    ForceChanges(Apply(s, CancelMisses(c)), c, runId);
    StepToChange(s, CancelMisses(c), runId);
  }

  lemma FinishedChanges(s: State, c: nat, runId: string)
    requires Inv(s) && s.up && runId in s.rows && s.rows[runId].status != Canceled
    requires s.jobs[runId] in s.calls && s.calls[s.jobs[runId]].pc.Finished?
    requires c in s.cancels && s.cancels[c] == ReadRunning(runId)
    ensures CanChange(s, runId)
  {
    var call := s.jobs[runId];
    hide CanChange, LocksMatchCalls, RowsMatchCalls, CallsAreOlder, CancelsAimRight, OrphansAreDone,
         RunningRowsHaveOwners, DownIsEmpty;
    StepKeepsInv(s, Unlock(call));
    MissChanges(Apply(s, Unlock(call)), c, runId);
    StepToChange(s, Unlock(call), runId);
  }

  lemma PendingCancelChanges(s: State, c: nat, runId: string)
    requires Inv(s) && s.up && runId in s.rows && s.rows[runId].status != Canceled && OwnWriteAgrees(s, runId)
    requires c in s.cancels && s.cancels[c].runId == runId && !s.cancels[c].FoundJob?
    ensures CanChange(s, runId)
  {
    hide CanChange, LocksMatchCalls, CallsAreOlder, CancelsAimRight, OrphansAreDone, RunningRowsHaveOwners, DownIsEmpty;
    var call := s.jobs[runId];
    if s.cancels[c].NoLiveJob? {
      ForceChanges(s, c, runId);
    } else if call !in s.calls {
      MissChanges(s, c, runId);
    } else if s.calls[call].pc.Finished? {
      FinishedChanges(s, c, runId);
    } else {
      assert RowOf(s.calls[call].pc).value == runId;
      StepKeepsInv(s, FinishRun(call, true));
      FinishedChanges(Apply(s, FinishRun(call, true)), c, runId);
      StepToChange(s, FinishRun(call, true), runId);
    }
  }

  lemma NotFinalChanges(s: State, runId: string)
    requires Inv(s) && runId in s.rows && !Final(s, runId)
    ensures CanChange(s, runId)
  {
    hide CanChange, LocksMatchCalls, RowsMatchCalls, CallsAreOlder, CancelsAimRight, OrphansAreDone,
         RunningRowsHaveOwners, OwnWriteAgrees;
    if s.rows[runId].status == Running {
      RunningChanges(s, runId);
    } else if !OwnWriteAgrees(s, runId) {
      OwnWriteChanges(s, runId);
    } else {
      var c :| c in s.cancels && s.cancels[c].runId == runId && !s.cancels[c].FoundJob?;
      PendingCancelChanges(s, c, runId);
    }
  }

  /**
   * The status of a row never changes again exactly when it is not running, the row's own call is gone
   * or writes nothing else, and the row is canceled or no Cancel of it can still force it.
   */
  lemma FinalIff(s: State, runId: string)
    requires Inv(s) && runId in s.rows
    ensures NeverChanges(s, runId) <==> Final(s, runId)
  {
    hide Inv, Final, RowKept;
    if Final(s, runId) {
      forall steps | ValidRun(s, steps)
        ensures RowKept(s, RunOf(s, steps), runId)
      {
        FinalStays(s, steps, runId);
      }
    } else {
      NotFinalChanges(s, runId);
    }
  }
}
