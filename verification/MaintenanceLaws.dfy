/**
 * What the maintenance protocol guarantees in every reachable state and along every run,
 * whatever the interleaving, failed writes, crashes and restarts.
 */
module MaintenanceLaws {
  import Wrappers
  import opened MaintenanceLocks
  import opened MaintenanceProtocol

  // ----- The invariant holds on every run -----

  lemma {:induction false} RunKeepsInv(s: State, steps: seq<Step>)
    requires Inv(s) && ValidRun(s, steps)
    ensures Inv(RunOf(s, steps))
    decreases |steps|
  {
    hide Inv, Enabled, Apply;
    if steps != [] {
      StepKeepsInv(s, steps[0]);
      RunKeepsInv(Apply(s, steps[0]), steps[1..]);
    }
  }

  lemma ReachableIsInv(s: State)
    ensures Reachable(s) ==> Inv(s)
  {
    if Reachable(s) {
      var steps :| ValidRun(INIT, steps) && RunOf(INIT, steps) == s;
      assert Inv(INIT);
      RunKeepsInv(INIT, steps);
    }
  }

  /** At most one call in flight holds a key, and the lock table is exactly the keys of the calls in flight. */
  lemma MutualExclusion(s: State)
    ensures Reachable(s) ==>
              forall a, b :: a in s.calls && b in s.calls && s.calls[a].key == s.calls[b].key ==> a == b
    ensures Reachable(s) ==>
              forall key :: key in s.locks <==> exists call :: call in s.calls && s.calls[call].key == key
    ensures Reachable(s) && s.calls == map[] ==> s.locks == map[]
  {
    hide RowsMatchCalls, RunningRowsHaveOwners, CancelsAimRight, CallsAreOlder, Reachable;
    ReachableIsInv(s);
    if Reachable(s) {
      forall a, b | a in s.calls && b in s.calls && s.calls[a].key == s.calls[b].key
        ensures a == b
      {
        assert s.locks[s.calls[a].key].ctx == a;
      }
    }
  }

  /**
   * What isLocked tells its caller: the key of a request is held exactly while a call for it is in
   * flight, and exactly then a RunNow of that request is refused.
   */
  lemma LockedIffRefused(s: State, action: string, libraryId: string)
    ensures Reachable(s) && s.up ==>
              var key := LockKey(action, libraryId);
              && (key in s.locks <==> exists call :: call in s.calls && s.calls[call].key == key)
              && (key in s.locks <==> Apply(s, RunNow(key)).calls == s.calls)
  {
    hide RowsMatchCalls, RunningRowsHaveOwners, CancelsAimRight, Reachable, LockKey;
    ReachableIsInv(s);
    if Reachable(s) && s.up {
      var key := LockKey(action, libraryId);
      if key !in s.locks {
        assert s.next in Apply(s, RunNow(key)).calls && s.next !in s.calls;
      }
    }
  }

  /** Binding a run id or releasing a lock only ever touches the entry of the call that does it. */
  lemma StepsTouchOwnEntry(s: State, step: Step)
    requires Enabled(s, step) && RewritesLock(step)
    ensures Reachable(s) ==>
              var t, call := Apply(s, step), step.call;
              && s.calls[call].key in s.locks && s.locks[s.calls[call].key].ctx == call
              && (forall key :: key in s.locks && s.locks[key].ctx != call ==>
                    key in t.locks && t.locks[key] == s.locks[key])
              && (forall key :: key in t.locks ==> key in s.locks && t.locks[key].ctx == s.locks[key].ctx)
  {
    hide RowsMatchCalls, RunningRowsHaveOwners, CancelsAimRight, CallsAreOlder, Reachable;
    ReachableIsInv(s);
  }

  // ----- Running rows -----

  predicate RunningRow(s: State, runId: string) {
    runId in s.rows && s.rows[runId].status == Running
  }

  // The call that inserted the row is in flight, past the insert and before its FinishRun took effect.
  predicate OwnerInFlight(s: State, runId: string) {
    && runId in s.jobs && s.jobs[runId] in s.calls
    && var call := s.calls[s.jobs[runId]];
       && runId in s.rows && call.key == s.rows[runId].key && RowOf(call.pc) == Wrappers.Some(runId)
       && !call.pc.Finished?
       && call.key in s.locks && s.locks[call.key].ctx == s.jobs[runId]
  }

  /** A running row lacks an owner in flight exactly when a failed FinishRun or a failed Start left it behind. */
  lemma RunningRowsAreOwned(s: State, runId: string)
    ensures Reachable(s) && s.up && RunningRow(s, runId) ==> (OwnerInFlight(s, runId) <==> runId !in s.orphans)
  {
    hide CancelsAimRight, Reachable;
    ReachableIsInv(s);
  }

  /** Two running rows of one key: at least one was left behind by a failed write. */
  lemma OneLiveRowPerKey(s: State, a: string, b: string)
    ensures Reachable(s) && s.up && RunningRow(s, a) && RunningRow(s, b) && s.rows[a].key == s.rows[b].key && a != b ==>
              a in s.orphans || b in s.orphans
  {
    hide Reachable;
    RunningRowsAreOwned(s, a);
    RunningRowsAreOwned(s, b);
  }

  /** While every FinishRun and Start succeeds, each key has at most one running row and its owner holds the key. */
  lemma OneRunningRowPerKey(s: State, a: string, b: string)
    ensures Reachable(s) && s.up && s.orphans == {} && RunningRow(s, a) ==>
              OwnerInFlight(s, a) && (RunningRow(s, b) && s.rows[a].key == s.rows[b].key ==> a == b)
  {
    hide Reachable;
    RunningRowsAreOwned(s, a);
    OneLiveRowPerKey(s, a, b);
  }

  // ----- Rows only ever leave the running status -----

  predicate RowsGrow(s: State, t: State) {
    forall runId :: runId in s.rows ==>
      runId in t.rows && t.rows[runId].key == s.rows[runId].key && (RunningRow(t, runId) ==> RunningRow(s, runId))
  }

  lemma CallsGrowRows(s: State, step: Step)
    requires CallsAreOlder(s) && Enabled(s, step) && (OpensCall(step) || AdvancesCall(step))
    ensures RowsGrow(s, Apply(s, step))
  {
    if step.FinishRun? {
      assert s.calls[step.call].pc.outcome != Running;
    }
  }

  lemma OthersGrowRows(s: State, step: Step)
    requires Enabled(s, step) && !OpensCall(step) && !AdvancesCall(step)
    ensures RowsGrow(s, Apply(s, step))
  {
  }

  lemma StepGrowsRows(s: State, step: Step)
    requires CallsAreOlder(s) && Enabled(s, step)
    ensures RowsGrow(s, Apply(s, step))
  {
    hide CallsAreOlder, Enabled, Apply, RowsGrow;
    if OpensCall(step) || AdvancesCall(step) {
      CallsGrowRows(s, step);
    } else {
      OthersGrowRows(s, step);
    }
  }

  /** Along every run rows keep their key, never disappear, and never return to running. */
  lemma {:induction false} RowsNeverRunAgain(s: State, steps: seq<Step>)
    ensures Inv(s) && ValidRun(s, steps) ==> RowsGrow(s, RunOf(s, steps))
    decreases |steps|
  {
    if Inv(s) && ValidRun(s, steps) && steps != [] {
      hide Enabled, Apply, CallsAreOlder, LocksMatchCalls, RowsMatchCalls, RunningRowsHaveOwners, CancelsAimRight;
      StepKeepsInv(s, steps[0]);
      StepGrowsRows(s, steps[0]);
      RowsNeverRunAgain(Apply(s, steps[0]), steps[1..]);
    }
  }

  // ----- Cancellation -----

  /** A job found for a run id is that run's own, and a live job is cancelled only if its own run was asked to stop. */
  lemma CancelHitsOwnJob(s: State)
    ensures Reachable(s) ==>
              forall c :: c in s.cancels && s.cancels[c].FoundJob? ==>
                s.cancels[c].runId in s.jobs && s.cancels[c].ctx == s.jobs[s.cancels[c].runId]
    ensures Reachable(s) ==>
              forall call :: call in s.cancelled && call in s.calls ==>
                exists runId :: runId in s.requested && runId in s.jobs && s.jobs[runId] == call
  {
    hide LocksMatchCalls, RunningRowsHaveOwners, Reachable;
    ReachableIsInv(s);
    if Reachable(s) {
      forall call | call in s.cancelled && call in s.calls
        ensures exists runId :: runId in s.requested && runId in s.jobs && s.jobs[runId] == call
      {
        var runId := RowOf(s.calls[call].pc).value;
        assert s.jobs[runId] == call;
      }
    }
  }

  /** The lookup of a run id succeeds exactly while its call is in flight with the id bound. */
  lemma LookupFindsBoundJobs(s: State, runId: string)
    ensures Reachable(s) && runId in s.rows ==>
              (HasRun(s.locks, runId) <==> s.jobs.Keys == s.rows.Keys && s.jobs[runId] in s.calls
                                           && BoundId(s.calls[s.jobs[runId]].pc) == runId)
  {
    hide RunningRowsHaveOwners, CancelsAimRight, Reachable;
    ReachableIsInv(s);
    if Reachable(s) && runId in s.rows {
      if HasRun(s.locks, runId) {
        var key :| key in s.locks && s.locks[key].runId == runId;
        assert s.calls[s.locks[key].ctx].key == key;
      } else if s.jobs[runId] in s.calls {
        assert s.calls[s.jobs[runId]].key in s.locks;
      }
    }
  }

  /**
   * Cancel takes the "no live job" path for a row that is running and was not left behind exactly
   * when its call has stored the row but not yet bound the run id.
   */
  lemma LiveJobMissedIffUnbound(s: State, runId: string)
    ensures Reachable(s) && s.up && RunningRow(s, runId) && runId !in s.orphans ==>
              OwnerInFlight(s, runId)
              && (!HasRun(s.locks, runId) <==> s.calls[s.jobs[runId]].pc.Inserted?)
  {
    hide Reachable, HasRun;
    ReachableIsInv(s);
    RunningRowsAreOwned(s, runId);
    LookupFindsBoundJobs(s, runId);
  }

  // ----- Concrete runs: what the protocol does not guarantee -----

  lemma {:induction false} ExtendRun(s: State, steps: seq<Step>, step: Step)
    requires ValidRun(s, steps) && Enabled(RunOf(s, steps), step)
    ensures ValidRun(s, steps + [step]) && RunOf(s, steps + [step]) == Apply(RunOf(s, steps), step)
    decreases |steps|
  {
    hide Enabled, Apply;
    var longer := steps + [step];
    if steps == [] {
      assert longer[1..] == [];
      assert ValidRun(Apply(s, step), longer[1..]);
    } else {
      assert longer[1..] == steps[1..] + [step];
      ExtendRun(Apply(s, steps[0]), steps[1..], step);
    }
  }

  lemma Reach(s: State, step: Step) returns (t: State)
    requires Reachable(s) && Enabled(s, step)
    ensures t == Apply(s, step) && Reachable(t)
  {
    hide Enabled, Apply;
    var steps :| ValidRun(INIT, steps) && RunOf(INIT, steps) == s;
    ExtendRun(INIT, steps, step);
    t := Apply(s, step);
  }

  lemma InitIsReachable()
    ensures Reachable(INIT)
  {
    assert ValidRun(INIT, []) && RunOf(INIT, []) == INIT;
  }

  // The reachable state in which call 0 has stored row "a" under key "k".
  lemma RowStored() returns (s: State)
    ensures Reachable(s) && s.up && s.calls == map[0 := RunCall("k", Inserted("a"))] && s.next == 1
    ensures s.locks == map["k" := RunningJob("", 0)] && s.rows == map["a" := Row("k", Running)]
    ensures s.cancels == map[] && s.cancelled == {} && s.orphans == {}
  {
    InitIsReachable();
    s := Reach(INIT, RunNow("k"));
    s := Reach(s, InsertRow(0, "a"));
  }

  // The reachable state in which Cancel 7 has force-finished the row of call 0, which is executing.
  lemma LiveRowForced() returns (s: State)
    ensures Reachable(s) && s.up && s.rows == map["a" := Row("k", Canceled)]
    ensures s.calls == map[0 := RunCall("k", Executing("a"))] && s.cancelled == {}
  {
    hide Reachable;
    s := RowStored();
    s := Reach(s, CancelReads(7, "a"));
    s := Reach(s, CancelMisses(7));
    s := Reach(s, BindRunId(0));
    s := Reach(s, CancelForces(7, true));
  }

  /**
   * Between the insert and the binding of the run id, Cancel finds "no live job" and force-finishes
   * the row of a live call, which later overwrites the cancellation with success.
   */
  lemma CanceledRowTurnsSuccessful() returns (s: State, t: State)
    ensures Reachable(s) && Reachable(t)
    ensures s.rows == map["a" := Row("k", Canceled)] && s.calls == map[0 := RunCall("k", Executing("a"))]
    ensures t.rows == map["a" := Row("k", Success)]
  {
    hide Reachable;
    s := LiveRowForced();
    t := Reach(s, ActionReturns(0, Clean));
    t := Reach(t, FinishRun(0, true));
  }

  // The reachable state in which call 0 has stored its row and bound the run id.
  lemma RowBound() returns (s: State)
    ensures Reachable(s) && s.up && s.calls == map[0 := RunCall("k", Executing("a"))] && s.next == 1
    ensures s.locks == map["k" := RunningJob("a", 0)] && s.rows == map["a" := Row("k", Running)]
    ensures s.cancels == map[] && s.cancelled == {} && s.orphans == {}
  {
    hide Reachable;
    s := RowStored();
    s := Reach(s, BindRunId(0));
  }

  // The reachable state in which call 0 is done, its success stored, and Cancel 7 has read the row as running.
  lemma FinishedBehindCancel() returns (s: State)
    ensures Reachable(s) && s.up && s.rows == map["a" := Row("k", Success)]
    ensures s.calls == map[] && s.locks == map[] && s.cancels == map[7 := ReadRunning("a")]
  {
    hide Reachable;
    s := RowBound();
    s := Reach(s, CancelReads(7, "a"));
    s := Reach(s, ActionReturns(0, Clean));
    s := Reach(s, FinishRun(0, true));
    s := Reach(s, Unlock(0));
  }

  /** A Cancel that read the row before the job ended overwrites a stored success. */
  lemma SuccessfulRowTurnsCanceled() returns (s: State, t: State)
    ensures Reachable(s) && Reachable(t)
    ensures s.rows == map["a" := Row("k", Success)] && s.calls == map[] && s.locks == map[]
    ensures t.rows == map["a" := Row("k", Canceled)]
  {
    hide Reachable;
    s := FinishedBehindCancel();
    t := Reach(s, CancelMisses(7));
    t := Reach(t, CancelForces(7, true));
  }

  /** After a failed FinishRun the next run of the same key leaves two rows running. */
  lemma TwoRunningRowsAfterFailedFinish() returns (s: State)
    ensures Reachable(s) && s.up && s.orphans == {"a"}
    ensures s.rows == map["a" := Row("k", Running), "b" := Row("k", Running)]
  {
    hide Reachable;
    s := RowBound();
    s := Reach(s, ActionReturns(0, Clean));
    s := Reach(s, FinishRun(0, false));
    s := Reach(s, Unlock(0));
    s := Reach(s, RunNow("k"));
    s := Reach(s, InsertRow(1, "b"));
  }
}
