/**
 * The maintenance run protocol (internal/maintenance/service.go) as a state machine.
 *
 * Every mutex section and every store call of RunNow, execute, Cancel and Start is one atomic
 * step, and the steps of all calls interleave freely. A crash drops every call and the lock
 * table; rows survive it. Run ids are fresh because the store draws them at random.
 */
module MaintenanceProtocol {
  import opened Wrappers
  import opened MaintenanceLocks

  datatype Status = Running | Success | Failed | Canceled

  datatype Row = Row(key: string, status: Status)

  datatype ActionResult = Clean | CanceledError | OtherError

  // History: why a row has the status it has. `Reported` is an action's result and whether its context was cancelled.
  datatype Cause = Inserting | Reported(result: ActionResult, cancelled: bool) | Forced | Interrupted

  // Where a RunNow call, continued by its detached execute goroutine, stands.
  datatype Pc =
    | Holding                                   // tryLock succeeded
    | InsertFailed                              // the store refused the row
    | Inserted(runId: string)                   // row stored, run id not bound yet
    | Executing(runId: string)                  // run id bound, action running
    | Returned(runId: string, outcome: Status, cause: Cause) // action returned, FinishRun pending
    | Finished(runId: string)                   // FinishRun attempted, lock still held

  datatype RunCall = RunCall(key: string, pc: Pc)

  datatype CancelCall =
    | ReadRunning(runId: string)        // GetRun saw a running row
    | FoundJob(runId: string, ctx: nat) // the lock table had the run
    | NoLiveJob(runId: string)          // it had not: FinishRun(canceled) pending

  /**
   * `jobs`, `requested`, `orphans` and `causes` are history: which call inserted a row, for which rows a
   * Cancel was accepted, which rows a failed FinishRun or a failed Start left behind, and which write gave
   * a row its status.
   */
  datatype State = State(
    up: bool,
    locks: Locks,
    calls: map<nat, RunCall>,
    cancels: map<nat, CancelCall>,
    rows: map<string, Row>,
    cancelled: set<nat>,
    next: nat,
    jobs: map<string, nat>,
    requested: set<string>,
    orphans: set<string>,
    causes: map<string, Cause>)

  datatype Step =
    | RunNow(key: string)
    | InsertRow(call: nat, runId: string)
    | InsertFails(call: nat)
    | Abandon(call: nat)
    | BindRunId(call: nat)
    | ActionReturns(call: nat, result: ActionResult)
    | FinishRun(call: nat, stored: bool)
    | Unlock(call: nat)
    | CancelReads(cancel: nat, runId: string)
    | CancelLooksUp(cancel: nat, key: string)
    | CancelMisses(cancel: nat)
    | CancelSignals(cancel: nat)
    | CancelForces(cancel: nat, stored: bool)
    | Crash
    | Start(marked: bool)

  const INIT := State(true, map[], map[], map[], map[], {}, 0, map[], {}, {}, map[])

  predicate InFlight(s: State, call: nat) {
    s.up && call in s.calls
  }

  // The guard of each step: its call stands right before it, and lookups see what the state holds.
  predicate Enabled(s: State, step: Step) {
    match step
    case RunNow(key) => s.up
    case InsertRow(call, runId) => InFlight(s, call) && s.calls[call].pc.Holding? && runId != "" && runId !in s.rows
    case InsertFails(call) => InFlight(s, call) && s.calls[call].pc.Holding?
    case Abandon(call) => InFlight(s, call) && s.calls[call].pc.InsertFailed?
    case BindRunId(call) => InFlight(s, call) && s.calls[call].pc.Inserted?
    case ActionReturns(call, result) => InFlight(s, call) && s.calls[call].pc.Executing?
    case FinishRun(call, stored) => InFlight(s, call) && s.calls[call].pc.Returned?
    case Unlock(call) => InFlight(s, call) && s.calls[call].pc.Finished?
    case CancelReads(cancel, runId) =>
      s.up && cancel !in s.cancels && runId in s.rows && s.rows[runId].status == Running
    case CancelLooksUp(cancel, key) =>
      s.up && cancel in s.cancels && s.cancels[cancel].ReadRunning?
      && key in s.locks && s.locks[key].runId == s.cancels[cancel].runId
    case CancelMisses(cancel) =>
      s.up && cancel in s.cancels && s.cancels[cancel].ReadRunning? && !HasRun(s.locks, s.cancels[cancel].runId)
    case CancelSignals(cancel) => s.up && cancel in s.cancels && s.cancels[cancel].FoundJob?
    case CancelForces(cancel, stored) => s.up && cancel in s.cancels && s.cancels[cancel].NoLiveJob?
    case Crash => s.up
    case Start(marked) => !s.up
  }

  // The status execute records for an action result, given whether its context was cancelled.
  function Outcome(result: ActionResult, cancelled: bool): Status {
    match result
    case Clean => if cancelled then Canceled else Success
    case CanceledError => Canceled
    case OtherError => Failed
  }

  function SetPc(s: State, call: nat, pc: Pc): State
    requires call in s.calls
  {
    s.(calls := s.calls[call := s.calls[call].(pc := pc)])
  }

  function SetStatus(rows: map<string, Row>, runId: string, status: Status): map<string, Row> {
    if runId in rows then rows[runId := rows[runId].(status := status)] else rows
  }

  function MarkInterrupted(rows: map<string, Row>): map<string, Row> {
    map runId | runId in rows :: if rows[runId].status == Running then rows[runId].(status := Failed) else rows[runId]
  }

  function RunningRows(rows: map<string, Row>): set<string> {
    set runId | runId in rows && rows[runId].status == Running
  }

  function Apply(s: State, step: Step): State
    requires Enabled(s, step)
  {
    match step
    case RunNow(key) =>
      // A held lock is reported as a conflict and the call ends.
      if key in s.locks then s.(next := s.next + 1)
      else s.(locks := Locked(s.locks, key, s.next), calls := s.calls[s.next := RunCall(key, Holding)],
              next := s.next + 1)
    case InsertRow(call, runId) =>
      SetPc(s, call, Inserted(runId)).(rows := s.rows[runId := Row(s.calls[call].key, Running)],
                                       jobs := s.jobs[runId := call], causes := s.causes[runId := Inserting])
    case InsertFails(call) => SetPc(s, call, InsertFailed)
    case Abandon(call) => EndCall(s, call)
    case BindRunId(call) =>
      SetPc(s, call, Executing(s.calls[call].pc.runId)).(
        locks := Bound(s.locks, s.calls[call].key, s.calls[call].pc.runId))
    case ActionReturns(call, result) =>
      var cancelled := call in s.cancelled;
      SetPc(s, call, Returned(s.calls[call].pc.runId, Outcome(result, cancelled), Reported(result, cancelled)))
    case FinishRun(call, stored) =>
      var pc := s.calls[call].pc;
      if stored then SetPc(s, call, Finished(pc.runId)).(rows := SetStatus(s.rows, pc.runId, pc.outcome),
                                                         causes := s.causes[pc.runId := pc.cause])
      else SetPc(s, call, Finished(pc.runId)).(orphans := s.orphans + {pc.runId})
    case Unlock(call) => EndCall(s, call)
    case CancelReads(cancel, runId) =>
      s.(cancels := s.cancels[cancel := ReadRunning(runId)], requested := s.requested + {runId})
    case CancelLooksUp(cancel, key) =>
      s.(cancels := s.cancels[cancel := FoundJob(s.cancels[cancel].runId, s.locks[key].ctx)])
    case CancelMisses(cancel) => s.(cancels := s.cancels[cancel := NoLiveJob(s.cancels[cancel].runId)])
    case CancelSignals(cancel) =>
      s.(cancelled := s.cancelled + {s.cancels[cancel].ctx}, cancels := s.cancels - {cancel})
    case CancelForces(cancel, stored) =>
      var runId := s.cancels[cancel].runId;
      s.(cancels := s.cancels - {cancel},
         rows := if stored then SetStatus(s.rows, runId, Canceled) else s.rows,
         causes := if stored then s.causes[runId := Forced] else s.causes)
    case Crash => s.(up := false, locks := map[], calls := map[], cancels := map[])
    case Start(marked) =>
      if marked then s.(up := true, rows := MarkInterrupted(s.rows),
                        causes := s.causes + map runId | runId in RunningRows(s.rows) :: Interrupted)
      else s.(up := true, orphans := s.orphans + RunningRows(s.rows))
  }

  // unlock(key) followed by cancel(): both exits of a call.
  function EndCall(s: State, call: nat): State
    requires call in s.calls
  {
    s.(locks := Released(s.locks, s.calls[call].key), calls := s.calls - {call}, cancelled := s.cancelled + {call})
  }

  // ----- Runs -----

  predicate ValidRun(s: State, steps: seq<Step>)
    decreases |steps|
  {
    steps == [] || (Enabled(s, steps[0]) && ValidRun(Apply(s, steps[0]), steps[1..]))
  }

  function RunOf(s: State, steps: seq<Step>): State
    requires ValidRun(s, steps)
    decreases |steps|
  {
    if steps == [] then s else RunOf(Apply(s, steps[0]), steps[1..])
  }

  ghost predicate Reachable(s: State) {
    exists steps :: ValidRun(INIT, steps) && RunOf(INIT, steps) == s
  }

  // ----- The invariant -----

  function RowOf(pc: Pc): Option<string> {
    if pc.Holding? || pc.InsertFailed? then None else Some(pc.runId)
  }

  function BoundId(pc: Pc): string {
    if pc.Holding? || pc.InsertFailed? || pc.Inserted? then "" else pc.runId
  }

  // The lock table is exactly the keys of the calls in flight, each entry its own call's.
  predicate LocksMatchCalls(s: State) {
    && (forall key :: key in s.locks ==> s.locks[key].ctx in s.calls && s.calls[s.locks[key].ctx].key == key)
    && (forall call :: call in s.calls ==>
          s.calls[call].key in s.locks && s.locks[s.calls[call].key] == RunningJob(BoundId(s.calls[call].pc), call))
  }

  predicate RowsMatchCalls(s: State) {
    && "" !in s.rows && s.jobs.Keys == s.rows.Keys
    && (forall call :: call in s.calls && RowOf(s.calls[call].pc).Some? ==>
          var runId := RowOf(s.calls[call].pc).value;
          runId in s.rows && s.rows[runId].key == s.calls[call].key && s.jobs[runId] == call)
    && (forall runId :: runId in s.jobs && s.jobs[runId] in s.calls ==>
          RowOf(s.calls[s.jobs[runId]].pc) == Some(runId))
    && (forall runId :: runId in s.jobs ==> s.jobs[runId] < s.next)
  }

  predicate CallsAreOlder(s: State) {
    && (forall call :: call in s.calls ==> call < s.next)
    && (forall call :: call in s.calls && s.calls[call].pc.Returned? ==> s.calls[call].pc.outcome != Running)
  }

  // While the process is up, a running row is being worked on or was left behind by a failed write.
  predicate RunningRowsHaveOwners(s: State) {
    s.up ==> forall runId :: runId in s.rows && s.rows[runId].status == Running && runId !in s.orphans ==>
      runId in s.jobs && s.jobs[runId] in s.calls && !s.calls[s.jobs[runId]].pc.Finished?
  }

  // A row left behind is no longer being worked on.
  predicate OrphansAreDone(s: State) {
    forall runId :: runId in s.orphans ==>
      runId in s.jobs && s.jobs[runId] < s.next && (s.jobs[runId] in s.calls ==> s.calls[s.jobs[runId]].pc.Finished?)
  }

  predicate CancelsAimRight(s: State) {
    && (forall c :: c in s.cancels ==> s.cancels[c].runId in s.jobs && s.cancels[c].runId in s.requested)
    && (forall c :: c in s.cancels && s.cancels[c].FoundJob? ==> s.cancels[c].ctx == s.jobs[s.cancels[c].runId])
    && s.requested <= s.jobs.Keys
    && (forall call :: call in s.cancelled && call in s.calls ==>
          RowOf(s.calls[call].pc).Some? && RowOf(s.calls[call].pc).value in s.requested)
    && (forall call :: call in s.cancelled ==> call < s.next)
  }

  predicate DownIsEmpty(s: State) {
    !s.up ==> s.calls == map[] && s.cancels == map[] && s.locks == map[]
  }

  predicate Inv(s: State) {
    && LocksMatchCalls(s) && RowsMatchCalls(s) && CallsAreOlder(s) && RunningRowsHaveOwners(s)
    && CancelsAimRight(s) && OrphansAreDone(s) && DownIsEmpty(s)
  }

  // The steps by the calls they belong to.
  predicate OpensCall(step: Step) {
    step.RunNow? || step.InsertRow? || step.InsertFails?
  }

  predicate AdvancesCall(step: Step) {
    step.ActionReturns? || step.FinishRun?
  }

  predicate RewritesLock(step: Step) {
    step.BindRunId? || step.Abandon? || step.Unlock?
  }

  predicate CancelStep(step: Step) {
    step.CancelReads? || step.CancelLooksUp? || step.CancelMisses? || step.CancelSignals? || step.CancelForces?
  }

  lemma OlderOpening(s: State, step: Step)
    requires CallsAreOlder(s) && Enabled(s, step) && OpensCall(step)
    ensures CallsAreOlder(Apply(s, step))
  {
  }

  lemma OlderReturning(s: State, call: nat, result: ActionResult)
    requires CallsAreOlder(s) && Enabled(s, ActionReturns(call, result))
    ensures CallsAreOlder(Apply(s, ActionReturns(call, result)))
  {
  }

  lemma OlderFinishing(s: State, call: nat, stored: bool)
    requires CallsAreOlder(s) && Enabled(s, FinishRun(call, stored))
    ensures CallsAreOlder(Apply(s, FinishRun(call, stored)))
  {
  }

  lemma OlderAdvancing(s: State, step: Step)
    requires CallsAreOlder(s) && Enabled(s, step) && AdvancesCall(step)
    ensures CallsAreOlder(Apply(s, step))
  {
    hide CallsAreOlder, Enabled, Apply;
    match step
    case ActionReturns(call, result) => OlderReturning(s, call, result);
    case FinishRun(call, stored) => OlderFinishing(s, call, stored);
  }

  lemma OlderOther(s: State, step: Step)
    requires CallsAreOlder(s) && Enabled(s, step) && !OpensCall(step) && !AdvancesCall(step)
    ensures CallsAreOlder(Apply(s, step))
  {
  }

  lemma OlderStep(s: State, step: Step)
    requires CallsAreOlder(s) && Enabled(s, step)
    ensures CallsAreOlder(Apply(s, step))
  {
    hide CallsAreOlder, Enabled, Apply;
    if OpensCall(step) {
      OlderOpening(s, step);
    } else if AdvancesCall(step) {
      OlderAdvancing(s, step);
    } else {
      OlderOther(s, step);
    }
  }

  // What ActionReturns and FinishRun leave alone: locks, and the row and run id of every call.
  predicate SameIds(s: State, t: State) {
    && t.up == s.up && t.locks == s.locks && t.jobs == s.jobs && t.calls.Keys == s.calls.Keys
    && t.rows.Keys == s.rows.Keys && t.next == s.next && t.cancels == s.cancels
    && t.cancelled == s.cancelled && t.requested == s.requested
    && (forall runId :: runId in s.rows ==> t.rows[runId].key == s.rows[runId].key)
    && forall call :: call in s.calls ==>
         t.calls[call].key == s.calls[call].key
         && BoundId(t.calls[call].pc) == BoundId(s.calls[call].pc)
         && RowOf(t.calls[call].pc) == RowOf(s.calls[call].pc)
  }

  lemma ReturningKeepsIds(s: State, call: nat, result: ActionResult)
    requires Enabled(s, ActionReturns(call, result))
    ensures SameIds(s, Apply(s, ActionReturns(call, result)))
  {
  }

  lemma FinishingKeepsIds(s: State, call: nat, stored: bool)
    requires Enabled(s, FinishRun(call, stored))
    ensures SameIds(s, Apply(s, FinishRun(call, stored)))
  {
  }

  lemma AdvancingKeepsIds(s: State, step: Step)
    requires Enabled(s, step) && AdvancesCall(step)
    ensures SameIds(s, Apply(s, step))
  {
    hide Enabled, Apply, SameIds;
    match step
    case ActionReturns(call, result) => ReturningKeepsIds(s, call, result);
    case FinishRun(call, stored) => FinishingKeepsIds(s, call, stored);
  }

  lemma LocksOpening(s: State, step: Step)
    requires LocksMatchCalls(s) && CallsAreOlder(s) && DownIsEmpty(s)
    requires Enabled(s, step) && OpensCall(step)
    ensures LocksMatchCalls(Apply(s, step)) && DownIsEmpty(Apply(s, step))
  {
  }

  lemma LocksAdvancing(s: State, step: Step)
    requires LocksMatchCalls(s) && CallsAreOlder(s) && DownIsEmpty(s)
    requires Enabled(s, step) && AdvancesCall(step)
    ensures LocksMatchCalls(Apply(s, step)) && DownIsEmpty(Apply(s, step))
  {
    AdvancingKeepsIds(s, step);
    hide Apply;
  }

  lemma LocksRewriting(s: State, step: Step)
    requires LocksMatchCalls(s) && CallsAreOlder(s) && DownIsEmpty(s)
    requires Enabled(s, step) && RewritesLock(step)
    ensures LocksMatchCalls(Apply(s, step)) && DownIsEmpty(Apply(s, step))
  {
  }

  lemma LocksOther(s: State, step: Step)
    requires LocksMatchCalls(s) && CallsAreOlder(s) && DownIsEmpty(s)
    requires Enabled(s, step) && !OpensCall(step) && !AdvancesCall(step) && !RewritesLock(step)
    ensures LocksMatchCalls(Apply(s, step)) && DownIsEmpty(Apply(s, step))
  {
  }

  // The lock table stays the table of the calls in flight.
  lemma LocksStep(s: State, step: Step)
    requires LocksMatchCalls(s) && CallsAreOlder(s) && DownIsEmpty(s) && Enabled(s, step)
    ensures LocksMatchCalls(Apply(s, step)) && DownIsEmpty(Apply(s, step))
  {
    hide *;
    if OpensCall(step) {
      LocksOpening(s, step);
    } else if AdvancesCall(step) {
      LocksAdvancing(s, step);
    } else if RewritesLock(step) {
      LocksRewriting(s, step);
    } else {
      LocksOther(s, step);
    }
  }

  lemma InterruptedRows(rows: map<string, Row>)
    ensures var marked := MarkInterrupted(rows);
            && marked.Keys == rows.Keys
            && forall runId :: runId in rows ==>
                 && marked[runId].key == rows[runId].key && marked[runId].status != Running
                 && (rows[runId].status != Running ==> marked[runId] == rows[runId])
  {
  }

  lemma RowsOpening(s: State, step: Step)
    requires RowsMatchCalls(s) && CallsAreOlder(s)
    requires Enabled(s, step) && OpensCall(step)
    ensures RowsMatchCalls(Apply(s, step))
  {
  }

  lemma RowsAdvancing(s: State, step: Step)
    requires RowsMatchCalls(s) && CallsAreOlder(s)
    requires Enabled(s, step) && AdvancesCall(step)
    ensures RowsMatchCalls(Apply(s, step))
  {
    AdvancingKeepsIds(s, step);
    hide Apply;
  }

  lemma RowsRewriting(s: State, step: Step)
    requires RowsMatchCalls(s) && CallsAreOlder(s)
    requires Enabled(s, step) && RewritesLock(step)
    ensures RowsMatchCalls(Apply(s, step))
  {
  }

  lemma RowsCancelling(s: State, step: Step)
    requires RowsMatchCalls(s) && CallsAreOlder(s)
    requires Enabled(s, step) && CancelStep(step)
    ensures RowsMatchCalls(Apply(s, step))
  {
  }

  lemma RowsCrashing(s: State)
    requires RowsMatchCalls(s) && Enabled(s, Crash)
    ensures RowsMatchCalls(Apply(s, Crash))
  {
  }

  lemma RowsStarting(s: State, marked: bool)
    requires RowsMatchCalls(s) && Enabled(s, Start(marked))
    ensures RowsMatchCalls(Apply(s, Start(marked)))
  {
    InterruptedRows(s.rows);
    hide MarkInterrupted;
  }

  // Rows and the calls that inserted them stay matched.
  lemma RowsStep(s: State, step: Step)
    requires RowsMatchCalls(s) && CallsAreOlder(s) && Enabled(s, step)
    ensures RowsMatchCalls(Apply(s, step))
  {
    hide RowsMatchCalls, CallsAreOlder, Enabled, Apply;
    if OpensCall(step) {
      RowsOpening(s, step);
    } else if AdvancesCall(step) {
      RowsAdvancing(s, step);
    } else if RewritesLock(step) {
      RowsRewriting(s, step);
    } else if CancelStep(step) {
      RowsCancelling(s, step);
    } else if step == Crash {
      RowsCrashing(s);
    } else {
      RowsStarting(s, step.marked);
    }
  }

  lemma OwnersOpening(s: State, step: Step)
    requires RowsMatchCalls(s) && RunningRowsHaveOwners(s) && CallsAreOlder(s)
    requires Enabled(s, step) && OpensCall(step)
    ensures RunningRowsHaveOwners(Apply(s, step))
  {
  }

  lemma OwnersReturning(s: State, call: nat, result: ActionResult)
    requires RowsMatchCalls(s) && RunningRowsHaveOwners(s) && Enabled(s, ActionReturns(call, result))
    ensures RunningRowsHaveOwners(Apply(s, ActionReturns(call, result)))
  {
  }

  lemma OwnersFinishing(s: State, call: nat, stored: bool)
    requires RowsMatchCalls(s) && RunningRowsHaveOwners(s) && CallsAreOlder(s) && Enabled(s, FinishRun(call, stored))
    ensures RunningRowsHaveOwners(Apply(s, FinishRun(call, stored)))
  {
  }

  lemma OwnersAdvancing(s: State, step: Step)
    requires RowsMatchCalls(s) && RunningRowsHaveOwners(s) && CallsAreOlder(s)
    requires Enabled(s, step) && AdvancesCall(step)
    ensures RunningRowsHaveOwners(Apply(s, step))
  {
    hide RowsMatchCalls, RunningRowsHaveOwners, CallsAreOlder, Enabled, Apply;
    match step
    case ActionReturns(call, result) => OwnersReturning(s, call, result);
    case FinishRun(call, stored) => OwnersFinishing(s, call, stored);
  }

  lemma OwnersRewriting(s: State, step: Step)
    requires RowsMatchCalls(s) && RunningRowsHaveOwners(s) && CallsAreOlder(s)
    requires Enabled(s, step) && RewritesLock(step)
    ensures RunningRowsHaveOwners(Apply(s, step))
  {
  }

  lemma OwnersCancelling(s: State, step: Step)
    requires RowsMatchCalls(s) && RunningRowsHaveOwners(s) && CallsAreOlder(s)
    requires Enabled(s, step) && CancelStep(step)
    ensures RunningRowsHaveOwners(Apply(s, step))
  {
  }

  lemma OwnersCrashing(s: State)
    requires RowsMatchCalls(s) && RunningRowsHaveOwners(s) && Enabled(s, Crash)
    ensures RunningRowsHaveOwners(Apply(s, Crash))
  {
  }

  lemma OwnersStarting(s: State, marked: bool)
    requires RowsMatchCalls(s) && RunningRowsHaveOwners(s) && Enabled(s, Start(marked))
    ensures RunningRowsHaveOwners(Apply(s, Start(marked)))
  {
    InterruptedRows(s.rows);
    hide MarkInterrupted;
  }

  // Running rows keep an owner.
  lemma OwnersStep(s: State, step: Step)
    requires RowsMatchCalls(s) && RunningRowsHaveOwners(s) && CallsAreOlder(s) && Enabled(s, step)
    ensures RunningRowsHaveOwners(Apply(s, step))
  {
    hide RowsMatchCalls, RunningRowsHaveOwners, CallsAreOlder, Enabled, Apply;
    if OpensCall(step) {
      OwnersOpening(s, step);
    } else if AdvancesCall(step) {
      OwnersAdvancing(s, step);
    } else if RewritesLock(step) {
      OwnersRewriting(s, step);
    } else if CancelStep(step) {
      OwnersCancelling(s, step);
    } else if step == Crash {
      OwnersCrashing(s);
    } else {
      OwnersStarting(s, step.marked);
    }
  }

  lemma CancelsOpening(s: State, step: Step)
    requires LocksMatchCalls(s) && RowsMatchCalls(s) && CallsAreOlder(s) && CancelsAimRight(s)
    requires Enabled(s, step) && OpensCall(step)
    ensures CancelsAimRight(Apply(s, step))
  {
  }

  lemma CancelsAdvancing(s: State, step: Step)
    requires LocksMatchCalls(s) && RowsMatchCalls(s) && CallsAreOlder(s) && CancelsAimRight(s)
    requires Enabled(s, step) && AdvancesCall(step)
    ensures CancelsAimRight(Apply(s, step))
  {
    AdvancingKeepsIds(s, step);
    hide Apply;
  }

  lemma CancelsRewriting(s: State, step: Step)
    requires LocksMatchCalls(s) && RowsMatchCalls(s) && CallsAreOlder(s) && CancelsAimRight(s)
    requires Enabled(s, step) && RewritesLock(step)
    ensures CancelsAimRight(Apply(s, step))
  {
  }

  predicate CancelEnds(step: Step) {
    step.CancelSignals? || step.CancelForces?
  }

  lemma CancelsReading(s: State, step: Step)
    requires RowsMatchCalls(s) && CancelsAimRight(s) && Enabled(s, step) && step.CancelReads?
    ensures CancelsAimRight(Apply(s, step))
  {
  }

  lemma CancelsFinding(s: State, step: Step)
    requires LocksMatchCalls(s) && RowsMatchCalls(s) && CancelsAimRight(s) && Enabled(s, step) && step.CancelLooksUp?
    ensures CancelsAimRight(Apply(s, step))
  {
  }

  lemma CancelsMissing(s: State, step: Step)
    requires CancelsAimRight(s) && Enabled(s, step) && step.CancelMisses?
    ensures CancelsAimRight(Apply(s, step))
  {
  }

  lemma CancelsLooking(s: State, step: Step)
    requires LocksMatchCalls(s) && RowsMatchCalls(s) && CallsAreOlder(s) && CancelsAimRight(s)
    requires Enabled(s, step) && CancelStep(step) && !CancelEnds(step)
    ensures CancelsAimRight(Apply(s, step))
  {
    hide LocksMatchCalls, RowsMatchCalls, CallsAreOlder, CancelsAimRight, Enabled, Apply;
    if step.CancelReads? {
      CancelsReading(s, step);
    } else if step.CancelLooksUp? {
      CancelsFinding(s, step);
    } else {
      CancelsMissing(s, step);
    }
  }

  lemma CancelsEnding(s: State, step: Step)
    requires LocksMatchCalls(s) && RowsMatchCalls(s) && CallsAreOlder(s) && CancelsAimRight(s)
    requires Enabled(s, step) && CancelEnds(step)
    ensures CancelsAimRight(Apply(s, step))
  {
  }

  lemma CancelsCrashing(s: State)
    requires CancelsAimRight(s) && Enabled(s, Crash)
    ensures CancelsAimRight(Apply(s, Crash))
  {
  }

  lemma CancelsStarting(s: State, marked: bool)
    requires CancelsAimRight(s) && Enabled(s, Start(marked))
    ensures CancelsAimRight(Apply(s, Start(marked)))
  {
  }

  // Cancellations keep aiming at the run they were asked for.
  lemma CancelsStep(s: State, step: Step)
    requires LocksMatchCalls(s) && RowsMatchCalls(s) && CallsAreOlder(s) && CancelsAimRight(s) && Enabled(s, step)
    ensures CancelsAimRight(Apply(s, step))
  {
    hide LocksMatchCalls, RowsMatchCalls, CallsAreOlder, CancelsAimRight, Enabled, Apply;
    if OpensCall(step) {
      CancelsOpening(s, step);
    } else if AdvancesCall(step) {
      CancelsAdvancing(s, step);
    } else if RewritesLock(step) {
      CancelsRewriting(s, step);
    } else if CancelEnds(step) {
      CancelsEnding(s, step);
    } else if CancelStep(step) {
      CancelsLooking(s, step);
    } else if step == Crash {
      CancelsCrashing(s);
    } else {
      CancelsStarting(s, step.marked);
    }
  }

  lemma OrphansOpening(s: State, step: Step)
    requires OrphansAreDone(s) && RowsMatchCalls(s) && DownIsEmpty(s) && Enabled(s, step) && OpensCall(step)
    ensures OrphansAreDone(Apply(s, step))
  {
  }

  lemma OrphansAdvancing(s: State, step: Step)
    requires OrphansAreDone(s) && RowsMatchCalls(s) && DownIsEmpty(s) && Enabled(s, step) && AdvancesCall(step)
    ensures OrphansAreDone(Apply(s, step))
  {
  }

  lemma OrphansOther(s: State, step: Step)
    requires OrphansAreDone(s) && RowsMatchCalls(s) && DownIsEmpty(s) && Enabled(s, step)
    requires !OpensCall(step) && !AdvancesCall(step)
    ensures OrphansAreDone(Apply(s, step))
  {
  }

  lemma OrphansStep(s: State, step: Step)
    requires OrphansAreDone(s) && RowsMatchCalls(s) && DownIsEmpty(s) && Enabled(s, step)
    ensures OrphansAreDone(Apply(s, step))
  {
    hide OrphansAreDone, RowsMatchCalls, DownIsEmpty, Enabled, Apply;
    if OpensCall(step) {
      OrphansOpening(s, step);
    } else if AdvancesCall(step) {
      OrphansAdvancing(s, step);
    } else {
      OrphansOther(s, step);
    }
  }

  /** Every step of every call keeps the invariant. */
  lemma StepKeepsInv(s: State, step: Step)
    requires Inv(s) && Enabled(s, step)
    ensures Inv(Apply(s, step))
  {
    hide LocksMatchCalls, RowsMatchCalls, CallsAreOlder, RunningRowsHaveOwners, CancelsAimRight,
         OrphansAreDone, DownIsEmpty, Enabled, Apply;
    LocksStep(s, step);
    OlderStep(s, step);
    RowsStep(s, step);
    OwnersStep(s, step);
    CancelsStep(s, step);
    OrphansStep(s, step);
  }
}
