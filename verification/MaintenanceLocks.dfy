/**
 * The maintenance lock table and the arguments that select a lock
 * (internal/maintenance/service.go, internal/maintenance/types.go).
 */
module MaintenanceLocks {
  import opened Wrappers

  const ACTION_LIBRARIES_SCAN := "libraries.scan"
  const ACTION_METADATA_SCAN := "metadata.scan"
  const ACTION_THUMBNAILS_WARM := "thumbnails.warm"
  const ACTION_PLAYBACK_CACHE_PURGE := "playback.cache.purge"
  const ACTION_PROVIDERS_METADATA := "providers.metadata"
  const ACTION_PROVIDERS_POSTERS := "providers.posters"
  const ACTION_PROVIDERS_SUBTITLES := "providers.subtitles"
  const ACTION_PLAYBACK_SKIP_DETECT := "playback.skip.detect"
  const TRIGGER_MANUAL := "manual"

  datatype RunError = InvalidAction | LibraryRequired
  datatype Request = Request(action: string, libraryId: string, trigger: string)

  predicate IsGlobalAction(action: string) {
    action == ACTION_LIBRARIES_SCAN || action == ACTION_PLAYBACK_CACHE_PURGE
  }

  predicate IsLibraryAction(action: string) {
    || action == ACTION_METADATA_SCAN || action == ACTION_THUMBNAILS_WARM
    || action == ACTION_PROVIDERS_METADATA || action == ACTION_PROVIDERS_POSTERS
    || action == ACTION_PROVIDERS_SUBTITLES || action == ACTION_PLAYBACK_SKIP_DETECT
  }

  predicate ValidAction(action: string) {
    IsGlobalAction(action) || IsLibraryAction(action)
  }

  function ValidateRunNow(action: string, libraryId: string, trigger: string): Result<Request, RunError> {
    if !ValidAction(action) then Err(InvalidAction)
    else if IsLibraryAction(action) && libraryId == "" then Err(LibraryRequired)
    else Ok(Request(action, if IsGlobalAction(action) then "" else libraryId,
                    if trigger == "" then TRIGGER_MANUAL else trigger))
  }

  function LockKey(action: string, libraryId: string): string {
    action + "|" + libraryId
  }

  // The actions of the whole server, and those of one library.
  const SERVER_ACTIONS := {"libraries.scan", "playback.cache.purge"}
  const OWN_ACTIONS := {
    "metadata.scan", "thumbnails.warm", "providers.metadata", "providers.posters", "providers.subtitles",
    "playback.skip.detect"}

  /**
   * Which calls are accepted, and as what: an unknown action is invalid, a library action needs a library,
   * a global one forgets it, and a call without a trigger is a manual one.
   */
  lemma RunNowAccepts(action: string, libraryId: string, trigger: string)
    ensures var r := ValidateRunNow(action, libraryId, trigger);
            && (r == Err(InvalidAction) <==> action !in SERVER_ACTIONS + OWN_ACTIONS)
            && (r == Err(LibraryRequired) <==> action in OWN_ACTIONS && libraryId == "")
            && (r.Ok? ==> r.value.action == action
                          && r.value.libraryId == (if action in OWN_ACTIONS then libraryId else "")
                          && (trigger == "" ==> r.value.trigger == "manual")
                          && (trigger != "" ==> r.value.trigger == trigger))
            && (r.Ok? && action in OWN_ACTIONS ==> libraryId != "")
  {
    assert IsGlobalAction(action) <==> action in SERVER_ACTIONS;
    assert IsLibraryAction(action) <==> action in OWN_ACTIONS;
    if action in SERVER_ACTIONS {
      NoLibraryAction(action);
    }
  }

  lemma NoLibraryAction(action: string)
    requires IsGlobalAction(action)
    ensures !IsLibraryAction(action)
  {
  }

  // ----- Which requests share a lock -----

  lemma NoBarInAction(action: string)
    requires ValidAction(action)
    ensures '|' !in action
  {
  }

  lemma FirstBar(a: string, x: string, b: string, y: string)
    requires '|' !in a && '|' !in b && a + "|" + x == b + "|" + y
    ensures a == b && x == y
  {
    var left, right := a + "|" + x, b + "|" + y;
    assert left[|a|] == '|' && right[|b|] == '|';
    assert forall k :: 0 <= k < |a| ==> left[k] == a[k];
    assert forall k :: 0 <= k < |b| ==> right[k] == b[k];
    assert |a| == |b|;
    assert a == left[..|a|] && b == right[..|b|];
    assert x == left[|a| + 1..] && y == right[|b| + 1..];
  }

  /** Two accepted requests take the same lock exactly when they name the same action and library scope. */
  lemma SameLockIffSameScope(a: string, x: string, b: string, y: string, t: string, u: string)
    requires ValidateRunNow(a, x, t).Ok? && ValidateRunNow(b, y, u).Ok?
    ensures var p, q := ValidateRunNow(a, x, t).value, ValidateRunNow(b, y, u).value;
            LockKey(p.action, p.libraryId) == LockKey(q.action, q.libraryId) <==>
            a == b && (IsGlobalAction(a) || x == y)
  {
    var p, q := ValidateRunNow(a, x, t).value, ValidateRunNow(b, y, u).value;
    NoBarInAction(p.action);
    NoBarInAction(q.action);
    if LockKey(p.action, p.libraryId) == LockKey(q.action, q.libraryId) {
      FirstBar(p.action, p.libraryId, q.action, q.libraryId);
    }
  }

  // ----- The table -----

  // A job's context is identified by the number of the RunNow call that created it.
  datatype RunningJob = RunningJob(runId: string, ctx: nat)

  type Locks = map<string, RunningJob>

  function Locked(locks: Locks, key: string, ctx: nat): Locks {
    if key in locks then locks else locks[key := RunningJob("", ctx)]
  }

  function Bound(locks: Locks, key: string, runId: string): Locks {
    if key in locks then locks[key := locks[key].(runId := runId)] else locks
  }

  function Released(locks: Locks, key: string): Locks {
    locks - {key}
  }

  predicate HasRun(locks: Locks, runId: string) {
    exists key :: key in locks && locks[key].runId == runId
  }

  class LockTable {
    var locks: Locks

    constructor ()
      ensures locks == map[]
    {
      locks := map[];
    }

    method TryLock(key: string, ctx: nat) returns (ok: bool)
      modifies this
      ensures ok == (key !in old(locks))
      ensures locks == Locked(old(locks), key, ctx)
    {
      if key in locks {
        return false;
      }
      locks := locks[key := RunningJob("", ctx)];
      return true;
    }

    method BindRunId(key: string, runId: string)
      modifies this
      ensures locks == Bound(old(locks), key, runId)
    {
      if key in locks {
        var job := locks[key].(runId := runId);
        locks := locks[key := job];
      }
    }

    method Unlock(key: string)
      modifies this
      ensures locks == Released(old(locks), key)
      ensures key !in locks && forall other :: other != key && other in old(locks) ==>
                                other in locks && locks[other] == old(locks)[other]
    {
      locks := map other | other in locks && other != key :: locks[other];
    }

    // Walks the table in an unspecified order, as Go does.
    method CancelFuncForRun(runId: string) returns (ctx: Option<nat>)
      ensures ctx.None? <==> !HasRun(locks, runId)
      ensures ctx.Some? ==> exists key :: key in locks && locks[key] == RunningJob(runId, ctx.value)
    {
      var remaining := locks.Keys;
      while remaining != {}
        invariant remaining <= locks.Keys
        invariant forall key :: key in locks && key !in remaining ==> locks[key].runId != runId
      {
        var key :| key in remaining;
        if locks[key].runId == runId {
          return Some(locks[key].ctx);
        }
        remaining := remaining - {key};
      }
      return None;
    }
  }
}
