/** syncRepositoryAccess as the step-by-step procedure it is: loops that append each file read and
    each API call to the trace and update the `hadErrors` flag. Each method is proved to produce
    exactly what the functions of AccessModel describe. */
module AccessSync {
  import opened Wrappers
  import opened Permissions
  import opened AccessModel
  import opened AccessProperties

  /** The body of the per-file try block for one parsed config with a valid permission. After the
      listing, every call names the repository and either upserts a desired team with level p or
      removes a listed team that is not desired. */
  method ReconcileRepository(api: Api, cfg: Config, p: Permission, trace0: seq<Event>, hadErrors0: bool)
    returns (trace: seq<Event>, hadErrors: bool)
    ensures State(trace, hadErrors) == Reconciled(api, cfg, p, State(trace0, hadErrors0))
    ensures forall i :: |trace0| < i < |trace| ==>
      (trace[i].Upsert? && trace[i].repo == cfg.repository && trace[i].team in cfg.teams && trace[i].permission == p) ||
      (trace[i].Remove? && trace[i].repo == cfg.repository && trace[i].team !in cfg.teams)
  {
    var repo := cfg.repository;
    trace, hadErrors := trace0 + [ListTeams(repo)], hadErrors0;
    var response := api.teamsAt(|trace0|);
    if response.None? {
      hadErrors := true;
      ReconciledTouchesOnlyNamedTeams(api, cfg, p, State(trace0, hadErrors0));
      return;
    }
    var current := response.value;
    var desired := Distinct(cfg.teams);
    ghost var afterList := State(trace, hadErrors);

    var i, escaped := 0, false;
    while i < |desired| && !escaped
      invariant 0 <= i <= |desired|
      invariant !escaped ==>
        Upserts(api, repo, desired, current, p, afterList) == Upserts(api, repo, desired[i..], current, p, State(trace, hadErrors))
      invariant escaped ==> Upserts(api, repo, desired, current, p, afterList) == (State(trace, hadErrors), true)
      decreases |desired| - i, !escaped
    {
      var team := desired[i];
      assert desired[i..][1..] == desired[i + 1..];
      if team !in current {
        trace := trace + [Upsert(repo, team, p)];
        if !api.acceptsAt(|trace| - 1) {
          hadErrors := true;
        }
        i := i + 1;
      } else {
        trace := trace + [Upsert(repo, team, p)];
        if !api.acceptsAt(|trace| - 1) {
          escaped := true;
        } else {
          i := i + 1;
        }
      }
    }
    if escaped {
      hadErrors := true;
      ReconciledTouchesOnlyNamedTeams(api, cfg, p, State(trace0, hadErrors0));
      return;
    }

    ghost var afterUpserts := State(trace, hadErrors);
    var j := 0;
    while j < |current|
      invariant 0 <= j <= |current|
      invariant Removals(api, repo, current, desired, afterUpserts) == Removals(api, repo, current[j..], desired, State(trace, hadErrors))
    {
      var slug := current[j];
      assert current[j..][1..] == current[j + 1..];
      if slug !in desired {
        trace := trace + [Remove(repo, slug)];
        if !api.acceptsAt(|trace| - 1) {
          hadErrors := true;
        }
      }
      j := j + 1;
    }
    ReconciledTouchesOnlyNamedTeams(api, cfg, p, State(trace0, hadErrors0));
  }

  /** syncRepositoryAccess from the directory listing on: filter to `.yml`, then read, normalise and
      reconcile each file in turn. The run completes unless a `.yml` file is empty or names an invalid
      permission; a completed run has read exactly the `.yml` files in listing order and exits with
      status 1 exactly when some read or call failed. */
  method SyncRepositoryAccess(api: Api, read: string -> Document, names: seq<string>)
    returns (trace: seq<Event>, outcome: Outcome)
    ensures (trace, outcome) == Sync(api, read, names)
    ensures outcome.Finished? <==> forall f :: f in ConfigFiles(names) ==> !Fatal(read(f))
    ensures outcome.Finished? ==> FilesRead(trace) == ConfigFiles(names)
    ensures outcome.Finished? ==> (ExitCode(outcome) == 1 <==> FailureBetween(api, read, trace, 0, |trace|))
  {
    var configFiles := ConfigFiles(names);
    var hadErrors := false;
    trace := [];
    var k := 0;
    while k < |configFiles|
      invariant 0 <= k <= |configFiles|
      invariant RunFrom(api, read, configFiles, State([], false)) == RunFrom(api, read, configFiles[k..], State(trace, hadErrors))
    {
      var file := configFiles[k];
      assert configFiles[k..][1..] == configFiles[k + 1..];
      trace := trace + [ReadFile(file)];
      match read(file) {
        case Unreadable =>
          hadErrors := true;
        case Empty =>
          outcome := Aborted(MissingDocument);
          SyncOutcome(api, read, names);
          return;
        case Parsed(cfg) =>
          var permission := NormalizePermission(cfg.permission);
          if permission.Err? {
            outcome := Aborted(InvalidPermission(permission.message));
            SyncOutcome(api, read, names);
            return;
          }
          trace, hadErrors := ReconcileRepository(api, cfg, permission.value, trace, hadErrors);
      }
      k := k + 1;
    }
    outcome := Finished(hadErrors);
    SyncOutcome(api, read, names);
  }
}
