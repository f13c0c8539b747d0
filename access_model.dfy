/** The reconciliation performed by syncRepositoryAccess, as functions over an event trace.
    The file system and the hosting API are oracles: a file name maps to what reading and parsing it
    yields, and each API call's response is looked up by the call's position in the trace. */
module AccessModel {
  import opened Wrappers
  import opened Permissions

  /** One parsed `.yml` document from the repositories directory. A document without `teams` has `teams == []`,
      since a Set built from `undefined` is empty. */
  datatype Config = Config(repository: string, teams: seq<string>, permission: PermissionInput)

  /** What reading and parsing one config file yields. */
  datatype Document =
    | Unreadable          // readFileSync or yaml.load threw
    | Empty               // yaml.load returned `null` or `undefined` (an empty or comment-only file): destructuring it throws
    | Parsed(config: Config)  // a scalar document destructures to a missing permission: Config(_, [], Missing)

  /** One step of a run, in the order it happens. */
  datatype Event =
    | ReadFile(name: string)
    | ListTeams(repo: string)
    | Upsert(repo: string, team: string, permission: Permission)
    | Remove(repo: string, team: string)

  /** The hosting API: the team slugs a listTeams call at trace position i returns (None: it threw),
      and whether the upsert or removal at trace position i succeeded. */
  datatype Api = Api(teamsAt: nat -> Option<seq<string>>, acceptsAt: nat -> bool)

  /** Everything the run carries from step to step: the events so far and the `hadErrors` flag. */
  datatype State = State(trace: seq<Event>, hadErrors: bool)

  /** Why a run stopped with an uncaught exception. */
  datatype Abort = InvalidPermission(message: string) | MissingDocument

  datatype Outcome = Finished(hadErrors: bool) | Aborted(reason: Abort)

  /** Iteration order of `new Set(xs)`: each element once, where it first occurs. */
  function Distinct(xs: seq<string>): (d: seq<string>)
    ensures forall x :: x in d <==> x in xs
    ensures |d| <= |xs|
  {
    if xs == [] then []
    else
      var d := Distinct(xs[..|xs| - 1]);
      if xs[|xs| - 1] in d then d else d + [xs[|xs| - 1]]
  }

  /** The upsert loop over the teams still to visit, from state st. The second component says whether
      a failed upsert of an already-listed team escaped to the repository-level catch. */
  function Upserts(api: Api, repo: string, todo: seq<string>, listed: seq<string>, p: Permission, st: State)
    : (r: (State, bool))
    ensures st.trace <= r.0.trace
    ensures st.hadErrors ==> r.0.hadErrors
    decreases |todo|
  {
    if todo == [] then (st, false)
    else
      var ok := api.acceptsAt(|st.trace|);
      var next := st.(trace := st.trace + [Upsert(repo, todo[0], p)]);
      if todo[0] !in listed then
        Upserts(api, repo, todo[1..], listed, p, if ok then next else next.(hadErrors := true))
      else if ok then
        Upserts(api, repo, todo[1..], listed, p, next)
      else
        (next, true)
  }

  /** The removal loop over the listed teams still to visit: a removal for each one not desired. */
  function Removals(api: Api, repo: string, todo: seq<string>, desired: seq<string>, st: State): (r: State)
    ensures st.trace <= r.trace
    ensures st.hadErrors ==> r.hadErrors
    decreases |todo|
  {
    if todo == [] then st
    else if todo[0] in desired then Removals(api, repo, todo[1..], desired, st)
    else
      var ok := api.acceptsAt(|st.trace|);
      Removals(api, repo, todo[1..], desired,
               State(st.trace + [Remove(repo, todo[0])], st.hadErrors || !ok))
  }

  /** One repository: list its teams, upsert every desired team, remove every listed team not desired.
      A failed listing, or an upsert failure that escapes, ends the repository with the flag set. */
  function Reconciled(api: Api, cfg: Config, p: Permission, st: State): (r: State)
    ensures st.trace < r.trace && r.trace[|st.trace|] == ListTeams(cfg.repository)
    ensures st.hadErrors ==> r.hadErrors
  {
    var listed := st.(trace := st.trace + [ListTeams(cfg.repository)]);
    match api.teamsAt(|st.trace|)
    case None => listed.(hadErrors := true)
    case Some(current) =>
      var desired := Distinct(cfg.teams);
      var (afterUpserts, escaped) := Upserts(api, cfg.repository, desired, current, p, listed);
      if escaped then afterUpserts.(hadErrors := true)
      else Removals(api, cfg.repository, current, desired, afterUpserts)
  }

  /** The loop over the config files still to visit. The second component is the uncaught exception
      that stopped the run, if any. */
  function RunFrom(api: Api, read: string -> Document, files: seq<string>, st: State): (r: (State, Option<Abort>))
    ensures st.trace <= r.0.trace
    ensures st.hadErrors ==> r.0.hadErrors
    decreases |files|
  {
    if files == [] then (st, None)
    else
      var afterRead := st.(trace := st.trace + [ReadFile(files[0])]);
      match read(files[0])
      case Unreadable => RunFrom(api, read, files[1..], afterRead.(hadErrors := true))
      case Empty => (afterRead, Some(MissingDocument))
      case Parsed(cfg) =>
        match NormalizePermission(cfg.permission)
        case Err(message) => (afterRead, Some(InvalidPermission(message)))
        case Ok(p) => RunFrom(api, read, files[1..], Reconciled(api, cfg, p, afterRead))
  }

  /** `name.endsWith('.yml')`. */
  predicate IsConfigFile(name: string)
    ensures IsConfigFile(name) <==> exists stem :: name == stem + ".yml"
  {
    if |name| < 4 then false
    else
      var stem := name[..|name| - 4];
      assert name == stem + name[|name| - 4..];
      name[|name| - 4..] == ".yml"
  }

  /** The directory listing filtered to `.yml` names, in listing order. */
  function ConfigFiles(names: seq<string>): (files: seq<string>)
    ensures |files| <= |names|
    ensures forall f :: f in files ==> f in names && IsConfigFile(f)
  {
    if names == [] then []
    else (if IsConfigFile(names[0]) then [names[0]] else []) + ConfigFiles(names[1..])
  }

  /** A whole run over a directory listing: the trace and how it ended. */
  function Sync(api: Api, read: string -> Document, names: seq<string>): (r: (seq<Event>, Outcome))
    ensures ConfigFiles(names) == [] ==> r == ([], Finished(false))
    ensures ConfigFiles(names) != [] ==> r.0 != [] && r.0[0] == ReadFile(ConfigFiles(names)[0])
  {
    var (st, abort) := RunFrom(api, read, ConfigFiles(names), State([], false));
    var outcome := if abort.None? then Finished(st.hadErrors) else Aborted(abort.value);
    (st.trace, outcome)
  }

  /** The process exit status: 1 when the flag is set; an uncaught exception is an unhandled promise
      rejection, which also ends the process with status 1. */
  function ExitCode(o: Outcome): (code: int)
    ensures code == 0 <==> o == Finished(false)
    ensures code == 0 || code == 1
  {
    match o
    case Finished(hadErrors) => if hadErrors then 1 else 0
    case Aborted(_) => 1
  }

  /** Whether the step at trace position i failed. The `read` oracle is consulted only for a ReadFile
      event; a repository's own calls never contain one, so lemmas about a single repository take it
      as a parameter only so that their facts combine directly with those about the whole run. */
  predicate Failed(api: Api, read: string -> Document, e: Event, i: nat)
  {
    match e
    case ReadFile(name) => read(name).Unreadable?
    case ListTeams(_) => api.teamsAt(i).None?
    case Upsert(_, _, _) => !api.acceptsAt(i)
    case Remove(_, _) => !api.acceptsAt(i)
  }

  /** A file at which the run stops with an uncaught exception. */
  predicate Fatal(d: Document)
    ensures Fatal(d) <==> d.Empty? || (d.Parsed? && forall p: Permission :: LookupKey(d.config.permission) !in Synonyms(p))
  {
    d.Empty? || (d.Parsed? && NormalizePermission(d.config.permission).Err?)
  }
}
