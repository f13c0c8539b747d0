# Repository-access reconciler, modelled in Dafny

This project models `scripts/sync-repository-access.ts`, the script that makes the team grants on an
organisation's repositories match a directory of `.yml` config files. Each file names a repository,
a list of team slugs and a permission. The model covers two parts of the script:

- **The permission synonym table** (`normalizePermission`). It is modelled as a closed five-value
  datatype, `Permissions.Permission`, plus a `Result`-returning parser. Case folding is ASCII.
- **The reconciliation loop** (`syncRepositoryAccess`). The script filters the directory listing to
  `.yml` names. For each file it reads and parses the config and normalises the permission. It then
  lists the repository's teams, upserts every distinct desired team and removes every listed team
  that is not desired. A single `hadErrors` flag decides the exit status.
  - The file system and the hosting API are oracles. A file name maps to a `Document`: unreadable,
    empty, or a parsed `Config`.
  - An API response is looked up by the call's position in the run's event trace. `teamsAt(i)` is the
    team listing, or `None` when the call threw. `acceptsAt(i)` says whether the upsert or removal
    succeeded.
  - A run produces the trace of file reads and API calls, plus its `Outcome`. `Finished(hadErrors)`
    means the run completed. `Aborted(reason)` means an exception escaped the loop.

Files:

- `wrappers.dfy`: `Option` and `Result`.
- `permissions.dfy`: the parser, its lemmas, and the lookup as written (see Findings).
- `access_model.dfy`: the reconciliation as functions over the trace.
- `access_sync.dfy`: the same procedure as methods with loops. They append to the trace and update
  `hadErrors`, and each is proved equal to its function.
- `access_properties.dfy`: the lemmas that state what the reconciliation guarantees.

Four behaviours of the script are easy to misread. The model follows the code:

- **The permission is checked per file, inside the loop.** The check sits outside any `try`, so an
  invalid permission aborts the run after the earlier files have already been reconciled
  (`RunStopsAtFirstFatal`).
- **Not every upsert is isolated.** A failed upsert of a team that is *already listed* has no local
  `try`. It escapes to the repository-level `catch`, which skips the remaining upserts and all
  removals for that repository (`UpsertsIssueEveryTeam`, `ReconciledTrace`).
- **Removals follow the listing, not a set.** They iterate the array `listTeams` returned, so a slug
  listed twice would be removed twice (`Undesired`).
- **A config file that parses to `null` or `undefined` aborts the run.** An example is an empty or
  comment-only file. The destructuring at line 60 throws outside any `try` (`Document.Empty`,
  `Abort.MissingDocument`). A scalar document such as `42` destructures without error; its
  permission is then `undefined`, and line 61 aborts with `Invalid permission "undefined"`.

## Model

| member | source | states |
|---|---|---|
| Permissions.NormalizePermission | scripts/sync-repository-access.ts:14-31 | A success is one of the five levels, and the lowered key is one of that level's synonyms. A failure carries `Invalid permission "<input>". Use one of: pull \| triage \| push \| maintain \| admin` and means that no level lists the key. |
| Permissions.NormalizeMatchesSynonyms | scripts/sync-repository-access.ts:15-23 | For every input and level: normalising gives that level iff the lowered key is in the level's synonym set (read/pull → pull, write/push → push, the rest map to themselves). |
| Permissions.NormalizeTable | scripts/sync-repository-access.ts:15-28 | The seven table entries give their levels, `WRITE` gives push, and a missing value fails, its message showing `undefined`. |
| Permissions.NormalizeIgnoresCase | scripts/sync-repository-access.ts:24 | Two spellings that fold to the same lower-case string succeed or fail together and give the same level. A string normalises as its lower-case form does. |
| Permissions.NormalizeIdempotent | scripts/sync-repository-access.ts:16-22 | A level's API name is a key that maps back to that level: normalize(normalize(x)) == normalize(x). |
| Permissions.NormalizePermissionAsWritten | scripts/sync-repository-access.ts:24-30 | The lookup as written, on a JavaScript object. It throws with the fixed message exactly when the property is `undefined`, and inherited `Object.prototype` members count as found. |
| Permissions.InheritedKeyPassesGuard | scripts/sync-repository-access.ts:15-30 | As written, `Constructor` and `__proto__` pass the guard with a value that is none of the five levels. The corrected parser rejects `Constructor`. |
| Permissions.AsWrittenDiffersOnlyOnInherited | scripts/sync-repository-access.ts:15-30 | The as-written and corrected lookups agree on every success and every error message. They differ exactly on the keys `constructor` and `__proto__`. |
| Permissions.Lower | scripts/sync-repository-access.ts:24 | ASCII `toLowerCase`: the same length, no upper-case letter left, and each character either unchanged or an upper-case letter shifted to its lower-case form. |
| Permissions.LookupKey | scripts/sync-repository-access.ts:24 | The property name `input?.toLowerCase?.()` yields: a string input gives its lower-cased form (`Lower`), and a missing or non-string input gives the key `"undefined"`. |
| Permissions.TableEntry | scripts/sync-repository-access.ts:15-23 | The table's own entries: a found level lists the key among its synonyms, and a key that no level lists is not found. |
| Permissions.InvalidPermissionMessage | scripts/sync-repository-access.ts:26-28 | The message is `Invalid permission "`, then the input verbatim, and it ends with the list of levels. |
| Permissions.ValidLevelsAreCanonical | scripts/sync-repository-access.ts:27 | The list in the message is the five API names, `pull \| triage \| push \| maintain \| admin`, in the order of the `GithubPermission` type. |
| Permissions.TableProperty | scripts/sync-repository-access.ts:15-24 | Indexing the object literal: an own entry lists the key as a synonym; `constructor` and `__proto__`, and only they, find an inherited member; every other key is `undefined`. |
| AccessModel.Distinct | scripts/sync-repository-access.ts:73 | `new Set(teams)` holds exactly the elements of `teams` and is no longer than it. |
| AccessModel.IsConfigFile | scripts/sync-repository-access.ts:45 | `endsWith('.yml')`: the name is some stem followed by `.yml`. |
| AccessModel.ConfigFiles | scripts/sync-repository-access.ts:45 | The filtered listing is no longer than the listing, and every name in it is listed and ends in `.yml`. |
| AccessModel.Sync | scripts/sync-repository-access.ts:45-135 | The run starts from an empty trace with the flag false. With no `.yml` file, it makes no call and exits cleanly. Otherwise its first step reads the first `.yml` file in listing order. |
| AccessModel.Fatal | scripts/sync-repository-access.ts:60-61 | A document stops the run exactly when it is empty or its lowered permission key is no level's synonym. "Synonym" is the corrected parser's closed table; as written, `constructor` and `__proto__` do not stop the run. |
| AccessModel.Upserts | scripts/sync-repository-access.ts:77-104 | The upsert loop only appends to the trace, and it never clears `hadErrors`. |
| AccessModel.Removals | scripts/sync-repository-access.ts:107-124 | The removal loop only appends to the trace, and it never clears `hadErrors`. |
| AccessModel.Reconciled | scripts/sync-repository-access.ts:65-130 | One repository always issues its `listTeams` first, only appends to the trace, and never clears the flag. |
| AccessModel.RunFrom | scripts/sync-repository-access.ts:47-131 | The file loop only appends to the trace; calls already made are never undone. The flag is never cleared. |
| AccessModel.ExitCode | scripts/sync-repository-access.ts:133-135 | Exit status 0 exactly for a completed run with `hadErrors` false, and 1 otherwise. |
| AccessSync.ReconcileRepository | scripts/sync-repository-access.ts:65-130 | The loops produce exactly `Reconciled`'s trace and flag. After the listing, every call names the repository and either upserts a desired team with the normalised level or removes a listed team that is not desired. |
| AccessSync.SyncRepositoryAccess | scripts/sync-repository-access.ts:45-135 | The loop produces exactly `Sync`'s trace and outcome. It completes iff no `.yml` file is fatal, "fatal" meaning empty or rejected by the corrected parser (as written, `constructor` and `__proto__` are not). A completed run reads exactly the `.yml` files in listing order, and exits 1 iff some read or call failed. |
| AccessProperties.DistinctIsSetOrder | scripts/sync-repository-access.ts:73 | `new Set(teams)` iterates every team exactly once, with no duplicates, ordered by first occurrence in `teams`. |
| AccessProperties.UpsertsIssueEveryTeam | scripts/sync-repository-access.ts:77-104 | One upsert per team, in order, whether or not it is listed, up to and including the first listed team whose upsert fails. Only that failure stops the loop (escape iff it exists); a failed upsert of an unlisted team does not. |
| AccessProperties.Undesired | scripts/sync-repository-access.ts:107-108 | A slug is removed iff it is listed and not desired. |
| AccessProperties.RemovalsIssueEveryUndesired | scripts/sync-repository-access.ts:107-124 | Exactly one removal per listed team that is not desired, in listing order, whatever earlier removals returned. |
| AccessProperties.ReconciledTrace | scripts/sync-repository-access.ts:65-124 | When the listing succeeds, the repository's calls are: the listing, then upserts for the distinct desired teams up to the first escaping failure. Removals for the undesired listed teams follow only when nothing escaped. An escape sets the flag. |
| AccessProperties.ReconciledListingFailure | scripts/sync-repository-access.ts:65-70 | A failed `listTeams` issues nothing else for that repository and sets the flag. |
| AccessProperties.ReconciledTouchesOnlyNamedTeams | scripts/sync-repository-access.ts:77-124 | After the listing, every call names the repository. It either upserts a desired team with the normalised level or removes a listed team that is not desired. No desired team is removed, and no team outside both lists is touched. |
| AccessProperties.UpsertsFlag | scripts/sync-repository-access.ts:78-103 | After the upsert loop, the flag or the escape is set iff the flag was set before or one of its upserts failed. |
| AccessProperties.RemovalsFlag | scripts/sync-repository-access.ts:107-124 | After the removal loop, the flag is set iff it was set before or one of its removals failed. |
| AccessProperties.ReconciledFlag | scripts/sync-repository-access.ts:65-130 | After one repository, the flag is set iff it was set before or one of that repository's calls failed. |
| AccessProperties.SucceedingCallsKeepFlag | scripts/sync-repository-access.ts:65-130 | If the listing and every call succeed, one repository leaves the flag as it was. |
| AccessProperties.ReconcileConverges | scripts/sync-repository-access.ts:73-124 | Suppose the listing names exactly the granted teams and every call succeeds. Then the calls leave exactly the desired teams holding the normalised level, and the flag is unchanged. |
| AccessProperties.ReconcileAfterConvergence | scripts/sync-repository-access.ts:77-124 | On a converged repository, the same upserts are issued again, one per distinct desired team, and no removal. |
| AccessProperties.ReconcileExample | scripts/sync-repository-access.ts:73-124 | With current teams [A, B] and desired [B, C], the calls are: list, upsert B, upsert C, remove A, and no error. |
| AccessProperties.RunFromAppend | scripts/sync-repository-access.ts:49-131 | Running over a + b is running over a and then, unless a aborted, over b. A caught failure never stops later files. |
| AccessProperties.RunFinishesIffNoFatal | scripts/sync-repository-access.ts:50-61 | The run completes iff no config file parses to `null` or `undefined` and none names an invalid permission. "Invalid permission" means one the corrected parser rejects; as written, `constructor` and `__proto__` do not abort. |
| AccessProperties.RunStopsAtFirstFatal | scripts/sync-repository-access.ts:49-61 | At the first fatal file k, the run stops right after reading it, with that file's exception. Files 0..k-1 have already been fully reconciled. "Invalid permission" means one the corrected parser rejects; as written, `constructor` and `__proto__` do not abort. |
| AccessProperties.RunFlag | scripts/sync-repository-access.ts:47-131 | In a completed run, the flag ends set iff it started set or some file read or API call failed. |
| AccessProperties.RunReadsFilesInOrder | scripts/sync-repository-access.ts:49-59 | A completed run reads each given file once, in order, and reads nothing else. |
| AccessProperties.ConfigFilesFilter | scripts/sync-repository-access.ts:45 | A name is a config file iff it is listed and ends in `.yml`. The filter keeps listing order. |
| AccessProperties.SyncOutcome | scripts/sync-repository-access.ts:45-135 | A run over a listing completes iff no `.yml` file is fatal. A completed run reads exactly the `.yml` files, in listing order, and exits 1 iff some read or call failed. "Invalid permission" means one the corrected parser rejects; as written, `constructor` and `__proto__` do not abort. |

## Left out

- The three Octokit calls (`listTeams`, `addOrUpdateRepoPermissionsInOrg`, `removeRepoInOrg`) are
  foreign network calls. Only their success or failure, and the listed slugs, enter the model, via
  the `Api` oracle. HTTP, authentication, rate limits and the reported permission levels are not
  modelled.
- `listTeams` at line 67 is called without pagination, so it returns only the first page of team
  grants (Octokit's documented default is 30 per page). `teamsAt` stands for that one page. A
  repository with more grants than a page never has a team beyond it removed, and
  `ReconcileConverges` assumes the listing names every granted team, so it does not cover that case.
- `fs.readdirSync`, `fs.readFileSync` and `yaml.load` are I/O. The listing is a given sequence of
  names, and each file maps to a `Document`. A directory that cannot be listed is not modelled.
- Config field types are not modelled. `repository` is a string, and `teams` is a list of strings
  that stands for `[]` when absent. YAML values of other types are out of scope: numeric slugs, or a
  string `teams`, which a `Set` would split into characters.
- The `ORG_NAME` and `GITHUB_TOKEN` checks and `process.exit` (lines 6-10, 34-41) are environment
  plumbing. The exit status is the function `ExitCode`.
- AccessModel.ExitCode: an aborted run is given status 1. That is Node's default for an unhandled
  promise rejection, and older runtime modes that only warn are not modelled.
- Console output is not a stable contract. No log text is modelled beyond the normaliser's error
  message.
- `toLowerCase` is modelled as ASCII case folding only; full Unicode case mapping is left out.
- `async`/`await` is not modelled. Every call is awaited at once, in sequence, so the trace order is
  the call order.
- AccessProperties.RunFinishesIffNoFatal: an invalid permission is one the corrected parser rejects.
  As written, a `constructor` or `__proto__` permission passes the guard and the run goes on.
- AccessProperties.RunStopsAtFirstFatal: the same; as written, those two keys are not fatal.
- AccessProperties.SyncOutcome: the same; as written, those two keys do not stop the run.
- AccessModel.Fatal: the same; as written, those two keys are not fatal.
- AccessSync.SyncRepositoryAccess: the same; as written, those two keys do not stop the run.
- The reconciler uses the corrected parser (see Findings). The trace carries a `Permission`, so the
  as-written path, which sends a non-permission value to the API, is not followed past the parser.
- `scripts/validate.ts` is not part of this model. It is environment checks, a file-existence check,
  YAML loading and one repository lookup per entry, with only the same error-flag pattern around them.

## Findings

| source | as written | input that shows it | evidently intended | confidence | as-written member | corrected member |
|---|---|---|---|---|---|---|
| scripts/sync-repository-access.ts:15-30 | The table is a plain object literal and `map[key]` also finds inherited `Object.prototype` members. After lower-casing, `constructor` and `__proto__` are reachable. Both are truthy, so `!normalized` does not throw and the function returns the `Object` function or `Object.prototype` as a "permission". | a config with `permission: Constructor` (or `__proto__`) | Only the seven own keys are accepted, and everything else throws `Invalid permission …` | high; not executed | Permissions.InheritedKeyPassesGuard | Permissions.NormalizeMatchesSynonyms |
