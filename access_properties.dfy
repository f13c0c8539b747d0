/** What the reconciliation guarantees, proved about the functions of AccessModel. */
module AccessProperties {
  import opened Wrappers
  import opened Permissions
  import opened AccessModel

  // ---------------------------------------------------------------------------
  // The desired set

  /** Position of the first occurrence of x in xs. */
  function FirstIndex(xs: seq<string>, x: string): (k: nat)
    requires x in xs
    ensures k < |xs| && xs[k] == x && x !in xs[..k]
  {
    if xs[0] == x then 0 else 1 + FirstIndex(xs[1..], x)
  }

  lemma FirstIndexOfPrefix(ys: seq<string>, zs: seq<string>, x: string)
    requires x in ys
    ensures FirstIndex(ys + zs, x) == FirstIndex(ys, x)
  {
    if ys[0] != x {
      assert (ys + zs)[1..] == ys[1..] + zs;
      FirstIndexOfPrefix(ys[1..], zs, x);
    }
  }

  /** `new Set(xs)` holds exactly the elements of xs, each once, in the order of their first occurrence. */
  lemma {:induction false} DistinctIsSetOrder(xs: seq<string>)
    ensures forall x :: x in Distinct(xs) <==> x in xs
    ensures forall i, j :: 0 <= i < j < |Distinct(xs)| ==> Distinct(xs)[i] != Distinct(xs)[j]
    ensures forall i, j :: 0 <= i < j < |Distinct(xs)| ==>
      FirstIndex(xs, Distinct(xs)[i]) < FirstIndex(xs, Distinct(xs)[j])
  {
    if xs != [] {
      var ys, last := xs[..|xs| - 1], xs[|xs| - 1];
      assert xs == ys + [last];
      DistinctIsSetOrder(ys);
      var d := Distinct(ys);
      forall y | y in ys
        ensures FirstIndex(xs, y) == FirstIndex(ys, y)
      {
        FirstIndexOfPrefix(ys, [last], y);
      }
      if last !in d {
        assert FirstIndex(xs, last) == |ys|;
      }
    }
  }

  // ---------------------------------------------------------------------------
  // The upsert loop

  function UpsertEvents(repo: string, teams: seq<string>, p: Permission): seq<Event>
  {
    seq(|teams|, i requires 0 <= i < |teams| => Upsert(repo, teams[i], p))
  }

  function RemoveEvents(repo: string, teams: seq<string>): seq<Event>
  {
    seq(|teams|, i requires 0 <= i < |teams| => Remove(repo, teams[i]))
  }

  /** The loop issues one upsert per team to visit, in order, whether or not the team is listed, up to
      and including the first listed team whose upsert fails (index k, or k == |todo| when none does);
      only that failure stops it. A failed upsert of a team that is not listed does not. */
  lemma {:induction false} UpsertsIssueEveryTeam(api: Api, repo: string, todo: seq<string>, listed: seq<string>,
                                                  p: Permission, st: State, k: nat)
    requires k <= |todo|
    requires forall j :: 0 <= j < k && todo[j] in listed ==> api.acceptsAt(|st.trace| + j)
    requires k < |todo| ==> todo[k] in listed && !api.acceptsAt(|st.trace| + k)
    ensures Upserts(api, repo, todo, listed, p, st).1 == (k < |todo|)
    ensures Upserts(api, repo, todo, listed, p, st).0.trace ==
      st.trace + UpsertEvents(repo, todo[..if k < |todo| then k + 1 else k], p)
    decreases |todo|
  {
    if todo == [] {
    } else if k == 0 {
      assert todo[..1] == [todo[0]];
    } else {
      var ok := api.acceptsAt(|st.trace|);
      var next := st.(trace := st.trace + [Upsert(repo, todo[0], p)]);
      var next' := if todo[0] !in listed && !ok then next.(hadErrors := true) else next;
      assert todo[0] in listed ==> ok;
      assert Upserts(api, repo, todo, listed, p, st) == Upserts(api, repo, todo[1..], listed, p, next');
      forall j | 0 <= j < k - 1 && todo[1..][j] in listed
        ensures api.acceptsAt(|next'.trace| + j)
      {
        assert todo[j + 1] in listed;
      }
      UpsertsIssueEveryTeam(api, repo, todo[1..], listed, p, next', k - 1);
      var m := if k < |todo| then k + 1 else k;
      assert todo[1..][..m - 1] == todo[..m][1..];
      UpsertEventsCons(repo, todo[..m], p);
    }
  }

  lemma UpsertEventsCons(repo: string, teams: seq<string>, p: Permission)
    requires teams != []
    ensures UpsertEvents(repo, teams, p) == [Upsert(repo, teams[0], p)] + UpsertEvents(repo, teams[1..], p)
  {
  }

  // ---------------------------------------------------------------------------
  // The removal loop

  /** The listed teams that are not desired, in listing order (a listed slug that occurs twice is
      removed twice). */
  function Undesired(listed: seq<string>, desired: seq<string>): (u: seq<string>)
    ensures forall x :: x in u <==> x in listed && x !in desired
  {
    if listed == [] then []
    else (if listed[0] in desired then [] else [listed[0]]) + Undesired(listed[1..], desired)
  }

  /** The removal loop issues exactly one removal per listed team that is not desired, in listing order,
      whatever the outcome of earlier removals. */
  lemma {:induction false} RemovalsIssueEveryUndesired(api: Api, repo: string, todo: seq<string>,
                                                       desired: seq<string>, st: State)
    ensures Removals(api, repo, todo, desired, st).trace == st.trace + RemoveEvents(repo, Undesired(todo, desired))
    decreases |todo|
  {
    if todo != [] {
      var next := if todo[0] in desired then st
                  else State(st.trace + [Remove(repo, todo[0])], st.hadErrors || !api.acceptsAt(|st.trace|));
      RemovalsIssueEveryUndesired(api, repo, todo[1..], desired, next);
      var u := Undesired(todo[1..], desired);
      if todo[0] !in desired {
        assert RemoveEvents(repo, [todo[0]] + u) == [Remove(repo, todo[0])] + RemoveEvents(repo, u);
      } else {
        assert [] + u == u;
      }
    }
  }

  lemma UndesiredRespectsMembership(listed: seq<string>, d1: seq<string>, d2: seq<string>)
    requires forall x :: x in d1 <==> x in d2
    ensures Undesired(listed, d1) == Undesired(listed, d2)
  {
  }

  // ---------------------------------------------------------------------------
  // One repository

  /** The calls for one repository whose listing succeeds: the listing, then one upsert per distinct
      desired team in first-occurrence order up to the first failing upsert of an already-listed team
      (index k, or k == |desired| when none fails), then, only if none failed that way, one removal per
      listed team not desired, in listing order. An escaped failure sets the flag. */
  lemma ReconciledTrace(api: Api, cfg: Config, p: Permission, st: State, current: seq<string>, k: nat)
    requires api.teamsAt(|st.trace|) == Some(current)
    requires k <= |Distinct(cfg.teams)|
    requires forall j :: 0 <= j < k && Distinct(cfg.teams)[j] in current ==> api.acceptsAt(|st.trace| + 1 + j)
    requires k < |Distinct(cfg.teams)| ==>
      Distinct(cfg.teams)[k] in current && !api.acceptsAt(|st.trace| + 1 + k)
    ensures Reconciled(api, cfg, p, st).trace ==
      st.trace + [ListTeams(cfg.repository)]
      + UpsertEvents(cfg.repository, Distinct(cfg.teams)[..if k < |Distinct(cfg.teams)| then k + 1 else k], p)
      + (if k < |Distinct(cfg.teams)| then [] else RemoveEvents(cfg.repository, Undesired(current, cfg.teams)))
    ensures k < |Distinct(cfg.teams)| ==> Reconciled(api, cfg, p, st).hadErrors
  {
    var d := Distinct(cfg.teams);
    var listedState := st.(trace := st.trace + [ListTeams(cfg.repository)]);
    UpsertsIssueEveryTeam(api, cfg.repository, d, current, p, listedState, k);
    var afterUpserts := Upserts(api, cfg.repository, d, current, p, listedState).0;
    RemovalsIssueEveryUndesired(api, cfg.repository, current, d, afterUpserts);
    DistinctIsSetOrder(cfg.teams);
    UndesiredRespectsMembership(current, d, cfg.teams);
  }

  /** A failed listing ends the repository at once: nothing but the listing is issued and the flag is set. */
  lemma ReconciledListingFailure(api: Api, cfg: Config, p: Permission, st: State)
    requires api.teamsAt(|st.trace|).None?
    ensures Reconciled(api, cfg, p, st) == State(st.trace + [ListTeams(cfg.repository)], true)
  {
  }

  /** Every call made for one repository after the listing names that repository and either upserts a
      desired team with the normalised level, or removes a listed team that is not desired: no desired
      team is removed and no team outside both lists is touched. */
  lemma ReconciledTouchesOnlyNamedTeams(api: Api, cfg: Config, p: Permission, st: State)
    ensures forall i :: |st.trace| < i < |Reconciled(api, cfg, p, st).trace| ==>
      var e := Reconciled(api, cfg, p, st).trace[i];
      (e.Upsert? && e.repo == cfg.repository && e.team in cfg.teams && e.permission == p) ||
      (e.Remove? && e.repo == cfg.repository && e.team !in cfg.teams &&
       api.teamsAt(|st.trace|).Some? && e.team in api.teamsAt(|st.trace|).value)
  {
    var r := Reconciled(api, cfg, p, st);
    var listedState := st.(trace := st.trace + [ListTeams(cfg.repository)]);
    if api.teamsAt(|st.trace|).Some? {
      var current := api.teamsAt(|st.trace|).value;
      var d := Distinct(cfg.teams);
      DistinctIsSetOrder(cfg.teams);
      var (afterUpserts, escaped) := Upserts(api, cfg.repository, d, current, p, listedState);
      UpsertsOnlyDesired(api, cfg.repository, d, current, p, listedState);
      if !escaped {
        RemovalsOnlyUndesired(api, cfg.repository, current, d, afterUpserts);
      }
    }
  }

  lemma {:induction false} UpsertsOnlyDesired(api: Api, repo: string, todo: seq<string>, listed: seq<string>,
                                               p: Permission, st: State)
    ensures forall i :: |st.trace| <= i < |Upserts(api, repo, todo, listed, p, st).0.trace| ==>
      var e := Upserts(api, repo, todo, listed, p, st).0.trace[i];
      e.Upsert? && e.repo == repo && e.team in todo && e.permission == p
    decreases |todo|
  {
    if todo != [] {
      var ok := api.acceptsAt(|st.trace|);
      var next := st.(trace := st.trace + [Upsert(repo, todo[0], p)]);
      var next' := if todo[0] !in listed && !ok then next.(hadErrors := true) else next;
      if todo[0] !in listed || ok {
        UpsertsOnlyDesired(api, repo, todo[1..], listed, p, next');
        var r := Upserts(api, repo, todo[1..], listed, p, next');
        assert Upserts(api, repo, todo, listed, p, st) == r;
        forall i | |st.trace| <= i < |r.0.trace|
          ensures r.0.trace[i].Upsert? && r.0.trace[i].team in todo
        {
          if i == |st.trace| {
            assert r.0.trace[i] == next'.trace[i];
          } else {
            assert r.0.trace[i].team in todo[1..];
          }
        }
      }
    }
  }

  lemma {:induction false} RemovalsOnlyUndesired(api: Api, repo: string, todo: seq<string>,
                                                  desired: seq<string>, st: State)
    ensures forall i :: |st.trace| <= i < |Removals(api, repo, todo, desired, st).trace| ==>
      var e := Removals(api, repo, todo, desired, st).trace[i];
      e.Remove? && e.repo == repo && e.team in todo && e.team !in desired
    decreases |todo|
  {
    if todo != [] {
      var next := if todo[0] in desired then st
                  else State(st.trace + [Remove(repo, todo[0])], st.hadErrors || !api.acceptsAt(|st.trace|));
      RemovalsOnlyUndesired(api, repo, todo[1..], desired, next);
      var r := Removals(api, repo, todo[1..], desired, next);
      assert Removals(api, repo, todo, desired, st) == r;
      forall i | |st.trace| <= i < |r.trace|
        ensures r.trace[i].Remove? && r.trace[i].team in todo && r.trace[i].team !in desired
      {
        if i < |next.trace| {
          assert r.trace[i] == next.trace[i];
        } else {
          assert r.trace[i].team in todo[1..];
        }
      }
    }
  }

  // ---------------------------------------------------------------------------
  // The error flag

  /** Some step at a trace position in [lo, hi) failed. For a segment made of one repository's calls,
      `read` plays no part (see Failed). */
  ghost predicate FailureBetween(api: Api, read: string -> Document, trace: seq<Event>, lo: nat, hi: nat)
    requires hi <= |trace|
  {
    exists i :: lo <= i < hi && Failed(api, read, trace[i], i)
  }

  lemma FailureBetweenExtends(api: Api, read: string -> Document, t1: seq<Event>, t2: seq<Event>, lo: nat, mid: nat)
    requires t1 <= t2 && lo <= mid <= |t1|
    ensures FailureBetween(api, read, t2, lo, |t2|) ==
      (FailureBetween(api, read, t1, lo, mid) || FailureBetween(api, read, t2, mid, |t2|))
  {
    if FailureBetween(api, read, t2, lo, |t2|) {
      var i :| lo <= i < |t2| && Failed(api, read, t2[i], i);
      if i < mid {
        assert t1[i] == t2[i];
      }
    }
    if FailureBetween(api, read, t1, lo, mid) {
      var i :| lo <= i < mid && Failed(api, read, t1[i], i);
      assert t1[i] == t2[i];
    }
  }

  /** The flag after the upsert loop, or the escape, records exactly whether one of its calls failed. */
  lemma {:induction false} UpsertsFlag(api: Api, read: string -> Document, repo: string, todo: seq<string>,
                                       listed: seq<string>, p: Permission, st: State)
    ensures var r := Upserts(api, repo, todo, listed, p, st);
      (r.0.hadErrors || r.1) == (st.hadErrors || FailureBetween(api, read, r.0.trace, |st.trace|, |r.0.trace|))
    decreases |todo|
  {
    if todo != [] {
      var ok := api.acceptsAt(|st.trace|);
      var next := st.(trace := st.trace + [Upsert(repo, todo[0], p)]);
      var next' := if todo[0] !in listed && !ok then next.(hadErrors := true) else next;
      var r := Upserts(api, repo, todo, listed, p, st);
      assert Failed(api, read, next.trace[|st.trace|], |st.trace|) == !ok;
      if todo[0] !in listed || ok {
        UpsertsFlag(api, read, repo, todo[1..], listed, p, next');
        assert r == Upserts(api, repo, todo[1..], listed, p, next');
        FailureBetweenExtends(api, read, next.trace, r.0.trace, |st.trace|, |next.trace|);
      } else {
        assert r == (next, true);
        assert FailureBetween(api, read, r.0.trace, |st.trace|, |r.0.trace|);
      }
    }
  }

  /** The flag after the removal loop records exactly whether one of its removals failed. */
  lemma {:induction false} RemovalsFlag(api: Api, read: string -> Document, repo: string, todo: seq<string>,
                                        desired: seq<string>, st: State)
    ensures var r := Removals(api, repo, todo, desired, st);
      r.hadErrors == (st.hadErrors || FailureBetween(api, read, r.trace, |st.trace|, |r.trace|))
    decreases |todo|
  {
    if todo != [] {
      var r := Removals(api, repo, todo, desired, st);
      if todo[0] in desired {
        RemovalsFlag(api, read, repo, todo[1..], desired, st);
      } else {
        var next := State(st.trace + [Remove(repo, todo[0])], st.hadErrors || !api.acceptsAt(|st.trace|));
        RemovalsFlag(api, read, repo, todo[1..], desired, next);
        assert Failed(api, read, next.trace[|st.trace|], |st.trace|) == !api.acceptsAt(|st.trace|);
        FailureBetweenExtends(api, read, next.trace, r.trace, |st.trace|, |next.trace|);
      }
    }
  }

  /** After one repository the flag is set exactly when it was set before or one of that repository's
      calls failed: every failure is caught somewhere, and nothing else sets the flag. */
  lemma ReconciledFlag(api: Api, read: string -> Document, cfg: Config, p: Permission, st: State)
    ensures var r := Reconciled(api, cfg, p, st);
      r.hadErrors == (st.hadErrors || FailureBetween(api, read, r.trace, |st.trace|, |r.trace|))
  {
    var r := Reconciled(api, cfg, p, st);
    var listedState := st.(trace := st.trace + [ListTeams(cfg.repository)]);
    assert Failed(api, read, listedState.trace[|st.trace|], |st.trace|) == api.teamsAt(|st.trace|).None?;
    if api.teamsAt(|st.trace|).None? {
      assert FailureBetween(api, read, r.trace, |st.trace|, |r.trace|);
    } else {
      var current := api.teamsAt(|st.trace|).value;
      var d := Distinct(cfg.teams);
      var (afterUpserts, escaped) := Upserts(api, cfg.repository, d, current, p, listedState);
      UpsertsFlag(api, read, cfg.repository, d, current, p, listedState);
      FailureBetweenExtends(api, read, listedState.trace, afterUpserts.trace, |st.trace|, |listedState.trace|);
      if !escaped {
        RemovalsFlag(api, read, cfg.repository, current, d, afterUpserts);
        FailureBetweenExtends(api, read, afterUpserts.trace, r.trace, |st.trace|, |afterUpserts.trace|);
        FailureBetweenExtends(api, read, afterUpserts.trace, r.trace, |listedState.trace|, |afterUpserts.trace|);
      }
    }
  }

  // ---------------------------------------------------------------------------
  // Convergence: what the calls do to the repository's team grants

  /** The team grants of one repository after one call has taken effect. */
  function ApplyOne(grants: map<string, Permission>, e: Event): map<string, Permission>
  {
    match e
    case Upsert(_, team, level) => grants[team := level]
    case Remove(_, team) => grants - {team}
    case _ => grants
  }

  /** The team grants of one repository after the given calls have all taken effect, in order. */
  function Apply(grants: map<string, Permission>, events: seq<Event>): map<string, Permission>
    decreases |events|
  {
    if events == [] then grants else Apply(ApplyOne(grants, events[0]), events[1..])
  }

  lemma {:induction false} ApplyAppend(grants: map<string, Permission>, e1: seq<Event>, e2: seq<Event>)
    ensures Apply(grants, e1 + e2) == Apply(Apply(grants, e1), e2)
    decreases |e1|
  {
    if e1 != [] {
      assert (e1 + e2)[0] == e1[0] && (e1 + e2)[1..] == e1[1..] + e2;
      ApplyAppend(ApplyOne(grants, e1[0]), e1[1..], e2);
    } else {
      assert e1 + e2 == e2;
    }
  }

  lemma {:induction false} ApplyUpserts(grants: map<string, Permission>, repo: string, teams: seq<string>, p: Permission)
    ensures Apply(grants, UpsertEvents(repo, teams, p)) == grants + (map t | t in teams :: p)
    decreases |teams|
  {
    if teams == [] {
      assert grants + (map t | t in teams :: p) == grants;
    } else {
      UpsertEventsCons(repo, teams, p);
      ApplyUpserts(grants[teams[0] := p], repo, teams[1..], p);
      assert grants[teams[0] := p] + (map t | t in teams[1..] :: p) == grants + (map t | t in teams :: p);
    }
  }

  lemma {:induction false} ApplyRemoves(grants: map<string, Permission>, repo: string, teams: seq<string>)
    ensures Apply(grants, RemoveEvents(repo, teams)) == grants - (set t | t in teams)
    decreases |teams|
  {
    if teams == [] {
      assert grants - (set t | t in teams) == grants;
    } else {
      assert RemoveEvents(repo, teams) == [Remove(repo, teams[0])] + RemoveEvents(repo, teams[1..]);
      ApplyRemoves(grants - {teams[0]}, repo, teams[1..]);
      assert grants - {teams[0]} - (set t | t in teams[1..]) == grants - (set t | t in teams);
    }
  }

  /** When the listing reports exactly the teams that hold a grant and every call succeeds, one
      repository's calls leave exactly the desired teams holding the normalised level, and the flag
      is untouched. */
  lemma ReconcileConverges(api: Api, read: string -> Document, cfg: Config, p: Permission, st: State,
                           grants: map<string, Permission>)
    requires api.teamsAt(|st.trace|).Some?
    requires forall t :: t in api.teamsAt(|st.trace|).value <==> t in grants
    requires forall i :: api.acceptsAt(i)
    ensures Reconciled(api, cfg, p, st).hadErrors == st.hadErrors
    ensures Apply(grants, Reconciled(api, cfg, p, st).trace[|st.trace|..]) == map t | t in cfg.teams :: p
  {
    ConvergedGrants(api, cfg, p, st, grants);
    SucceedingCallsKeepFlag(api, read, cfg, p, st);
  }

  lemma SucceedingCallsKeepFlag(api: Api, read: string -> Document, cfg: Config, p: Permission, st: State)
    requires api.teamsAt(|st.trace|).Some?
    requires forall i :: api.acceptsAt(i)
    ensures Reconciled(api, cfg, p, st).hadErrors == st.hadErrors
  {
    var r := Reconciled(api, cfg, p, st);
    ReconciledFlag(api, read, cfg, p, st);
    ReconciledTouchesOnlyNamedTeams(api, cfg, p, st);
    forall i | |st.trace| <= i < |r.trace|
      ensures !Failed(api, read, r.trace[i], i)
    {
    }
  }

  lemma ConvergedGrants(api: Api, cfg: Config, p: Permission, st: State, grants: map<string, Permission>)
    requires api.teamsAt(|st.trace|).Some?
    requires forall t :: t in api.teamsAt(|st.trace|).value <==> t in grants
    requires forall i :: api.acceptsAt(i)
    ensures Apply(grants, Reconciled(api, cfg, p, st).trace[|st.trace|..]) == map t | t in cfg.teams :: p
  {
    var current := api.teamsAt(|st.trace|).value;
    var d := Distinct(cfg.teams);
    var u := Undesired(current, cfg.teams);
    var ups, rems := UpsertEvents(cfg.repository, d, p), RemoveEvents(cfg.repository, u);
    ReconciledTrace(api, cfg, p, st, current, |d|);
    assert d[..|d|] == d;
    assert Reconciled(api, cfg, p, st).trace[|st.trace|..] == [ListTeams(cfg.repository)] + ups + rems;
    ApplyAppend(grants, [ListTeams(cfg.repository)] + ups, rems);
    ApplyAppend(grants, [ListTeams(cfg.repository)], ups);
    assert Apply(grants, [ListTeams(cfg.repository)]) == grants;
    ApplyUpserts(grants, cfg.repository, d, p);
    ApplyRemoves(grants + (map t | t in d :: p), cfg.repository, u);
    DistinctIsSetOrder(cfg.teams);
    UpsertThenRemoveGrants(grants, current, cfg.teams, d, p);
  }

  /** Granting p to every desired team and then revoking every listed team that is not desired leaves
      exactly the desired teams, when the listing names exactly the granted teams. */
  lemma UpsertThenRemoveGrants(grants: map<string, Permission>, current: seq<string>, teams: seq<string>,
                               d: seq<string>, p: Permission)
    requires forall t :: t in current <==> t in grants
    requires forall t :: t in d <==> t in teams
    ensures (grants + (map t | t in d :: p)) - (set t | t in Undesired(current, teams)) == (map t | t in teams :: p)
  {
    var lhs := (grants + (map t | t in d :: p)) - (set t | t in Undesired(current, teams));
    assert lhs.Keys == (map t | t in teams :: p).Keys;
  }

  lemma {:induction false} UndesiredEmpty(listed: seq<string>, desired: seq<string>)
    requires forall t :: t in listed ==> t in desired
    ensures Undesired(listed, desired) == []
    decreases |listed|
  {
    if listed != [] {
      UndesiredEmpty(listed[1..], desired);
    }
  }

  /** Once the listing holds only desired teams (a converged repository), the same upserts are issued
      again, one per distinct desired team, and no removal: upserts do not depend on drift. */
  lemma ReconcileAfterConvergence(api: Api, cfg: Config, p: Permission, st: State)
    requires api.teamsAt(|st.trace|).Some?
    requires forall t :: t in api.teamsAt(|st.trace|).value ==> t in cfg.teams
    requires forall i :: api.acceptsAt(i)
    ensures Reconciled(api, cfg, p, st).trace ==
      st.trace + [ListTeams(cfg.repository)] + UpsertEvents(cfg.repository, Distinct(cfg.teams), p)
  {
    var current := api.teamsAt(|st.trace|).value;
    var d := Distinct(cfg.teams);
    ReconciledTrace(api, cfg, p, st, current, |d|);
    assert d[..|d|] == d;
    UndesiredEmpty(current, cfg.teams);
    assert RemoveEvents(cfg.repository, []) == [];
  }

  /** Current teams [a, b], desired [b, c], every call succeeds: upsert b, upsert c, remove a, and no error. */
  lemma ReconcileExample(api: Api, repo: string, a: string, b: string, c: string, p: Permission, st: State)
    requires a != b && b != c && a != c
    requires api.teamsAt(|st.trace|) == Some([a, b])
    requires forall i :: api.acceptsAt(i)
    ensures Reconciled(api, Config(repo, [b, c], Text("push")), p, st) ==
      State(st.trace + [ListTeams(repo), Upsert(repo, b, p), Upsert(repo, c, p), Remove(repo, a)], st.hadErrors)
  {
    var cfg := Config(repo, [b, c], Text("push"));
    var upserts, removals := [Upsert(repo, b, p), Upsert(repo, c, p)], [Remove(repo, a)];
    assert Distinct([b, c]) == [b, c] by {
      assert [b, c][..1] == [b];
      assert Distinct([b]) == [b];
    }
    assert UpsertEvents(repo, [b, c][..2], p) == upserts by {
      assert [b, c][..2] == [b, c];
    }
    assert RemoveEvents(repo, Undesired([a, b], [b, c])) == removals by {
      assert [a, b][1..] == [b] && [b][1..] == [];
      assert Undesired([b], [b, c]) == [] + Undesired([], [b, c]);
    }
    ReconciledTrace(api, cfg, p, st, [a, b], 2);
    // Any read oracle will do: this repository's calls contain no file read.
    SucceedingCallsKeepFlag(api, _ => Unreadable, cfg, p, st);
  }

  // ---------------------------------------------------------------------------
  // The whole run

  /** Running over a + b is running over a, then, unless a stopped the run, over b from where a left
      off: a failure that is caught never keeps later files from being processed. */
  lemma {:induction false} RunFromAppend(api: Api, read: string -> Document, a: seq<string>, b: seq<string>, st: State)
    ensures RunFrom(api, read, a + b, st) ==
      (if RunFrom(api, read, a, st).1.Some? then RunFrom(api, read, a, st)
       else RunFrom(api, read, b, RunFrom(api, read, a, st).0))
    decreases |a|
  {
    if a == [] {
      assert a + b == b;
    } else {
      assert (a + b)[0] == a[0] && (a + b)[1..] == a[1..] + b;
      var afterRead := st.(trace := st.trace + [ReadFile(a[0])]);
      match read(a[0])
      case Unreadable =>
        RunFromAppend(api, read, a[1..], b, afterRead.(hadErrors := true));
      case Empty =>
      case Parsed(cfg) =>
        if NormalizePermission(cfg.permission).Ok? {
          var p := NormalizePermission(cfg.permission).value;
          RunFromAppend(api, read, a[1..], b, Reconciled(api, cfg, p, afterRead));
        }
    }
  }

  /** The uncaught exception a fatal document raises. */
  function AbortFor(d: Document): Abort
    requires Fatal(d)
  {
    if d.Empty? then MissingDocument else InvalidPermission(NormalizePermission(d.config.permission).message)
  }

  /** The run completes exactly when no config file is empty or names an invalid permission. */
  lemma {:induction false} RunFinishesIffNoFatal(api: Api, read: string -> Document, files: seq<string>, st: State)
    ensures RunFrom(api, read, files, st).1.None? <==> forall j :: 0 <= j < |files| ==> !Fatal(read(files[j]))
    decreases |files|
  {
    if files != [] {
      var afterRead := st.(trace := st.trace + [ReadFile(files[0])]);
      match read(files[0])
      case Unreadable =>
        RunFinishesIffNoFatal(api, read, files[1..], afterRead.(hadErrors := true));
      case Empty =>
      case Parsed(cfg) =>
        if NormalizePermission(cfg.permission).Ok? {
          var p := NormalizePermission(cfg.permission).value;
          RunFinishesIffNoFatal(api, read, files[1..], Reconciled(api, cfg, p, afterRead));
        }
      forall j | 1 <= j < |files| ensures files[j] == files[1..][j - 1] { }
    }
  }

  /** The permission check runs per file, inside the loop: at the first fatal file k the run stops with
      its exception right after reading it, and files 0..k-1 have already been fully reconciled. */
  lemma RunStopsAtFirstFatal(api: Api, read: string -> Document, files: seq<string>, st: State, k: nat)
    requires k < |files| && Fatal(read(files[k]))
    requires forall j :: 0 <= j < k ==> !Fatal(read(files[j]))
    ensures RunFrom(api, read, files[..k], st).1.None?
    ensures RunFrom(api, read, files, st) ==
      (var before := RunFrom(api, read, files[..k], st).0;
       (before.(trace := before.trace + [ReadFile(files[k])]), Some(AbortFor(read(files[k])))))
  {
    RunFinishesIffNoFatal(api, read, files[..k], st);
    assert files == files[..k] + [files[k]] + files[k + 1..];
    RunFromAppend(api, read, files[..k] + [files[k]], files[k + 1..], st);
    RunFromAppend(api, read, files[..k], [files[k]], st);
  }

  /** In a completed run the flag ends set exactly when it started set or some read or call failed. */
  lemma {:induction false} RunFlag(api: Api, read: string -> Document, files: seq<string>, st: State)
    ensures var r := RunFrom(api, read, files, st);
      r.1.None? ==> r.0.hadErrors == (st.hadErrors || FailureBetween(api, read, r.0.trace, |st.trace|, |r.0.trace|))
    decreases |files|
  {
    if files != [] {
      var r := RunFrom(api, read, files, st);
      var afterRead := st.(trace := st.trace + [ReadFile(files[0])]);
      assert Failed(api, read, afterRead.trace[|st.trace|], |st.trace|) == read(files[0]).Unreadable?;
      match read(files[0])
      case Unreadable =>
        RunFlag(api, read, files[1..], afterRead.(hadErrors := true));
        FailureBetweenExtends(api, read, afterRead.trace, r.0.trace, |st.trace|, |afterRead.trace|);
      case Empty =>
      case Parsed(cfg) =>
        if NormalizePermission(cfg.permission).Ok? {
          var p := NormalizePermission(cfg.permission).value;
          var mid := Reconciled(api, cfg, p, afterRead);
          ReconciledFlag(api, read, cfg, p, afterRead);
          RunFlag(api, read, files[1..], mid);
          FailureBetweenExtends(api, read, mid.trace, r.0.trace, |st.trace|, |mid.trace|);
          FailureBetweenExtends(api, read, afterRead.trace, mid.trace, |st.trace|, |afterRead.trace|);
          FailureBetweenExtends(api, read, afterRead.trace, r.0.trace, |st.trace|, |afterRead.trace|);
        }
    }
  }

  /** The names of the files read, in the order they were read. */
  function FilesRead(trace: seq<Event>): seq<string>
  {
    if trace == [] then []
    else (if trace[0].ReadFile? then [trace[0].name] else []) + FilesRead(trace[1..])
  }

  lemma {:induction false} FilesReadAppend(t1: seq<Event>, t2: seq<Event>)
    ensures FilesRead(t1 + t2) == FilesRead(t1) + FilesRead(t2)
    decreases |t1|
  {
    if t1 == [] {
      assert t1 + t2 == t2;
    } else {
      assert (t1 + t2)[0] == t1[0] && (t1 + t2)[1..] == t1[1..] + t2;
      FilesReadAppend(t1[1..], t2);
    }
  }

  lemma {:induction false} FilesReadNone(t: seq<Event>)
    requires forall i :: 0 <= i < |t| ==> !t[i].ReadFile?
    ensures FilesRead(t) == []
    decreases |t|
  {
    if t != [] {
      FilesReadNone(t[1..]);
    }
  }

  lemma ReconciledReadsNothing(api: Api, cfg: Config, p: Permission, st: State)
    ensures FilesRead(Reconciled(api, cfg, p, st).trace) == FilesRead(st.trace)
  {
    var r := Reconciled(api, cfg, p, st);
    ReconciledTouchesOnlyNamedTeams(api, cfg, p, st);
    var added := r.trace[|st.trace|..];
    assert r.trace == st.trace + added;
    forall i | 0 <= i < |added| ensures !added[i].ReadFile? {
      assert added[i] == r.trace[|st.trace| + i];
    }
    FilesReadNone(added);
    FilesReadAppend(st.trace, added);
  }

  /** A completed run reads every given file once, in the given order, and nothing else. */
  lemma {:induction false} RunReadsFilesInOrder(api: Api, read: string -> Document, files: seq<string>, st: State)
    ensures var r := RunFrom(api, read, files, st);
      r.1.None? ==> FilesRead(r.0.trace) == FilesRead(st.trace) + files
    decreases |files|
  {
    if files != [] {
      var r := RunFrom(api, read, files, st);
      var afterRead := st.(trace := st.trace + [ReadFile(files[0])]);
      FilesReadAppend(st.trace, [ReadFile(files[0])]);
      assert FilesRead([ReadFile(files[0])]) == [files[0]];
      match read(files[0])
      case Unreadable =>
        RunReadsFilesInOrder(api, read, files[1..], afterRead.(hadErrors := true));
      case Empty =>
      case Parsed(cfg) =>
        if NormalizePermission(cfg.permission).Ok? {
          var p := NormalizePermission(cfg.permission).value;
          var mid := Reconciled(api, cfg, p, afterRead);
          ReconciledReadsNothing(api, cfg, p, afterRead);
          RunReadsFilesInOrder(api, read, files[1..], mid);
        }
    }
  }

  // ---------------------------------------------------------------------------
  // From the directory listing to the exit status

  /** Only `.yml` names are config files, and they are taken in listing order. */
  lemma {:induction false} ConfigFilesFilter(names: seq<string>, more: seq<string>)
    ensures forall x :: x in ConfigFiles(names) <==> x in names && IsConfigFile(x)
    ensures ConfigFiles(names + more) == ConfigFiles(names) + ConfigFiles(more)
    decreases |names|
  {
    if names == [] {
      assert names + more == more;
    } else {
      assert (names + more)[0] == names[0] && (names + more)[1..] == names[1..] + more;
      ConfigFilesFilter(names[1..], more);
    }
  }

  /** A run over a directory listing completes exactly when no `.yml` file is fatal; a completed run has
      read exactly the `.yml` files in listing order, and exits with status 1 exactly when some read or
      call failed, 0 otherwise. */
  lemma SyncOutcome(api: Api, read: string -> Document, names: seq<string>)
    ensures var (trace, outcome) := Sync(api, read, names);
      (outcome.Finished? <==> forall f :: f in ConfigFiles(names) ==> !Fatal(read(f))) &&
      (outcome.Finished? ==> FilesRead(trace) == ConfigFiles(names)) &&
      (outcome.Finished? ==> (ExitCode(outcome) == 1 <==> FailureBetween(api, read, trace, 0, |trace|)))
  {
    var files := ConfigFiles(names);
    var st := State([], false);
    RunFinishesIffNoFatal(api, read, files, st);
    RunReadsFilesInOrder(api, read, files, st);
    RunFlag(api, read, files, st);
    assert FilesRead([]) == [];
    if forall j :: 0 <= j < |files| ==> !Fatal(read(files[j])) {
      forall f | f in files ensures !Fatal(read(f)) {
        var j :| 0 <= j < |files| && files[j] == f;
      }
    }
  }
}
