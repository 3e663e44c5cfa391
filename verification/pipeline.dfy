/** One run of the script once its arguments are parsed: `check_input`, the deployment into the
    duplicated update center, `generate_updatexml` on it, and `update_symlink`, which publishes it. */
module Pipeline {
  import opened Wrappers
  import opened Xml
  import opened Errors
  import opened Package
  import opened Resolver
  import opened Deployment
  import opened Catalog
  import opened Dtd

  /** The repository the published update center holds after a run, with the catalog and report
      of a successful run or the error that stopped it. */
  datatype Outcome =
    | Published(repo: seq<Pkg>, catalog: Built, report: seq<ReportLine>)
    | Aborted(error: DeployError, repo: seq<Pkg>)

  /** A run deploying `incoming` into the repository listed as `current`. `check_input` raises
      before anything is duplicated; a catalog that fails validation raises before the symlink is
      moved; either way the published repository stays `current`. */
  function Run(incoming: seq<Pkg>, current: seq<Pkg>, message: Option<string>, url: Option<string>, timestamp: string)
    : (r: Outcome)
    ensures r.Aborted? ==> r.repo == current
    ensures !Acceptable(incoming, current) ==>
      && r.Aborted?
      && exists p, e | p in incoming && e in current :: SameCodename(p, e) && !Supersedes(p, e) && Explains(r.error, p, e)
    ensures r.Published? ==> Acceptable(incoming, current) && ValidCatalog(r.catalog.root)
    ensures r.Published? ==> r.catalog == Build(r.repo, message, url, timestamp)
    ensures r.Published? ==> forall p | p in incoming :: p in r.repo
    ensures r.Published? ==>
      forall e | e in r.repo && e !in incoming :: e in current && Codename(e) !in Codenames(incoming)
  {
    match Resolve(incoming, current)
    case Failure(err) => Aborted(err, current)
    case Success(plan) =>
      var repo := ApplyPlan(current, plan);
      Survivors(incoming, current, plan);
      match GenerateUpdateXml(repo, message, url, timestamp)
      case Failure(err) => Aborted(err, current)
      case Success(built) => Published(repo, built, plan.report)
  }

  /** Removing no names keeps the whole listing. */
  lemma {:induction false} KeepAll(repo: seq<Pkg>)
    ensures Keep(repo, {}) == repo
  {
    if |repo| > 0 {
      KeepAll(repo[1..]);
      assert [repo[0]] + repo[1..] == repo;
    }
  }

  /** No incoming codename selects no existing package. */
  lemma {:induction false} DeleteNothing(existing: seq<Pkg>)
    ensures ToDelete(existing, []) == []
  {
    assert Codenames([]) == {};
    if |existing| > 0 {
      DeleteNothing(existing[1..]);
    }
  }

  /** With nothing incoming, the plan deletes, copies and reports nothing. */
  lemma ResolveNothing(current: seq<Pkg>)
    ensures Resolve([], current) == Success(Plan([], [], []))
  {
    DeleteNothing(current);
    var none: seq<Pkg> := [];
    assert CheckAll(ToDelete(current, none), none) == Success([]);
    assert DeployLines(none) == [];
    var lines: seq<ReportLine> := [];
    assert lines + DeployLines(none) == [];
  }

  /** Applying the empty plan leaves the repository as it is. */
  lemma ApplyNothing(current: seq<Pkg>)
    ensures ApplyPlan(current, Plan([], [], [])) == current
  {
    var none: seq<Pkg> := [];
    var gone := Names(none) + Names(none);
    assert gone == {};
    KeepAll(current);
    assert Keep(current, gone) + none == current;
  }

  /** Deploying nothing replaces nothing: the published repository is the current one, and a
      successful run reports no line. */
  lemma NothingToDeploy(current: seq<Pkg>, message: Option<string>, url: Option<string>, timestamp: string)
    ensures Run([], current, message, url, timestamp).repo == current
    ensures Run([], current, message, url, timestamp).Published? ==> Run([], current, message, url, timestamp).report == []
  {
    ResolveNothing(current);
    ApplyNothing(current);
  }

  /** A conflict-free run over well-formed packages always publishes. */
  lemma RunPublishes(incoming: seq<Pkg>, current: seq<Pkg>, message: Option<string>, url: Option<string>, timestamp: string)
    requires Acceptable(incoming, current)
    requires forall p | p in incoming :: WellFormedInfo(p.info)
    requires forall e | e in current :: WellFormedInfo(e.info)
    ensures Run(incoming, current, message, url, timestamp).Published?
  {
    var plan := Resolve(incoming, current).value;
    var repo := ApplyPlan(current, plan);
    forall p | p in repo
      ensures WellFormedInfo(p.info)
    {
      var kept := Keep(current, Names(plan.delete) + Names(plan.copy));
      if p !in kept {
        assert p in plan.copy;
      }
    }
    GenerateSucceeds(repo, message, url, timestamp);
  }
}
