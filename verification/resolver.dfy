/** The supersession resolver: the planning half shared by `check_input` and `deploy_nbms`.
    Incoming packages are matched to existing ones by codename; an existing package is
    replaced only by a strictly newer incoming one, and any other match aborts the run
    before a file is removed or copied. */
module Resolver {
  import opened Wrappers
  import opened Errors
  import opened Version
  import opened Package

  /** One line of the deployment report. */
  datatype ReportLine =
    | Replacing(replaced: string, replacedVersion: string, successor: string, successorVersion: string)
    | Deploying(name: string, codename: Option<string>)

  /** What a successful run does to the repository: delete `delete`, copy `copy` in, report `report`. */
  datatype Plan = Plan(delete: seq<Pkg>, copy: seq<Pkg>, report: seq<ReportLine>)

  predicate SameCodename(a: Pkg, b: Pkg) {
    Codename(a) == Codename(b)
  }

  /** Incoming `p` may replace existing `d`: both versions are comparable and `p`'s is strictly greater. */
  predicate Supersedes(p: Pkg, d: Pkg) {
    SpecVersion(p).Some? && SpecVersion(d).Some? && Less(SpecVersion(d).value, SpecVersion(p).value)
  }

  /** Every existing package sharing a codename with an incoming one is superseded by it. */
  ghost predicate Acceptable(incoming: seq<Pkg>, existing: seq<Pkg>) {
    forall p, e | p in incoming && e in existing && SameCodename(p, e) :: Supersedes(p, e)
  }

  /** What a raised error says about the incoming `p` and existing `d` it was raised for. */
  ghost predicate Explains(err: DeployError, p: Pkg, d: Pkg) {
    match err
    case MissingVersionInfo(n) =>
      || (n == p.name && SpecificationVersion(p).Failure?)
      || (n == d.name && SpecificationVersion(d).Failure?)
    case VersionNotComparable(n, vs) =>
      || (n == p.name && SpecificationVersion(p) == Success(vs) && Parse(vs).None?)
      || (n == d.name && SpecificationVersion(d) == Success(vs) && Parse(vs).None?)
    case VersionConflict(pn, pv, dn, dv) =>
      && pn == p.name && pv == VersionText(p)
      && dn == d.name && dv == VersionText(d)
      && SpecVersion(p).Some? && SpecVersion(d).Some?
      && !Less(SpecVersion(d).value, SpecVersion(p).value)
    case _ => false
  }

  function ReplacingLine(d: Pkg, p: Pkg): ReportLine {
    Replacing(d.name, VersionText(d), p.name, VersionText(p))
  }

  /** `version_todeploy > version_todelete`: both versions are read (either read may fail),
      then compared (an uncomparable version fails). */
  function Newer(p: Pkg, d: Pkg): (r: Result<bool, DeployError>)
    ensures r.Success? <==> SpecVersion(p).Some? && SpecVersion(d).Some?
    ensures r.Success? ==> (r.value <==> Supersedes(p, d))
    ensures r.Failure? ==> Explains(r.error, p, d)
  {
    var vp :- SpecificationVersion(p);
    var vd :- SpecificationVersion(d);
    match (Parse(vp), Parse(vd))
    case (None, _) => Failure(VersionNotComparable(p.name, vp))
    case (_, None) => Failure(VersionNotComparable(d.name, vd))
    case (Some(a), Some(b)) => Success(Less(b, a))
  }

  /** The body of the inner loop for existing `d` and incoming `p`. */
  function Check(d: Pkg, p: Pkg): (r: Result<seq<ReportLine>, DeployError>)
    ensures r.Success? <==> (SameCodename(p, d) ==> Supersedes(p, d))
    ensures r.Success? ==> r.value == (if SameCodename(p, d) then [ReplacingLine(d, p)] else [])
    ensures r.Failure? ==> SameCodename(p, d) && Explains(r.error, p, d)
  {
    if !SameCodename(p, d) then Success([])
    else
      var newer :- Newer(p, d);
      if newer then Success([ReplacingLine(d, p)])
      else Failure(VersionConflict(p.name, VersionText(p), d.name, VersionText(d)))
  }

  /** The inner loop: existing `d` against every incoming package, in order; the first failure wins. */
  function CheckOne(d: Pkg, incoming: seq<Pkg>): (r: Result<seq<ReportLine>, DeployError>)
    ensures r.Success? <==> forall i | 0 <= i < |incoming| :: SameCodename(incoming[i], d) ==> Supersedes(incoming[i], d)
    ensures r.Failure? ==>
      exists i | 0 <= i < |incoming| ::
        SameCodename(incoming[i], d) && !Supersedes(incoming[i], d) && Explains(r.error, incoming[i], d)
  {
    if |incoming| == 0 then Success([])
    else
      var head :- Check(d, incoming[0]);
      var tail :- CheckOne(d, incoming[1..]);
      Success(head + tail)
  }

  /** The outer loop over the packages to delete, in listing order. */
  function CheckAll(dels: seq<Pkg>, incoming: seq<Pkg>): (r: Result<seq<ReportLine>, DeployError>)
    ensures r.Success? <==>
      forall k, i | 0 <= k < |dels| && 0 <= i < |incoming| ::
        SameCodename(incoming[i], dels[k]) ==> Supersedes(incoming[i], dels[k])
    ensures r.Failure? ==>
      exists k, i | 0 <= k < |dels| && 0 <= i < |incoming| ::
        SameCodename(incoming[i], dels[k]) && !Supersedes(incoming[i], dels[k]) && Explains(r.error, incoming[i], dels[k])
  {
    if |dels| == 0 then Success([])
    else
      var head :- CheckOne(dels[0], incoming);
      var tail :- CheckAll(dels[1..], incoming);
      Success(head + tail)
  }

  /** `l` is the "Replacing" line of `d` and some incoming package with its codename. */
  ghost predicate LineFor(l: ReportLine, d: Pkg, incoming: seq<Pkg>) {
    exists i | 0 <= i < |incoming| :: SameCodename(incoming[i], d) && l == ReplacingLine(d, incoming[i])
  }

  /** `l` is the "Replacing" line of some package in `dels` and a matching incoming package. */
  ghost predicate LineForSome(l: ReportLine, dels: seq<Pkg>, incoming: seq<Pkg>) {
    exists k | 0 <= k < |dels| :: LineFor(l, dels[k], incoming)
  }

  /** The inner loop reports only lines of matching incoming packages ... */
  lemma {:induction false} CheckOneSound(d: Pkg, incoming: seq<Pkg>)
    requires CheckOne(d, incoming).Success?
    ensures forall l | l in CheckOne(d, incoming).value :: LineFor(l, d, incoming)
  {
    if |incoming| > 0 {
      var head := Check(d, incoming[0]).value;
      var rest := incoming[1..];
      CheckOneSound(d, rest);
      assert CheckOne(d, incoming).value == head + CheckOne(d, rest).value;
      forall l | l in CheckOne(d, incoming).value
        ensures LineFor(l, d, incoming)
      {
        if l in head {
          assert SameCodename(incoming[0], d) && l == ReplacingLine(d, incoming[0]);
        } else {
          var i :| 0 <= i < |rest| && SameCodename(rest[i], d) && l == ReplacingLine(d, rest[i]);
          assert rest[i] == incoming[i + 1];
        }
      }
    }
  }

  /** ... and the line of every one of them. */
  lemma {:induction false} CheckOneComplete(d: Pkg, incoming: seq<Pkg>, i: nat)
    requires CheckOne(d, incoming).Success?
    requires i < |incoming| && SameCodename(incoming[i], d)
    ensures ReplacingLine(d, incoming[i]) in CheckOne(d, incoming).value
  {
    var head := Check(d, incoming[0]).value;
    var rest := incoming[1..];
    assert CheckOne(d, incoming).value == head + CheckOne(d, rest).value;
    if i == 0 {
      assert head == [ReplacingLine(d, incoming[0])];
    } else {
      assert rest[i - 1] == incoming[i];
      CheckOneComplete(d, rest, i - 1);
    }
  }

  /** The outer loop reports only lines of matching pairs ... */
  lemma {:induction false} CheckAllSound(dels: seq<Pkg>, incoming: seq<Pkg>)
    requires CheckAll(dels, incoming).Success?
    ensures forall l | l in CheckAll(dels, incoming).value :: LineForSome(l, dels, incoming)
  {
    if |dels| > 0 {
      var head := CheckOne(dels[0], incoming).value;
      var rest := dels[1..];
      CheckOneSound(dels[0], incoming);
      CheckAllSound(rest, incoming);
      assert CheckAll(dels, incoming).value == head + CheckAll(rest, incoming).value;
      forall l | l in CheckAll(dels, incoming).value
        ensures LineForSome(l, dels, incoming)
      {
        if l in head {
          assert LineFor(l, dels[0], incoming);
        } else {
          var k :| 0 <= k < |rest| && LineFor(l, rest[k], incoming);
          assert rest[k] == dels[k + 1];
        }
      }
    }
  }

  /** ... and the line of every one of them. */
  lemma {:induction false} CheckAllComplete(dels: seq<Pkg>, incoming: seq<Pkg>, k: nat, i: nat)
    requires CheckAll(dels, incoming).Success?
    requires k < |dels| && i < |incoming| && SameCodename(incoming[i], dels[k])
    ensures ReplacingLine(dels[k], incoming[i]) in CheckAll(dels, incoming).value
  {
    if k == 0 {
      CheckOneComplete(dels[0], incoming, i);
    } else {
      assert dels[1..][k - 1] == dels[k];
      CheckAllComplete(dels[1..], incoming, k - 1, i);
    }
  }

  /** How many incoming packages share `d`'s codename. */
  function MatchCount(d: Pkg, incoming: seq<Pkg>): nat {
    if |incoming| == 0 then 0
    else (if SameCodename(incoming[0], d) then 1 else 0) + MatchCount(d, incoming[1..])
  }

  /** How many (package to delete, incoming package) pairs share a codename. */
  function PairCount(dels: seq<Pkg>, incoming: seq<Pkg>): nat {
    if |dels| == 0 then 0 else MatchCount(dels[0], incoming) + PairCount(dels[1..], incoming)
  }

  /** The inner loop reports one line per matching incoming package. */
  lemma {:induction false} CheckOneCount(d: Pkg, incoming: seq<Pkg>)
    requires CheckOne(d, incoming).Success?
    ensures |CheckOne(d, incoming).value| == MatchCount(d, incoming)
  {
    if |incoming| > 0 {
      CheckOneCount(d, incoming[1..]);
      assert CheckOne(d, incoming).value == Check(d, incoming[0]).value + CheckOne(d, incoming[1..]).value;
    }
  }

  /** The outer loop reports one line per matching pair. */
  lemma {:induction false} CheckAllCount(dels: seq<Pkg>, incoming: seq<Pkg>)
    requires CheckAll(dels, incoming).Success?
    ensures |CheckAll(dels, incoming).value| == PairCount(dels, incoming)
  {
    if |dels| > 0 {
      CheckOneCount(dels[0], incoming);
      CheckAllCount(dels[1..], incoming);
      assert CheckAll(dels, incoming).value == CheckOne(dels[0], incoming).value + CheckAll(dels[1..], incoming).value;
    }
  }

  function Codenames(pkgs: seq<Pkg>): set<Option<string>> {
    set p | p in pkgs :: Codename(p)
  }

  function Names(pkgs: seq<Pkg>): set<string> {
    set p | p in pkgs :: p.name
  }

  /** `nbms_todelete`: the existing packages whose codename is among the incoming codenames, in listing order. */
  function ToDelete(existing: seq<Pkg>, incoming: seq<Pkg>): (r: seq<Pkg>)
    ensures forall e :: e in r <==> e in existing && Codename(e) in Codenames(incoming)
    ensures |r| <= |existing|
  {
    if |existing| == 0 then []
    else
      var rest := ToDelete(existing[1..], incoming);
      if Codename(existing[0]) in Codenames(incoming) then [existing[0]] + rest else rest
  }

  /** One "Deploying" line per incoming package, in listing order. */
  function DeployLines(incoming: seq<Pkg>): (r: seq<ReportLine>)
    ensures |r| == |incoming|
    ensures forall i | 0 <= i < |incoming| :: r[i] == Deploying(incoming[i].name, Codename(incoming[i]))
  {
    seq(|incoming|, i requires 0 <= i < |incoming| => Deploying(incoming[i].name, Codename(incoming[i])))
  }

  /** The planning half of `deploy_nbms` (and the whole of `check_input`). */
  function Resolve(incoming: seq<Pkg>, existing: seq<Pkg>): (r: Result<Plan, DeployError>)
    ensures r.Success? <==> Acceptable(incoming, existing)
    ensures r.Failure? ==>
      exists p, e | p in incoming && e in existing ::
        SameCodename(p, e) && !Supersedes(p, e) && Explains(r.error, p, e)
    ensures r.Success? ==> r.value.copy == incoming
    ensures r.Success? ==>
      forall e :: e in r.value.delete <==> e in existing && exists p | p in incoming :: SameCodename(p, e)
  {
    var dels := ToDelete(existing, incoming);
    var replaced :- CheckAll(dels, incoming);
    Success(Plan(dels, incoming, replaced + DeployLines(incoming)))
  }
}

/** The report text and the effect a plan has on the repository directory. */
module Deployment {
  import opened Wrappers
  import opened Xml
  import opened Errors
  import opened Package
  import opened Resolver

  /** The message a report line is logged and mailed with. Its first ten characters tell the two
      kinds apart, the package the line is about follows them, and the message ends with `)`. */
  function Render(l: ReportLine): (r: string)
    ensures |r| > 10 && r[|r| - 1] == ')'
    ensures l.Replacing? <==> r[..10] == "Replacing "
    ensures l.Deploying? <==> r[..10] == "Deploying "
    ensures l.Replacing? ==> |r| > 10 + |l.replaced| && r[10..10 + |l.replaced|] == l.replaced
    ensures l.Deploying? ==> |r| > 10 + |l.name| && r[10..10 + |l.name|] == l.name
  {
    match l
    case Replacing(replaced, replacedVersion, successor, successorVersion) =>
      var tail := replaced + " (was version " + replacedVersion + ", superseeded by " + successor
        + " with version " + successorVersion + ")";
      assert tail[..|replaced|] == replaced;
      "Replacing " + tail
    case Deploying(name, codename) =>
      var tail := name + " (codename : " + (match codename case Some(c) => c case None => "None") + ")";
      assert tail[..|name|] == name;
      "Deploying " + tail
  }

  /** `report += "\n%s" % message` for every line, in order. */
  function ReportText(lines: seq<ReportLine>): (r: string)
    ensures r == "" <==> |lines| == 0
    ensures |lines| > 0 ==> r[0] == '\n'
    decreases |lines|
  {
    if |lines| == 0 then "" else ReportText(lines[..|lines| - 1]) + "\n" + Render(lines[|lines| - 1])
  }

  /** One more line adds a newline and its message. */
  lemma ReportTextSnoc(lines: seq<ReportLine>, l: ReportLine)
    ensures ReportText(lines + [l]) == ReportText(lines) + ("\n" + Render(l))
  {
    var all := lines + [l];
    assert all[..|all| - 1] == lines;
    ConcatAssoc(ReportText(lines), "\n", Render(l));
  }

  lemma ConcatAssoc<T>(x: seq<T>, y: seq<T>, z: seq<T>)
    ensures (x + y) + z == x + (y + z)
  {
  }

  /** The text of two runs of lines is the text of the first followed by that of the second, so
      the "Replacing" messages and the "Deploying" messages of a report can be read apart. */
  lemma {:induction false} ReportTextAppend(a: seq<ReportLine>, b: seq<ReportLine>)
    ensures ReportText(a + b) == ReportText(a) + ReportText(b)
    decreases |b|
  {
    if |b| == 0 {
      assert a + b == a;
    } else {
      var init, last := b[..|b| - 1], b[|b| - 1];
      assert a + b == (a + init) + [last];
      assert b == init + [last];
      ReportTextAppend(a, init);
      ReportTextSnoc(a + init, last);
      ReportTextSnoc(init, last);
      ConcatAssoc(ReportText(a), ReportText(init), "\n" + Render(last));
    }
  }

  /** `l` is the "Replacing" line of some incoming package superseding an existing one. */
  ghost predicate IsReplacement(l: ReportLine, incoming: seq<Pkg>, existing: seq<Pkg>) {
    exists p, e | p in incoming && e in existing :: SameCodename(p, e) && l == ReplacingLine(e, p)
  }

  /** A successful plan is the delete list, the incoming list and the checked report lines. */
  lemma ResolveShape(incoming: seq<Pkg>, existing: seq<Pkg>, plan: Plan)
    requires Resolve(incoming, existing) == Success(plan)
    ensures CheckAll(ToDelete(existing, incoming), incoming).Success?
    ensures plan.report == CheckAll(ToDelete(existing, incoming), incoming).value + DeployLines(incoming)
    ensures |plan.report| >= |incoming|
    ensures plan.report[..|plan.report| - |incoming|] == CheckAll(ToDelete(existing, incoming), incoming).value
    ensures plan.report[|plan.report| - |incoming|..] == DeployLines(incoming)
  {
  }

  /** The line of a deleted package and a matching incoming one is a replacement line. */
  lemma LineIsReplacement(incoming: seq<Pkg>, existing: seq<Pkg>, l: ReportLine, k: nat)
    requires k < |ToDelete(existing, incoming)| && LineFor(l, ToDelete(existing, incoming)[k], incoming)
    ensures IsReplacement(l, incoming, existing)
  {
    var e := ToDelete(existing, incoming)[k];
    var i :| 0 <= i < |incoming| && SameCodename(incoming[i], e) && l == ReplacingLine(e, incoming[i]);
    assert e in ToDelete(existing, incoming) && incoming[i] in incoming;
  }

  lemma ReplacementsSound(incoming: seq<Pkg>, existing: seq<Pkg>, replaced: seq<ReportLine>)
    requires CheckAll(ToDelete(existing, incoming), incoming) == Success(replaced)
    ensures forall l | l in replaced :: IsReplacement(l, incoming, existing)
  {
    var dels := ToDelete(existing, incoming);
    CheckAllSound(dels, incoming);
    forall l | l in replaced
      ensures IsReplacement(l, incoming, existing)
    {
      var k :| 0 <= k < |dels| && LineFor(l, dels[k], incoming);
      LineIsReplacement(incoming, existing, l, k);
    }
  }

  /** The line of one superseded pair is among the checked lines. */
  lemma ReplacementIn(incoming: seq<Pkg>, existing: seq<Pkg>, replaced: seq<ReportLine>, p: Pkg, e: Pkg)
    requires CheckAll(ToDelete(existing, incoming), incoming) == Success(replaced)
    requires p in incoming && e in existing && SameCodename(p, e)
    ensures ReplacingLine(e, p) in replaced
  {
    var dels := ToDelete(existing, incoming);
    var i :| 0 <= i < |incoming| && incoming[i] == p;
    assert Codename(e) in Codenames(incoming);
    var k :| 0 <= k < |dels| && dels[k] == e;
    CheckAllComplete(dels, incoming, k, i);
  }

  lemma ReplacementsComplete(incoming: seq<Pkg>, existing: seq<Pkg>, replaced: seq<ReportLine>)
    requires CheckAll(ToDelete(existing, incoming), incoming) == Success(replaced)
    ensures forall l | IsReplacement(l, incoming, existing) :: l in replaced
  {
    forall l | IsReplacement(l, incoming, existing)
      ensures l in replaced
    {
      var p, e :| p in incoming && e in existing && SameCodename(p, e) && l == ReplacingLine(e, p);
      ReplacementIn(incoming, existing, replaced, p, e);
    }
  }

  /** The checked lines are exactly the "Replacing" lines of the superseded pairs. */
  lemma ReplacedLines(incoming: seq<Pkg>, existing: seq<Pkg>, replaced: seq<ReportLine>)
    requires CheckAll(ToDelete(existing, incoming), incoming) == Success(replaced)
    ensures forall l :: l in replaced <==> IsReplacement(l, incoming, existing)
  {
    ReplacementsSound(incoming, existing, replaced);
    ReplacementsComplete(incoming, existing, replaced);
  }

  /** The report of a successful plan: one "Replacing" line for every superseded pair, then one
      "Deploying" line per incoming package, in listing order. */
  lemma ResolveReport(incoming: seq<Pkg>, existing: seq<Pkg>, plan: Plan)
    requires Resolve(incoming, existing) == Success(plan)
    ensures |plan.report| >= |incoming|
    ensures forall i | 0 <= i < |incoming| ::
      plan.report[|plan.report| - |incoming| + i] == Deploying(incoming[i].name, Codename(incoming[i]))
    ensures forall l :: l in plan.report[..|plan.report| - |incoming|] <==> IsReplacement(l, incoming, existing)
    ensures |plan.report| - |incoming| == PairCount(ToDelete(existing, incoming), incoming)
  {
    CheckAllCount(ToDelete(existing, incoming), incoming);
    ResolveShape(incoming, existing, plan);
    DeployLinesAtEnd(plan.report, incoming);
    ReplacedLines(incoming, existing, plan.report[..|plan.report| - |incoming|]);
  }

  lemma DeployLinesAtEnd(report: seq<ReportLine>, incoming: seq<Pkg>)
    requires |report| >= |incoming| && report[|report| - |incoming|..] == DeployLines(incoming)
    ensures forall i | 0 <= i < |incoming| ::
      report[|report| - |incoming| + i] == Deploying(incoming[i].name, Codename(incoming[i]))
  {
    var n := |report| - |incoming|;
    forall i | 0 <= i < |incoming|
      ensures report[n + i] == Deploying(incoming[i].name, Codename(incoming[i]))
    {
      assert report[n + i] == report[n..][i];
    }
  }

  /** The existing packages that survive removal of every name in `gone`, in listing order. */
  function Keep(repo: seq<Pkg>, gone: set<string>): (r: seq<Pkg>)
    ensures forall e :: e in r <==> e in repo && e.name !in gone
  {
    if |repo| == 0 then []
    else
      var rest := Keep(repo[1..], gone);
      if repo[0].name in gone then rest else [repo[0]] + rest
  }

  /** A directory listing never holds two files with one name. */
  predicate DistinctNames(pkgs: seq<Pkg>) {
    forall i, j | 0 <= i < j < |pkgs| :: pkgs[i].name != pkgs[j].name
  }

  /** At most one package per codename. */
  predicate UniqueCodenames(pkgs: seq<Pkg>) {
    forall i, j | 0 <= i < j < |pkgs| :: Codename(pkgs[i]) != Codename(pkgs[j])
  }

  /** The directory after `os.remove` of every package to delete and `shutil.copy` of every
      incoming one (a copy overwrites a file of the same name). */
  function ApplyPlan(repo: seq<Pkg>, plan: Plan): (r: seq<Pkg>)
    ensures forall p | p in plan.copy :: p in r
    ensures forall e | e in r && e !in plan.copy ::
      e in repo && e.name !in Names(plan.delete) && e.name !in Names(plan.copy)
    ensures forall e | e in repo && e.name !in Names(plan.delete) && e.name !in Names(plan.copy) :: e in r
  {
    Keep(repo, Names(plan.delete) + Names(plan.copy)) + plan.copy
  }

  /** An existing package that is neither deleted nor overwritten shares no codename and no
      file name with an incoming package. */
  lemma {:induction false} Survivors(incoming: seq<Pkg>, existing: seq<Pkg>, plan: Plan)
    requires Resolve(incoming, existing) == Success(plan)
    ensures forall e | e in Keep(existing, Names(plan.delete) + Names(plan.copy)) ::
      e in existing && Codename(e) !in Codenames(incoming) && e.name !in Names(incoming)
  {
    forall e | e in Keep(existing, Names(plan.delete) + Names(plan.copy))
      ensures Codename(e) !in Codenames(incoming)
    {
      assert e.name !in Names(plan.delete);
      assert e !in plan.delete;
      assert forall p | p in incoming :: !SameCodename(p, e);
    }
  }

  /** Nothing but the plan changes the directory: every incoming package lands, and an existing
      package survives exactly when its codename and file name are not among the incoming ones. */
  lemma DeployEffect(incoming: seq<Pkg>, existing: seq<Pkg>, plan: Plan)
    requires Resolve(incoming, existing) == Success(plan)
    requires DistinctNames(existing)
    ensures forall p | p in incoming :: p in ApplyPlan(existing, plan)
    ensures forall e | e in ApplyPlan(existing, plan) && e !in incoming ::
      e in existing && Codename(e) !in Codenames(incoming) && e.name !in Names(incoming)
    ensures forall e | e in existing && Codename(e) !in Codenames(incoming) && e.name !in Names(incoming) ::
      e in ApplyPlan(existing, plan)
  {
    Survivors(incoming, existing, plan);
    forall e | e in existing && Codename(e) !in Codenames(incoming) && e.name !in Names(incoming)
      ensures e in ApplyPlan(existing, plan)
    {
      forall d | d in plan.delete
        ensures d.name != e.name
      {
        assert Codename(d) in Codenames(incoming);
        assert d != e;
        var i :| 0 <= i < |existing| && existing[i] == d;
        var j :| 0 <= j < |existing| && existing[j] == e;
        assert i != j;
      }
      assert e.name !in Names(plan.delete);
      assert e.name !in Names(plan.copy);
    }
  }

  /** Removal keeps at most one package per codename. */
  lemma {:induction false} KeepUnique(repo: seq<Pkg>, gone: set<string>)
    requires UniqueCodenames(repo)
    ensures UniqueCodenames(Keep(repo, gone))
  {
    if |repo| > 0 {
      var tail := repo[1..];
      assert forall i, j | 0 <= i < j < |tail| :: tail[i] == repo[i + 1] && tail[j] == repo[j + 1];
      KeepUnique(tail, gone);
      if repo[0].name !in gone {
        var rest := Keep(tail, gone);
        forall k | 0 <= k < |rest|
          ensures Codename(rest[k]) != Codename(repo[0])
        {
          var m :| 0 <= m < |tail| && tail[m] == rest[k];
          assert tail[m] == repo[m + 1];
        }
        UniqueCodenamesAppend([repo[0]], rest);
      }
    }
  }

  lemma UniqueCodenamesAppend(a: seq<Pkg>, b: seq<Pkg>)
    requires UniqueCodenames(a) && UniqueCodenames(b)
    requires forall x | x in a :: Codename(x) !in Codenames(b)
    ensures UniqueCodenames(a + b)
  {
    var ab := a + b;
    forall i, j | 0 <= i < j < |ab|
      ensures Codename(ab[i]) != Codename(ab[j])
    {
      if j < |a| {
        assert ab[i] == a[i] && ab[j] == a[j];
      } else if |a| <= i {
        assert ab[i] == b[i - |a|] && ab[j] == b[j - |a|];
      } else {
        assert ab[i] == a[i] && ab[j] == b[j - |a|];
        assert ab[i] in a && ab[j] in b;
      }
    }
  }

  /** With at most one package per codename before, and distinct codenames among the incoming
      packages, there is still at most one package per codename after the deployment. */
  lemma DeployKeepsCodenamesUnique(incoming: seq<Pkg>, existing: seq<Pkg>, plan: Plan)
    requires Resolve(incoming, existing) == Success(plan)
    requires UniqueCodenames(existing) && UniqueCodenames(incoming)
    ensures UniqueCodenames(ApplyPlan(existing, plan))
  {
    Survivors(incoming, existing, plan);
    KeepUnique(existing, Names(plan.delete) + Names(plan.copy));
    UniqueCodenamesAppend(Keep(existing, Names(plan.delete) + Names(plan.copy)), incoming);
  }

  /** Two incoming packages with one codename are both copied: the resolver does not compare
      incoming packages with each other. */
  lemma DuplicateIncomingCodenamesBothLand()
    ensures var info := Element("module", map["codenamebase" := "org.esa.snap"], "", []);
      var a := Pkg("snap-a.nbm", 10, info);
      var b := Pkg("snap-b.nbm", 20, info);
      && Resolve([a, b], []).Success?
      && ApplyPlan([], Resolve([a, b], []).value) == [a, b]
      && !UniqueCodenames([a, b])
  {
    var info := Element("module", map["codenamebase" := "org.esa.snap"], "", []);
    var a := Pkg("snap-a.nbm", 10, info);
    var b := Pkg("snap-b.nbm", 20, info);
    assert ToDelete([], [a, b]) == [];
    assert CheckAll([], [a, b]) == Success([]);
    var plan := Plan([], [a, b], DeployLines([a, b]));
    assert [] + DeployLines([a, b]) == DeployLines([a, b]);
    assert Resolve([a, b], []) == Success(plan);
    assert Keep([], Names(plan.delete) + Names(plan.copy)) == [];
    assert ApplyPlan([], plan) == [] + [a, b] == [a, b];
    assert Codename([a, b][0]) == Codename([a, b][1]);
  }
}
