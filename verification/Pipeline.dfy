/** The whole scan (cmd/scan.go, RunE): the passes in their order, then the gate; and what
    the composition guarantees from end to end. */
module Pipeline {
  import opened Wrappers
  import opened CollectionState
  import opened Inventory
  import opened ProvenanceIndex
  import opened Assess
  import opened Passes
  import opened Exempt
  import opened Gate
  import opened Collector
  import opened Json

  /** Everything a scan is run with, apart from what it collects. */
  datatype Setup = Setup(
    tables: Tables,
    provider: string,
    controls: map<string, Control>,
    findings: seq<Finding>,
    na: map<string, string>,
    verified: set<string>,
    target: string,
    tagged: seq<string>,
    grants: map<string, string>,
    policy: seq<Exemption>,
    now: int,
    relax: map<string, seq<string>>,
    profile: Profile,
    strict: bool)

  // ----- The stages -----

  ghost function ScanOf(u: Setup, views: seq<View>): Scan {
    Scan(u.tables, u.provider, u.controls, u.findings, TypesOf(views), u.na, u.verified, AttrsByType(views), u.target)
  }

  /** The controls this scan could hope to conclude on. */
  function ScopeOf(u: Setup): set<string> {
    set c | c in u.controls && GetOr(u.na, c, "") == "" && u.provider in u.controls[c].providers
  }

  /** Before any pass that depends on what could be read. */
  ghost function Judged(u: Setup, views: seq<View>): seq<Verdict> {
    var idx := IndexOf(views);
    Requalified(u.tables, idx, Annotated(u.tables, idx, Built(ScanOf(u, views))))
  }

  ghost function DegradedBy(u: Setup, incomplete: map<string, Unit>): map<string, Unit> {
    Degraded(u.tables, incomplete, ScopeOf(u), u.tagged)
  }

  ghost function AfterCollection(u: Setup, views: seq<View>, incomplete: map<string, Unit>): seq<Verdict> {
    DegradeAll(DegradedBy(u, incomplete), u.grants, Judged(u, views))
  }

  function ContextOf(u: Setup, subjects: set<string>): Context {
    Context(u.now, subjects, u.controls.Keys)
  }

  ghost function AfterExemptions(u: Setup, views: seq<View>, incomplete: map<string, Unit>,
                                 subjects: set<string>): seq<Verdict> {
    AppliedAll(u.policy, ContextOf(u, subjects), AfterCollection(u, views, incomplete))
  }

  ghost function Final(u: Setup, views: seq<View>, incomplete: map<string, Unit>, subjects: set<string>): seq<Verdict> {
    RelaxAll(u.relax, AfterExemptions(u, views, incomplete, subjects))
  }

  ghost predicate ReportFits(u: Setup, views: seq<View>, incomplete: map<string, Unit>, subjects: set<string>,
                             rep: Report) {
    IsReport(u.policy, ContextOf(u, subjects), AfterCollection(u, views, incomplete), rep)
  }

  ghost function FactsAt(u: Setup, views: seq<View>, incomplete: map<string, Unit>, subjects: set<string>,
                         rep: Report): Facts {
    FactsOf(u.findings, u.profile, Final(u, views, incomplete, subjects), rep,
            |DegradedBy(u, incomplete)|, |u.relax|, u.strict)
  }

  // ----- The scan -----

  /** The passes, in the order the command runs them. */
  method AssessAll(u: Setup, inv: Inventory, coll: Collection, target: string)
    returns (vs: seq<Verdict>, rep: Report, degraded: map<string, Unit>)
    ensures var views := ViewsOf(inv);
            var incomplete := IncompleteMap(coll.units);
            var subjects := SubjectsOf(views, target);
            && vs == Final(u, views, incomplete, subjects)
            && ReportFits(u, views, incomplete, subjects, rep)
            && degraded == DegradedBy(u, incomplete)
  {
    ghost var views := ViewsOf(inv);
    degraded := DegradedControls(u.tables, coll, ScopeOf(u), u.tagged);
    var types := ResourceTypesOf(inv);
    var attrs := AttrsByTypeOf(inv);
    AttrsByTypeUnique(views, attrs, AttrsByType(views));
    vs := Build(Scan(u.tables, u.provider, u.controls, u.findings, types, u.na, u.verified, attrs, u.target));
    var idx := ProvenanceOf(inv);
    IndexUnique(views, idx, IndexOf(views));
    vs := WithProvenance(u.tables, idx, vs);
    vs := WithAttestedAbsence(u.tables, idx, vs);
    var withdrawn;
    vs, withdrawn := Degrade(degraded, u.grants, vs);
    var subjects := SubjectsNamed(inv, target);
    vs, rep := Apply(vs, u.policy, ContextOf(u, subjects));
    vs := WithRelaxations(u.relax, vs);
  }

  method RunScan(u: Setup, inv: Inventory, coll: Collection, target: string)
    returns (vs: seq<Verdict>, rep: Report, code: nat, headline: Headline)
    ensures var views := ViewsOf(inv);
            var incomplete := IncompleteMap(coll.units);
            var subjects := SubjectsOf(views, target);
            && vs == Final(u, views, incomplete, subjects)
            && ReportFits(u, views, incomplete, subjects, rep)
            && code == ExitCode(FactsAt(u, views, incomplete, subjects, rep))
            && headline == HeadlineOf(FactsAt(u, views, incomplete, subjects, rep))
  {
    var degraded;
    vs, rep, degraded := AssessAll(u, inv, coll, target);
    code, headline := Conclude(u.findings, u.profile, vs, rep, |degraded|, |u.relax|, u.strict);
  }

  // ----- The status machine -----

  /** The moves the passes after Build may make. */
  ghost predicate Allowed(u: Setup, views: seq<View>, control: string, before: Status, after: Status) {
    || after == before
    || (before == Pass && after == NotEvaluated)
    || (before == Fail && after == NotEvaluated && NotAttested(u.tables, IndexOf(views), control))
    || (before == Fail && after == Exempted)
  }

  lemma JudgedMove(u: Setup, views: seq<View>, i: nat)
    requires i < |Built(ScanOf(u, views))|
    ensures |Judged(u, views)| == |Built(ScanOf(u, views))|
    ensures var b, j := Built(ScanOf(u, views))[i], Judged(u, views)[i];
            && j.control == b.control && j.subject == b.subject && j.severity == b.severity
            && j.status == (if b.status == Fail && NotAttested(u.tables, IndexOf(views), b.control)
                            then NotEvaluated else b.status)
  {
  }

  lemma CollectionMove(u: Setup, views: seq<View>, incomplete: map<string, Unit>, i: nat)
    requires i < |Judged(u, views)|
    ensures |AfterCollection(u, views, incomplete)| == |Judged(u, views)|
    ensures var j, a := Judged(u, views)[i], AfterCollection(u, views, incomplete)[i];
            && a.control == j.control && a.subject == j.subject && a.severity == j.severity
            && a.status == (if j.status == Pass && j.control in DegradedBy(u, incomplete)
                            then NotEvaluated else j.status)
  {
  }

  lemma FinalMove(u: Setup, views: seq<View>, incomplete: map<string, Unit>, subjects: set<string>, i: nat)
    requires i < |AfterCollection(u, views, incomplete)|
    ensures |Final(u, views, incomplete, subjects)| == |AfterCollection(u, views, incomplete)|
    ensures var a, f := AfterCollection(u, views, incomplete)[i], Final(u, views, incomplete, subjects)[i];
            && f.control == a.control && f.subject == a.subject && f.severity == a.severity
            && f.status == (if a.status == Fail && InForce(u.policy, u.now, u.controls.Keys, a.control, a.subject)
                            then Exempted else a.status)
  {
    var c, vs := ContextOf(u, subjects), AfterCollection(u, views, incomplete);
    ExemptedExactly(u.policy, c, vs, i);
    var e := AppliedAll(u.policy, c, vs)[i];
    assert Final(u, views, incomplete, subjects)[i] == RelaxOne(u.relax, e);
  }

  /** What the status of a line is, from the status it was built with. */
  lemma StatusAt(u: Setup, views: seq<View>, incomplete: map<string, Unit>, subjects: set<string>, i: nat)
    requires i < |Built(ScanOf(u, views))|
    ensures |Final(u, views, incomplete, subjects)| == |Built(ScanOf(u, views))|
    ensures var b, f := Built(ScanOf(u, views))[i], Final(u, views, incomplete, subjects)[i];
            && f.control == b.control && f.subject == b.subject && f.severity == b.severity
            && f.status ==
               (if b.status == Pass then if b.control in DegradedBy(u, incomplete) then NotEvaluated else Pass
                else if b.status != Fail then b.status
                else if NotAttested(u.tables, IndexOf(views), b.control) then NotEvaluated
                else if InForce(u.policy, u.now, u.controls.Keys, b.control, b.subject) then Exempted
                else Fail)
  {
    JudgedMove(u, views, i);
    CollectionMove(u, views, incomplete, i);
    FinalMove(u, views, incomplete, subjects, i);
  }

  /** The passes keep every line in place, with its control and subject, and make only the
      moves pass to not-evaluated, fail to not-evaluated (an absence nobody attested) and
      fail to exempted: no pass is ever created. */
  lemma StatusMachine(u: Setup, views: seq<View>, incomplete: map<string, Unit>, subjects: set<string>)
    ensures var built, final := Built(ScanOf(u, views)), Final(u, views, incomplete, subjects);
            && |final| == |built| == |u.findings| + |Quiet(ScanOf(u, views))|
            && forall i :: 0 <= i < |built| ==>
                 && final[i].control == built[i].control && final[i].subject == built[i].subject
                 && Allowed(u, views, built[i].control, built[i].status, final[i].status)
  {
    BuiltCount(ScanOf(u, views));
    forall i: nat | i < |Built(ScanOf(u, views))|
      ensures var built, final := Built(ScanOf(u, views)), Final(u, views, incomplete, subjects);
              && i < |final| && final[i].control == built[i].control && final[i].subject == built[i].subject
              && Allowed(u, views, built[i].control, built[i].status, final[i].status)
    {
      StatusAt(u, views, incomplete, subjects, i);
    }
    SameLength(u, views, incomplete, subjects);
  }

  lemma SameLength(u: Setup, views: seq<View>, incomplete: map<string, Unit>, subjects: set<string>)
    ensures |Final(u, views, incomplete, subjects)| == |AfterCollection(u, views, incomplete)| ==
            |Built(ScanOf(u, views))|
  {
  }

  /** A conclusive finding whose correlation holds stays in the report, at its place, as a
      deviation, an exempted deviation, or one whose absence nobody attested. */
  lemma DeviationStaysVisible(u: Setup, views: seq<View>, incomplete: map<string, Unit>, subjects: set<string>, i: nat)
    requires i < |u.findings|
    requires !Inconclusive(u.findings[i]) && !CorrelationBroken(ScanOf(u, views), u.findings[i].code)
    ensures i < |Final(u, views, incomplete, subjects)|
    ensures var f := Final(u, views, incomplete, subjects)[i];
            && f.control == u.findings[i].code && f.subject == u.findings[i].subject
            && (f.status == Fail || f.status == Exempted ||
                (f.status == NotEvaluated && NotAttested(u.tables, IndexOf(views), f.control)))
  {
    FindingsStayVisible(ScanOf(u, views), i);
    StatusAt(u, views, incomplete, subjects, i);
  }

  /** Whatever happened before, a verdict of a relaxed control ends without reference and says
      so; a verdict of any other control keeps the references of its control. */
  lemma RelaxedLoseReferences(u: Setup, views: seq<View>, incomplete: map<string, Unit>, subjects: set<string>, i: nat)
    requires i < |Built(ScanOf(u, views))|
    ensures i < |Final(u, views, incomplete, subjects)|
    ensures var b, f := Built(ScanOf(u, views))[i], Final(u, views, incomplete, subjects)[i];
            if GetOr(u.relax, b.control, []) != [] then f.references == []
                && GetOr(f.labels, LABEL_RELAXED, "") == "true"
            else f.references == b.references
  {
    var c, vs := ContextOf(u, subjects), AfterCollection(u, views, incomplete);
    SameLength(u, views, incomplete, subjects);
    ReferencesKept(u, views, incomplete, subjects, i);
    RelaxedVerdict(u.relax, AppliedAll(u.policy, c, vs)[i]);
  }

  lemma ReferencesJudged(u: Setup, views: seq<View>, i: nat)
    requires i < |Built(ScanOf(u, views))|
    ensures i < |Judged(u, views)|
    ensures var b, j := Built(ScanOf(u, views))[i], Judged(u, views)[i];
            j.references == b.references && j.control == b.control
  {
  }

  lemma ReferencesDegraded(degraded: map<string, Unit>, grants: map<string, string>, vs: seq<Verdict>, i: nat)
    requires i < |vs|
    ensures DegradeAll(degraded, grants, vs)[i].references == vs[i].references
    ensures DegradeAll(degraded, grants, vs)[i].control == vs[i].control
  {
  }

  lemma ReferencesApplied(pol: seq<Exemption>, c: Context, vs: seq<Verdict>, i: nat)
    requires i < |vs|
    ensures AppliedAll(pol, c, vs)[i].references == vs[i].references
            && AppliedAll(pol, c, vs)[i].control == vs[i].control
  {
  }

  lemma ReferencesKept(u: Setup, views: seq<View>, incomplete: map<string, Unit>, subjects: set<string>, i: nat)
    requires i < |Built(ScanOf(u, views))|
    ensures i < |AfterExemptions(u, views, incomplete, subjects)|
    ensures var b, e := Built(ScanOf(u, views))[i], AfterExemptions(u, views, incomplete, subjects)[i];
            e.references == b.references && e.control == b.control
  {
    ReferencesJudged(u, views, i);
    ReferencesDegraded(DegradedBy(u, incomplete), u.grants, Judged(u, views), i);
    ReferencesApplied(u.policy, ContextOf(u, subjects), AfterCollection(u, views, incomplete), i);
  }

  lemma RelaxedVerdict(relax: map<string, seq<string>>, v: Verdict)
    ensures var r := RelaxOne(relax, v);
            if GetOr(relax, v.control, []) != [] then r.references == [] && GetOr(r.labels, LABEL_RELAXED, "") == "true"
            else r.references == v.references
  {
    assert |LABEL_RELAXED| == 14 && |LABEL_RELAXED_DETAIL| == 21 && |LABEL_REFERENCES_DROPPED| == 18;
  }

  // ----- A pass is never empty -----

  /** On each type that decides the control, the same declared attribute (all of them when the
      control needs all) is established: some resource of the type shows it, and every other
      one shows it too or was searched for it in vain. */
  ghost predicate DecidingDataEstablished(u: Setup, views: seq<View>, code: string) {
    var s := ScanOf(u, views);
    forall t :: Decides(s, code, t) ==>
      if code in u.tables.requireAll then forall a :: Deciding(s, code, t, a) ==> Counts(views, t, a)
      else exists a :: Deciding(s, code, t, a) && Counts(views, t, a)
  }

  lemma CollectedIsEstablished(u: Setup, views: seq<View>, code: string)
    requires AttrCollected(ScanOf(u, views), code)
    ensures DecidingDataEstablished(u, views, code)
  {
  }

  /** The line of a pass was a pass from the start, for a control that is not degraded. */
  lemma PassOrigin(u: Setup, views: seq<View>, incomplete: map<string, Unit>, subjects: set<string>, v: Verdict)
    returns (b: Verdict)
    requires v in Final(u, views, incomplete, subjects) && v.status == Pass
    ensures b in Built(ScanOf(u, views)) && b.status == Pass && b.control == v.control && b.subject == v.subject
    ensures v.control !in DegradedBy(u, incomplete)
  {
    var i: nat :| i < |Final(u, views, incomplete, subjects)| && Final(u, views, incomplete, subjects)[i] == v;
    SameLength(u, views, incomplete, subjects);
    StatusAt(u, views, incomplete, subjects, i);
    b := Built(ScanOf(u, views))[i];
  }

  /** A final pass means: no finding of any kind on the control; the control is declared for
      the provider, not ruled out, verified by its contract and applicable; no type it reads
      was left unread; and on every deciding type the deciding data was shown by some resource,
      and shown by or searched for on every other. */
  lemma PassIsProven(u: Setup, views: seq<View>, incomplete: map<string, Unit>, subjects: set<string>, v: Verdict)
    requires v in Final(u, views, incomplete, subjects) && v.status == Pass
    ensures v.control in ScopeOf(u) && v.control in u.verified && !HasFinding(ScanOf(u, views), v.control)
    ensures Applicable(ScanOf(u, views), v.control)
    ensures forall t :: t in TypesRead(u.tables, v.control, u.tagged) ==> t !in incomplete
    ensures DecidingDataEstablished(u, views, v.control)
    ensures u.tables.Required(v.control) != map[] ==> exists t :: Decides(ScanOf(u, views), v.control, t)
  {
    var b := PassOrigin(u, views, incomplete, subjects, v);
    var s := ScanOf(u, views);
    PassIsUnlocked(s, b);
    CollectedIsEstablished(u, views, v.control);
    var types := TypesRead(u.tables, v.control, u.tagged);
    assert v.control in ScopeOf(u);
    assert FirstUnread(types, incomplete).None?;
  }

  // ----- Unread is never green -----

  /** A control of the scope that reads an unread type is degraded. */
  lemma UnreadDegrades(u: Setup, incomplete: map<string, Unit>, code: string, t: string)
    requires code in ScopeOf(u) && t in TypesRead(u.tables, code, u.tagged) && t in incomplete
    ensures code in DegradedBy(u, incomplete)
    ensures |DegradedBy(u, incomplete)| > 0
  {
  }

  lemma DegradedIsNeverGreen(u: Setup, views: seq<View>, incomplete: map<string, Unit>, subjects: set<string>,
                             rep: Report, code: string)
    requires code in DegradedBy(u, incomplete) && |DegradedBy(u, incomplete)| > 0
    ensures forall v :: v in Final(u, views, incomplete, subjects) && v.control == code ==> v.status != Pass
    ensures ExitCode(FactsAt(u, views, incomplete, subjects, rep)) != EXIT_COMPLIANT
  {
    forall v | v in Final(u, views, incomplete, subjects) && v.control == code ensures v.status != Pass {
      if v.status == Pass {
        var b := PassOrigin(u, views, incomplete, subjects, v);
        assert false;
      }
    }
  }

  /** Whatever a history of collection left unread: no control of the scope that reads it
      passes, and the scan does not exit 0. */
  lemma UnreadIsNeverGreen(u: Setup, views: seq<View>, log: seq<Unit>, units: seq<Unit>, subjects: set<string>,
                           rep: Report, code: string, t: string)
    requires IsMerge(log, units) && Unread(log, t)
    requires code in ScopeOf(u) && t in TypesRead(u.tables, code, u.tagged)
    ensures forall v :: v in Final(u, views, IncompleteMap(units), subjects) && v.control == code ==> v.status != Pass
    ensures ExitCode(FactsAt(u, views, IncompleteMap(units), subjects, rep)) != EXIT_COMPLIANT
  {
    var incomplete := IncompleteMap(units);
    IncompleteExactly(log, units, t);
    UnreadDegrades(u, incomplete, code, t);
    DegradedIsNeverGreen(u, views, incomplete, subjects, rep, code);
  }

  /** A spec that ended in an error leaves its type unread, whatever is recorded later. */
  lemma FailedSpecIsUnread(w: World, specs: seq<ResourceSpec>, k: nat, later: seq<Unit>)
    requires k < |specs| && specs[k].typ != "" && CollectedFor(w, specs[k]).error.Some?
    ensures Unread(UnitsFor(w, specs) + later, specs[k].typ)
  {
    var log := UnitsFor(w, specs);
    assert log[k] == UnitFor(w, specs[k]);
    FailingRecordUnreads(log, k, specs[k].typ);
    UnreadGrows(log, later, specs[k].typ);
  }

  /** From a list that could not be read to the exit code: when any list behind a spec, its
      own, its parents' or one of their children's, ended in an error, no control of the scope
      that reads its type passes and the scan does not exit 0, whatever else was collected
      and whatever is recorded later. */
  lemma FailedReadIsNeverGreen(u: Setup, views: seq<View>, subjects: set<string>, rep: Report, w: World,
                               specs: seq<ResourceSpec>, k: nat, later: seq<Unit>, units: seq<Unit>, code: string)
    requires k < |specs| && specs[k].typ != "" && SomeReadFailed(w, specs[k])
    requires IsMerge(UnitsFor(w, specs) + later, units)
    requires code in ScopeOf(u) && specs[k].typ in TypesRead(u.tables, code, u.tagged)
    ensures forall v :: v in Final(u, views, IncompleteMap(units), subjects) && v.control == code ==> v.status != Pass
    ensures ExitCode(FactsAt(u, views, IncompleteMap(units), subjects, rep)) != EXIT_COMPLIANT
  {
    FailsExactly(w, specs[k]);
    FailedSpecIsUnread(w, specs, k, later);
    UnreadIsNeverGreen(u, views, UnitsFor(w, specs) + later, units, subjects, rep, code, specs[k].typ);
  }

  /** From the server to the exit code: when a server serves the lists behind a spec and the
      resources collected are not all those they hold, because it refused some request or the
      page bound was reached, no control of the scope that reads its type passes and the scan
      does not exit 0. */
  lemma IncompleteCollectionIsNeverGreen(u: Setup, views: seq<View>, subjects: set<string>, rep: Report, w: World,
                                         specs: seq<ResourceSpec>, k: nat, later: seq<Unit>, units: seq<Unit>,
                                         all: seq<Json>, truth: Json -> seq<Json>, code: string)
    requires k < |specs| && specs[k].typ != ""
    requires Served(w, specs[k], all, truth)
    requires CollectedFor(w, specs[k]).resources != Full(w, specs[k], all, truth)
    requires IsMerge(UnitsFor(w, specs) + later, units)
    requires code in ScopeOf(u) && specs[k].typ in TypesRead(u.tables, code, u.tagged)
    ensures forall v :: v in Final(u, views, IncompleteMap(units), subjects) && v.control == code ==> v.status != Pass
    ensures ExitCode(FactsAt(u, views, IncompleteMap(units), subjects, rep)) != EXIT_COMPLIANT
  {
    CollectedIsCompleteOrError(w, specs[k], all, truth);
    FailsExactly(w, specs[k]);
    FailedReadIsNeverGreen(u, views, subjects, rep, w, specs, k, later, units, code);
  }
}
