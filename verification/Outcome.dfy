/** What the exit code and the headline of a scan say, in the terms of its findings, its final
    verdicts and its policy (cmd/scan.go). */
module Outcome {
  import opened CollectionState
  import opened Inventory
  import opened Assess
  import opened Exempt
  import opened Gate
  import opened Pipeline
  import opened Certainty
  import opened Reference

  // ----- The facts -----

  /** Something was measured on resources: a control that is not one of governance passed or
      failed. */
  ghost predicate Rests(final: seq<Verdict>) {
    exists v :: v in final && !("governance_" <= v.control) && (v.status == Pass || v.status == Fail)
  }

  predicate Grave(f: Finding) {
    f.severity == "critical" || f.severity == "high"
  }

  predicate Lesser(f: Finding) {
    f.severity == "medium" || f.severity == "low"
  }

  /** A conclusive finding the profile retains. */
  predicate Weighs(u: Setup, f: Finding) {
    f in u.findings && !Undecided(f) && u.profile.retains(f)
  }

  /** An exempted verdict answers for the control and the subject of a finding. */
  ghost predicate AnsweredFor(final: seq<Verdict>, f: Finding) {
    exists v :: v in final && v.status == Exempted && v.control + "\0" + v.subject == f.code + "\0" + f.subject
  }

  ghost predicate GraveOpen(u: Setup, final: seq<Verdict>) {
    exists f :: Weighs(u, f) && Grave(f) && !AnsweredFor(final, f)
  }

  ghost predicate GraveKept(u: Setup) {
    exists f :: Weighs(u, f) && Grave(f)
  }

  ghost predicate LesserKept(u: Setup) {
    exists f :: Weighs(u, f) && Lesser(f)
  }

  /** A conclusive finding that the profile sets aside although it is severe. */
  ghost predicate SevereLeftOut(u: Setup) {
    exists f :: f in u.findings && !Undecided(f) && !u.profile.retains(f) && u.profile.severe(f.severity)
  }

  predicate Concludable(u: Setup, c: string) {
    c in u.controls && !Justified(u, c) && u.provider in u.controls[c].providers
  }

  /** A control the scan could conclude on reads something that was not read. */
  ghost predicate SomethingUnread(u: Setup, log: seq<Unit>) {
    exists c :: Concludable(u, c) && ReadsUnread(u, log, c)
  }

  ghost predicate SomeExempted(final: seq<Verdict>) {
    exists v :: v in final && v.status == Exempted
  }

  /** An exemption that names an unknown control, or a resource nobody knows, or has lapsed. */
  ghost predicate Useless(u: Setup, subjects: set<string>, final: seq<Verdict>, e: Exemption) {
    || e.control !in u.controls
    || (e.resource != "" && e.resource !in subjects && forall v :: v in final ==> v.subject != e.resource)
    || !StillValid(e.expiresAt.moment, u.now)
  }

  ghost predicate SomeUseless(u: Setup, subjects: set<string>, final: seq<Verdict>) {
    exists e :: e in u.policy && Useless(u, subjects, final, e)
  }

  /** Nothing a strict scan refuses. */
  ghost predicate NothingMinor(u: Setup, subjects: set<string>, final: seq<Verdict>) {
    !LesserKept(u) && !SomeUseless(u, subjects, final) && u.relax == map[]
  }

  // ----- What the program counts -----

  lemma KeptMeans(u: Setup, f: Finding)
    ensures f in Kept(u.findings, u.profile) <==> Weighs(u, f)
    ensures f in Gate.SetAside(u.findings, u.profile) <==> f in u.findings && !Undecided(f) && !u.profile.retains(f)
  {
    assert Undecided(f) <==> Inconclusive(f);
  }

  lemma OpenMeans(u: Setup, final: seq<Verdict>, f: Finding)
    ensures f in Open(Kept(u.findings, u.profile), final) <==> Weighs(u, f) && !AnsweredFor(final, f)
  {
    KeptMeans(u, f);
    if f in Kept(u.findings, u.profile) {
      OpenExactly(Kept(u.findings, u.profile), final, f);
    }
  }

  lemma ScoresMean(u: Setup, final: seq<Verdict>)
    ensures ScoreOf(Open(Kept(u.findings, u.profile), final)).Compliant() <==> !GraveOpen(u, final)
    ensures ScoreOf(Kept(u.findings, u.profile)).Compliant() <==> !GraveKept(u)
    ensures ScoreOf(Kept(u.findings, u.profile)).medium + ScoreOf(Kept(u.findings, u.profile)).low == 0 <==>
            !LesserKept(u)
  {
    var kept := Kept(u.findings, u.profile);
    CompliantExactly(Open(kept, final));
    CompliantExactly(kept);
    NoMinorExactly(kept);
    forall f
      ensures f in kept <==> Weighs(u, f)
      ensures f in Open(kept, final) <==> Weighs(u, f) && !AnsweredFor(final, f)
    {
      KeptMeans(u, f);
      OpenMeans(u, final, f);
    }
  }

  lemma MeasuredMeans(final: seq<Verdict>)
    ensures CountMeasured(final) > 0 <==> Rests(final)
    ensures CountExempted(final) > 0 <==> SomeExempted(final)
  {
    CountMeasuredPositive(final);
    CountExemptedPositive(final);
  }

  lemma AsideMeans(u: Setup)
    ensures SevereAside(u.findings, u.profile) <==> SevereLeftOut(u)
  {
    forall f ensures f in Gate.SetAside(u.findings, u.profile) <==>
                     f in u.findings && !Undecided(f) && !u.profile.retains(f)
    {
      KeptMeans(u, f);
    }
  }

  lemma UnreadControl(u: Setup, log: seq<Unit>, units: seq<Unit>, c: string)
    requires IsMerge(log, units)
    ensures c in DegradedBy(u, IncompleteMap(units)) <==> Concludable(u, c) && ReadsUnread(u, log, c)
  {
    assert c in ScopeOf(u) <==> Concludable(u, c);
    if c in ScopeOf(u) {
      UnreadSeen(u, log, units, c);
    }
  }

  lemma SomeUnread(u: Setup, log: seq<Unit>, d: map<string, Unit>)
    requires forall c :: c in d <==> Concludable(u, c) && ReadsUnread(u, log, c)
    ensures |d| > 0 <==> SomethingUnread(u, log)
  {
    MapSize(d);
    if d != map[] {
      var c :| c in d;
    }
  }

  lemma DegradedMeans(u: Setup, log: seq<Unit>, units: seq<Unit>)
    requires IsMerge(log, units)
    ensures |DegradedBy(u, IncompleteMap(units))| > 0 <==> SomethingUnread(u, log)
  {
    forall c ensures c in DegradedBy(u, IncompleteMap(units)) <==> Concludable(u, c) && ReadsUnread(u, log, c) {
      UnreadControl(u, log, units, c);
    }
    SomeUnread(u, log, DegradedBy(u, IncompleteMap(units)));
  }

  lemma SameSubjects(a: seq<Verdict>, b: seq<Verdict>, subject: string)
    requires |a| == |b| && forall i :: 0 <= i < |a| ==> a[i].subject == b[i].subject
    ensures (exists v :: v in a && v.subject == subject) <==> (exists v :: v in b && v.subject == subject)
  {
    if v :| v in a && v.subject == subject {
      var i :| 0 <= i < |a| && a[i] == v;
      assert b[i] in b;
    }
    if v :| v in b && v.subject == subject {
      var i :| 0 <= i < |b| && b[i] == v;
      assert a[i] in a;
    }
  }

  lemma SubjectsKept(u: Setup, views: seq<View>, incomplete: map<string, Unit>, subjects: set<string>, subject: string)
    ensures (exists v :: v in AfterCollection(u, views, incomplete) && v.subject == subject) <==>
            (exists v :: v in Final(u, views, incomplete, subjects) && v.subject == subject)
  {
    SameLength(u, views, incomplete, subjects);
    forall i: nat | i < |AfterCollection(u, views, incomplete)|
      ensures Final(u, views, incomplete, subjects)[i].subject == AfterCollection(u, views, incomplete)[i].subject
    {
      FinalMove(u, views, incomplete, subjects, i);
    }
    SameSubjects(AfterCollection(u, views, incomplete), Final(u, views, incomplete, subjects), subject);
  }

  lemma UselessMeans(u: Setup, views: seq<View>, incomplete: map<string, Unit>, subjects: set<string>, i: nat,
                     final: seq<Verdict>)
    requires i < |u.policy| && final == Final(u, views, incomplete, subjects)
    ensures var fate := FateOf(u.policy, ContextOf(u, subjects), AfterCollection(u, views, incomplete), i);
            fate == IsOrphan || fate == HasExpired <==> Useless(u, subjects, final, u.policy[i])
  {
    SubjectsKept(u, views, incomplete, subjects, u.policy[i].resource);
    ValidityRead(u.policy[i], u.now);
  }

  lemma StaleMeans(u: Setup, views: seq<View>, incomplete: map<string, Unit>, subjects: set<string>, rep: Report,
                   final: seq<Verdict>)
    requires ReportFits(u, views, incomplete, subjects, rep) && final == Final(u, views, incomplete, subjects)
    ensures IsStale(rep) <==> SomeUseless(u, subjects, final)
  {
    var c, vs := ContextOf(u, subjects), AfterCollection(u, views, incomplete);
    ReportCounts(u.policy, c, vs, rep, Expired);
    ReportCounts(u.policy, c, vs, rep, Orphan);
    CountFatePositive(u.policy, c, vs, |u.policy|, HasExpired);
    CountFatePositive(u.policy, c, vs, |u.policy|, IsOrphan);
    forall i: nat | i < |u.policy|
      ensures FateOf(u.policy, c, vs, i) == IsOrphan || FateOf(u.policy, c, vs, i) == HasExpired <==>
              Useless(u, subjects, final, u.policy[i])
    {
      UselessMeans(u, views, incomplete, subjects, i, final);
    }
    StaleByFate(u, c, vs, subjects, final);
  }

  lemma StaleByFate(u: Setup, c: Context, vs: seq<Verdict>, subjects: set<string>, final: seq<Verdict>)
    requires forall i :: 0 <= i < |u.policy| ==>
               (FateOf(u.policy, c, vs, i) == IsOrphan || FateOf(u.policy, c, vs, i) == HasExpired <==>
                Useless(u, subjects, final, u.policy[i]))
    ensures (exists i :: 0 <= i < |u.policy| && (FateOf(u.policy, c, vs, i) == IsOrphan
                                                 || FateOf(u.policy, c, vs, i) == HasExpired)) <==>
            SomeUseless(u, subjects, final)
  {
    if e :| e in u.policy && Useless(u, subjects, final, e) {
      var i :| 0 <= i < |u.policy| && u.policy[i] == e;
    }
  }

  // ----- The exit code and the headline -----

  /** What each exit code says. */
  ghost predicate CodeMeans(u: Setup, log: seq<Unit>, subjects: set<string>, final: seq<Verdict>, code: nat) {
    var sure := Rests(final) && !SevereLeftOut(u) && !SomethingUnread(u, log);
    && (code == 1 <==> GraveOpen(u, final))
    && (code == 0 <==> !GraveOpen(u, final) && sure && !SomeExempted(final)
                       && (u.strict ==> NothingMinor(u, subjects, final)))
    && (code == 4 <==> !GraveOpen(u, final) && sure && SomeExempted(final))
    && (code == 0 || code == 1 || code == 3 || code == 4)
  }

  /** What each headline says. */
  ghost predicate HeadlineMeans(u: Setup, log: seq<Unit>, final: seq<Verdict>, h: Headline) {
    var clean := Rests(final) && !GraveKept(u);
    && (h == Undetermined <==> !Rests(final))
    && (h == NonCompliantUnderWaiver <==> Rests(final) && GraveKept(u) && !GraveOpen(u, final) && SomeExempted(final))
    && (h == NonCompliantBeyondWaiver <==> Rests(final) && GraveKept(u) && GraveOpen(u, final) && SomeExempted(final))
    && (h == NonCompliant <==> Rests(final) && GraveKept(u) && !SomeExempted(final))
    && (h == Incomplete <==> clean && SomethingUnread(u, log))
    && (h == UnderRelaxedConfiguration <==> clean && !SomethingUnread(u, log) && u.relax != map[])
    && (h == MediumLowOnly <==> clean && !SomethingUnread(u, log) && u.relax == map[] && LesserKept(u))
    && (h == CompliantHeadline <==> clean && !SomethingUnread(u, log) && u.relax == map[] && !LesserKept(u))
  }

  lemma FactsMean(u: Setup, views: seq<View>, log: seq<Unit>, units: seq<Unit>, subjects: set<string>, rep: Report,
                  final: seq<Verdict>, facts: Facts)
    requires IsMerge(log, units) && ReportFits(u, views, IncompleteMap(units), subjects, rep)
    requires final == Final(u, views, IncompleteMap(units), subjects)
    requires facts == FactsAt(u, views, IncompleteMap(units), subjects, rep)
    ensures facts.gate.Compliant() <==> !GraveOpen(u, final)
    ensures facts.res.Compliant() <==> !GraveKept(u)
    ensures facts.res.medium + facts.res.low == 0 <==> !LesserKept(u)
    ensures facts.measured > 0 <==> Rests(final)
    ensures facts.exempted > 0 <==> SomeExempted(final)
    ensures facts.asideSevere <==> SevereLeftOut(u)
    ensures facts.degraded > 0 <==> SomethingUnread(u, log)
    ensures facts.applied <==> SomeExempted(final)
    ensures facts.stale <==> SomeUseless(u, subjects, final)
    ensures facts.relaxed == 0 <==> u.relax == map[]
    ensures facts.strict == u.strict
  {
    ScoresMean(u, final);
    MeasuredMeans(final);
    AsideMeans(u);
    DegradedMeans(u, log, units);
    AppliedIffExempted(u, views, IncompleteMap(units), subjects, rep);
    StaleMeans(u, views, IncompleteMap(units), subjects, rep, final);
    MapSize(u.relax);
  }

  /** For every scan: its code and its headline say exactly this of its findings, of its verdicts,
      of what was read and of the policy. */
  lemma ScanOutcome(u: Setup, views: seq<View>, log: seq<Unit>, units: seq<Unit>, subjects: set<string>, rep: Report,
                    final: seq<Verdict>)
    requires IsMerge(log, units) && ReportFits(u, views, IncompleteMap(units), subjects, rep)
    requires final == Final(u, views, IncompleteMap(units), subjects)
    ensures CodeMeans(u, log, subjects, final, ExitCode(FactsAt(u, views, IncompleteMap(units), subjects, rep)))
    ensures HeadlineMeans(u, log, final, HeadlineOf(FactsAt(u, views, IncompleteMap(units), subjects, rep)))
  {
    var facts := FactsAt(u, views, IncompleteMap(units), subjects, rep);
    FactsMean(u, views, log, units, subjects, rep, final, facts);
    LadderMeans(u, log, subjects, final, facts);
  }

  lemma LadderMeans(u: Setup, log: seq<Unit>, subjects: set<string>, final: seq<Verdict>, facts: Facts)
    requires facts.gate.Compliant() <==> !GraveOpen(u, final)
    requires facts.res.Compliant() <==> !GraveKept(u)
    requires facts.res.medium + facts.res.low == 0 <==> !LesserKept(u)
    requires facts.measured > 0 <==> Rests(final)
    requires facts.exempted > 0 <==> SomeExempted(final)
    requires facts.asideSevere <==> SevereLeftOut(u)
    requires facts.degraded > 0 <==> SomethingUnread(u, log)
    requires facts.applied <==> SomeExempted(final)
    requires facts.stale <==> SomeUseless(u, subjects, final)
    requires facts.relaxed == 0 <==> u.relax == map[]
    requires facts.strict == u.strict
    ensures CodeMeans(u, log, subjects, final, ExitCode(facts))
    ensures HeadlineMeans(u, log, final, HeadlineOf(facts))
  {
  }

  /** In particular a scan that measured nothing never exits 0 nor 4, whatever else it holds, and
      is announced as undetermined. */
  lemma NothingMeasured(u: Setup, views: seq<View>, log: seq<Unit>, units: seq<Unit>, subjects: set<string>,
                        rep: Report)
    requires IsMerge(log, units) && ReportFits(u, views, IncompleteMap(units), subjects, rep)
    requires forall v :: v in Final(u, views, IncompleteMap(units), subjects) ==>
               "governance_" <= v.control || (v.status != Pass && v.status != Fail)
    ensures ExitCode(FactsAt(u, views, IncompleteMap(units), subjects, rep)) == 1
            || ExitCode(FactsAt(u, views, IncompleteMap(units), subjects, rep)) == 3
    ensures HeadlineOf(FactsAt(u, views, IncompleteMap(units), subjects, rep)) == Undetermined
  {
    ScanOutcome(u, views, log, units, subjects, rep, Final(u, views, IncompleteMap(units), subjects));
  }
}
