/** What an exit code establishes, and what a failed collection can do to it. */
module Certainty {
  import opened Wrappers
  import opened Order
  import opened CollectionState
  import opened Inventory
  import opened ProvenanceIndex
  import opened Assess
  import opened Passes
  import opened Exempt
  import opened Gate
  import opened Pipeline

  // ----- Exempted verdicts and the report -----

  lemma NoneExemptedYet(u: Setup, views: seq<View>, incomplete: map<string, Unit>)
    ensures forall v :: v in AfterCollection(u, views, incomplete) ==> v.status != Exempted
  {
    var vs := AfterCollection(u, views, incomplete);
    forall v | v in vs ensures v.status != Exempted {
      var i: nat :| i < |vs| && vs[i] == v;
      SameLength(u, views, incomplete, {});
      JudgedMove(u, views, i);
      CollectionMove(u, views, incomplete, i);
      BuiltNeverExempted(ScanOf(u, views), Built(ScanOf(u, views))[i]);
    }
  }

  lemma BuiltNeverExempted(s: Scan, v: Verdict)
    requires v in Built(s)
    ensures v.status != Exempted
  {
    BuiltMembers(s, v);
  }

  ghost predicate ExemptsSome(vs: seq<Verdict>) {
    exists v :: v in vs && v.status == Exempted
  }

  lemma ExemptsSomeAt(vs: seq<Verdict>)
    ensures ExemptsSome(vs) <==> exists k :: 0 <= k < |vs| && vs[k].status == Exempted
  {
  }

  /** The report says an exemption applied exactly when a final verdict is exempted. */
  lemma AppliedIffExempted(u: Setup, views: seq<View>, incomplete: map<string, Unit>, subjects: set<string>,
                           rep: Report)
    requires ReportFits(u, views, incomplete, subjects, rep)
    ensures HasApplied(rep) <==> ExemptsSome(Final(u, views, incomplete, subjects))
  {
    NoneExemptedYet(u, views, incomplete);
    AppliedIffRelaxed(u.policy, ContextOf(u, subjects), AfterCollection(u, views, incomplete), u.relax, rep);
  }

  lemma AppliedIffRelaxed(pol: seq<Exemption>, c: Context, vs: seq<Verdict>, relax: map<string, seq<string>>,
                          rep: Report)
    requires IsReport(pol, c, vs, rep)
    requires forall v :: v in vs ==> v.status != Exempted
    ensures HasApplied(rep) <==> ExemptsSome(RelaxAll(relax, AppliedAll(pol, c, vs)))
  {
    AppliedMeansExempted(pol, c, vs, rep);
    ExemptsSomeAt(AppliedAll(pol, c, vs));
    RelaxKeepsStatus(relax, AppliedAll(pol, c, vs));
  }

  lemma RelaxKeepsStatus(relax: map<string, seq<string>>, vs: seq<Verdict>)
    ensures ExemptsSome(RelaxAll(relax, vs)) <==> ExemptsSome(vs)
  {
  }

  // ----- Exit 0 -----

  ghost predicate NoGrave(fs: seq<Finding>) {
    forall f :: f in fs ==> !IsGrave(f)
  }

  ghost predicate NoMinor(fs: seq<Finding>) {
    forall f :: f in fs ==> f.severity != "medium" && f.severity != "low"
  }

  ghost predicate MeasuresSome(vs: seq<Verdict>) {
    exists v :: v in vs && Measured(v)
  }

  /** Everything that must hold of a scan for it to exit 0: no retained critical or high
      deviation, nothing exempted, no control degraded, nothing severe set aside, something
      measured on resources; and in strict mode no medium or low deviation, no stale
      exemption, no relaxed control. */
  ghost predicate Establishes(fs: seq<Finding>, p: Profile, final: seq<Verdict>, rep: Report,
                              degraded: map<string, Unit>, relax: map<string, seq<string>>, strict: bool) {
    && NoGrave(Kept(fs, p)) && !ExemptsSome(final) && degraded == map[] && !SevereAside(fs, p) && MeasuresSome(final)
    && (strict ==> NoMinor(Kept(fs, p)) && !IsStale(rep) && relax == map[])
  }

  lemma MapSize<K, V>(m: map<K, V>)
    ensures |m| == 0 <==> m == map[]
  {
  }

  lemma NoMinorExactly(fs: seq<Finding>)
    ensures ScoreOf(fs).medium + ScoreOf(fs).low == 0 <==> NoMinor(fs)
  {
    CountSeverityZero(fs, "medium");
    CountSeverityZero(fs, "low");
  }

  /** With nothing exempted, the gate weighs all that is retained. */
  lemma GateWithoutExemption(fs: seq<Finding>, vs: seq<Verdict>)
    requires !ExemptsSome(vs)
    ensures ScoreOf(Open(fs, vs)) == ScoreOf(fs)
  {
    forall v | v in vs ensures v.status != Exempted {
    }
    OpenWithoutExemption(fs, vs);
  }

  lemma ZeroExactly(fs: seq<Finding>, p: Profile, final: seq<Verdict>, rep: Report, degraded: map<string, Unit>,
                    relax: map<string, seq<string>>, strict: bool)
    requires HasApplied(rep) <==> ExemptsSome(final)
    ensures ExitCode(FactsOf(fs, p, final, rep, |degraded|, |relax|, strict)) == EXIT_COMPLIANT <==>
            Establishes(fs, p, final, rep, degraded, relax, strict)
  {
    var f := FactsOf(fs, p, final, rep, |degraded|, |relax|, strict);
    if !ExemptsSome(final) {
      GateWithoutExemption(Kept(fs, p), final);
    }
    assert f.res.Compliant() <==> NoGrave(Kept(fs, p)) by { CompliantExactly(Kept(fs, p)); }
    NoMinorExactly(Kept(fs, p));
    assert f.measured > 0 <==> MeasuresSome(final) by { CountMeasuredPositive(final); }
    MapSize(degraded);
    MapSize(relax);
  }

  /** Exit 0 exactly when the scan establishes all of it. */
  lemma ExitZeroExactly(u: Setup, views: seq<View>, incomplete: map<string, Unit>, subjects: set<string>, rep: Report)
    requires ReportFits(u, views, incomplete, subjects, rep)
    ensures ExitCode(FactsAt(u, views, incomplete, subjects, rep)) == EXIT_COMPLIANT <==>
            Establishes(u.findings, u.profile, Final(u, views, incomplete, subjects), rep,
                        DegradedBy(u, incomplete), u.relax, u.strict)
  {
    AppliedIffExempted(u, views, incomplete, subjects, rep);
    ZeroExactly(u.findings, u.profile, Final(u, views, incomplete, subjects), rep, DegradedBy(u, incomplete), u.relax,
                u.strict);
  }

  /** On exit 0 the headline never says undetermined, non-compliant or incomplete, and in
      strict mode it is the plain compliant one. */
  lemma ExitZeroHeadline(u: Setup, views: seq<View>, incomplete: map<string, Unit>, subjects: set<string>, rep: Report)
    requires ReportFits(u, views, incomplete, subjects, rep)
    requires ExitCode(FactsAt(u, views, incomplete, subjects, rep)) == EXIT_COMPLIANT
    ensures HeadlineOf(FactsAt(u, views, incomplete, subjects, rep)) in
              {UnderRelaxedConfiguration, MediumLowOnly, CompliantHeadline}
    ensures u.strict ==> HeadlineOf(FactsAt(u, views, incomplete, subjects, rep)) == CompliantHeadline
  {
    var final := Final(u, views, incomplete, subjects);
    AppliedIffExempted(u, views, incomplete, subjects, rep);
    GateWithoutExemption(Kept(u.findings, u.profile), final);
  }

  // ----- Exit 1 -----

  /** The assessment holds the deviations of a control to be unfounded: what it correlates,
      or the absence it rests on, was never readable. */
  ghost predicate Withdrawn(u: Setup, views: seq<View>, code: string) {
    CorrelationBroken(ScanOf(u, views), code) || NotAttested(u.tables, IndexOf(views), code)
  }

  /** An exemption of the policy is in force for a pair. */
  ghost predicate Waived(u: Setup, control: string, subject: string) {
    InForce(u.policy, u.now, u.controls.Keys, control, subject)
  }

  ghost predicate PairHas(vs: seq<Verdict>, control: string, subject: string, s: Status) {
    exists v :: v in vs && v.control == control && v.subject == subject && v.status == s
  }

  lemma BuiltFailure(s: Scan, i: nat)
    requires i < |Built(s)| && Built(s)[i].status == Fail
    ensures i < |s.findings| && Built(s)[i] == FindingVerdict(s, s.findings[i])
    ensures !Inconclusive(s.findings[i]) && !CorrelationBroken(s, s.findings[i].code)
  {
    if i >= |s.findings| {
      var codes := Ordered(s.controls.Keys);
      var v := ControlVerdicts(s, codes)[i - |s.findings|];
      assert Built(s)[i] == v && v in ControlVerdicts(s, codes);
      ControlVerdictsMembers(s, codes, v);
    }
  }

  /** A line that ends as a failure, or as exempted, is that of a finding the assessment did
      not withdraw; which of the two is decided by the policy. */
  lemma DecidedLine(u: Setup, views: seq<View>, incomplete: map<string, Unit>, subjects: set<string>, i: nat,
                    final: seq<Verdict>)
    requires final == Final(u, views, incomplete, subjects) && i < |final|
    requires final[i].status == Fail || final[i].status == Exempted
    ensures i < |u.findings| && !Inconclusive(u.findings[i]) && !Withdrawn(u, views, u.findings[i].code)
    ensures final[i].control == u.findings[i].code && final[i].subject == u.findings[i].subject
    ensures final[i].severity == Built(ScanOf(u, views))[i].severity
    ensures final[i].status == Exempted <==> Waived(u, u.findings[i].code, u.findings[i].subject)
  {
    SameLength(u, views, incomplete, subjects);
    StatusAt(u, views, incomplete, subjects, i);
    BuiltNeverExempted(ScanOf(u, views), Built(ScanOf(u, views))[i]);
    BuiltFailure(ScanOf(u, views), i);
  }

  /** The line of a conclusive finding the assessment did not withdraw. */
  lemma StandingLine(u: Setup, views: seq<View>, incomplete: map<string, Unit>, subjects: set<string>, i: nat,
                     final: seq<Verdict>)
    requires final == Final(u, views, incomplete, subjects) && i < |u.findings|
    requires !Inconclusive(u.findings[i]) && !Withdrawn(u, views, u.findings[i].code)
    ensures i < |final| && final[i].control == u.findings[i].code && final[i].subject == u.findings[i].subject
    ensures final[i].status == if Waived(u, u.findings[i].code, u.findings[i].subject) then Exempted else Fail
    ensures final[i].severity == Built(ScanOf(u, views))[i].severity
  {
    FindingsStayVisible(ScanOf(u, views), i);
    StatusAt(u, views, incomplete, subjects, i);
  }

  /** A conclusive finding has a failed verdict of its control and subject exactly when the
      assessment did not withdraw it and no exemption in force covers it; and an exempted one
      exactly when it was not withdrawn and one does. */
  lemma DeviationFailsExactly(u: Setup, views: seq<View>, incomplete: map<string, Unit>, subjects: set<string>,
                              f: Finding)
    requires f in u.findings && !Inconclusive(f)
    ensures PairHas(Final(u, views, incomplete, subjects), f.code, f.subject, Fail) <==>
              !Withdrawn(u, views, f.code) && !Waived(u, f.code, f.subject)
    ensures PairHas(Final(u, views, incomplete, subjects), f.code, f.subject, Exempted) <==>
              !Withdrawn(u, views, f.code) && Waived(u, f.code, f.subject)
  {
    PairDecided(u, views, incomplete, subjects, f, Final(u, views, incomplete, subjects), Fail);
    PairDecided(u, views, incomplete, subjects, f, Final(u, views, incomplete, subjects), Exempted);
  }

  lemma PairDecided(u: Setup, views: seq<View>, incomplete: map<string, Unit>, subjects: set<string>, f: Finding,
                    final: seq<Verdict>, s: Status)
    requires final == Final(u, views, incomplete, subjects) && f in u.findings && !Inconclusive(f)
    requires s == Fail || s == Exempted
    ensures PairHas(final, f.code, f.subject, s) <==>
              !Withdrawn(u, views, f.code) && (s == Exempted <==> Waived(u, f.code, f.subject))
  {
    if PairHas(final, f.code, f.subject, s) {
      PairIsDecided(u, views, incomplete, subjects, f, final, s);
    }
    if !Withdrawn(u, views, f.code) && (s == Exempted <==> Waived(u, f.code, f.subject)) {
      var i: nat :| i < |u.findings| && u.findings[i] == f;
      StandingLine(u, views, incomplete, subjects, i, final);
      assert final[i] in final;
    }
  }

  lemma PairIsDecided(u: Setup, views: seq<View>, incomplete: map<string, Unit>, subjects: set<string>, f: Finding,
                      final: seq<Verdict>, s: Status)
    requires final == Final(u, views, incomplete, subjects) && PairHas(final, f.code, f.subject, s)
    requires s == Fail || s == Exempted
    ensures !Withdrawn(u, views, f.code) && (s == Exempted <==> Waived(u, f.code, f.subject))
  {
    var v :| v in final && v.control == f.code && v.subject == f.subject && v.status == s;
    var i: nat :| i < |final| && final[i] == v;
    DecidedLine(u, views, incomplete, subjects, i, final);
  }

  /** The codes found can be told apart by the keys of the gate. */
  ghost predicate SeparableCodes(fs: seq<Finding>) {
    forall f, g :: f in fs && g in fs ==> Separable(f.code, g.code)
  }

  /** A finding that an exemption in force turns into an exempted verdict. */
  ghost predicate IsExempted(u: Setup, views: seq<View>, g: Finding) {
    !Inconclusive(g) && !Withdrawn(u, views, g.code) && Waived(u, g.code, g.subject)
  }

  /** The gate does not weigh a finding: one of its key, perhaps itself, is exempted. */
  ghost predicate Hidden(u: Setup, views: seq<View>, f: Finding) {
    exists g :: g in u.findings && IsExempted(u, views, g) && PairKey(g.code, g.subject) == PairKey(f.code, f.subject)
  }

  lemma ExemptedHides(u: Setup, views: seq<View>, incomplete: map<string, Unit>, subjects: set<string>, f: Finding,
                      final: seq<Verdict>, v: Verdict)
    requires final == Final(u, views, incomplete, subjects) && v in final && v.status == Exempted
    requires PairKey(v.control, v.subject) == PairKey(f.code, f.subject)
    ensures Hidden(u, views, f)
  {
    var i: nat :| i < |final| && final[i] == v;
    DecidedLine(u, views, incomplete, subjects, i, final);
    assert u.findings[i] in u.findings;
  }

  lemma HidingIsExempted(u: Setup, views: seq<View>, incomplete: map<string, Unit>, subjects: set<string>, g: Finding,
                         final: seq<Verdict>) returns (v: Verdict)
    requires final == Final(u, views, incomplete, subjects) && g in u.findings && IsExempted(u, views, g)
    ensures v in final && v.status == Exempted && v.control == g.code && v.subject == g.subject
  {
    var i: nat :| i < |u.findings| && u.findings[i] == g;
    StandingLine(u, views, incomplete, subjects, i, final);
    v := final[i];
  }

  lemma OpenUnlessHidden(u: Setup, views: seq<View>, incomplete: map<string, Unit>, subjects: set<string>, f: Finding,
                         fs: seq<Finding>, final: seq<Verdict>)
    requires final == Final(u, views, incomplete, subjects) && f in fs
    ensures f in Open(fs, final) <==> !Hidden(u, views, f)
  {
    OpenExactly(fs, final, f);
    if v :| v in final && v.status == Exempted && PairKey(v.control, v.subject) == PairKey(f.code, f.subject) {
      ExemptedHides(u, views, incomplete, subjects, f, final, v);
    }
    if g :| g in u.findings && IsExempted(u, views, g) && PairKey(g.code, g.subject) == PairKey(f.code, f.subject) {
      var v := HidingIsExempted(u, views, incomplete, subjects, g, final);
    }
  }

  /** When the codes can be told apart, a finding is hidden by its own exemption alone. */
  lemma HiddenByItself(u: Setup, views: seq<View>, f: Finding)
    requires SeparableCodes(u.findings) && f in u.findings && !Inconclusive(f)
    ensures Hidden(u, views, f) <==> !Withdrawn(u, views, f.code) && Waived(u, f.code, f.subject)
  {
    assert IsExempted(u, views, f) <==> !Withdrawn(u, views, f.code) && Waived(u, f.code, f.subject);
    if g :| g in u.findings && IsExempted(u, views, g) && PairKey(g.code, g.subject) == PairKey(f.code, f.subject) {
      KeysSeparate(g.code, f.code);
    }
  }

  /** Exit 1 exactly when some retained critical or high deviation is not hidden; which is to
      say, when the codes can be told apart, that the assessment withdrew it or that no
      exemption in force covers it. In the first case no verdict of its control and subject
      fails, and the code is 1 all the same. */
  lemma ExitOneExactly(u: Setup, views: seq<View>, incomplete: map<string, Unit>, subjects: set<string>, rep: Report)
    ensures ExitCode(FactsAt(u, views, incomplete, subjects, rep)) == EXIT_NON_COMPLIANT <==>
              exists f :: f in Kept(u.findings, u.profile) && IsGrave(f) && !Hidden(u, views, f)
    ensures SeparableCodes(u.findings) ==>
              (ExitCode(FactsAt(u, views, incomplete, subjects, rep)) == EXIT_NON_COMPLIANT <==>
               exists f :: f in Kept(u.findings, u.profile) && IsGrave(f)
                           && (Withdrawn(u, views, f.code) || !Waived(u, f.code, f.subject)))
  {
    var final, kept := Final(u, views, incomplete, subjects), Kept(u.findings, u.profile);
    CompliantExactly(Open(kept, final));
    forall f | f in kept ensures f in Open(kept, final) <==> !Hidden(u, views, f) {
      OpenUnlessHidden(u, views, incomplete, subjects, f, kept, final);
    }
    forall f | f in kept && SeparableCodes(u.findings)
      ensures !Hidden(u, views, f) <==> Withdrawn(u, views, f.code) || !Waived(u, f.code, f.subject)
    {
      HiddenByItself(u, views, f);
    }
  }

  lemma NoFailureOn(u: Setup, views: seq<View>, incomplete: map<string, Unit>, subjects: set<string>, code: string,
                    final: seq<Verdict>)
    requires final == Final(u, views, incomplete, subjects) && Withdrawn(u, views, code)
    ensures forall v :: v in final && v.control == code ==> v.status != Fail && v.status != Exempted
  {
    forall i: nat | i < |final| && final[i].control == code
      ensures final[i].status != Fail && final[i].status != Exempted {
      if final[i].status == Fail || final[i].status == Exempted {
        DecidedLine(u, views, incomplete, subjects, i, final);
        assert false;
      }
    }
  }

  /** A deviation the assessment withdrew still weighs in the gate: no verdict of the control
      is a failure, and the exit code is 1 all the same, unless another finding of the same key
      is exempted; which takes another code, and one that cannot be told apart from it. */
  lemma WithdrawnStillWeighs(u: Setup, views: seq<View>, incomplete: map<string, Unit>, subjects: set<string>,
                             rep: Report, f: Finding)
    requires f in Kept(u.findings, u.profile) && IsGrave(f) && Withdrawn(u, views, f.code)
    ensures forall v :: v in Final(u, views, incomplete, subjects) && v.control == f.code ==> v.status != Fail
    ensures ExitCode(FactsAt(u, views, incomplete, subjects, rep)) == EXIT_NON_COMPLIANT || Hidden(u, views, f)
    ensures Hidden(u, views, f) ==>
              exists g :: g in u.findings && IsExempted(u, views, g) && !Separable(g.code, f.code)
  {
    NoFailureOn(u, views, incomplete, subjects, f.code, Final(u, views, incomplete, subjects));
    ExitOneExactly(u, views, incomplete, subjects, rep);
    if g :| g in u.findings && IsExempted(u, views, g) && PairKey(g.code, g.subject) == PairKey(f.code, f.subject) {
      KeysSeparate(g.code, f.code);
    }
  }

  // ----- Exit 1 without a failed verdict -----

  /** One control, one deviation of high severity on it, and a correlation that rests on an
      attribute no resource exposes. */
  function BrokenSetup(): Setup {
    Setup(Tables(map[], map[], map["c" := map["t" := ["a"]]], {}, map[]), "p",
          map["c" := Control("high", ["p"], [], "")],
          [Finding("c", "s", "high", "m", "", map[])], map[], {}, "p", [], map[], [], 0, map[],
          Profile(f => true, s => true), false)
  }

  function BrokenViews(): seq<View> {
    [View("t", "id", "", "", map[], {}, map[])]
  }

  lemma BrokenIsWithdrawn()
    ensures Withdrawn(BrokenSetup(), BrokenViews(), "c")
  {
    var s := ScanOf(BrokenSetup(), BrokenViews());
    var v := BrokenViews()[0];
    assert v in BrokenViews() && v.typ == "t";
    assert "t" in s.types;
    assert !Counts(BrokenViews(), "t", "a");
    assert !Has(s, "t", "a");
    assert "t" in BrokenTypes(s, "c");
  }

  lemma NothingFails(u: Setup, views: seq<View>, incomplete: map<string, Unit>, subjects: set<string>,
                     final: seq<Verdict>)
    requires final == Final(u, views, incomplete, subjects)
    requires forall g :: g in u.findings ==> Withdrawn(u, views, g.code)
    ensures forall v :: v in final ==> v.status != Fail
  {
    forall i: nat | i < |final| ensures final[i].status != Fail {
      if final[i].status == Fail {
        DecidedLine(u, views, incomplete, subjects, i, final);
        assert false;
      }
    }
  }

  /** A scan whose findings were all withdrawn shows no failure, and exits 1 all the same when
      one of those it retains is grave. */
  lemma AllWithdrawnExitsOne(u: Setup, views: seq<View>, incomplete: map<string, Unit>, subjects: set<string>,
                             rep: Report)
    requires forall g :: g in u.findings ==> Withdrawn(u, views, g.code)
    requires !NoGrave(Kept(u.findings, u.profile))
    ensures forall v :: v in Final(u, views, incomplete, subjects) ==> v.status != Fail
    ensures ExitCode(FactsAt(u, views, incomplete, subjects, rep)) == EXIT_NON_COMPLIANT
  {
    NothingFails(u, views, incomplete, subjects, Final(u, views, incomplete, subjects));
    ExitOneExactly(u, views, incomplete, subjects, rep);
  }

  lemma WeighsAlone(u: Setup)
    requires u == BrokenSetup()
    ensures !NoGrave(Kept(u.findings, u.profile))
    ensures forall g :: g in u.findings ==> g.code == "c"
  {
    var f := u.findings[0];
    assert f in u.findings && f in Deviations(u.findings);
    assert f in Kept(u.findings, u.profile);
  }

  /** A scan that exits 1 while none of its verdicts is a failure. */
  lemma ExitOneWithoutFailure(incomplete: map<string, Unit>, subjects: set<string>, rep: Report)
    ensures ExitCode(FactsAt(BrokenSetup(), BrokenViews(), incomplete, subjects, rep)) == EXIT_NON_COMPLIANT
    ensures forall v :: v in Final(BrokenSetup(), BrokenViews(), incomplete, subjects) ==> v.status != Fail
  {
    BrokenIsWithdrawn();
    WeighsAlone(BrokenSetup());
    AllWithdrawnExitsOne(BrokenSetup(), BrokenViews(), incomplete, subjects, rep);
  }

  // ----- Exit 0 beside a failed verdict -----

  /** A conclusive finding that ends as a failed verdict. */
  ghost predicate Stands(u: Setup, views: seq<View>, f: Finding) {
    !Inconclusive(f) && !Withdrawn(u, views, f.code) && !Waived(u, f.code, f.subject)
  }

  /** The gate does not see how grave the verdict of a finding is: the finding carries no
      severity, and the one of its control is grave. */
  predicate EscapesTheGate(u: Setup, f: Finding) {
    f.severity == "" && IsGraveText(GetOr(u.controls, f.code, NO_CONTROL).severity)
  }

  /** Grave findings are retained or severe: one of the two shows them. */
  lemma GraveIsWeighed(fs: seq<Finding>, p: Profile, f: Finding)
    requires f in fs && !Inconclusive(f) && IsGrave(f)
    ensures !NoGrave(Kept(fs, p)) || SevereAside(fs, p)
  {
    assert f in Deviations(fs);
    assert f in Kept(fs, p) || f in SetAside(fs, p);
  }

  ghost predicate ShowsGraveFailure(vs: seq<Verdict>) {
    exists v :: v in vs && v.status == Fail && IsGraveText(v.severity)
  }

  ghost predicate SomeEscape(u: Setup, views: seq<View>) {
    exists f :: f in u.findings && Stands(u, views, f) && EscapesTheGate(u, f)
  }

  /** A scan that exits 0 shows a failed verdict of critical or high severity exactly when
      some finding that stands carries no severity, on a control of such a severity. */
  lemma ExitZeroFailures(u: Setup, views: seq<View>, incomplete: map<string, Unit>, subjects: set<string>, rep: Report)
    requires ReportFits(u, views, incomplete, subjects, rep)
    requires ExitCode(FactsAt(u, views, incomplete, subjects, rep)) == EXIT_COMPLIANT
    ensures ShowsGraveFailure(Final(u, views, incomplete, subjects)) <==> SomeEscape(u, views)
  {
    ExitZeroExactly(u, views, incomplete, subjects, rep);
    FailuresThatEscape(u, views, incomplete, subjects, Final(u, views, incomplete, subjects));
  }

  lemma FailuresThatEscape(u: Setup, views: seq<View>, incomplete: map<string, Unit>, subjects: set<string>,
                           final: seq<Verdict>)
    requires final == Final(u, views, incomplete, subjects)
    requires NoGrave(Kept(u.findings, u.profile)) && !SevereAside(u.findings, u.profile)
    ensures ShowsGraveFailure(final) <==> SomeEscape(u, views)
  {
    if ShowsGraveFailure(final) {
      ShownEscapes(u, views, incomplete, subjects, final);
    }
    if SomeEscape(u, views) {
      EscapeIsShown(u, views, incomplete, subjects, final);
    }
  }

  lemma ShownEscapes(u: Setup, views: seq<View>, incomplete: map<string, Unit>, subjects: set<string>,
                     final: seq<Verdict>)
    requires final == Final(u, views, incomplete, subjects) && ShowsGraveFailure(final)
    requires NoGrave(Kept(u.findings, u.profile)) && !SevereAside(u.findings, u.profile)
    ensures SomeEscape(u, views)
  {
    var v :| v in final && v.status == Fail && IsGraveText(v.severity);
    var i: nat :| i < |final| && final[i] == v;
    GraveLine(u, views, incomplete, subjects, i, final);
  }

  lemma EscapeIsShown(u: Setup, views: seq<View>, incomplete: map<string, Unit>, subjects: set<string>,
                      final: seq<Verdict>)
    requires final == Final(u, views, incomplete, subjects) && SomeEscape(u, views)
    ensures ShowsGraveFailure(final)
  {
    var f :| f in u.findings && Stands(u, views, f) && EscapesTheGate(u, f);
    var i: nat :| i < |u.findings| && u.findings[i] == f;
    EscapedLine(u, views, incomplete, subjects, i, final);
  }

  lemma BuiltSeverity(u: Setup, views: seq<View>, i: nat)
    requires i < |u.findings|
    ensures i < |Built(ScanOf(u, views))|
    ensures Built(ScanOf(u, views))[i].severity ==
              FirstOf(u.findings[i].severity, GetOr(u.controls, u.findings[i].code, NO_CONTROL).severity)
  {
    assert Built(ScanOf(u, views))[i] == FindingVerdicts(ScanOf(u, views))[i];
  }

  lemma GraveLine(u: Setup, views: seq<View>, incomplete: map<string, Unit>, subjects: set<string>, i: nat,
                  final: seq<Verdict>)
    requires final == Final(u, views, incomplete, subjects) && i < |final|
    requires final[i].status == Fail && IsGraveText(final[i].severity)
    requires NoGrave(Kept(u.findings, u.profile)) && !SevereAside(u.findings, u.profile)
    ensures i < |u.findings| && u.findings[i] in u.findings
    ensures Stands(u, views, u.findings[i]) && EscapesTheGate(u, u.findings[i])
  {
    DecidedLine(u, views, incomplete, subjects, i, final);
    BuiltSeverity(u, views, i);
    if u.findings[i].severity != "" {
      GraveIsWeighed(u.findings, u.profile, u.findings[i]);
    }
  }

  lemma EscapedLine(u: Setup, views: seq<View>, incomplete: map<string, Unit>, subjects: set<string>, i: nat,
                    final: seq<Verdict>)
    requires final == Final(u, views, incomplete, subjects) && i < |u.findings|
    requires Stands(u, views, u.findings[i]) && EscapesTheGate(u, u.findings[i])
    ensures i < |final| && final[i] in final && final[i].status == Fail && IsGraveText(final[i].severity)
  {
    StandingLine(u, views, incomplete, subjects, i, final);
    BuiltSeverity(u, views, i);
  }

  // ----- Such a scan -----

  /** One control of high severity, and one deviation on it that carries no severity. */
  function MuteSetup(): Setup {
    Setup(Tables(map[], map[], map[], {}, map[]), "p", map["c" := Control("high", ["p"], [], "")],
          [Finding("c", "s", "", "m", "", map[])], map[], {}, "p", [], map[], [], 0, map[],
          Profile(f => true, s => true), true)
  }

  lemma MuteEscapes(u: Setup, views: seq<View>)
    requires u == MuteSetup()
    ensures |u.findings| == 1 && Stands(u, views, u.findings[0]) && EscapesTheGate(u, u.findings[0])
  {
    var s := ScanOf(u, views);
    assert BrokenTypes(s, "c") == {};
  }

  lemma MuteWeighsNothing(u: Setup)
    requires u == MuteSetup()
    ensures NoGrave(Kept(u.findings, u.profile)) && NoMinor(Kept(u.findings, u.profile))
    ensures !SevereAside(u.findings, u.profile)
  {
    assert forall f :: f in u.findings ==> f == u.findings[0];
  }

  /** Without a policy nothing is exempted. */
  lemma NothingExempted(u: Setup, views: seq<View>, incomplete: map<string, Unit>, subjects: set<string>,
                        final: seq<Verdict>)
    requires u.policy == [] && final == Final(u, views, incomplete, subjects)
    ensures !ExemptsSome(final)
  {
    if v :| v in final && v.status == Exempted {
      var i: nat :| i < |final| && final[i] == v;
      DecidedLine(u, views, incomplete, subjects, i, final);
    }
  }

  lemma EmptyReport(u: Setup, views: seq<View>, subjects: set<string>, rep: Report)
    requires u.policy == [] && ReportFits(u, views, map[], subjects, rep)
    ensures !IsStale(rep)
  {
    assert |multiset(rep.records)| == 0;
  }

  lemma NothingDegraded(u: Setup)
    ensures DegradedBy(u, map[]) == map[]
  {
    forall code | code in DegradedBy(u, map[]) ensures false {
      NothingUnread(TypesRead(u.tables, code, u.tagged));
    }
  }

  lemma {:induction false} NothingUnread(types: seq<string>)
    ensures FirstUnread(types, map[]).None?
  {
    if types != [] {
      NothingUnread(types[1..]);
    }
  }

  /** A scan of a fully read inventory that exits 0, in strict mode, with a failed verdict of
      high severity. */
  lemma ExitZeroBesideFailure(views: seq<View>, subjects: set<string>, rep: Report)
    requires ReportFits(MuteSetup(), views, map[], subjects, rep)
    ensures ExitCode(FactsAt(MuteSetup(), views, map[], subjects, rep)) == EXIT_COMPLIANT
    ensures ShowsGraveFailure(Final(MuteSetup(), views, map[], subjects))
  {
    var u := MuteSetup();
    var final := Final(u, views, map[], subjects);
    MuteEscapes(u, views);
    MuteWeighsNothing(u);
    NothingExempted(u, views, map[], subjects, final);
    EscapedLine(u, views, map[], subjects, 0, final);
    ExitZeroExactly(u, views, map[], subjects, rep);
    EmptyReport(u, views, subjects, rep);
    NothingDegraded(u);
    assert Measured(final[0]);
  }

  /** Whatever the codes: exit 1 exactly when the key of a retained critical or high deviation
      is that of no exempted verdict. */
  lemma ExitOneByKey(u: Setup, views: seq<View>, incomplete: map<string, Unit>, subjects: set<string>, rep: Report)
    ensures ExitCode(FactsAt(u, views, incomplete, subjects, rep)) == EXIT_NON_COMPLIANT <==>
              exists f :: f in Kept(u.findings, u.profile) && IsGrave(f)
                          && PairKey(f.code, f.subject) !in ExemptedKeys(Final(u, views, incomplete, subjects))
  {
    CompliantExactly(Open(Kept(u.findings, u.profile), Final(u, views, incomplete, subjects)));
  }

  // ----- Failures only remove certainty -----

  /** More types are unread. */
  ghost predicate MoreUnread(a: map<string, Unit>, b: map<string, Unit>) {
    forall t :: t in a ==> t in b
  }

  lemma MoreDegraded(u: Setup, a: map<string, Unit>, b: map<string, Unit>)
    requires MoreUnread(a, b)
    ensures forall c :: c in DegradedBy(u, a) ==> c in DegradedBy(u, b)
  {
  }

  /** Line by line, a pass may become not evaluated and nothing else moves. */
  ghost predicate OnlyLosesPasses(before: seq<Verdict>, after: seq<Verdict>) {
    && |before| == |after|
    && forall i :: 0 <= i < |before| ==>
         && after[i].control == before[i].control && after[i].subject == before[i].subject
         && (after[i].status == before[i].status || (before[i].status == Pass && after[i].status == NotEvaluated))
  }

  lemma StatusesOnlyLosePasses(u: Setup, views: seq<View>, a: map<string, Unit>, b: map<string, Unit>,
                               subjects: set<string>)
    requires MoreUnread(a, b)
    ensures OnlyLosesPasses(AfterCollection(u, views, a), AfterCollection(u, views, b))
    ensures OnlyLosesPasses(Final(u, views, a, subjects), Final(u, views, b, subjects))
  {
    MoreDegraded(u, a, b);
    SameLength(u, views, a, subjects);
    SameLength(u, views, b, subjects);
    var fa, fb := Final(u, views, a, subjects), Final(u, views, b, subjects);
    forall i: nat | i < |fa|
      ensures fb[i].control == fa[i].control && fb[i].subject == fa[i].subject
      ensures fb[i].status == fa[i].status || (fa[i].status == Pass && fb[i].status == NotEvaluated)
    {
      StatusAt(u, views, a, subjects, i);
      StatusAt(u, views, b, subjects, i);
    }
    var ca, cb := AfterCollection(u, views, a), AfterCollection(u, views, b);
    forall i: nat | i < |ca|
      ensures cb[i].control == ca[i].control && cb[i].subject == ca[i].subject
      ensures cb[i].status == ca[i].status || (ca[i].status == Pass && cb[i].status == NotEvaluated)
    {
      CollectionMove(u, views, a, i);
      CollectionMove(u, views, b, i);
    }
  }

  lemma {:induction false} FewerMeasured(before: seq<Verdict>, after: seq<Verdict>)
    requires OnlyLosesPasses(before, after)
    ensures CountMeasured(after) <= CountMeasured(before)
  {
    if before != [] {
      var last := |before| - 1;
      FewerMeasured(before[..last], after[..last]);
      assert after[last].control == before[last].control;
    }
  }

  lemma SameExemptedKeys(before: seq<Verdict>, after: seq<Verdict>)
    requires OnlyLosesPasses(before, after)
    ensures ExemptedKeys(before) == ExemptedKeys(after)
    ensures ExemptsSome(before) <==> ExemptsSome(after)
  {
  }

  lemma SameKnown(c: Context, before: seq<Verdict>, after: seq<Verdict>)
    requires OnlyLosesPasses(before, after)
    ensures Known(c, before) == Known(c, after)
  {
  }

  lemma {:induction false} SameNotices(pol: seq<Exemption>, c: Context, before: seq<Verdict>, after: seq<Verdict>,
                                       n: nat, f: Fate)
    requires n <= |pol| && Known(c, before) == Known(c, after) && (f == IsOrphan || f == HasExpired)
    ensures CountFate(pol, c, before, n, f) == CountFate(pol, c, after, n, f)
  {
    if n > 0 {
      SameNotices(pol, c, before, after, n - 1, f);
      assert FateOf(pol, c, before, n - 1) == f <==> FateOf(pol, c, after, n - 1) == f;
    }
  }

  lemma SameStale(pol: seq<Exemption>, c: Context, before: seq<Verdict>, after: seq<Verdict>, ra: Report, rb: Report)
    requires OnlyLosesPasses(before, after) && IsReport(pol, c, before, ra) && IsReport(pol, c, after, rb)
    ensures IsStale(ra) <==> IsStale(rb)
  {
    SameKnown(c, before, after);
    ReportCounts(pol, c, before, ra, Expired);
    ReportCounts(pol, c, before, ra, Orphan);
    ReportCounts(pol, c, after, rb, Expired);
    ReportCounts(pol, c, after, rb, Orphan);
    SameNotices(pol, c, before, after, |pol|, IsOrphan);
    SameNotices(pol, c, before, after, |pol|, HasExpired);
  }

  /** The facts that matter once more types are unread. */
  ghost predicate LessCertain(a: Facts, b: Facts) {
    && a.res == b.res && a.gate == b.gate && a.asideSevere == b.asideSevere && a.strict == b.strict
    && a.applied == b.applied && a.stale == b.stale && a.relaxed == b.relaxed
    && b.measured <= a.measured && (a.degraded > 0 ==> b.degraded > 0)
  }

  lemma FactsOfLessCertain(fs: seq<Finding>, p: Profile, va: seq<Verdict>, vb: seq<Verdict>, ra: Report, rb: Report,
                           da: map<string, Unit>, db: map<string, Unit>, relaxed: nat, strict: bool)
    requires OnlyLosesPasses(va, vb)
    requires HasApplied(ra) <==> ExemptsSome(va)
    requires HasApplied(rb) <==> ExemptsSome(vb)
    requires IsStale(ra) <==> IsStale(rb)
    requires da.Keys <= db.Keys
    ensures LessCertain(FactsOf(fs, p, va, ra, |da|, relaxed, strict), FactsOf(fs, p, vb, rb, |db|, relaxed, strict))
  {
    FewerMeasured(va, vb);
    SameExemptedKeys(va, vb);
    MapSize(da);
    MapSize(db);
    if da != map[] {
      var c :| c in da;
      assert c in db;
    }
  }

  lemma FactsLessCertain(u: Setup, views: seq<View>, a: map<string, Unit>, b: map<string, Unit>, subjects: set<string>,
                         ra: Report, rb: Report)
    requires MoreUnread(a, b)
    requires ReportFits(u, views, a, subjects, ra) && ReportFits(u, views, b, subjects, rb)
    ensures LessCertain(FactsAt(u, views, a, subjects, ra), FactsAt(u, views, b, subjects, rb))
  {
    var fa, fb := Final(u, views, a, subjects), Final(u, views, b, subjects);
    StatusesOnlyLosePasses(u, views, a, b, subjects);
    AppliedIffExempted(u, views, a, subjects, ra);
    AppliedIffExempted(u, views, b, subjects, rb);
    SameStale(u.policy, ContextOf(u, subjects), AfterCollection(u, views, a), AfterCollection(u, views, b), ra, rb);
    MoreDegraded(u, a, b);
    FactsOfLessCertain(u.findings, u.profile, fa, fb, ra, rb, DegradedBy(u, a), DegradedBy(u, b), |u.relax|, u.strict);
  }

  lemma LessCertainCode(a: Facts, b: Facts)
    requires LessCertain(a, b)
    ensures ExitCode(b) == ExitCode(a)
            || (ExitCode(b) == EXIT_STRICT && (ExitCode(a) == EXIT_COMPLIANT || ExitCode(a) == EXIT_EXEMPTION))
  {
  }

  /** Recording further states of collection, whatever they are, can only turn passes into
      not-evaluated: every other line keeps its status, a non-zero exit stays non-zero, and
      exit 1 stays exit 1. */
  lemma FailuresOnlyRemoveCertainty(u: Setup, views: seq<View>, subjects: set<string>, log: seq<Unit>, more: seq<Unit>,
                                    before: seq<Unit>, after: seq<Unit>, ra: Report, rb: Report)
    requires IsMerge(log, before) && IsMerge(log + more, after)
    requires ReportFits(u, views, IncompleteMap(before), subjects, ra)
    requires ReportFits(u, views, IncompleteMap(after), subjects, rb)
    ensures OnlyLosesPasses(Final(u, views, IncompleteMap(before), subjects),
                            Final(u, views, IncompleteMap(after), subjects))
    ensures var a := ExitCode(FactsAt(u, views, IncompleteMap(before), subjects, ra));
            var b := ExitCode(FactsAt(u, views, IncompleteMap(after), subjects, rb));
            b == a || (b == EXIT_STRICT && (a == EXIT_COMPLIANT || a == EXIT_EXEMPTION))
  {
    HistoryGrows(log, more, before, after);
    StatusesOnlyLosePasses(u, views, IncompleteMap(before), IncompleteMap(after), subjects);
    FactsLessCertain(u, views, IncompleteMap(before), IncompleteMap(after), subjects, ra, rb);
    LessCertainCode(FactsAt(u, views, IncompleteMap(before), subjects, ra),
                    FactsAt(u, views, IncompleteMap(after), subjects, rb));
  }

  lemma HistoryGrows(log: seq<Unit>, more: seq<Unit>, before: seq<Unit>, after: seq<Unit>)
    requires IsMerge(log, before) && IsMerge(log + more, after)
    ensures MoreUnread(IncompleteMap(before), IncompleteMap(after))
  {
    forall t | t in IncompleteMap(before) ensures t in IncompleteMap(after) {
      IncompleteExactly(log, before, t);
      UnreadGrows(log, more, t);
      IncompleteExactly(log + more, after, t);
    }
  }
}
