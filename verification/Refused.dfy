/** Faithful dossiers that the verification refuses, one for each condition it adds. */
module Refused {
  import opened Wrappers
  import opened Order
  import opened CollectionState
  import opened Inventory
  import opened Assess
  import opened Exempt
  import opened Sealing
  import opened Pipeline
  import opened Rederive
  import opened PolicyEffect
  import opened Gate
  import opened Certainty
  import opened Bundle
  import opened Dossier

  /** One deviation that stands, and no policy. */
  function PlainSetup(): Setup {
    Setup(Tables(map[], map[], map[], {}, map[]), "p", map["c" := Control("high", ["p"], [], "")],
          [Finding("c", "s", "high", "m", "", map[])], map[], {}, "p", [], map[], [], 0, map[],
          Profile(f => true, s => true), false)
  }

  /** Nothing is written on any control. */
  function NoReasons(): Lang -> map<string, string> {
    (l: Lang) => map[]
  }

  /** The papers of a tenant whose rules find the same whatever they read. */
  function PapersOf(p: Papers, u: Setup): Papers {
    p.(rules := (i: Input) => u.findings, instant := (t: string) => Some(0), knows := (run: string) => true)
  }

  function InputAt(evaluatedAt: string): Input {
    Input([], [], Config([], map[]), evaluatedAt)
  }

  const NO_REPORT := Report([], [])

  function NoExtras(): Extras {
    Extras(None, "", None, "")
  }

  /** What a scan of an empty inventory concludes. */
  ghost function Scanned(u: Setup, run: string, l: Lang, target: string): Assessment {
    Assessment(run, l, Replayed(u, NoReasons(), l, Typed([]), [], target))
  }

  /** A setup without policy, configuration nor instant of its own. */
  predicate Bare(u: Setup) {
    u.policy == [] && u.tagged == [] && u.relax == map[] && u.now == 0
  }

  lemma BareScan(p: Papers, u: Setup, run: string, l: Lang, target: string, evaluatedAt: string, a: Assessment)
    requires Bare(u) && a == Scanned(u, run, l, target)
    ensures ScanOfInput(PapersOf(p, u), u, NoReasons(), Typed([]), target, a, InputAt(evaluatedAt), NO_REPORT)
    ensures NoExtras() == ExtrasFor(PapersOf(p, u), NO_REPORT, "", None, "")
  {
    assert ItemsOf(Typed([])) == [];
  }

  /** Sealed where nothing was, by a scan in the language of the verifier, such a dossier is
      recognized exactly when its rendering follows and its instants agree. */
  lemma BareDossier(c: Codec, p: Papers, u: Setup, run: string, l: Lang, target: string, evaluatedAt: string,
                    render: (Lang, seq<Verdict>) -> string, read: string -> seq<Line>, clock: int)
    requires Bare(u) && Lawful(c) && Faithfully(p, InputAt(evaluatedAt), NO_REPORT) && Readable(render, read)
    ensures var a := Scanned(u, run, l, target);
            var files := SealedDossier(c, PapersOf(p, u), map[], a, InputAt(evaluatedAt), NoExtras());
            && Accepts(c, files)
            && (Rederives(c, PapersOf(p, u), files, u, NoReasons(), render, target, clock, l) <==>
                SameOscal(c, p, Sorted(a), a) && Coherent(p, run, InputAt(evaluatedAt)))
  {
    var a, input := Scanned(u, run, l, target), InputAt(evaluatedAt);
    BareScan(p, u, run, l, target, evaluatedAt, a);
    OscalInItsLanguage(c, PapersOf(p, u), u, NoReasons(), render, Typed([]), [], target, a);
    HonestDossier(c, PapersOf(p, u), map[], a, input, NO_REPORT, NoExtras(), u, NoReasons(), render, read, Typed([]),
                  target, target, clock, l);
  }

  // ----- A stale exemptions document -----

  function OldExemption(): Exemption {
    Exemption("c", "", "j", Date("", Instant(0)), "owner", "approver")
  }

  const OLD_REPORT := Report([OldExemption()], [])

  lemma PlainIsUnwithdrawn(u: Setup, views: seq<View>, l: Lang)
    requires u == SetupIn(PlainSetup(), NoReasons(), l)
    ensures |u.findings| == 1 && u.findings[0].code == "c" && u.findings[0].subject == "s"
            && !Inconclusive(u.findings[0])
    ensures !Withdrawn(u, views, "c") && !Waived(u, "c", "s")
  {
    assert u.findings[0] == Localized(l, PlainSetup().findings[0]);
    assert BrokenTypes(ScanOf(u, views), "c") == {};
  }

  lemma OldExemptionCovers()
    ensures InForce([OldExemption()], PlainSetup().now, PlainSetup().controls.Keys, "c", "s")
  {
    assert OldExemption() in [OldExemption()];
  }

  lemma DeviationStands(u: Setup, l: Lang, views: seq<View>, incomplete: map<string, Unit>, subjects: set<string>,
                        final: seq<Verdict>)
    requires u == SetupIn(PlainSetup(), NoReasons(), l) && final == Final(u, views, incomplete, subjects)
    ensures !CoversNone([OldExemption()], PlainSetup(), final)
  {
    PlainIsUnwithdrawn(u, views, l);
    StandingLine(u, views, incomplete, subjects, 0, final);
    OldExemptionCovers();
    assert final[0] in final && final[0].control == "c" && final[0].subject == "s";
  }

  function StaleDirectory(p: Papers): map<string, string> {
    map[EXEMPTIONS := p.writeReport(OLD_REPORT)]
  }

  lemma StaleThere(p: Papers, results: seq<Verdict>)
    requires p.readReport(p.writeReport(OLD_REPORT)) == Some(OLD_REPORT)
    requires !CoversNone([OldExemption()], PlainSetup(), results)
    ensures !NothingStale(PapersOf(p, PlainSetup()), StaleDirectory(p), PlainSetup(), results)
  {
    assert PolicyIn(PapersOf(p, PlainSetup()), StaleDirectory(p)) == Some([OldExemption()]);
  }

  lemma PlainStands(run: string, l: Lang, target: string)
    ensures !CoversNone([OldExemption()], PlainSetup(), Scanned(PlainSetup(), run, l, target).results)
  {
    var views := ViewsOf(Typed([]));
    DeviationStands(SetupIn(PlainSetup(), NoReasons(), l), l, views, IncompleteMap([]), SubjectsOf(views, target),
                    Scanned(PlainSetup(), run, l, target).results);
  }

  /** A scan without policy, sealed where an earlier one had sealed an exemption for the very
      deviation it reports: the bundle is accepted, and its replay called a forgery. */
  lemma StaleExemptionsRefuse(c: Codec, p: Papers, render: (Lang, seq<Verdict>) -> string, read: string -> seq<Line>,
                              run: string, l: Lang, target: string, clock: int, current: Lang)
    requires Lawful(c) && Faithfully(p, InputAt(""), NO_REPORT) && Readable(render, read)
    requires p.readReport(p.writeReport(OLD_REPORT)) == Some(OLD_REPORT)
    ensures var files := SealedDossier(c, PapersOf(p, PlainSetup()), StaleDirectory(p),
                                       Scanned(PlainSetup(), run, l, target), InputAt(""), NoExtras());
            Accepts(c, files)
            && !Rederives(c, PapersOf(p, PlainSetup()), files, PlainSetup(), NoReasons(), render, target, clock,
                          current)
  {
    var u, a := PlainSetup(), Scanned(PlainSetup(), run, l, target);
    BareScan(p, u, run, l, target, "", a);
    PlainStands(run, l, target);
    StaleThere(p, a.results);
    HonestDossier(c, PapersOf(p, u), StaleDirectory(p), a, InputAt(""), NO_REPORT, NoExtras(), u, NoReasons(), render,
                  read, Typed([]), target, target, clock, current);
  }

  // ----- An input that carries another instant -----

  /** The scan of an input that was sealed before keeps the instant it carries and names its own
      in the run: the bundle is accepted, and its replay refused as antedated. */
  lemma RescanIsRefused(c: Codec, p: Papers, render: (Lang, seq<Verdict>) -> string, read: string -> seq<Line>,
                        run: string, l: Lang, target: string, clock: int, carried: string)
    requires carried != "" && p.timestamp(run) != "" && carried != p.timestamp(run)
    requires Lawful(c) && Faithfully(p, InputAt(Stamped(Some(carried), p.timestamp(run))), NO_REPORT)
    requires Readable(render, read)
    ensures var files := SealedDossier(c, PapersOf(p, PlainSetup()), map[], Scanned(PlainSetup(), run, l, target),
                                       InputAt(Stamped(Some(carried), p.timestamp(run))), NoExtras());
            Accepts(c, files)
            && !Rederives(c, PapersOf(p, PlainSetup()), files, PlainSetup(), NoReasons(), render, target, clock, l)
  {
    BareDossier(c, p, PlainSetup(), run, l, target, carried, render, read, clock);
  }

  // ----- A rendering that shows the order -----

  /** Beside that deviation, a control without any that comes before it in the catalogue. */
  function MixedSetup(): Setup {
    PlainSetup().(controls := PlainSetup().controls["a" := Control("high", ["p"], [], "")])
  }

  lemma MixedIsLate(u: Setup, views: seq<View>, incomplete: map<string, Unit>, subjects: set<string>, l: Lang)
    requires u == SetupIn(MixedSetup(), NoReasons(), l)
    ensures !SortedBy(SealOrder, Final(u, views, incomplete, subjects))
  {
    assert u.findings[0] == Localized(l, PlainSetup().findings[0]);
    assert forall f :: f in u.findings ==> f == u.findings[0] && f.code == "c";
    assert "a" in Quiet(ScanOf(u, views));
    LateFinding(u, views, incomplete, subjects, u.findings[0], "a");
  }

  /** When the rendering lists the verdicts in their order, an honest dossier of that scan is
      accepted, and its replay refused for the rendering alone. */
  lemma LateFindingIsRefused(c: Codec, p: Papers, render: (Lang, seq<Verdict>) -> string, read: string -> seq<Line>,
                             run: string, l: Lang, target: string, clock: int)
    requires Lawful(c) && Faithfully(p, InputAt(""), NO_REPORT) && Readable(render, read)
    requires ShowsOrder(c, p)
    ensures var files := SealedDossier(c, PapersOf(p, MixedSetup()), map[], Scanned(MixedSetup(), run, l, target),
                                       InputAt(""), NoExtras());
            Accepts(c, files)
            && !Rederives(c, PapersOf(p, MixedSetup()), files, MixedSetup(), NoReasons(), render, target, clock, l)
  {
    var views := ViewsOf(Typed([]));
    MixedIsLate(SetupIn(MixedSetup(), NoReasons(), l), views, IncompleteMap([]), SubjectsOf(views, target), l);
    OscalFollowsExactly(c, p, Scanned(MixedSetup(), run, l, target));
    BareDossier(c, p, MixedSetup(), run, l, target, "", render, read, clock);
  }
}
