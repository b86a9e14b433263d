/** A sealed dossier from one end to the other: the scan, the bundle it writes, and the
    verification that replays it (cmd/scan.go, internal/assess/bundle.go, cmd/verify.go). */
module Dossier {
  import opened Wrappers
  import opened Json
  import opened CollectionState
  import opened Inventory
  import opened Order
  import opened Assess
  import opened Exempt
  import opened Sealing
  import opened Pipeline
  import opened Rederive
  import opened Language
  import opened Passes
  import opened PolicyEffect
  import opened Bundle
  import opened Pinning

  // ----- What verify reads -----

  datatype Config = Config(tagged: seq<string>, relax: map<string, seq<string>>)

  /** The evaluated input: the inventory, the state of its collection, the configuration, and
      the instant it carries, empty when it carries none. */
  datatype Input = Input(items: seq<Json>, units: seq<Unit>, config: Config, evaluatedAt: string)

  /** The formats of the other documents; the instant a run names, and what it reads as; whether
      the provider of a run is known; the normal form of a rendering; and the rules. */
  datatype Papers = Papers(
    writeInput: Input -> string,
    readInput: string -> Option<Input>,
    writeReport: Report -> string,
    readReport: string -> Option<Report>,
    timestamp: string -> string,
    instant: string -> Option<int>,
    knows: string -> bool,
    normal: string -> Option<string>,
    rules: Input -> seq<Finding>)

  /** These documents are read back as they were written. */
  ghost predicate Faithfully(p: Papers, input: Input, rep: Report) {
    p.readInput(p.writeInput(input)) == Some(input) && p.readReport(p.writeReport(rep)) == Some(rep)
  }

  /** The policy of a directory: that of its exemptions document, none without one. */
  function PolicyIn(p: Papers, files: map<string, string>): Option<seq<Exemption>> {
    if EXEMPTIONS !in files then Some([])
    else
      match p.readReport(files[EXEMPTIONS])
      case Some(rep) => Some(rep.exemptions)
      case None => None
  }

  method SealedExemptions(p: Papers, dir: Directory) returns (r: Option<seq<Exemption>>)
    ensures r == PolicyIn(p, dir.files)
  {
    if EXEMPTIONS !in dir.files {
      return Some([]);
    }
    var rep := p.readReport(dir.files[EXEMPTIONS]);
    if rep.None? {
      return None;
    }
    return Some(rep.value.exemptions);
  }

  /** What the verifier replays: its own tables, and the findings, policy, configuration and
      instant the directory gives. */
  function ReplaySetup(u: Setup, p: Papers, a: Assessment, input: Input, policy: seq<Exemption>, clock: int): Setup {
    var now := p.instant(p.timestamp(a.run));
    u.(findings := p.rules(input), policy := policy, tagged := input.config.tagged, relax := input.config.relax,
       now := if now.Some? then now.value else clock)
  }

  /** Only the findings, the policy, the tagged types, the relaxations and the instant come from the
      directory; the instant is that of the verifier when the run names none that can be read. */
  lemma ReplayTakes(u: Setup, p: Papers, a: Assessment, input: Input, policy: seq<Exemption>, clock: int)
    ensures var v := ReplaySetup(u, p, a, input, policy, clock);
            && v.findings == p.rules(input) && v.policy == policy
            && v.tagged == input.config.tagged && v.relax == input.config.relax
            && (forall t :: p.instant(p.timestamp(a.run)) == Some(t) ==> v.now == t)
            && (p.instant(p.timestamp(a.run)) == None ==> v.now == clock)
            && v == u.(findings := v.findings, policy := v.policy, tagged := v.tagged, relax := v.relax, now := v.now)
  {
    var t := p.instant(p.timestamp(a.run));
    if t.Some? {
      assert t == Some(t.value);
    }
  }

  /** Two assessments are rendered alike, and legibly. */
  predicate SameOscal(c: Codec, p: Papers, a: Assessment, b: Assessment) {
    p.normal(c.oscal(a)).Some? && p.normal(c.oscal(a)) == p.normal(c.oscal(b))
  }

  /** The rendering of the directory, if it holds one, is that of this assessment. */
  predicate OscalAgrees(c: Codec, p: Papers, files: map<string, string>, got: Assessment) {
    OSCAL in files ==> p.normal(files[OSCAL]).Some? && p.normal(files[OSCAL]) == p.normal(c.oscal(got))
  }

  /** Input and run name one instant, when both name one. */
  predicate Coherent(p: Papers, run: string, input: Input) {
    input.evaluatedAt == "" || p.timestamp(run) == "" || input.evaluatedAt == p.timestamp(run)
  }

  ghost predicate ReadsBack(c: Codec, p: Papers, files: map<string, string>) {
    && ASSESSMENT in files && c.readAssessment(files[ASSESSMENT]).Some?
    && INPUT in files && p.readInput(files[INPUT]).Some? && PolicyIn(p, files).Some?
  }

  ghost predicate SomeReplay(v: Setup, na: Lang -> map<string, string>, render: (Lang, seq<Verdict>) -> string,
                             input: Input, target: string, sealedJson: string)
  {
    exists l :: Recognizes(v, na, render, l, Reloaded(input.items), input.units, target, sealedJson)
  }

  /** The assessment the replay arrives at. */
  ghost function Derived(v: Setup, na: Lang -> map<string, string>, render: (Lang, seq<Verdict>) -> string,
                         inv: Inventory, units: seq<Unit>, target: string, sealedJson: string, run: string,
                         current: Lang): Assessment {
    var l := MatchedLang(v, na, render, inv, units, target, sealedJson, current);
    Assessment(run, l, Replayed(v, na, l, inv, units, target))
  }

  /** The replay of an input leads to the sealed results, in one language; the rendering is that of
      what it derives, and the instants agree. */
  ghost predicate Confirms(c: Codec, p: Papers, files: map<string, string>, a: Assessment, input: Input, v: Setup,
                           na: Lang -> map<string, string>, render: (Lang, seq<Verdict>) -> string, target: string,
                           current: Lang)
  {
    var sealedJson := SealedForm(render)(a.lang, a.results);
    && SomeReplay(v, na, render, input, target, sealedJson)
    && OscalAgrees(c, p, files, Derived(v, na, render, Reloaded(input.items), input.units, target, sealedJson, a.run,
                                        current))
    && Coherent(p, a.run, input)
  }

  /** A directory is recognized: it reads back, for a known provider, and its replay confirms
      all it holds. */
  ghost predicate Rederives(c: Codec, p: Papers, files: map<string, string>, u: Setup, na: Lang -> map<string, string>,
                            render: (Lang, seq<Verdict>) -> string, target: string, clock: int, current: Lang)
  {
    ReadsBack(c, p, files) &&
    var a, input := c.readAssessment(files[ASSESSMENT]).value, p.readInput(files[INPUT]).value;
    && p.knows(a.run)
    && Confirms(c, p, files, a, input, ReplaySetup(u, p, a, input, PolicyIn(p, files).value, clock), na, render, target,
                current)
  }

  /** A run of a provider this program does not know is never confirmed. */
  lemma UnknownProviderIsRefused(c: Codec, p: Papers, files: map<string, string>, u: Setup,
                                 na: Lang -> map<string, string>, render: (Lang, seq<Verdict>) -> string,
                                 target: string, clock: int, current: Lang, a: Assessment)
    requires ASSESSMENT in files && c.readAssessment(files[ASSESSMENT]) == Some(a) && !p.knows(a.run)
    ensures !Rederives(c, p, files, u, na, render, target, clock, current)
  {
  }

  datatype Refusal =
    | BadSealedAssessment
    | BadInput
    | UnknownProvider
    | BadPolicy
    | Diverges
    | BadOscal
    | OscalDiverges
    | Antedated

  method ReDeriveOscal(c: Codec, p: Papers, dir: Directory, got: Assessment) returns (r: Option<Refusal>)
    ensures r.None? <==> OscalAgrees(c, p, dir.files, got)
    ensures r.Some? ==> r.value == BadOscal || r.value == OscalDiverges
  {
    if OSCAL !in dir.files {
      return None;
    }
    var a, b := p.normal(dir.files[OSCAL]), p.normal(c.oscal(got));
    if a.None? || b.None? {
      return Some(BadOscal);
    }
    return if a != b then Some(OscalDiverges) else None;
  }

  /** Replays the input, then compares the rendering and the instants. */
  method Confirm(c: Codec, p: Papers, dir: Directory, a: Assessment, input: Input, loc: Locale, v: Setup,
                 na: Lang -> map<string, string>, render: (Lang, seq<Verdict>) -> string, target: string)
    returns (r: Option<Refusal>)
    modifies loc
    ensures loc.current == old(loc.current)
    ensures r.None? <==> Confirms(c, p, dir.files, a, input, v, na, render, target, loc.current)
  {
    var findings := new Finding[|v.findings|](i requires 0 <= i < |v.findings| => v.findings[i]);
    assert findings[..] == v.findings;
    var coll := new Collection();
    coll.units := input.units;
    var sealedJson := SealedForm(render)(a.lang, a.results);
    var got, lang, matched := ReDeriveInEitherLanguage(loc, findings, v, na, render, Reloaded(input.items), coll,
                                                       target, sealedJson);
    if !matched {
      return Some(Diverges);
    }
    r := ReDeriveOscal(c, p, dir, Assessment(a.run, lang, got));
    if r.None? && !Coherent(p, a.run, input) {
      r := Some(Antedated);
    }
  }

  /** Reads a bundle, replays it, and says why it is refused, if it is. */
  method ReDerive(c: Codec, p: Papers, dir: Directory, loc: Locale, u: Setup, na: Lang -> map<string, string>,
                  render: (Lang, seq<Verdict>) -> string, target: string, clock: int)
    returns (r: Option<Refusal>)
    modifies loc
    ensures loc.current == old(loc.current)
    ensures r.None? <==> Rederives(c, p, dir.files, u, na, render, target, clock, loc.current)
  {
    if ASSESSMENT !in dir.files || c.readAssessment(dir.files[ASSESSMENT]).None? {
      return Some(BadSealedAssessment);
    }
    var a := c.readAssessment(dir.files[ASSESSMENT]).value;
    if INPUT !in dir.files || p.readInput(dir.files[INPUT]).None? {
      return Some(BadInput);
    }
    var input := p.readInput(dir.files[INPUT]).value;
    if !p.knows(a.run) {
      return Some(UnknownProvider);
    }
    var policy := SealedExemptions(p, dir);
    if policy.None? {
      return Some(BadPolicy);
    }
    r := Confirm(c, p, dir, a, input, loc, ReplaySetup(u, p, a, input, policy.value, clock), na, render, target);
  }

  // ----- What a scan seals -----

  function ExtrasFor(p: Papers, rep: Report, summary: string, config: Option<string>, configSummary: string): Extras {
    Extras(if rep.records == [] && rep.exemptions == [] then None else Some(p.writeReport(rep)),
           summary, config, configSummary)
  }

  /** The directory once a scan has sealed its verdicts, its input and its report in it. */
  function SealedDossier(c: Codec, p: Papers, before: map<string, string>, a: Assessment, input: Input,
                         extras: Extras): map<string, string> {
    Sealed(c, before, a, Some(p.writeInput(input)), extras)
  }

  /** The instant the input carries once a scan has stamped it: its own if it had one. */
  function Stamped(carried: Option<string>, timestamp: string): string {
    if carried.Some? then carried.value else timestamp
  }

  /** The verdicts and the report are those of a scan of this inventory, with the findings the
      rules give on the sealed input, at the instant its run names. */
  ghost predicate ScanOfInput(p: Papers, u: Setup, na: Lang -> map<string, string>, inv: Inventory, target: string,
                              a: Assessment, input: Input, rep: Report)
  {
    && input.items == ItemsOf(inv) && input.config == Config(u.tagged, u.relax)
    && u.findings == p.rules(input) && p.instant(p.timestamp(a.run)) == Some(u.now) && p.knows(a.run)
    && a.results == Replayed(u, na, a.lang, inv, input.units, target)
    && ReportFits(SetupIn(u, na, a.lang), ViewsOf(inv), IncompleteMap(input.units), SubjectsOf(ViewsOf(inv), target),
                  rep)
  }

  /** What verify finds in the directory: the assessment, its rendering and the input that were
      sealed, and the policy of the report, or what an earlier seal left when the report is empty. */
  lemma DossierReadsBack(c: Codec, p: Papers, before: map<string, string>, a: Assessment, input: Input, rep: Report,
                         extras: Extras)
    requires Lawful(c) && Faithfully(p, input, rep)
    requires extras == ExtrasFor(p, rep, extras.exemptionSummary, extras.config, extras.configSummary)
    ensures var files := SealedDossier(c, p, before, a, input, extras);
            && ASSESSMENT in files && c.readAssessment(files[ASSESSMENT]) == Some(Sorted(a))
            && INPUT in files && p.readInput(files[INPUT]) == Some(input)
            && OSCAL in files && files[OSCAL] == c.oscal(Sorted(a))
            && PolicyIn(p, files) == if rep.records == [] && rep.exemptions == [] then PolicyIn(p, before)
                                     else Some(rep.exemptions)
  {
    var text := Some(p.writeInput(input));
    SealedPiece(c, before, a, text, extras, Piece(ASSESSMENT, "assessment", c.writeAssessment(Sorted(a))));
    SealedPiece(c, before, a, text, extras, Piece(OSCAL, "oscal-assessment-results", c.oscal(Sorted(a))));
    SealedPiece(c, before, a, text, extras, Piece(INPUT, "evaluated-input", p.writeInput(input)));
    if extras.exemptions.Some? {
      SealedPiece(c, before, a, text, extras, Piece(EXEMPTIONS, "applied-exemptions", extras.exemptions.value));
    } else {
      StaleExemptionsStay(c, before, a, text, extras);
    }
  }

  // ----- When a sealed dossier is recognized -----

  lemma LinesInEither(u: Setup, na: Lang -> map<string, string>, l: Lang, m: Lang, inv: Inventory, units: seq<Unit>,
                      target: string)
    requires JustifiedInBoth(na)
    ensures Lines(Replayed(u, na, l, inv, units, target)) == Lines(Replayed(u, na, m, inv, units, target))
  {
    LanguageDoesNotShow(u, na, inv, units, target);
    assert l == FR || l == EN;
    assert m == FR || m == EN;
  }

  /** Documents that read alike hold as many failures. */
  lemma ReadAlike(render: (Lang, seq<Verdict>) -> string, read: string -> seq<Line>, l: Lang, a: seq<Verdict>, m: Lang,
                  b: seq<Verdict>)
    requires Readable(render, read) && SealedForm(render)(l, a) == SealedForm(render)(m, b)
    ensures Failures(a) == Failures(b)
  {
    assert read(render(l, Canonical(a))) == Lines(Canonical(a)) && read(render(m, Canonical(b))) == Lines(Canonical(b));
    LinesCount(Canonical(a), Canonical(b));
    FailuresSorted(SealOrder, a);
    FailuresSorted(SealOrder, b);
  }

  /** Under a policy that covers a deviation that stands, no language reads like the document. */
  lemma CoveredIsRefused(u: Setup, pol: seq<Exemption>, na: Lang -> map<string, string>,
                         render: (Lang, seq<Verdict>) -> string, read: string -> seq<Line>, l: Lang, inv: Inventory,
                         units: seq<Unit>, target: string, verdicts: seq<Verdict>, m: Lang)
    requires Readable(render, read) && JustifiedInBoth(na) && u.policy == []
    requires verdicts == Replayed(u, na, l, inv, units, target) && !CoversNone(pol, u, verdicts)
    ensures !Recognizes(u.(policy := pol), na, render, m, inv, units, target,
                        SealedForm(render)(l, Canonical(verdicts)))
  {
    var v := SetupIn(u, na, l);
    var other := Replayed(u.(policy := pol), na, l, inv, units, target);
    assert v.(policy := pol) == SetupIn(u.(policy := pol), na, l);
    OneFewer(v, pol, ViewsOf(inv), IncompleteMap(units), SubjectsOf(ViewsOf(inv), target), verdicts, other);
    LinesInEither(u.(policy := pol), na, l, m, inv, units, target);
    LinesCount(other, Replayed(u.(policy := pol), na, m, inv, units, target));
    if Recognizes(u.(policy := pol), na, render, m, inv, units, target, SealedForm(render)(l, Canonical(verdicts))) {
      ReadAlike(render, read, m, Replayed(u.(policy := pol), na, m, inv, units, target), l, Canonical(verdicts));
      FailuresSorted(SealOrder, verdicts);
      assert false;
    }
  }

  /** Under a policy that covers none, its own language does. */
  lemma UncoveredIsRecognized(u: Setup, pol: seq<Exemption>, na: Lang -> map<string, string>,
                              render: (Lang, seq<Verdict>) -> string, l: Lang, inv: Inventory, units: seq<Unit>,
                              target: string, verdicts: seq<Verdict>)
    requires pol == u.policy || (u.policy == [] && CoversNone(pol, u, verdicts))
    requires verdicts == Replayed(u, na, l, inv, units, target)
    ensures Recognizes(u.(policy := pol), na, render, l, inv, units, target, SealedForm(render)(l, Canonical(verdicts)))
  {
    var v := SetupIn(u, na, l);
    assert v.(policy := pol) == SetupIn(u.(policy := pol), na, l);
    if pol != u.policy {
      NoEffect(v, pol, ViewsOf(inv), IncompleteMap(units), SubjectsOf(ViewsOf(inv), target));
    }
    CanonicalTwice(verdicts);
  }

  /** An empty policy makes an empty report, and it alone. */
  lemma EmptyPolicy(u: Setup, views: seq<View>, incomplete: map<string, Unit>, subjects: set<string>, rep: Report)
    requires ReportFits(u, views, incomplete, subjects, rep)
    ensures rep.exemptions == u.policy
    ensures u.policy == [] <==> rep.records == [] && rep.exemptions == []
  {
    if u.policy == [] {
      assert |multiset(rep.records)| == 0;
    }
  }

  /** The condition on what the directory held before: nothing was left there that would be
      replayed, or what was covers no deviation that stands. */
  ghost predicate NothingStale(p: Papers, before: map<string, string>, u: Setup, verdicts: seq<Verdict>) {
    || u.policy != []
    || EXEMPTIONS !in before
    || (PolicyIn(p, before).Some? && CoversNone(PolicyIn(p, before).value, u, verdicts))
  }

  lemma ReplayedUnder(u: Setup, pol: seq<Exemption>, na: Lang -> map<string, string>,
                      render: (Lang, seq<Verdict>) -> string, read: string -> seq<Line>, l: Lang, input: Input,
                      target: string, verdicts: seq<Verdict>)
    requires Readable(render, read) && JustifiedInBoth(na) && (pol == u.policy || u.policy == [])
    requires verdicts == Replayed(u, na, l, Reloaded(input.items), input.units, target)
    ensures SomeReplay(u.(policy := pol), na, render, input, target, SealedForm(render)(l, Canonical(verdicts))) <==>
              pol == u.policy || CoversNone(pol, u, verdicts)
  {
    if pol == u.policy || CoversNone(pol, u, verdicts) {
      UncoveredIsRecognized(u, pol, na, render, l, Reloaded(input.items), input.units, target, verdicts);
    } else {
      forall m ensures !Recognizes(u.(policy := pol), na, render, m, Reloaded(input.items), input.units, target,
                                   SealedForm(render)(l, Canonical(verdicts)))
      {
        CoveredIsRefused(u, pol, na, render, read, l, Reloaded(input.items), input.units, target, verdicts, m);
      }
    }
  }

  /** What a policy covers, it covers in both languages. */
  lemma CoversAlike(pol: seq<Exemption>, u: Setup, a: seq<Verdict>, b: seq<Verdict>)
    requires Lines(a) == Lines(b) && CoversNone(pol, u, a)
    ensures CoversNone(pol, u, b)
  {
    forall v | v in b && v.status == Fail ensures !InForce(pol, u.now, u.controls.Keys, v.control, v.subject) {
      var i :| 0 <= i < |b| && b[i] == v;
      assert |a| == |Lines(a)| == |Lines(b)| == |b|;
      assert Lines(a)[i] == LineOf(a[i]) && Lines(b)[i] == LineOf(b[i]);
      assert a[i] in a;
    }
  }

  /** A policy that covers nothing in one language changes the replay in neither. */
  lemma UncoveredReplays(u: Setup, pol: seq<Exemption>, na: Lang -> map<string, string>, l: Lang, m: Lang,
                         inv: Inventory, units: seq<Unit>, target: string)
    requires JustifiedInBoth(na)
    requires pol == u.policy || (u.policy == [] && CoversNone(pol, u, Replayed(u, na, l, inv, units, target)))
    ensures Replayed(u.(policy := pol), na, m, inv, units, target) == Replayed(u, na, m, inv, units, target)
  {
    var v := SetupIn(u, na, m);
    assert v.(policy := pol) == SetupIn(u.(policy := pol), na, m);
    if pol != u.policy {
      LinesInEither(u, na, l, m, inv, units, target);
      CoversAlike(pol, u, Replayed(u, na, l, inv, units, target), Replayed(u, na, m, inv, units, target));
      NoEffect(v, pol, ViewsOf(inv), IncompleteMap(units), SubjectsOf(ViewsOf(inv), target));
    }
  }

  /** So the verifier derives what the scan did. */
  lemma DerivedAlike(u: Setup, pol: seq<Exemption>, na: Lang -> map<string, string>,
                     render: (Lang, seq<Verdict>) -> string, l: Lang, inv: Inventory, units: seq<Unit>, target: string,
                     other: string, sealedJson: string, run: string, current: Lang)
    requires JustifiedInBoth(na)
    requires pol == u.policy || (u.policy == [] && CoversNone(pol, u, Replayed(u, na, l, inv, units, target)))
    ensures Derived(u.(policy := pol), na, render, Reloaded(ItemsOf(inv)), units, other, sealedJson, run, current) ==
            Derived(u, na, render, inv, units, target, sealedJson, run, current)
  {
    forall m ensures Replayed(u.(policy := pol), na, m, Reloaded(ItemsOf(inv)), units, other) ==
                     Replayed(u, na, m, inv, units, target)
    {
      ReplayIsFaithful(u.(policy := pol), na, m, inv, units, target, other);
      UncoveredReplays(u, pol, na, l, m, inv, units, target);
    }
  }

  /** What the directory amounts to for the verifier. */
  lemma RederivesSealed(c: Codec, p: Papers, files: map<string, string>, a: Assessment, input: Input, u: Setup,
                        na: Lang -> map<string, string>, render: (Lang, seq<Verdict>) -> string, target: string,
                        clock: int, current: Lang)
    requires ASSESSMENT in files && c.readAssessment(files[ASSESSMENT]) == Some(Sorted(a))
    requires INPUT in files && p.readInput(files[INPUT]) == Some(input) && p.knows(a.run)
    requires u.findings == p.rules(input) && p.instant(p.timestamp(a.run)) == Some(u.now)
             && input.config == Config(u.tagged, u.relax)
    ensures Rederives(c, p, files, u, na, render, target, clock, current) <==>
              && PolicyIn(p, files).Some?
              && Confirms(c, p, files, Sorted(a), input, u.(policy := PolicyIn(p, files).value), na, render, target,
                          current)
  {
    if PolicyIn(p, files).Some? {
      assert ReplaySetup(u, p, Sorted(a), input, PolicyIn(p, files).value, clock)
             == u.(policy := PolicyIn(p, files).value);
    }
  }

  /** The rendering that was sealed, in the sealing order, is that of the verdicts in the order
      they are derived in. */
  ghost predicate OscalFollows(c: Codec, p: Papers, u: Setup, na: Lang -> map<string, string>,
                               render: (Lang, seq<Verdict>) -> string, inv: Inventory, units: seq<Unit>, target: string,
                               a: Assessment, current: Lang)
  {
    SameOscal(c, p, Sorted(a), Derived(u, na, render, inv, units, target,
                                       SealedForm(render)(a.lang, Canonical(a.results)), a.run, current))
  }

  /** What a scan seals is always accepted. It is recognized exactly when three things hold.
      Nothing stale was there: a policy was sealed, or there was no exemptions document, or the
      one an earlier seal left can be read and covers no deviation that stands. The rendering
      does not suffer from the sealing order. And the input carries no other instant than the
      run. */
  lemma HonestDossier(c: Codec, p: Papers, before: map<string, string>, a: Assessment, input: Input, rep: Report,
                      extras: Extras, u: Setup, na: Lang -> map<string, string>, render: (Lang, seq<Verdict>) -> string,
                      read: string -> seq<Line>, inv: Inventory, target: string, other: string, clock: int,
                      current: Lang)
    requires Lawful(c) && Faithfully(p, input, rep) && Readable(render, read) && JustifiedInBoth(na)
    requires ScanOfInput(p, u, na, inv, target, a, input, rep)
    requires extras == ExtrasFor(p, rep, extras.exemptionSummary, extras.config, extras.configSummary)
    ensures Accepts(c, SealedDossier(c, p, before, a, input, extras))
    ensures Rederives(c, p, SealedDossier(c, p, before, a, input, extras), u, na, render, other, clock, current) <==>
              && NothingStale(p, before, u, a.results)
              && OscalFollows(c, p, u, na, render, inv, input.units, target, a, current)
              && Coherent(p, a.run, input)
  {
    var files := SealedDossier(c, p, before, a, input, extras);
    RoundTrip(c, before, a, Some(p.writeInput(input)), extras);
    DossierReadsBack(c, p, before, a, input, rep, extras);
    EmptyPolicy(SetupIn(u, na, a.lang), ViewsOf(inv), IncompleteMap(input.units), SubjectsOf(ViewsOf(inv), target),
                rep);
    RederivesSealed(c, p, files, a, input, u, na, render, other, clock, current);
    if PolicyIn(p, files).Some? {
      ConfirmsSealed(c, p, files, a, input, PolicyIn(p, files).value, u, na, render, read, inv, target, other, current);
    }
  }

  lemma ConfirmsSealed(c: Codec, p: Papers, files: map<string, string>, a: Assessment, input: Input,
                       pol: seq<Exemption>, u: Setup, na: Lang -> map<string, string>,
                       render: (Lang, seq<Verdict>) -> string, read: string -> seq<Line>, inv: Inventory,
                       target: string, other: string, current: Lang)
    requires Readable(render, read) && JustifiedInBoth(na) && (pol == u.policy || u.policy == [])
    requires input.items == ItemsOf(inv) && a.results == Replayed(u, na, a.lang, inv, input.units, target)
    requires OSCAL in files && files[OSCAL] == c.oscal(Sorted(a))
    ensures Confirms(c, p, files, Sorted(a), input, u.(policy := pol), na, render, other, current) <==>
              && (pol == u.policy || CoversNone(pol, u, a.results))
              && OscalFollows(c, p, u, na, render, inv, input.units, target, a, current)
              && Coherent(p, a.run, input)
  {
    ReplayIsFaithful(u, na, a.lang, inv, input.units, target, other);
    ReplayedUnder(u, pol, na, render, read, a.lang, input, other, a.results);
    if pol == u.policy || CoversNone(pol, u, a.results) {
      DerivedAlike(u, pol, na, render, a.lang, inv, input.units, target, other,
                   SealedForm(render)(a.lang, Canonical(a.results)), a.run, current);
    }
  }

  // ----- What the sealing order does to the rendering -----

  /** To a verifier that speaks the language of the scan, the rendering follows exactly when that
      of the sealed order is that of the order of the scan. */
  lemma OscalInItsLanguage(c: Codec, p: Papers, u: Setup, na: Lang -> map<string, string>,
                           render: (Lang, seq<Verdict>) -> string, inv: Inventory, units: seq<Unit>, target: string,
                           a: Assessment)
    requires a.results == Replayed(u, na, a.lang, inv, units, target)
    ensures OscalFollows(c, p, u, na, render, inv, units, target, a, a.lang) <==> SameOscal(c, p, Sorted(a), a)
  {
    CanonicalTwice(a.results);
    assert Recognizes(u, na, render, a.lang, inv, units, target, SealedForm(render)(a.lang, Canonical(a.results)));
  }

  /** The rendering lists verdicts in their order: renderings that agree have the same lines. */
  ghost predicate ShowsOrder(c: Codec, p: Papers) {
    forall run, l, vs, ws :: SameOscal(c, p, Assessment(run, l, vs), Assessment(run, l, ws)) ==> Lines(vs) == Lines(ws)
  }

  /** The rendering is legible and does not depend on the order of the verdicts. */
  ghost predicate HidesOrder(c: Codec, p: Papers) {
    forall run, l, vs, ws :: multiset(vs) == multiset(ws) ==>
      SameOscal(c, p, Assessment(run, l, vs), Assessment(run, l, ws))
  }

  /** A rendering that hides the order always follows; one that lists the verdicts in their order
      follows exactly when they came out in the sealing order. */
  lemma OscalFollowsExactly(c: Codec, p: Papers, a: Assessment)
    ensures HidesOrder(c, p) ==> SameOscal(c, p, Sorted(a), a)
    ensures ShowsOrder(c, p) && p.normal(c.oscal(a)).Some? ==>
              (SameOscal(c, p, Sorted(a), a) <==> SortedBy(SealOrder, a.results))
  {
    assert a == Assessment(a.run, a.lang, a.results);
    assert Sorted(a) == Assessment(a.run, a.lang, Canonical(a.results));
    if SortedBy(SealOrder, a.results) {
      SortedStays(SealOrder, a.results);
    } else if Lines(Canonical(a.results)) == Lines(a.results) {
      SortedByLines(Canonical(a.results), a.results);
      assert false;
    }
  }

  lemma SortedByLines(vs: seq<Verdict>, ws: seq<Verdict>)
    requires SortedBy(SealOrder, vs) && Lines(vs) == Lines(ws)
    ensures SortedBy(SealOrder, ws)
  {
    assert |vs| == |Lines(vs)| == |Lines(ws)| == |ws|;
    forall i | 0 <= i < |vs| ensures SealOrder(vs[i]) == SealOrder(ws[i]) {
      assert Lines(vs)[i] == LineOf(vs[i]) && Lines(ws)[i] == LineOf(ws[i]);
    }
  }

  lemma FindingLine(s: Scan, i: nat)
    requires i < |s.findings|
    ensures i < |Built(s)| && Built(s)[i].control == s.findings[i].code && HasFinding(s, s.findings[i].code)
  {
    assert Built(s)[i] == FindingVerdicts(s)[i];
    assert s.findings[i] in s.findings;
  }

  /** The line of a control without finding is among those after the findings. */
  lemma QuietLine(s: Scan, code: string) returns (j: nat)
    requires code in Quiet(s)
    ensures |s.findings| <= j < |Built(s)| && Built(s)[j].control == code
  {
    var v := ControlVerdict(s, code).value;
    BuiltMembers(s, v);
    j :| 0 <= j < |Built(s)| && Built(s)[j] == v;
    if j < |s.findings| {
      FindingLine(s, j);
      assert false;
    }
  }

  lemma OutOfOrder(vs: seq<Verdict>, i: nat, j: nat)
    requires i < j < |vs| && !StrLe(vs[i].control, vs[j].control)
    ensures !SortedBy(SealOrder, vs)
  {
    KeyLeTotal(SealOrder(vs[i]), SealOrder(vs[j]));
    assert SealOrder(vs[i])[0] == vs[i].control && SealOrder(vs[j])[0] == vs[j].control;
    StrLeTotal(vs[i].control, vs[j].control);
    assert !KeyLe(SealOrder(vs[i]), SealOrder(vs[j]));
  }

  /** A finding whose control comes after one that has a verdict of its own keeps the verdicts of
      a scan out of the sealing order, because the findings come first. */
  lemma LateFinding(u: Setup, views: seq<View>, incomplete: map<string, Unit>, subjects: set<string>, f: Finding,
                    code: string)
    requires f in u.findings && code in Quiet(ScanOf(u, views)) && !StrLe(f.code, code)
    ensures !SortedBy(SealOrder, Final(u, views, incomplete, subjects))
  {
    var s := ScanOf(u, views);
    StatusMachine(u, views, incomplete, subjects);
    var i: nat :| i < |s.findings| && s.findings[i] == f;
    var j := QuietLine(s, code);
    FindingLine(s, i);
    OutOfOrder(Final(u, views, incomplete, subjects), i, j);
  }

  // ----- What a recognized directory proves -----

  /** Whoever wrote it, every pass of a recognized directory is proven on the input it holds: no
      finding of the rules on its control, no type it reads left unread, and the deciding data
      established on every deciding type. */
  lemma RecognizedPassIsProven(c: Codec, p: Papers, files: map<string, string>, u: Setup,
                               na: Lang -> map<string, string>, render: (Lang, seq<Verdict>) -> string,
                               read: string -> seq<Line>, target: string, clock: int, current: Lang, a: Assessment,
                               input: Input, v: Verdict) returns (l: Lang, r: Setup)
    requires Rederives(c, p, files, u, na, render, target, clock, current) && Readable(render, read)
    requires c.readAssessment(files[ASSESSMENT]) == Some(a) && p.readInput(files[INPUT]) == Some(input)
    requires v in a.results && v.status == Pass
    ensures r == SetupIn(ReplaySetup(u, p, a, input, PolicyIn(p, files).value, clock), na, l)
    ensures v.control in ScopeOf(r) && v.control in u.verified
    ensures forall f :: f in p.rules(input) ==> f.code != v.control
    ensures forall t :: t in TypesRead(u.tables, v.control, input.config.tagged) ==> t !in IncompleteMap(input.units)
    ensures DecidingDataEstablished(r, ViewsOf(Reloaded(input.items)), v.control)
  {
    var s := ReplaySetup(u, p, a, input, PolicyIn(p, files).value, clock);
    l :| Recognizes(s, na, render, l, Reloaded(input.items), input.units, target,
                    SealedForm(render)(a.lang, a.results));
    r := SetupIn(s, na, l);
    assert v in multiset(a.results) && v in multiset(Canonical(a.results));
    SealedPassIsProven(s, na, render, read, a.lang, Canonical(a.results), l, Reloaded(input.items), input.units, target,
                       v);
  }
}
