/** The gate of a scan (cmd/scan.go): what weighs in the exit code, the ladder that picks
    it, and the headline. */
module Gate {
  import opened Wrappers
  import opened Assess
  import opened Exempt

  const EXIT_COMPLIANT := 0
  const EXIT_NON_COMPLIANT := 1
  const EXIT_STRICT := 3
  const EXIT_EXEMPTION := 4

  predicate IsGraveText(severity: string) {
    severity == "critical" || severity == "high"
  }

  predicate IsGrave(f: Finding) {
    IsGraveText(f.severity)
  }

  /** Which severities are severe once set aside: critical and high, whatever their case. */
  type Severe = p: string -> bool | forall s :: IsGraveText(s) ==> p(s) witness (s: string) => true

  /** The gate profile: which findings it retains, and what is severe among the others. */
  datatype Profile = Profile(retains: Finding -> bool, severe: Severe)

  // ----- What weighs -----

  function Filter(fs: seq<Finding>, p: Finding -> bool): (r: seq<Finding>)
    ensures forall f :: f in r <==> f in fs && p(f)
  {
    if fs == [] then []
    else
      assert fs == [fs[0]] + fs[1..];
      (if p(fs[0]) then [fs[0]] else []) + Filter(fs[1..], p)
  }

  predicate Conclusive(f: Finding) {
    !Inconclusive(f)
  }

  function Negated(p: Finding -> bool): Finding -> bool {
    (f: Finding) => !p(f)
  }

  /** The observed deviations: not the findings that could not conclude. */
  function Deviations(fs: seq<Finding>): seq<Finding> {
    Filter(fs, Conclusive)
  }

  function Kept(fs: seq<Finding>, p: Profile): seq<Finding> {
    Filter(Deviations(fs), p.retains)
  }

  function SetAside(fs: seq<Finding>, p: Profile): seq<Finding> {
    Filter(Deviations(fs), Negated(p.retains))
  }

  /** The key a finding and a verdict are compared by. */
  function PairKey(control: string, subject: string): string {
    control + "\0" + subject
  }

  ghost function ExemptedKeys(vs: seq<Verdict>): set<string> {
    set v | v in vs && v.status == Exempted :: PairKey(v.control, v.subject)
  }

  method ExemptedKeysOf(vs: seq<Verdict>) returns (keys: set<string>)
    ensures keys == ExemptedKeys(vs)
  {
    keys := {};
    for i := 0 to |vs|
      invariant keys == ExemptedKeys(vs[..i])
    {
      assert vs[..i + 1] == vs[..i] + [vs[i]];
      if vs[i].status == Exempted {
        keys := keys + {PairKey(vs[i].control, vs[i].subject)};
      }
    }
    assert vs[..|vs|] == vs;
  }

  /** The deviations no exemption covers: the base of the gate. */
  ghost function Open(fs: seq<Finding>, vs: seq<Verdict>): seq<Finding> {
    Filter(fs, Uncovered(ExemptedKeys(vs)))
  }

  function Uncovered(keys: set<string>): Finding -> bool {
    (f: Finding) => PairKey(f.code, f.subject) !in keys
  }

  lemma {:induction false} FilterAll(fs: seq<Finding>, p: Finding -> bool)
    requires forall f :: f in fs ==> p(f)
    ensures Filter(fs, p) == fs
  {
    if fs != [] {
      assert fs == [fs[0]] + fs[1..];
      FilterAll(fs[1..], p);
    }
  }

  lemma {:induction false} FilterAppend(fs: seq<Finding>, f: Finding, p: Finding -> bool)
    ensures Filter(fs + [f], p) == Filter(fs, p) + if p(f) then [f] else []
  {
    if fs == [] {
      assert (fs + [f])[1..] == [];
    } else {
      assert (fs + [f])[1..] == fs[1..] + [f];
      FilterAppend(fs[1..], f, p);
      ConcatAssociative(if p(fs[0]) then [fs[0]] else [], Filter(fs[1..], p), if p(f) then [f] else []);
    }
  }

  method OpenFindings(fs: seq<Finding>, keys: set<string>, ghost vs: seq<Verdict>) returns (out: seq<Finding>)
    requires keys == ExemptedKeys(vs)
    ensures out == Open(fs, vs)
  {
    ghost var p := Uncovered(keys);
    if keys == {} {
      FilterAll(fs, p);
      return fs;
    }
    out := [];
    for i := 0 to |fs|
      invariant out == Filter(fs[..i], p)
    {
      FilterAppend(fs[..i], fs[i], p);
      assert fs[..i + 1] == fs[..i] + [fs[i]];
      if PairKey(fs[i].code, fs[i].subject) in keys {
        continue;
      }
      out := out + [fs[i]];
    }
    assert fs[..|fs|] == fs;
  }

  // ----- Counts -----

  datatype Score = Score(total: nat, critical: nat, high: nat, medium: nat, low: nat)
  {
    predicate Compliant() {
      critical == 0 && high == 0
    }
  }

  function CountSeverity(fs: seq<Finding>, severity: string): nat {
    if fs == [] then 0 else CountSeverity(fs[..|fs| - 1], severity) + if fs[|fs| - 1].severity == severity then 1 else 0
  }

  function ScoreOf(fs: seq<Finding>): Score {
    Score(|fs|, CountSeverity(fs, "critical"), CountSeverity(fs, "high"),
          CountSeverity(fs, "medium"), CountSeverity(fs, "low"))
  }

  lemma CountSeverityStep(fs: seq<Finding>, i: nat, severity: string)
    requires i < |fs|
    ensures CountSeverity(fs[..i + 1], severity) == CountSeverity(fs[..i], severity)
              + if fs[i].severity == severity then 1 else 0
  {
    assert fs[..i + 1][..i] == fs[..i];
  }

  lemma {:induction false} CountSeverityZero(fs: seq<Finding>, severity: string)
    ensures CountSeverity(fs, severity) == 0 <==> forall f :: f in fs ==> f.severity != severity
  {
    if fs != [] {
      var last := |fs| - 1;
      CountSeverityZero(fs[..last], severity);
      assert fs == fs[..last] + [fs[last]];
    }
  }

  method Summarize(fs: seq<Finding>) returns (r: Score)
    ensures r == ScoreOf(fs)
  {
    var critical, high, medium, low := 0, 0, 0, 0;
    for i := 0 to |fs|
      invariant critical == CountSeverity(fs[..i], "critical")
      invariant high == CountSeverity(fs[..i], "high")
      invariant medium == CountSeverity(fs[..i], "medium")
      invariant low == CountSeverity(fs[..i], "low")
    {
      CountSeverityStep(fs, i, "critical");
      CountSeverityStep(fs, i, "high");
      CountSeverityStep(fs, i, "medium");
      CountSeverityStep(fs, i, "low");
      var severity := fs[i].severity;
      if severity == "critical" {
        critical := critical + 1;
      } else if severity == "high" {
        high := high + 1;
      } else if severity == "medium" {
        medium := medium + 1;
      } else if severity == "low" {
        low := low + 1;
      }
    }
    assert fs[..|fs|] == fs;
    r := Score(|fs|, critical, high, medium, low);
  }

  // ----- What was measured -----

  /** A control really measured on resources: a governance control rests on declared facts. */
  predicate Measured(v: Verdict) {
    !Governance(v.control) && (v.status == Pass || v.status == Fail)
  }

  function CountMeasured(vs: seq<Verdict>): nat {
    if vs == [] then 0 else CountMeasured(vs[..|vs| - 1]) + if Measured(vs[|vs| - 1]) then 1 else 0
  }

  lemma {:induction false} CountMeasuredPositive(vs: seq<Verdict>)
    ensures CountMeasured(vs) > 0 <==> exists v :: v in vs && Measured(v)
  {
    if vs != [] {
      var last := |vs| - 1;
      CountMeasuredPositive(vs[..last]);
      assert vs == vs[..last] + [vs[last]];
    }
  }

  method EvaluatedNonGov(vs: seq<Verdict>) returns (n: nat)
    ensures n == CountMeasured(vs)
  {
    n := 0;
    for i := 0 to |vs|
      invariant n == CountMeasured(vs[..i])
    {
      assert vs[..i + 1][..i] == vs[..i];
      if "governance_" <= vs[i].control {
        continue;
      }
      if vs[i].status == Pass || vs[i].status == Fail {
        n := n + 1;
      }
    }
    assert vs[..|vs|] == vs;
  }

  function CountExempted(vs: seq<Verdict>): nat {
    if vs == [] then 0 else CountExempted(vs[..|vs| - 1]) + if vs[|vs| - 1].status == Exempted then 1 else 0
  }

  lemma {:induction false} CountExemptedPositive(vs: seq<Verdict>)
    ensures CountExempted(vs) > 0 <==> exists v :: v in vs && v.status == Exempted
  {
    if vs != [] {
      var last := |vs| - 1;
      CountExemptedPositive(vs[..last]);
      assert vs == vs[..last] + [vs[last]];
    }
  }

  // ----- The ladder -----

  /** What the last steps of a scan look at. */
  datatype Facts = Facts(res: Score, gate: Score, measured: nat, asideSevere: bool, degraded: nat,
                         applied: bool, stale: bool, exempted: nat, relaxed: nat, strict: bool)

  ghost predicate SevereAside(fs: seq<Finding>, p: Profile) {
    exists f :: f in SetAside(fs, p) && p.severe(f.severity)
  }

  /** The facts of a scan: its findings, final verdicts, exemption report, degraded and
      relaxed controls. */
  ghost function FactsOf(fs: seq<Finding>, p: Profile, vs: seq<Verdict>, rep: Report, degraded: nat, relaxed: nat,
                         strict: bool): Facts {
    Facts(ScoreOf(Kept(fs, p)), ScoreOf(Open(Kept(fs, p), vs)), CountMeasured(vs), SevereAside(fs, p), degraded,
          HasApplied(rep), IsStale(rep), CountExempted(vs), relaxed, strict)
  }

  /** The exit code, by order of precedence: an observed deviation first, then whatever
      keeps the scan from establishing compliance. */
  method ExitLadder(f: Facts) returns (code: nat)
    ensures code == EXIT_NON_COMPLIANT <==> !f.gate.Compliant()
    ensures code == EXIT_COMPLIANT <==>
      && f.gate.Compliant() && f.measured > 0 && !f.asideSevere && f.degraded == 0 && !f.applied
      && (f.strict ==> f.res.medium + f.res.low == 0 && !f.stale && f.relaxed == 0)
    ensures code == EXIT_EXEMPTION <==>
      f.gate.Compliant() && f.measured > 0 && !f.asideSevere && f.degraded == 0 && f.applied
    ensures code in {EXIT_COMPLIANT, EXIT_NON_COMPLIANT, EXIT_STRICT, EXIT_EXEMPTION}
    ensures code == ExitCode(f)
  {
    if !f.gate.Compliant() {
      return EXIT_NON_COMPLIANT;
    }
    if f.measured == 0 {
      return EXIT_STRICT;
    }
    if f.asideSevere {
      return EXIT_STRICT;
    }
    if f.degraded > 0 {
      return EXIT_STRICT;
    }
    if f.applied {
      return EXIT_EXEMPTION;
    }
    if f.strict && f.res.medium + f.res.low > 0 {
      return EXIT_STRICT;
    }
    if f.strict && f.stale {
      return EXIT_STRICT;
    }
    if f.strict && f.relaxed > 0 {
      return EXIT_STRICT;
    }
    return EXIT_COMPLIANT;
  }

  /** The code as a function of the facts. */
  function ExitCode(f: Facts): nat {
    if !f.gate.Compliant() then EXIT_NON_COMPLIANT
    else if f.measured == 0 || f.asideSevere || f.degraded > 0 then EXIT_STRICT
    else if f.applied then EXIT_EXEMPTION
    else if f.strict && (f.res.medium + f.res.low > 0 || f.stale || f.relaxed > 0) then EXIT_STRICT
    else EXIT_COMPLIANT
  }

  datatype Headline =
    | Undetermined
    | NonCompliantUnderWaiver
    | NonCompliantBeyondWaiver
    | NonCompliant
    | Incomplete
    | UnderRelaxedConfiguration
    | MediumLowOnly
    | CompliantHeadline

  function HeadlineOf(f: Facts): Headline {
    if f.measured == 0 then Undetermined
    else if !f.res.Compliant() && f.gate.Compliant() && f.exempted > 0 then NonCompliantUnderWaiver
    else if !f.res.Compliant() && f.exempted > 0 then NonCompliantBeyondWaiver
    else if !f.res.Compliant() then NonCompliant
    else if f.degraded > 0 then Incomplete
    else if f.relaxed > 0 then UnderRelaxedConfiguration
    else if f.res.medium + f.res.low > 0 then MediumLowOnly
    else CompliantHeadline
  }

  /** Gathers the facts and walks the ladder. */
  method Conclude(fs: seq<Finding>, p: Profile, vs: seq<Verdict>, rep: Report, degraded: nat, relaxed: nat,
                  strict: bool)
    returns (code: nat, headline: Headline)
    ensures var facts := FactsOf(fs, p, vs, rep, degraded, relaxed, strict);
            code == ExitCode(facts) && headline == HeadlineOf(facts)
  {
    var kept := Kept(fs, p);
    var aside := SetAside(fs, p);
    var severe := exists f :: f in aside && p.severe(f.severity);
    var keys := ExemptedKeysOf(vs);
    var open := OpenFindings(kept, keys, vs);
    var res := Summarize(kept);
    var gate := Summarize(open);
    var measured := EvaluatedNonGov(vs);
    var applied := CountOf(rep, Applied);
    var expired := CountOf(rep, Expired);
    var orphans := CountOf(rep, Orphan);
    var facts := Facts(res, gate, measured, severe, degraded, applied > 0, expired + orphans > 0,
                       CountExempted(vs), relaxed, strict);
    code := ExitLadder(facts);
    headline := HeadlineOf(facts);
  }

  // ----- What the gate means -----

  /** Neither code is the beginning of the other, cut just before a NUL. */
  predicate Separable(a: string, c: string) {
    !(a + "\0" <= c) && !(c + "\0" <= a)
  }

  lemma EqualKeys(a: string, b: string, c: string, d: string)
    requires PairKey(a, b) == PairKey(c, d)
    ensures |a| < |c| ==> a + "\0" <= c
    ensures |a| == |c| ==> a == c && b == d
  {
    var k := PairKey(a, b);
    assert a == k[..|a|] && c == k[..|c|];
    assert b == k[|a| + 1..] && d == k[|c| + 1..];
    assert k[|a|] == '\0';
    if |a| < |c| {
      assert c[..|a|] == a && c[|a|] == '\0';
      assert (a + "\0") == c[..|a| + 1];
    }
  }

  /** The keys of two codes tell their pairs apart, whatever the subjects, exactly when
      neither code is the beginning of the other before a NUL. */
  lemma KeysSeparate(a: string, c: string)
    ensures (forall b, d :: PairKey(a, b) == PairKey(c, d) ==> a == c && b == d) <==> Separable(a, c)
  {
    if Separable(a, c) {
      forall b, d | PairKey(a, b) == PairKey(c, d) ensures a == c && b == d {
        EqualKeys(a, b, c, d);
        EqualKeys(c, d, a, b);
      }
    } else if a + "\0" <= c {
      KeysCollide(a, c);
    } else {
      KeysCollide(c, a);
    }
  }

  /** The subjects that make the pairs collide: what follows the NUL in the longer code. */
  lemma KeysCollide(a: string, c: string)
    requires a + "\0" <= c
    ensures PairKey(a, c[|a| + 1..] + "\0") == PairKey(c, "") && a != c
  {
    assert c == a + "\0" + c[|a| + 1..];
  }

  /** A deviation is left in the gate exactly when no exempted verdict has its key; which is
      to say its control and subject, as long as the codes can be told apart. */
  lemma OpenExactly(fs: seq<Finding>, vs: seq<Verdict>, f: Finding)
    requires f in fs
    ensures f in Open(fs, vs) <==>
              !exists v :: v in vs && v.status == Exempted
                      && PairKey(v.control, v.subject) == PairKey(f.code, f.subject)
    ensures (forall v :: v in vs && v.status == Exempted ==> Separable(v.control, f.code)) ==>
              (f in Open(fs, vs) <==>
               !exists v :: v in vs && v.status == Exempted && v.control == f.code && v.subject == f.subject)
  {
    forall v | v in vs && Separable(v.control, f.code) && PairKey(v.control, v.subject) == PairKey(f.code, f.subject)
      ensures v.control == f.code && v.subject == f.subject
    {
      KeysSeparate(v.control, f.code);
    }
  }

  lemma CompliantExactly(fs: seq<Finding>)
    ensures ScoreOf(fs).Compliant() <==> forall f :: f in fs ==> !IsGrave(f)
  {
    CountSeverityZero(fs, "critical");
    CountSeverityZero(fs, "high");
  }

  /** Nothing is exempted: the gate weighs every kept deviation. */
  lemma OpenWithoutExemption(fs: seq<Finding>, vs: seq<Verdict>)
    requires forall v :: v in vs ==> v.status != Exempted
    ensures Open(fs, vs) == fs
  {
    assert ExemptedKeys(vs) == {};
    FilterAll(fs, Uncovered(ExemptedKeys(vs)));
  }
}
