/** From findings to typed verdicts (internal/assess/assess.go). The tables of controls and
    deciding attributes are parameters: every statement holds for any of them. */
module Assess {
  import opened Wrappers
  import opened Order
  import opened CollectionState
  import opened ProvenanceIndex

  const PASS_TEXT := "pass"
  const FAIL_TEXT := "fail"
  const NOT_APPLICABLE_TEXT := "not-applicable"
  const NOT_EVALUATED_TEXT := "not-evaluated"
  const EXEMPTED_TEXT := "exempted"
  const ERROR_TEXT := "error"

  predicate NamesStatus(text: string) {
    text == PASS_TEXT || text == FAIL_TEXT || text == NOT_APPLICABLE_TEXT || text == NOT_EVALUATED_TEXT
    || text == EXEMPTED_TEXT || text == ERROR_TEXT
  }

  /** A status the program does not know: a document read back may hold any text. */
  type OtherText = text: string | !NamesStatus(text) witness ""

  datatype Status = Pass | Fail | NotApplicable | NotEvaluated | Exempted | Error | OtherStatus(text: OtherText)

  datatype Reference = Reference(framework: string, id: string)

  datatype Control = Control(severity: string, providers: seq<string>, references: seq<Reference>, remediation: string)

  const NO_CONTROL := Control("", [], [], "")

  datatype Finding = Finding(code: string, subject: string, severity: string, message: string,
                             remediation: string, labels: map<string, string>)

  const LABEL_INCONCLUSIVE := "inconclusive"

  /** The rule saw the data and could not decide. */
  predicate Inconclusive(f: Finding) {
    GetOr(f.labels, LABEL_INCONCLUSIVE, "") == "true"
  }

  /** What a verdict rests on, before it is put into words. */
  datatype Reason =
    | Deviation(message: string)
    | BrokenCorrelation(types: seq<string>)
    | DeclaredNotApplicable(justification: string)
    | CleanOn(types: seq<string>)
    | CleanByDeclaration
    | Clean
    | NotVerified
    | NoResourceOf(typ: string)
    | NothingInScope
    | MissingAttributes(types: seq<string>)
    | NotEvaluable
    | NeverSought(pairs: seq<(string, string)>)
    | IncompleteCollection(unit: Unit, grant: string)
    | UnderRelaxation(reason: Reason, details: seq<string>)

  datatype Evidence = Evidence(observed: Reason, attributes: seq<string>, origins: seq<(string, AttrOrigin)>)

  datatype Waiver = NoWaiver | Waiver(justification: string, until: string)

  datatype Verdict = Verdict(
    control: string,
    status: Status,
    severity: string,
    subject: string,
    evidence: Evidence,
    references: seq<Reference>,
    remediation: string,
    waiver: Waiver,
    labels: map<string, string>)

  /** required[code][type]: the attributes of the type that decide the control, "" standing
      for the main type. requireAll: the controls that need all of them rather than one. */
  datatype Tables = Tables(
    primary: map<string, string>,
    extra: map<string, seq<string>>,
    required: map<string, map<string, seq<string>>>,
    requireAll: set<string>,
    absence: map<string, map<string, seq<string>>>)
  {
    function Primary(code: string): string {
      GetOr(primary, code, "")
    }

    function Required(code: string): map<string, seq<string>> {
      GetOr(required, code, map[])
    }

    /** Every type a control reads: the one that decides whether it applies, then those it
        correlates. */
    function ControlTypes(code: string): seq<string> {
      var p := Primary(code);
      var others := GetOr(extra, code, []);
      if p == "" then others else [p] + Without(others, p)
    }
  }

  function Without(s: seq<string>, x: string): seq<string> {
    if s == [] then []
    else (if s[0] == x then [] else [s[0]]) + Without(s[1..], x)
  }

  /** What one provider scan is judged on. */
  datatype Scan = Scan(
    tables: Tables,
    provider: string,
    controls: map<string, Control>,
    findings: seq<Finding>,
    types: set<string>,
    na: map<string, string>,
    verified: set<string>,
    attrs: map<string, set<string>>,
    target: string)

  // ----- The capability lock -----

  predicate Has(s: Scan, t: string, a: string) {
    t in s.attrs && a in s.attrs[t]
  }

  /** Enough of the declared attributes are collected on a type. */
  predicate AttrsOnType(s: Scan, code: string, t: string, attrs: seq<string>) {
    if code in s.tables.requireAll then forall a :: a in attrs ==> Has(s, t, a)
    else exists a :: a in attrs && Has(s, t, a)
  }

  function Present(types: seq<string>, present: set<string>): seq<string> {
    if types == [] then []
    else (if types[0] in present then [types[0]] else []) + Present(types[1..], present)
  }

  /** The types a control judges on in this inventory. */
  function TypesInScope(s: Scan, code: string): seq<string> {
    var typ := s.tables.Primary(code);
    if typ != "" then [typ] else Present(s.tables.ControlTypes(code), s.types)
  }

  predicate Governance(code: string) {
    "governance_" <= code
  }

  predicate Applicable(s: Scan, code: string) {
    if Governance(code) then
      var declared := s.tables.ControlTypes(code);
      declared == [] || exists t :: t in declared && t in s.types
    else
      var t := s.tables.Primary(code);
      t != "" && t in s.types
  }

  /** The attribute is declared as deciding the control on this type of this inventory: a
      named type counts only when it is present. */
  predicate Deciding(s: Scan, code: string, t: string, a: string) {
    var req := s.tables.Required(code);
    || (t != "" && t in req && t in s.types && a in req[t])
    || ("" in req && t in TypesInScope(s, code) && a in req[""])
  }

  predicate Decides(s: Scan, code: string, t: string) {
    var req := s.tables.Required(code);
    (t != "" && t in req && t in s.types) || ("" in req && t in TypesInScope(s, code))
  }

  ghost predicate SufficientOn(s: Scan, code: string, t: string) {
    if code in s.tables.requireAll then forall a :: Deciding(s, code, t, a) ==> Has(s, t, a)
    else exists a :: Deciding(s, code, t, a) && Has(s, t, a)
  }

  /** Every deciding type has its deciding data, and there is at least one; a control
      without declared attributes has nothing to wait for. */
  ghost predicate AttrCollected(s: Scan, code: string) {
    s.tables.Required(code) == map[] ||
    ((exists t :: Decides(s, code, t)) && forall t :: Decides(s, code, t) ==> SufficientOn(s, code, t))
  }

  predicate Lists(m: map<string, seq<string>>, t: string, a: string) {
    t in m && a in m[t]
  }

  ghost predicate IsDecidingMap(s: Scan, code: string, m: map<string, seq<string>>) {
    && (forall t :: t in m <==> Decides(s, code, t))
    && (forall t, a {:trigger Lists(m, t, a)} :: Lists(m, t, a) <==> Deciding(s, code, t, a))
  }

  /** The attributes to require on each type. */
  method DecidingByType(s: Scan, code: string) returns (out: map<string, seq<string>>)
    ensures IsDecidingMap(s, code, out)
  {
    var req := s.tables.Required(code);
    var scope := TypesInScope(s, code);
    out := map[];
    var todo := req.Keys;
    while todo != {}
      invariant todo <= req.Keys
      invariant forall t :: t in out <==> DecidesBut(s, code, t, todo)
      invariant forall t, a {:trigger Lists(out, t, a)} :: Lists(out, t, a) <==> DecidingBut(s, code, t, a, todo)
      decreases todo
    {
      var t :| t in todo;
      todo := todo - {t};
      if t != "" {
        if t in s.types {
          out := AppendEach(out, [t], req[t]);
        }
      } else {
        out := AppendEach(out, scope, req[""]);
      }
    }
  }

  predicate DecidesBut(s: Scan, code: string, t: string, todo: set<string>) {
    var req := s.tables.Required(code);
    (t != "" && t in req && t in s.types && t !in todo) || ("" in req && "" !in todo && t in TypesInScope(s, code))
  }

  predicate DecidingBut(s: Scan, code: string, t: string, a: string, todo: set<string>) {
    var req := s.tables.Required(code);
    || (t != "" && t in req && t in s.types && t !in todo && a in req[t])
    || ("" in req && "" !in todo && t in TypesInScope(s, code) && a in req[""])
  }

  /** Adds the attributes to the list of every type. */
  method AppendEach(m: map<string, seq<string>>, types: seq<string>, attrs: seq<string>)
    returns (out: map<string, seq<string>>)
    ensures forall t :: t in out <==> t in m || t in types
    ensures forall t, a {:trigger Lists(out, t, a)} :: Lists(out, t, a) <==>
              Lists(m, t, a) || (t in types && a in attrs)
  {
    out := m;
    for i := 0 to |types|
      invariant forall t :: t in out <==> t in m || t in types[..i]
      invariant forall t, a {:trigger Lists(out, t, a)} :: Lists(out, t, a) <==>
                  Lists(m, t, a) || (t in types[..i] && a in attrs)
    {
      assert types[..i + 1] == types[..i] + [types[i]];
      ghost var before := out;
      out := out[types[i] := GetOr(out, types[i], []) + attrs];
      forall t, a ensures Lists(out, t, a) <==> Lists(before, t, a) || (t == types[i] && a in attrs) {
      }
    }
    assert types[..|types|] == types;
  }

  method AttributesCollected(s: Scan, code: string) returns (r: bool)
    ensures r == AttrCollected(s, code)
  {
    var deciding := DecidingByType(s, code);
    if s.tables.Required(code) == map[] {
      return true;
    }
    if deciding == map[] {
      return false;
    }
    var some :| some in deciding;
    assert Decides(s, code, some);
    var todo := deciding.Keys;
    while todo != {}
      invariant todo <= deciding.Keys
      invariant forall t :: t in deciding && t !in todo ==> SufficientOn(s, code, t)
      decreases todo
    {
      var t :| t in todo;
      todo := todo - {t};
      assert Decides(s, code, t);
      assert forall a :: a in deciding[t] <==> Lists(deciding, t, a);
      if !AttrsOnType(s, code, t, deciding[t]) {
        return false;
      }
    }
    return true;
  }

  // ----- Broken correlations -----

  /** The secondary types, present in the inventory, whose deciding data is missing: what
      links the resources of the control to them cannot be read. */
  ghost function BrokenTypes(s: Scan, code: string): set<string> {
    var req := s.tables.Required(code);
    set t | t in req && t != "" && t in s.types && !AttrsOnType(s, code, t, req[t])
  }

  ghost predicate CorrelationBroken(s: Scan, code: string) {
    BrokenTypes(s, code) != {}
  }

  method BrokenCorrelations(s: Scan, code: string) returns (broken: seq<string>)
    ensures broken == Ordered(BrokenTypes(s, code))
  {
    var req := s.tables.Required(code);
    broken := [];
    var todo := req.Keys;
    while todo != {}
      invariant todo <= req.Keys
      invariant Distinct(broken)
      invariant forall t :: t in broken <==> t in BrokenTypes(s, code) && t !in todo
      decreases todo
    {
      var t :| t in todo;
      todo := todo - {t};
      if t != "" && t in s.types && !AttrsOnType(s, code, t, req[t]) {
        broken := broken + [t];
      }
    }
    assert Elements(broken) == BrokenTypes(s, code);
    SortIsOrdered(broken);
    broken := SortStrings(broken);
  }

  // ----- The verdicts -----

  function ControlOf(s: Scan, code: string): Control {
    GetOr(s.controls, code, NO_CONTROL)
  }

  function FirstOf(a: string, b: string): string {
    if a != "" then a else b
  }

  /** A finding is a deviation, unless the rule could not decide or the correlation it
      rests on was never readable. */
  ghost function FindingVerdict(s: Scan, f: Finding): Verdict {
    var c := ControlOf(s, f.code);
    Verdict(f.code,
            if Inconclusive(f) || CorrelationBroken(s, f.code) then NotEvaluated else Fail,
            FirstOf(f.severity, c.severity), f.subject,
            Evidence(if CorrelationBroken(s, f.code) then BrokenCorrelation(Ordered(BrokenTypes(s, f.code)))
                     else Deviation(f.message),
                     [], []),
            c.references, FirstOf(f.remediation, c.remediation), NoWaiver, f.labels)
  }

  ghost predicate HasFinding(s: Scan, code: string) {
    exists f :: f in s.findings && f.code == code
  }

  predicate DeclaredNA(s: Scan, code: string) {
    GetOr(s.na, code, "") != ""
  }

  predicate Declared(s: Scan, code: string) {
    s.provider in ControlOf(s, code).providers
  }

  /** A pass is asserted only for a verified control whose type is there and whose deciding
      data was collected. */
  ghost predicate Unlocked(s: Scan, code: string) {
    code in s.verified && Applicable(s, code) && AttrCollected(s, code)
  }

  ghost function CleanReason(s: Scan, code: string): Reason {
    var typ := s.tables.Primary(code);
    if typ != "" then CleanOn([typ])
    else if "governance_provider_" <= code then CleanByDeclaration
    else
      var scope := TypesInScope(s, code);
      if scope != [] then CleanOn(SortStrings(scope)) else Clean
  }

  ghost function MissingTypes(s: Scan, code: string): set<string> {
    set t | t in s.tables.Required(code).Keys + Elements(TypesInScope(s, code))
            && Decides(s, code, t) && !SufficientOn(s, code, t)
  }

  ghost function WhyNot(s: Scan, code: string): Reason {
    var typ := s.tables.Primary(code);
    if code !in s.verified then NotVerified
    else if typ != "" && typ !in s.types then NoResourceOf(typ)
    else if typ == "" && TypesInScope(s, code) == [] && s.tables.ControlTypes(code) != [] then NothingInScope
    else if s.tables.Required(code) != map[] && !AttrCollected(s, code) then
      MissingAttributes(Ordered(MissingTypes(s, code)))
    else NotEvaluable
  }

  ghost function ControlVerdict(s: Scan, code: string): Option<Verdict> {
    var c := ControlOf(s, code);
    var blank := Verdict(code, NotEvaluated, c.severity, s.target,
                         Evidence(NotEvaluable, [], []), c.references, "", NoWaiver, map[]);
    if DeclaredNA(s, code) then
      Some(blank.(status := NotApplicable, waiver := Waiver(s.na[code], ""),
                  evidence := Evidence(DeclaredNotApplicable(s.na[code]), [], [])))
    else if !Declared(s, code) then None
    else if Unlocked(s, code) then Some(blank.(status := Pass, evidence := Evidence(CleanReason(s, code), [], [])))
    else Some(blank.(evidence := Evidence(WhyNot(s, code), [], [])))
  }

  ghost function FindingVerdicts(s: Scan): (out: seq<Verdict>)
    ensures |out| == |s.findings|
    ensures forall i :: 0 <= i < |out| ==> out[i] == FindingVerdict(s, s.findings[i])
  {
    seq(|s.findings|, i requires 0 <= i < |s.findings| => FindingVerdict(s, s.findings[i]))
  }

  /** One verdict per control without finding that is not applicable or declared here. */
  ghost function ControlVerdicts(s: Scan, codes: seq<string>): seq<Verdict> {
    if codes == [] then []
    else Emitted(s, codes[0]) + ControlVerdicts(s, codes[1..])
  }

  ghost function Emitted(s: Scan, code: string): seq<Verdict> {
    if HasFinding(s, code) then []
    else
      match ControlVerdict(s, code)
      case Some(v) => [v]
      case None => []
  }

  ghost function Built(s: Scan): seq<Verdict> {
    FindingVerdicts(s) + ControlVerdicts(s, Ordered(s.controls.Keys))
  }

  // ----- What a reason says -----

  /** The reason why a control does not pass is an obstacle that is there; when a type is
      missing, or attributes are, it is exactly those. */
  lemma ReasonIsThere(s: Scan, code: string)
    requires !Unlocked(s, code)
    ensures match WhyNot(s, code)
            case NotVerified => code !in s.verified
            case NoResourceOf(t) => t == s.tables.Primary(code) != "" && t !in s.types
            case NothingInScope => s.tables.ControlTypes(code) != [] &&
              forall t :: t in s.tables.ControlTypes(code) ==> t !in s.types
            case MissingAttributes(types) =>
              && !AttrCollected(s, code) && Ascending(types)
              && (forall t :: t in types <==> Decides(s, code, t) && !SufficientOn(s, code, t))
              && (types == [] ==> forall t :: !Decides(s, code, t))
            case NotEvaluable => !Governance(code) && s.tables.Primary(code) == "" && !Applicable(s, code)
            case _ => false
  {
    var declared := s.tables.ControlTypes(code);
    PresentMembers(declared, s.types);
    assert Present(declared, s.types) != [] ==> Present(declared, s.types)[0] in declared;
    assert s.tables.Primary(code) != "" ==> declared[0] == s.tables.Primary(code) && declared[0] in declared;
    MissingTypesExactly(s, code, Ordered(MissingTypes(s, code)));
  }

  lemma MissingTypesExactly(s: Scan, code: string, types: seq<string>)
    requires types == Ordered(MissingTypes(s, code))
    ensures forall t :: t in types <==> Decides(s, code, t) && !SufficientOn(s, code, t)
  {
    assert forall t :: t in types <==> t in Elements(types);
    assert forall t :: Decides(s, code, t) ==> t in s.tables.Required(code).Keys + Elements(TypesInScope(s, code));
  }

  lemma {:induction false} PresentMembers(types: seq<string>, present: set<string>)
    ensures forall t :: t in Present(types, present) <==> t in types && t in present
  {
    if types != [] {
      PresentMembers(types[1..], present);
      assert types == [types[0]] + types[1..];
    }
  }

  predicate SaysNoResource(r: Reason) {
    r.NoResourceOf? || r.NothingInScope?
  }

  /** And it is the first condition of the lock that fails: verification, then presence of the
      type, then the deciding data. A governance control has no main type, any other has one. */
  lemma ReasonIsTheObstacle(s: Scan, code: string)
    requires !Unlocked(s, code)
    requires Governance(code) <==> s.tables.Primary(code) == ""
    ensures WhyNot(s, code).NotVerified? <==> code !in s.verified
    ensures SaysNoResource(WhyNot(s, code)) <==> code in s.verified && !Applicable(s, code)
    ensures WhyNot(s, code).MissingAttributes? <==> code in s.verified && Applicable(s, code) && !AttrCollected(s, code)
  {
    var declared := s.tables.ControlTypes(code);
    PresentMembers(declared, s.types);
    assert Present(declared, s.types) != [] ==> Present(declared, s.types)[0] in declared;
  }

  // ----- Build -----

  method MissingTypesOf(s: Scan, code: string) returns (out: seq<string>)
    ensures out == Ordered(MissingTypes(s, code))
  {
    var deciding := DecidingByType(s, code);
    out := [];
    var todo := deciding.Keys;
    while todo != {}
      invariant todo <= deciding.Keys
      invariant Distinct(out)
      invariant forall t :: t in out <==> t in deciding && t !in todo && !SufficientOn(s, code, t)
      decreases todo
    {
      var t :| t in todo;
      todo := todo - {t};
      assert forall a :: a in deciding[t] <==> Lists(deciding, t, a);
      if !AttrsOnType(s, code, t, deciding[t]) {
        out := out + [t];
      }
    }
    assert Elements(out) == MissingTypes(s, code);
    SortIsOrdered(out);
    out := SortStrings(out);
  }

  method NotEvaluatedReason(s: Scan, code: string) returns (r: Reason)
    ensures r == WhyNot(s, code)
  {
    var typ := s.tables.Primary(code);
    if code !in s.verified {
      return NotVerified;
    }
    if typ != "" && typ !in s.types {
      return NoResourceOf(typ);
    }
    if typ == "" && TypesInScope(s, code) == [] && s.tables.ControlTypes(code) != [] {
      return NothingInScope;
    }
    var collected := AttributesCollected(s, code);
    if s.tables.Required(code) != map[] && !collected {
      var missing := MissingTypesOf(s, code);
      return MissingAttributes(missing);
    }
    return NotEvaluable;
  }

  method JudgeControl(s: Scan, code: string) returns (r: Option<Verdict>)
    ensures r == ControlVerdict(s, code)
  {
    var c := ControlOf(s, code);
    var res := Verdict(code, NotEvaluated, c.severity, s.target,
                         Evidence(NotEvaluable, [], []), c.references, "", NoWaiver, map[]);
    if DeclaredNA(s, code) {
      return Some(res.(status := NotApplicable, waiver := Waiver(s.na[code], ""),
                       evidence := Evidence(DeclaredNotApplicable(s.na[code]), [], [])));
    }
    if s.provider !in c.providers {
      return None;
    }
    var collected := AttributesCollected(s, code);
    if code in s.verified && Applicable(s, code) && collected {
      var observed := Clean;
      var typ := s.tables.Primary(code);
      var scope := TypesInScope(s, code);
      if typ != "" {
        observed := CleanOn([typ]);
      } else if "governance_provider_" <= code {
        observed := CleanByDeclaration;
      } else if scope != [] {
        observed := CleanOn(SortStrings(scope));
      }
      return Some(res.(status := Pass, evidence := Evidence(observed, [], [])));
    }
    var why := NotEvaluatedReason(s, code);
    return Some(res.(evidence := Evidence(why, [], [])));
  }

  /** The first findings have had the correlation of their code examined. */
  ghost predicate Examined(s: Scan, n: nat, broken: map<string, seq<string>>)
    requires n <= |s.findings|
  {
    && (forall j :: 0 <= j < n ==> (s.findings[j].code in broken <==> CorrelationBroken(s, s.findings[j].code)))
    && (forall c :: c in broken ==> CorrelationBroken(s, c) && broken[c] == Ordered(BrokenTypes(s, c)))
  }

  lemma ExaminedStep(s: Scan, n: nat, broken: map<string, seq<string>>)
    requires n < |s.findings| && Examined(s, n, broken)
    ensures var c := s.findings[n].code;
            Examined(s, n + 1, if CorrelationBroken(s, c) then broken[c := Ordered(BrokenTypes(s, c))] else broken)
  {
  }

  /** The broken correlations of the codes found, computed once per code. */
  method BrokenByCode(s: Scan) returns (broken: map<string, seq<string>>)
    ensures Examined(s, |s.findings|, broken)
  {
    broken := map[];
    for i := 0 to |s.findings|
      invariant Examined(s, i, broken)
    {
      var code := s.findings[i].code;
      ExaminedStep(s, i, broken);
      if code in broken {
        assert broken[code := Ordered(BrokenTypes(s, code))] == broken;
        continue;
      }
      var types := BrokenCorrelations(s, code);
      OrderedEmpty(BrokenTypes(s, code));
      if types != [] {
        broken := broken[code := types];
      }
    }
  }

  method JudgeFindings(s: Scan) returns (results: seq<Verdict>, failed: set<string>)
    ensures results == FindingVerdicts(s)
    ensures forall c :: c in failed <==> HasFinding(s, c)
  {
    var broken := BrokenByCode(s);
    results, failed := [], {};
    for i := 0 to |s.findings|
      invariant |results| == i
      invariant forall j :: 0 <= j < i ==> results[j] == FindingVerdict(s, s.findings[j])
      invariant forall c :: c in failed <==> exists j :: 0 <= j < i && s.findings[j].code == c
    {
      var f := s.findings[i];
      var status := Fail;
      var observed := Deviation(f.message);
      if Inconclusive(f) {
        status := NotEvaluated;
      }
      if f.code in broken {
        status, observed := NotEvaluated, BrokenCorrelation(broken[f.code]);
      }
      failed := failed + {f.code};
      var c := ControlOf(s, f.code);
      results := results + [Verdict(f.code, status, FirstOf(f.severity, c.severity), f.subject,
                                    Evidence(observed, [], []),
                                    c.references, FirstOf(f.remediation, c.remediation), NoWaiver, f.labels)];
    }
  }

  method EmitControl(s: Scan, code: string, failed: set<string>) returns (out: seq<Verdict>)
    requires code in failed <==> HasFinding(s, code)
    ensures out == Emitted(s, code)
  {
    if code in failed {
      return [];
    }
    var verdict := JudgeControl(s, code);
    out := if verdict.Some? then [verdict.value] else [];
  }

  method JudgeControls(s: Scan, codes: seq<string>, failed: set<string>) returns (out: seq<Verdict>)
    requires forall c :: c in failed <==> HasFinding(s, c)
    ensures out == ControlVerdicts(s, codes)
  {
    out := [];
    for i := 0 to |codes|
      invariant out == ControlVerdicts(s, codes[..i])
    {
      var emitted := EmitControl(s, codes[i], failed);
      ControlVerdictsAppend(s, codes[..i], codes[i]);
      assert codes[..i + 1] == codes[..i] + [codes[i]];
      out := out + emitted;
    }
    assert codes[..|codes|] == codes;
  }

  method Build(s: Scan) returns (results: seq<Verdict>)
    ensures results == Built(s)
  {
    var found, failed := JudgeFindings(s);
    var codes := SortedSet(s.controls.Keys);
    var judged := JudgeControls(s, codes, failed);
    results := found + judged;
  }

  lemma {:induction false} ControlVerdictsAppend(s: Scan, codes: seq<string>, code: string)
    ensures ControlVerdicts(s, codes + [code]) == ControlVerdicts(s, codes) + Emitted(s, code)
  {
    if codes == [] {
      assert (codes + [code])[1..] == [];
    } else {
      assert (codes + [code])[1..] == codes[1..] + [code];
      ControlVerdictsAppend(s, codes[1..], code);
      ConcatAssociative(Emitted(s, codes[0]), ControlVerdicts(s, codes[1..]), Emitted(s, code));
    }
  }

  // ----- What a verdict means -----

  lemma {:induction false} ControlVerdictsMembers(s: Scan, codes: seq<string>, v: Verdict)
    ensures v in ControlVerdicts(s, codes) <==>
            exists c :: c in codes && !HasFinding(s, c) && ControlVerdict(s, c) == Some(v)
  {
    if codes != [] {
      ControlVerdictsMembers(s, codes[1..], v);
      assert codes == [codes[0]] + codes[1..];
      assert v in Emitted(s, codes[0]) <==> !HasFinding(s, codes[0]) && ControlVerdict(s, codes[0]) == Some(v);
    }
  }

  /** A verdict comes from a finding, or is the one of a control without any. */
  lemma BuiltMembers(s: Scan, v: Verdict)
    ensures v in Built(s) <==>
            || (exists f :: f in s.findings && v == FindingVerdict(s, f))
            || (exists c :: c in s.controls && !HasFinding(s, c) && ControlVerdict(s, c) == Some(v))
  {
    ControlVerdictsMembers(s, Ordered(s.controls.Keys), v);
    assert forall c :: c in Ordered(s.controls.Keys) <==> c in Elements(Ordered(s.controls.Keys));
    var fs := FindingVerdicts(s);
    if v in fs {
      var i :| 0 <= i < |fs| && fs[i] == v;
      assert s.findings[i] in s.findings;
    }
    if f :| f in s.findings && v == FindingVerdict(s, f) {
      var i :| 0 <= i < |s.findings| && s.findings[i] == f;
      assert fs[i] == v;
    }
  }

  /** A pass means: no finding of any kind, a declared control that is not ruled out, a
      verified contract, a type that is there, and on every deciding type the deciding data. */
  lemma PassIsUnlocked(s: Scan, v: Verdict)
    requires v in Built(s) && v.status == Pass
    ensures v.control in s.controls && !HasFinding(s, v.control)
    ensures Declared(s, v.control) && !DeclaredNA(s, v.control)
    ensures Unlocked(s, v.control) && v.subject == s.target
  {
    BuiltMembers(s, v);
  }

  /** Conversely such a control does pass, so the lock is exact. */
  lemma UnlockedPasses(s: Scan, code: string)
    requires code in s.controls && !HasFinding(s, code) && Declared(s, code) && !DeclaredNA(s, code)
             && Unlocked(s, code)
    ensures exists v :: v in Built(s) && v.control == code && v.status == Pass
  {
    var v := ControlVerdict(s, code).value;
    assert ControlVerdict(s, code) == Some(v);
    BuiltMembers(s, v);
  }

  /** Each finding has its line, in order; the line is a deviation exactly when the rule
      decided and the correlation holds. */
  lemma FindingsStayVisible(s: Scan, i: nat)
    requires i < |s.findings|
    ensures i < |Built(s)|
    ensures Built(s)[i].control == s.findings[i].code && Built(s)[i].subject == s.findings[i].subject
    ensures Built(s)[i].status == Fail || Built(s)[i].status == NotEvaluated
    ensures Built(s)[i].status == Fail <==> !Inconclusive(s.findings[i]) && !CorrelationBroken(s, s.findings[i].code)
    ensures Built(s)[i].status == Fail ==> Built(s)[i].evidence.observed == Deviation(s.findings[i].message)
    ensures Built(s)[i].labels == s.findings[i].labels
    ensures s.findings[i].severity != "" ==> Built(s)[i].severity == s.findings[i].severity
  {
  }

  /** The controls that get a line of their own. */
  ghost function Quiet(s: Scan): set<string> {
    set c | c in s.controls && !HasFinding(s, c) && (DeclaredNA(s, c) || Declared(s, c))
  }

  ghost function QuietAmong(s: Scan, codes: seq<string>): set<string> {
    set c | c in codes && !HasFinding(s, c) && (DeclaredNA(s, c) || Declared(s, c))
  }

  lemma QuietStep(s: Scan, codes: seq<string>)
    requires codes != []
    ensures QuietAmong(s, codes) ==
            QuietAmong(s, codes[1..]) + if Emitted(s, codes[0]) == [] then {} else {codes[0]}
  {
  }

  lemma {:induction false} ControlVerdictsCount(s: Scan, codes: seq<string>)
    requires Distinct(codes)
    ensures |ControlVerdicts(s, codes)| == |QuietAmong(s, codes)|
  {
    if codes != [] {
      ControlVerdictsCount(s, codes[1..]);
      QuietStep(s, codes);
      assert codes[0] !in codes[1..];
    }
  }

  /** Nothing is dropped and nothing is invented: one line per finding, and one per control
      without finding that is declared here or justified as not applicable. */
  lemma BuiltCount(s: Scan)
    ensures |Built(s)| == |s.findings| + |Quiet(s)|
  {
    var codes := Ordered(s.controls.Keys);
    ControlVerdictsCount(s, codes);
    assert forall c :: c in codes <==> c in Elements(codes);
    assert Quiet(s) == QuietAmong(s, codes);
  }
}
