/** The passes that rewrite verdicts after Build (internal/assess: provenance.go,
    attested_absence.go, collection.go, relaxation.go). Each copies the list and rewrites
    it by position. */
module Passes {
  import opened Wrappers
  import opened Order
  import opened CollectionState
  import opened ProvenanceIndex
  import opened Assess

  // ----- Provenance: annotates, decides nothing -----

  /** The deciding attributes of one type the index knows, with their origin. */
  function AttestedOn(idx: Index, t: string, attrs: seq<string>): seq<(string, AttrOrigin)> {
    if attrs == [] then []
    else
      (match At(idx, t, attrs[0]) case Some(o) => [(attrs[0], o)] case None => [])
      + AttestedOn(idx, t, attrs[1..])
  }

  function ConcreteType(t: Tables, code: string, typ: string): string {
    if typ == "" then t.Primary(code) else typ
  }

  /** The same, over the given types of the declaration of a control. */
  function AttestedFor(t: Tables, idx: Index, code: string, types: seq<string>): seq<(string, AttrOrigin)> {
    if types == [] then []
    else
      AttestedFor(t, idx, code, types[..|types| - 1]) + AttestedAs(t, idx, code, types[|types| - 1])
  }

  function AttestedAs(t: Tables, idx: Index, code: string, typ: string): seq<(string, AttrOrigin)> {
    AttestedOn(idx, ConcreteType(t, code, typ), SortStrings(GetOr(t.Required(code), typ, [])))
  }

  ghost function Origins(t: Tables, idx: Index, code: string): seq<(string, AttrOrigin)> {
    AttestedFor(t, idx, code, Ordered(t.Required(code).Keys))
  }

  function Names(pairs: seq<(string, AttrOrigin)>): seq<string> {
    if pairs == [] then [] else [pairs[0].0] + Names(pairs[1..])
  }

  ghost function Annotate(t: Tables, idx: Index, v: Verdict): Verdict {
    var origins := Origins(t, idx, v.control);
    if origins == [] then v
    else v.(evidence := v.evidence.(attributes := Names(origins), origins := origins))
  }

  ghost function Annotated(t: Tables, idx: Index, vs: seq<Verdict>): (out: seq<Verdict>)
    ensures |out| == |vs| && forall i :: 0 <= i < |vs| ==> out[i] == Annotate(t, idx, vs[i])
  {
    seq(|vs|, i requires 0 <= i < |vs| => Annotate(t, idx, vs[i]))
  }

  lemma AttestedStep(t: Tables, idx: Index, code: string, types: seq<string>, i: nat)
    requires i < |types|
    ensures AttestedFor(t, idx, code, types[..i + 1]) ==
              AttestedFor(t, idx, code, types[..i]) + AttestedAs(t, idx, code, types[i])
  {
    assert types[..i + 1][..i] == types[..i];
  }

  method OriginsOf(t: Tables, idx: Index, code: string) returns (out: seq<(string, AttrOrigin)>)
    ensures out == Origins(t, idx, code)
  {
    var types := SortedSet(t.Required(code).Keys);
    out := [];
    for i := 0 to |types|
      invariant out == AttestedFor(t, idx, code, types[..i])
    {
      AttestedStep(t, idx, code, types, i);
      out := out + AttestedAs(t, idx, code, types[i]);
    }
    assert types[..|types|] == types;
  }

  method WithProvenance(t: Tables, idx: Index, vs: seq<Verdict>) returns (out: seq<Verdict>)
    ensures out == Annotated(t, idx, vs)
  {
    if idx == map[] {
      forall i | 0 <= i < |vs| ensures Annotate(t, idx, vs[i]) == vs[i] {
        NothingAttested(t, vs[i].control, Ordered(t.Required(vs[i].control).Keys));
      }
      return vs;
    }
    out := vs;
    for i := 0 to |vs|
      invariant |out| == |vs|
      invariant forall j :: 0 <= j < i ==> out[j] == Annotate(t, idx, vs[j])
      invariant forall j :: i <= j < |vs| ==> out[j] == vs[j]
    {
      var origins := OriginsOf(t, idx, out[i].control);
      if origins != [] {
        out := out[i := out[i].(evidence := out[i].evidence.(attributes := Names(origins), origins := origins))];
      }
    }
  }

  lemma {:induction false} NothingAttestedOn(t: string, attrs: seq<string>)
    ensures AttestedOn(map[], t, attrs) == []
  {
    if attrs != [] {
      NothingAttestedOn(t, attrs[1..]);
    }
  }

  lemma {:induction false} NothingAttested(t: Tables, code: string, types: seq<string>)
    ensures AttestedFor(t, map[], code, types) == []
  {
    if types != [] {
      var typ := types[|types| - 1];
      NothingAttestedOn(ConcreteType(t, code, typ), SortStrings(GetOr(t.Required(code), typ, [])));
      NothingAttested(t, code, types[..|types| - 1]);
    }
  }

  // ----- Attested absence: withdraws deviations nobody looked for -----

  predicate WasSought(idx: Index, t: string) {
    t in idx && idx[t] != map[]
  }

  /** A field the deviation depends on was never sought on a type whose other fields were. */
  ghost predicate UnattestedAbsence(byType: map<string, seq<string>>, idx: Index) {
    exists t, a :: t in byType && a in byType[t] && WasSought(idx, t) && a !in idx[t]
  }

  function UnsoughtOn(idx: Index, t: string, attrs: seq<string>): seq<(string, string)> {
    if attrs == [] then []
    else (if WasSought(idx, t) && attrs[0] !in idx[t] then [(attrs[0], t)] else []) + UnsoughtOn(idx, t, attrs[1..])
  }

  function UnsoughtAs(byType: map<string, seq<string>>, idx: Index, typ: string): seq<(string, string)> {
    UnsoughtOn(idx, typ, SortStrings(GetOr(byType, typ, [])))
  }

  function Unsought(byType: map<string, seq<string>>, idx: Index, types: seq<string>): seq<(string, string)> {
    if types == [] then []
    else Unsought(byType, idx, types[..|types| - 1]) + UnsoughtAs(byType, idx, types[|types| - 1])
  }

  ghost function UnsoughtPairs(byType: map<string, seq<string>>, idx: Index): seq<(string, string)> {
    Unsought(byType, idx, Ordered(byType.Keys))
  }

  lemma {:induction false} UnsoughtOnEmpty(idx: Index, t: string, attrs: seq<string>)
    ensures UnsoughtOn(idx, t, attrs) != [] <==> exists a :: a in attrs && WasSought(idx, t) && a !in idx[t]
  {
    if attrs != [] {
      UnsoughtOnEmpty(idx, t, attrs[1..]);
      assert attrs == [attrs[0]] + attrs[1..];
    }
  }

  lemma UnsoughtAsEmpty(byType: map<string, seq<string>>, idx: Index, t: string)
    requires t in byType
    ensures UnsoughtAs(byType, idx, t) != [] <==> exists a :: a in byType[t] && WasSought(idx, t) && a !in idx[t]
  {
    UnsoughtOnEmpty(idx, t, SortStrings(byType[t]));
    SortedElements(byType[t]);
    assert forall a :: a in SortStrings(byType[t]) <==> a in Elements(SortStrings(byType[t]));
    assert forall a :: a in byType[t] <==> a in Elements(byType[t]);
  }

  lemma {:induction false} UnsoughtEmpty(byType: map<string, seq<string>>, idx: Index, types: seq<string>)
    requires forall t :: t in types ==> t in byType
    ensures Unsought(byType, idx, types) != [] <==>
            exists t, a :: t in types && t in byType && a in byType[t] && WasSought(idx, t) && a !in idx[t]
  {
    if types != [] {
      var rest := types[..|types| - 1];
      assert types == rest + [types[|types| - 1]];
      UnsoughtAsEmpty(byType, idx, types[|types| - 1]);
      UnsoughtEmpty(byType, idx, rest);
    }
  }

  lemma UnsoughtExactly(byType: map<string, seq<string>>, idx: Index)
    ensures UnsoughtPairs(byType, idx) != [] <==> UnattestedAbsence(byType, idx)
  {
    var types := Ordered(byType.Keys);
    assert forall t :: t in types <==> t in Elements(types);
    UnsoughtEmpty(byType, idx, types);
  }

  lemma UnsoughtStep(byType: map<string, seq<string>>, idx: Index, types: seq<string>, i: nat)
    requires i < |types|
    ensures Unsought(byType, idx, types[..i + 1]) ==
              Unsought(byType, idx, types[..i]) + UnsoughtAs(byType, idx, types[i])
  {
    assert types[..i + 1][..i] == types[..i];
  }

  method NeverSoughtPairs(byType: map<string, seq<string>>, idx: Index) returns (out: seq<(string, string)>)
    ensures out == UnsoughtPairs(byType, idx)
  {
    var types := SortedSet(byType.Keys);
    out := [];
    for i := 0 to |types|
      invariant out == Unsought(byType, idx, types[..i])
    {
      UnsoughtStep(byType, idx, types, i);
      out := out + UnsoughtAs(byType, idx, types[i]);
    }
    assert types[..|types|] == types;
  }

  /** The absence the deviation was inferred from is not an observation. */
  ghost predicate NotAttested(t: Tables, idx: Index, code: string) {
    code in t.absence && UnattestedAbsence(t.absence[code], idx)
  }

  ghost function Requalify(t: Tables, idx: Index, v: Verdict): Verdict {
    if v.status == Fail && NotAttested(t, idx, v.control)
    then v.(status := NotEvaluated,
            evidence := v.evidence.(observed := NeverSought(UnsoughtPairs(t.absence[v.control], idx))))
    else v
  }

  ghost function Requalified(t: Tables, idx: Index, vs: seq<Verdict>): (out: seq<Verdict>)
    ensures |out| == |vs| && forall i :: 0 <= i < |vs| ==> out[i] == Requalify(t, idx, vs[i])
  {
    seq(|vs|, i requires 0 <= i < |vs| => Requalify(t, idx, vs[i]))
  }

  method RequalifyVerdict(t: Tables, idx: Index, v: Verdict) returns (out: Verdict)
    ensures out == Requalify(t, idx, v)
  {
    if v.status != Fail || v.control !in t.absence {
      return v;
    }
    var pairs := NeverSoughtPairs(t.absence[v.control], idx);
    UnsoughtExactly(t.absence[v.control], idx);
    if pairs == [] {
      return v;
    }
    return v.(status := NotEvaluated, evidence := v.evidence.(observed := NeverSought(pairs)));
  }

  lemma NothingSoughtKeeps(t: Tables, v: Verdict)
    ensures Requalify(t, map[], v) == v
  {
  }

  method WithAttestedAbsence(t: Tables, idx: Index, vs: seq<Verdict>) returns (out: seq<Verdict>)
    ensures out == Requalified(t, idx, vs)
  {
    if idx == map[] {
      forall i | 0 <= i < |vs| ensures Requalify(t, idx, vs[i]) == vs[i] {
        NothingSoughtKeeps(t, vs[i]);
      }
      return vs;
    }
    out := vs;
    for i := 0 to |vs|
      invariant |out| == |vs|
      invariant forall j :: 0 <= j < i ==> out[j] == Requalify(t, idx, vs[j])
      invariant forall j :: i <= j < |vs| ==> out[j] == vs[j]
    {
      var next := RequalifyVerdict(t, idx, out[i]);
      out := out[i := next];
    }
  }

  // ----- Degradation by incomplete collection -----

  const REQUIRED_TAGS := "governance_resource_required_tags"

  /** Every type a control reads; the tagging control reads the types the configuration names. */
  function TypesRead(t: Tables, code: string, tagged: seq<string>): seq<string> {
    if code == REQUIRED_TAGS then tagged else t.ControlTypes(code)
  }

  function FirstUnread(types: seq<string>, incomplete: map<string, Unit>): (r: Option<Unit>)
    ensures r.Some? <==> exists t :: t in types && t in incomplete
    ensures r.Some? ==> exists t :: t in types && t in incomplete && r.value == incomplete[t]
  {
    if types == [] then None
    else if types[0] in incomplete then Some(incomplete[types[0]])
    else
      assert types == [types[0]] + types[1..];
      FirstUnread(types[1..], incomplete)
  }

  function Degraded(t: Tables, incomplete: map<string, Unit>, scope: set<string>,
                    tagged: seq<string>): map<string, Unit> {
    map c | c in scope && FirstUnread(TypesRead(t, c, tagged), incomplete).Some?
      :: FirstUnread(TypesRead(t, c, tagged), incomplete).value
  }

  /** The controls this scan could have concluded on, each with the incomplete unit it
      depends on. */
  method DegradedControls(t: Tables, coll: Collection, scope: set<string>, tagged: seq<string>)
    returns (out: map<string, Unit>)
    ensures out == Degraded(t, IncompleteMap(coll.units), scope, tagged)
  {
    out := map[];
    var incomplete := coll.IncompleteTypes();
    if incomplete == map[] {
      return;
    }
    var todo := scope;
    while todo != {}
      invariant todo <= scope
      invariant forall c :: c in out <==>
                  c in scope && c !in todo && FirstUnread(TypesRead(t, c, tagged), incomplete).Some?
      invariant forall c :: c in out ==> out[c] == FirstUnread(TypesRead(t, c, tagged), incomplete).value
      decreases todo
    {
      var code :| code in todo;
      todo := todo - {code};
      var unit := FirstUnread(TypesRead(t, code, tagged), incomplete);
      if unit.Some? {
        out := out[code := unit.value];
      }
    }
  }

  function DegradeOne(degraded: map<string, Unit>, grants: map<string, string>, v: Verdict): Verdict {
    if v.control !in degraded then v
    else
      var unit := degraded[v.control];
      var reason := IncompleteCollection(unit, GetOr(grants, unit.name, ""));
      if v.status == Pass then v.(status := NotEvaluated, evidence := v.evidence.(observed := reason))
      else if v.status == NotEvaluated then v.(evidence := v.evidence.(observed := reason))
      else v
  }

  function DegradeAll(degraded: map<string, Unit>, grants: map<string, string>, vs: seq<Verdict>): (out: seq<Verdict>)
    ensures |out| == |vs| && forall i :: 0 <= i < |vs| ==> out[i] == DegradeOne(degraded, grants, vs[i])
  {
    seq(|vs|, i requires 0 <= i < |vs| => DegradeOne(degraded, grants, vs[i]))
  }

  function CountPass(vs: seq<Verdict>): nat {
    if vs == [] then 0 else CountPass(vs[..|vs| - 1]) + if vs[|vs| - 1].status == Pass then 1 else 0
  }

  method DegradeVerdict(degraded: map<string, Unit>, grants: map<string, string>, v: Verdict)
    returns (out: Verdict, withdrawn: nat)
    ensures out == DegradeOne(degraded, grants, v)
    ensures withdrawn == if v.status == Pass && out.status != Pass then 1 else 0
    ensures out.status == Pass ==> v.status == Pass
  {
    out, withdrawn := v, 0;
    if v.control in degraded {
      var unit := degraded[v.control];
      var reason := IncompleteCollection(unit, GetOr(grants, unit.name, ""));
      match v.status {
        case Pass =>
          out := v.(status := NotEvaluated, evidence := v.evidence.(observed := reason));
          withdrawn := 1;
        case NotEvaluated =>
          out := v.(evidence := v.evidence.(observed := reason));
        case _ =>
      }
    }
  }

  lemma CountPassStep(vs: seq<Verdict>, i: nat)
    requires i < |vs|
    ensures CountPass(vs[..i + 1]) == CountPass(vs[..i]) + if vs[i].status == Pass then 1 else 0
  {
    assert vs[..i + 1][..i] == vs[..i];
  }

  /** Returns the rewritten verdicts and what the incomplete collection cost in certainty:
      the number of passes withdrawn. */
  method Degrade(degraded: map<string, Unit>, grants: map<string, string>, vs: seq<Verdict>)
    returns (out: seq<Verdict>, withdrawn: nat)
    ensures out == DegradeAll(degraded, grants, vs)
    ensures withdrawn == CountPass(vs) - CountPass(out)
  {
    if degraded == map[] {
      return vs, 0;
    }
    out, withdrawn := vs, 0;
    for i := 0 to |vs|
      invariant |out| == |vs|
      invariant forall j :: 0 <= j < i ==> out[j] == DegradeOne(degraded, grants, vs[j])
      invariant forall j :: i <= j < |vs| ==> out[j] == vs[j]
      invariant withdrawn == CountPass(vs[..i]) - CountPass(out[..i])
    {
      var next, n := DegradeVerdict(degraded, grants, out[i]);
      ghost var before := out;
      out := out[i := next];
      withdrawn := withdrawn + n;
      assert out[..i] == before[..i];
      CountPassStep(out, i);
      CountPassStep(vs, i);
    }
    assert out[..|vs|] == out && vs[..|vs|] == vs;
  }

  // ----- Relaxed configuration -----

  function Join(parts: seq<string>, sep: string): string {
    if parts == [] then ""
    else if |parts| == 1 then parts[0]
    else parts[0] + sep + Join(parts[1..], sep)
  }

  function ReferenceNames(refs: seq<Reference>): (out: seq<string>)
    ensures |out| == |refs|
  {
    seq(|refs|, i requires 0 <= i < |refs| => refs[i].framework + ":" + refs[i].id)
  }

  const LABEL_RELAXED := "config_relaxed"
  const LABEL_RELAXED_DETAIL := "config_relaxed_detail"
  const LABEL_REFERENCES_DROPPED := "references_dropped"

  /** relax gives, for each relaxed control, the settings in question. */
  function RelaxOne(relax: map<string, seq<string>>, v: Verdict): Verdict {
    var details := GetOr(relax, v.control, []);
    if details == [] then v
    else
      var labels := v.labels[LABEL_RELAXED := "true"][LABEL_RELAXED_DETAIL := Join(details, " · ")];
      v.(references := [],
         labels := if v.references == [] then labels
                   else labels[LABEL_REFERENCES_DROPPED := Join(SortStrings(ReferenceNames(v.references)), ", ")],
         evidence := v.evidence.(observed := UnderRelaxation(v.evidence.observed, details)))
  }

  function RelaxAll(relax: map<string, seq<string>>, vs: seq<Verdict>): (out: seq<Verdict>)
    ensures |out| == |vs| && forall i :: 0 <= i < |vs| ==> out[i] == RelaxOne(relax, vs[i])
  {
    seq(|vs|, i requires 0 <= i < |vs| => RelaxOne(relax, vs[i]))
  }

  method RelaxVerdict(relax: map<string, seq<string>>, v: Verdict) returns (out: Verdict)
    ensures out == RelaxOne(relax, v)
  {
    var details := GetOr(relax, v.control, []);
    if details == [] {
      return v;
    }
    var dropped := ReferenceNames(v.references);
    var labels := v.labels[LABEL_RELAXED := "true"][LABEL_RELAXED_DETAIL := Join(details, " · ")];
    if |dropped| > 0 {
      labels := labels[LABEL_REFERENCES_DROPPED := Join(SortStrings(dropped), ", ")];
    }
    out := v.(references := [], labels := labels,
              evidence := v.evidence.(observed := UnderRelaxation(v.evidence.observed, details)));
  }

  method WithRelaxations(relax: map<string, seq<string>>, vs: seq<Verdict>) returns (out: seq<Verdict>)
    ensures out == RelaxAll(relax, vs)
  {
    if relax == map[] {
      return vs;
    }
    out := vs;
    for i := 0 to |vs|
      invariant |out| == |vs|
      invariant forall j :: 0 <= j < i ==> out[j] == RelaxOne(relax, vs[j])
      invariant forall j :: i <= j < |vs| ==> out[j] == vs[j]
    {
      var next := RelaxVerdict(relax, out[i]);
      out := out[i := next];
    }
  }

  lemma RelaxedAgain(relax: map<string, seq<string>>, v: Verdict)
    ensures var once := RelaxOne(relax, v);
            var twice := RelaxOne(relax, once);
            && twice.(evidence := once.evidence) == once
            && (twice == once <==> GetOr(relax, v.control, []) == [])
  {
    var once := RelaxOne(relax, v);
    var details := GetOr(relax, v.control, []);
    if details != [] {
      assert |LABEL_RELAXED| == 14 && |LABEL_RELAXED_DETAIL| == 21 && |LABEL_REFERENCES_DROPPED| == 18;
      assert once.labels[LABEL_RELAXED := "true"][LABEL_RELAXED_DETAIL := Join(details, " · ")] == once.labels;
      assert UnderRelaxation(once.evidence.observed, details) != once.evidence.observed;
    }
  }

  /** Applied a second time, the pass changes nothing but the evidence, where it repeats its
      sentence; it changes nothing at all exactly when no verdict is that of a relaxed control. */
  lemma RelaxTwice(relax: map<string, seq<string>>, vs: seq<Verdict>)
    ensures var once, twice := RelaxAll(relax, vs), RelaxAll(relax, RelaxAll(relax, vs));
            && |twice| == |once| == |vs|
            && (forall i :: 0 <= i < |vs| ==> twice[i].(evidence := once[i].evidence) == once[i])
            && (twice == once <==> forall i :: 0 <= i < |vs| ==> GetOr(relax, vs[i].control, []) == [])
  {
    var once, twice := RelaxAll(relax, vs), RelaxAll(relax, RelaxAll(relax, vs));
    forall i | 0 <= i < |vs|
      ensures twice[i].(evidence := once[i].evidence) == once[i]
      ensures twice[i] == once[i] <==> GetOr(relax, vs[i].control, []) == []
    {
      RelaxedAgain(relax, vs[i]);
    }
  }
}
