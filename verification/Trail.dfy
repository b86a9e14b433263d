/** What a line of the report says at the end of the passes, said of the line it was built as and
    of the data (cmd/scan.go): which pass has the last word on its reason. */
module Trail {
  import opened Wrappers
  import opened Model
  import opened CollectionState
  import opened Inventory
  import opened ProvenanceIndex
  import opened Assess
  import opened Passes
  import opened Exempt
  import opened Pipeline
  import opened Reference
  import opened Annotations

  predicate IsRelaxed(relax: map<string, seq<string>>, c: string) {
    c in relax && relax[c] != []
  }

  /** The reason under the mention of a relaxation, if there is one. */
  function ReasonUnder(relaxed: bool, r: Reason): Reason {
    if relaxed && r.UnderRelaxation? then r.reason else r
  }

  /** What one verdict says once it was annotated, requalified and degraded. */
  ghost predicate Judges(t: Tables, idx: Index, d: map<string, Unit>, grants: map<string, string>, b: Verdict,
                         v: Verdict, s: Status) {
    var c, r := b.control, v.evidence.observed;
    && v.(status := b.status, evidence := b.evidence) == b
    && if s == NotEvaluated && c in d then
         r == IncompleteCollection(d[c], if d[c].name in grants then grants[d[c].name] else "")
       else if s == NotEvaluated && b.status == Fail then
         c in t.absence && r == NeverSought(UnsoughtPairs(t.absence[c], idx))
       else r == b.evidence.observed
  }

  lemma Annotating(t: Tables, idx: Index, b: Verdict, v: Verdict)
    requires v == Annotate(t, idx, b)
    ensures v.(evidence := b.evidence) == b && v.evidence.observed == b.evidence.observed
  {
  }

  lemma Requalifying(t: Tables, idx: Index, b: Verdict, v: Verdict)
    requires v == Requalify(t, idx, b)
    ensures v == b || (b.status == Fail && b.control in t.absence && v.status == NotEvaluated
                       && v.(status := b.status, evidence := b.evidence) == b
                       && v.evidence.observed == NeverSought(UnsoughtPairs(t.absence[b.control], idx)))
  {
  }

  lemma UpToCollection(t: Tables, idx: Index, d: map<string, Unit>, grants: map<string, string>, b: Verdict, v: Verdict)
    requires v == DegradeOne(d, grants, Requalify(t, idx, Annotate(t, idx, b)))
    ensures Judges(t, idx, d, grants, b, v, v.status)
  {
    Annotating(t, idx, b, Annotate(t, idx, b));
    Requalifying(t, idx, Annotate(t, idx, b), Requalify(t, idx, Annotate(t, idx, b)));
    IncompletenessShown(d, grants, Requalify(t, idx, Annotate(t, idx, b)));
  }

  /** The policy and the relaxations leave the reason, and what is not evaluated stays so. */
  lemma FromCollectionOn(pol: seq<Exemption>, k: Context, known: set<string>, relax: map<string, seq<string>>,
                         v: Verdict, f: Verdict)
    requires f == RelaxOne(relax, ApplyOne(pol, k, known, v))
    ensures var relaxed := IsRelaxed(relax, v.control);
            && f.control == v.control && f.remediation == v.remediation
            && f.references == (if relaxed then [] else v.references)
            && (if relaxed then f.evidence.observed == UnderRelaxation(v.evidence.observed, relax[v.control])
                else f.evidence.observed == v.evidence.observed)
            && (f.status == v.status || (v.status == Fail && f.status == Exempted))
            && (f.status != Exempted ==> f.waiver == v.waiver)
  {
  }

  lemma ThroughThePasses(u: Setup, views: seq<View>, incomplete: map<string, Unit>, subjects: set<string>, i: nat,
                         known: set<string>)
    requires i < |Final(u, views, incomplete, subjects)|
    requires known == Exempt.Known(ContextOf(u, subjects), AfterCollection(u, views, incomplete))
    ensures i < |Built(ScanOf(u, views))|
    ensures Final(u, views, incomplete, subjects)[i] ==
            RelaxOne(u.relax, ApplyOne(u.policy, ContextOf(u, subjects), known,
                                       DegradeOne(DegradedBy(u, incomplete), u.grants,
                                                  Requalify(u.tables, IndexOf(views),
                                                            Annotate(u.tables, IndexOf(views),
                                                                     Built(ScanOf(u, views))[i])))))
  {
    SameLength(u, views, incomplete, subjects);
  }

  /** A control of this provider that depends on what was not read. */
  ghost predicate FallsShort(u: Setup, log: seq<Unit>, c: string) {
    && c in u.controls && !Justified(u, c) && u.provider in u.controls[c].providers && ReadsUnread(u, log, c)
  }

  lemma ShortSeen(u: Setup, log: seq<Unit>, units: seq<Unit>, c: string)
    requires IsMerge(log, units)
    ensures c in DegradedBy(u, IncompleteMap(units)) <==> FallsShort(u, log, c)
  {
    if c in ScopeOf(u) {
      UnreadSeen(u, log, units, c);
    }
  }

  /** What each line of the report says at the end. A line that is not evaluated names the unit that
      was not read, if its control depends on one; otherwise the absences it rested on, if it was a
      deviation; every other line keeps its reason. A relaxed control qualifies it and loses its
      references. */
  lemma LineAtTheEnd(u: Setup, rs: seq<Resource>, log: seq<Unit>, units: seq<Unit>, subjects: set<string>, i: nat,
                     final: seq<Verdict>, b: Verdict)
    requires final == Final(u, ViewsOf(Typed(rs)), IncompleteMap(units), subjects) && IsMerge(log, units)
    requires i < |final| && i < |Built(ScanOf(u, ViewsOf(Typed(rs))))| && b == Built(ScanOf(u, ViewsOf(Typed(rs))))[i]
    ensures var f, c, relaxed := final[i], b.control, IsRelaxed(u.relax, b.control);
            var r := ReasonUnder(relaxed, f.evidence.observed);
            && (relaxed ==> f.evidence.observed == UnderRelaxation(r, u.relax[c]))
            && (if f.status == NotEvaluated && FallsShort(u, log, c) then
                  r.IncompleteCollection? && r.unit in units && r.unit.attempted && !r.unit.complete
                else if f.status == NotEvaluated && b.status == Fail then
                  r.NeverSought? && c in u.tables.absence
                  && forall a, typ :: (a, typ) in r.pairs <==>
                       typ in u.tables.absence[c] && a in u.tables.absence[c][typ] && NeverAsked(rs, typ, a)
                else r == b.evidence.observed)
            && f.references == (if relaxed then [] else b.references) && f.remediation == b.remediation
            && (f.status != Exempted ==> f.waiver == b.waiver)
  {
    var views := ViewsOf(Typed(rs));
    var idx, d := IndexOf(views), DegradedBy(u, IncompleteMap(units));
    var k := ContextOf(u, subjects);
    var known := Exempt.Known(k, AfterCollection(u, views, IncompleteMap(units)));
    ThroughThePasses(u, views, IncompleteMap(units), subjects, i, known);
    var v := DegradeOne(d, u.grants, Requalify(u.tables, idx, Annotate(u.tables, idx, b)));
    UpToCollection(u.tables, idx, d, u.grants, b, v);
    FromCollectionOn(u.policy, k, known, u.relax, v, final[i]);
    ShortSeen(u, log, units, b.control);
    if b.control in d {
      ChargedUnit(u.tables, units, ScopeOf(u), u.tagged, b.control);
    }
    if b.control in u.tables.absence {
      PairsSeen(u.tables.absence[b.control], rs, idx);
    }
  }
}
