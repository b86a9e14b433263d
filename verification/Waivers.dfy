/** What an exemptions file does to the verdicts and to the report, exemption by exemption, said
    from the file, the verdicts and the instant alone (internal/exempt). */
module Waivers {
  import opened Wrappers
  import opened Order
  import opened Model
  import opened Inventory
  import opened Assess
  import opened Exempt
  import opened Reference

  // ----- What can be named -----

  /** The subjects an exemption may name: every identifier and name of a resource, and the target. */
  lemma SubjectsSay(rs: seq<Resource>, target: string, s: string)
    ensures s in SubjectsOf(ViewsOf(Typed(rs)), target) <==>
              s != "" && (s == target || exists r :: r in rs && (r.id == s || r.name == s))
  {
    var views := ViewsOf(Typed(rs));
    ViewOfEach(rs, views);
    if r :| r in rs && (r.id == s || r.name == s) {
      assert s != "" ==> ViewOfResource(r) in views && s in NamesOf(ViewOfResource(r));
    }
  }

  // ----- What each exemption is -----

  predicate NamesNothing(e: Exemption, c: Context, vs: seq<Verdict>) {
    e.resource != "" && e.resource !in c.subjects && forall v :: v in vs ==> v.subject != e.resource
  }

  /** An exemption of the file that can set something aside. */
  predicate Usable(e: Exemption, c: Context, vs: seq<Verdict>) {
    e.control in c.controls && !NamesNothing(e, c, vs) && StillValid(e.expiresAt.moment, c.now)
  }

  predicate Aims(e: Exemption, v: Verdict) {
    e.control == v.control && (e.resource == "" || e.resource == v.subject)
  }

  /** The first usable exemption of the file that aims at a verdict. */
  predicate FirstFor(pol: seq<Exemption>, c: Context, vs: seq<Verdict>, v: Verdict, k: nat) {
    && k < |pol| && Usable(pol[k], c, vs) && Aims(pol[k], v)
    && forall j :: 0 <= j < k ==> !(Usable(pol[j], c, vs) && Aims(pol[j], v))
  }

  lemma KnownMeans(e: Exemption, c: Context, vs: seq<Verdict>)
    ensures e.resource != "" && e.resource !in Known(c, vs) <==> NamesNothing(e, c, vs)
    ensures Valid(e, c, Known(c, vs)) <==> Usable(e, c, vs)
  {
    ValidityRead(e, c.now);
  }

  // ----- The verdicts -----

  lemma FirstIsMatch(pol: seq<Exemption>, c: Context, vs: seq<Verdict>, v: Verdict, k: nat)
    ensures Match(pol, 0, c, Known(c, vs), v.control, v.subject) == Some(k) <==> FirstFor(pol, c, vs, v, k)
  {
    var known := Known(c, vs);
    MatchIsFirst(pol, 0, c, known, v.control, v.subject);
    forall j | 0 <= j < |pol|
      ensures Valid(pol[j], c, known) && Covers(pol[j], v.control, v.subject) <==>
              Usable(pol[j], c, vs) && Aims(pol[j], v)
    {
      KnownMeans(pol[j], c, vs);
    }
  }

  /** A deviation is set aside by the first usable exemption that aims at it, and carries its
      justification, its dates and its signatures; everything else of the verdict is kept, and a
      verdict no exemption aims at, or that is not a deviation, is kept whole. */
  lemma VerdictAfter(pol: seq<Exemption>, c: Context, vs: seq<Verdict>, i: nat, k: nat)
    requires i < |vs|
    ensures |AppliedAll(pol, c, vs)| == |vs|
    ensures var v, w := vs[i], AppliedAll(pol, c, vs)[i];
            && (v.status == Fail && FirstFor(pol, c, vs, v, k) ==>
                  && w.status == Exempted && w.waiver == Waiver(pol[k].justification, pol[k].expiresAt.text)
                  && w.labels == v.labels["exemption_owner" := pol[k].owner]
                                         ["exemption_approved_by" := pol[k].approvedBy]
                                         ["exemption_expires_at" := pol[k].expiresAt.text]
                  && w.control == v.control && w.subject == v.subject && w.severity == v.severity
                  && w.evidence == v.evidence && w.references == v.references && w.remediation == v.remediation)
            && (v.status != Fail || (forall j: nat :: !FirstFor(pol, c, vs, v, j)) ==> w == v)
  {
    var v := vs[i];
    FirstIsMatch(pol, c, vs, v, k);
    var m := Match(pol, 0, c, Known(c, vs), v.control, v.subject);
    if m.Some? {
      FirstIsMatch(pol, c, vs, v, m.value);
    }
  }

  // ----- The report -----

  /** The record an exemption must have, if any: it names an unknown control, or a resource nobody
      knows, or it has lapsed; or it set these subjects aside. */
  ghost predicate RecordDue(pol: seq<Exemption>, c: Context, vs: seq<Verdict>, k: nat, r: Record)
    requires k < |pol|
  {
    var e := pol[k];
    && r.exemption == e
    && if e.control !in c.controls then r.effect == Orphan && r.cause == NoSuchControl && r.subjects == []
       else if NamesNothing(e, c, vs) then r.effect == Orphan && r.cause == NoSuchResource && r.subjects == []
       else if !StillValid(e.expiresAt.moment, c.now) then r.effect == Expired && r.cause == Lapsed && r.subjects == []
       else
         && r.effect == Applied && r.cause == NoCause && r.subjects != [] && Ascending(r.subjects)
         && forall s :: s in r.subjects <==> exists v :: v in vs && v.subject == s && v.status == Fail
                                                         && FirstFor(pol, c, vs, v, k)
  }

  lemma SubjectsMean(pol: seq<Exemption>, c: Context, vs: seq<Verdict>, k: nat, s: string)
    ensures s in SubjectsFor(pol, c, Known(c, vs), vs, k) <==>
              exists v :: v in vs && v.subject == s && v.status == Fail && FirstFor(pol, c, vs, v, k)
  {
    forall v: Verdict ensures Attributed(pol, c, Known(c, vs), v) == Some(k) <==>
                              v.status == Fail && FirstFor(pol, c, vs, v, k)
    {
      FirstIsMatch(pol, c, vs, v, k);
    }
  }

  lemma RecordIsDue(pol: seq<Exemption>, c: Context, vs: seq<Verdict>, k: nat, r: Record)
    requires k < |pol|
    ensures RecordAt(pol, c, Known(c, vs), vs, k) == Some(r) <==> RecordDue(pol, c, vs, k, r)
  {
    var subjects := SubjectsFor(pol, c, Known(c, vs), vs, k);
    KnownMeans(pol[k], c, vs);
    ValidityRead(pol[k], c.now);
    forall s ensures s in subjects <==>
                     exists v :: v in vs && v.subject == s && v.status == Fail && FirstFor(pol, c, vs, v, k)
    {
      SubjectsMean(pol, c, vs, k, s);
    }
    SubjectList(subjects, r.subjects);
  }

  lemma SubjectList(S: set<string>, s: seq<string>)
    ensures s == Ordered(S) <==> Ascending(s) && forall x :: x in s <==> x in S
    ensures Ordered(S) == [] <==> S == {}
  {
    OrderedEmpty(S);
    assert forall x :: x in s <==> x in Elements(s);
    assert forall x :: x in Ordered(S) <==> x in Elements(Ordered(S));
    if Ascending(s) && forall x :: x in s <==> x in S {
      assert Elements(s) == S;
      AscendingUnique(s, Ordered(S));
    }
  }

  lemma RecordsComeFirst(r: Record, q: Record)
    ensures KeyLe(RecordKey(r), RecordKey(q)) <==>
              if EffectText(r.effect) != EffectText(q.effect) then StrLe(EffectText(r.effect), EffectText(q.effect))
              else if r.exemption.control != q.exemption.control then StrLe(r.exemption.control, q.exemption.control)
              else StrLe(r.exemption.resource, q.exemption.resource)
  {
    TripleOrder(EffectText(r.effect), r.exemption.control, r.exemption.resource,
                EffectText(q.effect), q.exemption.control, q.exemption.resource);
  }

  /** Applied, then expired, then orphan. */
  function Rank(e: Effect): nat {
    match e
    case Applied => 0
    case Expired => 1
    case Orphan => 2
  }

  lemma EffectsInOrder(e: Effect, f: Effect)
    ensures e == f <==> EffectText(e) == EffectText(f)
    ensures StrLe(EffectText(e), EffectText(f)) <==> Rank(e) <= Rank(f)
  {
    assert "applied"[0] == 'a' && "expired"[0] == 'e' && "orphan"[0] == 'o';
    StrLeTotal(EffectText(e), EffectText(f));
  }

  /** The report repeats the file, holds the record each exemption must have and no other, and puts
      what applied first, then what expired, then the orphans, each by control and by resource. */
  lemma ReportHolds(pol: seq<Exemption>, c: Context, vs: seq<Verdict>, rep: Report)
    requires IsReport(pol, c, vs, rep)
    ensures rep.exemptions == pol
    ensures forall k, r :: 0 <= k < |pol| && RecordDue(pol, c, vs, k, r) ==> r in rep.records
    ensures forall r :: r in rep.records ==> exists k :: 0 <= k < |pol| && RecordDue(pol, c, vs, k, r)
    ensures forall i, j :: 0 <= i < j < |rep.records| ==>
              var r, q := rep.records[i], rep.records[j];
              if r.effect != q.effect then Rank(r.effect) < Rank(q.effect)
              else if r.exemption.control != q.exemption.control
              then StrLe(r.exemption.control, q.exemption.control)
              else StrLe(r.exemption.resource, q.exemption.resource)
  {
    forall k: nat, r: Record | k < |pol| && RecordDue(pol, c, vs, k, r) ensures r in rep.records {
      RecordIsDue(pol, c, vs, k, r);
      ReportedRecords(pol, c, vs, rep, r);
    }
    forall r | r in rep.records ensures exists k :: 0 <= k < |pol| && RecordDue(pol, c, vs, k, r) {
      ReportedRecords(pol, c, vs, rep, r);
      var k: nat :| k < |pol| && RecordAt(pol, c, Known(c, vs), vs, k) == Some(r);
      RecordIsDue(pol, c, vs, k, r);
    }
    forall i, j | 0 <= i < j < |rep.records|
      ensures var r, q := rep.records[i], rep.records[j];
              if r.effect != q.effect then Rank(r.effect) < Rank(q.effect)
              else if r.exemption.control != q.exemption.control
              then StrLe(r.exemption.control, q.exemption.control)
              else StrLe(r.exemption.resource, q.exemption.resource)
    {
      RecordsComeFirst(rep.records[i], rep.records[j]);
      EffectsInOrder(rep.records[i].effect, rep.records[j].effect);
    }
  }
}
