/** What the comparison of two bundles reports, said from the two lists it is given
    (internal/assess/diff.go). */
module Comparison {
  import opened Order
  import opened Model
  import opened Assess
  import opened KeyedDiff
  import opened Diff

  // ----- Verdicts -----

  /** The list holds a verdict of this control and subject, with this status. */
  ghost predicate Concludes(vs: seq<Verdict>, control: string, subject: string, s: Status) {
    exists v :: v in vs && v.control == control && v.subject == subject && v.status == s
  }

  ghost predicate Silent(vs: seq<Verdict>, control: string, subject: string) {
    forall v :: v in vs ==> v.control != control || v.subject != subject
  }

  predicate Seen(s: Status) {
    s == Pass || s == Fail || s == NotApplicable || s == Exempted || s.OtherStatus?
  }

  /** The change a pair must be reported with, if any: from the statuses it has on each side. */
  ghost predicate ChangeDue(before: seq<Verdict>, after: seq<Verdict>, c: ResultChange) {
    var control, subject := c.key.control, c.key.subject;
    match c.kind
    case Added =>
      Silent(before, control, subject) && Concludes(after, control, subject, c.after) && c.before == OtherStatus("")
    case Removed =>
      Concludes(before, control, subject, c.before) && Silent(after, control, subject) && c.after == OtherStatus("")
    case _ =>
      && Concludes(before, control, subject, c.before) && Concludes(after, control, subject, c.after)
      && c.before != c.after
      && (c.kind == Fixed <==> c.before == Fail && c.after == Pass)
      && (c.kind == Regressed <==> c.before == Pass && c.after == Fail)
      && (c.kind == VisibilityLost <==> Seen(c.before) && !Seen(c.after))
      && (c.kind == VisibilityRestored <==> !Seen(c.before) && Seen(c.after))
  }

  lemma StatusesSay(vs: seq<Verdict>, k: ResultKey)
    requires Indexable(vs)
    ensures k in Statuses(vs) ==> Concludes(vs, k.control, k.subject, Statuses(vs)[k])
    ensures forall s :: Concludes(vs, k.control, k.subject, s) ==> k in Statuses(vs) && Statuses(vs)[k] == s
    ensures k !in Statuses(vs) <==> Silent(vs, k.control, k.subject)
  {
    StatusKeys(vs, k);
    if i: nat :| i < |vs| && KeyOf(vs[i]) == k {
      StatusOf(vs, i);
      assert vs[i] in vs && vs[i].control == k.control && vs[i].subject == k.subject;
    }
    forall s | Concludes(vs, k.control, k.subject, s) ensures k in Statuses(vs) && Statuses(vs)[k] == s {
      var v :| v in vs && v.control == k.control && v.subject == k.subject && v.status == s;
      var i: nat :| i < |vs| && vs[i] == v;
      assert KeyOf(vs[i]) == k;
      StatusOf(vs, i);
    }
    forall v | v in vs && k !in Statuses(vs) ensures v.control != k.control || v.subject != k.subject {
      var i: nat :| i < |vs| && vs[i] == v;
      assert KeyOf(vs[i]) == ResultKey(v.control, v.subject);
    }
  }

  lemma KindSays(b: Status, a: Status)
    requires b != a
    ensures var k := ResultChangeKind(b, a);
            && k != Added && k != Removed
            && (k == Fixed <==> b == Fail && a == Pass) && (k == Regressed <==> b == Pass && a == Fail)
            && (k == VisibilityLost <==> Seen(b) && !Seen(a)) && (k == VisibilityRestored <==> !Seen(b) && Seen(a))
  {
  }

  lemma DueIsReported(before: seq<Verdict>, after: seq<Verdict>, c: ResultChange)
    requires Indexable(before) && Indexable(after)
    ensures var b, a := Statuses(before), Statuses(after);
            ChangeDue(before, after, c) <==> Get(b, c.key) != Get(a, c.key) && c == ChangeAt(b, a, c.key)
  {
    StatusesSay(before, c.key);
    StatusesSay(after, c.key);
    if c.key in Statuses(before) && c.key in Statuses(after)
       && Statuses(before)[c.key] != Statuses(after)[c.key] {
      KindSays(Statuses(before)[c.key], Statuses(after)[c.key]);
      if ChangeDue(before, after, c) && c.kind != Added && c.kind != Removed {
        SameKind(Statuses(before)[c.key], Statuses(after)[c.key], c.kind);
      }
    }
  }

  /** These conditions leave one kind. */
  lemma SameKind(b: Status, a: Status, k: Kind)
    requires b != a && k != Added && k != Removed
    requires (k == Fixed <==> b == Fail && a == Pass) && (k == Regressed <==> b == Pass && a == Fail)
    requires (k == VisibilityLost <==> Seen(b) && !Seen(a)) && (k == VisibilityRestored <==> !Seen(b) && Seen(a))
    ensures k == ResultChangeKind(b, a)
  {
    KindSays(b, a);
  }

  /** The changes reported are exactly those due, by control and then by subject, each pair once. */
  lemma ChangesReported(before: seq<Verdict>, after: seq<Verdict>)
    requires Indexable(before) && Indexable(after)
    ensures var changes := ResultChanges(Statuses(before), Statuses(after));
            && (forall c :: c in changes <==> ChangeDue(before, after, c))
            && forall i, j :: 0 <= i < j < |changes| ==>
                 var k, l := changes[i].key, changes[j].key;
                 k != l && if k.control != l.control then StrLe(k.control, l.control) else StrLe(k.subject, l.subject)
  {
    var b, a := Statuses(before), Statuses(after);
    var changes := ResultChanges(b, a);
    ResultChangesExactly(b, a);
    forall c ensures c in changes <==> ChangeDue(before, after, c) {
      DueIsReported(before, after, c);
    }
    forall i, j | 0 <= i < j < |changes|
      ensures var k, l := changes[i].key, changes[j].key;
              k != l && if k.control != l.control then StrLe(k.control, l.control) else StrLe(k.subject, l.subject)
    {
      assert KeyLe(ResultOrder(changes[i].key), ResultOrder(changes[j].key));
      PairOrder(changes[i].key.control, changes[i].key.subject, changes[j].key.control, changes[j].key.subject);
    }
  }

  // ----- Resources -----

  ghost predicate Holds(rs: seq<Resource>, k: ResourceKey) {
    exists r :: r in rs && r.provider == k.provider && r.typ == k.typ && r.id == k.id
  }

  lemma RosterSays(rs: seq<Resource>, k: ResourceKey)
    ensures k in Roster(rs) <==> Holds(rs, k)
  {
    RosterKeys(rs, k);
    if i: nat :| i < |rs| && ResourceKeyOf(rs[i]) == k {
      assert rs[i] in rs && rs[i].provider == k.provider;
    }
    if r :| r in rs && r.provider == k.provider && r.typ == k.typ && r.id == k.id {
      var i: nat :| i < |rs| && rs[i] == r;
      assert ResourceKeyOf(rs[i]) == k;
    }
  }

  /** A resource is reported as added when only the second inventory holds its provider, type and
      identifier, as removed when only the first does, and not at all otherwise. */
  lemma MovesReported(before: seq<Resource>, after: seq<Resource>, k: ResourceKey)
    ensures ResourceChange(k, true) in ResourceChanges(Roster(before), Roster(after)) <==>
              Holds(after, k) && !Holds(before, k)
    ensures ResourceChange(k, false) in ResourceChanges(Roster(before), Roster(after)) <==>
              Holds(before, k) && !Holds(after, k)
  {
    RosterSays(before, k);
    RosterSays(after, k);
    ResourceChangesExactly(Roster(before), Roster(after), k);
  }
}
