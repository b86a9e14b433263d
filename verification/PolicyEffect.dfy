/** What replaying a scan under another policy of exemptions changes in its verdicts
    (internal/exempt/apply.go, as cmd/verify.go calls it). */
module PolicyEffect {
  import opened Order
  import opened CollectionState
  import opened Inventory
  import opened Assess
  import opened Passes
  import opened Exempt
  import opened Pipeline
  import opened Rederive

  // ----- What another policy changes -----

  /** No deviation that stands is covered by an exemption of this policy. */
  ghost predicate CoversNone(pol: seq<Exemption>, u: Setup, vs: seq<Verdict>) {
    forall v :: v in vs && v.status == Fail ==> !InForce(pol, u.now, u.controls.Keys, v.control, v.subject)
  }

  lemma PolicyAt(u: Setup, pol: seq<Exemption>, views: seq<View>, incomplete: map<string, Unit>, subjects: set<string>,
                 i: nat, f: seq<Verdict>, g: seq<Verdict>)
    requires u.policy == [] && f == Final(u, views, incomplete, subjects)
    requires g == Final(u.(policy := pol), views, incomplete, subjects) && i < |f|
    ensures i < |g|
    ensures g[i].status == if f[i].status == Fail && InForce(pol, u.now, u.controls.Keys, f[i].control, f[i].subject)
                           then Exempted else f[i].status
  {
    SameLength(u, views, incomplete, subjects);
    assert ScanOf(u.(policy := pol), views) == ScanOf(u, views);
    assert DegradedBy(u.(policy := pol), incomplete) == DegradedBy(u, incomplete);
    StatusAt(u, views, incomplete, subjects, i);
    StatusAt(u.(policy := pol), views, incomplete, subjects, i);
  }

  lemma NothingApplied(pol: seq<Exemption>, c: Context, vs: seq<Verdict>)
    requires forall v :: v in vs && v.status == Fail ==> !InForce(pol, c.now, c.controls, v.control, v.subject)
    ensures AppliedAll(pol, c, vs) == vs
  {
    forall i | 0 <= i < |vs| ensures AppliedAll(pol, c, vs)[i] == vs[i] {
      ExemptedExactly(pol, c, vs, i);
    }
  }

  lemma NothingToRelax(relax: map<string, seq<string>>, pol: seq<Exemption>, c: Context, vs: seq<Verdict>)
    requires forall v :: v in RelaxAll(relax, vs) && v.status == Fail ==>
               !InForce(pol, c.now, c.controls, v.control, v.subject)
    ensures forall v :: v in vs && v.status == Fail ==> !InForce(pol, c.now, c.controls, v.control, v.subject)
  {
    forall v | v in vs && v.status == Fail ensures !InForce(pol, c.now, c.controls, v.control, v.subject) {
      var i :| 0 <= i < |vs| && vs[i] == v;
      assert RelaxAll(relax, vs)[i] in RelaxAll(relax, vs);
    }
  }

  /** A policy that covers no deviation that stands changes nothing at all. */
  lemma NoEffect(u: Setup, pol: seq<Exemption>, views: seq<View>, incomplete: map<string, Unit>, subjects: set<string>)
    requires u.policy == [] && CoversNone(pol, u, Final(u, views, incomplete, subjects))
    ensures Final(u.(policy := pol), views, incomplete, subjects) == Final(u, views, incomplete, subjects)
  {
    var c, vs := ContextOf(u, subjects), AfterCollection(u, views, incomplete);
    assert AfterCollection(u.(policy := pol), views, incomplete) == vs;
    NothingApplied([], c, vs);
    NothingToRelax(u.relax, pol, c, vs);
    NothingApplied(pol, c, vs);
  }

  // ----- Failures, counted -----

  function Failures(vs: seq<Verdict>): nat {
    if vs == [] then 0 else (if vs[0].status == Fail then 1 else 0) + Failures(vs[1..])
  }

  lemma {:induction false} FailuresInserted(key: Verdict -> Key, x: Verdict, s: seq<Verdict>)
    ensures Failures(Insert(key, x, s)) == Failures(s) + if x.status == Fail then 1 else 0
  {
    if s != [] && !KeyLe(key(x), key(s[0])) {
      FailuresInserted(key, x, s[1..]);
      assert Insert(key, x, s)[1..] == Insert(key, x, s[1..]);
    } else {
      assert Insert(key, x, s)[1..] == s;
    }
  }

  lemma {:induction false} FailuresSorted(key: Verdict -> Key, s: seq<Verdict>)
    ensures Failures(SortBy(key, s)) == Failures(s)
  {
    if s != [] {
      FailuresSorted(key, s[1..]);
      FailuresInserted(key, s[0], SortBy(key, s[1..]));
    }
  }

  lemma {:induction false} LinesCount(a: seq<Verdict>, b: seq<Verdict>)
    requires Lines(a) == Lines(b)
    ensures Failures(a) == Failures(b)
  {
    assert |a| == |Lines(a)| == |Lines(b)| == |b|;
    if a != [] {
      assert Lines(a)[0] == LineOf(a[0]) && Lines(b)[0] == LineOf(b[0]);
      assert Lines(a[1..]) == Lines(a)[1..] && Lines(b[1..]) == Lines(b)[1..];
      LinesCount(a[1..], b[1..]);
    }
  }

  lemma {:induction false} FewerFailures(a: seq<Verdict>, b: seq<Verdict>)
    requires |a| == |b| && forall i :: 0 <= i < |a| ==> a[i].status == Fail ==> b[i].status == Fail
    ensures Failures(a) <= Failures(b)
    ensures (exists i :: 0 <= i < |a| && a[i].status != Fail && b[i].status == Fail) ==> Failures(a) < Failures(b)
  {
    if a != [] {
      FewerFailures(a[1..], b[1..]);
      if i :| 0 <= i < |a| && a[i].status != Fail && b[i].status == Fail {
        if i > 0 {
          assert a[1..][i - 1].status != Fail && b[1..][i - 1].status == Fail;
        }
      }
    }
  }

  /** Line by line, the deviations a policy covers become exempted and nothing else moves. */
  ghost predicate SetsAside(pol: seq<Exemption>, now: int, controls: set<string>, f: seq<Verdict>, g: seq<Verdict>) {
    && |f| == |g|
    && forall i :: 0 <= i < |f| ==>
         g[i].status == if f[i].status == Fail && InForce(pol, now, controls, f[i].control, f[i].subject)
                        then Exempted else f[i].status
  }

  lemma PolicySetsAside(u: Setup, pol: seq<Exemption>, views: seq<View>, incomplete: map<string, Unit>,
                        subjects: set<string>, f: seq<Verdict>, g: seq<Verdict>)
    requires u.policy == [] && f == Final(u, views, incomplete, subjects)
    requires g == Final(u.(policy := pol), views, incomplete, subjects)
    ensures SetsAside(pol, u.now, u.controls.Keys, f, g)
  {
    SameLength(u, views, incomplete, subjects);
    SameLength(u.(policy := pol), views, incomplete, subjects);
    assert ScanOf(u.(policy := pol), views) == ScanOf(u, views);
    forall i: nat | i < |f|
      ensures g[i].status == if f[i].status == Fail && InForce(pol, u.now, u.controls.Keys, f[i].control, f[i].subject)
                             then Exempted else f[i].status
    {
      PolicyAt(u, pol, views, incomplete, subjects, i, f, g);
    }
  }

  lemma TakenOut(pol: seq<Exemption>, now: int, controls: set<string>, f: seq<Verdict>, g: seq<Verdict>, v: Verdict)
    requires SetsAside(pol, now, controls, f, g)
    requires v in f && v.status == Fail && InForce(pol, now, controls, v.control, v.subject)
    ensures Failures(g) < Failures(f)
  {
    var k :| 0 <= k < |f| && f[k] == v;
    FewerFailures(g, f);
  }

  /** A policy that covers a deviation that stands leaves fewer failures. */
  lemma OneFewer(u: Setup, pol: seq<Exemption>, views: seq<View>, incomplete: map<string, Unit>, subjects: set<string>,
                 f: seq<Verdict>, g: seq<Verdict>)
    requires u.policy == [] && f == Final(u, views, incomplete, subjects)
    requires g == Final(u.(policy := pol), views, incomplete, subjects) && !CoversNone(pol, u, f)
    ensures Failures(g) < Failures(f)
  {
    PolicySetsAside(u, pol, views, incomplete, subjects, f, g);
    var v :| v in f && v.status == Fail && InForce(pol, u.now, u.controls.Keys, v.control, v.subject);
    TakenOut(pol, u.now, u.controls.Keys, f, g, v);
  }
}
