/** When the verdicts of a scan can be compared with others: what the passes of a scan
    (cmd/scan.go) promise the comparison of two bundles (internal/assess/diff.go). */
module Comparable {
  import opened Wrappers
  import opened Order
  import opened CollectionState
  import opened Inventory
  import opened Assess
  import opened Sealing
  import opened Pipeline
  import opened Diff

  // ----- Lists with an index -----

  ghost predicate KeyIn(k: ResultKey, vs: seq<Verdict>) {
    exists i :: 0 <= i < |vs| && KeyOf(vs[i]) == k
  }

  lemma IndexableHead(vs: seq<Verdict>)
    requires vs != []
    ensures Indexable(vs) <==> vs[0].control != "" && !KeyIn(KeyOf(vs[0]), vs[1..]) && Indexable(vs[1..])
  {
    var rest := vs[1..];
    assert forall i :: 0 <= i < |rest| ==> rest[i] == vs[i + 1];
    if vs[0].control != "" && !KeyIn(KeyOf(vs[0]), rest) && Indexable(rest) {
      forall i, j | 0 <= i < j < |vs| ensures KeyOf(vs[i]) != KeyOf(vs[j]) {
        assert vs[j] == rest[j - 1];
        assert i > 0 ==> vs[i] == rest[i - 1];
      }
      forall i | 0 <= i < |vs| ensures vs[i].control != "" {
        assert i > 0 ==> vs[i] == rest[i - 1];
      }
    }
  }

  lemma KeyInserted(x: Verdict, s: seq<Verdict>, k: ResultKey)
    ensures KeyIn(k, Insert(SealOrder, x, s)) <==> KeyOf(x) == k || KeyIn(k, s)
  {
    var t := Insert(SealOrder, x, s);
    assert forall v :: v in t <==> v in multiset(t);
    assert forall v :: v in s <==> v in multiset(s);
    assert KeyIn(k, t) <==> exists v :: v in t && KeyOf(v) == k;
    assert KeyIn(k, s) <==> exists v :: v in s && KeyOf(v) == k;
  }

  lemma {:induction false} IndexableInserted(x: Verdict, s: seq<Verdict>)
    ensures Indexable(Insert(SealOrder, x, s)) <==> x.control != "" && !KeyIn(KeyOf(x), s) && Indexable(s)
  {
    var t := Insert(SealOrder, x, s);
    IndexableHead(t);
    if s != [] && !KeyLe(SealOrder(x), SealOrder(s[0])) {
      IndexableInserted(x, s[1..]);
      IndexableHead(s);
      assert t[1..] == Insert(SealOrder, x, s[1..]);
      KeyInserted(x, s[1..], KeyOf(s[0]));
      HeadOrTail(KeyOf(x), s);
    } else {
      assert t[1..] == s;
    }
  }

  lemma HeadOrTail(k: ResultKey, s: seq<Verdict>)
    requires s != []
    ensures KeyIn(k, s) <==> KeyOf(s[0]) == k || KeyIn(k, s[1..])
  {
    if i :| 0 <= i < |s| && KeyOf(s[i]) == k {
      assert i > 0 ==> s[1..][i - 1] == s[i];
    }
    if i :| 0 <= i < |s[1..]| && KeyOf(s[1..][i]) == k {
      assert s[i + 1] == s[1..][i];
    }
  }

  lemma {:induction false} KeysSorted(s: seq<Verdict>, k: ResultKey)
    ensures KeyIn(k, Canonical(s)) <==> KeyIn(k, s)
  {
    if s != [] {
      KeysSorted(s[1..], k);
      KeyInserted(s[0], Canonical(s[1..]), k);
      HeadOrTail(k, s);
    }
  }

  /** Sealing does not change whether a list can be indexed. */
  lemma {:induction false} SealedIsIndexable(s: seq<Verdict>)
    ensures Indexable(Canonical(s)) <==> Indexable(s)
  {
    if s != [] {
      SealedIsIndexable(s[1..]);
      IndexableInserted(s[0], Canonical(s[1..]));
      IndexableHead(s);
      KeysSorted(s[1..], KeyOf(s[0]));
    }
  }

  // ----- The verdicts of a scan -----

  /** Every finding names a control, and no two have the same control and subject. */
  ghost predicate OnePerPair(fs: seq<Finding>) {
    && (forall i :: 0 <= i < |fs| ==> fs[i].code != "")
    && (forall i, j :: 0 <= i < j < |fs| ==> fs[i].code != fs[j].code || fs[i].subject != fs[j].subject)
  }

  lemma {:induction false} ControlsOnce(s: Scan, codes: seq<string>)
    requires Distinct(codes)
    ensures forall v :: v in ControlVerdicts(s, codes) ==> v.control in QuietAmong(s, codes)
    ensures forall i, j :: 0 <= i < j < |ControlVerdicts(s, codes)| ==>
              ControlVerdicts(s, codes)[i].control != ControlVerdicts(s, codes)[j].control
  {
    if codes != [] {
      var head, rest, tail := Emitted(s, codes[0]), ControlVerdicts(s, codes[1..]), codes[1..];
      assert Distinct(tail) && codes[0] !in tail by {
        assert forall i :: 0 <= i < |tail| ==> tail[i] == codes[i + 1];
      }
      ControlsOnce(s, tail);
      QuietStep(s, codes);
      assert ControlVerdicts(s, codes) == head + rest;
      assert forall v :: v in head ==> v.control == codes[0];
    }
  }

  lemma QuietIndexable(s: Scan, quiet: seq<Verdict>)
    requires quiet == ControlVerdicts(s, Ordered(s.controls.Keys))
    ensures forall v :: v in quiet ==> v.control in Quiet(s)
    ensures forall c :: c in Quiet(s) ==> exists v :: v in quiet && v.control == c
    ensures forall i, j :: 0 <= i < j < |quiet| ==> quiet[i].control != quiet[j].control
  {
    var codes := Ordered(s.controls.Keys);
    ControlsOnce(s, codes);
    assert forall c :: c in codes <==> c in Elements(codes);
    forall c | c in Quiet(s) ensures exists v :: v in quiet && v.control == c {
      var v := ControlVerdict(s, c).value;
      ControlVerdictsMembers(s, codes, v);
      assert v in quiet && v.control == c;
    }
  }

  lemma BuiltIndexable(s: Scan)
    ensures Indexable(Built(s)) <==> OnePerPair(s.findings) && "" !in Quiet(s)
  {
    var fs, quiet := FindingVerdicts(s), ControlVerdicts(s, Ordered(s.controls.Keys));
    QuietIndexable(s, quiet);
    TwoParts(s, fs, quiet, Built(s));
  }

  lemma TwoParts(s: Scan, fs: seq<Verdict>, quiet: seq<Verdict>, all: seq<Verdict>)
    requires fs == FindingVerdicts(s) && all == fs + quiet
    requires forall v :: v in quiet ==> v.control in Quiet(s)
    requires forall c :: c in Quiet(s) ==> exists v :: v in quiet && v.control == c
    requires forall i, j :: 0 <= i < j < |quiet| ==> quiet[i].control != quiet[j].control
    ensures Indexable(all) <==> OnePerPair(s.findings) && "" !in Quiet(s)
  {
    assert forall i :: 0 <= i < |fs| ==> all[i] == fs[i];
    assert forall i :: 0 <= i < |quiet| ==> all[|fs| + i] == quiet[i];
    if OnePerPair(s.findings) && "" !in Quiet(s) {
      forall i, j | 0 <= i < j < |all| ensures KeyOf(all[i]) != KeyOf(all[j]) {
        if i < |fs| <= j {
          assert all[j] in quiet && s.findings[i] in s.findings;
        } else if |fs| <= i {
          assert quiet[i - |fs|].control != quiet[j - |fs|].control;
        }
      }
      forall i | 0 <= i < |all| ensures all[i].control != "" {
        assert i >= |fs| ==> all[i] in quiet;
      }
    }
    if Indexable(all) {
      forall i, j | 0 <= i < j < |s.findings|
        ensures s.findings[i].code != s.findings[j].code || s.findings[i].subject != s.findings[j].subject
      {
        assert KeyOf(all[i]) != KeyOf(all[j]);
      }
      forall v | v in quiet ensures v.control != "" {
        var i :| 0 <= i < |quiet| && quiet[i] == v;
        assert all[|fs| + i].control != "";
      }
    }
  }

  lemma SameKeys(a: seq<Verdict>, b: seq<Verdict>)
    requires |a| == |b| && forall i :: 0 <= i < |a| ==> KeyOf(a[i]) == KeyOf(b[i])
    ensures Indexable(a) <==> Indexable(b)
  {
    assert forall i :: 0 <= i < |a| ==> KeyOf(a[i]).control == a[i].control && KeyOf(b[i]).control == b[i].control;
  }

  /** The sealed verdicts of a scan can be compared exactly when its findings name a control,
      no two of them name the same control and subject, and the catalogue holds no nameless
      control that gets a verdict of its own. */
  lemma ScanIsComparable(u: Setup, views: seq<View>, incomplete: map<string, Unit>, subjects: set<string>)
    ensures Indexable(Canonical(Final(u, views, incomplete, subjects))) <==>
              OnePerPair(u.findings) && "" !in Quiet(ScanOf(u, views))
  {
    var final, built := Final(u, views, incomplete, subjects), Built(ScanOf(u, views));
    SealedIsIndexable(final);
    StatusMachine(u, views, incomplete, subjects);
    SameKeys(final, built);
    BuiltIndexable(ScanOf(u, views));
  }
}
