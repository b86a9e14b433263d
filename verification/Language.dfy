/** The language a scan speaks changes its words, never a control, a subject or a status
    (cmd/verify.go replays a bundle in both languages on that ground). */
module Language {
  import opened Wrappers
  import opened Order
  import opened CollectionState
  import opened Inventory
  import opened Assess
  import opened Pipeline
  import opened Sealing
  import opened Rederive

  /** Two scans that differ only by the words of their findings and justifications. */
  ghost predicate SameButWords(a: Scan, b: Scan) {
    && b.(findings := [], na := map[]) == a.(findings := [], na := map[])
    && |a.findings| == |b.findings|
    && (forall i :: 0 <= i < |a.findings| ==> SameFinding(a.findings[i], b.findings[i]))
    && (forall c :: DeclaredNA(a, c) <==> DeclaredNA(b, c))
  }

  predicate SameFinding(f: Finding, g: Finding) {
    f.code == g.code && f.subject == g.subject && (Inconclusive(f) <==> Inconclusive(g))
  }

  lemma SameLock(a: Scan, b: Scan, code: string)
    requires SameButWords(a, b)
    ensures Applicable(a, code) <==> Applicable(b, code)
    ensures Declared(a, code) <==> Declared(b, code)
    ensures AttrCollected(a, code) <==> AttrCollected(b, code)
  {
    forall t ensures Decides(a, code, t) <==> Decides(b, code, t) {
    }
    forall t, x ensures Deciding(a, code, t, x) <==> Deciding(b, code, t, x) {
    }
    forall t ensures SufficientOn(a, code, t) <==> SufficientOn(b, code, t) {
      forall x ensures Has(a, t, x) <==> Has(b, t, x) {
      }
    }
  }

  lemma SameFindings(a: Scan, b: Scan, code: string)
    requires SameButWords(a, b)
    ensures HasFinding(a, code) <==> HasFinding(b, code)
  {
  }

  lemma EmittedLines(a: Scan, b: Scan, code: string)
    requires SameButWords(a, b)
    ensures Lines(Emitted(a, code)) == Lines(Emitted(b, code))
  {
    SameLock(a, b, code);
    SameFindings(a, b, code);
  }

  lemma LinesConcat(x: seq<Verdict>, y: seq<Verdict>)
    ensures Lines(x + y) == Lines(x) + Lines(y)
  {
  }

  lemma {:induction false} ControlLines(a: Scan, b: Scan, codes: seq<string>)
    requires SameButWords(a, b)
    ensures Lines(ControlVerdicts(a, codes)) == Lines(ControlVerdicts(b, codes))
  {
    if codes != [] {
      EmittedLines(a, b, codes[0]);
      ControlLines(a, b, codes[1..]);
      LinesConcat(Emitted(a, codes[0]), ControlVerdicts(a, codes[1..]));
      LinesConcat(Emitted(b, codes[0]), ControlVerdicts(b, codes[1..]));
    }
  }

  lemma FindingLines(a: Scan, b: Scan)
    requires SameButWords(a, b)
    ensures Lines(FindingVerdicts(a)) == Lines(FindingVerdicts(b))
  {
  }

  lemma BuiltLines(a: Scan, b: Scan)
    requires SameButWords(a, b)
    ensures Lines(Built(a)) == Lines(Built(b))
  {
    FindingLines(a, b);
    var codes := Ordered(a.controls.Keys);
    ControlLines(a, b, codes);
    LinesConcat(FindingVerdicts(a), ControlVerdicts(a, codes));
    LinesConcat(FindingVerdicts(b), ControlVerdicts(b, codes));
  }

  /** The justifications of the controls that do not apply exist in both languages. */
  ghost predicate JustifiedInBoth(na: Lang -> map<string, string>) {
    forall c :: GetOr(na(FR), c, "") != "" <==> GetOr(na(EN), c, "") != ""
  }

  lemma SetupsDifferByWords(u: Setup, na: Lang -> map<string, string>, views: seq<View>)
    requires JustifiedInBoth(na)
    ensures SameButWords(ScanOf(SetupIn(u, na, FR), views), ScanOf(SetupIn(u, na, EN), views))
  {
  }

  lemma SameDegraded(u: Setup, na: Lang -> map<string, string>, incomplete: map<string, Unit>)
    requires JustifiedInBoth(na)
    ensures DegradedBy(SetupIn(u, na, FR), incomplete) == DegradedBy(SetupIn(u, na, EN), incomplete)
  {
    assert ScopeOf(SetupIn(u, na, FR)) == ScopeOf(SetupIn(u, na, EN));
  }

  lemma LineAt(u: Setup, na: Lang -> map<string, string>, views: seq<View>, incomplete: map<string, Unit>,
               subjects: set<string>, i: nat)
    requires JustifiedInBoth(na)
    requires Lines(Built(ScanOf(SetupIn(u, na, FR), views))) == Lines(Built(ScanOf(SetupIn(u, na, EN), views)))
    requires i < |Built(ScanOf(SetupIn(u, na, FR), views))|
    ensures var f, e := Final(SetupIn(u, na, FR), views, incomplete, subjects),
                    Final(SetupIn(u, na, EN), views, incomplete, subjects);
            i < |f| && i < |e| && LineOf(f[i]) == LineOf(e[i])
  {
    var bf, be := Built(ScanOf(SetupIn(u, na, FR), views)), Built(ScanOf(SetupIn(u, na, EN), views));
    assert Lines(bf)[i] == LineOf(bf[i]) && Lines(be)[i] == LineOf(be[i]);
    SameDegraded(u, na, incomplete);
    StatusAt(SetupIn(u, na, FR), views, incomplete, subjects, i);
    StatusAt(SetupIn(u, na, EN), views, incomplete, subjects, i);
  }

  /** Whatever the inventory and the collection, both languages conclude line by line the same. */
  lemma LanguageDoesNotShow(u: Setup, na: Lang -> map<string, string>, inv: Inventory, units: seq<Unit>, target: string)
    requires JustifiedInBoth(na)
    ensures Lines(Replayed(u, na, FR, inv, units, target)) == Lines(Replayed(u, na, EN, inv, units, target))
  {
    var views, incomplete := ViewsOf(inv), IncompleteMap(units);
    var subjects := SubjectsOf(views, target);
    var f, e := Final(SetupIn(u, na, FR), views, incomplete, subjects),
                    Final(SetupIn(u, na, EN), views, incomplete, subjects);
    SetupsDifferByWords(u, na, views);
    BuiltLines(ScanOf(SetupIn(u, na, FR), views), ScanOf(SetupIn(u, na, EN), views));
    SameLength(SetupIn(u, na, FR), views, incomplete, subjects);
    SameLength(SetupIn(u, na, EN), views, incomplete, subjects);
    forall i: nat | i < |f| ensures i < |e| && LineOf(f[i]) == LineOf(e[i]) {
      LineAt(u, na, views, incomplete, subjects, i);
    }
    SameLines(f, e);
  }

  lemma SameLines(f: seq<Verdict>, e: seq<Verdict>)
    requires |f| == |e| && forall i :: 0 <= i < |f| ==> LineOf(f[i]) == LineOf(e[i])
    ensures Lines(f) == Lines(e)
  {
  }
}
