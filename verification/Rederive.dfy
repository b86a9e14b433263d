/** Replaying a sealed bundle (cmd/verify.go, --re-derive): the same passes on the reloaded
    inventory, in the language of the verifier and then in the other one. */
module Rederive {
  import opened Wrappers
  import opened Text
  import opened Json
  import opened Paths
  import opened CollectionState
  import opened Inventory
  import opened Assess
  import opened Passes
  import opened Sealing
  import opened Exempt
  import opened Pipeline

  // ----- The language -----

  function Other(l: Lang): Lang {
    if l == FR then EN else FR
  }

  /** The language of the process. */
  class Locale {
    var current: Lang

    constructor ()
      ensures current == EN
    {
      current := EN;
    }

    method Set(l: Lang)
      modifies this
      ensures current == l
    {
      current := l;
    }
  }

  const LABEL_MESSAGE_EN := "message_en"
  const LABEL_REMEDIATION_EN := "remediation_en"

  /** The English text when there is one. */
  function Pick(l: Lang, fr: string, en: string): string {
    if l == EN && TrimSpace(en) != "" then en else fr
  }

  function Localized(l: Lang, f: Finding): Finding {
    f.(message := Pick(l, f.message, GetOr(f.labels, LABEL_MESSAGE_EN, "")),
       remediation := Pick(l, f.remediation, GetOr(f.labels, LABEL_REMEDIATION_EN, "")),
       labels := f.labels - {LABEL_MESSAGE_EN, LABEL_REMEDIATION_EN})
  }

  function LocalizedAll(l: Lang, fs: seq<Finding>): (r: seq<Finding>)
    ensures |r| == |fs| && forall i :: 0 <= i < |fs| ==> r[i] == Localized(l, fs[i])
  {
    seq(|fs|, i requires 0 <= i < |fs| => Localized(l, fs[i]))
  }

  /** Puts the findings in the language of the process, in place. */
  method LocalizeFindings(loc: Locale, fs: array<Finding>)
    modifies fs
    ensures fs[..] == LocalizedAll(loc.current, old(fs[..]))
  {
    var english := loc.current == EN;
    for i := 0 to fs.Length
      invariant loc.current == old(loc.current)
      invariant forall j :: 0 <= j < i ==> fs[j] == Localized(loc.current, old(fs[j]))
      invariant forall j :: i <= j < fs.Length ==> fs[j] == old(fs[j])
    {
      var f := fs[i];
      if english {
        f := f.(message := Pick(EN, f.message, GetOr(f.labels, LABEL_MESSAGE_EN, "")),
                remediation := Pick(EN, f.remediation, GetOr(f.labels, LABEL_REMEDIATION_EN, "")));
      }
      fs[i] := f.(labels := f.labels - {LABEL_MESSAGE_EN, LABEL_REMEDIATION_EN});
    }
  }

  method CloneFindings(fs: array<Finding>) returns (copy: array<Finding>)
    ensures fresh(copy) && copy[..] == fs[..]
  {
    copy := new Finding[fs.Length](i requires 0 <= i < fs.Length reads fs => fs[i]);
  }

  /** The setup of a scan in a language: the findings put into it, and the justifications
      of the controls that do not apply. */
  function SetupIn(u: Setup, na: Lang -> map<string, string>, l: Lang): Setup {
    u.(findings := LocalizedAll(l, u.findings), na := na(l))
  }

  /** A finding speaks English when the process does and there is a translation, something else
      than spaces; and the original otherwise. The labels that carried the translation are gone,
      and nothing else of it moves. */
  lemma WordsOf(l: Lang, f: Finding)
    ensures var g := Localized(l, f);
            var translated := (key: string) => key in f.labels && exists k :: 0 <= k < |f.labels[key]|
                                                                              && !IsSpace(f.labels[key][k]);
            && g.message == (if l == EN && translated("message_en") then f.labels["message_en"] else f.message)
            && g.remediation == (if l == EN && translated("remediation_en") then f.labels["remediation_en"]
                                 else f.remediation)
            && g.labels == f.labels - {"message_en", "remediation_en"}
            && g.(message := f.message, remediation := f.remediation, labels := f.labels) == f
  {
    TrimmedAway(GetOr(f.labels, LABEL_MESSAGE_EN, ""));
    TrimmedAway(GetOr(f.labels, LABEL_REMEDIATION_EN, ""));
  }

  // ----- The replay -----

  /** What the replay of an inventory concludes in a language. */
  ghost function Replayed(u: Setup, na: Lang -> map<string, string>, l: Lang, inv: Inventory, units: seq<Unit>,
                          target: string): seq<Verdict> {
    Final(SetupIn(u, na, l), ViewsOf(inv), IncompleteMap(units), SubjectsOf(ViewsOf(inv), target))
  }

  /** The document the verdicts are compared by. */
  function SealedForm(render: (Lang, seq<Verdict>) -> string): (Lang, seq<Verdict>) -> string {
    (l: Lang, vs: seq<Verdict>) => render(l, Canonical(vs))
  }

  /** The replay in that language reads like the sealed document. */
  ghost predicate Recognizes(u: Setup, na: Lang -> map<string, string>, render: (Lang, seq<Verdict>) -> string, l: Lang,
                             inv: Inventory, units: seq<Unit>, target: string, sealedJson: string) {
    SealedForm(render)(l, Replayed(u, na, l, inv, units, target)) == sealedJson
  }

  /** What the replay gives in each language. */
  ghost predicate AreReplays(replays: map<Lang, seq<Verdict>>, u: Setup, na: Lang -> map<string, string>,
                             inv: Inventory, units: seq<Unit>, target: string) {
    forall l {:trigger Replayed(u, na, l, inv, units, target)} ::
      l in replays && replays[l] == Replayed(u, na, l, inv, units, target)
  }

  method DeriveIn(loc: Locale, l: Lang, findings: array<Finding>, u: Setup, na: Lang -> map<string, string>,
                  inv: Inventory, coll: Collection, target: string, ghost replays: map<Lang, seq<Verdict>>)
    returns (got: seq<Verdict>)
    requires u.findings == findings[..]
    requires AreReplays(replays, u, na, inv, coll.units, target)
    modifies loc
    ensures loc.current == l
    ensures l in replays && got == replays[l]
  {
    loc.Set(l);
    var f := CloneFindings(findings);
    LocalizeFindings(loc, f);
    var rep, degraded;
    got, rep, degraded := AssessAll(u.(findings := f[..], na := na(l)), inv, coll, target);
    assert got == Replayed(u, na, l, inv, coll.units, target);
  }

  /** The first language, the current one first, whose replay reads like the sealed document. */
  method FirstMatch(loc: Locale, findings: array<Finding>, u: Setup, na: Lang -> map<string, string>,
                    seal: (Lang, seq<Verdict>) -> string, inv: Inventory, coll: Collection, target: string,
                    sealedJson: string, ghost replays: map<Lang, seq<Verdict>>)
    returns (got: seq<Verdict>, lang: Lang, matched: bool)
    requires u.findings == findings[..]
    requires AreReplays(replays, u, na, inv, coll.units, target)
    modifies loc
    ensures loc.current == old(loc.current)
    ensures lang in replays && got == replays[lang]
    ensures matched ==> seal(lang, got) == sealedJson
    ensures matched && lang != loc.current ==>
              loc.current in replays && seal(loc.current, replays[loc.current]) != sealedJson
    ensures !matched ==> forall l :: l in replays ==> seal(l, replays[l]) != sealedJson
    ensures !matched ==> lang == loc.current
  {
    var restore := loc.current;
    var langs := [restore, Other(restore)];
    var first: seq<Verdict> := [];
    for i := 0 to 2
      invariant i > 0 ==> restore in replays && first == replays[restore]
      invariant forall j :: 0 <= j < i ==> langs[j] in replays && seal(langs[j], replays[langs[j]]) != sealedJson
    {
      got := DeriveIn(loc, langs[i], findings, u, na, inv, coll, target, replays);
      if seal(langs[i], got) == sealedJson {
        loc.Set(restore);
        assert langs[0] == restore;
        return got, langs[i], true;
      }
      if i == 0 {
        first := got;
      }
    }
    loc.Set(restore);
    forall l | l in replays ensures seal(l, replays[l]) != sealedJson {
      assert l == langs[0] || l == langs[1];
    }
    return first, restore, false;
  }

  /** Of the languages that read like the sealed document, the one tried first. */
  ghost function MatchedLang(u: Setup, na: Lang -> map<string, string>, render: (Lang, seq<Verdict>) -> string,
                             inv: Inventory, units: seq<Unit>, target: string, sealedJson: string, current: Lang): Lang
  {
    if Recognizes(u, na, render, current, inv, units, target, sealedJson) then current else Other(current)
  }

  /** Rebuilds the verdicts in the current language, then in the other one, and returns the
      first that read like the sealed ones; failing that, the first try. The language of the
      process is left as it was found. */
  method ReDeriveInEitherLanguage(loc: Locale, findings: array<Finding>, u: Setup, na: Lang -> map<string, string>,
                                  render: (Lang, seq<Verdict>) -> string, inv: Inventory, coll: Collection,
                                  target: string, sealedJson: string)
    returns (got: seq<Verdict>, lang: Lang, matched: bool)
    requires u.findings == findings[..]
    modifies loc
    ensures loc.current == old(loc.current)
    ensures matched <==> exists l :: Recognizes(u, na, render, l, inv, coll.units, target, sealedJson)
    ensures lang == if matched then MatchedLang(u, na, render, inv, coll.units, target, sealedJson, loc.current)
                    else loc.current
    ensures got == Replayed(u, na, lang, inv, coll.units, target)
  {
    ghost var replays := InBoth(u, na, inv, coll.units, target);
    got, lang, matched := FirstMatch(loc, findings, u, na, SealedForm(render), inv, coll, target, sealedJson, replays);
    forall l ensures l in replays && ReplayIn(u, na, render, l, inv, coll.units, target, sealedJson, replays[l]) {
      RecognizedAs(u, na, render, l, inv, coll.units, target, sealedJson, replays);
    }
  }

  ghost function InBoth(u: Setup, na: Lang -> map<string, string>, inv: Inventory, units: seq<Unit>, target: string)
    : (replays: map<Lang, seq<Verdict>>)
    ensures AreReplays(replays, u, na, inv, units, target)
  {
    var replays := map[FR := Replayed(u, na, FR, inv, units, target), EN := Replayed(u, na, EN, inv, units, target)];
    assert AreReplays(replays, u, na, inv, units, target) by {
      forall l ensures l in replays && replays[l] == Replayed(u, na, l, inv, units, target) {
        assert l == FR || l == EN;
      }
    }
    replays
  }

  ghost predicate ReplayIn(u: Setup, na: Lang -> map<string, string>, render: (Lang, seq<Verdict>) -> string, l: Lang,
                           inv: Inventory, units: seq<Unit>, target: string, sealedJson: string, vs: seq<Verdict>) {
    && vs == Replayed(u, na, l, inv, units, target)
    && (Recognizes(u, na, render, l, inv, units, target, sealedJson) <==> SealedForm(render)(l, vs) == sealedJson)
  }

  lemma RecognizedAs(u: Setup, na: Lang -> map<string, string>, render: (Lang, seq<Verdict>) -> string, l: Lang,
                     inv: Inventory, units: seq<Unit>, target: string, sealedJson: string,
                     replays: map<Lang, seq<Verdict>>)
    requires AreReplays(replays, u, na, inv, units, target)
    ensures l in replays && ReplayIn(u, na, render, l, inv, units, target, sealedJson, replays[l])
  {
    var vs := Replayed(u, na, l, inv, units, target);
    assert l in replays && replays[l] == vs;
  }

  // ----- Faithfulness -----

  /** The inventory as it is sealed: a reloaded one stays as it was read. */
  function ItemsOf(inv: Inventory): seq<Json> {
    match inv
    case Typed(rs) => Encode(rs)
    case Reloaded(items) => items
    case Unknown => []
  }

  /** The replay of the sealed inventory, with the subjects the verifier knows, gives the
      verdicts of the scan, typed or itself of a reloaded one, with the subjects it knew. */
  lemma ReplayIsFaithful(u: Setup, na: Lang -> map<string, string>, l: Lang, inv: Inventory, units: seq<Unit>,
                         target: string, other: string)
    ensures Replayed(u, na, l, Reloaded(ItemsOf(inv)), units, other) == Replayed(u, na, l, inv, units, target)
  {
    if inv.Typed? {
      ReloadShowsTheSame(inv.resources);
    }
    var v, views := SetupIn(u, na, l), ViewsOf(inv);
    SubjectsDoNotMatter(v.policy, ContextOf(v, SubjectsOf(views, other)), ContextOf(v, SubjectsOf(views, target)),
                        AfterCollection(v, views, IncompleteMap(units)));
  }

  /** A bundle sealed by a scan, in either language, is recognized: the policy sealed in its
      report is the one that was applied, and what was sealed is what the replay renders. */
  lemma FaithfulBundleMatches(u: Setup, na: Lang -> map<string, string>, render: (Lang, seq<Verdict>) -> string,
                              l: Lang, inv: Inventory, units: seq<Unit>, target: string, other: string, rep: Report)
    requires ReportFits(SetupIn(u, na, l), ViewsOf(inv), IncompleteMap(units), SubjectsOf(ViewsOf(inv), target), rep)
    ensures var stored := Canonical(Replayed(u, na, l, inv, units, target));
            Recognizes(u.(policy := rep.exemptions), na, render, l, Reloaded(ItemsOf(inv)), units, other,
                       render(l, Canonical(stored)))
  {
    assert u.(policy := rep.exemptions) == u;
    CanonicalTwice(Replayed(u, na, l, inv, units, target));
    ReplayIsFaithful(u, na, l, inv, units, target, other);
  }

  // ----- What a recognized bundle proves -----

  /** The part of a verdict that no language changes. */
  datatype Line = Line(control: string, subject: string, status: Status)

  function LineOf(v: Verdict): Line {
    Line(v.control, v.subject, v.status)
  }

  function Lines(vs: seq<Verdict>): (r: seq<Line>)
    ensures |r| == |vs| && forall i :: 0 <= i < |vs| ==> r[i] == LineOf(vs[i])
  {
    seq(|vs|, i requires 0 <= i < |vs| => LineOf(vs[i]))
  }

  /** Whatever the language, the document can be read back line by line. */
  ghost predicate Readable(render: (Lang, seq<Verdict>) -> string, read: string -> seq<Line>) {
    forall l, vs :: read(render(l, vs)) == Lines(vs)
  }

  /** A pass of a recognized bundle is one the replay itself derives, so everything a pass
      means holds of the reloaded inventory: a pass written by hand is not recognized. */
  lemma SealedPassIsProven(u: Setup, na: Lang -> map<string, string>, render: (Lang, seq<Verdict>) -> string,
                           read: string -> seq<Line>, written: Lang, results: seq<Verdict>, l: Lang, inv: Inventory,
                           units: seq<Unit>, target: string, v: Verdict)
    requires Readable(render, read)
    requires Recognizes(u, na, render, l, inv, units, target, render(written, results))
    requires v in results && v.status == Pass
    ensures v.control in ScopeOf(SetupIn(u, na, l)) && v.control in u.verified
    ensures forall f :: f in u.findings ==> f.code != v.control
    ensures forall t :: t in TypesRead(u.tables, v.control, u.tagged) ==> t !in IncompleteMap(units)
    ensures DecidingDataEstablished(SetupIn(u, na, l), ViewsOf(inv), v.control)
  {
    var s, views, incomplete := SetupIn(u, na, l), ViewsOf(inv), IncompleteMap(units);
    var final := Replayed(u, na, l, inv, units, target);
    var w := SameLine(render, read, written, results, l, Canonical(final), v);
    assert w in multiset(Canonical(final));
    PassIsProven(s, views, incomplete, SubjectsOf(views, target), w);
    SameCodes(l, u.findings, ScanOf(s, views), v.control);
  }

  lemma SameCodes(l: Lang, fs: seq<Finding>, s: Scan, code: string)
    requires s.findings == LocalizedAll(l, fs)
    ensures HasFinding(s, code) <==> exists f :: f in fs && f.code == code
  {
  }

  lemma SameLine(render: (Lang, seq<Verdict>) -> string, read: string -> seq<Line>, written: Lang,
                 results: seq<Verdict>, l: Lang, derived: seq<Verdict>, v: Verdict) returns (w: Verdict)
    requires Readable(render, read)
    requires render(written, results) == render(l, derived)
    requires v in results
    ensures w in derived && LineOf(w) == LineOf(v)
  {
    var i :| 0 <= i < |results| && results[i] == v;
    assert Lines(results) == Lines(derived);
    assert Lines(results)[i] == LineOf(v);
    w := derived[i];
  }
}
