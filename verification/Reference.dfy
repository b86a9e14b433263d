/** What a scan must conclude, said from its data alone: the resources, the records of their
    collection, the findings, the tables and the policy. None of these definitions is used by
    the passes; they are what the passes are measured against (cmd/scan.go, internal/assess,
    internal/exempt). */
module Reference {
  import opened Wrappers
  import opened Order
  import opened Json
  import opened Model
  import opened CollectionState
  import opened Inventory
  import opened ProvenanceIndex
  import opened Assess
  import opened Passes
  import opened Exempt
  import opened Pipeline
  import opened Comparable

  // ----- What the resources show -----

  /** A resource carries a value for an attribute; its region counts as one. */
  predicate Shows(r: Resource, k: string) {
    (k in r.attributes && r.attributes[k] != Null) || (k == "region" && r.region != "")
  }

  /** It was asked for the attribute, and its source had none. */
  predicate AskedInVain(r: Resource, k: string) {
    k in r.provenance && k !in r.attributes
  }

  ghost predicate Here(rs: seq<Resource>, t: string) {
    t != "" && exists r :: r in rs && r.typ == t
  }

  /** The attribute is established for the type: some resource shows it, and every other shows it
      too or was asked in vain. */
  ghost predicate Established(rs: seq<Resource>, t: string, k: string) {
    && Here(rs, t)
    && (exists r :: r in rs && r.typ == t && Shows(r, k))
    && (forall r :: r in rs && r.typ == t ==> Shows(r, k) || AskedInVain(r, k))
  }

  /** Nobody asked for this attribute on a type that was asked for others. */
  ghost predicate NeverAsked(rs: seq<Resource>, t: string, a: string) {
    && t != "" && (exists r :: r in rs && r.typ == t && r.provenance != map[])
    && (forall r :: r in rs && r.typ == t ==> a !in r.provenance)
  }

  // ----- What the tables ask -----

  function Needs(t: Tables, c: string): map<string, seq<string>> {
    if c in t.required then t.required[c] else map[]
  }

  predicate IsMainType(t: Tables, c: string, typ: string) {
    typ != "" && c in t.primary && t.primary[c] == typ
  }

  predicate HasMainType(t: Tables, c: string) {
    c in t.primary && t.primary[c] != ""
  }

  /** The control reads this type: as its main one, or as one it correlates. */
  predicate Reads(t: Tables, c: string, typ: string) {
    IsMainType(t, c, typ) || (c in t.extra && typ in t.extra[c])
  }

  /** The types named by the empty key of a declaration: the main one, or, without one, those of
      the control that are there. */
  ghost predicate JudgedOn(t: Tables, rs: seq<Resource>, c: string, typ: string) {
    if HasMainType(t, c) then IsMainType(t, c, typ) else Reads(t, c, typ) && Here(rs, typ)
  }

  ghost predicate Asks(t: Tables, rs: seq<Resource>, c: string, typ: string) {
    (typ != "" && typ in Needs(t, c) && Here(rs, typ)) || ("" in Needs(t, c) && JudgedOn(t, rs, c, typ))
  }

  ghost predicate AsksFor(t: Tables, rs: seq<Resource>, c: string, typ: string, a: string) {
    || (typ != "" && typ in Needs(t, c) && Here(rs, typ) && a in Needs(t, c)[typ])
    || ("" in Needs(t, c) && JudgedOn(t, rs, c, typ) && a in Needs(t, c)[""])
  }

  /** One of the attributes asked for is established on the type, or all of them for a control
      that needs all. */
  ghost predicate Answered(t: Tables, rs: seq<Resource>, c: string, typ: string) {
    if c in t.requireAll then forall a :: AsksFor(t, rs, c, typ, a) ==> Established(rs, typ, a)
    else exists a :: AsksFor(t, rs, c, typ, a) && Established(rs, typ, a)
  }

  ghost predicate DataThere(t: Tables, rs: seq<Resource>, c: string) {
    || Needs(t, c) == map[]
    || ((exists typ :: Asks(t, rs, c, typ)) && forall typ :: Asks(t, rs, c, typ) ==> Answered(t, rs, c, typ))
  }

  ghost predicate TypeThere(t: Tables, rs: seq<Resource>, c: string) {
    if "governance_" <= c then
      (forall typ :: !Reads(t, c, typ)) || exists typ :: Reads(t, c, typ) && Here(rs, typ)
    else exists typ :: IsMainType(t, c, typ) && Here(rs, typ)
  }

  /** A type the control names, and that is there, has none of its attributes established, or not
      all of them for a control that needs all. */
  ghost predicate LinkMissing(t: Tables, rs: seq<Resource>, c: string, typ: string) {
    && typ != "" && typ in Needs(t, c) && Here(rs, typ)
    && if c in t.requireAll then exists a :: a in Needs(t, c)[typ] && !Established(rs, typ, a)
       else forall a :: a in Needs(t, c)[typ] ==> !Established(rs, typ, a)
  }

  ghost predicate LinkBroken(t: Tables, rs: seq<Resource>, c: string) {
    exists typ :: LinkMissing(t, rs, c, typ)
  }

  /** The control concludes from an absence nobody looked for. */
  ghost predicate AbsenceUnfounded(t: Tables, rs: seq<Resource>, c: string) {
    c in t.absence && exists typ, a :: typ in t.absence[c] && a in t.absence[c][typ] && NeverAsked(rs, typ, a)
  }

  // ----- What the policy sets aside -----

  /** The date has not passed: a day lasts to its end, an instant to itself, and a date that
      cannot be read has. */
  predicate StillValid(m: Moment, now: int) {
    match m
    case WholeDay(day) => now < (day + 1) * 86_400_000_000_000
    case Instant(ns) => now <= ns
    case Unreadable => false
  }

  ghost predicate SetAside(u: Setup, control: string, subject: string) {
    exists e :: e in u.policy && e.control == control && control in u.controls
                && (e.resource == "" || e.resource == subject) && StillValid(e.expiresAt.moment, u.now)
  }

  // ----- What was not read -----

  /** A unit that should have fed the type was attempted, and was not always complete. */
  ghost predicate NotRead(log: seq<Unit>, t: string) {
    exists n :: NotReadFrom(log, t, n)
  }

  ghost predicate NotReadFrom(log: seq<Unit>, t: string, n: string) {
    && t != ""
    && (exists i :: 0 <= i < |log| && log[i].name == n && log[i].attempted)
    && (exists i :: 0 <= i < |log| && log[i].name == n && !log[i].complete)
    && (exists i :: 0 <= i < |log| && log[i].name == n && t in log[i].types)
  }

  ghost predicate ReadsUnread(u: Setup, log: seq<Unit>, c: string) {
    exists t :: NotRead(log, t) && if c == "governance_resource_required_tags" then t in u.tagged
                                   else Reads(u.tables, c, t)
  }

  // ----- What each verdict must be -----

  predicate Undecided(f: Finding) {
    "inconclusive" in f.labels && f.labels["inconclusive"] == "true"
  }

  ghost function StatusOfFinding(u: Setup, rs: seq<Resource>, f: Finding): Status {
    if Undecided(f) || LinkBroken(u.tables, rs, f.code) || AbsenceUnfounded(u.tables, rs, f.code) then NotEvaluated
    else if SetAside(u, f.code, f.subject) then Exempted
    else Fail
  }

  predicate Justified(u: Setup, c: string) {
    c in u.na && u.na[c] != ""
  }

  /** A control without finding that gets a verdict of its own. */
  ghost predicate SpeaksAlone(u: Setup, c: string) {
    && c in u.controls && (forall f :: f in u.findings ==> f.code != c)
    && (Justified(u, c) || u.provider in u.controls[c].providers)
  }

  /** Verified by its contract, on types that are there, with the data it asks for. */
  ghost predicate CouldPass(u: Setup, rs: seq<Resource>, c: string) {
    c in u.verified && TypeThere(u.tables, rs, c) && DataThere(u.tables, rs, c)
  }

  ghost function StatusOfControl(u: Setup, rs: seq<Resource>, log: seq<Unit>, c: string): Status {
    if Justified(u, c) then NotApplicable
    else if CouldPass(u, rs, c) && !ReadsUnread(u, log, c) then Pass
    else NotEvaluated
  }

  // ----- From the data to what the passes look at -----

  lemma ViewOfEach(rs: seq<Resource>, views: seq<View>)
    requires views == ViewsOf(Typed(rs))
    ensures forall r :: r in rs ==> ViewOfResource(r) in views
    ensures forall v :: v in views ==> exists r :: r in rs && v == ViewOfResource(r)
  {
    forall r | r in rs ensures ViewOfResource(r) in views {
      var i :| 0 <= i < |rs| && rs[i] == r;
      assert views[i] == ViewOfResource(r);
    }
    forall v | v in views ensures exists r :: r in rs && v == ViewOfResource(r) {
      var i :| 0 <= i < |views| && views[i] == v;
      assert rs[i] in rs && v == ViewOfResource(rs[i]);
    }
  }

  lemma TypeSeen(rs: seq<Resource>, views: seq<View>, t: string)
    requires views == ViewsOf(Typed(rs))
    ensures t in TypesOf(views) <==> Here(rs, t)
  {
    ViewOfEach(rs, views);
    if Here(rs, t) {
      var r :| r in rs && r.typ == t;
      assert ViewOfResource(r) in views && ViewOfResource(r).typ == t;
    }
  }

  lemma ShownSeen(r: Resource, k: string)
    ensures Exposes(ViewOfResource(r), k) <==> Shows(r, k)
    ensures Vouches(ViewOfResource(r), k) <==> Shows(r, k) || AskedInVain(r, k)
  {
  }

  lemma EstablishedSeen(rs: seq<Resource>, views: seq<View>, t: string, k: string)
    requires views == ViewsOf(Typed(rs))
    ensures t in AttrsByType(views) && k in AttrsByType(views)[t] <==> Established(rs, t, k)
  {
    TypeSeen(rs, views, t);
    ViewOfEach(rs, views);
    forall r | r in rs
      ensures Exposes(ViewOfResource(r), k) <==> Shows(r, k)
      ensures Vouches(ViewOfResource(r), k) <==> Shows(r, k) || AskedInVain(r, k)
    {
      ShownSeen(r, k);
    }
    if Established(rs, t, k) {
      var r :| r in rs && r.typ == t && Shows(r, k);
      assert ViewOfResource(r) in views && Exposes(ViewOfResource(r), k);
      assert Counts(views, t, k);
    }
    if t in AttrsByType(views) && k in AttrsByType(views)[t] {
      assert Counts(views, t, k);
    }
  }

  lemma AskedOf(rs: seq<Resource>, views: seq<View>, t: string, a: string)
    requires views == ViewsOf(Typed(rs))
    ensures Sought(views, t, a) <==> t != "" && exists r :: r in rs && r.typ == t && a in r.provenance
  {
    ViewOfEach(rs, views);
    if r :| t != "" && r in rs && r.typ == t && a in r.provenance {
      assert ViewOfResource(r) in views && a in ViewOfResource(r).prov;
    }
  }

  lemma EntrySeen(views: seq<View>, idx: Index, t: string, a: string)
    requires IsIndex(views, idx)
    ensures t in idx && a in idx[t] <==> Sought(views, t, a)
  {
    assert At(idx, t, a) == ProvenanceIndex.Origins(views, t, a);
  }

  lemma AskedForSome(rs: seq<Resource>, views: seq<View>, idx: Index, t: string)
    requires views == ViewsOf(Typed(rs)) && IsIndex(views, idx)
    ensures WasSought(idx, t) <==> t != "" && exists r :: r in rs && r.typ == t && r.provenance != map[]
  {
    if WasSought(idx, t) {
      var b :| b in idx[t];
      EntrySeen(views, idx, t, b);
      AskedOf(rs, views, t, b);
    }
    if r :| t != "" && r in rs && r.typ == t && r.provenance != map[] {
      var b :| b in r.provenance;
      AskedOf(rs, views, t, b);
      EntrySeen(views, idx, t, b);
    }
  }

  lemma NeverAskedSeen(rs: seq<Resource>, views: seq<View>, idx: Index, t: string, a: string)
    requires views == ViewsOf(Typed(rs)) && IsIndex(views, idx)
    ensures WasSought(idx, t) && a !in idx[t] <==> NeverAsked(rs, t, a)
  {
    AskedForSome(rs, views, idx, t);
    EntrySeen(views, idx, t, a);
    AskedOf(rs, views, t, a);
  }

  // ----- The lock -----

  lemma TypesDeclared(t: Tables, c: string, typ: string)
    ensures typ in t.ControlTypes(c) <==> Reads(t, c, typ)
  {
    WithoutMembers(GetOr(t.extra, c, []), t.Primary(c));
  }

  lemma {:induction false} WithoutMembers(s: seq<string>, x: string)
    ensures forall y :: y in Without(s, x) <==> y in s && y != x
  {
    if s != [] {
      WithoutMembers(s[1..], x);
      assert s == [s[0]] + s[1..];
    }
  }

  lemma ScopeSeen(u: Setup, rs: seq<Resource>, views: seq<View>, c: string, typ: string)
    requires views == ViewsOf(Typed(rs))
    ensures typ in TypesInScope(ScanOf(u, views), c) <==> JudgedOn(u.tables, rs, c, typ)
  {
    TypesDeclared(u.tables, c, typ);
    TypeSeen(rs, views, typ);
    PresentMembers(u.tables.ControlTypes(c), TypesOf(views));
  }

  lemma AskedSeen(u: Setup, rs: seq<Resource>, views: seq<View>, c: string, typ: string, a: string)
    requires views == ViewsOf(Typed(rs))
    ensures Decides(ScanOf(u, views), c, typ) <==> Asks(u.tables, rs, c, typ)
    ensures Deciding(ScanOf(u, views), c, typ, a) <==> AsksFor(u.tables, rs, c, typ, a)
    ensures Has(ScanOf(u, views), typ, a) <==> Established(rs, typ, a)
  {
    ScopeSeen(u, rs, views, c, typ);
    TypeSeen(rs, views, typ);
    EstablishedSeen(rs, views, typ, a);
    assert u.tables.Required(c) == Needs(u.tables, c);
  }

  lemma AnsweredSeen(u: Setup, rs: seq<Resource>, views: seq<View>, c: string, typ: string)
    requires views == ViewsOf(Typed(rs))
    ensures SufficientOn(ScanOf(u, views), c, typ) <==> Answered(u.tables, rs, c, typ)
  {
    forall a
      ensures Deciding(ScanOf(u, views), c, typ, a) <==> AsksFor(u.tables, rs, c, typ, a)
      ensures Has(ScanOf(u, views), typ, a) <==> Established(rs, typ, a)
    {
      AskedSeen(u, rs, views, c, typ, a);
    }
  }

  lemma DataSeen(u: Setup, rs: seq<Resource>, views: seq<View>, c: string)
    requires views == ViewsOf(Typed(rs))
    ensures AttrCollected(ScanOf(u, views), c) <==> DataThere(u.tables, rs, c)
  {
    assert u.tables.Required(c) == Needs(u.tables, c);
    forall typ
      ensures Decides(ScanOf(u, views), c, typ) <==> Asks(u.tables, rs, c, typ)
      ensures SufficientOn(ScanOf(u, views), c, typ) <==> Answered(u.tables, rs, c, typ)
    {
      AskedSeen(u, rs, views, c, typ, "");
      AnsweredSeen(u, rs, views, c, typ);
    }
  }

  lemma TypeThereSeen(u: Setup, rs: seq<Resource>, views: seq<View>, c: string)
    requires views == ViewsOf(Typed(rs))
    ensures Applicable(ScanOf(u, views), c) <==> TypeThere(u.tables, rs, c)
  {
    var declared := u.tables.ControlTypes(c);
    forall typ
      ensures typ in declared <==> Reads(u.tables, c, typ)
      ensures typ in TypesOf(views) <==> Here(rs, typ)
    {
      TypesDeclared(u.tables, c, typ);
      TypeSeen(rs, views, typ);
    }
    assert declared != [] ==> declared[0] in declared;
    assert IsMainType(u.tables, c, u.tables.Primary(c)) <==> u.tables.Primary(c) != "";
  }

  lemma LinkSeen(u: Setup, rs: seq<Resource>, views: seq<View>, c: string)
    requires views == ViewsOf(Typed(rs))
    ensures CorrelationBroken(ScanOf(u, views), c) <==> LinkBroken(u.tables, rs, c)
  {
    var s := ScanOf(u, views);
    assert u.tables.Required(c) == Needs(u.tables, c);
    forall typ ensures typ in BrokenTypes(s, c) <==> LinkMissing(u.tables, rs, c, typ) {
      LinkMissingSeen(u, rs, views, c, typ);
    }
    if CorrelationBroken(s, c) {
      var typ :| typ in BrokenTypes(s, c);
    }
  }

  lemma LinkMissingSeen(u: Setup, rs: seq<Resource>, views: seq<View>, c: string, typ: string)
    requires views == ViewsOf(Typed(rs))
    ensures typ in BrokenTypes(ScanOf(u, views), c) <==> LinkMissing(u.tables, rs, c, typ)
  {
    TypeSeen(rs, views, typ);
    forall a ensures Has(ScanOf(u, views), typ, a) <==> Established(rs, typ, a) {
      EstablishedSeen(rs, views, typ, a);
    }
  }

  lemma AbsenceSeen(u: Setup, rs: seq<Resource>, views: seq<View>, c: string)
    requires views == ViewsOf(Typed(rs))
    ensures NotAttested(u.tables, IndexOf(views), c) <==> AbsenceUnfounded(u.tables, rs, c)
  {
    var idx := IndexOf(views);
    forall t, a ensures WasSought(idx, t) && a !in idx[t] <==> NeverAsked(rs, t, a) {
      NeverAskedSeen(rs, views, idx, t, a);
    }
  }

  lemma SetAsideSeen(u: Setup, control: string, subject: string)
    ensures InForce(u.policy, u.now, u.controls.Keys, control, subject) <==> SetAside(u, control, subject)
  {
    forall e: Exemption ensures IsExpired(e, u.now) <==> !StillValid(e.expiresAt.moment, u.now) {
      ValidityRead(e, u.now);
    }
  }

  /** When an exemption lapses, by the form of its date. */
  lemma ValidityRead(e: Exemption, now: int)
    ensures IsExpired(e, now) <==> !StillValid(e.expiresAt.moment, now)
  {
  }

  lemma NotReadFromSeen(log: seq<Unit>, t: string, n: string)
    ensures FailedUnit(log, n) && t in TypesFed(log, n) <==> NotReadFrom(log, t, n)
  {
  }

  lemma NotReadSeen(log: seq<Unit>, units: seq<Unit>, t: string)
    requires IsMerge(log, units)
    ensures t in IncompleteMap(units) <==> NotRead(log, t)
  {
    IncompleteExactly(log, units, t);
    if Unread(log, t) {
      var n :| FailedUnit(log, n) && t in TypesFed(log, n);
      NotReadFromSeen(log, t, n);
    }
    if NotRead(log, t) {
      var n :| NotReadFrom(log, t, n);
      NotReadFromSeen(log, t, n);
    }
  }

  lemma UnreadSeen(u: Setup, log: seq<Unit>, units: seq<Unit>, c: string)
    requires IsMerge(log, units) && c in ScopeOf(u)
    ensures c in DegradedBy(u, IncompleteMap(units)) <==> ReadsUnread(u, log, c)
  {
    var types := TypesRead(u.tables, c, u.tagged);
    forall t ensures t in IncompleteMap(units) <==> NotRead(log, t) {
      NotReadSeen(log, units, t);
    }
    forall t ensures t in types <==> (if c == "governance_resource_required_tags" then t in u.tagged
                                      else Reads(u.tables, c, t))
    {
      TypesDeclared(u.tables, c, t);
    }
  }

  // ----- The verdicts -----

  /** Each finding has its line, in its place: its control, its subject, its severity or that of its
      control, and the status the data commands. */
  lemma FindingsConcluded(u: Setup, rs: seq<Resource>, incomplete: map<string, Unit>, subjects: set<string>, i: nat,
                          final: seq<Verdict>)
    requires final == Final(u, ViewsOf(Typed(rs)), incomplete, subjects) && i < |u.findings|
    ensures i < |final|
    ensures var f := u.findings[i];
            && final[i].control == f.code && final[i].subject == f.subject
            && final[i].status == StatusOfFinding(u, rs, f)
            && final[i].severity == (if f.severity != "" then f.severity
                                     else if f.code in u.controls then u.controls[f.code].severity else "")
  {
    var views := ViewsOf(Typed(rs));
    var s, f := ScanOf(u, views), u.findings[i];
    FindingsStayVisible(s, i);
    assert Built(s)[i] == FindingVerdicts(s)[i];
    StatusAt(u, views, incomplete, subjects, i);
    LinkSeen(u, rs, views, f.code);
    AbsenceSeen(u, rs, views, f.code);
    SetAsideSeen(u, f.code, f.subject);
    assert Undecided(f) <==> Inconclusive(f);
  }

  /** A control without finding has a verdict of its own exactly when it is justified as not
      applicable or declared for the provider. */
  lemma ControlBuilt(u: Setup, views: seq<View>, c: string)
    requires SpeaksAlone(u, c)
    ensures var s := ScanOf(u, views);
            && !HasFinding(s, c) && ControlVerdict(s, c).Some?
            && ControlVerdict(s, c).value in Built(s)
            && ControlVerdict(s, c).value.control == c && ControlVerdict(s, c).value.subject == u.target
            && ControlVerdict(s, c).value.status ==
                 if Justified(u, c) then NotApplicable else if Unlocked(s, c) then Pass else NotEvaluated
  {
    BuiltMembers(ScanOf(u, views), ControlVerdict(ScanOf(u, views), c).value);
  }

  lemma LockSeen(u: Setup, rs: seq<Resource>, views: seq<View>, c: string)
    requires views == ViewsOf(Typed(rs))
    ensures Unlocked(ScanOf(u, views), c) <==> CouldPass(u, rs, c)
  {
    DataSeen(u, rs, views, c);
    TypeThereSeen(u, rs, views, c);
  }

  /** The line of a control built without finding is that of one that speaks alone. */
  lemma QuietLines(u: Setup, views: seq<View>, j: nat) returns (c: string)
    requires |u.findings| <= j < |Built(ScanOf(u, views))|
    ensures SpeaksAlone(u, c) && ControlVerdict(ScanOf(u, views), c) == Some(Built(ScanOf(u, views))[j])
  {
    var s := ScanOf(u, views);
    var v := QuietVerdictAt(s, j);
    ControlVerdictsMembers(s, Ordered(s.controls.Keys), v);
    c :| c in Ordered(s.controls.Keys) && !HasFinding(s, c) && ControlVerdict(s, c) == Some(v);
    assert c in Elements(Ordered(s.controls.Keys));
    assert s.findings == u.findings && s.controls == u.controls && s.na == u.na && s.provider == u.provider;
  }

  lemma QuietVerdictAt(s: Scan, j: nat) returns (v: Verdict)
    requires |s.findings| <= j < |Built(s)|
    ensures v == Built(s)[j] && v in ControlVerdicts(s, Ordered(s.controls.Keys))
  {
    var quiet := ControlVerdicts(s, Ordered(s.controls.Keys));
    v := quiet[j - |s.findings|];
  }

  lemma StatusOfQuiet(u: Setup, rs: seq<Resource>, log: seq<Unit>, units: seq<Unit>, subjects: set<string>, j: nat,
                      c: string, final: seq<Verdict>)
    requires final == Final(u, ViewsOf(Typed(rs)), IncompleteMap(units), subjects) && IsMerge(log, units)
    requires SpeaksAlone(u, c) && j < |Built(ScanOf(u, ViewsOf(Typed(rs))))|
    requires ControlVerdict(ScanOf(u, ViewsOf(Typed(rs))), c) == Some(Built(ScanOf(u, ViewsOf(Typed(rs))))[j])
    ensures j < |final| && final[j].control == c && final[j].subject == u.target
    ensures final[j].status == StatusOfControl(u, rs, log, c)
  {
    var views := ViewsOf(Typed(rs));
    ControlBuilt(u, views, c);
    StatusAt(u, views, IncompleteMap(units), subjects, j);
    LockSeen(u, rs, views, c);
    if !Justified(u, c) {
      assert c in ScopeOf(u);
      UnreadSeen(u, log, units, c);
    }
  }

  /** After the findings, one line for each control that speaks alone, with the status the data
      commands; and for no other. */
  lemma ControlsConcluded(u: Setup, rs: seq<Resource>, log: seq<Unit>, units: seq<Unit>, subjects: set<string>,
                          final: seq<Verdict>)
    requires final == Final(u, ViewsOf(Typed(rs)), IncompleteMap(units), subjects) && IsMerge(log, units)
    ensures |final| >= |u.findings|
    ensures forall j :: |u.findings| <= j < |final| ==>
              SpeaksAlone(u, final[j].control) && final[j].subject == u.target
              && final[j].status == StatusOfControl(u, rs, log, final[j].control)
    ensures forall c :: SpeaksAlone(u, c) ==> exists j :: |u.findings| <= j < |final| && final[j].control == c
    ensures forall j, k :: |u.findings| <= j < k < |final| ==> final[j].control != final[k].control
  {
    EachOnce(u, ViewsOf(Typed(rs)), IncompleteMap(units), subjects, final);
    var views := ViewsOf(Typed(rs));
    var s := ScanOf(u, views);
    SameLength(u, views, IncompleteMap(units), subjects);
    forall j: nat | |u.findings| <= j < |final|
      ensures SpeaksAlone(u, final[j].control) && final[j].subject == u.target
      ensures final[j].status == StatusOfControl(u, rs, log, final[j].control)
    {
      var c := QuietLines(u, views, j);
      StatusOfQuiet(u, rs, log, units, subjects, j, c, final);
    }
    forall c | SpeaksAlone(u, c) ensures exists j :: |u.findings| <= j < |final| && final[j].control == c {
      var j := LineOfQuiet(u, rs, log, units, subjects, c, final);
    }
  }

  lemma BuiltTail(s: Scan, found: seq<Verdict>, quiet: seq<Verdict>, j: nat)
    requires found == FindingVerdicts(s) && Built(s) == found + quiet && |s.findings| <= j < |Built(s)|
    ensures j - |s.findings| < |quiet| && Built(s)[j] == quiet[j - |s.findings|]
  {
  }

  lemma BuiltOnce(s: Scan, j: nat, k: nat, quiet: seq<Verdict>)
    requires quiet == ControlVerdicts(s, Ordered(s.controls.Keys)) && |s.findings| <= j < k < |Built(s)|
    ensures Built(s)[j].control != Built(s)[k].control
  {
    QuietIndexable(s, quiet);
    assert Built(s) == FindingVerdicts(s) + quiet;
    BuiltTail(s, FindingVerdicts(s), quiet, j);
    BuiltTail(s, FindingVerdicts(s), quiet, k);
  }

  lemma EachOnce(u: Setup, views: seq<View>, incomplete: map<string, Unit>, subjects: set<string>, final: seq<Verdict>)
    requires final == Final(u, views, incomplete, subjects)
    ensures forall j, k :: |u.findings| <= j < k < |final| ==> final[j].control != final[k].control
  {
    SameLength(u, views, incomplete, subjects);
    forall j: nat, k: nat | |u.findings| <= j < k < |final| ensures final[j].control != final[k].control {
      BuiltOnce(ScanOf(u, views), j, k, ControlVerdicts(ScanOf(u, views), Ordered(u.controls.Keys)));
      StatusAt(u, views, incomplete, subjects, j);
      StatusAt(u, views, incomplete, subjects, k);
    }
  }

  lemma LineOfQuiet(u: Setup, rs: seq<Resource>, log: seq<Unit>, units: seq<Unit>, subjects: set<string>, c: string,
                    final: seq<Verdict>) returns (j: nat)
    requires final == Final(u, ViewsOf(Typed(rs)), IncompleteMap(units), subjects) && IsMerge(log, units)
    requires SpeaksAlone(u, c)
    ensures |u.findings| <= j < |final| && final[j].control == c
  {
    var views := ViewsOf(Typed(rs));
    var s := ScanOf(u, views);
    ControlBuilt(u, views, c);
    j :| 0 <= j < |Built(s)| && Built(s)[j] == ControlVerdict(s, c).value;
    StatusOfQuiet(u, rs, log, units, subjects, j, c, final);
    if j < |u.findings| {
      FindingsStayVisible(s, j);
      assert false;
    }
  }

  // ----- What a verdict carries -----

  /** What the line of a finding carries besides its status: the references and the remediation of
      its control, its own labels, and for reason its message, or the types whose link is missing. */
  lemma FindingCarries(u: Setup, rs: seq<Resource>, i: nat)
    requires i < |u.findings|
    ensures i < |Built(ScanOf(u, ViewsOf(Typed(rs))))|
    ensures var v, f := Built(ScanOf(u, ViewsOf(Typed(rs))))[i], u.findings[i];
            && v.references == (if f.code in u.controls then u.controls[f.code].references else [])
            && v.remediation == (if f.remediation != "" then f.remediation
                                 else if f.code in u.controls then u.controls[f.code].remediation else "")
            && v.labels == f.labels && v.waiver == NoWaiver
            && (!LinkBroken(u.tables, rs, f.code) ==> v.evidence.observed == Deviation(f.message))
            && (LinkBroken(u.tables, rs, f.code) ==>
                  && v.evidence.observed.BrokenCorrelation? && Ascending(v.evidence.observed.types)
                  && forall typ :: typ in v.evidence.observed.types <==> LinkMissing(u.tables, rs, f.code, typ))
  {
    var views := ViewsOf(Typed(rs));
    var s, f := ScanOf(u, views), u.findings[i];
    assert Built(s)[i] == FindingVerdicts(s)[i] == FindingVerdict(s, f);
    LinkSeen(u, rs, views, f.code);
    forall typ ensures typ in Ordered(BrokenTypes(s, f.code)) <==> LinkMissing(u.tables, rs, f.code, typ) {
      LinkMissingSeen(u, rs, views, f.code, typ);
      assert typ in Ordered(BrokenTypes(s, f.code)) <==> typ in Elements(Ordered(BrokenTypes(s, f.code)));
    }
  }

  /** What the line of a control without finding carries: its severity and its references, and its
      justification when it does not apply. */
  lemma ControlCarries(u: Setup, views: seq<View>, c: string)
    requires SpeaksAlone(u, c)
    ensures ControlVerdict(ScanOf(u, views), c).Some?
    ensures var v := ControlVerdict(ScanOf(u, views), c).value;
            && v in Built(ScanOf(u, views))
            && v.severity == u.controls[c].severity && v.references == u.controls[c].references
            && v.remediation == "" && v.labels == map[]
            && v.waiver == (if Justified(u, c) then Waiver(u.na[c], "") else NoWaiver)
            && (Justified(u, c) ==> v.evidence.observed == DeclaredNotApplicable(u.na[c]))
  {
    ControlBuilt(u, views, c);
  }

  /** A pass says what it rests on. */
  lemma PassRests(u: Setup, rs: seq<Resource>, c: string)
    requires SpeaksAlone(u, c) && !Justified(u, c) && CouldPass(u, rs, c)
    ensures ControlVerdict(ScanOf(u, ViewsOf(Typed(rs))), c).Some?
    ensures var why := ControlVerdict(ScanOf(u, ViewsOf(Typed(rs))), c).value.evidence.observed;
            if !HasMainType(u.tables, c) && "governance_provider_" <= c then why == CleanByDeclaration
            else
              && (why.CleanOn? || why == Clean)
              && (why.CleanOn? ==> why.types != [] && InOrder(why.types)
                                   && forall typ :: typ in why.types <==> JudgedOn(u.tables, rs, c, typ))
              && (why == Clean ==> forall typ :: !JudgedOn(u.tables, rs, c, typ))
  {
    var views := ViewsOf(Typed(rs));
    var s := ScanOf(u, views);
    LockSeen(u, rs, views, c);
    ControlBuilt(u, views, c);
    var scope := TypesInScope(s, c);
    forall typ ensures typ in SortStrings(scope) <==> JudgedOn(u.tables, rs, c, typ) {
      ScopeSeen(u, rs, views, c, typ);
      SortedElements(scope);
      assert typ in SortStrings(scope) <==> typ in Elements(SortStrings(scope));
      assert typ in scope <==> typ in Elements(scope);
    }
    assert scope != [] ==> scope[0] in scope;
  }
}
