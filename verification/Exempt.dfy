/** Dated, attributed exemptions (internal/exempt/apply.go). An exemption sets a deviation
    aside; it never declares anything compliant. */
module Exempt {
  import opened Wrappers
  import opened Order
  import opened Assess

  /** The end of validity as its author wrote it. A date alone lasts to the end of its day. */
  datatype Moment = WholeDay(day: int) | Instant(ns: int) | Unreadable

  datatype Date = Date(text: string, moment: Moment)

  const DAY_NS := 86_400_000_000_000

  function Time(d: Date): Option<int> {
    match d.moment
    case WholeDay(day) => Some((day + 1) * DAY_NS - 1)
    case Instant(ns) => Some(ns)
    case Unreadable => None
  }

  datatype Exemption = Exemption(control: string, resource: string, justification: string, expiresAt: Date,
                                 owner: string, approvedBy: string)

  datatype Effect = Applied | Expired | Orphan

  function EffectText(e: Effect): string {
    match e
    case Applied => "applied"
    case Expired => "expired"
    case Orphan => "orphan"
  }

  datatype Cause = NoCause | NoSuchControl | NoSuchResource | Lapsed

  datatype Record = Record(exemption: Exemption, effect: Effect, subjects: seq<string>, cause: Cause)

  datatype Report = Report(exemptions: seq<Exemption>, records: seq<Record>)

  /** What an exemption is judged against. */
  datatype Context = Context(now: int, subjects: set<string>, controls: set<string>)

  // ----- What each exemption is -----

  predicate IsExpired(e: Exemption, now: int) {
    var t := Time(e.expiresAt);
    t.None? || now > t.value
  }

  /** A day-only date covers its whole day, and not an instant more. */
  lemma WholeDayIsCovered(e: Exemption, day: int, now: int)
    requires e.expiresAt.moment == WholeDay(day)
    ensures IsExpired(e, now) <==> now >= (day + 1) * DAY_NS
  {
  }

  ghost function Known(c: Context, vs: seq<Verdict>): set<string> {
    c.subjects + set v | v in vs && v.subject != "" :: v.subject
  }

  predicate Covers(e: Exemption, control: string, subject: string) {
    e.control == control && (e.resource == "" || e.resource == subject)
  }

  function OrphanCause(e: Exemption, c: Context, known: set<string>): Cause {
    if e.control !in c.controls then NoSuchControl
    else if e.resource != "" && e.resource !in known then NoSuchResource
    else NoCause
  }

  predicate Valid(e: Exemption, c: Context, known: set<string>) {
    OrphanCause(e, c, known) == NoCause && !IsExpired(e, c.now)
  }

  /** The first valid exemption of the file, from position i on, that covers a subject of a
      control. */
  function Match(pol: seq<Exemption>, i: nat, c: Context, known: set<string>, control: string,
                 subject: string): (r: Option<nat>)
    requires i <= |pol|
    ensures r.Some? ==> r.value < |pol|
    decreases |pol| - i
  {
    if i == |pol| then None
    else if Valid(pol[i], c, known) && Covers(pol[i], control, subject) then Some(i)
    else Match(pol, i + 1, c, known, control, subject)
  }

  /** It is valid, it covers, and none before it does both. */
  lemma {:induction false} MatchIsFirst(pol: seq<Exemption>, i: nat, c: Context, known: set<string>, control: string,
                                        subject: string)
    requires i <= |pol|
    ensures var r := Match(pol, i, c, known, control, subject);
            && (r.Some? ==> i <= r.value && Valid(pol[r.value], c, known) && Covers(pol[r.value], control, subject))
            && forall k :: i <= k < (if r.Some? then r.value else |pol|) ==>
                 !(Valid(pol[k], c, known) && Covers(pol[k], control, subject))
    decreases |pol| - i
  {
    if i < |pol| && !(Valid(pol[i], c, known) && Covers(pol[i], control, subject)) {
      MatchIsFirst(pol, i + 1, c, known, control, subject);
    }
  }

  const LABEL_OWNER := "exemption_owner"
  const LABEL_APPROVED_BY := "exemption_approved_by"
  const LABEL_EXPIRES_AT := "exemption_expires_at"

  function WithLabels(labels: map<string, string>, e: Exemption): map<string, string> {
    labels[LABEL_OWNER := e.owner][LABEL_APPROVED_BY := e.approvedBy][LABEL_EXPIRES_AT := e.expiresAt.text]
  }

  function Exempting(v: Verdict, e: Exemption): Verdict {
    v.(status := Exempted, waiver := Waiver(e.justification, e.expiresAt.text), labels := WithLabels(v.labels, e))
  }

  /** The exemption a verdict is set aside by, if any: only a deviation can be. */
  function Attributed(pol: seq<Exemption>, c: Context, known: set<string>, v: Verdict): (r: Option<nat>)
    ensures r.Some? ==> r.value < |pol|
  {
    if v.status != Fail then None else Match(pol, 0, c, known, v.control, v.subject)
  }

  function ApplyOne(pol: seq<Exemption>, c: Context, known: set<string>, v: Verdict): Verdict {
    var m := Attributed(pol, c, known, v);
    if m.Some? then Exempting(v, pol[m.value]) else v
  }

  ghost function AppliedAll(pol: seq<Exemption>, c: Context, vs: seq<Verdict>): (out: seq<Verdict>)
    ensures |out| == |vs| && forall i :: 0 <= i < |vs| ==> out[i] == ApplyOne(pol, c, Known(c, vs), vs[i])
  {
    var known := Known(c, vs);
    seq(|vs|, i requires 0 <= i < |vs| => ApplyOne(pol, c, known, vs[i]))
  }

  // ----- What each exemption produced -----

  /** The subjects an exemption set aside. */
  ghost function SubjectsFor(pol: seq<Exemption>, c: Context, known: set<string>, vs: seq<Verdict>,
                             i: nat): set<string> {
    set v | v in vs && Attributed(pol, c, known, v) == Some(i) :: v.subject
  }

  /** The record of a position of the file: none for an exemption that lies dormant. */
  ghost function RecordAt(pol: seq<Exemption>, c: Context, known: set<string>, vs: seq<Verdict>, i: nat): Option<Record>
    requires i < |pol|
  {
    var e := pol[i];
    var orphan := OrphanCause(e, c, known);
    if orphan != NoCause then Some(Record(e, Orphan, [], orphan))
    else if IsExpired(e, c.now) then Some(Record(e, Expired, [], Lapsed))
    else
      var subjects := SubjectsFor(pol, c, known, vs, i);
      if subjects == {} then None else Some(Record(e, Applied, Ordered(subjects), NoCause))
  }

  function ToSeq<T>(o: Option<T>): seq<T> {
    if o.Some? then [o.value] else []
  }

  /** The records of the first n positions, in file order. */
  ghost function RecordsUpTo(pol: seq<Exemption>, c: Context, known: set<string>, vs: seq<Verdict>, n: nat): seq<Record>
    requires n <= |pol|
  {
    if n == 0 then [] else RecordsUpTo(pol, c, known, vs, n - 1) + ToSeq(RecordAt(pol, c, known, vs, n - 1))
  }

  function RecordKey(r: Record): Key {
    [EffectText(r.effect), r.exemption.control, r.exemption.resource]
  }

  /** The report holds the record of each position that has one, each once, sorted. */
  ghost predicate IsReport(pol: seq<Exemption>, c: Context, vs: seq<Verdict>, rep: Report) {
    && rep.exemptions == pol
    && SortedBy(RecordKey, rep.records)
    && multiset(rep.records) == multiset(RecordsUpTo(pol, c, Known(c, vs), vs, |pol|))
  }

  // ----- Apply -----

  /** A valid exemption, and the subjects it has set aside so far. */
  class Candidate {
    const ex: Exemption
    var subjects: set<string>

    constructor (e: Exemption)
      ensures ex == e && subjects == {}
    {
      ex := e;
      subjects := {};
    }
  }

  /** The valid positions among the first n. */
  function ValidUpTo(pol: seq<Exemption>, c: Context, known: set<string>, n: nat): (r: seq<nat>)
    requires n <= |pol|
    ensures forall j :: 0 <= j < |r| ==> r[j] < n
  {
    if n == 0 then []
    else ValidUpTo(pol, c, known, n - 1) + if Valid(pol[n - 1], c, known) then [n - 1] else []
  }

  /** They are the valid positions, in increasing order. */
  lemma {:induction false} ValidPositions(pol: seq<Exemption>, c: Context, known: set<string>, n: nat)
    requires n <= |pol|
    ensures var r := ValidUpTo(pol, c, known, n);
            && (forall j :: 0 <= j < |r| ==> Valid(pol[r[j]], c, known))
            && (forall j, k :: 0 <= j < k < |r| ==> r[j] < r[k])
            && (forall i: nat :: i < n && Valid(pol[i], c, known) ==> i in r)
  {
    if n > 0 {
      ValidPositions(pol, c, known, n - 1);
    }
  }

  ghost predicate AreCandidates(candidates: seq<Candidate>, pol: seq<Exemption>, positions: seq<nat>) {
    && |candidates| == |positions|
    && (forall j :: 0 <= j < |candidates| ==> positions[j] < |pol| && candidates[j].ex == pol[positions[j]])
    && (forall j, k :: 0 <= j < k < |candidates| ==> candidates[j] != candidates[k])
  }

  /** The first candidate that covers a subject of a control. */
  method FindMatch(candidates: seq<Candidate>, control: string, subject: string) returns (found: Option<nat>)
    ensures found.Some? ==> found.value < |candidates| && Covers(candidates[found.value].ex, control, subject)
    ensures forall j :: 0 <= j < (if found.Some? then found.value else |candidates|) ==>
      !Covers(candidates[j].ex, control, subject)
  {
    for j := 0 to |candidates|
      invariant forall k :: 0 <= k < j ==> !Covers(candidates[k].ex, control, subject)
    {
      var ex := candidates[j].ex;
      if ex.control != control {
        continue;
      }
      if ex.resource == "" || ex.resource == subject {
        return Some(j);
      }
    }
    return None;
  }

  lemma MatchAmongValid(pol: seq<Exemption>, c: Context, known: set<string>, control: string, subject: string,
                        positions: seq<nat>, found: Option<nat>)
    requires positions == ValidUpTo(pol, c, known, |pol|)
    requires found.Some? ==> found.value < |positions| && Covers(pol[positions[found.value]], control, subject)
    requires forall j :: 0 <= j < (if found.Some? then found.value else |positions|) ==>
               !Covers(pol[positions[j]], control, subject)
    ensures Match(pol, 0, c, known, control, subject) == if found.Some? then Some(positions[found.value]) else None
  {
    var m := Match(pol, 0, c, known, control, subject);
    MatchIsFirst(pol, 0, c, known, control, subject);
    ValidPositions(pol, c, known, |pol|);
    if found.Some? {
      var k := positions[found.value];
      assert Valid(pol[k], c, known) && Covers(pol[k], control, subject);
      assert m.Some? && m.value <= k;
    }
    if m.Some? {
      assert m.value in positions;
      var j :| 0 <= j < |positions| && positions[j] == m.value;
      assert Covers(pol[positions[j]], control, subject);
      assert found.Some? && found.value <= j;
    }
  }

  method KnownSubjects(c: Context, vs: seq<Verdict>) returns (known: set<string>)
    ensures known == Known(c, vs)
  {
    known := c.subjects;
    for i := 0 to |vs|
      invariant known == Known(c, vs[..i])
    {
      assert vs[..i + 1] == vs[..i] + [vs[i]];
      if vs[i].subject != "" {
        known := known + {vs[i].subject};
      }
    }
    assert vs[..|vs|] == vs;
  }

  /** The notices: the records of the exemptions that no longer apply. */
  ghost function NoticesUpTo(pol: seq<Exemption>, c: Context, known: set<string>, n: nat): seq<Record>
    requires n <= |pol|
  {
    if n == 0 then []
    else
      NoticesUpTo(pol, c, known, n - 1) + NoticePart(pol, c, known, n - 1)
  }

  function Notice(e: Exemption, c: Context, known: set<string>): Record {
    var orphan := OrphanCause(e, c, known);
    if orphan != NoCause then Record(e, Orphan, [], orphan) else Record(e, Expired, [], Lapsed)
  }

  /** The notice of an exemption that does not apply. */
  method Examine(e: Exemption, c: Context, known: set<string>) returns (r: Option<Record>)
    ensures r == if Valid(e, c, known) then None else Some(Notice(e, c, known))
  {
    if e.control !in c.controls {
      return Some(Record(e, Orphan, [], NoSuchControl));
    } else if e.resource != "" && e.resource !in known {
      return Some(Record(e, Orphan, [], NoSuchResource));
    } else if IsExpired(e, c.now) {
      return Some(Record(e, Expired, [], Lapsed));
    }
    return None;
  }

  /** Sorts the exemptions into notices and candidates, before any verdict is touched. */
  method Triage(pol: seq<Exemption>, c: Context, known: set<string>)
    returns (records: seq<Record>, candidates: seq<Candidate>)
    ensures records == NoticesUpTo(pol, c, known, |pol|)
    ensures AreCandidates(candidates, pol, ValidUpTo(pol, c, known, |pol|))
    ensures forall j :: 0 <= j < |candidates| ==> fresh(candidates[j]) && candidates[j].subjects == {}
  {
    records, candidates := [], [];
    for i := 0 to |pol|
      invariant records == NoticesUpTo(pol, c, known, i)
      invariant AreCandidates(candidates, pol, ValidUpTo(pol, c, known, i))
      invariant forall j :: 0 <= j < |candidates| ==> fresh(candidates[j]) && candidates[j].subjects == {}
    {
      var notice := Examine(pol[i], c, known);
      if notice.Some? {
        records := records + [notice.value];
      } else {
        var candidate := new Candidate(pol[i]);
        candidates := candidates + [candidate];
      }
    }
  }

  lemma SubjectsStep(pol: seq<Exemption>, c: Context, known: set<string>, vs: seq<Verdict>, v: Verdict, i: nat)
    ensures SubjectsFor(pol, c, known, vs + [v], i) ==
            SubjectsFor(pol, c, known, vs, i) + if Attributed(pol, c, known, v) == Some(i) then {v.subject} else {}
  {
  }

  /** Each candidate is credited with the subjects its position of the file set aside. */
  ghost predicate Credited(candidates: seq<Candidate>, pol: seq<Exemption>, c: Context, known: set<string>,
                           vs: seq<Verdict>)
    reads candidates
  {
    var positions := ValidUpTo(pol, c, known, |pol|);
    && AreCandidates(candidates, pol, positions)
    && forall j :: 0 <= j < |candidates| ==> candidates[j].subjects == SubjectsFor(pol, c, known, vs, positions[j])
  }

  method RewriteOne(pol: seq<Exemption>, c: Context, known: set<string>, candidates: seq<Candidate>, v: Verdict,
                    ghost before: seq<Verdict>)
    returns (out: Verdict)
    requires Credited(candidates, pol, c, known, before)
    modifies candidates
    ensures out == ApplyOne(pol, c, known, v)
    ensures Credited(candidates, pol, c, known, before + [v])
  {
    ghost var positions := ValidUpTo(pol, c, known, |pol|);
    ValidPositions(pol, c, known, |pol|);
    forall j | 0 <= j < |candidates|
      ensures SubjectsFor(pol, c, known, before + [v], positions[j]) ==
              if Attributed(pol, c, known, v) == Some(positions[j])
              then SubjectsFor(pol, c, known, before, positions[j]) + {v.subject}
              else SubjectsFor(pol, c, known, before, positions[j])
    {
      SubjectsStep(pol, c, known, before, v, positions[j]);
    }
    if v.status != Fail {
      return v;
    }
    var found := FindMatch(candidates, v.control, v.subject);
    MatchAmongValid(pol, c, known, v.control, v.subject, positions, found);
    if found.None? {
      return v;
    }
    var candidate := candidates[found.value];
    candidate.subjects := candidate.subjects + {v.subject};
    out := Exempting(v, candidate.ex);
  }

  /** Rewrites the deviations the candidates cover, and credits each candidate with its
      subjects. */
  method Rewrite(pol: seq<Exemption>, c: Context, known: set<string>, candidates: seq<Candidate>, vs: seq<Verdict>)
    returns (out: seq<Verdict>)
    requires AreCandidates(candidates, pol, ValidUpTo(pol, c, known, |pol|))
    requires forall j :: 0 <= j < |candidates| ==> candidates[j].subjects == {}
    modifies candidates
    ensures |out| == |vs| && forall i :: 0 <= i < |vs| ==> out[i] == ApplyOne(pol, c, known, vs[i])
    ensures Credited(candidates, pol, c, known, vs)
  {
    out := vs;
    for i := 0 to |vs|
      invariant |out| == |vs|
      invariant forall j :: 0 <= j < i ==> out[j] == ApplyOne(pol, c, known, vs[j])
      invariant forall j :: i <= j < |vs| ==> out[j] == vs[j]
      invariant Credited(candidates, pol, c, known, vs[..i])
    {
      var next := RewriteOne(pol, c, known, candidates, out[i], vs[..i]);
      assert vs[..i + 1] == vs[..i] + [vs[i]];
      out := out[i := next];
    }
    assert vs[..|vs|] == vs;
  }

  /** The records of the exemptions that set something aside, among the first n positions. */
  ghost function EffectsUpTo(pol: seq<Exemption>, c: Context, known: set<string>, vs: seq<Verdict>,
                             positions: seq<nat>): seq<Record>
    requires forall j :: 0 <= j < |positions| ==> positions[j] < |pol|
  {
    if positions == [] then []
    else
      var last := |positions| - 1;
      EffectsUpTo(pol, c, known, vs, positions[..last]) + EffectAt(pol, c, known, vs, positions[last])
  }

  ghost function EffectAt(pol: seq<Exemption>, c: Context, known: set<string>, vs: seq<Verdict>, i: nat): seq<Record>
    requires i < |pol|
  {
    var subjects := SubjectsFor(pol, c, known, vs, i);
    if subjects == {} then [] else [Record(pol[i], Applied, Ordered(subjects), NoCause)]
  }

  lemma EffectsAppend(pol: seq<Exemption>, c: Context, known: set<string>, vs: seq<Verdict>, positions: seq<nat>,
                      j: nat)
    requires j < |positions| && forall k :: 0 <= k < |positions| ==> positions[k] < |pol|
    ensures EffectsUpTo(pol, c, known, vs, positions[..j + 1]) ==
            EffectsUpTo(pol, c, known, vs, positions[..j]) + EffectAt(pol, c, known, vs, positions[j])
  {
    assert positions[..j + 1][..j] == positions[..j];
  }

  method Effects(pol: seq<Exemption>, c: Context, known: set<string>, candidates: seq<Candidate>,
                 ghost vs: seq<Verdict>)
    returns (records: seq<Record>)
    requires Credited(candidates, pol, c, known, vs)
    ensures records == EffectsUpTo(pol, c, known, vs, ValidUpTo(pol, c, known, |pol|))
  {
    ghost var positions := ValidUpTo(pol, c, known, |pol|);
    records := [];
    for j := 0 to |candidates|
      invariant records == EffectsUpTo(pol, c, known, vs, positions[..j])
    {
      EffectsAppend(pol, c, known, vs, positions, j);
      if candidates[j].subjects == {} {
        continue;
      }
      var subjects := SortedSet(candidates[j].subjects);
      records := records + [Record(candidates[j].ex, Applied, subjects, NoCause)];
    }
    assert positions[..|candidates|] == positions;
  }

  /** The part of the notices, and of the effects, that one position contributes. */
  ghost function NoticePart(pol: seq<Exemption>, c: Context, known: set<string>, i: nat): seq<Record>
    requires i < |pol|
  {
    if Valid(pol[i], c, known) then [] else [Notice(pol[i], c, known)]
  }

  ghost function EffectPart(pol: seq<Exemption>, c: Context, known: set<string>, vs: seq<Verdict>, i: nat): seq<Record>
    requires i < |pol|
  {
    if Valid(pol[i], c, known) then EffectAt(pol, c, known, vs, i) else []
  }

  lemma RecordParts(pol: seq<Exemption>, c: Context, known: set<string>, vs: seq<Verdict>, i: nat)
    requires i < |pol|
    ensures ToSeq(RecordAt(pol, c, known, vs, i)) == NoticePart(pol, c, known, i) + EffectPart(pol, c, known, vs, i)
  {
  }

  /** The effects of the first n positions. */
  ghost function EffectsTo(pol: seq<Exemption>, c: Context, known: set<string>, vs: seq<Verdict>, n: nat): seq<Record>
    requires n <= |pol|
  {
    if n == 0 then [] else EffectsTo(pol, c, known, vs, n - 1) + EffectPart(pol, c, known, vs, n - 1)
  }

  lemma {:induction false} EffectsOfValid(pol: seq<Exemption>, c: Context, known: set<string>, vs: seq<Verdict>, n: nat,
                                          positions: seq<nat>)
    requires n <= |pol| && positions == ValidUpTo(pol, c, known, n)
    ensures EffectsUpTo(pol, c, known, vs, positions) == EffectsTo(pol, c, known, vs, n)
  {
    if n > 0 {
      var before := ValidUpTo(pol, c, known, n - 1);
      EffectsOfValid(pol, c, known, vs, n - 1, before);
      if Valid(pol[n - 1], c, known) {
        assert positions[..|before|] == before;
      } else {
        assert positions == before;
        assert EffectsTo(pol, c, known, vs, n - 1) + [] == EffectsTo(pol, c, known, vs, n - 1);
      }
    }
  }

  /** Notices and effects together are the records of the positions. */
  lemma {:induction false} RecordsSplit(pol: seq<Exemption>, c: Context, known: set<string>, vs: seq<Verdict>, n: nat,
                                        records: seq<Record>, notices: seq<Record>, effects: seq<Record>)
    requires n <= |pol|
    requires records == RecordsUpTo(pol, c, known, vs, n)
    requires notices == NoticesUpTo(pol, c, known, n)
    requires effects == EffectsTo(pol, c, known, vs, n)
    ensures multiset(records) == multiset(notices + effects)
  {
    if n > 0 {
      var r, a, b := RecordsUpTo(pol, c, known, vs, n - 1), NoticesUpTo(pol, c, known, n - 1),
                     EffectsTo(pol, c, known, vs, n - 1);
      RecordsSplit(pol, c, known, vs, n - 1, r, a, b);
      var x, y := NoticePart(pol, c, known, n - 1), EffectPart(pol, c, known, vs, n - 1);
      assert records == r + (x + y) by { RecordParts(pol, c, known, vs, n - 1); }
      assert notices == a + x;
      assert effects == b + y;
      Interleave(r, a, b, x, y);
    } else {
      assert notices + effects == [];
    }
  }

  lemma Interleave<T>(a: seq<T>, b: seq<T>, c: seq<T>, x: seq<T>, y: seq<T>)
    requires multiset(a) == multiset(b + c)
    ensures multiset(a + (x + y)) == multiset((b + x) + (c + y))
  {
  }

  /** Sets aside the deviations a valid exemption covers, and reports what each exemption did. */
  method Apply(vs: seq<Verdict>, pol: seq<Exemption>, c: Context) returns (out: seq<Verdict>, report: Report)
    ensures out == AppliedAll(pol, c, vs)
    ensures IsReport(pol, c, vs, report)
  {
    if pol == [] {
      return vs, Report([], []);
    }
    var known := KnownSubjects(c, vs);
    var notices, candidates := Triage(pol, c, known);
    out := Rewrite(pol, c, known, candidates, vs);
    var effects := Effects(pol, c, known, candidates, vs);
    EffectsOfValid(pol, c, known, vs, |pol|, ValidUpTo(pol, c, known, |pol|));
    RecordsSplit(pol, c, known, vs, |pol|, RecordsUpTo(pol, c, known, vs, |pol|), notices, effects);
    report := Report(pol, SortBy(RecordKey, notices + effects));
  }

  // ----- Reading a report -----

  function Count(records: seq<Record>, e: Effect): nat {
    if records == [] then 0 else (if records[0].effect == e then 1 else 0) + Count(records[1..], e)
  }

  method CountOf(report: Report, e: Effect) returns (n: nat)
    ensures n == Count(report.records, e)
  {
    n := 0;
    for i := 0 to |report.records|
      invariant Count(report.records, e) == n + Count(report.records[i..], e)
    {
      assert report.records[i..][1..] == report.records[i + 1..];
      if report.records[i].effect == e {
        n := n + 1;
      }
    }
    assert report.records[|report.records|..] == [];
  }

  /** Some exemption really set a deviation aside. */
  predicate HasApplied(report: Report) {
    Count(report.records, Applied) > 0
  }

  /** Some exemption is out of date or aims at nothing. */
  predicate IsStale(report: Report) {
    Count(report.records, Expired) + Count(report.records, Orphan) > 0
  }

  lemma {:induction false} CountPositive(records: seq<Record>, e: Effect)
    ensures Count(records, e) > 0 <==> exists r :: r in records && r.effect == e
  {
    if records != [] {
      CountPositive(records[1..], e);
      assert records == [records[0]] + records[1..];
    }
  }

  // ----- What the exemptions amount to -----

  /** An exemption of the file that is in force for a control and a subject, said without
      the inventory: a known control, a date not passed, no resource or that very subject. */
  ghost predicate InForce(pol: seq<Exemption>, now: int, controls: set<string>, control: string, subject: string) {
    exists e :: e in pol && e.control in controls && !IsExpired(e, now) && Covers(e, control, subject)
  }

  lemma MatchIsInForce(pol: seq<Exemption>, c: Context, vs: seq<Verdict>, v: Verdict)
    requires v in vs
    ensures Match(pol, 0, c, Known(c, vs), v.control, v.subject).Some? <==>
              InForce(pol, c.now, c.controls, v.control, v.subject)
  {
    var known := Known(c, vs);
    var m := Match(pol, 0, c, known, v.control, v.subject);
    MatchIsFirst(pol, 0, c, known, v.control, v.subject);
    if e :| e in pol && e.control in c.controls && !IsExpired(e, c.now) && Covers(e, v.control, v.subject) {
      var i :| 0 <= i < |pol| && pol[i] == e;
      assert Valid(pol[i], c, known) && Covers(pol[i], v.control, v.subject);
    }
    if m.Some? {
      assert pol[m.value] in pol;
    }
  }

  /** A verdict becomes exempted exactly when it was a deviation and an exemption in force
      covers it; everything else about the list is kept, and nothing becomes a pass. */
  lemma ExemptedExactly(pol: seq<Exemption>, c: Context, vs: seq<Verdict>, i: nat)
    requires i < |vs|
    ensures var covered := vs[i].status == Fail && InForce(pol, c.now, c.controls, vs[i].control, vs[i].subject);
            && (!covered ==> AppliedAll(pol, c, vs)[i] == vs[i])
            && (covered ==> AppliedAll(pol, c, vs)[i].status == Exempted
                            && AppliedAll(pol, c, vs)[i].control == vs[i].control
                            && AppliedAll(pol, c, vs)[i].subject == vs[i].subject
                            && AppliedAll(pol, c, vs)[i].severity == vs[i].severity)
  {
    MatchIsInForce(pol, c, vs, vs[i]);
  }

  /** A verdict set aside names its exemption: the first of the file in force for it, with its
      justification, its author, its approver and its end of validity. */
  lemma ExemptedIsAttributed(pol: seq<Exemption>, c: Context, vs: seq<Verdict>, i: nat) returns (k: nat)
    requires i < |vs| && vs[i].status != Exempted && AppliedAll(pol, c, vs)[i].status == Exempted
    ensures k < |pol| && Valid(pol[k], c, Known(c, vs)) && Covers(pol[k], vs[i].control, vs[i].subject)
    ensures forall j :: 0 <= j < k ==> !(Valid(pol[j], c, Known(c, vs)) && Covers(pol[j], vs[i].control, vs[i].subject))
    ensures var out := AppliedAll(pol, c, vs)[i];
            && out.waiver == Waiver(pol[k].justification, pol[k].expiresAt.text)
            && GetOr(out.labels, LABEL_OWNER, "") == pol[k].owner
            && GetOr(out.labels, LABEL_APPROVED_BY, "") == pol[k].approvedBy
            && GetOr(out.labels, LABEL_EXPIRES_AT, "") == pol[k].expiresAt.text
  {
    k := Attributed(pol, c, Known(c, vs), vs[i]).value;
    MatchIsFirst(pol, 0, c, Known(c, vs), vs[i].control, vs[i].subject);
    ThreeLabels(vs[i].labels, pol[k]);
  }

  lemma ThreeLabels(labels: map<string, string>, e: Exemption)
    ensures var r := WithLabels(labels, e);
            GetOr(r, LABEL_OWNER, "") == e.owner && GetOr(r, LABEL_APPROVED_BY, "") == e.approvedBy
            && GetOr(r, LABEL_EXPIRES_AT, "") == e.expiresAt.text
  {
    assert |LABEL_OWNER| == 15 && |LABEL_APPROVED_BY| == 21 && |LABEL_EXPIRES_AT| == 20;
  }

  /** No deviation an exemption in force covers is left standing. */
  lemma NoCoveredDeviationLeft(pol: seq<Exemption>, c: Context, vs: seq<Verdict>, v: Verdict)
    requires v in AppliedAll(pol, c, vs) && v.status == Fail
    ensures v in vs && !InForce(pol, c.now, c.controls, v.control, v.subject)
  {
    var out := AppliedAll(pol, c, vs);
    var i :| 0 <= i < |out| && out[i] == v;
    ExemptedExactly(pol, c, vs, i);
  }

  /** What is set aside does not depend on the order of the file. */
  lemma FileOrderDoesNotMatter(p: seq<Exemption>, q: seq<Exemption>, c: Context, vs: seq<Verdict>, i: nat)
    requires i < |vs| && forall e :: e in p <==> e in q
    ensures AppliedAll(p, c, vs)[i].status == AppliedAll(q, c, vs)[i].status
  {
    ExemptedExactly(p, c, vs, i);
    ExemptedExactly(q, c, vs, i);
  }

  /** Time only takes exemptions away. */
  lemma TimeOnlyShrinks(pol: seq<Exemption>, c: Context, later: Context, vs: seq<Verdict>, i: nat)
    requires i < |vs| && c.now <= later.now && later.controls <= c.controls && vs[i].status != Exempted
    ensures AppliedAll(pol, later, vs)[i].status == Exempted ==> AppliedAll(pol, c, vs)[i].status == Exempted
  {
    ExemptedExactly(pol, c, vs, i);
    ExemptedExactly(pol, later, vs, i);
  }

  /** The verdicts do not depend on the subjects the caller says the inventory has: only
      which exemptions are reported as orphans does. */
  lemma SubjectsDoNotMatter(pol: seq<Exemption>, c: Context, d: Context, vs: seq<Verdict>)
    requires c.now == d.now && c.controls == d.controls
    ensures AppliedAll(pol, c, vs) == AppliedAll(pol, d, vs)
  {
    var a, b := AppliedAll(pol, c, vs), AppliedAll(pol, d, vs);
    forall i | 0 <= i < |vs| ensures a[i] == b[i] {
      SameMatch(pol, c, d, vs, vs[i]);
    }
  }

  lemma SameMatch(pol: seq<Exemption>, c: Context, d: Context, vs: seq<Verdict>, v: Verdict)
    requires v in vs && c.now == d.now && c.controls == d.controls
    ensures Match(pol, 0, c, Known(c, vs), v.control, v.subject) == Match(pol, 0, d, Known(d, vs), v.control, v.subject)
  {
    var kc, kd := Known(c, vs), Known(d, vs);
    forall k | 0 <= k < |pol|
      ensures Valid(pol[k], c, kc) && Covers(pol[k], v.control, v.subject)
              <==> Valid(pol[k], d, kd) && Covers(pol[k], v.control, v.subject)
    {
    }
    var m, n := Match(pol, 0, c, kc, v.control, v.subject), Match(pol, 0, d, kd, v.control, v.subject);
    MatchIsFirst(pol, 0, c, kc, v.control, v.subject);
    MatchIsFirst(pol, 0, d, kd, v.control, v.subject);
    if m.Some? {
      assert n.Some? && n.value <= m.value;
    }
    if n.Some? {
      assert m.Some? && m.value <= n.value;
    }
  }

  // ----- Accounting -----

  datatype Fate = IsOrphan | HasExpired | HasEffect | Dormant

  /** Each position of the file has one fate. */
  ghost function FateOf(pol: seq<Exemption>, c: Context, vs: seq<Verdict>, i: nat): Fate
    requires i < |pol|
  {
    var known := Known(c, vs);
    if OrphanCause(pol[i], c, known) != NoCause then IsOrphan
    else if IsExpired(pol[i], c.now) then HasExpired
    else if SubjectsFor(pol, c, known, vs, i) != {} then HasEffect
    else Dormant
  }

  /** A position sets something aside only if it is a valid exemption, and the verdicts it
      sets aside are deviations of its control; so two positions never share a verdict. */
  lemma EffectIsItsOwn(pol: seq<Exemption>, c: Context, vs: seq<Verdict>, i: nat, j: nat, v: Verdict, w: Verdict)
    requires i < |pol| && j < |pol| && i != j && v in vs && w in vs
    requires Attributed(pol, c, Known(c, vs), v) == Some(i) && Attributed(pol, c, Known(c, vs), w) == Some(j)
    ensures v.control == pol[i].control && w.control == pol[j].control
    ensures v.control != w.control || v.subject != w.subject
  {
    MatchIsFirst(pol, 0, c, Known(c, vs), v.control, v.subject);
    MatchIsFirst(pol, 0, c, Known(c, vs), w.control, w.subject);
  }

  /** The record of a position says its fate, and only a dormant one has none. */
  lemma RecordSaysFate(pol: seq<Exemption>, c: Context, vs: seq<Verdict>, i: nat)
    requires i < |pol|
    ensures var r := RecordAt(pol, c, Known(c, vs), vs, i);
            match FateOf(pol, c, vs, i)
            case Dormant => r.None?
            case IsOrphan => r.Some? && r.value.exemption == pol[i] && r.value.effect == Orphan
                      && r.value.subjects == []
            case HasExpired => r.Some? && r.value.exemption == pol[i] && r.value.effect == Expired
                      && r.value.subjects == []
            case HasEffect => r.Some? && r.value.exemption == pol[i] && r.value.effect == Applied
                              && Elements(r.value.subjects) == SubjectsFor(pol, c, Known(c, vs), vs, i)
  {
  }

  ghost function CountFate(pol: seq<Exemption>, c: Context, vs: seq<Verdict>, n: nat, f: Fate): nat
    requires n <= |pol|
  {
    if n == 0 then 0 else CountFate(pol, c, vs, n - 1, f) + if FateOf(pol, c, vs, n - 1) == f then 1 else 0
  }

  lemma {:induction false} RecordsLength(pol: seq<Exemption>, c: Context, vs: seq<Verdict>, n: nat,
                                         records: seq<Record>)
    requires n <= |pol| && records == RecordsUpTo(pol, c, Known(c, vs), vs, n)
    ensures |records| + CountFate(pol, c, vs, n, Dormant) == n
  {
    if n > 0 {
      RecordsLength(pol, c, vs, n - 1, RecordsUpTo(pol, c, Known(c, vs), vs, n - 1));
      RecordSaysFate(pol, c, vs, n - 1);
    }
  }

  /** Every exemption of the file is accounted for: it has one record in the report, orphan,
      expired or applied, or it is dormant and has none. */
  lemma FatesAddUp(pol: seq<Exemption>, c: Context, vs: seq<Verdict>, rep: Report)
    requires IsReport(pol, c, vs, rep)
    ensures |rep.records| == |pol| - CountFate(pol, c, vs, |pol|, Dormant)
    ensures Count(rep.records, Orphan) == CountFate(pol, c, vs, |pol|, IsOrphan)
    ensures Count(rep.records, Expired) == CountFate(pol, c, vs, |pol|, HasExpired)
    ensures Count(rep.records, Applied) == CountFate(pol, c, vs, |pol|, HasEffect)
    ensures Count(rep.records, Orphan) + Count(rep.records, Expired) + Count(rep.records, Applied) == |rep.records|
  {
    var records := RecordsUpTo(pol, c, Known(c, vs), vs, |pol|);
    RecordsLength(pol, c, vs, |pol|, records);
    assert |multiset(rep.records)| == |multiset(records)|;
    ReportCounts(pol, c, vs, rep, Orphan);
    ReportCounts(pol, c, vs, rep, Expired);
    ReportCounts(pol, c, vs, rep, Applied);
    EffectsAddUp(rep.records);
  }

  lemma {:induction false} EffectsAddUp(records: seq<Record>)
    ensures Count(records, Orphan) + Count(records, Expired) + Count(records, Applied) == |records|
  {
    if records != [] {
      EffectsAddUp(records[1..]);
    }
  }

  function FateFor(e: Effect): Fate {
    match e
    case Orphan => IsOrphan
    case Expired => HasExpired
    case Applied => HasEffect
  }

  lemma {:induction false} CountAppend(a: seq<Record>, b: seq<Record>, e: Effect)
    ensures Count(a + b, e) == Count(a, e) + Count(b, e)
  {
    if a == [] {
      assert a + b == b;
    } else {
      assert (a + b)[1..] == a[1..] + b;
      CountAppend(a[1..], b, e);
    }
  }

  lemma {:induction false} CountRecords(pol: seq<Exemption>, c: Context, vs: seq<Verdict>, n: nat, e: Effect,
                                        records: seq<Record>)
    requires n <= |pol| && records == RecordsUpTo(pol, c, Known(c, vs), vs, n)
    ensures Count(records, e) == CountFate(pol, c, vs, n, FateFor(e))
  {
    if n > 0 {
      var before := RecordsUpTo(pol, c, Known(c, vs), vs, n - 1);
      var last := ToSeq(RecordAt(pol, c, Known(c, vs), vs, n - 1));
      CountRecords(pol, c, vs, n - 1, e, before);
      CountRecordAt(pol, c, vs, n - 1, e);
      assert records == before + last;
      CountAppend(before, last, e);
    }
  }

  lemma CountRecordAt(pol: seq<Exemption>, c: Context, vs: seq<Verdict>, i: nat, e: Effect)
    requires i < |pol|
    ensures Count(ToSeq(RecordAt(pol, c, Known(c, vs), vs, i)), e) ==
              if FateOf(pol, c, vs, i) == FateFor(e) then 1 else 0
  {
  }

  lemma {:induction false} CountRemove(s: seq<Record>, i: nat, e: Effect)
    requires i < |s|
    ensures Count(s, e) == Count(s[..i] + s[i + 1..], e) + if s[i].effect == e then 1 else 0
  {
    CountAppend(s[..i], s[i..], e);
    CountAppend(s[..i], s[i + 1..], e);
    assert s == s[..i] + s[i..];
    assert s[i..][1..] == s[i + 1..];
  }

  lemma {:induction false} CountPermutation(a: seq<Record>, b: seq<Record>, e: Effect)
    requires multiset(a) == multiset(b)
    ensures Count(a, e) == Count(b, e)
    decreases |a|
  {
    if a == [] {
      assert |multiset(b)| == 0;
    } else {
      assert a[0] in multiset(b);
      var i :| 0 <= i < |b| && b[i] == a[0];
      CountRemove(b, i, e);
      var rest := b[..i] + b[i + 1..];
      RemovedMultiset(b, i);
      TailMultiset(a);
      CountPermutation(a[1..], rest, e);
    }
  }

  /** The report counts each fate but dormancy, once per exemption. */
  lemma ReportCounts(pol: seq<Exemption>, c: Context, vs: seq<Verdict>, rep: Report, e: Effect)
    requires IsReport(pol, c, vs, rep)
    ensures Count(rep.records, e) == CountFate(pol, c, vs, |pol|, FateFor(e))
  {
    CountPermutation(rep.records, RecordsUpTo(pol, c, Known(c, vs), vs, |pol|), e);
    CountRecords(pol, c, vs, |pol|, e, RecordsUpTo(pol, c, Known(c, vs), vs, |pol|));
  }

  lemma {:induction false} CountFatePositive(pol: seq<Exemption>, c: Context, vs: seq<Verdict>, n: nat, f: Fate)
    requires n <= |pol|
    ensures CountFate(pol, c, vs, n, f) > 0 <==> exists i :: 0 <= i < n && FateOf(pol, c, vs, i) == f
  {
    if n > 0 {
      CountFatePositive(pol, c, vs, n - 1, f);
    }
  }

  lemma EffectHasVerdict(pol: seq<Exemption>, c: Context, vs: seq<Verdict>, i: nat, subject: string) returns (k: nat)
    requires i < |pol| && subject in SubjectsFor(pol, c, Known(c, vs), vs, i)
    ensures k < |vs| && vs[k].subject == subject && vs[k].control == pol[i].control
    ensures AppliedAll(pol, c, vs)[k].status == Exempted
  {
    var known := Known(c, vs);
    var v :| v in vs && Attributed(pol, c, known, v) == Some(i) && v.subject == subject;
    MatchIsFirst(pol, 0, c, known, v.control, v.subject);
    k :| 0 <= k < |vs| && vs[k] == v;
  }

  lemma VerdictHasEffect(pol: seq<Exemption>, c: Context, vs: seq<Verdict>, k: nat) returns (i: nat)
    requires k < |vs| && vs[k].status != Exempted && AppliedAll(pol, c, vs)[k].status == Exempted
    ensures i < |pol| && pol[i].control == vs[k].control && FateOf(pol, c, vs, i) == HasEffect
    ensures vs[k].subject in SubjectsFor(pol, c, Known(c, vs), vs, i)
  {
    assert vs[k] in vs;
    i := Attributed(pol, c, Known(c, vs), vs[k]).value;
    MatchIsFirst(pol, 0, c, Known(c, vs), vs[k].control, vs[k].subject);
    assert vs[k].subject in SubjectsFor(pol, c, Known(c, vs), vs, i);
  }

  /** The report says an exemption applied exactly when a verdict became exempted. */
  lemma AppliedMeansExempted(pol: seq<Exemption>, c: Context, vs: seq<Verdict>, rep: Report)
    requires IsReport(pol, c, vs, rep)
    requires forall v :: v in vs ==> v.status != Exempted
    ensures HasApplied(rep) <==> exists k :: 0 <= k < |vs| && AppliedAll(pol, c, vs)[k].status == Exempted
  {
    ReportCounts(pol, c, vs, rep, Applied);
    CountFatePositive(pol, c, vs, |pol|, HasEffect);
    if HasApplied(rep) {
      var i :| 0 <= i < |pol| && FateOf(pol, c, vs, i) == HasEffect;
      var subject :| subject in SubjectsFor(pol, c, Known(c, vs), vs, i);
      var k := EffectHasVerdict(pol, c, vs, i, subject);
    }
    if k: nat :| k < |vs| && AppliedAll(pol, c, vs)[k].status == Exempted {
      assert vs[k] in vs;
      var i := VerdictHasEffect(pol, c, vs, k);
    }
  }

  /** The records of the report are those of the positions of the file. */
  lemma {:induction false} RecordsAre(pol: seq<Exemption>, c: Context, vs: seq<Verdict>, n: nat, r: Record,
                                      records: seq<Record>)
    requires n <= |pol| && records == RecordsUpTo(pol, c, Known(c, vs), vs, n)
    ensures r in records <==> exists i :: 0 <= i < n && RecordAt(pol, c, Known(c, vs), vs, i) == Some(r)
  {
    if n > 0 {
      RecordsAre(pol, c, vs, n - 1, r, RecordsUpTo(pol, c, Known(c, vs), vs, n - 1));
    }
  }

  lemma ReportedRecords(pol: seq<Exemption>, c: Context, vs: seq<Verdict>, rep: Report, r: Record)
    requires IsReport(pol, c, vs, rep)
    ensures r in rep.records <==> exists i :: 0 <= i < |pol| && RecordAt(pol, c, Known(c, vs), vs, i) == Some(r)
  {
    var records := RecordsUpTo(pol, c, Known(c, vs), vs, |pol|);
    RecordsAre(pol, c, vs, |pol|, r, records);
    assert r in rep.records <==> r in multiset(rep.records);
    assert r in records <==> r in multiset(records);
  }

  /** A record of the report says that an exemption set this pair aside. */
  ghost predicate NamesPair(rep: Report, control: string, subject: string) {
    exists r :: r in rep.records && r.effect == Applied && r.exemption.control == control && subject in r.subjects
  }

  /** The pairs the applied records of the report name are those of the newly exempted
      verdicts. */
  lemma AppliedPairs(pol: seq<Exemption>, c: Context, vs: seq<Verdict>, rep: Report, control: string, subject: string)
    requires IsReport(pol, c, vs, rep)
    requires forall v :: v in vs ==> v.status != Exempted
    ensures NamesPair(rep, control, subject) <==>
            exists k :: 0 <= k < |vs| && AppliedAll(pol, c, vs)[k].status == Exempted
                        && vs[k].control == control && vs[k].subject == subject
  {
    if NamesPair(rep, control, subject) {
      var r :| r in rep.records && r.effect == Applied && r.exemption.control == control && subject in r.subjects;
      var k := NamedVerdict(pol, c, vs, rep, r, subject);
    }
    if k: nat :| k < |vs| && AppliedAll(pol, c, vs)[k].status == Exempted
                 && vs[k].control == control && vs[k].subject == subject {
      assert vs[k] in vs;
      var r := NamingRecord(pol, c, vs, rep, k);
    }
  }

  lemma NamedVerdict(pol: seq<Exemption>, c: Context, vs: seq<Verdict>, rep: Report, r: Record, subject: string)
    returns (k: nat)
    requires IsReport(pol, c, vs, rep) && r in rep.records && r.effect == Applied && subject in r.subjects
    ensures k < |vs| && vs[k].subject == subject && vs[k].control == r.exemption.control
    ensures AppliedAll(pol, c, vs)[k].status == Exempted
  {
    ReportedRecords(pol, c, vs, rep, r);
    var i: nat :| i < |pol| && RecordAt(pol, c, Known(c, vs), vs, i) == Some(r);
    RecordSaysFate(pol, c, vs, i);
    assert subject in Elements(r.subjects);
    k := EffectHasVerdict(pol, c, vs, i, subject);
  }

  lemma NamingRecord(pol: seq<Exemption>, c: Context, vs: seq<Verdict>, rep: Report, k: nat) returns (r: Record)
    requires IsReport(pol, c, vs, rep)
    requires k < |vs| && vs[k].status != Exempted && AppliedAll(pol, c, vs)[k].status == Exempted
    ensures r in rep.records && r.effect == Applied
    ensures r.exemption.control == vs[k].control && vs[k].subject in r.subjects
  {
    var i := VerdictHasEffect(pol, c, vs, k);
    RecordSaysFate(pol, c, vs, i);
    r := RecordAt(pol, c, Known(c, vs), vs, i).value;
    ReportedRecords(pol, c, vs, rep, r);
    assert vs[k].subject in Elements(r.subjects);
  }
}
