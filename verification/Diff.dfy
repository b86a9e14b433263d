/** What changed between two evidence bundles (internal/assess/diff.go): verdicts by control
    and subject, resources by provider, type and identifier. */
module Diff {
  import opened Wrappers
  import opened Order
  import opened Model
  import opened Assess
  import opened KeyedDiff

  datatype IndexError = EmptyIdentifier | Duplicate

  // ----- Verdicts -----

  datatype ResultKey = ResultKey(control: string, subject: string)

  function KeyOf(v: Verdict): ResultKey {
    ResultKey(v.control, v.subject)
  }

  function ResultOrder(k: ResultKey): Key {
    [k.control, k.subject]
  }

  lemma ResultOrderSeparates(keys: set<ResultKey>)
    ensures Separates(ResultOrder, keys)
  {
  }

  /** Every verdict names a control, and no two have the same control and subject. */
  ghost predicate Indexable(rs: seq<Verdict>) {
    && (forall i :: 0 <= i < |rs| ==> rs[i].control != "")
    && (forall i, j :: 0 <= i < j < |rs| ==> KeyOf(rs[i]) != KeyOf(rs[j]))
  }

  /** The status of each control and subject. */
  function Statuses(rs: seq<Verdict>): map<ResultKey, Status> {
    if rs == [] then map[]
    else
      var last := |rs| - 1;
      Statuses(rs[..last])[KeyOf(rs[last]) := rs[last].status]
  }

  lemma {:induction false} StatusKeys(rs: seq<Verdict>, k: ResultKey)
    ensures k in Statuses(rs) <==> exists i :: 0 <= i < |rs| && KeyOf(rs[i]) == k
  {
    if rs != [] {
      StatusKeys(rs[..|rs| - 1], k);
    }
  }

  lemma {:induction false} StatusOf(rs: seq<Verdict>, i: nat)
    requires Indexable(rs) && i < |rs|
    ensures KeyOf(rs[i]) in Statuses(rs) && Statuses(rs)[KeyOf(rs[i])] == rs[i].status
  {
    var last := |rs| - 1;
    if i < last {
      StatusOf(rs[..last], i);
    }
  }

  lemma {:induction false} StatusesSize(rs: seq<Verdict>)
    requires Indexable(rs)
    ensures |Statuses(rs)| == |rs|
  {
    if rs != [] {
      var last := |rs| - 1;
      StatusesSize(rs[..last]);
      StatusKeys(rs[..last], KeyOf(rs[last]));
    }
  }

  /** The index does not depend on the order of the verdicts. */
  lemma OrderDoesNotShow(a: seq<Verdict>, b: seq<Verdict>)
    requires Indexable(a) && Indexable(b) && forall v :: v in a <==> v in b
    ensures Statuses(a) == Statuses(b)
  {
    forall k ensures k in Statuses(a) ==> k in Statuses(b) && Statuses(b)[k] == Statuses(a)[k] {
      IndexedAlike(a, b, k);
    }
    forall k ensures k in Statuses(b) ==> k in Statuses(a) {
      IndexedAlike(b, a, k);
    }
    MapsAgree(Statuses(a), Statuses(b));
  }

  lemma IndexedAlike(a: seq<Verdict>, b: seq<Verdict>, k: ResultKey)
    requires Indexable(a) && Indexable(b) && forall v :: v in a ==> v in b
    ensures k in Statuses(a) ==> k in Statuses(b) && Statuses(b)[k] == Statuses(a)[k]
  {
    StatusKeys(a, k);
    if i: nat :| i < |a| && KeyOf(a[i]) == k {
      StatusOf(a, i);
      assert a[i] in a;
      var j: nat :| j < |b| && b[j] == a[i];
      StatusOf(b, j);
    }
  }

  method IndexResults(rs: seq<Verdict>) returns (r: Result<map<ResultKey, Status>, IndexError>)
    ensures r.Success? <==> Indexable(rs)
    ensures r.Success? ==> r.value == Statuses(rs)
    ensures r.Failure? ==> exists n :: 0 <= n < |rs| && Indexable(rs[..n]) && !Indexable(rs[..n + 1])
                                       && r.error == if rs[n].control == "" then EmptyIdentifier else Duplicate
  {
    var index := map[];
    for i := 0 to |rs|
      invariant Indexable(rs[..i])
      invariant index == Statuses(rs[..i])
    {
      assert rs[..i + 1][..i] == rs[..i];
      if rs[i].control == "" {
        assert rs[..i + 1][i] == rs[i];
        return Failure(EmptyIdentifier);
      }
      StatusKeys(rs[..i], KeyOf(rs[i]));
      if KeyOf(rs[i]) in index {
        assert !Indexable(rs[..i + 1]);
        return Failure(Duplicate);
      }
      index := index[KeyOf(rs[i]) := rs[i].status];
    }
    assert rs[..|rs|] == rs;
    return Success(index);
  }

  // ----- The change of a verdict -----

  datatype Kind = Added | Removed | Fixed | Regressed | VisibilityLost | VisibilityRestored | StatusChanged

  const NO_STATUS := OtherStatus("")

  datatype ResultChange = ResultChange(key: ResultKey, kind: Kind, before: Status, after: Status)

  predicate IsVisible(s: Status) {
    s != NotEvaluated && s != Error
  }

  function ResultChangeKind(before: Status, after: Status): Kind {
    if before == Fail && after == Pass then Fixed
    else if before == Pass && after == Fail then Regressed
    else if IsVisible(before) && !IsVisible(after) then VisibilityLost
    else if !IsVisible(before) && IsVisible(after) then VisibilityRestored
    else StatusChanged
  }

  function Describe(e: Edit<ResultKey, Status>): ResultChange {
    match (e.before, e.after)
    case (Some(b), Some(a)) => ResultChange(e.key, ResultChangeKind(b, a), b, a)
    case (Some(b), None) => ResultChange(e.key, Removed, b, NO_STATUS)
    case (None, Some(a)) => ResultChange(e.key, Added, NO_STATUS, a)
    case (None, None) => ResultChange(e.key, StatusChanged, NO_STATUS, NO_STATUS)
  }

  function Described(edits: seq<Edit<ResultKey, Status>>): (r: seq<ResultChange>)
    ensures |r| == |edits| && forall i :: 0 <= i < |r| ==> r[i] == Describe(edits[i])
  {
    seq(|edits|, i requires 0 <= i < |edits| => Describe(edits[i]))
  }

  ghost function ResultChanges(b: map<ResultKey, Status>, a: map<ResultKey, Status>): seq<ResultChange> {
    Described(Edits(ResultOrder, b, a))
  }

  datatype Counters = Counters(fixed: nat, regressed: nat, lost: nat, restored: nat,
                               changed: nat, added: nat, removed: nat)
  {
    function Total(): nat {
      fixed + regressed + lost + restored + changed + added + removed
    }

    /** Seen from the other bundle. */
    function Swapped(): Counters {
      Counters(regressed, fixed, restored, lost, changed, removed, added)
    }
  }

  function Bump(c: Counters, k: Kind): Counters {
    match k
    case Added => c.(added := c.added + 1)
    case Removed => c.(removed := c.removed + 1)
    case Fixed => c.(fixed := c.fixed + 1)
    case Regressed => c.(regressed := c.regressed + 1)
    case VisibilityLost => c.(lost := c.lost + 1)
    case VisibilityRestored => c.(restored := c.restored + 1)
    case StatusChanged => c.(changed := c.changed + 1)
  }

  function Tally(changes: seq<ResultChange>): Counters {
    if changes == [] then Counters(0, 0, 0, 0, 0, 0, 0)
    else Bump(Tally(changes[..|changes| - 1]), changes[|changes| - 1].kind)
  }

  lemma TallyStep(changes: seq<ResultChange>, c: ResultChange)
    ensures Tally(changes + [c]) == Bump(Tally(changes), c.kind)
  {
  }

  lemma DescribedStep(edits: seq<Edit<ResultKey, Status>>, more: seq<Edit<ResultKey, Status>>)
    ensures Described(edits + more) == Described(edits) + Described(more)
  {
  }

  /** The change of one key, if any. */
  method ChangeOf(b: map<ResultKey, Status>, a: map<ResultKey, Status>, key: ResultKey)
    returns (r: Option<ResultChange>)
    requires key in b || key in a
    ensures match r
            case None => EditAt(b, a, key) == []
            case Some(c) => Described(EditAt(b, a, key)) == [c]
  {
    if key in b && key in a && b[key] == a[key] {
      return None;
    }
    assert EditAt(b, a, key) == [Edit(key, Get(b, key), Get(a, key))];
    if key !in b {
      return Some(ResultChange(key, Added, NO_STATUS, a[key]));
    } else if key !in a {
      return Some(ResultChange(key, Removed, b[key], NO_STATUS));
    } else {
      return Some(ResultChange(key, ResultChangeKind(b[key], a[key]), b[key], a[key]));
    }
  }

  method MergeResults(b: map<ResultKey, Status>, a: map<ResultKey, Status>)
    returns (changes: seq<ResultChange>, counters: Counters)
    ensures changes == ResultChanges(b, a)
    ensures counters == Tally(changes)
  {
    ResultOrderSeparates(b.Keys + a.Keys);
    var ordered := SortKeys(ResultOrder, b.Keys + a.Keys);
    changes, counters := [], Counters(0, 0, 0, 0, 0, 0, 0);
    for i := 0 to |ordered|
      invariant changes == Described(EditsOver(b, a, ordered[..i]))
      invariant counters == Tally(changes)
    {
      EditsStep(b, a, ordered, i);
      DescribedStep(EditsOver(b, a, ordered[..i]), EditAt(b, a, ordered[i]));
      assert ordered[i] in Elements(ordered);
      var change := ChangeOf(b, a, ordered[i]);
      if change.Some? {
        TallyStep(changes, change.value);
        changes := changes + [change.value];
        counters := Bump(counters, change.value.kind);
      }
    }
    assert ordered[..|ordered|] == ordered;
  }

  datatype Side = Before | After

  method CompareResults(before: seq<Verdict>, after: seq<Verdict>)
    returns (r: Result<(seq<ResultChange>, Counters), (Side, IndexError)>)
    ensures r.Success? <==> Indexable(before) && Indexable(after)
    ensures r.Success? ==>
              r.value.0 == ResultChanges(Statuses(before), Statuses(after)) && r.value.1 == Tally(r.value.0)
    ensures r.Failure? ==> (r.error.0 == Before <==> !Indexable(before))
  {
    var was := IndexResults(before);
    if was.Failure? {
      return Failure((Before, was.error));
    }
    var now := IndexResults(after);
    if now.Failure? {
      return Failure((After, now.error));
    }
    var changes, counters := MergeResults(was.value, now.value);
    return Success((changes, counters));
  }

  // ----- What the changes amount to -----

  ghost predicate StrictlyOrdered(changes: seq<ResultChange>) {
    forall i, j {:trigger changes[i], changes[j]} :: 0 <= i < j < |changes| ==>
      KeyLe(ResultOrder(changes[i].key), ResultOrder(changes[j].key)) && changes[i].key != changes[j].key
  }

  /** The change of a key, from the two statuses it has. */
  function ChangeAt(b: map<ResultKey, Status>, a: map<ResultKey, Status>, k: ResultKey): ResultChange {
    Describe(Edit(k, Get(b, k), Get(a, k)))
  }

  /** The changes are exactly the keys whose status differs, each once, in strict order. */
  lemma ResultChangesExactly(b: map<ResultKey, Status>, a: map<ResultKey, Status>)
    ensures StrictlyOrdered(ResultChanges(b, a))
    ensures forall c :: c in ResultChanges(b, a) <==> Get(b, c.key) != Get(a, c.key) && c == ChangeAt(b, a, c.key)
  {
    EditsExactly(ResultOrder, b, a);
    forall c ensures c in ResultChanges(b, a) <==> Get(b, c.key) != Get(a, c.key) && c == ChangeAt(b, a, c.key) {
      DescribedMember(b, a, Edits(ResultOrder, b, a), c);
    }
    DescribedOrder(Edits(ResultOrder, b, a));
  }

  lemma DescribedMember(b: map<ResultKey, Status>, a: map<ResultKey, Status>, edits: seq<Edit<ResultKey, Status>>,
                        c: ResultChange)
    requires AreDifferences(b, a, edits)
    ensures c in Described(edits) <==> Get(b, c.key) != Get(a, c.key) && c == ChangeAt(b, a, c.key)
  {
  }

  lemma DescribedOrder(edits: seq<Edit<ResultKey, Status>>)
    requires KeysIncrease(ResultOrder, edits)
    ensures StrictlyOrdered(Described(edits))
  {
  }

  /** What a reader of the changes does to the statuses it had. */
  function Replay(m: map<ResultKey, Status>, changes: seq<ResultChange>): map<ResultKey, Status> {
    if changes == [] then m
    else
      var last := changes[|changes| - 1];
      var done := Replay(m, changes[..|changes| - 1]);
      if last.kind == Removed then done - {last.key} else done[last.key := last.after]
  }

  lemma {:induction false} ReplayIsPatch(m: map<ResultKey, Status>, edits: seq<Edit<ResultKey, Status>>)
    requires forall i :: 0 <= i < |edits| ==> edits[i].before != edits[i].after
    ensures Replay(m, Described(edits)) == Patched(m, edits)
  {
    if edits != [] {
      var last := |edits| - 1;
      ReplayIsPatch(m, edits[..last]);
      assert Described(edits)[..last] == Described(edits[..last]);
      assert Described(edits)[last] == Describe(edits[last]);
    }
  }

  /** The changes are a patch: replayed on the statuses before, they give the statuses after. */
  lemma ChangesArePatch(b: map<ResultKey, Status>, a: map<ResultKey, Status>)
    ensures Replay(b, ResultChanges(b, a)) == a
  {
    var edits := Edits(ResultOrder, b, a);
    EditsExactly(ResultOrder, b, a);
    forall i | 0 <= i < |edits| ensures edits[i].before != edits[i].after {
      assert edits[i] in edits;
    }
    ReplayIsPatch(b, edits);
    EditsArePatch(ResultOrder, b, a);
  }

  function SwapKind(k: Kind): Kind {
    match k
    case Added => Removed
    case Removed => Added
    case Fixed => Regressed
    case Regressed => Fixed
    case VisibilityLost => VisibilityRestored
    case VisibilityRestored => VisibilityLost
    case StatusChanged => StatusChanged
  }

  function SwapChange(c: ResultChange): ResultChange {
    ResultChange(c.key, SwapKind(c.kind), c.after, c.before)
  }

  lemma DescribeReversed(e: Edit<ResultKey, Status>)
    requires e.before != e.after
    ensures Describe(Reverse(e)) == SwapChange(Describe(e))
  {
  }

  lemma {:induction false} TallySwapped(changes: seq<ResultChange>, swapped: seq<ResultChange>)
    requires |swapped| == |changes| && forall i :: 0 <= i < |changes| ==> swapped[i] == SwapChange(changes[i])
    ensures Tally(swapped) == Tally(changes).Swapped()
  {
    if changes != [] {
      var last := |changes| - 1;
      TallySwapped(changes[..last], swapped[..last]);
    }
  }

  /** Comparing the other way round: the same keys in the same order, fixed for regressed,
      lost for restored, added for removed, and the counters exchanged accordingly. */
  lemma ChangesSwap(b: map<ResultKey, Status>, a: map<ResultKey, Status>)
    ensures |ResultChanges(a, b)| == |ResultChanges(b, a)|
    ensures forall i :: 0 <= i < |ResultChanges(b, a)| ==> ResultChanges(a, b)[i] == SwapChange(ResultChanges(b, a)[i])
    ensures Tally(ResultChanges(a, b)) == Tally(ResultChanges(b, a)).Swapped()
  {
    var edits := Edits(ResultOrder, b, a);
    EditsExactly(ResultOrder, b, a);
    EditsReverse(ResultOrder, b, a);
    forall i | 0 <= i < |edits| ensures ResultChanges(a, b)[i] == SwapChange(ResultChanges(b, a)[i]) {
      assert edits[i] in edits;
      DescribeReversed(edits[i]);
    }
    TallySwapped(ResultChanges(b, a), ResultChanges(a, b));
  }

  lemma {:induction false} TallyTotal(changes: seq<ResultChange>)
    ensures Tally(changes).Total() == |changes|
  {
    if changes != [] {
      TallyTotal(changes[..|changes| - 1]);
    }
  }

  lemma {:induction false} TallyCounts(edits: seq<Edit<ResultKey, Status>>)
    requires forall i :: 0 <= i < |edits| ==> edits[i].before != edits[i].after
    ensures Tally(Described(edits)).added == CountNew(edits) && Tally(Described(edits)).removed == CountGone(edits)
  {
    if edits != [] {
      var last := |edits| - 1;
      TallyCounts(edits[..last]);
      assert Described(edits)[..last] == Described(edits[..last]);
      assert Described(edits)[last] == Describe(edits[last]);
    }
  }

  /** The counters miss no change, and what was added minus what was removed is what the
      second list has more than the first. */
  lemma CountersAddUp(before: seq<Verdict>, after: seq<Verdict>)
    requires Indexable(before) && Indexable(after)
    ensures var changes := ResultChanges(Statuses(before), Statuses(after));
            Tally(changes).Total() == |changes| && Tally(changes).added - Tally(changes).removed == |after| - |before|
  {
    var b, a := Statuses(before), Statuses(after);
    CountersBalance(b, a, Edits(ResultOrder, b, a));
    StatusesSize(before);
    StatusesSize(after);
  }

  lemma CountersBalance(b: map<ResultKey, Status>, a: map<ResultKey, Status>, edits: seq<Edit<ResultKey, Status>>)
    requires edits == Edits(ResultOrder, b, a)
    ensures Tally(Described(edits)).Total() == |Described(edits)|
    ensures Tally(Described(edits)).added - Tally(Described(edits)).removed == |a| - |b|
  {
    EditsExactly(ResultOrder, b, a);
    forall i | 0 <= i < |edits| ensures edits[i].before != edits[i].after {
      assert edits[i] in edits;
    }
    TallyCounts(edits);
    TallyTotal(Described(edits));
    EditsBalance(ResultOrder, b, a, edits);
  }

  function CounterOf(c: Counters, k: Kind): nat {
    match k
    case Added => c.added
    case Removed => c.removed
    case Fixed => c.fixed
    case Regressed => c.regressed
    case VisibilityLost => c.lost
    case VisibilityRestored => c.restored
    case StatusChanged => c.changed
  }

  /** The keys of the changes of one kind. */
  ghost function KeysOf(changes: seq<ResultChange>, k: Kind): set<ResultKey> {
    set i | 0 <= i < |changes| && changes[i].kind == k :: changes[i].key
  }

  lemma KeysStep(changes: seq<ResultChange>, k: Kind)
    requires changes != []
    ensures var last := changes[|changes| - 1];
            KeysOf(changes, k) == KeysOf(changes[..|changes| - 1], k) + if last.kind == k then {last.key} else {}
  {
    var front, last := changes[..|changes| - 1], changes[|changes| - 1];
    forall x ensures x in KeysOf(changes, k) <==> x in KeysOf(front, k) || (last.kind == k && x == last.key) {
      if x in KeysOf(front, k) {
        var i :| 0 <= i < |front| && front[i].kind == k && front[i].key == x;
        assert changes[i] == front[i];
      }
    }
  }

  lemma {:induction false} TallyKeys(changes: seq<ResultChange>, k: Kind)
    requires StrictlyOrdered(changes)
    ensures CounterOf(Tally(changes), k) == |KeysOf(changes, k)|
  {
    if changes != [] {
      var front, last := changes[..|changes| - 1], changes[|changes| - 1];
      FreshKey(changes, k);
      TallyKeys(front, k);
      KeysStep(changes, k);
      BumpCounter(Tally(front), last.kind, k);
    }
  }

  lemma FreshKey(changes: seq<ResultChange>, k: Kind)
    requires StrictlyOrdered(changes) && changes != []
    ensures StrictlyOrdered(changes[..|changes| - 1])
    ensures changes[|changes| - 1].key !in KeysOf(changes[..|changes| - 1], k)
  {
  }

  lemma BumpCounter(c: Counters, kind: Kind, k: Kind)
    ensures CounterOf(Bump(c, kind), k) == CounterOf(c, k) + if kind == k then 1 else 0
  {
  }

  /** The pairs a counter is about, said of the two lists of statuses alone. */
  ghost function Pairs(b: map<ResultKey, Status>, a: map<ResultKey, Status>, k: Kind): set<ResultKey> {
    set x | x in b.Keys + a.Keys && Get(b, x) != Get(a, x) && ChangeAt(b, a, x).kind == k
  }

  /** Each counter is the number of pairs of its kind: none is missed, none counted twice. */
  lemma CountersCountPairs(b: map<ResultKey, Status>, a: map<ResultKey, Status>, k: Kind)
    ensures CounterOf(Tally(ResultChanges(b, a)), k) == |Pairs(b, a, k)|
  {
    ResultChangesExactly(b, a);
    TallyKeys(ResultChanges(b, a), k);
    PairsAreKeys(b, a, ResultChanges(b, a), k);
  }

  lemma PairsAreKeys(b: map<ResultKey, Status>, a: map<ResultKey, Status>, changes: seq<ResultChange>, k: Kind)
    requires forall c :: c in changes <==> Get(b, c.key) != Get(a, c.key) && c == ChangeAt(b, a, c.key)
    ensures KeysOf(changes, k) == Pairs(b, a, k)
  {
    forall x ensures x in KeysOf(changes, k) <==> x in Pairs(b, a, k) {
      if x in KeysOf(changes, k) {
        var i :| 0 <= i < |changes| && changes[i].kind == k && changes[i].key == x;
        assert changes[i] in changes;
      }
      if x in Pairs(b, a, k) {
        var c := ChangeAt(b, a, x);
        assert c.key == x && c in changes;
        var i :| 0 <= i < |changes| && changes[i] == c;
      }
    }
  }

  /** So the deviations counted as fixed are those that now pass, and no others: one that is
      no longer seen is counted as lost. */
  lemma LossIsNotAFix(b: map<ResultKey, Status>, a: map<ResultKey, Status>)
    ensures Tally(ResultChanges(b, a)).fixed == |set x | x in b && x in a && b[x] == Fail && a[x] == Pass|
    ensures Tally(ResultChanges(b, a)).lost == |set x | x in b && x in a && IsVisible(b[x]) && !IsVisible(a[x])|
  {
    CountersCountPairs(b, a, Fixed);
    CountersCountPairs(b, a, VisibilityLost);
    PairKind(b, a);
    assert Pairs(b, a, Fixed) == set x | x in b && x in a && b[x] == Fail && a[x] == Pass;
    assert Pairs(b, a, VisibilityLost) == set x | x in b && x in a && IsVisible(b[x]) && !IsVisible(a[x]);
  }

  lemma PairKind(b: map<ResultKey, Status>, a: map<ResultKey, Status>)
    ensures forall x :: x in Pairs(b, a, Fixed) <==> x in b && x in a && b[x] == Fail && a[x] == Pass
    ensures forall x :: x in Pairs(b, a, VisibilityLost) <==> x in b && x in a && IsVisible(b[x]) && !IsVisible(a[x])
  {
  }

  // ----- Resources -----

  datatype ResourceKey = ResourceKey(provider: string, typ: string, id: string)

  datatype Presence = Present

  datatype ResourceChange = ResourceChange(key: ResourceKey, added: bool)

  function ResourceKeyOf(r: Resource): ResourceKey {
    ResourceKey(r.provider, r.typ, r.id)
  }

  function ResourceOrder(k: ResourceKey): Key {
    [k.provider, k.typ, k.id]
  }

  lemma ResourceOrderSeparates(keys: set<ResourceKey>)
    ensures Separates(ResourceOrder, keys)
  {
  }

  ghost predicate Identified(rs: seq<Resource>) {
    && (forall i :: 0 <= i < |rs| ==> rs[i].typ != "" && rs[i].id != "")
    && (forall i, j :: 0 <= i < j < |rs| ==> ResourceKeyOf(rs[i]) != ResourceKeyOf(rs[j]))
  }

  function Roster(rs: seq<Resource>): map<ResourceKey, Presence> {
    if rs == [] then map[] else Roster(rs[..|rs| - 1])[ResourceKeyOf(rs[|rs| - 1]) := Present]
  }

  lemma {:induction false} RosterKeys(rs: seq<Resource>, k: ResourceKey)
    ensures k in Roster(rs) <==> exists i :: 0 <= i < |rs| && ResourceKeyOf(rs[i]) == k
  {
    if rs != [] {
      RosterKeys(rs[..|rs| - 1], k);
    }
  }

  lemma {:induction false} RosterSize(rs: seq<Resource>)
    requires Identified(rs)
    ensures |Roster(rs)| == |rs|
  {
    if rs != [] {
      RosterSize(rs[..|rs| - 1]);
      RosterKeys(rs[..|rs| - 1], ResourceKeyOf(rs[|rs| - 1]));
    }
  }

  method IndexResources(rs: seq<Resource>) returns (r: Result<map<ResourceKey, Presence>, IndexError>)
    ensures r.Success? <==> Identified(rs)
    ensures r.Success? ==> r.value == Roster(rs)
    ensures r.Failure? ==> exists n :: 0 <= n < |rs| && Identified(rs[..n]) && !Identified(rs[..n + 1])
                                       && r.error == if rs[n].typ == "" || rs[n].id == ""
                                                        then EmptyIdentifier else Duplicate
  {
    var index := map[];
    for i := 0 to |rs|
      invariant Identified(rs[..i])
      invariant index == Roster(rs[..i])
    {
      assert rs[..i + 1][..i] == rs[..i];
      if rs[i].typ == "" || rs[i].id == "" {
        assert rs[..i + 1][i] == rs[i];
        return Failure(EmptyIdentifier);
      }
      RosterKeys(rs[..i], ResourceKeyOf(rs[i]));
      if ResourceKeyOf(rs[i]) in index {
        assert !Identified(rs[..i + 1]);
        return Failure(Duplicate);
      }
      index := index[ResourceKeyOf(rs[i]) := Present];
    }
    assert rs[..|rs|] == rs;
    return Success(index);
  }

  function Moves(edits: seq<Edit<ResourceKey, Presence>>): (r: seq<ResourceChange>)
    ensures |r| == |edits|
    ensures forall i :: 0 <= i < |r| ==> r[i] == ResourceChange(edits[i].key, edits[i].after.Some?)
  {
    seq(|edits|, i requires 0 <= i < |edits| => ResourceChange(edits[i].key, edits[i].after.Some?))
  }

  ghost function ResourceChanges(b: map<ResourceKey, Presence>, a: map<ResourceKey, Presence>): seq<ResourceChange> {
    Moves(Edits(ResourceOrder, b, a))
  }

  lemma OneSided(e: Edit<ResourceKey, Presence>)
    requires e.before != e.after
    ensures e.before.Some? <==> e.after.None?
  {
    assert e.before.Some? ==> e.before.value == Present;
    assert e.after.Some? ==> e.after.value == Present;
  }

  lemma MovesStep(edits: seq<Edit<ResourceKey, Presence>>, more: seq<Edit<ResourceKey, Presence>>)
    ensures Moves(edits + more) == Moves(edits) + Moves(more)
  {
  }

  method MoveOf(b: map<ResourceKey, Presence>, a: map<ResourceKey, Presence>, key: ResourceKey)
    returns (r: Option<ResourceChange>)
    requires key in b || key in a
    ensures Moves(EditAt(b, a, key)) == if r.Some? then [r.value] else []
  {
    var e := Edit(key, Get(b, key), Get(a, key));
    if (key in b) == (key in a) {
      assert b[key] == Present && a[key] == Present;
      return None;
    }
    assert EditAt(b, a, key) == [e];
    return Some(ResourceChange(key, key in a));
  }

  method MergeResources(b: map<ResourceKey, Presence>, a: map<ResourceKey, Presence>)
    returns (changes: seq<ResourceChange>)
    ensures changes == ResourceChanges(b, a)
  {
    ResourceOrderSeparates(b.Keys + a.Keys);
    var ordered := SortKeys(ResourceOrder, b.Keys + a.Keys);
    changes := [];
    for i := 0 to |ordered|
      invariant changes == Moves(EditsOver(b, a, ordered[..i]))
    {
      EditsStep(b, a, ordered, i);
      MovesStep(EditsOver(b, a, ordered[..i]), EditAt(b, a, ordered[i]));
      assert ordered[i] in Elements(ordered);
      var move := MoveOf(b, a, ordered[i]);
      if move.Some? {
        changes := changes + [move.value];
      }
    }
    assert ordered[..|ordered|] == ordered;
  }

  method CompareResources(before: seq<Resource>, after: seq<Resource>)
    returns (r: Result<seq<ResourceChange>, (Side, IndexError)>)
    ensures r.Success? <==> Identified(before) && Identified(after)
    ensures r.Success? ==> r.value == ResourceChanges(Roster(before), Roster(after))
    ensures r.Failure? ==> (r.error.0 == Before <==> !Identified(before))
  {
    var was := IndexResources(before);
    if was.Failure? {
      return Failure((Before, was.error));
    }
    var now := IndexResources(after);
    if now.Failure? {
      return Failure((After, now.error));
    }
    var changes := MergeResources(was.value, now.value);
    return Success(changes);
  }

  function CountAdded(changes: seq<ResourceChange>): nat {
    if changes == [] then 0 else CountAdded(changes[..|changes| - 1]) + if changes[|changes| - 1].added then 1 else 0
  }

  method CountMoves(changes: seq<ResourceChange>) returns (added: nat, removed: nat)
    ensures added == CountAdded(changes) && removed == |changes| - CountAdded(changes)
  {
    added, removed := 0, 0;
    for i := 0 to |changes|
      invariant added == CountAdded(changes[..i]) && removed == i - added
    {
      assert changes[..i + 1][..i] == changes[..i];
      if changes[i].added {
        added := added + 1;
      } else {
        removed := removed + 1;
      }
    }
    assert changes[..|changes|] == changes;
  }

  /** A resource changes exactly when one side has it and not the other, and the kind says
      which. */
  lemma ResourceChangesExactly(b: map<ResourceKey, Presence>, a: map<ResourceKey, Presence>, k: ResourceKey)
    ensures ResourceChange(k, true) in ResourceChanges(b, a) <==> k in a && k !in b
    ensures ResourceChange(k, false) in ResourceChanges(b, a) <==> k in b && k !in a
  {
    EditsExactly(ResourceOrder, b, a);
    MovesMember(b, a, Edits(ResourceOrder, b, a), k, true);
    MovesMember(b, a, Edits(ResourceOrder, b, a), k, false);
  }

  lemma MovesMember(b: map<ResourceKey, Presence>, a: map<ResourceKey, Presence>,
                    edits: seq<Edit<ResourceKey, Presence>>, k: ResourceKey, added: bool)
    requires AreDifferences(b, a, edits)
    ensures ResourceChange(k, added) in Moves(edits) <==> ((k in a) != (k in b) && added == (k in a))
  {
    var changes := Moves(edits);
    var e := Edit(k, Get(b, k), Get(a, k));
    if ResourceChange(k, added) in changes {
      var i :| 0 <= i < |changes| && changes[i] == ResourceChange(k, added);
      assert edits[i] in edits;
      OneSided(edits[i]);
    }
    if e in edits {
      var i :| 0 <= i < |edits| && edits[i] == e;
      OneSided(e);
      assert changes[i] == ResourceChange(k, k in a);
    }
  }

  /** Taking away what left and adding what arrived gives the second inventory. */
  lemma MovesArePatch(b: map<ResourceKey, Presence>, a: map<ResourceKey, Presence>)
    ensures var changes := ResourceChanges(b, a);
            forall k :: k in a <==>
              ResourceChange(k, true) in changes || (k in b && ResourceChange(k, false) !in changes)
  {
    forall k ensures k in a <==> ResourceChange(k, true) in ResourceChanges(b, a)
                                 || (k in b && ResourceChange(k, false) !in ResourceChanges(b, a))
    {
      ResourceChangesExactly(b, a, k);
    }
  }

  /** Comparing the other way round exchanges arrivals and departures, in place. */
  lemma MovesSwap(b: map<ResourceKey, Presence>, a: map<ResourceKey, Presence>)
    ensures |ResourceChanges(a, b)| == |ResourceChanges(b, a)|
    ensures forall i :: 0 <= i < |ResourceChanges(b, a)| ==>
      ResourceChanges(a, b)[i] == ResourceChanges(b, a)[i].(added := !ResourceChanges(b, a)[i].added)
  {
    EditsReverse(ResourceOrder, b, a);
    EditsExactly(ResourceOrder, b, a);
    MovesReversed(Edits(ResourceOrder, b, a), Edits(ResourceOrder, a, b));
  }

  lemma MovesReversed(edits: seq<Edit<ResourceKey, Presence>>, reversed: seq<Edit<ResourceKey, Presence>>)
    requires |reversed| == |edits| && forall i :: 0 <= i < |edits| ==> reversed[i] == Reverse(edits[i])
    requires forall e :: e in edits ==> e.before != e.after
    ensures forall i :: 0 <= i < |edits| ==> Moves(reversed)[i] == Moves(edits)[i].(added := !Moves(edits)[i].added)
  {
    forall i | 0 <= i < |edits| ensures Moves(reversed)[i] == Moves(edits)[i].(added := !Moves(edits)[i].added) {
      OneSided(edits[i]);
    }
  }

  lemma {:induction false} AddedMoves(edits: seq<Edit<ResourceKey, Presence>>)
    requires forall i :: 0 <= i < |edits| ==> edits[i].before != edits[i].after
    ensures CountAdded(Moves(edits)) == CountNew(edits) && |edits| - CountAdded(Moves(edits)) == CountGone(edits)
  {
    if edits != [] {
      var last := |edits| - 1;
      AddedMoves(edits[..last]);
      assert Moves(edits)[..last] == Moves(edits[..last]);
      OneSided(edits[last]);
    }
  }

  /** What arrived minus what left is the growth of the inventory. */
  lemma ResourcesAddUp(before: seq<Resource>, after: seq<Resource>)
    requires Identified(before) && Identified(after)
    ensures var changes := ResourceChanges(Roster(before), Roster(after));
            CountAdded(changes) - (|changes| - CountAdded(changes)) == |after| - |before|
  {
    var b, a := Roster(before), Roster(after);
    RosterBalance(b, a, Edits(ResourceOrder, b, a));
    RosterSize(before);
    RosterSize(after);
  }

  lemma RosterBalance(b: map<ResourceKey, Presence>, a: map<ResourceKey, Presence>,
                      edits: seq<Edit<ResourceKey, Presence>>)
    requires edits == Edits(ResourceOrder, b, a)
    ensures CountAdded(Moves(edits)) - (|Moves(edits)| - CountAdded(Moves(edits))) == |a| - |b|
  {
    EditsExactly(ResourceOrder, b, a);
    forall i | 0 <= i < |edits| ensures edits[i].before != edits[i].after {
      assert edits[i] in edits;
    }
    AddedMoves(edits);
    EditsBalance(ResourceOrder, b, a, edits);
  }
}
