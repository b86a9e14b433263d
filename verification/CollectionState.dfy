/** The collection state (internal/model/collection.go): what a scan could really read,
    unit by unit. It is kept in place, and merged pessimistically. */
module CollectionState {
  import opened Wrappers
  import opened Order

  datatype Outcome =
    | NoOutcome
    | PermissionDenied
    | NotFound
    | RateLimited
    | Timeout
    | TruncatedPaging
    | Unreadable
    | Unauthenticated
    | Rejected
    | Unavailable

  datatype Unit = Unit(
    name: string,
    types: seq<string>,
    attempted: bool,
    complete: bool,
    error: Outcome,
    detail: string)
  {
    predicate Failing() {
      attempted && !complete
    }
  }

  // ----- What a history of records means -----

  ghost function Names(log: seq<Unit>): set<string> {
    set i | 0 <= i < |log| :: log[i].name
  }

  ghost function TypesFed(log: seq<Unit>, n: string): set<string> {
    set i, t | 0 <= i < |log| && log[i].name == n && t in log[i].types && t != "" :: t
  }

  ghost predicate EverAttempted(log: seq<Unit>, n: string) {
    exists i :: 0 <= i < |log| && log[i].name == n && log[i].attempted
  }

  ghost predicate AlwaysComplete(log: seq<Unit>, n: string) {
    forall i :: 0 <= i < |log| && log[i].name == n ==> log[i].complete
  }

  ghost function FirstNamed(log: seq<Unit>, n: string): (r: Option<Unit>)
    ensures r.Some? <==> exists i :: 0 <= i < |log| && log[i].name == n
  {
    if log == [] then None
    else if log[0].name == n then Some(log[0])
    else
      assert forall i :: 1 <= i < |log| ==> log[i] == log[1..][i - 1];
      FirstNamed(log[1..], n)
  }

  ghost function FirstIncomplete(log: seq<Unit>, n: string): (r: Option<Unit>)
    ensures r.None? <==> AlwaysComplete(log, n)
  {
    if log == [] then None
    else if log[0].name == n && !log[0].complete then Some(log[0])
    else
      assert forall i :: 1 <= i < |log| ==> log[i] == log[1..][i - 1];
      FirstIncomplete(log[1..], n)
  }

  /** The record whose error the merged unit publishes: the first failing one, or the very
      first one when none failed. */
  ghost function Cause(log: seq<Unit>, n: string): Unit
    requires n in Names(log)
  {
    match FirstIncomplete(log, n)
    case Some(u) => u
    case None => FirstNamed(log, n).value
  }

  /** The merged state of one unit: complete when every record was, attempted when one was,
      feeding every type a record named. */
  ghost function Entry(log: seq<Unit>, n: string): Unit
    requires n in Names(log)
  {
    Unit(n, Ordered(TypesFed(log, n)), EverAttempted(log, n), AlwaysComplete(log, n),
         Cause(log, n).error, Cause(log, n).detail)
  }

  ghost predicate NamesAscend(units: seq<Unit>) {
    && (forall i, j {:trigger StrLe(units[i].name, units[j].name)} ::
          0 <= i < j < |units| ==> StrLe(units[i].name, units[j].name))
    && (forall i, j :: 0 <= i < j < |units| ==> units[i].name != units[j].name)
  }

  /** The state a history leaves: one entry per name, in name order. */
  ghost predicate IsMerge(log: seq<Unit>, units: seq<Unit>) {
    && NamesAscend(units)
    && Names(units) == Names(log)
    && (forall i :: 0 <= i < |units| ==> units[i].name in Names(log) && units[i] == Entry(log, units[i].name))
  }

  /** A history leaves exactly one state. */
  lemma MergeUnique(log: seq<Unit>, a: seq<Unit>, b: seq<Unit>)
    requires IsMerge(log, a) && IsMerge(log, b)
    ensures a == b
  {
    var na := seq(|a|, i requires 0 <= i < |a| => a[i].name);
    var nb := seq(|b|, i requires 0 <= i < |b| => b[i].name);
    NamesAsElements(a, na);
    NamesAsElements(b, nb);
    AscendingUnique(na, nb);
    assert |a| == |na| == |nb| == |b|;
    forall i | 0 <= i < |a| ensures a[i] == b[i] {
      assert na[i] == nb[i];
    }
  }

  lemma NamesAsElements(units: seq<Unit>, names: seq<string>)
    requires |names| == |units| && forall i :: 0 <= i < |units| ==> names[i] == units[i].name
    ensures Elements(names) == Names(units)
  {
  }

  // ----- One more record -----

  lemma {:induction false} FirstNamedAppend(log: seq<Unit>, u: Unit, n: string)
    ensures FirstNamed(log + [u], n) ==
            if FirstNamed(log, n).Some? then FirstNamed(log, n) else if u.name == n then Some(u) else None
  {
    if log == [] {
      assert (log + [u])[1..] == [];
    } else {
      assert (log + [u])[1..] == log[1..] + [u];
      FirstNamedAppend(log[1..], u, n);
    }
  }

  lemma {:induction false} FirstIncompleteAppend(log: seq<Unit>, u: Unit, n: string)
    ensures FirstIncomplete(log + [u], n) ==
            if FirstIncomplete(log, n).Some? then FirstIncomplete(log, n)
            else if u.name == n && !u.complete then Some(u) else None
  {
    if log == [] {
      assert (log + [u])[1..] == [];
    } else {
      assert (log + [u])[1..] == log[1..] + [u];
      FirstIncompleteAppend(log[1..], u, n);
    }
  }

  lemma FactsAppend(log: seq<Unit>, u: Unit, n: string)
    ensures Names(log + [u]) == Names(log) + {u.name}
    ensures EverAttempted(log + [u], n) <==> EverAttempted(log, n) || (u.name == n && u.attempted)
    ensures AlwaysComplete(log + [u], n) <==> AlwaysComplete(log, n) && (u.name == n ==> u.complete)
  {
    var more := log + [u];
    assert more[|log|] == u;
    assert forall i :: 0 <= i < |log| ==> more[i] == log[i];
  }

  lemma TypesAppend(log: seq<Unit>, u: Unit, n: string)
    ensures TypesFed(log + [u], n) == TypesFed(log, n) + if u.name == n then NonEmpty(u.types) else {}
  {
    var more := log + [u];
    assert more[|log|] == u;
    assert forall i :: 0 <= i < |log| ==> more[i] == log[i];
  }

  /** What a record does to the entry of each name. */
  lemma EntryAppend(log: seq<Unit>, u: Unit, n: string)
    requires n in Names(log)
    ensures n in Names(log + [u])
    ensures n != u.name ==> Entry(log + [u], n) == Entry(log, n)
    ensures n == u.name ==>
      var e := Entry(log, n);
      var failing := e.complete && !u.complete;
      Entry(log + [u], n) == Unit(n, Ordered(TypesFed(log, n) + NonEmpty(u.types)), e.attempted || u.attempted,
        e.complete && u.complete, if failing then u.error else e.error, if failing then u.detail else e.detail)
  {
    FactsAppend(log, u, n);
    TypesAppend(log, u, n);
    FirstNamedAppend(log, u, n);
    FirstIncompleteAppend(log, u, n);
    assert TypesFed(log, n) + {} == TypesFed(log, n);
  }

  lemma EntryNew(log: seq<Unit>, u: Unit)
    requires u.name !in Names(log)
    ensures u.name in Names(log + [u])
    ensures Entry(log + [u], u.name) == u.(types := Ordered(NonEmpty(u.types)))
  {
    var n := u.name;
    FactsAppend(log, u, n);
    TypesAppend(log, u, n);
    FirstNamedAppend(log, u, n);
    FirstIncompleteAppend(log, u, n);
    assert TypesFed(log, n) == {};
    assert {} + NonEmpty(u.types) == NonEmpty(u.types);
  }

  // ----- mergeSorted -----

  ghost function NonEmpty(types: seq<string>): set<string> {
    set t | t in types && t != ""
  }

  /** Merges two lists of types into one sorted list without duplicates or empty names. */
  method MergeSorted(a: seq<string>, b: seq<string>) returns (out: seq<string>)
    ensures out == Ordered(NonEmpty(a) + NonEmpty(b))
  {
    var seen: set<string> := {};
    out := [];
    var all := a + b;
    for i := 0 to |all|
      invariant seen == NonEmpty(all[..i]) == Elements(out)
      invariant Distinct(out)
    {
      NonEmptyStep(all, i);
      if all[i] != "" && all[i] !in seen {
        OneMore(out, all[i]);
        seen := seen + {all[i]};
        out := out + [all[i]];
      }
    }
    assert all[..|all|] == all;
    NonEmptyUnion(a, b);
    SortIsOrdered(out);
    out := SortStrings(out);
  }

  lemma NonEmptyUnion(a: seq<string>, b: seq<string>)
    ensures NonEmpty(a + b) == NonEmpty(a) + NonEmpty(b)
  {
  }

  lemma NonEmptyStep(all: seq<string>, i: nat)
    requires i < |all|
    ensures NonEmpty(all[..i + 1]) == NonEmpty(all[..i]) + if all[i] != "" then {all[i]} else {}
  {
  }

  lemma OneMore<T>(s: seq<T>, x: T)
    ensures Elements(s + [x]) == Elements(s) + {x}
    ensures forall j :: 0 <= j < |s| ==> s[j] in Elements(s)
  {
  }

  // ----- The state itself -----

  class Collection {
    var units: seq<Unit>
    ghost var log: seq<Unit>

    ghost predicate Valid()
      reads this
    {
      IsMerge(log, units)
    }

    constructor ()
      ensures Valid() && log == [] && units == []
    {
      units, log := [], [];
    }

    /** Records the state of a unit, or merges it into the one already there. */
    method Record(u: Unit)
      requires Valid()
      modifies this
      ensures Valid()
      ensures log == old(log) + [u]
    {
      ghost var history := log;
      log := log + [u];
      var i := 0;
      while i < |units|
        invariant 0 <= i <= |units|
        invariant forall k :: 0 <= k < i ==> units[k].name != u.name
      {
        if units[i].name == u.name {
          var types := MergeSorted(units[i].types, u.types);
          var e := units[i].(attempted := units[i].attempted || u.attempted, types := types);
          if !u.complete && e.complete {
            e := e.(complete := false, error := u.error, detail := u.detail);
          }
          MergedInPlace(history, units, u, i, e);
          units := units[i := e];
          return;
        }
        i := i + 1;
      }
      var types := MergeSorted([], u.types);
      assert NonEmpty([]) + NonEmpty(u.types) == NonEmpty(u.types);
      assert u.name !in Names(units);
      Inserted(history, units, u);
      units := SortBy(UnitKey, units + [u.(types := types)]);
    }

    /** The units whose collection failed or was cut short, in order. */
    method Incomplete() returns (out: seq<Unit>)
      ensures out == FailingUnits(units)
    {
      out := [];
      for i := 0 to |units|
        invariant out == FailingUnits(units[..i])
      {
        FailingAppend(units[..i], units[i]);
        assert units[..i + 1] == units[..i] + [units[i]];
        if units[i].attempted && !units[i].complete {
          out := out + [units[i]];
        }
      }
      assert units[..|units|] == units;
    }

    /** For each type of resource, the incomplete unit that should have fed it. */
    method IncompleteTypes() returns (out: map<string, Unit>)
      ensures out == IncompleteMap(units)
    {
      out := map[];
      var failing := Incomplete();
      for i := 0 to |failing|
        invariant IsFeederMap(failing[..i], out)
      {
        var next := Claim(failing[i], out);
        FailingOnly(units, i);
        FeederStep(failing[..i], failing[i], out, next);
        assert failing[..i + 1] == failing[..i] + [failing[i]];
        out := next;
      }
      assert failing[..|failing|] == failing;
      FeederMapIsIncompleteMap(units, out);
    }
  }

  /** Charges to u the types it feeds and nobody is charged with yet. */
  method Claim(u: Unit, before: map<string, Unit>) returns (out: map<string, Unit>)
    ensures forall t :: t in out <==> t in before || t in u.types
    ensures forall t :: t in out ==> out[t] == if t in before then before[t] else u
  {
    out := before;
    for j := 0 to |u.types|
      invariant forall t :: t in out <==> t in before || t in u.types[..j]
      invariant forall t :: t in out ==> out[t] == if t in before then before[t] else u
    {
      assert u.types[..j + 1] == u.types[..j] + [u.types[j]];
      if u.types[j] !in out {
        out := out[u.types[j] := u];
      }
    }
    assert u.types[..|u.types|] == u.types;
  }

  // ----- Incomplete types -----

  function FailingUnits(units: seq<Unit>): seq<Unit> {
    if units == [] then []
    else (if units[0].Failing() then [units[0]] else []) + FailingUnits(units[1..])
  }

  lemma {:induction false} FailingAppend(units: seq<Unit>, u: Unit)
    ensures FailingUnits(units + [u]) == FailingUnits(units) + if u.Failing() then [u] else []
  {
    if units == [] {
      assert (units + [u])[1..] == [];
    } else {
      assert (units + [u])[1..] == units[1..] + [u];
      FailingAppend(units[1..], u);
      ConcatAssociative(if units[0].Failing() then [units[0]] else [], FailingUnits(units[1..]),
                        if u.Failing() then [u] else []);
    }
  }

  lemma {:induction false} FailingOnly(units: seq<Unit>, i: nat)
    requires i < |FailingUnits(units)|
    ensures FailingUnits(units)[i].Failing()
  {
    if units[0].Failing() {
      if i > 0 {
        FailingOnly(units[1..], i - 1);
      }
    } else {
      FailingOnly(units[1..], i);
    }
  }

  /** The first failing unit, in order, that feeds a type. */
  ghost function Feeder(units: seq<Unit>, t: string): (r: Option<Unit>)
    ensures r.Some? ==> r.value in units && r.value.Failing() && t in r.value.types
    ensures r.None? ==> forall u :: u in units && u.Failing() ==> t !in u.types
  {
    if units == [] then None
    else if units[0].Failing() && t in units[0].types then Some(units[0])
    else Feeder(units[1..], t)
  }

  ghost function AllTypes(units: seq<Unit>): set<string> {
    set i, t | 0 <= i < |units| && t in units[i].types :: t
  }

  ghost function IncompleteMap(units: seq<Unit>): map<string, Unit> {
    map t | t in AllTypes(units) && Feeder(units, t).Some? :: Feeder(units, t).value
  }

  ghost predicate IsFeederMap(units: seq<Unit>, m: map<string, Unit>) {
    && (forall t :: t in m <==> Feeder(units, t).Some?)
    && (forall t :: t in m ==> m[t] == Feeder(units, t).value)
  }

  lemma {:induction false} FeederAppend(units: seq<Unit>, u: Unit, t: string)
    ensures Feeder(units + [u], t) ==
            if Feeder(units, t).Some? then Feeder(units, t)
            else if u.Failing() && t in u.types then Some(u) else None
  {
    if units == [] {
      assert (units + [u])[1..] == [];
    } else {
      assert (units + [u])[1..] == units[1..] + [u];
      FeederAppend(units[1..], u, t);
    }
  }

  lemma FeederStep(units: seq<Unit>, u: Unit, before: map<string, Unit>, after: map<string, Unit>)
    requires IsFeederMap(units, before) && u.Failing()
    requires forall t :: t in after <==> t in before || t in u.types
    requires forall t :: t in after ==> after[t] == if t in before then before[t] else u
    ensures IsFeederMap(units + [u], after)
  {
    forall t ensures t in after <==> Feeder(units + [u], t).Some? {
      FeederAppend(units, u, t);
    }
    forall t | t in after ensures after[t] == Feeder(units + [u], t).value {
      FeederAppend(units, u, t);
    }
  }

  lemma {:induction false} FeederOfFailing(units: seq<Unit>, t: string)
    ensures Feeder(FailingUnits(units), t) == Feeder(units, t)
  {
    if units != [] {
      FeederOfFailing(units[1..], t);
      if units[0].Failing() {
        assert ([units[0]] + FailingUnits(units[1..]))[1..] == FailingUnits(units[1..]);
      } else {
        assert [] + FailingUnits(units[1..]) == FailingUnits(units[1..]);
      }
    }
  }

  lemma FeederMapIsIncompleteMap(units: seq<Unit>, m: map<string, Unit>)
    requires IsFeederMap(FailingUnits(units), m)
    ensures m == IncompleteMap(units)
  {
    var all := IncompleteMap(units);
    forall t ensures t in m <==> t in all {
      FeederOfFailing(units, t);
    }
    forall t | t in m ensures m[t] == all[t] {
      FeederOfFailing(units, t);
    }
    MapsAgree(m, all);
  }

  // ----- Record -----

  function UnitKey(u: Unit): Key {
    [u.name]
  }

  lemma MergedInPlace(log: seq<Unit>, units: seq<Unit>, u: Unit, i: nat, e: Unit)
    requires IsMerge(log, units) && i < |units| && units[i].name == u.name
    requires var failing := units[i].complete && !u.complete;
             e == Unit(u.name, Ordered(NonEmpty(units[i].types) + NonEmpty(u.types)),
                       units[i].attempted || u.attempted, units[i].complete && u.complete,
                       if failing then u.error else units[i].error, if failing then u.detail else units[i].detail)
    ensures IsMerge(log + [u], units[i := e])
  {
    var more := units[i := e];
    SameNames(units, more);
    assert units[i].name in Names(units);
    FactsAppend(log, u, u.name);
    assert Names(more) == Names(log + [u]);
    EntryMerged(log, u, units[i], e);
    forall k | 0 <= k < |more| ensures more[k].name in Names(log + [u]) && more[k] == Entry(log + [u], more[k].name) {
      assert more[k].name == units[k].name;
      EntryAppend(log, u, units[k].name);
    }
    SameOrder(units, more);
  }

  lemma SameOrder(a: seq<Unit>, b: seq<Unit>)
    requires |a| == |b| && forall k :: 0 <= k < |a| ==> a[k].name == b[k].name
    requires NamesAscend(a)
    ensures NamesAscend(b)
  {
  }

  lemma EntryMerged(log: seq<Unit>, u: Unit, was: Unit, e: Unit)
    requires u.name in Names(log) && was == Entry(log, u.name)
    requires var failing := was.complete && !u.complete;
             e == Unit(u.name, Ordered(NonEmpty(was.types) + NonEmpty(u.types)),
                       was.attempted || u.attempted, was.complete && u.complete,
                       if failing then u.error else was.error, if failing then u.detail else was.detail)
    ensures u.name in Names(log + [u]) && e == Entry(log + [u], u.name)
  {
    MergedTypes(log, u.name);
    EntryAppend(log, u, u.name);
  }

  lemma MergedTypes(log: seq<Unit>, n: string)
    ensures NonEmpty(Ordered(TypesFed(log, n))) == TypesFed(log, n)
  {
  }

  lemma SameNames(a: seq<Unit>, b: seq<Unit>)
    requires |a| == |b| && forall k :: 0 <= k < |a| ==> a[k].name == b[k].name
    ensures Names(a) == Names(b)
  {
  }

  lemma NameAt(units: seq<Unit>, n: string)
    ensures n in Names(units) <==> exists k :: 0 <= k < |units| && units[k].name == n
  {
  }

  lemma Inserted(log: seq<Unit>, units: seq<Unit>, u: Unit)
    requires IsMerge(log, units) && u.name !in Names(log)
    ensures IsMerge(log + [u], SortBy(UnitKey, units + [u.(types := Ordered(NonEmpty(u.types)))]))
  {
    var e := u.(types := Ordered(NonEmpty(u.types)));
    var appended := units + [e];
    var sorted := SortBy(UnitKey, appended);
    SamePermutation(appended, sorted);
    forall i | 0 <= i < |units| ensures units[i].name != u.name {
      assert units[i].name in Names(units);
    }
    SortedNames(appended, sorted);
    AppendedNames(units, e, sorted);
    FactsAppend(log, u, u.name);
    forall i | 0 <= i < |sorted|
      ensures sorted[i].name in Names(log + [u]) && sorted[i] == Entry(log + [u], sorted[i].name) {
      AppendedEntry(log, units, u, sorted[i]);
    }
  }

  lemma AppendedEntry(log: seq<Unit>, units: seq<Unit>, u: Unit, x: Unit)
    requires IsMerge(log, units) && u.name !in Names(log)
    requires x in units + [u.(types := Ordered(NonEmpty(u.types)))]
    ensures x.name in Names(log + [u]) && x == Entry(log + [u], x.name)
  {
    EntryNew(log, u);
    if x in units {
      var k :| 0 <= k < |units| && units[k] == x;
      assert x.name in Names(log);
      EntryAppend(log, u, x.name);
    }
  }

  /** Sorting units whose names are distinct puts the names in strict order. */
  lemma SortedNames(units: seq<Unit>, sorted: seq<Unit>)
    requires multiset(units) == multiset(sorted) && SortedBy(UnitKey, sorted)
    requires forall i, j :: 0 <= i < j < |units| ==> units[i].name != units[j].name
    ensures NamesAscend(sorted)
  {
    SamePermutation(units, sorted);
    forall i, j | 0 <= i < j < |sorted|
      ensures StrLe(sorted[i].name, sorted[j].name) && sorted[i].name != sorted[j].name
    {
      assert KeyLe(UnitKey(sorted[i]), UnitKey(sorted[j]));
      SortedPair(sorted[i], sorted[j]);
      assert sorted[i] in units && sorted[j] in units;
      Multiplicity(units, sorted[i]);
      RepeatedTwice(sorted, i, j);
    }
  }

  lemma SortedPair(a: Unit, b: Unit)
    requires KeyLe(UnitKey(a), UnitKey(b))
    ensures StrLe(a.name, b.name)
  {
    StrLeTotal(a.name, a.name);
  }

  lemma AppendedNames(units: seq<Unit>, e: Unit, sorted: seq<Unit>)
    requires forall x :: x in units + [e] <==> x in sorted
    ensures Names(sorted) == Names(units) + {e.name}
  {
    var appended := units + [e];
    forall n ensures n in Names(sorted) <==> n in Names(units) + {e.name} {
      NameAt(sorted, n);
      NameAt(units, n);
      if n in Names(sorted) {
        var k :| 0 <= k < |sorted| && sorted[k].name == n;
        assert sorted[k] in appended;
      }
      if n in Names(units) {
        var k :| 0 <= k < |units| && units[k].name == n;
        assert appended[k] in sorted;
      }
      assert appended[|units|] in sorted;
    }
  }

  lemma SamePermutation<T>(a: seq<T>, b: seq<T>)
    requires multiset(a) == multiset(b)
    ensures forall x :: x in a <==> x in b
  {
    forall x ensures x in a <==> x in b {
      assert x in multiset(a) <==> x in multiset(b);
    }
  }

  // ----- What a whole history establishes -----

  /** Some call of the unit was attempted, and some call of it failed. */
  ghost predicate FailedUnit(log: seq<Unit>, n: string) {
    n in Names(log) && EverAttempted(log, n) && !AlwaysComplete(log, n)
  }

  /** A failed unit should have fed this type. */
  ghost predicate Unread(log: seq<Unit>, t: string) {
    exists n :: FailedUnit(log, n) && t in TypesFed(log, n)
  }

  lemma {:induction false} FeederIndex(units: seq<Unit>, t: string) returns (i: nat)
    requires Feeder(units, t).Some?
    ensures i < |units| && units[i] == Feeder(units, t).value
    ensures forall k :: 0 <= k < i ==> !(units[k].Failing() && t in units[k].types)
  {
    if units[0].Failing() && t in units[0].types {
      i := 0;
    } else {
      var j := FeederIndex(units[1..], t);
      i := j + 1;
    }
  }

  /** The types a history leaves unread are exactly those a failed unit should have fed,
      and each is charged to the failed unit whose name comes first. */
  lemma IncompleteExactly(log: seq<Unit>, units: seq<Unit>, t: string)
    requires IsMerge(log, units)
    ensures t in IncompleteMap(units) <==> Unread(log, t)
    ensures t in IncompleteMap(units) ==>
      forall n :: FailedUnit(log, n) && t in TypesFed(log, n) ==> StrLe(IncompleteMap(units)[t].name, n)
  {
    forall n | FailedUnit(log, n) && t in TypesFed(log, n)
      ensures Feeder(units, t).Some? && StrLe(Feeder(units, t).value.name, n)
    {
      var k: nat :| k < |units| && units[k].name == n;
      assert t in Elements(units[k].types);
      var i := FeederIndex(units, t);
      StrLeTotal(n, n);
      assert i < k ==> StrLe(units[i].name, units[k].name);
    }
    if t in IncompleteMap(units) {
      var i := FeederIndex(units, t);
      var n := units[i].name;
      assert t in Elements(units[i].types);
      assert FailedUnit(log, n) && t in TypesFed(log, n);
    }
  }

  /** One failing record is enough. */
  lemma FailingRecordUnreads(log: seq<Unit>, k: nat, t: string)
    requires k < |log| && log[k].Failing() && t in log[k].types && t != ""
    ensures Unread(log, t)
  {
    var n := log[k].name;
    assert n in Names(log) && t in TypesFed(log, n) && FailedUnit(log, n);
  }

  /** Further records never make an unread type readable again. */
  lemma UnreadGrows(log: seq<Unit>, more: seq<Unit>, t: string)
    requires Unread(log, t)
    ensures Unread(log + more, t)
  {
    var n :| FailedUnit(log, n) && t in TypesFed(log, n);
    var all := log + more;
    assert forall i :: 0 <= i < |log| ==> all[i] == log[i];
    var i :| 0 <= i < |log| && log[i].name == n && log[i].attempted;
    assert all[i].attempted;
    var j :| 0 <= j < |log| && log[j].name == n && !log[j].complete;
    assert !all[j].complete;
    var k :| 0 <= k < |log| && log[k].name == n && t in log[k].types;
    assert all[k].name == n && t in all[k].types;
    assert FailedUnit(all, n) && t in TypesFed(all, n);
  }

  /** Neither the order nor the repetition of the calls shows in the state, except in
      which failure is quoted. */
  lemma OrderDoesNotShow(a: seq<Unit>, b: seq<Unit>, ua: seq<Unit>, ub: seq<Unit>)
    requires Elements(a) == Elements(b)
    requires IsMerge(a, ua) && IsMerge(b, ub)
    ensures |ua| == |ub|
    ensures forall i :: 0 <= i < |ua| ==> ua[i] == ub[i].(error := ua[i].error, detail := ua[i].detail)
  {
    SameFacts(a, b);
    var na := seq(|ua|, i requires 0 <= i < |ua| => ua[i].name);
    var nb := seq(|ub|, i requires 0 <= i < |ub| => ub[i].name);
    NamesAsElements(ua, na);
    NamesAsElements(ub, nb);
    AscendingUnique(na, nb);
    assert |ua| == |na| == |nb| == |ub|;
    forall i | 0 <= i < |ua| ensures ua[i] == ub[i].(error := ua[i].error, detail := ua[i].detail) {
      assert na[i] == nb[i];
      SameEntry(a, b, ua[i].name);
    }
  }

  lemma SameFacts(a: seq<Unit>, b: seq<Unit>)
    requires Elements(a) == Elements(b)
    ensures Names(a) == Names(b)
  {
    forall n ensures n in Names(a) <==> n in Names(b) {
      if n in Names(a) {
        var i: nat :| i < |a| && a[i].name == n;
        var j := Twin(a, b, i);
      }
      if n in Names(b) {
        var i: nat :| i < |b| && b[i].name == n;
        var j := Twin(b, a, i);
      }
    }
  }

  lemma Twin(a: seq<Unit>, b: seq<Unit>, i: nat) returns (j: nat)
    requires Elements(a) == Elements(b) && i < |a|
    ensures j < |b| && b[j] == a[i]
  {
    assert a[i] in Elements(b);
    j :| 0 <= j < |b| && b[j] == a[i];
  }

  lemma OneWay(a: seq<Unit>, b: seq<Unit>, n: string)
    requires Elements(a) == Elements(b)
    ensures TypesFed(a, n) <= TypesFed(b, n)
    ensures EverAttempted(a, n) ==> EverAttempted(b, n)
    ensures AlwaysComplete(b, n) ==> AlwaysComplete(a, n)
  {
    forall t | t in TypesFed(a, n) ensures t in TypesFed(b, n) {
      var i: nat :| i < |a| && a[i].name == n && t in a[i].types && t != "";
      var j := Twin(a, b, i);
    }
    forall i: nat | i < |a| ensures exists j :: 0 <= j < |b| && b[j] == a[i] {
      var j := Twin(a, b, i);
    }
  }

  lemma SameEntry(a: seq<Unit>, b: seq<Unit>, n: string)
    requires Elements(a) == Elements(b) && n in Names(a) && n in Names(b)
    ensures Entry(a, n) == Entry(b, n).(error := Entry(a, n).error, detail := Entry(a, n).detail)
  {
    OneWay(a, b, n);
    OneWay(b, a, n);
    assert TypesFed(a, n) == TypesFed(b, n);
  }

  // ----- What a unit says of its records -----

  /** The record that is quoted: the first of the name that failed, or the first when none did. */
  ghost predicate Quotes(log: seq<Unit>, n: string, k: nat) {
    && k < |log| && log[k].name == n
    && (forall j :: 0 <= j < k && log[j].name == n ==> log[j].complete && !log[k].complete)
    && (log[k].complete ==> forall j :: 0 <= j < |log| && log[j].name == n ==> log[j].complete)
  }

  lemma {:induction false} FirstNamedAt(log: seq<Unit>, n: string)
    requires FirstNamed(log, n).Some?
    ensures exists k: nat :: k < |log| && log[k] == FirstNamed(log, n).value && log[k].name == n
                             && forall j :: 0 <= j < k ==> log[j].name != n
  {
    if log[0].name != n {
      FirstNamedAt(log[1..], n);
      var k: nat :| k < |log[1..]| && log[1..][k] == FirstNamed(log, n).value && log[1..][k].name == n
                    && forall j :: 0 <= j < k ==> log[1..][j].name != n;
      assert log[k + 1] == log[1..][k];
      assert forall j :: 1 <= j < k + 1 ==> log[j] == log[1..][j - 1];
    }
  }

  lemma {:induction false} FirstIncompleteAt(log: seq<Unit>, n: string)
    requires FirstIncomplete(log, n).Some?
    ensures exists k: nat :: k < |log| && log[k] == FirstIncomplete(log, n).value && log[k].name == n
                             && !log[k].complete && forall j :: 0 <= j < k && log[j].name == n ==> log[j].complete
  {
    if log[0].name != n || log[0].complete {
      FirstIncompleteAt(log[1..], n);
      var k: nat :| k < |log[1..]| && log[1..][k] == FirstIncomplete(log, n).value && log[1..][k].name == n
                    && !log[1..][k].complete
                    && forall j :: 0 <= j < k && log[1..][j].name == n ==> log[1..][j].complete;
      assert log[k + 1] == log[1..][k];
      assert forall j :: 1 <= j < k + 1 ==> log[j] == log[1..][j - 1];
    }
  }

  lemma CauseQuoted(log: seq<Unit>, n: string)
    requires n in Names(log)
    ensures exists k: nat :: Quotes(log, n, k) && Cause(log, n) == log[k]
  {
    if FirstIncomplete(log, n).Some? {
      FirstIncompleteAt(log, n);
      var k: nat :| k < |log| && log[k] == FirstIncomplete(log, n).value && log[k].name == n
                    && !log[k].complete && forall j :: 0 <= j < k && log[j].name == n ==> log[j].complete;
      assert Quotes(log, n, k);
    } else {
      FirstNamedAt(log, n);
      var k: nat :| k < |log| && log[k] == FirstNamed(log, n).value && log[k].name == n
                    && forall j :: 0 <= j < k ==> log[j].name != n;
      assert Quotes(log, n, k);
    }
  }

  /** A unit of the state, said of the records of its name: attempted when one was, complete when
      all were, its types theirs, each once and in order, its error and its detail those of the
      first failing record. */
  lemma UnitSays(log: seq<Unit>, units: seq<Unit>, i: nat)
    requires IsMerge(log, units) && i < |units|
    ensures var u := units[i];
            && (u.attempted <==> exists k :: 0 <= k < |log| && log[k].name == u.name && log[k].attempted)
            && (u.complete <==> forall k :: 0 <= k < |log| && log[k].name == u.name ==> log[k].complete)
            && Ascending(u.types)
            && (forall t :: t in u.types <==>
                  t != "" && exists k :: 0 <= k < |log| && log[k].name == u.name && t in log[k].types)
            && exists k: nat :: Quotes(log, u.name, k) && u.error == log[k].error && u.detail == log[k].detail
  {
    var u := units[i];
    CauseQuoted(log, u.name);
    forall t ensures t in u.types <==> t in TypesFed(log, u.name) {
      assert t in u.types <==> t in Elements(u.types);
    }
  }
}
