/** The order verdicts are sealed in (internal/assess/bundle.go, canonical), so that the same
    run always has the same digest. */
module Sealing {
  import opened Order
  import opened Assess

  /** The languages a document can be written in. */
  datatype Lang = FR | EN

  function StatusText(s: Status): string {
    match s
    case Pass => PASS_TEXT
    case Fail => FAIL_TEXT
    case NotApplicable => NOT_APPLICABLE_TEXT
    case NotEvaluated => NOT_EVALUATED_TEXT
    case Exempted => EXEMPTED_TEXT
    case Error => ERROR_TEXT
    case OtherStatus(text) => text
  }

  /** A status is its text. */
  lemma StatusIsItsText(a: Status, b: Status)
    ensures StatusText(a) == StatusText(b) <==> a == b
  {
    assert |PASS_TEXT| == 4 && |FAIL_TEXT| == 4 && PASS_TEXT[0] == 'p' && FAIL_TEXT[0] == 'f';
    assert |NOT_APPLICABLE_TEXT| == 14 && |NOT_EVALUATED_TEXT| == 13 && |EXEMPTED_TEXT| == 8 && |ERROR_TEXT| == 5;
  }

  function SealOrder(v: Verdict): Key {
    [v.control, v.subject, StatusText(v.status)]
  }

  function Canonical(vs: seq<Verdict>): (r: seq<Verdict>)
    ensures multiset(r) == multiset(vs)
  {
    SortBy(SealOrder, vs)
  }

  lemma SealOrderFirst(v: Verdict, w: Verdict)
    ensures KeyLe(SealOrder(v), SealOrder(w)) <==>
              if v.control != w.control then StrLe(v.control, w.control)
              else if v.subject != w.subject then StrLe(v.subject, w.subject)
              else StrLe(StatusText(v.status), StatusText(w.status))
  {
    TripleOrder(v.control, v.subject, StatusText(v.status), w.control, w.subject, StatusText(w.status));
  }

  /** Sealed verdicts are those that were given, by control, then by subject, then by the text of
      their status. */
  lemma SealedInOrder(vs: seq<Verdict>, i: nat, j: nat)
    requires i < j < |Canonical(vs)|
    ensures var v, w := Canonical(vs)[i], Canonical(vs)[j];
            if v.control != w.control then StrLe(v.control, w.control)
            else if v.subject != w.subject then StrLe(v.subject, w.subject)
            else StrLe(StatusText(v.status), StatusText(w.status))
    ensures multiset(Canonical(vs)) == multiset(vs)
  {
    assert KeyLe(SealOrder(Canonical(vs)[i]), SealOrder(Canonical(vs)[j]));
    SealOrderFirst(Canonical(vs)[i], Canonical(vs)[j]);
  }

  /** The texts statuses are sealed with. */
  lemma StatusTexts(text: OtherText)
    ensures StatusText(Pass) == "pass" && StatusText(Fail) == "fail"
    ensures StatusText(NotApplicable) == "not-applicable" && StatusText(NotEvaluated) == "not-evaluated"
    ensures StatusText(Exempted) == "exempted" && StatusText(Error) == "error"
    ensures StatusText(OtherStatus(text)) == text
  {
  }

  lemma {:induction false} SortedStays<T>(key: T -> Key, s: seq<T>)
    requires SortedBy(key, s)
    ensures SortBy(key, s) == s
  {
    if s != [] {
      var rest := s[1..];
      forall i, j | 0 <= i < j < |rest| ensures KeyLe(key(rest[i]), key(rest[j])) {
        assert rest[i] == s[i + 1] && rest[j] == s[j + 1];
      }
      SortedStays(key, rest);
      assert s == [s[0]] + rest;
      assert rest != [] ==> rest[0] == s[1] && KeyLe(key(s[0]), key(s[1]));
    }
  }

  /** A sealed list is already in the order of sealing: reading it back changes nothing. */
  lemma CanonicalTwice(vs: seq<Verdict>)
    ensures Canonical(Canonical(vs)) == Canonical(vs)
  {
    SortedStays(SealOrder, Canonical(vs));
  }

  // ----- When the order of arrival shows -----

  /** Where an element of key k goes. */
  function Place<T>(key: T -> Key, k: Key, s: seq<T>): (p: nat)
    ensures p <= |s|
  {
    if s == [] || KeyLe(k, key(s[0])) then 0 else 1 + Place(key, k, s[1..])
  }

  lemma {:induction false} InsertedAtPlace<T>(key: T -> Key, x: T, s: seq<T>)
    ensures var p := Place(key, key(x), s); Insert(key, x, s) == s[..p] + [x] + s[p..]
  {
    if s != [] && !KeyLe(key(x), key(s[0])) {
      InsertedAtPlace(key, x, s[1..]);
      var p := Place(key, key(x), s[1..]);
      assert s[..p + 1] == [s[0]] + s[1..][..p] && s[p + 1..] == s[1..][p..];
    }
  }

  /** A second element of the same key goes in front of the first. */
  lemma {:induction false} SamePlace<T>(key: T -> Key, t: T, s: seq<T>)
    ensures Place(key, key(t), Insert(key, t, s)) == Place(key, key(t), s)
  {
    KeyLeTotal(key(t), key(t));
    if s != [] && !KeyLe(key(t), key(s[0])) {
      SamePlace(key, t, s[1..]);
      assert Insert(key, t, s)[1..] == Insert(key, t, s[1..]);
    }
  }

  lemma TwoInserted<T>(key: T -> Key, x: T, y: T, s: seq<T>)
    requires key(x) == key(y)
    ensures var p := Place(key, key(x), s); Insert(key, x, Insert(key, y, s)) == s[..p] + [x, y] + s[p..]
  {
    var p, t := Place(key, key(x), s), Insert(key, y, s);
    InsertedAtPlace(key, y, s);
    SamePlace(key, y, s);
    InsertedAtPlace(key, x, t);
    Spliced(s[..p], s[p..], x, y, t);
  }

  lemma Spliced<T>(a: seq<T>, b: seq<T>, x: T, y: T, t: seq<T>)
    requires t == a + [y] + b
    ensures t[..|a|] + [x] + t[|a|..] == a + [x, y] + b
  {
    assert t[..|a|] == a && t[|a|..] == [y] + b;
    assert [x] + ([y] + b) == [x, y] + b;
  }

  /** Whatever else the list holds, two verdicts of one control, subject and status are sealed
      side by side, in the order they came. */
  lemma TiesKeepTheirOrder(x: Verdict, y: Verdict, rest: seq<Verdict>)
    requires SealOrder(x) == SealOrder(y)
    ensures var sorted := Canonical(rest);
            var p := Place(SealOrder, SealOrder(x), sorted);
            && Canonical([x, y] + rest) == sorted[..p] + [x, y] + sorted[p..]
            && Canonical([y, x] + rest) == sorted[..p] + [y, x] + sorted[p..]
    ensures x != y ==> Canonical([x, y] + rest) != Canonical([y, x] + rest)
  {
    var sorted := Canonical(rest);
    var p := Place(SealOrder, SealOrder(x), sorted);
    CanonicalOfTwo(x, y, rest);
    CanonicalOfTwo(y, x, rest);
    TwoInserted(SealOrder, x, y, sorted);
    TwoInserted(SealOrder, y, x, sorted);
    assert (sorted[..p] + [x, y] + sorted[p..])[p] == x && (sorted[..p] + [y, x] + sorted[p..])[p] == y;
  }

  lemma CanonicalOfTwo(x: Verdict, y: Verdict, rest: seq<Verdict>)
    ensures Canonical([x, y] + rest) == Insert(SealOrder, x, Insert(SealOrder, y, Canonical(rest)))
  {
    assert [x, y] + rest == [x] + ([y] + rest);
    SortsFirst(SealOrder, x, [y] + rest);
    SortsFirst(SealOrder, y, rest);
  }

  lemma SortsFirst<T>(key: T -> Key, x: T, s: seq<T>)
    ensures SortBy(key, [x] + s) == Insert(key, x, SortBy(key, s))
  {
    assert ([x] + s)[1..] == s;
  }

  /** No two different verdicts share control, subject and status. */
  ghost predicate TieFree(vs: seq<Verdict>) {
    forall x, y :: x in vs && y in vs && SealOrder(x) == SealOrder(y) ==> x == y
  }

  ghost predicate SealedAlike(vs: seq<Verdict>) {
    forall other :: multiset(other) == multiset(vs) ==> Canonical(other) == Canonical(vs)
  }

  /** The order the verdicts of a list came in does not show in what is sealed exactly when no
      two different ones share control, subject and status. */
  lemma ArrivalShowsExactly(vs: seq<Verdict>)
    ensures SealedAlike(vs) <==> TieFree(vs)
  {
    if TieFree(vs) {
      forall other | multiset(other) == multiset(vs) ensures Canonical(other) == Canonical(vs) {
        SortByPermutation(SealOrder, vs, other);
      }
    } else {
      var x, y :| x in vs && y in vs && SealOrder(x) == SealOrder(y) && x != y;
      TieShows(vs, x, y);
    }
  }

  lemma TieShows(vs: seq<Verdict>, x: Verdict, y: Verdict)
    requires x in vs && y in vs && SealOrder(x) == SealOrder(y) && x != y
    ensures !SealedAlike(vs)
  {
    var rest := AllBut(vs, x, y);
    assert Canonical([x, y] + rest) != Canonical([y, x] + rest) by {
      TiesKeepTheirOrder(x, y, rest);
    }
    TwoAndRest(x, y, rest);
    TwoAndRest(y, x, rest);
    ArrivalShows(vs, [x, y] + rest, [y, x] + rest);
  }

  lemma TwoAndRest(x: Verdict, y: Verdict, rest: seq<Verdict>)
    ensures multiset([x, y] + rest) == multiset{x, y} + multiset(rest)
  {
  }

  lemma ArrivalShows(vs: seq<Verdict>, a: seq<Verdict>, b: seq<Verdict>)
    requires multiset(a) == multiset(vs) && multiset(b) == multiset(vs) && Canonical(a) != Canonical(b)
    ensures !SealedAlike(vs)
  {
  }

  lemma TakeOut(vs: seq<Verdict>, x: Verdict) returns (rest: seq<Verdict>)
    requires x in vs
    ensures multiset(vs) == multiset{x} + multiset(rest)
  {
    var i :| 0 <= i < |vs| && vs[i] == x;
    rest := vs[..i] + vs[i + 1..];
    assert vs == vs[..i] + [x] + vs[i + 1..];
  }

  lemma AllBut(vs: seq<Verdict>, x: Verdict, y: Verdict) returns (rest: seq<Verdict>)
    requires x in vs && y in vs && x != y
    ensures multiset(vs) == multiset{x, y} + multiset(rest)
  {
    var most := TakeOut(vs, x);
    assert y in multiset(vs);
    assert y in multiset(most);
    rest := TakeOut(most, y);
  }
}
