/** Go's string order, lexicographic keys built from it, and a stable sort by key.
    Every list the program publishes is sorted this way, so that its digest does not
    depend on the iteration order of a map. */
module Order {
  import opened Wrappers

  predicate StrLe(a: string, b: string) {
    if a == [] then true
    else if b == [] then false
    else if a[0] == b[0] then StrLe(a[1..], b[1..])
    else a[0] < b[0]
  }

  lemma {:induction false} StrLeTotal(a: string, b: string)
    ensures StrLe(a, b) || StrLe(b, a)
  {
    if a != [] && b != [] && a[0] == b[0] {
      StrLeTotal(a[1..], b[1..]);
    }
  }

  lemma {:induction false} StrLeAntisymmetric(a: string, b: string)
    requires StrLe(a, b) && StrLe(b, a)
    ensures a == b
  {
    if a != [] && b != [] {
      StrLeAntisymmetric(a[1..], b[1..]);
      assert a == [a[0]] + a[1..] && b == [b[0]] + b[1..];
    }
  }

  lemma {:induction false} StrLeTransitive(a: string, b: string, c: string)
    requires StrLe(a, b) && StrLe(b, c)
    ensures StrLe(a, c)
  {
    if a != [] && b != [] && c != [] && a[0] == b[0] && b[0] == c[0] {
      StrLeTransitive(a[1..], b[1..], c[1..]);
    }
  }

  /** Two texts first differ at i, where a has the lesser character. */
  predicate LessAt(a: string, b: string, i: nat) {
    i < |a| && i < |b| && a[i] < b[i] && forall j :: 0 <= j < i ==> a[j] == b[j]
  }

  /** The order is that of dictionaries: a beginning comes first, then the first difference
      decides. */
  lemma {:induction false} StrLeExactly(a: string, b: string)
    ensures StrLe(a, b) <==> a <= b || exists i: nat :: LessAt(a, b, i)
  {
    if a != [] && b != [] {
      StrLeExactly(a[1..], b[1..]);
      assert a[0] == b[0] ==> (a <= b <==> a[1..] <= b[1..]);
      forall i: nat | i > 0 ensures LessAt(a, b, i) <==> a[0] == b[0] && LessAt(a[1..], b[1..], i - 1) {
        LessLater(a, b, i);
      }
      assert LessAt(a, b, 0) <==> a[0] < b[0];
      if a[0] == b[0] {
        if i: nat :| LessAt(a[1..], b[1..], i) {
          assert LessAt(a, b, i + 1);
        }
      }
    }
  }

  lemma LessLater(a: string, b: string, i: nat)
    requires a != [] && b != [] && i > 0
    ensures LessAt(a, b, i) <==> a[0] == b[0] && LessAt(a[1..], b[1..], i - 1)
  {
    if LessAt(a, b, i) {
      assert forall j :: 0 <= j < i - 1 ==> a[1..][j] == a[j + 1] && b[1..][j] == b[j + 1];
    }
    if a[0] == b[0] && LessAt(a[1..], b[1..], i - 1) {
      forall j | 0 <= j < i ensures a[j] == b[j] {
        if j > 0 {
          assert a[1..][j - 1] == b[1..][j - 1];
        }
      }
    }
  }

  /** A sort key: its components are compared from left to right. */
  type Key = seq<string>

  predicate KeyLe(a: Key, b: Key) {
    if a == [] then true
    else if b == [] then false
    else if a[0] == b[0] then KeyLe(a[1..], b[1..])
    else StrLe(a[0], b[0])
  }

  lemma KeyLeHead(x: string, a: Key, y: string, b: Key)
    ensures KeyLe([x] + a, [y] + b) <==> if x == y then KeyLe(a, b) else StrLe(x, y)
  {
    assert ([x] + a)[1..] == a && ([y] + b)[1..] == b;
  }

  lemma PairOrder(a0: string, a1: string, b0: string, b1: string)
    ensures KeyLe([a0, a1], [b0, b1]) <==> if a0 != b0 then StrLe(a0, b0) else StrLe(a1, b1)
  {
    KeyLeHead(a0, [a1], b0, [b1]);
    KeyLeHead(a1, [], b1, []);
    StrLeTotal(a1, a1);
    assert [a0, a1] == [a0] + [a1] && [b0, b1] == [b0] + [b1];
    assert [a1] == [a1] + [] && [b1] == [b1] + [];
  }

  /** Keys of three parts: the first decides, then the second, then the third. */
  lemma TripleOrder(a0: string, a1: string, a2: string, b0: string, b1: string, b2: string)
    ensures KeyLe([a0, a1, a2], [b0, b1, b2]) <==>
              if a0 != b0 then StrLe(a0, b0) else if a1 != b1 then StrLe(a1, b1) else StrLe(a2, b2)
  {
    PairOrder(a1, a2, b1, b2);
    assert [a0, a1, a2] == [a0] + [a1, a2] && [b0, b1, b2] == [b0] + [b1, b2];
    KeyLeHead(a0, [a1, a2], b0, [b1, b2]);
  }

  lemma {:induction false} KeyLeTotal(a: Key, b: Key)
    ensures KeyLe(a, b) || KeyLe(b, a)
  {
    if a != [] && b != [] {
      if a[0] == b[0] {
        KeyLeTotal(a[1..], b[1..]);
      } else {
        StrLeTotal(a[0], b[0]);
      }
    }
  }

  lemma {:induction false} KeyLeAntisymmetric(a: Key, b: Key)
    requires KeyLe(a, b) && KeyLe(b, a)
    ensures a == b
  {
    if a != [] && b != [] {
      if a[0] != b[0] {
        StrLeAntisymmetric(a[0], b[0]);
      }
      KeyLeAntisymmetric(a[1..], b[1..]);
      assert a == [a[0]] + a[1..] && b == [b[0]] + b[1..];
    }
  }

  lemma {:induction false} KeyLeTransitive(a: Key, b: Key, c: Key)
    requires KeyLe(a, b) && KeyLe(b, c)
    ensures KeyLe(a, c)
  {
    if a != [] && b != [] && c != [] {
      if a[0] == b[0] && b[0] == c[0] {
        KeyLeTransitive(a[1..], b[1..], c[1..]);
      } else {
        if a[0] != b[0] && b[0] != c[0] {
          StrLeTransitive(a[0], b[0], c[0]);
          if a[0] == c[0] {
            StrLeAntisymmetric(a[0], b[0]);
          }
        }
      }
    }
  }

  ghost predicate SortedBy<T>(key: T -> Key, s: seq<T>) {
    forall i, j {:trigger KeyLe(key(s[i]), key(s[j]))} :: 0 <= i < j < |s| ==> KeyLe(key(s[i]), key(s[j]))
  }

  /** Puts x in front of the first element that does not precede it. */
  function Insert<T>(key: T -> Key, x: T, s: seq<T>): (r: seq<T>)
    ensures multiset(r) == multiset{x} + multiset(s)
    ensures |r| == |s| + 1
  {
    if s == [] || KeyLe(key(x), key(s[0])) then
      [x] + s
    else
      assert s == [s[0]] + s[1..];
      [s[0]] + Insert(key, x, s[1..])
  }

  lemma {:induction false} InsertSorted<T>(key: T -> Key, x: T, s: seq<T>)
    requires SortedBy(key, s)
    ensures SortedBy(key, Insert(key, x, s))
  {
    var r := Insert(key, x, s);
    if s == [] {
    } else if KeyLe(key(x), key(s[0])) {
      forall j | 0 <= j < |s| ensures KeyLe(key(x), key(s[j])) {
        if j > 0 {
          KeyLeTransitive(key(x), key(s[0]), key(s[j]));
        }
      }
    } else {
      KeyLeTotal(key(x), key(s[0]));
      var t := Insert(key, x, s[1..]);
      InsertSorted(key, x, s[1..]);
      forall j | 0 <= j < |t| ensures KeyLe(key(s[0]), key(t[j])) {
        assert t[j] in multiset(t);
        assert t[j] == x || t[j] in multiset(s[1..]);
      }
    }
  }

  /** Go's sort.SliceStable, and sort.Slice where keys are distinct. */
  function SortBy<T>(key: T -> Key, s: seq<T>): (r: seq<T>)
    ensures multiset(r) == multiset(s)
    ensures |r| == |s|
    ensures SortedBy(key, r)
  {
    if s == [] then []
    else
      assert s == [s[0]] + s[1..];
      var t := SortBy(key, s[1..]);
      InsertSorted(key, s[0], t);
      Insert(key, s[0], t)
  }

  /** Two sorted arrangements of the same elements are the same list as soon as equal
      keys mean equal elements: which algorithm sorted them does not matter. */
  lemma {:induction false} SortedUnique<T>(key: T -> Key, a: seq<T>, b: seq<T>)
    requires SortedBy(key, a) && SortedBy(key, b)
    requires multiset(a) == multiset(b)
    requires forall x, y :: x in a && y in a && key(x) == key(y) ==> x == y
    ensures a == b
  {
    assert |multiset(a)| == |a| && |multiset(b)| == |b|;
    if a != [] {
      SameHead(key, a, b);
      TailMultiset(a);
      TailMultiset(b);
      SortedUnique(key, a[1..], b[1..]);
      assert a == [a[0]] + a[1..] && b == [b[0]] + b[1..];
    }
  }

  lemma TailMultiset<T>(a: seq<T>)
    requires a != []
    ensures multiset(a[1..]) == multiset(a) - multiset{a[0]}
    ensures forall x :: x in a[1..] ==> x in a
  {
    assert a == [a[0]] + a[1..];
  }

  lemma SameHead<T>(key: T -> Key, a: seq<T>, b: seq<T>)
    requires SortedBy(key, a) && SortedBy(key, b) && a != [] && b != []
    requires multiset(a) == multiset(b)
    requires forall x, y :: x in a && y in a && key(x) == key(y) ==> x == y
    ensures a[0] == b[0]
  {
    HeadIsLeast(key, a, b);
    HeadIsLeast(key, b, a);
    KeyLeAntisymmetric(key(a[0]), key(b[0]));
    assert b[0] in multiset(b);
    assert b[0] in a;
  }

  lemma HeadIsLeast<T>(key: T -> Key, a: seq<T>, b: seq<T>)
    requires a != [] && b != [] && SortedBy(key, a) && multiset(a) == multiset(b)
    ensures KeyLe(key(a[0]), key(b[0]))
  {
    assert b[0] in multiset(a);
    var j :| 0 <= j < |a| && a[j] == b[0];
    KeyLeTotal(key(a[0]), key(a[0]));
  }

  lemma SortByPermutation<T>(key: T -> Key, a: seq<T>, b: seq<T>)
    requires multiset(a) == multiset(b)
    requires forall x, y :: x in a && y in a && key(x) == key(y) ==> x == y
    ensures SortBy(key, a) == SortBy(key, b)
  {
    var r, t := SortBy(key, a), SortBy(key, b);
    forall x | x in r ensures x in a {
      assert x in multiset(r);
    }
    SortedUnique(key, r, t);
  }

  ghost predicate InOrder(s: seq<string>) {
    forall i, j {:trigger StrLe(s[i], s[j])} :: 0 <= i < j < |s| ==> StrLe(s[i], s[j])
  }

  ghost predicate Distinct<T>(s: seq<T>) {
    forall i, j :: 0 <= i < j < |s| ==> s[i] != s[j]
  }

  /** Strictly increasing strings. */
  ghost predicate Ascending(s: seq<string>) {
    InOrder(s) && Distinct(s)
  }

  lemma {:induction false} AscendingUnique(a: seq<string>, b: seq<string>)
    requires Ascending(a) && Ascending(b) && Elements(a) == Elements(b)
    ensures a == b
  {
    if a == [] {
      if b != [] {
        LeastElement(b, a);
      }
    } else {
      LeastElement(a, b);
      LeastElement(b, a);
      StrLeAntisymmetric(a[0], b[0]);
      TailElements(a);
      TailElements(b);
      AscendingUnique(a[1..], b[1..]);
      assert a == [a[0]] + a[1..] && b == [b[0]] + b[1..];
    }
  }

  lemma LeastElement(a: seq<string>, b: seq<string>)
    requires Ascending(a) && Elements(a) == Elements(b) && a != []
    ensures b != [] && StrLe(a[0], b[0])
  {
    assert a[0] in Elements(b);
    assert b[0] in Elements(a);
    var j :| 0 <= j < |a| && a[j] == b[0];
    StrLeTotal(a[0], a[0]);
  }

  lemma TailElements(a: seq<string>)
    requires Ascending(a) && a != []
    ensures Elements(a[1..]) == Elements(a) - {a[0]}
  {
  }

  lemma SingletonKeys(r: seq<string>)
    requires SortedBy(x => [x], r)
    ensures InOrder(r)
  {
    var key := x => [x];
    forall i, j | 0 <= i < j < |r| ensures StrLe(r[i], r[j]) {
      assert KeyLe(key(r[i]), key(r[j]));
      StrLeTotal(r[i], r[i]);
    }
  }

  function SortStrings(s: seq<string>): (r: seq<string>)
    ensures multiset(r) == multiset(s)
    ensures InOrder(r)
  {
    var r := SortBy(x => [x], s);
    assert InOrder(r) by { SingletonKeys(r); }
    r
  }

  lemma SortedElements(s: seq<string>)
    ensures Elements(SortStrings(s)) == Elements(s)
  {
    var r := SortStrings(s);
    forall x ensures x in r <==> x in s {
      assert x in multiset(r) <==> x in multiset(s);
    }
  }

  /** The one strictly increasing enumeration of a set of strings. */
  ghost function Ordered(S: set<string>): (r: seq<string>)
    ensures Ascending(r) && Elements(r) == S
  {
    if S == {} then []
    else
      var x :| x in S;
      var t := Ordered(S - {x});
      var r := SortStrings([x] + t);
      OrderedStep(x, t);
      r
  }

  lemma OrderedStep(x: string, t: seq<string>)
    requires Ascending(t) && x !in Elements(t)
    ensures Ascending(SortStrings([x] + t))
    ensures Elements(SortStrings([x] + t)) == {x} + Elements(t)
  {
    var s := [x] + t;
    forall i, j | 0 <= i < j < |s| ensures s[i] != s[j] {
      assert s[j] == t[j - 1] && t[j - 1] in Elements(t);
    }
    SortDistinct(s);
    SortedElements(s);
    assert forall y :: y in s <==> y == x || y in t;
  }

  lemma SortDistinct(s: seq<string>)
    requires Distinct(s)
    ensures Ascending(SortStrings(s))
  {
    var r := SortStrings(s);
    forall i, j | 0 <= i < j < |r| ensures r[i] != r[j] {
      Multiplicity(s, r[i]);
      RepeatedTwice(r, i, j);
    }
  }

  lemma RepeatedTwice<T>(r: seq<T>, i: nat, j: nat)
    requires i < j < |r|
    ensures r[i] == r[j] ==> multiset(r)[r[i]] >= 2
  {
    assert r == r[..j] + r[j..];
    assert r[..j][i] == r[i] && r[i] in multiset(r[..j]);
    assert r[j..][0] == r[j] && r[j] in multiset(r[j..]);
  }

  lemma {:induction false} Multiplicity<T>(s: seq<T>, x: T)
    requires Distinct(s)
    ensures multiset(s)[x] <= 1
  {
    if s != [] {
      assert s == [s[0]] + s[1..];
      Multiplicity(s[1..], x);
    }
  }

  /** Sorting a duplicate-free list gives the ordered enumeration of its elements. */
  lemma SortIsOrdered(s: seq<string>)
    requires Distinct(s)
    ensures SortStrings(s) == Ordered(Elements(s))
  {
    SortDistinct(s);
    SortedElements(s);
    AscendingUnique(SortStrings(s), Ordered(Elements(s)));
  }

  lemma OrderedEmpty(S: set<string>)
    ensures Ordered(S) == [] <==> S == {}
  {
  }

  /** The elements of a set, each once, in whatever order it yields them. */
  method Enumerate<T(==)>(s: set<T>) returns (r: seq<T>)
    ensures Distinct(r) && Elements(r) == s
  {
    r := [];
    var todo := s;
    while todo != {}
      invariant todo <= s
      invariant Distinct(r)
      invariant forall x :: x in r <==> x in s && x !in todo
      decreases todo
    {
      var x :| x in todo;
      todo := todo - {x};
      r := r + [x];
    }
  }

  method SortedSet(s: set<string>) returns (r: seq<string>)
    ensures r == Ordered(s)
  {
    r := Enumerate(s);
    SortIsOrdered(r);
    r := SortStrings(r);
  }

  lemma RemovedMultiset<T>(s: seq<T>, i: nat)
    requires i < |s|
    ensures multiset(s[..i] + s[i + 1..]) == multiset(s) - multiset{s[i]}
  {
    assert s == s[..i] + [s[i]] + s[i + 1..];
  }
}
