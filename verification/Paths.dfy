/** What a path of a descriptor reads in a document, step by step, and what the items path of a
    list extracts from a reply (internal/collect/engine.go). */
module Paths {
  import opened Wrappers
  import opened Text
  import opened Json
  import opened Projection

  // ----- Cutting a text -----

  /** sep is found at position i. */
  predicate FoundAt(s: string, sep: string, i: nat) {
    i + |sep| <= |s| && s[i..i + |sep|] == sep
  }

  lemma {:induction false} IndexIsFirst(s: string, sep: string)
    ensures match Index(s, sep)
            case Some(i) => FoundAt(s, sep, i) && forall j: nat :: j < i ==> !FoundAt(s, sep, j)
            case None => forall j: nat :: !FoundAt(s, sep, j)
  {
    if !(sep <= s) && s != [] {
      IndexIsFirst(s[1..], sep);
      forall j: nat | j > 0 ensures FoundAt(s, sep, j) <==> FoundAt(s[1..], sep, j - 1) {
        FoundLater(s, sep, j);
      }
    }
    assert FoundAt(s, sep, 0) <==> sep <= s;
  }

  lemma FoundLater(s: string, sep: string, j: nat)
    requires s != [] && j > 0
    ensures FoundAt(s, sep, j) <==> FoundAt(s[1..], sep, j - 1)
  {
    if j + |sep| <= |s| {
      assert s[j..j + |sep|] == s[1..][j - 1..j - 1 + |sep|];
    }
  }

  lemma ContainsExactly(s: string, sep: string)
    ensures Contains(s, sep) <==> exists i: nat :: FoundAt(s, sep, i)
  {
    IndexIsFirst(s, sep);
  }

  lemma SplitAt(s: string, c: char, i: nat)
    requires i < |s| && s[i] == c && c !in s[..i]
    ensures Split(s, [c]) == [s[..i]] + Split(s[i + 1..], [c])
  {
    assert forall j :: 0 <= j < i ==> s[..i][j] == s[j];
    IndexOf(s, c, i);
  }

  /** What follows the last separator is one part, and what precedes it is cut alone. */
  lemma {:induction false} SplitLast(s: string, c: char, k: string)
    requires c !in k
    ensures Split(k, [c]) == [k]
    ensures Split(s + [c] + k, [c]) == Split(s, [c]) + [k]
    decreases |s|
  {
    NotFound(k, c);
    IndexIsFirst(s, [c]);
    CharAt(s, c);
    match Index(s, [c])
    case None =>
      IndexOf(s + [c] + k, c, |s|);
      assert (s + [c] + k)[..|s|] == s && (s + [c] + k)[|s| + 1..] == k;
    case Some(i) =>
      var t := s + [c] + k;
      assert t[..i] == s[..i] && t[i] == c && t[i + 1..] == s[i + 1..] + [c] + k;
      SplitAt(t, c, i);
      SplitAt(s, c, i);
      SplitLast(s[i + 1..], c, k);
      ConcatAssociative([s[..i]], Split(s[i + 1..], [c]), [k]);
  }

  lemma CharAt(s: string, c: char)
    ensures forall i: nat :: FoundAt(s, [c], i) <==> i < |s| && s[i] == c
  {
    forall i: nat ensures FoundAt(s, [c], i) <==> i < |s| && s[i] == c {
      if i < |s| {
        assert s[i..i + 1] == [s[i]];
      }
    }
  }

  lemma NotFound(k: string, c: char)
    requires c !in k
    ensures Index(k, [c]) == None
  {
    IndexIsFirst(k, [c]);
    CharAt(k, c);
  }

  lemma IndexOf(t: string, c: char, i: nat)
    requires i < |t| && t[i] == c && forall j :: 0 <= j < i ==> t[j] != c
    ensures Index(t, [c]) == Some(i)
  {
    IndexIsFirst(t, [c]);
    CharAt(t, c);
  }

  // ----- One step -----

  /** The decimal digits of a number. */
  function Digits(n: nat): string {
    if n < 10 then ['0' + n as char] else Digits(n / 10) + ['0' + (n % 10) as char]
  }

  lemma {:induction false} DigitsRead(n: nat)
    ensures Digits(n) != [] && (forall k :: 0 <= k < |Digits(n)| ==> '0' <= Digits(n)[k] <= '9')
    ensures Decimal(Digits(n)) == Some(n)
  {
    if n >= 10 {
      DigitsRead(n / 10);
      var s := Digits(n);
      assert s[..|s| - 1] == Digits(n / 10);
    }
  }

  lemma NumberRead(n: nat)
    ensures Atoi(Digits(n)) == Some(n) && '.' !in Digits(n)
    ensures n > 0 ==> Atoi("-" + Digits(n)) == Some(-(n as int))
  {
    DigitsRead(n);
    var s := "-" + Digits(n);
    assert s[1..] == Digits(n);
  }

  lemma {:induction false} OnlyDigits(s: string)
    ensures Decimal(s).Some? <==> s != [] && forall k :: 0 <= k < |s| ==> '0' <= s[k] <= '9'
  {
    if s != [] && IsDigit(s[|s| - 1]) && |s| > 1 {
      OnlyDigits(s[..|s| - 1]);
      assert s == s[..|s| - 1] + [s[|s| - 1]];
    }
  }

  // ----- A path, one key more at a time -----

  /** The node one key leads to: a field of an object, an element of an array, by its position. */
  ghost predicate LeadsTo(v: Json, k: string, r: Option<Json>) {
    match v
    case Obj(fields) => (r.Some? <==> k in fields) && (r.Some? ==> r.value == fields[k])
    case Arr(items) =>
      && (forall n: nat :: k == Digits(n) ==> r == if n < |items| then Some(items[n]) else None)
      && (r.Some? ==> r.value in items)
      && ((exists c :: c in k && !('0' <= c <= '9') && c != '-' && c != '+') ==> r.None?)
    case _ => r.None?
  }

  lemma StepLeads(v: Json, k: string)
    ensures LeadsTo(v, k, Step(v, k))
  {
    if v.Arr? {
      forall n: nat | k == Digits(n) ensures Step(v, k) == if n < |v.items| then Some(v.items[n]) else None {
        NumberRead(n);
      }
      OnlyDigits(k);
      if k != [] {
        OnlyDigits(k[1..]);
        assert k == [k[0]] + k[1..];
      }
    }
  }

  lemma {:induction false} NodeAppend(v: Json, keys: seq<string>, k: string)
    ensures Node(v, keys + [k]) == if Node(v, keys).Some? then Step(Node(v, keys).value, k) else None
  {
    if keys == [] {
      assert (keys + [k])[1..] == [];
    } else {
      assert (keys + [k])[1..] == keys[1..] + [k];
      if Step(v, keys[0]).Some? {
        NodeAppend(Step(v, keys[0]).value, keys[1..], k);
      }
    }
  }

  /** A path designates what its last key leads to from the node of the path before it; the
      empty path is the document itself. */
  lemma PathReads(v: Json, path: string, k: string)
    requires '.' !in k
    ensures Designated(v, "") == Some(v)
    ensures k != "" ==> LeadsTo(v, k, Designated(v, k))
    ensures path != "" ==>
              match Designated(v, path)
              case None => Designated(v, path + "." + k) == None
              case Some(w) => LeadsTo(w, k, Designated(v, path + "." + k))
  {
    SplitLast(path, '.', k);
    StepLeads(v, k);
    if k != "" {
      assert Node(v, [k]) == Step(v, k) by {
        NodeAppend(v, [], k);
        assert [] + [k] == [k];
      }
    }
    if path != "" {
      NodeAppend(v, Split(path, "."), k);
      if Designated(v, path).Some? {
        StepLeads(Designated(v, path).value, k);
      }
    }
  }

  // ----- Alternatives -----

  predicate AllSpace(s: string) {
    forall k :: 0 <= k < |s| ==> IsSpace(s[k])
  }

  lemma {:induction false} TrimmedLeft(s: string) returns (l: string)
    ensures s == l + TrimLeft(s) && AllSpace(l) && (TrimLeft(s) == "" || !IsSpace(TrimLeft(s)[0]))
  {
    l := "";
    if s != [] && IsSpace(s[0]) {
      var rest := TrimmedLeft(s[1..]);
      l := [s[0]] + rest;
      assert s == [s[0]] + s[1..];
    }
  }

  lemma {:induction false} TrimmedRight(s: string) returns (r: string)
    ensures s == TrimRight(s) + r && AllSpace(r) && (TrimRight(s) == "" || !IsSpace(TrimRight(s)[|TrimRight(s)| - 1]))
    ensures TrimRight(s) <= s
  {
    r := "";
    if s != [] && IsSpace(s[|s| - 1]) {
      var rest := TrimmedRight(s[..|s| - 1]);
      r := rest + [s[|s| - 1]];
      assert s == s[..|s| - 1] + [s[|s| - 1]];
    }
  }

  /** Trimming takes spaces away from both ends, and nothing else. */
  lemma TrimmedExactly(s: string) returns (l: string, r: string)
    ensures var t := TrimSpace(s);
            && s == l + t + r && AllSpace(l) && AllSpace(r)
            && (t != "" ==> !IsSpace(t[0]) && !IsSpace(t[|t| - 1]))
  {
    l := TrimmedLeft(s);
    r := TrimmedRight(TrimLeft(s));
    var t := TrimSpace(s);
    assert t != "" ==> t[0] == TrimLeft(s)[0];
    assert s == l + (t + r);
  }

  lemma TrimmedAway(s: string)
    ensures TrimSpace(s) != "" <==> exists k :: 0 <= k < |s| && !IsSpace(s[k])
  {
    var l, r := TrimmedExactly(s);
    var t := TrimSpace(s);
    if t != "" {
      assert s[|l|] == t[0];
    } else {
      assert s == l + r;
    }
  }

  /** A path without "||" is its only alternative. */
  lemma OneAlternative(v: Json, path: string)
    requires forall i: nat :: !FoundAt(path, "||", i)
    ensures Coalesced(v, path) == OrNull(Designated(v, path))
    ensures AnyPresent(v, path) <==> Present(v, path)
  {
    ContainsExactly(path, "||");
    assert Alternatives(path) == [path] && [path][1..] == [];
    assert !SomePresent(v, []) && FirstRead(v, []) == Null;
    assert FirstRead(v, [path]) == OrNull(Designated(v, path));
  }

  lemma BarAt(s: string, i: nat)
    requires FoundAt(s, "||", i)
    ensures s[i] == '|'
  {
    assert s[i] == s[i..i + 2][0];
  }

  /** What follows the first "||" is looked at when what precedes it reads as nothing. */
  lemma MoreAlternatives(v: Json, a: string, b: string)
    requires '|' !in a
    ensures Coalesced(v, a + "||" + b) ==
              var r := OrNull(Designated(v, TrimSpace(a)));
              if r != Null then r else FirstRead(v, TrimAll(Split(b, "||")))
    ensures AnyPresent(v, a + "||" + b) <==>
              Present(v, TrimSpace(a)) || SomePresent(v, TrimAll(Split(b, "||")))
  {
    var path := a + "||" + b;
    IndexIsFirst(path, "||");
    assert FoundAt(path, "||", |a|) by {
      assert path[|a|..|a| + 2] == "||";
    }
    var i := Index(path, "||").value;
    BarAt(path, i);
    assert i >= |a|;
    assert path[..|a|] == a && path[|a| + 2..] == b;
    var parts := Split(path, "||");
    assert parts == [a] + Split(b, "||");
    assert parts[1..] == Split(b, "||");
  }

  /** The same, of a path whose alternatives are those two. */
  lemma TwoAlternatives(v: Json, a: string, b: string)
    requires '|' !in a && '|' !in b
    ensures Coalesced(v, a + "||" + b) ==
              var r := OrNull(Designated(v, TrimSpace(a)));
              if r != Null then r else OrNull(Designated(v, TrimSpace(b)))
    ensures AnyPresent(v, a + "||" + b) <==> Present(v, TrimSpace(a)) || Present(v, TrimSpace(b))
  {
    MoreAlternatives(v, a, b);
    IndexIsFirst(b, "||");
    if i: nat :| FoundAt(b, "||", i) {
      BarAt(b, i);
      assert false;
    }
    var rest := TrimAll([b]);
    assert Split(b, "||") == [b] && rest == [TrimSpace(b)] && rest[1..] == [];
    assert !SomePresent(v, []);
  }
}
