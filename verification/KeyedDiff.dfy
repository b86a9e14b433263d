/** The merge of two indexes by key: what differs, in the order of the keys
    (internal/assess/diff.go does it for verdicts, then for resources). */
module KeyedDiff {
  import opened Wrappers
  import opened Order

  // ----- Keys in order -----

  ghost predicate Separates<K>(order: K -> Key, keys: set<K>) {
    forall x, y :: x in keys && y in keys && order(x) == order(y) ==> x == y
  }

  ghost predicate Increasing<K>(order: K -> Key, keys: seq<K>) {
    SortedBy(order, keys) && Distinct(keys)
  }

  lemma DistinctPermutation<K>(keys: seq<K>, r: seq<K>)
    requires Distinct(keys) && multiset(r) == multiset(keys)
    ensures Distinct(r) && Elements(r) == Elements(keys)
  {
    forall x ensures x in r <==> x in keys {
      assert x in multiset(r) <==> x in multiset(keys);
    }
    forall i, j | 0 <= i < j < |r| ensures r[i] != r[j] {
      Multiplicity(keys, r[i]);
      RepeatedTwice(r, i, j);
    }
  }

  lemma SortedDistinct<K>(order: K -> Key, keys: seq<K>)
    requires Distinct(keys)
    ensures Increasing(order, SortBy(order, keys))
    ensures Elements(SortBy(order, keys)) == Elements(keys)
  {
    DistinctPermutation(keys, SortBy(order, keys));
  }

  lemma SameMultiset<K>(a: seq<K>, b: seq<K>)
    requires Distinct(a) && Distinct(b) && Elements(a) == Elements(b)
    ensures multiset(a) == multiset(b)
  {
    forall x ensures multiset(a)[x] == multiset(b)[x] {
      Multiplicity(a, x);
      Multiplicity(b, x);
      assert x in a <==> x in Elements(a);
      assert x in b <==> x in Elements(b);
      assert x in a <==> x in multiset(a);
      assert x in b <==> x in multiset(b);
    }
  }

  /** There is one increasing enumeration of a set of keys. */
  lemma IncreasingUnique<K>(order: K -> Key, a: seq<K>, b: seq<K>)
    requires Increasing(order, a) && Increasing(order, b) && Elements(a) == Elements(b)
    requires Separates(order, Elements(a))
    ensures a == b
  {
    SameMultiset(a, b);
    SortedUnique(order, a, b);
  }

  ghost function InOrderOf<K>(order: K -> Key, keys: set<K>): (r: seq<K>)
    ensures Increasing(order, r) && Elements(r) == keys
  {
    if keys == {} then []
    else
      var x :| x in keys;
      var rest := InOrderOf(order, keys - {x});
      OneMoreKey(x, rest);
      SortedDistinct(order, [x] + rest);
      SortBy(order, [x] + rest)
  }

  lemma OneMoreKey<K>(x: K, rest: seq<K>)
    requires Distinct(rest) && x !in Elements(rest)
    ensures Distinct([x] + rest) && Elements([x] + rest) == {x} + Elements(rest)
  {
  }

  method SortKeys<K(==)>(order: K -> Key, keys: set<K>) returns (r: seq<K>)
    requires Separates(order, keys)
    ensures r == InOrderOf(order, keys)
  {
    r := Enumerate(keys);
    SortedDistinct(order, r);
    r := SortBy(order, r);
    IncreasingUnique(order, r, InOrderOf(order, keys));
  }

  // ----- The edits between two indexes -----

  function Get<K, V>(m: map<K, V>, k: K): Option<V> {
    if k in m then Some(m[k]) else None
  }

  datatype Edit<K, V> = Edit(key: K, before: Option<V>, after: Option<V>)

  function EditAt<K, V(==)>(b: map<K, V>, a: map<K, V>, k: K): seq<Edit<K, V>> {
    if Get(b, k) == Get(a, k) then [] else [Edit(k, Get(b, k), Get(a, k))]
  }

  function EditsOver<K, V(==)>(b: map<K, V>, a: map<K, V>, keys: seq<K>): seq<Edit<K, V>> {
    if keys == [] then [] else EditsOver(b, a, keys[..|keys| - 1]) + EditAt(b, a, keys[|keys| - 1])
  }

  lemma EditsStep<K, V>(b: map<K, V>, a: map<K, V>, keys: seq<K>, i: nat)
    requires i < |keys|
    ensures EditsOver(b, a, keys[..i + 1]) == EditsOver(b, a, keys[..i]) + EditAt(b, a, keys[i])
  {
    assert keys[..i + 1][..i] == keys[..i];
  }

  /** Key by key, in increasing order, what differs. */
  ghost function Edits<K, V>(order: K -> Key, b: map<K, V>, a: map<K, V>): seq<Edit<K, V>> {
    EditsOver(b, a, InOrderOf(order, b.Keys + a.Keys))
  }

  lemma {:induction false} EditsMembers<K, V>(b: map<K, V>, a: map<K, V>, keys: seq<K>, e: Edit<K, V>)
    ensures e in EditsOver(b, a, keys) <==>
            e.key in keys && e.before == Get(b, e.key) && e.after == Get(a, e.key) && e.before != e.after
  {
    if keys != [] {
      var last := |keys| - 1;
      EditsMembers(b, a, keys[..last], e);
      assert keys == keys[..last] + [keys[last]];
      assert e in EditAt(b, a, keys[last]) <==>
             e.key == keys[last] && e.before == Get(b, e.key) && e.after == Get(a, e.key) && e.before != e.after;
    }
  }

  ghost predicate KeysIncrease<K, V>(order: K -> Key, edits: seq<Edit<K, V>>) {
    forall i, j {:trigger edits[i], edits[j]} :: 0 <= i < j < |edits| ==>
      KeyLe(order(edits[i].key), order(edits[j].key)) && edits[i].key != edits[j].key
  }

  lemma {:induction false} EditsIncrease<K, V>(order: K -> Key, b: map<K, V>, a: map<K, V>, keys: seq<K>)
    requires Increasing(order, keys)
    ensures KeysIncrease(order, EditsOver(b, a, keys))
  {
    if keys != [] {
      var last := |keys| - 1;
      var front := EditsOver(b, a, keys[..last]);
      PrefixIncreases(order, keys, last);
      EditsIncrease(order, b, a, keys[..last]);
      forall e | e in front ensures KeyLe(order(e.key), order(keys[last])) && e.key != keys[last] {
        EditsMembers(b, a, keys[..last], e);
        var i :| 0 <= i < last && keys[i] == e.key;
      }
      OneMoreEdit(order, front, EditAt(b, a, keys[last]), keys[last]);
    }
  }

  lemma PrefixIncreases<K>(order: K -> Key, keys: seq<K>, n: nat)
    requires Increasing(order, keys) && n <= |keys|
    ensures Increasing(order, keys[..n])
  {
  }

  lemma OneMoreEdit<K, V>(order: K -> Key, front: seq<Edit<K, V>>, more: seq<Edit<K, V>>, k: K)
    requires KeysIncrease(order, front) && |more| <= 1 && forall e :: e in more ==> e.key == k
    requires forall e :: e in front ==> KeyLe(order(e.key), order(k)) && e.key != k
    ensures KeysIncrease(order, front + more)
  {
  }

  /** Exactly the keys whose values differ, each with its two values. */
  ghost predicate AreDifferences<K(!new), V(!new)>(b: map<K, V>, a: map<K, V>, edits: seq<Edit<K, V>>) {
    forall e :: e in edits <==> e.before == Get(b, e.key) && e.after == Get(a, e.key) && e.before != e.after
  }

  /** The edits are exactly the keys whose values differ, once each, in strict order. */
  lemma EditsExactly<K(!new), V(!new)>(order: K -> Key, b: map<K, V>, a: map<K, V>)
    ensures KeysIncrease(order, Edits(order, b, a))
    ensures AreDifferences(b, a, Edits(order, b, a))
  {
    var keys := InOrderOf(order, b.Keys + a.Keys);
    EditsIncrease(order, b, a, keys);
    forall e: Edit<K, V> ensures e in EditsOver(b, a, keys) <==>
                           e.before == Get(b, e.key) && e.after == Get(a, e.key) && e.before != e.after
    {
      EditsMembers(b, a, keys, e);
      assert e.key in keys <==> e.key in Elements(keys);
    }
  }

  // ----- The edits are a patch -----

  function Edited<K, V>(m: map<K, V>, e: Edit<K, V>): map<K, V> {
    match e.after
    case Some(v) => m[e.key := v]
    case None => m - {e.key}
  }

  function Patched<K, V>(m: map<K, V>, edits: seq<Edit<K, V>>): map<K, V> {
    if edits == [] then m else Edited(Patched(m, edits[..|edits| - 1]), edits[|edits| - 1])
  }

  lemma EditedAt<K, V>(m: map<K, V>, e: Edit<K, V>, k: K)
    ensures Get(Edited(m, e), k) == if k == e.key then e.after else Get(m, k)
  {
  }

  lemma {:induction false} PatchedElsewhere<K, V>(m: map<K, V>, edits: seq<Edit<K, V>>, k: K)
    requires forall i :: 0 <= i < |edits| ==> edits[i].key != k
    ensures Get(Patched(m, edits), k) == Get(m, k)
  {
    if edits != [] {
      var last := |edits| - 1;
      PatchedElsewhere(m, edits[..last], k);
      EditedAt(Patched(m, edits[..last]), edits[last], k);
    }
  }

  lemma {:induction false} PatchedAt<K, V>(order: K -> Key, m: map<K, V>, edits: seq<Edit<K, V>>, i: nat)
    requires KeysIncrease(order, edits) && i < |edits|
    ensures Get(Patched(m, edits), edits[i].key) == edits[i].after
  {
    var last := |edits| - 1;
    EditedAt(Patched(m, edits[..last]), edits[last], edits[i].key);
    if i < last {
      assert edits[..last][i] == edits[i];
      PatchedAt(order, m, edits[..last], i);
    }
  }

  lemma SameGets<K, V>(m: map<K, V>, n: map<K, V>)
    requires forall k :: Get(m, k) == Get(n, k)
    ensures m == n
  {
    forall k | k in m ensures k in n && n[k] == m[k] {
      assert Get(m, k) == Get(n, k);
    }
    forall k | k in n ensures k in m {
      assert Get(m, k) == Get(n, k);
    }
    MapsAgree(m, n);
  }

  /** Applying the edits to the first index gives the second one. */
  lemma EditsArePatch<K(!new), V(!new)>(order: K -> Key, b: map<K, V>, a: map<K, V>)
    ensures Patched(b, Edits(order, b, a)) == a
  {
    var edits := Edits(order, b, a);
    EditsExactly(order, b, a);
    forall k ensures Get(Patched(b, edits), k) == Get(a, k) {
      PatchReaches(order, b, a, edits, k);
    }
    SameGets(Patched(b, edits), a);
  }

  lemma PatchReaches<K(!new), V(!new)>(order: K -> Key, b: map<K, V>, a: map<K, V>, edits: seq<Edit<K, V>>, k: K)
    requires KeysIncrease(order, edits)
    requires AreDifferences(b, a, edits)
    ensures Get(Patched(b, edits), k) == Get(a, k)
  {
    var e := Edit(k, Get(b, k), Get(a, k));
    if e in edits {
      var i: nat :| i < |edits| && edits[i] == e;
      PatchedAt(order, b, edits, i);
    } else {
      forall i | 0 <= i < |edits| ensures edits[i].key != k {
        assert edits[i] in edits;
      }
      PatchedElsewhere(b, edits, k);
    }
  }

  function CountNew<K, V>(edits: seq<Edit<K, V>>): nat {
    if edits == [] then 0 else CountNew(edits[..|edits| - 1]) + if edits[|edits| - 1].before.None? then 1 else 0
  }

  function CountGone<K, V>(edits: seq<Edit<K, V>>): nat {
    if edits == [] then 0 else CountGone(edits[..|edits| - 1]) + if edits[|edits| - 1].after.None? then 1 else 0
  }

  lemma {:induction false} PatchedSize<K, V>(order: K -> Key, m: map<K, V>, edits: seq<Edit<K, V>>)
    requires KeysIncrease(order, edits)
    requires forall i :: 0 <= i < |edits| ==>
               edits[i].before == Get(m, edits[i].key) && edits[i].before != edits[i].after
    ensures |Patched(m, edits)| == |m| + CountNew(edits) - CountGone(edits)
  {
    if edits != [] {
      var last := |edits| - 1;
      PatchedSize(order, m, edits[..last]);
      PatchedElsewhere(m, edits[..last], edits[last].key);
      EditedSize(Patched(m, edits[..last]), edits[last]);
    }
  }

  lemma EditedSize<K, V>(m: map<K, V>, e: Edit<K, V>)
    requires Get(m, e.key) == e.before && e.before != e.after
    ensures |Edited(m, e)| == |m| + (if e.before.None? then 1 else 0) - (if e.after.None? then 1 else 0)
  {
  }

  /** What was added minus what was removed is the growth of the index. */
  lemma EditsBalance<K(!new), V(!new)>(order: K -> Key, b: map<K, V>, a: map<K, V>, edits: seq<Edit<K, V>>)
    requires edits == Edits(order, b, a)
    ensures CountNew(edits) - CountGone(edits) == |a| - |b|
  {
    EditsExactly(order, b, a);
    EditsArePatch(order, b, a);
    forall i | 0 <= i < |edits| ensures edits[i].before == Get(b, edits[i].key) && edits[i].before != edits[i].after {
      assert edits[i] in edits;
    }
    PatchedSize(order, b, edits);
  }

  function Reverse<K, V>(e: Edit<K, V>): Edit<K, V> {
    Edit(e.key, e.after, e.before)
  }

  lemma {:induction false} ReverseOver<K, V>(b: map<K, V>, a: map<K, V>, keys: seq<K>)
    ensures |EditsOver(a, b, keys)| == |EditsOver(b, a, keys)|
    ensures forall i :: 0 <= i < |EditsOver(b, a, keys)| ==>
              EditsOver(a, b, keys)[i] == Reverse(EditsOver(b, a, keys)[i])
  {
    if keys != [] {
      ReverseOver(b, a, keys[..|keys| - 1]);
    }
  }

  /** Seen the other way round, every edit is reversed, in its place. */
  lemma EditsReverse<K, V>(order: K -> Key, b: map<K, V>, a: map<K, V>)
    ensures |Edits(order, a, b)| == |Edits(order, b, a)|
    ensures forall i :: 0 <= i < |Edits(order, b, a)| ==> Edits(order, a, b)[i] == Reverse(Edits(order, b, a)[i])
  {
    assert a.Keys + b.Keys == b.Keys + a.Keys;
    ReverseOver(b, a, InOrderOf(order, b.Keys + a.Keys));
  }
}
