/** What a reply of a server and an item of a list become, said in the terms of the documents
    themselves (internal/collect/engine.go). */
module Extraction {
  import opened Wrappers
  import opened Text
  import opened Json
  import opened Model
  import opened CollectionState
  import opened Projection
  import opened Fetch
  import opened Collector
  import opened Paths

  // ----- The items of a reply -----

  /** An items path without "[*]": an array gives its elements, in order, an object itself, and
      anything else, or nothing, gives nothing. A point is the whole document, and no path no item. */
  lemma PlainItems(doc: Json, path: string)
    requires forall i: nat :: !FoundAt(path, "[*]", i)
    ensures path == "" ==> ExtractItems(doc, path) == []
    ensures path == "." ==> ExtractItems(doc, path) == [doc]
    ensures path != "" && path != "." ==>
              && (forall items :: Designated(doc, path) == Some(Arr(items)) ==> ExtractItems(doc, path) == items)
              && (forall fields :: Designated(doc, path) == Some(Obj(fields)) ==>
                    ExtractItems(doc, path) == [Obj(fields)])
              && (((forall items :: Designated(doc, path) != Some(Arr(items)))
                   && (forall fields :: Designated(doc, path) != Some(Obj(fields)))) ==>
                    ExtractItems(doc, path) == [])
  {
    ContainsExactly(path, "[*]");
    var d := Designated(doc, path);
    if d.Some? && d.value.Arr? {
      assert d == Some(Arr(d.value.items));
    } else if d.Some? && d.value.Obj? {
      assert d == Some(Obj(d.value.fields));
    }
  }

  /** A node on the way to the items, with the object it was flattened out of. */
  datatype Place = Place(node: Json, container: Option<map<string, Json>>)

  predicate Starred(seg: string) {
    |seg| >= 3 && seg[|seg| - 3] == '[' && seg[|seg| - 2] == '*' && seg[|seg| - 1] == ']'
  }

  /** The places one segment further: a starred segment leads to each element of an array, any
      other to a field. */
  function Onward(p: Place, seg: string): seq<Place> {
    if !p.node.Obj? then []
    else if Starred(seg) then
      var name := seg[..|seg| - 3];
      if name in p.node.fields && p.node.fields[name].Arr?
      then EachIn(p.node.fields[name].items, p.node.fields)
      else []
    else [Place(if seg in p.node.fields then p.node.fields[seg] else Null, p.container)]
  }

  function EachIn(items: seq<Json>, container: map<string, Json>): (r: seq<Place>)
    ensures |r| == |items| && forall i :: 0 <= i < |r| ==> r[i] == Place(items[i], Some(container))
  {
    seq(|items|, i requires 0 <= i < |items| => Place(items[i], Some(container)))
  }

  function AllOnward(ps: seq<Place>, seg: string): seq<Place> {
    if ps == [] then [] else Onward(ps[0], seg) + AllOnward(ps[1..], seg)
  }

  /** Segment by segment, all the places at once. */
  function Reached(ps: seq<Place>, segs: seq<string>): seq<Place>
    decreases |segs|
  {
    if segs == [] then ps else Reached(AllOnward(ps, segs[0]), segs[1..])
  }

  /** An item that is an object remembers the one it was flattened out of. */
  function Item(p: Place): Json {
    if p.node.Obj? && p.container.Some? then Obj(p.node.fields["_parent" := Obj(p.container.value)]) else p.node
  }

  function Items(ps: seq<Place>): (r: seq<Json>)
    ensures |r| == |ps| && forall i :: 0 <= i < |r| ==> r[i] == Item(ps[i])
  {
    seq(|ps|, i requires 0 <= i < |ps| => Item(ps[i]))
  }

  function GatherAll(ps: seq<Place>, segs: seq<string>): seq<Json> {
    if ps == [] then [] else Gather(ps[0].node, segs, ps[0].container) + GatherAll(ps[1..], segs)
  }

  lemma {:induction false} GatherAllAppend(a: seq<Place>, b: seq<Place>, segs: seq<string>)
    ensures GatherAll(a + b, segs) == GatherAll(a, segs) + GatherAll(b, segs)
  {
    if a == [] {
      assert a + b == b;
    } else {
      assert (a + b)[1..] == a[1..] + b;
      GatherAllAppend(a[1..], b, segs);
      ConcatAssociative(Gather(a[0].node, segs, a[0].container), GatherAll(a[1..], segs), GatherAll(b, segs));
    }
  }

  lemma {:induction false} EachGathered(els: seq<Json>, segs: seq<string>, container: map<string, Json>)
    ensures GatherEach(els, segs, container) == GatherAll(EachIn(els, container), segs)
  {
    if els != [] {
      EachGathered(els[1..], segs, container);
      assert EachIn(els, container)[1..] == EachIn(els[1..], container);
    }
  }

  lemma StarredEnds(seg: string)
    ensures Starred(seg) <==> |seg| >= 3 && seg[|seg| - 3..] == "[*]"
  {
    if |seg| >= 3 {
      assert seg[|seg| - 3..] == [seg[|seg| - 3], seg[|seg| - 2], seg[|seg| - 1]];
    }
  }

  lemma OneGathered(p: Place, segs: seq<string>)
    requires segs != []
    ensures Gather(p.node, segs, p.container) == GatherAll(Onward(p, segs[0]), segs[1..])
  {
    var seg := segs[0];
    StarredEnds(seg);
    if p.node.Obj? {
      if Starred(seg) {
        var name := seg[..|seg| - 3];
        if name in p.node.fields && p.node.fields[name].Arr? {
          EachGathered(p.node.fields[name].items, segs[1..], p.node.fields);
        }
      } else {
        var next := Onward(p, seg);
        assert next[1..] == [];
        assert GatherAll(next, segs[1..]) == Gather(next[0].node, segs[1..], p.container) + [];
      }
    }
  }

  lemma {:induction false} GatherStep(ps: seq<Place>, segs: seq<string>)
    requires segs != []
    ensures GatherAll(ps, segs) == GatherAll(AllOnward(ps, segs[0]), segs[1..])
  {
    if ps != [] {
      OneGathered(ps[0], segs);
      GatherStep(ps[1..], segs);
      GatherAllAppend(Onward(ps[0], segs[0]), AllOnward(ps[1..], segs[0]), segs[1..]);
    }
  }

  lemma {:induction false} NothingLeft(ps: seq<Place>)
    ensures GatherAll(ps, []) == Items(ps)
  {
    if ps != [] {
      NothingLeft(ps[1..]);
      assert Items(ps)[1..] == Items(ps[1..]);
      assert Gather(ps[0].node, [], ps[0].container) == [Item(ps[0])];
    }
  }

  lemma {:induction false} GatheredAreReached(ps: seq<Place>, segs: seq<string>)
    ensures GatherAll(ps, segs) == Items(Reached(ps, segs))
    decreases |segs|
  {
    if segs == [] {
      NothingLeft(ps);
    } else {
      GatherStep(ps, segs);
      GatheredAreReached(AllOnward(ps, segs[0]), segs[1..]);
    }
  }

  /** An items path with "[*]", however many: the items are what is reached segment by segment,
      in order, each with the object that contains it. */
  lemma FlattenedItems(doc: Json, path: string)
    requires path != "." && exists i: nat :: FoundAt(path, "[*]", i)
    ensures ExtractItems(doc, path) == Items(Reached([Place(doc, None)], Split(path, ".")))
  {
    ContainsExactly(path, "[*]");
    var i: nat :| FoundAt(path, "[*]", i);
    var ps, segs := [Place(doc, None)], Split(path, ".");
    GatheredAreReached(ps, segs);
    assert ps[1..] == [];
    assert GatherAll(ps, segs) == Gather(doc, segs, None) + [];
  }

  /** The commonest of them: the elements of one array, with the document they are in. */
  lemma OneArray(fields: map<string, Json>, name: string, items: seq<Json>)
    requires '.' !in name && name in fields && fields[name] == Arr(items)
    ensures var got := ExtractItems(Obj(fields), name + "[*]");
            && |got| == |items|
            && forall i :: 0 <= i < |items| ==>
                 got[i] == if items[i].Obj? then Obj(items[i].fields["_parent" := Obj(fields)]) else items[i]
  {
    var path, start := name + "[*]", Place(Obj(fields), None);
    assert FoundAt(path, "[*]", |name|);
    FlattenedItems(Obj(fields), path);
    SplitLast(path, '.', path);
    var segs, places := [path], [start];
    assert Split(path, ".") == segs && segs[1..] == [] && places[1..] == [];
    assert path[..|path| - 3] == name;
    assert AllOnward(places, path) == Onward(start, path) + [];
    assert Reached(places, segs) == Reached(EachIn(items, fields), []);
  }

  // ----- A reply -----

  /** Whether more is announced, and the token of what comes next, are what the document holds
      there: true, and a text; anything else says no. */
  lemma ReplySays(called: string, doc: Json, l: Listing)
    ensures Decode(Document(called, doc), l).Page? && Decode(Document(called, doc), l).called == called
    ensures Decode(Document(called, doc), l).batch == ExtractItems(doc, l.items)
    ensures Decode(Document(called, doc), l).more <==> Designated(doc, l.morePath) == Some(Bool(true))
    ensures l.tokenPath != "" ==> forall t :: Designated(doc, l.tokenPath) == Some(Str(t)) ==>
              Decode(Document(called, doc), l).next == t
    ensures l.tokenPath == "" || (forall t :: Designated(doc, l.tokenPath) != Some(Str(t))) ==>
              Decode(Document(called, doc), l).next == ""
  {
    var d := Designated(doc, l.tokenPath);
    if d.Some? && d.value.Str? {
      assert d == Some(Str(d.value.s));
    }
  }

  // ----- An item -----

  predicate OneKey(path: string) {
    path != "" && '.' !in path && '[' !in path && '|' !in path
  }

  lemma BracketAt(s: string, i: nat)
    requires FoundAt(s, "[*]", i)
    ensures s[i] == '['
  {
    assert s[i] == s[i..i + 3][0];
  }

  lemma KeyReads(v: Json, k: string)
    requires OneKey(k)
    ensures v.Obj? ==> Designated(v, k) == if k in v.fields then Some(v.fields[k]) else None
    ensures !v.Obj? && !v.Arr? ==> Designated(v, k) == None
    ensures forall i: nat :: !FoundAt(k, "[*]", i) && !FoundAt(k, "||", i)
  {
    PathReads(v, "", k);
    forall i: nat ensures !FoundAt(k, "[*]", i) && !FoundAt(k, "||", i) {
      if FoundAt(k, "[*]", i) {
        BracketAt(k, i);
        assert false;
      }
      if FoundAt(k, "||", i) {
        BarAt(k, i);
        assert false;
      }
    }
  }

  /** The resource of an item: its identity, its place, its attributes with the constants of the
      descriptor over what was projected, and where each comes from. */
  lemma ResourceOfItem(w: World, r: ResourceSpec, item: Json, src: Source)
    ensures var m := MapItem(w, r, item, src);
            && m.provider == w.provider && m.typ == r.typ && m.region == w.region && m.name == m.id
            && (forall id :: r.id in m.attributes && m.attributes[r.id] == Str(id) ==> m.id == id)
            && (r.id !in m.attributes || !m.attributes[r.id].Str? ==> m.id == "")
            && (forall a :: a in r.consts ==> a in m.attributes && m.attributes[a] == r.consts[a])
            && (forall a :: a in r.consts ==> a in m.provenance)
            && (forall a :: a in r.consts ==>
                  m.provenance[a] == Attestation("derived", "descriptor:const", "", false, true))
            && (forall a :: a in m.attributes ==> a in r.consts || a in r.mapping)
            && (src.Source? ==> m.provenance.Keys == r.mapping.Keys + r.consts.Keys)
  {
  }

  /** An attribute copied without a transform: there when the item holds a value at its path, and
      then that very value; attested as observed when the item holds its path at all. */
  lemma CopiedAttribute(w: World, r: ResourceSpec, item: Json, src: Source, a: string)
    requires a in r.mapping && a !in r.transforms && a !in r.consts && src.Source?
    requires forall i: nat :: !FoundAt(r.mapping[a], "||", i)
    ensures var m, d := MapItem(w, r, item, src), Designated(item, r.mapping[a]);
            && (a in m.attributes <==> d.Some? && d.value != Null)
            && (a in m.attributes ==> m.attributes[a] == d.value)
            && a in m.provenance
            && (r.mapping[a] != "" ==>
                  m.provenance[a] == Attestation(src.origin, src.ref, r.mapping[a], d.Some?, false))
  {
    OneAlternative(item, r.mapping[a]);
  }

  /** A transform computes on what the item holds, and never on nothing. */
  lemma ComputedAttribute(w: World, r: ResourceSpec, item: Json, src: Source, a: string)
    requires a in r.mapping && a in r.transforms && a !in r.consts && src.Source?
    ensures var m, v := MapItem(w, r, item, src), Coalesced(item, r.mapping[a]);
            var there := v != Null || AnyPresent(item, r.mapping[a]);
            && (a in m.attributes <==> there && r.transforms[a](v).0 != Null)
            && (a in m.attributes ==> m.attributes[a] == r.transforms[a](v).0)
            && a in m.provenance && m.provenance[a].origin == src.origin && m.provenance[a].source == src.ref
            && m.provenance[a].path == r.mapping[a] && (m.provenance[a].observed <==> AnyPresent(item, r.mapping[a]))
            && (m.provenance[a].derived <==> a in m.attributes && r.transforms[a](v).1)
  {
  }

  /** The resource of an aggregate: a number, unless a constant stands in its place. */
  lemma ResourceOfCount(w: World, r: ResourceSpec, count: nat, called: string)
    requires r.aggregate !in r.consts
    ensures var m := AggregateOf(w, r, count, called);
            && m.provider == w.provider && m.typ == r.typ && m.region == w.region && m.name == m.id
            && m.attributes == r.consts[r.aggregate := Num(count as real)]
            && m.provenance.Keys == m.attributes.Keys
            && m.provenance[r.aggregate] == Attestation("api", called, "", true, true)
  {
  }

  /** A child carries its parent along; nothing else of it changes. */
  lemma ChildOfParent(item: Json, parent: map<string, Json>)
    ensures item.Obj? ==> WithParent(item, parent).Obj?
                          && WithParent(item, parent).fields == item.fields["_parent" := Obj(parent)]
    ensures !item.Obj? ==> WithParent(item, parent) == item
  {
  }

  /** So what a descriptor reads under "_parent" is what the parent holds. */
  lemma ParentIsReadable(item: Json, parent: map<string, Json>, k: string)
    requires item.Obj? && OneKey(k)
    ensures Designated(WithParent(item, parent), "_parent." + k) == if k in parent then Some(parent[k]) else None
  {
    var v := WithParent(item, parent);
    KeyReads(v, "_parent");
    PathReads(v, "_parent", k);
    assert "_parent" + "." + k == "_parent." + k;
  }

  /** The resources of a parent's children: one for each that was read, with its parent. */
  lemma ResourcesOfChildren(w: World, r: ResourceSpec, parent: Json, i: nat)
    requires parent.Obj?
    ensures var url := w.childUrl(r, parent.fields);
            var f := FetchAll(Asking(w, url, r.listing), url, PagingOf(r.listing));
            && |Child(w, r, parent).resources| == |f.items| && Child(w, r, parent).error == f.error
            && (i < |f.items| ==>
                  Child(w, r, parent).resources[i] ==
                  MapItem(w, r, WithParent(f.items[i], parent.fields), Source("api", f.called)))
  {
  }

  /** The unit recorded for a spec. */
  lemma UnitOfSpec(w: World, r: ResourceSpec)
    ensures var u, e := UnitFor(w, r), CollectedFor(w, r).error;
            && u.name == r.typ && u.types == [r.typ] && u.attempted && (u.complete <==> e.None?)
            && (e.None? ==> u.error == NoOutcome && u.detail == "")
            && (e.Some? ==> (u.error, u.detail) == w.classify(e.value))
  {
  }

  // ----- From documents to resources -----

  /** At this endpoint and offset the server refuses, or answers an object that holds a slice of
      the list under one field, and under another whether more remains. */
  ghost predicate AnswersSlice(w: World, url: string, l: Listing, all: seq<Json>, o: nat)
    requires o <= |all|
  {
    var a := w.serve(url, Request(None, Some(o), None));
    a.Document? ==>
      && a.doc.Obj? && l.items in a.doc.fields && a.doc.fields[l.items].Arr?
      && var slice := a.doc.fields[l.items].items;
         && o + |slice| <= |all| && slice == all[o..o + |slice|]
         && (slice == [] ==> o == |all|)
         && (l.morePath != "" ==> l.morePath in a.doc.fields
                                  && a.doc.fields[l.morePath] == Bool(o + |slice| < |all|))
         && (l.morePath == "" ==> o + |slice| == |all| || |slice| >= l.size)
  }

  lemma SliceDecoded(w: World, url: string, l: Listing, all: seq<Json>, o: nat)
    requires o <= |all| && AnswersSlice(w, url, l, all, o)
    requires OneKey(l.items) && (l.morePath != "" ==> OneKey(l.morePath))
    ensures var r := Asking(w, url, l)(Request(None, Some(o), None));
            r.Page? ==>
              && TruthfulBatch(r, PagingOf(l), o, all)
              && (LooksLast(PagingOf(l), r.batch) ==> o + |r.batch| == |all|)
  {
    var a := w.serve(url, Request(None, Some(o), None));
    if a.Document? {
      KeyReads(a.doc, l.items);
      PlainItems(a.doc, l.items);
      ReplySays(a.called, a.doc, l);
      if l.morePath != "" {
        KeyReads(a.doc, l.morePath);
      }
    }
  }

  lemma {:induction false} SlicesNeverStall(w: World, url: string, l: Listing, all: seq<Json>, o: nat, n: nat)
    requires o <= |all| && forall k: nat :: k <= |all| ==> AnswersSlice(w, url, l, all, k)
    requires OneKey(l.items) && (l.morePath != "" ==> OneKey(l.morePath))
    ensures !Stalls(Asking(w, url, l), PagingOf(l), |all|, o, n)
    decreases n
  {
    var r := Asking(w, url, l)(Request(None, Some(o), None));
    SliceDecoded(w, url, l, all, o);
    if n > 0 && r.Page? && o + |r.batch| < |all| {
      SlicesNeverStall(w, url, l, all, o + |r.batch|, n - 1);
    }
  }

  lemma SlicesServed(w: World, url: string, l: Listing, all: seq<Json>)
    requires l.style == OffsetBody && l.param != "" && forall k: nat :: k <= |all| ==> AnswersSlice(w, url, l, all, k)
    requires OneKey(l.items) && (l.morePath != "" ==> OneKey(l.morePath))
    ensures Serves(Asking(w, url, l), PagingOf(l), all)
  {
    var ask, p := Asking(w, url, l), PagingOf(l);
    forall o: nat | o <= |all| && ask(Request(None, Some(o), None)).Page?
      ensures TruthfulBatch(ask(Request(None, Some(o), None)), p, o, all)
    {
      SliceDecoded(w, url, l, all, o);
    }
    SlicesNeverStall(w, url, l, all, 0, MaxPages(p));
    NoParts(ask, p, all);
  }

  lemma NoParts(ask: Request -> Reply, p: Paging, all: seq<Json>)
    requires TruthfulOffsets(ask, p, all) && !Stalls(ask, p, |all|, 0, MaxPages(p))
    ensures Truthful(ask, p, all) && !EndsEarly(ask, p, all)
  {
    forall parts ensures !PartsOf(ask, p, all, parts) {
    }
  }

  /** From the documents of a server to the resources of a scan: when it answers slices of a list,
      however it cuts it and whatever it refuses, either the unit of the spec is incomplete, or
      there is one resource for each element of the list, in order, and an attribute read at one
      key is what that element holds there. */
  lemma DocumentsBecomeResources(w: World, r: ResourceSpec, all: seq<Json>)
    requires r.parents.None? && r.aggregate == "" && r.listing.style == OffsetBody && r.listing.param != ""
    requires OneKey(r.listing.items) && (r.listing.morePath != "" ==> OneKey(r.listing.morePath))
    requires forall o: nat :: o <= |all| ==> AnswersSlice(w, w.mainUrl(r), r.listing, all, o)
    ensures UnitFor(w, r).complete ==>
              var got := CollectedFor(w, r).resources;
              && |got| == |all|
              && forall i, a :: 0 <= i < |all| && a in r.mapping && a !in r.transforms && a !in r.consts
                                && OneKey(r.mapping[a]) && all[i].Obj? ==>
                   var k := r.mapping[a];
                   && (a in got[i].attributes <==> k in all[i].fields && all[i].fields[k] != Null)
                   && (a in got[i].attributes ==> got[i].attributes[a] == all[i].fields[k])
                   && (k !in all[i].fields ==> a in got[i].provenance && !got[i].provenance[a].observed)
  {
    SlicesServed(w, w.mainUrl(r), r.listing, all);
    CollectedIsCompleteOrError(w, r, all, j => []);
    var src := Source(ORIGIN_API, Read(w, w.mainUrl(r), r.listing).called);
    forall i, a | 0 <= i < |all| && a in r.mapping && a !in r.transforms && a !in r.consts
                  && OneKey(r.mapping[a]) && all[i].Obj?
      ensures var m, k := MapItem(w, r, all[i], src), r.mapping[a];
              && (a in m.attributes <==> k in all[i].fields && all[i].fields[k] != Null)
              && (a in m.attributes ==> m.attributes[a] == all[i].fields[k])
              && (k !in all[i].fields ==> a in m.provenance && !m.provenance[a].observed)
    {
      KeyReads(all[i], r.mapping[a]);
      CopiedAttribute(w, r, all[i], src, a);
    }
  }
}
