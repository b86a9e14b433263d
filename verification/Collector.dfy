/** The declarative collection engine (internal/collect/engine.go): from the lists a server
    serves to normalized resources and the state of what could be read. */
module Collector {
  import opened Wrappers
  import opened Text
  import opened Json
  import opened Model
  import opened CollectionState
  import opened Projection
  import opened Fetch

  // ----- Reading a reply -----

  /** Items under a path; "[*]" flattens an array, and a flattened leaf remembers the
      object that contains it. */
  function Gather(v: Json, segs: seq<string>, parent: Option<map<string, Json>>): seq<Json>
    decreases |segs|, 0, 0
  {
    if segs == [] then
      if v.Obj? && parent.Some? then [Obj(v.fields["_parent" := Obj(parent.value)])] else [v]
    else if !v.Obj? then []
    else
      var seg := segs[0];
      if |seg| >= 3 && seg[|seg| - 3..] == "[*]" then
        var arr := Field(v.fields, seg[..|seg| - 3]);
        if arr.Arr? then GatherEach(arr.items, segs[1..], v.fields) else []
      else Gather(Field(v.fields, seg), segs[1..], parent)
  }

  function GatherEach(els: seq<Json>, segs: seq<string>, parent: map<string, Json>): seq<Json>
    decreases |segs|, 1, |els|
  {
    if els == [] then [] else Gather(els[0], segs, Some(parent)) + GatherEach(els[1..], segs, parent)
  }

  function ExtractItems(doc: Json, path: string): seq<Json> {
    if path == "" then []
    else if path == "." then [doc]
    else if !Contains(path, "[*]") then
      match OrNull(Designated(doc, path))
      case Arr(items) => items
      case Obj(fields) => [Obj(fields)]
      case _ => []
    else Gather(doc, Split(path, "."), None)
  }

  /** How a list is read: where its items, its flag and its next token are in a reply. */
  datatype Listing = Listing(items: string, style: Style, param: string, size: int, tokenParam: string,
                             morePath: string, tokenPath: string, maxPages: int)

  function PagingOf(l: Listing): Paging {
    Paging(l.style, l.param, l.size, l.tokenParam, l.morePath != "", l.maxPages)
  }

  datatype Answer =
    | Denied(called: string, error: FetchError)
    | Document(called: string, doc: Json)

  function Decode(a: Answer, l: Listing): Reply {
    match a
    case Denied(called, error) => Refused(called, error)
    case Document(called, doc) =>
      Page(called, ExtractItems(doc, l.items), AsBool(OrNull(Designated(doc, l.morePath))),
           if l.tokenPath == "" then "" else AsString(OrNull(Designated(doc, l.tokenPath))))
  }

  // ----- What is collected -----

  datatype ResourceSpec = ResourceSpec(
    typ: string,
    listing: Listing,
    id: string,
    mapping: map<string, string>,
    transforms: map<string, Transform>,
    consts: map<string, Json>,
    aggregate: string,
    parents: Option<Listing>)

  /** The server side of a scan: what it answers, and the endpoint each list is read from. */
  datatype World = World(
    serve: (string, Request) -> Answer,
    mainUrl: ResourceSpec -> string,
    parentUrl: ResourceSpec -> string,
    childUrl: (ResourceSpec, map<string, Json>) -> string,
    classify: FetchError -> (Outcome, string),
    provider: string,
    region: string)

  function Asking(w: World, url: string, l: Listing): Request -> Reply {
    (r: Request) => Decode(w.serve(url, r), l)
  }

  function Read(w: World, url: string, l: Listing): Fetched {
    FetchAll(Asking(w, url, l), url, PagingOf(l))
  }

  const CONST_REF := "descriptor:const"

  function ConstProvenance(consts: map<string, Json>): Provenance {
    map a | a in consts :: Attestation(ORIGIN_DERIVED, CONST_REF, "", false, true)
  }

  ghost function MapItem(w: World, r: ResourceSpec, item: Json, src: Source): Resource {
    var attrs := ProjectedAttributes(item, r.mapping, r.transforms) + r.consts;
    var prov := AttestedProvenance(item, r.mapping, r.transforms, src) + ConstProvenance(r.consts);
    var id := AsString(Field(attrs, r.id));
    Resource(w.provider, r.typ, id, id, w.region, attrs, prov)
  }

  ghost function MapItems(w: World, r: ResourceSpec, items: seq<Json>, src: Source): (out: seq<Resource>)
    ensures |out| == |items|
    ensures forall i :: 0 <= i < |items| ==> out[i] == MapItem(w, r, items[i], src)
  {
    seq(|items|, i requires 0 <= i < |items| => MapItem(w, r, items[i], src))
  }

  lemma MapItemsPrefix(w: World, r: ResourceSpec, a: seq<Json>, b: seq<Json>, src: Source)
    requires a <= b
    ensures MapItems(w, r, a, src) <= MapItems(w, r, b, src)
  {
  }

  method MapOne(w: World, r: ResourceSpec, item: Json, src: Source) returns (out: Resource)
    ensures out == MapItem(w, r, item, src)
  {
    var attrs, prov := ProjectAttested(item, r.mapping, r.transforms, src);
    attrs := attrs + r.consts;
    prov := prov + ConstProvenance(r.consts);
    var id := AsString(Field(attrs, r.id));
    out := Resource(w.provider, r.typ, id, id, w.region, attrs, prov);
  }

  method MapAll(w: World, r: ResourceSpec, items: seq<Json>, src: Source) returns (out: seq<Resource>)
    ensures out == MapItems(w, r, items, src)
  {
    out := [];
    for i := 0 to |items|
      invariant out == MapItems(w, r, items[..i], src)
    {
      var one := MapOne(w, r, items[i], src);
      MapItemsStep(w, r, items, i, src);
      out := out + [one];
    }
    assert items[..|items|] == items;
  }

  lemma MapItemsStep(w: World, r: ResourceSpec, items: seq<Json>, i: nat, src: Source)
    requires i < |items|
    ensures MapItems(w, r, items[..i + 1], src) == MapItems(w, r, items[..i], src) + [MapItem(w, r, items[i], src)]
  {
    var a, b := MapItems(w, r, items[..i + 1], src), MapItems(w, r, items[..i], src) + [MapItem(w, r, items[i], src)];
    forall k | 0 <= k < i + 1 ensures a[k] == b[k] {
      assert items[..i + 1][k] == items[k];
      assert k < i ==> items[..i][k] == items[k];
    }
  }

  /** The one resource an aggregate produces: a count, attested as computed. */
  function AggregateOf(w: World, r: ResourceSpec, count: nat, called: string): Resource {
    var attrs := map[r.aggregate := Num(count as real)] + r.consts;
    var prov := map[r.aggregate := Attestation(ORIGIN_API, called, "", true, true)] + ConstProvenance(r.consts);
    var id := AsString(Field(attrs, r.id));
    Resource(w.provider, r.typ, id, id, w.region, attrs, prov)
  }

  datatype Collected = Collected(resources: seq<Resource>, error: Option<FetchError>)

  function WithParent(item: Json, parent: map<string, Json>): Json {
    if item.Obj? then Obj(item.fields["_parent" := Obj(parent)]) else item
  }

  function WithParents(items: seq<Json>, parent: map<string, Json>): (out: seq<Json>)
    ensures |out| == |items|
    ensures forall i :: 0 <= i < |items| ==> out[i] == WithParent(items[i], parent)
  {
    seq(|items|, i requires 0 <= i < |items| => WithParent(items[i], parent))
  }

  /** The list of one parent's children. */
  function ReadChildren(w: World, r: ResourceSpec, parent: Json): Fetched {
    Read(w, w.childUrl(r, AsObject(parent)), r.listing)
  }

  ghost function Child(w: World, r: ResourceSpec, parent: Json): Collected {
    var f := ReadChildren(w, r, parent);
    Collected(MapItems(w, r, WithParents(f.items, AsObject(parent)), Source(ORIGIN_API, f.called)), f.error)
  }

  /** Parents in order, up to the first whose children could not all be read. */
  ghost function Children(w: World, r: ResourceSpec, parents: seq<Json>): Collected {
    if parents == [] then Collected([], None)
    else
      var c := Child(w, r, parents[0]);
      if c.error.Some? then c
      else
        var rest := Children(w, r, parents[1..]);
        Collected(c.resources + rest.resources, rest.error)
  }

  function WrapParent(e: Option<FetchError>): Option<FetchError> {
    if e.None? then None else Some(ParentList(e.value))
  }

  ghost function Joined(w: World, r: ResourceSpec): Collected
    requires r.parents.Some?
  {
    var ps := Read(w, w.parentUrl(r), r.parents.value);
    var c := Children(w, r, ps.items);
    if c.error.Some? then c else Collected(c.resources, WrapParent(ps.error))
  }

  ghost function CollectedFor(w: World, r: ResourceSpec): Collected {
    if r.parents.Some? then Joined(w, r)
    else
      var f := Read(w, w.mainUrl(r), r.listing);
      if r.aggregate == "" then Collected(MapItems(w, r, f.items, Source(ORIGIN_API, f.called)), f.error)
      else if f.error.Some? then Collected([], f.error)
      else Collected([AggregateOf(w, r, |f.items|, f.called)], None)
  }

  method CollectForEach(w: World, r: ResourceSpec) returns (out: seq<Resource>, error: Option<FetchError>)
    requires r.parents.Some?
    ensures Collected(out, error) == Joined(w, r)
  {
    var url := w.parentUrl(r);
    var parents, _, parentErr, _ := FetchItems(Asking(w, url, r.parents.value), url, PagingOf(r.parents.value));
    out, error := [], WrapParent(parentErr);
    for i := 0 to |parents|
      invariant Children(w, r, parents) ==
        var rest := Children(w, r, parents[i..]); Collected(out + rest.resources, rest.error)
    {
      var pm := AsObject(parents[i]);
      var childUrl := w.childUrl(r, pm);
      var items, called, err, _ := FetchItems(Asking(w, childUrl, r.listing), childUrl, PagingOf(r.listing));
      var mapped := MapAll(w, r, WithParents(items, pm), Source(ORIGIN_API, called));
      assert Collected(mapped, err) == Child(w, r, parents[i]);
      assert parents[i..][1..] == parents[i + 1..];
      ChildrenStep(w, r, parents[i..], out);
      out := out + mapped;
      if err.Some? {
        return out, err;
      }
    }
    assert out + [] == out;
  }

  lemma ChildrenStep(w: World, r: ResourceSpec, parents: seq<Json>, before: seq<Resource>)
    requires parents != []
    ensures var c := Child(w, r, parents[0]);
            var all := Children(w, r, parents);
            var rest := Children(w, r, parents[1..]);
            if c.error.Some? then all == c
            else before + all.resources == before + c.resources + rest.resources && all.error == rest.error
  {
  }

  method CollectResource(w: World, r: ResourceSpec) returns (out: seq<Resource>, error: Option<FetchError>)
    ensures Collected(out, error) == CollectedFor(w, r)
  {
    if r.parents.Some? {
      out, error := CollectForEach(w, r);
      return;
    }
    var url := w.mainUrl(r);
    var items, called, err, _ := FetchItems(Asking(w, url, r.listing), url, PagingOf(r.listing));
    if err.Some? && r.aggregate != "" {
      return [], err;
    }
    if r.aggregate != "" {
      return [AggregateOf(w, r, |items|, called)], None;
    }
    out := MapAll(w, r, items, Source(ORIGIN_API, called));
    error := err;
  }

  /** The state recorded for one spec. */
  ghost function UnitFor(w: World, r: ResourceSpec): Unit {
    var c := CollectedFor(w, r);
    if c.error.None? then Unit(r.typ, [r.typ], true, true, NoOutcome, "")
    else
      var reason := w.classify(c.error.value);
      Unit(r.typ, [r.typ], true, false, reason.0, reason.1)
  }

  ghost function UnitsFor(w: World, specs: seq<ResourceSpec>): (out: seq<Unit>)
    ensures |out| == |specs|
    ensures forall i :: 0 <= i < |specs| ==> out[i] == UnitFor(w, specs[i])
  {
    seq(|specs|, i requires 0 <= i < |specs| => UnitFor(w, specs[i]))
  }

  ghost function ResourcesFor(w: World, specs: seq<ResourceSpec>): seq<Resource> {
    if specs == [] then []
    else ResourcesFor(w, specs[..|specs| - 1]) + CollectedFor(w, specs[|specs| - 1]).resources
  }

  lemma ResourcesStep(w: World, specs: seq<ResourceSpec>, i: nat)
    requires i < |specs|
    ensures ResourcesFor(w, specs[..i + 1]) == ResourcesFor(w, specs[..i]) + CollectedFor(w, specs[i]).resources
  {
    assert specs[..i + 1][..i] == specs[..i];
  }

  lemma UnitsStep(w: World, specs: seq<ResourceSpec>, i: nat)
    requires i < |specs|
    ensures UnitsFor(w, specs[..i + 1]) == UnitsFor(w, specs[..i]) + [UnitFor(w, specs[i])]
  {
  }

  method CollectUnit(w: World, r: ResourceSpec) returns (rs: seq<Resource>, unit: Unit)
    ensures rs == CollectedFor(w, r).resources
    ensures unit == UnitFor(w, r)
  {
    var err;
    rs, err := CollectResource(w, r);
    assert Collected(rs, err) == CollectedFor(w, r);
    unit := Unit(r.typ, [r.typ], true, err.None?, NoOutcome, "");
    if err.Some? {
      var reason := w.classify(err.value);
      unit := unit.(error := reason.0, detail := reason.1);
    }
  }

  /** Runs every spec. A failure interrupts nothing: what was read is kept, and the failure
      is recorded. */
  method Collect(w: World, specs: seq<ResourceSpec>) returns (resources: seq<Resource>, coll: Collection)
    ensures fresh(coll) && coll.Valid()
    ensures coll.log == UnitsFor(w, specs)
    ensures resources == ResourcesFor(w, specs)
  {
    resources := [];
    coll := new Collection();
    for i := 0 to |specs|
      invariant fresh(coll) && coll.Valid()
      invariant coll.log == UnitsFor(w, specs[..i])
      invariant resources == ResourcesFor(w, specs[..i])
    {
      var rs, unit := CollectUnit(w, specs[i]);
      ResourcesStep(w, specs, i);
      UnitsStep(w, specs, i);
      resources := resources + rs;
      coll.Record(unit);
    }
    assert specs[..|specs|] == specs;
  }

  // ----- Joins are complete, or an error -----

  /** Every child of every parent, parent by parent; truth gives the children a parent
      really has. */
  ghost function FlatMap(w: World, r: ResourceSpec, parents: seq<Json>, truth: Json -> seq<Json>): seq<Resource> {
    if parents == [] then []
    else ChildrenOf(w, r, parents[0], truth) + FlatMap(w, r, parents[1..], truth)
  }

  ghost function ChildrenOf(w: World, r: ResourceSpec, parent: Json, truth: Json -> seq<Json>): seq<Resource> {
    MapItems(w, r, WithParents(truth(parent), AsObject(parent)), Source(ORIGIN_API, ReadChildren(w, r, parent).called))
  }

  lemma ChildFaithful(w: World, r: ResourceSpec, parent: Json, truth: Json -> seq<Json>)
    requires Faithful(ReadChildren(w, r, parent), truth(parent))
    ensures Child(w, r, parent).resources <= ChildrenOf(w, r, parent, truth)
    ensures Child(w, r, parent).error.None? ==> Child(w, r, parent).resources == ChildrenOf(w, r, parent, truth)
  {
  }

  lemma {:induction false} ChildrenFaithful(w: World, r: ResourceSpec, parents: seq<Json>, truth: Json -> seq<Json>)
    requires forall p :: p in parents ==> Faithful(ReadChildren(w, r, p), truth(p))
    ensures Children(w, r, parents).resources <= FlatMap(w, r, parents, truth)
    ensures Children(w, r, parents).error.None? ==> Children(w, r, parents).resources == FlatMap(w, r, parents, truth)
  {
    if parents != [] {
      var p := parents[0];
      ChildFaithful(w, r, p, truth);
      ChildrenFaithful(w, r, parents[1..], truth);
      var c, rest := Child(w, r, p), Children(w, r, parents[1..]);
      PrefixConcat(c.resources, ChildrenOf(w, r, p, truth), FlatMap(w, r, parents[1..], truth));
      PrefixAfter(c.resources, rest.resources, FlatMap(w, r, parents[1..], truth));
    }
  }

  lemma PrefixConcat<T>(a: seq<T>, b: seq<T>, c: seq<T>)
    requires a <= b
    ensures a <= b + c
  {
  }

  lemma PrefixAfter<T>(a: seq<T>, b: seq<T>, c: seq<T>)
    requires b <= c
    ensures a + b <= a + c
  {
  }

  lemma {:induction false} FlatMapPrefix(w: World, r: ResourceSpec, a: seq<Json>, b: seq<Json>,
                                         truth: Json -> seq<Json>)
    requires a <= b
    ensures FlatMap(w, r, a, truth) <= FlatMap(w, r, b, truth)
  {
    if a != [] {
      assert a == b[..|a|];
      assert a[1..] == b[1..][..|a| - 1];
      FlatMapPrefix(w, r, a[1..], b[1..], truth);
      PrefixAfter(ChildrenOf(w, r, a[0], truth), FlatMap(w, r, a[1..], truth), FlatMap(w, r, b[1..], truth));
    }
  }

  /** A join returns every child of every parent, or an error and a prefix of them. */
  lemma JoinComplete(w: World, r: ResourceSpec, parents: seq<Json>, truth: Json -> seq<Json>)
    requires r.parents.Some?
    requires Faithful(Read(w, w.parentUrl(r), r.parents.value), parents)
    requires forall p :: p in parents ==> Faithful(ReadChildren(w, r, p), truth(p))
    ensures var full := FlatMap(w, r, parents, truth);
            Joined(w, r).resources <= full && (Joined(w, r).error.None? ==> Joined(w, r).resources == full)
  {
    var read := Read(w, w.parentUrl(r), r.parents.value).items;
    assert read == parents[..|read|];
    forall p | p in read ensures p in parents {
      var i :| 0 <= i < |read| && read[i] == p;
      assert parents[i] == p;
    }
    ChildrenFaithful(w, r, read, truth);
    FlatMapPrefix(w, r, read, parents, truth);
    PrefixTransitive(Joined(w, r).resources, FlatMap(w, r, read, truth), FlatMap(w, r, parents, truth));
  }

  lemma PrefixTransitive<T>(a: seq<T>, b: seq<T>, c: seq<T>)
    requires a <= b <= c
    ensures a <= c
  {
  }

  lemma {:induction false} ChildrenSucceed(w: World, r: ResourceSpec, parents: seq<Json>)
    ensures Children(w, r, parents).error.None? <==>
              forall i :: 0 <= i < |parents| ==> ReadChildren(w, r, parents[i]).error.None?
  {
    if parents != [] {
      ChildrenSucceed(w, r, parents[1..]);
      assert forall i :: 1 <= i < |parents| ==> parents[i] == parents[1..][i - 1];
      assert Children(w, r, parents).error.None? ==> Child(w, r, parents[0]).error.None?;
    }
  }

  /** Some list behind a spec could not be read: its own, or for a join the list of parents or
      that of the children of a parent that was read. */
  ghost predicate SomeReadFailed(w: World, r: ResourceSpec) {
    if r.parents.Some? then
      var ps := Read(w, w.parentUrl(r), r.parents.value);
      ps.error.Some? || exists i :: 0 <= i < |ps.items| && ReadChildren(w, r, ps.items[i]).error.Some?
    else Read(w, w.mainUrl(r), r.listing).error.Some?
  }

  /** A spec ends in an error exactly when a list behind it could not be read. */
  lemma FailsExactly(w: World, r: ResourceSpec)
    ensures CollectedFor(w, r).error.Some? <==> SomeReadFailed(w, r)
  {
    if r.parents.Some? {
      ChildrenSucceed(w, r, Read(w, w.parentUrl(r), r.parents.value).items);
    }
  }

  /** What a spec would yield if everything behind it could be read. */
  ghost function Full(w: World, r: ResourceSpec, all: seq<Json>, truth: Json -> seq<Json>): seq<Resource> {
    if r.parents.Some? then FlatMap(w, r, all, truth)
    else
      var called := Read(w, w.mainUrl(r), r.listing).called;
      if r.aggregate == "" then MapItems(w, r, all, Source(ORIGIN_API, called))
      else [AggregateOf(w, r, |all|, called)]
  }

  /** The lists behind a spec are all and truth, read faithfully. */
  ghost predicate Behind(w: World, r: ResourceSpec, all: seq<Json>, truth: Json -> seq<Json>) {
    if r.parents.Some? then
      && Faithful(Read(w, w.parentUrl(r), r.parents.value), all)
      && forall p :: p in all ==> Faithful(ReadChildren(w, r, p), truth(p))
    else Faithful(Read(w, w.mainUrl(r), r.listing), all)
  }

  /** The server serves these lists, the children's included, at the endpoints of the spec; it
      may refuse any of the requests. */
  ghost predicate Served(w: World, r: ResourceSpec, all: seq<Json>, truth: Json -> seq<Json>) {
    if r.parents.Some? then
      && Serves(Asking(w, w.parentUrl(r), r.parents.value), PagingOf(r.parents.value), all)
      && forall p :: p in all ==> ServesChildren(w, r, p, truth(p))
    else Serves(Asking(w, w.mainUrl(r), r.listing), PagingOf(r.listing), all)
  }

  ghost predicate ServesChildren(w: World, r: ResourceSpec, parent: Json, children: seq<Json>) {
    Serves(Asking(w, w.childUrl(r, AsObject(parent)), r.listing), PagingOf(r.listing), children)
  }

  lemma ServedIsBehind(w: World, r: ResourceSpec, all: seq<Json>, truth: Json -> seq<Json>)
    requires Served(w, r, all, truth)
    ensures Behind(w, r, all, truth)
  {
    if r.parents.Some? {
      var url, l := w.parentUrl(r), r.parents.value;
      ServedIsFaithful(Asking(w, url, l), url, PagingOf(l), all);
      forall p | p in all ensures Faithful(ReadChildren(w, r, p), truth(p)) {
        var childUrl := w.childUrl(r, AsObject(p));
        assert ServesChildren(w, r, p, truth(p));
        ServedIsFaithful(Asking(w, childUrl, r.listing), childUrl, PagingOf(r.listing), truth(p));
      }
    } else {
      ServedIsFaithful(Asking(w, w.mainUrl(r), r.listing), w.mainUrl(r), PagingOf(r.listing), all);
    }
  }

  lemma BehindIsComplete(w: World, r: ResourceSpec, all: seq<Json>, truth: Json -> seq<Json>)
    requires Behind(w, r, all, truth)
    ensures CollectedFor(w, r).resources <= Full(w, r, all, truth)
    ensures CollectedFor(w, r).error.None? ==> CollectedFor(w, r).resources == Full(w, r, all, truth)
  {
    if r.parents.Some? {
      JoinComplete(w, r, all, truth);
    } else {
      var f := Read(w, w.mainUrl(r), r.listing);
      MapItemsPrefix(w, r, f.items, all, Source(ORIGIN_API, f.called));
    }
  }

  /** Whatever a server that serves the lists refuses, a spec yields everything behind it or an
      error, and on an error a prefix: in particular an aggregate is a count of the whole
      list, or nothing. */
  lemma CollectedIsCompleteOrError(w: World, r: ResourceSpec, all: seq<Json>, truth: Json -> seq<Json>)
    requires Served(w, r, all, truth)
    ensures CollectedFor(w, r).resources <= Full(w, r, all, truth)
    ensures CollectedFor(w, r).error.None? ==> CollectedFor(w, r).resources == Full(w, r, all, truth)
  {
    ServedIsBehind(w, r, all, truth);
    BehindIsComplete(w, r, all, truth);
  }

  // ----- What no error tells -----

  ghost predicate TruthfulList(w: World, url: string, l: Listing, all: seq<Json>) {
    Truthful(Asking(w, url, l), PagingOf(l), all)
  }

  ghost predicate CutList(w: World, url: string, l: Listing, all: seq<Json>) {
    EndsEarly(Asking(w, url, l), PagingOf(l), all)
  }

  lemma CountsDiffer(w: World, r: ResourceSpec, n: nat, m: nat, called: string)
    ensures AggregateOf(w, r, n, called) == AggregateOf(w, r, m, called) <==> n == m || r.aggregate in r.consts
  {
    var a, b := AggregateOf(w, r, n, called), AggregateOf(w, r, m, called);
    if r.aggregate in r.consts {
      assert map[r.aggregate := Num(n as real)] + r.consts == map[r.aggregate := Num(m as real)] + r.consts;
    } else {
      assert a.attributes[r.aggregate] == Num(n as real) && b.attributes[r.aggregate] == Num(m as real);
    }
  }

  lemma FewerMapped(w: World, r: ResourceSpec, a: seq<Json>, b: seq<Json>, src: Source)
    requires a <= b
    ensures MapItems(w, r, a, src) == MapItems(w, r, b, src) <==> a == b
  {
    assert |MapItems(w, r, a, src)| == |a| && |MapItems(w, r, b, src)| == |b|;
  }

  /** For a list truthfully served, by offset or by page number, what is collected is wrong
      without an error exactly when a page that looks like the last one is served too early:
      resources are missing, or an aggregate counts less than there is, unless a constant of
      the descriptor stands in place of the count. The unit recorded is then complete, and
      nothing in the state of the collection shows it. */
  lemma MissingWithoutError(w: World, r: ResourceSpec, all: seq<Json>, truth: Json -> seq<Json>)
    requires r.parents.None? && TruthfulList(w, w.mainUrl(r), r.listing, all)
    ensures CollectedFor(w, r).error.None? && CollectedFor(w, r).resources != Full(w, r, all, truth) <==>
              CutList(w, w.mainUrl(r), r.listing, all) && (r.aggregate == "" || r.aggregate !in r.consts)
    ensures r.aggregate != "" && CutList(w, w.mainUrl(r), r.listing, all) ==>
              exists n: nat, called :: n < |all|
                && CollectedFor(w, r) == Collected([AggregateOf(w, r, n, called)], None)
    ensures CollectedFor(w, r).error.None? ==> UnitFor(w, r).complete
  {
    var url := w.mainUrl(r);
    var f := Read(w, url, r.listing);
    CutExactly(Asking(w, url, r.listing), url, PagingOf(r.listing), all);
    FewerMapped(w, r, f.items, all, Source(ORIGIN_API, f.called));
    CountsDiffer(w, r, |f.items|, |all|, f.called);
  }

  // ----- Joins -----

  /** The number of children of these parents. */
  ghost function TotalOf(parents: seq<Json>, truth: Json -> seq<Json>): nat {
    if parents == [] then 0 else |truth(parents[0])| + TotalOf(parents[1..], truth)
  }

  lemma {:induction false} FlatMapCount(w: World, r: ResourceSpec, parents: seq<Json>, truth: Json -> seq<Json>)
    ensures |FlatMap(w, r, parents, truth)| == TotalOf(parents, truth)
  {
    if parents != [] {
      FlatMapCount(w, r, parents[1..], truth);
    }
  }

  lemma {:induction false} FlatMapSplit(w: World, r: ResourceSpec, a: seq<Json>, b: seq<Json>, truth: Json -> seq<Json>)
    ensures FlatMap(w, r, a + b, truth) == FlatMap(w, r, a, truth) + FlatMap(w, r, b, truth)
  {
    if a == [] {
      assert a + b == b;
    } else {
      assert (a + b)[1..] == a[1..] + b;
      FlatMapSplit(w, r, a[1..], b, truth);
      ConcatAssociative(ChildrenOf(w, r, a[0], truth), FlatMap(w, r, a[1..], truth), FlatMap(w, r, b, truth));
    }
  }

  /** What a parent's list of children holds, truthfully served. */
  ghost predicate TruthfulChildren(w: World, r: ResourceSpec, parent: Json, children: seq<Json>) {
    TruthfulList(w, w.childUrl(r, AsObject(parent)), r.listing, children)
  }

  ghost predicate CutChildren(w: World, r: ResourceSpec, parent: Json, children: seq<Json>) {
    CutList(w, w.childUrl(r, AsObject(parent)), r.listing, children)
  }

  lemma ChildCut(w: World, r: ResourceSpec, parent: Json, truth: Json -> seq<Json>)
    requires TruthfulChildren(w, r, parent, truth(parent)) && Child(w, r, parent).error.None?
    ensures |Child(w, r, parent).resources| <= |truth(parent)|
    ensures Child(w, r, parent).resources == ChildrenOf(w, r, parent, truth) <==>
              !CutChildren(w, r, parent, truth(parent))
    ensures |Child(w, r, parent).resources| == |truth(parent)| <==> !CutChildren(w, r, parent, truth(parent))
  {
    var url := w.childUrl(r, AsObject(parent));
    var f := ReadChildren(w, r, parent);
    CutExactly(Asking(w, url, r.listing), url, PagingOf(r.listing), truth(parent));
  }

  /** Over parents whose children were all read without an error, all are there exactly when no
      list of children was cut. */
  lemma {:induction false} ChildrenCut(w: World, r: ResourceSpec, parents: seq<Json>, truth: Json -> seq<Json>)
    requires forall p :: p in parents ==> TruthfulChildren(w, r, p, truth(p))
    requires Children(w, r, parents).error.None?
    ensures |Children(w, r, parents).resources| <= TotalOf(parents, truth)
    ensures Children(w, r, parents).resources == FlatMap(w, r, parents, truth) <==>
              forall p :: p in parents ==> !CutChildren(w, r, p, truth(p))
    ensures |Children(w, r, parents).resources| == TotalOf(parents, truth) <==>
              forall p :: p in parents ==> !CutChildren(w, r, p, truth(p))
  {
    if parents != [] {
      var p, rest := parents[0], parents[1..];
      assert parents == [p] + rest;
      ChildCut(w, r, p, truth);
      ChildrenCut(w, r, rest, truth);
      FlatMapCount(w, r, rest, truth);
      var c, cs := Child(w, r, p).resources, Children(w, r, rest).resources;
      assert Children(w, r, parents).resources == c + cs;
      assert |ChildrenOf(w, r, p, truth)| == |truth(p)|;
      assert c + cs == ChildrenOf(w, r, p, truth) + FlatMap(w, r, rest, truth) ==>
          |c| + |cs| == |truth(p)| + TotalOf(rest, truth);
    }
  }

  /** For a join over lists truthfully served, children are missing without an error exactly
      when the list of a parent that was read was cut, or that of the parents was and one that
      was not read has children. */
  lemma MissingFromJoin(w: World, r: ResourceSpec, all: seq<Json>, truth: Json -> seq<Json>)
    requires r.parents.Some? && TruthfulList(w, w.parentUrl(r), r.parents.value, all)
    requires forall p :: p in all ==> TruthfulChildren(w, r, p, truth(p))
    ensures var read := Read(w, w.parentUrl(r), r.parents.value).items;
            && read <= all
            && (CollectedFor(w, r).error.None? && CollectedFor(w, r).resources != Full(w, r, all, truth) <==>
                && !SomeReadFailed(w, r)
                && ((exists p :: p in read && CutChildren(w, r, p, truth(p)))
                    || (CutList(w, w.parentUrl(r), r.parents.value, all)
                        && exists p :: p in all[|read|..] && truth(p) != [])))
    ensures CollectedFor(w, r).error.None? ==> UnitFor(w, r).complete
  {
    var url, l := w.parentUrl(r), r.parents.value;
    var read := Read(w, url, l).items;
    CutExactly(Asking(w, url, l), url, PagingOf(l), all);
    FailsExactly(w, r);
    var unread := all[|read|..];
    assert all == read + unread;
    FlatMapSplit(w, r, read, unread, truth);
    FlatMapCount(w, r, read, truth);
    FlatMapCount(w, r, unread, truth);
    TotalZero(unread, truth);
    if CollectedFor(w, r).error.None? {
      JoinCut(w, r, read, unread, truth);
    }
  }

  lemma JoinCut(w: World, r: ResourceSpec, read: seq<Json>, unread: seq<Json>, truth: Json -> seq<Json>)
    requires forall p :: p in read ==> TruthfulChildren(w, r, p, truth(p))
    requires Children(w, r, read).error.None?
    ensures Children(w, r, read).resources == FlatMap(w, r, read, truth) + FlatMap(w, r, unread, truth) <==>
              && (forall p :: p in read ==> !CutChildren(w, r, p, truth(p)))
              && (forall p :: p in unread ==> truth(p) == [])
  {
    ChildrenCut(w, r, read, truth);
    FlatMapCount(w, r, read, truth);
    FlatMapCount(w, r, unread, truth);
    TotalZero(unread, truth);
    var cs, a, b := Children(w, r, read).resources, FlatMap(w, r, read, truth), FlatMap(w, r, unread, truth);
    assert |b| == 0 ==> b == [] && a + b == a;
    assert cs == a + b ==> |cs| == |a| + |b|;
  }

  lemma {:induction false} TotalZero(parents: seq<Json>, truth: Json -> seq<Json>)
    ensures TotalOf(parents, truth) == 0 <==> forall p :: p in parents ==> truth(p) == []
  {
    if parents != [] {
      TotalZero(parents[1..], truth);
      assert parents == [parents[0]] + parents[1..];
    }
  }
}
