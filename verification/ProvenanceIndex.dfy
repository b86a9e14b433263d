/** The provenance of each attribute, summarized by type (internal/assess/provenance.go). */
module ProvenanceIndex {
  import opened Wrappers
  import opened Order
  import opened Model
  import opened Inventory

  /** Where the values of one attribute come from on the resources of one type. */
  datatype AttrOrigin = AttrOrigin(sources: seq<string>, observed: nat, total: nat)

  type ByAttr = map<string, AttrOrigin>
  type Index = map<string, ByAttr>

  const NO_ORIGIN := AttrOrigin([], 0, 0)

  function Label(a: Attestation): string {
    if a.origin == "" then ""
    else
      a.origin + (if a.source != "" then ":" + a.source else "")
      + (if a.derived && a.origin != ORIGIN_DERIVED then " (derived)" else "")
  }

  // ----- What the index says -----

  /** Some resource of the type was asked for the attribute. */
  ghost predicate Sought(views: seq<View>, t: string, a: string) {
    t != "" && exists v :: v in views && v.typ == t && a in v.prov
  }

  ghost function Labels(views: seq<View>, t: string, a: string): set<string> {
    set v | v in views && v.typ == t && a in v.prov && Label(v.prov[a]) != "" :: Label(v.prov[a])
  }

  function Total(views: seq<View>, t: string, a: string): nat {
    if views == [] then 0
    else (if views[0].typ == t && a in views[0].prov then 1 else 0) + Total(views[1..], t, a)
  }

  function Observed(views: seq<View>, t: string, a: string): nat {
    if views == [] then 0
    else (if views[0].typ == t && a in views[0].prov && views[0].prov[a].observed then 1 else 0)
         + Observed(views[1..], t, a)
  }

  /** The entry of an attribute of a type, if the index has one. */
  function At(idx: Index, t: string, a: string): Option<AttrOrigin> {
    if t in idx && a in idx[t] then Some(idx[t][a]) else None
  }

  /** The origins are the distinct labels met, sorted, with the number of resources whose
      source carried the attribute and of those that declare it. */
  ghost function Origins(views: seq<View>, t: string, a: string): Option<AttrOrigin> {
    if Sought(views, t, a)
    then Some(AttrOrigin(Ordered(Labels(views, t, a)), Observed(views, t, a), Total(views, t, a)))
    else None
  }

  ghost predicate NoEmptyType(idx: Index) {
    forall t :: t in idx ==> idx[t] != map[]
  }

  /** The index has an entry exactly for the attributes sought on each type. */
  ghost predicate IsIndex(views: seq<View>, idx: Index) {
    && NoEmptyType(idx)
    && forall t, a {:trigger At(idx, t, a)} :: At(idx, t, a) == Origins(views, t, a)
  }

  lemma IndexUnique(views: seq<View>, m: Index, n: Index)
    requires IsIndex(views, m) && IsIndex(views, n)
    ensures m == n
  {
    SameEntries(m, n);
    SameEntries(n, m);
    MapsAgree(m, n);
  }

  ghost function AttributesSought(views: seq<View>, t: string): set<string> {
    set v, a | v in views && v.typ == t && a in v.prov :: a
  }

  /** The index of an inventory. */
  ghost function IndexOf(views: seq<View>): (idx: Index)
    ensures IsIndex(views, idx)
  {
    var idx := map t | t in TypesOf(views) && AttributesSought(views, t) != {} :: EntriesOf(views, t);
    assert IsIndex(views, idx) by {
      forall t | t in idx ensures idx[t] != map[] {
        var a :| a in AttributesSought(views, t);
        SoughtAmong(views, t, a);
        assert a in idx[t];
      }
      forall t, a ensures At(idx, t, a) == Origins(views, t, a) {
        SoughtAmong(views, t, a);
      }
    }
    idx
  }

  ghost function EntriesOf(views: seq<View>, t: string): ByAttr
    requires t != ""
  {
    map a | a in AttributesSought(views, t) && Origins(views, t, a).Some? :: Origins(views, t, a).value
  }

  lemma SoughtAmong(views: seq<View>, t: string, a: string)
    ensures Sought(views, t, a) <==> t in TypesOf(views) && a in AttributesSought(views, t)
  {
  }

  lemma SameEntries(m: Index, n: Index)
    requires NoEmptyType(m) && forall t, a {:trigger At(m, t, a)} {:trigger At(n, t, a)} :: At(m, t, a) == At(n, t, a)
    ensures forall t :: t in m ==> t in n && m[t] == n[t]
  {
    forall t | t in m ensures t in n && m[t] == n[t] {
      var a :| a in m[t];
      assert At(m, t, a) == At(n, t, a);
      forall b ensures b in m[t] <==> b in n[t] {
        assert At(m, t, b) == At(n, t, b);
      }
      forall b | b in m[t] ensures m[t][b] == n[t][b] {
        assert At(m, t, b) == At(n, t, b);
      }
      MapsAgree(m[t], n[t]);
    }
  }

  // ----- Building it -----

  /** The same, while labels are still in the order they were met. */
  ghost predicate Tallies(o: AttrOrigin, views: seq<View>, t: string, a: string) {
    && Distinct(o.sources) && Elements(o.sources) == Labels(views, t, a)
    && o.observed == Observed(views, t, a) && o.total == Total(views, t, a)
  }

  ghost predicate Tallied(o: Option<AttrOrigin>, views: seq<View>, t: string, a: string) {
    && (o.Some? <==> Sought(views, t, a))
    && (o.Some? ==> Tallies(o.value, views, t, a))
  }

  ghost predicate IsTally(views: seq<View>, idx: Index) {
    && NoEmptyType(idx)
    && forall t, a {:trigger At(idx, t, a)} :: Tallied(At(idx, t, a), views, t, a)
  }

  function AddOne(o: AttrOrigin, att: Attestation): AttrOrigin {
    var mark := Label(att);
    AttrOrigin(if mark != "" && mark !in o.sources then o.sources + [mark] else o.sources,
               if att.observed then o.observed + 1 else o.observed, o.total + 1)
  }

  /** Merges the attestation of one resource into the summary of its type. */
  method AddAll(byAttr: ByAttr, prov: Provenance) returns (out: ByAttr)
    ensures forall a :: a in out <==> a in byAttr || a in prov
    ensures forall a :: a in out ==>
      out[a] == if a in prov then AddOne(GetOr(byAttr, a, NO_ORIGIN), prov[a]) else byAttr[a]
  {
    out := byAttr;
    var todo := prov.Keys;
    while todo != {}
      invariant todo <= prov.Keys
      invariant forall a :: a in out <==> a in byAttr || (a in prov && a !in todo)
      invariant forall a :: a in out ==>
        out[a] == if a in prov && a !in todo then AddOne(GetOr(byAttr, a, NO_ORIGIN), prov[a]) else byAttr[a]
      decreases todo
    {
      var a :| a in todo;
      todo := todo - {a};
      out := out[a := AddOne(GetOr(out, a, NO_ORIGIN), prov[a])];
    }
  }

  lemma {:induction false} CountsAppend(views: seq<View>, v: View, t: string, a: string)
    ensures Total(views + [v], t, a) == Total(views, t, a) + if v.typ == t && a in v.prov then 1 else 0
    ensures Observed(views + [v], t, a) ==
            Observed(views, t, a) + if v.typ == t && a in v.prov && v.prov[a].observed then 1 else 0
  {
    if views == [] {
      assert (views + [v])[1..] == [];
    } else {
      assert (views + [v])[1..] == views[1..] + [v];
      CountsAppend(views[1..], v, t, a);
    }
  }

  lemma SoughtAppend(views: seq<View>, v: View, t: string, a: string)
    ensures Sought(views + [v], t, a) <==> Sought(views, t, a) || (t != "" && v.typ == t && a in v.prov)
    ensures Labels(views + [v], t, a) ==
            Labels(views, t, a) + if v.typ == t && a in v.prov && Label(v.prov[a]) != "" then {Label(v.prov[a])} else {}
  {
  }

  lemma {:induction false} NothingSought(views: seq<View>, t: string, a: string)
    requires t != "" && !Sought(views, t, a)
    ensures Tallies(NO_ORIGIN, views, t, a)
  {
    assert Labels(views, t, a) == {};
    if views != [] {
      assert views[0] in views;
      assert forall v :: v in views[1..] ==> v in views;
      NothingSought(views[1..], t, a);
    }
  }

  lemma TallyStep(views: seq<View>, v: View, t: string, a: string, o: AttrOrigin)
    requires Tallies(o, views, t, a)
    ensures v.typ == t && a in v.prov ==> Tallies(AddOne(o, v.prov[a]), views + [v], t, a)
    ensures !(v.typ == t && a in v.prov) ==> Tallies(o, views + [v], t, a)
  {
    CountsAppend(views, v, t, a);
    SoughtAppend(views, v, t, a);
    if v.typ == t && a in v.prov {
      var mark := Label(v.prov[a]);
      assert mark in o.sources <==> mark in Elements(o.sources);
      assert Elements(o.sources + [mark]) == Elements(o.sources) + {mark};
    }
  }

  /** What one more resource does to an entry. */
  function Bumped(o: Option<AttrOrigin>, v: View, t: string, a: string): Option<AttrOrigin> {
    if t != "" && v.typ == t && a in v.prov
    then Some(AddOne(if o.Some? then o.value else NO_ORIGIN, v.prov[a]))
    else o
  }

  lemma BumpedTally(views: seq<View>, v: View, t: string, a: string, o: Option<AttrOrigin>)
    requires Tallied(o, views, t, a)
    ensures Tallied(Bumped(o, v, t, a), views + [v], t, a)
  {
    SoughtAppend(views, v, t, a);
    if o.Some? {
      TallyStep(views, v, t, a, o.value);
    } else if t != "" {
      NothingSought(views, t, a);
      TallyStep(views, v, t, a, NO_ORIGIN);
    }
  }

  /** Merges one resource into the index of its type. */
  method Add(idx: Index, v: View) returns (out: Index)
    requires NoEmptyType(idx)
    ensures NoEmptyType(out)
    ensures forall t, a {:trigger At(out, t, a)} :: At(out, t, a) == Bumped(At(idx, t, a), v, t, a)
  {
    if v.typ == "" || v.prov == map[] {
      return idx;
    }
    var byAttr := AddAll(GetOr(idx, v.typ, map[]), v.prov);
    var some :| some in v.prov;
    assert some in byAttr;
    out := idx[v.typ := byAttr];
  }

  lemma AddKeepsTally(views: seq<View>, v: View, idx: Index, out: Index)
    requires IsTally(views, idx) && NoEmptyType(out)
    requires forall t, a {:trigger At(out, t, a)} :: At(out, t, a) == Bumped(At(idx, t, a), v, t, a)
    ensures IsTally(views + [v], out)
  {
    forall t, a ensures Tallied(At(out, t, a), views + [v], t, a) {
      BumpedTally(views, v, t, a, At(idx, t, a));
    }
  }

  function SortSources(byAttr: ByAttr): ByAttr {
    map a | a in byAttr :: byAttr[a].(sources := SortStrings(byAttr[a].sources))
  }

  function SortAll(idx: Index): Index {
    map t | t in idx :: SortSources(idx[t])
  }

  lemma SortedTally(views: seq<View>, idx: Index)
    requires IsTally(views, idx)
    ensures IsIndex(views, SortAll(idx))
  {
    var out := SortAll(idx);
    forall t | t in out ensures out[t] != map[] {
      var a :| a in idx[t];
      assert a in out[t];
    }
    forall t, a ensures At(out, t, a) == Origins(views, t, a) {
      var o := At(idx, t, a);
      assert Tallied(o, views, t, a);
      if o.Some? {
        SortIsOrdered(o.value.sources);
      }
    }
  }

  method ProvenanceOf(inv: Inventory) returns (idx: Index)
    ensures IsIndex(ViewsOf(inv), idx)
  {
    var views := ViewsOf(inv);
    idx := map[];
    for i := 0 to |views|
      invariant IsTally(views[..i], idx)
    {
      var next := Add(idx, views[i]);
      AddKeepsTally(views[..i], views[i], idx, next);
      assert views[..i + 1] == views[..i] + [views[i]];
      idx := next;
    }
    assert views[..|views|] == views;
    SortedTally(views, idx);
    idx := SortAll(idx);
  }
}
