/** What each pass writes in a verdict besides its status, and what it leaves alone
    (internal/assess: provenance.go, attested_absence.go, collection.go, relaxation.go). */
module Annotations {
  import opened Wrappers
  import opened Order
  import opened Model
  import opened CollectionState
  import opened Inventory
  import opened ProvenanceIndex
  import opened Assess
  import opened Passes
  import opened Reference

  // ----- Where the deciding attributes come from -----

  /** The positions of the resources of a type whose source was asked for an attribute. */
  ghost function AskedAt(rs: seq<Resource>, t: string, a: string): set<nat> {
    set i: nat | i < |rs| && rs[i].typ == t && a in rs[i].provenance
  }

  ghost function ObservedAt(rs: seq<Resource>, t: string, a: string): set<nat> {
    set i: nat | i < |rs| && rs[i].typ == t && a in rs[i].provenance && rs[i].provenance[a].observed
  }

  /** The mark of an attestation: its nature, its source when it has one, and whether it was
      computed, unless its nature says so already. */
  lemma MarkSays(a: Attestation)
    ensures a.origin == "" ==> Label(a) == ""
    ensures a.origin != "" && a.source == "" && !(a.derived && a.origin != "derived") ==> Label(a) == a.origin
    ensures a.origin != "" && a.source != "" && !(a.derived && a.origin != "derived") ==>
              Label(a) == a.origin + ":" + a.source
    ensures a.origin != "" && a.source == "" && a.derived && a.origin != "derived" ==>
              Label(a) == a.origin + " (derived)"
    ensures a.origin != "" && a.source != "" && a.derived && a.origin != "derived" ==>
              Label(a) == a.origin + ":" + a.source + " (derived)"
  {
    ConcatAssociative(a.origin, ":", a.source);
  }

  lemma ViewsFront(rs: seq<Resource>)
    requires rs != []
    ensures ViewsOf(Typed(rs)) == ViewsOf(Typed(rs[..|rs| - 1])) + [ViewOfResource(rs[|rs| - 1])]
  {
  }

  lemma AskedFront(rs: seq<Resource>, t: string, a: string)
    requires rs != []
    ensures var last: nat := |rs| - 1;
            AskedAt(rs, t, a) ==
            AskedAt(rs[..last], t, a) + if rs[last].typ == t && a in rs[last].provenance then {last} else {}
  {
  }

  lemma ObservedFront(rs: seq<Resource>, t: string, a: string)
    requires rs != []
    ensures var last: nat := |rs| - 1;
            ObservedAt(rs, t, a) ==
            ObservedAt(rs[..last], t, a)
            + if rs[last].typ == t && a in rs[last].provenance && rs[last].provenance[a].observed then {last} else {}
  {
  }

  lemma {:induction false} CountsArePositions(rs: seq<Resource>, t: string, a: string)
    ensures Total(ViewsOf(Typed(rs)), t, a) == |AskedAt(rs, t, a)|
    ensures Observed(ViewsOf(Typed(rs)), t, a) == |ObservedAt(rs, t, a)|
  {
    if rs == [] {
      assert AskedAt(rs, t, a) == {} && ObservedAt(rs, t, a) == {};
    } else {
      var front, v := rs[..|rs| - 1], ViewOfResource(rs[|rs| - 1]);
      CountsArePositions(front, t, a);
      ViewsFront(rs);
      CountsAppend(ViewsOf(Typed(front)), v, t, a);
      AskedFront(rs, t, a);
      ObservedFront(rs, t, a);
    }
  }

  /** The index of an inventory: for each attribute asked for on a type, how many resources were
      asked, how many had it, and the distinct marks of their sources, sorted. */
  lemma IndexSays(rs: seq<Resource>, idx: Index, t: string, a: string)
    requires IsIndex(ViewsOf(Typed(rs)), idx)
    ensures t in idx && a in idx[t] <==> t != "" && AskedAt(rs, t, a) != {}
    ensures t in idx && a in idx[t] ==>
              var o := idx[t][a];
              && o.total == |AskedAt(rs, t, a)| && o.observed == |ObservedAt(rs, t, a)|
              && Ascending(o.sources)
              && forall l :: l in o.sources <==>
                   l != "" && exists i :: i in AskedAt(rs, t, a) && Label(rs[i].provenance[a]) == l
  {
    var views := ViewsOf(Typed(rs));
    EntrySeen(views, idx, t, a);
    AskedOf(rs, views, t, a);
    AskedSomewhere(rs, t, a);
    if t in idx && a in idx[t] {
      assert At(idx, t, a) == ProvenanceIndex.Origins(views, t, a);
      CountsArePositions(rs, t, a);
      forall l ensures l in idx[t][a].sources <==>
                       l != "" && exists i :: i in AskedAt(rs, t, a) && Label(rs[i].provenance[a]) == l
      {
        LabelsSeen(rs, views, t, a, l);
        assert l in idx[t][a].sources <==> l in Elements(idx[t][a].sources);
      }
    }
  }

  lemma AskedSomewhere(rs: seq<Resource>, t: string, a: string)
    ensures AskedAt(rs, t, a) != {} <==> exists r :: r in rs && r.typ == t && a in r.provenance
  {
    if AskedAt(rs, t, a) != {} {
      var i :| i in AskedAt(rs, t, a);
      assert rs[i] in rs;
    }
    if r :| r in rs && r.typ == t && a in r.provenance {
      var i: nat :| i < |rs| && rs[i] == r;
      assert i in AskedAt(rs, t, a);
    }
  }

  lemma LabelsSeen(rs: seq<Resource>, views: seq<View>, t: string, a: string, l: string)
    requires views == ViewsOf(Typed(rs))
    ensures l in Labels(views, t, a) <==>
              l != "" && exists i :: i in AskedAt(rs, t, a) && Label(rs[i].provenance[a]) == l
  {
    if l in Labels(views, t, a) {
      var v :| v in views && v.typ == t && a in v.prov && Label(v.prov[a]) == l;
      var i: nat :| i < |views| && views[i] == v;
      assert i in AskedAt(rs, t, a);
    }
    if i :| l != "" && i in AskedAt(rs, t, a) && Label(rs[i].provenance[a]) == l {
      assert views[i] in views && views[i].prov[a] == rs[i].provenance[a];
    }
  }

  /** An attribute a control asks for on a type, the empty name standing for its main one, that the
      index knows there. */
  ghost predicate Known(t: Tables, idx: Index, c: string, typ: string, a: string, o: AttrOrigin) {
    && typ in Needs(t, c) && a in Needs(t, c)[typ]
    && var concrete := if typ == "" then (if c in t.primary then t.primary[c] else "") else typ;
       concrete in idx && a in idx[concrete] && idx[concrete][a] == o
  }

  lemma {:induction false} AttestedOnMembers(idx: Index, t: string, attrs: seq<string>, a: string, o: AttrOrigin)
    ensures (a, o) in AttestedOn(idx, t, attrs) <==> a in attrs && t in idx && a in idx[t] && idx[t][a] == o
  {
    if attrs != [] {
      AttestedOnMembers(idx, t, attrs[1..], a, o);
      assert attrs == [attrs[0]] + attrs[1..];
    }
  }

  lemma AttestedAsMembers(t: Tables, idx: Index, c: string, typ: string, a: string, o: AttrOrigin)
    requires typ in Needs(t, c)
    ensures (a, o) in AttestedAs(t, idx, c, typ) <==> Known(t, idx, c, typ, a, o)
  {
    var attrs := Needs(t, c)[typ];
    assert GetOr(t.Required(c), typ, []) == attrs;
    AttestedOnMembers(idx, ConcreteType(t, c, typ), SortStrings(attrs), a, o);
    SortedElements(attrs);
    assert a in attrs <==> a in Elements(attrs);
    assert a in SortStrings(attrs) <==> a in Elements(SortStrings(attrs));
  }

  lemma {:induction false} AttestedForMembers(t: Tables, idx: Index, c: string, types: seq<string>, a: string,
                                              o: AttrOrigin)
    requires forall typ :: typ in types ==> typ in Needs(t, c)
    ensures (a, o) in AttestedFor(t, idx, c, types) <==> exists typ :: typ in types && Known(t, idx, c, typ, a, o)
  {
    if types != [] {
      var front, last := types[..|types| - 1], types[|types| - 1];
      assert types == front + [last];
      AttestedForMembers(t, idx, c, front, a, o);
      AttestedAsMembers(t, idx, c, last, a, o);
    }
  }

  lemma OriginsMembers(t: Tables, idx: Index, c: string, a: string, o: AttrOrigin)
    ensures (a, o) in Passes.Origins(t, idx, c) <==> exists typ :: Known(t, idx, c, typ, a, o)
  {
    var types := Ordered(Needs(t, c).Keys);
    assert t.Required(c) == Needs(t, c);
    assert forall typ :: typ in types <==> typ in Elements(types);
    AttestedForMembers(t, idx, c, types, a, o);
  }

  lemma {:induction false} NamesAt(pairs: seq<(string, AttrOrigin)>)
    ensures |Passes.Names(pairs)| == |pairs|
    ensures forall i :: 0 <= i < |pairs| ==> Passes.Names(pairs)[i] == pairs[i].0
  {
    if pairs != [] {
      NamesAt(pairs[1..]);
      forall i | 0 <= i < |pairs| ensures Passes.Names(pairs)[i] == pairs[i].0 {
        assert i > 0 ==> Passes.Names(pairs)[i] == Passes.Names(pairs[1..])[i - 1] && pairs[i] == pairs[1..][i - 1];
      }
    }
  }

  lemma OriginsExist(t: Tables, idx: Index, c: string)
    ensures Passes.Origins(t, idx, c) != [] <==> exists typ, a, o :: Known(t, idx, c, typ, a, o)
  {
    var origins := Passes.Origins(t, idx, c);
    if origins != [] {
      assert (origins[0].0, origins[0].1) in origins;
      OriginsMembers(t, idx, c, origins[0].0, origins[0].1);
    }
    if typ, a, o :| Known(t, idx, c, typ, a, o) {
      OriginsMembers(t, idx, c, a, o);
    }
  }

  ghost predicate ShowsOrigins(t: Tables, idx: Index, c: string, e: Evidence) {
    && (forall a, o :: (a, o) in e.origins <==> exists typ :: Known(t, idx, c, typ, a, o))
    && |e.attributes| == |e.origins|
    && forall i :: 0 <= i < |e.origins| ==> e.attributes[i] == e.origins[i].0
  }

  /** A verdict shows exactly the attributes its control asks for that the index knows, each with its
      origin, and nothing else of it moves; where none is known, nothing moves at all. */
  lemma ProvenanceShown(t: Tables, idx: Index, v: Verdict)
    ensures var w := Annotate(t, idx, v);
            && w.(evidence := v.evidence) == v && w.evidence.observed == v.evidence.observed
            && ((forall typ, a, o :: !Known(t, idx, v.control, typ, a, o)) ==> w == v)
            && ((exists typ, a, o :: Known(t, idx, v.control, typ, a, o)) ==>
                  ShowsOrigins(t, idx, v.control, w.evidence))
  {
    var origins := Passes.Origins(t, idx, v.control);
    OriginsExist(t, idx, v.control);
    if origins != [] {
      var e := Annotate(t, idx, v).evidence;
      forall a, o ensures (a, o) in e.origins <==> exists typ :: Known(t, idx, v.control, typ, a, o) {
        OriginsMembers(t, idx, v.control, a, o);
      }
      NamesAt(origins);
    }
  }

  // ----- Absences -----

  lemma {:induction false} UnsoughtOnMembers(idx: Index, t: string, attrs: seq<string>, a: string, typ: string)
    ensures (a, typ) in UnsoughtOn(idx, t, attrs) <==> typ == t && a in attrs && WasSought(idx, t) && a !in idx[t]
  {
    if attrs != [] {
      UnsoughtOnMembers(idx, t, attrs[1..], a, typ);
      assert attrs == [attrs[0]] + attrs[1..];
    }
  }

  lemma {:induction false} UnsoughtMembers(byType: map<string, seq<string>>, idx: Index, types: seq<string>, a: string,
                                           typ: string)
    requires forall t :: t in types ==> t in byType
    ensures (a, typ) in Unsought(byType, idx, types) <==>
              typ in types && typ in byType && a in byType[typ] && WasSought(idx, typ) && a !in idx[typ]
  {
    if types != [] {
      var front, last := types[..|types| - 1], types[|types| - 1];
      assert types == front + [last];
      UnsoughtMembers(byType, idx, front, a, typ);
      UnsoughtOnMembers(idx, last, SortStrings(byType[last]), a, typ);
      SortedElements(byType[last]);
      assert a in byType[last] <==> a in Elements(byType[last]);
      assert a in SortStrings(byType[last]) <==> a in Elements(SortStrings(byType[last]));
    }
  }

  lemma PairsSeen(byType: map<string, seq<string>>, rs: seq<Resource>, idx: Index)
    requires IsIndex(ViewsOf(Typed(rs)), idx)
    ensures forall a, typ :: (a, typ) in UnsoughtPairs(byType, idx) <==>
              typ in byType && a in byType[typ] && NeverAsked(rs, typ, a)
  {
    forall typ, a ensures WasSought(idx, typ) && a !in idx[typ] <==> NeverAsked(rs, typ, a) {
      NeverAskedSeen(rs, ViewsOf(Typed(rs)), idx, typ, a);
    }
    var types := Ordered(byType.Keys);
    assert forall typ :: typ in types <==> typ in Elements(types);
    forall a, typ ensures (a, typ) in UnsoughtPairs(byType, idx) <==>
                          typ in byType && a in byType[typ] && NeverAsked(rs, typ, a)
    {
      UnsoughtMembers(byType, idx, types, a, typ);
    }
  }

  /** A deviation that rests on an absence nobody looked for is withdrawn, and says exactly which
      fields of which types were never asked for; every other verdict is kept whole. */
  lemma AbsenceShown(t: Tables, rs: seq<Resource>, idx: Index, v: Verdict)
    requires IsIndex(ViewsOf(Typed(rs)), idx)
    ensures var w := Requalify(t, idx, v);
            if v.status == Fail && AbsenceUnfounded(t, rs, v.control) then
              && w.status == NotEvaluated && w.(status := v.status, evidence := v.evidence) == v
              && w.evidence.(observed := v.evidence.observed) == v.evidence && w.evidence.observed.NeverSought?
              && forall a, typ :: (a, typ) in w.evidence.observed.pairs <==>
                   typ in t.absence[v.control] && a in t.absence[v.control][typ] && NeverAsked(rs, typ, a)
            else w == v
  {
    if v.control in t.absence {
      PairsSeen(t.absence[v.control], rs, idx);
      UnsoughtExactly(t.absence[v.control], idx);
      forall typ, a ensures WasSought(idx, typ) && a !in idx[typ] <==> NeverAsked(rs, typ, a) {
        NeverAskedSeen(rs, ViewsOf(Typed(rs)), idx, typ, a);
      }
    }
  }

  // ----- Incomplete collection -----

  /** A control that depends on what was not read loses its pass, and a verdict of it that is not
      evaluated says so: it names a unit that was attempted and not read whole, and the right it
      would take to read it. Nothing else moves. */
  lemma IncompletenessShown(degraded: map<string, Unit>, grants: map<string, string>, v: Verdict)
    ensures var w := DegradeOne(degraded, grants, v);
            if v.control in degraded && (v.status == Pass || v.status == NotEvaluated) then
              var unit := degraded[v.control];
              && w.status == NotEvaluated && w.(status := v.status, evidence := v.evidence) == v
              && w.evidence == v.evidence.(observed := IncompleteCollection(unit, if unit.name in grants
                                                                                  then grants[unit.name] else ""))
            else w == v
  {
  }

  /** The unit a degraded control is charged to should have fed a type it reads. */
  lemma ChargedUnit(t: Tables, units: seq<Unit>, scope: set<string>, tagged: seq<string>, c: string)
    requires c in Degraded(t, IncompleteMap(units), scope, tagged)
    ensures var unit := Degraded(t, IncompleteMap(units), scope, tagged)[c];
            && c in scope && unit in units && unit.attempted && !unit.complete
            && exists typ :: typ in unit.types && if c == "governance_resource_required_tags" then typ in tagged
                                                  else Reads(t, c, typ)
  {
    var types := TypesRead(t, c, tagged);
    var typ :| typ in types && typ in IncompleteMap(units)
               && FirstUnread(types, IncompleteMap(units)).value == IncompleteMap(units)[typ];
    TypesDeclared(t, c, typ);
  }

  // ----- Relaxed configuration -----

  /** A verdict of a relaxed control loses its references, and says so in its labels and in its
      evidence; its status and the rest are kept, and so is every other verdict. */
  lemma RelaxationShown(relax: map<string, seq<string>>, v: Verdict)
    ensures var w := RelaxOne(relax, v);
            if v.control in relax && relax[v.control] != [] then
              && w.references == [] && w.evidence == v.evidence.(observed := UnderRelaxation(v.evidence.observed,
                                                                                             relax[v.control]))
              && w.(references := v.references, labels := v.labels, evidence := v.evidence) == v
              && w.labels.Keys == v.labels.Keys + {"config_relaxed", "config_relaxed_detail"}
                                  + (if v.references == [] then {} else {"references_dropped"})
              && w.labels["config_relaxed"] == "true"
              && w.labels["config_relaxed_detail"] == Join(relax[v.control], " · ")
              && (v.references != [] ==>
                    w.labels["references_dropped"] == Join(SortStrings(ReferenceNames(v.references)), ", "))
              && forall l :: l in v.labels && l !in {"config_relaxed", "config_relaxed_detail", "references_dropped"}
                             ==> w.labels[l] == v.labels[l]
            else w == v
  {
    assert |LABEL_RELAXED| == 14 && |LABEL_RELAXED_DETAIL| == 21 && |LABEL_REFERENCES_DROPPED| == 18;
  }

  /** Parts are joined one after the other. */
  lemma {:induction false} JoinedParts(parts: seq<string>, last: string, sep: string)
    ensures Join([], sep) == "" && Join([last], sep) == last
    ensures parts != [] ==> Join(parts + [last], sep) == Join(parts, sep) + sep + last
  {
    if |parts| > 1 {
      JoinedParts(parts[1..], last, sep);
      assert (parts + [last])[1..] == parts[1..] + [last];
      assert Join(parts + [last], sep) == parts[0] + sep + (Join(parts[1..], sep) + sep + last);
      assert Join(parts, sep) == parts[0] + sep + Join(parts[1..], sep);
      assert parts[0] + sep + (Join(parts[1..], sep) + sep + last) ==
             parts[0] + sep + Join(parts[1..], sep) + sep + last;
    } else if |parts| == 1 {
      assert (parts + [last])[1..] == [last];
    }
  }
}
