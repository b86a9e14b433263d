/** The evaluated inventory, in the two forms a scan handles: typed resources, and the
    JSON document a sealed bundle is reloaded from (cmd/scan.go). */
module Inventory {
  import opened Wrappers
  import opened Json
  import opened Model

  datatype Inventory =
    | Typed(resources: seq<Resource>)
    | Reloaded(items: seq<Json>)
    | Unknown

  /** What the assessment reads of a resource. sought: the names of its provenance. */
  datatype View = View(typ: string, id: string, name: string, region: string,
                       attrs: map<string, Json>, sought: set<string>, prov: Provenance)

  function ViewOfResource(r: Resource): View {
    View(r.typ, r.id, r.name, r.region, r.attributes, r.provenance.Keys, r.provenance)
  }

  function AttestationFromJson(fields: map<string, Json>): Attestation {
    Attestation(AsString(Field(fields, "origin")), AsString(Field(fields, "source")), AsString(Field(fields, "path")),
                AsBool(Field(fields, "observed")), AsBool(Field(fields, "derived")))
  }

  /** Malformed entries are skipped: the document may come from a third party. */
  function ProvenanceFromJson(raw: map<string, Json>): Provenance {
    map a | a in raw && raw[a].Obj? :: AttestationFromJson(raw[a].fields)
  }

  function ViewOfJson(fields: map<string, Json>): View {
    var raw := AsObject(Field(fields, "provenance"));
    View(AsString(Field(fields, "type")), AsString(Field(fields, "id")), AsString(Field(fields, "name")),
         AsString(Field(fields, "region")), AsObject(Field(fields, "attributes")), raw.Keys, ProvenanceFromJson(raw))
  }

  function ViewsOfJson(items: seq<Json>): seq<View> {
    if items == [] then []
    else (if items[0].Obj? then [ViewOfJson(items[0].fields)] else []) + ViewsOfJson(items[1..])
  }

  function ViewsOf(inv: Inventory): seq<View> {
    match inv
    case Typed(rs) => seq(|rs|, i requires 0 <= i < |rs| => ViewOfResource(rs[i]))
    case Reloaded(items) => ViewsOfJson(items)
    case Unknown => []
  }

  // ----- Sealing and reloading -----

  function Optional(name: string, v: Json, present: bool): map<string, Json> {
    if present then map[name := v] else map[]
  }

  function EncodeAttestation(a: Attestation): Json {
    Obj(map["origin" := Str(a.origin), "observed" := Bool(a.observed)]
        + Optional("source", Str(a.source), a.source != "")
        + Optional("path", Str(a.path), a.path != "")
        + Optional("derived", Bool(a.derived), a.derived))
  }

  function EncodeProvenance(p: Provenance): map<string, Json> {
    map a | a in p :: EncodeAttestation(p[a])
  }

  function MandatoryFields(r: Resource): map<string, Json> {
    map["provider" := Str(r.provider), "type" := Str(r.typ), "id" := Str(r.id), "name" := Str(r.name),
        "attributes" := Obj(r.attributes)]
  }

  function EncodeResource(r: Resource): Json {
    Obj(MandatoryFields(r)
        + Optional("region", Str(r.region), r.region != "")
        + Optional("provenance", Obj(EncodeProvenance(r.provenance)), r.provenance != map[]))
  }

  function Encode(rs: seq<Resource>): (out: seq<Json>)
    ensures |out| == |rs| && forall i :: 0 <= i < |rs| ==> out[i] == EncodeResource(rs[i])
  {
    seq(|rs|, i requires 0 <= i < |rs| => EncodeResource(rs[i]))
  }

  lemma AttestationReloads(a: Attestation)
    ensures EncodeAttestation(a).Obj? && AttestationFromJson(EncodeAttestation(a).fields) == a
  {
  }

  lemma ProvenanceReloads(p: Provenance)
    ensures ProvenanceFromJson(EncodeProvenance(p)) == p
    ensures EncodeProvenance(p).Keys == p.Keys
  {
    var q := ProvenanceFromJson(EncodeProvenance(p));
    forall a | a in p ensures a in q && q[a] == p[a] {
      AttestationReloads(p[a]);
    }
    MapsAgree(q, p);
  }

  lemma OptionalField(m: map<string, Json>, name: string, v: Json, present: bool, k: string)
    ensures Field(m + Optional(name, v, present), k) == if k == name && present then v else Field(m, k)
  {
  }

  lemma MandatoryField(r: Resource)
    ensures var m := MandatoryFields(r);
            Field(m, "type") == Str(r.typ) && Field(m, "id") == Str(r.id) && Field(m, "name") == Str(r.name)
            && Field(m, "attributes") == Obj(r.attributes) && Field(m, "region") == Null
               && Field(m, "provenance") == Null
  {
  }

  lemma FieldReloads(r: Resource, k: string)
    ensures Field(EncodeResource(r).fields, k) ==
            if k == "provenance" && r.provenance != map[] then Obj(EncodeProvenance(r.provenance))
            else if k == "region" && r.region != "" then Str(r.region)
            else Field(MandatoryFields(r), k)
  {
    var m := MandatoryFields(r) + Optional("region", Str(r.region), r.region != "");
    OptionalField(MandatoryFields(r), "region", Str(r.region), r.region != "", k);
    OptionalField(m, "provenance", Obj(EncodeProvenance(r.provenance)), r.provenance != map[], k);
  }

  lemma ResourceReloads(r: Resource)
    ensures ViewOfJson(EncodeResource(r).fields) == ViewOfResource(r)
  {
    var fields := EncodeResource(r).fields;
    ProvenanceReloads(r.provenance);
    MandatoryField(r);
    FieldReloads(r, "type");
    FieldReloads(r, "id");
    FieldReloads(r, "name");
    FieldReloads(r, "region");
    FieldReloads(r, "attributes");
    FieldReloads(r, "provenance");
    assert AsObject(Field(fields, "provenance")) == EncodeProvenance(r.provenance);
  }

  /** A reloaded inventory shows the assessment exactly what the typed one did. */
  lemma {:induction false} ReloadShowsTheSame(rs: seq<Resource>)
    ensures ViewsOf(Reloaded(Encode(rs))) == ViewsOf(Typed(rs))
  {
    if rs != [] {
      ReloadShowsTheSame(rs[1..]);
      assert Encode(rs)[1..] == Encode(rs[1..]);
      OneMoreReloaded(rs[0], Encode(rs[1..]), Encode(rs));
      TypedStep(rs);
    }
  }

  lemma TypedStep(rs: seq<Resource>)
    requires rs != []
    ensures ViewsOf(Typed(rs)) == [ViewOfResource(rs[0])] + ViewsOf(Typed(rs[1..]))
  {
  }

  lemma OneMoreReloaded(r: Resource, rest: seq<Json>, items: seq<Json>)
    requires items == [EncodeResource(r)] + rest
    ensures ViewsOfJson(items) == [ViewOfResource(r)] + ViewsOfJson(rest)
  {
    ResourceReloads(r);
    assert items[1..] == rest;
  }

  // ----- The types present -----

  ghost function TypesOf(views: seq<View>): set<string> {
    set v | v in views && v.typ != "" :: v.typ
  }

  method ResourceTypesOf(inv: Inventory) returns (out: set<string>)
    ensures out == TypesOf(ViewsOf(inv))
  {
    var views := ViewsOf(inv);
    out := {};
    for i := 0 to |views|
      invariant out == TypesOf(views[..i])
    {
      assert views[..i + 1] == views[..i] + [views[i]];
      if views[i].typ != "" {
        out := out + {views[i].typ};
      }
    }
    assert views[..|views|] == views;
  }

  /** The names a person can give a resource by: its id and its name. */
  function NamesOf(v: View): set<string> {
    (if v.id != "" then {v.id} else {}) + (if v.name != "" then {v.name} else {})
  }

  ghost function NamedBy(views: seq<View>): set<string> {
    set v, n | v in views && n in NamesOf(v) :: n
  }

  /** The subjects an inventory can be said to have; the target is one when it is known. */
  ghost function SubjectsOf(views: seq<View>, target: string): set<string> {
    NamedBy(views) + if target != "" then {target} else {}
  }

  lemma NamedStep(views: seq<View>, v: View)
    ensures NamedBy(views + [v]) == NamedBy(views) + NamesOf(v)
  {
  }

  method SubjectsNamed(inv: Inventory, target: string) returns (out: set<string>)
    ensures out == SubjectsOf(ViewsOf(inv), target)
  {
    var views := ViewsOf(inv);
    out := {};
    for i := 0 to |views|
      invariant out == NamedBy(views[..i])
    {
      NamedStep(views[..i], views[i]);
      assert views[..i + 1] == views[..i] + [views[i]];
      out := out + NamesOf(views[i]);
    }
    assert views[..|views|] == views;
    if target != "" {
      out := out + {target};
    }
  }

  // ----- The attributes collected -----

  /** The value of attribute k arrived. The region of a resource counts as one. */
  predicate Exposes(v: View, k: string) {
    (k in v.attrs && v.attrs[k] != Null) || (k == "region" && v.region != "")
  }

  /** The resource says something about k: its value, or that it was sought and is not there. */
  predicate Vouches(v: View, k: string) {
    Exposes(v, k) || (k in v.sought && k !in v.attrs)
  }

  /** Attribute k counts as collected for type t: some resource of the type exposes it and
      every resource of the type vouches for it. */
  ghost predicate Counts(views: seq<View>, t: string, k: string) {
    && (exists v :: v in views && v.typ == t && Exposes(v, k))
    && (forall v :: v in views && v.typ == t ==> Vouches(v, k))
  }

  ghost predicate IsAttrsByType(views: seq<View>, m: map<string, set<string>>) {
    && m.Keys == TypesOf(views)
    && forall t, k :: t in m ==> (k in m[t] <==> Counts(views, t, k))
  }

  lemma AttrsByTypeUnique(views: seq<View>, m: map<string, set<string>>, n: map<string, set<string>>)
    requires IsAttrsByType(views, m) && IsAttrsByType(views, n)
    ensures m == n
  {
    forall t | t in m ensures m[t] == n[t] {
      assert forall k :: k in m[t] <==> k in n[t];
    }
  }

  ghost function AttributeNames(views: seq<View>): set<string> {
    (set v, k | v in views && k in v.attrs :: k) + {"region"}
  }

  /** The collected attributes of each type present. */
  ghost function AttrsByType(views: seq<View>): (m: map<string, set<string>>)
    ensures IsAttrsByType(views, m)
  {
    map t | t in TypesOf(views) :: set k | k in AttributeNames(views) && Counts(views, t, k)
  }

  function ExposedBy(v: View): set<string> {
    (set k | k in v.attrs && v.attrs[k] != Null) + if v.region != "" then {"region"} else {}
  }

  function OfType(views: seq<View>, t: string): seq<View> {
    if views == [] then []
    else (if views[0].typ == t then [views[0]] else []) + OfType(views[1..], t)
  }

  lemma {:induction false} OfTypeMembers(views: seq<View>, t: string)
    ensures forall v :: v in OfType(views, t) <==> v in views && v.typ == t
  {
    if views != [] {
      OfTypeMembers(views[1..], t);
      assert views == [views[0]] + views[1..];
    }
  }

  lemma NoneOfType(views: seq<View>, t: string)
    requires t != "" && t !in TypesOf(views)
    ensures OfType(views, t) == []
  {
  }

  lemma TypesAppend(views: seq<View>, v: View)
    ensures TypesOf(views + [v]) == TypesOf(views) + if v.typ != "" then {v.typ} else {}
  {
  }

  lemma {:induction false} OfTypeAppend(views: seq<View>, v: View, t: string)
    ensures OfType(views + [v], t) == OfType(views, t) + if v.typ == t then [v] else []
  {
    if views == [] {
      assert (views + [v])[1..] == [];
    } else {
      assert (views + [v])[1..] == views[1..] + [v];
      OfTypeAppend(views[1..], v, t);
      ConcatAssociative(if views[0].typ == t then [views[0]] else [], OfType(views[1..], t),
                        if v.typ == t then [v] else []);
    }
  }

  ghost predicate IsGrouping(views: seq<View>, m: map<string, seq<View>>) {
    && (forall t :: t in m <==> t in TypesOf(views))
    && (forall t :: t in m ==> m[t] == OfType(views, t))
  }

  lemma GroupStep(views: seq<View>, v: View, m: map<string, seq<View>>)
    requires IsGrouping(views, m)
    ensures v.typ == "" ==> IsGrouping(views + [v], m)
    ensures v.typ != "" ==> IsGrouping(views + [v], m[v.typ := GetOr(m, v.typ, []) + [v]])
  {
    var n := if v.typ == "" then m else m[v.typ := GetOr(m, v.typ, []) + [v]];
    TypesAppend(views, v);
    if v.typ != "" && v.typ !in m {
      NoneOfType(views, v.typ);
    }
    forall t | t in n ensures n[t] == OfType(views + [v], t) {
      OfTypeAppend(views, v, t);
    }
  }

  /** The resources, grouped by type. */
  method GroupByType(views: seq<View>) returns (perType: map<string, seq<View>>)
    ensures IsGrouping(views, perType)
  {
    perType := map[];
    for i := 0 to |views|
      invariant IsGrouping(views[..i], perType)
    {
      var v := views[i];
      GroupStep(views[..i], v, perType);
      assert views[..i + 1] == views[..i] + [v];
      if v.typ != "" {
        perType := perType[v.typ := GetOr(perType, v.typ, []) + [v]];
      }
    }
    assert views[..|views|] == views;
  }

  /** The intersection over the resources of one type: what every one of them exposes, or
      was sought on it in vain, provided one of them exposes it. */
  method Intersect(rs: seq<View>) returns (inter: set<string>)
    requires rs != []
    ensures forall k :: k in inter <==> (exists v :: v in rs && Exposes(v, k)) && forall v :: v in rs ==> Vouches(v, k)
  {
    var exposed: set<string> := {};
    for i := 0 to |rs|
      invariant forall k :: k in exposed <==> exists j :: 0 <= j < i && Exposes(rs[j], k)
    {
      exposed := exposed + ExposedBy(rs[i]);
    }
    inter := {};
    for i := 0 to |rs|
      invariant i > 0 ==> forall k :: k in inter <==> k in exposed && forall j :: 0 <= j < i ==> Vouches(rs[j], k)
    {
      var r := rs[i];
      var present := ExposedBy(r) + set k | k in r.sought && k !in r.attrs && k in exposed;
      assert forall k :: k in present <==> Vouches(r, k) && k in exposed;
      inter := if i == 0 then present else set k | k in inter && k in present;
    }
  }

  method AttrsByTypeOf(inv: Inventory) returns (out: map<string, set<string>>)
    ensures IsAttrsByType(ViewsOf(inv), out)
  {
    var views := ViewsOf(inv);
    var perType := GroupByType(views);
    out := map[];
    var todo := perType.Keys;
    while todo != {}
      invariant todo <= perType.Keys
      invariant forall t :: t in out <==> t in perType && t !in todo
      invariant forall t, k :: t in out ==> (k in out[t] <==> Counts(views, t, k))
      decreases todo
    {
      var t :| t in todo;
      todo := todo - {t};
      OfTypeMembers(views, t);
      assert exists v :: v in views && v.typ == t;
      var inter := Intersect(perType[t]);
      assert forall k :: k in inter <==> Counts(views, t, k);
      out := out[t := inter];
    }
  }

  /** Only which resources are there matters, not their order nor their repetition. */
  lemma OrderDoesNotMatter(a: seq<View>, b: seq<View>, ma: map<string, set<string>>, mb: map<string, set<string>>)
    requires forall v :: v in a <==> v in b
    requires IsAttrsByType(a, ma) && IsAttrsByType(b, mb)
    ensures ma == mb
  {
    assert TypesOf(a) == TypesOf(b);
    forall t, k ensures Counts(a, t, k) <==> Counts(b, t, k) {
    }
    AttrsByTypeUnique(a, ma, mb);
  }

  /** What one more resource changes for its type: it must vouch, and it may be the one
      whose exposure unlocks an attribute the others were only searched for. */
  lemma OneMoreResource(views: seq<View>, v: View, k: string)
    ensures Counts(views + [v], v.typ, k) <==>
      && Vouches(v, k)
      && (forall w :: w in views && w.typ == v.typ ==> Vouches(w, k))
      && (Exposes(v, k) || exists w :: w in views && w.typ == v.typ && Exposes(w, k))
  {
  }
}
