/** The declarative projection of a raw document into attributes
    (internal/collect/engine.go): path lookup, presence, and attestation. */
module Projection {
  import opened Wrappers
  import opened Text
  import opened Json
  import opened Model

  // ----- What a path designates -----

  /** One step of a path: a key of an object, or an index of an array. */
  function Step(v: Json, key: string): Option<Json> {
    match v
    case Obj(fields) => if key in fields then Some(fields[key]) else None
    case Arr(items) =>
      var i := Atoi(key);
      if i.None? || i.value < 0 || i.value >= |items| then None else Some(items[i.value])
    case _ => None
  }

  /** The node a list of keys designates, if the document has it. */
  function Node(v: Json, keys: seq<string>): Option<Json> {
    if keys == [] then Some(v)
    else
      match Step(v, keys[0])
      case None => None
      case Some(next) => Node(next, keys[1..])
  }

  function KeysOf(path: string): seq<string> {
    if path == "" then [] else Split(path, ".")
  }

  function Designated(v: Json, path: string): Option<Json> {
    Node(v, KeysOf(path))
  }

  function OrNull(v: Option<Json>): Json {
    if v.Some? then v.value else Null
  }

  method Lookup(v: Json, path: string) returns (r: Json)
    ensures r == OrNull(Designated(v, path))
  {
    r := v;
    if path == "" {
      return;
    }
    var keys := Split(path, ".");
    var i := 0;
    while i < |keys|
      invariant 0 <= i <= |keys|
      invariant OrNull(Node(v, keys)) == OrNull(Node(r, keys[i..]))
    {
      assert keys[i..][1..] == keys[i + 1..];
      match r {
        case Obj(fields) => r := if keys[i] in fields then fields[keys[i]] else Null;
        case Arr(items) =>
          var n := Atoi(keys[i]);
          if n.None? || n.value < 0 || n.value >= |items| {
            return Null;
          }
          r := items[n.value];
        case _ => return Null;
      }
      i := i + 1;
    }
  }

  /** Presence of the last key, whatever its value. The empty path is present when the
      document itself is not null. */
  ghost predicate Present(v: Json, path: string) {
    if path == "" then v != Null else Designated(v, path).Some?
  }

  method PathExists(v: Json, path: string) returns (r: bool)
    ensures r == Present(v, path)
  {
    if path == "" {
      return v != Null;
    }
    var keys := Split(path, ".");
    var cur := v;
    var i := 0;
    while i < |keys|
      invariant 0 <= i <= |keys|
      invariant Node(v, keys).Some? == Node(cur, keys[i..]).Some?
    {
      assert keys[i..][1..] == keys[i + 1..];
      match cur {
        case Obj(fields) =>
          if keys[i] !in fields {
            return false;
          }
          if i == |keys| - 1 {
            return true;
          }
          cur := fields[keys[i]];
        case Arr(items) =>
          var n := Atoi(keys[i]);
          if n.None? || n.value < 0 || n.value >= |items| {
            return false;
          }
          if i == |keys| - 1 {
            return true;
          }
          cur := items[n.value];
        case _ => return false;
      }
      i := i + 1;
    }
    return true;
  }

  /** Presence and value agree: what is read is there, and what is there but reads as
      nothing is a null somebody wrote. */
  lemma ReadIsPresent(v: Json, path: string)
    ensures OrNull(Designated(v, path)) != Null ==> Present(v, path)
    ensures Present(v, path) && OrNull(Designated(v, path)) == Null ==> Designated(v, path) == Some(Null)
  {
  }

  // ----- Alternatives: "a||b" -----

  function Alternatives(path: string): seq<string> {
    if Contains(path, "||") then TrimAll(Split(path, "||")) else [path]
  }

  function TrimAll(parts: seq<string>): (r: seq<string>)
    ensures |r| == |parts| && forall i :: 0 <= i < |r| ==> r[i] == TrimSpace(parts[i])
  {
    if parts == [] then [] else [TrimSpace(parts[0])] + TrimAll(parts[1..])
  }

  /** The first alternative that reads as something. */
  function FirstRead(v: Json, alternatives: seq<string>): Json {
    if alternatives == [] then Null
    else
      var r := OrNull(Designated(v, alternatives[0]));
      if r != Null then r else FirstRead(v, alternatives[1..])
  }

  function Coalesced(v: Json, path: string): Json {
    FirstRead(v, Alternatives(path))
  }

  ghost predicate SomePresent(v: Json, alternatives: seq<string>) {
    alternatives != [] && (Present(v, alternatives[0]) || SomePresent(v, alternatives[1..]))
  }

  ghost predicate AnyPresent(v: Json, path: string) {
    SomePresent(v, Alternatives(path))
  }

  lemma {:induction false} SomePresentAt(v: Json, alternatives: seq<string>, i: nat)
    requires i < |alternatives| && Present(v, alternatives[i])
    ensures SomePresent(v, alternatives)
  {
    if i > 0 {
      SomePresentAt(v, alternatives[1..], i - 1);
    }
  }

  method LookupCoalesce(v: Json, path: string) returns (r: Json)
    ensures r == Coalesced(v, path)
  {
    if !Contains(path, "||") {
      r := Lookup(v, path);
      assert Alternatives(path) == [path] && [path][1..] == [];
      assert FirstRead(v, [path]) == r;
      return;
    }
    ghost var alternatives := Alternatives(path);
    var parts := Split(path, "||");
    for i := 0 to |parts|
      invariant FirstRead(v, alternatives) == FirstRead(v, alternatives[i..])
    {
      assert alternatives[i..][1..] == alternatives[i + 1..];
      r := Lookup(v, TrimSpace(parts[i]));
      if r != Null {
        return;
      }
    }
    return Null;
  }

  method SourcePresent(v: Json, path: string) returns (r: bool)
    ensures r == AnyPresent(v, path)
  {
    ghost var alternatives := Alternatives(path);
    if !Contains(path, "||") {
      r := PathExists(v, path);
      assert alternatives == [path] && [path][1..] == [];
      assert !SomePresent(v, []);
      return;
    }
    var parts := Split(path, "||");
    for i := 0 to |parts|
      invariant SomePresent(v, alternatives) == SomePresent(v, alternatives[i..])
    {
      assert alternatives[i..][1..] == alternatives[i + 1..];
      r := PathExists(v, TrimSpace(parts[i]));
      if r {
        return;
      }
    }
    return false;
  }

  /** Alternative i is the first that holds a value, and that value is the one read. */
  ghost predicate FirstReadAt(v: Json, alternatives: seq<string>, i: int) {
    && 0 <= i < |alternatives|
    && Designated(v, alternatives[i]) == Some(FirstRead(v, alternatives))
    && (forall k :: 0 <= k < i ==> OrNull(Designated(v, alternatives[k])) == Null)
  }

  lemma {:induction false} FirstReadIsDesignated(v: Json, alternatives: seq<string>)
    requires FirstRead(v, alternatives) != Null
    ensures exists i :: FirstReadAt(v, alternatives, i)
  {
    if OrNull(Designated(v, alternatives[0])) == Null {
      FirstReadIsDesignated(v, alternatives[1..]);
      var i :| FirstReadAt(v, alternatives[1..], i);
      assert alternatives[i + 1] == alternatives[1..][i];
      forall k | 0 <= k < i + 1 ensures OrNull(Designated(v, alternatives[k])) == Null {
        if k > 0 {
          assert alternatives[k] == alternatives[1..][k - 1];
        }
      }
      assert FirstReadAt(v, alternatives, i + 1);
    } else {
      assert FirstReadAt(v, alternatives, 0);
    }
  }

  /** A coalesced value is the node of the first alternative that holds one, so at least
      one alternative exists in the source. */
  lemma CoalescedIsPresent(v: Json, path: string)
    requires Coalesced(v, path) != Null
    ensures AnyPresent(v, path)
  {
    FirstReadIsDesignated(v, Alternatives(path));
    var i :| FirstReadAt(v, Alternatives(path), i);
    ReadIsPresent(v, Alternatives(path)[i]);
    SomePresentAt(v, Alternatives(path), i);
  }

  // ----- The projection -----

  /** What produced a batch of items. Unattested disables attestation. */
  datatype Source = Unattested | Source(origin: Origin, ref: string)

  /** A named transform: the new value, and whether it was computed. */
  type Transform = Json -> (Json, bool)

  /** The value projected for one attribute (null: nothing is projected), and whether it
      was computed rather than copied. */
  ghost function Projected(item: Json, path: string, t: Option<Transform>): (Json, bool) {
    var v := Coalesced(item, path);
    if t.None? then (v, false)
    else if v == Null && !AnyPresent(item, path) then (Null, false)
    else t.value(v)
  }

  function TransformOf(transforms: map<string, Transform>, attr: string): Option<Transform> {
    if attr in transforms then Some(transforms[attr]) else None
  }

  ghost function ProjectedAttributes(item: Json, mapping: map<string, string>,
                                     transforms: map<string, Transform>): map<string, Json> {
    map a | a in mapping && Projected(item, mapping[a], TransformOf(transforms, a)).0 != Null
      :: Projected(item, mapping[a], TransformOf(transforms, a)).0
  }

  ghost function Attested(item: Json, path: string, t: Option<Transform>, src: Source): Attestation
    requires src.Source?
  {
    var p := Projected(item, path, t);
    Attestation(src.origin, src.ref, path, AnyPresent(item, path), p.0 != Null && p.1)
  }

  ghost function AttestedProvenance(item: Json, mapping: map<string, string>, transforms: map<string, Transform>,
                                    src: Source): Provenance {
    if src.Unattested? then map[]
    else map a | a in mapping :: Attested(item, mapping[a], TransformOf(transforms, a), src)
  }

  /** The body of the projection loop: a transform runs only on something the source
      carries, so that it cannot make an empty collection out of an absent key. */
  method ReadAttribute(item: Json, path: string, t: Option<Transform>) returns (v: Json, present: bool, derived: bool)
    ensures v == Projected(item, path, t).0
    ensures present == AnyPresent(item, path)
    ensures derived == (v != Null && Projected(item, path, t).1)
  {
    v := LookupCoalesce(item, path);
    present := SourcePresent(item, path);
    derived := false;
    if t.Some? {
      if v == Null && !present {
        return;
      }
      var out := t.value(v);
      v, derived := out.0, out.1;
    }
    if v == Null {
      derived := false;
    }
  }

  /** Outside todo, attrs says of every attribute what the projection says. */
  ghost predicate AttributesDone(item: Json, mapping: map<string, string>, transforms: map<string, Transform>,
                                 todo: set<string>, attrs: map<string, Json>)
  {
    && (forall a :: a in attrs ==> a in mapping && a !in todo)
    && (forall a :: a in mapping && a !in todo ==>
          var v := Projected(item, mapping[a], TransformOf(transforms, a)).0;
          (a in attrs <==> v != Null) && (a in attrs ==> attrs[a] == v))
  }

  lemma AttributesStep(item: Json, mapping: map<string, string>, transforms: map<string, Transform>, todo: set<string>,
                       attrs: map<string, Json>, a: string)
    requires AttributesDone(item, mapping, transforms, todo, attrs) && a in todo && a in mapping
    ensures var v := Projected(item, mapping[a], TransformOf(transforms, a)).0;
            AttributesDone(item, mapping, transforms, todo - {a}, if v == Null then attrs else attrs[a := v])
  {
  }

  lemma AttributesAll(item: Json, mapping: map<string, string>, transforms: map<string, Transform>,
                      attrs: map<string, Json>)
    requires AttributesDone(item, mapping, transforms, {}, attrs)
    ensures attrs == ProjectedAttributes(item, mapping, transforms)
  {
    var all := ProjectedAttributes(item, mapping, transforms);
    forall a ensures a in attrs <==> a in all {
    }
    forall a | a in attrs ensures attrs[a] == all[a] {
    }
    MapsAgree(attrs, all);
  }

  /** Outside todo, prov attests every attribute of the mapping. */
  ghost predicate ProvenanceDone(item: Json, mapping: map<string, string>, transforms: map<string, Transform>,
                                 src: Source, todo: set<string>, prov: Provenance)
    requires src.Source?
  {
    && (forall a :: a in prov <==> a in mapping && a !in todo)
    && (forall a :: a in prov ==> prov[a] == Attested(item, mapping[a], TransformOf(transforms, a), src))
  }

  lemma ProvenanceStep(item: Json, mapping: map<string, string>, transforms: map<string, Transform>, src: Source,
                       todo: set<string>, prov: Provenance, a: string)
    requires src.Source? && ProvenanceDone(item, mapping, transforms, src, todo, prov) && a in todo && a in mapping
    ensures ProvenanceDone(item, mapping, transforms, src, todo - {a},
                           prov[a := Attested(item, mapping[a], TransformOf(transforms, a), src)])
  {
  }

  lemma ProvenanceAll(item: Json, mapping: map<string, string>, transforms: map<string, Transform>, src: Source,
                      prov: Provenance)
    requires src.Source? && ProvenanceDone(item, mapping, transforms, src, {}, prov)
    ensures prov == AttestedProvenance(item, mapping, transforms, src)
  {
  }

  method ProjectAttested(item: Json, mapping: map<string, string>, transforms: map<string, Transform>, src: Source)
    returns (attrs: map<string, Json>, prov: Provenance)
    ensures attrs == ProjectedAttributes(item, mapping, transforms)
    ensures prov == AttestedProvenance(item, mapping, transforms, src)
  {
    attrs, prov := map[], map[];
    var todo := mapping.Keys;
    while todo != {}
      invariant todo <= mapping.Keys
      invariant AttributesDone(item, mapping, transforms, todo, attrs)
      invariant if src.Source? then ProvenanceDone(item, mapping, transforms, src, todo, prov) else prov == map[]
      decreases todo
    {
      var attr :| attr in todo;
      var path := mapping[attr];
      var v, present, derived := ReadAttribute(item, path, TransformOf(transforms, attr));
      AttributesStep(item, mapping, transforms, todo, attrs, attr);
      if src.Source? {
        ProvenanceStep(item, mapping, transforms, src, todo, prov, attr);
        prov := prov[attr := Attestation(src.origin, src.ref, path, present, derived)];
      }
      if v != Null {
        attrs := attrs[attr := v];
      }
      todo := todo - {attr};
    }
    AttributesAll(item, mapping, transforms, attrs);
    if src.Source? {
      ProvenanceAll(item, mapping, transforms, src, prov);
    }
  }

  /** No value is fabricated: a projected attribute is not null and its source carried one
      of the paths it was read at; the provenance says for every attribute of the mapping
      that it was sought, and for nothing else. */
  lemma NoFabricatedValue(item: Json, mapping: map<string, string>, transforms: map<string, Transform>, src: Source)
    requires src.Source?
    ensures var attrs := ProjectedAttributes(item, mapping, transforms);
            var prov := AttestedProvenance(item, mapping, transforms, src);
            && prov.Keys == mapping.Keys
            && (forall a :: a in attrs ==> a in mapping && attrs[a] != Null && prov[a].observed)
            && (forall a :: a in mapping && !prov[a].observed ==> a !in attrs)
            && (forall a :: a in mapping && a !in attrs && a !in transforms ==> Coalesced(item, mapping[a]) == Null)
  {
    forall a | a in mapping && Coalesced(item, mapping[a]) != Null
      ensures AnyPresent(item, mapping[a])
    {
      CoalescedIsPresent(item, mapping[a]);
    }
  }

  /** An attribute read without a transform is the very node of the source, under the
      first of its alternatives that holds a value. */
  lemma CopiedFromSource(item: Json, mapping: map<string, string>, transforms: map<string, Transform>, a: string)
    requires a in ProjectedAttributes(item, mapping, transforms) && a !in transforms
    ensures ProjectedAttributes(item, mapping, transforms)[a] == Coalesced(item, mapping[a])
    ensures exists i :: FirstReadAt(item, Alternatives(mapping[a]), i)
  {
    FirstReadIsDesignated(item, Alternatives(mapping[a]));
  }
}
