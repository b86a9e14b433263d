/** The evidence bundle (internal/assess/bundle.go): writing one, and what verifying one
    establishes. The digest and the two document formats are parameters. */
module Bundle {
  import opened Wrappers
  import opened Assess
  import opened Checksums
  import opened Sealing

  const INPUT := "input.json"
  const ASSESSMENT := "assessment.json"
  const OSCAL := "assessment-oscal.json"
  const CONFIG := "config.json"
  const EXEMPTIONS := "exemptions.json"
  const MANIFEST := "manifest.json"
  const CHECKSUMS := "checksums.txt"

  datatype Artifact = Artifact(file: string, role: string, sha256: string, bytes: int)

  /** What the manifest says besides the counts and the artifacts. */
  datatype Envelope = Envelope(run: string, exemptions: string, config: string)

  datatype Manifest = Manifest(envelope: Envelope, summary: map<string, int>, artifacts: seq<Artifact>)

  /** The run names its instant; the words of the results are in one language. */
  datatype Assessment = Assessment(run: string, lang: Lang, results: seq<Verdict>)

  datatype Extras = Extras(exemptions: Option<string>, exemptionSummary: string,
                           config: Option<string>, configSummary: string)

  datatype Codec = Codec(
    hash: string -> string,
    writeAssessment: Assessment -> string,
    readAssessment: string -> Option<Assessment>,
    writeManifest: Manifest -> string,
    readManifest: string -> Option<Manifest>,
    oscal: Assessment -> string)

  /** Documents are read back as written, and a digest is printed on one line without space. */
  ghost predicate Lawful(c: Codec) {
    && (forall a :: c.readAssessment(c.writeAssessment(a)) == Some(a))
    && (forall m :: c.readManifest(c.writeManifest(m)) == Some(m))
    && (forall d :: IsSum(c.hash(d)))
  }

  ghost predicate CollisionFree(c: Codec) {
    forall x, y :: c.hash(x) == c.hash(y) ==> x == y
  }

  // ----- Counts by status -----

  function CountStatus(vs: seq<Verdict>, text: string): nat {
    if vs == [] then 0 else CountStatus(vs[..|vs| - 1], text) + if StatusText(vs[|vs| - 1].status) == text then 1 else 0
  }

  function Summary(vs: seq<Verdict>): map<string, int> {
    if vs == [] then map[]
    else
      var s, text := Summary(vs[..|vs| - 1]), StatusText(vs[|vs| - 1].status);
      s[text := GetOr(s, text, 0) + 1]
  }

  lemma {:induction false} SummaryAt(vs: seq<Verdict>, text: string)
    ensures GetOr(Summary(vs), text, 0) == CountStatus(vs, text)
    ensures text in Summary(vs) <==> CountStatus(vs, text) > 0
  {
    if vs != [] {
      SummaryAt(vs[..|vs| - 1], text);
    }
  }

  method SummaryOf(vs: seq<Verdict>) returns (out: map<string, int>)
    ensures out == Summary(vs)
  {
    out := map[];
    for i := 0 to |vs|
      invariant out == Summary(vs[..i])
    {
      assert vs[..i + 1][..i] == vs[..i];
      var text := StatusText(vs[i].status);
      out := out[text := GetOr(out, text, 0) + 1];
    }
    assert vs[..|vs|] == vs;
  }

  // ----- Writing -----

  class Directory {
    var files: map<string, string>

    constructor ()
      ensures files == map[]
    {
      files := map[];
    }

    method Write(name: string, data: string)
      modifies this
      ensures files == old(files)[name := data]
    {
      files := files[name := data];
    }
  }

  datatype Piece = Piece(name: string, role: string, data: string)

  function OptionalPiece(name: string, role: string, data: Option<string>): seq<Piece> {
    if data.Some? then [Piece(name, role, data.value)] else []
  }

  function Sorted(a: Assessment): Assessment {
    a.(results := Canonical(a.results))
  }

  /** The files of a bundle, in the order they are listed. */
  function Pieces(c: Codec, a: Assessment, input: Option<string>, extras: Extras): seq<Piece> {
    OptionalPiece(INPUT, "evaluated-input", input)
    + [Piece(ASSESSMENT, "assessment", c.writeAssessment(a)), Piece(OSCAL, "oscal-assessment-results", c.oscal(a))]
    + OptionalPiece(CONFIG, "applied-configuration", extras.config)
    + OptionalPiece(EXEMPTIONS, "applied-exemptions", extras.exemptions)
  }

  function Stored(before: map<string, string>, pieces: seq<Piece>): map<string, string> {
    if pieces == [] then before
    else Stored(before, pieces[..|pieces| - 1])[pieces[|pieces| - 1].name := pieces[|pieces| - 1].data]
  }

  function ArtifactsOf(c: Codec, pieces: seq<Piece>): (r: seq<Artifact>)
    ensures |r| == |pieces|
    ensures forall i :: 0 <= i < |r| ==>
              r[i] == Artifact(pieces[i].name, pieces[i].role, c.hash(pieces[i].data), |pieces[i].data|)
  {
    seq(|pieces|, i requires 0 <= i < |pieces| =>
      Artifact(pieces[i].name, pieces[i].role, c.hash(pieces[i].data), |pieces[i].data|))
  }

  function EntriesOf(c: Codec, pieces: seq<Piece>): (r: seq<Entry>)
    ensures |r| == |pieces|
    ensures forall i :: 0 <= i < |r| ==> r[i] == Entry(c.hash(pieces[i].data), pieces[i].name)
  {
    seq(|pieces|, i requires 0 <= i < |pieces| => Entry(c.hash(pieces[i].data), pieces[i].name))
  }

  function ManifestOf(c: Codec, a: Assessment, extras: Extras, pieces: seq<Piece>): Manifest {
    Manifest(Envelope(a.run, extras.exemptionSummary, extras.configSummary), Summary(a.results), ArtifactsOf(c, pieces))
  }

  /** A directory once these pieces and this manifest are written over what it held. */
  function Written(c: Codec, before: map<string, string>, pieces: seq<Piece>, manifest: string): map<string, string> {
    Stored(before, pieces)[MANIFEST := manifest]
      [CHECKSUMS := Printed(EntriesOf(c, pieces) + [Entry(c.hash(manifest), MANIFEST)])]
  }

  function Sealed(c: Codec, before: map<string, string>, a: Assessment, input: Option<string>,
                  extras: Extras): map<string, string> {
    var pieces := Pieces(c, Sorted(a), input, extras);
    Written(c, before, pieces, c.writeManifest(ManifestOf(c, Sorted(a), extras, pieces)))
  }

  /** Writes the pieces one by one, while the artifacts and the list of digests grow. */
  method WritePieces(c: Codec, dir: Directory, pieces: seq<Piece>) returns (artifacts: seq<Artifact>, checksums: string)
    modifies dir
    ensures dir.files == Stored(old(dir.files), pieces)
    ensures artifacts == ArtifactsOf(c, pieces)
    ensures checksums == Printed(EntriesOf(c, pieces))
  {
    artifacts, checksums := [], "";
    for i := 0 to |pieces|
      invariant dir.files == Stored(old(dir.files), pieces[..i])
      invariant artifacts == ArtifactsOf(c, pieces[..i])
      invariant checksums == Printed(EntriesOf(c, pieces[..i]))
    {
      var f := pieces[i];
      assert pieces[..i + 1][..i] == pieces[..i];
      var sum := c.hash(f.data);
      EntriesAppend(c, pieces, i);
      dir.Write(f.name, f.data);
      artifacts := artifacts + [Artifact(f.name, f.role, sum, |f.data|)];
      checksums := checksums + (sum + "  " + f.name + "\n");
    }
    assert pieces[..|pieces|] == pieces;
  }

  lemma EntriesAppend(c: Codec, pieces: seq<Piece>, i: nat)
    requires i < |pieces|
    ensures Printed(EntriesOf(c, pieces[..i + 1])) ==
            Printed(EntriesOf(c, pieces[..i])) + (c.hash(pieces[i].data) + "  " + pieces[i].name + "\n")
  {
    var e := Entry(c.hash(pieces[i].data), pieces[i].name);
    assert EntriesOf(c, pieces[..i + 1]) == EntriesOf(c, pieces[..i]) + [e];
    PrintedAppend(EntriesOf(c, pieces[..i]), e);
    ConcatAssociative(Printed(EntriesOf(c, pieces[..i])), PrintedLine(e), "\n");
  }

  /** Seals an assessment; returns the name of the file to sign. */
  method WriteBundle(c: Codec, dir: Directory, a: Assessment, input: Option<string>, extras: Extras)
    returns (path: string)
    modifies dir
    ensures path == CHECKSUMS
    ensures dir.files == Sealed(c, old(dir.files), a, input, extras)
  {
    var sorted := Sorted(a);
    var pieces := [Piece(ASSESSMENT, "assessment", c.writeAssessment(sorted)),
                   Piece(OSCAL, "oscal-assessment-results", c.oscal(sorted))];
    if input.Some? {
      pieces := [Piece(INPUT, "evaluated-input", input.value)] + pieces;
    }
    if extras.config.Some? {
      pieces := pieces + [Piece(CONFIG, "applied-configuration", extras.config.value)];
    }
    if extras.exemptions.Some? {
      pieces := pieces + [Piece(EXEMPTIONS, "applied-exemptions", extras.exemptions.value)];
    }
    assert pieces == Pieces(c, sorted, input, extras);
    var summary := SummaryOf(sorted.results);
    var artifacts, checksums := WritePieces(c, dir, pieces);
    var manifest := c.writeManifest(Manifest(Envelope(sorted.run, extras.exemptionSummary, extras.configSummary),
                                         summary, artifacts));
    dir.Write(MANIFEST, manifest);
    var last := Entry(c.hash(manifest), MANIFEST);
    PrintedAppend(EntriesOf(c, pieces), last);
    checksums := checksums + PrintedLine(last) + "\n";
    dir.Write(CHECKSUMS, checksums);
    path := CHECKSUMS;
  }

  // ----- Verifying -----

  ghost predicate Declares(m: Manifest, name: string) {
    name == MANIFEST || exists a :: a in m.artifacts && a.file == name
  }

  ghost predicate AllListed(sums: map<string, string>, m: Manifest) {
    forall a :: a in m.artifacts ==> a.file in sums
  }

  ghost predicate AllDeclared(sums: map<string, string>, m: Manifest) {
    forall n :: n in sums ==> Declares(m, n)
  }

  predicate Genuine(c: Codec, files: map<string, string>, name: string, sum: string) {
    PlainName(name) && name in files && c.hash(files[name]) == sum
  }

  ghost predicate AllGenuine(c: Codec, files: map<string, string>, sums: map<string, string>) {
    forall n :: n in sums ==> Genuine(c, files, n, sums[n])
  }

  ghost predicate SizesAgree(files: map<string, string>, m: Manifest) {
    forall a :: a in m.artifacts ==> Base(a.file) in files && a.bytes == |files[Base(a.file)]|
  }

  ghost predicate Counted(summary: map<string, int>, vs: seq<Verdict>) {
    forall text :: GetOr(summary, text, 0) == CountStatus(vs, text)
  }

  /** An announced count of each status is the count found; a manifest that announces
      nothing is left alone. */
  ghost predicate SummaryAgrees(c: Codec, files: map<string, string>, m: Manifest) {
    m.summary == map[]
    || (ASSESSMENT in files && c.readAssessment(files[ASSESSMENT]).Some?
        && Counted(m.summary, c.readAssessment(files[ASSESSMENT]).value.results))
  }

  ghost predicate Consistent(c: Codec, files: map<string, string>, sums: map<string, string>, m: Manifest) {
    AllListed(sums, m) && AllDeclared(sums, m) && AllGenuine(c, files, sums)
    && SizesAgree(files, m) && SummaryAgrees(c, files, m)
  }

  /** The list can be read. */
  ghost predicate HasList(files: map<string, string>) {
    CHECKSUMS in files && Legible(Lines(files[CHECKSUMS])) && SumsIn(files) != map[]
  }

  function SumsIn(files: map<string, string>): map<string, string>
    requires CHECKSUMS in files
  {
    Sums(Lines(files[CHECKSUMS]))
  }

  ghost predicate HasManifest(c: Codec, files: map<string, string>) {
    MANIFEST in files && c.readManifest(files[MANIFEST]).Some?
  }

  ghost function ManifestIn(c: Codec, files: map<string, string>): Manifest
    requires HasManifest(c, files)
  {
    c.readManifest(files[MANIFEST]).value
  }

  /** What a bundle must be for its verification to accept it. */
  ghost predicate Accepts(c: Codec, files: map<string, string>) {
    HasList(files) && HasManifest(c, files) && Consistent(c, files, SumsIn(files), ManifestIn(c, files))
  }

  datatype BundleError =
    | NoList
    | BadList(error: ListError)
    | NothingListed
    | NoManifest
    | BadManifest
    | NotListed(name: string)
    | NotDeclared(name: string)
    | BadName(name: string)
    | Unreadable(name: string)
    | BadDigest(name: string)
    | BadSize(name: string)
    | BadSummary(status: string)
    | BadAssessment

  method CheckDeclarations(sums: map<string, string>, m: Manifest) returns (r: Option<BundleError>)
    requires forall n :: n in sums ==> sums[n] != ""
    ensures r.None? <==> AllListed(sums, m) && AllDeclared(sums, m)
  {
    var declared := {MANIFEST};
    for i := 0 to |m.artifacts|
      invariant forall n :: n in declared <==> n == MANIFEST || exists j :: 0 <= j < i && m.artifacts[j].file == n
      invariant forall j :: 0 <= j < i ==> m.artifacts[j].file in sums
    {
      var file := m.artifacts[i].file;
      declared := declared + {file};
      if GetOr(sums, file, "") == "" {
        assert m.artifacts[i] in m.artifacts;
        return Some(NotListed(file));
      }
    }
    assert forall n :: n in declared <==> Declares(m, n);
    var todo := sums.Keys;
    while todo != {}
      invariant todo <= sums.Keys
      invariant forall n :: n in sums && n !in todo ==> n in declared
      decreases todo
    {
      var n :| n in todo;
      todo := todo - {n};
      if n !in declared {
        return Some(NotDeclared(n));
      }
    }
    return None;
  }

  method CheckDigests(c: Codec, dir: Directory, sums: map<string, string>) returns (r: Option<BundleError>)
    ensures r.None? <==> AllGenuine(c, dir.files, sums)
    ensures r.Some? && r.value.BadDigest? ==>
      r.value.name in sums && r.value.name in dir.files && c.hash(dir.files[r.value.name]) != sums[r.value.name]
  {
    var todo := sums.Keys;
    while todo != {}
      invariant todo <= sums.Keys
      invariant forall n :: n in sums && n !in todo ==> Genuine(c, dir.files, n, sums[n])
      decreases todo
    {
      var n :| n in todo;
      todo := todo - {n};
      if n != Base(n) || n == "." || n == ".." {
        return Some(BadName(n));
      }
      if n !in dir.files {
        return Some(Unreadable(n));
      }
      if c.hash(dir.files[n]) != sums[n] {
        return Some(BadDigest(n));
      }
    }
    return None;
  }

  method CheckSizes(dir: Directory, m: Manifest) returns (r: Option<BundleError>)
    ensures r.None? <==> SizesAgree(dir.files, m)
  {
    for i := 0 to |m.artifacts|
      invariant forall j :: 0 <= j < i ==>
        Base(m.artifacts[j].file) in dir.files && m.artifacts[j].bytes == |dir.files[Base(m.artifacts[j].file)]|
    {
      var a := m.artifacts[i];
      assert a in m.artifacts;
      if Base(a.file) !in dir.files {
        return Some(Unreadable(a.file));
      }
      if a.bytes != |dir.files[Base(a.file)]| {
        return Some(BadSize(a.file));
      }
    }
    return None;
  }

  /** The announced counts against a recount, both ways. */
  method CompareCounts(summary: map<string, int>, vs: seq<Verdict>) returns (r: Option<BundleError>)
    ensures r.None? <==> Counted(summary, vs)
  {
    var got := SummaryOf(vs);
    forall text ensures GetOr(got, text, 0) == CountStatus(vs, text) && (text in got <==> CountStatus(vs, text) > 0) {
      SummaryAt(vs, text);
    }
    var todo := summary.Keys;
    while todo != {}
      invariant todo <= summary.Keys
      invariant forall text :: text in summary && text !in todo ==> summary[text] == CountStatus(vs, text)
      decreases todo
    {
      var text :| text in todo;
      todo := todo - {text};
      if GetOr(got, text, 0) != summary[text] {
        assert GetOr(summary, text, 0) != CountStatus(vs, text);
        return Some(BadSummary(text));
      }
    }
    todo := got.Keys;
    while todo != {}
      invariant todo <= got.Keys
      invariant forall text :: text in got && text !in todo ==> text in summary
      decreases todo
    {
      var text :| text in todo;
      todo := todo - {text};
      if text !in summary {
        assert GetOr(summary, text, 0) != CountStatus(vs, text);
        return Some(BadSummary(text));
      }
    }
    return None;
  }

  method CheckSummary(c: Codec, dir: Directory, m: Manifest) returns (r: Option<BundleError>)
    ensures r.None? <==> SummaryAgrees(c, dir.files, m)
  {
    if m.summary == map[] {
      return None;
    }
    if ASSESSMENT !in dir.files {
      return Some(Unreadable(ASSESSMENT));
    }
    var a := c.readAssessment(dir.files[ASSESSMENT]);
    if a.None? {
      return Some(BadAssessment);
    }
    r := CompareCounts(m.summary, a.value.results);
  }

  /** Recomputes every listed digest and cross-checks the list, the manifest and the
      assessment. */
  method VerifyBundle(c: Codec, dir: Directory) returns (r: Option<BundleError>)
    ensures r.None? <==> Accepts(c, dir.files)
  {
    if CHECKSUMS !in dir.files {
      return Some(NoList);
    }
    var listed := ReadList(dir.files[CHECKSUMS]);
    if listed.Failure? {
      return Some(BadList(listed.error));
    }
    var sums := listed.value;
    if sums == map[] {
      return Some(NothingListed);
    }
    if MANIFEST !in dir.files {
      return Some(NoManifest);
    }
    var m := c.readManifest(dir.files[MANIFEST]);
    if m.None? {
      return Some(BadManifest);
    }
    SumsAreSums(Lines(dir.files[CHECKSUMS]));
    r := CheckDeclarations(sums, m.value);
    if r.Some? {
      return;
    }
    r := CheckDigests(c, dir, sums);
    if r.Some? {
      return;
    }
    r := CheckSizes(dir, m.value);
    if r.Some? {
      return;
    }
    r := CheckSummary(c, dir, m.value);
  }
}
