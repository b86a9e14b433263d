/** What an accepted bundle establishes, and what it leaves open (internal/assess/bundle.go). */
module Pinning {
  import opened Wrappers
  import opened Assess
  import opened Checksums
  import opened Sealing
  import opened Bundle

  // ----- Names -----

  /** Neither a slash, nor a space, nor the end of a line. */
  predicate Wordy(n: string) {
    |n| > 2 && forall k :: 0 <= k < |n| ==> n[k] != '/' && n[k] != ' ' && n[k] != '\n'
  }

  /** The list can carry such a name and the guard lets it through. */
  lemma WordyFits(n: string)
    requires Wordy(n)
    ensures IsName(n) && PlainName(n)
  {
    PlainNameExactly(n);
  }

  lemma BundleNames()
    ensures Wordy(INPUT) && Wordy(CONFIG) && Wordy(MANIFEST)
    ensures Wordy(ASSESSMENT) && Wordy(OSCAL) && Wordy(EXEMPTIONS)
  {
  }

  lemma NamesDiffer()
    ensures ASSESSMENT !in {INPUT} && OSCAL !in {INPUT, ASSESSMENT} && CONFIG !in {INPUT, ASSESSMENT, OSCAL}
    ensures EXEMPTIONS !in {INPUT, ASSESSMENT, OSCAL, CONFIG}
            && MANIFEST !in {INPUT, ASSESSMENT, OSCAL, CONFIG, EXEMPTIONS}
    ensures CHECKSUMS !in {INPUT, ASSESSMENT, OSCAL, CONFIG, EXEMPTIONS, MANIFEST}
  {
  }

  /** Different names, taken among some. */
  ghost predicate FitPieces(ps: seq<Piece>, among: set<string>) {
    && (forall i :: 0 <= i < |ps| ==> ps[i].name in among)
    && (forall i, j :: 0 <= i < j < |ps| ==> ps[i].name != ps[j].name)
  }

  ghost predicate WordyNames(among: set<string>) {
    forall n :: n in among ==> Wordy(n)
  }

  /** Names for the pieces: neither the manifest nor the list. */
  ghost predicate Suited(among: set<string>) {
    WordyNames(among) && MANIFEST !in among && CHECKSUMS !in among
  }

  ghost function PieceNames(): (r: set<string>)
    ensures Suited(r)
  {
    BundleNames();
    NamesDiffer();
    {INPUT, ASSESSMENT, OSCAL, CONFIG, EXEMPTIONS}
  }

  lemma PiecesFit(c: Codec, a: Assessment, input: Option<string>, extras: Extras)
    ensures FitPieces(Pieces(c, a, input, extras), PieceNames())
  {
    NamesDiffer();
    FiveAreFit(INPUT, ASSESSMENT, OSCAL, CONFIG, EXEMPTIONS, input, c.writeAssessment(a), c.oscal(a), extras.config,
               extras.exemptions);
  }

  lemma FiveAreFit(n1: string, n2: string, n3: string, n4: string, n5: string, d1: Option<string>, d2: string,
                   d3: string, d4: Option<string>, d5: Option<string>)
    requires n2 !in {n1} && n3 !in {n1, n2} && n4 !in {n1, n2, n3} && n5 !in {n1, n2, n3, n4}
    ensures FitPieces(OptionalPiece(n1, "evaluated-input", d1)
                      + [Piece(n2, "assessment", d2), Piece(n3, "oscal-assessment-results", d3)]
                      + OptionalPiece(n4, "applied-configuration", d4) + OptionalPiece(n5, "applied-exemptions", d5),
                      {n1, n2, n3, n4, n5})
  {
  }

  // ----- Round trip -----

  /** The directory holds the pieces. */
  ghost predicate Holds(files: map<string, string>, ps: seq<Piece>) {
    forall i :: 0 <= i < |ps| ==> ps[i].name in files && files[ps[i].name] == ps[i].data
  }

  lemma {:induction false} StoredHolds(before: map<string, string>, ps: seq<Piece>, among: set<string>)
    requires FitPieces(ps, among)
    ensures Holds(Stored(before, ps), ps)
  {
    if ps != [] {
      var last := |ps| - 1;
      StoredHolds(before, ps[..last], among);
      forall i | 0 <= i < last
        ensures ps[i].name in Stored(before, ps) && Stored(before, ps)[ps[i].name] == ps[i].data {
        assert ps[..last][i] == ps[i];
      }
    }
  }

  lemma HoldsBeside(files: map<string, string>, ps: seq<Piece>, among: set<string>, name: string, data: string)
    requires Holds(files, ps) && FitPieces(ps, among) && name !in among
    ensures Holds(files[name := data], ps)
  {
  }

  lemma EntriesAreReadable(c: Codec, ps: seq<Piece>, among: set<string>)
    requires Lawful(c) && FitPieces(ps, among) && WordyNames(among)
    ensures Printable(EntriesOf(c, ps)) && DistinctNames(EntriesOf(c, ps))
  {
  }

  /** The digests read back from the list of some pieces. */
  lemma ListOfPieces(c: Codec, ps: seq<Piece>, among: set<string>, files: map<string, string>)
    requires Lawful(c) && FitPieces(ps, among) && WordyNames(among) && ps != []
    requires CHECKSUMS in files && files[CHECKSUMS] == Printed(EntriesOf(c, ps))
    ensures HasList(files)
    ensures SumsIn(files) == Listed(EntriesOf(c, ps))
  {
    var es := EntriesOf(c, ps);
    EntriesAreReadable(c, ps, among);
    ListRoundTrip(es);
    ListedAt(es, es[0].name);
    assert es[0].name in Listed(es);
  }

  lemma ListedPiece(c: Codec, ps: seq<Piece>, among: set<string>, n: string)
    requires Lawful(c) && FitPieces(ps, among) && WordyNames(among)
    ensures n in Listed(EntriesOf(c, ps)) <==> exists i :: 0 <= i < |ps| && ps[i].name == n
    ensures forall i :: 0 <= i < |ps| && ps[i].name == n ==> Listed(EntriesOf(c, ps))[n] == c.hash(ps[i].data)
  {
    var es := EntriesOf(c, ps);
    EntriesAreReadable(c, ps, among);
    ListedAt(es, n);
    forall i | 0 <= i < |ps| && ps[i].name == n ensures n in Listed(es) && Listed(es)[n] == c.hash(ps[i].data) {
      assert es[i].name == n;
    }
    if i :| 0 <= i < |es| && es[i].name == n {
      assert ps[i].name == n;
    }
  }

  /** Every artifact is one of the pieces, with its size. */
  ghost predicate Backed(m: Manifest, ps: seq<Piece>) {
    forall a :: a in m.artifacts ==> exists i :: 0 <= i < |ps| && ps[i].name == a.file && |ps[i].data| == a.bytes
  }

  /** Fit pieces held by a directory, under a manifest that declares them, with nothing else,
      and counts their assessment, are consistent. */
  lemma PiecesAreConsistent(c: Codec, files: map<string, string>, ps: seq<Piece>, among: set<string>, m: Manifest,
                            sums: map<string, string>, results: seq<Verdict>)
    requires Lawful(c) && FitPieces(ps, among) && WordyNames(among) && Holds(files, ps)
    requires Backed(m, ps) && forall i :: 0 <= i < |ps| ==> Declares(m, ps[i].name)
    requires sums == Listed(EntriesOf(c, ps)) && m.summary == Summary(results)
    requires ASSESSMENT in files && c.readAssessment(files[ASSESSMENT]).Some?
    requires c.readAssessment(files[ASSESSMENT]).value.results == results
    ensures Consistent(c, files, sums, m)
  {
    forall n | n in sums ensures Declares(m, n) && Genuine(c, files, n, sums[n]) {
      ListedPiece(c, ps, among, n);
      var i :| 0 <= i < |ps| && ps[i].name == n;
      WordyFits(ps[i].name);
    }
    forall a | a in m.artifacts ensures a.file in sums && Base(a.file) in files && a.bytes == |files[Base(a.file)]| {
      var i :| 0 <= i < |ps| && ps[i].name == a.file && |ps[i].data| == a.bytes;
      ListedPiece(c, ps, among, a.file);
      WordyFits(ps[i].name);
    }
    forall text ensures GetOr(m.summary, text, 0) == CountStatus(results, text) {
      SummaryAt(results, text);
    }
  }

  /** The pieces with the manifest, as one more. */
  function Whole(pieces: seq<Piece>, manifest: string): seq<Piece> {
    pieces + [Piece(MANIFEST, "", manifest)]
  }

  lemma WrittenWhole(c: Codec, before: map<string, string>, pieces: seq<Piece>, manifest: string)
    ensures Written(c, before, pieces, manifest) ==
            Stored(before, Whole(pieces, manifest))[CHECKSUMS := Printed(EntriesOf(c, Whole(pieces, manifest)))]
  {
    var whole := Whole(pieces, manifest);
    assert whole[..|pieces|] == pieces;
    assert EntriesOf(c, whole) == EntriesOf(c, pieces) + [Entry(c.hash(manifest), MANIFEST)];
  }

  lemma ArtifactsAreBacked(c: Codec, m: Manifest, pieces: seq<Piece>, ps: seq<Piece>)
    requires m.artifacts == ArtifactsOf(c, pieces) && |pieces| <= |ps| && forall i :: 0 <= i < |pieces| ==>
               ps[i] == pieces[i]
    ensures Backed(m, ps)
    ensures forall i :: 0 <= i < |pieces| ==> Declares(m, ps[i].name)
  {
  }

  lemma AssessmentHeld(c: Codec, a: Assessment, input: Option<string>, extras: Extras, files: map<string, string>)
    requires Lawful(c) && Holds(files, Pieces(c, a, input, extras))
    ensures ASSESSMENT in files && c.readAssessment(files[ASSESSMENT]) == Some(a)
  {
    var pieces := Pieces(c, a, input, extras);
    var k := if input.Some? then 1 else 0;
    assert pieces[k] == Piece(ASSESSMENT, "assessment", c.writeAssessment(a));
  }

  lemma WholeFits(pieces: seq<Piece>, manifest: string, among: set<string>)
    requires FitPieces(pieces, among) && Suited(among)
    ensures FitPieces(Whole(pieces, manifest), among + {MANIFEST}) && WordyNames(among + {MANIFEST})
            && CHECKSUMS !in among + {MANIFEST}
  {
  }

  /** What a sealed directory holds. */
  lemma SealedHolds(c: Codec, before: map<string, string>, pieces: seq<Piece>, manifest: string,
                    files: map<string, string>, among: set<string>)
    requires FitPieces(pieces, among) && Suited(among)
    requires files == Written(c, before, pieces, manifest)
    ensures Holds(files, pieces) && Holds(files, Whole(pieces, manifest))
  {
    var whole := Whole(pieces, manifest);
    WholeFits(pieces, manifest, among);
    WrittenWhole(c, before, pieces, manifest);
    StoredHolds(before, whole, among + {MANIFEST});
    HoldsBeside(Stored(before, whole), whole, among + {MANIFEST}, CHECKSUMS, files[CHECKSUMS]);
    forall i | 0 <= i < |pieces| ensures pieces[i].name in files && files[pieces[i].name] == pieces[i].data {
      assert whole[i] == pieces[i];
    }
  }

  lemma ManifestHeld(c: Codec, files: map<string, string>, pieces: seq<Piece>, m: Manifest)
    requires Lawful(c) && Holds(files, Whole(pieces, c.writeManifest(m)))
    ensures HasManifest(c, files) && ManifestIn(c, files) == m
  {
    assert Whole(pieces, c.writeManifest(m))[|pieces|] == Piece(MANIFEST, "", c.writeManifest(m));
    assert c.readManifest(c.writeManifest(m)) == Some(m);
  }

  /** Verification accepts what was sealed: for every assessment, with or without input,
      configuration and exemptions, whatever the directory held before. */
  lemma RoundTrip(c: Codec, before: map<string, string>, a: Assessment, input: Option<string>, extras: Extras)
    requires Lawful(c)
    ensures Accepts(c, Sealed(c, before, a, input, extras))
  {
    var sorted := Sorted(a);
    var pieces := Pieces(c, sorted, input, extras);
    var m := ManifestOf(c, sorted, extras, pieces);
    var files := Written(c, before, pieces, c.writeManifest(m));
    PiecesFit(c, sorted, input, extras);
    SealedHolds(c, before, pieces, c.writeManifest(m), files, PieceNames());
    AssessmentHeld(c, sorted, input, extras, files);
    SealedIsAccepted(c, before, pieces, m, files, sorted.results, PieceNames());
  }

  lemma SealedIsAccepted(c: Codec, before: map<string, string>, pieces: seq<Piece>, m: Manifest,
                         files: map<string, string>, results: seq<Verdict>, among: set<string>)
    requires Lawful(c) && m.artifacts == ArtifactsOf(c, pieces) && m.summary == Summary(results)
    requires FitPieces(pieces, among) && Suited(among)
    requires files == Written(c, before, pieces, c.writeManifest(m)) && Holds(files, Whole(pieces, c.writeManifest(m)))
    requires ASSESSMENT in files && c.readAssessment(files[ASSESSMENT]).Some?
    requires c.readAssessment(files[ASSESSMENT]).value.results == results
    ensures Accepts(c, files)
  {
    var whole := Whole(pieces, c.writeManifest(m));
    WholeFits(pieces, c.writeManifest(m), among);
    WrittenWhole(c, before, pieces, c.writeManifest(m));
    ListOfPieces(c, whole, among + {MANIFEST}, files);
    ManifestHeld(c, files, pieces, m);
    ArtifactsAreBacked(c, m, pieces, whole);
    PiecesAreConsistent(c, files, whole, among + {MANIFEST}, m, SumsIn(files), results);
  }

  // ----- What sealing leaves alone -----

  lemma {:induction false} StoredElsewhere(before: map<string, string>, ps: seq<Piece>, n: string)
    requires forall i :: 0 <= i < |ps| ==> ps[i].name != n
    ensures n in Stored(before, ps) <==> n in before
    ensures n in before ==> Stored(before, ps)[n] == before[n]
  {
    if ps != [] {
      StoredElsewhere(before, ps[..|ps| - 1], n);
    }
  }

  /** Sealing removes nothing: a file it does not write stays as it was. */
  lemma SealedElsewhere(c: Codec, before: map<string, string>, a: Assessment, input: Option<string>, extras: Extras,
                        n: string)
    requires forall i :: 0 <= i < |Pieces(c, Sorted(a), input, extras)| ==>
               Pieces(c, Sorted(a), input, extras)[i].name != n
    requires n != MANIFEST && n != CHECKSUMS
    ensures var files := Sealed(c, before, a, input, extras);
            (n in files <==> n in before) && (n in before ==> files[n] == before[n])
  {
    StoredElsewhere(before, Pieces(c, Sorted(a), input, extras), n);
  }

  /** In particular an exemptions document that was there stays when none is sealed. */
  lemma StaleExemptionsStay(c: Codec, before: map<string, string>, a: Assessment, input: Option<string>, extras: Extras)
    requires extras.exemptions.None?
    ensures var files := Sealed(c, before, a, input, extras);
            (EXEMPTIONS in files <==> EXEMPTIONS in before)
            && (EXEMPTIONS in before ==> files[EXEMPTIONS] == before[EXEMPTIONS])
  {
    NamesDiffer();
    NotAmongOthers(c, Sorted(a), input, extras, EXEMPTIONS);
    SealedElsewhere(c, before, a, input, extras, EXEMPTIONS);
  }

  lemma NotAmongOthers(c: Codec, a: Assessment, input: Option<string>, extras: Extras, n: string)
    requires extras.exemptions.None? && n !in {INPUT, ASSESSMENT, OSCAL, CONFIG}
    ensures forall i :: 0 <= i < |Pieces(c, a, input, extras)| ==> Pieces(c, a, input, extras)[i].name != n
  {
  }

  /** What a bundle holds once sealed: its pieces. */
  lemma SealedPiece(c: Codec, before: map<string, string>, a: Assessment, input: Option<string>, extras: Extras,
                    p: Piece)
    requires p in Pieces(c, Sorted(a), input, extras)
    ensures var files := Sealed(c, before, a, input, extras); p.name in files && files[p.name] == p.data
  {
    var pieces := Pieces(c, Sorted(a), input, extras);
    var manifest := c.writeManifest(ManifestOf(c, Sorted(a), extras, pieces));
    PiecesFit(c, Sorted(a), input, extras);
    SealedHolds(c, before, pieces, manifest, Written(c, before, pieces, manifest), PieceNames());
    var i :| 0 <= i < |pieces| && pieces[i] == p;
  }

  // ----- What acceptance establishes -----

  /** The listed names are the declared artifacts, and possibly the manifest; each is a plain
      name whose file has the listed digest, and each artifact has the declared size. A
      directory holds no file named by the slash alone. */
  lemma AcceptedExactly(c: Codec, files: map<string, string>, n: string)
    requires Accepts(c, files) && "/" !in files
    ensures n != MANIFEST ==> (n in SumsIn(files) <==> exists a :: a in ManifestIn(c, files).artifacts && a.file == n)
    ensures n in SumsIn(files) ==>
              n != "" && '/' !in n && n != "." && n != ".." && n in files && c.hash(files[n]) == SumsIn(files)[n]
    ensures forall a :: a in ManifestIn(c, files).artifacts ==> a.file in files && a.bytes == |files[a.file]|
  {
    var sums, m := SumsIn(files), ManifestIn(c, files);
    if n in sums {
      assert Declares(m, n);
      assert Genuine(c, files, n, sums[n]);
      PlainNameExactly(n);
    }
    forall a | a in m.artifacts ensures a.file in files && a.bytes == |files[a.file]| {
      assert Genuine(c, files, a.file, sums[a.file]);
    }
  }

  /** The counts of an accepted bundle that announces some are those of its assessment. */
  lemma CountsAreTrue(c: Codec, files: map<string, string>, text: string)
    requires Accepts(c, files) && ManifestIn(c, files).summary != map[]
    ensures ASSESSMENT in files && c.readAssessment(files[ASSESSMENT]).Some?
    ensures GetOr(ManifestIn(c, files).summary, text, 0) ==
              CountStatus(c.readAssessment(files[ASSESSMENT]).value.results, text)
  {
  }

  /** The list of digests pins every file it names. */
  lemma ListedFilesArePinned(c: Codec, a: map<string, string>, b: map<string, string>, n: string)
    requires CollisionFree(c) && Accepts(c, a) && Accepts(c, b)
    requires a[CHECKSUMS] == b[CHECKSUMS] && n in SumsIn(a)
    ensures n in a && n in b && a[n] == b[n]
  {
    assert Genuine(c, a, n, SumsIn(a)[n]) && Genuine(c, b, n, SumsIn(b)[n]);
  }

  // ----- The manifest -----

  /** Every accepted directory with this list has this manifest. */
  ghost predicate ManifestPinned(c: Codec, files: map<string, string>)
    requires CHECKSUMS in files && MANIFEST in files
  {
    forall other :: Accepts(c, other) && other[CHECKSUMS] == files[CHECKSUMS] ==> other[MANIFEST] == files[MANIFEST]
  }

  /** Only what is listed is read, and the manifest, and the assessment for its counts. */
  lemma SameReading(c: Codec, files: map<string, string>, other: map<string, string>, sums: map<string, string>,
                    m: Manifest, m2: Manifest)
    requires Consistent(c, files, sums, m)
    requires forall n :: n in sums || n == ASSESSMENT ==>
               (n in files <==> n in other) && (n in files ==> other[n] == files[n])
    requires m2.artifacts == m.artifacts && m2.summary == m.summary
    ensures Consistent(c, other, sums, m2)
  {
  }

  /** A manifest with another envelope passes as well when the list does not name it. */
  lemma AnotherManifest(c: Codec, files: map<string, string>, e: Envelope, m: Manifest, manifest: string)
    requires Lawful(c) && Accepts(c, files) && MANIFEST !in SumsIn(files)
    requires m == ManifestIn(c, files).(envelope := e) && manifest == c.writeManifest(m)
    ensures Accepts(c, files[MANIFEST := manifest])
    ensures files[MANIFEST := manifest][CHECKSUMS] == files[CHECKSUMS]
  {
    var other := files[MANIFEST := manifest];
    NamesDiffer();
    assert c.readManifest(manifest) == Some(m);
    SameReading(c, files, other, SumsIn(files), ManifestIn(c, files), m);
  }

  lemma EnvelopesShow(c: Codec, m: Manifest, e: Envelope, f: Envelope)
    requires Lawful(c) && e != f
    ensures c.writeManifest(m.(envelope := e)) != c.writeManifest(m.(envelope := f))
  {
  }

  /** Verification never asks that the list name the manifest. It pins the manifest exactly
      when it does. */
  lemma ManifestPinnedExactly(c: Codec, files: map<string, string>)
    requires Lawful(c) && CollisionFree(c) && Accepts(c, files)
    ensures ManifestPinned(c, files) <==> MANIFEST in SumsIn(files)
  {
    if MANIFEST in SumsIn(files) {
      forall other | Accepts(c, other) && other[CHECKSUMS] == files[CHECKSUMS]
        ensures other[MANIFEST] == files[MANIFEST] {
        ListedFilesArePinned(c, files, other, MANIFEST);
      }
    } else {
      var m := ManifestIn(c, files);
      var e, f := Envelope("one", "", ""), Envelope("other", "", "");
      assert |e.run| != |f.run|;
      EnvelopesShow(c, m, e, f);
      var x, y := c.writeManifest(m.(envelope := e)), c.writeManifest(m.(envelope := f));
      AnotherManifest(c, files, e, m.(envelope := e), x);
      AnotherManifest(c, files, f, m.(envelope := f), y);
      var z := if x == files[MANIFEST] then y else x;
      assert Accepts(c, files[MANIFEST := z]) && files[MANIFEST := z][MANIFEST] != files[MANIFEST];
    }
  }

  /** Such bundles exist: any sealed one whose list lost the line of its manifest. */
  lemma ManifestMayBeUnlisted(c: Codec, before: map<string, string>, a: Assessment, input: Option<string>,
                              extras: Extras)
    requires Lawful(c)
    ensures var pieces := Pieces(c, Sorted(a), input, extras);
            var files := Sealed(c, before, a, input, extras)[CHECKSUMS := Printed(EntriesOf(c, pieces))];
            Accepts(c, files) && MANIFEST !in SumsIn(files)
  {
    var sorted := Sorted(a);
    var pieces := Pieces(c, sorted, input, extras);
    var m := ManifestOf(c, sorted, extras, pieces);
    var full := Written(c, before, pieces, c.writeManifest(m));
    PiecesFit(c, sorted, input, extras);
    SealedHolds(c, before, pieces, c.writeManifest(m), full, PieceNames());
    AssessmentHeld(c, sorted, input, extras, full);
    assert pieces != [];
    StillHolds(full, pieces, c.writeManifest(m), PieceNames(), Printed(EntriesOf(c, pieces)));
    WithoutManifestLine(c, pieces, m, full[CHECKSUMS := Printed(EntriesOf(c, pieces))], sorted.results, PieceNames());
  }

  lemma StillHolds(full: map<string, string>, pieces: seq<Piece>, manifest: string, among: set<string>, list: string)
    requires FitPieces(pieces, among) && Suited(among) && Holds(full, pieces) && Holds(full, Whole(pieces, manifest))
    ensures Holds(full[CHECKSUMS := list], pieces) && Holds(full[CHECKSUMS := list], Whole(pieces, manifest))
    ensures CHECKSUMS != ASSESSMENT
  {
  }

  lemma WithoutManifestLine(c: Codec, pieces: seq<Piece>, m: Manifest, files: map<string, string>,
                            results: seq<Verdict>, among: set<string>)
    requires Lawful(c) && m.artifacts == ArtifactsOf(c, pieces) && m.summary == Summary(results)
    requires FitPieces(pieces, among) && Suited(among) && pieces != []
    requires Holds(files, pieces) && Holds(files, Whole(pieces, c.writeManifest(m)))
    requires CHECKSUMS in files && files[CHECKSUMS] == Printed(EntriesOf(c, pieces))
    requires ASSESSMENT in files && c.readAssessment(files[ASSESSMENT]).Some?
    requires c.readAssessment(files[ASSESSMENT]).value.results == results
    ensures Accepts(c, files) && MANIFEST !in SumsIn(files)
  {
    ListOfPieces(c, pieces, among, files);
    ListedPiece(c, pieces, among, MANIFEST);
    ManifestHeld(c, files, pieces, m);
    ArtifactsAreBacked(c, m, pieces, pieces);
    PiecesAreConsistent(c, files, pieces, among, m, SumsIn(files), results);
  }

  // ----- Relabelling -----

  lemma {:induction false} CountUpdated(vs: seq<Verdict>, i: nat, v: Verdict, text: string)
    requires i < |vs|
    ensures CountStatus(vs[i := v], text) == CountStatus(vs, text)
              - (if StatusText(vs[i].status) == text then 1 else 0) + (if StatusText(v.status) == text then 1 else 0)
  {
    var last := |vs| - 1;
    if i < last {
      CountUpdated(vs[..last], i, v, text);
      assert vs[i := v][..last] == vs[..last][i := v];
    } else {
      assert vs[i := v][..last] == vs[..last];
    }
  }

  /** Two accepted directories with the same manifest, when it announces counts, hold
      assessments with the same number of verdicts of each status. */
  lemma SameManifestSameCounts(c: Codec, a: map<string, string>, b: map<string, string>, text: string)
    requires Accepts(c, a) && Accepts(c, b) && a[MANIFEST] == b[MANIFEST] && ManifestIn(c, a).summary != map[]
    ensures ASSESSMENT in a && ASSESSMENT in b
    ensures c.readAssessment(a[ASSESSMENT]).Some? && c.readAssessment(b[ASSESSMENT]).Some?
    ensures CountStatus(c.readAssessment(a[ASSESSMENT]).value.results, text)
            == CountStatus(c.readAssessment(b[ASSESSMENT]).value.results, text)
  {
    CountsAreTrue(c, a, text);
    CountsAreTrue(c, b, text);
  }

  /** Giving one verdict another status, and regenerating the list of digests but not the
      manifest, is never accepted when the manifest announces counts. */
  lemma RelabellingIsRejected(c: Codec, files: map<string, string>, forged: map<string, string>, i: nat, s: Status)
    requires Accepts(c, files) && ManifestIn(c, files).summary != map[]
    requires MANIFEST in forged && forged[MANIFEST] == files[MANIFEST]
    requires ASSESSMENT in files && ASSESSMENT in forged
    requires c.readAssessment(files[ASSESSMENT]).Some? && c.readAssessment(forged[ASSESSMENT]).Some?
    requires var vs := c.readAssessment(files[ASSESSMENT]).value.results;
             i < |vs| && StatusText(s) != StatusText(vs[i].status)
             && c.readAssessment(forged[ASSESSMENT]).value.results == vs[i := vs[i].(status := s)]
    ensures !Accepts(c, forged)
  {
    var vs := c.readAssessment(files[ASSESSMENT]).value.results;
    CountUpdated(vs, i, vs[i].(status := s), StatusText(s));
    if Accepts(c, forged) {
      SameManifestSameCounts(c, files, forged, StatusText(s));
      assert false;
    }
  }

  /** Replacing the assessment and regenerating the list, the manifest left as it was, is
      accepted exactly when the new one has the declared size and the announced counts. */
  lemma ResealedExactly(c: Codec, files: map<string, string>, data: string, list: string, m: Manifest)
    requires Accepts(c, files) && m == ManifestIn(c, files)
    requires ASSESSMENT in SumsIn(files) && CHECKSUMS !in SumsIn(files)
    requires Legible(Lines(list)) && Sums(Lines(list)) == SumsIn(files)[ASSESSMENT := c.hash(data)]
    ensures Accepts(c, files[ASSESSMENT := data][CHECKSUMS := list]) <==>
            && (forall a :: a in m.artifacts && a.file == ASSESSMENT ==> a.bytes == |data|)
            && (m.summary == map[] || (c.readAssessment(data).Some? &&
                               Counted(m.summary, c.readAssessment(data).value.results)))
  {
    NamesDiffer();
    var forged := files[ASSESSMENT := data][CHECKSUMS := list];
    ResealedParts(c, files, forged, SumsIn(files), m, ASSESSMENT, data);
    SummaryReads(c, forged, m, data);
    Resealed(c, files, forged, list, m);
  }

  lemma Resealed(c: Codec, files: map<string, string>, forged: map<string, string>, list: string, m: Manifest)
    requires CHECKSUMS in forged && forged[CHECKSUMS] == list && Legible(Lines(list)) && Sums(Lines(list)) != map[]
    requires HasManifest(c, files) && m == ManifestIn(c, files)
    requires MANIFEST in forged && forged[MANIFEST] == files[MANIFEST]
    ensures Accepts(c, forged) <==> Consistent(c, forged, Sums(Lines(list)), m)
  {
  }

  lemma SummaryReads(c: Codec, files: map<string, string>, m: Manifest, data: string)
    requires ASSESSMENT in files && files[ASSESSMENT] == data
    ensures SummaryAgrees(c, files, m) <==>
            m.summary == map[] ||
              (c.readAssessment(data).Some? && Counted(m.summary, c.readAssessment(data).value.results))
  {
  }

  lemma ResealedParts(c: Codec, files: map<string, string>, forged: map<string, string>, sums: map<string, string>,
                      m: Manifest, name: string, data: string)
    requires AllListed(sums, m) && AllDeclared(sums, m) && AllGenuine(c, files, sums) && SizesAgree(files, m)
             && name in sums
    requires name in forged && forged[name] == data
    requires forall n :: n in sums && n != name ==> n in forged && forged[n] == files[n]
    ensures var more := sums[name := c.hash(data)];
            AllListed(more, m) && AllDeclared(more, m) && AllGenuine(c, forged, more)
    ensures SizesAgree(forged, m) <==> forall a :: a in m.artifacts && a.file == name ==> a.bytes == |data|
  {
  }

  // ----- What verification does not look at -----

  /** A file that no list names is never read: its content, its presence, change nothing. */
  lemma UnlistedIsIgnored(c: Codec, files: map<string, string>, n: string, data: string)
    requires Accepts(c, files) && n !in SumsIn(files) && n != CHECKSUMS && n != MANIFEST && n != ASSESSMENT
    ensures Accepts(c, files[n := data])
  {
    var m := ManifestIn(c, files);
    SameReading(c, files, files[n := data], SumsIn(files), m, m);
  }

  /** The digest an artifact carries in the manifest is never compared. */
  lemma DeclaredDigestIsIgnored(c: Codec, files: map<string, string>, sums: map<string, string>, m: Manifest, k: nat,
                                digest: string)
    requires Consistent(c, files, sums, m) && k < |m.artifacts|
    ensures Consistent(c, files, sums, m.(artifacts := m.artifacts[k := m.artifacts[k].(sha256 := digest)]))
  {
    var m2 := m.(artifacts := m.artifacts[k := m.artifacts[k].(sha256 := digest)]);
    SameArtifacts(m, m2);
    forall n | n in sums ensures Declares(m2, n) {
      assert Declares(m, n);
    }
    forall a | a in m2.artifacts ensures a.file in sums && Base(a.file) in files && a.bytes == |files[Base(a.file)]| {
      var b := Original(m, m2, a);
    }
  }

  lemma Original(m: Manifest, m2: Manifest, a: Artifact) returns (b: Artifact)
    requires |m2.artifacts| == |m.artifacts| && a in m2.artifacts
    requires forall i :: 0 <= i < |m.artifacts| ==> m2.artifacts[i].(sha256 := "") == m.artifacts[i].(sha256 := "")
    ensures b in m.artifacts && b.file == a.file && b.bytes == a.bytes
  {
    var i :| 0 <= i < |m2.artifacts| && m2.artifacts[i] == a;
    b := m.artifacts[i];
  }

  lemma SameArtifacts(m: Manifest, m2: Manifest)
    requires |m2.artifacts| == |m.artifacts|
    requires forall i :: 0 <= i < |m.artifacts| ==> m2.artifacts[i].(sha256 := "") == m.artifacts[i].(sha256 := "")
    ensures forall n :: Declares(m, n) ==> Declares(m2, n)
  {
  }
}
