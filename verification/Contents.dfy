/** What a directory holds once an assessment has been sealed in it, name by name, and what its
    verification asks of it (internal/assess/bundle.go). */
module Contents {
  import opened Wrappers
  import opened Order
  import opened Assess
  import opened Checksums
  import opened Sealing
  import opened Bundle
  import opened Pinning

  /** The directory holds this under a name when it was given, and otherwise what was there. */
  ghost predicate GivenOrKept(files: map<string, string>, before: map<string, string>, n: string,
                              given: Option<string>) {
    match given
    case Some(data) => n in files && files[n] == data
    case None => (n in files <==> n in before) && (n in files ==> files[n] == before[n])
  }

  function ArtifactOf(c: Codec, n: string, role: string, given: Option<string>): seq<Artifact> {
    match given
    case Some(data) => [Artifact(n, role, c.hash(data), |data|)]
    case None => []
  }

  /** What sealing is given for each name. */
  datatype Given = Given(input: Option<string>, assessment: string, oscal: string, config: Option<string>,
                         exemptions: Option<string>)

  function GivenBy(c: Codec, a: Assessment, input: Option<string>, extras: Extras): Given {
    var sealed := Assessment(a.run, a.lang, Canonical(a.results));
    Given(input, c.writeAssessment(sealed), c.oscal(sealed), extras.config, extras.exemptions)
  }

  /** The artifacts the manifest declares: the files that were given, with their role, their
      digest and their size, in this order. */
  function DeclaredBy(c: Codec, g: Given): seq<Artifact> {
    ArtifactOf(c, INPUT, "evaluated-input", g.input)
    + ArtifactOf(c, ASSESSMENT, "assessment", Some(g.assessment))
    + ArtifactOf(c, OSCAL, "oscal-assessment-results", Some(g.oscal))
    + ArtifactOf(c, CONFIG, "applied-configuration", g.config)
    + ArtifactOf(c, EXEMPTIONS, "applied-exemptions", g.exemptions)
  }

  lemma PieceIs(c: Codec, a: Assessment, input: Option<string>, extras: Extras)
    ensures var ps := Pieces(c, a, input, extras);
            && Piece(ASSESSMENT, "assessment", c.writeAssessment(a)) in ps
            && Piece(OSCAL, "oscal-assessment-results", c.oscal(a)) in ps
            && (input.Some? ==> Piece(INPUT, "evaluated-input", input.value) in ps)
            && (extras.config.Some? ==> Piece(CONFIG, "applied-configuration", extras.config.value) in ps)
            && (extras.exemptions.Some? ==> Piece(EXEMPTIONS, "applied-exemptions", extras.exemptions.value) in ps)
  {
  }

  lemma NotAPiece(c: Codec, a: Assessment, input: Option<string>, extras: Extras, n: string)
    requires n != ASSESSMENT && n != OSCAL && (n == INPUT ==> input.None?)
    requires (n == CONFIG ==> extras.config.None?) && (n == EXEMPTIONS ==> extras.exemptions.None?)
    ensures forall i :: 0 <= i < |Pieces(c, a, input, extras)| ==> Pieces(c, a, input, extras)[i].name != n
  {
  }

  lemma Kept(c: Codec, before: map<string, string>, a: Assessment, input: Option<string>, extras: Extras, n: string)
    requires n !in {ASSESSMENT, OSCAL, MANIFEST, CHECKSUMS} && (n == INPUT ==> input.None?)
    requires (n == CONFIG ==> extras.config.None?) && (n == EXEMPTIONS ==> extras.exemptions.None?)
    ensures GivenOrKept(Sealed(c, before, a, input, extras), before, n, None)
  {
    NotAPiece(c, Sorted(a), input, extras, n);
    SealedElsewhere(c, before, a, input, extras, n);
  }

  lemma GivenPiece(c: Codec, before: map<string, string>, a: Assessment, input: Option<string>, extras: Extras,
                   p: Piece)
    requires p in Pieces(c, Sorted(a), input, extras)
    ensures GivenOrKept(Sealed(c, before, a, input, extras), before, p.name, Some(p.data))
  {
    SealedPiece(c, before, a, input, extras, p);
  }

  /** Under each name, what was given for it; under every other, what was there before. */
  lemma SealedFiles(c: Codec, before: map<string, string>, a: Assessment, input: Option<string>, extras: Extras,
                    n: string)
    ensures var files, g := Sealed(c, before, a, input, extras), GivenBy(c, a, input, extras);
            && GivenOrKept(files, before, ASSESSMENT, Some(g.assessment))
            && GivenOrKept(files, before, OSCAL, Some(g.oscal))
            && GivenOrKept(files, before, INPUT, g.input)
            && GivenOrKept(files, before, CONFIG, g.config)
            && GivenOrKept(files, before, EXEMPTIONS, g.exemptions)
            && (n !in {INPUT, ASSESSMENT, OSCAL, CONFIG, EXEMPTIONS, MANIFEST, CHECKSUMS} ==>
                  GivenOrKept(files, before, n, None))
  {
    var sorted := Sorted(a);
    assert sorted == Assessment(a.run, a.lang, Canonical(a.results));
    NamesDiffer();
    PieceIs(c, sorted, input, extras);
    GivenPiece(c, before, a, input, extras, Piece(ASSESSMENT, "assessment", c.writeAssessment(sorted)));
    GivenPiece(c, before, a, input, extras, Piece(OSCAL, "oscal-assessment-results", c.oscal(sorted)));
    InputFile(c, before, a, input, extras);
    ConfigFile(c, before, a, input, extras);
    ExemptionsFile(c, before, a, input, extras);
    if n !in {INPUT, ASSESSMENT, OSCAL, CONFIG, EXEMPTIONS, MANIFEST, CHECKSUMS} {
      Kept(c, before, a, input, extras, n);
    }
  }

  lemma InputFile(c: Codec, before: map<string, string>, a: Assessment, input: Option<string>, extras: Extras)
    ensures GivenOrKept(Sealed(c, before, a, input, extras), before, INPUT, input)
  {
    NamesDiffer();
    if input.Some? {
      PieceIs(c, Sorted(a), input, extras);
      GivenPiece(c, before, a, input, extras, Piece(INPUT, "evaluated-input", input.value));
    } else {
      Kept(c, before, a, input, extras, INPUT);
    }
  }

  lemma ConfigFile(c: Codec, before: map<string, string>, a: Assessment, input: Option<string>, extras: Extras)
    ensures GivenOrKept(Sealed(c, before, a, input, extras), before, CONFIG, extras.config)
  {
    NamesDiffer();
    if extras.config.Some? {
      PieceIs(c, Sorted(a), input, extras);
      GivenPiece(c, before, a, input, extras, Piece(CONFIG, "applied-configuration", extras.config.value));
    } else {
      Kept(c, before, a, input, extras, CONFIG);
    }
  }

  lemma ExemptionsFile(c: Codec, before: map<string, string>, a: Assessment, input: Option<string>, extras: Extras)
    ensures GivenOrKept(Sealed(c, before, a, input, extras), before, EXEMPTIONS, extras.exemptions)
  {
    NamesDiffer();
    if extras.exemptions.Some? {
      PieceIs(c, Sorted(a), input, extras);
      GivenPiece(c, before, a, input, extras, Piece(EXEMPTIONS, "applied-exemptions", extras.exemptions.value));
    } else {
      Kept(c, before, a, input, extras, EXEMPTIONS);
    }
  }

  // ----- The manifest -----

  lemma ArtifactsAppend(c: Codec, a: seq<Piece>, b: seq<Piece>)
    ensures ArtifactsOf(c, a + b) == ArtifactsOf(c, a) + ArtifactsOf(c, b)
  {
  }

  lemma OneArtifact(c: Codec, n: string, role: string, given: Option<string>)
    ensures ArtifactsOf(c, OptionalPiece(n, role, given)) == ArtifactOf(c, n, role, given)
  {
  }

  lemma ArtifactsDeclared(c: Codec, a: Assessment, input: Option<string>, extras: Extras)
    requires a.results == Canonical(a.results)
    ensures ArtifactsOf(c, Pieces(c, a, input, extras)) == DeclaredBy(c, GivenBy(c, a, input, extras))
  {
    assert a == Assessment(a.run, a.lang, Canonical(a.results));
    FiveArtifacts(c, INPUT, ASSESSMENT, OSCAL, CONFIG, EXEMPTIONS, input, c.writeAssessment(a), c.oscal(a),
                  extras.config, extras.exemptions);
  }

  lemma FiveArtifacts(c: Codec, n1: string, n2: string, n3: string, n4: string, n5: string, d1: Option<string>,
                      d2: string, d3: string, d4: Option<string>, d5: Option<string>)
    ensures ArtifactsOf(c, OptionalPiece(n1, "evaluated-input", d1)
                           + [Piece(n2, "assessment", d2), Piece(n3, "oscal-assessment-results", d3)]
                           + OptionalPiece(n4, "applied-configuration", d4)
                           + OptionalPiece(n5, "applied-exemptions", d5)) ==
            ArtifactOf(c, n1, "evaluated-input", d1) + ArtifactOf(c, n2, "assessment", Some(d2))
            + ArtifactOf(c, n3, "oscal-assessment-results", Some(d3)) + ArtifactOf(c, n4, "applied-configuration", d4)
            + ArtifactOf(c, n5, "applied-exemptions", d5)
  {
    var p1, p4, p5 := OptionalPiece(n1, "evaluated-input", d1), OptionalPiece(n4, "applied-configuration", d4),
                      OptionalPiece(n5, "applied-exemptions", d5);
    var two := [Piece(n2, "assessment", d2), Piece(n3, "oscal-assessment-results", d3)];
    ArtifactsAppend(c, p1 + two + p4, p5);
    ArtifactsAppend(c, p1 + two, p4);
    ArtifactsAppend(c, p1, two);
    OneArtifact(c, n1, "evaluated-input", d1);
    OneArtifact(c, n4, "applied-configuration", d4);
    OneArtifact(c, n5, "applied-exemptions", d5);
    TwoArtifacts(c, two[0], two[1]);
    ConcatAssociative(ArtifactsOf(c, p1), ArtifactOf(c, n2, "assessment", Some(d2)),
                      ArtifactOf(c, n3, "oscal-assessment-results", Some(d3)));
  }

  lemma TwoArtifacts(c: Codec, p: Piece, q: Piece)
    ensures ArtifactsOf(c, [p, q]) == ArtifactOf(c, p.name, p.role, Some(p.data)) + ArtifactOf(c, q.name, q.role,
                                                                                           Some(q.data))
  {
  }

  lemma FrontMultiset(a: seq<Verdict>)
    requires a != []
    ensures multiset(a[..|a| - 1]) == multiset(a) - multiset{a[|a| - 1]}
  {
    RemovedMultiset(a, |a| - 1);
    assert a[..|a| - 1] + a[|a|..] == a[..|a| - 1];
  }

  lemma Place(a: seq<Verdict>, b: seq<Verdict>, v: Verdict) returns (i: nat)
    requires multiset(a) == multiset(b) && v in a
    ensures i < |b| && b[i] == v
  {
    assert v in multiset(b);
    i :| 0 <= i < |b| && b[i] == v;
  }

  lemma {:induction false} CountSorted(a: seq<Verdict>, b: seq<Verdict>, text: string)
    requires multiset(a) == multiset(b)
    ensures CountStatus(a, text) == CountStatus(b, text)
    decreases |a|
  {
    if a == [] {
      assert |multiset(b)| == 0;
    } else {
      var i := Place(a, b, a[|a| - 1]);
      FrontMultiset(a);
      RemovedMultiset(b, i);
      CountSorted(a[..|a| - 1], b[..i] + b[i + 1..], text);
      CountWithout(b, i, text);
    }
  }

  lemma {:induction false} CountBoth(a: seq<Verdict>, b: seq<Verdict>, text: string)
    ensures CountStatus(a + b, text) == CountStatus(a, text) + CountStatus(b, text)
  {
    if b == [] {
      assert a + b == a;
    } else {
      var front, last := b[..|b| - 1], b[|b| - 1];
      CountBoth(a, front, text);
      assert (a + b)[..|a + b| - 1] == a + front;
      assert (a + b)[|a + b| - 1] == last;
    }
  }

  lemma CountWithout(b: seq<Verdict>, i: nat, text: string)
    requires i < |b|
    ensures CountStatus(b, text) ==
            CountStatus(b[..i] + b[i + 1..], text) + if StatusText(b[i].status) == text then 1 else 0
  {
    CountBoth(b[..i], b[i..], text);
    CountBoth([b[i]], b[i + 1..], text);
    CountBoth(b[..i], b[i + 1..], text);
    assert b[..i] + b[i..] == b && [b[i]] + b[i + 1..] == b[i..];
  }

  /** The positions of the verdicts of a status. */
  ghost function WithStatus(vs: seq<Verdict>, text: string): set<nat> {
    set i: nat | i < |vs| && StatusText(vs[i].status) == text
  }

  /** The count of a status is the number of verdicts that have it. */
  lemma {:induction false} CountIsNumber(vs: seq<Verdict>, text: string)
    ensures CountStatus(vs, text) == |WithStatus(vs, text)|
  {
    if vs != [] {
      var last: nat := |vs| - 1;
      CountIsNumber(vs[..last], text);
      assert WithStatus(vs, text) ==
             WithStatus(vs[..last], text) + if StatusText(vs[last].status) == text then {last} else {};
    } else {
      assert WithStatus(vs, text) == {};
    }
  }

  /** The manifest names the run and the summaries it was given, declares exactly the files that
      were, and counts the verdicts of each status. */
  lemma SealedManifest(c: Codec, before: map<string, string>, a: Assessment, input: Option<string>, extras: Extras)
    requires Lawful(c)
    ensures var files := Sealed(c, before, a, input, extras);
            && HasManifest(c, files)
            && var m := ManifestIn(c, files);
               && m.envelope == Envelope(a.run, extras.exemptionSummary, extras.configSummary)
               && m.artifacts == DeclaredBy(c, GivenBy(c, a, input, extras))
               && forall text :: GetOr(m.summary, text, 0) == |WithStatus(a.results, text)|
  {
    var sorted := Sorted(a);
    var pieces := Pieces(c, sorted, input, extras);
    var m := ManifestOf(c, sorted, extras, pieces);
    PiecesFit(c, sorted, input, extras);
    SealedHolds(c, before, pieces, c.writeManifest(m), Sealed(c, before, a, input, extras), PieceNames());
    ManifestHeld(c, Sealed(c, before, a, input, extras), pieces, m);
    CanonicalTwice(a.results);
    ArtifactsDeclared(c, sorted, input, extras);
    assert GivenBy(c, sorted, input, extras) == GivenBy(c, a, input, extras);
    forall text ensures GetOr(m.summary, text, 0) == |WithStatus(a.results, text)| {
      SummaryAt(sorted.results, text);
      CountSorted(sorted.results, a.results, text);
      CountIsNumber(a.results, text);
    }
  }

  // ----- The list of digests -----

  /** The list is that of the declared files, in their order, then of the manifest: one line
      each, the digest, two spaces and the name. */
  function ListText(artifacts: seq<Artifact>): string {
    if artifacts == [] then ""
    else
      var last := artifacts[|artifacts| - 1];
      ListText(artifacts[..|artifacts| - 1]) + (last.sha256 + "  " + last.file + "\n")
  }

  lemma {:induction false} ListOfArtifacts(c: Codec, pieces: seq<Piece>)
    ensures Printed(EntriesOf(c, pieces)) == ListText(ArtifactsOf(c, pieces))
  {
    if pieces != [] {
      var last := |pieces| - 1;
      ListOfArtifacts(c, pieces[..last]);
      EntriesAppend(c, pieces, last);
      assert pieces[..last + 1] == pieces;
      assert ArtifactsOf(c, pieces)[..last] == ArtifactsOf(c, pieces[..last]);
    }
  }

  lemma SealedList(c: Codec, before: map<string, string>, a: Assessment, input: Option<string>, extras: Extras)
    requires Lawful(c)
    ensures var files := Sealed(c, before, a, input, extras);
            && HasManifest(c, files) && CHECKSUMS in files
            && files[CHECKSUMS] ==
                 ListText(ManifestIn(c, files).artifacts) + (c.hash(files[MANIFEST]) + "  " + MANIFEST + "\n")
  {
    var sorted := Sorted(a);
    var pieces := Pieces(c, sorted, input, extras);
    var m := ManifestOf(c, sorted, extras, pieces);
    var manifest := c.writeManifest(m);
    PiecesFit(c, sorted, input, extras);
    SealedHolds(c, before, pieces, manifest, Sealed(c, before, a, input, extras), PieceNames());
    ManifestHeld(c, Sealed(c, before, a, input, extras), pieces, m);
    ListOfArtifacts(c, pieces);
    var e := Entry(c.hash(manifest), MANIFEST);
    PrintedAppend(EntriesOf(c, pieces), e);
    ConcatAssociative(Printed(EntriesOf(c, pieces)), PrintedLine(e), "\n");
    NamesDiffer();
  }

  /** What it pins: every declared file, with the digest of what the directory holds, and the
      manifest; and nothing else. */
  lemma SealedDigests(c: Codec, before: map<string, string>, a: Assessment, input: Option<string>, extras: Extras,
                      n: string)
    requires Lawful(c)
    ensures var files, g := Sealed(c, before, a, input, extras), GivenBy(c, a, input, extras);
            && HasList(files) && HasManifest(c, files)
            && (n in SumsIn(files) <==>
                  || n == ASSESSMENT || n == OSCAL || n == MANIFEST || (n == INPUT && g.input.Some?)
                  || (n == CONFIG && g.config.Some?) || (n == EXEMPTIONS && g.exemptions.Some?))
            && (n in SumsIn(files) ==> n in files && SumsIn(files)[n] == c.hash(files[n]))
  {
    var files, g := Sealed(c, before, a, input, extras), GivenBy(c, a, input, extras);
    RoundTrip(c, before, a, input, extras);
    SealedManifest(c, before, a, input, extras);
    DeclaredNames(c, g, n);
    var m := ManifestIn(c, files);
    assert n in SumsIn(files) ==> Declares(m, n) && Genuine(c, files, n, SumsIn(files)[n]);
    if n != MANIFEST {
      assert (exists x :: x in m.artifacts && x.file == n) ==> n in SumsIn(files);
    } else {
      ManifestListed(c, before, a, input, extras);
    }
  }

  lemma DeclaredNames(c: Codec, g: Given, n: string)
    ensures (exists x :: x in DeclaredBy(c, g) && x.file == n) <==>
              || n == ASSESSMENT || n == OSCAL || (n == INPUT && g.input.Some?)
              || (n == CONFIG && g.config.Some?) || (n == EXEMPTIONS && g.exemptions.Some?)
  {
    FiveDeclared(ArtifactOf(c, INPUT, "evaluated-input", g.input),
                 ArtifactOf(c, ASSESSMENT, "assessment", Some(g.assessment)),
                 ArtifactOf(c, OSCAL, "oscal-assessment-results", Some(g.oscal)),
                 ArtifactOf(c, CONFIG, "applied-configuration", g.config),
                 ArtifactOf(c, EXEMPTIONS, "applied-exemptions", g.exemptions), n);
  }

  lemma FiveDeclared(a: seq<Artifact>, b: seq<Artifact>, d: seq<Artifact>, e: seq<Artifact>, f: seq<Artifact>,
                     n: string)
    requires |a| <= 1 && |b| <= 1 && |d| <= 1 && |e| <= 1 && |f| <= 1
    ensures (exists x :: x in a + b + d + e + f && x.file == n) <==>
              || (a != [] && a[0].file == n) || (b != [] && b[0].file == n) || (d != [] && d[0].file == n)
              || (e != [] && e[0].file == n) || (f != [] && f[0].file == n)
  {
    assert forall x :: x in a + b + d + e + f <==> x in a || x in b || x in d || x in e || x in f;
    assert a != [] ==> a[0] in a;
    assert b != [] ==> b[0] in b;
    assert d != [] ==> d[0] in d;
    assert e != [] ==> e[0] in e;
    assert f != [] ==> f[0] in f;
  }

  lemma ManifestListed(c: Codec, before: map<string, string>, a: Assessment, input: Option<string>, extras: Extras)
    requires Lawful(c)
    ensures HasList(Sealed(c, before, a, input, extras)) && MANIFEST in SumsIn(Sealed(c, before, a, input, extras))
  {
    var sorted := Sorted(a);
    var pieces := Pieces(c, sorted, input, extras);
    var manifest := c.writeManifest(ManifestOf(c, sorted, extras, pieces));
    var whole, among := Whole(pieces, manifest), PieceNames() + {MANIFEST};
    PiecesFit(c, sorted, input, extras);
    WholeFits(pieces, manifest, PieceNames());
    WrittenWhole(c, before, pieces, manifest);
    ListOfPieces(c, whole, among, Sealed(c, before, a, input, extras));
    ListedPiece(c, whole, among, MANIFEST);
    assert whole[|pieces|].name == MANIFEST;
  }

  // ----- What verification asks -----

  /** The line is these two, with spaces between them. */
  ghost predicate Says(line: string, e: Entry) {
    exists blank :: Spells(line, e, blank)
  }

  ghost predicate IsEntry(line: string) {
    exists e :: Says(line, e)
  }

  lemma LineSays(line: string)
    ensures IsEntry(line) <==> Parse(line).Some?
    ensures forall e :: Says(line, e) <==> Parse(line) == Some(e)
  {
    forall e ensures Says(line, e) <==> Parse(line) == Some(e) {
      ParseExactly(line, e);
    }
    if Parse(line).Some? {
      assert Says(line, Parse(line).value);
    }
  }

  /** A line of the list gives this digest for a name. */
  ghost predicate Lists(text: string, n: string, digest: string) {
    exists line :: line in Lines(text) && Says(line, Entry(digest, n))
  }

  lemma {:induction false} SumsSay(lines: seq<string>, n: string, digest: string)
    requires Legible(lines)
    ensures n in Sums(lines) && Sums(lines)[n] == digest <==>
              exists i :: 0 <= i < |lines| && Parse(lines[i]) == Some(Entry(digest, n))
  {
    if lines != [] {
      SumsSay(lines[..|lines| - 1], n, digest);
    }
  }

  lemma ListSays(text: string, n: string, digest: string)
    requires Legible(Lines(text))
    ensures n in Sums(Lines(text)) && Sums(Lines(text))[n] == digest <==> Lists(text, n, digest)
  {
    var lines := Lines(text);
    SumsSay(lines, n, digest);
    if i: nat :| i < |lines| && Parse(lines[i]) == Some(Entry(digest, n)) {
      LineSays(lines[i]);
      assert lines[i] in lines;
    }
    if line :| line in lines && Says(line, Entry(digest, n)) {
      LineSays(line);
      var i: nat :| i < |lines| && lines[i] == line;
    }
  }

  predicate Plain(n: string) {
    n == "/" || (n != "" && '/' !in n && n != "." && n != "..")
  }

  /** Every line of the list is a digest and a name, no two lines have the same name, and there is
      one. */
  ghost predicate ReadableList(lines: seq<string>) {
    && lines != []
    && (forall line :: line in lines ==> IsEntry(line))
    && forall i, j, e, f :: (0 <= i < j < |lines| && Says(lines[i], e) && Says(lines[j], f)) ==> e.name != f.name
  }

  lemma {:induction false} SumsEmpty(lines: seq<string>)
    requires Legible(lines)
    ensures Sums(lines) == map[] <==> lines == []
  {
    if lines != [] {
      var e := Parse(lines[0]).value;
      SumsSay(lines, e.name, e.sum);
    }
  }

  lemma LegibleReads(lines: seq<string>)
    requires Legible(lines) && lines != []
    ensures ReadableList(lines)
  {
    forall line | line in lines ensures IsEntry(line) {
      LineSays(line);
    }
    forall i, j, e, f | 0 <= i < j < |lines| && Says(lines[i], e) && Says(lines[j], f) ensures e.name != f.name {
      LineSays(lines[i]);
      LineSays(lines[j]);
    }
  }

  lemma ReadableIsLegible(lines: seq<string>)
    requires ReadableList(lines)
    ensures Legible(lines)
  {
    forall i | 0 <= i < |lines| ensures Parse(lines[i]).Some? && Says(lines[i], Parse(lines[i]).value) {
      assert lines[i] in lines;
      LineSays(lines[i]);
    }
  }

  lemma LegibleMeans(lines: seq<string>)
    ensures Legible(lines) && Sums(lines) != map[] <==> ReadableList(lines)
  {
    if Legible(lines) {
      SumsEmpty(lines);
      if lines != [] {
        LegibleReads(lines);
      }
    }
    if ReadableList(lines) {
      ReadableIsLegible(lines);
    }
  }

  /** The files agree with the list and with the manifest. */
  ghost predicate Agree(c: Codec, files: map<string, string>, text: string, m: Manifest) {
    && (forall a :: a in m.artifacts ==> exists d :: Lists(text, a.file, d))
    && (forall n, d :: Lists(text, n, d) ==>
          && (n == MANIFEST || exists a :: a in m.artifacts && a.file == n)
          && Plain(n) && n in files && c.hash(files[n]) == d)
    && (forall a :: a in m.artifacts ==> a.file in files && a.bytes == |files[a.file]|)
  }

  /** Every count the manifest announces is the number of verdicts of the assessment that have the
      status, and every status of the assessment is announced; unless it announces nothing. */
  ghost predicate CountsAgree(c: Codec, files: map<string, string>, m: Manifest) {
    m.summary == map[] ||
    (ASSESSMENT in files && c.readAssessment(files[ASSESSMENT]).Some? &&
     forall text :: GetOr(m.summary, text, 0) ==
                    |WithStatus(c.readAssessment(files[ASSESSMENT]).value.results, text)|)
  }

  lemma AllListedMeans(text: string, m: Manifest)
    requires Legible(Lines(text))
    ensures AllListed(Sums(Lines(text)), m) <==> forall a :: a in m.artifacts ==> exists d :: Lists(text, a.file, d)
  {
    var sums := Sums(Lines(text));
    forall a | a in m.artifacts ensures a.file in sums <==> exists d :: Lists(text, a.file, d) {
      InSums(text, a.file);
    }
  }

  lemma InSums(text: string, n: string)
    requires Legible(Lines(text))
    ensures n in Sums(Lines(text)) <==> exists d :: Lists(text, n, d)
  {
    if n in Sums(Lines(text)) {
      ListSays(text, n, Sums(Lines(text))[n]);
    }
    if d :| Lists(text, n, d) {
      ListSays(text, n, d);
    }
  }

  lemma DeclaredMeans(c: Codec, files: map<string, string>, m: Manifest, n: string, d: string)
    ensures Declares(m, n) && Genuine(c, files, n, d) <==>
              && (n == MANIFEST || exists a :: a in m.artifacts && a.file == n)
              && Plain(n) && n in files && c.hash(files[n]) == d
  {
    PlainNameExactly(n);
  }

  lemma AllGenuineMeans(c: Codec, files: map<string, string>, text: string, m: Manifest)
    requires Legible(Lines(text))
    ensures var sums := Sums(Lines(text));
            AllDeclared(sums, m) && AllGenuine(c, files, sums) <==>
            forall n, d :: Lists(text, n, d) ==>
              && (n == MANIFEST || exists a :: a in m.artifacts && a.file == n)
              && Plain(n) && n in files && c.hash(files[n]) == d
  {
    var sums := Sums(Lines(text));
    forall n, d ensures Lists(text, n, d) <==> n in sums && sums[n] == d {
      ListSays(text, n, d);
    }
    forall n, d ensures Declares(m, n) && Genuine(c, files, n, d) <==>
                          && (n == MANIFEST || exists a :: a in m.artifacts && a.file == n)
                          && Plain(n) && n in files && c.hash(files[n]) == d
    {
      DeclaredMeans(c, files, m, n, d);
    }
    assert forall n :: n in sums ==> Lists(text, n, sums[n]);
  }

  lemma SizesMean(files: map<string, string>, m: Manifest)
    requires forall a :: a in m.artifacts ==> PlainName(a.file)
    ensures SizesAgree(files, m) <==> forall a :: a in m.artifacts ==> a.file in files && a.bytes == |files[a.file]|
  {
  }

  lemma PlainOnes(c: Codec, files: map<string, string>, sums: map<string, string>, m: Manifest)
    requires AllListed(sums, m) && AllGenuine(c, files, sums)
    ensures forall a :: a in m.artifacts ==> PlainName(a.file)
  {
    forall a | a in m.artifacts ensures PlainName(a.file) {
      assert Genuine(c, files, a.file, sums[a.file]);
    }
  }

  lemma AgreeMeans(c: Codec, files: map<string, string>, text: string, sums: map<string, string>, m: Manifest)
    requires Legible(Lines(text)) && sums == Sums(Lines(text))
    ensures AllListed(sums, m) && AllDeclared(sums, m) && AllGenuine(c, files, sums) && SizesAgree(files, m) <==>
            Agree(c, files, text, m)
  {
    AllListedMeans(text, m);
    AllGenuineMeans(c, files, text, m);
    if AllListed(sums, m) && AllGenuine(c, files, sums) {
      PlainOnes(c, files, sums, m);
      SizesMean(files, m);
    }
  }

  lemma CountsMean(c: Codec, files: map<string, string>, m: Manifest)
    ensures SummaryAgrees(c, files, m) <==> CountsAgree(c, files, m)
  {
    if ASSESSMENT in files && c.readAssessment(files[ASSESSMENT]).Some? {
      var vs := c.readAssessment(files[ASSESSMENT]).value.results;
      forall text ensures CountStatus(vs, text) == |WithStatus(vs, text)| {
        CountIsNumber(vs, text);
      }
    }
  }

  /** A directory is accepted exactly when its list can be read, its manifest can be read, and the
      files agree with both, and the counts with the assessment. */
  lemma AcceptanceMeans(c: Codec, files: map<string, string>)
    ensures Accepts(c, files) <==>
              && CHECKSUMS in files && ReadableList(Lines(files[CHECKSUMS]))
              && MANIFEST in files && c.readManifest(files[MANIFEST]).Some?
              && var m := c.readManifest(files[MANIFEST]).value;
                 Agree(c, files, files[CHECKSUMS], m) && CountsAgree(c, files, m)
  {
    if CHECKSUMS in files {
      LegibleMeans(Lines(files[CHECKSUMS]));
      if Legible(Lines(files[CHECKSUMS])) && HasManifest(c, files) {
        AgreeMeans(c, files, files[CHECKSUMS], SumsIn(files), ManifestIn(c, files));
        CountsMean(c, files, ManifestIn(c, files));
      }
    }
  }
}
