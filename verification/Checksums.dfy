/** The list of digests of a bundle (internal/assess/bundle.go): its printer, its two
    parsers, and the names it may hold. Bytes are modelled as characters. */
module Checksums {
  import opened Wrappers

  // ----- Lines -----

  /** The position of the first c, the length when there is none. */
  function Until(s: string, c: char): (i: nat)
    ensures i <= |s|
    ensures i < |s| ==> s[i] == c
    ensures forall k :: 0 <= k < i ==> s[k] != c
  {
    if s == [] || s[0] == c then 0 else 1 + Until(s[1..], c)
  }

  /** The lines of a text; a last line without its end counts when it is not empty. */
  function Lines(s: string): seq<string> {
    if s == [] then []
    else
      var i := Until(s, '\n');
      if i == |s| then [s] else [s[..i]] + Lines(s[i + 1..])
  }

  lemma UntilIs(s: string, c: char, i: nat)
    requires i <= |s| && (forall k :: 0 <= k < i ==> s[k] != c) && (i < |s| ==> s[i] == c)
    ensures Until(s, c) == i
  {
  }

  lemma LinesStep(s: string, i: nat)
    requires i < |s| && (forall k :: 0 <= k < i ==> s[k] != '\n') && s[i] == '\n'
    ensures Lines(s) == [s[..i]] + Lines(s[i + 1..])
  {
  }

  /** Lines as a text, each with its end. */
  function Ended(lines: seq<string>): string {
    if lines == [] then "" else Ended(lines[..|lines| - 1]) + (lines[|lines| - 1] + "\n")
  }

  predicate AreLines(lines: seq<string>) {
    forall line :: line in lines ==> '\n' !in line
  }

  lemma EndedAppend(lines: seq<string>, line: string)
    ensures Ended(lines + [line]) == Ended(lines) + (line + "\n")
  {
    assert (lines + [line])[..|lines|] == lines;
  }

  lemma PrintedHead(line: string, rest: string)
    requires '\n' !in line
    ensures Lines(line + "\n" + rest) == [line] + Lines(rest)
  {
    var s := line + "\n" + rest;
    assert s[..|line|] == line && s[|line|] == '\n' && s[|line| + 1..] == rest;
    LinesStep(s, |line|);
  }

  lemma EndedLast(lines: seq<string>, rest: string)
    requires lines != []
    ensures Ended(lines) + rest == Ended(lines[..|lines| - 1]) + (lines[|lines| - 1] + "\n" + rest)
  {
    ConcatAssociative(Ended(lines[..|lines| - 1]), lines[|lines| - 1] + "\n", rest);
  }

  lemma LastAgain(lines: seq<string>)
    requires lines != []
    ensures lines == lines[..|lines| - 1] + [lines[|lines| - 1]]
  {
  }

  /** Splitting gives back the lines that end a text, then those of what follows. */
  lemma {:induction false} LinesOfEnded(lines: seq<string>, rest: string)
    requires AreLines(lines)
    ensures Lines(Ended(lines) + rest) == lines + Lines(rest)
  {
    if lines == [] {
      assert "" + rest == rest;
    } else {
      var before, last := lines[..|lines| - 1], lines[|lines| - 1];
      var tail := last + "\n" + rest;
      EndedLast(lines, rest);
      LinesOfEnded(before, tail);
      assert Lines(tail) == [last] + Lines(rest) by { PrintedHead(last, rest); }
      LastAgain(lines);
      ConcatAssociative(before, [last], Lines(rest));
    }
  }

  lemma LastLine(lines: seq<string>, rest: string)
    requires AreLines(lines) && '\n' !in rest
    ensures Lines(Ended(lines) + rest) == if rest == "" then lines else lines + [rest]
  {
    LinesOfEnded(lines, rest);
    UntilIs(rest, '\n', |rest|);
  }

  /** Another line is complete. */
  lemma CutLine(s: string, start: nat, i: nat, out: seq<string>)
    requires start <= i < |s| && s[i] == '\n' && Ended(out) == s[..start]
    ensures Ended(out + [s[start..i]]) == s[..i + 1]
  {
    EndedAppend(out, s[start..i]);
    assert s[start..i] + "\n" == s[start..i + 1];
    assert s[..i + 1] == s[..start] + s[start..i + 1];
  }

  lemma OneMore(s: string, start: nat, i: nat)
    requires start <= i < |s| && '\n' !in s[start..i] && s[i] != '\n'
    ensures '\n' !in s[start..i + 1]
  {
    assert s[start..i + 1] == s[start..i] + [s[i]];
  }

  method SplitLines(s: string) returns (out: seq<string>)
    ensures out == Lines(s)
  {
    out := [];
    var start := 0;
    for i := 0 to |s|
      invariant start <= i
      invariant '\n' !in s[start..i] && AreLines(out) && Ended(out) == s[..start]
    {
      if s[i] == '\n' {
        CutLine(s, start, i, out);
        out := out + [s[start..i]];
        start := i + 1;
      } else {
        OneMore(s, start, i);
      }
    }
    assert s[..start] + s[start..] == s && s[start..|s|] == s[start..];
    LastLine(out, s[start..]);
    if start < |s| {
      out := out + [s[start..]];
    }
  }

  // ----- One line -----

  function PastSpaces(s: string): (i: nat)
    ensures i <= |s|
    ensures i < |s| ==> s[i] != ' '
    ensures forall k :: 0 <= k < i ==> s[k] == ' '
  {
    if s == [] || s[0] != ' ' then 0 else 1 + PastSpaces(s[1..])
  }

  datatype Entry = Entry(sum: string, name: string)

  /** A digest, at least one space, a name. */
  function Parse(line: string): Option<Entry> {
    var i := Until(line, ' ');
    if i == 0 || i == |line| then None
    else
      var j := i + PastSpaces(line[i..]);
      if j == |line| then None else Some(Entry(line[..i], line[j..]))
  }

  lemma PastSpacesIs(s: string, i: nat)
    requires i <= |s| && (i < |s| ==> s[i] != ' ') && forall k :: 0 <= k < i ==> s[k] == ' '
    ensures PastSpaces(s) == i
  {
  }

  method ParseChecksum(line: string) returns (r: Option<Entry>)
    ensures r == Parse(line)
  {
    var i := 0;
    while i < |line| && line[i] != ' '
      invariant i <= |line|
      invariant forall k :: 0 <= k < i ==> line[k] != ' '
    {
      i := i + 1;
    }
    UntilIs(line, ' ', i);
    if i == 0 || i >= |line| {
      return None;
    }
    var sum := line[..i];
    ghost var first := i;
    while i < |line| && line[i] == ' '
      invariant first <= i <= |line|
      invariant forall k :: first <= k < i ==> line[k] == ' '
    {
      i := i + 1;
    }
    PastSpacesIs(line[first..], i - first);
    var name := line[i..];
    return if sum != "" && name != "" then Some(Entry(sum, name)) else None;
  }

  predicate IsSum(s: string) {
    s != "" && ' ' !in s && '\n' !in s
  }

  predicate IsName(s: string) {
    s != "" && s[0] != ' ' && '\n' !in s
  }

  ghost predicate Blank(s: string) {
    s != "" && forall k :: 0 <= k < |s| ==> s[k] == ' '
  }

  /** A digest, some spaces and a name. */
  ghost predicate Spells(line: string, e: Entry, blank: string) {
    && e.sum != "" && ' ' !in e.sum && e.name != "" && e.name[0] != ' '
    && Blank(blank) && line == e.sum + blank + e.name
  }

  /** A line is read as a digest and a name exactly when it is one, some spaces, the other;
      there is no other way to read it. */
  lemma ParseExactly(line: string, e: Entry)
    ensures Parse(line) == Some(e) <==> exists blank :: Spells(line, e, blank)
  {
    if Parse(line) == Some(e) {
      var i := |e.sum|;
      var j := i + PastSpaces(line[i..]);
      var blank := line[i..j];
      assert forall k :: 0 <= k < |blank| ==> blank[k] == line[i..][k];
      assert PastSpaces(line[i..]) != 0 by {
        assert line[i..][0] == ' ';
      }
      assert Spells(line, e, blank);
    }
    if blank :| Spells(line, e, blank) {
      ParseSpelled(e, blank);
    }
  }

  lemma ParseSpelled(e: Entry, blank: string)
    requires e.sum != "" && ' ' !in e.sum && e.name != "" && e.name[0] != ' ' && Blank(blank)
    ensures Parse(e.sum + blank + e.name) == Some(e)
  {
    var line := e.sum + blank + e.name;
    var i := |e.sum|;
    assert line[..i] == e.sum && line[i] == blank[0];
    UntilIs(line, ' ', i);
    assert line[i..] == blank + e.name;
    PastSpacesIs(line[i..], |blank|);
    assert line[i + |blank|..] == e.name;
  }

  // ----- Printing -----

  function PrintedLine(e: Entry): string {
    e.sum + "  " + e.name
  }

  function Printed(es: seq<Entry>): string {
    if es == [] then "" else PrintedLine(es[0]) + "\n" + Printed(es[1..])
  }

  lemma {:induction false} PrintedAppend(es: seq<Entry>, e: Entry)
    ensures Printed(es + [e]) == Printed(es) + PrintedLine(e) + "\n"
  {
    if es == [] {
      assert (es + [e])[1..] == [];
    } else {
      assert (es + [e])[1..] == es[1..] + [e];
      PrintedAppend(es[1..], e);
    }
  }

  ghost predicate Printable(es: seq<Entry>) {
    forall e :: e in es ==> IsSum(e.sum) && IsName(e.name)
  }

  function LinesOf(es: seq<Entry>): (r: seq<string>)
    ensures |r| == |es| && forall i :: 0 <= i < |es| ==> r[i] == PrintedLine(es[i])
  {
    seq(|es|, i requires 0 <= i < |es| => PrintedLine(es[i]))
  }

  /** The lines of a printed list are its printed entries. */
  lemma {:induction false} LinesOfPrinted(es: seq<Entry>)
    requires Printable(es)
    ensures Lines(Printed(es)) == LinesOf(es)
  {
    if es != [] {
      assert es[0] in es;
      PrintedHead(PrintedLine(es[0]), Printed(es[1..]));
      LinesOfPrinted(es[1..]);
      LinesOfTail(es);
    }
  }

  lemma LinesOfTail(es: seq<Entry>)
    requires es != []
    ensures LinesOf(es) == [PrintedLine(es[0])] + LinesOf(es[1..])
  {
  }

  /** And each is read back as it was. */
  lemma PrintedParses(e: Entry)
    requires IsSum(e.sum) && IsName(e.name)
    ensures Parse(PrintedLine(e)) == Some(e)
  {
    ParseSpelled(e, "  ");
  }

  // ----- Reading the whole list -----

  ghost predicate Legible(lines: seq<string>) {
    && (forall i :: 0 <= i < |lines| ==> Parse(lines[i]).Some?)
    && (forall i, j :: 0 <= i < j < |lines| && Parse(lines[i]).Some? && Parse(lines[j]).Some? ==>
          Parse(lines[i]).value.name != Parse(lines[j]).value.name)
  }

  /** The digest of each name. */
  function Sums(lines: seq<string>): map<string, string> {
    if lines == [] then map[]
    else
      var sums := Sums(lines[..|lines| - 1]);
      match Parse(lines[|lines| - 1])
      case Some(e) => sums[e.name := e.sum]
      case None => sums
  }

  lemma {:induction false} SumsKeys(lines: seq<string>, name: string)
    ensures name in Sums(lines) <==>
              exists i :: 0 <= i < |lines| && Parse(lines[i]).Some? && Parse(lines[i]).value.name == name
  {
    if lines != [] {
      SumsKeys(lines[..|lines| - 1], name);
    }
  }

  lemma {:induction false} SumsAreSums(lines: seq<string>)
    ensures forall n :: n in Sums(lines) ==> Sums(lines)[n] != "" && ' ' !in Sums(lines)[n]
  {
    if lines != [] {
      SumsAreSums(lines[..|lines| - 1]);
      var e := Parse(lines[|lines| - 1]);
      if e.Some? {
        ParseExactly(lines[|lines| - 1], e.value);
      }
    }
  }

  datatype ListError = Illegible(line: nat) | ListedTwice(name: string)

  lemma LegibleStep(lines: seq<string>, line: string)
    requires Legible(lines)
    ensures Legible(lines + [line]) <==> Parse(line).Some? && Parse(line).value.name !in Sums(lines)
    ensures Parse(line).Some? ==> Sums(lines + [line]) == Sums(lines)[Parse(line).value.name := Parse(line).value.sum]
  {
    var more := lines + [line];
    assert more[..|lines|] == lines;
    assert more[|lines|] == line;
    if Parse(line).Some? {
      SumsKeys(lines, Parse(line).value.name);
      if Parse(line).value.name in Sums(lines) {
        var i :| 0 <= i < |lines| && Parse(lines[i]).Some? && Parse(lines[i]).value.name == Parse(line).value.name;
        assert more[i] == lines[i];
      }
    }
  }

  lemma LegiblePrefix(lines: seq<string>, n: nat)
    requires Legible(lines) && n <= |lines|
    ensures Legible(lines[..n])
  {
  }

  method ReadList(text: string) returns (r: Result<map<string, string>, ListError>)
    ensures r.Success? <==> Legible(Lines(text))
    ensures r.Success? ==> r.value == Sums(Lines(text))
  {
    var lines := SplitLines(text);
    var sums: map<string, string> := map[];
    for i := 0 to |lines|
      invariant Legible(lines[..i])
      invariant sums == Sums(lines[..i])
    {
      assert lines[..i + 1] == lines[..i] + [lines[i]];
      LegibleStep(lines[..i], lines[i]);
      var e := ParseChecksum(lines[i]);
      if e.None? {
        if Legible(lines) {
          LegiblePrefix(lines, i + 1);
        }
        return Failure(Illegible(i + 1));
      }
      if e.value.name in sums {
        if Legible(lines) {
          LegiblePrefix(lines, i + 1);
        }
        return Failure(ListedTwice(e.value.name));
      }
      sums := sums[e.value.name := e.value.sum];
    }
    assert lines[..|lines|] == lines;
    return Success(sums);
  }

  /** The digests of a list of entries. */
  function Listed(es: seq<Entry>): map<string, string> {
    if es == [] then map[] else Listed(es[..|es| - 1])[es[|es| - 1].name := es[|es| - 1].sum]
  }

  ghost predicate DistinctNames(es: seq<Entry>) {
    forall i, j :: 0 <= i < j < |es| ==> es[i].name != es[j].name
  }

  lemma {:induction false} ListedAt(es: seq<Entry>, name: string)
    requires DistinctNames(es)
    ensures name in Listed(es) <==> exists i :: 0 <= i < |es| && es[i].name == name
    ensures forall i :: 0 <= i < |es| && es[i].name == name ==> name in Listed(es) && Listed(es)[name] == es[i].sum
  {
    if es != [] {
      ListedAt(es[..|es| - 1], name);
    }
  }

  lemma {:induction false} SumsOfPrinted(es: seq<Entry>, lines: seq<string>)
    requires Printable(es) && lines == LinesOf(es)
    ensures Sums(lines) == Listed(es)
  {
    if es != [] {
      var last := |es| - 1;
      SumsOfPrinted(es[..last], lines[..last]);
      PrintedParses(es[last]);
    }
  }

  /** Reading what was printed gives back the entries: the two loops of the reader invert
      the printer. */
  lemma ListRoundTrip(es: seq<Entry>)
    requires Printable(es) && DistinctNames(es)
    ensures Legible(Lines(Printed(es))) && Sums(Lines(Printed(es))) == Listed(es)
  {
    LinesOfPrinted(es);
    var lines := LinesOf(es);
    forall i | 0 <= i < |lines| ensures Parse(lines[i]) == Some(es[i]) {
      assert es[i] in es;
      PrintedParses(es[i]);
    }
    SumsOfPrinted(es, lines);
  }

  // ----- Names -----

  function StripSlashes(s: string): string {
    if s != "" && s[|s| - 1] == '/' then StripSlashes(s[..|s| - 1]) else s
  }

  function AfterLastSlash(s: string): string {
    if s == "" || s[|s| - 1] == '/' then "" else AfterLastSlash(s[..|s| - 1]) + [s[|s| - 1]]
  }

  /** The last element of a path. */
  function Base(s: string): string {
    if s == "" then "."
    else
      var b := AfterLastSlash(StripSlashes(s));
      if b == "" then "/" else b
  }

  predicate PlainName(s: string) {
    s == Base(s) && s != "." && s != ".."
  }

  lemma {:induction false} AfterSlashHasNone(s: string)
    ensures '/' !in AfterLastSlash(s)
    ensures '/' !in s ==> AfterLastSlash(s) == s
  {
    if s != "" && s[|s| - 1] != '/' {
      AfterSlashHasNone(s[..|s| - 1]);
      assert s == s[..|s| - 1] + [s[|s| - 1]];
    }
  }

  /** The guard lets through the names without a slash, and the slash alone. */
  lemma PlainNameExactly(s: string)
    ensures PlainName(s) <==> s == "/" || (s != "" && '/' !in s && s != "." && s != "..")
  {
    AfterSlashHasNone(StripSlashes(s));
    if s == "/" {
      assert s[..|s| - 1] == "";
      assert StripSlashes("") == "";
    } else if s != "" && '/' !in s {
      assert s[|s| - 1] in s;
      assert StripSlashes(s) == s;
    }
  }
}
