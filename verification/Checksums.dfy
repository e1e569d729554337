/** The SHA256SUMS manifest, written and read back, and the changelog section of a release. */
module Checksums {
  import opened Text

  /** A distribution file and the digest of its content. */
  datatype DistFile = DistFile(name: string, digest: string)

  datatype Parsed = Parsed(sums: map<string, string>) | Malformed(line: string)

  predicate IsHex(c: char) { '0' <= c <= '9' || 'a' <= c <= 'f' }

  lemma HexDigits(c: char)
    ensures IsHex(c) <==> c in "0123456789abcdef"
  {}

  predicate IsDigest(s: string) { |s| == 64 && forall i :: 0 <= i < 64 ==> IsHex(s[i]) }

  /** A name the manifest can carry: not empty, no slash, no line break. */
  predicate IsPlainName(s: string) { s != [] && '/' !in s && NoBreak(s) }

  function LineOf(f: DistFile): string { f.digest + "  " + f.name }

  function Manifest(files: seq<DistFile>): string
  {
    if files == [] then [] else LineOf(files[0]) + "\n" + Manifest(files[1..])
  }

  /** `([0-9a-f]{64})  ([^/]+)` over the whole line. */
  predicate WellFormed(line: string)
  {
    && |line| > 66 && IsDigest(line[..64]) && line[64..66] == "  " && '/' !in line[66..]
  }

  /** A line of the form is a digest, two blanks and a name without a slash. */
  lemma LineForms(line: string)
    ensures WellFormed(line) <==>
            exists digest, name :: IsDigest(digest) && name != [] && '/' !in name && line == digest + "  " + name
  {
    if WellFormed(line) {
      assert line == line[..64] + "  " + line[66..];
    }
    if digest, name :| IsDigest(digest) && name != [] && '/' !in name && line == digest + "  " + name {
      assert line[..64] == digest && line[64..66] == "  " && line[66..] == name;
    }
  }

  function SumsOf(files: seq<DistFile>): map<string, string>
  {
    if files == [] then map[] else SumsOf(files[..|files| - 1])[files[|files| - 1].name := files[|files| - 1].digest]
  }

  function SumsOfLines(lines: seq<string>): map<string, string>
    requires forall l :: l in lines ==> WellFormed(l)
  {
    if lines == [] then map[]
    else
      var l := lines[|lines| - 1];
      assert l in lines && WellFormed(l);
      SumsOfLines(lines[..|lines| - 1])[l[66..] := l[..64]]
  }

  lemma NoSums(lines: seq<string>)
    requires lines == []
    ensures SumsOfLines(lines) == map[]
  {}

  lemma SumsOfLinesSnoc(lines: seq<string>, l: string)
    requires WellFormed(l) && forall m :: m in lines ==> WellFormed(m)
    ensures SumsOfLines(lines + [l]) == SumsOfLines(lines)[l[66..] := l[..64]]
  {
    assert (lines + [l])[..|lines|] == lines;
  }

  predicate Records(line: string, name: string) { |line| > 66 && line[66..] == name }

  lemma SplitLast(lines: seq<string>)
    requires lines != [] && forall l :: l in lines ==> WellFormed(l)
    ensures var front, last := lines[..|lines| - 1], lines[|lines| - 1];
            && lines == front + [last] && WellFormed(last) && (forall l :: l in front ==> WellFormed(l))
            && (forall name :: Records(last, name) <==> last[66..] == name)
            && SumsOfLines(lines) == SumsOfLines(front)[last[66..] := last[..64]]
  {}

  /** The names that are recorded are those that some line holds. */
  lemma {:induction false} RecordedNames(lines: seq<string>, name: string)
    requires forall l :: l in lines ==> WellFormed(l)
    ensures name in SumsOfLines(lines) <==> exists l :: l in lines && Records(l, name)
  {
    if lines == [] {
      NoSums(lines);
    } else {
      var front, last := lines[..|lines| - 1], lines[|lines| - 1];
      SplitLast(lines);
      hide WellFormed, Records, SumsOfLines;
      RecordedNames(front, name);
      assert forall l :: l in lines <==> l in front || l == last;
      assert last[66..] == name <==> Records(last, name);
    }
  }

  /** Of several lines for one name the last counts. */
  lemma {:induction false} LastLineCounts(lines: seq<string>, name: string, i: nat)
    requires forall l :: l in lines ==> WellFormed(l)
    requires i < |lines| && Records(lines[i], name) && forall j :: i < j < |lines| ==> !Records(lines[j], name)
    ensures name in SumsOfLines(lines) && SumsOfLines(lines)[name] == lines[i][..64]
  {
    SplitLast(lines);
    hide WellFormed, SumsOfLines;
    if i < |lines| - 1 { LastLineCounts(lines[..|lines| - 1], name, i); }
  }

  /** The reader: it stops at the first line that does not have the form. */
  method ReadSums(content: string) returns (r: Parsed)
    ensures r.Parsed? <==> forall l :: l in SplitLines(ReadText(content)) ==> WellFormed(l)
    ensures r.Parsed? ==> r.sums == SumsOfLines(SplitLines(ReadText(content)))
    ensures r.Malformed? ==> r.line in SplitLines(ReadText(content)) && !WellFormed(r.line)
  {
    hide SumsOfLines, IsDigest, SplitLines, ReadText;
    var lines := SplitLines(ReadText(content));
    assert SumsOfLines(lines[..0]) == map[] by { NoSums(lines[..0]); }
    var expected: map<string, string> := map[];
    for n := 0 to |lines|
      invariant forall l :: l in lines[..n] ==> WellFormed(l)
      invariant expected == SumsOfLines(lines[..n])
    {
      var line := lines[n];
      if !WellFormed(line) {
        return Malformed(line);
      }
      assert lines[..n + 1] == lines[..n] + [line];
      SumsOfLinesSnoc(lines[..n], line);
      expected := expected[line[66..] := line[..64]];
    }
    assert lines[..|lines|] == lines;
    return Parsed(expected);
  }

  // ---------------------------------------------------------------------------------------------

  function Lines(files: seq<DistFile>): seq<string>
  {
    if files == [] then [] else [LineOf(files[0])] + Lines(files[1..])
  }

  predicate Writable(f: DistFile) { IsDigest(f.digest) && IsPlainName(f.name) }

  lemma WritableLine(f: DistFile)
    requires Writable(f)
    ensures WellFormed(LineOf(f)) && LineOf(f)[..64] == f.digest && LineOf(f)[66..] == f.name
    ensures NoBreak(LineOf(f))
  {
    var l := LineOf(f);
    assert l[..64] == f.digest && l[64..66] == "  " && l[66..] == f.name;
    forall i | 0 <= i < |l| ensures !IsBreak(l[i]) {
      if i < 64 { assert l[i] == f.digest[i]; } else if i >= 66 { assert l[i] == f.name[i - 66]; }
    }
  }

  lemma {:induction false} ManifestSplits(files: seq<DistFile>)
    requires forall f :: f in files ==> Writable(f)
    ensures SplitLines(Manifest(files)) == Lines(files) && '\r' !in Manifest(files)
  {
    if files != [] {
      WritableLine(files[0]);
      assert forall f :: f in files[1..] ==> f in files;
      ManifestSplits(files[1..]);
      SplitCons(LineOf(files[0]), Manifest(files[1..]));
      assert '\r' !in LineOf(files[0]);
    }
  }

  lemma {:induction false} LinesSnoc(files: seq<DistFile>, f: DistFile)
    ensures Lines(files + [f]) == Lines(files) + [LineOf(f)]
  {
    if files == [] {
      assert (files + [f])[1..] == [];
    } else {
      LinesSnoc(files[1..], f);
      assert (files + [f])[1..] == files[1..] + [f];
    }
  }

  lemma {:induction false} LinesCarrySums(files: seq<DistFile>)
    requires forall f :: f in files ==> Writable(f)
    ensures forall l :: l in Lines(files) ==> WellFormed(l)
    ensures SumsOfLines(Lines(files)) == SumsOf(files)
  {
    if files != [] {
      var front, last := files[..|files| - 1], files[|files| - 1];
      assert files == front + [last];
      LinesCarrySums(front);
      LinesSnoc(front, last);
      WritableLine(last);
      assert Lines(files)[..|Lines(files)| - 1] == Lines(front);
    }
  }

  lemma {:induction false} ReadKeysArePlain(lines: seq<string>)
    requires forall l :: l in lines ==> WellFormed(l) && NoBreak(l)
    ensures forall k :: k in SumsOfLines(lines) ==> IsPlainName(k) && IsDigest(SumsOfLines(lines)[k])
  {
    if lines != [] {
      ReadKeysArePlain(lines[..|lines| - 1]);
      var l := lines[|lines| - 1];
      assert l in lines;
    }
  }

  lemma {:induction false} SumsHold(files: seq<DistFile>, f: DistFile)
    requires f in files && forall g, h :: g in files && h in files && g.name == h.name ==> g == h
    ensures f.name in SumsOf(files) && SumsOf(files)[f.name] == f.digest
  {
    var front, last := files[..|files| - 1], files[|files| - 1];
    if f != last {
      assert f in front;
      SumsHold(front, f);
    }
  }

  /** Reading undoes writing exactly when every file name can stand on a line of its own. */
  lemma ManifestRoundTrip(files: seq<DistFile>)
    requires forall g, h :: g in files && h in files && g.name == h.name ==> g == h
    requires forall f :: f in files ==> IsDigest(f.digest)
    ensures var lines := SplitLines(ReadText(Manifest(files)));
            ((forall l :: l in lines ==> WellFormed(l)) && SumsOfLines(lines) == SumsOf(files))
            <==> forall f :: f in files ==> IsPlainName(f.name)
  {
    var lines := SplitLines(ReadText(Manifest(files)));
    if forall f :: f in files ==> IsPlainName(f.name) {
      ManifestSplits(files);
      ReadTextIdentity(Manifest(files));
      LinesCarrySums(files);
    }
    if (forall l :: l in lines ==> WellFormed(l)) && SumsOfLines(lines) == SumsOf(files) {
      ReadKeysArePlain(lines);
      forall f | f in files ensures IsPlainName(f.name) { SumsHold(files, f); }
    }
  }

  datatype Complaint = NamesDiffer | DigestDiffers(name: string)

  /** Verification of the current files against the recorded map: one complaint about the names, and one
      for each current file whose recorded digest is another. */
  method VerifySums(expected: map<string, string>, actual: seq<DistFile>) returns (errors: seq<Complaint>)
    requires forall g, h :: g in actual && h in actual && g.name == h.name ==> g == h
    ensures errors == [] <==> expected == SumsOf(actual)
    ensures NamesDiffer in errors <==> expected.Keys != set f | f in actual :: f.name
    ensures forall name :: DigestDiffers(name) in errors <==>
              exists f :: f in actual && f.name == name && name in expected && expected[name] != f.digest
  {
    errors := [];
    var names := set f | f in actual :: f.name;
    if expected.Keys != names {
      errors := [NamesDiffer];
    }
    for n := 0 to |actual|
      invariant NamesDiffer in errors <==> expected.Keys != names
      invariant forall name :: DigestDiffers(name) in errors <==> Differs(expected, actual[..n], name)
    {
      var f := actual[n];
      assert actual[..n + 1] == actual[..n] + [f];
      if f.name in expected && expected[f.name] != f.digest {
        errors := errors + [DigestDiffers(f.name)];
      }
    }
    assert actual[..|actual|] == actual;
    NoDifferenceIsEqual(expected, actual);
    if errors != [] {
      assert errors[0] in errors && (errors[0] == NamesDiffer || errors[0] == DigestDiffers(errors[0].name));
    }
  }

  lemma NoDifferenceIsEqual(expected: map<string, string>, files: seq<DistFile>)
    requires forall g, h :: g in files && h in files && g.name == h.name ==> g == h
    ensures expected == SumsOf(files) <==>
            expected.Keys == (set f | f in files :: f.name) && forall name :: !Differs(expected, files, name)
  {
    SumsKeys(files);
    forall f | f in files ensures f.name in SumsOf(files) && SumsOf(files)[f.name] == f.digest {
      SumsHold(files, f);
    }
    hide SumsOf;
    if expected.Keys == (set f | f in files :: f.name) && forall name :: !Differs(expected, files, name) {
      forall name | name in expected ensures name in SumsOf(files) && expected[name] == SumsOf(files)[name] {
        var f :| f in files && f.name == name;
        assert !Differs(expected, files, name);
      }
    }
  }

  predicate Differs(expected: map<string, string>, files: seq<DistFile>, name: string)
  {
    exists f :: f in files && f.name == name && name in expected && expected[name] != f.digest
  }

  lemma {:induction false} SumsKeys(files: seq<DistFile>)
    ensures SumsOf(files).Keys == set f | f in files :: f.name
  {
    if files != [] {
      SumsKeys(files[..|files| - 1]);
      assert files == files[..|files| - 1] + [files[|files| - 1]];
    }
  }

  // ---------------------------------------------------------------------------------------------
  // The changelog.

  const SECTION := "## ["

  /** The lines of a text, separated by line feeds. */
  function LineFeedSplit(s: string): (lines: seq<string>)
    ensures lines != []
    decreases |s|
  {
    var n := UpToFeed(s);
    if n == |s| then [s] else [s[..n]] + LineFeedSplit(s[n + 1..])
  }

  function UpToFeed(s: string): (n: nat)
    ensures n <= |s| && '\n' !in s[..n] && (n < |s| ==> s[n] == '\n')
  {
    if s == [] || s[0] == '\n' then 0
    else
      var n := 1 + UpToFeed(s[1..]);
      assert s[..n] == [s[0]] + s[1..][..n - 1];
      n
  }

  /** `## [VERSION]`, alone or followed by a blank and anything. */
  predicate IsHeading(version: string, line: string)
  {
    var h := SECTION + version + "]";
    h <= line && (|line| == |h| || line[|h|] == ' ' || line[|h|] == '\t')
  }

  /** A heading is the bracketed version alone, or with a blank or a tab and anything behind it. */
  lemma HeadingForms(version: string, line: string)
    ensures IsHeading(version, line) <==>
            exists rest :: line == "## [" + version + "]" + rest && (rest == [] || rest[0] in " \t")
  {
    var h := "## [" + version + "]";
    if IsHeading(version, line) {
      assert line == h + line[|h|..];
    }
    if rest :| line == h + rest && (rest == [] || rest[0] in " \t") {
      assert rest != [] ==> line[|h|] == rest[0];
    }
  }

  predicate IsSection(line: string) { SECTION <= line }

  lemma SectionForms(line: string)
    ensures IsSection(line) <==> exists rest :: line == "## [" + rest
  {
    if IsSection(line) { assert line == "## [" + line[4..]; }
  }

  function FirstHeading(version: string, lines: seq<string>): (n: nat)
    ensures n <= |lines| && (forall i :: 0 <= i < n ==> !IsHeading(version, lines[i]))
    ensures n < |lines| ==> IsHeading(version, lines[n])
  {
    if lines == [] || IsHeading(version, lines[0]) then 0 else 1 + FirstHeading(version, lines[1..])
  }

  function FirstSection(lines: seq<string>): (n: nat)
    ensures n <= |lines| && (forall i :: 0 <= i < n ==> !IsSection(lines[i]))
    ensures n < |lines| ==> IsSection(lines[n])
  {
    if lines == [] || IsSection(lines[0]) then 0 else 1 + FirstSection(lines[1..])
  }

  datatype Notes = Notes(text: string) | NoSection | EmptySection

  /** The text from the end of the heading line up to the next section, stripped. */
  function ChangelogSection(text: string, version: string): Notes
  {
    var lines := LineFeedSplit(text);
    var h := FirstHeading(version, lines);
    if h == |lines| then NoSection
    else
      var after := lines[h + 1..];
      var body := after[..FirstSection(after)];
      var notes := Strip(Slice(body, FirstSection(after) < |after|));
      if notes == [] then EmptySection else Notes(notes + "\n")
  }

  /** A version has no section exactly when no line is its heading. */
  lemma NoHeadingNoSection(text: string, version: string)
    ensures ChangelogSection(text, version) == NoSection <==>
            forall l :: l in LineFeedSplit(text) ==> !IsHeading(version, l)
  {
    var lines := LineFeedSplit(text);
    var h := FirstHeading(version, lines);
    if h < |lines| { assert lines[h] in lines; }
    hide FirstHeading, IsHeading, LineFeedSplit;
  }

  lemma {:induction false} UpToFeedExact(a: string, b: string)
    requires '\n' !in a && (b != [] ==> b[0] == '\n')
    ensures UpToFeed(a + b) == |a|
  {
    if a == [] {
      assert a + b == b;
    } else {
      assert a[0] in a;
      assert (a + b)[1..] == a[1..] + b;
      UpToFeedExact(a[1..], b);
    }
  }

  lemma {:induction false} SplitJoins(lines: seq<string>)
    requires lines != [] && forall l :: l in lines ==> '\n' !in l
    ensures LineFeedSplit(Join("\n", lines)) == lines
  {
    var l := lines[0];
    assert l in lines;
    if |lines| == 1 {
      UpToFeedExact(l, []);
      assert l + [] == l;
    } else {
      var rest := Join("\n", lines[1..]);
      assert Join("\n", lines) == l + ("\n" + rest);
      UpToFeedExact(l, "\n" + rest);
      assert (l + ("\n" + rest))[|l| + 1..] == rest;
      assert (l + ("\n" + rest))[..|l|] == l;
      assert forall m :: m in lines[1..] ==> m in lines;
      SplitJoins(lines[1..]);
    }
  }

  /** A line feed at either end does not survive stripping. */
  lemma StripPads(x: string)
    ensures Strip("\n" + x) == Strip(x) && Strip(x + "\n") == Strip(x)
  {
    var pre, post := StripSplits(x);
    var r := Strip(x);
    assert IsSpace('\n');
    assert AllBlank("\n" + pre) && AllBlank(post + "\n");
    hide *;
    PadParts(x, pre, r, post);
    StripIsExact("\n" + pre, r, post);
    StripIsExact(pre, r, post + "\n");
  }

  lemma PadParts(x: string, pre: string, r: string, post: string)
    requires x == pre + r + post
    ensures "\n" + x == ("\n" + pre) + r + post && x + "\n" == pre + r + (post + "\n")
  {
  }

  lemma {:induction false} FirstHeadingExact(version: string, pre: seq<string>, rest: seq<string>)
    requires forall l :: l in pre ==> !IsHeading(version, l)
    requires rest != [] && IsHeading(version, rest[0])
    ensures FirstHeading(version, pre + rest) == |pre|
  {
    if pre == [] {
      assert pre + rest == rest;
    } else {
      assert (pre + rest)[1..] == pre[1..] + rest;
      FirstHeadingExact(version, pre[1..], rest);
    }
  }

  lemma {:induction false} FirstSectionExact(body: seq<string>, rest: seq<string>)
    requires forall l :: l in body ==> !IsSection(l)
    requires rest != [] ==> IsSection(rest[0])
    ensures FirstSection(body + rest) == |body|
  {
    if body == [] {
      assert body + rest == rest;
    } else {
      assert (body + rest)[1..] == body[1..] + rest;
      FirstSectionExact(body[1..], rest);
    }
  }

  /** Between the heading and the next section stands the body, padded with line feeds. */
  function Slice(body: seq<string>, more: bool): string
  {
    (if body == [] then [] else "\n" + Join("\n", body)) + (if more then "\n" else [])
  }

  lemma SliceStrips(body: seq<string>, more: bool)
    ensures Strip(Slice(body, more)) == Strip(Join("\n", body))
  {
    var text := Join("\n", body);
    var padded := if body == [] then text else "\n" + text;
    assert Slice(body, more) == if more then padded + "\n" else padded;
    hide *;
    StripPads(text);
    StripPads(padded);
  }

  /** From a changelog laid out as earlier text, heading, body and later sections, extraction gives
      back the body, stripped; a blank body is an error. */
  lemma SectionRoundTrip(pre: seq<string>, heading: string, body: seq<string>, rest: seq<string>, version: string)
    requires forall l :: l in pre + [heading] + body + rest ==> '\n' !in l
    requires IsHeading(version, heading)
    requires forall l :: l in pre ==> !IsHeading(version, l)
    requires forall l :: l in body ==> !IsSection(l)
    requires rest != [] ==> IsSection(rest[0])
    ensures var notes := Strip(Join("\n", body));
            ChangelogSection(Join("\n", pre + [heading] + body + rest), version)
            == if notes == [] then EmptySection else Notes(notes + "\n")
  {
    hide Strip, Join, IsHeading, IsSection, LineFeedSplit, FirstHeading, FirstSection;
    var lines := pre + [heading] + body + rest;
    SplitJoins(lines);
    assert lines == pre + ([heading] + (body + rest));
    FirstHeadingExact(version, pre, [heading] + (body + rest));
    var after := lines[|pre| + 1..];
    assert after == body + rest;
    FirstSectionExact(body, rest);
    assert after[..|body|] == body;
    SliceStrips(body, rest != []);
  }
}
