/** The checksum manifest: written by the artifact step, read by the publication step. */
module ChecksumManifest {
  import opened Characters
  import opened Common
  import opened SortedScopes

  // ---------------------------------------------------------------- lines

  /** The ASCII characters at which `splitlines` splits. */
  predicate IsBreak(c: char) {
    var n := c as int;
    10 <= n <= 13 || 28 <= n <= 30
  }

  lemma BreaksExactly(c: char)
    ensures IsBreak(c) <==> c in "\n\U{b}\U{c}\r\U{1c}\U{1d}\U{1e}"
  {
  }

  predicate NoBreak(c: char) {
    !IsBreak(c)
  }

  /** `str.splitlines()` on ASCII text: a carriage return and a line feed are one break together. */
  function Lines(s: string): seq<string>
    decreases |s|
  {
    var n := Run(s, NoBreak);
    if s == "" then []
    else if n == |s| then [s]
    else [s[..n]] + Lines(s[n + if s[n] == '\r' && n + 1 < |s| && s[n + 1] == '\n' then 2 else 1..])
  }

  predicate IsLine(s: string) {
    forall i :: 0 <= i < |s| ==> NoBreak(s[i])
  }

  lemma {:induction false} LinesAreLines(s: string)
    ensures forall k :: 0 <= k < |Lines(s)| ==> IsLine(Lines(s)[k]) && (IsAscii(s) ==> IsAscii(Lines(s)[k]))
    decreases |s|
  {
    var n := Run(s, NoBreak);
    if n < |s| {
      LinesAreLines(s[n + if s[n] == '\r' && n + 1 < |s| && s[n + 1] == '\n' then 2 else 1..]);
    }
  }

  predicate IsSeparator(sep: string, rest: string) {
    sep == "\r\n" || (|sep| == 1 && IsBreak(sep[0]) && !(sep == "\r" && rest != "" && rest[0] == '\n'))
  }

  /** Each break ends a line; a carriage return takes a line feed behind it along. */
  lemma FirstLine(line: string, sep: string, rest: string)
    requires IsLine(line) && IsSeparator(sep, rest)
    ensures Lines(line + sep + rest) == [line] + Lines(rest)
  {
    var s, n := line + sep + rest, |line|;
    ThreePieces(line, sep, rest);
    RunIs(s, NoBreak, n);
    hide IsBreak, IsLine, Run;
    assert s[n] == sep[0] && (n + 1 < |s| ==> s[n + 1] == if |sep| == 2 then sep[1] else rest[0]);
  }

  lemma ThreePieces(a: string, b: string, c: string)
    ensures var s, n := a + b + c, |a|; s[..n] == a && s[n + |b|..] == c && forall i :: 0 <= i < n ==> s[i] == a[i]
  {
  }

  /** Text without a break is one line, unless it is empty. */
  lemma LastLine(line: string)
    requires IsLine(line)
    ensures Lines(line) == if line == "" then [] else [line]
  {
    RunIs(line, NoBreak, |line|);
  }

  // ---------------------------------------------------------------- entries

  predicate IsHexDigit(c: char) {
    '0' <= c <= '9' || 'a' <= c <= 'f'
  }

  predicate IsDigest(s: string) {
    |s| == 64 && forall i :: 0 <= i < |s| ==> IsHexDigit(s[i])
  }

  predicate HasNoSlash(s: string) {
    forall i :: 0 <= i < |s| ==> s[i] != '/' && s[i] != '\\'
  }

  datatype Entry = Entry(name: string, digest: string)

  /** `PACKAGE_CHECKSUM.fullmatch` */
  function ParseEntry(line: string): Option<Entry> {
    if |line| > 66 && IsDigest(line[..64]) && line[64..66] == "  " && HasNoSlash(line[66..])
    then Some(Entry(line[66..], line[..64]))
    else None
  }

  /** A line of the manifest: the digest, two spaces and the name. */
  predicate IsEntry(line: string, name: string, digest: string) {
    && line == digest + "  " + name && name != ""
    && |digest| == 64 && (forall i :: 0 <= i < 64 ==> digest[i] in "0123456789abcdef")
    && (forall i :: 0 <= i < |name| ==> name[i] != '/' && name[i] != '\\')
  }

  lemma HexExactly(c: char)
    ensures IsHexDigit(c) <==> c in "0123456789abcdef"
  {
  }

  lemma ParseEntryExactly(line: string, e: Entry)
    ensures ParseEntry(line) == Some(e) <==> IsEntry(line, e.name, e.digest)
  {
    forall c ensures IsHexDigit(c) <==> c in "0123456789abcdef" {
      HexExactly(c);
    }
    hide IsHexDigit;
    if |line| > 66 && line[64..66] == "  " {
      assert line == line[..64] + line[64..66] + line[66..];
    }
    if line == e.digest + "  " + e.name && |e.digest| == 64 {
      assert line[..64] == e.digest && line[64..66] == "  " && line[66..] == e.name;
    }
  }

  function PrintEntry(digests: map<string, string>, name: string): string
    requires name in digests
  {
    digests[name] + "  " + name
  }

  // ---------------------------------------------------------------- writing

  function ManifestOf(digests: map<string, string>, names: seq<string>): string
    requires forall k :: 0 <= k < |names| ==> names[k] in digests
  {
    if names == [] then "" else PrintEntry(digests, names[0]) + "\n" + ManifestOf(digests, names[1..])
  }

  /** The text of SHA256SUMS: one line for each artifact, in the order of their names. */
  function Manifest(digests: map<string, string>): string {
    assert forall k :: 0 <= k < |Sorted(digests.Keys)| ==> Sorted(digests.Keys)[k] in Members(Sorted(digests.Keys));
    ManifestOf(digests, Sorted(digests.Keys))
  }

  /** The names of a map, each once, in code point order. */
  ghost predicate Lists(names: seq<string>, digests: map<string, string>) {
    StrictlySorted(names) && forall name :: name in names <==> name in digests
  }

  lemma NamesInOrder(digests: map<string, string>)
    ensures exists names :: Lists(names, digests) && Manifest(digests) == ManifestOf(digests, names)
  {
    hide StrictlySorted, ManifestOf;
    var names := Sorted(digests.Keys);
    assert forall name :: name in names <==> name in Members(names);
    assert Lists(names, digests);
  }

  /**
   The digest loop of `prepare_release_artifacts`, and the text written after it. The two
   builds hold the same artifact names; a difference in one digest refuses both, whichever
   artifact is compared first.
   */
  method PrepareManifest(first: map<string, string>, second: map<string, string>) returns (r: Option<string>)
    requires first.Keys == second.Keys
    ensures r == if first == second then Some(Manifest(first)) else None
    ensures r.Some? ==> exists names :: Lists(names, first) && r.value == ManifestOf(first, names)
  {
    hide Manifest;
    var digests: map<string, string> := map[];
    var pending := first.Keys;
    while pending != {}
      invariant pending <= first.Keys && digests.Keys == first.Keys - pending
      invariant forall name :: name in digests ==> digests[name] == first[name] == second[name]
      decreases |pending|
    {
      var name :| name in pending;
      pending := pending - {name};
      if first[name] != second[name] {
        return None;
      }
      digests := digests[name := first[name]];
    }
    assert digests == first == second;
    r := Some(Manifest(digests));
    NamesInOrder(first);
  }

  // ---------------------------------------------------------------- reading

  /** The map that a list of lines spells out, None for a malformed line or a repeated name. */
  function Parsed(lines: seq<string>): Option<map<string, string>> {
    if lines == [] then Some(map[])
    else
      var before := Parsed(lines[..|lines| - 1]);
      var entry := ParseEntry(lines[|lines| - 1]);
      if before.None? || entry.None? || entry.value.name in before.value then None
      else Some(before.value[entry.value.name := entry.value.digest])
  }

  function ParsedText(text: string): Option<map<string, string>> {
    if IsAscii(text) then Parsed(Lines(text)) else None
  }

  ghost predicate IsEntryOf(line: string, digests: map<string, string>) {
    exists name :: name in digests && IsEntry(line, name, digests[name])
  }

  /** The lines are the entries of this map: each line is one of them, each of them is a line, no line is repeated. */
  ghost predicate SpellOut(lines: seq<string>, digests: map<string, string>) {
    && (forall line :: line in lines ==> IsEntryOf(line, digests))
    && (forall name :: name in digests ==> exists line :: line in lines && IsEntry(line, name, digests[name]))
    && (forall j, k :: 0 <= j < k < |lines| ==> lines[j] != lines[k])
  }

  lemma {:induction false} ParsedLinesSpellOut(lines: seq<string>)
    requires Parsed(lines).Some?
    ensures SpellOut(lines, Parsed(lines).value)
  {
    hide ParseEntry, SpellOut;
    if lines == [] {
      NothingSpelled();
    } else {
      var n := |lines| - 1;
      var front, e := lines[..n], ParseEntry(lines[n]).value;
      ParsedLinesSpellOut(front);
      ParseEntryExactly(lines[n], e);
      assert lines == front + [lines[n]];
      OneMoreEntry(front, lines[n], Parsed(front).value, e);
    }
  }

  lemma NothingSpelled()
    ensures SpellOut([], map[])
  {
  }

  lemma OneMoreEntry(front: seq<string>, line: string, before: map<string, string>, e: Entry)
    requires SpellOut(front, before) && e.name !in before && IsEntry(line, e.name, e.digest)
    ensures SpellOut(front + [line], before[e.name := e.digest])
  {
    var after := before[e.name := e.digest];
    forall name, digest | IsEntry(line, name, digest) ensures name == e.name {
      OneReading(line, name, digest, e.name, e.digest);
    }
    hide IsEntry;
    assert IsEntry(line, e.name, after[e.name]);
    assert IsEntryOf(line, after);
    forall other | other in front ensures other != line && IsEntryOf(other, after) {
      assert IsEntryOf(other, before);
      var name :| name in before && IsEntry(other, name, before[name]);
      assert after[name] == before[name];
    }
    forall name | name in after ensures exists l :: l in front + [line] && IsEntry(l, name, after[name]) {
      if name == e.name {
        assert line in front + [line];
      } else {
        var l :| l in front && IsEntry(l, name, before[name]);
        assert l in front + [line];
      }
    }
    NotRepeated(front, line);
  }

  lemma NotRepeated(front: seq<string>, line: string)
    requires line !in front && forall j, k :: 0 <= j < k < |front| ==> front[j] != front[k]
    ensures forall j, k :: 0 <= j < k < |front + [line]| ==> (front + [line])[j] != (front + [line])[k]
  {
  }

  /** Distinct entries of a map are read, as part of this map. */
  lemma {:induction false} EntriesAreRead(lines: seq<string>, digests: map<string, string>)
    requires forall line :: line in lines ==> IsEntryOf(line, digests)
    requires forall j, k :: 0 <= j < k < |lines| ==> lines[j] != lines[k]
    ensures Parsed(lines).Some?
    ensures forall name :: name in Parsed(lines).value ==> name in digests && Parsed(lines).value[name] == digests[name]
  {
    hide ParseEntry, IsEntry;
    if lines != [] {
      var n := |lines| - 1;
      var front, line := lines[..n], lines[n];
      EntriesAreRead(front, digests);
      assert IsEntryOf(line, digests);
      var name :| name in digests && IsEntry(line, name, digests[name]);
      ParseEntryExactly(line, Entry(name, digests[name]));
      if name in Parsed(front).value {
        ParsedLinesSpellOut(front);
        var other :| other in front && IsEntry(other, name, Parsed(front).value[name]);
        SameEntry(line, other, name, digests[name]);
      }
    }
  }

  lemma SameEntry(line: string, other: string, name: string, digest: string)
    requires IsEntry(line, name, digest) && IsEntry(other, name, digest)
    ensures line == other
  {
  }

  /** Reading gives a map exactly when the lines spell it out. */
  lemma ParsedExactly(lines: seq<string>, digests: map<string, string>)
    ensures Parsed(lines) == Some(digests) <==> SpellOut(lines, digests)
  {
    hide Parsed, SpellOut;
    if Parsed(lines).Some? {
      ParsedLinesSpellOut(lines);
    }
    if SpellOut(lines, digests) {
      SpelledLinesAreRead(lines, digests);
      ParsedLinesSpellOut(lines);
      SpelledMapIsPart(lines, digests, Parsed(lines).value);
      SpelledMapIsPart(lines, Parsed(lines).value, digests);
      assert Parsed(lines).value == digests;
    }
  }

  lemma SpelledLinesAreRead(lines: seq<string>, digests: map<string, string>)
    requires SpellOut(lines, digests)
    ensures Parsed(lines).Some?
  {
    EntriesAreRead(lines, digests);
  }

  /** The same lines spell out one map only. */
  lemma SpelledMapIsPart(lines: seq<string>, a: map<string, string>, b: map<string, string>)
    requires SpellOut(lines, a) && SpellOut(lines, b)
    ensures forall name :: name in a ==> name in b && b[name] == a[name]
  {
    hide IsEntry, IsEntryOf, SpellOut;
    forall name | name in a ensures name in b && b[name] == a[name] {
      SpelledNameIsPart(lines, a, b, name);
    }
  }

  lemma SpelledNameIsPart(lines: seq<string>, a: map<string, string>, b: map<string, string>, name: string)
    requires SpellOut(lines, a) && SpellOut(lines, b) && name in a
    ensures name in b && b[name] == a[name]
  {
    hide IsEntry, IsEntryOf;
    var line :| line in lines && IsEntry(line, name, a[name]);
    assert IsEntryOf(line, b);
    hide SpellOut;
    EntryBelongs(line, b, name, a[name]);
  }

  lemma EntryBelongs(line: string, digests: map<string, string>, name: string, digest: string)
    requires IsEntryOf(line, digests) && IsEntry(line, name, digest)
    ensures name in digests && digests[name] == digest
  {
    hide IsEntry;
    var other :| other in digests && IsEntry(line, other, digests[other]);
    OneReading(line, name, digest, other, digests[other]);
  }

  /** A line is read in one way only. */
  lemma OneReading(line: string, name: string, digest: string, other: string, otherDigest: string)
    ensures IsEntry(line, name, digest) && IsEntry(line, other, otherDigest) ==> name == other && digest == otherDigest
  {
    ParseEntryExactly(line, Entry(name, digest));
    ParseEntryExactly(line, Entry(other, otherDigest));
  }

  lemma {:induction false} MalformedPrefix(lines: seq<string>, n: nat)
    requires n <= |lines| && Parsed(lines[..n]) == None
    ensures Parsed(lines) == None
    decreases |lines|
  {
    if n == |lines| {
      assert lines[..n] == lines;
    } else {
      assert lines[..|lines| - 1][..n] == lines[..n];
      MalformedPrefix(lines[..|lines| - 1], n);
    }
  }

  /** `_validate_package_checksums`; `artifacts` holds the digests of the files that were expected. */
  method ValidatePackageChecksums(text: string, artifacts: map<string, string>) returns (passed: bool)
    ensures passed <==> ParsedText(text) == Some(artifacts)
    ensures passed <==> IsAscii(text) && SpellOut(Lines(text), artifacts)
  {
    ParsedExactly(Lines(text), artifacts);
    hide Lines, ParseEntry, SpellOut;
    if !IsAscii(text) {
      return false;
    }
    var lines := Lines(text);
    var parsed: map<string, string> := map[];
    for i := 0 to |lines|
      invariant Parsed(lines[..i]) == Some(parsed)
    {
      var entry := ParseEntry(lines[i]);
      assert lines[..i + 1][..i] == lines[..i];
      if entry.None? || entry.value.name in parsed {
        MalformedPrefix(lines, i + 1);
        return false;
      }
      parsed := parsed[entry.value.name := entry.value.digest];
    }
    assert lines[..|lines|] == lines;
    if parsed.Keys != artifacts.Keys {
      return false;
    }
    passed := SameDigests(parsed, artifacts);
  }

  /** The comparison of digests, name by name. */
  method SameDigests(parsed: map<string, string>, artifacts: map<string, string>) returns (same: bool)
    requires parsed.Keys == artifacts.Keys
    ensures same <==> parsed == artifacts
  {
    var pending := artifacts.Keys;
    while pending != {}
      invariant pending <= artifacts.Keys
      invariant forall name :: name in artifacts.Keys - pending ==> parsed[name] == artifacts[name]
      decreases |pending|
    {
      var name :| name in pending;
      if parsed[name] != artifacts[name] {
        return false;
      }
      pending := pending - {name};
    }
    return true;
  }

  // ---------------------------------------------------------------- the round trip

  /** What a name must be for its line to survive. */
  predicate IsPlainName(name: string) {
    name != "" && IsAscii(name) && HasNoSlash(name) && IsLine(name)
  }

  lemma {:induction false} ParsedNamesArePlain(lines: seq<string>)
    requires Parsed(lines).Some? && forall k :: 0 <= k < |lines| ==> IsLine(lines[k]) && IsAscii(lines[k])
    ensures forall name :: name in Parsed(lines).value ==> IsPlainName(name)
  {
    if lines != [] {
      ParsedNamesArePlain(lines[..|lines| - 1]);
    }
  }

  lemma EntryRoundTrip(digests: map<string, string>, name: string)
    requires name in digests && IsDigest(digests[name]) && IsPlainName(name)
    ensures ParseEntry(PrintEntry(digests, name)) == Some(Entry(name, digests[name]))
    ensures IsLine(PrintEntry(digests, name)) && IsAscii(PrintEntry(digests, name))
  {
    var line := PrintEntry(digests, name);
    assert line[..64] == digests[name] && line[64..66] == "  " && line[66..] == name;
    forall i | 0 <= i < |line| ensures NoBreak(line[i]) && line[i] as int < 128 {
      if i < 64 {
        assert IsHexDigit(digests[name][i]);
      } else if i >= 66 {
        assert line[i] == name[i - 66];
      }
    }
  }

  function EntryLines(digests: map<string, string>, names: seq<string>): seq<string>
    requires forall k :: 0 <= k < |names| ==> names[k] in digests
  {
    if names == [] then [] else EntryLines(digests, names[..|names| - 1]) + [PrintEntry(digests, names[|names| - 1])]
  }

  lemma {:induction false} FirstEntryLine(digests: map<string, string>, names: seq<string>)
    requires names != [] && forall k :: 0 <= k < |names| ==> names[k] in digests
    ensures EntryLines(digests, names) == [PrintEntry(digests, names[0])] + EntryLines(digests, names[1..])
  {
    if |names| > 1 {
      FirstEntryLine(digests, names[..|names| - 1]);
      assert names[1..][..|names| - 2] == names[..|names| - 1][1..];
    }
  }

  ghost predicate AllPlain(digests: map<string, string>, names: seq<string>) {
    forall k :: 0 <= k < |names| ==> names[k] in digests && IsDigest(digests[names[k]]) && IsPlainName(names[k])
  }

  /** Splitting the text gives back the lines it was put together from. */
  lemma {:induction false} LinesOfManifest(digests: map<string, string>, names: seq<string>)
    requires AllPlain(digests, names)
    ensures IsAscii(ManifestOf(digests, names)) && Lines(ManifestOf(digests, names)) == EntryLines(digests, names)
  {
    hide Lines, IsPlainName, IsDigest, PrintEntry, IsLine;
    if names == [] {
      LastLine("");
    } else {
      EntryRoundTrip(digests, names[0]);
      LinesOfManifest(digests, names[1..]);
      FirstLine(PrintEntry(digests, names[0]), "\n", ManifestOf(digests, names[1..]));
      FirstEntryLine(digests, names);
    }
  }

  /** The text for one more name in front: its digest, two spaces, the name and a line feed. */
  lemma ManifestIsWritten(digests: map<string, string>, name: string, rest: seq<string>)
    requires name in digests && forall k :: 0 <= k < |rest| ==> rest[k] in digests
    ensures ManifestOf(digests, [name] + rest) == digests[name] + "  " + name + "\n" + ManifestOf(digests, rest)
    ensures ManifestOf(digests, []) == ""
  {
    assert ([name] + rest)[1..] == rest;
  }

  /** Reading the lines of distinct names gives the map restricted to them. */
  lemma {:induction false} ParsedEntryLines(digests: map<string, string>, names: seq<string>)
    requires AllPlain(digests, names) && StrictlySorted(names)
    ensures Parsed(EntryLines(digests, names)) == Some(map name | name in names :: digests[name])
  {
    hide IsPlainName, IsDigest, PrintEntry, ParseEntry;
    if names != [] {
      var front, last := names[..|names| - 1], names[|names| - 1];
      ParsedEntryLines(digests, front);
      EntryRoundTrip(digests, last);
      SortedWithoutLast(names);
      assert EntryLines(digests, names)[..|names| - 1] == EntryLines(digests, front) by { EntryCount(digests, names); }
      var before := map name | name in front :: digests[name];
      assert (map name | name in names :: digests[name]) == before[last := digests[last]];
    }
  }

  lemma SortedWithoutLast(names: seq<string>)
    requires StrictlySorted(names) && names != []
    ensures names[|names| - 1] !in names[..|names| - 1]
    ensures forall x :: x in names <==> x in names[..|names| - 1] || x == names[|names| - 1]
  {
    LessIsStrictOrder();
  }

  lemma {:induction false} EntryCount(digests: map<string, string>, names: seq<string>)
    requires forall k :: 0 <= k < |names| ==> names[k] in digests
    ensures |EntryLines(digests, names)| == |names|
  {
    if names != [] {
      EntryCount(digests, names[..|names| - 1]);
    }
  }

  lemma AllNames(digests: map<string, string>)
    ensures var names := Sorted(digests.Keys);
      && (forall name :: name in names <==> name in digests)
      && (map name | name in names :: digests[name]) == digests
  {
    var names := Sorted(digests.Keys);
    assert forall name :: name in names <==> name in Members(names);
  }

  lemma PlainNamesAreRead(digests: map<string, string>)
    requires forall name :: name in digests ==> IsDigest(digests[name]) && IsPlainName(name)
    ensures ParsedText(Manifest(digests)) == Some(digests)
  {
    hide IsPlainName, IsDigest, Lines, Parsed, ManifestOf, EntryLines, IsAscii, StrictlySorted, Sorted, Members;
    var names := Sorted(digests.Keys);
    AllNames(digests);
    assert AllPlain(digests, names);
    hide AllPlain;
    LinesOfManifest(digests, names);
    ParsedEntryLines(digests, names);
  }

  lemma ReadNamesArePlain(text: string)
    requires ParsedText(text).Some?
    ensures forall name :: name in ParsedText(text).value ==> IsPlainName(name)
  {
    hide IsPlainName, Lines, Parsed;
    LinesAreLines(text);
    ParsedNamesArePlain(Lines(text));
  }

  /**
   The round trip across the two steps: the manifest written for a map of SHA-256 digests is
   read back as the same map exactly when every name is plain.
   */
  lemma ManifestRoundTrip(digests: map<string, string>)
    requires forall name :: name in digests ==> IsDigest(digests[name])
    ensures ParsedText(Manifest(digests)) == Some(digests) <==> forall name :: name in digests ==> IsPlainName(name)
  {
    hide IsPlainName, IsDigest, ParsedText, Manifest;
    if forall name :: name in digests ==> IsPlainName(name) {
      PlainNamesAreRead(digests);
    }
    if ParsedText(Manifest(digests)) == Some(digests) {
      ReadNamesArePlain(Manifest(digests));
    }
  }
}
