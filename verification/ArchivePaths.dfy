/** Member names of release archives: split at slashes, and refused unless every part is an ordinary name. */
module ArchivePaths {
  import opened Common

  /** `str.split("/")` */
  function Split(s: string): (r: seq<string>)
    ensures r != []
  {
    if s == "" then [""]
    else if s[0] == '/' then [""] + Split(s[1..])
    else var rest := Split(s[1..]); [[s[0]] + rest[0]] + rest[1..]
  }

  /** `"/".join(parts)` */
  function Join(parts: seq<string>): string {
    if parts == [] then "" else if |parts| == 1 then parts[0] else parts[0] + "/" + Join(parts[1..])
  }

  function WithoutTrailingSlash(name: string): string {
    if name != "" && name[|name| - 1] == '/' then name[..|name| - 1] else name
  }

  predicate IsOrdinary(part: string) {
    part != "" && part != "." && part != ".."
  }

  /** `_safe_parts` */
  function SafeParts(name: string): Option<seq<string>> {
    var clean := WithoutTrailingSlash(name);
    var parts := Split(clean);
    if clean == "" || clean[0] == '/' || '\\' in clean || exists part :: part in parts && !IsOrdinary(part)
    then None else Some(parts)
  }

  lemma {:induction false} JoinOfSplit(s: string)
    ensures Join(Split(s)) == s
  {
    if s != "" {
      JoinOfSplit(s[1..]);
      var rest, parts := Split(s[1..]), Split(s);
      if s[0] == '/' {
        assert parts[1..] == rest;
      } else if |rest| > 1 {
        assert parts[1..] == rest[1..];
      }
      assert s == [s[0]] + s[1..];
    }
  }

  /** Two accepted names are the same member exactly when they differ in a trailing slash at most. */
  lemma SameMember(a: string, b: string)
    requires SafeParts(a).Some? && SafeParts(b).Some?
    ensures SafeParts(a) == SafeParts(b) <==> WithoutTrailingSlash(a) == WithoutTrailingSlash(b)
    ensures Join(SafeParts(a).value) == WithoutTrailingSlash(a)
  {
    JoinOfSplit(WithoutTrailingSlash(a));
    JoinOfSplit(WithoutTrailingSlash(b));
  }

  predicate IsSafePart(part: string) {
    part != "" && part != "." && part != ".." && forall i :: 0 <= i < |part| ==> part[i] != '/' && part[i] != '\\'
  }

  lemma {:induction false} SplitOfJoin(parts: seq<string>)
    requires parts != [] && forall k :: 0 <= k < |parts| ==> '/' !in parts[k]
    ensures Split(Join(parts)) == parts
  {
    if |parts| == 1 {
      OnePart(parts[0]);
    } else {
      SplitOfJoin(parts[1..]);
      FirstPart(parts[0], Join(parts[1..]));
      assert parts == [parts[0]] + parts[1..];
    }
  }

  lemma {:induction false} OnePart(s: string)
    requires '/' !in s
    ensures Split(s) == [s]
  {
    if s != "" {
      OnePart(s[1..]);
      assert s == [s[0]] + s[1..];
    }
  }

  lemma {:induction false} FirstPart(s: string, rest: string)
    requires '/' !in s
    ensures Split(s + "/" + rest) == [s] + Split(rest)
  {
    var whole := s + "/" + rest;
    if s == "" {
      assert whole[1..] == rest;
    } else {
      assert whole[1..] == s[1..] + "/" + rest;
      FirstPart(s[1..], rest);
      assert s == [s[0]] + s[1..];
    }
  }

  lemma {:induction false} PartsHaveNoSlash(s: string)
    ensures forall k, i :: 0 <= k < |Split(s)| && 0 <= i < |Split(s)[k]| ==>
      Split(s)[k][i] != '/' && Split(s)[k][i] in s
  {
    if s != "" {
      PartsHaveNoSlash(s[1..]);
    }
  }

  /** A joined list of safe parts needs nothing stripped, and holds no backslash. */
  lemma {:induction false} JoinIsClean(parts: seq<string>)
    requires parts != [] && forall k :: 0 <= k < |parts| ==> IsSafePart(parts[k])
    ensures var s := Join(parts); s != "" && s[0] != '/' && s[|s| - 1] != '/' && '\\' !in s
  {
    if |parts| > 1 {
      JoinIsClean(parts[1..]);
    }
  }

  /** Which names are accepted, and as what: safe parts joined by single slashes, with one more at the end or not. */
  lemma SafePartsExactly(name: string, parts: seq<string>)
    ensures SafeParts(name) == Some(parts) <==>
      && parts != [] && (forall k :: 0 <= k < |parts| ==> IsSafePart(parts[k]))
      && (name == Join(parts) || name == Join(parts) + "/")
  {
    hide Split, Join;
    if SafeParts(name) == Some(parts) {
      var clean := WithoutTrailingSlash(name);
      JoinOfSplit(clean);
      PartsHaveNoSlash(clean);
      assert name == clean || name == clean + "/";
      forall k | 0 <= k < |parts| ensures IsSafePart(parts[k]) {
        assert parts[k] in parts && IsOrdinary(parts[k]);
      }
    }
    if parts != [] && forall k :: 0 <= k < |parts| ==> IsSafePart(parts[k]) {
      JoinedPartsAreSafe(parts);
    }
  }

  lemma JoinedPartsAreSafe(parts: seq<string>)
    requires parts != [] && forall k :: 0 <= k < |parts| ==> IsSafePart(parts[k])
    ensures SafeParts(Join(parts)) == Some(parts) == SafeParts(Join(parts) + "/")
  {
    hide Split, Join, WithoutTrailingSlash, SafeParts;
    JoinIsClean(parts);
    SplitOfJoin(parts);
    assert forall k :: 0 <= k < |parts| ==> IsOrdinary(parts[k]);
    hide IsSafePart, IsOrdinary;
    SlashIsStripped(Join(parts));
    CleanNameIsSafe(Join(parts), Join(parts));
    CleanNameIsSafe(Join(parts) + "/", Join(parts));
  }

  lemma SlashIsStripped(s: string)
    requires s != "" && s[|s| - 1] != '/'
    ensures WithoutTrailingSlash(s) == s == WithoutTrailingSlash(s + "/")
  {
    var longer := s + "/";
    assert longer[..|longer| - 1] == s;
  }

  lemma CleanNameIsSafe(name: string, clean: string)
    requires WithoutTrailingSlash(name) == clean && clean != "" && clean[0] != '/' && '\\' !in clean
    requires forall k :: 0 <= k < |Split(clean)| ==> IsOrdinary(Split(clean)[k])
    ensures SafeParts(name) == Some(Split(clean))
  {
    hide Split, WithoutTrailingSlash, IsOrdinary;
  }

  /** Where a path leads from a directory: empty and dot parts stay, a double dot goes up. */
  function Walk(directory: seq<string>, parts: seq<string>): seq<string>
    decreases |parts|
  {
    if parts == [] then directory
    else if parts[0] == "" || parts[0] == "." then Walk(directory, parts[1..])
    else if parts[0] == ".." then Walk(if directory == [] then [] else directory[..|directory| - 1], parts[1..])
    else Walk(directory + [parts[0]], parts[1..])
  }

  lemma {:induction false} OrdinaryPartsGoDown(directory: seq<string>, parts: seq<string>)
    requires forall part :: part in parts ==> IsOrdinary(part)
    ensures Walk(directory, parts) == directory + parts
    decreases |parts|
  {
    if parts == [] {
      assert directory + parts == directory;
    } else {
      assert parts[0] in parts;
      OrdinaryPartsGoDown(directory + [parts[0]], parts[1..]);
      assert directory + [parts[0]] + parts[1..] == directory + parts;
    }
  }

  /** An accepted member never leads out of the directory it is unpacked in, nor through any other. */
  lemma MembersStayInside(directory: seq<string>, name: string)
    requires SafeParts(name).Some?
    ensures Walk(directory, SafeParts(name).value) == directory + SafeParts(name).value
  {
    OrdinaryPartsGoDown(directory, SafeParts(name).value);
  }
}
