/** The header checks made before authentication, and the routing headers read after them. */
module HttpEnvelope {
  import opened Characters
  import opened Common
  import opened Permutations

  /** Bytes are modelled as characters with codes below 256. */
  datatype Header = Header(name: string, value: string)

  const CRITICAL_SINGLETON_HEADERS: set<string> := {
    "authorization", "content-length", "content-type", "host", "mcp-method",
    "mcp-name", "mcp-protocol-version", "mcp-session-id", "origin", "transfer-encoding"}

  const CONTENT_LENGTH := "content-length"
  const TRANSFER_ENCODING := "transfer-encoding"

  predicate IsCritical(name: string) {
    name in CRITICAL_SINGLETON_HEADERS
  }

  datatype Rejection = HeaderCount | HeaderBytes | DuplicateHeader | AmbiguousFraming

  // ---------------------------------------------------------------- what the checks mean

  function HeaderSize(h: Header): nat {
    |h.name| + |h.value| + 4
  }

  function CriticalName(h: Header): Option<string> {
    if IsCritical(Lower(h.name)) then Some(Lower(h.name)) else None
  }

  ghost predicate Carries(headers: seq<Header>, name: string) {
    exists h :: h in headers && Lower(h.name) == name
  }

  /** The verdict in terms of the collection of headers: no mention of their order. */
  ghost function Verdict(headers: seq<Header>, maxCount: nat, maxBytes: nat): Option<Rejection> {
    if |headers| > maxCount then Some(HeaderCount)
    else if Total(headers, HeaderSize) > maxBytes then Some(HeaderBytes)
    else if Repeats(headers, CriticalName) then Some(DuplicateHeader)
    else if Carries(headers, CONTENT_LENGTH) && Carries(headers, TRANSFER_ENCODING) then Some(AmbiguousFraming)
    else None
  }

  /** Some header before position `n` has this lower-cased name. */
  ghost predicate SeenBefore(headers: seq<Header>, n: nat, name: string) {
    exists j :: 0 <= j < n && j < |headers| && Lower(headers[j].name) == name
  }

  ghost predicate NoRepeatBefore(headers: seq<Header>, n: nat) {
    forall j, k :: 0 <= j < k < n && k < |headers| && CriticalName(headers[j]).Some? ==>
      CriticalName(headers[j]) != CriticalName(headers[k])
  }

  lemma SeenStep(headers: seq<Header>, n: nat, name: string)
    requires n < |headers|
    ensures SeenBefore(headers, n + 1, name) <==> SeenBefore(headers, n, name) || Lower(headers[n].name) == name
  {
  }

  lemma NoRepeatStep(headers: seq<Header>, n: nat)
    requires n < |headers| && NoRepeatBefore(headers, n)
    requires CriticalName(headers[n]).Some? ==> !SeenBefore(headers, n, CriticalName(headers[n]).value)
    ensures NoRepeatBefore(headers, n + 1)
  {
    hide IsCritical, Lower;
  }

  lemma NothingSeen(headers: seq<Header>)
    ensures NoRepeatBefore(headers, 0) && forall name :: !SeenBefore(headers, 0, name)
  {
  }

  /** What the second loop has established when it has run to the end, or has stopped at a repetition. */
  lemma ScanMeans(headers: seq<Header>, n: nat)
    requires n <= |headers| && NoRepeatBefore(headers, n)
    ensures n == |headers| ==> !Repeats(headers, CriticalName)
    ensures n == |headers| ==> forall name :: SeenBefore(headers, n, name) <==> Carries(headers, name)
    ensures n < |headers| && CriticalName(headers[n]).Some? ==>
      SeenBefore(headers, n, CriticalName(headers[n]).value) ==>
      Repeats(headers, CriticalName)
  {
    if n < |headers| && CriticalName(headers[n]).Some? && SeenBefore(headers, n, CriticalName(headers[n]).value) {
      var j :| 0 <= j < n && Lower(headers[j].name) == CriticalName(headers[n]).value;
      assert CriticalName(headers[j]) == CriticalName(headers[n]);
    }
  }

  // What the verdict means for the bytes on the wire and the names as sent.

  /** The header block as it is written: four characters around each name and value. */
  ghost function Written(headers: seq<Header>): string {
    if headers == [] then ""
    else
      var h := headers[|headers| - 1];
      Written(headers[..|headers| - 1]) + h.name + ": " + h.value + "\r\n"
  }

  lemma {:induction false} SizeIsWritten(headers: seq<Header>)
    ensures Total(headers, HeaderSize) == |Written(headers)|
  {
    if headers != [] {
      SizeIsWritten(headers[..|headers| - 1]);
    }
  }

  predicate IsSecurityName(name: string) {
    || name == "authorization" || name == "content-length" || name == "content-type" || name == "host"
    || name == "mcp-method" || name == "mcp-name" || name == "mcp-protocol-version" || name == "mcp-session-id"
    || name == "origin" || name == "transfer-encoding"
  }

  ghost predicate Holds(headers: seq<Header>, name: string) {
    exists h :: h in headers && Spells(h.name, name)
  }

  /** Two headers spell the same security-critical name. */
  ghost predicate HoldsTwice(headers: seq<Header>, i: nat, j: nat, name: string) {
    && i < j < |headers| && IsSecurityName(name)
    && Spells(headers[i].name, name) && Spells(headers[j].name, name)
  }

  lemma SecurityNames(name: string)
    ensures IsCritical(name) <==> IsSecurityName(name)
    ensures IsCritical(name) ==> forall i :: 0 <= i < |name| ==> !('A' <= name[i] <= 'Z')
  {
  }

  lemma CarriesExactly(headers: seq<Header>, name: string)
    requires IsCritical(name)
    ensures Carries(headers, name) <==> Holds(headers, name)
  {
    SecurityNames(name);
    hide IsCritical, IsSecurityName, Spells, Lower;
    forall h: Header ensures Lower(h.name) == name <==> Spells(h.name, name) {
      LowerSpells(h.name, name);
    }
  }

  lemma CriticalNameExactly(h: Header, name: string)
    ensures CriticalName(h) == Some(name) <==> IsSecurityName(name) && Spells(h.name, name)
  {
    SecurityNames(name);
    SecurityNames(Lower(h.name));
    hide IsCritical, IsSecurityName, Spells, Lower;
    if IsSecurityName(name) {
      LowerSpells(h.name, name);
    }
  }

  lemma RepeatsExactly(headers: seq<Header>)
    ensures Repeats(headers, CriticalName) <==> exists i: nat, j: nat, name :: HoldsTwice(headers, i, j, name)
  {
    hide CriticalName, HoldsTwice;
    if Repeats(headers, CriticalName) {
      var i, j :| 0 <= i < j < |headers| && CriticalName(headers[i]).Some?
                  && CriticalName(headers[i]) == CriticalName(headers[j]);
      TwiceExactly(headers, i, j, CriticalName(headers[i]).value);
    }
    if i: nat, j: nat, name :| HoldsTwice(headers, i, j, name) {
      TwiceExactly(headers, i, j, name);
    }
  }

  lemma TwiceExactly(headers: seq<Header>, i: nat, j: nat, name: string)
    ensures HoldsTwice(headers, i, j, name) <==>
      i < j < |headers| && CriticalName(headers[i]) == Some(name) == CriticalName(headers[j])
  {
    hide CriticalName, IsSecurityName, Spells;
    if i < j < |headers| {
      CriticalNameExactly(headers[i], name);
      CriticalNameExactly(headers[j], name);
    }
  }

  /** Each answer has its own condition, and the earlier ones go first. */
  ghost predicate IsVerdict(r: Option<Rejection>, headers: seq<Header>, maxCount: nat, maxBytes: nat) {
    var small := |headers| <= maxCount && |Written(headers)| <= maxBytes;
    var twice := exists i: nat, j: nat, name :: HoldsTwice(headers, i, j, name);
    var framedTwice := Holds(headers, "content-length") && Holds(headers, "transfer-encoding");
    && (r == Some(HeaderCount) <==> |headers| > maxCount)
    && (r == Some(HeaderBytes) <==> |headers| <= maxCount && |Written(headers)| > maxBytes)
    && (r == Some(DuplicateHeader) <==> small && twice)
    && (r == Some(AmbiguousFraming) <==> small && !twice && framedTwice)
    && (r == None <==> small && !twice && !framedTwice)
  }

  lemma VerdictExactly(headers: seq<Header>, maxCount: nat, maxBytes: nat)
    ensures IsVerdict(Verdict(headers, maxCount, maxBytes), headers, maxCount, maxBytes)
  {
    SizeIsWritten(headers);
    RepeatsExactly(headers);
    CarriesExactly(headers, "content-length");
    CarriesExactly(headers, "transfer-encoding");
    hide Total, Repeats, Carries, Holds, HoldsTwice, Written;
  }

  /** The one-pass check computes the verdict. */
  method ValidateEnvelope(headers: seq<Header>, maxCount: nat, maxBytes: nat) returns (r: Option<Rejection>)
    ensures r == Verdict(headers, maxCount, maxBytes)
    ensures IsVerdict(r, headers, maxCount, maxBytes)
  {
    VerdictExactly(headers, maxCount, maxBytes);
    hide IsCritical, IsVerdict, Lower, SeenBefore, NoRepeatBefore, Carries, Repeats, Total;
    NothingSeen(headers);
    if |headers| > maxCount {
      return Some(HeaderCount);
    }
    var totalBytes := Total(headers, HeaderSize);
    if totalBytes > maxBytes {
      return Some(HeaderBytes);
    }

    var seenSingletons: set<string> := {};
    var hasContentLength, hasTransferEncoding := false, false;
    for i := 0 to |headers|
      invariant hasContentLength <==> SeenBefore(headers, i, CONTENT_LENGTH)
      invariant hasTransferEncoding <==> SeenBefore(headers, i, TRANSFER_ENCODING)
      invariant forall n :: n in seenSingletons <==> IsCritical(n) && SeenBefore(headers, i, n)
      invariant NoRepeatBefore(headers, i)
    {
      var name := Lower(headers[i].name);
      forall n ensures SeenBefore(headers, i + 1, n) <==> SeenBefore(headers, i, n) || name == n {
        SeenStep(headers, i, n);
      }
      if name == CONTENT_LENGTH {
        hasContentLength := true;
      } else if name == TRANSFER_ENCODING {
        hasTransferEncoding := true;
      }
      if !IsCritical(name) {
        NoRepeatStep(headers, i);
        continue;
      }
      if name in seenSingletons {
        ScanMeans(headers, i);
        return Some(DuplicateHeader);
      }
      seenSingletons := seenSingletons + {name};
      NoRepeatStep(headers, i);
    }
    ScanMeans(headers, |headers|);
    if hasContentLength && hasTransferEncoding {
      return Some(AmbiguousFraming);
    }
    return None;
  }

  /** Reordering the headers changes nothing, not even which rejection is sent. */
  lemma VerdictPermuted(a: seq<Header>, b: seq<Header>, maxCount: nat, maxBytes: nat)
    requires Permutation(a, b)
    ensures Verdict(a, maxCount, maxBytes) == Verdict(b, maxCount, maxBytes)
  {
    SameMembers(a, b);
    TotalPermuted(a, b, HeaderSize);
    if Repeats(a, CriticalName) { RepeatsPermuted(a, b, CriticalName); }
    if Repeats(b, CriticalName) { RepeatsPermuted(b, a, CriticalName); }
  }

  // ---------------------------------------------------------------- reading one header

  function IsNamed(name: string): Header -> bool {
    (h: Header) => Lower(h.name) == name
  }

  /** `_single_header`: the value of a header that occurs exactly once and is ASCII. */
  function SingleHeader(headers: seq<Header>, name: string): Option<string> {
    var found := Filter(headers, IsNamed(name));
    if |found| == 1 && IsAscii(found[0].value) then Some(found[0].value) else None
  }

  /** One header spells this name, the one with this value, and its value is ASCII. */
  ghost predicate HoldsOnce(headers: seq<Header>, name: string, value: string) {
    && IsAscii(value)
    && exists i :: 0 <= i < |headers| && headers[i].value == value && Spells(headers[i].name, name)
         && forall j :: 0 <= j < |headers| && Spells(headers[j].name, name) ==> j == i
  }

  lemma {:induction false} NoHits<T>(xs: seq<T>, p: T -> bool)
    ensures Filter(xs, p) == [] <==> forall i :: 0 <= i < |xs| ==> !p(xs[i])
  {
    if xs != [] {
      NoHits(xs[..|xs| - 1], p);
      assert xs == xs[..|xs| - 1] + [xs[|xs| - 1]];
    }
  }

  lemma LastIsAll<T>(front: seq<T>, last: T, x: T)
    ensures front + [last] == [x] <==> front == [] && last == x
  {
    assert |front + [last]| == |front| + 1 && (front + [last])[|front|] == last;
  }

  /** A filter keeps a single element exactly when one position alone satisfies it. */
  lemma {:induction false} OneHit<T>(xs: seq<T>, p: T -> bool, x: T)
    ensures Filter(xs, p) == [x] <==>
      exists i :: 0 <= i < |xs| && xs[i] == x && p(xs[i]) && forall j :: 0 <= j < |xs| && p(xs[j]) ==> j == i
  {
    if xs != [] {
      var front, last := xs[..|xs| - 1], xs[|xs| - 1];
      assert xs == front + [last];
      NoHits(front, p);
      OneHit(front, p, x);
      if p(last) {
        LastIsAll(Filter(front, p), last, x);
      } else {
        assert Filter(xs, p) == Filter(front, p);
      }
    }
  }

  lemma SingleHeaderExactly(headers: seq<Header>, name: string, value: string)
    requires forall i :: 0 <= i < |name| ==> !('A' <= name[i] <= 'Z')
    ensures SingleHeader(headers, name) == Some(value) <==> HoldsOnce(headers, name, value)
  {
    forall h: Header ensures Lower(h.name) == name <==> Spells(h.name, name) {
      LowerSpells(h.name, name);
    }
    hide Lower, Spells, IsAscii, Filter;
    var p := IsNamed(name);
    var found := Filter(headers, p);
    if |found| == 1 {
      OneHit(headers, p, found[0]);
      assert found == [found[0]];
    }
    if i :| 0 <= i < |headers| && headers[i].value == value && Spells(headers[i].name, name)
            && forall j :: 0 <= j < |headers| && Spells(headers[j].name, name) ==> j == i {
      OneHit(headers, p, headers[i]);
    }
  }

  lemma SingleHeaderPermuted(a: seq<Header>, b: seq<Header>, name: string)
    requires Permutation(a, b)
    ensures SingleHeader(a, name) == SingleHeader(b, name)
  {
    FilterPermuted(a, b, IsNamed(name));
    var x, y := Filter(a, IsNamed(name)), Filter(b, IsNamed(name));
    SameMembers(x, y);
    if |x| == 1 {
      assert x[0] in y;
    }
  }

  /** Where two hits of a filter come from. */
  lemma {:induction false} FilterHits<T>(xs: seq<T>, p: T -> bool) returns (i: nat, j: nat)
    requires |Filter(xs, p)| >= 2
    ensures i < j < |xs| && p(xs[i]) && p(xs[j])
  {
    var n := |xs| - 1;
    if |Filter(xs[..n], p)| >= 2 {
      i, j := FilterHits(xs[..n], p);
    } else {
      i := FilterHit(xs[..n], p);
      j := n;
    }
  }

  lemma {:induction false} FilterHit<T>(xs: seq<T>, p: T -> bool) returns (i: nat)
    requires |Filter(xs, p)| >= 1
    ensures i < |xs| && p(xs[i])
  {
    var n := |xs| - 1;
    if p(xs[n]) { i := n; } else { i := FilterHit(xs[..n], p); }
  }

  lemma TwoHitsRepeat(headers: seq<Header>, name: string)
    requires |Filter(headers, IsNamed(name))| >= 2 && IsCritical(name)
    ensures Repeats(headers, CriticalName)
  {
    hide IsCritical;
    var i, j := FilterHits(headers, IsNamed(name));
    assert CriticalName(headers[i]) == Some(name);
    assert CriticalName(headers[j]) == Some(name);
  }

  /** An accepted envelope carries each security-critical header at most once. */
  lemma AcceptedHeadersAreSingle(headers: seq<Header>, maxCount: nat, maxBytes: nat, name: string)
    requires Verdict(headers, maxCount, maxBytes) == None && IsCritical(name)
    ensures |Filter(headers, IsNamed(name))| <= 1
  {
    if |Filter(headers, IsNamed(name))| >= 2 {
      TwoHitsRepeat(headers, name);
    }
  }

  /** So reading it by name finds it, wherever it stands: nothing hides behind a repetition. */
  lemma AcceptedHeaderIsRead(headers: seq<Header>, maxCount: nat, maxBytes: nat, h: Header)
    requires Verdict(headers, maxCount, maxBytes) == None && IsCritical(Lower(h.name))
    requires h in headers && IsAscii(h.value)
    ensures SingleHeader(headers, Lower(h.name)) == Some(h.value)
  {
    hide Verdict, IsCritical, Lower, IsAscii;
    var p := IsNamed(Lower(h.name));
    AcceptedHeadersAreSingle(headers, maxCount, maxBytes, Lower(h.name));
    FilterCounts(headers, p, h);
    assert h in multiset(headers);
    assert h in Filter(headers, p);
  }

  // ---------------------------------------------------------------- the routing target

  const MODERN_PROTOCOL_VERSION := "2026-07-28"
  const BASE64_PREFIX := "=?base64?"
  const BASE64_SUFFIX := "?="

  /** `_decode_header_value`; `decodeBase64` is strict base64 followed by UTF-8. */
  function DecodeHeaderValue(value: string, decodeBase64: string -> Option<string>): Option<string> {
    if |BASE64_PREFIX| <= |value| && value[..|BASE64_PREFIX|] == BASE64_PREFIX
       && value[|value| - 2..] == BASE64_SUFFIX then
      // A value shorter than prefix and suffix together decodes an empty slice.
      var end := |value| - |BASE64_SUFFIX|;
      decodeBase64(if end < |BASE64_PREFIX| then "" else value[|BASE64_PREFIX|..end])
    else if value != "" && (IsSpace(value[0]) || IsSpace(value[|value| - 1])) then None
    else Some(value)
  }

  /** `_target_from_scope`: the tool named by the headers of a modern tools/call. */
  function TargetOf(isPost: bool, headers: seq<Header>, decodeBase64: string -> Option<string>): Option<string> {
    if !isPost then None
    else
      var name := SingleHeader(headers, "mcp-name");
      if SingleHeader(headers, "mcp-protocol-version") != Some(MODERN_PROTOCOL_VERSION)
         || SingleHeader(headers, "mcp-method") != Some("tools/call") || name.None? then None
      else
        var decoded := DecodeHeaderValue(name.value, decodeBase64);
        if decoded == None || decoded == Some("") then None else decoded
  }

  predicate IsCoded(value: string, code: string) {
    value == "=?base64?" + code + "?=" || (value == "=?base64?=" && code == "")
  }

  /** A header value names a tool in the sentinel form, or plainly when nothing about it needs that form. */
  ghost predicate Names(value: string, tool: string, decodeBase64: string -> Option<string>) {
    || (exists code :: IsCoded(value, code) && decodeBase64(code) == Some(tool))
    || ((forall code :: !IsCoded(value, code)) && value == tool
        && (tool != "" ==> !IsSpace(tool[0]) && !IsSpace(tool[|tool| - 1])))
  }

  lemma CodedExactly(value: string, code: string)
    ensures var coded := 9 <= |value| && value[..9] == "=?base64?" && value[|value| - 2..] == "?=";
      IsCoded(value, code) <==> coded && code == if |value| < 11 then "" else value[9..|value| - 2]
  {
    if IsCoded(value, code) {
      assert value[..9] == "=?base64?" && value[|value| - 2..] == "?=";
    }
    if 9 <= |value| && value[..9] == "=?base64?" && value[|value| - 2..] == "?=" {
      if |value| < 11 {
        assert value[8] == '?' && value[|value| - 1] == '=';
        assert value == value[..9] + value[9..];
      } else {
        assert value == value[..9] + value[9..|value| - 2] + value[|value| - 2..];
      }
    }
  }

  lemma DecodesExactly(value: string, tool: string, decodeBase64: string -> Option<string>)
    ensures DecodeHeaderValue(value, decodeBase64) == Some(tool) <==> Names(value, tool, decodeBase64)
  {
    hide IsSpace, IsCoded;
    forall code ensures var coded := 9 <= |value| && value[..9] == "=?base64?" && value[|value| - 2..] == "?=";
      IsCoded(value, code) <==> coded && code == if |value| < 11 then "" else value[9..|value| - 2]
    {
      CodedExactly(value, code);
    }
    if 9 <= |value| && value[..9] == "=?base64?" && value[|value| - 2..] == "?=" {
      assert IsCoded(value, if |value| < 11 then "" else value[9..|value| - 2]);
    }
  }

  /** Which tool a request names, read off its headers: each of the three stands there once, and says so. */
  lemma TargetExactly(isPost: bool, headers: seq<Header>, decodeBase64: string -> Option<string>, tool: string)
    ensures TargetOf(isPost, headers, decodeBase64) == Some(tool) <==>
      && isPost && tool != ""
      && HoldsOnce(headers, "mcp-protocol-version", "2026-07-28") && HoldsOnce(headers, "mcp-method", "tools/call")
      && exists value :: HoldsOnce(headers, "mcp-name", value) && Names(value, tool, decodeBase64)
  {
    forall value ensures SingleHeader(headers, "mcp-name") == Some(value) <==> HoldsOnce(headers, "mcp-name", value) {
      SingleHeaderExactly(headers, "mcp-name", value);
    }
    forall value ensures DecodeHeaderValue(value, decodeBase64) == Some(tool) <==> Names(value, tool, decodeBase64) {
      DecodesExactly(value, tool, decodeBase64);
    }
    SingleHeaderExactly(headers, "mcp-protocol-version", "2026-07-28");
    SingleHeaderExactly(headers, "mcp-method", "tools/call");
    hide SingleHeader, HoldsOnce, DecodeHeaderValue, Names;
    var name := SingleHeader(headers, "mcp-name");
    if name.Some? {
      assert HoldsOnce(headers, "mcp-name", name.value);
    }
  }

  /** The target does not depend on the order of the headers. */
  lemma TargetPermuted(isPost: bool, a: seq<Header>, b: seq<Header>, decodeBase64: string -> Option<string>)
    requires Permutation(a, b)
    ensures TargetOf(isPost, a, decodeBase64) == TargetOf(isPost, b, decodeBase64)
  {
    SingleHeaderPermuted(a, b, "mcp-name");
    SingleHeaderPermuted(a, b, "mcp-protocol-version");
    SingleHeaderPermuted(a, b, "mcp-method");
  }
}
