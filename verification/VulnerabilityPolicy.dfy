/** The policy for actionable vulnerabilities: findings with a fix against exceptions with a date. */
module VulnerabilityPolicy {
  import opened Characters
  import opened Common
  import opened Ordering
  import opened Permutations
  import opened SortedScopes

  // ---------------------------------------------------------------- findings

  datatype FindingKey = FindingKey(
    vulnerabilityId: string, namespace: string, package: string, packageType: string, installedVersion: string)

  function Fields(k: FindingKey): seq<string> {
    [k.vulnerabilityId, k.namespace, k.package, k.packageType, k.installedVersion]
  }

  /** Tuples compare field by field. */
  predicate LessFields(a: seq<string>, b: seq<string>)
    decreases |a|
  {
    b != [] && (a == [] || Less(a[0], b[0]) || (a[0] == b[0] && LessFields(a[1..], b[1..])))
  }

  predicate LessKey(a: FindingKey, b: FindingKey) {
    LessFields(Fields(a), Fields(b))
  }

  lemma {:induction false} FieldsIrreflexive(a: seq<string>)
    ensures !LessFields(a, a)
    decreases |a|
  {
    if a != [] {
      Irreflexive(a[0]);
      FieldsIrreflexive(a[1..]);
    }
  }

  lemma {:induction false} FieldsTransitive(a: seq<string>, b: seq<string>, c: seq<string>)
    requires LessFields(a, b) && LessFields(b, c)
    ensures LessFields(a, c)
    decreases |a|
  {
    hide Less;
    if a != [] {
      if Less(a[0], b[0]) && Less(b[0], c[0]) {
        Transitive(a[0], b[0], c[0]);
      } else if a[0] == b[0] && b[0] == c[0] && LessFields(a[1..], b[1..]) && LessFields(b[1..], c[1..]) {
        FieldsTransitive(a[1..], b[1..], c[1..]);
      }
    }
  }

  lemma {:induction false} FieldsConnected(a: seq<string>, b: seq<string>)
    ensures a == b || LessFields(a, b) || LessFields(b, a)
    decreases |a|
  {
    if a != [] && b != [] {
      Connected(a[0], b[0]);
      if a[0] == b[0] {
        FieldsConnected(a[1..], b[1..]);
        assert a == [a[0]] + a[1..] && b == [b[0]] + b[1..];
      }
    }
  }

  lemma KeysAreOrdered()
    ensures IsStrictOrder(LessKey)
  {
    hide LessFields;
    forall a ensures !LessKey(a, a) {
      FieldsIrreflexive(Fields(a));
    }
    forall a, b, c | LessKey(a, b) && LessKey(b, c) ensures LessKey(a, c) {
      FieldsTransitive(Fields(a), Fields(b), Fields(c));
    }
    forall a, b ensures a == b || LessKey(a, b) || LessKey(b, a) {
      FieldsConnected(Fields(a), Fields(b));
      if Fields(a) == Fields(b) {
        assert forall i :: 0 <= i < 5 ==> Fields(a)[i] == Fields(b)[i];
        assert a == FindingKey(Fields(a)[0], Fields(a)[1], Fields(a)[2], Fields(a)[3], Fields(a)[4]);
        assert b == FindingKey(Fields(b)[0], Fields(b)[1], Fields(b)[2], Fields(b)[3], Fields(b)[4]);
      }
    }
  }

  /** Keys are compared field by field, in this order of the fields. */
  lemma KeyOrder(a: FindingKey, b: FindingKey)
    ensures LessKey(a, b) <==>
      || Less(a.vulnerabilityId, b.vulnerabilityId)
      || (a.vulnerabilityId == b.vulnerabilityId &&
          (|| Less(a.namespace, b.namespace)
           || (a.namespace == b.namespace &&
               (|| Less(a.package, b.package)
                || (a.package == b.package &&
                    (|| Less(a.packageType, b.packageType)
                     || (a.packageType == b.packageType && Less(a.installedVersion, b.installedVersion))))))))
  {
    hide Less, LessFields;
    FieldOrder(a.vulnerabilityId, [a.namespace, a.package, a.packageType, a.installedVersion], Fields(a),
               b.vulnerabilityId, [b.namespace, b.package, b.packageType, b.installedVersion], Fields(b));
    FieldOrder(a.namespace, [a.package, a.packageType, a.installedVersion], Fields(a)[1..],
               b.namespace, [b.package, b.packageType, b.installedVersion], Fields(b)[1..]);
    FieldOrder(a.package, [a.packageType, a.installedVersion], Fields(a)[2..],
               b.package, [b.packageType, b.installedVersion], Fields(b)[2..]);
    FieldOrder(a.packageType, [a.installedVersion], Fields(a)[3..],
               b.packageType, [b.installedVersion], Fields(b)[3..]);
    FieldOrder(a.installedVersion, [], Fields(a)[4..], b.installedVersion, [], Fields(b)[4..]);
    NoFields();
  }

  lemma FieldOrder(x: string, xs: seq<string>, whole: seq<string>, y: string, ys: seq<string>, other: seq<string>)
    requires whole == [x] + xs && other == [y] + ys
    ensures LessFields(whole, other) <==> Less(x, y) || (x == y && LessFields(xs, ys))
    ensures whole[1..] == xs && other[1..] == ys
  {
    hide Less;
  }

  lemma NoFields()
    ensures !LessFields([], [])
  {
  }

  function SortedKeys(keys: set<FindingKey>): (r: seq<FindingKey>)
    ensures StrictlyAscending(LessKey, r) && Elements(r) == keys
  {
    KeysAreOrdered();
    SortedBy(LessKey, keys)
  }

  /** `str.strip()` */
  function Strip(s: string): string
    decreases |s|
  {
    if s == "" then ""
    else if IsSpace(s[0]) then Strip(s[1..])
    else if IsSpace(s[|s| - 1]) then Strip(s[..|s| - 1])
    else s
  }

  predicate IsBlank(s: string) {
    forall i :: 0 <= i < |s| ==> IsSpace(s[i])
  }

  /** Trimming takes a blank beginning and a blank end away, and nothing else. */
  ghost predicate IsTrimmed(s: string, before: string, t: string, after: string) {
    && s == before + t + after && IsBlank(before) && IsBlank(after)
    && t != "" && !IsSpace(t[0]) && !IsSpace(t[|t| - 1])
  }

  ghost predicate TrimsTo(s: string, t: string) {
    exists before, after :: IsTrimmed(s, before, t, after)
  }

  lemma {:induction false} StripOfTrimmed(s: string, before: string, t: string, after: string)
    requires IsTrimmed(s, before, t, after)
    ensures Strip(s) == t
    decreases |s|
  {
    hide IsSpace;
    if before != "" {
      assert s[0] == before[0];
      assert s[1..] == before[1..] + t + after;
      StripOfTrimmed(s[1..], before[1..], t, after);
    } else if after != "" {
      assert s[0] == t[0] && s[|s| - 1] == after[|after| - 1];
      assert s[..|s| - 1] == before + t + after[..|after| - 1];
      StripOfTrimmed(s[..|s| - 1], before, t, after[..|after| - 1]);
    } else {
      assert s == t;
    }
  }

  lemma {:induction false} StripTrims(s: string)
    ensures if IsBlank(s) then Strip(s) == "" else TrimsTo(s, Strip(s))
    decreases |s|
  {
    hide IsSpace, IsBlank, TrimsTo;
    BlankFromEnds(s);
    if s != "" && IsSpace(s[0]) {
      StripTrims(s[1..]);
      TrimsFromEnds(s, Strip(s));
    } else if s != "" && IsSpace(s[|s| - 1]) {
      StripTrims(s[..|s| - 1]);
      TrimsFromEnds(s, Strip(s));
    } else if s != "" {
      TrimsToItself(s);
    }
  }

  lemma TrimsToItself(s: string)
    requires s != "" && !IsSpace(s[0]) && !IsSpace(s[|s| - 1])
    ensures TrimsTo(s, s)
  {
    assert IsTrimmed(s, "", s, "");
  }

  lemma TrimsFromEnds(s: string, t: string)
    requires s != ""
    ensures IsSpace(s[0]) && TrimsTo(s[1..], t) ==> TrimsTo(s, t)
    ensures IsSpace(s[|s| - 1]) && TrimsTo(s[..|s| - 1], t) ==> TrimsTo(s, t)
  {
    hide IsSpace;
    assert s == [s[0]] + s[1..] && s == s[..|s| - 1] + [s[|s| - 1]];
    if before, after :| IsSpace(s[0]) && IsTrimmed(s[1..], before, t, after) {
      assert IsTrimmed(s, [s[0]] + before, t, after);
    }
    var front, last := s[..|s| - 1], s[|s| - 1];
    if before, after :| IsSpace(last) && IsTrimmed(front, before, t, after) {
      assert IsTrimmed(s, before, t, after + [last]);
    }
  }

  lemma BlankFromEnds(s: string)
    ensures s == "" ==> IsBlank(s)
    ensures s != "" && IsSpace(s[0]) ==> (IsBlank(s) <==> IsBlank(s[1..]))
    ensures s != "" && IsSpace(s[|s| - 1]) ==> (IsBlank(s) <==> IsBlank(s[..|s| - 1]))
    ensures s != "" && !IsSpace(s[0]) ==> !IsBlank(s)
    ensures s != "" && !IsSpace(s[|s| - 1]) ==> !IsBlank(s)
  {
    hide IsSpace;
    if s != "" {
      assert s == [s[0]] + s[1..];
    }
  }

  /** `_required_string` */
  function RequiredString(document: map<string, Json>, field: string): Option<string> {
    var value := Get(document, field);
    if !value.JString? || Strip(value.s) == "" then None else Some(Strip(value.s))
  }

  /** The document has this field, a string that trims to this text. */
  ghost predicate Holds(document: map<string, Json>, field: string, text: string) {
    field in document && document[field].JString? && TrimsTo(document[field].s, text)
  }

  lemma RequiredStringExactly(document: map<string, Json>, field: string, text: string)
    ensures RequiredString(document, field) == Some(text) <==> Holds(document, field, text)
  {
    hide Strip, IsBlank;
    var value := Get(document, field);
    if value.JString? {
      StripTrims(value.s);
      if TrimsTo(value.s, text) {
        var before, after :| IsTrimmed(value.s, before, text, after);
        StripOfTrimmed(value.s, before, text, after);
      }
    }
  }

  function MakeKey(id: Option<string>, namespace: Option<string>, package: Option<string>,
                   packageType: Option<string>, version: Option<string>): Option<FindingKey>
  {
    if id.None? || namespace.None? || package.None? || packageType.None? || version.None? then None
    else Some(FindingKey(id.value, namespace.value, package.value, packageType.value, version.value))
  }

  const BLOCKING_SEVERITIES: set<string> := {"critical", "high"}

  datatype Match = Malformed | Harmless | Finding(key: FindingKey, fixable: bool)

  function HasFix(vulnerability: map<string, Json>): bool {
    var fix := Get(vulnerability, "fix");
    var versions := if fix.JObject? then Get(fix.fields, "versions") else JNull;
    versions.JArray? && exists v :: v in versions.items && v.JString? && Strip(v.s) != ""
  }

  /** One entry of the report. */
  function ReadMatch(raw: Json): Match {
    if !raw.JObject? || !Get(raw.fields, "vulnerability").JObject? then Malformed
    else
      var vulnerability := Get(raw.fields, "vulnerability").fields;
      var severity := Get(vulnerability, "severity");
      if !severity.JString? || Lower(severity.s) !in BLOCKING_SEVERITIES then Harmless
      else if !Get(raw.fields, "artifact").JObject? then Malformed
      else
        var artifact := Get(raw.fields, "artifact").fields;
        var key := MakeKey(RequiredString(vulnerability, "id"), RequiredString(vulnerability, "namespace"),
                           RequiredString(artifact, "name"), RequiredString(artifact, "type"),
                           RequiredString(artifact, "version"));
        if key.None? then Malformed else Finding(key.value, HasFix(vulnerability))
  }

  // What one entry of the report says, read off the document.

  ghost predicate HasVulnerability(raw: Json) {
    raw.JObject? && "vulnerability" in raw.fields && raw.fields["vulnerability"].JObject?
  }

  ghost predicate IsBlocking(raw: Json) {
    && HasVulnerability(raw)
    && var v := raw.fields["vulnerability"].fields;
    && "severity" in v && v["severity"].JString?
    && (Spells(v["severity"].s, "critical") || Spells(v["severity"].s, "high"))
  }

  ghost predicate OffersFix(raw: Json) {
    && HasVulnerability(raw)
    && var v := raw.fields["vulnerability"].fields;
    && "fix" in v && v["fix"].JObject?
    && "versions" in v["fix"].fields && v["fix"].fields["versions"].JArray?
    && exists version :: version in v["fix"].fields["versions"].items && version.JString? && !IsBlank(version.s)
  }

  ghost predicate Identifies(raw: Json, key: FindingKey) {
    && HasVulnerability(raw) && "artifact" in raw.fields && raw.fields["artifact"].JObject?
    && var v, a := raw.fields["vulnerability"].fields, raw.fields["artifact"].fields;
    && Holds(v, "id", key.vulnerabilityId) && Holds(v, "namespace", key.namespace)
    && Holds(a, "name", key.package) && Holds(a, "type", key.packageType) && Holds(a, "version", key.installedVersion)
  }

  /** A critical or high finding with this key, with or without a fix. */
  ghost predicate IsFinding(raw: Json, key: FindingKey, fixable: bool) {
    IsBlocking(raw) && Identifies(raw, key) && (fixable <==> OffersFix(raw))
  }

  lemma SeverityExactly(severity: string)
    ensures Lower(severity) in BLOCKING_SEVERITIES <==> Spells(severity, "critical") || Spells(severity, "high")
  {
    hide Lower, Spells;
    LowerSpells(severity, "critical");
    LowerSpells(severity, "high");
  }

  lemma HasFixExactly(raw: Json)
    requires HasVulnerability(raw)
    ensures HasFix(raw.fields["vulnerability"].fields) <==> OffersFix(raw)
  {
    hide Strip, IsBlank, TrimsTo;
    forall s ensures Strip(s) != "" <==> !IsBlank(s) {
      StripTrims(s);
      TrimmedIsText(s, Strip(s));
    }
  }

  lemma TrimmedIsText(s: string, t: string)
    ensures TrimsTo(s, t) ==> t != ""
  {
  }

  lemma KeyExactly(v: map<string, Json>, a: map<string, Json>, key: FindingKey)
    ensures MakeKey(RequiredString(v, "id"), RequiredString(v, "namespace"),
                    RequiredString(a, "name"), RequiredString(a, "type"), RequiredString(a, "version")) == Some(key)
      <==>
      && Holds(v, "id", key.vulnerabilityId) && Holds(v, "namespace", key.namespace)
      && Holds(a, "name", key.package) && Holds(a, "type", key.packageType) && Holds(a, "version", key.installedVersion)
  {
    hide RequiredString, Holds;
    RequiredStringExactly(v, "id", key.vulnerabilityId);
    RequiredStringExactly(v, "namespace", key.namespace);
    RequiredStringExactly(a, "name", key.package);
    RequiredStringExactly(a, "type", key.packageType);
    RequiredStringExactly(a, "version", key.installedVersion);
  }

  /** Each entry is read for what it says, and refused exactly when it lacks a part it needs. */
  lemma ReadMatchExactly(raw: Json, key: FindingKey, fixable: bool)
    ensures ReadMatch(raw) == Finding(key, fixable) <==> IsFinding(raw, key, fixable)
    ensures ReadMatch(raw) == Harmless <==> HasVulnerability(raw) && !IsBlocking(raw)
  {
    hide RequiredString, Holds, Lower, Spells, HasFix, OffersFix, MakeKey;
    if HasVulnerability(raw) {
      var v := raw.fields["vulnerability"].fields;
      HasFixExactly(raw);
      if "severity" in v && v["severity"].JString? {
        SeverityExactly(v["severity"].s);
      }
      if "artifact" in raw.fields && raw.fields["artifact"].JObject? {
        KeyExactly(v, raw.fields["artifact"].fields, key);
      }
    }
  }

  lemma MalformedExactly(raw: Json)
    ensures !ReadMatch(raw).Malformed? <==>
      HasVulnerability(raw) && (IsBlocking(raw) ==> exists key :: Identifies(raw, key))
  {
    forall key, fixable ensures ReadMatch(raw) == Finding(key, fixable) <==> IsFinding(raw, key, fixable) {
      ReadMatchExactly(raw, key, fixable);
    }
    ReadMatchExactly(raw, FindingKey("", "", "", "", ""), true);
    hide ReadMatch, HasVulnerability, IsBlocking, Identifies, OffersFix;
    if ReadMatch(raw).Finding? {
      var m := ReadMatch(raw);
      assert IsFinding(raw, m.key, m.fixable);
    }
    if key :| IsBlocking(raw) && Identifies(raw, key) {
      assert IsFinding(raw, key, OffersFix(raw));
    }
  }

  function KeysOf(matches: seq<Json>, fixable: bool): set<FindingKey> {
    set m | m in matches && ReadMatch(m).Finding? && ReadMatch(m).fixable == fixable :: ReadMatch(m).key
  }

  predicate ReadableReport(report: map<string, Json>) {
    Get(report, "matches").JArray? && forall m :: m in Get(report, "matches").items ==> !ReadMatch(m).Malformed?
  }

  /** Every entry has a vulnerability, and every critical or high one can be identified. */
  ghost predicate IsReadable(report: map<string, Json>) {
    && "matches" in report && report["matches"].JArray?
    && forall m :: m in report["matches"].items ==>
         HasVulnerability(m) && (IsBlocking(m) ==> exists key :: Identifies(m, key))
  }

  lemma ReadableExactly(report: map<string, Json>)
    ensures ReadableReport(report) <==> IsReadable(report)
  {
    forall m ensures !ReadMatch(m).Malformed? <==>
        HasVulnerability(m) && (IsBlocking(m) ==> exists key :: Identifies(m, key))
    {
      MalformedExactly(m);
    }
    hide ReadMatch, HasVulnerability, IsBlocking, Identifies;
  }

  /** Each key stands for a finding of the report that has this key and a fix. */
  ghost predicate AreFindings(actionable: map<FindingKey, Json>, matches: seq<Json>) {
    forall key :: key in actionable ==>
      actionable[key] in matches && ReadMatch(actionable[key]) == Finding(key, true)
  }

  ghost predicate Reports(matches: seq<Json>, key: FindingKey, fixable: bool) {
    exists m :: m in matches && IsFinding(m, key, fixable)
  }

  lemma KeysExactly(matches: seq<Json>, key: FindingKey, fixable: bool)
    ensures key in KeysOf(matches, fixable) <==> Reports(matches, key, fixable)
  {
    forall m ensures ReadMatch(m) == Finding(key, fixable) <==> IsFinding(m, key, fixable) {
      ReadMatchExactly(m, key, fixable);
    }
    hide ReadMatch, IsFinding;
    if key in KeysOf(matches, fixable) {
      var m :| m in matches && ReadMatch(m) == Finding(key, fixable);
    }
    if m :| m in matches && IsFinding(m, key, fixable) {
      assert ReadMatch(m) == Finding(key, fixable);
    }
  }

  /** The critical and high findings, those with a fix apart from those without. */
  ghost predicate AreSplitByFix(actionable: map<FindingKey, Json>, unfixed: set<FindingKey>, matches: seq<Json>) {
    && (forall key :: key in actionable <==> Reports(matches, key, true))
    && (forall key :: key in actionable ==> actionable[key] in matches && IsFinding(actionable[key], key, true))
    && (forall key :: key in unfixed <==> Reports(matches, key, false))
  }

  lemma FindingsExactly(actionable: map<FindingKey, Json>, unfixed: set<FindingKey>, matches: seq<Json>)
    requires actionable.Keys == KeysOf(matches, true) && unfixed == KeysOf(matches, false)
    requires AreFindings(actionable, matches)
    ensures AreSplitByFix(actionable, unfixed, matches)
  {
    hide ReadMatch, IsFinding, KeysOf, Reports;
    forall key, b ensures key in KeysOf(matches, b) <==> Reports(matches, key, b) {
      KeysExactly(matches, key, b);
    }
    forall key | key in actionable ensures IsFinding(actionable[key], key, true) {
      ReadMatchExactly(actionable[key], key, true);
    }
    assert forall key :: key in actionable <==> key in KeysOf(matches, true);
  }

  lemma NoFindings(matches: seq<Json>)
    ensures AreFindings(map[], matches) && KeysOf(matches[..0], true) == {} == KeysOf(matches[..0], false)
  {
  }

  lemma OneMoreFinding(actionable: map<FindingKey, Json>, matches: seq<Json>, i: nat)
    requires AreFindings(actionable, matches) && i < |matches|
    ensures var m := ReadMatch(matches[i]);
      m.Finding? && m.fixable ==> AreFindings(actionable[m.key := matches[i]], matches)
  {
    hide ReadMatch;
  }

  /** `_actionable_findings` */
  method ActionableFindings(report: map<string, Json>)
    returns (r: Option<(map<FindingKey, Json>, set<FindingKey>)>)
    ensures r.Some? <==> ReadableReport(report)
    ensures r.Some? <==> IsReadable(report)
    ensures r.Some? ==> var matches := Get(report, "matches").items;
      r.value.0.Keys == KeysOf(matches, true) && r.value.1 == KeysOf(matches, false)
      && AreFindings(r.value.0, matches)
    ensures r.Some? ==> AreSplitByFix(r.value.0, r.value.1, Get(report, "matches").items)
  {
    ReadableExactly(report);
    hide ReadMatch, KeysOf, AreFindings, AreSplitByFix, IsReadable;
    if !Get(report, "matches").JArray? {
      return None;
    }
    var matches := Get(report, "matches").items;
    var actionable: map<FindingKey, Json> := map[];
    var unfixed: set<FindingKey> := {};
    NoFindings(matches);
    for i := 0 to |matches|
      invariant forall k :: 0 <= k < i ==> !ReadMatch(matches[k]).Malformed?
      invariant actionable.Keys == KeysOf(matches[..i], true) && unfixed == KeysOf(matches[..i], false)
      invariant AreFindings(actionable, matches)
    {
      var m := ReadMatch(matches[i]);
      KeysOfNext(matches, i);
      OneMoreFinding(actionable, matches, i);
      if m.Malformed? {
        return None;
      }
      if m.Finding? {
        if m.fixable {
          actionable := actionable[m.key := matches[i]];
        } else {
          unfixed := unfixed + {m.key};
        }
      }
    }
    assert matches[..|matches|] == matches;
    FindingsExactly(actionable, unfixed, matches);
    r := Some((actionable, unfixed));
  }

  /** The key that one entry adds. */
  function KeyAdded(raw: Json, fixable: bool): set<FindingKey> {
    var m := ReadMatch(raw);
    if m.Finding? && m.fixable == fixable then {m.key} else {}
  }

  lemma KeysOfNext(matches: seq<Json>, i: nat)
    requires i < |matches|
    ensures forall b :: KeysOf(matches[..i + 1], b) == KeysOf(matches[..i], b) + KeyAdded(matches[i], b)
  {
    hide ReadMatch;
    assert matches[..i + 1] == matches[..i] + [matches[i]];
    assert forall m :: m in matches[..i + 1] <==> m in matches[..i] || m == matches[i];
  }

  // ---------------------------------------------------------------- exceptions

  const REQUIRED_EXCEPTION_FIELDS: set<string> := {
    "expires_on", "installed_version", "namespace", "owner", "package", "package_type",
    "reason", "removal_plan", "reviewed_on", "vulnerability_id"}

  const EXPECTED_POLICY_SCHEMA_VERSION := "1.0"
  const MAX_EXCEPTION_WINDOW_DAYS := 90
  const MIN_TEXT := 40

  /** Dates are day numbers; `parseDate` is the ISO parser. */
  type DateParser = string -> Option<int>

  /** An exception applies from its review to its expiry, both included. */
  datatype Exception = Exception(key: FindingKey, reviewedOn: int, expiresOn: int) {
    predicate Covers(today: int) {
      reviewedOn <= today <= expiresOn
    }
  }

  function RequiredDate(document: map<string, Json>, field: string, parseDate: DateParser): Option<int> {
    var text := RequiredString(document, field);
    if text.None? then None else parseDate(text.value)
  }

  /** Everything an exception must satisfy on any day. */
  function ReadException(raw: Json, parseDate: DateParser): Option<Exception> {
    if !raw.JObject? || raw.fields.Keys != REQUIRED_EXCEPTION_FIELDS then None
    else
      var e := raw.fields;
      var key := MakeKey(RequiredString(e, "vulnerability_id"), RequiredString(e, "namespace"),
                         RequiredString(e, "package"), RequiredString(e, "package_type"),
                         RequiredString(e, "installed_version"));
      var reason, plan := RequiredString(e, "reason"), RequiredString(e, "removal_plan");
      var reviewedOn, expiresOn := RequiredDate(e, "reviewed_on", parseDate), RequiredDate(e, "expires_on", parseDate);
      if key.None? || RequiredString(e, "owner").None? || reason.None? || plan.None?
         || |reason.value| < MIN_TEXT || |plan.value| < MIN_TEXT || reviewedOn.None? || expiresOn.None?
         || !(1 <= expiresOn.value - reviewedOn.value <= MAX_EXCEPTION_WINDOW_DAYS)
      then None
      else Some(Exception(key.value, reviewedOn.value, expiresOn.value))
  }

  // What one exception says, read off the policy document.

  ghost predicate HoldsLongText(document: map<string, Json>, field: string) {
    exists text :: Holds(document, field, text) && |text| >= 40
  }

  ghost predicate HoldsDate(document: map<string, Json>, field: string, day: int, parseDate: DateParser) {
    exists text :: Holds(document, field, text) && parseDate(text) == Some(day)
  }

  /** The ten fields and no other, all of them texts; two long explanations; a window of 1 to 90 days. */
  ghost predicate IsException(raw: Json, parseDate: DateParser, e: Exception) {
    && raw.JObject?
    && raw.fields.Keys == {"vulnerability_id", "namespace", "package", "package_type", "installed_version",
                           "owner", "reason", "removal_plan", "reviewed_on", "expires_on"}
    && Holds(raw.fields, "vulnerability_id", e.key.vulnerabilityId) && Holds(raw.fields, "namespace", e.key.namespace)
    && Holds(raw.fields, "package", e.key.package) && Holds(raw.fields, "package_type", e.key.packageType)
    && Holds(raw.fields, "installed_version", e.key.installedVersion)
    && (exists owner :: Holds(raw.fields, "owner", owner))
    && HoldsLongText(raw.fields, "reason") && HoldsLongText(raw.fields, "removal_plan")
    && HoldsDate(raw.fields, "reviewed_on", e.reviewedOn, parseDate)
    && HoldsDate(raw.fields, "expires_on", e.expiresOn, parseDate)
    && 1 <= e.expiresOn - e.reviewedOn <= 90
  }

  lemma RequiredTexts(document: map<string, Json>, field: string, parseDate: DateParser)
    ensures RequiredString(document, field).Some? <==> exists text :: Holds(document, field, text)
    ensures (RequiredString(document, field).Some? && |RequiredString(document, field).value| >= 40)
      <==> HoldsLongText(document, field)
    ensures forall day ::
      RequiredDate(document, field, parseDate) == Some(day) <==> HoldsDate(document, field, day, parseDate)
  {
    var read := RequiredString(document, field);
    forall text ensures read == Some(text) <==> Holds(document, field, text) {
      RequiredStringExactly(document, field, text);
    }
    hide RequiredString, Holds;
    if read.Some? {
      assert Holds(document, field, read.value);
    }
    forall day | HoldsDate(document, field, day, parseDate)
      ensures RequiredDate(document, field, parseDate) == Some(day)
    {
      var text :| Holds(document, field, text) && parseDate(text) == Some(day);
    }
  }

  lemma ExceptionKeyExactly(f: map<string, Json>, key: FindingKey)
    ensures MakeKey(RequiredString(f, "vulnerability_id"), RequiredString(f, "namespace"),
                    RequiredString(f, "package"), RequiredString(f, "package_type"),
                    RequiredString(f, "installed_version")) == Some(key)
      <==>
      && Holds(f, "vulnerability_id", key.vulnerabilityId) && Holds(f, "namespace", key.namespace)
      && Holds(f, "package", key.package) && Holds(f, "package_type", key.packageType)
      && Holds(f, "installed_version", key.installedVersion)
  {
    hide RequiredString, Holds;
    RequiredStringExactly(f, "vulnerability_id", key.vulnerabilityId);
    RequiredStringExactly(f, "namespace", key.namespace);
    RequiredStringExactly(f, "package", key.package);
    RequiredStringExactly(f, "package_type", key.packageType);
    RequiredStringExactly(f, "installed_version", key.installedVersion);
  }

  lemma ReadExceptionExactly(raw: Json, parseDate: DateParser, e: Exception)
    ensures ReadException(raw, parseDate) == Some(e) <==> IsException(raw, parseDate, e)
  {
    hide RequiredString, RequiredDate, Holds, HoldsLongText, HoldsDate, MakeKey;
    if raw.JObject? {
      ExceptionKeyExactly(raw.fields, e.key);
      RequiredTexts(raw.fields, "owner", parseDate);
      RequiredTexts(raw.fields, "reason", parseDate);
      RequiredTexts(raw.fields, "removal_plan", parseDate);
      RequiredTexts(raw.fields, "reviewed_on", parseDate);
      RequiredTexts(raw.fields, "expires_on", parseDate);
    }
  }

  predicate HasExceptions(policy: map<string, Json>) {
    Get(policy, "schema_version") == JString(EXPECTED_POLICY_SCHEMA_VERSION) && Get(policy, "exceptions").JArray?
  }

  function ExceptionKey(parseDate: DateParser): Json -> Option<FindingKey> {
    (raw: Json) => var e := ReadException(raw, parseDate); if e.None? then None else Some(e.value.key)
  }

  predicate Applies(raw: Json, parseDate: DateParser, today: int) {
    var e := ReadException(raw, parseDate);
    e.Some? && e.value.Covers(today)
  }

  /** A list of exceptions in force: each is well-formed and covers the day, no two share a key. */
  ghost predicate InForce(exceptions: seq<Json>, parseDate: DateParser, today: int) {
    && (forall raw :: raw in exceptions ==> Applies(raw, parseDate, today))
    && !Repeats(exceptions, ExceptionKey(parseDate))
  }

  /** Each key with the day on which its exception expires. */
  ghost predicate Records(records: map<FindingKey, int>, exceptions: seq<Json>, parseDate: DateParser) {
    && (forall raw :: raw in exceptions && ReadException(raw, parseDate).Some? ==>
          var e := ReadException(raw, parseDate).value;
          e.key in records && records[e.key] == e.expiresOn)
    && (forall key :: key in records ==>
          exists raw :: raw in exceptions && ExceptionKey(parseDate)(raw) == Some(key))
  }

  ghost predicate IsExceptionFor(raw: Json, parseDate: DateParser, today: int) {
    exists e :: IsException(raw, parseDate, e) && e.reviewedOn <= today <= e.expiresOn
  }

  ghost predicate ExcuseTheSame(x: Json, y: Json, parseDate: DateParser) {
    exists d, e :: IsException(x, parseDate, d) && IsException(y, parseDate, e) && d.key == e.key
  }

  /** Every listed exception is complete and covers the day, and no two of them excuse the same finding. */
  ghost predicate AllCover(exceptions: seq<Json>, parseDate: DateParser, today: int) {
    && (forall raw :: raw in exceptions ==> IsExceptionFor(raw, parseDate, today))
    && (forall i, j :: 0 <= i < j < |exceptions| ==> !ExcuseTheSame(exceptions[i], exceptions[j], parseDate))
  }

  lemma AppliesExactly(raw: Json, parseDate: DateParser, today: int)
    ensures Applies(raw, parseDate, today) <==> IsExceptionFor(raw, parseDate, today)
  {
    forall e ensures ReadException(raw, parseDate) == Some(e) <==> IsException(raw, parseDate, e) {
      ReadExceptionExactly(raw, parseDate, e);
    }
    hide ReadException, IsException;
    if Applies(raw, parseDate, today) {
      assert IsException(raw, parseDate, ReadException(raw, parseDate).value);
    }
  }

  lemma SameKeyExactly(x: Json, y: Json, parseDate: DateParser)
    ensures ExcuseTheSame(x, y, parseDate) <==>
      ExceptionKey(parseDate)(x).Some? && ExceptionKey(parseDate)(x) == ExceptionKey(parseDate)(y)
  {
    forall e ensures ReadException(x, parseDate) == Some(e) <==> IsException(x, parseDate, e) {
      ReadExceptionExactly(x, parseDate, e);
    }
    forall e ensures ReadException(y, parseDate) == Some(e) <==> IsException(y, parseDate, e) {
      ReadExceptionExactly(y, parseDate, e);
    }
    hide ReadException, IsException;
    if ExceptionKey(parseDate)(x).Some? && ExceptionKey(parseDate)(x) == ExceptionKey(parseDate)(y) {
      assert IsException(x, parseDate, ReadException(x, parseDate).value);
      assert IsException(y, parseDate, ReadException(y, parseDate).value);
    }
  }

  lemma InForceExactly(exceptions: seq<Json>, parseDate: DateParser, today: int)
    ensures InForce(exceptions, parseDate, today) <==> AllCover(exceptions, parseDate, today)
  {
    forall raw ensures Applies(raw, parseDate, today) <==> IsExceptionFor(raw, parseDate, today) {
      AppliesExactly(raw, parseDate, today);
    }
    var key := ExceptionKey(parseDate);
    forall x, y ensures ExcuseTheSame(x, y, parseDate) <==> key(x).Some? && key(x) == key(y) {
      SameKeyExactly(x, y, parseDate);
    }
    hide Applies, IsExceptionFor, ExcuseTheSame, ExceptionKey;
  }

  ghost predicate IsExcused(exceptions: seq<Json>, key: FindingKey, day: int, parseDate: DateParser) {
    exists raw, e :: raw in exceptions && IsException(raw, parseDate, e) && e.key == key && e.expiresOn == day
  }

  /** Each excused finding with the day on which its exception expires. */
  ghost predicate AreExpiries(records: map<FindingKey, int>, exceptions: seq<Json>, parseDate: DateParser) {
    forall key, day :: key in records && records[key] == day <==> IsExcused(exceptions, key, day, parseDate)
  }

  lemma ExcusedExactly(records: map<FindingKey, int>, exceptions: seq<Json>, key: FindingKey, day: int,
          parseDate: DateParser)
    requires Records(records, exceptions, parseDate)
    ensures key in records && records[key] == day <==> IsExcused(exceptions, key, day, parseDate)
  {
    hide ReadException, IsException;
    if key in records && records[key] == day {
      var raw :| raw in exceptions && ExceptionKey(parseDate)(raw) == Some(key);
      var e := ReadException(raw, parseDate).value;
      ReadExceptionExactly(raw, parseDate, e);
      assert IsException(raw, parseDate, e);
    }
    if raw, e :| raw in exceptions && IsException(raw, parseDate, e) && e.key == key && e.expiresOn == day {
      ReadExceptionExactly(raw, parseDate, e);
    }
  }

  lemma RecordsExactly(records: map<FindingKey, int>, exceptions: seq<Json>, parseDate: DateParser)
    requires Records(records, exceptions, parseDate)
    ensures AreExpiries(records, exceptions, parseDate)
  {
    hide Records, IsExcused;
    forall key, day
      ensures key in records && records[key] == day <==> IsExcused(exceptions, key, day, parseDate)
    {
      ExcusedExactly(records, exceptions, key, day, parseDate);
    }
  }

  /** The policy document is in the known format, and its exceptions cover the day. */
  ghost predicate IsPolicyFor(policy: map<string, Json>, parseDate: DateParser, today: int) {
    && "schema_version" in policy && policy["schema_version"] == JString("1.0")
    && "exceptions" in policy && policy["exceptions"].JArray?
    && AllCover(policy["exceptions"].items, parseDate, today)
  }

  lemma PolicyExactly(policy: map<string, Json>, parseDate: DateParser, today: int)
    ensures HasExceptions(policy) && InForce(Get(policy, "exceptions").items, parseDate, today)
      <==> IsPolicyFor(policy, parseDate, today)
  {
    hide InForce, AllCover;
    if HasExceptions(policy) {
      InForceExactly(Get(policy, "exceptions").items, parseDate, today);
    }
  }

  /** `_exception_records` */
  method ExceptionRecords(policy: map<string, Json>, parseDate: DateParser, today: int)
    returns (r: Option<map<FindingKey, int>>)
    ensures r.Some? <==> HasExceptions(policy) && InForce(Get(policy, "exceptions").items, parseDate, today)
    ensures r.Some? ==> Records(r.value, Get(policy, "exceptions").items, parseDate)
    ensures r.Some? <==> IsPolicyFor(policy, parseDate, today)
    ensures r.Some? ==> AreExpiries(r.value, Get(policy, "exceptions").items, parseDate)
  {
    hide ReadException, Applies, Records, IsPolicyFor, AreExpiries;
    PolicyExactly(policy, parseDate, today);
    if !HasExceptions(policy) {
      return None;
    }
    var exceptions := Get(policy, "exceptions").items;
    var records: map<FindingKey, int> := map[];
    NoExceptions(parseDate);
    for i := 0 to |exceptions|
      invariant InForce(exceptions[..i], parseDate, today) && Records(records, exceptions[..i], parseDate)
    {
      var raw := exceptions[i];
      assert exceptions[..i + 1] == exceptions[..i] + [raw];
      NextException(exceptions[..i], raw, parseDate, today, records);
      var read := ReadException(raw, parseDate);
      if !Applies(raw, parseDate, today) || read.value.key in records {
        NotInForce(exceptions, i + 1, parseDate, today);
        return None;
      }
      records := records[read.value.key := read.value.expiresOn];
    }
    assert exceptions[..|exceptions|] == exceptions;
    RecordsExactly(records, exceptions, parseDate);
    r := Some(records);
  }

  lemma NoExceptions(parseDate: DateParser)
    ensures Records(map[], [], parseDate)
  {
  }

  lemma NotInForce(exceptions: seq<Json>, n: nat, parseDate: DateParser, today: int)
    requires n <= |exceptions| && !InForce(exceptions[..n], parseDate, today)
    ensures !InForce(exceptions, parseDate, today)
  {
    hide ReadException, Applies;
    if Repeats(exceptions[..n], ExceptionKey(parseDate)) {
      var key := ExceptionKey(parseDate);
      var i, j :| 0 <= i < j < n && key(exceptions[..n][i]).Some? && key(exceptions[..n][i]) == key(exceptions[..n][j]);
      assert key(exceptions[i]) == key(exceptions[j]);
    }
  }

  /** One more exception: what it needs, and what it adds. */
  lemma NextException(before: seq<Json>, raw: Json, parseDate: DateParser, today: int, records: map<FindingKey, int>)
    requires InForce(before, parseDate, today) && Records(records, before, parseDate)
    ensures Applies(raw, parseDate, today) ==> ReadException(raw, parseDate).Some?
    ensures InForce(before + [raw], parseDate, today) <==>
      Applies(raw, parseDate, today) && ReadException(raw, parseDate).value.key !in records
    ensures Applies(raw, parseDate, today) && ReadException(raw, parseDate).value.key !in records ==>
      var e := ReadException(raw, parseDate).value; Records(records[e.key := e.expiresOn], before + [raw], parseDate)
  {
    hide ReadException, Records, InForce;
    var after, key := before + [raw], ExceptionKey(parseDate);
    if Applies(raw, parseDate, today) {
      if ReadException(raw, parseDate).value.key in records {
        KeyIsTaken(before, raw, parseDate, records);
        RepeatIsNotInForce(after, parseDate, today);
      } else {
        KeyIsFree(before, raw, parseDate, today, records);
      }
    } else {
      assert after[|before|] == raw;
      InForceApplies(after, raw, parseDate, today);
    }
  }

  lemma RepeatIsNotInForce(exceptions: seq<Json>, parseDate: DateParser, today: int)
    requires Repeats(exceptions, ExceptionKey(parseDate))
    ensures !InForce(exceptions, parseDate, today)
  {
  }

  lemma InForceApplies(exceptions: seq<Json>, raw: Json, parseDate: DateParser, today: int)
    requires raw in exceptions && !Applies(raw, parseDate, today)
    ensures !InForce(exceptions, parseDate, today)
  {
  }

  lemma KeyIsTaken(before: seq<Json>, raw: Json, parseDate: DateParser, records: map<FindingKey, int>)
    requires Records(records, before, parseDate) && ReadException(raw, parseDate).Some?
    requires ReadException(raw, parseDate).value.key in records
    ensures Repeats(before + [raw], ExceptionKey(parseDate))
  {
    hide ReadException;
    var after, key := before + [raw], ExceptionKey(parseDate);
    var other :| other in before && key(other) == key(raw);
    var i :| 0 <= i < |before| && before[i] == other;
    assert key(after[i]) == key(after[|before|]);
  }

  lemma KeyIsFree(before: seq<Json>, raw: Json, parseDate: DateParser, today: int, records: map<FindingKey, int>)
    requires InForce(before, parseDate, today) && Records(records, before, parseDate) && Applies(raw, parseDate, today)
    requires ReadException(raw, parseDate).Some? && ReadException(raw, parseDate).value.key !in records
    ensures InForce(before + [raw], parseDate, today)
    ensures var e := ReadException(raw, parseDate).value;
      Records(records[e.key := e.expiresOn], before + [raw], parseDate)
  {
    hide ReadException;
    var after, key := before + [raw], ExceptionKey(parseDate);
    assert forall x :: x in after <==> x in before || x == raw;
    forall i, j | 0 <= i < j < |after| && key(after[i]).Some? ensures key(after[i]) != key(after[j]) {
      if j < |before| {
        assert before[i] == after[i] && before[j] == after[j];
      } else {
        assert after[i] in before;
      }
    }
  }

  // ---------------------------------------------------------------- the verdict

  datatype Approved = Approved(expiresOn: int, installedVersion: string, package: string, vulnerabilityId: string)

  datatype Verdict =
    | Passed(actionable: nat, approved: seq<Approved>, effectiveDate: int, unfixed: nat)
    | Refused(unapproved: seq<FindingKey>, stale: seq<FindingKey>)
    | Invalid

  function Approvals(keys: seq<FindingKey>, records: map<FindingKey, int>): (r: seq<Approved>)
    requires forall k :: 0 <= k < |keys| ==> keys[k] in records
    ensures |r| == |keys| && forall k :: 0 <= k < |keys| ==>
      r[k] == Approved(records[keys[k]], keys[k].installedVersion, keys[k].package, keys[k].vulnerabilityId)
  {
    if keys == [] then []
    else
      var k := keys[0];
      [Approved(records[k], k.installedVersion, k.package, k.vulnerabilityId)] + Approvals(keys[1..], records)
  }

  function Matches(report: map<string, Json>): seq<Json>
    requires Get(report, "matches").JArray?
  {
    Get(report, "matches").items
  }

  function Exceptions(policy: map<string, Json>): seq<Json>
    requires HasExceptions(policy)
  {
    Get(policy, "exceptions").items
  }

  function ExceptionKeys(exceptions: seq<Json>, parseDate: DateParser): set<FindingKey> {
    set raw | raw in exceptions && ReadException(raw, parseDate).Some? :: ReadException(raw, parseDate).value.key
  }

  /** An entry of the output, traced back to the exception that excuses the finding. */
  ghost predicate IsApprovalOf(a: Approved, key: FindingKey, exceptions: seq<Json>, parseDate: DateParser) {
    && a.installedVersion == key.installedVersion && a.package == key.package
    && a.vulnerabilityId == key.vulnerabilityId
    && exists raw :: raw in exceptions && Excuses(raw, key, a.expiresOn, parseDate)
  }

  predicate Excuses(raw: Json, key: FindingKey, expiresOn: int, parseDate: DateParser) {
    var e := ReadException(raw, parseDate);
    e.Some? && e.value.key == key && e.value.expiresOn == expiresOn
  }

  ghost predicate AreApprovals(approved: seq<Approved>, keys: seq<FindingKey>, exceptions: seq<Json>,
          parseDate: DateParser)
  {
    |approved| == |keys| && forall k :: 0 <= k < |keys| ==> IsApprovalOf(approved[k], keys[k], exceptions, parseDate)
  }

  /** The verdict on readable findings and exceptions in force; only their sets enter it. */
  ghost predicate IsVerdict(r: Verdict, found: set<FindingKey>, unfixed: set<FindingKey>,
                            exceptions: seq<Json>, parseDate: DateParser, today: int)
  {
    var excused := ExceptionKeys(exceptions, parseDate);
    if found != excused then r == Refused(SortedKeys(found - excused), SortedKeys(excused - found))
    else
      && r.Passed? && r.actionable == |found| && r.unfixed == |unfixed| && r.effectiveDate == today
      && AreApprovals(r.approved, SortedKeys(found), exceptions, parseDate)
  }

  /** All findings of one sort, each once, in order. */
  ghost predicate Lists(keys: seq<FindingKey>, matches: seq<Json>, fixable: bool) {
    StrictlyAscending(LessKey, keys) && forall key :: key in keys <==> Reports(matches, key, fixable)
  }

  ghost predicate HasException(exceptions: seq<Json>, key: FindingKey, parseDate: DateParser) {
    exists day :: IsExcused(exceptions, key, day, parseDate)
  }

  /** One output entry for each key, with the day on which its exception ends. */
  ghost predicate AreWrittenFor(approved: seq<Approved>, keys: seq<FindingKey>, exceptions: seq<Json>,
          parseDate: DateParser)
  {
    |approved| == |keys| && forall k :: 0 <= k < |keys| ==>
      && IsExcused(exceptions, keys[k], approved[k].expiresOn, parseDate)
      && approved[k].installedVersion == keys[k].installedVersion && approved[k].package == keys[k].package
      && approved[k].vulnerabilityId == keys[k].vulnerabilityId
  }

  /** The verdict read off the documents: what is refused and why, or what is approved until when. */
  ghost predicate IsJustified(r: Verdict, matches: seq<Json>, exceptions: seq<Json>, parseDate: DateParser,
          today: int)
  {
    match r
    case Invalid => false
    case Refused(unapproved, stale) =>
      && (unapproved != [] || stale != [])
      && StrictlyAscending(LessKey, unapproved) && StrictlyAscending(LessKey, stale)
      && (forall key :: key in unapproved <==> Reports(matches, key, true) && !HasException(exceptions, key, parseDate))
      && (forall key :: key in stale <==> !Reports(matches, key, true) && HasException(exceptions, key, parseDate))
    case Passed(actionable, approved, effectiveDate, unfixed) =>
      && effectiveDate == today
      && (forall key :: HasException(exceptions, key, parseDate) ==> Reports(matches, key, true))
      && (exists keys :: Lists(keys, matches, true) && actionable == |keys|
            && AreWrittenFor(approved, keys, exceptions, parseDate))
      && (exists keys :: Lists(keys, matches, false) && unfixed == |keys|)
  }

  lemma SortedKeysList(matches: seq<Json>, fixable: bool)
    ensures Lists(SortedKeys(KeysOf(matches, fixable)), matches, fixable)
    ensures |SortedKeys(KeysOf(matches, fixable))| == |KeysOf(matches, fixable)|
  {
    hide LessKey, KeysOf, Reports;
    var keys := SortedKeys(KeysOf(matches, fixable));
    KeysAreOrdered();
    AscendingSize(LessKey, keys);
    forall key ensures key in keys <==> Reports(matches, key, fixable) {
      KeysExactly(matches, key, fixable);
      assert key in keys <==> key in Elements(keys);
    }
  }

  lemma ExceptionKeysExactly(exceptions: seq<Json>, key: FindingKey, parseDate: DateParser)
    ensures key in ExceptionKeys(exceptions, parseDate) <==> HasException(exceptions, key, parseDate)
  {
    hide ReadException, IsException;
    if key in ExceptionKeys(exceptions, parseDate) {
      var raw :|
        raw in exceptions && ReadException(raw, parseDate).Some? && ReadException(raw, parseDate).value.key == key;
      var e := ReadException(raw, parseDate).value;
      ReadExceptionExactly(raw, parseDate, e);
      assert IsExcused(exceptions, key, e.expiresOn, parseDate);
    }
    if day :| IsExcused(exceptions, key, day, parseDate) {
      var raw, e :| raw in exceptions && IsException(raw, parseDate, e) && e.key == key && e.expiresOn == day;
      ReadExceptionExactly(raw, parseDate, e);
    }
  }

  lemma ApprovalsAreWritten(approved: seq<Approved>, keys: seq<FindingKey>, exceptions: seq<Json>,
          parseDate: DateParser)
    requires AreApprovals(approved, keys, exceptions, parseDate)
    ensures AreWrittenFor(approved, keys, exceptions, parseDate)
  {
    hide ReadException, IsException;
    forall k | 0 <= k < |keys| ensures IsExcused(exceptions, keys[k], approved[k].expiresOn, parseDate) {
      assert IsApprovalOf(approved[k], keys[k], exceptions, parseDate);
      var raw :| raw in exceptions && Excuses(raw, keys[k], approved[k].expiresOn, parseDate);
      var e := ReadException(raw, parseDate).value;
      ReadExceptionExactly(raw, parseDate, e);
      assert IsException(raw, parseDate, e);
    }
  }

  lemma VerdictIsJustified(r: Verdict, matches: seq<Json>, exceptions: seq<Json>, parseDate: DateParser, today: int)
    requires IsVerdict(r, KeysOf(matches, true), KeysOf(matches, false), exceptions, parseDate, today)
    ensures IsJustified(r, matches, exceptions, parseDate, today)
  {
    hide LessKey, KeysOf, ExceptionKeys, Reports, HasException, AreWrittenFor, AreApprovals, Lists;
    var found, excused := KeysOf(matches, true), ExceptionKeys(exceptions, parseDate);
    forall key
      ensures key in found <==> Reports(matches, key, true)
      ensures key in excused <==> HasException(exceptions, key, parseDate)
    {
      KeysExactly(matches, key, true);
      ExceptionKeysExactly(exceptions, key, parseDate);
    }
    if r.Refused? {
      assert forall key :: key in r.unapproved <==> key in Elements(r.unapproved);
      assert forall key :: key in r.stale <==> key in Elements(r.stale);
      NoneSorted(found - excused);
      NoneSorted(excused - found);
    } else {
      SortedKeysList(matches, true);
      SortedKeysList(matches, false);
      ApprovalsAreWritten(r.approved, SortedKeys(found), exceptions, parseDate);
      assert Lists(SortedKeys(KeysOf(matches, false)), matches, false);
    }
  }

  ghost predicate IsValid(report: map<string, Json>, policy: map<string, Json>, parseDate: DateParser, today: int) {
    ReadableReport(report) && HasExceptions(policy) && InForce(Exceptions(policy), parseDate, today)
  }

  /** `evaluate_vulnerability_policy` */
  method EvaluateVulnerabilityPolicy(report: map<string, Json>, policy: map<string, Json>, parseDate: DateParser,
          today: int)
    returns (r: Verdict)
    ensures r.Invalid? <==> !IsValid(report, policy, parseDate, today)
    ensures !r.Invalid? ==>
      IsVerdict(r, KeysOf(Matches(report), true), KeysOf(Matches(report), false), Exceptions(policy), parseDate, today)
    ensures r.Invalid? <==> !IsReadable(report) || !IsPolicyFor(policy, parseDate, today)
    ensures !r.Invalid? ==>
      IsJustified(r, Get(report, "matches").items, Get(policy, "exceptions").items, parseDate, today)
  {
    hide ReadMatch, ReadException, InForce, KeysOf, ExceptionKeys, AreApprovals, Records, HasExceptions;
    hide IsReadable, AreSplitByFix, AreFindings, IsPolicyFor, AreExpiries, IsJustified;
    var findings := ActionableFindings(report);
    var records := ExceptionRecords(policy, parseDate, today);
    if findings.None? || records.None? {
      return Invalid;
    }
    var (actionable, unfixed) := findings.value;
    RecordedKeys(records.value, Exceptions(policy), parseDate);
    var found, excused := actionable.Keys, records.value.Keys;
    var unapproved := SortedKeys(found - excused);
    var stale := SortedKeys(excused - found);
    NoneSorted(found - excused);
    NoneSorted(excused - found);
    if unapproved != [] || stale != [] {
      r := Refused(unapproved, stale);
      VerdictIsJustified(r, Matches(report), Exceptions(policy), parseDate, today);
      return;
    }
    assert found == excused;
    var keys := SortedKeys(found);
    assert forall k :: 0 <= k < |keys| ==> keys[k] in Elements(keys);
    ApprovalsAreRecorded(keys, records.value, Exceptions(policy), parseDate);
    assert |actionable| == |found|;
    r := Passed(|actionable|, Approvals(keys, records.value), today, |unfixed|);
    VerdictIsJustified(r, Matches(report), Exceptions(policy), parseDate, today);
  }

  lemma ApprovalsAreRecorded(keys: seq<FindingKey>, records: map<FindingKey, int>, exceptions: seq<Json>,
          parseDate: DateParser)
    requires Records(records, exceptions, parseDate) && forall k :: 0 <= k < |keys| ==> keys[k] in records
    ensures AreApprovals(Approvals(keys, records), keys, exceptions, parseDate)
  {
    hide Records;
    forall k | 0 <= k < |keys| ensures IsApprovalOf(Approvals(keys, records)[k], keys[k], exceptions, parseDate) {
      ApprovalIsRecorded(keys[k], records, exceptions, parseDate);
    }
  }

  lemma ApprovalIsRecorded(key: FindingKey, records: map<FindingKey, int>, exceptions: seq<Json>, parseDate: DateParser)
    requires Records(records, exceptions, parseDate) && key in records
    ensures var a := Approved(records[key], key.installedVersion, key.package, key.vulnerabilityId);
      IsApprovalOf(a, key, exceptions, parseDate)
  {
    hide ReadException;
    var raw :| raw in exceptions && ExceptionKey(parseDate)(raw) == Some(key);
    assert Excuses(raw, key, records[key], parseDate);
  }

  lemma RecordedKeys(records: map<FindingKey, int>, exceptions: seq<Json>, parseDate: DateParser)
    requires Records(records, exceptions, parseDate)
    ensures records.Keys == ExceptionKeys(exceptions, parseDate)
  {
    hide ReadException;
    forall key | key in records ensures key in ExceptionKeys(exceptions, parseDate) {
      var raw :| raw in exceptions && ExceptionKey(parseDate)(raw) == Some(key);
    }
  }

  lemma NoneSorted(keys: set<FindingKey>)
    ensures SortedKeys(keys) == [] <==> keys == {}
  {
    var r := SortedKeys(keys);
    assert r != [] ==> r[0] in Elements(r);
  }

  // ---------------------------------------------------------------- which reports pass, and when

  /** Every requirement that does not mention the day. */
  ghost predicate PassesSomeDay(report: map<string, Json>, policy: map<string, Json>, parseDate: DateParser) {
    && ReadableReport(report) && HasExceptions(policy)
    && (forall raw :: raw in Exceptions(policy) ==> ReadException(raw, parseDate).Some?)
    && !Repeats(Exceptions(policy), ExceptionKey(parseDate))
    && KeysOf(Matches(report), true) == ExceptionKeys(Exceptions(policy), parseDate)
  }

  ghost predicate Passes(report: map<string, Json>, policy: map<string, Json>, parseDate: DateParser, today: int) {
    && IsValid(report, policy, parseDate, today)
    && exists r: Verdict :: r.Passed? &&
         IsVerdict(r, KeysOf(Matches(report), true), KeysOf(Matches(report), false),
                   Exceptions(policy), parseDate, today)
  }

  /** A day passes exactly when the pair is in order and every exception covers that day. */
  lemma PassesExactly(report: map<string, Json>, policy: map<string, Json>, parseDate: DateParser, today: int)
    ensures Passes(report, policy, parseDate, today) <==>
      (&& PassesSomeDay(report, policy, parseDate)
       && forall raw :: raw in Exceptions(policy) ==> ReadException(raw, parseDate).value.Covers(today))
  {
    hide ReadMatch, ReadException, KeysOf, AreApprovals;
    if PassesSomeDay(report, policy, parseDate)
       && forall raw :: raw in Exceptions(policy) ==> ReadException(raw, parseDate).value.Covers(today)
    {
      var found := KeysOf(Matches(report), true);
      var approved := ApprovalsExist(SortedKeys(found), Exceptions(policy), parseDate);
      assert IsVerdict(Passed(|found|, approved, today, |KeysOf(Matches(report), false)|),
                       found, KeysOf(Matches(report), false), Exceptions(policy), parseDate, today);
    }
  }

  lemma {:induction false} ApprovalsExist(keys: seq<FindingKey>, exceptions: seq<Json>, parseDate: DateParser)
    returns (r: seq<Approved>)
    requires Elements(keys) <= ExceptionKeys(exceptions, parseDate)
    ensures AreApprovals(r, keys, exceptions, parseDate)
  {
    hide ReadException;
    if keys == [] {
      r := [];
    } else {
      var rest := ApprovalsExist(keys[1..], exceptions, parseDate);
      assert keys[0] in Elements(keys);
      var key := keys[0];
      var raw :|
        raw in exceptions && ReadException(raw, parseDate).Some? && ReadException(raw, parseDate).value.key == key;
      var expiresOn := ReadException(raw, parseDate).value.expiresOn;
      var a := Approved(expiresOn, key.installedVersion, key.package, key.vulnerabilityId);
      assert Excuses(raw, keys[0], a.expiresOn, parseDate);
      r := [a] + rest;
    }
  }

  /** The passing days of a pair form one interval... */
  lemma PassingDaysAreContiguous(report: map<string, Json>, policy: map<string, Json>, parseDate: DateParser,
          first: int, day: int, last: int)
    requires first <= day <= last
    requires Passes(report, policy, parseDate, first) && Passes(report, policy, parseDate, last)
    ensures Passes(report, policy, parseDate, day)
  {
    hide Passes, PassesSomeDay, ReadException;
    PassesExactly(report, policy, parseDate, first);
    PassesExactly(report, policy, parseDate, day);
    PassesExactly(report, policy, parseDate, last);
  }

  /** ...of at most 91 days as soon as one exception exists. */
  lemma PassingDaysAreFew(report: map<string, Json>, policy: map<string, Json>, parseDate: DateParser, first: int,
          last: int)
    requires Passes(report, policy, parseDate, first) && Passes(report, policy, parseDate, last)
    requires Exceptions(policy) != []
    ensures last - first <= MAX_EXCEPTION_WINDOW_DAYS
  {
    hide Passes;
    PassesExactly(report, policy, parseDate, first);
    PassesExactly(report, policy, parseDate, last);
    WindowIsBounded(Exceptions(policy)[0], parseDate);
  }

  lemma WindowIsBounded(raw: Json, parseDate: DateParser)
    requires ReadException(raw, parseDate).Some?
    ensures var e := ReadException(raw, parseDate).value; 1 <= e.expiresOn - e.reviewedOn <= MAX_EXCEPTION_WINDOW_DAYS
  {
  }

  // ---------------------------------------------------------------- order and repetition

  /** Reports with the same findings, in any order and number, are judged alike. */
  lemma FindingsAreASet(a: map<string, Json>, b: map<string, Json>, policy: map<string, Json>,
          parseDate: DateParser, today: int)
    requires Get(a, "matches").JArray? && Get(b, "matches").JArray? && forall m :: m in Matches(a) <==> m in Matches(b)
    ensures IsValid(a, policy, parseDate, today) <==> IsValid(b, policy, parseDate, today)
    ensures KeysOf(Matches(a), true) == KeysOf(Matches(b), true)
    ensures KeysOf(Matches(a), false) == KeysOf(Matches(b), false)
  {
    hide ReadMatch, InForce, HasExceptions;
  }

  /** A valid pair has one verdict, to the last entry of the output, and reordering the exceptions keeps it. */
  lemma VerdictIsUnique(r: Verdict, s: Verdict, found: set<FindingKey>, unfixed: set<FindingKey>,
                        a: seq<Json>, b: seq<Json>, parseDate: DateParser, today: int)
    requires Permutation(a, b) && InForce(a, parseDate, today)
    requires IsVerdict(r, found, unfixed, a, parseDate, today) && IsVerdict(s, found, unfixed, b, parseDate, today)
    ensures InForce(b, parseDate, today) && r == s
  {
    hide ReadException;
    SameMembers(a, b);
    if Repeats(b, ExceptionKey(parseDate)) {
      RepeatsPermuted(b, a, ExceptionKey(parseDate));
    }
    assert ExceptionKeys(a, parseDate) == ExceptionKeys(b, parseDate);
    if r.Passed? {
      var keys := SortedKeys(found);
      forall k | 0 <= k < |keys| ensures r.approved[k] == s.approved[k] {
        SameApproval(r.approved[k], s.approved[k], keys[k], a, b, parseDate, today);
      }
    }
  }

  lemma SameApproval(x: Approved, y: Approved, key: FindingKey, a: seq<Json>, b: seq<Json>, parseDate: DateParser,
          today: int)
    requires InForce(a, parseDate, today) && forall raw :: raw in b ==> raw in a
    requires IsApprovalOf(x, key, a, parseDate) && IsApprovalOf(y, key, b, parseDate)
    ensures x == y
  {
    hide ReadException;
    var p :| p in a && Excuses(p, key, x.expiresOn, parseDate);
    var q :| q in b && Excuses(q, key, y.expiresOn, parseDate);
    var i :| 0 <= i < |a| && a[i] == p;
    var j :| 0 <= j < |a| && a[j] == q;
    assert ExceptionKey(parseDate)(a[i]) == Some(key) == ExceptionKey(parseDate)(a[j]);
    assert i == j;
  }
}
