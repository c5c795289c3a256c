/** Component names of a CycloneDX document, collected with a worklist. */
module SbomComponents {
  import opened Characters
  import opened Common

  // ---------------------------------------------------------------- names

  predicate IsSeparator(c: char) {
    c == '-' || c == '_' || c == '.'
  }

  /** Every run of separators becomes one hyphen. */
  function Collapsed(s: string): string
    decreases |s|
  {
    if s == "" then ""
    else if IsSeparator(s[0]) then "-" + Collapsed(s[Run(s, IsSeparator)..])
    else [s[0]] + Collapsed(s[1..])
  }

  /** What lower-casing makes of the character at a position; the text around it may matter. */
  type CaseMap = (string, nat) -> string

  function LoweredUpTo(low: CaseMap, s: string, n: nat): string
    requires n <= |s|
  {
    if n == 0 then "" else LoweredUpTo(low, s, n - 1) + low(s, n - 1)
  }

  /** `str.lower()` */
  function Lowered(low: CaseMap, s: string): string {
    LoweredUpTo(low, s, |s|)
  }

  predicate IsImage(c: char, image: string) {
    if IsSeparator(c) then image == [c]
    else image != "" && forall k :: 0 <= k < |image| ==> !IsSeparator(image[k])
  }

  /** Lower-casing keeps separators, makes none, drops nothing, and has nothing to do a second time. */
  ghost predicate IsLowering(low: CaseMap) {
    && (forall s: string, i: nat :: i < |s| ==> IsImage(s[i], low(s, i)))
    && (forall s :: Lowered(low, Lowered(low, s)) == Lowered(low, s))
  }

  /** `_normalized_name` */
  function NormalizedName(low: CaseMap, s: string): string {
    Lowered(low, Collapsed(s))
  }

  /** No separator but the hyphen, and never two of them in a row. */
  predicate HasSingleHyphens(s: string) {
    forall i :: 0 <= i < |s| ==> s[i] != '_' && s[i] != '.' && (i > 0 && s[i] == '-' ==> s[i - 1] != '-')
  }

  predicate IsNormal(low: CaseMap, s: string) {
    HasSingleHyphens(s) && Lowered(low, s) == s
  }

  /** Collapsing leaves single hyphens, and starts with a separator only where the text did. */
  lemma {:induction false} CollapsedShape(s: string)
    ensures var r := Collapsed(s);
      && (r == "" <==> s == "") && (s != "" ==> r[0] == if IsSeparator(s[0]) then '-' else s[0])
      && HasSingleHyphens(r)
    decreases |s|
  {
    if s != "" {
      CollapsedShape(if IsSeparator(s[0]) then s[Run(s, IsSeparator)..] else s[1..]);
    }
  }

  /** Lower-casing keeps single hyphens, whatever the other characters become. */
  lemma {:induction false} LoweredShape(low: CaseMap, s: string, n: nat)
    requires IsLowering(low) && HasSingleHyphens(s) && n <= |s|
    ensures var r := LoweredUpTo(low, s, n);
      HasSingleHyphens(r) && (r == "" <==> n == 0) && (n > 0 ==> (r[|r| - 1] == '-' <==> s[n - 1] == '-'))
  {
    if n > 0 {
      LoweredShape(low, s, n - 1);
      assert IsImage(s[n - 1], low(s, n - 1));
      hide IsLowering;
    }
  }

  lemma NormalizedIsNormal(low: CaseMap, s: string)
    requires IsLowering(low)
    ensures IsNormal(low, NormalizedName(low, s))
  {
    CollapsedShape(s);
    LoweredShape(low, Collapsed(s), |Collapsed(s)|);
  }

  lemma {:induction false} SingleHyphensAreCollapsed(s: string)
    requires HasSingleHyphens(s)
    ensures Collapsed(s) == s
    decreases |s|
  {
    if s != "" {
      SingleHyphensAreCollapsed(s[1..]);
      if IsSeparator(s[0]) {
        RunIs(s, IsSeparator, 1);
      }
      assert s == [s[0]] + s[1..];
    }
  }

  /** Text without separators stays, and the whole run of separators after it becomes one hyphen. */
  lemma {:induction false} RunsBecomeHyphens(s: string, run: string, rest: string)
    requires forall i :: 0 <= i < |s| ==> s[i] !in "-_."
    requires forall i :: 0 <= i < |run| ==> run[i] in "-_."
    requires run != "" && (rest == "" || rest[0] !in "-_.")
    ensures Collapsed(s + run + rest) == s + "-" + Collapsed(rest) && Collapsed(s) == s
  {
    hide Collapsed, IsSeparator;
    if s == "" {
      assert s + run + rest == run + rest;
      FirstRun(run, rest);
    } else {
      var c, t := s[0], s[1..];
      RunsBecomeHyphens(t, run, rest);
      FirstCharacter(c, t);
      FirstCharacter(c, t + run + rest);
      assert s == [c] + t && s + run + rest == [c] + (t + run + rest);
      assert [c] + (t + "-" + Collapsed(rest)) == s + "-" + Collapsed(rest);
    }
  }

  lemma FirstRun(run: string, rest: string)
    requires forall i :: 0 <= i < |run| ==> run[i] in "-_."
    requires run != "" && (rest == "" || rest[0] !in "-_.")
    ensures Collapsed(run + rest) == "-" + Collapsed(rest) && Collapsed("") == ""
  {
    var whole := run + rest;
    assert forall i :: 0 <= i < |run| ==> whole[i] == run[i];
    RunIs(whole, IsSeparator, |run|);
    assert whole[|run|..] == rest;
  }

  lemma FirstCharacter(c: char, t: string)
    requires c !in "-_."
    ensures Collapsed([c] + t) == [c] + Collapsed(t)
  {
    assert ([c] + t)[1..] == t;
  }

  /** Normal names are exactly the fixed points, so normalization is idempotent. */
  lemma NormalIffFixed(low: CaseMap, s: string)
    requires IsLowering(low)
    ensures IsNormal(low, s) <==> NormalizedName(low, s) == s
    ensures NormalizedName(low, NormalizedName(low, s)) == NormalizedName(low, s)
  {
    NormalizedIsNormal(low, s);
    SingleHyphensAreCollapsed(NormalizedName(low, s));
    if IsNormal(low, s) {
      SingleHyphensAreCollapsed(s);
    }
  }

  function AsciiCase(s: string, i: nat): string {
    if i < |s| then [LowerChar(s[i])] else ""
  }

  lemma {:induction false} AsciiLowered(s: string, n: nat)
    requires n <= |s|
    ensures LoweredUpTo(AsciiCase, s, n) == Lower(s)[..n]
  {
    hide Lower, LowerChar;
    if n > 0 {
      AsciiLowered(s, n - 1);
      assert Lower(s)[..n] == Lower(s)[..n - 1] + [LowerChar(s[n - 1])];
    }
  }

  lemma AsciiLoweredWhole(s: string)
    ensures Lowered(AsciiCase, s) == Lower(s)
  {
    AsciiLowered(s, |s|);
    hide LoweredUpTo, Lower;
    assert Lower(s)[..|s|] == Lower(s);
  }

  lemma LowerTwice(s: string)
    ensures Lower(Lower(s)) == Lower(s)
  {
    hide Lower;
  }

  /** Lower-casing of ASCII letters is one such map. */
  lemma AsciiLowering()
    ensures IsLowering(AsciiCase)
  {
    hide Lowered, Lower;
    forall s ensures Lowered(AsciiCase, Lowered(AsciiCase, s)) == Lowered(AsciiCase, s) {
      AsciiLoweredWhole(s);
      AsciiLoweredWhole(Lower(s));
      LowerTwice(s);
    }
  }

  // ---------------------------------------------------------------- the forest of components

  /** The components listed under a `components` member; any other member lists none. */
  function Nested(fields: map<string, Json>): seq<Json> {
    var listed := Get(fields, "components");
    if listed.JArray? then listed.items else []
  }

  function OwnName(low: CaseMap, fields: map<string, Json>): set<string> {
    var name := Get(fields, "name");
    if name.JString? && name.s != "" then {NormalizedName(low, name.s)} else {}
  }

  lemma NestedIsSmaller(component: Json, child: Json)
    requires component.JObject? && child in Nested(component.fields)
    ensures child < component
  {
    assert component.fields["components"] < component;
  }

  /** The names in one component and everything nested in it. */
  ghost function NamesIn(low: CaseMap, component: Json): set<string>
    decreases component
  {
    if !component.JObject? then {}
    else
      assert forall child :: child in Nested(component.fields) ==> child < component by {
        forall child | child in Nested(component.fields) ensures child < component {
          NestedIsSmaller(component, child);
        }
      }
      OwnName(low, component.fields) + set child, n | child in Nested(component.fields) && n in NamesIn(low, child) :: n
  }

  ghost function NamesInAll(low: CaseMap, components: seq<Json>): set<string> {
    set c, n | c in components && n in NamesIn(low, c) :: n
  }

  lemma NamesConcat(low: CaseMap, a: seq<Json>, b: seq<Json>)
    ensures NamesInAll(low, a + b) == NamesInAll(low, a) + NamesInAll(low, b)
  {
  }

  lemma NamesOfOne(low: CaseMap, component: Json)
    ensures NamesInAll(low, [component]) == NamesIn(low, component)
    ensures component.JObject? ==>
      NamesIn(low, component) == OwnName(low, component.fields) + NamesInAll(low, Nested(component.fields))
  {
    assert component in [component];
  }

  /** The components a document starts from. */
  function Roots(document: map<string, Json>): seq<Json> {
    var metadata := Get(document, "metadata");
    Nested(document)
    + if metadata.JObject? && Get(metadata.fields, "component").JObject?
      then [Get(metadata.fields, "component")] else []
  }

  // ---------------------------------------------------------------- the worklist

  /** How many components a worklist holds, nested ones included. */
  ghost function Weight(component: Json): nat
    decreases component, 1
  {
    if !component.JObject? then 1 else 1 + WeightUpTo(component, |Nested(component.fields)|)
  }

  ghost function WeightUpTo(component: Json, n: nat): nat
    requires component.JObject? && n <= |Nested(component.fields)|
    decreases component, 0, n
  {
    if n == 0 then 0
    else
      var child := Nested(component.fields)[n - 1];
      NestedIsSmaller(component, child);
      WeightUpTo(component, n - 1) + Weight(child)
  }

  ghost function TotalWeight(components: seq<Json>): nat {
    if components == [] then 0
    else TotalWeight(components[..|components| - 1]) + Weight(components[|components| - 1])
  }

  lemma {:induction false} WeightConcat(a: seq<Json>, b: seq<Json>)
    ensures TotalWeight(a + b) == TotalWeight(a) + TotalWeight(b)
  {
    if b == [] {
      assert a + b == a;
    } else {
      assert (a + b)[..|a + b| - 1] == a + b[..|b| - 1];
      WeightConcat(a, b[..|b| - 1]);
    }
  }

  lemma {:induction false} WeightOfNested(component: Json, n: nat)
    requires component.JObject? && n <= |Nested(component.fields)|
    ensures TotalWeight(Nested(component.fields)[..n]) == WeightUpTo(component, n)
  {
    if n > 0 {
      WeightOfNested(component, n - 1);
      assert Nested(component.fields)[..n][..n - 1] == Nested(component.fields)[..n - 1];
    }
  }

  /** Replacing a component by its children makes a worklist lighter. */
  lemma Unpacking(rest: seq<Json>, component: Json)
    ensures TotalWeight(rest + [component]) > TotalWeight(rest)
    ensures component.JObject? ==>
      TotalWeight(rest + [component]) > TotalWeight(rest + Nested(component.fields))
  {
    assert (rest + [component])[..|rest|] == rest;
    if component.JObject? {
      var nested := Nested(component.fields);
      WeightConcat(rest, nested);
      WeightOfNested(component, |nested|);
      assert nested[..|nested|] == nested;
    }
  }

  /** `_component_names`: terminates on every document and finds exactly the names of the forest. */
  method ComponentNames(low: CaseMap, document: map<string, Json>) returns (names: set<string>)
    ensures names == NamesInAll(low, Roots(document))
    ensures AreThoseWritten(low, document, names)
  {
    AllNamesAreThoseWritten(low, document);
    hide Weight, NamesIn, NamesInAll, OwnName, AreThoseWritten;
    var pending := Nested(document);
    var metadata := Get(document, "metadata");
    if metadata.JObject? && Get(metadata.fields, "component").JObject? {
      pending := pending + [Get(metadata.fields, "component")];
    }
    assert pending == Roots(document);
    names := {};
    while pending != []
      invariant names + NamesInAll(low, pending) == NamesInAll(low, Roots(document))
      decreases TotalWeight(pending)
    {
      var rest, component := pending[..|pending| - 1], pending[|pending| - 1];
      assert pending == rest + [component];
      Unpacking(rest, component);
      NamesConcat(low, rest, [component]);
      NamesOfOne(low, component);
      pending := rest;
      if component.JObject? {
        NamesConcat(low, rest, Nested(component.fields));
        names := names + OwnName(low, component.fields);
        pending := pending + Nested(component.fields);
      } else {
        NoNames(low, component);
      }
    }
    NothingToName(low);
  }

  lemma NoNames(low: CaseMap, component: Json)
    requires !component.JObject?
    ensures NamesIn(low, component) == {}
  {
  }

  lemma NothingToName(low: CaseMap)
    ensures NamesInAll(low, []) == {}
  {
  }

  /** Neither the order of components nor their repetition matters, at the top or below. */
  lemma OrderDoesNotMatter(low: CaseMap, a: seq<Json>, b: seq<Json>, fields: map<string, Json>)
    requires forall c :: c in a <==> c in b
    ensures NamesInAll(low, a) == NamesInAll(low, b)
    ensures NamesIn(low, JObject(fields["components" := JArray(a)]))
      == NamesIn(low, JObject(fields["components" := JArray(b)]))
  {
    var x, y := JObject(fields["components" := JArray(a)]), JObject(fields["components" := JArray(b)]);
    NamesOfOne(low, x);
    NamesOfOne(low, y);
    assert OwnName(low, x.fields) == OwnName(low, y.fields);
  }

  // What is written in a document, read off its members.

  predicate Lists(fields: map<string, Json>, child: Json) {
    "components" in fields && fields["components"].JArray? && child in fields["components"].items
  }

  predicate IsTop(document: map<string, Json>, component: Json) {
    || Lists(document, component)
    || ("metadata" in document && document["metadata"].JObject? && component.JObject?
        && "component" in document["metadata"].fields && document["metadata"].fields["component"] == component)
  }

  /** A way down the forest, from a component through those it lists. */
  predicate GoesDown(chain: seq<Json>) {
    |chain| > 1 ==> chain[0].JObject? && Lists(chain[0].fields, chain[1]) && GoesDown(chain[1..])
  }

  predicate IsNamed(low: CaseMap, component: Json, name: string) {
    && component.JObject? && "name" in component.fields && component.fields["name"].JString?
    && component.fields["name"].s != "" && name == NormalizedName(low, component.fields["name"].s)
  }

  /** The chain leads from the top of the document to a component of this name. */
  predicate LeadsTo(low: CaseMap, document: map<string, Json>, chain: seq<Json>, name: string) {
    chain != [] && IsTop(document, chain[0]) && GoesDown(chain) && IsNamed(low, chain[|chain| - 1], name)
  }

  lemma NamesOfExactly(low: CaseMap, component: Json, name: string)
    ensures name in NamesIn(low, component) <==>
      || IsNamed(low, component, name)
      || (component.JObject? && exists child :: Lists(component.fields, child) && name in NamesIn(low, child))
  {
    if component.JObject? {
      NamesOfOne(low, component);
      assert name in OwnName(low, component.fields) <==> IsNamed(low, component, name);
      hide NormalizedName, NamesIn;
      assert forall child :: child in Nested(component.fields) <==> Lists(component.fields, child);
    }
  }

  lemma {:induction false} NamedOnChain(low: CaseMap, chain: seq<Json>, name: string)
    requires chain != [] && GoesDown(chain) && IsNamed(low, chain[|chain| - 1], name)
    ensures name in NamesIn(low, chain[0])
  {
    NamesOfExactly(low, chain[0], name);
    hide NamesIn, IsNamed;
    if |chain| > 1 {
      NamedOnChain(low, chain[1..], name);
    }
  }

  lemma {:induction false} ChainToName(low: CaseMap, component: Json, name: string) returns (chain: seq<Json>)
    requires name in NamesIn(low, component)
    ensures chain != [] && chain[0] == component && GoesDown(chain) && IsNamed(low, chain[|chain| - 1], name)
    decreases component
  {
    NamesOfExactly(low, component, name);
    hide NamesIn, IsNamed;
    if IsNamed(low, component, name) {
      chain := [component];
    } else {
      var child :| Lists(component.fields, child) && name in NamesIn(low, child);
      NestedIsSmaller(component, child);
      var below := ChainToName(low, child, name);
      chain := [component] + below;
      assert chain[1..] == below;
    }
  }

  /** The collected names are exactly those written anywhere below the listed components or the metadata component. */
  lemma NamesAreThoseWritten(low: CaseMap, document: map<string, Json>, name: string)
    ensures name in NamesInAll(low, Roots(document)) <==> exists chain :: LeadsTo(low, document, chain, name)
  {
    hide NamesIn, IsNamed, GoesDown;
    assert forall component :: component in Roots(document) <==> IsTop(document, component);
    if name in NamesInAll(low, Roots(document)) {
      var component :| component in Roots(document) && name in NamesIn(low, component);
      var chain := ChainToName(low, component, name);
      assert LeadsTo(low, document, chain, name);
    }
    if chain :| LeadsTo(low, document, chain, name) {
      NamedOnChain(low, chain, name);
    }
  }

  ghost predicate AreThoseWritten(low: CaseMap, document: map<string, Json>, names: set<string>) {
    forall name :: name in names <==> exists chain :: LeadsTo(low, document, chain, name)
  }

  lemma AllNamesAreThoseWritten(low: CaseMap, document: map<string, Json>)
    ensures AreThoseWritten(low, document, NamesInAll(low, Roots(document)))
  {
    hide NamesInAll, LeadsTo;
    forall name
      ensures name in NamesInAll(low, Roots(document)) <==> exists chain :: LeadsTo(low, document, chain, name)
    {
      NamesAreThoseWritten(low, document, name);
    }
  }
}
