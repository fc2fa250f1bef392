/**
 Reconciliation of persistent voice tokens. The registry root is a map from token name to token, a token a map from
 (subkey, value name) to value. Registry names and model ids compare ignoring case, so every name here stands for its
 case-folded form.
 */
module VoiceTokens {
  import opened Strings

  datatype Value = Str(text: string) | DWord(number: int)

  type Loc = (string, string)
  type Token = map<Loc, Value>
  type Root = map<string, Token>

  const PREFIX := "sherpa-"
  const SUFFIX := "-enus"

  const ALIAS_FLAG: Loc := ("", "SherpaCompatAlias")
  const MODEL_NAME: Loc := ("Attributes", "SherpaModelName")

  /** PersistentTokenMetadata. */
  datatype Meta = Meta(
    friendlyName: string, displayName: string, locale: string, languageHexChain: string, gender: string, modelType: int,
    modelPath: string, tokensPath: string, dataDir: string, voicesPath: string, acousticModel: string, vocoder: string,
    sampleRate: int, speakerCount: int, modelName: string, quality: string)

  /**
   What a run works from: the valid model ids in the order they are processed, what can be built from each model's
   directory, and for which models an alias was requested. None of it changes during a run.
   */
  datatype Models = Models(ids: seq<string>, build: string -> Option<Meta>, requested: string -> bool)

  // ----- strings

  function FoldCase(s: string): (r: string)
    ensures |r| == |s| && forall i :: 0 <= i < |s| ==> r[i] == LowerChar(s[i])
  {
    seq(|s|, i requires 0 <= i < |s| => LowerChar(s[i]))
  }

  predicate IsBlank(s: string) {
    forall i :: 0 <= i < |s| ==> IsWSpace(s[i])
  }

  /** String.Trim. */
  function TrimSpaces(s: string): string {
    if s == [] then []
    else if IsWSpace(s[0]) then TrimSpaces(s[1..])
    else if IsWSpace(Last(s)) then TrimSpaces(Front(s))
    else s
  }

  // ----- writing one token

  /** A write deletes some values and sets others; what it does not name stays. */
  datatype Update = Update(del: set<Loc>, put: Token)

  function ApplyUpdate(t: Token, u: Update): Token {
    t - u.del + u.put
  }

  /** The values set under one subkey, in order. */
  function MapOf(key: string, values: seq<(string, Value)>): Token {
    if values == [] then map[] else MapOf(key, Front(values))[(key, Last(values).0) := Last(values).1]
  }

  /** Blank paths are not written. */
  function PathValues(paths: seq<(string, string)>): seq<(string, Value)> {
    if paths == [] then []
    else PathValues(Front(paths)) + if IsBlank(Last(paths).1) then [] else [(Last(paths).0, Str(Last(paths).1))]
  }

  predicate KeepsQuality(m: Meta) {
    !IsBlank(m.quality) && m.quality != "unknown"
  }

  function ConfigList(m: Meta): seq<(string, Value)> {
    [("EngineType", Str("Sherpa")), ("SherpaOnnxModelType", DWord(m.modelType)), ("SampleRate", DWord(m.sampleRate)),
     ("SpeakerCount", DWord(m.speakerCount)), ("IsSherpaVoice", DWord(1))]
  }

  function PathList(m: Meta): seq<(string, string)> {
    [("SherpaOnnxModelPath", m.modelPath), ("SherpaOnnxTokens", m.tokensPath), ("SherpaOnnxDataDir", m.dataDir),
     ("SherpaOnnxVoices", m.voicesPath), ("SherpaOnnxAcousticModel", m.acousticModel),
     ("SherpaOnnxVocoder", m.vocoder)]
  }

  function ConfigValues(m: Meta): Token {
    MapOf("VoiceGardenConfig", ConfigList(m)) + MapOf("VoiceGardenConfig", PathValues(PathList(m)))
  }

  function AttributeList(m: Meta): seq<(string, Value)> {
    [("Name", Str(m.displayName)), ("Gender", Str(m.gender)), ("Age", Str("Adult")),
     ("Language", Str(m.languageHexChain)), ("Locale", Str(m.locale)), ("Vendor", Str("K2FSA")),
     ("VoiceGardenType", Str("Sherpa;Offline")), ("SherpaModelName", Str(m.modelName))]
  }

  function AttributeValues(m: Meta): Token {
    MapOf("Attributes", AttributeList(m)) +
    MapOf("Attributes", if KeepsQuality(m) then [("Quality", Str(m.quality))] else [])
  }

  function RootList(m: Meta, alias: bool): seq<(string, Value)> {
    [("", Str(m.friendlyName)), ("CLSID", Str("{013AB33B-AD1A-401C-8BEE-F6E2B046A94E}")),
     ("SherpaCompatAlias", DWord(if alias then 1 else 0))]
  }

  function RootValues(m: Meta, alias: bool): Token {
    MapOf("", RootList(m, alias))
  }

  function TokenUpdate(m: Meta, alias: bool): Update {
    Update(if KeepsQuality(m) then {} else {("Attributes", "Quality")},
           ConfigValues(m) + AttributeValues(m) + RootValues(m, alias))
  }

  /** A token to write: its name, and whose metadata it carries. */
  datatype Write = Write(name: string, id: string, meta: Meta, alias: bool)

  function Put(root: Root, w: Write): Root {
    root[w.name := ApplyUpdate(if w.name in root then root[w.name] else map[], TokenUpdate(w.meta, w.alias))]
  }

  function PutAll(root: Root, plan: seq<Write>): Root {
    if plan == [] then root else Put(PutAll(root, Front(plan)), Last(plan))
  }

  function Added(root: Root, plan: seq<Write>): nat {
    if plan == [] then 0
    else Added(root, Front(plan)) + if Last(plan).name in PutAll(root, Front(plan)) then 0 else 1
  }

  // ----- what to write

  predicate ShouldCreateEnUsCompatibilityAlias(requested: bool, m: Meta) {
    requested && !EqualsIgnoreCase(m.locale, "en-US")
  }

  function CloneAsEnUsAlias(m: Meta): Meta {
    m.(friendlyName := m.friendlyName + " (en-US alias)", displayName := m.displayName + " (en-US alias)",
       locale := "en-US", languageHexChain := "409")
  }

  predicate WantsAlias(models: Models, id: string) {
    models.build(id).Some? && ShouldCreateEnUsCompatibilityAlias(models.requested(id), models.build(id).value)
  }

  function WritesFor(models: Models, id: string): seq<Write> {
    match models.build(id)
    case None => []
    case Some(m) =>
      [Write(PREFIX + id, id, m, false)] +
      if ShouldCreateEnUsCompatibilityAlias(models.requested(id), m)
      then [Write(PREFIX + id + SUFFIX, id, CloneAsEnUsAlias(m), true)] else []
  }

  function Plan(models: Models, n: nat): seq<Write>
    requires n <= |models.ids|
  {
    if n == 0 then [] else Plan(models, n - 1) + WritesFor(models, models.ids[n - 1])
  }

  // ----- what to remove

  datatype Resolved = Resolved(ok: bool, modelId: string, isCompatAlias: bool)

  predicate HasPrefix(name: string) {
    PREFIX <= name
  }

  predicate HasSuffix(s: string) {
    |s| >= |SUFFIX| && s[|s| - |SUFFIX|..] == SUFFIX
  }

  /** The model a token belongs to: the name stored in it, or the one its own name spells. */
  function Resolve(t: Token, name: string): Resolved {
    var flagged := ALIAS_FLAG in t && t[ALIAS_FLAG].DWord? && t[ALIAS_FLAG].number != 0;
    if MODEL_NAME in t && t[MODEL_NAME].Str? && !IsBlank(t[MODEL_NAME].text) then
      Resolved(true, FoldCase(TrimSpaces(t[MODEL_NAME].text)), flagged)
    else if !HasPrefix(name) then Resolved(false, [], flagged)
    else
      var id := name[|PREFIX|..];
      var bare := if HasSuffix(id) then id[..|id| - |SUFFIX|] else id;
      Resolved(!IsBlank(bare), bare, flagged || HasSuffix(id))
  }

  predicate IsStale(models: Models, t: Token, name: string) {
    HasPrefix(name) &&
    var r := Resolve(t, name);
    r.ok && (r.modelId !in models.ids || (r.isCompatAlias && !WantsAlias(models, r.modelId)))
  }

  function Sweep(models: Models, root: Root): Root {
    map n | n in root && !IsStale(models, root[n], n) :: root[n]
  }

  function Sync(models: Models, root: Root): Root {
    Sweep(models, PutAll(root, Plan(models, |models.ids|)))
  }

  /** A token, or an empty one where there is no such key. */
  function TokenAt(root: Root, name: string): Token {
    if name in root then root[name] else map[]
  }

  // ----- what a written token holds

  function ValueAt(t: Token, key: string, name: string): Option<Value> {
    if (key, name) in t then Some(t[(key, name)]) else None
  }

  /** The value is the text. */
  predicate HasText(t: Token, key: string, name: string, text: string) {
    ValueAt(t, key, name) == Some(Str(text))
  }

  predicate HasNumber(t: Token, key: string, name: string, n: int) {
    ValueAt(t, key, name) == Some(DWord(n))
  }

  /** A path that is not blank is stored; a blank one leaves what was there. */
  predicate HasPath(t: Token, before: Token, name: string, path: string) {
    ValueAt(t, "VoiceGardenConfig", name) ==
      if IsBlank(path) then ValueAt(before, "VoiceGardenConfig", name) else Some(Str(path))
  }

  predicate HasRootValues(t: Token, m: Meta, alias: bool) {
    HasText(t, "", "", m.friendlyName) && HasText(t, "", "CLSID", "{013AB33B-AD1A-401C-8BEE-F6E2B046A94E}") &&
    HasNumber(t, "", "SherpaCompatAlias", if alias then 1 else 0)
  }

  /** A quality that is blank or unknown is removed. */
  predicate HasAttributes(t: Token, m: Meta) {
    HasText(t, "Attributes", "Name", m.displayName) && HasText(t, "Attributes", "Gender", m.gender) &&
    HasText(t, "Attributes", "Age", "Adult") && HasText(t, "Attributes", "Language", m.languageHexChain) &&
    HasText(t, "Attributes", "Locale", m.locale) && HasText(t, "Attributes", "Vendor", "K2FSA") &&
    HasText(t, "Attributes", "VoiceGardenType", "Sherpa;Offline") &&
    HasText(t, "Attributes", "SherpaModelName", m.modelName) &&
    ValueAt(t, "Attributes", "Quality") ==
      if IsBlank(m.quality) || m.quality == "unknown" then None else Some(Str(m.quality))
  }

  predicate HasConfig(t: Token, before: Token, m: Meta) {
    HasText(t, "VoiceGardenConfig", "EngineType", "Sherpa") &&
    HasNumber(t, "VoiceGardenConfig", "SherpaOnnxModelType", m.modelType) &&
    HasNumber(t, "VoiceGardenConfig", "SampleRate", m.sampleRate) &&
    HasNumber(t, "VoiceGardenConfig", "SpeakerCount", m.speakerCount) &&
    HasNumber(t, "VoiceGardenConfig", "IsSherpaVoice", 1) &&
    HasPath(t, before, "SherpaOnnxModelPath", m.modelPath) && HasPath(t, before, "SherpaOnnxTokens", m.tokensPath) &&
    HasPath(t, before, "SherpaOnnxDataDir", m.dataDir) && HasPath(t, before, "SherpaOnnxVoices", m.voicesPath) &&
    HasPath(t, before, "SherpaOnnxAcousticModel", m.acousticModel) &&
    HasPath(t, before, "SherpaOnnxVocoder", m.vocoder)
  }

  const ROOT_NAMES: set<string> := {"", "CLSID", "SherpaCompatAlias"}
  const ATTRIBUTE_NAMES: set<string> :=
    {"Name", "Gender", "Age", "Language", "Locale", "Vendor", "VoiceGardenType", "SherpaModelName", "Quality"}
  const CONFIG_NAMES: set<string> :=
    {"EngineType", "SherpaOnnxModelType", "SampleRate", "SpeakerCount", "IsSherpaVoice", "SherpaOnnxModelPath",
     "SherpaOnnxTokens", "SherpaOnnxDataDir", "SherpaOnnxVoices", "SherpaOnnxAcousticModel", "SherpaOnnxVocoder"}

  /** The values that belong to a Sherpa voice. */
  predicate IsOurs(key: string, name: string) {
    (key == "" && name in ROOT_NAMES) || (key == "Attributes" && name in ATTRIBUTE_NAMES) ||
    (key == "VoiceGardenConfig" && name in CONFIG_NAMES)
  }

  ghost predicate KeepsOthers(t: Token, before: Token) {
    forall key, name :: !IsOurs(key, name) ==> ValueAt(t, key, name) == ValueAt(before, key, name)
  }

  /** The token `t` is what `before` becomes when `m` is written to it. */
  ghost predicate HoldsMeta(t: Token, before: Token, m: Meta, alias: bool) {
    HasRootValues(t, m, alias) && HasAttributes(t, m) && HasConfig(t, before, m) && KeepsOthers(t, before)
  }

  predicate DistinctNames<V>(values: seq<(string, V)>) {
    forall i, j :: 0 <= i < j < |values| ==> values[i].0 != values[j].0
  }

  /** A map made of values under distinct names holds exactly those. */
  lemma {:induction false} MapOfIs(key: string, values: seq<(string, Value)>)
    requires DistinctNames(values)
    ensures forall i :: 0 <= i < |values| ==>
      (key, values[i].0) in MapOf(key, values) && MapOf(key, values)[(key, values[i].0)] == values[i].1
    ensures forall loc :: loc in MapOf(key, values) ==>
      loc.0 == key && exists i :: 0 <= i < |values| && values[i].0 == loc.1
  {
    if values != [] {
      var rest := Front(values);
      MapOfIs(key, rest);
      assert forall i :: 0 <= i < |rest| ==> rest[i] == values[i];
      assert values[|rest|] == Last(values);
    }
  }

  /** The paths under distinct names that are written: those that are not blank. */
  lemma {:induction false} PathValuesAre(paths: seq<(string, string)>)
    requires DistinctNames(paths)
    ensures DistinctNames(PathValues(paths))
    ensures forall i :: 0 <= i < |paths| && !IsBlank(paths[i].1) ==> (paths[i].0, Str(paths[i].1)) in PathValues(paths)
    ensures forall k :: 0 <= k < |PathValues(paths)| ==> IsPath(paths, PathValues(paths)[k].0)
  {
    hide IsBlank, IsPath;
    if paths != [] {
      var rest, done := Front(paths), PathValues(Front(paths));
      PathValuesAre(rest);
      PathsGrow(paths);
      assert forall i :: 0 <= i < |rest| ==> rest[i] == paths[i];
      forall k | 0 <= k < |done|
        ensures done[k].0 != Last(paths).0
      {
        LastIsNoPath(paths, done[k].0);
      }
    }
  }

  /** A path of that name is written. */
  predicate IsPath(paths: seq<(string, string)>, name: string) {
    exists i :: 0 <= i < |paths| && !IsBlank(paths[i].1) && paths[i].0 == name
  }

  lemma PathsGrow(paths: seq<(string, string)>)
    requires paths != []
    ensures forall name :: IsPath(Front(paths), name) ==> IsPath(paths, name)
    ensures !IsBlank(Last(paths).1) ==> IsPath(paths, Last(paths).0)
  {
    hide IsBlank;
    forall name | IsPath(Front(paths), name)
      ensures IsPath(paths, name)
    {
      var i :| 0 <= i < |paths| - 1 && !IsBlank(Front(paths)[i].1) && Front(paths)[i].0 == name;
      assert paths[i] == Front(paths)[i];
    }
  }

  lemma LastIsNoPath(paths: seq<(string, string)>, name: string)
    requires paths != [] && DistinctNames(paths) && IsPath(Front(paths), name)
    ensures name != Last(paths).0
  {
    hide IsBlank;
    var i :| 0 <= i < |paths| - 1 && !IsBlank(Front(paths)[i].1) && Front(paths)[i].0 == name;
    assert paths[i] == Front(paths)[i];
  }

  /** A path's value among those written. */
  lemma PathAt(paths: seq<(string, string)>, i: nat)
    requires DistinctNames(paths) && i < |paths|
    ensures ValueAt(MapOf("VoiceGardenConfig", PathValues(paths)), "VoiceGardenConfig", paths[i].0) ==
      if IsBlank(paths[i].1) then None else Some(Str(paths[i].1))
  {
    hide IsBlank, PathValues;
    var key, values := "VoiceGardenConfig", PathValues(paths);
    PathValuesAre(paths);
    MapOfIs(key, values);
    if !IsBlank(paths[i].1) {
      var k :| 0 <= k < |values| && values[k] == (paths[i].0, Str(paths[i].1));
    } else {
      BlankIsNoPath(paths, i);
    }
  }

  lemma BlankIsNoPath(paths: seq<(string, string)>, i: nat)
    requires DistinctNames(paths) && i < |paths| && IsBlank(paths[i].1)
    ensures !IsPath(paths, paths[i].0)
  {
    hide IsBlank;
    assert forall j :: 0 <= j < |paths| && paths[j].0 == paths[i].0 ==> j == i;
  }

  lemma PathKeys(paths: seq<(string, string)>)
    requires DistinctNames(paths)
    ensures forall loc :: loc in MapOf("VoiceGardenConfig", PathValues(paths)) ==>
      loc.0 == "VoiceGardenConfig" && exists i :: 0 <= i < |paths| && paths[i].0 == loc.1
  {
    hide IsBlank, PathValues;
    var values := PathValues(paths);
    PathValuesAre(paths);
    MapOfIs("VoiceGardenConfig", values);
    forall loc | loc in MapOf("VoiceGardenConfig", values)
      ensures loc.0 == "VoiceGardenConfig" && exists i :: 0 <= i < |paths| && paths[i].0 == loc.1
    {
      var k :| 0 <= k < |values| && values[k].0 == loc.1;
      assert IsPath(paths, loc.1);
    }
  }

  /** Tells the value names under VoiceGardenConfig apart. */
  function ConfigIndex(name: string): int {
    if |name| == 10 then (if name[0] == 'E' then 0 else 2)
    else if |name| == 19 then (if name[15] == 'T' then 1 else 5)
    else if |name| == 12 then 3
    else if |name| == 13 then 4
    else if |name| == 16 then (if name[10] == 'T' then 6 else 8)
    else if |name| == 17 then (if name[10] == 'D' then 7 else 10)
    else 9
  }

  function AttributeIndex(name: string): int {
    if |name| == 4 then 0
    else if |name| == 6 then (if name[0] == 'G' then 1 else if name[0] == 'L' then 4 else 5)
    else if |name| == 3 then 2
    else if |name| == 8 then 3
    else if |name| == 15 then (if name[0] == 'V' then 6 else 7)
    else 8
  }

  lemma ConfigNamesDiffer(m: Meta)
    ensures DistinctNames(ConfigList(m)) && DistinctNames(PathList(m))
    ensures forall i, j :: 0 <= i < 5 && 0 <= j < 6 ==> ConfigList(m)[i].0 != PathList(m)[j].0
  {
    var a, b := ConfigList(m), PathList(m);
    forall i | 0 <= i < 5
      ensures ConfigIndex(a[i].0) == i
    {
      if i == 0 {} else if i == 1 {} else if i == 2 {} else if i == 3 {} else {}
    }
    forall j | 0 <= j < 6
      ensures ConfigIndex(b[j].0) == 5 + j
    {
      if j == 0 {} else if j == 1 {} else if j == 2 {} else if j == 3 {} else if j == 4 {} else {}
    }
  }

  lemma AttributeNamesDiffer(m: Meta)
    ensures DistinctNames(AttributeList(m))
    ensures forall i :: 0 <= i < 8 ==> AttributeList(m)[i].0 != "Quality"
  {
    var a := AttributeList(m);
    forall i | 0 <= i < 8
      ensures AttributeIndex(a[i].0) == i
    {
      if i == 0 {} else if i == 1 {} else if i == 2 {} else if i == 3 {} else if i == 4 {} else if i == 5 {}
      else if i == 6 {} else {}
    }
    assert AttributeIndex("Quality") == 8;
  }

  lemma RootNamesDiffer(m: Meta, alias: bool)
    ensures DistinctNames(RootList(m, alias))
  {
    assert |RootList(m, alias)[0].0| == 0 && |RootList(m, alias)[1].0| == 5 && |RootList(m, alias)[2].0| == 17;
  }

  /** The values under VoiceGardenConfig. */
  lemma ConfigIs(m: Meta)
    ensures var put, a, b := ConfigValues(m), ConfigList(m), PathList(m);
      (forall i :: 0 <= i < 5 ==> ValueAt(put, "VoiceGardenConfig", a[i].0) == Some(a[i].1)) &&
      (forall j :: 0 <= j < 6 ==>
        ValueAt(put, "VoiceGardenConfig", b[j].0) == if IsBlank(b[j].1) then None else Some(Str(b[j].1))) &&
      forall loc :: loc in put ==>
        loc.0 == "VoiceGardenConfig" &&
        ((exists i :: 0 <= i < 5 && a[i].0 == loc.1) || exists j :: 0 <= j < 6 && b[j].0 == loc.1)
  {
    ConfigNamesDiffer(m);
    var key, a, b := "VoiceGardenConfig", ConfigList(m), PathList(m);
    assert |a| == 5 && |b| == 6;
    hide ConfigList, PathList, MapOf, PathValues, IsBlank;
    MapOfIs(key, a);
    PathKeys(b);
    forall j | 0 <= j < 6
      ensures ValueAt(ConfigValues(m), key, b[j].0) == if IsBlank(b[j].1) then None else Some(Str(b[j].1))
    {
      PathAt(b, j);
    }
  }

  lemma AttributesAre(m: Meta)
    ensures var put, a := AttributeValues(m), AttributeList(m);
      (forall i :: 0 <= i < 8 ==> ValueAt(put, "Attributes", a[i].0) == Some(a[i].1)) &&
      ValueAt(put, "Attributes", "Quality") == (if KeepsQuality(m) then Some(Str(m.quality)) else None) &&
      forall loc :: loc in put ==>
        loc.0 == "Attributes" && (loc.1 == "Quality" || exists i :: 0 <= i < 8 && a[i].0 == loc.1)
  {
    AttributeNamesDiffer(m);
    var key, a := "Attributes", AttributeList(m);
    var q: seq<(string, Value)> := if KeepsQuality(m) then [("Quality", Str(m.quality))] else [];
    assert |a| == 8;
    hide AttributeList, MapOf, KeepsQuality;
    MapOfIs(key, a);
    MapOfIs(key, q);
    if KeepsQuality(m) {
      assert q[0] == ("Quality", Str(m.quality));
    }
  }

  lemma RootIs(m: Meta, alias: bool)
    ensures var put, a := RootValues(m, alias), RootList(m, alias);
      (forall i :: 0 <= i < 3 ==> ValueAt(put, "", a[i].0) == Some(a[i].1)) &&
      forall loc :: loc in put ==> loc.0 == "" && exists i :: 0 <= i < 3 && a[i].0 == loc.1
  {
    RootNamesDiffer(m, alias);
    var a := RootList(m, alias);
    assert |a| == 3;
    hide RootList, MapOf;
    MapOfIs("", a);
  }

  /** One value after a write: what the part for its subkey sets, or what was there and is not deleted. */
  lemma WrittenAt(before: Token, m: Meta, alias: bool, key: string, name: string)
    ensures var part :=
        if key == "VoiceGardenConfig" then ConfigValues(m) else if key == "Attributes" then AttributeValues(m)
        else if key == "" then RootValues(m, alias) else map[];
      ValueAt(ApplyUpdate(before, TokenUpdate(m, alias)), key, name) ==
        if (key, name) in part then Some(part[(key, name)])
        else if key == "Attributes" && name == "Quality" && !KeepsQuality(m) then None
        else ValueAt(before, key, name)
  {
    ConfigIs(m);
    AttributesAre(m);
    RootIs(m, alias);
    hide ConfigValues, AttributeValues, RootValues, ConfigList, PathList, AttributeList, RootList, KeepsQuality,
      IsBlank;
    assert |"VoiceGardenConfig"| == 17 && |"Attributes"| == 10;
  }

  lemma ConfigIsHeld(before: Token, m: Meta, alias: bool)
    ensures HasConfig(ApplyUpdate(before, TokenUpdate(m, alias)), before, m)
  {
    var t, key, a, b := ApplyUpdate(before, TokenUpdate(m, alias)), "VoiceGardenConfig", ConfigList(m), PathList(m);
    ConfigIs(m);
    hide ConfigValues, TokenUpdate, ApplyUpdate, IsBlank;
    forall i | 0 <= i < 5
      ensures ValueAt(t, key, a[i].0) == Some(a[i].1)
    {
      WrittenAt(before, m, alias, key, a[i].0);
    }
    forall j | 0 <= j < 6
      ensures HasPath(t, before, b[j].0, b[j].1)
    {
      WrittenAt(before, m, alias, key, b[j].0);
    }
    assert a[0].0 == "EngineType" && a[1].0 == "SherpaOnnxModelType" && a[2].0 == "SampleRate";
    assert a[3].0 == "SpeakerCount" && a[4].0 == "IsSherpaVoice";
    assert b[0].0 == "SherpaOnnxModelPath" && b[1].0 == "SherpaOnnxTokens" && b[2].0 == "SherpaOnnxDataDir";
    assert b[3].0 == "SherpaOnnxVoices" && b[4].0 == "SherpaOnnxAcousticModel" && b[5].0 == "SherpaOnnxVocoder";
  }

  lemma AttributesAreHeld(before: Token, m: Meta, alias: bool)
    ensures HasAttributes(ApplyUpdate(before, TokenUpdate(m, alias)), m)
  {
    var t, key, a := ApplyUpdate(before, TokenUpdate(m, alias)), "Attributes", AttributeList(m);
    AttributesAre(m);
    hide AttributeValues, TokenUpdate, ApplyUpdate, IsBlank;
    forall i | 0 <= i < 8
      ensures ValueAt(t, key, a[i].0) == Some(a[i].1)
    {
      WrittenAt(before, m, alias, key, a[i].0);
    }
    WrittenAt(before, m, alias, key, "Quality");
    assert a[0].0 == "Name" && a[1].0 == "Gender" && a[2].0 == "Age" && a[3].0 == "Language";
    assert a[4].0 == "Locale" && a[5].0 == "Vendor" && a[6].0 == "VoiceGardenType" && a[7].0 == "SherpaModelName";
  }

  lemma RootIsHeld(before: Token, m: Meta, alias: bool)
    ensures HasRootValues(ApplyUpdate(before, TokenUpdate(m, alias)), m, alias)
  {
    var t, a := ApplyUpdate(before, TokenUpdate(m, alias)), RootList(m, alias);
    RootIs(m, alias);
    hide RootValues, TokenUpdate, ApplyUpdate;
    forall i | 0 <= i < 3
      ensures ValueAt(t, "", a[i].0) == Some(a[i].1)
    {
      WrittenAt(before, m, alias, "", a[i].0);
    }
    assert a[0].0 == "" && a[1].0 == "CLSID" && a[2].0 == "SherpaCompatAlias";
  }

  /** Every name that is written is one of ours. */
  lemma NamesAreOurs(m: Meta, alias: bool)
    ensures forall i :: 0 <= i < 5 ==> ConfigList(m)[i].0 in CONFIG_NAMES
    ensures forall j :: 0 <= j < 6 ==> PathList(m)[j].0 in CONFIG_NAMES
    ensures forall i :: 0 <= i < 8 ==> AttributeList(m)[i].0 in ATTRIBUTE_NAMES
    ensures forall i :: 0 <= i < 3 ==> RootList(m, alias)[i].0 in ROOT_NAMES
    ensures "Quality" in ATTRIBUTE_NAMES
  {
  }

  lemma OthersAreKept(before: Token, m: Meta, alias: bool)
    ensures KeepsOthers(ApplyUpdate(before, TokenUpdate(m, alias)), before)
  {
    NamesAreOurs(m, alias);
    ConfigIs(m);
    AttributesAre(m);
    RootIs(m, alias);
    hide ConfigValues, AttributeValues, RootValues, ConfigList, PathList, AttributeList, RootList, TokenUpdate,
      ApplyUpdate, KeepsQuality, IsBlank;
    forall key, name | !IsOurs(key, name)
      ensures ValueAt(ApplyUpdate(before, TokenUpdate(m, alias)), key, name) == ValueAt(before, key, name)
    {
      WrittenAt(before, m, alias, key, name);
    }
  }

  /** Every registry value is the named field of the metadata. */
  lemma UpdateHoldsMeta(before: Token, m: Meta, alias: bool)
    ensures HoldsMeta(ApplyUpdate(before, TokenUpdate(m, alias)), before, m, alias)
  {
    hide HasRootValues, HasAttributes, HasConfig, KeepsOthers, TokenUpdate, ApplyUpdate;
    RootIsHeld(before, m, alias);
    AttributesAreHeld(before, m, alias);
    ConfigIsHeld(before, m, alias);
    OthersAreKept(before, m, alias);
  }

  /** The root key and the counters of TokenSyncResult. */
  class TokenStore {
    var tokens: Root
    var added: nat
    var updated: nat
    var removed: nat

    constructor (tokens: Root)
      ensures this.tokens == tokens && added == 0 && updated == 0 && removed == 0
    {
      this.tokens := tokens;
      added, updated, removed := 0, 0, 0;
    }

    method WritePersistentToken(w: Write)
      modifies this`tokens, this`added, this`updated
      ensures tokens == Put(old(tokens), w)
      ensures HoldsMeta(TokenAt(tokens, w.name), TokenAt(old(tokens), w.name), w.meta, w.alias)
      ensures added == old(added) + (if w.name in old(tokens) then 0 else 1)
      ensures updated == old(updated) + (if w.name in old(tokens) then 1 else 0)
    {
      hide TokenUpdate, HoldsMeta;
      UpdateHoldsMeta(TokenAt(tokens, w.name), w.meta, w.alias);
      var existed := w.name in tokens;
      var u := TokenUpdate(w.meta, w.alias);
      var key := if existed then tokens[w.name] else map[];
      tokens := tokens[w.name := key - u.del + u.put];
      if existed {
        updated := updated + 1;
      } else {
        added := added + 1;
      }
    }

    method TryResolveTokenModelId(name: string) returns (ok: bool, modelId: string, isCompatAlias: bool)
      ensures Resolved(ok, modelId, isCompatAlias) == Resolve(TokenAt(tokens, name), name)
    {
      var t := if name in tokens then tokens[name] else map[];
      modelId := [];
      isCompatAlias := ALIAS_FLAG in t && t[ALIAS_FLAG].DWord? && t[ALIAS_FLAG].number != 0;
      if MODEL_NAME in t && t[MODEL_NAME].Str? && !IsBlank(t[MODEL_NAME].text) {
        modelId := FoldCase(TrimSpaces(t[MODEL_NAME].text));
        TrimKeepsSomething(t[MODEL_NAME].text);
        return true, modelId, isCompatAlias;
      }
      if !HasPrefix(name) {
        return false, modelId, isCompatAlias;
      }
      modelId := name[|PREFIX|..];
      if HasSuffix(modelId) {
        modelId := modelId[..|modelId| - |SUFFIX|];
        isCompatAlias := true;
      }
      ok := !IsBlank(modelId);
    }

    /** Writes every token that should exist, then removes stale ones. */
    method SyncPersistentTokensToRoot(models: Models)
      modifies this
      ensures tokens == Sync(models, old(tokens))
      ensures added == old(added) + Added(old(tokens), Plan(models, |models.ids|))
      ensures added + updated == old(added + updated) + |Plan(models, |models.ids|)|
      ensures |tokens| + (removed - old(removed)) == |old(tokens)| + (added - old(added))
    {
      hide TokenUpdate, CloneAsEnUsAlias, IsStale, ShouldCreateEnUsCompatibilityAlias;
      for k := 0 to |models.ids|
        invariant tokens == PutAll(old(tokens), Plan(models, k))
        invariant added == old(added) + Added(old(tokens), Plan(models, k))
        invariant added + updated == old(added + updated) + |Plan(models, k)|
        invariant removed == old(removed)
      {
        WriteModel(models, models.ids[k], old(tokens), Plan(models, k));
      }
      ghost var start := tokens;
      PutAllCount(old(tokens), Plan(models, |models.ids|));
      RemoveStaleTokens(models);
    }

    /** The writes for one model, on top of `plan`. */
    method WriteModel(models: Models, id: string, ghost root: Root, ghost plan: seq<Write>)
      requires tokens == PutAll(root, plan)
      modifies this`tokens, this`added, this`updated
      ensures tokens == PutAll(root, plan + WritesFor(models, id))
      ensures added - old(added) == Added(root, plan + WritesFor(models, id)) - Added(root, plan)
      ensures added + updated == old(added + updated) + |WritesFor(models, id)|
    {
      hide TokenUpdate, CloneAsEnUsAlias, HoldsMeta;
      var meta := models.build(id);
      if meta.None? {
        assert plan + [] == plan;
        return;
      }
      var main := Write(PREFIX + id, id, meta.value, false);
      assert Front(plan + [main]) == plan && Last(plan + [main]) == main;
      WritePersistentToken(main);
      if ShouldCreateEnUsCompatibilityAlias(models.requested(id), meta.value) {
        var alias := Write(PREFIX + id + SUFFIX, id, CloneAsEnUsAlias(meta.value), true);
        assert Front(plan + [main, alias]) == plan + [main];
        WritePersistentToken(alias);
        assert WritesFor(models, id) == [main, alias];
      } else {
        assert WritesFor(models, id) == [main];
      }
    }

    method RemoveStaleTokens(models: Models)
      modifies this`tokens, this`removed
      ensures tokens == Sweep(models, old(tokens))
      ensures |tokens| + (removed - old(removed)) == |old(tokens)|
    {
      hide Resolve, SweptBut, Sweep, WantsAlias;
      ghost var start := tokens;
      SweptEnds(models, start);
      var names := tokens.Keys;
      while names != {}
        invariant names <= start.Keys && tokens == SweptBut(models, start, names)
        invariant |tokens| + (removed - old(removed)) == |start|
        decreases |names|
      {
        var name :| name in names;
        SweptStep(models, start, names, name);
        names := names - {name};
        if HasPrefix(name) {
          var ok, modelId, isCompatAlias := TryResolveTokenModelId(name);
          if ok && (modelId !in models.ids || (isCompatAlias && !WantsAlias(models, modelId))) {
            tokens := tokens - {name};
            removed := removed + 1;
          }
        }
      }
    }
  }

  /** The tree when all names but `names` have been looked at. */
  ghost function SweptBut(models: Models, root: Root, names: set<string>): Root {
    map n | n in root && (n in names || !IsStale(models, root[n], n)) :: root[n]
  }

  lemma SweptEnds(models: Models, root: Root)
    ensures SweptBut(models, root, root.Keys) == root && SweptBut(models, root, {}) == Sweep(models, root)
  {
    hide IsStale;
  }

  lemma SweptStep(models: Models, root: Root, names: set<string>, name: string)
    requires name in names && names <= root.Keys
    ensures var before, after := SweptBut(models, root, names), SweptBut(models, root, names - {name});
      name in before && before[name] == root[name] &&
      (IsStale(models, root[name], name) ==> after == before - {name} && |after| == |before| - 1) &&
      (!IsStale(models, root[name], name) ==> after == before)
  {
    hide IsStale;
    var before, after := SweptBut(models, root, names), SweptBut(models, root, names - {name});
    if IsStale(models, root[name], name) {
      assert after.Keys == before.Keys - {name};
    }
  }

  lemma {:induction false} TrimKeepsSomething(s: string)
    requires !IsBlank(s)
    ensures !IsBlank(TrimSpaces(s))
    decreases |s|
  {
    if IsWSpace(s[0]) {
      TrimKeepsSomething(s[1..]);
    } else if IsWSpace(Last(s)) {
      TrimKeepsSomething(Front(s));
    }
  }

  lemma BlankConcat(a: string, b: string)
    requires IsBlank(a) && IsBlank(b)
    ensures IsBlank(a + b)
  {
    hide IsWSpace;
  }

  lemma OneIsBlank(s: string)
    ensures IsBlank([]) && IsBlank(s[..0]) && IsBlank(s[|s|..])
    ensures s != [] ==> (IsBlank([s[0]]) <==> IsWSpace(s[0])) && (IsBlank([Last(s)]) <==> IsWSpace(Last(s)))
  {
    hide IsWSpace;
    if s != [] {
      assert [s[0]][0] == s[0] && [Last(s)][0] == Last(s);
    }
  }

  /** Trimming cuts blanks from both ends and nothing else, and leaves none there. */
  lemma {:induction false} TrimCutsBlanks(s: string) returns (a: nat, b: nat)
    ensures a <= b <= |s| && TrimSpaces(s) == s[a..b] && IsBlank(s[..a]) && IsBlank(s[b..])
    ensures a < b ==> !IsWSpace(s[a]) && !IsWSpace(s[b - 1])
    decreases |s|
  {
    hide IsWSpace, IsBlank;
    OneIsBlank(s);
    if s == [] {
      a, b := 0, 0;
    } else if IsWSpace(s[0]) {
      var c, d := TrimCutsBlanks(s[1..]);
      a, b := c + 1, d + 1;
      assert s[1..][c..d] == s[a..b] && s[1..][d..] == s[b..];
      BlankConcat([s[0]], s[1..][..c]);
      assert s[..a] == [s[0]] + s[1..][..c];
    } else if IsWSpace(Last(s)) {
      a, b := TrimCutsBlanks(Front(s));
      assert Front(s)[a..b] == s[a..b] && Front(s)[..a] == s[..a];
      BlankConcat(Front(s)[b..], [Last(s)]);
      assert s[b..] == Front(s)[b..] + [Last(s)];
    } else {
      a, b := 0, |s|;
      assert s[0..|s|] == s;
    }
  }

  /** Writing adds exactly the tokens counted as added. */
  lemma {:induction false} PutAllCount(root: Root, plan: seq<Write>)
    ensures |PutAll(root, plan)| == |root| + Added(root, plan)
  {
    if plan != [] {
      hide TokenUpdate;
      PutAllCount(root, Front(plan));
      var r, w := PutAll(root, Front(plan)), Last(plan);
      assert Put(r, w).Keys == r.Keys + {w.name};
    }
  }
}
