/**
 What BuildSSML computes, as functions on values: the tag helpers, the escaped text of a fragment with its offset pairs,
 and the state after each fragment. `SsmlEngine` proves its loops against these functions; `SsmlDocument`,
 `SsmlInForce`, `SsmlOffsets` and `SsmlRoundTrip` prove what the documents promise.
 */
module Ssml {
  import opened Strings

  datatype Action = Speak | Silence | Pronounce | Bookmark | SpellOut | Section | ParseUnknownTag

  /** The fields of SPVSTATE that BuildSSML reads. */
  datatype State = State(
    action: Action, volume: nat, rateAdj: int, pitchAdj: int, emphAdj: int,
    category: Option<string>, silenceMSecs: nat, phoneIds: seq<int>)

  /** One SPVTEXTFRAG: `text` is its ulTextLen characters, `src` its offset in the SAPI text. */
  datatype Frag = Frag(state: State, text: string, src: nat)

  /** A pair of positions that correspond. */
  datatype Mapping = Mapping(sapi: u32, ssml: u32)

  /**
   What a call of BuildSSML takes from its engine: voice settings, the output site's volume and rate, and the two system
   services, which are arbitrary functions.
   */
  datatype Voice = Voice(
    locale: string, onlineName: string, isEdge: bool, mainVolume: nat, mainRate: int,
    sameScript: (char, char) -> bool, idToPhone: seq<int> -> Option<string>)

  /** A custom tag that was opened; the code opens none shorter than three characters. */
  type TagText = s: string | |s| >= 3 witness "<a>"

  datatype Build = Build(
    ssml: string, maps: seq<Mapping>,
    prosody: bool, emphasis: bool, sayAs: bool, inCustom: bool, custom: seq<TagText>,
    prosodyCount: nat, hasText: bool, bookmarks: seq<(nat, string)>, lastSapi: u32)

  // ----- escaping

  function EscapeChar(c: char): (e: string)
    ensures e != []
  {
    match c
    case '<' => "&lt;"
    case '>' => "&gt;"
    case '&' => "&amp;"
    case '"' => "&quot;"
    case '\'' => "&apos;"
    case _ => [c]
  }

  predicate IsEscaped(c: char) {
    c == '<' || c == '>' || c == '&' || c == '"' || c == '\''
  }

  function Escape(t: string): string {
    if t == [] then [] else Escape(Front(t)) + EscapeChar(Last(t))
  }

  /** After each escaped character: the next source character matches what follows the entity. */
  function EscapeMaps(src: nat, t: string, start: nat): seq<Mapping> {
    if t == [] then []
    else if IsEscaped(Last(t)) then
      EscapeMaps(src, Front(t), start) + [Mapping(U32(src + |t|), U32(start + |Escape(t)|))]
    else
      EscapeMaps(src, Front(t), start)
  }

  // ----- tag helpers

  function SkipSpaces(s: string, lo: nat, hi: nat): (k: nat)
    requires lo <= hi <= |s|
    ensures lo <= k <= hi
    ensures forall i :: lo <= i < k ==> IsWSpace(s[i])
    ensures k < hi ==> !IsWSpace(s[k])
    decreases hi - lo
  {
    if lo < hi && IsWSpace(s[lo]) then SkipSpaces(s, lo + 1, hi) else lo
  }

  function SkipNonSpaces(s: string, lo: nat, hi: nat): (k: nat)
    requires lo <= hi <= |s|
    ensures lo <= k <= hi
    ensures forall i :: lo <= i < k ==> !IsWSpace(s[i])
    ensures k < hi ==> IsWSpace(s[k])
    decreases hi - lo
  {
    if lo < hi && !IsWSpace(s[lo]) then SkipNonSpaces(s, lo + 1, hi) else lo
  }

  /** The last non-space index in [lo, hi), or lo - 1. */
  function SkipSpacesBack(s: string, lo: nat, hi: nat): (k: int)
    requires lo <= hi <= |s|
    ensures lo - 1 <= k < hi
    ensures forall i :: k < i < hi ==> IsWSpace(s[i])
    ensures k >= lo ==> !IsWSpace(s[k])
    decreases hi - lo
  {
    if lo < hi && IsWSpace(s[hi - 1]) then SkipSpacesBack(s, lo, hi - 1) else hi - 1
  }

  function FindChar(s: string, c: char, lo: nat, hi: nat): (k: nat)
    requires lo <= hi <= |s|
    ensures lo <= k <= hi
    ensures forall i :: lo <= i < k ==> s[i] != c
    ensures k < hi ==> s[k] == c
    decreases hi - lo
  {
    if lo < hi && s[lo] != c then FindChar(s, c, lo + 1, hi) else lo
  }

  function GetXMLTagName(tag: string): string
    requires |tag| >= 2
  {
    var begin := SkipSpaces(tag, 1, |tag| - 1);
    tag[begin..SkipNonSpaces(tag, begin, |tag| - 1)]
  }

  predicate IsXMLClosingTag(tag: string) {
    if |tag| < 4 then false
    else
      var k := SkipSpaces(tag, 1, |tag| - 1);
      k != |tag| - 1 && tag[k] == '/'
  }

  predicate IsXMLSelfClosingTag(tag: string) {
    if |tag| < 4 then false
    else
      var k := SkipSpacesBack(tag, 1, |tag| - 1);
      k != 0 && tag[k] == '/'
  }

  function GetXMLClosingTagName(tag: string): string
    requires IsXMLClosingTag(tag)
  {
    var slash := FindChar(tag, '/', 1, |tag| - 1);
    assert slash <= SkipSpaces(tag, 1, |tag| - 1);
    var begin := SkipSpaces(tag, slash + 1, |tag| - 1);
    tag[begin..SkipNonSpaces(tag, begin, |tag| - 1)]
  }

  function LastIndexOf(s: string, c: char): (k: int)
    ensures -1 <= k < |s|
    ensures k >= 0 ==> s[k] == c
    ensures forall i :: k < i < |s| ==> s[i] != c
  {
    if s == [] then -1 else if Last(s) == c then |s| - 1 else LastIndexOf(Front(s), c)
  }

  /** A raw tag fragment cut to run from its first '<' to its last '>'. */
  function TrimTag(text: string): string {
    var tag := text[FindChar(text, '<', 0, |text|)..];
    tag[..LastIndexOf(tag, '>') + 1]
  }

  /** The innermost open custom tag of that name, or -1. */
  function FindOpen(custom: seq<TagText>, name: string): (k: int)
    ensures -1 <= k < |custom|
    ensures k >= 0 ==> EqualsIgnoreCase(GetXMLTagName(custom[k]), name)
    ensures forall i :: k < i < |custom| ==> !EqualsIgnoreCase(GetXMLTagName(custom[i]), name)
  {
    if custom == [] then -1
    else if EqualsIgnoreCase(GetXMLTagName(Last(custom)), name) then |custom| - 1
    else FindOpen(Front(custom), name)
  }

  /** Closing tags for all of `custom`, innermost first. */
  function CloseAll(custom: seq<TagText>): string {
    if custom == [] then [] else EndTagText(GetXMLTagName(Last(custom))) + CloseAll(Front(custom))
  }

  function OpenAll(custom: seq<TagText>): string {
    if custom == [] then [] else OpenAll(Front(custom)) + Last(custom)
  }

  // ----- markup texts

  function Clamp(x: int, lo: int, hi: int): int {
    if x < lo then lo else if hi < x then hi else x
  }

  function VolumeOf(v: Voice, s: State): nat {
    Clamp(U32(v.mainVolume * s.volume) / 100, 0, 100)
  }

  function RateOf(v: Voice, s: State): int {
    Clamp(v.mainRate + s.rateAdj, -10, 10)
  }

  function PitchOf(s: State): int {
    Clamp(s.pitchAdj, -10, 10)
  }

  predicate NeedsProsody(v: Voice, s: State) {
    VolumeOf(v, s) != 100 || RateOf(v, s) != 0 || PitchOf(s) != 0
  }

  /** -10..10 to -66..200 per cent; the division truncates toward zero. */
  function RatePercent(rate: int): int {
    if rate >= 0 then rate * 20 else -((-rate * 20) / 3)
  }

  /** An attribute that is left out at its default. */
  function PercentAttr(differs: bool, key: string, n: int): seq<(string, string)> {
    if differs then [(key, ToWString(n) + "%")] else []
  }

  function ProsodyAttrs(v: Voice, s: State): seq<(string, string)> {
    PercentAttr(VolumeOf(v, s) != 100, "volume", VolumeOf(v, s) - 100) +
    PercentAttr(RateOf(v, s) != 0, "rate", RatePercent(RateOf(v, s))) +
    PercentAttr(PitchOf(s) != 0, "pitch", PitchOf(s) * 5)
  }

  function ProsodyTag(v: Voice, s: State): string {
    StartTagText("prosody", ProsodyAttrs(v, s))
  }

  predicate IsDateCategory(cat: string) {
    |cat| > 4 && EqualsIgnoreCase(cat[..4], "date") && (cat[4] == '_' || cat[4] == ':')
  }

  /** What is written for a category: of a date its format, otherwise the known names translated. */
  function CategoryValue(cat: string): string {
    if IsDateCategory(cat) then (if EqualsIgnoreCase(cat[5..], "year") then "y" else cat[5..])
    else if EqualsIgnoreCase(cat, "number_cardinal") then "cardinal"
    else if EqualsIgnoreCase(cat, "number_fraction") then "fraction"
    else if EqualsIgnoreCase(cat, "phone_number") then "telephone"
    else cat
  }

  /** `<context id='xxx'>` as the attributes of a say-as element. */
  function ContextAttrs(cat: string): seq<(string, string)> {
    if IsDateCategory(cat) then [("interpret-as", "date"), ("format", CategoryValue(cat))]
    else [("interpret-as", CategoryValue(cat))]
  }

  function ContextTag(cat: string): string {
    StartTagText("say-as", ContextAttrs(cat))
  }

  const SYNTHESIS_NS := "http://www.w3.org/2001/10/synthesis"
  const MSTTS_NS := "http://www.w3.org/2001/mstts"

  function SpeakTag(v: Voice): string {
    StartTagText("speak",
      [("version", "1.0"), ("xmlns", SYNTHESIS_NS), ("xmlns:mstts", MSTTS_NS), ("xml:lang", v.locale)])
  }

  function VoiceTag(v: Voice): string {
    StartTagText("voice", [("name", v.onlineName)])
  }

  function BreakTag(s: State): string {
    EmptyTagText("break", [("time", ToWString(s.silenceMSecs) + "ms")])
  }

  function CharactersTag(): string {
    StartTagText("say-as", [("interpret-as", "characters")])
  }

  function PhonemeTag(v: Voice, s: State): string {
    StartTagText("phoneme", [("alphabet", "sapi"), ("ph", PhonemeText(v, s))])
  }

  /** The phonemes of a Pronounce fragment, escaped; nothing when the converter fails. */
  function PhonemeText(v: Voice, s: State): string {
    match v.idToPhone(s.phoneIds)
    case None => []
    case Some(ph) => Escape(UpToNul(ph))
  }

  /** Whether a space must separate `before` from `after`. */
  predicate NeedAddingSpace(v: Voice, before: string, after: string)
    requires before != []
  {
    if after == [] || Last(before) == '>' || IsWSpace(Last(before)) then false
    else if Last(before) as int < 128 then true
    else if IsWSpace(after[0]) then false
    else if after[0] as int < 128 then true
    else !v.sameScript(Last(before), after[0])
  }

  // ----- one fragment

  predicate IsSpeakable(f: Frag) {
    f.state.action.Speak? || f.state.action.SpellOut? || f.state.action.Pronounce?
  }

  function Emit(b: Build, s: string): Build {
    b.(ssml := b.ssml + s)
  }

  /** Escaped text with the pairs for its entities (AppendTextFragToSsml). */
  function EmitText(b: Build, f: Frag): Build {
    b.(ssml := b.ssml + Escape(UpToNul(f.text)), maps := b.maps + EscapeMaps(f.src, UpToNul(f.text), |b.ssml|))
  }

  function Map(b: Build, sapi: nat): Build {
    b.(maps := b.maps + [Mapping(U32(sapi), U32(|b.ssml|))])
  }

  /** Escaped text between the pairs for its two ends. */
  function EmitMapped(b: Build, f: Frag): Build {
    Map(EmitText(Map(b, f.src), f), f.src + |f.text|)
  }

  function OpenProsody(v: Voice, f: Frag, b: Build): Build {
    if !b.prosody && (!v.isEdge || IsSpeakable(f)) && NeedsProsody(v, f.state)
    then Emit(b, ProsodyTag(v, f.state)).(prosody := true, prosodyCount := b.prosodyCount + 1)
    else b
  }

  function OpenEmphasis(v: Voice, f: Frag, b: Build): Build {
    if !b.emphasis && f.state.emphAdj != 0 && !v.isEdge
    then Emit(b, StartTagText("emphasis", [])).(emphasis := true)
    else b
  }

  function ReopenCustom(b: Build): Build {
    if !b.inCustom then Emit(b, OpenAll(b.custom)).(inCustom := true) else b
  }

  function OpenSayAs(v: Voice, f: Frag, b: Build): Build {
    if !b.sayAs && f.state.category.Some? && f.state.action.Speak? && !v.isEdge
    then Emit(b, ContextTag(f.state.category.value)).(sayAs := true)
    else b
  }

  function OpenTags(v: Voice, f: Frag, b: Build): Build {
    OpenSayAs(v, f, ReopenCustom(OpenEmphasis(v, f, OpenProsody(v, f, b))))
  }

  function EmitSpoken(v: Voice, f: Frag, b: Build): Build {
    var spaced := if b.ssml != [] && NeedAddingSpace(v, b.ssml, f.text) then Emit(b, " ") else b;
    EmitMapped(spaced, f)
  }

  function EdgeContent(v: Voice, f: Frag, b: Build): Build {
    if IsSpeakable(f) then EmitSpoken(v, f, b).(lastSapi := U32(f.src + |f.text|))
    else if f.state.action.Bookmark? then Map(b, b.lastSapi).(bookmarks := b.bookmarks + [(f.src, f.text)])
    else b
  }

  function RawTag(text: string, b: Build): Build {
    var tag := TrimTag(text);
    if IsXMLSelfClosingTag(tag) then Emit(b, text)
    else if IsXMLClosingTag(tag) then
      var k := FindOpen(b.custom, GetXMLClosingTagName(tag));
      if k >= 0 then Emit(Emit(b, CloseAll(b.custom[k + 1..])), text).(custom := b.custom[..k]) else b
    else if |text| >= 3 then Emit(b, text).(custom := b.custom + [text])
    else b
  }

  function FullContent(v: Voice, f: Frag, b: Build): Build {
    match f.state.action
    case Speak => EmitSpoken(v, f, b)
    case Silence => Emit(b, BreakTag(f.state))
    case Bookmark =>
      Emit(EmitText(Emit(b, "<bookmark mark='"), f), "'/>").(bookmarks := b.bookmarks + [(f.src, f.text)])
    case SpellOut => Emit(EmitMapped(Emit(b, CharactersTag()), f), EndTagText("say-as"))
    case Pronounce => Emit(EmitMapped(Emit(b, PhonemeTag(v, f.state)), f), EndTagText("phoneme"))
    case ParseUnknownTag => RawTag(f.text, b)
    case Section => b
  }

  function EmitContent(v: Voice, f: Frag, b: Build): Build {
    if v.isEdge then EdgeContent(v, f, b) else FullContent(v, f, b)
  }

  /** Where the next fragment that matters is: the next one, or for Edge voices the next speakable one. */
  function NextFrag(v: Voice, frags: seq<Frag>, i: nat): (k: nat)
    requires i <= |frags|
    ensures i <= k <= |frags|
    ensures v.isEdge ==> forall j :: i <= j < k ==> !IsSpeakable(frags[j])
    ensures v.isEdge && k < |frags| ==> IsSpeakable(frags[k])
    ensures !v.isEdge ==> k == i
    decreases |frags| - i
  {
    if v.isEdge && i < |frags| && !IsSpeakable(frags[i]) then NextFrag(v, frags, i + 1) else i
  }

  predicate SameProsody(s: State, t: State) {
    s.volume == t.volume && s.rateAdj == t.rateAdj && s.pitchAdj == t.pitchAdj
  }

  predicate SameCategory(s: State, t: State) {
    match (s.category, t.category)
    case (None, None) => true
    case (Some(a), Some(b)) => EqualsIgnoreCase(a, b)
    case _ => false
  }

  /** How many levels of tags stay open after a fragment: 1 prosody, 2 emphasis and custom tags, 3 say-as. */
  function PreserveLevel(v: Voice, prosodyCount: nat, cur: State, next: State): (n: nat)
    ensures n <= 3
  {
    if !SameProsody(cur, next) && !(v.isEdge && prosodyCount >= 2) then 0
    else if cur.emphAdj != next.emphAdj then 1
    else if SameCategory(cur, next) && next.action.Speak? then 3
    else 2
  }

  function LevelAfter(v: Voice, frags: seq<Frag>, i: nat, prosodyCount: nat): (n: nat)
    requires i < |frags|
    ensures n <= 3
  {
    var k := NextFrag(v, frags, i + 1);
    if k < |frags| then PreserveLevel(v, prosodyCount, frags[i].state, frags[k].state) else 0
  }

  function CloseSayAs(level: nat, b: Build): Build {
    if b.sayAs && level < 3 then Emit(b, EndTagText("say-as")).(sayAs := false) else b
  }

  function CloseCustom(level: nat, b: Build): Build {
    if b.inCustom && level < 2 then Emit(b, CloseAll(b.custom)).(inCustom := false) else b
  }

  function CloseEmphasis(level: nat, b: Build): Build {
    if b.emphasis && level < 2 then Emit(b, EndTagText("emphasis")).(emphasis := false) else b
  }

  function CloseProsody(level: nat, b: Build): Build {
    if b.prosody && level < 1 then Emit(b, EndTagText("prosody")).(prosody := false) else b
  }

  function CloseTags(level: nat, b: Build): Build {
    CloseProsody(level, CloseEmphasis(level, CloseCustom(level, CloseSayAs(level, b))))
  }

  function NoteText(f: Frag, b: Build): Build {
    b.(hasText := b.hasText || (!f.state.action.Bookmark? && f.text != []))
  }

  /** The state just before fragment `f`'s own content is written. */
  function BeforeContent(v: Voice, f: Frag, b: Build): Build {
    OpenTags(v, f, NoteText(f, b))
  }

  function AfterContent(v: Voice, f: Frag, b: Build): Build {
    EmitContent(v, f, BeforeContent(v, f, b))
  }

  function Step(v: Voice, frags: seq<Frag>, i: nat, b: Build): Build
    requires i < |frags|
  {
    var c := AfterContent(v, frags[i], b);
    CloseTags(LevelAfter(v, frags, i, c.prosodyCount), c)
  }

  // ----- the whole document

  function Start(v: Voice): Build {
    Build(SpeakTag(v) + (if v.onlineName != [] then VoiceTag(v) else []), [],
          false, false, false, false, [], 0, false, [], 0)
  }

  function BuildTo(v: Voice, frags: seq<Frag>, i: nat): Build
    requires i <= |frags|
  {
    if i == 0 then Start(v) else Step(v, frags, i - 1, BuildTo(v, frags, i - 1))
  }

  function Finish(v: Voice, b: Build): Build {
    Emit(Emit(b, if v.onlineName != [] then EndTagText("voice") else []), EndTagText("speak"))
  }

  /** The result of BuildSSML: document, offset pairs, bookmarks and whether anything is spoken. */
  function Compile(v: Voice, frags: seq<Frag>): Build {
    Finish(v, BuildTo(v, frags, |frags|))
  }
}
