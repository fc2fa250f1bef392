/**
 The flags and the list of custom tags that BuildSSML carries from fragment to fragment, apart from the document: what
 opening, content and closing do to them, what the list is, computed from the raw tag fragments alone, and which flags
 are set at each fragment.
 */
module SsmlFlags {
  import opened Strings
  import opened Ssml

  // ----- opening

  predicate OpensProsody(v: Voice, f: Frag, b: Build) {
    !b.prosody && (!v.isEdge || IsSpeakable(f)) && NeedsProsody(v, f.state)
  }

  predicate OpensEmphasis(v: Voice, f: Frag, b: Build) {
    !b.emphasis && f.state.emphAdj != 0 && !v.isEdge
  }

  predicate WantsSayAs(s: State) {
    s.category.Some? && s.action.Speak?
  }

  predicate OpensSayAs(v: Voice, f: Frag, b: Build) {
    !b.sayAs && WantsSayAs(f.state) && !v.isEdge
  }

  /** The opening phase writes, and sets the flags of what it opens. */
  lemma OpenFlags(v: Voice, f: Frag, b: Build)
    ensures var c := BeforeContent(v, f, b);
      c == NoteText(f, b).(
        ssml := c.ssml, prosody := b.prosody || OpensProsody(v, f, b),
        prosodyCount := b.prosodyCount + (if OpensProsody(v, f, b) then 1 else 0),
        emphasis := b.emphasis || OpensEmphasis(v, f, b), inCustom := true, sayAs := b.sayAs || OpensSayAs(v, f, b))
  {
    hide NeedsProsody, ProsodyTag, ContextTag, OpenAll, StartTagText, IsSpeakable;
    var b0 := NoteText(f, b);
    var b1 := OpenProsody(v, f, b0);
    assert b1 == b0.(ssml := b1.ssml, prosody := b1.prosody, prosodyCount := b1.prosodyCount);
    var b2 := OpenEmphasis(v, f, b1);
    assert b2 == b1.(ssml := b2.ssml, emphasis := b2.emphasis);
    var b3 := ReopenCustom(b2);
    assert b3 == b2.(ssml := b3.ssml, inCustom := true);
  }

  // ----- content

  predicate SameFlags(b: Build, c: Build) {
    b.prosody == c.prosody && b.emphasis == c.emphasis && b.inCustom == c.inCustom && b.sayAs == c.sayAs &&
    b.prosodyCount == c.prosodyCount
  }

  /** How a raw tag changes the list of custom tags. */
  function AfterRaw(custom: seq<TagText>, text: string): seq<TagText> {
    var tag := TrimTag(text);
    if IsXMLSelfClosingTag(tag) then custom
    else if IsXMLClosingTag(tag) then
      var k := FindOpen(custom, GetXMLClosingTagName(tag));
      if k >= 0 then custom[..k] else custom
    else if |text| >= 3 then custom + [text]
    else custom
  }

  /** An end tag that closes nothing, or a malformed tag. */
  predicate RawIsDropped(custom: seq<TagText>, text: string) {
    var tag := TrimTag(text);
    !IsXMLSelfClosingTag(tag) &&
    if IsXMLClosingTag(tag) then FindOpen(custom, GetXMLClosingTagName(tag)) < 0 else |text| < 3
  }

  /** The list of custom tags before fragment `i`. */
  function TagList(v: Voice, frags: seq<Frag>, i: nat): seq<TagText>
    requires i <= |frags|
  {
    if i == 0 then []
    else if !v.isEdge && frags[i - 1].state.action.ParseUnknownTag? then
      AfterRaw(TagList(v, frags, i - 1), frags[i - 1].text)
    else TagList(v, frags, i - 1)
  }

  lemma SpokenKeepsFlags(v: Voice, f: Frag, b: Build)
    ensures SameFlags(b, EmitSpoken(v, f, b)) && EmitSpoken(v, f, b).custom == b.custom
  {
    hide NeedAddingSpace, Escape, EscapeMaps, UpToNul;
  }

  lemma MappedKeepsFlags(b: Build, f: Frag)
    ensures SameFlags(b, EmitMapped(b, f)) && EmitMapped(b, f).custom == b.custom
  {
    hide Escape, EscapeMaps, UpToNul;
  }

  lemma TextKeepsFlags(b: Build, f: Frag)
    ensures SameFlags(b, EmitText(b, f)) && EmitText(b, f).custom == b.custom
  {
    hide Escape, EscapeMaps, UpToNul;
  }

  lemma RawKeepsFlags(text: string, b: Build)
    ensures RawTag(text, b) == b.(ssml := RawTag(text, b).ssml, custom := AfterRaw(b.custom, text))
  {
    hide TrimTag, CloseAll, IsXMLClosingTag, IsXMLSelfClosingTag, GetXMLClosingTagName, FindOpen;
    hide Emit, Last;
    var tag := TrimTag(text);
    EmitIs(b, text);
    if !IsXMLSelfClosingTag(tag) && IsXMLClosingTag(tag) {
      var k := FindOpen(b.custom, GetXMLClosingTagName(tag));
      if k >= 0 {
        EmitIs(b, CloseAll(b.custom[k + 1..]));
        EmitIs(Emit(b, CloseAll(b.custom[k + 1..])), text);
      }
    }
  }

  lemma EmitIs(b: Build, s: string)
    ensures Emit(b, s) == b.(ssml := Emit(b, s).ssml)
  {
  }

  lemma FullContentKeepsFlags(v: Voice, f: Frag, b: Build)
    ensures SameFlags(b, FullContent(v, f, b))
    ensures FullContent(v, f, b).custom ==
      if f.state.action.ParseUnknownTag? then AfterRaw(b.custom, f.text) else b.custom
  {
    hide EmitSpoken, EmitMapped, EmitText, RawTag, BreakTag, CharactersTag, PhonemeTag, EndTagText, AfterRaw;
    match f.state.action
    case Speak => SpokenKeepsFlags(v, f, b);
    case Silence =>
    case Bookmark => TextKeepsFlags(Emit(b, "<bookmark mark='"), f);
    case SpellOut => MappedKeepsFlags(Emit(b, CharactersTag()), f);
    case Pronounce => MappedKeepsFlags(Emit(b, PhonemeTag(v, f.state)), f);
    case ParseUnknownTag => RawKeepsFlags(f.text, b);
    case Section =>
  }

  lemma EdgeContentKeepsFlags(v: Voice, f: Frag, b: Build)
    ensures SameFlags(b, EdgeContent(v, f, b)) && EdgeContent(v, f, b).custom == b.custom
  {
    hide EmitSpoken;
    SpokenKeepsFlags(v, f, b);
  }

  /** Content leaves the flags as they are and changes the list of custom tags as the raw tag says. */
  lemma ContentKeepsFlags(v: Voice, f: Frag, b: Build)
    ensures SameFlags(b, EmitContent(v, f, b))
    ensures EmitContent(v, f, b).custom ==
      if !v.isEdge && f.state.action.ParseUnknownTag? then AfterRaw(b.custom, f.text) else b.custom
  {
    hide EdgeContent, FullContent, SameFlags, AfterRaw;
    EdgeContentKeepsFlags(v, f, b);
    FullContentKeepsFlags(v, f, b);
  }

  // ----- closing

  /** The closing phase writes, and clears the flags of what it closes; it forgets none of the client's tags. */
  lemma CloseFlags(level: nat, b: Build)
    ensures CloseTags(level, b) == b.(ssml := CloseTags(level, b).ssml, prosody := b.prosody && level >= 1,
      emphasis := b.emphasis && level >= 2, inCustom := b.inCustom && level >= 2, sayAs := b.sayAs && level >= 3)
  {
    hide CloseAll, EndTagText;
    var b1 := CloseSayAs(level, b);
    assert b1 == b.(ssml := b1.ssml, sayAs := b.sayAs && level >= 3);
    var b2 := CloseCustom(level, b1);
    assert b2 == b1.(ssml := b2.ssml, inCustom := b.inCustom && level >= 2);
    var b3 := CloseEmphasis(level, b2);
    assert b3 == b2.(ssml := b3.ssml, emphasis := b.emphasis && level >= 2);
  }

  lemma StepCustom(v: Voice, frags: seq<Frag>, i: nat, b: Build)
    requires i < |frags|
    ensures Step(v, frags, i, b).custom ==
      if !v.isEdge && frags[i].state.action.ParseUnknownTag? then AfterRaw(b.custom, frags[i].text) else b.custom
  {
    hide BeforeContent, EmitContent, CloseTags, LevelAfter, AfterRaw;
    OpenFlags(v, frags[i], b);
    ContentKeepsFlags(v, frags[i], BeforeContent(v, frags[i], b));
    var c := AfterContent(v, frags[i], b);
    CloseFlags(LevelAfter(v, frags, i, c.prosodyCount), c);
  }

  /** The list is a function of the raw tag fragments. */
  lemma {:induction false} TagListIs(v: Voice, frags: seq<Frag>, i: nat)
    requires i <= |frags|
    ensures BuildTo(v, frags, i).custom == TagList(v, frags, i)
  {
    hide Step, AfterRaw;
    if i > 0 {
      TagListIs(v, frags, i - 1);
      StepCustom(v, frags, i - 1, BuildTo(v, frags, i - 1));
    } else {
      assert BuildTo(v, frags, 0) == Start(v);
    }
  }

  lemma TagListStep(v: Voice, frags: seq<Frag>, i: nat)
    requires i < |frags|
    ensures BeforeContent(v, frags[i], BuildTo(v, frags, i)).custom == TagList(v, frags, i)
    ensures AfterContent(v, frags[i], BuildTo(v, frags, i)).custom == TagList(v, frags, i + 1)
  {
    hide BuildTo, BeforeContent, EmitContent, AfterRaw;
    var b := BuildTo(v, frags, i);
    TagListIs(v, frags, i);
    OpenFlags(v, frags[i], b);
    ContentKeepsFlags(v, frags[i], BeforeContent(v, frags[i], b));
  }

  // ----- what is open at each fragment, for voices that take full SSML

  /** Nothing is left open that fragment state `s` does not want. */
  predicate NothingExtra(v: Voice, s: State, b: Build) {
    (b.prosody ==> NeedsProsody(v, s)) && (b.emphasis ==> s.emphAdj != 0) && (b.sayAs ==> WantsSayAs(s))
  }

  predicate FlagsAre(v: Voice, s: State, b: Build) {
    b.prosody == NeedsProsody(v, s) && b.emphasis == (s.emphAdj != 0) && b.sayAs == WantsSayAs(s) && b.inCustom
  }

  lemma OpeningCompletes(v: Voice, f: Frag, b: Build)
    requires !v.isEdge && NothingExtra(v, f.state, b)
    ensures FlagsAre(v, f.state, BeforeContent(v, f, b))
  {
    hide BeforeContent, NeedsProsody, WantsSayAs;
    OpenFlags(v, f, b);
  }

  lemma SameProsodyNeeds(v: Voice, s: State, t: State)
    requires SameProsody(s, t)
    ensures NeedsProsody(v, s) == NeedsProsody(v, t) && ProsodyTag(v, s) == ProsodyTag(v, t)
  {
    hide StartTagText, ToWString;
  }

  /** What closing leaves open is wanted by the next fragment as well. */
  lemma LevelIsSafe(v: Voice, prosodyCount: nat, cur: State, next: State, b: Build)
    requires !v.isEdge && FlagsAre(v, cur, b)
    ensures NothingExtra(v, next, CloseTags(PreserveLevel(v, prosodyCount, cur, next), b))
  {
    hide CloseTags, EqualsIgnoreCase, NeedsProsody, SameProsody;
    var level := PreserveLevel(v, prosodyCount, cur, next);
    CloseFlags(level, b);
    if level >= 1 {
      SameProsodyNeeds(v, cur, next);
    }
  }

  lemma StepLeavesNothingExtra(v: Voice, frags: seq<Frag>, i: nat, b: Build)
    requires i + 1 < |frags| && !v.isEdge && NothingExtra(v, frags[i].state, b)
    ensures NothingExtra(v, frags[i + 1].state, Step(v, frags, i, b))
  {
    hide BeforeContent, EmitContent, CloseTags, NothingExtra, PreserveLevel, NeedsProsody, AfterRaw, WantsSayAs;
    var f := frags[i];
    OpeningCompletes(v, f, b);
    ContentKeepsFlags(v, f, BeforeContent(v, f, b));
    var c := AfterContent(v, f, b);
    LevelIsSafe(v, c.prosodyCount, f.state, frags[i + 1].state, c);
  }

  lemma {:induction false} NothingExtraAt(v: Voice, frags: seq<Frag>, i: nat)
    requires i < |frags| && !v.isEdge
    ensures NothingExtra(v, frags[i].state, BuildTo(v, frags, i))
  {
    hide Step, NeedsProsody;
    if i == 0 {
      assert BuildTo(v, frags, 0) == Start(v);
    } else {
      NothingExtraAt(v, frags, i - 1);
      StepLeavesNothingExtra(v, frags, i - 1, BuildTo(v, frags, i - 1));
    }
  }

  // ----- where a say-as element is opened

  /** The same prosody and emphasis, and both the same category up to case. */
  predicate SameMarkup(s: State, t: State) {
    s.volume == t.volume && s.rateAdj == t.rateAdj && s.pitchAdj == t.pitchAdj && s.emphAdj == t.emphAdj &&
    s.category.Some? && t.category.Some? && EqualsIgnoreCase(s.category.value, t.category.value)
  }

  /**
   A say-as element is opened for fragment `i`: plain speech with a category, unless the fragment before is plain speech
   too and asks for the same prosody, emphasis and category.
   */
  predicate OpensAt(v: Voice, frags: seq<Frag>, i: nat)
    requires i < |frags|
  {
    !v.isEdge && WantsSayAs(frags[i].state) &&
    !(i > 0 && frags[i - 1].state.action.Speak? && SameMarkup(frags[i - 1].state, frags[i].state))
  }

  /** What is written for the category of fragment `i`. */
  function CategoryAt(v: Voice, frags: seq<Frag>, i: nat): string
    requires i < |frags| && OpensAt(v, frags, i)
  {
    CategoryValue(frags[i].state.category.value)
  }

  lemma OpensAtIff(v: Voice, frags: seq<Frag>, i: nat)
    requires i < |frags|
    ensures OpensSayAs(v, frags[i], BuildTo(v, frags, i)) <==> OpensAt(v, frags, i)
  {
    hide BeforeContent, EmitContent, CloseTags, NeedsProsody, AfterRaw, EqualsIgnoreCase, SpeakTag, VoiceTag;
    if i > 0 && !v.isEdge {
      var f, b := frags[i - 1], BuildTo(v, frags, i - 1);
      NothingExtraAt(v, frags, i - 1);
      OpeningCompletes(v, f, b);
      ContentKeepsFlags(v, f, BeforeContent(v, f, b));
      var c := AfterContent(v, f, b);
      CloseFlags(LevelAfter(v, frags, i - 1, c.prosodyCount), c);
    }
  }

  // ----- which tags are written again

  /** The fragment before `i` leaves prosody as fragment `i` wants it; and emphasis too. */
  predicate ProsodyStays(frags: seq<Frag>, i: nat)
    requires i < |frags|
  {
    i > 0 &&
    var s, t := frags[i - 1].state, frags[i].state;
    s.volume == t.volume && s.rateAdj == t.rateAdj && s.pitchAdj == t.pitchAdj
  }

  predicate EmphasisStays(frags: seq<Frag>, i: nat)
    requires i < |frags|
  {
    ProsodyStays(frags, i) && frags[i - 1].state.emphAdj == frags[i].state.emphAdj
  }

  /** Prosody, emphasis and the client's tags are opened exactly where the fragment before did not leave them open. */
  lemma TagsOpenedIff(v: Voice, frags: seq<Frag>, i: nat)
    requires i < |frags| && !v.isEdge
    ensures var f, b := frags[i], BuildTo(v, frags, i);
      (OpensProsody(v, f, b) <==> NeedsProsody(v, f.state) && !ProsodyStays(frags, i)) &&
      (OpensEmphasis(v, f, b) <==> f.state.emphAdj != 0 && !EmphasisStays(frags, i)) &&
      (b.inCustom <==> EmphasisStays(frags, i))
  {
    hide BeforeContent, EmitContent, CloseTags, NeedsProsody, AfterRaw, SameCategory, SpeakTag, VoiceTag, NothingExtra;
    if i > 0 {
      var f, b := frags[i - 1], BuildTo(v, frags, i - 1);
      NothingExtraAt(v, frags, i - 1);
      OpeningCompletes(v, f, b);
      ContentKeepsFlags(v, f, BeforeContent(v, f, b));
      var c := AfterContent(v, f, b);
      CloseFlags(LevelAfter(v, frags, i - 1, c.prosodyCount), c);
      if ProsodyStays(frags, i) {
        SameProsodyNeeds(v, f.state, frags[i].state);
      }
    }
  }

  /** What is written before the content of fragment `i`. */
  lemma OpenedText(v: Voice, frags: seq<Frag>, i: nat)
    requires i < |frags| && !v.isEdge
    ensures var f, b := frags[i], BuildTo(v, frags, i);
      BeforeContent(v, f, b).ssml == b.ssml +
        (if NeedsProsody(v, f.state) && !ProsodyStays(frags, i) then ProsodyTag(v, f.state) else []) +
        (if f.state.emphAdj != 0 && !EmphasisStays(frags, i) then "<emphasis>" else []) +
        (if EmphasisStays(frags, i) then [] else OpenAll(TagList(v, frags, i))) +
        (if OpensAt(v, frags, i) then ContextTag(f.state.category.value) else [])
  {
    hide NeedsProsody, ProsodyTag, ContextTag, OpenAll, BuildTo, TagList, ProsodyStays, EmphasisStays, OpensAt;
    var f, b := frags[i], BuildTo(v, frags, i);
    TagsOpenedIff(v, frags, i);
    OpensAtIff(v, frags, i);
    TagListIs(v, frags, i);
    assert StartTagText("emphasis", []) == "<emphasis>";
    hide StartTagText;
    OpenTagsText(v, f, b);
  }

  lemma OpenTagsText(v: Voice, f: Frag, b: Build)
    ensures BeforeContent(v, f, b).ssml == b.ssml +
      (if OpensProsody(v, f, b) then ProsodyTag(v, f.state) else []) +
      (if OpensEmphasis(v, f, b) then StartTagText("emphasis", []) else []) +
      (if b.inCustom then [] else OpenAll(b.custom)) +
      (if OpensSayAs(v, f, b) then ContextTag(f.state.category.value) else [])
  {
    hide NeedsProsody, ProsodyTag, ContextTag, OpenAll, StartTagText, IsSpeakable;
    var b0 := NoteText(f, b);
    var b1 := OpenProsody(v, f, b0);
    assert b1.ssml == b.ssml + (if OpensProsody(v, f, b) then ProsodyTag(v, f.state) else []);
    var b2 := OpenEmphasis(v, f, b1);
    assert b2.ssml == b1.ssml + (if OpensEmphasis(v, f, b) then StartTagText("emphasis", []) else []);
    var b3 := ReopenCustom(b2);
    assert b3.ssml == b2.ssml + (if b.inCustom then [] else OpenAll(b.custom));
    var b4 := OpenSayAs(v, f, b3);
    assert b4.ssml == b3.ssml + (if OpensSayAs(v, f, b) then ContextTag(f.state.category.value) else []);
  }

  // ----- what is reported besides the document

  /** What content adds to what is reported: a bookmark fragment its position and text. */
  lemma ContentReports(v: Voice, f: Frag, b: Build)
    ensures EmitContent(v, f, b).hasText == b.hasText
    ensures EmitContent(v, f, b).bookmarks ==
      b.bookmarks + if f.state.action.Bookmark? then [(f.src, f.text)] else []
  {
    hide EmitSpoken, FullContent;
    SpokenReports(v, f, b);
    FullContentReports(v, f, b);
  }

  predicate SameReports(b: Build, c: Build) {
    c.hasText == b.hasText && c.bookmarks == b.bookmarks
  }

  lemma SpokenReports(v: Voice, f: Frag, b: Build)
    ensures SameReports(b, EmitSpoken(v, f, b))
  {
    hide NeedAddingSpace, Escape, EscapeMaps, UpToNul;
  }

  lemma TextReports(f: Frag, b: Build)
    ensures SameReports(b, EmitMapped(b, f)) && SameReports(b, EmitText(b, f))
  {
    hide Escape, EscapeMaps, UpToNul;
  }

  lemma RawReports(text: string, b: Build)
    ensures SameReports(b, RawTag(text, b))
  {
    hide RawTag, AfterRaw;
    RawKeepsFlags(text, b);
  }

  lemma FullContentReports(v: Voice, f: Frag, b: Build)
    ensures FullContent(v, f, b).hasText == b.hasText
    ensures FullContent(v, f, b).bookmarks ==
      b.bookmarks + if f.state.action.Bookmark? then [(f.src, f.text)] else []
  {
    hide EmitSpoken, EmitMapped, EmitText, RawTag, BreakTag, CharactersTag, PhonemeTag, EndTagText;
    match f.state.action
    case Speak => SpokenReports(v, f, b);
    case Silence =>
    case Bookmark => TextReports(f, Emit(b, "<bookmark mark='"));
    case SpellOut => TextReports(f, Emit(b, CharactersTag()));
    case Pronounce => TextReports(f, Emit(b, PhonemeTag(v, f.state)));
    case ParseUnknownTag => RawReports(f.text, b);
    case Section =>
  }

  /** The bookmark fragments, in order. */
  function BookmarksOf(frags: seq<Frag>): seq<(nat, string)> {
    if frags == [] then []
    else
      var f := Last(frags);
      BookmarksOf(Front(frags)) + if f.state.action.Bookmark? then [(f.src, f.text)] else []
  }

  predicate IsText(f: Frag) {
    !f.state.action.Bookmark? && f.text != []
  }

  lemma StepReports(v: Voice, frags: seq<Frag>, i: nat, b: Build)
    requires i < |frags|
    ensures var c, f := Step(v, frags, i, b), frags[i];
      (c.hasText <==> b.hasText || IsText(f)) &&
      c.bookmarks == b.bookmarks + if f.state.action.Bookmark? then [(f.src, f.text)] else []
  {
    hide BeforeContent, EmitContent, CloseTags, LevelAfter;
    OpenFlags(v, frags[i], b);
    ContentReports(v, frags[i], BeforeContent(v, frags[i], b));
    var c := AfterContent(v, frags[i], b);
    CloseFlags(LevelAfter(v, frags, i, c.prosodyCount), c);
  }

  lemma {:induction false} ReportedTo(v: Voice, frags: seq<Frag>, i: nat)
    requires i <= |frags|
    ensures var b := BuildTo(v, frags, i);
      (b.hasText <==> exists j :: 0 <= j < i && IsText(frags[j])) && b.bookmarks == BookmarksOf(frags[..i])
  {
    hide Step, IsText, SpeakTag, VoiceTag;
    if i > 0 {
      ReportedTo(v, frags, i - 1);
      StepReports(v, frags, i - 1, BuildTo(v, frags, i - 1));
      assert Front(frags[..i]) == frags[..i - 1];
    }
  }

  /** There is something to speak if any fragment but a bookmark has text; every bookmark is reported, in order. */
  lemma ReportedIs(v: Voice, frags: seq<Frag>)
    ensures Compile(v, frags).hasText <==>
      exists j :: 0 <= j < |frags| && !frags[j].state.action.Bookmark? && frags[j].text != []
    ensures Compile(v, frags).bookmarks == BookmarksOf(frags)
  {
    hide BuildTo, IsText;
    ReportedTo(v, frags, |frags|);
    assert frags[..|frags|] == frags;
    assert forall f :: IsText(f) <==> !f.state.action.Bookmark? && f.text != [] by {
      TextIs();
    }
  }

  lemma TextIs()
    ensures forall f :: IsText(f) <==> !f.state.action.Bookmark? && f.text != []
  {
  }
}
