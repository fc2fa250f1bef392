/**
 What a whole document says, fragment by fragment, to a reader of its tags, attributes and text: the elements around
 each fragment and what they ask for, the content itself, and the spaces between spoken texts.
 */
module SsmlMeaning {
  import opened Strings
  import opened XmlNesting
  import opened TagValues
  import opened Ssml
  import opened TagHelpers
  import opened AttributeReading
  import opened MarkupTags
  import opened MarkupMeaning
  import opened SsmlFlags
  import opened SsmlNesting
  import opened SsmlOffsets
  import opened SsmlBalance
  import opened SsmlDocument
  import opened SsmlInForce

  // ----- the elements around a fragment

  /** How many elements are open around every fragment: speak, and voice for online voices. */
  function Outer(v: Voice): nat {
    if v.onlineName != [] then 2 else 1
  }

  /**
   The open elements are the outer ones, prosody unless the voice is plain, emphasis if asked for, the client's own, and
   say-as for plain speech with a category; and their attributes say what the fragment asks for.
   */
  ghost predicate AsAsked(v: Voice, s: State, custom: seq<string>, open: seq<Element>) {
    var n, p, e := Outer(v), if IsPlainVoice(v, s) then 0 else 1, if s.emphAdj != 0 then 1 else 0;
    var speaks := s.action.Speak? && s.category.Some?;
    |open| == n + p + e + |custom| + (if speaks then 1 else 0) && open[0].name == "speak" &&
    (n == 2 ==> open[1].name == "voice") &&
    (p == 1 ==> open[n].name == "prosody" && SaysProsody(open[n].tag, v, s)) &&
    (e == 1 ==> open[n + p].name == "emphasis" && AttributesOf(open[n + p].tag) == Some([])) &&
    open[n + p + e..n + p + e + |custom|] == Elements(custom) &&
    (speaks ==> SaysCategoryOf(Last(open), s.category.value))
  }

  /** A say-as element whose tag says the category, up to case. */
  ghost predicate SaysCategoryOf(e: Element, category: string) {
    e.name == "say-as" &&
    exists cat :: EqualsIgnoreCase(cat, category) && ('\'' !in cat ==> SaysCategory(e.tag, cat))
  }

  lemma CategoryIsSaid(cat: string, category: string)
    requires EqualsIgnoreCase(cat, category)
    ensures SaysCategoryOf(Element("say-as", ContextTag(cat)), category)
  {
    hide EqualsIgnoreCase, SaysCategory, ContextTag;
    if '\'' !in cat {
      ContextTagSays(cat);
    }
  }

  lemma WantedIsAsked(v: Voice, s: State, cat: string, custom: seq<string>)
    requires WantsSayAs(s) ==> IsCategoryOf(s, cat)
    ensures AsAsked(v, s, custom, Wanted(v, s, cat, custom))
  {
    NeedsProsodyIff(v, s);
    ProsodyTagSays(v, s);
    EmphasisTagSays();
    hide NeedsProsody, IsPlainVoice, SaysProsody, ProsodyTag, ContextTag, AttributesOf, StartTagText, SaysCategoryOf,
      EqualsIgnoreCase, SpeakTag, VoiceTag;
    if WantsSayAs(s) {
      CategoryIsSaid(cat, s.category.value);
    }
    hide Elements;
    var open, e := Wanted(v, s, cat, custom), Elements(custom);
    var before := Base(v) + (if NeedsProsody(v, s) then [Element("prosody", ProsodyTag(v, s))] else []) +
      (if s.emphAdj != 0 then [Element("emphasis", StartTagText("emphasis", []))] else []);
    assert open == before + e + if WantsSayAs(s) then [Element("say-as", ContextTag(cat))] else [];
    assert open[|before|..|before| + |e|] == e;
  }

  /** Around the content of every fragment, a reader has open what the fragment asks for, in numbers and names. */
  lemma FragmentStandsAsAsked(v: Voice, frags: seq<Frag>, k: nat)
    requires Readable(v, frags) && !v.isEdge && k < |frags|
    ensures var r := Read(START, BeforeContent(v, frags[k], BuildTo(v, frags, k)).ssml);
      r.Reading? && r.lexing == Content && AsAsked(v, frags[k].state, TagList(v, frags, k), r.open)
  {
    hide Read, BeforeContent, BuildTo, Readable, AsAsked, Wanted, TagList, IsCategoryOf, WantsSayAs, Compile;
    ContentStandsInItsElements(v, frags, k);
    var s, custom := frags[k].state, TagList(v, frags, k);
    var r := Read(START, BeforeContent(v, frags[k], BuildTo(v, frags, k)).ssml);
    var cat :| (WantsSayAs(s) ==> IsCategoryOf(s, cat)) && r.open == Wanted(v, s, cat, custom);
    WantedIsAsked(v, s, cat, custom);
  }

  // ----- the content of a fragment

  /** Character data, with at most one space in front, that says the text. */
  ghost predicate SaysText(w: string, text: string) {
    exists x: string :: (w == x || w == " " + x) && '<' !in x && Decoded(x) == text
  }

  /** Character data that says the text, inside one element of that name with that start tag. */
  ghost predicate SaysInside(w: string, name: string, tag: string, text: string) {
    TagOf(tag) == Some(StartTag(name)) &&
    exists x: string :: w == tag + x + ("</" + name + ">") && '<' !in x && Decoded(x) == text
  }

  /** What each kind of fragment writes, as a reader takes it. Raw tags are written as they are, if at all. */
  ghost predicate ContentSays(v: Voice, f: Frag, w: string) {
    var text := UpToNul(f.text);
    if v.isEdge then match f.state.action
      case Speak => SaysText(w, text)
      case SpellOut => SaysText(w, text)
      case Pronounce => SaysText(w, text)
      case _ => w == []
    else match f.state.action
      case Speak => SaysText(w, text)
      case Silence => TagOf(w) == Some(EmptyTag("break")) && SaysBreak(w, f.state.silenceMSecs)
      case Bookmark => TagOf(w) == Some(EmptyTag("bookmark")) && SaysOnly(w, "mark", text)
      case SpellOut =>
        exists tag :: AttributesOf(tag) == Some([("interpret-as", "characters")]) && SaysInside(w, "say-as", tag, text)
      case Pronounce => exists tag :: SaysPhonemes(tag, Phonemes(v, f.state)) && SaysInside(w, "phoneme", tag, text)
      case ParseUnknownTag => w == [] || (|w| >= |f.text| && w[|w| - |f.text|..] == f.text)
      case Section => w == []
  }

  /** `c`'s document is `b`'s with `w` behind it. */
  predicate Adds(b: Build, c: Build, w: string) {
    c.ssml == b.ssml + w
  }

  lemma EscapedSays(text: string)
    ensures '<' !in Escape(text) && Decoded(Escape(text)) == text
  {
    hide Escape, Decoded;
    EscapedIsBare(text);
    DecodedEscape(text);
  }

  lemma SpokenSays(v: Voice, f: Frag, b: Build) returns (w: string)
    ensures Adds(b, EmitSpoken(v, f, b), w) && SaysText(w, UpToNul(f.text))
  {
    hide Escape, EscapeMaps, UpToNul, NeedAddingSpace, Decoded;
    var x := Escape(UpToNul(f.text));
    EscapedSays(UpToNul(f.text));
    w := if b.ssml != [] && NeedAddingSpace(v, b.ssml, f.text) then " " + x else x;
    assert b.ssml + " " + x == b.ssml + (" " + x);
  }

  lemma WrappedSays(f: Frag, b: Build, tag: string, name: string) returns (w: string)
    requires TagOf(tag) == Some(StartTag(name))
    ensures Adds(b, Emit(EmitMapped(Emit(b, tag), f), EndTagText(name)), w)
    ensures SaysInside(w, name, tag, UpToNul(f.text))
  {
    hide Escape, EscapeMaps, UpToNul, Decoded, TagOf;
    var x := Escape(UpToNul(f.text));
    EscapedSays(UpToNul(f.text));
    w := tag + x + ("</" + name + ">");
    assert b.ssml + tag + x + ("</" + name + ">") == b.ssml + w;
  }

  lemma BookmarkSays(v: Voice, f: Frag, b: Build) returns (w: string)
    requires !v.isEdge && f.state.action.Bookmark?
    ensures Adds(b, FullContent(v, f, b), w) && ContentSays(v, f, w)
  {
    hide Escape, EscapeMaps, UpToNul, Decoded, TagOf, SaysOnly, EmptyTagText;
    var t := UpToNul(f.text);
    w := "<bookmark mark='" + Escape(t) + "'/>";
    BookmarkTagOf(t);
    BookmarkText(t);
    BookmarkTagSays(t);
    assert b.ssml + "<bookmark mark='" + Escape(t) + "'/>" == b.ssml + w;
  }

  lemma RawSays(f: Frag, b: Build) returns (w: string)
    ensures Adds(b, RawTag(f.text, b), w)
    ensures w == [] || (|w| >= |f.text| && w[|w| - |f.text|..] == f.text)
  {
    hide TrimTag, IsXMLClosingTag, IsXMLSelfClosingTag, GetXMLClosingTagName, CloseAll, FindOpen;
    var tag, c := TrimTag(f.text), RawTag(f.text, b);
    var k := if IsXMLClosingTag(tag) then FindOpen(b.custom, GetXMLClosingTagName(tag)) else -1;
    assert b.ssml + [] == b.ssml;
    if c.ssml == b.ssml {
      w := [];
    } else if IsXMLSelfClosingTag(tag) || !IsXMLClosingTag(tag) {
      w := f.text;
    } else {
      w := CloseAll(b.custom[k + 1..]) + f.text;
      assert b.ssml + CloseAll(b.custom[k + 1..]) + f.text == b.ssml + w;
    }
  }

  lemma FullContentSays(v: Voice, f: Frag, b: Build) returns (w: string)
    requires !v.isEdge
    ensures Adds(b, FullContent(v, f, b), w) && ContentSays(v, f, w)
  {
    hide EmitSpoken, EmitMapped, EmitText, RawTag, BreakTag, CharactersTag, PhonemeTag, EndTagText, SaysText,
      SaysInside, SaysBreak, SaysOnly, SaysPhonemes, TagOf, AttributesOf, UpToNul, Phonemes;
    w := [];
    assert b.ssml + [] == b.ssml;
    match f.state.action
    case Speak => w := SpokenSays(v, f, b);
    case Silence =>
      BreakTagOf(f.state);
      BreakTagSays(f.state);
      w := BreakTag(f.state);
    case Bookmark => w := BookmarkSays(v, f, b);
    case SpellOut =>
      CharactersTagOf();
      CharactersTagSays();
      w := WrappedSays(f, b, CharactersTag(), "say-as");
    case Pronounce =>
      PhonemeTagOf(v, f.state);
      PhonemeTagSays(v, f.state);
      w := WrappedSays(f, b, PhonemeTag(v, f.state), "phoneme");
    case ParseUnknownTag => w := RawSays(f, b);
    case Section =>
  }

  lemma EdgeContentSays(v: Voice, f: Frag, b: Build) returns (w: string)
    requires v.isEdge
    ensures Adds(b, EdgeContent(v, f, b), w) && ContentSays(v, f, w)
  {
    hide EmitSpoken, SaysText, UpToNul;
    w := [];
    assert b.ssml + [] == b.ssml;
    if IsSpeakable(f) {
      w := SpokenSays(v, f, b);
    }
  }

  /** The document holds, where fragment `k`'s content stands, exactly what a fragment of its kind says. */
  lemma FragmentSays(v: Voice, frags: seq<Frag>, k: nat)
    requires k < |frags|
    ensures var before, after := BeforeContent(v, frags[k], BuildTo(v, frags, k)), AfterContent(v, frags[k],
        BuildTo(v, frags, k));
      before.ssml <= after.ssml <= Compile(v, frags).ssml && ContentSays(v, frags[k], after.ssml[|before.ssml|..])
  {
    hide BuildTo, BeforeContent, FullContent, EdgeContent, Compile, ContentSays, Grows;
    var f, b := frags[k], BeforeContent(v, frags[k], BuildTo(v, frags, k));
    AfterGrows(v, frags, k);
    GrowsPrefix(AfterContent(v, f, BuildTo(v, frags, k)), Compile(v, frags));
    var w: string;
    if v.isEdge {
      w := EdgeContentSays(v, f, b);
    } else {
      w := FullContentSays(v, f, b);
    }
    assert (b.ssml + w)[|b.ssml|..] == w;
  }

  // ----- the space before a text

  /** Between characters `a` and `c` nothing is needed to keep words apart. */
  predicate Apart(v: Voice, a: char, c: char) {
    a == '>' || IsWSpace(a) || (a as int >= 128 && (IsWSpace(c) || (c as int >= 128 && v.sameScript(a, c))))
  }

  /** Written without an element around it, and not empty. */
  predicate IsBareText(v: Voice, f: Frag) {
    f.text != [] &&
    (f.state.action.Speak? || (v.isEdge && (f.state.action.SpellOut? || f.state.action.Pronounce?)))
  }

  /**
   Between two texts there is a tag, a blank, or two characters of one script that need none; and a space is put there
   exactly where none of these was.
   */
  lemma TextsStayApart(v: Voice, frags: seq<Frag>, k: nat)
    requires k < |frags| && IsBareText(v, frags[k])
    ensures var before, start, doc :=
        BeforeContent(v, frags[k], BuildTo(v, frags, k)).ssml, TextStart(v, frags, k), Compile(v, frags).ssml;
      before != [] && before <= doc && |before| <= start <= |doc| &&
      doc[|before|..start] == (if Apart(v, Last(before), frags[k].text[0]) then "" else " ") &&
      Apart(v, doc[start - 1], frags[k].text[0])
  {
    hide BuildTo, BeforeContent, Compile, Grows, EmitContent, Escape, UpToNul, Trail, PairsOf, IsWSpace, Apart;
    var f, b := frags[k], BeforeContent(v, frags[k], BuildTo(v, frags, k));
    var d, doc, lead := AfterContent(v, f, BuildTo(v, frags, k)), Compile(v, frags).ssml, Lead(v, f, b);
    BeforeHasText(v, frags, k);
    AfterGrows(v, frags, k);
    GrowsPrefix(d, Compile(v, frags));
    SpeakableContent(v, f, b);
    SpaceIff(v, b.ssml, f.text);
    assert d.ssml == b.ssml + (lead + Escape(UpToNul(f.text)) + Trail(v, f));
    PrefixSlice(d.ssml, doc, 0, |b.ssml| + |lead|);
    assert doc[..|b.ssml| + |lead|] == b.ssml + lead;
    var start := |b.ssml| + |lead|;
    assert doc[start - 1] == (b.ssml + lead)[start - 1];
    SpaceSeparates(v, f.text[0]);
  }

  lemma SpaceSeparates(v: Voice, c: char)
    ensures Apart(v, ' ', c)
  {
  }

  lemma SpaceIff(v: Voice, before: string, after: string)
    requires before != [] && after != []
    ensures NeedAddingSpace(v, before, after) <==> !Apart(v, Last(before), after[0])
  {
    hide IsWSpace;
  }

  lemma BeforeHasText(v: Voice, frags: seq<Frag>, k: nat)
    requires k < |frags|
    ensures BeforeContent(v, frags[k], BuildTo(v, frags, k)).ssml != []
  {
    hide BuildTo, BeforeContent, Step, Grows, Start;
    BuildGrows(v, frags, 0, k);
    GrowsPrefix(BuildTo(v, frags, 0), BuildTo(v, frags, k));
    OpenOnlyWrites(v, frags[k], BuildTo(v, frags, k));
    StartHasText(v);
    assert BuildTo(v, frags, 0) == Start(v) by {
      BuildToNothing(v, frags);
    }
  }

  lemma BuildToNothing(v: Voice, frags: seq<Frag>)
    ensures BuildTo(v, frags, 0) == Start(v)
  {
  }

  lemma StartHasText(v: Voice)
    ensures Start(v).ssml != []
  {
    hide AttrsText;
  }

  // ----- prosody of Edge voices

  /** The start tag known for the open prosody element was written for fragment `j`, which is spoken and asks for it. */
  predicate OpenedFor(v: Voice, frags: seq<Frag>, j: nat, w: Known)
    requires j < |frags|
  {
    IsSpeakable(frags[j]) && NeedsProsody(v, frags[j].state) && w.prosody == ProsodyTag(v, frags[j].state)
  }

  /** Before fragment `i`: whose prosody is open, which the next spoken fragment asks for too, up to the second. */
  ghost predicate EdgeKeeps(v: Voice, frags: seq<Frag>, i: nat, b: Build, w: Known)
    requires i <= |frags|
  {
    b.prosody ==>
      exists j :: 0 <= j < i && OpenedFor(v, frags, j, w) &&
        var n := NextFrag(v, frags, i);
        (b.prosodyCount < 2 && n < |frags| ==> SameProsody(frags[j].state, frags[n].state))
  }

  /** Where the content of spoken fragment `k` stands. */
  ghost predicate EdgeStands(v: Voice, frags: seq<Frag>, k: nat, c: Build, w: Known)
    requires k < |frags|
  {
    (c.prosody ==>
      exists j :: 0 <= j <= k && OpenedFor(v, frags, j, w) &&
        (c.prosodyCount < 2 ==> SameProsody(frags[j].state, frags[k].state))) &&
    (c.prosodyCount < 2 && !c.prosody ==> !NeedsProsody(v, frags[k].state))
  }

  lemma EdgeOpening(v: Voice, frags: seq<Frag>, k: nat, b: Build, w: Known)
    requires k < |frags| && v.isEdge && IsSpeakable(frags[k]) && EdgeKeeps(v, frags, k, b, w)
    ensures EdgeStands(v, frags, k, BeforeContent(v, frags[k], b), KnownAfterOpening(v, frags[k], b, w))
  {
    hide BeforeContent, NeedsProsody, ProsodyTag, SameProsody, ContextTag, LastIsSayAs, IsSpeakable;
    var f, c, w' := frags[k], BeforeContent(v, frags[k], b), KnownAfterOpening(v, frags[k], b, w);
    OpenFlags(v, f, b);
    assert NextFrag(v, frags, k) == k;
    SameAsItself(f.state);
    if OpensProsody(v, f, b) {
      assert OpenedFor(v, frags, k, w');
    } else if b.prosody {
      var j :| 0 <= j < k && OpenedFor(v, frags, j, w) &&
        (b.prosodyCount < 2 ==> SameProsody(frags[j].state, frags[k].state));
      assert OpenedFor(v, frags, j, w');
    }
  }

  lemma SameAsItself(s: State)
    ensures SameProsody(s, s)
  {
  }

  lemma SameProsodyTrans(s: State, t: State, u: State)
    requires SameProsody(s, t) && SameProsody(t, u)
    ensures SameProsody(s, u)
  {
  }

  /** What is left open fits the next spoken fragment. */
  lemma EdgeClosing(v: Voice, frags: seq<Frag>, k: nat, d: Build, w: Known, level: nat)
    requires k < |frags| && v.isEdge && level == LevelAfter(v, frags, k, d.prosodyCount)
    requires EdgeStands(v, frags, k, d, w)
    ensures EdgeKeeps(v, frags, k + 1, CloseTags(level, d), w)
  {
    hide CloseTags, NeedsProsody, ProsodyTag, SameProsody, SameCategory, IsSpeakable;
    CloseFlags(level, d);
    var b := CloseTags(level, d);
    if b.prosody {
      var j :| 0 <= j <= k && OpenedFor(v, frags, j, w) &&
        (d.prosodyCount < 2 ==> SameProsody(frags[j].state, frags[k].state));
      var n := NextFrag(v, frags, k + 1);
      if d.prosodyCount < 2 && n < |frags| {
        SameProsodyTrans(frags[j].state, frags[k].state, frags[n].state);
      }
      assert OpenedFor(v, frags, j, w);
    }
  }

  lemma EdgeSkips(v: Voice, frags: seq<Frag>, k: nat, b: Build, w: Known, d: Build, level: nat)
    requires k < |frags| && v.isEdge && !IsSpeakable(frags[k]) && EdgeKeeps(v, frags, k, b, w)
    requires d.prosody == b.prosody && d.prosodyCount == b.prosodyCount
    ensures EdgeKeeps(v, frags, k + 1, CloseTags(level, d), w)
  {
    hide CloseTags, NeedsProsody, ProsodyTag, SameProsody, IsSpeakable;
    CloseFlags(level, d);
    assert NextFrag(v, frags, k) == NextFrag(v, frags, k + 1);
    if d.prosody {
      var j :| 0 <= j < k && OpenedFor(v, frags, j, w) &&
        var n := NextFrag(v, frags, k);
        (b.prosodyCount < 2 && n < |frags| ==> SameProsody(frags[j].state, frags[n].state));
      assert OpenedFor(v, frags, j, w);
    }
  }

  lemma EdgeStep(v: Voice, frags: seq<Frag>, k: nat, b: Build, w: Known)
    requires k < |frags| && v.isEdge && EdgeKeeps(v, frags, k, b, w)
    ensures EdgeKeeps(v, frags, k + 1, Step(v, frags, k, b),
      KnownAfterContent(v, frags[k], b, KnownAfterOpening(v, frags[k], b, w)))
  {
    hide BeforeContent, EmitContent, CloseTags, LevelAfter, NeedsProsody, ProsodyTag, IsSpeakable, EdgeStands,
      EdgeKeeps, ContextTag, LastIsSayAs, AfterRaw;
    var f, c := frags[k], BeforeContent(v, frags[k], b);
    var d, w' := EmitContent(v, f, c), KnownAfterOpening(v, f, b, w);
    var level := LevelAfter(v, frags, k, d.prosodyCount);
    OpenFlags(v, f, b);
    ContentKeepsFlags(v, f, c);
    if IsSpeakable(f) {
      EdgeOpening(v, frags, k, b, w);
      SameStands(v, frags, k, c, d, w');
      EdgeClosing(v, frags, k, d, w', level);
    } else {
      EdgeSkips(v, frags, k, b, w, d, level);
    }
  }

  lemma SameStands(v: Voice, frags: seq<Frag>, k: nat, c: Build, d: Build, w: Known)
    requires k < |frags| && EdgeStands(v, frags, k, c, w) && SameFlags(c, d)
    ensures EdgeStands(v, frags, k, d, w)
  {
    hide OpenedFor, SameProsody, NeedsProsody;
  }

  lemma {:induction false} EdgeKeepsAt(v: Voice, frags: seq<Frag>, i: nat)
    requires i <= |frags| && v.isEdge
    ensures EdgeKeeps(v, frags, i, BuildTo(v, frags, i), KnownAt(v, frags, i))
  {
    hide Step, SpeakTag, VoiceTag, KnownAfterContent, KnownAfterOpening, OpenedFor, SameProsody;
    if i > 0 {
      EdgeKeepsAt(v, frags, i - 1);
      EdgeStep(v, frags, i - 1, BuildTo(v, frags, i - 1), KnownAt(v, frags, i - 1));
    }
  }

  /** A prosody element that says what fragment `j` asks for. */
  ghost predicate SaysProsodyOf(v: Voice, frags: seq<Frag>, e: Element, j: nat) {
    j < |frags| && e.name == "prosody" && !IsPlainVoice(v, frags[j].state) && SaysProsody(e.tag, v, frags[j].state)
  }

  /**
   Speak and voice are open, and at most one prosody element. Until a second one has been opened it is there exactly if
   the fragment asks for one, and says what it asks for; the second one says what some fragment up to this one asked
   for.
   */
  ghost predicate EdgeAsAsked(v: Voice, frags: seq<Frag>, k: nat, r: Reading)
    requires k < |frags|
  {
    r.Reading? && r.lexing == Content && r.prosodies <= 2 && Outer(v) <= |r.open| <= Outer(v) + 1 &&
    r.open[..Outer(v)] == Base(v) &&
    (r.prosodies < 2 && IsPlainVoice(v, frags[k].state) ==> |r.open| == Outer(v)) &&
    (r.prosodies < 2 && !IsPlainVoice(v, frags[k].state) ==>
      |r.open| > Outer(v) && SaysProsodyOf(v, frags, Last(r.open), k)) &&
    (r.prosodies == 2 ==>
      |r.open| > Outer(v) && exists j :: 0 <= j <= k && SaysProsodyOf(v, frags, Last(r.open), j))
  }

  /** What the open prosody element says. */
  lemma OpenedSays(v: Voice, frags: seq<Frag>, k: nat, c: Build, w: Known)
    requires k < |frags| && EdgeStands(v, frags, k, c, w)
    ensures c.prosody ==> exists j :: 0 <= j <= k && SaysProsodyOf(v, frags, Element("prosody", w.prosody), j)
    ensures c.prosodyCount < 2 ==> (c.prosody <==> !IsPlainVoice(v, frags[k].state))
    ensures c.prosody && c.prosodyCount < 2 ==> SaysProsodyOf(v, frags, Element("prosody", w.prosody), k)
  {
    NeedsProsodyIff(v, frags[k].state);
    hide NeedsProsody, IsPlainVoice, SaysProsody, SameProsody, IsSpeakable, ProsodyTag;
    if c.prosody {
      var j :| 0 <= j <= k && OpenedFor(v, frags, j, w) &&
        (c.prosodyCount < 2 ==> SameProsody(frags[j].state, frags[k].state));
      NeedsProsodyIff(v, frags[j].state);
      ProsodyTagSays(v, frags[j].state);
      assert SaysProsodyOf(v, frags, Element("prosody", w.prosody), j);
      if c.prosodyCount < 2 {
        SameProsodyNeeds(v, frags[j].state, frags[k].state);
        ProsodyTagSays(v, frags[k].state);
      }
    }
  }

  /** For Edge voices: around the content of every spoken fragment. */
  lemma EdgeStandsAsAsked(v: Voice, frags: seq<Frag>, k: nat)
    requires Readable(v, frags) && v.isEdge && k < |frags| && IsSpeakable(frags[k])
    ensures EdgeAsAsked(v, frags, k, Read(START, BeforeContent(v, frags[k], BuildTo(v, frags, k)).ssml))
  {
    hide Read, BuildTo, BeforeContent, KnownAt, KnownAfterOpening, Readable, IsPlainVoice, SaysProsodyOf, EdgeStands,
      EdgeKeeps, IsSpeakable, Base, Outer;
    var f, b, w := frags[k], BuildTo(v, frags, k), KnownAt(v, frags, k);
    var c, w' := BeforeContent(v, f, b), KnownAfterOpening(v, f, b, w);
    EdgeReads(v, frags, k);
    EdgeKeepsAt(v, frags, k);
    EdgeOpening(v, frags, k, b, w);
    EdgeCounts(v, frags, k);
    OpenedSays(v, frags, k, c, w');
    var open := Read(START, c.ssml).open;
    assert open[..Outer(v)] == Base(v);
    assert c.prosody ==> Last(open) == Element("prosody", w'.prosody);
  }

  /** What a reader has open is what the flags say. */
  lemma EdgeReads(v: Voice, frags: seq<Frag>, k: nat)
    requires Readable(v, frags) && v.isEdge && k < |frags|
    ensures var f, b := frags[k], BuildTo(v, frags, k);
      var c, w := BeforeContent(v, f, b), KnownAfterOpening(v, f, b, KnownAt(v, frags, k));
      var r := Read(START, c.ssml);
      r.Reading? && r.lexing == Content && r.prosodies == c.prosodyCount && |Base(v)| == Outer(v) &&
      r.open == Base(v) + if c.prosody then [Element("prosody", w.prosody)] else []
  {
    hide Read, BuildTo, BeforeContent, KnownAt, KnownAfterOpening, Quotable, CategoryQuotable, RawOk, HeadOk, CustomOk,
      HasInner, LastIsSayAs, CategoryReads;
    var f, b := frags[k], BuildTo(v, frags, k);
    BuildToAgrees(v, frags, k);
    CategoryReadsAt(v, frags, k);
    BeforeContentAgrees(v, f, b, KnownAt(v, frags, k));
    NoTags();
    var c, w := BeforeContent(v, f, b), KnownAfterOpening(v, f, b, KnownAt(v, frags, k));
    assert c.custom == [];
    hide Elements;
    assert Stack(v, c, w) == Base(v) + if c.prosody then [Element("prosody", w.prosody)] else [];
  }

  /** At most two prosody elements have been opened, and with two the second is open. */
  lemma EdgeCounts(v: Voice, frags: seq<Frag>, k: nat)
    requires v.isEdge && k < |frags| && IsSpeakable(frags[k])
    ensures var c := BeforeContent(v, frags[k], BuildTo(v, frags, k));
      c.prosodyCount <= 2 && (c.prosodyCount == 2 ==> c.prosody)
  {
    hide BuildTo, BeforeContent, NeedsProsody, IsSpeakable;
    EdgeProsodyCount(v, frags, k);
    OpenFlags(v, frags[k], BuildTo(v, frags, k));
    assert NextFrag(v, frags, k) == k;
  }

  // ----- bookmarks of Edge voices

  /** Where the last spoken fragment before `k` ends in the source. */
  function LastSpokenEnd(frags: seq<Frag>, k: nat): u32
    requires k <= |frags|
  {
    if k == 0 then 0
    else if IsSpeakable(frags[k - 1]) then U32(frags[k - 1].src + |frags[k - 1].text|)
    else LastSpokenEnd(frags, k - 1)
  }

  lemma {:induction false} LastSapiIs(v: Voice, frags: seq<Frag>, i: nat)
    requires i <= |frags| && v.isEdge
    ensures BuildTo(v, frags, i).lastSapi == LastSpokenEnd(frags, i)
  {
    hide Step, SpeakTag, VoiceTag, IsSpeakable;
    if i > 0 {
      LastSapiIs(v, frags, i - 1);
      LastSapiStep(v, frags, i - 1, BuildTo(v, frags, i - 1));
    }
  }

  lemma LastSapiStep(v: Voice, frags: seq<Frag>, i: nat, b: Build)
    requires i < |frags| && v.isEdge
    ensures Step(v, frags, i, b).lastSapi ==
      if IsSpeakable(frags[i]) then U32(frags[i].src + |frags[i].text|) else b.lastSapi
  {
    hide BeforeContent, EmitSpoken, CloseTags, LevelAfter, IsSpeakable;
    OpenOnlyWrites(v, frags[i], b);
    var c := AfterContent(v, frags[i], b);
    CloseOnlyWrites(LevelAfter(v, frags, i, c.prosodyCount), c);
  }

  /** A bookmark of an Edge voice pairs its place in the document with the end of what was spoken before it. */
  lemma EdgeBookmarkPair(v: Voice, frags: seq<Frag>, k: nat)
    requires k < |frags| && v.isEdge && frags[k].state.action.Bookmark?
    ensures var b, doc := BuildTo(v, frags, k), Compile(v, frags);
      |b.maps| < |doc.maps| &&
      doc.maps[|b.maps|] == Mapping(LastSpokenEnd(frags, k), U32(|BeforeContent(v, frags[k], b).ssml|))
  {
    hide BuildTo, BeforeContent, Compile, Grows, EmitSpoken;
    var b, d := BuildTo(v, frags, k), AfterContent(v, frags[k], BuildTo(v, frags, k));
    LastSapiIs(v, frags, k);
    OpenOnlyWrites(v, frags[k], b);
    AfterGrows(v, frags, k);
    GrowsPrefix(d, Compile(v, frags));
    assert d.maps == b.maps + [Mapping(LastSpokenEnd(frags, k), U32(|BeforeContent(v, frags[k], b).ssml|))];
  }
}
