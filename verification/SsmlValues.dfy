/**
 Locale, voice name and categories are written into the document as they are. Exactly which values leave it well nested,
 and values that do not.
 */
module SsmlValues {
  import opened Strings
  import opened XmlNesting
  import opened TagValues
  import opened Ssml
  import opened TagHelpers
  import opened MarkupTags
  import opened SsmlFlags
  import opened SsmlNesting
  import opened SsmlBalance
  import opened SsmlOffsets
  import opened SsmlDocument

  // ----- whatever is written next, the first quote or '<' in it is a '<'

  predicate Extends(b: Build, c: Build) {
    b.ssml <= c.ssml && IsQuiet(c.ssml[|b.ssml|..])
  }

  lemma ExtendsBy(b: Build, c: Build, s: string)
    requires c.ssml == b.ssml + s && IsQuiet(s)
    ensures Extends(b, c)
  {
    assert c.ssml[|b.ssml|..] == s;
  }

  lemma ExtendsSame(b: Build, c: Build)
    requires c.ssml == b.ssml
    ensures Extends(b, c)
  {
    ExtendsBy(b, c, []);
  }

  lemma ExtendsTrans(b: Build, c: Build, d: Build)
    requires Extends(b, c) && Extends(c, d)
    ensures Extends(b, d)
  {
    hide IsQuiet;
    var s, t := c.ssml[|b.ssml|..], d.ssml[|c.ssml|..];
    assert d.ssml == b.ssml + (s + t);
    QuietConcat(s, t);
    ExtendsBy(b, d, s + t);
  }

  lemma QuietTags(v: Voice, s: State)
    ensures IsQuiet(ProsodyTag(v, s)) && IsQuiet(BreakTag(s)) && IsQuiet(StartTagText("emphasis", []))
    ensures forall cat :: IsQuiet(ContextTag(cat))
    ensures forall name :: IsQuiet(EndTagText(name))
    ensures IsQuiet("<bookmark mark='") && IsQuiet(" ")
  {
    hide AttrsText;
    assert IsQuiet(" "[1..]);
  }

  /** A piece that begins with a tag is quiet, whatever is in it. */
  lemma QuietFirst(tag: string, rest: string)
    requires tag != [] && tag[0] == '<'
    ensures IsQuiet(tag + rest)
  {
    assert (tag + rest)[0] == '<';
  }

  lemma {:induction false} QuietEscape(t: string)
    ensures IsQuiet(Escape(t))
  {
    if t != [] {
      hide IsQuiet, EscapeChar;
      QuietEscape(Front(t));
      QuietChar(Last(t));
      QuietConcat(Escape(Front(t)), EscapeChar(Last(t)));
    }
  }

  lemma QuietChar(c: char)
    ensures IsQuiet(EscapeChar(c))
  {
    var e := EscapeChar(c);
    NoQuotes(e);
  }

  lemma {:induction false} NoQuotes(s: string)
    requires forall i :: 0 <= i < |s| ==> !IsQuote(s[i])
    ensures IsQuiet(s)
  {
    if s != [] {
      NoQuotes(s[1..]);
    }
  }

  lemma {:induction false} QuietOpenAll(custom: seq<TagText>)
    requires CustomOk(custom)
    ensures IsQuiet(OpenAll(custom))
  {
    if custom != [] {
      hide TagOf, TrimTag;
      QuietOpenAll(Front(custom));
      assert CustomTagOk(Last(custom));
      QuietConcat(OpenAll(Front(custom)), Last(custom));
    }
  }

  lemma QuietCloseAll(custom: seq<TagText>)
    ensures IsQuiet(CloseAll(custom))
  {
    hide GetXMLTagName;
  }

  lemma OpenExtends(v: Voice, f: Frag, b: Build)
    requires CustomOk(b.custom)
    ensures Extends(b, BeforeContent(v, f, b))
  {
    hide CustomOk, OpenAll, ProsodyTag, ContextTag, StartTagText, NeedsProsody, IsQuiet, Extends, IsSpeakable;
    QuietTags(v, f.state);
    QuietOpenAll(b.custom);
    var b0 := NoteText(f, b);
    ExtendsSame(b, b0);
    var b1 := OpenProsody(v, f, b0);
    WritesOrNot(b0, b1, ProsodyTag(v, f.state));
    var b2 := OpenEmphasis(v, f, b1);
    WritesOrNot(b1, b2, StartTagText("emphasis", []));
    var b3 := ReopenCustom(b2);
    WritesOrNot(b2, b3, OpenAll(b.custom));
    var b4 := OpenSayAs(v, f, b3);
    if b4 != b3 {
      ExtendsBy(b3, b4, ContextTag(f.state.category.value));
    } else {
      ExtendsSame(b3, b4);
    }
    ExtendsTrans(b, b0, b1);
    ExtendsTrans(b, b1, b2);
    ExtendsTrans(b, b2, b3);
    ExtendsTrans(b, b3, b4);
  }

  lemma WritesOrNot(b: Build, c: Build, s: string)
    requires c.ssml == b.ssml || c.ssml == b.ssml + s
    requires IsQuiet(s)
    ensures Extends(b, c)
  {
    hide Extends, IsQuiet;
    if c.ssml == b.ssml {
      ExtendsSame(b, c);
    } else {
      ExtendsBy(b, c, s);
    }
  }

  lemma SpokenExtends(v: Voice, f: Frag, b: Build)
    ensures Extends(b, EmitSpoken(v, f, b))
  {
    hide Escape, EscapeMaps, UpToNul, NeedAddingSpace, IsQuiet, Extends;
    var spaced := if b.ssml != [] && NeedAddingSpace(v, b.ssml, f.text) then Emit(b, " ") else b;
    QuietTags(v, f.state);
    QuietEscape(UpToNul(f.text));
    WritesOrNot(b, spaced, " ");
    ExtendsBy(spaced, EmitSpoken(v, f, b), Escape(UpToNul(f.text)));
    ExtendsTrans(b, spaced, EmitSpoken(v, f, b));
  }

  /** A raw tag writes nothing, or itself behind the end tags of what it closes. */
  lemma RawWrites(text: string, b: Build) returns (inner: seq<TagText>)
    ensures RawTag(text, b).ssml == b.ssml || RawTag(text, b).ssml == b.ssml + CloseAll(inner) + text
  {
    hide TrimTag, IsXMLClosingTag, IsXMLSelfClosingTag, GetXMLClosingTagName, CloseAll, FindOpen;
    var tag := TrimTag(text);
    inner := [];
    CloseNothing(b.ssml);
    if !IsXMLSelfClosingTag(tag) && IsXMLClosingTag(tag) {
      var k := FindOpen(b.custom, GetXMLClosingTagName(tag));
      inner := if k >= 0 then b.custom[k + 1..] else [];
    }
  }

  lemma RawExtends(text: string, b: Build)
    requires text != [] && text[0] == '<'
    ensures Extends(b, RawTag(text, b))
  {
    QuietFirst(text, []);
    assert text + [] == text;
    hide RawTag, CloseAll, Extends, IsQuiet;
    var inner := RawWrites(text, b);
    QuietCloseAll(inner);
    QuietConcat(CloseAll(inner), text);
    assert b.ssml + CloseAll(inner) + text == b.ssml + (CloseAll(inner) + text);
    WritesOrNot(b, RawTag(text, b), CloseAll(inner) + text);
  }

  lemma BookmarkExtends(v: Voice, f: Frag, b: Build)
    requires f.state.action.Bookmark?
    ensures Extends(b, FullContent(v, f, b))
  {
    hide Escape, EscapeMaps, UpToNul, Extends, IsQuiet;
    var rest := Escape(UpToNul(f.text)) + "'/>";
    QuietFirst("<bookmark mark='", rest);
    assert FullContent(v, f, b).ssml == b.ssml + ("<bookmark mark='" + rest);
    ExtendsBy(b, FullContent(v, f, b), "<bookmark mark='" + rest);
  }

  lemma WrappedExtends(f: Frag, b: Build, tag: string, close: string)
    requires tag != [] && tag[0] == '<'
    ensures Extends(b, Emit(EmitMapped(Emit(b, tag), f), close))
  {
    hide Escape, EscapeMaps, UpToNul, Extends, IsQuiet;
    var rest, c := Escape(UpToNul(f.text)) + close, Emit(EmitMapped(Emit(b, tag), f), close);
    QuietFirst(tag, rest);
    assert c.ssml == b.ssml + (tag + rest);
    ExtendsBy(b, c, tag + rest);
  }

  lemma FullContentExtends(v: Voice, f: Frag, b: Build)
    requires RawFragOk(f)
    ensures Extends(b, FullContent(v, f, b))
  {
    hide EmitSpoken, EmitMapped, EmitText, RawTag, BreakTag, TagOf, TrimTag, EndTagText, Extends, IsQuiet, AttrsText,
      PhonemeText;
    match f.state.action
    case Speak => SpokenExtends(v, f, b);
    case Silence =>
      QuietTags(v, f.state);
      ExtendsBy(b, FullContent(v, f, b), BreakTag(f.state));
    case Bookmark => BookmarkExtends(v, f, b);
    case SpellOut => WrappedExtends(f, b, CharactersTag(), EndTagText("say-as"));
    case Pronounce => WrappedExtends(f, b, PhonemeTag(v, f.state), EndTagText("phoneme"));
    case ParseUnknownTag => RawExtends(f.text, b);
    case Section => ExtendsSame(b, FullContent(v, f, b));
  }

  lemma ContentExtends(v: Voice, f: Frag, b: Build)
    requires !v.isEdge ==> RawFragOk(f)
    ensures Extends(b, EmitContent(v, f, b))
  {
    hide EmitSpoken, FullContent, Extends, RawFragOk;
    if v.isEdge {
      SpokenExtends(v, f, b);
      if IsSpeakable(f) {
        ExtendsSame(EmitSpoken(v, f, b), EdgeContent(v, f, b));
        ExtendsTrans(b, EmitSpoken(v, f, b), EdgeContent(v, f, b));
      } else {
        ExtendsSame(b, EdgeContent(v, f, b));
      }
    } else {
      FullContentExtends(v, f, b);
    }
  }

  lemma CloseExtends(v: Voice, s: State, level: nat, b: Build)
    ensures Extends(b, CloseTags(level, b))
  {
    hide CloseAll, EndTagText, IsQuiet, Extends;
    QuietTags(v, s);
    QuietCloseAll(b.custom);
    var b1 := CloseSayAs(level, b);
    WritesOrNot(b, b1, EndTagText("say-as"));
    var b2 := CloseCustom(level, b1);
    WritesOrNot(b1, b2, CloseAll(b.custom));
    var b3 := CloseEmphasis(level, b2);
    WritesOrNot(b2, b3, EndTagText("emphasis"));
    var b4 := CloseProsody(level, b3);
    WritesOrNot(b3, b4, EndTagText("prosody"));
    ExtendsTrans(b, b1, b2);
    ExtendsTrans(b, b2, b3);
    ExtendsTrans(b, b3, b4);
  }

  /** From the content of fragment `i` to the end of its round. */
  lemma RoundExtends(v: Voice, frags: seq<Frag>, i: nat)
    requires i < |frags| && RawOk(v, frags)
    ensures Extends(BeforeContent(v, frags[i], BuildTo(v, frags, i)), BuildTo(v, frags, i + 1))
  {
    hide BeforeContent, EmitContent, CloseTags, LevelAfter, Extends, RawFragOk;
    var f, b := frags[i], BuildTo(v, frags, i);
    var c, d := BeforeContent(v, f, b), AfterContent(v, f, b);
    ContentExtends(v, f, c);
    CloseExtends(v, f.state, LevelAfter(v, frags, i, d.prosodyCount), d);
    ExtendsTrans(c, d, BuildTo(v, frags, i + 1));
  }

  lemma {:induction false} BuildExtends(v: Voice, frags: seq<Frag>, i: nat, j: nat)
    requires i <= j <= |frags| && RawOk(v, frags)
    ensures Extends(BuildTo(v, frags, i), BuildTo(v, frags, j))
    decreases j - i
  {
    hide BuildTo, BeforeContent, Extends, RawOk, CustomOk;
    if i == j {
      ExtendsSame(BuildTo(v, frags, i), BuildTo(v, frags, i));
    } else {
      var b := BuildTo(v, frags, j - 1);
      BuildExtends(v, frags, i, j - 1);
      ListIsGood(v, frags, j - 1);
      TagListIs(v, frags, j - 1);
      OpenExtends(v, frags[j - 1], b);
      RoundExtends(v, frags, j - 1);
      ExtendsTrans(b, BeforeContent(v, frags[j - 1], b), BuildTo(v, frags, j));
      ExtendsTrans(BuildTo(v, frags, i), b, BuildTo(v, frags, j));
    }
  }

  /** A reader who is lost behind `c`, which the document continues, finds the document broken. */
  lemma LostSpoils(v: Voice, frags: seq<Frag>, c: Build, i: nat)
    requires i <= |frags| && RawOk(v, frags) && Extends(c, BuildTo(v, frags, i))
    requires IsLost(Read(START, c.ssml))
    ensures !WellNested(Compile(v, frags).ssml)
  {
    hide BuildTo, Read, RawOk, IsLost, IsQuiet, EndTagText;
    var b, doc := BuildTo(v, frags, |frags|), Compile(v, frags);
    BuildExtends(v, frags, i, |frags|);
    ExtendsTrans(c, BuildTo(v, frags, i), b);
    var s, t := b.ssml[|c.ssml|..], doc.ssml[|b.ssml|..];
    EndsQuietly(v, b);
    QuietConcat(s, t);
    assert doc.ssml == c.ssml + (s + t);
    ReadConcat(START, c.ssml, s + t);
    LostStaysLost(Read(START, c.ssml), s + t);
    assert t[0] in s + t;
  }

  lemma EndsQuietly(v: Voice, b: Build)
    ensures var t := Finish(v, b).ssml[|b.ssml|..];
      Finish(v, b).ssml == b.ssml + t && t != [] && t[0] == '<' && IsQuiet(t)
  {
    hide IsQuiet;
    var t := (if v.onlineName != [] then EndTagText("voice") else []) + EndTagText("speak");
    assert Finish(v, b).ssml == b.ssml + t;
    QuietFirst(t, []);
    assert t + [] == t;
  }

  // ----- values that spoil the document

  lemma SpeakTagLoses(v: Voice)
    requires Contained(v.locale) && !Quotable(v.locale)
    ensures IsLost(Read(START, SpeakTag(v)))
  {
    hide Read, Quotable, Contained, AttrsOk, KeyOk, SpeakTag, IsLost;
    SpeakTagIs(v);
    BadValueLoses(START, "speak", SPEAK_LEAD, "xml:lang", v.locale);
  }

  /** For names without apostrophes the document is broken within the voice tag. */
  lemma VoiceTagLoses(v: Voice)
    requires Quotable(v.locale) && Contained(v.onlineName) && !Quotable(v.onlineName)
    ensures v.onlineName != [] && IsLost(Read(START, Start(v).ssml))
    ensures '\'' !in v.onlineName ==> Read(START, Start(v).ssml).Malformed?
  {
    assert v.onlineName != [] by {
      if v.onlineName == [] {
        PlainValue([]);
        OkIsQuotable([]);
      }
    }
    hide Read, Quotable, Contained, AttrsOk, KeyOk, SpeakTag, VoiceTag, IsLost, TagOf;
    VoiceTagIs(v);
    SpeakTagOf(v);
    ReadTag(START, SpeakTag(v));
    BadValueLoses(Read(START, SpeakTag(v)), "voice", [], "name", v.onlineName);
    ReadConcat(START, SpeakTag(v), VoiceTag(v));
  }

  /** The same for the say-as tag of fragment `i`, once everything before can be read. */
  lemma ContextTagLoses(v: Voice, frags: seq<Frag>, i: nat)
    requires i < |frags| && RawOk(v, frags) && ValuesQuotable(v, frags, i) && OpensAt(v, frags, i)
    requires Contained(CategoryAt(v, frags, i)) && !Quotable(CategoryAt(v, frags, i))
    ensures IsLost(Read(START, BeforeContent(v, frags[i], BuildTo(v, frags, i)).ssml))
  {
    hide Read, Quotable, Contained, AttrsOk, KeyOk, ContextTag, IsLost, BuildTo, OpensAt, CategoryValue, ContextLead,
      ReadsTo, RawOk, CustomOk, HasInner, LastIsSayAs, HeadOk, BeforeSayAs, CategoryQuotable, Stack, WithProsody;
    var f, b := frags[i], BuildTo(v, frags, i);
    OpensAtIff(v, frags, i);
    var cat := f.state.category.value;
    BuildToAgrees(v, frags, i);
    BeforeSayAsAgrees(v, f, b, KnownAt(v, frags, i));
    SayAsIsLast(v, f, b);
    var c := BeforeSayAs(v, f, b);
    InContent(c.ssml, Stack(v, c, WithProsody(v, f, b, KnownAt(v, frags, i))),
      WithProsody(v, f, b, KnownAt(v, frags, i)).seen);
    ContextTagIs(cat);
    var (attrs, key) := ContextLead(cat);
    BadValueLoses(Read(START, c.ssml), "say-as", attrs, key, CategoryValue(cat));
    ReadConcat(START, c.ssml, ContextTag(cat));
  }

  lemma InContent(ssml: string, open: seq<Element>, seen: Seen)
    requires ReadsTo(ssml, open, seen)
    ensures Read(START, ssml).Reading? && Read(START, ssml).lexing == Content
  {
  }

  lemma LocaleSpoils(v: Voice, frags: seq<Frag>)
    requires RawOk(v, frags) && Contained(v.locale) && !Quotable(v.locale)
    ensures !WellNested(Compile(v, frags).ssml)
  {
    hide Read, Quotable, Contained, SpeakTag, VoiceTag, IsLost, RawOk, WellNested, Compile, Extends, IsQuiet;
    var c := Start(v).(ssml := SpeakTag(v));
    SpeakTagLoses(v);
    VoiceIsQuiet(v);
    WritesOrNot(c, Start(v), VoiceTag(v));
    assert BuildTo(v, frags, 0) == Start(v);
    LostSpoils(v, frags, c, 0);
  }

  lemma VoiceIsQuiet(v: Voice)
    ensures IsQuiet(VoiceTag(v))
  {
    hide AttrsText;
  }

  lemma NameSpoils(v: Voice, frags: seq<Frag>)
    requires RawOk(v, frags) && Quotable(v.locale) && Contained(v.onlineName) && !Quotable(v.onlineName)
    ensures !WellNested(Compile(v, frags).ssml)
  {
    hide Read, Quotable, Contained, Start, IsLost, RawOk, WellNested, Compile, Extends;
    VoiceTagLoses(v);
    ExtendsSame(Start(v), Start(v));
    assert BuildTo(v, frags, 0) == Start(v);
    LostSpoils(v, frags, Start(v), 0);
  }

  lemma CategorySpoils(v: Voice, frags: seq<Frag>, i: nat)
    requires i < |frags| && RawOk(v, frags) && ValuesQuotable(v, frags, i) && OpensAt(v, frags, i)
    requires Contained(CategoryAt(v, frags, i)) && !Quotable(CategoryAt(v, frags, i))
    ensures !WellNested(Compile(v, frags).ssml)
  {
    hide Read, Quotable, Contained, IsLost, RawOk, WellNested, Compile, BuildTo, BeforeContent, Extends, OpensAt,
      ValuesQuotable, CategoryValue;
    ContextTagLoses(v, frags, i);
    RoundExtends(v, frags, i);
    LostSpoils(v, frags, BeforeContent(v, frags[i], BuildTo(v, frags, i)), i + 1);
  }

  // ----- the exact condition

  /** `val` is written into a tag as it is: the locale, the voice name, or the category of a say-as element. */
  predicate IsWritten(v: Voice, frags: seq<Frag>, val: string) {
    val == v.locale || val == v.onlineName ||
    exists i :: 0 <= i < |frags| && OpensAt(v, frags, i) && val == CategoryAt(v, frags, i)
  }

  /** The first fragment whose category is written and cannot be quoted. */
  lemma {:induction false} FirstUnquotable(v: Voice, frags: seq<Frag>, n: nat) returns (i: nat)
    requires n <= |frags| && Quotable(v.locale) && Quotable(v.onlineName) && !ValuesQuotable(v, frags, n)
    ensures i < n && ValuesQuotable(v, frags, i) && !CategoryQuotable(v, frags, i)
  {
    hide CategoryQuotable, Quotable;
    if ValuesQuotable(v, frags, n - 1) {
      i := n - 1;
    } else {
      i := FirstUnquotable(v, frags, n - 1);
    }
  }

  lemma WrittenAt(v: Voice, frags: seq<Frag>, i: nat)
    requires i < |frags| && OpensAt(v, frags, i)
    ensures IsWritten(v, frags, CategoryAt(v, frags, i))
  {
    hide OpensAt, CategoryValue;
  }

  /**
   As long as no value that is written ends its own tag, the document is well nested if and only if every such value can
   be quoted.
   */
  lemma DocumentIsWellNestedIff(v: Voice, frags: seq<Frag>)
    requires RawOk(v, frags) && forall val :: IsWritten(v, frags, val) ==> Contained(val)
    ensures WellNested(Compile(v, frags).ssml) <==> forall val :: IsWritten(v, frags, val) ==> Quotable(val)
  {
    hide WellNested, Compile, RawOk, Quotable, Contained, OpensAt, CategoryValue;
    assert IsWritten(v, frags, v.locale) && IsWritten(v, frags, v.onlineName);
    if !Quotable(v.locale) {
      LocaleSpoils(v, frags);
    } else if !Quotable(v.onlineName) {
      NameSpoils(v, frags);
    } else if ValuesQuotable(v, frags, |frags|) {
      DocumentIsWellNested(v, frags);
      WrittenIsQuotable(v, frags);
    } else {
      var i := FirstUnquotable(v, frags, |frags|);
      WrittenAt(v, frags, i);
      CategorySpoils(v, frags, i);
    }
  }

  lemma WrittenIsQuotable(v: Voice, frags: seq<Frag>)
    requires ValuesQuotable(v, frags, |frags|)
    ensures forall val :: IsWritten(v, frags, val) ==> Quotable(val)
  {
    hide Quotable, OpensAt, CategoryValue;
    forall val | IsWritten(v, frags, val)
      ensures Quotable(val)
    {
      if val != v.locale && val != v.onlineName {
        var i :| 0 <= i < |frags| && OpensAt(v, frags, i) && val == CategoryAt(v, frags, i);
        assert CategoryQuotable(v, frags, i);
      }
    }
  }

  /**
   For values without apostrophes: the document is well nested if and only if the locale, the voice name and the
   category of every say-as element that is opened are acceptable attribute values. Whether one is opened is a condition
   on the fragments.
   */
  lemma ValuesDecide(v: Voice, frags: seq<Frag>)
    requires RawOk(v, frags) && forall val :: IsWritten(v, frags, val) ==> '\'' !in val
    ensures WellNested(Compile(v, frags).ssml) <==>
      ValueOk(v.locale) && ValueOk(v.onlineName) &&
      forall i :: 0 <= i < |frags| && OpensAt(v, frags, i) ==> ValueOk(CategoryAt(v, frags, i))
  {
    hide WellNested, Compile, RawOk, Quotable, Contained, OpensAt, CategoryValue, ValueOk;
    forall val | IsWritten(v, frags, val)
      ensures Contained(val) && (Quotable(val) <==> ValueOk(val))
    {
      TameIsContained(val);
      QuotableIff(val);
    }
    DocumentIsWellNestedIff(v, frags);
    assert IsWritten(v, frags, v.locale) && IsWritten(v, frags, v.onlineName);
    forall i | 0 <= i < |frags| && OpensAt(v, frags, i)
      ensures IsWritten(v, frags, CategoryAt(v, frags, i))
    {
      WrittenAt(v, frags, i);
    }
  }

  /** A value with an odd number of apostrophes and no double quote spoils the document. */
  lemma OddApostrophesSpoil(v: Voice, frags: seq<Frag>, val: string)
    requires RawOk(v, frags) && forall w :: IsWritten(v, frags, w) ==> Contained(w)
    requires IsWritten(v, frags, val) && '"' !in val && Apostrophes(val) % 2 == 1
    ensures !WellNested(Compile(v, frags).ssml)
  {
    hide WellNested, Compile, RawOk, Contained, IsWritten;
    OddIsNotQuotable(val);
    DocumentIsWellNestedIff(v, frags);
  }

  // ----- instances

  lemma AmpersandIsBad()
    ensures !ValueOk("R&D")
  {
    var val := "R&D";
    assert val[1..] == "&D" && "&D"[1..] == "D" && Until("&D", ';') == 2;
    assert !ValueOk("&D");
  }

  /** A voice name with an ampersand breaks every document, whatever the fragments. */
  lemma AmpersandInName(v: Voice, frags: seq<Frag>)
    requires Quotable(v.locale) && v.onlineName == "R&D"
    ensures !WellNested(Compile(v, frags).ssml)
  {
    hide Compile, Quotable, Contained, ValueOk, Read, Start;
    AmpersandIsBad();
    QuotableIff(v.onlineName);
    TameIsContained(v.onlineName);
    VoiceTagLoses(v);
    StartIsPrefix(v, frags);
    var doc, start := Compile(v, frags).ssml, Start(v).ssml;
    assert doc == start + doc[|start|..];
    ReadConcat(START, start, doc[|start|..]);
    MalformedStays(doc[|start|..]);
  }

  lemma StartIsPrefix(v: Voice, frags: seq<Frag>)
    ensures Start(v).ssml <= Compile(v, frags).ssml
  {
    hide Step, Start, Finish;
    CompileGrows(v, frags, 0);
    assert BuildTo(v, frags, 0) == Start(v);
  }

  /** So does one with an apostrophe. */
  lemma ApostropheInName(v: Voice, frags: seq<Frag>)
    requires RawOk(v, frags) && Quotable(v.locale) && v.onlineName == "O'Brien"
    ensures !WellNested(Compile(v, frags).ssml)
  {
    hide Compile, Quotable, Contained, RawOk, WellNested;
    OneApostrophe("O", "Brien");
    assert "O" + "'" + "Brien" == v.onlineName;
    OddIsNotQuotable(v.onlineName);
    TameIsContained(v.onlineName);
    NameSpoils(v, frags);
  }

  lemma {:induction false} OneApostrophe(a: string, b: string)
    requires '\'' !in a && '\'' !in b
    ensures Apostrophes(a + "'" + b) == 1
    decreases |a| + |b|
  {
    var s := a + "'" + b;
    if b != [] {
      assert Front(s) == a + "'" + Front(b);
      OneApostrophe(a, Front(b));
    } else {
      assert s == a + "'" && Front(s) == a;
      NoApostrophe(a);
    }
  }

  lemma {:induction false} NoApostrophe(s: string)
    requires '\'' !in s
    ensures Apostrophes(s) == 0
  {
    if s != [] {
      NoApostrophe(Front(s));
    }
  }

  /** Plain speech with an ampersand in its category breaks the document, whatever follows it. */
  lemma AmpersandInCategory(v: Voice, frags: seq<Frag>)
    requires RawOk(v, frags) && !v.isEdge && Quotable(v.locale) && Quotable(v.onlineName)
    requires frags != [] && frags[0].state.action.Speak? && frags[0].state.category == Some("R&D")
    ensures !WellNested(Compile(v, frags).ssml)
  {
    hide Compile, Quotable, Contained, RawOk, WellNested, ValueOk;
    AmpersandIsBad();
    QuotableIff("R&D");
    assert OpensAt(v, frags, 0) && CategoryAt(v, frags, 0) == "R&D";
    assert ValuesQuotable(v, frags, 0);
    TameIsContained("R&D");
    CategorySpoils(v, frags, 0);
  }
}
