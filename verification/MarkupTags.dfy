/** Every piece of markup that BuildSSML writes itself is a single tag of the intended element. */
module MarkupTags {
  import opened Strings
  import opened XmlNesting
  import opened TagValues
  import opened Ssml

  lemma NumberOk(n: int, unit: string)
    requires ValueOk(unit)
    ensures ValueOk(ToWString(n) + unit)
  {
    var d := ToWString(n);
    forall i | 0 <= i < |d|
      ensures d[i] != '\'' && d[i] != '<' && d[i] != '&'
    {
      assert d[i] in d;
    }
    PlainValue(d);
    ValueConcat(d, unit);
  }

  lemma EntityOk(name: string)
    requires IsPredefined(name)
    ensures ValueOk("&" + name + ";")
  {
    var val := "&" + name + ";";
    assert val[1..] == name + ";" && (name + ";")[|name|] == ';';
    UntilIs(val, |name| + 1);
    assert val[1..|name| + 1] == name && val[|name| + 2..] == [];
  }

  lemma {:induction false} UntilIs(s: string, k: nat)
    requires k < |s| && s[k] == ';' && forall i :: 0 <= i < k ==> s[i] != ';'
    ensures Until(s, ';') == k
  {
  }

  /** The escaped form of a character is a plain character or a predefined reference. */
  lemma EscapedCharOk(c: char)
    ensures ValueOk(EscapeChar(c))
  {
    hide ValueOk;
    if IsEscaped(c) {
      var name :=
        if c == '<' then "lt" else if c == '>' then "gt" else if c == '&' then "amp"
        else if c == '"' then "quot" else "apos";
      assert EscapeChar(c) == "&" + name + ";";
      EntityOk(name);
    } else {
      PlainValue([c]);
    }
  }

  lemma {:induction false} EscapedOk(t: string)
    ensures ValueOk(Escape(t))
  {
    if t != [] {
      hide ValueOk, EscapeChar;
      EscapedOk(Front(t));
      EscapedCharOk(Last(t));
      ValueConcat(Escape(Front(t)), EscapeChar(Last(t)));
    }
  }

  lemma NamespacesOk()
    ensures ValueOk("1.0") && ValueOk(SYNTHESIS_NS) && ValueOk(MSTTS_NS)
  {
    hide ValueOk;
    PlainValue("1.0");
    SynthesisNamespaceOk();
    MsttsNamespaceOk();
  }

  lemma SynthesisNamespaceOk()
    ensures ValueOk(SYNTHESIS_NS)
  {
    hide ValueOk;
    PlainValue(SYNTHESIS_NS);
  }

  lemma MsttsNamespaceOk()
    ensures ValueOk(MSTTS_NS)
  {
    hide ValueOk;
    PlainValue(MSTTS_NS);
  }

  lemma WordsOk()
    ensures ValueOk("date") && ValueOk("y") && ValueOk("cardinal") && ValueOk("fraction") && ValueOk("telephone")
    ensures ValueOk("characters") && ValueOk("sapi") && ValueOk("%") && ValueOk("ms")
  {
    hide ValueOk;
    PlainValue("date");
    PlainValue("y");
    PlainValue("cardinal");
    PlainValue("fraction");
    PlainValue("telephone");
    PlainValue("characters");
    PlainValue("sapi");
    PlainValue("%");
    PlainValue("ms");
  }

  lemma KeysOk()
    ensures KeyOk("version") && KeyOk("xmlns") && KeyOk("xmlns:mstts") && KeyOk("xml:lang") && KeyOk("name")
    ensures KeyOk("volume") && KeyOk("rate") && KeyOk("pitch") && KeyOk("interpret-as") && KeyOk("format")
    ensures KeyOk("time") && KeyOk("mark") && KeyOk("alphabet") && KeyOk("ph")
  {
    hide KeyOk;
    PlainKey("version");
    PlainKey("xmlns");
    PlainKey("xmlns:mstts");
    PlainKey("xml:lang");
    PlainKey("name");
    PlainKey("volume");
    PlainKey("rate");
    PlainKey("pitch");
    PlainKey("interpret-as");
    PlainKey("format");
    PlainKey("time");
    PlainKey("mark");
    PlainKey("alphabet");
    PlainKey("ph");
  }

  lemma PlainKey(key: string)
    requires forall i :: 0 <= i < |key| ==> 'a' <= key[i] <= 'z' || key[i] == '-' || key[i] == ':'
    ensures KeyOk(key)
  {
  }

  // ----- markup with a value that is written as it is

  const SPEAK_LEAD: seq<(string, string)> := [("version", "1.0"), ("xmlns", SYNTHESIS_NS), ("xmlns:mstts", MSTTS_NS)]

  lemma SpeakTagIs(v: Voice)
    ensures IsName("speak") && AttrsOk(SPEAK_LEAD) && KeyOk("xml:lang")
    ensures SpeakTag(v) == StartTagText("speak", SPEAK_LEAD + [("xml:lang", v.locale)])
  {
    hide ValueOk, KeyOk, StartTagText;
    KeysOk();
    NamespacesOk();
    var val := ("xml:lang", v.locale);
    assert SPEAK_LEAD + [val] == [SPEAK_LEAD[0], SPEAK_LEAD[1], SPEAK_LEAD[2], val];
  }

  lemma VoiceTagIs(v: Voice)
    ensures IsName("voice") && AttrsOk([]) && KeyOk("name")
    ensures VoiceTag(v) == StartTagText("voice", [] + [("name", v.onlineName)])
  {
    hide KeyOk, StartTagText;
    KeysOk();
    assert [] + [("name", v.onlineName)] == [("name", v.onlineName)];
  }

  /** The attributes of a say-as element before the one that holds the category, and the name of that one. */
  function ContextLead(cat: string): (seq<(string, string)>, string) {
    if IsDateCategory(cat) then ([("interpret-as", "date")], "format") else ([], "interpret-as")
  }

  lemma ContextTagIs(cat: string)
    ensures var (attrs, key) := ContextLead(cat);
      IsName("say-as") && AttrsOk(attrs) && KeyOk(key) &&
      ContextTag(cat) == StartTagText("say-as", attrs + [(key, CategoryValue(cat))])
  {
    hide ValueOk, KeyOk, StartTagText, IsDateCategory, CategoryValue;
    KeysOk();
    WordsOk();
    var (attrs, key) := ContextLead(cat);
    assert ContextAttrs(cat) == attrs + [(key, CategoryValue(cat))];
  }

  /** One start tag exactly when the locale can be quoted. */
  lemma SpeakTagOf(v: Voice)
    ensures TagOf(SpeakTag(v)) == if Quotable(v.locale) then Some(StartTag("speak")) else None
  {
    hide TagOf, StartTagText, Quotable, SpeakTag, AttrsOk, KeyOk;
    SpeakTagIs(v);
    ValueTagOf("speak", SPEAK_LEAD, "xml:lang", v.locale);
  }

  lemma VoiceTagOf(v: Voice)
    ensures TagOf(VoiceTag(v)) == if Quotable(v.onlineName) then Some(StartTag("voice")) else None
  {
    hide TagOf, StartTagText, Quotable, VoiceTag, AttrsOk, KeyOk;
    VoiceTagIs(v);
    ValueTagOf("voice", [], "name", v.onlineName);
  }

  lemma ContextTagOf(cat: string)
    ensures TagOf(ContextTag(cat)) == if Quotable(CategoryValue(cat)) then Some(StartTag("say-as")) else None
  {
    hide TagOf, StartTagText, Quotable, ContextTag, CategoryValue, ContextLead, AttrsOk, KeyOk;
    ContextTagIs(cat);
    var (attrs, key) := ContextLead(cat);
    ValueTagOf("say-as", attrs, key, CategoryValue(cat));
  }

  // ----- all other markup

  lemma ProsodyTagOf(v: Voice, s: State)
    ensures TagOf(ProsodyTag(v, s)) == Some(StartTag("prosody"))
  {
    hide ValueOk, KeyOk, TagOf, ToWString, VolumeOf, RateOf, PitchOf, RatePercent, StartTagText;
    KeysOk();
    WordsOk();
    NumberOk(VolumeOf(v, s) - 100, "%");
    NumberOk(RatePercent(RateOf(v, s)), "%");
    NumberOk(PitchOf(s) * 5, "%");
    StartTagOf("prosody", ProsodyAttrs(v, s));
  }

  lemma CharactersTagOf()
    ensures TagOf(CharactersTag()) == Some(StartTag("say-as"))
  {
    hide ValueOk, KeyOk, TagOf, StartTagText;
    KeysOk();
    WordsOk();
    StartTagOf("say-as", [("interpret-as", "characters")]);
  }

  lemma BreakTagOf(s: State)
    ensures TagOf(BreakTag(s)) == Some(EmptyTag("break"))
  {
    hide ValueOk, KeyOk, TagOf, EmptyTagText, ToWString;
    KeysOk();
    WordsOk();
    NumberOk(s.silenceMSecs, "ms");
    EmptyTagOf("break", [("time", ToWString(s.silenceMSecs) + "ms")]);
  }

  lemma BookmarkText(t: string)
    ensures "<bookmark mark='" + Escape(t) + "'/>" == EmptyTagText("bookmark", [("mark", Escape(t))])
  {
    hide Escape;
    var attrs, e := [("mark", Escape(t))], Escape(t);
    assert Front(attrs) == [];
    assert AttrsText(attrs) == [] + AttrText("mark", e);
  }

  lemma BookmarkTagOf(t: string)
    ensures TagOf("<bookmark mark='" + Escape(t) + "'/>") == Some(EmptyTag("bookmark"))
  {
    hide ValueOk, KeyOk, TagOf, EmptyTagText, Escape;
    KeysOk();
    EscapedOk(t);
    BookmarkText(t);
    EmptyTagOf("bookmark", [("mark", Escape(t))]);
  }

  lemma PhonemeTagOf(v: Voice, s: State)
    ensures TagOf(PhonemeTag(v, s)) == Some(StartTag("phoneme"))
  {
    hide ValueOk, KeyOk, TagOf, StartTagText;
    KeysOk();
    WordsOk();
    PhonemeTextOk(v, s);
    StartTagOf("phoneme", [("alphabet", "sapi"), ("ph", PhonemeText(v, s))]);
  }

  lemma PhonemeTextOk(v: Voice, s: State)
    ensures ValueOk(PhonemeText(v, s))
  {
    match v.idToPhone(s.phoneIds)
    case None =>
    case Some(ph) => EscapedOk(UpToNul(ph));
  }
}
