/** The part of CTTSEngine that builds SSML and maps offsets back, with the fields its methods update. */
module SsmlEngine {
  import opened Strings
  import opened Ssml
  import opened OffsetSearch
  import opened SsmlOffsets
  import opened SsmlStrip

  /** The local variables of BuildSSML that survive from one fragment to the next. */
  datatype Locals = Locals(
    isInProsodyTag: bool, isInEmphasisTag: bool, isInSayAsTag: bool, isInCustomTags: bool, customTags: seq<TagText>,
    prosodyCount: nat, hasText: bool, lastSAPIOffset: u32)

  class Engine {
    var m_localeName: string
    var m_onlineVoiceName: string
    var m_isEdgeVoice: bool
    const sameScript: (char, char) -> bool
    const idToPhone: seq<int> -> Option<string>

    var m_ssml: string
    var m_offsetMappings: seq<Mapping>
    var m_mappingIndex: nat
    var m_bookmarks: seq<(nat, string)>
    var m_bookmarkIndex: nat

    constructor (sameScript: (char, char) -> bool, idToPhone: seq<int> -> Option<string>)
      ensures this.sameScript == sameScript && this.idToPhone == idToPhone
      ensures m_ssml == [] && m_offsetMappings == [] && m_mappingIndex == 0 && m_bookmarks == []
    {
      this.sameScript, this.idToPhone := sameScript, idToPhone;
      m_localeName, m_onlineVoiceName, m_isEdgeVoice := [], [], false;
      m_ssml, m_offsetMappings, m_mappingIndex, m_bookmarks, m_bookmarkIndex := [], [], 0, [], 0;
    }

    /** What a call of BuildSSML sees; a failed query of the output site gives the default. */
    function VoiceOf(volume: Option<nat>, rate: Option<int>): (v: Voice)
      reads this`m_localeName, this`m_onlineVoiceName, this`m_isEdgeVoice
      ensures v.locale == m_localeName && v.onlineName == m_onlineVoiceName && v.isEdge == m_isEdgeVoice
      ensures (volume.None? ==> v.mainVolume == 100) && forall n :: volume == Some(n) ==> v.mainVolume == n
      ensures (rate.None? ==> v.mainRate == 0) && forall n :: rate == Some(n) ==> v.mainRate == n
    {
      Voice(m_localeName, m_onlineVoiceName, m_isEdgeVoice,
            if volume.Some? then volume.value else 100, if rate.Some? then rate.value else 0, sameScript, idToPhone)
    }

    function View(t: Locals): Build
      reads this`m_ssml, this`m_offsetMappings, this`m_bookmarks
    {
      Build(m_ssml, m_offsetMappings, t.isInProsodyTag, t.isInEmphasisTag, t.isInSayAsTag, t.isInCustomTags,
            t.customTags, t.prosodyCount, t.hasText, m_bookmarks, t.lastSAPIOffset)
    }

    method Append(s: string)
      modifies this`m_ssml
      ensures m_ssml == old(m_ssml) + s
    {
      m_ssml := m_ssml + s;
    }

    /** Copies the text up to its first NUL, escaping it and recording a pair after each entity. */
    method AppendTextFragToSsml(f: Frag)
      modifies this`m_ssml, this`m_offsetMappings
      ensures m_ssml == old(m_ssml) + Escape(UpToNul(f.text))
      ensures m_offsetMappings == old(m_offsetMappings) + EscapeMaps(f.src, UpToNul(f.text), |old(m_ssml)|)
    {
      hide Escape, EscapeMaps, EscapeChar;
      EscapeNone(f.src, |m_ssml|);
      assert f.text[..0] == [];
      var p := 0;
      while p < |f.text| && f.text[p] != '\0'
        invariant p <= |f.text| && forall i :: 0 <= i < p ==> f.text[i] != '\0'
        invariant m_ssml == old(m_ssml) + Escape(f.text[..p])
        invariant m_offsetMappings == old(m_offsetMappings) + EscapeMaps(f.src, f.text[..p], |old(m_ssml)|)
      {
        var ch := f.text[p];
        EscapeStep(f.src, f.text, p, |old(m_ssml)|);
        m_ssml := m_ssml + EscapeChar(ch);
        if IsEscaped(ch) {
          m_offsetMappings := m_offsetMappings + [Mapping(U32(f.src + p + 1), U32(|m_ssml|))];
        }
        p := p + 1;
      }
      UpToNulIs(f.text, p);
    }

    method AppendPhonemesToSsml(s: State)
      modifies this`m_ssml
      ensures m_ssml == old(m_ssml) + PhonemeText(VoiceOf(None, None), s)
    {
      hide EscapeChar, Escape;
      EscapeNone(0, 0);
      var phoneme := idToPhone(s.phoneIds);
      if phoneme.None? {
        assert m_ssml + [] == m_ssml;
        return;
      }
      var ph, p := phoneme.value, 0;
      assert ph[..0] == [];
      while p < |ph| && ph[p] != '\0'
        invariant p <= |ph| && forall i :: 0 <= i < p ==> ph[i] != '\0'
        invariant m_ssml == old(m_ssml) + Escape(ph[..p])
      {
        EscapeStep(0, ph, p, 0);
        m_ssml := m_ssml + EscapeChar(ph[p]);
        p := p + 1;
      }
      UpToNulIs(ph, p);
    }

    method AppendSAPIContextToSsml(cat: string)
      modifies this`m_ssml
      ensures m_ssml == old(m_ssml) + ContextTag(cat)
    {
      hide EqualsIgnoreCase, StartTagText;
      m_ssml := m_ssml + "<say-as interpret-as='";
      if |cat| >= 4 && EqualsIgnoreCase(cat[..4], "date") && |cat| > 4 && (cat[4] == '_' || cat[4] == ':') {
        var fmt := cat[5..];
        m_ssml := m_ssml + "date' format='";
        fmt := if EqualsIgnoreCase(fmt, "year") then "y" else fmt;
        m_ssml := m_ssml + fmt + "'>";
        DateContextText(old(m_ssml), fmt);
      } else {
        var val := if EqualsIgnoreCase(cat, "number_cardinal") then "cardinal"
                   else if EqualsIgnoreCase(cat, "number_fraction") then "fraction"
                   else if EqualsIgnoreCase(cat, "phone_number") then "telephone"
                   else cat;
        m_ssml := m_ssml + val + "'>";
        ContextText(old(m_ssml), val);
      }
    }

    /** One attribute of a percentage, where it differs from its default. */
    method AppendPercent(differs: bool, key: string, n: int, ghost head: string, ghost attrs: seq<(string, string)>)
      requires m_ssml == head + AttrsText(attrs)
      modifies this`m_ssml
      ensures m_ssml == head + AttrsText(attrs + PercentAttr(differs, key, n))
    {
      hide ToWString;
      if differs {
        MoreAttrs(attrs, key, ToWString(n) + "%");
        m_ssml := m_ssml + AttrText(key, ToWString(n) + "%");
      } else {
        assert attrs + [] == attrs;
      }
    }

    /** `<prosody ...>` with the attributes that differ from their defaults. */
    method AppendProsodyTag(v: Voice, s: State)
      modifies this`m_ssml
      ensures m_ssml == old(m_ssml) + ProsodyTag(v, s)
    {
      hide VolumeOf, RateOf, PitchOf, RatePercent, ToWString, AttrsText, PercentAttr;
      var volume: int, rate: int, pitch: int := VolumeOf(v, s), RateOf(v, s), PitchOf(s);
      m_ssml := m_ssml + "<prosody";
      ghost var head := m_ssml;
      NoAttrs(head);
      AppendPercent(volume != 100, "volume", volume - 100, head, []);
      ghost var a1 := [] + PercentAttr(volume != 100, "volume", volume - 100);
      AppendPercent(rate != 0, "rate", RatePercent(rate), head, a1);
      ghost var a2 := a1 + PercentAttr(rate != 0, "rate", RatePercent(rate));
      AppendPercent(pitch != 0, "pitch", pitch * 5, head, a2);
      assert a2 + PercentAttr(pitch != 0, "pitch", pitch * 5) == ProsodyAttrs(v, s);
      m_ssml := m_ssml + ">";
      assert "<prosody" == "<" + "prosody";
    }

    method ReopenCustomTags(customTags: seq<TagText>)
      modifies this`m_ssml
      ensures m_ssml == old(m_ssml) + OpenAll(customTags)
    {
      for k := 0 to |customTags|
        invariant m_ssml == old(m_ssml) + OpenAll(customTags[..k])
      {
        m_ssml := m_ssml + customTags[k];
        assert Front(customTags[..k + 1]) == customTags[..k];
      }
      assert customTags[..|customTags|] == customTags;
    }

    /** Closes the given tags in reverse order. */
    method CloseCustomTags(customTags: seq<TagText>)
      modifies this`m_ssml
      ensures m_ssml == old(m_ssml) + CloseAll(customTags)
    {
      hide GetXMLTagName;
      var k := |customTags|;
      assert customTags[..k] == customTags;
      while k > 0
        invariant k <= |customTags|
        invariant m_ssml + CloseAll(customTags[..k]) == old(m_ssml) + CloseAll(customTags)
      {
        ghost var before := m_ssml;
        var name := GetXMLTagName(customTags[k - 1]);
        m_ssml := m_ssml + EndTagText(name);
        k := k - 1;
        assert Front(customTags[..k + 1]) == customTags[..k] && Last(customTags[..k + 1]) == customTags[k];
        assert before + (EndTagText(name) + CloseAll(customTags[..k])) == m_ssml + CloseAll(customTags[..k]);
      }
    }

    /** The innermost open tag of that name: find_if from the back of the list. */
    method FindTagToClose(customTags: seq<TagText>, name: string) returns (k: int)
      ensures k == FindOpen(customTags, name)
    {
      hide EqualsIgnoreCase, GetXMLTagName;
      k := |customTags| - 1;
      assert customTags[..k + 1] == customTags;
      while k >= 0 && !EqualsIgnoreCase(GetXMLTagName(customTags[k]), name)
        invariant -1 <= k < |customTags|
        invariant FindOpen(customTags[..k + 1], name) == FindOpen(customTags, name)
      {
        assert Front(customTags[..k + 1]) == customTags[..k];
        k := k - 1;
      }
      if k >= 0 {
        assert Last(customTags[..k + 1]) == customTags[k];
      }
    }

    method OpenProsodyTag(v: Voice, f: Frag, t: Locals) returns (t': Locals)
      modifies this`m_ssml
      ensures View(t') == OpenProsody(v, f, old(View(t)))
    {
      hide ProsodyTag, NeedsProsody;
      t' := t;
      if !t'.isInProsodyTag && (!v.isEdge || IsSpeakable(f)) {
        if NeedsProsody(v, f.state) {
          AppendProsodyTag(v, f.state);
          t' := t'.(prosodyCount := t'.prosodyCount + 1, isInProsodyTag := true);
        }
      }
    }

    /** Opens whatever the fragment asks for and is not open yet. */
    method OpenTagsFor(v: Voice, f: Frag, t: Locals) returns (t': Locals)
      modifies this`m_ssml
      ensures View(t') == OpenTags(v, f, old(View(t)))
    {
      hide OpenProsody, ContextTag, StartTagText, OpenAll;
      ghost var b := View(t);
      t' := OpenProsodyTag(v, f, t);
      ghost var b1 := OpenProsody(v, f, b);
      if !t'.isInEmphasisTag && f.state.emphAdj != 0 && !v.isEdge {
        Append(StartTagText("emphasis", []));
        t' := t'.(isInEmphasisTag := true);
      }
      ghost var b2 := OpenEmphasis(v, f, b1);
      assert View(t') == b2;
      if !t'.isInCustomTags {
        ReopenCustomTags(t'.customTags);
        t' := t'.(isInCustomTags := true);
      }
      ghost var b3 := ReopenCustom(b2);
      assert View(t') == b3;
      if !t'.isInSayAsTag && f.state.category.Some? && f.state.action.Speak? && !v.isEdge {
        AppendSAPIContextToSsml(f.state.category.value);
        t' := t'.(isInSayAsTag := true);
      }
    }

    /** Pairs for both ends around the escaped text. */
    method AppendMappedText(f: Frag, ghost t: Locals)
      modifies this`m_ssml, this`m_offsetMappings
      ensures View(t) == EmitMapped(old(View(t)), f)
    {
      hide Escape, EscapeMaps, UpToNul;
      m_offsetMappings := m_offsetMappings + [Mapping(U32(f.src), U32(|m_ssml|))];
      AppendTextFragToSsml(f);
      m_offsetMappings := m_offsetMappings + [Mapping(U32(f.src + |f.text|), U32(|m_ssml|))];
    }

    /** The text inside an element that was opened for it, and the element's end tag. */
    method AppendInside(f: Frag, name: string, ghost t: Locals)
      modifies this`m_ssml, this`m_offsetMappings
      ensures View(t) == Emit(EmitMapped(old(View(t)), f), EndTagText(name))
    {
      hide EmitMapped, EndTagText;
      AppendMappedText(f, t);
      Append(EndTagText(name));
    }

    method AppendSpokenText(v: Voice, f: Frag, ghost t: Locals)
      modifies this`m_ssml, this`m_offsetMappings
      ensures View(t) == EmitSpoken(v, f, old(View(t)))
    {
      hide EmitMapped, NeedAddingSpace;
      if m_ssml != [] && NeedAddingSpace(v, m_ssml, f.text) {
        m_ssml := m_ssml + " ";
      }
      AppendMappedText(f, t);
    }

    /** Edge voices accept few tags, so only text is written, and bookmarks are remembered. */
    method AppendEdgeContent(v: Voice, f: Frag, t: Locals) returns (t': Locals)
      modifies this`m_ssml, this`m_offsetMappings, this`m_bookmarks
      ensures View(t') == EdgeContent(v, f, old(View(t)))
    {
      hide EmitSpoken;
      t' := t;
      if IsSpeakable(f) {
        AppendSpokenText(v, f, t);
        t' := t'.(lastSAPIOffset := U32(f.src + |f.text|));
      } else if f.state.action.Bookmark? {
        m_offsetMappings := m_offsetMappings + [Mapping(t'.lastSAPIOffset, U32(|m_ssml|))];
        m_bookmarks := m_bookmarks + [(f.src, f.text)];
      }
    }

    /** A raw tag: written as it is, remembered when it opens, and closed with everything inside it when it closes. */
    method AppendRawTag(text: string, t: Locals) returns (t': Locals)
      modifies this`m_ssml
      ensures View(t') == RawTag(text, old(View(t)))
    {
      hide TrimTag, IsXMLSelfClosingTag, IsXMLClosingTag, GetXMLClosingTagName, CloseAll, FindOpen;
      t' := t;
      var tag := TrimTag(text);
      if IsXMLSelfClosingTag(tag) {
        m_ssml := m_ssml + text;
      } else if IsXMLClosingTag(tag) {
        var tagToClose := FindTagToClose(t'.customTags, GetXMLClosingTagName(tag));
        if tagToClose >= 0 {
          CloseCustomTags(t'.customTags[tagToClose + 1..]);
          m_ssml := m_ssml + text;
          t' := t'.(customTags := t'.customTags[..tagToClose]);
        }
      } else if |text| >= 3 {
        m_ssml := m_ssml + text;
        t' := t'.(customTags := t'.customTags + [text]);
      }
    }

    method AppendFullContent(v: Voice, f: Frag, t: Locals) returns (t': Locals)
      requires v.idToPhone == idToPhone
      modifies this`m_ssml, this`m_offsetMappings, this`m_bookmarks
      ensures View(t') == FullContent(v, f, old(View(t)))
    {
      hide EmitSpoken, EmitMapped, EmitText, RawTag, StartTagText, EmptyTagText, EndTagText;
      t' := t;
      match f.state.action
      case Speak => AppendSpokenText(v, f, t);
      case Silence => Append(BreakTag(f.state));
      case Bookmark =>
        AppendBookmark(f, t);
      case SpellOut =>
        Append(CharactersTag());
        AppendInside(f, "say-as", t);
      case Pronounce =>
        AppendPhonemeTag(v, f.state);
        AppendInside(f, "phoneme", t);
      case ParseUnknownTag => t' := AppendRawTag(f.text, t);
      case Section =>
    }

    /** `<bookmark mark='...'/>`, also remembered for simulated events. */
    method AppendBookmark(f: Frag, ghost t: Locals)
      modifies this`m_ssml, this`m_offsetMappings, this`m_bookmarks
      ensures var b := old(View(t));
        View(t) == Emit(EmitText(Emit(b, "<bookmark mark='"), f), "'/>").(bookmarks := b.bookmarks + [(f.src, f.text)])
    {
      hide Escape, EscapeMaps, UpToNul;
      m_ssml := m_ssml + "<bookmark mark='";
      AppendTextFragToSsml(f);
      m_ssml := m_ssml + "'/>";
      m_bookmarks := m_bookmarks + [(f.src, f.text)];
    }

    method AppendPhonemeTag(v: Voice, s: State)
      requires v.idToPhone == idToPhone
      modifies this`m_ssml
      ensures m_ssml == old(m_ssml) + PhonemeTag(v, s)
    {
      hide StartTagText, Escape, UpToNul;
      var head := "<phoneme alphabet='sapi' ph='";
      m_ssml := m_ssml + head;
      AppendPhonemesToSsml(s);
      m_ssml := m_ssml + "'>";
      PhonemeTagText(old(m_ssml), PhonemeText(v, s));
    }

    method CloseTagsTo(level: nat, t: Locals) returns (t': Locals)
      modifies this`m_ssml
      ensures View(t') == CloseTags(level, old(View(t)))
    {
      hide CloseAll, EndTagText;
      t' := t;
      if t'.isInSayAsTag && level < 3 {
        Append(EndTagText("say-as"));
        t' := t'.(isInSayAsTag := false);
      }
      assert View(t') == CloseSayAs(level, old(View(t)));
      if t'.isInCustomTags && level < 2 {
        CloseCustomTags(t'.customTags);
        t' := t'.(isInCustomTags := false);
      }
      assert View(t') == CloseCustom(level, CloseSayAs(level, old(View(t))));
      if t'.isInEmphasisTag && level < 2 {
        Append(EndTagText("emphasis"));
        t' := t'.(isInEmphasisTag := false);
      }
      assert View(t') == CloseEmphasis(level, CloseCustom(level, CloseSayAs(level, old(View(t)))));
      if t'.isInProsodyTag && level < 1 {
        Append(EndTagText("prosody"));
        t' := t'.(isInProsodyTag := false);
      }
    }

    /** The next fragment that Edge voices speak, or the end of the list. */
    method FindNextFrag(v: Voice, frags: seq<Frag>, i: nat) returns (next: nat)
      requires i <= |frags|
      ensures next == NextFrag(v, frags, i)
    {
      next := i;
      if v.isEdge {
        while next < |frags| && !IsSpeakable(frags[next])
          invariant i <= next <= |frags|
          invariant NextFrag(v, frags, i) == NextFrag(v, frags, next)
        {
          next := next + 1;
        }
      }
    }

    /** Remembers that there is something to speak. */
    method NoteTextOf(f: Frag, t: Locals) returns (t': Locals)
      ensures View(t') == NoteText(f, View(t))
    {
      t' := t;
      if !f.state.action.Bookmark? && |f.text| != 0 {
        t' := t'.(hasText := true);
      }
    }

    method AppendContent(v: Voice, f: Frag, t: Locals) returns (t': Locals)
      requires v.idToPhone == idToPhone
      modifies this`m_ssml, this`m_offsetMappings, this`m_bookmarks
      ensures View(t') == EmitContent(v, f, old(View(t)))
    {
      hide EdgeContent, FullContent;
      if v.isEdge {
        t' := AppendEdgeContent(v, f, t);
      } else {
        t' := AppendFullContent(v, f, t);
      }
    }

    /** Everything BuildSSML does for one fragment. */
    method AppendFrag(v: Voice, frags: seq<Frag>, i: nat, t: Locals) returns (t': Locals)
      requires i < |frags| && v.idToPhone == idToPhone
      modifies this`m_ssml, this`m_offsetMappings, this`m_bookmarks
      ensures View(t') == Step(v, frags, i, old(View(t)))
    {
      hide OpenTags, CloseTags, LevelAfter, EmitContent, NoteText;
      var f := frags[i];
      t' := NoteTextOf(f, t);
      t' := OpenTagsFor(v, f, t');
      t' := AppendContent(v, f, t');
      var preserveTagLevel := FindLevel(v, frags, i, t'.prosodyCount);
      t' := CloseTagsTo(preserveTagLevel, t');
    }

    /** How many levels of tags the next fragment allows to stay open. */
    method FindLevel(v: Voice, frags: seq<Frag>, i: nat, prosodyCount: nat) returns (preserveTagLevel: nat)
      requires i < |frags|
      ensures preserveTagLevel == LevelAfter(v, frags, i, prosodyCount)
    {
      preserveTagLevel := 0;
      var next := FindNextFrag(v, frags, i + 1);
      if next < |frags| {
        preserveTagLevel := PreserveLevel(v, prosodyCount, frags[i].state, frags[next].state);
      }
    }

    method AppendFrags(v: Voice, frags: seq<Frag>, t: Locals) returns (t': Locals)
      requires v.idToPhone == idToPhone && View(t) == Start(v)
      modifies this`m_ssml, this`m_offsetMappings, this`m_bookmarks
      ensures View(t') == BuildTo(v, frags, |frags|)
    {
      hide Step, Start;
      t' := t;
      for i := 0 to |frags|
        invariant View(t') == BuildTo(v, frags, i)
      {
        t' := AppendFrag(v, frags, i, t');
      }
    }

    method StartDocument(v: Voice)
      modifies this`m_ssml
      ensures m_ssml == Start(v).ssml
    {
      hide SpeakTag, VoiceTag;
      m_ssml := SpeakTag(v);
      if v.onlineName != [] {
        Append(VoiceTag(v));
      } else {
        assert SpeakTag(v) + [] == SpeakTag(v);
      }
    }

    method FinishDocument(v: Voice, ghost t: Locals)
      modifies this`m_ssml
      ensures View(t) == Finish(v, old(View(t)))
    {
      hide EndTagText;
      if v.onlineName != [] {
        Append(EndTagText("voice"));
      } else {
        assert m_ssml + [] == m_ssml;
      }
      Append(EndTagText("speak"));
    }

    /**
     Translates the fragments to SSML. Raw tag fragments must hold a '<', except for Edge voices, which ignore them. The
     document, its offset pairs and the bookmarks are those of `Compile`; the cursor of MapTextOffset is reset; returns
     whether there is text to speak.
     */
    method BuildSSML(frags: seq<Frag>, volume: Option<nat>, rate: Option<int>) returns (hasText: bool)
      requires !m_isEdgeVoice ==>
        forall i :: 0 <= i < |frags| && frags[i].state.action.ParseUnknownTag? ==> '<' in frags[i].text
      modifies this`m_ssml, this`m_offsetMappings, this`m_mappingIndex, this`m_bookmarks, this`m_bookmarkIndex
      ensures var c := Compile(VoiceOf(volume, rate), frags);
        m_ssml == c.ssml && m_offsetMappings == c.maps && m_bookmarks == c.bookmarks && hasText == c.hasText
      ensures m_mappingIndex == 0 && m_bookmarkIndex == 0
      ensures |m_ssml| < TWO_32 ==> Sorted(m_offsetMappings)
    {
      hide BuildTo, Finish, Sorted;
      var v := VoiceOf(volume, rate);
      StartDocument(v);
      m_offsetMappings, m_mappingIndex := [], 0;
      m_bookmarks, m_bookmarkIndex := [], 0;
      var t := Locals(false, false, false, false, [], 0, false, 0);
      t := AppendFrags(v, frags, t);
      FinishDocument(v, t);
      assert View(t) == Compile(v, frags);
      if |m_ssml| < TWO_32 {
        MappingsAreSorted(v, frags);
      }
      return t.hasText;
    }

    /** Moves the cursor to the pair that serves `ssmlOffset`, starting over when it is already past it. */
    method MoveCursor(ssmlOffset: nat)
      requires Sorted(m_offsetMappings) && m_offsetMappings != []
      modifies this`m_mappingIndex
      ensures m_mappingIndex == WalkForward(m_offsetMappings, 0, ssmlOffset)
    {
      var maps, size := m_offsetMappings, |m_offsetMappings|;
      if m_mappingIndex >= size || maps[m_mappingIndex].ssml > ssmlOffset {
        m_mappingIndex := 0;
      }
      CursorAgrees(maps, old(m_mappingIndex), ssmlOffset);
      while m_mappingIndex + 1 < size && ssmlOffset >= maps[m_mappingIndex + 1].ssml
        invariant m_mappingIndex < size
        invariant WalkForward(maps, m_mappingIndex, ssmlOffset) == WalkForward(maps, 0, ssmlOffset)
      {
        m_mappingIndex := m_mappingIndex + 1;
      }
    }

    /** The pair that serves an end position, searched from the cursor on. */
    method FindEndPair(endOffset: nat, endSAPIOffset: nat) returns (index: nat)
      requires m_mappingIndex < |m_offsetMappings|
      ensures index == WalkBack(m_offsetMappings, WalkForward(m_offsetMappings, m_mappingIndex, endOffset),
        endSAPIOffset)
    {
      var maps, size := m_offsetMappings, |m_offsetMappings|;
      index := m_mappingIndex;
      while index + 1 < size && endOffset >= maps[index + 1].ssml
        invariant m_mappingIndex <= index < size
        invariant WalkForward(maps, index, endOffset) == WalkForward(maps, m_mappingIndex, endOffset)
      {
        index := index + 1;
      }
      ghost var last := index;
      while index > 0 && maps[index - 1].ssml == maps[index].ssml && maps[index - 1].sapi >= endSAPIOffset
        invariant index <= last
        invariant WalkBack(maps, index, endSAPIOffset) == WalkBack(maps, last, endSAPIOffset)
      {
        index := index - 1;
      }
    }

    /** Converts an offset and length in the SSML text to those in the SAPI text. */
    method MapTextOffset(ssmlOffset: u32, textLen: u32) returns (offset: nat, len: nat)
      requires Sorted(m_offsetMappings)
      modifies this`m_mappingIndex
      ensures (offset, len) == MapRange(m_offsetMappings, ssmlOffset, textLen)
    {
      if m_offsetMappings == [] {
        return ssmlOffset, textLen;
      }
      hide Shift, WalkForward, WalkBack;
      var endOffset := U32(ssmlOffset + textLen);
      MoveCursor(ssmlOffset);
      offset := Shift(m_offsetMappings[m_mappingIndex], ssmlOffset);
      len := textLen;
      var index := FindEndPair(endOffset, U32(offset + textLen));
      if index <= m_mappingIndex {
        return;
      }
      var endMapping := m_offsetMappings[index];
      endOffset := U32(endOffset - endMapping.ssml + endMapping.sapi);
      len := U32(endOffset - offset);
    }

    /** Drops tags and comments, decodes the predefined entities and trims. */
    method StripSSML(ssml: string) returns (result: string)
      ensures result == Strip(ssml)
    {
      hide StripFrom;
      result := [];
      var inTag, inComment, i := false, false, 0;
      StripNothing();
      assert ssml[0..] == ssml;
      while i < |ssml|
        invariant i <= |ssml|
        invariant result + StripFrom(ssml[i..], inTag, inComment) == StripFrom(ssml, false, false)
      {
        var text, width;
        text, width, inTag, inComment := StripStep(ssml[i..], inTag, inComment);
        ghost var done, tail := result, StripFrom(ssml[i + width..], inTag, inComment);
        assert ssml[i..][width..] == ssml[i + width..];
        assert done + (text + tail) == done + text + tail;
        result := result + text;
        i := i + width;
      }
      assert ssml[i..] == [];
      assert result + [] == result;
      result := Trim(result);
    }

    /** One round of StripSSML: the text it adds, the characters it passes, and the new flags. */
    static method StripStep(rest: string, inTag: bool, inComment: bool)
      returns (text: string, width: nat, inTag': bool, inComment': bool)
      requires rest != []
      ensures 1 <= width <= |rest|
      ensures StripFrom(rest, inTag, inComment) == text + StripFrom(rest[width..], inTag', inComment')
    {
      text, width, inTag', inComment' := [], 1, inTag, inComment;
      if inComment {
        if "-->" <= rest {
          inComment', width := false, 3;
        }
      } else if rest[0] == '<' {
        if "<!--" <= rest {
          inComment', width := true, 4;
        } else {
          inTag' := true;
        }
      } else if rest[0] == '>' {
        inTag' := false;
      } else if !inTag {
        var decoded;
        decoded, width := DecodeEntity(rest);
        text := [decoded];
      }
    }

    /** The character that `rest` starts with outside tags, and how many characters spell it. */
    static method DecodeEntity(rest: string) returns (decoded: char, width: nat)
      requires rest != [] && rest[0] != '<' && rest[0] != '>'
      ensures 1 <= width <= |rest|
      ensures StripFrom(rest, false, false) == [decoded] + StripFrom(rest[width..], false, false)
    {
      if "&lt;" <= rest {
        return '<', 4;
      } else if "&gt;" <= rest {
        return '>', 4;
      } else if "&amp;" <= rest {
        return '&', 5;
      } else if "&quot;" <= rest {
        return '"', 6;
      } else if "&apos;" <= rest {
        return '\'', 6;
      } else {
        return rest[0], 1;
      }
    }
  }

  lemma {:induction false} UpToNulIs(s: string, p: nat)
    requires p <= |s| && (forall i :: 0 <= i < p ==> s[i] != '\0') && (p == |s| || s[p] == '\0')
    ensures UpToNul(s) == s[..p]
  {
    if p > 0 {
      UpToNulIs(s[1..], p - 1);
      assert s[..p] == [s[0]] + s[1..][..p - 1];
    }
  }

  lemma EscapeNone(src: nat, start: nat)
    ensures Escape([]) == [] && EscapeMaps(src, [], start) == []
  {
  }

  lemma EscapeStep(src: nat, t: string, p: nat, start: nat)
    requires p < |t|
    ensures Escape(t[..p + 1]) == Escape(t[..p]) + EscapeChar(t[p])
    ensures EscapeMaps(src, t[..p + 1], start) ==
      EscapeMaps(src, t[..p], start) +
      (if IsEscaped(t[p]) then [Mapping(U32(src + p + 1), U32(start + |Escape(t[..p])| + |EscapeChar(t[p])|))] else [])
  {
    assert Front(t[..p + 1]) == t[..p] && Last(t[..p + 1]) == t[p];
  }

  lemma OneAttr(k: string, x: string)
    ensures AttrsText([(k, x)]) == " " + k + "='" + x + "'"
  {
    var attrs := [(k, x)];
    assert Front(attrs) == [];
    assert AttrsText(attrs) == [] + AttrText(k, x);
  }

  lemma TwoAttrs(k: string, x: string, k': string, x': string)
    ensures AttrsText([(k, x), (k', x')]) == " " + k + "='" + x + "'" + " " + k' + "='" + x' + "'"
  {
    var attrs := [(k, x), (k', x')];
    assert Front(attrs) == [(k, x)];
    OneAttr(k, x);
  }

  /** A start tag written as a literal up to its value, the value, and a literal for the rest. */
  lemma OneAttrTag(before: string, head: string, n: string, k: string, x: string)
    requires head == "<" + n + " " + k + "='"
    ensures before + head + x + "'>" == before + StartTagText(n, [(k, x)])
  {
    OneAttr(k, x);
  }

  lemma TwoAttrTag(before: string, head: string, mid: string, n: string, k: string, x: string, k': string, x': string)
    requires head == "<" + n + " " + k + "='" && mid == x + "'" + " " + k' + "='"
    ensures before + head + mid + x' + "'>" == before + StartTagText(n, [(k, x), (k', x')])
  {
    TwoAttrs(k, x, k', x');
  }

  lemma ContextText(before: string, val: string)
    ensures before + "<say-as interpret-as='" + val + "'>" == before + StartTagText("say-as", [("interpret-as", val)])
  {
    hide StartTagText;
    OneAttrTag(before, "<say-as interpret-as='", "say-as", "interpret-as", val);
  }

  lemma DateContextText(before: string, fmt: string)
    ensures before + "<say-as interpret-as='" + "date' format='" + fmt + "'>" ==
      before + StartTagText("say-as", [("interpret-as", "date"), ("format", fmt)])
  {
    hide StartTagText;
    TwoAttrTag(before, "<say-as interpret-as='", "date' format='", "say-as", "interpret-as", "date", "format", fmt);
  }

  lemma MoreAttrs(attrs: seq<(string, string)>, k: string, x: string)
    ensures AttrsText(attrs + [(k, x)]) == AttrsText(attrs) + AttrText(k, x)
  {
    assert Front(attrs + [(k, x)]) == attrs;
  }

  lemma PhonemeTagText(before: string, ph: string)
    ensures before + "<phoneme alphabet='sapi' ph='" + ph + "'>" ==
      before + StartTagText("phoneme", [("alphabet", "sapi"), ("ph", ph)])
  {
    hide StartTagText;
    assert before + "<phoneme alphabet='" + "sapi' ph='" + ph + "'>" ==
      before + "<phoneme alphabet='sapi' ph='" + ph + "'>";
    TwoAttrTag(before, "<phoneme alphabet='", "sapi' ph='", "phoneme", "alphabet", "sapi", "ph", ph);
  }

  lemma NoAttrs(head: string)
    ensures head == head + AttrsText([])
  {
  }

  lemma StripNothing()
    ensures StripFrom([], false, false) == [] && StripFrom([], true, false) == []
    ensures StripFrom([], false, true) == [] && StripFrom([], true, true) == []
  {
  }
}
