/** Stripping the document BuildSSML wrote gives back the spoken texts. */
module SsmlRoundTrip {
  import opened Strings
  import opened Ssml
  import opened SsmlFlags
  import opened SsmlStrip

  /** The blanks behind a raw tag. */
  function Blanks(text: string): string {
    if |TrimTag(text)| <= |text| then text[|TrimTag(text)|..] else []
  }

  /** A raw fragment: a tag without stray brackets, blanks may follow. */
  predicate PlainRaw(text: string) {
    var t := TrimTag(text);
    PlainTag(t) && |t| <= |text| && text[..|t|] == t && forall i :: |t| <= i < |text| ==> IsTrimChar(text[i])
  }

  predicate PlainFrag(v: Voice, f: Frag) {
    (IsSpeakable(f) ==> UpToNul(f.text) == f.text) &&
    (!v.isEdge ==>
      (f.state.category.Some? ==> Unbracketed(f.state.category.value)) &&
      (f.state.action.ParseUnknownTag? ==> PlainRaw(f.text)))
  }

  /** NUL-free spoken texts, raw fragments that are tags without stray brackets, attribute texts without brackets. */
  predicate Plain(v: Voice, frags: seq<Frag>) {
    Unbracketed(v.locale) && Unbracketed(v.onlineName) && forall i :: 0 <= i < |frags| ==> PlainFrag(v, frags[i])
  }

  /** Whether BuildSSML puts a space before the text of `f`. */
  predicate Spaced(v: Voice, f: Frag, c: Build) {
    IsSpeakable(f) && (v.isEdge || f.state.action.Speak?) && c.ssml != [] && NeedAddingSpace(v, c.ssml, f.text)
  }

  function Piece(f: Frag, spaced: bool): string {
    if IsSpeakable(f) then (if spaced then " " else []) + f.text else []
  }

  /** The spoken texts in order, with one space before those marked in `spaces`. */
  function Joined(frags: seq<Frag>, spaces: seq<bool>): string
    requires |spaces| == |frags|
  {
    if frags == [] then [] else Joined(Front(frags), Front(spaces)) + Piece(Last(frags), Last(spaces))
  }

  /** The blanks behind all of the client's tags. */
  function BlanksOf(custom: seq<TagText>): string {
    if custom == [] then [] else BlanksOf(Front(custom)) + Blanks(Last(custom))
  }

  /** What the content of `f` leaves when the document is stripped: its text, or the blanks behind a raw tag. */
  function Said(v: Voice, f: Frag, custom: seq<TagText>, spaced: bool): string {
    if !v.isEdge && f.state.action.ParseUnknownTag? then if RawIsDropped(custom, f.text) then [] else Blanks(f.text)
    else Piece(f, spaced)
  }

  /** The client's tags are written again before fragment `i`. */
  predicate Reopens(v: Voice, frags: seq<Frag>, i: nat)
    requires i < |frags|
  {
    !v.isEdge && (i == 0 || LevelAfter(v, frags, i - 1, 0) < 2)
  }

  /** Everything that is left up to fragment `i`. */
  function SaidTo(v: Voice, frags: seq<Frag>, i: nat): string
    requires i <= |frags|
  {
    if i == 0 then []
    else
      var f, custom := frags[i - 1], TagList(v, frags, i - 1);
      SaidTo(v, frags, i - 1) + (if Reopens(v, frags, i - 1) then BlanksOf(custom) else []) +
      Said(v, f, custom, Spaced(v, f, BeforeContent(v, f, BuildTo(v, frags, i - 1))))
  }

  predicate CustomPlain(custom: seq<TagText>) {
    forall i :: 0 <= i < |custom| ==> PlainRaw(custom[i])
  }

  ghost predicate SaysSo(b: Build, out: string) {
    StripsTo(b.ssml, out) && CustomPlain(b.custom)
  }

  lemma AddSilent(s: string, out: string, t: string)
    requires StripsTo(s, out) && StripsTo(t, [])
    ensures StripsTo(s + t, out)
  {
    hide StripsTo;
    StripsToConcat(s, out, t, []);
    assert out + [] == out;
  }

  // ----- raw tags and the client's list

  lemma {:induction false} BlanksStrip(w: string)
    requires forall i :: 0 <= i < |w| ==> IsTrimChar(w[i])
    ensures StripsTo(w, w)
  {
    hide StripsTo;
    if w == [] {
      StripsToNothing();
    } else {
      BlanksStrip(Front(w));
      PlainCharStrips(Last(w));
      StripsToConcat(Front(w), Front(w), [Last(w)], [Last(w)]);
      assert Front(w) + [Last(w)] == w;
    }
  }

  lemma RawStrips(text: string)
    requires PlainRaw(text)
    ensures StripsTo(text, Blanks(text))
  {
    hide StripsTo, TrimTag, PlainTag;
    var t, w := TrimTag(text), Blanks(text);
    TagStrips(t);
    BlanksStrip(w);
    StripsToConcat(t, [], w, w);
    assert t + w == text && [] + w == w;
  }

  /** The name a tag is looked up by has no bracket, or a '>' at its end. */
  lemma TagNameShape(t: TagText)
    requires PlainRaw(t)
    ensures var n := GetXMLTagName(t); Unbracketed(n) || (n != [] && Last(n) == '>' && Unbracketed(Front(n)))
  {
    var tag := TrimTag(t);
    RawChars(t, |tag|);
    hide TrimTag, PlainTag, Unbracketed, IsWSpace;
    NameShape(t, |tag|);
  }

  /** Where the brackets of a raw tag are. */
  lemma RawChars(t: string, k: nat)
    requires PlainRaw(t) && k == |TrimTag(t)|
    ensures 2 <= k <= |t| && t[k - 1] == '>'
    ensures forall i :: 1 <= i < |t| && i != k - 1 ==> t[i] != '<' && t[i] != '>'
    ensures forall i :: k <= i < |t| ==> IsTrimChar(t[i])
  {
    var tag := TrimTag(t);
    hide TrimTag;
    var u := tag[1..|tag| - 1];
    assert forall i :: 0 <= i < k ==> t[i] == tag[i];
    assert forall i :: 1 <= i < k - 1 ==> tag[i] == u[i - 1];
  }

  lemma StopsAtSpace(s: string, lo: nat, hi: nat, k: nat)
    requires lo <= k < hi <= |s| && IsWSpace(s[k])
    ensures SkipNonSpaces(s, lo, hi) <= k
  {
    hide SkipNonSpaces, IsWSpace;
  }

  lemma NameShape(t: string, k: nat)
    requires 2 <= k <= |t| && t[k - 1] == '>'
    requires forall i :: 1 <= i < |t| && i != k - 1 ==> t[i] != '<' && t[i] != '>'
    requires forall i :: k <= i < |t| ==> IsTrimChar(t[i])
    ensures var n := GetXMLTagName(t); Unbracketed(n) || (n != [] && Last(n) == '>' && Unbracketed(Front(n)))
  {
    hide SkipSpaces, SkipNonSpaces, IsTrimChar, IsWSpace, Unbracketed;
    var a := SkipSpaces(t, 1, |t| - 1);
    var e := SkipNonSpaces(t, a, |t| - 1);
    if a <= k - 1 < e {
      if k < |t| - 1 {
        TrimCharIsSpace(t[k]);
        StopsAtSpace(t, a, |t| - 1, k);
      }
      SliceUnbracketed(t, a, e - 1);
      assert t[a..e] == t[a..e - 1] + [t[e - 1]];
    } else {
      SliceUnbracketed(t, a, e);
    }
  }

  lemma TrimCharIsSpace(c: char)
    requires IsTrimChar(c)
    ensures IsWSpace(c)
  {
  }

  lemma SliceUnbracketed(s: string, lo: nat, hi: nat)
    requires lo <= hi <= |s| && forall i :: lo <= i < hi ==> s[i] != '<' && s[i] != '>'
    ensures Unbracketed(s[lo..hi])
  {
    var u := s[lo..hi];
    assert forall i :: 0 <= i < |u| ==> u[i] == s[lo + i];
  }

  lemma EndOfOpenStrips(t: TagText)
    requires PlainRaw(t)
    ensures StripsTo(EndTagText(GetXMLTagName(t)), [])
  {
    var n := GetXMLTagName(t);
    TagNameShape(t);
    hide StripsTo, GetXMLTagName, PlainRaw, Unbracketed, EndTagText;
    if Unbracketed(n) {
      EndTagStrips(n);
    } else {
      EndTagStrips(Front(n));
      BracketStrips();
      AddSilent(EndTagText(Front(n)), [], ">");
      BracketEnd(n);
    }
  }

  lemma BracketEnd(n: string)
    requires n != [] && Last(n) == '>'
    ensures EndTagText(n) == EndTagText(Front(n)) + ">"
  {
    assert n == Front(n) + [Last(n)];
  }

  lemma BracketStrips()
    ensures StripsTo(">", [])
  {
    forall rest: string
      ensures StripFrom(">" + rest, false, false) == [] + StripFrom(rest, false, false)
    {
      assert (">" + rest)[1..] == rest;
    }
  }

  lemma {:induction false} OpenAllSays(custom: seq<TagText>)
    requires CustomPlain(custom)
    ensures StripsTo(OpenAll(custom), BlanksOf(custom))
  {
    hide StripsTo, PlainRaw, Blanks;
    if custom == [] {
      StripsToNothing();
    } else {
      OpenAllSays(Front(custom));
      RawStrips(Last(custom));
      StripsToConcat(OpenAll(Front(custom)), BlanksOf(Front(custom)), Last(custom), Blanks(Last(custom)));
    }
  }

  lemma {:induction false} CloseAllSilent(custom: seq<TagText>)
    requires CustomPlain(custom)
    ensures StripsTo(CloseAll(custom), [])
  {
    hide StripsTo, PlainRaw, GetXMLTagName, EndTagText;
    if custom == [] {
      StripsToNothing();
    } else {
      CloseAllSilent(Front(custom));
      EndOfOpenStrips(Last(custom));
      AddSilent(EndTagText(GetXMLTagName(Last(custom))), [], CloseAll(Front(custom)));
    }
  }

  lemma ProsodySilent(v: Voice, s: State)
    ensures StripsTo(ProsodyTag(v, s), [])
  {
    hide StripsTo, VolumeOf, RateOf, PitchOf, RatePercent, ToWString, StartTagText;
    NumberUnbracketed(VolumeOf(v, s) - 100, "%");
    NumberUnbracketed(RatePercent(RateOf(v, s)), "%");
    NumberUnbracketed(PitchOf(s) * 5, "%");
    StartTagStrips("prosody", ProsodyAttrs(v, s));
  }

  lemma ContextSilent(cat: string)
    requires Unbracketed(cat)
    ensures StripsTo(ContextTag(cat), [])
  {
    hide StripsTo, StartTagText, EqualsIgnoreCase;
    assert |cat| > 5 ==> Unbracketed(cat[5..]);
    assert AttrsUnbracketed(ContextAttrs(cat));
    StartTagStrips("say-as", ContextAttrs(cat));
  }

  lemma CategoryPlain(v: Voice, f: Frag)
    requires PlainFrag(v, f) && !v.isEdge && f.state.category.Some?
    ensures Unbracketed(f.state.category.value)
  {
  }

  /** Opening leaves the blanks behind the client's tags where these are written again, and nothing else. */
  lemma OpenTagsSay(v: Voice, f: Frag, b: Build, out: string)
    requires PlainFrag(v, f) && SaysSo(b, out)
    ensures SaysSo(BeforeContent(v, f, b), out + if b.inCustom then [] else BlanksOf(b.custom))
  {
    hide StripsTo, ProsodyTag, ContextTag, StartTagText, NeedsProsody, PlainFrag, CustomPlain, OpenAll, BlanksOf,
      IsSpeakable;
    ProsodySilent(v, f.state);
    EmphasisSilent();
    var b0 := NoteText(f, b);
    var b1 := OpenProsody(v, f, b0);
    AddSilent(b0.ssml, out, ProsodyTag(v, f.state));
    assert SaysSo(b1, out);
    var b2 := OpenEmphasis(v, f, b1);
    AddSilent(b1.ssml, out, StartTagText("emphasis", []));
    assert SaysSo(b2, out);
    var b3, out' := ReopenCustom(b2), out + if b.inCustom then [] else BlanksOf(b.custom);
    OpenAllSays(b2.custom);
    StripsToConcat(b2.ssml, out, OpenAll(b2.custom), BlanksOf(b2.custom));
    assert out + [] == out;
    assert SaysSo(b3, out');
    if OpenSayAs(v, f, b3) != b3 {
      CategoryPlain(v, f);
      ContextSilent(f.state.category.value);
      AddSilent(b3.ssml, out', ContextTag(f.state.category.value));
    }
  }

  lemma EmphasisSilent()
    ensures StripsTo(StartTagText("emphasis", []), [])
  {
    hide StripsTo;
    StartTagStrips("emphasis", []);
  }

  lemma CloseTagsSilent(level: nat, b: Build, out: string)
    requires SaysSo(b, out)
    ensures SaysSo(CloseTags(level, b), out)
  {
    hide StripsTo, EndTagText, CustomPlain, CloseAll;
    var b1 := CloseSayAs(level, b);
    EndTagStrips("say-as");
    AddSilent(b.ssml, out, EndTagText("say-as"));
    assert SaysSo(b1, out);
    var b2 := CloseCustom(level, b1);
    CloseAllSilent(b1.custom);
    AddSilent(b1.ssml, out, CloseAll(b1.custom));
    assert SaysSo(b2, out);
    var b3 := CloseEmphasis(level, b2);
    EndTagStrips("emphasis");
    AddSilent(b2.ssml, out, EndTagText("emphasis"));
    assert SaysSo(b3, out);
    EndTagStrips("prosody");
    AddSilent(b3.ssml, out, EndTagText("prosody"));
  }

  // ----- content

  lemma SpokenSays(v: Voice, f: Frag, b: Build, out: string)
    requires SaysSo(b, out) && UpToNul(f.text) == f.text
    ensures SaysSo(EmitSpoken(v, f, b),
      out + (if b.ssml != [] && NeedAddingSpace(v, b.ssml, f.text) then " " else []) + f.text)
  {
    hide StripsTo, Escape, CustomPlain, NeedAddingSpace, EscapeMaps;
    var spaced := b.ssml != [] && NeedAddingSpace(v, b.ssml, f.text);
    var c := if spaced then Emit(b, " ") else b;
    if spaced {
      PlainCharStrips(' ');
      StripsToConcat(b.ssml, out, " ", " ");
    } else {
      assert out + [] == out;
    }
    EscapedStrips(f.text);
    StripsToConcat(c.ssml, out + (if spaced then " " else []), Escape(f.text), f.text);
  }

  lemma WrappedSays(b: Build, f: Frag, out: string, open: string, close: string)
    requires SaysSo(b, out) && UpToNul(f.text) == f.text && StripsTo(open, []) && StripsTo(close, [])
    ensures SaysSo(Emit(EmitMapped(Emit(b, open), f), close), out + f.text)
  {
    hide StripsTo, Escape, CustomPlain, EscapeMaps;
    AddSilent(b.ssml, out, open);
    EscapedStrips(f.text);
    StripsToConcat(b.ssml + open, out, Escape(f.text), f.text);
    AddSilent(b.ssml + open + Escape(f.text), out + f.text, close);
  }

  lemma BookmarkSays(b: Build, f: Frag, out: string)
    requires SaysSo(b, out)
    ensures SaysSo(Emit(EmitText(Emit(b, "<bookmark mark='"), f), "'/>"), out)
  {
    hide StripsTo, Escape, CustomPlain, EscapeMaps;
    var e := Escape(UpToNul(f.text));
    var open := "<bookmark mark='";
    EscapeUnbracketed(UpToNul(f.text));
    var t := open + e + "'/>";
    assert t[1..|t| - 1] == open[1..] + e + "'/";
    assert t[1] == open[1];
    TagStrips(t);
    AddSilent(b.ssml, out, t);
    assert b.ssml + open + e + "'/>" == b.ssml + t;
  }

  /** A raw tag leaves the blanks behind it, unless it is dropped. */
  lemma RawSays(text: string, b: Build, out: string)
    requires SaysSo(b, out) && PlainRaw(text)
    ensures SaysSo(RawTag(text, b), out + if RawIsDropped(b.custom, text) then [] else Blanks(text))
  {
    hide StripsTo, PlainRaw, TrimTag, IsXMLClosingTag, IsXMLSelfClosingTag, GetXMLClosingTagName, CloseAll, Blanks,
      FindOpen;
    var tag := TrimTag(text);
    RawStrips(text);
    assert out + [] == out;
    if !IsXMLSelfClosingTag(tag) && IsXMLClosingTag(tag) {
      var k := FindOpen(b.custom, GetXMLClosingTagName(tag));
      if k >= 0 {
        RawCloseSays(text, b, out, k);
      }
    } else {
      RawOpenSays(text, b, out);
    }
  }

  lemma RawOpenSays(text: string, b: Build, out: string)
    requires SaysSo(b, out) && PlainRaw(text)
    ensures SaysSo(Emit(b, text), out + Blanks(text))
    ensures |text| >= 3 ==> SaysSo(Emit(b, text).(custom := b.custom + [text]), out + Blanks(text))
  {
    hide StripsTo, PlainRaw, Blanks;
    RawStrips(text);
    StripsToConcat(b.ssml, out, text, Blanks(text));
  }

  lemma RawCloseSays(text: string, b: Build, out: string, k: nat)
    requires SaysSo(b, out) && PlainRaw(text) && k < |b.custom|
    ensures StripsTo(b.ssml + CloseAll(b.custom[k + 1..]) + text, out + Blanks(text)) && CustomPlain(b.custom[..k])
  {
    hide StripsTo, PlainRaw, CloseAll, Blanks;
    var inner := b.custom[k + 1..];
    CloseAllSilent(inner);
    AddSilent(b.ssml, out, CloseAll(inner));
    RawStrips(text);
    StripsToConcat(b.ssml + CloseAll(inner), out, text, Blanks(text));
  }

  lemma SpeakSays(v: Voice, f: Frag, b: Build, out: string)
    requires !v.isEdge && PlainFrag(v, f) && SaysSo(b, out) && f.state.action.Speak?
    ensures SaysSo(FullContent(v, f, b), out + Piece(f, Spaced(v, f, b)))
  {
    hide SaysSo, EmitSpoken, NeedAddingSpace, Unbracketed, PlainRaw, UpToNul;
    SpokenSays(v, f, b, out);
    assert FullContent(v, f, b) == EmitSpoken(v, f, b);
    hide FullContent;
    assert out + Piece(f, Spaced(v, f, b)) ==
      out + (if b.ssml != [] && NeedAddingSpace(v, b.ssml, f.text) then " " else []) + f.text;
  }

  lemma WrappedPiece(v: Voice, f: Frag, b: Build)
    requires !v.isEdge && (f.state.action.SpellOut? || f.state.action.Pronounce?)
    ensures Piece(f, Spaced(v, f, b)) == f.text
  {
    hide NeedAddingSpace;
    assert [] + f.text == f.text;
  }

  lemma SpellOutSays(v: Voice, f: Frag, b: Build, out: string)
    requires !v.isEdge && PlainFrag(v, f) && SaysSo(b, out) && f.state.action.SpellOut?
    ensures SaysSo(FullContent(v, f, b), out + Piece(f, Spaced(v, f, b)))
  {
    hide SaysSo, StripsTo, EmitMapped, EndTagText, CharactersTag, Unbracketed, PlainRaw, UpToNul, Piece, Spaced;
    CharactersSilent();
    EndSilent("say-as");
    WrappedPiece(v, f, b);
    WrappedSays(b, f, out, CharactersTag(), EndTagText("say-as"));
  }

  lemma PronounceSays(v: Voice, f: Frag, b: Build, out: string)
    requires !v.isEdge && PlainFrag(v, f) && SaysSo(b, out) && f.state.action.Pronounce?
    ensures SaysSo(FullContent(v, f, b), out + Piece(f, Spaced(v, f, b)))
  {
    hide SaysSo, StripsTo, EmitMapped, EndTagText, PhonemeTag, Unbracketed, PlainRaw, UpToNul, Piece, Spaced;
    PhonemeSilent(v, f.state);
    EndSilent("phoneme");
    WrappedPiece(v, f, b);
    WrappedSays(b, f, out, PhonemeTag(v, f.state), EndTagText("phoneme"));
  }

  lemma SpeakableSays(v: Voice, f: Frag, b: Build, out: string)
    requires !v.isEdge && PlainFrag(v, f) && SaysSo(b, out) && IsSpeakable(f)
    ensures SaysSo(FullContent(v, f, b), out + Piece(f, Spaced(v, f, b)))
  {
    hide SaysSo, FullContent, Piece, Spaced, PlainFrag;
    if f.state.action.Speak? {
      SpeakSays(v, f, b, out);
    } else if f.state.action.SpellOut? {
      SpellOutSays(v, f, b, out);
    } else {
      PronounceSays(v, f, b, out);
    }
  }

  lemma EndSilent(name: string)
    requires forall i :: 0 <= i < |name| ==> 'a' <= name[i] <= 'z' || name[i] == '-'
    ensures StripsTo(EndTagText(name), [])
  {
    hide StripsTo;
    EndTagStrips(name);
  }

  lemma FullContentSays(v: Voice, f: Frag, b: Build, out: string)
    requires !v.isEdge && PlainFrag(v, f) && SaysSo(b, out)
    ensures SaysSo(FullContent(v, f, b), out + Said(v, f, b.custom, Spaced(v, f, b)))
  {
    hide SaysSo, StripsTo, EmitSpoken, EmitMapped, EmitText, RawTag, NeedAddingSpace, EndTagText, Emit, CharactersTag,
      PhonemeTag, BreakTag, Unbracketed, PlainRaw, RawIsDropped, Blanks, Spaced;
    assert out + [] == out;
    if IsSpeakable(f) {
      SpeakableSays(v, f, b, out);
    } else if f.state.action.Silence? {
      SilenceSays(f, b, out);
    } else if f.state.action.Bookmark? {
      BookmarkSays(b, f, out);
      SameText(Emit(EmitText(Emit(b, "<bookmark mark='"), f), "'/>"), FullContent(v, f, b), out);
    } else if f.state.action.ParseUnknownTag? {
      RawSays(f.text, b, out);
    }
  }

  lemma CharactersSilent()
    ensures StripsTo(CharactersTag(), [])
  {
    hide StripsTo;
    StartTagStrips("say-as", [("interpret-as", "characters")]);
  }

  lemma SameText(b: Build, c: Build, out: string)
    requires SaysSo(b, out) && c.ssml == b.ssml && c.custom == b.custom
    ensures SaysSo(c, out)
  {
  }

  lemma SilenceSays(f: Frag, b: Build, out: string)
    requires SaysSo(b, out)
    ensures SaysSo(Emit(b, BreakTag(f.state)), out)
  {
    hide StripsTo, CustomPlain;
    NumberUnbracketed(f.state.silenceMSecs, "ms");
    EmptyTagStrips("break", [("time", ToWString(f.state.silenceMSecs) + "ms")]);
    AddSilent(b.ssml, out, BreakTag(f.state));
  }

  lemma PhonemeSilent(v: Voice, s: State)
    ensures StripsTo(PhonemeTag(v, s), [])
  {
    hide StripsTo;
    assert Unbracketed(PhonemeText(v, s)) by {
      match v.idToPhone(s.phoneIds)
      case None =>
      case Some(ph) => EscapeUnbracketed(UpToNul(ph));
    }
    StartTagStrips("phoneme", [("alphabet", "sapi"), ("ph", PhonemeText(v, s))]);
  }

  lemma EdgeContentSays(v: Voice, f: Frag, b: Build, out: string)
    requires v.isEdge && PlainFrag(v, f) && SaysSo(b, out)
    ensures SaysSo(EdgeContent(v, f, b), out + Said(v, f, b.custom, Spaced(v, f, b)))
  {
    hide SaysSo, EmitSpoken, NeedAddingSpace, PlainRaw, RawIsDropped, Blanks, Unbracketed, UpToNul;
    var out' := out + Piece(f, Spaced(v, f, b));
    assert Said(v, f, b.custom, Spaced(v, f, b)) == Piece(f, Spaced(v, f, b));
    if IsSpeakable(f) {
      SpokenSays(v, f, b, out);
      assert out' == out + (if b.ssml != [] && NeedAddingSpace(v, b.ssml, f.text) then " " else []) + f.text;
      SameText(EmitSpoken(v, f, b), EdgeContent(v, f, b), out');
    } else {
      assert out' == out;
      SameText(b, EdgeContent(v, f, b), out);
    }
  }

  lemma StepSays(v: Voice, frags: seq<Frag>, i: nat, b: Build, out: string)
    requires i < |frags| && Plain(v, frags) && SaysSo(b, out)
    ensures var f := frags[i];
      SaysSo(Step(v, frags, i, b),
        out + (if b.inCustom then [] else BlanksOf(b.custom)) +
        Said(v, f, b.custom, Spaced(v, f, BeforeContent(v, f, b))))
  {
    hide SaysSo, BeforeContent, EdgeContent, FullContent, CloseTags, LevelAfter, Spaced, Said, PlainFrag, BlanksOf;
    var f := frags[i];
    var c, d := BeforeContent(v, f, b), AfterContent(v, f, b);
    var out' := out + if b.inCustom then [] else BlanksOf(b.custom);
    OpenTagsSay(v, f, b, out);
    OpenFlags(v, f, b);
    assert c.custom == b.custom;
    if v.isEdge {
      EdgeContentSays(v, f, c, out');
    } else {
      FullContentSays(v, f, c, out');
    }
    CloseTagsSilent(LevelAfter(v, frags, i, d.prosodyCount), d, out' + Said(v, f, b.custom, Spaced(v, f, c)));
  }

  /** Before fragment `i` the client's tags are closed exactly where they are reopened. */
  lemma ReopensIs(v: Voice, frags: seq<Frag>, i: nat)
    requires i < |frags|
    ensures var b := BuildTo(v, frags, i); v.isEdge ==> b.custom == []
    ensures var b := BuildTo(v, frags, i); !v.isEdge ==> (Reopens(v, frags, i) <==> !b.inCustom)
  {
    hide BeforeContent, EmitContent, CloseTags, AfterRaw, SpeakTag, VoiceTag, SameProsody, SameCategory;
    if v.isEdge {
      TagListIs(v, frags, i);
      EdgeListIsEmpty(v, frags, i);
    } else if i > 0 {
      var f, b := frags[i - 1], BuildTo(v, frags, i - 1);
      OpenFlags(v, f, b);
      ContentKeepsFlags(v, f, BeforeContent(v, f, b));
      var c := AfterContent(v, f, b);
      CloseFlags(LevelAfter(v, frags, i - 1, c.prosodyCount), c);
    }
  }

  lemma {:induction false} EdgeListIsEmpty(v: Voice, frags: seq<Frag>, i: nat)
    requires i <= |frags| && v.isEdge
    ensures TagList(v, frags, i) == []
  {
    if i > 0 {
      EdgeListIsEmpty(v, frags, i - 1);
    }
  }

  /** Which fragments BuildSSML spaces, up to fragment `i`. */
  function SpacesTo(v: Voice, frags: seq<Frag>, i: nat): (spaces: seq<bool>)
    requires i <= |frags|
    ensures |spaces| == i
  {
    if i == 0 then [] else
      SpacesTo(v, frags, i - 1) + [Spaced(v, frags[i - 1], BeforeContent(v, frags[i - 1], BuildTo(v, frags, i - 1)))]
  }

  lemma StartSays(v: Voice)
    requires Unbracketed(v.locale) && Unbracketed(v.onlineName)
    ensures SaysSo(Start(v), [])
  {
    hide StripsTo, StartTagText;
    SpeakAttrsPlain(v);
    StartTagStrips("speak",
      [("version", "1.0"), ("xmlns", SYNTHESIS_NS), ("xmlns:mstts", MSTTS_NS), ("xml:lang", v.locale)]);
    if v.onlineName != [] {
      StartTagStrips("voice", [("name", v.onlineName)]);
      AddSilent(SpeakTag(v), [], VoiceTag(v));
    } else {
      assert SpeakTag(v) + [] == SpeakTag(v);
    }
  }

  lemma SpeakAttrsPlain(v: Voice)
    requires Unbracketed(v.locale)
    ensures AttrsUnbracketed(
      [("version", "1.0"), ("xmlns", SYNTHESIS_NS), ("xmlns:mstts", MSTTS_NS), ("xml:lang", v.locale)])
  {
    hide Unbracketed;
    PlainWord("version");
    PlainWord("1.0");
    PlainWord("xmlns");
    PlainWord("xmlns:mstts");
    PlainWord("xml:lang");
    SynthesisNamespacePlain();
    MsttsNamespacePlain();
  }

  lemma PlainWord(s: string)
    requires forall i :: 0 <= i < |s| ==> 'a' <= s[i] <= 'z' || '.' <= s[i] <= ':'
    ensures Unbracketed(s)
  {
  }

  lemma SynthesisNamespacePlain()
    ensures Unbracketed(SYNTHESIS_NS)
  {
  }

  lemma MsttsNamespacePlain()
    ensures Unbracketed(MSTTS_NS)
  {
  }

  lemma {:induction false} BuildSays(v: Voice, frags: seq<Frag>, i: nat)
    requires i <= |frags| && Plain(v, frags)
    ensures SaysSo(BuildTo(v, frags, i), SaidTo(v, frags, i))
  {
    hide SaysSo, Step, Start, Spaced, Said, Plain, BeforeContent, Reopens, BlanksOf, TagList;
    if i == 0 {
      PlainVoice(v, frags);
      StartSays(v);
    } else {
      BuildSays(v, frags, i - 1);
      ReopensIs(v, frags, i - 1);
      TagListIs(v, frags, i - 1);
      NoBlanks();
      EdgeReopens(v, frags, i - 1);
      StepSays(v, frags, i - 1, BuildTo(v, frags, i - 1), SaidTo(v, frags, i - 1));
    }
  }

  lemma NoBlanks()
    ensures BlanksOf([]) == []
  {
  }

  lemma EdgeReopens(v: Voice, frags: seq<Frag>, i: nat)
    requires i < |frags|
    ensures v.isEdge ==> !Reopens(v, frags, i)
  {
    hide LevelAfter;
  }

  lemma PlainVoice(v: Voice, frags: seq<Frag>)
    requires Plain(v, frags)
    ensures Unbracketed(v.locale) && Unbracketed(v.onlineName)
  {
  }

  lemma FinishSays(v: Voice, b: Build, out: string)
    requires SaysSo(b, out)
    ensures SaysSo(Finish(v, b), out)
  {
    hide StripsTo, CustomPlain, EndTagText;
    EndTagStrips("voice");
    EndTagStrips("speak");
    StripsToNothing();
    var t := if v.onlineName != [] then EndTagText("voice") else [];
    AddSilent(b.ssml, out, t);
    AddSilent(b.ssml + t, out, EndTagText("speak"));
  }

  /**
   Stripping the document gives the texts of the spoken fragments in order, with at most one space inserted before each,
   and the blanks that stand behind raw tags, trimmed: escaping and markup leave no trace.
   */
  lemma StripOfCompile(v: Voice, frags: seq<Frag>)
    requires Plain(v, frags)
    ensures Strip(Compile(v, frags).ssml) == Trim(SaidTo(v, frags, |frags|))
  {
    hide BuildTo, Finish, StripFrom, SaidTo, Trim, Plain;
    var n := |frags|;
    BuildSays(v, frags, n);
    var doc, out := Compile(v, frags).ssml, SaidTo(v, frags, n);
    FinishSays(v, BuildTo(v, frags, n), out);
    StripsToEnd(doc, out);
  }

  /** No blanks behind raw tags. */
  predicate Tidy(frags: seq<Frag>) {
    forall i :: 0 <= i < |frags| && frags[i].state.action.ParseUnknownTag? ==> Blanks(frags[i].text) == []
  }

  lemma {:induction false} TidyList(v: Voice, frags: seq<Frag>, i: nat)
    requires i <= |frags| && Tidy(frags)
    ensures BlanksOf(TagList(v, frags, i)) == []
  {
    hide Blanks;
    if i > 0 {
      TidyList(v, frags, i - 1);
      if !v.isEdge && frags[i - 1].state.action.ParseUnknownTag? {
        TidyStep(TagList(v, frags, i - 1), frags[i - 1].text);
      }
    }
  }

  lemma TidyStep(custom: seq<TagText>, text: string)
    requires BlanksOf(custom) == [] && Blanks(text) == []
    ensures BlanksOf(AfterRaw(custom, text)) == []
  {
    hide TrimTag, IsXMLClosingTag, IsXMLSelfClosingTag, GetXMLClosingTagName, FindOpen, Blanks;
    var tag := TrimTag(text);
    if !IsXMLSelfClosingTag(tag) {
      if IsXMLClosingTag(tag) {
        var k := FindOpen(custom, GetXMLClosingTagName(tag));
        if k >= 0 {
          BlanksPrefix(custom, k);
        }
      } else if |text| >= 3 {
        assert Front(custom + [text]) == custom && Last(custom + [text]) == text;
      }
    }
  }

  lemma {:induction false} BlanksPrefix(custom: seq<TagText>, k: nat)
    requires k <= |custom| && BlanksOf(custom) == []
    ensures BlanksOf(custom[..k]) == []
    decreases |custom|
  {
    hide Blanks;
    if k == |custom| {
      assert custom[..k] == custom;
    } else {
      BlanksPrefix(Front(custom), k);
      assert Front(custom)[..k] == custom[..k];
    }
  }

  lemma TidyAt(frags: seq<Frag>, i: nat)
    requires i < |frags| && Tidy(frags)
    ensures frags[i].state.action.ParseUnknownTag? ==> Blanks(frags[i].text) == []
  {
  }

  lemma TidySaid(v: Voice, f: Frag, custom: seq<TagText>, spaced: bool)
    requires f.state.action.ParseUnknownTag? ==> Blanks(f.text) == []
    ensures Said(v, f, custom, spaced) == Piece(f, spaced)
  {
    hide RawIsDropped, Blanks;
  }

  lemma JoinedStep(frags: seq<Frag>, i: nat, spaces: seq<bool>, spaced: bool)
    requires i < |frags| && |spaces| == i
    ensures Joined(frags[..i + 1], spaces + [spaced]) == Joined(frags[..i], spaces) + Piece(frags[i], spaced)
  {
    hide Piece;
    assert Front(frags[..i + 1]) == frags[..i] && Last(frags[..i + 1]) == frags[i];
    assert Front(spaces + [spaced]) == spaces;
  }

  lemma TidyStepSays(v: Voice, frags: seq<Frag>, i: nat)
    requires i < |frags| && Tidy(frags)
    ensures SaidTo(v, frags, i + 1) ==
      SaidTo(v, frags, i) + Piece(frags[i], Spaced(v, frags[i], BeforeContent(v, frags[i], BuildTo(v, frags, i))))
  {
    hide BuildTo, BeforeContent, Spaced, BlanksOf, TagList, Reopens, Said, Piece, Tidy;
    var f, said := frags[i], SaidTo(v, frags, i);
    TidyAt(frags, i);
    TidySaid(v, f, TagList(v, frags, i), Spaced(v, f, BeforeContent(v, f, BuildTo(v, frags, i))));
    TidyList(v, frags, i);
    assert said + [] == said;
  }

  lemma {:induction false} TidySays(v: Voice, frags: seq<Frag>, i: nat)
    requires i <= |frags| && Tidy(frags)
    ensures SaidTo(v, frags, i) == Joined(frags[..i], SpacesTo(v, frags, i))
  {
    hide BuildTo, BeforeContent, Spaced, BlanksOf, TagList, Reopens, Said, Piece, Tidy;
    if i > 0 {
      hide SaidTo, Joined;
      var f, b := frags[i - 1], BuildTo(v, frags, i - 1);
      TidySays(v, frags, i - 1);
      TidyStepSays(v, frags, i - 1);
      JoinedStep(frags, i - 1, SpacesTo(v, frags, i - 1), Spaced(v, f, BeforeContent(v, f, b)));
    }
  }

  /** Where raw tags have no blanks behind them, the result is the spoken texts alone. */
  lemma StripOfTidyCompile(v: Voice, frags: seq<Frag>)
    requires Plain(v, frags) && Tidy(frags)
    ensures Strip(Compile(v, frags).ssml) == Trim(Joined(frags, SpacesTo(v, frags, |frags|)))
  {
    hide Compile, Strip, SaidTo, Joined, SpacesTo, Trim, Plain, Tidy;
    StripOfCompile(v, frags);
    TidySays(v, frags, |frags|);
    assert frags[..|frags|] == frags;
  }

  lemma StripsToEnd(doc: string, out: string)
    requires StripsTo(doc, out)
    ensures StripFrom(doc, false, false) == out
  {
    assert doc + [] == doc;
    assert StripFrom(doc + [], false, false) == out + StripFrom([], false, false);
    assert out + [] == out;
  }
}
