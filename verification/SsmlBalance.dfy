/**
 Each phase of a fragment, opening, content and closing, keeps the flags and the document in agreement; what each
 fragment leaves open is what the next one may build on.
 */
module SsmlBalance {
  import opened Strings
  import opened XmlNesting
  import opened TagValues
  import opened Ssml
  import opened TagHelpers
  import opened MarkupTags
  import opened SsmlFlags
  import opened SsmlNesting

  /** What is open when fragment `f` begins: nothing that `f` would have to open something outside of. */
  predicate HeadOk(v: Voice, f: Frag, b: Build) {
    !v.isEdge ==>
      ((b.emphasis || b.inCustom) && NeedsProsody(v, f.state) ==> b.prosody) &&
      (b.inCustom && f.state.emphAdj != 0 ==> b.emphasis) &&
      (b.sayAs ==> b.inCustom && f.state.action.Speak?)
  }

  predicate NothingOpen(b: Build) {
    !b.prosody && !b.emphasis && !b.inCustom && !b.sayAs
  }

  /** The elements open outside the custom tags. */
  function Below(v: Voice, b: Build, w: Known): (open: seq<Element>)
    ensures open != [] && !TopIsSayAs(open)
  {
    Base(v) + (if b.prosody then [Element("prosody", w.prosody)] else []) +
    (if b.emphasis then [Element("emphasis", StartTagText("emphasis", []))] else [])
  }

  lemma StackIs(v: Voice, b: Build, w: Known)
    ensures Stack(v, b, w) != []
    ensures !b.sayAs ==> Stack(v, b, w) == Below(v, b, w) + if b.inCustom then Elements(b.custom) else []
  {
    hide Elements, Base, StartTagText;
  }

  lemma NoTags()
    ensures Elements([]) == []
  {
  }

  /** The innermost element is a say-as element exactly when the innermost of the client's tags is one. */
  lemma TopOfStack(v: Voice, b: Build, w: Known)
    requires b.inCustom && !b.sayAs
    ensures TopIsSayAs(Stack(v, b, w)) <==> LastIsSayAs(b.custom)
  {
    hide TopIsSayAs, LastIsSayAs, Elements, Stack, Below;
    StackIs(v, b, w);
    TopOf(Below(v, b, w), b.custom);
  }

  // ----- opening

  function WithProsody(v: Voice, f: Frag, b: Build, w: Known): Known {
    if OpensProsody(v, f, b) then w.(prosody := ProsodyTag(v, f.state)) else w
  }

  function WithSayAs(v: Voice, f: Frag, b: Build, w: Known): Known {
    if OpensSayAs(v, f, b)
    then w.(sayAs := ContextTag(f.state.category.value),
            seen := w.seen.(child := w.seen.child || LastIsSayAs(b.custom)))
    else w
  }

  lemma OpenProsodyAgrees(v: Voice, f: Frag, b: Build, w: Known)
    requires Agrees(v, b, w) && HeadOk(v, f, b)
    ensures var b' := OpenProsody(v, f, b);
      Agrees(v, b', WithProsody(v, f, b, w)) && HeadOk(v, f, b') &&
        (!v.isEdge && NeedsProsody(v, f.state) ==> b'.prosody)
  {
    hide Read, ProsodyTag, CustomOk, HasInner, LastIsSayAs, NeedsProsody, IsSpeakable, Elements, Base, TopIsSayAs,
      ReadsTo;
    if OpensProsody(v, f, b) {
      var tag := ProsodyTag(v, f.state);
      NoTags();
      ProsodyTagOf(v, f.state);
      assert Stack(v, b, w) == Base(v);
      AppendStart(b.ssml, tag, Base(v), w.seen);
      var b', w' := OpenProsody(v, f, b), WithProsody(v, f, b, w);
      assert Stack(v, b', w') == Base(v) + [Element("prosody", tag)];
      StillReads(b'.ssml, Stack(v, b', w'), w.seen);
    }
  }

  lemma StillReads(ssml: string, open: seq<Element>, seen: Seen)
    requires ReadsTo(ssml, open, seen)
    ensures Read(START, ssml).Reading?
  {
  }

  lemma OpenEmphasisAgrees(v: Voice, f: Frag, b: Build, w: Known)
    requires Agrees(v, b, w) && HeadOk(v, f, b)
    requires !v.isEdge && NeedsProsody(v, f.state) ==> b.prosody
    ensures var b' := OpenEmphasis(v, f, b);
      Agrees(v, b', w) && HeadOk(v, f, b') && (!v.isEdge && f.state.emphAdj != 0 ==> b'.emphasis)
  {
    hide Read, CustomOk, HasInner, LastIsSayAs, NeedsProsody, Elements, Base, TopIsSayAs, ReadsTo, StartTagText,
      EdgeAgrees;
    if OpensEmphasis(v, f, b) {
      var tag := StartTagText("emphasis", []);
      StartTagOf("emphasis", []);
      AppendStart(b.ssml, tag, Stack(v, b, w), w.seen);
      NotInsideSayAs(v, b, w);
      assert Stack(v, OpenEmphasis(v, f, b), w) == Stack(v, b, w) + [Element("emphasis", tag)];
    }
  }

  lemma NotInsideSayAs(v: Voice, b: Build, w: Known)
    requires !b.inCustom && !b.sayAs
    ensures !TopIsSayAs(Stack(v, b, w))
  {
    hide TopIsSayAs, Stack, Below;
    StackIs(v, b, w);
    assert Below(v, b, w) + [] == Below(v, b, w);
  }

  lemma ReopenCustomAgrees(v: Voice, f: Frag, b: Build, w: Known)
    requires Agrees(v, b, w) && HeadOk(v, f, b)
    ensures Agrees(v, ReopenCustom(b), w)
    ensures ReopenCustom(b).sayAs ==> f.state.action.Speak?
  {
    hide Read, ReadsTo, Elements, CustomOk, OpenAll, TopIsSayAs, NeedsProsody, HasInner, LastIsSayAs, Stack;
    if !b.inCustom {
      NotInsideSayAs(v, b, w);
      StackIs(v, b, w);
      OpenAllAppended(b.ssml, b.custom, Stack(v, b, w), w.seen);
      StackReopened(v, b, w);
      if v.isEdge {
        OpenNothing(b.ssml);
      }
    }
  }

  lemma StackReopened(v: Voice, b: Build, w: Known)
    requires !b.inCustom && !b.sayAs
    ensures Stack(v, ReopenCustom(b), w) == Stack(v, b, w) + Elements(b.custom)
  {
    hide Elements, Base, OpenAll, StartTagText;
  }

  lemma OpenNothing(ssml: string)
    ensures ssml + OpenAll([]) == ssml
  {
  }

  /** The category, if a say-as element is opened for it, can be quoted. */
  predicate CategoryReads(v: Voice, f: Frag, b: Build) {
    OpensSayAs(v, f, b) ==> Quotable(CategoryValue(f.state.category.value))
  }

  lemma OpenSayAsAgrees(v: Voice, f: Frag, b: Build, w: Known)
    requires Agrees(v, b, w) && b.inCustom
    requires CategoryReads(v, f, b)
    requires b.sayAs ==> f.state.action.Speak?
    ensures Agrees(v, OpenSayAs(v, f, b), WithSayAs(v, f, b, w))
    ensures OpenSayAs(v, f, b).sayAs ==> f.state.action.Speak?
  {
    hide Read, ReadsTo, Elements, CustomOk, TopIsSayAs, HasInner, LastIsSayAs, ContextTag, Quotable, CategoryValue,
      Base, EdgeAgrees;
    if OpensSayAs(v, f, b) {
      var tag := ContextTag(f.state.category.value);
      var b', w' := OpenSayAs(v, f, b), WithSayAs(v, f, b, w);
      ContextTagOf(f.state.category.value);
      TopOfStack(v, b, w);
      StackIs(v, b, w);
      AppendStart(b.ssml, tag, Stack(v, b, w), w.seen);
      assert Stack(v, b', w') == Stack(v, b, w) + [Element("say-as", tag)];
    }
  }

  /** After the opening phase everything `f` asks for is open, and say-as only around plain speech. */
  predicate Ready(v: Voice, f: Frag, b: Build) {
    b.inCustom && (b.sayAs ==> f.state.action.Speak?) &&
    (!v.isEdge ==> (NeedsProsody(v, f.state) ==> b.prosody) && (f.state.emphAdj != 0 ==> b.emphasis))
  }

  /** What opening adds to what is known. */
  function KnownAfterOpening(v: Voice, f: Frag, b: Build, w: Known): Known {
    WithSayAs(v, f, b, WithProsody(v, f, b, w))
  }

  lemma NoteKeeps(v: Voice, f: Frag, b: Build, w: Known)
    ensures Agrees(v, b, w) ==> Agrees(v, NoteText(f, b), w)
  {
    hide ReadsTo, CustomOk, HasInner, LastIsSayAs, Read;
    assert Stack(v, NoteText(f, b), w) == Stack(v, b, w);
  }

  /** The state in the opening phase before a say-as element is opened. */
  function BeforeSayAs(v: Voice, f: Frag, b: Build): Build {
    ReopenCustom(OpenEmphasis(v, f, OpenProsody(v, f, NoteText(f, b))))
  }

  lemma BeforeSayAsAgrees(v: Voice, f: Frag, b: Build, w: Known)
    requires Agrees(v, b, w) && HeadOk(v, f, b)
    ensures var b' := BeforeSayAs(v, f, b);
      Agrees(v, b', WithProsody(v, f, b, w)) && b'.inCustom && b'.sayAs == b.sayAs && b'.custom == b.custom &&
      (b.sayAs ==> f.state.action.Speak?)
    ensures !v.isEdge && NeedsProsody(v, f.state) ==> BeforeSayAs(v, f, b).prosody
    ensures !v.isEdge && f.state.emphAdj != 0 ==> BeforeSayAs(v, f, b).emphasis
  {
    hide Agrees, ProsodyTag, OpenAll, StartTagText, NeedsProsody;
    var b0, w1 := NoteText(f, b), WithProsody(v, f, b, w);
    NoteKeeps(v, f, b, w);
    OpenProsodyAgrees(v, f, b0, w);
    var b1 := OpenProsody(v, f, b0);
    OpenEmphasisAgrees(v, f, b1, w1);
    ReopenCustomAgrees(v, f, OpenEmphasis(v, f, b1), w1);
  }

  lemma BeforeContentAgrees(v: Voice, f: Frag, b: Build, w: Known)
    requires Agrees(v, b, w) && HeadOk(v, f, b)
    requires CategoryReads(v, f, b)
    ensures var b' := BeforeContent(v, f, b); Agrees(v, b', KnownAfterOpening(v, f, b, w)) && Ready(v, f, b')
  {
    hide Agrees, Quotable, CategoryValue, ContextTag, BeforeSayAs, NeedsProsody, LastIsSayAs, WithProsody;
    var b1 := BeforeSayAs(v, f, b);
    BeforeSayAsAgrees(v, f, b, w);
    OpenSayAsAgrees(v, f, b1, WithProsody(v, f, b, w));
    assert BeforeContent(v, f, b) == OpenSayAs(v, f, b1) by {
      SayAsIsLast(v, f, b);
    }
  }

  lemma SayAsIsLast(v: Voice, f: Frag, b: Build)
    ensures BeforeContent(v, f, b) == OpenSayAs(v, f, BeforeSayAs(v, f, b))
  {
    hide OpenProsody, OpenEmphasis, ReopenCustom, OpenSayAs;
  }

  // ----- content

  /** Content that is, or contains, an element. */
  predicate WritesTag(f: Frag) {
    match f.state.action
    case Speak => false
    case Section => false
    case ParseUnknownTag => TagOf(TrimTag(f.text)).Some? && !TagOf(TrimTag(f.text)).value.EndTag?
    case _ => true
  }

  /** A raw end tag that closes a client tag whose name is spelled differently. */
  predicate ClosesMisspelled(f: Frag, custom: seq<TagText>) {
    f.state.action.ParseUnknownTag? && TagOf(TrimTag(f.text)).Some? && TagOf(TrimTag(f.text)).value.EndTag? &&
    var k := FindOpen(custom, ElementName(f.text));
    k >= 0 && ElementName(custom[k]) != ElementName(f.text)
  }

  /** What content adds to what is known. */
  function KnownAfterContent(v: Voice, f: Frag, b: Build, w: Known): Known {
    if v.isEdge then w
    else w.(seen := Seen(w.seen.child || (WritesTag(f) && LastIsSayAs(b.custom)),
                         w.seen.exact && !ClosesMisspelled(f, b.custom)))
  }

  /** An element written as content is seen inside whatever is open. */
  lemma KnownAfterElement(v: Voice, f: Frag, b: Build, w: Known)
    requires !v.isEdge && WritesTag(f)
    ensures KnownAfterContent(v, f, b, w) == w.(seen := w.seen.(child := w.seen.child || LastIsSayAs(b.custom)))
  {
    hide TagOf, TrimTag, LastIsSayAs;
  }

  /** A raw end tag is seen with the name of the tag that it closes, if any. */
  lemma KnownAfterEnd(v: Voice, f: Frag, b: Build, w: Known)
    requires !v.isEdge && f.state.action.ParseUnknownTag? && IsSapiTag(f.text) && TagOf(TrimTag(f.text)).value.EndTag?
    ensures var k := FindOpen(b.custom, ElementName(f.text));
      KnownAfterContent(v, f, b, w) ==
      w.(seen := if k >= 0 then WithEnd(w.seen, ElementName(b.custom[k]), ElementName(f.text)) else w.seen)
  {
    hide TagOf, TrimTag, LastIsSayAs;
  }

  /** Agreement depends on the document, the list and the flags only. */
  lemma SameAgrees(v: Voice, b: Build, c: Build, w: Known, seen: Seen)
    requires Agrees(v, b, w) && SameFlags(b, c) && c.custom == b.custom
    requires ReadsTo(c.ssml, Stack(v, b, w), seen) && (w.seen.child ==> seen.child)
    requires v.isEdge ==> Read(START, c.ssml) == Read(START, b.ssml)
    ensures Agrees(v, c, w.(seen := seen))
  {
    hide ReadsTo, CustomOk, HasInner, LastIsSayAs, Read, Elements, Base;
    assert Stack(v, c, w.(seen := seen)) == Stack(v, b, w);
  }

  lemma EmitMappedReads(b: Build, f: Frag, open: seq<Element>, seen: Seen)
    requires ReadsTo(b.ssml, open, seen) && open != []
    ensures ReadsTo(EmitMapped(b, f).ssml, open, seen)
    ensures Read(START, EmitMapped(b, f).ssml) == Read(START, b.ssml)
  {
    hide ReadsTo, Read, Escape, EscapeMaps, UpToNul;
    AppendText(b.ssml, UpToNul(f.text), open, seen);
  }

  lemma AgreesReads(v: Voice, b: Build, w: Known)
    requires Agrees(v, b, w)
    ensures ReadsTo(b.ssml, Stack(v, b, w), w.seen)
  {
  }

  lemma SpokenAgrees(v: Voice, f: Frag, b: Build, w: Known)
    requires Agrees(v, b, w)
    ensures Agrees(v, EmitSpoken(v, f, b), w)
  {
    hide Read, ReadsTo, NeedAddingSpace, EmitMapped, CustomOk, Stack, HasInner, LastIsSayAs, SameFlags, EdgeAgrees,
      Agrees;
    AgreesReads(v, b, w);
    var open := Stack(v, b, w);
    StackIs(v, b, w);
    AppendSpace(b.ssml, open, w.seen);
    var spaced := if b.ssml != [] && NeedAddingSpace(v, b.ssml, f.text) then Emit(b, " ") else b;
    EmitMappedReads(spaced, f, open, w.seen);
    SpokenKeepsFlags(v, f, b);
    SameAgrees(v, b, EmitSpoken(v, f, b), w, w.seen);
  }

  lemma BookmarkAgrees(v: Voice, f: Frag, b: Build, w: Known)
    requires Agrees(v, b, w) && !v.isEdge && !b.sayAs && b.inCustom
    requires f.state.action.Bookmark?
    ensures Agrees(v, FullContent(v, f, b), KnownAfterContent(v, f, b, w))
  {
    hide KnownAfterContent, Read, ReadsTo, CustomOk, Stack, HasInner, LastIsSayAs, TopIsSayAs, Escape, EscapeMaps,
      UpToNul, EdgeAgrees;
    var t, c := UpToNul(f.text), FullContent(v, f, b);
    var tag := "<bookmark mark='" + Escape(t) + "'/>";
    BookmarkTagOf(t);
    KnownAfterElement(v, f, b, w);
    StackIs(v, b, w);
    TopOfStack(v, b, w);
    AppendEmpty(b.ssml, tag, Stack(v, b, w), w.seen);
    assert b.ssml + "<bookmark mark='" + Escape(t) + "'/>" == b.ssml + tag;
    SameAgrees(v, b, c, w, KnownAfterContent(v, f, b, w).seen);
  }

  /** An element around the fragment's text: opened, filled and closed again. */
  lemma WrappedReads(ssml: string, f: Frag, open: seq<Element>, tag: string, name: string, seen: Seen)
    requires ReadsTo(ssml, open, seen) && open != []
    requires IsName(name) && TagOf(tag) == Some(StartTag(name))
    ensures ReadsTo(ssml + tag + Escape(UpToNul(f.text)) + EndTagText(name), open, WithElement(seen, open))
  {
    hide Read, ReadsTo, TagOf, TopIsSayAs, Escape, UpToNul, EndTagText, IsName, EqualsIgnoreCase;
    var t, inner, seen' := UpToNul(f.text), open + [Element(name, tag)], WithElement(seen, open);
    AppendStart(ssml, tag, open, seen);
    AppendText(ssml + tag, t, inner, seen');
    EndTagOf(name);
    SameName(name);
    AppendEnd(ssml + tag + Escape(t), EndTagText(name), inner, seen');
    assert Front(inner) == open;
  }

  lemma WrappedAgrees(v: Voice, f: Frag, b: Build, w: Known, tag: string, name: string)
    requires Agrees(v, b, w) && !v.isEdge && !b.sayAs && b.inCustom && WritesTag(f)
    requires IsName(name) && TagOf(tag) == Some(StartTag(name))
    ensures Agrees(v, Emit(EmitMapped(Emit(b, tag), f), EndTagText(name)), KnownAfterContent(v, f, b, w))
  {
    hide KnownAfterContent, Read, ReadsTo, CustomOk, Stack, HasInner, LastIsSayAs, TopIsSayAs, Escape, EscapeMaps,
      UpToNul, WritesTag, IsName, TagOf, EndTagText, EdgeAgrees;
    KnownAfterElement(v, f, b, w);
    StackIs(v, b, w);
    TopOfStack(v, b, w);
    WrappedReads(b.ssml, f, Stack(v, b, w), tag, name, w.seen);
    SameAgrees(v, b, Emit(EmitMapped(Emit(b, tag), f), EndTagText(name)), w, KnownAfterContent(v, f, b, w).seen);
  }

  lemma SilenceAgrees(v: Voice, f: Frag, b: Build, w: Known)
    requires Agrees(v, b, w) && !v.isEdge && !b.sayAs && b.inCustom && f.state.action.Silence?
    ensures Agrees(v, Emit(b, BreakTag(f.state)), KnownAfterContent(v, f, b, w))
  {
    hide KnownAfterContent, Read, ReadsTo, CustomOk, Stack, HasInner, LastIsSayAs, TopIsSayAs, BreakTag, EdgeAgrees,
      TagOf;
    KnownAfterElement(v, f, b, w);
    StackIs(v, b, w);
    TopOfStack(v, b, w);
    BreakTagOf(f.state);
    AppendEmpty(b.ssml, BreakTag(f.state), Stack(v, b, w), w.seen);
    SameAgrees(v, b, Emit(b, BreakTag(f.state)), w, KnownAfterContent(v, f, b, w).seen);
  }

  /** What a raw start or empty tag does: a start tag is kept open, an empty tag leaves nothing open. */
  lemma RawOpenText(text: string, b: Build)
    requires IsSapiTag(text) && !TagOf(TrimTag(text)).value.EndTag?
    ensures TagOf(TrimTag(text)).value.EmptyTag? ==> RawTag(text, b) == Emit(b, text)
    ensures TagOf(TrimTag(text)).value.StartTag? ==>
      |text| >= 3 && RawTag(text, b) == Emit(b, text).(custom := b.custom + [text])
  {
    hide TagOf, TrimTag, IsXMLClosingTag, IsXMLSelfClosingTag;
    if TagOf(TrimTag(text)).value.EmptyTag? {
      EmptyTagHelpers(TrimTag(text));
    } else {
      StartTagHelpers(TrimTag(text));
      UntrimmedName(text);
    }
  }

  lemma RawEmptyAgrees(v: Voice, f: Frag, b: Build, w: Known)
    requires Agrees(v, b, w) && !v.isEdge && !b.sayAs && b.inCustom && f.state.action.ParseUnknownTag?
    requires IsSapiTag(f.text) && TagOf(TrimTag(f.text)).value.EmptyTag?
    ensures Agrees(v, RawTag(f.text, b), KnownAfterContent(v, f, b, w))
  {
    hide KnownAfterContent, Read, ReadsTo, TagOf, TrimTag, RawTag, TopIsSayAs, CustomOk, Stack, HasInner, LastIsSayAs,
      EdgeAgrees;
    RawOpenText(f.text, b);
    KnownAfterElement(v, f, b, w);
    StackIs(v, b, w);
    TopOfStack(v, b, w);
    AppendRawEmpty(b.ssml, f.text, Stack(v, b, w), w.seen);
    SameAgrees(v, b, Emit(b, f.text), w, KnownAfterContent(v, f, b, w).seen);
  }

  lemma RawStartAgrees(v: Voice, f: Frag, b: Build, w: Known)
    requires Agrees(v, b, w) && !v.isEdge && !b.sayAs && b.inCustom && f.state.action.ParseUnknownTag?
    requires IsSapiTag(f.text) && TagOf(TrimTag(f.text)).value.StartTag?
    ensures Agrees(v, RawTag(f.text, b), KnownAfterContent(v, f, b, w))
  {
    hide KnownAfterContent, Read, ReadsTo, TagOf, TrimTag, RawTag, TopIsSayAs, CustomOk, Stack, HasInner, LastIsSayAs,
      EdgeAgrees, ElementOf;
    RawOpenText(f.text, b);
    KnownAfterElement(v, f, b, w);
    StackIs(v, b, w);
    TopOfStack(v, b, w);
    AppendRawStart(b.ssml, f.text, Stack(v, b, w), w.seen);
    PushCustom(v, b, w, f.text, KnownAfterContent(v, f, b, w).seen);
  }

  lemma PushCustom(v: Voice, b: Build, w: Known, text: TagText, seen: Seen)
    requires b.inCustom && !b.sayAs && CustomOk(b.custom) && CustomTagOk(text)
    ensures var c := Emit(b, text).(custom := b.custom + [text]);
      Stack(v, c, w.(seen := seen)) == Stack(v, b, w) + [ElementOf(text)] && CustomOk(c.custom) &&
      (HasInner(c.custom) <==> HasInner(b.custom) || LastIsSayAs(b.custom))
  {
    hide CustomTagOk, ElementOf, LastIsSayAs, Base;
    assert Front(b.custom + [text]) == b.custom && Last(b.custom + [text]) == text;
    ElementsFront(b.custom + [text]);
    hide Elements;
  }

  /** What a raw end tag does: close the innermost custom tag of its name and everything inside it, or nothing. */
  lemma RawCloseText(text: string, b: Build) returns (k: int)
    requires IsSapiTag(text) && TagOf(TrimTag(text)).value.EndTag? && CustomOk(b.custom)
    ensures -1 <= k < |b.custom|
    ensures k < 0 ==> RawTag(text, b) == b
    ensures k == FindOpen(b.custom, ElementName(text))
    ensures k >= 0 ==> EqualsIgnoreCase(ElementName(b.custom[k]), ElementName(text))
    ensures k >= 0 ==>
      RawTag(text, b) == b.(ssml := b.ssml + CloseAll(b.custom[k + 1..]) + text, custom := b.custom[..k])
  {
    hide TagOf, TrimTag, IsXMLClosingTag, IsXMLSelfClosingTag, GetXMLClosingTagName, GetXMLTagName, CloseAll,
      EqualsIgnoreCase;
    EndTagHelpers(TrimTag(text));
    k := FindOpen(b.custom, GetXMLClosingTagName(TrimTag(text)));
    if k >= 0 {
      assert CustomTagOk(b.custom[k]);
      UntrimmedName(b.custom[k]);
      BracketIsNoName(ElementName(b.custom[k]), ElementName(text));
    }
  }

  lemma RawKeepsGood(custom: seq<TagText>, text: string)
    requires CustomOk(custom) && IsSapiTag(text)
    ensures CustomOk(AfterRaw(custom, text))
  {
    hide TagOf, TrimTag, IsXMLClosingTag, IsXMLSelfClosingTag, GetXMLClosingTagName, FindOpen;
    match TagOf(TrimTag(text)).value
    case EndTag(_) => EndTagHelpers(TrimTag(text));
    case EmptyTag(_) => EmptyTagHelpers(TrimTag(text));
    case StartTag(_) =>
      StartTagHelpers(TrimTag(text));
      UntrimmedName(text);
  }

  /** The list holds start tags only. */
  lemma {:induction false} ListIsGood(v: Voice, frags: seq<Frag>, i: nat)
    requires i <= |frags| && RawOk(v, frags)
    ensures CustomOk(TagList(v, frags, i))
  {
    hide CustomOk, AfterRaw, IsSapiTag;
    if i > 0 {
      ListIsGood(v, frags, i - 1);
      assert !v.isEdge ==> RawFragOk(frags[i - 1]);
      if !v.isEdge && frags[i - 1].state.action.ParseUnknownTag? {
        RawKeepsGood(TagList(v, frags, i - 1), frags[i - 1].text);
      }
    } else {
      NothingIsGood();
    }
  }

  lemma NothingIsGood()
    ensures CustomOk([])
  {
  }

  /** A name looked up as `n>` equals no real name, so its end tag is never recognised. */
  lemma BracketIsNoName(n: string, name: string)
    requires IsName(name)
    ensures !EqualsIgnoreCase(n + ">", name)
  {
    if |n| + 1 == |name| {
      assert LowerChar((n + ">")[|n|]) == '>' && LowerChar(name[|n|]) != '>';
    }
  }

  lemma RawCloseAgrees(v: Voice, f: Frag, b: Build, w: Known)
    requires Agrees(v, b, w) && !v.isEdge && !b.sayAs && b.inCustom && f.state.action.ParseUnknownTag?
    requires IsSapiTag(f.text) && TagOf(TrimTag(f.text)).value.EndTag?
    ensures Agrees(v, RawTag(f.text, b), KnownAfterContent(v, f, b, w))
  {
    hide KnownAfterContent, ReadsTo, TagOf, IsSapiTag, TrimTag, RawTag, EqualsIgnoreCase, CustomTagOk, CloseAll,
      Elements, ElementOf, Stack, Below, LastIsSayAs, HasInner, EdgeAgrees;
    var k := RawCloseText(f.text, b);
    KnownAfterEnd(v, f, b, w);
    SameStack(v, RawTag(f.text, b), w, KnownAfterContent(v, f, b, w).seen);
    if k >= 0 {
      var open := Below(v, b, w) + Elements(b.custom[..k]);
      StackSplit(v, b, w, k, RawTag(f.text, b).ssml);
      CloseThrough(b.ssml, f.text, b.custom[k + 1..], open, b.custom[k], w.seen);
      InnerPrefix(b.custom, k);
    }
  }

  lemma {:induction false} InnerPrefix(custom: seq<TagText>, k: nat)
    requires k <= |custom|
    ensures HasInner(custom[..k]) ==> HasInner(custom)
    decreases |custom|
  {
    hide LastIsSayAs;
    if k == |custom| {
      assert custom[..k] == custom;
    } else {
      InnerPrefix(Front(custom), k);
      assert Front(custom)[..k] == custom[..k];
    }
  }

  lemma SameStack(v: Voice, b: Build, w: Known, seen: Seen)
    ensures Stack(v, b, w.(seen := seen)) == Stack(v, b, w)
  {
    hide Elements, Base, StartTagText;
  }

  lemma StackSplit(v: Voice, b: Build, w: Known, k: nat, ssml: string)
    requires b.inCustom && !b.sayAs && k < |b.custom|
    ensures Stack(v, b, w) ==
      Below(v, b, w) + Elements(b.custom[..k]) + [ElementOf(b.custom[k])] + Elements(b.custom[k + 1..])
    ensures Stack(v, b.(ssml := ssml, custom := b.custom[..k]), w) == Below(v, b, w) + Elements(b.custom[..k])
  {
    var c, inner := b.(ssml := ssml, custom := b.custom[..k]), Elements(b.custom[k + 1..]);
    assert Below(v, c, w) == Below(v, b, w);
    hide Stack, Below, ElementOf;
    ElementsSplit(b.custom, k);
    StackIs(v, b, w);
    StackIs(v, c, w);
    hide Elements;
    assert Below(v, b, w) + (Elements(b.custom[..k]) + [ElementOf(b.custom[k])] + inner) == Stack(v, b, w);
  }

  lemma ElementsSplit(custom: seq<string>, k: nat)
    requires k < |custom|
    ensures Elements(custom) == Elements(custom[..k]) + [ElementOf(custom[k])] + Elements(custom[k + 1..])
  {
    hide ElementOf;
  }

  lemma CloseThrough(ssml: string, text: string, inner: seq<TagText>, open: seq<Element>, t: TagText, seen: Seen)
    requires ReadsTo(ssml, open + [ElementOf(t)] + Elements(inner), seen) && open != []
    requires CustomOk(inner)
    requires IsSapiTag(text) && TagOf(TrimTag(text)).value.EndTag? &&
      EqualsIgnoreCase(ElementName(t), ElementName(text))
    ensures ReadsTo(ssml + CloseAll(inner) + text, open, WithEnd(seen, ElementName(t), ElementName(text)))
  {
    hide ReadsTo, TagOf, TrimTag, Elements, CloseAll, EqualsIgnoreCase, ElementName, IsSapiTag;
    CloseAllAppended(ssml, inner, open + [ElementOf(t)], seen);
    assert Front(open + [ElementOf(t)]) == open;
    AppendRawEnd(ssml + CloseAll(inner), text, open + [ElementOf(t)], seen);
  }

  lemma EdgeContentAgrees(v: Voice, f: Frag, b: Build, w: Known)
    requires Agrees(v, b, w) && v.isEdge
    ensures Agrees(v, EdgeContent(v, f, b), w)
  {
    hide Read, ReadsTo, CustomOk, Elements, HasInner, LastIsSayAs, EmitSpoken, Stack;
    SpokenAgrees(v, f, b, w);
    EdgeContentKeepsFlags(v, f, b);
    SpokenKeepsFlags(v, f, b);
    var c, d := if IsSpeakable(f) then EmitSpoken(v, f, b) else b, EdgeContent(v, f, b);
    SameAgrees(v, c, d, w, w.seen);
  }

  lemma FullContentAgrees(v: Voice, f: Frag, b: Build, w: Known)
    requires Agrees(v, b, w) && !v.isEdge && b.inCustom
    requires b.sayAs ==> f.state.action.Speak?
    requires RawFragOk(f)
    ensures Agrees(v, FullContent(v, f, b), KnownAfterContent(v, f, b, w))
  {
    hide Agrees, TagOf, TrimTag, EmitSpoken, EmitMapped, EmitText, RawTag, CharactersTag, PhonemeTag, BreakTag,
      EndTagText, EqualsIgnoreCase, LastIsSayAs;
    match f.state.action
    case Speak => SpokenAgrees(v, f, b, w);
    case Silence => SilenceAgrees(v, f, b, w);
    case Bookmark => BookmarkAgrees(v, f, b, w);
    case SpellOut =>
      CharactersTagOf();
      WrappedAgrees(v, f, b, w, CharactersTag(), "say-as");
    case Pronounce =>
      PhonemeTagOf(v, f.state);
      WrappedAgrees(v, f, b, w, PhonemeTag(v, f.state), "phoneme");
    case ParseUnknownTag =>
      match TagOf(TrimTag(f.text)).value {
        case EndTag(_) => RawCloseAgrees(v, f, b, w);
        case EmptyTag(_) => RawEmptyAgrees(v, f, b, w);
        case StartTag(_) => RawStartAgrees(v, f, b, w);
      }
    case Section =>
  }

  lemma ContentAgrees(v: Voice, f: Frag, b: Build, w: Known)
    requires Agrees(v, b, w) && Ready(v, f, b)
    requires !v.isEdge ==> RawFragOk(f)
    ensures Agrees(v, EmitContent(v, f, b), KnownAfterContent(v, f, b, w)) && Ready(v, f, EmitContent(v, f, b))
  {
    hide Agrees, EdgeContent, FullContent, RawFragOk, NeedsProsody, WritesTag, LastIsSayAs, AfterRaw;
    ContentKeepsFlags(v, f, b);
    if v.isEdge {
      EdgeContentAgrees(v, f, b, w);
    } else {
      FullContentAgrees(v, f, b, w);
    }
  }

  // ----- closing

  lemma CloseSayAsAgrees(v: Voice, level: nat, b: Build, w: Known)
    requires Agrees(v, b, w)
    ensures Agrees(v, CloseSayAs(level, b), w)
  {
    hide Read, ReadsTo, CustomOk, Elements, Base, HasInner, LastIsSayAs, EndTagText, TagOf;
    var b' := CloseSayAs(level, b);
    if b' != b {
      EndTagOf("say-as");
      SameName("say-as");
      AppendEnd(b.ssml, EndTagText("say-as"), Stack(v, b, w), w.seen);
      assert Front(Stack(v, b, w)) == Stack(v, b', w);
    }
  }

  lemma CloseCustomAgrees(v: Voice, level: nat, b: Build, w: Known)
    requires Agrees(v, b, w)
    requires level < 2 ==> !b.sayAs
    ensures Agrees(v, CloseCustom(level, b), w)
  {
    hide Read, ReadsTo, CustomOk, Elements, Stack, HasInner, LastIsSayAs, CloseAll;
    var b' := CloseCustom(level, b);
    if b' != b {
      StackWithout(v, b, b', w);
      CloseAllAppended(b.ssml, b.custom, Stack(v, b', w), w.seen);
      if v.isEdge {
        CloseNothing(b.ssml);
      }
    }
  }

  lemma StackWithout(v: Voice, b: Build, c: Build, w: Known)
    requires b.inCustom && !b.sayAs && !c.inCustom && !c.sayAs && c.prosody == b.prosody && c.emphasis == b.emphasis
    ensures Stack(v, c, w) != [] && Stack(v, b, w) == Stack(v, c, w) + Elements(b.custom)
  {
    assert Below(v, c, w) == Below(v, b, w);
    hide Stack, Below, Elements;
    StackIs(v, b, w);
    StackIs(v, c, w);
    assert Below(v, c, w) + [] == Below(v, c, w);
  }

  lemma CloseNothing(ssml: string)
    ensures ssml + CloseAll([]) == ssml
  {
  }

  lemma CloseEmphasisAgrees(v: Voice, level: nat, b: Build, w: Known)
    requires Agrees(v, b, w)
    requires level < 2 ==> !b.sayAs && !b.inCustom
    ensures Agrees(v, CloseEmphasis(level, b), w)
  {
    hide Read, ReadsTo, CustomOk, Elements, Base, HasInner, LastIsSayAs, EndTagText, TagOf, StartTagText;
    var b' := CloseEmphasis(level, b);
    if b' != b {
      EndTagOf("emphasis");
      SameName("emphasis");
      AppendEnd(b.ssml, EndTagText("emphasis"), Stack(v, b, w), w.seen);
      assert Front(Stack(v, b, w)) == Stack(v, b', w);
    }
  }

  lemma CloseProsodyAgrees(v: Voice, level: nat, b: Build, w: Known)
    requires Agrees(v, b, w)
    requires level < 2 ==> !b.sayAs && !b.inCustom && !b.emphasis
    ensures Agrees(v, CloseProsody(level, b), w)
  {
    hide Read, ReadsTo, CustomOk, Elements, Base, HasInner, LastIsSayAs, EndTagText, TagOf;
    var b' := CloseProsody(level, b);
    if b' != b {
      EndTagOf("prosody");
      SameName("prosody");
      AppendEnd(b.ssml, EndTagText("prosody"), Stack(v, b, w), w.seen);
      assert Front(Stack(v, b, w)) == Stack(v, b', w);
      StillReads(b'.ssml, Stack(v, b', w), w.seen);
    }
  }

  lemma CloseTagsAgrees(v: Voice, level: nat, b: Build, w: Known)
    requires Agrees(v, b, w)
    ensures Agrees(v, CloseTags(level, b), w)
  {
    hide Agrees, CloseAll, EndTagText;
    CloseSayAsAgrees(v, level, b, w);
    var b1 := CloseSayAs(level, b);
    CloseCustomAgrees(v, level, b1, w);
    var b2 := CloseCustom(level, b1);
    CloseEmphasisAgrees(v, level, b2, w);
    CloseProsodyAgrees(v, level, CloseEmphasis(level, b2), w);
  }
}
