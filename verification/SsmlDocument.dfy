/**
 The document BuildSSML writes is well nested for every list of fragments, whatever is closed in the wrong order, closed
 without being open, never closed, or closed and reopened when prosody or emphasis change.
 */
module SsmlDocument {
  import opened Strings
  import opened XmlNesting
  import opened TagValues
  import opened Ssml
  import opened TagHelpers
  import opened MarkupTags
  import opened SsmlFlags
  import opened SsmlNesting
  import opened SsmlBalance
  import opened SsmlOffsets

  // ----- every prefix of the fragments

  /** At the start of fragment `i`, or at the end of the list. */
  predicate LoopHead(v: Voice, frags: seq<Frag>, i: nat, b: Build)
    requires i <= |frags|
  {
    if i < |frags| then HeadOk(v, frags[i], b) else NothingOpen(b)
  }

  /** What is known of the reading before fragment `i`. */
  function KnownAt(v: Voice, frags: seq<Frag>, i: nat): Known
    requires i <= |frags|
  {
    if i == 0 then Known(Seen(false, true), [], [])
    else
      var f, b := frags[i - 1], BuildTo(v, frags, i - 1);
      KnownAfterContent(v, f, b, KnownAfterOpening(v, f, b, KnownAt(v, frags, i - 1)))
  }

  lemma StepAgrees(v: Voice, frags: seq<Frag>, i: nat, b: Build, w: Known)
    requires i < |frags| && RawOk(v, frags) && CategoryReads(v, frags[i], b)
    requires Agrees(v, b, w) && LoopHead(v, frags, i, b)
    ensures var b' := Step(v, frags, i, b);
      Agrees(v, b', KnownAfterContent(v, frags[i], b, KnownAfterOpening(v, frags[i], b, w))) &&
        LoopHead(v, frags, i + 1, b')
  {
    hide Agrees, EmitContent, OpenTags, CloseTags, BeforeContent, KnownAfterContent, KnownAfterOpening, AfterRaw,
      CategoryReads, RawFragOk;
    var f, w' := frags[i], KnownAfterOpening(v, frags[i], b, w);
    BeforeContentAgrees(v, f, b, w);
    OpenFlags(v, f, b);
    var c := BeforeContent(v, f, b);
    assert c.custom == b.custom;
    ContentAgrees(v, f, c, w');
    var d := AfterContent(v, f, b);
    var level := LevelAfter(v, frags, i, d.prosodyCount);
    KnownFromList(v, f, b, c, w');
    CloseTagsAgrees(v, level, d, KnownAfterContent(v, f, c, w'));
    CloseFlags(level, d);
    hide NeedsProsody, SameProsody, SameCategory;
    HeadAfter(v, frags, i, d, level);
  }

  lemma KnownFromList(v: Voice, f: Frag, b: Build, c: Build, w: Known)
    requires b.custom == c.custom
    ensures KnownAfterContent(v, f, b, w) == KnownAfterContent(v, f, c, w)
  {
  }

  /** What stays open after a fragment is something the next one may build on. */
  lemma HeadAfter(v: Voice, frags: seq<Frag>, i: nat, d: Build, level: nat)
    requires i < |frags| && level == LevelAfter(v, frags, i, d.prosodyCount) && Ready(v, frags[i], d)
    ensures LoopHead(v, frags, i + 1, CloseTags(level, d))
  {
    hide CloseTags, SameCategory, VolumeOf, RateOf, PitchOf;
    CloseFlags(level, d);
    if i + 1 < |frags| && SameProsody(frags[i].state, frags[i + 1].state) {
      SameProsodyNeeds(v, frags[i].state, frags[i + 1].state);
    }
  }

  lemma StartAgrees(v: Voice)
    requires Quotable(v.locale) && Quotable(v.onlineName)
    ensures Agrees(v, Start(v), Known(Seen(false, true), [], [])) && NothingOpen(Start(v))
  {
    hide Read, TagOf, SpeakTag, VoiceTag, Quotable;
    var w := Known(Seen(false, true), [], []);
    SpeakTagOf(v);
    ReadTag(START, SpeakTag(v));
    var speak := [Element("speak", SpeakTag(v))];
    assert [] + speak == speak;
    if v.onlineName != [] {
      VoiceTagOf(v);
      AppendStart(SpeakTag(v), VoiceTag(v), speak, w.seen);
    } else {
      assert Start(v).ssml == SpeakTag(v);
    }
    assert Stack(v, Start(v), w) == Base(v);
  }

  lemma NothingOpenIsHead(v: Voice, frags: seq<Frag>, b: Build)
    requires NothingOpen(b)
    ensures LoopHead(v, frags, 0, b)
  {
    hide NeedsProsody;
  }

  lemma CategoryReadsAt(v: Voice, frags: seq<Frag>, i: nat)
    requires i < |frags|
    ensures CategoryReads(v, frags[i], BuildTo(v, frags, i)) <==> CategoryQuotable(v, frags, i)
  {
    hide BuildTo, OpensAt, Quotable, CategoryValue;
    OpensAtIff(v, frags, i);
  }

  lemma {:induction false} BuildToAgrees(v: Voice, frags: seq<Frag>, i: nat)
    requires i <= |frags| && RawOk(v, frags) && ValuesQuotable(v, frags, i)
    ensures Agrees(v, BuildTo(v, frags, i), KnownAt(v, frags, i)) && LoopHead(v, frags, i, BuildTo(v, frags, i))
  {
    hide Step, Start, Agrees, HeadOk, RawOk, KnownAfterContent, KnownAfterOpening, CategoryReads, CategoryQuotable,
      Quotable;
    if i == 0 {
      StartAgrees(v);
      NothingOpenIsHead(v, frags, Start(v));
    } else {
      BuildToAgrees(v, frags, i - 1);
      CategoryReadsAt(v, frags, i - 1);
      StepAgrees(v, frags, i - 1, BuildTo(v, frags, i - 1), KnownAt(v, frags, i - 1));
    }
  }

  lemma FinishReads(v: Voice, b: Build, w: Known)
    requires Agrees(v, b, w) && NothingOpen(b)
    ensures WellNested(Finish(v, b).ssml)
    ensures WellNestedExactly(Finish(v, b).ssml) <==> w.seen.exact
    ensures SayAsIsFlat(Finish(v, b).ssml) <==> !w.seen.child
    ensures v.isEdge ==> ProsodyElements(Finish(v, b).ssml) == b.prosodyCount
  {
    hide Read, TagOf, EndTagText, CustomOk, Elements, HasInner, LastIsSayAs;
    assert Stack(v, b, w) == Base(v);
    EndTagOf("voice");
    EndTagOf("speak");
    SameName("voice");
    SameName("speak");
    var inner, speak := b.ssml + (if v.onlineName != [] then EndTagText("voice") else []),
      [Element("speak", SpeakTag(v))];
    if v.onlineName != [] {
      AppendEnd(b.ssml, EndTagText("voice"), Base(v), w.seen);
      assert Front(Base(v)) == speak;
    } else {
      assert inner == b.ssml;
    }
    AppendEnd(inner, EndTagText("speak"), speak, w.seen);
    assert Front(speak) == [];
  }

  lemma CompileReads(v: Voice, frags: seq<Frag>)
    requires Readable(v, frags)
    ensures var doc := Compile(v, frags).ssml;
      WellNested(doc) && (WellNestedExactly(doc) <==> KnownAt(v, frags, |frags|).seen.exact) &&
      (SayAsIsFlat(doc) <==> !KnownAt(v, frags, |frags|).seen.child) &&
      (v.isEdge ==> ProsodyElements(doc) == BuildTo(v, frags, |frags|).prosodyCount)
  {
    hide SayAsIsFlat, WellNested, WellNestedExactly, ProsodyElements, Agrees, Finish, BuildTo, RawOk, KnownAt,
      ValuesQuotable;
    BuildToAgrees(v, frags, |frags|);
    FinishReads(v, BuildTo(v, frags, |frags|), KnownAt(v, frags, |frags|));
  }

  // ----- well-nestedness

  /** BuildSSML writes a well-nested document for every list of fragments. */
  lemma DocumentIsWellNested(v: Voice, frags: seq<Frag>)
    requires Readable(v, frags)
    ensures WellNested(Compile(v, frags).ssml)
  {
    hide WellNested, Compile, Readable;
    CompileReads(v, frags);
  }

  /** No raw end tag before fragment `i` is honoured although it spells the name differently. */
  predicate NamesMatch(v: Voice, frags: seq<Frag>, i: nat)
    requires i <= |frags|
  {
    forall j :: 0 <= j < i ==> !ClosesMisspelled(frags[j], TagList(v, frags, j))
  }

  lemma {:induction false} ExactIs(v: Voice, frags: seq<Frag>, i: nat)
    requires i <= |frags| && !v.isEdge
    ensures KnownAt(v, frags, i).seen.exact <==> NamesMatch(v, frags, i)
  {
    hide ClosesMisspelled, KnownAt, TagList;
    if i == 0 {
      NothingKnown(v, frags);
    } else {
      ExactIs(v, frags, i - 1);
      SeenStep(v, frags, i - 1);
    }
  }

  /** How the reading changes over one fragment, for voices that take full SSML. */
  lemma SeenStep(v: Voice, frags: seq<Frag>, i: nat)
    requires i < |frags| && !v.isEdge
    ensures var seen, seen', list := KnownAt(v, frags, i).seen, KnownAt(v, frags, i + 1).seen, TagList(v, frags, i);
      var writes := WritesTag(frags[i]) || OpensSayAs(v, frags[i], BuildTo(v, frags, i));
      (seen'.exact <==> seen.exact && !ClosesMisspelled(frags[i], list)) &&
      (seen'.child <==> seen.child || (LastIsSayAs(list) && writes))
  {
    hide BuildTo, LastIsSayAs, WritesTag, ContextTag, ProsodyTag, NeedsProsody, TagList, ClosesMisspelled;
    TagListIs(v, frags, i);
  }

  lemma NothingKnown(v: Voice, frags: seq<Frag>)
    ensures KnownAt(v, frags, 0) == Known(Seen(false, true), [], [])
  {
  }

  /**
   Names match exactly, as section 3 of XML 1.0 asks, if and only if no end tag of the client closes a tag on the list
   of its tags that spells the name differently. The adapter's own end tags always match.
   */
  lemma NamesMatchExactlyIff(v: Voice, frags: seq<Frag>)
    requires Readable(v, frags)
    ensures WellNestedExactly(Compile(v, frags).ssml) <==> v.isEdge || NamesMatch(v, frags, |frags|)
  {
    hide SayAsIsFlat, WellNested, WellNestedExactly, Compile, Readable, KnownAt, NamesMatch;
    CompileReads(v, frags);
    if v.isEdge {
      EdgeSeesNothing(v, frags, |frags|);
    } else {
      ExactIs(v, frags, |frags|);
    }
  }

  /** `<b>` and `</B>`: the end tag is honoured, so the document is not well-formed XML. */
  lemma CaseIsIgnored(v: Voice, open: Frag, close: Frag)
    requires Readable(v, [open, close]) && !v.isEdge
    requires open.state.action.ParseUnknownTag? && open.text == "<b>"
    requires close.state.action.ParseUnknownTag? && close.text == "</B>"
    ensures WellNested(Compile(v, [open, close]).ssml) && !WellNestedExactly(Compile(v, [open, close]).ssml)
  {
    hide Compile, Readable, WellNested, WellNestedExactly, TagOf, TrimTag, IsXMLSelfClosingTag, IsXMLClosingTag,
      GetXMLTagName;
    var frags := [open, close];
    BoldAndCapital();
    StartTagHelpers("<b>");
    assert TagList(v, frags, 0) == [] && TagList(v, frags, 1) == [] + ["<b>"];
    assert FindOpen(["<b>"], "B") == 0;
    assert ClosesMisspelled(frags[1], TagList(v, frags, 1));
    DocumentIsWellNested(v, frags);
    NamesMatchExactlyIff(v, frags);
  }

  lemma BoldAndCapital()
    ensures TrimTag("<b>") == "<b>" && TagOf("<b>") == Some(StartTag("b"))
    ensures TrimTag("</B>") == "</B>" && TagOf("</B>") == Some(EndTag("B"))
  {
    StartTagOf("b", []);
    assert StartTagText("b", []) == "<b>";
    EndTagOf("B");
    assert EndTagText("B") == "</B>";
    SingleTag("<b>");
    SingleTag("</B>");
  }

  // ----- elements inside say-as

  /** The fragment writes an element, or is wrapped in one of its own. */
  predicate WritesElement(f: Frag) {
    WritesTag(f) || WantsSayAs(f.state)
  }

  /** Some fragment before `i` writes an element directly inside a say-as element of the client. */
  predicate WritesInside(v: Voice, frags: seq<Frag>, i: nat)
    requires i <= |frags|
  {
    exists j :: 0 <= j < i && LastIsSayAs(TagList(v, frags, j)) && WritesElement(frags[j])
  }

  lemma ChildStep(v: Voice, frags: seq<Frag>, i: nat)
    requires i < |frags| && Readable(v, frags) && !v.isEdge
    ensures KnownAt(v, frags, i + 1).seen.child <==>
      KnownAt(v, frags, i).seen.child || (LastIsSayAs(TagList(v, frags, i)) && WritesElement(frags[i]))
  {
    hide BuildTo, LastIsSayAs, WritesTag, ReadsTo, CustomOk, HasInner, RawOk, Quotable, CategoryQuotable, Stack,
      TagList, KnownAt, ClosesMisspelled, EdgeAgrees;
    BuildToAgrees(v, frags, i);
    TagListIs(v, frags, i);
    SeenStep(v, frags, i);
  }

  lemma {:induction false} ChildIs(v: Voice, frags: seq<Frag>, i: nat)
    requires i <= |frags| && Readable(v, frags) && !v.isEdge
    ensures KnownAt(v, frags, i).seen.child <==> WritesInside(v, frags, i)
  {
    hide Readable, WritesElement, LastIsSayAs, KnownAt, TagList;
    if i == 0 {
      NothingKnown(v, frags);
    } else {
      ChildIs(v, frags, i - 1);
      ChildStep(v, frags, i - 1);
      if WritesInside(v, frags, i) {
        var j :| 0 <= j < i && LastIsSayAs(TagList(v, frags, j)) && WritesElement(frags[j]);
        assert j < i - 1 ==> WritesInside(v, frags, i - 1);
      }
    }
  }

  lemma {:induction false} EdgeSeesNothing(v: Voice, frags: seq<Frag>, i: nat)
    requires i <= |frags| && v.isEdge
    ensures KnownAt(v, frags, i).seen == Seen(false, true)
  {
    hide BuildTo, KnownAfterContent, KnownAfterOpening;
    if i > 0 {
      EdgeSeesNothing(v, frags, i - 1);
      EdgeKeepsSeen(v, frags[i - 1], BuildTo(v, frags, i - 1), KnownAt(v, frags, i - 1));
    }
  }

  lemma EdgeKeepsSeen(v: Voice, f: Frag, b: Build, w: Known)
    requires v.isEdge
    ensures KnownAfterContent(v, f, b, KnownAfterOpening(v, f, b, w)).seen == w.seen
  {
    hide LastIsSayAs, WritesTag, ContextTag, ProsodyTag, NeedsProsody;
  }

  /**
   No say-as element contains another element, if and only if no fragment writes an element while the innermost tag on
   the list of the client's tags is a say-as tag. The adapter's own say-as elements are always flat.
   */
  lemma SayAsHasNoChild(v: Voice, frags: seq<Frag>)
    requires Readable(v, frags)
    ensures SayAsIsFlat(Compile(v, frags).ssml) <==>
      v.isEdge || forall i :: 0 <= i < |frags| && LastIsSayAs(TagList(v, frags, i)) ==> !WritesElement(frags[i])
  {
    hide SayAsIsFlat, Compile, Readable, KnownAt, LastIsSayAs, WritesElement;
    CompileReads(v, frags);
    if v.isEdge {
      EdgeSeesNothing(v, frags, |frags|);
    } else {
      ChildIs(v, frags, |frags|);
    }
  }

  /** A break inside the client's say-as element. */
  lemma BreakInsideSayAs(v: Voice, tag: Frag, silence: Frag)
    requires !v.isEdge && Quotable(v.locale) && Quotable(v.onlineName)
    requires tag.state.action.ParseUnknownTag? && tag.text == "<say-as>" && tag.state.category.None?
    requires silence.state.action.Silence? && silence.state.category.None?
    ensures Readable(v, [tag, silence]) && !SayAsIsFlat(Compile(v, [tag, silence]).ssml)
  {
    hide Compile, SayAsIsFlat, TagOf, TrimTag, Quotable, IsXMLSelfClosingTag, IsXMLClosingTag;
    var frags := [tag, silence];
    SayAsTag();
    StartTagHelpers("<say-as>");
    assert TagList(v, frags, 0) == [] && TagList(v, frags, 1) == [] + ["<say-as>"];
    assert LastIsSayAs(TagList(v, frags, 1)) && WritesElement(frags[1]) by {
      SameName("say-as");
    }
    SayAsHasNoChild(v, frags);
  }

  lemma SayAsTag()
    ensures TagOf("<say-as>") == Some(StartTag("say-as")) && TrimTag("<say-as>") == "<say-as>" && IsSapiTag("<say-as>")
  {
    StartTagOf("say-as", []);
    var t := "<say-as>";
    assert StartTagText("say-as", []) == t;
    SingleTag(t);
  }

  lemma SingleTag(t: string)
    requires TagOf(t).Some?
    ensures TrimTag(t) == t && IsSapiTag(t)
  {
    hide TagAll, Finished;
    assert FindChar(t, '<', 0, |t|) == 0;
    assert t[0..] == t;
  }

  // ----- prosody elements of Edge voices

  /** For Edge voices: once two prosody elements were opened, the second stays open while anything is left to speak. */
  predicate AtMostTwo(v: Voice, frags: seq<Frag>, i: nat, b: Build)
    requires i <= |frags|
  {
    b.prosodyCount <= 2 && (b.prosodyCount == 2 && NextFrag(v, frags, i) < |frags| ==> b.prosody)
  }

  lemma {:induction false} EdgeProsodyCount(v: Voice, frags: seq<Frag>, i: nat)
    requires i <= |frags| && v.isEdge
    ensures AtMostTwo(v, frags, i, BuildTo(v, frags, i))
  {
    hide Step, SpeakTag, VoiceTag;
    if i > 0 {
      EdgeProsodyCount(v, frags, i - 1);
      EdgeStepCount(v, frags, i - 1, BuildTo(v, frags, i - 1));
    }
  }

  lemma EdgeStepCount(v: Voice, frags: seq<Frag>, i: nat, b: Build)
    requires i < |frags| && v.isEdge && AtMostTwo(v, frags, i, b)
    ensures AtMostTwo(v, frags, i + 1, Step(v, frags, i, b))
  {
    hide BeforeContent, EmitContent, NeedsProsody, CloseTags, AfterRaw;
    OpenFlags(v, frags[i], b);
    ContentKeepsFlags(v, frags[i], BeforeContent(v, frags[i], b));
    var c := AfterContent(v, frags[i], b);
    CloseFlags(LevelAfter(v, frags, i, c.prosodyCount), c);
  }

  /** For Edge voices the document has at most two prosody elements, for any number of prosody changes. */
  lemma EdgeHasAtMostTwoProsodies(v: Voice, frags: seq<Frag>)
    requires Readable(v, frags) && v.isEdge
    ensures ProsodyElements(Compile(v, frags).ssml) <= 2
  {
    hide ProsodyElements, Compile, BuildTo, Readable;
    CompileReads(v, frags);
    EdgeProsodyCount(v, frags, |frags|);
  }
}
