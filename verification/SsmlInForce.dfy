/**
 What is in force where a fragment's content is written: for voices that take full SSML, exactly the elements that the
 fragment's own state asks for, with the attributes it asks for, around the client's own tags.
 */
module SsmlInForce {
  import opened Strings
  import opened XmlNesting
  import opened TagValues
  import opened Ssml
  import opened TagHelpers
  import opened SsmlFlags
  import opened SsmlNesting
  import opened SsmlBalance
  import opened SsmlOffsets
  import opened SsmlDocument

  // ----- attributes

  /** What stays open across fragment `i` was kept because the next fragment has the same prosody or category. */
  lemma KeptIsSame(v: Voice, frags: seq<Frag>, i: nat)
    requires i + 1 < |frags| && !v.isEdge
    ensures var b, c := BuildTo(v, frags, i + 1), AfterContent(v, frags[i], BuildTo(v, frags, i));
      var s, t := frags[i].state, frags[i + 1].state;
      (b.prosody ==> c.prosody && SameProsody(s, t)) && (b.sayAs ==> c.sayAs && SameCategory(s, t) && t.action.Speak?)
  {
    hide AfterContent, CloseTags, SameCategory, SameProsody;
    var c := AfterContent(v, frags[i], BuildTo(v, frags, i));
    CloseFlags(LevelAfter(v, frags, i, c.prosodyCount), c);
  }

  /** What is known before fragment `i + 1`, and whether the elements were open at fragment `i` or opened there. */
  lemma KnownNext(v: Voice, frags: seq<Frag>, i: nat)
    requires i < |frags|
    ensures var b, c, w := BuildTo(v, frags, i), AfterContent(v, frags[i], BuildTo(v, frags, i)), KnownAt(v, frags, i);
      var w' := KnownAt(v, frags, i + 1);
      (c.prosody ==> w'.prosody == if b.prosody then w.prosody else ProsodyTag(v, frags[i].state)) &&
      (c.sayAs && !b.sayAs ==> WantsSayAs(frags[i].state) && w'.sayAs == ContextTag(frags[i].state.category.value)) &&
      (c.sayAs && b.sayAs ==> w'.sayAs == w.sayAs)
  {
    hide BuildTo, BeforeContent, EmitContent, NeedsProsody, AfterRaw, ProsodyTag, ContextTag, WritesTag, LastIsSayAs,
      IsSpeakable;
    var f, b := frags[i], BuildTo(v, frags, i);
    OpenFlags(v, f, b);
    ContentKeepsFlags(v, f, BeforeContent(v, f, b));
  }

  /** The start tag of the open prosody element carries the fragment's own attributes, wherever it was opened. */
  lemma {:induction false} ProsodyIsOwn(v: Voice, frags: seq<Frag>, i: nat)
    requires i < |frags| && !v.isEdge
    ensures BuildTo(v, frags, i).prosody ==> KnownAt(v, frags, i).prosody == ProsodyTag(v, frags[i].state)
  {
    hide Step, Start, ProsodyTag, SameProsody, SameCategory, KnownAt, AfterContent;
    if i == 0 {
      StartIsClosed(v);
    } else {
      ProsodyIsOwn(v, frags, i - 1);
      KeptIsSame(v, frags, i - 1);
      KnownNext(v, frags, i - 1);
      if SameProsody(frags[i - 1].state, frags[i].state) {
        SameProsodyNeeds(v, frags[i - 1].state, frags[i].state);
      }
    }
  }

  lemma StartIsClosed(v: Voice)
    ensures NothingOpen(Start(v))
  {
  }

  lemma SameTrans(a: string, b: string, c: string)
    requires EqualsIgnoreCase(a, b) && EqualsIgnoreCase(b, c)
    ensures EqualsIgnoreCase(a, c)
  {
  }

  lemma CategoriesMatch(s: State, t: State)
    requires s.category.Some? && SameCategory(s, t)
    ensures t.category.Some? && EqualsIgnoreCase(s.category.value, t.category.value)
  {
  }

  /** `cat` is the category that `s` asks for, up to case. */
  predicate IsCategoryOf(s: State, cat: string) {
    s.category.Some? && EqualsIgnoreCase(cat, s.category.value)
  }

  /** The start tag of the open say-as element carries the fragment's own category, up to case. */
  lemma {:induction false} CategoryIsOwn(v: Voice, frags: seq<Frag>, i: nat) returns (cat: string)
    requires i < |frags| && !v.isEdge
    ensures BuildTo(v, frags, i).sayAs ==>
      IsCategoryOf(frags[i].state, cat) && KnownAt(v, frags, i).sayAs == ContextTag(cat)
  {
    hide Step, Start, ContextTag, SameProsody, SameCategory, KnownAt, AfterContent, EqualsIgnoreCase;
    cat := [];
    if i == 0 {
      StartIsClosed(v);
    } else {
      var j := i - 1;
      var earlier := CategoryIsOwn(v, frags, j);
      KeptIsSame(v, frags, j);
      KnownNext(v, frags, j);
      if BuildTo(v, frags, i).sayAs {
        var s, t := frags[j].state, frags[i].state;
        CategoriesMatch(s, t);
        if BuildTo(v, frags, j).sayAs {
          cat := earlier;
          SameTrans(cat, s.category.value, t.category.value);
        } else {
          cat := s.category.value;
        }
      }
    }
  }

  // ----- what a reader has open

  /**
   The elements that ought to be open around a fragment in state `s` when the client has `custom` open: name and start
   tag of each, outermost first.
   */
  function Wanted(v: Voice, s: State, cat: string, custom: seq<string>): seq<Element> {
    Base(v) + (if NeedsProsody(v, s) then [Element("prosody", ProsodyTag(v, s))] else []) +
    (if s.emphAdj != 0 then [Element("emphasis", StartTagText("emphasis", []))] else []) +
    Elements(custom) + (if WantsSayAs(s) then [Element("say-as", ContextTag(cat))] else [])
  }

  /**
   A reader of the document who reaches the content of fragment `k` has open what the fragment wants, around `custom`.
   */
  ghost predicate StandsIn(v: Voice, frags: seq<Frag>, k: nat, custom: seq<string>)
    requires k < |frags|
  {
    var before, s := BeforeContent(v, frags[k], BuildTo(v, frags, k)).ssml, frags[k].state;
    var r := Read(START, before);
    before <= Compile(v, frags).ssml && r.Reading? && r.lexing == Content &&
    exists cat :: (WantsSayAs(s) ==> IsCategoryOf(s, cat)) && r.open == Wanted(v, s, cat, custom)
  }

  lemma BeforeIsPrefix(v: Voice, frags: seq<Frag>, k: nat)
    requires k < |frags|
    ensures BeforeContent(v, frags[k], BuildTo(v, frags, k)).ssml <= Compile(v, frags).ssml
  {
    hide BuildTo, BeforeContent, Compile, EmitContent;
    var c := BeforeContent(v, frags[k], BuildTo(v, frags, k));
    ContentGrows(v, frags[k], c);
    AfterGrows(v, frags, k);
    PrefixTrans(c.ssml, AfterContent(v, frags[k], BuildTo(v, frags, k)).ssml, Compile(v, frags).ssml);
  }

  lemma StackIsWanted(v: Voice, s: State, b: Build, w: Known, cat: string)
    requires FlagsAre(v, s, b) && (b.prosody ==> w.prosody == ProsodyTag(v, s)) &&
      (b.sayAs ==> w.sayAs == ContextTag(cat))
    ensures Stack(v, b, w) == Wanted(v, s, cat, b.custom)
  {
    hide NeedsProsody, ProsodyTag, ContextTag, StartTagText, Elements, Base, WantsSayAs;
  }

  /** The elements in force at a fragment, with their start tags, around the list of custom tags. */
  lemma KnownIsOwn(v: Voice, frags: seq<Frag>, k: nat) returns (cat: string)
    requires k < |frags| && !v.isEdge
    ensures var f, b := frags[k], BuildTo(v, frags, k);
      var c, w := BeforeContent(v, f, b), KnownAfterOpening(v, f, b, KnownAt(v, frags, k));
      FlagsAre(v, f.state, c) && (c.prosody ==> w.prosody == ProsodyTag(v, f.state)) &&
      (c.sayAs ==> IsCategoryOf(f.state, cat) && w.sayAs == ContextTag(cat))
  {
    hide BuildTo, BeforeContent, NothingExtra, NeedsProsody, ProsodyTag, ContextTag, KnownAt, EqualsIgnoreCase,
      LastIsSayAs, IsSpeakable;
    var f, b := frags[k], BuildTo(v, frags, k);
    NothingExtraAt(v, frags, k);
    OpeningCompletes(v, f, b);
    OpenFlags(v, f, b);
    ProsodyIsOwn(v, frags, k);
    cat := CategoryIsOwn(v, frags, k);
    if OpensSayAs(v, f, b) {
      cat := f.state.category.value;
      SameName(cat);
    }
  }

  /**
   Where the content of fragment `k` begins, a reader of the document has open exactly what the fragment's state asks
   for, attributes included, around the tags on the adapter's list.
   */
  lemma ContentStandsInItsElements(v: Voice, frags: seq<Frag>, k: nat)
    requires Readable(v, frags) && !v.isEdge && k < |frags|
    ensures StandsIn(v, frags, k, TagList(v, frags, k))
  {
    hide BuildTo, BeforeContent, Read, KnownAt, Compile, TagList, CustomOk, HeadOk, HasInner, LastIsSayAs, FlagsAre,
      Stack, Wanted, KnownAfterOpening, IsCategoryOf, CategoryReads, CategoryQuotable, RawOk, Quotable;
    var f, b := frags[k], BuildTo(v, frags, k);
    var c, w := BeforeContent(v, f, b), KnownAfterOpening(v, f, b, KnownAt(v, frags, k));
    BuildToAgrees(v, frags, k);
    CategoryReadsAt(v, frags, k);
    BeforeContentAgrees(v, f, b, KnownAt(v, frags, k));
    var cat := KnownIsOwn(v, frags, k);
    SayAsFlag(v, f.state, c);
    StackIsWanted(v, f.state, c, w, cat);
    TagListStep(v, frags, k);
    BeforeIsPrefix(v, frags, k);
  }

  lemma SayAsFlag(v: Voice, s: State, b: Build)
    requires FlagsAre(v, s, b)
    ensures b.sayAs == WantsSayAs(s)
  {
  }

  // ----- the client's own tags

  /** The innermost of `custom` that is an element of that name, or -1. */
  function Innermost(custom: seq<string>, name: string): (k: int)
    ensures -1 <= k < |custom|
  {
    if custom == [] then -1
    else if EqualsIgnoreCase(ElementName(Last(custom)), name) then |custom| - 1
    else Innermost(Front(custom), name)
  }

  lemma {:induction false} InnermostIs(custom: seq<string>, name: string)
    ensures var k := Innermost(custom, name);
      (k >= 0 ==> EqualsIgnoreCase(ElementName(custom[k]), name)) &&
      forall i :: k < i < |custom| ==> !EqualsIgnoreCase(ElementName(custom[i]), name)
  {
    hide EqualsIgnoreCase, ElementName;
    if custom != [] {
      InnermostIs(Front(custom), name);
    }
  }

  /** The client's open tags after one more: an end tag closes the innermost of its name and what is inside it. */
  function AfterClientTag(custom: seq<string>, text: string): seq<string> {
    match TagOf(TrimTag(text))
    case None => custom
    case Some(EmptyTag(_)) => custom
    case Some(StartTag(_)) => custom + [text]
    case Some(EndTag(n)) => if Innermost(custom, n) >= 0 then custom[..Innermost(custom, n)] else custom
  }

  /** The tags that the client has open before fragment `i`, as its raw tags are written. */
  function ClientOpen(frags: seq<Frag>, i: nat): seq<string>
    requires i <= |frags|
  {
    if i == 0 then []
    else if frags[i - 1].state.action.ParseUnknownTag? then AfterClientTag(ClientOpen(frags, i - 1), frags[i - 1].text)
    else ClientOpen(frags, i - 1)
  }

  /** The tag is written `<name>` with blanks behind it. */
  predicate IsLoose(text: string) {
    text != TrimTag(text) && TrimTag(text) == "<" + ElementName(text) + ">"
  }

  /** An end tag meets an innermost tag of its name that is not loose, or none. */
  predicate MeetsTightTag(custom: seq<string>, text: string) {
    match TagOf(TrimTag(text))
    case Some(EndTag(n)) => var k := Innermost(custom, n); k < 0 || !IsLoose(custom[k])
    case _ => true
  }

  /** The name the adapter looks a custom tag up by equals a real name only where the tag is not loose. */
  lemma LookupIs(t: TagText, name: string)
    requires CustomTagOk(t) && IsName(name)
    ensures EqualsIgnoreCase(GetXMLTagName(t), name) <==> EqualsIgnoreCase(ElementName(t), name) && !IsLoose(t)
  {
    hide TagOf, TrimTag, GetXMLTagName, EqualsIgnoreCase;
    UntrimmedName(t);
    BracketIsNoName(ElementName(t), name);
  }

  /** The adapter finds the innermost tag of a name exactly when that one is not loose. */
  lemma FoundIff(custom: seq<TagText>, name: string)
    requires CustomOk(custom) && IsName(name)
    ensures FindOpen(custom, name) == Innermost(custom, name) <==>
      Innermost(custom, name) < 0 || !IsLoose(custom[Innermost(custom, name)])
  {
    hide GetXMLTagName, EqualsIgnoreCase, ElementName, IsLoose, CustomTagOk, FindOpen, Innermost;
    InnermostIs(custom, name);
    var j, k := FindOpen(custom, name), Innermost(custom, name);
    if j >= 0 {
      LookupIs(custom[j], name);
    }
    if k >= 0 {
      LookupIs(custom[k], name);
    }
  }

  /** The adapter's list follows a raw tag as the client means it, if and only if an end tag meets no loose tag. */
  lemma TagIsHonouredIff(custom: seq<TagText>, text: string)
    requires CustomOk(custom) && IsSapiTag(text)
    ensures AfterRaw(custom, text) == AfterClientTag(custom, text) <==> MeetsTightTag(custom, text)
    ensures |AfterRaw(custom, text)| == |AfterClientTag(custom, text)| <==> MeetsTightTag(custom, text)
  {
    hide TrimTag, IsXMLClosingTag, IsXMLSelfClosingTag, GetXMLClosingTagName, FindOpen, TagOf, Innermost, IsLoose,
      CustomOk, IsName;
    var t := TrimTag(text);
    match TagOf(t).value
    case EndTag(n) =>
      EndTagHelpers(t);
      FoundIff(custom, n);
    case EmptyTag(_) => EmptyTagHelpers(t);
    case StartTag(_) =>
      StartTagHelpers(t);
      UntrimmedName(text);
  }

  /** Every end tag before fragment `n` meets a tag that is not loose, or none. */
  predicate AllTight(frags: seq<Frag>, n: nat)
    requires n <= |frags|
  {
    forall j :: 0 <= j < n && frags[j].state.action.ParseUnknownTag? ==>
      MeetsTightTag(ClientOpen(frags, j), frags[j].text)
  }

  lemma TightStep(frags: seq<Frag>, n: nat)
    requires 0 < n <= |frags| && AllTight(frags, n)
    ensures AllTight(frags, n - 1)
    ensures frags[n - 1].state.action.ParseUnknownTag? ==> MeetsTightTag(ClientOpen(frags, n - 1), frags[n - 1].text)
  {
    hide MeetsTightTag, ClientOpen;
  }

  /** The two lists stay equal as long as every end tag meets a tag that is not loose. */
  lemma {:induction false} ListsAgree(v: Voice, frags: seq<Frag>, n: nat)
    requires n <= |frags| && RawOk(v, frags) && !v.isEdge && AllTight(frags, n)
    ensures TagList(v, frags, n) == ClientOpen(frags, n)
  {
    hide AfterRaw, AfterClientTag, MeetsTightTag, CustomOk, AllTight, IsSapiTag;
    if n > 0 {
      TightStep(frags, n);
      ListsAgree(v, frags, n - 1);
      if frags[n - 1].state.action.ParseUnknownTag? {
        ListIsGood(v, frags, n - 1);
        assert RawFragOk(frags[n - 1]);
        TagIsHonouredIff(TagList(v, frags, n - 1), frags[n - 1].text);
      }
    }
  }

  /** The first end tag to meet a loose tag makes the two lists differ in length. */
  lemma ListsPart(v: Voice, frags: seq<Frag>, j: nat)
    requires j < |frags| && RawOk(v, frags) && !v.isEdge && AllTight(frags, j) && !AllTight(frags, j + 1)
    ensures |TagList(v, frags, j + 1)| != |ClientOpen(frags, j + 1)|
  {
    ListsAgree(v, frags, j);
    hide AfterRaw, AfterClientTag, MeetsTightTag, CustomOk, IsSapiTag;
    ListIsGood(v, frags, j);
    assert RawFragOk(frags[j]);
    TagIsHonouredIff(TagList(v, frags, j), frags[j].text);
  }

  lemma {:induction false} FirstLoose(frags: seq<Frag>, n: nat) returns (j: nat)
    requires n <= |frags| && !AllTight(frags, n)
    ensures j < n && AllTight(frags, j) && !AllTight(frags, j + 1)
  {
    if AllTight(frags, n - 1) {
      j := n - 1;
    } else {
      j := FirstLoose(frags, n - 1);
    }
  }

  lemma WantedLength(v: Voice, s: State, cat: string, custom: seq<string>, cat': string, custom': seq<string>)
    ensures Wanted(v, s, cat, custom) == Wanted(v, s, cat', custom') ==> |custom| == |custom'|
  {
    hide NeedsProsody, ProsodyTag, ContextTag, StartTagText, Base;
  }

  lemma StandsInOneLength(v: Voice, frags: seq<Frag>, k: nat, custom: seq<string>, custom': seq<string>)
    requires k < |frags| && StandsIn(v, frags, k, custom) && StandsIn(v, frags, k, custom')
    ensures |custom| == |custom'|
  {
    hide Read, BuildTo, BeforeContent, Compile, Wanted, IsCategoryOf, WantsSayAs;
    var s := frags[k].state;
    var open := Read(START, BeforeContent(v, frags[k], BuildTo(v, frags, k)).ssml).open;
    var cat :| open == Wanted(v, s, cat, custom);
    var cat' :| open == Wanted(v, s, cat', custom');
    WantedLength(v, s, cat, custom, cat', custom');
  }

  // ----- main result

  /**
   At every fragment a reader has open exactly the fragment's own elements around exactly the tags that the client has
   open, if and only if every end tag of the client (the last fragment aside) meets a tag that is not written `<name>`
   with blanks behind it.
   */
  lemma FragmentsStandAsMeantIff(v: Voice, frags: seq<Frag>)
    requires Readable(v, frags) && !v.isEdge && frags != []
    ensures (forall k :: 0 <= k < |frags| ==> StandsIn(v, frags, k, ClientOpen(frags, k))) <==>
      AllTight(frags, |frags| - 1)
  {
    hide RawOk, ValuesQuotable, StandsIn, AllTight, TagList, ClientOpen;
    if AllTight(frags, |frags| - 1) {
      forall k | 0 <= k < |frags|
        ensures StandsIn(v, frags, k, ClientOpen(frags, k))
      {
        TightPrefix(frags, |frags| - 1, k);
        ListsAgree(v, frags, k);
        ContentStandsInItsElements(v, frags, k);
      }
    } else {
      var j := FirstLoose(frags, |frags| - 1);
      ListsPart(v, frags, j);
      ContentStandsInItsElements(v, frags, j + 1);
      if StandsIn(v, frags, j + 1, ClientOpen(frags, j + 1)) {
        StandsInOneLength(v, frags, j + 1, TagList(v, frags, j + 1), ClientOpen(frags, j + 1));
      }
    }
  }

  lemma TightPrefix(frags: seq<Frag>, n: nat, k: nat)
    requires k <= n <= |frags| && AllTight(frags, n)
    ensures AllTight(frags, k)
  {
    hide MeetsTightTag, ClientOpen;
  }

  /** `<b> ` and `</b>`: the client has closed its element, but whatever follows is still inside it. */
  lemma EndTagIsIgnored(v: Voice, open: Frag, close: Frag, f: Frag)
    requires Readable(v, [open, close, f]) && !v.isEdge
    requires open.state.action.ParseUnknownTag? && open.text == "<b> "
    requires close.state.action.ParseUnknownTag? && close.text == "</b>"
    ensures var frags := [open, close, f];
      ClientOpen(frags, 2) == [] && TagList(v, frags, 2) == ["<b> "] &&
      StandsIn(v, frags, 2, ["<b> "]) && !StandsIn(v, frags, 2, [])
  {
    hide Readable, StandsIn, TagOf, TrimTag, IsXMLClosingTag, IsXMLSelfClosingTag, GetXMLClosingTagName, GetXMLTagName;
    var frags := [open, close, f];
    BoldTags();
    SameName("b");
    StartTagHelpers("<b>");
    EndTagHelpers("</b>");
    UntrimmedName("<b> ");
    assert TagList(v, frags, 0) == [] && TagList(v, frags, 1) == [] + ["<b> "];
    assert ClientOpen(frags, 0) == [] && ClientOpen(frags, 1) == [] + ["<b> "];
    assert ElementName("<b> ") == "b";
    BracketIsNoName("b", "b");
    assert FindOpen(["<b> "], "b") == -1 && Innermost(["<b> "], "b") == 0;
    assert ["<b> "][..0] == [];
    ContentStandsInItsElements(v, frags, 2);
    if StandsIn(v, frags, 2, []) {
      StandsInOneLength(v, frags, 2, ["<b> "], []);
    }
  }

  lemma BoldTags()
    ensures TrimTag("<b> ") == "<b>" && TagOf("<b>") == Some(StartTag("b")) && IsSapiTag("<b> ")
    ensures TrimTag("</b>") == "</b>" && TagOf("</b>") == Some(EndTag("b"))
  {
    StartTagOf("b", []);
    assert StartTagText("b", []) == "<b>";
    EndTagOf("b");
    assert EndTagText("b") == "</b>";
    SingleTag("</b>");
    BlankBehind("<b>");
    assert "<b>" + " " == "<b> ";
  }

  lemma BlankBehind(t: string)
    requires TagOf(t).Some?
    ensures TrimTag(t + " ") == t && IsSapiTag(t + " ")
  {
    hide TagAll, Finished;
    var text := t + " ";
    assert FindChar(text, '<', 0, |text|) == 0;
    assert text[0..] == text;
    assert Front(text) == t && Last(text) == ' ' && Last(t) == '>';
    assert text[..|t|] == t;
  }
}
