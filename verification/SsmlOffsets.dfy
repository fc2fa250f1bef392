/** The offset pairs that BuildSSML records, and what MapTextOffset makes of them. */
module SsmlOffsets {
  import opened Strings
  import opened Ssml
  import opened OffsetSearch
  import opened OffsetExactness

  /** Every source position fits in a ULONG. */
  predicate SourceFits(frags: seq<Frag>) {
    forall i :: 0 <= i < |frags| ==> frags[i].src + |frags[i].text| < TWO_32
  }

  /** Fragments come in source order and do not overlap. */
  predicate SourceOrdered(frags: seq<Frag>) {
    forall i, j :: 0 <= i < j < |frags| ==> frags[i].src + |frags[i].text| <= frags[j].src
  }

  /** `c` extends `b`: its new pairs are sorted and lie within the newly written part. */
  predicate Grows(b: Build, c: Build) {
    b.ssml <= c.ssml && b.maps <= c.maps &&
    (|c.ssml| < TWO_32 ==> NewPairsWithin(c.maps, |b.maps|, |b.ssml|, |c.ssml|))
  }

  predicate NewPairsWithin(maps: seq<Mapping>, from: nat, lo: nat, hi: nat) {
    (forall i :: from <= i < |maps| ==> lo <= maps[i].ssml <= hi) &&
    forall i, j :: from <= i <= j < |maps| ==> maps[i].ssml <= maps[j].ssml
  }

  lemma GrowsTrans(b: Build, c: Build, d: Build)
    requires Grows(b, c) && Grows(c, d)
    ensures Grows(b, d)
  {
    assert b.maps == c.maps[..|b.maps|] && c.maps == d.maps[..|c.maps|];
    if |d.ssml| < TWO_32 {
      forall i | |b.maps| <= i < |c.maps|
        ensures d.maps[i] == c.maps[i]
      {
      }
      forall i, j | |b.maps| <= i <= j < |d.maps|
        ensures d.maps[i].ssml <= d.maps[j].ssml
      {
        if i < |c.maps| <= j {
          assert d.maps[i].ssml <= |c.ssml| <= d.maps[j].ssml;
        }
      }
    }
  }

  lemma EmitGrows(b: Build, s: string)
    ensures Grows(b, Emit(b, s))
  {
  }

  lemma MapGrows(b: Build, sapi: nat)
    ensures Grows(b, Map(b, sapi))
  {
  }

  lemma {:induction false} EscapeMapsWithin(src: nat, t: string, start: nat)
    requires start + |Escape(t)| < TWO_32
    ensures NewPairsWithin(EscapeMaps(src, t, start), 0, start, start + |Escape(t)|)
  {
    if t != [] {
      hide EscapeChar;
      EscapeMapsWithin(src, Front(t), start);
      EscapeLonger(t);
    }
  }

  lemma EscapeLonger(t: string)
    requires t != []
    ensures |Escape(Front(t))| < |Escape(t)|
  {
  }

  lemma TextGrows(b: Build, f: Frag)
    ensures Grows(b, EmitText(b, f))
  {
    var t, c := UpToNul(f.text), EmitText(b, f);
    if |c.ssml| < TWO_32 {
      EscapeMapsWithin(f.src, t, |b.ssml|);
      AppendedWithin(b.maps, EscapeMaps(f.src, t, |b.ssml|), |b.ssml|, |c.ssml|);
    }
    hide Escape, EscapeMaps, UpToNul;
  }

  lemma AppendedWithin(maps: seq<Mapping>, more: seq<Mapping>, lo: nat, hi: nat)
    requires NewPairsWithin(more, 0, lo, hi)
    ensures NewPairsWithin(maps + more, |maps|, lo, hi)
  {
    var all := maps + more;
    assert forall i :: |maps| <= i < |all| ==> all[i] == more[i - |maps|];
  }

  lemma MappedGrows(b: Build, f: Frag)
    ensures Grows(b, EmitMapped(b, f))
  {
    hide Grows;
    var c := Map(b, f.src);
    MapGrows(b, f.src);
    TextGrows(c, f);
    GrowsTrans(b, c, EmitText(c, f));
    MapGrows(EmitText(c, f), f.src + |f.text|);
    GrowsTrans(b, EmitText(c, f), EmitMapped(b, f));
  }

  lemma SpokenGrows(v: Voice, f: Frag, b: Build)
    ensures Grows(b, EmitSpoken(v, f, b))
  {
    var spaced := if b.ssml != [] && NeedAddingSpace(v, b.ssml, f.text) then Emit(b, " ") else b;
    EmitGrows(b, " ");
    MappedGrows(spaced, f);
    GrowsTrans(b, spaced, EmitMapped(spaced, f));
  }

  lemma WrappedGrows(b: Build, f: Frag, open: string, close: string)
    ensures Grows(b, Emit(EmitMapped(Emit(b, open), f), close))
  {
    hide Grows, EmitMapped;
    var c := Emit(b, open);
    EmitGrows(b, open);
    MappedGrows(c, f);
    GrowsTrans(b, c, EmitMapped(c, f));
    EmitGrows(EmitMapped(c, f), close);
    GrowsTrans(b, EmitMapped(c, f), Emit(EmitMapped(c, f), close));
  }

  lemma BookmarkGrows(b: Build, f: Frag, open: string, close: string)
    ensures Grows(b, Emit(EmitText(Emit(b, open), f), close))
  {
    hide Grows, EmitText;
    var c := Emit(b, open);
    EmitGrows(b, open);
    TextGrows(c, f);
    GrowsTrans(b, c, EmitText(c, f));
    EmitGrows(EmitText(c, f), close);
    GrowsTrans(b, EmitText(c, f), Emit(EmitText(c, f), close));
  }

  lemma RawGrows(text: string, b: Build)
    ensures Grows(b, RawTag(text, b))
  {
    hide TrimTag, IsXMLClosingTag, IsXMLSelfClosingTag, GetXMLClosingTagName, CloseAll, FindOpen, Grows;
    var tag := TrimTag(text);
    EmitGrows(b, text);
    if !IsXMLSelfClosingTag(tag) && IsXMLClosingTag(tag) {
      var k := FindOpen(b.custom, GetXMLClosingTagName(tag));
      if k >= 0 {
        var c := Emit(b, CloseAll(b.custom[k + 1..]));
        EmitGrows(b, CloseAll(b.custom[k + 1..]));
        EmitGrows(c, text);
        GrowsTrans(b, c, Emit(c, text));
        SameTextGrows(b, Emit(c, text), RawTag(text, b));
      } else {
        SelfGrows(b);
      }
    } else {
      SelfGrows(b);
      SameTextGrows(b, if IsXMLSelfClosingTag(tag) || |text| >= 3 then Emit(b, text) else b, RawTag(text, b));
    }
  }

  lemma SameTextGrows(b: Build, c: Build, d: Build)
    requires Grows(b, c) && c.ssml == d.ssml && c.maps == d.maps
    ensures Grows(b, d)
  {
  }

  lemma SelfGrows(b: Build)
    ensures Grows(b, b)
  {
  }

  lemma EdgeContentGrows(v: Voice, f: Frag, b: Build)
    ensures Grows(b, EdgeContent(v, f, b))
  {
    hide Grows, EmitSpoken, Map;
    SpokenGrows(v, f, b);
    MapGrows(b, b.lastSapi);
    SelfGrows(b);
    var c := if IsSpeakable(f) then EmitSpoken(v, f, b) else if f.state.action.Bookmark? then Map(b, b.lastSapi) else b;
    SameTextGrows(b, c, EdgeContent(v, f, b));
  }

  lemma FullContentGrows(v: Voice, f: Frag, b: Build)
    ensures Grows(b, FullContent(v, f, b))
  {
    hide Grows, EmitSpoken, EmitMapped, EmitText, RawTag, CharactersTag, PhonemeTag, BreakTag, EndTagText, Emit;
    match f.state.action
    case Speak => SpokenGrows(v, f, b);
    case Silence => EmitGrows(b, BreakTag(f.state));
    case Bookmark =>
      BookmarkGrows(b, f, "<bookmark mark='", "'/>");
      SameTextGrows(b, Emit(EmitText(Emit(b, "<bookmark mark='"), f), "'/>"), FullContent(v, f, b));
    case SpellOut => WrappedGrows(b, f, CharactersTag(), EndTagText("say-as"));
    case Pronounce => WrappedGrows(b, f, PhonemeTag(v, f.state), EndTagText("phoneme"));
    case ParseUnknownTag => RawGrows(f.text, b);
    case Section => SelfGrows(b);
  }

  lemma ContentGrows(v: Voice, f: Frag, b: Build)
    ensures Grows(b, EmitContent(v, f, b))
  {
    hide Grows, EdgeContent, FullContent;
    EdgeContentGrows(v, f, b);
    FullContentGrows(v, f, b);
  }

  /** Opening and closing tags record no pairs. */
  predicate OnlyWrites(b: Build, c: Build) {
    b.ssml <= c.ssml && b.maps == c.maps && b.lastSapi == c.lastSapi
  }

  lemma OpenOnlyWrites(v: Voice, f: Frag, b: Build)
    ensures OnlyWrites(b, BeforeContent(v, f, b))
  {
    hide ProsodyTag, ContextTag, OpenAll, NeedsProsody, StartTagText;
    var b0 := NoteText(f, b);
    var b1 := OpenProsody(v, f, b0);
    assert OnlyWrites(b, b1);
    var b2 := OpenEmphasis(v, f, b1);
    assert OnlyWrites(b1, b2);
    var b3 := ReopenCustom(b2);
    assert OnlyWrites(b2, b3);
    var b4 := OpenSayAs(v, f, b3);
    assert OnlyWrites(b3, b4);
    PrefixTrans(b.ssml, b1.ssml, b2.ssml);
    PrefixTrans(b.ssml, b2.ssml, b3.ssml);
    PrefixTrans(b.ssml, b3.ssml, b4.ssml);
  }

  lemma CloseOnlyWrites(level: nat, b: Build)
    ensures OnlyWrites(b, CloseTags(level, b))
  {
    hide CloseAll, EndTagText;
    var b1 := CloseSayAs(level, b);
    assert OnlyWrites(b, b1);
    var b2 := CloseCustom(level, b1);
    assert OnlyWrites(b1, b2);
    var b3 := CloseEmphasis(level, b2);
    assert OnlyWrites(b2, b3);
    var b4 := CloseProsody(level, b3);
    assert OnlyWrites(b3, b4);
    PrefixTrans(b.ssml, b1.ssml, b2.ssml);
    PrefixTrans(b.ssml, b2.ssml, b3.ssml);
    PrefixTrans(b.ssml, b3.ssml, b4.ssml);
  }

  lemma PrefixTrans(s: string, t: string, u: string)
    requires s <= t <= u
    ensures s <= u
  {
  }

  lemma OnlyWritesGrows(b: Build, c: Build)
    requires OnlyWrites(b, c)
    ensures Grows(b, c)
  {
  }

  lemma StepGrows(v: Voice, frags: seq<Frag>, i: nat, b: Build)
    requires i < |frags|
    ensures Grows(b, Step(v, frags, i, b))
  {
    hide Grows, BeforeContent, EmitContent, CloseTags, LevelAfter;
    var c, d := BeforeContent(v, frags[i], b), AfterContent(v, frags[i], b);
    OpenOnlyWrites(v, frags[i], b);
    OnlyWritesGrows(b, c);
    ContentGrows(v, frags[i], c);
    GrowsTrans(b, c, d);
    var level := LevelAfter(v, frags, i, d.prosodyCount);
    CloseOnlyWrites(level, d);
    OnlyWritesGrows(d, CloseTags(level, d));
    GrowsTrans(b, d, CloseTags(level, d));
  }

  lemma {:induction false} BuildGrows(v: Voice, frags: seq<Frag>, i: nat, j: nat)
    requires i <= j <= |frags|
    ensures Grows(BuildTo(v, frags, i), BuildTo(v, frags, j))
    decreases j - i
  {
    hide Step, Grows;
    var b := BuildTo(v, frags, i);
    if i == j {
      OnlyWritesGrows(b, b);
    } else {
      BuildGrows(v, frags, i, j - 1);
      StepGrows(v, frags, j - 1, BuildTo(v, frags, j - 1));
      GrowsTrans(b, BuildTo(v, frags, j - 1), BuildTo(v, frags, j));
    }
  }

  lemma FinishOnlyWrites(v: Voice, b: Build)
    ensures OnlyWrites(b, Finish(v, b))
  {
  }

  lemma CompileGrows(v: Voice, frags: seq<Frag>, i: nat)
    requires i <= |frags|
    ensures Grows(BuildTo(v, frags, i), Compile(v, frags))
  {
    hide Finish, Grows, BuildTo;
    var b := BuildTo(v, frags, |frags|);
    BuildGrows(v, frags, i, |frags|);
    FinishOnlyWrites(v, b);
    OnlyWritesGrows(b, Finish(v, b));
    GrowsTrans(BuildTo(v, frags, i), b, Finish(v, b));
  }

  /** The pairs always go from low to high SSML offset, which is what the cursor of MapTextOffset relies on. */
  lemma MappingsAreSorted(v: Voice, frags: seq<Frag>)
    requires |Compile(v, frags).ssml| < TWO_32
    ensures Sorted(Compile(v, frags).maps)
  {
    CompileGrows(v, frags, 0);
    assert BuildTo(v, frags, 0).maps == [] by {
      hide Step;
    }
  }

  // ----- where a fragment's text stands

  /** What is written between the opened tags and the text of a spoken fragment. */
  function Lead(v: Voice, f: Frag, c: Build): string {
    if v.isEdge || f.state.action.Speak? then if c.ssml != [] && NeedAddingSpace(v, c.ssml, f.text) then " " else []
    else if f.state.action.SpellOut? then CharactersTag()
    else PhonemeTag(v, f.state)
  }

  function Trail(v: Voice, f: Frag): string {
    if v.isEdge || f.state.action.Speak? then []
    else if f.state.action.SpellOut? then EndTagText("say-as")
    else EndTagText("phoneme")
  }

  /** The SSML position of the first character of fragment `k`'s text. */
  function TextStart(v: Voice, frags: seq<Frag>, k: nat): nat
    requires k < |frags|
  {
    var c := BeforeContent(v, frags[k], BuildTo(v, frags, k));
    |c.ssml| + |Lead(v, frags[k], c)|
  }

  /** A fragment that is spoken and holds no NUL. */
  predicate IsSpokenText(f: Frag) {
    IsSpeakable(f) && UpToNul(f.text) == f.text
  }

  /** The pairs of a spoken fragment whose text begins at `start`; the text is copied up to its first NUL. */
  function PairsOf(f: Frag, start: nat): seq<Mapping> {
    [Mapping(U32(f.src), U32(start))] + EscapeMaps(f.src, UpToNul(f.text), start) +
    [Mapping(U32(f.src + |f.text|), U32(start + |Escape(UpToNul(f.text))|))]
  }

  lemma MappedContent(b: Build, f: Frag)
    ensures EmitMapped(b, f).ssml == b.ssml + Escape(UpToNul(f.text))
    ensures EmitMapped(b, f).maps == b.maps + PairsOf(f, |b.ssml|)
  {
    hide Escape, EscapeMaps, UpToNul;
  }

  lemma SpeakableContent(v: Voice, f: Frag, c: Build)
    requires IsSpeakable(f)
    ensures var d, start := EmitContent(v, f, c), |c.ssml| + |Lead(v, f, c)|;
      d.ssml == c.ssml + Lead(v, f, c) + Escape(UpToNul(f.text)) + Trail(v, f) && d.maps == c.maps + PairsOf(f, start)
  {
    hide Escape, EscapeMaps, UpToNul, PairsOf, CharactersTag, PhonemeTag, EndTagText, EmitMapped, NeedAddingSpace;
    var b := Emit(c, Lead(v, f, c));
    assert c.ssml + [] == c.ssml;
    MappedContent(b, f);
    assert EmitMapped(b, f).ssml + [] == EmitMapped(b, f).ssml;
  }

  lemma SpokenContent(v: Voice, f: Frag, c: Build)
    requires IsSpokenText(f)
    ensures var d := EmitContent(v, f, c); var start := |c.ssml| + |Lead(v, f, c)|;
      d.ssml == c.ssml + Lead(v, f, c) + Escape(f.text) + Trail(v, f) && d.maps == c.maps + Group(f.src, f.text, start)
  {
    hide Escape, EscapeMaps, UpToNul, EmitContent, Lead, Trail;
    SpeakableContent(v, f, c);
  }

  /** The conditions on sizes: source positions and the document fit in a ULONG. */
  predicate SizesFit(v: Voice, frags: seq<Frag>) {
    SourceFits(frags) && |Compile(v, frags).ssml| < TWO_32
  }

  /** The pairs after fragment `k`'s own. */
  function Post(v: Voice, frags: seq<Frag>, k: nat): seq<Mapping>
    requires k < |frags|
  {
    var n := |BuildTo(v, frags, k).maps| + |Group(frags[k].src, frags[k].text, TextStart(v, frags, k))|;
    var maps := Compile(v, frags).maps;
    if n <= |maps| then maps[n..] else []
  }

  /** Fragment `k` and its pairs within those of the whole document. */
  function SiteOf(v: Voice, frags: seq<Frag>, k: nat): Site
    requires k < |frags|
  {
    Site(Compile(v, frags).maps, BuildTo(v, frags, k).maps, frags[k].src, frags[k].text, TextStart(v, frags, k),
      Post(v, frags, k))
  }

  lemma PrefixSlice<T>(a: seq<T>, b: seq<T>, i: nat, j: nat)
    requires a <= b && i <= j <= |a|
    ensures a[i..j] == b[i..j]
  {
    assert a == b[..|a|];
  }

  /** The state after fragment `k` extends what its content wrote. */
  lemma AfterGrows(v: Voice, frags: seq<Frag>, k: nat)
    requires k < |frags|
    ensures Grows(AfterContent(v, frags[k], BuildTo(v, frags, k)), Compile(v, frags))
  {
    hide Grows, BeforeContent, EmitContent, CloseTags, LevelAfter, Compile, OnlyWrites;
    var b := BuildTo(v, frags, k);
    var d := AfterContent(v, frags[k], b);
    var level := LevelAfter(v, frags, k, d.prosodyCount);
    CloseOnlyWrites(level, d);
    OnlyWritesGrows(d, CloseTags(level, d));
    CompileGrows(v, frags, k + 1);
    assert BuildTo(v, frags, k + 1) == CloseTags(level, d);
    GrowsTrans(d, CloseTags(level, d), Compile(v, frags));
  }

  /** Escaped text stands in the document where TextStart says, and its pairs stand in place. */
  lemma TextIsPlaced(v: Voice, frags: seq<Frag>, k: nat)
    requires k < |frags| && IsSpokenText(frags[k]) && SizesFit(v, frags)
    ensures var f, start, doc := frags[k], TextStart(v, frags, k), Compile(v, frags);
      start + |Escape(f.text)| <= |doc.ssml| && doc.ssml[start..start + |Escape(f.text)|] == Escape(f.text) &&
      Placed(SiteOf(v, frags, k))
  {
    hide Escape, EscapeMaps, BuildTo, BeforeContent, EmitContent, Lead, Trail, Compile, Grows, Group;
    var f, b := frags[k], BuildTo(v, frags, k);
    var c, d, doc := BeforeContent(v, f, b), AfterContent(v, f, b), Compile(v, frags);
    var start, e := TextStart(v, frags, k), Escape(f.text);
    AfterGrows(v, frags, k);
    OpenOnlyWrites(v, f, b);
    CompileGrows(v, frags, k);
    MappingsAreSorted(v, frags);
    SpokenContent(v, f, c);
    GrowsPrefix(b, doc);
    assert d.ssml[start..start + |e|] == e;
    GrowsPrefix(d, doc);
    PrefixSlice(d.ssml, doc.ssml, start, start + |e|);
    PlacedFrom(v, b, d, doc, f, start);
  }

  lemma GrowsPrefix(b: Build, c: Build)
    requires Grows(b, c)
    ensures b.ssml <= c.ssml && b.maps <= c.maps
  {
  }

  lemma PlacedFrom(v: Voice, b: Build, d: Build, doc: Build, f: Frag, start: nat)
    requires |b.ssml| <= start && Fits(f.src, f.text, start) && start + |Escape(f.text)| <= |d.ssml|
    requires d.maps == b.maps + Group(f.src, f.text, start)
    requires Grows(d, doc) && Sorted(doc.maps) && |doc.ssml| < TWO_32
    ensures |d.maps| <= |doc.maps| && Placed(Site(doc.maps, b.maps, f.src, f.text, start, doc.maps[|d.maps|..]))
  {
    hide Escape, EscapeMaps, Group;
    var post := doc.maps[|d.maps|..];
    assert doc.maps == d.maps + post;
    forall i | 0 <= i < |post|
      ensures start + |Escape(f.text)| <= post[i].ssml
    {
      assert post[i] == doc.maps[|d.maps| + i];
    }
  }

  // ----- source order

  /** The new pairs of `c` point into [lo, hi], in order. */
  predicate NewSapi(b: Build, c: Build, lo: nat, hi: nat) {
    b.maps <= c.maps && SapiWithin(c.maps, |b.maps|, lo, hi)
  }

  predicate SapiWithin(maps: seq<Mapping>, from: nat, lo: nat, hi: nat) {
    (forall i :: from <= i < |maps| ==> lo <= maps[i].sapi <= hi) &&
    forall i, j :: from <= i <= j < |maps| ==> maps[i].sapi <= maps[j].sapi
  }

  lemma {:induction false} EscapeMapsSapi(src: nat, t: string, start: nat)
    requires src + |t| < TWO_32
    ensures SapiWithin(EscapeMaps(src, t, start), 0, src, src + |t|)
  {
    if t != [] {
      EscapeMapsSapi(src, Front(t), start);
    }
  }

  lemma TextSapi(b: Build, f: Frag)
    requires f.src + |f.text| < TWO_32
    ensures NewSapi(b, EmitText(b, f), f.src, f.src + |f.text|)
  {
    var t := UpToNul(f.text);
    EscapeMapsSapi(f.src, t, |b.ssml|);
    var e, c := EscapeMaps(f.src, t, |b.ssml|), EmitText(b, f);
    forall i | |b.maps| <= i < |c.maps|
      ensures c.maps[i] == e[i - |b.maps|]
    {
    }
  }

  lemma MappedSapi(b: Build, f: Frag)
    requires f.src + |f.text| < TWO_32
    ensures NewSapi(b, EmitMapped(b, f), f.src, f.src + |f.text|)
  {
    TextSapi(Map(b, f.src), f);
  }

  lemma SpokenSapi(v: Voice, f: Frag, b: Build)
    requires f.src + |f.text| < TWO_32
    ensures NewSapi(b, EmitSpoken(v, f, b), f.src, f.src + |f.text|)
  {
    hide EmitMapped, NeedAddingSpace;
    MappedSapi(b, f);
    MappedSapi(Emit(b, " "), f);
  }

  lemma EdgeContentSapi(v: Voice, f: Frag, b: Build)
    requires f.src + |f.text| < TWO_32 && b.lastSapi <= f.src
    ensures var c := EdgeContent(v, f, b);
      NewSapi(b, c, b.lastSapi, c.lastSapi) &&
      b.lastSapi <= c.lastSapi <= f.src + |f.text|
  {
    hide EmitSpoken;
    SpokenSapi(v, f, b);
  }

  lemma FullContentSapi(v: Voice, f: Frag, b: Build)
    requires f.src + |f.text| < TWO_32
    ensures NewSapi(b, FullContent(v, f, b), f.src, f.src + |f.text|)
  {
    hide EmitSpoken, EmitMapped, EmitText, RawTag, CharactersTag, PhonemeTag, BreakTag, EndTagText;
    match f.state.action
    case Speak => SpokenSapi(v, f, b);
    case Silence =>
    case Bookmark => TextSapi(Emit(b, "<bookmark mark='"), f);
    case SpellOut => MappedSapi(Emit(b, CharactersTag()), f);
    case Pronounce => MappedSapi(Emit(b, PhonemeTag(v, f.state)), f);
    case ParseUnknownTag => RawSapi(f.text, b);
    case Section =>
  }

  lemma RawSapi(text: string, b: Build)
    ensures RawTag(text, b).maps == b.maps
  {
    hide TrimTag, IsXMLClosingTag, IsXMLSelfClosingTag, GetXMLClosingTagName, CloseAll, FindOpen;
  }

  /** How far into the source the pairs recorded before fragment `i` may point. */
  function Reach(v: Voice, frags: seq<Frag>, i: nat, b: Build): nat
    requires i <= |frags|
  {
    if v.isEdge then b.lastSapi else if i == 0 then 0 else frags[i - 1].src + |frags[i - 1].text|
  }

  predicate SapiUpTo(maps: seq<Mapping>, hi: nat) {
    SapiSorted(maps) && forall i :: 0 <= i < |maps| ==> maps[i].sapi <= hi
  }

  lemma SapiExtends(b: Build, c: Build, mid: nat, hi: nat)
    requires SapiUpTo(b.maps, mid) && NewSapi(b, c, mid, hi) && mid <= hi
    ensures SapiUpTo(c.maps, hi)
  {
    assert b.maps == c.maps[..|b.maps|];
    forall i, j | 0 <= i <= j < |c.maps|
      ensures c.maps[i].sapi <= c.maps[j].sapi
    {
      if j < |b.maps| {
        assert c.maps[i] == b.maps[i] && c.maps[j] == b.maps[j];
      } else if i < |b.maps| {
        assert c.maps[i] == b.maps[i];
      }
    }
  }

  lemma NewSapiWider(b: Build, c: Build, lo: nat, lo': nat, hi: nat)
    requires NewSapi(b, c, lo, hi) && lo' <= lo
    ensures NewSapi(b, c, lo', hi)
  {
  }

  predicate ReachBefore(v: Voice, frags: seq<Frag>, i: nat, b: Build)
    requires i <= |frags|
  {
    SapiUpTo(b.maps, Reach(v, frags, i, b)) && forall j :: i <= j < |frags| ==> Reach(v, frags, i, b) <= frags[j].src
  }

  lemma StepSapi(v: Voice, frags: seq<Frag>, i: nat, b: Build)
    requires i < |frags| && SourceFits(frags) && SourceOrdered(frags) && ReachBefore(v, frags, i, b)
    ensures ReachBefore(v, frags, i + 1, Step(v, frags, i, b))
  {
    hide BeforeContent, EdgeContent, FullContent, CloseTags, LevelAfter;
    var f := frags[i];
    var c, d := BeforeContent(v, f, b), AfterContent(v, f, b);
    OpenOnlyWrites(v, f, b);
    CloseOnlyWrites(LevelAfter(v, frags, i, d.prosodyCount), d);
    if v.isEdge {
      EdgeContentSapi(v, f, c);
      SapiExtends(c, d, c.lastSapi, d.lastSapi);
    } else {
      FullContentSapi(v, f, c);
      NewSapiWider(c, d, f.src, Reach(v, frags, i, b), f.src + |f.text|);
      SapiExtends(c, d, Reach(v, frags, i, b), f.src + |f.text|);
    }
  }

  lemma {:induction false} BuildSapi(v: Voice, frags: seq<Frag>, i: nat)
    requires i <= |frags| && SourceFits(frags) && SourceOrdered(frags)
    ensures ReachBefore(v, frags, i, BuildTo(v, frags, i))
  {
    hide Step;
    if i > 0 {
      BuildSapi(v, frags, i - 1);
      StepSapi(v, frags, i - 1, BuildTo(v, frags, i - 1));
    }
  }

  /** For fragments in source order the pairs are sorted on the source side too. */
  lemma MappingsFollowSource(v: Voice, frags: seq<Frag>)
    requires SourceFits(frags) && SourceOrdered(frags)
    ensures SapiSorted(Compile(v, frags).maps)
  {
    hide BuildTo;
    BuildSapi(v, frags, |frags|);
  }

  // ----- main results

  /**
   The position of every character of every spoken fragment maps back to exactly its source offset, whatever was escaped
   before it and wherever earlier calls left the cursor. `p` really is that character's position in the document.
   */
  lemma CharactersMapBack(v: Voice, frags: seq<Frag>, k: nat, j: nat, len: nat)
    requires k < |frags| && IsSpokenText(frags[k]) && j < |frags[k].text| && SizesFit(v, frags)
    ensures var f, doc, p := frags[k], Compile(v, frags), TextStart(v, frags, k) + Pos(frags[k].text, j);
      p + |EscapeChar(f.text[j])| <= |doc.ssml| && doc.ssml[p..p + |EscapeChar(f.text[j])|] == EscapeChar(f.text[j]) &&
      MapRange(doc.maps, p, len).0 == f.src + j
  {
    hide Escape, EscapeChar, EscapeMaps, Group, Compile, TextStart, Post, MapLength, WalkForward, Shift, Serving,
      Placed, BuildTo;
    var f, doc, start := frags[k], Compile(v, frags), TextStart(v, frags, k);
    TextIsPlaced(v, frags, k);
    CharacterIsExact(SiteOf(v, frags, k), j);
    PlacedNonEmpty(SiteOf(v, frags, k));
    EscapeAt(f.text, j);
    SliceOfSlice(doc.ssml, start, |Escape(f.text)|, Pos(f.text, j), |EscapeChar(f.text[j])|);
  }

  lemma PlacedNonEmpty(t: Site)
    requires Placed(t)
    ensures t.maps != []
  {
  }

  lemma SliceOfSlice<T>(s: seq<T>, start: nat, len: nat, p: nat, n: nat)
    requires start + len <= |s| && p + n <= len
    ensures s[start + p..start + p + n] == s[start..start + len][p..p + n]
  {
    var x, y := s[start + p..start + p + n], s[start..start + len][p..p + n];
    assert forall i :: 0 <= i < n ==> x[i] == y[i];
    assert x == y;
  }

  lemma {:induction false} EscapeAt(t: string, j: nat)
    requires j < |t|
    ensures var p, n := Pos(t, j), |EscapeChar(t[j])|; p + n <= |Escape(t)| && Escape(t)[p..p + n] == EscapeChar(t[j])
  {
    if j == |t| - 1 {
      assert t[..j] == Front(t);
    } else {
      var w := Front(t);
      EscapeAt(w, j);
      assert w[..j] == t[..j];
      PrefixSlice(Escape(w), Escape(t), Pos(t, j), Pos(t, j) + |EscapeChar(t[j])|);
    }
  }

  /** A range that ends before its fragment's end maps to its own length. */
  lemma InnerRangesMapBack(v: Voice, frags: seq<Frag>, k: nat, a: nat, b: nat)
    requires k < |frags| && IsSpokenText(frags[k]) && a <= b < |frags[k].text| && SizesFit(v, frags)
    ensures var f := frags[k];
      MapRange(Compile(v, frags).maps, TextStart(v, frags, k) + Pos(f.text, a), Width(f.text, a, b)) ==
        (f.src + a, b - a)
  {
    hide Escape, EscapeMaps, Group, Compile, TextStart, Post, MapRange, BuildTo;
    TextIsPlaced(v, frags, k);
    InnerRangeIsExact(SiteOf(v, frags, k), a, b);
  }

  /** For fragments in source order, so does a range up to the end that contains no escaped character. */
  lemma PlainTailsMapBack(v: Voice, frags: seq<Frag>, k: nat, a: nat)
    requires k < |frags| && IsSpokenText(frags[k]) && a < |frags[k].text| && SizesFit(v, frags) && SourceOrdered(frags)
    requires forall i :: a <= i < |frags[k].text| ==> !IsEscaped(frags[k].text[i])
    ensures var f := frags[k]; var n := |f.text|;
      MapRange(Compile(v, frags).maps, TextStart(v, frags, k) + Pos(f.text, a), Width(f.text, a, n)) ==
        (f.src + a, n - a)
  {
    hide Escape, EscapeMaps, Group, Compile, TextStart, Post, MapRange, BuildTo;
    TextIsPlaced(v, frags, k);
    MappingsFollowSource(v, frags);
    PlainTailIsExact(SiteOf(v, frags, k), a);
  }
}
