/**
 Which ranges that reach the end of a fragment map back exactly: the condition on the fragments, and an instance where
 it fails. What matters is whether a later fragment's text begins where this one's ends, with nothing written in
 between.
 */
module SsmlSeams {
  import opened Strings
  import opened Ssml
  import opened OffsetSearch
  import opened OffsetExactness
  import opened SsmlFlags
  import opened SsmlOffsets

  // ----- what is open, and what is written between fragments, as functions of the fragments

  datatype Flags = Flags(prosody: bool, emphasis: bool, sayAs: bool)

  /** For Edge voices: whether a prosody element is open before fragment `i`, and how many were opened. */
  function EdgeProsody(v: Voice, frags: seq<Frag>, i: nat): (bool, nat)
    requires i <= |frags|
    decreases i, 0
  {
    if i == 0 then (false, 0)
    else
      var (open, count) := EdgeWithin(v, frags, i - 1);
      (open && LevelAfter(v, frags, i - 1, count) >= 1, count)
  }

  /** The same, where the content of fragment `i` is written. */
  function EdgeWithin(v: Voice, frags: seq<Frag>, i: nat): (bool, nat)
    requires i < |frags|
    decreases i, 1
  {
    var (open, count) := EdgeProsody(v, frags, i);
    if !open && IsSpeakable(frags[i]) && NeedsProsody(v, frags[i].state) then (true, count + 1) else (open, count)
  }

  /** What is open where the content of fragment `i` is written. */
  function Within(v: Voice, frags: seq<Frag>, i: nat): Flags
    requires i < |frags|
  {
    var s := frags[i].state;
    if v.isEdge then Flags(EdgeWithin(v, frags, i).0, false, false)
    else Flags(NeedsProsody(v, s), s.emphAdj != 0, WantsSayAs(s))
  }

  /** How many levels stay open after fragment `i`. */
  function LevelKept(v: Voice, frags: seq<Frag>, i: nat): nat
    requires i < |frags|
  {
    LevelAfter(v, frags, i, if v.isEdge then EdgeWithin(v, frags, i).1 else 0)
  }

  /** Between fragments `i` and `i + 1` no tag is closed and none is opened. */
  predicate SeamIsSilent(v: Voice, frags: seq<Frag>, i: nat)
    requires i + 1 < |frags|
  {
    var p, q, level := Within(v, frags, i), Within(v, frags, i + 1), LevelKept(v, frags, i);
    (p.prosody || q.prosody ==> p.prosody && level >= 1) && (p.emphasis || q.emphasis ==> p.emphasis && level >= 2) &&
    (TagList(v, frags, i + 1) != [] ==> level >= 2) && (p.sayAs || q.sayAs ==> p.sayAs && level >= 3)
  }

  /** Text written without an element around it. */
  predicate IsBare(v: Voice, f: Frag) {
    IsSpeakable(f) && (v.isEdge || f.state.action.Speak?)
  }

  /** The content of `f`, in a document that ends like `before`, is nothing at all. */
  predicate WritesNothing(v: Voice, f: Frag, custom: seq<TagText>, before: string)
    requires before != []
  {
    if IsBare(v, f) then UpToNul(f.text) == [] && !NeedAddingSpace(v, before, f.text)
    else v.isEdge || f.state.action.Section? || (f.state.action.ParseUnknownTag? && RawIsDropped(custom, f.text))
  }

  /** Nothing is written from the end of fragment `k`'s text to where the content of fragment `m` begins. */
  predicate NothingBetween(v: Voice, frags: seq<Frag>, k: nat, m: nat)
    requires k < m < |frags| && Escape(frags[k].text) != []
  {
    IsBare(v, frags[k]) && (forall i :: k <= i < m ==> SeamIsSilent(v, frags, i)) &&
    forall i :: k < i < m ==> WritesNothing(v, frags[i], TagList(v, frags, i), Escape(frags[k].text))
  }

  /** The text of fragment `m` follows that of fragment `k` at once, without markup and without a space. */
  predicate Adjoins(v: Voice, frags: seq<Frag>, k: nat, m: nat)
    requires k < m < |frags| && Escape(frags[k].text) != []
  {
    NothingBetween(v, frags, k, m) && IsBare(v, frags[m]) && !NeedAddingSpace(v, Escape(frags[k].text), frags[m].text)
  }

  // ----- the flags are those of the code

  lemma {:induction false} EdgeFlagsAre(v: Voice, frags: seq<Frag>, i: nat)
    requires i <= |frags| && v.isEdge
    ensures var b := BuildTo(v, frags, i);
      b.prosody == EdgeProsody(v, frags, i).0 && b.prosodyCount == EdgeProsody(v, frags, i).1 && !b.emphasis && !b.sayAs
  {
    hide BeforeContent, EmitContent, CloseTags, LevelAfter, NeedsProsody, AfterRaw, IsSpeakable, SpeakTag, VoiceTag;
    if i > 0 {
      EdgeFlagsAre(v, frags, i - 1);
      var f, b := frags[i - 1], BuildTo(v, frags, i - 1);
      OpenFlags(v, f, b);
      ContentKeepsFlags(v, f, BeforeContent(v, f, b));
      var c := AfterContent(v, f, b);
      CloseFlags(LevelAfter(v, frags, i - 1, c.prosodyCount), c);
    }
  }

  predicate HasFlags(b: Build, p: Flags) {
    b.prosody == p.prosody && b.emphasis == p.emphasis && b.sayAs == p.sayAs && b.inCustom
  }

  lemma WithinIs(v: Voice, frags: seq<Frag>, i: nat)
    requires i < |frags|
    ensures var c := AfterContent(v, frags[i], BuildTo(v, frags, i));
      HasFlags(BeforeContent(v, frags[i], BuildTo(v, frags, i)), Within(v, frags, i)) &&
        HasFlags(c, Within(v, frags, i)) &&
      LevelAfter(v, frags, i, c.prosodyCount) == LevelKept(v, frags, i)
  {
    hide BuildTo, BeforeContent, EmitContent, NeedsProsody, AfterRaw, IsSpeakable, EdgeProsody, NothingExtra,
      SameProsody, SameCategory;
    var f, b := frags[i], BuildTo(v, frags, i);
    OpenFlags(v, f, b);
    ContentKeepsFlags(v, f, BeforeContent(v, f, b));
    if v.isEdge {
      EdgeFlagsAre(v, frags, i);
    } else {
      NothingExtraAt(v, frags, i);
      OpeningCompletes(v, f, b);
    }
  }

  // ----- what is written

  lemma CloseIsSilentIff(level: nat, b: Build)
    requires b.inCustom
    ensures CloseTags(level, b).ssml == b.ssml <==>
      (b.sayAs ==> level >= 3) && (b.custom != [] ==> level >= 2) && (b.emphasis ==> level >= 2) &&
        (b.prosody ==> level >= 1)
  {
    hide EndTagText;
    var b1 := CloseSayAs(level, b);
    EndTagLonger("say-as");
    assert |b1.ssml| >= |b.ssml| && (|b1.ssml| == |b.ssml| <==> (b.sayAs ==> level >= 3));
    var b2 := CloseCustom(level, b1);
    CloseAllLonger(b.custom);
    hide CloseAll;
    assert |b2.ssml| >= |b1.ssml| && (|b2.ssml| == |b1.ssml| <==> (b.custom != [] ==> level >= 2));
    var b3 := CloseEmphasis(level, b2);
    EndTagLonger("emphasis");
    assert |b3.ssml| >= |b2.ssml| && (|b3.ssml| == |b2.ssml| <==> (b.emphasis ==> level >= 2));
    EndTagLonger("prosody");
    CloseOnlyWrites(level, b);
    SameOrLonger(b.ssml, CloseTags(level, b).ssml);
  }

  lemma SameOrLonger(s: string, t: string)
    requires s <= t
    ensures s == t <==> |s| == |t|
  {
    if |s| == |t| {
      assert t[..|s|] == t;
    }
  }

  lemma EndTagLonger(name: string)
    ensures EndTagText(name) != []
  {
  }

  lemma CloseAllLonger(custom: seq<TagText>)
    ensures CloseAll(custom) == [] <==> custom == []
  {
    hide GetXMLTagName;
  }

  lemma OpenAllLonger(custom: seq<TagText>)
    ensures OpenAll(custom) == [] <==> custom == []
  {
  }

  lemma OpenIsSilentIff(v: Voice, f: Frag, b: Build)
    ensures BeforeContent(v, f, b).ssml == b.ssml <==>
      !OpensProsody(v, f, b) && !OpensEmphasis(v, f, b) && (b.inCustom || b.custom == []) && !OpensSayAs(v, f, b)
  {
    hide NeedsProsody, ProsodyTag, ContextTag, StartTagText, IsSpeakable;
    TagsLonger(v, f.state);
    var b0 := NoteText(f, b);
    var b1 := OpenProsody(v, f, b0);
    assert |b1.ssml| >= |b.ssml| && (|b1.ssml| == |b.ssml| <==> !OpensProsody(v, f, b));
    var b2 := OpenEmphasis(v, f, b1);
    assert |b2.ssml| >= |b1.ssml| && (|b2.ssml| == |b1.ssml| <==> !OpensEmphasis(v, f, b));
    var b3 := ReopenCustom(b2);
    OpenAllLonger(b.custom);
    hide OpenAll;
    assert |b3.ssml| >= |b2.ssml| && (|b3.ssml| == |b2.ssml| <==> b.inCustom || b.custom == []);
    OpenOnlyWrites(v, f, b);
    SameOrLonger(b.ssml, BeforeContent(v, f, b).ssml);
  }

  lemma TagsLonger(v: Voice, s: State)
    ensures ProsodyTag(v, s) != [] && StartTagText("emphasis", []) != [] && forall cat :: ContextTag(cat) != []
  {
    hide AttrsText;
  }

  lemma SeamIsSilentIff(v: Voice, frags: seq<Frag>, i: nat)
    requires i + 1 < |frags|
    ensures var c, d := AfterContent(v, frags[i], BuildTo(v, frags, i)),
                        BeforeContent(v, frags[i + 1], BuildTo(v, frags, i + 1));
      c.ssml <= d.ssml && (c.ssml == d.ssml <==> SeamIsSilent(v, frags, i))
  {
    hide AfterContent, BeforeContent, CloseTags, LevelAfter, NeedsProsody, IsSpeakable, Within, LevelKept, TagList;
    var c, b := AfterContent(v, frags[i], BuildTo(v, frags, i)), BuildTo(v, frags, i + 1);
    var level, g := LevelAfter(v, frags, i, c.prosodyCount), frags[i + 1];
    WithinIs(v, frags, i);
    WithinIs(v, frags, i + 1);
    TagListStep(v, frags, i);
    CloseFlags(level, c);
    OpenFlags(v, g, b);
    CloseOnlyWrites(level, c);
    OpenOnlyWrites(v, g, b);
    CloseIsSilentIff(level, c);
    OpenIsSilentIff(v, g, b);
    hide BuildTo, OpensProsody, OpensEmphasis, OpensSayAs;
    var d := BeforeContent(v, g, b);
    PrefixTrans(c.ssml, b.ssml, d.ssml);
    SameOrLonger(c.ssml, b.ssml);
    SameOrLonger(b.ssml, d.ssml);
    SameOrLonger(c.ssml, d.ssml);
  }

  lemma EscapeEmpty(t: string)
    ensures Escape(t) == [] <==> t == []
  {
  }

  lemma SpaceIsSame(v: Voice, before: string, before': string, after: string)
    requires before != [] && before' != [] && Last(before) == Last(before')
    ensures NeedAddingSpace(v, before, after) == NeedAddingSpace(v, before', after)
  {
    hide IsWSpace;
  }

  lemma LeadIsSilentIff(v: Voice, f: Frag, c: Build, before: string)
    requires IsSpeakable(f) && before != [] && c.ssml != [] && Last(c.ssml) == Last(before)
    ensures Lead(v, f, c) == [] <==> IsBare(v, f) && !NeedAddingSpace(v, before, f.text)
    ensures Trail(v, f) == [] <==> IsBare(v, f)
  {
    hide NeedAddingSpace, AttrsText;
    SpaceIsSame(v, before, c.ssml, f.text);
  }

  lemma RawIsSilentIff(text: string, b: Build)
    ensures RawTag(text, b).ssml == b.ssml <==> RawIsDropped(b.custom, text)
  {
    hide TrimTag, GetXMLClosingTagName, FindOpen, CloseAll;
    var tag := TrimTag(text);
    TrimTagShorter(text);
    hide IsXMLClosingTag;
    if IsXMLSelfClosingTag(tag) {
      assert |tag| >= 4;
      assert |b.ssml + text| > |b.ssml|;
    } else if IsXMLClosingTag(tag) {
      assert forall s: string :: |b.ssml + s + text| > |b.ssml|;
    } else if |text| >= 3 {
      assert |b.ssml + text| > |b.ssml|;
    }
  }

  lemma TrimTagShorter(text: string)
    ensures |TrimTag(text)| <= |text| && (IsXMLClosingTag(TrimTag(text)) ==> text != [])
  {
    hide IsWSpace, SkipSpaces;
  }

  lemma FullContentIsSilentIff(v: Voice, f: Frag, c: Build, before: string)
    requires before != [] && c.ssml != [] && Last(c.ssml) == Last(before) && !v.isEdge
    ensures FullContent(v, f, c).ssml == c.ssml <==> WritesNothing(v, f, c.custom, before)
  {
    hide EmitMapped, EmitText, EmitSpoken, RawTag, RawIsDropped, NeedAddingSpace, StartTagText, EmptyTagText,
      EndTagText, Lead, Trail, Escape, UpToNul;
    if IsSpeakable(f) {
      SpeakableContent(v, f, c);
      assert FullContent(v, f, c) == EmitContent(v, f, c);
      LeadIsSilentIff(v, f, c, before);
      EscapeEmpty(UpToNul(f.text));
      PartsAreEmpty(c.ssml, Lead(v, f, c), Escape(UpToNul(f.text)), Trail(v, f));
    } else if f.state.action.ParseUnknownTag? {
      RawIsSilentIff(f.text, c);
    } else if f.state.action.Silence? {
      BreakLonger(f.state);
    } else if f.state.action.Bookmark? {
      BookmarkLonger(c, f);
    }
  }

  lemma PartsAreEmpty(s: string, a: string, b: string, c: string)
    ensures s + a + b + c == s <==> a == [] && b == [] && c == []
  {
    if a == [] && b == [] && c == [] {
      assert s + a + b + c == s;
    } else {
      assert |s + a + b + c| > |s|;
    }
  }

  lemma BreakLonger(s: State)
    ensures BreakTag(s) != []
  {
    hide AttrsText, ToWString;
  }

  lemma BookmarkLonger(c: Build, f: Frag)
    ensures |Emit(EmitText(Emit(c, "<bookmark mark='"), f), "'/>").ssml| > |c.ssml|
  {
    hide Escape, UpToNul;
  }

  lemma ContentIsSilentIff(v: Voice, f: Frag, c: Build, before: string)
    requires before != [] && c.ssml != [] && Last(c.ssml) == Last(before)
    ensures EmitContent(v, f, c).ssml == c.ssml <==> WritesNothing(v, f, c.custom, before)
  {
    hide EmitSpoken, FullContent, RawIsDropped, NeedAddingSpace, Lead, Trail, Escape, UpToNul;
    if !v.isEdge {
      FullContentIsSilentIff(v, f, c, before);
    } else if IsSpeakable(f) {
      SpeakableContent(v, f, c);
      LeadIsSilentIff(v, f, c, before);
      EscapeEmpty(UpToNul(f.text));
      PartsAreEmpty(c.ssml, Lead(v, f, c), Escape(UpToNul(f.text)), Trail(v, f));
    }
  }

  lemma ContentExtends(v: Voice, f: Frag, c: Build)
    ensures c.ssml <= EmitContent(v, f, c).ssml
  {
    hide EmitContent;
    ContentGrows(v, f, c);
  }

  // ----- where the next text begins

  function EndOf(v: Voice, frags: seq<Frag>, k: nat): nat
    requires k < |frags|
  {
    TextStart(v, frags, k) + |Escape(frags[k].text)|
  }

  lemma LastOfEnd(s: string, t: string)
    requires t != []
    ensures s + t != [] && Last(s + t) == Last(t)
  {
  }

  /**
   The document from the start of fragment `m`'s content on: it goes beyond fragment `k`'s text unless nothing was
   written.
   */
  lemma {:induction false} ReachesIff(v: Voice, frags: seq<Frag>, k: nat, m: nat)
    requires k < m < |frags| && IsSpokenText(frags[k]) && Escape(frags[k].text) != []
    ensures var c := BeforeContent(v, frags[m], BuildTo(v, frags, m));
      EndOf(v, frags, k) <= |c.ssml| && (EndOf(v, frags, k) == |c.ssml| <==> NothingBetween(v, frags, k, m)) &&
      (EndOf(v, frags, k) == |c.ssml| ==> Last(c.ssml) == Last(Escape(frags[k].text)))
    decreases m
  {
    hide BuildTo, BeforeContent, EmitContent, SeamIsSilent, WritesNothing, Escape, UpToNul, Lead, Trail, TagList,
      NeedAddingSpace, IsBare;
    var i, e := m - 1, Escape(frags[k].text);
    var c, d := BeforeContent(v, frags[m], BuildTo(v, frags, m)), AfterContent(v, frags[i], BuildTo(v, frags, i));
    SeamIsSilentIff(v, frags, i);
    SameOrLonger(d.ssml, c.ssml);
    if i == k {
      TextAtEnd(v, frags, k);
    } else {
      ReachesIff(v, frags, k, i);
      var c0 := BeforeContent(v, frags[i], BuildTo(v, frags, i));
      ContentExtends(v, frags[i], c0);
      SameOrLonger(c0.ssml, d.ssml);
      TagListStep(v, frags, i);
      if |c0.ssml| == EndOf(v, frags, k) {
        StartIsLonger(v, frags, k);
        ContentIsSilentIff(v, frags[i], c0, e);
      }
    }
  }

  lemma StartIsLonger(v: Voice, frags: seq<Frag>, k: nat)
    requires k < |frags| && Escape(frags[k].text) != []
    ensures EndOf(v, frags, k) > 0
  {
    hide TextStart, Escape;
  }

  /** Directly behind fragment `k`'s own text. */
  lemma TextAtEnd(v: Voice, frags: seq<Frag>, k: nat)
    requires k < |frags| && IsSpokenText(frags[k]) && Escape(frags[k].text) != []
    ensures var d := AfterContent(v, frags[k], BuildTo(v, frags, k));
      EndOf(v, frags, k) <= |d.ssml| && (EndOf(v, frags, k) == |d.ssml| <==> IsBare(v, frags[k])) &&
      (EndOf(v, frags, k) == |d.ssml| ==> Last(d.ssml) == Last(Escape(frags[k].text)))
  {
    hide BuildTo, BeforeContent, EmitContent, Escape, UpToNul, Lead;
    var f, c := frags[k], BeforeContent(v, frags[k], BuildTo(v, frags, k));
    SpokenContent(v, f, c);
    EndTagLonger("say-as");
    EndTagLonger("phoneme");
    LastOfEnd(c.ssml + Lead(v, f, c), Escape(f.text));
    assert Trail(v, f) == [] ==>
      c.ssml + Lead(v, f, c) + Escape(f.text) + [] == c.ssml + Lead(v, f, c) + Escape(f.text);
  }

  /** The text of a later fragment begins where fragment `k`'s text ends exactly when it adjoins it. */
  lemma TouchesIff(v: Voice, frags: seq<Frag>, k: nat, m: nat)
    requires k < m < |frags| && IsSpokenText(frags[k]) && Escape(frags[k].text) != [] && IsSpeakable(frags[m])
    ensures EndOf(v, frags, k) <= TextStart(v, frags, m)
    ensures EndOf(v, frags, k) == TextStart(v, frags, m) <==> Adjoins(v, frags, k, m)
  {
    hide BuildTo, BeforeContent, Escape, UpToNul, Lead, NothingBetween, EndOf, NeedAddingSpace, IsBare;
    var c := BeforeContent(v, frags[m], BuildTo(v, frags, m));
    ReachesIff(v, frags, k, m);
    StartIsLonger(v, frags, k);
    if |c.ssml| == EndOf(v, frags, k) {
      LeadIsSilentIff(v, frags[m], c, Escape(frags[k].text));
    }
  }

  // ----- the pairs at the end of a text

  /** Fragment `m` starts, and if its text is empty ends, where fragment `k` ends in the source. */
  predicate Continues(frags: seq<Frag>, k: nat, m: nat)
    requires k < |frags| && m < |frags|
  {
    frags[m].src == frags[k].src + |frags[k].text| && (UpToNul(frags[m].text) == [] ==> frags[m].text == [])
  }

  /** All pairs from index `from` on that stand at position `end` point to `sapi`. */
  predicate PointTo(maps: seq<Mapping>, from: nat, end: nat, sapi: nat) {
    forall i :: from <= i < |maps| && maps[i].ssml == end ==> maps[i].sapi == sapi
  }

  lemma PointToMore(maps: seq<Mapping>, more: seq<Mapping>, from: nat, end: nat, sapi: nat)
    requires PointTo(maps, from, end, sapi) && PointTo(more, 0, end, sapi)
    ensures PointTo(maps + more, from, end, sapi)
  {
    var all := maps + more;
    assert forall i :: |maps| <= i < |all| ==> all[i] == more[i - |maps|];
  }

  predicate FitsFrag(f: Frag, start: nat) {
    f.src + |f.text| < TWO_32 && start + |Escape(UpToNul(f.text))| < TWO_32
  }

  /** The pairs of a spoken fragment whose text begins at or behind `end`. */
  lemma PairsPoint(f: Frag, start: nat, end: nat, sapi: nat)
    requires end <= start && FitsFrag(f, start)
    requires start == end ==> f.src == sapi && (UpToNul(f.text) == [] ==> f.text == [])
    ensures PointTo(PairsOf(f, start), 0, end, sapi)
    ensures start + |Escape(UpToNul(f.text))| == end ==> f.src + |f.text| == sapi
  {
    var t := UpToNul(f.text);
    EscapeMapsLast(f.src, t, start);
    EscapeEmpty(t);
    hide Escape, UpToNul, EscapeMaps, PairsOf;
    var e, p := EscapeMaps(f.src, t, start), PairsOf(f, start);
    PairsShape(f, start);
    assert forall i :: 0 < i < |p| - 1 ==> p[i].ssml > end;
  }

  lemma PairsShape(f: Frag, start: nat)
    requires FitsFrag(f, start)
    ensures var t, p := UpToNul(f.text), PairsOf(f, start); var e := EscapeMaps(f.src, t, start);
      |p| == |e| + 2 && p[0] == Mapping(f.src, start) && Last(p) == Mapping(f.src + |f.text|, start + |Escape(t)|) &&
      forall i :: 0 < i < |p| - 1 ==> p[i] == e[i - 1]
  {
    hide Escape, UpToNul, EscapeMaps;
  }

  /** If not all is as it should be, some pair at `end` points beyond. */
  lemma PairPointsBeyond(f: Frag, start: nat, sapi: nat) returns (i: nat)
    requires FitsFrag(f, start) && sapi <= f.src
    requires !(f.src == sapi && (UpToNul(f.text) == [] ==> f.text == []))
    ensures i < |PairsOf(f, start)| && PairsOf(f, start)[i].ssml == start && PairsOf(f, start)[i].sapi > sapi
  {
    hide UpToNul, EscapeMaps;
    EscapeEmpty(UpToNul(f.text));
    i := if f.src > sapi then 0 else |PairsOf(f, start)| - 1;
  }

  /** No wrap-around up to fragment `i`. */
  lemma FitsTo(v: Voice, frags: seq<Frag>, i: nat)
    requires i < |frags| && SizesFit(v, frags)
    ensures var d := AfterContent(v, frags[i], BuildTo(v, frags, i));
      |d.ssml| < TWO_32 && |BeforeContent(v, frags[i], BuildTo(v, frags, i)).ssml| <= |d.ssml|
    ensures IsSpeakable(frags[i]) ==> FitsFrag(frags[i], TextStart(v, frags, i))
  {
    hide BuildTo, BeforeContent, EmitContent, Compile, Escape, UpToNul, Lead, Trail;
    var c := BeforeContent(v, frags[i], BuildTo(v, frags, i));
    AfterGrows(v, frags, i);
    ContentExtends(v, frags[i], c);
    if IsSpeakable(frags[i]) {
      SpeakableContent(v, frags[i], c);
    }
  }

  /** What is true of the pairs recorded after fragment `k`, as long as everything that adjoins it continues it. */
  predicate AllPoint(v: Voice, frags: seq<Frag>, k: nat, b: Build)
    requires k < |frags|
  {
    var sapi, end := frags[k].src + |frags[k].text|, EndOf(v, frags, k);
    PointTo(b.maps, |AfterContent(v, frags[k], BuildTo(v, frags, k)).maps|, end, sapi) &&
    (v.isEdge && |b.ssml| == end ==> b.lastSapi == sapi)
  }

  lemma ContentPoints(v: Voice, frags: seq<Frag>, k: nat, i: nat, c: Build)
    requires k < i < |frags| && SizesFit(v, frags) && c == BeforeContent(v, frags[i], BuildTo(v, frags, i))
    requires EndOf(v, frags, k) <= |c.ssml| && AllPoint(v, frags, k, c)
    requires IsSpeakable(frags[i]) && TextStart(v, frags, i) == EndOf(v, frags, k) ==> Continues(frags, k, i)
    ensures AllPoint(v, frags, k, EmitContent(v, frags[i], c))
  {
    hide BuildTo, BeforeContent, EmitContent, Compile, Escape, EscapeMaps, UpToNul, Lead, Trail, PointTo, PairsOf,
      EndOf;
    var f, sapi, end := frags[i], frags[k].src + |frags[k].text|, EndOf(v, frags, k);
    var d := EmitContent(v, f, c);
    FitsTo(v, frags, i);
    ContentExtends(v, f, c);
    SameOrLonger(c.ssml, d.ssml);
    if IsSpeakable(f) {
      var start := TextStart(v, frags, i);
      SpeakableContent(v, f, c);
      PairsPoint(f, start, end, sapi);
      PointToMore(c.maps, PairsOf(f, start), |AfterContent(v, frags[k], BuildTo(v, frags, k)).maps|, end, sapi);
      EdgeLast(v, f, c);
    } else {
      SilentPairs(v, f, c, end, sapi);
      var more := OtherPairs(v, f, c);
      PointToMore(c.maps, more, |AfterContent(v, frags[k], BuildTo(v, frags, k)).maps|, end, sapi);
    }
  }

  lemma EdgeLast(v: Voice, f: Frag, c: Build)
    requires f.src + |f.text| < TWO_32
    ensures v.isEdge && IsSpeakable(f) ==> EmitContent(v, f, c).lastSapi == f.src + |f.text|
    ensures v.isEdge && !IsSpeakable(f) ==> EmitContent(v, f, c).lastSapi == c.lastSapi
  {
    hide EmitSpoken;
  }

  /** The pairs that content other than spoken text records: a simulated bookmark, or those inside a bookmark's name. */
  function OtherPairs(v: Voice, f: Frag, c: Build): seq<Mapping> {
    if !f.state.action.Bookmark? then []
    else if v.isEdge then [Mapping(c.lastSapi, U32(|c.ssml|))]
    else EscapeMaps(f.src, UpToNul(f.text), |c.ssml + "<bookmark mark='"|)
  }

  lemma SilentPairs(v: Voice, f: Frag, c: Build, end: nat, sapi: nat)
    requires !IsSpeakable(f) && end <= |c.ssml| && |EmitContent(v, f, c).ssml| < TWO_32 && f.src + |f.text| < TWO_32
    requires v.isEdge && |c.ssml| == end ==> c.lastSapi == sapi
    ensures EmitContent(v, f, c).maps == c.maps + OtherPairs(v, f, c)
    ensures PointTo(OtherPairs(v, f, c), 0, end, sapi)
    ensures v.isEdge ==> EmitContent(v, f, c).lastSapi == c.lastSapi && EmitContent(v, f, c).ssml == c.ssml
  {
    hide EmitSpoken, Escape, EscapeMaps, UpToNul, RawTag, BreakTag;
    assert c.maps + [] == c.maps;
    if f.state.action.ParseUnknownTag? {
      RawSapi(f.text, c);
    }
    if f.state.action.Bookmark? && !v.isEdge {
      BookmarkFits(v, f, c);
      EscapeMapsLast(f.src, UpToNul(f.text), |c.ssml + "<bookmark mark='"|);
    }
  }

  lemma BookmarkFits(v: Voice, f: Frag, c: Build)
    requires f.state.action.Bookmark? && !v.isEdge && |EmitContent(v, f, c).ssml| < TWO_32 && f.src + |f.text| < TWO_32
    ensures Fits(f.src, UpToNul(f.text), |c.ssml + "<bookmark mark='"|)
  {
    hide Escape, UpToNul;
  }

  lemma WritingKeepsPoints(v: Voice, frags: seq<Frag>, k: nat, b: Build, c: Build)
    requires k < |frags| && OnlyWrites(b, c) && AllPoint(v, frags, k, b) && EndOf(v, frags, k) <= |b.ssml|
    ensures AllPoint(v, frags, k, c) && EndOf(v, frags, k) <= |c.ssml|
  {
    hide EndOf, BuildTo, PointTo;
  }

  /** Every later fragment whose text begins at `end` continues fragment `k`. */
  predicate AllContinue(v: Voice, frags: seq<Frag>, k: nat)
    requires k < |frags|
  {
    forall m :: k < m < |frags| && IsSpeakable(frags[m]) && TextStart(v, frags, m) == EndOf(v, frags, k) ==>
      Continues(frags, k, m)
  }

  lemma {:induction false} BuildPoints(v: Voice, frags: seq<Frag>, k: nat, i: nat)
    requires k < i <= |frags| && SizesFit(v, frags) && IsSpokenText(frags[k]) && Escape(frags[k].text) != []
    requires AllContinue(v, frags, k)
    ensures AllPoint(v, frags, k, BuildTo(v, frags, i)) && EndOf(v, frags, k) <= |BuildTo(v, frags, i).ssml|
    decreases i
  {
    hide BeforeContent, EmitContent, CloseTags, LevelAfter, AllPoint, EndOf, Escape, UpToNul, Compile, Continues,
      TextStart;
    var j := i - 1;
    var d := AfterContent(v, frags[j], BuildTo(v, frags, j));
    var level := LevelAfter(v, frags, j, d.prosodyCount);
    if j == k {
      OwnPoints(v, frags, k);
    } else {
      BuildPoints(v, frags, k, j);
      var c := BeforeContent(v, frags[j], BuildTo(v, frags, j));
      OpenOnlyWrites(v, frags[j], BuildTo(v, frags, j));
      WritingKeepsPoints(v, frags, k, BuildTo(v, frags, j), c);
      ContentPoints(v, frags, k, j, c);
      ContentExtends(v, frags[j], c);
    }
    CloseOnlyWrites(level, d);
    WritingKeepsPoints(v, frags, k, d, CloseTags(level, d));
  }

  lemma OwnPoints(v: Voice, frags: seq<Frag>, k: nat)
    requires k < |frags| && SizesFit(v, frags) && IsSpokenText(frags[k]) && Escape(frags[k].text) != []
    ensures var d := AfterContent(v, frags[k], BuildTo(v, frags, k));
      AllPoint(v, frags, k, d) && EndOf(v, frags, k) <= |d.ssml|
  {
    hide BuildTo, BeforeContent, EmitContent, EndOf, Escape, UpToNul, Compile;
    TextAtEnd(v, frags, k);
    EdgeLast(v, frags[k], BeforeContent(v, frags[k], BuildTo(v, frags, k)));
  }

  lemma FinishPoints(v: Voice, frags: seq<Frag>, k: nat)
    requires k < |frags| && SizesFit(v, frags) && IsSpokenText(frags[k]) && Escape(frags[k].text) != []
    requires AllContinue(v, frags, k)
    ensures AllPoint(v, frags, k, Compile(v, frags))
  {
    hide BuildTo, AllPoint, EndOf, Escape, AllContinue, Finish, SizesFit, IsSpokenText;
    var b := BuildTo(v, frags, |frags|);
    BuildPoints(v, frags, k, |frags|);
    FinishOnlyWrites(v, b);
    WritingKeepsPoints(v, frags, k, b, Finish(v, b));
  }

  /** A fragment that begins at `end` without continuing fragment `k` leaves a pair there that points beyond. */
  lemma PointsBeyond(v: Voice, frags: seq<Frag>, k: nat, m: nat) returns (i: nat)
    requires k < m < |frags| && SizesFit(v, frags) && SourceOrdered(frags) && IsSpeakable(frags[m])
    requires TextStart(v, frags, m) == EndOf(v, frags, k) && !Continues(frags, k, m)
    ensures var maps := Compile(v, frags).maps;
      i < |maps| && maps[i].ssml == EndOf(v, frags, k) && maps[i].sapi > frags[k].src + |frags[k].text|
  {
    hide BuildTo, BeforeContent, EmitContent, Compile, Escape, EscapeMaps, UpToNul, Lead, Trail, PairsOf, EndOf, Grows;
    var f, c := frags[m], BeforeContent(v, frags[m], BuildTo(v, frags, m));
    var d, start := AfterContent(v, f, BuildTo(v, frags, m)), TextStart(v, frags, m);
    FitsTo(v, frags, m);
    SpeakableContent(v, f, c);
    var j := PairPointsBeyond(f, start, frags[k].src + |frags[k].text|);
    AfterGrows(v, frags, m);
    GrowsPrefix(d, Compile(v, frags));
    i := |c.maps| + j;
    assert d.maps[i] == PairsOf(f, start)[j];
  }

  // ----- the range

  /**
   The last pair at the end of fragment `k` points to its end exactly when everything that begins there continues it.
   */
  lemma LastPointsIff(v: Voice, frags: seq<Frag>, k: nat)
    requires k < |frags| && IsSpokenText(frags[k]) && SizesFit(v, frags) && SourceOrdered(frags)
    requires Escape(frags[k].text) != []
    ensures var maps := Compile(v, frags).maps;
      maps != [] &&
      (maps[WalkForward(maps, 0, EndOf(v, frags, k))].sapi == frags[k].src + |frags[k].text| <==>
        AllContinue(v, frags, k))
  {
    hide BuildTo, Compile, Escape, UpToNul, TextStart, EndOf, Continues, AfterContent, SourceOrdered, SourceFits, Post;
    var maps, end, sapi := Compile(v, frags).maps, EndOf(v, frags, k), frags[k].src + |frags[k].text|;
    TextIsPlaced(v, frags, k);
    MappingsFollowSource(v, frags);
    var first := OwnEndPair(v, frags, k);
    var last := WalkForward(maps, 0, end);
    WalkFindsLast(maps, 0, end);
    if AllContinue(v, frags, k) {
      FinishPoints(v, frags, k);
      assert first <= last && maps[first].ssml <= maps[last].ssml;
    } else {
      var m :| k < m < |frags| && IsSpeakable(frags[m]) && TextStart(v, frags, m) == end && !Continues(frags, k, m);
      var i := PointsBeyond(v, frags, k, m);
      assert i <= last;
    }
  }

  /** The index of fragment `k`'s own end pair: the last one that its content records. */
  lemma OwnEndPair(v: Voice, frags: seq<Frag>, k: nat) returns (first: nat)
    requires k < |frags| && IsSpokenText(frags[k]) && SizesFit(v, frags) && Placed(SiteOf(v, frags, k))
    ensures var maps := Compile(v, frags).maps;
      first < |maps| && maps[first] == Mapping(frags[k].src + |frags[k].text|, EndOf(v, frags, k)) && Sorted(maps) &&
      first + 1 == |AfterContent(v, frags[k], BuildTo(v, frags, k)).maps|
  {
    hide BuildTo, BeforeContent, EmitContent, Compile, Escape, EscapeMaps, Group, TextStart, Post, SizesFit, Lead;
    var t := SiteOf(v, frags, k);
    var c := BeforeContent(v, frags[k], BuildTo(v, frags, k));
    PlacedFits(t);
    GroupShape(t.src, t.text, t.start);
    var n := |EscapeMaps(t.src, t.text, t.start)|;
    SiteAt(t, n + 1);
    SpokenContent(v, frags[k], c);
    OpenOnlyWrites(v, frags[k], BuildTo(v, frags, k));
    TextStartIs(v, frags, k);
    first := |t.pre| + n + 1;
  }

  lemma TextStartIs(v: Voice, frags: seq<Frag>, k: nat)
    requires k < |frags|
    ensures var c := BeforeContent(v, frags[k], BuildTo(v, frags, k));
      TextStart(v, frags, k) == |c.ssml| + |Lead(v, frags[k], c)|
  {
  }

  /** Everything that adjoins fragment `k` continues it in the source. */
  predicate NothingSkipped(v: Voice, frags: seq<Frag>, k: nat)
    requires k < |frags| && Escape(frags[k].text) != []
  {
    forall m :: k < m < |frags| && IsSpeakable(frags[m]) && Adjoins(v, frags, k, m) ==> Continues(frags, k, m)
  }

  lemma NothingSkippedIs(v: Voice, frags: seq<Frag>, k: nat)
    requires k < |frags| && IsSpokenText(frags[k]) && Escape(frags[k].text) != []
    ensures NothingSkipped(v, frags, k) <==> AllContinue(v, frags, k)
  {
    hide Adjoins, Continues, TextStart, EndOf, Escape, UpToNul;
    forall m | k < m < |frags| && IsSpeakable(frags[m])
      ensures EndOf(v, frags, k) == TextStart(v, frags, m) <==> Adjoins(v, frags, k, m)
    {
      TouchesIff(v, frags, k, m);
    }
  }

  /** The search's own view: the range is exact when the last pair recorded at its end points at the fragment's end. */
  lemma TailIff(v: Voice, frags: seq<Frag>, k: nat, a: nat, i: nat)
    requires k < |frags| && IsSpokenText(frags[k]) && SizesFit(v, frags) && SourceOrdered(frags)
    requires a <= i < |frags[k].text| && IsEscaped(frags[k].text[i])
    requires frags[k].src + a + Width(frags[k].text, a, |frags[k].text|) < TWO_32
    ensures var f, maps := frags[k], Compile(v, frags).maps; var n := |f.text|;
      maps != [] &&
      (MapRange(maps, TextStart(v, frags, k) + Pos(f.text, a), Width(f.text, a, n)) == (f.src + a, n - a) <==>
        maps[WalkForward(maps, 0, EndOf(v, frags, k))].sapi == f.src + n)
  {
    hide Escape, EscapeMaps, Compile, TextStart, Post, MapRange, BuildTo, Width, UpToNul, WalkForward, Placed,
      SapiSorted, SourceOrdered, SourceFits, Pos;
    TextIsPlaced(v, frags, k);
    MappingsFollowSource(v, frags);
    EscapedTailIsExactIff(SiteOf(v, frags, k), a, i);
  }

  /**
   A range up to the end of its fragment that contains an escaped character maps to its own length, if and only if every
   later fragment whose text follows this one's at once, without markup and without a space, begins in the source where
   this one ends.
   */
  lemma EscapedTailsMapBackIff(v: Voice, frags: seq<Frag>, k: nat, a: nat, i: nat)
    requires k < |frags| && IsSpokenText(frags[k]) && SizesFit(v, frags) && SourceOrdered(frags)
    requires a <= i < |frags[k].text| && IsEscaped(frags[k].text[i])
    requires frags[k].src + a + Width(frags[k].text, a, |frags[k].text|) < TWO_32
    ensures var f, maps := frags[k], Compile(v, frags).maps; var n := |f.text|;
      Escape(f.text) != [] &&
      (MapRange(maps, TextStart(v, frags, k) + Pos(f.text, a), Width(f.text, a, n)) == (f.src + a, n - a) <==>
        NothingSkipped(v, frags, k))
  {
    EscapeEmpty(frags[k].text);
    hide Escape, EscapeMaps, Compile, TextStart, MapRange, BuildTo, Width, Pos, NothingSkipped, AllContinue, UpToNul,
      WalkForward, EndOf, SizesFit, SourceOrdered;
    TailIff(v, frags, k, a, i);
    LastPointsIff(v, frags, k);
    NothingSkippedIs(v, frags, k);
  }

  // ----- an instance

  /** A fragment of plain speech. */
  predicate IsPlainSpeech(v: Voice, f: Frag) {
    f.state.action.Speak? && f.state.category.None? && f.state.emphAdj == 0 && !NeedsProsody(v, f.state)
  }

  lemma PlainSeam(v: Voice, frags: seq<Frag>)
    requires |frags| == 2 && !v.isEdge && IsPlainSpeech(v, frags[0]) && IsPlainSpeech(v, frags[1])
    ensures SeamIsSilent(v, frags, 0)
  {
    hide NeedsProsody, LevelAfter;
    assert TagList(v, frags, 0) == [];
  }

  lemma PlainAdjoins(v: Voice, frags: seq<Frag>)
    requires |frags| == 2 && !v.isEdge && IsPlainSpeech(v, frags[0]) && IsPlainSpeech(v, frags[1])
    requires frags[0].text == "& " && frags[1].text == "x"
    ensures Escape("& ") == "&amp; " && Adjoins(v, frags, 0, 1) && IsSpokenText(frags[0]) && IsSpokenText(frags[1])
  {
    hide SeamIsSilent, IsPlainSpeech;
    AmpersandGroup(0);
    PlainSeam(v, frags);
    PlainIsBare(v, frags[0]);
    PlainIsBare(v, frags[1]);
    NoNuls();
  }

  lemma PlainIsBare(v: Voice, f: Frag)
    requires IsPlainSpeech(v, f)
    ensures IsBare(v, f)
  {
  }

  lemma NoNuls()
    ensures UpToNul("& ") == "& " && UpToNul("x") == "x"
  {
    assert "& "[1..] == " " && " "[1..] == [] && "x"[1..] == [];
    assert UpToNul(" ") == " ";
  }

  /**
   "& " at source offset 0 and "x" at offset 5, both plain speech: the range of the whole first text is mapped to length
   5 instead of 2.
   */
  lemma EscapedTailOverruns(v: Voice, frags: seq<Frag>)
    requires |frags| == 2 && !v.isEdge && IsPlainSpeech(v, frags[0]) && IsPlainSpeech(v, frags[1])
    requires frags[0].text == "& " && frags[0].src == 0 && frags[1].text == "x" && frags[1].src == 5
    requires |Compile(v, frags).ssml| < TWO_32
    ensures Width("& ", 0, 2) == 6
    ensures MapRange(Compile(v, frags).maps, TextStart(v, frags, 0), 6) == (0, 5)
    ensures !NothingSkipped(v, frags, 0)
  {
    hide BuildTo, Compile, Escape, EscapeMaps, UpToNul, Group, MapRange, TextStart, Adjoins, IsPlainSpeech, Post,
      SeamIsSilent;
    var start := TextStart(v, frags, 0);
    PlainAdjoins(v, frags);
    TouchesIff(v, frags, 0, 1);
    assert TextStart(v, frags, 1) == start + 6;
    TwoGroups(v, frags);
    TextIsPlaced(v, frags, 1);
    AmpersandGroup(0);
    PlainGroup(0);
    assert |Escape("x")| >= 1 by {
      EscapeEmpty("x");
    }
    AdjoiningGroups(Compile(v, frags).maps, start);
    assert !Continues(frags, 0, 1);
  }

  /** The pairs of two spoken fragments are all the pairs there are. */
  lemma TwoGroups(v: Voice, frags: seq<Frag>)
    requires |frags| == 2 && IsSpokenText(frags[0]) && IsSpokenText(frags[1])
    ensures Compile(v, frags).maps ==
      Group(frags[0].src, frags[0].text, TextStart(v, frags, 0)) + Group(frags[1].src, frags[1].text,
        TextStart(v, frags, 1))
  {
    hide BuildTo, Escape, EscapeMaps, UpToNul, Group, Finish, TextStart;
    StartHasNoPairs(v, frags);
    OneGroup(v, frags, 0);
    OneGroup(v, frags, 1);
    FinishOnlyWrites(v, BuildTo(v, frags, 2));
    assert [] + Group(frags[0].src, frags[0].text, TextStart(v, frags, 0)) ==
      Group(frags[0].src, frags[0].text, TextStart(v, frags, 0));
  }

  lemma StartHasNoPairs(v: Voice, frags: seq<Frag>)
    ensures BuildTo(v, frags, 0).maps == []
  {
    hide Step;
  }

  lemma OneGroup(v: Voice, frags: seq<Frag>, i: nat)
    requires i < |frags| && IsSpokenText(frags[i])
    ensures BuildTo(v, frags, i + 1).maps ==
      BuildTo(v, frags, i).maps + Group(frags[i].src, frags[i].text, TextStart(v, frags, i))
  {
    hide BeforeContent, EmitContent, CloseTags, LevelAfter, Escape, EscapeMaps, UpToNul, Group, Lead;
    var f, b := frags[i], BuildTo(v, frags, i);
    var c, d := BeforeContent(v, f, b), AfterContent(v, f, b);
    OpenOnlyWrites(v, f, b);
    SpokenContent(v, f, c);
    CloseOnlyWrites(LevelAfter(v, frags, i, d.prosodyCount), d);
  }
}
