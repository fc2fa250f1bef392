/**
 How a reader of the document takes each piece that BuildSSML appends: which elements are open afterwards, and that the
 flags and the list of custom tags describe exactly those.
 */
module SsmlNesting {
  import opened Strings
  import opened XmlNesting
  import opened TagValues
  import opened Ssml
  import opened SsmlFlags
  import opened TagHelpers

  /** What SAPI hands over for unknown tags: each raw fragment is one tag plus blanks. Edge voices never read them. */
  predicate RawOk(v: Voice, frags: seq<Frag>) {
    !v.isEdge ==> forall i :: 0 <= i < |frags| ==> RawFragOk(frags[i])
  }

  predicate RawFragOk(f: Frag) {
    f.state.action.ParseUnknownTag? ==> IsSapiTag(f.text)
  }

  /** The category of fragment `i`, if a say-as element is opened for it, can be quoted. */
  predicate CategoryQuotable(v: Voice, frags: seq<Frag>, i: nat)
    requires i < |frags|
  {
    OpensAt(v, frags, i) ==> Quotable(CategoryAt(v, frags, i))
  }

  /** Every value that is written as it is before fragment `n` can be quoted. */
  predicate ValuesQuotable(v: Voice, frags: seq<Frag>, n: nat)
    requires n <= |frags|
  {
    Quotable(v.locale) && Quotable(v.onlineName) && forall i :: 0 <= i < n ==> CategoryQuotable(v, frags, i)
  }

  /** What callers must supply. */
  predicate Readable(v: Voice, frags: seq<Frag>) {
    RawOk(v, frags) && ValuesQuotable(v, frags, |frags|)
  }

  /** The element a raw tag opens, as a reader of the document sees it. */
  function ElementName(text: string): string {
    match TagOf(TrimTag(text))
    case None => []
    case Some(tag) => tag.name
  }

  function ElementOf(text: string): Element {
    Element(ElementName(text), TrimTag(text))
  }

  function Elements(custom: seq<string>): (open: seq<Element>)
    ensures |open| == |custom| && forall i :: 0 <= i < |custom| ==> open[i] == ElementOf(custom[i])
  {
    seq(|custom|, i requires 0 <= i < |custom| => ElementOf(custom[i]))
  }

  /**
   What is true of the reading beyond the flags: what was seen on the way, and the start tags of the prosody and say-as
   elements that are open.
   */
  datatype Known = Known(seen: Seen, prosody: string, sayAs: string)

  /** The elements that the flags say are open, outermost first. */
  function Stack(v: Voice, b: Build, w: Known): seq<Element> {
    Base(v) + (if b.prosody then [Element("prosody", w.prosody)] else []) +
    (if b.emphasis then [Element("emphasis", StartTagText("emphasis", []))] else []) +
    (if b.inCustom then Elements(b.custom) else []) + (if b.sayAs then [Element("say-as", w.sayAs)] else [])
  }

  function Base(v: Voice): (open: seq<Element>)
    ensures open != [] && !TopIsSayAs(open)
  {
    [Element("speak", SpeakTag(v))] + if v.onlineName != [] then [Element("voice", VoiceTag(v))] else []
  }

  predicate CustomTagOk(t: TagText) {
    IsSapiTag(t) && TagOf(TrimTag(t)).value.StartTag?
  }

  predicate CustomOk(custom: seq<TagText>) {
    forall i :: 0 <= i < |custom| ==> CustomTagOk(custom[i])
  }

  /** The innermost of the client's tags is a say-as tag. */
  predicate LastIsSayAs(custom: seq<TagText>) {
    custom != [] && EqualsIgnoreCase(ElementName(Last(custom)), "say-as")
  }

  /** One of the client's tags is inside a say-as tag of the client. */
  predicate HasInner(custom: seq<TagText>) {
    custom != [] && (HasInner(Front(custom)) || LastIsSayAs(Front(custom)))
  }

  /** Reading the document so far gives exactly the open elements `open`. */
  predicate ReadsTo(ssml: string, open: seq<Element>, seen: Seen) {
    IsAt(Read(START, ssml), open, seen)
  }

  predicate IsAt(r: Reading, open: seq<Element>, seen: Seen) {
    r.Reading? && r.lexing == Content && r.open == open && r.rootSeen && r.seen == seen
  }

  /** The flags describe the document, and for Edge voices prosodyCount counts its prosody elements. */
  predicate Agrees(v: Voice, b: Build, w: Known) {
    ReadsTo(b.ssml, Stack(v, b, w), w.seen) && CustomOk(b.custom) && (HasInner(b.custom) ==> w.seen.child) &&
    (b.sayAs && LastIsSayAs(b.custom) ==> w.seen.child) && (v.isEdge ==> EdgeAgrees(b))
  }

  predicate EdgeAgrees(b: Build) {
    Read(START, b.ssml).Reading? && Read(START, b.ssml).prosodies == b.prosodyCount &&
    b.custom == [] && !b.emphasis && !b.sayAs
  }

  // ----- the effect of one piece of markup

  lemma {:induction false} BlanksRead(r: Reading, w: string)
    requires r.Reading? && r.lexing == Content && r.open != []
    requires forall i :: 0 <= i < |w| ==> IsXmlSpace(w[i])
    ensures Read(r, w) == r
  {
    if w != [] {
      BlanksRead(r, Front(w));
    }
  }

  /** A raw fragment acts like its tag. */
  lemma RawReads(r: Reading, text: string)
    requires r.Reading? && r.lexing == Content
    requires IsSapiTag(text)
    requires var t := TrimTag(text); var r' := Apply(r, TagOf(t).value, t); r'.Reading? && r'.open != []
    ensures Read(r, text) == Apply(r, TagOf(TrimTag(text)).value, TrimTag(text))
  {
    hide Read, TagOf, TrimTag, EqualsIgnoreCase;
    var t := TrimTag(text);
    var w := text[|t|..];
    assert text == t + w;
    ReadConcat(r, t, w);
    ReadTag(r, t);
    BlanksRead(Apply(r, TagOf(t).value, t), w);
  }

  lemma AppendRawStart(ssml: string, text: string, open: seq<Element>, seen: Seen)
    requires ReadsTo(ssml, open, seen) && open != []
    requires IsSapiTag(text) && TagOf(TrimTag(text)).value.StartTag?
    ensures ReadsTo(ssml + text, open + [ElementOf(text)], WithElement(seen, open))
  {
    hide Read, TagOf, TrimTag, EqualsIgnoreCase;
    ReadConcat(START, ssml, text);
    RawReads(Read(START, ssml), text);
  }

  lemma AppendRawEmpty(ssml: string, text: string, open: seq<Element>, seen: Seen)
    requires ReadsTo(ssml, open, seen) && open != []
    requires IsSapiTag(text) && TagOf(TrimTag(text)).value.EmptyTag?
    ensures ReadsTo(ssml + text, open, WithElement(seen, open))
  {
    hide Read, TagOf, TrimTag, EqualsIgnoreCase;
    ReadConcat(START, ssml, text);
    RawReads(Read(START, ssml), text);
  }

  lemma AppendRawEnd(ssml: string, text: string, open: seq<Element>, seen: Seen)
    requires ReadsTo(ssml, open, seen) && |open| > 1
    requires IsSapiTag(text) && TagOf(TrimTag(text)).value.EndTag?
    requires EqualsIgnoreCase(Last(open).name, ElementName(text))
    ensures ReadsTo(ssml + text, Front(open), WithEnd(seen, Last(open).name, ElementName(text)))
  {
    hide Read, TagOf, TrimTag, EqualsIgnoreCase;
    ReadConcat(START, ssml, text);
    RawReads(Read(START, ssml), text);
  }

  lemma AppendStart(ssml: string, t: string, open: seq<Element>, seen: Seen)
    requires ReadsTo(ssml, open, seen) && open != []
    requires TagOf(t).Some? && TagOf(t).value.StartTag?
    ensures ReadsTo(ssml + t, open + [Element(TagOf(t).value.name, t)], WithElement(seen, open))
    ensures Read(START, ssml + t).prosodies == Read(START, ssml).prosodies +
      if EqualsIgnoreCase(TagOf(t).value.name, "prosody") then 1 else 0
  {
    hide Read, TagOf, EqualsIgnoreCase;
    ReadConcat(START, ssml, t);
    ReadTag(Read(START, ssml), t);
  }

  lemma AppendEmpty(ssml: string, t: string, open: seq<Element>, seen: Seen)
    requires ReadsTo(ssml, open, seen) && open != []
    requires TagOf(t).Some? && TagOf(t).value.EmptyTag?
    ensures ReadsTo(ssml + t, open, WithElement(seen, open))
  {
    hide Read, TagOf, EqualsIgnoreCase;
    ReadConcat(START, ssml, t);
    ReadTag(Read(START, ssml), t);
  }

  lemma AppendEnd(ssml: string, t: string, open: seq<Element>, seen: Seen)
    requires ReadsTo(ssml, open, seen) && open != []
    requires TagOf(t).Some? && TagOf(t).value.EndTag? && EqualsIgnoreCase(Last(open).name, TagOf(t).value.name)
    ensures ReadsTo(ssml + t, Front(open), WithEnd(seen, Last(open).name, TagOf(t).value.name))
    ensures Read(START, ssml + t).prosodies == Read(START, ssml).prosodies
  {
    hide Read, TagOf, EqualsIgnoreCase;
    ReadConcat(START, ssml, t);
    ReadTag(Read(START, ssml), t);
  }

  lemma {:induction false} EscapedReads(r: Reading, t: string)
    requires r.Reading? && r.lexing == Content && r.open != []
    ensures Read(r, Escape(t)) == r
  {
    if t != [] {
      hide Read, EscapeChar;
      EscapedReads(r, Front(t));
      ReadConcat(r, Escape(Front(t)), EscapeChar(Last(t)));
      EntityReads(r, Last(t));
    }
  }

  lemma ReadReferenceName(r: Reading, name: string, c: char)
    requires r.Reading? && r.lexing == Reference(name) && r.open != []
    ensures ReadChar(r, c) ==
      if c != ';' then r.(lexing := Reference(name + [c])) else if IsReference(name) then r.(lexing := Content)
        else Malformed
  {
    hide IsReference;
  }

  lemma {:induction false} ReferenceReads(r: Reading, name: string)
    requires r.Reading? && r.lexing == Content && r.open != []
    requires forall i :: 0 <= i < |name| ==> name[i] != ';'
    ensures Read(r, "&" + name) == r.(lexing := Reference(name))
  {
    hide Read, ReadChar;
    if name == [] {
      ReadAmpersand(r);
      assert "&" + name == "&";
    } else {
      var w, c := Front(name), Last(name);
      ReferenceReads(r, w);
      assert name == w + [c] && "&" + name == "&" + w + [c];
      ReadLast(r, "&" + name, "&" + w, c);
      ReadReferenceName(r.(lexing := Reference(w)), w, c);
    }
  }

  lemma ReadAmpersand(r: Reading)
    requires r.Reading? && r.lexing == Content && r.open != []
    ensures Read(r, "&") == r.(lexing := Reference([]))
  {
    ReadOne(r, '&');
  }

  lemma PredefinedReads(r: Reading, name: string)
    requires r.Reading? && r.lexing == Content && r.open != []
    requires IsPredefined(name)
    ensures Read(r, "&" + name + ";") == r
  {
    hide Read, ReadChar;
    ReferenceReads(r, name);
    ReadLast(r, "&" + name + ";", "&" + name, ';');
    ReadReferenceName(r.(lexing := Reference(name)), name, ';');
  }

  /** Each entity is a predefined reference, and an unescaped character changes nothing. */
  lemma EntityReads(r: Reading, c: char)
    requires r.Reading? && r.lexing == Content && r.open != []
    ensures Read(r, EscapeChar(c)) == r
  {
    if IsEscaped(c) {
      hide Read;
      var name :=
        if c == '<' then "lt" else if c == '>' then "gt" else if c == '&' then "amp"
        else if c == '"' then "quot" else "apos";
      assert EscapeChar(c) == "&" + name + ";";
      PredefinedReads(r, name);
    } else {
      ReadOne(r, c);
    }
  }

  lemma AppendText(ssml: string, t: string, open: seq<Element>, seen: Seen)
    requires ReadsTo(ssml, open, seen) && open != []
    ensures ReadsTo(ssml + Escape(t), open, seen)
    ensures Read(START, ssml + Escape(t)) == Read(START, ssml)
  {
    hide Read, Escape;
    ReadConcat(START, ssml, Escape(t));
    EscapedReads(Read(START, ssml), t);
  }

  lemma AppendSpace(ssml: string, open: seq<Element>, seen: Seen)
    requires ReadsTo(ssml, open, seen) && open != []
    ensures ReadsTo(ssml + " ", open, seen)
    ensures Read(START, ssml + " ") == Read(START, ssml)
  {
    hide Read;
    ReadConcat(START, ssml, " ");
    ReadOne(Read(START, ssml), ' ');
  }

  // ----- custom tags

  lemma ElementsFront(custom: seq<string>)
    requires custom != []
    ensures Elements(custom) == Elements(Front(custom)) + [ElementOf(Last(custom))]
  {
    hide ElementOf;
  }

  lemma TopOf(open: seq<Element>, custom: seq<TagText>)
    requires !TopIsSayAs(open)
    ensures TopIsSayAs(open + Elements(custom)) <==> LastIsSayAs(custom)
  {
    hide EqualsIgnoreCase, ElementName;
    if custom == [] {
      assert open + Elements(custom) == open;
    } else {
      assert Last(open + Elements(custom)) == ElementOf(Last(custom));
    }
  }

  /**
   Opening all of the client's tags: they are open, and nothing is inside a say-as element unless they are themselves.
   */
  lemma {:induction false} OpenAllReads(r: Reading, custom: seq<TagText>, open: seq<Element>, seen: Seen)
    requires IsAt(r, open, seen) && open != [] && !TopIsSayAs(open)
    requires CustomOk(custom)
    ensures IsAt(Read(r, OpenAll(custom)), open + Elements(custom), seen.(child := seen.child || HasInner(custom)))
  {
    if custom == [] {
      assert open + Elements(custom) == open;
    } else {
      var rest, t := Front(custom), Last(custom);
      ElementsFront(custom);
      hide Elements, Read, TagOf, TrimTag, EqualsIgnoreCase, TopIsSayAs, LastIsSayAs;
      OpenAllReads(r, rest, open, seen);
      assert CustomTagOk(t);
      TopOf(open, rest);
      ReadConcat(r, OpenAll(rest), t);
      RawReads(Read(r, OpenAll(rest)), t);
    }
  }

  lemma OpenAllAppended(ssml: string, custom: seq<TagText>, open: seq<Element>, seen: Seen)
    requires ReadsTo(ssml, open, seen) && open != [] && !TopIsSayAs(open)
    requires CustomOk(custom)
    ensures ReadsTo(ssml + OpenAll(custom), open + Elements(custom), seen.(child := seen.child || HasInner(custom)))
  {
    hide Read, OpenAll, Elements;
    OpenAllReads(Read(START, ssml), custom, open, seen);
    ReadConcat(START, ssml, OpenAll(custom));
  }

  lemma {:induction false} CloseAllReads(r: Reading, custom: seq<TagText>, open: seq<Element>, seen: Seen)
    requires IsAt(r, open + Elements(custom), seen) && open != []
    requires CustomOk(custom)
    ensures IsAt(Read(r, CloseAll(custom)), open, seen)
    decreases |custom|
  {
    if custom == [] {
      assert open + Elements(custom) == open;
    } else {
      var rest, name := Front(custom), GetXMLTagName(Last(custom));
      ElementsFront(custom);
      hide Elements, Read, GetXMLTagName, EndTagText, CustomTagOk;
      var r' := Read(r, EndTagText(name));
      assert open + Elements(custom) == open + Elements(rest) + [ElementOf(Last(custom))];
      CloseOneReads(r, Last(custom), open + Elements(rest), seen);
      CloseAllReads(r', rest, open, seen);
      ReadConcat(r, EndTagText(name), CloseAll(rest));
    }
  }

  lemma CloseAllAppended(ssml: string, custom: seq<TagText>, open: seq<Element>, seen: Seen)
    requires ReadsTo(ssml, open + Elements(custom), seen) && open != []
    requires CustomOk(custom)
    ensures ReadsTo(ssml + CloseAll(custom), open, seen)
  {
    hide Read, CloseAll, Elements;
    CloseAllReads(Read(START, ssml), custom, open, seen);
    ReadConcat(START, ssml, CloseAll(custom));
  }

  /** The end tag written for an open custom tag closes it, even where the name was looked up as `name>`. */
  lemma CloseOneReads(r: Reading, t: TagText, open: seq<Element>, seen: Seen)
    requires CustomTagOk(t) && open != []
    requires IsAt(r, open + [ElementOf(t)], seen)
    ensures IsAt(Read(r, EndTagText(GetXMLTagName(t))), open, seen)
  {
    hide Read, TagOf, TrimTag, GetXMLTagName, EqualsIgnoreCase, EndTagText;
    var n := ElementName(t);
    StartTagHelpers(TrimTag(t));
    UntrimmedName(t);
    EndTagOf(n);
    SameName(n);
    ReadTag(r, EndTagText(n));
    assert Front(open + [ElementOf(t)]) == open;
    if GetXMLTagName(t) != n {
      BracketText(n);
      ReadConcat(r, EndTagText(n), ">");
      ReadOne(Read(r, EndTagText(n)), '>');
    }
  }

  lemma SameName(n: string)
    ensures EqualsIgnoreCase(n, n)
  {
  }

  lemma BracketText(n: string)
    ensures EndTagText(n + ">") == EndTagText(n) + ">"
  {
  }
}
