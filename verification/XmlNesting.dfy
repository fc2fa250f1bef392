/**
 A reference reading of a document, independent of the code that writes it: tags as in section 3 of XML 1.0 (start tag,
 end tag, empty-element tag, Element Type Match), references in content and in attribute values as in sections 4.1 and
 4.6. Names are matched ignoring case, as the adapter does, and the reader notes whether they were matched exactly. It
 is a fold over characters, so what a piece of markup does is a fact about that piece alone.
 */
module XmlNesting {
  import opened Strings

  datatype Tag = StartTag(name: string) | EndTag(name: string) | EmptyTag(name: string)

  /** How far the reader is inside one tag. */
  datatype Mode =
    | Opened
    | Name(name: string)
    | Attrs(name: string)
    | Quoted(name: string, quote: char)
    | QuotedRef(name: string, quote: char, reference: string)
    | Slash(name: string)
    | EndName(name: string)
    | EndTail(name: string)
    | BadTag

  predicate IsXmlSpace(c: char) {
    c == ' ' || c == '\t' || c == '\r' || c == '\n'
  }

  predicate IsNameChar(c: char) {
    !IsWSpace(c) && c != '<' && c != '>' && c != '/' && c != '"' && c != '\'' && c != '=' && c != '&' && c != '!' &&
      c != '?'
  }

  /** A character allowed between attribute values, outside quotes. */
  predicate IsPlainAttrChar(c: char) {
    IsNameChar(c) || c == '=' || IsXmlSpace(c)
  }

  predicate IsName(s: string) {
    s != [] && forall i :: 0 <= i < |s| ==> IsNameChar(s[i])
  }

  predicate IsPredefined(name: string) {
    name == "lt" || name == "gt" || name == "amp" || name == "quot" || name == "apos"
  }

  /** The character that a predefined entity stands for. */
  function PredefinedChar(name: string): char
    requires IsPredefined(name)
  {
    if name == "lt" then '<' else if name == "gt" then '>' else if name == "amp" then '&'
    else if name == "quot" then '"' else '\''
  }

  predicate IsDecimal(s: string) {
    s != [] && forall i :: 0 <= i < |s| ==> '0' <= s[i] <= '9'
  }

  predicate IsHexadecimal(s: string) {
    s != [] && forall i :: 0 <= i < |s| ==> '0' <= s[i] <= '9' || 'a' <= s[i] <= 'f' || 'A' <= s[i] <= 'F'
  }

  /** What may stand between '&' and ';': a predefined entity or a character reference. */
  predicate IsReference(name: string) {
    IsPredefined(name) ||
    (name != [] && name[0] == '#' &&
     (IsDecimal(name[1..]) || (|name| >= 2 && name[1] == 'x' && IsHexadecimal(name[2..]))))
  }

  function TagStep(m: Mode, c: char): Mode {
    match m
    case Opened => if c == '/' then EndName([]) else if IsNameChar(c) then Name([c]) else BadTag
    case Name(n) =>
      if IsNameChar(c) then Name(n + [c])
      else if IsXmlSpace(c) then Attrs(n)
      else if c == '/' then Slash(n)
      else BadTag
    case Attrs(n) =>
      if c == '"' || c == '\'' then Quoted(n, c)
      else if c == '/' then Slash(n)
      else if IsPlainAttrChar(c) then m
      else BadTag
    case Quoted(n, q) =>
      if c == q then Attrs(n) else if c == '<' then BadTag else if c == '&' then QuotedRef(n, q, []) else m
    case QuotedRef(n, q, r) =>
      if c == ';' then (if IsReference(r) then Quoted(n, q) else BadTag)
      else if IsNameChar(c) then QuotedRef(n, q, r + [c])
      else BadTag
    case EndName(n) =>
      if IsNameChar(c) then EndName(n + [c]) else if IsXmlSpace(c) && n != [] then EndTail(n) else BadTag
    case EndTail(n) => if IsXmlSpace(c) then m else BadTag
    case _ => BadTag
  }

  function TagAll(m: Mode, s: string): Mode {
    if s == [] then m else TagStep(TagAll(m, Front(s)), Last(s))
  }

  /** What a '>' means in each mode. */
  function Finished(m: Mode): Option<Tag> {
    match m
    case Name(n) => Some(StartTag(n))
    case Attrs(n) => Some(StartTag(n))
    case Slash(n) => Some(EmptyTag(n))
    case EndName(n) => if n == [] then None else Some(EndTag(n))
    case EndTail(n) => Some(EndTag(n))
    case _ => None
  }

  /** The tag that `t` is, if it is a single tag running exactly from '<' to '>'. */
  function TagOf(t: string): Option<Tag> {
    if |t| >= 2 && t[0] == '<' && Last(t) == '>' then Finished(TagAll(Opened, t[1..|t| - 1])) else None
  }

  datatype Lexing = Content | Reference(name: string) | InTag(mode: Mode, text: string)

  /** An open element: its name and its whole start tag, attributes included. */
  datatype Element = Element(name: string, tag: string)

  /**
   What was seen on the way: whether any element was opened directly inside a say-as element, and whether every end tag
   spelled the name as its start tag does.
   */
  datatype Seen = Seen(child: bool, exact: bool)

  /**
   The reader's state: the open elements, whether the root has been seen, how many prosody elements were opened, and
   what
   was seen on the way.
   */
  datatype Reading =
    | Reading(lexing: Lexing, open: seq<Element>, rootSeen: bool, prosodies: nat, seen: Seen)
    | Malformed

  const START: Reading := Reading(Content, [], false, 0, Seen(false, true))

  predicate TopIsSayAs(open: seq<Element>) {
    open != [] && EqualsIgnoreCase(Last(open).name, "say-as")
  }

  /** What has been seen once an element was opened inside `open`. */
  function WithElement(seen: Seen, open: seq<Element>): Seen {
    seen.(child := seen.child || TopIsSayAs(open))
  }

  /** What has been seen once the element of that name was closed by an end tag named `n`. */
  function WithEnd(seen: Seen, name: string, n: string): Seen {
    seen.(exact := seen.exact && name == n)
  }

  function Apply(r: Reading, tag: Tag, text: string): Reading
    requires r.Reading?
  {
    match tag
    case StartTag(n) =>
      if r.open == [] && r.rootSeen then Malformed
      else Reading(Content, r.open + [Element(n, text)], true,
        r.prosodies + (if EqualsIgnoreCase(n, "prosody") then 1 else 0), WithElement(r.seen, r.open))
    case EmptyTag(n) =>
      if r.open == [] then Malformed
      else Reading(Content, r.open, true, r.prosodies + (if EqualsIgnoreCase(n, "prosody") then 1 else 0),
        WithElement(r.seen, r.open))
    case EndTag(n) =>
      if r.open != [] && EqualsIgnoreCase(Last(r.open).name, n)
      then r.(lexing := Content, open := Front(r.open), seen := WithEnd(r.seen, Last(r.open).name, n))
      else Malformed
  }

  function ReadChar(r: Reading, c: char): Reading {
    if r.Malformed? then r else
    match r.lexing
    case Content =>
      if c == '<' then r.(lexing := InTag(Opened, "<"))
      else if r.open == [] then Malformed
      else if c == '&' then r.(lexing := Reference([]))
      else r
    case Reference(n) =>
      if c == ';' then (if IsReference(n) then r.(lexing := Content) else Malformed)
      else r.(lexing := Reference(n + [c]))
    case InTag(m, t) =>
      if c == '>' && !m.Quoted? then
        match Finished(m)
        case None => Malformed
        case Some(tag) => Apply(r, tag, t + [c])
      else
        var m' := TagStep(m, c);
        if m'.BadTag? then Malformed else r.(lexing := InTag(m', t + [c]))
  }

  function Read(r: Reading, s: string): Reading {
    if s == [] then r else ReadChar(Read(r, Front(s)), Last(s))
  }

  /**
   One root element, every element closed by a tag of its own name, up to case, in the right order; every '&', in
   content
   and in attribute values, begins a predefined or character reference.
   */
  predicate WellNested(doc: string) {
    var r := Read(START, doc);
    r.Reading? && r.lexing == Content && r.open == [] && r.rootSeen
  }

  /** Well nested, and every element is closed by a tag that spells its name exactly. */
  predicate WellNestedExactly(doc: string) {
    WellNested(doc) && Read(START, doc).seen.exact
  }

  /** No element was opened directly inside a say-as element. */
  predicate SayAsIsFlat(doc: string) {
    var r := Read(START, doc);
    r.Reading? && !r.seen.child
  }

  function ProsodyElements(doc: string): nat {
    var r := Read(START, doc);
    if r.Reading? then r.prosodies else 0
  }

  // ----- reading is compositional

  lemma {:induction false} TagAllConcat(m: Mode, a: string, b: string)
    ensures TagAll(m, a + b) == TagAll(TagAll(m, a), b)
  {
    if b == [] {
      assert a + b == a;
    } else {
      hide TagAll, TagStep;
      TagAllConcat(m, a, Front(b));
      assert a + b == a + Front(b) + [Last(b)];
      TagAllLast(m, a + b, a + Front(b), Last(b));
      TagAllLast(TagAll(m, a), b, Front(b), Last(b));
    }
  }

  lemma TagAllLast(m: Mode, s: string, w: string, c: char)
    requires s == w + [c]
    ensures TagAll(m, s) == TagStep(TagAll(m, w), c)
  {
    hide TagStep;
    assert Front(s) == w && Last(s) == c;
  }

  lemma {:induction false} ReadConcat(r: Reading, a: string, b: string)
    ensures Read(r, a + b) == Read(Read(r, a), b)
  {
    if b == [] {
      assert a + b == a;
    } else {
      hide Read, ReadChar;
      ReadConcat(r, a, Front(b));
      assert a + b == a + Front(b) + [Last(b)];
      ReadLast(r, a + b, a + Front(b), Last(b));
      ReadLast(Read(r, a), b, Front(b), Last(b));
    }
  }

  /** Reading a single tag applies it, whatever came before. */
  lemma {:induction false} ReadTag(r: Reading, t: string)
    requires r.Reading? && r.lexing == Content
    requires TagOf(t).Some?
    ensures Read(r, t) == Apply(r, TagOf(t).value, t)
  {
    hide ReadChar, Finished, TagAll, Apply;
    var u := t[1..|t| - 1];
    FinishedIsGood(TagAll(Opened, u));
    ReadInside(r, u);
    assert Front(t) == "<" + u;
    assert t == Front(t) + [Last(t)];
    ReadTagEnd(Read(r, Front(t)), TagAll(Opened, u), Front(t));
    SameRest(r, InTag(TagAll(Opened, u), Front(t)), TagOf(t).value, t);
  }

  lemma FinishedIsGood(m: Mode)
    ensures Finished(m).Some? ==> !m.BadTag?
  {
  }

  lemma ReadTagEnd(r: Reading, m: Mode, text: string)
    requires r.Reading? && r.lexing == InTag(m, text) && Finished(m).Some?
    ensures ReadChar(r, '>') == Apply(r, Finished(m).value, text + ['>'])
  {
    hide Apply;
  }

  /** What a tag does does not depend on the reader's place inside it. */
  lemma SameRest(r: Reading, lexing: Lexing, tag: Tag, text: string)
    requires r.Reading?
    ensures Apply(r.(lexing := lexing), tag, text) == Apply(r, tag, text)
  {
    hide EqualsIgnoreCase;
  }

  /** Inside a tag the reader follows the tag's own steps; a '>' goes on only inside a quoted value. */
  lemma ReadTagChar(r: Reading, m: Mode, text: string, c: char)
    requires r.Reading? && r.lexing == InTag(m, text)
    requires !TagStep(m, c).BadTag?
    ensures ReadChar(r, c) == r.(lexing := InTag(TagStep(m, c), text + [c]))
  {
    hide IsReference, IsWSpace, Apply;
  }

  lemma ReadOpening(r: Reading)
    requires r.Reading? && r.lexing == Content
    ensures Read(r, "<") == r.(lexing := InTag(Opened, "<"))
  {
    ReadOne(r, '<');
  }

  lemma {:induction false} ReadInside(r: Reading, u: string)
    requires r.Reading? && r.lexing == Content
    requires !TagAll(Opened, u).BadTag?
    ensures Read(r, "<" + u) == r.(lexing := InTag(TagAll(Opened, u), "<" + u))
  {
    hide ReadChar, TagStep;
    if u == [] {
      assert "<" + u == "<";
      ReadOpening(r);
    } else {
      var w, c := Front(u), Last(u);
      BadTagStays(c);
      ReadInside(r, w);
      ReadLast(r, "<" + u, "<" + w, c);
      ReadTagChar(Read(r, "<" + w), TagAll(Opened, w), "<" + w, c);
      assert "<" + w + [c] == "<" + u;
    }
  }

  lemma ReadLast(r: Reading, s: string, w: string, c: char)
    requires s == w + [c]
    ensures Read(r, s) == ReadChar(Read(r, w), c)
  {
    hide ReadChar;
    assert Front(s) == w && Last(s) == c;
  }

  lemma BadTagStays(c: char)
    ensures TagStep(BadTag, c) == BadTag
  {
  }

  // ----- building tags from names and attributes

  /** The index of the first `c`, or the length. */
  function Until(s: string, c: char): (k: nat)
    ensures k <= |s| && (k < |s| ==> s[k] == c) && forall i :: 0 <= i < k ==> s[i] != c
  {
    if s == [] || s[0] == c then 0 else 1 + Until(s[1..], c)
  }

  /** What may stand between apostrophes: no apostrophe, no '<', and every '&' begins a reference. */
  predicate ValueOk(val: string)
    decreases |val|
  {
    val == [] ||
    if val[0] == '&' then
      var j := Until(val, ';');
      j < |val| && IsReference(val[1..j]) && ValueOk(val[j + 1..])
    else val[0] != '\'' && val[0] != '<' && ValueOk(val[1..])
  }

  predicate KeyOk(key: string) {
    forall i :: 0 <= i < |key| ==> IsPlainAttrChar(key[i])
  }

  lemma {:induction false} NameRead(n: string)
    requires IsName(n)
    ensures TagAll(Opened, n) == Name(n)
  {
    if |n| == 1 {
      assert Front(n) == [];
      assert n == [n[0]];
    } else {
      NameRead(Front(n));
      assert n == Front(n) + [Last(n)];
    }
  }

  lemma {:induction false} EndNameRead(n: string)
    requires n == [] || IsName(n)
    ensures TagAll(EndName([]), n) == EndName(n)
  {
    if n == [] {
    } else {
      EndNameRead(Front(n));
      assert n == Front(n) + [Last(n)];
    }
  }

  lemma ReferenceChars(name: string)
    requires IsReference(name)
    ensures forall i :: 0 <= i < |name| ==> IsNameChar(name[i]) && name[i] != ';'
  {
    if !IsPredefined(name) {
      forall i | 0 <= i < |name|
        ensures IsNameChar(name[i]) && name[i] != ';'
      {
        if i >= 1 && IsDecimal(name[1..]) {
          assert name[i] == name[1..][i - 1];
        } else if i >= 2 {
          assert name[i] == name[2..][i - 2];
        }
      }
    }
  }

  lemma {:induction false} QuotedRefRead(n: string, name: string)
    requires forall i :: 0 <= i < |name| ==> IsNameChar(name[i]) && name[i] != ';'
    ensures TagAll(QuotedRef(n, '\'', []), name) == QuotedRef(n, '\'', name)
  {
    hide IsReference, IsWSpace, IsNameChar;
    if name != [] {
      QuotedRefRead(n, Front(name));
      assert name == Front(name) + [Last(name)];
    }
  }

  /** A reference in a value leaves the reader inside the value. */
  lemma ValueReferenceRead(n: string, name: string)
    requires IsReference(name)
    ensures TagAll(Quoted(n, '\''), "&" + name + ";") == Quoted(n, '\'')
  {
    hide IsReference, TagAll;
    ReferenceChars(name);
    QuotedRefRead(n, name);
    TagOne(Quoted(n, '\''), '&');
    TagAllConcat(Quoted(n, '\''), "&", name);
    TagOne(QuotedRef(n, '\'', name), ';');
    TagAllConcat(Quoted(n, '\''), "&" + name, ";");
  }

  /** An acceptable value begins with one ordinary character or one reference. */
  lemma ValueParts(val: string) returns (head: string, name: string, rest: string)
    requires ValueOk(val) && val != []
    ensures val == head + rest && head != [] && ValueOk(rest)
    ensures (head == "&" + name + ";" && IsReference(name)) ||
      (head == [val[0]] && val[0] != '&' && val[0] != '\'' && val[0] != '<')
  {
    hide IsReference;
    var j := if val[0] == '&' then Until(val, ';') else 0;
    head, name, rest := val[..j + 1], if j > 0 then val[1..j] else [], val[j + 1..];
  }

  lemma {:induction false} QuotedRead(n: string, val: string)
    requires ValueOk(val)
    ensures TagAll(Quoted(n, '\''), val) == Quoted(n, '\'')
    decreases |val|
  {
    if val != [] {
      hide IsReference, TagAll, TagStep, ValueOk;
      var head, name, rest := ValueParts(val);
      TagAllConcat(Quoted(n, '\''), head, rest);
      QuotedRead(n, rest);
      if head == "&" + name + ";" && IsReference(name) {
        ValueReferenceRead(n, name);
      } else {
        ValueCharRead(n, val[0]);
      }
    }
  }

  lemma ValueCharRead(n: string, c: char)
    requires c != '&' && c != '\'' && c != '<'
    ensures TagAll(Quoted(n, '\''), [c]) == Quoted(n, '\'')
  {
    TagOne(Quoted(n, '\''), c);
  }

  lemma {:induction false} KeyRead(n: string, key: string)
    requires KeyOk(key)
    ensures TagAll(Attrs(n), key) == Attrs(n)
  {
    if key == [] {
    } else {
      assert key == Front(key) + [Last(key)];
      KeyRead(n, Front(key));
    }
  }

  lemma TagOne(m: Mode, c: char)
    ensures TagAll(m, [c]) == TagStep(m, c)
  {
    assert Front([c]) == [];
  }

  lemma AttrSteps(n: string)
    ensures TagStep(Name(n), ' ') == Attrs(n) && TagStep(Attrs(n), ' ') == Attrs(n) &&
      TagStep(Attrs(n), '=') == Attrs(n)
    ensures TagStep(Attrs(n), '\'') == Quoted(n, '\'') && TagStep(Quoted(n, '\''), '\'') == Attrs(n)
  {
  }

  /** An attribute up to the opening quote of its value. */
  lemma KeyQuoteRead(m: Mode, n: string, key: string)
    requires m == Name(n) || m == Attrs(n)
    requires KeyOk(key)
    ensures TagAll(m, " " + key + "='") == Quoted(n, '\'')
  {
    hide TagAll, TagStep;
    AttrSteps(n);
    TagOne(m, ' ');
    KeyRead(n, key);
    TagAllConcat(m, " ", key);
    TagOne(Attrs(n), '=');
    TagAllConcat(m, " " + key, "=");
    TagOne(Attrs(n), '\'');
    TagAllConcat(m, " " + key + "=", "'");
    assert " " + key + "='" == " " + key + "=" + "'";
  }

  lemma AttrRead(m: Mode, n: string, key: string, val: string)
    requires m == Name(n) || m == Attrs(n)
    requires KeyOk(key)
    requires ValueOk(val)
    ensures TagAll(m, AttrText(key, val)) == Attrs(n)
  {
    hide TagAll, TagStep;
    AttrSteps(n);
    KeyQuoteRead(m, n, key);
    QuotedRead(n, val);
    TagAllConcat(m, " " + key + "='", val);
    TagOne(Quoted(n, '\''), '\'');
    TagAllConcat(m, " " + key + "='" + val, "'");
    assert AttrText(key, val) == " " + key + "='" + val + "'";
  }

  predicate AttrsOk(attrs: seq<(string, string)>) {
    forall i :: 0 <= i < |attrs| ==> KeyOk(attrs[i].0) && ValueOk(attrs[i].1)
  }

  lemma {:induction false} AttrsRead(n: string, attrs: seq<(string, string)>)
    requires AttrsOk(attrs)
    ensures TagAll(Name(n), AttrsText(attrs)) == if attrs == [] then Name(n) else Attrs(n)
  {
    if attrs != [] {
      AttrsRead(n, Front(attrs));
      TagAllConcat(Name(n), AttrsText(Front(attrs)), AttrText(Last(attrs).0, Last(attrs).1));
      AttrRead(TagAll(Name(n), AttrsText(Front(attrs))), n, Last(attrs).0, Last(attrs).1);
    }
  }

  lemma NameAttrsRead(n: string, attrs: seq<(string, string)>)
    requires IsName(n) && AttrsOk(attrs)
    ensures TagAll(Opened, n + AttrsText(attrs)) == if attrs == [] then Name(n) else Attrs(n)
  {
    NameRead(n);
    AttrsRead(n, attrs);
    TagAllConcat(Opened, n, AttrsText(attrs));
  }

  lemma StartTagOf(n: string, attrs: seq<(string, string)>)
    requires IsName(n) && AttrsOk(attrs)
    ensures TagOf(StartTagText(n, attrs)) == Some(StartTag(n))
  {
    NameAttrsRead(n, attrs);
    var t := StartTagText(n, attrs);
    assert t[1..|t| - 1] == n + AttrsText(attrs);
  }

  lemma EmptyTagOf(n: string, attrs: seq<(string, string)>)
    requires IsName(n) && AttrsOk(attrs)
    ensures TagOf(EmptyTagText(n, attrs)) == Some(EmptyTag(n))
  {
    var u := n + AttrsText(attrs);
    NameAttrsRead(n, attrs);
    hide TagAll, IsName, AttrsOk, AttrsText;
    assert TagAll(Opened, u + "/") == Slash(n) by {
      TagAllConcat(Opened, u, "/");
      TagOne(TagAll(Opened, u), '/');
    }
    var t := EmptyTagText(n, attrs);
    assert t[1..|t| - 1] == u + "/";
  }

  lemma EndTagOf(n: string)
    requires IsName(n)
    ensures TagOf(EndTagText(n)) == Some(EndTag(n))
  {
    EndNameRead(n);
    hide TagAll, IsName;
    TagOne(Opened, '/');
    TagAllConcat(Opened, "/", n);
    var t := EndTagText(n);
    assert t[1..|t| - 1] == "/" + n;
  }

  // ----- values

  lemma {:induction false} PlainValue(val: string)
    requires forall i :: 0 <= i < |val| ==> val[i] != '&' && val[i] != '\'' && val[i] != '<'
    ensures ValueOk(val)
    decreases |val|
  {
    if val != [] {
      PlainValue(val[1..]);
    }
  }

  lemma {:induction false} UntilPrefix(a: string, b: string, c: char)
    requires Until(a, c) < |a|
    ensures Until(a + b, c) == Until(a, c)
  {
    if a[0] != c {
      UntilPrefix(a[1..], b, c);
      assert (a + b)[1..] == a[1..] + b;
    }
  }

  lemma {:induction false} ValueConcat(a: string, b: string)
    requires ValueOk(a) && ValueOk(b)
    ensures ValueOk(a + b)
    decreases |a|
  {
    hide IsReference;
    if a == [] {
      assert a + b == b;
    } else if a[0] == '&' {
      var j := Until(a, ';');
      UntilPrefix(a, b, ';');
      ValueConcat(a[j + 1..], b);
      assert (a + b)[1..j] == a[1..j];
      assert (a + b)[j + 1..] == a[j + 1..] + b;
    } else {
      ValueConcat(a[1..], b);
      assert (a + b)[1..] == a[1..] + b;
    }
  }

  // ----- reading from the front

  lemma ReadOne(r: Reading, c: char)
    ensures Read(r, [c]) == ReadChar(r, c)
  {
    assert Front([c]) == [];
  }

  lemma ReadFirst(r: Reading, s: string)
    requires s != []
    ensures Read(r, s) == Read(ReadChar(r, s[0]), s[1..])
  {
    ReadOne(r, s[0]);
    ReadConcat(r, [s[0]], s[1..]);
    assert s == [s[0]] + s[1..];
  }

  lemma {:induction false} MalformedStays(s: string)
    ensures Read(Malformed, s) == Malformed
  {
    if s != [] {
      MalformedStays(Front(s));
    }
  }
}
