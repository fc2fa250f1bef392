/** StripSSML as a function, and how it acts on the pieces that BuildSSML writes. */
module SsmlStrip {
  import opened Strings
  import opened XmlNesting
  import opened Ssml

  /** The text left of `s` when tags and comments are dropped and entities decoded, before trimming. */
  function StripFrom(s: string, inTag: bool, inComment: bool): string
    decreases |s|
  {
    if s == [] then []
    else if inComment then
      if "-->" <= s then StripFrom(s[3..], inTag, false) else StripFrom(s[1..], inTag, true)
    else if s[0] == '<' then
      if "<!--" <= s then StripFrom(s[4..], inTag, true) else StripFrom(s[1..], true, false)
    else if s[0] == '>' then StripFrom(s[1..], false, false)
    else if inTag then StripFrom(s[1..], true, false)
    else if "&lt;" <= s then "<" + StripFrom(s[4..], false, false)
    else if "&gt;" <= s then ">" + StripFrom(s[4..], false, false)
    else if "&amp;" <= s then "&" + StripFrom(s[5..], false, false)
    else if "&quot;" <= s then "\"" + StripFrom(s[6..], false, false)
    else if "&apos;" <= s then "'" + StripFrom(s[6..], false, false)
    else [s[0]] + StripFrom(s[1..], false, false)
  }

  function Strip(s: string): string {
    Trim(StripFrom(s, false, false))
  }

  /** Whatever follows, `doc` contributes exactly `out`. */
  ghost predicate StripsTo(doc: string, out: string) {
    forall rest: string :: StripFrom(doc + rest, false, false) == out + StripFrom(rest, false, false)
  }

  lemma StripsToConcat(a: string, x: string, b: string, y: string)
    requires StripsTo(a, x) && StripsTo(b, y)
    ensures StripsTo(a + b, x + y)
  {
    hide StripFrom;
    forall rest: string
      ensures StripFrom(a + b + rest, false, false) == x + y + StripFrom(rest, false, false)
    {
      assert a + b + rest == a + (b + rest);
      assert StripFrom(a + (b + rest), false, false) == x + StripFrom(b + rest, false, false);
      assert x + (y + StripFrom(rest, false, false)) == x + y + StripFrom(rest, false, false);
    }
  }

  lemma StripsToNothing()
    ensures StripsTo([], [])
  {
    forall rest: string
      ensures StripFrom([] + rest, false, false) == [] + StripFrom(rest, false, false)
    {
      assert [] + rest == rest;
    }
  }

  // ----- text

  lemma PlainCharStrips(c: char)
    requires c != '<' && c != '>' && c != '&'
    ensures StripsTo([c], [c])
  {
    forall rest: string
      ensures StripFrom([c] + rest, false, false) == [c] + StripFrom(rest, false, false)
    {
      assert ([c] + rest)[1..] == rest;
    }
  }

  lemma EntityStrips(c: char)
    requires IsEscaped(c)
    ensures StripsTo(EscapeChar(c), [c])
  {
    var e := EscapeChar(c);
    forall rest: string
      ensures StripFrom(e + rest, false, false) == [c] + StripFrom(rest, false, false)
    {
      var s := e + rest;
      assert e <= s && s[0] == '&' && s[1] == e[1] && s[2] == e[2];
      assert s[|e|..] == rest;
    }
  }

  lemma {:induction false} EscapedStrips(t: string)
    ensures StripsTo(Escape(t), t)
  {
    if t == [] {
      StripsToNothing();
    } else {
      hide StripsTo, EscapeChar;
      EscapedStrips(Front(t));
      var c := Last(t);
      if IsEscaped(c) {
        EntityStrips(c);
      } else {
        PlainCharStrips(c);
      }
      StripsToConcat(Escape(Front(t)), Front(t), EscapeChar(c), [c]);
      assert t == Front(t) + [c];
    }
  }

  /** Stripping an escaped text gives the text back, trimmed. */
  lemma StripOfEscape(t: string)
    ensures Strip(Escape(t)) == Trim(t)
  {
    EscapedStrips(t);
    assert Escape(t) + [] == Escape(t);
    assert t + [] == t;
  }

  // ----- tags

  predicate Unbracketed(s: string) {
    forall i :: 0 <= i < |s| ==> s[i] != '<' && s[i] != '>'
  }

  /** From '<' to '>' with neither in between, and not a comment. */
  predicate PlainTag(t: string) {
    |t| >= 2 && t[0] == '<' && Last(t) == '>' && Unbracketed(t[1..|t| - 1]) && !("<!--" <= t)
  }

  lemma {:induction false} InsideTagSkips(inner: string, rest: string)
    requires Unbracketed(inner)
    ensures StripFrom(inner + ">" + rest, true, false) == StripFrom(rest, false, false)
  {
    var s := inner + ">" + rest;
    if inner == [] {
      assert s[1..] == rest;
    } else {
      assert s[0] == inner[0];
      assert s[1..] == inner[1..] + ">" + rest;
      InsideTagSkips(inner[1..], rest);
    }
  }

  lemma TagStrips(t: string)
    requires PlainTag(t)
    ensures StripsTo(t, [])
  {
    var inner := t[1..|t| - 1];
    forall rest: string
      ensures StripFrom(t + rest, false, false) == [] + StripFrom(rest, false, false)
    {
      var s := t + rest;
      assert s[1..] == inner + ">" + rest;
      assert s[|t| - 1] == '>' && (|t| >= 4 ==> s[..4] == t[..4]);
      InsideTagSkips(inner, rest);
    }
  }

  predicate AttrsUnbracketed(attrs: seq<(string, string)>) {
    forall i :: 0 <= i < |attrs| ==> Unbracketed(attrs[i].0) && Unbracketed(attrs[i].1)
  }

  lemma {:induction false} AttrsTextUnbracketed(attrs: seq<(string, string)>)
    requires AttrsUnbracketed(attrs)
    ensures Unbracketed(AttrsText(attrs))
  {
    if attrs != [] {
      AttrsTextUnbracketed(Front(attrs));
      assert Unbracketed(Last(attrs).0) && Unbracketed(Last(attrs).1);
      assert Unbracketed(AttrText(Last(attrs).0, Last(attrs).1));
    }
  }

  lemma StartTagStrips(name: string, attrs: seq<(string, string)>)
    requires name != [] && name[0] != '!' && Unbracketed(name) && AttrsUnbracketed(attrs)
    ensures StripsTo(StartTagText(name, attrs), [])
  {
    var t := StartTagText(name, attrs);
    AttrsTextUnbracketed(attrs);
    assert t[1..|t| - 1] == name + AttrsText(attrs);
    assert t[1] == name[0];
    TagStrips(t);
  }

  lemma EmptyTagStrips(name: string, attrs: seq<(string, string)>)
    requires name != [] && name[0] != '!' && Unbracketed(name) && AttrsUnbracketed(attrs)
    ensures StripsTo(EmptyTagText(name, attrs), [])
  {
    var t := EmptyTagText(name, attrs);
    AttrsTextUnbracketed(attrs);
    assert t[1..|t| - 1] == name + AttrsText(attrs) + "/";
    assert t[1] == name[0];
    TagStrips(t);
  }

  lemma EndTagStrips(name: string)
    requires Unbracketed(name)
    ensures StripsTo(EndTagText(name), [])
  {
    var t := EndTagText(name);
    assert t[1..|t| - 1] == "/" + name;
    assert t[1] == '/';
    TagStrips(t);
  }

  lemma {:induction false} EscapeUnbracketed(t: string)
    ensures Unbracketed(Escape(t))
  {
    if t != [] {
      EscapeUnbracketed(Front(t));
      assert Unbracketed(EscapeChar(Last(t)));
    }
  }

  lemma NumberUnbracketed(n: int, unit: string)
    requires Unbracketed(unit)
    ensures Unbracketed(ToWString(n) + unit)
  {
    var d := ToWString(n);
    assert forall i :: 0 <= i < |d| ==> d[i] in d;
  }

  // ----- any text, entities, tags and comments

  datatype Item = Text(c: char) | Entity(name: string) | Markup(inner: string) | Comment(body: string)

  function Render(i: Item): string {
    match i
    case Text(c) => [c]
    case Entity(name) => "&" + name + ";"
    case Markup(inner) => "<" + inner + ">"
    case Comment(body) => "<!--" + body + "-->"
  }

  /** What an item says; a '>' on its own says nothing. */
  function Meaning(i: Item): string {
    match i
    case Text(c) => if c == '>' then [] else [c]
    case Entity(name) => if IsPredefined(name) then [PredefinedChar(name)] else []
    case _ => []
  }

  function RenderAll(items: seq<Item>): string {
    if items == [] then [] else Render(items[0]) + RenderAll(items[1..])
  }

  function MeaningOf(items: seq<Item>): string {
    if items == [] then [] else Meaning(items[0]) + MeaningOf(items[1..])
  }

  /** `s` begins like the rest of a predefined entity. */
  predicate BeginsEntity(s: string) {
    "lt;" <= s || "gt;" <= s || "amp;" <= s || "quot;" <= s || "apos;" <= s
  }

  /** The first end of a comment in `s` begins at `n`. */
  predicate EndsAt(s: string, n: nat) {
    n <= |s| && (forall k :: 0 <= k < n ==> !("-->" <= s[k..])) && "-->" <= s[n..]
  }

  /** The item is what it is called, in front of `rest`. */
  predicate ItemOk(i: Item, rest: string) {
    match i
    case Text(c) => c != '<' && (c == '&' ==> !BeginsEntity(rest))
    case Entity(name) => IsPredefined(name)
    case Markup(inner) => Unbracketed(inner) && !("!--" <= inner)
    case Comment(body) => EndsAt(body + "-->", |body|)
  }

  predicate ItemsOk(items: seq<Item>, tail: string) {
    items == [] || (ItemOk(items[0], RenderAll(items[1..]) + tail) && ItemsOk(items[1..], tail))
  }

  /** Nothing, or a tag or a comment that is never closed. */
  predicate IsUnclosed(tail: string) {
    tail == [] ||
    (tail[0] == '<' &&
      if "<!--" <= tail then forall k :: 4 <= k <= |tail| ==> !("-->" <= tail[k..]) else Unbracketed(tail[1..]))
  }

  lemma {:induction false} CommentSkips(s: string, n: nat, inTag: bool)
    requires EndsAt(s, n)
    ensures StripFrom(s, inTag, true) == StripFrom(s[n + 3..], inTag, false)
  {
    if n == 0 {
      assert s[0..] == s;
    } else {
      assert !("-->" <= s[0..]) && s[0..] == s;
      var t := s[1..];
      assert forall k :: 0 <= k <= |t| ==> t[k..] == s[k + 1..];
      CommentSkips(t, n - 1, inTag);
    }
  }

  lemma {:induction false} CommentNeverEnds(s: string, inTag: bool)
    requires forall k :: 0 <= k <= |s| ==> !("-->" <= s[k..])
    ensures StripFrom(s, inTag, true) == []
  {
    if s != [] {
      assert s[0..] == s;
      assert forall k :: 0 <= k <= |s| - 1 ==> s[1..][k..] == s[k + 1..];
      CommentNeverEnds(s[1..], inTag);
    }
  }

  lemma {:induction false} TagNeverEnds(s: string)
    requires Unbracketed(s)
    ensures StripFrom(s, true, false) == []
  {
    if s != [] {
      TagNeverEnds(s[1..]);
    }
  }

  lemma UnclosedStrips(tail: string)
    requires IsUnclosed(tail)
    ensures StripFrom(tail, false, false) == []
  {
    if tail != [] {
      if "<!--" <= tail {
        var s := tail[4..];
        assert forall k :: 0 <= k <= |s| ==> s[k..] == tail[k + 4..];
        CommentNeverEnds(s, true);
        CommentNeverEnds(s, false);
      } else {
        TagNeverEnds(tail[1..]);
      }
    }
  }

  lemma TextItemStrips(c: char, rest: string)
    requires ItemOk(Text(c), rest)
    ensures StripFrom([c] + rest, false, false) == Meaning(Text(c)) + StripFrom(rest, false, false)
  {
    var s := [c] + rest;
    assert s[1..] == rest;
    hide BeginsEntity;
    if c == '&' {
      NoEntity(rest);
    }
  }

  lemma NoEntity(rest: string)
    requires !BeginsEntity(rest)
    ensures var s := "&" + rest;
      !("&lt;" <= s) && !("&gt;" <= s) && !("&amp;" <= s) && !("&quot;" <= s) && !("&apos;" <= s)
  {
    ConsPrefix('&', "lt;", rest);
    ConsPrefix('&', "gt;", rest);
    ConsPrefix('&', "amp;", rest);
    ConsPrefix('&', "quot;", rest);
    ConsPrefix('&', "apos;", rest);
    assert "&lt;" == "&" + "lt;" && "&gt;" == "&" + "gt;" && "&amp;" == "&" + "amp;";
    assert "&quot;" == "&" + "quot;" && "&apos;" == "&" + "apos;";
  }

  lemma ConsPrefix(c: char, p: string, s: string)
    ensures [c] + p <= [c] + s <==> p <= s
  {
    if |p| <= |s| {
      assert ([c] + s)[..|p| + 1] == [c] + s[..|p|];
      assert ([c] + p)[1..] == p && ([c] + s[..|p|])[1..] == s[..|p|];
    }
  }

  lemma EntityItemStrips(name: string, rest: string)
    requires IsPredefined(name)
    ensures StripFrom("&" + name + ";" + rest, false, false) == [PredefinedChar(name)] + StripFrom(rest, false, false)
  {
    var e := "&" + name + ";";
    var s := e + rest;
    assert e <= s && s[0] == '&' && s[1] == e[1] && s[2] == e[2] && s[|e|..] == rest;
  }

  lemma MarkupItemStrips(inner: string, rest: string)
    requires ItemOk(Markup(inner), rest)
    ensures StripFrom("<" + inner + ">" + rest, false, false) == StripFrom(rest, false, false)
  {
    var s, t := "<" + inner + ">" + rest, inner + ">" + rest;
    assert s[1..] == t && s == "<" + t && "<!--" == "<" + "!--";
    ConsPrefix('<', "!--", t);
    if |inner| >= 3 {
      assert t[..3] == inner[..3];
    } else {
      assert t[|inner|] == '>' != "!--"[|inner|];
    }
    InsideTagSkips(inner, rest);
  }

  lemma CommentItemStrips(body: string, rest: string)
    requires ItemOk(Comment(body), rest)
    ensures StripFrom("<!--" + body + "-->" + rest, false, false) == StripFrom(rest, false, false)
  {
    var s, t := "<!--" + body + "-->" + rest, body + "-->" + rest;
    assert s[4..] == t && s[..4] == "<!--";
    CommentStays(body, rest);
    CommentSkips(t, |body|, false);
    assert t[|body| + 3..] == rest;
  }

  /** The end of a comment does not depend on what follows it. */
  lemma CommentStays(body: string, rest: string)
    requires EndsAt(body + "-->", |body|)
    ensures EndsAt(body + "-->" + rest, |body|)
  {
    var u, t := body + "-->", body + "-->" + rest;
    forall k | 0 <= k < |body|
      ensures !("-->" <= t[k..])
    {
      assert u[k..][..3] == t[k..][..3];
      assert !("-->" <= u[k..]);
    }
    assert t[|body|..] == "-->" + rest;
  }

  lemma ItemStrips(i: Item, rest: string)
    requires ItemOk(i, rest)
    ensures StripFrom(Render(i) + rest, false, false) == Meaning(i) + StripFrom(rest, false, false)
  {
    hide StripFrom, ItemOk, PredefinedChar;
    assert [] + StripFrom(rest, false, false) == StripFrom(rest, false, false);
    match i
    case Text(c) => TextItemStrips(c, rest);
    case Entity(name) =>
      assert IsPredefined(name) by { EntityIsPredefined(name, rest); }
      EntityItemStrips(name, rest);
    case Markup(inner) => MarkupItemStrips(inner, rest);
    case Comment(body) => CommentItemStrips(body, rest);
  }

  lemma EntityIsPredefined(name: string, rest: string)
    requires ItemOk(Entity(name), rest)
    ensures IsPredefined(name)
  {
  }

  /**
   Of any text, entities, tags and comments, with a tag or comment left open at the end or not, what is left is the text
   and the characters that the entities stand for.
   */
  lemma {:induction false} StripOfItems(items: seq<Item>, tail: string)
    requires ItemsOk(items, tail) && IsUnclosed(tail)
    ensures StripFrom(RenderAll(items) + tail, false, false) == MeaningOf(items)
  {
    if items == [] {
      assert RenderAll(items) + tail == tail;
      UnclosedStrips(tail);
    } else {
      hide StripFrom, ItemOk, Render, Meaning, IsUnclosed;
      var first, more := Render(items[0]), RenderAll(items[1..]);
      StripOfItems(items[1..], tail);
      ItemStrips(items[0], more + tail);
      hide RenderAll, MeaningOf;
      assert first + more + tail == first + (more + tail);
    }
  }
}
