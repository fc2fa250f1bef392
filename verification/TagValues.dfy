/**
 What a value does that is written unescaped as the last attribute of a tag: to the tag, and to the document around it.
 Every value is covered as long as it does not end its own tag.
 */
module TagValues {
  import opened Strings
  import opened XmlNesting

  // ----- the tag

  /**
   Between apostrophes at the end of a tag, the value leaves the tag ready to be closed. For a value without apostrophes
   this means that it is acceptable; one with apostrophes may bring further attributes along.
   */
  predicate Quotable(val: string) {
    TagAll(Quoted([], '\''), val + "'") == Attrs([])
  }

  predicate IsQuote(c: char) {
    c == '\'' || c == '"'
  }

  /** The modes that a start tag can be in behind the opening quote of a value. */
  predicate IsBehindQuote(m: Mode) {
    match m
    case Quoted(_, q) => IsQuote(q)
    case QuotedRef(_, q, _) => IsQuote(q)
    case _ => m.Attrs? || m.Slash? || m.BadTag?
  }

  function Renamed(m: Mode, n: string): Mode {
    match m
    case Attrs(_) => Attrs(n)
    case Quoted(_, q) => Quoted(n, q)
    case QuotedRef(_, q, r) => QuotedRef(n, q, r)
    case Slash(_) => Slash(n)
    case _ => m
  }

  lemma RenamedStep(m: Mode, n: string, c: char)
    requires IsBehindQuote(m)
    ensures IsBehindQuote(TagStep(m, c)) && TagStep(Renamed(m, n), c) == Renamed(TagStep(m, c), n)
  {
    hide IsReference, IsWSpace;
  }

  /** Reading values does not depend on the name of the tag. */
  lemma {:induction false} RenamedAll(m: Mode, n: string, s: string)
    requires IsBehindQuote(m)
    ensures IsBehindQuote(TagAll(m, s)) && TagAll(Renamed(m, n), s) == Renamed(TagAll(m, s), n)
  {
    if s != [] {
      hide TagStep, Renamed, IsBehindQuote;
      RenamedAll(m, n, Front(s));
      RenamedStep(TagAll(m, Front(s)), n, Last(s));
    }
  }

  lemma QuoteStep(m: Mode)
    requires IsBehindQuote(m)
    ensures var m' := TagStep(m, '\''); m'.Attrs? || m'.Quoted? || m'.BadTag?
  {
    hide IsReference, IsWSpace;
  }

  /** Behind the closing apostrophe the tag is ready to be closed, or inside another value, or broken. */
  lemma ValueEnds(n: string, val: string)
    ensures var m := TagAll(Quoted(n, '\''), val + "'");
      if Quotable(val) then m == Attrs(n) else m.BadTag? || (m.Quoted? && IsQuote(m.quote))
  {
    hide TagAll, TagStep;
    var m := Quoted([], '\'');
    RenamedAll(m, n, val + "'");
    RenamedAll(m, n, val);
    TagAllLast(m, val + "'", val, '\'');
    QuoteStep(TagAll(m, val));
    NameStays(m, val + "'");
  }

  lemma {:induction false} NameStays(m: Mode, s: string)
    requires IsBehindQuote(m) && !m.BadTag?
    ensures TagAll(m, s).BadTag? || (IsBehindQuote(TagAll(m, s)) && TagAll(m, s).name == m.name)
  {
    hide TagAll;
    RenamedAll(m, m.name, s);
    assert Renamed(m, m.name) == m;
  }

  /** The tag up to the opening quote of its last value. */
  function ValueHead(n: string, attrs: seq<(string, string)>, key: string): string {
    n + AttrsText(attrs) + (" " + key + "='")
  }

  lemma ValueHeadRead(n: string, attrs: seq<(string, string)>, key: string)
    requires IsName(n) && AttrsOk(attrs) && KeyOk(key)
    ensures TagAll(Opened, ValueHead(n, attrs, key)) == Quoted(n, '\'')
  {
    hide TagAll, AttrsText;
    NameAttrsRead(n, attrs);
    KeyQuoteRead(TagAll(Opened, n + AttrsText(attrs)), n, key);
    TagAllConcat(Opened, n + AttrsText(attrs), " " + key + "='");
  }

  lemma TagParts(n: string, attrs: seq<(string, string)>, key: string, val: string)
    ensures StartTagText(n, attrs + [(key, val)]) == "<" + ValueHead(n, attrs, key) + (val + "'") + ">"
  {
    assert Front(attrs + [(key, val)]) == attrs;
  }

  /** The markup is one start tag exactly when the value can be quoted. */
  lemma ValueTagOf(n: string, attrs: seq<(string, string)>, key: string, val: string)
    requires IsName(n) && AttrsOk(attrs) && KeyOk(key)
    ensures TagOf(StartTagText(n, attrs + [(key, val)])) == if Quotable(val) then Some(StartTag(n)) else None
  {
    hide TagAll, Quotable, IsName, AttrsOk, KeyOk;
    var head, t := ValueHead(n, attrs, key), StartTagText(n, attrs + [(key, val)]);
    ValueHeadRead(n, attrs, key);
    TagParts(n, attrs, key, val);
    hide ValueHead;
    assert t[1..|t| - 1] == head + (val + "'");
    TagAllConcat(Opened, head, val + "'");
    ValueEnds(n, val);
  }

  // ----- values without apostrophes

  lemma TagFirst(m: Mode, s: string)
    requires s != []
    ensures TagAll(m, s) == TagAll(TagStep(m, s[0]), s[1..])
  {
    hide TagAll;
    TagOne(m, s[0]);
    TagAllConcat(m, [s[0]], s[1..]);
    assert s == [s[0]] + s[1..];
  }

  lemma {:induction false} BrokenStays(s: string)
    ensures TagAll(BadTag, s) == BadTag
  {
    if s != [] {
      BrokenStays(Front(s));
    }
  }

  /** What stands behind '&' and `name` is no acceptable rest of a reference, or is followed by no acceptable value. */
  predicate IsBadReference(name: string, s: string) {
    var j := Until(s, ';');
    j == |s| || !IsReference(name + s[..j]) || !ValueOk(s[j + 1..])
  }

  lemma BadRemainder(name: string, s: string)
    requires s != [] && s[0] == ';' && IsBadReference(name, s)
    ensures IsReference(name) ==> !ValueOk(s[1..])
  {
    assert name + s[..0] == name;
  }

  lemma BadRest(name: string, s: string)
    requires s != [] && s[0] != ';' && IsBadReference(name, s)
    ensures IsBadReference(name + [s[0]], s[1..])
  {
    hide IsReference, ValueOk;
    var j := Until(s, ';');
    if j < |s| {
      assert s[1..][..j - 1] == s[1..j] && s[1..][j..] == s[j + 1..];
      assert name + [s[0]] + s[1..j] == name + s[..j];
    }
  }

  lemma BadFirstReference(val: string)
    requires val != [] && val[0] == '&' && !ValueOk(val)
    ensures IsBadReference([], val[1..])
  {
    hide IsReference;
    var j, rest := Until(val, ';'), val[1..];
    if j < |val| {
      assert [] + rest[..j - 1] == val[1..j] && rest[j..] == val[j + 1..];
    }
  }

  lemma ReferenceStep(n: string, name: string, c: char)
    ensures TagStep(QuotedRef(n, '\'', name), c) ==
      if c == ';' then (if IsReference(name) then Quoted(n, '\'') else BadTag)
      else if IsNameChar(c) then QuotedRef(n, '\'', name + [c])
      else BadTag
    ensures !IsNameChar('\'')
  {
    hide IsReference;
  }

  lemma ValueStep(n: string, c: char)
    requires c != '\''
    ensures TagStep(Quoted(n, '\''), c) ==
      if c == '<' then BadTag else if c == '&' then QuotedRef(n, '\'', []) else Quoted(n, '\'')
  {
  }

  /** Without its ';', with a name that is no reference, or before a bad remainder, a reference breaks the tag. */
  lemma {:induction false} BadReferenceBreaks(n: string, name: string, s: string)
    requires '\'' !in s && IsBadReference(name, s)
    ensures TagAll(QuotedRef(n, '\'', name), s + "'") == BadTag
    decreases |s|
  {
    hide TagAll, TagStep, IsReference, IsNameChar, IsBadReference;
    var t := s + "'";
    TagFirst(QuotedRef(n, '\'', name), t);
    ReferenceStep(n, name, t[0]);
    assert t[1..] == if s == [] then [] else s[1..] + "'";
    BrokenStays(t[1..]);
    if s == [] {
    } else if s[0] == ';' {
      BadRemainder(name, s);
      if IsReference(name) {
        BadValueBreaks(n, s[1..]);
      }
    } else {
      BadRest(name, s);
      BadReferenceBreaks(n, name + [s[0]], s[1..]);
    }
  }

  /** A value without apostrophes that is not acceptable breaks the tag. */
  lemma {:induction false} BadValueBreaks(n: string, val: string)
    requires '\'' !in val && !ValueOk(val)
    ensures TagAll(Quoted(n, '\''), val + "'") == BadTag
    decreases |val|
  {
    hide TagAll, TagStep, IsReference;
    var t, rest := val + "'", val[1..];
    TagFirst(Quoted(n, '\''), t);
    ValueStep(n, val[0]);
    assert t[1..] == rest + "'";
    if val[0] == '<' {
      BrokenStays(rest + "'");
    } else if val[0] == '&' {
      BadFirstReference(val);
      BadReferenceBreaks(n, [], rest);
    } else {
      BadValueBreaks(n, rest);
    }
  }

  lemma OkIsQuotable(val: string)
    requires ValueOk(val)
    ensures Quotable(val)
  {
    hide TagAll, TagStep, ValueOk;
    var m := Quoted([], '\'');
    QuotedRead([], val);
    TagAllLast(m, val + "'", val, '\'');
    AttrSteps([]);
  }

  /** For values without apostrophes, what can be quoted is what may stand between apostrophes. */
  lemma QuotableIff(val: string)
    requires '\'' !in val
    ensures Quotable(val) <==> ValueOk(val)
  {
    hide TagAll, ValueOk;
    if ValueOk(val) {
      OkIsQuotable(val);
    } else {
      BadValueBreaks([], val);
    }
  }

  // ----- values with apostrophes

  function Apostrophes(s: string): nat {
    if s == [] then 0 else Apostrophes(Front(s)) + if Last(s) == '\'' then 1 else 0
  }

  predicate IsInQuotes(m: Mode) {
    (m.Quoted? || m.QuotedRef?) && m.quote == '\''
  }

  /** Without double quotes, apostrophes open and close values in turn. */
  lemma {:induction false} ApostrophesAlternate(s: string)
    requires '"' !in s
    ensures var m := TagAll(Quoted([], '\''), s);
      m.BadTag? || if Apostrophes(s) % 2 == 0 then IsInQuotes(m) else m.Attrs? || m.Slash?
  {
    if s != [] {
      hide IsReference, IsWSpace;
      ApostrophesAlternate(Front(s));
      assert Last(s) in s;
    }
  }

  /** An odd number of apostrophes leaves a value open. */
  lemma OddIsNotQuotable(val: string)
    requires '"' !in val && Apostrophes(val) % 2 == 1
    ensures !Quotable(val)
  {
    hide TagAll;
    assert Front(val + "'") == val;
    ApostrophesAlternate(val + "'");
  }

  // ----- the document

  /** No '>' in `s` finishes the tag that the reader is inside in mode `m`. */
  predicate NoneFinishes(m: Mode, s: string) {
    forall i :: 0 <= i < |s| && s[i] == '>' ==> Finished(TagAll(m, s[..i])).None?
  }

  lemma NoneFinishesFront(m: Mode, s: string)
    requires s != [] && NoneFinishes(m, s)
    ensures NoneFinishes(m, Front(s)) && (Last(s) == '>' ==> Finished(TagAll(m, Front(s))).None?)
  {
    hide TagAll, Finished;
    var w := Front(s);
    assert forall i :: 0 <= i < |w| ==> w[..i] == s[..i] && w[i] == s[i];
  }

  /** Inside a tag the reader follows the tag's own steps as long as no '>' finishes it. */
  lemma {:induction false} ReadWithin(r: Reading, m: Mode, text: string, s: string)
    requires r.Reading? && r.lexing == InTag(m, text) && !m.BadTag?
    requires NoneFinishes(m, s)
    ensures Read(r, s) ==
      if TagAll(m, s).BadTag? then Malformed else r.(lexing := InTag(TagAll(m, s), text + s))
  {
    if s == [] {
      assert text + s == text;
    } else {
      hide Read, ReadChar, TagAll, TagStep, Finished, NoneFinishes;
      var w, c := Front(s), Last(s);
      NoneFinishesFront(m, s);
      ReadWithin(r, m, text, w);
      ReadLast(r, s, w, c);
      TagAllLast(m, s, w, c);
      BadTagStays(c);
      MalformedChar(c);
      if !TagAll(m, w).BadTag? {
        ReadUnfinished(Read(r, w), TagAll(m, w), text + w, c);
        assert text + w + [c] == text + s;
      }
    }
  }

  lemma MalformedChar(c: char)
    ensures ReadChar(Malformed, c) == Malformed
  {
  }

  lemma ReadUnfinished(r: Reading, m: Mode, text: string, c: char)
    requires r.Reading? && r.lexing == InTag(m, text)
    requires c == '>' ==> Finished(m).None?
    ensures ReadChar(r, c) ==
      if TagStep(m, c).BadTag? then Malformed else r.(lexing := InTag(TagStep(m, c), text + [c]))
  {
    hide IsReference, IsWSpace, Apply;
  }

  /** The value does not end the tag that it is written into. */
  predicate Contained(val: string) {
    NoneFinishes(Quoted([], '\''), val)
  }

  lemma ContainedValue(n: string, val: string)
    requires Contained(val)
    ensures NoneFinishes(Quoted(n, '\''), val + "'")
  {
    hide TagAll;
    var s := val + "'";
    forall i | 0 <= i < |s| && s[i] == '>'
      ensures Finished(TagAll(Quoted(n, '\''), s[..i])).None?
    {
      assert s[i] == val[i] && s[..i] == val[..i];
      RenamedAll(Quoted([], '\''), n, val[..i]);
    }
  }

  lemma {:induction false} BeforeApostrophe(n: string, s: string)
    requires '\'' !in s
    ensures var m := TagAll(Quoted(n, '\''), s); m.BadTag? || IsInQuotes(m)
  {
    if s != [] {
      hide IsReference, IsWSpace;
      BeforeApostrophe(n, Front(s));
      assert Last(s) in s;
    }
  }

  /** A value with no '>' behind an apostrophe does not end its tag. */
  lemma TameIsContained(val: string)
    requires forall i, j :: 0 <= i < j < |val| && val[i] == '\'' ==> val[j] != '>'
    ensures Contained(val)
  {
    hide TagAll;
    forall i | 0 <= i < |val| && val[i] == '>'
      ensures Finished(TagAll(Quoted([], '\''), val[..i])).None?
    {
      assert forall j :: 0 <= j < i ==> val[..i][j] == val[j];
      BeforeApostrophe([], val[..i]);
    }
  }

  /** The document is broken, or the reader is inside a quoted value. */
  predicate IsLost(r: Reading) {
    r.Malformed? || (r.lexing.InTag? && (r.lexing.mode.Quoted? || r.lexing.mode.QuotedRef?) &&
      IsQuote(r.lexing.mode.quote))
  }

  lemma LostChar(r: Reading, c: char)
    requires IsLost(r) && !IsQuote(c)
    ensures IsLost(ReadChar(r, c)) && (c == '<' ==> ReadChar(r, c).Malformed?)
  {
    hide IsReference, IsWSpace, Apply;
  }

  /**
   A value that cannot be quoted leaves the reader lost behind its tag; without apostrophes it breaks the document.
   */
  lemma BadValueLoses(r: Reading, n: string, attrs: seq<(string, string)>, key: string, val: string)
    requires r.Reading? && r.lexing == Content
    requires IsName(n) && AttrsOk(attrs) && KeyOk(key)
    requires Contained(val) && !Quotable(val)
    ensures IsLost(Read(r, StartTagText(n, attrs + [(key, val)])))
    ensures '\'' !in val ==> Read(r, StartTagText(n, attrs + [(key, val)])).Malformed?
  {
    hide TagAll, IsName, AttrsOk, KeyOk, Read, ReadChar, Quotable, ValueHead, StartTagText, NoneFinishes;
    var head, s := ValueHead(n, attrs, key), val + "'";
    ValueHeadRead(n, attrs, key);
    ReadInside(r, head);
    TagParts(n, attrs, key, val);
    ContainedValue(n, val);
    var r1 := Read(r, "<" + head);
    ReadWithin(r1, Quoted(n, '\''), "<" + head, s);
    ReadConcat(r, "<" + head, s);
    ReadLast(r, "<" + head + s + ">", "<" + head + s, '>');
    ValueEnds(n, val);
    LostChar(Read(r1, s), '>');
    MalformedChar('>');
    if '\'' !in val {
      QuotableIff(val);
      BadValueBreaks(n, val);
    }
  }

  /** The first quote or '<', if any, is a '<'. */
  predicate IsQuiet(s: string) {
    s == [] || s[0] == '<' || (!IsQuote(s[0]) && IsQuiet(s[1..]))
  }

  lemma {:induction false} QuietConcat(a: string, b: string)
    requires IsQuiet(a) && IsQuiet(b)
    ensures IsQuiet(a + b)
  {
    if a == [] {
      assert a + b == b;
    } else if a[0] != '<' {
      QuietConcat(a[1..], b);
      assert (a + b)[1..] == a[1..] + b;
    }
  }

  /** A lost reader finds the document broken at the next tag. */
  lemma {:induction false} LostStaysLost(r: Reading, s: string)
    requires IsLost(r) && IsQuiet(s)
    ensures IsLost(Read(r, s)) && ('<' in s ==> Read(r, s).Malformed?)
    decreases |s|
  {
    if s != [] {
      hide Read, ReadChar, IsQuote;
      ReadFirst(r, s);
      LostBracket(r);
      if s[0] == '<' {
        MalformedStays(s[1..]);
      } else {
        LostChar(r, s[0]);
        LostStaysLost(ReadChar(r, s[0]), s[1..]);
        assert '<' in s ==> '<' in s[1..];
      }
    }
  }

  lemma LostBracket(r: Reading)
    requires IsLost(r)
    ensures ReadChar(r, '<').Malformed?
  {
    LostChar(r, '<');
  }
}
