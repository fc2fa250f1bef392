/**
 A reference reading of what is inside a tag, independent of the code that writes it: attributes as in section 3.1 of
 XML 1.0, the characters that predefined entities stand for, and numbers with a unit.
 */
module AttributeReading {
  import opened Strings
  import opened XmlNesting
  import opened TagValues
  import opened Ssml

  // ----- attributes

  /** The attribute at the beginning of `s`, and where it ends. */
  function FirstAttribute(s: string): (r: Option<((string, string), nat)>)
    ensures r.Some? ==> 0 < r.value.1 <= |s|
  {
    var e := Until(s, '=');
    if e + 1 >= |s| || !IsQuote(s[e + 1]) then None
    else
      var q := e + 2 + Until(s[e + 2..], s[e + 1]);
      if q >= |s| then None else Some(((s[..e], s[e + 2..q]), q + 1))
  }

  /** The attributes in what stands between an element's name and the end of its tag. */
  function ReadAttributes(s: string): Option<seq<(string, string)>>
    decreases |s|
  {
    if s == [] || s == "/" then Some([])
    else if IsXmlSpace(s[0]) then ReadAttributes(s[1..])
    else match FirstAttribute(s)
      case None => None
      case Some((attr, n)) =>
        match ReadAttributes(s[n..]) case None => None case Some(rest) => Some([attr] + rest)
  }

  /** Where the name at the beginning of `u` ends. */
  function NameEnd(u: string): (n: nat)
    ensures n <= |u|
  {
    if u == [] || !IsNameChar(u[0]) then 0 else 1 + NameEnd(u[1..])
  }

  function AttributesOf(tag: string): Option<seq<(string, string)>> {
    if |tag| < 2 then None else var u := tag[1..|tag| - 1]; ReadAttributes(u[NameEnd(u)..])
  }

  function Lookup(attrs: seq<(string, string)>, key: string): Option<string> {
    if attrs == [] then None else if attrs[0].0 == key then Some(attrs[0].1) else Lookup(attrs[1..], key)
  }

  function AttributeAt(tag: string, key: string): Option<string> {
    match AttributesOf(tag) case None => None case Some(attrs) => Lookup(attrs, key)
  }

  /** A key without blanks and equals signs, and a value without apostrophes. */
  predicate IsPlainAttr(key: string, val: string) {
    key != [] && (forall i :: 0 <= i < |key| ==> !IsXmlSpace(key[i]) && key[i] != '=') && '\'' !in val
  }

  predicate ArePlain(attrs: seq<(string, string)>) {
    forall i :: 0 <= i < |attrs| ==> IsPlainAttr(attrs[i].0, attrs[i].1)
  }

  lemma {:induction false} UntilIs(s: string, c: char, k: nat)
    requires k < |s| && s[k] == c && forall i :: 0 <= i < k ==> s[i] != c
    ensures Until(s, c) == k
  {
    if k > 0 {
      UntilIs(s[1..], c, k - 1);
    }
  }

  lemma ReadOneAttribute(s: string, e: nat, n: nat)
    requires s != [] && s != "/" && !IsXmlSpace(s[0]) && Until(s, '=') == e
    requires e + 2 + n < |s| && s[e + 1] == '\'' && Until(s[e + 2..], '\'') == n
    ensures FirstAttribute(s) == Some(((s[..e], s[e + 2..e + 2 + n]), e + 2 + n + 1))
  {
    hide Until, IsXmlSpace;
  }

  /** One attribute in front of anything. */
  lemma AttributeRead(key: string, val: string, rest: string)
    requires IsPlainAttr(key, val)
    ensures ReadAttributes(AttrText(key, val) + rest) ==
      match ReadAttributes(rest) case None => None case Some(more) => Some([(key, val)] + more)
  {
    hide ReadAttributes, Until, IsXmlSpace, IsPlainAttr, FirstAttribute;
    var tail := val + "'" + rest;
    var s, e := key + "='" + tail, |key|;
    AttrParts(key, val, rest);
    SpaceFirst(s);
    PlainKeyAlone(key, val);
    KeyEnds(key, tail);
    ValueIsRead(val, rest);
    ReadOneAttribute(s, e, |val|);
    ReadFirstAttribute(s, key, val, e + 2 + |val| + 1);
  }

  lemma AttrParts(key: string, val: string, rest: string)
    ensures var tail := val + "'" + rest; var s, e := key + "='" + tail, |key|;
      && AttrText(key, val) + rest == " " + s && s[e + 1] == '\'' && s[..e] == key && s[e + 2..] == tail
      && s[e + 2..e + 2 + |val|] == val && s[e + 2 + |val| + 1..] == rest
  {
    var tail := val + "'" + rest;
    var s, e := key + "='" + tail, |key|;
    assert AttrText(key, val) + rest == " " + s;
    assert s[e + 2..] == tail && tail[|val| + 1..] == rest;
    assert s[e + 2..e + 2 + |val|] == tail[..|val|] == val;
  }

  lemma ReadFirstAttribute(s: string, key: string, val: string, n: nat)
    requires s != [] && s != "/" && !IsXmlSpace(s[0]) && FirstAttribute(s) == Some(((key, val), n))
    ensures ReadAttributes(s) ==
      match ReadAttributes(s[n..]) case None => None case Some(rest) => Some([(key, val)] + rest)
  {
    hide FirstAttribute, IsXmlSpace;
  }

  lemma PlainKeyAlone(key: string, val: string)
    requires IsPlainAttr(key, val)
    ensures IsPlainAttr(key, []) && '\'' !in val
  {
  }

  lemma KeyEnds(key: string, tail: string)
    requires IsPlainAttr(key, [])
    ensures var s := key + "='" + tail; Until(s, '=') == |key| && !IsXmlSpace(s[0]) && |s| >= |key| + 2 && s != "/"
  {
    var s := key + "='" + tail;
    assert forall i :: 0 <= i < |key| ==> s[i] == key[i];
    UntilIs(s, '=', |key|);
    assert |s| >= 3;
  }

  lemma ValueIsRead(val: string, rest: string)
    requires '\'' !in val
    ensures Until(val + "'" + rest, '\'') == |val|
  {
    var s := val + "'" + rest;
    assert forall i :: 0 <= i < |val| ==> s[i] == val[i] && val[i] in val;
    UntilIs(s, '\'', |val|);
  }

  lemma SpaceFirst(s: string)
    ensures " " + s != "/" && ReadAttributes(" " + s) == ReadAttributes(s)
  {
    assert (" " + s)[1..] == s && (" " + s)[0] == ' ';
  }

  lemma {:induction false} AttrsTextFirst(attrs: seq<(string, string)>)
    requires attrs != []
    ensures AttrsText(attrs) == AttrText(attrs[0].0, attrs[0].1) + AttrsText(attrs[1..])
  {
    hide AttrText;
    if |attrs| == 1 {
      assert Front(attrs) == [] == attrs[1..];
    } else {
      AttrsTextFirst(Front(attrs));
      var mid := Front(attrs)[1..];
      assert mid == Front(attrs[1..]) && Last(attrs[1..]) == Last(attrs);
      assert AttrsText(attrs[1..]) == AttrsText(mid) + AttrText(Last(attrs).0, Last(attrs).1);
    }
  }

  lemma AttributeJoins(attr: (string, string), more: seq<(string, string)>, text: string, tail: string)
    requires IsPlainAttr(attr.0, attr.1) && ReadAttributes(text + tail) == Some(more)
    ensures ReadAttributes(AttrText(attr.0, attr.1) + text + tail) == Some([attr] + more)
  {
    hide ReadAttributes, AttrText, IsPlainAttr;
    var first := AttrText(attr.0, attr.1);
    AttributeRead(attr.0, attr.1, text + tail);
    assert first + text + tail == first + (text + tail);
    assert (attr.0, attr.1) == attr;
  }

  /** The attributes written are the attributes read, with or without the slash of an empty tag behind them. */
  lemma {:induction false} AttributesRead(attrs: seq<(string, string)>, tail: string)
    requires ArePlain(attrs) && (tail == [] || tail == "/")
    ensures ReadAttributes(AttrsText(attrs) + tail) == Some(attrs)
  {
    if attrs == [] {
      assert [] + tail == tail;
    } else {
      hide ReadAttributes, IsPlainAttr, AttrText;
      AttrsTextFirst(attrs);
      hide AttrsText;
      AttributesRead(attrs[1..], tail);
      AttributeJoins(attrs[0], attrs[1..], AttrsText(attrs[1..]), tail);
      assert attrs == [attrs[0]] + attrs[1..];
    }
  }

  lemma {:induction false} NameEnds(n: string, rest: string)
    requires (forall i :: 0 <= i < |n| ==> IsNameChar(n[i])) && (rest != [] ==> !IsNameChar(rest[0]))
    ensures NameEnd(n + rest) == |n|
  {
    hide IsNameChar;
    if n == [] {
      assert n + rest == rest;
    } else {
      NameEnds(n[1..], rest);
      assert (n + rest)[1..] == n[1..] + rest;
    }
  }

  lemma AttrsBegin(attrs: seq<(string, string)>, tail: string)
    requires tail == [] || tail == "/"
    ensures var rest := AttrsText(attrs) + tail; rest != [] ==> !IsNameChar(rest[0])
  {
    if attrs != [] {
      AttrsTextFirst(attrs);
      hide AttrsText;
      assert AttrText(attrs[0].0, attrs[0].1)[0] == ' ';
    }
  }

  lemma BodyIsRead(tag: string, n: string, body: string)
    requires IsName(n) && tag == "<" + n + body + ">" && (body != [] ==> !IsNameChar(body[0]))
    ensures AttributesOf(tag) == ReadAttributes(body)
  {
    NameEnds(n, body);
    hide ReadAttributes, NameEnd, IsName, IsNameChar;
    assert tag[1..|tag| - 1] == n + body && (n + body)[|n|..] == body;
  }

  /** What is written into a start tag or an empty tag is what is read there. */
  lemma TagAttributes(n: string, attrs: seq<(string, string)>)
    requires IsName(n) && ArePlain(attrs)
    ensures AttributesOf(StartTagText(n, attrs)) == Some(attrs)
    ensures AttributesOf(EmptyTagText(n, attrs)) == Some(attrs)
  {
    hide ReadAttributes, AttributesOf, AttrsText, IsName, ArePlain, IsNameChar;
    var a := AttrsText(attrs);
    AttrsBegin(attrs, []);
    AttrsBegin(attrs, "/");
    AttributesRead(attrs, []);
    AttributesRead(attrs, "/");
    assert a + [] == a;
    BodyIsRead(StartTagText(n, attrs), n, a);
    assert "<" + n + a + "/>" == "<" + n + (a + "/") + ">";
    BodyIsRead(EmptyTagText(n, attrs), n, a + "/");
  }

  // ----- characters

  /** The text with each predefined entity replaced by its character. */
  function Decoded(s: string): string
    decreases |s|
  {
    if s == [] then []
    else
      var j := if s[0] == '&' then Until(s, ';') else |s|;
      if j < |s| && IsPredefined(s[1..j]) then [PredefinedChar(s[1..j])] + Decoded(s[j + 1..])
      else [s[0]] + Decoded(s[1..])
  }

  lemma EntityDecodes(name: string, rest: string)
    requires IsPredefined(name)
    ensures Decoded("&" + name + ";" + rest) == [PredefinedChar(name)] + Decoded(rest)
  {
    var s, n := "&" + name + ";" + rest, |name| + 1;
    assert forall i :: 0 <= i < |name| ==> s[i + 1] == name[i] && name[i] != ';';
    UntilIs(s, ';', n);
    assert s[1..n] == name && s[n + 1..] == rest;
    hide PredefinedChar, IsPredefined;
  }

  /** The entity written for a character is the one that stands for it. */
  lemma EntityIs(c: char) returns (name: string)
    requires IsEscaped(c)
    ensures IsPredefined(name) && PredefinedChar(name) == c && EscapeChar(c) == "&" + name + ";"
  {
    name := if c == '<' then "lt" else if c == '>' then "gt" else if c == '&' then "amp"
            else if c == '"' then "quot" else "apos";
  }

  lemma DecodedFirst(c: char, rest: string)
    ensures Decoded(EscapeChar(c) + rest) == [c] + Decoded(rest)
  {
    if IsEscaped(c) {
      var name := EntityIs(c);
      hide Decoded, EscapeChar;
      EntityDecodes(name, rest);
    } else {
      assert ([c] + rest)[1..] == rest;
    }
  }

  lemma {:induction false} EscapeFirst(t: string)
    requires t != []
    ensures Escape(t) == EscapeChar(t[0]) + Escape(t[1..])
  {
    hide EscapeChar;
    if |t| == 1 {
      assert Front(t) == [] == t[1..];
    } else {
      EscapeFirst(Front(t));
      var mid := Front(t)[1..];
      assert mid == Front(t[1..]) && Last(t[1..]) == Last(t);
      assert Escape(t[1..]) == Escape(mid) + EscapeChar(Last(t));
    }
  }

  /** Decoding an escaped text gives the text back. */
  lemma {:induction false} DecodedEscape(t: string)
    ensures Decoded(Escape(t)) == t
  {
    if t != [] {
      hide Decoded, EscapeChar, Escape;
      DecodedEscape(t[1..]);
      EscapeFirst(t);
      DecodedFirst(t[0], Escape(t[1..]));
      assert t == [t[0]] + t[1..];
    } else {
      assert Escape(t) == [];
    }
  }

  /** Escaped text holds no markup and no quotes. */
  lemma {:induction false} EscapedIsBare(t: string)
    ensures forall c :: c in Escape(t) ==> c != '<' && c != '>' && c != '\'' && c != '"'
  {
    if t != [] {
      hide EscapeChar;
      EscapedIsBare(Front(t));
      CharIsBare(Last(t));
    }
  }

  lemma CharIsBare(c: char)
    ensures forall d :: d in EscapeChar(c) ==> d != '<' && d != '>' && d != '\'' && d != '"'
  {
  }

  // ----- numbers

  function DigitsValue(s: string): nat
    requires s == [] || IsDecimal(s)
  {
    if s == [] then 0
    else
      assert |s| > 1 ==> IsDecimal(Front(s));
      assert '0' <= s[|s| - 1] <= '9';
      DigitsValue(Front(s)) * 10 + (s[|s| - 1] as int - '0' as int)
  }

  /** A decimal number with an optional minus sign. */
  function Decimal(s: string): Option<int> {
    if IsDecimal(s) then Some(DigitsValue(s) as int)
    else if s != [] && s[0] == '-' && IsDecimal(s[1..]) then Some(-(DigitsValue(s[1..]) as int))
    else None
  }

  lemma {:induction false} DigitsRead(n: nat)
    ensures IsDecimal(Digits(n)) && DigitsValue(Digits(n)) == n
  {
    var s, c := Digits(n), (n % 10 + '0' as int) as char;
    assert forall i :: 0 <= i < |s| ==> s[i] in s;
    assert Last(s) == c;
    if n < 10 {
      assert Front(s) == [];
    } else {
      DigitsRead(n / 10);
      assert Front(s) == Digits(n / 10);
    }
  }

  lemma DecimalRead(n: int)
    ensures Decimal(ToWString(n)) == Some(n)
  {
    if n < 0 {
      DigitsRead(-n);
      assert ("-" + Digits(-n))[1..] == Digits(-n);
    } else {
      DigitsRead(n);
    }
  }

  /** A number followed by its unit. */
  function Quantity(val: string, unit: string): Option<int> {
    if |val| >= |unit| && val[|val| - |unit|..] == unit then Decimal(val[..|val| - |unit|]) else None
  }

  lemma QuantityRead(n: int, unit: string)
    ensures Quantity(ToWString(n) + unit, unit) == Some(n)
  {
    hide ToWString, Decimal;
    DecimalRead(n);
    var val := ToWString(n) + unit;
    assert val[..|val| - |unit|] == ToWString(n) && val[|val| - |unit|..] == unit;
  }

  /** The number that the attribute gives in that unit. */
  function Measure(tag: string, key: string, unit: string): Option<int> {
    match AttributeAt(tag, key) case None => None case Some(val) => Quantity(val, unit)
  }
}
