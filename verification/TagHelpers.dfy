/** On every single tag, the iterator-based tag helpers agree with the reference reading of the tag. */
module TagHelpers {
  import opened Strings
  import opened XmlNesting
  import opened Ssml

  predicate NoTrailingSlash(u: string) {
    u == [] || if IsWSpace(Last(u)) then NoTrailingSlash(Front(u)) else Last(u) != '/'
  }

  /** The name `n` starts the tag and is followed by a blank. */
  predicate NameThenSpace(u: string, n: string) {
    IsName(n) && |n| < |u| && n == u[..|n|] && IsXmlSpace(u[|n|])
  }

  /** What the characters read so far can be, by mode. */
  predicate Shape(m: Mode, u: string) {
    match m
    case Opened => u == []
    case Name(n) => IsName(n) && u == n
    case Attrs(n) => NameThenSpace(u, n) && NoTrailingSlash(u)
    case Quoted(n, q) => NameThenSpace(u, n) && (q == '"' || q == '\'')
    case QuotedRef(n, q, _) => NameThenSpace(u, n) && (q == '"' || q == '\'')
    case Slash(n) => Last("<" + u) == '/' && (NameThenSpace(u, n) || (IsName(n) && u == n + "/"))
    case EndName(n) => u == "/" + n && (n == [] || IsName(n))
    case EndTail(n) =>
      IsName(n) && |u| > |n| + 1 && u[..|n| + 1] == "/" + n && forall i :: |n| < i < |u| ==> IsXmlSpace(u[i])
    case BadTag => true
  }

  lemma NameThenSpaceStep(w: string, n: string, c: char)
    ensures NameThenSpace(w, n) ==> NameThenSpace(w + [c], n)
    ensures IsName(n) && IsXmlSpace(c) ==> NameThenSpace(n + [c], n)
  {
    hide IsNameChar, IsXmlSpace;
    if NameThenSpace(w, n) {
      assert (w + [c])[..|n|] == w[..|n|];
    }
    assert (n + [c])[..|n|] == n;
  }

  /** One character more, behind the name of a start or empty tag. */
  lemma ShapeStepInside(m: Mode, w: string, c: char)
    requires m.Attrs? || m.Quoted? || m.QuotedRef?
    requires Shape(m, w)
    ensures Shape(TagStep(m, c), w + [c])
  {
    hide IsReference, IsName, IsNameChar, NameThenSpace, NoTrailingSlash;
    NameThenSpaceStep(w, m.name, c);
    TrailingSlashStep(w, c);
    assert Last("<" + (w + [c])) == c;
    BlankIsSpace(c);
  }

  lemma BlankIsSpace(c: char)
    ensures IsXmlSpace(c) ==> IsWSpace(c)
    ensures IsNameChar(c) ==> !IsWSpace(c) && c != '/'
  {
  }

  lemma ShapeStepName(m: Mode, w: string, c: char)
    requires m.Name? || m.Opened?
    requires Shape(m, w)
    ensures Shape(TagStep(m, c), w + [c])
  {
    hide IsNameChar, NoTrailingSlash, NameThenSpace;
    TrailingSlashStep(w, c);
    BlankIsSpace(c);
    if m.Name? {
      NameThenSpaceStep(w, m.name, c);
      NameHasNoTrailingSlash(m.name);
      assert Last("<" + (w + [c])) == c;
    }
  }

  lemma ShapeStepEnd(m: Mode, w: string, c: char)
    requires m.EndName? || m.EndTail?
    requires Shape(m, w)
    ensures Shape(TagStep(m, c), w + [c])
  {
    hide IsNameChar, IsXmlSpace;
    var n, u := m.name, w + [c];
    if m.EndTail? {
      assert u[..|n| + 1] == w[..|n| + 1];
    } else {
      assert u[..|n| + 1] == w;
      assert "/" + (n + [c]) == u;
    }
  }

  /** One character more. */
  lemma ShapeStep(m: Mode, w: string, c: char)
    requires Shape(m, w)
    ensures Shape(TagStep(m, c), w + [c])
  {
    if m.Attrs? || m.Quoted? || m.QuotedRef? {
      ShapeStepInside(m, w, c);
    } else if m.EndName? || m.EndTail? {
      ShapeStepEnd(m, w, c);
    } else if m.Name? || m.Opened? {
      ShapeStepName(m, w, c);
    } else {
      assert TagStep(m, c) == BadTag;
    }
  }

  lemma TrailingSlashStep(w: string, c: char)
    ensures NoTrailingSlash(w + [c]) <==> if IsWSpace(c) then NoTrailingSlash(w) else c != '/'
  {
    assert Front(w + [c]) == w;
  }

  lemma {:induction false} TagShape(u: string)
    ensures Shape(TagAll(Opened, u), u)
  {
    if u == [] {
    } else {
      hide Shape, TagStep;
      TagShape(Front(u));
      ShapeStep(TagAll(Opened, Front(u)), Front(u), Last(u));
      assert u == Front(u) + [Last(u)];
    }
  }

  lemma NameHasNoTrailingSlash(n: string)
    requires IsName(n)
    ensures NoTrailingSlash(n)
  {
  }

  /** The code's backward scan finds no slash where there is no trailing slash. */
  lemma {:induction false} BackScan(t: string, hi: nat)
    requires 1 <= hi <= |t|
    requires NoTrailingSlash(t[1..hi])
    ensures var k := SkipSpacesBack(t, 1, hi); k == 0 || t[k] != '/'
    decreases hi
  {
    if hi > 1 {
      assert Front(t[1..hi]) == t[1..hi - 1];
      if IsWSpace(t[hi - 1]) {
        BackScan(t, hi - 1);
      }
    }
  }

  /** Scanning forward over the tag finds exactly the name. */
  lemma ForwardScan(t: string, lo: nat, n: string)
    requires IsName(n) && 1 <= lo && lo + |n| <= |t| - 1
    requires t[lo..lo + |n|] == n
    requires lo + |n| == |t| - 1 || IsXmlSpace(t[lo + |n|])
    ensures SkipSpaces(t, lo, |t| - 1) == lo
    ensures SkipNonSpaces(t, lo, |t| - 1) == lo + |n|
  {
    assert t[lo] == n[0];
    forall i | lo <= i < lo + |n|
      ensures !IsWSpace(t[i])
    {
      assert t[i] == n[i - lo];
    }
  }

  /** What SAPI hands over for an unknown tag: a single tag, possibly followed by blanks. */
  predicate IsSapiTag(text: string) {
    var t := TrimTag(text);
    text != [] && text[0] == '<' && TagOf(t).Some? && |t| <= |text| && text[..|t|] == t &&
    forall i :: |t| <= i < |text| ==> IsXmlSpace(text[i])
  }

  /** A slice of a slice that starts at `from`. */
  lemma PrefixOfSlice(s: string, hi: nat, from: nat, n: nat)
    requires from + n <= hi <= |s|
    ensures s[from..hi][..n] == s[from..from + n] && s[..hi][from..from + n] == s[from..from + n]
  {
  }

  lemma SingleTagEnds(t: string)
    requires TagOf(t).Some?
    ensures |t| >= 2 && t[|t| - 1] == '>'
  {
  }

  /** The text of a start tag: its name, then either the closing bracket or a blank. */
  lemma StartTagShape(t: string)
    requires TagOf(t).Some? && TagOf(t).value.StartTag?
    ensures var n := TagOf(t).value.name;
      IsName(n) && |t| >= |n| + 2 && t[1..1 + |n|] == n &&
        (t == "<" + n + ">" || (|t| > |n| + 2 && IsXmlSpace(t[1 + |n|])))
    ensures NoTrailingSlash(t[1..|t| - 1])
  {
    var n, u := TagOf(t).value.name, t[1..|t| - 1];
    TagShape(u);
    hide TagAll, NoTrailingSlash;
    assert u[..|n|] == n;
    PrefixOfSlice(t, |t| - 1, 1, |n|);
    if u == n {
      NameHasNoTrailingSlash(n);
      assert t == "<" + n + ">";
    } else {
      assert t[1 + |n|] == u[|n|];
    }
  }

  lemma StartTagHelpers(t: string)
    requires TagOf(t).Some? && TagOf(t).value.StartTag?
    ensures |t| >= 3 && !IsXMLSelfClosingTag(t) && !IsXMLClosingTag(t)
    ensures IsName(TagOf(t).value.name) && GetXMLTagName(t) == TagOf(t).value.name
  {
    hide TagOf, NoTrailingSlash;
    var n := TagOf(t).value.name;
    StartTagShape(t);
    if t == "<" + n + ">" {
      assert |t| - 1 == 1 + |n|;
    }
    ForwardScan(t, 1, n);
    assert t[1] == t[1..1 + |n|][0] == n[0];
    BackScan(t, |t| - 1);
  }

  /** The text of an end tag: a slash, the name, blanks. */
  lemma EndTagShape(t: string)
    requires TagOf(t).Some? && TagOf(t).value.EndTag?
    ensures var n := TagOf(t).value.name;
      IsName(n) && |t| >= |n| + 3 && t[1] == '/' && t[2..2 + |n|] == n &&
      forall i :: 2 + |n| <= i < |t| - 1 ==> IsXmlSpace(t[i])
  {
    var n, u := TagOf(t).value.name, t[1..|t| - 1];
    TagShape(u);
    hide TagAll;
    assert u[..|n| + 1] == "/" + n;
    PrefixOfSlice(t, |t| - 1, 1, |n| + 1);
    assert t[1] == ("/" + n)[0] && ("/" + n)[1..] == n;
    assert t[2..2 + |n|] == t[1..2 + |n|][1..];
    forall i | 2 + |n| <= i < |t| - 1
      ensures IsXmlSpace(t[i])
    {
      assert t[i] == u[i - 1];
    }
  }

  lemma EndTagHelpers(t: string)
    requires TagOf(t).Some? && TagOf(t).value.EndTag?
    ensures |t| >= 3 && !IsXMLSelfClosingTag(t) && IsXMLClosingTag(t)
    ensures IsName(TagOf(t).value.name) && GetXMLClosingTagName(t) == TagOf(t).value.name
  {
    hide TagOf;
    var n := TagOf(t).value.name;
    EndTagShape(t);
    assert t[2] == t[2..2 + |n|][0] == n[0];
    ForwardScan(t, 2, n);
    assert FindChar(t, '/', 1, |t| - 1) == 1;
    forall i | 2 <= i < |t| - 1
      ensures t[i] != '/'
    {
      if i < 2 + |n| {
        assert t[i] == n[i - 2];
      }
    }
  }

  lemma EmptyTagHelpers(t: string)
    requires TagOf(t).Some? && TagOf(t).value.EmptyTag?
    ensures |t| >= 3 && IsXMLSelfClosingTag(t)
  {
    var u := t[1..|t| - 1];
    TagShape(u);
    assert Last("<" + u) == t[|t| - 2];
  }

  /**
   The code looks the name up in the untrimmed fragment. With blanks after the tag it finds the name exactly when a
   blank follows the name inside the tag; for `<b> ` it finds `b>` instead.
   */
  lemma UntrimmedName(text: string)
    requires IsSapiTag(text) && TagOf(TrimTag(text)).value.StartTag?
    ensures |text| >= 3
    ensures var t, n := TrimTag(text), TagOf(TrimTag(text)).value.name;
      GetXMLTagName(text) == (if text == t || t != "<" + n + ">" then n else n + ">")
  {
    var t := TrimTag(text);
    hide TagOf, TrimTag, GetXMLTagName, NoTrailingSlash;
    var n := TagOf(t).value.name;
    StartTagHelpers(t);
    StartTagShape(t);
    SingleTagEnds(t);
    if text != t {
      PrefixOfSlice(text, |t|, 1, |n|);
      UntrimmedScan(text, |t|, n);
    } else {
      assert text == t;
    }
  }

  lemma UntrimmedScan(text: string, k: nat, n: string)
    requires IsName(n) && |n| + 2 <= k < |text| && text[1..1 + |n|] == n && text[k - 1] == '>'
    requires forall i :: k <= i < |text| ==> IsXmlSpace(text[i])
    requires text[..k] == "<" + n + ">" || (k > |n| + 2 && IsXmlSpace(text[1 + |n|]))
    ensures GetXMLTagName(text) == if text[..k] == "<" + n + ">" then n + ">" else n
  {
    if text[..k] == "<" + n + ">" {
      assert text[1..2 + |n|] == text[..k][1..] == n + ">";
      assert text[1] == n[0];
      assert SkipSpaces(text, 1, |text| - 1) == 1;
      NameEnd(text, n);
    } else {
      ForwardScan(text, 1, n);
    }
  }

  /** With blanks after `<n>` the scan for the end of the name runs over the '>'. */
  lemma NameEnd(text: string, n: string)
    requires IsName(n) && |text| > |n| + 2 && text[1..2 + |n|] == n + ">"
    requires forall i :: |n| + 2 <= i < |text| ==> IsXmlSpace(text[i])
    ensures SkipNonSpaces(text, 1, |text| - 1) == 2 + |n|
  {
    var k := SkipNonSpaces(text, 1, |text| - 1);
    forall i | 1 <= i < 2 + |n|
      ensures !IsWSpace(text[i])
    {
      assert text[i] == (n + ">")[i - 1];
    }
    if 2 + |n| < |text| - 1 {
      assert IsXmlSpace(text[2 + |n|]);
    }
  }
}
