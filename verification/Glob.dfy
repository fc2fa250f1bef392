/**
 RegexEscape turns a '*'-glob into a regular expression. The expression is read back with the fragment of ECMAScript
 syntax it can contain (section 15.10 of ECMA-262, 3rd edition) and matched; the two readings agree.
 */
module Glob {
  import opened Strings

  predicate IsSpecial(c: char) {
    c == '*' || c == '#' || c == '$' || c == '(' || c == ')' || c == '+' || c == '.' || c == '?' || c == '[' ||
    c == '\\' || c == '^' || c == '{' || c == '|'
  }

  function EscapeOne(c: char): string {
    if c == '*' then ".*" else if IsSpecial(c) then ['\\', c] else [c]
  }

  function EscapeGlob(g: string): string {
    if g == [] then [] else EscapeOne(g[0]) + EscapeGlob(g[1..])
  }

  // ----- the loop

  /** find_first_of over the special characters. */
  function FindSpecial(s: string, from: nat): (k: nat)
    requires from <= |s|
    ensures from <= k <= |s| && (k < |s| ==> IsSpecial(s[k])) && forall i :: from <= i < k ==> !IsSpecial(s[i])
    decreases |s| - from
  {
    if from < |s| && !IsSpecial(s[from]) then FindSpecial(s, from + 1) else from
  }

  lemma {:induction false} EscapePlain(g: string, k: nat)
    requires k <= |g| && forall i :: 0 <= i < k ==> !IsSpecial(g[i])
    ensures EscapeGlob(g) == g[..k] + EscapeGlob(g[k..])
    decreases k
  {
    if k == 0 {
      assert g[0..] == g;
    } else {
      EscapePlain(g[1..], k - 1);
      assert g[1..][k - 1..] == g[k..];
      assert g[..k] == [g[0]] + g[1..][..k - 1];
    }
  }

  /** One round of the loop: an ordinary run and the special character that ends it. */
  lemma EscapeRun(str: string, a: nat, pos: nat)
    requires a <= pos <= |str| && forall i :: a <= i < pos ==> !IsSpecial(str[i])
    ensures EscapeGlob(str[a..]) ==
      str[a..pos] + if pos < |str| then EscapeOne(str[pos]) + EscapeGlob(str[pos + 1..]) else []
  {
    var rest := str[a..];
    EscapePlain(rest, pos - a);
    assert rest[..pos - a] == str[a..pos] && rest[pos - a..] == str[pos..];
    if pos < |str| {
      assert str[pos..][1..] == str[pos + 1..];
    }
  }

  /** Copies runs of ordinary characters and escapes the special ones in between. */
  method RegexEscape(str: string) returns (ret: string)
    ensures ret == EscapeGlob(str)
  {
    hide EscapeGlob, EscapeOne;
    ret := [];
    var startpos := 0;
    assert str[0..] == str;
    while true
      invariant startpos <= |str|
      invariant ret + EscapeGlob(str[startpos..]) == EscapeGlob(str)
      decreases |str| - startpos
    {
      var pos := FindSpecial(str, startpos);
      EscapeRun(str, startpos, pos);
      ghost var before := ret;
      ret := ret + str[startpos..pos];
      if pos == |str| {
        assert before + (str[startpos..pos] + []) == ret;
        return;
      }
      ret := ret + [if str[pos] == '*' then '.' else '\\'];
      ret := ret + [str[pos]];
      SpecialEscape(str[pos]);
      ghost var tail := EscapeGlob(str[pos + 1..]);
      assert before + (str[startpos..pos] + (EscapeOne(str[pos]) + tail)) == ret + tail;
      startpos := pos + 1;
    }
  }

  lemma SpecialEscape(c: char)
    requires IsSpecial(c)
    ensures EscapeOne(c) == [if c == '*' then '.' else '\\'] + [c]
  {
  }

  // ----- reading the expression

  datatype Atom = Lit(c: char) | AnyButLineEnd

  datatype Term = Term(atom: Atom, star: bool)

  predicate IsLineEnd(c: char) {
    c == '\n' || c == '\r' || c as int == 0x2028 || c as int == 0x2029
  }

  /** The characters that PatternCharacter excludes. */
  predicate IsSyntax(c: char) {
    c == '^' || c == '$' || c == '\\' || c == '.' || c == '*' || c == '+' || c == '?' || c == '(' || c == ')' ||
    c == '[' || c == ']' || c == '{' || c == '}' || c == '|'
  }

  /** After a backslash, only characters that cannot be part of an identifier (section 7.6) stand for themselves. */
  predicate IsIdentityEscape(c: char) {
    !('a' <= c <= 'z' || 'A' <= c <= 'Z' || '0' <= c <= '9' || c == '_' || c == '$')
  }

  /** One atom and the number of characters it takes. */
  function ReadAtom(p: string): (r: Option<(Atom, nat)>)
    requires p != []
    ensures r.Some? ==> 1 <= r.value.1 <= |p|
  {
    if p[0] == '\\' then if |p| >= 2 && IsIdentityEscape(p[1]) then Some((Lit(p[1]), 2)) else None
    else if p[0] == '.' then Some((AnyButLineEnd, 1))
    else if IsSyntax(p[0]) then None
    else Some((Lit(p[0]), 1))
  }

  function ReadPattern(p: string): Option<seq<Term>>
    decreases |p|
  {
    if p == [] then Some([])
    else match ReadAtom(p)
      case None => None
      case Some((atom, n)) =>
        var star := n < |p| && p[n] == '*';
        Prepend(Term(atom, star), ReadPattern(p[if star then n + 1 else n..]))
  }

  function Prepend(t: Term, rest: Option<seq<Term>>): Option<seq<Term>> {
    match rest case None => None case Some(terms) => Some([t] + terms)
  }

  predicate AtomMatches(a: Atom, c: char) {
    match a
    case Lit(d) => c == d
    case AnyButLineEnd => !IsLineEnd(c)
  }

  /** The whole string matches the whole expression. */
  predicate Matches(terms: seq<Term>, s: string)
    decreases |terms| + |s|
  {
    if terms == [] then s == []
    else if terms[0].star then
      Matches(terms[1..], s) || (s != [] && AtomMatches(terms[0].atom, s[0]) && Matches(terms, s[1..]))
    else s != [] && AtomMatches(terms[0].atom, s[0]) && Matches(terms[1..], s[1..])
  }

  // ----- the glob

  /** '*' stands for any run of characters, everything else for itself. */
  predicate GlobMatches(g: string, s: string)
    decreases |g| + |s|
  {
    if g == [] then s == []
    else if g[0] == '*' then GlobMatches(g[1..], s) || (s != [] && GlobMatches(g, s[1..]))
    else s != [] && s[0] == g[0] && GlobMatches(g[1..], s[1..])
  }

  predicate NoLineEnds(s: string) {
    forall i :: 0 <= i < |s| ==> !IsLineEnd(s[i])
  }

  function TermsOfOne(c: char): seq<Term> {
    [if c == '*' then Term(AnyButLineEnd, true) else Term(Lit(c), false)]
  }

  function TermsOf(g: string): seq<Term> {
    if g == [] then [] else TermsOfOne(g[0]) + TermsOf(g[1..])
  }

  /** The syntax characters that RegexEscape leaves as they are, and the one that no backslash may stand before. */
  predicate IsUnreadable(c: char) {
    c == ']' || c == '}' || c == '$'
  }

  predicate IsReadable(g: string) {
    forall i :: 0 <= i < |g| ==> !IsUnreadable(g[i])
  }

  lemma ReadableRest(g: string)
    requires g != []
    ensures IsReadable(g) <==> !IsUnreadable(g[0]) && IsReadable(g[1..])
  {
    assert forall i :: 1 <= i < |g| ==> g[i] == g[1..][i - 1];
    assert forall i :: 0 <= i < |g| - 1 ==> g[1..][i] == g[i + 1];
  }

  /** The escape of any other character reads as one atom; what follows it decides about repetition. */
  lemma AtomReads(c: char, tail: string)
    requires !IsUnreadable(c)
    ensures EscapeOne(c) + tail != []
    ensures ReadAtom(EscapeOne(c) + tail) ==
      Some((if c == '*' then AnyButLineEnd else Lit(c), if c == '*' then 1 else |EscapeOne(c)|))
  {
  }

  lemma UnreadableReads(c: char, tail: string)
    requires IsUnreadable(c)
    ensures EscapeOne(c) + tail != [] && ReadAtom(EscapeOne(c) + tail) == None
  {
  }

  lemma EscapeLength(c: char)
    ensures |EscapeOne(c)| == (if IsSpecial(c) then 2 else 1) && EscapeOne(c)[0] != '*' &&
      (c == '*' ==> EscapeOne(c)[1] == '*')
  {
  }

  /** One character's escape, in front of anything that does not begin with a star. */
  lemma OneReads(c: char, tail: string)
    requires tail != [] ==> tail[0] != '*'
    ensures ReadPattern(EscapeOne(c) + tail) ==
      if IsUnreadable(c) then None
      else Prepend(if c == '*' then Term(AnyButLineEnd, true) else Term(Lit(c), false), ReadPattern(tail))
  {
    hide Prepend, ReadAtom, EscapeOne, IsSpecial, IsUnreadable;
    var e := EscapeOne(c);
    var p := e + tail;
    EscapeLength(c);
    assert p[|e|..] == tail;
    if IsUnreadable(c) {
      UnreadableReads(c, tail);
    } else {
      AtomReads(c, tail);
      assert c == '*' ==> p[1] == e[1] && |e| == 2 by {
        StarIsSpecial();
      }
    }
  }

  lemma StarIsSpecial()
    ensures IsSpecial('*')
  {
  }

  /**
   The expression reads back as one term per glob character, no literal repeated by a '*' that follows it, if and only
   if the glob has no ']', '}' or '$'; otherwise it is no valid pattern.
   */
  lemma {:induction false} EscapedReads(g: string)
    ensures ReadPattern(EscapeGlob(g)) == if IsReadable(g) then Some(TermsOf(g)) else None
    ensures g != [] ==> EscapeGlob(g) != [] && EscapeGlob(g)[0] != '*'
  {
    if g != [] {
      hide ReadPattern, IsReadable;
      EscapedReads(g[1..]);
      ReadableRest(g);
      OneReads(g[0], EscapeGlob(g[1..]));
    }
  }

  /** For strings without line terminators the expression and the glob match the same. */
  lemma {:induction false} TermsMatchGlob(g: string, s: string)
    requires NoLineEnds(s)
    ensures Matches(TermsOf(g), s) <==> GlobMatches(g, s)
    decreases |g| + |s|
  {
    if g != [] {
      var terms := TermsOf(g);
      assert terms[1..] == TermsOf(g[1..]);
      if g[0] == '*' {
        TermsMatchGlob(g[1..], s);
      }
      if s != [] {
        TermsMatchGlob(g, s[1..]);
        TermsMatchGlob(g[1..], s[1..]);
      }
    }
  }

  /** A glob without line terminators compiles to an expression that matches no string with one. */
  lemma {:induction false} TermsMatchOneLine(g: string, s: string)
    requires NoLineEnds(g) && Matches(TermsOf(g), s)
    ensures NoLineEnds(s)
    decreases |g| + |s|
  {
    if g != [] {
      var terms := TermsOf(g);
      assert terms[1..] == TermsOf(g[1..]);
      assert NoLineEnds(g[1..]);
      if g[0] == '*' {
        if Matches(terms[1..], s) {
          TermsMatchOneLine(g[1..], s);
        } else {
          TermsMatchOneLine(g, s[1..]);
          assert forall i :: 1 <= i < |s| ==> s[i] == s[1..][i - 1];
        }
      } else {
        TermsMatchOneLine(g[1..], s[1..]);
        assert forall i :: 1 <= i < |s| ==> s[i] == s[1..][i - 1];
      }
    }
  }

  /**
   Compilation gives a valid pattern exactly for globs without ']', '}' and '$', and for those it preserves meaning: the
   pattern matches exactly the one-line strings that the glob matches.
   */
  lemma CompiledGlobMatches(g: string, s: string)
    ensures ReadPattern(EscapeGlob(g)).Some? <==> IsReadable(g)
    ensures IsReadable(g) && NoLineEnds(s) ==> (Matches(ReadPattern(EscapeGlob(g)).value, s) <==> GlobMatches(g, s))
    ensures IsReadable(g) && NoLineEnds(g) ==>
      (Matches(ReadPattern(EscapeGlob(g)).value, s) <==> GlobMatches(g, s) && NoLineEnds(s))
  {
    EscapedReads(g);
    if NoLineEnds(s) {
      TermsMatchGlob(g, s);
    }
    if NoLineEnds(g) && Matches(TermsOf(g), s) {
      TermsMatchOneLine(g, s);
    }
  }

  /** A glob for an IPv6 host: the opening bracket is escaped, the closing one is not. */
  lemma ClosingBracketIsLeft()
    ensures EscapeGlob("[::1]") == "\\[::1]" && ReadPattern(EscapeGlob("[::1]")) == None
  {
    hide ReadPattern;
    var g := "[::1]";
    PlainEscape(':', "1]");
    PlainEscape(':', ":1]");
    PlainEscape('1', "]");
    PlainEscape(']', []);
    assert g[1..] == "::1]" && g[4] == ']';
    EscapedReads(g);
  }

  /** A dollar sign is escaped, but it is no character that may be. */
  lemma DollarIsEscaped()
    ensures EscapeGlob("$") == "\\$" && ReadPattern(EscapeGlob("$")) == None
  {
    hide ReadPattern;
    var g := "$";
    assert g[1..] == [] && g[0] == '$';
    EscapedReads(g);
  }

  lemma PlainEscape(c: char, rest: string)
    requires !IsSpecial(c)
    ensures EscapeGlob([c] + rest) == [c] + EscapeGlob(rest) && [c] + [] == [c]
  {
    assert ([c] + rest)[1..] == rest;
  }
}
