/** Language-id lists: printed as hexadecimal joined by ';', and read back by tokenizing and parsing. */
module LangIds {
  import opened Strings
  import opened Tokenizer

  type LangId = x: int | 0 <= x < 0x1_0000

  function HexChar(digit: nat): (c: char)
    requires digit < 16
    ensures c != ';'
  {
    if digit < 10 then (digit + '0' as int) as char else (digit - 10 + 'a' as int) as char
  }

  function DigitOf(c: char): Option<nat> {
    if '0' <= c <= '9' then Some(c as int - '0' as int)
    else if 'a' <= c <= 'f' then Some(c as int - 'a' as int + 10)
    else if 'A' <= c <= 'F' then Some(c as int - 'A' as int + 10)
    else None
  }

  // ----- parsing

  /** The value after reading `s`, starting from `lang`; reading stops at the first other character. */
  function ParseFrom(s: string, lang: LangId): LangId {
    if s == [] || DigitOf(s[0]).None? then lang
    else ParseFrom(s[1..], (lang * 16 + DigitOf(s[0]).value) % 0x1_0000)
  }

  method HexLangToLangID(hexlang: string) returns (lang: LangId)
    ensures lang == ParseFrom(hexlang, 0)
  {
    lang := 0;
    var p := 0;
    assert hexlang[0..] == hexlang;
    while p < |hexlang|
      invariant p <= |hexlang| && ParseFrom(hexlang[p..], lang) == ParseFrom(hexlang, 0)
    {
      var digit := DigitOf(hexlang[p]);
      if digit.None? {
        break;
      }
      assert hexlang[p..][1..] == hexlang[p + 1..];
      lang := (lang * 16 + digit.value) % 0x1_0000;
      p := p + 1;
    }
  }

  // ----- printing

  /** Digit `i` of a language id, counted from the right. */
  function Nibble(lang: LangId, i: nat): (d: nat)
    requires i < 4
    ensures d < 16
  {
    (if i == 0 then lang else if i == 1 then lang / 16 else if i == 2 then lang / 256 else lang / 4096) % 16
  }

  /** The digits from position `i` down, without leading zeros. */
  function PrintFrom(lang: LangId, i: nat, leading: bool): string
    requires i <= 4
  {
    if i == 0 then []
    else if Nibble(lang, i - 1) == 0 && leading then PrintFrom(lang, i - 1, true)
    else [HexChar(Nibble(lang, i - 1))] + PrintFrom(lang, i - 1, false)
  }

  function Hex(lang: LangId): string {
    PrintFrom(lang, 4, true)
  }

  method LangIDToHexLang(lang: LangId) returns (ret: string)
    ensures ret == Hex(lang)
  {
    hide Nibble, HexChar, Hex, PrintFrom;
    ret := [];
    var leading, i: nat := true, 4;
    PrintEnds(lang);
    while i > 0
      invariant i <= 4 && ret + PrintFrom(lang, i, leading) == Hex(lang)
    {
      PrintStep(lang, i, leading);
      i := i - 1;
      var digit := Nibble(lang, i);
      if digit == 0 && leading {
        continue;
      }
      ghost var before := ret;
      ret := ret + [HexChar(digit)];
      assert before + ([HexChar(digit)] + PrintFrom(lang, i, false)) == ret + PrintFrom(lang, i, false);
      leading := false;
    }
    assert ret + [] == ret;
  }

  lemma PrintEnds(lang: LangId)
    ensures [] + PrintFrom(lang, 4, true) == Hex(lang)
    ensures PrintFrom(lang, 0, true) == [] && PrintFrom(lang, 0, false) == []
  {
  }

  lemma PrintStep(lang: LangId, i: nat, leading: bool)
    requires 0 < i <= 4
    ensures PrintFrom(lang, i, leading) ==
      if Nibble(lang, i - 1) == 0 && leading then PrintFrom(lang, i - 1, true)
      else [HexChar(Nibble(lang, i - 1))] + PrintFrom(lang, i - 1, false)
  {
    hide Nibble, HexChar;
  }

  function HexAll(langs: seq<LangId>): (r: seq<string>)
    ensures |r| == |langs|
  {
    if langs == [] then [] else HexAll(Front(langs)) + [Hex(Last(langs))]
  }

  lemma {:induction false} JoinSnoc(tokens: seq<string>, t: string, d: string)
    requires tokens != []
    ensures Join(tokens + [t], d) == Join(tokens, d) + d + t
  {
    var all := tokens + [t];
    if |tokens| > 1 {
      JoinSnoc(tokens[1..], t, d);
      assert all[1..] == tokens[1..] + [t];
    } else {
      assert all[1..] == [t];
    }
  }

  /** The list printer: the language itself, then each fallback behind a ';'. */
  method PrintLanguageIDs(lang: LangId, fallbacks: seq<LangId>) returns (ret: string)
    ensures ret == Join(HexAll([lang] + fallbacks), ";")
  {
    hide PrintFrom, Join;
    var langs := [lang] + fallbacks;
    ret := LangIDToHexLang(lang);
    HexAllOne(lang);
    assert langs[..1] == [lang];
    for k := 0 to |fallbacks|
      invariant ret == Join(HexAll(langs[..k + 1]), ";")
    {
      var hex := LangIDToHexLang(fallbacks[k]);
      assert Front(langs[..k + 2]) == langs[..k + 1] && Last(langs[..k + 2]) == fallbacks[k];
      JoinSnoc(HexAll(langs[..k + 1]), hex, ";");
      ret := ret + ";";
      ret := ret + hex;
    }
    assert langs[..|fallbacks| + 1] == langs;
  }

  lemma HexAllOne(lang: LangId)
    ensures Join(HexAll([lang]), ";") == Hex(lang)
  {
    assert Front([lang]) == [];
    assert HexAll([lang]) == [Hex(lang)];
  }

  function ParseAll(tokens: seq<string>): seq<LangId> {
    if tokens == [] then [] else [ParseFrom(tokens[0], 0)] + ParseAll(tokens[1..])
  }

  /** The list parser, collecting into a set. */
  method ParseLanguageIDs(languages: string) returns (langids: set<LangId>)
    ensures langids == set l | l in ParseAll(Split(languages, ";"))
  {
    var tokens := Tokenize(languages, ";", false);
    assert tokens == Split(languages, ";");
    langids := {};
    var k := 0;
    assert tokens[0..] == tokens;
    while k < |tokens|
      invariant k <= |tokens|
      invariant langids + (set l | l in ParseAll(tokens[k..])) == set l | l in ParseAll(tokens)
    {
      var id := HexLangToLangID(tokens[k]);
      ghost var rest := ParseAll(tokens[k + 1..]);
      assert tokens[k..][1..] == tokens[k + 1..];
      assert ParseAll(tokens[k..]) == [id] + rest;
      assert (set l | l in [id] + rest) == {id} + (set l | l in rest);
      langids := langids + {id};
      k := k + 1;
    }
  }

  // ----- digits

  const LOWER: string := "0123456789abcdef"
  const UPPER: string := "0123456789ABCDEF"

  /** A digit is read by its place among the lower-case or the upper-case digits; nothing else is a digit. */
  lemma DigitOfIs(c: char, d: nat)
    ensures DigitOf(c) == Some(d) <==> d < 16 && (c == LOWER[d] || c == UPPER[d])
  {
    if d < 10 {
      assert LOWER[d] as int == '0' as int + d == UPPER[d] as int;
    } else if d < 16 {
      assert LOWER[d] as int == 'a' as int + d - 10;
      assert UPPER[d] as int == 'A' as int + d - 10;
    }
  }

  /** The digits written are lower-case, at most four, and do not begin with a zero; zero is written as nothing. */
  lemma HexShape(lang: LangId)
    ensures var s := Hex(lang);
      |s| <= 4 && (s == [] <==> lang == 0) && (s != [] ==> s[0] != '0') && forall i :: 0 <= i < |s| ==> s[i] in LOWER
  {
    HexRoundTrip(lang);
    DigitsFrom(lang, 4, true);
  }

  lemma {:induction false} DigitsFrom(lang: LangId, i: nat, leading: bool)
    requires i <= 4
    ensures var s := PrintFrom(lang, i, leading);
      |s| <= i && (leading && s != [] ==> s[0] != '0') && forall k :: 0 <= k < |s| ==> s[k] in LOWER
  {
    hide Nibble;
    if i > 0 {
      var d := Nibble(lang, i - 1);
      DigitsFrom(lang, i - 1, true);
      DigitsFrom(lang, i - 1, false);
      HexCharIs(d);
    }
  }

  lemma HexCharIs(d: nat)
    requires d < 16
    ensures HexChar(d) in LOWER && (d != 0 ==> HexChar(d) != '0')
  {
    HexCharReads(d);
    DigitOfIs(HexChar(d), d);
    assert 'a' <= HexChar(d) <= 'f' || '0' <= HexChar(d) <= '9';
    assert HexChar(d) == LOWER[d];
  }

  predicate AllDigits(s: string) {
    forall i :: 0 <= i < |s| ==> DigitOf(s[i]).Some?
  }

  /** The number that a string of digits stands for. */
  function Positional(s: string): nat
    requires AllDigits(s)
  {
    if s == [] then 0
    else
      assert AllDigits(Front(s));
      Positional(Front(s)) * 16 + DigitOf(Last(s)).value
  }

  lemma {:induction false} ParseSnoc(s: string, c: char, lang: LangId)
    requires AllDigits(s)
    ensures ParseFrom(s + [c], lang) ==
      match DigitOf(c) case None => ParseFrom(s, lang) case Some(d) => (ParseFrom(s, lang) * 16 + d) % 0x1_0000
  {
    hide DigitOf;
    if s == [] {
      assert s + [c] == [c];
      assert ParseFrom([c][1..], lang) == lang;
    } else {
      ParseSnoc(s[1..], c, (lang * 16 + DigitOf(s[0]).value) % 0x1_0000);
      assert (s + [c])[1..] == s[1..] + [c];
    }
  }

  /** Digits of either case are read as the number they stand for, modulo 2^16, up to the first other character. */
  lemma {:induction false} ParseReads(s: string, rest: string)
    requires AllDigits(s) && (rest != [] ==> DigitOf(rest[0]).None?)
    ensures ParseFrom(s + rest, 0) == Positional(s) % 0x1_0000
  {
    hide DigitOf;
    ParseStops(s, rest, 0);
    if s != [] {
      var w, d := Front(s), DigitOf(Last(s)).value;
      ParseReads(w, []);
      assert w + [] == w && w + [Last(s)] == s;
      ParseSnoc(w, Last(s), 0);
      WrapLater(Positional(w), d);
    }
  }

  /** Wrapping at every digit is wrapping at the end. */
  lemma WrapLater(n: nat, d: nat)
    ensures (n % 0x1_0000 * 16 + d) % 0x1_0000 == (n * 16 + d) % 0x1_0000
  {
    var q, r := n / 0x1_0000, n % 0x1_0000;
    assert n * 16 + d == (r * 16 + d) + (q * 16) * 0x1_0000;
  }

  lemma {:induction false} ParseStops(s: string, rest: string, lang: LangId)
    requires AllDigits(s) && (rest != [] ==> DigitOf(rest[0]).None?)
    ensures ParseFrom(s + rest, lang) == ParseFrom(s, lang)
  {
    hide DigitOf;
    if s == [] {
      assert s + rest == rest;
    } else {
      ParseStops(s[1..], rest, (lang * 16 + DigitOf(s[0]).value) % 0x1_0000);
      assert (s + rest)[1..] == s[1..] + rest;
    }
  }

  // ----- round trip

  lemma HexCharReads(d: nat)
    requires d < 16
    ensures DigitOf(HexChar(d)) == Some(d)
  {
  }

  /** Reading the digits of `lang` from position `i` down appends them to what was read before. */
  lemma {:induction false} PrintFromReads(lang: LangId, i: nat, leading: bool, acc: LangId)
    requires i <= 4 && acc == Upper(lang, i) && (leading ==> acc == 0)
    ensures ParseFrom(PrintFrom(lang, i, leading), acc) == lang
  {
    if i > 0 {
      var d := Nibble(lang, i - 1);
      UpperStep(lang, i);
      if !(d == 0 && leading) {
        HexCharReads(d);
        var s := PrintFrom(lang, i, leading);
        assert s[1..] == PrintFrom(lang, i - 1, false);
        PrintFromReads(lang, i - 1, false, Upper(lang, i - 1));
      } else {
        PrintFromReads(lang, i - 1, true, Upper(lang, i - 1));
      }
    }
  }

  /** The digits above position `i`. */
  function Upper(lang: LangId, i: nat): LangId
    requires i <= 4
  {
    if i == 0 then lang else if i == 1 then lang / 16 else if i == 2 then lang / 256 else if i == 3 then lang / 4096
      else 0
  }

  lemma UpperStep(lang: LangId, i: nat)
    requires 0 < i <= 4
    ensures Upper(lang, i - 1) == Upper(lang, i) * 16 + Nibble(lang, i - 1)
    ensures (Upper(lang, i) * 16 + Nibble(lang, i - 1)) % 0x1_0000 == Upper(lang, i - 1)
  {
  }

  /** Every 16-bit language id survives printing and parsing, zero included. */
  lemma HexRoundTrip(lang: LangId)
    ensures ParseFrom(Hex(lang), 0) == lang
  {
    PrintFromReads(lang, 4, true, 0);
  }

  lemma {:induction false} HexHasNoSemicolon(lang: LangId, i: nat, leading: bool)
    requires i <= 4
    ensures forall k :: 0 <= k < |PrintFrom(lang, i, leading)| ==> PrintFrom(lang, i, leading)[k] != ';'
  {
    if i > 0 {
      HexHasNoSemicolon(lang, i - 1, leading);
      HexHasNoSemicolon(lang, i - 1, false);
    }
  }

  predicate FreeOf(s: string, c: char) {
    forall k :: 0 <= k < |s| ==> s[k] != c
  }

  /** Tokenizing undoes joining for tokens that do not hold the delimiter. */
  lemma {:induction false} SplitOfJoin(tokens: seq<string>, c: char)
    requires tokens != [] && forall i :: 0 <= i < |tokens| ==> FreeOf(tokens[i], c)
    ensures Split(Join(tokens, [c]), [c]) == tokens
  {
    hide Split;
    var s := Join(tokens, [c]);
    if |tokens| == 1 {
      FindOneIsNot(s, c);
    } else {
      var k := |tokens[0]|;
      assert s == tokens[0] + [c] + Join(tokens[1..], [c]);
      assert forall i :: 0 <= i < k ==> s[i] == tokens[0][i];
      SplitOne(s, c, k);
      SplitOfJoin(tokens[1..], c);
      assert s[..k] == tokens[0] && s[k + 1..] == Join(tokens[1..], [c]);
    }
  }

  lemma {:induction false} HexAllReads(langs: seq<LangId>)
    ensures ParseAll(HexAll(langs)) == langs
    ensures forall i :: 0 <= i < |langs| ==> FreeOf(HexAll(langs)[i], ';')
  {
    if langs != [] {
      HexAllReads(Front(langs));
      HexRoundTrip(Last(langs));
      HexHasNoSemicolon(Last(langs), 4, true);
      ParseAllSnoc(HexAll(Front(langs)), Hex(Last(langs)));
      assert langs == Front(langs) + [Last(langs)];
    }
  }

  lemma {:induction false} ParseAllSnoc(tokens: seq<string>, t: string)
    ensures ParseAll(tokens + [t]) == ParseAll(tokens) + [ParseFrom(t, 0)]
  {
    if tokens == [] {
      assert tokens + [t] == [t];
      assert ParseAll([t]) == [ParseFrom(t, 0)] + ParseAll([t][1..]);
    } else {
      ParseAllSnoc(tokens[1..], t);
      assert (tokens + [t])[1..] == tokens[1..] + [t];
    }
  }

  /** Printing any non-empty list of language ids, then tokenizing and parsing, gives the same list. */
  lemma LanguageListRoundTrip(langs: seq<LangId>)
    requires langs != []
    ensures ParseAll(Split(Join(HexAll(langs), ";"), ";")) == langs
  {
    HexAllReads(langs);
    SplitOfJoin(HexAll(langs), ';');
  }
}
