/** What the tags that BuildSSML writes say, to a reader of their attributes. */
module MarkupMeaning {
  import opened Strings
  import opened XmlNesting
  import opened TagValues
  import opened Ssml
  import opened AttributeReading

  // ----- prosody

  /** What a rate between -10 and 10 means in per cent: 20 for each step up, 20/3 rounded toward zero for each down. */
  predicate IsRatePercent(rate: int, percent: int) {
    if rate >= 0 then percent == 20 * rate else 3 * percent >= 20 * rate > 3 * (percent - 1)
  }

  /** The percentage has the sign of the rate, grows with it strictly, and reaches from -66 to 200. */
  lemma RatesAreOrdered(rate: int, percent: int, rate': int, percent': int)
    requires IsRatePercent(rate, percent) && IsRatePercent(rate', percent')
    ensures rate == 0 <==> percent == 0
    ensures rate > 0 <==> percent > 0
    ensures rate < rate' <==> percent < percent'
    ensures (rate == 10 ==> percent == 200) && (rate == -10 ==> percent == -66)
  {
  }

  /** The volume is left out at 100 per cent and above, and given as the difference otherwise. */
  predicate SaysVolume(tag: string, product: nat) {
    if product / 100 >= 100 then AttributeAt(tag, "volume") == None
    else Measure(tag, "volume", "%") == Some(product / 100 - 100)
  }

  predicate SaysRate(tag: string, rate: int) {
    if rate == 0 then AttributeAt(tag, "rate") == None
    else
      var p := Measure(tag, "rate", "%");
      p.Some? && IsRatePercent(if rate > 10 then 10 else if rate < -10 then -10 else rate, p.value)
  }

  predicate SaysPitch(tag: string, pitch: int) {
    if pitch == 0 then AttributeAt(tag, "pitch") == None
    else Measure(tag, "pitch", "%") == Some(5 * if pitch > 10 then 10 else if pitch < -10 then -10 else pitch)
  }

  /** The main volume times the fragment's, as unsigned 32-bit numbers multiply. */
  function VolumeProduct(v: Voice, s: State): nat {
    (v.mainVolume * s.volume) % TWO_32
  }

  predicate SaysProsody(tag: string, v: Voice, s: State) {
    SaysVolume(tag, VolumeProduct(v, s)) && SaysRate(tag, v.mainRate + s.rateAdj) && SaysPitch(tag, s.pitchAdj) &&
    AttributesOf(tag).Some? && |AttributesOf(tag).value| <= 3 &&
    forall i :: 0 <= i < |AttributesOf(tag).value| ==> AttributesOf(tag).value[i].0 in {"volume", "rate", "pitch"}
  }

  /** Volume, rate and pitch are all at their defaults. */
  predicate IsPlainVoice(v: Voice, s: State) {
    VolumeProduct(v, s) / 100 >= 100 && v.mainRate + s.rateAdj == 0 && s.pitchAdj == 0
  }

  lemma NeedsProsodyIff(v: Voice, s: State)
    ensures NeedsProsody(v, s) <==> !IsPlainVoice(v, s)
  {
    VolumeIs(v, s);
    hide VolumeOf, VolumeProduct;
  }

  lemma RateIs(v: Voice, s: State)
    ensures var rate := v.mainRate + s.rateAdj;
      IsRatePercent(if rate > 10 then 10 else if rate < -10 then -10 else rate, RatePercent(RateOf(v, s))) &&
      (RateOf(v, s) == 0 <==> rate == 0)
  {
  }

  lemma VolumeIs(v: Voice, s: State)
    ensures VolumeOf(v, s) == if VolumeProduct(v, s) / 100 >= 100 then 100 else VolumeProduct(v, s) / 100
  {
    assert U32(v.mainVolume * s.volume) == VolumeProduct(v, s);
    hide VolumeProduct, U32;
  }

  lemma PitchIs(s: State)
    ensures PitchOf(s) == if s.pitchAdj > 10 then 10 else if s.pitchAdj < -10 then -10 else s.pitchAdj
  {
  }

  lemma NamesAreNames()
    ensures IsName("prosody") && IsName("break") && IsName("say-as") && IsName("phoneme") && IsName("bookmark")
    ensures IsName("speak") && IsName("voice") && IsName("emphasis")
  {
    PlainName("prosody");
    PlainName("break");
    PlainName("say-as");
    PlainName("phoneme");
    PlainName("bookmark");
    PlainName("speak");
    PlainName("voice");
    PlainName("emphasis");
  }

  lemma PlainName(n: string)
    requires n != [] && forall i :: 0 <= i < |n| ==> 'a' <= n[i] <= 'z' || n[i] == '-'
    ensures IsName(n)
  {
  }

  lemma NumberIsPlain(key: string, n: int, unit: string)
    requires IsPlainAttr(key, unit)
    ensures IsPlainAttr(key, ToWString(n) + unit)
  {
    var d := ToWString(n);
    assert forall c :: c in d + unit ==> c in d || c in unit;
  }

  lemma ProsodyKeys()
    ensures IsPlainAttr("volume", "%") && IsPlainAttr("rate", "%") && IsPlainAttr("pitch", "%")
  {
  }

  lemma ProsodyAttrsArePlain(v: Voice, s: State)
    ensures ArePlain(ProsodyAttrs(v, s))
  {
    hide VolumeOf, RateOf, PitchOf, RatePercent, ToWString, IsPlainAttr;
    ProsodyKeys();
    NumberIsPlain("volume", VolumeOf(v, s) - 100, "%");
    NumberIsPlain("rate", RatePercent(RateOf(v, s)), "%");
    NumberIsPlain("pitch", PitchOf(s) * 5, "%");
  }

  lemma LookupThree(a: bool, x: string, b: bool, y: string, c: bool, z: string)
    ensures var attrs := (if a then [("volume", x)] else []) + (if b then [("rate", y)] else []) +
                         (if c then [("pitch", z)] else []);
      Lookup(attrs, "volume") == (if a then Some(x) else None) &&
      Lookup(attrs, "rate") == (if b then Some(y) else None) &&
      Lookup(attrs, "pitch") == (if c then Some(z) else None) && |attrs| <= 3 &&
      forall i :: 0 <= i < |attrs| ==> attrs[i].0 in {"volume", "rate", "pitch"}
  {
    var p: seq<(string, string)>, q: seq<(string, string)>, r: seq<(string, string)> :=
      if a then [("volume", x)] else [], if b then [("rate", y)] else [], if c then [("pitch", z)] else [];
    assert |"volume"| == 6 && |"rate"| == 4 && |"pitch"| == 5;
    LookupNone(r, "volume");
    LookupNone(r, "rate");
    LookupConcat(p, q, "volume");
    LookupConcat(p, q, "rate");
    LookupConcat(p, q, "pitch");
    LookupConcat(p + q, r, "volume");
    LookupConcat(p + q, r, "rate");
    LookupConcat(p + q, r, "pitch");
  }

  lemma LookupNone(attrs: seq<(string, string)>, key: string)
    requires |attrs| <= 1
    ensures Lookup(attrs, key) == if attrs != [] && attrs[0].0 == key then Some(attrs[0].1) else None
  {
  }

  lemma {:induction false} LookupConcat(a: seq<(string, string)>, b: seq<(string, string)>, key: string)
    ensures Lookup(a + b, key) == if Lookup(a, key).Some? then Lookup(a, key) else Lookup(b, key)
  {
    if a == [] {
      assert a + b == b;
    } else {
      LookupConcat(a[1..], b, key);
      assert (a + b)[1..] == a[1..] + b;
    }
  }

  /** The three attributes as they are written. */
  lemma ProsodyAttributes(v: Voice, s: State)
    ensures var tag := ProsodyTag(v, s);
      AttributeAt(tag, "volume") ==
        (if VolumeOf(v, s) != 100 then Some(ToWString(VolumeOf(v, s) - 100) + "%") else None) &&
      AttributeAt(tag, "rate") ==
        (if RateOf(v, s) != 0 then Some(ToWString(RatePercent(RateOf(v, s))) + "%") else None) &&
      AttributeAt(tag, "pitch") == (if PitchOf(s) != 0 then Some(ToWString(PitchOf(s) * 5) + "%") else None) &&
      AttributesOf(tag).Some? && |AttributesOf(tag).value| <= 3 &&
      forall i :: 0 <= i < |AttributesOf(tag).value| ==> AttributesOf(tag).value[i].0 in {"volume", "rate", "pitch"}
  {
    var volume, rate, pitch := VolumeOf(v, s) - 100, RatePercent(RateOf(v, s)), PitchOf(s) * 5;
    hide AttributesOf, StartTagText, ToWString, RatePercent, RateOf, VolumeOf, PitchOf, ArePlain, IsName;
    ProsodyAttrsArePlain(v, s);
    NamesAreNames();
    TagAttributes("prosody", ProsodyAttrs(v, s));
    LookupThree(VolumeOf(v, s) != 100, ToWString(volume) + "%", RateOf(v, s) != 0, ToWString(rate) + "%",
      PitchOf(s) != 0, ToWString(pitch) + "%");
    hide Lookup;
  }

  /** What a reader finds in the prosody tag of any fragment. */
  lemma ProsodyTagSays(v: Voice, s: State)
    ensures SaysProsody(ProsodyTag(v, s), v, s)
  {
    hide RatePercent, RateOf, VolumeOf, PitchOf, ToWString, Quantity, AttributeAt, AttributesOf, ProsodyTag,
      IsRatePercent, VolumeProduct;
    ProsodyAttributes(v, s);
    QuantityRead(VolumeOf(v, s) - 100, "%");
    QuantityRead(RatePercent(RateOf(v, s)), "%");
    QuantityRead(PitchOf(s) * 5, "%");
    RateIs(v, s);
    VolumeIs(v, s);
    PitchIs(s);
  }

  // ----- other tags

  lemma KeysArePlain()
    ensures IsPlainAttr("time", "ms") && IsPlainAttr("mark", []) && IsPlainAttr("interpret-as", "date")
    ensures IsPlainAttr("interpret-as", "characters") && IsPlainAttr("format", []) && IsPlainAttr("alphabet", "sapi")
    ensures IsPlainAttr("ph", []) && IsPlainAttr("name", []) && IsPlainAttr("xml:lang", [])
    ensures IsPlainAttr("version", "1.0") && IsPlainAttr("xmlns", "http://www.w3.org/2001/10/synthesis")
    ensures IsPlainAttr("xmlns:mstts", "http://www.w3.org/2001/mstts")
  {
    hide IsPlainAttr;
    OneIsPlain("time", "ms");
    OneIsPlain("mark", []);
    OneIsPlain("interpret-as", "date");
    OneIsPlain("interpret-as", "characters");
    OneIsPlain("format", []);
    OneIsPlain("alphabet", "sapi");
    OneIsPlain("ph", []);
    OneIsPlain("name", []);
    OneIsPlain("xml:lang", []);
    OneIsPlain("version", "1.0");
    OneIsPlain("xmlns", "http://www.w3.org/2001/10/synthesis");
    OneIsPlain("xmlns:mstts", "http://www.w3.org/2001/mstts");
  }

  lemma OneIsPlain(key: string, val: string)
    requires key != [] && forall i :: 0 <= i < |key| ==> 'a' <= key[i] <= 'z' || key[i] == '-' || key[i] == ':'
    requires forall i :: 0 <= i < |val| ==> val[i] != '\''
    ensures IsPlainAttr(key, val)
  {
  }

  /** A value without apostrophes does as well as any other. */
  lemma AnyValue(key: string, val: string, val': string)
    requires IsPlainAttr(key, val) && '\'' !in val'
    ensures IsPlainAttr(key, val')
  {
  }

  /** The tag has one attribute, and this is what it says once its entities are decoded. */
  predicate SaysOnly(tag: string, key: string, text: string) {
    var attrs := AttributesOf(tag);
    attrs.Some? && |attrs.value| == 1 && attrs.value[0].0 == key && Decoded(attrs.value[0].1) == text
  }

  /** A break of that many milliseconds, and nothing else. */
  predicate SaysBreak(tag: string, ms: nat) {
    AttributesOf(tag).Some? && |AttributesOf(tag).value| == 1 && Measure(tag, "time", "ms") == Some(ms)
  }

  lemma BreakTagSays(s: State)
    ensures SaysBreak(BreakTag(s), s.silenceMSecs)
  {
    hide AttributesOf, EmptyTagText, ToWString, Quantity, IsPlainAttr, IsName;
    var attrs := [("time", ToWString(s.silenceMSecs) + "ms")];
    KeysArePlain();
    NamesAreNames();
    NumberIsPlain("time", s.silenceMSecs, "ms");
    TagAttributes("break", attrs);
    LookupNone(attrs, "time");
    QuantityRead(s.silenceMSecs, "ms");
  }

  lemma EscapedIsPlain(key: string, t: string)
    requires IsPlainAttr(key, [])
    ensures IsPlainAttr(key, Escape(t)) && Decoded(Escape(t)) == t
  {
    hide IsPlainAttr, Escape, Decoded;
    EscapedIsBare(t);
    AnyValue(key, [], Escape(t));
    DecodedEscape(t);
  }

  lemma BookmarkTagSays(t: string)
    ensures SaysOnly(EmptyTagText("bookmark", [("mark", Escape(t))]), "mark", t)
  {
    hide AttributesOf, EmptyTagText, IsPlainAttr, IsName, Escape, Decoded;
    KeysArePlain();
    NamesAreNames();
    EscapedIsPlain("mark", t);
    TagAttributes("bookmark", [("mark", Escape(t))]);
  }

  lemma CharactersTagSays()
    ensures AttributesOf(CharactersTag()) == Some([("interpret-as", "characters")])
  {
    hide AttributesOf, StartTagText, IsPlainAttr, IsName;
    KeysArePlain();
    NamesAreNames();
    TagAttributes("say-as", [("interpret-as", "characters")]);
  }

  lemma EmphasisTagSays()
    ensures AttributesOf(StartTagText("emphasis", [])) == Some([])
  {
    hide AttributesOf, StartTagText, IsName;
    NamesAreNames();
    TagAttributes("emphasis", []);
  }

  /** What is pronounced: what the converter makes of the phoneme ids, up to a NUL, or nothing where it fails. */
  function Phonemes(v: Voice, s: State): string {
    match v.idToPhone(s.phoneIds) case None => [] case Some(ph) => UpToNul(ph)
  }

  predicate SaysPhonemes(tag: string, phonemes: string) {
    var attrs := AttributesOf(tag);
    attrs.Some? && |attrs.value| == 2 && attrs.value[0] == ("alphabet", "sapi") && attrs.value[1].0 == "ph" &&
    Decoded(attrs.value[1].1) == phonemes
  }

  lemma PhonemeTagSays(v: Voice, s: State)
    ensures SaysPhonemes(PhonemeTag(v, s), Phonemes(v, s))
  {
    hide AttributesOf, StartTagText, IsPlainAttr, IsName, Escape, Decoded, UpToNul;
    var ph := Phonemes(v, s);
    assert Escape([]) == [] by {
      EscapeNothing();
    }
    assert PhonemeText(v, s) == Escape(ph);
    KeysArePlain();
    NamesAreNames();
    EscapedIsPlain("ph", ph);
    TagAttributes("phoneme", [("alphabet", "sapi"), ("ph", Escape(ph))]);
  }

  lemma EscapeNothing()
    ensures Escape([]) == []
  {
  }

  // ----- categories

  /** SAPI's names for kinds of text that SSML names otherwise. */
  const KNOWN_CATEGORIES: seq<(string, string)> :=
    [("number_cardinal", "cardinal"), ("number_fraction", "fraction"), ("phone_number", "telephone")]

  /** `date_` or `date:`, in any case, in front of a format. */
  predicate IsDate(cat: string) {
    |cat| >= 5 && EqualsIgnoreCase(cat[..4], "date") && (cat[4] == '_' || cat[4] == ':')
  }

  predicate IsKnown(cat: string, i: int) {
    0 <= i < |KNOWN_CATEGORIES| && EqualsIgnoreCase(cat, KNOWN_CATEGORIES[i].0)
  }

  /** A date says its format, a known category its SSML name, any other itself. */
  ghost predicate SaysCategory(tag: string, cat: string) {
    if IsDate(cat) then
      AttributesOf(tag) ==
        Some([("interpret-as", "date"), ("format", if EqualsIgnoreCase(cat[5..], "year") then "y" else cat[5..])])
    else
      (forall i :: IsKnown(cat, i) ==> AttributesOf(tag) == Some([("interpret-as", KNOWN_CATEGORIES[i].1)])) &&
      ((forall i :: !IsKnown(cat, i)) ==> AttributesOf(tag) == Some([("interpret-as", cat)]))
  }

  lemma CategoryIsPlain(cat: string)
    requires '\'' !in cat
    ensures '\'' !in CategoryValue(cat)
  {
    hide EqualsIgnoreCase;
    if IsDateCategory(cat) {
      assert forall c :: c in cat[5..] ==> c in cat;
    }
  }

  /** The category written is one of the known ones, or the category itself. */
  lemma KnownValue(cat: string)
    requires !IsDateCategory(cat)
    ensures forall i :: IsKnown(cat, i) ==> CategoryValue(cat) == KNOWN_CATEGORIES[i].1
    ensures (forall i :: !IsKnown(cat, i)) ==> CategoryValue(cat) == cat
  {
    assert |"number_cardinal"| == 15 && |"number_fraction"| == 15 && |"phone_number"| == 12;
    assert LowerChar("number_cardinal"[7]) == 'c' && LowerChar("number_fraction"[7]) == 'f';
    assert !(EqualsIgnoreCase(cat, "number_cardinal") && EqualsIgnoreCase(cat, "number_fraction"));
    hide EqualsIgnoreCase, IsDateCategory;
    assert EqualsIgnoreCase(cat, "number_cardinal") ==> IsKnown(cat, 0);
    assert EqualsIgnoreCase(cat, "number_fraction") ==> IsKnown(cat, 1);
    assert EqualsIgnoreCase(cat, "phone_number") ==> IsKnown(cat, 2);
    SameLength(cat);
  }

  lemma SameLength(cat: string)
    ensures EqualsIgnoreCase(cat, "number_cardinal") ==> |cat| == 15
    ensures EqualsIgnoreCase(cat, "number_fraction") ==> |cat| == 15
    ensures EqualsIgnoreCase(cat, "phone_number") ==> |cat| == 12
  {
  }

  /** What a reader finds in the say-as tag of a category without apostrophes. */
  lemma ContextTagSays(cat: string)
    requires '\'' !in cat
    ensures SaysCategory(ContextTag(cat), cat)
  {
    hide AttributesOf, StartTagText, IsPlainAttr, IsName, EqualsIgnoreCase, CategoryValue;
    KeysArePlain();
    NamesAreNames();
    CategoryIsPlain(cat);
    AnyValue("interpret-as", "date", CategoryValue(cat));
    AnyValue("format", [], CategoryValue(cat));
    TagAttributes("say-as", ContextAttrs(cat));
    if IsDateCategory(cat) {
      DateValue(cat);
    } else {
      KnownValue(cat);
    }
  }

  lemma DateValue(cat: string)
    requires IsDateCategory(cat)
    ensures CategoryValue(cat) == if EqualsIgnoreCase(cat[5..], "year") then "y" else cat[5..]
  {
  }

  // ----- the outermost tags

  /** The document is SSML 1.0 in the voice's language. */
  lemma SpeakTagSays(v: Voice)
    requires '\'' !in v.locale
    ensures AttributesOf(SpeakTag(v)) ==
      Some([("version", "1.0"), ("xmlns", "http://www.w3.org/2001/10/synthesis"),
            ("xmlns:mstts", "http://www.w3.org/2001/mstts"), ("xml:lang", v.locale)])
  {
    hide AttributesOf, StartTagText, IsPlainAttr, IsName;
    KeysArePlain();
    NamesAreNames();
    AnyValue("xml:lang", [], v.locale);
    TagAttributes("speak",
      [("version", "1.0"), ("xmlns", SYNTHESIS_NS), ("xmlns:mstts", MSTTS_NS), ("xml:lang", v.locale)]);
  }

  lemma VoiceTagSays(v: Voice)
    requires '\'' !in v.onlineName
    ensures AttributesOf(VoiceTag(v)) == Some([("name", v.onlineName)])
  {
    hide AttributesOf, StartTagText, IsPlainAttr, IsName;
    KeysArePlain();
    NamesAreNames();
    AnyValue("name", [], v.onlineName);
    TagAttributes("voice", [("name", v.onlineName)]);
  }
}
