/** The plain-text path: the text handed to the synthesizer and the map from its positions to SAPI positions. */
module PlainText {
  import opened Strings
  import opened Ssml
  import opened SsmlOffsets
  import opened SsmlRoundTrip

  datatype Plain = Plain(text: string, offsets: seq<u32>)

  predicate NeedsGap(text: string) {
    text != [] && !IsWSpace(Last(text))
  }

  function Offsets(src: nat, n: nat): (r: seq<u32>)
    ensures |r| == n && forall j :: 0 <= j < n ==> r[j] == U32(src + j)
  {
    seq<u32>(n, j => U32(src + j))
  }

  function AddFrag(p: Plain, f: Frag): Plain {
    if f.text == [] || !IsSpeakable(f) then p
    else
      var last := if p.offsets == [] then 0 else Last(p.offsets);
      var q := if NeedsGap(p.text) then Plain(p.text + " ", p.offsets + [last]) else p;
      Plain(q.text + f.text, q.offsets + Offsets(f.src, |f.text|))
  }

  function AddAll(frags: seq<Frag>): Plain {
    if frags == [] then Plain([], []) else AddFrag(AddAll(Front(frags)), Last(frags))
  }

  function TrimTail(p: Plain): Plain
    decreases |p.text|
  {
    if p.text != [] && IsWSpace(Last(p.text))
    then TrimTail(Plain(Front(p.text), if p.offsets != [] then Front(p.offsets) else []))
    else p
  }

  function Extract(frags: seq<Frag>): Plain {
    TrimTail(AddAll(frags))
  }

  /** A plain-text offset as a SAPI offset. */
  function Translate(offsets: seq<u32>, offset: nat): nat {
    if offsets == [] then offset
    else if offset >= |offsets| then U32(Last(offsets) as int + 1)
    else offsets[offset]
  }

  class PlainMapper {
    var m_plainToSapiMap: seq<u32>

    constructor ()
      ensures m_plainToSapiMap == []
    {
      m_plainToSapiMap := [];
    }

    method AppendFragText(out: string, f: Frag) returns (out': string)
      modifies this`m_plainToSapiMap
      ensures out' == out + f.text && m_plainToSapiMap == old(m_plainToSapiMap) + Offsets(f.src, |f.text|)
    {
      out' := out;
      for i := 0 to |f.text|
        invariant out' == out + f.text[..i]
        invariant m_plainToSapiMap == old(m_plainToSapiMap) + Offsets(f.src, i)
      {
        out' := out' + [f.text[i]];
        m_plainToSapiMap := m_plainToSapiMap + [U32(f.src + i)];
        assert Offsets(f.src, i + 1) == Offsets(f.src, i) + [U32(f.src + i)];
      }
    }

    /** The spoken texts, separated where needed and trimmed at the end; rebuilds the map. */
    method ExtractSherpaPlainTextWithMap(frags: seq<Frag>) returns (out: string)
      modifies this`m_plainToSapiMap
      ensures Plain(out, m_plainToSapiMap) == Extract(frags)
    {
      out, m_plainToSapiMap := [], [];
      for i := 0 to |frags|
        invariant Plain(out, m_plainToSapiMap) == AddAll(frags[..i])
      {
        var f := frags[i];
        assert Front(frags[..i + 1]) == frags[..i];
        if f.text != [] && IsSpeakable(f) {
          if out != [] && !IsWSpace(Last(out)) {
            out := out + " ";
            m_plainToSapiMap := m_plainToSapiMap + [if m_plainToSapiMap == [] then 0 else Last(m_plainToSapiMap)];
          }
          out := AppendFragText(out, f);
        }
      }
      assert frags[..|frags|] == frags;
      while out != [] && IsWSpace(Last(out))
        invariant TrimTail(Plain(out, m_plainToSapiMap)) == Extract(frags)
      {
        out := Front(out);
        if m_plainToSapiMap != [] {
          m_plainToSapiMap := Front(m_plainToSapiMap);
        }
      }
    }

    function TranslateOffset(plainOffset: nat): nat
      reads this
    {
      Translate(m_plainToSapiMap, plainOffset)
    }
  }

  // ----- the map belongs to the text

  lemma {:induction false} AddAllLengths(frags: seq<Frag>)
    ensures |AddAll(frags).offsets| == |AddAll(frags).text|
  {
    if frags != [] {
      AddAllLengths(Front(frags));
    }
  }

  lemma {:induction false} TrimTailCuts(p: Plain)
    requires |p.offsets| == |p.text|
    ensures var q := TrimTail(p);
      |q.text| <= |p.text| && q == Plain(p.text[..|q.text|], p.offsets[..|q.text|]) &&
        (q.text == [] || !IsWSpace(Last(q.text)))
    ensures forall k :: |TrimTail(p).text| <= k < |p.text| ==> IsWSpace(p.text[k])
    decreases |p.text|
  {
    if p.text != [] && IsWSpace(Last(p.text)) {
      TrimTailCuts(Plain(Front(p.text), Front(p.offsets)));
    }
  }

  /** The map always has one entry per character. */
  lemma MapMatchesText(frags: seq<Frag>)
    ensures |Extract(frags).offsets| == |Extract(frags).text|
  {
    AddAllLengths(frags);
    TrimTailCuts(AddAll(frags));
  }

  /** Every fragment's text is what the SAPI source has at its offset. */
  predicate CutFrom(sapi: string, frags: seq<Frag>) {
    |sapi| < TWO_32 &&
    forall i :: 0 <= i < |frags| ==>
      frags[i].src + |frags[i].text| <= |sapi| && sapi[frags[i].src..frags[i].src + |frags[i].text|] == frags[i].text
  }

  /** Which characters of the untrimmed text were inserted: a space before a fragment's text where one is needed. */
  function Inserted(frags: seq<Frag>): (marks: seq<bool>)
    ensures |marks| == |AddAll(frags).text|
  {
    if frags == [] then []
    else
      var p, f, marks := AddAll(Front(frags)), Last(frags), Inserted(Front(frags));
      if f.text == [] || !IsSpeakable(f) then marks
      else marks + (if NeedsGap(p.text) then [true] else []) + seq(|f.text|, _ => false)
  }

  /**
   Character `k` is the source character at its mapped offset; if it was inserted, it is a space between two texts that
   repeats its predecessor's offset.
   */
  predicate Faithful(sapi: string, p: Plain, marks: seq<bool>, k: nat)
    requires k < |p.text| && |p.offsets| == |p.text| <= |marks|
  {
    if marks[k] then
      k > 0 && !marks[k - 1] && p.text[k] == ' ' && !IsWSpace(p.text[k - 1]) && p.offsets[k] == p.offsets[k - 1]
    else p.offsets[k] < |sapi| && sapi[p.offsets[k]] == p.text[k]
  }

  /** All characters are faithful, and the text does not end in an inserted space. */
  predicate AllFaithful(sapi: string, p: Plain, marks: seq<bool>) {
    |p.offsets| == |p.text| == |marks| && (marks != [] ==> !Last(marks)) &&
    forall k :: 0 <= k < |p.text| ==> Faithful(sapi, p, marks, k)
  }

  lemma {:induction false} AddAllFaithful(sapi: string, frags: seq<Frag>)
    requires CutFrom(sapi, frags)
    ensures AllFaithful(sapi, AddAll(frags), Inserted(frags))
  {
    if frags != [] {
      hide AddFrag, AllFaithful;
      var rest, f := Front(frags), Last(frags);
      AddAllFaithful(sapi, rest);
      AddFragFaithful(sapi, AddAll(rest), Inserted(rest), f);
    } else {
      assert AddAll(frags) == Plain([], []);
    }
  }

  /** Where the characters of a fragment come to stand. */
  lemma AddedIs(p: Plain, f: Frag, j: nat)
    requires IsSpeakable(f) && j < |f.text| && |p.offsets| == |p.text|
    ensures var q, k := AddFrag(p, f), |p.text| + (if NeedsGap(p.text) then 1 else 0) + j;
      |q.offsets| == |q.text| && k < |q.text| && q.text[k] == f.text[j] && q.offsets[k] == U32(f.src + j)
  {
    hide NeedsGap, IsSpeakable;
  }

  lemma AddFragFaithful(sapi: string, p: Plain, marks: seq<bool>, f: Frag)
    requires AllFaithful(sapi, p, marks) && |sapi| < TWO_32
    requires f.src + |f.text| <= |sapi| && sapi[f.src..f.src + |f.text|] == f.text
    ensures AllFaithful(sapi, AddFrag(p, f),
      if f.text == [] || !IsSpeakable(f) then marks
      else marks + (if NeedsGap(p.text) then [true] else []) + seq(|f.text|, _ => false))
  {
    hide IsWSpace, IsSpeakable;
    if f.text != [] && IsSpeakable(f) {
      var gap, n := if NeedsGap(p.text) then 1 else 0, |p.text|;
      var q, all := AddFrag(p, f), marks + (if NeedsGap(p.text) then [true] else []) + seq(|f.text|, _ => false);
      forall k | 0 <= k < |q.text|
        ensures Faithful(sapi, q, all, k)
      {
        if k < n {
          assert Faithful(sapi, p, marks, k);
        } else if k >= n + gap {
          AddedIs(p, f, k - n - gap);
          assert f.text[k - n - gap] == sapi[f.src + k - n - gap];
        }
      }
    }
  }

  /** Every character that was not inserted is the source character at its mapped offset. */
  lemma TextIsFaithful(sapi: string, frags: seq<Frag>)
    requires CutFrom(sapi, frags)
    ensures var p, marks := Extract(frags), Inserted(frags);
      |p.offsets| == |p.text| <= |marks| && forall k :: 0 <= k < |p.text| ==> Faithful(sapi, p, marks, k)
  {
    AddAllFaithful(sapi, frags);
    var p, marks := AddAll(frags), Inserted(frags);
    TrimTailCuts(p);
    var q := Extract(frags);
    hide IsWSpace, TrimTail, AddAll;
    forall k | 0 <= k < |q.text|
      ensures Faithful(sapi, q, marks, k)
    {
      assert Faithful(sapi, p, marks, k);
    }
  }

  /** Which fragments get a separating space. */
  function Gaps(frags: seq<Frag>): (g: seq<bool>)
    ensures |g| == |frags|
  {
    if frags == [] then [] else
      Gaps(Front(frags)) + [Last(frags).text != [] && IsSpeakable(Last(frags)) && NeedsGap(AddAll(Front(frags)).text)]
  }

  /** Before trimming, the text is all spoken texts in order, with at most one space before each. */
  lemma {:induction false} TextIsComplete(frags: seq<Frag>)
    ensures AddAll(frags).text == Joined(frags, Gaps(frags))
  {
    if frags != [] {
      TextIsComplete(Front(frags));
      var p, f := AddAll(Front(frags)), Last(frags);
      assert Front(Gaps(frags)) == Gaps(Front(frags));
      assert p.text + " " + f.text == p.text + (" " + f.text);
      assert p.text + [] == p.text && [] + f.text == f.text;
    }
  }

  // ----- texts stay apart

  predicate IsSpokenHere(f: Frag) {
    f.text != [] && (f.state.action.Speak? || f.state.action.SpellOut? || f.state.action.Pronounce?)
  }

  /** The text before fragment `m`, in the untrimmed text. */
  function TextBefore(frags: seq<Frag>, m: nat): string
    requires m <= |frags|
  {
    AddAll(frags[..m]).text
  }

  /** A spoken text is put behind what there is, with a space in between exactly where that does not end in a blank. */
  lemma TextIsAdded(frags: seq<Frag>, m: nat)
    requires m < |frags|
    ensures var before, f := TextBefore(frags, m), frags[m];
      TextBefore(frags, m + 1) ==
        if !IsSpokenHere(f) then before
        else if before == [] || IsWSpace(before[|before| - 1]) then before + f.text
        else before + " " + f.text
  {
    hide IsWSpace;
    assert Front(frags[..m + 1]) == frags[..m];
  }

  lemma {:induction false} TextGrowsTo(frags: seq<Frag>, m: nat, n: nat)
    requires m <= n <= |frags|
    ensures TextBefore(frags, m) <= TextBefore(frags, n)
    decreases n - m
  {
    hide TextBefore, IsWSpace;
    if m < n {
      TextGrowsTo(frags, m, n - 1);
      TextIsAdded(frags, n - 1);
    }
  }

  /** What is cut off the end is all blanks, from text and map alike, and what is left does not end in one. */
  lemma ExtractIsTrimmed(frags: seq<Frag>)
    ensures var p, q := AddAll(frags), Extract(frags);
      q.text <= p.text && q.offsets <= p.offsets && |q.offsets| == |q.text| &&
      (q.text != [] ==> !IsWSpace(q.text[|q.text| - 1])) &&
      forall k :: |q.text| <= k < |p.text| ==> IsWSpace(p.text[k])
  {
    AddAllLengths(frags);
    TrimTailCuts(AddAll(frags));
  }

  /**
   The text of every spoken fragment stands in the untrimmed text, and unless nothing was spoken before it, right behind
   a blank.
   */
  lemma TextsStayApart(frags: seq<Frag>, m: nat)
    requires m < |frags| && IsSpokenHere(frags[m])
    ensures var whole, text, end := AddAll(frags).text, frags[m].text, |TextBefore(frags, m + 1)|;
      |text| <= end <= |whole| && whole[end - |text|..end] == text &&
      if TextBefore(frags, m) == [] then end == |text| else end > |text| && IsWSpace(whole[end - |text| - 1])
  {
    hide AddAll, IsWSpace;
    var before, after, whole := TextBefore(frags, m), TextBefore(frags, m + 1), AddAll(frags).text;
    TextIsAdded(frags, m);
    TextGrowsTo(frags, m + 1, |frags|);
    assert frags[..|frags|] == frags;
    assert whole[..|after|] == after;
    var start := |after| - |frags[m].text|;
    assert after[start..] == frags[m].text;
    assert whole[start..|after|] == after[start..];
    if before != [] {
      SpaceIsBlank();
      assert whole[start - 1] == after[start - 1];
    }
  }

  lemma SpaceIsBlank()
    ensures IsWSpace(' ')
  {
  }

  // ----- translation

  predicate NonDecreasing(s: seq<u32>) {
    forall i, j :: 0 <= i <= j < |s| ==> s[i] <= s[j]
  }

  predicate Below(s: seq<u32>, limit: nat) {
    forall i :: 0 <= i < |s| ==> s[i] < limit
  }

  lemma AddFragOrdered(p: Plain, f: Frag, limit: nat)
    requires |p.offsets| == |p.text| && NonDecreasing(p.offsets) && Below(p.offsets, limit)
    requires limit <= f.src && f.src + |f.text| < TWO_32
    ensures NonDecreasing(AddFrag(p, f).offsets) && Below(AddFrag(p, f).offsets, f.src + |f.text|)
  {
    hide IsWSpace;
    if f.text != [] && IsSpeakable(f) {
      var gap := if NeedsGap(p.text) then [Last(p.offsets)] else [];
      var o := Offsets(f.src, |f.text|);
      assert AddFrag(p, f).offsets == p.offsets + gap + o;
      assert NonDecreasing(p.offsets + gap) && Below(p.offsets + gap, limit);
      assert forall j :: 0 <= j < |o| ==> o[j] == f.src + j;
    }
  }

  lemma {:induction false} AddAllOrdered(frags: seq<Frag>)
    requires SourceFits(frags) && SourceOrdered(frags)
    ensures var m := AddAll(frags).offsets;
      NonDecreasing(m) && Below(m, if frags == [] then 0 else Last(frags).src + |Last(frags).text|)
  {
    if frags != [] {
      hide AddFrag, NonDecreasing, Below;
      var rest, f := Front(frags), Last(frags);
      AddAllOrdered(rest);
      AddAllLengths(rest);
      var limit := if rest == [] then 0 else Last(rest).src + |Last(rest).text|;
      if rest != [] {
        assert Last(rest) == frags[|frags| - 2];
      }
      assert frags[|frags| - 1] == f;
      AddFragOrdered(AddAll(rest), f, limit);
    } else {
      assert AddAll(frags).offsets == [];
    }
  }

  /** For fragments in source order, translation is total and never goes back, past the end of the text included. */
  lemma TranslateIsMonotone(frags: seq<Frag>, a: nat, b: nat)
    requires SourceFits(frags) && SourceOrdered(frags) && a <= b
    ensures Translate(Extract(frags).offsets, a) <= Translate(Extract(frags).offsets, b)
  {
    AddAllOrdered(frags);
    AddAllLengths(frags);
    var p := AddAll(frags);
    TrimTailCuts(p);
    var m := Extract(frags).offsets;
    if m != [] {
      assert Last(m) == p.offsets[|m| - 1];
      assert frags[|frags| - 1] == Last(frags);
      assert Last(m) as int + 1 < TWO_32;
    }
  }

  /** Without text, positions stay as they are; past the end they mean the end of the last character that was kept. */
  lemma TranslatePastEnd(sapi: string, frags: seq<Frag>, k: nat)
    requires CutFrom(sapi, frags) && |Extract(frags).text| <= k
    ensures var p, t := Extract(frags), Translate(Extract(frags).offsets, k);
      if p.text == [] then t == k else 0 < t <= |sapi| && sapi[t - 1] == p.text[|p.text| - 1]
  {
    TextIsFaithful(sapi, frags);
    ExtractIsTrimmed(frags);
    var p, marks := Extract(frags), Inserted(frags);
    hide Extract, Inserted, CutFrom;
    if p.text != [] {
      SpaceIsBlank();
      assert Faithful(sapi, p, marks, |p.text| - 1);
    }
  }

  /** A position translates to its own character in the source; an inserted space to the character before it. */
  lemma TranslateIsExact(sapi: string, frags: seq<Frag>, k: nat)
    requires CutFrom(sapi, frags) && k < |Extract(frags).text|
    ensures var p, t := Extract(frags), Translate(Extract(frags).offsets, k);
      k < |Inserted(frags)| && t < |sapi| &&
      if Inserted(frags)[k] then k > 0 && sapi[t] == p.text[k - 1] && p.text[k] == ' ' else sapi[t] == p.text[k]
  {
    TextIsFaithful(sapi, frags);
    var p, marks := Extract(frags), Inserted(frags);
    hide Extract, Inserted, CutFrom, IsWSpace;
    assert Faithful(sapi, p, marks, k);
    if k > 0 {
      assert Faithful(sapi, p, marks, k - 1);
    }
  }
}
