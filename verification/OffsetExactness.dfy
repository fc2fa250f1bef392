/** Inside one fragment, positions and ranges map back exactly. */
module OffsetExactness {
  import opened Strings
  import opened Ssml
  import opened OffsetSearch

  /** One fragment's text at SSML position `start`, and the pairs recorded before and after its own. */
  datatype Site = Site(maps: seq<Mapping>, pre: seq<Mapping>, src: nat, text: string, start: nat, post: seq<Mapping>)

  /** The fragment's pairs stand between pairs for earlier and for later positions. */
  predicate Placed(t: Site) {
    t.maps == t.pre + Group(t.src, t.text, t.start) + t.post && Fits(t.src, t.text, t.start) && Sorted(t.maps) &&
    (forall i :: 0 <= i < |t.post| ==> t.start + |Escape(t.text)| <= t.post[i].ssml)
  }

  // ----- the fragment's own pairs

  /** How many entities precede character `j`: the index, within the fragment's pairs, of the pair that serves it. */
  function Before(src: nat, text: string, start: nat, j: nat): nat
    requires j <= |text|
  {
    |EscapeMaps(src, text[..j], start)|
  }

  lemma GroupShape(src: nat, text: string, start: nat)
    requires Fits(src, text, start)
    ensures var e, g := EscapeMaps(src, text, start), Group(src, text, start);
      |g| == |e| + 2 && g[0] == Mapping(src, start) && g[|e| + 1] == Mapping(src + |text|, start + |Escape(text)|) &&
      forall i :: 0 <= i < |e| ==> g[i + 1] == e[i]
  {
    hide EscapeMaps, Escape;
  }

  /** The pair that serves character `j` is at its distance, and all later ones lie beyond. */
  lemma GroupServes(src: nat, text: string, start: nat, j: nat)
    requires Fits(src, text, start) && j < |text|
    ensures var g, q, off := Group(src, text, start), Before(src, text, start, j), start + Pos(text, j);
      q < |g| && g[q].ssml <= off && off - g[q].ssml + g[q].sapi == src + j &&
      forall d :: q < d < |g| ==> off < g[d].ssml
  {
    var e, p, g := EscapeMaps(src, text, start), EscapeMaps(src, text[..j], start), Group(src, text, start);
    GroupShape(src, text, start);
    PosFits(text, j);
    PosMonotone(text, j, |text|);
    EscapeMapsLast(src, text[..j], start);
    EscapeMapsSplit(src, text, start, j);
    hide EscapeMaps, Escape, Group;
    forall d | |p| < d < |g|
      ensures start + Pos(text, j) < g[d].ssml
    {
      if d <= |e| {
        assert g[d] == e[d - 1];
      }
    }
    if |p| > 0 {
      assert g[|p|] == e[|p| - 1] == p[|p| - 1];
    }
  }

  /** Start and entity pairs have strictly increasing SSML offsets. */
  lemma GroupIncreases(src: nat, text: string, start: nat)
    requires Fits(src, text, start)
    ensures var g := Group(src, text, start); forall i, j :: 0 <= i < j < |g| - 1 ==> g[i].ssml < g[j].ssml
  {
    GroupShape(src, text, start);
    EntityPairsIncrease(src, text, start);
    EscapeMapsLast(src, text, start);
    hide EscapeMaps, Escape, Group;
    var e, g := EscapeMaps(src, text, start), Group(src, text, start);
    assert forall i :: 0 < i < |g| - 1 ==> g[i] == e[i - 1];
  }

  lemma {:induction false} EntityPairsIncrease(src: nat, t: string, start: nat)
    requires Fits(src, t, start)
    ensures var e := EscapeMaps(src, t, start); forall i, j :: 0 <= i < j < |e| ==> e[i].ssml < e[j].ssml
  {
    if t != [] {
      EntityPairsIncrease(src, Front(t), start);
      EscapeMapsLast(src, Front(t), start);
      assert |Escape(Front(t))| < |Escape(t)|;
    }
  }

  /** Two positions served by the same pair have no escaped character between them. */
  lemma {:induction false} SamePairIsPlain(src: nat, text: string, start: nat, a: nat, b: nat)
    requires a <= b <= |text|
    ensures |EscapeMaps(src, text[..a], start)| <= |EscapeMaps(src, text[..b], start)|
    ensures |EscapeMaps(src, text[..a], start)| == |EscapeMaps(src, text[..b], start)| ==>
      forall i :: a <= i < b ==> !IsEscaped(text[i])
    decreases b - a
  {
    if a < b {
      SamePairIsPlain(src, text, start, a, b - 1);
      assert Front(text[..b]) == text[..b - 1];
    }
  }

  // ----- characters

  lemma SiteAt(t: Site, d: nat)
    requires Placed(t)
    ensures var g := Group(t.src, t.text, t.start);
      |t.maps| == |t.pre| + |g| + |t.post| &&
      (d < |g| ==> t.maps[|t.pre| + d] == g[d]) &&
        (|g| <= d < |g| + |t.post| ==> t.maps[|t.pre| + d] == t.post[d - |g|])
  {
    hide Group, Sorted;
  }

  /** The index of the pair that serves character `j`. */
  function Serving(t: Site, j: nat): nat
    requires j <= |t.text|
  {
    |t.pre| + Before(t.src, t.text, t.start, j)
  }

  lemma BeyondServing(t: Site, j: nat, i: nat)
    requires Placed(t) && j < |t.text| && Serving(t, j) < i < |t.maps|
    ensures t.start + Pos(t.text, j) < t.maps[i].ssml
  {
    GroupServes(t.src, t.text, t.start, j);
    SiteAt(t, i - |t.pre|);
    PosFits(t.text, j);
    PosMonotone(t.text, j, |t.text|);
    hide Group, Escape, Before, Sorted;
  }

  /** The search for a character's position stops at the pair that serves it, and shifts to its source offset. */
  lemma CharacterIsExact(t: Site, j: nat)
    requires Placed(t) && j < |t.text|
    ensures var k := Serving(t, j);
      k < |t.maps| && WalkForward(t.maps, 0, t.start + Pos(t.text, j)) == k &&
      Shift(t.maps[k], t.start + Pos(t.text, j)) == t.src + j
  {
    hide Group, Before, Escape;
    var off, k := t.start + Pos(t.text, j), Serving(t, j);
    GroupServes(t.src, t.text, t.start, j);
    SiteAt(t, Before(t.src, t.text, t.start, j));
    forall i | k < i < |t.maps|
      ensures off < t.maps[i].ssml
    {
      BeyondServing(t, j, i);
    }
    WalkFindsLast(t.maps, 0, off);
    LastIsUnique(t.maps, off, k, WalkForward(t.maps, 0, off));
  }

  /** The pair before the one serving a character, in the same fragment, has a smaller SSML offset. */
  lemma ServingIsFirst(t: Site, j: nat)
    requires Placed(t) && j < |t.text|
    ensures var k := Serving(t, j); k < |t.maps| && (k > |t.pre| ==> t.maps[k - 1].ssml < t.maps[k].ssml)
  {
    var q := Before(t.src, t.text, t.start, j);
    EscapeMapsSplit(t.src, t.text, t.start, j);
    GroupShape(t.src, t.text, t.start);
    GroupIncreases(t.src, t.text, t.start);
    SiteAt(t, q);
    if q > 0 {
      SiteAt(t, q - 1);
    }
    hide Group, EscapeMaps, Escape, Placed;
  }

  // ----- ranges

  /** The SSML length of characters [a, b). */
  function Width(text: string, a: nat, b: nat): nat
    requires a <= b <= |text|
  {
    |Escape(text[a..b])|
  }

  lemma {:induction false} WidthIsDistance(text: string, a: nat, b: nat)
    requires a <= b <= |text|
    ensures Pos(text, a) + Width(text, a, b) == Pos(text, b)
  {
    if a == b {
    } else {
      WidthIsDistance(text, a, b - 1);
      assert Front(text[a..b]) == text[a..b - 1];
      assert Front(text[..b]) == text[..b - 1];
    }
  }

  /** Walking on from where the walk for a smaller offset stopped. */
  lemma {:induction false} StartOfWalk(maps: seq<Mapping>, k: nat, r: nat, off: nat, len: nat)
    requires k < |maps| && r == WalkForward(maps, k, off)
    ensures WalkForward(maps, r, off + len) == WalkForward(maps, k, off + len)
    decreases |maps| - k
  {
    if k + 1 < |maps| && off >= maps[k + 1].ssml {
      StartOfWalk(maps, k + 1, r, off, len);
    }
  }

  /** The mapped range, once both walks are known. */
  lemma RangeAt(maps: seq<Mapping>, ka: nat, kb: nat, off: nat, len: nat, from: nat, to: nat)
    requires ka < kb < |maps| && off + len < TWO_32 && from <= to < TWO_32
    requires WalkForward(maps, 0, off) == ka && Shift(maps[ka], off) == from
    requires WalkBack(maps, WalkForward(maps, ka, off + len), U32(from + len)) == kb
    requires off + len - maps[kb].ssml + maps[kb].sapi == to
    ensures MapRange(maps, off, len) == (from, to - from)
  {
    hide WalkForward, WalkBack, Shift;
  }

  /** The mapped range where start and end are served by the same pair. */
  lemma RangeWithin(maps: seq<Mapping>, k: nat, off: nat, len: nat, from: nat)
    requires k < |maps| && off + len < TWO_32
    requires WalkForward(maps, 0, off) == k && Shift(maps[k], off) == from && WalkForward(maps, k, off + len) == k
    ensures MapRange(maps, off, len) == (from, len)
  {
    hide WalkForward, WalkBack, Shift;
  }

  lemma WalkBackStays(maps: seq<Mapping>, k: nat, endSapi: nat)
    requires 0 < k < |maps| && maps[k - 1].ssml < maps[k].ssml
    ensures WalkBack(maps, k, endSapi) == k
  {
  }

  lemma ServingGrows(t: Site, a: nat, b: nat)
    requires a <= b <= |t.text|
    ensures |t.pre| <= Serving(t, a) <= Serving(t, b)
    ensures Serving(t, a) == Serving(t, b) ==> forall i :: a <= i < b ==> !IsEscaped(t.text[i])
  {
    SamePairIsPlain(t.src, t.text, t.start, a, b);
    hide EscapeMaps;
  }

  /** The pair that serves a character is at its distance. */
  lemma ServedAt(t: Site, j: nat)
    requires Placed(t) && j < |t.text|
    ensures var k := Serving(t, j);
      k < |t.maps| && t.start + Pos(t.text, j) - t.maps[k].ssml + t.maps[k].sapi == t.src + j
  {
    hide Group, Before, Escape;
    GroupServes(t.src, t.text, t.start, j);
    SiteAt(t, Before(t.src, t.text, t.start, j));
  }

  /** A range that ends before the end of its fragment maps to its own length. */
  lemma InnerRangeIsExact(t: Site, a: nat, b: nat)
    requires Placed(t) && a <= b < |t.text|
    ensures MapRange(t.maps, t.start + Pos(t.text, a), Width(t.text, a, b)) == (t.src + a, b - a)
  {
    hide Escape, EscapeMaps, Group, Placed, Serving, Width, Pos, MapRange, WalkForward, WalkBack, Shift;
    var off, len := t.start + Pos(t.text, a), Width(t.text, a, b);
    WidthIsDistance(t.text, a, b);
    PosMonotone(t.text, a, b);
    PosFits(t.text, b);
    PlacedFits(t);
    CharacterIsExact(t, a);
    CharacterIsExact(t, b);
    ServingGrows(t, a, b);
    var ka, kb := Serving(t, a), Serving(t, b);
    StartOfWalk(t.maps, 0, ka, off, len);
    if ka == kb {
      PosPlain(t.text, a, b);
      RangeWithin(t.maps, ka, off, len, t.src + a);
    } else {
      ServingIsFirst(t, b);
      WalkBackStays(t.maps, kb, U32(t.src + a + len));
      ServedAt(t, b);
      RangeAt(t.maps, ka, kb, off, len, t.src + a, t.src + b);
    }
  }

  predicate SapiSorted(maps: seq<Mapping>) {
    forall i, j :: 0 <= i <= j < |maps| ==> maps[i].sapi <= maps[j].sapi
  }

  lemma SortedAfter(maps: seq<Mapping>, k: nat)
    requires SapiSorted(maps) && k < |maps|
    ensures forall i :: k <= i < |maps| ==> maps[i].sapi >= maps[k].sapi
  {
  }

  lemma {:induction false} WalkBackTo(maps: seq<Mapping>, first: nat, k: nat, endSapi: nat)
    requires first <= k < |maps|
    requires forall i :: first <= i <= k ==> maps[i].ssml == maps[k].ssml
    requires forall i :: first <= i < k ==> maps[i].sapi >= endSapi
    requires first == 0 || maps[first - 1].ssml < maps[first].ssml
    ensures WalkBack(maps, k, endSapi) == first
  {
    if first < k {
      WalkBackTo(maps, first, k - 1, endSapi);
    }
  }

  /** The walk back from the last pair at the fragment's end position stops at the fragment's own end pair. */
  lemma EndPairIsFound(maps: seq<Mapping>, first: nat, end: nat, endSapi: nat)
    requires Sorted(maps) && 0 < first < |maps|
    requires maps[first - 1].ssml < end && maps[first].ssml == end
    requires forall i :: first <= i < |maps| && maps[i].ssml == end ==> maps[i].sapi >= endSapi
    ensures WalkBack(maps, WalkForward(maps, 0, end), endSapi) == first
  {
    var last := WalkForward(maps, 0, end);
    WalkFindsLast(maps, 0, end);
    assert first <= last;
    forall i | first <= i <= last
      ensures maps[i].ssml == end && maps[i].sapi >= endSapi
    {
      assert maps[first].ssml <= maps[i].ssml <= maps[last].ssml;
    }
    WalkBackTo(maps, first, last, endSapi);
  }

  /** The index of the fragment's end pair. */
  function EndIndex(t: Site): nat {
    |t.pre| + |EscapeMaps(t.src, t.text, t.start)| + 1
  }

  /** The end pair comes after the pair that serves any character. */
  lemma EndPair(t: Site, a: nat)
    requires Placed(t) && a < |t.text|
    ensures var first, end := EndIndex(t), t.start + |Escape(t.text)|;
      Serving(t, a) < first < |t.maps| && t.maps[first] == Mapping(t.src + |t.text|, end) &&
      (t.maps[first - 1].ssml == end ==> t.maps[first - 1].sapi == t.src + |t.text|)
  {
    var n := |EscapeMaps(t.src, t.text, t.start)|;
    EscapeMapsSplit(t.src, t.text, t.start, a);
    EscapeMapsLast(t.src, t.text, t.start);
    GroupShape(t.src, t.text, t.start);
    SiteAt(t, n);
    SiteAt(t, n + 1);
    hide Group, EscapeMaps, Escape, Placed;
  }

  lemma PlainEndPair(t: Site, a: nat)
    requires Placed(t) && a < |t.text| && forall i :: a <= i < |t.text| ==> !IsEscaped(t.text[i])
    ensures var first := EndIndex(t);
      first == Serving(t, a) + 1 && first < |t.maps| && t.maps[first - 1].ssml < t.start + |Escape(t.text)|
  {
    EndPair(t, a);
    PlainKeepsPair(t.src, t.text, t.start, a);
    GroupServes(t.src, t.text, t.start, a);
    SiteAt(t, Before(t.src, t.text, t.start, a));
    PosFits(t.text, a);
    PosMonotone(t.text, a, |t.text|);
    hide Group, EscapeMaps, Escape, Placed;
  }

  lemma PlacedFits(t: Site)
    requires Placed(t)
    ensures Fits(t.src, t.text, t.start) && Sorted(t.maps)
  {
  }

  /** A range up to the end of its fragment maps to its own length when no character in it is escaped. */
  lemma PlainTailIsExact(t: Site, a: nat)
    requires Placed(t) && SapiSorted(t.maps) && a < |t.text|
    requires forall i :: a <= i < |t.text| ==> !IsEscaped(t.text[i])
    ensures MapRange(t.maps, t.start + Pos(t.text, a), Width(t.text, a, |t.text|)) == (t.src + a, |t.text| - a)
  {
    hide EscapeMaps, Escape, Group, Placed, SapiSorted, Sorted, Width, Serving, EndIndex, MapRange, WalkForward,
      WalkBack, Shift;
    var n, off, len, end := |t.text|, t.start + Pos(t.text, a), Width(t.text, a, |t.text|), t.start + |Escape(t.text)|;
    WidthIsDistance(t.text, a, n);
    PosPlain(t.text, a, n);
    PosFits(t.text, a);
    PlacedFits(t);
    CharacterIsExact(t, a);
    EndPair(t, a);
    PlainEndPair(t, a);
    var ka := Serving(t, a);
    StartOfWalk(t.maps, 0, ka, off, len);
    SortedAfter(t.maps, ka + 1);
    EndPairIsFound(t.maps, ka + 1, end, t.src + n);
    RangeAt(t.maps, ka, ka + 1, off, len, t.src + a, t.src + n);
  }

  lemma {:induction false} WalkBackStops(maps: seq<Mapping>, k: nat, endSapi: nat)
    requires k < |maps|
    ensures var r := WalkBack(maps, k, endSapi);
      maps[r].ssml == maps[k].ssml && (r < k ==> maps[r].sapi >= endSapi) &&
      forall i :: r <= i < k ==> maps[i].sapi >= endSapi
  {
    if k > 0 && maps[k - 1].ssml == maps[k].ssml && maps[k - 1].sapi >= endSapi {
      WalkBackStops(maps, k - 1, endSapi);
    }
  }

  /** From a pair whose predecessors at the same offset lie before `endSapi`, the walk back does not move past it. */
  lemma {:induction false} WalkBackStaysAbove(maps: seq<Mapping>, first: nat, k: nat, endSapi: nat)
    requires 0 < first <= k < |maps|
    requires maps[first - 1].ssml == maps[k].ssml ==> maps[first - 1].sapi < endSapi
    requires first < k ==> maps[first].sapi < endSapi
    ensures WalkBack(maps, k, endSapi) >= if first < k then first + 1 else first
  {
    if first + 1 < k && maps[k - 1].ssml == maps[k].ssml && maps[k - 1].sapi >= endSapi {
      WalkBackStaysAbove(maps, first, k - 1, endSapi);
    }
  }

  /** Where the walk for the end of a fragment goes when the range contains an escaped character. */
  lemma EscapedEnd(maps: seq<Mapping>, first: nat, end: nat, src: nat, endSapi: nat)
    requires Sorted(maps) && SapiSorted(maps) && 0 < first < |maps|
    requires maps[first].sapi == src && maps[first].ssml == end && src < endSapi
    requires maps[first - 1].ssml == end ==> maps[first - 1].sapi < endSapi
    ensures var last := WalkForward(maps, 0, end); var r := WalkBack(maps, last, endSapi);
      first <= r <= last && maps[r].ssml == end && (maps[r].sapi == src <==> maps[last].sapi == src)
  {
    var last := WalkForward(maps, 0, end);
    WalkFindsLast(maps, 0, end);
    assert first <= last;
    assert maps[first].ssml <= maps[last].ssml;
    WalkBackStaysAbove(maps, first, last, endSapi);
    WalkBackStops(maps, last, endSapi);
    var r := WalkBack(maps, last, endSapi);
    assert maps[first].sapi <= maps[r].sapi <= maps[last].sapi;
  }

  lemma {:induction false} EscapedIsWider(text: string, a: nat, b: nat, i: nat)
    requires a <= i < b <= |text| && IsEscaped(text[i])
    ensures Width(text, a, b) > b - a
    decreases b
  {
    WidthIsDistance(text, a, b);
    PosMonotone(text, a, i);
    PosMonotone(text, i + 1, b);
    assert Front(text[..i + 1]) == text[..i];
    assert |EscapeChar(text[i])| > 1;
  }

  /**
   A range up to the end of its fragment that contains an escaped character maps to its own length if and only if the
   last pair recorded at that SSML position points at the fragment's end, that is, unless the next text follows without
   markup or space and starts further on in the source.
   */
  lemma EscapedTailIsExactIff(t: Site, a: nat, i: nat)
    requires Placed(t) && SapiSorted(t.maps) && a <= i < |t.text| && IsEscaped(t.text[i])
    requires t.src + a + Width(t.text, a, |t.text|) < TWO_32
    ensures t.maps != []
    ensures var last := WalkForward(t.maps, 0, t.start + |Escape(t.text)|);
      MapRange(t.maps, t.start + Pos(t.text, a), Width(t.text, a, |t.text|)) == (t.src + a, |t.text| - a) <==>
        t.maps[last].sapi == t.src + |t.text|
  {
    hide EscapeMaps, Escape, Group, Placed, SapiSorted, Sorted, Width, Serving, EndIndex, MapRange, WalkForward,
      WalkBack, Shift;
    var n, off, len, end := |t.text|, t.start + Pos(t.text, a), Width(t.text, a, |t.text|), t.start + |Escape(t.text)|;
    WidthIsDistance(t.text, a, n);
    PosFits(t.text, a);
    PlacedFits(t);
    EscapedIsWider(t.text, a, n, i);
    CharacterIsExact(t, a);
    EndPair(t, a);
    var ka, first := Serving(t, a), EndIndex(t);
    StartOfWalk(t.maps, 0, ka, off, len);
    EscapedEnd(t.maps, first, end, t.src + n, t.src + a + len);
    var r := WalkBack(t.maps, WalkForward(t.maps, 0, end), t.src + a + len);
    SortedAfter(t.maps, first);
    RangeAt(t.maps, ka, r, off, len, t.src + a, t.maps[r].sapi);
  }

  lemma AmpersandGroup(start: nat)
    requires start + 6 < TWO_32
    ensures Group(0, "& ", start) == [Mapping(0, start), Mapping(1, start + 5), Mapping(2, start + 6)]
    ensures Escape("& ") == "&amp; " && Width("& ", 0, 2) == 6
  {
    var a, b := "& ", "&";
    assert Front(a) == b && Front(b) == [] && a[0..2] == a;
    EscapedOne(start);
    assert Escape(a) == Escape(b) + " ";
    assert EscapeMaps(0, a, start) == EscapeMaps(0, b, start);
  }

  lemma EscapedOne(start: nat)
    requires start + 6 < TWO_32
    ensures Escape("&") == "&amp;" && EscapeMaps(0, "&", start) == [Mapping(1, start + 5)]
  {
    var b := "&";
    assert Front(b) == [];
    assert Escape(b) == Escape([]) + "&amp;" && Escape([]) == [];
    assert EscapeMaps(0, [], start) == [];
  }

  lemma PlainGroup(start: nat)
    requires start + 1 < TWO_32
    ensures Group(5, "x", start) == [Mapping(5, start), Mapping(6, start + 1)]
  {
    var x := "x";
    assert Front(x) == [];
    assert Escape(x) == Escape([]) + "x" && Escape([]) == [];
    assert EscapeMaps(5, x, start) == EscapeMaps(5, [], start) == [];
  }

  /** Both texts side by side: the range of the whole first text is mapped to length 5 instead of 2. */
  lemma AdjoiningGroups(maps: seq<Mapping>, start: nat)
    requires start + 7 < TWO_32
    requires maps == Group(0, "& ", start) + Group(5, "x", start + 6)
    ensures MapRange(maps, start, 6) == (0, 5)
  {
    AmpersandGroup(start);
    PlainGroup(start + 6);
    hide Group;
    assert maps == [Mapping(0, start), Mapping(1, start + 5), Mapping(2, start + 6), Mapping(5, start + 6),
      Mapping(6, start + 7)];
    FiveWalk(maps, start);
    hide WalkForward, WalkBack;
  }

  lemma FiveWalk(maps: seq<Mapping>, start: nat)
    requires start + 7 < TWO_32
    requires maps == [Mapping(0, start), Mapping(1, start + 5), Mapping(2, start + 6), Mapping(5, start + 6),
      Mapping(6, start + 7)]
    ensures WalkForward(maps, 0, start) == 0 && WalkForward(maps, 0, start + 6) == 3 && WalkBack(maps, 3, 6) == 3
  {
    assert WalkForward(maps, 3, start + 6) == 3;
    assert WalkForward(maps, 2, start + 6) == 3;
    assert WalkForward(maps, 1, start + 6) == 3;
  }

  lemma PlainKeepsPair(src: nat, text: string, start: nat, a: nat)
    requires a <= |text| && forall i :: a <= i < |text| ==> !IsEscaped(text[i])
    ensures EscapeMaps(src, text[..a], start) == EscapeMaps(src, text, start)
    decreases |text|
  {
    if a == |text| {
      assert text[..a] == text;
    } else {
      PlainKeepsPair(src, Front(text), start, a);
      assert Front(text)[..a] == text[..a];
    }
  }
}
