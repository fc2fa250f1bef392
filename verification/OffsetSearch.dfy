/**
 MapTextOffset as functions of the offset pairs: a search that starts at index 0 on every call. The engine keeps a
 cursor between calls; `CursorAgrees` shows that it cannot be observed.
 */
module OffsetSearch {
  import opened Strings
  import opened Ssml

  predicate Sorted(maps: seq<Mapping>) {
    forall i, j :: 0 <= i <= j < |maps| ==> maps[i].ssml <= maps[j].ssml
  }

  /** Move forward while the next pair is not beyond `off`. */
  function WalkForward(maps: seq<Mapping>, k: nat, off: nat): (r: nat)
    requires k < |maps|
    ensures k <= r < |maps|
    decreases |maps| - k
  {
    if k + 1 < |maps| && off >= maps[k + 1].ssml then WalkForward(maps, k + 1, off) else k
  }

  /** Among pairs with the same SSML offset, move back over those at or past `endSapi`. */
  function WalkBack(maps: seq<Mapping>, k: nat, endSapi: nat): (r: nat)
    requires k < |maps|
    ensures r <= k
  {
    if k > 0 && maps[k - 1].ssml == maps[k].ssml && maps[k - 1].sapi >= endSapi
    then WalkBack(maps, k - 1, endSapi)
    else k
  }

  /** `r` is the last pair at or before `off`, or the first pair if there is none. */
  predicate IsLastAtOrBefore(maps: seq<Mapping>, off: nat, r: nat) {
    r < |maps| && (r == 0 || maps[r].ssml <= off) && forall j :: r < j < |maps| ==> off < maps[j].ssml
  }

  /** A position moved by the distance between the two sides of a pair, but not below zero. */
  function Shift(m: Mapping, off: nat): nat {
    if m.ssml > m.sapi && off < m.ssml - m.sapi then 0 else U32(off - m.ssml + m.sapi)
  }

  /** The mapped length, given the index found for the start. */
  function MapLength(maps: seq<Mapping>, start: nat, off: nat, len: nat): nat
    requires start < |maps|
  {
    var sapiOff := Shift(maps[start], off);
    var end := U32(off + len);
    var index := WalkBack(maps, WalkForward(maps, start, end), U32(sapiOff + len));
    if index <= start then len
    else U32(U32(end - maps[index].ssml + maps[index].sapi) - sapiOff)
  }

  /** The whole computation without a cursor. */
  function MapRange(maps: seq<Mapping>, off: nat, len: nat): (nat, nat) {
    if maps == [] then (off, len)
    else
      var start := WalkForward(maps, 0, off);
      (Shift(maps[start], off), MapLength(maps, start, off, len))
  }

  /** On sorted pairs the forward walk finds the last pair at or before the offset, wherever it may start. */
  lemma {:induction false} WalkFindsLast(maps: seq<Mapping>, k: nat, off: nat)
    requires k < |maps| && Sorted(maps)
    requires k == 0 || maps[k].ssml <= off
    ensures IsLastAtOrBefore(maps, off, WalkForward(maps, k, off))
    decreases |maps| - k
  {
    if k + 1 < |maps| && off >= maps[k + 1].ssml {
      WalkFindsLast(maps, k + 1, off);
    } else if k + 1 < |maps| {
      forall j | k < j < |maps|
        ensures off < maps[j].ssml
      {
        assert maps[k + 1].ssml <= maps[j].ssml;
      }
    }
  }

  lemma LastIsUnique(maps: seq<Mapping>, off: nat, r: nat, r': nat)
    requires IsLastAtOrBefore(maps, off, r) && IsLastAtOrBefore(maps, off, r')
    ensures r == r'
  {
  }

  /** Where the engine starts its walk, given the cursor left by earlier calls. */
  function CursorStart(maps: seq<Mapping>, cursor: nat, off: nat): (k: nat)
    requires maps != []
    ensures k < |maps| && (k == 0 || maps[k].ssml <= off)
  {
    if cursor >= |maps| || maps[cursor].ssml > off then 0 else cursor
  }

  /** Whatever earlier calls left in the cursor, the search ends where a search from index 0 ends. */
  lemma CursorAgrees(maps: seq<Mapping>, cursor: nat, off: nat)
    requires maps != [] && Sorted(maps)
    ensures WalkForward(maps, CursorStart(maps, cursor, off), off) == WalkForward(maps, 0, off)
  {
    WalkFindsLast(maps, CursorStart(maps, cursor, off), off);
    WalkFindsLast(maps, 0, off);
    LastIsUnique(maps, off, WalkForward(maps, CursorStart(maps, cursor, off), off), WalkForward(maps, 0, off));
  }

  // ----- what the search answers, for any sorted pairs

  /**
   Of the pairs at the same document offset as `last`, up to `last`, the first in a row behind it that point at or past
   `endSapi`: a bookmark at the end of a word is left out, one inside it is not.
   */
  predicate IsEndPair(maps: seq<Mapping>, last: nat, endSapi: nat, r: nat) {
    r <= last < |maps| &&
    (forall j :: r <= j < last ==> maps[j].ssml == maps[last].ssml && maps[j].sapi >= endSapi) &&
    (r == 0 || maps[r - 1].ssml != maps[r].ssml || maps[r - 1].sapi < endSapi)
  }

  lemma {:induction false} WalkBackIs(maps: seq<Mapping>, k: nat, endSapi: nat)
    requires k < |maps|
    ensures IsEndPair(maps, k, endSapi, WalkBack(maps, k, endSapi))
    decreases k
  {
    if k > 0 && maps[k - 1].ssml == maps[k].ssml && maps[k - 1].sapi >= endSapi {
      WalkBackIs(maps, k - 1, endSapi);
    }
  }

  /** A position keeps its distance from the pair that serves it, but does not go below zero. */
  lemma ShiftIs(m: Mapping, off: nat)
    requires off - m.ssml + m.sapi < TWO_32
    ensures Shift(m, off) == if off - m.ssml + m.sapi < 0 then 0 else off - m.ssml + m.sapi
  {
  }

  /**
   The length is kept where the pair that serves the end is the start's own or an earlier one; otherwise the end keeps
   its distance from its pair.
   */
  lemma LengthIs(maps: seq<Mapping>, start: nat, off: nat, len: nat) returns (last: nat, index: nat)
    requires Sorted(maps) && off + len < TWO_32 && IsLastAtOrBefore(maps, off, start)
    requires Shift(maps[start], off) + len < TWO_32
    ensures var from := Shift(maps[start], off);
      IsLastAtOrBefore(maps, off + len, last) && IsEndPair(maps, last, from + len, index) &&
      MapLength(maps, start, off, len) ==
        if index <= start then len else U32(off + len - maps[index].ssml + maps[index].sapi - from)
  {
    hide WalkForward, WalkBack, Shift, IsEndPair, Sorted, MapLength;
    var end, from := off + len, Shift(maps[start], off);
    assert start == 0 || maps[start].ssml <= end;
    WalkFindsLast(maps, start, end);
    last := WalkForward(maps, start, end);
    WalkBackIs(maps, last, from + len);
    index := WalkBack(maps, last, from + len);
    EndIsShifted(maps, start, off, len, index);
  }

  lemma EndIsShifted(maps: seq<Mapping>, start: nat, off: nat, len: nat, index: nat)
    requires start < |maps| && off + len < TWO_32 && Shift(maps[start], off) + len < TWO_32
    requires index == WalkBack(maps, WalkForward(maps, start, off + len), Shift(maps[start], off) + len)
    ensures index < |maps| && MapLength(maps, start, off, len) ==
      if index <= start then len else U32(off + len - maps[index].ssml + maps[index].sapi - Shift(maps[start], off))
  {
    hide WalkForward, WalkBack, Shift;
    assert U32(off + len) == off + len && U32(Shift(maps[start], off) + len) == Shift(maps[start], off) + len;
    WrapTwice(off + len - maps[index].ssml + maps[index].sapi, Shift(maps[start], off));
    hide U32;
  }

  lemma WrapTwice(x: int, y: int)
    ensures U32(U32(x) - y) == U32(x - y)
  {
    var q, r := x / TWO_32, x % TWO_32;
    assert x - y == (r - y) + q * TWO_32;
  }

  /** The start keeps its distance from the last pair at or before it. */
  lemma MapRangeIs(maps: seq<Mapping>, off: nat, len: nat) returns (start: nat)
    requires maps != [] && Sorted(maps)
    ensures IsLastAtOrBefore(maps, off, start)
    ensures var moved := off - maps[start].ssml + maps[start].sapi;
      MapRange(maps, off, len) == (Shift(maps[start], off), MapLength(maps, start, off, len)) &&
      (moved < TWO_32 ==> MapRange(maps, off, len).0 == if moved < 0 then 0 else moved)
  {
    start := WalkForward(maps, 0, off);
    WalkFindsLast(maps, 0, off);
    hide WalkForward, Shift, MapLength;
    if off - maps[start].ssml + maps[start].sapi < TWO_32 {
      ShiftIs(maps[start], off);
    }
  }

  // ----- one fragment's own pairs

  /** The SSML position, relative to the fragment's start, of its `j`-th character. */
  function Pos(text: string, j: nat): nat
    requires j <= |text|
  {
    |Escape(text[..j])|
  }

  /** The pairs of one spoken fragment whose escaped text begins at `start`. */
  function Group(src: nat, text: string, start: nat): seq<Mapping> {
    [Mapping(U32(src), U32(start))] + EscapeMaps(src, text, start) +
    [Mapping(U32(src + |text|), U32(start + |Escape(text)|))]
  }

  lemma {:induction false} PosMonotone(text: string, i: nat, j: nat)
    requires i <= j <= |text|
    ensures j - i <= Pos(text, j) - Pos(text, i)
    decreases j - i
  {
    if i < j {
      PosMonotone(text, i, j - 1);
      assert Front(text[..j]) == text[..j - 1];
    }
  }

  /** No escaped character in [a, b): positions advance one by one. */
  lemma {:induction false} PosPlain(text: string, a: nat, b: nat)
    requires a <= b <= |text|
    requires forall i :: a <= i < b ==> !IsEscaped(text[i])
    ensures Pos(text, b) - Pos(text, a) == b - a
    decreases b - a
  {
    if a < b {
      PosPlain(text, a, b - 1);
      assert Front(text[..b]) == text[..b - 1];
    }
  }

  predicate Fits(src: nat, text: string, start: nat) {
    src + |text| < TWO_32 && start + |Escape(text)| < TWO_32
  }

  lemma {:induction false} PosFits(text: string, j: nat)
    requires j <= |text|
    ensures Pos(text, j) <= |Escape(text)|
    ensures text[..|text|] == text
  {
    PosMonotone(text, j, |text|);
    assert text[..|text|] == text;
  }

  /** The entity pairs of the first `j` characters come first, and the others lie strictly beyond position `j`. */
  lemma {:induction false} EscapeMapsSplit(src: nat, text: string, start: nat, j: nat)
    requires j <= |text| && Fits(src, text, start)
    ensures var e, p := EscapeMaps(src, text, start), EscapeMaps(src, text[..j], start);
      |p| <= |e| && e[..|p|] == p && forall i :: |p| <= i < |e| ==> start + Pos(text, j) < e[i].ssml
  {
    if j == |text| {
      assert text[..j] == text;
    } else {
      var w := Front(text);
      PosFits(text, |w|);
      assert text[..|w|] == w;
      EscapeMapsSplit(src, w, start, j);
      assert w[..j] == text[..j];
      PosMonotone(text, j, |text|);
      assert text[..|text|] == text;
    }
  }

  /** After a text `t`, the last of its start pair and entity pairs is exactly `t`'s remaining distance away. */
  lemma {:induction false} EscapeMapsLast(src: nat, t: string, start: nat)
    requires Fits(src, t, start)
    ensures var e := EscapeMaps(src, t, start); var m := Last([Mapping(src, start)] + e);
      m.ssml <= start + |Escape(t)| && start + |Escape(t)| - m.ssml + m.sapi == src + |t| &&
      forall i :: 0 <= i < |e| ==> start < e[i].ssml <= start + |Escape(t)|
  {
    if t != [] {
      var w := Front(t);
      EscapeMapsLast(src, w, start);
      var p, q := EscapeMaps(src, t, start), EscapeMaps(src, w, start);
      if IsEscaped(Last(t)) {
        assert p == q + [Mapping(src + |t|, start + |Escape(t)|)];
      } else {
        assert p == q;
      }
    }
  }
}
