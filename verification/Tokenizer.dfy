/** StringTokenIterator: the tokens between delimiters, forwards, and backwards for a single-character delimiter. */
module Tokenizer {
  import opened Strings

  /** The delimiter stands at index `k`. */
  predicate At(s: string, d: string, k: int) {
    0 <= k && k + |d| <= |s| && s[k..k + |d|] == d
  }

  predicate Contains(s: string, d: string) {
    exists k :: 0 <= k <= |s| && At(s, d, k)
  }

  /** basic_string_view::find: the first match at or after `from`. */
  function Find(s: string, d: string, from: nat): (r: Option<nat>)
    requires d != []
    ensures r.Some? ==> from <= r.value && At(s, d, r.value) && forall k :: from <= k < r.value ==> !At(s, d, k)
    ensures r.None? ==> forall k :: from <= k ==> !At(s, d, k)
    decreases |s| - from
  {
    if from + |d| > |s| then None
    else if s[from..from + |d|] == d then Some(from)
    else Find(s, d, from + 1)
  }

  /** basic_string_view::rfind of one character: the last match at or before `from`. */
  function RFind(s: string, c: char, from: int): (r: Option<nat>)
    ensures r.Some? ==> r.value < |s| && r.value <= from && s[r.value] == c
    ensures r.Some? ==> forall k :: r.value < k <= from && k < |s| ==> s[k] != c
    ensures r.None? ==> forall k :: 0 <= k <= from && k < |s| ==> s[k] != c
    decreases from
  {
    if from < 0 then None
    else if from < |s| && s[from] == c then Some(from)
    else RFind(s, c, from - 1)
  }

  // ----- the reference: cut at every delimiter, leftmost first

  function Split(s: string, d: string): (tokens: seq<string>)
    requires d != []
    ensures tokens != []
    decreases |s|
  {
    match Find(s, d, 0)
    case None => [s]
    case Some(k) => [s[..k]] + Split(s[k + |d|..], d)
  }

  function Join(tokens: seq<string>, d: string): string
    requires tokens != []
  {
    if |tokens| == 1 then tokens[0] else tokens[0] + d + Join(tokens[1..], d)
  }

  function Reversed<T>(s: seq<T>): seq<T> {
    if s == [] then [] else Reversed(s[1..]) + [s[0]]
  }

  /** Joining the tokens rebuilds the string. */
  lemma {:induction false} JoinOfSplit(s: string, d: string)
    requires d != []
    ensures Join(Split(s, d), d) == s
    decreases |s|
  {
    match Find(s, d, 0)
    case None =>
    case Some(k) =>
      var rest := s[k + |d|..];
      JoinOfSplit(rest, d);
      hide Find;
      assert s == s[..k] + d + rest;
      assert Split(s, d) == [s[..k]] + Split(rest, d);
      assert Split(s, d)[1..] == Split(rest, d);
  }

  /** No token contains the delimiter. */
  lemma {:induction false} TokensAreFree(s: string, d: string)
    requires d != []
    ensures forall i :: 0 <= i < |Split(s, d)| ==> !Contains(Split(s, d)[i], d)
    decreases |s|
  {
    match Find(s, d, 0)
    case None =>
      assert !Contains(s, d);
    case Some(k) =>
      TokensAreFree(s[k + |d|..], d);
      forall j | 0 <= j <= k
        ensures !At(s[..k], d, j)
      {
        if At(s[..k], d, j) {
          assert s[j..j + |d|] == s[..k][j..j + |d|];
          assert At(s, d, j);
        }
      }
      assert !Contains(s[..k], d);
  }

  /** Every token but the last ends at the first delimiter behind its start, overlapping ones included. */
  lemma {:induction false} TokensAreLeftmost(s: string, d: string)
    requires d != []
    ensures forall i :: 0 <= i < |Split(s, d)| - 1 ==> IsLeftmost(Split(s, d)[i], d)
    decreases |s|
  {
    match Find(s, d, 0)
    case None =>
    case Some(n) =>
      var rest := s[n + |d|..];
      TokensAreLeftmost(rest, d);
      FirstIsLeftmost(s, d, n);
      hide Find, IsLeftmost;
      assert Split(s, d) == [s[..n]] + Split(rest, d);
  }

  /** In front of a delimiter, the token holds no part of an earlier one. */
  predicate IsLeftmost(token: string, d: string) {
    forall k :: 0 <= k < |token| ==> !At(token + d, d, k)
  }

  lemma FirstIsLeftmost(s: string, d: string, n: nat)
    requires At(s, d, n) && forall k :: 0 <= k < n ==> !At(s, d, k)
    ensures IsLeftmost(s[..n], d)
  {
    assert s[..n] + d == s[..n + |d|];
    forall k | 0 <= k < n
      ensures !At(s[..n] + d, d, k)
    {
      if At(s[..n + |d|], d, k) {
        PrefixAt(s, n + |d|, d, k);
      }
    }
  }

  lemma PrefixAt(s: string, n: nat, d: string, k: int)
    requires n <= |s| && At(s[..n], d, k)
    ensures At(s, d, k)
  {
    assert s[..n][k..k + |d|] == s[k..k + |d|];
  }

  // ----- single-character delimiters read from the back

  function SplitBack(s: string, c: char): seq<string>
    decreases |s|
  {
    match RFind(s, c, |s| - 1)
    case None => [s]
    case Some(p) => [s[p + 1..]] + SplitBack(s[..p], c)
  }

  lemma AtOne(s: string, c: char, k: int)
    ensures At(s, [c], k) <==> 0 <= k < |s| && s[k] == c
  {
    if 0 <= k < |s| {
      assert s[k..k + 1] == [s[k]];
    }
  }

  lemma FindOneIsNot(s: string, c: char)
    requires forall i :: 0 <= i < |s| ==> s[i] != c
    ensures Find(s, [c], 0) == None && Split(s, [c]) == [s]
  {
    hide At, Find;
    forall i
      ensures !At(s, [c], i)
    {
      AtOne(s, c, i);
    }
  }

  lemma SplitOne(s: string, c: char, k: nat)
    requires k < |s| && s[k] == c && forall i :: 0 <= i < k ==> s[i] != c
    ensures Split(s, [c]) == [s[..k]] + Split(s[k + 1..], [c])
  {
    hide At, Find, Split;
    forall i | 0 <= i <= k
      ensures At(s, [c], i) <==> s[i] == c
    {
      AtOne(s, c, i);
    }
    SplitAtFirst(s, [c], k);
  }

  /** A string whose last delimiter is at `p` splits into what precedes it and one last token. */
  lemma {:induction false} SplitAtLast(s: string, c: char, p: nat)
    requires p < |s| && s[p] == c && forall i :: p < i < |s| ==> s[i] != c
    ensures Split(s, [c]) == Split(s[..p], [c]) + [s[p + 1..]]
    decreases |s|
  {
    hide At, Find, Split;
    var k: nat :| k <= p && s[k] == c && forall i :: 0 <= i < k ==> s[i] != c by {
      FirstExists(s, c, p);
    }
    var rest := s[k + 1..];
    SplitOne(s, c, k);
    if k == p {
      FindOneIsNot(rest, c);
      FindOneIsNot(s[..p], c);
    } else {
      SplitAtLast(rest, c, p - k - 1);
      SplitOne(s[..p], c, k);
      assert s[..p][..k] == s[..k];
      assert s[..p][k + 1..] == rest[..p - k - 1];
      assert rest[p - k - 1 + 1..] == s[p + 1..];
    }
  }

  lemma {:induction false} FirstExists(s: string, c: char, p: nat)
    requires p < |s| && s[p] == c
    ensures exists k: nat :: k <= p && s[k] == c && forall i :: 0 <= i < k ==> s[i] != c
    decreases p
  {
    if j: nat :| j < p && s[j] == c {
      FirstExists(s, c, j);
    }
  }

  lemma {:induction false} ReversedSnoc<T>(s: seq<T>, x: T)
    ensures Reversed(s + [x]) == [x] + Reversed(s)
  {
    if s == [] {
      assert s + [x] == [x];
    } else {
      ReversedSnoc(s[1..], x);
      assert (s + [x])[1..] == s[1..] + [x];
    }
  }

  /** Reading from the back gives the same tokens in reverse order. */
  lemma {:induction false} BackIsReverse(s: string, c: char)
    ensures SplitBack(s, c) == Reversed(Split(s, [c]))
    decreases |s|
  {
    match RFind(s, c, |s| - 1)
    case None =>
      FindOneIsNot(s, c);
      assert Reversed([s]) == [s];
    case Some(p) =>
      BackIsReverse(s[..p], c);
      SplitAtLast(s, c, p);
      ReversedSnoc(Split(s[..p], [c]), s[p + 1..]);
  }

  // ----- the iterator

  /** A view into the string: where its data starts and ends. */
  datatype Range = Range(start: nat, end: nat)

  class StringTokenIterator {
    const str: string
    const delimiter: string
    const reverse: bool
    var current: Option<Range>

    ghost predicate Valid()
      reads this
    {
      delimiter != [] && (reverse ==> |delimiter| == 1) &&
      (current.Some? ==>
        var r := current.value;
        r.start <= r.end <= |str| &&
        (if reverse then
           (r.start == 0 || str[r.start - 1] == delimiter[0]) &&
             forall k :: r.start <= k < r.end ==> str[k] != delimiter[0]
         else
           (forall k :: r.start <= k < r.end ==> !At(str, delimiter, k)) &&
             (r.end == |str| || At(str, delimiter, r.end)) &&
           (r.end == |str| ==> forall k :: r.start <= k ==> !At(str, delimiter, k))))
    }

    /** The tokens from the current one on. */
    ghost function Rest(): seq<string>
      reads this
      requires Valid()
    {
      match current
      case None => []
      case Some(r) => if reverse then SplitBack(str[..r.end], delimiter[0]) else Split(str[r.start..], delimiter)
    }

    constructor (str: string, delimiter: string, reverse: bool)
      requires delimiter != [] && (reverse ==> |delimiter| == 1)
      ensures this.str == str && this.delimiter == delimiter && this.reverse == reverse && Valid()
      ensures Rest() == if reverse then SplitBack(str, delimiter[0]) else Split(str, delimiter)
    {
      this.str, this.delimiter, this.reverse := str, delimiter, reverse;
      if reverse {
        var pos := RFind(str, delimiter[0], |str| - 1);
        current := Some(Range(if pos.None? then 0 else pos.value + 1, |str|));
      } else {
        var pos := Find(str, delimiter, 0);
        current := Some(Range(0, if pos.None? then |str| else pos.value));
      }
      new;
      assert str[..|str|] == str && str[0..] == str;
    }

    /** operator* */
    function Token(): string
      reads this
      requires Valid() && current.Some?
    {
      str[current.value.start..current.value.end]
    }

    /** operator++ */
    method Advance()
      requires Valid() && current.Some?
      modifies this`current
      ensures Valid() && [old(Token())] + Rest() == old(Rest())
    {
      if reverse {
        Retreat();
      } else {
        Proceed();
      }
    }

    method Proceed()
      requires Valid() && current.Some? && !reverse
      modifies this`current
      ensures Valid() && [old(Token())] + Rest() == old(Rest())
    {
      hide At, Find, Split;
      ghost var r := current.value;
      SplitFrom(str, delimiter, r.start, r.end);
      var startpos := current.value.end + |delimiter|;
      if startpos > |str| {
        current := None;
        return;
      }
      var nextpos := Find(str, delimiter, startpos);
      if nextpos.Some? {
        AtFits(str, delimiter, nextpos.value);
      }
      current := Some(Range(startpos, if nextpos.Some? then nextpos.value else |str|));
    }

    method Retreat()
      requires Valid() && current.Some? && reverse
      modifies this`current
      ensures Valid() && [old(Token())] + Rest() == old(Rest())
    {
      hide SplitBack, RFind, Find;
      ghost var r := current.value;
      var c, startpos := delimiter[0], current.value.start;
      SplitBackTo(str, c, r.start, r.end);
      if startpos == 1 {
        current := Some(Range(0, 0));
        return;
      }
      if startpos == 0 {
        current := None;
        return;
      }
      startpos := startpos - 2;
      var nextpos := RFind(str, c, startpos);
      current := Some(Range(if nextpos.Some? then nextpos.value + 1 else 0, startpos + 1));
    }
  }

  lemma AtShift(s: string, d: string, a: nat, k: nat)
    requires a <= |s|
    ensures At(s[a..], d, k) <==> At(s, d, a + k)
  {
    if k + |d| <= |s| - a {
      assert s[a..][k..k + |d|] == s[a + k..a + k + |d|];
    }
  }

  lemma SplitAtFirst(s: string, d: string, k: nat)
    requires d != [] && At(s, d, k) && forall i :: 0 <= i < k ==> !At(s, d, i)
    ensures k + |d| <= |s| && Split(s, d) == [s[..k]] + Split(s[k + |d|..], d)
  {
    AtFits(s, d, k);
    FindIs(s, d, k);
    hide At, Find;
  }

  lemma FindIs(s: string, d: string, k: nat)
    requires d != [] && At(s, d, k) && forall i :: 0 <= i < k ==> !At(s, d, i)
    ensures Find(s, d, 0) == Some(k)
  {
    hide At, Find;
    var r := Find(s, d, 0);
    if r.Some? {
      assert !(r.value < k) && !(k < r.value);
    }
  }

  lemma SplitWhole(s: string, d: string)
    requires d != [] && forall i :: 0 <= i ==> !At(s, d, i)
    ensures Split(s, d) == [s]
  {
    hide At;
    assert Find(s, d, 0) == None;
  }

  /** The first token of what is left, and what is left after it. */
  lemma SplitFrom(s: string, d: string, a: nat, b: nat)
    requires d != [] && a <= b <= |s|
    requires forall k :: a <= k < b ==> !At(s, d, k)
    requires At(s, d, b) || (b == |s| && forall k :: a <= k ==> !At(s, d, k))
    ensures b + |d| > |s| ==> !At(s, d, b)
    ensures Split(s[a..], d) == [s[a..b]] + if At(s, d, b) then Split(s[b + |d|..], d) else []
  {
    hide At, Find, Split;
    var t := s[a..];
    AtFits(s, d, b);
    if At(s, d, b) {
      forall k | 0 <= k <= b - a
        ensures At(t, d, k) <==> At(s, d, a + k)
      {
        AtShift(s, d, a, k);
      }
      SplitAtFirst(t, d, b - a);
      assert t[..b - a] == s[a..b] && t[b - a + |d|..] == s[b + |d|..];
    } else {
      forall k | 0 <= k
        ensures !At(t, d, k)
      {
        AtShift(s, d, a, k);
      }
      SplitWhole(t, d);
      assert t == s[a..b];
    }
  }

  lemma AtFits(s: string, d: string, k: nat)
    ensures At(s, d, k) ==> k + |d| <= |s|
  {
  }

  lemma SplitBackTo(s: string, c: char, a: nat, b: nat)
    requires a <= b <= |s| && forall k :: a <= k < b ==> s[k] != c
    requires a == 0 || s[a - 1] == c
    ensures SplitBack(s[..b], c) == [s[a..b]] + if a > 0 then SplitBack(s[..a - 1], c) else []
  {
    var t := s[..b];
    LastBefore(t, c, a);
    hide RFind;
    if a > 0 {
      assert t[a..] == s[a..b] && t[..a - 1] == s[..a - 1];
    } else {
      assert t == s[a..b];
    }
  }

  lemma LastBefore(t: string, c: char, a: nat)
    requires a <= |t| && (forall k :: a <= k < |t| ==> t[k] != c) && (a == 0 || t[a - 1] == c)
    ensures RFind(t, c, |t| - 1) == if a > 0 then Some(a - 1) else None
  {
  }

  /** What is left to deliver, in the order of iteration. */
  function Tokens(str: string, delimiter: string, reverse: bool): seq<string>
    requires delimiter != [] && (reverse ==> |delimiter| == 1)
  {
    if reverse then Reversed(Split(str, delimiter)) else Split(str, delimiter)
  }

  lemma TokensAre(str: string, delimiter: string, reverse: bool)
    requires delimiter != [] && (reverse ==> |delimiter| == 1)
    ensures Tokens(str, delimiter, reverse) == if reverse then SplitBack(str, delimiter[0]) else Split(str, delimiter)
  {
    if reverse {
      BackIsReverse(str, delimiter[0]);
      assert delimiter == [delimiter[0]];
    }
  }

  /** Iterating to the end terminates and yields every token: in order, or in reverse order. */
  method Tokenize(str: string, delimiter: string, reverse: bool) returns (tokens: seq<string>)
    requires delimiter != [] && (reverse ==> |delimiter| == 1)
    ensures tokens == Tokens(str, delimiter, reverse)
  {
    hide Split, SplitBack, Reversed, At, Tokens;
    var it := new StringTokenIterator(str, delimiter, reverse);
    TokensAre(str, delimiter, reverse);
    tokens := [];
    while it.current.Some?
      invariant it.Valid() && fresh(it)
      invariant tokens + it.Rest() == Tokens(str, delimiter, reverse)
      decreases |it.Rest()|
    {
      ghost var before, rest := tokens, it.Rest();
      var token := it.Token();
      tokens := tokens + [token];
      it.Advance();
      assert before + ([token] + it.Rest()) == tokens + it.Rest();
      assert |rest| == 1 + |it.Rest()|;
    }
    assert tokens + [] == tokens;
  }
}
