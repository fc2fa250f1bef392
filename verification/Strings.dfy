/** Characters and strings shared by every component.  A wide string is a `seq<char>`, one char per code unit. */
module Strings {

  datatype Option<+T> = None | Some(value: T)

  /** The width of ULONG and DWORD arithmetic. */
  const TWO_32: int := 0x1_0000_0000

  type u32 = x: int | 0 <= x < TWO_32

  /** Reduction of an unsigned 32-bit result, for sums that overflow and differences that go below zero. */
  function U32(x: int): (r: u32)
    ensures 0 <= x < TWO_32 ==> r == x
  {
    x % TWO_32
  }

  /** The fixed predicate standing for iswspace: the Unicode White_Space set. */
  predicate IsWSpace(c: char) {
    var n := c as int;
    9 <= n <= 13 || n == 32 || n == 0x85 || n == 0xA0 || n == 0x1680 || 0x2000 <= n <= 0x200A ||
    n == 0x2028 || n == 0x2029 || n == 0x202F || n == 0x205F || n == 0x3000
  }

  function LowerChar(c: char): char {
    if 'A' <= c <= 'Z' then (c as int + 32) as char else c
  }

  predicate EqualsIgnoreCase(a: string, b: string) {
    |a| == |b| && forall i :: 0 <= i < |a| ==> LowerChar(a[i]) == LowerChar(b[i])
  }

  /** find_first_not_of / find_last_not_of over blank, tab, CR and LF. */
  predicate IsTrimChar(c: char) {
    c == ' ' || c == '\t' || c == '\r' || c == '\n'
  }

  function TrimStart(s: string): string {
    if s != [] && IsTrimChar(s[0]) then TrimStart(s[1..]) else s
  }

  function TrimEnd(s: string): string {
    if s != [] && IsTrimChar(s[|s| - 1]) then TrimEnd(s[..|s| - 1]) else s
  }

  function Trim(s: string): string {
    TrimEnd(TrimStart(s))
  }

  /** Trimming cuts such characters from both ends and nothing else, and leaves none there. */
  lemma TrimIs(s: string) returns (a: nat, b: nat)
    ensures a <= b <= |s| && Trim(s) == s[a..b]
    ensures forall i :: 0 <= i < a || b <= i < |s| ==> IsTrimChar(s[i])
    ensures a < b ==> !IsTrimChar(s[a]) && !IsTrimChar(s[b - 1])
  {
    hide IsTrimChar;
    a := TrimStartIs(s);
    var t := s[a..];
    var n := TrimEndIs(t);
    b := a + n;
    assert t[..n] == s[a..b];
    assert forall i :: a <= i < |s| ==> s[i] == t[i - a];
  }

  lemma {:induction false} TrimStartIs(s: string) returns (a: nat)
    ensures a <= |s| && TrimStart(s) == s[a..] && (a < |s| ==> !IsTrimChar(s[a]))
    ensures forall i :: 0 <= i < a ==> IsTrimChar(s[i])
  {
    hide IsTrimChar;
    if s != [] && IsTrimChar(s[0]) {
      var n := TrimStartIs(s[1..]);
      a := n + 1;
      assert forall i :: 1 <= i < |s| ==> s[i] == s[1..][i - 1];
    } else {
      a := 0;
    }
  }

  lemma {:induction false} TrimEndIs(s: string) returns (n: nat)
    ensures n <= |s| && TrimEnd(s) == s[..n] && (n > 0 ==> !IsTrimChar(s[n - 1]))
    ensures forall i :: n <= i < |s| ==> IsTrimChar(s[i])
  {
    hide IsTrimChar;
    if s != [] && IsTrimChar(s[|s| - 1]) {
      n := TrimEndIs(s[..|s| - 1]);
    } else {
      n := |s|;
    }
  }

  function Digits(n: nat): (s: string)
    ensures forall c :: c in s ==> '0' <= c <= '9'
    ensures s != []
  {
    (if n < 10 then [] else Digits(n / 10)) + [(n % 10 + '0' as int) as char]
  }

  /** std::to_wstring. */
  function ToWString(n: int): (s: string)
    ensures forall c :: c in s ==> '0' <= c <= '9' || c == '-'
  {
    if n < 0 then "-" + Digits(-n) else Digits(n)
  }

  /** The part of a fragment before its first NUL, which is where the copying loops stop. */
  function UpToNul(s: string): (r: string)
    ensures r <= s
    ensures forall c :: c in r ==> c != '\0'
    ensures r == s || s[|r|] == '\0'
  {
    if s == [] || s[0] == '\0' then [] else [s[0]] + UpToNul(s[1..])
  }

  /** One attribute as the adapter writes it into a tag. */
  function AttrText(key: string, val: string): string {
    " " + key + "='" + val + "'"
  }

  function AttrsText(attrs: seq<(string, string)>): string {
    if attrs == [] then [] else AttrsText(Front(attrs)) + AttrText(Last(attrs).0, Last(attrs).1)
  }

  function StartTagText(name: string, attrs: seq<(string, string)>): string {
    "<" + name + AttrsText(attrs) + ">"
  }

  function EmptyTagText(name: string, attrs: seq<(string, string)>): string {
    "<" + name + AttrsText(attrs) + "/>"
  }

  function EndTagText(name: string): string {
    "</" + name + ">"
  }

  function Last<T>(s: seq<T>): T
    requires s != []
  {
    s[|s| - 1]
  }

  function Front<T>(s: seq<T>): seq<T>
    requires s != []
  {
    s[..|s| - 1]
  }
}
