/** The HTTP de-chunking loop, and chunked bodies as section 7.1 of RFC 9112 lays them out. */
module Chunked {
  import opened Strings
  import opened Tokenizer

  const CRLF: string := "\r\n"

  predicate IsHexDigit(c: char) {
    '0' <= c <= '9' || 'a' <= c <= 'f' || 'A' <= c <= 'F'
  }

  function HexValue(c: char): (v: nat)
    requires IsHexDigit(c)
    ensures v < 16
  {
    if '0' <= c <= '9' then c as int - '0' as int
    else if 'a' <= c <= 'f' then c as int - 'a' as int + 10
    else c as int - 'A' as int + 10
  }

  function HexDigits(s: string): (n: nat)
    ensures n <= |s| && (forall i :: 0 <= i < n ==> IsHexDigit(s[i])) && (n < |s| ==> !IsHexDigit(s[n]))
  {
    if s != [] && IsHexDigit(s[0]) then 1 + HexDigits(s[1..]) else 0
  }

  function ValueOf(digits: string): nat
    requires forall i :: 0 <= i < |digits| ==> IsHexDigit(digits[i])
  {
    if digits == [] then 0 else ValueOf(Front(digits)) * 16 + HexValue(Last(digits))
  }

  predicate IsCSpace(c: char) {
    c == ' ' || 9 <= c as int <= 13
  }

  function SkipBlanks(s: string): string {
    if s != [] && IsCSpace(s[0]) then SkipBlanks(s[1..]) else s
  }

  function Unsigned(negative: bool, value: nat): Option<nat> {
    if value >= TWO_32 then None else Some(if negative then U32(-(value as int)) else value)
  }

  /**
   std::stoul with base 16 and a 32-bit unsigned long: blanks, a sign, an optional 0x, digits, anything. None where it
   throws: no digits, or a value out of range.
   */
  function StoulHex(s: string): Option<nat> {
    var t := SkipBlanks(s);
    var signed := t != [] && (t[0] == '+' || t[0] == '-');
    var u := if signed then t[1..] else t;
    var hasPrefix := |u| >= 3 && u[0] == '0' && (u[1] == 'x' || u[1] == 'X') && IsHexDigit(u[2]);
    var w := if hasPrefix then u[2..] else u;
    var n := HexDigits(w);
    if n == 0 then None else Unsigned(signed && t[0] == '-', ValueOf(w[..n]))
  }

  /** One round of the loop: the end of the input or of the chunks, an exception, or a piece and what follows it. */
  datatype Round = Finished | Throws | Piece(data: string, next: string)

  function From(s: string, pos: nat): string {
    if pos <= |s| then s[pos..] else []
  }

  function ReadChunkAt(s: string, pos: nat): (r: Round)
    requires pos < |s|
    ensures r.Piece? ==> |r.next| < |s| - pos
  {
    match Find(s, CRLF, pos)
    case None => Finished
    case Some(lineEnd) =>
      match StoulHex(s[pos..lineEnd])
      case None => Throws
      case Some(size) =>
        if size == 0 || lineEnd + 2 + size > |s| then Finished
        else Piece(s[lineEnd + 2..lineEnd + 2 + size], From(s, lineEnd + 2 + size + 2))
  }

  /** Decoded bytes, or None where the size of a chunk makes std::stoul throw. */
  function Decode(s: string): Option<string>
    decreases |s|
  {
    if s == [] then Some([])
    else match ReadChunkAt(s, 0)
      case Finished => Some([])
      case Throws => None
      case Piece(data, next) => Prepend(data, Decode(next))
  }

  function Prepend(data: string, rest: Option<string>): Option<string> {
    match rest case None => None case Some(t) => Some(data + t)
  }

  lemma PrependTwice(a: string, b: string, rest: Option<string>)
    ensures Prepend(a, Prepend(b, rest)) == Prepend(a + b, rest)
    ensures Prepend([], rest) == rest && Prepend(a, Some([])) == Some(a)
  {
    if rest.Some? {
      assert a + (b + rest.value) == a + b + rest.value;
      assert [] + rest.value == rest.value;
    }
    assert a + [] == a;
  }

  /** A round does not depend on what was read before. */
  lemma RoundShift(s: string, pos: nat)
    requires pos < |s|
    ensures ReadChunkAt(s, pos) == ReadChunkAt(s[pos..], 0)
  {
    hide StoulHex, Find;
    FindShift(s, CRLF, pos, pos);
    var rest := s[pos..];
    if Find(s, CRLF, pos).Some? {
      var lineEnd := Find(s, CRLF, pos).value;
      assert s[pos..lineEnd] == rest[0..lineEnd - pos];
      var size := StoulHex(s[pos..lineEnd]);
      if size.Some? && lineEnd + 2 + size.value <= |s| {
        SliceShift(s, pos, lineEnd + 2, lineEnd + 2 + size.value);
        assert From(s, lineEnd + 2 + size.value + 2) == From(rest, lineEnd - pos + 2 + size.value + 2);
      }
    }
  }

  lemma SliceShift(s: string, pos: nat, a: nat, b: nat)
    requires pos <= a <= b <= |s|
    ensures s[a..b] == s[pos..][a - pos..b - pos]
  {
  }

  /** What is left to decode, one round further. */
  lemma DecodeRound(s: string, pos: nat)
    requires pos < |s|
    ensures Decode(From(s, pos)) == match ReadChunkAt(s, pos)
      case Finished => Some([])
      case Throws => None
      case Piece(data, next) => Prepend(data, Decode(next))
  {
    hide ReadChunkAt, Prepend;
    RoundShift(s, pos);
  }

  /** The loop of PostToBytes over the received body; None where it ends by an exception. */
  method DeChunk(chunked: string) returns (r: Option<string>)
    ensures r == Decode(chunked)
  {
    hide StoulHex, Find, Prepend, Decode, From;
    var result, pos := [], 0;
    FromEnds(chunked);
    PrependTwice([], [], Decode(chunked));
    while pos < |chunked|
      invariant Prepend(result, Decode(From(chunked, pos))) == Decode(chunked)
      decreases |chunked| - pos
    {
      DecodeRound(chunked, pos);
      PrependTwice(result, [], Some([]));
      PrependNone(result);
      var lineEnd := Find(chunked, CRLF, pos);
      if lineEnd.None? {
        return Some(result);
      }
      var chunkSize := StoulHex(chunked[pos..lineEnd.value]);
      if chunkSize.None? {
        return None;
      }
      if chunkSize.value == 0 {
        return Some(result);
      }
      pos := lineEnd.value + 2;
      if pos + chunkSize.value > |chunked| {
        return Some(result);
      }
      var data := chunked[pos..pos + chunkSize.value];
      pos := pos + chunkSize.value + 2;
      PrependTwice(result, data, Decode(From(chunked, pos)));
      result := result + data;
    }
    FromPastEnd(chunked, pos);
    PrependTwice(result, [], Some([]));
    return Some(result);
  }

  lemma FromEnds(s: string)
    ensures From(s, 0) == s
  {
  }

  lemma FromPastEnd(s: string, pos: nat)
    requires pos >= |s|
    ensures Decode(From(s, pos)) == Some([])
  {
  }

  lemma PrependNone(data: string)
    ensures Prepend(data, None) == None
  {
  }

  lemma {:induction false} FindShift(s: string, d: string, pos: nat, from: nat)
    requires d != [] && pos <= from <= |s|
    ensures Find(s, d, from) == match Find(s[pos..], d, from - pos) case None => None case Some(k) => Some(pos + k)
    decreases |s| - from
  {
    if from + |d| <= |s| {
      assert s[pos..][from - pos..from - pos + |d|] == s[from..from + |d|];
      if s[from..from + |d|] != d {
        FindShift(s, d, pos, from + 1);
      }
    }
  }

  // ----- encoding

  /** A chunk as sent: the size line, in any spelling, and the data. */
  datatype SentChunk = SentChunk(digits: string, extension: string, data: string)

  /**
   `chunk-size [ chunk-ext ]`: hexadecimal digits of either case, leading zeros allowed, then nothing or an extension.
   */
  predicate IsSizeLine(digits: string, extension: string, size: nat) {
    digits != [] && (forall i :: 0 <= i < |digits| ==> IsHexDigit(digits[i])) && ValueOf(digits) == size &&
    (extension != [] ==> extension[0] == ';' || extension[0] == ' ' || extension[0] == '\t') &&
    forall i :: 0 <= i < |extension| ==> extension[i] != '\r' && extension[i] != '\n'
  }

  /** A chunk that is not the last one. */
  predicate IsChunk(c: SentChunk) {
    c.data != [] && |c.data| < TWO_32 && IsSizeLine(c.digits, c.extension, |c.data|)
  }

  function EncodeOne(c: SentChunk): string {
    c.digits + c.extension + CRLF + c.data + CRLF
  }

  function EncodeAll(chunks: seq<SentChunk>): string {
    if chunks == [] then []
    else EncodeOne(chunks[0]) + EncodeAll(chunks[1..])
  }

  function DataOf(chunks: seq<SentChunk>): string {
    if chunks == [] then [] else chunks[0].data + DataOf(chunks[1..])
  }

  lemma {:induction false} HexDigitsAre(digits: string, rest: string)
    requires forall i :: 0 <= i < |digits| ==> IsHexDigit(digits[i])
    requires rest != [] ==> !IsHexDigit(rest[0])
    ensures HexDigits(digits + rest) == |digits|
  {
    if digits == [] {
      assert digits + rest == rest;
    } else {
      HexDigitsAre(digits[1..], rest);
      assert (digits + rest)[1..] == digits[1..] + rest;
    }
  }

  /** Any spelling of a size is read back as the size. */
  lemma SizeLineReads(digits: string, extension: string, size: nat)
    requires IsSizeLine(digits, extension, size) && size < TWO_32
    ensures StoulHex(digits + extension) == Some(size)
  {
    var s := digits + extension;
    assert s[0] == digits[0];
    assert SkipBlanks(s) == s;
    assert |s| >= 2 ==> s[1] != 'x' && s[1] != 'X' by {
      if |s| >= 2 {
        assert s[1] == if |digits| >= 2 then digits[1] else extension[0];
      }
    }
    HexDigitsAre(digits, extension);
    assert s[..|digits|] == digits;
  }

  /** The size line of a chunk holds no CRLF, so the first one ends it. */
  lemma LineEndIs(line: string, rest: string)
    requires forall i :: 0 <= i < |line| ==> line[i] != '\r'
    ensures Find(line + CRLF + rest, CRLF, 0) == Some(|line|)
  {
    var s := line + CRLF + rest;
    assert s[|line|..|line| + 2] == CRLF;
    forall k | 0 <= k < |line|
      ensures !At(s, CRLF, k)
    {
      assert s[k] == line[k];
      assert k + 2 <= |s| ==> s[k..k + 2][0] == s[k];
    }
    FindIs(s, CRLF, |line|);
  }

  lemma LineHasNoCr(c: SentChunk)
    requires IsSizeLine(c.digits, c.extension, |c.data|)
    ensures var line := c.digits + c.extension; forall i :: 0 <= i < |line| ==> line[i] != '\r'
  {
    var line := c.digits + c.extension;
    forall i | 0 <= i < |line|
      ensures line[i] != '\r'
    {
      assert line[i] == if i < |c.digits| then c.digits[i] else c.extension[i - |c.digits|];
    }
  }

  /** One chunk in front of anything that decodes. */
  lemma DecodeOne(c: SentChunk, rest: string)
    requires IsChunk(c)
    ensures Decode(EncodeOne(c) + rest) == Prepend(c.data, Decode(rest))
  {
    hide StoulHex, Find, IsSizeLine, Prepend;
    var line := c.digits + c.extension;
    var s := EncodeOne(c) + rest;
    LineHasNoCr(c);
    LineEndIs(line, c.data + CRLF + rest);
    assert s == line + CRLF + (c.data + CRLF + rest);
    SizeLineReads(c.digits, c.extension, |c.data|);
    assert s[0..|line|] == line;
    assert s[|line| + 2..|line| + 2 + |c.data|] == c.data;
    assert s[|line| + 2 + |c.data| + 2..] == rest;
    assert ReadChunkAt(s, 0) == Piece(c.data, rest);
  }

  /** The last chunk has size zero; whatever trailer follows is ignored. */
  lemma DecodeLast(digits: string, extension: string, trailer: string)
    requires IsSizeLine(digits, extension, 0)
    ensures Decode(digits + extension + CRLF + trailer) == Some([])
  {
    hide StoulHex;
    var line := digits + extension;
    LineHasNoCr(SentChunk(digits, extension, []));
    LineEndIs(line, trailer);
    SizeLineReads(digits, extension, 0);
    assert (line + CRLF + trailer)[0..|line|] == line;
  }

  lemma {:induction false} DecodeAll(chunks: seq<SentChunk>, rest: string)
    requires forall i :: 0 <= i < |chunks| ==> IsChunk(chunks[i])
    ensures Decode(EncodeAll(chunks) + rest) == Prepend(DataOf(chunks), Decode(rest))
  {
    hide Decode, EncodeOne, IsChunk, Prepend;
    if chunks == [] {
      assert EncodeAll(chunks) + rest == rest;
      PrependTwice([], [], Decode(rest));
    } else {
      var c, tail := chunks[0], chunks[1..];
      DecodeAll(tail, rest);
      DecodeOne(c, EncodeAll(tail) + rest);
      assert EncodeAll(chunks) + rest == EncodeOne(c) + (EncodeAll(tail) + rest);
      PrependTwice(c.data, DataOf(tail), Decode(rest));
    }
  }

  /** Decoding any chunked body gives the concatenation of its chunks, whatever sizes are spelled like. */
  lemma ChunkedRoundTrip(chunks: seq<SentChunk>, digits: string, extension: string, trailer: string)
    requires forall i :: 0 <= i < |chunks| ==> IsChunk(chunks[i])
    requires IsSizeLine(digits, extension, 0)
    ensures Decode(EncodeAll(chunks) + (digits + extension + CRLF + trailer)) == Some(DataOf(chunks))
  {
    hide Decode, IsChunk, IsSizeLine;
    DecodeLast(digits, extension, trailer);
    DecodeAll(chunks, digits + extension + CRLF + trailer);
    PrependTwice(DataOf(chunks), [], Some([]));
  }

  // ----- bodies that are cut short or malformed

  /** A prefix of the radix; without one, a single digit is not the zero of a prefix. */
  predicate IsRadix(prefix: string, digits: string, rest: string) {
    prefix == "0x" || prefix == "0X" ||
    (prefix == [] && (|digits| == 1 && rest != [] ==> rest[0] != 'x' && rest[0] != 'X'))
  }

  predicate IsSign(sign: string) {
    sign == [] || sign == "+" || sign == "-"
  }

  lemma RadixReads(prefix: string, digits: string, rest: string)
    requires IsRadix(prefix, digits, rest)
    requires digits != [] && forall i :: 0 <= i < |digits| ==> IsHexDigit(digits[i])
    ensures var u := prefix + (digits + rest);
      u[0] != '+' && u[0] != '-' && !IsCSpace(u[0]) &&
      ((|u| >= 3 && u[0] == '0' && (u[1] == 'x' || u[1] == 'X') && IsHexDigit(u[2])) <==> prefix != []) &&
      (if prefix != [] then u[2..] else u) == digits + rest
  {
    var w := digits + rest;
    assert w[0] == digits[0];
    assert |w| >= 2 ==> w[1] == if |digits| >= 2 then digits[1] else rest[0];
    if prefix == [] {
      assert prefix + w == w;
    } else {
      assert (prefix + w)[2..] == w && (prefix + w)[2] == w[0];
    }
  }

  /** Blanks, a sign and a prefix of the radix may stand before the digits; anything may stand behind them. */
  lemma StoulReads(blanks: string, sign: string, prefix: string, digits: string, rest: string)
    requires forall i :: 0 <= i < |blanks| ==> IsCSpace(blanks[i])
    requires IsSign(sign) && IsRadix(prefix, digits, rest)
    requires digits != [] && forall i :: 0 <= i < |digits| ==> IsHexDigit(digits[i])
    requires rest != [] ==> !IsHexDigit(rest[0])
    ensures var n := ValueOf(digits);
      StoulHex(blanks + (sign + (prefix + (digits + rest)))) ==
        if n >= TWO_32 then None else Some(if sign == "-" && n > 0 then TWO_32 - n else n)
  {
    var u := prefix + (digits + rest);
    HexDigitsAre(digits, rest);
    RadixReads(prefix, digits, rest);
    UnsignedIs(sign == "-", ValueOf(digits));
    hide IsRadix, IsCSpace, IsHexDigit, HexDigits, ValueOf, SkipBlanks, StoulHex, Unsigned;
    assert (digits + rest)[..|digits|] == digits;
    SignReads(sign, u);
    SkipsTo(blanks, sign + u);
    StoulFrom(blanks + (sign + u), sign + u, u, digits + rest);
  }

  lemma UnsignedIs(negative: bool, n: nat)
    ensures Unsigned(negative, n) == if n >= TWO_32 then None else Some(if negative && n > 0 then TWO_32 - n else n)
  {
    if 0 < n < TWO_32 {
      var m := -(n as int);
      assert m == -1 * TWO_32 + (TWO_32 - n);
      assert m % TWO_32 == TWO_32 - n;
    }
  }

  lemma StoulFrom(s: string, t: string, u: string, w: string)
    requires SkipBlanks(s) == t && t != []
    requires u == if t[0] == '+' || t[0] == '-' then t[1..] else t
    requires w == if |u| >= 3 && u[0] == '0' && (u[1] == 'x' || u[1] == 'X') && IsHexDigit(u[2]) then u[2..] else u
    requires HexDigits(w) > 0
    ensures StoulHex(s) == Unsigned(t[0] == '-', ValueOf(w[..HexDigits(w)]))
  {
  }

  lemma SignReads(sign: string, u: string)
    requires IsSign(sign) && u != [] && u[0] != '+' && u[0] != '-' && !IsCSpace(u[0])
    ensures var t := sign + u;
      !IsCSpace(t[0]) && (t[0] == '+' || t[0] == '-' <==> sign != []) && (t[0] == '-' <==> sign == "-") &&
      (if sign != [] then t[1..] else t) == u
  {
    if sign == [] {
      assert sign + u == u;
    }
  }

  lemma {:induction false} SkipsTo(blanks: string, s: string)
    requires forall i :: 0 <= i < |blanks| ==> IsCSpace(blanks[i])
    requires s != [] ==> !IsCSpace(s[0])
    ensures SkipBlanks(blanks + s) == s
  {
    if blanks == [] {
      assert blanks + s == s;
    } else {
      SkipsTo(blanks[1..], s);
      assert (blanks + s)[1..] == blanks[1..] + s;
    }
  }

  /** No digit where one is needed: std::stoul throws. */
  lemma StoulRefuses(blanks: string, s: string)
    requires forall i :: 0 <= i < |blanks| ==> IsCSpace(blanks[i])
    requires s == [] || (!IsCSpace(s[0]) && !IsHexDigit(s[0]) && s[0] != '+' && s[0] != '-')
    ensures StoulHex(blanks + s) == None
  {
    SkipsTo(blanks, s);
  }

  /** A line without its end: what came before it is the result. */
  lemma CutInLine(chunks: seq<SentChunk>, rest: string)
    requires (forall i :: 0 <= i < |chunks| ==> IsChunk(chunks[i])) && forall k :: 0 <= k ==> !At(rest, CRLF, k)
    ensures Decode(EncodeAll(chunks) + rest) == Some(DataOf(chunks))
  {
    hide IsChunk;
    DecodeAll(chunks, rest);
    assert rest != [] ==> Find(rest, CRLF, 0) == None;
    PrependTwice(DataOf(chunks), [], Some([]));
  }

  /** A chunk whose data is cut short: it is dropped, and what came before it is the result. */
  lemma CutInData(chunks: seq<SentChunk>, c: SentChunk, n: nat)
    requires (forall i :: 0 <= i < |chunks| ==> IsChunk(chunks[i])) && IsChunk(c) && n < |c.data|
    ensures Decode(EncodeAll(chunks) + (c.digits + c.extension + CRLF + c.data[..n])) == Some(DataOf(chunks))
  {
    var line, rest := c.digits + c.extension, c.digits + c.extension + CRLF + c.data[..n];
    LineHasNoCr(c);
    LineEndIs(line, c.data[..n]);
    SizeLineReads(c.digits, c.extension, |c.data|);
    DecodeAll(chunks, rest);
    hide IsChunk, StoulHex, Find, DataOf, EncodeAll;
    assert rest[0..|line|] == line;
    PrependTwice(DataOf(chunks), [], Some([]));
  }

  lemma DecodeUnended(line: string, data: string)
    requires (forall i :: 0 <= i < |line| ==> line[i] != '\r') && data != [] && StoulHex(line) == Some(|data|)
    ensures Decode(line + CRLF + data) == Some(data)
  {
    hide StoulHex, Find;
    var rest := line + CRLF + data;
    LineEndIs(line, data);
    assert rest[0..|line|] == line;
    assert rest[|line| + 2..|line| + 2 + |data|] == data;
    assert ReadChunkAt(rest, 0) == Piece(data, []);
    assert data + [] == data;
  }

  /** A chunk that lacks only the line end behind its data is complete. */
  lemma CutBehindData(chunks: seq<SentChunk>, c: SentChunk)
    requires (forall i :: 0 <= i < |chunks| ==> IsChunk(chunks[i])) && IsChunk(c)
    ensures Decode(EncodeAll(chunks) + (c.digits + c.extension + CRLF + c.data)) == Some(DataOf(chunks) + c.data)
  {
    LineHasNoCr(c);
    SizeLineReads(c.digits, c.extension, |c.data|);
    hide Decode, IsSizeLine, StoulHex, DataOf, EncodeAll;
    DecodeUnended(c.digits + c.extension, c.data);
    DecodeAll(chunks, c.digits + c.extension + CRLF + c.data);
  }

  /** A size line that cannot be read ends everything with an exception. */
  lemma BadSizeThrows(chunks: seq<SentChunk>, line: string, rest: string)
    requires (forall i :: 0 <= i < |chunks| ==> IsChunk(chunks[i])) && forall i :: 0 <= i < |line| ==> line[i] != '\r'
    requires StoulHex(line) == None
    ensures Decode(EncodeAll(chunks) + (line + CRLF + rest)) == None
  {
    hide IsChunk, StoulHex, DataOf, EncodeAll;
    var s := line + CRLF + rest;
    LineEndIs(line, rest);
    DecodeAll(chunks, s);
    assert s[0..|line|] == line;
    PrependNone(DataOf(chunks));
  }
}
