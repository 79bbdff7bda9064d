/**
 * Base 64 as section 4 of RFC 4648 defines it: `Convert.ToBase64String`
 * writes it, `Convert.FromBase64String` reads it back. Every three bytes
 * become four characters of the 64-letter alphabet; a last group of one or
 * two bytes is padded with "==" or "=".
 */
module Base64 {
  import opened Wrappers

  type byte = x: int | 0 <= x < 256
  type sextet = x: int | 0 <= x < 64

  // ---------------------------------------------------------------- alphabet

  /** Table 1 of RFC 4648: A-Z, a-z, 0-9, '+' and '/'. */
  function CharOf(v: sextet): (c: char)
    ensures c != '='
  {
    if v < 26 then ('A' as int + v) as char
    else if v < 52 then ('a' as int + (v - 26)) as char
    else if v < 62 then ('0' as int + (v - 52)) as char
    else if v == 62 then '+'
    else '/'
  }

  /** The value of an alphabet character; None for every other character. */
  function ValueOf(c: char): (r: Option<sextet>)
    ensures r.Some? <==> ('A' <= c <= 'Z' || 'a' <= c <= 'z' || '0' <= c <= '9' || c == '+' || c == '/')
  {
    if 'A' <= c <= 'Z' then Some(c as int - 'A' as int)
    else if 'a' <= c <= 'z' then Some(c as int - 'a' as int + 26)
    else if '0' <= c <= '9' then Some(c as int - '0' as int + 52)
    else if c == '+' then Some(62)
    else if c == '/' then Some(63)
    else None
  }

  predicate InAlphabet(c: char) {
    ValueOf(c).Some?
  }

  /** The two tables are inverse: each value is read back from its character ... */
  lemma AlphabetRoundTrip(v: sextet)
    ensures ValueOf(CharOf(v)) == Some(v)
  {
  }

  /** ... and each alphabet character is written back from its value. */
  lemma AlphabetInverse(c: char)
    requires InAlphabet(c)
    ensures CharOf(ValueOf(c).value) == c
  {
  }

  // ---------------------------------------------------------------- encoding

  /** Three bytes, 24 bits, as four 6-bit characters, most significant first. */
  function EncodeGroup(b0: byte, b1: byte, b2: byte): (r: string)
    ensures |r| == 4 && forall i :: 0 <= i < 4 ==> InAlphabet(r[i])
  {
    [CharOf(b0 / 4), CharOf(b0 % 4 * 16 + b1 / 16), CharOf(b1 % 16 * 4 + b2 / 64), CharOf(b2 % 64)]
  }

  /** `Convert.ToBase64String`. */
  function Encode(bytes: seq<byte>): (r: string)
    ensures |r| == (|bytes| + 2) / 3 * 4
    ensures forall c :: c in r ==> InAlphabet(c) || c == '='
    decreases |bytes|
  {
    if |bytes| == 0 then ""
    else if |bytes| == 1 then
      [CharOf(bytes[0] / 4), CharOf(bytes[0] % 4 * 16), '=', '=']
    else if |bytes| == 2 then
      [CharOf(bytes[0] / 4), CharOf(bytes[0] % 4 * 16 + bytes[1] / 16), CharOf(bytes[1] % 16 * 4), '=']
    else
      EncodeGroup(bytes[0], bytes[1], bytes[2]) + Encode(bytes[3..])
  }

  // ---------------------------------------------------------------- decoding

  /** The white space `FromBase64String` skips wherever it appears. */
  predicate IsSkipped(c: char) {
    c == ' ' || c == '\t' || c == '\r' || c == '\n'
  }

  function WithoutSkipped(s: string): (r: string)
    ensures |r| <= |s|
    ensures forall c :: c in r ==> c in s && !IsSkipped(c)
  {
    if s == [] then []
    else if IsSkipped(s[0]) then WithoutSkipped(s[1..])
    else [s[0]] + WithoutSkipped(s[1..])
  }

  /** Four characters of the alphabet as three bytes. */
  function DecodeFull(c0: char, c1: char, c2: char, c3: char): (r: Option<seq<byte>>)
    ensures r.Some? ==> |r.value| == 3
  {
    var v0, v1, v2, v3 := ValueOf(c0), ValueOf(c1), ValueOf(c2), ValueOf(c3);
    if v0.None? || v1.None? || v2.None? || v3.None? then None
    else Some([v0.value * 4 + v1.value / 16, v1.value % 16 * 16 + v2.value / 4, v2.value % 4 * 64 + v3.value])
  }

  /**
   * The last four characters, which may end in one or two '='. The bits of
   * the last character that do not fill a byte are dropped, whatever they are.
   */
  function DecodeLast(c0: char, c1: char, c2: char, c3: char): (r: Option<seq<byte>>)
    ensures r.Some? ==> 1 <= |r.value| <= 3
  {
    if c2 == '=' && c3 == '=' then
      var v0, v1 := ValueOf(c0), ValueOf(c1);
      if v0.None? || v1.None? then None else Some([v0.value * 4 + v1.value / 16])
    else if c3 == '=' then
      var v0, v1, v2 := ValueOf(c0), ValueOf(c1), ValueOf(c2);
      if v0.None? || v1.None? || v2.None? then None
      else Some([v0.value * 4 + v1.value / 16, v1.value % 16 * 16 + v2.value / 4])
    else DecodeFull(c0, c1, c2, c3)
  }

  /** Whole quadruples; '=' is allowed only in the last one. */
  function DecodeQuads(s: string): (r: Option<seq<byte>>)
    ensures r.Some? ==> |s| % 4 == 0
    decreases |s|
  {
    if s == [] then Some([])
    else if |s| < 4 then None
    else if |s| == 4 then DecodeLast(s[0], s[1], s[2], s[3])
    else
      match DecodeFull(s[0], s[1], s[2], s[3])
      case None => None
      case Some(g) =>
        match DecodeQuads(s[4..])
        case None => None
        case Some(rest) => Some(g + rest)
  }

  /** `Convert.FromBase64String`; None where it throws a `FormatException`. */
  function Decode(s: string): (r: Option<seq<byte>>)
    ensures r.Some? ==> |WithoutSkipped(s)| % 4 == 0
  {
    DecodeQuads(WithoutSkipped(s))
  }

  // ---------------------------------------------------------------- round trip

  lemma {:induction false} NothingSkipped(s: string)
    requires forall c :: c in s ==> !IsSkipped(c)
    ensures WithoutSkipped(s) == s
  {
    if s != [] {
      NothingSkipped(s[1..]);
      assert [s[0]] + s[1..] == s;
    }
  }

  /** The middle characters of a group split back at the byte boundaries. */
  lemma SplitBits(b0: byte, b1: byte, b2: byte)
    ensures (b0 % 4 * 16 + b1 / 16) / 16 == b0 % 4 && (b0 % 4 * 16 + b1 / 16) % 16 == b1 / 16
    ensures (b1 % 16 * 4 + b2 / 64) / 4 == b1 % 16 && (b1 % 16 * 4 + b2 / 64) % 4 == b2 / 64
    ensures b0 / 4 * 4 + b0 % 4 == b0 && b1 / 16 * 16 + b1 % 16 == b1 && b2 / 64 * 64 + b2 % 64 == b2
  {
  }

  lemma GroupRoundTrip(b0: byte, b1: byte, b2: byte)
    ensures var e := EncodeGroup(b0, b1, b2); DecodeFull(e[0], e[1], e[2], e[3]) == Some([b0, b1, b2])
  {
    AlphabetRoundTrip(b0 / 4);
    AlphabetRoundTrip(b0 % 4 * 16 + b1 / 16);
    AlphabetRoundTrip(b1 % 16 * 4 + b2 / 64);
    AlphabetRoundTrip(b2 % 64);
    SplitBits(b0, b1, b2);
  }

  lemma SingleRoundTrip(b0: byte)
    ensures DecodeQuads(Encode([b0])) == Some([b0])
  {
    AlphabetRoundTrip(b0 / 4);
    AlphabetRoundTrip(b0 % 4 * 16);
    SplitBits(b0, 0, 0);
  }

  lemma PairRoundTrip(b0: byte, b1: byte)
    ensures DecodeQuads(Encode([b0, b1])) == Some([b0, b1])
  {
    AlphabetRoundTrip(b0 / 4);
    AlphabetRoundTrip(b0 % 4 * 16 + b1 / 16);
    AlphabetRoundTrip(b1 % 16 * 4);
    SplitBits(b0, b1, 0);
  }

  /** A full quadruple in front of further quadruples is decoded on its own. */
  lemma QuadsPrepend(e: string, rest: string)
    requires |e| == 4 && rest != []
    ensures DecodeQuads(e + rest) ==
            match (DecodeFull(e[0], e[1], e[2], e[3]), DecodeQuads(rest))
            case (Some(g), Some(r)) => Some(g + r)
            case _ => None
  {
    var s := e + rest;
    assert s[0] == e[0] && s[1] == e[1] && s[2] == e[2] && s[3] == e[3];
    assert s[4..] == rest;
  }

  /** What `ToBase64String` writes, `FromBase64String` reads back unchanged. */
  lemma {:induction false} EncodeRoundTrip(bytes: seq<byte>)
    ensures DecodeQuads(Encode(bytes)) == Some(bytes)
    decreases |bytes|
  {
    if |bytes| == 1 {
      SingleRoundTrip(bytes[0]);
      assert [bytes[0]] == bytes;
    } else if |bytes| == 2 {
      PairRoundTrip(bytes[0], bytes[1]);
      assert [bytes[0], bytes[1]] == bytes;
    } else if |bytes| == 3 {
      TripleRoundTrip(bytes);
    } else if |bytes| > 3 {
      EncodeRoundTrip(bytes[3..]);
      GroupThenRest(bytes);
    }
  }

  lemma TripleRoundTrip(bytes: seq<byte>)
    requires |bytes| == 3
    ensures DecodeQuads(Encode(bytes)) == Some(bytes)
  {
    var e := EncodeGroup(bytes[0], bytes[1], bytes[2]);
    GroupRoundTrip(bytes[0], bytes[1], bytes[2]);
    assert Encode(bytes) == e + Encode(bytes[3..]) == e;
    assert [bytes[0], bytes[1], bytes[2]] == bytes;
  }

  /** A group of three bytes in front of a tail that round-trips. */
  lemma GroupThenRest(bytes: seq<byte>)
    requires |bytes| > 3 && DecodeQuads(Encode(bytes[3..])) == Some(bytes[3..])
    ensures DecodeQuads(Encode(bytes)) == Some(bytes)
  {
    var e := EncodeGroup(bytes[0], bytes[1], bytes[2]);
    var rest := Encode(bytes[3..]);
    assert Encode(bytes) == e + rest;
    GroupRoundTrip(bytes[0], bytes[1], bytes[2]);
    QuadsPrepend(e, rest);
    FirstThree(bytes);
  }

  lemma FirstThree<T>(s: seq<T>)
    requires |s| >= 3
    ensures [s[0], s[1], s[2]] + s[3..] == s
  {
    assert s[..3] == [s[0], s[1], s[2]];
    assert s[..3] + s[3..] == s;
  }

  /** The round trip through `FromBase64String`, which first skips white space the encoding never writes. */
  lemma DecodeEncode(bytes: seq<byte>)
    ensures Decode(Encode(bytes)) == Some(bytes)
  {
    NothingSkipped(Encode(bytes));
    EncodeRoundTrip(bytes);
  }

  /** Only the empty array encodes to the empty text. */
  lemma EncodeEmpty(bytes: seq<byte>)
    ensures Encode(bytes) == "" <==> bytes == []
  {
  }

  /** A length that is not a multiple of four, white space aside, is a format error. */
  lemma DecodeRejectsLength(s: string)
    requires |WithoutSkipped(s)| % 4 != 0
    ensures Decode(s) == None
  {
  }
}
