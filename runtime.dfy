/**
 * The few .NET runtime behaviours the modelled code leans on: 32-bit integer
 * arithmetic, `char.IsWhiteSpace`/`string.Trim`, `ToLowerInvariant` and
 * `ToUpper` on ASCII letters, `int.TryParse`/`int.Parse` with the default
 * integer style, `bool.TryParse`, and ordinal string comparison.
 */
module Runtime {
  import opened Wrappers

  const Int32Min: int := -0x8000_0000
  const Int32Max: int := 0x7FFF_FFFF

  type int32 = x: int | Int32Min <= x <= Int32Max

  /** Two's-complement wrap-around of an `int` computation (C#'s default unchecked context). */
  function Wrap32(x: int): (r: int32)
    ensures Int32Min <= x <= Int32Max ==> r == x
    ensures (r - x) % 0x1_0000_0000 == 0
  {
    (x - Int32Min) % 0x1_0000_0000 + Int32Min
  }

  /** Just above the 32-bit range, a value wraps to itself less 2^32, a negative number. */
  lemma WrapAbove(x: int)
    requires Int32Max < x < 0x1_0000_0000
    ensures Wrap32(x) == x - 0x1_0000_0000 < 0
  {
    var y := x - Int32Min;
    assert 0x1_0000_0000 <= y < 2 * 0x1_0000_0000;
    assert y % 0x1_0000_0000 == y - 0x1_0000_0000;
  }

  function Min(a: int, b: int): int { if a < b then a else b }
  function Max(a: int, b: int): int { if a < b then b else a }

  // ---------------------------------------------------------------- characters

  /** `char.IsWhiteSpace`: the Unicode space separators, line and paragraph separators and U+0009..U+000D, U+0085. */
  predicate IsWhiteSpace(c: char) {
    c == ' ' || ('\t' <= c <= '\r') || c == '\U{0085}' || c == '\U{00A0}' || c == '\U{1680}'
    || ('\U{2000}' <= c <= '\U{200A}') || c == '\U{2028}' || c == '\U{2029}' || c == '\U{202F}'
    || c == '\U{205F}' || c == '\U{3000}'
  }

  predicate IsDigit(c: char) { '0' <= c <= '9' }

  predicate IsUpper(c: char) { 'A' <= c <= 'Z' }

  predicate IsLower(c: char) { 'a' <= c <= 'z' }

  function LowerChar(c: char): (r: char)
    ensures !IsUpper(r)
    ensures !IsUpper(c) ==> r == c
    ensures IsUpper(c) ==> IsLower(r) && r as int == c as int + 32
  {
    if IsUpper(c) then (c as int + 32) as char else c
  }

  function UpperChar(c: char): (r: char)
    ensures !IsLower(r)
    ensures !IsLower(c) ==> r == c
    ensures IsLower(c) ==> IsUpper(r) && r as int + 32 == c as int
  {
    if IsLower(c) then (c as int - 32) as char else c
  }

  // ---------------------------------------------------------------- strings

  /** `ToLowerInvariant`, on the ASCII letters. */
  function Lower(s: string): (r: string)
    ensures |r| == |s|
    ensures forall i :: 0 <= i < |s| ==> r[i] == LowerChar(s[i])
  {
    seq(|s|, i requires 0 <= i < |s| => LowerChar(s[i]))
  }

  lemma LowerIdempotent(s: string)
    ensures Lower(Lower(s)) == Lower(s)
  {
  }

  /** `Replace(c.ToString(), "")`: every occurrence of `c` removed. */
  function Remove(s: string, c: char): (r: string)
    ensures |r| <= |s|
    ensures c !in r
    ensures forall x :: x in r <==> x in s && x != c
  {
    if s == [] then []
    else if s[0] == c then Remove(s[1..], c)
    else [s[0]] + Remove(s[1..], c)
  }

  /** Removing a character the text does not hold leaves it as it is. */
  lemma {:induction false} RemoveAbsent(s: string, c: char)
    requires c !in s
    ensures Remove(s, c) == s
  {
    if s != [] {
      RemoveAbsent(s[1..], c);
      assert [s[0]] + s[1..] == s;
    }
  }

  /** Removal works piece by piece. */
  lemma {:induction false} RemoveAppend(a: string, b: string, c: char)
    ensures Remove(a + b, c) == Remove(a, c) + Remove(b, c)
  {
    if a == [] {
      assert a + b == b;
    } else {
      assert (a + b)[1..] == a[1..] + b;
      RemoveAppend(a[1..], b, c);
    }
  }

  /** `Replace(from, to)` on single characters. */
  function ReplaceChar(s: string, from: char, to: char): (r: string)
    ensures |r| == |s|
    ensures forall i :: 0 <= i < |s| ==> r[i] == (if s[i] == from then to else s[i])
  {
    seq(|s|, i requires 0 <= i < |s| => if s[i] == from then to else s[i])
  }

  /** `TrimStart()`: drops leading white space. */
  function TrimStart(s: string): (r: string)
    ensures |r| <= |s|
    ensures forall i :: 0 <= i < |r| ==> r[i] == s[|s| - |r| + i]
    ensures r != [] ==> !IsWhiteSpace(r[0])
  {
    if s != [] && IsWhiteSpace(s[0]) then TrimStart(s[1..]) else s
  }

  /** `TrimEnd()`: drops trailing white space. */
  function TrimEnd(s: string): (r: string)
    ensures |r| <= |s|
    ensures forall i :: 0 <= i < |r| ==> r[i] == s[i]
    ensures r != [] ==> !IsWhiteSpace(r[|r| - 1])
  {
    if s != [] && IsWhiteSpace(s[|s| - 1]) then TrimEnd(s[..|s| - 1]) else s
  }

  /** `Trim()`: both ends, so the result neither starts nor ends with white space. */
  function Trim(s: string): (r: string)
    ensures |r| <= |s|
    ensures r != [] ==> !IsWhiteSpace(r[0]) && !IsWhiteSpace(r[|r| - 1])
  {
    var t := TrimStart(s);
    var r := TrimEnd(t);
    assert r != [] ==> r[0] == t[0];
    r
  }

  /** A text of white space only trims to nothing. */
  lemma {:induction false} TrimOfBlank(s: string)
    requires forall i :: 0 <= i < |s| ==> IsWhiteSpace(s[i])
    ensures TrimStart(s) == [] && Trim(s) == []
  {
    if s != [] {
      TrimOfBlank(s[1..]);
    }
  }

  lemma TrimOfClean(s: string)
    requires s != [] ==> !IsWhiteSpace(s[0]) && !IsWhiteSpace(s[|s| - 1])
    ensures Trim(s) == s
  {
  }

  // ---------------------------------------------------------------- digits

  predicate AllDigits(s: string) {
    forall i :: 0 <= i < |s| ==> IsDigit(s[i])
  }

  function DigitValue(c: char): (r: nat)
    requires IsDigit(c)
    ensures r < 10
  {
    c as int - '0' as int
  }

  function DigitChar(d: nat): (c: char)
    requires d < 10
    ensures IsDigit(c) && DigitValue(c) == d
  {
    ('0' as int + d) as char
  }

  /** The value of a string of decimal digits, most significant first. */
  function DigitsValue(s: string): nat
    requires AllDigits(s)
  {
    if s == [] then 0 else DigitsValue(s[..|s| - 1]) * 10 + DigitValue(s[|s| - 1])
  }

  /** The shortest decimal representation of `n` (`n.ToString()` for n >= 0). */
  function ShowNat(n: nat): (r: string)
    ensures r != [] && AllDigits(r)
    ensures DigitsValue(r) == n
    ensures n < 10 <==> |r| == 1
  {
    if n < 10 then [DigitChar(n)]
    else
      var p := ShowNat(n / 10);
      var r := p + [DigitChar(n % 10)];
      assert r[..|r| - 1] == p;
      r
  }

  /** `n.ToString()` with the invariant culture. */
  function FormatInt(n: int): (r: string)
    ensures r != []
    ensures n >= 0 ==> r == ShowNat(n)
    ensures n < 0 ==> r == "-" + ShowNat(-n)
  {
    if n < 0 then "-" + ShowNat(-n) else ShowNat(n)
  }

  // ---------------------------------------------------------------- int.TryParse

  /** The white space `NumberStyles.Integer` allows around a number: U+0009..U+000D and U+0020. */
  predicate IsNumberWhite(c: char) { c == ' ' || ('\t' <= c <= '\r') }

  function TrimNumberWhite(s: string): (r: string)
    ensures r != [] ==> !IsNumberWhite(r[0]) && !IsNumberWhite(r[|r| - 1])
    ensures (forall i :: 0 <= i < |s| ==> !IsNumberWhite(s[i])) ==> r == s
    decreases |s|
  {
    if s != [] && IsNumberWhite(s[0]) then TrimNumberWhite(s[1..])
    else if s != [] && IsNumberWhite(s[|s| - 1]) then TrimNumberWhite(s[..|s| - 1])
    else s
  }

  /**
   * `int.TryParse(s, out n)`: optional white space, an optional `+` or `-`,
   * one or more ASCII digits, optional white space, and a value that fits in
   * 32 bits; `None` where the platform returns false.
   */
  function ParseInt32(s: string): Option<int32> {
    var t := TrimNumberWhite(s);
    if t == [] then None
    else
      var digits := if t[0] == '-' || t[0] == '+' then t[1..] else t;
      if digits == [] || !AllDigits(digits) then None
      else
        var v: int := if t[0] == '-' then -(DigitsValue(digits) as int) else DigitsValue(digits);
        if Int32Min <= v <= Int32Max then Some(v) else None
  }

  /** `int.TryParse` reads back what `ToString` wrote, for every 32-bit value. */
  lemma {:induction false} ParseFormatRoundTrip(n: int32)
    ensures ParseInt32(FormatInt(n)) == Some(n)
  {
    var s := FormatInt(n);
    forall i | 0 <= i < |s| ensures !IsNumberWhite(s[i]) {
      if n < 0 {
        if i > 0 { assert s[i] == ShowNat(-(n as int))[i - 1]; }
      }
    }
    assert TrimNumberWhite(s) == s;
    if n < 0 {
      assert s[1..] == ShowNat(-(n as int));
    }
  }

  /** A plain run of digits that fits in 32 bits parses to its value. */
  lemma ParseDigits(s: string)
    requires s != [] && AllDigits(s) && DigitsValue(s) <= Int32Max
    ensures ParseInt32(s) == Some(DigitsValue(s))
  {
    assert forall i :: 0 <= i < |s| ==> !IsNumberWhite(s[i]);
  }

  /** Digits around a character that is neither a digit nor white space do not parse. */
  lemma ParseRejectsInnerChar(a: string, c: char, b: string)
    requires a != [] && AllDigits(a) && b != [] && AllDigits(b)
    requires !IsDigit(c) && !IsNumberWhite(c)
    ensures ParseInt32(a + [c] + b) == None
  {
    var s := a + [c] + b;
    forall i | 0 <= i < |s|
      ensures !IsNumberWhite(s[i])
    {
      if i < |a| {
        assert s[i] == a[i];
      } else if i > |a| {
        assert s[i] == b[i - |a| - 1];
      }
    }
    assert TrimNumberWhite(s) == s;
    assert s[0] == a[0];
    assert s[|a|] == c;
  }

  /** Trimming never removes a first character that is not white space. */
  lemma {:induction false} TrimKeepsFirst(s: string)
    requires s != [] && !IsNumberWhite(s[0])
    ensures TrimNumberWhite(s) != [] && TrimNumberWhite(s)[0] == s[0]
    decreases |s|
  {
    if IsNumberWhite(s[|s| - 1]) {
      TrimKeepsFirst(s[..|s| - 1]);
    }
  }

  /** A text that starts with anything but white space, a sign or a digit does not parse. */
  lemma ParseRejectsLeadingChar(c: char, rest: string)
    requires !IsNumberWhite(c) && !IsDigit(c) && c != '-' && c != '+'
    ensures ParseInt32([c] + rest) == None
  {
    TrimKeepsFirst([c] + rest);
  }

  /** `int.Parse(s)`: as `int.TryParse`, but a text that does not parse throws a `FormatException`. */
  function ParseInt32OrThrow(s: string): (r: Result<int32, string>)
    ensures r.Ok? <==> ParseInt32(s).Some?
    ensures r.Ok? ==> r.value == ParseInt32(s).value
  {
    match ParseInt32(s)
    case Some(v) => Ok(v)
    case None => Fail("FormatException")
  }

  // ---------------------------------------------------------------- string.Split

  /** `s.Split(separators)`: the pieces between separators, empty pieces kept. */
  function Split(s: string, separators: set<char>): (r: seq<string>)
    ensures |r| >= 1
    ensures forall i, c :: 0 <= i < |r| && c in r[i] ==> c !in separators
  {
    if s == [] then [""]
    else
      var rest := Split(s[1..], separators);
      if s[0] in separators then [""] + rest
      else [[s[0]] + rest[0]] + rest[1..]
  }

  /** A piece without separators, then a separator: the piece comes first, the rest is split on. */
  lemma {:induction false} SplitAfterPiece(piece: string, c: char, rest: string, separators: set<char>)
    requires c in separators
    requires forall x :: x in piece ==> x !in separators
    ensures Split(piece + [c] + rest, separators) == [piece] + Split(rest, separators)
    decreases |piece|
  {
    var s := piece + [c] + rest;
    if piece == [] {
      assert s[1..] == rest;
    } else {
      assert s[1..] == piece[1..] + [c] + rest;
      SplitAfterPiece(piece[1..], c, rest, separators);
      assert [s[0]] + piece[1..] == piece;
    }
  }

  /** A text without separators is a single piece. */
  lemma {:induction false} SplitWhole(piece: string, separators: set<char>)
    requires forall x :: x in piece ==> x !in separators
    ensures Split(piece, separators) == [piece]
    decreases |piece|
  {
    if piece != [] {
      SplitWhole(piece[1..], separators);
      assert [piece[0]] + piece[1..] == piece;
    }
  }

  /** `StringSplitOptions.RemoveEmptyEntries`: the pieces that are not empty, in order. */
  function NonEmpty(pieces: seq<string>): (r: seq<string>)
    ensures |r| <= |pieces|
    ensures forall i :: 0 <= i < |r| ==> r[i] != "" && r[i] in pieces
  {
    if pieces == [] then []
    else if pieces[0] == "" then NonEmpty(pieces[1..])
    else [pieces[0]] + NonEmpty(pieces[1..])
  }

  /** Dropping the empty pieces of two lists one after the other. */
  lemma {:induction false} NonEmptyAppend(a: seq<string>, b: seq<string>)
    ensures NonEmpty(a + b) == NonEmpty(a) + NonEmpty(b)
  {
    if a != [] {
      assert (a + b)[1..] == a[1..] + b;
      NonEmptyAppend(a[1..], b);
    } else {
      assert a + b == b;
    }
  }

  /** Pieces none of which is empty are all kept. */
  lemma {:induction false} NonEmptyKeepsAll(pieces: seq<string>)
    requires forall i :: 0 <= i < |pieces| ==> pieces[i] != ""
    ensures NonEmpty(pieces) == pieces
  {
    if pieces != [] {
      NonEmptyKeepsAll(pieces[1..]);
    }
  }

  // ---------------------------------------------------------------- bool.TryParse

  /** `bool.TryParse`: "True" or "False" in any letter case, surrounded by optional white space or NUL characters. */
  function ParseBool(s: string): Option<bool> {
    var w := Lower(TrimWhiteAndNull(s));
    if w == "true" then Some(true) else if w == "false" then Some(false) else None
  }

  /** What `bool.TryParse` skips around the word. */
  predicate IsBoolPadding(c: char) {
    IsWhiteSpace(c) || c == '\0'
  }

  /** `bool.ToString()`: "True" or "False". */
  function BoolText(b: bool): (r: string)
    ensures r != [] && !IsBoolPadding(r[0]) && !IsBoolPadding(r[|r| - 1])
  {
    if b then "True" else "False"
  }

  /** A bool's own text is read back, whatever padding surrounds it. */
  lemma ParseBoolRoundTrip(b: bool, before: string, after: string)
    requires forall i :: 0 <= i < |before| ==> IsBoolPadding(before[i])
    requires forall i :: 0 <= i < |after| ==> IsBoolPadding(after[i])
    ensures ParseBool(before + BoolText(b) + after) == Some(b)
  {
    var w := BoolText(b);
    assert before + w + after == before + (w + after);
    TrimPaddingBefore(before, w + after);
    TrimPaddingAfter(w, after);
    if b {
      assert Lower(w) == "true";
    } else {
      assert Lower(w) == "false";
    }
  }

  /** `bool.TryParse` does not take numbers: "1" is not true. */
  lemma ParseBoolRejectsDigits()
    ensures ParseBool("1") == None && ParseBool("0") == None
  {
    assert TrimWhiteAndNull("1") == "1" && Lower("1") == "1";
    assert TrimWhiteAndNull("0") == "0" && Lower("0") == "0";
  }

  lemma {:induction false} TrimPaddingBefore(before: string, t: string)
    requires forall i :: 0 <= i < |before| ==> IsBoolPadding(before[i])
    requires t != [] && !IsBoolPadding(t[0])
    ensures TrimWhiteAndNull(before + t) == TrimWhiteAndNull(t)
    decreases |before|
  {
    if before != [] {
      assert (before + t)[1..] == before[1..] + t;
      TrimPaddingBefore(before[1..], t);
    } else {
      assert before + t == t;
    }
  }

  lemma {:induction false} TrimPaddingAfter(w: string, after: string)
    requires w != [] && !IsBoolPadding(w[0]) && !IsBoolPadding(w[|w| - 1])
    requires forall i :: 0 <= i < |after| ==> IsBoolPadding(after[i])
    ensures TrimWhiteAndNull(w + after) == w
    decreases |after|
  {
    if after == [] {
      assert w + after == w;
    } else {
      var s := w + after;
      assert s[..|s| - 1] == w + after[..|after| - 1];
      TrimPaddingAfter(w, after[..|after| - 1]);
    }
  }

  function TrimWhiteAndNull(s: string): (r: string)
    ensures |r| <= |s|
    decreases |s|
  {
    if s != [] && IsBoolPadding(s[0]) then TrimWhiteAndNull(s[1..])
    else if s != [] && IsBoolPadding(s[|s| - 1]) then TrimWhiteAndNull(s[..|s| - 1])
    else s
  }

  // ---------------------------------------------------------------- ordinal comparison

  /** `string.CompareOrdinal` order: by UTF-16 code unit, a proper prefix first. */
  predicate OrdinalLess(a: string, b: string)
    decreases |a|
  {
    if a == [] then b != []
    else if b == [] then false
    else a[0] < b[0] || (a[0] == b[0] && OrdinalLess(a[1..], b[1..]))
  }

  /** The sign of `string.Compare(a, b, StringComparison.Ordinal)`. */
  function OrdinalCompare(a: string, b: string): (r: int)
    ensures r == -1 || r == 0 || r == 1
    ensures r < 0 <==> OrdinalLess(a, b)
    ensures r > 0 <==> OrdinalLess(b, a)
    ensures r == 0 <==> a == b
  {
    OrdinalTotal(a, b);
    if OrdinalLess(a, b) then -1 else if OrdinalLess(b, a) then 1 else 0
  }

  lemma {:induction false} OrdinalTotal(a: string, b: string)
    ensures a == b || OrdinalLess(a, b) || OrdinalLess(b, a)
    ensures !(OrdinalLess(a, b) && OrdinalLess(b, a))
    decreases |a|
  {
    if a != [] && b != [] {
      OrdinalTotal(a[1..], b[1..]);
      if a[0] == b[0] && a[1..] == b[1..] {
        assert a == [a[0]] + a[1..] && b == [b[0]] + b[1..];
      }
    }
  }

  lemma {:induction false} OrdinalIrreflexive(a: string)
    ensures !OrdinalLess(a, a)
    decreases |a|
  {
    if a != [] {
      OrdinalIrreflexive(a[1..]);
    }
  }

  lemma {:induction false} OrdinalTransitive(a: string, b: string, c: string)
    requires OrdinalLess(a, b) && OrdinalLess(b, c)
    ensures OrdinalLess(a, c)
    decreases |a|
  {
    if a != [] && a[0] == b[0] && b[0] == c[0] {
      OrdinalTransitive(a[1..], b[1..], c[1..]);
    }
  }

  // ---------------------------------------------------------------- Select

  /** `Enumerable.Select`. */
  function Map<T, U>(f: T -> U, s: seq<T>): (r: seq<U>)
    ensures |r| == |s| && forall i :: 0 <= i < |s| ==> r[i] == f(s[i])
  {
    seq(|s|, i requires 0 <= i < |s| => f(s[i]))
  }

  lemma MapAppend<T, U>(f: T -> U, a: seq<T>, b: seq<T>)
    ensures Map(f, a + b) == Map(f, a) + Map(f, b)
  {
  }

  // ---------------------------------------------------------------- collecting loops

  /**
   * What a loop collects when it turns each item into a value on its own and
   * skips the items that give null: the values, in item order.
   */
  function Collected<X, T>(parse: X -> Option<T>, nodes: seq<X>): (r: seq<T>)
    ensures |r| <= |nodes|
  {
    if nodes == [] then []
    else
      var init := Collected(parse, nodes[..|nodes| - 1]);
      match parse(nodes[|nodes| - 1])
      case None => init
      case Some(t) => init + [t]
  }

  /** The items are handled independently: collecting two runs of items is collecting each. */
  lemma {:induction false} CollectedAppend<X, T>(parse: X -> Option<T>, a: seq<X>, b: seq<X>)
    ensures Collected(parse, a + b) == Collected(parse, a) + Collected(parse, b)
    decreases |b|
  {
    if b == [] {
      assert a + b == a;
    } else {
      var init := b[..|b| - 1];
      assert (a + b)[..|a + b| - 1] == a + init;
      assert (a + b)[|a + b| - 1] == b[|b| - 1];
      CollectedAppend(parse, a, init);
    }
  }

  /** Every collected value is one `parse` gave, so it has every property all of those have. */
  lemma {:induction false} CollectedSatisfy<X, T>(parse: X -> Option<T>, nodes: seq<X>, p: T -> bool)
    requires forall j :: 0 <= j < |nodes| && parse(nodes[j]).Some? ==> p(parse(nodes[j]).value)
    ensures forall i :: 0 <= i < |Collected(parse, nodes)| ==> p(Collected(parse, nodes)[i])
    decreases |nodes|
  {
    if nodes != [] {
      var init := nodes[..|nodes| - 1];
      assert forall j :: 0 <= j < |init| ==> init[j] == nodes[j];
      CollectedSatisfy(parse, init, p);
    }
  }

  /** One loop step: the values of the items so far, and the next item's, if it gives one. */
  lemma CollectedStep<X, T>(parse: X -> Option<T>, nodes: seq<X>, i: nat)
    requires i < |nodes|
    ensures Collected(parse, nodes[..i + 1])
            == Collected(parse, nodes[..i]) + (if parse(nodes[i]).Some? then [parse(nodes[i]).value] else [])
  {
    assert nodes[..i + 1][..i] == nodes[..i];
  }
}
