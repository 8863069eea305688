/**
 * The few Python string built-ins the parsers lean on, written out:
 * `str.rstrip()`/`str.strip()`, slicing `s[n:]`, `str.split(sep)` and `int(s)`.
 * Python's `str.startswith(p)` is Dafny's prefix test `p <= s`.
 */
module Text {
  import opened Wrappers

  /**
   * Characters Python 2.7's `unicode.isspace()` accepts (the set `rstrip()` and `int()`
   * trim on the decoded output), U+180E included.
   */
  predicate IsWhitespace(c: char) {
    var n := c as int;
    (9 <= n <= 13) || (28 <= n <= 32) || n == 0x85 || n == 0xA0 || n == 0x1680 || n == 0x180E
    || (0x2000 <= n <= 0x200A) || n == 0x2028 || n == 0x2029 || n == 0x202F
    || n == 0x205F || n == 0x3000
  }

  /** `s.rstrip()`: the longest prefix of `s` that does not end in whitespace. */
  function RStrip(s: string): (r: string)
    ensures |r| <= |s|
    ensures r == [] || !IsWhitespace(r[|r| - 1])
  {
    if s == [] || !IsWhitespace(s[|s| - 1]) then s else RStrip(s[..|s| - 1])
  }

  /** `RStrip` keeps a prefix, ends on a non-blank, and drops only whitespace. */
  lemma {:induction false} RStripSpec(s: string)
    ensures RStrip(s) <= s
    ensures RStrip(s) == [] || !IsWhitespace(RStrip(s)[|RStrip(s)| - 1])
    ensures forall i :: |RStrip(s)| <= i < |s| ==> IsWhitespace(s[i])
  {
    if s != [] && IsWhitespace(s[|s| - 1]) {
      RStripSpec(s[..|s| - 1]);
    }
  }

  /** Trailing whitespace is exactly what `RStrip` removes. */
  lemma {:induction false} RStripPadded(s: string, padding: string)
    requires s == [] || !IsWhitespace(s[|s| - 1])
    requires forall i :: 0 <= i < |padding| ==> IsWhitespace(padding[i])
    ensures RStrip(s + padding) == s
  {
    if padding == [] {
      assert s + padding == s;
    } else {
      var shorter := padding[..|padding| - 1];
      assert (s + padding)[..|s + padding| - 1] == s + shorter;
      RStripPadded(s, shorter);
    }
  }

  /** `s.lstrip()`: the longest suffix of `s` that does not start with whitespace. */
  function LStrip(s: string): string {
    if s == [] || !IsWhitespace(s[0]) then s else LStrip(s[1..])
  }

  function Strip(s: string): string {
    LStrip(RStrip(s))
  }

  /** Python's `s[n:]`, which is empty rather than an error when `n` is past the end. */
  function Drop(s: string, n: nat): string {
    if n <= |s| then s[n..] else []
  }

  /** `s.split(sep)`: the pieces between occurrences of `sep`, always at least one. */
  function Split(s: string, sep: char): (parts: seq<string>)
    ensures |parts| >= 1
    ensures forall i :: 0 <= i < |parts| ==> sep !in parts[i]
  {
    if s == [] then [[]]
    else
      var rest := Split(s[1..], sep);
      if s[0] == sep then [[]] + rest
      else [[s[0]] + rest[0]] + rest[1..]
  }

  /** `sep.join(parts)`, the inverse of `Split`. */
  function Join(parts: seq<string>, sep: char): string
    requires |parts| >= 1
  {
    if |parts| == 1 then parts[0] else parts[0] + [sep] + Join(parts[1..], sep)
  }

  lemma {:induction false} SplitThenJoin(s: string, sep: char)
    ensures Join(Split(s, sep), sep) == s
  {
    if s != [] {
      SplitThenJoin(s[1..], sep);
      var rest := Split(s[1..], sep);
      if s[0] != sep {
        if |rest| == 1 {
          assert Split(s, sep) == [[s[0]] + rest[0]];
        } else {
          assert Split(s, sep)[1..] == rest[1..];
        }
      }
    }
  }

  lemma {:induction false} JoinThenSplit(parts: seq<string>, sep: char)
    requires |parts| >= 1
    requires forall i :: 0 <= i < |parts| ==> sep !in parts[i]
    ensures Split(Join(parts, sep), sep) == parts
  {
    if |parts| == 1 {
      SplitOfPiece(parts[0], [], sep);
      assert parts[0] + [] == parts[0];
    } else {
      JoinThenSplit(parts[1..], sep);
      SplitOfPiece(parts[0], [sep] + Join(parts[1..], sep), sep);
      assert parts[0] + [sep] + Join(parts[1..], sep) == parts[0] + ([sep] + Join(parts[1..], sep));
      assert ([sep] + Join(parts[1..], sep))[1..] == Join(parts[1..], sep);
    }
  }

  /** Text without the separator splits into itself alone. */
  lemma SplitWithoutSep(s: string, sep: char)
    ensures sep !in s ==> Split(s, sep) == [s]
  {
    if sep !in s {
      SplitOfPiece(s, [], sep);
      assert s + [] == s;
    }
  }

  /** Dropping characters keeps out a character that was not there. */
  lemma DropKeepsOut(s: string, n: nat, c: char)
    ensures c !in s ==> c !in Drop(s, n)
  {
    if n <= |s| {
      assert forall i :: 0 <= i < |s| - n ==> Drop(s, n)[i] == s[i + n];
    }
  }

  /** Splitting a piece free of `sep` followed by `rest` (empty, or starting with `sep`). */
  lemma {:induction false} SplitOfPiece(piece: string, rest: string, sep: char)
    requires sep !in piece
    requires rest == [] || rest[0] == sep
    ensures Split(piece + rest, sep) ==
      if rest == [] then [piece] else [piece] + Split(rest[1..], sep)
  {
    if piece != [] {
      assert (piece + rest)[1..] == piece[1..] + rest;
      SplitOfPiece(piece[1..], rest, sep);
      assert [piece[0]] + piece[1..] == piece;
    } else {
      assert piece + rest == rest;
    }
  }

  predicate IsDigit(c: char) {
    '0' <= c <= '9'
  }

  predicate AllDigits(s: string) {
    forall i :: 0 <= i < |s| ==> IsDigit(s[i])
  }

  function DigitValue(c: char): nat
    requires IsDigit(c)
  {
    c as int - '0' as int
  }

  function DigitChar(d: nat): (c: char)
    requires d < 10
    ensures IsDigit(c) && DigitValue(c) == d
  {
    ('0' as int + d) as char
  }

  /** The value of a run of decimal digits, most significant first. */
  function DigitsValue(s: string): nat
    requires AllDigits(s)
  {
    if s == [] then 0 else DigitsValue(s[..|s| - 1]) * 10 + DigitValue(s[|s| - 1])
  }

  /** Python's `str(n)` for a natural number. */
  function NatToString(n: nat): (s: string)
    ensures |s| > 0 && AllDigits(s)
  {
    if n < 10 then [DigitChar(n)] else NatToString(n / 10) + [DigitChar(n % 10)]
  }

  lemma {:induction false} NatToStringRoundTrip(n: nat)
    ensures DigitsValue(NatToString(n)) == n
  {
    if n >= 10 {
      NatToStringRoundTrip(n / 10);
      var s := NatToString(n);
      assert s[..|s| - 1] == NatToString(n / 10);
    }
  }

  /**
   * Python 2.7's `int(s)` on a decimal literal: surrounding whitespace is ignored, an
   * optional sign is allowed, whitespace between the sign and the digits is skipped,
   * then one or more digits. `None` is the ValueError.
   */
  function ParseInt(s: string): (r: Option<int>)
    ensures r.Some? ==> Strip(s) != []
  {
    var t := Strip(s);
    if t != [] && (t[0] == '+' || t[0] == '-') then
      var digits := LStrip(t[1..]);
      if digits != [] && AllDigits(digits) then
        Some(if t[0] == '-' then -(DigitsValue(digits) as int) else DigitsValue(digits))
      else None
    else if t != [] && AllDigits(t) then Some(DigitsValue(t))
    else None
  }

  /** Stripping leaves a string alone when neither end is whitespace. */
  lemma StripUnpadded(s: string)
    requires s != [] && !IsWhitespace(s[0]) && !IsWhitespace(s[|s| - 1])
    ensures Strip(s) == s
  {
    assert RStrip(s) == s;
  }

  lemma ParseIntOfDigits(s: string)
    requires s != [] && AllDigits(s)
    ensures ParseInt(s) == Some(DigitsValue(s))
  {
    assert IsDigit(s[0]) && IsDigit(s[|s| - 1]);
    StripUnpadded(s);
  }

  lemma ParseIntRoundTrip(n: nat)
    ensures ParseInt(NatToString(n)) == Some(n as int)
  {
    NatToStringRoundTrip(n);
    ParseIntOfDigits(NatToString(n));
  }

  lemma ParseIntNegativeRoundTrip(n: nat)
    ensures ParseInt("-" + NatToString(n)) == Some(-(n as int))
  {
    ParseIntSpacedSign([], n);
    assert "-" + [] + NatToString(n) == "-" + NatToString(n);
  }

  /** Whitespace between the sign and the digits is skipped: `int("- 3") == -3`. */
  lemma ParseIntSpacedSign(padding: string, n: nat)
    requires forall i :: 0 <= i < |padding| ==> IsWhitespace(padding[i])
    ensures ParseInt("-" + padding + NatToString(n)) == Some(-(n as int))
  {
    NatToStringRoundTrip(n);
    var digits := NatToString(n);
    SignedText(padding, digits);
    StripUnpadded("-" + padding + digits);
    LStripPadding(padding, digits);
  }

  lemma SignedText(padding: string, digits: string)
    requires digits != [] && IsDigit(digits[0]) && IsDigit(digits[|digits| - 1])
    ensures var t := "-" + padding + digits;
      && t[0] == '-' && !IsWhitespace(t[0]) && !IsWhitespace(t[|t| - 1])
      && t[1..] == padding + digits
  {
    var t := "-" + padding + digits;
    assert t[|t| - 1] == digits[|digits| - 1];
  }

  /** `lstrip()` removes exactly a whitespace prefix in front of a non-blank. */
  lemma {:induction false} LStripPadding(padding: string, s: string)
    requires forall i :: 0 <= i < |padding| ==> IsWhitespace(padding[i])
    requires s == [] || !IsWhitespace(s[0])
    ensures LStrip(padding + s) == s
  {
    if padding == [] {
      assert padding + s == s;
    } else {
      assert (padding + s)[1..] == padding[1..] + s;
      LStripPadding(padding[1..], s);
    }
  }

  /** Concatenation of sequences is associative. */
  lemma AppendAssoc<T>(a: seq<T>, b: seq<T>, c: seq<T>)
    ensures a + (b + c) == (a + b) + c
  {
  }
}
