/**
 * The string operations the modelled code relies on, over `seq<char>`:
 * Python's `strip()` and `strip(c)`, ASCII `lower()`, substring search,
 * `str.join`, and `str(n)` for integers.
 */
module Text {
  /** The characters Python's `str.isspace` accepts below 128. */
  predicate IsSpace(c: char) {
    c == ' ' || 9 <= c as int <= 13 || 28 <= c as int <= 31
  }

  /** `s` with every leading character satisfying `IsSpace` (or equal to `c`, when `quote`) removed. */
  function TrimStart(s: string, quote: bool, c: char): (r: string)
    ensures |r| <= |s| && r == s[|s| - |r|..]
    ensures forall i :: 0 <= i < |s| - |r| ==> Drops(s[i], quote, c)
    ensures r != [] ==> !Drops(r[0], quote, c)
  {
    if s != [] && Drops(s[0], quote, c) then TrimStart(s[1..], quote, c) else s
  }

  /** `s` with every trailing droppable character removed. */
  function TrimEnd(s: string, quote: bool, c: char): (r: string)
    ensures |r| <= |s| && r == s[..|r|]
    ensures forall i :: |r| <= i < |s| ==> Drops(s[i], quote, c)
    ensures r != [] ==> !Drops(r[|r| - 1], quote, c)
  {
    if s != [] && Drops(s[|s| - 1], quote, c) then TrimEnd(s[..|s| - 1], quote, c) else s
  }

  /** Which characters a strip removes: whitespace, or only `c` when stripping a given character. */
  predicate Drops(x: char, quote: bool, c: char) {
    if quote then x == c else IsSpace(x)
  }

  /** Python `s.strip()`. */
  function Strip(s: string): string {
    TrimEnd(TrimStart(s, false, ' '), false, ' ')
  }

  /** Python `s.strip(c)` for a single character `c`. */
  function StripChar(s: string, c: char): string {
    TrimEnd(TrimStart(s, true, c), true, c)
  }

  /** `s` neither begins nor ends with a character the strip drops. */
  predicate Unpadded(s: string, quote: bool, c: char) {
    s != [] ==> !Drops(s[0], quote, c) && !Drops(s[|s| - 1], quote, c)
  }

  /** After stripping, neither end holds a character the strip drops. */
  lemma StripUnpaddedResult(s: string, quote: bool, c: char)
    ensures Unpadded(TrimEnd(TrimStart(s, quote, c), quote, c), quote, c)
  {
    var t := TrimStart(s, quote, c);
    var r := TrimEnd(t, quote, c);
    if r != [] {
      assert r[0] == t[0];
    }
  }

  /** A string with nothing to strip is its own strip. */
  lemma StripUnpadded(s: string, quote: bool, c: char)
    requires Unpadded(s, quote, c)
    ensures TrimEnd(TrimStart(s, quote, c), quote, c) == s
  {
  }

  /** Stripping twice is stripping once. */
  lemma StripIdempotent(s: string, quote: bool, c: char)
    ensures var r := TrimEnd(TrimStart(s, quote, c), quote, c);
      TrimEnd(TrimStart(r, quote, c), quote, c) == r
  {
    StripUnpaddedResult(s, quote, c);
    StripUnpadded(TrimEnd(TrimStart(s, quote, c), quote, c), quote, c);
  }

  /** ASCII `lower()`: A-Z become a-z, every other character is kept. */
  function LowerChar(c: char): char {
    if 'A' <= c <= 'Z' then (c as int + 32) as char else c
  }

  function Lower(s: string): (r: string)
    ensures |r| == |s| && forall i :: 0 <= i < |s| ==> r[i] == LowerChar(s[i])
  {
    if s == [] then [] else [LowerChar(s[0])] + Lower(s[1..])
  }

  /** `sub in s`. */
  predicate Contains(s: string, sub: string) {
    sub <= s || (s != [] && Contains(s[1..], sub))
  }

  /** A string is found inside any text around it. */
  lemma {:induction false} ContainsInside(pre: string, sub: string, post: string)
    ensures Contains(pre + sub + post, sub)
  {
    if pre == [] {
      assert pre + sub + post == sub + post;
    } else {
      ContainsInside(pre[1..], sub, post);
      assert (pre + sub + post)[1..] == pre[1..] + sub + post;
    }
  }

  /** `sep.join(parts)`. */
  function Join(parts: seq<string>, sep: string): (r: string)
    ensures parts == [] ==> r == []
    ensures |parts| == 1 ==> r == parts[0]
  {
    if parts == [] then []
    else if |parts| == 1 then parts[0]
    else Join(parts[..|parts| - 1], sep) + sep + parts[|parts| - 1]
  }

  /** The joined text is as long as its parts plus one separator between each pair. */
  lemma {:induction false} JoinLength(parts: seq<string>, sep: string)
    requires parts != []
    ensures |Join(parts, sep)| == TotalLength(parts) + (|parts| - 1) * |sep|
  {
    if |parts| > 1 {
      JoinLength(parts[..|parts| - 1], sep);
      assert (|parts| - 2) * |sep| + |sep| == (|parts| - 1) * |sep|;
    }
  }

  function TotalLength(parts: seq<string>): nat {
    if parts == [] then 0 else TotalLength(parts[..|parts| - 1]) + |parts[|parts| - 1]|
  }

  /** A decimal digit. */
  function Digit(d: nat): char
    requires d < 10
  {
    "0123456789"[d]
  }

  predicate IsDigit(c: char) {
    '0' <= c <= '9'
  }

  /** Every character of `s` is a decimal digit. */
  predicate AllDigits(s: string) {
    forall i :: 0 <= i < |s| ==> IsDigit(s[i])
  }

  /** `str(n)` for `n >= 0`. */
  function NatToString(n: nat): (s: string)
    ensures s != [] && AllDigits(s)
    decreases n
  {
    if n < 10 then [Digit(n)] else NatToString(n / 10) + [Digit(n % 10)]
  }

  /** `str(n)` for any integer. */
  function IntToString(n: int): (s: string)
    ensures s != []
  {
    if n < 0 then "-" + NatToString(-n) else NatToString(n)
  }

  /** The value of a string of decimal digits. */
  function DigitsValue(s: string): int
    requires AllDigits(s)
  {
    if s == [] then 0
    else DigitsValue(s[..|s| - 1]) * 10 + (s[|s| - 1] as int - '0' as int)
  }

  /** Reading the decimal text of `n` back gives `n`: `str` loses nothing. */
  lemma {:induction false} NatToStringRoundTrip(n: nat)
    ensures DigitsValue(NatToString(n)) == n
    decreases n
  {
    var s := NatToString(n);
    if n >= 10 {
      NatToStringRoundTrip(n / 10);
      assert s[..|s| - 1] == NatToString(n / 10);
    }
  }

  /** Python `int(s)` on the text `str` produces: an optional minus sign, then digits. */
  function ParseInt(s: string): int {
    if s != [] && s[0] == '-' then -ParseNat(s[1..]) else ParseNat(s)
  }

  /** The value of a string of digits; anything else reads as 0. */
  function ParseNat(s: string): int {
    if AllDigits(s) then DigitsValue(s) else 0
  }

  /** Reading `str(n)` back gives `n`, so different integers print differently. */
  lemma IntToStringRoundTrip(n: int)
    ensures ParseInt(IntToString(n)) == n
  {
    if n < 0 {
      NegativeRoundTrip(n);
    } else {
      NatToStringRoundTrip(n);
      ParseDigits(NatToString(n));
    }
  }

  /** The negative half of the round trip: `-` followed by the digits of `-n`. */
  lemma NegativeRoundTrip(n: int)
    requires n < 0
    ensures ParseInt(IntToString(n)) == n
  {
    var t := NatToString(-n);
    NatToStringRoundTrip(-n);
    assert ParseNat(t) == -n;
    ParseNegative(t, -n);
    calc {
      ParseInt(IntToString(n));
      { assert IntToString(n) == "-" + t; }
      ParseInt("-" + t);
    }
  }

  /** A minus sign before digits worth `v` reads as `-v`. */
  lemma ParseNegative(t: string, v: int)
    requires ParseNat(t) == v
    ensures ParseInt("-" + t) == -v
  {
    var s := "-" + t;
    assert s[1..] == t;
  }

  /** Non-empty digits read as their value. */
  lemma ParseDigits(t: string)
    requires t != [] && AllDigits(t)
    ensures ParseInt(t) == DigitsValue(t)
  {
    assert t[0] != '-';
  }
}
