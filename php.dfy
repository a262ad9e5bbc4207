/**
 * The PHP string built-ins the controllers rely on: `trim`, `empty` on a
 * string, string truthiness, `strlen` (a byte count), `bin2hex`, and the
 * substring test that a `LIKE '%s%'` pattern performs.
 */
module Php {
  import opened Base

  /** The characters PHP's `trim` strips by default: " \t\n\r\0\x0B". */
  predicate IsTrimChar(c: char) {
    c == ' ' || c == '\t' || c == '\n' || c == '\r' || c == '\0' || c == '\U{000B}'
  }

  /** `ltrim`: drop the leading run of trim characters. */
  function TrimLeft(s: string): (r: string)
    ensures |r| <= |s| && r == s[|s| - |r|..]
    ensures r == [] || !IsTrimChar(r[0])
    ensures forall k :: 0 <= k < |s| - |r| ==> IsTrimChar(s[k])
  {
    if s != [] && IsTrimChar(s[0]) then TrimLeft(s[1..]) else s
  }

  /** `rtrim`: drop the trailing run of trim characters. */
  function TrimRight(s: string): (r: string)
    ensures |r| <= |s| && r == s[..|r|]
    ensures r == [] || !IsTrimChar(r[|r| - 1])
    ensures forall k :: |r| <= k < |s| ==> IsTrimChar(s[k])
  {
    if s != [] && IsTrimChar(s[|s| - 1]) then TrimRight(s[..|s| - 1]) else s
  }

  /**
   * `trim`: the result is the slice of `s` left after removing the
   * leading and trailing trim characters, and it neither starts nor ends
   * with one.
   */
  function Trim(s: string): (r: string)
    ensures IsTrimmed(r)
    ensures StripsRuns(s, r, |s| - |TrimLeft(s)|)
  {
    TrimFacts(s);
    TrimRight(TrimLeft(s))
  }

  /**
   * `r` is the slice of `s` starting at `i`, and every character of `s`
   * before it and after it is a trim character.
   */
  predicate StripsRuns(s: string, r: string, i: int) {
    SliceAt(s, r, i) && AllTrimChars(s[..i]) && AllTrimChars(s[i + |r|..])
  }

  /** The contract of `Trim`, about the two one-sided trims composed. */
  lemma TrimFacts(s: string)
    ensures IsTrimmed(TrimRight(TrimLeft(s)))
    ensures StripsRuns(s, TrimRight(TrimLeft(s)), |s| - |TrimLeft(s)|)
  {
    TrimIsSlice(s);
    TrimDropsRuns(s);
  }

  /** `s` neither starts nor ends with a trim character. */
  predicate IsTrimmed(s: string) {
    s == [] || (!IsTrimChar(s[0]) && !IsTrimChar(s[|s| - 1]))
  }

  /** Every character of `t` is a trim character. */
  predicate AllTrimChars(t: string) {
    forall k :: 0 <= k < |t| ==> IsTrimChar(t[k])
  }

  /**
   * Both trims together leave a slice of `s` with no trim character at
   * either end, and what they drop before and after it is all trim
   * characters.
   */
  lemma TrimIsSlice(s: string)
    ensures IsTrimmed(TrimRight(TrimLeft(s)))
    ensures SliceAt(s, TrimRight(TrimLeft(s)), |s| - |TrimLeft(s)|)
  {
    var left := TrimLeft(s);
    PrefixOfSuffix(s, left, TrimRight(left));
    TrimRightKeepsStart(left);
  }

  /** A prefix of a suffix of `s` is a slice of `s`. */
  lemma PrefixOfSuffix(s: string, left: string, r: string)
    requires |left| <= |s| && left == s[|s| - |left|..]
    requires |r| <= |left| && r == left[..|r|]
    ensures SliceAt(s, r, |s| - |left|)
  {
    SliceOfSuffix(s, |s| - |left|, |r|);
  }

  lemma TrimDropsRuns(s: string)
    ensures var i := |s| - |TrimLeft(s)|;
      AllTrimChars(s[..i]) && AllTrimChars(s[i + |TrimRight(TrimLeft(s))|..])
  {
    var left := TrimLeft(s);
    LeftRun(s, |s| - |left|);
    RightRun(s, left, |TrimRight(left)|);
  }

  /** A leading run of trim characters, as a slice. */
  lemma LeftRun(s: string, i: nat)
    requires i <= |s| && forall k :: 0 <= k < i ==> IsTrimChar(s[k])
    ensures AllTrimChars(s[..i])
  {
    forall k | 0 <= k < i ensures IsTrimChar(s[..i][k]) {
      assert s[..i][k] == s[k];
    }
  }

  /** A trailing run of trim characters of `left`, a tail of `s`, as a slice of `s`. */
  lemma RightRun(s: string, left: string, n: nat)
    requires |left| <= |s| && left == s[|s| - |left|..] && n <= |left|
    requires forall k :: n <= k < |left| ==> IsTrimChar(left[k])
    ensures AllTrimChars(s[|s| - |left| + n..])
  {
    var j := |s| - |left| + n;
    forall k | 0 <= k < |s| - j ensures IsTrimChar(s[j..][k]) {
      assert s[j..][k] == left[n + k];
    }
  }

  /** `r` occurs in `s` starting at position `i`. */
  predicate SliceAt(s: string, r: string, i: int) {
    0 <= i <= |s| - |r| && s[i..i + |r|] == r
  }

  lemma SliceOfSuffix(s: string, i: nat, n: nat)
    requires i + n <= |s|
    ensures s[i..][..n] == s[i..i + n]
  {
  }

  lemma TrimRightKeepsStart(s: string)
    requires s == [] || !IsTrimChar(s[0])
    ensures TrimRight(s) == [] || !IsTrimChar(TrimRight(s)[0])
  {
    var r := TrimRight(s);
    if r != [] {
      assert r[0] == s[0];
    }
  }

  /** A string that neither starts nor ends with a trim character is its own trim. */
  lemma {:induction false} TrimOfTrimmed(s: string)
    requires IsTrimmed(s)
    ensures Trim(s) == s
  {
    assert TrimLeft(s) == s;
    assert TrimRight(s) == s;
  }

  /** `trim` is idempotent, so a stored trimmed value is already trimmed. */
  lemma TrimIdempotent(s: string)
    ensures Trim(Trim(s)) == Trim(s)
  {
    TrimOfTrimmed(Trim(s));
  }

  /** The strings `trim` leaves alone are exactly the trimmed ones. */
  lemma TrimFixedIff(s: string)
    ensures Trim(s) == s <==> IsTrimmed(s)
  {
    if IsTrimmed(s) {
      TrimOfTrimmed(s);
    }
  }

  /** A string made only of trim characters trims to the empty string. */
  lemma TrimOfWhitespace(s: string)
    requires forall k :: 0 <= k < |s| ==> IsTrimChar(s[k])
    ensures Trim(s) == ""
  {
  }

  /** PHP's `empty` on a string: true exactly for "" and "0". */
  predicate IsEmpty(s: string) {
    s == "" || s == "0"
  }

  /** PHP truthiness of a string: every string but "" and "0". */
  predicate IsTruthy(s: string) {
    !IsEmpty(s)
  }

  /** PHP truthiness of an optional string parameter (null is falsy). */
  predicate IsTruthyOpt(s: Option<string>) {
    s.Some? && IsTruthy(s.value)
  }

  /**
   * The controllers' "missing" test `!isset($x) || empty(trim($x))`.
   * The string "0" counts as missing here too, not only whitespace.
   */
  predicate IsMissing(s: Option<string>) {
    s.None? || IsEmpty(Trim(s.value))
  }

  /** Every missing or whitespace-only value, and every value trimming to "0", is missing. */
  lemma MissingCases(s: Option<string>)
    ensures IsMissing(s) <==> s.None? || Trim(s.value) == "" || Trim(s.value) == "0"
    ensures s.Some? && (forall k :: 0 <= k < |s.value| ==> IsTrimChar(s.value[k])) ==> IsMissing(s)
  {
    if s.Some? && (forall k :: 0 <= k < |s.value| ==> IsTrimChar(s.value[k])) {
      TrimOfWhitespace(s.value);
    }
  }

  /** The number of bytes the UTF-8 encoding of a code point takes. */
  function Utf8Width(c: char): (w: nat)
    ensures 1 <= w <= 4
    ensures w == 1 <==> (c as int) < 0x80
  {
    if (c as int) < 0x80 then 1
    else if (c as int) < 0x800 then 2
    else if (c as int) < 0x10000 then 3
    else 4
  }

  /** `strlen`: the byte length of the string's UTF-8 encoding. */
  function StrLen(s: string): (n: nat)
    ensures |s| <= n <= 4 * |s|
  {
    if s == [] then 0 else Utf8Width(s[0]) + StrLen(s[1..])
  }

  /** For ASCII text, `strlen` is the number of characters. */
  lemma {:induction false} StrLenOfAscii(s: string)
    requires forall k :: 0 <= k < |s| ==> (s[k] as int) < 0x80
    ensures StrLen(s) == |s|
  {
    if s != [] {
      StrLenOfAscii(s[1..]);
    }
  }

  const HexDigits: string := "0123456789abcdef"

  predicate IsHexChar(c: char) {
    c in HexDigits
  }

  /** `bin2hex`: two lower-case hexadecimal digits per byte, high nibble first. */
  function Bin2Hex(b: seq<byte>): (r: string)
    ensures |r| == 2 * |b|
    ensures forall k :: 0 <= k < |r| ==> IsHexChar(r[k])
  {
    if b == [] then ""
    else [HexDigits[b[0] as int / 16], HexDigits[b[0] as int % 16]] + Bin2Hex(b[1..])
  }

  lemma HexDigitsDistinct(i: int, j: int)
    requires 0 <= i < 16 && 0 <= j < 16 && HexDigits[i] == HexDigits[j]
    ensures i == j
  {
  }

  /** A number is fixed by its quotient and remainder by 16. */
  lemma SameNibblesSameByte(x: int, y: int)
    requires x / 16 == y / 16 && x % 16 == y % 16
    ensures x == y
  {
    assert x == 16 * (x / 16) + x % 16;
    assert y == 16 * (y / 16) + y % 16;
  }

  /** `bin2hex` loses nothing: distinct byte strings give distinct hex strings. */
  lemma {:induction false} Bin2HexInjective(a: seq<byte>, b: seq<byte>)
    requires Bin2Hex(a) == Bin2Hex(b)
    ensures a == b
  {
    if a != [] {
      var ha, hb := Bin2Hex(a), Bin2Hex(b);
      assert |b| == |a|;
      assert ha[0] == hb[0] && ha[1] == hb[1];
      HexDigitsDistinct(a[0] as int / 16, b[0] as int / 16);
      HexDigitsDistinct(a[0] as int % 16, b[0] as int % 16);
      SameNibblesSameByte(a[0] as int, b[0] as int);
      assert Bin2Hex(a[1..]) == ha[2..] == hb[2..] == Bin2Hex(b[1..]);
      Bin2HexInjective(a[1..], b[1..]);
      assert a == [a[0]] + a[1..];
      assert b == [b[0]] + b[1..];
    }
  }

  /** The substring test behind `LIKE '%needle%'` (without wildcards in `needle`). */
  predicate Contains(haystack: string, needle: string) {
    needle <= haystack || (haystack != [] && Contains(haystack[1..], needle))
  }

  /** `Contains` holds exactly when `needle` occurs at some position of `haystack`. */
  lemma ContainsIff(haystack: string, needle: string)
    ensures Contains(haystack, needle) <==> exists i :: SliceAt(haystack, needle, i)
  {
    if Contains(haystack, needle) {
      var i := ContainsWitness(haystack, needle);
    }
    if exists i :: SliceAt(haystack, needle, i) {
      var i :| SliceAt(haystack, needle, i);
      SliceContains(haystack, needle, i);
    }
  }

  /** Where `Contains` finds the needle: a position it occurs at. */
  lemma {:induction false} ContainsWitness(haystack: string, needle: string) returns (i: nat)
    requires Contains(haystack, needle)
    ensures SliceAt(haystack, needle, i)
  {
    if needle <= haystack {
      i := 0;
      assert haystack[..|needle|] == needle;
    } else {
      var j := ContainsWitness(haystack[1..], needle);
      i := j + 1;
      SliceOfSuffix(haystack, 1, j + |needle|);
      assert haystack[1..][j..j + |needle|] == haystack[i..i + |needle|];
    }
  }

  /** An occurrence at any position is found by `Contains`. */
  lemma {:induction false} SliceContains(haystack: string, needle: string, i: nat)
    requires SliceAt(haystack, needle, i)
    ensures Contains(haystack, needle)
    decreases i
  {
    if i == 0 {
      assert haystack[..|needle|] == needle;
    } else {
      assert haystack[1..][i - 1..i - 1 + |needle|] == haystack[i..i + |needle|];
      SliceContains(haystack[1..], needle, i - 1);
    }
  }

  /** The whitespace `(int)` skips before a number: " \t\n\r\v\f". */
  predicate IsNumericSpace(c: char) {
    c == ' ' || c == '\t' || c == '\n' || c == '\r' || c == '\U{000B}' || c == '\U{000C}'
  }

  predicate IsDigit(c: char) {
    '0' <= c <= '9'
  }

  predicate AllDigits(s: string) {
    forall k :: 0 <= k < |s| ==> IsDigit(s[k])
  }

  function SkipNumericSpace(s: string): (r: string)
    ensures |r| <= |s| && r == s[|s| - |r|..]
    ensures r == [] || !IsNumericSpace(r[0])
    ensures forall k :: 0 <= k < |s| - |r| ==> IsNumericSpace(s[k])
  {
    if s != [] && IsNumericSpace(s[0]) then SkipNumericSpace(s[1..]) else s
  }

  /** The leading run of decimal digits. */
  function DigitPrefix(s: string): (d: string)
    ensures |d| <= |s| && d == s[..|d|]
    ensures AllDigits(d)
    ensures |d| == |s| || !IsDigit(s[|d|])
  {
    if s != [] && IsDigit(s[0]) then [s[0]] + DigitPrefix(s[1..]) else []
  }

  /** The value of a run of decimal digits, most significant first. */
  function DigitsValue(d: string): nat
    requires AllDigits(d)
  {
    if d == [] then 0 else 10 * DigitsValue(d[..|d| - 1]) + (d[|d| - 1] as int - '0' as int)
  }

  /**
   * `(int)$s` on a string: skip leading whitespace, read an optional sign
   * and the digits that follow; no digits gives 0.
   */
  function IntCast(s: string): (r: int)
    ensures var t := SkipNumericSpace(s);
      && (if r < 0 then -r else r) == DigitsValue(DigitPrefix(AfterSign(t)))
      && (r < 0 <==> t != [] && t[0] == '-' && DigitsValue(DigitPrefix(t[1..])) != 0)
  {
    SignedValueFacts(SkipNumericSpace(s));
    SignedValue(SkipNumericSpace(s))
  }

  lemma SignedValueFacts(t: string)
    ensures var r := SignedValue(t);
      && (if r < 0 then -r else r) == DigitsValue(DigitPrefix(AfterSign(t)))
      && (r < 0 <==> t != [] && t[0] == '-' && DigitsValue(DigitPrefix(t[1..])) != 0)
  {
  }

  /** The text after one leading sign character, if there is one. */
  function AfterSign(t: string): string {
    if t != [] && (t[0] == '-' || t[0] == '+') then t[1..] else t
  }

  /** An optional sign, then the leading digits. */
  function SignedValue(t: string): int {
    if t != [] && t[0] == '-' then -(DigitsValue(DigitPrefix(t[1..])) as int)
    else if t != [] && t[0] == '+' then DigitsValue(DigitPrefix(t[1..]))
    else DigitsValue(DigitPrefix(t))
  }

  /** A nonempty run of digits casts to its value. */
  lemma IntCastOfDigits(s: string)
    requires s != [] && AllDigits(s)
    ensures IntCast(s) == DigitsValue(s)
  {
    assert !IsNumericSpace(s[0]);
    assert SkipNumericSpace(s) == s;
    assert s[0] != '-' && s[0] != '+';
    DigitPrefixOfDigits(s);
  }

  /** The decimal rendering of a natural number, without leading zeros. */
  function Decimal(n: nat): (s: string)
    ensures s != [] && AllDigits(s)
    ensures |s| > 1 ==> s[0] != '0'
    ensures n != 0 ==> s != "0"
  {
    var last := ('0' as int + n % 10) as char;
    if n < 10 then [last] else Decimal(n / 10) + [last]
  }

  lemma {:induction false} DigitsValueOfDecimal(n: nat)
    ensures DigitsValue(Decimal(n)) == n
  {
    var s := Decimal(n);
    if n >= 10 {
      DigitsValueOfDecimal(n / 10);
      assert s[..|s| - 1] == Decimal(n / 10);
    }
  }

  lemma {:induction false} DigitPrefixOfDigits(s: string)
    requires AllDigits(s)
    ensures DigitPrefix(s) == s
  {
    if s != [] {
      DigitPrefixOfDigits(s[1..]);
      assert s == [s[0]] + s[1..];
    }
  }

  /** Casting the decimal rendering of an id gives the id back, and a nonzero id renders truthy. */
  lemma IntCastOfDecimal(n: nat)
    ensures IntCast(Decimal(n)) == n
    ensures n != 0 ==> IsTruthy(Decimal(n))
  {
    IntCastOfDigits(Decimal(n));
    DigitsValueOfDecimal(n);
  }

  /** A "-" before the decimal rendering of a number casts to its negation. */
  lemma IntCastOfNegatedDecimal(n: nat)
    ensures IntCast("-" + Decimal(n)) == -(n as int)
  {
    var s := "-" + Decimal(n);
    assert SkipNumericSpace(s) == s;
    assert s[1..] == Decimal(n);
    DigitPrefixOfDigits(Decimal(n));
    DigitsValueOfDecimal(n);
  }

  /** A string with no digit after its whitespace and sign casts to 0. */
  lemma IntCastWithoutDigits(s: string)
    requires var t := SkipNumericSpace(s); t == [] || (!IsDigit(t[0]) && t[0] != '-' && t[0] != '+')
    ensures IntCast(s) == 0
  {
  }
}
