/** The JavaScript built-ins the storefront scripts lean on, stated over
    `string` (a `seq<char>`): `undefined`/`null` as `Option`, the `\s`
    whitespace class, `trim`, `includes`, `replace`, `parseInt` and
    number-to-string conversion. */
module Js {

  /** A value that may be `undefined` or `null` (`None`). */
  datatype Option<+T> = None | Some(value: T) {
    function GetOr(default: T): T {
      match this
      case Some(v) => v
      case None => default
    }
  }

  /** The characters of the regular-expression class `\s`, which are also
      the characters `String.prototype.trim` and `parseInt` skip. */
  predicate IsSpace(c: char) {
    || ('\U{0009}' <= c <= '\U{000D}')
    || c == ' ' || c == '\U{00A0}' || c == '\U{1680}'
    || ('\U{2000}' <= c <= '\U{200A}')
    || c == '\U{2028}' || c == '\U{2029}' || c == '\U{202F}'
    || c == '\U{205F}' || c == '\U{3000}' || c == '\U{FEFF}'
  }

  predicate IsDigit(c: char) {
    '0' <= c <= '9'
  }

  // ---------------------------------------------------------------------
  // Searching

  predicate StartsWith(s: string, prefix: string) {
    |prefix| <= |s| && s[..|prefix|] == prefix
  }

  /** `s.includes(needle)`. */
  predicate Contains(s: string, needle: string)
    decreases |s|
  {
    StartsWith(s, needle) || (|s| > 0 && Contains(s[1..], needle))
  }

  /** `s.indexOf(needle)`, with `None` for -1. */
  function IndexOf(s: string, needle: string): (r: Option<nat>)
    ensures r.Some? ==> r.value + |needle| <= |s| && s[r.value..r.value + |needle|] == needle
    ensures r.Some? ==> forall j :: 0 <= j < r.value ==> !StartsWith(s[j..], needle)
    ensures r.None? <==> !Contains(s, needle)
    decreases |s|
  {
    if StartsWith(s, needle) then Some(0)
    else if |s| == 0 then None
    else
      match IndexOf(s[1..], needle)
      case None => None
      case Some(i) =>
        assert forall j :: 1 <= j <= i ==> s[j..] == s[1..][j - 1..];
        Some(i + 1)
  }

  /** `s.replace(pattern, replacement)` with a string pattern: only the
      first occurrence is replaced. */
  function ReplaceFirst(s: string, pattern: string, replacement: string): (r: string)
    ensures !Contains(s, pattern) ==> r == s
    ensures Contains(s, pattern) ==>
      exists i :: 0 <= i && i + |pattern| <= |s| && s[i..i + |pattern|] == pattern &&
                  (forall j :: 0 <= j < i ==> !StartsWith(s[j..], pattern)) &&
                  r == s[..i] + replacement + s[i + |pattern|..]
  {
    match IndexOf(s, pattern)
    case None => s
    case Some(i) => s[..i] + replacement + s[i + |pattern|..]
  }

  /** `s.replace(/pattern/g, replacement)` for a literal pattern: the
      leftmost non-overlapping occurrences are replaced. */
  function ReplaceAll(s: string, pattern: string, replacement: string): (r: string)
    requires |pattern| > 0
    ensures !Contains(s, pattern) ==> r == s
    decreases |s|
  {
    if |s| == 0 then s
    else if StartsWith(s, pattern) then replacement + ReplaceAll(s[|pattern|..], pattern, replacement)
    else [s[0]] + ReplaceAll(s[1..], pattern, replacement)
  }

  // ---------------------------------------------------------------------
  // Trimming and text content

  function TrimStart(s: string): (r: string)
    ensures |r| <= |s| && r == s[|s| - |r|..]
    ensures |r| == 0 || !IsSpace(r[0])
    ensures forall i :: 0 <= i < |s| - |r| ==> IsSpace(s[i])
    decreases |s|
  {
    if |s| > 0 && IsSpace(s[0]) then TrimStart(s[1..]) else s
  }

  function TrimEnd(s: string): (r: string)
    ensures |r| <= |s| && r == s[..|r|]
    ensures |r| == 0 || !IsSpace(r[|r| - 1])
    ensures forall i :: |r| <= i < |s| ==> IsSpace(s[i])
    decreases |s|
  {
    if |s| > 0 && IsSpace(s[|s| - 1]) then TrimEnd(s[..|s| - 1]) else s
  }

  /** `s.trim()`. */
  function Trim(s: string): (r: string)
    ensures |r| == 0 || (!IsSpace(r[0]) && !IsSpace(r[|r| - 1]))
  {
    TrimEnd(TrimStart(s))
  }

  /** The text of markup with every tag (from `<` through the next `>`)
      removed: the model's reading of `textContent` for `innerHTML`. */
  function StripTags(html: string): (r: string)
    ensures |r| <= |html|
    ensures forall i :: 0 <= i < |r| ==> r[i] != '<'
    decreases |html|
  {
    if |html| == 0 then []
    else if html[0] == '<' then StripTags(SkipTag(html[1..]))
    else [html[0]] + StripTags(html[1..])
  }

  /** The rest of `s` after the first `>`, or nothing when no tag end follows. */
  function SkipTag(s: string): (r: string)
    ensures |r| <= |s|
    decreases |s|
  {
    if |s| == 0 then []
    else if s[0] == '>' then s[1..]
    else SkipTag(s[1..])
  }

  // ---------------------------------------------------------------------
  // Numbers and their text

  function DigitChar(d: nat): char
    requires d < 10
  {
    ['0', '1', '2', '3', '4', '5', '6', '7', '8', '9'][d]
  }

  function DigitValue(c: char): (d: nat)
    requires IsDigit(c)
    ensures d < 10
  {
    (c as int - '0' as int) as nat
  }

  predicate AllDigits(s: string) {
    forall i :: 0 <= i < |s| ==> IsDigit(s[i])
  }

  /** `String(n)` for a non-negative integer. */
  function NatToString(n: nat): (r: string)
    ensures |r| > 0 && AllDigits(r)
    ensures r[0] != '0' || n == 0
    decreases n
  {
    if n < 10 then [DigitChar(n)] else NatToString(n / 10) + [DigitChar(n % 10)]
  }

  /** `String(i)`. */
  function IntToString(i: int): (r: string)
    ensures |r| > 0
    ensures i >= 0 ==> AllDigits(r)
  {
    if i < 0 then "-" + NatToString(-i) else NatToString(i)
  }

  /** The value of a string of decimal digits. */
  function DigitsValue(s: string): nat
    requires AllDigits(s)
    decreases |s|
  {
    if |s| == 0 then 0 else DigitsValue(s[..|s| - 1]) * 10 + DigitValue(s[|s| - 1])
  }

  /** The longest prefix of `s` made of decimal digits. */
  function LeadingDigits(s: string): (r: string)
    ensures AllDigits(r) && StartsWith(s, r)
    ensures |r| < |s| ==> !IsDigit(s[|r|])
    decreases |s|
  {
    if |s| > 0 && IsDigit(s[0]) then [s[0]] + LeadingDigits(s[1..]) else []
  }

  function ParseDigits(s: string): Option<int> {
    var d := LeadingDigits(s);
    if |d| == 0 then None else Some(DigitsValue(d))
  }

  predicate IsHexDigit(c: char) {
    IsDigit(c) || 'a' <= c <= 'f' || 'A' <= c <= 'F'
  }

  function HexValue(c: char): (d: nat)
    requires IsHexDigit(c)
    ensures d < 16
  {
    if IsDigit(c) then DigitValue(c)
    else if 'a' <= c <= 'f' then (c as int - 'a' as int + 10) as nat
    else (c as int - 'A' as int + 10) as nat
  }

  predicate AllHexDigits(s: string) {
    forall i :: 0 <= i < |s| ==> IsHexDigit(s[i])
  }

  /** The value of a string of hexadecimal digits. */
  function HexDigitsValue(s: string): nat
    requires AllHexDigits(s)
    decreases |s|
  {
    if |s| == 0 then 0 else HexDigitsValue(s[..|s| - 1]) * 16 + HexValue(s[|s| - 1])
  }

  /** The longest prefix of `s` made of hexadecimal digits. */
  function LeadingHexDigits(s: string): (r: string)
    ensures AllHexDigits(r) && StartsWith(s, r)
    ensures |r| < |s| ==> !IsHexDigit(s[|r|])
    decreases |s|
  {
    if |s| > 0 && IsHexDigit(s[0]) then [s[0]] + LeadingHexDigits(s[1..]) else []
  }

  function ParseHexDigits(s: string): Option<int> {
    var d := LeadingHexDigits(s);
    if |d| == 0 then None else Some(HexDigitsValue(d))
  }

  /** The text after the sign starts with `0x` or `0X`. */
  predicate HexPrefixed(t: string) {
    |t| >= 2 && t[0] == '0' && (t[1] == 'x' || t[1] == 'X')
  }

  /** The unsigned part: hexadecimal after a `0x`/`0X` prefix, else decimal. */
  function ParseMagnitude(t: string): Option<int> {
    if HexPrefixed(t) then ParseHexDigits(t[2..]) else ParseDigits(t)
  }

  /** `parseInt(s)` without a radix: leading whitespace skipped, an optional
      sign, then the longest run of hexadecimal digits after a `0x`/`0X`
      prefix, or else of decimal digits; `None` stands for `NaN`. */
  function ParseInt(s: string): Option<int> {
    var t := TrimStart(s);
    if |t| > 0 && t[0] == '-' then
      match ParseMagnitude(t[1..])
      case None => None
      case Some(v) => Some(-v)
    else if |t| > 0 && t[0] == '+' then ParseMagnitude(t[1..])
    else ParseMagnitude(t)
  }

  /** JavaScript truthiness of a string: only `''` is falsy. */
  predicate Truthy(s: string) {
    |s| > 0
  }

  // ---------------------------------------------------------------------
  // Lemmas

  lemma {:induction false} DigitsValueOfNatToString(n: nat)
    ensures DigitsValue(NatToString(n)) == n
    decreases n
  {
    if n >= 10 {
      DigitsValueOfNatToString(n / 10);
      var s := NatToString(n / 10) + [DigitChar(n % 10)];
      assert s[..|s| - 1] == NatToString(n / 10);
    }
  }

  lemma {:induction false} LeadingDigitsOfDigits(s: string)
    requires AllDigits(s)
    ensures LeadingDigits(s) == s
    decreases |s|
  {
    if |s| > 0 {
      LeadingDigitsOfDigits(s[1..]);
    }
  }

  /** `parseInt(String(n)) == n` for every count the scripts print. */
  lemma ParseIntOfNatToString(n: nat)
    ensures ParseInt(NatToString(n)) == Some(n)
  {
    var s := NatToString(n);
    assert !IsSpace(s[0]);
    assert TrimStart(s) == s;
    assert !HexPrefixed(s);
    LeadingDigitsOfDigits(s);
    DigitsValueOfNatToString(n);
  }

  lemma {:induction false} LeadingHexDigitsOfHexDigits(s: string)
    requires AllHexDigits(s)
    ensures LeadingHexDigits(s) == s
    decreases |s|
  {
    if |s| > 0 {
      LeadingHexDigitsOfHexDigits(s[1..]);
    }
  }

  /** Without a radix a `0x` or `0X` prefix selects base sixteen:
      `parseInt('0x' + d)` is the hexadecimal value of the digits `d`, and
      `NaN` when no digit follows the prefix. */
  lemma ParseIntOfHex(x: char, d: string)
    requires x == 'x' || x == 'X'
    requires AllHexDigits(d)
    ensures |d| > 0 ==> ParseInt(['0', x] + d) == Some(HexDigitsValue(d))
    ensures |d| == 0 ==> ParseInt(['0', x] + d) == None
  {
    var s := ['0', x] + d;
    assert !IsSpace(s[0]);
    assert TrimStart(s) == s;
    assert HexPrefixed(s) && s[2..] == d;
    LeadingHexDigitsOfHexDigits(d);
  }
}
