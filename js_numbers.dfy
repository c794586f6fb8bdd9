/**
 * The JavaScript number operations the editor relies on, written out over
 * Dafny's unbounded integers and exact reals: `Number.parseInt(s, 16)`
 * (`%parseInt%`, section 19.2.5 of ECMA-262), the ToInt32 conversion the shift
 * operators apply, and `Math.round`.
 */
module JsNumbers {

  const TwoTo31: int := 0x8000_0000
  const TwoTo32: int := 0x1_0000_0000

  predicate IsHexDigit(c: char) {
    ('0' <= c <= '9') || ('a' <= c <= 'f') || ('A' <= c <= 'F')
  }

  /** Every character of `s` from index `i` up to (not including) `j` is a hexadecimal digit. */
  predicate HexDigitsBetween(s: string, i: nat, j: nat)
    requires i <= j <= |s|
  {
    forall k :: i <= k < j ==> IsHexDigit(s[k])
  }

  function HexDigitValue(c: char): (d: nat)
    requires IsHexDigit(c)
    ensures d < 16
  {
    if '0' <= c <= '9' then c as int - '0' as int
    else if 'a' <= c <= 'f' then c as int - 'a' as int + 10
    else c as int - 'A' as int + 10
  }

  function Pow16(n: nat): (p: nat)
    ensures p >= 1
  {
    if n == 0 then 1 else 16 * Pow16(n - 1)
  }

  /** The number the hexadecimal digits `s[i..j]` denote, most significant digit first. */
  function HexValue(s: string, i: nat, j: nat): (v: nat)
    requires i <= j <= |s| && HexDigitsBetween(s, i, j)
    ensures v < Pow16(j - i)
    decreases j
  {
    if j == i then 0 else 16 * HexValue(s, i, j - 1) + HexDigitValue(s[j - 1])
  }

  /** WhiteSpace and LineTerminator of ECMA-262 (the Zs category spelled out): what parseInt skips first. */
  predicate IsJsWhiteSpace(c: char) {
    var n := c as int;
    n == 0x09 || n == 0x0B || n == 0x0C || n == 0x20 || n == 0xA0 || n == 0xFEFF
    || n == 0x0A || n == 0x0D || n == 0x2028 || n == 0x2029
    || n == 0x1680 || (0x2000 <= n <= 0x200A) || n == 0x202F || n == 0x205F || n == 0x3000
  }

  /** The first index at or after `i` that does not hold white space. */
  function SkipWhiteSpace(s: string, i: nat): (k: nat)
    requires i <= |s|
    ensures i <= k <= |s|
    ensures k < |s| ==> !IsJsWhiteSpace(s[k])
    decreases |s| - i
  {
    if i < |s| && IsJsWhiteSpace(s[i]) then SkipWhiteSpace(s, i + 1) else i
  }

  /** The end of the run of hexadecimal digits starting at `i`: where parseInt stops reading. */
  function HexDigitsEnd(s: string, i: nat): (k: nat)
    requires i <= |s|
    ensures i <= k <= |s|
    ensures HexDigitsBetween(s, i, k)
    ensures k < |s| ==> !IsHexDigit(s[k])
    decreases |s| - i
  {
    if i < |s| && IsHexDigit(s[i]) then HexDigitsEnd(s, i + 1) else i
  }

  /** What `Number.parseInt(s, 16)` can produce: NaN or a whole number (minus zero is read as zero). */
  datatype Parsed = NaN | Num(value: int)

  /**
   * `Number.parseInt(s, 16)`: skip leading white space, read an optional sign,
   * skip an optional `0x`/`0X`, then take the longest run of hexadecimal
   * digits; no digits at all gives NaN.
   */
  function ParseIntHex(s: string): Parsed {
    var t := SkipWhiteSpace(s, 0);
    var negative := t < |s| && s[t] == '-';
    var u := if t < |s| && (s[t] == '-' || s[t] == '+') then t + 1 else t;
    var start := if u + 1 < |s| && s[u] == '0' && (s[u + 1] == 'x' || s[u + 1] == 'X') then u + 2 else u;
    var end := HexDigitsEnd(s, start);
    if end == start then NaN
    else
      var magnitude: int := HexValue(s, start, end);
      Num(if negative then -magnitude else magnitude)
  }

  /** A non-empty string made only of hexadecimal digits parses to the number those digits denote. */
  lemma ParseIntHexOfDigits(s: string)
    requires |s| > 0 && HexDigitsBetween(s, 0, |s|)
    ensures ParseIntHex(s) == Num(HexValue(s, 0, |s|))
  {
    assert IsHexDigit(s[0]);
    assert SkipWhiteSpace(s, 0) == 0;
    assert |s| > 1 ==> IsHexDigit(s[1]);
    HexDigitsEndOfDigits(s, 0);
  }

  lemma {:induction false} HexDigitsEndOfDigits(s: string, i: nat)
    requires i <= |s| && HexDigitsBetween(s, i, |s|)
    ensures HexDigitsEnd(s, i) == |s|
    decreases |s| - i
  {
    if i < |s| {
      HexDigitsEndOfDigits(s, i + 1);
    }
  }

  /**
   * ToInt32 of section 7.1.6 of ECMA-262, which `>>` applies to its left
   * operand: NaN becomes 0, a whole number wraps modulo 2^32 into the signed
   * 32-bit range.
   */
  function ToInt32(p: Parsed): (r: int)
    ensures -TwoTo31 <= r < TwoTo31
    ensures p.NaN? ==> r == 0
    ensures p.Num? ==> (r - p.value) % TwoTo32 == 0
    ensures p.Num? && 0 <= p.value < TwoTo31 ==> r == p.value
  {
    match p
    case NaN => 0
    case Num(v) =>
      var m := v % TwoTo32;
      assert v == (v / TwoTo32) * TwoTo32 + m;
      if m >= TwoTo31 then
        assert (m - TwoTo32) - v == (-(v / TwoTo32) - 1) * TwoTo32;
        m - TwoTo32
      else
        assert m - v == (-(v / TwoTo32)) * TwoTo32;
        m
  }

  /** `Math.round`: the nearest whole number, halves rounded towards +infinity. */
  function MathRound(x: real): (n: int)
    ensures (n as real) - 0.5 <= x < (n as real) + 0.5
  {
    (x + 0.5).Floor
  }

  // ---------------------------------------------------------------------------
  // Exact real arithmetic

  lemma MultiplyPreservesOrder(a: real, b: real, c: real)
    requires a <= b && c > 0.0
    ensures a * c <= b * c
  {
  }

  lemma MultiplyPreservesStrictOrder(a: real, b: real, c: real)
    requires a < b && c > 0.0
    ensures a * c < b * c
  {
  }

  lemma MultiplyReflectsOrder(a: real, b: real, c: real)
    requires a * c <= b * c && c > 0.0
    ensures a <= b
  {
    if a > b {
      MultiplyPreservesStrictOrder(b, a, c);
    }
  }

  lemma MultiplyReflectsStrictOrder(a: real, b: real, c: real)
    requires a * c < b * c && c > 0.0
    ensures a < b
  {
    if a >= b {
      MultiplyPreservesOrder(b, a, c);
    }
  }

  /** `Math.floor(n / d)` on whole numbers with a positive divisor is integer division. */
  lemma FloorOfQuotient(n: int, d: int)
    requires d > 0
    ensures (n as real / d as real).Floor == n / d
  {
    var q, r := n / d, n % d;
    assert n == q * d + r;
    var x := n as real / d as real;
    assert n as real == x * d as real;
    assert (q * d) as real == q as real * d as real;
    assert q as real * d as real <= n as real < (q + 1) as real * d as real;
    MultiplyReflectsStrictOrder(x, (q + 1) as real, d as real);
    MultiplyReflectsOrder(q as real, x, d as real);
  }
}
