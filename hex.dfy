/**
 * Hexadecimal digits as JavaScript writes and reads them:
 * `Number.prototype.toString(16)`, `parseInt(_, 16)` and the 32-bit `<<`.
 */
module Hex {
  import opened Strings

  function Pow16(n: nat): (r: nat)
    ensures r >= 1
  {
    if n == 0 then 1 else 16 * Pow16(n - 1)
  }

  function Pow2(n: nat): (r: nat)
    ensures r >= 1
  {
    if n == 0 then 1 else 2 * Pow2(n - 1)
  }

  /** The lower-case digit `Number.prototype.toString(16)` writes for `d`. */
  function HexDigit(d: nat): (c: char)
    requires d < 16
    ensures '0' <= c <= '9' || 'a' <= c <= 'f'
  {
    if d < 10 then ('0' as int + d) as char else ('a' as int + d - 10) as char
  }

  /** A character the pattern `[a-f\d]` accepts under the `i` flag. */
  predicate IsHexChar(c: char) {
    '0' <= c <= '9' || 'a' <= c <= 'f' || 'A' <= c <= 'F'
  }

  predicate AllHex(s: string) {
    forall i :: 0 <= i < |s| ==> IsHexChar(s[i])
  }

  /** Only the digits `toString(16)` writes: `0`-`9` and `a`-`f`. */
  predicate AllLowerHex(s: string) {
    forall i :: 0 <= i < |s| ==> '0' <= s[i] <= '9' || 'a' <= s[i] <= 'f'
  }

  /** The value `parseInt(_, 16)` gives one hex digit. */
  function DigitValue(c: char): (d: nat)
    requires IsHexChar(c)
    ensures d < 16
  {
    if '0' <= c <= '9' then c as int - '0' as int
    else if 'a' <= c <= 'f' then c as int - 'a' as int + 10
    else c as int - 'A' as int + 10
  }

  /** Writing a digit's value back gives the digit in lower case. */
  lemma DigitRoundTrip(c: char)
    requires IsHexChar(c)
    ensures HexDigit(DigitValue(c)) == LowerChar(c)
  {
  }

  /** `parseInt(s, 16)` on a string of hex digits. */
  function ParseHex(s: string): (v: nat)
    requires AllHex(s)
    ensures v < Pow16(|s|)
  {
    if |s| == 0 then 0
    else ParseHex(s[..|s| - 1]) * 16 + DigitValue(s[|s| - 1])
  }

  /** `v` written with exactly `width` lower-case hex digits (leading zeros kept). */
  function FixedHex(v: nat, width: nat): (s: string)
    ensures |s| == width && AllLowerHex(s)
  {
    if width == 0 then "" else FixedHex(v / 16, width - 1) + [HexDigit(v % 16)]
  }

  /** `n.toString(16)` for a natural number: no leading zeros, lower case. */
  function HexString(n: nat): (s: string)
    ensures |s| >= 1
    decreases n
  {
    if n < 16 then [HexDigit(n)] else HexString(n / 16) + [HexDigit(n % 16)]
  }

  /** `n.toString(16)` for any integer: a minus sign, then the magnitude. */
  function JsHex(n: int): (s: string)
    ensures |s| >= 1
  {
    if n < 0 then "-" + HexString(-n) else HexString(n)
  }

  /** The 32-bit signed conversion `ToInt32` that JavaScript's `<<` applies. */
  function ToInt32(x: int): (r: int)
    ensures -0x8000_0000 <= r < 0x8000_0000
    ensures -0x8000_0000 <= x < 0x8000_0000 ==> r == x
  {
    (x + 0x8000_0000) % 0x1_0000_0000 - 0x8000_0000
  }

  /** `x << bits` on integers, wrapping to 32 bits. */
  function ShiftLeft(x: int, bits: nat): int
    requires bits < 32
  {
    ToInt32(ToInt32(x) * Pow2(bits))
  }

  /** Reading back a fixed-width encoding gives the value. */
  lemma {:induction false} ParseFixed(v: nat, width: nat)
    requires v < Pow16(width)
    ensures ParseHex(FixedHex(v, width)) == v
  {
    if width > 0 {
      var s := FixedHex(v, width);
      assert s[..|s| - 1] == FixedHex(v / 16, width - 1);
      ParseFixed(v / 16, width - 1);
    }
  }

  /** Writing back a parsed string gives it in lower case. */
  lemma {:induction false} FixedParse(s: string)
    requires AllHex(s)
    ensures FixedHex(ParseHex(s), |s|) == Lower(s)
  {
    if |s| > 0 {
      var init := s[..|s| - 1];
      var p := ParseHex(init);
      var d := DigitValue(s[|s| - 1]);
      assert (p * 16 + d) / 16 == p && (p * 16 + d) % 16 == d;
      FixedParse(init);
      DigitRoundTrip(s[|s| - 1]);
      assert Lower(s) == Lower(init) + [LowerChar(s[|s| - 1])];
    }
  }

  /** Dropping the last hex digit of `x * 16 + m`. */
  lemma ShiftDigit(x: nat, m: nat)
    ensures (x * 16 + m) / 16 == x + m / 16
    ensures (x * 16 + m) % 16 == m % 16
  {
  }

  /** `a * 16^w` is `a * 16^(w-1)` shifted one digit. */
  lemma PowStep(a: nat, w: nat)
    requires w > 0
    ensures a * Pow16(w) == (a * Pow16(w - 1)) * 16
    ensures a * Pow16(w - 1) >= a
  {
  }

  /** Splitting a fixed-width encoding of `n = a * 16^w + m` at a digit boundary. */
  lemma {:induction false} FixedSplit(a: nat, m: nat, v: nat, w: nat, n: nat, width: nat)
    requires m < Pow16(w) && n == a * Pow16(w) + m && width == v + w
    ensures FixedHex(n, width) == FixedHex(a, v) + FixedHex(m, w)
  {
    if w > 0 {
      var high := a * Pow16(w - 1);
      PowStep(a, w);
      assert n == high * 16 + m;
      ShiftDigit(high, m);
      FixedSplit(a, m / 16, v, w - 1, n / 16, width - 1);
      assert FixedHex(m, w) == FixedHex(m / 16, w - 1) + [HexDigit(m % 16)];
    }
  }

  /** `toString(16)` of a number with at least `w + 1` digits ends in `w` fixed digits. */
  lemma {:induction false} HexStringSplit(a: nat, m: nat, w: nat)
    requires a >= 1 && m < Pow16(w)
    ensures HexString(a * Pow16(w) + m) == HexString(a) + FixedHex(m, w)
  {
    if w > 0 {
      var high := a * Pow16(w - 1);
      var n := a * Pow16(w) + m;
      PowStep(a, w);
      assert n == high * 16 + m;
      ShiftDigit(high, m);
      assert n / 16 == high + m / 16 && n % 16 == m % 16;
      assert n >= 16;
      HexStringSplit(a, m / 16, w - 1);
      assert HexString(n) == HexString(n / 16) + [HexDigit(n % 16)];
      assert FixedHex(m, w) == FixedHex(m / 16, w - 1) + [HexDigit(m % 16)];
    }
  }

  lemma PowValues()
    ensures Pow2(8) == 0x100 && Pow2(16) == 0x1_0000
    ensures Pow16(2) == 0x100 && Pow16(4) == 0x1_0000 && Pow16(6) == 0x100_0000
  {
  }
}
