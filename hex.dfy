/**
 * The `Hex<T>` debug wrapper of src/hex.rs: `{:?}` of `Hex(v)` writes the literal
 * prefix "0x" and then the value through `LowerHex`, i.e. its lowercase base-16
 * digits without leading zeros ("0" for zero), under the default formatter flags.
 * The wrapped values in the program are `u64`s, so a value is a `nat` here.
 */
module Hex {

  predicate IsHexDigit(c: char) {
    '0' <= c <= '9' || 'a' <= c <= 'f'
  }

  predicate AllHexDigits(s: string) {
    forall i :: 0 <= i < |s| ==> IsHexDigit(s[i])
  }

  /** The digit `LowerHex` writes for `d`. */
  function HexDigit(d: nat): (c: char)
    requires d < 16
    ensures IsHexDigit(c)
    ensures c == '0' <==> d == 0
  {
    if d < 10 then ('0' as int + d) as char else ('a' as int + d - 10) as char
  }

  /** The value of one lowercase hexadecimal digit; inverse of HexDigit. */
  function DigitValue(c: char): (v: nat)
    requires IsHexDigit(c)
    ensures v < 16 && HexDigit(v) == c
  {
    if c <= '9' then c as int - '0' as int else c as int - 'a' as int + 10
  }

  lemma DigitValueOfHexDigit(d: nat)
    requires d < 16
    ensures DigitValue(HexDigit(d)) == d
  {
  }

  /** `LowerHex::fmt` of a non-negative value with default flags. */
  function LowerHex(n: nat): (s: string)
    ensures |s| >= 1 && AllHexDigits(s)
    ensures s[0] == '0' <==> n == 0
    ensures n == 0 ==> s == "0"
    decreases n
  {
    if n < 16 then [HexDigit(n)] else LowerHex(n / 16) + [HexDigit(n % 16)]
  }

  /** `format!("{:?}", Hex(n))`. */
  function DebugHex(n: nat): (s: string)
    ensures |s| >= 3 && s[..2] == "0x"
    ensures AllHexDigits(s[2..])
    ensures s[2] == '0' <==> n == 0
  {
    "0x" + LowerHex(n)
  }

  /** Reading a string of hexadecimal digits back in base 16 (most significant first). */
  function ParseHex(s: string): nat
    requires AllHexDigits(s)
  {
    if s == [] then 0 else ParseHex(s[..|s| - 1]) * 16 + DigitValue(s[|s| - 1])
  }

  /** A canonical `LowerHex` rendering: non-empty, and no leading zero unless it is "0". */
  predicate Canonical(s: string) {
    |s| >= 1 && AllHexDigits(s) && (s[0] == '0' ==> s == "0")
  }

  /** Reading the digits back gives the value that was formatted. */
  lemma {:induction false} ParseLowerHex(n: nat)
    ensures ParseHex(LowerHex(n)) == n
    decreases n
  {
    if n >= 16 {
      ParseLowerHex(n / 16);
      var s := LowerHex(n);
      assert s[..|s| - 1] == LowerHex(n / 16);
      DigitValueOfHexDigit(n % 16);
    }
  }

  /** The debug form round-trips: the digits after "0x" read back as the value. */
  lemma DebugHexRoundTrip(n: nat)
    ensures ParseHex(DebugHex(n)[2..]) == n
  {
    assert DebugHex(n)[2..] == LowerHex(n);
    ParseLowerHex(n);
  }

  /** A leading non-zero digit makes the value at least that digit's value. */
  lemma {:induction false} ParseHexAtLeastLead(s: string)
    requires |s| >= 1 && AllHexDigits(s)
    ensures ParseHex(s) >= DigitValue(s[0])
    decreases |s|
  {
    if |s| > 1 {
      var p := s[..|s| - 1];
      assert p[0] == s[0];
      ParseHexAtLeastLead(p);
    }
  }

  /** Every canonical digit string is the rendering of the value it denotes. */
  lemma {:induction false} LowerHexParse(s: string)
    requires Canonical(s)
    ensures LowerHex(ParseHex(s)) == s
    decreases |s|
  {
    var n := ParseHex(s);
    var last := s[|s| - 1];
    if |s| == 1 {
      assert ParseHex(s[..0]) == 0;
      assert n == DigitValue(last);
    } else {
      var p := s[..|s| - 1];
      assert p[0] == s[0];
      assert s[0] != '0';
      ParseHexAtLeastLead(p);
      assert ParseHex(p) >= 1;
      LowerHexParse(p);
      var v := DigitValue(last);
      assert n == ParseHex(p) * 16 + v;
      assert n / 16 == ParseHex(p) && n % 16 == v;
      assert s == p + [last];
    }
  }

  /** Hence two values render alike exactly when they are equal. */
  lemma DebugHexInjective(m: nat, n: nat)
    ensures DebugHex(m) == DebugHex(n) <==> m == n
  {
    if DebugHex(m) == DebugHex(n) {
      DebugHexRoundTrip(m);
      DebugHexRoundTrip(n);
    }
  }
}
