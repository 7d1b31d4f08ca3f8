/**
 * The JavaScript built-ins the two editors call on strings and numbers,
 * written out with their ECMAScript semantics: `String.prototype.trim`,
 * `String.prototype.slice`, the global `parseInt` and the remainder
 * operator `%`.
 */
module JsText {
  import opened Basics

  /** The ECMAScript WhiteSpace and LineTerminator code points: what `trim` removes. */
  predicate IsJsSpace(c: char) {
    c == '\t' || c == '\n' || c == '\U{000B}' || c == '\U{000C}' || c == '\r' || c == ' '
    || c == '\U{00A0}' || c == '\U{1680}' || ('\U{2000}' <= c <= '\U{200A}')
    || c == '\U{2028}' || c == '\U{2029}' || c == '\U{202F}' || c == '\U{205F}'
    || c == '\U{3000}' || c == '\U{FEFF}'
  }

  /** Every character of `s` is white space. */
  predicate Blank(s: string) {
    forall i | 0 <= i < |s| :: IsJsSpace(s[i])
  }

  /** `s.trimStart()`: drops the leading white space and nothing else. */
  function TrimStart(s: string): (r: string)
    ensures |r| <= |s| && r == s[|s| - |r|..]
    ensures forall i | 0 <= i < |s| - |r| :: IsJsSpace(s[i])
    ensures r == [] || !IsJsSpace(r[0])
  {
    if s != [] && IsJsSpace(s[0]) then TrimStart(s[1..]) else s
  }

  /** `s.trimEnd()`: drops the trailing white space and nothing else. */
  function TrimEnd(s: string): (r: string)
    ensures |r| <= |s| && r == s[..|r|]
    ensures forall i | |r| <= i < |s| :: IsJsSpace(s[i])
    ensures r == [] || !IsJsSpace(r[|r| - 1])
  {
    if s != [] && IsJsSpace(s[|s| - 1]) then TrimEnd(s[..|s| - 1]) else s
  }

  /** `s.trim()`. */
  function Trim(s: string): string {
    TrimEnd(TrimStart(s))
  }

  /** `!s.trim()` holds exactly for the strings made only of white space. */
  lemma TrimEmptyIffBlank(s: string)
    ensures Trim(s) == [] <==> Blank(s)
  {
    var t := TrimStart(s);
    if Blank(s) {
      assert t == [];
    }
    if Trim(s) == [] {
      assert t == [];
    }
  }

  /** `s.slice(a, b)` for non-negative bounds `a <= b`: clipped to the string. */
  function Slice(s: string, a: nat, b: nat): (r: string)
    requires a <= b
    ensures |r| == (if b <= |s| then b else |s|) - (if a <= |s| then a else |s|)
    ensures forall k | 0 <= k < |r| :: r[k] == s[a + k]
  {
    var lo := if a <= |s| then a else |s|;
    var hi := if b <= |s| then b else |s|;
    s[lo..hi]
  }

  /** The value of `c` as a digit in bases up to 36, or 36 when it is no digit. */
  function DigitValue(c: char): (v: nat)
    ensures v <= 36
    ensures v < 36 <==> ('0' <= c <= '9' || 'a' <= c <= 'z' || 'A' <= c <= 'Z')
  {
    if '0' <= c <= '9' then c as int - '0' as int
    else if 'a' <= c <= 'z' then c as int - 'a' as int + 10
    else if 'A' <= c <= 'Z' then c as int - 'A' as int + 10
    else 36
  }

  /** The number of leading characters of `s` that are digits in `radix`. */
  function DigitRun(s: string, radix: nat): (n: nat)
    ensures n <= |s|
    ensures forall i | 0 <= i < n :: DigitValue(s[i]) < radix
    ensures n == |s| || DigitValue(s[n]) >= radix
  {
    if s != [] && DigitValue(s[0]) < radix then 1 + DigitRun(s[1..], radix) else 0
  }

  /** The value of a string of digits in `radix`, most significant first. */
  function DigitsValue(s: string, radix: nat): nat
  {
    if s == [] then 0
    else DigitsValue(s[..|s| - 1], radix) * radix
         + (if DigitValue(s[|s| - 1]) < radix then DigitValue(s[|s| - 1]) else 0)
  }

  /**
   * `parseInt(s, radix)`, with `radix == 0` standing for an absent radix.
   * Leading white space and one sign are skipped; with radix 16 or no radix
   * a `0x`/`0X` prefix is skipped (and an absent radix becomes 16 then, 10
   * otherwise); the longest run of digits that follows is read. `None` is NaN:
   * no digit at all.
   */
  function ParseInt(s: string, radix: nat): Option<int>
    requires radix == 0 || 2 <= radix <= 36
  {
    var t := TrimStart(s);
    var negative := t != [] && t[0] == '-';
    var u := if t != [] && (t[0] == '-' || t[0] == '+') then t[1..] else t;
    var prefixed := (radix == 0 || radix == 16) && |u| >= 2 && u[0] == '0' && (u[1] == 'x' || u[1] == 'X');
    var base := if prefixed then 16 else if radix == 0 then 10 else radix;
    var digits := if prefixed then u[2..] else u;
    var n := DigitRun(digits, base);
    if n == 0 then None
    else
      var v: int := DigitsValue(digits[..n], base);
      Some(if negative then -v else v)
  }

  /** `parseInt` without a radix reads a run of decimal digits as its value. */
  lemma ParseDecimal(s: string)
    requires s != [] && forall i | 0 <= i < |s| :: '0' <= s[i] <= '9'
    ensures ParseInt(s, 0) == Some(DigitsValue(s, 10))
  {
    DecimalRun(s);
    assert s[..|s|] == s;
    assert TrimStart(s) == s by {
      assert !IsJsSpace(s[0]);
    }
    assert !(s[0] == '-' || s[0] == '+');
    assert !(|s| >= 2 && s[0] == '0' && (s[1] == 'x' || s[1] == 'X'));
  }

  /** `parseInt` without a radix reads a minus sign followed by decimal digits as the negated value. */
  lemma ParseNegativeDecimal(s: string)
    requires |s| >= 2 && s[0] == '-' && forall i | 1 <= i < |s| :: '0' <= s[i] <= '9'
    ensures ParseInt(s, 0) == Some(-(DigitsValue(s[1..], 10) as int))
  {
    var u := s[1..];
    DecimalRun(u);
    assert u[..|u|] == u;
    assert TrimStart(s) == s by {
      assert !IsJsSpace(s[0]);
    }
    assert !(|u| >= 2 && u[0] == '0' && (u[1] == 'x' || u[1] == 'X'));
  }

  lemma {:induction false} DecimalRun(s: string)
    requires forall i | 0 <= i < |s| :: '0' <= s[i] <= '9'
    ensures DigitRun(s, 10) == |s|
  {
    if s != [] {
      DecimalRun(s[1..]);
    }
  }

  /** The lower-case hexadecimal digit for `d < 16`. */
  function HexDigit(d: nat): (c: char)
    requires d < 16
    ensures DigitValue(c) == d
    ensures '0' <= c <= '9' || 'a' <= c <= 'f'
  {
    if d < 10 then ('0' as int + d) as char else ('a' as int + d - 10) as char
  }

  /** The two lower-case hexadecimal digits of a byte, as an `<input type="color">` writes them. */
  function HexByte(b: nat): (s: string)
    requires b < 256
  {
    [HexDigit(b / 16), HexDigit(b % 16)]
  }

  lemma ParseHexByte(b: nat)
    requires b < 256
    ensures ParseInt(HexByte(b), 16) == Some(b)
  {
    var s := HexByte(b);
    var hi, lo := HexDigit(b / 16), HexDigit(b % 16);
    assert s == [hi, lo];
    assert TrimStart(s) == s by {
      assert !IsJsSpace(s[0]);
    }
    assert !(s[0] == '-' || s[0] == '+');
    assert !(s[1] == 'x' || s[1] == 'X');
    assert DigitRun(s, 16) == 2 by {
      assert s[1..] == [lo] && [lo][1..] == [];
    }
    assert s[..2] == s;
    assert DigitsValue(s, 16) == b by {
      assert s[..1] == [hi] && [hi][..0] == [];
      assert DigitsValue([hi], 16) == b / 16;
    }
  }

  /** JavaScript's `a % b` for a positive divisor: the remainder takes the sign of `a`. */
  function JsRem(a: int, b: int): (r: int)
    requires b > 0
    ensures a >= 0 ==> 0 <= r < b
    ensures a < 0 ==> -b < r <= 0
    ensures (a - r) % b == 0
  {
    if a >= 0 then
      RemainderDivides(a, b);
      a % b
    else
      RemainderDivides(-a, b);
      assert a - -((-a) % b) == -((-a) - (-a) % b);
      NegatedMultiple(-a - (-a) % b, b);
      -((-a) % b)
  }

  /** Taking away the remainder leaves a multiple of the divisor. */
  lemma RemainderDivides(a: int, b: int)
    requires a >= 0 && b > 0
    ensures (a - a % b) % b == 0
  {
    var q := a / b;
    assert a - a % b == b * q;
    MultipleMod(q, b);
  }

  /** A multiple of `b` leaves no remainder. */
  lemma MultipleMod(q: int, b: int)
    requires b > 0
    ensures (b * q) % b == 0
  {
    var r := (b * q) % b;
    var t := (b * q) / b;
    var d := q - t;
    assert b * d == r by {
      assert b * q == b * t + r;
      assert b * d == b * q - b * t;
    }
    if d >= 1 {
      MulNonneg(b, d - 1);
    } else if d <= -1 {
      MulNonneg(b, -d - 1);
    }
  }

  lemma MulNonneg(x: int, y: int)
    requires x >= 0 && y >= 0
    ensures x * y >= 0
  {
  }

  /** The negation of a multiple is a multiple. */
  lemma NegatedMultiple(m: int, b: int)
    requires b > 0 && m % b == 0
    ensures (-m) % b == 0
  {
    var q := m / b;
    assert m == b * q;
    assert -m == b * (-q);
    MultipleMod(-q, b);
  }
}
