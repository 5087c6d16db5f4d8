/** Positional numerals: the digit strings that Python's integer literals
    (`0b...`, `0x...`), `bin()`, `hex()` and `"%d"` read or write. */
module Numerals {

  /** True when `s` begins with `p` (Python's `str.startswith`). */
  predicate StartsWith(s: string, p: string)
  {
    |p| <= |s| && s[..|p|] == p
  }

  /** The lower-case character of a digit value below 16, as `bin()`,
      `hex()` and `"%d"` write it. */
  function DigitChar(d: nat): (c: char)
    requires d < 16
    ensures CharValue(c) == d
  {
    if d < 10 then ('0' as int + d) as char else ('a' as int + d - 10) as char
  }

  /** The value of a digit character in any base up to 16 (hex letters in
      either case, as Python literals allow); 16 for a character that is no
      digit at all. */
  function CharValue(c: char): nat
  {
    if '0' <= c <= '9' then c as int - '0' as int
    else if 'a' <= c <= 'f' then c as int - 'a' as int + 10
    else if 'A' <= c <= 'F' then c as int - 'A' as int + 10
    else 16
  }

  predicate AllDigits(s: string, base: nat)
  {
    forall i :: 0 <= i < |s| ==> CharValue(s[i]) < base
  }

  /** A non-empty string of digits of `base`: what may follow `0b` or `0x`
      in a Python integer literal. */
  predicate IsNumeral(s: string, base: nat)
  {
    |s| > 0 && AllDigits(s, base)
  }

  /** The number a digit string denotes, most significant digit first. */
  function Value(s: string, base: nat): nat
    requires AllDigits(s, base)
  {
    if |s| == 0 then 0 else Value(s[..|s| - 1], base) * base + CharValue(s[|s| - 1])
  }

  /** The bases the system writes or reads: binary, decimal and hex. */
  predicate IsBase(base: nat)
  {
    base == 2 || base == 10 || base == 16
  }

  lemma DivModDigit(x: nat, base: nat, d: nat)
    requires IsBase(base) && d < base
    ensures (x * base + d) / base == x && (x * base + d) % base == d
  {
  }

  lemma MulAtLeast(x: nat, base: nat)
    requires IsBase(base) && x >= 1
    ensures x * base >= base
  {
  }

  lemma SplitDigit(v: nat, base: nat)
    requires IsBase(base)
    ensures v == (v / base) * base + v % base && v % base < base
    ensures v >= base ==> v / base < v
  {
  }

  /** The canonical digits of `v`: `bin(v)[2:]` for base 2, `hex(v)[2:]` for
      base 16 and `"%d" % v` for base 10. */
  function ToDigits(v: nat, base: nat): (r: string)
    requires IsBase(base)
    ensures IsNumeral(r, base) && Value(r, base) == v
    ensures r[0] == '0' ==> v == 0
    decreases v
  {
    if v < base then [DigitChar(v)]
    else
      SplitDigit(v, base);
      var p := ToDigits(v / base, base);
      var r := p + [DigitChar(v % base)];
      assert r[..|r| - 1] == p;
      r
  }

  /** A numeral as `ToDigits` writes it: lower-case digits and no leading
      zero unless the numeral is `0` itself. */
  predicate Canonical(s: string, base: nat)
  {
    IsNumeral(s, base)
    && (forall i :: 0 <= i < |s| ==> CharValue(s[i]) < 16 && s[i] == DigitChar(CharValue(s[i])))
    && (|s| > 1 ==> s[0] != '0')
  }

  /** A digit string is worth zero exactly when every digit is zero. */
  lemma {:induction false} ValueZero(s: string, base: nat)
    requires IsBase(base) && AllDigits(s, base)
    ensures Value(s, base) == 0 <==> forall i :: 0 <= i < |s| ==> CharValue(s[i]) == 0
  {
    if |s| > 0 {
      var p := s[..|s| - 1];
      ValueZero(p, base);
      assert forall i :: 0 <= i < |p| ==> p[i] == s[i];
      assert Value(p, base) * base == 0 <==> Value(p, base) == 0;
    }
  }

  /** A canonical numeral that does not start with `0` is worth at least one. */
  lemma CanonicalPositive(s: string, base: nat)
    requires IsBase(base) && Canonical(s, base) && s[0] != '0'
    ensures Value(s, base) >= 1
  {
    ValueZero(s, base);
    assert DigitChar(0) == '0';
    assert CharValue(s[0]) != 0;
  }

  /** A number of two or more digits is written as its leading digits, then
      its last digit. */
  lemma ToDigitsStep(x: nat, base: nat, d: nat)
    requires IsBase(base) && x >= 1 && d < base
    ensures ToDigits(x * base + d, base) == ToDigits(x, base) + [DigitChar(d)]
  {
    MulAtLeast(x, base);
    DivModDigit(x, base, d);
  }

  /** A canonical numeral of two or more digits is a canonical numeral
      followed by one more canonical digit. */
  lemma CanonicalInit(s: string, base: nat)
    requires Canonical(s, base) && |s| > 1
    ensures Canonical(s[..|s| - 1], base) && s == s[..|s| - 1] + [s[|s| - 1]]
    ensures CharValue(s[|s| - 1]) < base && s[|s| - 1] == DigitChar(CharValue(s[|s| - 1]))
    ensures Value(s, base) == Value(s[..|s| - 1], base) * base + CharValue(s[|s| - 1])
  {
    var p := s[..|s| - 1];
    assert forall i :: 0 <= i < |p| ==> p[i] == s[i];
  }

  /** Writing the value of a canonical numeral gives the numeral back. */
  lemma {:induction false} ToDigitsOfValue(s: string, base: nat)
    requires IsBase(base) && Canonical(s, base)
    ensures ToDigits(Value(s, base), base) == s
  {
    if |s| == 1 {
      assert Value(s, base) == Value(s[..0], base) * base + CharValue(s[0]);
    } else {
      var p, c := s[..|s| - 1], s[|s| - 1];
      CanonicalInit(s, base);
      ToDigitsOfValue(p, base);
      CanonicalPositive(p, base);
      ToDigitsStep(Value(p, base), base, CharValue(c));
      calc {
        ToDigits(Value(s, base), base);
        ToDigits(Value(p, base) * base + CharValue(c), base);
        ToDigits(Value(p, base), base) + [DigitChar(CharValue(c))];
        p + [c];
      }
    }
  }
}
