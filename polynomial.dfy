/** The tap polynomial: `parse_polynomial`, which both generators share
    (vgen_rand.py and vgen_lfsr.py carry the same code). */
module Polynomial {
  import opened Numerals

  /** The ways parsing fails: the first assertion (no `0b`/`0x` prefix), the
      `eval` of a literal that is no numeral (it raises), and the second
      assertion (the polynomial is zero). */
  datatype ParseError = MalformedPolynomial | InvalidLiteral | ZeroPolynomial

  datatype Result<T> = Ok(value: T) | Err(error: ParseError)

  /** `(lfsr_len, one_indices)`: the register width and the tap positions,
      counted from the least significant bit, most significant first. */
  datatype Poly = Poly(lfsrLen: nat, oneIndices: seq<nat>)

  /** Every tap addresses a register cell. */
  predicate TapsIn(taps: seq<nat>, n: nat)
  {
    forall j :: 0 <= j < |taps| ==> taps[j] < n
  }

  predicate StrictlyDecreasing(s: seq<nat>)
  {
    forall i, j :: 0 <= i < j < |s| ==> s[i] > s[j]
  }

  /** What every successful parse yields: at least one tap, every tap a cell
      of the register, taps strictly decreasing. */
  predicate WellFormed(n: nat, taps: seq<nat>)
  {
    0 < n && |taps| > 0 && TapsIn(taps, n) && StrictlyDecreasing(taps)
  }

  /** `one_indices` once the loop has looked at the first `k` characters of
      `bits`: the position, counted from the right, of each `'1'` among them. */
  function Ones(bits: string, k: nat): seq<nat>
    requires k <= |bits|
  {
    if k == 0 then [] else Ones(bits, k - 1) + (if bits[k - 1] == '1' then [|bits| - k] else [])
  }

  /** The binary digits that get indexed: a binary literal keeps its own
      digits (leading zeros included), a hex literal is rewritten by `bin()`. */
  function BinDigits(lit: string): string
    requires |lit| >= 2 && IsNumeral(lit[2..], if lit[1] == 'x' then 16 else 2)
  {
    if lit[1] == 'x' then ToDigits(Value(lit[2..], 16), 2) else lit[2..]
  }

  /** What `parse_polynomial` returns for `lit`, or the assertion or `eval`
      failure that stops it. */
  function Parse(lit: string): Result<Poly>
  {
    if !(StartsWith(lit, "0b") || StartsWith(lit, "0x")) then Err(MalformedPolynomial)
    else if !IsNumeral(lit[2..], if lit[1] == 'x' then 16 else 2) then Err(InvalidLiteral)
    else
      var bits := BinDigits(lit);
      if Value(bits, 2) == 0 then Err(ZeroPolynomial)
      else Ok(Poly(|bits|, Ones(bits, |bits|)))
  }

  /** `parse_polynomial` as the source runs it: the two assertions, the hex
      rewrite, and the loop that appends each `'1'` position. */
  method ParsePolynomial(genPoly: string) returns (r: Result<Poly>)
    ensures r == Parse(genPoly)
  {
    if !(StartsWith(genPoly, "0b") || StartsWith(genPoly, "0x")) {
      return Err(MalformedPolynomial);
    }
    var lit := genPoly;
    if StartsWith(lit, "0x") {
      if !IsNumeral(lit[2..], 16) {
        return Err(InvalidLiteral);
      }
      lit := "0b" + ToDigits(Value(lit[2..], 16), 2);
      assert lit[2..] == BinDigits(genPoly);
    } else if !IsNumeral(lit[2..], 2) {
      return Err(InvalidLiteral);
    }
    if Value(lit[2..], 2) == 0 {
      return Err(ZeroPolynomial);
    }
    var binStr := lit[2..];
    var lfsrLen := |binStr|;
    var oneIndices: seq<nat> := [];
    var ii := 0;
    while ii < |binStr|
      invariant 0 <= ii <= |binStr|
      invariant oneIndices == Ones(binStr, ii)
    {
      if binStr[ii] == '1' {
        oneIndices := oneIndices + [lfsrLen - 1 - ii];
      }
      ii := ii + 1;
    }
    return Ok(Poly(lfsrLen, oneIndices));
  }

  /** The taps found among the first `k` characters are strictly decreasing,
      and position `x` is among them exactly when its digit is `'1'`. */
  lemma {:induction false} OnesFacts(bits: string, k: nat)
    requires k <= |bits|
    ensures StrictlyDecreasing(Ones(bits, k))
    ensures forall j :: 0 <= j < |Ones(bits, k)| ==> |bits| - k <= Ones(bits, k)[j] < |bits|
    ensures forall x :: x in Ones(bits, k) <==> |bits| - k <= x < |bits| && bits[|bits| - 1 - x] == '1'
  {
    if k > 0 {
      OnesFacts(bits, k - 1);
    }
  }

  /** The places where the string has a `'1'`, in terms of the full tap list. */
  lemma OnesMembership(bits: string)
    ensures TapsIn(Ones(bits, |bits|), |bits|) && StrictlyDecreasing(Ones(bits, |bits|))
    ensures forall x: nat :: x in Ones(bits, |bits|) <==> x < |bits| && bits[|bits| - 1 - x] == '1'
  {
    OnesFacts(bits, |bits|);
  }

  /** A binary numeral that is not zero has a `'1'` digit. */
  lemma NonZeroHasOne(bits: string)
    requires IsNumeral(bits, 2) && Value(bits, 2) != 0
    ensures exists i :: 0 <= i < |bits| && bits[i] == '1'
  {
    ValueZero(bits, 2);
    var i :| 0 <= i < |bits| && CharValue(bits[i]) != 0;
    assert CharValue(bits[i]) == 1;
  }

  /** Parsing fails exactly on a missing prefix, a literal `eval` rejects and
      a zero value (for `0x`, the value of the hex digits, which `bin()`
      keeps); a successful parse has at least one tap, all of them
      distinct cells of the register listed from the top down, and tap `x`
      is present exactly when binary digit `lfsrLen - 1 - x` is `'1'`. */
  lemma {:induction false} ParseResult(lit: string)
    ensures Parse(lit) == Err(MalformedPolynomial) <==> !(StartsWith(lit, "0b") || StartsWith(lit, "0x"))
    ensures StartsWith(lit, "0b") || StartsWith(lit, "0x") ==>
      var base := if StartsWith(lit, "0x") then 16 else 2;
      (Parse(lit) == Err(InvalidLiteral) <==> !IsNumeral(lit[2..], base))
      && (Parse(lit) == Err(ZeroPolynomial) <==> IsNumeral(lit[2..], base) && Value(lit[2..], base) == 0)
    ensures Parse(lit).Ok? ==>
      var p := Parse(lit).value;
      var bits := BinDigits(lit);
      p.lfsrLen == |bits| && WellFormed(p.lfsrLen, p.oneIndices)
      && forall x: nat :: x in p.oneIndices <==> x < |bits| && bits[|bits| - 1 - x] == '1'
  {
    if StartsWith(lit, "0b") || StartsWith(lit, "0x") {
      assert lit[1] == lit[..2][1];
      var base := if lit[1] == 'x' then 16 else 2;
      if IsNumeral(lit[2..], base) && lit[1] == 'x' {
        assert Value(BinDigits(lit), 2) == Value(lit[2..], 16);
      }
    }
    if Parse(lit).Ok? {
      var bits := BinDigits(lit);
      OnesMembership(bits);
      NonZeroHasOne(bits);
      var i :| 0 <= i < |bits| && bits[i] == '1';
      assert bits[|bits| - 1 - (|bits| - 1 - i)] == '1';
      assert |bits| - 1 - i in Parse(lit).value.oneIndices;
    }
  }

  /** A binary literal keeps its leading zeros: the width is the number of
      digits written after `0b`, whatever their value. */
  lemma BinaryWidth(digits: string)
    requires IsNumeral(digits, 2) && Value(digits, 2) != 0
    ensures Parse("0b" + digits) == Ok(Poly(|digits|, Ones(digits, |digits|)))
  {
    var lit := "0b" + digits;
    assert lit[..2] == "0b" && lit[1] == 'b';
    assert lit[2..] == digits;
  }

  /** A hex literal is canonicalised by `bin()`: the width is the bit length
      of its value, so the top cell is always a tap. */
  lemma {:induction false} HexWidth(digits: string)
    requires IsNumeral(digits, 16) && Value(digits, 16) != 0
    ensures Parse("0x" + digits).Ok? && Parse("0x" + digits).value.oneIndices != []
    ensures Parse("0x" + digits).value.lfsrLen == |ToDigits(Value(digits, 16), 2)|
    ensures Parse("0x" + digits).value.oneIndices[0] == Parse("0x" + digits).value.lfsrLen - 1
  {
    var lit := "0x" + digits;
    assert lit[2..] == digits;
    var bits := ToDigits(Value(digits, 16), 2);
    assert BinDigits(lit) == bits;
    ParseResult(lit);
    var p := Parse(lit).value;
    assert CharValue(bits[0]) < 2 && bits[0] != '0';
    assert bits[|bits| - 1 - (|bits| - 1)] == '1';
    assert |bits| - 1 in p.oneIndices;
    var j :| 0 <= j < |p.oneIndices| && p.oneIndices[j] == |bits| - 1;
  }
}
