/** The tap bit-string and the human-readable polynomial that both
    `gen_verilog` functions build from `(lfsr_len, one_indices)`, walking the
    positions from the top down. */
module TapText {
  import opened Numerals
  import opened Polynomial
  import opened XorText

  /** The indentation step of the generated Verilog. */
  const Indent := "    "

  /** The 80-slash rule above and below the banner comment. */
  function Rule(): string
  {
    seq(80, _ => '/')
  }

  /** Lines of text written one after another. */
  function Join(lines: seq<string>): string
  {
    if |lines| == 0 then "" else Join(lines[..|lines| - 1]) + lines[|lines| - 1]
  }

  /** Joining is also the first line followed by the rest. */
  lemma {:induction false} JoinFront(lines: seq<string>)
    requires |lines| > 0
    ensures Join(lines) == lines[0] + Join(lines[1..])
  {
    if |lines| > 1 {
      var init := lines[..|lines| - 1];
      JoinFront(init);
      assert init[1..] == lines[1..][..|lines[1..]| - 1];
      Associate(lines[0], Join(init[1..]), lines[|lines| - 1]);
    } else {
      assert lines[..0] == [] && lines[1..] == [];
    }
  }

  /** Writing one more line after the first `k`. */
  lemma JoinAppend(head: string, lines: seq<string>, k: nat, text: string, line: string)
    requires k < |lines| && text == head + Join(lines[..k]) && line == lines[k]
    ensures text + line == head + Join(lines[..k + 1])
  {
    assert lines[..k + 1][..k] == lines[..k];
    Associate(head, Join(lines[..k]), lines[k]);
  }

  /** The digit written for position `ii`. */
  function BinChar(taps: seq<nat>, ii: nat): char
  {
    if ii in taps then '1' else '0'
  }

  /** The polynomial term for tap `ii`, `x^(ii+1) + `. */
  function PolyTerm(ii: nat): string
  {
    "x^" + Dec(ii + 1) + " + "
  }

  function TapPolyTerm(taps: seq<nat>, ii: nat): string
  {
    if ii in taps then PolyTerm(ii) else ""
  }

  /** `bin_str` once the loop has visited positions `n - 1` down to `lo`. */
  function BinRange(taps: seq<nat>, lo: nat, n: nat): string
    decreases n - lo
  {
    if lo >= n then "" else BinRange(taps, lo + 1, n) + [BinChar(taps, lo)]
  }

  /** `poly_str` once the loop has visited positions `n - 1` down to `lo`. */
  function PolyRange(taps: seq<nat>, lo: nat, n: nat): string
    decreases n - lo
  {
    if lo >= n then "" else PolyRange(taps, lo + 1, n) + TapPolyTerm(taps, lo)
  }

  /** The tap bit-string `bin_str` (without the `0b` that vgen_rand.py puts
      in front). */
  function BinString(n: nat, taps: seq<nat>): (r: string)
    ensures |r| == n && AllDigits(r, 2)
  {
    BinRangeAt(taps, 0, n);
    BinRange(taps, 0, n)
  }

  /** The polynomial text `poly_str`, ending in the implicit `1`. */
  function PolyString(n: nat, taps: seq<nat>): string
  {
    PolyRange(taps, 0, n) + "1"
  }

  /** The loop of both `gen_verilog` functions that builds `bin_str` and
      `poly_str` by appending, position `lfsr_len - 1` first. */
  method TapStrings(lfsrLen: nat, oneIndices: seq<nat>) returns (binStr: string, polyStr: string)
    ensures binStr == BinString(lfsrLen, oneIndices)
    ensures polyStr == PolyString(lfsrLen, oneIndices)
  {
    binStr, polyStr := "", "";
    var ii: int := lfsrLen - 1;
    while ii >= 0
      invariant -1 <= ii <= lfsrLen - 1
      invariant binStr == BinRange(oneIndices, ii + 1, lfsrLen)
      invariant polyStr == PolyRange(oneIndices, ii + 1, lfsrLen)
    {
      if ii in oneIndices {
        binStr := binStr + "1";
        polyStr := polyStr + ("x^" + Dec(ii + 1) + " + ");
      } else {
        binStr := binStr + "0";
      }
      ii := ii - 1;
    }
    polyStr := polyStr + "1";
  }

  lemma {:induction false} BinRangeAt(taps: seq<nat>, lo: nat, n: nat)
    requires lo <= n
    ensures |BinRange(taps, lo, n)| == n - lo
    ensures forall j :: 0 <= j < n - lo ==> BinRange(taps, lo, n)[j] == BinChar(taps, n - 1 - j)
    decreases n - lo
  {
    if lo < n {
      BinRangeAt(taps, lo + 1, n);
    }
  }

  /** `bin_str` has one digit per cell, and digit j is `'1'` exactly when
      position `n - 1 - j` is a tap. */
  lemma BinStringBits(n: nat, taps: seq<nat>)
    ensures |BinString(n, taps)| == n
    ensures forall j :: 0 <= j < n ==> (BinString(n, taps)[j] == '1' <==> n - 1 - j in taps)
    ensures forall j :: 0 <= j < n ==> BinString(n, taps)[j] in {'0', '1'}
  {
    BinRangeAt(taps, 0, n);
  }

  lemma {:induction false} PolyRangeTop(taps: seq<nat>, lo: nat, n: nat)
    requires lo < n
    ensures PolyRange(taps, lo, n) == TapPolyTerm(taps, n - 1) + PolyRange(taps, lo, n - 1)
    decreases n - lo
  {
    if lo < n - 1 {
      var top, here := TapPolyTerm(taps, n - 1), TapPolyTerm(taps, lo);
      assert PolyRange(taps, lo, n) == PolyRange(taps, lo + 1, n) + here;
      assert PolyRange(taps, lo, n - 1) == PolyRange(taps, lo + 1, n - 1) + here;
      PolyRangeTop(taps, lo + 1, n);
      Associate(top, PolyRange(taps, lo + 1, n - 1), here);
    } else {
      var top := TapPolyTerm(taps, n - 1);
      assert lo == n - 1;
      assert PolyRange(taps, lo, n) == "" + top;
      assert PolyRange(taps, lo, n - 1) == "";
      assert "" + top == top + "";
    }
  }

  lemma {:induction false} PolyRangeSameTaps(taps: seq<nat>, other: seq<nat>, lo: nat, n: nat)
    requires forall ii :: lo <= ii < n ==> (ii in taps <==> ii in other)
    ensures PolyRange(taps, lo, n) == PolyRange(other, lo, n)
    decreases n - lo
  {
    if lo < n {
      PolyRangeSameTaps(taps, other, lo + 1, n);
    }
  }

  /** One polynomial term per tap, in the order of the tap list. */
  function PolyTerms(taps: seq<nat>): string
  {
    if |taps| == 0 then "" else PolyTerm(taps[0]) + PolyTerms(taps[1..])
  }

  /** For a tap list as the parser produces it (strictly decreasing, inside
      the register), `poly_str` is `x^(t+1) + ` for each tap t in list order,
      then `1`. */
  lemma {:induction false} PolyStringOfTaps(n: nat, taps: seq<nat>)
    requires StrictlyDecreasing(taps) && TapsIn(taps, n)
    ensures PolyString(n, taps) == PolyTerms(taps) + "1"
  {
    PolyRangeOfTaps(taps, n);
  }

  /** A decreasing tap list inside `m` cells whose first tap is not the
      top cell lies inside `m - 1` cells. */
  lemma TopNotTap(taps: seq<nat>, m: nat)
    requires 0 < m && StrictlyDecreasing(taps) && TapsIn(taps, m)
    requires |taps| == 0 || taps[0] != m - 1
    ensures m - 1 !in taps && TapsIn(taps, m - 1)
  {
    forall j | 0 <= j < |taps| ensures taps[j] < m - 1 {
      assert taps[j] <= taps[0];
    }
  }

  /** Dropping the top tap of a decreasing tap list leaves a decreasing
      list inside one cell fewer, with the same taps below the top. */
  lemma DropTopTap(taps: seq<nat>, m: nat)
    requires StrictlyDecreasing(taps) && TapsIn(taps, m) && |taps| > 0 && taps[0] == m - 1
    ensures StrictlyDecreasing(taps[1..]) && TapsIn(taps[1..], m - 1)
    ensures forall ii :: 0 <= ii < m - 1 ==> (ii in taps <==> ii in taps[1..])
  {
    var rest := taps[1..];
    assert forall j :: 0 <= j < |rest| ==> rest[j] == taps[j + 1];
    assert TapsIn(rest, m - 1) by {
      forall j | 0 <= j < |rest| ensures rest[j] < m - 1 {
        assert taps[0] > taps[j + 1];
      }
    }
    forall ii | 0 <= ii < m - 1 ensures ii in taps <==> ii in rest {
      if ii in taps {
        var j :| 0 <= j < |taps| && taps[j] == ii;
        assert j > 0;
        assert rest[j - 1] == ii;
      }
    }
  }

  lemma {:induction false} PolyRangeOfTaps(taps: seq<nat>, m: nat)
    requires StrictlyDecreasing(taps) && TapsIn(taps, m)
    ensures PolyRange(taps, 0, m) == PolyTerms(taps)
  {
    if m == 0 {
      assert |taps| == 0;
    } else {
      PolyRangeTop(taps, 0, m);
      if |taps| > 0 && taps[0] == m - 1 {
        var rest := taps[1..];
        DropTopTap(taps, m);
        PolyRangeSameTaps(taps, rest, 0, m - 1);
        PolyRangeOfTaps(rest, m - 1);
        assert TapPolyTerm(taps, m - 1) == PolyTerm(taps[0]);
      } else {
        TopNotTap(taps, m);
        PolyRangeOfTaps(taps, m - 1);
        assert TapPolyTerm(taps, m - 1) == "";
        assert PolyRange(taps, 0, m) == PolyRange(taps, 0, m - 1);
      }
    }
  }

  lemma HeadIn(s: seq<nat>)
    requires |s| > 0
    ensures s[0] in s
  {
  }

  /** Two strictly decreasing lists with the same members are equal. */
  lemma {:induction false} DecreasingUnique(a: seq<nat>, b: seq<nat>)
    requires StrictlyDecreasing(a) && StrictlyDecreasing(b)
    requires forall x :: x in a <==> x in b
    ensures a == b
  {
    if |a| > 0 && |b| > 0 {
      assert a[0] == b[0] by {
        assert a[0] in b && b[0] in a;
      }
      forall x ensures x in a[1..] <==> x in b[1..] {
        if x in a[1..] {
          var j :| 0 < j < |a| && a[j] == x;
          assert x in b;
          var i :| 0 <= i < |b| && b[i] == x;
          assert a[0] > a[j];
          assert i != 0;
          assert b[1..][i - 1] == x;
        }
        if x in b[1..] {
          var i :| 0 < i < |b| && b[i] == x;
          assert x in a;
          var j :| 0 <= j < |a| && a[j] == x;
          assert b[0] > b[i];
          assert j != 0;
          assert a[1..][j - 1] == x;
        }
      }
      DecreasingUnique(a[1..], b[1..]);
      assert a == [a[0]] + a[1..] && b == [b[0]] + b[1..];
    } else if |a| > 0 {
      HeadIn(a);
      assert false;
    } else if |b| > 0 {
      HeadIn(b);
      assert false;
    }
  }

  /** Any well-formed tap list, written as a `0b` literal and parsed again,
      comes back unchanged, width included. */
  lemma ParseOfBinString(n: nat, taps: seq<nat>)
    requires WellFormed(n, taps)
    ensures Parse("0b" + BinString(n, taps)) == Ok(Poly(n, taps))
  {
    var bits := BinString(n, taps);
    BinStringBits(n, taps);
    assert n - 1 - taps[0] < n && bits[n - 1 - taps[0]] == '1';
    assert CharValue(bits[n - 1 - taps[0]]) != 0;
    ValueZero(bits, 2);
    OnesMembership(bits);
    forall x ensures x in Ones(bits, n) <==> x in taps {
      if x in taps {
        assert x < n;
        assert bits[n - 1 - x] == '1';
      }
    }
    DecreasingUnique(Ones(bits, n), taps);
    BinaryWidth(bits);
  }

  /** The tap bit-string of a parsed literal is the binary digits the parser
      indexed (the literal's own for `0b`, `bin()` of its value for `0x`),
      and parsing it as a `0b` literal gives the same polynomial. */
  lemma BinStringRoundTrip(lit: string)
    requires Parse(lit).Ok?
    ensures BinString(Parse(lit).value.lfsrLen, Parse(lit).value.oneIndices) == BinDigits(lit)
    ensures Parse("0b" + BinString(Parse(lit).value.lfsrLen, Parse(lit).value.oneIndices)) == Parse(lit)
  {
    var p := Parse(lit).value;
    var bits := BinDigits(lit);
    ParseResult(lit);
    BinStringBits(p.lfsrLen, p.oneIndices);
    var b := BinString(p.lfsrLen, p.oneIndices);
    forall j | 0 <= j < |bits| ensures b[j] == bits[j] {
      assert bits[|bits| - 1 - (|bits| - 1 - j)] == bits[j];
      assert CharValue(bits[j]) < 2;
    }
    ParseOfBinString(p.lfsrLen, p.oneIndices);
  }
}
