/** The text of the combinational module that vgen_rand.py's `gen_verilog`
    writes: one `assign` per output bit, each the XOR of the seed bits in
    that bit's term. A reader for the assign block shows that it has one
    line per term, that line `ww` drives `out[ww]` from each seed bit of
    term `ww` exactly once, and hence that output bit `ww` is cycle `ww`'s
    feedback bit of the clocked register loaded with the seed. */
module RandEmitter {
  import opened Numerals
  import opened Gf2
  import opened Polynomial
  import opened XorText
  import opened TapText
  import opened Expander
  import opened Sequential
  import opened Equivalence

  /** Python's `hex(v)`. */
  function Hex(v: nat): string
  {
    "0x" + ToDigits(v, 16)
  }

  /** `suffix_str`: `hex(eval(bin_str))` for the suffix `"hex"`, otherwise
      `bin_str` itself, `0b` included. */
  function SuffixString(n: nat, taps: seq<nat>, suffix: string): string
  {
    var bits := BinString(n, taps);
    if suffix == "hex" then Hex(Value(bits, 2)) else "0b" + bits
  }

  /** `prefix_rand_<lfsr_len>_<len(rand_out)>_<suffix_str>`, the module name
      and (with `.v`) the file name. */
  function ModuleName(prefix: string, n: nat, w: nat, suffixStr: string): string
  {
    prefix + "_rand_" + Dec(n) + "_" + Dec(w) + "_" + suffixStr
  }

  /** The banner comment, which names both widths and the polynomial. */
  function Banner(w: nat, n: nat, polyStr: string): string
  {
    Rule() + "\n"
    + "///// Generated code. Don't modify! \n"
    + "///// Author: Anh Tran (Andrew) \n"
    + "///// This module parallelly computes a " + Dec(w) + "-bit pseudo random output from " + Dec(n) + "-bit input seed \n"
    + "///// based on the LFSR polynomial: " + polyStr + " \n"
    + Rule() + "\n"
  }

  /** The module header and port list. */
  function Ports(name: string, n: nat, w: nat): string
  {
    "module " + name + " (\n"
    + Indent + "input [" + Dec(n) + "-1:0]   seed, \n"
    + Indent + "output [" + Dec(w) + "-1:0]  out\n"
    + Indent + ");\n\n"
  }

  /** Every term can be written: it names at least one seed bit (the source
      reads `list(rand_out[ww])[0]`), and only bits of the seed. */
  predicate Renderable(randOut: seq<Term>, n: nat)
  {
    forall k :: 0 <= k < |randOut| ==> randOut[k] != {} && forall x :: x in randOut[k] ==> x < n
  }

  lemma AscendingNonEmpty(t: Term, n: nat)
    requires t != {} && forall x :: x in t ==> x < n
    ensures |Ascending(t, n)| > 0
  {
    var x :| x in t;
    AscendingMembers(t, n);
    assert x in Ascending(t, n);
  }

  const AssignIntro := Indent + "assign "

  /** `assign out[ww] = seed[i] ^ seed[j] ^ ...;` over the listed bits. */
  function AssignLine(ww: nat, idx: seq<nat>): string
    requires |idx| > 0
  {
    AssignIntro + Ref("out", ww) + " = " + Chain("seed", idx) + ";\n"
  }

  /** The assign line for output `ww` of `randOut`: its term's bits in
      ascending order. */
  function OutputLine(randOut: seq<Term>, n: nat, ww: nat): string
    requires ww < |randOut| && Renderable(randOut, n)
  {
    AscendingNonEmpty(randOut[ww], n);
    AssignLine(ww, Ascending(randOut[ww], n))
  }

  /** The assign lines, one per output. */
  function OutputLines(randOut: seq<Term>, n: nat): (r: seq<string>)
    requires Renderable(randOut, n)
    ensures |r| == |randOut|
    ensures forall ww :: 0 <= ww < |r| ==> r[ww] == OutputLine(randOut, n, ww)
  {
    seq(|randOut|, ww requires 0 <= ww < |randOut| => OutputLine(randOut, n, ww))
  }

  /** The whole file `gen_verilog(rand_out, lfsr_len, one_indices, prefix,
      suffix)` writes. */
  function RandCode(randOut: seq<Term>, n: nat, taps: seq<nat>, prefix: string, suffix: string): string
    requires Renderable(randOut, n)
  {
    Banner(|randOut|, n, PolyString(n, taps))
    + Ports(ModuleName(prefix, n, |randOut|, SuffixString(n, taps, suffix)), n, |randOut|)
    + Join(OutputLines(randOut, n))
    + "\nendmodule\n"
  }

  /** The seed bits of `t` below `n`. */
  function Below(t: Term, n: nat): Term
  {
    set x | x in t && x < n
  }

  lemma BelowStep(t: Term, n: nat)
    requires n > 0
    ensures n - 1 !in Below(t, n - 1)
    ensures n - 1 in t ==> Below(t, n) == Below(t, n - 1) + {n - 1}
    ensures n - 1 !in t ==> Below(t, n) == Below(t, n - 1)
  {
  }

  lemma {:induction false} AscendingCardBelow(t: Term, n: nat)
    ensures |Ascending(t, n)| == |Below(t, n)|
  {
    if n > 0 {
      AscendingCardBelow(t, n - 1);
      BelowStep(t, n);
    } else {
      assert Below(t, 0) == {};
    }
  }

  /** Listing a term in ascending order names each of its bits once:
      `len(rand_out[ww])` is the length of the list. */
  lemma AscendingCard(t: Term, n: nat)
    requires forall x :: x in t ==> x < n
    ensures |Ascending(t, n)| == |t|
  {
    AscendingCardBelow(t, n);
    assert Below(t, n) == t;
  }

  lemma {:induction false} AscendingValueBelow(t: Term, n: nat, seed: Bits)
    requires n <= |seed|
    ensures TapsIn(Ascending(t, n), |seed|)
    ensures Fb(seed, Ascending(t, n)) == Eval(Below(t, n), seed)
  {
    if n == 0 {
      assert Below(t, 0) == {};
      EvalEmpty(seed);
    } else {
      var a := Ascending(t, n - 1);
      AscendingValueBelow(t, n - 1, seed);
      BelowStep(t, n);
      if n - 1 in t {
        assert Ascending(t, n) == a + [n - 1];
        FbSnoc(seed, a, n - 1);
        EvalAddOne(Below(t, n - 1), n - 1, seed);
      } else {
        assert Ascending(t, n) == a;
      }
    }
  }

  /** The XOR the generated chain computes is the value of the term. */
  lemma AscendingValue(t: Term, n: nat, seed: Bits)
    requires |seed| == n && forall x :: x in t ==> x < n
    ensures TapsIn(Ascending(t, n), n)
    ensures Fb(seed, Ascending(t, n)) == Eval(t, seed)
  {
    AscendingValueBelow(t, n, seed);
    assert Below(t, n) == t;
  }

  /** One pass of the source's output loop: `list(rand_out[ww])` (here in
      ascending order), then `out[ww]` from its first seed bit and
      `" ^ seed[i]"` for each further one, `len(rand_out[ww])` in all. */
  method WriteAssign(ww: nat, t: Term, n: nat) returns (line: string)
    requires t != {} && forall x :: x in t ==> x < n
    ensures |Ascending(t, n)| > 0 && line == AssignLine(ww, Ascending(t, n))
  {
    var elems := Ascending(t, n);
    AscendingNonEmpty(t, n);
    line := AppendChain(AssignIntro + Ref("out", ww) + " = ", "seed", elems);
    line := line + ";\n";
  }

  /** vgen_rand.py's `gen_verilog` without the file write: the file name and
      the text, one assign line per output. The source evaluates `bin_str`
      for the `"hex"` suffix, which fails for an empty register. */
  method GenVerilog(randOut: seq<Term>, lfsrLen: nat, oneIndices: seq<nat>, prefix: string, suffix: string)
    returns (filename: string, code: string)
    requires Renderable(randOut, lfsrLen)
    requires suffix == "hex" ==> lfsrLen > 0
    ensures filename == ModuleName(prefix, lfsrLen, |randOut|, SuffixString(lfsrLen, oneIndices, suffix)) + ".v"
    ensures code == RandCode(randOut, lfsrLen, oneIndices, prefix, suffix)
  {
    var bits, polyStr := TapStrings(lfsrLen, oneIndices);
    var binStr := "0b" + bits;
    assert binStr[2..] == bits;
    var suffixStr;
    if suffix == "hex" {
      suffixStr := Hex(Value(binStr[2..], 2));
    } else {
      suffixStr := binStr;
    }
    assert suffixStr == SuffixString(lfsrLen, oneIndices, suffix);
    var name := prefix + "_rand_" + Dec(lfsrLen) + "_" + Dec(|randOut|) + "_" + suffixStr;
    filename := name + ".v";
    code := Banner(|randOut|, lfsrLen, polyStr);
    code := code + Ports(name, lfsrLen, |randOut|);
    code := AppendAssigns(code, randOut, lfsrLen);
    code := code + "\nendmodule\n";
  }

  /** The output loop of `gen_verilog`: one assign line per term, appended
      to the text so far in output order. */
  method AppendAssigns(head: string, randOut: seq<Term>, n: nat) returns (code: string)
    requires Renderable(randOut, n)
    ensures code == head + Join(OutputLines(randOut, n))
  {
    code := head;
    ghost var lines := OutputLines(randOut, n);
    assert lines[..0] == [];
    var ww := 0;
    while ww < |randOut|
      invariant 0 <= ww <= |randOut|
      invariant code == head + Join(lines[..ww])
    {
      var line := WriteAssign(ww, randOut[ww], n);
      assert line == lines[ww];
      JoinAppend(head, lines, ww, code, line);
      code := code + line;
      ww := ww + 1;
    }
    assert lines[..|randOut|] == lines;
  }

  /** Reads one `assign out[<d>] = <chain over seed>;` line at the start of
      `s`: the output index, the seed indices in order, and what follows. */
  function ParseAssign(s: string): (r: Option<(nat, seq<nat>, string)>)
    ensures r.Some? ==> |r.value.2| < |s|
  {
    if !StartsWith(s, AssignIntro) then None
    else
      match ParseRef("out", s[|AssignIntro|..])
      case None => None
      case Some((ww, r1)) =>
        if !StartsWith(r1, " = ") then None
        else
          match ParseChain("seed", r1[3..])
          case None => None
          case Some((idx, r2)) =>
            if !StartsWith(r2, ";\n") then None else Some((ww, idx, r2[2..]))
  }

  /** Reads as many assign lines as follow. */
  function ParseAssigns(s: string): (seq<(nat, seq<nat>)>, string)
    decreases |s|
  {
    match ParseAssign(s)
    case None => ([], s)
    case Some((ww, idx, rest)) =>
      var (more, after) := ParseAssigns(rest);
      ([(ww, idx)] + more, after)
  }

  /** What the lines for outputs `lo` onwards say: each output index with
      the seed bits of its term, ascending. */
  function Listing(randOut: seq<Term>, n: nat, lo: nat): (r: seq<(nat, seq<nat>)>)
    requires lo <= |randOut|
    ensures |r| == |randOut| - lo
    ensures forall j :: 0 <= j < |randOut| - lo ==> r[j] == (lo + j, Ascending(randOut[lo + j], n))
    decreases |randOut| - lo
  {
    if lo == |randOut| then [] else [(lo, Ascending(randOut[lo], n))] + Listing(randOut, n, lo + 1)
  }

  lemma AssignLineReadBack(ww: nat, idx: seq<nat>, r: string)
    requires |idx| > 0
    ensures ParseAssign(AssignLine(ww, idx) + r) == Some((ww, idx, r))
  {
    var s := AssignLine(ww, idx) + r;
    var tail := ";\n" + r;
    var r1 := " = " + (Chain("seed", idx) + tail);
    assert s == AssignIntro + (Ref("out", ww) + r1);
    assert s[|AssignIntro|..] == Ref("out", ww) + r1;
    ParseRefOf("out", ww, r1);
    assert r1[3..] == Chain("seed", idx) + tail;
    assert tail[0] != (" ^ ")[0];
    ParseChainOf("seed", idx, tail);
    assert tail[2..] == r;
  }

  /** Reading the assign block from line `lo` on: line `lo`'s entry, then
      what the lines after it read as. */
  lemma AssignsStep(randOut: seq<Term>, n: nat, lo: nat, r: string)
    requires lo < |randOut| && Renderable(randOut, n)
    ensures
      var lines := OutputLines(randOut, n);
      var more := ParseAssigns(Join(lines[lo + 1..]) + r);
      ParseAssigns(Join(lines[lo..]) + r) == ([(lo, Ascending(randOut[lo], n))] + more.0, more.1)
  {
    var lines := OutputLines(randOut, n);
    JoinFront(lines[lo..]);
    assert lines[lo..][1..] == lines[lo + 1..];
    var rest := Join(lines[lo + 1..]) + r;
    Associate(lines[lo], Join(lines[lo + 1..]), r);
    var idx := Ascending(randOut[lo], n);
    AscendingNonEmpty(randOut[lo], n);
    assert lines[lo] == AssignLine(lo, idx);
    AssignLineReadBack(lo, idx, rest);
  }

  /** Reading back the assign lines from output `lo` on gives one entry per
      output, in output order, and leaves the text after them untouched. */
  lemma {:induction false} AssignsReadBack(randOut: seq<Term>, n: nat, lo: nat, r: string)
    requires lo <= |randOut| && Renderable(randOut, n)
    requires !StartsWith(r, AssignIntro)
    ensures ParseAssigns(Join(OutputLines(randOut, n)[lo..]) + r) == (Listing(randOut, n, lo), r)
    decreases |randOut| - lo
  {
    var lines := OutputLines(randOut, n);
    if lo == |randOut| {
      assert lines[lo..] == [];
      assert Join(lines[lo..]) + r == r;
    } else {
      AssignsStep(randOut, n, lo, r);
      AssignsReadBack(randOut, n, lo + 1, r);
    }
  }

  /** `gen_random` only produces terms that can be written. */
  lemma ScheduleRenderable(n: nat, taps: seq<nat>, w: nat)
    requires WellFormed(n, taps)
    ensures |Schedule(n, taps, w)| == w && Renderable(Schedule(n, taps, w), n)
  {
    TermsNonEmpty(n, taps, w);
    TermsInRange(n, taps, w);
  }

  /** An assign line, as read back, drives output `ww`, lists each seed bit
      of `term` exactly once, in ascending order, and XORs on `seed` to the
      bit the clocked register with these taps feeds back in cycle `ww`. */
  ghost predicate DrivesCycle(entry: (nat, seq<nat>), ww: nat, term: Term, seed: Bits, taps: seq<nat>)
    requires |seed| > 0 && TapsIn(taps, |seed|)
  {
    entry.0 == ww
    && StrictlyIncreasing(entry.1)
    && (forall x :: x in entry.1 <==> x in term)
    && TapsIn(entry.1, |seed|)
    && Fb(seed, entry.1) == Fb(Run(seed, taps, ww), taps)
  }

  /** The promise of the generated module: it has exactly `w` assigns, the
      one for `out[ww]` XORs each seed bit of term `ww` exactly once, and on
      any seed that XOR is the bit the clocked register with the same taps
      feeds back in cycle `ww` after loading the seed. */
  lemma OutputsMatchLfsr(n: nat, taps: seq<nat>, w: nat, seed: Bits)
    requires WellFormed(n, taps) && |seed| == n
    ensures |Schedule(n, taps, w)| == w && Renderable(Schedule(n, taps, w), n)
    ensures
      var p := ParseAssigns(Join(OutputLines(Schedule(n, taps, w), n)) + "\nendmodule\n");
      p.1 == "\nendmodule\n" && |p.0| == w
      && forall ww :: 0 <= ww < w ==> DrivesCycle(p.0[ww], ww, Schedule(n, taps, w)[ww], seed, taps)
  {
    var out := Schedule(n, taps, w);
    ScheduleRenderable(n, taps, w);
    var end := "\nendmodule\n";
    assert end[0] != AssignIntro[0];
    AssignsReadBack(out, n, 0, end);
    assert OutputLines(out, n)[0..] == OutputLines(out, n);
    var listing := Listing(out, n, 0);
    assert ParseAssigns(Join(OutputLines(out, n)) + end).0 == listing;
    forall ww | 0 <= ww < w
      ensures DrivesCycle(listing[ww], ww, out[ww], seed, taps)
    {
      assert listing[ww] == (ww, Ascending(out[ww], n));
      AssignMatchesLfsr(n, taps, w, seed, ww);
    }
  }

  /** Line `ww` of the assign block computes the register's feedback bit
      of cycle `ww`. */
  lemma AssignMatchesLfsr(n: nat, taps: seq<nat>, w: nat, seed: Bits, ww: nat)
    requires WellFormed(n, taps) && |seed| == n && ww < w
    ensures |Schedule(n, taps, w)| == w
    ensures StrictlyIncreasing(Ascending(Schedule(n, taps, w)[ww], n))
    ensures forall x :: x in Ascending(Schedule(n, taps, w)[ww], n) <==> x in Schedule(n, taps, w)[ww]
    ensures TapsIn(Ascending(Schedule(n, taps, w)[ww], n), n)
    ensures Fb(seed, Ascending(Schedule(n, taps, w)[ww], n)) == Fb(Run(seed, taps, ww), taps)
  {
    ScheduleRenderable(n, taps, w);
    AscendingMembers(Schedule(n, taps, w)[ww], n);
    AscendingValue(Schedule(n, taps, w)[ww], n, seed);
    ScheduleMatchesLfsr(n, taps, w, seed, ww);
  }

  /** With the suffix `"0b..."` the module name carries the polynomial as
      written back by the generator; with `"hex"` it does too once the top
      cell is a tap (always so for a hex literal, whose `bin()` has no
      leading zero). */
  lemma SuffixNamesPolynomial(n: nat, taps: seq<nat>, suffix: string)
    requires WellFormed(n, taps) && (suffix == "hex" ==> taps[0] == n - 1)
    ensures Parse(SuffixString(n, taps, suffix)) == Ok(Poly(n, taps))
  {
    var bits := BinString(n, taps);
    BinStringBits(n, taps);
    ParseOfBinString(n, taps);
    if suffix == "hex" {
      assert bits[0] == '1';
      assert DigitChar(0) == '0' && DigitChar(1) == '1';
      assert Canonical(bits, 2);
      ToDigitsOfValue(bits, 2);
      var v := Value(bits, 2);
      var lit := Hex(v);
      assert lit[2..] == ToDigits(v, 16);
      assert lit[1] == 'x';
      assert BinDigits(lit) == bits;
      var bin := "0b" + bits;
      assert bin[2..] == bits;
      assert BinDigits(bin) == bits;
    }
  }

  /** vgen_rand.py's `main` without the command line and the file write:
      parse the polynomial, unroll it for `outWidth` bits, write the module.
      A failed parse is reported instead of raised. */
  method Generate(genPoly: string, outWidth: nat, prefix: string, suffix: string)
    returns (r: Result<(string, string)>)
    ensures Parse(genPoly).Err? ==> r == Err(Parse(genPoly).error)
    ensures Parse(genPoly).Ok? ==>
      var p := Parse(genPoly).value;
      WellFormed(p.lfsrLen, p.oneIndices) &&
      var out := Schedule(p.lfsrLen, p.oneIndices, outWidth);
      r.Ok? && Renderable(out, p.lfsrLen)
      && r.value.0 == ModuleName(prefix, p.lfsrLen, outWidth, SuffixString(p.lfsrLen, p.oneIndices, suffix)) + ".v"
      && r.value.1 == RandCode(out, p.lfsrLen, p.oneIndices, prefix, suffix)
  {
    var parsed := ParsePolynomial(genPoly);
    if parsed.Err? {
      return Err(parsed.error);
    }
    var p := parsed.value;
    ParseResult(genPoly);
    var randOut := GenRandom(p.lfsrLen, p.oneIndices, outWidth);
    ScheduleRenderable(p.lfsrLen, p.oneIndices, outWidth);
    var filename, code := GenVerilog(randOut, p.lfsrLen, p.oneIndices, prefix, suffix);
    return Ok((filename, code));
  }
}
