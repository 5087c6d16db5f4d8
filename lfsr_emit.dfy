/** The text of the clocked LFSR module that vgen_lfsr.py's `gen_verilog`
    writes, and readers showing what the interesting parts of it say: the
    module name identifies the polynomial, the feedback equation XORs exactly
    the taps, and the shift statement is the clock rule of `Sequential`. */
module LfsrEmitter {
  import opened Numerals
  import opened Polynomial
  import opened XorText
  import opened TapText
  import opened Sequential

  /** `"%d" % v` for a value that may be negative. */
  function SignedDec(v: int): string
  {
    if v < 0 then "-" + Dec(-v) else Dec(v)
  }

  /** `prefix_lfsr_<lfsr_len>_<bin_str>`, the module name and (with `.v`)
      the file name. */
  function ModuleName(prefix: string, n: nat, binStr: string): string
  {
    prefix + "_lfsr_" + Dec(n) + "_" + binStr
  }

  /** The banner comment, which names the width and the polynomial. */
  function Banner(n: nat, polyStr: string): string
  {
    Rule() + "\n"
    + "///// Generated code. Don't modify! \n"
    + "///// Author: Anh Tran (Andrew) \n"
    + "///// This module computes " + Dec(n) + "-bit LFSR bits from an input seed \n"
    + "///// based on the LFSR polynomial: " + polyStr + " \n"
    + Rule() + "\n"
  }

  /** The module header and port list. */
  function Ports(name: string, n: nat): string
  {
    "module " + name + " (\n"
    + Indent + "input    clk,\n"
    + Indent + "input    rst,\n\n"
    + Indent + "input [" + Dec(n) + "-1:0]   seed, \n"
    + Indent + "output [" + Dec(n) + "-1:0]  lfsr\n"
    + Indent + ");\n\n"
  }

  const Declaration := Indent + "logic    fb; // feedback bit\n"

  /** The text in front of the feedback chain. */
  const FeedbackIntro := Indent + "assign fb = "

  /** The feedback equation: the register bits at the taps, in tap order,
      under the identifier `lsfr` as the generator spells it. */
  function FeedbackLine(taps: seq<nat>): string
    requires |taps| > 0
  {
    FeedbackIntro + Chain("lsfr", taps) + ";\n\n"
  }

  /** The text in front of the shift statement's upper bound. */
  const ShiftIntro := Indent + Indent + Indent + "lfsr <= {lsfr["

  const ShiftOutro := ":0], fb};\n"

  /** The shift statement `lfsr <= {lsfr[n-2:0], fb};`. */
  function ShiftLine(n: nat): string
  {
    ShiftIntro + SignedDec(n - 2) + ShiftOutro
  }

  /** The clocked block: reset loads the seed, otherwise the shift. */
  function AlwaysBlock(n: nat): string
  {
    Indent + "always @(posedge clk) begin\n"
    + Indent + Indent + "if (rst) begin\n"
    + Indent + Indent + Indent + "lfsr <= seed;\n"
    + Indent + Indent + "end\n"
    + Indent + Indent + "else begin\n"
    + ShiftLine(n)
    + Indent + Indent + "end\n"
    + Indent + "end\n"
  }

  /** The whole file `gen_verilog(lfsr_len, one_indices, prefix)` writes. */
  function LfsrCode(n: nat, taps: seq<nat>, prefix: string): string
    requires |taps| > 0
  {
    Banner(n, PolyString(n, taps))
    + Ports(ModuleName(prefix, n, BinString(n, taps)), n)
    + Declaration
    + FeedbackLine(taps)
    + AlwaysBlock(n)
    + "\nendmodule\n"
  }

  /** vgen_lfsr.py's `gen_verilog` without the file write: the file name and
      the text, accumulated block by block, the feedback equation one tap at
      a time as the source does. The source reads `one_indices[0]`, so it
      needs at least one tap. */
  method GenVerilog(lfsrLen: nat, oneIndices: seq<nat>, prefix: string) returns (filename: string, code: string)
    requires |oneIndices| > 0
    ensures filename == ModuleName(prefix, lfsrLen, BinString(lfsrLen, oneIndices)) + ".v"
    ensures code == LfsrCode(lfsrLen, oneIndices, prefix)
  {
    var binStr, polyStr := TapStrings(lfsrLen, oneIndices);
    var name := prefix + "_lfsr_" + Dec(lfsrLen) + "_" + binStr;
    filename := name + ".v";
    code := Banner(lfsrLen, polyStr);
    code := code + Ports(name, lfsrLen);
    code := code + Declaration;
    code := AppendFeedback(code, oneIndices);
    code := code + AlwaysBlock(lfsrLen);
    code := code + "\nendmodule\n";
  }

  /** The feedback equation as `gen_verilog` appends it to the text so far:
      the introduction, the chain over the taps in list order, then the
      terminator. */
  method AppendFeedback(head: string, oneIndices: seq<nat>) returns (code: string)
    requires |oneIndices| > 0
    ensures code == head + FeedbackLine(oneIndices)
  {
    code := AppendChain(head + FeedbackIntro, "lsfr", oneIndices);
    code := code + ";\n\n";
    Associate(head, FeedbackIntro, Chain("lsfr", oneIndices));
    Associate(head, FeedbackIntro + Chain("lsfr", oneIndices), ";\n\n");
  }

  /** Reads `prefix_lfsr_<decimal>_<rest>` back into the width and the rest. */
  function ParseModuleName(prefix: string, name: string): Option<(nat, string)>
  {
    var open := prefix + "_lfsr_";
    if !StartsWith(name, open) then None
    else
      var t := name[|open|..];
      var k := DigitRun(t);
      if k == 0 || k == |t| || t[k] != '_' then None
      else Some((Value(t[..k], 10), t[k + 1..]))
  }

  /** The module name can be read back into the width and the tap string
      it was made from. */
  lemma ModuleNameRoundTrip(prefix: string, n: nat, binStr: string)
    ensures ParseModuleName(prefix, ModuleName(prefix, n, binStr)) == Some((n, binStr))
  {
    var name := ModuleName(prefix, n, binStr);
    var open := prefix + "_lfsr_";
    assert name == open + (Dec(n) + ("_" + binStr));
    var t := name[|open|..];
    assert t == Dec(n) + ("_" + binStr);
    DigitRunOf(Dec(n), "_" + binStr);
    assert t[..|Dec(n)|] == Dec(n);
    assert t[|Dec(n)| + 1..] == binStr;
  }

  /** The module generated for an accepted literal names its polynomial:
      reading the name back gives the width, and the tap string after it
      parses, as a `0b` literal, to what the literal itself parses to. */
  lemma ModuleNameNamesPolynomial(lit: string, prefix: string)
    requires Parse(lit).Ok?
    ensures
      var p := Parse(lit).value;
      var parsed := ParseModuleName(prefix, ModuleName(prefix, p.lfsrLen, BinString(p.lfsrLen, p.oneIndices)));
      parsed.Some? && parsed.value.0 == p.lfsrLen && Parse("0b" + parsed.value.1) == Parse(lit)
  {
    var p := Parse(lit).value;
    ModuleNameRoundTrip(prefix, p.lfsrLen, BinString(p.lfsrLen, p.oneIndices));
    BinStringRoundTrip(lit);
  }

  /** The feedback equation names exactly the taps, in `one_indices` order,
      each once per occurrence in the list. */
  lemma FeedbackLineReadsTaps(taps: seq<nat>)
    requires |taps| > 0
    ensures StartsWith(FeedbackLine(taps), FeedbackIntro)
    ensures ParseChain("lsfr", FeedbackLine(taps)[|FeedbackIntro|..]) == Some((taps, ";\n\n"))
  {
    var line := FeedbackLine(taps);
    assert line == FeedbackIntro + (Chain("lsfr", taps) + ";\n\n");
    assert line[|FeedbackIntro|..] == Chain("lsfr", taps) + ";\n\n";
    assert (";\n\n")[0] != (" ^ ")[0];
    ParseChainOf("lsfr", taps, ";\n\n");
  }

  /** Reads the upper bound `hi` out of `lfsr <= {lsfr[hi:0], fb};`. */
  function ParseShift(line: string): Option<nat>
  {
    if !StartsWith(line, ShiftIntro) then None
    else
      var t := line[|ShiftIntro|..];
      var k := DigitRun(t);
      if k == 0 || t[k..] != ShiftOutro then None
      else Some(Value(t[..k], 10))
  }

  /** What Verilog makes of `{s[hi:0], b}`: `b` in bit 0 and bits 0 ..= hi
      of `s` above it. */
  function Concat(s: Bits, hi: nat, b: bool): (r: Bits)
    requires hi < |s|
    ensures |r| == hi + 2 && r[0] == b
    ensures forall i :: 0 <= i <= hi ==> r[i + 1] == s[i]
  {
    [b] + s[..hi + 1]
  }

  /** For a register of two or more bits the shift statement names bits
      `n - 2` down to 0, and the concatenation it assigns is exactly the
      next state of the clock rule when `fb` carries the feedback bit. */
  lemma ShiftLineMeans(n: nat, s: Bits, seed: Bits, taps: seq<nat>)
    requires 2 <= n && |s| == n && |seed| == n && TapsIn(taps, n)
    ensures ParseShift(ShiftLine(n)) == Some(n - 2)
    ensures Concat(s, n - 2, Fb(s, taps)) == Clock(s, false, seed, taps)
  {
    var line := ShiftLine(n);
    var d := Dec(n - 2);
    assert line == ShiftIntro + (d + ShiftOutro);
    var t := line[|ShiftIntro|..];
    assert t == d + ShiftOutro;
    DigitRunOf(d, ShiftOutro);
    assert t[..|d|] == d;
    assert t[|d|..] == ShiftOutro;
  }
}
