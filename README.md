# vgen LFSR generators in Dafny

This project models the two Verilog generators of vgen.

- **vgen_lfsr.py** writes a clocked LFSR module for a tap polynomial.
- **vgen_rand.py** writes a combinational module. It computes, in parallel from a seed, the first `N` feedback bits that register would produce.

## What is modelled

**The shared polynomial parser.** `parse_polynomial` takes a `0b…` or `0x…` literal and returns `(lfsr_len, one_indices)`.
- `Polynomial.Parse` is the specification and `Polynomial.ParsePolynomial` the loop.
- Its two assertions and the failing `eval` become the error results `MalformedPolynomial`, `InvalidLiteral` and `ZeroPolynomial`.
- `bin()`, `hex()` and `"%d"` are digit conversions in `Numerals`.

**The symbolic unrolling.** `xor_two_sets` and `gen_random` are modelled in `Gf2` and `Expander`.
- A term is a set of seed-bit indices, and terms combine by symmetric difference.
- `Expander.GenRandom` keeps `cur_sets` as an array that it updates in place.
- It is proved against the specification functions `Cells` and `Schedule`.

**The clocked register.** The clock rule the always-block of vgen_lfsr.py describes is modelled on concrete bits in `Sequential`. The text itself reads `lsfr`, which is not the register's name (see "## Left out").
- `Equivalence` proves the promise in vgen_rand.py's docstring: every term, evaluated on any seed, is the feedback bit that register produces in that cycle.
- It also proves that a polynomial the parser accepts never yields an empty term.

**The text generators.** The string-building parts of both `gen_verilog` functions are in `TapText`, `XorText`, `LfsrEmitter` and `RandEmitter`. They cover the tap string, the polynomial text, the feedback equation, the shift statement, the `assign` chains and the module and file names.
- Four blocks of generated text have a reader: the lfsr module name (`ParseModuleName`), the XOR chains (`ParseChain`), the bound of the shift statement (`ParseShift`) and the assign block (`ParseAssigns`). `poly_str` has its shape stated (`TapText.PolyStringOfTaps`), and of vgen_rand.py's module name only the suffix is read back (`RandEmitter.SuffixNamesPolynomial`). Nothing reads the banner or the port lists.
- The lemmas show what the text says: the name gives back the polynomial, the feedback chain names exactly the taps, and the shift statement, with `lsfr` read as the register `lfsr`, is the clock rule.
- The assign block has one line per output bit, and each line XORs each seed bit of its term exactly once.

**Width of a `0b` literal.** For a `0b` literal with leading zeros, `lfsr_len` counts the zeros too (vgen_rand.py:54-56), so the top cell need not be a tap (`Polynomial.BinaryWidth`). For a `0x` literal `bin()` leaves no leading zero, so the top cell is always a tap (`Polynomial.HexWidth`).

## Model

| member | source | states |
|---|---|---|
| Polynomial.ParsePolynomial | vgen_rand.py:36-63 | The loop version of `parse_polynomial` returns exactly `Parse(lit)`: the first assertion's error, the `eval` error, the zero error, or the width and tap list. |
| Polynomial.ParseResult | vgen_lfsr.py:42-58 | The parse fails with `MalformedPolynomial` exactly when `0b`/`0x` is missing. With the prefix present, it fails with `InvalidLiteral` exactly when the rest is no numeral of that base, and with `ZeroPolynomial` exactly when it is a numeral of value 0. On success the width is the number of binary digits. The taps are non-empty, strictly decreasing and inside `[0, lfsr_len)`. Index i is a tap iff digit `lfsr_len-1-i` is `'1'`. |
| Polynomial.OnesFacts | vgen_rand.py:58-61 | After any prefix of the digit loop, the collected indices are strictly decreasing and lie in the range of digits visited so far. They are exactly the positions of `'1'` digits there. |
| Polynomial.OnesMembership | vgen_lfsr.py:55-58 | Over the whole bit string, x is in `one_indices` iff `x < lfsr_len` and digit `lfsr_len-1-x` is `'1'`. |
| Polynomial.NonZeroHasOne | vgen_rand.py:52 | A binary numeral that passes the non-zero assertion has a `'1'` digit. |
| Polynomial.BinaryWidth | vgen_rand.py:54-56 | A `0b` literal keeps its own digits, leading zeros included. The width is their count and the taps are their `'1'` positions. |
| Polynomial.HexWidth | vgen_rand.py:48-49 | A `0x` literal is rewritten by `bin()`. Its width is the length of the canonical binary form, and its first tap is `lfsr_len-1`. |
| Numerals.ToDigits | vgen_rand.py:49 | `bin()` / `hex()` / `"%d"` write a non-empty numeral in the base whose value is the input. It starts with `0` only for zero. |
| Numerals.ValueZero | vgen_lfsr.py:49 | A digit string is worth zero exactly when every digit is zero. |
| Numerals.ToDigitsOfValue | vgen_rand.py:111 | Writing the value of a canonical numeral gives the same numeral back, so `bin(eval(...))` and `hex(eval(...))` are round trips. |
| Gf2.Xor | vgen_rand.py:66-70 | x is in `xor_two_sets(a, b)` iff it is in exactly one of a, b. |
| Gf2.XorCommutes | vgen_rand.py:66-70 | `xor_two_sets` is commutative. |
| Gf2.XorAssociates | vgen_rand.py:66-70 | `xor_two_sets` is associative. |
| Gf2.XorSelf | vgen_rand.py:66-70 | A term XORed with itself is empty. |
| Gf2.XorEmpty | vgen_rand.py:66-70 | The empty set is the identity. |
| Gf2.EvalXor | vgen_rand.py:66-70 | On a concrete seed, the value of `xor_two_sets(a, b)` is the XOR of the values of a and b. |
| Gf2.EvalSingleton | vgen_rand.py:78 | The initial cell `{i}` evaluates to seed bit i. |
| Expander.Cells | vgen_rand.py:78-91 | `cur_sets` keeps length `lfsr_len` through every cycle. |
| Expander.FoldFeedback | vgen_rand.py:81-83 | The loop over the taps leaves `xor_out` equal to the fold of the tapped cells in tap order. |
| Expander.ShiftIn | vgen_rand.py:87-90 | After the downward copy and the write to cell 0, cell 0 holds `xor_out`, cell i the old cell i-1, and the old top cell is gone. |
| Expander.GenRandom | vgen_rand.py:72-93 | The in-place loop returns exactly `Schedule(lfsr_len, one_indices, rand_wd)`, one feedback term per cycle: fold over the taps, shift up, feedback into cell 0. |
| Expander.ScheduleLength | vgen_rand.py:80-91 | `gen_random` returns exactly `rand_wd` terms. |
| Expander.TermsInRange | vgen_rand.py:78-93 | Every term is a subset of `[0, lfsr_len)`. |
| Expander.FeedbackOfSingletons | vgen_rand.py:81-83 | On the initial register, folding distinct taps yields the set of those taps. |
| Expander.FirstTermIsTaps | vgen_rand.py:78-83 | For a parsed polynomial, the first output term is the set of tap indices. |
| Expander.SchedulePrefix | vgen_rand.py:80-91 | `gen_random(n, t, w1)` is a prefix of `gen_random(n, t, w2)` when `w1 <= w2`. |
| Expander.CellsClosedForm | vgen_rand.py:87-91 | After k cycles, cell i is `{i-k}` when `i >= k`, and the output term `rand_out[k-1-i]` otherwise. |
| Sequential.Clock | vgen_lfsr.py:108-115 | With `rst` the register loads `seed`. Otherwise bit 0 becomes `fb` and bit i the old bit i-1; the top bit is dropped and the width is kept. |
| Sequential.Run | vgen_lfsr.py:108-115 | The register k edges after the reset edge keeps the seed's width. |
| Sequential.FbFirst | vgen_lfsr.py:100-106 | The feedback XOR folded in tap order equals the first tap's bit XOR the rest, the order in which the equation is written. |
| Sequential.FbAgree | vgen_lfsr.py:100 | `fb` reads only the tapped bits: two registers that agree there have the same `fb`. |
| Sequential.RunUnroll | vgen_lfsr.py:108-115 | Running k+1 edges from a seed is running k edges from the state one ordinary edge later. |
| Equivalence.FeedbackEval | vgen_rand.py:81-83 | When the symbolic cells evaluate to a concrete register, the symbolic feedback term evaluates to that register's `fb`. |
| Equivalence.CellsEval | vgen_rand.py:80-91 | After k cycles, each symbolic cell evaluated on the seed is the clocked register's bit k edges after loading that seed. |
| Equivalence.ScheduleMatchesLfsr | vgen_rand.py:25-26 | Term k of `gen_random`, evaluated on any seed, is the feedback bit the clocked register computes in cycle k after loading that seed. |
| Equivalence.SomeSeedSetsCycle | vgen_lfsr.py:100-115 | For a parsed polynomial, every cycle's feedback bit is 1 for some seed. |
| Equivalence.TermsNonEmpty | vgen_rand.py:134 | For a parsed polynomial no output term is empty, so `list(rand_out[ww])[0]` always exists. |
| XorText.ChainGrows | vgen_lfsr.py:103-104 | Appending `" ^ name[i]"` to a chain's text gives the chain with i appended. |
| XorText.ParseChainOf | vgen_lfsr.py:100-106 | Reading back a written XOR chain yields its indices in order and leaves the following text untouched. |
| XorText.AscendingMembers | vgen_rand.py:134-136 | A term's listing is strictly increasing and holds exactly the term's members below the width. |
| XorText.AppendChain | vgen_rand.py:134-136 | The inner loop of both generators appends exactly the chain over the given indices: the first select, then `" ^ name[i]"` for each further index. |
| TapText.TapStrings | vgen_lfsr.py:67-76 | The downward loop builds exactly `BinString` and `PolyString`. |
| TapText.BinStringBits | vgen_lfsr.py:67-74 | `bin_str` has `lfsr_len` characters, all `'0'`/`'1'`. Character j is `'1'` iff `lfsr_len-1-j` is a tap. |
| TapText.PolyStringOfTaps | vgen_lfsr.py:69-76 | For parsed taps, `poly_str` is `x^(t+1) + ` for each tap t in descending order, then `1`. |
| TapText.ParseOfBinString | vgen_lfsr.py:67-74 | Any well-formed tap list, written as `bin_str` and parsed as a `0b` literal, returns unchanged, width included. |
| TapText.BinStringRoundTrip | vgen_lfsr.py:51-74 | The `bin_str` of a parsed literal is the binary string the parser indexed, and parsing `0b`+`bin_str` gives the same result as the literal. |
| LfsrEmitter.GenVerilog | vgen_lfsr.py:63-121 | `gen_verilog` yields file name `prefix_lfsr_<n>_<bin_str>.v` and exactly `LfsrCode`. The feedback chain is appended one tap at a time. |
| LfsrEmitter.AppendFeedback | vgen_lfsr.py:100-106 | The feedback statement is appended as `assign fb = `, the tap chain in list order, then `;`. |
| LfsrEmitter.ModuleNameRoundTrip | vgen_lfsr.py:78 | The module name reads back into the width and the tap string. |
| LfsrEmitter.ModuleNameNamesPolynomial | vgen_lfsr.py:91 | For an accepted literal, the module name's width is `lfsr_len` and its tap string parses to the same polynomial as the literal. |
| LfsrEmitter.FeedbackLineReadsTaps | vgen_lfsr.py:100-106 | The feedback equation XORs exactly `one_indices`, in list order, under the identifier `lsfr`. |
| LfsrEmitter.Concat | vgen_lfsr.py:113 | Verilog's `{s[hi:0], b}` has `b` in bit 0 and bit i of s in bit i+1. |
| LfsrEmitter.ShiftLineMeans | vgen_lfsr.py:108-115 | For width ≥ 2, the shift statement names bits `n-2..0`, and its concatenation, reading `lsfr` as the register `lfsr`, is the clock rule's next state. |
| RandEmitter.AscendingCard | vgen_rand.py:135 | The listing of a term has `len(rand_out[ww])` entries. |
| RandEmitter.AscendingValue | vgen_rand.py:134-136 | The XOR of the listed seed bits equals the term's value on the seed. |
| RandEmitter.WriteAssign | vgen_rand.py:133-138 | One pass of the output loop writes `assign out[ww] = seed[i] ^ …;` over the term's bits. |
| RandEmitter.AppendAssigns | vgen_rand.py:133-138 | The output loop appends one assign line per term, in output order. |
| RandEmitter.GenVerilog | vgen_rand.py:95-144 | `gen_verilog` yields file name `prefix_rand_<n>_<N>_<suffix_str>.v` and exactly `RandCode`: the banner, the ports, one assign line per term, then `endmodule`. |
| RandEmitter.AssignLineReadBack | vgen_rand.py:134-138 | One assign line reads back into its output index and its seed indices. |
| RandEmitter.AssignsReadBack | vgen_rand.py:133-138 | The assign block reads back into one entry per output, in output order: index ww with the ascending bits of term ww. |
| RandEmitter.ScheduleRenderable | vgen_rand.py:134 | For a parsed polynomial every term of `gen_random` is non-empty and inside the seed, so it can be written. |
| RandEmitter.AssignMatchesLfsr | vgen_rand.py:133-136 | For a parsed polynomial, line ww lists each bit of term ww exactly once, in ascending order. Its XOR on any seed is the register's feedback bit in cycle ww. |
| RandEmitter.OutputsMatchLfsr | vgen_rand.py:25-26 | The generated module has exactly N assigns. Line ww drives `out[ww]` from each bit of `rand_out[ww]` exactly once. On any seed, its XOR is the clocked register's feedback bit in cycle ww. |
| RandEmitter.SuffixNamesPolynomial | vgen_rand.py:110-115 | The `0b` suffix parses back to the polynomial. The `hex` suffix does too when the top cell is a tap, which always holds for a `0x` literal. |
| RandEmitter.Generate | vgen_rand.py:165-169 | Parse, `gen_random` and `gen_verilog` run in sequence. A parse error is returned as such. Otherwise the result is the file name and text above, for `Schedule` of the parsed polynomial. |

## Left out

- `main`'s argument parsing (vgen_rand.py:149-163, vgen_lfsr.py:126-138) is command-line plumbing. `RandEmitter.Generate` models the pipeline that follows it in vgen_rand.py. vgen_lfsr.py's `main` only chains `ParsePolynomial` and `LfsrEmitter.GenVerilog`.
- `open`, `f.write`, `f.close` and `print` are not modelled; they are file and console I/O. The generators return the file name and the text instead.
- General `eval` is not modelled. Only digit strings in base 2 and 16 are read. Anything else after the prefix is `InvalidLiteral`, where `eval` would raise. Literals that `eval` accepts but that are not plain digits (underscores, surrounding blanks, expressions) are left out.
- Python's set iteration order is unspecified, so the model lists each term's seed bits in ascending order (`XorText.Ascending`). The proofs about the assign block hold for that order.
- The banner comment is written as constant text with the width and polynomial filled in; nothing is proved about it.
- The generators build their fixed lines in whole blocks rather than one `+=` at a time. The text is the same. The feedback chain and the assign chains are still built element by element.
- LfsrEmitter.ShiftLineMeans: makes no claim for a width-1 register. There the source writes `lsfr[-1:0]`; `SignedDec` reproduces that text.
- The emitted feedback equation and shift statement use the identifier `lsfr`, as written in the source. The port list declares only `lfsr`. So the text as written does not implement `Sequential.Clock`. `Sequential`, `LfsrEmitter.FeedbackLine` and `LfsrEmitter.ShiftLineMeans` read `lsfr` as the register `lfsr`.
- Expander.GenRandom: requires `lfsr_len > 0` and every tap below `lfsr_len`. When `rand_wd > 0`, the source raises for an empty register (on its first cycle) and for a tap at or above `lfsr_len` (IndexError). It returns `[]` when `rand_wd` is 0; the model does not cover that case. The parser never yields width 0.
- LfsrEmitter.GenVerilog: requires at least one tap, because the source reads `one_indices[0]`.
- RandEmitter.GenVerilog: requires every term to be non-empty and inside the seed. The source raises on an empty term, and `gen_random` yields only such terms (`RandEmitter.ScheduleRenderable`). With the `hex` suffix it also requires a non-empty register, because `eval("0b")` raises.
