/** The clocked LFSR that vgen_lfsr.py emits, on concrete bits: bit i of the
    register is element i of a `seq<bool>`. */
module Sequential {
  import opened Polynomial

  type Bits = seq<bool>

  /** The XOR of the bits of `s` at the listed indices, in list order: the
      value of a Verilog chain `s[i] ^ s[j] ^ ...`, and with the taps as the
      list the feedback bit `fb`. */
  function Fb(s: Bits, taps: seq<nat>): bool
    requires TapsIn(taps, |s|)
  {
    if |taps| == 0 then false else Fb(s, taps[..|taps| - 1]) != s[taps[|taps| - 1]]
  }

  /** One rising clock edge: with `rst` the register loads `seed`; otherwise
      it becomes `{lfsr[n-2:0], fb}`, bit 0 taking the feedback bit and bit i
      the old bit i - 1, the old top bit being dropped. */
  function Clock(s: Bits, rst: bool, seed: Bits, taps: seq<nat>): (r: Bits)
    requires |s| > 0 && |seed| == |s| && TapsIn(taps, |s|)
    ensures |r| == |s|
    ensures rst ==> r == seed
    ensures !rst ==> r[0] == Fb(s, taps) && forall i :: 1 <= i < |s| ==> r[i] == s[i - 1]
  {
    if rst then seed else [Fb(s, taps)] + s[..|s| - 1]
  }

  /** The register `k` edges after a reset edge that loaded `seed`. */
  function Run(seed: Bits, taps: seq<nat>, k: nat): (r: Bits)
    requires |seed| > 0 && TapsIn(taps, |seed|)
    ensures |r| == |seed|
  {
    if k == 0 then Clock(seed, true, seed, taps)
    else Clock(Run(seed, taps, k - 1), false, seed, taps)
  }

  /** One more index at the end of the list XORs in one more bit. */
  lemma FbSnoc(s: Bits, idx: seq<nat>, i: nat)
    requires TapsIn(idx, |s|) && i < |s|
    ensures TapsIn(idx + [i], |s|)
    ensures Fb(s, idx + [i]) == (Fb(s, idx) != s[i])
  {
    assert (idx + [i])[..|idx|] == idx;
  }

  /** Folding from the left or peeling the first tap gives the same bit. */
  lemma {:induction false} FbFirst(s: Bits, taps: seq<nat>)
    requires TapsIn(taps, |s|) && |taps| > 0
    ensures Fb(s, taps) == (s[taps[0]] != Fb(s, taps[1..]))
  {
    if |taps| > 1 {
      var p := taps[..|taps| - 1];
      FbFirst(s, p);
      assert p[1..] == taps[1..][..|taps[1..]| - 1];
      assert p[0] == taps[0];
    } else {
      assert taps[..0] == [];
    }
  }

  /** The feedback bit only reads the register at the taps. */
  lemma {:induction false} FbAgree(s: Bits, u: Bits, taps: seq<nat>)
    requires TapsIn(taps, |s|) && TapsIn(taps, |u|)
    requires forall j :: 0 <= j < |taps| ==> s[taps[j]] == u[taps[j]]
    ensures Fb(s, taps) == Fb(u, taps)
  {
    if |taps| > 0 {
      FbAgree(s, u, taps[..|taps| - 1]);
    }
  }

  /** With every tapped bit clear the feedback bit is clear. */
  lemma {:induction false} FbAllClear(s: Bits, taps: seq<nat>)
    requires TapsIn(taps, |s|)
    requires forall j :: 0 <= j < |taps| ==> !s[taps[j]]
    ensures !Fb(s, taps)
  {
    if |taps| > 0 {
      FbAllClear(s, taps[..|taps| - 1]);
    }
  }

  /** Running `k + 1` edges from `seed` is running `k` edges from the state
      one ordinary edge after `seed`. */
  lemma {:induction false} RunUnroll(seed: Bits, taps: seq<nat>, k: nat)
    requires |seed| > 0 && TapsIn(taps, |seed|)
    ensures Run(seed, taps, k + 1) == Run(Clock(seed, false, seed, taps), taps, k)
  {
    var next := Clock(seed, false, seed, taps);
    if k > 0 {
      RunUnroll(seed, taps, k - 1);
      assert Run(seed, taps, k + 1) == Clock(Run(next, taps, k - 1), false, seed, taps);
      assert Clock(Run(next, taps, k - 1), false, seed, taps) == Clock(Run(next, taps, k - 1), false, next, taps);
    }
  }
}
