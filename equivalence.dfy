/** The promise of vgen_rand.py's module docstring: the terms `gen_random`
    computes, evaluated on any seed, are the bits a clocked LFSR with the
    same taps produces from that seed, cycle by cycle. And, for a polynomial
    the parser accepts, no term is ever empty. */
module Equivalence {
  import opened Gf2
  import opened Polynomial
  import opened Expander
  import opened Sequential

  /** A register of terms stands for a concrete register on `seed`. */
  predicate Models(cells: seq<Term>, s: Bits, seed: Bits)
  {
    |cells| == |s| && forall i :: 0 <= i < |s| ==> Eval(cells[i], seed) == s[i]
  }

  /** The symbolic feedback term evaluates to the concrete feedback bit. */
  lemma {:induction false} FeedbackEval(cells: seq<Term>, s: Bits, seed: Bits, taps: seq<nat>)
    requires Models(cells, s, seed) && TapsIn(taps, |s|)
    ensures Eval(Feedback(cells, taps), seed) == Fb(s, taps)
  {
    if |taps| == 0 {
      EvalEmpty(seed);
    } else {
      var p := taps[..|taps| - 1];
      FeedbackEval(cells, s, seed, p);
      EvalXor(Feedback(cells, p), cells[taps[|taps| - 1]], seed);
    }
  }

  /** After `k` cycles every symbolic cell evaluates to the concrete
      register bit `k` edges after `seed` was loaded. */
  lemma {:induction false} CellsEval(n: nat, taps: seq<nat>, seed: Bits, k: nat)
    requires 0 < n && TapsIn(taps, n) && |seed| == n
    ensures Models(Cells(n, taps, k), Run(seed, taps, k), seed)
  {
    if k == 0 {
      forall i | 0 <= i < n ensures Eval(Cells(n, taps, 0)[i], seed) == Run(seed, taps, 0)[i] {
        EvalSingleton(i, seed);
      }
    } else {
      var c, s := Cells(n, taps, k - 1), Run(seed, taps, k - 1);
      CellsEval(n, taps, seed, k - 1);
      FeedbackEval(c, s, seed, taps);
      var d, r := Cells(n, taps, k), Run(seed, taps, k);
      forall i | 0 <= i < n ensures Eval(d[i], seed) == r[i] {
        if i > 0 {
          assert d[i] == c[i - 1] && r[i] == s[i - 1];
        }
      }
    }
  }

  /** Term k of `gen_random(n, taps, w)`, evaluated on any seed, is the
      feedback bit the clocked register computes in cycle k after loading
      that seed. */
  lemma ScheduleMatchesLfsr(n: nat, taps: seq<nat>, w: nat, seed: Bits, k: nat)
    requires 0 < n && TapsIn(taps, n) && |seed| == n && k < w
    ensures |Schedule(n, taps, w)| == w
    ensures Eval(Schedule(n, taps, w)[k], seed) == Fb(Run(seed, taps, k), taps)
  {
    SchedulePrefix(n, taps, k + 1, w);
    assert Schedule(n, taps, w)[k] == Schedule(n, taps, k + 1)[k];
    CellsEval(n, taps, seed, k);
    FeedbackEval(Cells(n, taps, k), Run(seed, taps, k), seed, taps);
  }

  /** Two registers with the same bits 0 ..= m. */
  predicate AgreeUpTo(s: Bits, u: Bits, m: nat)
  {
    |s| == |u| && forall i :: 0 <= i <= m && i < |s| ==> s[i] == u[i]
  }

  /** A register one edge before `s`, as far as bits 0 ..= top tap go: the
      bits move down one place and the top tap's bit is chosen so that the
      feedback bit becomes `s[0]`. */
  function Back(s: Bits, taps: seq<nat>): (r: Bits)
    requires WellFormed(|s|, taps)
    ensures |r| == |s|
  {
    var u := s[1..] + [false];
    u[taps[0] := s[0] != Fb(u, taps[1..])]
  }

  lemma TapsBelowTop(n: nat, taps: seq<nat>)
    requires WellFormed(n, taps)
    ensures forall j :: 0 <= j < |taps[1..]| ==> taps[1..][j] < taps[0]
    ensures forall j :: 0 <= j < |taps| ==> taps[j] <= taps[0]
  {
    forall j | 0 <= j < |taps[1..]| ensures taps[1..][j] < taps[0] {
      assert taps[1..][j] == taps[j + 1];
    }
  }

  /** Clocking `Back(s)` gives `s` back on bits 0 ..= top tap. */
  lemma BackThenClock(s: Bits, taps: seq<nat>)
    requires WellFormed(|s|, taps)
    ensures AgreeUpTo(Clock(Back(s, taps), false, Back(s, taps), taps), s, taps[0])
  {
    var b, u, rest := Back(s, taps), s[1..] + [false], taps[1..];
    TapsBelowTop(|s|, taps);
    FbFirst(b, taps);
    FbAgree(b, u, rest);
    var c := Clock(b, false, b, taps);
    assert c[0] == s[0];
    forall i | 1 <= i <= taps[0] && i < |s| ensures c[i] == s[i] {
      assert c[i] == b[i - 1] == u[i - 1];
    }
  }

  /** Clocking keeps two registers' agreement on the bits the taps read. */
  lemma ClockAgree(s: Bits, u: Bits, taps: seq<nat>, m: nat)
    requires |s| > 0 && AgreeUpTo(s, u, m) && TapsIn(taps, |s|)
    requires forall j :: 0 <= j < |taps| ==> taps[j] <= m
    ensures AgreeUpTo(Clock(s, false, s, taps), Clock(u, false, u, taps), m)
  {
    FbAgree(s, u, taps);
  }

  lemma {:induction false} RunAgree(s: Bits, u: Bits, taps: seq<nat>, m: nat, k: nat)
    requires |s| > 0 && AgreeUpTo(s, u, m) && TapsIn(taps, |s|)
    requires forall j :: 0 <= j < |taps| ==> taps[j] <= m
    ensures AgreeUpTo(Run(s, taps, k), Run(u, taps, k), m)
  {
    if k > 0 {
      RunAgree(s, u, taps, m, k - 1);
      ClockAgree(Run(s, taps, k - 1), Run(u, taps, k - 1), taps, m);
      assert Run(s, taps, k) == Clock(Run(s, taps, k - 1), false, Run(s, taps, k - 1), taps);
      assert Run(u, taps, k) == Clock(Run(u, taps, k - 1), false, Run(u, taps, k - 1), taps);
    }
  }

  /** A seed from which `k` edges lead to `target` (on bits 0 ..= top tap). */
  function Preimage(target: Bits, taps: seq<nat>, k: nat): (r: Bits)
    requires WellFormed(|target|, taps)
    ensures |r| == |target|
  {
    if k == 0 then target else Back(Preimage(target, taps, k - 1), taps)
  }

  lemma {:induction false} PreimageRuns(target: Bits, taps: seq<nat>, k: nat)
    requires WellFormed(|target|, taps)
    ensures AgreeUpTo(Run(Preimage(target, taps, k), taps, k), target, taps[0])
  {
    TapsBelowTop(|target|, taps);
    if k > 0 {
      var y := Preimage(target, taps, k - 1);
      var x := Back(y, taps);
      RunUnroll(x, taps, k - 1);
      BackThenClock(y, taps);
      var c := Clock(x, false, x, taps);
      RunAgree(c, y, taps, taps[0], k - 1);
      PreimageRuns(target, taps, k - 1);
    }
  }

  /** For a parsed polynomial, every cycle's feedback bit is 1 for some seed. */
  lemma SomeSeedSetsCycle(n: nat, taps: seq<nat>, k: nat) returns (seed: Bits)
    requires WellFormed(n, taps)
    ensures |seed| == n && Fb(Run(seed, taps, k), taps)
  {
    var top := taps[0];
    var target: Bits := seq(n, i requires 0 <= i => i == top);
    TapsBelowTop(n, taps);
    FbFirst(target, taps);
    FbAllClear(target, taps[1..]);
    seed := Preimage(target, taps, k);
    PreimageRuns(target, taps, k);
    FbAgree(Run(seed, taps, k), target, taps);
  }

  /** For a polynomial the parser accepts, no output term is empty: every
      output bit depends on the seed. */
  lemma TermsNonEmpty(n: nat, taps: seq<nat>, w: nat)
    requires WellFormed(n, taps)
    ensures |Schedule(n, taps, w)| == w
    ensures forall k :: 0 <= k < w ==> Schedule(n, taps, w)[k] != {}
  {
    ScheduleLength(n, taps, w);
    forall k | 0 <= k < w ensures Schedule(n, taps, w)[k] != {} {
      var seed := SomeSeedSetsCycle(n, taps, k);
      ScheduleMatchesLfsr(n, taps, w, seed, k);
      EvalEmpty(seed);
    }
  }
}
