/** `gen_random`: the symbolic unrolling of the register. Each cell holds the
    term (set of seed-bit indices) whose XOR it currently equals; every cycle
    the cells at the taps are XORed into the feedback term, which is recorded
    as that cycle's output, and the register shifts toward higher indices with
    the feedback term entering cell 0. */
module Expander {
  import opened Gf2
  import opened Polynomial

  /** `cur_sets` before the first cycle: cell i holds `{i}`. */
  function InitialCells(n: nat): (cells: seq<Term>)
    ensures |cells| == n
  {
    seq(n, i requires 0 <= i => {i})
  }

  /** `xor_out` after folding in the cells at the taps, in tap order. */
  function Feedback(cells: seq<Term>, taps: seq<nat>): Term
    requires TapsIn(taps, |cells|)
  {
    if |taps| == 0 then {}
    else Xor(Feedback(cells, taps[..|taps| - 1]), cells[taps[|taps| - 1]])
  }

  /** The shift: cell i takes the old cell i - 1, cell 0 takes `fb`; the old
      top cell falls out. */
  function Shift(cells: seq<Term>, fb: Term): seq<Term>
    requires |cells| > 0
  {
    [fb] + cells[..|cells| - 1]
  }

  /** `cur_sets` after `k` cycles. */
  function Cells(n: nat, taps: seq<nat>, k: nat): (cells: seq<Term>)
    requires 0 < n && TapsIn(taps, n)
    ensures |cells| == n
  {
    if k == 0 then InitialCells(n)
    else
      var c := Cells(n, taps, k - 1);
      Shift(c, Feedback(c, taps))
  }

  /** `rand_out` after `k` cycles: the feedback term of every cycle so far. */
  function Schedule(n: nat, taps: seq<nat>, k: nat): seq<Term>
    requires 0 < n && TapsIn(taps, n)
  {
    if k == 0 then [] else Schedule(n, taps, k - 1) + [Feedback(Cells(n, taps, k - 1), taps)]
  }

  /** The inner loop over the taps: `xor_out` folded from the cells at the
      taps, in tap order. */
  method FoldFeedback(curSets: array<Term>, oneIndices: seq<nat>) returns (xorOut: Term)
    requires TapsIn(oneIndices, curSets.Length)
    ensures xorOut == Feedback(curSets[..], oneIndices)
  {
    xorOut := {};
    var oo := 0;
    while oo < |oneIndices|
      invariant 0 <= oo <= |oneIndices|
      invariant xorOut == Feedback(curSets[..], oneIndices[..oo])
    {
      assert oneIndices[..oo + 1][..oo] == oneIndices[..oo];
      xorOut := Xor(xorOut, curSets[oneIndices[oo]]);
      oo := oo + 1;
    }
    assert oneIndices[..|oneIndices|] == oneIndices;
  }

  /** The downward copy loop and the write to cell 0: every cell moves up
      one place and `xor_out` enters at the bottom. */
  method ShiftIn(curSets: array<Term>, xorOut: Term)
    requires curSets.Length > 0
    modifies curSets
    ensures curSets[..] == Shift(old(curSets[..]), xorOut)
  {
    var ii := curSets.Length - 1;
    while ii > 0
      invariant 0 <= ii <= curSets.Length - 1
      invariant forall j :: 0 <= j <= ii ==> curSets[j] == old(curSets[j])
      invariant forall j :: ii < j < curSets.Length ==> curSets[j] == old(curSets[j - 1])
    {
      curSets[ii] := curSets[ii - 1];
      ii := ii - 1;
    }
    curSets[0] := xorOut;
  }

  /** `gen_random` as the source runs it: `cur_sets` is a list updated in
      place, here an array; each cycle folds the feedback, shifts it in and
      records it. */
  method GenRandom(lfsrLen: nat, oneIndices: seq<nat>, randWd: nat) returns (randOut: seq<Term>)
    requires 0 < lfsrLen && TapsIn(oneIndices, lfsrLen)
    ensures randOut == Schedule(lfsrLen, oneIndices, randWd)
  {
    randOut := [];
    var curSets := new Term[lfsrLen](i requires 0 <= i => {i});
    assert curSets[..] == InitialCells(lfsrLen);
    var ww := 0;
    while ww < randWd
      invariant 0 <= ww <= randWd
      invariant curSets.Length == lfsrLen
      invariant curSets[..] == Cells(lfsrLen, oneIndices, ww)
      invariant randOut == Schedule(lfsrLen, oneIndices, ww)
    {
      var xorOut := FoldFeedback(curSets, oneIndices);
      ShiftIn(curSets, xorOut);
      randOut := randOut + [xorOut];
      ww := ww + 1;
    }
  }

  /** `gen_random(n, t, w)` has exactly `w` terms. */
  lemma {:induction false} ScheduleLength(n: nat, taps: seq<nat>, w: nat)
    requires 0 < n && TapsIn(taps, n)
    ensures |Schedule(n, taps, w)| == w
  {
    if w > 0 {
      ScheduleLength(n, taps, w - 1);
    }
  }

  predicate CellsBounded(cells: seq<Term>, n: nat)
  {
    forall i, x :: 0 <= i < |cells| && x in cells[i] ==> x < n
  }

  lemma {:induction false} FeedbackBounded(cells: seq<Term>, taps: seq<nat>, n: nat)
    requires TapsIn(taps, |cells|) && CellsBounded(cells, n)
    ensures forall x :: x in Feedback(cells, taps) ==> x < n
  {
    if |taps| > 0 {
      FeedbackBounded(cells, taps[..|taps| - 1], n);
    }
  }

  lemma {:induction false} CellsInRange(n: nat, taps: seq<nat>, k: nat)
    requires 0 < n && TapsIn(taps, n)
    ensures CellsBounded(Cells(n, taps, k), n)
  {
    if k > 0 {
      var c := Cells(n, taps, k - 1);
      CellsInRange(n, taps, k - 1);
      FeedbackBounded(c, taps, n);
      var d := Cells(n, taps, k);
      forall i, x | 0 <= i < n && x in d[i] ensures x < n {
        if i > 0 { assert d[i] == c[i - 1]; }
      }
    }
  }

  /** Every term of `gen_random(n, t, w)` names seed bits of the register
      only: it is a subset of `[0, n)`. */
  lemma {:induction false} TermsInRange(n: nat, taps: seq<nat>, w: nat)
    requires 0 < n && TapsIn(taps, n)
    ensures forall k, x :: 0 <= k < |Schedule(n, taps, w)| && x in Schedule(n, taps, w)[k] ==> x < n
  {
    if w > 0 {
      TermsInRange(n, taps, w - 1);
      CellsInRange(n, taps, w - 1);
      FeedbackBounded(Cells(n, taps, w - 1), taps, n);
    }
  }

  /** On the initial register, folding distinct taps gives the set of taps. */
  lemma {:induction false} FeedbackOfSingletons(n: nat, taps: seq<nat>, k: nat)
    requires TapsIn(taps, n) && k <= |taps|
    requires forall i, j :: 0 <= i < j < |taps| ==> taps[i] != taps[j]
    ensures Feedback(InitialCells(n), taps[..k]) == set j | 0 <= j < k :: taps[j]
  {
    if k > 0 {
      FeedbackOfSingletons(n, taps, k - 1);
      assert taps[..k][..k - 1] == taps[..k - 1];
      assert InitialCells(n)[taps[k - 1]] == {taps[k - 1]};
      assert (set j | 0 <= j < k :: taps[j]) == (set j | 0 <= j < k - 1 :: taps[j]) + {taps[k - 1]};
    }
  }

  /** The first output term is exactly the set of tap indices, because the
      taps are distinct and the cells start as singletons. */
  lemma FirstTermIsTaps(n: nat, taps: seq<nat>, w: nat)
    requires 0 < n && 0 < w && WellFormed(n, taps)
    ensures |Schedule(n, taps, w)| == w
    ensures Schedule(n, taps, w)[0] == set j | 0 <= j < |taps| :: taps[j]
  {
    ScheduleLength(n, taps, w);
    SchedulePrefix(n, taps, 1, w);
    FeedbackOfSingletons(n, taps, |taps|);
    assert taps[..|taps|] == taps;
  }

  /** A shorter run is a prefix of a longer one: asking for more output bits
      never changes the earlier ones. */
  lemma {:induction false} SchedulePrefix(n: nat, taps: seq<nat>, w1: nat, w2: nat)
    requires 0 < n && TapsIn(taps, n) && w1 <= w2
    ensures |Schedule(n, taps, w1)| == w1 && |Schedule(n, taps, w2)| == w2
    ensures Schedule(n, taps, w1) == Schedule(n, taps, w2)[..w1]
  {
    ScheduleLength(n, taps, w1);
    ScheduleLength(n, taps, w2);
    if w1 < w2 {
      SchedulePrefix(n, taps, w1, w2 - 1);
      assert Schedule(n, taps, w2)[..w2 - 1] == Schedule(n, taps, w2 - 1);
    }
  }

  /** The register after `k` cycles in closed form: a cell the feedback has
      not reached yet still holds a single seed bit, `{i - k}`; every other
      cell holds an earlier output term, the newest in cell 0. */
  lemma {:induction false} CellsClosedForm(n: nat, taps: seq<nat>, k: nat)
    requires 0 < n && TapsIn(taps, n)
    ensures |Schedule(n, taps, k)| == k
    ensures forall i :: 0 <= i < n ==>
      Cells(n, taps, k)[i] == if i >= k then {i - k} else Schedule(n, taps, k)[k - 1 - i]
  {
    ScheduleLength(n, taps, k);
    if k > 0 {
      CellsClosedForm(n, taps, k - 1);
      var c, d := Cells(n, taps, k - 1), Cells(n, taps, k);
      var s, t := Schedule(n, taps, k - 1), Schedule(n, taps, k);
      assert t == s + [Feedback(c, taps)];
      forall i | 0 <= i < n
        ensures d[i] == if i >= k then {i - k} else t[k - 1 - i]
      {
        if i > 0 {
          assert d[i] == c[i - 1];
          if i - 1 < k - 1 {
            assert t[k - 1 - i] == s[k - 1 - i];
          }
        }
      }
    }
  }
}
