/** Symbolic terms over GF(2): a term is the set of seed-bit indices whose
    XOR it stands for, and terms combine by symmetric difference
    (`xor_two_sets`). */
module Gf2 {

  type Term = set<nat>

  /** `xor_two_sets`: the union less the intersection. */
  function Xor(a: Term, b: Term): (r: Term)
    ensures forall x :: x in r <==> (x in a) != (x in b)
  {
    (a + b) - (a * b)
  }

  lemma XorCommutes(a: Term, b: Term)
    ensures Xor(a, b) == Xor(b, a)
  {
  }

  lemma XorAssociates(a: Term, b: Term, c: Term)
    ensures Xor(Xor(a, b), c) == Xor(a, Xor(b, c))
  {
  }

  /** A term XORed with itself cancels completely. */
  lemma XorSelf(a: Term)
    ensures Xor(a, a) == {}
  {
  }

  /** The empty term is the identity. */
  lemma XorEmpty(a: Term)
    ensures Xor(a, {}) == a && Xor({}, a) == a
  {
  }

  /** The seed bits a term picks out that are set. */
  function Selected(t: Term, seed: seq<bool>): set<nat>
  {
    set i | i in t && i < |seed| && seed[i]
  }

  /** The value of a term on a concrete seed: the XOR of the seed bits it
      names, that is, whether an odd number of them are set. */
  function Eval(t: Term, seed: seq<bool>): bool
  {
    |Selected(t, seed)| % 2 == 1
  }

  lemma CardXor(x: set<nat>, y: set<nat>)
    ensures |Xor(x, y)| == |x| + |y| - 2 * |x * y|
  {
    assert x + y == Xor(x, y) + x * y;
    assert Xor(x, y) * (x * y) == {};
    assert |x + y| == |Xor(x, y)| + |x * y|;
  }

  /** Evaluation turns symmetric difference into XOR of bits. */
  lemma EvalXor(a: Term, b: Term, seed: seq<bool>)
    ensures Eval(Xor(a, b), seed) == (Eval(a, seed) != Eval(b, seed))
  {
    var x, y := Selected(a, seed), Selected(b, seed);
    assert Selected(Xor(a, b), seed) == Xor(x, y);
    CardXor(x, y);
  }

  /** A singleton term evaluates to the one seed bit it names. */
  lemma EvalSingleton(i: nat, seed: seq<bool>)
    requires i < |seed|
    ensures Eval({i}, seed) == seed[i]
  {
    if seed[i] {
      assert Selected({i}, seed) == {i};
    } else {
      assert Selected({i}, seed) == {};
    }
  }

  /** Adding a new index to a term XORs in that seed bit. */
  lemma EvalAddOne(t: Term, i: nat, seed: seq<bool>)
    requires i !in t && i < |seed|
    ensures Eval(t + {i}, seed) == (Eval(t, seed) != seed[i])
  {
    assert t + {i} == Xor(t, {i});
    EvalXor(t, {i}, seed);
    EvalSingleton(i, seed);
  }

  /** The empty term is constantly zero. */
  lemma EvalEmpty(seed: seq<bool>)
    ensures !Eval({}, seed)
  {
    assert Selected({}, seed) == {};
  }
}
