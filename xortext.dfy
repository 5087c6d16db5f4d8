/** XOR chains as the generators write them, `name[i] ^ name[j] ^ ...`, and
    a reader for them that shows the text names exactly the listed indices,
    in order. */
module XorText {
  import opened Numerals
  import opened Gf2

  datatype Option<T> = None | Some(value: T)

  /** `"%d" % v`. */
  function Dec(v: nat): string
  {
    ToDigits(v, 10)
  }

  /** One bit select, `name[i]`. */
  function Ref(name: string, i: nat): string
  {
    name + "[" + Dec(i) + "]"
  }

  /** `" ^ name[i]"` for each index, as the inner loops append them. */
  function Tail(name: string, idx: seq<nat>): string
  {
    if |idx| == 0 then "" else " ^ " + Ref(name, idx[0]) + Tail(name, idx[1..])
  }

  /** The whole chain: the first index, then the rest. */
  function Chain(name: string, idx: seq<nat>): string
    requires |idx| > 0
  {
    Ref(name, idx[0]) + Tail(name, idx[1..])
  }

  /** Text appended in two steps is the text appended at once. */
  lemma Associate(a: string, b: string, c: string)
    ensures a + (b + c) == a + b + c
  {
  }

  /** Appending one more index to the chain appends one more `" ^ name[i]"`. */
  lemma {:induction false} TailSnoc(name: string, idx: seq<nat>, i: nat)
    ensures Tail(name, idx + [i]) == Tail(name, idx) + " ^ " + Ref(name, i)
  {
    if |idx| > 0 {
      assert (idx + [i])[1..] == idx[1..] + [i];
      TailSnoc(name, idx[1..], i);
    } else {
      assert ([] + [i])[1..] == [];
    }
  }

  /** Appending the next index of `idx` to a chain over its first `k`
      appends `" ^ name[i]"` to the text, whatever precedes the chain. */
  lemma ChainGrows(pre: string, name: string, idx: seq<nat>, k: nat, text: string)
    requires 0 < k < |idx| && text == pre + Chain(name, idx[..k])
    ensures text + (" ^ " + Ref(name, idx[k])) == pre + Chain(name, idx[..k + 1])
  {
    var p, i := idx[..k], idx[k];
    var head, rest, step := Ref(name, p[0]), Tail(name, p[1..]), " ^ " + Ref(name, i);
    assert idx[..k + 1] == p + [i];
    assert (p + [i])[0] == p[0] && (p + [i])[1..] == p[1..] + [i];
    TailSnoc(name, p[1..], i);
    Associate(rest, " ^ ", Ref(name, i));
    Associate(head, rest, step);
    Associate(pre, Chain(name, p), step);
  }

  /** The inner loop of both generators: the chain over `idx` appended to
      `head`, the first select, then `" ^ name[i]"` for each further index. */
  method AppendChain(head: string, name: string, idx: seq<nat>) returns (text: string)
    requires |idx| > 0
    ensures text == head + Chain(name, idx)
  {
    text := head + Ref(name, idx[0]);
    assert idx[..1][1..] == [];
    var k := 1;
    while k < |idx|
      invariant 1 <= k <= |idx|
      invariant text == head + Chain(name, idx[..k])
    {
      ChainGrows(head, name, idx, k, text);
      text := text + (" ^ " + Ref(name, idx[k]));
      k := k + 1;
    }
    assert idx[..|idx|] == idx;
  }

  /** The length of the run of decimal digits at the start of `s`. */
  function DigitRun(s: string): (k: nat)
    ensures k <= |s| && AllDigits(s[..k], 10)
  {
    if |s| == 0 || CharValue(s[0]) >= 10 then 0
    else
      var k := 1 + DigitRun(s[1..]);
      assert s[..k] == [s[0]] + s[1..][..k - 1];
      k
  }

  lemma {:induction false} DigitRunOf(d: string, r: string)
    requires AllDigits(d, 10) && (|r| == 0 || CharValue(r[0]) >= 10)
    ensures DigitRun(d + r) == |d|
  {
    if |d| > 0 {
      assert (d + r)[1..] == d[1..] + r;
      DigitRunOf(d[1..], r);
    } else {
      assert d + r == r;
    }
  }

  /** Reads one `name[<decimal>]` at the start of `s`: the index and what
      follows. */
  function ParseRef(name: string, s: string): (r: Option<(nat, string)>)
    ensures r.Some? ==> |r.value.1| < |s|
  {
    var open := name + "[";
    if !StartsWith(s, open) then None
    else
      var t := s[|open|..];
      var k := DigitRun(t);
      if k == 0 || k == |t| || t[k] != ']' then None
      else Some((Value(t[..k], 10), t[k + 1..]))
  }

  /** Reads as many `" ^ name[<decimal>]"` as follow. */
  function ParseTail(name: string, s: string): (r: (seq<nat>, string))
    ensures |r.1| <= |s|
    decreases |s|
  {
    if !StartsWith(s, " ^ ") then ([], s)
    else
      match ParseRef(name, s[3..])
      case None => ([], s)
      case Some((i, rest)) =>
        var (more, after) := ParseTail(name, rest);
        ([i] + more, after)
  }

  /** Reads a whole chain: its indices in order, and the text after it. */
  function ParseChain(name: string, s: string): (r: Option<(seq<nat>, string)>)
    ensures r.Some? ==> |r.value.1| < |s|
  {
    match ParseRef(name, s)
    case None => None
    case Some((i, rest)) =>
      var (more, after) := ParseTail(name, rest);
      Some(([i] + more, after))
  }

  lemma ParseRefOf(name: string, i: nat, r: string)
    ensures ParseRef(name, Ref(name, i) + r) == Some((i, r))
  {
    var s := Ref(name, i) + r;
    var open := name + "[";
    assert s == open + (Dec(i) + "]" + r);
    var t := s[|open|..];
    assert t == Dec(i) + ("]" + r);
    DigitRunOf(Dec(i), "]" + r);
    assert t[..|Dec(i)|] == Dec(i);
    assert t[|Dec(i)| + 1..] == r;
  }

  /** Reading `" ^ name[i]"` in front of `rest` puts `i` in front of what
      `rest` reads as. */
  lemma ParseTailCons(name: string, i: nat, rest: string)
    ensures ParseTail(name, " ^ " + (Ref(name, i) + rest)) == ([i] + ParseTail(name, rest).0, ParseTail(name, rest).1)
  {
    var s := " ^ " + (Ref(name, i) + rest);
    assert s[..3] == " ^ ";
    assert s[3..] == Ref(name, i) + rest;
    ParseRefOf(name, i, rest);
  }

  lemma {:induction false} ParseTailOf(name: string, idx: seq<nat>, r: string)
    requires !StartsWith(r, " ^ ")
    ensures ParseTail(name, Tail(name, idx) + r) == (idx, r)
  {
    if |idx| == 0 {
      assert Tail(name, idx) + r == r;
    } else {
      var rest := Tail(name, idx[1..]) + r;
      assert Tail(name, idx) + r == " ^ " + (Ref(name, idx[0]) + rest);
      ParseTailCons(name, idx[0], rest);
      ParseTailOf(name, idx[1..], r);
      assert [idx[0]] + idx[1..] == idx;
    }
  }

  /** Reading back a written chain gives its indices, in order, and leaves
      the text after it untouched. */
  lemma ParseChainOf(name: string, idx: seq<nat>, r: string)
    requires |idx| > 0 && !StartsWith(r, " ^ ")
    ensures ParseChain(name, Chain(name, idx) + r) == Some((idx, r))
  {
    var rest := Tail(name, idx[1..]) + r;
    assert Chain(name, idx) + r == Ref(name, idx[0]) + rest;
    ParseRefOf(name, idx[0], rest);
    ParseTailOf(name, idx[1..], r);
    assert [idx[0]] + idx[1..] == idx;
  }

  predicate StrictlyIncreasing(s: seq<nat>)
  {
    forall i, j :: 0 <= i < j < |s| ==> s[i] < s[j]
  }

  /** The members of `t` below `n` in ascending order: the order in which
      the combinational module lists a term's seed bits. */
  function Ascending(t: Term, n: nat): seq<nat>
  {
    if n == 0 then [] else Ascending(t, n - 1) + (if n - 1 in t then [n - 1] else [])
  }

  /** The listing is strictly increasing and holds exactly the members of
      the term below the width. */
  lemma {:induction false} AscendingMembers(t: Term, n: nat)
    ensures StrictlyIncreasing(Ascending(t, n))
    ensures forall x :: x in Ascending(t, n) <==> x in t && x < n
    ensures forall j :: 0 <= j < |Ascending(t, n)| ==> Ascending(t, n)[j] < n
  {
    if n > 0 {
      AscendingMembers(t, n - 1);
      var a := Ascending(t, n - 1);
      if n - 1 in t {
        var r := a + [n - 1];
        assert Ascending(t, n) == r;
        assert forall j :: 0 <= j < |a| ==> r[j] == a[j];
        assert forall x :: x in r <==> x in a || x == n - 1;
      } else {
        assert Ascending(t, n) == a;
      }
    }
  }
}
