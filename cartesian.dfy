/** The list-of-lists Cartesian product that enumerates truth-table rows. */
module Cartesian {

  /** The tuples `x + [y]` for every `y` of `u`, in the order of `u`. */
  function Pair<T>(x: seq<T>, u: seq<T>): (r: seq<seq<T>>)
  {
    seq(|u|, k requires 0 <= k < |u| => x + [u[k]])
  }

  /** One round of the outer loop: every tuple of `out`, in order, extended
      by every element of `u`, in order. */
  function Extend<T>(out: seq<seq<T>>, u: seq<T>): seq<seq<T>>
  {
    if out == [] then [] else Extend(out[..|out| - 1], u) + Pair(out[|out| - 1], u)
  }

  /** The product of the lists of `input`, taken in order. */
  function Product<T>(input: seq<seq<T>>): seq<seq<T>>
  {
    if input == [] then [[]] else Extend(Product(input[..|input| - 1]), input[|input| - 1])
  }

  /** `cartesian`: `output` starts as one empty tuple; for each list `u` of
      the input in turn, every tuple of `output` is extended by every
      element of `u` into a fresh list `r`, which then replaces `output`. */
  method CartesianProduct<T>(input: seq<seq<T>>) returns (output: seq<seq<T>>)
    ensures output == Product(input)
  {
    output := [[]];
    var i := 0;
    while i < |input|
      invariant 0 <= i <= |input|
      invariant output == Product(input[..i])
    {
      var u := input[i];
      var r := [];
      var j := 0;
      while j < |output|
        invariant 0 <= j <= |output|
        invariant r == Extend(output[..j], u)
      {
        var x := output[j];
        var k := 0;
        while k < |u|
          invariant 0 <= k <= |u|
          invariant r == Extend(output[..j], u) + Pair(x, u)[..k]
        {
          r := r + [x + [u[k]]];
          k := k + 1;
        }
        assert output[..j + 1][..j] == output[..j];
        j := j + 1;
      }
      assert output[..j] == output;
      assert input[..i + 1][..i] == input[..i];
      output := r;
      i := i + 1;
    }
    assert input[..i] == input;
  }

  /** The product of the lengths of the lists. */
  function LengthProduct<T>(input: seq<seq<T>>): nat
  {
    if input == [] then 1 else LengthProduct(input[..|input| - 1]) * |input[|input| - 1]|
  }

  /** A tuple of the product: one element per list, the i-th drawn from the i-th list. */
  predicate IsTuple<T(==)>(t: seq<T>, input: seq<seq<T>>)
  {
    |t| == |input| && forall i :: 0 <= i < |t| ==> t[i] in input[i]
  }

  lemma {:induction false} ExtendLength<T>(out: seq<seq<T>>, u: seq<T>)
    ensures |Extend(out, u)| == |out| * |u|
  {
    if out != [] {
      ExtendLength(out[..|out| - 1], u);
      MulSucc(|out| - 1, |u|);
    }
  }

  /** Position `k` of one round holds tuple `k / |u|` of the previous round
      extended by element `k % |u|` of `u`: the new position varies fastest. */
  lemma {:induction false} ExtendAt<T>(out: seq<seq<T>>, u: seq<T>, k: nat)
    requires k < |out| * |u|
    ensures |Extend(out, u)| == |out| * |u|
    ensures Extend(out, u)[k] == out[k / |u|] + [u[k % |u|]]
  {
    ExtendLength(out, u);
    var n := |out| - 1;
    var front := out[..n];
    ExtendLength(front, u);
    if k < n * |u| {
      ExtendAt(front, u, k);
      DivBelow(k, n, |u|);
    } else {
      var m := k - n * |u|;
      assert m < |u|;
      DivMod(k, n, |u|, m);
    }
  }

  // Arithmetic helpers for the index calculations.

  lemma MulSucc(n: nat, d: nat)
    ensures (n + 1) * d == n * d + d
  {
  }

  lemma {:induction false} MulMono(a: nat, b: nat, d: nat)
    requires a <= b
    ensures a * d <= b * d
    decreases b - a
  {
    if a < b {
      MulMono(a, b - 1, d);
      MulSucc(b - 1, d);
    }
  }

  lemma DivBelow(k: nat, n: nat, d: nat)
    requires k < n * d
    ensures d > 0 && k / d < n
  {
    if d > 0 {
      var q := k / d;
      assert q * d <= k;
      if q >= n {
        MulMono(n, q, d);
      }
    }
  }

  lemma DivMod(k: nat, n: nat, d: nat, m: nat)
    requires m < d && k == n * d + m
    ensures k / d == n && k % d == m
  {
    var q, r := k / d, k % d;
    assert k == q * d + r && 0 <= r < d;
    if q > n {
      MulMono(n + 1, q, d);
      MulSucc(n, d);
    } else if q < n {
      MulMono(q + 1, n, d);
      MulSucc(q, d);
    }
  }

  /** `cartesian` yields exactly as many tuples as the product of the
      lengths of its input lists (one empty tuple for no lists). */
  lemma {:induction false} ProductLength<T>(input: seq<seq<T>>)
    ensures |Product(input)| == LengthProduct(input)
  {
    if input != [] {
      ProductLength(input[..|input| - 1]);
      ExtendLength(Product(input[..|input| - 1]), input[|input| - 1]);
    }
  }

  /** Every tuple of the product has one element per list, the i-th drawn
      from the i-th list. */
  lemma {:induction false} ProductIsTuple<T>(input: seq<seq<T>>, k: nat)
    requires k < |Product(input)|
    ensures IsTuple(Product(input)[k], input)
  {
    if input != [] {
      var n := |input| - 1;
      var j, m := ProductAt(input, k);
      ProductIsTuple(input[..n], j);
      TupleSnoc(Product(input[..n])[j], input[n][m], input);
    }
  }

  /** Tuple `k` of the product is a tuple of the product of all lists but
      the last, extended by an element of the last list. */
  lemma ProductAt<T>(input: seq<seq<T>>, k: nat) returns (j: nat, m: nat)
    requires input != [] && k < |Product(input)|
    ensures j < |Product(input[..|input| - 1])| && m < |input[|input| - 1]|
    ensures Product(input)[k] == Product(input[..|input| - 1])[j] + [input[|input| - 1][m]]
  {
    j, m := ExtendIndices(Product(input[..|input| - 1]), input[|input| - 1], k);
  }

  /** Position `k` of one round is some tuple of the previous round
      extended by some element of `u`. */
  lemma ExtendIndices<T>(out: seq<seq<T>>, u: seq<T>, k: nat) returns (j: nat, m: nat)
    requires k < |Extend(out, u)|
    ensures j < |out| && m < |u| && Extend(out, u)[k] == out[j] + [u[m]]
  {
    ExtendLength(out, u);
    ExtendAt(out, u, k);
    DivBelow(k, |out|, |u|);
    j, m := k / |u|, k % |u|;
  }

  /** Extending a tuple of all lists but the last by an element of the last. */
  lemma TupleSnoc<T>(x: seq<T>, y: T, input: seq<seq<T>>)
    requires input != [] && IsTuple(x, input[..|input| - 1]) && y in input[|input| - 1]
    ensures IsTuple(x + [y], input)
  {
    var t := x + [y];
    forall i | 0 <= i < |t|
      ensures t[i] in input[i]
    {
      if i < |x| {
        assert t[i] == x[i] && input[i] == input[..|input| - 1][i];
      }
    }
  }

  /** Every tuple of the lists occurs in the product, at the position given
      by the indices of its elements read as a mixed-radix number. */
  lemma {:induction false} TupleInProduct<T>(input: seq<seq<T>>, t: seq<T>)
    requires IsTuple(t, input)
    ensures t in Product(input)
  {
    if input != [] {
      var n := |input| - 1;
      var front, u := input[..n], input[n];
      var prev := Product(front);
      var x := t[..n];
      TupleInit(t, input);
      TupleInProduct(front, x);
      var a :| 0 <= a < |prev| && prev[a] == x;
      var b :| 0 <= b < |u| && u[b] == t[n];
      ExtendHas(prev, u, a, b);
      assert x + [t[n]] == t;
    }
  }

  /** Every tuple of the previous round extended by every element of `u`
      occurs in the round, at position `a * |u| + b`. */
  lemma ExtendHas<T>(out: seq<seq<T>>, u: seq<T>, a: nat, b: nat)
    requires a < |out| && b < |u|
    ensures out[a] + [u[b]] in Extend(out, u)
  {
    var k := a * |u| + b;
    MulBound(a, b, |out|, |u|);
    ExtendAt(out, u, k);
    DivMod(k, a, |u|, b);
  }

  /** Dropping the last element of a tuple gives a tuple of all lists but
      the last. */
  lemma TupleInit<T>(t: seq<T>, input: seq<seq<T>>)
    requires input != [] && IsTuple(t, input)
    ensures IsTuple(t[..|t| - 1], input[..|input| - 1])
  {
    var x, front := t[..|t| - 1], input[..|input| - 1];
    forall i | 0 <= i < |x|
      ensures x[i] in front[i]
    {
      assert x[i] == t[i] && front[i] == input[i];
    }
  }

  /** A sequence is in the product exactly when it is a tuple of the lists. */
  lemma ProductMembers<T>(input: seq<seq<T>>, t: seq<T>)
    ensures t in Product(input) <==> IsTuple(t, input)
  {
    if t in Product(input) {
      var k :| 0 <= k < |Product(input)| && Product(input)[k] == t;
      ProductIsTuple(input, k);
    }
    if IsTuple(t, input) {
      TupleInProduct(input, t);
    }
  }

  lemma MulBound(a: nat, b: nat, n: nat, d: nat)
    requires a < n && b < d
    ensures a * d + b < n * d
  {
    MulSucc(a, d);
    MulMono(a + 1, n, d);
  }

  // ---------------------------------------------------------------------
  // Truth-table rows: the product of N copies of [false, true]

  /** `n` copies of the list `u`. */
  function Copies<T>(n: nat, u: seq<T>): (r: seq<seq<T>>)
    ensures |r| == n && forall i :: 0 <= i < n ==> r[i] == u
  {
    seq(n, _ => u)
  }

  function Pow2(n: nat): (p: nat)
    ensures p >= 1
  {
    if n == 0 then 1 else 2 * Pow2(n - 1)
  }

  /** Bit `j` (counting from the least significant) of the binary expansion of `k`. */
  predicate Bit(k: nat, j: nat)
  {
    (k / Pow2(j)) % 2 == 1
  }

  /** The product of `n` copies of `[false, true]` has `2^n` rows. */
  lemma {:induction false} BoolRowCount(n: nat)
    ensures |Product(Copies(n, [false, true]))| == Pow2(n)
  {
    if n > 0 {
      BoolRowCount(n - 1);
      assert Copies(n, [false, true])[..n - 1] == Copies(n - 1, [false, true]);
      ExtendLength(Product(Copies(n - 1, [false, true])), [false, true]);
    }
  }

  /** Row `k` of the product of `n` copies of `[false, true]` is the binary
      expansion of `k` in `n` digits, the first position being the most
      significant: the last position varies fastest. */
  lemma {:induction false} BoolRowBits(n: nat, k: nat, i: nat)
    requires k < Pow2(n) && i < n
    ensures |Product(Copies(n, [false, true]))| == Pow2(n)
    ensures |Product(Copies(n, [false, true]))[k]| == n
    ensures Product(Copies(n, [false, true]))[k][i] == Bit(k, n - 1 - i)
  {
    var u := [false, true];
    BoolRowCount(n);
    ProductIsTuple(Copies(n, u), k);
    var prev := Product(Copies(n - 1, u));
    assert Copies(n, u)[..n - 1] == Copies(n - 1, u);
    assert Product(Copies(n, u)) == Extend(prev, u);
    BoolRowCount(n - 1);
    assert k < |prev| * |u|;
    ExtendAt(prev, u, k);
    var h := k / 2;
    DivMod(k, h, 2, k % 2);
    if i < n - 1 {
      BoolRowBits(n - 1, h, i);
      HalfBit(k, n - 2 - i);
    } else {
      assert k / Pow2(0) == k;
    }
  }

  /** Bit `j` of `k / 2` is bit `j + 1` of `k`. */
  lemma HalfBit(k: nat, j: nat)
    ensures Bit(k / 2, j) == Bit(k, j + 1)
  {
    var p := Pow2(j);
    var h := k / 2;
    var q, r := h / p, h % p;
    assert k == 2 * (q * p + r) + k % 2;
    assert k == q * (2 * p) + (2 * r + k % 2);
    DivMod(k, q, 2 * p, 2 * r + k % 2);
  }
}
