/*
 * The fold behind `functools.reduce`, and why a fold with a commutative,
 * associative operator does not depend on the order of its inputs.
 */
module Folds {
  /**
   * `functools.reduce(op, [h(x) for x in xs])` on a non-empty list: the
   * hashes combined from the left, starting from the first.
   */
  function Reduce<E, T>(xs: seq<E>, h: E -> T, op: (T, T) -> T): T
    requires xs != []
    decreases |xs|
  {
    if |xs| == 1 then h(xs[0]) else op(Reduce(xs[..|xs| - 1], h, op), h(xs[|xs| - 1]))
  }

  ghost predicate Commutes<T(!new)>(op: (T, T) -> T)
  {
    forall a, b :: op(a, b) == op(b, a)
  }

  ghost predicate Associates<T(!new)>(op: (T, T) -> T)
  {
    forall a, b, c :: op(op(a, b), c) == op(a, op(b, c))
  }

  /** With a commutative, associative `op`, one cell can be taken out of the fold and combined last. */
  lemma {:induction false} ReduceRemove<E, T(!new)>(b: seq<E>, i: nat, h: E -> T, op: (T, T) -> T)
    requires Commutes(op) && Associates(op) && |b| >= 2 && i < |b|
    ensures Reduce(b, h, op) == op(Reduce(b[..i] + b[i + 1..], h, op), h(b[i]))
    decreases |b|
  {
    var n := |b| - 1;
    var front := b[..n];
    if i == n {
      assert b[..i] + b[i + 1..] == front;
    } else if n == 1 {
      assert b[..i] + b[i + 1..] == [b[n]];
      assert op(h(b[0]), h(b[n])) == op(h(b[n]), h(b[0]));
    } else {
      ReduceRemove(front, i, h, op);
      var shorter := front[..i] + front[i + 1..];
      assert b[..i] + b[i + 1..] == shorter + [b[n]];
      assert (shorter + [b[n]])[..|shorter|] == shorter;
      var r := Reduce(shorter, h, op);
      calc {
        Reduce(b, h, op);
        op(op(r, h(b[i])), h(b[n]));
        op(r, op(h(b[i]), h(b[n])));
        op(r, op(h(b[n]), h(b[i])));
        op(op(r, h(b[n])), h(b[i]));
        op(Reduce(shorter + [b[n]], h, op), h(b[i]));
      }
    }
  }

  lemma MultisetRemoveAt<E>(s: seq<E>, i: nat)
    requires i < |s|
    ensures multiset(s[..i] + s[i + 1..]) == multiset(s) - multiset{s[i]}
  {
    assert s == s[..i] + [s[i]] + s[i + 1..];
  }

  /** With a commutative, associative `op`, the fold depends only on the multiset of xs. */
  lemma {:induction false} ReducePermutation<E, T(!new)>(a: seq<E>, b: seq<E>, h: E -> T, op: (T, T) -> T)
    requires Commutes(op) && Associates(op) && a != [] && multiset(a) == multiset(b)
    ensures b != [] && Reduce(a, h, op) == Reduce(b, h, op)
    decreases |a|
  {
    var n := |a| - 1;
    assert |b| == |multiset(b)| == |multiset(a)| == |a|;
    assert a[n] in multiset(b);
    var i :| 0 <= i < |b| && b[i] == a[n];
    if n > 0 {
      var rest := b[..i] + b[i + 1..];
      MultisetRemoveAt(a, n);
      assert a[..n] + a[n + 1..] == a[..n];
      MultisetRemoveAt(b, i);
      ReducePermutation(a[..n], rest, h, op);
      ReduceRemove(b, i, h, op);
    }
  }
}
