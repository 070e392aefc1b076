/** Concatenating the pieces that each element of a sequence contributes:
    the shape of every accumulate-in-a-loop in the backend (rows per page,
    text per page, tables per page). */
module Seqs {

  /** f(xs[0]) + f(xs[1]) + ..., built from the right end. */
  function ConcatMap<T, U>(xs: seq<T>, f: T -> seq<U>): seq<U> {
    if xs == [] then [] else ConcatMap(xs[..|xs| - 1], f) + f(xs[|xs| - 1])
  }

  /** |f(xs[0])| + |f(xs[1])| + ..., summed from the left end. */
  function LengthSum<T, U>(xs: seq<T>, f: T -> seq<U>): nat {
    if xs == [] then 0 else |f(xs[0])| + LengthSum(xs[1..], f)
  }

  lemma {:induction false} ConcatMapAppend<T, U>(a: seq<T>, b: seq<T>, f: T -> seq<U>)
    ensures ConcatMap(a + b, f) == ConcatMap(a, f) + ConcatMap(b, f)
    decreases |b|
  {
    if b == [] {
      assert a + b == a;
    } else {
      var b', last := b[..|b| - 1], b[|b| - 1];
      assert (a + b)[..|a + b| - 1] == a + b';
      assert (a + b)[|a + b| - 1] == last;
      ConcatMapAppend(a, b', f);
    }
  }

  lemma ConcatMapSingle<T, U>(x: T, f: T -> seq<U>)
    ensures ConcatMap([x], f) == f(x)
  {
    assert [x][..0] == [];
  }

  lemma {:induction false} ConcatMapLength<T, U>(xs: seq<T>, f: T -> seq<U>)
    ensures |ConcatMap(xs, f)| == LengthSum(xs, f)
  {
    if xs != [] {
      ConcatMapLength(xs[1..], f);
      ConcatMapAppend([xs[0]], xs[1..], f);
      assert [xs[0]] + xs[1..] == xs;
      ConcatMapSingle(xs[0], f);
    }
  }

  /** The j-th piece of element p lies after the pieces of the elements
      before p. */
  lemma ConcatMapAt<T, U>(xs: seq<T>, f: T -> seq<U>, p: nat, j: nat)
    requires p < |xs| && j < |f(xs[p])|
    ensures LengthSum(xs[..p], f) + j < |ConcatMap(xs, f)|
    ensures ConcatMap(xs, f)[LengthSum(xs[..p], f) + j] == f(xs[p])[j]
  {
    assert xs == xs[..p] + [xs[p]] + xs[p + 1..];
    ConcatMapAppend(xs[..p] + [xs[p]], xs[p + 1..], f);
    ConcatMapAppend(xs[..p], [xs[p]], f);
    ConcatMapSingle(xs[p], f);
    ConcatMapLength(xs[..p], f);
  }

  /** An element with no pieces can be dropped. */
  lemma ConcatMapSkip<T, U>(a: seq<T>, x: T, b: seq<T>, f: T -> seq<U>)
    requires f(x) == []
    ensures ConcatMap(a + [x] + b, f) == ConcatMap(a + b, f)
  {
    ConcatMapAppend(a + [x], b, f);
    ConcatMapAppend(a, [x], f);
    ConcatMapAppend(a, b, f);
    ConcatMapSingle(x, f);
  }
}
