/** The left fold behind every `initial:reduce:`: the combiner is applied strictly in enumeration order. */
module Folds {

  /** Combines `init` with the elements of `s`, first to last. */
  function FoldLeft<A, T>(init: A, s: seq<T>, f: (A, T) -> A): A
  {
    if s == [] then init else f(FoldLeft(init, s[..|s| - 1], f), s[|s| - 1])
  }

  /** Folding a concatenation folds the second part starting from the result of the first. */
  lemma {:induction false} FoldLeftAppend<A, T>(init: A, a: seq<T>, b: seq<T>, f: (A, T) -> A)
    ensures FoldLeft(init, a + b, f) == FoldLeft(FoldLeft(init, a, f), b, f)
  {
    if b == [] {
      assert a + b == a;
    } else {
      var n := |b| - 1;
      assert (a + b)[..|a + b| - 1] == a + b[..n];
      assert (a + b)[|a + b| - 1] == b[n];
      FoldLeftAppend(init, a, b[..n], f);
    }
  }

  /** The first element is combined with `init` first. */
  lemma FoldLeftFirst<A, T>(init: A, s: seq<T>, f: (A, T) -> A)
    requires s != []
    ensures FoldLeft(init, s, f) == FoldLeft(f(init, s[0]), s[1..], f)
  {
    assert s == [s[0]] + s[1..];
    FoldLeftAppend(init, [s[0]], s[1..], f);
    assert [s[0]][..0] == [];
  }

  /**
   The combiner is invoked exactly once per element, in order: running the fold with
   an accumulator that also records each element passed to the combiner gives the fold's
   result next to the source itself.
   */
  lemma {:induction false} FoldLeftVisitsInOrder<A, T>(init: A, s: seq<T>, f: (A, T) -> A)
    ensures FoldLeft((init, []), s, Traced(f)) == (FoldLeft(init, s, f), s)
  {
    if s != [] {
      var n := |s| - 1;
      var g, start := Traced(f), (init, []);
      FoldLeftVisitsInOrder(init, s[..n], f);
      var before := FoldLeft(start, s[..n], g);
      assert before.0 == FoldLeft(init, s[..n], f) && before.1 == s[..n];
      assert FoldLeft(start, s, g) == g(before, s[n]);
      assert g(before, s[n]) == (f(before.0, s[n]), s[..n] + [s[n]]);
      assert s[..n] + [s[n]] == s;
    }
  }

  /** The combiner `f`, extended to record, after the accumulated value, every element it is given. */
  function Traced<A, T>(f: (A, T) -> A): ((A, seq<T>), T) -> (A, seq<T>)
  {
    (acc: (A, seq<T>), x: T) => (f(acc.0, x), acc.1 + [x])
  }
}
