/** Sequence helpers shared by the resolution steps. */
module Lists {

  /** The results of `f` on each element, concatenated in order. */
  function FlatMap<A, B>(f: A -> seq<B>, xs: seq<A>): seq<B>
    decreases |xs|
  {
    if |xs| == 0 then [] else f(xs[0]) + FlatMap(f, xs[1..])
  }

  /** Mapping a concatenation concatenates the results. */
  lemma {:induction false} FlatMapAppend<A, B>(f: A -> seq<B>, xs: seq<A>, ys: seq<A>)
    ensures FlatMap(f, xs + ys) == FlatMap(f, xs) + FlatMap(f, ys)
    decreases |xs|
  {
    if |xs| > 0 {
      FlatMapAppend(f, xs[1..], ys);
      assert (xs + ys)[0] == xs[0];
      assert (xs + ys)[1..] == xs[1..] + ys;
    } else {
      assert xs + ys == ys;
    }
  }

  /** An element of the result comes from some input element, and every
      result of every input element is there. */
  lemma {:induction false} FlatMapMembers<A, B>(f: A -> seq<B>, xs: seq<A>)
    ensures forall y :: y in FlatMap(f, xs) ==> exists i :: 0 <= i < |xs| && y in f(xs[i])
    ensures forall y, i :: 0 <= i < |xs| && y in f(xs[i]) ==> y in FlatMap(f, xs)
    decreases |xs|
  {
    if |xs| > 0 {
      var rest := xs[1..];
      FlatMapMembers(f, rest);
      assert forall y :: y in FlatMap(f, rest) ==> exists i :: 0 <= i < |rest| && y in f(rest[i]);
      assert FlatMap(f, xs) == f(xs[0]) + FlatMap(f, rest);
      forall y | y in FlatMap(f, xs)
        ensures exists i :: 0 <= i < |xs| && y in f(xs[i])
      {
        if y !in f(xs[0]) {
          assert y in FlatMap(f, rest);
          var i :| 0 <= i < |rest| && y in f(rest[i]);
          assert rest[i] == xs[i + 1];
        }
      }
      forall y, i | 0 <= i < |xs| && y in f(xs[i])
        ensures y in FlatMap(f, xs)
      {
        if i > 0 {
          assert rest[i - 1] == xs[i];
        }
      }
    }
  }
}
