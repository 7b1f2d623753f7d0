/**
 * The two loop shapes the crawlers use to gather events: keep what each
 * element yields, and append what each element yields.
 */
module Seqs {
  import opened Wrappers

  /** The values `f` yields over `xs`, in order, skipping elements that yield nothing. */
  function FilterMap<A, B>(xs: seq<A>, f: A -> Option<B>): (r: seq<B>)
    ensures |r| <= |xs|
    decreases |xs|
  {
    if |xs| == 0 then []
    else
      var rest := FilterMap(xs[..|xs| - 1], f);
      match f(xs[|xs| - 1])
      case None => rest
      case Some(y) => rest + [y]
  }

  lemma {:induction false} FilterMapAppend<A, B>(a: seq<A>, b: seq<A>, f: A -> Option<B>)
    ensures FilterMap(a + b, f) == FilterMap(a, f) + FilterMap(b, f)
    decreases |b|
  {
    if |b| == 0 {
      assert a + b == a;
    } else {
      var init := b[..|b| - 1];
      assert (a + b)[..|a + b| - 1] == a + init;
      assert (a + b)[|a + b| - 1] == b[|b| - 1];
      FilterMapAppend(a, init, f);
    }
  }

  /** A value is gathered exactly when some element yields it. */
  lemma {:induction false} FilterMapMembers<A, B>(xs: seq<A>, f: A -> Option<B>)
    ensures forall y :: y in FilterMap(xs, f) <==> exists i | 0 <= i < |xs| :: f(xs[i]) == Some(y)
    decreases |xs|
  {
    if |xs| > 0 {
      var init := xs[..|xs| - 1];
      FilterMapMembers(init, f);
      var rest := FilterMap(init, f);
      var last := f(xs[|xs| - 1]);
      assert FilterMap(xs, f) == rest + (if last.Some? then [last.value] else []);
      forall y
        ensures y in FilterMap(xs, f) <==> exists i | 0 <= i < |xs| :: f(xs[i]) == Some(y)
      {
        if y in rest {
          var i :| 0 <= i < |init| && f(init[i]) == Some(y);
          assert xs[i] == init[i];
        }
        if exists i | 0 <= i < |xs| :: f(xs[i]) == Some(y) {
          var i :| 0 <= i < |xs| && f(xs[i]) == Some(y);
          if i < |init| {
            assert xs[i] == init[i];
          }
        }
      }
    }
  }

  /** What `f` yields for each element of `xs`, one element after the other. */
  function FlatMap<A, B>(xs: seq<A>, f: A -> seq<B>): seq<B>
    decreases |xs|
  {
    if |xs| == 0 then [] else FlatMap(xs[..|xs| - 1], f) + f(xs[|xs| - 1])
  }

  lemma {:induction false} FlatMapAppend<A, B>(a: seq<A>, b: seq<A>, f: A -> seq<B>)
    ensures FlatMap(a + b, f) == FlatMap(a, f) + FlatMap(b, f)
    decreases |b|
  {
    if |b| == 0 {
      assert a + b == a;
    } else {
      var init := b[..|b| - 1];
      var ab := a + b;
      assert ab[..|ab| - 1] == a + init;
      assert ab[|ab| - 1] == b[|b| - 1];
      FlatMapAppend(a, init, f);
      var x, y, z := FlatMap(a, f), FlatMap(init, f), f(b[|b| - 1]);
      assert FlatMap(ab, f) == (x + y) + z;
      assert FlatMap(b, f) == y + z;
    }
  }

  /** A value is in the result exactly when some element yields it. */
  lemma {:induction false} FlatMapMembers<A, B>(xs: seq<A>, f: A -> seq<B>)
    ensures forall y :: y in FlatMap(xs, f) <==> exists i | 0 <= i < |xs| :: y in f(xs[i])
    decreases |xs|
  {
    if |xs| > 0 {
      var init := xs[..|xs| - 1];
      FlatMapMembers(init, f);
      var rest := FlatMap(init, f);
      var mine := f(xs[|xs| - 1]);
      forall y
        ensures y in rest + mine <==> exists i | 0 <= i < |xs| :: y in f(xs[i])
      {
        if y in rest {
          var i :| 0 <= i < |init| && y in f(init[i]);
          assert xs[i] == init[i];
        }
        if exists i | 0 <= i < |xs| :: y in f(xs[i]) {
          var i :| 0 <= i < |xs| && y in f(xs[i]);
          if i < |init| {
            assert xs[i] == init[i];
          }
        }
      }
    }
  }
}
