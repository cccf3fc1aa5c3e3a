/** Building a list element by element, as the bot's for-loops and list
    comprehensions do: each input element contributes a (possibly empty)
    run of outputs, appended in input order. */
module Sequences {

  /** The outputs of f for xs[0], xs[1], ... concatenated in that order. It
      peels the last element, matching a loop that appends as it goes. */
  function FlatMap<A, B>(xs: seq<A>, f: A -> seq<B>): seq<B>
    decreases |xs|
  {
    if xs == [] then [] else FlatMap(xs[..|xs| - 1], f) + f(xs[|xs| - 1])
  }

  lemma FlatMapSingle<A, B>(x: A, f: A -> seq<B>)
    ensures FlatMap([x], f) == f(x)
  {
    assert [x][..0] == [];
  }

  /** FlatMap of a concatenation is the concatenation of the FlatMaps: the
      output keeps the relative order of its inputs. */
  lemma {:induction false} FlatMapAppend<A, B>(xs: seq<A>, ys: seq<A>, f: A -> seq<B>)
    ensures FlatMap(xs + ys, f) == FlatMap(xs, f) + FlatMap(ys, f)
    decreases |ys|
  {
    if ys == [] {
      assert xs + ys == xs;
    } else {
      var zs := xs + ys;
      var ys' := ys[..|ys| - 1];
      assert zs[..|zs| - 1] == xs + ys';
      assert zs[|zs| - 1] == ys[|ys| - 1];
      FlatMapAppend(xs, ys', f);
    }
  }

  /** x is an output exactly when some input produced it. */
  lemma {:induction false} FlatMapIn<A, B>(xs: seq<A>, f: A -> seq<B>, x: B)
    ensures x in FlatMap(xs, f) <==> exists i :: 0 <= i < |xs| && x in f(xs[i])
    decreases |xs|
  {
    if xs != [] {
      var n := |xs| - 1;
      var init := xs[..n];
      FlatMapIn(init, f, x);
      assert forall i :: 0 <= i < n ==> init[i] == xs[i];
      if x in FlatMap(xs, f) {
        if x !in FlatMap(init, f) {
          assert x in f(xs[n]);
        }
      } else {
        assert x !in f(xs[n]);
      }
    }
  }

  /** When no element yields more than k outputs, there are at most k per input. */
  lemma {:induction false} FlatMapBounded<A, B>(xs: seq<A>, f: A -> seq<B>, k: nat)
    requires forall i :: 0 <= i < |xs| ==> |f(xs[i])| <= k
    ensures |FlatMap(xs, f)| <= k * |xs|
    decreases |xs|
  {
    if xs != [] {
      var n := |xs| - 1;
      var init := xs[..n];
      assert forall i :: 0 <= i < |init| ==> init[i] == xs[i];
      FlatMapBounded(init, f, k);
      assert k * |xs| == k * n + k;
    }
  }

  /** When every element maps to itself alone, FlatMap changes nothing. */
  lemma {:induction false} FlatMapIdentity<A>(xs: seq<A>, f: A -> seq<A>)
    requires forall i :: 0 <= i < |xs| ==> f(xs[i]) == [xs[i]]
    ensures FlatMap(xs, f) == xs
    decreases |xs|
  {
    if xs != [] {
      var n := |xs| - 1;
      var init := xs[..n];
      assert forall i :: 0 <= i < |init| ==> init[i] == xs[i];
      FlatMapIdentity(init, f);
      assert FlatMap(xs, f) == FlatMap(init, f) + f(xs[n]);
      assert init + [xs[n]] == xs;
    }
  }
}
