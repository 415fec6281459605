/** Order-preserving selection from a sequence, the `Array.prototype.filter`
    the services use. */
module Seqs {
  /** The elements of `xs` that satisfy `p`, in their order. */
  function Keep<T>(xs: seq<T>, p: T -> bool): seq<T>
    decreases |xs|
  {
    if xs == [] then []
    else if p(xs[|xs| - 1]) then Keep(xs[..|xs| - 1], p) + [xs[|xs| - 1]]
    else Keep(xs[..|xs| - 1], p)
  }

  /** `xs.map(f)`. */
  function Map<T, U>(xs: seq<T>, f: T -> U): (ys: seq<U>)
    ensures |ys| == |xs|
    ensures forall k :: 0 <= k < |xs| ==> ys[k] == f(xs[k])
    decreases |xs|
  {
    if xs == [] then [] else Map(xs[..|xs| - 1], f) + [f(xs[|xs| - 1])]
  }

  lemma MapSnoc<T, U>(xs: seq<T>, x: T, f: T -> U)
    ensures Map(xs + [x], f) == Map(xs, f) + [f(x)]
  {
    assert (xs + [x])[..|xs|] == xs;
  }

  /** A loop that appends `f` of each element extends the image of the
      prefix it has covered by one. */
  lemma MapStep<T, U>(xs: seq<T>, k: nat, ys: seq<U>, f: T -> U, y: U)
    requires k < |xs| && ys == Map(xs[..k], f) && y == f(xs[k])
    ensures ys + [y] == Map(xs[..k + 1], f)
  {
    assert xs[..k + 1] == xs[..k] + [xs[k]];
    MapSnoc(xs[..k], xs[k], f);
  }

  /** The complement of a predicate. */
  function Not<T>(p: T -> bool): T -> bool {
    x => !p(x)
  }

  /** `ys` is obtained from `xs` by deleting elements: the last element of
      `xs` is either deleted or it is the last element of `ys`. */
  ghost predicate Subsequence<T>(ys: seq<T>, xs: seq<T>)
    decreases |xs|
  {
    ys == []
    || (xs != []
        && ((ys[|ys| - 1] == xs[|xs| - 1] && Subsequence(ys[..|ys| - 1], xs[..|xs| - 1]))
            || Subsequence(ys, xs[..|xs| - 1])))
  }

  /** A prefix one element longer. */
  lemma TakeSnoc<T>(xs: seq<T>, i: nat)
    requires i < |xs|
    ensures xs[..i + 1] == xs[..i] + [xs[i]]
  {
  }

  /** The prefix of full length. */
  lemma TakeAll<T>(xs: seq<T>)
    ensures xs[..|xs|] == xs
  {
  }

  lemma KeepSnoc<T>(xs: seq<T>, x: T, p: T -> bool)
    ensures Keep(xs + [x], p) == if p(x) then Keep(xs, p) + [x] else Keep(xs, p)
  {
    assert (xs + [x])[..|xs|] == xs;
  }

  /** What is kept satisfies `p`, and every element of `xs` satisfying `p` is kept. */
  lemma {:induction false} KeepMembers<T>(xs: seq<T>, p: T -> bool)
    ensures forall x :: x in Keep(xs, p) <==> x in xs && p(x)
    decreases |xs|
  {
    if xs != [] {
      var init := xs[..|xs| - 1];
      KeepMembers(init, p);
      assert xs == init + [xs[|xs| - 1]];
    }
  }

  /** The kept elements appear in `xs` in the same order. */
  lemma {:induction false} KeepIsSubsequence<T>(xs: seq<T>, p: T -> bool)
    ensures Subsequence(Keep(xs, p), xs)
    decreases |xs|
  {
    if xs != [] {
      var init := xs[..|xs| - 1];
      var kept := Keep(init, p);
      KeepIsSubsequence(init, p);
      if p(xs[|xs| - 1]) {
        assert (kept + [xs[|xs| - 1]])[..|kept|] == kept;
      }
    }
  }

  /** What is kept and what is not together account for every element. */
  lemma {:induction false} KeepSplits<T>(xs: seq<T>, p: T -> bool)
    ensures |Keep(xs, p)| + |Keep(xs, Not(p))| == |xs|
    ensures multiset(Keep(xs, p)) + multiset(Keep(xs, Not(p))) == multiset(xs)
    decreases |xs|
  {
    if xs != [] {
      var init := xs[..|xs| - 1];
      KeepSplits(init, p);
      assert xs == init + [xs[|xs| - 1]];
    }
  }

  /** Nothing is dropped when every element satisfies `p`. */
  lemma {:induction false} KeepAll<T>(xs: seq<T>, p: T -> bool)
    requires forall k :: 0 <= k < |xs| ==> p(xs[k])
    ensures Keep(xs, p) == xs
    decreases |xs|
  {
    if xs != [] {
      var init := xs[..|xs| - 1];
      KeepAll(init, p);
      assert xs == init + [xs[|xs| - 1]];
    }
  }
}
