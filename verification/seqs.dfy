/** Order-preservation for filters: the notion "obtained by deleting elements". */
module Seqs {

  /** `xs` is obtained from `ys` by deleting zero or more elements. */
  ghost predicate SubsequenceOf<T>(xs: seq<T>, ys: seq<T>)
    decreases |ys|
  {
    if |xs| == 0 then true
    else if |ys| == 0 then false
    else (xs[0] == ys[0] && SubsequenceOf(xs[1..], ys[1..])) || SubsequenceOf(xs, ys[1..])
  }

  /** Keeping or dropping a head element preserves the subsequence relation. */
  lemma SubsequenceCons<T>(x: T, xs: seq<T>, ys: seq<T>, keep: bool)
    requires SubsequenceOf(xs, ys)
    ensures SubsequenceOf(if keep then [x] + xs else xs, [x] + ys)
  {
    if keep {
      assert ([x] + xs)[1..] == xs;
      assert ([x] + ys)[1..] == ys;
    } else {
      assert ([x] + ys)[1..] == ys;
    }
  }

  /** A subsequence is no longer than the original. */
  lemma {:induction false} SubsequenceLength<T>(xs: seq<T>, ys: seq<T>)
    requires SubsequenceOf(xs, ys)
    ensures |xs| <= |ys|
    decreases |ys|
  {
    if |xs| > 0 {
      if xs[0] == ys[0] && SubsequenceOf(xs[1..], ys[1..]) {
        SubsequenceLength(xs[1..], ys[1..]);
      } else {
        SubsequenceLength(xs, ys[1..]);
      }
    }
  }

  /** A subsequence holds no more of any element than the original. */
  lemma {:induction false} SubsequenceMultiset<T>(xs: seq<T>, ys: seq<T>)
    requires SubsequenceOf(xs, ys)
    ensures multiset(xs) <= multiset(ys)
    decreases |ys|
  {
    if |xs| == 0 {
    } else if xs[0] == ys[0] && SubsequenceOf(xs[1..], ys[1..]) {
      SubsequenceMultiset(xs[1..], ys[1..]);
      assert xs == [xs[0]] + xs[1..];
      assert ys == [ys[0]] + ys[1..];
    } else {
      SubsequenceMultiset(xs, ys[1..]);
      assert ys == [ys[0]] + ys[1..];
    }
  }

  /** Moving one element to the front is a permutation. */
  lemma MoveToFrontPermutes<T>(xs: seq<T>, k: nat)
    requires k < |xs|
    ensures multiset([xs[k]] + xs[..k] + xs[k + 1..]) == multiset(xs)
  {
    assert xs == xs[..k] + [xs[k]] + xs[k + 1..];
  }

  /** `xs.filter(f)`: the elements satisfying `f`, each as often as in `xs`,
      in their original order. */
  function Filter<T(!new)>(f: T -> bool, xs: seq<T>): (r: seq<T>)
    ensures forall x :: multiset(r)[x] == if f(x) then multiset(xs)[x] else 0
    ensures SubsequenceOf(r, xs)
    decreases |xs|
  {
    if |xs| == 0 then []
    else
      var rest := Filter(f, xs[1..]);
      assert xs == [xs[0]] + xs[1..];
      SubsequenceCons(xs[0], rest, xs[1..], f(xs[0]));
      if f(xs[0]) then [xs[0]] + rest else rest
  }

  /** The filter decides the head, then filters the rest. */
  lemma FilterCons<T(!new)>(f: T -> bool, x: T, xs: seq<T>)
    ensures Filter(f, [x] + xs) == if f(x) then [x] + Filter(f, xs) else Filter(f, xs)
  {
    assert ([x] + xs)[1..] == xs;
  }

  /** `xs.findIndex(f)`, with `|xs|` in place of `-1` when no element
      satisfies `f`. */
  function FirstIndex<T>(f: T -> bool, xs: seq<T>): (k: nat)
    ensures k <= |xs|
    ensures k < |xs| ==> f(xs[k])
    ensures forall j :: 0 <= j < k ==> !f(xs[j])
    decreases |xs|
  {
    if |xs| == 0 || f(xs[0]) then 0
    else
      var k := FirstIndex(f, xs[1..]);
      assert forall j :: 1 <= j < |xs| ==> xs[1..][j - 1] == xs[j];
      1 + k
  }

  /** A filter that every element passes keeps the whole sequence. */
  lemma {:induction false} FilterAll<T(!new)>(f: T -> bool, xs: seq<T>)
    requires forall i :: 0 <= i < |xs| ==> f(xs[i])
    ensures Filter(f, xs) == xs
    decreases |xs|
  {
    if |xs| > 0 {
      FilterAll(f, xs[1..]);
      assert Filter(f, xs) == [xs[0]] + Filter(f, xs[1..]);
      assert xs == [xs[0]] + xs[1..];
    }
  }
}
