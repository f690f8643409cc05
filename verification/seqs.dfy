/** Order-preserving selection and flattening of sequences. */
module Seqs {

  /** `xs` is `ys` with some elements deleted; the survivors keep their order. */
  predicate IsSubsequence<T(==)>(xs: seq<T>, ys: seq<T>)
    decreases |ys|
  {
    xs == [] || (|ys| > 0 && ((xs[0] == ys[0] && IsSubsequence(xs[1..], ys[1..])) || IsSubsequence(xs, ys[1..])))
  }

  /** Keeping or dropping the head of `ys` extends a subsequence of its tail. */
  lemma SubsequenceCons<T>(x: T, xs: seq<T>, ys: seq<T>, keep: bool)
    requires IsSubsequence(xs, ys)
    ensures IsSubsequence((if keep then [x] else []) + xs, [x] + ys)
  {
    var zs := [x] + ys;
    assert zs[1..] == ys;
    if keep {
      assert ([x] + xs)[1..] == xs;
    } else {
      assert [] + xs == xs;
    }
  }

  lemma {:induction false} SubsequenceRefl<T>(xs: seq<T>)
    ensures IsSubsequence(xs, xs)
    decreases |xs|
  {
    if xs != [] {
      SubsequenceRefl(xs[1..]);
    }
  }

  lemma {:induction false} SubsequenceMembers<T>(xs: seq<T>, ys: seq<T>)
    requires IsSubsequence(xs, ys)
    ensures forall x :: x in xs ==> x in ys
    decreases |ys|
  {
    if xs != [] {
      if xs[0] == ys[0] && IsSubsequence(xs[1..], ys[1..]) {
        SubsequenceMembers(xs[1..], ys[1..]);
        forall x | x in xs ensures x in ys {
          if x != xs[0] {
            assert x in xs[1..];
          }
        }
      } else {
        SubsequenceMembers(xs, ys[1..]);
      }
    }
  }

  /** The concatenation of a sequence of sequences. */
  function Concat<T>(xss: seq<seq<T>>): seq<T>
  {
    if |xss| == 0 then [] else xss[0] + Concat(xss[1..])
  }

  lemma {:induction false} ConcatAppend<T>(xss: seq<seq<T>>, yss: seq<seq<T>>)
    ensures Concat(xss + yss) == Concat(xss) + Concat(yss)
  {
    if |xss| == 0 {
      assert xss + yss == yss;
    } else {
      assert (xss + yss)[1..] == xss[1..] + yss;
      ConcatAppend(xss[1..], yss);
    }
  }

  /** Concatenating pieces that are each at least as long gives a whole at least as
      long, and a longer one when the piece at `i` is longer. */
  lemma {:induction false} ConcatLonger<T>(xss: seq<seq<T>>, yss: seq<seq<T>>, i: nat)
    requires |xss| == |yss| && i < |xss|
    requires forall k :: 0 <= k < |xss| ==> |xss[k]| >= |yss[k]|
    ensures |Concat(xss)| >= |Concat(yss)|
    ensures |xss[i]| > |yss[i]| ==> |Concat(xss)| > |Concat(yss)|
    decreases |xss|
  {
    if |xss| > 1 {
      assert forall k :: 0 <= k < |xss| - 1 ==> xss[1..][k] == xss[k + 1] && yss[1..][k] == yss[k + 1];
      ConcatLonger(xss[1..], yss[1..], if i > 0 then i - 1 else 0);
    }
  }
}
