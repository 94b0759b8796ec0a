/**
 * Small sequence identities, stated once for any element type so that the
 * proofs about files and tables can use them without unfolding their own
 * definitions.
 */
module Seqs {

  lemma HeadTail<T>(xs: seq<T>)
    requires |xs| > 0
    ensures xs == [xs[0]] + xs[1..]
  {
  }

  lemma FrontLast<T>(xs: seq<T>)
    requires |xs| > 0
    ensures xs == xs[..|xs| - 1] + [xs[|xs| - 1]]
  {
  }

  lemma AppendTail<T>(xs: seq<T>, ys: seq<T>)
    requires |xs| > 0
    ensures (xs + ys)[1..] == xs[1..] + ys
  {
  }

  lemma ConsTail<T>(x: T, ys: seq<T>)
    ensures ([x] + ys)[1..] == ys
  {
  }

  lemma AppendEmpty<T>(xs: seq<T>)
    ensures xs + [] == xs && [] + xs == xs
  {
  }

  lemma ConsAppend<T>(xs: seq<T>, whole: seq<T>, rest: seq<T>, tail: seq<T>)
    requires |xs| > 0 && whole == [xs[0]] + rest && rest == xs[1..] + tail
    ensures whole == xs + tail
  {
    assert xs == [xs[0]] + xs[1..];
  }

  /** Cutting one element out of a tail and putting the head back cuts the next position out of the whole. */
  lemma ConsCut<T>(xs: seq<T>, i: nat)
    requires i + 1 < |xs|
    ensures [xs[0]] + (xs[1..][..i] + xs[1..][i + 1..]) == xs[..i + 1] + xs[i + 2..]
  {
    assert xs[1..][..i] == xs[1..i + 1];
    assert xs[1..][i + 1..] == xs[i + 2..];
    assert [xs[0]] + xs[1..i + 1] == xs[..i + 1];
  }

  lemma ConsMultiset<T>(x: T, ys: seq<T>)
    ensures multiset([x] + ys) == multiset{x} + multiset(ys)
  {
  }
}
