/** Applying a function to every element of a sequence, and how that
    distributes over concatenation; a non-empty sequence as its head and
    tail. */
module Seqs {

  /** `f` applied to each element of `xs`, in order. */
  function Map<A, B>(f: A --> B, xs: seq<A>): (ys: seq<B>)
    requires forall k :: 0 <= k < |xs| ==> f.requires(xs[k])
    ensures |ys| == |xs|
    ensures forall k :: 0 <= k < |xs| ==> ys[k] == f(xs[k])
  {
    if |xs| == 0 then [] else [f(xs[0])] + Map(f, xs[1..])
  }

  /** Mapping a concatenation maps each part. */
  lemma MapAppend<A, B>(f: A --> B, xs: seq<A>, ys: seq<A>)
    requires forall k :: 0 <= k < |xs| ==> f.requires(xs[k])
    requires forall k :: 0 <= k < |ys| ==> f.requires(ys[k])
    ensures forall k :: 0 <= k < |xs + ys| ==> f.requires((xs + ys)[k])
    ensures Map(f, xs + ys) == Map(f, xs) + Map(f, ys)
  {
    assert forall k :: 0 <= k < |xs + ys| ==> (xs + ys)[k] == if k < |xs| then xs[k] else ys[k - |xs|];
  }

  /** A non-empty sequence is its first element followed by the rest. */
  lemma HeadTail<T>(xs: seq<T>)
    requires |xs| > 0
    ensures xs == [xs[0]] + xs[1..]
  {
  }
}
