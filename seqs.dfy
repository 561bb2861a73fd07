/**
 * Indexing into and slicing concatenations, stated once for any sequences so
 * that facts about the fixed character lists follow without unfolding them.
 */
module Seqs {

  lemma PrefixOfConcat<X>(a: seq<X>, b: seq<X>, c: seq<X>)
    ensures (a + b + c)[..|a|] == a
  {
  }

  lemma ConcatIndex<X>(a: seq<X>, b: seq<X>, c: seq<X>, i: int)
    requires 0 <= i < |a| + |b| + |c|
    ensures (a + b + c)[i] == (if i < |a| then a[i] else if i < |a| + |b| then b[i - |a|] else c[i - |a| - |b|])
  {
  }

  lemma ConcatEmpty<X>(a: seq<X>, b: seq<X>, c: seq<X>)
    ensures a + [] + [] == a && [] + b + [] == b && [] + [] + c == c
  {
  }

  lemma PrefixIndex<X>(a: seq<X>, b: seq<X>, i: int)
    requires 0 <= i < |a|
    ensures (a + b)[i] == a[i]
  {
  }
}
