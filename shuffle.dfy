/**
 * `List.shuffled()` and `List.random()` with the random source made a
 * parameter: the draws `nextInt` would return are passed in.
 */
module Shuffle {

  /**
   * Draws fit `Collections.shuffle` on `n` elements: the k-th swap, taken
   * at position `n - 1 - k` going down, picks an index below `n - k`.
   */
  predicate ValidDraws(n: nat, draws: seq<int>)
  {
    |draws| >= n - 1 && forall k :: 0 <= k < n - 1 ==> 0 <= draws[k] < n - k
  }

  /**
   * `shuffled()`: copy, then for each position from the last down to the
   * second swap it with a drawn position at or below it. The result is a
   * permutation of the input, whatever the draws.
   */
  method Shuffled<T>(s: seq<T>, draws: seq<int>) returns (r: seq<T>)
    requires ValidDraws(|s|, draws)
    ensures |r| == |s|
    ensures multiset(r) == multiset(s)
  {
    r := s;
    var i := |s|;
    while i > 1
      invariant 0 <= i <= |s|
      invariant |r| == |s|
      invariant multiset(r) == multiset(s)
      decreases i
    {
      var j := draws[|s| - i];
      r := Swap(r, i - 1, j);
      i := i - 1;
    }
  }

  /** Exchanges two positions; the contents, as a multiset, stay the same. */
  function Swap<T>(s: seq<T>, a: int, b: int): (r: seq<T>)
    requires 0 <= a < |s| && 0 <= b < |s|
    ensures |r| == |s| && r[a] == s[b] && r[b] == s[a]
    ensures forall k :: 0 <= k < |s| && k != a && k != b ==> r[k] == s[k]
    ensures multiset(r) == multiset(s)
  {
    s[a := s[b]][b := s[a]]
  }

  /** `random()`: the element at the drawn index. */
  function RandomItem<T>(s: seq<T>, draw: int): T
    requires 0 <= draw < |s|
  {
    s[draw]
  }
}
