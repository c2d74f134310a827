/** Order-preserving list building: a subsequence is what a list
    comprehension with a filter, or an append-if loop, produces from its
    input; a concat-map is what a loop that extends a list with the results
    for each element produces. */
module Sequences {

  /** `idx` lists strictly increasing positions of `s` whose elements,
      in order, are `r`. */
  predicate Embeds<T(==)>(idx: seq<nat>, r: seq<T>, s: seq<T>) {
    && |idx| == |r|
    && (forall k :: 0 <= k < |idx| ==> idx[k] < |s| && r[k] == s[idx[k]])
    && (forall k, l :: 0 <= k < l < |idx| ==> idx[k] < idx[l])
  }

  /** `r` is obtained from `s` by deleting elements, keeping the order. */
  ghost predicate IsSubsequence<T>(r: seq<T>, s: seq<T>) {
    exists idx :: Embeds(idx, r, s)
  }

  lemma EmptySubsequence<T>(s: seq<T>)
    ensures IsSubsequence([], s)
  {
    assert Embeds([], [], s);
  }

  /** Appending to the input only: the subsequence survives. */
  lemma SubsequenceSkip<T>(r: seq<T>, s: seq<T>, x: T)
    requires IsSubsequence(r, s)
    ensures IsSubsequence(r, s + [x])
  {
    var idx: seq<nat> :| Embeds(idx, r, s);
    assert Embeds(idx, r, s + [x]);
  }

  /** Appending the same element to both: the subsequence survives. */
  lemma SubsequenceTake<T>(r: seq<T>, s: seq<T>, x: T)
    requires IsSubsequence(r, s)
    ensures IsSubsequence(r + [x], s + [x])
  {
    var idx: seq<nat> :| Embeds(idx, r, s);
    var idx': seq<nat> := idx + [|s|];
    assert Embeds(idx', r + [x], s + [x]);
  }

  /** The lists `f` gives for the elements of `xs`, concatenated in order. */
  function ConcatMap<T, U>(f: T -> seq<U>, xs: seq<T>): seq<U> {
    if |xs| == 0 then [] else ConcatMap(f, xs[..|xs| - 1]) + f(xs[|xs| - 1])
  }

  lemma ConcatMapSnoc<T, U>(f: T -> seq<U>, xs: seq<T>, x: T)
    ensures ConcatMap(f, xs + [x]) == ConcatMap(f, xs) + f(x)
  {
    assert (xs + [x])[..|xs|] == xs;
  }

  /** Concat-map distributes over concatenation of the input. */
  lemma {:induction false} ConcatMapConcat<T, U>(f: T -> seq<U>, a: seq<T>, b: seq<T>)
    ensures ConcatMap(f, a + b) == ConcatMap(f, a) + ConcatMap(f, b)
    decreases |b|
  {
    if |b| == 0 {
      assert a + b == a;
    } else {
      var b', y := b[..|b| - 1], b[|b| - 1];
      assert b == b' + [y];
      assert a + b == (a + b') + [y];
      ConcatMapConcat(f, a, b');
      ConcatMapSnoc(f, a + b', y);
      ConcatMapSnoc(f, b', y);
    }
  }
}
