/** Sequence and multiset facts shared by the reordering proofs. */
module Permutations {

  /** The sequence with element j taken out. */
  function Without<T>(s: seq<T>, j: nat): (r: seq<T>)
    requires j < |s|
    ensures |r| == |s| - 1
    ensures forall m :: 0 <= m < |r| ==> r[m] == s[if m < j then m else m + 1]
    ensures multiset(s) == multiset(r) + multiset{s[j]}
  {
    assert s == s[..j] + [s[j]] + s[j + 1..];
    s[..j] + s[j + 1..]
  }

  lemma MultisetSnoc<T>(s: seq<T>)
    requires s != []
    ensures multiset(s) == multiset(s[..|s| - 1]) + multiset{s[|s| - 1]}
  {
    assert s == s[..|s| - 1] + [s[|s| - 1]];
  }

  lemma MultisetCancel<T>(a: multiset<T>, b: multiset<T>, x: T)
    requires a + multiset{x} == b + multiset{x}
    ensures a == b
  {
    assert forall y :: a[y] == (a + multiset{x})[y] - multiset{x}[y];
    assert forall y :: b[y] == (b + multiset{x})[y] - multiset{x}[y];
  }

  /** The step of every induction over a permutation: the last element of xs sits at some
      index j of ys, and the rest of xs is a permutation of ys without that element. */
  lemma PermutationSplit<T>(xs: seq<T>, ys: seq<T>) returns (j: nat)
    requires xs != [] && multiset(xs) == multiset(ys)
    ensures j < |ys| && ys[j] == xs[|xs| - 1]
    ensures multiset(xs[..|xs| - 1]) == multiset(Without(ys, j))
  {
    var last := xs[|xs| - 1];
    MultisetSnoc(xs);
    assert last in multiset(ys);
    j :| 0 <= j < |ys| && ys[j] == last;
    MultisetCancel(multiset(xs[..|xs| - 1]), multiset(Without(ys, j)), last);
  }
}
