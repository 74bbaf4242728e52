/** Order-preserving sub-sequences, used to say that the elimination loop only
    ever deletes entries from its parallel containers. */
module Sequences {

  /** `a` can be obtained from `b` by deleting some entries (order kept). */
  predicate IsSubsequence<T(==)>(a: seq<T>, b: seq<T>)
    decreases |b|
  {
    a == [] ||
    (b != [] && ((a[0] == b[0] && IsSubsequence(a[1..], b[1..])) || IsSubsequence(a, b[1..])))
  }

  /** Deleting the entry at index `k`, as Python's `list.pop(k)` and `np.delete(x, k, 1)` do. */
  function Delete<T>(a: seq<T>, k: nat): (r: seq<T>)
    requires k < |a|
    ensures |r| == |a| - 1
    ensures forall i :: 0 <= i < k ==> r[i] == a[i]
    ensures forall i :: k <= i < |r| ==> r[i] == a[i + 1]
  {
    a[..k] + a[k + 1..]
  }

  /** Deleting an entry takes exactly that entry out of the multiset of entries. */
  lemma DeleteMultiset<T>(a: seq<T>, k: nat)
    requires k < |a|
    ensures multiset(Delete(a, k)) + multiset{a[k]} == multiset(a)
  {
    assert a == a[..k] + [a[k]] + a[k + 1..];
  }

  lemma {:induction false} SubsequenceReflexive<T>(a: seq<T>)
    ensures IsSubsequence(a, a)
    decreases |a|
  {
    if a != [] {
      SubsequenceReflexive(a[1..]);
    }
  }

  lemma {:induction false} DeleteIsSubsequence<T>(a: seq<T>, k: nat)
    requires k < |a|
    ensures IsSubsequence(Delete(a, k), a)
    decreases k
  {
    var d := Delete(a, k);
    if k == 0 {
      assert d == a[1..];
      SubsequenceReflexive(a[1..]);
      if d != [] {
        assert IsSubsequence(d, a[1..]);
      }
    } else {
      DeleteIsSubsequence(a[1..], k - 1);
      assert d[0] == a[0];
      assert d[1..] == Delete(a[1..], k - 1);
    }
  }

  lemma {:induction false} SubsequenceTransitive<T>(a: seq<T>, b: seq<T>, c: seq<T>)
    requires IsSubsequence(a, b) && IsSubsequence(b, c)
    ensures IsSubsequence(a, c)
    decreases |c|
  {
    if a != [] {
      if IsSubsequence(b, c[1..]) {
        SubsequenceTransitive(a, b, c[1..]);
      } else if a[0] == b[0] && IsSubsequence(a[1..], b[1..]) {
        SubsequenceTransitive(a[1..], b[1..], c[1..]);
      } else {
        SubsequenceTransitive(a, b[1..], c[1..]);
      }
    }
  }
}
