/** Order-preserving selection from a sequence, shared by the table filters and the text edits. */
module Seqs {

  /** `a` is obtained from `b` by deleting elements; what remains keeps its order. */
  predicate IsSubsequence<T(==)>(a: seq<T>, b: seq<T>)
    decreases |b|
  {
    a == [] || (b != [] && ((a[0] == b[0] && IsSubsequence(a[1..], b[1..])) || IsSubsequence(a, b[1..])))
  }

  /** Dropping a prefix of the larger sequence keeps a subsequence a subsequence of the whole. */
  lemma {:induction false} SubsequenceOfSuffix<T>(a: seq<T>, b: seq<T>, k: nat)
    requires k <= |b| && IsSubsequence(a, b[k..])
    ensures IsSubsequence(a, b)
    decreases k
  {
    if k > 0 {
      assert b[k - 1..][1..] == b[k..];
      SubsequenceOfSuffix(a, b, k - 1);
    }
  }

  /** Deleting from a subsequence again gives a subsequence. */
  lemma {:induction false} SubsequenceTransitive<T>(a: seq<T>, b: seq<T>, c: seq<T>)
    requires IsSubsequence(a, b) && IsSubsequence(b, c)
    ensures IsSubsequence(a, c)
    decreases |c|
  {
    if a != [] {
      if b[0] == c[0] && IsSubsequence(b[1..], c[1..]) {
        if a[0] == b[0] && IsSubsequence(a[1..], b[1..]) {
          SubsequenceTransitive(a[1..], b[1..], c[1..]);
        } else {
          SubsequenceTransitive(a, b[1..], c[1..]);
        }
      } else {
        SubsequenceTransitive(a, b, c[1..]);
      }
    }
  }

  /** A prefix is a subsequence. */
  lemma {:induction false} PrefixIsSubsequence<T>(s: seq<T>, k: nat)
    requires k <= |s|
    ensures IsSubsequence(s[..k], s)
    decreases k
  {
    if k > 0 {
      PrefixIsSubsequence(s[1..], k - 1);
      assert s[..k][0] == s[0] && s[..k][1..] == s[1..][..k - 1];
    }
  }

  /** A contiguous slice is a subsequence. */
  lemma SubsequenceOfSlice<T>(a: seq<T>, b: seq<T>, i: nat, j: nat)
    requires i <= j <= |b| && a == b[i..j]
    ensures IsSubsequence(a, b)
  {
    PrefixIsSubsequence(b[i..], j - i);
    assert b[i..][..j - i] == a;
    SubsequenceOfSuffix(a, b, i);
  }
}
