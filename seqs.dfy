/** Facts about slices of strings that the proofs about the rewritten
    manifest use. */
module Seqs {

  /** The two parts of a concatenation are its prefix and its suffix. */
  lemma SplitConcat(x: string, p: string, q: string)
    requires x == p + q
    ensures x[..|p|] == p && x[|p|..] == q
  {
  }

  /** Slicing a suffix is slicing the whole. */
  lemma SliceOfSlice(t: string, i: nat, j: nat)
    requires i <= j <= |t|
    ensures t[i..][..j - i] == t[i..j] && t[i..][j - i..] == t[j..]
  {
  }

  /** A slice of a slice is a slice of the whole. */
  lemma SubSlice(t: string, a: nat, b: nat, c: nat, d: nat)
    requires a <= b <= |t| && c <= d <= b - a
    ensures t[a..b][c..d] == t[a + c..a + d]
  {
    assert forall k :: 0 <= k < d - c ==> t[a..b][c..d][k] == t[a + c + k];
  }

  /** A slice that lies within the second part of a concatenation. */
  lemma SliceOfConcat(p: string, q: string, u: nat, v: nat)
    requires |p| <= u <= v <= |p| + |q|
    ensures (p + q)[u..v] == q[u - |p|..v - |p|]
  {
  }
}
