/** Order-preserving selection from a sequence, shared by the filters and the assembly of the merger. */
module Seqs {

  /**
   * The positions below `n` of the elements of `s` that satisfy `p`, in
   * increasing order: every listed position satisfies `p`, every satisfying
   * position is listed, and the list is strictly increasing.
   */
  function IndicesBelow<T>(s: seq<T>, p: T -> bool, n: nat): (r: seq<nat>)
    requires n <= |s|
    ensures forall k :: 0 <= k < |r| ==> r[k] < n && p(s[r[k]])
  {
    if n == 0 then [] else IndicesBelow(s, p, n - 1) + (if p(s[n - 1]) then [n - 1] else [])
  }

  /** Every satisfying position below `n` is selected, and the selected positions increase strictly. */
  lemma {:induction false} IndicesBelowComplete<T>(s: seq<T>, p: T -> bool, n: nat)
    requires n <= |s|
    ensures forall i :: 0 <= i < n && p(s[i]) ==> i in IndicesBelow(s, p, n)
    ensures forall k, l :: 0 <= k < l < |IndicesBelow(s, p, n)| ==> IndicesBelow(s, p, n)[k] < IndicesBelow(s, p, n)[l]
  {
    if n > 0 {
      IndicesBelowComplete(s, p, n - 1);
    }
  }
}
