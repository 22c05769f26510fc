/** Boolean row selection, as in df[mask]: the positions a mask keeps and the
    elements found there. */
module Masks {

  /** The positions where the mask is true, in increasing order. */
  function Positions(mask: seq<bool>): (r: seq<nat>)
    ensures |r| <= |mask|
    ensures forall k :: 0 <= k < |r| ==> r[k] < |mask| && mask[r[k]]
    ensures forall i :: 0 <= i < |mask| && mask[i] ==> i in r
    ensures forall a, b :: 0 <= a < b < |r| ==> r[a] < r[b]
  {
    if |mask| == 0 then []
    else
      var n := |mask| - 1;
      var front := Positions(mask[..n]);
      assert forall i :: 0 <= i < n ==> mask[..n][i] == mask[i];
      front + (if mask[n] then [n] else [])
  }

  /** The elements of s at the given positions. */
  function Pick<T>(s: seq<T>, idx: seq<nat>): (r: seq<T>)
    requires forall k :: 0 <= k < |idx| ==> idx[k] < |s|
    ensures |r| == |idx|
    ensures forall k :: 0 <= k < |idx| ==> r[k] == s[idx[k]]
  {
    seq(|idx|, k requires 0 <= k < |idx| => s[idx[k]])
  }

  /** Extending a mask by one entry extends its positions by at most that entry. */
  lemma PositionsSnoc(mask: seq<bool>, b: bool)
    ensures Positions(mask + [b]) == Positions(mask) + (if b then [|mask|] else [])
  {
    assert (mask + [b])[..|mask|] == mask;
  }

  /** A mask that keeps everything keeps every position, in order. */
  lemma {:induction false} PositionsAll(mask: seq<bool>)
    requires forall i :: 0 <= i < |mask| ==> mask[i]
    ensures Positions(mask) == seq(|mask|, i => i)
  {
    if |mask| > 0 {
      var n := |mask| - 1;
      PositionsAll(mask[..n]);
    }
  }

  /** Picking every position in order gives the sequence back. */
  lemma PickAll<T>(s: seq<T>)
    ensures Pick(s, seq(|s|, i => i)) == s
  {
  }

  /** Picking one more position appends one element. */
  lemma PickSnoc<T>(s: seq<T>, idx: seq<nat>, i: nat)
    requires forall k :: 0 <= k < |idx| ==> idx[k] < |s|
    requires i < |s|
    ensures Pick(s, idx + [i]) == Pick(s, idx) + [s[i]]
  {
  }
}
