/**
 * The chain-length truncation utility `get_maxlen`: sort the embedding in
 * place by chain length and report the length of the size-th shortest chain.
 * Keeping only the `size` shortest chains would give an embedding whose
 * longest chain is exactly that long; the utility itself drops nothing.
 */
module MaxLen {
  import opened Embeddings

  method Swap(a: array<Chain>, i: nat, j: nat)
    requires i < a.Length && j < a.Length
    modifies a
    ensures a[i] == old(a[j]) && a[j] == old(a[i])
    ensures forall k :: 0 <= k < a.Length && k != i && k != j ==> a[k] == old(a[k])
    ensures multiset(a[..]) == old(multiset(a[..]))
  {
    a[i], a[j] := a[j], a[i];
  }

  /** Reorders `a` by non-decreasing chain length (selection sort). */
  method SortByLength(a: array<Chain>)
    modifies a
    ensures SortedByLength(a[..])
    ensures multiset(a[..]) == old(multiset(a[..]))
  {
    var i := 0;
    while i < a.Length
      invariant 0 <= i <= a.Length
      invariant forall p, q :: 0 <= p < q < i ==> |a[p]| <= |a[q]|
      invariant forall p, q :: 0 <= p < i <= q < a.Length ==> |a[p]| <= |a[q]|
      invariant multiset(a[..]) == old(multiset(a[..]))
    {
      var m := i;
      var j := i + 1;
      while j < a.Length
        invariant i <= m < a.Length && i < j <= a.Length
        invariant forall q :: i <= q < j ==> |a[m]| <= |a[q]|
      {
        if |a[j]| < |a[m]| {
          m := j;
        }
        j := j + 1;
      }
      Swap(a, i, m);
      i := i + 1;
    }
  }

  /**
   * Sorts `a` in place by chain length and returns the length of chain
   * `size-1`, which is the size-th smallest chain length of the input.
   */
  method GetMaxLen(a: array<Chain>, size: nat) returns (len: nat)
    requires 1 <= size <= a.Length
    modifies a
    ensures SortedByLength(a[..])
    ensures multiset(a[..]) == old(multiset(a[..]))
    ensures len == |a[size - 1]|
    ensures IsKth(a[..], size, len) && IsKth(old(a[..]), size, len)
  {
    SortByLength(a);
    len := |a[size - 1]|;
    SortedKth(a[..], size);
    KthPermutation(a[..], old(a[..]), size, len);
  }

  /**
   * `get_maxlen` applied to a local copy `t` of a candidate: returns the
   * bound and the copy as the sort leaves it.
   */
  method MaxLenOf(t: Embedding, size: nat) returns (len: nat, sorted: Embedding)
    requires 1 <= size <= |t|
    ensures multiset(sorted) == multiset(t) && SortedByLength(sorted)
    ensures |sorted| == |t| && len == |sorted[size - 1]|
    ensures IsKth(t, size, len) && IsKth(sorted, size, len)
  {
    var a := new Chain[|t|](i requires 0 <= i < |t| => t[i]);
    assert a[..] == t;
    len := GetMaxLen(a, size);
    sorted := a[..];
    assert |multiset(sorted)| == |multiset(t)|;
  }
}
