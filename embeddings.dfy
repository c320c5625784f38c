/**
 * Embeddings as the clique search sees them: an ordered sequence of chains,
 * each chain a sequence of hardware-vertex identifiers, together with the
 * order statistic the search uses as its chain-length bound: the length of
 * the size-th shortest chain.
 *
 * The order statistic is characterised by counting, independently of any
 * sorting: v is the k-th smallest chain length of e exactly when fewer than
 * k chains are shorter than v and at least k chains are no longer than v.
 */
module Embeddings {

  type Chain = seq<nat>
  type Embedding = seq<Chain>

  datatype Option<T> = None | Some(value: T)

  function Min(a: nat, b: nat): (m: nat)
    ensures m <= a && m <= b && (m == a || m == b)
  {
    if a <= b then a else b
  }

  /** Number of chains of `e` whose length is at most `v`. */
  function CountAtMost(e: Embedding, v: nat): (n: nat)
    ensures n <= |e|
  {
    if e == [] then 0 else (if |e[0]| <= v then 1 else 0) + CountAtMost(e[1..], v)
  }

  /** Number of chains of `e` whose length is strictly less than `v`. */
  function CountBelow(e: Embedding, v: nat): (n: nat)
    ensures n <= |e|
  {
    if v == 0 then 0 else CountAtMost(e, v - 1)
  }

  /** `v` is the length of the `k`-th shortest chain of `e` (counting from 1). */
  predicate IsKth(e: Embedding, k: nat, v: nat)
  {
    CountBelow(e, v) < k <= CountAtMost(e, v)
  }

  /** Chains ordered by non-decreasing length. */
  predicate SortedByLength(e: Embedding)
  {
    forall i, j :: 0 <= i < j < |e| ==> |e[i]| <= |e[j]|
  }

  /** Every chain holds at least one vertex, as every real chain does. */
  predicate NonEmptyChains(e: Embedding)
  {
    forall i :: 0 <= i < |e| ==> |e[i]| > 0
  }

  lemma {:induction false} CountAppend(a: Embedding, b: Embedding, v: nat)
    ensures CountAtMost(a + b, v) == CountAtMost(a, v) + CountAtMost(b, v)
  {
    if a == [] {
      assert a + b == b;
    } else {
      assert (a + b)[0] == a[0];
      assert (a + b)[1..] == a[1..] + b;
      CountAppend(a[1..], b, v);
    }
  }

  /** Reordering the chains does not change how many are at most `v` long. */
  lemma {:induction false} CountPermutation(s: Embedding, t: Embedding, v: nat)
    requires multiset(s) == multiset(t)
    ensures CountAtMost(s, v) == CountAtMost(t, v)
    decreases |s|
  {
    if s == [] {
      assert |t| == |multiset(t)| == 0;
    } else {
      var x := s[0];
      assert x in multiset(t) by { assert x in multiset(s); }
      var j :| 0 <= j < |t| && t[j] == x;
      var rest := t[..j] + t[j + 1..];
      RemoveAt(t, j);
      assert multiset(s[1..]) == multiset(rest) by {
        assert s == [x] + s[1..];
      }
      CountPermutation(s[1..], rest, v);
      CountRemoveAt(t, j, v);
    }
  }

  lemma RemoveAt(t: Embedding, j: nat)
    requires j < |t|
    ensures multiset(t[..j] + t[j + 1..]) == multiset(t) - multiset{t[j]}
  {
    assert t == t[..j] + [t[j]] + t[j + 1..];
  }

  lemma CountRemoveAt(t: Embedding, j: nat, v: nat)
    requires j < |t|
    ensures CountAtMost(t, v) == (if |t[j]| <= v then 1 else 0) + CountAtMost(t[..j] + t[j + 1..], v)
  {
    assert t == t[..j] + ([t[j]] + t[j + 1..]);
    CountAppend(t[..j], [t[j]] + t[j + 1..], v);
    CountAppend([t[j]], t[j + 1..], v);
    CountAppend(t[..j], t[j + 1..], v);
    assert ([t[j]] + t[j + 1..])[1..] == t[j + 1..];
  }

  lemma {:induction false} CountMonotone(e: Embedding, v: nat, w: nat)
    requires v <= w
    ensures CountAtMost(e, v) <= CountAtMost(e, w)
  {
    if e != [] {
      CountMonotone(e[1..], v, w);
    }
  }

  /** If the first `k` chains are at most `v` long, at least `k` chains are. */
  lemma {:induction false} PrefixCount(e: Embedding, k: nat, v: nat)
    requires k <= |e|
    requires forall i :: 0 <= i < k ==> |e[i]| <= v
    ensures CountAtMost(e, v) >= k
  {
    if k > 0 {
      assert forall i :: 0 <= i < k - 1 ==> |e[1..][i]| <= v by {
        forall i | 0 <= i < k - 1 ensures |e[1..][i]| <= v {
          assert e[1..][i] == e[i + 1];
        }
      }
      PrefixCount(e[1..], k - 1, v);
    }
  }

  /** If every chain from index `k` on is longer than `v`, at most `k` chains are at most `v` long. */
  lemma {:induction false} SuffixCount(e: Embedding, k: nat, v: nat)
    requires k <= |e|
    requires forall i :: k <= i < |e| ==> |e[i]| > v
    ensures CountAtMost(e, v) <= k
  {
    if e != [] {
      var k' := if k == 0 then 0 else k - 1;
      assert forall i :: k' <= i < |e| - 1 ==> |e[1..][i]| > v by {
        forall i | k' <= i < |e| - 1 ensures |e[1..][i]| > v {
          assert e[1..][i] == e[i + 1];
        }
      }
      SuffixCount(e[1..], k', v);
    }
  }

  /** The size-th smallest chain length is unique. */
  lemma KthUnique(e: Embedding, k: nat, v1: nat, v2: nat)
    requires IsKth(e, k, v1) && IsKth(e, k, v2)
    ensures v1 == v2
  {
    if v1 < v2 {
      CountMonotone(e, v1, v2 - 1);
    } else if v2 < v1 {
      CountMonotone(e, v2, v1 - 1);
    }
  }

  /** In a length-sorted embedding the k-th smallest chain length is that of chain k-1. */
  lemma SortedKth(e: Embedding, k: nat)
    requires SortedByLength(e)
    requires 1 <= k <= |e|
    ensures IsKth(e, k, |e[k - 1]|)
  {
    var v := |e[k - 1]|;
    PrefixCount(e, k, v);
    if v > 0 {
      SuffixCount(e, k - 1, v - 1);
    }
  }

  /** The k-th smallest chain length depends only on the multiset of chains. */
  lemma KthPermutation(s: Embedding, t: Embedding, k: nat, v: nat)
    requires multiset(s) == multiset(t)
    ensures IsKth(s, k, v) <==> IsKth(t, k, v)
  {
    CountPermutation(s, t, v);
    if v > 0 {
      CountPermutation(s, t, v - 1);
    }
  }

  /** With no empty chain, the k-th smallest chain length is positive. */
  lemma KthPositive(e: Embedding, k: nat, v: nat)
    requires NonEmptyChains(e)
    requires IsKth(e, k, v)
    ensures v > 0
  {
    if v == 0 {
      SuffixCount(e, 0, 0);
    }
  }
}
