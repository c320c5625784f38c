/**
 * The search strategy for the denser lattice family: a discovery scan that
 * establishes a chain-length bound, then a refinement loop that keeps
 * re-trying a width while the bound strictly improves.
 *
 * One realization is seen only through its clique cache, given as an oracle
 * with no behaviour beyond its return value:
 *   extract(w, None)     the single best candidate at width w, no length limit;
 *   extract(w, Some(b))  the same, with every span whose chain length is not
 *                        below b pruned;
 * None as a result means that `extract_solution` reported false.
 */
module PegasusStrategy {
  import opened Embeddings
  import MaxLen

  datatype Cells = Cells(rows: nat, extract: (nat, Option<nat>) -> Option<Embedding>)

  function Extract(c: Cells, w: nat, limit: Option<nat>): (r: Option<Embedding>) { c.extract(w, limit) }

  /** The narrowest width tried: ceiling(size / 2), written (size + 1) / 2. */
  function MinWidth(size: nat): (w: nat)
    ensures 2 * w >= size && 2 * w <= size + 1
  {
    (size + 1) / 2
  }

  /** A candidate exists and has `size` chains or more. */
  predicate Sufficient(cand: Option<Embedding>, size: nat)
  {
    cand.Some? && |cand.value| >= size
  }

  /** A sufficient candidate whose size-th smallest chain length is below `bound`. */
  ghost predicate Improves(cand: Option<Embedding>, size: nat, bound: nat)
  {
    Sufficient(cand, size) && exists v: nat :: IsKth(cand.value, size, v) && v < bound
  }

  /** `e` is a reordering of the candidate the cache yields at width `w` under `limit`. */
  ghost predicate Yields(c: Cells, w: nat, limit: Option<nat>, e: Embedding)
  {
    Extract(c, w, limit).Some? && multiset(Extract(c, w, limit).value) == multiset(e)
  }

  /** Every candidate the cache can yield consists of non-empty chains. */
  ghost predicate ProducesChains(c: Cells)
  {
    forall w: nat, limit: Option<nat> :: Extract(c, w, limit).Some? ==> NonEmptyChains(Extract(c, w, limit).value)
  }

  /** `w` is the first width from MinWidth(size) on whose unlimited candidate is sufficient. */
  ghost predicate FirstSufficient(c: Cells, size: nat, w: nat)
  {
    && MinWidth(size) <= w <= c.rows
    && Sufficient(Extract(c, w, None), size)
    && forall v: nat :: MinWidth(size) <= v < w ==> !Sufficient(Extract(c, v, None), size)
  }

  /**
   * Phase A: scans widths upward from MinWidth(size) to the grid extent for
   * the first unlimited candidate with `size` chains or more.
   */
  method Discover(c: Cells, size: nat) returns (found: Option<nat>)
    ensures found.Some? ==> FirstSufficient(c, size, found.value)
    ensures found.None? ==>
      forall v: nat :: MinWidth(size) <= v <= c.rows ==> !Sufficient(Extract(c, v, None), size)
  {
    var w := MinWidth(size);
    while w <= c.rows
      invariant MinWidth(size) <= w
      invariant forall v: nat :: MinWidth(size) <= v < w ==> !Sufficient(Extract(c, v, None), size)
      decreases c.rows + 1 - w
    {
      var tmp := Extract(c, w, None);
      if tmp.Some? && |tmp.value| >= size {
        return Some(w);
      }
      w := w + 1;
    }
    found := None;
  }

  /**
   * The width and bound in force when acceptance `k` of `acc` was made:
   * those Phase B started from for the first, then the width and new bound
   * of the acceptance before it.
   */
  function AccFrom(acc: seq<(nat, nat)>, k: nat, minw: nat, b: nat): (nat, nat)
    requires k <= |acc|
  {
    if k == 0 then (minw, b) else acc[k - 1]
  }

  /**
   * Acceptance `k` of `acc`, a pair of width and new bound, is what the scan
   * makes from the width and bound before it. The width does not lie below
   * the previous one or above the ceiling then in force. The candidate there,
   * asked for under the previous bound, is sufficient and its size-th
   * smallest chain length is the new bound, strictly below the previous one.
   * No width between the previous acceptance and this one improves on the
   * previous bound.
   */
  ghost predicate AcceptedAt(c: Cells, size: nat, b: nat, minw: nat, maxw: nat, acc: seq<(nat, nat)>, k: nat)
    requires k < |acc|
  {
    var prev := AccFrom(acc, k, minw, b);
    && prev.0 <= acc[k].0 <= (if k == 0 then maxw else Min(maxw, acc[0].0 + 6))
    && acc[k].1 < prev.1
    && Sufficient(Extract(c, acc[k].0, Some(prev.1)), size)
    && IsKth(Extract(c, acc[k].0, Some(prev.1)).value, size, acc[k].1)
    && forall v: nat :: prev.0 <= v < acc[k].0 ==> !Improves(Extract(c, v, Some(prev.1)), size, prev.1)
  }

  /** Every acceptance of `acc` follows from the one before it. */
  ghost predicate AcceptTrace(c: Cells, size: nat, b: nat, minw: nat, maxw: nat, acc: seq<(nat, nat)>)
  {
    forall k: nat :: k < |acc| ==> AcceptedAt(c, size, b, minw, maxw, acc, k)
  }

  /** Appending an acceptance made from the last one keeps the trace. */
  lemma AcceptTraceExtend(c: Cells, size: nat, b: nat, minw: nat, maxw: nat, acc: seq<(nat, nat)>, a: (nat, nat))
    requires AcceptTrace(c, size, b, minw, maxw, acc)
    requires AcceptedAt(c, size, b, minw, maxw, acc + [a], |acc|)
    ensures AcceptTrace(c, size, b, minw, maxw, acc + [a])
  {
    var acc' := acc + [a];
    forall k: nat | k < |acc'|
      ensures AcceptedAt(c, size, b, minw, maxw, acc', k)
    {
      if k < |acc| {
        assert AcceptedAt(c, size, b, minw, maxw, acc, k);
        assert acc'[k] == acc[k] && acc'[0] == acc[0];
        assert AccFrom(acc', k, minw, b) == AccFrom(acc, k, minw, b);
      }
    }
  }

  /**
   * What Phase B promises when it scans widths from `minw` up to a ceiling
   * that starts at `maxw`, from embedding `emb` and bound `b`, and ends with
   * `emb'`, `b'` and the final ceiling `ceiling`; `acc` lists its
   * acceptances in order, each a width and the bound it set.
   *   - Each acceptance follows from the one before it (`AcceptTrace`), and
   *     the final bound is the last acceptance's, or `b` when there is none.
   *   - No width from the last acceptance (or `minw`) to the ceiling has a
   *     candidate that improves on the final bound.
   *   - With no acceptance nothing changes and the ceiling stays `maxw`.
   *   - After an acceptance the ceiling is min(maxw, first width + 6), and
   *     `emb'` is a length-sorted reordering of the candidate at the last
   *     accepted width, asked for under the bound in force before it, whose
   *     size-th smallest chain length is the new bound.
   */
  ghost predicate Refined(c: Cells, size: nat, emb: Embedding, b: nat, minw: nat, maxw: nat,
                          emb': Embedding, b': nat, acc: seq<(nat, nat)>, ceiling: nat)
  {
    && AcceptTrace(c, size, b, minw, maxw, acc)
    && AccFrom(acc, |acc|, minw, b).1 == b' && b' <= b && (acc == [] <==> b' == b)
    && (forall v: nat :: AccFrom(acc, |acc|, minw, b).0 <= v <= ceiling ==> !Improves(Extract(c, v, Some(b')), size, b'))
    && (acc == [] ==> emb' == emb && ceiling == maxw)
    && (acc != [] ==>
          && ceiling == Min(maxw, acc[0].0 + 6)
          && |emb'| >= size && IsKth(emb', size, b') && SortedByLength(emb')
          && b' < AccFrom(acc, |acc| - 1, minw, b).1 <= b
          && Yields(c, acc[|acc| - 1].0, Some(AccFrom(acc, |acc| - 1, minw, b).1), emb'))
  }

  /**
   * Phase B: widths from `minw` up to a ceiling that starts at `maxw`. A
   * candidate is accepted only when it is sufficient and its size-th smallest
   * chain length is strictly below the current bound; then the bound
   * tightens, the ceiling shrinks to at most w + 6 and the same width is
   * tried again. The loop terminates because the bound strictly decreases
   * whenever the width is held fixed.
   */
  method Refine(c: Cells, size: nat, emb: Embedding, bound: nat, minw: nat, maxw: nat)
    returns (emb': Embedding, bound': nat, ghost acc: seq<(nat, nat)>, ghost ceiling: nat)
    requires size >= 1
    ensures Refined(c, size, emb, bound, minw, maxw, emb', bound', acc, ceiling)
    ensures ProducesChains(c) && bound' < bound ==> bound' > 0
  {
    emb', bound', acc := emb, bound, [];
    ghost var last := minw;
    var w := minw;
    var top := maxw;
    while w <= top
      invariant AcceptTrace(c, size, bound, minw, maxw, acc)
      invariant AccFrom(acc, |acc|, minw, bound) == (last, bound')
      invariant minw <= last <= w && bound' <= bound && (acc == [] <==> bound' == bound)
      invariant forall v: nat :: last <= v < w ==> !Improves(Extract(c, v, Some(bound')), size, bound')
      invariant acc == [] ==> emb' == emb && top == maxw
      invariant acc != [] ==>
        && top == Min(maxw, acc[0].0 + 6) && acc[0].0 <= last
        && |emb'| >= size && IsKth(emb', size, bound') && SortedByLength(emb')
        && bound' < AccFrom(acc, |acc| - 1, minw, bound).1 <= bound
        && Yields(c, acc[|acc| - 1].0, Some(AccFrom(acc, |acc| - 1, minw, bound).1), emb')
      invariant ProducesChains(c) && bound' < bound ==> bound' > 0
      decreases bound', top as int + 1 - w as int
    {
      var tmp := Extract(c, w, Some(bound'));
      if tmp.Some? && |tmp.value| >= size {
        var tlen, sorted := MaxLen.MaxLenOf(tmp.value, size);
        if tlen < bound' {
          if ProducesChains(c) {
            KthPositive(tmp.value, size, tlen);
          }
          assert AccFrom(acc + [(w, tlen)], |acc|, minw, bound) == (last, bound');
          assert (acc + [(w, tlen)])[|acc|] == (w, tlen);
          assert acc != [] ==> (acc + [(w, tlen)])[0] == acc[0];
          assert AcceptedAt(c, size, bound, minw, maxw, acc + [(w, tlen)], |acc|);
          AcceptTraceExtend(c, size, bound, minw, maxw, acc, (w, tlen));
          acc := acc + [(w, tlen)];
          emb', bound', top, last := sorted, tlen, Min(top, w + 6), w;
          continue;
        }
        forall v: nat | IsKth(tmp.value, size, v) ensures v >= bound' {
          KthUnique(tmp.value, size, v, tlen);
        }
      }
      w := w + 1;
    }
    ceiling := top;
  }

  /**
   * With no bound carried in: Phase A found `w0` as the first sufficient
   * width and `b0` as its candidate's size-th smallest chain length, and
   * Phase B then ran from that candidate and bound over widths `w0` to
   * min(dim0, w0 + 6).
   */
  ghost predicate DiscoveredThenRefined(c: Cells, size: nat, w0: nat, b0: nat,
                                        emb': Embedding, b': nat, acc: seq<(nat, nat)>, ceiling: nat)
  {
    && FirstSufficient(c, size, w0) && IsKth(Extract(c, w0, None).value, size, b0)
    && Refined(c, size, Extract(c, w0, None).value, b0, w0, Min(c.rows, w0 + 6), emb', b', acc, ceiling)
  }

  /**
   * What one call of `find_clique_nice` on one realization of the denser
   * family returns, given the running embedding `emb` and bound `bound` it
   * starts from: the outcome `ok`, the embedding `emb'` and the bound
   * `bound'` it leaves.
   *   - With no bound carried in, the call fails, changing nothing, exactly
   *     when no width from MinWidth(size) to the grid extent has a
   *     sufficient unlimited candidate. Otherwise Phase B starts from the
   *     first such width `w0`, from its candidate and its size-th smallest
   *     chain length, and searches up to min(dim0, w0 + 6).
   *   - With a bound carried in, Phase B starts from the caller's embedding
   *     and bound and searches widths MinWidth(size) to 6 * bound.
   *   - Success means `size` chains or more, and with a bound carried in it
   *     is exactly that.
   *   - Any change leaves an embedding whose size-th smallest chain length
   *     is the new bound.
   *   - When every candidate has non-empty chains, the new bound is
   *     positive exactly when one was carried in or the call succeeded.
   */
  ghost predicate Outcome(c: Cells, size: nat, emb: Embedding, bound: nat, ok: bool, emb': Embedding, bound': nat)
  {
    && (ok ==> |emb'| >= size)
    && (bound > 0 ==> (ok <==> |emb'| >= size))
    && (bound > 0 ==> bound' <= bound)
    && (bound == 0 && !ok ==>
          && emb' == emb && bound' == 0
          && forall w: nat :: MinWidth(size) <= w <= c.rows ==> !Sufficient(Extract(c, w, None), size))
    && (bound == 0 && ok ==>
          exists w0: nat, b0: nat, acc: seq<(nat, nat)>, ceiling: nat ::
            DiscoveredThenRefined(c, size, w0, b0, emb', bound', acc, ceiling))
    && (bound > 0 ==>
          exists acc: seq<(nat, nat)>, ceiling: nat ::
            Refined(c, size, emb, bound, MinWidth(size), bound * 6, emb', bound', acc, ceiling))
    && ((emb' == emb && bound' == bound) || (|emb'| >= size && IsKth(emb', size, bound')))
    && (ProducesChains(c) ==> (bound' > 0 <==> bound > 0 || ok))
  }

  /**
   * Phase A's first sufficient width `w0` and its candidate's size-th
   * smallest chain length `b0` bound the final bound `b'`; when they are
   * equal, no width from `w0` to min(dim0, w0 + 6) improves on it.
   */
  ghost predicate SearchedFrom(c: Cells, size: nat, w0: nat, b0: nat, b': nat)
  {
    && FirstSufficient(c, size, w0) && IsKth(Extract(c, w0, None).value, size, b0) && b' <= b0
    && (b' == b0 ==> forall v: nat :: w0 <= v <= Min(c.rows, w0 + 6) ==> !Improves(Extract(c, v, Some(b0)), size, b0))
  }

  /**
   * The widths Phase B searched. With a bound carried in and kept, no width
   * from MinWidth(size) to 6 * bound has a candidate that improves on it.
   * With no bound carried in, a success starts from the first sufficient
   * width and its candidate's bound, which the final bound never exceeds.
   */
  lemma OutcomeSearched(c: Cells, size: nat, emb: Embedding, bound: nat, ok: bool, emb': Embedding, bound': nat)
    requires Outcome(c, size, emb, bound, ok, emb', bound')
    ensures bound > 0 && bound' == bound ==>
      forall v: nat :: MinWidth(size) <= v <= 6 * bound ==> !Improves(Extract(c, v, Some(bound)), size, bound)
    ensures bound == 0 && ok ==> exists w0: nat, b0: nat :: SearchedFrom(c, size, w0, b0, bound')
  {
    if bound == 0 && ok {
      var w0: nat, b0: nat, acc: seq<(nat, nat)>, ceiling: nat :|
        DiscoveredThenRefined(c, size, w0, b0, emb', bound', acc, ceiling);
      assert Refined(c, size, Extract(c, w0, None).value, b0, w0, Min(c.rows, w0 + 6), emb', bound', acc, ceiling);
      assert SearchedFrom(c, size, w0, b0, bound');
    }
  }

  /** The facts about one call that the realization loop relies on. */
  lemma OutcomeBound(c: Cells, size: nat, emb: Embedding, bound: nat, ok: bool, emb': Embedding, bound': nat)
    requires Outcome(c, size, emb, bound, ok, emb', bound')
    ensures ok ==> |emb'| >= size
    ensures bound > 0 ==> bound' <= bound
    ensures ProducesChains(c) && bound > 0 ==> bound' > 0
    ensures bound' > 0 ==>
      || (ok && |emb'| >= size && IsKth(emb', size, bound'))
      || (emb' == emb && bound' == bound)
  {
  }

  /**
   * `find_clique_nice` for one realization of the denser family. `bound` is
   * the chain-length bound carried in (0: none yet); the returned bound is
   * the one carried out.
   */
  method FindCliqueNice(c: Cells, size: nat, emb: Embedding, bound: nat)
    returns (ok: bool, emb': Embedding, bound': nat)
    requires size >= 1
    ensures Outcome(c, size, emb, bound, ok, emb', bound')
  {
    var minw := MinWidth(size);
    var maxw := c.rows;
    var start, b := emb, bound;
    if bound == 0 {
      var found := Discover(c, size);
      if found.None? {
        return false, emb, bound;
      }
      minw := found.value;
      start := Extract(c, minw, None).value;
      var sorted;
      b, sorted := MaxLen.MaxLenOf(start, size);
      if ProducesChains(c) {
        KthPositive(start, size, b);
      }
      maxw := Min(maxw, minw + 6);
    } else {
      maxw := bound * 6;
    }
    ghost var acc, ceiling;
    emb', bound', acc, ceiling := Refine(c, size, start, b, minw, maxw);
    ok := |emb'| >= size;
    if bound == 0 {
      assert DiscoveredThenRefined(c, size, minw, b, emb', bound', acc, ceiling);
    }
  }
}
