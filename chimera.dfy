/**
 * The search strategy for the sparse lattice family (a grid of complete
 * bipartite cells, each half holding `shore` qubits).
 *
 * One realization of the defective hardware graph is seen only through the
 * caches built from it, given here as oracles with no behaviour beyond their
 * return values:
 *   score(y, x)       usable-qubit count of the 1x1 bundle anchored at cell (y, x);
 *   inflate(y, x, e)  the embedding after materialising that bundle into e;
 *   next(w, e)        the clique iterator of width w asked once for a candidate,
 *                     given the running embedding e it writes into.
 *
 * The bound carried in and out is a width cap: after a success at width w it
 * is w + 1, and later searches are capped at width (bound - 1).
 */
module ChimeraStrategy {
  import opened Embeddings

  /** What `iter.next(emb)` reports, and the embedding it leaves behind. */
  datatype Attempt = Attempt(found: bool, emb: Embedding)

  datatype Cells = Cells(
    rows: nat,
    cols: nat,
    shore: nat,
    score: (nat, nat) -> nat,
    inflate: (nat, nat, Embedding) -> Embedding,
    next: (nat, Embedding) -> Attempt)

  function Score(c: Cells, y: nat, x: nat): (s: nat) { c.score(y, x) }

  function Next(c: Cells, w: nat, e: Embedding): (a: Attempt) { c.next(w, e) }

  /** Cell (y, x) fits `size` vertices and no cell before it in row-major order does. */
  ghost predicate FirstFit(c: Cells, size: nat, y: nat, x: nat)
  {
    && y < c.rows && x < c.cols
    && Score(c, y, x) >= size
    && (forall y': nat, x': nat :: y' < y && x' < c.cols ==> Score(c, y', x') < size)
    && (forall x': nat :: x' < x ==> Score(c, y, x') < size)
  }

  /** The single-cell shortcut is taken: the size fits one half-cell and some cell scores enough. */
  ghost predicate ShortcutApplies(c: Cells, size: nat)
  {
    size <= c.shore && exists y: nat, x: nat :: y < c.rows && x < c.cols && Score(c, y, x) >= size
  }

  /** The fewest cells whose halves cover `size` vertices: ceiling(size / shore). */
  function MinWidth(c: Cells, size: nat): (w: nat)
    requires c.shore > 0
    ensures w * c.shore >= size && (w == 0 || (w - 1) * c.shore < size)
  {
    (size + c.shore - 1) / c.shore
  }

  /** The widest width searched: the grid's smaller extent, capped below a width already known to work. */
  function MaxWidth(c: Cells, bound: nat): (w: nat)
    ensures w <= c.rows && w <= c.cols
    ensures bound > 0 ==> w < bound
    ensures bound == 0 ==> w == Min(c.rows, c.cols)
    ensures bound > 0 ==> w == bound - 1 || w == c.rows || w == c.cols
  {
    if bound > 0 then Min(bound - 1, Min(c.rows, c.cols)) else Min(c.rows, c.cols)
  }

  /** A candidate at width `w`, written into `e`, has `size` chains or more. */
  ghost predicate AcceptsAt(c: Cells, size: nat, e: Embedding, w: nat)
  {
    Next(c, w, e).found && |Next(c, w, e).emb| >= size
  }

  /** The running embedding after a rejected attempt: cleared when a too-small candidate was found. */
  function AfterReject(a: Attempt): (e: Embedding)
  {
    if a.found then [] else a.emb
  }

  /**
   * The running embedding that reaches width `v` when the scan starts at
   * width `from` with `e` and every width in between is rejected.
   */
  function Carried(c: Cells, e: Embedding, from: nat, v: nat): (r: Embedding)
    decreases v - from
  {
    if v <= from then e else AfterReject(Next(c, v - 1, Carried(c, e, from, v - 1)))
  }

  /** Scans the cells in row-major order for the first whose 1x1 bundle scores `size` or more. */
  method FirstFittingCell(c: Cells, size: nat) returns (cell: Option<(nat, nat)>)
    ensures cell.Some? ==> FirstFit(c, size, cell.value.0, cell.value.1)
    ensures cell.None? ==> forall y: nat, x: nat :: y < c.rows && x < c.cols ==> Score(c, y, x) < size
  {
    var y := 0;
    while y < c.rows
      invariant y <= c.rows
      invariant forall y': nat, x': nat :: y' < y && x' < c.cols ==> Score(c, y', x') < size
    {
      var x := 0;
      while x < c.cols
        invariant x <= c.cols
        invariant forall x': nat :: x' < x ==> Score(c, y, x') < size
      {
        if Score(c, y, x) >= size {
          return Some((y, x));
        }
        x := x + 1;
      }
      y := y + 1;
    }
    return None;
  }

  /**
   * Tries widths upward from `minw` to `maxw`; the first whose candidate has
   * `size` chains or more is accepted and its width returned.
   */
  method ScanWidths(c: Cells, size: nat, emb: Embedding, minw: nat, maxw: nat)
    returns (accepted: Option<nat>, emb': Embedding)
    ensures accepted.Some? ==>
      && minw <= accepted.value <= maxw
      && AcceptsAt(c, size, Carried(c, emb, minw, accepted.value), accepted.value)
      && emb' == Next(c, accepted.value, Carried(c, emb, minw, accepted.value)).emb
      && forall v: nat :: minw <= v < accepted.value ==> !AcceptsAt(c, size, Carried(c, emb, minw, v), v)
    ensures accepted.None? ==>
      && emb' == Carried(c, emb, minw, maxw + 1)
      && forall v: nat :: minw <= v <= maxw ==> !AcceptsAt(c, size, Carried(c, emb, minw, v), v)
  {
    emb' := emb;
    var width := minw;
    while width <= maxw
      invariant minw <= width <= if minw <= maxw then maxw + 1 else minw
      invariant emb' == Carried(c, emb, minw, width)
      invariant forall v: nat :: minw <= v < width ==> !AcceptsAt(c, size, Carried(c, emb, minw, v), v)
    {
      var attempt := Next(c, width, emb');
      if attempt.found {
        if |attempt.emb| < size {
          emb' := [];
        } else {
          return Some(width), attempt.emb;
        }
      } else {
        emb' := attempt.emb;
      }
      width := width + 1;
    }
    accepted := None;
  }

  /**
   * What one call of `find_clique_nice` on one realization of the sparse
   * family returns, given the running embedding `emb` and width cap `bound`
   * it starts from: the outcome `ok`, the embedding `emb'` and the cap
   * `bound'` it leaves.
   *   - The single-cell shortcut, when it applies, always succeeds: it
   *     inflates the first fitting cell into `emb` and keeps the cap.
   *   - Otherwise a success is the first accepting width `w` from
   *     MinWidth to MaxWidth, given what earlier rejections left behind; the
   *     cap becomes w + 1 and the embedding has `size` chains or more.
   *   - A failure rejected every width in range and keeps the cap.
   *   - A positive cap never grows and stays positive.
   */
  ghost predicate Outcome(c: Cells, size: nat, emb: Embedding, bound: nat, ok: bool, emb': Embedding, bound': nat)
    requires c.shore > 0
  {
    && (ShortcutApplies(c, size) ==>
          && ok && bound' == bound
          && exists y: nat, x: nat :: FirstFit(c, size, y, x) && emb' == c.inflate(y, x, emb))
    && (!ShortcutApplies(c, size) && ok ==>
          && bound' >= 1
          && var w := bound' - 1;
          && MinWidth(c, size) <= w <= MaxWidth(c, bound)
          && AcceptsAt(c, size, Carried(c, emb, MinWidth(c, size), w), w)
          && emb' == Next(c, w, Carried(c, emb, MinWidth(c, size), w)).emb
          && |emb'| >= size
          && forall v: nat :: MinWidth(c, size) <= v < w ==>
               !AcceptsAt(c, size, Carried(c, emb, MinWidth(c, size), v), v))
    && (!ShortcutApplies(c, size) && !ok ==>
          && bound' == bound
          && emb' == Carried(c, emb, MinWidth(c, size), MaxWidth(c, bound) + 1)
          && forall v: nat :: MinWidth(c, size) <= v <= MaxWidth(c, bound) ==>
               !AcceptsAt(c, size, Carried(c, emb, MinWidth(c, size), v), v))
    && (bound > 0 ==> 0 < bound' <= bound)
  }

  /**
   * `find_clique_nice` for one realization of the sparse family. `bound` is
   * the width cap carried in (0: none yet); the returned bound is the cap
   * carried out.
   */
  method FindCliqueNice(c: Cells, size: nat, emb: Embedding, bound: nat)
    returns (ok: bool, emb': Embedding, bound': nat)
    requires c.shore > 0
    ensures Outcome(c, size, emb, bound, ok, emb', bound')
  {
    if size <= c.shore {
      var cell := FirstFittingCell(c, size);
      if cell.Some? {
        var (y, x) := cell.value;
        return true, c.inflate(y, x, emb), bound;
      }
    }
    var minw := MinWidth(c, size);
    var maxw := MaxWidth(c, bound);
    var accepted;
    accepted, emb' := ScanWidths(c, size, emb, minw, maxw);
    if accepted.Some? {
      ok, bound' := true, accepted.value + 1;
    } else {
      ok, bound' := false, bound;
    }
  }
}
