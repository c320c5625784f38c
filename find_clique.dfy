/**
 * Top-level dispatch of the clique search, per lattice family, and the
 * single-realization entry point.
 *
 * The closed-form solvers for tiny sizes (`find_generic_1` .. `find_generic_4`)
 * are one oracle `solveSmall(k, e)`: whether the solver for size k succeeds,
 * and the output embedding it leaves when it starts from e. The realization
 * cache is the finite sequence of realizations it exposes: the initial one,
 * then one per `next()` that returns true.
 */
module FindClique {
  import opened Embeddings
  import ChimeraStrategy
  import PegasusStrategy

  /** What a closed-form solver reports, and the output embedding it leaves. */
  datatype Solved = Solved(ok: bool, emb: Embedding)

  /** What one strategy call on one realization returned, and the running state after it. */
  datatype Step = Step(ok: bool, emb: Embedding, bound: nat)

  /**
   * The output embedding after the strategy calls `steps`, starting from `e`:
   * each call that returns true overwrites it with the running embedding.
   */
  function Reported(e: Embedding, steps: seq<Step>): (r: Embedding)
  {
    if steps == [] then e
    else if steps[|steps| - 1].ok then steps[|steps| - 1].emb
    else Reported(e, steps[..|steps| - 1])
  }

  /**
   * The running embedding and bound that the strategy call on realization
   * `i` starts from: empty and 0 for the first, then what the previous call
   * left behind.
   */
  function Prev(trace: seq<Step>, i: nat): (s: Step)
    requires i <= |trace|
  {
    if i == 0 then Step(false, [], 0) else trace[i - 1]
  }

  /**
   * Entry `i` of `trace` is the outcome of the sparse strategy on
   * realization `i`, started from the running embedding and width cap that
   * entry `i - 1` left behind.
   */
  ghost predicate ChimeraStep(rs: seq<ChimeraStrategy.Cells>, size: nat, trace: seq<Step>, i: nat)
    requires i < |trace| <= |rs|
  {
    && rs[i].shore > 0
    && ChimeraStrategy.Outcome(rs[i], size, Prev(trace, i).emb, Prev(trace, i).bound,
                               trace[i].ok, trace[i].emb, trace[i].bound)
  }

  /** Every entry of `trace` is such an outcome. */
  ghost predicate ThreadedChimera(rs: seq<ChimeraStrategy.Cells>, size: nat, trace: seq<Step>)
  {
    |trace| <= |rs| && forall i: nat :: i < |trace| ==> ChimeraStep(rs, size, trace, i)
  }

  /** The same for the denser family and its chain-length bound. */
  ghost predicate PegasusStep(rs: seq<PegasusStrategy.Cells>, size: nat, trace: seq<Step>, i: nat)
    requires i < |trace| <= |rs|
  {
    PegasusStrategy.Outcome(rs[i], size, Prev(trace, i).emb, Prev(trace, i).bound,
                            trace[i].ok, trace[i].emb, trace[i].bound)
  }

  ghost predicate ThreadedPegasus(rs: seq<PegasusStrategy.Cells>, size: nat, trace: seq<Step>)
  {
    |trace| <= |rs| && forall i: nat :: i < |trace| ==> PegasusStep(rs, size, trace, i)
  }

  lemma ThreadedChimeraExtend(rs: seq<ChimeraStrategy.Cells>, size: nat, trace: seq<Step>, s: Step)
    requires ThreadedChimera(rs, size, trace) && |trace| < |rs| && rs[|trace|].shore > 0
    requires ChimeraStrategy.Outcome(rs[|trace|], size, Prev(trace, |trace|).emb, Prev(trace, |trace|).bound,
                                     s.ok, s.emb, s.bound)
    ensures ThreadedChimera(rs, size, trace + [s])
  {
    forall i: nat | i < |trace| + 1 ensures ChimeraStep(rs, size, trace + [s], i) {
      assert Prev(trace + [s], i) == Prev(trace, i);
      if i < |trace| {
        assert ChimeraStep(rs, size, trace, i);
      }
    }
  }

  lemma ThreadedPegasusExtend(rs: seq<PegasusStrategy.Cells>, size: nat, trace: seq<Step>, s: Step)
    requires ThreadedPegasus(rs, size, trace) && |trace| < |rs|
    requires PegasusStrategy.Outcome(rs[|trace|], size, Prev(trace, |trace|).emb, Prev(trace, |trace|).bound,
                                     s.ok, s.emb, s.bound)
    ensures ThreadedPegasus(rs, size, trace + [s])
  {
    forall i: nat | i < |trace| + 1 ensures PegasusStep(rs, size, trace + [s], i) {
      assert Prev(trace + [s], i) == Prev(trace, i);
      if i < |trace| {
        assert PegasusStep(rs, size, trace, i);
      }
    }
  }

  /** Once positive, the carried bound never grows and never returns to 0. */
  ghost predicate Tightening(steps: seq<Step>)
  {
    forall i, j :: 0 <= i < j < |steps| && steps[i].bound > 0 ==> 0 < steps[j].bound <= steps[i].bound
  }

  /** From one realization to the next, a positive bound never grows. */
  ghost predicate NeverLoosens(steps: seq<Step>)
  {
    forall i :: 0 <= i < |steps| - 1 && steps[i].bound > 0 ==> steps[i + 1].bound <= steps[i].bound
  }

  lemma ReportedExtend(e: Embedding, steps: seq<Step>, s: Step)
    ensures Reported(e, steps + [s]) == if s.ok then s.emb else Reported(e, steps)
  {
  }

  /** The output is the starting embedding, or the running embedding of some successful call. */
  lemma {:induction false} ReportedSource(e: Embedding, steps: seq<Step>)
    ensures || Reported(e, steps) == e
            || exists k :: 0 <= k < |steps| && steps[k].ok && Reported(e, steps) == steps[k].emb
  {
    if steps != [] && !steps[|steps| - 1].ok {
      var init := steps[..|steps| - 1];
      ReportedSource(e, init);
      if Reported(e, init) != e {
        var k :| 0 <= k < |init| && init[k].ok && Reported(e, init) == init[k].emb;
        assert steps[k] == init[k];
      }
    }
  }

  /**
   * If no step lets a positive bound grow or fall back to 0, the bound
   * tightens across the whole trace.
   */
  lemma TighteningFromSteps(steps: seq<Step>)
    requires forall j :: 0 < j < |steps| && steps[j - 1].bound > 0 ==> 0 < steps[j].bound <= steps[j - 1].bound
    ensures Tightening(steps)
  {
    forall i, j | 0 <= i < j < |steps| && steps[i].bound > 0
      ensures 0 < steps[j].bound <= steps[i].bound
    {
      TighteningBetween(steps, i, j);
    }
  }

  lemma {:induction false} TighteningBetween(steps: seq<Step>, i: nat, j: nat)
    requires forall j :: 0 < j < |steps| && steps[j - 1].bound > 0 ==> 0 < steps[j].bound <= steps[j - 1].bound
    requires i < j < |steps| && steps[i].bound > 0
    ensures 0 < steps[j].bound <= steps[i].bound
    decreases j - i
  {
    if i + 1 < j {
      TighteningBetween(steps, i, j - 1);
    }
  }

  /** Threading the sparse strategy's cap through the realizations tightens it. */
  lemma ChimeraTightening(rs: seq<ChimeraStrategy.Cells>, size: nat, trace: seq<Step>)
    requires ThreadedChimera(rs, size, trace)
    ensures Tightening(trace)
  {
    forall j | 0 < j < |trace| && trace[j - 1].bound > 0 ensures 0 < trace[j].bound <= trace[j - 1].bound {
      assert ChimeraStep(rs, size, trace, j);
      assert Prev(trace, j) == trace[j - 1];
    }
    TighteningFromSteps(trace);
  }

  /**
   * The sparse dispatcher's output is the starting embedding, one with
   * `size` chains or more, or the shortcut's inflation of a first fitting
   * cell of some realization.
   */
  lemma ChimeraReportedShape(rs: seq<ChimeraStrategy.Cells>, size: nat, start: Embedding, trace: seq<Step>)
    requires ThreadedChimera(rs, size, trace)
    ensures || Reported(start, trace) == start
            || |Reported(start, trace)| >= size
            || exists i: nat, y: nat, x: nat, e: Embedding ::
                 i < |rs| && ChimeraStrategy.ShortcutApplies(rs[i], size)
                 && ChimeraStrategy.FirstFit(rs[i], size, y, x) && Reported(start, trace) == rs[i].inflate(y, x, e)
  {
    ReportedSource(start, trace);
    if Reported(start, trace) != start {
      var k :| 0 <= k < |trace| && trace[k].ok && Reported(start, trace) == trace[k].emb;
      assert ChimeraStep(rs, size, trace, k);
      assert ChimeraStrategy.Outcome(rs[k], size, Prev(trace, k).emb, Prev(trace, k).bound,
                                     trace[k].ok, trace[k].emb, trace[k].bound);
    }
  }

  /** Threading the denser strategy's bound: a positive bound never grows from one realization to the next. */
  lemma PegasusNeverLoosens(rs: seq<PegasusStrategy.Cells>, size: nat, trace: seq<Step>)
    requires ThreadedPegasus(rs, size, trace)
    ensures NeverLoosens(trace)
  {
    forall i | 0 <= i < |trace| - 1 && trace[i].bound > 0 ensures trace[i + 1].bound <= trace[i].bound {
      assert PegasusStep(rs, size, trace, i + 1);
      assert Prev(trace, i + 1) == trace[i];
      PegasusStrategy.OutcomeBound(rs[i + 1], size, trace[i].emb, trace[i].bound,
                                   trace[i + 1].ok, trace[i + 1].emb, trace[i + 1].bound);
    }
  }

  /** When every cache yields non-empty chains, the bound tightens across all realizations. */
  lemma PegasusTightening(rs: seq<PegasusStrategy.Cells>, size: nat, trace: seq<Step>)
    requires ThreadedPegasus(rs, size, trace)
    requires forall i :: 0 <= i < |rs| ==> PegasusStrategy.ProducesChains(rs[i])
    ensures Tightening(trace)
  {
    forall j | 0 < j < |trace| && trace[j - 1].bound > 0 ensures 0 < trace[j].bound <= trace[j - 1].bound {
      assert PegasusStep(rs, size, trace, j);
      assert Prev(trace, j) == trace[j - 1];
      PegasusStrategy.OutcomeBound(rs[j], size, trace[j - 1].emb, trace[j - 1].bound,
                                   trace[j].ok, trace[j].emb, trace[j].bound);
    }
    TighteningFromSteps(trace);
  }

  /** The denser dispatcher's output is the starting embedding or has `size` chains or more. */
  lemma PegasusReportedShape(rs: seq<PegasusStrategy.Cells>, size: nat, start: Embedding, trace: seq<Step>)
    requires ThreadedPegasus(rs, size, trace)
    ensures Reported(start, trace) == start || |Reported(start, trace)| >= size
  {
    ReportedSource(start, trace);
    if Reported(start, trace) != start {
      var k :| 0 <= k < |trace| && trace[k].ok && Reported(start, trace) == trace[k].emb;
      assert PegasusStep(rs, size, trace, k);
      PegasusStrategy.OutcomeBound(rs[k], size, Prev(trace, k).emb, Prev(trace, k).bound,
                                   trace[k].ok, trace[k].emb, trace[k].bound);
    }
  }

  /**
   * A positive bound after realization `j` is the size-th smallest chain
   * length of the running embedding, and that embedding is the output so far.
   */
  lemma {:induction false} PegasusBoundIsKth(rs: seq<PegasusStrategy.Cells>, size: nat, start: Embedding,
                                             trace: seq<Step>, j: nat)
    requires ThreadedPegasus(rs, size, trace)
    requires j < |trace| && trace[j].bound > 0
    ensures |trace[j].emb| >= size && IsKth(trace[j].emb, size, trace[j].bound)
    ensures Reported(start, trace[..j + 1]) == trace[j].emb
  {
    assert PegasusStep(rs, size, trace, j);
    PegasusStrategy.OutcomeBound(rs[j], size, Prev(trace, j).emb, Prev(trace, j).bound,
                                 trace[j].ok, trace[j].emb, trace[j].bound);
    assert trace[..j + 1][..j] == trace[..j];
    if j > 0 && trace[j].emb == trace[j - 1].emb && trace[j].bound == trace[j - 1].bound {
      PegasusBoundIsKth(rs, size, start, trace, j - 1);
      assert trace[..j] == trace[..j - 1 + 1];
    }
  }

  /** What threading the denser strategy through every realization gives the dispatcher. */
  lemma PegasusThreadedFacts(rs: seq<PegasusStrategy.Cells>, size: nat, start: Embedding, trace: seq<Step>)
    requires ThreadedPegasus(rs, size, trace) && |trace| >= 1
    ensures NeverLoosens(trace)
    ensures trace[|trace| - 1].bound > 0 ==>
              |Reported(start, trace)| >= size && IsKth(Reported(start, trace), size, trace[|trace| - 1].bound)
    ensures (forall i :: 0 <= i < |rs| ==> PegasusStrategy.ProducesChains(rs[i])) ==> Tightening(trace)
  {
    PegasusNeverLoosens(rs, size, trace);
    if trace[|trace| - 1].bound > 0 {
      PegasusBoundIsKth(rs, size, start, trace, |trace| - 1);
      assert trace[..|trace| - 1 + 1] == trace;
    }
    if forall i :: 0 <= i < |rs| ==> PegasusStrategy.ProducesChains(rs[i]) {
      PegasusTightening(rs, size, trace);
    }
  }

  /**
   * The realization loop of `find_clique` for the sparse family: the
   * strategy runs on the initial realization and on every further one, with
   * one running embedding and width cap threaded through all of them; the
   * output starts as `start` and is overwritten whenever a call succeeds.
   */
  method SearchChimera(realizations: seq<ChimeraStrategy.Cells>, size: nat, start: Embedding)
    returns (emb': Embedding, ghost trace: seq<Step>)
    requires forall i :: 0 <= i < |realizations| ==> realizations[i].shore > 0
    ensures |trace| == |realizations| && ThreadedChimera(realizations, size, trace)
    ensures emb' == Reported(start, trace)
    ensures || emb' == start
            || |emb'| >= size
            || exists i: nat, y: nat, x: nat, e: Embedding ::
                 i < |realizations| && ChimeraStrategy.ShortcutApplies(realizations[i], size)
                 && ChimeraStrategy.FirstFit(realizations[i], size, y, x) && emb' == realizations[i].inflate(y, x, e)
  {
    var maxlen: nat := 0;
    var running: Embedding := [];
    emb', trace := start, [];
    var i := 0;
    while i < |realizations|
      invariant 0 <= i <= |realizations| && |trace| == i
      invariant ThreadedChimera(realizations, size, trace)
      invariant running == Prev(trace, i).emb && maxlen == Prev(trace, i).bound
      invariant emb' == Reported(start, trace)
    {
      var found;
      found, running, maxlen := ChimeraStrategy.FindCliqueNice(realizations[i], size, running, maxlen);
      if found {
        emb' := running;
      }
      ThreadedChimeraExtend(realizations, size, trace, Step(found, running, maxlen));
      ReportedExtend(start, trace, Step(found, running, maxlen));
      trace := trace + [Step(found, running, maxlen)];
      i := i + 1;
    }
    ChimeraReportedShape(realizations, size, start, trace);
  }

  /** `find_clique` for the sparse family. */
  method FindCliqueChimera(solveSmall: (nat, Embedding) -> Solved, realizations: seq<ChimeraStrategy.Cells>,
                           size: nat, emb: Embedding)
    returns (ok: bool, emb': Embedding, ghost trace: seq<Step>)
    requires |realizations| >= 1
    requires forall i :: 0 <= i < |realizations| ==> realizations[i].shore > 0
    ensures size == 0 ==> ok && emb' == emb
    ensures 1 <= size <= 2 ==> ok == solveSmall(size, emb).ok && emb' == solveSmall(size, emb).emb
    ensures size >= 3 ==>
      && (ok <==> |emb'| >= size)
      && |trace| == |realizations| && ThreadedChimera(realizations, size, trace)
      && emb' == Reported(emb, trace)
      && Tightening(trace)
  {
    if size == 0 {
      return true, emb, [];
    } else if size <= 2 {
      var r := solveSmall(size, emb);
      return r.ok, r.emb, [];
    }
    emb', trace := SearchChimera(realizations, size, emb);
    ChimeraTightening(realizations, size, trace);
    ok := |emb'| >= size;
  }

  /**
   * The realization loop of `find_clique` for the denser family, threading
   * one running embedding and chain-length bound through every realization.
   */
  method SearchPegasus(realizations: seq<PegasusStrategy.Cells>, size: nat, start: Embedding)
    returns (emb': Embedding, ghost trace: seq<Step>)
    requires size >= 1
    ensures |trace| == |realizations| && ThreadedPegasus(realizations, size, trace)
    ensures emb' == Reported(start, trace)
    ensures emb' == start || |emb'| >= size
  {
    var maxlen: nat := 0;
    var running: Embedding := [];
    emb', trace := start, [];
    var i := 0;
    while i < |realizations|
      invariant 0 <= i <= |realizations| && |trace| == i
      invariant ThreadedPegasus(realizations, size, trace)
      invariant running == Prev(trace, i).emb && maxlen == Prev(trace, i).bound
      invariant emb' == Reported(start, trace)
    {
      var found;
      found, running, maxlen := PegasusStrategy.FindCliqueNice(realizations[i], size, running, maxlen);
      if found {
        emb' := running;
      }
      ThreadedPegasusExtend(realizations, size, trace, Step(found, running, maxlen));
      ReportedExtend(start, trace, Step(found, running, maxlen));
      trace := trace + [Step(found, running, maxlen)];
      i := i + 1;
    }
    PegasusReportedShape(realizations, size, start, trace);
  }

  /** `find_clique` for the denser family. */
  method FindCliquePegasus(solveSmall: (nat, Embedding) -> Solved, realizations: seq<PegasusStrategy.Cells>,
                           size: nat, emb: Embedding)
    returns (ok: bool, emb': Embedding, ghost trace: seq<Step>)
    requires |realizations| >= 1
    ensures size == 0 ==> ok && emb' == emb
    ensures 1 <= size <= 2 ==> ok == solveSmall(size, emb).ok && emb' == solveSmall(size, emb).emb
    ensures 3 <= size <= 4 && solveSmall(size, emb).ok ==> ok && emb' == solveSmall(size, emb).emb
    ensures size >= 3 && !(size <= 4 && solveSmall(size, emb).ok) ==>
      var start := if size <= 4 then solveSmall(size, emb).emb else emb;
      && (ok <==> |emb'| >= size)
      && |trace| == |realizations| && ThreadedPegasus(realizations, size, trace)
      && emb' == Reported(start, trace)
      && NeverLoosens(trace)
      && (trace[|trace| - 1].bound > 0 ==> |emb'| >= size && IsKth(emb', size, trace[|trace| - 1].bound))
      && ((forall i :: 0 <= i < |realizations| ==> PegasusStrategy.ProducesChains(realizations[i])) ==> Tightening(trace))
  {
    if size == 0 {
      return true, emb, [];
    } else if size <= 2 {
      var r := solveSmall(size, emb);
      return r.ok, r.emb, [];
    }
    var start := emb;
    if size <= 4 {
      var r := solveSmall(size, emb);
      if r.ok {
        return true, r.emb, [];
      }
      start := r.emb;
    }
    emb', trace := SearchPegasus(realizations, size, start);
    PegasusThreadedFacts(realizations, size, start, trace);
    ok := |emb'| >= size;
  }

  /**
   * The single-realization entry point for the sparse family, with the
   * carried bound starting at 0: every width from the coverage minimum to
   * the grid's smaller extent is searched.
   */
  method FindCliqueNiceChimera(c: ChimeraStrategy.Cells, size: nat, emb: Embedding)
    returns (ok: bool, emb': Embedding)
    requires c.shore > 0
    ensures ChimeraStrategy.ShortcutApplies(c, size) ==> ok
    ensures !ChimeraStrategy.ShortcutApplies(c, size) ==>
      var minw := ChimeraStrategy.MinWidth(c, size);
      && (ok <==> exists w: nat :: minw <= w <= Min(c.rows, c.cols)
                    && ChimeraStrategy.AcceptsAt(c, size, ChimeraStrategy.Carried(c, emb, minw, w), w))
      && (ok ==> |emb'| >= size)
    ensures exists b: nat :: ChimeraStrategy.Outcome(c, size, emb, 0, ok, emb', b)
  {
    var bound;
    ok, emb', bound := ChimeraStrategy.FindCliqueNice(c, size, emb, 0);
    assert ChimeraStrategy.Outcome(c, size, emb, 0, ok, emb', bound);
    if ok && bound >= 1 {
      ghost var minw := ChimeraStrategy.MinWidth(c, size);
      assert !ChimeraStrategy.ShortcutApplies(c, size) ==>
        ChimeraStrategy.AcceptsAt(c, size, ChimeraStrategy.Carried(c, emb, minw, bound - 1), bound - 1);
    }
  }

  /**
   * The single-realization entry point for the sparse family as the source
   * has it: the bound is an uninitialised variable, modelled as the
   * arbitrary value `stale`, which caps the widths searched.
   */
  method FindCliqueNiceChimeraAsWritten(c: ChimeraStrategy.Cells, size: nat, emb: Embedding, stale: nat)
    returns (ok: bool, emb': Embedding)
    requires c.shore > 0
    ensures !ChimeraStrategy.ShortcutApplies(c, size) ==>
      var minw := ChimeraStrategy.MinWidth(c, size);
      (ok <==> exists w: nat :: minw <= w <= ChimeraStrategy.MaxWidth(c, stale)
                 && ChimeraStrategy.AcceptsAt(c, size, ChimeraStrategy.Carried(c, emb, minw, w), w))
    ensures exists b: nat :: ChimeraStrategy.Outcome(c, size, emb, stale, ok, emb', b)
  {
    var bound;
    ok, emb', bound := ChimeraStrategy.FindCliqueNice(c, size, emb, stale);
    assert ChimeraStrategy.Outcome(c, size, emb, stale, ok, emb', bound);
    if ok && bound >= 1 {
      ghost var minw := ChimeraStrategy.MinWidth(c, size);
      assert !ChimeraStrategy.ShortcutApplies(c, size) ==>
        ChimeraStrategy.AcceptsAt(c, size, ChimeraStrategy.Carried(c, emb, minw, bound - 1), bound - 1);
    }
  }

  /**
   * A realization on which the two differ: a 2x2 grid with half-cells of 4
   * qubits whose width-2 clique iterator yields five chains. Searched from a
   * fresh bound, size 5 succeeds at width 2; from a stale bound of 2 only
   * widths up to 1 are searched and the call fails.
   */
  method StaleBoundLosesClique() returns (freshOk: bool, staleOk: bool)
    ensures freshOk && !staleOk
  {
    var five: Embedding := [[0], [1], [2], [3], [4]];
    var c := ChimeraStrategy.Cells(2, 2, 4, (y, x) => 0, (y, x, e) => e,
                                   (w, e) => ChimeraStrategy.Attempt(true, five));
    assert ChimeraStrategy.AcceptsAt(c, 5, ChimeraStrategy.Carried(c, [], 2, 2), 2);
    var e1, e2;
    freshOk, e1 := FindCliqueNiceChimera(c, 5, []);
    staleOk, e2 := FindCliqueNiceChimeraAsWritten(c, 5, [], 2);
  }

  /**
   * The single-realization entry point for the denser family, with the
   * bound starting at 0: the discovery scan always runs.
   */
  method FindCliqueNicePegasus(c: PegasusStrategy.Cells, size: nat, emb: Embedding)
    returns (ok: bool, emb': Embedding)
    requires size >= 1
    ensures ok <==> exists w: nat :: PegasusStrategy.MinWidth(size) <= w <= c.rows
                      && PegasusStrategy.Sufficient(PegasusStrategy.Extract(c, w, None), size)
    ensures ok ==> |emb'| >= size
    ensures !ok ==> emb' == emb
    ensures exists b: nat :: PegasusStrategy.Outcome(c, size, emb, 0, ok, emb', b)
  {
    var bound;
    ok, emb', bound := PegasusStrategy.FindCliqueNice(c, size, emb, 0);
    assert PegasusStrategy.Outcome(c, size, emb, 0, ok, emb', bound);
  }

  /**
   * The single-realization entry point for the denser family as the source
   * has it: a nonzero stale bound skips the discovery scan, so the result
   * is then just whether the caller's embedding, or a refinement of it under
   * that bound, is big enough.
   */
  method FindCliqueNicePegasusAsWritten(c: PegasusStrategy.Cells, size: nat, emb: Embedding, stale: nat)
    returns (ok: bool, emb': Embedding)
    requires size >= 1
    ensures stale > 0 ==> (ok <==> |emb'| >= size)
    ensures stale > 0 ==>
      || emb' == emb
      || exists w: nat, b: nat :: 0 < b <= stale && PegasusStrategy.Yields(c, w, Some(b), emb')
    ensures exists b: nat :: PegasusStrategy.Outcome(c, size, emb, stale, ok, emb', b)
  {
    var bound;
    ok, emb', bound := PegasusStrategy.FindCliqueNice(c, size, emb, stale);
    assert PegasusStrategy.Outcome(c, size, emb, stale, ok, emb', bound);
  }

  /**
   * A realization on which the two differ: three rows whose unlimited
   * clique cache yields five chains at every width and whose length-limited
   * cache yields nothing. Searched from a fresh bound, size 5 succeeds in the
   * discovery scan; from a stale bound of 1 the scan is skipped and the call
   * fails.
   */
  method StaleBoundSkipsDiscovery() returns (freshOk: bool, staleOk: bool)
    ensures freshOk && !staleOk
  {
    var five: Embedding := [[0], [1], [2], [3], [4]];
    var c := PegasusStrategy.Cells(3, (w, limit: Option<nat>) => if limit.None? then Some(five) else None);
    assert PegasusStrategy.Sufficient(PegasusStrategy.Extract(c, 3, None), 5);
    var e1, e2;
    freshOk, e1 := FindCliqueNicePegasus(c, 5, []);
    staleOk, e2 := FindCliqueNicePegasusAsWritten(c, 5, [], 1);
  }
}
