# Clique search orchestration of busclique (minorminer), modelled in Dafny

busclique finds a minor-embedding of a complete graph of a requested `size`
into a defective hardware lattice. It maps each clique vertex to a chain of
hardware vertices. Two lattice families are supported. The sparse family
("chimera") is a grid of complete-bipartite cells whose halves hold `shore`
qubits. The denser family ("pegasus") is the other lattice.

This project models the orchestration in `include/find_clique.hpp`:

- `get_maxlen`, the chain-length truncation utility;
- the two per-realization strategies `find_clique_nice(cell_cache, …)`:
  - chimera: a single-cell shortcut, then a width scan that the carried width cap limits;
  - pegasus: a discovery scan, then a refinement loop that re-tries a width while the chain-length bound strictly improves;
- the two `find_clique` dispatchers, which route tiny sizes to closed-form solvers and thread one running embedding and bound through every realization of the defective graph;
- the single-realization entry point.

The caches the orchestration drives are oracles: function-typed fields whose
only meaning is their return value.

- Chimera cells: `score(y, x)`, `inflate(y, x, e)` and the clique iterator `next(w, e)`.
- Pegasus cells: `extract(w, limit)`, the clique cache's `extract_solution`, with or without the length predicate `< b`.

The realization cache is a non-empty sequence of realizations: the initial
one, then one per `next()` that returns true. The closed-form solvers for
sizes 1 to 4 are one oracle, `solveSmall(k, e)`.

Files, one module each:

- `embeddings.dfy` (`Embeddings`): chains, embeddings and the size-th smallest chain length. That length is defined by counting and does not depend on any sort: `IsKth(e, k, v)` holds when fewer than `k` chains are shorter than `v` and at least `k` chains are at most `v` long. The lemmas prove this order statistic unique, invariant under reordering, and equal to `|e[k-1]|` on a length-sorted embedding.
- `maxlen.dfy` (`MaxLen`): `get_maxlen` as an in-place sort of an array followed by an index. A selection sort stands in for `std::sort`.
- `chimera.dfy` (`ChimeraStrategy`), `pegasus.dfy` (`PegasusStrategy`): the two strategies.
- `find_clique.dfy` (`FindClique`): the dispatchers, the realization loops and the single-realization entry points.

The C++ passes `emb` and `max_length` by reference. Each strategy is modelled
as a method that takes them in and returns their new values.

Three details of the code that the model follows literally:

- **Chimera width cap.** After a success at width `w`, the carried bound becomes `w + 1` (line 49). A later realization caps its scan at `max_length - 1` (line 41), which is `w` itself. So the same width is searched again and can be accepted, but a wider one never is. `ChimeraStrategy.MaxWidth` and `FindClique.Tightening` state this.
- **Pegasus carried-in ceiling.** With a bound carried in, the ceiling is `max_length * 6` (line 81). Unlike the discovery path (line 75), it is not capped by the grid extent `dim[0]`, and the model does not cap it either.
- **Chimera shortcut not kept.** The single-cell shortcut returns true without setting `max_length` (lines 35-37). The next realization first tries its own shortcut. If it has no fitting cell, it runs the width scan from `minw` (line 134), under whatever cap an earlier width success set, if any. A success there overwrites the shortcut's embedding in the output (line 135), even at width 1. `ChimeraStrategy.Outcome` keeps the bound unchanged on the shortcut path, and `FindClique.Reported` overwrites on every success, as the code does.

## Model

| member | source | states |
|---|---|---|
| Embeddings.CountPermutation | include/find_clique.hpp:14-15 | reordering the chains, as the sort does, leaves unchanged how many chains are at most `v` long |
| Embeddings.KthPermutation | include/find_clique.hpp:14-16 | the size-th smallest chain length is the same for any reordering of the chains |
| Embeddings.SortedKth | include/find_clique.hpp:15-16 | in an embedding sorted by chain length, the length of chain `size-1` is the size-th smallest: fewer than `size` chains are shorter, at least `size` are no longer |
| Embeddings.KthUnique | include/find_clique.hpp:16 | the size-th smallest chain length is unique, so any two embeddings' bounds compare as the truncation utility's results do |
| Embeddings.KthPositive | include/find_clique.hpp:16 | with no empty chain, the size-th smallest chain length is at least 1 |
| MaxLen.SortByLength | include/find_clique.hpp:14-15 | afterwards the array is sorted by non-decreasing chain length and is a permutation of its old contents |
| MaxLen.GetMaxLen | include/find_clique.hpp:12-17 | requires `1 <= size <= |emb|`; leaves `emb` as a length-sorted permutation of itself; returns `|emb[size-1]|`, the size-th smallest chain length of the input |
| MaxLen.MaxLenOf | include/find_clique.hpp:96 | `get_maxlen` on a local candidate: returns the size-th smallest chain length of the candidate, and the candidate as a length-sorted permutation |
| ChimeraStrategy.MinWidth | include/find_clique.hpp:39 | the first width tried is ceiling(size / shore): the fewest cells whose halves cover `size` vertices |
| ChimeraStrategy.MaxWidth | include/find_clique.hpp:40-41 | the last width tried is the largest width within the grid's smaller extent and, for a positive carried bound, below that bound: it is at most each limit and equal to one of them |
| ChimeraStrategy.FirstFittingCell | include/find_clique.hpp:33-35 | returns the first cell in row-major order (y outer, x inner) whose 1x1 bundle scores at least `size`; returns none exactly when no cell does |
| ChimeraStrategy.ScanWidths | include/find_clique.hpp:42-54 | widths are tried upward from `minw` to `maxw`. The accepted width is the first whose candidate has at least `size` chains, given the embedding earlier rejections left behind. A too-small candidate clears the embedding. With no acceptance, every width in range was rejected |
| ChimeraStrategy.FindCliqueNice | include/find_clique.hpp:25-55 | `Outcome`. When the shortcut applies: success, the first fitting cell inflated into `emb`, bound unchanged. Otherwise success is the first accepting width `w` from ceiling(size/shore) to the cap, given the embedding earlier rejections left; the bound becomes `w + 1` and the embedding has at least `size` chains. Failure: every width in range rejected, bound unchanged, the embedding the rejections left. A positive bound never grows and stays positive |
| PegasusStrategy.MinWidth | include/find_clique.hpp:63 | the first width tried is ceiling(size / 2) |
| PegasusStrategy.Discover | include/find_clique.hpp:65-79 | scans widths upward from ceiling(size/2) to `dim0`. Returns the first width whose unlimited candidate has at least `size` chains, or none exactly when no width in range has one |
| PegasusStrategy.Refine | include/find_clique.hpp:84-105 | terminates (measure: bound, then ceiling + 1 - w). `Refined`, over the ghost list of acceptances (width, new bound) in order. Each acceptance is made from the width and bound before it (`AcceptTrace`). Its width is at least the previous one and within the ceiling then in force. Its candidate, asked for under the previous bound, has at least `size` chains, and its size-th smallest length is the new bound, strictly below the previous one. No width between the previous acceptance and it improves on the previous bound. The final bound is the last acceptance's, or the old bound when there is none, which is exactly when nothing changed. No width from the last acceptance to the final ceiling improves on the final bound. After an acceptance, the final ceiling is min(maxw, first accepted width + 6). The embedding is the length-sorted candidate of the last accepted width, asked for under the bound in force before that acceptance, and its size-th smallest length is the final bound |
| PegasusStrategy.AcceptTraceExtend | include/find_clique.hpp:97-100 | an acceptance made from the last one, appended to a list of acceptances each made from the one before it, keeps that property |
| PegasusStrategy.FindCliqueNice | include/find_clique.hpp:57-107 | `Outcome`. With no bound carried in: failure, with nothing changed, exactly when no width from ceiling(size/2) to `dim0` has a sufficient unlimited candidate. Otherwise Phase B runs (`Refined`) from the first such width `w0`, its candidate and its size-th smallest length, over widths `w0` to min(dim0, w0 + 6). With a bound carried in, Phase B runs from the caller's embedding and bound over widths ceiling(size/2) to 6 * bound, and success iff at least `size` chains. A positive bound never grows. Any change leaves an embedding whose size-th smallest length is the new bound |
| PegasusStrategy.OutcomeSearched | include/find_clique.hpp:65-105 | from a call's outcome: a kept carried-in bound has no improving candidate at any width from ceiling(size/2) to 6 * bound. With no bound carried in, success starts from the first sufficient width `w0`, and the final bound is at most `get_maxlen` of its candidate. When it equals that, no width from `w0` to min(dim0, w0 + 6) improves on it |
| FindClique.SearchChimera | include/find_clique.hpp:128-136 | one entry per realization. Entry `i` is the sparse strategy's `Outcome` on realization `i`, started from an empty embedding and bound 0 for the first and from what entry `i - 1` left for the rest (`ThreadedChimera`). The output starts as the caller's embedding and is overwritten by the running embedding of each successful call. So it is the caller's embedding, one with at least `size` chains, or the shortcut's inflation of a first fitting cell |
| FindClique.ReportedSource | include/find_clique.hpp:130-135 | the output of the realization loop is the caller's embedding or the running embedding of some successful call |
| FindClique.TighteningFromSteps | include/find_clique.hpp:129-135 | if no single call lets a positive bound grow or drop to 0, no later bound exceeds an earlier positive one, and none is 0 |
| FindClique.ChimeraTightening | include/find_clique.hpp:129-135 | threading the sparse strategy through the realizations: once positive, the width cap never grows and never returns to 0 |
| FindClique.ChimeraReportedShape | include/find_clique.hpp:129-136 | the sparse loop's output is the caller's embedding, an embedding with at least `size` chains, or the shortcut's inflation of a first fitting cell of some realization |
| FindClique.FindCliqueChimera | include/find_clique.hpp:116-137 | size 0: success, `emb` untouched. Sizes 1 and 2: the closed-form solver's result. Otherwise success iff the output has at least `size` chains. The output is what the threaded realization loop reports, and the width cap tightens across the realizations |
| FindClique.SearchPegasus | include/find_clique.hpp:153-162 | one entry per realization. Entry `i` is the denser strategy's `Outcome` on realization `i`, started from an empty embedding and bound 0 for the first and from what entry `i - 1` left for the rest (`ThreadedPegasus`). The output is overwritten by the running embedding of each successful call, so it is the caller's embedding or has at least `size` chains |
| FindClique.PegasusNeverLoosens | include/find_clique.hpp:154-161 | threading the denser strategy: from one realization to the next, a positive bound never grows |
| FindClique.PegasusTightening | include/find_clique.hpp:154-161 | when every cache yields non-empty chains, the bound, once positive, never grows and never returns to 0 across all realizations |
| FindClique.PegasusReportedShape | include/find_clique.hpp:155-162 | the denser loop's output is the caller's embedding or has at least `size` chains |
| FindClique.PegasusBoundIsKth | include/find_clique.hpp:154-161 | a positive bound after realization `j` is the size-th smallest chain length of the running embedding, and that embedding is the output so far |
| FindClique.FindCliquePegasus | include/find_clique.hpp:139-163 | size 0: success, `emb` untouched. Sizes 1 and 2: the solver's result. Sizes 3 and 4: success when the solver succeeds, otherwise fall through from whatever the solver left. General path: success iff at least `size` chains. The output is what the threaded loop reports. A positive bound never grows between realizations, and a positive final bound is the output's size-th smallest chain length. When every cache yields non-empty chains, the bound tightens across all realizations |
| FindClique.FindCliqueNiceChimera | include/find_clique.hpp:165-174 | single realization with the bound starting at 0. The result is the sparse strategy's `Outcome` from the caller's embedding and bound 0, which fixes `emb'` on every path. In particular the shortcut always succeeds. Otherwise success iff some width from ceiling(size/shore) to min(dim0, dim1) accepts |
| FindClique.FindCliqueNicePegasus | include/find_clique.hpp:165-174 | single realization with the bound starting at 0. The result is the denser strategy's `Outcome` from the caller's embedding and bound 0: discovery, then refinement over widths `w0` to min(dim0, w0 + 6). Success iff the discovery scan finds a width. Failure leaves `emb` as it was |
| FindClique.FindCliqueNiceChimeraAsWritten | include/find_clique.hpp:171-173 | with the uninitialised bound as an arbitrary `stale` value: the sparse strategy's `Outcome` with bound `stale`. When the shortcut does not apply, success iff some width up to `MaxWidth(stale)` accepts |
| FindClique.FindCliqueNicePegasusAsWritten | include/find_clique.hpp:171-173 | the denser strategy's `Outcome` with bound `stale`. With a nonzero `stale` the discovery scan is skipped. Success iff the caller's embedding, or a candidate under a limit of at most `stale`, has at least `size` chains |
| FindClique.StaleBoundLosesClique | include/find_clique.hpp:172-173 | a sparse realization where a fresh bound succeeds and a stale bound of 2 fails |
| FindClique.StaleBoundSkipsDiscovery | include/find_clique.hpp:172-173 | a dense realization where a fresh bound succeeds and a stale bound of 1 fails |

## Left out

- Cell, bundle, clique and realization caches: their internals are not part of this model. They appear only as function-typed oracles, and nothing is claimed about their results.
- Hardware meaning of an embedding: chain connectivity, couplings between chains and disjointness. These are guaranteed, if at all, by the clique cache, not by this file.
- `find_generic_1` to `find_generic_4`: one oracle giving success and the embedding left behind.
- `std::sort`: replaced by a selection sort. Only "sorted by chain length and a permutation" is relied on; stability and cost are not modelled.
- Machine integers: widths, bounds and sizes are unbounded. `w--` at `w == 0` (line 101) wraps in the source; the model stays at the same width instead, which is what the wrap followed by `w++` amounts to. The overflow of `max_length * 6` (line 81) is not modelled either.
- PegasusStrategy.FindCliqueNice: requires `size >= 1`, because `get_maxlen` reads `emb[size-1]` (line 16). The dispatcher only calls it with size at least 3. Called with size 0, the single-realization entry point may read out of range, whenever an extraction succeeds.
- ChimeraStrategy.FindCliqueNice: says nothing about how long the shortcut's chains are, because `inflate` is an oracle.
- FindClique.FindCliquePegasus: monotonicity across all realizations is stated only when every cache yields non-empty chains. With an empty chain a bound can fall to 0 and the next realization re-runs discovery.
- ChimeraStrategy.FindCliqueNice: requires `shore > 0`, and so do the sparse dispatcher and entry points. With a zero shore, line 39 divides by zero, which is undefined behaviour in C++; the model does not give that case a meaning.
- Trimming: the returned embedding may hold more than `size` chains. The source never trims it, and neither does the model.
- On failure the output embedding is whatever the source leaves: unchanged, cleared, or the iterator's output. No emptiness is promised on failure.
- Constructing realization and cell caches from vertex and edge lists: the realizations and cells are inputs.

## Findings

| source | as written | input that shows it | evidently intended | confidence | as-written member | corrected member |
|---|---|---|---|---|---|---|
| include/find_clique.hpp:172-173 | `size_t _;` is passed uninitialised as the carried bound, so an indeterminate value caps the sparse width scan at `_ - 1` | sparse realization: 2x2 grid, shore 4, size 5, every clique iterator yields five chains, indeterminate value 2. Then maxw = min(1, 2) = 1 < minw = 2 and the call fails; with 0 it succeeds at width 2 | `size_t _ = 0;`, a single realization searched without a bound | not executed; high | FindClique.FindCliqueNiceChimeraAsWritten, FindClique.StaleBoundLosesClique | FindClique.FindCliqueNiceChimera |
| include/find_clique.hpp:172-173 | the same uninitialised bound. On the denser family a nonzero value skips the discovery scan and limits every candidate to chains shorter than it | dense realization: 3 rows, unlimited caches yield five chains, length-limited caches yield nothing, size 5, indeterminate value 1. The call fails; with 0 discovery succeeds at width 3 | `size_t _ = 0;` | not executed; high | FindClique.FindCliqueNicePegasusAsWritten, FindClique.StaleBoundSkipsDiscovery | FindClique.FindCliqueNicePegasus |
