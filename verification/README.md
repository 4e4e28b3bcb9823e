# foreach_cell index arithmetic, in Dafny

This project models the core of two standalone Kokkos auto-tuning demos. Both
run a `CellExecutor::foreach_cell` over a mesh of 20 octants. Each octant is a
block of `bx * by * bz` cells. For every cell, `foreach_cell` calls a user
functor `f` with a `CellIndex` and the cell's flat index.

- `tests/standalone_foreach_cell_policy.cpp` gives three loop variants for
  the tuner's `fastest_of` to choose between, run inside a search loop:
  - a flat `RangePolicy` over `[0, total_cells)`;
  - a two-dimensional `MDRangePolicy` over (octant, local index);
  - a `TeamPolicy` with one team per octant and a `TeamThreadRange` over the
    block.
- `tests/standalone_foreach_cell_chunk.cpp` gives a single `RangePolicy`. Its
  chunk size comes from the tuner, out of the candidate set
  {8, 16, ..., 1024}, with 128 as the default. The loop body overwrites its
  index with the local index and rebuilds the flat index from it.

Both demos fill a `cell_sums` view with `i + j + k` for a 128 x 128 x 128
shape. They then print the first ten elements.

The modules follow the program's structure:

- `U32` (`u32.dfy`): 32-bit unsigned values, with wrap-around addition,
  subtraction and multiplication.
- `Arith` (`arith.dfy`): the facts about division and about mixed-radix
  numbers that the index split rests on.
- `Mesh` (`mesh.dfy`): `CellArray_shape`, `CellIndex`, the octant count and
  the derived sizes. It also defines the flat numbering of cells and the
  predicate `Fits`. `Fits` holds for the shapes whose cell count is below
  2^32.
- `CellExecutor` (`cell_executor.dfy`): the loop bodies of the three variants,
  and the proof that the range loop visits every cell exactly once.
- `Seqs` (`seqs.dfy`): flattening a sequence of equally long rows. Nested
  loops are modelled this way.
- `Kernel` (`kernel.dfy`): the demo functor. It writes `i + j + k` into an
  `int` view.
- `PolicyDemo` (`policy_demo.dfy`): the three-variant `foreach_cell`, its
  search loop and the demo's printed values.
- `ChunkDemo` (`chunk_demo.dfy`): the candidate set, the chunked loop and the
  demo's 1000-iteration main loop.

A parallel loop is modelled as the sequence of functor calls it makes, in
row-major order: outer index first, then inner index.

- In all three variants, and in the chunked loop, every call writes its own
  element. The model proves that the kernel leaves the same view for any
  order of such calls (`Kernel.ApplyOrderIndependent`). So the results proved
  for row-major order hold for whatever order a parallel loop runs them in
  (`Kernel.AnyOrderKernelResult`).
- The tuner's answers are unknown. They are parameters of the model: the
  sequence of variants that `fastest_of` picks, or the sequence of chunk-size
  answers. Every property is proved for all such sequences.

## Model

| member | source | states |
|---|---|---|
| U32.Add | tests/standalone_foreach_cell_policy.cpp:94 | A 32-bit sum is the true sum when that is below 2^32, and the true sum minus 2^32 otherwise. |
| U32.Sub | tests/standalone_foreach_cell_policy.cpp:73-74 | A 32-bit difference is the true difference when it is not negative, and the true difference plus 2^32 otherwise. |
| U32.Mul | tests/standalone_foreach_cell_policy.cpp:39 | A 32-bit product agrees with the true product modulo 2^32, and equals it when the true product is below 2^32. |
| Mesh.CellsPerBlock | tests/standalone_foreach_cell_policy.cpp:39 | `cells_per_block` agrees with `bx*by*bz` modulo 2^32, and equals it when that product is below 2^32. |
| Mesh.TotalCells | tests/standalone_foreach_cell_policy.cpp:40-41 | `total_cells` agrees with `bx*by*bz*20` modulo 2^32, and equals it when that product is below 2^32. The 20 is the constant octant count of line 25. |
| Mesh.SizesAreExact | tests/standalone_foreach_cell_policy.cpp:36-41 | For a shape whose `bx*by*bz*20` is below 2^32, `cells_per_block` is `bx*by*bz` and `total_cells` is `bx*by*bz*20`, with no wrap-around. |
| Mesh.TotalCellsIsBlocks | tests/standalone_foreach_cell_policy.cpp:39-41 | For such a shape, the flat range is exactly 20 whole blocks. |
| Mesh.NonEmptyShape | tests/standalone_foreach_cell_policy.cpp:36-41 | A shape that fits and has at least one cell has no zero side, so the divisions by `bx` and `bx*by` are defined. |
| Mesh.WrappingShapes | tests/standalone_foreach_cell_policy.cpp:39-41 | Two shapes that do not fit. For 1024^3, `cells_per_block` is still exactly 2^30 but `total_cells` wraps to 0. For 512 x 512 x 1024, `total_cells` wraps to 2^30, which is 4 blocks of 2^28 cells instead of 20. |
| CellExecutor.LocalCell | tests/standalone_foreach_cell_policy.cpp:72-76 | The (i, j, k) split of a local index below the block size gives i < bx, j < by and k < bz. It recombines to the index as `k*bx*by + j*bx + i`. The cell is in the given octant, is not a dummy, and carries the block shape. |
| CellExecutor.OctantSplitExact | tests/standalone_foreach_cell_policy.cpp:69-70 | The octant `index / cells_per_block` is below 20, the local index is below the block size, and together they give back the flat index. |
| CellExecutor.RangeVisit | tests/standalone_foreach_cell_policy.cpp:68-77 | The range body builds a cell of the mesh, with octant below 20 and i, j, k in bounds. It passes the loop index to `f`, and that index is the cell's position in the flat numbering. |
| CellExecutor.MDRangeVisit | tests/standalone_foreach_cell_policy.cpp:86-94 | The MD-range body for (oct, index) passes `oct*cells_per_block + index` to `f`, with no wrap-around and below `total_cells`. It makes exactly the call the range body makes for that flat index. |
| CellExecutor.TeamVisit | tests/standalone_foreach_cell_policy.cpp:106-117 | The team body for league rank r and thread index `index` passes `r*cells_per_block + index` to `f`. It makes exactly the call the range body makes for that flat index. |
| CellExecutor.WrappedFlatIndexCollides | tests/standalone_foreach_cell_policy.cpp:86-94 | For a 1024^3 shape, the range loop makes no call. The MD-range body passes flat index 0 both for octant 4 and for octant 0, so outside `Fits` the variants differ. |
| CellExecutor.BlockOffsetExact | tests/standalone_foreach_cell_policy.cpp:94 | `oct*cells_per_block + index` does not wrap. Dividing it by the block size gives back `oct` and `index`. |
| CellExecutor.FlatIndexInjective | tests/standalone_foreach_cell_policy.cpp:69-76 | Two cells of the mesh with the same flat index are the same cell. |
| CellExecutor.RangeVisitOnto | tests/standalone_foreach_cell_policy.cpp:66-78 | Every cell of the mesh has a flat index below `total_cells`, and the range body at that index builds that cell. |
| CellExecutor.RangeVisitDigits | tests/standalone_foreach_cell_policy.cpp:69-74 | The closed form of the split: i, j and k are the digits of the flat index in radix (bx, by, bz), and the octant is the quotient by the block size. |
| CellExecutor.RangeVisits | tests/standalone_foreach_cell_policy.cpp:66-67 | The range loop makes `total_cells` calls, and call n passes flat index n. The cells it reaches are stated by `RangeVisitsEachCellOnce`. |
| CellExecutor.RangeVisitsEachCellOnce | tests/standalone_foreach_cell_policy.cpp:66-78 | The range loop calls `f` once for every cell of the mesh and never twice for the same cell. Call n receives flat index n. |
| Seqs.FlattenAtIndex | tests/standalone_foreach_cell_policy.cpp:86-87 | Flattening equally long rows of width w puts element `n` of the nested loop at row `n / w`, column `n % w`. |
| PolicyDemo.MDRangeVisits | tests/standalone_foreach_cell_policy.cpp:84-87 | The MD-range loop over `num_octants` x `cells_per_block` makes `total_cells` calls. Which calls they are is stated by `MDRangeMatchesRange`. |
| PolicyDemo.TeamVisits | tests/standalone_foreach_cell_policy.cpp:105-110 | The team loop, with one league member per octant and a thread range over the block, makes `total_cells` calls. Which calls they are is stated by `TeamMatchesRange`. |
| PolicyDemo.MDRangeAt | tests/standalone_foreach_cell_policy.cpp:84-95 | Call n of the MD-range loop is call n of the range loop. |
| PolicyDemo.MDRangeMatchesRange | tests/standalone_foreach_cell_policy.cpp:84-95 | The MD-range variant makes exactly the calls of the range variant, in the same order. |
| PolicyDemo.TeamAt | tests/standalone_foreach_cell_policy.cpp:105-119 | Call n of the team loop is call n of the range loop. |
| PolicyDemo.TeamMatchesRange | tests/standalone_foreach_cell_policy.cpp:105-119 | The team variant makes exactly the calls of the range variant, in the same order. |
| PolicyDemo.ForeachCellVariant | tests/standalone_foreach_cell_policy.cpp:60-120 | Whichever variant `fastest_of` picks, `f` is called once per cell, each time with that cell's flat index. |
| PolicyDemo.SearchLoopResult | tests/standalone_foreach_cell_policy.cpp:58-121 | After a search loop with at least one iteration, whatever variants were picked, every element n of the view holds the sum of the three low mixed-radix digits of n. With no iteration the view stays zero. |
| PolicyDemo.DemoFirstCells | tests/standalone_foreach_cell_policy.cpp:133-152 | The 128^3 demo shape fits and has 41943040 cells. If the search loop runs at least once, the ten elements the demo prints hold 0 to 9. |
| Kernel.ToInt32 | tests/standalone_foreach_cell_policy.cpp:142 | Storing a `uint32_t` sum in an `int` element gives a value in the 32-bit signed range, congruent mod 2^32. Values below 2^31 are unchanged. |
| Kernel.CellSum | tests/standalone_foreach_cell_policy.cpp:142 | The value the functor stores lies in the 32-bit signed range and agrees with the true `i + j + k` modulo 2^32. |
| Kernel.CellSumExact | tests/standalone_foreach_cell_policy.cpp:141-142 | For a cell of the mesh, the stored `i + j + k` neither wraps nor turns negative. |
| Kernel.Zeros | tests/standalone_foreach_cell_policy.cpp:136 | The freshly allocated view has `num_cells` elements, all 0. |
| Kernel.ApplyKernel | tests/standalone_foreach_cell_policy.cpp:139-143 | Running the functor for a sequence of calls keeps the view's length. What it writes is stated by `ApplyConsecutive` and `ApplyDistinct`. |
| Kernel.ApplyDistinct | tests/standalone_foreach_cell_policy.cpp:139-143 | When no two calls write the same element, each written element holds its own call's sum and every other element keeps its value. |
| Kernel.ApplyOrderIndependent | tests/standalone_foreach_cell_policy.cpp:139-143 | The same calls, each writing a different element, give the same view in any order. |
| Kernel.AnyOrderKernelResult | tests/standalone_foreach_cell_policy.cpp:139-143 | Any order of the range loop's calls sets every element n to its expected digit sum. |
| Kernel.ApplyConsecutive | tests/standalone_foreach_cell_policy.cpp:139-143 | Functor calls with consecutive flat indices overwrite exactly those elements, each with its own cell's sum. Every other element is unchanged. |
| Kernel.RangeKernelResult | tests/standalone_foreach_cell_policy.cpp:139-143 | One run of the range loop sets every element n of the view to its expected digit sum, whatever the view held before. |
| Kernel.RangeVisitSum | tests/standalone_foreach_cell_policy.cpp:142 | The cell that the range body builds for flat index n has the expected digit sum of n. |
| Kernel.FirstRowSums | tests/standalone_foreach_cell_policy.cpp:150-151 | For a flat index n below `bx`, the expected sum is n itself. |
| ChunkDemo.ChunkOptionsArePowersOfTwo | tests/standalone_foreach_cell_chunk.cpp:49-50 | The candidate set has 8 entries. Entry t is 2^(t+3), so the set runs from 8 to 1024 and is strictly increasing. |
| ChunkDemo.DefaultChunkSizeIsCandidate | tests/standalone_foreach_cell_chunk.cpp:59 | The default chunk size 128 is one of the candidates. |
| ChunkDemo.CandidatesSurviveCast | tests/standalone_foreach_cell_chunk.cpp:64-65 | Every candidate is unchanged by the cast to `uint32_t`, and is a positive chunk size. |
| ChunkDemo.ChunkSizeOf | tests/standalone_foreach_cell_chunk.cpp:64-65 | `static_cast<uint32_t>` of the tuner's answer agrees with it modulo 2^32, and equals it when it is in `[0, 2^32)`. |
| ChunkDemo.ChunkVisit | tests/standalone_foreach_cell_chunk.cpp:74-85 | The loop index is overwritten with the local index. Even so, the flat index rebuilt from the octant and the local index equals the original loop index, and the body makes exactly the call the range body makes. |
| ChunkDemo.ChunkedVisits | tests/standalone_foreach_cell_chunk.cpp:70-71 | Handing out `[lo, total_cells)` in chunks makes `total_cells - lo` calls. Which calls they are is stated by `ChunkedVisitsMatchRange`. |
| ChunkDemo.OneChunkMatchesRange | tests/standalone_foreach_cell_chunk.cpp:74-85 | One chunk makes the range loop's calls for its indices, in order. |
| ChunkDemo.ChunkedVisitsMatchRange | tests/standalone_foreach_cell_chunk.cpp:70-71 | Splitting `[lo, total_cells)` into consecutive chunks of any positive size neither loses, repeats nor reorders a call. |
| ChunkDemo.ChunkPolicyVisits | tests/standalone_foreach_cell_chunk.cpp:70-85 | Whatever the chunk size, `f` is called once per cell with that cell's flat index, in the order of the range loop. |
| ChunkDemo.DemoLoopResult | tests/standalone_foreach_cell_chunk.cpp:103-114 | After at least one run of the main loop, whatever candidates the tuner picked, every element n of the view holds its expected digit sum. |
| ChunkDemo.DemoFirstCells | tests/standalone_foreach_cell_chunk.cpp:117-123 | After the 1000 iterations, the ten elements the demo prints hold 0 to 9. |

## Left out

- `tests/test_occupancy.cpp`, `tuning_playground.hpp` and the rest of the repository are not part of this model.
- Kokkos runtime calls are outside the model: initialisation, finalisation, `fence`, `print_configuration` and the host mirror copy of the view.
- Console output is outside the model: the "Hello n" lines, the chunk-size report and the printed sums. Only the printed values are modelled, through `DemoFirstCells`.
- Parallel execution is outside the model. Each loop is a sequence of calls in row-major order. The `team_size` of 64 and the way Kokkos schedules threads and chunks have no effect on which calls are made, so they are not modelled.
- The tuning API is outside the model: `create_categorical_int_tuner`, contexts, `request_output_values`, `fastest_of`'s timing and `Impl::max_iterations`. The tuner's answers are arbitrary parameters. The search loop's iteration count is the length of the `choices` sequence.
- The `int policy` value that `foreach_cell` requests from the tuner is never used by the source. It is not modelled.
- Kernel names (`kernel_name + "_range"` and so on) and profiling regions are labels only. They are not modelled.
- CellExecutor.RangeVisit, CellExecutor.MDRangeVisit, CellExecutor.TeamVisit and ChunkDemo.ChunkVisit require `Fits`. They do not model shapes whose `bx*by*bz*20` reaches 2^32, where the 32-bit sizes wrap. `Mesh.WrappingShapes` gives two such shapes.
- PolicyDemo.MDRangeMatchesRange and PolicyDemo.TeamMatchesRange hold only inside `Fits`. Outside it the three variants are not equivalent. The range loop runs over the wrapped `total_cells`. The MD-range and team loops run over 20 blocks of the wrapped `cells_per_block`, pass wrapped flat indices to `f`, and write past the end of the view. For 1024^3 the range loop makes no call while the other two make 20 x 2^30 calls (`CellExecutor.WrappedFlatIndexCollides`). For 512 x 512 x 1024 the range loop covers only octants 0 to 3. Those out-of-bounds writes are not modelled.
- CellExecutor.RangeVisitsEachCellOnce, PolicyDemo.ForeachCellVariant and PolicyDemo.SearchLoopResult hold only for shapes that satisfy `Fits`, for the same reason.
- ChunkDemo.ChunkPolicyVisits requires a positive chunk size. A chunk size of 0 is not modelled; no candidate is 0.
- ChunkDemo.DemoLoopResult assumes the tuner answers with one of the declared candidates.
- PolicyDemo.DemoFirstCells assumes the search loop runs at least once, that is `Impl::max_iterations >= 1`. That constant is not defined in the demo file; the header it comes from is not part of this model. With no iteration the view would stay zero and the demo would print zeros, as `PolicyDemo.SearchLoopResult` states.
