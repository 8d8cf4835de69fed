# Parallel element-wise transform benchmark: a Dafny model

This project models the core of the OpenMP benchmark in `main.cpp`. Three
square `size * size` matrices A, B and C are filled with `i + j + 1.5`. The
program then computes `Y = (A + C) * B + A / C` cell by cell. It does this in
three ways:

- `runVar1` gives each worker `rank` of `pSize` its own block of rows.
- `runVar2` runs eight hard-coded sections, one per band of rows.
- `runVar3` uses one `omp for` loop over all rows.

The model has four modules:

- `Arith`: helper facts about integer multiplication and division.
- `Layout`: the `index(x,y) = x + y*size` layout, the kernel, and the fill.
- `Partition`: the integer bounds of the row blocks and of the eight bands,
  with proofs that they tile `[0, size)`.
- `Benchmark`: `createMatrix` and the compute loops, as imperative methods
  over arrays. The global buffers `A`, `B`, `C`, `Y` become the arrays of a
  `MatrixStore`. A ghost count per slot of `Y` records how often that slot
  was written.

The workers of `runVar1` and the sections of `runVar2` run one after another,
in rank order. Their row ranges are disjoint, so the order does not change
the result. `ComputeRows` demands that no row at or after its start has been
written yet, so overlapping ranges would fail to verify. The strategies
therefore establish that every cell is written exactly once.

Cell values and the kernel use Dafny's exact `real` in place of `double`.

One might read `k * size / N` in `runVar2` as `k * (size / N)`, which would
leave the trailing rows unwritten when 8 does not divide `size`. C++ evaluates
it as `(k * size) / 8`, so the last band ends at `8 * size / 8 == size`
(`Partition.BandsContiguous`) and every row is covered (`Partition.BandsCover`).
Each band has `size / 8` or `size / 8 + 1` rows (`Partition.BandLength`).

## Model

| member | source | states |
|---|---|---|
| Layout.Index | main.cpp:6 | returns x + y*size, the slot the index macro gives cell (x, y) |
| Layout.Kernel | main.cpp:85 | returns (a + c) * b + a / c, the per-cell formula of every strategy, for a nonzero divisor c |
| Layout.FillValue | main.cpp:37 | the value i + j + 1.5 stored in cell (i, j), which is at least 1.5 for non-negative i and j |
| Layout.IndexInRange | main.cpp:6 | for 0 <= x, y < size, index(x, y) lies in [0, size*size) |
| Layout.IndexDecode | main.cpp:6 | index(x, y) mod size is x and its quotient by size is y, so the slot determines the cell |
| Layout.IndexInjective | main.cpp:6 | two cells with the same slot are the same cell |
| Layout.IndexOnto | main.cpp:6 | every slot k of the buffer is index(k mod size, k div size), a cell of the square |
| Layout.TransformAt | main.cpp:85 | cell (i, j) of the specified output is (A+C)*B + A/C of cell (i, j) of the inputs |
| Layout.FilledMatrix | main.cpp:33-41 | the filled buffer has size*size entries, each at least 1.5, so it never gives the kernel a zero divisor |
| Layout.FilledAt | main.cpp:37 | cell (i, j) of a filled matrix holds i + j + 1.5 |
| Layout.FilledCorner | main.cpp:37 | with all three inputs filled, output cell (0, 0) is (1.5+1.5)*1.5 + 1.5/1.5 = 5.5 |
| Partition.RowStart | main.cpp:83 | first row of worker rank's block, size * rank / pSize, multiplied before dividing as C++ evaluates it |
| Partition.BandLo | main.cpp:110-166 | first row of section k: 0, then size / 8, then k * size / 8, as each section's loop writes it |
| Partition.BandHi | main.cpp:110-166 | end (exclusive) of section k: size / 8 for the first, then (k + 1) * size / 8 |
| Partition.RowStartMonotone | main.cpp:83 | the block bound size*rank/pSize never decreases as rank grows |
| Partition.RowStartEnds | main.cpp:83 | the first block starts at row 0 and the block after the last worker starts at row size |
| Partition.RowBlockWithin | main.cpp:83 | each worker's block starts no later than it ends and ends no later than size |
| Partition.RowBlockLength | main.cpp:83 | each block has floor(size/pSize) rows, or one more only when pSize does not divide size |
| Partition.RowBlocksBalanced | main.cpp:83 | any two workers' blocks differ in length by at most one row |
| Partition.RowBlocksCover | main.cpp:83 | every row in [0, size) lies in some worker's block |
| Partition.RowBlocksDisjoint | main.cpp:83 | a row lying in the blocks of two workers implies the two workers are the same |
| Partition.BandIsRowBlock | main.cpp:110-166 | section k's band [k*size/8, (k+1)*size/8) is the block worker k would get with eight workers |
| Partition.BandsContiguous | main.cpp:110-166 | the first band starts at 0, each band ends where the next starts, and the eighth ends at size |
| Partition.BandsCover | main.cpp:110-171 | every row in [0, size) lies in some band, whether or not 8 divides size |
| Partition.BandsDisjoint | main.cpp:110-171 | no row lies in two bands |
| Partition.BandLength | main.cpp:110-166 | each band lies within [0, size) and has size/8 rows, or one more only when 8 does not divide size |
| Benchmark.FillStep | main.cpp:35-37 | storing i + j + 1.5 at index(i, j) extends the cells filled so far by exactly cell (i, j) |
| Benchmark.CreateMatrix | main.cpp:33-41 | returns a fresh buffer equal, slot by slot, to the filled matrix |
| Benchmark.ComputeStep | main.cpp:84-85 | the slot index(i, j) had not been written before, and writing the kernel there extends the computed cells by exactly cell (i, j) |
| Benchmark.MatrixStore.Init | main.cpp:49-55 | A, B and C are fresh filled buffers, Y is a fresh buffer of size*size slots, and no slot of Y has been written |
| Benchmark.MatrixStore.AllRowsComputed | main.cpp:83-87 | once all rows are done, every cell of Y was written once and Y equals the kernel applied slot by slot |
| Benchmark.MatrixStore.ComputeRows | main.cpp:83-87 | computing rows [lo, hi) after rows [0, lo) leaves rows [0, hi) each written exactly once with the kernel; every slot still unwritten (all later rows) keeps its old value in Y |
| Benchmark.MatrixStore.ParallelRows | main.cpp:77-88 | after all pSize workers' blocks, every cell of Y was written once and Y is the kernel of A, B and C |
| Benchmark.MatrixStore.ParallelSections | main.cpp:105-172 | after the eight sections, every cell of Y was written once and Y is the kernel of A, B and C |
| Benchmark.MatrixStore.ParallelFor | main.cpp:188-196 | after the shared loop, every cell of Y was written once and Y is the kernel of A, B and C |
| Benchmark.RunVar1 | main.cpp:70-94 | on freshly filled inputs, the row-block strategy leaves Y equal to the kernel of the three filled matrices |
| Benchmark.RunVar2 | main.cpp:99-178 | on freshly filled inputs, the eight-section strategy leaves the same Y |
| Benchmark.RunVar3 | main.cpp:183-202 | on freshly filled inputs, the shared-loop strategy leaves the same Y |
| Benchmark.RunConfiguration | main.cpp:232-234 | for one (thread, size) configuration the three strategies leave identical Y buffers, cell (i, j) holds the kernel of three copies of i + j + 1.5, and cell (0, 0) is 5.5 |

## Left out

- The OpenMP runtime (`parallel`, `sections`, `for`, `omp_get_thread_num`, `omp_get_num_threads`, `omp_set_num_threads`): workers and sections run sequentially in rank order. Their write sets are disjoint, so this order gives the same result as any interleaving.
- Benchmark.MatrixStore.ParallelRows: the team size `pSize` is a parameter. `RunVar1` passes the requested thread count, whereas the runtime may grant a smaller team.
- Benchmark.MatrixStore.ParallelFor: the runtime's default schedule for `omp for` is implementation-defined, so the model covers each row once, in order, without modelling which thread takes which row.
- Timing (`omp_get_wtime`, `countTime`, `measureExecutionTime`): these are wall-clock readings with no statable result.
- CSV output through `ofstream` and the `write` macro: this is file I/O.
- The sweep in `main` over thread counts {1, 2, 4, 8} and sizes {256, ..., 4096}: only one configuration (`RunConfiguration`) is modelled, without timing.
- `finalize`/`deleteMatrix` and the `new[]` lifecycle: Dafny is garbage collected, so releasing buffers has no modelled effect. Each run builds a fresh `MatrixStore` instead of reassigning global pointers.
- The uninitialised contents of a new `Y`: Dafny gives new arrays a default value, and no contract depends on it.
- IEEE double rounding of the kernel and the fill: values are exact reals. The kernel requires a nonzero divisor, which the fill guarantees.
- 32-bit `int` overflow of `size * size` and `size * rank`: integers are unbounded. The configured sizes (at most 4096, at most 8 workers) stay well inside the range.
