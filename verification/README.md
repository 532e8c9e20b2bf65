# Renumbering-invariance check for multilevel vectors (mg_renumbered_03)

This project models the index bookkeeping of the deal.II multigrid test
`tests/multigrid/mg_renumbered_03.cc`. The test holds two numberings of the
degrees of freedom (DoFs) of one mesh hierarchy. The second is renumbered
component-wise. The test seeds an active-level vector by component under
each numbering and copies both down to all levels. It then takes, level by
level, a permutation-aware difference of the two level vectors and reports
every nonzero entry. It also decides, before each cycle, which cells to
refine.

The model abstracts the library as follows:

- A numbering (`Numberings.Numbering`) is a set of cell tables. A table maps
  each cell, in iteration order, to the global indices of its local slots.
  There is one table for the active cells and one per level. The numbering
  also holds the slot-to-component map of the finite element and the DoF
  count of every level.
- A vector is a `seq<int>`. A multilevel vector (`MGLevelObject`) is a
  `LevelObject`: a minimum level and one vector per level.
- Every loop of the test that writes into a vector is the same fold. It
  visits cells in order and slots in order, and the last write to a shared
  index wins. That fold is `CellTables.Scatter`. `CellTables.LastWrite` is
  an independent, pointwise account of which write survives. The loops are
  proved equal to the fold, and the fold is proved equal to the pointwise
  account.
- The source compares `dist < 0.25/M_PI` for each vertex. The model replaces
  that test with an abstract predicate `near` on vertices.

Modules: `CellTables` (cell_tables.dfy), `Numberings` (numbering.dfy),
`Initialize` (initialize.dfy), `LevelDiff` (diff.dfy), `Report`
(report.dfy), `Refine` (refine.dfy), `Invariance` (invariance.dfy).

## Model

| member | source | states |
|---|---|---|
| `Numberings.ReinitVector` | tests/multigrid/mg_renumbered_03.cc:55-66 | The level range is kept. Every level in `[minlevel, maxlevel]` then holds a zero vector whose length is exactly that level's DoF count. |
| `CellTables.LastWrite` | tests/multigrid/mg_renumbered_03.cc:118-119 | Looks at the first `n` cells. Returns no position exactly when none of their slots lists index `j`. Otherwise it returns the position that lists `j` and that no later cell/slot position among them overtakes. |
| `CellTables.ScatterCellAt` | tests/multigrid/mg_renumbered_03.cc:118-119 | Within one cell, the slot loop leaves at each index the value of the last slot that lists it. An index no slot lists keeps its old value. |
| `CellTables.ScatterCells` | tests/multigrid/mg_renumbered_03.cc:112-120 | The write loop as a fold: the first `n` cells in iteration order, and each cell's slots in slot order, each slot writing its value at its index. The vector keeps its length. `ScatterAt` gives its value at every index. |
| `CellTables.ScatterAt` | tests/multigrid/mg_renumbered_03.cc:112-120 | After the first `n` cells, the cell-by-cell, slot-by-slot write loop leaves at each index the value of its last write among them. An index that none of their slots lists keeps its old value. |
| `CellTables.ScatterAgreeing` | tests/multigrid/mg_renumbered_03.cc:112-120 | If every write to an index stores the same value `x`, the index ends up holding `x`, whatever the visiting order. |
| `Initialize.InitializeActive` | tests/multigrid/mg_renumbered_03.cc:68-85 | Returns a vector of the input's length. Indices that no active cell lists keep their previous value. Every listed index holds `component(i)+1` for the last slot `i` that lists it. That value lies in `1..n_components`. If shared indices keep one component, every slot of every active cell finds its own `component+1`. |
| `Initialize.SeedCell` | tests/multigrid/mg_renumbered_03.cc:79-83 | The slot loop for one active cell performs the writes `component(i)+1` at slot `i`'s index, in slot order. |
| `Initialize.SeedCells` | tests/multigrid/mg_renumbered_03.cc:74-84 | The cell loop performs those writes cell after cell, in iteration order. |
| `Initialize.ComponentRange` | tests/multigrid/mg_renumbered_03.cc:79-82 | Every entry that seeding by component writes lies in `1..n_components`. |
| `Initialize.ComponentEverySlot` | tests/multigrid/mg_renumbered_03.cc:74-84 | Suppose a shared index always belongs to one component. Then every active cell's slot `i` holds `component(i)+1`, whichever cell wrote last. |
| `Initialize.InitializeLevel` | tests/multigrid/mg_renumbered_03.cc:89-101 | `counter` ends at `dofs_per_cell`. No level other than 0 changes. Level-0 entries outside the first level-0 cell are unchanged. The last slot `i` listing an index stores `i+1` there, so every written entry lies in `1..dofs_per_cell`. With distinct indices, slot `i` holds `i+1`. |
| `Initialize.NumberCell` | tests/multigrid/mg_renumbered_03.cc:93-100 | The counter ends at the number of slots. Slot `i` writes `i+1` at its index, in slot order. |
| `Initialize.NumberCellUnlisted` | tests/multigrid/mg_renumbered_03.cc:99-100 | Numbering the slots of the first level-0 cell leaves every index that cell does not list unchanged. |
| `Initialize.NumberCellLast` | tests/multigrid/mg_renumbered_03.cc:99-100 | An index whose last slot in the cell is `i` ends up holding `i+1`. An earlier slot that shares the index is overwritten. |
| `Initialize.NumberCellRange` | tests/multigrid/mg_renumbered_03.cc:99-100 | Every index the cell lists ends up holding a value in `1..dofs_per_cell`. |
| `LevelDiff.Diff` | tests/multigrid/mg_renumbered_03.cc:104-121 | The result has `u`'s length. It is zero wherever the first numbering lists no slot of the level. Elsewhere it holds `u[j] - v[idx2[c][i]]`, where `(c,i)` is the last cell/slot in traversal order with `idx1[c][i] == j`. |
| `LevelDiff.DiffFold` | tests/multigrid/mg_renumbered_03.cc:112-120 | The difference as a fold: it starts from zeros of `u`'s length, then writes `u[idx1[c][i]] - v[idx2[c][i]]` at `idx1[c][i]` for every lockstep cell and slot in traversal order. It keeps `u`'s length. |
| `LevelDiff.DiffCell` | tests/multigrid/mg_renumbered_03.cc:118-119 | The slot loop for one pair of lockstep cells writes `u[idx1[i]] - v[idx2[i]]` at `idx1[i]`, in slot order. |
| `LevelDiff.DiffFoldSpec` | tests/multigrid/mg_renumbered_03.cc:108-120 | The difference starts as a zero vector of `u`'s length. Unlisted indices stay zero. A listed index holds the contribution of its last write. |
| `LevelDiff.DiffAtAnyWrite` | tests/multigrid/mg_renumbered_03.cc:112-120 | Suppose the slot correspondence is a function of the first index. Then every slot listing `j`, not only the last one, gives `diff[j] == u[j] - v[idx2[c][i]]`. |
| `LevelDiff.DiffZeroWhenAgree` | tests/multigrid/mg_renumbered_03.cc:112-120 | If `u[idx1[c][i]] == v[idx2[c][i]]` at every lockstep cell and slot, the difference is the zero vector. No assumption on traversal order is needed. |
| `LevelDiff.DiffZeroIffAgree` | tests/multigrid/mg_renumbered_03.cc:112-120 | For two numberings of the same DoFs, the difference is all-zero if and only if the two vectors agree at every pair of corresponding slots. |
| `LevelDiff.DiffOrderIndependent` | tests/multigrid/mg_renumbered_03.cc:112-114 | Under a functional correspondence, visiting the cells in any order that reaches all of them yields the same difference vector. |
| `Report.NonzeroReport` | tests/multigrid/mg_renumbered_03.cc:338-340 | Reports every index whose entry is nonzero, with its value, in strictly increasing order. It reports nothing else and skips none. |
| `Report.ReportEmptyIffZero` | tests/multigrid/mg_renumbered_03.cc:338-340 | A complete report of nonzero entries is empty exactly when the vector is zero. |
| `Report.CompareLevel` | tests/multigrid/mg_renumbered_03.cc:335-340 | One pass of the level loop yields that level's difference and a complete, ordered report of its nonzero entries. |
| `Report.CompareLevels` | tests/multigrid/mg_renumbered_03.cc:333-341 | Every level from 0 to `n_levels - 1` is compared, with no early exit. Level `l` gets its difference and a complete, ordered report of that difference's nonzero entries. |
| `Report.LevelVerdict` | tests/multigrid/mg_renumbered_03.cc:333-341 | A level's report is empty when the vectors agree there. For numberings of the same DoFs, it is empty only then. |
| `Report.TestLevels` | tests/multigrid/mg_renumbered_03.cc:333-341 | Every level is diffed and reported, and no level stops the others. Level `l`'s report lists exactly the nonzero entries of that level's difference. A level where the vectors agree reports nothing. For numberings of the same DoFs, a level reports nothing only if they agree there. |
| `Refine.RefineLocal` | tests/multigrid/mg_renumbered_03.cc:347-378 | `cell_refined` holds exactly when some active cell has a near vertex. In that case the flagged cells are exactly those cells. Otherwise every active cell is flagged. With at least one active cell, at least one cell is flagged. |
| `Invariance.SeedsAgree` | tests/multigrid/mg_renumbered_03.cc:326-331 | Take two numberings with the same element and the same active cells, in each of which a shared index keeps one component. Their component seeds agree slot by slot, and the difference of the seeds is the zero vector. |

## Left out

- `distribute_dofs`, `DoFRenumbering::component_wise`, `MGTools::make_boundary_list`, `MGTransferPrebuilt::build_matrices` and `copy_to_mg` (lines 224-240, 310-317, 327, 331) are library code that is not part of this model. Numberings and the copied-down level vectors are inputs.
- `Triangulation::execute_coarsening_and_refinement` (line 380) is library code. `RefineLocal` returns the flags it would consume.
- `output_gpl`, `OutputCreator::cell` and `print` (lines 123-171, 254-299) are file and log output, with quadrature, finite-element evaluation and a floating-point `std::pow` root.
- The logging in `setup_system` and `test` is left out, including the `l2_norm` values (lines 242-248, 336-337). It is output only and uses floating point.
- `run` and `main` (lines 383-412) are the fixed six-cycle driver and log setup, which hold no logic to model.
- The Euclidean distance test `p.distance(origin) < 0.25/M_PI` (lines 359-364) is floating point. It is the abstract predicate `near`.
- Vector entries are `int`, not `double`: the test only stores small integers and takes their differences.
- `Initialize.InitializeLevel`: the `unsigned int` counter is unbounded here. Wrap-around would need more than 2^32 slots per cell.
- `Refine.RefineLocal`: starts from no flags set. The triangulation clears refine flags when it executes a refinement, so this matches every cycle of the driver.
- `LevelDiff.DiffCell`, `Initialize.SeedCell` and `Initialize.NumberCell` loop over the slots the cell lists, not up to `dofs_per_cell`. Every cell lists exactly `dofs_per_cell` slots (`Uniform`), so the two bounds are the same.
- `LevelDiff.Diff`: requires both numberings to list the same number of cells on the level. The loop itself only needs the second to list at least as many. Both numberings sit on one triangulation, so the counts are always equal.
- `build_matrices`, `make_boundary_list` and `copy_to_mg` are library calls and are not modelled.

## Notes

- The test reports each nonzero entry as its index and value, with no cell/slot location. `Report.Entry` follows this, and `TestLevels` keeps one report per level.
- "Zero difference exactly when the vectors agree" needs an assumption the code does not check. Two slots that share an index under the first numbering must also share one under the second (`LevelDiff.Corresponds`). Without it, a later write of zero can hide an earlier mismatch at a shared index, because `diff` keeps the last write. The forward direction, agreement implies zero, needs no such assumption.
