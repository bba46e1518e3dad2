# parsim uniform grid — a Dafny model

parsim is a 2-D particle simulation. Its broad-phase spatial index is a uniform
grid (`Grid<NumCells>` in `src/Particles/Grid.hpp`): `NumCells × NumCells` cells
in row-major order, each with 32 member slots, and a parallel array of one-byte
occupancy counts. This project models that grid:

- `bounded_ints.dfy` — the C++ fixed-width integer types (`int16_t`, `uint8_t`,
  `uint16_t`, `uint32_t`) as newtypes.
- `cell_indexing.dfy` — the static index arithmetic: `clamp_cell_index`,
  `get_cell(CellIndex)`, the narrowing of the flat id to `uint16_t` in
  `add_element`, and the integer `%`/`/` split inside `get_cell_pos`.
- `bucket_table.dfy` — the grid's contents as a value (member slots plus
  counts) and the effect of `reset` and `add_element` on it, with the lemmas
  about occupancy, appending, silent drops and the frame on other cells.
- `rebuild.dfy` — a run of `add_element` calls, each at its own cell index,
  the way the grid is filled with one insert per particle.
- `uniform_grid.dfy` — the grid as an object over two arrays, whose `Reset`
  loop and in-place `AddElement` are proved to produce exactly those values.

The member slots of all cells form one arena: slot `k` of cell `c` is at
`c * 32 + k`. This is the same memory layout as the source's array of
`GridCell<32>`.

The clamp is inclusive: each axis goes into `[0, NumCells]`, not
`[0, NumCells)`: the code at `src/Particles/Grid.hpp:25` and `:40` clamps to
`NumCells` itself, not `NumCells-1`, and the model does the same. The consequences are proved. Column `NumCells` names
the first cell of the next row (`RightEdgeAliases`). Row `NumCells` flattens
past the table (`BottomEdgeBeyond`), so `add_element` drops it
(`BottomEdgeDropped`). `GetCellInTable` describes exactly which indexes are
stored.

## Model

| member | source | states |
|---|---|---|
| CellIndexing.ClampAxis | src/Particles/Grid.hpp:25 | the clamped coordinate lies in [0, NumCells] with both bounds inclusive, an in-range coordinate is unchanged, and the result is the point of [0, NumCells] nearest the input |
| CellIndexing.ClampCellIndex | src/Particles/Grid.hpp:24-26 | both coordinates land in [0, NumCells], an index already in range comes back unchanged, and negative coordinates become 0 |
| CellIndexing.ClampIdempotent | src/Particles/Grid.hpp:24-26 | clamping twice is the same as clamping once |
| CellIndexing.GetCell | src/Particles/Grid.hpp:39-41 | the flat id of any index is at most NumCells*(NumCells+1), which is below 2^16 |
| CellIndexing.CellId | src/Particles/Grid.hpp:57 | narrowing the flat id to uint16_t loses nothing |
| CellIndexing.CellPos | src/Particles/Grid.hpp:43-48 | the column (`cell % NumCells`) is below NumCells, and column + row*NumCells gives back the id |
| CellIndexing.SplitUnique | src/Particles/Grid.hpp:45-46 | for x < NumCells, `%` and `/` recover x and y from x + y*NumCells |
| CellIndexing.FlattenInGrid | src/Particles/Grid.hpp:39-41 | an in-grid index flattens to x + y*NumCells, which is below NumCells², and splits back into (x, y) |
| CellIndexing.SplitThenFlatten | src/Particles/Grid.hpp:39-48 | any id below NumCells² splits into an in-grid row and column, and flattening them gives back the id |
| CellIndexing.GetCellInjective | src/Particles/Grid.hpp:39-41 | two in-grid indexes share a flat id if and only if they are equal |
| CellIndexing.GetCellOfClamped | src/Particles/Grid.hpp:24-41 | get_cell of an index equals get_cell of its clamp_cell_index |
| CellIndexing.RightEdgeAliases | src/Particles/Grid.hpp:40 | column NumCells of row y has the same id as column 0 of row y+1 |
| CellIndexing.BottomEdgeBeyond | src/Particles/Grid.hpp:40 | an index whose clamped row is NumCells gets an id of at least NumCells² |
| CellIndexing.NegativeAsZero | src/Particles/Grid.hpp:40 | negative coordinates flatten as if they were 0 |
| CellIndexing.GetCellInTable | src/Particles/Grid.hpp:40 | the id is below NumCells² exactly when the clamped row is below NumCells-1, or is NumCells-1 with a column below NumCells |
| BucketTable.Reset | src/Particles/Grid.hpp:50-54 | every count becomes 0, the number of cells stays the same, and the member slots are untouched |
| BucketTable.ResetEmptiesAll | src/Particles/Grid.hpp:50-54 | for a table of the grid's shape whose counts may hold any byte value, after reset the grid is valid and every cell is empty; resetting twice equals resetting once |
| BucketTable.AddElement | src/Particles/Grid.hpp:56-66 | add_element keeps every count at most 32 and changes no count except that of the target cell id |
| Rebuild.AddElementCounts | src/Particles/Grid.hpp:56-66 | one add_element raises a count by at most one and lowers none |
| BucketTable.AddElementAppends | src/Particles/Grid.hpp:58-63 | when the id is below NumCells² and the cell has fewer than 32 members, the member goes into slot `size`, the count grows by exactly one, nothing else in the arrays changes, and the cell's member list is the old list plus the member |
| BucketTable.AddElementDrops | src/Particles/Grid.hpp:58-61 | a full cell, or an id of at least NumCells², leaves the whole table unchanged |
| BucketTable.AddElementFrame | src/Particles/Grid.hpp:56-66 | every other cell keeps its count and its member list |
| BucketTable.BottomEdgeDropped | src/Particles/Grid.hpp:40-58 | an index clamped to row NumCells is silently dropped |
| BucketTable.AddEach | src/Particles/Grid.hpp:56-66 | any sequence of add_element calls at one cell index keeps the table valid, with every count at most 32 |
| Rebuild.AddAll | src/Particles/Grid.hpp:56-66 | any sequence of add_element calls, each at its own cell index, keeps the table valid with every count at most 32, and no count ever decreases |
| BucketTable.AddEachFills | src/Particles/Grid.hpp:56-66 | members added one by one to a cell are kept in order up to the cell's free slots; the rest are dropped |
| BucketTable.ThirtyThirdDropped | src/Particles/Grid.hpp:56-66 | 33 distinct members added to an empty cell leave its count at 32, and the 33rd member is not in it |
| UniformGrid.Grid.constructor | src/Particles/Grid.hpp:17-19 | a fresh grid has NumCells² counts and NumCells²·32 slots, and every cell starts empty |
| UniformGrid.Grid.GetNumCells | src/Particles/Grid.hpp:21 | the resolution lies in 1..255, and its square is the number of cells |
| UniformGrid.Grid.Reset | src/Particles/Grid.hpp:50-54 | from arrays of the grid's shape with counts holding any byte value, the in-place loop leaves exactly the table BucketTable.Reset describes (counts zeroed, slots untouched) and a valid grid |
| UniformGrid.Grid.AddElement | src/Particles/Grid.hpp:56-66 | the in-place update leaves exactly the table BucketTable.AddElement describes, and the grid stays valid |

## Left out

- Floating point: `get_cell_size`, `get_cell_index` (float position to `int16_t` by truncation), `get_cell(const glm::vec2&)` and the float output of `get_cell_pos` are not modelled. `AddElement` takes a `CellIndex` directly instead of a position. Only the integer `%` and `/` split of `get_cell_pos` is kept (`CellPos`).
- UniformGrid.Grid.constructor: the source struct has no constructor, and its counts are indeterminate until `reset()` runs. The model's constructor starts with every count 0, as if `reset()` had run. The member slots are left unspecified, as in the source.
- The guard in `add_element` is `size != 32`. On a grid whose counts are at most 32, which `Valid` keeps, this is the same as `size < 32`. A count above 32, which an unreset source grid could hold, is not modelled.
- Resolutions outside 1..255 are excluded by the type `CellCount`. The source comment supports up to 255; a larger `int16_t` argument could overflow the 16-bit cell id.
- `member` is a `uint16_t` stored unchanged into a 32-bit slot. The caller side, where particle indices can exceed 16 bits, is not part of this model.
- `src/main.cpp` is not part of this model. That covers windowing, OpenGL and shader loading, random seeding, the per-frame float position update and title-bar timing: these are I/O, foreign libraries, randomness and float arithmetic. The source never builds or queries a grid there.
- `src/Particles/ParticleArray.hpp` is not part of this model: it holds two float arrays and a constant size, with no logic.
- Gravity, wall reflection and a collision pass do not appear in `Grid.hpp`, `main.cpp` or `ParticleArray.hpp`, so they are not modelled.
