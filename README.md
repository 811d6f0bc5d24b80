# wasm-gol engine in Dafny

This project models the Game-of-Life engine of the `wasm-gol` demo
(`static/wasm-gol/src/lib.rs`). It covers the session record `Internal`,
its helpers `coord2idx`, `idx2coord`, `append_near`, `toggle`, `set` and
`get`, and the exported entry points `init`, `update`, `click` and `draw`.

The engine keeps two cell buffers, `field1` and `field2`. The selector `cur`
chooses one of them:

- `get` reads the buffer `cur` selects.
- `set` writes the other one.
- `toggle` swaps the two roles.

Only cells near a recent change are recomputed. This active set is stored
twice:

- `near_alive_list` lists the cells.
- `near_alive` holds a 0/1 flag per cell.

`set` lists the 3x3 toroidal block around a cell whenever the value it writes
differs from the value it reads. `update` then works in three steps:

1. It empties the active set.
2. It recomputes every previously listed cell into the write buffer, with the B3/S23 rule on the torus.
3. It toggles the buffers.

`init` does the following, in order:

1. It allocates all-dead buffers.
2. It stamps 150 patterns through a 32-bit linear congruential generator: 50 gliders forwards, 50 gliders backwards and 50 T-tetrominoes backwards.
3. It sets `cur = 1`, which publishes the painted buffer.

`click` maps a canvas pixel to a cell and forces that cell alive in the read
buffer. It toggles, calls `set` and toggles back.

The model is organised as follows:

- **Torus**: row-major addressing and the toroidal 3x3 block, walked in the order the source walks it.
- **Life**: a reference full-grid generation `LifeStep`.
- **ActiveSet**: the active-set invariant `Sound` on (read buffer, write buffer, list).
  - `Covered`: wherever the two buffers differ, the whole block around that cell is listed.
  - `Settled`: the rule leaves every unlisted cell unchanged.
- **Seeding**: the generator and init's placements.
- **Pointer**: click's pixel arithmetic.
- **Engine**: the class `Internal` with `array` buffers.
  - The class holds the record's methods.
  - The free entry points `Init`, `Update`, `Click` and `Draw` take the record as a parameter. The source runs them on one global record.

The main result has three parts:

- `Init` establishes `Sound`.
- `Update` preserves `Sound`, and under it the new read buffer is exactly `LifeStep` of the old one. Stepping only the listed cells therefore computes a whole generation.
- `Click` preserves `Sound`.

A few facts about the code that the model keeps:

- `click` divides integers, computing `cwidth / w` and then `x / that`, and does not clamp the result onto the grid.
- `set`'s bounds guard is off by one, and `get` panics out of bounds (see Findings).
- `init` always takes a seed.

## Model

| member | source | states |
|---|---|---|
| Torus.Coord2Idx | static/wasm-gol/src/lib.rs:212-214 | coord2idx: the row-major index y * w + x; its inverse is stated by CoordRoundTrip and IdxRoundTrip |
| Torus.Idx2Coord | static/wasm-gol/src/lib.rs:216-218 | idx2coord: (i % w, i / w), whose column is always below w |
| Torus.Offsets | static/wasm-gol/src/lib.rs:172-173 | the offset arrays [n - 1, 0, 1] that update and append_near add before reducing mod n; OffsetWraps says they step by -1, 0, +1 |
| Torus.CoordRoundTrip | static/wasm-gol/src/lib.rs:212-218 | for x < w and y < h, coord2idx is below w*h and idx2coord undoes it |
| Torus.IdxRoundTrip | static/wasm-gol/src/lib.rs:212-218 | for an index below w*h, idx2coord gives an on-grid cell and coord2idx maps it back to the index |
| Torus.CellIdx | static/wasm-gol/src/lib.rs:224 | the index of the wrapped cell (x mod w, y mod h) is a valid grid index for any integer offsets |
| Torus.CellIdxCoord | static/wasm-gol/src/lib.rs:224 | that index is coord2idx of (x % w, y % h) |
| Torus.BlockCell | static/wasm-gol/src/lib.rs:222-224 | each of the nine cells of a block is a valid grid index |
| Torus.Neighbours | static/wasm-gol/src/lib.rs:222-224 | the block around a cell has exactly nine entries |
| Torus.Around | static/wasm-gol/src/lib.rs:169-174 | the block around the cell stored at index i (via idx2coord) has nine entries |
| Torus.OffsetWraps | static/wasm-gol/src/lib.rs:222-224 | adding n - 1, 0 or 1 and reducing mod n is stepping by -1, 0 or +1 on the torus |
| Torus.NeighbourAt | static/wasm-gol/src/lib.rs:222-224 | entry 3a+b of the block is coord2idx((x + dx[b]) % w, (y + dy[a]) % h), the cell the loops reach |
| Torus.BlockCentre | static/wasm-gol/src/lib.rs:172-179 | the middle entry of the block around an on-grid cell is the cell itself |
| Torus.ListedBlock | static/wasm-gol/src/lib.rs:222-224 | the block satisfies BlockListed: all nine entries, in append_near's and update's visiting order |
| Torus.AroundHasCentre | static/wasm-gol/src/lib.rs:179-183 | index i is entry 4 of its own block |
| Torus.AroundInRange | static/wasm-gol/src/lib.rs:224-225 | every entry of a block indexes the buffers |
| Torus.InBlock | static/wasm-gol/src/lib.rs:222-224 | every cell at distance at most one, diagonals included, is in the block |
| Torus.Symmetric | static/wasm-gol/src/lib.rs:222-224 | j is in the block around i exactly when i is in the block around j |
| Life.Alive | static/wasm-gol/src/lib.rs:174 | a cell counts as alive exactly when its byte is 1 (the source's `== 1`), counted as 0 or 1 |
| Life.Zeros | static/wasm-gol/src/lib.rs:58-60 | a buffer of n cells, all 0 |
| Life.LiveAmong | static/wasm-gol/src/lib.rs:172-178 | the live count over a prefix of the block, centre skipped, is bounded by the cells visited |
| Life.LiveNeighbours | static/wasm-gol/src/lib.rs:172-183 | the toroidal live-neighbour count is at most 8 |
| Life.NextState | static/wasm-gol/src/lib.rs:184-191 | the result is 0 or 1; a live cell is 1 iff the count is 2 or 3; a dead cell is 1 iff the count is 3 |
| Life.LifeStep | static/wasm-gol/src/lib.rs:168-192 | one generation of a w*h grid is again a w*h grid, each cell computed from the frozen input |
| Life.Tally | static/wasm-gol/src/lib.rs:170-178 | update's running count over the first k visited cells of a block, at most k |
| Life.NextAt | static/wasm-gol/src/lib.rs:169-191 | the next state (0 or 1) of the cell stored at index i, from its idx2coord coordinates |
| Life.TallyLive | static/wasm-gol/src/lib.rs:172-178 | counting the first k block cells gives the neighbour count so far, plus the centre once reached |
| Life.TallyBlock | static/wasm-gol/src/lib.rs:172-183 | counting the whole block gives the eight-neighbour count plus the cell's own liveness |
| Life.BlockRule | static/wasm-gol/src/lib.rs:169-191 | update's verdict (block count, the cell subtracted when alive, then the rule) is the reference next state |
| Life.LiveAmongAgree | static/wasm-gol/src/lib.rs:172-178 | grids that agree on a block give the same count there |
| Life.Locality | static/wasm-gol/src/lib.rs:172-191 | a cell's next state depends only on its 3x3 block |
| Life.DeadCount | static/wasm-gol/src/lib.rs:172-178 | an all-dead grid has no live neighbours anywhere |
| Life.DeadStaysDead | static/wasm-gol/src/lib.rs:184-191 | an all-dead grid stays all dead (no spontaneous births) |
| ActiveSet.AddNear | static/wasm-gol/src/lib.rs:222-229 | append_near's effect on the list: each block cell not yet listed is appended, in visiting order; AddNearSpec states its properties |
| ActiveSet.MarkAround | static/wasm-gol/src/lib.rs:80-109 | the list after one append_near per centre, in order; MarkAroundSpec states its contents |
| ActiveSet.AddNearSpec | static/wasm-gol/src/lib.rs:220-231 | append_near only appends, adds exactly the block's cells that are not yet listed, never duplicates, and adds at most nine |
| ActiveSet.MarkAroundSpec | static/wasm-gol/src/lib.rs:249-251 | after one append_near per centre, the list holds the old list and every centre's block, and nothing else |
| ActiveSet.MarkAroundAppend | static/wasm-gol/src/lib.rs:80-109 | marking the centres of a + b is marking a, then b |
| ActiveSet.Changed | static/wasm-gol/src/lib.rs:184-191 | the listed cells whose value the rule changes, as coordinates, lie on the grid |
| ActiveSet.ChangedHas | static/wasm-gol/src/lib.rs:249-251 | every listed cell that the rule changes is in Changed, so set lists its block |
| ActiveSet.Patch | static/wasm-gol/src/lib.rs:168-192 | the write buffer after update's loop: rule at listed cells, old contents elsewhere, same size |
| ActiveSet.Patched | static/wasm-gol/src/lib.rs:168-192 | the write buffer after each iteration of update's loop keeps the grid size |
| ActiveSet.PatchedIsPatch | static/wasm-gol/src/lib.rs:168-192 | writing the listed cells one by one in list order gives Patch |
| ActiveSet.PrefixStep | static/wasm-gol/src/lib.rs:168-192 | one more iteration extends both the patched buffer and the rebuilt list as set does |
| ActiveSet.FixedOutside | static/wasm-gol/src/lib.rs:160-194 | if the buffers differ only inside listed blocks and the rule maps the old buffer to the new one off the list, the new one is settled |
| ActiveSet.PatchIsStep | static/wasm-gol/src/lib.rs:168-192 | under the invariant, patching only the listed cells yields the full generation |
| ActiveSet.ChangedCovered | static/wasm-gol/src/lib.rs:168-192 | the list update rebuilds covers every cell the generation changes |
| ActiveSet.StepSound | static/wasm-gol/src/lib.rs:160-194 | under the invariant, update's buffer is LifeStep and the invariant holds again for the swapped buffers and new list |
| ActiveSet.SetCovered | static/wasm-gol/src/lib.rs:241-258 | set's rule (append_near iff the value differs from the read buffer) keeps the covering half of the invariant |
| ActiveSet.PokeCovered | static/wasm-gol/src/lib.rs:152-157 | forcing a cell alive in the read buffer through toggle-set-toggle keeps the buffers' differences inside listed blocks |
| ActiveSet.PokeSound | static/wasm-gol/src/lib.rs:152-157 | click's toggle-set-toggle keeps the whole invariant |
| Seeding.WrappingMul | static/wasm-gol/src/lib.rs:115 | u32 wrapping_mul: the product reduced mod 2^32 |
| Seeding.WrappingAdd | static/wasm-gol/src/lib.rs:115 | u32 wrapping_add: the sum reduced mod 2^32 |
| Seeding.Glider | static/wasm-gol/src/lib.rs:64-70 | the glider's five (dx, dy) offsets, each at most 2 |
| Seeding.Tetromino | static/wasm-gol/src/lib.rs:72-77 | the T-tetromino's four (dx, dy) offsets, each at most 2 |
| Seeding.Rand | static/wasm-gol/src/lib.rs:114-117 | rand is (1103515245 * seed + 12345) mod 2^32 |
| Seeding.Anchor | static/wasm-gol/src/lib.rs:81-84 | the two rand draws place the anchor in [4, w-5] x [4, h-5] |
| Seeding.Stamp | static/wasm-gol/src/lib.rs:86-88 | a stamped pattern has one cell per pattern entry, each within two cells of the anchor |
| Seeding.Scattered | static/wasm-gol/src/lib.rs:80-109 | every cell painted by n placements lies in [2, w-3] x [2, h-3], hence on the grid |
| Seeding.ScatterStep | static/wasm-gol/src/lib.rs:80-89 | one more placement appends its stamp to the cells, advances the seed twice, and extends painting and listing |
| Seeding.SeedCells | static/wasm-gol/src/lib.rs:64-109 | all cells of init's three loops lie in [2, w-3] x [2, h-3] |
| Seeding.Paint | static/wasm-gol/src/lib.rs:86-88 | setting 1 at listed cells keeps the buffer size |
| Seeding.PaintMarkStep | static/wasm-gol/src/lib.rs:241-258 | one more set of 1 on a dead cell writes it and lists its block |
| Seeding.PaintAppend | static/wasm-gol/src/lib.rs:80-109 | painting a + b is painting a, then b |
| Seeding.PaintSpec | static/wasm-gol/src/lib.rs:80-109 | a painted buffer is 1 at exactly the painted cells and unchanged elsewhere |
| Seeding.SeededSound | static/wasm-gol/src/lib.rs:80-110 | the painted grid over an all-dead write buffer, with every painted block listed, satisfies the invariant |
| Pointer.ClickCellAsWritten | static/wasm-gol/src/lib.rs:149-155 | click's arithmetic divides by zero iff w or h is 0 or the canvas is smaller than the grid; otherwise it returns (x / (cw/w), y / (ch/h)) unchecked |
| Pointer.ClickTarget | static/wasm-gol/src/lib.rs:147-158 | the corrected target divides by zero exactly as written, is a cell iff the written cell is on the grid, and then equals it |
| Pointer.ClickInsideCell | static/wasm-gol/src/lib.rs:149-155 | a clicked cell's pixel rectangle contains the click |
| Pointer.ClickCoversGrid | static/wasm-gol/src/lib.rs:149-155 | every click inside the area the grid covers hits a cell |
| Pointer.ClickMonotone | static/wasm-gol/src/lib.rs:149-155 | moving the pointer right or down never moves the target left or up |
| Pointer.NeighbourRows | static/wasm-gol/src/lib.rs:222-224 | a block around (x, y) lies in rows y-1, y and y+1 mod h |
| Pointer.AroundAt | static/wasm-gol/src/lib.rs:222-224 | entry 7 of a block is the cell one row down |
| Pointer.OutsideBlock | static/wasm-gol/src/lib.rs:222-224 | a cell two rows down is not in the block |
| Pointer.StaleNeighbourhood | static/wasm-gol/src/lib.rs:241-251 | for w <= x < 2w, set writes the on-grid cell (x - w, y + 1) but lists a block that misses a neighbour of it |
| Pointer.ClickPastRightEdge | static/wasm-gol/src/lib.rs:147-158 | on a 200x200 grid and 500x500 canvas, pixel (450, 0) yields the off-grid cell (225, 0) |
| Engine.SetGuardAsWritten | static/wasm-gol/src/lib.rs:244-246 | set's written guard lets every index up to and including w*h through |
| Engine.SetAccepts | static/wasm-gol/src/lib.rs:244-246 | the corrected guard accepts exactly the buffer indices, and only indices the written guard accepts |
| Engine.SetGuardOffByOne | static/wasm-gol/src/lib.rs:242-248 | (0, h) has index w*h, which the written guard passes to get, one past the buffers' end |
| Engine.Internal.Valid | static/wasm-gol/src/lib.rs:197-208 | the record's invariant: buffers and flags of w*h cells, cur 0 or 1, the list on the grid without duplicates, and near_alive[i] == 1 exactly for listed i |
| Engine.Internal.Read | static/wasm-gol/src/lib.rs:260-266 | the buffer get reads: field2 when cur == 0, field1 otherwise |
| Engine.Internal.Written | static/wasm-gol/src/lib.rs:253-257 | the buffer set writes: field1 when cur == 0, field2 otherwise |
| Engine.Internal.constructor | static/wasm-gol/src/lib.rs:269-283 | the initial record: 0 by 0, empty buffers and list, cur = 1, clear = false |
| Engine.Internal.Get | static/wasm-gol/src/lib.rs:260-266 | get returns the read buffer's value at coord2idx(x, y) |
| Engine.Internal.Toggle | static/wasm-gol/src/lib.rs:233-239 | toggle flips cur between 0 and 1 and swaps the read and write buffers |
| Engine.Internal.Mark | static/wasm-gol/src/lib.rs:225-228 | one visited cell is appended iff its flag was down; flags stay in step with the list |
| Engine.Internal.AppendNear | static/wasm-gol/src/lib.rs:220-231 | append_near extends the list by its block as AddNear does, keeping flags and no-duplicates |
| Engine.Internal.AppendRow | static/wasm-gol/src/lib.rs:223-229 | the inner loop extends the list by one row of the block |
| Engine.Internal.Set | static/wasm-gol/src/lib.rs:241-258 | set leaves the read buffer alone; on an accepted index it writes val to the write buffer and lists the block iff val differs from the read value; otherwise nothing changes |
| Engine.CountBlock | static/wasm-gol/src/lib.rs:172-178 | update's double loop counts the live cells of the whole block, centre included |
| Engine.CountRow | static/wasm-gol/src/lib.rs:173-177 | the inner loop adds the live cells of one row |
| Engine.NextCell | static/wasm-gol/src/lib.rs:169-191 | the verdict update computes for a listed cell is its reference next state |
| Engine.StepCell | static/wasm-gol/src/lib.rs:169-191 | one iteration writes the next state and lists the block iff the cell changes |
| Engine.StepAll | static/wasm-gol/src/lib.rs:168-192 | update's loop writes Patch and rebuilds the list from the changed cells, in order |
| Engine.ClearList | static/wasm-gol/src/lib.rs:162-166 | every flag lowered and the list emptied |
| Engine.Update | static/wasm-gol/src/lib.rs:160-194 | update's new read buffer is Patch, its write buffer the old read buffer; under the invariant it is one full toroidal generation and the invariant holds again |
| Engine.Place | static/wasm-gol/src/lib.rs:86-88 | stamping one pattern on a dead grid paints its cells and lists their blocks |
| Engine.Scatter | static/wasm-gol/src/lib.rs:80-89 | one of init's loops paints and lists Scattered's cells and returns its seed |
| Engine.PickAnchor | static/wasm-gol/src/lib.rs:81-84 | the two rand calls at the head of a loop give the anchor Anchor defines, inside [4, w-5] x [4, h-5] |
| Engine.Reset | static/wasm-gol/src/lib.rs:48-62 | init's reset: new dimensions, fresh all-dead buffers, empty list, cur = 0, clear = true |
| Engine.SeedGliders | static/wasm-gol/src/lib.rs:80-99 | the two glider loops, one after the other |
| Engine.SeedAll | static/wasm-gol/src/lib.rs:80-109 | the three loops paint and list SeedCells |
| Engine.SeedCellsSplit | static/wasm-gol/src/lib.rs:80-109 | painting or listing SeedCells is painting or listing the loops' cells one loop after the other |
| Engine.Publish | static/wasm-gol/src/lib.rs:110 | cur = 1 makes the painted buffer the read buffer and establishes the invariant |
| Engine.Populate | static/wasm-gol/src/lib.rs:80-110 | from a reset record, the loops and cur = 1 leave the seeded grid readable, the write buffer dead, the painted blocks listed, and the invariant |
| Engine.Init | static/wasm-gol/src/lib.rs:45-111 | init yields the seeded grid as the read buffer, an all-dead write buffer, every painted block listed, cur = 1, clear set, and the invariant |
| Engine.Click | static/wasm-gol/src/lib.rs:147-158 | click forces the target cell alive in the read buffer, keeps cur, lists its block iff the write buffer lacked a 1 there, changes nothing off-grid or on division by zero, and keeps the invariant |
| Engine.Render | static/wasm-gol/src/lib.rs:128-132 | render consumes the clear flag |
| Engine.Draw | static/wasm-gol/src/lib.rs:17-25 | draw updates when asked, then renders; under the invariant the read buffer is one generation on (or unchanged) and the invariant holds |

## Left out

- Canvas painting in render (lines 134-142) and all of draw_debug (27-43): drawing is I/O. Only render's effect on `clear` is modelled.
- The log macro, the panic hook, the Mutex and lazy_static: they are logging, locking and global storage. The entry points take the record as a parameter.
- The host pages that call the module (`index.js`) are not part of this model. This includes a seedless `init(200, 200)` call.
- Engine.Init: requires both dimensions above 8 and w*h below 2^32. A dimension of exactly 8 makes `% (width - 8)` (lines 82, 84, and the same at 92-104) a remainder by zero, which panics in every build. Below 8, `width - 8` underflows: a panic in debug builds, a wrap-around to a modulus near 2^32 in release builds, so anchors can fall far off the grid. Larger grids overflow the u32 product `width * height` (line 58). None of these cases is modelled.
- Torus.Coord2Idx: computes y*w + x on unbounded integers. The source's u32 wrap-around is ruled out by Init's bound and by on-grid arguments.
- Engine.Internal.Get: requires an in-bounds index. Out of bounds, the source panics.
- Engine.Click: a division by zero and an off-grid target both leave the record unchanged. The source panics on the first. On the second it writes a wrong cell or panics (see Findings).
- Engine.Click: the source first reads `get(x/w, y/h)` into an unused variable (line 152), before any check; for an index of w*h or more that read is what panics. The model reads the cell only after ClickTarget has accepted it, so its read never fails and the panic appears only as the rejected target.
- Engine.Publish: `cur = 1` is modelled as a toggle from `cur == 0`, which is always the state at that point of init.
- Engine.Internal.AppendNear and Engine.CountBlock take the block's cell list as a ghost parameter. It has no run-time effect; the loops compute every index themselves.
- Engine.Render: requires a positive grid, because the source divides by w and h.

## Findings

| source | as written | input that shows it | evidently intended | confidence | as-written member | corrected member |
|---|---|---|---|---|---|---|
| static/wasm-gol/src/lib.rs:244 | `set` returns early only when idx > w*h | (x, y) = (0, h): index w*h passes the guard and `get` indexes one past the end. The defect is latent: init's cells lie in [2, w-3] x [2, h-3], update's come from idx2coord of an in-range index, and click's own get at line 152 panics on that index first | reject idx >= w*h | not executed | Engine.SetGuardAsWritten, Engine.SetGuardOffByOne | Engine.SetAccepts, Engine.Internal.Set |
| static/wasm-gol/src/lib.rs:149-155 | click computes (x / (cwidth / w), y / (cheight / h)) with no bound check | 200x200 grid, 500x500 canvas, pixel (450, 0) → cell (225, 0); set then writes cell (25, 1) but lists the block around column 25 of row 0, missing a neighbour two rows below | a target on the w-by-h grid; the model's correction rejects off-grid targets (clamping them onto the grid would serve equally) | not executed | Pointer.ClickCellAsWritten, Pointer.ClickPastRightEdge, Pointer.StaleNeighbourhood | Pointer.ClickTarget, Engine.Click |
