# Tilemap: a verified model of the passability grid

This project models the passability grid of an isometric game: one flat array of
cells, each with a passable flag and an optional occupant. A population pass blocks
the footprints of the impassable tiles. Three queries then read the grid:
- passability at a point, or over a plus-shaped five-cell neighbourhood;
- a sampled ray cast that reports the first blocking cell and its occupant;
- a box overlap that lists the occupants of a rectangle of cells in row-major order
  into a caller-supplied buffer.

The grid object becomes the class `Tilemaps.Tilemap`. It holds the array of cells
and its width, height and origin. Every static operation of the grid becomes a
method or function of that object.

The project has four modules:
- `Cells` (`cells.dfy`): the cell type and the linear addressing
  `index = origin + x + y * width`.
- `Population` (`population.dfy`): the population pass as a function of the tile
  sequence, and what it guarantees.
- `Overlap` (`overlap.dfy`): what a box overlap reports. `Window` gives the cells of
  the box in row-major order, `Occupants` the occupants of a run of cells, and
  `Reported` the same row by row. The lemmas prove that these descriptions agree.
- `Tilemaps` (`tilemap.dfy`): the grid class with its store operations, the
  population loop and the three queries.

Each modelled loop of the source is a `while` loop proved against these specifications.

Facts about the code that the model keeps as they are:
- **The addressable window is not centred in x.** With the origin at the middle of the
  array, columns 0 .. width-1 of rows -height/2 .. height/2-1 are addressable
  (`Cells.AddressableWindow`; for the default 1024 x 1024 grid, `Cells.DefaultWindow`).
  The corner (-width/2, -height/2) maps before the start of the array
  (`Cells.CentredCornerOutside`).
- **Columns are not bounds-checked.** Column x + width of row y - 1 is the same cell as
  (x, y) (`Tilemaps.Tilemap.GetCellRowWrap`).
- **`RaycastHit.pos` is never assigned** and stays zero (`Tilemaps.Tilemap.Raycast`).
- **Raycast passes radius 2**, and any non-zero radius gives the same five-cell check
  (`Tilemaps.Tilemap.Passable`).
- **The constructor does not check its dimensions.** It accepts any natural numbers,
  zero included.

## Model

| member | source | states |
|---|---|---|
| Cells.MapToIndexDecodes | Assets/Scripts/Tilemap.cs:77-79 | For a column inside the row, the linear index decodes back to the coordinate: Euclidean division of (index - origin) by width gives the row, and the remainder gives the column. |
| Cells.MapToIndexNeighbours | Assets/Scripts/Tilemap.cs:77-79 | The four orthogonal neighbours of a coordinate lie at index -1, +1, -width and +width. |
| Cells.MapToIndexInjective | Assets/Scripts/Tilemap.cs:77-79 | Two coordinates whose columns lie in 0 .. width-1 share an index only if they are equal: no column spills into another row. |
| Cells.AddressableWindow | Assets/Scripts/Tilemap.cs:21-27 | With the origin at the middle of a width * height array and an even height, columns 0 .. width-1 of rows -height/2 .. height/2-1 are addressable. |
| Cells.CentredCornerOutside | Assets/Scripts/Tilemap.cs:21-23 | For a grid at least two cells wide, the corner (-width/2, -height/2) maps to a negative index. |
| Cells.DefaultWindow | Assets/Scripts/Tilemap.cs:16-23 | On the default 1024 x 1024 grid, columns 0 .. 1023 of rows -512 .. 511 are addressable. |
| Population.FootX | Assets/Scripts/Tilemap.cs:43-47 | The footprint's first column is at or left of the tile's offset column, and a non-empty footprint contains that column. It has as many columns on the left as on the right, or one more on the left when the width is even. |
| Population.FootY | Assets/Scripts/Tilemap.cs:43-47 | The footprint's first row is at or above the tile's offset row, and a non-empty footprint contains that row. It has as many rows on each side, or one more before it when the height is even. |
| Population.Stamp | Assets/Scripts/Tilemap.cs:48-54 | Stamping one tile keeps the number of cells. |
| Population.Populated | Assets/Scripts/Tilemap.cs:40-55 | The pass keeps the number of cells, and a cell blocked before the pass is still blocked after it. |
| Population.Blocking | Assets/Scripts/Tilemap.cs:40-42 | The tiles the pass acts on are exactly the impassable tiles given (a tile is in the result if and only if it is among the tiles and not passable), and there are no more of them than tiles given. |
| Population.PopulatedIgnoresPassable | Assets/Scripts/Tilemap.cs:40-42 | Passable tiles are skipped: the pass over all tiles equals the pass over the impassable ones. |
| Population.PopulatedSplit | Assets/Scripts/Tilemap.cs:40-55 | A single forward pass: running it over a + b is running it over a, then over b. |
| Population.BlockedStaysBlocked | Assets/Scripts/Tilemap.cs:40-55 | A cell blocked after the first k tiles stays blocked to the end; no tile unblocks a cell. |
| Population.PopulatedUntouched | Assets/Scripts/Tilemap.cs:40-55 | A cell outside every impassable footprint keeps its value. |
| Population.PopulatedLastWins | Assets/Scripts/Tilemap.cs:48-53 | If tile k covers a cell and no later impassable tile does, the cell ends blocked and occupied by tile k's entity. |
| Population.PopulatedCovered | Assets/Scripts/Tilemap.cs:48-53 | A cell in any impassable footprint ends blocked, occupied by the entity of a tile that covers it. |
| Overlap.Occupants | Assets/Scripts/Tilemap.cs:180-189 | At most one entry per cell, and every entry is an occupant, never an empty slot. |
| Overlap.OccupantsAppend | Assets/Scripts/Tilemap.cs:178-192 | Scanning two runs of cells in turn reports the first run's occupants, then the second's. |
| Overlap.OccupantsPrefix | Assets/Scripts/Tilemap.cs:178-192 | Scanning further never takes back an occupant already reported. |
| Overlap.OccupantsEmpty | Assets/Scripts/Tilemap.cs:183-189 | Nothing is reported exactly when no cell of the run is occupied (both directions). |
| Overlap.OccupantsCount | Assets/Scripts/Tilemap.cs:183-189 | No deduplication: an entity is reported once for every cell it occupies. |
| Overlap.OccupantsIn | Assets/Scripts/Tilemap.cs:180-189 | Scanning cells lo .. hi reports at most hi - lo occupants. |
| Overlap.OccupantsInSlice | Assets/Scripts/Tilemap.cs:180-189 | Scanning cells lo .. hi by position reports what the slice of those cells reports. |
| Overlap.OccupantsInSnoc | Assets/Scripts/Tilemap.cs:180-189 | One more cell scanned adds its occupant, if it has one, at the end. |
| Overlap.OccupantsInPrefix | Assets/Scripts/Tilemap.cs:180-189 | What the first part of a row reports comes first in what the whole row reports. |
| Overlap.RowStartIsLinear | Assets/Scripts/Tilemap.cs:177-191 | Advancing the index by width once per row puts row k at start + k * width. |
| Overlap.WindowPrefix | Assets/Scripts/Tilemap.cs:178-192 | The first k rows of the box come first in its row-major order. |
| Overlap.WindowLength | Assets/Scripts/Tilemap.cs:175-180 | A box of rows x columns covers rows * columns cells. |
| Overlap.WindowAt | Assets/Scripts/Tilemap.cs:177-191 | Row-major order: entry r * columns + c of the box is the cell at index start + r * width + c. |
| Overlap.ReportedRowMajor | Assets/Scripts/Tilemap.cs:170-194 | Built row by row, a box reports exactly the occupants of its cells in row-major order. |
| Overlap.ReportedRowStep | Assets/Scripts/Tilemap.cs:178-192 | Adding one row keeps the row-by-row report equal to the occupants of the box's cells. |
| Overlap.WindowStep | Assets/Scripts/Tilemap.cs:178-192 | The occupants of a box are those of all but its last row, then those of its last row. |
| Overlap.ReportedPrefix | Assets/Scripts/Tilemap.cs:178-192 | What the first k rows report comes first in what the whole box reports. |
| Overlap.RowWritten | Assets/Scripts/Tilemap.cs:178-192 | A buffer holding the earlier rows' report plus as much of the next row as fits holds as much of the report up to that row as fits. |
| Tilemaps.PlusShapeIsOrthogonal | Assets/Scripts/Tilemap.cs:103-106 | The plus shape is the cell and its four orthogonal neighbours; on a grid at least three wide it holds no diagonal neighbour. |
| Tilemaps.Tilemap.constructor | Assets/Scripts/Tilemap.cs:21-27 | Allocates width * height cells with the origin at the middle, and every cell is passable and unoccupied. |
| Tilemaps.Tilemap.GetCell | Assets/Scripts/Tilemap.cs:81-86 | Returns the cell stored at the coordinate's linear index. For a column inside the grid, that index decodes back to (x, y). |
| Tilemaps.Tilemap.GetCellRowWrap | Assets/Scripts/Tilemap.cs:77-86 | Column x + width of row y - 1 is addressable and reads the same cell as (x, y): coordinates past the end of a row read into the next row. |
| Tilemaps.Tilemap.SetCell | Assets/Scripts/Tilemap.cs:88-93 | Reading the cell back gives the new value; no other cell changes. |
| Tilemaps.Tilemap.Passable | Assets/Scripts/Tilemap.cs:95-117 | Radius 0 is the cell's flag. Any other radius is true exactly when all five cells of the plus shape lie inside and are passable. |
| Tilemaps.Tilemap.PassableTile | Assets/Scripts/Tilemap.cs:119-123 | Agrees with the single-cell passability check at the same coordinate. |
| Tilemaps.Tilemap.SetPassable | Assets/Scripts/Tilemap.cs:125-129 | Sets the cell's flag and keeps its occupant; no other cell changes. |
| Tilemaps.Tilemap.Start | Assets/Scripts/Tilemap.cs:37-56 | After the pass, the cells are the population function applied to the tiles in the order given. |
| Tilemaps.Tilemap.StampFootprint | Assets/Scripts/Tilemap.cs:43-54 | The nested loops block exactly the tile's footprint with its entity and leave every other cell unchanged. |
| Tilemaps.Tilemap.Raycast | Assets/Scripts/Tilemap.cs:143-168 | Hits exactly when some sample the ray reaches stops it. The occupant is that sample's, every earlier sample let the ray through, and pos is never set. |
| Tilemaps.Tilemap.OverlapBox | Assets/Scripts/Tilemap.cs:170-194 | An empty buffer gives 0. Otherwise the count is min(occupants of the box, buffer size), the buffer starts with the box's occupants in row-major order, and later entries keep their values. |
| Tilemaps.Tilemap.ScanRows | Assets/Scripts/Tilemap.cs:178-192 | The row loop stops after the last row or once the buffer is full. The buffer then holds min(report of the rows scanned, buffer size) entries of that report, and later entries keep their values. |
| Tilemaps.Tilemap.ScanRow | Assets/Scripts/Tilemap.cs:178-191 | After one row, the buffer holds as much of the report of the rows so far as fits. |
| Tilemaps.Tilemap.ScanCells | Assets/Scripts/Tilemap.cs:180-190 | Writes a row's occupants in scan order after the entries already written and stops when the buffer is full; entries outside the written range keep their values. |

## Left out

- Update (Assets/Scripts/Tilemap.cs:58-75) and OnDrawGizmos (:196-211) only draw debug graphics; they are not modelled.
- The debug-drawing branches of Passable (:108-115) and Raycast (:156-157) have no effect on the grid or the results; they are not modelled.
- World-to-grid conversion (snapping, the isometric transform and `RoundToInt`) is an external transform. Every operation takes integer grid coordinates, on which the rounding in MapToIndex is the identity.
- Tilemaps.Tilemap.Raycast takes the sampled grid cells of the ray as a sequence chosen by the caller. The floating-point march is not modelled: step length 0.2, step count round(length / 0.2), the normalised direction, and the rayLength and maxRayLength caps.
- Tilemaps.Tilemap.OverlapBox takes the box's first cell and its integer column and row counts. Computing them from the centre and size (`center - size / 2`, snapped, and rounding the size) is part of the transform above.
- Tilemaps.Tilemap.OverlapBox: when the buffer is non-empty, the whole box must lie inside the array. The code reads only the cells it scans before the buffer fills, so a box that runs off the array after that point is fine in the code but excluded here.
- Tilemaps.Tilemap.Start: every impassable tile's footprint must lie inside the array. In the code, a footprint cell outside the array throws `IndexOutOfRangeException` at Assets/Scripts/Tilemap.cs:51. That ends Start with the earlier tiles (and the footprint cells already visited) stamped and the rest not. The model does not describe that partial state.
- Indexing outside the array throws in C#. The model makes every read and write a precondition instead. For Passable and Raycast this covers exactly the cells the short-circuiting checks read.
- The tile list comes from scene discovery (`FindObjectsOfType`) and is a parameter here, in the order found. TileOrderComparer (:29-35) is not modelled: the code that would sort with it is commented out.
- The static singleton `instance` and the Unity lifecycle are not modelled. One Tilemap object stands for the instance, and Awake becomes its constructor. The 1024 x 1024 default size becomes the constructor's parameters. The default values are the constants `Cells.DefaultWidth` and `Cells.DefaultHeight`, which `Cells.DefaultWindow` uses.
- Occupants are scene objects in the code. Here they are opaque integer identities (`Cells.EntityId`), with `None` for null.
