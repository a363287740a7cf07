/**
 * The tile cells: a fixed-size grid of cells with its store operations, the population
 * pass, and the three queries (plus-shape passability, ray cast, box overlap).
 */
module Tilemaps {
  import opened Cells
  import opened Population
  import opened Overlap

  /** A sample of a ray's march, already snapped to integer grid coordinates. */
  datatype Coord = Coord(x: int, y: int)

  /**
   * The outcome of a ray cast. `pos` is the position field of the hit record: the ray
   * cast never assigns it, so it keeps its zero value.
   */
  datatype RaycastHit = RaycastHit(hit: bool, occupant: Option<EntityId>, pos: (real, real))

  const NoHit := RaycastHit(false, None, (0.0, 0.0))

  /** The radius the ray cast passes to the passability check. */
  const RayRadius := 2

  /** The array indices the plus-shaped check looks at around index i of a grid `width` wide. */
  function PlusShape(i: int, width: int): set<int>
  {
    {i, i - 1, i + 1, i - width, i + width}
  }

  /**
   * The plus shape is the cell and its four orthogonal neighbours in grid coordinates;
   * on a grid at least three cells wide it contains none of the four diagonal neighbours
   * (at width 2 the rows wrap and the diagonal (x - 1, y + 1) is the index (x + 1, y)).
   */
  lemma PlusShapeIsOrthogonal(origin: int, width: int, x: int, y: int)
    ensures PlusShape(MapToIndex(origin, width, x, y), width)
         == {MapToIndex(origin, width, x, y),
             MapToIndex(origin, width, x - 1, y), MapToIndex(origin, width, x + 1, y),
             MapToIndex(origin, width, x, y - 1), MapToIndex(origin, width, x, y + 1)}
    ensures width >= 3 ==>
      MapToIndex(origin, width, x + 1, y + 1) !in PlusShape(MapToIndex(origin, width, x, y), width) &&
      MapToIndex(origin, width, x - 1, y + 1) !in PlusShape(MapToIndex(origin, width, x, y), width) &&
      MapToIndex(origin, width, x + 1, y - 1) !in PlusShape(MapToIndex(origin, width, x, y), width) &&
      MapToIndex(origin, width, x - 1, y - 1) !in PlusShape(MapToIndex(origin, width, x, y), width)
  {
    MapToIndexNeighbours(origin, width, x, y);
    MapToIndexNeighbours(origin, width, x + 1, y);
    MapToIndexNeighbours(origin, width, x - 1, y);
  }

  class Tilemap {
    const width: nat
    const height: nat
    const origin: int
    const cells: array<Cell>

    /** (x, y) addresses a cell of the cells. */
    predicate Addressable(x: int, y: int)
    {
      0 <= MapToIndex(origin, width, x, y) < cells.Length
    }

    /**
     * The cells the plus-shaped check reads around index i lie inside the array. The
     * check reads the cell, then its neighbours at -1, +1, -width and +width in that
     * order, each only while every cell read so far is passable.
     */
    predicate PlusReadable(i: int)
      reads cells
      requires 0 <= i < cells.Length
    {
      cells[i].passable ==>
        0 <= i - 1 && (cells[i - 1].passable ==>
          i + 1 < cells.Length && (cells[i + 1].passable ==>
            0 <= i - width && (cells[i - width].passable ==>
              i + width < cells.Length)))
    }

    /**
     * Allocation and initialisation (Awake): width * height cells, origin at the middle
     * of the array, every cell passable and unoccupied.
     */
    constructor (width: nat, height: nat)
      ensures this.width == width && this.height == height
      ensures cells.Length == width * height && origin == cells.Length / 2
      ensures MapToIndex(origin, width, 0, 0) == cells.Length / 2
      ensures fresh(cells)
      ensures forall i :: 0 <= i < cells.Length ==> cells[i] == OpenCell
    {
      this.width := width;
      this.height := height;
      var zeroed := new Cell[width * height](_ => ZeroCell);
      cells := zeroed;
      origin := zeroed.Length / 2;
      new;
      var i := 0;
      while i < cells.Length
        invariant 0 <= i <= cells.Length
        invariant forall j :: 0 <= j < i ==> cells[j] == OpenCell
        invariant forall j :: i <= j < cells.Length ==> cells[j] == ZeroCell
      {
        cells[i] := cells[i].(passable := true);
        i := i + 1;
      }
    }

    /**
     * The cell at grid coordinate (x, y). For a column inside the grid, the cell's array
     * index decodes back to (x, y): column x of row y counted from the origin.
     */
    function GetCell(x: int, y: int): (r: Cell)
      reads cells
      requires Addressable(x, y)
      ensures r == cells[MapToIndex(origin, width, x, y)]
      ensures 0 <= x < width ==>
        exists i :: 0 <= i < cells.Length && cells[i] == r && (i - origin) / width == y && (i - origin) % width == x
    {
      if 0 <= x < width then MapToIndexDecodes(origin, width, x, y); cells[MapToIndex(origin, width, x, y)]
      else cells[MapToIndex(origin, width, x, y)]
    }

    /**
     * Columns are not bounds-checked: column x + width of row y - 1 is the cell
     * (x, y), so a coordinate past the end of a row reads into the next one.
     */
    lemma GetCellRowWrap(x: int, y: int)
      requires Addressable(x, y)
      ensures Addressable(x + width, y - 1) && GetCell(x + width, y - 1) == GetCell(x, y)
    {
      assert MapToIndex(origin, width, x + width, y - 1) == MapToIndex(origin, width, x, y) by {
        assert (y - 1) * width == y * width - width;
      }
    }

    /** Replaces one cell; reading it back gives the new cell and no other cell changes. */
    method SetCell(x: int, y: int, cell: Cell)
      requires Addressable(x, y)
      modifies cells
      ensures GetCell(x, y) == cell
      ensures cells[..] == old(cells[..])[MapToIndex(origin, width, x, y) := cell]
    {
      var index := MapToIndex(origin, width, x, y);
      cells[index] := cell;
    }

    /**
     * Passability at (x, y). Radius 0 reads the one cell; any other radius reads the
     * cell and its four orthogonal neighbours, and is true only if all five are passable.
     */
    function Passable(x: int, y: int, radius: int): (r: bool)
      reads cells
      requires Addressable(x, y)
      requires radius != 0 ==> PlusReadable(MapToIndex(origin, width, x, y))
      ensures radius == 0 ==> r == GetCell(x, y).passable
      ensures radius != 0 ==>
        (r <==> forall j :: j in PlusShape(MapToIndex(origin, width, x, y), width) ==>
                  0 <= j < cells.Length && cells[j].passable)
    {
      var index := MapToIndex(origin, width, x, y);
      var passable := cells[index].passable;
      if radius == 0 then passable
      else
        passable && cells[index - 1].passable && cells[index + 1].passable
        && cells[index - width].passable && cells[index + width].passable
    }

    /** Passability of the cell at an already discretised grid coordinate. */
    function PassableTile(x: int, y: int): (r: bool)
      reads cells
      requires Addressable(x, y)
      ensures r == Passable(x, y, 0)
    {
      cells[MapToIndex(origin, width, x, y)].passable
    }

    /** Sets the passable flag of one cell, keeping its occupant; no other cell changes. */
    method SetPassable(x: int, y: int, passable: bool)
      requires Addressable(x, y)
      modifies cells
      ensures PassableTile(x, y) == passable
      ensures GetCell(x, y).occupant == old(GetCell(x, y)).occupant
      ensures cells[..] == old(cells[..])[MapToIndex(origin, width, x, y) :=
                                      old(cells[MapToIndex(origin, width, x, y)]).(passable := passable)]
    {
      var index := MapToIndex(origin, width, x, y);
      cells[index] := cells[index].(passable := passable);
    }

    /** The population pass (Start): stamps every impassable tile's footprint, in order. */
    method Start(tiles: seq<Tile>)
      requires forall k :: 0 <= k < |tiles| && !tiles[k].passable ==>
                 FootprintInside(origin, width, cells.Length, tiles[k])
      modifies cells
      ensures cells[..] == Populated(origin, width, old(cells[..]), tiles)
    {
      var k := 0;
      while k < |tiles|
        invariant 0 <= k <= |tiles|
        invariant cells[..] == Populated(origin, width, old(cells[..]), tiles[..k])
      {
        var tile := tiles[k];
        if !tile.passable {
          StampFootprint(tile);
        }
        assert tiles[..k + 1][..k] == tiles[..k];
        k := k + 1;
      }
      assert tiles[..|tiles|] == tiles;
    }

    /** The body of the population loop for one impassable tile: the nested x/y loops. */
    method StampFootprint(tile: Tile)
      requires !tile.passable
      requires FootprintInside(origin, width, cells.Length, tile)
      modifies cells
      ensures cells[..] == Stamp(origin, width, old(cells[..]), tile)
    {
      ghost var before := cells[..];
      ghost var done: set<int> := {};
      var px := tile.x - tile.width / 2 + tile.offsetX;
      var py := tile.y - tile.height / 2 + tile.offsetY;
      var stamped := Cell(tile.passable, Some(tile.entity));
      var x := 0;
      while x < tile.width
        invariant 0 <= x <= tile.width
        invariant forall i :: 0 <= i < cells.Length ==> cells[i] == if i in done then stamped else before[i]
        invariant forall i :: i in done ==> Covers(origin, width, tile, i)
        invariant forall a, b :: 0 <= a < x && 0 <= b < tile.height ==>
                    FootprintIndex(origin, width, tile, a, b) in done
      {
        var y := 0;
        while y < tile.height
          invariant 0 <= y <= tile.height
          invariant forall i :: 0 <= i < cells.Length ==> cells[i] == if i in done then stamped else before[i]
          invariant forall i :: i in done ==> Covers(origin, width, tile, i)
          invariant forall a, b :: 0 <= a < x && 0 <= b < tile.height ==>
                      FootprintIndex(origin, width, tile, a, b) in done
          invariant forall b :: 0 <= b < y ==> FootprintIndex(origin, width, tile, x, b) in done
        {
          var index := MapToIndex(origin, width, px + x, py + y);
          assert index == FootprintIndex(origin, width, tile, x, y);
          cells[index] := stamped;
          done := done + {index};
          y := y + 1;
        }
        x := x + 1;
      }
      forall i | 0 <= i < cells.Length
        ensures cells[i] == Stamp(origin, width, before, tile)[i]
      {
        if Covers(origin, width, tile, i) {
          var a, b :| 0 <= a < tile.width && 0 <= b < tile.height && FootprintIndex(origin, width, tile, a, b) == i;
          assert i in done;
        }
      }
    }

    /** The cells the ray cast reads at sample s lie inside the array. */
    predicate SampleReadable(s: Coord)
      reads cells
    {
      Addressable(s.x, s.y) && PlusReadable(MapToIndex(origin, width, s.x, s.y))
    }

    /** The ray stops at sample s: the plus-shape check fails and the occupant is not ignored. */
    predicate Stops(s: Coord, ignore: Option<EntityId>)
      reads cells
      requires SampleReadable(s)
    {
      !Passable(s.x, s.y, RayRadius) && (ignore.None? || ignore != GetCell(s.x, s.y).occupant)
    }

    /** The ray gets as far as sample k: it read every earlier sample and went on past it. */
    predicate Reaches(samples: seq<Coord>, ignore: Option<EntityId>, k: int)
      reads cells
      requires 0 <= k <= |samples|
    {
      forall j :: 0 <= j < k ==> SampleReadable(samples[j]) && !Stops(samples[j], ignore)
    }

    /**
     * The ray cast over its sampled cells: it reports the first sample at which the ray
     * stops, with that cell's occupant, or no hit when it never stops.
     */
    method Raycast(samples: seq<Coord>, ignore: Option<EntityId>) returns (h: RaycastHit)
      requires forall k :: 0 <= k < |samples| && Reaches(samples, ignore, k) ==> SampleReadable(samples[k])
      ensures h.hit <==> exists k :: 0 <= k < |samples| && Reaches(samples, ignore, k) && Stops(samples[k], ignore)
      ensures h.hit ==> exists k :: 0 <= k < |samples| && Reaches(samples, ignore, k) && Stops(samples[k], ignore)
                         && h.occupant == GetCell(samples[k].x, samples[k].y).occupant
      ensures !h.hit ==> h.occupant == None && Reaches(samples, ignore, |samples|)
      ensures h.pos == (0.0, 0.0)
    {
      h := NoHit;
      var i := 0;
      while i < |samples|
        invariant 0 <= i <= |samples|
        invariant Reaches(samples, ignore, i)
        invariant h == NoHit
      {
        var s := samples[i];
        var cell := GetCell(s.x, s.y);
        var passable := Passable(s.x, s.y, RayRadius);
        if !passable && (ignore.None? || ignore != cell.occupant) {
          h := h.(hit := !passable, occupant := cell.occupant);
          assert Stops(samples[i], ignore);
          break;
        }
        i := i + 1;
      }
    }

    /**
     * Box overlap over the rows x columns window whose first cell is (x, y): fills
     * `result` with the window's occupants in row-major order, one per occupied cell,
     * until the buffer is full, and returns how many it wrote.
     */
    method OverlapBox(x: int, y: int, columns: int, rows: int, result: array<Option<EntityId>>)
      returns (count: nat)
      requires result.Length > 0 ==>
                 WindowInside(cells.Length, MapToIndex(origin, width, x, y), width, rows, columns)
      modifies result
      ensures count <= result.Length
      ensures result.Length == 0 ==> count == 0
      ensures result.Length > 0 ==>
        var found := Reported(old(cells[..]), MapToIndex(origin, width, x, y), width, rows, columns);
        count == Min(|found|, result.Length) && forall j :: 0 <= j < count ==> result[j] == found[j]
      ensures forall j :: count <= j < result.Length ==> result[j] == old(result[j])
    {
      count := 0;
      if result.Length == 0 {
        return 0;
      }
      var first := MapToIndex(origin, width, x, y);
      var row;
      count, row := ScanRows(cells[..], first, rows, columns, result);
      if 0 < rows {
        ReportedPrefix(old(cells[..]), first, width, rows, columns, row);
      }
    }

    /**
     * The row loop of a box overlap over the window whose first cell is `first`. It stops
     * after the last row or once the buffer is full, and returns how many rows it
     * scanned: the buffer then holds as much of what those rows report as fits.
     */
    method ScanRows(ghost snapshot: seq<Cell>, first: int, rows: int, columns: int,
                    result: array<Option<EntityId>>)
      returns (count: nat, row: int)
      requires cells[..] == snapshot
      requires WindowInside(|snapshot|, first, width, rows, columns)
      requires 0 < result.Length
      modifies result
      ensures 0 <= row && (row <= rows || row == 0)
      ensures rows <= row || count == result.Length
      ensures var done := Reported(snapshot, first, width, row, columns);
        count == Min(|done|, result.Length) && forall j :: 0 <= j < count ==> result[j] == done[j]
      ensures forall j :: count <= j < result.Length ==> result[j] == old(result[j])
    {
      count := 0;
      row := 0;
      var index := first;
      ghost var done: seq<Option<EntityId>> := [];
      while row < rows && count < result.Length
        invariant 0 <= row && (row <= rows || row == 0)
        invariant cells[..] == snapshot
        invariant index == RowStart(first, width, row)
        invariant done == Reported(snapshot, first, width, row, columns)
        invariant count == Min(|done|, result.Length)
        invariant forall j :: 0 <= j < count ==> result[j] == done[j]
        invariant forall j :: count <= j < result.Length ==> result[j] == old(result[j])
      {
        if columns > 0 {
          count := ScanRow(snapshot, first, rows, row, index, columns, result, count);
          done := Reported(snapshot, first, width, row + 1, columns);
        }
        index := index + width;
        row := row + 1;
      }
    }

    /**
     * Row `row` of a box overlap over the window whose first cell is `first`, its cells
     * starting at index `start`: the buffer holds what the rows above report, and after
     * the row's cells are scanned it holds as much of what the rows up to this one
     * report as fits. Entries after the written ones keep their values.
     */
    method ScanRow(ghost snapshot: seq<Cell>, ghost first: int, rows: int, row: int,
                   start: int, columns: int, result: array<Option<EntityId>>, from: nat)
      returns (count: nat)
      requires cells[..] == snapshot
      requires WindowInside(|snapshot|, first, width, rows, columns) && 0 <= row < rows && 0 < columns
      requires start == RowStart(first, width, row)
      requires from == |Reported(snapshot, first, width, row, columns)| < result.Length
      requires forall j :: 0 <= j < from ==> result[j] == Reported(snapshot, first, width, row, columns)[j]
      modifies result
      ensures var after := Reported(snapshot, first, width, row + 1, columns);
        count == Min(|after|, result.Length) && forall j :: 0 <= j < count ==> result[j] == after[j]
      ensures forall j :: count <= j < result.Length ==> result[j] == old(result[j])
    {
      count := ScanCells(snapshot, start, columns, result, from);
      RowWritten(snapshot, first, width, rows, columns, row, result, from, count);
    }

    /**
     * The inner loop of a box overlap: scans the `columns` cells from index `start` and
     * writes their occupants into `result` from position `from` on, stopping once the
     * buffer is full. Entries outside the written range keep their values.
     */
    method ScanCells(ghost snapshot: seq<Cell>, start: int, columns: int, result: array<Option<EntityId>>, from: nat)
      returns (count: nat)
      requires cells[..] == snapshot
      requires 0 < columns && 0 <= start && start + columns <= cells.Length
      requires from < result.Length
      modifies result
      ensures from <= count <= result.Length
      ensures var line := OccupantsIn(snapshot, start, start + columns);
        count - from == Min(|line|, result.Length - from) &&
        forall j :: from <= j < count ==> result[j] == line[j - from]
      ensures forall j :: 0 <= j < result.Length && (j < from || count <= j) ==> result[j] == old(result[j])
    {
      count := from;
      ghost var line := OccupantsIn(snapshot, start, start + columns);
      var column := 0;
      while column < columns
        invariant 0 <= column <= columns
        invariant count - from == |OccupantsIn(snapshot, start, start + column)| <= |line|
        invariant count < result.Length
        invariant forall j :: from <= j < count ==> result[j] == line[j - from]
        invariant forall j :: 0 <= j < result.Length && (j < from || count <= j) ==> result[j] == old(result[j])
      {
        var occupant := cells[start + column].occupant;
        OccupantsInSnoc(snapshot, start, start + column);
        OccupantsInPrefix(snapshot, start, start + column + 1, start + columns);
        if occupant.Some? {
          assert line[count - from] == occupant;
          result[count] := occupant;
          count := count + 1;
          if count >= result.Length {
            return;
          }
        }
        column := column + 1;
      }
    }
  }
}
