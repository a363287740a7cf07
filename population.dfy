/**
 * The one-shot population pass: every impassable tile stamps its rectangular
 * footprint into the grid, in the order the tiles are given.
 */
module Population {
  import opened Cells

  /**
   * A tile as the population pass reads it. (x, y) is the tile's position already
   * mapped into integer grid space; width and height are its footprint in cells.
   */
  datatype Tile = Tile(x: int, y: int, width: nat, height: nat,
                       offsetX: int, offsetY: int, passable: bool, entity: EntityId)

  /**
   * First column of the footprint: centred on the tile, then moved by its offset. The
   * footprint's columns contain the tile's (offset) column, with as many columns on its
   * left as on its right, or one more on the left when the width is even.
   */
  function FootX(t: Tile): (r: int)
    ensures r <= t.x + t.offsetX && (t.width > 0 ==> t.x + t.offsetX < r + t.width)
    ensures t.width > 0 ==>
      (t.x + t.offsetX - r) - (r + t.width - 1 - (t.x + t.offsetX)) == (if t.width % 2 == 0 then 1 else 0)
  {
    t.x - t.width / 2 + t.offsetX
  }

  /** First row of the footprint, centred on the tile's (offset) row in the same way. */
  function FootY(t: Tile): (r: int)
    ensures r <= t.y + t.offsetY && (t.height > 0 ==> t.y + t.offsetY < r + t.height)
    ensures t.height > 0 ==>
      (t.y + t.offsetY - r) - (r + t.height - 1 - (t.y + t.offsetY)) == (if t.height % 2 == 0 then 1 else 0)
  {
    t.y - t.height / 2 + t.offsetY
  }

  /** Array index of the footprint cell (cx, cy), counted from the footprint's corner. */
  function FootprintIndex(origin: int, width: int, t: Tile, cx: int, cy: int): int
  {
    MapToIndex(origin, width, FootX(t) + cx, FootY(t) + cy)
  }

  /** Index i is one of the cells of t's footprint. */
  ghost predicate Covers(origin: int, width: int, t: Tile, i: int)
  {
    exists cx, cy :: 0 <= cx < t.width && 0 <= cy < t.height && FootprintIndex(origin, width, t, cx, cy) == i
  }

  /** Every cell of t's footprint lies inside an array of n cells. */
  predicate FootprintInside(origin: int, width: int, n: int, t: Tile)
  {
    forall cx, cy :: 0 <= cx < t.width && 0 <= cy < t.height ==>
      0 <= FootprintIndex(origin, width, t, cx, cy) < n
  }

  /** What one tile does to the cells: a passable tile nothing, an impassable one blocks its footprint. */
  ghost function Stamp(origin: int, width: int, cells: seq<Cell>, t: Tile): (r: seq<Cell>)
    ensures |r| == |cells|
  {
    if t.passable then cells
    else seq(|cells|, i requires 0 <= i < |cells| =>
               if Covers(origin, width, t, i) then Cell(false, Some(t.entity)) else cells[i])
  }

  /**
   * The cells after a forward pass over `tiles`. A cell blocked on entry stays blocked:
   * no tile ever makes a cell passable.
   */
  ghost function Populated(origin: int, width: int, cells: seq<Cell>, tiles: seq<Tile>): (r: seq<Cell>)
    ensures |r| == |cells|
    ensures forall i :: 0 <= i < |cells| && !cells[i].passable ==> !r[i].passable
    decreases |tiles|
  {
    if tiles == [] then cells
    else Stamp(origin, width, Populated(origin, width, cells, tiles[..|tiles| - 1]), tiles[|tiles| - 1])
  }

  /** The impassable tiles of `tiles`, in their original order. */
  function Blocking(tiles: seq<Tile>): (r: seq<Tile>)
    ensures |r| <= |tiles|
    ensures forall k :: 0 <= k < |r| ==> !r[k].passable
    ensures forall t :: t in r <==> t in tiles && !t.passable
  {
    if tiles == [] then []
    else
      assert tiles == tiles[..|tiles| - 1] + [tiles[|tiles| - 1]];
      if tiles[|tiles| - 1].passable then Blocking(tiles[..|tiles| - 1])
      else Blocking(tiles[..|tiles| - 1]) + [tiles[|tiles| - 1]]
  }

  /** Passable tiles are skipped: only the impassable ones decide the result. */
  lemma {:induction false} PopulatedIgnoresPassable(origin: int, width: int, cells: seq<Cell>, tiles: seq<Tile>)
    ensures Populated(origin, width, cells, tiles) == Populated(origin, width, cells, Blocking(tiles))
    decreases |tiles|
  {
    if tiles != [] {
      var init, last := tiles[..|tiles| - 1], tiles[|tiles| - 1];
      PopulatedIgnoresPassable(origin, width, cells, init);
      if !last.passable {
        var b := Blocking(init) + [last];
        assert b[..|b| - 1] == Blocking(init);
      }
    }
  }

  /** Running the pass over a + b is running it over a, then over b. */
  lemma {:induction false} PopulatedSplit(origin: int, width: int, cells: seq<Cell>, a: seq<Tile>, b: seq<Tile>)
    ensures Populated(origin, width, cells, a + b)
         == Populated(origin, width, Populated(origin, width, cells, a), b)
    decreases |b|
  {
    if b == [] {
      assert a + b == a;
    } else {
      var ab := a + b;
      assert ab[..|ab| - 1] == a + b[..|b| - 1];
      assert ab[|ab| - 1] == b[|b| - 1];
      PopulatedSplit(origin, width, cells, a, b[..|b| - 1]);
    }
  }

  /** Once a cell is blocked after the first k tiles, no later tile of the pass unblocks it. */
  lemma BlockedStaysBlocked(origin: int, width: int, cells: seq<Cell>, tiles: seq<Tile>, k: nat, i: int)
    requires k <= |tiles| && 0 <= i < |cells|
    requires !Populated(origin, width, cells, tiles[..k])[i].passable
    ensures !Populated(origin, width, cells, tiles)[i].passable
  {
    PopulatedSplit(origin, width, cells, tiles[..k], tiles[k..]);
    assert tiles[..k] + tiles[k..] == tiles;
  }

  /** A cell outside every impassable footprint keeps its value. */
  lemma {:induction false} PopulatedUntouched(origin: int, width: int, cells: seq<Cell>, tiles: seq<Tile>, i: int)
    requires 0 <= i < |cells|
    requires forall k :: 0 <= k < |tiles| && !tiles[k].passable ==> !Covers(origin, width, tiles[k], i)
    ensures Populated(origin, width, cells, tiles)[i] == cells[i]
    decreases |tiles|
  {
    if tiles != [] {
      var init := tiles[..|tiles| - 1];
      forall k | 0 <= k < |init| && !init[k].passable
        ensures !Covers(origin, width, init[k], i)
      {
        assert init[k] == tiles[k];
      }
      PopulatedUntouched(origin, width, cells, init, i);
    }
  }

  /**
   * Last write wins: a cell in the footprint of the impassable tile tiles[k], and in
   * no impassable footprint after it, ends up blocked and occupied by that tile.
   */
  lemma {:induction false} PopulatedLastWins(origin: int, width: int, cells: seq<Cell>, tiles: seq<Tile>, k: nat, i: int)
    requires 0 <= i < |cells| && k < |tiles|
    requires !tiles[k].passable && Covers(origin, width, tiles[k], i)
    requires forall j :: k < j < |tiles| && !tiles[j].passable ==> !Covers(origin, width, tiles[j], i)
    ensures Populated(origin, width, cells, tiles)[i] == Cell(false, Some(tiles[k].entity))
    decreases |tiles|
  {
    var init := tiles[..|tiles| - 1];
    if k < |tiles| - 1 {
      forall j | k < j < |init| && !init[j].passable
        ensures !Covers(origin, width, init[j], i)
      {
        assert init[j] == tiles[j];
      }
      assert init[k] == tiles[k];
      PopulatedLastWins(origin, width, cells, init, k, i);
    }
  }

  /**
   * Footprint coverage: a cell in some impassable footprint ends up blocked, and its
   * occupant is the entity of one of the tiles covering it.
   */
  lemma {:induction false} PopulatedCovered(origin: int, width: int, cells: seq<Cell>, tiles: seq<Tile>, k: nat, i: int)
    requires 0 <= i < |cells| && k < |tiles|
    requires !tiles[k].passable && Covers(origin, width, tiles[k], i)
    ensures !Populated(origin, width, cells, tiles)[i].passable
    ensures exists j :: 0 <= j < |tiles| && !tiles[j].passable && Covers(origin, width, tiles[j], i)
                       && Populated(origin, width, cells, tiles)[i].occupant == Some(tiles[j].entity)
    decreases |tiles|
  {
    var last := tiles[|tiles| - 1];
    if !last.passable && Covers(origin, width, last, i) {
      PopulatedLastWins(origin, width, cells, tiles, |tiles| - 1, i);
    } else {
      var init := tiles[..|tiles| - 1];
      assert k < |init| && init[k] == tiles[k];
      PopulatedCovered(origin, width, cells, init, k, i);
      var j :| 0 <= j < |init| && !init[j].passable && Covers(origin, width, init[j], i)
               && Populated(origin, width, cells, init)[i].occupant == Some(init[j].entity);
      assert init[j] == tiles[j];
    }
  }
}
