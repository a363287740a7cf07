/** What a box-overlap query reports: the occupants of a rectangular window of cells. */
module Overlap {
  import opened Cells

  /** The occupants of the occupied cells of `cs`, in order, one entry per occupied cell. */
  function Occupants(cs: seq<Cell>): (r: seq<Option<EntityId>>)
    ensures |r| <= |cs|
    ensures forall j :: 0 <= j < |r| ==> r[j].Some?
  {
    if |cs| == 0 then []
    else if cs[0].occupant.Some? then [cs[0].occupant] + Occupants(cs[1..])
    else Occupants(cs[1..])
  }

  /** Scanning two runs of cells one after the other reports the first run's occupants, then the second's. */
  lemma {:induction false} OccupantsAppend(a: seq<Cell>, b: seq<Cell>)
    ensures Occupants(a + b) == Occupants(a) + Occupants(b)
    decreases |a|
  {
    if a == [] {
      assert a + b == b;
    } else {
      assert (a + b)[1..] == a[1..] + b;
      OccupantsAppend(a[1..], b);
    }
  }

  /** Scanning further never takes back an occupant already reported. */
  lemma OccupantsPrefix(a: seq<Cell>, b: seq<Cell>)
    requires a <= b
    ensures Occupants(a) <= Occupants(b)
  {
    OccupantsAppend(a, b[|a|..]);
    assert a + b[|a|..] == b;
  }

  /** Nothing is reported exactly when no cell is occupied. */
  lemma {:induction false} OccupantsEmpty(cs: seq<Cell>)
    ensures Occupants(cs) == [] <==> forall i :: 0 <= i < |cs| ==> cs[i].occupant.None?
  {
    if cs != [] {
      var tail := cs[1..];
      OccupantsEmpty(tail);
      if Occupants(cs) == [] {
        forall i | 0 <= i < |cs| ensures cs[i].occupant.None? {
          if 0 < i { assert cs[i] == tail[i - 1]; }
        }
      }
    }
  }

  /** One entry per occupied cell, duplicates included: an entity is counted for each cell it holds. */
  lemma {:induction false} OccupantsCount(cs: seq<Cell>, e: EntityId)
    ensures multiset(Occupants(cs))[Some(e)] == multiset(cs)[Cell(false, Some(e))] + multiset(cs)[Cell(true, Some(e))]
  {
    if cs != [] {
      var tail := cs[1..];
      OccupantsCount(tail, e);
      assert cs == [cs[0]] + tail;
    }
  }

  /** The occupants of the cells lo..hi of `cs`, counted off by position rather than by slicing. */
  function OccupantsIn(cs: seq<Cell>, lo: int, hi: int): (r: seq<Option<EntityId>>)
    requires 0 <= lo <= hi <= |cs|
    ensures |r| <= hi - lo
    decreases hi - lo
  {
    if lo == hi then []
    else if cs[lo].occupant.Some? then [cs[lo].occupant] + OccupantsIn(cs, lo + 1, hi)
    else OccupantsIn(cs, lo + 1, hi)
  }

  /** Counting off by position reports what the slice reports. */
  lemma {:induction false} OccupantsInSlice(cs: seq<Cell>, lo: int, hi: int)
    requires 0 <= lo <= hi <= |cs|
    ensures OccupantsIn(cs, lo, hi) == Occupants(cs[lo..hi])
    decreases hi - lo
  {
    if lo < hi {
      OccupantsInSlice(cs, lo + 1, hi);
      assert cs[lo..hi][1..] == cs[lo + 1..hi];
    }
  }

  /** One more cell scanned at the far end: its occupant, if any, is reported last. */
  lemma {:induction false} OccupantsInSnoc(cs: seq<Cell>, lo: int, hi: int)
    requires 0 <= lo <= hi < |cs|
    ensures OccupantsIn(cs, lo, hi + 1)
         == OccupantsIn(cs, lo, hi) + (if cs[hi].occupant.Some? then [cs[hi].occupant] else [])
    decreases hi - lo
  {
    if lo < hi {
      OccupantsInSnoc(cs, lo + 1, hi);
    }
  }

  /** Scanning further along a row never takes back an occupant already reported. */
  lemma {:induction false} OccupantsInPrefix(cs: seq<Cell>, lo: int, mid: int, hi: int)
    requires 0 <= lo <= mid <= hi <= |cs|
    ensures OccupantsIn(cs, lo, mid) <= OccupantsIn(cs, lo, hi)
    decreases mid - lo
  {
    if lo < mid {
      OccupantsInPrefix(cs, lo + 1, mid, hi);
    }
  }

  /** Index of the first cell of row k of a window whose row 0 starts at `start`. */
  function RowStart(start: int, width: int, k: int): int
    decreases k
  {
    if k <= 0 then start else RowStart(start, width, k - 1) + width
  }

  /** Row k starts k rows of `width` cells after row 0. */
  lemma {:induction false} RowStartIsLinear(start: int, width: int, k: int)
    requires 0 <= k
    ensures RowStart(start, width, k) == start + k * width
  {
    if k > 0 {
      RowStartIsLinear(start, width, k - 1);
      MulSucc(k - 1, width);
    }
  }

  /**
   * A window of rows x cols cells whose row k starts at RowStart(start, width, k)
   * fits in n cells: every one of its rows lies inside.
   */
  predicate WindowInside(n: int, start: int, width: int, rows: int, cols: int)
  {
    cols <= 0 ||
    forall k :: 0 <= k < rows ==> 0 <= RowStart(start, width, k) && RowStart(start, width, k) + cols <= n
  }

  /** The cells of that window in row-major order. */
  function Window(cells: seq<Cell>, start: int, width: int, rows: int, cols: int): (r: seq<Cell>)
    requires WindowInside(|cells|, start, width, rows, cols)
    decreases rows
  {
    if rows <= 0 || cols <= 0 then []
    else
      var first := RowStart(start, width, rows - 1);
      Window(cells, start, width, rows - 1, cols) + cells[first..first + cols]
  }

  /** The first k rows of a window come first in its row-major order. */
  lemma {:induction false} WindowPrefix(cells: seq<Cell>, start: int, width: int, rows: int, cols: int, k: int)
    requires WindowInside(|cells|, start, width, rows, cols) && 0 <= k <= rows
    ensures WindowInside(|cells|, start, width, k, cols)
    ensures Window(cells, start, width, k, cols) <= Window(cells, start, width, rows, cols)
    decreases rows
  {
    if k < rows && cols > 0 {
      WindowPrefix(cells, start, width, rows - 1, cols, k);
    }
  }

  /** A non-empty window holds rows * cols cells. */
  lemma {:induction false} WindowLength(cells: seq<Cell>, start: int, width: int, rows: int, cols: int)
    requires WindowInside(|cells|, start, width, rows, cols)
    requires rows > 0 && cols > 0
    ensures |Window(cells, start, width, rows, cols)| == rows * cols
    decreases rows
  {
    if rows > 1 {
      WindowLength(cells, start, width, rows - 1, cols);
      MulSucc(rows - 1, cols);
    }
  }

  /**
   * Row-major order: cell (r, c) of the window is entry r * cols + c of the window and
   * the cell at start + r * width + c.
   */
  lemma {:induction false} WindowAt(cells: seq<Cell>, start: int, width: int, rows: int, cols: int, r: int, c: int)
    requires WindowInside(|cells|, start, width, rows, cols)
    requires 0 <= r < rows && 0 <= c < cols
    ensures 0 <= start + r * width + c < |cells|
    ensures r * cols + c < |Window(cells, start, width, rows, cols)|
    ensures Window(cells, start, width, rows, cols)[r * cols + c] == cells[start + r * width + c]
    decreases rows
  {
    RowStartIsLinear(start, width, r);
    var w := Window(cells, start, width, rows, cols);
    var before := Window(cells, start, width, rows - 1, cols);
    var first := RowStart(start, width, rows - 1);
    assert w == before + cells[first..first + cols];
    assert |before| == (rows - 1) * cols by {
      if rows > 1 { WindowLength(cells, start, width, rows - 1, cols); }
    }
    MulSucc(rows - 1, cols);
    if r == rows - 1 {
      assert w[r * cols + c] == cells[first..first + cols][c];
    } else {
      WindowAt(cells, start, width, rows - 1, cols, r, c);
      assert r * cols + c < (rows - 1) * cols by {
        MulSucc(r, cols);
        MulAtMost(r + 1, rows - 2 - r, cols);
      }
    }
  }

  /**
   * What a window reports, built up row by row, each row counted off by position: the
   * first `rows` rows report what the first rows - 1 rows report, then the last row.
   */
  function Reported(cs: seq<Cell>, start: int, width: int, rows: int, cols: int): (r: seq<Option<EntityId>>)
    requires WindowInside(|cs|, start, width, rows, cols)
    decreases rows
  {
    if rows <= 0 || cols <= 0 then []
    else
      var first := RowStart(start, width, rows - 1);
      Reported(cs, start, width, rows - 1, cols) + OccupantsIn(cs, first, first + cols)
  }

  /** Built up row by row, a window reports the occupants of its cells in row-major order. */
  lemma {:induction false} ReportedRowMajor(cs: seq<Cell>, start: int, width: int, rows: int, cols: int)
    requires WindowInside(|cs|, start, width, rows, cols)
    ensures Reported(cs, start, width, rows, cols) == Occupants(Window(cs, start, width, rows, cols))
    decreases rows
  {
    if rows > 0 && cols > 0 {
      ReportedRowMajor(cs, start, width, rows - 1, cols);
      ReportedRowStep(cs, start, width, rows, cols);
    } else {
      assert Window(cs, start, width, rows, cols) == [];
    }
  }

  /** The inductive step of ReportedRowMajor: one more row keeps the two descriptions equal. */
  lemma ReportedRowStep(cs: seq<Cell>, start: int, width: int, rows: int, cols: int)
    requires WindowInside(|cs|, start, width, rows, cols) && rows > 0 && cols > 0
    requires Reported(cs, start, width, rows - 1, cols) == Occupants(Window(cs, start, width, rows - 1, cols))
    ensures Reported(cs, start, width, rows, cols) == Occupants(Window(cs, start, width, rows, cols))
  {
    WindowStep(cs, start, width, rows, cols);
  }

  /** The occupants of a window are those of all but its last row, then those of its last row. */
  lemma WindowStep(cs: seq<Cell>, start: int, width: int, rows: int, cols: int)
    requires WindowInside(|cs|, start, width, rows, cols) && rows > 0 && cols > 0
    ensures 0 <= RowStart(start, width, rows - 1) && RowStart(start, width, rows - 1) + cols <= |cs|
    ensures Occupants(Window(cs, start, width, rows, cols))
         == Occupants(Window(cs, start, width, rows - 1, cols))
          + OccupantsIn(cs, RowStart(start, width, rows - 1), RowStart(start, width, rows - 1) + cols)
  {
    var first := RowStart(start, width, rows - 1);
    OccupantsInSlice(cs, first, first + cols);
    OccupantsAppend(Window(cs, start, width, rows - 1, cols), cs[first..first + cols]);
  }

  /** What the first k rows of a window report comes first in what the whole window reports. */
  lemma {:induction false} ReportedPrefix(cs: seq<Cell>, start: int, width: int, rows: int, cols: int, k: int)
    requires WindowInside(|cs|, start, width, rows, cols) && 0 <= k <= rows
    ensures WindowInside(|cs|, start, width, k, cols)
    ensures Reported(cs, start, width, k, cols) <= Reported(cs, start, width, rows, cols)
    decreases rows
  {
    if k < rows && cols > 0 {
      ReportedPrefix(cs, start, width, rows - 1, cols, k);
    }
  }

  /**
   * One more row of a window written to a buffer. The buffer held what the first `row`
   * rows report, and then received the first n - from occupants of row `row`, as many
   * as fitted. It then holds as much of what the first row + 1 rows report as fits.
   */
  lemma RowWritten(cs: seq<Cell>, start: int, width: int, rows: int, cols: int, row: int,
                   buffer: array<Option<EntityId>>, from: int, n: int)
    requires WindowInside(|cs|, start, width, rows, cols) && 0 <= row < rows && cols > 0
    requires from == |Reported(cs, start, width, row, cols)| && from <= n <= buffer.Length
    requires forall j :: 0 <= j < from ==> buffer[j] == Reported(cs, start, width, row, cols)[j]
    requires 0 <= RowStart(start, width, row) && RowStart(start, width, row) + cols <= |cs|
    requires var line := OccupantsIn(cs, RowStart(start, width, row), RowStart(start, width, row) + cols);
      n - from == Min(|line|, buffer.Length - from) &&
      forall j :: from <= j < n ==> buffer[j] == line[j - from]
    ensures var after := Reported(cs, start, width, row + 1, cols);
      n == Min(|after|, buffer.Length) && forall j :: 0 <= j < n ==> buffer[j] == after[j]
  {
    var done := Reported(cs, start, width, row, cols);
    var line := OccupantsIn(cs, RowStart(start, width, row), RowStart(start, width, row) + cols);
    var after := Reported(cs, start, width, row + 1, cols);
    assert after == done + line;
    forall j | 0 <= j < n
      ensures buffer[j] == after[j]
    {
      assert after[j] == (done + line)[j];
    }
  }

  /** (a + 1) * b unfolds to a * b + b. */
  lemma MulSucc(a: int, b: int)
    ensures (a + 1) * b == a * b + b
  {
  }
}
