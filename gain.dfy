/** The integer skeleton of the gain loop in `process` (main.go lines
    127-145): which cells of the Bits x Bits grid are counted, and which of
    them contribute their scale to the running sum. The scale itself and
    its Inf/NaN/ceiling test are floating point; the test is the parameter
    `outlier`. */
module Gain {

  /** A cell (i, ii) of the grid. */
  type Cell = (nat, nat)

  /** The loop skips every cell in row or column 0 or 1. */
  predicate Retained(c: Cell)
  {
    c.0 != 0 && c.0 != 1 && c.1 != 0 && c.1 != 1
  }

  /** The retained cells (i, ii) with ii < upto, in visiting order. */
  function RowCells(i: nat, upto: nat): seq<Cell>
  {
    if upto == 0 then []
    else RowCells(i, upto - 1) + (if Retained((i, upto - 1)) then [(i, upto - 1)] else [])
  }

  /** The retained cells of the first `rows` rows of a width x width grid,
      in row-major visiting order. */
  function GridCells(width: nat, rows: nat): seq<Cell>
  {
    if rows == 0 then [] else GridCells(width, rows - 1) + RowCells(rows - 1, width)
  }

  /** The cells that are not outliers, in the same order. */
  function Kept(cells: seq<Cell>, outlier: Cell -> bool): seq<Cell>
  {
    if cells == [] then []
    else
      var last := cells[|cells| - 1];
      Kept(cells[..|cells| - 1], outlier) + (if outlier(last) then [] else [last])
  }

  lemma KeptSnoc(cells: seq<Cell>, c: Cell, outlier: Cell -> bool)
    ensures Kept(cells + [c], outlier) == Kept(cells, outlier) + (if outlier(c) then [] else [c])
  {
    assert (cells + [c])[..|cells|] == cells;
  }

  /** What survives the filter: exactly the cells that are not outliers,
      never more than were counted. */
  lemma {:induction false} KeptContents(cells: seq<Cell>, outlier: Cell -> bool)
    ensures forall c :: c in Kept(cells, outlier) <==> c in cells && !outlier(c)
    ensures |Kept(cells, outlier)| <= |cells|
  {
    if cells != [] {
      var init := cells[..|cells| - 1];
      KeptContents(init, outlier);
      assert cells == init + [cells[|cells| - 1]];
    }
  }

  /** With no outlier every counted cell reaches the sum: for two equal
      matrices whose ratios are all finite this makes the gain sum / count
      an average of ones. */
  lemma {:induction false} KeptWithoutOutliers(cells: seq<Cell>, outlier: Cell -> bool)
    requires forall c :: c in cells ==> !outlier(c)
    ensures Kept(cells, outlier) == cells
  {
    if cells != [] {
      var init := cells[..|cells| - 1];
      assert forall c :: c in init ==> c in cells;
      KeptWithoutOutliers(init, outlier);
      assert cells == init + [cells[|cells| - 1]];
    }
  }

  lemma {:induction false} RowCellsContents(i: nat, upto: nat)
    ensures |RowCells(i, upto)| == if i < 2 || upto < 2 then 0 else upto - 2
    ensures forall c :: c in RowCells(i, upto) <==> c.0 == i && c.1 < upto && Retained(c)
  {
    if upto > 0 {
      RowCellsContents(i, upto - 1);
    }
  }

  /** The retained cells of a grid are the cells with both indices in
      [2, width), (width - 2)^2 of them for width >= 2. */
  lemma {:induction false} GridCellsContents(width: nat, rows: nat)
    ensures |GridCells(width, rows)| == if rows < 2 || width < 2 then 0 else (rows - 2) * (width - 2)
    ensures forall c :: c in GridCells(width, rows) <==> c.0 < rows && c.1 < width && Retained(c)
  {
    GridCellsSize(width, rows);
    GridCellsMembers(width, rows);
  }

  lemma {:induction false} GridCellsSize(width: nat, rows: nat)
    ensures |GridCells(width, rows)| == if rows < 2 || width < 2 then 0 else (rows - 2) * (width - 2)
  {
    if rows > 0 {
      GridCellsSize(width, rows - 1);
      RowCellsContents(rows - 1, width);
      if rows >= 3 && width >= 2 {
        GridRowsAddRow(rows - 3, width - 2);
      }
    }
  }

  lemma GridRowsAddRow(r: nat, w: nat)
    ensures (r + 1) * w == r * w + w
  {
  }

  lemma {:induction false} GridCellsMembers(width: nat, rows: nat)
    ensures forall c :: c in GridCells(width, rows) <==> c.0 < rows && c.1 < width && Retained(c)
  {
    if rows > 0 {
      GridCellsMembers(width, rows - 1);
      RowCellsContents(rows - 1, width);
    }
  }

  /** Visiting cell (i, ii) extends the visited retained cells by that cell
      if it is retained, and the kept cells by it if it is also no outlier. */
  lemma VisitStep(width: nat, i: nat, ii: nat, outlier: Cell -> bool)
    ensures
      var before := GridCells(width, i) + RowCells(i, ii);
      var after := GridCells(width, i) + RowCells(i, ii + 1);
      && |after| == |before| + (if Retained((i, ii)) then 1 else 0)
      && Kept(after, outlier) == Kept(before, outlier) + (if Retained((i, ii)) && !outlier((i, ii)) then [(i, ii)] else [])
  {
    var before := GridCells(width, i) + RowCells(i, ii);
    if Retained((i, ii)) {
      assert GridCells(width, i) + RowCells(i, ii + 1) == before + [(i, ii)];
      KeptSnoc(before, (i, ii), outlier);
    } else {
      assert RowCells(i, ii + 1) == RowCells(i, ii);
    }
  }

  /** The gain loop's bookkeeping. `count` is incremented for every retained
      cell before the outlier test, so the filter changes only which cells
      are added to `sum` (here `summed`, in visiting order), never `count`. */
  method GainCells(width: nat, outlier: Cell -> bool) returns (count: nat, summed: seq<Cell>)
    ensures count == |GridCells(width, width)|
    ensures count == if width < 2 then 0 else (width - 2) * (width - 2)
    ensures summed == Kept(GridCells(width, width), outlier)
    ensures forall c :: c in summed <==> c.0 < width && c.1 < width && Retained(c) && !outlier(c)
  {
    count := 0;
    summed := [];
    for i := 0 to width
      invariant count == |GridCells(width, i)|
      invariant summed == Kept(GridCells(width, i), outlier)
    {
      assert GridCells(width, i) + RowCells(i, 0) == GridCells(width, i);
      for ii := 0 to width
        invariant count == |GridCells(width, i) + RowCells(i, ii)|
        invariant summed == Kept(GridCells(width, i) + RowCells(i, ii), outlier)
      {
        VisitStep(width, i, ii, outlier);
        if i == 0 || i == 1 || ii == 0 || ii == 1 {
          continue;
        }
        count := count + 1;
        if outlier((i, ii)) {
          continue;
        }
        summed := summed + [(i, ii)];
      }
    }
    GridCellsContents(width, width);
    KeptContents(GridCells(width, width), outlier);
  }
}
