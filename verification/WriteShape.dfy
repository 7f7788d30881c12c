/**
 Checking data that is to be written against a selection and the cells of a column, and
 giving undefined cells a shape (ResultShapeData::MakeWrite of result_shape.cc).
 */
module WriteShape {
  import opened Wrappers
  import opened Selections
  import opened Spans
  import opened ResultShapes
  import opened Partitions
  import opened RowData
  import opened ReadEffects

  // ----- one dimension of one cell

  // The ids of a span that are no holes.
  function CountSelected(span: seq<int>): nat
  {
    if span == [] then 0 else CountSelected(span[..|span| - 1]) + if span[|span| - 1] >= 0 then 1 else 0
  }

  // The data does not fit a cell: it selects too much of it, or is larger where nothing is selected.
  ghost predicate Overflows(selection: Selection, cell: Shape, data: Shape, d: nat)
    requires d < |data| <= |cell|
  {
    match selection.MaybeFSpan(d, |data| + 1)
    case Some(span) => CountSelected(span) > cell[d] || exists i :: i in span && i >= cell[d]
    case None => data[d] > cell[d]
  }

  ghost predicate FitsCell(selection: Selection, cell: Shape, data: Shape)
    requires |data| <= |cell|
  {
    forall d :: 0 <= d < |data| ==> !Overflows(selection, cell, data, d)
  }

  // What the program keeps of the selection of a dimension.
  datatype DimSelection = DimSelection(size: nat, nselected: nat, maxIndex: int)

  function DimSelectionOf(selection: Selection, d: nat, ndim: nat): Option<DimSelection>
  {
    match selection.MaybeFSpan(d, ndim)
    case None => None
    case Some(span) => Some(DimSelection(|span|, CountSelected(span), MaxOf(span)))
  }

  function DimSelections(selection: Selection, k: nat): (dims: seq<Option<DimSelection>>)
    ensures |dims| == k && forall d :: 0 <= d < k ==> dims[d] == DimSelectionOf(selection, d, k + 1)
  {
    seq(k, d requires 0 <= d < k => DimSelectionOf(selection, d, k + 1))
  }

  method CheckAgainstCell(dims: seq<Option<DimSelection>>, cell: Shape, data: Shape,
                          ghost selection: Selection) returns (fits: bool)
    requires |dims| == |data| <= |cell| && dims == DimSelections(selection, |data|)
    ensures fits == FitsCell(selection, cell, data)
  {
    for d := 0 to |data|
      invariant forall e :: 0 <= e < d ==> !Overflows(selection, cell, data, e)
    {
      var overflows := match dims[d]
        case Some(dim) => dim.nselected > cell[d] || dim.maxIndex >= cell[d]
        case None => data[d] > cell[d];
      assert overflows == Overflows(selection, cell, data, d);
      if overflows {
        return false;
      }
    }
    return true;
  }

  // The shape of a cell that is not defined yet: that of the data, with room for every selected index.
  function NewCell(selection: Selection, data: Shape): (cell: Shape)
    ensures |cell| == |data|
  {
    seq(|data|, d requires 0 <= d < |data| =>
      match selection.MaybeFSpan(d, |data| + 1)
      case Some(span) => if MaxOf(span) + 1 > data[d] then MaxOf(span) + 1 else data[d]
      case None => data[d])
  }

  method ShapeNewCell(dims: seq<Option<DimSelection>>, data: Shape, ghost selection: Selection) returns (cell: Shape)
    requires |dims| == |data| && dims == DimSelections(selection, |data|)
    ensures cell == NewCell(selection, data)
  {
    cell := data;
    for d := 0 to |data|
      invariant |cell| == |data|
      invariant forall e :: 0 <= e < |data| ==> cell[e] == if e < d then NewCell(selection, data)[e] else data[e]
    {
      if dims[d].Some? {
        var extent := dims[d].value.maxIndex + 1;
        cell := cell[d := if extent > cell[d] then extent else cell[d]];
      }
    }
  }

  // ----- the rows of a column with cells of various shapes

  // Every row that is written, checked in turn and without remembering any other: the column
  // with new cells, up to the first row whose cell is too small.
  ghost function CheckRows(column: ColumnShape, selection: Selection, result: ResultShape, rows: seq<int>,
                           n: nat): (ColumnShape, bool)
    requires result.WellFormed() && n <= |rows| && n <= result.NRows()
    requires CanCheck(column, result.NDim() - 1, rows)
    ensures CanCheck(CheckRows(column, selection, result, rows, n).0, result.NDim() - 1, rows)
  {
    if n == 0 then (column, true)
    else
      var (before, ok) := CheckRows(column, selection, result, rows, n - 1);
      if !ok then (before, false)
      else CheckRow(before, selection, rows[n - 1], result.CellShape(n - 1))
  }

  ghost function CheckRow(column: ColumnShape, selection: Selection, row: int, data: Shape): (ColumnShape, bool)
    requires row < column.NRow()
    requires row >= 0 && column.IsDefined(row) ==> |data| <= |column.cells[row].value|
  {
    if row < 0 then (column, true)
    else if column.IsDefined(row) then (column, FitsCell(selection, column.cells[row].value, data))
    else (column.(cells := column.cells[row := Some(NewCell(selection, data))]), true)
  }

  // The rows exist, and defined cells have all the dimensions of the data.
  ghost predicate CanCheck(column: ColumnShape, k: nat, rows: seq<int>)
  {
    && (forall i :: 0 <= i < |rows| ==> rows[i] < column.NRow())
    && forall r :: 0 <= r < column.NRow() ==> column.cells[r].Some? ==> |column.cells[r].value| >= k
  }

  /** A column whose undefined cells can be given a shape. */
  class ArrayColumn {
    var shape: ColumnShape

    constructor (shape: ColumnShape)
      ensures this.shape == shape
    {
      this.shape := shape;
    }

    method SetShape(row: nat, cell: Shape)
      requires row < shape.NRow()
      modifies this
      ensures shape == old(shape).(cells := old(shape).cells[row := Some(cell)])
    {
      shape := shape.(cells := shape.cells[row := Some(cell)]);
    }
  }

  /**
   Checks the rows, skipping those with the cell and data shapes of the last row that was
   checked: this leaves the column, and accepts, exactly as checking every row does.
   */
  method CheckVaryingCells(column: ArrayColumn, selection: Selection, result: ResultShape, rows: seq<int>)
    returns (ok: bool)
    requires result.WellFormed() && |rows| <= result.NRows()
    requires CanCheck(column.shape, result.NDim() - 1, rows)
    modifies column
    ensures (column.shape, ok) == CheckRows(old(column.shape), selection, result, rows, |rows|)
  {
    ghost var before := column.shape;
    var dims := DimSelections(selection, result.NDim() - 1);
    var last: Option<(Shape, Shape)> := None;
    for r := 0 to |rows|
      invariant ChecksAs(before, selection, result, rows, r, column.shape, true)
      invariant HasPassed(selection, last)
    {
      ok, last := CheckNextRow(column, dims, result, rows, r, last, before, selection);
      if !ok {
        RejectedStays(before, selection, result, rows, r + 1, |rows|);
        return false;
      }
    }
    return true;
  }

  // Checking n rows leaves the column so, and accepts or not.
  ghost predicate ChecksAs(before: ColumnShape, selection: Selection, result: ResultShape, rows: seq<int>, n: nat,
                           after: ColumnShape, ok: bool)
    requires result.WellFormed() && n <= |rows| && n <= result.NRows() && CanCheck(before, result.NDim() - 1, rows)
  {
    CheckRows(before, selection, result, rows, n) == (after, ok)
  }

  method CheckNextRow(column: ArrayColumn, dims: seq<Option<DimSelection>>, result: ResultShape, rows: seq<int>,
                      r: nat, last: Option<(Shape, Shape)>, ghost before: ColumnShape, ghost selection: Selection)
    returns (ok: bool, next: Option<(Shape, Shape)>)
    requires result.WellFormed() && r < |rows| <= result.NRows() && CanCheck(before, result.NDim() - 1, rows)
    requires dims == DimSelections(selection, result.NDim() - 1) && HasPassed(selection, last)
    requires ChecksAs(before, selection, result, rows, r, column.shape, true)
    modifies column
    ensures ChecksAs(before, selection, result, rows, r + 1, column.shape, ok) && HasPassed(selection, next)
  {
    CheckStep(before, column.shape, selection, result, rows, r);
    ok, next := CheckVaryingCell(column, dims, rows[r], result.CellShape(r), last, selection);
  }

  // The last row that was checked passed.
  ghost predicate HasPassed(selection: Selection, last: Option<(Shape, Shape)>)
  {
    last.Some? ==> |last.value.1| <= |last.value.0| && FitsCell(selection, last.value.0, last.value.1)
  }

  method CheckVaryingCell(column: ArrayColumn, dims: seq<Option<DimSelection>>, row: int, data: Shape,
                          last: Option<(Shape, Shape)>, ghost selection: Selection)
    returns (ok: bool, next: Option<(Shape, Shape)>)
    requires row < column.shape.NRow() && dims == DimSelections(selection, |data|) && HasPassed(selection, last)
    requires row >= 0 && column.shape.IsDefined(row) ==> |data| <= |column.shape.cells[row].value|
    modifies column
    ensures (column.shape, ok) == CheckRow(old(column.shape), selection, row, data)
    ensures HasPassed(selection, next)
  {
    ok, next := true, last;
    if row < 0 {
      return;
    }
    if column.shape.IsDefined(row) {
      var cell := column.shape.cells[row].value;
      if last != Some((cell, data)) {
        ok := CheckAgainstCell(dims, cell, data, selection);
        if ok {
          next := Some((cell, data));
        }
      }
    } else {
      var cell := ShapeNewCell(dims, data, selection);
      column.SetShape(row, cell);
    }
  }

  lemma CheckStep(before: ColumnShape, column: ColumnShape, selection: Selection, result: ResultShape, rows: seq<int>,
                  r: nat)
    requires result.WellFormed() && r < |rows| <= result.NRows() && CanCheck(before, result.NDim() - 1, rows)
    requires ChecksAs(before, selection, result, rows, r, column, true)
    ensures CanCheck(column, result.NDim() - 1, rows) && |result.CellShape(r)| == result.NDim() - 1
    ensures var (after, ok) := CheckRow(column, selection, rows[r], result.CellShape(r));
            ChecksAs(before, selection, result, rows, r + 1, after, ok)
  {
  }

  lemma {:induction false} RejectedStays(column: ColumnShape, selection: Selection, result: ResultShape,
                                         rows: seq<int>, m: nat, n: nat)
    requires result.WellFormed() && m <= n <= |rows| && n <= result.NRows() && CanCheck(column, result.NDim() - 1, rows)
    requires !CheckRows(column, selection, result, rows, m).1
    ensures CheckRows(column, selection, result, rows, n) == CheckRows(column, selection, result, rows, m)
  {
    if m < n {
      RejectedStays(column, selection, result, rows, m, n - 1);
      var (before, ok) := CheckRows(column, selection, result, rows, n - 1);
      assert !ok && CheckRows(column, selection, result, rows, n) == (before, false);
    }
  }

  // ----- the whole check

  // The shapes of the data, once if all rows share one.
  function DataShapes(result: ResultShape): (shapes: seq<Shape>)
    requires result.WellFormed()
    ensures forall r :: 0 <= r < |shapes| ==> |shapes[r]| == result.NDim() - 1
  {
    match result
    case Fixed(shape, _) => [shape[..|shape| - 1]]
    case Varying(_, rowShapes) => rowShapes
  }

  ghost predicate RankAgrees(column: ColumnShape, result: ResultShape)
  {
    column.ndim == -1 || result.NDim() == column.ndim + 1
  }

  ghost predicate RowsAgree(column: ColumnShape, selection: Selection, result: ResultShape)
    requires result.WellFormed()
  {
    selection.HasRowSpan() ==>
      && |selection.GetRowSpan()| == result.NRows() <= column.NRow()
      && forall i :: 0 <= i < |selection.GetRowSpan()| ==> selection.GetRowSpan()[i] < column.NRow()
  }

  ghost predicate SizesAgree(selection: Selection, data: Shape)
  {
    forall d :: 0 <= d < |data| ==> SizeAgrees(selection, data, d)
  }

  predicate SizeAgrees(selection: Selection, data: Shape, d: nat)
    requires d < |data|
  {
    match selection.MaybeFSpan(d, |data| + 1)
    case Some(span) => |span| == data[d]
    case None => true
  }

  ghost predicate AllSizesAgree(selection: Selection, shapes: seq<Shape>)
  {
    forall r :: 0 <= r < |shapes| ==> SizesAgree(selection, shapes[r])
  }

  ghost predicate AllFit(selection: Selection, cell: Shape, shapes: seq<Shape>)
    requires forall r :: 0 <= r < |shapes| ==> |shapes[r]| <= |cell|
  {
    forall r :: 0 <= r < |shapes| ==> FitsCell(selection, cell, shapes[r])
  }

  // The rows that are written. Without a row selection these are the leading rows.
  function WrittenRows(column: ColumnShape, selection: Selection, nrows: nat): seq<int>
  {
    if selection.HasRowSpan() then selection.GetRowSpan()
    else Iota(if column.NRow() < nrows then column.NRow() else nrows)
  }

  // Defined cells have at least the dimensions of the data, all of which the program looks at.
  ghost predicate CellsReach(column: ColumnShape, k: nat)
  {
    forall r :: 0 <= r < column.NRow() ==> column.cells[r].Some? ==> |column.cells[r].value| >= k
  }

  // The column after the check and whether the data is accepted.
  ghost function Checked(column: ColumnShape, selection: Selection, result: ResultShape): (ColumnShape, bool)
    requires result.WellFormed() && column.Valid()
    requires column.ndim == -1 ==> CellsReach(column, result.NDim() - 1)
  {
    if !RankAgrees(column, result) || !RowsAgree(column, selection, result) then (column, false)
    else if result.NDim() == 1 then (column, true)
    else if !AllSizesAgree(selection, DataShapes(result)) then (column, false)
    else if column.fixedShape.Some? then (column, AllFit(selection, column.fixedShape.value, DataShapes(result)))
    else CheckRows(column, selection, result, WrittenRows(column, selection, result.NRows()),
        |WrittenRows(column, selection, result.NRows())|)
  }

  method CheckSizes(selection: Selection, result: ResultShape) returns (ok: bool)
    requires result.WellFormed()
    ensures ok == AllSizesAgree(selection, DataShapes(result))
  {
    var shapes := DataShapes(result);
    for r := 0 to |shapes|
      invariant forall q :: 0 <= q < r ==> SizesAgree(selection, shapes[q])
    {
      for d := 0 to |shapes[r]|
        invariant forall e :: 0 <= e < d ==> SizeAgrees(selection, shapes[r], e)
      {
        if !SizeAgrees(selection, shapes[r], d) {
          return false;
        }
      }
    }
    return true;
  }

  method CheckFixedCells(selection: Selection, result: ResultShape, cell: Shape) returns (ok: bool)
    requires result.WellFormed() && |cell| == result.NDim() - 1
    ensures ok == AllFit(selection, cell, DataShapes(result))
  {
    var shapes := DataShapes(result);
    var dims := DimSelections(selection, |cell|);
    for r := 0 to |shapes|
      invariant forall q :: 0 <= q < r ==> FitsCell(selection, cell, shapes[q])
    {
      var fits := CheckAgainstCell(dims, cell, shapes[r], selection);
      if !fits {
        return false;
      }
    }
    return true;
  }

  method CheckRowSpan(column: ColumnShape, selection: Selection, result: ResultShape) returns (ok: bool)
    requires result.WellFormed()
    ensures ok == RowsAgree(column, selection, result)
  {
    if selection.HasRowSpan() {
      var span := selection.GetRowSpan();
      if |span| != result.NRows() || |span| > column.NRow() {
        return false;
      }
      for r := 0 to |span|
        invariant forall q :: 0 <= q < r ==> span[q] < column.NRow()
      {
        if span[r] >= column.NRow() {
          return false;
        }
      }
    }
    return true;
  }

  // ----- what acceptance means

  // The places of a span that are no holes.
  ghost function Chosen(span: seq<int>): set<nat>
  {
    set k: nat | k < |span| && span[k] >= 0
  }

  lemma OneMoreChosen(front: seq<int>, x: int)
    ensures Chosen(front + [x]) == Chosen(front) + if x >= 0 then {|front|} else {}
  {
  }

  lemma {:induction false} CountIsChosen(span: seq<int>)
    ensures CountSelected(span) == |Chosen(span)|
  {
    if span != [] {
      var last := |span| - 1;
      CountIsChosen(span[..last]);
      OneMoreChosen(span[..last], span[last]);
      assert span == span[..last] + [span[last]];
    }
  }

  // The cell has the dimensions of the data, all indices selected, and as many as are selected; or
  // where nothing is selected, all of the data.
  ghost predicate HoldsData(selection: Selection, cell: Shape, data: Shape)
  {
    && |data| <= |cell|
    && forall d :: 0 <= d < |data| ==> HoldsExtent(selection.MaybeFSpan(d, |data| + 1), cell[d], data[d])
  }

  ghost predicate HoldsExtent(span: Option<seq<int>>, whole: nat, extent: nat)
  {
    match span
    case Some(ids) => |Chosen(ids)| <= whole && forall i :: i in ids ==> i < whole
    case None => extent <= whole
  }

  lemma FitsCellMeans(selection: Selection, cell: Shape, data: Shape)
    requires |data| <= |cell|
    ensures FitsCell(selection, cell, data) <==> HoldsData(selection, cell, data)
  {
    forall d | 0 <= d < |data|
      ensures !Overflows(selection, cell, data, d)
         <==> HoldsExtent(selection.MaybeFSpan(d, |data| + 1), cell[d], data[d])
    {
      var span := selection.MaybeFSpan(d, |data| + 1);
      if span.Some? {
        CountIsChosen(span.value);
      }
    }
  }

  // The least cell with room for all of the data and every index selected.
  ghost predicate IsLeastCell(cell: Shape, selection: Selection, data: Shape)
  {
    && |cell| == |data|
    && forall d :: 0 <= d < |data| ==> IsLeastExtent(cell[d], selection.MaybeFSpan(d, |data| + 1), data[d])
  }

  ghost predicate IsLeastExtent(whole: nat, span: Option<seq<int>>, extent: nat)
  {
    && extent <= whole
    && (span.Some? ==> forall i :: i in span.value ==> i < whole)
    && (extent < whole ==> span.Some? && exists i :: i in span.value && i + 1 == whole)
  }

  lemma NewCellIsLeast(selection: Selection, data: Shape)
    ensures IsLeastCell(NewCell(selection, data), selection, data)
  {
    forall d | 0 <= d < |data|
      ensures IsLeastExtent(NewCell(selection, data)[d], selection.MaybeFSpan(d, |data| + 1), data[d])
    {
      var span := selection.MaybeFSpan(d, |data| + 1);
      assert span.Some? ==> MaxOf(span.value) in span.value;
    }
  }

  lemma LeastIsUnique(a: Shape, b: Shape, selection: Selection, data: Shape)
    requires IsLeastCell(a, selection, data) && IsLeastCell(b, selection, data)
    ensures a == b
  {
    forall d | 0 <= d < |data|
      ensures a[d] == b[d]
    {
      assert IsLeastExtent(a[d], selection.MaybeFSpan(d, |data| + 1), data[d]);
      assert IsLeastExtent(b[d], selection.MaybeFSpan(d, |data| + 1), data[d]);
    }
  }

  // The first data for a row that is not defined.
  ghost predicate IsFirst(column: ColumnShape, rows: seq<int>, i: nat)
    requires i < |rows|
  {
    0 <= rows[i] < column.NRow() && column.cells[rows[i]].None? && rows[i] !in rows[..i]
  }

  // The data shapes its cell, if it is the first, or else fits the one there.
  ghost predicate RowPassed(column: ColumnShape, after: ColumnShape, selection: Selection, rows: seq<int>, i: nat,
                            data: Shape)
    requires i < |rows|
  {
    && rows[i] < after.NRow()
    && (rows[i] >= 0 ==>
          && after.cells[rows[i]].Some?
          && var cell := after.cells[rows[i]].value;
             if IsFirst(column, rows, i) then IsLeastCell(cell, selection, data) else HoldsData(selection, cell, data))
  }

  // Only cells of the given rows that were not defined have changed.
  ghost predicate OnlyShaped(column: ColumnShape, after: ColumnShape, rows: seq<int>)
  {
    && after.(cells := column.cells) == column && |after.cells| == |column.cells|
    && forall r :: 0 <= r < column.NRow() && (column.cells[r].Some? || r !in rows) ==> after.cells[r] == column.cells[r]
  }

  // The first n rows passed, and have left the column so.
  ghost predicate Passed(column: ColumnShape, after: ColumnShape, selection: Selection, result: ResultShape,
                         rows: seq<int>, n: nat)
    requires result.WellFormed() && n <= |rows| && n <= result.NRows()
  {
    && OnlyShaped(column, after, rows[..n])
    && forall i :: 0 <= i < n ==> RowPassed(column, after, selection, rows, i, result.CellShape(i))
  }

  // Row m does not: its data is too large for the cell there, or for that which earlier data gave it.
  ghost predicate StopsAt(column: ColumnShape, after: ColumnShape, selection: Selection, result: ResultShape,
                          rows: seq<int>, m: nat)
    requires result.WellFormed() && m < |rows| && m < result.NRows()
  {
    && Passed(column, after, selection, result, rows, m)
    && 0 <= rows[m] < after.NRow() && after.cells[rows[m]].Some?
    && !HoldsData(selection, after.cells[rows[m]].value, result.CellShape(m))
  }

  ghost predicate Stops(column: ColumnShape, after: ColumnShape, selection: Selection, result: ResultShape,
                        rows: seq<int>, n: nat)
    requires result.WellFormed() && n <= |rows| && n <= result.NRows()
  {
    exists m :: 0 <= m < n && StopsAt(column, after, selection, result, rows, m)
  }

  lemma RowTaken(column: ColumnShape, before: ColumnShape, selection: Selection, result: ResultShape, rows: seq<int>,
                 m: nat)
    requires result.WellFormed() && m < |rows| && m < result.NRows() && CanCheck(column, result.NDim() - 1, rows)
    requires CanCheck(before, result.NDim() - 1, rows) && Passed(column, before, selection, result, rows, m)
    requires rows[m] >= 0
    ensures before.IsDefined(rows[m]) <==> !IsFirst(column, rows, m)
  {
    if rows[m] in rows[..m] {
      var i :| 0 <= i < m && rows[..m][i] == rows[m];
      assert RowPassed(column, before, selection, rows, i, result.CellShape(i));
    }
  }

  lemma PassStep(column: ColumnShape, before: ColumnShape, after: ColumnShape, selection: Selection,
                 result: ResultShape, rows: seq<int>, m: nat)
    requires result.WellFormed() && m < |rows| && m < result.NRows() && CanCheck(column, result.NDim() - 1, rows)
    requires CanCheck(before, result.NDim() - 1, rows) && Passed(column, before, selection, result, rows, m)
    requires CheckRow(before, selection, rows[m], result.CellShape(m)) == (after, true)
    ensures Passed(column, after, selection, result, rows, m + 1)
  {
    var data := result.CellShape(m);
    assert rows[..m + 1] == rows[..m] + [rows[m]];
    if rows[m] >= 0 {
      RowTaken(column, before, selection, result, rows, m);
      if before.IsDefined(rows[m]) {
        FitsCellMeans(selection, before.cells[rows[m]].value, data);
      } else {
        NewCellIsLeast(selection, data);
      }
    }
    forall i | 0 <= i <= m
      ensures RowPassed(column, after, selection, rows, i, result.CellShape(i))
    {
      if i < m {
        assert RowPassed(column, before, selection, rows, i, result.CellShape(i));
      }
    }
  }

  lemma StopStep(column: ColumnShape, before: ColumnShape, selection: Selection, result: ResultShape, rows: seq<int>,
                 m: nat)
    requires result.WellFormed() && m < |rows| && m < result.NRows() && CanCheck(column, result.NDim() - 1, rows)
    requires CanCheck(before, result.NDim() - 1, rows) && Passed(column, before, selection, result, rows, m)
    requires !CheckRow(before, selection, rows[m], result.CellShape(m)).1
    ensures CheckRow(before, selection, rows[m], result.CellShape(m)).0 == before
    ensures StopsAt(column, before, selection, result, rows, m)
  {
    FitsCellMeans(selection, before.cells[rows[m]].value, result.CellShape(m));
  }

  ghost predicate IsOutcome(column: ColumnShape, after: ColumnShape, accepted: bool, selection: Selection,
                            result: ResultShape, rows: seq<int>, n: nat)
    requires result.WellFormed() && n <= |rows| && n <= result.NRows()
  {
    if accepted then Passed(column, after, selection, result, rows, n)
    else Stops(column, after, selection, result, rows, n)
  }

  lemma StillStops(column: ColumnShape, after: ColumnShape, selection: Selection, result: ResultShape,
                   rows: seq<int>, n: nat)
    requires result.WellFormed() && n < |rows| && n < result.NRows() && Stops(column, after, selection, result, rows, n)
    ensures Stops(column, after, selection, result, rows, n + 1)
  {
  }

  lemma OutcomeStep(column: ColumnShape, before: ColumnShape, accepted: bool, after: ColumnShape, ok: bool,
                    selection: Selection, result: ResultShape, rows: seq<int>, m: nat)
    requires result.WellFormed() && m < |rows| && m < result.NRows() && CanCheck(column, result.NDim() - 1, rows)
    requires CanCheck(before, result.NDim() - 1, rows)
    requires IsOutcome(column, before, accepted, selection, result, rows, m)
    requires if accepted then (after, ok) == CheckRow(before, selection, rows[m], result.CellShape(m))
             else after == before && !ok
    ensures IsOutcome(column, after, ok, selection, result, rows, m + 1)
  {
    if ok {
      PassStep(column, before, after, selection, result, rows, m);
    } else if accepted {
      StopStep(column, before, selection, result, rows, m);
    } else {
      StillStops(column, before, selection, result, rows, m);
    }
  }

  lemma NothingPassed(column: ColumnShape, selection: Selection, result: ResultShape, rows: seq<int>)
    requires result.WellFormed()
    ensures IsOutcome(column, column, true, selection, result, rows, 0)
  {
  }

  /**
   The data is accepted as long as it fits the cells that are defined, or that earlier data has shaped;
   a cell that was not defined gets the least shape with room for the first data written to it.
   */
  lemma {:induction false} RowsCheckedInTurn(column: ColumnShape, selection: Selection, result: ResultShape,
                                             rows: seq<int>, n: nat)
    requires result.WellFormed() && n <= |rows| && n <= result.NRows() && CanCheck(column, result.NDim() - 1, rows)
    ensures IsOutcome(column, CheckRows(column, selection, result, rows, n).0,
                      CheckRows(column, selection, result, rows, n).1, selection, result, rows, n)
  {
    if n > 0 {
      RowsCheckedInTurn(column, selection, result, rows, n - 1);
      var before := CheckRows(column, selection, result, rows, n - 1);
      var after := CheckRows(column, selection, result, rows, n);
      OutcomeStep(column, before.0, before.1, after.0, after.1, selection, result, rows, n - 1);
    } else {
      NothingPassed(column, selection, result, rows);
    }
  }

  // There is one column that the rows can leave, and they do not pass if they stop.
  lemma PassedAgree(column: ColumnShape, a: ColumnShape, b: ColumnShape, selection: Selection, result: ResultShape,
                    rows: seq<int>, m: nat, n: nat)
    requires result.WellFormed() && m <= n <= |rows| && n <= result.NRows()
    requires Passed(column, a, selection, result, rows, m) && Passed(column, b, selection, result, rows, n)
    ensures forall r :: 0 <= r < column.NRow() && (column.cells[r].Some? || r in rows[..m]) ==> a.cells[r] == b.cells[r]
    ensures m == n ==> a == b
  {
    forall r | 0 <= r < column.NRow() && (column.cells[r].Some? || r in rows[..m])
      ensures a.cells[r] == b.cells[r]
    {
      if column.cells[r].None? {
        var i := FirstOf(column, rows, m, r);
        assert RowPassed(column, a, selection, rows, i, result.CellShape(i));
        assert RowPassed(column, b, selection, rows, i, result.CellShape(i));
        LeastIsUnique(a.cells[r].value, b.cells[r].value, selection, result.CellShape(i));
      }
    }
    if m == n {
      assert a.cells == b.cells;
    }
  }

  lemma {:induction false} FirstOf(column: ColumnShape, rows: seq<int>, n: nat, r: nat) returns (i: nat)
    requires n <= |rows| && r < column.NRow() && column.cells[r].None? && r in rows[..n]
    ensures i < n && rows[i] == r && IsFirst(column, rows, i)
  {
    if r in rows[..n - 1] {
      i := FirstOf(column, rows, n - 1, r);
    } else {
      i := n - 1;
    }
  }

  /** And no other data is, nor can the column be left otherwise. */
  lemma PassedIsAccepted(column: ColumnShape, after: ColumnShape, selection: Selection, result: ResultShape,
                         rows: seq<int>, n: nat)
    requires result.WellFormed() && n <= |rows| && n <= result.NRows() && CanCheck(column, result.NDim() - 1, rows)
    requires Passed(column, after, selection, result, rows, n)
    ensures CheckRows(column, selection, result, rows, n) == (after, true)
  {
    RowsCheckedInTurn(column, selection, result, rows, n);
    var (left, accepted) := CheckRows(column, selection, result, rows, n);
    if accepted {
      PassedAgree(column, left, after, selection, result, rows, n, n);
    } else {
      var m :| 0 <= m < n && StopsAt(column, left, selection, result, rows, m);
      PassedAgree(column, left, after, selection, result, rows, m, n);
      StoppedCell(column, left, selection, result, rows, m);
    }
  }

  lemma StoppedCell(column: ColumnShape, left: ColumnShape, selection: Selection, result: ResultShape, rows: seq<int>,
                    m: nat)
    requires result.WellFormed() && m < |rows| && m < result.NRows()
    requires StopsAt(column, left, selection, result, rows, m)
    ensures rows[m] < column.NRow() && !IsFirst(column, rows, m)
    ensures column.cells[rows[m]].Some? || rows[m] in rows[..m]
  {
  }

  // No row is written twice.
  ghost predicate DistinctRows(rows: seq<int>)
  {
    forall i, k :: 0 <= i < k < |rows| && rows[i] >= 0 ==> rows[i] != rows[k]
  }

  /** For distinct rows, the data is accepted exactly if every defined cell holds what is written to it. */
  lemma DistinctRowsChecked(column: ColumnShape, selection: Selection, result: ResultShape, rows: seq<int>)
    requires result.WellFormed() && |rows| <= result.NRows() && CanCheck(column, result.NDim() - 1, rows)
    requires DistinctRows(rows)
    ensures CheckRows(column, selection, result, rows, |rows|).1
       <==> RowsHold(column, selection, result, rows)
  {
    RowsCheckedInTurn(column, selection, result, rows, |rows|);
    var (after, accepted) := CheckRows(column, selection, result, rows, |rows|);
    if accepted {
      forall i | 0 <= i < |rows|
        ensures RowHolds(column, selection, rows[i], result.CellShape(i))
      {
        assert RowPassed(column, after, selection, rows, i, result.CellShape(i));
      }
    } else {
      var m :| 0 <= m < |rows| && StopsAt(column, after, selection, result, rows, m);
      StoppedCell(column, after, selection, result, rows, m);
      assert rows[m] !in rows[..m];
      assert !RowHolds(column, selection, rows[m], result.CellShape(m));
    }
  }

  ghost function Values(span: seq<int>): set<int>
  {
    set i | i in span && i >= 0
  }

  lemma {:induction false} DistinctValues(span: seq<int>)
    requires !HasRepeat(span)
    ensures |Values(span)| == |Chosen(span)|
  {
    if span != [] {
      var last := |span| - 1;
      var front, x := span[..last], span[last];
      assert span == front + [x];
      LastIsNew(front, x);
      DistinctValues(front);
      OneMoreChosen(front, x);
      OneMoreValue(front, x);
    }
  }

  lemma LastIsNew(front: seq<int>, x: int)
    requires !HasRepeat(front + [x])
    ensures !HasRepeat(front) && x !in Values(front)
  {
    var span := front + [x];
    assert forall i :: 0 <= i < |front| ==> span[i] == front[i];
    assert span[|front|] == x;
  }

  lemma OneMoreValue(front: seq<int>, x: int)
    ensures Values(front + [x]) == Values(front) + if x >= 0 then {x} else {}
  {
  }

  // Without repeated ids there are no more of them than the extent they lie below.
  lemma DistinctIdsFit(span: seq<int>, whole: nat)
    requires !HasRepeat(span) && forall i :: i in span ==> i < whole
    ensures |Chosen(span)| <= whole
  {
    DistinctValues(span);
    NumbersCount(whole);
    SubsetCount(Values(span), Numbers(whole));
  }

  lemma SubsetCount(a: set<int>, b: set<int>)
    requires a <= b
    ensures |a| <= |b|
  {
    assert b == a + (b - a);
  }

  ghost predicate RowsHold(column: ColumnShape, selection: Selection, result: ResultShape, rows: seq<int>)
    requires result.WellFormed() && |rows| <= result.NRows()
  {
    forall i :: 0 <= i < |rows| ==> RowHolds(column, selection, rows[i], result.CellShape(i))
  }

  // The row is not written, or not defined, or its cell holds the data.
  ghost predicate RowHolds(column: ColumnShape, selection: Selection, row: int, data: Shape)
  {
    0 <= row < column.NRow() && column.cells[row].Some? ==> HoldsData(selection, column.cells[row].value, data)
  }

  // Selected dimensions have the size of the data.
  ghost predicate HasSizes(selection: Selection, data: Shape)
  {
    forall d :: 0 <= d < |data| ==>
      var span := selection.MaybeFSpan(d, |data| + 1); span.Some? ==> |span.value| == data[d]
  }

  // The data is accepted, leaving the column so: its rank and sizes are those of the column and the
  // selection, the rows selected exist, and all of it fits the cells, which are shaped where they were not.
  ghost predicate Admits(column: ColumnShape, after: ColumnShape, selection: Selection, result: ResultShape)
    requires result.WellFormed()
  {
    && (column.ndim == -1 || result.NDim() == column.ndim + 1)
    && (selection.HasRowSpan() ==>
          && |selection.GetRowSpan()| == result.NRows() <= column.NRow()
          && forall r :: r in selection.GetRowSpan() ==> r < column.NRow())
    && if result.NDim() == 1 then after == column
       else
         && (forall data :: data in DataShapes(result) ==> HasSizes(selection, data))
         && match column.fixedShape
            case Some(cell) => after == column && forall data :: data in DataShapes(result) ==>
                HoldsData(selection, cell, data)
            case None =>
              var rows := WrittenRows(column, selection, result.NRows());
              Passed(column, after, selection, result, rows, |rows|)
  }

  lemma SizesMean(selection: Selection, result: ResultShape)
    requires result.WellFormed()
    ensures AllSizesAgree(selection, DataShapes(result))
       <==> forall data :: data in DataShapes(result) ==> HasSizes(selection, data)
  {
    var shapes := DataShapes(result);
    forall r | 0 <= r < |shapes|
      ensures SizesAgree(selection, shapes[r]) <==> HasSizes(selection, shapes[r])
    {
      forall d | 0 <= d < |shapes[r]|
        ensures var span := selection.MaybeFSpan(d, |shapes[r]| + 1);
                SizeAgrees(selection, shapes[r], d) <==> (span.Some? ==> |span.value| == shapes[r][d])
      {
      }
    }
  }

  lemma FixedCellHolds(selection: Selection, result: ResultShape, cell: Shape)
    requires result.WellFormed() && |cell| == result.NDim() - 1
    ensures AllFit(selection, cell, DataShapes(result))
       <==> forall data :: data in DataShapes(result) ==> HoldsData(selection, cell, data)
  {
    var shapes := DataShapes(result);
    forall r | 0 <= r < |shapes|
      ensures FitsCell(selection, cell, shapes[r]) <==> HoldsData(selection, cell, shapes[r])
    {
      FitsCellMeans(selection, cell, shapes[r]);
    }
  }

  lemma RowsMean(column: ColumnShape, selection: Selection, result: ResultShape)
    requires result.WellFormed()
    ensures RowsAgree(column, selection, result)
       <==> (selection.HasRowSpan() ==>
               && |selection.GetRowSpan()| == result.NRows() <= column.NRow()
               && forall r :: r in selection.GetRowSpan() ==> r < column.NRow())
  {
    if selection.HasRowSpan() {
      var span := selection.GetRowSpan();
      assert forall i :: 0 <= i < |span| ==> span[i] in span;
    }
  }

  lemma ShapingMeans(column: ColumnShape, after: ColumnShape, selection: Selection, result: ResultShape,
                     rows: seq<int>)
    requires result.WellFormed() && |rows| <= result.NRows() && CanCheck(column, result.NDim() - 1, rows)
    ensures CheckRows(column, selection, result, rows, |rows|) == (after, true)
       <==> Passed(column, after, selection, result, rows, |rows|)
  {
    RowsCheckedInTurn(column, selection, result, rows, |rows|);
    if Passed(column, after, selection, result, rows, |rows|) {
      PassedIsAccepted(column, after, selection, result, rows, |rows|);
    }
  }

  /** The checks accept exactly the data that the column admits, and leave it as that says. */
  lemma CheckedIsAdmitted(column: ColumnShape, after: ColumnShape, selection: Selection, result: ResultShape)
    requires result.WellFormed() && column.Valid()
    requires column.ndim == -1 ==> CellsReach(column, result.NDim() - 1)
    ensures Checked(column, selection, result) == (after, true) <==> Admits(column, after, selection, result)
  {
    RowsMean(column, selection, result);
    if RankAgrees(column, result) && RowsAgree(column, selection, result) && result.NDim() > 1 {
      SizesMean(selection, result);
      if column.fixedShape.Some? {
        FixedCellHolds(selection, result, column.fixedShape.value);
      } else {
        ShapingMeans(column, after, selection, result, WrittenRows(column, selection, result.NRows()));
      }
    }
  }

  ghost predicate IsAdmitted(column: ColumnShape, selection: Selection, result: ResultShape)
    requires result.WellFormed()
  {
    exists after :: Admits(column, after, selection, result)
  }

  lemma AcceptedIsAdmitted(column: ColumnShape, selection: Selection, result: ResultShape)
    requires result.WellFormed() && column.Valid()
    requires column.ndim == -1 ==> CellsReach(column, result.NDim() - 1)
    ensures Checked(column, selection, result).1 <==> IsAdmitted(column, selection, result)
  {
    CheckedIsAdmitted(column, Checked(column, selection, result).0, selection, result);
    if after :| Admits(column, after, selection, result) {
      CheckedIsAdmitted(column, after, selection, result);
    }
  }

  // Refused data leaves the column as it was, or shaped by the rows before the one that does not fit.
  ghost predicate IsRefused(column: ColumnShape, after: ColumnShape, selection: Selection, result: ResultShape)
    requires result.WellFormed()
  {
    && !IsAdmitted(column, selection, result)
    && (after == column
        || (column.fixedShape.None?
            && var rows := WrittenRows(column, selection, result.NRows());
               |rows| <= result.NRows() && Stops(column, after, selection, result, rows, |rows|)))
  }

  lemma RefusedLeaves(column: ColumnShape, selection: Selection, result: ResultShape)
    requires result.WellFormed() && column.Valid()
    requires column.ndim == -1 ==> CellsReach(column, result.NDim() - 1)
    requires !Checked(column, selection, result).1
    ensures IsRefused(column, Checked(column, selection, result).0, selection, result)
  {
    AcceptedIsAdmitted(column, selection, result);
    var rows := WrittenRows(column, selection, result.NRows());
    if Checked(column, selection, result).0 != column {
      RowsCheckedInTurn(column, selection, result, rows, |rows|);
    }
  }

  /** Checks data of the given shape, and gives the undefined cells that it is written to a shape. */
  method MakeWrite(column: ArrayColumn, result: ResultShape, selection: Selection) returns (r: Result<ResultShape>)
    requires result.WellFormed() && column.shape.Valid()
    requires column.shape.ndim == -1 ==> CellsReach(column.shape, result.NDim() - 1)
    modifies column
    ensures (column.shape, r.Success?) == Checked(old(column.shape), selection, result)
    ensures r.Success? ==> r.value == result && Admits(old(column.shape), column.shape, selection, result)
    ensures r.Failure? ==> IsRefused(old(column.shape), column.shape, selection, result)
    ensures r.Failure? ==> r.error == if RankAgrees(old(column.shape), result) then IndexError else Invalid
  {
    ghost var before := column.shape;
    r := CheckWrite(column, result, selection);
    if r.Success? {
      CheckedIsAdmitted(before, column.shape, selection, result);
    } else {
      RefusedLeaves(before, selection, result);
    }
  }

  method CheckWrite(column: ArrayColumn, result: ResultShape, selection: Selection) returns (r: Result<ResultShape>)
    requires result.WellFormed() && column.shape.Valid()
    requires column.shape.ndim == -1 ==> CellsReach(column.shape, result.NDim() - 1)
    modifies column
    ensures (column.shape, r.Success?) == Checked(old(column.shape), selection, result)
    ensures r.Success? ==> r.value == result
    ensures r.Failure? ==> r.error == if RankAgrees(old(column.shape), result) then IndexError else Invalid
  {
    if column.shape.ndim != -1 && result.NDim() != column.shape.ndim + 1 {
      return Failure(Invalid);
    }
    var ok := CheckRowSpan(column.shape, selection, result);
    if !ok {
      return Failure(IndexError);
    }
    if result.NDim() <= 1 {
      return Success(result);
    }
    ok := CheckSizes(selection, result);
    if !ok {
      return Failure(IndexError);
    }
    if column.shape.fixedShape.Some? {
      ok := CheckFixedCells(selection, result, column.shape.fixedShape.value);
    } else {
      ok := CheckVaryingCells(column, selection, result, WrittenRows(column.shape, selection, result.NRows()));
    }
    return if ok then Success(result) else Failure(IndexError);
  }

  // In all dimensions of the data the elements selected lie within the cell.
  ghost predicate HasRoom(selection: Selection, cell: Shape, data: Shape)
  {
    |data| <= |cell| && forall d :: 0 <= d < |data| ==> HasRoomIn(selection, cell, data, d)
  }

  ghost predicate HasRoomIn(selection: Selection, cell: Shape, data: Shape, d: nat)
    requires d < |data| <= |cell|
  {
    match selection.MaybeFSpan(d, |data| + 1)
    case Some(span) => forall i :: i in span ==> i < cell[d]
    case None => data[d] <= cell[d]
  }

  lemma FittingHasRoom(selection: Selection, cell: Shape, data: Shape)
    requires |data| <= |cell| && FitsCell(selection, cell, data)
    ensures HasRoom(selection, cell, data)
  {
    forall d | 0 <= d < |data|
      ensures HasRoomIn(selection, cell, data, d)
    {
      assert !Overflows(selection, cell, data, d);
    }
  }

  // No dimension but the rows repeats an index.
  ghost predicate NamesOnce(selection: Selection, ndim: nat)
  {
    forall d :: 0 <= d < ndim - 1 ==>
      var span := selection.MaybeFSpan(d, ndim); span.Some? ==> !HasRepeat(span.value)
  }

  lemma RoomHolds(selection: Selection, cell: Shape, data: Shape)
    requires |data| <= |cell| && NamesOnce(selection, |data| + 1)
    ensures HasRoom(selection, cell, data) <==> HoldsData(selection, cell, data)
  {
    forall d | 0 <= d < |data|
      ensures HasRoomIn(selection, cell, data, d)
         <==> HoldsExtent(selection.MaybeFSpan(d, |data| + 1), cell[d], data[d])
    {
      var span := selection.MaybeFSpan(d, |data| + 1);
      if span.Some? && HasRoomIn(selection, cell, data, d) {
        DistinctIdsFit(span.value, cell[d]);
      }
    }
  }

  ghost predicate CanWrite(column: ColumnShape, result: ResultShape)
  {
    && result.WellFormed() && column.Valid() && !result.HasCellExtents()
    && (column.ndim == -1 ==> CellsReach(column, result.NDim() - 1))
    && (result.NDim() == 1 ==> column.fixedShape == Some([]))
  }

  lemma WrittenRowsCanBeChecked(column: ColumnShape, selection: Selection, result: ResultShape)
    requires CanWrite(column, result) && RankAgrees(column, result) && RowsAgree(column, selection, result)
    ensures CanCheck(column, result.NDim() - 1, WrittenRows(column, selection, result.NRows()))
    ensures |WrittenRows(column, selection, result.NRows())| <= result.NRows()
  {
  }

  // Every cell that is defined has room for what is written to it.
  ghost predicate CellsHaveRoom(column: ColumnShape, selection: Selection, result: ResultShape)
    requires result.WellFormed()
  {
    match column.fixedShape
    case Some(cell) => forall data :: data in DataShapes(result) ==> HasRoom(selection, cell, data)
    case None =>
      var rows := WrittenRows(column, selection, result.NRows());
      |rows| <= result.NRows() && RowsHaveSpace(column, selection, result, rows)
  }

  ghost predicate RowsHaveSpace(column: ColumnShape, selection: Selection, result: ResultShape, rows: seq<int>)
    requires result.WellFormed() && |rows| <= result.NRows()
  {
    forall i :: 0 <= i < |rows| ==> RowHasSpace(column, selection, rows[i], result.CellShape(i))
  }

  ghost predicate RowHasSpace(column: ColumnShape, selection: Selection, row: int, data: Shape)
  {
    0 <= row < column.NRow() && column.cells[row].Some? ==> HasRoom(selection, column.cells[row].value, data)
  }

  lemma SpaceHolds(column: ColumnShape, selection: Selection, row: int, data: Shape)
    requires NamesOnce(selection, |data| + 1)
    requires 0 <= row < column.NRow() && column.cells[row].Some? ==> |data| <= |column.cells[row].value|
    ensures RowHasSpace(column, selection, row, data) <==> RowHolds(column, selection, row, data)
  {
    if 0 <= row < column.NRow() && column.cells[row].Some? {
      RoomHolds(selection, column.cells[row].value, data);
    }
  }

  lemma FixedCellHasRoom(selection: Selection, result: ResultShape, cell: Shape)
    requires result.WellFormed() && NamesOnce(selection, result.NDim()) && |cell| == result.NDim() - 1
    ensures (forall data :: data in DataShapes(result) ==> HasRoom(selection, cell, data))
       <==> (forall data :: data in DataShapes(result) ==> HoldsData(selection, cell, data))
  {
    forall data | data in DataShapes(result)
      ensures HasRoom(selection, cell, data) <==> HoldsData(selection, cell, data)
    {
      RoomHolds(selection, cell, data);
    }
  }

  lemma SpacesHold(column: ColumnShape, selection: Selection, result: ResultShape, rows: seq<int>)
    requires result.WellFormed() && |rows| <= result.NRows() && CanCheck(column, result.NDim() - 1, rows)
    requires NamesOnce(selection, result.NDim())
    ensures RowsHaveSpace(column, selection, result, rows) <==> RowsHold(column, selection, result, rows)
  {
    forall i | 0 <= i < |rows|
      ensures RowHasSpace(column, selection, rows[i], result.CellShape(i))
         <==> RowHolds(column, selection, rows[i], result.CellShape(i))
    {
      SpaceHolds(column, selection, rows[i], result.CellShape(i));
    }
  }

  /** Data that repeats no row or index is accepted exactly if its rank and sizes agree and cells have room. */
  lemma RoomIsAccepted(column: ColumnShape, selection: Selection, result: ResultShape)
    requires CanWrite(column, result) && NamesOnce(selection, result.NDim()) && result.NDim() > 1
    requires DistinctRows(WrittenRows(column, selection, result.NRows()))
    requires RankAgrees(column, result) && RowsAgree(column, selection, result)
    requires forall data :: data in DataShapes(result) ==> HasSizes(selection, data)
    ensures Checked(column, selection, result).1 <==> CellsHaveRoom(column, selection, result)
  {
    SizesMean(selection, result);
    WrittenRowsCanBeChecked(column, selection, result);
    if column.fixedShape.Some? {
      FixedCellHolds(selection, result, column.fixedShape.value);
      FixedCellHasRoom(selection, result, column.fixedShape.value);
    } else {
      DistinctRowsChecked(column, selection, result, WrittenRows(column, selection, result.NRows()));
      SpacesHold(column, selection, result, WrittenRows(column, selection, result.NRows()));
    }
  }

  // What the check establishes about a row of the data.
  ghost predicate RowHasRoom(after: ColumnShape, selection: Selection, row: int, data: Shape)
  {
    row >= 0 ==>
      && row < after.NRow() && CellOfRow(after, row).Some?
      && HasRoom(selection, CellOfRow(after, row).value, data)
  }

  // A cell keeps its shape once it is defined; new ones have the dimensions of the data.
  ghost predicate CellsPersist(before: ColumnShape, after: ColumnShape, k: nat)
  {
    && after.NRow() == before.NRow() && after.fixedShape == before.fixedShape
    && (forall r :: 0 <= r < before.NRow() && before.cells[r].Some? ==> after.cells[r] == before.cells[r])
    && forall r :: 0 <= r < before.NRow() && before.cells[r].None? && after.cells[r].Some? ==>
          |after.cells[r].value| == k
  }

  lemma {:induction false} CheckPersists(column: ColumnShape, selection: Selection, result: ResultShape,
                                         rows: seq<int>, n: nat)
    requires result.WellFormed() && n <= |rows| && n <= result.NRows() && CanCheck(column, result.NDim() - 1, rows)
    ensures CellsPersist(column, CheckRows(column, selection, result, rows, n).0, result.NDim() - 1)
  {
    if n > 0 {
      CheckPersists(column, selection, result, rows, n - 1);
    }
  }

  /** Every row of accepted data has room in its cell, also where a row is written more than once. */
  lemma CheckedRowsHaveRoom(column: ColumnShape, selection: Selection, result: ResultShape, rows: seq<int>, n: nat,
                            i: nat)
    requires result.WellFormed() && i < n <= |rows| && n <= result.NRows() && CanCheck(column, result.NDim() - 1, rows)
    requires column.fixedShape.None? && CheckRows(column, selection, result, rows, n).1
    ensures RowHasRoom(CheckRows(column, selection, result, rows, n).0, selection, rows[i], result.CellShape(i))
  {
    RowsCheckedInTurn(column, selection, result, rows, n);
    PassedHasRoom(column, CheckRows(column, selection, result, rows, n).0, selection, result, rows, n, i);
  }

  lemma PassedHasRoom(column: ColumnShape, after: ColumnShape, selection: Selection, result: ResultShape,
                      rows: seq<int>, n: nat, i: nat)
    requires result.WellFormed() && i < n <= |rows| && n <= result.NRows() && column.fixedShape.None?
    requires Passed(column, after, selection, result, rows, n)
    ensures RowHasRoom(after, selection, rows[i], result.CellShape(i))
  {
    var data := result.CellShape(i);
    assert RowPassed(column, after, selection, rows, i, data);
    if rows[i] >= 0 {
      var cell := after.cells[rows[i]].value;
      forall d | |data| <= |cell| && 0 <= d < |data|
        ensures HasRoomIn(selection, cell, data, d)
      {
        var span := selection.MaybeFSpan(d, |data| + 1);
        assert IsLeastExtent(cell[d], span, data[d]) || HoldsExtent(span, cell[d], data[d]);
      }
    }
  }

  lemma AcceptedRowHasRoom(column: ColumnShape, selection: Selection, result: ResultShape, i: nat)
    requires CanWrite(column, result) && Checked(column, selection, result).1
    requires i < |WrittenRows(column, selection, result.NRows())| <= result.NRows()
    ensures RowHasRoom(Checked(column, selection, result).0, selection,
          WrittenRows(column, selection, result.NRows())[i], result.CellShape(i))
  {
    var rows := WrittenRows(column, selection, result.NRows());
    WrittenRowsCanBeChecked(column, selection, result);
    if column.fixedShape.None? {
      CheckedRowsHaveRoom(column, selection, result, rows, |rows|, i);
    } else if result.NDim() > 1 {
      var cell := column.fixedShape.value;
      assert FitsCell(selection, cell, DataShapes(result)[if result.Fixed? then 0 else i]);
      FittingHasRoom(selection, cell, result.CellShape(i));
    }
  }

  lemma AcceptedPersists(column: ColumnShape, selection: Selection, result: ResultShape)
    requires CanWrite(column, result) && Checked(column, selection, result).1
    ensures CellsPersist(column, Checked(column, selection, result).0, result.NDim() - 1)
  {
    WrittenRowsCanBeChecked(column, selection, result);
    if column.fixedShape.None? {
      var rows := WrittenRows(column, selection, result.NRows());
      CheckPersists(column, selection, result, rows, |rows|);
    }
  }

  lemma AcceptedSize(column: ColumnShape, selection: Selection, result: ResultShape, r: nat, d: nat)
    requires CanWrite(column, result) && Checked(column, selection, result).1
    requires r < |DataShapes(result)| && d < result.NDim() - 1
    ensures |SelectedIds(selection, d, result.NDim(), DataShapes(result)[r][d])| == DataShapes(result)[r][d]
  {
    assert SizesAgree(selection, DataShapes(result)[r]) && SizeAgrees(selection, DataShapes(result)[r], d);
  }

  lemma AcceptedCellIds(column: ColumnShape, selection: Selection, result: ResultShape, r: nat, d: nat)
    requires CanWrite(column, result) && Checked(column, selection, result).1
    requires r < result.NRows() && d < result.NDim() - 1
    ensures |CellIds(selection, result, r, d)| == result.CellShape(r)[d]
  {
    var q := if result.Fixed? then 0 else r;
    assert DataShapes(result)[q] == result.CellShape(r);
    AcceptedSize(column, selection, result, q, d);
  }

  lemma AcceptedMatches(column: ColumnShape, selection: Selection, result: ResultShape)
    requires CanWrite(column, result) && Checked(column, selection, result).1
    ensures Matches(selection, result)
    ensures RowIds(selection, result) == if selection.HasRowSpan() then selection.GetRowSpan() else Iota(result.NRows())
  {
    RowSpanIsLast(selection, result.NDim());
    forall r, d | 0 <= r < result.NRows() && 0 <= d < result.NDim() - 1
      ensures |CellIds(selection, result, r, d)| == result.CellShape(r)[d]
    {
      AcceptedCellIds(column, selection, result, r, d);
    }
    forall d | result.Fixed? && 0 <= d < result.NDim() - 1
      ensures |SelectedIds(selection, d, result.NDim(), result.shape[d])| == result.shape[d]
    {
      AcceptedSize(column, selection, result, 0, d);
      assert DataShapes(result)[0][d] == result.shape[d];
    }
  }

  // An element that is written lies in the cell of an existing row.
  ghost predicate WithinColumn(column: ColumnShape, i: seq<int>)
    requires i != []
  {
    i[|i| - 1] < column.NRow() && WithinCell(column, i)
  }

  lemma ElementHasRoom(after: ColumnShape, selection: Selection, result: ResultShape, j: seq<nat>)
    requires result.WellFormed() && !result.HasCellExtents() && Matches(selection, result) && InResult(result, j)
    requires RowIds(selection, result)[j[|j| - 1]] >= 0
    requires RowHasRoom(after, selection, RowIds(selection, result)[j[|j| - 1]], result.CellShape(j[|j| - 1]))
    ensures CellOfRow(after, RowIds(selection, result)[j[|j| - 1]]).Some?
    ensures WithinColumn(after, DiskIndex(selection, result, j))
       <==> |CellOfRow(after, RowIds(selection, result)[j[|j| - 1]]).value| == |j| - 1
  {
    var r := j[|j| - 1];
    var cell := CellOfRow(after, RowIds(selection, result)[r]).value;
    var data := result.CellShape(r);
    forall d | 0 <= d < |j| - 1
      ensures DiskIndex(selection, result, j)[d] < cell[d]
    {
      var ids := CellIds(selection, result, r, d);
      assert HasRoomIn(selection, cell, data, d) && ids[j[d]] in ids;
    }
  }

  // The row that an element of the data is written to exists, and has a cell of its rank or none yet.
  ghost predicate HasPlace(column: ColumnShape, selection: Selection, result: ResultShape, j: seq<nat>)
    requires result.WellFormed() && Matches(selection, result) && InResult(result, j)
  {
    var row := RowIds(selection, result)[j[|j| - 1]];
    0 <= row < column.NRow() && (column.IsDefined(row) ==> |column.cells[row].value| == |j| - 1)
  }

  lemma RowOfDiskIndex(selection: Selection, result: ResultShape, j: seq<nat>)
    requires result.WellFormed() && Matches(selection, result) && InResult(result, j)
    ensures DiskIndex(selection, result, j)[|j| - 1] == RowIds(selection, result)[j[|j| - 1]]
    ensures NoHole(DiskIndex(selection, result, j)) ==> RowIds(selection, result)[j[|j| - 1]] >= 0
  {
  }

  // The rows that are checked are those of the data, as far as the column goes.
  lemma WrittenRowAt(column: ColumnShape, selection: Selection, result: ResultShape, i: nat)
    requires CanWrite(column, result) && Checked(column, selection, result).1 && i < result.NRows()
    ensures i < |RowIds(selection, result)|
    ensures if i < |WrittenRows(column, selection, result.NRows())|
            then WrittenRows(column, selection, result.NRows())[i] == RowIds(selection, result)[i] < column.NRow()
            else RowIds(selection, result)[i] >= column.NRow()
  {
    AcceptedMatches(column, selection, result);
    WrittenRowsCanBeChecked(column, selection, result);
  }

  lemma BeyondHasNoPlace(column: ColumnShape, after: ColumnShape, selection: Selection, result: ResultShape,
                         j: seq<nat>)
    requires result.WellFormed() && Matches(selection, result) && InResult(result, j)
    requires RowIds(selection, result)[j[|j| - 1]] >= column.NRow() == after.NRow()
    ensures !WithinColumn(after, DiskIndex(selection, result, j)) && !HasPlace(column, selection, result, j)
  {
    RowOfDiskIndex(selection, result, j);
  }

  lemma RoomIsPlace(column: ColumnShape, selection: Selection, result: ResultShape, j: seq<nat>)
    requires CanWrite(column, result) && Checked(column, selection, result).1
    requires Matches(selection, result) && InResult(result, j) && RowIds(selection, result)[j[|j| - 1]] >= 0
    requires j[|j| - 1] < |WrittenRows(column, selection, result.NRows())|
    requires RowIds(selection, result)[j[|j| - 1]]
          == WrittenRows(column, selection, result.NRows())[j[|j| - 1]] < column.NRow()
    requires CellsPersist(column, Checked(column, selection, result).0, |j| - 1)
    ensures WithinColumn(Checked(column, selection, result).0, DiskIndex(selection, result, j))
       <==> HasPlace(column, selection, result, j)
  {
    WrittenRowsCanBeChecked(column, selection, result);
    AcceptedRowHasRoom(column, selection, result, j[|j| - 1]);
    ElementHasRoom(Checked(column, selection, result).0, selection, result, j);
  }

  lemma AcceptedElement(column: ColumnShape, selection: Selection, result: ResultShape, j: seq<nat>)
    requires CanWrite(column, result) && Checked(column, selection, result).1
    requires Matches(selection, result) && InResult(result, j) && NoHole(DiskIndex(selection, result, j))
    ensures WithinColumn(Checked(column, selection, result).0, DiskIndex(selection, result, j))
       <==> HasPlace(column, selection, result, j)
  {
    WrittenRowAt(column, selection, result, j[|j| - 1]);
    AcceptedPersists(column, selection, result);
    RowOfDiskIndex(selection, result, j);
    if j[|j| - 1] < |WrittenRows(column, selection, result.NRows())| {
      RoomIsPlace(column, selection, result, j);
    } else {
      BeyondHasNoPlace(column, Checked(column, selection, result).0, selection, result, j);
    }
  }

  /**
   Data that is accepted matches its selection. An element of it that is written lies in the
   cell of its row, new cells included, exactly when the row exists and has a cell of the rank
   of the data or none: the number of rows is not checked without a row selection, nor the
   rank of the cells of a column that does not fix it.
   */
  lemma AcceptedStaysInCells(column: ColumnShape, selection: Selection, result: ResultShape)
    requires CanWrite(column, result) && Checked(column, selection, result).1
    ensures Matches(selection, result)
    ensures forall j :: InResult(result, j) && NoHole(DiskIndex(selection, result, j)) ==>
              (WithinColumn(Checked(column, selection, result).0, DiskIndex(selection, result, j))
               <==> HasPlace(column, selection, result, j))
    ensures (selection.HasRowSpan() || result.NRows() <= column.NRow()) && column.ndim != -1 ==>
              forall j :: InResult(result, j) && NoHole(DiskIndex(selection, result, j)) ==>
                    HasPlace(column, selection, result, j)
  {
    AcceptedMatches(column, selection, result);
    forall j | InResult(result, j) && NoHole(DiskIndex(selection, result, j))
      ensures WithinColumn(Checked(column, selection, result).0, DiskIndex(selection, result, j))
         <==> HasPlace(column, selection, result, j)
      ensures (selection.HasRowSpan() || result.NRows() <= column.NRow()) && column.ndim != -1 ==>
                HasPlace(column, selection, result, j)
    {
      AcceptedElement(column, selection, result, j);
      var last := |j| - 1;
      assert DiskIndex(selection, result, j)[last] == RowIds(selection, result)[j[last]] >= 0;
    }
  }

  /** Two rows of data that are accepted for a column of one row. */
  lemma RowsBeyondAreAccepted(column: ColumnShape, selection: Selection, result: ResultShape)
    requires column == ColumnShape(Some([1]), [Some([1])], 1) && selection == Selection([])
    requires result == Fixed([1, 2], None)
    ensures CanWrite(column, result) && Checked(column, selection, result).1 && Matches(selection, result)
    ensures InResult(result, [0, 1]) && NoHole(DiskIndex(selection, result, [0, 1]))
    ensures !WithinColumn(Checked(column, selection, result).0, DiskIndex(selection, result, [0, 1]))
  {
    assert DataShapes(result) == [[1]] by { assert result.shape[..1] == [1]; }
    assert RowIds(selection, result) == Iota(2);
    AcceptedMatches(column, selection, result);
    assert DiskIndex(selection, result, [0, 1]) == [0, 1];
  }

  /** A row of data that is accepted for a cell of another rank. */
  lemma OtherRankIsAccepted(column: ColumnShape, selection: Selection, result: ResultShape)
    requires column == ColumnShape(None, [Some([1, 1])], -1) && selection == Selection([])
    requires result == Fixed([1, 1], None)
    ensures CanWrite(column, result) && Checked(column, selection, result).1 && Matches(selection, result)
    ensures InResult(result, [0, 0]) && NoHole(DiskIndex(selection, result, [0, 0]))
    ensures !WithinColumn(Checked(column, selection, result).0, DiskIndex(selection, result, [0, 0]))
  {
    assert DataShapes(result) == [[1]] by { assert result.shape[..1] == [1]; }
    assert WrittenRows(column, selection, 1) == [0] && RowIds(selection, result) == Iota(1);
    assert CheckRows(column, selection, result, [0], 0) == (column, true);
    assert FitsCell(selection, [1, 1], [1]);
    assert CheckRows(column, selection, result, [0], 1) == (column, true);
    AcceptedMatches(column, selection, result);
    assert DiskIndex(selection, result, [0, 0]) == [0, 0];
  }
}
