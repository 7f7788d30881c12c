/**
 Fitting a selection to a result that was supplied by the caller: rows that cannot be read
 become holes, and cells smaller than the result are padded
 (ResultShapeData::NegateMissingSelectedRows of result_shape.cc).
 */
module Padding {
  import opened Wrappers
  import opened Selections
  import opened Spans
  import opened ResultShapes
  import opened Partitions
  import opened RowData

  // ----- one cell

  // A selected dimension differs in size from the result, or exceeds the cell.
  ghost predicate Misfits(selection: Selection, cell: Shape, shape: Shape, d: nat)
    requires d < |cell| == |shape|
  {
    var span := selection.MaybeFSpan(d, |cell| + 1);
    (span.Some? && |span.value| != shape[d]) || Exceeds(selection, cell, d)
  }

  ghost function CellError(selection: Selection, cell: Shape, shape: Shape): Option<Error>
  {
    if |shape| != |cell| then Some(Invalid)
    else if exists d :: 0 <= d < |cell| && Misfits(selection, cell, shape, d) then Some(IndexError)
    else None
  }

  // The cell has the rank of the result, and of selected dimensions the result has the size and the cell
  // every index. Other dimensions may be smaller or larger than the result.
  ghost predicate FitsResult(selection: Selection, cell: Shape, shape: Shape)
  {
    && |cell| == |shape|
    && forall d :: 0 <= d < |cell| ==> FitsExtent(selection.MaybeFSpan(d, |cell| + 1), cell[d], shape[d])
  }

  ghost predicate FitsExtent(span: Option<seq<int>>, whole: nat, extent: nat)
  {
    span.Some? ==> |span.value| == extent && forall i :: i in span.value ==> i < whole
  }

  lemma CellErrorMeans(selection: Selection, cell: Shape, shape: Shape)
    ensures CellError(selection, cell, shape).None? <==> FitsResult(selection, cell, shape)
    ensures CellError(selection, cell, shape) == Some(Invalid) <==> |cell| != |shape|
  {
    if |cell| == |shape| {
      forall d | 0 <= d < |cell|
        ensures !Misfits(selection, cell, shape, d)
           <==> FitsExtent(selection.MaybeFSpan(d, |cell| + 1), cell[d], shape[d])
      {
      }
    }
  }

  method ValidateCellShape(cell: Shape, shape: Shape, selection: Selection) returns (error: Option<Error>)
    ensures error == CellError(selection, cell, shape)
    ensures error.None? <==> FitsResult(selection, cell, shape)
    ensures error == Some(Invalid) <==> |cell| != |shape|
  {
    CellErrorMeans(selection, cell, shape);
    if |shape| != |cell| {
      return Some(Invalid);
    }
    for d := 0 to |cell|
      invariant forall e :: 0 <= e < d ==> !Misfits(selection, cell, shape, e)
    {
      var selected := selection.MaybeFSpan(d, |cell| + 1);
      if selected.Some? {
        var span := selected.value;
        if |span| != shape[d] {
          assert Misfits(selection, cell, shape, d);
          return Some(IndexError);
        }
        for k := 0 to |span|
          invariant forall m :: 0 <= m < k ==> span[m] < cell[d]
        {
          if span[k] >= cell[d] {
            assert span[k] in span && Exceeds(selection, cell, d) && Misfits(selection, cell, shape, d);
            return Some(IndexError);
          }
        }
      }
    }
    return None;
  }

  // How much of a cell is read into the result: all of a selected dimension, and what fits otherwise.
  function CellExtent(cell: Shape, shape: Shape, selection: Selection): (extent: Shape)
    requires |cell| == |shape|
    ensures |extent| == |shape|
    ensures forall d :: 0 <= d < |shape| ==> extent[d] <= shape[d]
  {
    seq(|shape|, d requires 0 <= d < |shape| =>
      if selection.MaybeFSpan(d, |shape| + 1).None? && cell[d] < shape[d] then cell[d] else shape[d])
  }

  // ----- rebuilding the selection

  // What is selected in a secondary dimension, once the part beyond the extent is left out.
  function PaddedSpan(selection: Selection, shape: Shape, extent: Shape, d: nat): Option<seq<int>>
    requires d < |shape| == |extent|
  {
    match selection.MaybeFSpan(d, |shape| + 1)
    case Some(span) => Some(span)
    case None => if extent[d] < shape[d] then Some(PaddedIds(shape[d], extent[d])) else None
  }

  ghost predicate IsPaddedSelection(padded: Selection, selection: Selection, shape: Shape, extent: Shape)
    requires |shape| == |extent|
  {
    forall d :: 0 <= d < |shape| ==> padded.MaybeFSpan(d, |shape| + 1) == PaddedSpan(selection, shape, extent, d)
  }

  function SpanOrEmpty(span: Option<seq<int>>): seq<int>
  {
    match span
    case Some(ids) => ids
    case None => []
  }

  // The spans of the secondary dimensions, as the builder collects them.
  ghost predicate ArePaddedSpans(spans: seq<seq<int>>, selection: Selection, shape: Shape, extent: Shape, n: nat)
    requires |shape| == |extent| && n <= |shape| && n <= |spans|
  {
    forall d :: 0 <= d < n ==> spans[d] == SpanOrEmpty(PaddedSpan(selection, shape, extent, d))
  }

  lemma SpansAreSelection(spans: seq<seq<int>>, selection: Selection, shape: Shape, extent: Shape, rows: seq<int>)
    requires |shape| == |extent| == |spans| && ArePaddedSpans(spans, selection, shape, extent, |shape|)
    ensures IsPaddedSelection(Selection(spans + [rows]), selection, shape, extent)
  {
    forall d | 0 <= d < |shape|
      ensures Selection(spans + [rows]).MaybeFSpan(d, |shape| + 1) == PaddedSpan(selection, shape, extent, d)
    {
      assert spans[d] == SpanOrEmpty(PaddedSpan(selection, shape, extent, d));
    }
  }

  function RebuiltRows(selection: Selection, rows: Option<seq<int>>): seq<int>
  {
    match rows
    case Some(ids) => ids
    case None => if selection.HasRowSpan() then selection.GetRowSpan() else []
  }

  method AddPaddedSpans(builder: SelectionBuilder, selection: Selection, shape: Shape, extent: Shape)
    requires |shape| == |extent| && builder.spans == []
    modifies builder`spans
    ensures |builder.spans| == |shape| && ArePaddedSpans(builder.spans, selection, shape, extent, |shape|)
  {
    for d := 0 to |shape|
      invariant |builder.spans| == d && ArePaddedSpans(builder.spans, selection, shape, extent, d)
    {
      var selected := selection.MaybeFSpan(d, |shape| + 1);
      if selected.Some? {
        builder.Add(selected.value);
      } else if extent[d] < shape[d] {
        builder.Add(PaddedIds(shape[d], extent[d]));
      } else {
        builder.AddEmpty();
      }
    }
  }

  method RebuildSelection(selection: Selection, shape: Shape, extent: Shape,
                          rows: Option<seq<int>>) returns (padded: Selection)
    requires |shape| == |extent|
    ensures IsPaddedSelection(padded, selection, shape, extent)
    ensures padded.spans != [] && padded.GetRowSpan() == RebuiltRows(selection, rows)
  {
    var builder := new SelectionBuilder();
    builder.SetOrder('F');
    AddPaddedSpans(builder, selection, shape, extent);
    SpansAreSelection(builder.spans, selection, shape, extent, RebuiltRows(selection, rows));
    if rows.Some? {
      builder.Add(rows.value);
    } else if selection.HasRowSpan() {
      builder.Add(selection.GetRowSpan());
    } else {
      builder.AddEmpty();
    }
    padded := builder.Build();
  }

  // ----- the rows

  // Is a row of the selection read at all? Cells of a fixed column always are defined.
  ghost predicate IsRowRead(column: ColumnShape, r: int)
  {
    r >= 0 && CellOfRow(column, r).Some?
  }

  ghost function RowError(column: ColumnShape, selection: Selection, shape: Shape, r: int): Option<Error>
  {
    if r >= column.NRow() then Some(IndexError)
    else if IsRowRead(column, r) then CellError(selection, CellOfRow(column, r).value, shape)
    else None
  }

  // The ids that a read row wants in a secondary dimension: those selected, or the leading
  // ones that both the cell and the result have, followed by holes.
  ghost function ProvidedIds(selection: Selection, cell: Shape, shape: Shape, d: nat): seq<int>
    requires d < |cell| == |shape|
  {
    match selection.MaybeFSpan(d, |cell| + 1)
    case Some(span) => span
    case None => PaddedIds(shape[d], cell[d])
  }

  // The new selection and result want, for every row that is read, what its cell provides,
  // and nothing for the others.
  ghost predicate Wants(padded: Selection, after: ResultShape, column: ColumnShape, selection: Selection,
                        rows: seq<int>)
    requires after.WellFormed() && after.Fixed?
  {
    && |rows| == after.NRows()
    && Matches(padded, after)
    && forall i :: 0 <= i < |rows| ==> RowWanted(padded, after, column, selection, rows, i)
  }

  ghost predicate RowWanted(padded: Selection, after: ResultShape, column: ColumnShape, selection: Selection,
                            rows: seq<int>, i: nat)
    requires after.WellFormed() && after.Fixed? && i < |rows| == after.NRows() == |RowIds(padded, after)|
  {
    if IsRowRead(column, rows[i]) then
      var cell := CellOfRow(column, rows[i]).value;
      && RowIds(padded, after)[i] == rows[i]
      && |cell| == |after.shape| - 1
      && CellError(selection, cell, after.CellShape(i)).None?
      && forall d :: 0 <= d < |cell| ==>
            CellIds(padded, after, i, d) == ProvidedIds(selection, cell, after.CellShape(i), d)
    else
      RowIds(padded, after)[i] < 0
  }

  lemma WholePadding(size: nat, extent: nat)
    requires extent >= size
    ensures PaddedIds(size, extent) == Iota(size)
  {
  }

  // With one extent for all cells, the selection itself holds the padding.
  lemma CommonExtentWanted(padded: Selection, selection: Selection, shape: Shape, cell: Shape, d: nat, ids: seq<int>)
    requires d < |shape| == |cell| && CellError(selection, cell, shape).None?
    requires IsPaddedSelection(padded, selection, shape, CellExtent(cell, shape, selection))
    requires ids == SelectedIds(padded, d, |shape| + 1, shape[d])
    ensures ids == ProvidedIds(selection, cell, shape, d)
  {
    assert padded.MaybeFSpan(d, |shape| + 1) == PaddedSpan(selection, shape, CellExtent(cell, shape, selection), d);
    if cell[d] >= shape[d] {
      WholePadding(shape[d], cell[d]);
    }
  }

  // With extents that vary by row, the partition pads each of them.
  lemma OwnExtentWanted(padded: Selection, selection: Selection, shape: Shape, cell: Shape, d: nat, ids: seq<int>)
    requires d < |shape| == |cell| && CellError(selection, cell, shape).None?
    requires IsPaddedSelection(padded, selection, shape, shape)
    requires ids == if CellExtent(cell, shape, selection)[d] < shape[d]
                    then PaddedIds(shape[d], CellExtent(cell, shape, selection)[d])
                    else SelectedIds(padded, d, |shape| + 1, shape[d])
    ensures ids == ProvidedIds(selection, cell, shape, d)
  {
    assert padded.MaybeFSpan(d, |shape| + 1) == PaddedSpan(selection, shape, shape, d);
    if cell[d] >= shape[d] {
      WholePadding(shape[d], cell[d]);
    }
  }

  lemma Unpadded(selection: Selection, shape: Shape)
    ensures IsPaddedSelection(selection, selection, shape, shape)
  {
  }

  // ----- extents over the rows

  ghost function ExtentOf(column: ColumnShape, selection: Selection, shape: Shape, r: int): Shape
    requires IsRowRead(column, r) && CellError(selection, CellOfRow(column, r).value, shape).None?
  {
    CellExtent(CellOfRow(column, r).value, shape, selection)
  }

  ghost predicate ValidRows(column: ColumnShape, selection: Selection, shape: Shape, rows: seq<int>, n: nat)
    requires n <= |rows|
  {
    forall k :: 0 <= k < n ==> CanRead(column, selection, shape, rows[k])
  }

  // A row either is not read, or has a cell that fits.
  ghost predicate CanRead(column: ColumnShape, selection: Selection, shape: Shape, r: int)
  {
    IsRowRead(column, r) ==> CellError(selection, CellOfRow(column, r).value, shape).None?
  }

  // All rows that are read have the given extent.
  ghost predicate SharesExtent(column: ColumnShape, selection: Selection, shape: Shape, rows: seq<int>, n: nat,
                               extent: Shape)
    requires n <= |rows| && ValidRows(column, selection, shape, rows, n)
  {
    forall k :: 0 <= k < n && IsRowRead(column, rows[k]) ==> ExtentOf(column, selection, shape, rows[k]) == extent
  }

  // Every row that is read has its own extent.
  ghost predicate HasExtents(column: ColumnShape, selection: Selection, shape: Shape, rows: seq<int>, n: nat,
                             extents: seq<Shape>)
    requires n <= |rows| && ValidRows(column, selection, shape, rows, n)
  {
    && |extents| == n
    && (forall k :: 0 <= k < n ==> |extents[k]| == |shape|)
    && forall k :: 0 <= k < n && IsRowRead(column, rows[k]) ==>
          ExtentOf(column, selection, shape, rows[k]) == extents[k]
  }

  ghost predicate NoneRead(column: ColumnShape, rows: seq<int>, n: nat)
    requires n <= |rows|
  {
    forall k :: 0 <= k < n ==> !IsRowRead(column, rows[k])
  }

  // The state of the loop over rows: no extent yet, one for all rows, or one for each.
  ghost predicate ExtentsKept(column: ColumnShape, selection: Selection, shape: Shape, rows: seq<int>, n: nat,
                              common: Option<Shape>, extents: Option<seq<Shape>>)
    requires n <= |rows|
  {
    && ValidRows(column, selection, shape, rows, n)
    && match common
       case None => extents.None? && NoneRead(column, rows, n)
       case Some(extent) =>
         && |extent| == |shape|
         && !NoneRead(column, rows, n)
         && match extents
            case None => SharesExtent(column, selection, shape, rows, n, extent)
            case Some(own) => HasExtents(column, selection, shape, rows, n, own)
  }

  // Records the extent of row n: that of its cell if it is read.
  method AddExtent(column: ColumnShape, selection: Selection, shape: Shape, ghost rows: seq<int>, n: nat,
                   cell: Option<Shape>,
                   common: Option<Shape>, extents: Option<seq<Shape>>)
    returns (newCommon: Option<Shape>, newExtents: Option<seq<Shape>>)
    requires n < |rows| && ExtentsKept(column, selection, shape, rows, n, common, extents)
    requires CanRead(column, selection, shape, rows[n])
    requires IsRowRead(column, rows[n]) == cell.Some?
    requires cell.Some? ==> cell == CellOfRow(column, rows[n])
    ensures ExtentsKept(column, selection, shape, rows, n + 1, newCommon, newExtents)
  {
    newCommon, newExtents := common, extents;
    var extent := shape;
    if cell.Some? {
      extent := CellExtent(cell.value, shape, selection);
      assert ExtentOf(column, selection, shape, rows[n]) == extent;
      if common.None? {
        newCommon := Some(extent);
      } else if extents.None? && Some(extent) != common {
        newExtents := Some(Repeat(n, common.value));
      }
    }
    if newExtents.Some? {
      newExtents := Some(newExtents.value + [extent]);
    }
  }

  // The rows with those that are not defined turned into holes.
  ghost predicate RowsNegated(column: ColumnShape, rows: seq<int>, n: nat, negated: seq<int>)
    requires n <= |rows|
  {
    && |negated| == |rows|
    && (forall k :: 0 <= k < n && IsRowRead(column, rows[k]) ==> negated[k] == rows[k])
    && (forall k :: 0 <= k < n && !IsRowRead(column, rows[k]) ==> negated[k] < 0)
    && forall k :: n <= k < |rows| ==> negated[k] == rows[k]
  }

  // ----- what each encoding asks for

  // Selected dimensions have the size of the result.
  ghost predicate SizesMatch(selection: Selection, shape: Shape)
  {
    forall d :: 0 <= d < |shape| ==>
      selection.MaybeFSpan(d, |shape| + 1).Some? ==> |selection.MaybeFSpan(d, |shape| + 1).value| == shape[d]
  }

  lemma ReadRowsMatchSizes(column: ColumnShape, selection: Selection, shape: Shape, rows: seq<int>)
    requires ValidRows(column, selection, shape, rows, |rows|) && !NoneRead(column, rows, |rows|)
    ensures SizesMatch(selection, shape)
  {
    var k :| 0 <= k < |rows| && IsRowRead(column, rows[k]);
    CellSizesMatch(selection, CellOfRow(column, rows[k]).value, shape);
  }

  lemma CellSizesMatch(selection: Selection, cell: Shape, shape: Shape)
    requires CellError(selection, cell, shape).None?
    ensures SizesMatch(selection, shape)
  {
    forall d | 0 <= d < |shape| && selection.MaybeFSpan(d, |shape| + 1).Some?
      ensures |selection.MaybeFSpan(d, |shape| + 1).value| == shape[d]
    {
      assert !Misfits(selection, cell, shape, d);
    }
  }

  lemma PaddedSizes(padded: Selection, selection: Selection, shape: Shape, extent: Shape, d: nat)
    requires d < |shape| == |extent| && SizesMatch(selection, shape)
    requires IsPaddedSelection(padded, selection, shape, extent)
    ensures |SelectedIds(padded, d, |shape| + 1, shape[d])| == shape[d]
  {
    assert padded.MaybeFSpan(d, |shape| + 1) == PaddedSpan(selection, shape, extent, d);
  }

  lemma PaddedMatches(padded: Selection, after: ResultShape, selection: Selection, shape: Shape, extent: Shape)
    requires after.WellFormed() && after.Fixed? && shape == after.shape[..|after.shape| - 1] && |shape| == |extent|
    requires SizesMatch(selection, shape) && IsPaddedSelection(padded, selection, shape, extent)
    requires |RowIds(padded, after)| == after.NRows()
    ensures Matches(padded, after)
  {
    forall d | 0 <= d < |shape|
      ensures |SelectedIds(padded, d, |shape| + 1, shape[d])| == shape[d]
    {
      PaddedSizes(padded, selection, shape, extent, d);
    }
  }

  lemma CommonExtentWants(padded: Selection, after: ResultShape, column: ColumnShape, selection: Selection,
                          shape: Shape, rows: seq<int>, extent: Shape)
    requires after.WellFormed() && after.Fixed? && shape == after.shape[..|after.shape| - 1] && |shape| == |extent|
    requires after.extents.None? && |rows| == after.NRows()
    requires ValidRows(column, selection, shape, rows, |rows|)
    requires SharesExtent(column, selection, shape, rows, |rows|, extent)
    requires SizesMatch(selection, shape) && IsPaddedSelection(padded, selection, shape, extent)
    requires RowsNegated(column, rows, |rows|, RowIds(padded, after))
    ensures Wants(padded, after, column, selection, rows)
  {
    PaddedMatches(padded, after, selection, shape, extent);
    forall i | 0 <= i < |rows|
      ensures RowWanted(padded, after, column, selection, rows, i)
    {
      assert CanRead(column, selection, shape, rows[i]);
      if IsRowRead(column, rows[i]) {
        var cell := CellOfRow(column, rows[i]).value;
        forall d | 0 <= d < |cell|
          ensures CellIds(padded, after, i, d) == ProvidedIds(selection, cell, shape, d)
        {
          CommonExtentWanted(padded, selection, shape, cell, d, CellIds(padded, after, i, d));
        }
      }
    }
  }

  lemma OwnExtentsWant(padded: Selection, after: ResultShape, column: ColumnShape, selection: Selection, shape: Shape,
                       rows: seq<int>)
    requires after.WellFormed() && after.Fixed? && shape == after.shape[..|after.shape| - 1]
    requires after.extents.Some? && |rows| == after.NRows()
    requires ValidRows(column, selection, shape, rows, |rows|)
    requires HasExtents(column, selection, shape, rows, |rows|, after.extents.value)
    requires SizesMatch(selection, shape) && IsPaddedSelection(padded, selection, shape, shape)
    requires RowsNegated(column, rows, |rows|, RowIds(padded, after))
    ensures Wants(padded, after, column, selection, rows)
  {
    PaddedMatches(padded, after, selection, shape, shape);
    forall i | 0 <= i < |rows|
      ensures RowWanted(padded, after, column, selection, rows, i)
    {
      assert CanRead(column, selection, shape, rows[i]);
      if IsRowRead(column, rows[i]) {
        var cell := CellOfRow(column, rows[i]).value;
        assert ExtentOf(column, selection, shape, rows[i]) == after.extents.value[i];
        forall d | 0 <= d < |cell|
          ensures CellIds(padded, after, i, d) == ProvidedIds(selection, cell, shape, d)
        {
          OwnExtentWanted(padded, selection, shape, cell, d, CellIds(padded, after, i, d));
        }
      }
    }
  }

  // ----- repeated ids

  ghost predicate SpanRepeats(selection: Selection, d: nat, ndim: nat)
  {
    var span := selection.MaybeFSpan(d, ndim);
    span.Some? && HasRepeat(span.value)
  }

  // Fitting a selection repeats no id that was not repeated before.
  ghost predicate RepeatsNoMore(padded: Selection, selection: Selection, ndim: nat)
  {
    forall d :: 0 <= d < ndim && SpanRepeats(padded, d, ndim) ==> SpanRepeats(selection, d, ndim)
  }

  lemma NoMoreRepeats(padded: Selection, selection: Selection, shape: Shape, extent: Shape, result: ResultShape,
                      column: ColumnShape)
    requires result.Fixed? && result.WellFormed() && shape == result.shape[..|result.shape| - 1] && |extent| == |shape|
    requires IsPaddedSelection(padded, selection, shape, extent)
    requires RowsNegated(column, RowIds(selection, result), |RowIds(selection, result)|, RowIds(padded, result))
    ensures RepeatsNoMore(padded, selection, |result.shape|)
  {
    var ndim := |result.shape|;
    forall d | 0 <= d < ndim && SpanRepeats(padded, d, ndim)
      ensures SpanRepeats(selection, d, ndim)
    {
      if d < |shape| {
        assert padded.MaybeFSpan(d, |shape| + 1) == PaddedSpan(selection, shape, extent, d);
      } else {
        var rows, negated := RowIds(selection, result), RowIds(padded, result);
        var i, k :| 0 <= i < k < |negated| && negated[i] == negated[k] && negated[i] >= 0;
        assert rows[i] == rows[k];
      }
    }
  }

  // ----- the program

  ghost predicate FailsFirst(column: ColumnShape, selection: Selection, shape: Shape, rows: seq<int>, i: nat,
                             error: Error)
    requires i < |rows|
  {
    && RowError(column, selection, shape, rows[i]) == Some(error)
    && forall k :: 0 <= k < i ==> RowError(column, selection, shape, rows[k]).None?
  }

  // Fails as the row count, or else the first row that fails, says.
  ghost predicate RowsFail(column: ColumnShape, selection: Selection, result: ResultShape, rows: seq<int>, error: Error)
    requires result.Fixed? && result.WellFormed()
  {
    if |rows| != result.NRows() then error == IndexError
    else exists i :: 0 <= i < |rows| && FailsFirst(column, selection, result.CellShape(i), rows, i, error)
  }

  ghost predicate NegationFails(column: ColumnShape, selection: Selection, result: ResultShape, error: Error)
    requires result.Fixed? ==> result.WellFormed()
  {
    match result
    case Varying(_, _) => error == NotImplemented
    case Fixed(shape, _) =>
      match column.fixedShape
      case Some(cell) => CellError(selection, cell, shape[..|shape| - 1]) == Some(error)
      case None => RowsFail(column, selection, result, SelectedRows(selection, column.NRow()), error)
  }

  // The row exists, and if it is defined its cell fits.
  ghost predicate RowFitsResult(column: ColumnShape, selection: Selection, shape: Shape, r: int)
  {
    && r < column.NRow()
    && (r >= 0 && column.cells[r].Some? ==> FitsResult(selection, column.cells[r].value, shape))
  }

  // The result is fixed, and has a row for each selected, whose cells fit. Of a column whose cells all
  // have one shape no row is looked at.
  ghost predicate CanFit(column: ColumnShape, selection: Selection, result: ResultShape)
    requires result.Fixed? ==> result.WellFormed()
  {
    && result.Fixed?
    && var shape, rows := result.shape[..|result.shape| - 1], SelectedRows(selection, column.NRow());
       match column.fixedShape
       case Some(cell) => FitsResult(selection, cell, shape)
       case None => |rows| == result.NRows() && forall r :: r in rows ==> RowFitsResult(column, selection, shape, r)
  }

  // The error for the first row that does not fit: whether its cell has another rank than the result.
  ghost predicate IsRowMisfit(column: ColumnShape, selection: Selection, shape: Shape, rows: seq<int>, i: nat,
                              error: Error)
    requires i < |rows|
  {
    && !RowFitsResult(column, selection, shape, rows[i])
    && (forall k :: 0 <= k < i ==> RowFitsResult(column, selection, shape, rows[k]))
    && error == if rows[i] < column.NRow() && |column.cells[rows[i]].value| != |shape| then Invalid else IndexError
  }

  ghost predicate IsMisfit(column: ColumnShape, selection: Selection, result: ResultShape, error: Error)
    requires result.Fixed? ==> result.WellFormed()
  {
    if result.Varying? then error == NotImplemented
    else
      var shape, rows := result.shape[..|result.shape| - 1], SelectedRows(selection, column.NRow());
      match column.fixedShape
      case Some(cell) =>
        !FitsResult(selection, cell, shape) && error == if |cell| != |shape| then Invalid else IndexError
      case None =>
        if |rows| != result.NRows() then error == IndexError
        else exists i :: 0 <= i < |rows| && IsRowMisfit(column, selection, shape, rows, i, error)
  }

  lemma RowErrorMeans(column: ColumnShape, selection: Selection, shape: Shape, r: int)
    requires column.fixedShape.None?
    ensures RowError(column, selection, shape, r).None? <==> RowFitsResult(column, selection, shape, r)
    ensures RowError(column, selection, shape, r).Some? ==>
              RowError(column, selection, shape, r).value
                  == if r < column.NRow() && |column.cells[r].value| != |shape| then Invalid else IndexError
  {
    if 0 <= r < column.NRow() && column.cells[r].Some? {
      CellErrorMeans(selection, column.cells[r].value, shape);
    }
  }

  lemma FirstMisfit(column: ColumnShape, selection: Selection, shape: Shape, rows: seq<int>, i: nat, error: Error)
    requires column.fixedShape.None? && i < |rows| && FailsFirst(column, selection, shape, rows, i, error)
    ensures IsRowMisfit(column, selection, shape, rows, i, error)
  {
    RowErrorMeans(column, selection, shape, rows[i]);
    forall k | 0 <= k < i
      ensures RowFitsResult(column, selection, shape, rows[k])
    {
      RowErrorMeans(column, selection, shape, rows[k]);
    }
  }

  lemma FailureIsMisfit(column: ColumnShape, selection: Selection, result: ResultShape, error: Error)
    requires result.Fixed? ==> result.WellFormed()
    requires NegationFails(column, selection, result, error)
    ensures IsMisfit(column, selection, result, error) && !CanFit(column, selection, result)
  {
    if result.Fixed? {
      var shape, rows := result.shape[..|result.shape| - 1], SelectedRows(selection, column.NRow());
      match column.fixedShape {
        case Some(cell) => CellErrorMeans(selection, cell, shape);
        case None =>
          if |rows| == result.NRows() {
            var i :| 0 <= i < |rows| && FailsFirst(column, selection, result.CellShape(i), rows, i, error);
            FirstMisfit(column, selection, shape, rows, i, error);
          }
      }
    }
  }

  // There is a row of the result for every one selected, and the sizes of the other dimensions
  // match. They are compared with cells that are read: without any, they may still differ.
  ghost predicate IsChecked(column: ColumnShape, selection: Selection, result: ResultShape)
    requires result.Fixed? && result.WellFormed()
  {
    var rows := RowIds(selection, result);
    && |rows| == result.NRows()
    && (column.fixedShape.None? && NoneRead(column, rows, |rows|) ==>
          SizesMatch(selection, result.shape[..|result.shape| - 1]))
  }

  lemma RebuiltRowIds(padded: Selection, selection: Selection, result: ResultShape)
    requires result.WellFormed()
    requires padded.spans != [] && padded.GetRowSpan() == RebuiltRows(selection, None)
    ensures RowIds(padded, result) == RowIds(selection, result)
  {
    RowSpanIsLast(selection, result.NDim());
    RowSpanIsLast(padded, result.NDim());
  }

  lemma NegatedRowIds(padded: Selection, result: ResultShape, rows: seq<int>)
    requires result.WellFormed() && rows != []
    requires padded.spans != [] && padded.GetRowSpan() == rows
    ensures RowIds(padded, result) == rows
  {
    RowSpanIsLast(padded, result.NDim());
  }

  // What the fitted selection and result are, for the rows of the selection.
  ghost predicate IsFitted(padded: Selection, after: ResultShape, column: ColumnShape, selection: Selection,
                           result: ResultShape)
    requires result.Fixed? && result.WellFormed()
  {
    var rows := RowIds(selection, result);
    && after.Fixed? && after.shape == result.shape && after.WellFormed()
    && RowsNegated(column, rows, |rows|, RowIds(padded, after))
    && RepeatsNoMore(padded, selection, |result.shape|)
    && (IsChecked(column, selection, result) <==> Wants(padded, after, column, selection, rows))
    && (IsChecked(column, selection, result) <==> Matches(padded, after))
    && (column.fixedShape.None? ==> |rows| == result.NRows())
    && (column.fixedShape.Some? ==> SecondaryMatch(padded, after))
    && (after.HasCellExtents() ==> IsChecked(column, selection, result) && after.NRows() > 0)
  }

  // The selection has the sizes of the result in all dimensions but the rows.
  ghost predicate SecondaryMatch(padded: Selection, after: ResultShape)
    requires after.Fixed? && after.WellFormed()
  {
    forall d :: 0 <= d < |after.shape| - 1 ==> |SelectedIds(padded, d, |after.shape|, after.shape[d])| == after.shape[d]
  }

  lemma PaddedSecondary(padded: Selection, after: ResultShape, selection: Selection, shape: Shape, extent: Shape)
    requires after.Fixed? && after.WellFormed() && shape == after.shape[..|after.shape| - 1] && |shape| == |extent|
    requires SizesMatch(selection, shape) && IsPaddedSelection(padded, selection, shape, extent)
    ensures SecondaryMatch(padded, after)
  {
    forall d | 0 <= d < |shape|
      ensures |SelectedIds(padded, d, |after.shape|, after.shape[d])| == after.shape[d]
    {
      PaddedSizes(padded, selection, shape, extent, d);
    }
  }

  lemma MatchingSizes(padded: Selection, after: ResultShape, selection: Selection, shape: Shape, extent: Shape)
    requires after.WellFormed() && after.Fixed? && shape == after.shape[..|after.shape| - 1] && |shape| == |extent|
    requires IsPaddedSelection(padded, selection, shape, extent) && Matches(padded, after)
    ensures SizesMatch(selection, shape)
  {
    forall d | 0 <= d < |shape| && selection.MaybeFSpan(d, |shape| + 1).Some?
      ensures |selection.MaybeFSpan(d, |shape| + 1).value| == shape[d]
    {
      assert padded.MaybeFSpan(d, |shape| + 1) == PaddedSpan(selection, shape, extent, d);
      assert |SelectedIds(padded, d, |shape| + 1, after.shape[d])| == after.shape[d];
    }
  }

  // A column whose cells all have one shape. The rows of the selection are not looked at.
  method PadFixed(column: ColumnShape, result: ResultShape, selection: Selection) returns (r: Result<Selection>)
    requires column.fixedShape.Some? && result.Fixed? && result.extents.None? && result.WellFormed()
    ensures r.Failure? ==> NegationFails(column, selection, result, r.error)
    ensures r.Success? ==> IsFitted(r.value, result, column, selection, result)
    ensures r.Success? ==> CellError(selection, column.fixedShape.value, result.shape[..|result.shape| - 1]).None?
  {
    var cell := column.fixedShape.value;
    var shape := result.shape[..|result.shape| - 1];
    var error := ValidateCellShape(cell, shape, selection);
    if error.Some? {
      return Failure(error.value);
    }
    var extent := CellExtent(cell, shape, selection);
    var padded := selection;
    if extent == shape {
      Unpadded(selection, shape);
    } else {
      padded := RebuildSelection(selection, shape, extent, None);
      RebuiltRowIds(padded, selection, result);
    }
    FixedIsFitted(padded, column, selection, result, cell);
    return Success(padded);
  }

  lemma FixedIsFitted(padded: Selection, column: ColumnShape, selection: Selection, result: ResultShape, cell: Shape)
    requires result.Fixed? && result.extents.None? && result.WellFormed() && column.fixedShape == Some(cell)
    requires CellError(selection, cell, result.shape[..|result.shape| - 1]).None?
    requires IsPaddedSelection(padded, selection, result.shape[..|result.shape| - 1],
                               CellExtent(cell, result.shape[..|result.shape| - 1], selection))
    requires RowIds(padded, result) == RowIds(selection, result)
    ensures IsFitted(padded, result, column, selection, result)
  {
    var shape, rows := result.shape[..|result.shape| - 1], RowIds(selection, result);
    var extent := CellExtent(cell, shape, selection);
    CellSizesMatch(selection, cell, shape);
    assert ValidRows(column, selection, shape, rows, |rows|)
          && SharesExtent(column, selection, shape, rows, |rows|, extent);
    assert RowsNegated(column, rows, |rows|, RowIds(padded, result));
    NoMoreRepeats(padded, selection, shape, extent, result, column);
    PaddedSecondary(padded, result, selection, shape, extent);
    if |rows| == result.NRows() {
      CommonExtentWants(padded, result, column, selection, shape, rows, extent);
    }
  }

  // The rows of a column with cells of various shapes, made ready to be read.
  ghost predicate RowsKept(column: ColumnShape, rows: seq<int>, n: nat, negated: seq<int>, modified: bool)
    requires n <= |rows|
  {
    && RowsNegated(column, rows, n, negated)
    && (modified <==> exists k :: 0 <= k < n && rows[k] >= 0 && !IsRowRead(column, rows[k]))
    && (!modified ==> negated == rows)
  }

  method ScanRows(column: ColumnShape, result: ResultShape, selection: Selection, rows: seq<int>)
    returns (r: Result<(seq<int>, bool, Option<Shape>, Option<seq<Shape>>)>)
    requires column.fixedShape.None? && result.Fixed? && result.WellFormed() && |rows| == result.NRows()
    ensures r.Failure? ==> RowsFail(column, selection, result, rows, r.error)
    ensures r.Success? ==>
              && ExtentsKept(column, selection, result.shape[..|result.shape| - 1], rows, |rows|, r.value.2, r.value.3)
              && RowsKept(column, rows, |rows|, r.value.0, r.value.1)
              && forall k :: 0 <= k < |rows| ==> rows[k] < column.NRow()
  {
    var shape := result.shape[..|result.shape| - 1];
    var negated, modified := rows, false;
    var common: Option<Shape>, extents: Option<seq<Shape>> := None, None;
    for i := 0 to |rows|
      invariant forall k :: 0 <= k < i ==> RowError(column, selection, shape, rows[k]).None? && rows[k] < column.NRow()
      invariant ExtentsKept(column, selection, shape, rows, i, common, extents)
      invariant RowsKept(column, rows, i, negated, modified)
    {
      var r := rows[i];
      var cell: Option<Shape> := None;
      if r >= column.NRow() {
        assert FailsFirst(column, selection, result.CellShape(i), rows, i, IndexError);
        return Failure(IndexError);
      } else if r >= 0 && column.IsDefined(r) {
        cell := column.cells[r];
        var error := ValidateCellShape(cell.value, shape, selection);
        if error.Some? {
          assert FailsFirst(column, selection, result.CellShape(i), rows, i, error.value);
          return Failure(error.value);
        }
      } else if r >= 0 {
        negated := negated[i := -1];
        modified := true;
      }
      common, extents := AddExtent(column, selection, shape, rows, i, cell, common, extents);
    }
    return Success((negated, modified, common, extents));
  }

  /**
   Fits a selection to a fixed result. It fails exactly if a cell does not fit or a row does
   not exist, and as the first of them says; otherwise the selection and extents it gives, whichever of the
   encodings they use, want exactly what the cells of the selected rows provide.
   */
  method NegateMissingSelectedRows(column: ColumnShape, result: ResultShape, selection: Selection)
    returns (r: Result<Selection>, after: ResultShape)
    requires result.Fixed? ==> result.WellFormed() && result.extents.None?
    ensures r.Success? <==> CanFit(column, selection, result)
    ensures r.Failure? ==> IsMisfit(column, selection, result, r.error) && after == result
    ensures r.Success? ==> IsFitted(r.value, after, column, selection, result)
  {
    r, after := FitSelection(column, result, selection);
    if r.Failure? {
      FailureIsMisfit(column, selection, result, r.error);
    }
  }

  method FitSelection(column: ColumnShape, result: ResultShape, selection: Selection)
    returns (r: Result<Selection>, after: ResultShape)
    requires result.Fixed? ==> result.WellFormed() && result.extents.None?
    ensures r.Failure? ==> NegationFails(column, selection, result, r.error) && after == result
    ensures r.Success? ==> CanFit(column, selection, result) && IsFitted(r.value, after, column, selection, result)
  {
    after := result;
    if !result.Fixed? {
      return Failure(NotImplemented), after;
    }
    if column.fixedShape.Some? {
      r := PadFixed(column, result, selection);
      CellErrorMeans(selection, column.fixedShape.value, result.shape[..|result.shape| - 1]);
      return;
    }
    var rows := SelectedRows(selection, column.NRow());
    if |rows| != result.NRows() {
      return Failure(IndexError), after;
    }
    var shape := result.shape[..|result.shape| - 1];
    var scanned := ScanRows(column, result, selection, rows);
    if scanned.Failure? {
      return Failure(scanned.error), after;
    }
    var (negated, modified, common, extents) := scanned.value;
    var extent := shape;
    if extents.Some? {
      after := result.(extents := extents);
    } else if common.Some? {
      extent := common.value;
    }
    var padded := selection;
    RowsOfResult(selection, after, column.NRow());
    if !modified && extent == shape {
      Unpadded(selection, shape);
    } else {
      padded := RebuildSelection(selection, shape, extent, if modified then Some(negated) else None);
      if modified {
        NegatedRowIds(padded, after, negated);
      } else {
        RebuiltRowIds(padded, selection, after);
      }
    }
    NothingMisfits(column, selection, result, rows);
    EncodingFits(padded, after, column, selection, result, common, extents, extent);
    return Success(padded), after;
  }

  lemma NothingMisfits(column: ColumnShape, selection: Selection, result: ResultShape, rows: seq<int>)
    requires result.Fixed? && result.WellFormed() && column.fixedShape.None?
    requires rows == SelectedRows(selection, column.NRow())
    requires |rows| == result.NRows() && ValidRows(column, selection, result.shape[..|result.shape| - 1], rows, |rows|)
    requires forall k :: 0 <= k < |rows| ==> rows[k] < column.NRow()
    ensures CanFit(column, selection, result)
  {
    forall k | 0 <= k < |rows|
      ensures RowFitsResult(column, selection, result.CellShape(k), rows[k])
    {
      assert CanRead(column, selection, result.CellShape(k), rows[k]);
      RowErrorMeans(column, selection, result.CellShape(k), rows[k]);
    }
  }

  // Whichever encoding the scan leads to.
  lemma EncodingWants(padded: Selection, after: ResultShape, column: ColumnShape, selection: Selection, shape: Shape,
                      rows: seq<int>,
                      common: Option<Shape>, extents: Option<seq<Shape>>, extent: Shape)
    requires after.WellFormed() && after.Fixed? && shape == after.shape[..|after.shape| - 1]
    requires after.extents == extents && |rows| == after.NRows()
    requires ExtentsKept(column, selection, shape, rows, |rows|, common, extents)
    requires extent == if extents.Some? || common.None? then shape else common.value
    requires |extent| == |shape| && IsPaddedSelection(padded, selection, shape, extent)
    requires RowsNegated(column, rows, |rows|, RowIds(padded, after))
    ensures !NoneRead(column, rows, |rows|) || SizesMatch(selection, shape) <==>
          Wants(padded, after, column, selection, rows)
    ensures Matches(padded, after) <==> Wants(padded, after, column, selection, rows)
    ensures extents.Some? ==> !NoneRead(column, rows, |rows|)
  {
    if !NoneRead(column, rows, |rows|) {
      ReadRowsMatchSizes(column, selection, shape, rows);
    }
    if SizesMatch(selection, shape) {
      if extents.Some? {
        OwnExtentsWant(padded, after, column, selection, shape, rows);
      } else {
        CommonExtentWants(padded, after, column, selection, shape, rows, extent);
      }
    }
    if Matches(padded, after) {
      MatchingSizes(padded, after, selection, shape, extent);
    }
  }

  lemma EncodingFits(padded: Selection, after: ResultShape, column: ColumnShape, selection: Selection,
                     result: ResultShape,
                     common: Option<Shape>, extents: Option<seq<Shape>>, extent: Shape)
    requires result.Fixed? && result.WellFormed() && column.fixedShape.None?
    requires after.Fixed? && after.shape == result.shape && after.WellFormed() && after.extents == extents
    requires |RowIds(selection, result)| == result.NRows()
    requires RowsNegated(column, RowIds(selection, result), result.NRows(), RowIds(padded, after))
    requires ExtentsKept(column, selection, result.shape[..|result.shape| - 1], RowIds(selection, result),
          result.NRows(), common, extents)
    requires |extent| == |result.shape| - 1
    requires extent == if extents.Some? || common.None? then result.shape[..|result.shape| - 1] else common.value
    requires IsPaddedSelection(padded, selection, result.shape[..|result.shape| - 1], extent)
    ensures IsFitted(padded, after, column, selection, result)
  {
    var shape, rows := result.shape[..|result.shape| - 1], RowIds(selection, result);
    EncodingWants(padded, after, column, selection, shape, rows, common, extents, extent);
    assert RowIds(selection, after) == rows;
    NoMoreRepeats(padded, selection, shape, extent, after, column);
  }

  /** A selection whose sizes differ from the result, and pass because the only row is not defined. */
  lemma UnreadSizesAreUnchecked(column: ColumnShape, selection: Selection, result: ResultShape)
    requires column == ColumnShape(None, [None], 1) && selection == Selection([[0, 1], []])
    requires result == Fixed([3, 1], None)
    ensures result.WellFormed() && CanFit(column, selection, result)
    ensures !IsChecked(column, selection, result)
  {
    var rows, shape := SelectedRows(selection, 1), result.shape[..1];
    assert !selection.HasRowSpan() && rows == Iota(1);
    RowsOfResult(selection, result, 1);
    assert shape == [3] && selection.MaybeFSpan(0, |shape| + 1) == Some([0, 1]);
    assert |selection.MaybeFSpan(0, |shape| + 1).value| != shape[0];
    assert !SizesMatch(selection, shape);
  }

  // ----- what is read

  // The index i, wanted at position j, is the one that row r of the column provides for it.
  ghost predicate ReadsCell(i: seq<int>, column: ColumnShape, selection: Selection, r: int, j: seq<nat>)
    requires |i| == |j| > 0
  {
    if !IsRowRead(column, r) then i[|i| - 1] < 0
    else
      && i[|i| - 1] == r && WithinCell(column, i)
      && forall d :: 0 <= d < |j| - 1 ==> i[d] == WantedIndex(selection, CellOfRow(column, r).value, j[d], d)
  }

  /**
   The index wanted at a position of the result: of a row that is read, the selected index, or in an unselected
   dimension the same index if the cell has it; nothing of any other row.
   */
  lemma PaddingReadsCells(padded: Selection, after: ResultShape, column: ColumnShape, selection: Selection,
                          rows: seq<int>, j: seq<nat>)
    requires after.Fixed? && after.WellFormed() && Wants(padded, after, column, selection, rows) && InResult(after, j)
    ensures ReadsCell(DiskIndex(padded, after, j), column, selection, rows[j[|j| - 1]], j)
  {
    var k := j[|j| - 1];
    assert RowWanted(padded, after, column, selection, rows, k);
    if IsRowRead(column, rows[k]) {
      var cell := CellOfRow(column, rows[k]).value;
      forall d | 0 <= d < |j| - 1
        ensures DiskIndex(padded, after, j)[d] == WantedIndex(selection, cell, j[d], d) < cell[d]
      {
        WantedAt(selection, cell, after.CellShape(k), d, j[d]);
      }
    }
  }

  ghost function WantedIndex(selection: Selection, cell: Shape, x: nat, d: nat): int
    requires d < |cell|
  {
    match selection.MaybeFSpan(d, |cell| + 1)
    case Some(span) => if x < |span| then span[x] else -1
    case None => if x < cell[d] then x else -1
  }

  lemma WantedAt(selection: Selection, cell: Shape, shape: Shape, d: nat, x: nat)
    requires d < |cell| == |shape| && CellError(selection, cell, shape).None? && x < shape[d]
    ensures x < |ProvidedIds(selection, cell, shape, d)|
    ensures ProvidedIds(selection, cell, shape, d)[x] == WantedIndex(selection, cell, x, d) < cell[d]
  {
    assert !Misfits(selection, cell, shape, d);
    var span := selection.MaybeFSpan(d, |cell| + 1);
    if span.Some? {
      assert span.value[x] in span.value;
    }
  }

  /** A cell smaller than the result where nothing is selected fits: the rest of the result is not read. */
  lemma SmallerCellFits(column: ColumnShape, selection: Selection, result: ResultShape, fitted: Selection,
                        after: ResultShape, x: nat)
    requires column == ColumnShape(Some([3]), [Some([3])], 1) && selection == Selection([])
    requires result == Fixed([5, 1], None) && IsFitted(fitted, after, column, selection, result) && x < 5
    ensures CanFit(column, selection, result) && Matches(fitted, after) && InResult(after, [x, 0])
    ensures DiskIndex(fitted, after, [x, 0]) == [if x < 3 then x else -1, 0]
  {
    var rows := RowIds(selection, result);
    assert result.shape[..1] == [5] && rows == Iota(1) == [0];
    PaddingReadsCells(fitted, after, column, selection, rows, [x, 0]);
    assert WantedIndex(selection, [3], x, 0) == if x < 3 then x else -1;
  }
}
