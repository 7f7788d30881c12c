/**
 Whole transfers between a column and a buffer: deriving or fitting the shape of the
 result, partitioning it, and moving every chunk (ReadImpl and WriteImpl).
 */
module Transfers {
  import opened Wrappers
  import opened MixedRadix
  import opened Selections
  import opened Spans
  import opened RowSplit
  import opened ResultShapes
  import opened Partitions
  import opened MakePartition
  import opened Reading
  import opened ReadEffects
  import opened PartitionReads
  import opened Conservation
  import opened Writing
  import opened RowData
  import opened Padding
  import opened WriteShape

  // The column has an element at every index within its cells.
  ghost predicate Holds<T>(cells: Cells<T>, column: ColumnShape)
  {
    forall i: seq<int> :: i != [] && NoHole(i) && WithinColumn(column, i) ==> i in cells
  }

  function HasRow(column: ColumnShape): RowTest
  {
    row => row < column.NRow()
  }

  lemma ReadIsNamedWithin<T>(cells: Cells<T>, column: ColumnShape, selection: Selection, result: ResultShape)
    requires Holds(cells, column) && IsReadShape(Success(result), column, selection, false) && result.WellFormed()
    ensures Matches(selection, result) && NamedWithin(cells, HasRow(column), selection, result)
  {
    ReadMatches(column, selection, result, false);
    forall j | InResult(result, j) && IsWanted(HasRow(column), DiskIndex(selection, result, j))
      ensures DiskIndex(selection, result, j) in cells
    {
      assert WithinColumn(column, DiskIndex(selection, result, j));
    }
  }

  // A shape that has a rank, can be partitioned, and whose rows all exist.
  ghost predicate CanTransfer(result: ResultShape, column: ColumnShape, selection: Selection)
  {
    result.NDim() >= 0 && (result.WellFormed() ==> !CannotRead(HasRow(column), selection, result))
  }

  /**
   Reads a selection of a column into a new buffer: at the position of every element of
   the derived result is the element of the column with the selected indices. It fails
   exactly if no shape can be derived, or that has no rank, or repeats ids, or asks for
   a row that does not exist.
   */
  method ReadColumn<T>(cells: Cells<T>, column: ColumnShape, selection: Selection, options: RowSplitOptions,
                       elementBytes: nat, ninstances: nat, blank: T) returns (r: Result<(ResultShape, array<T>)>)
    requires column.Valid() && (column.ndim != 0 || column.fixedShape.Some?) && Holds(cells, column)
    ensures r.Success? ==>
              && HasReadShape(column, selection) && IsDerived(r.value.0, column, selection)
              && CanTransfer(r.value.0, column, selection)
              && r.value.0.WellFormed() && Matches(selection, r.value.0) && Named(cells, selection, r.value.0)
              && r.value.1.Length == NElements(r.value.0)
              && ReadEffect(Blank(r.value.1.Length, blank), r.value.1[..], cells, selection, r.value.0)
    ensures r.Failure? ==>
              !HasReadShape(column, selection)
              || exists result :: IsDerived(result, column, selection) && !CanTransfer(result, column, selection)
  {
    var shape := MakeRead(column, selection, false);
    if shape.Failure? {
      return Failure(shape.error);
    }
    var result := shape.value;
    if result.NDim() < 0 {
      return Failure(Invalid);
    }
    ReadIsWellFormed(column, selection, result);
    ReadIsNamedWithin(cells, column, selection, result);
    var buffer := new T[NElements(result)](_ => blank);
    assert buffer[..] == Blank(buffer.Length, blank);
    var read := ReadPartition(cells, HasRow(column), selection, result, options, elementBytes, ninstances, buffer);
    if read.Failure? {
      return Failure(read.error);
    }
    return Success((result, buffer));
  }

  function Blank<T>(n: nat, blank: T): (s: seq<T>)
    ensures |s| == n && forall k :: 0 <= k < n ==> s[k] == blank
  {
    seq(n, _ => blank)
  }

  // ----- reading into a result that the caller supplies

  lemma FittedIsNamedWithin<T>(cells: Cells<T>, column: ColumnShape, selection: Selection, rows: seq<int>,
                               padded: Selection, after: ResultShape)
    requires Holds(cells, column) && after.Fixed? && after.WellFormed() && Wants(padded, after, column, selection, rows)
    ensures NamedWithin(cells, HasRow(column), padded, after)
  {
    forall j | InResult(after, j) && IsWanted(HasRow(column), DiskIndex(padded, after, j))
      ensures DiskIndex(padded, after, j) in cells
    {
      PaddingReadsCells(padded, after, column, selection, rows, j);
      assert WithinColumn(column, DiskIndex(padded, after, j));
    }
  }

  // The index in the column that belongs at a position of the supplied result.
  ghost function IndexFor(column: ColumnShape, selection: Selection, row: int, j: seq<nat>): (i: seq<int>)
    requires j != [] && CellOfRow(column, row).Some? && |CellOfRow(column, row).value| == |j| - 1
    ensures |i| == |j|
  {
    seq(|j|, d requires 0 <= d < |j| =>
      if d == |j| - 1 then row
      else
        match selection.MaybeFSpan(d, |j|)
        case Some(span) => if j[d] < |span| then span[j[d]] else -1
        case None => if j[d] < CellOfRow(column, row).value[d] then j[d] else -1)
  }

  // The element of a row that is read has its value, if its cell has it; all else is left alone.
  ghost predicate ElementFilled<T>(before: seq<T>, after: seq<T>, cells: Cells<T>, column: ColumnShape,
                                   selection: Selection,
                                   row: int, result: ResultShape, j: seq<nat>)
    requires result.WellFormed() && InResult(result, j) && |before| == |after| == NElements(result)
  {
    FlatPositionBound(result, j);
    var a := FlatPosition(result, j);
    if row >= 0 && CellOfRow(column, row).Some? then
      && |CellOfRow(column, row).value| == |j| - 1
      && var i := IndexFor(column, selection, row, j);
      if NoHole(i) then i in cells && after[a] == cells[i] else after[a] == before[a]
    else
      after[a] == before[a]
  }

  ghost predicate Filled<T>(before: seq<T>, after: seq<T>, cells: Cells<T>, column: ColumnShape, selection: Selection,
                            result: ResultShape)
    requires result.WellFormed() && |before| == |after| == NElements(result)
  {
    forall j :: InResult(result, j) ==>
      && j[|j| - 1] < |RowIds(selection, result)|
      && ElementFilled(before, after, cells, column, selection, RowIds(selection, result)[j[|j| - 1]], result, j)
  }

  lemma FillsElement<T>(before: seq<T>, filled: seq<T>, cells: Cells<T>, column: ColumnShape, selection: Selection,
                        padded: Selection, result: ResultShape, after: ResultShape, j: seq<nat>)
    requires result.Fixed? && result.WellFormed() && after.Fixed? && after.shape == result.shape && after.WellFormed()
    requires Wants(padded, after, column, selection, RowIds(selection, result)) && Named(cells, padded, after)
    requires |before| == NElements(result) && ReadEffect(before, filled, cells, padded, after)
    requires InResult(result, j)
    ensures j[|j| - 1] < |RowIds(selection, result)|
    ensures ElementFilled(before, filled, cells, column, selection, RowIds(selection, result)[j[|j| - 1]], result, j)
  {
    var rows := RowIds(selection, result);
    var row := rows[j[|j| - 1]];
    assert InResult(after, j) && FlatPosition(after, j) == FlatPosition(result, j);
    PaddingReadsCells(padded, after, column, selection, rows, j);
    assert ElementRead(before, filled, cells, padded, after, j);
    if IsRowRead(column, row) {
      assert DiskIndex(padded, after, j) == IndexFor(column, selection, row, j);
    }
  }

  ghost predicate MayReadPart(column: ColumnShape, fitted: Selection, after: ResultShape)
  {
    after.WellFormed() && Matches(fitted, after) && ReadsBeyond(HasRow(column), fitted, after)
  }

  // The selection does not fit, or what it was fitted to cannot be read.
  ghost predicate CannotFill(column: ColumnShape, selection: Selection, result: ResultShape, fitted: Selection,
                             after: ResultShape)
    requires result.Fixed? ==> result.WellFormed()
  {
    || !CanFit(column, selection, result)
    || (result.Fixed? && IsFitted(fitted, after, column, selection, result)
          && CannotRead(HasRow(column), fitted, after))
  }

  /**
   Reads a selection of a column into a result that the caller supplies. Of every row that
   can be read, the part that both the cell and the result have is filled in; nothing else
   in the buffer changes. It fails exactly if the selection cannot be fitted to the result,
   or the fitted selection not be read; before that nothing changes, except that chunks may
   have been read before one of a row that does not exist.
   */
  method ReadIntoResult<T>(cells: Cells<T>, column: ColumnShape, selection: Selection, result: ResultShape,
                           options: RowSplitOptions, elementBytes: nat, ninstances: nat, buffer: array<T>)
    returns (r: Result<()>, ghost fitted: Selection, ghost after: ResultShape)
    requires Holds(cells, column)
    requires result.Fixed? ==> result.WellFormed() && result.extents.None? && buffer.Length == NElements(result)
    modifies buffer
    ensures r.Failure? <==> CannotFill(column, selection, result, fitted, after)
    ensures r.Success? ==> result.Fixed? && IsFitted(fitted, after, column, selection, result)
    ensures r.Success? ==> Filled(old(buffer[..]), buffer[..], cells, column, selection, result)
    ensures r.Failure? && !MayReadPart(column, fitted, after) ==> buffer[..] == old(buffer[..])
  {
    ghost var before := buffer[..];
    var padded, padding := NegateMissingSelectedRows(column, result, selection);
    fitted, after := if padded.Success? then padded.value else selection, padding;
    if padded.Failure? {
      return Failure(padded.error), fitted, after;
    }
    FittedCanBeRead(cells, column, selection, result, padded.value, padding);
    r := ReadPartition(cells, HasRow(column), padded.value, padding, options, elementBytes, ninstances, buffer);
    if r.Success? {
      FittedIsFilled(before, buffer[..], cells, column, selection, result, padded.value, padding);
    }
  }

  lemma OtherRowsOtherElements(row: nat, nrows: nat, other: nat)
    requires row * nrows == row * other && nrows != other
    ensures row == 0
  {
    if nrows < other {
      assert row * other == row * nrows + row * (other - nrows);
    } else {
      assert row * nrows == row * other + row * (nrows - other);
    }
  }

  // Where the sizes differ but not the number of elements, there are none, or no row is read.
  lemma UncheckedIsUnread(column: ColumnShape, selection: Selection, result: ResultShape, fitted: Selection,
                          after: ResultShape)
    requires result.Fixed? && result.WellFormed() && IsFitted(fitted, after, column, selection, result)
    requires !Matches(fitted, after) && ElementsWanted(fitted, after) == NElements(after)
    ensures WantsNothing(fitted, after)
    ensures NElements(after) == 0
         || (|RowIds(selection, result)| == result.NRows()
               && NoneRead(column, RowIds(selection, result), result.NRows()))
  {
    if column.fixedShape.Some? {
      var last := |after.shape| - 1;
      SelectedCountIsProduct(fitted, after, last);
      OtherRowsOtherElements(Stride(after.shape, last), |RowIds(selection, result)|, result.NRows());
    }
  }

  lemma FittedIsFilled<T>(before: seq<T>, filled: seq<T>, cells: Cells<T>, column: ColumnShape, selection: Selection,
                          result: ResultShape,
                          fitted: Selection, after: ResultShape)
    requires result.Fixed? && result.WellFormed() && |before| == |filled| == NElements(result)
    requires IsFitted(fitted, after, column, selection, result) && !CannotRead(HasRow(column), fitted, after)
    requires Matches(fitted, after) ==> Named(cells, fitted, after) && ReadEffect(before, filled, cells, fitted, after)
    requires !Matches(fitted, after) ==> filled == before
    ensures Filled(before, filled, cells, column, selection, result)
  {
    forall j | InResult(result, j)
      ensures j[|j| - 1] < |RowIds(selection, result)|
      ensures ElementFilled(before, filled, cells, column, selection, RowIds(selection, result)[j[|j| - 1]], result, j)
    {
      if Matches(fitted, after) {
        FillsElement(before, filled, cells, column, selection, fitted, result, after, j);
      } else {
        UncheckedIsUnread(column, selection, result, fitted, after);
        FlatPositionBound(result, j);
      }
    }
  }

  lemma FittedCanBeRead<T>(cells: Cells<T>, column: ColumnShape, selection: Selection, result: ResultShape,
                           fitted: Selection, after: ResultShape)
    requires result.Fixed? && result.WellFormed() && Holds(cells, column)
    requires IsFitted(fitted, after, column, selection, result)
    ensures PartitionsByRow(after) ==> Matches(fitted, after)
    ensures Matches(fitted, after) ==> NamedWithin(cells, HasRow(column), fitted, after)
    ensures !Matches(fitted, after) && ElementsWanted(fitted, after) == NElements(after) ==> WantsNothing(fitted, after)
  {
    if Matches(fitted, after) {
      FittedIsNamedWithin(cells, column, selection, RowIds(selection, result), fitted, after);
    } else if ElementsWanted(fitted, after) == NElements(after) {
      UncheckedIsUnread(column, selection, result, fitted, after);
    }
  }

  // ----- writing

  // The row has a cell of rank k.
  function HasCell(column: ColumnShape, k: nat): RowTest
  {
    row => 0 <= row < column.NRow() && column.cells[row].Some? && |column.cells[row].value| == k
  }

  // Some element of the data has no place in the column.
  ghost predicate LacksPlace(column: ColumnShape, selection: Selection, result: ResultShape)
    requires result.WellFormed() && Matches(selection, result)
  {
    exists j :: InResult(result, j) && NoHole(DiskIndex(selection, result, j))
          && !HasPlace(column, selection, result, j)
  }

  lemma PlacesAreCells(column: ColumnShape, selection: Selection, result: ResultShape)
    requires CanWrite(column, result) && Checked(column, selection, result).1 && Matches(selection, result)
    ensures LacksPlace(column, selection, result)
       <==> ReadsBeyond(HasCell(Checked(column, selection, result).0, result.NDim() - 1), selection, result)
  {
    var after := Checked(column, selection, result).0;
    forall j | InResult(result, j) && NoHole(DiskIndex(selection, result, j))
      ensures HasPlace(column, selection, result, j)
         <==> !IsBeyond(HasCell(after, result.NDim() - 1), DiskIndex(selection, result, j))
    {
      ElementHasCell(column, selection, result, j);
    }
  }

  lemma ElementHasCell(column: ColumnShape, selection: Selection, result: ResultShape, j: seq<nat>)
    requires CanWrite(column, result) && Checked(column, selection, result).1 && Matches(selection, result)
    requires InResult(result, j) && NoHole(DiskIndex(selection, result, j))
    ensures HasPlace(column, selection, result, j)
       <==> !IsBeyond(HasCell(Checked(column, selection, result).0, result.NDim() - 1), DiskIndex(selection, result, j))
  {
    var last := |j| - 1;
    var row, after := RowIds(selection, result)[j[last]], Checked(column, selection, result).0;
    RowOfElement(after, selection, result, j);
    AcceptedElement(column, selection, result, j);
    AcceptedPersists(column, selection, result);
    PersistentCell(column, after, row, last);
  }

  lemma RowOfElement(after: ColumnShape, selection: Selection, result: ResultShape, j: seq<nat>)
    requires result.WellFormed() && Matches(selection, result)
    requires InResult(result, j) && NoHole(DiskIndex(selection, result, j))
    ensures RowIds(selection, result)[j[|j| - 1]] >= 0
    ensures HasCell(after, |j| - 1)(RowIds(selection, result)[j[|j| - 1]])
       <==> !IsBeyond(HasCell(after, |j| - 1), DiskIndex(selection, result, j))
  {
    assert DiskIndex(selection, result, j)[|j| - 1] == RowIds(selection, result)[j[|j| - 1]];
  }

  lemma PersistentCell(column: ColumnShape, after: ColumnShape, row: nat, k: nat)
    requires column.Valid() && CellsPersist(column, after, k) && (column.fixedShape.Some? ==> column.ndim == k)
    ensures HasCell(after, k)(row)
       <==> (row < column.NRow() && (column.IsDefined(row) ==> |column.cells[row].value| == k)
             && CellOfRow(after, row).Some?)
  {
  }

  /** Data that is accepted can be written if every element of it has a place. */
  lemma AcceptedIsNamed<T>(cells: Cells<T>, column: ColumnShape, selection: Selection, result: ResultShape)
    requires CanWrite(column, result) && Checked(column, selection, result).1
    requires Matches(selection, result) && !LacksPlace(column, selection, result)
    requires Holds(cells, Checked(column, selection, result).0)
    ensures Named(cells, selection, result)
  {
    forall j | InResult(result, j) && NoHole(DiskIndex(selection, result, j))
      ensures DiskIndex(selection, result, j) in cells
    {
      AcceptedElement(column, selection, result, j);
    }
  }

  ghost predicate MayWritePart(column: ColumnShape, selection: Selection, result: ResultShape)
    requires CanWrite(column, result)
  {
    Checked(column, selection, result).1 && Matches(selection, result) && LacksPlace(column, selection, result)
  }

  // The data is not accepted, cannot be partitioned, has too few or many elements, or no place for some.
  ghost predicate CannotWrite(column: ColumnShape, selection: Selection, result: ResultShape, count: nat)
    requires CanWrite(column, result)
  {
    || !IsAdmitted(column, selection, result)
    || CannotPartition(selection, result)
    || count != NElements(result)
    || (Matches(selection, result) && LacksPlace(column, selection, result))
  }

  /**
   Writes data to a selection of a column: checks it and shapes the cells that are not defined
   yet, partitions it, and writes every chunk. If this fails the cells have been shaped as far
   as the check came, but nothing is written, except that chunks may have been written before
   one for which there is no place. The elements of a new cell are arbitrary until they are written.
   */
  method WriteColumn<T>(shapes: ArrayColumn, column: Column<T>, data: seq<T>, selection: Selection, result: ResultShape)
    returns (r: Result<()>)
    requires CanWrite(shapes.shape, result) && Holds(column.cells, Checked(shapes.shape, selection, result).0)
    modifies shapes, column
    ensures shapes.shape == Checked(old(shapes.shape), selection, result).0
    ensures if IsAdmitted(old(shapes.shape), selection, result)
            then Admits(old(shapes.shape), shapes.shape, selection, result)
            else IsRefused(old(shapes.shape), shapes.shape, selection, result)
    ensures r.Failure? <==> CannotWrite(old(shapes.shape), selection, result, |data|)
    ensures r.Failure? && !MayWritePart(old(shapes.shape), selection, result) ==> column.cells == old(column.cells)
    ensures r.Success? ==> Matches(selection, result) && |data| == NElements(result)
    ensures r.Success? ==> WritesSome(old(column.cells), column.cells, data, selection, result)
    ensures r.Success? ==> (WriteEffect(old(column.cells), column.cells, data, selection, result)
                            <==> AlikeAgree(data, selection, result))
  {
    ghost var before := shapes.shape;
    AcceptedIsAdmitted(before, selection, result);
    var checked := MakeWrite(shapes, result, selection);
    if checked.Failure? {
      return Failure(checked.error);
    }
    AcceptedMatches(before, selection, result);
    var made := Make(selection, result, RowSplitOptions(1, 0, None), 1);
    if made.Failure? {
      return Failure(made.error);
    }
    var chunks := made.value;
    PartitionConservesElements(chunks, selection, result);
    if TotalElements(chunks, |chunks|) != |data| {
      return Failure(Invalid);
    }
    PartitionIsPlain(chunks, selection, result);
    ChunksExist(chunks, HasCell(shapes.shape, result.NDim() - 1), selection, result);
    PlacesAreCells(before, selection, result);
    var beyond := SomeChunkIsBeyond(chunks, HasCell(shapes.shape, result.NDim() - 1));
    if beyond {
      return Failure(Invalid);
    }
    AcceptedIsNamed(column.cells, before, selection, result);
    WritePartition(chunks, column, data, selection, result);
    return Success(());
  }
}
