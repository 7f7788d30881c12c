/**
 The shape of the result of a read, from the shapes of the cells that a selection names
 (CellShapeClipper, MakeRowData and ResultShapeData::MakeRead of result_shape.cc).
 */
module RowData {
  import opened Wrappers
  import opened Selections
  import opened Spans
  import opened ResultShapes
  import opened Partitions

  /**
   The shapes of the cells of a column; a cell is undefined until it is given a shape. The
   rank is negative if the column does not fix it.
   */
  datatype ColumnShape = ColumnShape(fixedShape: Option<Shape>, cells: seq<Option<Shape>>, ndim: int)
  {
    function NRow(): nat {
      |cells|
    }

    predicate IsDefined(r: nat)
      requires r < NRow()
    {
      cells[r].Some?
    }

    // What the storage of the column guarantees.
    ghost predicate Valid() {
      && (fixedShape.Some? ==> forall r :: 0 <= r < |cells| ==> cells[r] == fixedShape)
      && (ndim >= 0 ==> forall r :: 0 <= r < |cells| ==> cells[r].Some? ==> |cells[r].value| == ndim)
      && ndim >= -1 && (fixedShape.Some? ==> |fixedShape.value| == ndim)
    }
  }

  // ----- one cell

  // A selected index of a dimension lies beyond the cell.
  ghost predicate Exceeds(selection: Selection, cell: Shape, d: nat)
    requires d < |cell|
  {
    match selection.MaybeFSpan(d, |cell| + 1)
    case None => false
    case Some(span) => exists i :: i in span && i >= cell[d]
  }

  // The extent of a dimension once a selection is applied.
  function SelectedExtent(selection: Selection, cell: Shape, d: nat): nat
    requires d < |cell|
  {
    match selection.MaybeFSpan(d, |cell| + 1)
    case None => cell[d]
    case Some(span) => |span|
  }

  function SelectedShape(selection: Selection, cell: Shape): (shape: Shape)
    ensures |shape| == |cell|
    ensures forall d :: 0 <= d < |cell| ==> shape[d] == SelectedExtent(selection, cell, d)
  {
    seq(|cell|, d requires 0 <= d < |cell| => SelectedExtent(selection, cell, d))
  }

  // A cell clipped by a selection, dimension by dimension.
  ghost function Clipped(selection: Selection, cell: Shape): Result<Shape>
  {
    if exists d :: 0 <= d < |cell| && Exceeds(selection, cell, d) then Failure(IndexError)
    else Success(SelectedShape(selection, cell))
  }

  // Selections of rows alone leave a cell as it is.
  lemma RowsAloneClipNothing(selection: Selection, cell: Shape)
    requires selection.Size() <= 1
    ensures Clipped(selection, cell) == Success(cell)
  {
    assert SelectedShape(selection, cell) == cell;
  }

  function MaxOf(span: seq<int>): (m: int)
    requires span != []
    ensures m in span && forall i :: i in span ==> i <= m
  {
    if |span| == 1 then span[0]
    else
      var m := MaxOf(span[..|span| - 1]);
      var last := span[|span| - 1];
      assert span == span[..|span| - 1] + [last];
      if m < last then last else m
  }

  datatype SelectedDim = SelectedDim(size: nat, max: int)

  function SelectedDimOf(selection: Selection, d: nat, ndim: nat): Option<SelectedDim>
  {
    match selection.MaybeFSpan(d, ndim + 1)
    case None => None
    case Some(span) => Some(SelectedDim(|span|, MaxOf(span)))
  }

  /** Clips cells, scanning the selected indices once per rank. */
  class CellShapeClipper {
    const selection: Selection
    var ndim: Option<nat>
    var dims: seq<Option<SelectedDim>>

    // What is cached is what scanning the selection again would give.
    ghost predicate Valid()
      reads this
    {
      ndim.Some? ==> |dims| == ndim.value && forall d :: 0 <= d < |dims| ==>
          dims[d] == SelectedDimOf(selection, d, |dims|)
    }

    constructor (selection: Selection)
      ensures Valid() && this.selection == selection
    {
      this.selection := selection;
      ndim := None;
      dims := [];
    }

    method Cache(n: nat)
      modifies this`ndim, this`dims
      ensures Valid() && ndim == Some(n)
    {
      ndim := Some(n);
      var cached := new Option<SelectedDim>[n](_ => None);
      for d := 0 to n
        invariant forall e :: 0 <= e < d ==> cached[e] == SelectedDimOf(selection, e, n)
        invariant forall e :: d <= e < n ==> cached[e] == None
        invariant ndim == Some(n)
      {
        var span := selection.MaybeFSpan(d, n + 1);
        if span.Some? {
          cached[d] := Some(SelectedDim(|span.value|, MaxOf(span.value)));
        }
      }
      dims := cached[..];
    }

    method Clip(cell: Shape) returns (r: Result<Shape>)
      requires Valid()
      modifies this`ndim, this`dims
      ensures Valid()
      ensures r == Clipped(selection, cell)
    {
      if selection.Size() <= 1 {
        RowsAloneClipNothing(selection, cell);
        return Success(cell);
      }
      if ndim != Some(|cell|) {
        Cache(|cell|);
      }
      var shape := cell;
      for d := 0 to |cell|
        invariant Valid() && ndim == Some(|cell|)
        invariant |shape| == |cell|
        invariant forall e :: 0 <= e < d ==>
                    !Exceeds(selection, cell, e) && shape[e] == SelectedExtent(selection, cell, e)
        invariant forall e :: d <= e < |cell| ==> shape[e] == cell[e]
      {
        if dims[d].Some? {
          if dims[d].value.max >= shape[d] {
            assert Exceeds(selection, cell, d);
            return Failure(IndexError);
          }
          shape := shape[d := dims[d].value.size];
        }
      }
      assert shape == SelectedShape(selection, cell);
      return Success(shape);
    }
  }

  // ----- the rows of a selection, one by one

  function SelectedRows(selection: Selection, nrow: nat): seq<int>
  {
    if selection.HasRowSpan() then selection.GetRowSpan() else Iota(nrow)
  }

  // The shape of one row; a missing row, if allowed, has no extents.
  ghost function ShapeOfRow(column: ColumnShape, selection: Selection, r: int, allowMissing: bool): Result<Shape>
  {
    if r >= column.NRow() then Failure(IndexError)
    else if r < 0 then (if allowMissing then Success([]) else Failure(IndexError))
    else if !column.IsDefined(r) then (if allowMissing then Success([]) else Failure(Invalid))
    else Clipped(selection, column.cells[r].value)
  }

  // The shapes of the first n rows, or the failure of the first that fails.
  ghost function ShapesOfRows(column: ColumnShape, selection: Selection, rows: seq<int>, n: nat,
                              allowMissing: bool): (shapes: Result<seq<Shape>>)
    requires n <= |rows|
    ensures shapes.Success? ==> |shapes.value| == n
  {
    if n == 0 then Success([])
    else
      match ShapesOfRows(column, selection, rows, n - 1, allowMissing)
      case Failure(e) => Failure(e)
      case Success(before) =>
        match ShapeOfRow(column, selection, rows[n - 1], allowMissing)
        case Failure(e) => Failure(e)
        case Success(shape) => Success(before + [shape])
  }

  // The shapes of all rows of the selection.
  ghost function SelectedShapes(column: ColumnShape, selection: Selection, allowMissing: bool): Result<seq<Shape>>
  {
    var rows := SelectedRows(selection, column.NRow());
    ShapesOfRows(column, selection, rows, |rows|, allowMissing)
  }

  lemma {:induction false} ShapesFailWithRow(column: ColumnShape, selection: Selection, rows: seq<int>, i: nat, n: nat,
                                             allowMissing: bool)
    requires i < n <= |rows| && ShapesOfRows(column, selection, rows, i, allowMissing).Success?
    requires ShapeOfRow(column, selection, rows[i], allowMissing).Failure?
    ensures ShapesOfRows(column, selection, rows, n, allowMissing)
          == Failure(ShapeOfRow(column, selection, rows[i], allowMissing).error)
  {
    if i + 1 < n {
      ShapesFailWithRow(column, selection, rows, i, n - 1, allowMissing);
    }
  }

  /** All rows have shapes exactly when each of them has, and then they are those. */
  lemma {:induction false} ShapesRowByRow(column: ColumnShape, selection: Selection, rows: seq<int>, n: nat,
                                          allowMissing: bool)
    requires n <= |rows|
    ensures ShapesOfRows(column, selection, rows, n, allowMissing).Success?
       <==> forall i :: 0 <= i < n ==> ShapeOfRow(column, selection, rows[i], allowMissing).Success?
    ensures ShapesOfRows(column, selection, rows, n, allowMissing).Success? ==> forall i :: 0 <= i < n ==>
              Success(ShapesOfRows(column, selection, rows, n, allowMissing).value[i])
                  == ShapeOfRow(column, selection, rows[i], allowMissing)
  {
    if n > 0 {
      ShapesRowByRow(column, selection, rows, n - 1, allowMissing);
    }
  }

  // ----- the shapes as the program keeps them

  // A shape that all rows have, when there are rows and each is present; without one the
  // shapes are kept row by row.
  datatype RowShapeData = RowShapeData(commonShape: Option<Shape>, shapes: seq<Shape>, missingRows: nat)

  ghost predicate AllShare(shapes: seq<Shape>, shape: Shape)
  {
    forall i :: 0 <= i < |shapes| ==> shapes[i] == shape
  }

  ghost function CommonShape(shapes: seq<Shape>): Option<Shape>
  {
    if shapes != [] && shapes[0] != [] && AllShare(shapes, shapes[0]) then Some(shapes[0]) else None
  }

  ghost predicate Describes(data: RowShapeData, shapes: seq<Shape>)
  {
    && data.commonShape == CommonShape(shapes)
    && data.shapes == (if data.commonShape.Some? then [] else shapes)
    && (data.missingRows > 0 <==> [] in shapes)
  }

  function Repeat(n: nat, shape: Shape): (shapes: seq<Shape>)
    ensures |shapes| == n && forall i :: 0 <= i < n ==> shapes[i] == shape
  {
    seq(n, _ => shape)
  }

  // Records the shape of the next row, after those of the given ones.
  method AddShape(data: RowShapeData, shape: Shape, ghost before: seq<Shape>, i: nat) returns (r: RowShapeData)
    requires Describes(data, before) && i == |before|
    ensures Describes(r, before + [shape])
    ensures r.missingRows == data.missingRows + if shape == [] then 1 else 0
  {
    var missing := shape == [];
    r := data.(missingRows := data.missingRows + if missing then 1 else 0);
    ghost var after := before + [shape];
    assert [] in after <==> [] in before || missing;
    if r.shapes == [] {
      if !missing && r.commonShape.None? {
        assert before == [];
        return r.(commonShape := Some(shape));
      }
      if !missing && Some(shape) == r.commonShape {
        SharedStays(before, shape);
        return;
      }
      var common := if r.commonShape.Some? then r.commonShape.value else [];
      r := r.(shapes := Repeat(i, common), commonShape := None);
      assert r.shapes == before;
    }
    NothingShared(before, shape);
    r := r.(shapes := r.shapes + [shape]);
  }

  lemma SharedStays(before: seq<Shape>, shape: Shape)
    requires CommonShape(before) == Some(shape)
    ensures CommonShape(before + [shape]) == Some(shape)
  {
    assert (before + [shape])[0] == before[0];
  }

  lemma NothingShared(before: seq<Shape>, shape: Shape)
    requires shape == [] || before != []
    requires CommonShape(before) != Some(shape)
    ensures CommonShape(before + [shape]) == None
  {
    var after := before + [shape];
    if before != [] && AllShare(after, after[0]) {
      assert after[|before|] == shape && after[0] == before[0];
      assert forall i :: 0 <= i < |before| ==> after[i] == before[i];
      assert AllShare(before, before[0]);
    }
  }

  // The state between rows: the shapes so far, and the last cell clipped.
  ghost predicate ShapesKept(column: ColumnShape, selection: Selection, rows: seq<int>, i: nat, allowMissing: bool,
                             data: RowShapeData, last: Option<Shape>, lastClipped: Shape)
    requires i <= |rows|
  {
    var shapes := ShapesOfRows(column, selection, rows, i, allowMissing);
    && shapes.Success?
    && Describes(data, shapes.value)
    && (last.Some? ==> Clipped(selection, last.value) == Success(lastClipped) && lastClipped in shapes.value)
  }

  lemma SkipKeeps(data: RowShapeData, before: seq<Shape>, shape: Shape)
    requires Describes(data, before) && shape in before
    ensures data.shapes == [] ==> Describes(data, before + [shape])
    ensures data.shapes != [] ==> Describes(data.(shapes := data.shapes + [shape]), before + [shape])
  {
    assert [] in before + [shape] <==> [] in before;
    if data.commonShape.Some? {
      SharedStays(before, shape);
    } else {
      NothingShared(before, shape);
    }
  }

  /**
   The shapes of the selected rows. The caches change nothing: the rows have the shapes
   that clipping each cell by itself gives, it fails as the first row that fails by
   itself does, and a shape is common exactly when all rows have it and none is missing.
   */
  method MakeRowData(column: ColumnShape, selection: Selection, allowMissing: bool) returns (r: Result<RowShapeData>)
    ensures r.Success? == SelectedShapes(column, selection, allowMissing).Success?
    ensures r.Failure? ==> r.error == SelectedShapes(column, selection, allowMissing).error
    ensures r.Success? ==> Describes(r.value, SelectedShapes(column, selection, allowMissing).value)
  {
    var clipper := new CellShapeClipper(selection);
    var rows := SelectedRows(selection, column.NRow());
    var data := RowShapeData(None, [], 0);
    var lastShape: Option<Shape> := None;
    var lastClipped: Shape := [];
    for i := 0 to |rows|
      invariant clipper.Valid() && clipper.selection == selection
      invariant ShapesKept(column, selection, rows, i, allowMissing, data, lastShape, lastClipped)
    {
      var r := rows[i];
      ghost var before := ShapesOfRows(column, selection, rows, i, allowMissing).value;
      if r >= column.NRow() {
        ShapesFailWithRow(column, selection, rows, i, |rows|, allowMissing);
        return Failure(IndexError);
      }
      if r < 0 || !column.IsDefined(r) {
        if allowMissing {
          data := AddShape(data, [], before, i);
          continue;
        }
        ShapesFailWithRow(column, selection, rows, i, |rows|, allowMissing);
        return Failure(if r >= 0 then Invalid else IndexError);
      }
      var shape := column.cells[r].value;
      if lastShape == Some(shape) {
        SkipKeeps(data, before, lastClipped);
        if data.shapes != [] {
          data := data.(shapes := data.shapes + [lastClipped]);
        }
        continue;
      }
      lastShape := Some(shape);
      var clipped := clipper.Clip(shape);
      if clipped.Failure? {
        ShapesFailWithRow(column, selection, rows, i, |rows|, allowMissing);
        return Failure(clipped.error);
      }
      lastClipped := clipped.value;
      data := AddShape(data, clipped.value, before, i);
    }
    return Success(data);
  }

  // ----- the result of a read

  // The rank that every shape has which is not empty, if there is one.
  ghost predicate HaveRank(shapes: seq<Shape>, k: nat)
  {
    && (exists i :: 0 <= i < |shapes| && shapes[i] != [])
    && forall i :: 0 <= i < |shapes| ==> shapes[i] == [] || |shapes[i]| == k
  }

  // The dimensions of a varying result: those of its cells, or else those of the column.
  ghost predicate IsReadRank(ndim: int, shapes: seq<Shape>, columnNDim: int)
  {
    if exists k: nat :: HaveRank(shapes, k) then ndim > 0 && HaveRank(shapes, ndim - 1)
    else ndim == if columnNDim >= 0 then columnNDim + 1 else columnNDim
  }

  method ReadRank(shapes: seq<Shape>, columnNDim: int) returns (ndim: int)
    ensures IsReadRank(ndim, shapes, columnNDim)
  {
    ndim := -1;
    for i := 0 to |shapes|
      invariant ndim == -1 ==> forall k :: 0 <= k < i ==> shapes[k] == []
      invariant ndim != -1 ==> ndim > 1 && HaveRank(shapes[..i], ndim - 1)
    {
      if shapes[i] == [] {
        continue;
      }
      if ndim == -1 {
        ndim := |shapes[i]| + 1;
        assert shapes[..i + 1][i] != [];
      } else if ndim != |shapes[i]| + 1 {
        RanksDiffer(shapes, i, ndim - 1);
        ndim := -1;
        break;
      }
    }
    if ndim == -1 {
      ndim := columnNDim;
      if ndim >= 0 {
        ndim := ndim + 1;
      }
    } else {
      assert shapes[..|shapes|] == shapes;
    }
  }

  lemma RanksDiffer(shapes: seq<Shape>, i: nat, k: nat)
    requires i < |shapes| && HaveRank(shapes[..i], k) && shapes[i] != [] && |shapes[i]| != k
    ensures forall m: nat :: !HaveRank(shapes, m)
  {
    var e :| 0 <= e < i && shapes[..i][e] != [];
    assert |shapes[e]| == k;
  }

  // The result that a read of a column is given.
  ghost predicate IsReadShape(r: Result<ResultShape>, column: ColumnShape, selection: Selection, allowMissing: bool)
  {
    var rows := SelectedRows(selection, column.NRow());
    match column.fixedShape
    case Some(cell) =>
      (match Clipped(selection, cell)
       case Failure(e) => r == Failure(e)
       case Success(shape) => r == Success(Fixed(shape + [|rows|], None)))
    case None =>
      match ShapesOfRows(column, selection, rows, |rows|, allowMissing)
      case Failure(e) => r == Failure(e)
      case Success(shapes) =>
        if !allowMissing && [] in shapes then r == Failure(Invalid)
        else if CommonShape(shapes).Some? then r == Success(Fixed(CommonShape(shapes).value + [|rows|], None))
        else
          && r.Success? && r.value.Varying? && r.value.rowShapes == shapes
          && IsReadRank(r.value.ndim, shapes, column.ndim)
  }

  // ----- what that result is, said of the cells

  // No index of a span lies beyond the extent.
  ghost predicate LiesBelow(span: Option<seq<int>>, extent: nat)
  {
    span.Some? ==> forall i :: i in span.value ==> i < extent
  }

  ghost predicate LiesWithin(selection: Selection, cell: Shape)
  {
    forall d :: 0 <= d < |cell| ==> LiesBelow(selection.MaybeFSpan(d, |cell| + 1), cell[d])
  }

  // As many elements as are selected, or else the whole extent.
  ghost predicate IsTaken(taken: nat, span: Option<seq<int>>, extent: nat)
  {
    (span.Some? ==> taken == |span.value|) && (span.None? ==> taken == extent)
  }

  ghost predicate IsTakenOf(shape: Shape, selection: Selection, cell: Shape)
  {
    && |shape| == |cell|
    && forall d :: 0 <= d < |cell| ==> IsTaken(shape[d], selection.MaybeFSpan(d, |cell| + 1), cell[d])
  }

  // The row exists and has a cell with extents, of which no index selected lies beyond.
  ghost predicate RowHasShape(column: ColumnShape, selection: Selection, r: int)
  {
    && 0 <= r < column.NRow() && column.cells[r].Some? && column.cells[r].value != []
    && LiesWithin(selection, column.cells[r].value)
  }

  // A shape can be derived. Rows of a column whose cells all have one shape are not looked at.
  ghost predicate HasReadShape(column: ColumnShape, selection: Selection)
  {
    match column.fixedShape
    case Some(cell) => LiesWithin(selection, cell)
    case None => forall r :: r in SelectedRows(selection, column.NRow()) ==> RowHasShape(column, selection, r)
  }

  ghost predicate IsTakenOfRow(shape: Shape, column: ColumnShape, selection: Selection, r: int)
  {
    0 <= r < column.NRow() && column.cells[r].Some? && IsTakenOf(shape, selection, column.cells[r].value)
  }

  // The shape is what is taken of the cells of the rows, fixed exactly if that of all of them is alike.
  ghost predicate IsDerived(result: ResultShape, column: ColumnShape, selection: Selection)
  {
    var rows := SelectedRows(selection, column.NRow());
    match result
    case Fixed(shape, extents) =>
      && extents.None? && shape != [] && shape[|shape| - 1] == |rows|
      && (match column.fixedShape
          case Some(cell) => IsTakenOf(shape[..|shape| - 1], selection, cell)
          case None =>
            rows != [] && forall i :: 0 <= i < |rows| ==>
              IsTakenOfRow(shape[..|shape| - 1], column, selection, rows[i]))
    case Varying(ndim, rowShapes) =>
      && column.fixedShape.None? && |rowShapes| == |rows|
      && (forall i :: 0 <= i < |rows| ==> IsTakenOfRow(rowShapes[i], column, selection, rows[i]))
      && (rows == [] || exists i :: 0 <= i < |rows| && rowShapes[i] != rowShapes[0])
      && IsReadRank(ndim, rowShapes, column.ndim)
  }

  lemma ClippedIsTaken(selection: Selection, cell: Shape)
    ensures Clipped(selection, cell).Success? <==> LiesWithin(selection, cell)
    ensures Clipped(selection, cell).Success? ==> IsTakenOf(Clipped(selection, cell).value, selection, cell)
  {
    forall d | 0 <= d < |cell|
      ensures Exceeds(selection, cell, d) <==> !LiesBelow(selection.MaybeFSpan(d, |cell| + 1), cell[d])
      ensures IsTaken(SelectedExtent(selection, cell, d), selection.MaybeFSpan(d, |cell| + 1), cell[d])
    {
    }
  }

  lemma TakenIsUnique(a: Shape, b: Shape, selection: Selection, cell: Shape)
    requires IsTakenOf(a, selection, cell) && IsTakenOf(b, selection, cell)
    ensures a == b
  {
    forall d | 0 <= d < |cell|
      ensures a[d] == b[d]
    {
      assert IsTaken(a[d], selection.MaybeFSpan(d, |cell| + 1), cell[d]);
      assert IsTaken(b[d], selection.MaybeFSpan(d, |cell| + 1), cell[d]);
    }
  }

  lemma RowIsTaken(column: ColumnShape, selection: Selection, r: int)
    ensures var shape := ShapeOfRow(column, selection, r, false);
            && (shape.Success? && shape.value != [] <==> RowHasShape(column, selection, r))
            && (shape.Success? ==> IsTakenOfRow(shape.value, column, selection, r))
  {
    if 0 <= r < column.NRow() && column.IsDefined(r) {
      ClippedIsTaken(selection, column.cells[r].value);
    }
  }

  lemma RowsAreTaken(column: ColumnShape, selection: Selection, rows: seq<int>, shapes: Result<seq<Shape>>)
    requires shapes == ShapesOfRows(column, selection, rows, |rows|, false)
    ensures shapes.Success? && [] !in shapes.value <==> forall r :: r in rows ==> RowHasShape(column, selection, r)
    ensures shapes.Success? ==> forall i :: 0 <= i < |rows| ==>
              IsTakenOfRow(shapes.value[i], column, selection, rows[i])
  {
    ShapesRowByRow(column, selection, rows, |rows|, false);
    forall i | 0 <= i < |rows|
      ensures var shape := ShapeOfRow(column, selection, rows[i], false);
              && (shape.Success? && shape.value != [] <==> RowHasShape(column, selection, rows[i]))
              && (shape.Success? ==> IsTakenOfRow(shape.value, column, selection, rows[i]))
    {
      RowIsTaken(column, selection, rows[i]);
    }
  }

  /**
   A read is given a shape exactly if every row that is looked at exists, is defined and has the
   indices selected. The shape is that of what is taken of each cell: all of an unselected dimension,
   and as many elements as are selected of another.
   */
  lemma ReadShapeIsDerived(r: Result<ResultShape>, column: ColumnShape, selection: Selection)
    requires IsReadShape(r, column, selection, false)
    ensures r.Success? <==> HasReadShape(column, selection)
    ensures r.Success? ==> IsDerived(r.value, column, selection)
  {
    var rows := SelectedRows(selection, column.NRow());
    match column.fixedShape {
      case Some(cell) =>
        ClippedIsTaken(selection, cell);
        if r.Success? {
          assert r.value.shape[..|cell|] == Clipped(selection, cell).value;
        }
      case None =>
        var shapes := ShapesOfRows(column, selection, rows, |rows|, false);
        RowsAreTaken(column, selection, rows, shapes);
        if r.Success? && CommonShape(shapes.value).Some? {
          assert r.value.shape[..|r.value.shape| - 1] == CommonShape(shapes.value).value;
        } else if r.Success? && rows != [] {
          assert shapes.value[0] in shapes.value;
        }
    }
  }

  // The row exists and is defined, and no index selected lies beyond its cell.
  ghost predicate CanBeTaken(column: ColumnShape, selection: Selection, r: int)
  {
    0 <= r < column.NRow() && column.cells[r].Some? && LiesWithin(selection, column.cells[r].value)
  }

  ghost predicate IsFirstLeft(column: ColumnShape, selection: Selection, rows: seq<int>, i: nat)
    requires i < |rows|
  {
    !CanBeTaken(column, selection, rows[i]) && forall k :: 0 <= k < i ==> CanBeTaken(column, selection, rows[k])
  }

  // The error is that of the first row from which nothing can be taken: Invalid if it is only not
  // defined; and also if all have something but a cell has no extents.
  ghost predicate IsReadError(column: ColumnShape, selection: Selection, rows: seq<int>, error: Error)
  {
    if exists i :: 0 <= i < |rows| && IsFirstLeft(column, selection, rows, i) then
      exists i :: 0 <= i < |rows| && IsFirstLeft(column, selection, rows, i) &&
        error == if 0 <= rows[i] < column.NRow() && column.cells[rows[i]].None? then Invalid else IndexError
    else error == Invalid
  }

  lemma TakenRow(column: ColumnShape, selection: Selection, r: int)
    ensures ShapeOfRow(column, selection, r, false).Success? <==> CanBeTaken(column, selection, r)
    ensures ShapeOfRow(column, selection, r, false).Failure? ==>
              ShapeOfRow(column, selection, r, false).error
                  == if 0 <= r < column.NRow() && column.cells[r].None? then Invalid else IndexError
  {
    if 0 <= r < column.NRow() && column.IsDefined(r) {
      ClippedIsTaken(selection, column.cells[r].value);
    }
  }

  lemma {:induction false} FirstLeft(column: ColumnShape, selection: Selection, rows: seq<int>, n: nat)
    returns (i: nat)
    requires n <= |rows| && ShapesOfRows(column, selection, rows, n, false).Failure?
    ensures i < n && IsFirstLeft(column, selection, rows, i)
    ensures ShapesOfRows(column, selection, rows, n, false).error
         == if 0 <= rows[i] < column.NRow() && column.cells[rows[i]].None? then Invalid else IndexError
  {
    if ShapesOfRows(column, selection, rows, n - 1, false).Failure? {
      i := FirstLeft(column, selection, rows, n - 1);
    } else {
      i := n - 1;
      TakenRow(column, selection, rows[i]);
      ShapesRowByRow(column, selection, rows, i, false);
      forall k | 0 <= k < i
        ensures CanBeTaken(column, selection, rows[k])
      {
        TakenRow(column, selection, rows[k]);
      }
    }
  }

  lemma ReadErrorIsFirst(error: Error, column: ColumnShape, selection: Selection)
    requires IsReadShape(Failure(error), column, selection, false)
    ensures if column.fixedShape.Some? then error == IndexError
            else IsReadError(column, selection, SelectedRows(selection, column.NRow()), error)
  {
    var rows := SelectedRows(selection, column.NRow());
    if column.fixedShape.None? {
      if ShapesOfRows(column, selection, rows, |rows|, false).Failure? {
        var i := FirstLeft(column, selection, rows, |rows|);
      } else {
        ShapesRowByRow(column, selection, rows, |rows|, false);
        forall i | 0 <= i < |rows|
          ensures CanBeTaken(column, selection, rows[i])
        {
          TakenRow(column, selection, rows[i]);
        }
      }
    }
  }

  method MakeRead(column: ColumnShape, selection: Selection, allowMissing: bool) returns (r: Result<ResultShape>)
    ensures IsReadShape(r, column, selection, allowMissing)
    ensures !allowMissing ==> (r.Success? <==> HasReadShape(column, selection))
    ensures !allowMissing && r.Success? ==> IsDerived(r.value, column, selection)
    ensures !allowMissing && r.Failure? ==>
              if column.fixedShape.Some? then r.error == IndexError
              else IsReadError(column, selection, SelectedRows(selection, column.NRow()), r.error)
  {
    r := ReadShape(column, selection, allowMissing);
    if !allowMissing {
      ReadShapeIsDerived(r, column, selection);
      if r.Failure? {
        ReadErrorIsFirst(r.error, column, selection);
      }
    }
  }

  lemma RanksAgree(a: int, b: int, shapes: seq<Shape>, columnNDim: int)
    requires IsReadRank(a, shapes, columnNDim) && IsReadRank(b, shapes, columnNDim)
    ensures a == b
  {
    if k: nat :| HaveRank(shapes, k) {
      var i :| 0 <= i < |shapes| && shapes[i] != [];
      assert |shapes[i]| == a - 1 == b - 1;
    }
  }

  // The shapes that rows have differ, or there are none.
  lemma TakenIsVarying(shape: Shape, rowShapes: seq<Shape>, column: ColumnShape, selection: Selection, rows: seq<int>)
    requires |rowShapes| == |rows| > 0
    requires forall i :: 0 <= i < |rows| ==> IsTakenOfRow(shape, column, selection, rows[i])
    requires forall i :: 0 <= i < |rows| ==> IsTakenOfRow(rowShapes[i], column, selection, rows[i])
    ensures forall i :: 0 <= i < |rows| ==> rowShapes[i] == rowShapes[0]
  {
    forall i | 0 <= i < |rows|
      ensures rowShapes[i] == shape
    {
      TakenIsUnique(rowShapes[i], shape, selection, column.cells[rows[i]].value);
    }
  }

  lemma TakenAreUnique(a: seq<Shape>, b: seq<Shape>, column: ColumnShape, selection: Selection, rows: seq<int>)
    requires |a| == |b| == |rows|
    requires forall i :: 0 <= i < |rows| ==> IsTakenOfRow(a[i], column, selection, rows[i])
    requires forall i :: 0 <= i < |rows| ==> IsTakenOfRow(b[i], column, selection, rows[i])
    ensures a == b
  {
    forall i | 0 <= i < |rows|
      ensures a[i] == b[i]
    {
      TakenIsUnique(a[i], b[i], selection, column.cells[rows[i]].value);
    }
  }

  lemma FixedIsUnique(a: ResultShape, b: ResultShape, column: ColumnShape, selection: Selection)
    requires IsDerived(a, column, selection) && IsDerived(b, column, selection) && a.Fixed? && b.Fixed?
    ensures a == b
  {
    var rows, s, t := SelectedRows(selection, column.NRow()), a.shape, b.shape;
    var cell := if column.fixedShape.Some? then column.fixedShape.value else column.cells[rows[0]].value;
    TakenIsUnique(s[..|s| - 1], t[..|t| - 1], selection, cell);
    assert s == s[..|s| - 1] + [|rows|] && t == t[..|t| - 1] + [|rows|];
  }

  lemma OneKindOnly(a: ResultShape, b: ResultShape, column: ColumnShape, selection: Selection)
    requires a.Fixed? && b.Varying? && IsDerived(a, column, selection)
    ensures !IsDerived(b, column, selection)
  {
    if IsDerived(b, column, selection) && b.rowShapes != [] {
      TakenIsVarying(a.shape[..|a.shape| - 1], b.rowShapes, column, selection, SelectedRows(selection, column.NRow()));
    }
  }

  /** There is only one such shape. */
  lemma DerivedIsUnique(a: ResultShape, b: ResultShape, column: ColumnShape, selection: Selection)
    requires IsDerived(a, column, selection) && IsDerived(b, column, selection)
    ensures a == b
  {
    if a.Fixed? && b.Fixed? {
      FixedIsUnique(a, b, column, selection);
    } else if a.Varying? && b.Varying? {
      TakenAreUnique(a.rowShapes, b.rowShapes, column, selection, SelectedRows(selection, column.NRow()));
      RanksAgree(a.ndim, b.ndim, a.rowShapes, column.ndim);
    } else if a.Fixed? {
      OneKindOnly(a, b, column, selection);
    } else {
      OneKindOnly(b, a, column, selection);
    }
  }

  method ReadShape(column: ColumnShape, selection: Selection, allowMissing: bool) returns (r: Result<ResultShape>)
    ensures IsReadShape(r, column, selection, allowMissing)
  {
    var nselected := if selection.HasRowSpan() then |selection.GetRowSpan()| else column.NRow();
    if column.fixedShape.Some? {
      var clipper := new CellShapeClipper(selection);
      var clipped := clipper.Clip(column.fixedShape.value);
      if clipped.Failure? {
        return Failure(clipped.error);
      }
      return Success(Fixed(clipped.value + [nselected], None));
    }
    var made := MakeRowData(column, selection, allowMissing);
    if made.Failure? {
      return Failure(made.error);
    }
    var data := made.value;
    if !allowMissing && data.missingRows > 0 {
      return Failure(Invalid);
    }
    if data.commonShape.Some? {
      return Success(Fixed(data.commonShape.value + [nselected], None));
    }
    var ndim := ReadRank(data.shapes, column.ndim);
    return Success(Varying(ndim, data.shapes));
  }

  // The cell that row r of a result is read from.
  ghost function CellOfRow(column: ColumnShape, r: int): Option<Shape>
  {
    if column.fixedShape.Some? then column.fixedShape
    else if 0 <= r < column.NRow() then column.cells[r]
    else None
  }

  // Every row of the result is that of a cell within which the selected indices lie.
  ghost predicate RowSuits(column: ColumnShape, selection: Selection, result: ResultShape, r: nat)
    requires result.WellFormed() && |RowIds(selection, result)| == result.NRows() && r < result.NRows()
  {
    && CellOfRow(column, RowIds(selection, result)[r]).Some?
    && Clipped(selection, CellOfRow(column, RowIds(selection, result)[r]).value) == Success(result.CellShape(r))
  }

  lemma RowsOfResult(selection: Selection, result: ResultShape, nrow: nat)
    requires result.WellFormed() && result.NRows() == |SelectedRows(selection, nrow)|
    ensures RowIds(selection, result) == SelectedRows(selection, nrow)
  {
    RowSpanIsLast(selection, result.NDim());
  }

  lemma ReadRowsSuit(column: ColumnShape, selection: Selection, result: ResultShape, allowMissing: bool)
    requires IsReadShape(Success(result), column, selection, allowMissing) && result.WellFormed()
    ensures |RowIds(selection, result)| == result.NRows()
    ensures forall r :: 0 <= r < result.NRows() ==> RowSuits(column, selection, result, r)
  {
    var rows := SelectedRows(selection, column.NRow());
    RowsOfResult(selection, result, column.NRow());
    if column.fixedShape.None? {
      ShapesRowByRow(column, selection, rows, |rows|, allowMissing);
      var shapes := ShapesOfRows(column, selection, rows, |rows|, allowMissing).value;
      forall r | 0 <= r < result.NRows()
        ensures RowSuits(column, selection, result, r)
      {
        assert result.CellShape(r) == shapes[r];
        assert shapes[r] != [];
        assert ShapeOfRow(column, selection, rows[r], allowMissing) == Success(shapes[r]);
      }
    }
  }

  // The program gives the partition a result that matches the selection.
  lemma SuitedIds(column: ColumnShape, selection: Selection, result: ResultShape, r: nat, d: nat)
    requires result.WellFormed() && |RowIds(selection, result)| == result.NRows() && !result.HasCellExtents()
    requires r < result.NRows() && RowSuits(column, selection, result, r) && d < result.NDim() - 1
    ensures |CellIds(selection, result, r, d)| == result.CellShape(r)[d]
    ensures |CellOfRow(column, RowIds(selection, result)[r]).value| == result.NDim() - 1
    ensures forall k :: 0 <= k < |CellIds(selection, result, r, d)| ==>
              CellIds(selection, result, r, d)[k] < CellOfRow(column, RowIds(selection, result)[r]).value[d]
    ensures HoldsWhole(column, selection, result, r, d)
  {
    var cell := CellOfRow(column, RowIds(selection, result)[r]).value;
    var ids := CellIds(selection, result, r, d);
    assert !Exceeds(selection, cell, d) && result.CellShape(r)[d] == SelectedExtent(selection, cell, d);
    forall k | 0 <= k < |ids|
      ensures ids[k] < cell[d]
    {
      assert ids[k] in ids;
    }
  }

  // Nothing of an unselected dimension of a row is left out.
  ghost predicate HoldsWhole(column: ColumnShape, selection: Selection, result: ResultShape, r: nat, d: nat)
    requires result.WellFormed() && r < result.NRows() && |RowIds(selection, result)| == result.NRows()
    requires d < result.NDim() - 1
  {
    var cell := CellOfRow(column, RowIds(selection, result)[r]);
    && cell.Some? && |cell.value| == result.NDim() - 1
    && (selection.MaybeFSpan(d, result.NDim()).None? ==> result.CellShape(r)[d] == cell.value[d])
  }

  /**
   What a read is partitioned by matches its selection, and every element wanted lies
   within its cell: the contract that the partition of chunks relies on.
   */
  lemma ReadMatches(column: ColumnShape, selection: Selection, result: ResultShape, allowMissing: bool)
    requires IsReadShape(Success(result), column, selection, allowMissing) && result.WellFormed()
    ensures Matches(selection, result)
    ensures forall j :: InResult(result, j) ==> WithinCell(column, DiskIndex(selection, result, j))
  {
    ReadRowsSuit(column, selection, result, allowMissing);
    forall r, d | 0 <= r < result.NRows() && 0 <= d < result.NDim() - 1
      ensures |CellIds(selection, result, r, d)| == result.CellShape(r)[d]
    {
      SuitedIds(column, selection, result, r, d);
    }
    forall d | result.Fixed? && 0 <= d < result.NDim() - 1
      ensures |SelectedIds(selection, d, result.NDim(), result.shape[d])| == result.shape[d]
    {
      if result.NRows() > 0 {
        SuitedIds(column, selection, result, 0, d);
      } else {
        assert result.shape[d] == SelectedExtent(selection, column.fixedShape.value, d);
      }
    }
    forall j | InResult(result, j)
      ensures WithinCell(column, DiskIndex(selection, result, j))
    {
      var r := j[|j| - 1];
      assert RowSuits(column, selection, result, r);
      forall d | 0 <= d < |j| - 1
        ensures DiskIndex(selection, result, j)[d] < CellOfRow(column, RowIds(selection, result)[r]).value[d]
      {
        SuitedIds(column, selection, result, r, d);
      }
    }
  }

  /** Nor is anything left out of a dimension without a selection. */
  lemma ReadHoldsWhole(column: ColumnShape, selection: Selection, result: ResultShape, allowMissing: bool)
    requires IsReadShape(Success(result), column, selection, allowMissing) && result.WellFormed()
    ensures |RowIds(selection, result)| == result.NRows()
    ensures forall r, d :: 0 <= r < result.NRows() && 0 <= d < result.NDim() - 1 ==>
              HoldsWhole(column, selection, result, r, d)
  {
    ReadRowsSuit(column, selection, result, allowMissing);
    forall r, d | 0 <= r < result.NRows() && 0 <= d < result.NDim() - 1
      ensures HoldsWhole(column, selection, result, r, d)
    {
      SuitedIds(column, selection, result, r, d);
    }
  }

  // A disk index lies within the cell of its row, where it is not a hole.
  ghost predicate WithinCell(column: ColumnShape, i: seq<int>)
    requires i != []
  {
    && CellOfRow(column, i[|i| - 1]).Some?
    && |CellOfRow(column, i[|i| - 1]).value| == |i| - 1
    && forall d :: 0 <= d < |i| - 1 ==> i[d] < CellOfRow(column, i[|i| - 1]).value[d]
  }

  /** A read that does not allow missing rows, and has a rank, can be partitioned. */
  lemma ReadIsWellFormed(column: ColumnShape, selection: Selection, result: ResultShape)
    requires IsReadShape(Success(result), column, selection, false) && column.Valid()
    requires result.NDim() >= 0 && (column.ndim != 0 || column.fixedShape.Some?)
    ensures result.WellFormed()
  {
    if result.Varying? {
      var rows := SelectedRows(selection, column.NRow());
      var shapes := result.rowShapes;
      ShapesRowByRow(column, selection, rows, |rows|, false);
      forall i | 0 <= i < |shapes|
        ensures shapes[i] != [] && (column.ndim >= 0 ==> |shapes[i]| == column.ndim)
      {
        assert ShapeOfRow(column, selection, rows[i], false) == Success(shapes[i]);
      }
      if shapes != [] && column.ndim >= 0 {
        assert HaveRank(shapes, column.ndim);
      }
    }
  }
}
