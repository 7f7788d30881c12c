/**
 The shape of the result of a read or of the data of a write, and the flat position of
 each of its elements (ResultShapeData of result_shape.h).
 */
module ResultShapes {
  import opened Wrappers
  import opened MixedRadix

  // The extents of a cell, FORTRAN ordered. A missing row has no extents.
  type Shape = seq<nat>

  /**
   A fixed shape has the number of rows as its last extent, and may restrict how much of
   each cell is read (extents). A varying shape has the shape of every row; its ndim
   counts the row dimension and is negative if ranks differ.
   */
  datatype ResultShape =
    | Fixed(shape: Shape, extents: Option<seq<Shape>>)
    | Varying(ndim: int, rowShapes: seq<Shape>)
  {
    function NDim(): int {
      match this
      case Fixed(shape, _) => |shape|
      case Varying(ndim, _) => ndim
    }

    function ConsistentNDim(): Result<nat> {
      if NDim() >= 0 then Success(NDim()) else Failure(Invalid)
    }

    function NRows(): nat
      requires Fixed? ==> shape != []
    {
      match this
      case Fixed(shape, _) => shape[|shape| - 1]
      case Varying(_, rowShapes) => |rowShapes|
    }

    function HasCellExtents(): bool {
      Fixed? && extents.Some?
    }

    // The extents that the cell of a row occupies in the result.
    function CellShape(row: nat): Shape
      requires Fixed? ==> shape != []
      requires row < NRows()
    {
      match this
      case Fixed(shape, _) => shape[..|shape| - 1]
      case Varying(_, rowShapes) => rowShapes[row]
    }

    // Every row has a cell of the same rank, so that positions have one coordinate per dimension.
    ghost predicate WellFormed() {
      match this
      case Fixed(shape, extents) =>
        && shape != []
        && (extents.Some? ==> |extents.value| == shape[|shape| - 1]
                              && forall r :: 0 <= r < |extents.value| ==> |extents.value[r]| == |shape| - 1)
      case Varying(ndim, rowShapes) =>
        ndim >= 2 && forall r :: 0 <= r < |rowShapes| ==> |rowShapes[r]| == ndim - 1
    }
  }

  // casacore's IPosition::product, which is 0 for a shape without extents.
  function CellCount(shape: Shape): nat
  {
    if shape == [] then 0 else Product(shape)
  }

  // The position of the first element of a row among those of all rows.
  function RowOffset(rowShapes: seq<Shape>, row: nat): nat
    requires row <= |rowShapes|
  {
    if row == 0 then 0 else RowOffset(rowShapes, row - 1) + CellCount(rowShapes[row - 1])
  }

  method RowOffsets(rowShapes: seq<Shape>) returns (offsets: seq<nat>)
    ensures |offsets| == |rowShapes| + 1
    ensures forall r :: 0 <= r <= |rowShapes| ==> offsets[r] == RowOffset(rowShapes, r)
  {
    offsets := [0];
    for r := 0 to |rowShapes|
      invariant |offsets| == r + 1
      invariant forall i :: 0 <= i <= r ==> offsets[i] == RowOffset(rowShapes, i)
    {
      var next := offsets[r] + CellCount(rowShapes[r]);
      assert next == RowOffset(rowShapes, r + 1);
      offsets := offsets + [next];
    }
  }

  // The number of leading extents that the flat offset of a varying result counts.
  function CellRank(shape: Shape, ndim: nat): nat
    requires ndim > 0
  {
    if |shape| < ndim - 1 then |shape| else ndim - 1
  }

  // The flat position of an element of the result.
  function FlatPosition(result: ResultShape, index: seq<nat>): nat
    requires |index| == result.NDim() > 0
    requires result.Varying? ==> index[|index| - 1] < |result.rowShapes|
  {
    match result
    case Fixed(shape, _) => Rank(shape, index)
    case Varying(ndim, rowShapes) =>
      var row := index[ndim - 1];
      Offset(rowShapes[row], index, CellRank(rowShapes[row], ndim)) + RowOffset(rowShapes, row)
  }

  /** Flat positions by the program's loops, with or without precomputed row offsets. */
  method FlatOffset(result: ResultShape, index: seq<nat>, rowOffsets: Option<seq<nat>>) returns (offset: nat)
    requires |index| == result.NDim() > 0
    requires result.Varying? ==> index[|index| - 1] < |result.rowShapes|
    requires result.Varying? && rowOffsets.Some? ==>
               && |rowOffsets.value| == |result.rowShapes| + 1
               && forall r :: 0 <= r < |rowOffsets.value| ==> rowOffsets.value[r] == RowOffset(result.rowShapes, r)
    ensures offset == FlatPosition(result, index)
  {
    var ndim := |index|;
    var product := 1;
    offset := 0;
    if result.Fixed? {
      for d := 0 to ndim
        invariant offset == Offset(result.shape, index, d) && product == Stride(result.shape, d)
      {
        offset := offset + index[d] * product;
        product := product * result.shape[d];
      }
      return;
    }
    var row := index[ndim - 1];
    var shape := result.rowShapes[row];
    var d := 0;
    while d < |shape| && d < ndim - 1
      invariant d <= |shape| && d <= ndim - 1
      invariant offset == Offset(shape, index, d) && product == Stride(shape, d)
    {
      offset := offset + index[d] * product;
      product := product * shape[d];
      d := d + 1;
    }
    if rowOffsets.Some? {
      return offset + rowOffsets.value[row];
    }
    for r := 0 to row
      invariant offset == Offset(shape, index, CellRank(shape, ndim)) + RowOffset(result.rowShapes, r)
    {
      offset := offset + CellCount(result.rowShapes[r]);
    }
  }

  function NElements(result: ResultShape): nat
  {
    match result
    case Fixed(shape, _) => CellCount(shape)
    case Varying(_, rowShapes) => RowOffset(rowShapes, |rowShapes|)
  }

  // ----- every element has its own position, and every position an element

  ghost predicate InResult(result: ResultShape, j: seq<nat>)
    requires result.WellFormed()
  {
    && |j| == result.NDim()
    && j[|j| - 1] < result.NRows()
    && forall d :: 0 <= d < |j| - 1 ==> j[d] < result.CellShape(j[|j| - 1])[d]
  }

  lemma {:induction false} RowOffsetMonotone(rowShapes: seq<Shape>, r: nat, s: nat)
    requires r < s <= |rowShapes|
    ensures RowOffset(rowShapes, r) + CellCount(rowShapes[r]) <= RowOffset(rowShapes, s)
  {
    if r < s - 1 {
      RowOffsetMonotone(rowShapes, r, s - 1);
    }
  }

  lemma FlatPositionBound(result: ResultShape, j: seq<nat>)
    requires result.WellFormed() && InResult(result, j)
    ensures FlatPosition(result, j) < NElements(result)
  {
    match result
    case Fixed(shape, _) =>
      OffsetBound(shape, j, |shape|);
    case Varying(ndim, rowShapes) =>
      var row := j[ndim - 1];
      OffsetBound(rowShapes[row], j, ndim - 1);
      RowOffsetMonotone(rowShapes, row, |rowShapes|);
  }

  /** Two elements never share a position. */
  lemma FlatPositionInjective(result: ResultShape, j: seq<nat>, k: seq<nat>)
    requires result.WellFormed() && InResult(result, j) && InResult(result, k)
    requires FlatPosition(result, j) == FlatPosition(result, k)
    ensures j == k
  {
    match result
    case Fixed(shape, _) =>
      OffsetInjective(shape, j, k, |shape|);
    case Varying(ndim, rowShapes) =>
      var r, s := j[ndim - 1], k[ndim - 1];
      OffsetBound(rowShapes[r], j, ndim - 1);
      OffsetBound(rowShapes[s], k, ndim - 1);
      if r < s {
        RowOffsetMonotone(rowShapes, r, s);
      } else if s < r {
        RowOffsetMonotone(rowShapes, s, r);
      } else {
        OffsetInjective(rowShapes[r], j, k, ndim - 1);
      }
  }

  lemma {:induction false} RowOfPosition(rowShapes: seq<Shape>, n: nat, a: nat) returns (row: nat)
    requires n <= |rowShapes| && a < RowOffset(rowShapes, n)
    ensures row < n && RowOffset(rowShapes, row) <= a < RowOffset(rowShapes, row) + CellCount(rowShapes[row])
  {
    if RowOffset(rowShapes, n - 1) <= a {
      row := n - 1;
    } else {
      row := RowOfPosition(rowShapes, n - 1, a);
    }
  }

  /** Every position of the buffer is that of some element. */
  lemma FlatPositionSurjective(result: ResultShape, a: nat) returns (j: seq<nat>)
    requires result.WellFormed() && a < NElements(result)
    ensures InResult(result, j) && FlatPosition(result, j) == a
  {
    match result {
      case Fixed(shape, _) =>
        j := Unrank(shape, a);
        UnrankRank(shape, a);
      case Varying(ndim, rowShapes) =>
        var row := RowOfPosition(rowShapes, |rowShapes|, a);
        var k := a - RowOffset(rowShapes, row);
        var i := Unrank(rowShapes[row], k);
        UnrankRank(rowShapes[row], k);
        j := i + [row];
        OffsetCongruent(rowShapes[row], j, i, ndim - 1);
    }
  }
}
