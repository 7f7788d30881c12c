/**
 The offsets arrays that nest a flat buffer into lists, one array per dimension of a cell
 (GetOffsets of result_shape.cc; Arrow Columnar Format, Variable-size List Layout).
 */
module ListOffsets {
  import opened Wrappers
  import opened MixedRadix
  import opened ResultShapes

  // The extent of a cell; a missing cell has none in any dimension.
  function DimOf(shape: Shape, d: nat): nat
    requires shape == [] || d < |shape|
  {
    if shape == [] then 0 else shape[d]
  }

  ghost predicate AllOfRank(shapes: seq<Shape>, k: nat)
  {
    forall r :: 0 <= r < |shapes| ==> shapes[r] == [] || |shapes[r]| == k
  }

  // How many lists one cell contributes to the array of dimension d.
  function Lists(shape: Shape, k: nat, d: nat): nat
    requires d < k && (shape == [] || |shape| == k)
    decreases k - d
  {
    if d == k - 1 then 1 else Lists(shape, k, d + 1) * DimOf(shape, d + 1)
  }

  // How many lists the first r cells contribute, and how many entries those lists hold.
  function ListCount(shapes: seq<Shape>, k: nat, d: nat, r: nat): nat
    requires d < k && AllOfRank(shapes, k) && r <= |shapes|
  {
    if r == 0 then 0 else ListCount(shapes, k, d, r - 1) + Lists(shapes[r - 1], k, d)
  }

  function EntryCount(shapes: seq<Shape>, k: nat, d: nat, r: nat): nat
    requires d < k && AllOfRank(shapes, k) && r <= |shapes|
  {
    if r == 0 then 0
    else EntryCount(shapes, k, d, r - 1) + Lists(shapes[r - 1], k, d) * DimOf(shapes[r - 1], d)
  }

  // n more offsets, each of them size beyond the one before.
  function Steps(start: nat, size: nat, n: nat): (r: seq<nat>)
    ensures |r| == n
  {
    if n == 0 then [] else Steps(start, size, n - 1) + [start + n * size]
  }

  // The offsets of dimension d, over the first r cells.
  function LevelOffsets(shapes: seq<Shape>, k: nat, d: nat, r: nat): (offsets: seq<nat>)
    requires d < k && AllOfRank(shapes, k) && r <= |shapes|
    ensures |offsets| == ListCount(shapes, k, d, r) + 1
  {
    if r == 0 then [0]
    else LevelOffsets(shapes, k, d, r - 1)
         + Steps(EntryCount(shapes, k, d, r - 1), DimOf(shapes[r - 1], d), Lists(shapes[r - 1], k, d))
  }

  // ----- the program

  // The shape of every cell of the result.
  function CellShapes(result: ResultShape): (shapes: seq<Shape>)
    requires result.Fixed? ==> result.shape != []
    ensures |shapes| == result.NRows()
    ensures forall r :: 0 <= r < |shapes| ==> shapes[r] == result.CellShape(r)
  {
    seq(result.NRows(), r requires 0 <= r < result.NRows() => result.CellShape(r))
  }

  // The offsets and the running total of dimension d, over the first r cells.
  ghost predicate IsLevel(offsets: seq<nat>, running: nat, shapes: seq<Shape>, k: nat, d: nat, r: nat)
    requires d < k && AllOfRank(shapes, k) && r <= |shapes|
  {
    offsets == LevelOffsets(shapes, k, d, r) && running == EntryCount(shapes, k, d, r)
  }

  lemma LevelStep(offsets: seq<nat>, running: nat, shapes: seq<Shape>, k: nat, d: nat, r: nat, size: nat, product: nat)
    requires d < k && AllOfRank(shapes, k) && r < |shapes| && IsLevel(offsets, running, shapes, k, d, r)
    requires size == DimOf(shapes[r], d) && product == Lists(shapes[r], k, d)
    ensures IsLevel(offsets + Steps(running, size, product), running + product * size, shapes, k, d, r + 1)
    ensures d > 0 ==> product * size == Lists(shapes[r], k, d - 1)
  {
  }

  method AppendRow(shape: Shape, k: nat, builders: array<seq<nat>>, running: array<nat>, ghost shapes: seq<Shape>,
                   ghost r: nat)
    requires AllOfRank(shapes, k) && r < |shapes| && shapes[r] == shape
    requires builders.Length == running.Length == k
    requires forall d :: 0 <= d < k ==> IsLevel(builders[d], running[d], shapes, k, d, r)
    modifies builders, running
    ensures forall d :: 0 <= d < k ==> IsLevel(builders[d], running[d], shapes, k, d, r + 1)
  {
    var dim := k;
    var product := 1;
    while dim > 0
      invariant 0 <= dim <= k && (dim > 0 ==> product == Lists(shape, k, dim - 1))
      invariant forall d :: dim <= d < k ==> IsLevel(builders[d], running[d], shapes, k, d, r + 1)
      invariant forall d :: 0 <= d < dim ==> IsLevel(builders[d], running[d], shapes, k, d, r)
    {
      dim := dim - 1;
      var size := DimOf(shape, dim);
      LevelStep(builders[dim], running[dim], shapes, k, dim, r, size, product);
      AppendSteps(builders, running, dim, size, product);
      product := product * size;
    }
  }

  method AppendSteps(builders: array<seq<nat>>, running: array<nat>, dim: nat, size: nat, product: nat)
    requires dim < builders.Length == running.Length
    modifies builders, running
    ensures builders[dim] == old(builders[dim]) + Steps(old(running[dim]), size, product)
    ensures running[dim] == old(running[dim]) + product * size
    ensures forall d :: 0 <= d < builders.Length && d != dim ==>
              builders[d] == old(builders[d]) && running[d] == old(running[d])
  {
    for p := 0 to product
      invariant builders[dim] == old(builders[dim]) + Steps(old(running[dim]), size, p)
      invariant running[dim] == old(running[dim]) + p * size
      invariant forall d :: 0 <= d < builders.Length && d != dim ==>
                  builders[d] == old(builders[d]) && running[d] == old(running[d])
    {
      assert (p + 1) * size == p * size + size;
      running[dim] := running[dim] + size;
      builders[dim] := builders[dim] + [running[dim]];
    }
  }

  /** The offsets of every dimension of the cells, for a result whose cells agree in rank. */
  method GetOffsets(result: ResultShape) returns (r: Result<seq<seq<nat>>>)
    requires result.NDim() > 0 ==> AllOfRank(CellShapes(result), result.NDim() - 1)
    ensures r.Failure? <==> result.NDim() <= 0
    ensures r.Failure? ==> r.error == if result.NDim() < 0 then Invalid else NotImplemented
    ensures r.Success? ==> |r.value| == result.NDim() - 1 && AreOffsets(r.value, CellShapes(result))
  {
    var ndim := result.ConsistentNDim();
    if ndim.Failure? {
      return Failure(ndim.error);
    }
    if ndim.value == 0 {
      return Failure(NotImplemented);
    }
    var k := ndim.value - 1;
    var builders := new seq<nat>[k](_ => [0]);
    var running := new nat[k](_ => 0);
    ghost var shapes := CellShapes(result);
    for row := 0 to result.NRows()
      invariant forall d :: 0 <= d < k ==> IsLevel(builders[d], running[d], shapes, k, d, row)
    {
      AppendRow(result.CellShape(row), k, builders, running, shapes, row);
    }
    return Success(builders[..]);
  }

  // ----- where the offsets lead

  lemma {:induction false} StepAt(start: nat, size: nat, n: nat, q: nat)
    requires q < n
    ensures Steps(start, size, n)[q] == start + (q + 1) * size
  {
    if q < n - 1 {
      StepAt(start, size, n - 1, q);
    }
  }

  lemma {:induction false} ListCountMonotone(shapes: seq<Shape>, k: nat, d: nat, r: nat, s: nat)
    requires d < k && AllOfRank(shapes, k) && r <= s <= |shapes|
    ensures ListCount(shapes, k, d, r) <= ListCount(shapes, k, d, s)
    ensures LevelOffsets(shapes, k, d, r) <= LevelOffsets(shapes, k, d, s)
  {
    if r < s {
      ListCountMonotone(shapes, k, d, r, s - 1);
    }
  }

  // The last offset counts all entries.
  lemma {:induction false} LastOffset(shapes: seq<Shape>, k: nat, d: nat, r: nat)
    requires d < k && AllOfRank(shapes, k) && r <= |shapes|
    ensures LevelOffsets(shapes, k, d, r)[ListCount(shapes, k, d, r)] == EntryCount(shapes, k, d, r)
  {
    if r > 0 {
      var n := Lists(shapes[r - 1], k, d);
      LastOffset(shapes, k, d, r - 1);
      if n > 0 {
        StepAt(EntryCount(shapes, k, d, r - 1), DimOf(shapes[r - 1], d), n, n - 1);
      } else {
        assert 0 * DimOf(shapes[r - 1], d) == 0;
      }
    }
  }

  /** List q of row r begins q whole lists into the entries of the row. */
  lemma OffsetOfList(shapes: seq<Shape>, k: nat, d: nat, r: nat, q: nat)
    requires d < k && AllOfRank(shapes, k) && r < |shapes| && q <= Lists(shapes[r], k, d)
    ensures ListCount(shapes, k, d, r) + q <= ListCount(shapes, k, d, |shapes|)
    ensures LevelOffsets(shapes, k, d, |shapes|)[ListCount(shapes, k, d, r) + q]
         == EntryCount(shapes, k, d, r) + q * DimOf(shapes[r], d)
  {
    ListCountMonotone(shapes, k, d, r, |shapes|);
    ListCountMonotone(shapes, k, d, r + 1, |shapes|);
    if q == 0 {
      LastOffset(shapes, k, d, r);
    } else {
      OffsetInRow(shapes, k, d, r, q, EntryCount(shapes, k, d, r), DimOf(shapes[r], d), Lists(shapes[r], k, d));
    }
  }

  lemma OffsetInRow(shapes: seq<Shape>, k: nat, d: nat, r: nat, q: nat, start: nat, size: nat, n: nat)
    requires d < k && AllOfRank(shapes, k) && r < |shapes| && 0 < q <= n == Lists(shapes[r], k, d)
    requires start == EntryCount(shapes, k, d, r) && size == DimOf(shapes[r], d)
    ensures ListCount(shapes, k, d, r) + q <= ListCount(shapes, k, d, r + 1)
    ensures LevelOffsets(shapes, k, d, r + 1)[ListCount(shapes, k, d, r) + q] == start + q * size
  {
    var before, steps := LevelOffsets(shapes, k, d, r), Steps(start, size, n);
    StepAt(start, size, n, q - 1);
    assert LevelOffsets(shapes, k, d, r + 1) == before + steps && (before + steps)[|before| + (q - 1)] == steps[q - 1];
  }

  /** The entries of one dimension are the lists of the next; the outermost has a list per row. */
  lemma {:induction false} EntriesAreLists(shapes: seq<Shape>, k: nat, d: nat, r: nat)
    requires d < k && AllOfRank(shapes, k) && r <= |shapes|
    ensures d + 1 < k ==> EntryCount(shapes, k, d + 1, r) == ListCount(shapes, k, d, r)
    ensures d + 1 == k ==> ListCount(shapes, k, d, r) == r
  {
    if r > 0 {
      EntriesAreLists(shapes, k, d, r - 1);
    }
  }

  ghost predicate Monotone(s: seq<nat>)
  {
    forall i, j :: 0 <= i <= j < |s| ==> s[i] <= s[j]
  }

  // The sequence ascends and stays within bounds.
  ghost predicate AscendsWithin(s: seq<nat>, lo: nat, hi: nat)
  {
    Monotone(s) && forall i :: 0 <= i < |s| ==> lo <= s[i] <= hi
  }

  lemma AscendsConcat(a: seq<nat>, b: seq<nat>, lo: nat, mid: nat, hi: nat)
    requires AscendsWithin(a, lo, mid) && AscendsWithin(b, mid, hi) && lo <= mid <= hi
    ensures AscendsWithin(a + b, lo, hi)
  {
  }

  lemma {:induction false} LevelMonotone(shapes: seq<Shape>, k: nat, d: nat, r: nat)
    requires d < k && AllOfRank(shapes, k) && r <= |shapes|
    ensures AscendsWithin(LevelOffsets(shapes, k, d, r), 0, EntryCount(shapes, k, d, r))
  {
    if r > 0 {
      LevelMonotone(shapes, k, d, r - 1);
      var n, size, start := Lists(shapes[r - 1], k, d), DimOf(shapes[r - 1], d), EntryCount(shapes, k, d, r - 1);
      StepsMonotone(start, size, n);
      assert EntryCount(shapes, k, d, r) == start + n * size;
      AscendsConcat(LevelOffsets(shapes, k, d, r - 1), Steps(start, size, n), 0, start, start + n * size);
    }
  }

  lemma {:induction false} StepsMonotone(start: nat, size: nat, n: nat)
    ensures AscendsWithin(Steps(start, size, n), start, start + n * size)
  {
    if n > 0 {
      StepsMonotone(start, size, n - 1);
      assert n * size == (n - 1) * size + size;
    }
  }

  /**
   The offsets nest: each array ascends, its last offset is the number of lists in the
   array below, and the outermost has one list per row, missing rows included.
   */
  lemma OffsetsNest(shapes: seq<Shape>, k: nat, d: nat)
    requires d < k && AllOfRank(shapes, k)
    ensures var offsets := LevelOffsets(shapes, k, d, |shapes|);
            Monotone(offsets) && |offsets| > 0 && offsets[0] == 0
    ensures d + 1 == k ==> |LevelOffsets(shapes, k, d, |shapes|)| == |shapes| + 1
    ensures d + 1 < k ==>
              var above := LevelOffsets(shapes, k, d + 1, |shapes|);
              |LevelOffsets(shapes, k, d, |shapes|)| == above[|above| - 1] + 1
  {
    LevelMonotone(shapes, k, d, |shapes|);
    EntriesAreLists(shapes, k, d, |shapes|);
    ListCountMonotone(shapes, k, d, 0, |shapes|);
    if d + 1 < k {
      LastOffset(shapes, k, d + 1, |shapes|);
    }
  }

  // ----- following the offsets

  // The offsets of every dimension, as GetOffsets returns them.
  ghost predicate AreOffsets(offsets: seq<seq<nat>>, shapes: seq<Shape>)
    requires AllOfRank(shapes, |offsets|)
  {
    forall d :: 0 <= d < |offsets| ==> offsets[d] == LevelOffsets(shapes, |offsets|, d, |shapes|)
  }

  // The entry that offsets lead to from a row, choosing coordinates j along the dimensions
  // from the last down to d: at each, the list found above, and an entry of that list.
  ghost function Follow(offsets: seq<seq<nat>>, row: nat, j: seq<nat>, d: nat): Option<nat>
    requires d <= |offsets| <= |j|
    decreases |offsets| - d
  {
    if d == |offsets| then Some(row)
    else
      match Follow(offsets, row, j, d + 1)
      case None => None
      case Some(list) => if list < |offsets[d]| then Some(offsets[d][list] + j[d]) else None
  }

  // The number of the list that the coordinates from d on lead to within a cell.
  function Within(shape: Shape, j: seq<nat>, d: nat): nat
    requires d <= |shape| <= |j|
    decreases |shape| - d
  {
    if d == |shape| then 0 else j[d] + Within(shape, j, d + 1) * shape[d]
  }

  lemma {:induction false} WithinBound(shape: Shape, j: seq<nat>, d: nat)
    requires d < |shape| <= |j| && forall e :: 0 <= e < |shape| ==> j[e] < shape[e]
    ensures Within(shape, j, d + 1) < Lists(shape, |shape|, d)
    decreases |shape| - d
  {
    if d + 1 < |shape| {
      WithinBound(shape, j, d + 1);
      MulBound(Within(shape, j, d + 2), Lists(shape, |shape|, d + 1), shape[d + 1], j[d + 1]);
    }
  }

  // Horner's rule: the list numbers accumulate to the flat offset.
  lemma {:induction false} WithinIsOffset(shape: Shape, j: seq<nat>, d: nat)
    requires d <= |shape| <= |j|
    ensures Within(shape, j, d) * Stride(shape, d) + Offset(shape, j, d) == Offset(shape, j, |shape|)
    decreases |shape| - d
  {
    if d < |shape| {
      WithinIsOffset(shape, j, d + 1);
      HornerStep(Within(shape, j, d + 1), shape[d], j[d], Stride(shape, d));
    }
  }

  lemma WithinCell(shape: Shape, j: seq<nat>)
    requires |shape| <= |j|
    ensures Within(shape, j, 0) == Offset(shape, j, |shape|)
  {
    WithinIsOffset(shape, j, 0);
  }

  // The entry counted from the start of the flat array of dimension d.
  ghost function EntryOf(shapes: seq<Shape>, k: nat, row: nat, j: seq<nat>, d: nat): nat
    requires AllOfRank(shapes, k) && row < |shapes| && |shapes[row]| == k <= |j| && d <= k
  {
    if d == k then row else EntryCount(shapes, k, d, row) + Within(shapes[row], j, d)
  }

  lemma FollowStep(offsets: seq<seq<nat>>, row: nat, j: seq<nat>, d: nat, list: nat, entry: nat)
    requires d < |offsets| <= |j| && Follow(offsets, row, j, d + 1) == Some(list)
    requires list < |offsets[d]| && offsets[d][list] + j[d] == entry
    ensures Follow(offsets, row, j, d) == Some(entry)
  {
  }

  lemma EntryStep(shapes: seq<Shape>, k: nat, row: nat, j: seq<nat>, d: nat)
    requires AllOfRank(shapes, k) && row < |shapes| && |shapes[row]| == k <= |j| && d < k
    requires forall e :: 0 <= e < k ==> j[e] < shapes[row][e]
    ensures var list := EntryOf(shapes, k, row, j, d + 1);
            && list < |LevelOffsets(shapes, k, d, |shapes|)|
            && LevelOffsets(shapes, k, d, |shapes|)[list] + j[d] == EntryOf(shapes, k, row, j, d)
  {
    EntriesAreLists(shapes, k, d, row);
    WithinBound(shapes[row], j, d);
    OffsetOfList(shapes, k, d, row, Within(shapes[row], j, d + 1));
  }

  lemma {:induction false} FollowReachesEntry(shapes: seq<Shape>, offsets: seq<seq<nat>>, k: nat, row: nat,
                                              j: seq<nat>, d: nat)
    requires |offsets| == k && AllOfRank(shapes, k) && d <= k <= |j| && row < |shapes| && |shapes[row]| == k
    requires AreOffsets(offsets, shapes)
    requires forall e :: 0 <= e < k ==> j[e] < shapes[row][e]
    ensures Follow(offsets, row, j, d) == Some(EntryOf(shapes, k, row, j, d))
    decreases k - d
  {
    if d < k {
      FollowReachesEntry(shapes, offsets, k, row, j, d + 1);
      EntryStep(shapes, k, row, j, d);
      assert offsets[d] == LevelOffsets(shapes, k, d, |shapes|);
      FollowStep(offsets, row, j, d, EntryOf(shapes, k, row, j, d + 1), EntryOf(shapes, k, row, j, d));
    }
  }

  lemma {:induction false} ListsAreStrides(shape: Shape, d: nat)
    requires d < |shape|
    ensures Lists(shape, |shape|, d) * DimOf(shape, d) * Stride(shape, d) == Product(shape)
    decreases |shape| - d
  {
    if d + 1 < |shape| {
      ListsAreStrides(shape, d + 1);
      Regroup(Lists(shape, |shape|, d + 1), shape[d + 1], Stride(shape, d), shape[d]);
    }
  }

  lemma Regroup(a: nat, b: nat, s: nat, c: nat)
    ensures a * b * (s * c) == (a * b) * c * s
  {
  }

  /** The entries of the innermost dimension are the elements of the rows. */
  lemma {:induction false} EntriesAreElements(shapes: seq<Shape>, k: nat, r: nat)
    requires 0 < k && AllOfRank(shapes, k) && r <= |shapes|
    ensures EntryCount(shapes, k, 0, r) == RowOffset(shapes, r)
  {
    if r > 0 {
      EntriesAreElements(shapes, k, r - 1);
      if shapes[r - 1] != [] {
        ListsAreStrides(shapes[r - 1], 0);
      }
    }
  }

  /** Following the offsets from a row by the coordinates of a cell leads to the element's flat position. */
  lemma FollowIsRowOffset(shapes: seq<Shape>, offsets: seq<seq<nat>>, row: nat, j: seq<nat>)
    requires var k := |offsets|; 0 < k <= |j| && AllOfRank(shapes, k) && row < |shapes| && |shapes[row]| == k
    requires AreOffsets(offsets, shapes)
    requires forall e :: 0 <= e < |offsets| ==> j[e] < shapes[row][e]
    ensures Follow(offsets, row, j, 0) == Some(Offset(shapes[row], j, |offsets|) + RowOffset(shapes, row))
  {
    FollowReachesEntry(shapes, offsets, |offsets|, row, j, 0);
    EntriesAreElements(shapes, |offsets|, row);
    WithinCell(shapes[row], j);
  }

  // Cells of one shape make a fixed result.
  lemma {:induction false} EqualRowsOffset(shapes: seq<Shape>, cell: Shape, r: nat)
    requires r <= |shapes| && cell != [] && forall i :: 0 <= i < |shapes| ==> shapes[i] == cell
    ensures RowOffset(shapes, r) == r * Product(cell)
  {
    if r > 0 {
      EqualRowsOffset(shapes, cell, r - 1);
      assert r * Product(cell) == (r - 1) * Product(cell) + Product(cell);
    }
  }

  lemma FixedFlatPosition(shape: Shape, shapes: seq<Shape>, j: seq<nat>)
    requires |shape| == |j| > 1 && j[|j| - 1] < |shapes|
    requires forall i :: 0 <= i < |shapes| ==> shapes[i] == shape[..|shape| - 1]
    ensures Rank(shape, j) == Offset(shape[..|shape| - 1], j, |shape| - 1) + RowOffset(shapes, j[|j| - 1])
  {
    var k := |shape| - 1;
    var cell := shape[..k];
    EqualRowsOffset(shapes, cell, j[k]);
    OffsetSameExtents(shape, cell, j, k);
    StrideCongruent(shape, cell, k);
  }

  lemma FixedByRow(result: ResultShape, j: seq<nat>)
    requires result.Fixed? && |result.shape| == |j| > 1 && j[|j| - 1] < result.NRows()
    ensures FlatPosition(result, j)
         == Offset(result.CellShape(j[|j| - 1]), j, |j| - 1) + RowOffset(CellShapes(result), j[|j| - 1])
  {
    FixedFlatPosition(result.shape, CellShapes(result), j);
  }

  lemma VaryingByRow(result: ResultShape, j: seq<nat>)
    requires result.Varying? && result.ndim == |j| > 1 && j[|j| - 1] < |result.rowShapes|
    requires |result.rowShapes[j[|j| - 1]]| == |j| - 1
    ensures FlatPosition(result, j)
         == Offset(result.CellShape(j[|j| - 1]), j, |j| - 1) + RowOffset(CellShapes(result), j[|j| - 1])
  {
    assert CellShapes(result) == result.rowShapes;
  }

  lemma InCellOf(result: ResultShape, j: seq<nat>)
    requires result.WellFormed() && InResult(result, j) && result.NDim() > 1
    ensures |j| == result.NDim() && j[|j| - 1] < result.NRows() && |result.CellShape(j[|j| - 1])| == |j| - 1
    ensures forall e :: 0 <= e < |j| - 1 ==> j[e] < result.CellShape(j[|j| - 1])[e]
    ensures AllOfRank(CellShapes(result), |j| - 1)
  {
  }

  lemma FlatPositionInCell(result: ResultShape, j: seq<nat>, cell: Shape, offset: nat)
    requires result.WellFormed() && InResult(result, j) && result.NDim() > 1
    requires cell == result.CellShape(j[|j| - 1]) && offset == RowOffset(CellShapes(result), j[|j| - 1])
    ensures |cell| == |j| - 1 && FlatPosition(result, j) == Offset(cell, j, |cell|) + offset
  {
    InCellOf(result, j);
    if result.Fixed? {
      FixedByRow(result, j);
    } else {
      VaryingByRow(result, j);
    }
  }

  /** For fixed and for varying results alike, the nested lists hold every element where FlatOffset puts it. */
  lemma OffsetsAgreeWithFlatPosition(result: ResultShape, shapes: seq<Shape>, offsets: seq<seq<nat>>, j: seq<nat>)
    requires result.WellFormed() && InResult(result, j) && |offsets| == result.NDim() - 1 > 0
    requires shapes == CellShapes(result) && AllOfRank(shapes, |offsets|) && AreOffsets(offsets, shapes)
    ensures Follow(offsets, j[|j| - 1], j, 0) == Some(FlatPosition(result, j))
  {
    var row := j[|j| - 1];
    InCellOf(result, j);
    FollowIsRowOffset(shapes, offsets, row, j);
    FlatPositionInCell(result, j, shapes[row], RowOffset(shapes, row));
  }
}
