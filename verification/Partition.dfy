/**
 What a partition of a result must be: the disk index that a selection wants at every
 position of the result, and chunks that give each position to exactly one of them.
 */
module Partitions {
  import opened Wrappers
  import opened Selections
  import opened Spans
  import opened Cartesian
  import opened ResultShapes
  import opened Chunks

  // ----- what a selection asks for

  // The disk ids along a dimension: those selected, or else all of them in order.
  function SelectedIds(selection: Selection, d: nat, ndim: nat, size: nat): seq<int>
  {
    match selection.MaybeFSpan(d, ndim)
    case Some(span) => span
    case None => Iota(size)
  }

  // The leading extent ids, and holes for the remainder of the dimension.
  function PaddedIds(size: nat, extent: nat): (ids: seq<int>)
    ensures |ids| == size
    ensures forall k :: 0 <= k < size ==> ids[k] == if k < extent then k else -1
  {
    seq(size, k requires 0 <= k < size => if k < extent then k else -1)
  }

  // Is less of the cell of a row read than the result has room for in dimension d?
  predicate IsPadded(result: ResultShape, row: nat, d: nat)
    requires result.WellFormed() && row < result.NRows() && d < result.NDim() - 1
  {
    result.HasCellExtents() && result.extents.value[row][d] < result.CellShape(row)[d]
  }

  function CellIds(selection: Selection, result: ResultShape, row: nat, d: nat): seq<int>
    requires result.WellFormed() && row < result.NRows() && d < result.NDim() - 1
  {
    var size := result.CellShape(row)[d];
    if IsPadded(result, row, d) then PaddedIds(size, result.extents.value[row][d])
    else SelectedIds(selection, d, result.NDim(), size)
  }

  function RowIds(selection: Selection, result: ResultShape): seq<int>
    requires result.WellFormed()
  {
    SelectedIds(selection, result.NDim() - 1, result.NDim(), result.NRows())
  }

  // The contract that callers establish: a selected dimension has the size of the result.
  ghost predicate Matches(selection: Selection, result: ResultShape)
    requires result.WellFormed()
  {
    && |RowIds(selection, result)| == result.NRows()
    && (result.Fixed? ==> forall d :: 0 <= d < result.NDim() - 1 ==>
          |SelectedIds(selection, d, result.NDim(), result.shape[d])| == result.shape[d])
    && (forall r, d :: 0 <= r < result.NRows() && 0 <= d < result.NDim() - 1 ==>
          |CellIds(selection, result, r, d)| == result.CellShape(r)[d])
  }

  /** The disk index wanted at a position of the result; negative where nothing is. */
  function DiskIndex(selection: Selection, result: ResultShape, j: seq<nat>): (i: seq<int>)
    requires result.WellFormed() && Matches(selection, result) && InResult(result, j)
    ensures |i| == |j|
  {
    seq(|j|, d requires 0 <= d < |j| =>
      if d == |j| - 1 then RowIds(selection, result)[j[d]]
      else CellIds(selection, result, j[|j| - 1], d)[j[d]])
  }

  // The index that the selection has for a position along a dimension, or else the position itself;
  // and nothing beyond an extent to which the cell of the row is restricted.
  ghost predicate IsIndexFor(i: int, x: nat, span: Option<seq<int>>, extent: Option<nat>)
  {
    match extent
    case Some(n) => i == if x < n then x else -1
    case None => if span.Some? then x < |span.value| && i == span.value[x] else i == x
  }

  // The extent to which the dimension is restricted for the row, if it is.
  ghost function RestrictedTo(result: ResultShape, row: nat, d: nat): Option<nat>
    requires result.WellFormed() && row < result.NRows() && d < result.NDim()
  {
    if d < result.NDim() - 1 && result.HasCellExtents() && result.extents.value[row][d] < result.CellShape(row)[d]
    then Some(result.extents.value[row][d]) else None
  }

  /** What is wanted at a position, dimension by dimension. */
  lemma DiskIndexIsSelected(selection: Selection, result: ResultShape, j: seq<nat>, d: nat)
    requires result.WellFormed() && Matches(selection, result) && InResult(result, j) && d < |j|
    ensures IsIndexFor(DiskIndex(selection, result, j)[d], j[d], selection.MaybeFSpan(d, |j|),
                       RestrictedTo(result, j[|j| - 1], d))
  {
    if d < |j| - 1 {
      assert |CellIds(selection, result, j[|j| - 1], d)| == result.CellShape(j[|j| - 1])[d];
    }
  }

  // ----- what the chunks must be

  // Every element of the cell is an element of the result, with the disk index wanted there.
  ghost predicate CellOk(cell: Cell, selection: Selection, result: ResultShape)
    requires result.WellFormed() && Matches(selection, result)
  {
    && |cell| == result.NDim() && AllPaired(cell)
    && (forall d :: 0 <= d < |cell| ==> Injective(cell[d].mem) && IsRun(cell[d].disk, d == |cell| - 1))
    && (forall p :: InCell(p, cell) ==> ElementOk(cell, p, selection, result))
  }

  ghost predicate ElementOk(cell: Cell, p: seq<nat>, selection: Selection, result: ResultShape)
    requires result.WellFormed() && Matches(selection, result) && AllPaired(cell) && InCell(p, cell)
  {
    InResult(result, MemAt(cell, p)) && DiskAt(cell, p) == DiskIndex(selection, result, MemAt(cell, p))
  }

  // The rows of the cell are among the given ones, and its flag may be trusted.
  ghost predicate CellIn(cell: Cell, flag: bool, result: ResultShape, rows: set<nat>)
    requires result.WellFormed()
  {
    && cell != [] && (forall x :: x in LastDim(cell).mem ==> x in rows && x < result.NRows())
    && (flag && LastDim(cell).mem != [] && LastDim(cell).mem[0] < result.NRows() ==>
          SpansContiguously(cell, ChunkExtents(result, cell)))
  }

  ghost predicate CellsOk(cells: seq<Cell>, flags: seq<bool>, selection: Selection, result: ResultShape,
                          rows: set<nat>)
    requires result.WellFormed() && Matches(selection, result)
  {
    && |flags| == |cells|
    && forall i :: 0 <= i < |cells| ==>
         CellOk(cells[i], selection, result) && CellIn(cells[i], flags[i], result, rows)
  }

  // The cells give each position of the given rows to exactly one of them.
  ghost predicate Partition(cells: seq<Cell>, flags: seq<bool>, selection: Selection, result: ResultShape,
                            rows: set<nat>)
    requires result.WellFormed() && Matches(selection, result)
  {
    && CellsOk(cells, flags, selection, result, rows)
    && PairwiseSeparated(cells, |cells|)
    && (forall j :: InResult(result, j) && j[|j| - 1] in rows ==> SomeCellHolds(cells, j))
  }

  // ----- from spans that cover dimensions to cells that partition rows

  // The wanted maps of the dimensions agree with the result on the given rows.
  ghost predicate WantsAgree(want: seq<Wanted>, selection: Selection, result: ResultShape, rows: set<nat>)
    requires result.WellFormed() && Matches(selection, result)
  {
    && |want| == result.NDim()
    && (forall j :: InWant(j, want) ==> WantOk(j, want, selection, result))
    && (forall j :: InResult(result, j) && j[|j| - 1] in rows ==> InWant(j, want))
    && want != [] && WantsRows(want, rows, result.NRows())
  }

  // The rows wanted are among the given ones.
  ghost predicate WantsRows(want: seq<Wanted>, rows: set<nat>, nrows: nat)
    requires want != []
  {
    forall x :: x in want[|want| - 1] ==> x in rows && x < nrows
  }

  ghost predicate WantOk(j: seq<nat>, want: seq<Wanted>, selection: Selection, result: ResultShape)
    requires result.WellFormed() && Matches(selection, result) && InWant(j, want)
  {
    InResult(result, j) && forall d :: 0 <= d < |j| ==> want[d][j[d]] == DiskIndex(selection, result, j)[d]
  }

  ghost predicate DimRuns(dims: seq<SpanPairs>)
  {
    forall d, s :: 0 <= d < |dims| && 0 <= s < |dims[d]| ==> IsRun(dims[d][s].disk, d == |dims| - 1)
  }

  lemma ElementIsWanted(cell: Cell, want: seq<Wanted>, p: seq<nat>)
    requires CellFits(cell, want) && AllPaired(cell) && InCell(p, cell)
    ensures InWant(MemAt(cell, p), want)
    ensures forall d :: 0 <= d < |p| ==> DiskAt(cell, p)[d] == want[d][MemAt(cell, p)[d]]
  {
    var j := MemAt(cell, p);
    forall d | 0 <= d < |want|
      ensures j[d] in want[d] && DiskAt(cell, p)[d] == want[d][j[d]]
    {
      assert Fits(cell[d], want[d]);
    }
  }

  lemma ElementsAgree(cell: Cell, want: seq<Wanted>, selection: Selection, result: ResultShape, p: seq<nat>)
    requires result.WellFormed() && Matches(selection, result)
    requires CellFits(cell, want) && AllPaired(cell) && InCell(p, cell)
    requires InWant(MemAt(cell, p), want) && WantOk(MemAt(cell, p), want, selection, result)
    ensures ElementOk(cell, p, selection, result)
  {
    ElementIsWanted(cell, want, p);
    assert DiskAt(cell, p) == DiskIndex(selection, result, MemAt(cell, p));
  }

  lemma PickedSpan(cell: Cell, dims: seq<SpanPairs>, want: seq<Wanted>, d: nat)
    requires CellFits(cell, want) && |dims| == |want| && DimRuns(dims) && Picks(cell, dims, |dims|) && d < |cell|
    ensures |cell[d].disk| == |cell[d].mem| && Injective(cell[d].mem) && IsRun(cell[d].disk, d == |cell| - 1)
  {
    assert Fits(cell[d], want[d]);
    var s :| 0 <= s < |dims[d]| && dims[d][s] == cell[d];
  }

  lemma RowsOfCell(cell: Cell, want: seq<Wanted>, rows: set<nat>, nrows: nat)
    requires want != [] && CellFits(cell, want) && WantsRows(want, rows, nrows)
    ensures forall x :: x in LastDim(cell).mem ==> x in rows && x < nrows
  {
    assert Fits(LastDim(cell), want[|want| - 1]);
    forall x | x in LastDim(cell).mem
      ensures x in rows && x < nrows
    {
      assert x in want[|want| - 1];
    }
  }

  ghost predicate DimsOk(cell: Cell)
  {
    forall d :: 0 <= d < |cell| ==>
      |cell[d].disk| == |cell[d].mem| && Injective(cell[d].mem) && IsRun(cell[d].disk, d == |cell| - 1)
  }

  lemma PickedSpans(cell: Cell, dims: seq<SpanPairs>, want: seq<Wanted>)
    requires CellFits(cell, want) && |dims| == |want| && DimRuns(dims) && Picks(cell, dims, |dims|)
    ensures DimsOk(cell) && AllPaired(cell)
  {
    forall d | 0 <= d < |cell|
      ensures |cell[d].disk| == |cell[d].mem| && Injective(cell[d].mem) && IsRun(cell[d].disk, d == |cell| - 1)
    {
      PickedSpan(cell, dims, want, d);
    }
  }

  lemma CellIsOk(cell: Cell, dims: seq<SpanPairs>, want: seq<Wanted>, selection: Selection, result: ResultShape,
                 rows: set<nat>)
    requires result.WellFormed() && Matches(selection, result)
    requires WantsAgree(want, selection, result, rows) && CellFits(cell, want)
    requires |dims| == |want| && DimRuns(dims) && Picks(cell, dims, |dims|)
    ensures CellOk(cell, selection, result)
    ensures forall x :: x in LastDim(cell).mem ==> x in rows && x < result.NRows()
  {
    PickedSpans(cell, dims, want);
    assert |cell| == |want| == result.NDim() > 0;
    assert CellOk(cell, selection, result) by {
      forall p | InCell(p, cell)
        ensures ElementOk(cell, p, selection, result)
      {
        ElementIsWanted(cell, want, p);
        assert WantOk(MemAt(cell, p), want, selection, result);
        ElementsAgree(cell, want, selection, result, p);
      }
    }
    RowsOfCell(cell, want, rows, result.NRows());
  }

  // A single span in memory order is the whole dimension.
  lemma IotaSpansAll(spans: SpanPairs, want: Wanted, n: nat)
    requires CoversDim(spans, want) && |spans| == 1 && IsIota(spans[0].mem)
    requires forall x: nat :: x in want <==> x < n
    ensures |spans[0].mem| == n
  {
    var mem := spans[0].mem;
    assert Fits(spans[0], want);
    if n > 0 {
      assert Reaches(spans, n - 1);
    }
    if mem != [] {
      assert mem[|mem| - 1] in want;
    }
  }

  // Along each secondary dimension the wanted positions are those of the result.
  ghost predicate WantsExtents(want: seq<Wanted>, extents: Shape)
  {
    |want| - 1 <= |extents| && forall d: nat, x: nat :: d < |want| - 1 ==> (x in want[d] <==> x < extents[d])
  }

  lemma FlagIsSound(cell: Cell, dims: seq<SpanPairs>, want: seq<Wanted>, extents: Shape)
    requires dims != [] && CoverDims(dims, want) && Picks(cell, dims, |dims|)
    requires WantsExtents(want, extents)
    requires SecondaryContiguous(dims) && MemoryContiguous(LastDim(cell).mem)
    ensures SpansContiguously(cell, extents)
  {
    forall d | 0 <= d < |cell| - 1
      ensures IsIota(cell[d].mem) && |cell[d].mem| == extents[d]
    {
      assert cell[d] == dims[d][0];
      IotaSpansAll(dims[d], want[d], extents[d]);
    }
  }

  lemma IotaHas(mem: seq<nat>)
    requires IsIota(mem)
    ensures forall k: nat :: k < |mem| ==> k in mem
  {
    forall k: nat | k < |mem|
      ensures k in mem
    {
      assert mem[k] == k;
    }
  }

  // A span beside one that is not empty does not have all of a dimension.
  lemma SpanIsNotWhole(spans: SpanPairs, want: Wanted, extent: nat, s: nat, t: nat)
    requires CoversDim(spans, want) && (forall x: nat :: x in want <==> x < extent)
    requires s < |spans| && t < |spans| && s != t && IsIota(spans[s].mem) && spans[t].mem != []
    ensures |spans[s].mem| != extent
  {
    var mem, x := spans[s].mem, spans[t].mem[0];
    assert x < extent by {
      assert Fits(spans[t], want);
    }
    assert x !in mem by {
      assert if s < t then Apart(spans[s], spans[t]) else Apart(spans[t], spans[s]);
    }
    IotaHas(mem);
  }

  lemma WholeCellIsContiguous(cell: Cell, dims: seq<SpanPairs>, want: seq<Wanted>, extents: Shape)
    requires dims != [] && CoverDims(dims, want) && Picks(cell, dims, |dims|)
    requires WantsExtents(want, extents) && SpansContiguously(cell, extents)
    requires forall d :: 0 <= d < |dims| ==> NoneEmpty(dims[d])
    ensures SecondaryContiguous(dims)
  {
    forall d | 0 <= d < |dims| - 1
      ensures |dims[d]| == 1 && IsIota(dims[d][0].mem)
    {
      var s :| 0 <= s < |dims[d]| && dims[d][s] == cell[d];
      assert CoversDim(dims[d], want[d]);
      if |dims[d]| > 1 {
        SpanIsNotWhole(dims[d], want[d], extents[d], s, if s == 0 then 1 else 0);
      }
    }
  }

  /** A chunk is flagged exactly if it spans the leading extents of the result and consecutive rows. */
  lemma FlagIsExact(cell: Cell, dims: seq<SpanPairs>, want: seq<Wanted>, extents: Shape)
    requires dims != [] && CoverDims(dims, want) && Picks(cell, dims, |dims|)
    requires WantsExtents(want, extents) && forall d :: 0 <= d < |dims| ==> NoneEmpty(dims[d])
    ensures SecondaryContiguous(dims) && MemoryContiguous(LastDim(cell).mem) <==> SpansContiguously(cell, extents)
  {
    if SpansContiguously(cell, extents) {
      WholeCellIsContiguous(cell, dims, want, extents);
    } else if SecondaryContiguous(dims) && MemoryContiguous(LastDim(cell).mem) {
      FlagIsSound(cell, dims, want, extents);
    }
  }

  lemma CrossCellIsOk(cell: Cell, flag: bool, dims: seq<SpanPairs>, want: seq<Wanted>, selection: Selection,
                      result: ResultShape, rows: set<nat>)
    requires result.WellFormed() && Matches(selection, result)
    requires dims != [] && CoverDims(dims, want) && DimRuns(dims) && WantsAgree(want, selection, result, rows)
    requires forall x :: x in rows && x < result.NRows() ==>
               WantsExtents(want, if result.Fixed? then result.shape else result.rowShapes[x])
    requires CellFits(cell, want) && Picks(cell, dims, |dims|)
    requires flag ==> SecondaryContiguous(dims) && MemoryContiguous(LastDim(cell).mem)
    ensures CellOk(cell, selection, result) && CellIn(cell, flag, result, rows)
  {
    CellIsOk(cell, dims, want, selection, result, rows);
    if flag && LastDim(cell).mem != [] {
      assert LastDim(cell).mem[0] in LastDim(cell).mem;
      FlagIsSound(cell, dims, want, ChunkExtents(result, cell));
    }
  }

  /** Crossing spans that cover every dimension partitions the rows of the result they want. */
  lemma CrossPartitions(dims: seq<SpanPairs>, want: seq<Wanted>, flags: seq<bool>,
                        selection: Selection, result: ResultShape, rows: set<nat>)
    requires result.WellFormed() && Matches(selection, result)
    requires dims != [] && CoverDims(dims, want) && DimRuns(dims)
    requires WantsAgree(want, selection, result, rows)
    requires forall x :: x in rows && x < result.NRows() ==>
               WantsExtents(want, if result.Fixed? then result.shape else result.rowShapes[x])
    requires |flags| == |Cross(dims, |dims|)|
    requires forall i :: 0 <= i < |flags| ==> |Cross(dims, |dims|)[i]| == |dims|
    requires forall i :: 0 <= i < |flags| && flags[i] ==>
               SecondaryContiguous(dims) && MemoryContiguous(LastDim(Cross(dims, |dims|)[i]).mem)
    ensures Partition(Cross(dims, |dims|), flags, selection, result, rows)
  {
    var cells := Cross(dims, |dims|);
    CrossCoversBox(dims, want);
    forall i | 0 <= i < |cells|
      ensures CellOk(cells[i], selection, result) && CellIn(cells[i], flags[i], result, rows)
    {
      CrossMembersPick(dims, |dims|, i);
      CrossCellIsOk(cells[i], flags[i], dims, want, selection, result, rows);
    }
  }

  lemma RowsSeparate(a: Cell, b: Cell, x: set<nat>, y: set<nat>)
    requires a != [] && |a| == |b| && x !! y
    requires forall r :: r in LastDim(a).mem ==> r in x
    requires forall r :: r in LastDim(b).mem ==> r in y
    ensures Separated(a, b)
  {
    assert Apart(a[|a| - 1], b[|b| - 1]);
  }

  lemma SeparatedAppend(a: seq<Cell>, x: set<nat>, b: seq<Cell>, y: set<nat>, n: nat)
    requires PairwiseSeparated(a, |a|) && PairwiseSeparated(b, |b|) && x !! y && n > 0
    requires forall i :: 0 <= i < |a| ==> |a[i]| == n && forall r :: r in LastDim(a[i]).mem ==> r in x
    requires forall i :: 0 <= i < |b| ==> |b[i]| == n && forall r :: r in LastDim(b[i]).mem ==> r in y
    ensures PairwiseSeparated(a + b, |a + b|)
  {
    var cells := a + b;
    forall i, k | 0 <= i < k < |cells|
      ensures Separated(cells[i], cells[k])
    {
      if k < |a| {
        assert Separated(a[i], a[k]);
      } else if |a| <= i {
        assert Separated(b[i - |a|], b[k - |a|]);
      } else {
        RowsSeparate(a[i], b[k - |a|], x, y);
      }
    }
  }

  lemma HoldsInEither(a: seq<Cell>, b: seq<Cell>, j: seq<nat>)
    requires SomeCellHolds(a, j) || SomeCellHolds(b, j)
    ensures SomeCellHolds(a + b, j)
  {
    if SomeCellHolds(a, j) {
      var i :| 0 <= i < |a| && HoldsPosition(a[i], j);
      assert HoldsPosition((a + b)[i], j);
    } else {
      var i :| 0 <= i < |b| && HoldsPosition(b[i], j);
      assert HoldsPosition((a + b)[|a| + i], j);
    }
  }

  lemma CellInMore(cell: Cell, flag: bool, result: ResultShape, x: set<nat>, y: set<nat>)
    requires result.WellFormed() && CellIn(cell, flag, result, x) && x <= y
    ensures CellIn(cell, flag, result, y)
  {}

  lemma CellsAppend(a: seq<Cell>, fa: seq<bool>, x: set<nat>, b: seq<Cell>, fb: seq<bool>, y: set<nat>,
                    selection: Selection, result: ResultShape)
    requires result.WellFormed() && Matches(selection, result)
    requires CellsOk(a, fa, selection, result, x) && CellsOk(b, fb, selection, result, y)
    ensures CellsOk(a + b, fa + fb, selection, result, x + y)
  {
    forall i | 0 <= i < |a + b|
      ensures CellOk((a + b)[i], selection, result) && CellIn((a + b)[i], (fa + fb)[i], result, x + y)
    {
      if i < |a| {
        CellInMore(a[i], fa[i], result, x, x + y);
      } else {
        CellInMore(b[i - |a|], fb[i - |a|], result, y, x + y);
      }
    }
  }

  lemma PartitionSeparates(a: seq<Cell>, fa: seq<bool>, x: set<nat>, b: seq<Cell>, fb: seq<bool>, y: set<nat>,
                           selection: Selection, result: ResultShape)
    requires result.WellFormed() && Matches(selection, result) && x !! y
    requires Partition(a, fa, selection, result, x) && Partition(b, fb, selection, result, y)
    ensures PairwiseSeparated(a + b, |a + b|)
  {
    forall i | 0 <= i < |a|
      ensures |a[i]| == result.NDim() && forall r :: r in LastDim(a[i]).mem ==> r in x
    {
      assert CellOk(a[i], selection, result) && CellIn(a[i], fa[i], result, x);
    }
    forall i | 0 <= i < |b|
      ensures |b[i]| == result.NDim() && forall r :: r in LastDim(b[i]).mem ==> r in y
    {
      assert CellOk(b[i], selection, result) && CellIn(b[i], fb[i], result, y);
    }
    SeparatedAppend(a, x, b, y, result.NDim());
  }

  lemma PositionsAppend(a: seq<Cell>, fa: seq<bool>, x: set<nat>, b: seq<Cell>, fb: seq<bool>, y: set<nat>,
                        selection: Selection, result: ResultShape)
    requires result.WellFormed() && Matches(selection, result)
    requires Partition(a, fa, selection, result, x) && Partition(b, fb, selection, result, y)
    ensures forall j :: InResult(result, j) && j[|j| - 1] in x + y ==> SomeCellHolds(a + b, j)
  {
    forall j | InResult(result, j) && j[|j| - 1] in x + y
      ensures SomeCellHolds(a + b, j)
    {
      HoldsInEither(a, b, j);
    }
  }

  /** Partitions of disjoint rows, one after the other, partition all those rows. */
  lemma PartitionsAppend(a: seq<Cell>, fa: seq<bool>, x: set<nat>, b: seq<Cell>, fb: seq<bool>, y: set<nat>,
                         selection: Selection, result: ResultShape)
    requires result.WellFormed() && Matches(selection, result)
    requires Partition(a, fa, selection, result, x) && Partition(b, fb, selection, result, y) && x !! y
    ensures Partition(a + b, fa + fb, selection, result, x + y)
  {
    PartitionSeparates(a, fa, x, b, fb, y, selection, result);
    PositionsAppend(a, fa, x, b, fb, y, selection, result);
    CellsAppend(a, fa, x, b, fb, y, selection, result);
  }
}
