/** Partitioning a result into chunks (DataPartition::Make of data_partition.cc). */
module MakePartition {
  import opened Wrappers
  import opened MixedRadix
  import opened Selections
  import opened Spans
  import opened RowSplit
  import opened RowPieces
  import opened Cartesian
  import opened ResultShapes
  import opened Chunks
  import opened Partitions

  // ----- the spans of one dimension

  ghost predicate IsWithin(shape: Shape, size: nat)
  {
    forall d :: 0 <= d < |shape| ==> shape[d] <= size
  }

  method MaxDimensionSize(result: ResultShape) returns (m: nat)
    requires result.WellFormed()
    ensures result.Fixed? ==> forall d :: 0 <= d < |result.shape| ==> result.shape[d] <= m
    ensures result.NRows() <= m
    ensures forall r :: 0 <= r < result.NRows() ==> IsWithin(result.CellShape(r), m)
  {
    if result.Fixed? {
      m := MaxElement(result.shape);
      return;
    }
    m := result.NRows();
    for r := 0 to result.NRows()
      invariant result.NRows() <= m
      invariant forall s :: 0 <= s < r ==> IsWithin(result.rowShapes[s], m)
    {
      var most := MaxElement(result.rowShapes[r]);
      if most > m {
        m := most;
      }
    }
  }

  method MaxElement(shape: Shape) returns (m: nat)
    requires shape != []
    ensures m in shape && forall d :: 0 <= d < |shape| ==> shape[d] <= m
  {
    m := shape[0];
    for d := 1 to |shape|
      invariant m in shape && forall e :: 0 <= e < d ==> shape[e] <= m
    {
      if shape[d] > m {
        m := shape[d];
      }
    }
  }

  // Sorted disk and memory indices of a dimension, from the selection if it has any.
  method GetSpanPair(selection: Selection, d: nat, ndim: nat, size: nat, monotonic: seq<nat>) returns (pair: SpanPair)
    requires size <= |monotonic| && monotonic == Iota(|monotonic|)
    ensures SortedIndices(SelectedIds(selection, d, ndim, size), pair.disk, pair.mem)
  {
    var span := selection.MaybeFSpan(d, ndim);
    if span.Some? {
      var disk, mem := MakeSortedIndices(span.value);
      return SpanPair(disk, mem);
    }
    return SpanPair(monotonic[..size], monotonic[..size]);
  }

  // Sorted spans of padded dimensions, by dimension and extent.
  type SpanCache = map<(nat, nat), SpanPair>

  ghost predicate CacheOk(cache: SpanCache, sizes: Shape)
  {
    forall d: nat, extent: nat :: (d, extent) in cache ==>
      d < |sizes| && SortedIndices(PaddedIds(sizes[d], extent), cache[(d, extent)].disk, cache[(d, extent)].mem)
  }

  // The spans of a dimension without a selection: its first ids up to the extent, then holes.
  method GetPaddedSpanPair(d: nat, extent: nat, cache: SpanCache, sizes: Shape)
    returns (pair: SpanPair, after: SpanCache)
    requires d < |sizes| && extent < sizes[d] && CacheOk(cache, sizes)
    ensures SortedIndices(PaddedIds(sizes[d], extent), pair.disk, pair.mem)
    ensures CacheOk(after, sizes)
  {
    if (d, extent) in cache {
      return cache[(d, extent)], cache;
    }
    var disk, mem := MakeSortedIndices(PaddedIds(sizes[d], extent));
    pair := SpanPair(disk, mem);
    after := cache[(d, extent) := pair];
  }

  lemma SortingKeepsRepeats(ids: seq<int>, disk: seq<int>, mem: seq<nat>)
    requires SortedIndices(ids, disk, mem)
    ensures HasRepeat(disk) <==> HasRepeat(ids)
  {
    if HasRepeat(disk) {
      var i, j :| 0 <= i < j < |disk| && disk[i] == disk[j] && disk[i] >= 0;
      assert ids[mem[i]] == ids[mem[j]] && mem[i] != mem[j];
    }
    if HasRepeat(ids) {
      var x, y :| 0 <= x < y < |ids| && ids[x] == ids[y] && ids[x] >= 0;
      PermutationReaches(mem, |ids|, x);
      PermutationReaches(mem, |ids|, y);
      var i :| 0 <= i < |mem| && mem[i] == x;
      var j :| 0 <= j < |mem| && mem[j] == y;
      assert disk[i] == disk[j] && i != j;
    }
  }

  // Spans that cover the ids of a dimension, each of them holes or a run.
  ghost predicate GoodSpans(spans: SpanPairs, ids: seq<int>, entireRange: bool)
  {
    && spans != [] && CoversDim(spans, WantedIds(ids))
    && forall s :: 0 <= s < |spans| ==> IsRun(spans[s].disk, entireRange)
  }

  method CutDim(pair: SpanPair, ghost ids: seq<int>, entireRange: bool) returns (r: Result<SpanPairs>)
    requires SortedIndices(ids, pair.disk, pair.mem)
    ensures r.Failure? <==> HasRepeat(ids)
    ensures r.Failure? ==> r.error == IndexError
    ensures r.Success? ==> GoodSpans(r.value, ids, entireRange)
    ensures r.Success? ==> Joined(r.value) == pair && Paired(r.value)
    ensures r.Success? && entireRange ==> HolesThenRun(r.value)
  {
    SortingKeepsRepeats(ids, pair.disk, pair.mem);
    r := MakeSubSpans(pair.disk, pair.mem, entireRange);
    if r.Success? {
      TilesCover(r.value, ids, pair.disk, pair.mem);
      TilesJoin(r.value, pair.disk, pair.mem);
      if entireRange {
        RowsAreOneRun(r.value, pair.disk, pair.mem);
      }
    }
  }

  // At most one span of rows to read, after at most one of holes.
  ghost predicate HolesThenRun(spans: SpanPairs)
  {
    |spans| == 1 || (|spans| == 2 && !IsRead(spans[0]) && IsRead(spans[1]))
  }

  lemma NoLaterCut(disk: seq<int>, i: nat, k: nat)
    requires Ascending(disk) && CutAt(disk, i, true) && i < k < |disk|
    ensures !CutAt(disk, k, true)
  {
    assert disk[i] <= disk[k - 1];
  }

  // Rows are only cut where the holes end, so that gaps between them stay in one span.
  lemma RowsAreOneRun(spans: SpanPairs, disk: seq<int>, mem: seq<nat>)
    requires spans != [] && Ascending(disk) && Collected(spans, disk, mem, |disk|, true)
    ensures HolesThenRun(spans)
  {
    if |spans| > 1 {
      assert CutAt(disk, Start(spans, 1), true);
      assert Start(spans, 0) == 0 && Start(spans, 1) == |spans[0].mem|;
      assert HoldsStretch(spans[0], 0, disk, mem) && HoldsStretch(spans[1], Start(spans, 1), disk, mem);
      if |spans| > 2 {
        NoLaterCut(disk, Start(spans, 1), Start(spans, 2));
        assert false;
      }
    }
  }

  // ----- splitting the rows

  lemma {:induction false} ReadRowsWithin(spans: SpanPairs, s: nat)
    requires RunsOnly(spans) && s <= |spans|
    ensures |ReadRows(spans, s)| <= Start(spans, s)
  {
    if s > 0 {
      ReadRowsWithin(spans, s - 1);
    }
  }

  lemma SplitIsGood(spans: SpanPairs, ends: seq<nat>, ids: seq<int>, pair: SpanPair)
    requires SortedIndices(ids, pair.disk, pair.mem) && Joined(spans) == pair && RunsOnly(spans)
    requires AreEnds(ends, |ReadRows(spans, |spans|)|)
    ensures GoodSpans(CutSpans(spans, 0, 0, ends), ids, true)
  {
    var pieces := CutSpans(spans, 0, 0, ends);
    SplitKeepsRows(spans, ends);
    JoinedTiles(pieces);
    TilesCover(pieces, ids, pair.disk, pair.mem);
    ReadRowsWithin(spans, |spans|);
    UpToLength(spans, |spans|);
  }

  // The rows are split exactly if more than one piece is asked for and afforded.
  ghost predicate IsRowSplit(spans: SpanPairs, result: SpanPairs, options: RowSplitOptions, rowBytes: nat)
    requires RunsOnly(spans)
  {
    var rows := ReadRows(spans, |spans|);
    var nsplits := SplitCount(options, |rows|, rowBytes);
    if options.maxSplits > 1 && nsplits > 1 then
      IsSplit(spans, result, nsplits, options.unitStart)
    else result == spans
  }

  // Splits the rows if more than one piece is asked for and each would have enough bytes.
  method SplitRows(spans: SpanPairs, options: RowSplitOptions, rowBytes: nat, ghost ids: seq<int>, ghost pair: SpanPair)
    returns (result: SpanPairs)
    requires SortedIndices(ids, pair.disk, pair.mem) && Joined(spans) == pair && Paired(spans)
    requires GoodSpans(spans, ids, true)
    ensures GoodSpans(result, ids, true)
    ensures IsRowSplit(spans, result, options, rowBytes)
  {
    result := spans;
    if options.maxSplits > 1 {
      var nrows := |ReadRows(spans, |spans|)|;
      var nsplits := SplitCount(options, nrows, rowBytes);
      if nsplits > 1 {
        result := SplitRowSpans(spans, nsplits, options.unitStart);
        ghost var ends :| ArePieceEnds(ends, ReadRows(spans, |spans|), nsplits, options.unitStart)
                          && result == CutSpans(spans, 0, 0, ends);
        SplitIsGood(spans, ends, ids, pair);
      }
    }
  }

  // ----- a result of fixed shape

  function FixedIds(selection: Selection, result: ResultShape, d: nat): seq<int>
    requires result.Fixed? && d < |result.shape|
  {
    SelectedIds(selection, d, |result.shape|, result.shape[d])
  }

  ghost function FixedWant(selection: Selection, result: ResultShape): (want: seq<Wanted>)
    requires result.Fixed?
    ensures |want| == |result.shape|
    ensures forall d :: 0 <= d < |want| ==> want[d] == WantedIds(FixedIds(selection, result, d))
  {
    seq(|result.shape|, d requires 0 <= d < |result.shape| => WantedIds(FixedIds(selection, result, d)))
  }

  ghost predicate GoodDims(dims: seq<SpanPairs>, selection: Selection, result: ResultShape)
    requires result.Fixed?
  {
    && |dims| <= |result.shape|
    && forall d :: 0 <= d < |dims| ==>
         GoodSpans(dims[d], FixedIds(selection, result, d), d == |result.shape| - 1)
  }

  ghost predicate FixedRepeats(selection: Selection, result: ResultShape)
    requires result.Fixed?
  {
    exists d :: 0 <= d < |result.shape| && HasRepeat(FixedIds(selection, result, d))
  }

  // The number of elements selected by the first d dimensions.
  ghost function SelectedCount(selection: Selection, result: ResultShape, d: nat): nat
    requires result.Fixed? && d <= |result.shape|
  {
    if d == 0 then 1 else SelectedCount(selection, result, d - 1) * |FixedIds(selection, result, d - 1)|
  }

  // The bytes of the elements selected by the first d dimensions.
  ghost function RowBytes(selection: Selection, result: ResultShape, elementBytes: nat, d: nat): nat
    requires result.Fixed? && d <= |result.shape|
  {
    elementBytes * SelectedCount(selection, result, d)
  }

  /** Dimensions with the sizes of the result select as many elements as it has in them. */
  lemma {:induction false} SelectedCountIsProduct(selection: Selection, result: ResultShape, d: nat)
    requires result.Fixed? && d <= |result.shape|
    requires forall e :: 0 <= e < d ==> |FixedIds(selection, result, e)| == result.shape[e]
    ensures SelectedCount(selection, result, d) == Stride(result.shape, d)
  {
    if d > 0 {
      SelectedCountIsProduct(selection, result, d - 1);
    }
  }

  lemma Associate(a: nat, b: nat, c: nat)
    ensures a * b * c == a * (b * c)
  {
  }

  lemma {:induction false} SpanTotalIsLength(spans: SpanPairs, s: nat)
    requires s <= |spans|
    ensures SpanTotal(spans, s) == |DiskUpTo(spans, s)|
  {
    if s > 0 {
      SpanTotalIsLength(spans, s - 1);
    }
  }

  // The spans of the rows before they are split: holes and one run, cover the selected rows.
  ghost predicate RowsAre(spans: SpanPairs, rows: SpanPairs, selection: Selection, result: ResultShape,
                          options: RowSplitOptions, elementBytes: nat)
    requires result.Fixed? && result.WellFormed()
  {
    var rowDim := |result.shape| - 1;
    && RunsOnly(spans) && HolesThenRun(spans) && GoodSpans(spans, FixedIds(selection, result, rowDim), true)
    && IsRowSplit(spans, rows, options, RowBytes(selection, result, elementBytes, rowDim))
  }

  // The run of rows that are read, cut into pieces; the holes before it stay whole.
  ghost predicate ArePieces(spans: SpanPairs, rows: SpanPairs, ends: seq<nat>)
    requires spans != [] && RunsOnly(spans)
  {
    var run := spans[|spans| - 1];
    EndsWithin(ends, |run.disk|) && rows == spans[..|spans| - 1] + PiecesFrom(run, ends, 0)
  }

  /** When rows are split, they are one run cut at the piece ends, each piece becoming a span of its own. */
  lemma SplitRowsArePieces(spans: SpanPairs, rows: SpanPairs, options: RowSplitOptions,
                           rowBytes: nat) returns (ends: seq<nat>)
    requires RunsOnly(spans) && HolesThenRun(spans) && IsRowSplit(spans, rows, options, rowBytes)
    requires options.maxSplits > 1 && SplitCount(options, |ReadRows(spans, |spans|)|, rowBytes) > 1
    ensures IsRead(spans[|spans| - 1]) && ReadRows(spans, |spans|) == AsRows(spans[|spans| - 1].disk)
    ensures ArePieceEnds(ends, ReadRows(spans, |spans|), SplitCount(options, |ReadRows(spans, |spans|)|, rowBytes),
          options.unitStart)
    ensures ArePieces(spans, rows, ends)
    ensures AscendingRows(ReadRows(spans, |spans|))
  {
    var read := ReadRows(spans, |spans|);
    ends :| ArePieceEnds(ends, read, SplitCount(options, |read|, rowBytes), options.unitStart)
        && rows == CutSpans(spans, 0, 0, ends);
    RunIsRead(spans);
    RunIsCut(spans, ends);
  }

  /**
   Without units the read rows become exactly the pieces asked for, whose sizes differ by at most one
   row, and each of which has more bytes than the minimum less one row.
   */
  lemma EvenPieces(spans: SpanPairs, rows: SpanPairs, options: RowSplitOptions, rowBytes: nat, ends: seq<nat>, k: nat)
    requires RunsOnly(spans) && HolesThenRun(spans) && ArePieces(spans, rows, ends)
    requires IsRead(spans[|spans| - 1]) && ReadRows(spans, |spans|) == AsRows(spans[|spans| - 1].disk)
    requires options.unitStart.None? && SplitCount(options, |ReadRows(spans, |spans|)|, rowBytes) > 1
    requires ArePieceEnds(ends, ReadRows(spans, |spans|), SplitCount(options, |ReadRows(spans, |spans|)|, rowBytes),
          None)
    requires k < SplitCount(options, |ReadRows(spans, |spans|)|, rowBytes)
    ensures var nrows := |ReadRows(spans, |spans|)|; |rows| == |spans| - 1 + SplitCount(options, nrows, rowBytes)
    ensures EvenPiece(|rows[|spans| - 1 + k].disk|, options, |ReadRows(spans, |spans|)|, rowBytes)
  {
    var nrows, last := |ReadRows(spans, |spans|)|, |spans| - 1;
    var nsplits := SplitCount(options, nrows, rowBytes);
    PieceLength(spans, rows, ends, k);
    EvenPieceEnds(ends, nrows, nsplits, k);
    SizeOfEvenPiece(options, nrows, rowBytes, k, ends[k] - PieceBegin(ends, k));
  }

  lemma PieceLength(spans: SpanPairs, rows: SpanPairs, ends: seq<nat>, k: nat)
    requires spans != [] && RunsOnly(spans) && ArePieces(spans, rows, ends) && k < |ends|
    ensures |rows| == |spans| - 1 + |ends|
    ensures |rows[|spans| - 1 + k].disk| == ends[k] - PieceBegin(ends, k)
  {
    PieceAt(spans[|spans| - 1], ends, 0, k);
  }

  lemma EvenPieceEnds(ends: seq<nat>, nrows: nat, nsplits: nat, k: nat)
    requires 0 < nsplits && IsEven(ends, nrows, nsplits) && k < |ends|
    ensures PieceBegin(ends, k) == EvenBoundary(nrows, nsplits, k) && ends[k] == EvenBoundary(nrows, nsplits, k + 1)
  {
    assert k == 0 ==> EvenBoundary(nrows, nsplits, 0) == 0;
  }

  lemma SizeOfEvenPiece(options: RowSplitOptions, nrows: nat, rowBytes: nat, k: nat, size: nat)
    requires SplitCount(options, nrows, rowBytes) > 1 && k < SplitCount(options, nrows, rowBytes)
    requires size == EvenBoundary(nrows, SplitCount(options, nrows, rowBytes), k + 1)
                     - EvenBoundary(nrows, SplitCount(options, nrows, rowBytes), k)
    ensures EvenPiece(size, options, nrows, rowBytes)
  {
    EvenPieceSizes(options, nrows, rowBytes, k + 1);
  }

  ghost predicate EvenPiece(size: nat, options: RowSplitOptions, nrows: nat, rowBytes: nat)
    requires SplitCount(options, nrows, rowBytes) > 0
  {
    var least := nrows / SplitCount(options, nrows, rowBytes);
    && least <= size <= least + 1
    && (options.minBytes > 0 ==> size * rowBytes + rowBytes > options.minBytes)
  }

  lemma RunIsRead(spans: SpanPairs)
    requires RunsOnly(spans) && HolesThenRun(spans) && |ReadRows(spans, |spans|)| > 0
    ensures IsRead(spans[|spans| - 1]) && ReadRows(spans, |spans|) == AsRows(spans[|spans| - 1].disk)
    ensures AscendingRows(ReadRows(spans, |spans|))
  {
    var last := |spans| - 1;
    HolesAreNotRead(spans);
    assert ReadRows(spans, |spans|)
          == ReadRows(spans, last) + if IsRead(spans[last]) then AsRows(spans[last].disk) else [];
    assert IsRun(spans[last].disk, true);
  }

  lemma HolesAreNotRead(spans: SpanPairs)
    requires RunsOnly(spans) && HolesThenRun(spans)
    ensures ReadRows(spans, |spans| - 1) == []
  {
    assert ReadRows(spans, 0) == [];
  }

  lemma RunIsCut(spans: SpanPairs, ends: seq<nat>)
    requires RunsOnly(spans) && HolesThenRun(spans) && IsRead(spans[|spans| - 1])
    requires AreEnds(ends, |ReadRows(spans, |spans|)|)
    ensures ArePieces(spans, CutSpans(spans, 0, 0, ends), ends)
  {
    SplitOfSingleSpan(spans, ends);
  }

  // The spans of the first d dimensions, none of which repeats an id, and the bytes of a row over them.
  ghost predicate SecondaryDone(dims: seq<SpanPairs>, rowBytes: nat, selection: Selection, result: ResultShape,
                                elementBytes: nat, d: nat)
    requires result.Fixed? && d <= |result.shape|
  {
    && |dims| == d && GoodDims(dims, selection, result)
    && rowBytes == RowBytes(selection, result, elementBytes, d)
    && forall e :: 0 <= e < d ==> !HasRepeat(FixedIds(selection, result, e))
  }

  lemma SecondaryStep(dims: seq<SpanPairs>, rowBytes: nat, selection: Selection, result: ResultShape,
                      elementBytes: nat, spans: SpanPairs, pair: SpanPair, total: nat)
    requires result.Fixed? && |dims| < |result.shape| - 1
    requires SecondaryDone(dims, rowBytes, selection, result, elementBytes, |dims|)
    requires SortedIndices(FixedIds(selection, result, |dims|), pair.disk, pair.mem)
    requires !HasRepeat(FixedIds(selection, result, |dims|))
    requires GoodSpans(spans, FixedIds(selection, result, |dims|), false) && Joined(spans) == pair
    requires total == SpanTotal(spans, |spans|)
    ensures SecondaryDone(dims + [spans], rowBytes * total, selection, result, elementBytes, |dims| + 1)
  {
    SpanTotalIsLength(spans, |spans|);
    RowBytesStep(selection, result, elementBytes, |dims|, rowBytes, total);
    DimsAppend(dims, spans, selection, result);
  }

  lemma RowBytesStep(selection: Selection, result: ResultShape, elementBytes: nat, d: nat, rowBytes: nat, total: nat)
    requires result.Fixed? && d < |result.shape| && total == |FixedIds(selection, result, d)|
    requires rowBytes == RowBytes(selection, result, elementBytes, d)
    ensures rowBytes * total == RowBytes(selection, result, elementBytes, d + 1)
  {
    Associate(elementBytes, SelectedCount(selection, result, d), total);
  }

  lemma DimsAppend(dims: seq<SpanPairs>, spans: SpanPairs, selection: Selection, result: ResultShape)
    requires result.Fixed? && |dims| < |result.shape| && GoodDims(dims, selection, result)
    requires GoodSpans(spans, FixedIds(selection, result, |dims|), |dims| == |result.shape| - 1)
    ensures GoodDims(dims + [spans], selection, result)
  {
    forall d | 0 <= d <= |dims|
      ensures GoodSpans((dims + [spans])[d], FixedIds(selection, result, d), d == |result.shape| - 1)
    {
    }
  }

  // The spans of all dimensions but the rows, and the bytes of a row.
  method SecondaryDims(selection: Selection, result: ResultShape, elementBytes: nat, monotonic: seq<nat>)
    returns (r: Result<(seq<SpanPairs>, nat)>)
    requires result.Fixed? && result.WellFormed() && monotonic == Iota(|monotonic|)
    requires forall d :: 0 <= d < |result.shape| ==> result.shape[d] <= |monotonic|
    ensures r.Failure? ==> r.error == IndexError && FixedRepeats(selection, result)
    ensures r.Success? ==> SecondaryDone(r.value.0, r.value.1, selection, result, elementBytes, |result.shape| - 1)
  {
    var rowDim := |result.shape| - 1;
    var dims: seq<SpanPairs> := [];
    var rowBytes: nat := elementBytes;
    for d := 0 to rowDim
      invariant SecondaryDone(dims, rowBytes, selection, result, elementBytes, d)
    {
      var pair := GetSpanPair(selection, d, |result.shape|, result.shape[d], monotonic);
      var spans := CutDim(pair, FixedIds(selection, result, d), false);
      if spans.Failure? {
        return Failure(spans.error);
      }
      var dimSize := SpanTotal(spans.value, |spans.value|);
      SecondaryStep(dims, rowBytes, selection, result, elementBytes, spans.value, pair, dimSize);
      dims := dims + [spans.value];
      rowBytes := rowBytes * dimSize;
    }
    return Success((dims, rowBytes));
  }

  // The spans of the rows, split if the bytes of a row allow.
  method RowSpans(selection: Selection, result: ResultShape, options: RowSplitOptions, elementBytes: nat,
                  rowBytes: nat, monotonic: seq<nat>)
    returns (r: Result<SpanPairs>, ghost rowSpans: SpanPairs)
    requires result.Fixed? && result.WellFormed() && monotonic == Iota(|monotonic|) && result.NRows() <= |monotonic|
    requires rowBytes == RowBytes(selection, result, elementBytes, |result.shape| - 1)
    ensures r.Failure? <==> HasRepeat(FixedIds(selection, result, |result.shape| - 1))
    ensures r.Failure? ==> r.error == IndexError
    ensures r.Success? ==> GoodSpans(r.value, FixedIds(selection, result, |result.shape| - 1), true)
    ensures r.Success? ==> RowsAre(rowSpans, r.value, selection, result, options, elementBytes)
  {
    var rowDim := |result.shape| - 1;
    ghost var ids := FixedIds(selection, result, rowDim);
    var pair := GetSpanPair(selection, rowDim, |result.shape|, result.shape[rowDim], monotonic);
    var spans := CutDim(pair, ids, true);
    if spans.Failure? {
      return Failure(spans.error), [];
    }
    var rows := SplitRows(spans.value, options, rowBytes, ids, pair);
    return Success(rows), spans.value;
  }

  // The cells have these row spans, and no others.
  ghost predicate HaveRows(cells: seq<Cell>, rows: SpanPairs)
  {
    && (forall i :: 0 <= i < |cells| ==> cells[i] != [] && LastDim(cells[i]) in rows)
    && forall span :: span in rows ==> HasRowSpan(cells, span)
  }

  ghost predicate HasRowSpan(cells: seq<Cell>, span: SpanPair)
  {
    exists i :: 0 <= i < |cells| && cells[i] != [] && LastDim(cells[i]) == span
  }

  // The rows of the cells are the run of selected rows, split as the options ask.
  ghost predicate RowsAreSplit(cells: seq<Cell>, selection: Selection, result: ResultShape, options: RowSplitOptions,
                               elementBytes: nat)
    requires result.Fixed? && result.WellFormed()
  {
    exists spans, rows :: RowsAre(spans, rows, selection, result, options, elementBytes) && HaveRows(cells, rows)
  }

  // A cell of the product with the row span.
  lemma CellOfRowSpan(dims: seq<SpanPairs>, span: SpanPair) returns (i: nat)
    requires dims != [] && (forall d :: 0 <= d < |dims| ==> dims[d] != []) && span in dims[|dims| - 1]
    ensures i < |Cross(dims, |dims|)| && |Cross(dims, |dims|)[i]| == |dims| && LastDim(Cross(dims, |dims|)[i]) == span
  {
    var last := |dims| - 1;
    var cell := seq(|dims|, d requires 0 <= d < |dims| => if d == last then span else dims[d][0]);
    assert Picks(cell, dims, |dims|);
    CrossIsAllPicks(dims, cell);
    i :| 0 <= i < |Cross(dims, |dims|)| && Cross(dims, |dims|)[i] == cell;
  }

  lemma RowSpanOfCell(dims: seq<SpanPairs>, i: nat)
    requires dims != [] && i < |Cross(dims, |dims|)|
    ensures Cross(dims, |dims|)[i] != [] && LastDim(Cross(dims, |dims|)[i]) in dims[|dims| - 1]
  {
    CrossMembersPick(dims, |dims|, i);
  }

  lemma CrossHasRows(dims: seq<SpanPairs>, cells: seq<Cell>)
    requires dims != [] && (forall d :: 0 <= d < |dims| ==> dims[d] != []) && cells == Cross(dims, |dims|)
    ensures HaveRows(cells, dims[|dims| - 1])
  {
    forall i | 0 <= i < |cells|
      ensures cells[i] != [] && LastDim(cells[i]) in dims[|dims| - 1]
    {
      RowSpanOfCell(dims, i);
    }
    forall span | span in dims[|dims| - 1]
      ensures HasRowSpan(cells, span)
    {
      var i := CellOfRowSpan(dims, span);
    }
  }

  lemma CrossIsSplit(spans: SpanPairs, dims: seq<SpanPairs>, rows: SpanPairs, selection: Selection,
                     result: ResultShape, options: RowSplitOptions, elementBytes: nat)
    requires result.Fixed? && result.WellFormed() && dims != [] && (forall d :: 0 <= d < |dims| ==> dims[d] != [])
    requires dims[|dims| - 1] == rows && RowsAre(spans, rows, selection, result, options, elementBytes)
    ensures RowsAreSplit(Cross(dims, |dims|), selection, result, options, elementBytes)
  {
    CrossHasRows(dims, Cross(dims, |dims|));
  }

  lemma GoodDimsCover(dims: seq<SpanPairs>, selection: Selection, result: ResultShape)
    requires result.Fixed? && |dims| == |result.shape| && GoodDims(dims, selection, result)
    ensures CoverDims(dims, FixedWant(selection, result)) && DimRuns(dims)
    ensures forall d :: 0 <= d < |dims| ==> dims[d] != []
  {
    forall d | 0 <= d < |dims|
      ensures CoversDim(dims[d], FixedWant(selection, result)[d]) && dims[d] != []
    {
      assert GoodSpans(dims[d], FixedIds(selection, result, d), d == |result.shape| - 1);
    }
    forall d, s | 0 <= d < |dims| && 0 <= s < |dims[d]|
      ensures IsRun(dims[d][s].disk, d == |dims| - 1)
    {
      assert GoodSpans(dims[d], FixedIds(selection, result, d), d == |result.shape| - 1);
    }
  }

  lemma DimsAreGood(dims: seq<SpanPairs>, selection: Selection, result: ResultShape)
    requires result.Fixed? && |dims| == |result.shape| && GoodDims(dims, selection, result)
    ensures forall d :: 0 <= d < |dims| ==> dims[d] != []
  {
    GoodDimsCover(dims, selection, result);
  }

  method FixedDims(selection: Selection, result: ResultShape, options: RowSplitOptions, elementBytes: nat)
    returns (r: Result<seq<SpanPairs>>)
    requires result.Fixed? && result.WellFormed()
    ensures r.Failure? <==> FixedRepeats(selection, result)
    ensures r.Failure? ==> r.error == IndexError
    ensures r.Success? ==> |r.value| == |result.shape| && GoodDims(r.value, selection, result)
    ensures r.Success? ==> RowsAreSplit(Cross(r.value, |r.value|), selection, result, options, elementBytes)
  {
    var size := MaxDimensionSize(result);
    var monotonic := Iota(size);
    var secondary := SecondaryDims(selection, result, elementBytes, monotonic);
    if secondary.Failure? {
      return Failure(secondary.error);
    }
    var (dims, rowBytes) := secondary.value;
    var rows, rowSpans := RowSpans(selection, result, options, elementBytes, rowBytes, monotonic);
    if rows.Failure? {
      return Failure(rows.error);
    }
    AllDims(dims, rowBytes, rows.value, selection, result, elementBytes);
    DimsAreGood(dims + [rows.value], selection, result);
    CrossIsSplit(rowSpans, dims + [rows.value], rows.value, selection, result, options, elementBytes);
    return Success(dims + [rows.value]);
  }

  lemma AllDims(dims: seq<SpanPairs>, rowBytes: nat, rows: SpanPairs, selection: Selection, result: ResultShape,
                elementBytes: nat)
    requires result.Fixed? && result.WellFormed()
    requires SecondaryDone(dims, rowBytes, selection, result, elementBytes, |result.shape| - 1)
    requires GoodSpans(rows, FixedIds(selection, result, |result.shape| - 1), true)
    requires !HasRepeat(FixedIds(selection, result, |result.shape| - 1))
    ensures |dims| + 1 == |result.shape| && GoodDims(dims + [rows], selection, result)
    ensures !FixedRepeats(selection, result)
  {
    DimsAppend(dims, rows, selection, result);
  }

  lemma FixedWantsAgree(selection: Selection, result: ResultShape)
    requires result.Fixed? && !result.HasCellExtents() && result.WellFormed() && Matches(selection, result)
    ensures WantsAgree(FixedWant(selection, result), selection, result, Numbers(result.NRows()))
    ensures WantsExtents(FixedWant(selection, result), result.shape)
  {
    var want := FixedWant(selection, result);
    forall j | InWant(j, want)
      ensures WantOk(j, want, selection, result)
    {
      FixedWantAt(selection, result, j);
    }
    forall j | InResult(result, j)
      ensures InWant(j, want)
    {
      FixedWantReaches(selection, result, j);
    }
    FixedWantExtents(selection, result);
  }

  lemma FixedWantExtents(selection: Selection, result: ResultShape)
    requires result.Fixed? && !result.HasCellExtents() && result.WellFormed() && Matches(selection, result)
    ensures WantsExtents(FixedWant(selection, result), result.shape)
    ensures forall x :: x in FixedWant(selection, result)[|result.shape| - 1] ==>
              x in Numbers(result.NRows()) && x < result.NRows()
  {
    var want := FixedWant(selection, result);
    forall d: nat, x: nat | d < |want|
      ensures x in want[d] <==> x < result.shape[d]
    {
      assert |FixedIds(selection, result, d)| == result.shape[d];
    }
  }

  lemma FixedWantAt(selection: Selection, result: ResultShape, j: seq<nat>)
    requires result.Fixed? && !result.HasCellExtents() && result.WellFormed() && Matches(selection, result)
    requires InWant(j, FixedWant(selection, result))
    ensures WantOk(j, FixedWant(selection, result), selection, result)
  {
    var want := FixedWant(selection, result);
    assert forall d :: 0 <= d < |want| ==> j[d] in want[d];
  }

  lemma FixedWantReaches(selection: Selection, result: ResultShape, j: seq<nat>)
    requires result.Fixed? && !result.HasCellExtents() && result.WellFormed() && Matches(selection, result)
    requires InResult(result, j)
    ensures InWant(j, FixedWant(selection, result))
  {
  }

  // Whether or not the selection has the sizes of the result, the cells hold the ids selected:
  // as many elements as there are combinations of them, and rows among the selected ones.
  ghost predicate HoldsSelected(cells: seq<Cell>, selection: Selection, result: ResultShape)
    requires result.Fixed? && result.WellFormed()
  {
    && (forall i :: 0 <= i < |cells| ==> HoldsIds(cells[i], selection, result))
    && CellsTotal(cells, |cells|) == SelectedCount(selection, result, |result.shape|)
  }

  ghost predicate HoldsIds(cell: Cell, selection: Selection, result: ResultShape)
    requires result.Fixed? && result.WellFormed()
  {
    && |cell| == result.NDim() && AllPaired(cell)
    && forall x :: x in LastDim(cell).disk ==> x in RowIds(selection, result)
  }

  lemma SelectedIsResult(selection: Selection, result: ResultShape)
    requires result.Fixed? && result.WellFormed() && Matches(selection, result)
    ensures SelectedCount(selection, result, |result.shape|) == NElements(result)
  {
    assert forall d :: 0 <= d < |result.shape| ==> |FixedIds(selection, result, d)| == result.shape[d];
    SelectedCountIsProduct(selection, result, |result.shape|);
  }

  lemma {:induction false} GoodDimsTotal(dims: seq<SpanPairs>, selection: Selection, result: ResultShape, d: nat)
    requires result.Fixed? && d <= |dims| <= |result.shape| && GoodDims(dims, selection, result)
    ensures DimsTotal(dims, d) == SelectedCount(selection, result, d)
  {
    if d > 0 {
      GoodDimsTotal(dims, selection, result, d - 1);
      assert GoodSpans(dims[d - 1], FixedIds(selection, result, d - 1), d - 1 == |result.shape| - 1);
      CoverTotal(dims[d - 1], FixedIds(selection, result, d - 1));
    }
  }

  lemma PickHoldsIds(cell: Cell, dims: seq<SpanPairs>, selection: Selection, result: ResultShape)
    requires result.Fixed? && result.WellFormed() && |dims| == |result.shape| && GoodDims(dims, selection, result)
    requires Picks(cell, dims, |dims|)
    ensures HoldsIds(cell, selection, result)
  {
    GoodDimsCover(dims, selection, result);
    CellPicksFit(cell, dims, FixedWant(selection, result));
    forall d | 0 <= d < |cell|
      ensures |cell[d].disk| == |cell[d].mem|
    {
      assert Fits(cell[d], FixedWant(selection, result)[d]);
    }
    var last := |cell| - 1;
    assert Fits(cell[last], WantedIds(RowIds(selection, result)));
  }

  lemma CrossHoldsSelected(dims: seq<SpanPairs>, selection: Selection, result: ResultShape)
    requires result.Fixed? && result.WellFormed() && |dims| == |result.shape| && GoodDims(dims, selection, result)
    ensures HoldsSelected(Cross(dims, |dims|), selection, result)
  {
    var cells := Cross(dims, |dims|);
    forall i | 0 <= i < |cells|
      ensures HoldsIds(cells[i], selection, result)
    {
      CrossMembersPick(dims, |dims|, i);
      PickHoldsIds(cells[i], dims, selection, result);
    }
    CrossTotal(dims, |dims|);
    GoodDimsTotal(dims, selection, result, |dims|);
  }

  /** Without units every chunk of rows that are read, if there is more than one, is an even piece. */
  lemma SplitChunksAreEven(spans: SpanPairs, rows: SpanPairs, selection: Selection, result: ResultShape,
                           options: RowSplitOptions, elementBytes: nat, span: SpanPair)
    requires result.Fixed? && result.WellFormed() && options.maxSplits > 1 && options.unitStart.None?
    requires RowsAre(spans, rows, selection, result, options, elementBytes) && span in rows && IsRead(span)
    requires SplitCount(options, |ReadRows(spans, |spans|)|,
                        RowBytes(selection, result, elementBytes, |result.shape| - 1)) > 1
    ensures EvenPiece(|span.disk|, options, |ReadRows(spans, |spans|)|,
                      RowBytes(selection, result, elementBytes, |result.shape| - 1))
  {
    var rowBytes := RowBytes(selection, result, elementBytes, |result.shape| - 1);
    var ends := SplitRowsArePieces(spans, rows, options, rowBytes);
    var x :| 0 <= x < |rows| && rows[x] == span;
    if x < |spans| - 1 {
      HolesStayWhole(spans, rows, ends, x);
    } else {
      PieceLength(spans, rows, ends, 0);
      EvenPieces(spans, rows, options, rowBytes, ends, x - (|spans| - 1));
    }
  }

  lemma HolesStayWhole(spans: SpanPairs, rows: SpanPairs, ends: seq<nat>, x: nat)
    requires spans != [] && RunsOnly(spans) && HolesThenRun(spans) && ArePieces(spans, rows, ends)
    requires x < |spans| - 1
    ensures x < |rows| && !IsRead(rows[x])
  {
  }

  lemma CrossOfFixed(dims: seq<SpanPairs>, flags: seq<bool>, selection: Selection, result: ResultShape)
    requires result.Fixed? && !result.HasCellExtents() && result.WellFormed() && Matches(selection, result)
    requires |dims| == |result.shape| && GoodDims(dims, selection, result) && FlagsSound(flags, dims)
    ensures Partition(Cross(dims, |dims|), flags, selection, result, Numbers(result.NRows()))
  {
    GoodDimsCover(dims, selection, result);
    FixedWantsAgree(selection, result);
    CrossPartitions(dims, FixedWant(selection, result), flags, selection, result, Numbers(result.NRows()));
  }

  method FixedCells(selection: Selection, result: ResultShape, options: RowSplitOptions, elementBytes: nat)
    returns (r: Result<(seq<Cell>, seq<bool>)>)
    requires result.Fixed? && !result.HasCellExtents() && result.WellFormed()
    ensures r.Failure? <==> FixedRepeats(selection, result)
    ensures r.Failure? ==> r.error == IndexError
    ensures r.Success? ==> |r.value.0| == |r.value.1| && HoldsSelected(r.value.0, selection, result)
    ensures r.Success? && Matches(selection, result) ==>
              Partition(r.value.0, r.value.1, selection, result, Numbers(result.NRows()))
    ensures r.Success? ==> RowsAreSplit(r.value.0, selection, result, options, elementBytes)
  {
    var dims := FixedDims(selection, result, options, elementBytes);
    if dims.Failure? {
      return Failure(dims.error);
    }
    DimsAreGood(dims.value, selection, result);
    var cells, flags := CartesianProduct(dims.value);
    CrossIsMade(dims.value, cells, flags, selection, result);
    return Success((cells, flags));
  }

  lemma CrossIsMade(dims: seq<SpanPairs>, cells: seq<Cell>, flags: seq<bool>, selection: Selection,
                    result: ResultShape)
    requires result.Fixed? && !result.HasCellExtents() && result.WellFormed()
    requires |dims| == |result.shape| && GoodDims(dims, selection, result) && FlagsSound(flags, dims)
    requires cells == Cross(dims, |dims|)
    ensures HoldsSelected(cells, selection, result)
    ensures Matches(selection, result) ==> Partition(cells, flags, selection, result, Numbers(result.NRows()))
  {
    DimsAreGood(dims, selection, result);
    CrossHoldsSelected(dims, selection, result);
    if Matches(selection, result) {
      CrossOfFixed(dims, flags, selection, result);
    }
  }

  // ----- a result whose shape, or whose extents read, vary by row

  ghost function RowWant(selection: Selection, result: ResultShape, row: nat, disk: int): (want: seq<Wanted>)
    requires result.WellFormed() && row < result.NRows()
    ensures |want| == result.NDim()
    ensures forall d :: 0 <= d < |want| - 1 ==> want[d] == WantedIds(CellIds(selection, result, row, d))
    ensures want[|want| - 1] == map[row := disk]
  {
    seq(result.NDim(), d requires 0 <= d < result.NDim() =>
      if d < result.NDim() - 1 then WantedIds(CellIds(selection, result, row, d)) else map[row := disk])
  }

  lemma RowWantsAgree(selection: Selection, result: ResultShape, row: nat, disk: int)
    requires result.WellFormed() && Matches(selection, result) && row < result.NRows()
    requires RowIds(selection, result)[row] == disk
    ensures WantsAgree(RowWant(selection, result, row, disk), selection, result, {row})
    ensures WantsExtents(RowWant(selection, result, row, disk),
          if result.Fixed? then result.shape else result.rowShapes[row])
  {
    var want := RowWant(selection, result, row, disk);
    forall j | InWant(j, want)
      ensures WantOk(j, want, selection, result)
    {
      RowWantAt(selection, result, row, disk, j);
    }
    forall j | InResult(result, j) && j[|j| - 1] in {row}
      ensures InWant(j, want)
    {
      RowWantReaches(selection, result, row, disk, j);
    }
    RowWantExtents(selection, result, row, disk);
  }

  lemma RowWantAt(selection: Selection, result: ResultShape, row: nat, disk: int, j: seq<nat>)
    requires result.WellFormed() && Matches(selection, result) && row < result.NRows()
    requires RowIds(selection, result)[row] == disk && InWant(j, RowWant(selection, result, row, disk))
    ensures WantOk(j, RowWant(selection, result, row, disk), selection, result)
  {
    var want := RowWant(selection, result, row, disk);
    assert forall d :: 0 <= d < |want| ==> j[d] in want[d];
  }

  lemma RowWantReaches(selection: Selection, result: ResultShape, row: nat, disk: int, j: seq<nat>)
    requires result.WellFormed() && Matches(selection, result) && InResult(result, j) && j[|j| - 1] == row
    ensures InWant(j, RowWant(selection, result, row, disk))
  {
  }

  lemma RowWantExtents(selection: Selection, result: ResultShape, row: nat, disk: int)
    requires result.WellFormed() && Matches(selection, result) && row < result.NRows()
    ensures WantsExtents(RowWant(selection, result, row, disk),
          if result.Fixed? then result.shape else result.rowShapes[row])
  {
  }

  ghost predicate RowRepeats(selection: Selection, result: ResultShape, row: nat)
    requires result.WellFormed() && row < result.NRows()
  {
    exists d :: 0 <= d < result.NDim() - 1 && HasRepeat(CellIds(selection, result, row, d))
  }

  ghost predicate GoodRowDims(dims: seq<SpanPairs>, selection: Selection, result: ResultShape, row: nat)
    requires result.WellFormed() && row < result.NRows() && |dims| < result.NDim()
  {
    forall d :: 0 <= d < |dims| ==> GoodSpans(dims[d], CellIds(selection, result, row, d), false)
  }

  // The sizes that cached padded spans refer to; only a fixed result has extents.
  ghost function PaddedSizes(result: ResultShape): Shape
    requires result.WellFormed()
  {
    if result.Fixed? then result.shape[..|result.shape| - 1] else []
  }

  method CellSpanPair(selection: Selection, result: ResultShape, row: nat, d: nat, monotonic: seq<nat>,
                      cache: SpanCache)
    returns (pair: SpanPair, after: SpanCache)
    requires result.WellFormed() && row < result.NRows() && d < result.NDim() - 1
    requires result.CellShape(row)[d] <= |monotonic| && monotonic == Iota(|monotonic|)
    requires CacheOk(cache, PaddedSizes(result))
    ensures SortedIndices(CellIds(selection, result, row, d), pair.disk, pair.mem)
    ensures CacheOk(after, PaddedSizes(result))
  {
    after := cache;
    if result.HasCellExtents() {
      var extent := result.extents.value[row][d];
      if extent < result.CellShape(row)[d] {
        pair, after := GetPaddedSpanPair(d, extent, cache, result.CellShape(row));
        return;
      }
    }
    pair := GetSpanPair(selection, d, result.NDim(), result.CellShape(row)[d], monotonic);
  }

  method RowDims(selection: Selection, result: ResultShape, row: nat, monotonic: seq<nat>, cache: SpanCache)
    returns (r: Result<seq<SpanPairs>>, after: SpanCache)
    requires result.WellFormed() && row < result.NRows()
    requires IsWithin(result.CellShape(row), |monotonic|)
    requires monotonic == Iota(|monotonic|) && CacheOk(cache, PaddedSizes(result))
    ensures CacheOk(after, PaddedSizes(result))
    ensures r.Failure? <==> RowRepeats(selection, result, row)
    ensures r.Failure? ==> r.error == IndexError
    ensures r.Success? ==> |r.value| == result.NDim() - 1 && GoodRowDims(r.value, selection, result, row)
  {
    var dims: seq<SpanPairs> := [];
    after := cache;
    for d := 0 to result.NDim() - 1
      invariant |dims| == d && GoodRowDims(dims, selection, result, row)
      invariant CacheOk(after, PaddedSizes(result))
      invariant forall e :: 0 <= e < d ==> !HasRepeat(CellIds(selection, result, row, e))
    {
      var pair;
      pair, after := CellSpanPair(selection, result, row, d, monotonic, after);
      var spans := CutDim(pair, CellIds(selection, result, row, d), false);
      if spans.Failure? {
        return Failure(spans.error), after;
      }
      dims := dims + [spans.value];
    }
    return Success(dims), after;
  }

  lemma RowDimsCover(dims: seq<SpanPairs>, selection: Selection, result: ResultShape, row: nat, disk: int)
    requires result.WellFormed() && row < result.NRows()
    requires |dims| == result.NDim() - 1 && GoodRowDims(dims, selection, result, row)
    ensures CoverDims(WithRow(dims, row, disk), RowWant(selection, result, row, disk))
    ensures DimRuns(WithRow(dims, row, disk))
    ensures forall d :: 0 <= d <= |dims| ==> WithRow(dims, row, disk)[d] != []
  {
    var all := WithRow(dims, row, disk);
    var want := RowWant(selection, result, row, disk);
    forall d | 0 <= d < |all|
      ensures CoversDim(all[d], want[d]) && all[d] != []
    {
      if d < |dims| {
        assert GoodSpans(dims[d], CellIds(selection, result, row, d), false);
      } else {
        SingleRowCovers(row, disk);
      }
    }
    forall d, s | 0 <= d < |all| && 0 <= s < |all[d]|
      ensures IsRun(all[d][s].disk, d == |all| - 1)
    {
      if d < |dims| {
        assert GoodSpans(dims[d], CellIds(selection, result, row, d), false);
      }
    }
  }

  lemma SingleRowCovers(row: nat, disk: int)
    ensures CoversDim([SpanPair([disk], [row])], map[row := disk])
  {
    assert row in [SpanPair([disk], [row])][0].mem;
  }

  // What the cells of one row are.
  ghost predicate IsRowCells(cells: seq<Cell>, flags: seq<bool>, selection: Selection, result: ResultShape, row: nat)
    requires result.WellFormed() && Matches(selection, result)
  {
    && Partition(cells, flags, selection, result, {row}) && cells != []
    && SingleRows(cells)
  }

  ghost predicate SingleRows(cells: seq<Cell>)
  {
    forall i :: 0 <= i < |cells| ==> cells[i] != [] && |LastDim(cells[i]).mem| == 1
  }

  // The flags that CartesianProduct sets.
  ghost predicate FlagsSound(flags: seq<bool>, dims: seq<SpanPairs>)
    requires dims != []
  {
    && |flags| == |Cross(dims, |dims|)|
    && (forall i :: 0 <= i < |flags| ==> |Cross(dims, |dims|)[i]| == |dims|)
    && (forall i :: 0 <= i < |flags| && flags[i] ==>
          SecondaryContiguous(dims) && MemoryContiguous(LastDim(Cross(dims, |dims|)[i]).mem))
  }

  // The spans of the dimensions of one row.
  function WithRow(dims: seq<SpanPairs>, row: nat, disk: int): (all: seq<SpanPairs>)
    ensures |all| == |dims| + 1
  {
    dims + [[SpanPair([disk], [row])]]
  }

  lemma CrossOfRow(all: seq<SpanPairs>, flags: seq<bool>, selection: Selection, result: ResultShape, row: nat,
                   disk: int)
    requires result.WellFormed() && Matches(selection, result) && row < result.NRows()
    requires RowIds(selection, result)[row] == disk
    requires all != [] && CoverDims(all, RowWant(selection, result, row, disk)) && DimRuns(all)
    requires FlagsSound(flags, all)
    ensures Partition(Cross(all, |all|), flags, selection, result, {row})
  {
    RowWantsAgree(selection, result, row, disk);
    CrossPartitions(all, RowWant(selection, result, row, disk), flags, selection, result, {row});
  }

  lemma CrossSingleRows(dims: seq<SpanPairs>, row: nat, disk: int)
    requires forall d :: 0 <= d < |dims| ==> dims[d] != []
    ensures var cells := Cross(WithRow(dims, row, disk), |dims| + 1); cells != [] && SingleRows(cells)
  {
    var all := WithRow(dims, row, disk);
    CrossNotEmpty(all, |all|);
    forall i | 0 <= i < |Cross(all, |all|)|
      ensures Cross(all, |all|)[i] != [] && |LastDim(Cross(all, |all|)[i]).mem| == 1
    {
      CrossMembersPick(all, |all|, i);
    }
  }

  lemma CrossIsRow(dims: seq<SpanPairs>, flags: seq<bool>, selection: Selection, result: ResultShape, row: nat,
                   disk: int)
    requires result.WellFormed() && Matches(selection, result) && row < result.NRows()
    requires RowIds(selection, result)[row] == disk
    requires |dims| == result.NDim() - 1 && GoodRowDims(dims, selection, result, row)
    requires FlagsSound(flags, WithRow(dims, row, disk))
    ensures IsRowCells(Cross(WithRow(dims, row, disk), |dims| + 1), flags, selection, result, row)
  {
    RowDimsCover(dims, selection, result, row, disk);
    CrossOfRow(WithRow(dims, row, disk), flags, selection, result, row, disk);
    CrossSingleRows(dims, row, disk);
  }

  method CrossRow(dims: seq<SpanPairs>, ghost selection: Selection, ghost result: ResultShape, row: nat, disk: int)
    returns (cells: seq<Cell>, flags: seq<bool>)
    requires result.WellFormed() && Matches(selection, result) && row < result.NRows()
    requires RowIds(selection, result)[row] == disk
    requires |dims| == result.NDim() - 1 && GoodRowDims(dims, selection, result, row)
    ensures IsRowCells(cells, flags, selection, result, row)
  {
    RowDimsCover(dims, selection, result, row, disk);
    cells, flags := CartesianProduct(WithRow(dims, row, disk));
    CrossIsRow(dims, flags, selection, result, row, disk);
  }

  // The cells of one row of the result.
  method RowCells(selection: Selection, result: ResultShape, row: nat, disk: int, monotonic: seq<nat>, cache: SpanCache)
    returns (r: Result<(seq<Cell>, seq<bool>)>, after: SpanCache)
    requires result.WellFormed() && Matches(selection, result) && row < result.NRows()
    requires RowIds(selection, result)[row] == disk
    requires IsWithin(result.CellShape(row), |monotonic|)
    requires monotonic == Iota(|monotonic|) && CacheOk(cache, PaddedSizes(result))
    ensures CacheOk(after, PaddedSizes(result))
    ensures r.Failure? <==> RowRepeats(selection, result, row)
    ensures r.Failure? ==> r.error == IndexError
    ensures r.Success? ==> IsRowCells(r.value.0, r.value.1, selection, result, row)
  {
    var dims;
    dims, after := RowDims(selection, result, row, monotonic, cache);
    if dims.Failure? {
      return Failure(dims.error), after;
    }
    var cells, flags := CrossRow(dims.value, selection, result, row, disk);
    return Success((cells, flags)), after;
  }

  lemma CrossNotEmpty(dims: seq<SpanPairs>, d: nat)
    requires d <= |dims| && forall i :: 0 <= i < |dims| ==> dims[i] != []
    ensures Cross(dims, d) != []
  {
    CrossLength(dims, d);
    StridePositive(Lengths(dims), d);
  }

  ghost function RowsUpTo(mem: seq<nat>, r: nat): set<nat>
    requires r <= |mem|
  {
    Elements(mem[..r])
  }

  lemma AllRows(mem: seq<nat>, n: nat)
    requires IsPermutation(mem, n)
    ensures RowsUpTo(mem, n) == Numbers(n)
  {
    assert mem[..n] == mem;
    forall x: nat | x < n
      ensures x in mem
    {
      PermutationReaches(mem, n, x);
    }
  }

  lemma NextRow(mem: seq<nat>, n: nat, r: nat)
    requires IsPermutation(mem, n) && r < n
    ensures mem[r] < n && mem[r] !in RowsUpTo(mem, r)
    ensures RowsUpTo(mem, r) + {mem[r]} == RowsUpTo(mem, r + 1)
  {
    assert mem[..r + 1] == mem[..r] + [mem[r]];
  }

  ghost predicate SomeRowRepeats(selection: Selection, result: ResultShape)
    requires result.WellFormed()
  {
    exists row :: 0 <= row < result.NRows() && RowRepeats(selection, result, row)
  }

  // The cells of the rows in done, none of which repeats an id.
  ghost predicate RowsDone(cells: seq<Cell>, flags: seq<bool>, selection: Selection, result: ResultShape,
                           done: set<nat>)
    requires result.WellFormed() && Matches(selection, result)
  {
    && Partition(cells, flags, selection, result, done) && SingleRows(cells)
    && (done != {} ==> cells != [])
    && (forall row :: row in done ==> row < result.NRows() && !RowRepeats(selection, result, row))
  }

  lemma RowsDoneAppend(cells: seq<Cell>, flags: seq<bool>, done: set<nat>, more: seq<Cell>, moreFlags: seq<bool>,
                       row: nat,
                       selection: Selection, result: ResultShape)
    requires result.WellFormed() && Matches(selection, result) && row < result.NRows() && row !in done
    requires RowsDone(cells, flags, selection, result, done)
    requires IsRowCells(more, moreFlags, selection, result, row) && !RowRepeats(selection, result, row)
    ensures RowsDone(cells + more, flags + moreFlags, selection, result, done + {row})
  {
    PartitionsAppend(cells, flags, done, more, moreFlags, {row}, selection, result);
  }

  // The row at position r of the sorted rows, after the cells of those before it.
  method AppendRowCells(selection: Selection, result: ResultShape, rows: SpanPair, r: nat, monotonic: seq<nat>,
                        cells: seq<Cell>, flags: seq<bool>, cache: SpanCache)
    returns (done: Result<(seq<Cell>, seq<bool>)>, after: SpanCache)
    requires result.WellFormed() && Matches(selection, result) && r < result.NRows()
    requires SortedIndices(RowIds(selection, result), rows.disk, rows.mem)
    requires monotonic == Iota(|monotonic|) && forall row :: 0 <= row < result.NRows() ==>
               IsWithin(result.CellShape(row), |monotonic|)
    requires CacheOk(cache, PaddedSizes(result)) && RowsDone(cells, flags, selection, result, RowsUpTo(rows.mem, r))
    ensures CacheOk(after, PaddedSizes(result))
    ensures done.Failure? ==> done.error == IndexError && SomeRowRepeats(selection, result)
    ensures done.Success? ==> RowsDone(done.value.0, done.value.1, selection, result, RowsUpTo(rows.mem, r + 1))
  {
    NextRow(rows.mem, result.NRows(), r);
    var row := rows.mem[r];
    var more;
    more, after := RowCells(selection, result, row, rows.disk[r], monotonic, cache);
    if more.Failure? {
      return Failure(more.error), after;
    }
    RowsDoneAppend(cells, flags, RowsUpTo(rows.mem, r), more.value.0, more.value.1, row, selection, result);
    return Success((cells + more.value.0, flags + more.value.1)), after;
  }

  lemma NoRowsDone(selection: Selection, result: ResultShape, mem: seq<nat>)
    requires result.WellFormed() && Matches(selection, result)
    ensures RowsDone([], [], selection, result, RowsUpTo(mem, 0))
  {
  }

  lemma RowsHaveCells(cells: seq<Cell>, flags: seq<bool>, selection: Selection, result: ResultShape)
    requires result.WellFormed() && Matches(selection, result)
    requires RowsDone(cells, flags, selection, result, Numbers(result.NRows()))
    ensures cells == [] ==> result.NRows() == 0
  {
    assert result.NRows() > 0 ==> 0 in Numbers(result.NRows());
  }

  lemma NoRows(cells: seq<Cell>, flags: seq<bool>, selection: Selection, result: ResultShape)
    requires result.WellFormed() && Matches(selection, result) && cells != []
    requires RowsDone(cells, flags, selection, result, Numbers(result.NRows()))
    ensures result.NRows() > 0 && !SomeRowRepeats(selection, result)
  {
    assert CellIn(cells[0], flags[0], result, Numbers(result.NRows()));
    assert LastDim(cells[0]).mem[0] in LastDim(cells[0]).mem;
  }

  lemma AllRowsDone(cells: seq<Cell>, flags: seq<bool>, selection: Selection, result: ResultShape, mem: seq<nat>)
    requires result.WellFormed() && Matches(selection, result) && IsPermutation(mem, result.NRows())
    requires RowsDone(cells, flags, selection, result, RowsUpTo(mem, result.NRows()))
    ensures RowsDone(cells, flags, selection, result, Numbers(result.NRows()))
    ensures cells == [] <==> result.NRows() == 0
    ensures cells != [] ==> !SomeRowRepeats(selection, result)
  {
    AllRows(mem, result.NRows());
    RowsHaveCells(cells, flags, selection, result);
    if cells != [] {
      NoRows(cells, flags, selection, result);
    }
  }

  // The cells of all rows, in the order of the sorted rows.
  method CellsByRow(selection: Selection, result: ResultShape, rows: SpanPair, monotonic: seq<nat>)
    returns (r: Result<(seq<Cell>, seq<bool>)>)
    requires result.WellFormed() && Matches(selection, result)
    requires SortedIndices(RowIds(selection, result), rows.disk, rows.mem)
    requires monotonic == Iota(|monotonic|) && forall row :: 0 <= row < result.NRows() ==>
               IsWithin(result.CellShape(row), |monotonic|)
    ensures r.Failure? ==> r.error == IndexError && SomeRowRepeats(selection, result)
    ensures r.Success? ==>
              RowsDone(r.value.0, r.value.1, selection, result, RowsUpTo(rows.mem, result.NRows()))
  {
    var cells: seq<Cell>, flags: seq<bool>, cache: SpanCache := [], [], map[];
    NoRowsDone(selection, result, rows.mem);
    for r := 0 to result.NRows()
      invariant CacheOk(cache, PaddedSizes(result))
      invariant RowsDone(cells, flags, selection, result, RowsUpTo(rows.mem, r))
    {
      var done;
      done, cache := AppendRowCells(selection, result, rows, r, monotonic, cells, flags, cache);
      if done.Failure? {
        return Failure(done.error);
      }
      cells, flags := done.value.0, done.value.1;
    }
    return Success((cells, flags));
  }

  method VaryingCells(selection: Selection, result: ResultShape) returns (r: Result<(seq<Cell>, seq<bool>)>)
    requires result.WellFormed() && Matches(selection, result)
    ensures r.Failure? <==> result.NRows() == 0 || SomeRowRepeats(selection, result)
    ensures r.Failure? ==> r.error == if result.NRows() == 0 then Invalid else IndexError
    ensures r.Success? ==> RowsDone(r.value.0, r.value.1, selection, result, Numbers(result.NRows()))
  {
    var size := MaxDimensionSize(result);
    var monotonic := Iota(size);
    var rows := GetSpanPair(selection, result.NDim() - 1, result.NDim(), result.NRows(), monotonic);
    r := CellsByRow(selection, result, rows, monotonic);
    if r.Failure? {
      return;
    }
    AllRowsDone(r.value.0, r.value.1, selection, result, rows.mem);
    if r.value.0 == [] {
      r := Failure(Invalid);
    }
  }

  lemma SingleRowsBound(cells: seq<Cell>, flags: seq<bool>, selection: Selection, result: ResultShape, rows: set<nat>,
                        i: nat)
    requires result.WellFormed() && Matches(selection, result) && i < |cells|
    requires Partition(cells, flags, selection, result, rows)
    ensures |cells[i]| == result.NDim()
    ensures LastDim(cells[i]).mem != [] ==> LastDim(cells[i]).mem[0] < result.NRows()
  {
    assert CellOk(cells[i], selection, result) && CellIn(cells[i], flags[i], result, rows);
    assert LastDim(cells[i]).mem != [] ==> LastDim(cells[i]).mem[0] in LastDim(cells[i]).mem;
  }

  // ----- the partition

  function CellsOf(chunks: seq<DataChunk>): (cells: seq<Cell>)
    ensures |cells| == |chunks| && forall i :: 0 <= i < |chunks| ==> cells[i] == chunks[i].spans
  {
    seq(|chunks|, i requires 0 <= i < |chunks| => chunks[i].spans)
  }

  function FlagsOf(chunks: seq<DataChunk>): (flags: seq<bool>)
    ensures |flags| == |chunks| && forall i :: 0 <= i < |chunks| ==> flags[i] == chunks[i].contiguous
  {
    seq(|chunks|, i requires 0 <= i < |chunks| => chunks[i].contiguous)
  }

  // The chunks partition every row of the result, and address its elements.
  ghost predicate IsPartition(chunks: seq<DataChunk>, selection: Selection, result: ResultShape)
    requires result.WellFormed() && Matches(selection, result)
  {
    && Partition(CellsOf(chunks), FlagsOf(chunks), selection, result, Numbers(result.NRows()))
    && forall i :: 0 <= i < |chunks| ==> IsChunkOf(chunks[i], chunks[i].spans, chunks[i].contiguous, result)
  }

  predicate PartitionsByRow(result: ResultShape)
  {
    result.Varying? || result.HasCellExtents()
  }

  function PartitionError(result: ResultShape): Error
  {
    if result.NDim() < 0 then Invalid
    else if result.Varying? && result.rowShapes == [] then Invalid
    else if result.HasCellExtents() && result.extents.value == [] then Invalid
    else IndexError
  }

  // Some dimension repeats an id to read, or there is nothing to partition by rows.
  ghost predicate CannotPartition(selection: Selection, result: ResultShape)
    requires result.WellFormed()
  {
    if !PartitionsByRow(result) then FixedRepeats(selection, result)
    else result.NRows() == 0 || SomeRowRepeats(selection, result)
  }

  lemma CellsCanBeChunks(cells: seq<Cell>, flags: seq<bool>, selection: Selection, result: ResultShape)
    requires result.WellFormed() && Matches(selection, result)
    requires Partition(cells, flags, selection, result, Numbers(result.NRows())) && SingleRows(cells)
    ensures CanBeChunks(cells, flags, result)
  {
    forall i | 0 <= i < |cells|
      ensures |cells[i]| == result.NDim()
      ensures !SeveralRows(cells[i]) && LastDim(cells[i]).mem[0] < result.NRows()
    {
      SingleRowsBound(cells, flags, selection, result, Numbers(result.NRows()), i);
    }
  }

  // The cells of the chunks: of all rows at once, or row by row.
  method MakeCells(selection: Selection, result: ResultShape, options: RowSplitOptions, elementBytes: nat)
    returns (r: Result<(seq<Cell>, seq<bool>)>)
    requires result.WellFormed() && (PartitionsByRow(result) ==> Matches(selection, result))
    ensures r.Failure? <==> CannotPartition(selection, result)
    ensures r.Failure? ==> r.error == PartitionError(result)
    ensures r.Success? ==> CanBeChunks(r.value.0, r.value.1, result)
    ensures r.Success? && Matches(selection, result) ==>
              Partition(r.value.0, r.value.1, selection, result, Numbers(result.NRows()))
    ensures r.Success? && !PartitionsByRow(result) ==> HoldsSelected(r.value.0, selection, result)
    ensures r.Success? && !PartitionsByRow(result) ==>
              RowsAreSplit(r.value.0, selection, result, options, elementBytes)
  {
    if !PartitionsByRow(result) {
      r := FixedCells(selection, result, options, elementBytes);
    } else {
      r := VaryingCells(selection, result);
      if r.Success? {
        CellsCanBeChunks(r.value.0, r.value.1, selection, result);
      }
    }
  }

  ghost predicate CanBeChunks(cells: seq<Cell>, flags: seq<bool>, result: ResultShape)
    requires result.WellFormed()
  {
    && |cells| == |flags|
    && (forall i :: 0 <= i < |cells| ==> |cells[i]| == result.NDim() > 0)
    && (result.Varying? ==> forall i :: 0 <= i < |cells| ==>
          !SeveralRows(cells[i]) && LastDim(cells[i]).mem[0] < result.NRows())
  }

  /**
   Partitions a result of consistent rank. It fails exactly when a dimension repeats an id
   to read (rows of a varying result may repeat), or a result partitioned by rows has none.
   The chunks of a fixed result hold what is selected even if this has not its sizes.
   */
  method Make(selection: Selection, result: ResultShape, options: RowSplitOptions, elementBytes: nat)
    returns (r: Result<seq<DataChunk>>)
    requires result.NDim() >= 0 ==> result.WellFormed() && (PartitionsByRow(result) ==> Matches(selection, result))
    ensures r.Failure? <==> result.NDim() < 0 || CannotPartition(selection, result)
    ensures r.Failure? ==> r.error == PartitionError(result)
    ensures r.Success? && Matches(selection, result) ==> IsPartition(r.value, selection, result)
    ensures r.Success? && !PartitionsByRow(result) ==> HoldsSelected(CellsOf(r.value), selection, result)
    ensures r.Success? && !PartitionsByRow(result) ==>
              RowsAreSplit(CellsOf(r.value), selection, result, options, elementBytes)
  {
    var ndim := result.ConsistentNDim();
    if ndim.Failure? {
      return Failure(ndim.error);
    }
    var made := MakeCells(selection, result, options, elementBytes);
    if made.Failure? {
      return Failure(made.error);
    }
    var (cells, flags) := made.value;
    r := MakeDataChunks(cells, flags, result);
    ChunksHaveCells(r.value, cells, flags, selection, result);
  }

  lemma ChunksHaveCells(chunks: seq<DataChunk>, cells: seq<Cell>, flags: seq<bool>, selection: Selection,
                        result: ResultShape)
    requires result.WellFormed() && |chunks| == |cells| == |flags|
    requires forall i :: 0 <= i < |cells| ==> IsChunkOf(chunks[i], cells[i], flags[i], result)
    ensures CellsOf(chunks) == cells
    ensures Matches(selection, result) && Partition(cells, flags, selection, result, Numbers(result.NRows())) ==>
              IsPartition(chunks, selection, result)
  {
    assert CellsOf(chunks) == cells && FlagsOf(chunks) == flags;
  }

  /** Repeated rows of a varying result are partitioned all the same. */
  lemma RepeatedRowsArePartitioned(selection: Selection, result: ResultShape)
    requires selection == Selection([[0, 0]]) && result == Varying(2, [[1], [1]])
    ensures result.WellFormed() && Matches(selection, result)
    ensures HasRepeat(RowIds(selection, result)) && !CannotPartition(selection, result)
  {
    var rows := RowIds(selection, result);
    assert rows == [0, 0] && rows[0] == rows[1];
    assert CellIds(selection, result, 0, 0) == Iota(1) && CellIds(selection, result, 1, 0) == Iota(1);
  }
}
