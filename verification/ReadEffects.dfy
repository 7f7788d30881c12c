/**
 The effect of reading every chunk of a partition: the result holds the wanted elements of
 the column, and its other elements are untouched (ReadChunks of read_impl.cc).
 */
module ReadEffects {
  import opened Wrappers
  import opened MixedRadix
  import opened Selections
  import opened Spans
  import opened RowSplit
  import opened Cartesian
  import opened ResultShapes
  import opened Chunks
  import opened Partitions
  import opened MakePartition
  import opened Stores
  import opened Reading

  // ----- reading chunks, one after the other

  predicate EmptyCell(cell: Cell)
    requires AllPaired(cell)
  {
    HasHole(cell) || CellElements(cell, |cell|) == 0
  }

  // The chunk can be read into a buffer of the given size, and its flag may be trusted.
  ghost predicate IsReady<T>(chunk: DataChunk, cells: Cells<T>, size: nat)
  {
    && AllPaired(chunk.spans)
    && (!EmptyCell(chunk.spans) ==>
          Fitting(chunk, size) && IsReadable(chunk.spans) && BoxExists(cells, DiskIds(chunk.spans)))
    && (chunk.contiguous && !EmptyCell(chunk.spans) ==>
          forall p :: InCell(p, chunk.spans) ==> Address(chunk, p) == chunk.flatOffset + Rank(Sizes(chunk.spans), p))
  }

  ghost predicate AllReady<T>(chunks: seq<DataChunk>, cells: Cells<T>, size: nat)
  {
    forall i :: 0 <= i < |chunks| ==> IsReady(chunks[i], cells, size)
  }

  // The stores that reading a chunk makes; an empty chunk is skipped.
  function ChunkTrace<T>(chunk: DataChunk, cells: Cells<T>, size: nat): (trace: seq<Store<T>>)
    requires IsReady(chunk, cells, size)
    ensures Within(trace, size)
  {
    if EmptyCell(chunk.spans) then []
    else
      BoxIsChunk(chunk.spans);
      CopyTrace(chunk, GetBox(cells, DiskIds(chunk.spans)), size)
  }

  // The stores of every chunk.
  function ChunkTraces<T>(chunks: seq<DataChunk>, cells: Cells<T>, size: nat): (traces: seq<Trace<T>>)
    requires AllReady(chunks, cells, size)
    ensures |traces| == |chunks| && AllWithin(traces, size)
    ensures forall i :: 0 <= i < |chunks| ==> traces[i] == ChunkTrace(chunks[i], cells, size)
  {
    seq(|chunks|, i requires 0 <= i < |chunks| => ChunkTrace(chunks[i], cells, size))
  }

  ghost function ReadTrace<T>(chunks: seq<DataChunk>, cells: Cells<T>, size: nat): (trace: Trace<T>)
    requires AllReady(chunks, cells, size)
    ensures Within(trace, size)
  {
    var traces := ChunkTraces(chunks, cells, size);
    JoinWithin(traces, size, |traces|);
    JoinUpTo(traces, |traces|)
  }

  // Reads the box of a chunk, by its slicer and its rows.
  method ReadChunkArray<T>(chunk: DataChunk, cells: Cells<T>) returns (data: seq<T>)
    requires IsReadable(chunk.spans) && BoxExists(cells, DiskIds(chunk.spans))
    ensures data == GetBox(cells, DiskIds(chunk.spans)) && |data| == Product(Sizes(chunk.spans))
  {
    BoxIsChunk(chunk.spans);
    data := GetBox(cells, BoxIds(SectionSlicer(chunk.spans), ReferenceRows(chunk.spans)));
  }

  method ReadChunk<T>(chunk: DataChunk, cells: Cells<T>, buffer: array<T>)
    requires IsReady(chunk, cells, buffer.Length)
    modifies buffer
    ensures buffer[..] == AppliedAll(old(buffer[..]), ChunkTrace(chunk, cells, buffer.Length))
  {
    var empty := IsEmpty(chunk);
    if !empty {
      ElementsAreSizes(chunk.spans, |chunk.spans|);
      var data := ReadChunkArray(chunk, cells);
      if chunk.contiguous {
        ReadContiguousChunk(chunk, data, buffer);
      } else {
        CopyChunkArray(chunk, data, buffer);
      }
    }
  }

  method ReadChunks<T>(chunks: seq<DataChunk>, cells: Cells<T>, buffer: array<T>)
    requires AllReady(chunks, cells, buffer.Length)
    modifies buffer
    ensures buffer[..] == AppliedAll(old(buffer[..]), ReadTrace(chunks, cells, buffer.Length))
  {
    ghost var was := buffer[..];
    ghost var traces := ChunkTraces(chunks, cells, buffer.Length);
    JoinWithin(traces, buffer.Length, 0);
    for i := 0 to |chunks|
      invariant Within(JoinUpTo(traces, i), buffer.Length)
      invariant buffer[..] == AppliedAll(was, JoinUpTo(traces, i))
    {
      AppliedJoin(was, traces, i);
      ReadChunk(chunks[i], cells, buffer);
    }
  }

  // ----- what is stored, and where

  ghost predicate NoHole(i: seq<int>)
  {
    forall d :: 0 <= d < |i| ==> i[d] >= 0
  }

  // Every wanted element exists in the column.
  ghost predicate Named<T>(cells: Cells<T>, selection: Selection, result: ResultShape)
    requires result.WellFormed() && Matches(selection, result)
  {
    forall j :: InResult(result, j) && NoHole(DiskIndex(selection, result, j)) ==>
          DiskIndex(selection, result, j) in cells
  }

  lemma PartitionChunk(chunks: seq<DataChunk>, selection: Selection, result: ResultShape, i: nat)
    requires result.WellFormed() && Matches(selection, result) && IsPartition(chunks, selection, result) && i < |chunks|
    ensures CellOk(chunks[i].spans, selection, result)
    ensures CellIn(chunks[i].spans, chunks[i].contiguous, result, Numbers(result.NRows()))
    ensures IsChunkOf(chunks[i], chunks[i].spans, chunks[i].contiguous, result)
  {
    assert CellsOf(chunks)[i] == chunks[i].spans;
    assert FlagsOf(chunks)[i] == chunks[i].contiguous;
  }

  lemma ChunkElement(chunk: DataChunk, selection: Selection, result: ResultShape, p: seq<nat>)
    requires result.WellFormed() && Matches(selection, result) && CellOk(chunk.spans, selection, result)
    requires IsChunkOf(chunk, chunk.spans, chunk.contiguous, result) && InCell(p, chunk.spans)
    ensures InResult(result, MemAt(chunk.spans, p))
    ensures Address(chunk, p) == FlatPosition(result, MemAt(chunk.spans, p)) < NElements(result)
    ensures DiskAt(chunk.spans, p) == DiskIndex(selection, result, MemAt(chunk.spans, p))
  {
    assert ElementOk(chunk.spans, p, selection, result);
    AddressIsFlatPosition(chunk, chunk.spans, chunk.contiguous, result, p);
    FlatPositionBound(result, MemAt(chunk.spans, p));
  }

  lemma NonEmptyIsReadable(cell: Cell)
    requires cell != [] && AllPaired(cell) && !EmptyCell(cell)
    requires forall d :: 0 <= d < |cell| ==> IsRun(cell[d].disk, d == |cell| - 1)
    ensures IsReadable(cell)
  {
    ElementsAreSizes(cell, |cell|);
    forall d | 0 <= d < |cell|
      ensures cell[d].disk != []
    {
      if cell[d].disk == [] {
        StrideZero(Sizes(cell), d, |cell|);
      }
    }
  }

  lemma DiskAtHasNoHole(cell: Cell, p: seq<nat>)
    requires IsReadable(cell) && InCell(p, cell)
    ensures NoHole(DiskAt(cell, p))
  {
    forall d | 0 <= d < |cell|
      ensures DiskAt(cell, p)[d] >= 0
    {
      assert NoneNegative(cell[d].disk);
    }
  }

  lemma BoxOfChunkExists<T>(chunk: DataChunk, cells: Cells<T>, selection: Selection, result: ResultShape)
    requires result.WellFormed() && Matches(selection, result) && Named(cells, selection, result)
    requires CellOk(chunk.spans, selection, result) && IsReadable(chunk.spans)
    ensures BoxExists(cells, DiskIds(chunk.spans))
  {
    BoxIsChunk(chunk.spans);
    forall p | InBox(p, Lengths(DiskIds(chunk.spans)))
      ensures IdsAt(DiskIds(chunk.spans), p) in cells
    {
      DiskAtHasNoHole(chunk.spans, p);
      assert ElementOk(chunk.spans, p, selection, result);
      assert IdsAt(DiskIds(chunk.spans), p) == DiskAt(chunk.spans, p);
    }
  }

  lemma ContiguousChunk(chunk: DataChunk, selection: Selection, result: ResultShape, rows: set<nat>, p: seq<nat>)
    requires result.WellFormed() && Matches(selection, result) && CellOk(chunk.spans, selection, result)
    requires CellIn(chunk.spans, chunk.contiguous, result, rows) && chunk.contiguous
    requires IsChunkOf(chunk, chunk.spans, chunk.contiguous, result) && InCell(p, chunk.spans)
    ensures Address(chunk, p) == chunk.flatOffset + Rank(Sizes(chunk.spans), p)
  {
    var mem := LastDim(chunk.spans).mem;
    assert p[|p| - 1] < |mem|;
    assert mem[0] in mem;
    ContiguousAddress(chunk, chunk.spans, chunk.contiguous, result, p);
  }

  lemma ChunkFits(chunk: DataChunk, selection: Selection, result: ResultShape)
    requires result.WellFormed() && Matches(selection, result) && CellOk(chunk.spans, selection, result)
    requires IsChunkOf(chunk, chunk.spans, chunk.contiguous, result)
    ensures Fitting(chunk, NElements(result))
  {
    forall p | InCell(p, chunk.spans)
      ensures 0 <= Address(chunk, p) < NElements(result)
    {
      ChunkElement(chunk, selection, result, p);
    }
  }

  lemma ChunkIsReady<T>(chunk: DataChunk, cells: Cells<T>, selection: Selection, result: ResultShape, rows: set<nat>)
    requires result.WellFormed() && Matches(selection, result) && Named(cells, selection, result)
    requires CellOk(chunk.spans, selection, result) && CellIn(chunk.spans, chunk.contiguous, result, rows)
    requires IsChunkOf(chunk, chunk.spans, chunk.contiguous, result)
    ensures IsReady(chunk, cells, NElements(result))
  {
    ChunkFits(chunk, selection, result);
    if chunk.contiguous {
      forall p | InCell(p, chunk.spans)
        ensures Address(chunk, p) == chunk.flatOffset + Rank(Sizes(chunk.spans), p)
      {
        ContiguousChunk(chunk, selection, result, rows, p);
      }
    }
    if !EmptyCell(chunk.spans) {
      NonEmptyIsReadable(chunk.spans);
      BoxOfChunkExists(chunk, cells, selection, result);
    }
  }

  /** Every chunk of a partition can be read, contiguous ones on the fast path. */
  lemma PartitionIsReady<T>(chunks: seq<DataChunk>, cells: Cells<T>, selection: Selection, result: ResultShape)
    requires result.WellFormed() && Matches(selection, result)
    requires IsPartition(chunks, selection, result) && Named(cells, selection, result)
    ensures AllReady(chunks, cells, NElements(result))
  {
    forall i | 0 <= i < |chunks|
      ensures IsReady(chunks[i], cells, NElements(result))
    {
      PartitionChunk(chunks, selection, result, i);
      ChunkIsReady(chunks[i], cells, selection, result, Numbers(result.NRows()));
    }
  }

  // The store puts a wanted element of the column at its position in the result.
  ghost predicate IsGoodStore<T>(store: Store<T>, cells: Cells<T>, selection: Selection, result: ResultShape)
    requires result.WellFormed() && Matches(selection, result) && Named(cells, selection, result)
  {
    exists j :: IsStoreOf(store, cells, selection, result, j)
  }

  ghost predicate IsStoreOf<T>(store: Store<T>, cells: Cells<T>, selection: Selection, result: ResultShape, j: seq<nat>)
    requires result.WellFormed() && Matches(selection, result) && Named(cells, selection, result)
  {
    && InResult(result, j) && NoHole(DiskIndex(selection, result, j))
    && store == Store(FlatPosition(result, j), cells[DiskIndex(selection, result, j)])
  }

  lemma ChunkStoreIsGood<T>(chunk: DataChunk, cells: Cells<T>, selection: Selection, result: ResultShape, k: nat)
    requires result.WellFormed() && Matches(selection, result) && Named(cells, selection, result)
    requires CellOk(chunk.spans, selection, result) && IsChunkOf(chunk, chunk.spans, chunk.contiguous, result)
    requires IsReady(chunk, cells, NElements(result)) && k < |ChunkTrace(chunk, cells, NElements(result))|
    ensures k < Product(Sizes(chunk.spans))
    ensures IsStoreOf(ChunkTrace(chunk, cells, NElements(result))[k], cells, selection, result,
                      MemAt(chunk.spans, ElementAt(chunk, k)))
  {
    StoreOfChunk(chunk, cells, NElements(result), k);
    ChunkElement(chunk, selection, result, ElementAt(chunk, k));
  }

  // Store k of a chunk is that of its element k.
  lemma StoreOfChunk<T>(chunk: DataChunk, cells: Cells<T>, size: nat, k: nat)
    requires IsReady(chunk, cells, size) && k < |ChunkTrace(chunk, cells, size)|
    ensures k < Product(Sizes(chunk.spans)) && InCell(ElementAt(chunk, k), chunk.spans)
    ensures NoHole(DiskAt(chunk.spans, ElementAt(chunk, k))) && DiskAt(chunk.spans, ElementAt(chunk, k)) in cells
    ensures Address(chunk, ElementAt(chunk, k)) >= 0
    ensures ChunkTrace(chunk, cells, size)[k]
         == Store(Address(chunk, ElementAt(chunk, k)), cells[DiskAt(chunk.spans, ElementAt(chunk, k))])
  {
    BoxIsChunk(chunk.spans);
    var p := ElementAt(chunk, k);
    DiskAtHasNoHole(chunk.spans, p);
    assert IdsAt(DiskIds(chunk.spans), p) == DiskAt(chunk.spans, p);
  }

  lemma {:induction false} FindElement(cell: Cell, j: seq<nat>, d: nat) returns (p: seq<nat>)
    requires HoldsPosition(cell, j) && d <= |cell|
    ensures |p| == d && forall e :: 0 <= e < d ==> p[e] < |cell[e].mem| && cell[e].mem[p[e]] == j[e]
  {
    if d == 0 {
      p := [];
    } else {
      p := FindElement(cell, j, d - 1);
      var k :| 0 <= k < |cell[d - 1].mem| && cell[d - 1].mem[k] == j[d - 1];
      p := p + [k];
    }
  }

  // A chunk that holds a position without holes is not empty.
  lemma HolderIsNotEmpty(cell: Cell, selection: Selection, result: ResultShape, j: seq<nat>) returns (p: seq<nat>)
    requires result.WellFormed() && Matches(selection, result) && CellOk(cell, selection, result)
    requires InResult(result, j) && HoldsPosition(cell, j) && NoHole(DiskIndex(selection, result, j))
    ensures !EmptyCell(cell) && InCell(p, cell) && MemAt(cell, p) == j
  {
    p := FindElement(cell, j, |cell|);
    assert ElementOk(cell, p, selection, result);
    assert MemAt(cell, p) == j;
    forall d | 0 <= d < |cell|
      ensures NoneNegative(cell[d].disk)
    {
      assert DiskAt(cell, p)[d] >= 0;
    }
    ElementsAreSizes(cell, |cell|);
    StridePositive(Sizes(cell), |cell|);
  }

  lemma ChunkStoresPosition<T>(chunk: DataChunk, cells: Cells<T>, selection: Selection, result: ResultShape,
                               j: seq<nat>)
    requires result.WellFormed() && Matches(selection, result) && Named(cells, selection, result)
    requires CellOk(chunk.spans, selection, result) && IsChunkOf(chunk, chunk.spans, chunk.contiguous, result)
    requires IsReady(chunk, cells, NElements(result))
    requires InResult(result, j) && HoldsPosition(chunk.spans, j) && NoHole(DiskIndex(selection, result, j))
    ensures var trace := ChunkTrace(chunk, cells, NElements(result)); StoresTo(trace, |trace|, FlatPosition(result, j))
  {
    var p := HolderIsNotEmpty(chunk.spans, selection, result, j);
    BoxIsChunk(chunk.spans);
    var data := GetBox(cells, DiskIds(chunk.spans));
    StoreOfElement(chunk, data, NElements(result), p, Rank(Sizes(chunk.spans), p));
    ChunkElement(chunk, selection, result, p);
  }

  // ----- the effect

  // The buffer holds the wanted elements of the column, and is otherwise as it was.
  ghost predicate ReadEffect<T>(before: seq<T>, after: seq<T>, cells: Cells<T>, selection: Selection,
                                result: ResultShape)
    requires result.WellFormed() && Matches(selection, result) && Named(cells, selection, result)
    requires |before| == NElements(result)
  {
    && |after| == |before|
    && forall j :: InResult(result, j) ==> ElementRead(before, after, cells, selection, result, j)
  }

  ghost predicate ElementRead<T>(before: seq<T>, after: seq<T>, cells: Cells<T>, selection: Selection,
                                 result: ResultShape,
                                 j: seq<nat>)
    requires result.WellFormed() && Matches(selection, result) && Named(cells, selection, result)
    requires |before| == NElements(result) == |after| && InResult(result, j)
  {
    FlatPositionBound(result, j);
    var i := DiskIndex(selection, result, j);
    after[FlatPosition(result, j)] == if NoHole(i) then cells[i] else before[FlatPosition(result, j)]
  }

  // All the stores are good, and there is one for every position without holes.
  ghost predicate IsCompleteTrace<T>(trace: seq<Store<T>>, cells: Cells<T>, selection: Selection, result: ResultShape)
    requires result.WellFormed() && Matches(selection, result) && Named(cells, selection, result)
  {
    && (forall k :: 0 <= k < |trace| ==> IsGoodStore(trace[k], cells, selection, result))
    && (forall j :: InResult(result, j) && NoHole(DiskIndex(selection, result, j)) ==>
          StoresTo(trace, |trace|, FlatPosition(result, j)))
  }

  lemma GoodStoreAt<T>(store: Store<T>, cells: Cells<T>, selection: Selection, result: ResultShape, j: seq<nat>)
    requires result.WellFormed() && Matches(selection, result) && Named(cells, selection, result)
    requires IsGoodStore(store, cells, selection, result) && InResult(result, j) && store.at == FlatPosition(result, j)
    ensures NoHole(DiskIndex(selection, result, j)) && store.value == cells[DiskIndex(selection, result, j)]
  {
    var k :| IsStoreOf(store, cells, selection, result, k);
    FlatPositionInjective(result, j, k);
  }

  /** Making all the stores of a complete trace, in whatever order it has them, is the read. */
  lemma CompleteTraceReads<T>(before: seq<T>, trace: seq<Store<T>>, cells: Cells<T>, selection: Selection,
                              result: ResultShape)
    requires result.WellFormed() && Matches(selection, result) && Named(cells, selection, result)
    requires |before| == NElements(result) && Within(trace, |before|)
    requires IsCompleteTrace(trace, cells, selection, result)
    ensures ReadEffect(before, AppliedAll(before, trace), cells, selection, result)
  {
    forall j | InResult(result, j)
      ensures ElementRead(before, AppliedAll(before, trace), cells, selection, result, j)
    {
      FlatPositionBound(result, j);
      var a, i := FlatPosition(result, j), DiskIndex(selection, result, j);
      forall k | 0 <= k < |trace| && trace[k].at == a
        ensures NoHole(i) && trace[k].value == cells[i]
      {
        GoodStoreAt(trace[k], cells, selection, result, j);
      }
      AppliedAt(before, trace, |trace|, a, if NoHole(i) then cells[i] else before[a]);
    }
  }

  // The traces' stores are all good, and there is one for every position without holes.
  ghost predicate AreCompleteTraces<T>(traces: seq<Trace<T>>, cells: Cells<T>, selection: Selection,
                                       result: ResultShape)
    requires result.WellFormed() && Matches(selection, result) && Named(cells, selection, result)
  {
    && (forall i, k :: 0 <= i < |traces| && 0 <= k < |traces[i]| ==>
          IsGoodStore(traces[i][k], cells, selection, result))
    && (forall j :: InResult(result, j) && NoHole(DiskIndex(selection, result, j)) ==>
          SomeTraceStores(traces, FlatPosition(result, j)))
  }

  ghost predicate SomeTraceStores<T>(traces: seq<Trace<T>>, a: nat)
  {
    exists i :: 0 <= i < |traces| && StoresTo(traces[i], |traces[i]|, a)
  }

  lemma JoinedTracesAreComplete<T>(traces: seq<Trace<T>>, cells: Cells<T>, selection: Selection, result: ResultShape)
    requires result.WellFormed() && Matches(selection, result) && Named(cells, selection, result)
    requires AreCompleteTraces(traces, cells, selection, result)
    ensures IsCompleteTrace(JoinUpTo(traces, |traces|), cells, selection, result)
  {
    var trace := JoinUpTo(traces, |traces|);
    forall k | 0 <= k < |trace|
      ensures IsGoodStore(trace[k], cells, selection, result)
    {
      var i, x := JoinMember(traces, |traces|, k);
      assert IsGoodStore(traces[i][x], cells, selection, result);
    }
    forall j | InResult(result, j) && NoHole(DiskIndex(selection, result, j))
      ensures StoresTo(trace, |trace|, FlatPosition(result, j))
    {
      var a := FlatPosition(result, j);
      assert SomeTraceStores(traces, a);
      var i :| 0 <= i < |traces| && StoresTo(traces[i], |traces[i]|, a);
      var x :| 0 <= x < |traces[i]| && traces[i][x].at == a;
      var k := JoinContains(traces, |traces|, i, x);
    }
  }

  /** The stores of all chunks of a partition are complete. */
  lemma PartitionTracesAreComplete<T>(chunks: seq<DataChunk>, cells: Cells<T>, selection: Selection,
                                      result: ResultShape)
    requires result.WellFormed() && Matches(selection, result) && Named(cells, selection, result)
    requires IsPartition(chunks, selection, result) && AllReady(chunks, cells, NElements(result))
    ensures AreCompleteTraces(ChunkTraces(chunks, cells, NElements(result)), cells, selection, result)
  {
    var size := NElements(result);
    var traces := ChunkTraces(chunks, cells, size);
    forall i, k | 0 <= i < |traces| && 0 <= k < |traces[i]|
      ensures IsGoodStore(traces[i][k], cells, selection, result)
    {
      PartitionChunk(chunks, selection, result, i);
      ChunkStoreIsGood(chunks[i], cells, selection, result, k);
    }
    forall j | InResult(result, j) && NoHole(DiskIndex(selection, result, j))
      ensures SomeTraceStores(traces, FlatPosition(result, j))
    {
      assert SomeCellHolds(CellsOf(chunks), j);
      var i :| 0 <= i < |chunks| && HoldsPosition(CellsOf(chunks)[i], j);
      PartitionChunk(chunks, selection, result, i);
      ChunkStoresPosition(chunks[i], cells, selection, result, j);
      assert StoresTo(traces[i], |traces[i]|, FlatPosition(result, j));
    }
  }

  /**
   End to end: partitioning a result and reading every chunk leaves in the buffer exactly
   the wanted elements of the column, and touches nothing where a hole is selected.
   */
  method ReadResult<T>(cells: Cells<T>, selection: Selection, result: ResultShape, options: RowSplitOptions,
                       elementBytes: nat, buffer: array<T>) returns (r: Result<seq<DataChunk>>)
    requires result.WellFormed() && Matches(selection, result) && Named(cells, selection, result)
    requires buffer.Length == NElements(result)
    modifies buffer
    ensures r.Failure? <==> CannotPartition(selection, result)
    ensures r.Failure? ==> buffer[..] == old(buffer[..])
    ensures r.Success? ==> ReadEffect(old(buffer[..]), buffer[..], cells, selection, result)
  {
    r := Make(selection, result, options, elementBytes);
    if r.Success? {
      PartitionIsReady(r.value, cells, selection, result);
      PartitionTracesAreComplete(r.value, cells, selection, result);
      JoinedTracesAreComplete(ChunkTraces(r.value, cells, buffer.Length), cells, selection, result);
      CompleteTraceReads(buffer[..], ReadTrace(r.value, cells, buffer.Length), cells, selection, result);
      ReadChunks(r.value, cells, buffer);
    }
  }
}
