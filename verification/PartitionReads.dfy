/**
 Partitioning a result and reading the chunks, for any selection: also for one whose sizes
 are not those of the result, and for rows that the column does not have. Reading such a
 row makes casacore raise an exception, which fails the task.
 */
module PartitionReads {
  import opened Wrappers
  import opened Selections
  import opened Spans
  import opened RowSplit
  import opened Cartesian
  import opened ResultShapes
  import opened Chunks
  import opened Partitions
  import opened MakePartition
  import opened Stores
  import opened Reading
  import opened ReadEffects
  import opened Conservation
  import opened Interleavings

  // ----- the number of elements

  // The number of elements that a selection takes of a result.
  ghost function ElementsWanted(selection: Selection, result: ResultShape): nat
  {
    if PartitionsByRow(result) then NElements(result) else SelectedCount(selection, result, |result.shape|)
  }

  lemma PartitionTotal(chunks: seq<DataChunk>, selection: Selection, result: ResultShape)
    requires result.WellFormed() && (PartitionsByRow(result) ==> Matches(selection, result))
    requires Matches(selection, result) ==> IsPartition(chunks, selection, result)
    requires !PartitionsByRow(result) ==> HoldsSelected(CellsOf(chunks), selection, result)
    ensures TotalElements(chunks, |chunks|) == ElementsWanted(selection, result)
    ensures Matches(selection, result) ==> ElementsWanted(selection, result) == NElements(result)
  {
    if PartitionsByRow(result) {
      PartitionConservesElements(chunks, selection, result);
    } else if Matches(selection, result) {
      SelectedIsResult(selection, result);
    }
  }

  // ----- rows that the column does not have

  // Tells whether a row exists, with a cell that can be accessed.
  type RowTest = int -> bool

  // Some element wanted is of a row that the column does not have.
  ghost predicate ReadsBeyond(has: RowTest, selection: Selection, result: ResultShape)
    requires result.WellFormed() && Matches(selection, result)
  {
    exists j :: InResult(result, j) && NoHole(DiskIndex(selection, result, j))
          && IsBeyond(has, DiskIndex(selection, result, j))
  }

  predicate IsBeyond(has: RowTest, i: seq<int>)
  {
    i != [] && !has(i[|i| - 1])
  }

  // The index is no hole, and its row exists.
  ghost predicate IsWanted(has: RowTest, i: seq<int>)
  {
    NoHole(i) && !IsBeyond(has, i)
  }

  // The rows of a chunk that is read exist.
  ghost predicate ChunkExists(chunk: DataChunk, has: RowTest)
    requires chunk.spans != [] && AllPaired(chunk.spans)
  {
    EmptyCell(chunk.spans) || forall x :: x in LastDim(chunk.spans).disk ==> has(x)
  }

  lemma ChunkBeyond(chunk: DataChunk, has: RowTest, selection: Selection, result: ResultShape, k: nat)
    requires result.WellFormed() && Matches(selection, result) && CellOk(chunk.spans, selection, result)
    requires !EmptyCell(chunk.spans) && k < |LastDim(chunk.spans).disk| && !has(LastDim(chunk.spans).disk[k])
    ensures ReadsBeyond(has, selection, result)
  {
    var cell, last := chunk.spans, |chunk.spans| - 1;
    NonEmptyIsReadable(cell);
    var p := seq(|cell|, d requires 0 <= d < |cell| => if d == last then k else 0);
    assert InCell(p, cell) && ElementOk(cell, p, selection, result);
    assert DiskAt(cell, p)[last] == LastDim(cell).disk[k];
    assert NoHole(DiskIndex(selection, result, MemAt(cell, p)));
  }

  lemma ElementRow(cell: Cell, p: seq<nat>, selection: Selection, result: ResultShape)
    requires result.WellFormed() && Matches(selection, result) && cell != [] && AllPaired(cell) && InCell(p, cell)
    requires ElementOk(cell, p, selection, result)
    ensures var i := DiskIndex(selection, result, MemAt(cell, p)); |i| == |cell| && i[|i| - 1] in LastDim(cell).disk
  {
    var last := |cell| - 1;
    assert DiskAt(cell, p)[last] == LastDim(cell).disk[p[last]];
    assert LastDim(cell).disk[p[last]] in LastDim(cell).disk;
  }

  lemma ElementExists(chunks: seq<DataChunk>, has: RowTest, selection: Selection, result: ResultShape, j: seq<nat>)
    requires result.WellFormed() && Matches(selection, result) && IsPartition(chunks, selection, result)
    requires forall i :: 0 <= i < |chunks| ==> IsPlain(chunks[i]) && ChunkExists(chunks[i], has)
    requires InResult(result, j) && NoHole(DiskIndex(selection, result, j))
    ensures !IsBeyond(has, DiskIndex(selection, result, j))
  {
    var i := PartitionHolds(chunks, selection, result, j);
    PartitionChunk(chunks, selection, result, i);
    var p := HolderIsNotEmpty(chunks[i].spans, selection, result, j);
    ElementRow(chunks[i].spans, p, selection, result);
  }

  // What is known of every chunk.
  ghost predicate IsPlain(chunk: DataChunk)
  {
    chunk.spans != [] && AllPaired(chunk.spans)
  }

  // Whether the chunk is read, and a row of it does not exist.
  method ChunkIsBeyond(chunk: DataChunk, has: RowTest) returns (beyond: bool)
    requires IsPlain(chunk)
    ensures beyond == !ChunkExists(chunk, has)
  {
    var empty := IsEmpty(chunk);
    if empty {
      return false;
    }
    var disk := LastDim(chunk.spans).disk;
    for k := 0 to |disk|
      invariant forall m :: 0 <= m < k ==> has(disk[m])
    {
      if !has(disk[k]) {
        assert disk[k] in disk;
        return true;
      }
    }
    return false;
  }

  ghost predicate SomeBeyond(chunks: seq<DataChunk>, has: RowTest)
  {
    exists i :: 0 <= i < |chunks| && IsPlain(chunks[i]) && !ChunkExists(chunks[i], has)
  }

  method SomeChunkIsBeyond(chunks: seq<DataChunk>, has: RowTest) returns (beyond: bool)
    requires forall i :: 0 <= i < |chunks| ==> IsPlain(chunks[i])
    ensures beyond == SomeBeyond(chunks, has)
  {
    for i := 0 to |chunks|
      invariant forall k :: 0 <= k < i ==> IsPlain(chunks[k]) && ChunkExists(chunks[k], has)
    {
      beyond := ChunkIsBeyond(chunks[i], has);
      if beyond {
        return;
      }
    }
    return false;
  }

  lemma PartitionIsPlain(chunks: seq<DataChunk>, selection: Selection, result: ResultShape)
    requires result.WellFormed() && Matches(selection, result) && IsPartition(chunks, selection, result)
    ensures forall i :: 0 <= i < |chunks| ==> IsPlain(chunks[i])
  {
    forall i | 0 <= i < |chunks|
      ensures IsPlain(chunks[i])
    {
      PartitionChunk(chunks, selection, result, i);
    }
  }

  // The rows of all chunks that are read exist exactly if those of all elements wanted do.
  lemma ChunksExist(chunks: seq<DataChunk>, has: RowTest, selection: Selection, result: ResultShape)
    requires result.WellFormed() && Matches(selection, result) && IsPartition(chunks, selection, result)
    requires forall i :: 0 <= i < |chunks| ==> IsPlain(chunks[i])
    ensures ReadsBeyond(has, selection, result) <==> SomeBeyond(chunks, has)
  {
    if i :| 0 <= i < |chunks| && IsPlain(chunks[i]) && !ChunkExists(chunks[i], has) {
      PartitionChunk(chunks, selection, result, i);
      var disk := LastDim(chunks[i].spans).disk;
      var k :| 0 <= k < |disk| && !has(disk[k]);
      ChunkBeyond(chunks[i], has, selection, result, k);
    } else {
      forall j | InResult(result, j) && NoHole(DiskIndex(selection, result, j))
        ensures !IsBeyond(has, DiskIndex(selection, result, j))
      {
        ElementExists(chunks, has, selection, result, j);
      }
    }
  }

  // ----- chunks that hold nothing to read

  // No row is read, or no element.
  ghost predicate WantsNothing(selection: Selection, result: ResultShape)
    requires result.WellFormed()
  {
    && !PartitionsByRow(result)
    && (ElementsWanted(selection, result) == 0 || forall k :: 0 <= k < |RowIds(selection, result)| ==>
          RowIds(selection, result)[k] < 0)
  }

  lemma {:induction false} NoElementsAnywhere(cells: seq<Cell>, n: nat, i: nat)
    requires i < n <= |cells| && CellsTotal(cells, n) == 0
    ensures CellElements(cells[i], |cells[i]|) == 0
  {
    if i < n - 1 {
      NoElementsAnywhere(cells, n - 1, i);
    }
  }

  lemma NothingIsEmpty(chunks: seq<DataChunk>, selection: Selection, result: ResultShape, i: nat)
    requires result.WellFormed() && WantsNothing(selection, result) && i < |chunks|
    requires HoldsSelected(CellsOf(chunks), selection, result)
    ensures AllPaired(chunks[i].spans) && EmptyCell(chunks[i].spans)
  {
    var cell := chunks[i].spans;
    assert CellsOf(chunks)[i] == cell && HoldsIds(cell, selection, result);
    if ElementsWanted(selection, result) == 0 {
      NoElementsAnywhere(CellsOf(chunks), |chunks|, i);
    } else {
      var last := |cell| - 1;
      if cell[last].disk == [] {
        assert CellElements(cell, |cell|) == CellElements(cell, last) * 0;
      } else {
        assert cell[last].disk[0] in LastDim(cell).disk;
        assert !NoneNegative(cell[last].disk);
      }
    }
  }

  lemma {:induction false} EmptyTraces<T>(traces: seq<Trace<T>>, n: nat)
    requires n <= |traces| && HasNoStores(traces)
    ensures JoinUpTo(traces, n) == []
  {
    if n > 0 {
      EmptyTraces(traces, n - 1);
    }
  }

  lemma NothingIsRead<T>(chunks: seq<DataChunk>, cells: Cells<T>, selection: Selection, result: ResultShape, size: nat)
    requires result.WellFormed() && WantsNothing(selection, result)
    requires HoldsSelected(CellsOf(chunks), selection, result)
    ensures AllReady(chunks, cells, size) && HasNoStores(ChunkTraces(chunks, cells, size))
  {
    forall i | 0 <= i < |chunks|
      ensures IsReady(chunks[i], cells, size) && EmptyCell(chunks[i].spans)
    {
      NothingIsEmpty(chunks, selection, result, i);
    }
  }

  // ----- reading

  // The column has every element wanted of the rows that exist.
  ghost predicate NamedWithin<T>(cells: Cells<T>, has: RowTest, selection: Selection, result: ResultShape)
    requires result.WellFormed() && Matches(selection, result)
  {
    forall j :: InResult(result, j) && IsWanted(has, DiskIndex(selection, result, j)) ==>
      DiskIndex(selection, result, j) in cells
  }

  // A partition cannot be made, its elements do not fill the buffer, or a row does not exist.
  ghost predicate CannotRead(has: RowTest, selection: Selection, result: ResultShape)
    requires result.WellFormed()
  {
    || CannotPartition(selection, result)
    || ElementsWanted(selection, result) != NElements(result)
    || (Matches(selection, result) && ReadsBeyond(has, selection, result))
  }

  /**
   Partitions a result, checks that the elements fill the buffer, and reads them: several
   chunks in groups, if there are several instances, whose stores may come in any order.
   An exception for a row that does not exist may come after other chunks were read.
   */
  method ReadPartition<T>(cells: Cells<T>, has: RowTest, selection: Selection, result: ResultShape,
                          options: RowSplitOptions, elementBytes: nat, ninstances: nat, buffer: array<T>)
    returns (r: Result<()>)
    requires result.WellFormed() && (PartitionsByRow(result) ==> Matches(selection, result))
    requires buffer.Length == NElements(result)
    requires Matches(selection, result) ==> NamedWithin(cells, has, selection, result)
    requires !Matches(selection, result) && ElementsWanted(selection, result) == NElements(result) ==>
               WantsNothing(selection, result)
    modifies buffer
    ensures r.Failure? <==> CannotRead(has, selection, result)
    ensures r.Failure? && !(Matches(selection, result) && ReadsBeyond(has, selection, result)) ==>
              buffer[..] == old(buffer[..])
    ensures r.Success? && Matches(selection, result) ==>
              && Named(cells, selection, result)
              && ReadEffect(old(buffer[..]), buffer[..], cells, selection, result)
    ensures r.Success? && !Matches(selection, result) ==> buffer[..] == old(buffer[..])
  {
    var made := Make(selection, result, options, elementBytes);
    if made.Failure? {
      return Failure(made.error);
    }
    var chunks := made.value;
    PartitionTotal(chunks, selection, result);
    if TotalElements(chunks, |chunks|) != buffer.Length {
      return Failure(Invalid);
    }
    ChunksArePlain(chunks, has, selection, result);
    var beyond := SomeChunkIsBeyond(chunks, has);
    if beyond {
      return Failure(Invalid);
    }
    ghost var before := buffer[..];
    ChunksAreReady(chunks, cells, has, selection, result);
    if ninstances > 1 && |chunks| > 1 {
      var ends, run := ReadGroups(chunks, cells, ninstances, buffer);
      GroupsAreRead(chunks, ends, run, before, buffer[..], cells, selection, result);
    } else {
      ReadChunks(chunks, cells, buffer);
      ChunksAreRead(chunks, before, cells, selection, result);
    }
    return Success(());
  }

  // The chunks of a partition, or chunks that hold nothing to read.
  ghost predicate AreRead<T>(chunks: seq<DataChunk>, cells: Cells<T>, selection: Selection, result: ResultShape)
    requires result.WellFormed()
  {
    && AllReady(chunks, cells, NElements(result))
    && if Matches(selection, result) then Named(cells, selection, result) && IsPartition(chunks, selection, result)
       else HasNoStores(ChunkTraces(chunks, cells, NElements(result)))
  }

  // The effect of the read, or nothing where the selection has other sizes than the result.
  ghost predicate ReadIf<T>(before: seq<T>, after: seq<T>, cells: Cells<T>, selection: Selection, result: ResultShape)
    requires result.WellFormed() && |before| == NElements(result)
    requires Matches(selection, result) ==> Named(cells, selection, result)
  {
    if Matches(selection, result) then ReadEffect(before, after, cells, selection, result) else after == before
  }

  lemma ChunksAreRead<T>(chunks: seq<DataChunk>, before: seq<T>, cells: Cells<T>, selection: Selection,
                         result: ResultShape)
    requires result.WellFormed() && |before| == NElements(result) && AreRead(chunks, cells, selection, result)
    ensures ReadIf(before, AppliedAll(before, ReadTrace(chunks, cells, |before|)), cells, selection, result)
  {
    var traces := ChunkTraces(chunks, cells, |before|);
    if Matches(selection, result) {
      PartitionTracesAreComplete(chunks, cells, selection, result);
      JoinedTracesAreComplete(traces, cells, selection, result);
      CompleteTraceReads(before, ReadTrace(chunks, cells, |before|), cells, selection, result);
    } else {
      EmptyTraces(traces, |chunks|);
    }
  }

  lemma GroupsAreRead<T>(chunks: seq<DataChunk>, ends: seq<nat>, run: seq<Machine<T>>, before: seq<T>, after: seq<T>,
                         cells: Cells<T>, selection: Selection, result: ResultShape)
    requires result.WellFormed() && |before| == NElements(result) && AreRead(chunks, cells, selection, result)
    requires IsFanOut(chunks, ends, run, before, after, cells)
    ensures ReadIf(before, after, cells, selection, result)
  {
    if Matches(selection, result) {
      FanOutReads(chunks, ends, run, before, after, cells, selection, result);
    } else {
      EmptyFanOut(chunks, ends, run, before, after, cells);
    }
  }

  lemma ChunksArePlain(chunks: seq<DataChunk>, has: RowTest, selection: Selection, result: ResultShape)
    requires result.WellFormed() && (PartitionsByRow(result) ==> Matches(selection, result))
    requires Matches(selection, result) ==> IsPartition(chunks, selection, result)
    requires !PartitionsByRow(result) ==> HoldsSelected(CellsOf(chunks), selection, result)
    requires !Matches(selection, result) ==> WantsNothing(selection, result)
    ensures forall i :: 0 <= i < |chunks| ==> IsPlain(chunks[i])
    ensures SomeBeyond(chunks, has) <==> Matches(selection, result) && ReadsBeyond(has, selection, result)
  {
    if Matches(selection, result) {
      PartitionIsPlain(chunks, selection, result);
      ChunksExist(chunks, has, selection, result);
    } else {
      forall i | 0 <= i < |chunks|
        ensures IsPlain(chunks[i]) && EmptyCell(chunks[i].spans)
      {
        assert CellsOf(chunks)[i] == chunks[i].spans && HoldsIds(CellsOf(chunks)[i], selection, result);
        NothingIsEmpty(chunks, selection, result, i);
      }
    }
  }

  lemma ChunksAreReady<T>(chunks: seq<DataChunk>, cells: Cells<T>, has: RowTest, selection: Selection,
                          result: ResultShape)
    requires result.WellFormed() && (PartitionsByRow(result) ==> Matches(selection, result))
    requires Matches(selection, result) ==> IsPartition(chunks, selection, result)
    requires !PartitionsByRow(result) ==> HoldsSelected(CellsOf(chunks), selection, result)
    requires Matches(selection, result) ==>
               NamedWithin(cells, has, selection, result) && !ReadsBeyond(has, selection, result)
    requires !Matches(selection, result) ==> WantsNothing(selection, result)
    ensures AreRead(chunks, cells, selection, result)
  {
    if Matches(selection, result) {
      PartitionIsReady(chunks, cells, selection, result);
    } else {
      NothingIsRead(chunks, cells, selection, result, NElements(result));
    }
  }
}
