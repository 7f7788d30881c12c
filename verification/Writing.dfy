/**
 Writing the chunks of a partition from a flat buffer to a column, and reading back what
 was written (write_impl.cc).
 */
module Writing {
  import opened Wrappers
  import opened MixedRadix
  import opened Selections
  import opened Spans
  import opened RowSplit
  import opened Cartesian
  import opened ResultShapes
  import opened Chunks
  import opened Partitions
  import opened MakePartition
  import opened Stores
  import opened Reading
  import opened ReadEffects
  import opened Conservation

  // ----- values put into a column

  datatype Put<T> = Put(key: seq<int>, value: T)

  ghost predicate Present<T>(puts: seq<Put<T>>, cells: Cells<T>)
  {
    forall k :: 0 <= k < |puts| ==> puts[k].key in cells
  }

  // The cells after the first k puts.
  function Written<T>(cells: Cells<T>, puts: seq<Put<T>>, k: nat): Cells<T>
    requires k <= |puts|
  {
    if k == 0 then cells else Written(cells, puts, k - 1)[puts[k - 1].key := puts[k - 1].value]
  }

  lemma {:induction false} WrittenPrefix<T>(cells: Cells<T>, a: seq<Put<T>>, b: seq<Put<T>>, k: nat)
    requires k <= |a| && k <= |b| && forall i :: 0 <= i < k ==> a[i] == b[i]
    ensures Written(cells, a, k) == Written(cells, b, k)
  {
    if k > 0 {
      WrittenPrefix(cells, a, b, k - 1);
    }
  }

  lemma {:induction false} WrittenConcat<T>(cells: Cells<T>, a: seq<Put<T>>, b: seq<Put<T>>, k: nat)
    requires k <= |b|
    ensures Written(cells, a + b, |a| + k) == Written(Written(cells, a, |a|), b, k)
  {
    if k == 0 {
      WrittenPrefix(cells, a + b, a, |a|);
    } else {
      WrittenConcat(cells, a, b, k - 1);
    }
  }

  lemma {:induction false} WrittenKeys<T>(cells: Cells<T>, puts: seq<Put<T>>, k: nat)
    requires k <= |puts| && Present(puts, cells)
    ensures Written(cells, puts, k).Keys == cells.Keys
  {
    if k > 0 {
      WrittenKeys(cells, puts, k - 1);
    }
  }

  ghost predicate PutsTo<T>(puts: seq<Put<T>>, k: nat, key: seq<int>)
  {
    exists i :: 0 <= i < k && i < |puts| && puts[i].key == key
  }

  lemma {:induction false} WrittenAt<T>(cells: Cells<T>, puts: seq<Put<T>>, k: nat, key: seq<int>, v: T)
    requires k <= |puts| && key in cells
    requires forall i :: 0 <= i < |puts| && puts[i].key == key ==> puts[i].value == v
    ensures key in Written(cells, puts, k)
    ensures Written(cells, puts, k)[key] == if PutsTo(puts, k, key) then v else cells[key]
  {
    if k > 0 {
      WrittenAt(cells, puts, k - 1, key, v);
      assert PutsTo(puts, k, key) <==> PutsTo(puts, k - 1, key) || puts[k - 1].key == key;
    }
  }

  // The puts of a box of values, FORTRAN ordered.
  ghost function BoxPuts<T>(ids: seq<seq<int>>, data: seq<T>): (puts: seq<Put<T>>)
    requires |data| == Product(Lengths(ids))
    ensures |puts| == |data|
    ensures forall k :: 0 <= k < |data| ==> puts[k] == Put(IdsAt(ids, Unrank(Lengths(ids), k)), data[k])
  {
    seq(|data|, k requires 0 <= k < |data| => Put(IdsAt(ids, Unrank(Lengths(ids), k)), data[k]))
  }

  /** A column of a table on disk. */
  class Column<T> {
    var cells: Cells<T>

    constructor (cells: Cells<T>)
      ensures this.cells == cells
    {
      this.cells := cells;
    }

    // casacore's putColumnCells and putSlice.
    method PutBox(ids: seq<seq<int>>, data: seq<T>)
      requires BoxExists(cells, ids) && |data| == Product(Lengths(ids))
      modifies this
      ensures cells == Written(old(cells), BoxPuts(ids, data), |data|)
    {
      ghost var puts := BoxPuts(ids, data);
      for k := 0 to |data|
        invariant cells == Written(old(cells), puts, k)
      {
        cells := cells[IdsAt(ids, Unrank(Lengths(ids), k)) := data[k]];
      }
    }
  }

  // ----- gathering one chunk

  // The values of the chunk's elements in the buffer, in the order of the chunk.
  ghost function Gathered<T>(chunk: DataChunk, buffer: seq<T>): (data: seq<T>)
    requires Fitting(chunk, |buffer|)
    ensures |data| == Product(Sizes(chunk.spans))
    ensures forall k :: 0 <= k < |data| ==> data[k] == buffer[Address(chunk, ElementAt(chunk, k))]
  {
    seq(Product(Sizes(chunk.spans)), k requires 0 <= k < Product(Sizes(chunk.spans)) =>
      buffer[Address(chunk, ElementAt(chunk, k))])
  }

  // Gathers the element at pos, which is number k of the chunk.
  method GatherElement<T>(chunk: DataChunk, buffer: seq<T>, pos: array<nat>, data: array<T>, ghost k: nat)
    requires Fitting(chunk, |buffer|) && data.Length == Product(Sizes(chunk.spans)) && pos as object != data
    requires InCell(pos[..], chunk.spans) && k == Rank(Sizes(chunk.spans), pos[..]) && k < data.Length
    requires data[..k] == Gathered(chunk, buffer)[..k]
    modifies data
    ensures data[..k + 1] == Gathered(chunk, buffer)[..k + 1]
  {
    ghost var p := pos[..];
    var o, i := Offsets(chunk, pos);
    RankUnrank(Sizes(chunk.spans), p);
    data[o] := buffer[chunk.flatOffset + i];
    ghost var all := Gathered(chunk, buffer);
    assert all[k] == buffer[Address(chunk, p)];
    assert data[..k + 1] == data[..k] + [all[k]] && all[..k + 1] == all[..k] + [all[k]];
  }

  /** Collects the data of a chunk from the buffer, in the order of its box, by stepping an odometer. */
  method GatherChunkArray<T>(chunk: DataChunk, buffer: seq<T>) returns (gathered: seq<T>)
    requires Fitting(chunk, |buffer|) && Product(Sizes(chunk.spans)) > 0
    ensures gathered == Gathered(chunk, buffer)
  {
    var n := Sizes(chunk.spans);
    var pos := new nat[|chunk.spans|](_ => 0);
    FirstPosition(n, pos[..]);
    assert InCell(pos[..], chunk.spans);
    var filler := buffer[chunk.flatOffset + DotAt(chunk, pos[..])];
    var data := new T[Product(n)](_ => filler);
    ghost var k := 0;
    var done := false;
    while !done
      invariant InBox(pos[..], n)
      invariant if done then k == data.Length else k < data.Length && Rank(n, pos[..]) == k
      invariant data[..k] == Gathered(chunk, buffer)[..k]
      decreases data.Length - k, !done
    {
      GatherElement(chunk, buffer, pos, data, k);
      k := k + 1;
      done := Advance(n, pos);
    }
    assert data[..data.Length] == data[..];
    return data[..];
  }

  function DotAt(chunk: DataChunk, p: seq<nat>): int
    requires InCell(p, chunk.spans) && |chunk.minMem| == |chunk.bufferStrides| == |chunk.spans|
  {
    Dot(Differences(chunk, p), chunk.bufferStrides, |chunk.spans|)
  }

  // The stretch of the buffer that a contiguous chunk occupies.
  lemma ContiguousIsGathered<T>(chunk: DataChunk, buffer: seq<T>)
    requires Fitting(chunk, |buffer|)
    requires forall p :: InCell(p, chunk.spans) ==> Address(chunk, p) == chunk.flatOffset + Rank(Sizes(chunk.spans), p)
    requires Product(Sizes(chunk.spans)) > 0
    ensures chunk.flatOffset + Product(Sizes(chunk.spans)) <= |buffer|
    ensures buffer[chunk.flatOffset..chunk.flatOffset + Product(Sizes(chunk.spans))] == Gathered(chunk, buffer)
  {
    var n := Product(Sizes(chunk.spans));
    forall k | 0 <= k < n
      ensures Address(chunk, ElementAt(chunk, k)) == chunk.flatOffset + k < |buffer|
    {
      UnrankRank(Sizes(chunk.spans), k);
    }
    assert Address(chunk, ElementAt(chunk, n - 1)) < |buffer|;
  }

  // ----- writing chunks

  // The puts that writing a chunk makes; an empty chunk is skipped.
  ghost function ChunkPuts<T>(chunk: DataChunk, buffer: seq<T>, cells: Cells<T>): (puts: seq<Put<T>>)
    requires IsReady(chunk, cells, |buffer|)
  {
    if EmptyCell(chunk.spans) then []
    else
      BoxIsChunk(chunk.spans);
      BoxPuts(DiskIds(chunk.spans), Gathered(chunk, buffer))
  }

  ghost function ChunkPutLists<T>(chunks: seq<DataChunk>, buffer: seq<T>, cells: Cells<T>): (lists: seq<seq<Put<T>>>)
    requires AllReady(chunks, cells, |buffer|)
    ensures |lists| == |chunks|
    ensures forall i :: 0 <= i < |chunks| ==> lists[i] == ChunkPuts(chunks[i], buffer, cells)
  {
    seq(|chunks|, i requires 0 <= i < |chunks| => ChunkPuts(chunks[i], buffer, cells))
  }

  method WriteChunk<T>(chunk: DataChunk, column: Column<T>, buffer: seq<T>)
    requires IsReady(chunk, column.cells, |buffer|)
    modifies column
    ensures var puts := ChunkPuts(chunk, buffer, old(column.cells));
            column.cells == Written(old(column.cells), puts, |puts|)
  {
    var empty := IsEmpty(chunk);
    if !empty {
      ElementsAreSizes(chunk.spans, |chunk.spans|);
      BoxIsChunk(chunk.spans);
      var ids := BoxIds(SectionSlicer(chunk.spans), ReferenceRows(chunk.spans));
      if chunk.contiguous {
        ContiguousIsGathered(chunk, buffer);
        column.PutBox(ids, buffer[chunk.flatOffset..chunk.flatOffset + Product(Sizes(chunk.spans))]);
      } else {
        var data := GatherChunkArray(chunk, buffer);
        column.PutBox(ids, data);
      }
    }
  }

  lemma SameReadiness<T>(chunk: DataChunk, a: Cells<T>, b: Cells<T>, buffer: seq<T>)
    requires a.Keys == b.Keys && IsReady(chunk, a, |buffer|)
    ensures IsReady(chunk, b, |buffer|) && ChunkPuts(chunk, buffer, a) == ChunkPuts(chunk, buffer, b)
  {
  }

  lemma ChunkPutsPresent<T>(chunk: DataChunk, buffer: seq<T>, cells: Cells<T>)
    requires IsReady(chunk, cells, |buffer|)
    ensures Present(ChunkPuts(chunk, buffer, cells), cells)
  {
    if !EmptyCell(chunk.spans) {
      BoxIsChunk(chunk.spans);
    }
  }

  lemma {:induction false} JoinPresent<T>(lists: seq<seq<Put<T>>>, cells: Cells<T>, n: nat)
    requires n <= |lists| && forall i :: 0 <= i < |lists| ==> Present(lists[i], cells)
    ensures Present(JoinUpTo(lists, n), cells)
  {
    if n > 0 {
      JoinPresent(lists, cells, n - 1);
    }
  }

  ghost predicate ListsPresent<T>(lists: seq<seq<Put<T>>>, cells: Cells<T>)
  {
    forall i :: 0 <= i < |lists| ==> Present(lists[i], cells)
  }

  lemma AllPutsPresent<T>(chunks: seq<DataChunk>, buffer: seq<T>, cells: Cells<T>)
    requires AllReady(chunks, cells, |buffer|)
    ensures ListsPresent(ChunkPutLists(chunks, buffer, cells), cells)
  {
    forall i | 0 <= i < |chunks|
      ensures Present(ChunkPutLists(chunks, buffer, cells)[i], cells)
    {
      ChunkPutsPresent(chunks[i], buffer, cells);
    }
  }

  // The column after the first i lists of puts.
  function WrittenLists<T>(cells: Cells<T>, lists: seq<seq<Put<T>>>, i: nat): Cells<T>
    requires i <= |lists|
  {
    Written(cells, JoinUpTo(lists, i), |JoinUpTo(lists, i)|)
  }

  lemma WrittenListsStep<T>(was: Cells<T>, lists: seq<seq<Put<T>>>, i: nat)
    requires ListsPresent(lists, was) && i < |lists|
    ensures WrittenLists(was, lists, i).Keys == was.Keys
    ensures WrittenLists(was, lists, i + 1) == Written(WrittenLists(was, lists, i), lists[i], |lists[i]|)
  {
    JoinPresent(lists, was, i);
    WrittenKeys(was, JoinUpTo(lists, i), |JoinUpTo(lists, i)|);
    WrittenConcat(was, JoinUpTo(lists, i), lists[i], |lists[i]|);
  }

  // The next chunk can still be written, with the puts planned for it.
  lemma WriteStep<T>(was: Cells<T>, chunk: DataChunk, lists: seq<seq<Put<T>>>, buffer: seq<T>, i: nat)
    requires IsReady(chunk, was, |buffer|) && ListsPresent(lists, was)
    requires i < |lists| && lists[i] == ChunkPuts(chunk, buffer, was)
    ensures IsReady(chunk, WrittenLists(was, lists, i), |buffer|)
    ensures ChunkPuts(chunk, buffer, WrittenLists(was, lists, i)) == lists[i]
  {
    WrittenListsStep(was, lists, i);
    SameReadiness(chunk, was, WrittenLists(was, lists, i), buffer);
  }

  method WriteChunks<T>(chunks: seq<DataChunk>, column: Column<T>, buffer: seq<T>)
    requires AllReady(chunks, column.cells, |buffer|)
    modifies column
    ensures column.cells == WrittenLists(old(column.cells), ChunkPutLists(chunks, buffer, old(column.cells)), |chunks|)
  {
    ghost var was := column.cells;
    ghost var lists := ChunkPutLists(chunks, buffer, was);
    AllPutsPresent(chunks, buffer, was);
    for i := 0 to |chunks|
      invariant column.cells == WrittenLists(was, lists, i)
    {
      WriteStep(was, chunks[i], lists, buffer, i);
      WrittenListsStep(was, lists, i);
      WriteChunk(chunks[i], column, buffer);
    }
  }

  // ----- the effect

  // No two positions name the same element of the column.
  ghost predicate NamesDistinct(selection: Selection, result: ResultShape)
    requires result.WellFormed() && Matches(selection, result)
  {
    forall j, k :: InResult(result, j) && InResult(result, k) && NameAlike(j, k, selection, result) ==> j == k
  }

  // Both positions name one element.
  ghost predicate NameAlike(j: seq<nat>, k: seq<nat>, selection: Selection, result: ResultShape)
    requires result.WellFormed() && Matches(selection, result) && InResult(result, j) && InResult(result, k)
  {
    NoHole(DiskIndex(selection, result, j)) && DiskIndex(selection, result, j) == DiskIndex(selection, result, k)
  }

  ghost predicate IsNamed(key: seq<int>, selection: Selection, result: ResultShape)
    requires result.WellFormed() && Matches(selection, result)
  {
    exists j :: InResult(result, j) && NoHole(DiskIndex(selection, result, j)) && DiskIndex(selection, result, j) == key
  }

  // The column holds the data at every element named, and is otherwise as it was.
  ghost predicate WriteEffect<T>(before: Cells<T>, after: Cells<T>, data: seq<T>, selection: Selection,
                                 result: ResultShape)
    requires result.WellFormed() && Matches(selection, result) && |data| == NElements(result)
  {
    && after.Keys == before.Keys
    && (forall j :: InResult(result, j) && NoHole(DiskIndex(selection, result, j)) ==>
          ElementWritten(after, data, selection, result, j))
    && (forall key :: key in before && !IsNamed(key, selection, result) ==> after[key] == before[key])
  }

  ghost predicate ElementWritten<T>(after: Cells<T>, data: seq<T>, selection: Selection, result: ResultShape,
                                    j: seq<nat>)
    requires result.WellFormed() && Matches(selection, result) && |data| == NElements(result) && InResult(result, j)
  {
    FlatPositionBound(result, j);
    var i := DiskIndex(selection, result, j);
    i in after && after[i] == data[FlatPosition(result, j)]
  }

  // The put gives an element named by a position the datum at that position.
  ghost predicate IsPutOf<T>(put: Put<T>, data: seq<T>, selection: Selection, result: ResultShape, j: seq<nat>)
    requires result.WellFormed() && Matches(selection, result) && |data| == NElements(result)
  {
    && InResult(result, j) && NoHole(DiskIndex(selection, result, j))
    && FlatPosition(result, j) < |data|
    && put == Put(DiskIndex(selection, result, j), data[FlatPosition(result, j)])
  }

  ghost predicate IsGoodPut<T>(put: Put<T>, data: seq<T>, selection: Selection, result: ResultShape)
    requires result.WellFormed() && Matches(selection, result) && |data| == NElements(result)
  {
    exists j :: IsPutOf(put, data, selection, result, j)
  }

  ghost predicate ArePuts<T>(puts: seq<Put<T>>, data: seq<T>, selection: Selection, result: ResultShape)
    requires result.WellFormed() && Matches(selection, result) && |data| == NElements(result)
  {
    && (forall k :: 0 <= k < |puts| ==> IsGoodPut(puts[k], data, selection, result))
    && (forall j :: InResult(result, j) && NoHole(DiskIndex(selection, result, j)) ==>
          PutsTo(puts, |puts|, DiskIndex(selection, result, j)))
  }

  // The datum for a position.
  ghost function Datum<T>(data: seq<T>, result: ResultShape, j: seq<nat>): T
    requires result.WellFormed() && |data| == NElements(result) && InResult(result, j)
  {
    FlatPositionBound(result, j);
    data[FlatPosition(result, j)]
  }

  // An element named by a position holds the datum of some position that names it.
  ghost predicate HoldsSome<T>(after: Cells<T>, data: seq<T>, selection: Selection, result: ResultShape, j: seq<nat>)
    requires result.WellFormed() && Matches(selection, result) && |data| == NElements(result) && InResult(result, j)
  {
    && DiskIndex(selection, result, j) in after
    && exists k :: InResult(result, k) && NameAlike(j, k, selection, result)
                   && after[DiskIndex(selection, result, j)] == Datum(data, result, k)
  }

  // What any write does: elements named hold one of the data for them, others are as they were.
  ghost predicate WritesSome<T>(before: Cells<T>, after: Cells<T>, data: seq<T>, selection: Selection,
                                result: ResultShape)
    requires result.WellFormed() && Matches(selection, result) && |data| == NElements(result)
  {
    && after.Keys == before.Keys
    && (forall j :: InResult(result, j) && NoHole(DiskIndex(selection, result, j)) ==>
          HoldsSome(after, data, selection, result, j))
    && (forall key :: key in before && !IsNamed(key, selection, result) ==> after[key] == before[key])
  }

  // Positions that name the same element have the same datum.
  ghost predicate AlikeAgree<T>(data: seq<T>, selection: Selection, result: ResultShape)
    requires result.WellFormed() && Matches(selection, result) && |data| == NElements(result)
  {
    forall j, k :: InResult(result, j) && InResult(result, k) && NameAlike(j, k, selection, result) ==>
      Datum(data, result, j) == Datum(data, result, k)
  }

  // The last put to a key stays.
  lemma {:induction false} WrittenBySome<T>(cells: Cells<T>, puts: seq<Put<T>>, n: nat, key: seq<int>) returns (i: nat)
    requires n <= |puts| && exists k :: 0 <= k < n && puts[k].key == key
    ensures i < n && puts[i].key == key && key in Written(cells, puts, n)
    ensures Written(cells, puts, n)[key] == puts[i].value
  {
    if puts[n - 1].key == key {
      i := n - 1;
    } else {
      i := WrittenBySome(cells, puts, n - 1, key);
    }
  }

  lemma PutReaches<T>(before: Cells<T>, puts: seq<Put<T>>, data: seq<T>, selection: Selection, result: ResultShape,
                      j: seq<nat>)
    requires result.WellFormed() && Matches(selection, result) && |data| == NElements(result)
    requires ArePuts(puts, data, selection, result) && InResult(result, j) && NoHole(DiskIndex(selection, result, j))
    ensures HoldsSome(Written(before, puts, |puts|), data, selection, result, j)
  {
    assert PutsTo(puts, |puts|, DiskIndex(selection, result, j));
    var i := WrittenBySome(before, puts, |puts|, DiskIndex(selection, result, j));
    assert IsGoodPut(puts[i], data, selection, result);
    var k :| IsPutOf(puts[i], data, selection, result, k);
    assert NameAlike(j, k, selection, result) && puts[i].value == Datum(data, result, k);
  }

  lemma PutsWriteSome<T>(before: Cells<T>, puts: seq<Put<T>>, data: seq<T>, selection: Selection, result: ResultShape)
    requires result.WellFormed() && Matches(selection, result) && |data| == NElements(result)
    requires ArePuts(puts, data, selection, result) && Present(puts, before)
    ensures WritesSome(before, Written(before, puts, |puts|), data, selection, result)
  {
    var after := Written(before, puts, |puts|);
    WrittenKeys(before, puts, |puts|);
    forall j | InResult(result, j) && NoHole(DiskIndex(selection, result, j))
      ensures HoldsSome(after, data, selection, result, j)
    {
      PutReaches(before, puts, data, selection, result, j);
    }
    forall key | key in before && !IsNamed(key, selection, result)
      ensures after[key] == before[key]
    {
      PutsMiss(before, puts, data, selection, result, key);
    }
  }

  lemma WrittenAgree<T>(before: Cells<T>, after: Cells<T>, data: seq<T>, selection: Selection, result: ResultShape,
                        j: seq<nat>, k: seq<nat>)
    requires result.WellFormed() && Matches(selection, result) && |data| == NElements(result)
    requires WriteEffect(before, after, data, selection, result)
    requires InResult(result, j) && InResult(result, k) && NameAlike(j, k, selection, result)
    ensures Datum(data, result, j) == Datum(data, result, k)
  {
    assert ElementWritten(after, data, selection, result, j) && ElementWritten(after, data, selection, result, k);
  }

  lemma AgreeingIsWritten<T>(after: Cells<T>, data: seq<T>, selection: Selection, result: ResultShape, j: seq<nat>)
    requires result.WellFormed() && Matches(selection, result) && |data| == NElements(result) && InResult(result, j)
    requires AlikeAgree(data, selection, result) && HoldsSome(after, data, selection, result, j)
    ensures ElementWritten(after, data, selection, result, j)
  {
    var k :| InResult(result, k) && NameAlike(j, k, selection, result)
        && after[DiskIndex(selection, result, j)] == Datum(data, result, k);
    assert Datum(data, result, j) == Datum(data, result, k);
  }

  lemma WrittenAllAgree<T>(before: Cells<T>, after: Cells<T>, data: seq<T>, selection: Selection, result: ResultShape)
    requires result.WellFormed() && Matches(selection, result) && |data| == NElements(result)
    requires WriteEffect(before, after, data, selection, result)
    ensures AlikeAgree(data, selection, result)
  {
    forall j, k | InResult(result, j) && InResult(result, k) && NameAlike(j, k, selection, result)
      ensures Datum(data, result, j) == Datum(data, result, k)
    {
      WrittenAgree(before, after, data, selection, result, j, k);
    }
  }

  lemma AgreeingAreWritten<T>(before: Cells<T>, after: Cells<T>, data: seq<T>, selection: Selection,
                              result: ResultShape)
    requires result.WellFormed() && Matches(selection, result) && |data| == NElements(result)
    requires WritesSome(before, after, data, selection, result) && AlikeAgree(data, selection, result)
    ensures WriteEffect(before, after, data, selection, result)
  {
    forall j | InResult(result, j) && NoHole(DiskIndex(selection, result, j))
      ensures ElementWritten(after, data, selection, result, j)
    {
      AgreeingIsWritten(after, data, selection, result, j);
    }
  }

  /**
   A write leaves every datum in the column exactly if positions that name the same element
   have the same datum; otherwise one of several stays.
   */
  lemma WritesAllIfAlikeAgree<T>(before: Cells<T>, after: Cells<T>, data: seq<T>, selection: Selection,
                                 result: ResultShape)
    requires result.WellFormed() && Matches(selection, result) && |data| == NElements(result)
    requires WritesSome(before, after, data, selection, result)
    ensures WriteEffect(before, after, data, selection, result) <==> AlikeAgree(data, selection, result)
  {
    if WriteEffect(before, after, data, selection, result) {
      WrittenAllAgree(before, after, data, selection, result);
    }
    if AlikeAgree(data, selection, result) {
      AgreeingAreWritten(before, after, data, selection, result);
    }
  }

  lemma PutsMiss<T>(before: Cells<T>, puts: seq<Put<T>>, data: seq<T>, selection: Selection, result: ResultShape,
                    key: seq<int>)
    requires result.WellFormed() && Matches(selection, result) && |data| == NElements(result)
    requires ArePuts(puts, data, selection, result) && key in before && !IsNamed(key, selection, result)
    ensures key in Written(before, puts, |puts|) && Written(before, puts, |puts|)[key] == before[key]
  {
    forall i | 0 <= i < |puts|
      ensures puts[i].key != key
    {
      assert IsGoodPut(puts[i], data, selection, result);
      var k :| IsPutOf(puts[i], data, selection, result, k);
    }
    WrittenAt(before, puts, |puts|, key, before[key]);
  }

  lemma ChunkPutIsGood<T>(chunk: DataChunk, data: seq<T>, cells: Cells<T>, selection: Selection, result: ResultShape,
                          k: nat)
    requires result.WellFormed() && Matches(selection, result) && |data| == NElements(result)
    requires CellOk(chunk.spans, selection, result) && IsChunkOf(chunk, chunk.spans, chunk.contiguous, result)
    requires IsReady(chunk, cells, |data|) && k < |ChunkPuts(chunk, data, cells)|
    ensures IsGoodPut(ChunkPuts(chunk, data, cells)[k], data, selection, result)
  {
    PutOfChunk(chunk, data, cells, k);
    var p := ElementAt(chunk, k);
    ChunkElement(chunk, selection, result, p);
    assert IsPutOf(ChunkPuts(chunk, data, cells)[k], data, selection, result, MemAt(chunk.spans, p));
  }

  // Put k of a chunk is that of its element k.
  lemma PutOfChunk<T>(chunk: DataChunk, data: seq<T>, cells: Cells<T>, k: nat)
    requires IsReady(chunk, cells, |data|) && k < |ChunkPuts(chunk, data, cells)|
    ensures k < Product(Sizes(chunk.spans)) && InCell(ElementAt(chunk, k), chunk.spans)
    ensures NoHole(DiskAt(chunk.spans, ElementAt(chunk, k)))
    ensures 0 <= Address(chunk, ElementAt(chunk, k)) < |data|
    ensures ChunkPuts(chunk, data, cells)[k]
         == Put(DiskAt(chunk.spans, ElementAt(chunk, k)), data[Address(chunk, ElementAt(chunk, k))])
  {
    BoxIsChunk(chunk.spans);
    var p := ElementAt(chunk, k);
    DiskAtHasNoHole(chunk.spans, p);
    assert IdsAt(DiskIds(chunk.spans), p) == DiskAt(chunk.spans, p);
  }

  lemma ChunkPutsPosition<T>(chunk: DataChunk, data: seq<T>, cells: Cells<T>, selection: Selection,
                             result: ResultShape, j: seq<nat>)
    requires result.WellFormed() && Matches(selection, result) && |data| == NElements(result)
    requires CellOk(chunk.spans, selection, result) && IsChunkOf(chunk, chunk.spans, chunk.contiguous, result)
    requires IsReady(chunk, cells, |data|)
    requires InResult(result, j) && HoldsPosition(chunk.spans, j) && NoHole(DiskIndex(selection, result, j))
    ensures var puts := ChunkPuts(chunk, data, cells); PutsTo(puts, |puts|, DiskIndex(selection, result, j))
  {
    var p := HolderIsNotEmpty(chunk.spans, selection, result, j);
    ChunkElement(chunk, selection, result, p);
    PutOfElement(chunk, data, cells, p);
  }

  lemma PutOfElement<T>(chunk: DataChunk, data: seq<T>, cells: Cells<T>, p: seq<nat>)
    requires IsReady(chunk, cells, |data|) && !EmptyCell(chunk.spans) && InCell(p, chunk.spans)
    ensures var puts := ChunkPuts(chunk, data, cells); PutsTo(puts, |puts|, DiskAt(chunk.spans, p))
  {
    var k := Rank(Sizes(chunk.spans), p);
    BoxIsChunk(chunk.spans);
    RankUnrank(Sizes(chunk.spans), p);
    PutOfChunk(chunk, data, cells, k);
    assert ChunkPuts(chunk, data, cells)[k].key == DiskAt(chunk.spans, p);
  }

  lemma PartitionPuts<T>(chunks: seq<DataChunk>, data: seq<T>, cells: Cells<T>, selection: Selection,
                         result: ResultShape)
    requires result.WellFormed() && Matches(selection, result) && |data| == NElements(result)
    requires IsPartition(chunks, selection, result) && AllReady(chunks, cells, |data|)
    ensures ArePuts(JoinUpTo(ChunkPutLists(chunks, data, cells), |chunks|), data, selection, result)
    ensures Present(JoinUpTo(ChunkPutLists(chunks, data, cells), |chunks|), cells)
  {
    var lists := ChunkPutLists(chunks, data, cells);
    var puts := JoinUpTo(lists, |chunks|);
    forall i | 0 <= i < |lists|
      ensures Present(lists[i], cells)
    {
      ChunkPutsPresent(chunks[i], data, cells);
    }
    JoinPresent(lists, cells, |chunks|);
    forall k | 0 <= k < |puts|
      ensures IsGoodPut(puts[k], data, selection, result)
    {
      var i, x := JoinMember(lists, |chunks|, k);
      PartitionChunk(chunks, selection, result, i);
      ChunkPutIsGood(chunks[i], data, cells, selection, result, x);
    }
    forall j | InResult(result, j) && NoHole(DiskIndex(selection, result, j))
      ensures PutsTo(puts, |puts|, DiskIndex(selection, result, j))
    {
      var i := PartitionHolds(chunks, selection, result, j);
      PartitionChunk(chunks, selection, result, i);
      ChunkPutsPosition(chunks[i], data, cells, selection, result, j);
      var x :| 0 <= x < |lists[i]| && lists[i][x].key == DiskIndex(selection, result, j);
      var k := JoinContains(lists, |chunks|, i, x);
    }
  }

  // ----- distinct names

  lemma IsRepeat(ids: seq<int>, x: nat, y: nat)
    requires x < y < |ids| && ids[x] == ids[y] >= 0
    ensures HasRepeat(ids)
  {
  }

  lemma SameIdSamePlace(ids: seq<int>, x: nat, y: nat)
    requires !HasRepeat(ids) && x < |ids| && y < |ids| && ids[x] == ids[y] >= 0
    ensures x == y
  {
    if x < y {
      IsRepeat(ids, x, y);
    } else if y < x {
      IsRepeat(ids, y, x);
    }
  }

  /** If no dimension repeats an id to write, no two positions name the same element. */
  lemma NoRepeatsNameDistinct(selection: Selection, result: ResultShape)
    requires result.WellFormed() && Matches(selection, result)
    requires !HasRepeat(RowIds(selection, result)) && !SomeRowRepeats(selection, result)
    ensures NamesDistinct(selection, result)
  {
    forall j, k | InResult(result, j) && InResult(result, k) && NameAlike(j, k, selection, result)
      ensures j == k
    {
      var last := |j| - 1;
      var a, b := DiskIndex(selection, result, j), DiskIndex(selection, result, k);
      assert a[last] == b[last];
      SameIdSamePlace(RowIds(selection, result), j[last], k[last]);
      assert !RowRepeats(selection, result, j[last]);
      forall d | 0 <= d < last
        ensures j[d] == k[d]
      {
        assert a[d] == b[d];
        SameIdSamePlace(CellIds(selection, result, j[last], d), j[d], k[d]);
      }
    }
  }

  /** A partition of a fixed shape already excludes repeated rows; otherwise they are the caller's. */
  lemma PartitionedNamesDistinct(selection: Selection, result: ResultShape)
    requires result.WellFormed() && Matches(selection, result) && !CannotPartition(selection, result)
    requires result.Varying? || result.HasCellExtents() ==> !HasRepeat(RowIds(selection, result))
    ensures NamesDistinct(selection, result)
  {
    if result.Fixed? && !result.HasCellExtents() {
      forall r | 0 <= r < result.NRows()
        ensures !RowRepeats(selection, result, r)
      {
        forall d | 0 <= d < result.NDim() - 1
          ensures !HasRepeat(CellIds(selection, result, r, d))
        {
          assert CellIds(selection, result, r, d) == FixedIds(selection, result, d);
        }
      }
      assert RowIds(selection, result) == FixedIds(selection, result, result.NDim() - 1);
    }
    NoRepeatsNameDistinct(selection, result);
  }

  /** So data for distinct rows are all in the column once they are written. */
  lemma DistinctRowsAgree<T>(data: seq<T>, selection: Selection, result: ResultShape)
    requires result.WellFormed() && Matches(selection, result) && !CannotPartition(selection, result)
    requires result.Varying? || result.HasCellExtents() ==> !HasRepeat(RowIds(selection, result))
    requires |data| == NElements(result)
    ensures AlikeAgree(data, selection, result)
  {
    PartitionedNamesDistinct(selection, result);
  }

  /**
   Partitions the data and writes every chunk to the column. All data are in it then
   exactly if those for the same element agree.
   */
  method WriteResult<T>(column: Column<T>, data: seq<T>, selection: Selection, result: ResultShape)
    returns (r: Result<seq<DataChunk>>)
    requires result.WellFormed() && Matches(selection, result) && Named(column.cells, selection, result)
    requires |data| == NElements(result)
    modifies column
    ensures r.Failure? <==> CannotPartition(selection, result)
    ensures r.Failure? ==> column.cells == old(column.cells)
    ensures r.Success? ==> WritesSome(old(column.cells), column.cells, data, selection, result)
    ensures r.Success? ==> (WriteEffect(old(column.cells), column.cells, data, selection, result)
                            <==> AlikeAgree(data, selection, result))
  {
    r := Make(selection, result, RowSplitOptions(1, 0, None), 1);
    if r.Success? {
      WritePartition(r.value, column, data, selection, result);
    }
  }

  method WritePartition<T>(chunks: seq<DataChunk>, column: Column<T>, data: seq<T>, selection: Selection,
                           result: ResultShape)
    requires result.WellFormed() && Matches(selection, result) && Named(column.cells, selection, result)
    requires IsPartition(chunks, selection, result) && |data| == NElements(result)
    modifies column
    ensures WritesSome(old(column.cells), column.cells, data, selection, result)
    ensures WriteEffect(old(column.cells), column.cells, data, selection, result)
       <==> AlikeAgree(data, selection, result)
  {
    ghost var before := column.cells;
    PartitionIsReady(chunks, before, selection, result);
    PartitionPuts(chunks, data, before, selection, result);
    PutsWriteSome(before, JoinUpTo(ChunkPutLists(chunks, data, before), |chunks|), data, selection, result);
    WriteChunks(chunks, column, data);
    WritesAllIfAlikeAgree(before, column.cells, data, selection, result);
  }

  /** Two data for the same row of varying data: the partition accepts them, and one is lost. */
  lemma RepeatedRowLosesDatum<T>(a: T, b: T, selection: Selection, result: ResultShape)
    requires a != b && selection == Selection([[0, 0]]) && result == Varying(2, [[1], [1]])
    ensures result.WellFormed() && Matches(selection, result) && !CannotPartition(selection, result)
    ensures NElements(result) == 2 && !AlikeAgree([a, b], selection, result)
  {
    RepeatedRowsArePartitioned(selection, result);
    RowOffsetOfOnes(result.rowShapes, 2);
    RowOffsetOfOnes(result.rowShapes, 1);
    var j, k := [0, 0], [0, 1];
    assert InResult(result, j) && InResult(result, k);
    assert RowIds(selection, result) == [0, 0];
    assert DiskIndex(selection, result, j) == [0, 0] == DiskIndex(selection, result, k);
    assert NameAlike(j, k, selection, result);
    assert FlatPosition(result, j) == 0 && FlatPosition(result, k) == 1;
    assert Datum([a, b], result, j) == a && Datum([a, b], result, k) == b;
  }

  lemma {:induction false} RowOffsetOfOnes(rowShapes: seq<Shape>, n: nat)
    requires n <= |rowShapes| && forall r :: 0 <= r < |rowShapes| ==> rowShapes[r] == [1]
    ensures RowOffset(rowShapes, n) == n
  {
    if n > 0 {
      RowOffsetOfOnes(rowShapes, n - 1);
      assert Stride([1], 0) == 1 && Product([1]) == 1;
    }
  }

  // ----- writing and reading undo each other

  // Where no hole is selected the buffer read has the data.
  ghost predicate ReadsBack<T>(read: seq<T>, data: seq<T>, selection: Selection, result: ResultShape)
    requires result.WellFormed() && Matches(selection, result) && |data| == |read| == NElements(result)
  {
    forall j :: InResult(result, j) && NoHole(DiskIndex(selection, result, j)) ==>
      Datum(read, result, j) == Datum(data, result, j)
  }

  lemma ReadsWritten<T>(after: Cells<T>, data: seq<T>, buffer: seq<T>, read: seq<T>, selection: Selection,
                        result: ResultShape, j: seq<nat>)
    requires result.WellFormed() && Matches(selection, result) && |data| == |buffer| == NElements(result)
    requires Named(after, selection, result) && ReadEffect(buffer, read, after, selection, result)
    requires InResult(result, j) && NoHole(DiskIndex(selection, result, j))
    ensures Datum(read, result, j) == Datum(data, result, j) <==> ElementWritten(after, data, selection, result, j)
  {
    assert ElementRead(buffer, read, after, selection, result, j);
  }

  /**
   Reading what a write left in the column, through the same selection, gives all the data
   back exactly if those for the same element agree.
   */
  lemma RoundTripIfAlikeAgree<T>(before: Cells<T>, after: Cells<T>, data: seq<T>, buffer: seq<T>, read: seq<T>,
                                 selection: Selection, result: ResultShape)
    requires result.WellFormed() && Matches(selection, result) && |data| == |buffer| == NElements(result)
    requires Named(before, selection, result) && WritesSome(before, after, data, selection, result)
    requires Named(after, selection, result) && ReadEffect(buffer, read, after, selection, result)
    ensures |read| == NElements(result)
    ensures ReadsBack(read, data, selection, result) <==> AlikeAgree(data, selection, result)
  {
    WritesAllIfAlikeAgree(before, after, data, selection, result);
    forall j | InResult(result, j) && NoHole(DiskIndex(selection, result, j))
      ensures Datum(read, result, j) == Datum(data, result, j) <==> ElementWritten(after, data, selection, result, j)
    {
      ReadsWritten(after, data, buffer, read, selection, result, j);
    }
  }

  /** Reading what was written, through the same selection, gives the data back. */
  lemma WriteThenRead<T>(before: Cells<T>, after: Cells<T>, data: seq<T>, buffer: seq<T>, read: seq<T>,
                         selection: Selection, result: ResultShape)
    requires result.WellFormed() && Matches(selection, result) && |data| == |buffer| == NElements(result)
    requires Named(before, selection, result)
    requires WriteEffect(before, after, data, selection, result)
    requires ReadEffect(buffer, read, after, selection, result)
    ensures |read| == NElements(result)
    ensures forall j :: InResult(result, j) ==>
              FlatPosition(result, j) < |read|
              && read[FlatPosition(result, j)]
                    == (if NoHole(DiskIndex(selection, result, j)) then data else buffer)[FlatPosition(result, j)]
  {
    forall j | InResult(result, j)
      ensures FlatPosition(result, j) < |read|
      ensures read[FlatPosition(result, j)]
            == (if NoHole(DiskIndex(selection, result, j)) then data else buffer)[FlatPosition(result, j)]
    {
      FlatPositionBound(result, j);
      assert ElementRead(buffer, read, after, selection, result, j);
      if NoHole(DiskIndex(selection, result, j)) {
        assert ElementWritten(after, data, selection, result, j);
      }
    }
  }

  /** Writing back what was read leaves the column as it was. */
  lemma ReadThenWrite<T>(cells: Cells<T>, buffer: seq<T>, read: seq<T>, after: Cells<T>, selection: Selection,
                         result: ResultShape)
    requires result.WellFormed() && Matches(selection, result) && |buffer| == NElements(result)
    requires Named(cells, selection, result)
    requires ReadEffect(buffer, read, cells, selection, result)
    requires WriteEffect(cells, after, read, selection, result)
    ensures after == cells
  {
    forall key | key in cells
      ensures after[key] == cells[key]
    {
      if IsNamed(key, selection, result) {
        var j :| InResult(result, j) && NoHole(DiskIndex(selection, result, j))
            && DiskIndex(selection, result, j) == key;
        assert ElementRead(buffer, read, cells, selection, result, j);
        assert ElementWritten(after, read, selection, result, j);
      }
    }
  }
}
