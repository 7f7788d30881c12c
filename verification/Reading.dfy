/**
 Reading the chunks of a partition into a flat buffer (read_impl.cc): the box read from
 disk, its transposition into the buffer, and the effect of reading every chunk.
 */
module Reading {
  import opened MixedRadix
  import opened Spans
  import opened Cartesian
  import opened Chunks
  import opened Stores

  // The values of a column, by the indices within a cell followed by the row.
  type Cells<T> = map<seq<int>, T>

  // ----- the box that casacore reads

  // Inclusive ranges along the dimensions of a cell.
  datatype Slicer = Slicer(start: seq<int>, end: seq<int>)

  // Rows, as a slice or as a list.
  datatype RefRows = RowSlice(first: int, last: int) | RowList(rows: seq<int>)

  function Range(first: int, last: int): (r: seq<int>)
    ensures |r| == if first <= last then last - first + 1 else 0
    ensures forall k :: 0 <= k < |r| ==> r[k] == first + k
  {
    if first <= last then seq(last - first + 1, k => first + k) else []
  }

  function RowsOf(rows: RefRows): seq<int>
  {
    match rows
    case RowSlice(first, last) => Range(first, last)
    case RowList(list) => list
  }

  function ReferenceRows(cell: Cell): RefRows
    requires cell != []
  {
    var s := LastDim(cell).disk;
    if |s| > 0 && s[0] >= 0 && |s| == s[|s| - 1] - s[0] + 1 then RowSlice(s[0], s[|s| - 1]) else RowList(s)
  }

  function SectionSlicer(cell: Cell): (slicer: Slicer)
    requires cell != [] && forall d :: 0 <= d < |cell| - 1 ==> cell[d].disk != []
    ensures |slicer.start| == |slicer.end| == |cell| - 1
  {
    Slicer(seq(|cell| - 1, d requires 0 <= d < |cell| - 1 => cell[d].disk[0]),
           seq(|cell| - 1, d requires 0 <= d < |cell| - 1 => cell[d].disk[|cell[d].disk| - 1]))
  }

  // The ids along each dimension of the box of a section of some rows.
  function BoxIds(section: Slicer, rows: RefRows): (ids: seq<seq<int>>)
    requires |section.start| == |section.end|
    ensures |ids| == |section.start| + 1
  {
    seq(|section.start|, d requires 0 <= d < |section.start| => Range(section.start[d], section.end[d]))
        + [RowsOf(rows)]
  }

  function IdsAt(ids: seq<seq<int>>, p: seq<nat>): (i: seq<int>)
    requires InBox(p, Lengths(ids))
    ensures |i| == |ids| && forall d :: 0 <= d < |ids| ==> i[d] == ids[d][p[d]]
  {
    seq(|ids|, d requires 0 <= d < |ids| => ids[d][p[d]])
  }

  ghost predicate BoxExists<T>(cells: Cells<T>, ids: seq<seq<int>>)
  {
    forall p :: InBox(p, Lengths(ids)) ==> IdsAt(ids, p) in cells
  }

  // casacore's getColumnCells and getSlice: the values of a box, FORTRAN ordered.
  function GetBox<T>(cells: Cells<T>, ids: seq<seq<int>>): (data: seq<T>)
    requires BoxExists(cells, ids)
    ensures |data| == Product(Lengths(ids))
    ensures forall k :: 0 <= k < |data| ==> data[k] == cells[IdsAt(ids, Unrank(Lengths(ids), k))]
  {
    seq(Product(Lengths(ids)), k requires 0 <= k < Product(Lengths(ids)) => cells[IdsAt(ids, Unrank(Lengths(ids), k))])
  }

  // A chunk to read: rows of cells that exist, without holes.
  ghost predicate IsReadable(cell: Cell)
  {
    && cell != [] && AllPaired(cell)
    && forall d :: 0 <= d < |cell| ==>
         cell[d].disk != [] && NoneNegative(cell[d].disk) && IsRun(cell[d].disk, d == |cell| - 1)
  }

  function DiskIds(cell: Cell): (ids: seq<seq<int>>)
    ensures |ids| == |cell| && forall d :: 0 <= d < |cell| ==> ids[d] == cell[d].disk
  {
    seq(|cell|, d requires 0 <= d < |cell| => cell[d].disk)
  }

  lemma StrictSpan(s: seq<int>, i: nat, j: nat)
    requires StrictlyAscending(s) && i <= j < |s|
    ensures s[j] - s[i] >= j - i
    decreases j - i
  {
    if i < j {
      StrictSpan(s, i, j - 1);
      assert s[j - 1] < s[j];
    }
  }

  /** The single slice of rows denotes the same rows as the list. */
  lemma RowSliceIsRows(cell: Cell)
    requires IsReadable(cell)
    ensures RowsOf(ReferenceRows(cell)) == LastDim(cell).disk
  {
    var s := cell[|cell| - 1].disk;
    assert StrictlyAscending(s) by {
      assert NoneNegative(s) && s[0] >= 0;
    }
    if ReferenceRows(cell).RowSlice? {
      forall k | 0 <= k < |s|
        ensures s[k] == s[0] + k
      {
        StrictSpan(s, 0, k);
        StrictSpan(s, k, |s| - 1);
      }
    }
  }

  /** The box that is read is exactly the disk indices of the chunk. */
  lemma BoxIsChunk(cell: Cell)
    requires IsReadable(cell)
    ensures BoxIds(SectionSlicer(cell), ReferenceRows(cell)) == DiskIds(cell)
    ensures Lengths(DiskIds(cell)) == Sizes(cell)
  {
    RowSliceIsRows(cell);
    forall d | 0 <= d < |cell| - 1
      ensures Range(cell[d].disk[0], cell[d].disk[|cell[d].disk| - 1]) == cell[d].disk
    {
      var s := cell[d].disk;
      assert Consecutive(s) by {
        assert NoneNegative(s) && s[0] >= 0;
      }
    }
  }

  // ----- copying one chunk

  // The chunk has addresses within the buffer for all its elements.
  ghost predicate Fitting(chunk: DataChunk, size: nat)
  {
    && |chunk.spans| == |chunk.minMem| == |chunk.bufferStrides| == |chunk.chunkStrides| > 0
    && AreStrides(chunk.chunkStrides, Sizes(chunk.spans))
    && forall p :: InCell(p, chunk.spans) ==> 0 <= Address(chunk, p) < size
  }

  function ElementAt(chunk: DataChunk, k: nat): (p: seq<nat>)
    requires k < Product(Sizes(chunk.spans))
    ensures InCell(p, chunk.spans)
  {
    Unrank(Sizes(chunk.spans), k)
  }

  // The stores that copy an array holding the chunk into the buffer, in order.
  function CopyTrace<T>(chunk: DataChunk, data: seq<T>, size: nat): (trace: seq<Store<T>>)
    requires Fitting(chunk, size) && |data| == Product(Sizes(chunk.spans))
    ensures |trace| == |data| && Within(trace, size)
    ensures forall k :: 0 <= k < |trace| ==> trace[k] == Store(Address(chunk, ElementAt(chunk, k)), data[k])
  {
    seq(|data|, k requires 0 <= k < |data| => Store(Address(chunk, ElementAt(chunk, k)), data[k]))
  }

  // The offsets of the element at pos in the array holding the chunk, and in the buffer.
  method Offsets(chunk: DataChunk, pos: array<nat>) returns (i: int, o: int)
    requires |chunk.spans| == |chunk.minMem| == |chunk.bufferStrides| == |chunk.chunkStrides|
    requires AreStrides(chunk.chunkStrides, Sizes(chunk.spans)) && InCell(pos[..], chunk.spans)
    ensures i == Rank(Sizes(chunk.spans), pos[..])
    ensures chunk.flatOffset + o == Address(chunk, pos[..])
  {
    var ndim := |chunk.spans|;
    i, o := 0, 0;
    ghost var p := pos[..];
    for d := 0 to ndim
      invariant i == Dot(p, chunk.chunkStrides, d)
      invariant o == Dot(Differences(chunk, p), chunk.bufferStrides, d)
    {
      i := i + pos[d] * chunk.chunkStrides[d];
      o := o + (chunk.spans[d].mem[pos[d]] as int - chunk.minMem[d]) * chunk.bufferStrides[d];
    }
    DotStrides(p, Sizes(chunk.spans), chunk.chunkStrides, ndim);
  }

  lemma StoreOfElement<T>(chunk: DataChunk, data: seq<T>, size: nat, p: seq<nat>, k: nat)
    requires Fitting(chunk, size) && |data| == Product(Sizes(chunk.spans))
    requires InCell(p, chunk.spans) && k == Rank(Sizes(chunk.spans), p)
    ensures k < |data| && CopyTrace(chunk, data, size)[k] == Store(Address(chunk, p), data[k])
  {
    RankUnrank(Sizes(chunk.spans), p);
  }

  // Copies the element at pos, which is store number k of the trace.
  method CopyElement<T>(chunk: DataChunk, data: seq<T>, pos: array<nat>, buffer: array<T>, ghost was: seq<T>,
                        ghost k: nat)
    requires Fitting(chunk, buffer.Length) && |data| == Product(Sizes(chunk.spans)) && |was| == buffer.Length
    requires InCell(pos[..], chunk.spans) && k == Rank(Sizes(chunk.spans), pos[..]) && k < |data|
    requires buffer[..] == Applied(was, CopyTrace(chunk, data, buffer.Length), k)
    modifies buffer
    ensures buffer[..] == Applied(was, CopyTrace(chunk, data, buffer.Length), k + 1)
  {
    var i, o := Offsets(chunk, pos);
    StoreOfElement(chunk, data, buffer.Length, pos[..], k);
    buffer[chunk.flatOffset + o] := data[i];
  }

  /** Puts the elements of a chunk in their places in the buffer, by stepping an odometer. */
  method CopyChunkArray<T>(chunk: DataChunk, data: seq<T>, buffer: array<T>)
    requires Fitting(chunk, buffer.Length)
    requires |data| == Product(Sizes(chunk.spans)) > 0
    modifies buffer
    ensures buffer[..] == AppliedAll(old(buffer[..]), CopyTrace(chunk, data, buffer.Length))
  {
    var n := Sizes(chunk.spans);
    var pos := new nat[|chunk.spans|](_ => 0);
    ghost var k := 0;
    ghost var trace := CopyTrace(chunk, data, buffer.Length);
    FirstPosition(n, pos[..]);
    var done := false;
    while !done
      invariant InBox(pos[..], n)
      invariant if done then k == |data| else k < |data| && Rank(n, pos[..]) == k
      invariant buffer[..] == Applied(old(buffer[..]), trace, k)
      decreases |data| - k, !done
    {
      CopyElement(chunk, data, pos, buffer, old(buffer[..]), k);
      k := k + 1;
      done := Advance(n, pos);
    }
  }

  lemma FirstPosition(n: seq<nat>, p: seq<nat>)
    requires |p| == |n| && Product(n) > 0 && forall d :: 0 <= d < |p| ==> p[d] == 0
    ensures InBox(p, n) && Rank(n, p) == 0
  {
    forall d | 0 <= d < |n|
      ensures n[d] > 0
    {
      if n[d] == 0 {
        StrideZero(n, d, |n|);
      }
    }
    OffsetOfZeros(n, p, |n|);
  }

  /** Reads a chunk contiguous in memory straight into its place in the buffer. */
  method ReadContiguousChunk<T>(chunk: DataChunk, data: seq<T>, buffer: array<T>)
    requires Fitting(chunk, buffer.Length)
    requires |data| == Product(Sizes(chunk.spans))
    requires forall p :: InCell(p, chunk.spans) ==> Address(chunk, p) == chunk.flatOffset + Rank(Sizes(chunk.spans), p)
    modifies buffer
    ensures buffer[..] == AppliedAll(old(buffer[..]), CopyTrace(chunk, data, buffer.Length))
  {
    ghost var trace := CopyTrace(chunk, data, buffer.Length);
    for k := 0 to |data|
      invariant buffer[..] == Applied(old(buffer[..]), trace, k)
    {
      UnrankRank(Sizes(chunk.spans), k);
      assert trace[k].at == chunk.flatOffset + k;
      buffer[chunk.flatOffset + k] := data[k];
    }
  }
}
