/**
 Chunks of a partition: where each element of a chunk is in the result, on disk and in the
 array read from disk (MakeDataChunks and DataChunk of data_partition.cc and .h).
 */
module Chunks {
  import opened Wrappers
  import opened MixedRadix
  import opened Spans
  import opened Cartesian
  import opened ResultShapes

  datatype DataChunk = DataChunk(
    spans: Cell,
    minMem: seq<nat>,
    flatOffset: nat,
    bufferStrides: seq<nat>,
    chunkStrides: seq<nat>,
    contiguous: bool)

  // The extents of a cell, as positions in it count them.
  function Sizes(cell: Cell): (n: seq<nat>)
    ensures |n| == |cell| && forall d :: 0 <= d < |cell| ==> n[d] == |cell[d].mem|
  {
    seq(|cell|, d requires 0 <= d < |cell| => |cell[d].mem|)
  }

  ghost predicate InCell(p: seq<nat>, cell: Cell)
  {
    |p| == |cell| && forall d :: 0 <= d < |cell| ==> p[d] < |cell[d].mem|
  }

  ghost predicate AllPaired(cell: Cell)
  {
    forall d :: 0 <= d < |cell| ==> |cell[d].disk| == |cell[d].mem|
  }

  // The memory position and the disk index of element p of a chunk.
  function MemAt(cell: Cell, p: seq<nat>): (j: seq<nat>)
    requires InCell(p, cell)
    ensures |j| == |cell| && forall d :: 0 <= d < |cell| ==> j[d] == cell[d].mem[p[d]]
  {
    seq(|cell|, d requires 0 <= d < |cell| => cell[d].mem[p[d]])
  }

  function DiskAt(cell: Cell, p: seq<nat>): (i: seq<int>)
    requires InCell(p, cell) && AllPaired(cell)
    ensures |i| == |cell| && forall d :: 0 <= d < |cell| ==> i[d] == cell[d].disk[p[d]]
  {
    seq(|cell|, d requires 0 <= d < |cell| => cell[d].disk[p[d]])
  }

  // The buffer position that the copy loops compute for element p.
  function Address(chunk: DataChunk, p: seq<nat>): int
    requires InCell(p, chunk.spans) && |chunk.minMem| == |chunk.bufferStrides| == |chunk.spans|
  {
    chunk.flatOffset + Dot(Differences(chunk, p), chunk.bufferStrides, |chunk.spans|)
  }

  function Differences(chunk: DataChunk, p: seq<nat>): (r: seq<int>)
    requires InCell(p, chunk.spans) && |chunk.minMem| == |chunk.spans|
    ensures |r| == |chunk.spans|
    ensures forall d :: 0 <= d < |r| ==> r[d] == chunk.spans[d].mem[p[d]] as int - chunk.minMem[d]
  {
    seq(|chunk.spans|, d requires 0 <= d < |chunk.spans| => chunk.spans[d].mem[p[d]] as int - chunk.minMem[d])
  }

  // ----- building chunks

  // The extents of the result along the dimensions of a chunk; the row extent is not used.
  function ChunkExtents(result: ResultShape, cell: Cell): Shape
    requires cell != [] && LastDim(cell).mem != []
    requires result.Varying? ==> LastDim(cell).mem[0] < |result.rowShapes|
  {
    match result
    case Fixed(shape, _) => shape
    case Varying(_, rowShapes) => rowShapes[LastDim(cell).mem[0]]
  }

  ghost predicate IsMinimum(m: nat, mem: seq<nat>)
  {
    if mem == [] then m == 0 else m in mem && forall k :: 0 <= k < |mem| ==> m <= mem[k]
  }

  method MinElement(mem: seq<nat>) returns (m: nat)
    ensures IsMinimum(m, mem)
  {
    if mem == [] {
      return 0;
    }
    m := mem[0];
    for i := 1 to |mem|
      invariant m in mem && forall k :: 0 <= k < i ==> m <= mem[k]
    {
      if mem[i] < m {
        m := mem[i];
      }
    }
  }

  // The strides of the first d dimensions of a box.
  function Strides(n: seq<nat>, d: nat): seq<nat>
    requires d <= |n| + 1
  {
    if d == 0 then [] else Strides(n, d - 1) + [Stride(n, d - 1)]
  }

  lemma {:induction false} StrideAt(n: seq<nat>, d: nat, e: nat)
    requires e < d <= |n| + 1
    ensures |Strides(n, d)| == d && Strides(n, d)[e] == Stride(n, e)
  {
    if e < d - 1 {
      StrideAt(n, d - 1, e);
    } else if d > 1 {
      StrideAt(n, d - 1, 0);
    }
  }

  method FillStrides(n: seq<nat>, ndim: nat) returns (strides: seq<nat>)
    requires 0 < ndim <= |n| + 1
    ensures |strides| == ndim && forall d :: 0 <= d < ndim ==> strides[d] == Stride(n, d)
  {
    var a := new nat[ndim](_ => 1);
    var product := 1;
    assert a[..1] == Strides(n, 0) + [1];
    for d := 1 to ndim
      invariant product == Stride(n, d - 1)
      invariant a[..d] == Strides(n, d)
      invariant forall e :: d <= e < ndim ==> a[e] == 1
    {
      product := product * n[d - 1];
      ScaleOne(a[d], product);
      a[d] := a[d] * product;
      assert a[..d + 1] == a[..d] + [product];
    }
    strides := a[..];
    assert a[..ndim] == strides;
    forall d | 0 <= d < ndim
      ensures strides[d] == Stride(n, d)
    {
      StrideAt(n, ndim, d);
    }
  }

  lemma ScaleOne(one: nat, m: nat)
    requires one == 1
    ensures one * m == m
  {
  }

  ghost predicate IsChunkOf(chunk: DataChunk, cell: Cell, contiguous: bool, result: ResultShape)
  {
    && chunk.spans == cell && chunk.contiguous == contiguous
    && |cell| == |chunk.minMem| == |chunk.bufferStrides| == |chunk.chunkStrides| == result.NDim() > 0
    && (forall d :: 0 <= d < |cell| ==> IsMinimum(chunk.minMem[d], cell[d].mem))
    && AreStrides(chunk.chunkStrides, Sizes(cell))
    && (result.Fixed? ==> AreStrides(chunk.bufferStrides, result.shape))
    && (result.Varying? ==>
          && |LastDim(cell).mem| == 1
          && LastDim(cell).mem[0] < |result.rowShapes|
          && var shape := result.rowShapes[LastDim(cell).mem[0]];
             |shape| == |cell| - 1 && forall d :: 0 <= d < |cell| ==> chunk.bufferStrides[d] == Stride(shape, d))
    && LastMin(chunk, result)
    && chunk.flatOffset == FlatPosition(result, chunk.minMem)
  }

  ghost predicate LastMin(chunk: DataChunk, result: ResultShape)
  {
    && |chunk.minMem| == result.NDim() > 0
    && (result.Varying? ==> chunk.minMem[|chunk.minMem| - 1] < |result.rowShapes|)
  }

  ghost predicate SeveralRows(cell: Cell)
  {
    cell != [] && |LastDim(cell).mem| != 1
  }

  // One chunk per cell. A varying result needs the cells to be of one row each.
  method MakeDataChunks(cells: seq<Cell>, contiguous: seq<bool>, result: ResultShape)
    returns (r: Result<seq<DataChunk>>)
    requires result.WellFormed() && |cells| == |contiguous|
    requires forall i :: 0 <= i < |cells| ==> |cells[i]| == result.NDim()
    requires result.Varying? ==> forall i :: 0 <= i < |cells| && cells[i] != [] && !SeveralRows(cells[i]) ==>
               LastDim(cells[i]).mem[0] < |result.rowShapes|
    ensures r.Failure? <==> result.Varying? && exists i :: 0 <= i < |cells| && SeveralRows(cells[i])
    ensures r.Failure? ==> r.error == Invalid
    ensures r.Success? ==> |r.value| == |cells|
    ensures r.Success? ==> forall i :: 0 <= i < |cells| ==> IsChunkOf(r.value[i], cells[i], contiguous[i], result)
  {
    var rowOffsets := None;
    if result.Varying? {
      var offsets := RowOffsets(result.rowShapes);
      rowOffsets := Some(offsets);
    }
    var chunks: seq<DataChunk> := [];
    for i := 0 to |cells|
      invariant |chunks| == i
      invariant result.Varying? ==> forall k :: 0 <= k < i ==> !SeveralRows(cells[k])
      invariant forall k :: 0 <= k < i ==> IsChunkOf(chunks[k], cells[k], contiguous[k], result)
    {
      if result.Varying? && |LastDim(cells[i]).mem| != 1 {
        return Failure(Invalid);
      }
      var chunk := MakeDataChunk(cells[i], contiguous[i], result, rowOffsets);
      chunks := chunks + [chunk];
    }
    return Success(chunks);
  }

  method MakeDataChunk(cell: Cell, contiguous: bool, result: ResultShape, rowOffsets: Option<seq<nat>>)
    returns (chunk: DataChunk)
    requires result.WellFormed() && |cell| == result.NDim()
    requires result.Varying? ==> |LastDim(cell).mem| == 1 && LastDim(cell).mem[0] < |result.rowShapes|
    requires result.Varying? && rowOffsets.Some? ==>
               && |rowOffsets.value| == |result.rowShapes| + 1
               && forall r :: 0 <= r < |rowOffsets.value| ==> rowOffsets.value[r] == RowOffset(result.rowShapes, r)
    ensures IsChunkOf(chunk, cell, contiguous, result)
  {
    var ndim := |cell|;
    var extents := if result.Fixed? then result.shape else result.rowShapes[LastDim(cell).mem[0]];
    var bufferStrides := FillStrides(extents, ndim);
    var chunkStrides := FillStrides(Sizes(cell), ndim);
    var mins := new nat[ndim](_ => 0);
    for d := 0 to ndim
      invariant forall e :: 0 <= e < d ==> IsMinimum(mins[e], cell[e].mem)
    {
      mins[d] := MinElement(cell[d].mem);
    }
    var minMem := mins[..];
    assert result.Varying? ==> minMem[ndim - 1] == LastDim(cell).mem[0];
    var flatOffset := FlatOffset(result, minMem, rowOffsets);
    chunk := DataChunk(cell, minMem, flatOffset, bufferStrides, chunkStrides, contiguous);
  }

  // ----- elements are where the result has them

  lemma {:induction false} DotDifference(a: seq<nat>, b: seq<nat>, diff: seq<int>, n: seq<nat>, strides: seq<nat>,
                                         d: nat)
    requires |a| == |b| == |diff| == |strides| && d <= |n| && d <= |a|
    requires forall e :: 0 <= e < |a| ==> diff[e] == a[e] as int - b[e]
    requires forall e :: 0 <= e < d ==> strides[e] == Stride(n, e)
    ensures Dot(diff, strides, d) == Offset(n, a, d) - Offset(n, b, d)
  {
    if d > 0 {
      DotDifference(a, b, diff, n, strides, d - 1);
      MulDifference(a[d - 1], b[d - 1], Stride(n, d - 1));
    }
  }

  lemma MulDifference(a: nat, b: nat, s: nat)
    ensures (a as int - b) * s == a * s - b * s
  {
  }

  lemma FixedAddress(chunk: DataChunk, cell: Cell, contiguous: bool, result: ResultShape, p: seq<nat>)
    requires result.Fixed? && IsChunkOf(chunk, cell, contiguous, result) && InCell(p, cell)
    ensures Address(chunk, p) == FlatPosition(result, MemAt(cell, p))
  {
    DotDifference(MemAt(cell, p), chunk.minMem, Differences(chunk, p), result.shape, chunk.bufferStrides, |cell|);
  }

  lemma VaryingAddress(chunk: DataChunk, cell: Cell, contiguous: bool, result: ResultShape, p: seq<nat>)
    requires result.Varying? && IsChunkOf(chunk, cell, contiguous, result) && InCell(p, cell)
    ensures MemAt(cell, p)[|cell| - 1] < |result.rowShapes|
    ensures Address(chunk, p) == FlatPosition(result, MemAt(cell, p))
  {
    var diff, last, j := Differences(chunk, p), |cell| - 1, MemAt(cell, p);
    var row := LastDim(cell).mem[0];
    assert j[last] == row == chunk.minMem[last];
    DotDifference(j, chunk.minMem, diff, result.rowShapes[row], chunk.bufferStrides, last);
    assert diff[last] == 0;
  }

  /** The copy loops address every element of a chunk at its position in the result. */
  lemma AddressIsFlatPosition(chunk: DataChunk, cell: Cell, contiguous: bool, result: ResultShape, p: seq<nat>)
    requires IsChunkOf(chunk, cell, contiguous, result) && InCell(p, cell)
    ensures result.Varying? ==> MemAt(cell, p)[|cell| - 1] < |result.rowShapes|
    ensures Address(chunk, p) == FlatPosition(result, MemAt(cell, p))
  {
    if result.Fixed? {
      FixedAddress(chunk, cell, contiguous, result, p);
    } else {
      VaryingAddress(chunk, cell, contiguous, result, p);
    }
  }

  // ----- the contiguous fast path

  // The chunk spans the leading extents of the result and consecutive rows of it.
  ghost predicate SpansContiguously(cell: Cell, extents: Shape)
  {
    && cell != [] && |cell| - 1 <= |extents|
    && (forall d :: 0 <= d < |cell| - 1 ==> IsIota(cell[d].mem) && |cell[d].mem| == extents[d])
    && MemoryContiguous(LastDim(cell).mem)
  }

  lemma {:induction false} ConsecutiveFrom(mem: seq<nat>, k: nat)
    requires k < |mem| && MemoryContiguous(mem)
    ensures mem[k] == mem[0] + k
  {
    if k > 0 {
      ConsecutiveFrom(mem, k - 1);
    }
  }

  lemma DifferenceIsPosition(chunk: DataChunk, cell: Cell, contiguous: bool, result: ResultShape, extents: Shape,
                             p: seq<nat>, d: nat)
    requires IsChunkOf(chunk, cell, contiguous, result) && SpansContiguously(cell, extents)
    requires InCell(p, cell) && d < |cell|
    ensures Differences(chunk, p)[d] == p[d]
  {
    var mem := cell[d].mem;
    if d < |cell| - 1 {
      assert mem[0] == 0;
    } else {
      ConsecutiveFrom(mem, p[d]);
      var k :| 0 <= k < |mem| && mem[k] == chunk.minMem[d];
      ConsecutiveFrom(mem, k);
    }
  }

  // Positions p in a box m that agrees with the extents n, but perhaps in its last one.
  lemma {:induction false} DotOfPosition(diff: seq<int>, p: seq<nat>, n: seq<nat>, m: seq<nat>, strides: seq<nat>,
                                         d: nat)
    requires |diff| == |p| == |strides| == |m| && d <= |p| && d <= |n| + 1
    requires forall e :: 0 <= e < d ==> diff[e] == p[e] && strides[e] == Stride(n, e)
    requires forall e :: 0 <= e < |n| && e < |m| - 1 ==> n[e] == m[e]
    ensures Dot(diff, strides, d) == Offset(m, p, d)
  {
    if d > 0 {
      DotOfPosition(diff, p, n, m, strides, d - 1);
      StrideCongruent(n, m, d - 1);
    }
  }

  /**
   The fast path refines the transpose: when the spans are contiguous, the element with
   rank k in the chunk is addressed k positions after the first.
   */
  lemma ContiguousAddress(chunk: DataChunk, cell: Cell, contiguous: bool, result: ResultShape, p: seq<nat>)
    requires result.WellFormed() && IsChunkOf(chunk, cell, contiguous, result) && InCell(p, cell)
    requires LastDim(cell).mem != []
    requires SpansContiguously(cell, ChunkExtents(result, cell))
    ensures Address(chunk, p) == chunk.flatOffset + Rank(Sizes(cell), p)
  {
    var extents := ChunkExtents(result, cell);
    forall d | 0 <= d < |cell|
      ensures Differences(chunk, p)[d] == p[d]
    {
      DifferenceIsPosition(chunk, cell, contiguous, result, extents, p, d);
    }
    DotOfPosition(Differences(chunk, p), p, extents, Sizes(cell), chunk.bufferStrides, |cell|);
  }

  // ----- what is read

  // A chunk with a hole or without elements is skipped by reads and writes.
  method IsEmpty(chunk: DataChunk) returns (empty: bool)
    requires AllPaired(chunk.spans)
    ensures empty <==> HasHole(chunk.spans) || CellElements(chunk.spans, |chunk.spans|) == 0
  {
    for d := 0 to |chunk.spans|
      invariant forall e :: 0 <= e < d ==> NoneNegative(chunk.spans[e].disk)
    {
      var disk := chunk.spans[d].disk;
      for i := 0 to |disk|
        invariant forall k :: 0 <= k < i ==> disk[k] >= 0
      {
        if disk[i] < 0 {
          assert !NoneNegative(chunk.spans[d].disk);
          return true;
        }
      }
    }
    return CellElements(chunk.spans, |chunk.spans|) == 0;
  }

  predicate HasHole(cell: Cell)
  {
    exists d :: 0 <= d < |cell| && !NoneNegative(cell[d].disk)
  }

  lemma {:induction false} ElementsAreSizes(cell: Cell, d: nat)
    requires AllPaired(cell) && d <= |cell|
    ensures CellElements(cell, d) == Stride(Sizes(cell), d)
  {
    if d > 0 {
      ElementsAreSizes(cell, d - 1);
    }
  }
}
