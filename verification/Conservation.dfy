/**
 The chunks of a partition share no position of the result, and together have them all, so
 that their elements add up to those of the result (DataPartition::nElements).
 */
module Conservation {
  import opened MixedRadix
  import opened Selections
  import opened Spans
  import opened Cartesian
  import opened ResultShapes
  import opened Chunks
  import opened Partitions
  import opened MakePartition
  import opened Stores
  import opened Reading
  import opened ReadEffects

  function NElementsOf(chunk: DataChunk): nat
  {
    CellElements(chunk.spans, |chunk.spans|)
  }

  // The elements of the first n chunks.
  function TotalElements(chunks: seq<DataChunk>, n: nat): nat
    requires n <= |chunks|
  {
    CellsTotal(CellsOf(chunks), n)
  }

  ghost predicate AllFit(chunks: seq<DataChunk>, size: nat)
  {
    forall i :: 0 <= i < |chunks| ==> AllPaired(chunks[i].spans) && Fitting(chunks[i], size)
  }

  // The buffer positions of the elements of a chunk, holes included.
  ghost function ChunkAddresses(chunk: DataChunk, size: nat): (addresses: seq<nat>)
    requires Fitting(chunk, size)
    ensures |addresses| == Product(Sizes(chunk.spans))
    ensures forall k :: 0 <= k < |addresses| ==> addresses[k] == Address(chunk, ElementAt(chunk, k)) < size
  {
    seq(Product(Sizes(chunk.spans)), k requires 0 <= k < Product(Sizes(chunk.spans)) =>
      Address(chunk, ElementAt(chunk, k)))
  }

  ghost function AddressLists(chunks: seq<DataChunk>, size: nat): (lists: seq<seq<nat>>)
    requires AllFit(chunks, size)
    ensures |lists| == |chunks|
    ensures forall i :: 0 <= i < |chunks| ==> lists[i] == ChunkAddresses(chunks[i], size)
  {
    seq(|chunks|, i requires 0 <= i < |chunks| => ChunkAddresses(chunks[i], size))
  }

  // The buffer positions of all elements of all chunks.
  ghost function AllAddresses(chunks: seq<DataChunk>, size: nat): seq<nat>
    requires AllFit(chunks, size)
  {
    JoinUpTo<nat>(AddressLists(chunks, size), |chunks|)
  }

  lemma PartitionFits(chunks: seq<DataChunk>, selection: Selection, result: ResultShape)
    requires result.WellFormed() && Matches(selection, result) && IsPartition(chunks, selection, result)
    ensures AllFit(chunks, NElements(result))
  {
    forall i | 0 <= i < |chunks|
      ensures AllPaired(chunks[i].spans) && Fitting(chunks[i], NElements(result))
    {
      PartitionChunk(chunks, selection, result, i);
      ChunkFits(chunks[i], selection, result);
    }
  }

  lemma PositionsOfOneChunk(cell: Cell, p: seq<nat>, q: seq<nat>)
    requires InCell(p, cell) && InCell(q, cell) && MemAt(cell, p) == MemAt(cell, q)
    requires forall d :: 0 <= d < |cell| ==> Injective(cell[d].mem)
    ensures p == q
  {
    forall d | 0 <= d < |cell|
      ensures p[d] == q[d]
    {
      assert MemAt(cell, p)[d] == MemAt(cell, q)[d];
    }
  }

  lemma PositionsOfTwoChunks(a: Cell, b: Cell, p: seq<nat>, q: seq<nat>)
    requires Separated(a, b) && InCell(p, a) && InCell(q, b)
    ensures MemAt(a, p) != MemAt(b, q)
  {
    var d :| 0 <= d < |a| && d < |b| && Apart(a[d], b[d]);
    assert MemAt(a, p)[d] in a[d].mem && MemAt(b, q)[d] in b[d].mem;
  }

  /** No two elements of the chunks have the same place in the buffer. */
  lemma AddressesDiffer(chunks: seq<DataChunk>, selection: Selection, result: ResultShape,
                        i: nat, p: seq<nat>, k: nat, q: seq<nat>)
    requires result.WellFormed() && Matches(selection, result) && IsPartition(chunks, selection, result)
    requires i < |chunks| && k < |chunks| && AllFit(chunks, NElements(result))
    requires InCell(p, chunks[i].spans) && InCell(q, chunks[k].spans)
    requires Address(chunks[i], p) == Address(chunks[k], q)
    ensures i == k && p == q
  {
    PartitionChunk(chunks, selection, result, i);
    PartitionChunk(chunks, selection, result, k);
    ChunkElement(chunks[i], selection, result, p);
    ChunkElement(chunks[k], selection, result, q);
    FlatPositionInjective(result, MemAt(chunks[i].spans, p), MemAt(chunks[k].spans, q));
    var cells := CellsOf(chunks);
    if i < k {
      assert Separated(cells[i], cells[k]);
      PositionsOfTwoChunks(chunks[i].spans, chunks[k].spans, p, q);
    } else if k < i {
      assert Separated(cells[k], cells[i]);
      PositionsOfTwoChunks(chunks[k].spans, chunks[i].spans, q, p);
    } else {
      PositionsOfOneChunk(chunks[i].spans, p, q);
    }
  }

  lemma AddressesInjective(chunks: seq<DataChunk>, selection: Selection, result: ResultShape)
    requires result.WellFormed() && Matches(selection, result) && IsPartition(chunks, selection, result)
    requires AllFit(chunks, NElements(result))
    ensures Injective(AllAddresses(chunks, NElements(result)))
  {
    var lists := AddressLists(chunks, NElements(result));
    var all := AllAddresses(chunks, NElements(result));
    forall a, b | 0 <= a < b < |all|
      ensures all[a] != all[b]
    {
      var i, x := JoinMember<nat>(lists, |chunks|, a);
      var k, y := JoinMember<nat>(lists, |chunks|, b);
      var p, q := ElementAt(chunks[i], x), ElementAt(chunks[k], y);
      if all[a] == all[b] {
        AddressesDiffer(chunks, selection, result, i, p, k, q);
        UnrankRank(Sizes(chunks[i].spans), x);
        UnrankRank(Sizes(chunks[k].spans), y);
      }
    }
  }

  lemma PartitionHolds(chunks: seq<DataChunk>, selection: Selection, result: ResultShape, j: seq<nat>) returns (i: nat)
    requires result.WellFormed() && Matches(selection, result) && IsPartition(chunks, selection, result)
    requires InResult(result, j)
    ensures i < |chunks| && HoldsPosition(chunks[i].spans, j)
  {
    assert SomeCellHolds(CellsOf(chunks), j);
    i :| 0 <= i < |chunks| && HoldsPosition(CellsOf(chunks)[i], j);
  }

  lemma FindPosition(cell: Cell, j: seq<nat>) returns (p: seq<nat>)
    requires HoldsPosition(cell, j)
    ensures InCell(p, cell) && MemAt(cell, p) == j
  {
    p := FindElement(cell, j, |cell|);
    assert MemAt(cell, p) == j;
  }

  lemma HolderAddress(chunks: seq<DataChunk>, selection: Selection, result: ResultShape, a: nat) returns (i: nat,
                      p: seq<nat>)
    requires result.WellFormed() && Matches(selection, result) && IsPartition(chunks, selection, result)
    requires AllFit(chunks, NElements(result)) && a < NElements(result)
    ensures i < |chunks| && InCell(p, chunks[i].spans) && Address(chunks[i], p) == a
  {
    var j := FlatPositionSurjective(result, a);
    i := PartitionHolds(chunks, selection, result, j);
    p := FindPosition(chunks[i].spans, j);
    PartitionChunk(chunks, selection, result, i);
    ChunkElement(chunks[i], selection, result, p);
  }

  lemma AddressOccurs(chunks: seq<DataChunk>, size: nat, i: nat, p: seq<nat>)
    requires AllFit(chunks, size) && i < |chunks| && InCell(p, chunks[i].spans)
    ensures Address(chunks[i], p) in AllAddresses(chunks, size)
  {
    RankUnrank(Sizes(chunks[i].spans), p);
    var k := JoinContains<nat>(AddressLists(chunks, size), |chunks|, i, Rank(Sizes(chunks[i].spans), p));
  }

  lemma EveryAddressOccurs(chunks: seq<DataChunk>, selection: Selection, result: ResultShape, a: nat)
    requires result.WellFormed() && Matches(selection, result) && IsPartition(chunks, selection, result)
    requires AllFit(chunks, NElements(result)) && a < NElements(result)
    ensures a in AllAddresses(chunks, NElements(result))
  {
    var i, p := HolderAddress(chunks, selection, result, a);
    AddressOccurs(chunks, NElements(result), i, p);
  }

  lemma AddressesBelow(chunks: seq<DataChunk>, size: nat, k: nat)
    requires AllFit(chunks, size) && k < |AllAddresses(chunks, size)|
    ensures AllAddresses(chunks, size)[k] < size
  {
    var i, x := JoinMember<nat>(AddressLists(chunks, size), |chunks|, k);
  }

  lemma CountOfOnto(all: seq<nat>, n: nat)
    requires Injective(all)
    requires forall k :: 0 <= k < |all| ==> all[k] < n
    requires forall a: nat :: a < n ==> a in all
    ensures |all| == n
  {
    assert Elements(all) == Numbers(n);
    InjectiveCount(all);
    NumbersCount(n);
  }

  lemma {:induction false} AddressCount(chunks: seq<DataChunk>, size: nat, n: nat)
    requires AllFit(chunks, size) && n <= |chunks|
    ensures |JoinUpTo<nat>(AddressLists(chunks, size), n)| == TotalElements(chunks, n)
  {
    if n > 0 {
      AddressCount(chunks, size, n - 1);
      ElementsAreSizes(chunks[n - 1].spans, |chunks[n - 1].spans|);
    }
  }

  /**
   The places of all elements of all chunks are the places of the result, each exactly once,
   whether the shape is fixed or varies; so the elements of the chunks add up to its elements.
   */
  lemma PartitionConservesElements(chunks: seq<DataChunk>, selection: Selection, result: ResultShape)
    requires result.WellFormed() && Matches(selection, result) && IsPartition(chunks, selection, result)
    ensures AllFit(chunks, NElements(result))
    ensures IsPermutation(AllAddresses(chunks, NElements(result)), NElements(result))
    ensures TotalElements(chunks, |chunks|) == NElements(result)
  {
    PartitionFits(chunks, selection, result);
    var size := NElements(result);
    var all := AllAddresses(chunks, size);
    AddressesInjective(chunks, selection, result);
    forall k | 0 <= k < |all|
      ensures all[k] < size
    {
      AddressesBelow(chunks, size, k);
    }
    forall a: nat | a < size
      ensures a in all
    {
      EveryAddressOccurs(chunks, selection, result, a);
    }
    CountOfOnto(all, size);
    AddressCount(chunks, size, |chunks|);
  }
}
