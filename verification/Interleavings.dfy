/**
 Reading groups of chunks on several instances at once (the fan-out of ReadImpl in
 read_impl.cc): whatever the interleaving of their stores, the buffer ends up the same.
 */
module Interleavings {
  import opened Sequences
  import opened MixedRadix
  import opened Selections
  import opened RowSplit
  import opened RowPieces
  import opened ResultShapes
  import opened Chunks
  import opened Partitions
  import opened MakePartition
  import opened Stores
  import opened Reading
  import opened ReadEffects
  import opened Conservation
  import opened Groups

  // The shared buffer, and how many of its stores each instance has made.
  datatype Machine<T> = Machine(buffer: seq<T>, done: seq<nat>)

  ghost predicate Starts<T>(m: Machine<T>, traces: seq<Trace<T>>, before: seq<T>)
  {
    m.buffer == before && |m.done| == |traces| && forall g :: 0 <= g < |traces| ==> m.done[g] == 0
  }

  ghost predicate Finished<T>(m: Machine<T>, traces: seq<Trace<T>>)
  {
    |m.done| == |traces| && forall g :: 0 <= g < |traces| ==> m.done[g] == |traces[g]|
  }

  // Instance g makes its next store.
  ghost predicate Step<T>(m: Machine<T>, n: Machine<T>, traces: seq<Trace<T>>, g: nat)
  {
    && |m.done| == |traces| && g < |traces| && m.done[g] < |traces[g]|
    && var store := traces[g][m.done[g]];
       store.at < |m.buffer| && n == Machine(m.buffer[store.at := store.value], m.done[g := m.done[g] + 1])
  }

  ghost predicate Next<T>(m: Machine<T>, n: Machine<T>, traces: seq<Trace<T>>)
  {
    exists g :: Step(m, n, traces, g)
  }

  // A run of the instances, in any interleaving.
  ghost predicate IsRun<T>(run: seq<Machine<T>>, traces: seq<Trace<T>>)
  {
    forall i :: 0 <= i < |run| - 1 ==> Next(run[i], run[i + 1], traces)
  }

  ghost predicate Stored<T>(m: Machine<T>, traces: seq<Trace<T>>, a: nat)
    requires |m.done| == |traces|
  {
    exists g :: 0 <= g < |traces| && StoresTo(traces[g], m.done[g], a)
  }

  // At every moment a position holds its wanted element if it was stored, or is untouched.
  ghost predicate Inv<T>(m: Machine<T>, traces: seq<Trace<T>>, before: seq<T>, cells: Cells<T>,
                         selection: Selection, result: ResultShape)
    requires result.WellFormed() && Matches(selection, result) && Named(cells, selection, result)
    requires |before| == NElements(result)
  {
    && |m.buffer| == |before| && |m.done| == |traces|
    && (forall g :: 0 <= g < |traces| ==> m.done[g] <= |traces[g]|)
    && forall j :: InResult(result, j) ==> HoldsStored(m, traces, before, cells, selection, result, j)
  }

  ghost predicate HoldsStored<T>(m: Machine<T>, traces: seq<Trace<T>>, before: seq<T>, cells: Cells<T>,
                                 selection: Selection, result: ResultShape, j: seq<nat>)
    requires result.WellFormed() && Matches(selection, result) && Named(cells, selection, result)
    requires |before| == NElements(result) == |m.buffer| && |m.done| == |traces| && InResult(result, j)
  {
    FlatPositionBound(result, j);
    var a, i := FlatPosition(result, j), DiskIndex(selection, result, j);
    if Stored(m, traces, a) then NoHole(i) && m.buffer[a] == cells[i] else m.buffer[a] == before[a]
  }

  lemma StoredStep<T>(m: Machine<T>, n: Machine<T>, traces: seq<Trace<T>>, g: nat, a: nat)
    requires Step(m, n, traces, g)
    ensures Stored(n, traces, a) <==> Stored(m, traces, a) || traces[g][m.done[g]].at == a
  {
    if Stored(n, traces, a) {
      var h :| 0 <= h < |traces| && StoresTo(traces[h], n.done[h], a);
      assert StoresTo(traces[h], m.done[h], a) || (h == g && traces[g][m.done[g]].at == a);
    }
    if Stored(m, traces, a) {
      var h :| 0 <= h < |traces| && StoresTo(traces[h], m.done[h], a);
      assert StoresTo(traces[h], n.done[h], a);
    }
    if traces[g][m.done[g]].at == a {
      assert StoresTo(traces[g], n.done[g], a);
    }
  }

  lemma StepKeepsPosition<T>(m: Machine<T>, n: Machine<T>, traces: seq<Trace<T>>, g: nat, before: seq<T>,
                             cells: Cells<T>,
                             selection: Selection, result: ResultShape, j: seq<nat>)
    requires result.WellFormed() && Matches(selection, result) && Named(cells, selection, result)
    requires |before| == NElements(result) == |m.buffer| && InResult(result, j)
    requires Step(m, n, traces, g) && IsGoodStore(traces[g][m.done[g]], cells, selection, result)
    requires HoldsStored(m, traces, before, cells, selection, result, j)
    ensures HoldsStored(n, traces, before, cells, selection, result, j)
  {
    var a, store := FlatPosition(result, j), traces[g][m.done[g]];
    FlatPositionBound(result, j);
    StoredStep(m, n, traces, g, a);
    if store.at == a {
      GoodStoreAt(store, cells, selection, result, j);
      assert n.buffer[a] == store.value;
    } else {
      assert n.buffer[a] == m.buffer[a];
    }
  }

  lemma StepKeepsInv<T>(m: Machine<T>, n: Machine<T>, traces: seq<Trace<T>>, g: nat, before: seq<T>, cells: Cells<T>,
                        selection: Selection, result: ResultShape)
    requires result.WellFormed() && Matches(selection, result) && Named(cells, selection, result)
    requires |before| == NElements(result) && AreCompleteTraces(traces, cells, selection, result)
    requires Step(m, n, traces, g) && Inv(m, traces, before, cells, selection, result)
    ensures Inv(n, traces, before, cells, selection, result)
  {
    assert IsGoodStore(traces[g][m.done[g]], cells, selection, result);
    forall j | InResult(result, j)
      ensures HoldsStored(n, traces, before, cells, selection, result, j)
    {
      StepKeepsPosition(m, n, traces, g, before, cells, selection, result, j);
    }
  }

  lemma {:induction false} RunKeepsInv<T>(run: seq<Machine<T>>, traces: seq<Trace<T>>, k: nat, before: seq<T>,
                                          cells: Cells<T>, selection: Selection, result: ResultShape)
    requires result.WellFormed() && Matches(selection, result) && Named(cells, selection, result)
    requires |before| == NElements(result) && AreCompleteTraces(traces, cells, selection, result)
    requires k < |run| && IsRun(run, traces) && Starts(run[0], traces, before)
    ensures Inv(run[k], traces, before, cells, selection, result)
  {
    if k == 0 {
      StartKeepsInv(run[0], traces, before, cells, selection, result);
    } else {
      RunKeepsInv(run, traces, k - 1, before, cells, selection, result);
      var m, n := run[k - 1], run[k - 1 + 1];
      assert Next(m, n, traces);
      var g :| Step(m, n, traces, g);
      StepKeepsInv(m, n, traces, g, before, cells, selection, result);
    }
  }

  lemma StartKeepsInv<T>(m: Machine<T>, traces: seq<Trace<T>>, before: seq<T>, cells: Cells<T>, selection: Selection,
                         result: ResultShape)
    requires result.WellFormed() && Matches(selection, result) && Named(cells, selection, result)
    requires |before| == NElements(result) && Starts(m, traces, before)
    ensures Inv(m, traces, before, cells, selection, result)
  {
  }

  /** Any interleaving of the instances' stores that makes them all has the effect of the read. */
  lemma EveryInterleavingReads<T>(run: seq<Machine<T>>, traces: seq<Trace<T>>, before: seq<T>, cells: Cells<T>,
                                  selection: Selection, result: ResultShape)
    requires result.WellFormed() && Matches(selection, result) && Named(cells, selection, result)
    requires |before| == NElements(result) && AreCompleteTraces(traces, cells, selection, result)
    requires run != [] && IsRun(run, traces)
    requires Starts(run[0], traces, before) && Finished(run[|run| - 1], traces)
    ensures ReadEffect(before, run[|run| - 1].buffer, cells, selection, result)
  {
    var last := run[|run| - 1];
    RunKeepsInv(run, traces, |run| - 1, before, cells, selection, result);
    forall j | InResult(result, j)
      ensures ElementRead(before, last.buffer, cells, selection, result, j)
    {
      var a := FlatPosition(result, j);
      assert HoldsStored(last, traces, before, cells, selection, result, j);
      if NoHole(DiskIndex(selection, result, j)) {
        assert SomeTraceStores(traces, a);
        var g :| 0 <= g < |traces| && StoresTo(traces[g], |traces[g]|, a);
        assert StoresTo(traces[g], last.done[g], a);
      }
    }
  }

  /** The effect determines the buffer. */
  lemma ReadEffectUnique<T>(before: seq<T>, a: seq<T>, b: seq<T>, cells: Cells<T>, selection: Selection,
                            result: ResultShape)
    requires result.WellFormed() && Matches(selection, result) && Named(cells, selection, result)
    requires |before| == NElements(result)
    requires ReadEffect(before, a, cells, selection, result) && ReadEffect(before, b, cells, selection, result)
    ensures a == b
  {
    forall k | 0 <= k < |before|
      ensures a[k] == b[k]
    {
      var j := FlatPositionSurjective(result, k);
      assert ElementRead(before, a, cells, selection, result, j) && ElementRead(before, b, cells, selection, result, j);
    }
  }

  // ----- groups of chunks

  // The stores of each group: those of its chunks, one after the other.
  function GroupTraces<T>(traces: seq<Trace<T>>, ends: seq<nat>, n: nat): (groups: seq<Trace<T>>)
    requires n <= |ends| && EndsWithin(ends, |traces|)
    ensures |groups| == n
  {
    if n == 0 then []
    else
      var group := traces[PieceBegin(ends, n - 1)..ends[n - 1]];
      GroupTraces(traces, ends, n - 1) + [JoinUpTo(group, |group|)]
  }

  lemma {:induction false} GroupTraceAt<T>(traces: seq<Trace<T>>, ends: seq<nat>, n: nat, g: nat)
    requires g < n <= |ends| && EndsWithin(ends, |traces|)
    ensures var group := traces[PieceBegin(ends, g)..ends[g]];
            GroupTraces(traces, ends, n)[g] == JoinUpTo(group, |group|)
  {
    if g < n - 1 {
      GroupTraceAt(traces, ends, n - 1, g);
    }
  }

  lemma {:induction false} GroupOf(ends: seq<nat>, n: nat, i: nat) returns (g: nat)
    requires 0 < n <= |ends| && i < ends[n - 1]
    ensures g < n && PieceBegin(ends, g) <= i < ends[g]
  {
    if PieceBegin(ends, n - 1) <= i {
      g := n - 1;
    } else {
      g := GroupOf(ends, n - 1, i);
    }
  }

  // Store k of group g is a store of one of the traces.
  lemma GroupMember<T>(traces: seq<Trace<T>>, ends: seq<nat>, g: nat, k: nat) returns (i: nat, x: nat)
    requires EndsWithin(ends, |traces|) && g < |ends| && k < |GroupTraces(traces, ends, |ends|)[g]|
    ensures i < |traces| && x < |traces[i]| && GroupTraces(traces, ends, |ends|)[g][k] == traces[i][x]
  {
    GroupTraceAt(traces, ends, |ends|, g);
    var group := traces[PieceBegin(ends, g)..ends[g]];
    i, x := JoinMember(group, |group|, k);
    i := i + PieceBegin(ends, g);
  }

  // Store x of trace i is a store of one of the groups.
  lemma GroupContains<T>(traces: seq<Trace<T>>, ends: seq<nat>, i: nat, x: nat) returns (g: nat, k: nat)
    requires AreEnds(ends, |traces|) && EndsWithin(ends, |traces|) && i < |traces| && x < |traces[i]|
    ensures g < |ends| && k < |GroupTraces(traces, ends, |ends|)[g]|
    ensures GroupTraces(traces, ends, |ends|)[g][k] == traces[i][x]
  {
    g := GroupOf(ends, |ends|, i);
    GroupTraceAt(traces, ends, |ends|, g);
    var begin, end := PieceBegin(ends, g), ends[g];
    k := SliceContains(traces, begin, end, i, x);
  }

  lemma SliceContains<T>(traces: seq<Trace<T>>, begin: nat, end: nat, i: nat, x: nat) returns (k: nat)
    requires begin <= i < end <= |traces| && x < |traces[i]|
    ensures k < |JoinUpTo(traces[begin..end], end - begin)|
    ensures JoinUpTo(traces[begin..end], end - begin)[k] == traces[i][x]
  {
    var group := traces[begin..end];
    assert group[i - begin] == traces[i];
    k := JoinContains(group, |group|, i - begin, x);
  }

  lemma GroupStores<T>(traces: seq<Trace<T>>, ends: seq<nat>, a: nat)
    requires AreEnds(ends, |traces|) && EndsWithin(ends, |traces|) && SomeTraceStores(traces, a)
    ensures SomeTraceStores(GroupTraces(traces, ends, |ends|), a)
  {
    var i :| 0 <= i < |traces| && StoresTo(traces[i], |traces[i]|, a);
    var x :| 0 <= x < |traces[i]| && traces[i][x].at == a;
    var g, k := GroupContains(traces, ends, i, x);
    var joined := GroupTraces(traces, ends, |ends|)[g];
    assert StoresTo(joined, |joined|, a);
  }

  /** Grouping the chunks, wherever the groups end, neither loses nor spoils a store. */
  lemma GroupsAreComplete<T>(traces: seq<Trace<T>>, ends: seq<nat>, cells: Cells<T>, selection: Selection,
                             result: ResultShape)
    requires result.WellFormed() && Matches(selection, result) && Named(cells, selection, result)
    requires AreCompleteTraces(traces, cells, selection, result) && AreEnds(ends, |traces|)
    ensures EndsWithin(ends, |traces|)
    ensures AreCompleteTraces(GroupTraces(traces, ends, |ends|), cells, selection, result)
  {
    EndsAreWithin(ends, |traces|);
    var groups := GroupTraces(traces, ends, |ends|);
    forall g, k | 0 <= g < |groups| && 0 <= k < |groups[g]|
      ensures IsGoodStore(groups[g][k], cells, selection, result)
    {
      var i, x := GroupMember(traces, ends, g, k);
      assert IsGoodStore(traces[i][x], cells, selection, result);
    }
    forall j | InResult(result, j) && NoHole(DiskIndex(selection, result, j))
      ensures SomeTraceStores(groups, FlatPosition(result, j))
    {
      GroupStores(traces, ends, FlatPosition(result, j));
    }
  }

  // ----- the fan-out

  // From one buffer to another, by a run of all stores.
  ghost predicate IsFinishedRun<T>(run: seq<Machine<T>>, traces: seq<Trace<T>>, before: seq<T>, after: seq<T>)
  {
    && run != [] && IsRun(run, traces)
    && Starts(run[0], traces, before) && Finished(run[|run| - 1], traces) && run[|run| - 1].buffer == after
  }

  predicate HasStores<T>(traces: seq<Trace<T>>, done: seq<nat>)
    requires |done| == |traces|
  {
    exists g :: 0 <= g < |traces| && done[g] < |traces[g]|
  }

  // The run of the instances so far.
  ghost predicate IsRunTo<T>(run: seq<Machine<T>>, traces: seq<Trace<T>>, before: seq<T>, m: Machine<T>)
  {
    && run != [] && IsRun(run, traces) && Starts(run[0], traces, before) && run[|run| - 1] == m
    && |m.done| == |traces| && forall g :: 0 <= g < |traces| ==> m.done[g] <= |traces[g]|
  }

  lemma ExtendRun<T>(run: seq<Machine<T>>, traces: seq<Trace<T>>, before: seq<T>, m: Machine<T>, n: Machine<T>, g: nat)
    requires IsRunTo(run, traces, before, m) && Step(m, n, traces, g)
    ensures IsRunTo(run + [n], traces, before, n)
    ensures Sum(n.done) == Sum(m.done) + 1 <= Sum(Lengths(traces))
  {
    assert Next(m, n, traces);
    SumUpdate(m.done, g, |traces|);
    SumBelow(m.done, Lengths(traces), g, |traces|);
  }

  // The instances make their stores, any of them at any time.
  method RunInstances<T>(traces: seq<Trace<T>>, buffer: array<T>) returns (ghost run: seq<Machine<T>>)
    requires AllWithin(traces, buffer.Length)
    modifies buffer
    ensures IsFinishedRun(run, traces, old(buffer[..]), buffer[..])
  {
    var done: seq<nat> := seq(|traces|, _ => 0);
    run := [Machine(buffer[..], done)];
    while HasStores(traces, done)
      invariant IsRunTo(run, traces, old(buffer[..]), Machine(buffer[..], done))
      decreases Sum(Lengths(traces)) - Sum(done)
    {
      ghost var m := Machine(buffer[..], done);
      var g :| 0 <= g < |traces| && done[g] < |traces[g]|;
      var store := traces[g][done[g]];
      buffer[store.at] := store.value;
      done := done[g := done[g] + 1];
      ExtendRun(run, traces, old(buffer[..]), m, Machine(buffer[..], done), g);
      run := run + [Machine(buffer[..], done)];
    }
  }

  lemma GroupsWithin<T>(traces: seq<Trace<T>>, ends: seq<nat>, size: nat)
    requires AllWithin(traces, size) && EndsWithin(ends, |traces|)
    ensures AllWithin(GroupTraces(traces, ends, |ends|), size)
  {
    forall g, k | 0 <= g < |ends| && 0 <= k < |GroupTraces(traces, ends, |ends|)[g]|
      ensures GroupTraces(traces, ends, |ends|)[g][k].at < size
    {
      var i, x := GroupMember(traces, ends, g, k);
      assert Within(traces[i], size);
    }
  }

  // The groups of the chunks, and all their stores in the order that the run has them.
  ghost predicate IsFanOut<T>(chunks: seq<DataChunk>, ends: seq<nat>, run: seq<Machine<T>>, before: seq<T>,
                              after: seq<T>, cells: Cells<T>)
  {
    && AllReady(chunks, cells, |before|) && AreEnds(ends, |chunks|) && EndsWithin(ends, |chunks|)
    && IsFinishedRun(run, GroupTraces(ChunkTraces(chunks, cells, |before|), ends, |ends|), before, after)
  }

  /** Groups the chunks for the instances, which read their groups at the same time. */
  method ReadGroups<T>(chunks: seq<DataChunk>, cells: Cells<T>, ninstances: nat, buffer: array<T>)
    returns (ends: seq<nat>, ghost run: seq<Machine<T>>)
    requires chunks != [] && AllReady(chunks, cells, buffer.Length)
    modifies buffer
    ensures |ends| == if ninstances == 0 then 1 else if ninstances < |chunks| then ninstances else |chunks|
    ensures AreGroups(ElementCounts(chunks), ends, CeilDiv(TotalElements(chunks, |chunks|), |ends|))
    ensures IsFanOut(chunks, ends, run, old(buffer[..]), buffer[..], cells)
  {
    ends := GroupChunks(chunks, ninstances);
    EndsAreWithin(ends, |chunks|);
    var traces := ChunkTraces(chunks, cells, buffer.Length);
    GroupsWithin(traces, ends, buffer.Length);
    run := RunInstances(GroupTraces(traces, ends, |ends|), buffer);
  }

  /** Reading the groups of a partition's chunks concurrently has the effect of the read. */
  lemma FanOutReads<T>(chunks: seq<DataChunk>, ends: seq<nat>, run: seq<Machine<T>>, before: seq<T>, after: seq<T>,
                       cells: Cells<T>, selection: Selection, result: ResultShape)
    requires result.WellFormed() && Matches(selection, result) && Named(cells, selection, result)
    requires |before| == NElements(result) && IsPartition(chunks, selection, result)
    requires IsFanOut(chunks, ends, run, before, after, cells)
    ensures ReadEffect(before, after, cells, selection, result)
  {
    var traces := ChunkTraces(chunks, cells, |before|);
    PartitionTracesAreComplete(chunks, cells, selection, result);
    GroupsAreComplete(traces, ends, cells, selection, result);
    EveryInterleavingReads(run, GroupTraces(traces, ends, |ends|), before, cells, selection, result);
  }

  /** Which is the buffer that reading all chunks in one task leaves. */
  lemma ConcurrentReadIsSequential<T>(chunks: seq<DataChunk>, ends: seq<nat>, run: seq<Machine<T>>, before: seq<T>,
                                      after: seq<T>, cells: Cells<T>, selection: Selection, result: ResultShape)
    requires result.WellFormed() && Matches(selection, result) && Named(cells, selection, result)
    requires |before| == NElements(result) && IsPartition(chunks, selection, result)
    requires IsFanOut(chunks, ends, run, before, after, cells)
    ensures after == AppliedAll(before, ReadTrace(chunks, cells, |before|))
  {
    var traces := ChunkTraces(chunks, cells, |before|);
    PartitionTracesAreComplete(chunks, cells, selection, result);
    JoinedTracesAreComplete(traces, cells, selection, result);
    CompleteTraceReads(before, ReadTrace(chunks, cells, |before|), cells, selection, result);
    FanOutReads(chunks, ends, run, before, after, cells, selection, result);
    ReadEffectUnique(before, after, AppliedAll(before, ReadTrace(chunks, cells, |before|)), cells, selection, result);
  }

  ghost predicate HasNoStores<T>(traces: seq<Trace<T>>)
  {
    forall i :: 0 <= i < |traces| ==> traces[i] == []
  }

  /** Chunks without stores leave the buffer alone. */
  lemma EmptyFanOut<T>(chunks: seq<DataChunk>, ends: seq<nat>, run: seq<Machine<T>>, before: seq<T>, after: seq<T>,
                       cells: Cells<T>)
    requires IsFanOut(chunks, ends, run, before, after, cells)
    requires HasNoStores(ChunkTraces(chunks, cells, |before|))
    ensures after == before
  {
    var groups := GroupTraces(ChunkTraces(chunks, cells, |before|), ends, |ends|);
    forall g | 0 <= g < |groups|
      ensures groups[g] == []
    {
      if groups[g] != [] {
        var i, x := GroupMember(ChunkTraces(chunks, cells, |before|), ends, g, 0);
      }
    }
    assert |run| > 1 ==> Next(run[0], run[1], groups);
  }
}
