/** What a split of rows keeps, and the pieces it makes. */
module RowPieces {
  import opened Wrappers
  import opened MixedRadix
  import opened Spans
  import opened RowSplit

  lemma {:induction false} PieceFromBounds(ends: seq<nat>, nrows: nat, k: nat, position: nat)
    requires AreEnds(ends, nrows) && position < nrows && k < |ends|
    ensures PieceFrom(ends, k, position) < |ends|
    ensures position < ends[PieceFrom(ends, k, position)]
    decreases |ends| - k
  {
    if ends[k] <= position {
      PieceFromBounds(ends, nrows, k + 1, position);
    }
  }

  lemma SliceOfRun(span: SpanPair, lo: nat, hi: nat)
    requires lo <= hi <= |span.disk| == |span.mem| && IsRun(span.disk, true)
    ensures IsRun(Slice(span, lo, hi).disk, true)
  {
  }

  ghost predicate IsRunPair(span: SpanPair)
  {
    |span.disk| == |span.mem| && IsRun(span.disk, true)
  }

  lemma {:induction false} CutSpanKeeps(span: SpanPair, position: nat, ends: seq<nat>, nrows: nat)
    requires IsRunPair(span) && AreEnds(ends, nrows) && position + |span.disk| <= nrows
    ensures Joined(CutSpan(span, position, ends)) == span
    ensures forall p :: p in CutSpan(span, position, ends) ==> IsRunPair(p)
    decreases |span.disk|
  {
    if span.disk != [] {
      PieceFromBounds(ends, nrows, 0, position);
      var n := TakeRows(|span.disk|, ends[PieceFrom(ends, 0, position)], position);
      var first, rest := Slice(span, 0, n), Slice(span, n, |span.disk|);
      SliceOfRun(span, 0, n);
      SliceOfRun(span, n, |span.disk|);
      CutSpanKeeps(rest, position + n, ends, nrows);
      JoinedCons(first, CutSpan(rest, position + n, ends));
      SlicesConcat(span, n);
    } else {
      assert CutSpan(span, position, ends) == [];
    }
  }

  lemma SlicesConcat(span: SpanPair, n: nat)
    requires n <= |span.disk| == |span.mem|
    ensures Concat(Slice(span, 0, n), Slice(span, n, |span.disk|)) == span
  {
    assert span.disk[0..n] + span.disk[n..|span.disk|] == span.disk;
    assert span.mem[0..n] + span.mem[n..|span.mem|] == span.mem;
  }

  lemma JoinedCons(first: SpanPair, rest: SpanPairs)
    ensures Joined([first] + rest) == Concat(first, Joined(rest))
  {
    JoinedOne(first);
    JoinedConcat([first], rest);
  }

  // What becomes of span s, whose first row read is at the given position.
  function CutOne(spans: SpanPairs, s: nat, position: nat, ends: seq<nat>): SpanPairs
    requires s < |spans| && RunsOnly(spans)
  {
    if IsRead(spans[s]) then CutSpan(spans[s], position, ends) else [spans[s]]
  }

  lemma CutOneKeeps(spans: SpanPairs, s: nat, ends: seq<nat>)
    requires RunsOnly(spans) && s < |spans| && AreEnds(ends, |ReadRows(spans, |spans|)|)
    ensures Joined(CutOne(spans, s, |ReadRows(spans, s)|, ends)) == spans[s]
    ensures forall p :: p in CutOne(spans, s, |ReadRows(spans, s)|, ends) ==> IsRunPair(p)
  {
    if IsRead(spans[s]) {
      ReadRowsGrow(spans, s + 1, |spans|);
      CutSpanKeeps(spans[s], |ReadRows(spans, s)|, ends, |ReadRows(spans, |spans|)|);
    } else {
      JoinedOne(spans[s]);
    }
  }

  lemma CutSpansHead(spans: SpanPairs, s: nat, ends: seq<nat>)
    requires RunsOnly(spans) && s < |spans|
    ensures CutSpans(spans, s, |ReadRows(spans, s)|, ends)
         == CutOne(spans, s, |ReadRows(spans, s)|, ends) + CutSpans(spans, s + 1, |ReadRows(spans, s + 1)|, ends)
  {
  }

  lemma {:induction false} CutSpansKeep(spans: SpanPairs, s: nat, ends: seq<nat>)
    requires RunsOnly(spans) && s <= |spans| && AreEnds(ends, |ReadRows(spans, |spans|)|)
    ensures Joined(CutSpans(spans, s, |ReadRows(spans, s)|, ends)) == Joined(spans[s..])
    ensures forall p :: p in CutSpans(spans, s, |ReadRows(spans, s)|, ends) ==> IsRunPair(p)
    decreases |spans| - s
  {
    if s < |spans| {
      var head, tail := CutOne(spans, s, |ReadRows(spans, s)|, ends),
          CutSpans(spans, s + 1, |ReadRows(spans, s + 1)|, ends);
      CutSpansKeep(spans, s + 1, ends);
      CutOneKeeps(spans, s, ends);
      CutSpansHead(spans, s, ends);
      JoinedHead(spans, s);
      JoinedConcat(head, tail);
    }
  }

  /**
   Whatever the units, monotone or not, a split loses and reorders nothing: the pieces
   join to the same disk and memory indices, and each is still holes or a run of rows.
   */
  lemma SplitKeepsRows(spans: SpanPairs, ends: seq<nat>)
    requires RunsOnly(spans) && AreEnds(ends, |ReadRows(spans, |spans|)|)
    ensures Joined(CutSpans(spans, 0, 0, ends)) == Joined(spans)
    ensures RunsOnly(CutSpans(spans, 0, 0, ends))
  {
    CutSpansKeep(spans, 0, ends);
    assert spans[0..] == spans;
    forall s | 0 <= s < |CutSpans(spans, 0, 0, ends)|
      ensures IsRunPair(CutSpans(spans, 0, 0, ends)[s])
    {
    }
  }
  // ----- the pieces of a single span of rows, which is all a selection of rows has

  function PieceBegin(ends: seq<nat>, k: nat): nat
    requires k <= |ends|
  {
    if k == 0 then 0 else ends[k - 1]
  }

  ghost predicate EndsWithin(ends: seq<nat>, nrows: nat)
  {
    forall k {:trigger PieceBegin(ends, k)} :: 0 <= k < |ends| ==> PieceBegin(ends, k) < ends[k] <= nrows
  }

  function PiecesFrom(span: SpanPair, ends: seq<nat>, k: nat): (pieces: SpanPairs)
    requires k <= |ends| && |span.disk| == |span.mem| && EndsWithin(ends, |span.disk|)
    ensures |pieces| == |ends| - k
    decreases |ends| - k
  {
    if k == |ends| then []
    else [Slice(span, PieceBegin(ends, k), ends[k])] + PiecesFrom(span, ends, k + 1)
  }

  lemma {:induction false} PieceAt(span: SpanPair, ends: seq<nat>, k: nat, i: nat)
    requires k <= i < |ends| && |span.disk| == |span.mem| && EndsWithin(ends, |span.disk|)
    ensures PiecesFrom(span, ends, k)[i - k] == Slice(span, PieceBegin(ends, i), ends[i])
    decreases i - k
  {
    var first, rest := Slice(span, PieceBegin(ends, k), ends[k]), PiecesFrom(span, ends, k + 1);
    assert PiecesFrom(span, ends, k) == [first] + rest;
    if k < i {
      PieceAt(span, ends, k + 1, i);
      assert ([first] + rest)[i - k] == rest[i - (k + 1)];
    }
  }

  lemma BeginsPiece(ends: seq<nat>, nrows: nat, k: nat)
    requires AreEnds(ends, nrows) && k < |ends|
    ensures PieceBegin(ends, k) < ends[k] <= nrows
    ensures PieceFrom(ends, 0, PieceBegin(ends, k)) == k
  {
    PieceFromIsPiece(ends, 0, k, PieceBegin(ends, k));
  }

  lemma EndsAreWithin(ends: seq<nat>, nrows: nat)
    requires AreEnds(ends, nrows)
    ensures EndsWithin(ends, nrows)
  {
  }

  lemma CutPiece(span: SpanPair, ends: seq<nat>, k: nat, begin: nat, end: nat)
    requires k < |ends| && ends[k] == end && PieceFrom(ends, 0, begin) == k
    requires begin < end <= |span.disk| == |span.mem|
    ensures CutSpan(Slice(span, begin, |span.disk|), begin, ends)
         == [Slice(span, begin, end)] + CutSpan(Slice(span, end, |span.disk|), end, ends)
  {
    CutSpanUnfold(span, begin, end - begin, begin, ends, k);
  }

  lemma {:induction false} CutWhole(span: SpanPair, ends: seq<nat>, k: nat)
    requires |span.disk| == |span.mem| && AreEnds(ends, |span.disk|) && k <= |ends|
    requires EndsWithin(ends, |span.disk|)
    ensures PieceBegin(ends, k) <= |span.disk|
    ensures CutSpan(Slice(span, PieceBegin(ends, k), |span.disk|), PieceBegin(ends, k), ends)
          == PiecesFrom(span, ends, k)
    decreases |ends| - k
  {
    if k < |ends| {
      BeginsPiece(ends, |span.disk|, k);
      CutPiece(span, ends, k, PieceBegin(ends, k), ends[k]);
      CutWhole(span, ends, k + 1);
    }
  }

  /** One span of rows, after the holes if there are any, is cut exactly at the piece ends. */
  lemma SplitOfSingleSpan(spans: SpanPairs, ends: seq<nat>)
    requires RunsOnly(spans) && AreEnds(ends, |ReadRows(spans, |spans|)|)
    requires |spans| == 1 || (|spans| == 2 && !IsRead(spans[0]))
    requires IsRead(spans[|spans| - 1])
    ensures ReadRows(spans, |spans|) == AsRows(spans[|spans| - 1].disk)
    ensures EndsWithin(ends, |spans[|spans| - 1].disk|)
    ensures CutSpans(spans, 0, 0, ends) == spans[..|spans| - 1] + PiecesFrom(spans[|spans| - 1], ends, 0)
  {
    var last := |spans| - 1;
    ReadRowsOfLast(spans);
    EndsAreWithin(ends, |spans[last].disk|);
    CutWhole(spans[last], ends, 0);
    assert Slice(spans[last], 0, |spans[last].disk|) == spans[last];
    LastIsCut(spans, ends);
    if last == 1 {
      HolesBeforeCut(spans, ends);
    }
  }

  lemma LastIsCut(spans: SpanPairs, ends: seq<nat>)
    requires spans != [] && RunsOnly(spans) && IsRead(spans[|spans| - 1])
    ensures CutSpans(spans, |spans| - 1, 0, ends) == CutSpan(spans[|spans| - 1], 0, ends)
  {
    assert CutSpans(spans, |spans|, |spans[|spans| - 1].disk|, ends) == [];
  }

  lemma HolesBeforeCut(spans: SpanPairs, ends: seq<nat>)
    requires |spans| == 2 && RunsOnly(spans) && !IsRead(spans[0])
    ensures CutSpans(spans, 0, 0, ends) == spans[..1] + CutSpans(spans, 1, 0, ends)
  {
    assert spans[..1] == [spans[0]];
  }

  lemma ReadRowsOfLast(spans: SpanPairs)
    requires RunsOnly(spans) && (|spans| == 1 || (|spans| == 2 && !IsRead(spans[0])))
    requires IsRead(spans[|spans| - 1])
    ensures ReadRows(spans, |spans|) == AsRows(spans[|spans| - 1].disk)
  {
    var last := |spans| - 1;
    assert ReadRows(spans, 0) == [];
    assert ReadRows(spans, last) == [];
    assert ReadRows(spans, |spans|) == ReadRows(spans, last) + AsRows(spans[last].disk);
  }

  // The number of pieces DataPartition::Make asks for.
  function SplitCount(options: RowSplitOptions, nrows: nat, rowBytes: nat): nat
  {
    var nsplits := options.maxSplits;
    var afforded := if options.minBytes > 0 && nrows * rowBytes / options.minBytes < nsplits
                    then nrows * rowBytes / options.minBytes else nsplits;
    if afforded < nrows then afforded else nrows
  }

  // So many pieces are asked for, have a row each, and as many minimums of bytes in all.
  ghost predicate IsAfforded(options: RowSplitOptions, nrows: nat, rowBytes: nat, n: nat)
  {
    n <= options.maxSplits && n <= nrows && (options.minBytes > 0 ==> n * options.minBytes <= nrows * rowBytes)
  }

  /** It asks for as many as there can be. */
  lemma SplitCountIsMost(options: RowSplitOptions, nrows: nat, rowBytes: nat)
    ensures IsAfforded(options, nrows, rowBytes, SplitCount(options, nrows, rowBytes))
    ensures forall n: nat :: IsAfforded(options, nrows, rowBytes, n) ==> n <= SplitCount(options, nrows, rowBytes)
  {
    if options.minBytes > 0 {
      QuotientIsMost(nrows * rowBytes, options.minBytes, SplitCount(options, nrows, rowBytes));
      forall n: nat | IsAfforded(options, nrows, rowBytes, n)
        ensures n <= nrows * rowBytes / options.minBytes
      {
        QuotientIsMost(nrows * rowBytes, options.minBytes, n);
      }
    }
  }

  lemma QuotientIsMost(total: nat, size: nat, n: nat)
    requires size > 0
    ensures n <= total / size <==> n * size <= total
  {
    var q := total / size;
    assert total == size * q + total % size;
    if n <= q {
      MulMonotone(size, n, q);
    } else {
      MulMonotone(size, q + 1, n);
      assert size * (q + 1) == size * q + size;
    }
  }

  lemma PieceSize(nrows: nat, nsplits: nat, split: nat)
    requires 0 < split <= nsplits <= nrows
    ensures var size := EvenBoundary(nrows, nsplits, split) - EvenBoundary(nrows, nsplits, split - 1);
            nrows / nsplits <= size <= nrows / nsplits + 1
  {
    assert split * nrows == (split - 1) * nrows + nrows;
    DivSum((split - 1) * nrows, nrows, nsplits);
  }

  lemma DivSum(a: nat, b: nat, n: nat)
    requires n > 0
    ensures a / n + b / n <= (a + b) / n <= a / n + b / n + 1
  {
    SumOfParts(n, a / n, a % n, b / n, b % n, a + b);
  }

  lemma SumOfParts(n: nat, x: nat, r: nat, y: nat, t: nat, sum: nat)
    requires r < n && t < n && sum == (n * x + r) + (n * y + t)
    ensures x + y <= sum / n <= x + y + 1
  {
    var q := x + y;
    Distribute(n, x, y);
    Distribute(n, q, 1);
    if r + t < n {
      DivUnique(sum, n, q, r + t);
    } else {
      DivUnique(sum, n, q + 1, r + t - n);
    }
  }

  // n pieces of at most m rows hold the bytes that n pieces of the minimum need.
  lemma LeastPieceBytes(nrows: nat, nsplits: nat, rowBytes: nat, minBytes: nat)
    requires 0 < nsplits && 0 < minBytes && nsplits <= nrows * rowBytes / minBytes
    ensures minBytes < (nrows / nsplits + 1) * rowBytes
  {
    var least, total := nrows / nsplits, nrows * rowBytes;
    assert total == minBytes * (total / minBytes) + total % minBytes;
    MulMonotone(minBytes, nsplits, total / minBytes);
    assert minBytes * nsplits <= total;
    assert nrows < nsplits * (least + 1);
    if (least + 1) * rowBytes <= minBytes {
      MulMonotone(nsplits, (least + 1) * rowBytes, minBytes);
      Reassociate(nsplits, least + 1, rowBytes);
      MulEqual(rowBytes, nrows, nsplits * (least + 1));
    }
  }

  lemma Reassociate(a: nat, b: nat, c: nat)
    ensures a * (b * c) == c * (a * b)
  {
  }

  lemma MulEqual(m: nat, a: nat, b: nat)
    requires a < b && m * b <= a * m
    ensures m == 0
  {
    assert m * b == m * a + m * (b - a);
  }

  /**
   Without units the sizes of any two pieces differ by at most one row, and the bytes of a
   piece are more than the minimum less one row.
   */
  lemma EvenPieceSizes(options: RowSplitOptions, nrows: nat, rowBytes: nat, split: nat)
    requires var nsplits := SplitCount(options, nrows, rowBytes); nsplits > 1 && 0 < split <= nsplits
    ensures var nsplits := SplitCount(options, nrows, rowBytes);
            var size := EvenBoundary(nrows, nsplits, split) - EvenBoundary(nrows, nsplits, split - 1);
            && nrows / nsplits <= size <= nrows / nsplits + 1
            && (options.minBytes > 0 ==> size * rowBytes + rowBytes > options.minBytes)
  {
    var nsplits := SplitCount(options, nrows, rowBytes);
    PieceSize(nrows, nsplits, split);
    if options.minBytes > 0 {
      LeastPieceBytes(nrows, nsplits, rowBytes, options.minBytes);
      var size := EvenBoundary(nrows, nsplits, split) - EvenBoundary(nrows, nsplits, split - 1);
      MulMonotone(rowBytes, nrows / nsplits + 1, size + 1);
    }
  }

  lemma EndSplitsNoUnit(rows: seq<nat>, nsplits: nat, unitStart: RowUnitStart, ends: seq<nat>, j: nat)
    requires AscendingRows(rows) && IsUnitFunction(unitStart)
    requires ArePieceEnds(ends, rows, nsplits, Some(unitStart)) && j < |ends| - 1
    ensures 0 < ends[j] < |rows| && IsUnitBoundary(ends[j], rows, unitStart)
  {
    assert IsBoundary(ends[j], rows, nsplits, nsplits, Some(unitStart));
    var split :| 0 < split < nsplits <= |rows| && ends[j] == Boundary(rows, nsplits, split, Some(unitStart));
    BoundaryInside(|rows|, nsplits, split);
    AlignBoundaryIsNearest(EvenBoundary(|rows|, nsplits, split), rows, unitStart);
  }

  lemma {:induction false} EvenBoundariesOrdered(nrows: nat, nsplits: nat, s: nat, t: nat)
    requires 0 < s <= t <= nsplits <= nrows
    ensures EvenBoundary(nrows, nsplits, s) <= EvenBoundary(nrows, nsplits, t)
    decreases t
  {
    if s < t {
      EvenBoundariesOrdered(nrows, nsplits, s, t - 1);
      EvenBoundariesAscend(nrows, nsplits, t);
    }
  }

  /** Every aligned boundary with rows on both sides ends a piece. */
  lemma AlignedBoundariesAreEnds(rows: seq<nat>, nsplits: nat, unitStart: RowUnitStart, ends: seq<nat>, split: nat)
    requires AscendingRows(rows) && IsUnitFunction(unitStart)
    requires ArePieceEnds(ends, rows, nsplits, Some(unitStart)) && 0 < split < nsplits <= |rows|
    ensures var end := Boundary(rows, nsplits, split, Some(unitStart)); end in ends || end == 0 || end == |rows|
  {
    var end := Boundary(rows, nsplits, split, Some(unitStart));
    assert IsTaken(ends, rows, nsplits, split, Some(unitStart));
    if IsPassed(ends, end, rows, nsplits, split, Some(unitStart)) {
      var other :| other in ends && other > end && IsBoundary(other, rows, nsplits, split, Some(unitStart));
      var s :| 0 < s < split && other == Boundary(rows, nsplits, s, Some(unitStart));
      BoundaryInside(|rows|, nsplits, split);
      EvenBoundariesOrdered(|rows|, nsplits, s, split);
      AlignKeepsOrder(EvenBoundary(|rows|, nsplits, s), EvenBoundary(|rows|, nsplits, split), rows, unitStart);
    }
  }

  /** No storage unit has rows in two pieces. */
  lemma PiecesShareNoUnit(rows: seq<nat>, nsplits: nat, unitStart: RowUnitStart, ends: seq<nat>,
                          j: nat, k: nat, x: nat, y: nat)
    requires AscendingRows(rows) && IsUnitFunction(unitStart)
    requires ArePieceEnds(ends, rows, nsplits, Some(unitStart))
    requires j < k < |ends|
    requires PieceBegin(ends, j) <= x < ends[j] && PieceBegin(ends, k) <= y < ends[k]
    ensures y < |rows| && unitStart(rows[x]) != unitStart(rows[y])
  {
    EndSplitsNoUnit(rows, nsplits, unitStart, ends, j);
    EndBeforeBegin(ends, |rows|, j, k);
    UnitsDiffer(rows, unitStart, ends[j], x, y);
  }

  lemma EndBeforeBegin(ends: seq<nat>, nrows: nat, j: nat, k: nat)
    requires AreEnds(ends, nrows) && j < k < |ends|
    ensures ends[j] <= PieceBegin(ends, k) && ends[k] <= nrows
  {
  }

  lemma UnitsDiffer(rows: seq<nat>, unitStart: RowUnitStart, e: nat, x: nat, y: nat)
    requires AscendingRows(rows) && IsUnitFunction(unitStart)
    requires x < e <= y < |rows| && IsUnitBoundary(e, rows, unitStart)
    ensures unitStart(rows[x]) != unitStart(rows[y])
  {
    assert rows[x] <= rows[e - 1] < rows[e] <= rows[y];
    assert unitStart(rows[x]) <= unitStart(rows[e - 1]) <= unitStart(rows[e]) <= unitStart(rows[y]);
  }
}
