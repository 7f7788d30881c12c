/**
 Splitting the rows of a large read, with boundaries moved to storage units
 (AlignBoundary, SplitRowSpans and the arithmetic of MakeRowUnitStart).
 */
module RowSplit {
  import opened Wrappers
  import opened MixedRadix
  import opened Spans

  // Where the unit of each row starts.
  type RowUnitStart = nat -> nat

  datatype RowSplitOptions = RowSplitOptions(maxSplits: nat, minBytes: nat, unitStart: Option<RowUnitStart>)

  // ----- binary search

  // The bisection of std::lower_bound and std::upper_bound: the first position of lo..hi
  // that is not before the one sought, provided those before it come first.
  function PartitionPoint(before: seq<bool>, lo: nat, hi: nat): (r: nat)
    requires lo <= hi <= |before|
    ensures lo <= r <= hi
    ensures r > lo ==> before[r - 1]
    ensures r < hi ==> !before[r]
    decreases hi - lo
  {
    if lo == hi then lo
    else
      var mid := lo + (hi - lo) / 2;
      if before[mid] then PartitionPoint(before, mid + 1, hi) else PartitionPoint(before, lo, mid)
  }

  // ----- aligning one boundary

  // The rows before a unit, and those not in a later unit.
  function BeforeUnit(rows: seq<nat>, unit: nat): (r: seq<bool>)
    ensures |r| == |rows| && forall q :: 0 <= q < |rows| ==> r[q] == (rows[q] < unit)
  {
    seq(|rows|, q requires 0 <= q < |rows| => rows[q] < unit)
  }

  function UpToUnit(rows: seq<nat>, unit: nat, unitStart: RowUnitStart): (r: seq<bool>)
    ensures |r| == |rows| && forall q :: 0 <= q < |rows| ==> r[q] == (unitStart(rows[q]) <= unit)
  {
    seq(|rows|, q requires 0 <= q < |rows| => unitStart(rows[q]) <= unit)
  }

  function UnitDown(p: nat, rows: seq<nat>, unitStart: RowUnitStart): nat
    requires p < |rows|
  {
    PartitionPoint(BeforeUnit(rows, unitStart(rows[p])), 0, p)
  }

  function UnitNext(p: nat, rows: seq<nat>, unitStart: RowUnitStart): nat
    requires p < |rows|
  {
    PartitionPoint(UpToUnit(rows, unitStart(rows[p]), unitStart), p + 1, |rows|)
  }

  // The boundary that replaces p: p itself if a unit starts with its row, else where that
  // unit or the next one begins among the rows, whichever is less far; the former if equal.
  function AlignBoundary(p: nat, rows: seq<nat>, unitStart: RowUnitStart): (q: nat)
    requires p < |rows|
    ensures q <= |rows|
  {
    if unitStart(rows[p]) == rows[p] then p
    else
      var down := UnitDown(p, rows, unitStart);
      var next := UnitNext(p, rows, unitStart);
      if p - down <= next - p then down else next
  }

  ghost predicate IsUnitFunction(unitStart: RowUnitStart)
  {
    && (forall r: nat :: unitStart(r) <= r)
    && (forall r: nat {:trigger unitStart(unitStart(r))} :: unitStart(unitStart(r)) == unitStart(r))
    && (forall r: nat, s: nat :: r <= s ==> unitStart(r) <= unitStart(s))
  }

  // No unit has rows on both sides of the boundary before position q.
  ghost predicate IsUnitBoundary(q: nat, rows: seq<nat>, unitStart: RowUnitStart)
    requires q <= |rows|
  {
    q == 0 || q == |rows| || unitStart(rows[q - 1]) != unitStart(rows[q])
  }

  ghost predicate AscendingRows(rows: seq<nat>)
  {
    forall i, j :: 0 <= i < j < |rows| ==> rows[i] < rows[j]
  }

  function Distance(p: nat, q: nat): nat
  {
    if p <= q then q - p else p - q
  }

  // The starts of the units of ascending rows.
  ghost predicate AreStarts(starts: seq<nat>, rows: seq<nat>)
  {
    && |starts| == |rows|
    && (forall q :: 0 <= q < |rows| ==> starts[q] <= rows[q])
    && (forall p, q :: 0 <= p <= q < |rows| ==> starts[p] <= starts[q])
    && (forall p, q :: 0 <= p < |rows| && 0 <= q < |rows| && starts[p] <= rows[q] ==> starts[p] <= starts[q])
  }

  lemma StartsOfUnits(rows: seq<nat>, unitStart: RowUnitStart) returns (starts: seq<nat>)
    requires AscendingRows(rows) && IsUnitFunction(unitStart)
    ensures AreStarts(starts, rows)
    ensures forall q :: 0 <= q < |rows| ==> starts[q] == unitStart(rows[q])
  {
    starts := seq(|rows|, q requires 0 <= q < |rows| => unitStart(rows[q]));
    forall p, q | 0 <= p < |rows| && 0 <= q < |rows| && starts[p] <= rows[q]
      ensures starts[p] <= starts[q]
    {
      assert unitStart(starts[p]) == unitStart(unitStart(rows[p])) == starts[p];
      assert unitStart(starts[p]) <= unitStart(rows[q]);
    }
  }

  // Where the rows of the unit at p begin, and where a later unit begins.
  ghost predicate AreCandidates(starts: seq<nat>, rows: seq<nat>, p: nat, down: nat, next: nat)
    requires |starts| == |rows|
  {
    && down <= p < next <= |rows|
    && (down > 0 ==> rows[down - 1] < starts[p])
    && (down < p ==> starts[p] <= rows[down])
    && (next > p + 1 ==> starts[next - 1] <= starts[p])
    && (next < |rows| ==> starts[p] < starts[next])
  }

  // Where the rows before a unit end, and where those not in a later unit do.
  ghost predicate IsDown(rows: seq<nat>, unit: nat, p: nat, down: nat)
    requires p < |rows|
  {
    down <= p && (down > 0 ==> rows[down - 1] < unit) && (down < p ==> unit <= rows[down])
  }

  ghost predicate IsNext(rows: seq<nat>, unit: nat, unitStart: RowUnitStart, p: nat, next: nat)
  {
    && p < next <= |rows|
    && (next > p + 1 ==> unitStart(rows[next - 1]) <= unit)
    && (next < |rows| ==> unit < unitStart(rows[next]))
  }

  lemma DownFound(rows: seq<nat>, unitStart: RowUnitStart, p: nat)
    requires p < |rows|
    ensures IsDown(rows, unitStart(rows[p]), p, UnitDown(p, rows, unitStart))
  {
    var before, down := BeforeUnit(rows, unitStart(rows[p])), UnitDown(p, rows, unitStart);
    assert down > 0 ==> before[down - 1];
  }

  lemma NextFound(rows: seq<nat>, unitStart: RowUnitStart, p: nat)
    requires p < |rows|
    ensures IsNext(rows, unitStart(rows[p]), unitStart, p, UnitNext(p, rows, unitStart))
  {
    var upTo, next := UpToUnit(rows, unitStart(rows[p]), unitStart), UnitNext(p, rows, unitStart);
    assert next > p + 1 ==> upTo[next - 1];
  }

  lemma TheseAreCandidates(starts: seq<nat>, rows: seq<nat>, unitStart: RowUnitStart, p: nat, down: nat, next: nat)
    requires |rows| == |starts| && forall q :: 0 <= q < |rows| ==> starts[q] == unitStart(rows[q])
    requires p < |rows| && IsDown(rows, unitStart(rows[p]), p, down)
          && IsNext(rows, unitStart(rows[p]), unitStart, p, next)
    ensures AreCandidates(starts, rows, p, down, next)
  {
  }

  // The rows between the two candidate boundaries are those of the unit at p.
  lemma UnitStretch(starts: seq<nat>, rows: seq<nat>, p: nat, down: nat, next: nat, q: nat)
    requires AreStarts(starts, rows) && AscendingRows(rows) && AreCandidates(starts, rows, p, down, next)
    requires down <= q < next
    ensures starts[q] == starts[p]
  {
    if q < p {
      assert rows[down] <= rows[q];
      assert starts[q] <= starts[p] <= rows[q];
    } else if p < q {
      assert starts[p] <= starts[q] <= starts[next - 1];
    }
  }

  lemma UnitEdges(starts: seq<nat>, rows: seq<nat>, p: nat, down: nat, next: nat)
    requires AreStarts(starts, rows) && AscendingRows(rows) && AreCandidates(starts, rows, p, down, next)
    ensures down > 0 ==> starts[down - 1] != starts[down]
    ensures next < |rows| ==> starts[next - 1] != starts[next]
  {
    UnitStretch(starts, rows, p, down, next, down);
    UnitStretch(starts, rows, p, down, next, next - 1);
  }

  // a is nearer to p than b is, or as near and lower.
  ghost predicate Nearer(p: nat, a: nat, b: nat)
  {
    Distance(p, a) < Distance(p, b) || (Distance(p, a) == Distance(p, b) && a <= b)
  }

  /**
   An aligned boundary splits no unit, and no boundary that splits no unit is nearer;
   of two equally near the lower is taken.
   */
  lemma AlignBoundaryIsNearest(p: nat, rows: seq<nat>, unitStart: RowUnitStart)
    requires p < |rows| && AscendingRows(rows) && IsUnitFunction(unitStart)
    ensures IsUnitBoundary(AlignBoundary(p, rows, unitStart), rows, unitStart)
    ensures forall q :: 0 <= q <= |rows| && IsUnitBoundary(q, rows, unitStart) ==>
              Nearer(p, AlignBoundary(p, rows, unitStart), q)
  {
    var starts := StartsOfUnits(rows, unitStart);
    if unitStart(rows[p]) == rows[p] {
      UnitStartIsBoundary(starts, rows, unitStart, p);
    } else {
      CandidateIsNearest(starts, rows, unitStart, p);
    }
  }

  lemma CandidateIsNearest(starts: seq<nat>, rows: seq<nat>, unitStart: RowUnitStart, p: nat)
    requires AreStarts(starts, rows) && AscendingRows(rows) && p < |rows| && unitStart(rows[p]) != rows[p]
    requires forall q :: 0 <= q < |rows| ==> starts[q] == unitStart(rows[q])
    ensures IsUnitBoundary(AlignBoundary(p, rows, unitStart), rows, unitStart)
    ensures forall q :: 0 <= q <= |rows| && IsUnitBoundary(q, rows, unitStart) ==>
              Nearer(p, AlignBoundary(p, rows, unitStart), q)
  {
    var down, next := UnitDown(p, rows, unitStart), UnitNext(p, rows, unitStart);
    DownFound(rows, unitStart, p);
    NextFound(rows, unitStart, p);
    TheseAreCandidates(starts, rows, unitStart, p, down, next);
    StretchHasNoBoundary(starts, rows, unitStart, p, down, next);
    OnlyEdgesRemain(p, rows, unitStart, down, next);
  }

  lemma UnitStartIsBoundary(starts: seq<nat>, rows: seq<nat>, unitStart: RowUnitStart, p: nat)
    requires AreStarts(starts, rows) && AscendingRows(rows) && p < |rows|
    requires forall q :: 0 <= q < |rows| ==> starts[q] == unitStart(rows[q])
    requires starts[p] == rows[p]
    ensures IsUnitBoundary(p, rows, unitStart)
  {
    assert p > 0 ==> starts[p - 1] <= rows[p - 1] < rows[p];
  }

  lemma StretchHasNoBoundary(starts: seq<nat>, rows: seq<nat>, unitStart: RowUnitStart, p: nat, down: nat, next: nat)
    requires AreStarts(starts, rows) && AscendingRows(rows) && AreCandidates(starts, rows, p, down, next)
    requires forall q :: 0 <= q < |rows| ==> starts[q] == unitStart(rows[q])
    ensures IsUnitBoundary(down, rows, unitStart) && IsUnitBoundary(next, rows, unitStart)
    ensures forall q :: down < q < next ==> !IsUnitBoundary(q, rows, unitStart)
  {
    UnitEdges(starts, rows, p, down, next);
    forall q | down < q < next
      ensures !IsUnitBoundary(q, rows, unitStart)
    {
      UnitStretch(starts, rows, p, down, next, q - 1);
      UnitStretch(starts, rows, p, down, next, q);
    }
  }

  lemma OnlyEdgesRemain(p: nat, rows: seq<nat>, unitStart: RowUnitStart, down: nat, next: nat)
    requires down <= p < next <= |rows|
    requires forall q :: down < q < next ==> !IsUnitBoundary(q, rows, unitStart)
    ensures forall q :: 0 <= q <= |rows| && IsUnitBoundary(q, rows, unitStart) ==>
              Nearer(p, if p - down <= next - p then down else next, q)
  {
  }

  /** Aligning keeps the order of boundaries. */
  lemma AlignKeepsOrder(p: nat, q: nat, rows: seq<nat>, unitStart: RowUnitStart)
    requires p <= q < |rows| && AscendingRows(rows) && IsUnitFunction(unitStart)
    ensures AlignBoundary(p, rows, unitStart) <= AlignBoundary(q, rows, unitStart)
  {
    var a, b := AlignBoundary(p, rows, unitStart), AlignBoundary(q, rows, unitStart);
    AlignBoundaryIsNearest(p, rows, unitStart);
    AlignBoundaryIsNearest(q, rows, unitStart);
    assert Nearer(p, a, b) && Nearer(q, b, a);
  }

  // ----- the boundaries of all pieces

  ghost predicate AreEnds(ends: seq<nat>, nrows: nat)
  {
    && ends != [] && ends[|ends| - 1] == nrows && ends[0] > 0
    && forall i, j :: 0 <= i < j < |ends| ==> ends[i] < ends[j]
  }

  // Where an even split into nsplits pieces puts boundary number split.
  function EvenBoundary(nrows: nat, nsplits: nat, split: nat): nat
    requires nsplits > 0
  {
    split * nrows / nsplits
  }

  lemma EvenBoundariesAscend(nrows: nat, nsplits: nat, split: nat)
    requires 0 < split <= nsplits <= nrows
    ensures EvenBoundary(nrows, nsplits, split - 1) < EvenBoundary(nrows, nsplits, split)
    ensures EvenBoundary(nrows, nsplits, nsplits) == nrows
    decreases nsplits - split
  {
    assert split * nrows == (split - 1) * nrows + nrows;
    DivStep((split - 1) * nrows, nrows, nsplits);
    DivUnique(nsplits * nrows, nsplits, nrows, 0);
  }

  // The boundary number split, aligned if there are units to align to.
  function Boundary(rows: seq<nat>, nsplits: nat, split: nat, unitStart: Option<RowUnitStart>): nat
    requires 0 < split < nsplits <= |rows|
  {
    EvenBoundariesAscend(|rows|, nsplits, split);
    EvenBoundariesAscend(|rows|, nsplits, split + 1);
    BoundaryInside(|rows|, nsplits, split);
    var end := EvenBoundary(|rows|, nsplits, split);
    match unitStart
    case None => end
    case Some(unit) => AlignBoundary(end, rows, unit)
  }

  lemma BoundaryInside(nrows: nat, nsplits: nat, split: nat)
    requires 0 < split < nsplits <= nrows
    ensures 0 < EvenBoundary(nrows, nsplits, split) < nrows
  {
    EvenBoundariesAscend(nrows, nsplits, split);
    EvenBoundariesAscend(nrows, nsplits, split + 1);
    MulMonotone(nrows, split + 1, nsplits);
    DivMonotone((split + 1) * nrows, nsplits * nrows, nsplits);
  }

  // It is one of the boundaries before number split.
  ghost predicate IsBoundary(end: nat, rows: seq<nat>, nsplits: nat, split: nat, unitStart: Option<RowUnitStart>)
  {
    exists s :: 0 < s < split && s < nsplits <= |rows| && end == Boundary(rows, nsplits, s, unitStart)
  }

  // The boundary ends a piece, unless it leaves none on one of its sides, or one before it was moved
  // beyond it.
  ghost predicate IsTaken(ends: seq<nat>, rows: seq<nat>, nsplits: nat, split: nat, unitStart: Option<RowUnitStart>)
    requires 0 < split < nsplits <= |rows|
  {
    var end := Boundary(rows, nsplits, split, unitStart);
    end in ends || end == 0 || end == |rows| || IsPassed(ends, end, rows, nsplits, split, unitStart)
  }

  ghost predicate IsPassed(ends: seq<nat>, end: nat, rows: seq<nat>, nsplits: nat, split: nat,
                           unitStart: Option<RowUnitStart>)
  {
    exists other :: other in ends && other > end && IsBoundary(other, rows, nsplits, split, unitStart)
  }

  ghost predicate AreTaken(ends: seq<nat>, rows: seq<nat>, nsplits: nat, n: nat, unitStart: Option<RowUnitStart>)
  {
    forall split :: 0 < split < n && split < nsplits <= |rows| ==> IsTaken(ends, rows, nsplits, split, unitStart)
  }

  // The boundaries taken of those before number split.
  ghost predicate AreBoundaries(ends: seq<nat>, rows: seq<nat>, nsplits: nat, split: nat,
                                unitStart: Option<RowUnitStart>)
    requires 0 < nsplits
  {
    && |ends| < split
    && Climbs(ends, |rows|)
    && (forall end :: end in ends ==> IsBoundary(end, rows, nsplits, split, unitStart))
    && AreTaken(ends, rows, nsplits, split, unitStart)
    && (unitStart.None? ==> |ends| == split - 1 && IsEven(ends, |rows|, nsplits))
  }

  ghost predicate Climbs(ends: seq<nat>, nrows: nat)
  {
    && (forall i, j :: 0 <= i < j < |ends| ==> ends[i] < ends[j])
    && forall i :: 0 <= i < |ends| ==> 0 < ends[i] < nrows
  }

  lemma ClimbsOn(ends: seq<nat>, nrows: nat, end: nat)
    requires Climbs(ends, nrows) && LastEnd(ends) < end < nrows
    ensures Climbs(ends + [end], nrows)
  {
    forall i | 0 <= i < |ends|
      ensures ends[i] < end
    {
      assert i < |ends| - 1 ==> ends[i] < ends[|ends| - 1];
    }
  }

  function LastEnd(ends: seq<nat>): nat
  {
    if ends == [] then 0 else ends[|ends| - 1]
  }

  // Without units every boundary is taken.
  lemma EvenBoundaryTaken(ends: seq<nat>, nrows: nat, nsplits: nat, split: nat)
    requires 0 < split < nsplits <= nrows && |ends| == split - 1 && IsEven(ends, nrows, nsplits)
    ensures LastEnd(ends) < EvenBoundary(nrows, nsplits, split) < nrows
    ensures IsEven(ends + [EvenBoundary(nrows, nsplits, split)], nrows, nsplits)
  {
    EvenBoundariesAscend(nrows, nsplits, split);
    BoundaryInside(nrows, nsplits, split);
  }

  // Boundaries before number split are before the next one, and what was taken of them still is.
  lemma StillTaken(ends: seq<nat>, longer: seq<nat>, rows: seq<nat>, nsplits: nat, split: nat,
                   unitStart: Option<RowUnitStart>)
    requires (forall end :: end in ends ==> end in longer) && AreTaken(ends, rows, nsplits, split, unitStart)
    requires split < nsplits <= |rows| && (split > 0 ==> IsTaken(longer, rows, nsplits, split, unitStart))
    ensures AreTaken(longer, rows, nsplits, split + 1, unitStart)
  {
    forall s | 0 < s < split
      ensures IsTaken(longer, rows, nsplits, s, unitStart)
    {
      assert IsTaken(ends, rows, nsplits, s, unitStart);
    }
  }

  lemma StillBoundary(end: nat, rows: seq<nat>, nsplits: nat, split: nat, unitStart: Option<RowUnitStart>)
    requires IsBoundary(end, rows, nsplits, split, unitStart)
    ensures IsBoundary(end, rows, nsplits, split + 1, unitStart)
  {
  }

  lemma BoundaryAppended(ends: seq<nat>, rows: seq<nat>, nsplits: nat, split: nat, unitStart: Option<RowUnitStart>,
                         end: nat)
    requires 0 < split < nsplits <= |rows| && AreBoundaries(ends, rows, nsplits, split, unitStart)
    requires end == Boundary(rows, nsplits, split, unitStart) && LastEnd(ends) < end < |rows|
    requires unitStart.None? ==> IsEven(ends + [end], |rows|, nsplits)
    ensures AreBoundaries(ends + [end], rows, nsplits, split + 1, unitStart)
  {
    ClimbsOn(ends, |rows|, end);
    StillTaken(ends, ends + [end], rows, nsplits, split, unitStart);
    forall e | e in ends + [end]
      ensures IsBoundary(e, rows, nsplits, split + 1, unitStart)
    {
      if e in ends {
        StillBoundary(e, rows, nsplits, split, unitStart);
      }
    }
  }

  // A boundary that is not beyond the last end was passed by that.
  lemma BoundaryPassed(ends: seq<nat>, rows: seq<nat>, nsplits: nat, split: nat, unitStart: Option<RowUnitStart>,
                       end: nat)
    requires 0 < split < nsplits <= |rows| && AreBoundaries(ends, rows, nsplits, split, unitStart)
    requires end == Boundary(rows, nsplits, split, unitStart) && !(LastEnd(ends) < end < |rows|)
    requires unitStart.Some?
    ensures AreBoundaries(ends, rows, nsplits, split + 1, unitStart)
  {
    if end < |rows| && ends != [] {
      assert IsBoundary(LastEnd(ends), rows, nsplits, split, unitStart);
    }
    assert IsTaken(ends, rows, nsplits, split, unitStart);
    StillTaken(ends, ends, rows, nsplits, split, unitStart);
    forall e | e in ends
      ensures IsBoundary(e, rows, nsplits, split + 1, unitStart)
    {
      StillBoundary(e, rows, nsplits, split, unitStart);
    }
  }

  lemma BoundaryTaken(ends: seq<nat>, rows: seq<nat>, nsplits: nat, split: nat, unitStart: Option<RowUnitStart>,
                      end: nat)
    requires 0 < split < nsplits <= |rows| && AreBoundaries(ends, rows, nsplits, split, unitStart)
    requires end == Boundary(rows, nsplits, split, unitStart)
    ensures LastEnd(ends) < end < |rows| ==> AreBoundaries(ends + [end], rows, nsplits, split + 1, unitStart)
    ensures !(LastEnd(ends) < end < |rows|) ==> AreBoundaries(ends, rows, nsplits, split + 1, unitStart)
  {
    if unitStart.None? {
      EvenBoundaryTaken(ends, |rows|, nsplits, split);
    }
    if LastEnd(ends) < end < |rows| {
      BoundaryAppended(ends, rows, nsplits, split, unitStart, end);
    } else {
      BoundaryPassed(ends, rows, nsplits, split, unitStart, end);
    }
  }

  lemma LastPieceEnds(ends: seq<nat>, rows: seq<nat>, nsplits: nat, unitStart: Option<RowUnitStart>)
    requires 0 < nsplits <= |rows| && AreBoundaries(ends, rows, nsplits, nsplits, unitStart)
    requires EvenBoundary(|rows|, nsplits, nsplits) == |rows|
    ensures ArePieceEnds(ends + [|rows|], rows, nsplits, unitStart)
  {
    var all := ends + [|rows|];
    forall split | 0 < split < nsplits
      ensures IsTaken(all, rows, nsplits, split, unitStart)
    {
      assert IsTaken(ends, rows, nsplits, split, unitStart);
    }
    forall k | 0 <= k < |all| - 1
      ensures IsBoundary(all[k], rows, nsplits, nsplits, unitStart)
    {
      assert all[k] == ends[k] && ends[k] in ends;
    }
  }

  // The ends of the pieces. A boundary not beyond the previous one adds no piece.
  method PieceEnds(rows: seq<nat>, nsplits: nat, unitStart: Option<RowUnitStart>) returns (ends: seq<nat>)
    requires 0 < nsplits <= |rows|
    ensures ArePieceEnds(ends, rows, nsplits, unitStart)
  {
    ends := [];
    for split := 1 to nsplits
      invariant AreBoundaries(ends, rows, nsplits, split, unitStart)
    {
      var end := Boundary(rows, nsplits, split, unitStart);
      BoundaryTaken(ends, rows, nsplits, split, unitStart, end);
      if end > LastEnd(ends) && end < |rows| {
        ends := ends + [end];
      }
    }
    EvenBoundariesAscend(|rows|, nsplits, nsplits);
    LastPieceEnds(ends, rows, nsplits, unitStart);
    ends := ends + [|rows|];
  }

  ghost predicate IsEven(ends: seq<nat>, nrows: nat, nsplits: nat)
    requires nsplits > 0
  {
    forall split: nat {:trigger EvenBoundary(nrows, nsplits, split)} :: 0 < split <= |ends| ==>
      ends[split - 1] == EvenBoundary(nrows, nsplits, split)
  }

  // ----- cutting the spans at the boundaries

  predicate IsRead(span: SpanPair)
  {
    span.disk != [] && span.disk[0] >= 0
  }

  ghost predicate RunsOnly(spans: SpanPairs)
  {
    forall s :: 0 <= s < |spans| ==> |spans[s].disk| == |spans[s].mem| && IsRun(spans[s].disk, true)
  }

  function AsRows(disk: seq<int>): (rows: seq<nat>)
    requires NoneNegative(disk)
    ensures |rows| == |disk| && forall k :: 0 <= k < |disk| ==> rows[k] == disk[k]
  {
    seq(|disk|, k requires 0 <= k < |disk| => disk[k])
  }

  // The rows read from disk, over the first s spans.
  function ReadRows(spans: SpanPairs, s: nat): seq<nat>
    requires s <= |spans| && RunsOnly(spans)
  {
    if s == 0 then []
    else ReadRows(spans, s - 1) + (if IsRead(spans[s - 1]) then AsRows(spans[s - 1].disk) else [])
  }

  lemma {:induction false} ReadRowsGrow(spans: SpanPairs, s: nat, t: nat)
    requires s <= t <= |spans| && RunsOnly(spans)
    ensures |ReadRows(spans, s)| <= |ReadRows(spans, t)|
  {
    if s < t {
      ReadRowsGrow(spans, s, t - 1);
    }
  }

  function Slice(span: SpanPair, lo: nat, hi: nat): SpanPair
    requires lo <= hi <= |span.disk| == |span.mem|
  {
    SpanPair(span.disk[lo..hi], span.mem[lo..hi])
  }

  // The piece of a position: the first, from k on, that ends after it.
  function PieceFrom(ends: seq<nat>, k: nat, position: nat): nat
    requires k <= |ends|
    decreases |ends| - k
  {
    if k < |ends| && ends[k] <= position then PieceFrom(ends, k + 1, position) else k
  }

  // How many of the rows left in a span belong to the current piece.
  function TakeRows(left: nat, end: nat, position: nat): nat
    requires position <= end
  {
    if left <= end - position then left else end - position
  }

  // A span, whose first row is at the given position among the rows read, cut at the ends.
  function CutSpan(span: SpanPair, position: nat, ends: seq<nat>): SpanPairs
    requires |span.disk| == |span.mem|
    decreases |span.disk|
  {
    var piece := PieceFrom(ends, 0, position);
    if span.disk == [] || piece >= |ends| || ends[piece] <= position then []
    else
      var n := TakeRows(|span.disk|, ends[piece], position);
      [Slice(span, 0, n)] + CutSpan(Slice(span, n, |span.disk|), position + n, ends)
  }

  // The spans from s on, cut at the ends. Holes are not cut.
  function CutSpans(spans: SpanPairs, s: nat, position: nat, ends: seq<nat>): SpanPairs
    requires s <= |spans| && forall i :: 0 <= i < |spans| ==> |spans[i].disk| == |spans[i].mem|
    decreases |spans| - s
  {
    if s == |spans| then []
    else if !IsRead(spans[s]) then [spans[s]] + CutSpans(spans, s + 1, position, ends)
    else CutSpan(spans[s], position, ends) + CutSpans(spans, s + 1, position + |spans[s].disk|, ends)
  }

  // k is the piece of the position.
  ghost predicate InPiece(ends: seq<nat>, k: nat, position: nat)
  {
    && k <= |ends|
    && (forall i :: 0 <= i < k ==> ends[i] <= position)
    && (k < |ends| ==> position < ends[k])
  }

  lemma {:induction false} PieceFromIsPiece(ends: seq<nat>, j: nat, k: nat, position: nat)
    requires j <= k && InPiece(ends, k, position)
    ensures PieceFrom(ends, j, position) == k
    decreases k - j
  {
    if j < k {
      PieceFromIsPiece(ends, j + 1, k, position);
    }
  }

  lemma NextPiece(ends: seq<nat>, nrows: nat, piece: nat, position: nat, left: nat)
    requires AreEnds(ends, nrows) && InPiece(ends, piece, position) && 0 < left && position + left <= nrows
    ensures piece < |ends| && position < ends[piece]
    ensures var n := TakeRows(left, ends[piece], position);
            0 < n <= left && InPiece(ends, if position + n == ends[piece] then piece + 1 else piece, position + n)
  {
    assert ends[|ends| - 1] == nrows > position;
  }

  // What is left of the span from start on completes the whole.
  ghost predicate LeavesOf(whole: SpanPairs, result: SpanPairs, span: SpanPair, start: nat, position: nat,
                           ends: seq<nat>)
    requires start <= |span.disk| == |span.mem|
  {
    whole == result + CutSpan(Slice(span, start, |span.disk|), position, ends)
  }

  lemma TakePiece(whole: SpanPairs, result: SpanPairs, span: SpanPair, start: nat, n: nat, position: nat,
                  ends: seq<nat>, piece: nat)
    requires start < |span.disk| == |span.mem| && InPiece(ends, piece, position) && piece < |ends|
    requires n == TakeRows(|span.disk| - start, ends[piece], position)
    requires LeavesOf(whole, result, span, start, position, ends)
    ensures LeavesOf(whole, result + [Slice(span, start, start + n)], span, start + n, position + n, ends)
  {
    PieceFromIsPiece(ends, 0, piece, position);
    CutSpanStep(result, span, start, n, position, ends, piece);
  }

  // The inner loop: appends the pieces of one span.
  method SplitSpan(before: SpanPairs, span: SpanPair, position0: nat, piece0: nat, ends: seq<nat>, ghost nrows: nat)
    returns (result: SpanPairs, position: nat, piece: nat)
    requires |span.disk| == |span.mem|
    requires AreEnds(ends, nrows) && InPiece(ends, piece0, position0) && position0 + |span.disk| <= nrows
    ensures result == before + CutSpan(span, position0, ends)
    ensures position == position0 + |span.disk| && InPiece(ends, piece, position)
  {
    result, position, piece := before, position0, piece0;
    var start := 0;
    ghost var whole := before + CutSpan(span, position0, ends);
    assert Slice(span, 0, |span.disk|) == span;
    while start < |span.disk|
      invariant CuttingSpan(whole, result, span, start, position0, position, ends, piece)
    {
      var n;
      n, piece := NextCut(whole, result, span, start, position0, position, ends, piece, nrows);
      result := result + [Slice(span, start, start + n)];
      start := start + n;
      position := position + n;
    }
    SpanIsCut(whole, result, span, position, ends);
  }

  lemma SpanIsCut(whole: SpanPairs, result: SpanPairs, span: SpanPair, position: nat, ends: seq<nat>)
    requires |span.disk| == |span.mem| && LeavesOf(whole, result, span, |span.disk|, position, ends)
    ensures result == whole
  {
  }

  // How many rows the next cut takes, and the piece after it.
  method NextCut(ghost whole: SpanPairs, ghost result: SpanPairs, span: SpanPair, start: nat, ghost position0: nat,
                 position: nat, ends: seq<nat>, piece: nat, ghost nrows: nat)
    returns (n: nat, next: nat)
    requires |span.disk| == |span.mem| && AreEnds(ends, nrows) && position0 + |span.disk| <= nrows
    requires CuttingSpan(whole, result, span, start, position0, position, ends, piece) && start < |span.disk|
    ensures 0 < n <= |span.disk| - start
    ensures CuttingSpan(whole, result + [Slice(span, start, start + n)], span, start + n, position0, position + n,
          ends, next)
  {
    PieceStep(whole, result, span, start, position0, position, ends, piece, nrows);
    n := TakeRows(|span.disk| - start, ends[piece], position);
    next := if position + n == ends[piece] then piece + 1 else piece;
  }

  // The state of the inner loop.
  ghost predicate CuttingSpan(whole: SpanPairs, result: SpanPairs, span: SpanPair, start: nat, position0: nat,
                              position: nat, ends: seq<nat>, piece: nat)
    requires |span.disk| == |span.mem|
  {
    && start <= |span.disk| && position == position0 + start
    && InPiece(ends, piece, position)
    && LeavesOf(whole, result, span, start, position, ends)
  }

  lemma PieceStep(whole: SpanPairs, result: SpanPairs, span: SpanPair, start: nat, position0: nat, position: nat,
                  ends: seq<nat>, piece: nat, nrows: nat)
    requires |span.disk| == |span.mem| && AreEnds(ends, nrows) && position0 + |span.disk| <= nrows
    requires CuttingSpan(whole, result, span, start, position0, position, ends, piece) && start < |span.disk|
    ensures piece < |ends| && position < ends[piece]
    ensures var n := TakeRows(|span.disk| - start, ends[piece], position);
            && 0 < n <= |span.disk| - start
            && CuttingSpan(whole, result + [Slice(span, start, start + n)], span, start + n, position0,
                           position + n, ends,
                           if position + n == ends[piece] then piece + 1 else piece)
  {
    NextPiece(ends, nrows, piece, position, |span.disk| - start);
    TakePiece(whole, result, span, start, TakeRows(|span.disk| - start, ends[piece], position), position, ends, piece);
  }

  lemma CutSpanUnfold(span: SpanPair, start: nat, n: nat, position: nat, ends: seq<nat>, piece: nat)
    requires start < |span.disk| == |span.mem| && piece == PieceFrom(ends, 0, position) < |ends|
    requires position < ends[piece] && n == TakeRows(|span.disk| - start, ends[piece], position)
    ensures CutSpan(Slice(span, start, |span.disk|), position, ends)
         == [Slice(span, start, start + n)] + CutSpan(Slice(span, start + n, |span.disk|), position + n, ends)
  {
    var rest := Slice(span, start, |span.disk|);
    assert Slice(rest, 0, n) == Slice(span, start, start + n);
    assert Slice(rest, n, |rest.disk|) == Slice(span, start + n, |span.disk|);
  }

  lemma CutSpanStep(result: SpanPairs, span: SpanPair, start: nat, n: nat, position: nat, ends: seq<nat>, piece: nat)
    requires start < |span.disk| == |span.mem| && piece == PieceFrom(ends, 0, position) < |ends|
    requires position < ends[piece] && n == TakeRows(|span.disk| - start, ends[piece], position)
    ensures result + CutSpan(Slice(span, start, |span.disk|), position, ends)
         == result + [Slice(span, start, start + n)]
            + CutSpan(Slice(span, start + n, |span.disk|), position + n, ends)
  {
    CutSpanUnfold(span, start, n, position, ends, piece);
  }

  lemma CutSpansHoles(result: SpanPairs, spans: SpanPairs, s: nat, position: nat, ends: seq<nat>)
    requires s < |spans| && !IsRead(spans[s]) && forall i :: 0 <= i < |spans| ==> |spans[i].disk| == |spans[i].mem|
    ensures result + CutSpans(spans, s, position, ends) == result + [spans[s]] + CutSpans(spans, s + 1, position, ends)
  {
    Regroup(result, [spans[s]], CutSpans(spans, s + 1, position, ends));
  }

  lemma CutSpansRead(result: SpanPairs, spans: SpanPairs, s: nat, position: nat, next: nat, ends: seq<nat>)
    requires s < |spans| && IsRead(spans[s]) && forall i :: 0 <= i < |spans| ==> |spans[i].disk| == |spans[i].mem|
    requires next == position + |spans[s].disk|
    ensures result + CutSpans(spans, s, position, ends)
         == result + CutSpan(spans[s], position, ends) + CutSpans(spans, s + 1, next, ends)
  {
    Regroup(result, CutSpan(spans[s], position, ends), CutSpans(spans, s + 1, next, ends));
  }

  lemma Regroup(a: SpanPairs, b: SpanPairs, c: SpanPairs)
    ensures a + (b + c) == a + b + c
  {
  }

  method CutNext(before: SpanPairs, spans: SpanPairs, s: nat, position0: nat, piece0: nat, ends: seq<nat>,
                 ghost nrows: nat)
    returns (result: SpanPairs, position: nat, piece: nat)
    requires RunsOnly(spans) && nrows == |ReadRows(spans, |spans|)| && AreEnds(ends, nrows) && s < |spans|
    requires CutSoFar(before, spans, s, position0, ends) && InPiece(ends, piece0, position0)
    ensures CutSoFar(result, spans, s + 1, position, ends) && InPiece(ends, piece, position)
  {
    var span := spans[s];
    if !IsRead(span) {
      CutHoles(before, spans, s, position0, ends);
      return before + [span], position0, piece0;
    }
    SpanFits(before, spans, s, position0, ends);
    result, position, piece := SplitSpan(before, span, position0, piece0, ends, nrows);
    CutRead(before, spans, s, position0, ends, result, position);
  }

  // The outer loop: cuts the spans at the ends of the pieces.
  method CutAtEnds(spans: SpanPairs, ends: seq<nat>) returns (result: SpanPairs)
    requires RunsOnly(spans) && AreEnds(ends, |ReadRows(spans, |spans|)|)
    ensures result == CutSpans(spans, 0, 0, ends)
  {
    result := [];
    var position: nat, piece: nat := 0, 0;
    CutNone(spans, ends);
    for s := 0 to |spans|
      invariant CutSoFar(result, spans, s, position, ends) && InPiece(ends, piece, position)
    {
      result, position, piece := CutNext(result, spans, s, position, piece, ends, |ReadRows(spans, |spans|)|);
    }
    CutAll(result, spans, position, ends);
  }

  lemma CutNone(spans: SpanPairs, ends: seq<nat>)
    requires RunsOnly(spans)
    ensures CutSoFar([], spans, 0, 0, ends)
  {
  }

  lemma CutAll(result: SpanPairs, spans: SpanPairs, position: nat, ends: seq<nat>)
    requires RunsOnly(spans) && CutSoFar(result, spans, |spans|, position, ends)
    ensures result == CutSpans(spans, 0, 0, ends)
  {
  }

  /**
   Cuts every span of read rows at the ends of the pieces, of which there are no more
   than nsplits; spans of holes stay whole.
   */
  method SplitRowSpans(spans: SpanPairs, nsplits: nat, unitStart: Option<RowUnitStart>)
    returns (result: SpanPairs)
    requires RunsOnly(spans) && 0 < nsplits <= |ReadRows(spans, |spans|)|
    ensures IsSplit(spans, result, nsplits, unitStart)
  {
    var ends := PieceEnds(ReadRows(spans, |spans|), nsplits, unitStart);
    result := CutAtEnds(spans, ends);
  }

  // The spans, cut at the ends of at most nsplits pieces.
  ghost predicate IsSplit(spans: SpanPairs, result: SpanPairs, nsplits: nat, unitStart: Option<RowUnitStart>)
    requires RunsOnly(spans) && 0 < nsplits
  {
    exists ends :: ArePieceEnds(ends, ReadRows(spans, |spans|), nsplits, unitStart)
          && result == CutSpans(spans, 0, 0, ends)
  }

  // The spans before s are cut, and the first row read after them is at the position.
  ghost predicate CutSoFar(result: SpanPairs, spans: SpanPairs, s: nat, position: nat, ends: seq<nat>)
    requires RunsOnly(spans) && s <= |spans|
  {
    && position == |ReadRows(spans, s)| <= |ReadRows(spans, |spans|)|
    && result + CutSpans(spans, s, position, ends) == CutSpans(spans, 0, 0, ends)
  }

  lemma CutHoles(before: SpanPairs, spans: SpanPairs, s: nat, position: nat, ends: seq<nat>)
    requires RunsOnly(spans) && s < |spans| && CutSoFar(before, spans, s, position, ends) && !IsRead(spans[s])
    ensures CutSoFar(before + [spans[s]], spans, s + 1, position, ends)
  {
    CutSpansHoles(before, spans, s, position, ends);
  }

  lemma SpanFits(before: SpanPairs, spans: SpanPairs, s: nat, position: nat, ends: seq<nat>)
    requires RunsOnly(spans) && s < |spans| && CutSoFar(before, spans, s, position, ends) && IsRead(spans[s])
    ensures |spans[s].disk| == |spans[s].mem| && position + |spans[s].disk| <= |ReadRows(spans, |spans|)|
  {
    ReadRowsGrow(spans, s + 1, |spans|);
  }

  lemma CutRead(before: SpanPairs, spans: SpanPairs, s: nat, position0: nat, ends: seq<nat>, result: SpanPairs,
                position: nat)
    requires RunsOnly(spans) && s < |spans| && CutSoFar(before, spans, s, position0, ends) && IsRead(spans[s])
    requires result == before + CutSpan(spans[s], position0, ends) && position == position0 + |spans[s].disk|
    ensures CutSoFar(result, spans, s + 1, position, ends)
  {
    ReadRowsNext(spans, s);
    ReadRowsGrow(spans, s + 1, |spans|);
    CutSpansRead(before, spans, s, position0, position, ends);
  }

  lemma ReadRowsNext(spans: SpanPairs, s: nat)
    requires RunsOnly(spans) && s < |spans| && IsRead(spans[s])
    ensures |ReadRows(spans, s + 1)| == |ReadRows(spans, s)| + |spans[s].disk|
  {
  }

  ghost predicate ArePieceEnds(ends: seq<nat>, rows: seq<nat>, nsplits: nat, unitStart: Option<RowUnitStart>)
  {
    && AreEnds(ends, |rows|) && 0 < |ends| <= nsplits
    && (forall k :: 0 <= k < |ends| - 1 ==> IsBoundary(ends[k], rows, nsplits, nsplits, unitStart))
    && AreTaken(ends, rows, nsplits, nsplits, unitStart)
    && (unitStart.None? ==> |ends| == nsplits && IsEven(ends, |rows|, nsplits))
  }
}
