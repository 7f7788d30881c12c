/**
 Per-dimension index spans: argsorting a selection and cutting it into runs
 (MakeSortedIndices and MakeSubSpans of data_partition.cc).
 */
module Spans {
  import opened Wrappers

  // Disk indices and the memory positions they belong to.
  datatype SpanPair = SpanPair(disk: seq<int>, mem: seq<nat>)

  type SpanPairs = seq<SpanPair>

  ghost predicate Injective<T>(s: seq<T>)
  {
    forall i, j :: 0 <= i < j < |s| ==> s[i] != s[j]
  }

  ghost predicate IsPermutation(mem: seq<nat>, n: nat)
  {
    |mem| == n && (forall i :: 0 <= i < n ==> mem[i] < n) && Injective(mem)
  }

  ghost predicate Ascending(s: seq<int>)
  {
    forall i, j :: 0 <= i < j < |s| ==> s[i] <= s[j]
  }

  // disk is ids in ascending order, and mem where each came from.
  ghost predicate SortedIndices(ids: seq<int>, disk: seq<int>, mem: seq<nat>)
  {
    && IsPermutation(mem, |ids|)
    && |disk| == |ids|
    && Ascending(disk)
    && forall i :: 0 <= i < |ids| ==> disk[i] == ids[mem[i]]
  }

  ghost function Numbers(n: nat): (r: set<nat>)
    ensures forall i: nat :: i in r <==> i < n
  {
    if n == 0 then {} else Numbers(n - 1) + {n - 1}
  }

  lemma {:induction false} NumbersCount(n: nat)
    ensures |Numbers(n)| == n
  {
    if n > 0 {
      NumbersCount(n - 1);
    }
  }

  ghost function Elements(s: seq<nat>): set<nat>
  {
    set x | x in s
  }

  lemma {:induction false} InjectiveCount(s: seq<nat>)
    requires Injective(s)
    ensures |Elements(s)| == |s|
  {
    if s == [] {
      assert Elements(s) == {};
    } else {
      var last := s[|s| - 1];
      InjectiveCount(s[..|s| - 1]);
      assert Elements(s) == Elements(s[..|s| - 1]) + {last};
      assert last !in s[..|s| - 1];
    }
  }

  /** Pigeonhole: a permutation reaches every position. */
  lemma PermutationReaches(mem: seq<nat>, n: nat, p: nat)
    requires IsPermutation(mem, n) && p < n
    ensures p in mem
  {
    InjectiveCount(mem);
    NumbersCount(n);
    assert Elements(mem) <= Numbers(n);
    if Elements(mem) != Numbers(n) {
      ProperSubsetIsSmaller(Elements(mem), Numbers(n));
    }
    assert p in Numbers(n);
  }

  lemma ProperSubsetIsSmaller(a: set<nat>, b: set<nat>)
    requires a < b
    ensures |a| < |b|
  {
    assert |b - a| > 0;
    assert b == a + (b - a);
  }

  // Stands in for std::sort: any ascending argsort, in an order of ties we do not rely on.
  method ArgSort(ids: seq<int>, mem: array<nat>)
    requires IsPermutation(mem[..], |ids|)
    modifies mem
    ensures IsPermutation(mem[..], |ids|)
    ensures forall i, j :: 0 <= i < j < mem.Length ==> ids[mem[i]] <= ids[mem[j]]
  {
    var n := mem.Length;
    for i := 0 to n
      invariant IsPermutation(mem[..], |ids|)
      invariant forall a, b :: 0 <= a < i && a < b < n ==> ids[mem[a]] <= ids[mem[b]]
    {
      var least := i;
      for j := i + 1 to n
        invariant i <= least < n
        invariant forall b :: i <= b < j ==> ids[mem[least]] <= ids[mem[b]]
      {
        if ids[mem[j]] < ids[mem[least]] {
          least := j;
        }
      }
      ghost var was := mem[..];
      mem[i], mem[least] := mem[least], mem[i];
      SwapKeepsPermutation(was, mem[..], i, least);
    }
  }

  lemma SwapKeepsPermutation(a: seq<nat>, b: seq<nat>, i: nat, j: nat)
    requires IsPermutation(a, |a|) && |b| == |a| && i < |a| && j < |a|
    requires b[i] == a[j] && b[j] == a[i]
    requires forall k :: 0 <= k < |a| && k != i && k != j ==> b[k] == a[k]
    ensures IsPermutation(b, |b|)
  {
  }

  function Iota(n: nat): (s: seq<nat>)
    ensures |s| == n && forall i :: 0 <= i < n ==> s[i] == i
  {
    seq(n, i => i)
  }

  method IsSorted(ids: seq<int>) returns (sorted: bool)
    ensures sorted == Ascending(ids)
  {
    var i := 1;
    while i < |ids|
      invariant ids == [] || 1 <= i <= |ids|
      invariant ids != [] ==> Ascending(ids[..i])
    {
      if ids[i] < ids[i - 1] {
        return false;
      }
      i := i + 1;
    }
    assert ids[..|ids|] == ids;
    return true;
  }

  /** Sorts the selected ids, keeping where each came from. Sorted input is only copied. */
  method MakeSortedIndices(ids: seq<int>) returns (disk: seq<int>, mem: seq<nat>)
    ensures SortedIndices(ids, disk, mem)
    ensures Ascending(ids) ==> disk == ids && mem == Iota(|ids|)
  {
    var sorted := IsSorted(ids);
    if sorted {
      return ids, Iota(|ids|);
    }
    var order := new nat[|ids|](i => i);
    ArgSort(ids, order);
    mem := order[..];
    disk := seq(|ids|, i requires 0 <= i < |ids| => ids[mem[i]]);
  }

  // ----- cutting into runs

  // The position of the first element of span s.
  function Start(spans: SpanPairs, s: nat): nat
    requires s <= |spans|
  {
    if s == 0 then 0 else Start(spans, s - 1) + |spans[s - 1].mem|
  }

  // Span s holds the stretch of disk and mem that starts at Start(spans, s).
  ghost predicate HoldsStretch(span: SpanPair, start: nat, disk: seq<int>, mem: seq<nat>)
  {
    && |span.disk| == |span.mem|
    && start + |span.mem| <= |disk| == |mem|
    && (forall k :: 0 <= k < |span.disk| ==> span.disk[k] == disk[start + k])
    && (forall k :: 0 <= k < |span.mem| ==> span.mem[k] == mem[start + k])
  }

  ghost predicate AllNegative(disk: seq<int>)
  {
    forall k :: 0 <= k < |disk| ==> disk[k] < 0
  }

  predicate NoneNegative(disk: seq<int>)
  {
    forall k :: 0 <= k < |disk| ==> disk[k] >= 0
  }

  ghost predicate Consecutive(disk: seq<int>)
  {
    forall k :: 0 <= k < |disk| ==> disk[k] == disk[0] + k
  }

  ghost predicate StrictlyAscending(disk: seq<int>)
  {
    forall i, j :: 0 <= i < j < |disk| ==> disk[i] < disk[j]
  }

  // Holes, or ids to read: distinct, and consecutive unless an entire range is asked for.
  ghost predicate IsRun(disk: seq<int>, entireRange: bool)
  {
    || AllNegative(disk)
    || (NoneNegative(disk) && StrictlyAscending(disk) && (!entireRange ==> Consecutive(disk)))
  }

  // The ids cannot be read in one run across the cut before position i.
  predicate MustCut(disk: seq<int>, i: nat, entireRange: bool)
    requires 0 < i < |disk|
  {
    disk[i] >= 0 && (disk[i - 1] < 0 || (!entireRange && disk[i] != disk[i - 1] + 1))
  }

  ghost predicate HasRepeat(ids: seq<int>)
  {
    exists i, j :: 0 <= i < j < |ids| && ids[i] == ids[j] && ids[i] >= 0
  }

  lemma {:induction false} StartPrefix(a: SpanPairs, b: SpanPairs, s: nat)
    requires s <= |a| && s <= |b| && forall i :: 0 <= i < s ==> a[i] == b[i]
    ensures Start(a, s) == Start(b, s)
  {
    if s > 0 {
      StartPrefix(a, b, s - 1);
    }
  }

  // The spans, one after the other, are the first end elements of disk and mem.
  ghost predicate TilesPrefix(spans: SpanPairs, disk: seq<int>, mem: seq<nat>, end: nat)
  {
    && |disk| == |mem|
    && Start(spans, |spans|) == end <= |disk|
    && forall s :: 0 <= s < |spans| ==> HoldsStretch(spans[s], Start(spans, s), disk, mem)
  }

  lemma SliceHoldsStretch(disk: seq<int>, mem: seq<nat>, start: nat, end: nat)
    requires start <= end <= |disk| == |mem|
    ensures HoldsStretch(SpanPair(disk[start..end], mem[start..end]), start, disk, mem)
  {
  }

  lemma TilesAppend(spans: SpanPairs, span: SpanPair, disk: seq<int>, mem: seq<nat>, start: nat)
    requires TilesPrefix(spans, disk, mem, start) && HoldsStretch(span, start, disk, mem)
    ensures TilesPrefix(spans + [span], disk, mem, start + |span.mem|)
  {
    var longer := spans + [span];
    assert longer[|spans|] == span;
    StartPrefix(spans, longer, |spans|);
    forall s | 0 <= s < |longer|
      ensures HoldsStretch(longer[s], Start(longer, s), disk, mem)
    {
      StartPrefix(spans, longer, s);
      assert s < |spans| ==> longer[s] == spans[s];
    }
  }

  // The runs collected from the first end elements: each a run, each cut needed.
  ghost predicate Collected(spans: SpanPairs, disk: seq<int>, mem: seq<nat>, end: nat, entireRange: bool)
  {
    && TilesPrefix(spans, disk, mem, end)
    && (forall s :: 0 <= s < |spans| ==> IsRun(spans[s].disk, entireRange))
    && (forall s :: 0 < s < |spans| ==> CutAt(disk, Start(spans, s), entireRange))
    && (disk != [] ==> forall s :: 0 <= s < |spans| ==> spans[s].mem != [])
  }

  ghost predicate CutAt(disk: seq<int>, i: nat, entireRange: bool)
  {
    0 < i < |disk| && MustCut(disk, i, entireRange)
  }

  /**
   Cuts sorted ids into runs of ids that can be read together. It fails exactly when an
   id to read repeats; otherwise the runs tile the ids, and no cut is superfluous.
   */
  method MakeSubSpans(disk: seq<int>, mem: seq<nat>, entireRange: bool) returns (r: Result<SpanPairs>)
    requires |disk| == |mem| && Ascending(disk)
    ensures r.Failure? <==> HasRepeat(disk)
    ensures r.Failure? ==> r.error == IndexError
    ensures r.Success? ==> r.value != [] && Collected(r.value, disk, mem, |disk|, entireRange)
    ensures r.Success? ==> NoneJoin(r.value, entireRange) && NoneEmpty(r.value)
  {
    r := CutIntoRuns(disk, mem, entireRange);
    if r.Success? {
      CutsAreNeeded(r.value, disk, mem, entireRange);
    }
  }

  // No span is empty beside others.
  ghost predicate NoneEmpty(spans: SpanPairs)
  {
    forall s :: 0 <= s < |spans| ==> |spans| == 1 || spans[s].mem != []
  }

  // No span and the next could be read together.
  ghost predicate NoneJoin(spans: SpanPairs, entireRange: bool)
  {
    forall s :: 0 < s < |spans| ==> !IsRun(spans[s - 1].disk + spans[s].disk, entireRange)
  }

  lemma CutsAreNeeded(spans: SpanPairs, disk: seq<int>, mem: seq<nat>, entireRange: bool)
    requires Collected(spans, disk, mem, |disk|, entireRange)
    ensures NoneJoin(spans, entireRange)
  {
    forall s | 0 < s < |spans|
      ensures !IsRun(spans[s - 1].disk + spans[s].disk, entireRange)
    {
      assert CutAt(disk, Start(spans, s), entireRange);
      NeighboursDiffer(spans, disk, mem, s, entireRange);
    }
  }

  lemma NeighboursDiffer(spans: SpanPairs, disk: seq<int>, mem: seq<nat>, s: nat, entireRange: bool)
    requires 0 < s < |spans| && Collected(spans, disk, mem, |disk|, entireRange)
    requires CutAt(disk, Start(spans, s), entireRange)
    ensures !IsRun(spans[s - 1].disk + spans[s].disk, entireRange)
  {
    var i, a, b := Start(spans, s), spans[s - 1].disk, spans[s].disk;
    assert HoldsStretch(spans[s - 1], Start(spans, s - 1), disk, mem) && HoldsStretch(spans[s], i, disk, mem);
    assert a != [] && b != [];
    assert a[|a| - 1] == disk[i - 1] && b[0] == disk[i];
    JoinIsNoRun(a, b, entireRange);
  }

  lemma JoinIsNoRun(a: seq<int>, b: seq<int>, entireRange: bool)
    requires a != [] && b != [] && b[0] >= 0
    requires a[|a| - 1] < 0 || (!entireRange && b[0] != a[|a| - 1] + 1)
    ensures !IsRun(a + b, entireRange)
  {
    var joined, n := a + b, |a|;
    assert joined[n - 1] == a[n - 1] && joined[n] == b[0];
    if Consecutive(joined) {
      assert joined[n] == joined[0] + n && joined[n - 1] == joined[0] + n - 1;
    }
  }

  method CutIntoRuns(disk: seq<int>, mem: seq<nat>, entireRange: bool) returns (r: Result<SpanPairs>)
    requires |disk| == |mem| && Ascending(disk)
    ensures r.Failure? <==> HasRepeat(disk)
    ensures r.Failure? ==> r.error == IndexError
    ensures r.Success? ==> r.value != [] && Collected(r.value, disk, mem, |disk|, entireRange)
  {
    var result: SpanPairs := [];
    var start := 0;
    var i := 1;
    while i < |disk|
      invariant disk == [] || start < i <= |disk|
      invariant Collected(result, disk, mem, start, entireRange)
      invariant disk != [] ==> OpenRun(disk, start, i, entireRange) && NoRepeatBefore(disk, i)
      invariant if result == [] then start == 0 else CutAt(disk, start, entireRange)
    {
      StepIsSound(disk, start, i, entireRange);
      match NextStep(disk, start, i, entireRange) {
        case KeepGoing =>
        case Duplicate =>
          return Failure(IndexError);
        case CutHere =>
          CollectRun(result, disk, mem, start, i, entireRange);
          result := result + [SpanPair(disk[start..i], mem[start..i])];
          start := i;
      }
      i := i + 1;
    }
    CollectRun(result, disk, mem, start, |disk|, entireRange);
    NoRepeatAtAll(disk);
    return Success(result + [SpanPair(disk[start..|disk|], mem[start..|disk|])]);
  }

  datatype Step = KeepGoing | CutHere | Duplicate

  // What to do with the id at i, given the run that began at start.
  function NextStep(disk: seq<int>, start: nat, i: nat, entireRange: bool): Step
    requires start < i < |disk|
  {
    if disk[i] < 0 then KeepGoing
    else if disk[start] < 0 then CutHere
    else if disk[i] == disk[i - 1] then Duplicate
    else if disk[i] - disk[i - 1] == 1 then KeepGoing
    else if !entireRange then CutHere
    else KeepGoing
  }

  lemma StepIsSound(disk: seq<int>, start: nat, i: nat, entireRange: bool)
    requires start < i < |disk| && Ascending(disk)
    requires OpenRun(disk, start, i, entireRange) && NoRepeatBefore(disk, i)
    ensures match NextStep(disk, start, i, entireRange)
            case KeepGoing => OpenRun(disk, start, i + 1, entireRange) && NoRepeatBefore(disk, i + 1)
            case CutHere => CutAt(disk, i, entireRange) && OpenRun(disk, i, i + 1, entireRange)
                            && NoRepeatBefore(disk, i + 1)
            case Duplicate => HasRepeat(disk)
  {
    assert disk[i - 1] <= disk[i];
  }

  // The run being collected: holes, or ids to read.
  ghost predicate OpenRun(disk: seq<int>, start: nat, i: nat, entireRange: bool)
    requires start < i <= |disk|
  {
    if disk[start] < 0 then disk[i - 1] < 0
    else forall k :: start < k < i ==>
      disk[k - 1] < disk[k] && (!entireRange ==> disk[k] == disk[start] + (k - start))
  }

  ghost predicate NoRepeatBefore(disk: seq<int>, i: nat)
    requires i <= |disk|
  {
    forall k :: 0 < k < i && disk[k] >= 0 ==> disk[k - 1] < disk[k]
  }

  lemma NoRepeatAtAll(disk: seq<int>)
    requires Ascending(disk) && (disk != [] ==> NoRepeatBefore(disk, |disk|))
    ensures !HasRepeat(disk)
  {
    forall i, j | 0 <= i < j < |disk| && disk[j] >= 0
      ensures disk[i] < disk[j]
    {
      assert disk[i] <= disk[j - 1] < disk[j];
    }
  }

  lemma OpenRunIsRun(disk: seq<int>, start: nat, i: nat, entireRange: bool)
    requires start < i <= |disk| && Ascending(disk) && OpenRun(disk, start, i, entireRange)
    ensures IsRun(disk[start..i], entireRange)
  {
    var run := disk[start..i];
    if disk[start] < 0 {
      assert AllNegative(run);
    } else {
      forall a, b | 0 <= a < b < |run|
        ensures run[a] < run[b]
      {
        assert disk[start + b - 1] < disk[start + b];
        assert disk[start + a] <= disk[start + b - 1];
      }
      assert !entireRange ==> forall k :: 0 < k < |run| ==> run[k] == disk[start + k] == run[0] + k;
    }
  }

  lemma CollectRun(result: SpanPairs, disk: seq<int>, mem: seq<nat>, start: nat, end: nat, entireRange: bool)
    requires |disk| == |mem| && Ascending(disk) && Collected(result, disk, mem, start, entireRange)
    requires if disk == [] then start == end == 0
             else start < end <= |disk| && OpenRun(disk, start, end, entireRange)
    requires result == [] || CutAt(disk, start, entireRange)
    ensures Collected(result + [SpanPair(disk[start..end], mem[start..end])], disk, mem, end, entireRange)
  {
    var span := SpanPair(disk[start..end], mem[start..end]);
    SliceHoldsStretch(disk, mem, start, end);
    TilesAppend(result, span, disk, mem, start);
    if disk != [] {
      OpenRunIsRun(disk, start, end, entireRange);
    }
    CutsKept(result, span, disk, start, entireRange);
  }

  lemma CutsKept(result: SpanPairs, span: SpanPair, disk: seq<int>, start: nat, entireRange: bool)
    requires forall s :: 0 < s < |result| ==> CutAt(disk, Start(result, s), entireRange)
    requires Start(result, |result|) == start && (result == [] || CutAt(disk, start, entireRange))
    ensures forall s :: 0 < s < |result + [span]| ==> CutAt(disk, Start(result + [span], s), entireRange)
  {
    forall s | 0 < s < |result + [span]|
      ensures CutAt(disk, Start(result + [span], s), entireRange)
    {
      StartPrefix(result, result + [span], s);
    }
  }

  // ----- concatenations of spans

  function DiskUpTo(spans: SpanPairs, s: nat): seq<int>
    requires s <= |spans|
  {
    if s == 0 then [] else DiskUpTo(spans, s - 1) + spans[s - 1].disk
  }

  function MemUpTo(spans: SpanPairs, s: nat): seq<nat>
    requires s <= |spans|
  {
    if s == 0 then [] else MemUpTo(spans, s - 1) + spans[s - 1].mem
  }

  // The spans, one after the other.
  function Joined(spans: SpanPairs): SpanPair
  {
    SpanPair(DiskUpTo(spans, |spans|), MemUpTo(spans, |spans|))
  }

  ghost predicate Paired(spans: SpanPairs)
  {
    forall s :: 0 <= s < |spans| ==> |spans[s].disk| == |spans[s].mem|
  }

  function Concat(a: SpanPair, b: SpanPair): SpanPair
  {
    SpanPair(a.disk + b.disk, a.mem + b.mem)
  }

  lemma {:induction false} UpToPrefix(a: SpanPairs, b: SpanPairs, s: nat)
    requires s <= |a| && s <= |b| && forall i :: 0 <= i < s ==> a[i] == b[i]
    ensures DiskUpTo(a, s) == DiskUpTo(b, s) && MemUpTo(a, s) == MemUpTo(b, s)
  {
    if s > 0 {
      UpToPrefix(a, b, s - 1);
    }
  }

  lemma {:induction false} JoinedConcat(a: SpanPairs, b: SpanPairs)
    ensures Joined(a + b) == Concat(Joined(a), Joined(b))
  {
    if b == [] {
      assert a + b == a;
    } else {
      var front, last := b[..|b| - 1], b[|b| - 1];
      JoinedConcat(a, front);
      UpToPrefix(a + b, a + front, |a + front|);
      UpToPrefix(b, front, |front|);
    }
  }

  lemma JoinedOne(span: SpanPair)
    ensures Joined([span]) == span
  {
    assert DiskUpTo([span], 0) == [] && MemUpTo([span], 0) == [];
    assert [] + span.disk == span.disk && [] + span.mem == span.mem;
  }

  lemma JoinedHead(spans: SpanPairs, s: nat)
    requires s < |spans|
    ensures Joined(spans[s..]) == Concat(spans[s], Joined(spans[s + 1..]))
  {
    JoinedOne(spans[s]);
    JoinedConcat([spans[s]], spans[s + 1..]);
    assert spans[s..] == [spans[s]] + spans[s + 1..];
  }

  lemma {:induction false} UpToLength(spans: SpanPairs, s: nat)
    requires s <= |spans| && Paired(spans)
    ensures |DiskUpTo(spans, s)| == |MemUpTo(spans, s)| == Start(spans, s)
  {
    if s > 0 {
      UpToLength(spans, s - 1);
    }
  }

  lemma {:induction false} UpToGrows(spans: SpanPairs, s: nat, t: nat)
    requires s <= t <= |spans|
    ensures DiskUpTo(spans, s) <= DiskUpTo(spans, t) && MemUpTo(spans, s) <= MemUpTo(spans, t)
  {
    if s < t {
      UpToGrows(spans, s, t - 1);
    }
  }

  /** Spans tile what they join to. */
  lemma JoinedTiles(spans: SpanPairs)
    requires Paired(spans)
    ensures TilesPrefix(spans, Joined(spans).disk, Joined(spans).mem, |Joined(spans).disk|)
  {
    UpToLength(spans, |spans|);
    forall s | 0 <= s < |spans|
      ensures HoldsStretch(spans[s], Start(spans, s), Joined(spans).disk, Joined(spans).mem)
    {
      UpToLength(spans, s);
      UpToGrows(spans, s + 1, |spans|);
    }
  }

  lemma StretchExtends(upTo: SpanPair, span: SpanPair, start: nat, disk: seq<int>, mem: seq<nat>)
    requires HoldsStretch(span, start, disk, mem)
    requires upTo.disk == disk[..start] && upTo.mem == mem[..start]
    ensures upTo.disk + span.disk == disk[..start + |span.mem|]
    ensures upTo.mem + span.mem == mem[..start + |span.mem|]
  {
  }

  lemma {:induction false} TilesJoinUpTo(spans: SpanPairs, disk: seq<int>, mem: seq<nat>, s: nat)
    requires s <= |spans| && TilesPrefix(spans, disk, mem, |disk|)
    ensures Start(spans, s) <= |disk|
    ensures DiskUpTo(spans, s) == disk[..Start(spans, s)] && MemUpTo(spans, s) == mem[..Start(spans, s)]
  {
    if s > 0 {
      TilesJoinUpTo(spans, disk, mem, s - 1);
      StretchExtends(SpanPair(DiskUpTo(spans, s - 1), MemUpTo(spans, s - 1)), spans[s - 1], Start(spans, s - 1), disk,
          mem);
    }
  }

  /** What spans tile is what they join to. */
  lemma TilesJoin(spans: SpanPairs, disk: seq<int>, mem: seq<nat>)
    requires TilesPrefix(spans, disk, mem, |disk|)
    ensures Joined(spans) == SpanPair(disk, mem) && Paired(spans)
  {
    TilesJoinUpTo(spans, disk, mem, |spans|);
  }

  // ----- what the spans of a dimension must provide

  // The disk index wanted at each memory position of a dimension; negative for a hole.
  type Wanted = map<nat, int>

  function WantedIds(ids: seq<int>): Wanted
  {
    map j: nat | j < |ids| :: ids[j]
  }

  ghost predicate Fits(span: SpanPair, want: Wanted)
  {
    && |span.disk| == |span.mem|
    && Injective(span.mem)
    && forall k :: 0 <= k < |span.mem| ==> span.mem[k] in want && span.disk[k] == want[span.mem[k]]
  }

  ghost predicate Apart(a: SpanPair, b: SpanPair)
  {
    forall x :: x in a.mem ==> x !in b.mem
  }

  ghost predicate Reaches(spans: SpanPairs, j: nat)
  {
    exists s :: 0 <= s < |spans| && j in spans[s].mem
  }

  // Every memory position of the dimension is in exactly one span, with the index it wants.
  ghost predicate CoversDim(spans: SpanPairs, want: Wanted)
  {
    && (forall s :: 0 <= s < |spans| ==> Fits(spans[s], want))
    && (forall s, t :: 0 <= s < t < |spans| ==> Apart(spans[s], spans[t]))
    && (forall j :: j in want ==> Reaches(spans, j))
  }

  lemma {:induction false} StartMonotone(spans: SpanPairs, s: nat, t: nat)
    requires s <= t <= |spans|
    ensures Start(spans, s) <= Start(spans, t)
    ensures s < t ==> Start(spans, s) + |spans[s].mem| <= Start(spans, t)
  {
    if s < t {
      StartMonotone(spans, s, t - 1);
    }
  }

  lemma {:induction false} Locate(spans: SpanPairs, t: nat, x: nat) returns (s: nat)
    requires t <= |spans| && x < Start(spans, t)
    ensures s < t && Start(spans, s) <= x < Start(spans, s) + |spans[s].mem|
  {
    if Start(spans, t - 1) <= x {
      s := t - 1;
    } else {
      s := Locate(spans, t - 1, x);
    }
  }

  /** Spans that tile sorted indices cover the dimension they were sorted from. */
  lemma TilesCover(spans: SpanPairs, ids: seq<int>, disk: seq<int>, mem: seq<nat>)
    requires SortedIndices(ids, disk, mem) && TilesPrefix(spans, disk, mem, |disk|)
    ensures CoversDim(spans, WantedIds(ids))
  {
    forall s | 0 <= s < |spans|
      ensures Fits(spans[s], WantedIds(ids))
    {
      StretchFits(spans[s], Start(spans, s), ids, disk, mem);
    }
    forall s, t | 0 <= s < t < |spans|
      ensures Apart(spans[s], spans[t])
    {
      StartMonotone(spans, s, t);
      StretchesApart(spans[s], Start(spans, s), spans[t], Start(spans, t), disk, mem);
    }
    forall j | j in WantedIds(ids)
      ensures Reaches(spans, j)
    {
      PermutationReaches(mem, |ids|, j);
      var x :| 0 <= x < |mem| && mem[x] == j;
      var s := Locate(spans, |spans|, x);
      assert spans[s].mem[x - Start(spans, s)] == mem[Start(spans, s) + (x - Start(spans, s))];
    }
  }

  lemma StretchFits(span: SpanPair, start: nat, ids: seq<int>, disk: seq<int>, mem: seq<nat>)
    requires SortedIndices(ids, disk, mem) && HoldsStretch(span, start, disk, mem)
    ensures Fits(span, WantedIds(ids))
  {
  }

  lemma StretchesApart(a: SpanPair, start: nat, b: SpanPair, next: nat, disk: seq<int>, mem: seq<nat>)
    requires Injective(mem) && HoldsStretch(a, start, disk, mem) && HoldsStretch(b, next, disk, mem)
    requires start + |a.mem| <= next
    ensures Apart(a, b)
  {
    forall x | x in a.mem
      ensures x !in b.mem
    {
      var i :| 0 <= i < |a.mem| && a.mem[i] == x;
      forall k | 0 <= k < |b.mem|
        ensures b.mem[k] != x
      {
        assert mem[start + i] != mem[next + k];
      }
    }
  }
}
