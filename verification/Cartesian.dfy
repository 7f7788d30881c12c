/**
 Crossing the spans of every dimension into chunks, and the flags of the chunks that are
 contiguous in memory (CartesianProduct of data_partition.cc).
 */
module Cartesian {
  import opened Spans
  import opened MixedRadix

  type Cell = seq<SpanPair>

  function LastDim<T>(dims: seq<T>): T
    requires dims != []
  {
    dims[|dims| - 1]
  }

  // One partial product, extended by each of the first k spans.
  function ExtendOne(cell: Cell, spans: SpanPairs, k: nat): (r: seq<Cell>)
    requires k <= |spans|
    ensures |r| == k && forall i :: 0 <= i < k ==> r[i] == cell + [spans[i]]
  {
    if k == 0 then [] else ExtendOne(cell, spans, k - 1) + [cell + [spans[k - 1]]]
  }

  // The first k partial products, each extended by every span; the spans vary fastest.
  function Extend(cells: seq<Cell>, spans: SpanPairs, k: nat): seq<Cell>
    requires k <= |cells|
  {
    if k == 0 then [] else Extend(cells, spans, k - 1) + ExtendOne(cells[k - 1], spans, |spans|)
  }

  // All choices of one span per dimension, for the first d dimensions.
  function Cross(dims: seq<SpanPairs>, d: nat): seq<Cell>
    requires d <= |dims|
  {
    if d == 0 then [[]] else Extend(Cross(dims, d - 1), dims[d - 1], |Cross(dims, d - 1)|)
  }

  // ----- what the product contains

  ghost predicate Picks(cell: Cell, dims: seq<SpanPairs>, d: nat)
    requires d <= |dims|
  {
    |cell| == d && forall i :: 0 <= i < d ==> cell[i] in dims[i]
  }

  lemma {:induction false} ExtendMember(cells: seq<Cell>, spans: SpanPairs, k: nat, x: nat)
    returns (c: nat, s: nat)
    requires k <= |cells| && x < |Extend(cells, spans, k)|
    ensures c < k && s < |spans| && Extend(cells, spans, k)[x] == cells[c] + [spans[s]]
  {
    var before := |Extend(cells, spans, k - 1)|;
    if x < before {
      c, s := ExtendMember(cells, spans, k - 1, x);
    } else {
      c, s := k - 1, x - before;
    }
  }

  lemma {:induction false} ExtendContains(cells: seq<Cell>, spans: SpanPairs, k: nat, c: nat, s: nat)
    requires c < k <= |cells| && s < |spans|
    ensures cells[c] + [spans[s]] in Extend(cells, spans, k)
  {
    if c == k - 1 {
      assert ExtendOne(cells[c], spans, |spans|)[s] in ExtendOne(cells[c], spans, |spans|);
    } else {
      ExtendContains(cells, spans, k - 1, c, s);
    }
  }

  lemma PicksOneMore(front: Cell, dims: seq<SpanPairs>, d: nat, last: SpanPair)
    requires 0 < d <= |dims| && Picks(front, dims, d - 1) && last in dims[d - 1]
    ensures Picks(front + [last], dims, d)
  {
  }

  lemma {:induction false} CrossMembersPick(dims: seq<SpanPairs>, d: nat, x: nat)
    requires d <= |dims| && x < |Cross(dims, d)|
    ensures Picks(Cross(dims, d)[x], dims, d)
  {
    if d > 0 {
      var cells := Cross(dims, d - 1);
      var c, s := ExtendMember(cells, dims[d - 1], |cells|, x);
      CrossMembersPick(dims, d - 1, c);
      PicksOneMore(cells[c], dims, d, dims[d - 1][s]);
    }
  }

  lemma {:induction false} PicksAreInCross(dims: seq<SpanPairs>, d: nat, cell: Cell)
    requires d <= |dims| && Picks(cell, dims, d)
    ensures cell in Cross(dims, d)
  {
    if d > 0 {
      PicksAreInCross(dims, d - 1, cell[..d - 1]);
      CrossContains(dims, d, cell[..d - 1], cell[d - 1]);
      assert cell == cell[..d - 1] + [cell[d - 1]];
    }
  }

  lemma CrossContains(dims: seq<SpanPairs>, d: nat, front: Cell, last: SpanPair)
    requires 0 < d <= |dims| && front in Cross(dims, d - 1) && last in dims[d - 1]
    ensures front + [last] in Cross(dims, d)
  {
    var cells, spans := Cross(dims, d - 1), dims[d - 1];
    var c :| 0 <= c < |cells| && cells[c] == front;
    var s :| 0 <= s < |spans| && spans[s] == last;
    ExtendContains(cells, spans, |cells|, c, s);
  }

  /** The product is exactly the cells that pick one span in every dimension. */
  lemma CrossIsAllPicks(dims: seq<SpanPairs>, cell: Cell)
    ensures cell in Cross(dims, |dims|) <==> Picks(cell, dims, |dims|)
  {
    if cell in Cross(dims, |dims|) {
      var x :| 0 <= x < |Cross(dims, |dims|)| && Cross(dims, |dims|)[x] == cell;
      CrossMembersPick(dims, |dims|, x);
    }
    if Picks(cell, dims, |dims|) {
      PicksAreInCross(dims, |dims|, cell);
    }
  }

  // ----- distinct cells share no memory position

  // In some dimension the two cells hold no memory position in common.
  ghost predicate Separated(a: Cell, b: Cell)
  {
    exists d :: 0 <= d < |a| && d < |b| && Apart(a[d], b[d])
  }

  ghost predicate PairwiseSeparated(cells: seq<Cell>, k: nat)
    requires k <= |cells|
  {
    forall i, j :: 0 <= i < j < k ==> Separated(cells[i], cells[j])
  }

  ghost predicate PairwiseApart(spans: SpanPairs)
  {
    forall s, t :: 0 <= s < t < |spans| ==> Apart(spans[s], spans[t])
  }

  lemma SeparatedExtends(a: Cell, b: Cell, s: SpanPair, t: SpanPair)
    requires |a| == |b| && (Separated(a, b) || Apart(s, t))
    ensures Separated(a + [s], b + [t])
  {
    if Separated(a, b) {
      var d :| 0 <= d < |a| && d < |b| && Apart(a[d], b[d]);
      assert Apart((a + [s])[d], (b + [t])[d]);
    } else {
      assert Apart((a + [s])[|a|], (b + [t])[|b|]);
    }
  }

  lemma {:induction false} ExtendSeparated(cells: seq<Cell>, spans: SpanPairs, k: nat)
    requires k <= |cells| && PairwiseSeparated(cells, k) && PairwiseApart(spans)
    requires forall i, j :: 0 <= i < k && 0 <= j < k ==> |cells[i]| == |cells[j]|
    ensures PairwiseSeparated(Extend(cells, spans, k), |Extend(cells, spans, k)|)
  {
    if k > 0 {
      ExtendSeparated(cells, spans, k - 1);
      var front := Extend(cells, spans, k - 1);
      var all := Extend(cells, spans, k);
      forall i, j | 0 <= i < j < |all|
        ensures Separated(all[i], all[j])
      {
        if j < |front| {
          assert Separated(front[i], front[j]);
        } else if i < |front| {
          var c, s := ExtendMember(cells, spans, k - 1, i);
          SeparatedExtends(cells[c], cells[k - 1], spans[s], spans[j - |front|]);
        } else {
          SeparatedExtends(cells[k - 1], cells[k - 1], spans[i - |front|], spans[j - |front|]);
        }
      }
    }
  }

  lemma {:induction false} CrossSeparated(dims: seq<SpanPairs>, d: nat)
    requires d <= |dims| && forall i :: 0 <= i < |dims| ==> PairwiseApart(dims[i])
    ensures forall i :: 0 <= i < |Cross(dims, d)| ==> |Cross(dims, d)[i]| == d
    ensures PairwiseSeparated(Cross(dims, d), |Cross(dims, d)|)
  {
    if d > 0 {
      CrossSeparated(dims, d - 1);
      ExtendSeparated(Cross(dims, d - 1), dims[d - 1], |Cross(dims, d - 1)|);
      forall i | 0 <= i < |Cross(dims, d)|
        ensures |Cross(dims, d)[i]| == d
      {
        CrossMembersPick(dims, d, i);
      }
    }
  }

  // ----- a product covers a box of positions

  // Cell c holds memory position j.
  ghost predicate HoldsPosition(cell: Cell, j: seq<nat>)
  {
    |cell| == |j| && forall d :: 0 <= d < |j| ==> j[d] in cell[d].mem
  }

  ghost predicate InWant(j: seq<nat>, want: seq<Wanted>)
  {
    |j| == |want| && forall d :: 0 <= d < |want| ==> j[d] in want[d]
  }

  ghost predicate CellFits(cell: Cell, want: seq<Wanted>)
  {
    |cell| == |want| && forall d :: 0 <= d < |want| ==> Fits(cell[d], want[d])
  }

  ghost predicate SomeCellHolds(cells: seq<Cell>, j: seq<nat>)
  {
    exists i :: 0 <= i < |cells| && HoldsPosition(cells[i], j)
  }

  // Every wanted position is in exactly one cell, with the disk indices it wants.
  ghost predicate CoversBox(cells: seq<Cell>, want: seq<Wanted>)
  {
    && (forall i :: 0 <= i < |cells| ==> CellFits(cells[i], want))
    && PairwiseSeparated(cells, |cells|)
    && (forall j :: InWant(j, want) ==> SomeCellHolds(cells, j))
  }

  ghost predicate CoverDims(dims: seq<SpanPairs>, want: seq<Wanted>)
  {
    |dims| == |want| && forall d :: 0 <= d < |dims| ==> CoversDim(dims[d], want[d])
  }

  lemma {:induction false} PickHolding(dims: seq<SpanPairs>, want: seq<Wanted>, j: seq<nat>, d: nat)
    returns (cell: Cell)
    requires CoverDims(dims, want) && InWant(j, want) && d <= |dims|
    ensures Picks(cell, dims, d) && forall i :: 0 <= i < d ==> j[i] in cell[i].mem
  {
    if d == 0 {
      cell := [];
    } else {
      var front := PickHolding(dims, want, j, d - 1);
      assert Reaches(dims[d - 1], j[d - 1]);
      var s :| 0 <= s < |dims[d - 1]| && j[d - 1] in dims[d - 1][s].mem;
      cell := front + [dims[d - 1][s]];
    }
  }

  /** If the spans cover every dimension, their product covers the box of all positions. */
  lemma CrossCoversBox(dims: seq<SpanPairs>, want: seq<Wanted>)
    requires CoverDims(dims, want)
    ensures CoversBox(Cross(dims, |dims|), want)
  {
    var cells := Cross(dims, |dims|);
    CrossSeparated(dims, |dims|);
    forall i | 0 <= i < |cells|
      ensures CellFits(cells[i], want)
    {
      CrossMembersPick(dims, |dims|, i);
      CellPicksFit(cells[i], dims, want);
    }
    forall j | InWant(j, want)
      ensures SomeCellHolds(cells, j)
    {
      var cell := PickHolding(dims, want, j, |dims|);
      PicksAreInCross(dims, |dims|, cell);
      var i :| 0 <= i < |cells| && cells[i] == cell;
      assert HoldsPosition(cells[i], j);
    }
  }

  lemma CellPicksFit(cell: Cell, dims: seq<SpanPairs>, want: seq<Wanted>)
    requires CoverDims(dims, want) && Picks(cell, dims, |dims|)
    ensures CellFits(cell, want)
  {
    forall d | 0 <= d < |want|
      ensures Fits(cell[d], want[d])
    {
      var s :| 0 <= s < |dims[d]| && dims[d][s] == cell[d];
      assert Fits(dims[d][s], want[d]);
    }
  }

  // ----- counting elements

  // The number of elements of a chunk, over its first d dimensions.
  function CellElements(cell: Cell, d: nat): nat
    requires d <= |cell|
  {
    if d == 0 then 1 else CellElements(cell, d - 1) * |cell[d - 1].disk|
  }

  function SpanTotal(spans: SpanPairs, k: nat): nat
    requires k <= |spans|
  {
    if k == 0 then 0 else SpanTotal(spans, k - 1) + |spans[k - 1].disk|
  }

  // The elements of the first n cells.
  function CellsTotal(cells: seq<Cell>, n: nat): nat
    requires n <= |cells|
  {
    if n == 0 then 0 else CellsTotal(cells, n - 1) + CellElements(cells[n - 1], |cells[n - 1]|)
  }

  // The product of the lengths of the first d dimensions.
  function DimsTotal(dims: seq<SpanPairs>, d: nat): nat
    requires d <= |dims|
  {
    if d == 0 then 1 else DimsTotal(dims, d - 1) * SpanTotal(dims[d - 1], |dims[d - 1]|)
  }

  lemma {:induction false} SameElements(a: Cell, b: Cell, d: nat)
    requires d <= |a| && d <= |b| && a[..d] == b[..d]
    ensures CellElements(a, d) == CellElements(b, d)
  {
    if d > 0 {
      assert a[..d][d - 1] == b[..d][d - 1] && a[..d][..d - 1] == a[..d - 1] && b[..d][..d - 1] == b[..d - 1];
      SameElements(a, b, d - 1);
    }
  }

  lemma {:induction false} SameTotal(a: seq<Cell>, b: seq<Cell>, n: nat)
    requires n <= |a| && n <= |b| && a[..n] == b[..n]
    ensures CellsTotal(a, n) == CellsTotal(b, n)
  {
    if n > 0 {
      assert a[..n][n - 1] == b[..n][n - 1] && a[..n][..n - 1] == a[..n - 1] && b[..n][..n - 1] == b[..n - 1];
      SameTotal(a, b, n - 1);
    }
  }

  lemma {:induction false} TotalConcat(a: seq<Cell>, b: seq<Cell>)
    ensures CellsTotal(a + b, |a + b|) == CellsTotal(a, |a|) + CellsTotal(b, |b|)
  {
    if b == [] {
      assert a + b == a;
    } else {
      var front := b[..|b| - 1];
      TotalConcat(a, front);
      assert (a + b)[..|a + b| - 1] == a + front;
      SameTotal(a + b, a + front, |a + front|);
      SameTotal(b, front, |front|);
    }
  }

  lemma {:induction false} ExtendOneTotal(cell: Cell, spans: SpanPairs, k: nat, elements: nat)
    requires k <= |spans| && elements == CellElements(cell, |cell|)
    ensures CellsTotal(ExtendOne(cell, spans, k), k) == elements * SpanTotal(spans, k)
  {
    if k > 0 {
      var before, longer := ExtendOne(cell, spans, k - 1), cell + [spans[k - 1]];
      ExtendOneTotal(cell, spans, k - 1, elements);
      SameTotal(ExtendOne(cell, spans, k), before, k - 1);
      SameElements(longer, cell, |cell|);
      Distribute(elements, SpanTotal(spans, k - 1), |spans[k - 1].disk|);
    }
  }

  lemma {:induction false} ExtendTotal(cells: seq<Cell>, spans: SpanPairs, k: nat, elements: nat, total: nat)
    requires k <= |cells| && elements == CellsTotal(cells, k) && total == SpanTotal(spans, |spans|)
    ensures CellsTotal(Extend(cells, spans, k), |Extend(cells, spans, k)|) == elements * total
  {
    if k > 0 {
      var before, last := CellsTotal(cells, k - 1), CellElements(cells[k - 1], |cells[k - 1]|);
      ExtendTotal(cells, spans, k - 1, before, total);
      ExtendOneTotal(cells[k - 1], spans, |spans|, last);
      ConcatScaled(Extend(cells, spans, k - 1), ExtendOne(cells[k - 1], spans, |spans|), before, last, elements, total);
    }
  }

  lemma ConcatScaled(a: seq<Cell>, b: seq<Cell>, x: nat, y: nat, sum: nat, total: nat)
    requires sum == x + y && CellsTotal(a, |a|) == x * total && CellsTotal(b, |b|) == y * total
    ensures CellsTotal(a + b, |a + b|) == sum * total
  {
    TotalConcat(a, b);
    Distribute(total, x, y);
  }

  /** The elements of the product are the product of the lengths of its dimensions. */
  lemma {:induction false} CrossTotal(dims: seq<SpanPairs>, d: nat)
    requires d <= |dims|
    ensures CellsTotal(Cross(dims, d), |Cross(dims, d)|) == DimsTotal(dims, d)
  {
    if d > 0 {
      CrossTotal(dims, d - 1);
      ExtendTotal(Cross(dims, d - 1), dims[d - 1], |Cross(dims, d - 1)|, DimsTotal(dims, d - 1),
          SpanTotal(dims[d - 1], |dims[d - 1]|));
    } else {
      assert CellsTotal([[]], 1) == CellsTotal([[]], 0) + CellElements([], 0);
    }
  }

  // The memory positions of the first s spans differ, and are those that any of them reaches.
  lemma {:induction false} SpansInjective(spans: SpanPairs, want: Wanted, s: nat)
    requires CoversDim(spans, want) && s <= |spans|
    ensures Injective(MemUpTo(spans, s)) && |MemUpTo(spans, s)| == SpanTotal(spans, s)
    ensures forall x :: x in MemUpTo(spans, s) <==> exists t :: 0 <= t < s && x in spans[t].mem
  {
    if s > 0 {
      SpansInjective(spans, want, s - 1);
      assert Fits(spans[s - 1], want);
      forall t | 0 <= t < s - 1
        ensures Apart(spans[t], spans[s - 1])
      {
      }
      InjectiveConcat(MemUpTo(spans, s - 1), spans[s - 1].mem);
    }
  }

  lemma InjectiveConcat(a: seq<nat>, b: seq<nat>)
    requires Injective(a) && Injective(b) && forall x :: x in a ==> x !in b
    ensures Injective(a + b)
  {
    forall i, j | 0 <= i < j < |a + b|
      ensures (a + b)[i] != (a + b)[j]
    {
      assert i < |a| ==> a[i] in a;
      assert j >= |a| ==> b[j - |a|] in b;
    }
  }

  /** Spans that cover the ids of a dimension have as many elements as there are ids. */
  lemma CoverTotal(spans: SpanPairs, ids: seq<int>)
    requires CoversDim(spans, WantedIds(ids))
    ensures SpanTotal(spans, |spans|) == |ids|
  {
    var all := MemUpTo(spans, |spans|);
    SpansInjective(spans, WantedIds(ids), |spans|);
    forall x: nat
      ensures x in Elements(all) <==> x in Numbers(|ids|)
    {
      if x in all {
        var t :| 0 <= t < |spans| && x in spans[t].mem;
        assert Fits(spans[t], WantedIds(ids));
      }
      if x < |ids| {
        assert x in WantedIds(ids) && Reaches(spans, x);
      }
    }
    assert Elements(all) == Numbers(|ids|);
    InjectiveCount(all);
    NumbersCount(|ids|);
  }

  // ----- contiguity flags

  lemma {:induction false} ExtendLength(cells: seq<Cell>, spans: SpanPairs, k: nat)
    requires k <= |cells|
    ensures |Extend(cells, spans, k)| == k * |spans|
  {
    if k > 0 {
      ExtendLength(cells, spans, k - 1);
      assert |Extend(cells, spans, k)| == |Extend(cells, spans, k - 1)| + |spans|;
      Distribute(|spans|, k - 1, 1);
    }
  }

  lemma {:induction false} CrossLength(dims: seq<SpanPairs>, d: nat)
    requires d <= |dims|
    ensures |Cross(dims, d)| == Stride(Lengths(dims), d)
  {
    if d > 0 {
      CrossLength(dims, d - 1);
      ExtendLength(Cross(dims, d - 1), dims[d - 1], |Cross(dims, d - 1)|);
    }
  }

  ghost predicate IsIota(mem: seq<nat>)
  {
    forall i :: 0 <= i < |mem| ==> mem[i] == i
  }

  // Each secondary dimension is one span in memory order.
  ghost predicate SecondaryContiguous(dims: seq<SpanPairs>)
    requires dims != []
  {
    forall d :: 0 <= d < |dims| - 1 ==> |dims[d]| == 1 && IsIota(dims[d][0].mem)
  }

  ghost predicate MemoryContiguous(mem: seq<nat>)
  {
    forall i :: 0 < i < |mem| ==> mem[i] == mem[i - 1] + 1
  }

  method SecondaryDimensionsContiguous(dims: seq<SpanPairs>) returns (contiguous: bool)
    requires dims != [] && forall d :: 0 <= d < |dims| ==> dims[d] != []
    ensures contiguous == SecondaryContiguous(dims)
  {
    for d := 0 to |dims| - 1
      invariant forall e :: 0 <= e < d ==> |dims[e]| == 1 && IsIota(dims[e][0].mem)
    {
      if |dims[d]| > 1 {
        return false;
      }
      var mem := dims[d][0].mem;
      for i := 0 to |mem|
        invariant forall k :: 0 <= k < i ==> mem[k] == k
      {
        if mem[i] != i {
          assert !IsIota(dims[d][0].mem);
          return false;
        }
      }
    }
    return true;
  }

  method IsMemoryContiguous(span: SpanPair) returns (contiguous: bool)
    ensures contiguous == MemoryContiguous(span.mem)
  {
    var i := 1;
    while i < |span.mem|
      invariant span.mem == [] || 1 <= i <= |span.mem|
      invariant forall k :: 0 < k < i && k < |span.mem| ==> span.mem[k] == span.mem[k - 1] + 1
    {
      var step: int := span.mem[i] as int - span.mem[i - 1];
      if step != 1 {
        return false;
      }
      i := i + 1;
    }
    return true;
  }

  lemma {:induction false} SinglesStride(counts: seq<nat>, d: nat)
    requires d <= |counts| && forall e :: 0 <= e < d ==> counts[e] == 1
    ensures Stride(counts, d) == 1
  {
    if d > 0 {
      SinglesStride(counts, d - 1);
    }
  }

  /**
   The flags are indexed as if rows varied slowest, while the product makes them vary
   fastest. This is the same index, because flags are only set when every secondary
   dimension has a single span: the product then lists the row spans in order.
   */
  lemma RowSpanOfProduct(dims: seq<SpanPairs>, i: nat)
    requires dims != [] && SecondaryContiguous(dims) && i < |Cross(dims, |dims|)|
    ensures Stride(Lengths(dims), |dims| - 1) == 1
    ensures |Cross(dims, |dims|)| == |LastDim(dims)|
    ensures |Cross(dims, |dims|)[i]| == |dims| && LastDim(Cross(dims, |dims|)[i]) == LastDim(dims)[i]
  {
    var last := |dims| - 1;
    SinglesStride(Lengths(dims), last);
    CrossLength(dims, last);
    var front := Cross(dims, last);
    assert Extend(front, dims[last], 0) == [];
    assert Cross(dims, |dims|) == ExtendOne(front[0], dims[last], |dims[last]|);
    CrossMembersPick(dims, last, 0);
  }

  method CrossSpans(dims: seq<SpanPairs>) returns (product: seq<Cell>)
    ensures product == Cross(dims, |dims|)
  {
    product := [[]];
    for d := 0 to |dims|
      invariant product == Cross(dims, d)
    {
      var next: seq<Cell> := [];
      for k := 0 to |product|
        invariant next == Extend(product, dims[d], k)
      {
        ghost var before := next;
        for s := 0 to |dims[d]|
          invariant next == before + ExtendOne(product[k], dims[d], s)
        {
          next := next + [product[k] + [dims[d][s]]];
        }
      }
      product := next;
    }
  }

  /** The chunks of a partition, with the flags of those contiguous in memory. */
  method CartesianProduct(dims: seq<SpanPairs>) returns (product: seq<Cell>, contiguous: seq<bool>)
    requires dims != [] && forall d :: 0 <= d < |dims| ==> dims[d] != []
    ensures product == Cross(dims, |dims|)
    ensures |contiguous| == |product|
    ensures forall i :: 0 <= i < |product| ==> |product[i]| == |dims|
    ensures forall i :: 0 <= i < |product| ==>
      contiguous[i] == (SecondaryContiguous(dims) && MemoryContiguous(LastDim(product[i]).mem))
  {
    product := CrossSpans(dims);
    forall i | 0 <= i < |product|
      ensures |product[i]| == |dims|
    {
      CrossMembersPick(dims, |dims|, i);
    }
    var secondary := SecondaryDimensionsContiguous(dims);
    var flags := new bool[|product|](_ => secondary);
    if secondary {
      MarkContiguousRows(dims, flags);
      forall i | 0 <= i < |product|
        ensures LastDim(product[i]) == LastDim(dims)[i]
      {
        RowSpanOfProduct(dims, i);
      }
    }
    contiguous := flags[..];
  }

  method MarkContiguousRows(dims: seq<SpanPairs>, flags: array<bool>)
    requires dims != [] && SecondaryContiguous(dims)
    requires flags.Length == |Cross(dims, |dims|)| && forall i :: 0 <= i < flags.Length ==> flags[i]
    modifies flags
    ensures flags.Length == |LastDim(dims)|
    ensures forall i :: 0 <= i < flags.Length ==> flags[i] == MemoryContiguous(LastDim(dims)[i].mem)
  {
    var stride := 1;
    for d := 1 to |dims|
      invariant stride == Stride(Lengths(dims), d - 1)
    {
      stride := stride * |dims[d - 1]|;
    }
    var rowSpans := LastDim(dims);
    SinglesStride(Lengths(dims), |dims| - 1);
    CrossLength(dims, |dims|);
    assert stride == 1 && flags.Length == |rowSpans|;
    for rs := 0 to |rowSpans|
      invariant forall i :: rs <= i < flags.Length ==> flags[i]
      invariant forall i :: 0 <= i < rs ==> flags[i] == MemoryContiguous(rowSpans[i].mem)
    {
      var rowsContiguous := IsMemoryContiguous(rowSpans[rs]);
      var first, last := rs * stride, (rs + 1) * stride;
      assert first == rs && last == rs + 1;
      for i := first to last
        invariant forall k :: last <= k < flags.Length ==> flags[k]
        invariant forall k :: 0 <= k < rs ==> flags[k] == MemoryContiguous(rowSpans[k].mem)
        invariant flags[rs] == (rs < i ==> rowsContiguous)
      {
        flags[i] := flags[i] && rowsContiguous;
      }
    }
  }
}
