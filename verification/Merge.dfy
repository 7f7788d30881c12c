/**
 Merging lexicographically sorted partitions (merge_sort.cc). Numbers compare as in
 section 5.11 of IEEE 754-2019, except that NaNs come after all others.
 */
module Merge {
  import opened Sequences
  import Spans

  type Magnitude = r: real | r >= 0.0

  // Zeros have a sign, and NaNs a payload, that comparisons do not see.
  datatype Float = NaN(payload: nat) | Infinity(negative: bool) | Finite(negative: bool, magnitude: Magnitude)

  datatype Value = Integer(i: int) | Floating(f: Float)

  datatype MergeType = Int32 | Int64 | Float32 | Float64

  predicate HasType(v: Value, t: MergeType)
  {
    v.Integer? <==> t == Int32 || t == Int64
  }

  // ----- comparing values

  function Signed(f: Float): real
    requires f.Finite?
  {
    var m: real := f.magnitude;
    if f.negative then -m else m
  }

  // The comparison operator of the hardware, which is false for NaNs.
  predicate FloatLess(x: Float, y: Float)
  {
    match (x, y)
    case (NaN(_), _) => false
    case (_, NaN(_)) => false
    case (Infinity(n), Infinity(m)) => n && !m
    case (Infinity(n), Finite(_, _)) => n
    case (Finite(_, _), Infinity(m)) => !m
    case (Finite(_, _), Finite(_, _)) => Signed(x) < Signed(y)
  }

  predicate Less(x: Value, y: Value)
    requires x.Integer? == y.Integer?
  {
    match x
    case Integer(i) => i < y.i
    case Floating(f) => FloatLess(f, y.f)
  }

  predicate IsNaN(v: Value)
  {
    v.Floating? && v.f.NaN?
  }

  function Bit(b: bool): int
  {
    if b then 1 else 0
  }

  function Compare(x: Value, y: Value): int
    requires x.Integer? == y.Integer?
  {
    if IsNaN(x) || IsNaN(y) then Bit(IsNaN(x)) - Bit(IsNaN(y)) else Bit(Less(y, x)) - Bit(Less(x, y))
  }

  /** Comparing values is a total preorder in which all NaNs come last, and are equal. */
  lemma ComparePreorder(x: Value, y: Value, z: Value)
    requires x.Integer? == y.Integer? == z.Integer?
    ensures Compare(x, x) == 0 && Compare(y, x) == -Compare(x, y)
    ensures Compare(x, y) <= 0 && Compare(y, z) <= 0 ==>
              Compare(x, z) <= 0 && (Compare(x, z) == 0 ==> Compare(x, y) == 0 == Compare(y, z))
    ensures IsNaN(y) ==> Compare(x, y) <= 0 && (Compare(x, y) == 0 <==> IsNaN(x))
  {
  }

  // x is the smaller number, or only y is no number at all.
  ghost predicate IsBefore(x: Value, y: Value)
  {
    match (x, y)
    case (Integer(i), Integer(k)) => i < k
    case (Floating(f), Floating(g)) =>
      !f.NaN? && (|| g.NaN?
                  || (f == Infinity(true) && g != Infinity(true)) || (f != Infinity(false) && g == Infinity(false))
                  || (f.Finite? && g.Finite? && IsSmaller(f.negative, f.magnitude, g.negative, g.magnitude)))
    case _ => false
  }

  ghost predicate IsSmaller(n: bool, x: Magnitude, m: bool, y: Magnitude)
  {
    if n && m then x > y
    else if n then x > 0.0 || y > 0.0
    else !m && x < y
  }

  // The same number, whatever the sign of a zero, or no numbers both.
  ghost predicate AreAlike(x: Value, y: Value)
  {
    match (x, y)
    case (Integer(i), Integer(k)) => i == k
    case (Floating(f), Floating(g)) =>
      || (f.NaN? && g.NaN?)
      || (f.Infinity? && g == f)
      || (f.Finite? && g.Finite? && f.magnitude == g.magnitude && (f.negative == g.negative || f.magnitude == 0.0))
    case _ => false
  }

  /** Comparing puts the smaller number first, and numbers before what is none. */
  lemma CompareIsNumeric(x: Value, y: Value)
    requires x.Integer? == y.Integer?
    ensures Compare(x, y) < 0 <==> IsBefore(x, y)
    ensures Compare(x, y) == 0 <==> AreAlike(x, y)
    ensures Compare(x, y) > 0 <==> IsBefore(y, x)
  {
    match (x, y) {
      case (Floating(Finite(_, _)), Floating(Finite(_, _))) =>
        assert Compare(x, y) == Bit(Signed(y.f) < Signed(x.f)) - Bit(Signed(x.f) < Signed(y.f));
      case _ =>
    }
  }

  // ----- comparing rows

  type Row = seq<Value>

  ghost predicate Comparable(x: Row, y: Row)
  {
    |x| == |y| && forall a :: 0 <= a < |x| ==> x[a].Integer? == y[a].Integer?
  }

  // The first arrays that differ, from array a on, decide.
  ghost function CompareRows(x: Row, y: Row, a: nat): int
    requires Comparable(x, y) && a <= |x|
    decreases |x| - a
  {
    if a == |x| then 0
    else if Compare(x[a], y[a]) != 0 then Compare(x[a], y[a])
    else CompareRows(x, y, a + 1)
  }

  ghost predicate NotAfter(x: Row, y: Row)
    requires Comparable(x, y)
  {
    CompareRows(x, y, 0) <= 0
  }

  lemma {:induction false} CompareRowsPreorder(x: Row, y: Row, z: Row, a: nat)
    requires Comparable(x, y) && Comparable(y, z) && Comparable(x, z) && a <= |x|
    ensures CompareRows(x, x, a) == 0 && CompareRows(y, x, a) == -CompareRows(x, y, a)
    ensures CompareRows(x, y, a) <= 0 && CompareRows(y, z, a) <= 0 ==>
              CompareRows(x, z, a) <= 0
                  && (CompareRows(x, z, a) == 0 ==> CompareRows(x, y, a) == 0 == CompareRows(y, z, a))
    decreases |x| - a
  {
    if a < |x| {
      ComparePreorder(x[a], y[a], z[a]);
      ComparePreorder(y[a], x[a], z[a]);
      CompareRowsPreorder(x, y, z, a + 1);
    }
  }

  /** Rows are totally preordered: any two compare, and not coming after is transitive. */
  lemma RowsPreordered(x: Row, y: Row, z: Row)
    requires Comparable(x, y) && Comparable(y, z) && Comparable(x, z)
    ensures NotAfter(x, y) || NotAfter(y, x)
    ensures NotAfter(x, y) && NotAfter(y, z) ==> NotAfter(x, z)
  {
    CompareRowsPreorder(x, y, z, 0);
  }

  // The rows are alike, or in the first array where they differ x is before y.
  ghost predicate Ascends(x: Row, y: Row)
    requires |x| == |y|
  {
    exists a :: 0 <= a <= |x| && AgreeBefore(x, y, a) && (a < |x| ==> IsBefore(x[a], y[a]))
  }

  ghost predicate AgreeBefore(x: Row, y: Row, a: nat)
    requires a <= |x| == |y|
  {
    forall b :: 0 <= b < a ==> AreAlike(x[b], y[b])
  }

  lemma {:induction false} NotAfterFrom(x: Row, y: Row, a: nat)
    requires Comparable(x, y) && a <= |x| && AgreeBefore(x, y, a)
    ensures CompareRows(x, y, a) <= 0 <==> Ascends(x, y)
    decreases |x| - a
  {
    if a < |x| {
      CompareIsNumeric(x[a], y[a]);
      if AreAlike(x[a], y[a]) {
        NotAfterFrom(x, y, a + 1);
      } else {
        DecidedAt(x, y, a);
      }
    }
  }

  // The first array in which rows differ decides.
  lemma DecidedAt(x: Row, y: Row, a: nat)
    requires Comparable(x, y) && a < |x| && AgreeBefore(x, y, a) && !AreAlike(x[a], y[a])
    ensures Ascends(x, y) <==> IsBefore(x[a], y[a])
  {
    if Ascends(x, y) {
      var c :| 0 <= c <= |x| && AgreeBefore(x, y, c) && (c < |x| ==> IsBefore(x[c], y[c]));
      if c < a {
        CompareIsNumeric(x[c], y[c]);
      }
    }
  }

  // ----- the partitions

  // The values of array a of partition p are inputs[p][a].
  type Partitions = seq<seq<seq<Value>>>

  ghost predicate WellTyped(inputs: Partitions, nrows: seq<nat>, types: seq<MergeType>)
  {
    && |inputs| == |nrows|
    && forall p :: 0 <= p < |inputs| ==>
         && |inputs[p]| == |types|
         && forall a :: 0 <= a < |types| ==>
              && |inputs[p][a]| == nrows[p]
              && forall r :: 0 <= r < nrows[p] ==> HasType(inputs[p][a][r], types[a])
  }

  // Names a row by its partition and its place there.
  datatype MergeData = MergeData(row: nat, partition: nat)

  ghost predicate InPartitions(m: MergeData, nrows: seq<nat>)
  {
    m.partition < |nrows| && m.row < nrows[m.partition]
  }

  ghost function RowAt(inputs: Partitions, nrows: seq<nat>, types: seq<MergeType>, m: MergeData): (row: Row)
    requires WellTyped(inputs, nrows, types) && InPartitions(m, nrows)
    ensures |row| == |types| && forall a :: 0 <= a < |types| ==> HasType(row[a], types[a])
  {
    seq(|types|, a requires 0 <= a < |types| => inputs[m.partition][a][m.row])
  }

  ghost predicate Ordered(inputs: Partitions, nrows: seq<nat>, types: seq<MergeType>, x: MergeData, y: MergeData)
    requires WellTyped(inputs, nrows, types) && InPartitions(x, nrows) && InPartitions(y, nrows)
  {
    NotAfter(RowAt(inputs, nrows, types, x), RowAt(inputs, nrows, types, y))
  }

  /** Tells whether one row comes after another. */
  method Greater(inputs: Partitions, nrows: seq<nat>, types: seq<MergeType>, lhs: MergeData,
                 rhs: MergeData) returns (greater: bool)
    requires WellTyped(inputs, nrows, types) && InPartitions(lhs, nrows) && InPartitions(rhs, nrows)
    ensures greater == !Ordered(inputs, nrows, types, lhs, rhs)
  {
    ghost var x, y := RowAt(inputs, nrows, types, lhs), RowAt(inputs, nrows, types, rhs);
    for a := 0 to |types|
      invariant CompareRows(x, y, 0) == CompareRows(x, y, a)
    {
      var cmp := Compare(inputs[lhs.partition][a][lhs.row], inputs[rhs.partition][a][rhs.row]);
      if cmp != 0 {
        return cmp > 0;
      }
    }
    return false;
  }

  lemma OrderedPreorder(inputs: Partitions, nrows: seq<nat>, types: seq<MergeType>, x: MergeData, y: MergeData,
                        z: MergeData)
    requires WellTyped(inputs, nrows, types) && InPartitions(x, nrows) && InPartitions(y, nrows)
    requires InPartitions(z, nrows)
    ensures Ordered(inputs, nrows, types, x, y) || Ordered(inputs, nrows, types, y, x)
    ensures Ordered(inputs, nrows, types, x, y) && Ordered(inputs, nrows, types, y, z) ==>
              Ordered(inputs, nrows, types, x, z)
  {
    RowsPreordered(RowAt(inputs, nrows, types, x), RowAt(inputs, nrows, types, y), RowAt(inputs, nrows, types, z));
  }

  // A priority queue gives any of the rows that come after no other.
  ghost predicate IsTop(inputs: Partitions, nrows: seq<nat>, types: seq<MergeType>, queue: set<MergeData>,
                        top: MergeData)
    requires WellTyped(inputs, nrows, types) && forall m :: m in queue ==> InPartitions(m, nrows)
  {
    top in queue && forall m :: m in queue ==> Ordered(inputs, nrows, types, top, m)
  }

  method Top(inputs: Partitions, nrows: seq<nat>, types: seq<MergeType>, queue: set<MergeData>) returns (top: MergeData)
    requires WellTyped(inputs, nrows, types) && (forall m :: m in queue ==> InPartitions(m, nrows))
    requires queue != {}
    ensures IsTop(inputs, nrows, types, queue, top)
  {
    top :| top in queue;
    OrderedPreorder(inputs, nrows, types, top, top, top);
    var rest := queue - {top};
    while rest != {}
      invariant rest <= queue && top in queue
      invariant forall m :: m in queue && m !in rest ==> Ordered(inputs, nrows, types, top, m)
      decreases |rest|
    {
      var m :| m in rest;
      var after := Greater(inputs, nrows, types, top, m);
      forall x | x in queue && x !in rest && after
        ensures Ordered(inputs, nrows, types, m, x)
      {
        OrderedPreorder(inputs, nrows, types, m, top, x);
        OrderedPreorder(inputs, nrows, types, top, m, m);
      }
      OrderedPreorder(inputs, nrows, types, m, m, m);
      if after {
        top := m;
      }
      rest := rest - {m};
    }
  }

  // ----- arrays that are sorted

  ghost function RowOf(arrays: seq<seq<Value>>, k: nat): (row: Row)
    requires forall a :: 0 <= a < |arrays| ==> k < |arrays[a]|
    ensures |row| == |arrays| && forall a :: 0 <= a < |arrays| ==> row[a] == arrays[a][k]
  {
    seq(|arrays|, a requires 0 <= a < |arrays| => arrays[a][k])
  }

  // Of the first n rows, each and the next ascend.
  ghost predicate AreSorted(arrays: seq<seq<Value>>, n: nat)
    requires forall a :: 0 <= a < |arrays| ==> n <= |arrays[a]|
  {
    forall k :: 0 <= k < n - 1 ==> Ascends(RowOf(arrays, k), RowOf(arrays, k + 1))
  }

  ghost predicate InputsSorted(inputs: Partitions, nrows: seq<nat>, types: seq<MergeType>)
    requires WellTyped(inputs, nrows, types)
  {
    forall p :: 0 <= p < |inputs| ==> AreSorted(inputs[p], nrows[p])
  }

  lemma OrderedAscends(inputs: Partitions, nrows: seq<nat>, types: seq<MergeType>, x: MergeData, y: MergeData)
    requires WellTyped(inputs, nrows, types) && InPartitions(x, nrows) && InPartitions(y, nrows)
    ensures Ordered(inputs, nrows, types, x, y)
       <==> Ascends(RowAt(inputs, nrows, types, x), RowAt(inputs, nrows, types, y))
  {
    NotAfterFrom(RowAt(inputs, nrows, types, x), RowAt(inputs, nrows, types, y), 0);
  }

  lemma SortedInputs(inputs: Partitions, nrows: seq<nat>, types: seq<MergeType>)
    requires WellTyped(inputs, nrows, types) && InputsSorted(inputs, nrows, types)
    ensures PartitionsSorted(inputs, nrows, types)
  {
    forall p, r | 0 <= p < |nrows| && 0 <= r && r + 1 < nrows[p]
      ensures RowSorted(inputs, nrows, types, p, r)
    {
      var x, y := MergeData(r, p), MergeData(r + 1, p);
      assert AreSorted(inputs[p], nrows[p]);
      assert RowAt(inputs, nrows, types, x) == RowOf(inputs[p], r);
      assert RowAt(inputs, nrows, types, y) == RowOf(inputs[p], r + 1);
      OrderedAscends(inputs, nrows, types, x, y);
    }
  }

  // ----- interleavings of the partitions

  // The rows of one partition among those merged, in their order.
  ghost function RowsFrom(order: seq<MergeData>, p: nat): seq<nat>
  {
    if order == [] then []
    else
      var last := order[|order| - 1];
      RowsFrom(order[..|order| - 1], p) + if last.partition == p then [last.row] else []
  }

  // The first taken[p] rows of every partition p, each once and in their order.
  ghost predicate Interleaves(order: seq<MergeData>, taken: seq<nat>)
  {
    && (forall p :: 0 <= p < |taken| ==> RowsFrom(order, p) == Spans.Iota(taken[p]))
    && forall k :: 0 <= k < |order| ==> order[k].partition < |taken| && order[k].row < taken[order[k].partition]
  }

  lemma TakeOne(order: seq<MergeData>, taken: seq<nat>, m: MergeData)
    requires Interleaves(order, taken) && m.partition < |taken| && m.row == taken[m.partition]
    ensures Interleaves(order + [m], taken[m.partition := m.row + 1])
  {
    assert (order + [m])[..|order|] == order;
    forall p | 0 <= p < |taken|
      ensures RowsFrom(order + [m], p) == Spans.Iota(taken[m.partition := m.row + 1][p])
    {
      assert RowsFrom(order, p) == Spans.Iota(taken[p]);
    }
  }

  // ----- the merge

  ghost predicate PartitionsSorted(inputs: Partitions, nrows: seq<nat>, types: seq<MergeType>)
    requires WellTyped(inputs, nrows, types)
  {
    forall p, r :: 0 <= p < |nrows| && 0 <= r && r + 1 < nrows[p] ==> RowSorted(inputs, nrows, types, p, r)
  }

  ghost predicate RowSorted(inputs: Partitions, nrows: seq<nat>, types: seq<MergeType>, p: nat, r: nat)
    requires WellTyped(inputs, nrows, types) && p < |nrows| && r + 1 < nrows[p]
  {
    Ordered(inputs, nrows, types, MergeData(r, p), MergeData(r + 1, p))
  }

  ghost predicate AllIn(order: seq<MergeData>, nrows: seq<nat>)
  {
    forall k :: 0 <= k < |order| ==> InPartitions(order[k], nrows)
  }

  ghost predicate Sorted(inputs: Partitions, nrows: seq<nat>, types: seq<MergeType>, order: seq<MergeData>)
    requires WellTyped(inputs, nrows, types) && AllIn(order, nrows)
  {
    forall k, l :: 0 <= k < l < |order| ==> Ordered(inputs, nrows, types, order[k], order[l])
  }

  // The queue holds the first row not taken of every partition that has one.
  ghost predicate IsQueue(queue: set<MergeData>, taken: seq<nat>, nrows: seq<nat>)
  {
    && |taken| == |nrows|
    && (forall p :: 0 <= p < |taken| ==> taken[p] <= nrows[p])
    && (forall m :: m in queue ==> InPartitions(m, nrows) && m.row == taken[m.partition])
    && (forall p :: 0 <= p < |taken| && taken[p] < nrows[p] ==> MergeData(taken[p], p) in queue)
  }

  // No row still to come comes before one that was merged.
  ghost predicate NoneBefore(inputs: Partitions, nrows: seq<nat>, types: seq<MergeType>, order: seq<MergeData>,
                             queue: set<MergeData>)
    requires WellTyped(inputs, nrows, types) && AllIn(order, nrows) && forall m :: m in queue ==> InPartitions(m, nrows)
  {
    forall k, m :: 0 <= k < |order| && m in queue ==> Ordered(inputs, nrows, types, order[k], m)
  }

  // The queue once the top was taken and the next row of its partition, if any, was added.
  function NextQueue(queue: set<MergeData>, top: MergeData, nrows: seq<nat>): set<MergeData>
    requires top.partition < |nrows|
  {
    queue - {top} + if top.row + 1 < nrows[top.partition] then {MergeData(top.row + 1, top.partition)} else {}
  }

  lemma QueueStep(queue: set<MergeData>, taken: seq<nat>, nrows: seq<nat>, top: MergeData)
    requires IsQueue(queue, taken, nrows) && top in queue
    ensures IsQueue(NextQueue(queue, top, nrows), taken[top.partition := top.row + 1], nrows)
  {
  }

  lemma SortedStep(inputs: Partitions, nrows: seq<nat>, types: seq<MergeType>, order: seq<MergeData>,
                   queue: set<MergeData>, top: MergeData)
    requires WellTyped(inputs, nrows, types) && AllIn(order, nrows) && forall m :: m in queue ==> InPartitions(m, nrows)
    requires PartitionsSorted(inputs, nrows, types) && IsTop(inputs, nrows, types, queue, top)
    requires Sorted(inputs, nrows, types, order) && NoneBefore(inputs, nrows, types, order, queue)
    ensures AllIn(order + [top], nrows) && Sorted(inputs, nrows, types, order + [top])
    ensures forall m :: m in NextQueue(queue, top, nrows) ==> InPartitions(m, nrows)
    ensures NoneBefore(inputs, nrows, types, order + [top], NextQueue(queue, top, nrows))
  {
    var merged := order + [top];
    var next := MergeData(top.row + 1, top.partition);
    if next.row < nrows[top.partition] {
      assert RowSorted(inputs, nrows, types, top.partition, top.row);
    }
    forall k, m | 0 <= k < |merged| && m in NextQueue(queue, top, nrows)
      ensures Ordered(inputs, nrows, types, merged[k], m)
    {
      assert Ordered(inputs, nrows, types, merged[k], top);
      if m !in queue {
        OrderedPreorder(inputs, nrows, types, merged[k], top, next);
      }
    }
  }

  // The rows merged so far are in the outputs.
  ghost predicate AreMerged(inputs: Partitions, nrows: seq<nat>, types: seq<MergeType>, outputs: seq<array<Value>>,
                            order: seq<MergeData>)
    requires WellTyped(inputs, nrows, types) && AllIn(order, nrows)
    reads outputs
  {
    && |outputs| == |types|
    && forall a :: 0 <= a < |types| ==>
         && |order| <= outputs[a].Length
         && forall k :: 0 <= k < |order| ==> outputs[a][k] == inputs[order[k].partition][a][order[k].row]
  }

  ghost predicate AreOutputs(outputs: seq<array<Value>>, types: seq<MergeType>, nrows: seq<nat>)
  {
    && |outputs| == |types|
    && (forall a :: 0 <= a < |outputs| ==> outputs[a].Length >= Sum(nrows))
    && forall a, b :: 0 <= a < b < |outputs| ==> outputs[a] != outputs[b]
  }

  method CopyRow(inputs: Partitions, nrows: seq<nat>, types: seq<MergeType>, outputs: seq<array<Value>>, m: MergeData,
                 row: nat)
    requires WellTyped(inputs, nrows, types) && InPartitions(m, nrows)
    requires AreOutputs(outputs, types, nrows) && row < Sum(nrows)
    modifies outputs
    ensures forall a :: 0 <= a < |outputs| ==>
              outputs[a][..] == old(outputs[a][..])[row := inputs[m.partition][a][m.row]]
  {
    for a := 0 to |types|
      invariant forall b :: 0 <= b < |outputs| ==>
                  outputs[b][..] == (if b < a then old(outputs[b][..])[row := inputs[m.partition][b][m.row]]
                                     else old(outputs[b][..]))
    {
      outputs[a][row] := inputs[m.partition][a][m.row];
    }
  }

  lemma MergedOne(inputs: Partitions, nrows: seq<nat>, types: seq<MergeType>, outputs: seq<array<Value>>,
                  before: seq<seq<Value>>,
                  order: seq<MergeData>, m: MergeData)
    requires WellTyped(inputs, nrows, types) && AllIn(order, nrows) && InPartitions(m, nrows)
    requires |before| == |outputs| == |types|
    requires forall a :: 0 <= a < |types| ==>
               && |order| < |before[a]|
               && forall k :: 0 <= k < |order| ==> before[a][k] == inputs[order[k].partition][a][order[k].row]
    requires forall a :: 0 <= a < |types| ==> outputs[a][..] == before[a][|order| := inputs[m.partition][a][m.row]]
    ensures AllIn(order + [m], nrows) && AreMerged(inputs, nrows, types, outputs, order + [m])
  {
    forall a, k | 0 <= a < |types| && 0 <= k <= |order|
      ensures |order| < outputs[a].Length
      ensures outputs[a][k] == inputs[(order + [m])[k].partition][a][(order + [m])[k].row]
    {
      assert outputs[a][..][k] == before[a][|order| := inputs[m.partition][a][m.row]][k];
    }
  }

  ghost function Contents(outputs: seq<array<Value>>): (s: seq<seq<Value>>)
    reads outputs
    ensures |s| == |outputs| && forall a :: 0 <= a < |outputs| ==> s[a] == outputs[a][..]
  {
    seq(|outputs|, a requires 0 <= a < |outputs| reads outputs => outputs[a][..])
  }

  // What lies beyond the merged rows is left as it was.
  ghost predicate TailKept(outputs: seq<array<Value>>, before: seq<seq<Value>>, n: nat)
    reads outputs
  {
    |before| == |outputs| && forall a :: 0 <= a < |outputs| ==>
      |before[a]| == outputs[a].Length && forall k :: n <= k < |before[a]| ==> outputs[a][k] == before[a][k]
  }

  // The outputs hold the merged rows, and are otherwise as they were.
  ghost predicate IsOutput(inputs: Partitions, nrows: seq<nat>, types: seq<MergeType>, outputs: seq<array<Value>>,
                           order: seq<MergeData>, before: seq<seq<Value>>)
    requires WellTyped(inputs, nrows, types)
    reads outputs
  {
    AllIn(order, nrows) && AreMerged(inputs, nrows, types, outputs, order) && TailKept(outputs, before, |order|)
  }

  method AppendRow(inputs: Partitions, nrows: seq<nat>, types: seq<MergeType>, outputs: seq<array<Value>>,
                   ghost order: seq<MergeData>, ghost before: seq<seq<Value>>, m: MergeData, row: nat)
    requires WellTyped(inputs, nrows, types) && InPartitions(m, nrows)
    requires AreOutputs(outputs, types, nrows) && row == |order| < Sum(nrows)
    requires IsOutput(inputs, nrows, types, outputs, order, before)
    modifies outputs
    ensures IsOutput(inputs, nrows, types, outputs, order + [m], before)
  {
    ghost var was := Contents(outputs);
    CopyRow(inputs, nrows, types, outputs, m, row);
    MergedOne(inputs, nrows, types, outputs, was, order, m);
    TailStep(outputs, was, before, row);
  }

  lemma TailStep(outputs: seq<array<Value>>, was: seq<seq<Value>>, before: seq<seq<Value>>, row: nat)
    requires |was| == |outputs| == |before|
    requires forall a :: 0 <= a < |outputs| ==> |was[a]| == |before[a]| == outputs[a].Length && row < |was[a]|
    requires forall a, k :: 0 <= a < |outputs| && row <= k < |before[a]| ==> was[a][k] == before[a][k]
    requires forall a :: 0 <= a < |outputs| ==> DiffersAt(outputs[a][..], was[a], row)
    ensures TailKept(outputs, before, row + 1)
  {
    forall a, k | 0 <= a < |outputs| && row + 1 <= k < |before[a]|
      ensures outputs[a][k] == before[a][k]
    {
      assert DiffersAt(outputs[a][..], was[a], row);
      assert outputs[a][..][k] == was[a][k];
    }
  }

  ghost predicate DiffersAt(s: seq<Value>, t: seq<Value>, row: nat)
  {
    |s| == |t| && forall k :: 0 <= k < |s| && k != row ==> s[k] == t[k]
  }

  method StartQueue(nrows: seq<nat>) returns (queue: set<MergeData>)
    ensures IsQueue(queue, Zeros(|nrows|), nrows)
  {
    queue := {};
    for p := 0 to |nrows|
      invariant forall m :: m in queue ==> m.partition < p && m.row == 0 < nrows[m.partition]
      invariant forall q :: 0 <= q < p && 0 < nrows[q] ==> MergeData(0, q) in queue
    {
      if nrows[p] > 0 {
        queue := queue + {MergeData(0, p)};
      }
    }
  }

  function Zeros(n: nat): (s: seq<nat>)
    ensures |s| == n && forall p :: 0 <= p < n ==> s[p] == 0
  {
    seq(n, _ => 0)
  }

  // The state of the merge between rows.
  ghost predicate Merging(inputs: Partitions, nrows: seq<nat>, types: seq<MergeType>, order: seq<MergeData>,
                          taken: seq<nat>, queue: set<MergeData>)
    requires WellTyped(inputs, nrows, types)
  {
    && IsQueue(queue, taken, nrows) && Interleaves(order, taken) && |order| == Sum(taken) && AllIn(order, nrows)
    && (PartitionsSorted(inputs, nrows, types) ==>
          Sorted(inputs, nrows, types, order) && NoneBefore(inputs, nrows, types, order, queue))
  }

  lemma InterleavingStep(order: seq<MergeData>, taken: seq<nat>, nrows: seq<nat>, top: MergeData)
    requires Interleaves(order, taken) && |order| == Sum(taken) && AllIn(order, nrows) && InPartitions(top, nrows)
    requires top.partition < |taken| && top.row == taken[top.partition]
    ensures Interleaves(order + [top], taken[top.partition := top.row + 1])
    ensures |order + [top]| == Sum(taken[top.partition := top.row + 1]) && AllIn(order + [top], nrows)
  {
    TakeOne(order, taken, top);
    SumUpdate(taken, top.partition, |taken|);
  }

  lemma MergingStep(inputs: Partitions, nrows: seq<nat>, types: seq<MergeType>, order: seq<MergeData>, taken: seq<nat>,
                    queue: set<MergeData>, top: MergeData)
    requires WellTyped(inputs, nrows, types) && Merging(inputs, nrows, types, order, taken, queue)
    requires IsTop(inputs, nrows, types, queue, top)
    ensures InPartitions(top, nrows) && |taken| == |nrows|
    ensures Merging(inputs, nrows, types, order + [top], taken[top.partition := top.row + 1],
          NextQueue(queue, top, nrows))
  {
    QueueStep(queue, taken, nrows, top);
    InterleavingStep(order, taken, nrows, top);
    if PartitionsSorted(inputs, nrows, types) {
      SortedStep(inputs, nrows, types, order, queue, top);
    }
  }

  // Appends a top of the queue to the outputs, and puts the row after it in its place.
  method MergeRow(inputs: Partitions, nrows: seq<nat>, types: seq<MergeType>, outputs: seq<array<Value>>,
                  queue: set<MergeData>, row: nat, ghost order: seq<MergeData>, ghost taken: seq<nat>,
                  ghost before: seq<seq<Value>>)
    returns (rest: set<MergeData>, ghost longer: seq<MergeData>, ghost more: seq<nat>)
    requires WellTyped(inputs, nrows, types) && AreOutputs(outputs, types, nrows) && queue != {} && row == |order|
    requires Merging(inputs, nrows, types, order, taken, queue)
    requires IsOutput(inputs, nrows, types, outputs, order, before)
    modifies outputs
    ensures |longer| == row + 1 <= Sum(nrows) && Merging(inputs, nrows, types, longer, more, rest)
    ensures IsOutput(inputs, nrows, types, outputs, longer, before)
  {
    var top := Top(inputs, nrows, types, queue);
    RowsLeft(taken, nrows, queue, top);
    AppendRow(inputs, nrows, types, outputs, order, before, top, row);
    MergingStep(inputs, nrows, types, order, taken, queue, top);
    return NextQueue(queue, top, nrows), order + [top], taken[top.partition := top.row + 1];
  }

  lemma MergedIsSorted(inputs: Partitions, nrows: seq<nat>, types: seq<MergeType>, outputs: seq<array<Value>>,
                       order: seq<MergeData>)
    requires WellTyped(inputs, nrows, types) && AllIn(order, nrows) && AreMerged(inputs, nrows, types, outputs, order)
    requires Sorted(inputs, nrows, types, order)
    ensures AreSorted(Contents(outputs), |order|)
  {
    var arrays := Contents(outputs);
    forall k | 0 <= k < |order| - 1
      ensures Ascends(RowOf(arrays, k), RowOf(arrays, k + 1))
    {
      assert RowOf(arrays, k) == RowAt(inputs, nrows, types, order[k]);
      assert RowOf(arrays, k + 1) == RowAt(inputs, nrows, types, order[k + 1]);
      OrderedAscends(inputs, nrows, types, order[k], order[k + 1]);
    }
  }

  /**
   Merges the partitions. The outputs hold every row once, with its values in all arrays
   at the same place, the rows of each partition in their order, and, if every partition
   is sorted, all rows in order; whichever of equal rows the queue gives first.
   */
  method PartitionMerge(inputs: Partitions, nrows: seq<nat>, types: seq<MergeType>, outputs: seq<array<Value>>)
    returns (ghost order: seq<MergeData>)
    requires WellTyped(inputs, nrows, types) && AreOutputs(outputs, types, nrows)
    modifies outputs
    ensures Interleaves(order, nrows) && |order| == Sum(nrows)
    ensures AllIn(order, nrows) && AreMerged(inputs, nrows, types, outputs, order)
    ensures PartitionsSorted(inputs, nrows, types) ==> Sorted(inputs, nrows, types, order)
    ensures InputsSorted(inputs, nrows, types) ==> AreSorted(Contents(outputs), Sum(nrows))
    ensures TailKept(outputs, old(Contents(outputs)), Sum(nrows))
  {
    order := [];
    ghost var before := Contents(outputs);
    ghost var taken: seq<nat> := Zeros(|nrows|);
    SumOfNothing(taken, |taken|);
    var queue := StartQueue(nrows);
    var row := 0;
    while queue != {}
      invariant row == |order| <= Sum(nrows)
      invariant Merging(inputs, nrows, types, order, taken, queue)
      invariant IsOutput(inputs, nrows, types, outputs, order, before)
      decreases Sum(nrows) - row
    {
      queue, order, taken := MergeRow(inputs, nrows, types, outputs, queue, row, order, taken, before);
      row := row + 1;
    }
    AllTaken(taken, nrows);
    if InputsSorted(inputs, nrows, types) {
      SortedInputs(inputs, nrows, types);
      MergedIsSorted(inputs, nrows, types, outputs, order);
    }
  }

  lemma RowsLeft(taken: seq<nat>, nrows: seq<nat>, queue: set<MergeData>, top: MergeData)
    requires IsQueue(queue, taken, nrows) && top in queue
    ensures Sum(taken) < Sum(nrows)
  {
    SumBelow(taken, nrows, top.partition, |taken|);
  }

  lemma AllTaken(taken: seq<nat>, nrows: seq<nat>)
    requires IsQueue({}, taken, nrows)
    ensures taken == nrows
  {
  }

  /** A row is merged exactly once: two places of the output never hold the same row. */
  lemma {:induction false} MergedOnce(order: seq<MergeData>, nrows: seq<nat>, m: MergeData) returns (k: nat)
    requires Interleaves(order, nrows) && InPartitions(m, nrows)
    ensures k < |order| && order[k] == m
    ensures forall l :: 0 <= l < |order| && l != k ==> order[l] != m
  {
    var rows := RowsFrom(order, m.partition);
    assert rows == Spans.Iota(nrows[m.partition]);
    k := PlaceOf(order, m.partition, m.row);
    forall l | 0 <= l < |order| && l != k
      ensures order[l] != m
    {
      if order[l] == m {
        PlacesDiffer(order, m.partition, if k < l then k else l, if k < l then l else k);
      }
    }
  }

  // The place in the order of the row at position r among those of its partition.
  lemma {:induction false} PlaceOf(order: seq<MergeData>, p: nat, r: nat) returns (k: nat)
    requires r < |RowsFrom(order, p)|
    ensures k < |order| && order[k] == MergeData(RowsFrom(order, p)[r], p)
    decreases |order|
  {
    var n := |order| - 1;
    if r < |RowsFrom(order[..n], p)| {
      k := PlaceOf(order[..n], p, r);
    } else {
      k := n;
    }
  }

  // Rows at different places of one partition's rows differ if those ascend.
  lemma PlacesDiffer(order: seq<MergeData>, p: nat, k: nat, l: nat)
    requires k < l < |order| && order[k].partition == order[l].partition == p
    requires RowsFrom(order, p) == Spans.Iota(|RowsFrom(order, p)|)
    ensures order[k].row < order[l].row
  {
    CountBefore(order, p, k);
    CountBefore(order, p, l);
    FewerBefore(order, p, k, l);
  }

  lemma {:induction false} CountBefore(order: seq<MergeData>, p: nat, k: nat)
    requires k < |order| && order[k].partition == p
    ensures |RowsFrom(order[..k], p)| < |RowsFrom(order, p)|
    ensures RowsFrom(order, p)[|RowsFrom(order[..k], p)|] == order[k].row
    decreases |order|
  {
    var n := |order| - 1;
    if k < n {
      assert order[..n][..k] == order[..k];
      CountBefore(order[..n], p, k);
    }
  }

  lemma {:induction false} FewerBefore(order: seq<MergeData>, p: nat, k: nat, l: nat)
    requires k < l <= |order| && order[k].partition == p
    ensures |RowsFrom(order[..k], p)| < |RowsFrom(order[..l], p)|
  {
    assert order[..l][..k] == order[..k];
    CountBefore(order[..l], p, k);
  }
}