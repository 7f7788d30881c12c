/**
 Deriving the shape of a result from nested lists, which gives back the shapes that the
 lists were nested with (GetRowShapes and GetArrowResultShapeData of result_shape.cc).
 */
module ShapeDerivation {
  import opened Wrappers
  import opened Sequences
  import opened MixedRadix
  import opened ResultShapes
  import opened ListOffsets

  // An Arrow array of numbers, nested in list arrays, whose lists may all have one size.
  datatype ListArray =
    | Values(count: nat)
    | ListOf(offsets: seq<nat>, values: ListArray)
    | FixedListOf(size: nat, count: nat, values: ListArray)

  function Length(a: ListArray): nat
  {
    match a
    case Values(count) => count
    case ListOf(offsets, _) => if offsets == [] then 0 else |offsets| - 1
    case FixedListOf(_, count, _) => count
  }

  function ValueLength(offsets: seq<nat>, i: nat): int
    requires i + 1 < |offsets|
  {
    offsets[i + 1] as int - offsets[i]
  }

  // Every list array has a list, so that the length of its first one can be looked at, unless
  // all have one size; and its lists lie within the array below.
  ghost predicate Populated(a: ListArray)
  {
    match a
    case Values(_) => true
    case ListOf(offsets, values) => AscendsTo(offsets, Length(values)) && Populated(values)
    case FixedListOf(size, count, values) => FixedWithin(size, count, Length(values)) && Populated(values)
  }

  ghost predicate FixedWithin(size: nat, count: nat, bound: nat)
  {
    Times(count, size) <= bound
  }

  // Where list i of lists of one size begins.
  function Times(i: nat, size: nat): nat
  {
    if i == 0 then 0 else Times(i - 1, size) + size
  }

  lemma {:induction false} TimesIsProduct(i: nat, size: nat)
    ensures Times(i, size) == i * size
  {
    if i > 0 {
      TimesIsProduct(i - 1, size);
      assert (i - 1) * size + size == i * size;
    }
  }

  ghost predicate AscendsTo(offsets: seq<nat>, bound: nat)
  {
    && |offsets| > 1
    && (forall i :: 0 <= i < |offsets| - 1 ==> ValueLength(offsets, i) >= 0)
    && forall i :: 0 <= i < |offsets| ==> offsets[i] <= bound
  }

  // The first of the lists from start exists, in every dimension: where a list is empty, the
  // program looks at the one after it.
  ghost predicate Readable(a: ListArray, start: nat, end: nat)
    requires Populated(a) && start <= end <= Length(a)
  {
    match a
    case Values(_) => true
    case ListOf(offsets, values) =>
      && start < Length(a)
      && Readable(values, offsets[start], (Ascending(offsets, Length(values), start, end); offsets[end]))
    case FixedListOf(size, count, values) =>
      FixedRange(size, count, Length(values), start, end);
      Readable(values, Times(start, size), Times(end, size))
  }

  lemma FixedRange(size: nat, count: nat, bound: nat, start: nat, end: nat)
    requires FixedWithin(size, count, bound) && start <= end <= count
    ensures Times(start, size) <= Times(end, size) <= bound
  {
    TimesMonotone(size, start, end);
    TimesMonotone(size, end, count);
  }

  lemma {:induction false} TimesMonotone(size: nat, i: nat, k: nat)
    requires i <= k
    ensures Times(i, size) <= Times(k, size)
    decreases k
  {
    if i < k {
      TimesMonotone(size, i, k - 1);
    }
  }

  // All lists of one array are as long as its first.
  predicate Uniform(offsets: seq<nat>, lo: nat, hi: nat)
    requires lo <= hi < |offsets|
  {
    forall i :: lo <= i < hi ==> ValueLength(offsets, i) == ValueLength(offsets, lo)
  }

  ghost predicate AllUniform(a: ListArray)
    requires Populated(a)
  {
    match a
    case Values(_) => true
    case ListOf(offsets, values) => Uniform(offsets, 0, |offsets| - 1) && AllUniform(values)
    case FixedListOf(_, _, values) => AllUniform(values)
  }

  function Depth(a: ListArray): nat
  {
    match a
    case Values(_) => 0
    case ListOf(_, values) => 1 + Depth(values)
    case FixedListOf(_, _, values) => 1 + Depth(values)
  }

  // The lengths of the first lists, outermost first.
  function FirstLengths(a: ListArray): (lengths: seq<nat>)
    requires Populated(a)
    ensures |lengths| == Depth(a)
  {
    match a
    case Values(_) => []
    case ListOf(offsets, values) =>
      assert ValueLength(offsets, 0) >= 0;
      [ValueLength(offsets, 0)] + FirstLengths(values)
    case FixedListOf(size, _, values) => [size] + FirstLengths(values)
  }

  lemma {:induction false} Ascending(offsets: seq<nat>, bound: nat, i: nat, j: nat)
    requires AscendsTo(offsets, bound) && i <= j < |offsets|
    ensures offsets[i] <= offsets[j] <= bound
    decreases j
  {
    if i < j {
      assert ValueLength(offsets, j - 1) >= 0;
      Ascending(offsets, bound, i, j - 1);
    }
  }

  // The lists from start to end, as the cell of one row: their common length, and so on
  // inwards. It fails where the lists of one dimension differ in length.
  function RowExtents(a: ListArray, start: nat, end: nat): Result<seq<nat>>
    requires Populated(a) && start <= end <= Length(a) && Readable(a, start, end)
  {
    match a
    case Values(_) => Success([])
    case ListOf(offsets, values) =>
      if !Uniform(offsets, start, end) then Failure(Invalid)
      else
        Ascending(offsets, Length(values), start, end);
        assert ValueLength(offsets, start) >= 0;
        (match RowExtents(values, offsets[start], offsets[end])
         case Failure(e) => Failure(e)
         case Success(inner) => Success([ValueLength(offsets, start)] + inner))
    case FixedListOf(size, count, values) =>
      FixedRange(size, count, Length(values), start, end);
      match RowExtents(values, Times(start, size), Times(end, size))
      case Failure(e) => Failure(e)
      case Success(inner) => Success([size] + inner)
  }

  // ----- what those extents mean, said of the lists

  // The array e levels inwards, and where item i of the outer one begins there.
  ghost function Level(a: ListArray, e: nat): ListArray
  {
    if e == 0 || a.Values? then a else Level(a.values, e - 1)
  }

  ghost function EntryAt(a: ListArray, i: nat, e: nat): nat
  {
    if e == 0 then i
    else
      match a
      case Values(_) => i
      case ListOf(offsets, values) => if i < |offsets| then EntryAt(values, offsets[i], e - 1) else 0
      case FixedListOf(size, _, values) => EntryAt(values, i * size, e - 1)
  }

  ghost function ListLength(a: ListArray, i: nat): int
  {
    match a
    case Values(_) => 0
    case ListOf(offsets, _) => if i + 1 < |offsets| then offsets[i + 1] as int - offsets[i] else 0
    case FixedListOf(size, _, _) => size
  }

  // The list that the items from start begin with, and all others of them, have the length.
  ghost predicate ListsHave(a: ListArray, start: nat, end: nat, e: nat, length: int)
  {
    && ListLength(Level(a, e), EntryAt(a, start, e)) == length
    && forall i :: EntryAt(a, start, e) <= i < EntryAt(a, end, e) ==> ListLength(Level(a, e), i) == length
  }

  ghost predicate ListsDiffer(a: ListArray, start: nat, end: nat, e: nat)
  {
    !ListsHave(a, start, end, e, ListLength(Level(a, e), EntryAt(a, start, e)))
  }

  ghost predicate AreExtents(a: ListArray, start: nat, end: nat, extents: seq<nat>)
  {
    |extents| == Depth(a) && forall e :: 0 <= e < Depth(a) ==> ListsHave(a, start, end, e, extents[e])
  }

  ghost predicate SomeDiffer(a: ListArray, start: nat, end: nat)
  {
    exists e :: 0 <= e < Depth(a) && ListsDiffer(a, start, end, e)
  }

  // The lists of the array itself have the extent, and those further in the others.
  lemma OneMoreLevel(a: ListArray, start: nat, end: nat, lo: nat, hi: nat, extent: nat, inner: seq<nat>)
    requires !a.Values? && AreExtents(a.values, lo, hi, inner) && ListsHave(a, start, end, 0, extent)
    requires forall e :: 0 <= e < Depth(a.values) ==>
               && EntryAt(a, start, e + 1) == EntryAt(a.values, lo, e)
               && EntryAt(a, end, e + 1) == EntryAt(a.values, hi, e)
    ensures AreExtents(a, start, end, [extent] + inner)
  {
    forall e | 0 <= e < Depth(a)
      ensures ListsHave(a, start, end, e, ([extent] + inner)[e])
    {
      if e > 0 {
        assert ListsHave(a.values, lo, hi, e - 1, inner[e - 1]);
        assert EntryAt(a, start, e - 1 + 1) == EntryAt(a.values, lo, e - 1);
      }
    }
  }

  lemma DifferBelow(a: ListArray, start: nat, end: nat, lo: nat, hi: nat)
    requires !a.Values? && SomeDiffer(a.values, lo, hi)
    requires forall e :: 0 <= e < Depth(a.values) ==>
               && EntryAt(a, start, e + 1) == EntryAt(a.values, lo, e)
               && EntryAt(a, end, e + 1) == EntryAt(a.values, hi, e)
    ensures SomeDiffer(a, start, end)
  {
    var e :| 0 <= e < Depth(a.values) && ListsDiffer(a.values, lo, hi, e);
    assert ListsDiffer(a, start, end, e + 1);
  }

  lemma UniformHave(offsets: seq<nat>, values: ListArray, start: nat, end: nat)
    requires start <= end < |offsets| && start < |offsets| - 1 && Uniform(offsets, start, end)
    ensures ListsHave(ListOf(offsets, values), start, end, 0, ValueLength(offsets, start))
  {
    forall i | start <= i < end
      ensures ListLength(ListOf(offsets, values), i) == ValueLength(offsets, start)
    {
      assert ValueLength(offsets, i) == ValueLength(offsets, start);
    }
  }

  /**
   The extents found are the lengths of all lists at each level within the items; none are found
   exactly if two lists of one level differ.
   */
  lemma {:induction false} ExtentsAreLengths(a: ListArray, start: nat, end: nat)
    requires Populated(a) && start <= end <= Length(a) && Readable(a, start, end)
    ensures RowExtents(a, start, end).Success? ==> AreExtents(a, start, end, RowExtents(a, start, end).value)
    ensures RowExtents(a, start, end).Failure? ==> SomeDiffer(a, start, end)
  {
    match a {
      case Values(_) =>
      case ListOf(offsets, values) =>
        if Uniform(offsets, start, end) {
          Ascending(offsets, Length(values), start, end);
          assert ValueLength(offsets, start) >= 0;
          UniformHave(offsets, values, start, end);
          ExtentsAreLengths(values, offsets[start], offsets[end]);
          if RowExtents(values, offsets[start], offsets[end]).Success? {
            OneMoreLevel(a, start, end, offsets[start], offsets[end], ValueLength(offsets, start),
                RowExtents(values, offsets[start], offsets[end]).value);
          } else {
            DifferBelow(a, start, end, offsets[start], offsets[end]);
          }
        } else {
          var i :| start <= i < end && ValueLength(offsets, i) != ValueLength(offsets, start);
          assert ListLength(a, i) != ListLength(a, start);
          assert ListsDiffer(a, start, end, 0);
        }
      case FixedListOf(size, count, values) =>
        FixedRange(size, count, Length(values), start, end);
        TimesIsProduct(start, size);
        TimesIsProduct(end, size);
        assert ListsHave(a, start, end, 0, size);
        ExtentsAreLengths(values, Times(start, size), Times(end, size));
        if RowExtents(values, Times(start, size), Times(end, size)).Success? {
          OneMoreLevel(a, start, end, Times(start, size), Times(end, size), size,
              RowExtents(values, Times(start, size), Times(end, size)).value);
        } else {
          DifferBelow(a, start, end, Times(start, size), Times(end, size));
        }
    }
  }

  lemma ExtentsAreUnique(a: ListArray, start: nat, end: nat, x: seq<nat>, y: seq<nat>)
    requires AreExtents(a, start, end, x) && AreExtents(a, start, end, y)
    ensures x == y && !SomeDiffer(a, start, end)
  {
    forall e | 0 <= e < Depth(a)
      ensures x[e] == y[e] && !ListsDiffer(a, start, end, e)
    {
      assert ListsHave(a, start, end, e, x[e]) && ListsHave(a, start, end, e, y[e]);
    }
  }

  // What is found within further dimensions, after the extents of those outside.
  ghost function Outside(found: seq<nat>, inner: Result<seq<nat>>): Result<seq<nat>>
  {
    match inner
    case Failure(e) => Failure(e)
    case Success(extents) => Success(found + extents)
  }

  lemma OutsideNothing(inner: Result<seq<nat>>)
    ensures Outside([], inner) == inner
  {
    match inner {
      case Failure(_) =>
      case Success(extents) => assert [] + extents == extents;
    }
  }

  lemma OutsideOne(found: seq<nat>, extent: nat, inner: Result<seq<nat>>)
    ensures Outside(found, Outside([extent], inner)) == Outside(found + [extent], inner)
  {
    match inner {
      case Failure(_) =>
      case Success(extents) => assert found + ([extent] + extents) == found + [extent] + extents;
    }
  }

  // ----- the program

  method SameLengths(offsets: seq<nat>, lo: nat, hi: nat) returns (same: bool)
    requires lo <= hi < |offsets| && lo < |offsets| - 1
    ensures same == Uniform(offsets, lo, hi)
  {
    var size := ValueLength(offsets, lo);
    var i := lo + 1;
    while i < hi
      invariant lo < i
      invariant forall k :: lo <= k < i && k < hi ==> ValueLength(offsets, k) == size
    {
      if size != ValueLength(offsets, i) {
        return false;
      }
      i := i + 1;
    }
    return true;
  }

  method GetRowExtents(data: ListArray, r: nat) returns (extents: Result<seq<nat>>)
    requires Populated(data) && r < Length(data) && RowReadable(data, r)
    ensures extents == RowExtents(data, r, r + 1)
  {
    var tmp := data;
    var start: nat, end: nat := r, r + 1;
    var found: seq<nat> := [];
    ghost var whole := RowExtents(data, r, r + 1);
    OutsideNothing(whole);
    while !tmp.Values?
      invariant Populated(tmp) && start <= end <= Length(tmp) && Readable(tmp, start, end)
      invariant whole == Outside(found, RowExtents(tmp, start, end))
      decreases tmp
    {
      ghost var before := found;
      if tmp.FixedListOf? {
        ghost var size := tmp.size;
        FixedRange(tmp.size, tmp.count, Length(tmp.values), start, end);
        found := found + [tmp.size];
        TimesIsProduct(start, tmp.size);
        TimesIsProduct(end, tmp.size);
        start, end, tmp := start * tmp.size, end * tmp.size, tmp.values;
        OutsideOne(before, size, RowExtents(tmp, start, end));
      } else {
        var same := SameLengths(tmp.offsets, start, end);
        if !same {
          return Failure(Invalid);
        }
        ghost var extent := ValueLength(tmp.offsets, start);
        Ascending(tmp.offsets, Length(tmp.values), start, end);
        assert extent >= 0;
        found := found + [ValueLength(tmp.offsets, start)];
        start, end, tmp := tmp.offsets[start], tmp.offsets[end], tmp.values;
        OutsideOne(before, extent, RowExtents(tmp, start, end));
      }
    }
    assert found + [] == found;
    return Success(found);
  }

  ghost predicate RowReadable(data: ListArray, r: nat)
    requires Populated(data) && r < Length(data)
  {
    Readable(data, r, r + 1)
  }

  ghost predicate RowsReadable(data: ListArray)
    requires Populated(data)
  {
    forall r :: 0 <= r < Length(data) ==> RowReadable(data, r)
  }

  function RowShape(data: ListArray, r: nat): Result<Shape>
    requires Populated(data) && r < Length(data) && RowReadable(data, r)
  {
    match RowExtents(data, r, r + 1)
    case Failure(e) => Failure(e)
    case Success(extents) => Success(Reversed(extents))
  }

  lemma ReversedTwice(s: seq<nat>)
    ensures Reversed(Reversed(s)) == s
  {
  }

  // Every list of the row, at each level, is as long as the shape says.
  ghost predicate IsRowShape(data: ListArray, r: nat, shape: Shape)
  {
    AreExtents(data, r, r + 1, Reversed(shape))
  }

  /** A row has a shape exactly if its lists have those lengths, and none exactly if two of one level differ. */
  lemma RowShapeMeans(data: ListArray, r: nat, shape: Shape)
    requires Populated(data) && r < Length(data) && RowReadable(data, r)
    ensures RowShape(data, r) == Success(shape) <==> IsRowShape(data, r, shape)
    ensures RowShape(data, r).Failure? <==> RowDiffers(data, r)
  {
    ExtentsAreLengths(data, r, r + 1);
    ReversedTwice(shape);
    match RowExtents(data, r, r + 1) {
      case Failure(_) =>
        if IsRowShape(data, r, shape) {
          ExtentsAreUnique(data, r, r + 1, Reversed(shape), Reversed(shape));
        }
      case Success(extents) =>
        ReversedTwice(extents);
        ExtentsAreUnique(data, r, r + 1, extents, extents);
        if IsRowShape(data, r, shape) {
          ExtentsAreUnique(data, r, r + 1, extents, Reversed(shape));
        }
    }
  }

  // The shapes of the first n rows, if each row has one.
  function RowShapes(data: ListArray, n: nat): (shapes: Result<seq<Shape>>)
    requires Populated(data) && n <= Length(data) && RowsReadable(data)
    ensures shapes.Success? ==> |shapes.value| == n
  {
    if n == 0 then Success([])
    else
      match RowShapes(data, n - 1)
      case Failure(e) => Failure(e)
      case Success(before) =>
        match RowShape(data, n - 1)
        case Failure(e) => Failure(e)
        case Success(shape) => Success(before + [shape])
  }

  ghost predicate AreRowShapes(data: ListArray, shapes: seq<Shape>)
  {
    |shapes| == Length(data) && forall r :: 0 <= r < |shapes| ==> IsRowShape(data, r, shapes[r])
  }

  ghost predicate RowDiffers(data: ListArray, r: nat)
  {
    SomeDiffer(data, r, r + 1)
  }

  // In some row the lists of one level differ in length.
  ghost predicate SomeRowDiffers(data: ListArray)
  {
    exists r :: 0 <= r < Length(data) && RowDiffers(data, r)
  }

  lemma {:induction false} RowShapesMean(data: ListArray, n: nat)
    requires Populated(data) && n <= Length(data) && RowsReadable(data)
    ensures RowShapes(data, n).Success? ==>
              forall r :: 0 <= r < n ==> IsRowShape(data, r, RowShapes(data, n).value[r]) && !RowDiffers(data, r)
    ensures RowShapes(data, n).Failure? ==> exists r :: 0 <= r < n && RowDiffers(data, r)
  {
    if n > 0 {
      RowShapesMean(data, n - 1);
      var shape := RowShape(data, n - 1);
      RowShapeMeans(data, n - 1, if shape.Success? then shape.value else []);
    }
  }

  method GetRowShapes(data: ListArray) returns (shapes: Result<seq<Shape>>)
    requires Populated(data) && RowsReadable(data)
    ensures shapes == RowShapes(data, Length(data))
    ensures shapes.Success? ==> AreRowShapes(data, shapes.value)
    ensures shapes.Failure? <==> SomeRowDiffers(data)
  {
    RowShapesMean(data, Length(data));
    var result: seq<Shape> := [];
    ghost var n := Length(data);
    for r := 0 to Length(data)
      invariant RowShapes(data, r) == Success(result)
    {
      var extents := GetRowExtents(data, r);
      if extents.Failure? {
        FailureStays(data, r + 1, n);
        return Failure(extents.error);
      }
      result := result + [Reversed(extents.value)];
    }
    return Success(result);
  }

  lemma {:induction false} FailureStays(data: ListArray, m: nat, n: nat)
    requires Populated(data) && RowsReadable(data) && m <= n <= Length(data) && RowShapes(data, m).Failure?
    ensures RowShapes(data, n) == RowShapes(data, m)
  {
    if m < n {
      FailureStays(data, m, n - 1);
    }
  }

  // The shape of populated lists: fixed when every dimension is uniform, and otherwise
  // the shape of every row.
  ghost function DerivedShape(data: ListArray): Result<ResultShape>
    requires Populated(data) && (!AllUniform(data) ==> RowsReadable(data))
  {
    if AllUniform(data) then
      Success(Fixed(Reversed([Length(data)] + FirstLengths(data)), None))
    else
      match RowShapes(data, Length(data))
      case Failure(e) => Failure(e)
      case Success(shapes) => Success(Varying(1 + Depth(data), shapes))
  }

  // At every level all lists are as long as the first.
  ghost predicate IsUniform(a: ListArray)
  {
    forall e :: 0 <= e < Depth(a) ==> LevelIsUniform(Level(a, e))
  }

  ghost predicate LevelIsUniform(a: ListArray)
  {
    forall i :: 0 <= i < Length(a) ==> ListLength(a, i) == ListLength(a, 0)
  }

  // The lengths of the first lists, from the innermost outwards, and the number of all.
  ghost predicate AreFirstLengths(shape: Shape, a: ListArray)
  {
    && |shape| == Depth(a) + 1 && shape[Depth(a)] == Length(a)
    && forall e :: 0 <= e < Depth(a) ==> shape[Depth(a) - 1 - e] == ListLength(Level(a, e), 0)
  }

  // Fixed exactly if all lists of each level are equally long, and otherwise the shape of each row.
  ghost predicate IsShapeOf(result: ResultShape, a: ListArray)
  {
    match result
    case Fixed(shape, extents) => extents.None? && IsUniform(a) && AreFirstLengths(shape, a)
    case Varying(ndim, shapes) => !IsUniform(a) && ndim == Depth(a) + 1 && AreRowShapes(a, shapes)
  }

  lemma {:induction false} FirstLengthsMean(a: ListArray)
    requires Populated(a)
    ensures AllUniform(a) <==> IsUniform(a)
    ensures forall e :: 0 <= e < Depth(a) ==> FirstLengths(a)[e] == ListLength(Level(a, e), 0)
  {
    if !a.Values? {
      FirstLengthsMean(a.values);
      FirstLevel(a);
      forall e | 0 < e < Depth(a)
        ensures FirstLengths(a)[e] == ListLength(Level(a, e), 0)
      {
        assert Level(a, e) == Level(a.values, e - 1);
      }
    }
  }

  lemma FirstLevel(a: ListArray)
    requires Populated(a) && !a.Values?
    ensures IsUniform(a) <==> LevelIsUniform(a) && IsUniform(a.values)
    ensures a.ListOf? ==> (LevelIsUniform(a) <==> Uniform(a.offsets, 0, |a.offsets| - 1))
  {
    assert Level(a, 0) == a;
    forall e | 0 <= e < Depth(a.values)
      ensures Level(a, e + 1) == Level(a.values, e)
    {
    }
    if a.ListOf? {
      forall i | 0 <= i < Length(a)
        ensures ListLength(a, i) == ValueLength(a.offsets, i)
      {
      }
    }
    if IsUniform(a) {
      forall e | 0 <= e < Depth(a.values)
        ensures LevelIsUniform(Level(a.values, e))
      {
        assert LevelIsUniform(Level(a, e + 1));
      }
    }
    if LevelIsUniform(a) && IsUniform(a.values) {
      forall e | 0 <= e < Depth(a)
        ensures LevelIsUniform(Level(a, e))
      {
        assert e > 0 ==> LevelIsUniform(Level(a.values, e - 1));
      }
    }
  }

  lemma DerivedShapeMeans(data: ListArray)
    requires Populated(data) && (!AllUniform(data) ==> RowsReadable(data))
    ensures DerivedShape(data).Success? ==> IsShapeOf(DerivedShape(data).value, data)
    ensures DerivedShape(data).Failure? <==> !IsUniform(data) && SomeRowDiffers(data)
  {
    FirstLengthsMean(data);
    if AllUniform(data) {
      FirstLengthsAreShape(data, FirstLengths(data));
    } else {
      RowShapesMean(data, Length(data));
    }
  }

  lemma FirstLengthsAreShape(data: ListArray, lengths: seq<nat>)
    requires |lengths| == Depth(data)
    requires forall e :: 0 <= e < Depth(data) ==> lengths[e] == ListLength(Level(data, e), 0)
    ensures AreFirstLengths(Reversed([Length(data)] + lengths), data)
  {
    forall e | 0 <= e < Depth(data)
      ensures Reversed([Length(data)] + lengths)[Depth(data) - 1 - e] == ListLength(Level(data, e), 0)
    {
      assert ([Length(data)] + lengths)[e + 1] == lengths[e];
    }
  }

  method GetArrowResultShapeData(data: ListArray) returns (r: Result<ResultShape>)
    requires Populated(data) && (!AllUniform(data) ==> RowsReadable(data))
    ensures r == DerivedShape(data)
    ensures r.Success? ==> IsShapeOf(r.value, data)
    ensures r.Failure? <==> !IsUniform(data) && SomeRowDiffers(data)
  {
    DerivedShapeMeans(data);
    r := DeriveShape(data);
  }

  method DeriveShape(data: ListArray) returns (r: Result<ResultShape>)
    requires Populated(data) && (!AllUniform(data) ==> RowsReadable(data))
    ensures r == DerivedShape(data)
  {
    var fixed := true;
    var shape: seq<nat> := [Length(data)];
    var ndim := 1;
    var tmp := data;
    while !tmp.Values?
      invariant Populated(tmp) && ndim + Depth(tmp) == 1 + Depth(data)
      invariant AllUniform(data) <==> fixed && AllUniform(tmp)
      invariant fixed ==> shape + FirstLengths(tmp) == [Length(data)] + FirstLengths(data)
      decreases tmp
    {
      ndim := ndim + 1;
      if fixed && tmp.FixedListOf? {
        shape := shape + [tmp.size];
      } else if fixed {
        assert ValueLength(tmp.offsets, 0) >= 0;
        var same := SameLengths(tmp.offsets, 0, |tmp.offsets| - 1);
        if same {
          shape := shape + [ValueLength(tmp.offsets, 0)];
        } else {
          fixed := false;
        }
      }
      tmp := tmp.values;
    }
    if fixed {
      assert shape == [Length(data)] + FirstLengths(data);
      return Success(Fixed(Reversed(shape), None));
    }
    var shapes := GetRowShapes(data);
    if shapes.Failure? {
      return Failure(shapes.error);
    }
    return Success(Varying(ndim, shapes.value));
  }

  lemma ReversedStep(shape: Shape, d: nat)
    requires d < |shape|
    ensures Reversed(shape[..d + 1]) == [shape[d]] + Reversed(shape[..d])
  {
  }

  // ----- complex numbers, which are lists of two parts

  ghost predicate IsPair(shape: Shape)
  {
    shape != [] && shape[0] == 2
  }

  ghost predicate HasPairs(result: ResultShape)
  {
    match result
    case Fixed(shape, _) => IsPair(shape)
    case Varying(_, shapes) => forall r :: 0 <= r < |shapes| ==> IsPair(shapes[r])
  }

  // The same shape, with pairs for elements.
  ghost predicate IsPairsOf(pairs: ResultShape, plain: ResultShape)
  {
    match pairs
    case Fixed(shape, extents) => plain.Fixed? && shape == [2] + plain.shape && extents.None? && plain.extents.None?
    case Varying(ndim, shapes) =>
      && plain.Varying? && ndim == plain.ndim + 1 && |shapes| == |plain.rowShapes|
      && forall r :: 0 <= r < |shapes| ==> shapes[r] == [2] + plain.rowShapes[r]
  }

  /** The shape of data, or of its pairs if it is complex; the innermost lists of that must be pairs. */
  method GetResultShapeData(data: ListArray, isComplex: bool) returns (r: Result<ResultShape>)
    requires Populated(data) && (!AllUniform(data) ==> RowsReadable(data))
    ensures !isComplex ==> r == DerivedShape(data)
    ensures r.Success? && isComplex ==> DerivedShape(data).Success? && IsPairsOf(DerivedShape(data).value, r.value)
    ensures r.Failure? && isComplex ==> DerivedShape(data) == r || (DerivedShape(data).Success?
                                          && r.error == Invalid && !HasPairs(DerivedShape(data).value))
  {
    r := GetArrowResultShapeData(data);
    if r.Failure? || !isComplex {
      return;
    }
    match r.value {
      case Fixed(shape, _) =>
        if shape == [] || shape[0] != 2 {
          return Failure(Invalid);
        }
        return Success(Fixed(shape[1..], None));
      case Varying(ndim, shapes) =>
        var plain: seq<Shape> := [];
        for i := 0 to |shapes|
          invariant |plain| == i && forall k :: 0 <= k < i ==> shapes[k] == [2] + plain[k]
        {
          if shapes[i] == [] || shapes[i][0] != 2 {
            return Failure(Invalid);
          }
          plain := plain + [shapes[i][1..]];
        }
        return Success(Varying(ndim - 1, plain));
    }
  }

  // ----- lists of one size, which fixed results are nested in by default

  // The innermost d dimensions of a buffer, nested in lists of the extents of a cell.
  function NestFixed(cell: Shape, count: nat, d: nat): (a: ListArray)
    requires d <= |cell| && forall e :: 0 <= e < |cell| ==> cell[e] > 0
    ensures Depth(a) == d
  {
    if d == 0 then Values(count)
    else
      var values := NestFixed(cell, count, d - 1);
      FixedListOf(cell[d - 1], Length(values) / cell[d - 1], values)
  }

  method NestFixedLists(cell: Shape, count: nat) returns (a: ListArray)
    requires forall e :: 0 <= e < |cell| ==> cell[e] > 0
    ensures a == NestFixed(cell, count, |cell|)
  {
    a := Values(count);
    for d := 0 to |cell|
      invariant a == NestFixed(cell, count, d)
    {
      a := FixedListOf(cell[d], Length(a) / cell[d], a);
    }
  }

  // The lists of dimension d in each cell.
  function InnerLists(cell: Shape, d: nat): nat
    requires d <= |cell|
    decreases |cell| - d
  {
    if d == |cell| then 1 else cell[d] * InnerLists(cell, d + 1)
  }

  lemma {:induction false} ElementsOfCell(cell: Shape, d: nat)
    requires d <= |cell|
    ensures Stride(cell, d) * InnerLists(cell, d) == Product(cell)
    decreases |cell| - d
  {
    if d < |cell| {
      ElementsOfCell(cell, d + 1);
      Regroup(1, Stride(cell, d), InnerLists(cell, d + 1), cell[d]);
    }
  }

  lemma LengthOfFixed(n: nat, size: nat, inner: nat, length: nat)
    requires size > 0 && length == n * (size * inner)
    ensures length / size == n * inner && (length / size) * size == length
  {
    assert length == size * (n * inner) + 0;
    DivUnique(length, size, n * inner, 0);
  }

  lemma {:induction false} FixedNest(cell: Shape, n: nat, count: nat, d: nat)
    requires d <= |cell| && count == n * InnerLists(cell, 0) && forall e :: 0 <= e < |cell| ==> cell[e] > 0
    ensures Length(NestFixed(cell, count, d)) == n * InnerLists(cell, d)
    ensures Populated(NestFixed(cell, count, d)) && AllUniform(NestFixed(cell, count, d))
    ensures FirstLengths(NestFixed(cell, count, d)) == Reversed(cell[..d])
  {
    if d > 0 {
      FixedNest(cell, n, count, d - 1);
      var length := Length(NestFixed(cell, count, d - 1));
      LengthOfFixed(n, cell[d - 1], InnerLists(cell, d), length);
      TimesIsProduct(length / cell[d - 1], cell[d - 1]);
      ReversedStep(cell, d - 1);
    }
  }

  // ----- the shapes that lists were nested with

  // An array of elements, nested in lists of the innermost d dimensions.
  function Nest(offsets: seq<seq<nat>>, base: ListArray, d: nat): (a: ListArray)
    requires d <= |offsets|
    ensures Depth(a) == Depth(base) + d
  {
    if d == 0 then base else ListOf(offsets[d - 1], Nest(offsets, base, d - 1))
  }

  /** Nests elements as the reads do, from the innermost dimension outwards. */
  method NestLists(offsets: seq<seq<nat>>, base: ListArray) returns (a: ListArray)
    ensures a == Nest(offsets, base, |offsets|)
  {
    a := base;
    for d := 0 to |offsets|
      invariant a == Nest(offsets, base, d)
    {
      a := ListOf(offsets[d], a);
    }
  }

  // Cells of one rank, none of them empty.
  ghost predicate Solid(shapes: seq<Shape>, k: nat)
  {
    && |shapes| > 0 && k > 0
    && forall r :: 0 <= r < |shapes| ==> |shapes[r]| == k && forall d :: 0 <= d < k ==> shapes[r][d] > 0
  }

  // The first entry of row r in the lists of the innermost d dimensions.
  ghost function Begin(shapes: seq<Shape>, k: nat, d: nat, r: nat): nat
    requires AllOfRank(shapes, k) && 0 < k && d <= k && r <= |shapes|
  {
    if d == 0 then EntryCount(shapes, k, 0, r) else ListCount(shapes, k, d - 1, r)
  }

  lemma BeginIsEntryCount(shapes: seq<Shape>, k: nat, d: nat, r: nat)
    requires Solid(shapes, k) && d < k && r <= |shapes|
    ensures Begin(shapes, k, d, r) == EntryCount(shapes, k, d, r)
  {
    if d > 0 {
      EntriesAreLists(shapes, k, d - 1, r);
    }
  }

  lemma {:induction false} ListsPositive(shape: Shape, k: nat, d: nat)
    requires d < k == |shape| && forall e :: 0 <= e < k ==> shape[e] > 0
    ensures Lists(shape, k, d) > 0
    decreases k - d
  {
    if d + 1 < k {
      ListsPositive(shape, k, d + 1);
      MulMonotone(Lists(shape, k, d + 1), 1, shape[d + 1]);
    }
  }

  // The row that a list of dimension d belongs to.
  lemma {:induction false} RowOfList(shapes: seq<Shape>, k: nat, d: nat, n: nat, i: nat) returns (r: nat)
    requires AllOfRank(shapes, k) && d < k && n <= |shapes| && i < ListCount(shapes, k, d, n)
    ensures r < n && ListCount(shapes, k, d, r) <= i < ListCount(shapes, k, d, r + 1)
  {
    if ListCount(shapes, k, d, n - 1) <= i {
      r := n - 1;
    } else {
      r := RowOfList(shapes, k, d, n - 1, i);
    }
  }

  // Every list of a row is as long as the extent of its cell.
  lemma LengthInRow(shapes: seq<Shape>, k: nat, d: nat, r: nat, i: nat)
    requires Solid(shapes, k) && d < k && r < |shapes|
    requires ListCount(shapes, k, d, r) <= i < ListCount(shapes, k, d, r + 1)
    ensures i + 1 < |LevelOffsets(shapes, k, d, |shapes|)|
    ensures ValueLength(LevelOffsets(shapes, k, d, |shapes|), i) == shapes[r][d]
  {
    var q := i - ListCount(shapes, k, d, r);
    OffsetOfList(shapes, k, d, r, q);
    OffsetOfList(shapes, k, d, r, q + 1);
    OneMore(q, DimOf(shapes[r], d));
  }

  lemma OneMore(q: nat, size: nat)
    ensures (q + 1) * size == q * size + size
  {
  }

  lemma FirstInRow(shapes: seq<Shape>, k: nat, d: nat, r: nat)
    requires Solid(shapes, k) && d < k && r < |shapes|
    ensures ListCount(shapes, k, d, r) + 1 < |LevelOffsets(shapes, k, d, |shapes|)|
    ensures ValueLength(LevelOffsets(shapes, k, d, |shapes|), ListCount(shapes, k, d, r)) == shapes[r][d]
  {
    ListsPositive(shapes[r], k, d);
    LengthInRow(shapes, k, d, r, ListCount(shapes, k, d, r));
  }

  lemma LevelPopulated(shapes: seq<Shape>, k: nat, d: nat)
    requires Solid(shapes, k) && d < k
    ensures AscendsTo(LevelOffsets(shapes, k, d, |shapes|), EntryCount(shapes, k, d, |shapes|))
  {
    var offsets := LevelOffsets(shapes, k, d, |shapes|);
    FirstInRow(shapes, k, d, 0);
    LevelMonotone(shapes, k, d, |shapes|);
    forall i | 0 <= i < |offsets| - 1
      ensures ValueLength(offsets, i) > 0
    {
      var r := RowOfList(shapes, k, d, |shapes|, i);
      LengthInRow(shapes, k, d, r, i);
      assert shapes[r][d] > 0;
    }
  }

  // Elements that are lists of one size themselves, such as the two parts of a complex number, or
  // without an inner shape are numbers.
  ghost predicate AreElements(base: ListArray, inner: Shape, count: nat)
  {
    && (forall e :: 0 <= e < |inner| ==> inner[e] > 0)
    && base == NestFixed(inner, Times(count, Product(inner)), |inner|)
  }

  lemma InnerElements(inner: Shape, count: nat)
    ensures Times(count, Product(inner)) == count * InnerLists(inner, 0)
  {
    ElementsOfCell(inner, 0);
    TimesIsProduct(count, Product(inner));
  }

  lemma ElementsAreUniform(base: ListArray, inner: Shape, count: nat)
    requires AreElements(base, inner, count)
    ensures Length(base) == count && Populated(base) && AllUniform(base) && FirstLengths(base) == Reversed(inner)
  {
    InnerElements(inner, count);
    FixedNest(inner, count, Times(count, Product(inner)), |inner|);
    assert inner[..|inner|] == inner;
  }

  // The offsets of these cells, over all their elements.
  ghost predicate IsNesting(shapes: seq<Shape>, offsets: seq<seq<nat>>, inner: Shape, base: ListArray)
  {
    && Solid(shapes, |offsets|)
    && AreOffsets(offsets, shapes)
    && AreElements(base, inner, RowOffset(shapes, |shapes|))
  }

  lemma LengthOfNest(shapes: seq<Shape>, offsets: seq<seq<nat>>, inner: Shape, base: ListArray, d: nat)
    requires IsNesting(shapes, offsets, inner, base) && d <= |offsets|
    ensures Length(Nest(offsets, base, d)) == Begin(shapes, |offsets|, d, |shapes|)
  {
    EntriesAreElements(shapes, |offsets|, |shapes|);
    ElementsAreUniform(base, inner, RowOffset(shapes, |shapes|));
  }

  lemma {:induction false} NestPopulated(shapes: seq<Shape>, offsets: seq<seq<nat>>, inner: Shape, base: ListArray,
                                         d: nat)
    requires IsNesting(shapes, offsets, inner, base) && d <= |offsets|
    ensures Populated(Nest(offsets, base, d))
  {
    if d > 0 {
      NestPopulated(shapes, offsets, inner, base, d - 1);
      LevelInNest(shapes, offsets, inner, base, d - 1);
      ListPopulated(offsets[d - 1], Nest(offsets, base, d - 1));
    } else {
      ElementsAreUniform(base, inner, RowOffset(shapes, |shapes|));
    }
  }

  lemma LevelInNest(shapes: seq<Shape>, offsets: seq<seq<nat>>, inner: Shape, base: ListArray, d: nat)
    requires IsNesting(shapes, offsets, inner, base) && d < |offsets|
    ensures AscendsTo(offsets[d], Length(Nest(offsets, base, d)))
  {
    assert Length(Nest(offsets, base, d)) == EntryCount(shapes, |offsets|, d, |shapes|) by {
      LengthOfNest(shapes, offsets, inner, base, d);
      BeginIsEntryCount(shapes, |offsets|, d, |shapes|);
    }
    LevelPopulated(shapes, |offsets|, d);
  }

  lemma ListPopulated(offsets: seq<nat>, values: ListArray)
    requires AscendsTo(offsets, Length(values)) && Populated(values)
    ensures Populated(ListOf(offsets, values))
  {
  }

  // The lists of one row stay within the array.
  lemma RowRange(shapes: seq<Shape>, offsets: seq<seq<nat>>, inner: Shape, base: ListArray, d: nat, r: nat)
    requires IsNesting(shapes, offsets, inner, base) && d <= |offsets| && r < |shapes|
    ensures Begin(shapes, |offsets|, d, r) < Begin(shapes, |offsets|, d, r + 1) <= Length(Nest(offsets, base, d))
  {
    LengthOfNest(shapes, offsets, inner, base, d);
    BeginAscends(shapes, |offsets|, d, r);
  }

  lemma BeginAscends(shapes: seq<Shape>, k: nat, d: nat, r: nat)
    requires Solid(shapes, k) && d <= k && r < |shapes|
    ensures Begin(shapes, k, d, r) < Begin(shapes, k, d, r + 1) <= Begin(shapes, k, d, |shapes|)
  {
    if d == 0 {
      ElementsAscend(shapes, k, r);
    } else {
      ListsPositive(shapes[r], k, d - 1);
      ListCountMonotone(shapes, k, d - 1, r + 1, |shapes|);
    }
  }

  lemma ElementsAscend(shapes: seq<Shape>, k: nat, r: nat)
    requires Solid(shapes, k) && r < |shapes|
    ensures EntryCount(shapes, k, 0, r) < EntryCount(shapes, k, 0, r + 1) <= EntryCount(shapes, k, 0, |shapes|)
  {
    EntriesAreElements(shapes, k, r);
    EntriesAreElements(shapes, k, r + 1);
    EntriesAreElements(shapes, k, |shapes|);
    StridePositive(shapes[r], k);
    if r + 1 < |shapes| {
      RowOffsetMonotone(shapes, r + 1, |shapes|);
    }
  }

  ghost predicate AllOfLength(offsets: seq<nat>, start: nat, end: nat, extent: nat)
    requires end < |offsets|
  {
    forall i :: start <= i < end ==> ValueLength(offsets, i) == extent
  }

  // The program finds the first d extents of a shape in the lists from start to end.
  ghost predicate Finds(a: ListArray, start: nat, end: nat, shape: Shape, d: nat)
    requires d <= |shape|
  {
    && Populated(a) && start < end <= Length(a) && Readable(a, start, end)
    && RowExtents(a, start, end) == Success(Reversed(shape[..d]))
  }

  lemma ListFinds(offsets: seq<nat>, values: ListArray, start: nat, end: nat, shape: Shape, d: nat)
    requires Populated(ListOf(offsets, values)) && start < end < |offsets| && d < |shape|
    requires AllOfLength(offsets, start, end, shape[d]) && Finds(values, offsets[start], offsets[end], shape, d)
    ensures Finds(ListOf(offsets, values), start, end, shape, d + 1)
  {
    assert Uniform(offsets, start, end);
    ReversedStep(shape, d);
  }

  lemma FixedFinds(size: nat, count: nat, values: ListArray, start: nat, end: nat, shape: Shape, d: nat)
    requires Populated(FixedListOf(size, count, values)) && start < end <= count && d < |shape| && size == shape[d]
    requires Times(start, size) < Times(end, size)
    requires Finds(values, Times(start, size), Times(end, size), shape, d)
    ensures Finds(FixedListOf(size, count, values), start, end, shape, d + 1)
  {
    ReversedStep(shape, d);
  }

  lemma {:induction false} TimesAscend(size: nat, i: nat, k: nat)
    requires i < k && size > 0
    ensures Times(i, size) < Times(k, size)
  {
    TimesMonotone(size, i, k - 1);
  }

  lemma {:induction false} FixedNestFinds(inner: Shape, n: nat, count: nat, d: nat, start: nat, end: nat, shape: Shape)
    requires d <= |inner| <= |shape| && inner == shape[..|inner|] && forall e :: 0 <= e < |inner| ==> inner[e] > 0
    requires count == n * InnerLists(inner, 0) && start < end <= Length(NestFixed(inner, count, d))
    ensures Finds(NestFixed(inner, count, d), start, end, shape, d)
  {
    FixedNest(inner, n, count, d);
    if d > 0 {
      var values, size := NestFixed(inner, count, d - 1), inner[d - 1];
      FixedRange(size, Length(values) / size, Length(values), start, end);
      TimesAscend(size, start, end);
      FixedNestFinds(inner, n, count, d - 1, Times(start, size), Times(end, size), shape);
      FixedFinds(size, Length(values) / size, values, start, end, shape, d - 1);
    }
  }

  lemma ElementsFind(base: ListArray, inner: Shape, count: nat, start: nat, end: nat, shape: Shape)
    requires AreElements(base, inner, count) && start < end <= count
    ensures Finds(base, start, end, inner + shape, |inner|)
  {
    ElementsAreUniform(base, inner, count);
    InnerElements(inner, count);
    FixedNestFinds(inner, count, Times(count, Product(inner)), |inner|, start, end, inner + shape);
  }

  lemma LengthsInRow(shapes: seq<Shape>, k: nat, d: nat, r: nat, offsets: seq<nat>)
    requires Solid(shapes, k) && d < k && r < |shapes| && offsets == LevelOffsets(shapes, k, d, |shapes|)
    ensures ListCount(shapes, k, d, r + 1) < |offsets|
    ensures AllOfLength(offsets, ListCount(shapes, k, d, r), ListCount(shapes, k, d, r + 1), shapes[r][d])
    ensures offsets[ListCount(shapes, k, d, r)] == EntryCount(shapes, k, d, r)
    ensures offsets[ListCount(shapes, k, d, r + 1)] == EntryCount(shapes, k, d, r + 1)
  {
    OffsetOfList(shapes, k, d, r, 0);
    OffsetOfList(shapes, k, d, r, Lists(shapes[r], k, d));
    forall i | ListCount(shapes, k, d, r) <= i < ListCount(shapes, k, d, r + 1)
      ensures ValueLength(offsets, i) == shapes[r][d]
    {
      LengthInRow(shapes, k, d, r, i);
    }
  }

  // What the program finds within the lists of row r.
  ghost predicate FindsRow(shapes: seq<Shape>, offsets: seq<seq<nat>>, inner: Shape, base: ListArray, d: nat, r: nat)
    requires Solid(shapes, |offsets|) && d <= |offsets| && r < |shapes|
  {
    var k := |offsets|;
    Finds(Nest(offsets, base, d), Begin(shapes, k, d, r), Begin(shapes, k, d, r + 1), inner + shapes[r], |inner| + d)
  }

  ghost predicate IsListRange(offsets: seq<nat>, start: nat, end: nat, extent: nat)
  {
    start < end < |offsets| && AllOfLength(offsets, start, end, extent)
  }

  // The lists of row r in a level begin and end where its entries in that level do.
  lemma ListsOfRow(shapes: seq<Shape>, k: nat, d: nat, r: nat, offsets: seq<nat>)
    requires Solid(shapes, k) && d < k && r < |shapes| && offsets == LevelOffsets(shapes, k, d, |shapes|)
    ensures IsListRange(offsets, Begin(shapes, k, d + 1, r), Begin(shapes, k, d + 1, r + 1), shapes[r][d])
    ensures offsets[Begin(shapes, k, d + 1, r)] == Begin(shapes, k, d, r)
    ensures offsets[Begin(shapes, k, d + 1, r + 1)] == Begin(shapes, k, d, r + 1)
  {
    BeginIsEntryCount(shapes, k, d, r);
    BeginIsEntryCount(shapes, k, d, r + 1);
    LengthsInRow(shapes, k, d, r, offsets);
    ListsPositive(shapes[r], k, d);
  }

  lemma FindsFurther(shapes: seq<Shape>, offsets: seq<seq<nat>>, inner: Shape, base: ListArray, d: nat, r: nat)
    requires Solid(shapes, |offsets|) && d < |offsets| && r < |shapes|
    requires offsets[d] == LevelOffsets(shapes, |offsets|, d, |shapes|) && Populated(Nest(offsets, base, d + 1))
    requires FindsRow(shapes, offsets, inner, base, d, r)
    ensures FindsRow(shapes, offsets, inner, base, d + 1, r)
  {
    var k := |offsets|;
    ListsOfRow(shapes, k, d, r, offsets[d]);
    ListFindsRow(offsets[d], Nest(offsets, base, d), Begin(shapes, k, d + 1, r), Begin(shapes, k, d + 1, r + 1),
        Begin(shapes, k, d, r), Begin(shapes, k, d, r + 1), inner, shapes[r], d);
  }

  lemma ListFindsRow(offsets: seq<nat>, values: ListArray, start: nat, end: nat, lo: nat, hi: nat, inner: Shape,
                     shape: Shape, d: nat)
    requires d < |shape| && Populated(ListOf(offsets, values)) && IsListRange(offsets, start, end, shape[d])
    requires offsets[start] == lo && offsets[end] == hi && Finds(values, lo, hi, inner + shape, |inner| + d)
    ensures Finds(ListOf(offsets, values), start, end, inner + shape, |inner| + d + 1)
  {
    assert (inner + shape)[|inner| + d] == shape[d];
    ListFinds(offsets, values, start, end, inner + shape, |inner| + d);
  }

  /** Within the lists of one row, the program finds the extents of its cell. */
  lemma {:induction false} ExtentsOfRow(shapes: seq<Shape>, offsets: seq<seq<nat>>, inner: Shape, base: ListArray,
                                        d: nat, r: nat)
    requires IsNesting(shapes, offsets, inner, base) && d <= |offsets| && r < |shapes|
    ensures FindsRow(shapes, offsets, inner, base, d, r)
  {
    if d > 0 {
      ExtentsOfRow(shapes, offsets, inner, base, d - 1, r);
      NestPopulated(shapes, offsets, inner, base, d);
      FindsFurther(shapes, offsets, inner, base, d - 1, r);
    } else {
      RowRange(shapes, offsets, inner, base, 0, r);
      ElementsAreUniform(base, inner, RowOffset(shapes, |shapes|));
      ElementsFind(base, inner, RowOffset(shapes, |shapes|), Begin(shapes, |offsets|, 0, r),
          Begin(shapes, |offsets|, 0, r + 1), shapes[r]);
    }
  }

  lemma RowFinds(shapes: seq<Shape>, offsets: seq<seq<nat>>, inner: Shape, base: ListArray, r: nat)
    requires IsNesting(shapes, offsets, inner, base) && r < |shapes|
    ensures Finds(Nest(offsets, base, |offsets|), r, r + 1, inner + shapes[r], |inner + shapes[r]|)
  {
    ExtentsOfRow(shapes, offsets, inner, base, |offsets|, r);
    FindsWhole(shapes, offsets, inner, base, r);
  }

  lemma FindsWhole(shapes: seq<Shape>, offsets: seq<seq<nat>>, inner: Shape, base: ListArray, r: nat)
    requires Solid(shapes, |offsets|) && r < |shapes|
    requires FindsRow(shapes, offsets, inner, base, |offsets|, r)
    ensures Finds(Nest(offsets, base, |offsets|), r, r + 1, inner + shapes[r], |inner + shapes[r]|)
  {
    RowsAreLists(shapes, |offsets|, r);
    RowsAreLists(shapes, |offsets|, r + 1);
    FindsSame(Nest(offsets, base, |offsets|), Begin(shapes, |offsets|, |offsets|, r),
        Begin(shapes, |offsets|, |offsets|, r + 1), r, inner + shapes[r], |inner| + |offsets|);
  }

  lemma FindsSame(a: ListArray, start: nat, end: nat, r: nat, shape: Shape, d: nat)
    requires start == r && end == r + 1 && d == |shape| && Finds(a, start, end, shape, d)
    ensures Finds(a, r, r + 1, shape, |shape|)
  {
  }

  lemma ShapeOfRow(shapes: seq<Shape>, offsets: seq<seq<nat>>, inner: Shape, base: ListArray, r: nat)
    requires IsNesting(shapes, offsets, inner, base) && r < |shapes|
    ensures Populated(Nest(offsets, base, |offsets|)) && Length(Nest(offsets, base, |offsets|)) == |shapes|
    ensures RowReadable(Nest(offsets, base, |offsets|), r)
    ensures RowShape(Nest(offsets, base, |offsets|), r) == Success(inner + shapes[r])
  {
    var k := |offsets|;
    RowsAreLists(shapes, k, |shapes|);
    LengthOfNest(shapes, offsets, inner, base, k);
    RowFinds(shapes, offsets, inner, base, r);
    RowFound(Nest(offsets, base, k), r, inner + shapes[r]);
  }

  lemma RowFound(a: ListArray, r: nat, shape: Shape)
    requires Finds(a, r, r + 1, shape, |shape|)
    ensures RowReadable(a, r) && RowShape(a, r) == Success(shape)
  {
    assert shape[..|shape|] == shape;
    ReversedTwice(shape);
  }

  lemma RowsAreLists(shapes: seq<Shape>, k: nat, r: nat)
    requires Solid(shapes, k) && r <= |shapes|
    ensures Begin(shapes, k, k, r) == r
  {
    EntriesAreLists(shapes, k, k - 1, r);
  }

  // The shapes of cells whose elements have an inner shape.
  function WithInner(inner: Shape, shapes: seq<Shape>): (all: seq<Shape>)
    ensures |all| == |shapes| && forall r :: 0 <= r < |shapes| ==> all[r] == inner + shapes[r]
  {
    seq(|shapes|, r requires 0 <= r < |shapes| => inner + shapes[r])
  }

  lemma NextShape(data: ListArray, all: seq<Shape>, n: nat)
    requires Populated(data) && RowsReadable(data) && 0 < n <= |all| == Length(data)
    requires RowShapes(data, n - 1) == Success(all[..n - 1]) && RowShape(data, n - 1) == Success(all[n - 1])
    ensures RowShapes(data, n) == Success(all[..n])
  {
    assert all[..n] == all[..n - 1] + [all[n - 1]];
  }

  lemma {:induction false} ShapesOfRows(shapes: seq<Shape>, offsets: seq<seq<nat>>, inner: Shape, base: ListArray,
                                        n: nat)
    requires IsNesting(shapes, offsets, inner, base) && n <= |shapes|
    ensures Populated(Nest(offsets, base, |offsets|)) && Length(Nest(offsets, base, |offsets|)) == |shapes|
    ensures RowsReadable(Nest(offsets, base, |offsets|))
    ensures RowShapes(Nest(offsets, base, |offsets|), n) == Success(WithInner(inner, shapes)[..n])
  {
    ShapeOfRow(shapes, offsets, inner, base, 0);
    forall r | 0 <= r < |shapes| ensures RowReadable(Nest(offsets, base, |offsets|), r) {
      ShapeOfRow(shapes, offsets, inner, base, r);
    }
    if n > 0 {
      ShapesOfRows(shapes, offsets, inner, base, n - 1);
      ShapeOfRow(shapes, offsets, inner, base, n - 1);
      NextShape(Nest(offsets, base, |offsets|), WithInner(inner, shapes), n);
    }
  }

  ghost predicate SameShapes(shapes: seq<Shape>)
  {
    forall r, s :: 0 <= r < |shapes| && 0 <= s < |shapes| ==> shapes[r] == shapes[s]
  }

  // The cells agree on the extent of a dimension.
  ghost predicate SameExtent(shapes: seq<Shape>, k: nat, d: nat)
    requires Solid(shapes, k) && d < k
  {
    forall r :: 0 <= r < |shapes| ==> shapes[r][d] == shapes[0][d]
  }

  lemma SameWhereUniform(shapes: seq<Shape>, k: nat, d: nat, offsets: seq<nat>, r: nat)
    requires Solid(shapes, k) && d < k && r < |shapes| && offsets == LevelOffsets(shapes, k, d, |shapes|)
    requires |offsets| > 1 && Uniform(offsets, 0, |offsets| - 1)
    ensures shapes[r][d] == ValueLength(offsets, 0)
  {
    FirstInRow(shapes, k, d, r);
  }

  lemma UniformWhereSame(shapes: seq<Shape>, k: nat, d: nat, offsets: seq<nat>, i: nat)
    requires Solid(shapes, k) && d < k && i + 1 < |offsets| && offsets == LevelOffsets(shapes, k, d, |shapes|)
    requires SameExtent(shapes, k, d)
    ensures ValueLength(offsets, i) == shapes[0][d]
  {
    var r := RowOfList(shapes, k, d, |shapes|, i);
    LengthInRow(shapes, k, d, r, i);
  }

  // They do exactly when all its lists are equally long.
  lemma UniformLevel(shapes: seq<Shape>, k: nat, d: nat, offsets: seq<nat>)
    requires Solid(shapes, k) && d < k && offsets == LevelOffsets(shapes, k, d, |shapes|)
    ensures |offsets| > 1 && ValueLength(offsets, 0) == shapes[0][d]
    ensures Uniform(offsets, 0, |offsets| - 1) <==> SameExtent(shapes, k, d)
  {
    FirstInRow(shapes, k, d, 0);
    if Uniform(offsets, 0, |offsets| - 1) {
      forall r | 0 <= r < |shapes| ensures shapes[r][d] == shapes[0][d] {
        SameWhereUniform(shapes, k, d, offsets, r);
      }
    }
    if SameExtent(shapes, k, d) {
      forall i | 0 <= i < |offsets| - 1 ensures ValueLength(offsets, i) == ValueLength(offsets, 0) {
        UniformWhereSame(shapes, k, d, offsets, i);
      }
    }
  }

  ghost predicate SameExtents(shapes: seq<Shape>, k: nat, d: nat)
    requires Solid(shapes, k) && d <= k
  {
    forall e :: 0 <= e < d ==> SameExtent(shapes, k, e)
  }

  lemma ListUniform(offsets: seq<nat>, values: ListArray)
    requires Populated(ListOf(offsets, values))
    ensures AllUniform(ListOf(offsets, values)) <==> Uniform(offsets, 0, |offsets| - 1) && AllUniform(values)
    ensures FirstLengths(ListOf(offsets, values)) == [ValueLength(offsets, 0)] + FirstLengths(values)
  {
  }

  // The first lists have the extents of the first cell, and the others differ where cells do.
  ghost predicate ShowsExtents(a: ListArray, inner: Shape, shapes: seq<Shape>, k: nat, d: nat)
    requires Solid(shapes, k) && d <= k
  {
    && Populated(a) && FirstLengths(a) == Reversed((inner + shapes[0])[..|inner| + d])
    && (AllUniform(a) <==> SameExtents(shapes, k, d))
  }

  lemma ListShowsExtents(offsets: seq<nat>, values: ListArray, inner: Shape, shapes: seq<Shape>, k: nat, d: nat)
    requires Solid(shapes, k) && d < k && offsets == LevelOffsets(shapes, k, d, |shapes|)
    requires Populated(ListOf(offsets, values)) && ShowsExtents(values, inner, shapes, k, d)
    ensures ShowsExtents(ListOf(offsets, values), inner, shapes, k, d + 1)
  {
    UniformLevel(shapes, k, d, offsets);
    ListUniform(offsets, values);
    ReversedStep(inner + shapes[0], |inner| + d);
  }

  lemma {:induction false} UniformNest(shapes: seq<Shape>, offsets: seq<seq<nat>>, inner: Shape, base: ListArray,
                                       d: nat)
    requires IsNesting(shapes, offsets, inner, base) && d <= |offsets|
    ensures ShowsExtents(Nest(offsets, base, d), inner, shapes, |offsets|, d)
  {
    NestPopulated(shapes, offsets, inner, base, d);
    if d > 0 {
      UniformNest(shapes, offsets, inner, base, d - 1);
      ListShowsExtents(offsets[d - 1], Nest(offsets, base, d - 1), inner, shapes, |offsets|, d - 1);
    } else {
      ElementsAreUniform(base, inner, RowOffset(shapes, |shapes|));
      assert (inner + shapes[0])[..|inner|] == inner;
    }
  }

  /**
   Nesting and derivation are inverse: for cells of one rank without empty dimensions,
   the shape derived from their nested lists is fixed exactly when the cells have one
   shape, and has the shape of every cell. Elements that are lists of one size keep theirs
   as the innermost extents.
   */
  lemma ShapeRoundTrip(shapes: seq<Shape>, offsets: seq<seq<nat>>, inner: Shape, base: ListArray)
    requires IsNesting(shapes, offsets, inner, base)
    ensures Populated(Nest(offsets, base, |offsets|)) && RowsReadable(Nest(offsets, base, |offsets|))
    ensures Solid(WithInner(inner, shapes), |inner| + |offsets|)
    ensures DerivedShape(Nest(offsets, base, |offsets|))
         == Success(ShapeOf(WithInner(inner, shapes), |inner| + |offsets|))
  {
    var k, all := |offsets|, WithInner(inner, shapes);
    ShapesOfRows(shapes, offsets, inner, base, |shapes|);
    UniformNest(shapes, offsets, inner, base, k);
    assert all[..|shapes|] == all && all[0][..|inner| + k] == all[0];
    FixedReversed(all[0], |shapes|);
    SameShapesByExtent(shapes, k);
    SameWithInner(inner, shapes);
    SolidWithInner(inner, shapes, k);
    ElementsAreUniform(base, inner, RowOffset(shapes, |shapes|));
    assert Depth(base) == |inner|;
  }

  lemma SolidWithInner(inner: Shape, shapes: seq<Shape>, k: nat)
    requires Solid(shapes, k) && forall e :: 0 <= e < |inner| ==> inner[e] > 0
    ensures Solid(WithInner(inner, shapes), |inner| + k)
  {
  }

  lemma SameWithInner(inner: Shape, shapes: seq<Shape>)
    ensures SameShapes(WithInner(inner, shapes)) <==> SameShapes(shapes)
  {
    var all := WithInner(inner, shapes);
    if SameShapes(all) {
      forall r, s | 0 <= r < |shapes| && 0 <= s < |shapes|
        ensures shapes[r] == shapes[s]
      {
        assert all[r] == all[s] && shapes[r] == all[r][|inner|..] && shapes[s] == all[s][|inner|..];
      }
    }
  }

  lemma FixedReversed(cell: Shape, n: nat)
    ensures Reversed([n] + Reversed(cell)) == cell + [n]
  {
  }

  lemma SameShapesByExtent(shapes: seq<Shape>, k: nat)
    requires Solid(shapes, k)
    ensures SameShapes(shapes) <==> SameExtents(shapes, k, k)
  {
    if forall e :: 0 <= e < k ==> SameExtent(shapes, k, e) {
      forall r | 0 <= r < |shapes|
        ensures shapes[r] == shapes[0]
      {
        forall e | 0 <= e < k
          ensures shapes[r][e] == shapes[0][e]
        {
          assert SameExtent(shapes, k, e);
        }
      }
    }
  }

  ghost function ShapeOf(shapes: seq<Shape>, k: nat): ResultShape
    requires Solid(shapes, k)
  {
    if SameShapes(shapes) then Fixed(shapes[0] + [|shapes|], None) else Varying(k + 1, shapes)
  }

  lemma CellsOfShape(shapes: seq<Shape>, k: nat)
    requires Solid(shapes, k)
    ensures ShapeOf(shapes, k).WellFormed() && CellShapes(ShapeOf(shapes, k)) == shapes
  {
    var result := ShapeOf(shapes, k);
    assert CellShapes(result) == shapes;
  }

  /** Deriving the shape of a fixed result nested in lists of one size gives it back, with any number of rows. */
  lemma FixedRoundTrip(cell: Shape, n: nat, count: nat)
    requires count == n * Product(cell) && forall e :: 0 <= e < |cell| ==> cell[e] > 0
    ensures Populated(NestFixed(cell, count, |cell|)) && AllUniform(NestFixed(cell, count, |cell|))
    ensures DerivedShape(NestFixed(cell, count, |cell|)) == Success(Fixed(cell + [n], None))
  {
    assert count == n * InnerLists(cell, 0) by {
      ElementsOfCell(cell, 0);
    }
    FixedNest(cell, n, count, |cell|);
    assert cell[..|cell|] == cell;
    FixedReversed(cell, n);
  }

  /** Complex cells that were nested over pairs come back. */
  lemma PairsRoundTrip(shapes: seq<Shape>, offsets: seq<seq<nat>>, base: ListArray, plain: ResultShape)
    requires IsNesting(shapes, offsets, [2], base)
    ensures Populated(Nest(offsets, base, |offsets|)) && RowsReadable(Nest(offsets, base, |offsets|))
    ensures DerivedShape(Nest(offsets, base, |offsets|)).Success?
    ensures var pairs := DerivedShape(Nest(offsets, base, |offsets|)).value;
            HasPairs(pairs) && (IsPairsOf(pairs, plain) <==> plain == ShapeOf(shapes, |offsets|))
  {
    ShapeRoundTrip(shapes, offsets, [2], base);
    SameWithInner([2], shapes);
    PairsAreUnique(shapes, |offsets|, plain);
  }

  lemma PairsAreUnique(shapes: seq<Shape>, k: nat, plain: ResultShape)
    requires Solid(shapes, k) && Solid(WithInner([2], shapes), 1 + k)
    requires SameShapes(WithInner([2], shapes)) <==> SameShapes(shapes)
    ensures HasPairs(ShapeOf(WithInner([2], shapes), 1 + k))
    ensures IsPairsOf(ShapeOf(WithInner([2], shapes), 1 + k), plain) <==> plain == ShapeOf(shapes, k)
  {
    var all := WithInner([2], shapes);
    if SameShapes(shapes) {
      var whole := all[0] + [|all|];
      assert whole == [2] + (shapes[0] + [|shapes|]) && whole[1..] == shapes[0] + [|shapes|];
      if plain.Fixed? && whole == [2] + plain.shape {
        assert plain.shape == whole[1..];
      }
    } else if IsPairsOf(Varying(k + 2, all), plain) {
      forall r | 0 <= r < |shapes|
        ensures plain.rowShapes[r] == shapes[r]
      {
        assert plain.rowShapes[r] == all[r][1..] == shapes[r];
      }
      assert plain.rowShapes == shapes;
    }
  }

  /** A result read into nested lists is written back with the cells it was read with. */
  lemma ReadShapeIsWriteShape(shapes: seq<Shape>, offsets: seq<seq<nat>>, inner: Shape, base: ListArray, a: ListArray)
    requires IsNesting(shapes, offsets, inner, base) && a == Nest(offsets, base, |offsets|)
    ensures Populated(a) && RowsReadable(a) && DerivedShape(a).Success?
    ensures DerivedShape(a).value.WellFormed() && CellShapes(DerivedShape(a).value) == WithInner(inner, shapes)
  {
    ShapeRoundTrip(shapes, offsets, inner, base);
    CellsOfShape(WithInner(inner, shapes), |inner| + |offsets|);
  }
}
