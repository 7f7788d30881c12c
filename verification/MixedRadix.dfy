/**
 Mixed-radix arithmetic behind every flat position in the engine.

 Extents and positions are FORTRAN ordered: dimension 0 varies fastest. Stride and
 Offset recurse on the number of leading dimensions taken into account, as the
 loops of the program do.
 */
module MixedRadix {

  // The number of positions spanned by the first d dimensions.
  function Stride(n: seq<nat>, d: nat): nat
    requires d <= |n|
  {
    if d == 0 then 1 else Stride(n, d - 1) * n[d - 1]
  }

  function Product(n: seq<nat>): nat
  {
    Stride(n, |n|)
  }

  function Lengths<T>(lists: seq<seq<T>>): (n: seq<nat>)
    ensures |n| == |lists| && forall d :: 0 <= d < |lists| ==> n[d] == |lists[d]|
  {
    seq(|lists|, d requires 0 <= d < |lists| => |lists[d]|)
  }

  ghost predicate InBox(p: seq<nat>, n: seq<nat>)
  {
    |p| == |n| && forall d :: 0 <= d < |n| ==> p[d] < n[d]
  }

  // The flat offset of a position, counting only its first d coordinates.
  function Offset(n: seq<nat>, p: seq<nat>, d: nat): nat
    requires d <= |n| && d <= |p|
  {
    if d == 0 then 0 else Offset(n, p, d - 1) + p[d - 1] * Stride(n, d - 1)
  }

  function Rank(n: seq<nat>, p: seq<nat>): nat
    requires |n| == |p|
  {
    Offset(n, p, |n|)
  }

  // A sum of products over the first d entries, as the copy loops accumulate it.
  function Dot(a: seq<int>, b: seq<int>, d: nat): int
    requires d <= |a| && d <= |b|
  {
    if d == 0 then 0 else Dot(a, b, d - 1) + a[d - 1] * b[d - 1]
  }

  // The position whose first d coordinates have flat offset k.
  function Digits(n: seq<nat>, d: nat, k: nat): (p: seq<nat>)
    requires d <= |n| && k < Stride(n, d)
    ensures |p| == d && forall i :: 0 <= i < d ==> p[i] < n[i]
  {
    if d == 0 then []
    else
      var s := Stride(n, d - 1);
      DigitBounds(k, s, n[d - 1]);
      Digits(n, d - 1, k % s) + [k / s]
  }

  function Unrank(n: seq<nat>, k: nat): (p: seq<nat>)
    requires k < Product(n)
    ensures InBox(p, n)
  {
    Digits(n, |n|, k)
  }

  lemma DigitBounds(k: nat, s: nat, m: nat)
    requires k < s * m
    ensures s > 0 && 0 <= k / s < m && 0 <= k % s < s
  {
    assert k < 0 * m || s > 0;
    assert k == s * (k / s) + k % s;
    if k / s >= m {
      MulMonotone(s, m, k / s);
    }
  }

  lemma MulMonotone(s: nat, a: nat, b: nat)
    requires a <= b
    ensures s * a <= s * b
  {
    assert s * b == s * a + s * (b - a);
  }

  lemma DigitsUnfold(n: seq<nat>, d: nat, k: nat)
    requires 0 < d <= |n| && k < Stride(n, d)
    ensures Stride(n, d - 1) > 0
    ensures k % Stride(n, d - 1) < Stride(n, d - 1)
    ensures Digits(n, d, k) == Digits(n, d - 1, k % Stride(n, d - 1)) + [k / Stride(n, d - 1)]
  {
    DigitBounds(k, Stride(n, d - 1), n[d - 1]);
  }

  lemma {:induction false} DigitsOffset(n: seq<nat>, d: nat, k: nat)
    requires d <= |n| && k < Stride(n, d)
    ensures Offset(n, Digits(n, d, k), d) == k
  {
    if d == 0 {
    } else {
      var s := Stride(n, d - 1);
      DigitsUnfold(n, d, k);
      var low := Digits(n, d - 1, k % s);
      DigitsOffset(n, d - 1, k % s);
      OffsetCongruent(n, Digits(n, d, k), low, d - 1);
      assert k == s * (k / s) + k % s;
    }
  }

  /** Every flat offset below the product is the rank of a position in the box. */
  lemma UnrankRank(n: seq<nat>, k: nat)
    requires k < Product(n)
    ensures Rank(n, Unrank(n, k)) == k
  {
    DigitsOffset(n, |n|, k);
  }

  /** Distinct positions have distinct ranks, so unranking a rank gives the position back. */
  lemma RankUnrank(n: seq<nat>, p: seq<nat>)
    requires InBox(p, n)
    ensures Rank(n, p) < Product(n)
    ensures Unrank(n, Rank(n, p)) == p
  {
    OffsetBound(n, p, |n|);
    UnrankRank(n, Rank(n, p));
    OffsetInjective(n, Unrank(n, Rank(n, p)), p, |n|);
  }

  lemma {:induction false} OffsetCongruent(n: seq<nat>, p: seq<nat>, q: seq<nat>, d: nat)
    requires d <= |n| && d <= |p| && d <= |q|
    requires forall i :: 0 <= i < d ==> p[i] == q[i]
    ensures Offset(n, p, d) == Offset(n, q, d)
  {
    if d > 0 {
      OffsetCongruent(n, p, q, d - 1);
    }
  }

  lemma {:induction false} StrideCongruent(n: seq<nat>, m: seq<nat>, d: nat)
    requires d <= |n| && d <= |m|
    requires forall i :: 0 <= i < d ==> n[i] == m[i]
    ensures Stride(n, d) == Stride(m, d)
  {
    if d > 0 {
      StrideCongruent(n, m, d - 1);
    }
  }

  lemma {:induction false} OffsetSameExtents(n: seq<nat>, m: seq<nat>, p: seq<nat>, d: nat)
    requires d <= |n| && d <= |m| && d <= |p|
    requires forall i :: 0 <= i < d ==> n[i] == m[i]
    ensures Offset(n, p, d) == Offset(m, p, d)
  {
    if d > 0 {
      OffsetSameExtents(n, m, p, d - 1);
      StrideCongruent(n, m, d - 1);
    }
  }

  lemma MulBound(p: nat, n: nat, s: nat, o: nat)
    requires p < n && o < s
    ensures o + p * s < s * n
  {
    MulMonotone(s, p + 1, n);
    assert s * (p + 1) == s * p + s;
  }

  lemma {:induction false} OffsetBound(n: seq<nat>, p: seq<nat>, d: nat)
    requires d <= |n| && d <= |p|
    requires forall i :: 0 <= i < d ==> p[i] < n[i]
    ensures Offset(n, p, d) < Stride(n, d)
  {
    if d > 0 {
      OffsetBound(n, p, d - 1);
      MulBound(p[d - 1], n[d - 1], Stride(n, d - 1), Offset(n, p, d - 1));
    }
  }

  lemma HigherDigitWins(s: nat, a: nat, b: nat, x: nat, y: nat)
    requires x < s && a < b
    ensures x + a * s < y + b * s
  {
    MulMonotone(s, a + 1, b);
    assert s * (a + 1) == s * a + s;
  }

  lemma SplitUnique(s: nat, a: nat, b: nat, x: nat, y: nat)
    requires x < s && y < s && x + a * s == y + b * s
    ensures a == b && x == y
  {
    if a < b {
      HigherDigitWins(s, a, b, x, y);
    } else if b < a {
      HigherDigitWins(s, b, a, y, x);
    }
  }

  lemma DivUnique(x: nat, n: nat, q: nat, r: nat)
    requires r < n && x == n * q + r
    ensures x / n == q && x % n == r
  {
    assert x == n * (x / n) + x % n;
    SplitUnique(n, x / n, q, x % n, r);
  }

  lemma DivMonotone(a: nat, b: nat, n: nat)
    requires 0 < n && a <= b
    ensures a / n <= b / n
  {
    assert a == n * (a / n) + a % n && b == n * (b / n) + b % n;
    if b / n < a / n {
      HigherDigitWins(n, b / n, a / n, b % n, a % n);
    }
  }

  lemma DivStep(a: nat, b: nat, n: nat)
    requires 0 < n <= b
    ensures a / n < (a + b) / n
  {
    assert a == n * (a / n) + a % n;
    DivUnique(a + n, n, a / n + 1, a % n);
    DivMonotone(a + n, a + b, n);
  }

  lemma {:induction false} OffsetInjective(n: seq<nat>, p: seq<nat>, q: seq<nat>, d: nat)
    requires d <= |n| && d <= |p| && d <= |q|
    requires forall i :: 0 <= i < d ==> p[i] < n[i] && q[i] < n[i]
    requires Offset(n, p, d) == Offset(n, q, d)
    ensures forall i :: 0 <= i < d ==> p[i] == q[i]
  {
    if d > 0 {
      OffsetBound(n, p, d - 1);
      OffsetBound(n, q, d - 1);
      SplitUnique(Stride(n, d - 1), p[d - 1], q[d - 1], Offset(n, p, d - 1), Offset(n, q, d - 1));
      OffsetInjective(n, p, q, d - 1);
    }
  }

  lemma {:induction false} StridePositive(n: seq<nat>, d: nat)
    requires d <= |n| && forall i :: 0 <= i < d ==> n[i] > 0
    ensures Stride(n, d) > 0
  {
    if d > 0 {
      StridePositive(n, d - 1);
      MulMonotone(Stride(n, d - 1), 1, n[d - 1]);
    }
  }

  lemma {:induction false} StrideZero(n: seq<nat>, i: nat, d: nat)
    requires i < d <= |n| && n[i] == 0
    ensures Stride(n, d) == 0
  {
    if i + 1 < d {
      StrideZero(n, i, d - 1);
    }
  }

  // The strides array filled by the loops `product *= shape[d - 1]; strides[d] *= product`.
  ghost predicate AreStrides(strides: seq<nat>, n: seq<nat>)
  {
    |strides| == |n| && forall d :: 0 <= d < |n| ==> strides[d] == Stride(n, d)
  }

  lemma {:induction false} DotStrides(p: seq<nat>, n: seq<nat>, strides: seq<nat>, d: nat)
    requires d <= |n| && |p| == |n| && AreStrides(strides, n)
    ensures Dot(p, strides, d) == Offset(n, p, d)
  {
    if d > 0 {
      DotStrides(p, n, strides, d - 1);
    }
  }

  lemma Distribute(m: nat, x: nat, y: nat)
    ensures m * (x + y) == m * x + m * y && (x + y) * m == x * m + y * m
  {
  }

  // One step of Horner's rule, scaled by a stride.
  lemma HornerStep(high: nat, extent: nat, digit: nat, stride: nat)
    ensures (high * extent + digit) * stride == high * (stride * extent) + digit * stride
  {
  }

  // ----- the odometer step shared by the scatter and gather loops

  // p and q differ only below dimension d.
  lemma {:induction false} OffsetTail(n: seq<nat>, p: seq<nat>, q: seq<nat>, d: nat, e: nat)
    requires d <= e <= |n| && e <= |p| && e <= |q|
    requires forall i :: d <= i < e ==> p[i] == q[i]
    ensures Offset(n, p, e) - Offset(n, q, e) == Offset(n, p, d) - Offset(n, q, d)
  {
    if d < e {
      OffsetTail(n, p, q, d, e - 1);
    }
  }

  lemma {:induction false} OffsetOfZeros(n: seq<nat>, p: seq<nat>, d: nat)
    requires d <= |n| && d <= |p| && forall i :: 0 <= i < d ==> p[i] == 0
    ensures Offset(n, p, d) == 0
  {
    if d > 0 {
      OffsetOfZeros(n, p, d - 1);
    }
  }

  lemma {:induction false} OffsetOfLast(n: seq<nat>, p: seq<nat>, d: nat)
    requires d <= |n| && d <= |p| && forall i :: 0 <= i < d ==> p[i] + 1 == n[i]
    ensures Offset(n, p, d) + 1 == Stride(n, d)
  {
    if d > 0 {
      OffsetOfLast(n, p, d - 1);
      assert (p[d - 1] + 1) * Stride(n, d - 1) == p[d - 1] * Stride(n, d - 1) + Stride(n, d - 1);
    }
  }

  lemma CarryAdvances(n: seq<nat>, p: seq<nat>, q: seq<nat>, d: nat)
    requires d < |n| == |p| == |q|
    requires forall i :: 0 <= i < d ==> p[i] + 1 == n[i] && q[i] == 0
    requires q[d] == p[d] + 1
    requires forall i :: d < i < |n| ==> q[i] == p[i]
    ensures Rank(n, q) == Rank(n, p) + 1
  {
    OffsetOfLast(n, p, d);
    OffsetOfZeros(n, q, d);
    assert (p[d] + 1) * Stride(n, d) == p[d] * Stride(n, d) + Stride(n, d);
    OffsetTail(n, q, p, d + 1, |n|);
  }

  /**
   Steps a position to the next one in FORTRAN order, resetting every dimension that
   overflows. done tells that the last dimension was reset.
   */
  method Advance(n: seq<nat>, pos: array<nat>) returns (done: bool)
    requires |n| == pos.Length > 0 && InBox(pos[..], n)
    modifies pos
    ensures InBox(pos[..], n)
    ensures if done then Rank(n, old(pos[..])) + 1 == Product(n)
            else Rank(n, pos[..]) == Rank(n, old(pos[..])) + 1 < Product(n)
  {
    ghost var was := pos[..];
    var d := 0;
    done := false;
    while d < pos.Length
      invariant 0 <= d <= pos.Length
      invariant forall i :: 0 <= i < d ==> was[i] + 1 == n[i] && pos[i] == 0
      invariant forall i :: d <= i < pos.Length ==> pos[i] == was[i]
      invariant done == (d == pos.Length)
    {
      pos[d] := pos[d] + 1;
      if pos[d] < n[d] {
        CarryAdvances(n, was, pos[..], d);
        break;
      }
      pos[d] := 0;
      done := d + 1 == pos.Length;
      d := d + 1;
    }
    if done {
      OffsetOfLast(n, was, |n|);
    } else {
      OffsetBound(n, pos[..], |n|);
    }
  }
}
