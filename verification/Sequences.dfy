/** Reversing and summing sequences. */
module Sequences {

  function Reversed<T>(s: seq<T>): (r: seq<T>)
    ensures |r| == |s| && forall i :: 0 <= i < |s| ==> r[i] == s[|s| - 1 - i]
  {
    seq(|s|, i requires 0 <= i < |s| => s[|s| - 1 - i])
  }

  // The sum of the first n numbers.
  function SumTo(s: seq<nat>, n: nat): nat
    requires n <= |s|
  {
    if n == 0 then 0 else SumTo(s, n - 1) + s[n - 1]
  }

  function Sum(s: seq<nat>): nat
  {
    SumTo(s, |s|)
  }

  lemma {:induction false} SumUpdate(s: seq<nat>, p: nat, n: nat)
    requires p < |s| && n <= |s|
    ensures SumTo(s[p := s[p] + 1], n) == SumTo(s, n) + if p < n then 1 else 0
  {
    if n > 0 {
      SumUpdate(s, p, n - 1);
    }
  }

  lemma {:induction false} SumBelow(s: seq<nat>, t: seq<nat>, p: nat, n: nat)
    requires p < |s| == |t| && n <= |s| && s[p] < t[p] && forall q :: 0 <= q < |s| ==> s[q] <= t[q]
    ensures SumTo(s, n) + (if p < n then 1 else 0) <= SumTo(t, n)
  {
    if n > 0 {
      SumBelow(s, t, p, n - 1);
    }
  }

  lemma {:induction false} SumOfNothing(s: seq<nat>, n: nat)
    requires n <= |s| && forall p :: 0 <= p < |s| ==> s[p] == 0
    ensures SumTo(s, n) == 0
  {
    if n > 0 {
      SumOfNothing(s, n - 1);
    }
  }
}
