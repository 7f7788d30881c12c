/** Sequences of stores into a flat buffer, and what is left after all of them. */
module Stores {

  datatype Store<T> = Store(at: nat, value: T)

  ghost predicate Within<T>(trace: seq<Store<T>>, size: nat)
  {
    forall k :: 0 <= k < |trace| ==> trace[k].at < size
  }

  // The buffer after the first k stores.
  function Applied<T>(buffer: seq<T>, trace: seq<Store<T>>, k: nat): (r: seq<T>)
    requires k <= |trace| && Within(trace, |buffer|)
    ensures |r| == |buffer|
  {
    if k == 0 then buffer else Applied(buffer, trace, k - 1)[trace[k - 1].at := trace[k - 1].value]
  }

  function AppliedAll<T>(buffer: seq<T>, trace: seq<Store<T>>): seq<T>
    requires Within(trace, |buffer|)
  {
    Applied(buffer, trace, |trace|)
  }

  lemma {:induction false} AppliedPrefix<T>(buffer: seq<T>, a: seq<Store<T>>, b: seq<Store<T>>, k: nat)
    requires k <= |a| && k <= |b| && Within(a, |buffer|) && Within(b, |buffer|)
    requires forall i :: 0 <= i < k ==> a[i] == b[i]
    ensures Applied(buffer, a, k) == Applied(buffer, b, k)
  {
    if k > 0 {
      AppliedPrefix(buffer, a, b, k - 1);
    }
  }

  lemma {:induction false} AppliedConcat<T>(buffer: seq<T>, a: seq<Store<T>>, b: seq<Store<T>>, k: nat)
    requires Within(a, |buffer|) && Within(b, |buffer|) && k <= |b|
    ensures Within(a + b, |buffer|)
    ensures Applied(buffer, a + b, |a| + k) == Applied(AppliedAll(buffer, a), b, k)
  {
    if k == 0 {
      AppliedPrefix(buffer, a + b, a, |a|);
    } else {
      AppliedConcat(buffer, a, b, k - 1);
    }
  }

  ghost predicate StoresTo<T>(trace: seq<Store<T>>, k: nat, a: nat)
  {
    exists i :: 0 <= i < k && i < |trace| && trace[i].at == a
  }

  /** A place that stores only ever give one value holds it after any of them. */
  lemma {:induction false} AppliedAt<T>(buffer: seq<T>, trace: seq<Store<T>>, k: nat, a: nat, v: T)
    requires k <= |trace| && Within(trace, |buffer|) && a < |buffer|
    requires forall i :: 0 <= i < |trace| && trace[i].at == a ==> trace[i].value == v
    ensures Applied(buffer, trace, k)[a] == if StoresTo(trace, k, a) then v else buffer[a]
  {
    if k > 0 {
      AppliedAt(buffer, trace, k - 1, a, v);
      assert StoresTo(trace, k, a) <==> StoresTo(trace, k - 1, a) || trace[k - 1].at == a;
    }
  }

  // ----- the stores of several traces, one trace after the other

  type Trace<T> = seq<Store<T>>

  ghost predicate AllWithin<T>(traces: seq<Trace<T>>, size: nat)
  {
    forall i :: 0 <= i < |traces| ==> Within(traces[i], size)
  }

  function JoinUpTo<X>(lists: seq<seq<X>>, n: nat): seq<X>
    requires n <= |lists|
  {
    if n == 0 then [] else JoinUpTo(lists, n - 1) + lists[n - 1]
  }

  lemma {:induction false} JoinWithin<T>(traces: seq<Trace<T>>, size: nat, n: nat)
    requires AllWithin(traces, size) && n <= |traces|
    ensures Within(JoinUpTo(traces, n), size)
  {
    if n > 0 {
      JoinWithin(traces, size, n - 1);
    }
  }

  lemma AppliedJoin<T>(buffer: seq<T>, traces: seq<Trace<T>>, n: nat)
    requires AllWithin(traces, |buffer|) && n < |traces|
    ensures Within(JoinUpTo(traces, n), |buffer|) && Within(JoinUpTo(traces, n + 1), |buffer|)
    ensures AppliedAll(buffer, JoinUpTo(traces, n + 1))
          == AppliedAll(AppliedAll(buffer, JoinUpTo(traces, n)), traces[n])
  {
    JoinWithin(traces, |buffer|, n);
    JoinWithin(traces, |buffer|, n + 1);
    AppliedConcat(buffer, JoinUpTo(traces, n), traces[n], |traces[n]|);
  }

  // Where element k of the joined lists comes from.
  lemma {:induction false} JoinMember<X>(lists: seq<seq<X>>, n: nat, k: nat) returns (i: nat, x: nat)
    requires n <= |lists| && k < |JoinUpTo(lists, n)|
    ensures i < n && x < |lists[i]| && JoinUpTo(lists, n)[k] == lists[i][x]
    ensures k == |JoinUpTo(lists, i)| + x
  {
    var before := |JoinUpTo(lists, n - 1)|;
    if k < before {
      i, x := JoinMember(lists, n - 1, k);
    } else {
      i, x := n - 1, k - before;
    }
  }

  lemma {:induction false} JoinContains<X>(lists: seq<seq<X>>, n: nat, i: nat, x: nat) returns (k: nat)
    requires i < n <= |lists| && x < |lists[i]|
    ensures k < |JoinUpTo(lists, n)| && JoinUpTo(lists, n)[k] == lists[i][x]
  {
    if i == n - 1 {
      k := |JoinUpTo(lists, n - 1)| + x;
    } else {
      k := JoinContains(lists, n - 1, i, x);
    }
  }
}
