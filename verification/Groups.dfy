/** Grouping chunks for the instances that read them (GroupChunks of read_impl.cc). */
module Groups {
  import opened Sequences
  import opened MixedRadix
  import opened RowSplit
  import opened RowPieces
  import opened Chunks
  import opened Conservation

  // The numbers of elements of the chunks.
  function ElementCounts(chunks: seq<DataChunk>): (sizes: seq<nat>)
    ensures |sizes| == |chunks| && forall i :: 0 <= i < |chunks| ==> sizes[i] == NElementsOf(chunks[i])
  {
    seq(|chunks|, i requires 0 <= i < |chunks| => NElementsOf(chunks[i]))
  }

  lemma {:induction false} SumOfCounts(chunks: seq<DataChunk>, n: nat)
    requires n <= |chunks|
    ensures SumTo(ElementCounts(chunks), n) == TotalElements(chunks, n)
  {
    if n > 0 {
      SumOfCounts(chunks, n - 1);
    }
  }

  function Largest(sizes: seq<nat>, n: nat): (most: nat)
    requires n <= |sizes|
    ensures (forall i :: 0 <= i < n ==> sizes[i] <= most) && if n == 0 then most == 0 else most in sizes
  {
    if n == 0 then 0
    else
      var most := Largest(sizes, n - 1);
      if sizes[n - 1] > most then sizes[n - 1] else most
  }

  function CeilDiv(n: nat, m: nat): nat
    requires m > 0
  {
    if n % m == 0 then n / m else n / m + 1
  }

  /** It is the least share of which m make n. */
  lemma CeilDivIsLeast(n: nat, m: nat, share: nat)
    requires m > 0
    ensures share >= CeilDiv(n, m) <==> share * m >= n
  {
    assert n == m * (n / m) + n % m;
    if share >= CeilDiv(n, m) {
      MulMonotone(m, CeilDiv(n, m), share);
      assert m * (n / m + 1) == m * (n / m) + m;
    } else {
      MulMonotone(m, share + 1, CeilDiv(n, m));
      assert m * (share + 1) == m * share + m && m * (n / m + 1) == m * (n / m) + m;
    }
  }

  // The elements that the first g of ngroups groups should have.
  function Target(total: nat, g: nat, ngroups: nat): nat
    requires ngroups > 0
  {
    total * g / ngroups
  }

  lemma TargetStep(total: nat, g: nat, ngroups: nat)
    requires ngroups > 0
    ensures Target(total, g, ngroups) <= Target(total, g + 1, ngroups)
          <= Target(total, g, ngroups) + CeilDiv(total, ngroups)
    ensures Target(total, ngroups, ngroups) == total && Target(total, 0, ngroups) == 0
  {
    assert total * (g + 1) == total * g + total;
    SumStep(total * g, total, ngroups);
    DivUnique(total * ngroups, ngroups, total, 0);
    assert total * 0 == 0;
  }

  lemma SumStep(a: nat, n: nat, m: nat)
    requires m > 0
    ensures a / m <= (a + n) / m <= a / m + CeilDiv(n, m)
  {
    DivMonotone(a, a + n, m);
    DivSum(a, n, m);
    if n % m == 0 {
      assert a == m * (a / m) + a % m && n == m * (n / m);
      Distribute(m, a / m, n / m);
      DivUnique(a + n, m, a / m + n / m, a % m);
    }
  }

  // The targets of all groups.
  ghost predicate AreTargets(targets: seq<nat>, total: nat, share: nat)
  {
    && |targets| > 1 && targets[0] == 0 && targets[|targets| - 1] == total
    && forall g :: 0 <= g < |targets| - 1 ==> targets[g] <= targets[g + 1] <= targets[g] + share
  }

  ghost function TargetsUpTo(total: nat, ngroups: nat, k: nat): (targets: seq<nat>)
    requires ngroups > 0
    ensures |targets| == k
  {
    if k == 0 then [] else TargetsUpTo(total, ngroups, k - 1) + [Target(total, k - 1, ngroups)]
  }

  lemma {:induction false} TargetAt(total: nat, ngroups: nat, k: nat, g: nat)
    requires ngroups > 0 && g < k
    ensures TargetsUpTo(total, ngroups, k)[g] == Target(total, g, ngroups)
  {
    if g < k - 1 {
      TargetAt(total, ngroups, k - 1, g);
    }
  }

  lemma TargetsAreTargets(total: nat, ngroups: nat)
    requires ngroups > 0
    ensures AreTargets(TargetsUpTo(total, ngroups, ngroups + 1), total, CeilDiv(total, ngroups))
  {
    var targets := TargetsUpTo(total, ngroups, ngroups + 1);
    forall g | 0 <= g < ngroups
      ensures targets[g] <= targets[g + 1] <= targets[g] + CeilDiv(total, ngroups)
    {
      TargetAt(total, ngroups, ngroups + 1, g);
      TargetAt(total, ngroups, ngroups + 1, g + 1);
      TargetStep(total, g, ngroups);
    }
    TargetAt(total, ngroups, ngroups + 1, 0);
    TargetAt(total, ngroups, ngroups + 1, ngroups);
    TargetStep(total, 0, ngroups);
  }

  method ComputeTarget(total: nat, g: nat, ngroups: nat, ghost targets: seq<nat>) returns (target: nat)
    requires 0 < ngroups && g <= ngroups && targets == TargetsUpTo(total, ngroups, ngroups + 1)
    ensures target == targets[g]
  {
    TargetAt(total, ngroups, ngroups + 1, g);
    target := total * g / ngroups;
  }

  // A group may exceed its even share of the elements by no more than the largest chunk.
  ghost predicate IsBalanced(sizes: seq<nat>, begin: nat, end: nat, share: nat)
    requires begin <= |sizes| && end <= |sizes|
  {
    SumTo(sizes, end) <= SumTo(sizes, begin) + share + Largest(sizes, |sizes|)
  }

  // What is known of the group being collected, the one numbered g, after c sizes: it
  // began once its predecessors had their share, or when as few sizes as groups were left.
  ghost predicate OpenGroup(sizes: seq<nat>, begin: nat, c: nat, g: nat, targets: seq<nat>)
    requires begin <= c <= |sizes| && g < |targets| - 1
  {
    var n, left := |sizes|, |targets| - 1 - g;
    && (begin < n ==> n - begin >= left)
    && (c < n ==> n - c >= left)
    && (SumTo(sizes, begin) >= targets[g] || n - begin == left)
    && (c > begin && left > 1 ==> SumTo(sizes, c) < targets[g + 1] && n - begin > left)
  }

  ghost predicate ClosedGroups(sizes: seq<nat>, ends: seq<nat>, share: nat)
  {
    && (forall i :: 0 <= i < |ends| ==> 0 < ends[i] < |sizes|)
    && (forall i, j :: 0 <= i < j < |ends| ==> ends[i] < ends[j])
    && (forall g {:trigger PieceBegin(ends, g)} :: 0 <= g < |ends| ==>
          IsBalanced(sizes, PieceBegin(ends, g), ends[g], share))
  }

  // Must the group be closed after chunk c?
  ghost predicate Closes(sizes: seq<nat>, c: nat, g: nat, targets: seq<nat>)
    requires c < |sizes| && g < |targets| - 1
  {
    && g + 2 < |targets|
    && (SumTo(sizes, c + 1) >= targets[g + 1] || |sizes| - c == |targets| - 1 - g)
  }

  lemma ClosedIsBalanced(sizes: seq<nat>, begin: nat, c: nat, g: nat, targets: seq<nat>, total: nat, share: nat)
    requires begin <= c < |sizes| && g + 2 < |targets| && AreTargets(targets, total, share)
    requires OpenGroup(sizes, begin, c, g, targets)
    ensures IsBalanced(sizes, begin, c + 1, share)
  {
  }

  lemma NextGroupOpens(sizes: seq<nat>, begin: nat, c: nat, g: nat, targets: seq<nat>)
    requires begin <= c < |sizes| && g < |targets| - 1 && OpenGroup(sizes, begin, c, g, targets)
    requires Closes(sizes, c, g, targets)
    ensures c + 1 < |sizes| && OpenGroup(sizes, c + 1, c + 1, g + 1, targets)
  {
  }

  lemma ClosedAppend(sizes: seq<nat>, ends: seq<nat>, end: nat, share: nat)
    requires ClosedGroups(sizes, ends, share)
    requires PieceBegin(ends, |ends|) < end < |sizes|
    requires IsBalanced(sizes, PieceBegin(ends, |ends|), end, share)
    ensures ClosedGroups(sizes, ends + [end], share)
  {
    var longer := ends + [end];
    forall g | 0 <= g < |longer|
      ensures IsBalanced(sizes, PieceBegin(longer, g), longer[g], share)
    {
      BeginUnchanged(ends, end, g);
    }
    EndsAscend(ends, end);
  }

  lemma BeginUnchanged(ends: seq<nat>, end: nat, g: nat)
    requires g <= |ends|
    ensures PieceBegin(ends + [end], g) == PieceBegin(ends, g)
    ensures (ends + [end])[g] == if g < |ends| then ends[g] else end
  {
  }

  lemma EndsAscend(ends: seq<nat>, end: nat)
    requires forall i, j :: 0 <= i < j < |ends| ==> ends[i] < ends[j]
    requires PieceBegin(ends, |ends|) < end
    ensures forall i, j :: 0 <= i < j < |ends + [end]| ==> (ends + [end])[i] < (ends + [end])[j]
  {
    forall i | 0 <= i < |ends|
      ensures ends[i] < end
    {
      assert i < |ends| - 1 ==> ends[i] < ends[|ends| - 1];
    }
  }

  lemma CloseGroup(sizes: seq<nat>, ends: seq<nat>, c: nat, targets: seq<nat>, total: nat, share: nat)
    requires AreTargets(targets, total, share) && |ends| < |targets| - 1
    requires ClosedGroups(sizes, ends, share) && PieceBegin(ends, |ends|) <= c < |sizes|
    requires OpenGroup(sizes, PieceBegin(ends, |ends|), c, |ends|, targets) && Closes(sizes, c, |ends|, targets)
    ensures ClosedGroups(sizes, ends + [c + 1], share)
    ensures OpenGroup(sizes, c + 1, c + 1, |ends| + 1, targets)
  {
    ClosedIsBalanced(sizes, PieceBegin(ends, |ends|), c, |ends|, targets, total, share);
    NextGroupOpens(sizes, PieceBegin(ends, |ends|), c, |ends|, targets);
    ClosedAppend(sizes, ends, c + 1, share);
  }

  lemma KeepGroupOpen(sizes: seq<nat>, begin: nat, c: nat, g: nat, targets: seq<nat>)
    requires begin <= c < |sizes| && g < |targets| - 1
    requires OpenGroup(sizes, begin, c, g, targets) && !Closes(sizes, c, g, targets)
    ensures OpenGroup(sizes, begin, c + 1, g, targets)
  {
  }

  // The groups that are returned, the last of which ends with the sizes.
  ghost predicate AreGroups(sizes: seq<nat>, ends: seq<nat>, share: nat)
  {
    && AreEnds(ends, |sizes|)
    && forall g {:trigger PieceBegin(ends, g)} :: 0 <= g < |ends| ==>
         PieceBegin(ends, g) < ends[g] <= |sizes| && IsBalanced(sizes, PieceBegin(ends, g), ends[g], share)
  }

  lemma LastGroup(sizes: seq<nat>, ends: seq<nat>, targets: seq<nat>, share: nat)
    requires sizes != [] && AreTargets(targets, SumTo(sizes, |sizes|), share) && |targets| == |ends| + 2
    requires ClosedGroups(sizes, ends, share) && PieceBegin(ends, |ends|) <= |sizes|
    requires OpenGroup(sizes, PieceBegin(ends, |ends|), |sizes|, |ends|, targets)
    ensures AreGroups(sizes, ends + [|sizes|], share)
  {
    var longer, n := ends + [|sizes|], |sizes|;
    assert IsBalanced(sizes, PieceBegin(ends, |ends|), n, share);
    forall g | 0 <= g < |longer|
      ensures PieceBegin(longer, g) < longer[g] <= n
      ensures IsBalanced(sizes, PieceBegin(longer, g), longer[g], share)
    {
      assert PieceBegin(longer, g) == PieceBegin(ends, g);
      if g < |ends| {
        assert longer[g] == ends[g];
      }
    }
  }

  /**
   Groups the chunks: at least one chunk per group, at most one group per chunk, and no
   group exceeding its even share of the elements by more than the largest chunk.
   */
  method GroupChunks(chunks: seq<DataChunk>, ngroups: nat) returns (ends: seq<nat>)
    ensures chunks == [] ==> ends == [0]
    ensures chunks != [] ==> |ends| == if ngroups == 0 then 1 else if ngroups < |chunks| then ngroups else |chunks|
    ensures chunks != [] ==> AreGroups(ElementCounts(chunks), ends, CeilDiv(TotalElements(chunks, |chunks|), |ends|))
  {
    var nelements := 0;
    for c := 0 to |chunks|
      invariant nelements == TotalElements(chunks, c)
    {
      nelements := nelements + NElementsOf(chunks[c]);
    }
    var n := if ngroups < |chunks| then ngroups else |chunks|;
    n := if n < 1 then 1 else n;
    if chunks == [] {
      return [0];
    }
    var sizes := ElementCounts(chunks);
    SumOfCounts(chunks, |chunks|);
    ghost var targets := TargetsUpTo(nelements, n, n + 1);
    TargetsAreTargets(nelements, n);
    ends := CloseGroups(sizes, n, nelements, targets, CeilDiv(nelements, n));
    LastGroup(sizes, ends, targets, CeilDiv(nelements, n));
    ends := ends + [|chunks|];
  }

  // The groups closed and the one open after c chunks.
  ghost predicate Grouping(sizes: seq<nat>, ends: seq<nat>, c: nat, targets: seq<nat>, share: nat)
  {
    && |ends| < |targets| - 1 && PieceBegin(ends, |ends|) <= c <= |sizes|
    && OpenGroup(sizes, PieceBegin(ends, |ends|), c, |ends|, targets)
    && ClosedGroups(sizes, ends, share)
    && |sizes| - c + |ends| + 2 >= |targets|
  }

  // The ends after chunk c.
  function NextEnds(ends: seq<nat>, c: nat, closes: bool): seq<nat>
  {
    if closes then ends + [c + 1] else ends
  }

  lemma GroupingStep(sizes: seq<nat>, ends: seq<nat>, c: nat, targets: seq<nat>, total: nat, share: nat)
    requires AreTargets(targets, total, share) && c < |sizes| && Grouping(sizes, ends, c, targets, share)
    ensures Grouping(sizes, NextEnds(ends, c, Closes(sizes, c, |ends|, targets)), c + 1, targets, share)
  {
    if Closes(sizes, c, |ends|, targets) {
      CloseGroup(sizes, ends, c, targets, total, share);
    } else {
      KeepGroupOpen(sizes, PieceBegin(ends, |ends|), c, |ends|, targets);
    }
  }

  method MustClose(sizes: seq<nat>, c: nat, g: nat, cumulative: nat, total: nat, ngroups: nat, ghost targets: seq<nat>)
    returns (closes: bool)
    requires g < ngroups && c < |sizes| && cumulative == SumTo(sizes, c + 1)
    requires targets == TargetsUpTo(total, ngroups, ngroups + 1)
    ensures closes == Closes(sizes, c, g, targets)
  {
    var target := ComputeTarget(total, g + 1, ngroups, targets);
    var remainingGroups := ngroups - g - 1;
    closes := g + 1 < ngroups && (cumulative >= target || |sizes| - c - 1 == remainingGroups);
  }

  // The ends of all groups but the last.
  method CloseGroups(sizes: seq<nat>, ngroups: nat, nelements: nat, ghost targets: seq<nat>, ghost share: nat)
    returns (ends: seq<nat>)
    requires 0 < ngroups <= |sizes|
    requires targets == TargetsUpTo(nelements, ngroups, ngroups + 1) && AreTargets(targets, nelements, share)
    ensures |ends| == ngroups - 1 && Grouping(sizes, ends, |sizes|, targets, share)
  {
    ends := [];
    var cumulative := 0;
    for c := 0 to |sizes|
      invariant cumulative == SumTo(sizes, c)
      invariant Grouping(sizes, ends, c, targets, share)
    {
      cumulative := cumulative + sizes[c];
      var closes := MustClose(sizes, c, |ends|, cumulative, nelements, ngroups, targets);
      GroupingStep(sizes, ends, c, targets, nelements, share);
      if closes {
        ends := ends + [c + 1];
      }
    }
  }
}
