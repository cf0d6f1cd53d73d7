/** The address space as a sequence of ranges with reference counts: what `split_range`,
    `merge_ranges` and the loop of `ibv_madvise_range` do to that sequence, and why the result is
    again the only canonical description of the right counts. */
module RangeMap {
  import opened Pages

  datatype Iv = Iv(start: nat, end: nat, refcnt: int)

  ghost predicate In(a: int, v: Iv) { v.start <= a <= v.end }

  /** No gaps and no overlaps: the ranges tile [lo, UINTPTR_MAX]. */
  ghost predicate Tiles(V: seq<Iv>, lo: nat) {
    |V| > 0 && V[0].start == lo && V[|V| - 1].end == UINTPTR_MAX &&
    (forall i :: 0 <= i < |V| ==> V[i].start <= V[i].end) &&
    (forall i :: 0 < i < |V| ==> V[i - 1].end + 1 == V[i].start)
  }

  ghost predicate Partition(V: seq<Iv>) { Tiles(V, 0) }

  /** Neighbours differ from index i to index j. */
  ghost predicate Alternates(V: seq<Iv>, i: nat, j: int) {
    forall m :: i < m < j && m < |V| ==> V[m - 1].refcnt != V[m].refcnt
  }

  ghost predicate Canonical(V: seq<Iv>) { Partition(V) && Alternates(V, 0, |V|) }

  lemma CanonicalPartition(V: seq<Iv>)
    requires Canonical(V)
    ensures Partition(V)
  {
  }

  type Counts = int -> int

  /** Every address of ranges i..j-1 has count f. */
  ghost predicate Carries(V: seq<Iv>, i: nat, j: nat, f: Counts) {
    forall m, a :: i <= m < j && m < |V| && In(a, V[m]) ==> V[m].refcnt == f(a)
  }

  ghost predicate Models(V: seq<Iv>, f: Counts) { Carries(V, 0, |V|, f) }

  /** f, with inc added on [lo, hi]. */
  ghost function Plus(f: Counts, lo: int, hi: int, inc: int): Counts {
    a => if lo <= a <= hi then f(a) + inc else f(a)
  }

  lemma {:induction false} Later(V: seq<Iv>, lo: nat, i: nat, j: nat)
    requires Tiles(V, lo) && i < j < |V|
    ensures V[i].end < V[j].start
    decreases j
  {
    if i + 1 < j { Later(V, lo, i, j - 1); }
  }

  lemma Bounded(V: seq<Iv>, lo: nat, i: nat)
    requires Tiles(V, lo) && i < |V|
    ensures V[i].end <= UINTPTR_MAX && (V[i].end == UINTPTR_MAX <==> i == |V| - 1)
  {
    if i < |V| - 1 { Later(V, lo, i, |V| - 1); }
  }

  /** Every address lies in some range. */
  lemma {:induction false} Covered(V: seq<Iv>, lo: nat, a: nat) returns (i: nat)
    requires Tiles(V, lo) && lo <= a <= UINTPTR_MAX
    ensures i < |V| && In(a, V[i])
    decreases |V|
  {
    if a <= V[0].end {
      i := 0;
    } else {
      var W := V[1..];
      assert |V| > 1;
      assert forall m :: 0 <= m < |W| ==> W[m] == V[m + 1];
      assert Tiles(W, V[1].start);
      var j := Covered(W, V[1].start, a);
      i := j + 1;
    }
  }

  lemma Locate(V: seq<Iv>, a: nat) returns (k: nat)
    requires Canonical(V) && a <= UINTPTR_MAX
    ensures k < |V| && V[k].start <= a <= V[k].end && Partition(V)
  {
    k := Covered(V, 0, a);
  }

  // ----- the only canonical partition --------------------------------------------------

  /** Two canonical partitions with the same counts are the same sequence. */
  lemma {:induction false} CanonicalUnique(V: seq<Iv>, W: seq<Iv>, lo: nat, f: Counts)
    requires Tiles(V, lo) && Alternates(V, 0, |V|) && Models(V, f)
    requires Tiles(W, lo) && Alternates(W, 0, |W|) && Models(W, f)
    ensures V == W
    decreases |V|
  {
    FirstEnds(V, W, lo, f);
    FirstEnds(W, V, lo, f);
    assert In(lo, V[0]) && In(lo, W[0]);
    assert V[0].refcnt == f(lo) == W[0].refcnt;
    assert V[0] == W[0];
    if V[0].end == UINTPTR_MAX {
      Single(V, lo); Single(W, lo);
    } else {
      Tail(V, lo, f); Tail(W, lo, f);
      CanonicalUnique(V[1..], W[1..], V[0].end + 1, f);
      assert V == [V[0]] + V[1..] && W == [W[0]] + W[1..];
    }
  }

  lemma Single(V: seq<Iv>, lo: nat)
    requires Tiles(V, lo) && V[0].end == UINTPTR_MAX
    ensures |V| == 1
  {
    if |V| > 1 {
      Later(V, lo, 0, |V| - 1);
    }
  }

  lemma Tail(V: seq<Iv>, lo: nat, f: Counts)
    requires Tiles(V, lo) && Alternates(V, 0, |V|) && Models(V, f) && V[0].end != UINTPTR_MAX
    ensures Tiles(V[1..], V[0].end + 1) && Alternates(V[1..], 0, |V[1..]|) && Models(V[1..], f)
  {
    var W := V[1..];
    assert |V| > 1;
    assert V[1].start == V[0].end + 1;
    assert forall m :: 0 <= m < |W| ==> W[m] == V[m + 1];
  }

  lemma FirstEnds(V: seq<Iv>, W: seq<Iv>, lo: nat, f: Counts)
    requires Tiles(V, lo) && Alternates(V, 0, |V|) && Models(V, f)
    requires Tiles(W, lo) && Models(W, f)
    ensures W[0].end <= V[0].end
  {
    assert In(lo, V[0]) && In(lo, W[0]);
    Bounded(W, lo, 0); Bounded(V, lo, 0);
    if V[0].end < UINTPTR_MAX {
      var a := V[0].end + 1;
      assert In(a, V[1]);
      assert V[1].refcnt == f(a) && f(a) != f(lo);
      assert !In(a, W[0]);
    }
  }

  // ----- the three edits ---------------------------------------------------------------

  /** `split_range`: range k is cut, cut being the first address of its upper part. */
  ghost function Split(V: seq<Iv>, k: nat, cut: nat): seq<Iv>
    requires k < |V| && V[k].start < cut <= V[k].end
  {
    V[..k] + [Iv(V[k].start, cut - 1, V[k].refcnt), Iv(cut, V[k].end, V[k].refcnt)] + V[k + 1..]
  }

  /** `merge_ranges`: range k is added to the one before it, whose count is overwritten. */
  ghost function Merge(V: seq<Iv>, k: nat): seq<Iv>
    requires 0 < k < |V|
  {
    V[..k - 1] + [Iv(V[k - 1].start, V[k].end, V[k].refcnt)] + V[k + 1..]
  }

  lemma SplitView(V: seq<Iv>, k: nat, cut: nat)
    requires k < |V| && V[k].start < cut <= V[k].end
    ensures var W := V[k := V[k].(end := cut - 1)];
      W[..k + 1] + [Iv(cut, V[k].end, V[k].refcnt)] + W[k + 1..] == Split(V, k, cut)
  {
  }

  lemma MergeView(V: seq<Iv>, k: nat)
    requires 0 < k < |V|
    ensures var W := V[k - 1 := Iv(V[k - 1].start, V[k].end, V[k].refcnt)];
      W[..k] + W[k + 1..] == Merge(V, k)
  {
  }

  lemma SplitEnds(V: seq<Iv>, k: nat, cut: nat)
    requires Partition(V) && k < |V| && V[k].start < cut <= V[k].end
    ensures var W := Split(V, k, cut);
      |W| == |V| + 1 && W[k] == V[k].(end := cut - 1) && W[k + 1] == V[k].(start := cut) && Partition(W)
  {
    SplitPartition(V, k, cut);
  }

  lemma BumpAt(V: seq<Iv>, k: nat, inc: int)
    requires k < |V|
    ensures |Bump(V, k, inc)| == |V| && Bump(V, k, inc)[k] == V[k].(refcnt := V[k].refcnt + inc)
  {
  }

  lemma BumpOther(V: seq<Iv>, k: nat, inc: int, i: nat)
    requires k < |V| && i < |V| && i != k
    ensures Bump(V, k, inc)[i] == V[i]
  {
  }

  ghost function Bump(V: seq<Iv>, k: nat, inc: int): seq<Iv>
    requires k < |V|
  {
    V[k := V[k].(refcnt := V[k].refcnt + inc)]
  }

  lemma SplitPartition(V: seq<Iv>, k: nat, cut: nat)
    requires Partition(V) && k < |V| && V[k].start < cut <= V[k].end
    ensures Partition(Split(V, k, cut))
  {
    SplitAt(V, k, cut);
    var W := Split(V, k, cut);
    hide Split;
    assert W[0].start == 0 && W[|W| - 1].end == UINTPTR_MAX;
  }

  /** The ranges after a cut, one by one. */
  lemma SplitAt(V: seq<Iv>, k: nat, cut: nat)
    requires k < |V| && V[k].start < cut <= V[k].end
    ensures var W := Split(V, k, cut);
      |W| == |V| + 1 && (forall m :: 0 <= m < k ==> W[m] == V[m]) && W[k] == Iv(V[k].start, cut - 1, V[k].refcnt) &&
      W[k + 1] == Iv(cut, V[k].end, V[k].refcnt) && (forall m :: k + 1 < m < |W| ==> W[m] == V[m - 1])
  {
  }

  /** Cutting a range changes no count, and only the new pair of neighbours is equal. */
  lemma SplitCarries(V: seq<Iv>, k: nat, cut: nat, g: Counts)
    requires k < |V| && V[k].start < cut <= V[k].end
    ensures var W := Split(V, k, cut);
      (Carries(V, 0, k, g) ==> Carries(W, 0, k, g)) &&
      (Carries(V, k, |V|, g) ==> Carries(W, k, |W|, g)) &&
      (Alternates(V, 0, k) ==> Alternates(W, 0, k)) && (Alternates(V, k, |V|) ==> Alternates(W, k + 1, |W|)) &&
      W[k] == V[k].(end := cut - 1) && W[k + 1] == V[k].(start := cut) && (0 < k ==> W[k - 1] == V[k - 1])
  {
    var W := Split(V, k, cut);
    assert forall m :: 0 <= m < k ==> W[m] == V[m];
    assert forall m :: k + 1 < m < |W| ==> W[m] == V[m - 1];
    if Carries(V, k, |V|, g) {
      forall m, a | k <= m < |W| && In(a, W[m]) ensures W[m].refcnt == g(a) {
        assert In(a, V[if m <= k + 1 then k else m - 1]);
      }
    }
  }

  lemma MergePartition(V: seq<Iv>, k: nat)
    requires Partition(V) && 0 < k < |V|
    ensures Partition(Merge(V, k))
  {
    var W := Merge(V, k);
    assert forall m :: 0 <= m < |W| ==>
      W[m] == if m < k - 1 then V[m] else if m == k - 1 then Iv(V[k - 1].start, V[k].end, V[k].refcnt) else V[m + 1];
  }

  // ----- the loop ----------------------------------------------------------------------

  /** The loop of `ibv_madvise_range` has reached range k: the ranges before it carry their new counts,
      the others their old ones, except that a range k which reaches below `start` was merged with its
      predecessor and shows for that lower part a count that is too small by inc. */
  ghost predicate Reached(V: seq<Iv>, k: nat, start: nat, end: nat, inc: int, f: Counts) {
    Partition(V) && k <= |V| && start <= end &&
    Carries(V, 0, k, Plus(f, start, end, inc)) && Carries(V, k, |V|, Plus(f, 0, start - 1, -inc)) &&
    (k < |V| ==> start <= V[k].end) && (0 < k ==> V[k - 1].end <= end) &&
    Alternates(V, 0, k) && Alternates(V, k, |V|) &&
    (0 < k < |V| && V[k].start <= end ==> V[k - 1].refcnt != V[k].refcnt + inc)
  }

  /** The same inside the loop body, once range k no longer reaches beyond `end`. */
  ghost predicate Ready(V: seq<Iv>, k: nat, start: nat, end: nat, inc: int, f: Counts) {
    Partition(V) && k < |V| && start <= V[k].end <= end && V[k].start <= end &&
    Carries(V, 0, k, Plus(f, start, end, inc)) && Carries(V, k, |V|, Plus(f, 0, start - 1, -inc)) &&
    Alternates(V, 0, k) && Alternates(V, k + 1, |V|) &&
    (0 < k ==> V[k - 1].refcnt != V[k].refcnt + inc) &&
    (k + 1 < |V| && V[k + 1].start <= end ==> V[k].refcnt != V[k + 1].refcnt)
  }

  lemma StartSplit(V: seq<Iv>, k: nat, start: nat, end: nat, inc: int, f: Counts)
    requires Canonical(V) && Models(V, f) && k < |V| && V[k].start < start <= V[k].end && start <= end && inc != 0
    ensures Reached(Split(V, k, start), k + 1, start, end, inc, f)
  {
    SplitPartition(V, k, start);
    StartSplitCarries(V, k, start, end, inc, f);
    SplitEnds(V, k, start);
    SplitCarries(V, k, start, f);
    var W := Split(V, k, start);
    assert Alternates(W, 0, k + 1);
    hide Partition, Carries, Split;
  }

  lemma StartSplitCarries(V: seq<Iv>, k: nat, start: nat, end: nat, inc: int, f: Counts)
    requires Partition(V) && Models(V, f) && k < |V| && V[k].start < start <= V[k].end && start <= end
    ensures var W := Split(V, k, start);
      Carries(W, 0, k + 1, Plus(f, start, end, inc)) && Carries(W, k + 1, |W|, Plus(f, 0, start - 1, -inc))
  {
    var W := Split(V, k, start);
    forall m, a | 0 <= m < k + 1 && In(a, W[m]) ensures W[m].refcnt == Plus(f, start, end, inc)(a) {
      assert In(a, V[m]);
      if m < k { Later(V, 0, m, k); }
    }
    forall m, a | k + 1 <= m < |W| && In(a, W[m]) ensures W[m].refcnt == Plus(f, 0, start - 1, -inc)(a) {
      assert In(a, V[m - 1]);
      if k < m - 1 { Later(V, 0, k, m - 1); }
    }
  }

  lemma StartKeep(V: seq<Iv>, k: nat, start: nat, end: nat, inc: int, f: Counts)
    requires Canonical(V) && Models(V, f) && k < |V| && V[k].start == start && start <= end
    requires 0 < k ==> V[k - 1].refcnt != V[k].refcnt + inc
    ensures Reached(V, k, start, end, inc, f)
  {
    forall m, a | 0 <= m < k && In(a, V[m]) ensures V[m].refcnt == Plus(f, start, end, inc)(a) {
      Later(V, 0, m, k);
    }
    forall m, a | k <= m < |V| && In(a, V[m]) ensures V[m].refcnt == Plus(f, 0, start - 1, -inc)(a) {
      if k < m { Later(V, 0, k, m); }
    }
  }

  lemma StartMerge(V: seq<Iv>, k: nat, start: nat, end: nat, inc: int, f: Counts)
    requires Canonical(V) && Models(V, f) && 0 < k < |V| && V[k].start == start && start <= end
    requires V[k - 1].refcnt == V[k].refcnt + inc
    ensures Reached(Merge(V, k), k - 1, start, end, inc, f)
  {
    hide Tiles, Carries, Alternates, Merge, Plus;
    var W := Merge(V, k);
    MergePartition(V, k);
    MergedParts(V, k, start, end, inc);
    MergedBelow(V, W, k, start, end, inc, f);
    MergedAbove(V, W, k, start, inc, f);
  }

  lemma MergedParts(V: seq<Iv>, k: nat, start: nat, end: nat, inc: int)
    requires Canonical(V) && 0 < k < |V| && V[k].start == start && start <= end
    requires V[k - 1].refcnt == V[k].refcnt + inc
    ensures var W := Merge(V, k);
      |W| == |V| - 1 && (forall m :: 0 <= m < k - 1 ==> W[m] == V[m]) &&
      W[k - 1] == Iv(V[k - 1].start, V[k].end, V[k].refcnt) && (forall m :: k <= m < |W| ==> W[m] == V[m + 1]) &&
      Alternates(W, 0, k - 1) && Alternates(W, k - 1, |W|) &&
      (1 < k ==> W[k - 2].end <= end && W[k - 2].refcnt != W[k - 1].refcnt + inc)
    ensures V[k - 1].end + 1 == start <= V[k].end
  {
    assert 1 < k ==> V[k - 2].end < start by { if 1 < k { Later(V, 0, k - 2, k); } }
  }

  lemma MergedBelow(V: seq<Iv>, W: seq<Iv>, k: nat, start: nat, end: nat, inc: int, f: Counts)
    requires Partition(V) && Models(V, f) && 0 < k < |V| && V[k].start == start && |W| == |V| - 1
    requires forall m :: 0 <= m < k - 1 ==> W[m] == V[m]
    ensures Carries(W, 0, k - 1, Plus(f, start, end, inc))
  {
    forall m, a | 0 <= m < k - 1 && In(a, W[m]) ensures W[m].refcnt == Plus(f, start, end, inc)(a) {
      assert In(a, V[m]);
      Later(V, 0, m, k);
    }
  }

  lemma MergedAbove(V: seq<Iv>, W: seq<Iv>, k: nat, start: nat, inc: int, f: Counts)
    requires Partition(V) && Models(V, f) && 0 < k < |V| && V[k].start == start && |W| == |V| - 1
    requires V[k - 1].end + 1 == start && V[k - 1].refcnt == V[k].refcnt + inc
    requires W[k - 1] == Iv(V[k - 1].start, V[k].end, V[k].refcnt) && forall m :: k <= m < |W| ==> W[m] == V[m + 1]
    ensures Carries(W, k - 1, |W|, Plus(f, 0, start - 1, -inc))
  {
    forall m, a | k - 1 <= m < |W| && In(a, W[m]) ensures W[m].refcnt == Plus(f, 0, start - 1, -inc)(a) {
      if m == k - 1 {
        assert In(a, V[k - 1]) || In(a, V[k]);
      } else {
        assert In(a, V[m + 1]);
        Later(V, 0, k, m + 1);
      }
    }
  }

  lemma BodyKeep(V: seq<Iv>, k: nat, start: nat, end: nat, inc: int, f: Counts)
    requires Reached(V, k, start, end, inc, f) && k < |V| && V[k].start <= end && V[k].end <= end
    ensures Ready(V, k, start, end, inc, f)
  {
  }

  lemma BodySplit(V: seq<Iv>, k: nat, start: nat, end: nat, inc: int, f: Counts)
    requires Reached(V, k, start, end, inc, f) && k < |V| && V[k].start <= end < V[k].end
    ensures Ready(Split(V, k, end + 1), k, start, end, inc, f)
    ensures Split(V, k, end + 1)[k] == V[k].(end := end)
  {
    hide Partition, Carries, Plus, Split, Alternates;
    SplitPartition(V, k, end + 1);
    SplitAt(V, k, end + 1);
    SplitCarries(V, k, end + 1, Plus(f, start, end, inc));
    SplitCarries(V, k, end + 1, Plus(f, 0, start - 1, -inc));
  }

  lemma BodyBump(V: seq<Iv>, k: nat, start: nat, end: nat, inc: int, f: Counts)
    requires Ready(V, k, start, end, inc, f) && inc != 0
    ensures Reached(Bump(V, k, inc), k + 1, start, end, inc, f)
  {
    var W := Bump(V, k, inc);
    assert forall m :: 0 <= m < |W| && m != k ==> W[m] == V[m];
    assert W[k] == Iv(V[k].start, V[k].end, V[k].refcnt + inc);
    forall m, a | 0 <= m < k + 1 && In(a, W[m]) ensures W[m].refcnt == Plus(f, start, end, inc)(a) {
      assert In(a, V[m]);
      if m == k { assert V[k].refcnt == Plus(f, 0, start - 1, -inc)(a); }
    }
    forall m, a | k + 1 <= m < |W| && In(a, W[m]) ensures W[m].refcnt == Plus(f, 0, start - 1, -inc)(a) {
      assert In(a, V[m]);
    }
  }

  /** Behind the loop every count is right; only the last pair of neighbours may be equal. */
  lemma Finished(V: seq<Iv>, k: nat, start: nat, end: nat, inc: int, f: Counts)
    requires Reached(V, k, start, end, inc, f) && (k < |V| ==> end < V[k].start) && end <= UINTPTR_MAX
    ensures 0 < k && Models(V, Plus(f, start, end, inc))
    ensures k == |V| || V[k - 1].refcnt != V[k].refcnt ==> Canonical(V)
    ensures k < |V| && V[k - 1].refcnt == V[k].refcnt ==>
      Canonical(Merge(V, k)) && Models(Merge(V, k), Plus(f, start, end, inc))
  {
    forall m, a | 0 <= m < |V| && In(a, V[m]) ensures V[m].refcnt == Plus(f, start, end, inc)(a) {
      if k < m { Later(V, 0, k, m); }
      if k <= m { assert V[m].refcnt == Plus(f, 0, start - 1, -inc)(a); }
    }
    if k < |V| && V[k - 1].refcnt == V[k].refcnt {
      MergeEqual(V, k, Plus(f, start, end, inc));
      MergeAlternates(V, k);
    }
  }

  lemma MergeEqual(V: seq<Iv>, k: nat, f: Counts)
    requires Partition(V) && Models(V, f) && 0 < k < |V| && V[k - 1].refcnt == V[k].refcnt
    ensures Partition(Merge(V, k)) && Models(Merge(V, k), f)
  {
    var W := Merge(V, k);
    MergePartition(V, k);
    forall m, a | 0 <= m < |W| && In(a, W[m]) ensures W[m].refcnt == f(a) {
      if m < k - 1 {
        assert W[m] == V[m] && In(a, V[m]);
      } else if m == k - 1 {
        assert In(a, V[k - 1]) || In(a, V[k]);
      } else {
        assert W[m] == V[m + 1] && In(a, V[m + 1]);
      }
    }
  }

  lemma MergeAlternates(V: seq<Iv>, k: nat)
    requires 0 < k < |V| && V[k - 1].refcnt == V[k].refcnt && Alternates(V, 0, k)
    ensures Alternates(Merge(V, k), 0, k)
    ensures Alternates(V, k, |V|) ==> Alternates(Merge(V, k), 0, |V| - 1)
    ensures Alternates(V, k + 1, |V|) ==> Alternates(Merge(V, k), k, |V| - 1)
  {
    var W := Merge(V, k);
    assert forall m :: 0 <= m < |W| ==> W[m].refcnt == if m < k then V[m].refcnt else V[m + 1].refcnt;
  }

  // ----- undoing a failed step ---------------------------------------------------------

  /** All counts are g; range k may equal one or both of its neighbours. */
  ghost predicate Undoing(V: seq<Iv>, k: nat, g: Counts) {
    Partition(V) && Models(V, g) && k < |V| && Alternates(V, 0, k) && Alternates(V, k + 1, |V|)
  }

  lemma UndoSplit(V: seq<Iv>, k: nat, start: nat, end: nat, inc: int, f: Counts)
    requires Ready(V, k, start, end, inc, f) && V[k].start < start && inc != 0
    ensures Undoing(Bump(Split(V, k, start), k, inc), k + 1, Plus(f, start, start - 1, inc))
  {
    var W := Split(V, k, start);
    SplitPartition(V, k, start);
    SplitCarries(V, k, start, Plus(f, start, end, inc));
    SplitCarries(V, k, start, Plus(f, 0, start - 1, -inc));
    UndoSplitCounts(W, k, start, end, inc, f);
    hide Partition, Carries, Models, Split;
    BumpAlternates(W, k, inc);
  }

  lemma BumpAlternates(W: seq<Iv>, k: nat, inc: int)
    requires k + 1 < |W| && Alternates(W, 0, k) && Alternates(W, k + 2, |W|) && inc != 0
    requires W[k].refcnt == W[k + 1].refcnt && (0 < k ==> W[k - 1].refcnt != W[k].refcnt + inc)
    ensures Alternates(Bump(W, k, inc), 0, k + 1) && Alternates(Bump(W, k, inc), k + 2, |W|)
  {
  }

  lemma UndoSplitCounts(W: seq<Iv>, k: nat, start: nat, end: nat, inc: int, f: Counts)
    requires Partition(W) && k + 1 < |W| && W[k + 1].start == start
    requires Carries(W, 0, k, Plus(f, start, end, inc)) && Carries(W, k, |W|, Plus(f, 0, start - 1, -inc))
    ensures Partition(Bump(W, k, inc)) && Models(Bump(W, k, inc), Plus(f, start, start - 1, inc))
  {
    var X, g := Bump(W, k, inc), Plus(f, start, start - 1, inc);
    assert forall m :: 0 <= m < |W| && m != k ==> X[m] == W[m];
    forall m, a | 0 <= m < |X| && In(a, X[m]) ensures X[m].refcnt == g(a) {
      assert In(a, W[m]);
      if m <= k { Later(W, 0, m, k + 1); }
      if k + 1 < m { Later(W, 0, k + 1, m); }
      if m < k { assert W[m].refcnt == Plus(f, start, end, inc)(a); }
      else { assert W[m].refcnt == Plus(f, 0, start - 1, -inc)(a); }
    }
  }

  lemma UndoKeep(V: seq<Iv>, k: nat, start: nat, end: nat, inc: int, f: Counts)
    requires Ready(V, k, start, end, inc, f) && start <= V[k].start
    ensures Undoing(V, k, Plus(f, start, V[k].start - 1, inc))
  {
    var g := Plus(f, start, V[k].start - 1, inc);
    forall m, a | 0 <= m < |V| && In(a, V[m]) ensures V[m].refcnt == g(a) {
      if m < k {
        Later(V, 0, m, k);
        assert V[m].refcnt == Plus(f, start, end, inc)(a);
      } else {
        if k < m { Later(V, 0, k, m); }
        assert V[m].refcnt == Plus(f, 0, start - 1, -inc)(a);
      }
    }
  }

  /** Merging with the predecessor if the counts are equal. */
  lemma UndoPrev(V: seq<Iv>, k: nat, g: Counts)
    requires Undoing(V, k, g)
    ensures 0 < k && V[k - 1].refcnt == V[k].refcnt ==>
      Undoing(Merge(V, k), k - 1, g) && Alternates(Merge(V, k), 0, k)
    ensures !(0 < k && V[k - 1].refcnt == V[k].refcnt) ==> Alternates(V, 0, k + 1)
  {
    if 0 < k && V[k - 1].refcnt == V[k].refcnt {
      MergeEqual(V, k, g);
      MergeAlternates(V, k);
    }
  }

  /** And with the successor. */
  lemma UndoNext(V: seq<Iv>, k: nat, g: Counts)
    requires Undoing(V, k, g) && Alternates(V, 0, k + 1)
    ensures if k + 1 < |V| && V[k].refcnt == V[k + 1].refcnt
            then Canonical(Merge(V, k + 1)) && Models(Merge(V, k + 1), g)
            else Canonical(V) && Models(V, g)
  {
    if k + 1 < |V| && V[k].refcnt == V[k + 1].refcnt {
      MergeEqual(V, k + 1, g);
      MergeAlternates(V, k + 1);
    }
  }

  lemma ReadyFacts(V: seq<Iv>, k: nat, start: nat, end: nat, inc: int, f: Counts)
    requires Ready(V, k, start, end, inc, f)
    ensures Partition(V) && k < |V| && start <= V[k].end <= end && V[k].start <= V[k].end
    ensures V[k].start <= start ==> f(start) == V[k].refcnt
    ensures start <= V[k].start ==> f(V[k].start) == V[k].refcnt
    ensures V[k].start < start ==> Partition(Split(V, k, start))
  {
    var p := if start > V[k].start then start else V[k].start;
    assert In(p, V[k]);
    assert V[k].refcnt == Plus(f, 0, start - 1, -inc)(p);
    if V[k].start < start { SplitPartition(V, k, start); }
  }

  lemma UndoingFacts(V: seq<Iv>, k: nat, g: Counts)
    requires Undoing(V, k, g)
    ensures Partition(V) && k < |V|
    ensures 0 < k ==> V[k - 1].start <= V[k].start && Merge(V, k)[k - 1] == Iv(V[k - 1].start, V[k].end, V[k].refcnt)
    ensures k + 1 < |V| ==> V[k].end <= V[k + 1].end
    ensures k + 1 < |V| ==> Merge(V, k + 1)[k] == Iv(V[k].start, V[k + 1].end, V[k + 1].refcnt)
  {
  }

  lemma ReachedFacts(V: seq<Iv>, k: nat, start: nat, end: nat, inc: int, f: Counts)
    requires Reached(V, k, start, end, inc, f)
    ensures Partition(V) && k <= |V| && start <= end && (k < |V| ==> start <= V[k].end && V[k].start <= V[k].end)
    ensures 0 < k < |V| ==> V[k - 1].end + 1 == V[k].start
    ensures 0 < k ==> V[k - 1].end <= end && (k == |V| ==> V[k - 1].end == UINTPTR_MAX)
  {
  }

  // ----- counts ------------------------------------------------------------------------

  /** The reference count of an address. */
  ghost function Count(V: seq<Iv>, a: int): int {
    if V == [] then 0 else if In(a, V[0]) then V[0].refcnt else Count(V[1..], a)
  }

  ghost function CountsOf(V: seq<Iv>): Counts { a => Count(V, a) }

  lemma {:induction false} CountIn(V: seq<Iv>, lo: nat, i: nat, a: int)
    requires Tiles(V, lo) && i < |V| && In(a, V[i])
    ensures Count(V, a) == V[i].refcnt
    decreases i
  {
    if i > 0 {
      Later(V, lo, 0, i);
      var W := V[1..];
      assert forall m :: 0 <= m < |W| ==> W[m] == V[m + 1];
      assert Tiles(W, V[1].start);
      CountIn(W, V[1].start, i - 1, a);
    }
  }

  lemma CountsModel(V: seq<Iv>)
    requires Partition(V)
    ensures Models(V, CountsOf(V))
  {
    forall m, a | 0 <= m < |V| && In(a, V[m]) ensures V[m].refcnt == CountsOf(V)(a) { CountIn(V, 0, m, a); }
  }

  lemma ModelsCount(V: seq<Iv>, f: Counts, a: nat)
    requires Partition(V) && Models(V, f) && a <= UINTPTR_MAX
    ensures Count(V, a) == f(a)
  {
    var i := Covered(V, 0, a);
    CountIn(V, 0, i, a);
  }

  /** Equal counts make equal canonical partitions. */
  lemma SameCounts(V: seq<Iv>, W: seq<Iv>, f: Counts, g: Counts)
    requires Canonical(V) && Models(V, f) && Canonical(W) && Models(W, g)
    requires forall a :: 0 <= a <= UINTPTR_MAX ==> f(a) == g(a)
    ensures V == W
  {
    forall m, a | 0 <= m < |W| && In(a, W[m]) ensures W[m].refcnt == f(a) { Bounded(W, 0, m); }
    CanonicalUnique(V, W, 0, f);
  }

  lemma DifferentCounts(V: seq<Iv>, W: seq<Iv>, f: Counts, g: Counts, a: nat)
    requires Partition(V) && Models(V, f) && Partition(W) && Models(W, g) && a <= UINTPTR_MAX && f(a) != g(a)
    ensures V != W
  {
    ModelsCount(V, f, a); ModelsCount(W, g, a);
  }

  /** Whether a refused call that was rolled back leaves no trace: V0 is the partition before the call,
      V1 the one after the refused pass, k the range around the refused address p. */
  ghost predicate Restorable(f: Counts, start: nat, p: nat, inc: int) {
    p == start || f(p - 1) + inc != f(p)
  }

  lemma RangeAround(V: seq<Iv>, k: nat, g: Counts, p: nat)
    requires Canonical(V) && Models(V, g) && k < |V| && In(p, V[k])
    ensures 0 < p && V[k].start < p ==> g(p - 1) == g(p)
    ensures 0 < p == V[k].start ==> 0 < k && g(p - 1) != g(p)
  {
    assert V[k].refcnt == g(p);
    if V[k].start < p {
      assert In(p - 1, V[k]);
    } else if 0 < p {
      assert 0 < k;
      assert In(p - 1, V[k - 1]);
    }
  }

  lemma NothingToRollBack(V0: seq<Iv>, V1: seq<Iv>, f: Counts, start: nat, p: nat, inc: int, k: nat)
    requires Canonical(V0) && Models(V0, f) && inc != 0
    requires Canonical(V1) && Models(V1, Plus(f, start, p - 1, inc)) && k < |V1| && In(p, V1[k]) && start <= p
    requires V1[k].start <= start
    ensures V1 == V0 <==> Restorable(f, start, p, inc)
  {
    var g := Plus(f, start, p - 1, inc);
    Bounded(V1, 0, k);
    RangeAround(V1, k, g, p);
    if p == start {
      SameCounts(V1, V0, g, f);
    } else {
      DifferentCounts(V1, V0, g, f, p - 1);
    }
  }

  lemma RolledBackTo(V0: seq<Iv>, V1: seq<Iv>, V2: seq<Iv>, f: Counts, start: nat, p: nat, inc: int, k: nat)
    requires Canonical(V0) && Models(V0, f) && inc != 0
    requires Canonical(V1) && Models(V1, Plus(f, start, p - 1, inc)) && k < |V1| && In(p, V1[k]) && start < V1[k].start
    requires Canonical(V2) && Models(V2, Plus(Plus(f, start, p - 1, inc), start, V1[k].start - 1, -inc))
    ensures V2 == V0 <==> Restorable(f, start, p, inc)
  {
    var g := Plus(f, start, p - 1, inc);
    var h := Plus(g, start, V1[k].start - 1, -inc);
    Bounded(V1, 0, k);
    RangeAround(V1, k, g, p);
    if V1[k].start == p {
      SameCounts(V2, V0, h, f);
    } else {
      DifferentCounts(V2, V0, h, f, p - 1);
    }
  }
}
