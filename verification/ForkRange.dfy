/** `ibv_madvise_range` of memory.c over the red-black tree of ranges, with the kernel as an oracle. */
module ForkRange {
  import opened RedBlack
  import opened MemLinks
  import opened Pages
  import opened MemTree
  import opened RangeMap

  datatype Advice = DontFork | DoFork

  function Increment(advice: Advice): int { if advice.DontFork? then 1 else -1 }

  function Opposite(advice: Advice): Advice { if advice.DontFork? then DoFork else DontFork }

  /** How one pass over the range ended. */
  datatype Status = Done | Refused | NoMemory

  // ----- what the kernel holds ---------------------------------------------------------

  ghost function Range(lo: int, hi: int): iset<int> { iset a | Within(a, lo, hi) }

  ghost predicate Within(a: int, lo: int, hi: int) { lo <= a <= hi }

  ghost predicate Avoids(X: iset<int>, lo: int, hi: int) { forall a :: lo <= a <= hi ==> a !in X }

  /** Outside X the kernel holds as "don't fork" exactly the addresses with a positive count. */
  ghost predicate Shown(K: iset<int>, f: Counts, X: iset<int>) {
    forall a :: 0 <= a <= UINTPTR_MAX && a !in X ==> (a in K <==> f(a) > 0)
  }

  ghost predicate Advised(K: iset<int>, K': iset<int>, lo: int, hi: int, advice: Advice, ok: bool) {
    (forall a :: !(lo <= a <= hi) ==> (a in K' <==> a in K)) &&
    (ok ==> forall a :: lo <= a <= hi ==> (a in K' <==> advice.DontFork?))
  }

  lemma RefusalShown(K: iset<int>, K': iset<int>, f: Counts, X: iset<int>, p: nat, q: nat, advice: Advice)
    requires Shown(K, f, X) && Advised(K, K', p, q, advice, false)
    ensures Shown(K', f, X + Range(p, q))
  {
  }

  /** A count that crosses zero is told to the kernel ... */
  lemma CrossingShown(V: seq<Iv>, k: nat, start: nat, end: nat, f: Counts, p: nat,
                      K: iset<int>, K': iset<int>, X: iset<int>, advice: Advice)
    requires Ready(V, k, start, end, Increment(advice), f) && p == if start > V[k].start then start else V[k].start
    requires V[k].refcnt == if advice.DontFork? then 0 else 1
    requires Avoids(X, start, end) && Shown(K, Plus(f, start, p - 1, Increment(advice)), X)
    requires Advised(K, K', p, V[k].end, advice, true)
    ensures Shown(K', Plus(f, start, V[k].end, Increment(advice)), X)
  {
    var inc := Increment(advice);
    forall a | 0 <= a <= UINTPTR_MAX && a !in X ensures a in K' <==> Plus(f, start, V[k].end, inc)(a) > 0 {
      if p <= a <= V[k].end {
        assert In(a, V[k]);
        assert V[k].refcnt == Plus(f, 0, start - 1, -inc)(a);
      } else {
        assert a in K <==> Plus(f, start, p - 1, inc)(a) > 0;
      }
    }
  }

  /** ... and no other count has to be. */
  lemma NoCrossingShown(V: seq<Iv>, k: nat, start: nat, end: nat, f: Counts, p: nat,
                        K: iset<int>, X: iset<int>, advice: Advice)
    requires Ready(V, k, start, end, Increment(advice), f) && p == if start > V[k].start then start else V[k].start
    requires V[k].refcnt != if advice.DontFork? then 0 else 1
    requires Shown(K, Plus(f, start, p - 1, Increment(advice)), X)
    ensures Shown(K, Plus(f, start, V[k].end, Increment(advice)), X)
  {
    var inc := Increment(advice);
    forall a | 0 <= a <= UINTPTR_MAX && a !in X ensures a in K <==> Plus(f, start, V[k].end, inc)(a) > 0 {
      assert a in K <==> Plus(f, start, p - 1, inc)(a) > 0;
      if p <= a <= V[k].end {
        assert In(a, V[k]);
        assert V[k].refcnt == Plus(f, 0, start - 1, -inc)(a);
      }
    }
  }

  // ----- what the kernel is told -------------------------------------------------------

  /** One call of madvise. */
  datatype Told = Told(lo: int, hi: int, advice: Advice)

  /** The count at which a call has to be made. */
  function Crossing(advice: Advice): int { if advice.DontFork? then 0 else 1 }

  /** The call is about bytes of [start, end] whose count crosses zero; it gives the advice itself, or,
      where something may have been undone, the opposite. */
  ghost predicate Due(t: Told, start: int, end: int, f: Counts, advice: Advice, undoing: bool) {
    start <= t.lo <= t.hi <= end && (undoing || t.advice == advice) &&
    forall a :: t.lo <= a <= t.hi ==> f(a) == Crossing(advice)
  }

  /** Between was and now, only calls were made that are due. */
  ghost predicate Logged(was: seq<Told>, now: seq<Told>, start: int, end: int, f: Counts, advice: Advice,
                         undoing: bool) {
    was <= now && forall i :: |was| <= i < |now| ==> Due(now[i], start, end, f, advice, undoing)
  }

  lemma NothingLogged(log: seq<Told>, start: int, end: int, f: Counts, advice: Advice)
    ensures Logged(log, log, start, end, f, advice, false)
  {
  }

  lemma OneLogged(was: seq<Told>, t: Told, start: int, end: int, f: Counts, advice: Advice)
    requires Due(t, start, end, f, advice, false)
    ensures Logged(was, was + [t], start, end, f, advice, false)
  {
  }

  lemma LoggedThen(was: seq<Told>, mid: seq<Told>, now: seq<Told>, start: int, end: int, f: Counts, advice: Advice,
                   undoing: bool)
    requires Logged(was, mid, start, end, f, advice, false) && Logged(mid, now, start, end, f, advice, undoing)
    ensures Logged(was, now, start, end, f, advice, undoing)
  {
    assert now[..|mid|] == mid && mid[..|was|] == was;
    assert now[..|was|] == was;
  }

  /** What is told while changes are taken back concerns the very bytes whose counts had crossed zero. */
  lemma LoggedBack(was: seq<Told>, now: seq<Told>, start: int, last: int, end: int, f: Counts, p: int, advice: Advice)
    requires last < p && last <= end
    requires Logged(was, now, start, last, Plus(f, start, p - 1, Increment(advice)), Opposite(advice), false)
    ensures Logged(was, now, start, end, f, advice, true)
  {
    forall i | |was| <= i < |now| ensures Due(now[i], start, end, f, advice, true) {
      var t, g := now[i], Plus(f, start, p - 1, Increment(advice));
      assert Due(t, start, last, g, Opposite(advice), false);
      forall a | t.lo <= a <= t.hi ensures f(a) == Crossing(advice) { assert g(a) == Crossing(Opposite(advice)); }
    }
  }

  lemma LoggedUndoing(was: seq<Told>, now: seq<Told>, start: int, end: int, f: Counts, advice: Advice)
    requires Logged(was, now, start, end, f, advice, false)
    ensures Logged(was, now, start, end, f, advice, true)
  {
    forall i | |was| <= i < |now| ensures Due(now[i], start, end, f, advice, true) {
      assert Due(now[i], start, end, f, advice, false);
    }
  }

  lemma CrossingDue(V: seq<Iv>, k: nat, start: nat, end: nat, f: Counts, p: nat, advice: Advice)
    requires Ready(V, k, start, end, Increment(advice), f) && p == if start > V[k].start then start else V[k].start
    requires V[k].refcnt == Crossing(advice)
    ensures Due(Told(p, V[k].end, advice), start, end, f, advice, false)
  {
    var inc := Increment(advice);
    forall a | p <= a <= V[k].end ensures f(a) == Crossing(advice) {
      assert In(a, V[k]);
      assert V[k].refcnt == Plus(f, 0, start - 1, -inc)(a);
    }
  }

  lemma NothingAvoided(start: int, end: int)
    ensures Avoids(iset{}, start, end)
  {
  }

  lemma AvoidsBelow(start: int, end: int, p: int, q: int)
    requires end < p
    ensures Avoids(Range(p, q), start, end)
  {
  }

  lemma SettledCounts(V: seq<Iv>, f: Counts, K: iset<int>, X: iset<int>)
    requires Canonical(V) && Models(V, f) && Shown(K, f, X)
    ensures Shown(K, CountsOf(V), X)
  {
    forall a: nat | a <= UINTPTR_MAX ensures Count(V, a) == f(a) { ModelsCount(V, f, a); }
  }

  lemma AppliedCounts(V0: seq<Iv>, V: seq<Iv>, start: nat, end: nat, inc: int)
    requires Canonical(V) && Models(V, Plus(CountsOf(V0), start, end, inc))
    ensures forall a :: 0 <= a <= UINTPTR_MAX ==> Count(V, a) == Count(V0, a) + if start <= a <= end then inc else 0
  {
    forall a: nat | a <= UINTPTR_MAX ensures Count(V, a) == Plus(CountsOf(V0), start, end, inc)(a) {
      ModelsCount(V, Plus(CountsOf(V0), start, end, inc), a);
    }
  }

  lemma PlusNothing(K: iset<int>, f: Counts, start: nat, inc: int, X: iset<int>)
    requires Shown(K, f, X)
    ensures Shown(K, Plus(f, start, start - 1, inc), X)
  {
  }

  ghost function View(s: seq<MemNode>): (v: seq<Iv>)
    reads s
    ensures |v| == |s| && forall i :: 0 <= i < |s| ==> v[i] == Iv(s[i].start, s[i].end, s[i].refcnt)
  {
    seq(|s|, i requires 0 <= i < |s| reads s => Iv(s[i].start, s[i].end, s[i].refcnt))
  }

  lemma ViewInserted(s: seq<MemNode>, k: nat, n: MemNode)
    requires k <= |s|
    ensures View(s[..k] + [n] + s[k..]) == View(s)[..k] + [Iv(n.start, n.end, n.refcnt)] + View(s)[k..]
  {
  }

  lemma ViewRemoved(s: seq<MemNode>, k: nat)
    requires k < |s|
    ensures View(s[..k] + s[k + 1..]) == View(s)[..k] + View(s)[k + 1..]
  {
  }

  /** How a call of `ibv_madvise_range` ended; [p, q] are the bytes the kernel refused, and [r, s] those it
      refused while the changes were being taken back. When a malloc failed, the addresses from lo up to hi
      have their new counts; `undoing` says whether that was in the second pass. */
  datatype Outcome =
    | Applied
    | RolledBack(p: nat, q: nat)
    | RollBackRefused(p: nat, q: nat, r: nat, s: nat)
    | OutOfMemory(lo: nat, hi: nat, undoing: bool)

  /** The calls of madvise that the kernel refused for this outcome. */
  ghost function Refusals(o: Outcome, advice: Advice): seq<Told>
    requires !o.OutOfMemory?
  {
    match o
    case Applied => []
    case RolledBack(p, q) => [Told(p, q, advice)]
    case RollBackRefused(p, q, r, s) => [Told(p, q, advice), Told(r, s, Opposite(advice))]
  }

  /** How many mallocs failed and which calls of madvise were refused decides how one pass ends; t is the
      call that was refused in it. */
  ghost predicate Ended(status: Status, failures: nat, failures': nat, refused: seq<Told>, refused': seq<Told>,
                        t: Told) {
    match status
    case Done => failures' == failures && refused' == refused
    case Refused => failures' == failures && refused' == refused + [t]
    case NoMemory => failures' == failures + 1 && (refused' == refused || refused' == refused + [t])
  }

  /** After a refused undo exactly the addresses between the two refusals have their new counts. */
  ghost predicate HalfUndone(o: Outcome, start: nat, V0: seq<Iv>, V: seq<Iv>, inc: int) {
    o.RollBackRefused? && start <= o.r <= o.s < o.p <= o.q &&
    forall a :: 0 <= a <= UINTPTR_MAX ==> Count(V, a) == Count(V0, a) + if o.r <= a < o.p then inc else 0
  }

  lemma HalfUndoneCounts(o: Outcome, start: nat, V0: seq<Iv>, V: seq<Iv>, inc: int)
    requires o.RollBackRefused? && start <= o.r <= o.s < o.p <= o.q && Canonical(V)
    requires Models(V, Plus(Plus(CountsOf(V0), start, o.p - 1, inc), start, o.r - 1, -inc))
    ensures HalfUndone(o, start, V0, V, inc)
  {
    var g := Plus(Plus(CountsOf(V0), start, o.p - 1, inc), start, o.r - 1, -inc);
    forall a: nat | a <= UINTPTR_MAX ensures Count(V, a) == g(a) { ModelsCount(V, g, a); }
  }

  /** What a failed malloc leaves: the addresses from start up to p have their new counts. If that is none of
      them, a range below start may be merged with the first one, its count too low by inc. */
  ghost predicate Stuck(V: seq<Iv>, f: Counts, start: nat, end: nat, inc: int, p: nat) {
    Partition(V) && start <= p <= end && exists y: nat :: Short(V, f, start, inc, p, y)
  }

  ghost predicate Short(V: seq<Iv>, f: Counts, start: nat, inc: int, p: nat, y: nat) {
    y <= start && (y < start ==> p == start) && Models(V, Plus(Plus(f, start, p - 1, inc), y, start - 1, -inc)) &&
    forall a :: y <= a < start ==> f(a) == f(start) + inc
  }

  /** After a failed malloc the addresses from lo up to hi have their new counts. Only if the pass in which it
      failed had changed nothing yet, some more below start may be wrong by inc: in the first pass too low
      by it, in the second too high. */
  ghost predicate Abandoned(o: Outcome, start: nat, end: nat, V0: seq<Iv>, V: seq<Iv>, inc: int) {
    o.OutOfMemory? && start <= o.lo <= o.hi <= end && exists y: nat :: Wrong(o, start, V0, V, inc, y)
  }

  ghost predicate Wrong(o: Outcome, start: nat, V0: seq<Iv>, V: seq<Iv>, inc: int, y: nat)
    requires o.OutOfMemory?
  {
    y <= start && (y < start ==> start == if o.undoing then o.lo else o.hi) &&
    (forall a :: 0 <= a <= UINTPTR_MAX ==>
      Count(V, a) == Count(V0, a) + (if o.lo <= a < o.hi then inc else 0) +
        if y <= a < start then (if o.undoing then inc else -inc) else 0) &&
    forall a :: y <= a < start ==> Count(V0, a) == Count(V0, start) + if o.undoing then 0 else inc
  }

  lemma AbandonedFirst(o: Outcome, start: nat, end: nat, V0: seq<Iv>, V: seq<Iv>, inc: int)
    requires o.OutOfMemory? && !o.undoing && o.lo == start && Stuck(V, CountsOf(V0), start, end, inc, o.hi)
    ensures Abandoned(o, start, end, V0, V, inc)
  {
    var y: nat :| Short(V, CountsOf(V0), start, inc, o.hi, y);
    var g := Plus(Plus(CountsOf(V0), start, o.hi - 1, inc), y, start - 1, -inc);
    forall a: nat | a <= UINTPTR_MAX ensures Count(V, a) == g(a) { ModelsCount(V, g, a); }
    forall a | y <= a < start ensures Count(V0, a) == Count(V0, start) + inc {
      assert CountsOf(V0)(a) == CountsOf(V0)(start) + inc;
    }
    assert Wrong(o, start, V0, V, inc, y);
  }

  lemma AbandonedSecond(o: Outcome, start: nat, last: nat, end: nat, V0: seq<Iv>, V: seq<Iv>, inc: int)
    requires o.OutOfMemory? && o.undoing && last < o.hi <= end
    requires Stuck(V, Plus(CountsOf(V0), start, o.hi - 1, inc), start, last, -inc, o.lo)
    ensures Abandoned(o, start, end, V0, V, inc)
  {
    var f := Plus(CountsOf(V0), start, o.hi - 1, inc);
    var y: nat :| Short(V, f, start, -inc, o.lo, y);
    var g := Plus(Plus(f, start, o.lo - 1, -inc), y, start - 1, inc);
    forall a: nat | a <= UINTPTR_MAX ensures Count(V, a) == g(a) { ModelsCount(V, g, a); }
    forall a | y <= a < start ensures Count(V0, a) == Count(V0, start) { assert f(a) == f(start) - inc; }
    assert Wrong(o, start, V0, V, inc, y);
  }

  /** The bytes that calls were about. */
  ghost function Bytes(calls: seq<Told>): iset<int> {
    iset a | Concerned(calls, a)
  }

  ghost predicate Concerned(calls: seq<Told>, a: int) { exists t :: t in calls && Within(a, t.lo, t.hi) }

  lemma BytesOfOne(calls: seq<Told>, t: Told, K: iset<int>, f: Counts, X: iset<int>)
    requires Shown(K, f, X + Range(t.lo, t.hi)) && calls == [t]
    ensures Shown(K, f, X + Bytes(calls))
  {
    forall a | a in Range(t.lo, t.hi) ensures a in Bytes(calls) { assert t in calls && Within(a, t.lo, t.hi); }
  }

  lemma BytesMore(t: Told, calls: seq<Told>, K: iset<int>, f: Counts)
    requires Shown(K, f, Range(t.lo, t.hi) + Bytes(calls))
    ensures Shown(K, f, Bytes([t] + calls))
  {
    var all := [t] + calls;
    assert t in all;
    forall a | a in Range(t.lo, t.hi) + Bytes(calls) ensures a in Bytes(all) {
      if a in Bytes(calls) {
        var u :| u in calls && Within(a, u.lo, u.hi);
        assert u in all;
      }
    }
  }

  lemma ShownMore(K: iset<int>, f: Counts, X: iset<int>, Y: iset<int>)
    requires Shown(K, f, X)
    ensures Shown(K, f, X + Y)
  {
  }

  lemma ShownSame(K: iset<int>, f: Counts, g: Counts, X: iset<int>)
    requires Shown(K, f, X) && forall a :: f(a) == g(a)
    ensures Shown(K, g, X)
  {
    forall a | 0 <= a <= UINTPTR_MAX && a !in X ensures a in K <==> g(a) > 0 { assert f(a) == g(a); }
  }

  /** What the failed mallocs and the refused calls of a call say about its outcome. */
  ghost predicate Accounted(o: Outcome, advice: Advice, failures: nat, failures': nat, refused: seq<Told>,
                            refused': seq<Told>) {
    if o.OutOfMemory? then failures' == failures + 1 && refused <= refused'
    else failures' == failures && refused' == refused + Refusals(o, advice)
  }

  lemma ReachedStuck(V: seq<Iv>, k: nat, start: nat, end: nat, inc: int, f: Counts, p: nat)
    requires Reached(V, k, start, end, inc, f) && k < |V|
    requires p == (if start > V[k].start then start else V[k].start) <= end
    ensures Stuck(V, f, start, end, inc, p)
  {
    var y := if V[k].start < start then V[k].start else start;
    ShortAt(V, k, start, end, inc, f, p, y);
  }

  lemma ReadyStuck(V: seq<Iv>, k: nat, start: nat, end: nat, inc: int, f: Counts, p: nat)
    requires Ready(V, k, start, end, inc, f) && p == if start > V[k].start then start else V[k].start
    ensures Stuck(V, f, start, end, inc, p)
  {
    var y := if V[k].start < start then V[k].start else start;
    ShortAt(V, k, start, end, inc, f, p, y);
  }

  lemma ShortAt(V: seq<Iv>, k: nat, start: nat, end: nat, inc: int, f: Counts, p: nat, y: nat)
    requires Partition(V) && k < |V| && start <= end && start <= V[k].end && (0 < k ==> V[k - 1].end <= end)
    requires Carries(V, 0, k, Plus(f, start, end, inc)) && Carries(V, k, |V|, Plus(f, 0, start - 1, -inc))
    requires p == (if start > V[k].start then start else V[k].start) <= end
    requires y == if V[k].start < start then V[k].start else start
    ensures Short(V, f, start, inc, p, y)
  {
    var g := Plus(Plus(f, start, p - 1, inc), y, start - 1, -inc);
    forall m, a | 0 <= m < |V| && In(a, V[m]) ensures V[m].refcnt == g(a) {
      if m < k {
        Later(V, 0, m, k);
        assert V[m].refcnt == Plus(f, start, end, inc)(a);
      } else {
        if k < m { Later(V, 0, k, m); }
        assert V[m].refcnt == Plus(f, 0, start - 1, -inc)(a);
      }
    }
    forall a | y <= a < start ensures f(a) == f(start) + inc {
      assert In(a, V[k]) && In(start, V[k]);
      assert V[k].refcnt == Plus(f, 0, start - 1, -inc)(a) == Plus(f, 0, start - 1, -inc)(start);
    }
  }

  /** When undoing restores the ranges, for the two kinds of calls. */
  lemma RestorableIs(V: seq<Iv>, start: nat, p: nat, advice: Advice)
    requires start <= p && Count(V, p) == Crossing(advice)
    ensures Restorable(CountsOf(V), start, p, Increment(advice)) <==>
      p == start || Count(V, p - 1) != if advice.DontFork? then -1 else 2
  {
  }

  class ForkMap {
    const mm: ForkTree

    /** The addresses the kernel keeps out of a forked child. */
    ghost var dontfork: iset<int>

    /** Every call of madvise so far, and those that were refused. */
    ghost var log: seq<Told>
    ghost var refused: seq<Told>

    /** How many calls of malloc have failed. */
    ghost var failures: nat

    /** The ranges in address order. */
    ghost function Ivs(): seq<Iv>
      reads mm`tree, mm.Seq()
    {
      View(mm.Seq())
    }

    ghost predicate Valid()
      reads mm, mm.repr
    {
      mm.Valid()
    }

    /** A successful `ibv_fork_init`: one range without registrations. */
    constructor ()
      ensures Valid() && fresh(mm) && fresh(mm.repr) && Ivs() == [Iv(0, UINTPTR_MAX, 0)] && dontfork == iset{}
      ensures log == refused == [] && failures == 0
    {
      mm := new ForkTree();
      dontfork, log, refused, failures := iset{}, [], [], 0;
    }

    /** The nodes stand in address order, and each occurs once. */
    lemma Apart(k: nat)
      requires Partition(Ivs()) && k < |Ivs()|
      requires mm.Valid()
      ensures forall i :: 0 <= i < |Ivs()| ==> mm.Seq()[i] in mm.repr && mm.Seq()[i].start == Ivs()[i].start
      ensures forall i :: 0 <= i < k ==> mm.Seq()[i] != mm.Seq()[k] && Ivs()[i].end < Ivs()[k].start
      ensures forall i :: k < i < |Ivs()| ==> mm.Seq()[i] != mm.Seq()[k] && Ivs()[k].end < Ivs()[i].start
      ensures Ivs()[k].end <= UINTPTR_MAX && forall i :: 0 <= i < |Ivs()| ==> Ivs()[i].start <= Ivs()[i].end
    {
      mm.SeqInRepr();
      var V := Ivs();
      forall i | 0 <= i < k ensures V[i].end < V[k].start { Later(V, 0, i, k); }
      forall i | k < i < |V| ensures V[k].end < V[i].start { Later(V, 0, k, i); }
      Bounded(V, 0, k);
    }

    lemma RootOfSeq()
      requires mm.Valid() && |mm.Seq()| > 0
      ensures mm.mmRoot != null
    {
    }

    /** Whether malloc fails. */
    method Malloc() returns (full: bool)
      modifies this`failures
      ensures failures == old(failures) + if full then 1 else 0
    {
      full := *;
      if full { failures := failures + 1; }
    }

    /** `split_range`; null stands for a failed malloc. */
    method SplitRange(node: MemNode, cut: nat, ghost k: nat) returns (new_: MemNode?)
      requires Valid() && Partition(Ivs()) && k < |Ivs()| && mm.Seq()[k] == node
      requires node.start < cut <= node.end
      modifies mm, mm.repr, this`failures
      ensures failures == old(failures) + if new_ == null then 1 else 0
      ensures Valid() && fresh(mm.repr - old(mm.repr))
      ensures new_ == null ==> Ivs() == old(Ivs()) && mm.Seq() == old(mm.Seq())
      ensures new_ != null ==> Ivs() == Split(old(Ivs()), k, cut) && |Ivs()| == old(|Ivs()|) + 1
      ensures new_ != null ==> mm.Seq()[k] == node && mm.Seq()[k + 1] == new_ && new_.start == cut
    {
      hide Partition, At, RedBlackTree, InOrder, Split, View;
      mm.SeqInRepr();
      var full := Malloc();
      if full {
        return null;
      }
      new_ := CutNode(node, cut, k);
    }

    method CutNode(node: MemNode, cut: nat, ghost k: nat) returns (new_: MemNode)
      requires Valid() && Partition(Ivs()) && k < |Ivs()| && mm.Seq()[k] == node
      requires node.start < cut <= node.end
      modifies mm, mm.repr
      ensures Valid() && fresh(mm.repr - old(mm.repr)) && new_.start == cut
      ensures Ivs() == Split(old(Ivs()), k, cut) && |Ivs()| == old(|Ivs()|) + 1
      ensures mm.Seq()[k] == node && mm.Seq()[k + 1] == new_
    {
      hide Partition, At, RedBlackTree, InOrder, Split, View;
      ghost var V := Ivs();
      Apart(k);
      new_ := new MemNode(cut, node.end, node.refcnt);
      node.end := cut - 1;
      assert Ivs() == V[k := V[k].(end := cut - 1)];
      Insert(new_, k + 1);
      SplitView(V, k, cut);
    }

    /** Adding a node, seen on the ranges. */
    method Insert(new_: MemNode, ghost k: nat)
      requires Valid() && new_ !in mm.repr && 0 < k <= |Ivs()| && new_.start <= UINTPTR_MAX
      requires forall i :: 0 <= i < k ==> mm.Seq()[i].start < new_.start
      requires forall i :: k <= i < |Ivs()| ==> new_.start < mm.Seq()[i].start
      modifies mm, mm.repr`left, mm.repr`right, mm.repr`parent, mm.repr`color
      modifies new_`left, new_`right, new_`parent, new_`color
      ensures Valid() && mm.repr == old(mm.repr) + {new_}
      ensures Ivs() == old(Ivs())[..k] + [Iv(new_.start, new_.end, new_.refcnt)] + old(Ivs())[k..]
      ensures mm.Seq()[k - 1] == old(mm.Seq())[k - 1] && mm.Seq()[k] == new_
    {
      hide At, RedBlackTree, InOrder;
      ghost var s := mm.Seq();
      mm.SeqInRepr();
      RootOfSeq();
      mm.Add(new_, k);
      ViewInserted(s, k, new_);
    }

    /** `merge_ranges`. */
    method MergeRanges(node: MemNode, prev: MemNode, ghost k: nat) returns (r: MemNode)
      requires Valid() && Partition(Ivs()) && 0 < k < |Ivs()| && mm.Seq()[k] == node && mm.Seq()[k - 1] == prev
      modifies mm, mm.repr
      ensures Valid() && mm.repr == old(mm.repr)
      ensures Ivs() == Merge(old(Ivs()), k) && |Ivs()| == old(|Ivs()|) - 1 && mm.Seq()[k - 1] == r == prev
    {
      hide Partition, At, RedBlackTree, InOrder;
      ghost var s, V := mm.Seq(), Ivs();
      Apart(k - 1);
      prev.end := node.end;
      prev.refcnt := node.refcnt;
      mm.Remove(node, k);
      assert View(s) == V[k - 1 := Iv(V[k - 1].start, V[k].end, V[k].refcnt)];
      ViewRemoved(s, k);
      MergeView(V, k);
      r := prev;
    }

    method AddCount(node: MemNode, inc: int, ghost k: nat)
      requires Valid() && Partition(Ivs()) && k < |Ivs()| && mm.Seq()[k] == node
      modifies node`refcnt
      ensures Valid() && Ivs() == Bump(old(Ivs()), k, inc)
    {
      Apart(k);
      hide Partition, At, RedBlackTree, InOrder;
      node.refcnt := node.refcnt + inc;
    }

    /** `get_start_node`; null stands for a failed malloc. */
    method GetStartNode(start: nat, end: nat, inc: int, ghost f: Counts) returns (node: MemNode?, ghost k: nat)
      requires Valid() && Canonical(Ivs()) && Models(Ivs(), f) && start <= end <= UINTPTR_MAX && inc != 0
      modifies mm, mm.repr, this`failures
      ensures failures == old(failures) + if node == null then 1 else 0
      ensures Valid() && fresh(mm.repr - old(mm.repr))
      ensures node == null ==> Ivs() == old(Ivs())
      ensures node != null ==> Reached(Ivs(), k, start, end, inc, f) && k < |Ivs()| && mm.Seq()[k] == node
      ensures node != null ==> node.start <= start
    {
      hide Canonical, Partition, Models, Alternates, Carries, Reached, At, RedBlackTree, InOrder, Split, Merge;
      ghost var V := Ivs();
      k := Locate(V, start);
      Apart(k);
      var found := mm.FindStart(start, k);
      if found.start < start {
        StartSplit(V, k, start, end, inc, f);
        node := SplitRange(found, start, k);
        k := k + 1;
      } else {
        node := found;
        var tmp := mm.Prev(found, k);
        if tmp != null && tmp.refcnt == found.refcnt + inc {
          StartMerge(V, k, start, end, inc, f);
          node := MergeRanges(found, tmp, k);
          k := k - 1;
        } else {
          StartKeep(V, k, start, end, inc, f);
        }
      }
    }

    /** The second half of `undo_node`: the node is merged with neighbours of the same count. */
    method Coalesce(node0: MemNode, ghost k0: nat, ghost g: Counts, ghost p: nat) returns (node: MemNode, ghost k: nat)
      requires Valid() && Undoing(Ivs(), k0, g) && k0 < |Ivs()| && mm.Seq()[k0] == node0
      requires node0.start <= p <= node0.end
      modifies mm, mm.repr
      ensures Valid() && mm.repr == old(mm.repr) && Canonical(Ivs()) && Models(Ivs(), g)
      ensures k < |Ivs()| && mm.Seq()[k] == node && node.start <= p <= node.end
    {
      hide Undoing, Partition, Canonical, Models, Carries, Alternates, Merge, At, RedBlackTree, InOrder;
      node, k := node0, k0;
      ghost var V := Ivs();
      UndoingFacts(V, k, g);
      UndoPrev(V, k, g);
      mm.SeqInRepr();
      var tmp := mm.Prev(node, k);
      if tmp != null && tmp.refcnt == node.refcnt {
        node := MergeRanges(node, tmp, k);
        k := k - 1;
      }
      V := Ivs();
      UndoingFacts(V, k, g);
      UndoNext(V, k, g);
      mm.SeqInRepr();
      tmp := mm.Next(node, k);
      if tmp != null && tmp.refcnt == node.refcnt {
        node := MergeRanges(tmp, node, k + 1);
      }
    }

    /** The first half of `undo_node`: the node had been merged with its predecessor. */
    method Unmerge(node: MemNode, start: nat, inc: int, ghost k: nat, ghost end: nat, ghost f: Counts)
      returns (tmp: MemNode?)
      requires Valid() && Ready(Ivs(), k, start, end, inc, f) && k < |Ivs()| && mm.Seq()[k] == node && inc != 0
      requires node.start < start
      modifies mm, mm.repr, this`failures
      ensures failures == old(failures) + if tmp == null then 1 else 0
      ensures Valid() && fresh(mm.repr - old(mm.repr)) && (tmp == null ==> Ivs() == old(Ivs()))
      ensures tmp != null ==> Undoing(Ivs(), k + 1, Plus(f, start, start - 1, inc)) && k + 1 < |Ivs()|
      ensures tmp != null ==> mm.Seq()[k + 1] == tmp && tmp.start == start <= tmp.end
    {
      hide Ready, Undoing, Partition, Carries, Alternates, Split, Bump, At, RedBlackTree, InOrder, Plus;
      ghost var V := Ivs();
      ReadyFacts(V, k, start, end, inc, f);
      UndoSplit(V, k, start, end, inc, f);
      tmp := SplitRange(node, start, k);
      if tmp != null {
        SplitEnds(V, k, start);
        AddCount(node, inc, k);
        UndoingFacts(Ivs(), k + 1, Plus(f, start, start - 1, inc));
        BumpOther(Split(V, k, start), k, inc, k + 1);
      }
    }

    /** `undo_node`, called when the kernel refused the bytes from p on; null stands for a failed malloc. */
    method UndoNode(node0: MemNode, start: nat, inc: int, ghost k0: nat, ghost end: nat, ghost f: Counts, ghost p: nat)
      returns (node: MemNode?, ghost k: nat)
      requires Valid() && Ready(Ivs(), k0, start, end, inc, f) && k0 < |Ivs()| && mm.Seq()[k0] == node0 && inc != 0
      requires p == if start > node0.start then start else node0.start
      modifies mm, mm.repr, this`failures
      ensures failures == old(failures) + if node == null then 1 else 0
      ensures Valid() && fresh(mm.repr - old(mm.repr))
      ensures node != null ==> Canonical(Ivs()) && Models(Ivs(), Plus(f, start, p - 1, inc))
      ensures node != null ==> k < |Ivs()| && mm.Seq()[k] == node && node.start <= p <= node.end
      ensures node == null ==> Ivs() == old(Ivs())
    {
      hide Ready, Undoing, Partition, Canonical, Models, Carries, Alternates, At, RedBlackTree, InOrder, Plus;
      ghost var V := Ivs();
      ReadyFacts(V, k0, start, end, inc, f);
      var current := node0;
      k := k0;
      if start > node0.start {
        var tmp := Unmerge(node0, start, inc, k, end, f);
        if tmp == null {
          return null, k;
        }
        current, k := tmp, k + 1;
      } else {
        UndoKeep(V, k, start, end, inc, f);
      }
      node, k := Coalesce(current, k, Plus(f, start, p - 1, inc), p);
    }

    /** `madvise`: a refused call may have taken effect on any part of its range. */
    method Madvise(lo: nat, hi: nat, advice: Advice) returns (ok: bool)
      modifies this`dontfork, this`log, this`refused
      ensures Advised(old(dontfork), dontfork, lo, hi, advice, ok) && log == old(log) + [Told(lo, hi, advice)]
      ensures refused == if ok then old(refused) else old(refused) + [Told(lo, hi, advice)]
    {
      ok := *;
      ghost var touched: iset<int> := *;
      ghost var all := iset a | Within(a, lo, hi) && (ok || a in touched);
      dontfork := if advice.DontFork? then dontfork + all else dontfork - all;
      log := log + [Told(lo, hi, advice)];
      if !ok { refused := refused + [Told(lo, hi, advice)]; }
    }

    // ----- one pass over the range -----------------------------------------------------

    /** The kernel refused [p, q]: the ranges are canonical again, exactly the addresses of the range
        below p have got their new counts, and the range around p is node. */
    ghost predicate RefusedAt(node: MemNode?, k: nat, start: nat, end: nat, inc: int, f: Counts, p: nat, q: nat)
      reads mm`tree, mm.Seq()
    {
      Canonical(Ivs()) && Models(Ivs(), Plus(f, start, p - 1, inc)) && k < |Ivs()| && node == mm.Seq()[k] &&
      node.start <= p <= node.end && start <= p <= q <= end && f(p) == if inc == 1 then 0 else 1
    }

    lemma StuckAtStart(start: nat, end: nat, inc: int, f: Counts)
      requires Partition(Ivs()) && Models(Ivs(), f) && start <= end
      ensures Stuck(Ivs(), f, start, end, inc, start)
    {
      assert Short(Ivs(), f, start, inc, start, start);
    }

    /** The body of the loop of `ibv_madvise_range`. */
    method Round(node0: MemNode, start: nat, end: nat, advice: Advice,
                 ghost k0: nat, ghost f: Counts, ghost p: nat, ghost X: iset<int>)
      returns (status: Status, node: MemNode?, ghost k: nat, ghost q: nat)
      requires Valid() && Reached(Ivs(), k0, start, end, Increment(advice), f)
      requires k0 < |Ivs()| && mm.Seq()[k0] == node0 && node0.start <= end <= UINTPTR_MAX
      requires p == if start > node0.start then start else node0.start
      requires Shown(dontfork, Plus(f, start, p - 1, Increment(advice)), X) && Avoids(X, start, end)
      modifies this, mm, mm.repr
      ensures Valid() && fresh(mm.repr - old(mm.repr)) && p <= q <= end
      ensures Logged(old(log), log, start, end, f, advice, false)
      ensures status.Done? ==> k == k0 + 1 && Reached(Ivs(), k, start, end, Increment(advice), f)
      ensures status.Done? ==> start < q + 1 == if node == null then end + 1 else node.start
      ensures status.Done? ==> Shown(dontfork, Plus(f, start, q, Increment(advice)), X)
      ensures status.Done? ==> k <= |Ivs()| && node == if k < |Ivs()| then mm.Seq()[k] else null
      ensures status.Refused? ==> RefusedAt(node, k, start, end, Increment(advice), f, p, q)
      ensures status.Refused? ==> Shown(dontfork, Plus(f, start, p - 1, Increment(advice)), X + Range(p, q))
      ensures status.NoMemory? ==> Stuck(Ivs(), f, start, end, Increment(advice), p)
      ensures status.NoMemory? ==>
        Shown(dontfork, Plus(f, start, p - 1, Increment(advice)),
              if refused == old(refused) then X else X + Range(p, q))
      ensures Ended(status, old(failures), failures, old(refused), refused, Told(p, q, advice))
    {
      hide Reached, Ready, Partition, Canonical, Models, Carries, Alternates, Split, Bump, At, RedBlackTree, InOrder,
        Shown, Plus, Avoids, Range, Logged, RefusedAt, View;
      NothingLogged(log, start, end, f, advice);
      ReachedFacts(Ivs(), k0, start, end, Increment(advice), f);
      k, q, node := k0, p, node0;
      var ready := Cut(node0, start, end, Increment(advice), k, f);
      if !ready {
        ReachedStuck(Ivs(), k, start, end, Increment(advice), f, p);
        return NoMemory, null, k, q;
      }
      status, node, k, q := TellAndCount(node0, start, end, advice, k, f, p, X);
    }

    /** What follows the cut: the kernel is told, and the count changes, or else the node is restored. */
    method TellAndCount(node0: MemNode, start: nat, end: nat, advice: Advice,
                        ghost k0: nat, ghost f: Counts, ghost p: nat, ghost X: iset<int>)
      returns (status: Status, node: MemNode?, ghost k: nat, ghost q: nat)
      requires Valid() && Ready(Ivs(), k0, start, end, Increment(advice), f)
      requires k0 < |Ivs()| && mm.Seq()[k0] == node0 && end <= UINTPTR_MAX
      requires p == if start > node0.start then start else node0.start
      requires Shown(dontfork, Plus(f, start, p - 1, Increment(advice)), X) && Avoids(X, start, end)
      modifies this, mm, mm.repr
      ensures Valid() && fresh(mm.repr - old(mm.repr)) && p <= q <= end
      ensures Logged(old(log), log, start, end, f, advice, false)
      ensures status.Done? ==> k == k0 + 1 && Reached(Ivs(), k, start, end, Increment(advice), f)
      ensures status.Done? ==> start < q + 1 == if node == null then end + 1 else node.start
      ensures status.Done? ==> Shown(dontfork, Plus(f, start, q, Increment(advice)), X)
      ensures status.Done? ==> k <= |Ivs()| && node == if k < |Ivs()| then mm.Seq()[k] else null
      ensures status.Refused? ==> RefusedAt(node, k, start, end, Increment(advice), f, p, q)
      ensures status.Refused? ==> Shown(dontfork, Plus(f, start, p - 1, Increment(advice)), X + Range(p, q))
      ensures status.NoMemory? ==> Stuck(Ivs(), f, start, end, Increment(advice), p)
      ensures status.NoMemory? ==>
        Shown(dontfork, Plus(f, start, p - 1, Increment(advice)),
              if refused == old(refused) then X else X + Range(p, q))
      ensures Ended(status, old(failures), failures, old(refused), refused, Told(p, q, advice))
    {
      hide Reached, Ready, Partition, Canonical, Models, Carries, Alternates, Split, Bump, At, RedBlackTree, InOrder,
        Shown, Plus, Avoids, Range, Logged, View;
      ReadyFacts(Ivs(), k0, start, end, Increment(advice), f);
      k, q := k0, node0.end;
      mm.SeqInRepr();
      var ok := Tell(node0, start, advice, k, end, f, p, X);
      if ok {
        node := Advance(node0, Increment(advice), k, start, end, f);
        k := k + 1;
        status := Done;
      } else {
        ReadyStuck(Ivs(), k0, start, end, Increment(advice), f, p);
        node, k := UndoNode(node0, start, Increment(advice), k, end, f, p);
        status := if node == null then NoMemory else Refused;
      }
    }

    /** The end of the loop body: the count changes, and the next node is up. */
    method Advance(node0: MemNode, inc: int, ghost k: nat, ghost start: nat, ghost end: nat, ghost f: Counts)
      returns (node: MemNode?)
      requires Valid() && Ready(Ivs(), k, start, end, inc, f) && k < |Ivs()| && mm.Seq()[k] == node0 && inc != 0
      requires end <= UINTPTR_MAX
      modifies mm.repr`refcnt
      ensures Valid() && Reached(Ivs(), k + 1, start, end, inc, f)
      ensures k < |Ivs()| && start < node0.end + 1 == if node == null then end + 1 else node.start
      ensures node == if k + 1 < |Ivs()| then mm.Seq()[k + 1] else null
    {
      hide Reached, Ready, Partition, Bump, At, RedBlackTree, InOrder;
      ReadyFacts(Ivs(), k, start, end, inc, f);
      BodyBump(Ivs(), k, start, end, inc, f);
      BumpAt(Ivs(), k, inc);
      mm.SeqInRepr();
      AddCount(node0, inc, k);
      ReachedFacts(Ivs(), k + 1, start, end, inc, f);
      node := mm.Next(node0, k);
    }

    /** The call of madvise, made only when the count crosses zero. */
    method Tell(node: MemNode, start: nat, advice: Advice, ghost k: nat, ghost end: nat, ghost f: Counts, ghost p: nat,
                ghost X: iset<int>) returns (ok: bool)
      requires Valid() && Ready(Ivs(), k, start, end, Increment(advice), f) && k < |Ivs()| && mm.Seq()[k] == node
      requires p == if start > node.start then start else node.start
      requires Shown(dontfork, Plus(f, start, p - 1, Increment(advice)), X) && Avoids(X, start, end)
      modifies this`dontfork, this`log, this`refused
      ensures refused == if ok then old(refused) else old(refused) + [Told(p, node.end, advice)]
      ensures Logged(old(log), log, start, end, f, advice, false)
      ensures ok ==> Shown(dontfork, Plus(f, start, node.end, Increment(advice)), X)
      ensures !ok ==> Shown(dontfork, Plus(f, start, p - 1, Increment(advice)), X + Range(p, node.end))
      ensures !ok ==> f(p) == if Increment(advice) == 1 then 0 else 1
    {
      hide Ready, Shown, Plus, Avoids, Range, Advised, At, RedBlackTree, InOrder, Logged, Due;
      var inc := Increment(advice);
      ghost var V, was := Ivs(), dontfork;
      ReadyFacts(V, k, start, end, inc, f);
      ok := true;
      if (inc == -1 && node.refcnt == 1) || (inc == 1 && node.refcnt == 0) {
        CrossingDue(V, k, start, end, f, p, advice);
        OneLogged(log, Told(p, node.end, advice), start, end, f, advice);
        ok := Madvise(if start > node.start then start else node.start, node.end, advice);
        if ok {
          CrossingShown(V, k, start, end, f, p, was, dontfork, X, advice);
        } else {
          RefusalShown(was, dontfork, Plus(f, start, p - 1, inc), X, p, node.end, advice);
        }
      } else {
        NoCrossingShown(V, k, start, end, f, p, was, X, advice);
        NothingLogged(log, start, end, f, advice);
      }
    }

    /** The cut at the upper end of the range; false stands for a failed malloc. */
    method Cut(node: MemNode, start: nat, end: nat, inc: int, ghost k: nat, ghost f: Counts) returns (ready: bool)
      requires Valid() && Reached(Ivs(), k, start, end, inc, f)
      requires k < |Ivs()| && mm.Seq()[k] == node && node.start <= end <= UINTPTR_MAX
      modifies mm, mm.repr, this`failures
      ensures failures == old(failures) + if ready then 0 else 1
      ensures !ready ==> Ivs() == old(Ivs())
      ensures Valid() && fresh(mm.repr - old(mm.repr)) && Partition(Ivs())
      ensures ready ==> Ready(Ivs(), k, start, end, inc, f) && k < |Ivs()| && mm.Seq()[k] == node
    {
      hide Reached, Ready, Partition, Split, At, RedBlackTree, InOrder;
      ghost var V := Ivs();
      ReachedFacts(V, k, start, end, inc, f);
      ready := true;
      if node.end > end {
        BodySplit(V, k, start, end, inc, f);
        var upper := SplitRange(node, end + 1, k);
        ready := upper != null;
        if ready { ReadyFacts(Ivs(), k, start, end, inc, f); }
      } else {
        BodyKeep(V, k, start, end, inc, f);
      }
    }

    /** The loop of `ibv_madvise_range`. */
    method Sweep(node0: MemNode, start: nat, end: nat, advice: Advice, ghost k0: nat, ghost f: Counts,
                 ghost X: iset<int>)
      returns (status: Status, node: MemNode?, ghost k: nat, ghost p: nat, ghost q: nat)
      requires Valid() && Reached(Ivs(), k0, start, end, Increment(advice), f) && end <= UINTPTR_MAX
      requires k0 < |Ivs()| && mm.Seq()[k0] == node0 && node0.start <= start <= end
      requires Shown(dontfork, Plus(f, start, start - 1, Increment(advice)), X) && Avoids(X, start, end)
      modifies this, mm, mm.repr
      ensures Valid() && fresh(mm.repr - old(mm.repr)) && Logged(old(log), log, start, end, f, advice, false)
      ensures status.Done? ==> Reached(Ivs(), k, start, end, Increment(advice), f)
      ensures status.Done? ==> node != null ==> end < node.start
      ensures status.Done? ==> k <= |Ivs()| && node == if k < |Ivs()| then mm.Seq()[k] else null
      ensures status.Done? ==> Shown(dontfork, Plus(f, start, end, Increment(advice)), X)
      ensures status.Refused? ==> RefusedAt(node, k, start, end, Increment(advice), f, p, q)
      ensures status.Refused? ==> Shown(dontfork, Plus(f, start, p - 1, Increment(advice)), X + Range(p, q))
      ensures status.NoMemory? ==> Stuck(Ivs(), f, start, end, Increment(advice), p)
      ensures status.NoMemory? ==>
        Shown(dontfork, Plus(f, start, p - 1, Increment(advice)),
              if refused == old(refused) then X else X + Range(p, q))
      ensures Ended(status, old(failures), failures, old(refused), refused, Told(p, q, advice))
    {
      hide Reached, Partition, Canonical, Models, Carries, Alternates, At, RedBlackTree, InOrder, Shown, Plus, Avoids,
        Range, RefusedAt, Increment, View, Logged;
      NothingLogged(log, start, end, f, advice);
      node, k, p, q := node0, k0, start, end;
      status := Done;
      while node != null && node.start <= end
        invariant Valid() && fresh(mm.repr - old(mm.repr)) && Reached(Ivs(), k, start, end, Increment(advice), f)
        invariant k <= |Ivs()| && node == if k < |Ivs()| then mm.Seq()[k] else null
        invariant Shown(dontfork, Plus(f, start, p - 1, Increment(advice)), X) && p <= end + 1
        invariant p == if node == null then end + 1 else if start > node.start then start else node.start
        invariant failures == old(failures) && refused == old(refused)
        invariant status.Done? && Logged(old(log), log, start, end, f, advice, false)
        decreases end + 1 - p
      {
        ghost var mid := log;
        status, node, k, q := Round(node, start, end, advice, k, f, p, X);
        LoggedThen(old(log), mid, log, start, end, f, advice, false);
        if !status.Done? {
          return;
        }
        p := q + 1;
      }
    }

    /** One pass of `ibv_madvise_range`, from its label `again` to the next jump. */
    method Pass(start: nat, end: nat, advice: Advice, ghost f: Counts, ghost X: iset<int>)
      returns (status: Status, node: MemNode?, ghost k: nat, ghost p: nat, ghost q: nat)
      requires Valid() && Canonical(Ivs()) && Models(Ivs(), f) && start <= end <= UINTPTR_MAX
      requires Shown(dontfork, f, X) && Avoids(X, start, end)
      modifies this, mm, mm.repr
      ensures Valid() && fresh(mm.repr - old(mm.repr)) && Logged(old(log), log, start, end, f, advice, false)
      ensures status.Done? ==> Canonical(Ivs()) && Models(Ivs(), Plus(f, start, end, Increment(advice)))
      ensures status.Done? ==> Shown(dontfork, Plus(f, start, end, Increment(advice)), X)
      ensures status.Refused? ==> RefusedAt(node, k, start, end, Increment(advice), f, p, q)
      ensures status.Refused? ==> Shown(dontfork, Plus(f, start, p - 1, Increment(advice)), X + Range(p, q))
      ensures status.NoMemory? ==> Stuck(Ivs(), f, start, end, Increment(advice), p)
      ensures status.NoMemory? ==>
        Shown(dontfork, Plus(f, start, p - 1, Increment(advice)),
              if refused == old(refused) then X else X + Range(p, q))
      ensures Ended(status, old(failures), failures, old(refused), refused, Told(p, q, advice))
    {
      hide Reached, Partition, Canonical, Models, Carries, At, RedBlackTree, InOrder, Shown, Plus, Avoids, Range,
        RefusedAt, Logged;
      NothingLogged(log, start, end, f, advice);
      PlusNothing(dontfork, f, start, Increment(advice), X);
      p, q := start, end;
      node, k := GetStartNode(start, end, Increment(advice), f);
      if node == null {
        CanonicalPartition(Ivs());
        StuckAtStart(start, end, Increment(advice), f);
        return NoMemory, null, k, p, q;
      }
      status, node, k, p, q := Sweep(node, start, end, advice, k, f, X);
      if !status.Done? {
        return;
      }
      Join(node, k, start, end, Increment(advice), f);
    }

    /** Behind the loop of `ibv_madvise_range`. */
    method Join(node: MemNode?, ghost k: nat, ghost start: nat, ghost end: nat, ghost inc: int, ghost f: Counts)
      requires Valid() && Reached(Ivs(), k, start, end, inc, f) && end <= UINTPTR_MAX
      requires k <= |Ivs()| && node == if k < |Ivs()| then mm.Seq()[k] else null
      requires node != null ==> end < node.start
      modifies mm, mm.repr
      ensures Valid() && mm.repr == old(mm.repr)
      ensures Canonical(Ivs()) && Models(Ivs(), Plus(f, start, end, inc))
    {
      hide Reached, Partition, Canonical, Models, Merge, At, RedBlackTree, InOrder;
      ReachedFacts(Ivs(), k, start, end, inc, f);
      Finished(Ivs(), k, start, end, inc, f);
      mm.SeqInRepr();
      if node != null {
        var tmp := mm.Prev(node, k);
        if tmp != null && node.refcnt == tmp.refcnt {
          var _ := MergeRanges(node, tmp, k);
        }
      }
    }

    // ----- the call --------------------------------------------------------------------

    /** The counts are stored canonically, and outside X the kernel knows them. */
    ghost predicate Settled(X: iset<int>)
      reads this, mm, mm.repr, mm.Seq()
    {
      Valid() && Canonical(Ivs()) && Shown(dontfork, CountsOf(Ivs()), X)
    }

    /** `ibv_madvise_range`.  The jump back to its label `again` is taken at most once, to undo. */
    method MadviseRange(base: nat, size: nat, advice: Advice, pageSize: nat) returns (ret: int, ghost o: Outcome)
      requires Settled(iset{}) && PageSize(pageSize) && base + size <= ADDRESS_SPACE
      modifies this, mm, mm.repr
      ensures fresh(mm.repr - old(mm.repr)) && ret == if o.Applied? then 0 else -1
      ensures Valid() && Partition(Ivs())
      ensures Accounted(o, advice, old(failures), failures, old(refused), refused)
      ensures ret == 0 <==> failures == old(failures) && refused == old(refused)
      ensures o.RolledBack? <==> failures == old(failures) && |refused| == old(|refused|) + 1
      ensures o.RollBackRefused? <==> failures == old(failures) && |refused| == old(|refused|) + 2
      ensures o.OutOfMemory? <==> failures != old(failures)
      ensures o.OutOfMemory? ==>
        Abandoned(o, PageStart(base, pageSize), PageEnd(base, size, pageSize), old(Ivs()), Ivs(), Increment(advice))
      ensures o.OutOfMemory? ==>
        Shown(dontfork, Plus(old(CountsOf(Ivs())), o.lo, o.hi - 1, Increment(advice)), Bytes(refused[|old(refused)|..]))
      ensures o.RollBackRefused? ==> Settled(Range(o.p, o.q) + Range(o.r, o.s))
      ensures o.RollBackRefused? ==> HalfUndone(o, PageStart(base, pageSize), old(Ivs()), Ivs(), Increment(advice))
      ensures o.Applied? ==> Settled(iset{})
      ensures o.Applied? ==> forall a :: 0 <= a <= UINTPTR_MAX ==>
        Count(Ivs(), a) == old(Count(Ivs(), a)) + (if Touched(base, size, pageSize, a) then Increment(advice) else 0)
      ensures o.RolledBack? ==> o.p <= o.q && Touched(base, size, pageSize, o.p) && Touched(base, size, pageSize, o.q)
      ensures o.RolledBack? ==> PageStart(base, pageSize) <= o.p && o.q <= UINTPTR_MAX
      ensures o.RolledBack? ==> old(Count(Ivs(), o.p)) == if advice.DontFork? then 0 else 1
      ensures o.RolledBack? ==> Settled(Range(o.p, o.q))
      ensures o.RolledBack? ==>
        (Ivs() == old(Ivs()) <==> Restorable(old(CountsOf(Ivs())), PageStart(base, pageSize), o.p, Increment(advice)))
      ensures o.RolledBack? && advice.DontFork? ==>
        (Ivs() == old(Ivs()) <==> o.p == PageStart(base, pageSize) || old(Count(Ivs(), o.p - 1)) != -1)
      ensures o.RolledBack? && advice.DoFork? ==>
        (Ivs() == old(Ivs()) <==> o.p == PageStart(base, pageSize) || old(Count(Ivs(), o.p - 1)) != 2)
      ensures if size == 0 then log == old(log) else
        Logged(old(log), log, PageStart(base, pageSize), PageEnd(base, size, pageSize), old(CountsOf(Ivs())), advice,
          !o.Applied?)
    {
      assert pageSize > 0 && (size == 0 ==> forall a :: !Touched(base, size, pageSize, a));
      hide Canonical, Partition, Shown, CountsOf, Restorable, Logged, HalfUndone, PageStart, PageEnd, PageSize, Touched;
      CanonicalPartition(Ivs());
      ghost var V0 := Ivs();
      if size == 0 {
        return 0, Applied;
      }
      var start := PageStart(base, pageSize);
      var end := PageEnd(base, size, pageSize);
      PagesCovered(base, size, pageSize);
      ret, o := ApplyOrUndo(start, end, advice);
      if o.RolledBack? { RestorableIs(V0, start, o.p, advice); }
    }

    /** What a call for the pages of [start, end] leaves, by its outcome: V0 are the ranges, `before` the failed
        mallocs and `was` the refused calls of madvise from before it. */
    ghost predicate Closing(o: Outcome, advice: Advice, start: nat, end: nat, V0: seq<Iv>, before: nat, was: seq<Told>)
      reads this, mm, mm.repr, mm.Seq()
    {
      Valid() && Partition(Ivs()) && Accounted(o, advice, before, failures, was, refused) &&
      match o
      case Applied =>
        Settled(iset{}) &&
        forall a :: 0 <= a <= UINTPTR_MAX ==>
          Count(Ivs(), a) == Count(V0, a) + if start <= a <= end then Increment(advice) else 0
      case RolledBack(p, q) =>
        start <= p <= q <= end && Count(V0, p) == Crossing(advice) && Settled(Range(p, q)) &&
        (Ivs() == V0 <==> Restorable(CountsOf(V0), start, p, Increment(advice)))
      case RollBackRefused(p, q, r, s) =>
        Settled(Range(p, q) + Range(r, s)) && HalfUndone(o, start, V0, Ivs(), Increment(advice))
      case OutOfMemory(lo, hi, _) =>
        Abandoned(o, start, end, V0, Ivs(), Increment(advice)) &&
        Shown(dontfork, Plus(CountsOf(V0), lo, hi - 1, Increment(advice)), Bytes(refused[|was|..]))
    }

    /** The part of `ibv_madvise_range` behind the rounding to pages. */
    method ApplyOrUndo(start: nat, end: nat, advice: Advice) returns (ret: int, ghost o: Outcome)
      requires Settled(iset{}) && start <= end <= UINTPTR_MAX
      modifies this, mm, mm.repr
      ensures fresh(mm.repr - old(mm.repr)) && ret == if o.Applied? then 0 else -1
      ensures Logged(old(log), log, start, end, old(CountsOf(Ivs())), advice, !o.Applied?)
      ensures Closing(o, advice, start, end, old(Ivs()), old(failures), old(refused))
    {
      hide Canonical, Partition, Models, Shown, Plus, Avoids, Range, RefusedAt, CountsOf, At, RedBlackTree, InOrder,
        Logged, Stuck, Settled, Closing;
      ghost var V0 := Ivs();
      ghost var f := CountsOf(V0);
      StartingPoint(f, start, end);
      var status, node;
      ghost var k, p, q;
      status, node, k, p, q := Pass(start, end, advice, f, iset{});
      LoggedUndoing(old(log), log, start, end, f, advice);
      match status
      case NoMemory =>
        ret, o := -1, OutOfMemory(start, p, false);
        FirstFails(o, advice, start, end, V0, f, old(failures), old(refused), Told(p, q, advice));
      case Done =>
        ret, o := 0, Applied;
        AllDone(advice, start, end, V0, f, old(failures), old(refused));
      case Refused =>
        ret := -1;
        ghost var mid := log;
        o := Undo(node, start, advice, V0, f, k, end, p, q, old(refused));
        LoggedThen(old(log), mid, log, start, end, f, advice, true);
    }

    lemma StartingPoint(f: Counts, start: nat, end: nat)
      requires Settled(iset{}) && f == CountsOf(Ivs())
      ensures Valid() && Canonical(Ivs()) && Models(Ivs(), f) && Shown(dontfork, f, iset{})
      ensures Avoids(iset{}, start, end)
    {
      CountsModel(Ivs());
      NothingAvoided(start, end);
    }

    lemma AllDone(advice: Advice, start: nat, end: nat, V0: seq<Iv>, f: Counts, before: nat, was: seq<Told>)
      requires Valid() && f == CountsOf(V0) && failures == before && refused == was
      requires Canonical(Ivs()) && Models(Ivs(), Plus(f, start, end, Increment(advice)))
      requires Shown(dontfork, Plus(f, start, end, Increment(advice)), iset{})
      ensures Closing(Applied, advice, start, end, V0, before, was)
    {
      AppliedCounts(V0, Ivs(), start, end, Increment(advice));
      SettledCounts(Ivs(), Plus(f, start, end, Increment(advice)), dontfork, iset{});
      CanonicalPartition(Ivs());
      hide Canonical, Partition, Models, Shown, Plus, CountsOf;
    }

    lemma FirstFails(o: Outcome, advice: Advice, start: nat, end: nat, V0: seq<Iv>, f: Counts, before: nat,
                     was: seq<Told>, t: Told)
      requires Valid() && o.OutOfMemory? && !o.undoing && o.lo == start && o.hi == t.lo && failures == before + 1
      requires f == CountsOf(V0) && Stuck(Ivs(), f, start, end, Increment(advice), o.hi)
      requires refused == was || refused == was + [t]
      requires
        Shown(dontfork, Plus(f, start, t.lo - 1, Increment(advice)),
              if refused == was then iset{} else iset{} + Range(t.lo, t.hi))
      ensures Closing(o, advice, start, end, V0, before, was)
    {
      hide Shown, Range, Bytes, Plus, Stuck, Abandoned, Partition;
      StuckHere(f, start, end, Increment(advice), o.hi);
      AbandonedFirst(o, start, end, V0, Ivs(), Increment(advice));
      UntilNow(was, refused, t, Plus(f, start, t.lo - 1, Increment(advice)), iset{});
      assert iset{} + Bytes(refused[|was|..]) == Bytes(refused[|was|..]);
    }

    lemma SecondFails(o: Outcome, advice: Advice, start: nat, last: nat, end: nat, V0: seq<Iv>, f: Counts, before: nat,
                      was: seq<Told>, t: Told)
      requires Valid() && o.OutOfMemory? && o.undoing && last < o.hi <= end && failures == before + 1
      requires f == CountsOf(V0) && t.lo == o.hi && t.advice == advice
      requires Stuck(Ivs(), Plus(f, start, o.hi - 1, Increment(advice)), start, last, -Increment(advice), o.lo)
      requires was + [t] <= refused
      requires
        Shown(dontfork, Plus(Plus(f, start, o.hi - 1, Increment(advice)), start, o.lo - 1, -Increment(advice)),
              Range(t.lo, t.hi) + Bytes(refused[|was| + 1..]))
      ensures Closing(o, advice, start, end, V0, before, was)
    {
      hide Shown, Range, Bytes, Plus, Stuck, Abandoned, Partition;
      var inc := Increment(advice);
      StuckHere(Plus(f, start, o.hi - 1, inc), start, last, -inc, o.lo);
      AbandonedSecond(o, start, last, end, V0, Ivs(), inc);
      ShownBack(f, start, o.lo, o.hi, inc, Range(t.lo, t.hi) + Bytes(refused[|was| + 1..]));
      BytesMore(t, refused[|was| + 1..], dontfork, Plus(f, o.lo, o.hi - 1, inc));
      assert refused == was + [t] + refused[|was| + 1..];
      assert refused[|was|..] == [t] + refused[|was| + 1..];
    }

    lemma StuckHere(f: Counts, start: nat, end: nat, inc: int, p: nat)
      requires Stuck(Ivs(), f, start, end, inc, p)
      ensures Partition(Ivs()) && start <= p <= end
    {
    }

    /** The refused calls of a pass that ended for lack of memory: none or one. */
    lemma UntilNow(was: seq<Told>, now: seq<Told>, t: Told, f: Counts, X: iset<int>)
      requires now == was || now == was + [t]
      requires Shown(dontfork, f, if now == was then X else X + Range(t.lo, t.hi))
      ensures was <= now && Shown(dontfork, f, X + Bytes(now[|was|..]))
    {
      if now == was {
        ShownMore(dontfork, f, X, Bytes(now[|was|..]));
      } else {
        BytesOfOne(now[|was|..], t, dontfork, f, X);
      }
    }

    lemma ShownBack(f: Counts, start: nat, lo: nat, hi: nat, inc: int, X: iset<int>)
      requires start <= lo <= hi && Shown(dontfork, Plus(Plus(f, start, hi - 1, inc), start, lo - 1, -inc), X)
      ensures Shown(dontfork, Plus(f, lo, hi - 1, inc), X)
    {
      ShownSame(dontfork, Plus(Plus(f, start, hi - 1, inc), start, lo - 1, -inc), Plus(f, lo, hi - 1, inc), X);
    }

    lemma RefusedFacts(node: MemNode?, k: nat, start: nat, end: nat, inc: int, f: Counts, p: nat, q: nat)
      requires RefusedAt(node, k, start, end, inc, f, p, q)
      ensures Canonical(Ivs()) && Partition(Ivs()) && Models(Ivs(), Plus(f, start, p - 1, inc)) && k < |Ivs()|
      ensures node != null && node == mm.Seq()[k] && In(p, Ivs()[k]) && start <= p <= q <= end
      ensures 0 < k ==> Ivs()[k - 1].end + 1 == Ivs()[k].start
      ensures k == 0 ==> Ivs()[k].start == 0
    {
    }

    /** What follows a refused call: the changes made so far are taken back. */
    method Undo(node: MemNode?, start: nat, advice: Advice, ghost V0: seq<Iv>, ghost f: Counts, ghost k: nat,
                ghost end: nat, ghost p: nat, ghost q: nat, ghost was: seq<Told>) returns (ghost o: Outcome)
      requires Valid() && Canonical(V0) && Models(V0, f) && f == CountsOf(V0)
      requires RefusedAt(node, k, start, end, Increment(advice), f, p, q) && end <= UINTPTR_MAX
      requires Shown(dontfork, Plus(f, start, p - 1, Increment(advice)), iset{} + Range(p, q))
      requires refused == was + [Told(p, q, advice)]
      modifies this, mm, mm.repr
      ensures fresh(mm.repr - old(mm.repr)) && !o.Applied? && Logged(old(log), log, start, end, f, advice, true)
      ensures Closing(o, advice, start, end, V0, old(failures), was)
    {
      assert iset{} + Range(p, q) == Range(p, q);
      hide Canonical, Partition, Models, Shown, Plus, Range, At, RedBlackTree, InOrder, RefusedAt, Settled, Logged,
        Closing, CountsOf;
      RefusedFacts(node, k, start, end, Increment(advice), f, p, q);
      mm.SeqInRepr();
      var more, last := ChangedBelow(node, start, k);
      if more {
        o := UndoSome(node, start, last, advice, V0, f, k, end, p, q, was);
      } else {
        UndoNone(node, start, advice, V0, f, k, end, p, q, was);
        NothingLogged(log, start, end, f, advice);
        LoggedUndoing(log, log, start, end, f, advice);
        o := RolledBack(p, q);
      }
    }

    lemma UndoNone(node: MemNode?, start: nat, advice: Advice, V0: seq<Iv>, f: Counts, k: nat, end: nat, p: nat, q: nat,
                   was: seq<Told>)
      requires Valid() && Canonical(V0) && Models(V0, f) && f == CountsOf(V0)
      requires RefusedAt(node, k, start, end, Increment(advice), f, p, q) && Ivs()[k].start <= start
      requires Shown(dontfork, Plus(f, start, p - 1, Increment(advice)), Range(p, q))
      requires refused == was + [Told(p, q, advice)]
      ensures Closing(RolledBack(p, q), advice, start, end, V0, failures, was)
    {
      NothingToRollBack(V0, Ivs(), f, start, p, Increment(advice), k);
      Settle(Plus(f, start, p - 1, Increment(advice)), Range(p, q));
      hide Canonical, Models, Shown, Plus, Range, Settled;
    }

    method UndoSome(node: MemNode?, start: nat, last: nat, advice: Advice, ghost V0: seq<Iv>, ghost f: Counts,
                    ghost k: nat, ghost end: nat, ghost p: nat, ghost q: nat, ghost was: seq<Told>)
      returns (ghost o: Outcome)
      requires Valid() && Canonical(V0) && Models(V0, f) && f == CountsOf(V0)
      requires RefusedAt(node, k, start, end, Increment(advice), f, p, q) && end <= UINTPTR_MAX
      requires k < |Ivs()| && start <= last == Ivs()[k].start - 1
      requires Shown(dontfork, Plus(f, start, p - 1, Increment(advice)), Range(p, q))
      requires refused == was + [Told(p, q, advice)]
      modifies this, mm, mm.repr
      ensures fresh(mm.repr - old(mm.repr)) && !o.Applied? && Logged(old(log), log, start, end, f, advice, true)
      ensures Closing(o, advice, start, end, V0, old(failures), was)
    {
      hide Canonical, Partition, Models, Shown, Plus, Range, At, RedBlackTree, InOrder, RefusedAt, Settled, Logged,
        Closing, CountsOf, Stuck, Bytes;
      RefusedFacts(node, k, start, end, Increment(advice), f, p, q);
      ghost var V1, g := Ivs(), Plus(f, start, p - 1, Increment(advice));
      Refusal(node, k, start, end, advice, f, V0, p, q);
      o := TakeBack(start, last, Opposite(advice), g, p, q);
      LoggedBack(old(log), log, start, last, end, f, p, advice);
      if o.RolledBack? {
        RolledBackTo(V0, V1, Ivs(), f, start, p, Increment(advice), k);
        ClosingBack(o, advice, start, end, V0, old(failures), was);
      } else if o.RollBackRefused? {
        HalfUndoneCounts(o, start, V0, Ivs(), Increment(advice));
        ClosingHalf(o, advice, start, end, V0, old(failures), was);
      } else {
        SecondFails(o, advice, start, last, end, V0, f, old(failures), was, Told(p, q, advice));
      }
    }

    lemma Refusal(node: MemNode?, k: nat, start: nat, end: nat, advice: Advice, f: Counts, V0: seq<Iv>, p: nat, q: nat)
      requires RefusedAt(node, k, start, end, Increment(advice), f, p, q) && f == CountsOf(V0)
      ensures Count(V0, p) == Crossing(advice)
    {
    }

    lemma ClosingBack(o: Outcome, advice: Advice, start: nat, end: nat, V0: seq<Iv>, before: nat, was: seq<Told>)
      requires o.RolledBack? && Valid() && Partition(Ivs()) && Accounted(o, advice, before, failures, was, refused)
      requires start <= o.p <= o.q <= end && Count(V0, o.p) == Crossing(advice) && Settled(Range(o.p, o.q))
      requires Ivs() == V0 <==> Restorable(CountsOf(V0), start, o.p, Increment(advice))
      ensures Closing(o, advice, start, end, V0, before, was)
    {
    }

    lemma ClosingHalf(o: Outcome, advice: Advice, start: nat, end: nat, V0: seq<Iv>, before: nat, was: seq<Told>)
      requires o.RollBackRefused? && Valid() && Partition(Ivs()) && Accounted(o, advice, before, failures, was, refused)
      requires Settled(Range(o.p, o.q) + Range(o.r, o.s)) && HalfUndone(o, start, V0, Ivs(), Increment(advice))
      ensures Closing(o, advice, start, end, V0, before, was)
    {
    }

    lemma Settle(g: Counts, X: iset<int>)
      requires Valid() && Canonical(Ivs()) && Models(Ivs(), g) && Shown(dontfork, g, X)
      ensures Settled(X)
    {
      SettledCounts(Ivs(), g, dontfork, X);
    }

    /** Whether ranges from start up to the one before node have been changed, and where they end. */
    method ChangedBelow(node: MemNode, start: nat, ghost k: nat) returns (more: bool, end: nat)
      requires Valid() && Partition(Ivs()) && k < |Ivs()| && node == mm.Seq()[k]
      requires 0 < k ==> Ivs()[k - 1].end + 1 == Ivs()[k].start
      requires k == 0 ==> Ivs()[k].start == 0
      ensures more <==> start < Ivs()[k].start
      ensures more ==> end == Ivs()[k].start - 1
      ensures Ivs() == old(Ivs()) && mm.Seq() == old(mm.Seq())
    {
      hide Partition, At, RedBlackTree, InOrder;
      mm.SeqInRepr();
      var tmp := mm.Prev(node, k);
      if tmp == null || start > tmp.end {
        return false, 0;
      }
      return true, tmp.end;
    }

    /** The second pass. */
    method TakeBack(start: nat, end: nat, advice: Advice, ghost g: Counts, ghost p: nat, ghost q: nat)
      returns (ghost o: Outcome)
      requires Valid() && Canonical(Ivs()) && Models(Ivs(), g) && start <= end < p <= UINTPTR_MAX && p <= q
      requires Shown(dontfork, g, Range(p, q))
      modifies this, mm, mm.repr
      ensures fresh(mm.repr - old(mm.repr)) && !o.Applied? && (o.RolledBack? ==> o == RolledBack(p, q))
      ensures Logged(old(log), log, start, end, g, advice, false)
      ensures Valid() && Partition(Ivs())
      ensures o.RolledBack? ==> failures == old(failures) && refused == old(refused)
      ensures o.RollBackRefused? ==> failures == old(failures) && refused == old(refused) + [Told(o.r, o.s, advice)]
      ensures o.OutOfMemory? ==> failures == old(failures) + 1 && old(refused) <= refused
      ensures o.OutOfMemory? ==> o.undoing && o.hi == p && Stuck(Ivs(), g, start, end, Increment(advice), o.lo)
      ensures o.OutOfMemory? ==>
        Shown(dontfork, Plus(g, start, o.lo - 1, Increment(advice)), Range(p, q) + Bytes(refused[|old(refused)|..]))
      ensures o.RollBackRefused? ==> Settled(Range(o.p, o.q) + Range(o.r, o.s))
      ensures o.RollBackRefused? ==> o.p == p && o.q == q && start <= o.r <= o.s < p && Canonical(Ivs())
      ensures o.RollBackRefused? ==> Models(Ivs(), Plus(g, start, o.r - 1, Increment(advice)))
      ensures o.RolledBack? ==> Canonical(Ivs()) && Models(Ivs(), Plus(g, start, end, Increment(advice)))
      ensures o.RolledBack? ==> Settled(Range(p, q))
    {
      hide Canonical, Partition, Models, Shown, Plus, Avoids, Range, CountsOf, At, RedBlackTree, InOrder, RefusedAt,
        Logged;
      AvoidsBelow(start, end, p, q);
      var status, node;
      ghost var k, r, s;
      status, node, k, r, s := Pass(start, end, advice, g, Range(p, q));
      match status
      case Done =>
        SettledCounts(Ivs(), Plus(g, start, end, Increment(advice)), dontfork, Range(p, q));
        CanonicalPartition(Ivs());
        o := RolledBack(p, q);
      case Refused =>
        RefusedFacts(node, k, start, end, Increment(advice), g, r, s);
        SettledCounts(Ivs(), Plus(g, start, r - 1, Increment(advice)), dontfork, Range(p, q) + Range(r, s));
        o := RollBackRefused(p, q, r, s);
      case NoMemory =>
        o := OutOfMemory(r, p, true);
        StuckHere(g, start, end, Increment(advice), r);
        UntilNow(old(refused), refused, Told(r, s, advice), Plus(g, start, r - 1, Increment(advice)), Range(p, q));
    }
  }
}
