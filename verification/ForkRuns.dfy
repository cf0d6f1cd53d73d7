/** Whole runs of `ibv_dontfork_range` / `ibv_dofork_range`, and when a refused call leaves no trace. */
module ForkRuns {
  import opened ForkRange
  import opened Pages
  import opened RangeMap

  /** A call of `ibv_dontfork_range` or `ibv_dofork_range`, and the page size that holds for it. */
  datatype Call = Call(base: nat, size: nat, pageSize: nat, advice: Advice)

  ghost predicate Proper(c: Call) { PageSize(c.pageSize) && c.base + c.size <= ADDRESS_SPACE }

  ghost function Effect(c: Call, a: int): int
    requires Proper(c)
  {
    if Touched(c.base, c.size, c.pageSize, a) then Increment(c.advice) else 0
  }

  ghost function Balance(calls: seq<Call>, a: int): int
    requires forall c :: c in calls ==> Proper(c)
  {
    if calls == [] then 0 else Balance(calls[..|calls| - 1], a) + Effect(calls[|calls| - 1], a)
  }

  /** The ranges are canonical and the kernel holds exactly the registered addresses. */
  ghost predicate Sound(V: seq<Iv>, K: iset<int>) { Canonical(V) && Shown(K, CountsOf(V), iset{}) }

  /** What one successful call makes of the ranges. */
  ghost predicate Step(V: seq<Iv>, c: Call, V': seq<Iv>, K': iset<int>)
    requires Proper(c)
  {
    Sound(V', K') && forall a :: 0 <= a <= UINTPTR_MAX ==> Count(V', a) == Count(V, a) + Effect(c, a)
  }

  /** A run of successful calls. */
  ghost predicate Run(states: seq<seq<Iv>>, kernel: seq<iset<int>>, calls: seq<Call>)
    requires forall c :: c in calls ==> Proper(c)
  {
    |states| == |kernel| == |calls| + 1 && Sound(states[0], kernel[0]) &&
    forall i :: 0 <= i < |calls| ==> Step(states[i], calls[i], states[i + 1], kernel[i + 1])
  }

  /** The state that `ibv_fork_init` creates. */
  const INITIAL: seq<Iv> := [Iv(0, UINTPTR_MAX, 0)]

  lemma InitialState()
    ensures Sound(INITIAL, iset{}) && forall a :: Count(INITIAL, a) == 0
  {
    forall a ensures Count(INITIAL, a) == 0 {
      assert INITIAL[1..] == [];
    }
  }

  /** After a run the count of an address has changed by its registrations minus its releases, and the
      kernel keeps it out of a child exactly while its count is positive. */
  lemma {:induction false} RunCounts(states: seq<seq<Iv>>, kernel: seq<iset<int>>, calls: seq<Call>)
    requires (forall c :: c in calls ==> Proper(c)) && Run(states, kernel, calls)
    ensures var V, K := states[|calls|], kernel[|calls|];
      Canonical(V) &&
      forall a :: 0 <= a <= UINTPTR_MAX ==>
        Count(V, a) == Count(states[0], a) + Balance(calls, a) && (a in K <==> Count(V, a) > 0)
    decreases |calls|
  {
    var n := |calls|;
    if n > 0 {
      RunCounts(states[..n], kernel[..n], calls[..n - 1]);
      assert Step(states[n - 1], calls[n - 1], states[n], kernel[n]);
    }
    forall a | 0 <= a <= UINTPTR_MAX
      ensures Count(states[n], a) == Count(states[0], a) + Balance(calls, a)
      ensures a in kernel[n] <==> Count(states[n], a) > 0
    {
      assert CountsOf(states[n])(a) == Count(states[n], a);
      if n > 0 { assert Count(states[n - 1], a) == Count(states[0], a) + Balance(calls[..n - 1], a); }
    }
  }

  /** The order of the calls does not matter: runs from the same ranges that register the same addresses
      equally often end in the very same ranges. */
  lemma RunsAgree(states1: seq<seq<Iv>>, kernel1: seq<iset<int>>, calls1: seq<Call>,
                  states2: seq<seq<Iv>>, kernel2: seq<iset<int>>, calls2: seq<Call>)
    requires (forall c :: c in calls1 ==> Proper(c)) && (forall c :: c in calls2 ==> Proper(c))
    requires Run(states1, kernel1, calls1) && Run(states2, kernel2, calls2) && states1[0] == states2[0]
    requires forall a :: 0 <= a <= UINTPTR_MAX ==> Balance(calls1, a) == Balance(calls2, a)
    ensures states1[|calls1|] == states2[|calls2|]
  {
    RunCounts(states1, kernel1, calls1);
    RunCounts(states2, kernel2, calls2);
    var V, W := states1[|calls1|], states2[|calls2|];
    CountsModel(V);
    CountsModel(W);
    SameCounts(V, W, CountsOf(V), CountsOf(W));
  }

  /** Releasing everything that was registered brings back the ranges of the beginning, and from the state
      of `ibv_fork_init` a kernel that holds nothing. */
  lemma BalancedRun(states: seq<seq<Iv>>, kernel: seq<iset<int>>, calls: seq<Call>)
    requires (forall c :: c in calls ==> Proper(c)) && Run(states, kernel, calls)
    requires forall a :: 0 <= a <= UINTPTR_MAX ==> Balance(calls, a) == 0
    ensures states[|calls|] == states[0]
    ensures states[0] == INITIAL ==> forall a :: 0 <= a <= UINTPTR_MAX ==> a !in kernel[|calls|]
  {
    RunCounts(states, kernel, calls);
    RunsAgree(states, kernel, calls, states[..1], kernel[..1], []);
    InitialState();
  }

  // ----- the calls themselves ----------------------------------------------------------

  ghost predicate NeverNegative(V: seq<Iv>) {
    forall a :: 0 <= a <= UINTPTR_MAX ==> Count(V, a) >= 0
  }

  /** `ibv_dontfork_range`: a success is a step of a run, and a refusal that could be undone leaves no trace
      exactly if the byte below the refused ones is not in the call or does not have the count -1; so always,
      as long as nothing has been released more often than registered. */
  method Register(m: ForkMap, c: Call) returns (ret: int, ghost o: Outcome)
    requires Proper(c) && c.advice.DontFork? && m.Settled(iset{})
    modifies m, m.mm, m.mm.repr
    ensures fresh(m.mm.repr - old(m.mm.repr)) && m.Valid() && ret == if o.Applied? then 0 else -1
    ensures ret == 0 ==> m.Settled(iset{}) && Step(old(m.Ivs()), c, m.Ivs(), m.dontfork)
    ensures Accounted(o, c.advice, old(m.failures), m.failures, old(m.refused), m.refused)
    ensures ret == 0 <==> m.failures == old(m.failures) && m.refused == old(m.refused)
    ensures o.RolledBack? <==> m.failures == old(m.failures) && |m.refused| == old(|m.refused|) + 1
    ensures o.RolledBack? ==>
      (m.Ivs() == old(m.Ivs()) <==> o.p == PageStart(c.base, c.pageSize) || old(Count(m.Ivs(), o.p - 1)) != -1)
    ensures o.RolledBack? && old(NeverNegative(m.Ivs())) ==> m.Ivs() == old(m.Ivs())
  {
    hide Canonical, Partition, Shown, CountsOf, Touched, PageSize, Restorable, Logged;
    ret, o := m.MadviseRange(c.base, c.size, DontFork, c.pageSize);
    NoneNegative(old(m.Ivs()), o);
  }

  lemma NoneNegative(V: seq<Iv>, o: Outcome)
    ensures NeverNegative(V) && o.RolledBack? && 0 < o.p <= UINTPTR_MAX ==> Count(V, o.p - 1) >= 0
  {
  }

  /** `ibv_dofork_range`: a success is a step of a run, and a refusal that could be undone leaves no trace
      exactly if the byte below the refused ones is not in the call or was not registered twice. */
  method Release(m: ForkMap, c: Call) returns (ret: int, ghost o: Outcome)
    requires Proper(c) && c.advice.DoFork? && m.Settled(iset{})
    modifies m, m.mm, m.mm.repr
    ensures fresh(m.mm.repr - old(m.mm.repr)) && m.Valid() && ret == if o.Applied? then 0 else -1
    ensures ret == 0 ==> m.Settled(iset{}) && Step(old(m.Ivs()), c, m.Ivs(), m.dontfork)
    ensures Accounted(o, c.advice, old(m.failures), m.failures, old(m.refused), m.refused)
    ensures ret == 0 <==> m.failures == old(m.failures) && m.refused == old(m.refused)
    ensures o.RolledBack? <==> m.failures == old(m.failures) && |m.refused| == old(|m.refused|) + 1
    ensures o.RolledBack? ==>
      (m.Ivs() == old(m.Ivs()) <==> o.p == PageStart(c.base, c.pageSize) || old(Count(m.Ivs(), o.p - 1)) != 2)
  {
    hide Canonical, Partition, Shown, CountsOf, Touched, PageSize, Restorable, Logged;
    ret, o := m.MadviseRange(c.base, c.size, DoFork, c.pageSize);
  }

  /** Either of them. */
  method Perform(m: ForkMap, c: Call) returns (ret: int)
    requires Proper(c) && m.Settled(iset{})
    modifies m, m.mm, m.mm.repr
    ensures fresh(m.mm.repr - old(m.mm.repr)) && m.Valid()
    ensures ret == 0 <==> m.failures == old(m.failures) && m.refused == old(m.refused)
    ensures ret == 0 ==> m.Settled(iset{}) && Step(old(m.Ivs()), c, m.Ivs(), m.dontfork)
  {
    hide Canonical, Partition, Shown, CountsOf, Touched, PageSize, Step;
    ghost var o;
    if c.advice.DontFork? {
      ret, o := Register(m, c);
    } else {
      ret, o := Release(m, c);
    }
  }

  /** Calls until the first one that fails. Whatever calls were made, the ranges are the canonical ones
      with the right counts; when everything has been given back, they are those of the beginning. */
  method PerformAll(m: ForkMap, calls: seq<Call>) returns (done: nat)
    requires (forall c :: c in calls ==> Proper(c)) && m.Settled(iset{})
    modifies m, m.mm, m.mm.repr
    ensures fresh(m.mm.repr - old(m.mm.repr)) && done <= |calls|
    ensures done == |calls| <==> m.failures == old(m.failures) && m.refused == old(m.refused)
    ensures done == |calls| ==> m.Settled(iset{})
    ensures done == |calls| ==> forall a :: 0 <= a <= UINTPTR_MAX ==>
      Count(m.Ivs(), a) == old(Count(m.Ivs(), a)) + Balance(calls, a)
    ensures done == |calls| && (forall a :: 0 <= a <= UINTPTR_MAX ==> Balance(calls, a) == 0) ==>
      m.Ivs() == old(m.Ivs())
  {
    hide Canonical, Shown, Balance, Step;
    ghost var states, kernel := [m.Ivs()], [m.dontfork];
    assert calls[..0] == [];
    done := 0;
    while done < |calls|
      invariant done <= |calls| && m.Settled(iset{}) && fresh(m.mm.repr - old(m.mm.repr))
      invariant Run(states, kernel, calls[..done]) && states[0] == old(m.Ivs())
      invariant m.failures == old(m.failures) && m.refused == old(m.refused)
      invariant states[done] == m.Ivs() && kernel[done] == m.dontfork
    {
      var ret := Perform(m, calls[done]);
      if ret != 0 {
        return;
      }
      RunMore(states, kernel, calls[..done], calls[done], m.Ivs(), m.dontfork);
      assert calls[..done + 1] == calls[..done] + [calls[done]];
      states, kernel := states + [m.Ivs()], kernel + [m.dontfork];
      done := done + 1;
    }
    assert calls[..done] == calls;
    RunCounts(states, kernel, calls);
    if forall a :: 0 <= a <= UINTPTR_MAX ==> Balance(calls, a) == 0 { BalancedRun(states, kernel, calls); }
  }

  lemma RunMore(states: seq<seq<Iv>>, kernel: seq<iset<int>>, calls: seq<Call>, c: Call, V: seq<Iv>, K: iset<int>)
    requires (forall c' :: c' in calls ==> Proper(c')) && Proper(c) && Run(states, kernel, calls)
    requires Step(states[|calls|], c, V, K)
    ensures forall c' :: c' in calls + [c] ==> Proper(c')
    ensures Run(states + [V], kernel + [K], calls + [c])
  {
    hide Step;
    var s, k, t := states + [V], kernel + [K], calls + [c];
    forall i | 0 <= i < |t| ensures Step(s[i], t[i], s[i + 1], k[i + 1]) {
      if i < |calls| { assert t[i] == calls[i]; }
    }
  }

  // ----- when a refused call leaves no trace -------------------------------------------

  /** One input on which releasing does leave a trace: two ranges with counts 2 and 1, the first already
      released, the second refused.  The undo step merges them, finds nothing below the merged range to
      take back, and the first range keeps its new count. */
  lemma ReleasingMayLeaveTrace()
    ensures var V := [Iv(0, 4095, 2), Iv(4096, 8191, 1), Iv(8192, UINTPTR_MAX, 0)];
      var W := Bump(V, 0, Increment(DoFork));
      Canonical(V) && Ready(W, 1, 0, 8191, Increment(DoFork), CountsOf(V)) && W[1].refcnt == 1 &&
      Merge(W, 1) == [Iv(0, 8191, 1), Iv(8192, UINTPTR_MAX, 0)] && Canonical(Merge(W, 1)) && Merge(W, 1) != V
  {
    var V := [Iv(0, 4095, 2), Iv(4096, 8191, 1), Iv(8192, UINTPTR_MAX, 0)];
    CountsModel(V);
    StartKeep(V, 0, 0, 8191, Increment(DoFork), CountsOf(V));
    BodyKeep(V, 0, 0, 8191, Increment(DoFork), CountsOf(V));
    BodyBump(V, 0, 0, 8191, Increment(DoFork), CountsOf(V));
    BodyKeep(Bump(V, 0, Increment(DoFork)), 1, 0, 8191, Increment(DoFork), CountsOf(V));
  }

  /** One input on which a failed malloc costs a neighbour its registration: bytes registered once lie below
      the request, whose first range is merged with theirs before the malloc for the cut at its end fails. */
  lemma ShortageMayCostNeighbour()
    ensures var V := [Iv(0, 4095, 1), Iv(4096, UINTPTR_MAX, 0)];
      var W := Merge(V, 1);
      Canonical(V) && V[0].refcnt == V[1].refcnt + Increment(DontFork) && W[0].end > 8191 &&
      Abandoned(OutOfMemory(4096, 4096, false), 4096, 8191, V, W, Increment(DontFork)) &&
      Count(V, 0) == 1 && Count(W, 0) == 0
  {
    var V := [Iv(0, 4095, 1), Iv(4096, UINTPTR_MAX, 0)];
    CountsModel(V);
    StartMerge(V, 1, 4096, 8191, Increment(DontFork), CountsOf(V));
    ReachedStuck(Merge(V, 1), 0, 4096, 8191, Increment(DontFork), CountsOf(V), 4096);
    AbandonedFirst(OutOfMemory(4096, 4096, false), 4096, 8191, V, Merge(V, 1), Increment(DontFork));
  }
}
