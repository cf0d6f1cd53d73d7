/** How mprud.c turns the completions of the single pieces into completions of whole work requests: the
    counters per path, the ring of work requests, and the window of outstanding pieces. One role, a fixed
    number of active paths, no recovery. */
module MprudComplete {
  import opened Arith
  import MprudSplit

  // ----- sums --------------------------------------------------------------------------

  ghost function Sum(s: seq<nat>): nat {
    if s == [] then 0 else Sum(s[..|s| - 1]) + s[|s| - 1]
  }

  lemma {:induction false} SumUpdate(s: seq<nat>, i: nat, v: nat)
    requires i < |s|
    ensures Sum(s[i := v]) == Sum(s) - s[i] + v && s[i] <= Sum(s)
    decreases |s|
  {
    var l, s' := |s| - 1, s[i := v];
    if i < l {
      assert s'[..l] == s[..l][i := v];
      SumUpdate(s[..l], i, v);
    } else {
      assert s'[..l] == s[..l];
    }
  }

  /** What has been posted and not completed. */
  lemma {:induction false} SumDifference(q: seq<nat>, p: seq<nat>, d: seq<nat>)
    requires |q| == |p| == |d| && forall t :: 0 <= t < |q| ==> q[t] + d[t] == p[t]
    ensures Sum(q) + Sum(d) == Sum(p)
  {
    if q != [] {
      var l := |q| - 1;
      SumDifference(q[..l], p[..l], d[..l]);
    }
  }

  lemma {:induction false} SumZero(n: nat)
    ensures Sum(seq(n, _ => 0)) == 0
  {
    if n > 0 {
      assert seq(n, _ => 0 as nat)[..n - 1] == seq(n - 1, _ => 0);
      SumZero(n - 1);
    }
  }

  /** The pieces per path of the first k work requests. */
  ghost function Before(wqes: seq<nat>, k: nat): nat
    requires k <= |wqes|
  {
    if k == 0 then 0 else Before(wqes, k - 1) + wqes[k - 1]
  }

  lemma {:induction false} BeforeAppend(wqes: seq<nat>, r: nat, k: nat)
    requires k <= |wqes|
    ensures Before(wqes + [r], k) == Before(wqes, k)
  {
    if k > 0 { BeforeAppend(wqes, r, k - 1); }
  }

  lemma {:induction false} BeforeMonotone(wqes: seq<nat>, i: nat, k: nat)
    requires i <= k <= |wqes|
    ensures Before(wqes, i) <= Before(wqes, k)
    decreases k
  {
    if i < k { BeforeMonotone(wqes, i, k - 1); }
  }

  // ----- the ring ----------------------------------------------------------------------

  function Slot(i: nat, len: nat): nat
    requires len > 0
  {
    i % len
  }

  lemma NextSlot(i: nat, len: nat)
    requires len > 0
    ensures Slot(i, len) < len && Slot(i + 1, len) == if Slot(i, len) + 1 == len then 0 else Slot(i, len) + 1
  {
    FloorMod(i, len);
    Cancel(len, i / len, i / len);
    Quotient(i + 1, len, if i % len + 1 == len then i / len + 1 else i / len);
  }

  lemma SlotsDistinct(i: nat, j: nat, len: nat)
    requires len > 0 && i < j < i + len
    ensures Slot(i, len) != Slot(j, len)
  {
    FloorMod(i, len); FloorMod(j, len);
    Cancel(len, i / len, j / len); Cancel(len, i / len + 1, j / len);
  }

  /** The entries of path t in k slots of the ring, beginning with slot s. */
  ghost function RingSum(table: seq<seq<nat>>, t: nat, s: nat, k: nat): nat
    requires s < |table| && forall i :: 0 <= i < |table| ==> t < |table[i]|
    decreases k
  {
    if k == 0 then 0 else table[s][t] + RingSum(table, t, if s + 1 == |table| then 0 else s + 1, k - 1)
  }

  /** The parts of a receive request that the copy of a final piece needs. */
  datatype Request = Request(addr: int, length: nat, last: nat)

  /** A copy of len bytes to an address in the receive buffer. */
  datatype Copying = Copying(to: int, len: nat)

  /** The copy that `mprud_inner_poll` makes when path t of n has completed its last piece of a request. */
  function FinalCopy(req: Request, n: nat, t: nat): Copying
    requires n > 0
  {
    Copying(req.addr + (req.length / n) * t, req.last)
  }

  /** Slot i % len of the ring holds request i, for i from lo to the last one. */
  ghost predicate Kept(ring: seq<Request>, reqs: seq<Request>, lo: nat) {
    |ring| > 0 && forall i :: lo <= i < |reqs| ==> ring[Slot(i, |ring|)] == reqs[i]
  }

  lemma KeptNext(ring: seq<Request>, reqs: seq<Request>, lo: nat, r: Request)
    requires Kept(ring, reqs, lo) && lo <= |reqs| < lo + |ring|
    ensures Slot(|reqs|, |ring|) < |ring|
    ensures Kept(ring[Slot(|reqs|, |ring|) := r], reqs + [r], lo)
  {
    NextSlot(|reqs|, |ring|);
    var ring' := ring[Slot(|reqs|, |ring|) := r];
    hide Slot;
    forall i | lo <= i < |reqs| + 1 ensures ring'[Slot(i, |ring'|)] == (reqs + [r])[i] {
      if i < |reqs| { SlotsDistinct(i, |reqs|, |ring|); NextSlot(i, |ring|); }
    }
  }

  /** Slot i % len of the table describes request i, for i from lo to hi - 1. */
  ghost predicate Holds(table: seq<seq<nat>>, wqes: seq<nat>, n: nat, lo: nat, hi: nat) {
    |table| > 0 && hi <= |wqes| && (forall s :: 0 <= s < |table| ==> |table[s]| == n) &&
    (forall i, t :: lo <= i < hi && 0 <= t < n ==> table[Slot(i, |table|)][t] == wqes[i])
  }

  lemma HoldsNext(table: seq<seq<nat>>, wqes: seq<nat>, n: nat, lo: nat, r: nat)
    requires Holds(table, wqes, n, lo, |wqes|) && lo <= |wqes| < lo + |table|
    ensures Slot(|wqes|, |table|) < |table|
    ensures Holds(table[Slot(|wqes|, |table|) := seq(n, _ => r)], wqes + [r], n, lo, |wqes| + 1)
  {
    NextSlot(|wqes|, |table|);
    var table' := table[Slot(|wqes|, |table|) := seq(n, _ => r)];
    hide Slot;
    forall i, t | lo <= i < |wqes| + 1 && 0 <= t < n
      ensures table'[Slot(i, |table'|)][t] == (wqes + [r])[i]
    {
      if i < |wqes| { SlotsDistinct(i, |wqes|, |table|); NextSlot(i, |table|); }
    }
  }

  lemma {:induction false} RingSumIs(table: seq<seq<nat>>, wqes: seq<nat>, n: nat, lo: nat, hi: nat, t: nat, k: nat)
    requires Holds(table, wqes, n, lo, hi) && lo + k <= hi && t < n
    ensures Slot(lo, |table|) < |table|
    ensures Before(wqes, lo) + RingSum(table, t, Slot(lo, |table|), k) == Before(wqes, lo + k)
    decreases k
  {
    NextSlot(lo, |table|);
    if k > 0 {
      RingSumIs(table, wqes, n, lo + 1, hi, t, k - 1);
    }
  }

  lemma {:induction false} RingSumHas(table: seq<seq<nat>>, t: nat, lo: nat, k: nat, i: nat)
    requires |table| > 0 && (forall s :: 0 <= s < |table| ==> t < |table[s]|) && lo <= i < lo + k
    ensures Slot(lo, |table|) < |table| && Slot(i, |table|) < |table|
    ensures table[Slot(i, |table|)][t] <= RingSum(table, t, Slot(lo, |table|), k)
    decreases k
  {
    NextSlot(lo, |table|); NextSlot(i, |table|);
    if lo < i { RingSumHas(table, t, lo + 1, k - 1, i); }
  }

  lemma LastSlot(i: nat, len: nat)
    requires len > 0
    ensures Slot(Slot(i + 1, len) + len - 1, len) == Slot(i, len)
  {
    FloorMod(i, len); FloorMod(i + 1, len);
    NextSlot(i, len);
    var x := Slot(i + 1, len);
    Quotient(x + len - 1, len, if x == 0 then 0 else 1);
  }

  // ----- one path ----------------------------------------------------------------------

  /** None of the first k requests is so short that its paths have nothing to do. */
  ghost predicate NoneEmpty(wqes: seq<nat>, k: nat)
    requires k <= |wqes|
  {
    forall i :: 0 <= i < k ==> wqes[i] > 0
  }

  /** Path t has completed `done` pieces: it is `comp` pieces into request `at`, or past the beginning of
      an empty one, where `comp_temp` never meets its entry; so it has not left an empty one behind. */
  ghost predicate Within(wqes: seq<nat>, at: nat, comp: nat, done: nat) {
    at <= |wqes| && Before(wqes, at) + comp == done && (at < |wqes| && wqes[at] > 0 ==> comp < wqes[at]) &&
    NoneEmpty(wqes, at)
  }

  /** The counters of one path. */
  ghost predicate Counted(wqes: seq<nat>, emitted: nat, pkt: nat, qlen: nat, posted: nat, done: nat) {
    emitted <= |wqes| && done + qlen == posted <= Before(wqes, |wqes|) && Before(wqes, emitted) + pkt == done
  }

  /** The path looks at the slot of the request it is working on. */
  ghost predicate Tracked(wqes: seq<nat>, emitted: nat, len: nat, at: nat, idx: nat, comp: nat, done: nat) {
    len > 0 && emitted <= at && idx == Slot(at, len) && Within(wqes, at, comp, done)
  }

  ghost predicate InRing(idx: seq<nat>, len: nat) {
    forall t :: 0 <= t < |idx| ==> idx[t] < len
  }

  ghost predicate AllCounted(wqes: seq<nat>, emitted: nat, pkt: seq<nat>, qlen: seq<nat>, posted: seq<nat>,
                             done: seq<nat>)
  {
    |pkt| == |qlen| == |posted| == |done| &&
    forall t :: 0 <= t < |pkt| ==> Counted(wqes, emitted, pkt[t], qlen[t], posted[t], done[t])
  }

  ghost predicate AllTracked(wqes: seq<nat>, emitted: nat, len: nat, at: seq<nat>, idx: seq<nat>, comp: seq<nat>,
                             done: seq<nat>)
  {
    |at| == |idx| == |comp| == |done| &&
    forall t :: 0 <= t < |at| ==> Tracked(wqes, emitted, len, at[t], idx[t], comp[t], done[t])
  }

  lemma AllCountedUpdate(wqes: seq<nat>, emitted: nat, pkt: seq<nat>, qlen: seq<nat>, posted: seq<nat>, done: seq<nat>,
                         t: nat, pkt': nat, qlen': nat, posted': nat, done': nat)
    requires AllCounted(wqes, emitted, pkt, qlen, posted, done) && t < |pkt|
    requires Counted(wqes, emitted, pkt', qlen', posted', done')
    ensures AllCounted(wqes, emitted, pkt[t := pkt'], qlen[t := qlen'], posted[t := posted'], done[t := done'])
  {
  }

  lemma AllTrackedUpdate(wqes: seq<nat>, emitted: nat, len: nat, at: seq<nat>, idx: seq<nat>, comp: seq<nat>,
                         done: seq<nat>, t: nat, at': nat, idx': nat, comp': nat, done': nat)
    requires AllTracked(wqes, emitted, len, at, idx, comp, done) && t < |at|
    requires Tracked(wqes, emitted, len, at', idx', comp', done')
    ensures AllTracked(wqes, emitted, len, at[t := at'], idx[t := idx'], comp[t := comp'], done[t := done'])
  {
  }

  lemma CountedAppend(wqes: seq<nat>, r: nat, emitted: nat, pkt: nat, qlen: nat, posted: nat, done: nat)
    requires Counted(wqes, emitted, pkt, qlen, posted, done)
    ensures Counted(wqes + [r], emitted, pkt, qlen, posted, done)
  {
    BeforeAppend(wqes, r, |wqes|);
    BeforeAppend(wqes, r, emitted);
  }

  lemma CountedDone(wqes: seq<nat>, emitted: nat, pkt: nat, qlen: nat, posted: nat, done: nat)
    requires Counted(wqes, emitted, pkt, qlen, posted, done)
    ensures done <= Before(wqes, |wqes|)
  {
  }

  lemma WithinStep(wqes: seq<nat>, at: nat, comp: nat, done: nat)
    requires Within(wqes, at, comp, done) && done < Before(wqes, |wqes|)
    ensures at < |wqes| && (comp + 1 == wqes[at] <==> done + 1 == Before(wqes, at + 1))
    ensures if comp + 1 == wqes[at] then Within(wqes, at + 1, 0, done + 1) else Within(wqes, at, comp + 1, done + 1)
  {
  }

  lemma TrackedAppend(wqes: seq<nat>, r: nat, emitted: nat, len: nat, at: nat, idx: nat, comp: nat, done: nat)
    requires Tracked(wqes, emitted, len, at, idx, comp, done) && done <= Before(wqes, |wqes|)
    ensures Tracked(wqes + [r], emitted, len, at, idx, comp, done)
  {
    BeforeAppend(wqes, r, at);
  }

  /** A path that has completed everything up to a request with pieces has left that request behind. */
  lemma WithinBeyond(wqes: seq<nat>, at: nat, comp: nat, done: nat, k: nat)
    requires Within(wqes, at, comp, done) && k <= at && k < |wqes| && wqes[k] > 0 && Before(wqes, k + 1) <= done
    ensures k < at
  {
  }

  // ----- the posting loop in turn ------------------------------------------------------

  /** Every path has got `whole` pieces, and the s paths from the one whose turn it was on one more. */
  ghost predicate InTurn(posted: seq<nat>, n: nat, turn: nat, whole: nat, s: nat)
    requires turn < n
  {
    |posted| == n && forall t :: 0 <= t < n ==>
      posted[t] == whole + if MprudSplit.Behind(t, turn, n) < s then 1 else 0
  }

  lemma InTurnStep(posted: seq<nat>, n: nat, turn: nat, whole: nat, s: nat, u: nat)
    requires turn < n && s < n && u < n && MprudSplit.Behind(u, turn, n) == s && InTurn(posted, n, turn, whole, s)
    ensures posted[u] == whole
    ensures var now := posted[u := posted[u] + 1];
      if s + 1 == n then InTurn(now, n, turn, whole + 1, 0) else InTurn(now, n, turn, whole, s + 1)
  {
    assert forall t :: 0 <= t < n && t != u ==> MprudSplit.Behind(t, turn, n) != s;
  }

  lemma InTurnWhole(posted: seq<nat>, n: nat, turn: nat, whole: nat)
    requires turn < n
    ensures InTurn(posted, n, turn, whole, 0) <==> AllAt(posted, n, whole)
  {
  }

  ghost predicate AllAt(posted: seq<nat>, n: nat, whole: nat) {
    |posted| == n && forall t :: 0 <= t < n ==> posted[t] == whole
  }

  ghost predicate AllTrue(offers: seq<bool>) {
    forall i :: 0 <= i < |offers| ==> offers[i]
  }

  /** The k queues from that of path `turn` on are empty. */
  ghost predicate Drained(qlen: seq<nat>, n: nat, turn: nat, k: nat)
    requires turn < n
  {
    |qlen| == n && forall t :: 0 <= t < n && MprudSplit.Behind(t, turn, n) < k ==> qlen[t] == 0
  }

  lemma {:induction false} AllDrained(qlen: seq<nat>)
    requires forall t :: 0 <= t < |qlen| ==> qlen[t] == 0
    ensures Sum(qlen) == 0
    decreases |qlen|
  {
    if qlen != [] { AllDrained(qlen[..|qlen| - 1]); }
  }

  lemma DrainedAll(qlen: seq<nat>, n: nat, turn: nat)
    requires turn < n && Drained(qlen, n, turn, n)
    ensures Sum(qlen) == 0
  {
    AllDrained(qlen);
  }

  // ----- the engine --------------------------------------------------------------------

  class Engine {
    const n: nat          // active_num
    const window: nat     // 256 pieces for a sender, 512 for a receiver
    const server: bool
    var pkt: seq<nat>     // qp_stat[t].polled_scnt.pkt or polled_rcnt.pkt
    var compTemp: seq<nat>
    var wqeIdx: seq<nat>
    var qlen: seq<nat>
    var totPosted: nat
    var totPolled: nat
    var pollTurn: nat
    var head: nat
    var next: nat
    var table: seq<seq<nat>>      // wqe[i].iter_each[t]
    var rwr: seq<Request>         // wqe[i].rwr and wqe[i].chnk_last
    ghost var wqes: seq<nat>      // iter_each of every request ever stored
    ghost var reqs: seq<Request>  // and the request itself
    ghost var emitted: nat        // completions given to the application
    ghost var posted: seq<nat>    // pieces posted on each path
    ghost var done: seq<nat>      // and completed
    ghost var at: seq<nat>        // the request each path is working on

    /** The counters that decide when a request is complete. */
    ghost predicate Counting()
      reads this
    {
      n > 0 && |pkt| == |compTemp| == |wqeIdx| == |qlen| == |posted| == |done| == |at| == n &&
      emitted <= |wqes| <= emitted + |table| && Holds(table, wqes, n, emitted, |wqes|) &&
      head == Slot(emitted, |table|) && next == Slot(|wqes|, |table|) &&
      |rwr| == |table| && |reqs| == |wqes| && Kept(rwr, reqs, emitted) && InRing(wqeIdx, |table|) &&
      AllCounted(wqes, emitted, pkt, qlen, posted, done) &&
      totPosted == Sum(posted) && totPolled == Sum(done) && totPosted <= totPolled + window
    }

    /** The index of the request each path is working on, and its progress there. */
    ghost predicate Tracking()
      reads this
    {
      AllTracked(wqes, emitted, |table|, at, wqeIdx, compTemp, done)
    }

    ghost predicate Valid()
      reads this
    {
      Counting() && (server ==> NoneEmpty(wqes, |wqes|)) && (NoneEmpty(wqes, emitted) ==> Tracking())
    }

    /** Every piece of request k, on every path, has been completed. */
    ghost predicate Finished(k: nat)
      reads this
      requires k < |wqes| && |done| == n
    {
      forall t :: 0 <= t < n ==> Before(wqes, k + 1) <= done[t]
    }

    constructor (n: nat, window: nat, server: bool, tableLen: nat)
      requires n > 0 && tableLen > 0
      ensures Valid() && this.n == n && this.window == window && this.server == server && |table| == tableLen
      ensures wqes == [] && reqs == [] && emitted == 0 && totPosted == totPolled == 0
      ensures done == posted == compTemp == wqeIdx == seq(n, _ => 0) && pollTurn == 0
    {
      this.n, this.window, this.server := n, window, server;
      pkt, compTemp, wqeIdx, qlen := seq(n, _ => 0), seq(n, _ => 0), seq(n, _ => 0), seq(n, _ => 0);
      totPosted, totPolled, pollTurn, head, next := 0, 0, 0, 0, 0;
      table, rwr := seq(tableLen, _ => seq(n, _ => 0)), seq(tableLen, _ => Request(0, 0, 0));
      reqs, wqes, emitted, posted, done, at := [], [], 0, seq(n, _ => 0), seq(n, _ => 0), seq(n, _ => 0);
      new;
      SumZero(n);
      assert Slot(0, |table|) == 0;
    }

    /** `mprud_store_wr`: a request of r pieces per path enters the ring, which must have a free slot. For a
        receive request the source divides by the number of pieces. */
    method StoreWr(r: nat, req: Request)
      requires Valid() && |wqes| < emitted + |table| && (server ==> r > 0)
      modifies this`next, this`table, this`rwr, this`wqes, this`reqs
      ensures Valid() && wqes == old(wqes) + [r] && reqs == old(reqs) + [req] && |table| == |old(table)|
      ensures table == old(table[next := seq(n, _ => r)])
    {
      hide Slot, Holds, Kept, Sum, AllCounted, AllTracked, NoneEmpty, InRing;
      StoreFacts(r, req);
      table, rwr := table[next := seq(n, _ => r)], rwr[next := req];
      next := next + 1;
      if next == |table| {
        next := 0;
      }
      wqes, reqs := wqes + [r], reqs + [req];
    }

    /** What storing a request leaves true. */
    lemma StoreFacts(r: nat, req: Request)
      requires Valid() && |wqes| < emitted + |table| && (server ==> r > 0)
      ensures server ==> NoneEmpty(wqes + [r], |wqes| + 1)
      ensures next < |table| && Slot(|wqes| + 1, |table|) == if next + 1 == |table| then 0 else next + 1
      ensures Holds(table[next := seq(n, _ => r)], wqes + [r], n, emitted, |wqes| + 1)
      ensures Kept(rwr[next := req], reqs + [req], emitted)
      ensures AllCounted(wqes + [r], emitted, pkt, qlen, posted, done)
      ensures NoneEmpty(wqes + [r], emitted) ==> AllTracked(wqes + [r], emitted, |table|, at, wqeIdx, compTemp, done)
    {
      HoldsNext(table, wqes, n, emitted, r);
      KeptNext(rwr, reqs, emitted, req);
      NextSlot(|wqes|, |table|);
      assert NoneEmpty(wqes + [r], emitted) ==> NoneEmpty(wqes, emitted) by {
        assert forall i :: 0 <= i < emitted ==> (wqes + [r])[i] == wqes[i];
      }
      hide Slot, Holds, Kept, Sum, Counted, Tracked, NoneEmpty;
      forall t | 0 <= t < n
        ensures Counted(wqes + [r], emitted, pkt[t], qlen[t], posted[t], done[t])
        ensures Tracking() ==> Tracked(wqes + [r], emitted, |table|, at[t], wqeIdx[t], compTemp[t], done[t])
      {
        CountedAppend(wqes, r, emitted, pkt[t], qlen[t], posted[t], done[t]);
        CountedDone(wqes, emitted, pkt[t], qlen[t], posted[t], done[t]);
        if Tracking() { TrackedAppend(wqes, r, emitted, |table|, at[t], wqeIdx[t], compTemp[t], done[t]); }
      }
    }

    /** One piece is handed to path t while there is room in the window (`mprud_post_send`,
        `mprud_post_recv`). */
    method PostPiece(t: nat)
      requires Valid() && t < n && posted[t] < Before(wqes, |wqes|) && totPosted < totPolled + window
      modifies this`qlen, this`totPosted, this`posted
      ensures Valid() && posted == old(posted)[t := old(posted)[t] + 1]
    {
      SumUpdate(posted, t, posted[t] + 1);
      AllCountedUpdate(wqes, emitted, pkt, qlen, posted, done, t, pkt[t], qlen[t] + 1, posted[t] + 1, done[t]);
      assert pkt[t := pkt[t]] == pkt && done[t := done[t]] == done;
      hide AllTracked, AllCounted, Sum, Before, Holds, Within;
      posted := posted[t := posted[t] + 1];
      qlen := qlen[t := qlen[t] + 1];
      totPosted := totPosted + 1;
    }

    /** `mprud_inner_poll`: the queue of the path whose turn it is may report one completion. A server
        copies a final piece exactly when the path has completed its last piece of a request, and to the
        place that follows from that very request. */
    method InnerPoll(reports: bool) returns (t: nat, polled: bool, copies: seq<Copying>)
      requires Valid() && (reports ==> qlen[pollTurn % n] > 0)
      modifies this`pkt, this`compTemp, this`wqeIdx, this`qlen, this`totPolled, this`pollTurn, this`done, this`at
      ensures Valid() && t == old(pollTurn) % n && polled == reports
      ensures done == if polled then old(done)[t := old(done)[t] + 1] else old(done)
      ensures polled ==> (compTemp, wqeIdx) == old(Progress(t))
      ensures if polled then totPolled == old(totPolled) + 1 else qlen == old(qlen) && totPolled == old(totPolled)
      ensures pollTurn == if old(totPolled) < old(totPosted) then (old(pollTurn) + 1) % n else old(pollTurn)
      ensures if polled && server then old(CopiesAt(t, done[t] + 1, copies)) else copies == []
    {
      t := pollTurn % n;
      polled, copies := false, [];
      QueuesInWindow(t);
      if totPosted - totPolled > 0 {
        pollTurn := (pollTurn + 1) % n;
        if reports {
          polled := true;
          copies := Complete(t);
        }
      }
    }

    /** Having completed k pieces, path t makes these copies. */
    ghost predicate CopiesAt(t: nat, k: nat, copies: seq<Copying>)
      requires Valid() && t < n
      reads this
    {
      at[t] < |wqes| && copies == if k == Before(wqes, at[t] + 1) then [FinalCopy(reqs[at[t]], n, t)] else []
    }

    /** One completion is counted for path t. */
    method Complete(t: nat) returns (copies: seq<Copying>)
      requires Valid() && t < n && qlen[t] > 0
      modifies this`pkt, this`compTemp, this`wqeIdx, this`qlen, this`totPolled, this`done, this`at
      ensures Valid() && done == old(done)[t := old(done)[t] + 1] && totPolled == old(totPolled) + 1
      ensures (compTemp, wqeIdx) == old(Progress(t))
      ensures if server then old(CopiesAt(t, done[t] + 1, copies)) else copies == []
    {
      hide *;
      StepFacts(t);
      if server { CopyFacts(t); }
      copies := CopyFinal(t);
      CountCompletion(t);
    }

    /** The counters of path t after one more completion. */
    method CountCompletion(t: nat)
      requires Valid() && t < n && qlen[t] > 0
      modifies this`pkt, this`compTemp, this`wqeIdx, this`qlen, this`totPolled, this`done, this`at
      ensures Valid() && done == old(done)[t := old(done)[t] + 1] && totPolled == old(totPolled) + 1
      ensures (compTemp, wqeIdx) == old(Progress(t))
    {
      hide Sum, Holds, Slot, AllTracked, AllCounted, NoneEmpty, AfterSlot, Before, InRing, Kept, NextComp, NextIdx,
        NextAt, Ends;
      StepFacts(t);
      CountIn(t);
      Advance(t);
    }

    /** The copy is made from the slot that the path looks at. */
    method CopyFinal(t: nat) returns (copies: seq<Copying>)
      requires n > 0 && |compTemp| == |wqeIdx| == n && t < n && wqeIdx[t] < |table| == |rwr| && t < |table[wqeIdx[t]]|
      ensures copies == if Ends(t) && server then [FinalCopy(rwr[wqeIdx[t]], n, t)] else []
    {
      copies := [];
      if compTemp[t] + 1 == table[wqeIdx[t]][t] && server {
        var req := rwr[wqeIdx[t]];
        copies := [Copying(req.addr + (req.length / n) * t, req.last)];
      }
    }

    method CountIn(t: nat)
      requires |pkt| == |qlen| == |done| == n && t < n && qlen[t] > 0
      modifies this`pkt, this`qlen, this`totPolled, this`done
      ensures pkt == old(pkt)[t := old(pkt)[t] + 1] && qlen == old(qlen)[t := old(qlen)[t] - 1]
      ensures done == old(done)[t := old(done)[t] + 1] && totPolled == old(totPolled) + 1
    {
      pkt := pkt[t := pkt[t] + 1];
      totPolled := totPolled + 1;
      qlen := qlen[t := qlen[t] - 1];
      done := done[t := done[t] + 1];
    }

    /** The progress of path t in its current request; at the end of it, it goes on to the next slot. */
    method Advance(t: nat)
      requires |compTemp| == |wqeIdx| == |at| == n && t < n && wqeIdx[t] < |table| && t < |table[wqeIdx[t]]|
      modifies this`compTemp, this`wqeIdx, this`at
      ensures compTemp == old(NextComp(t)) && wqeIdx == old(NextIdx(t)) && at == old(NextAt(t))
    {
      compTemp := compTemp[t := compTemp[t] + 1];
      if compTemp[t] == table[wqeIdx[t]][t] {
        compTemp := compTemp[t := 0];
        wqeIdx := wqeIdx[t := wqeIdx[t] + 1];
        if wqeIdx[t] == |table| {
          wqeIdx := wqeIdx[t := 0];
        }
        at := at[t := at[t] + 1];
      }
    }

    /** The completion that comes next is the last one of the current request of path t. */
    ghost predicate Ends(t: nat)
      reads this`compTemp, this`wqeIdx, this`table
      requires t < |compTemp| && t < |wqeIdx| && wqeIdx[t] < |table| && t < |table[wqeIdx[t]]|
    {
      compTemp[t] + 1 == table[wqeIdx[t]][t]
    }

    ghost function NextComp(t: nat): seq<nat>
      reads this`compTemp, this`wqeIdx, this`table
      requires t < |compTemp| && t < |wqeIdx| && wqeIdx[t] < |table| && t < |table[wqeIdx[t]]|
    {
      compTemp[t := if Ends(t) then 0 else compTemp[t] + 1]
    }

    ghost function NextIdx(t: nat): seq<nat>
      reads this`compTemp, this`wqeIdx, this`table
      requires t < |compTemp| && t < |wqeIdx| && wqeIdx[t] < |table| && t < |table[wqeIdx[t]]|
    {
      if Ends(t) then wqeIdx[t := AfterSlot(wqeIdx[t])] else wqeIdx
    }

    ghost function Progress(t: nat): (seq<nat>, seq<nat>)
      requires Valid() && t < n && qlen[t] > 0
      reads this
    {
      StepFacts(t);
      (NextComp(t), NextIdx(t))
    }

    ghost function NextAt(t: nat): seq<nat>
      reads this`at, this`compTemp, this`wqeIdx, this`table
      requires t < |at| && t < |compTemp| && t < |wqeIdx| && wqeIdx[t] < |table| && t < |table[wqeIdx[t]]|
    {
      if Ends(t) then at[t := at[t] + 1] else at
    }

    ghost function AfterSlot(s: nat): nat
      reads this`table
    {
      if s + 1 == |table| then 0 else s + 1
    }

    /** The slot that path t looks at describes the request it is working on. */
    lemma CurrentEntry(t: nat)
      requires Valid() && t < n && qlen[t] > 0
      ensures |table[wqeIdx[t]]| == n && totPolled < totPosted
      ensures Counted(wqes, emitted, pkt[t] + 1, qlen[t] - 1, posted[t], done[t] + 1)
      ensures NoneEmpty(wqes, emitted) ==>
        if compTemp[t] + 1 == table[wqeIdx[t]][t]
        then Tracked(wqes, emitted, |table|, at[t] + 1, AfterSlot(wqeIdx[t]), 0, done[t] + 1)
        else Tracked(wqes, emitted, |table|, at[t], wqeIdx[t], compTemp[t] + 1, done[t] + 1)
    {
      QueuesInWindow(t);
      NextSlot(at[t], |table|);
      if NoneEmpty(wqes, emitted) {
        WithinStep(wqes, at[t], compTemp[t], done[t]);
        assert table[Slot(at[t], |table|)][t] == wqes[at[t]];
      }
    }

    /** And so does the copy. */
    lemma CopyFacts(t: nat)
      requires Valid() && t < n && qlen[t] > 0 && server
      ensures |compTemp| == |wqeIdx| == n && wqeIdx[t] < |table| == |rwr| && t < |table[wqeIdx[t]]|
      ensures CopiesAt(t, done[t] + 1, if Ends(t) then [FinalCopy(rwr[wqeIdx[t]], n, t)] else [])
    {
      NextSlot(at[t], |table|);
      WithinStep(wqes, at[t], compTemp[t], done[t]);
      assert table[Slot(at[t], |table|)][t] == wqes[at[t]];
      assert rwr[Slot(at[t], |rwr|)] == reqs[at[t]];
    }

    /** What one completion on path t leaves true. */
    lemma StepFacts(t: nat)
      requires Valid() && t < n && qlen[t] > 0
      ensures |wqeIdx| == n && wqeIdx[t] < |table| == |rwr| && |table[wqeIdx[t]]| == |compTemp| == |at| == n
      ensures totPolled < totPosted && emitted <= |wqes|
      ensures InRing(NextIdx(t), |table|) && |NextIdx(t)| == |NextAt(t)| == |NextComp(t)| == n
      ensures Sum(done[t := done[t] + 1]) == totPolled + 1
      ensures AllCounted(wqes, emitted, pkt[t := pkt[t] + 1], qlen[t := qlen[t] - 1], posted, done[t := done[t] + 1])
      ensures NoneEmpty(wqes, emitted) ==>
        AllTracked(wqes, emitted, |table|, NextAt(t), NextIdx(t), NextComp(t), done[t := done[t] + 1])
    {
      hide Sum, Holds, Slot, AllTracked, AllCounted, NoneEmpty, AfterSlot, Before, InRing, NextComp, NextIdx, NextAt,
        Ends, Tracking;
      CountedStep(t);
      if NoneEmpty(wqes, emitted) { TrackedStep(t); }
    }

    lemma CountedStep(t: nat)
      requires Valid() && t < n && qlen[t] > 0
      ensures |wqeIdx| == n && wqeIdx[t] < |table| == |rwr| && |table[wqeIdx[t]]| == |compTemp| == |at| == n
      ensures totPolled < totPosted && emitted <= |wqes|
      ensures InRing(NextIdx(t), |table|) && |NextIdx(t)| == |NextAt(t)| == |NextComp(t)| == n
      ensures Sum(done[t := done[t] + 1]) == totPolled + 1
      ensures AllCounted(wqes, emitted, pkt[t := pkt[t] + 1], qlen[t := qlen[t] - 1], posted, done[t := done[t] + 1])
    {
      SumUpdate(done, t, done[t] + 1);
      CurrentEntry(t);
      AllCountedUpdate(wqes, emitted, pkt, qlen, posted, done, t, pkt[t] + 1, qlen[t] - 1, posted[t], done[t] + 1);
      assert posted[t := posted[t]] == posted;
    }

    lemma TrackedStep(t: nat)
      requires Valid() && NoneEmpty(wqes, emitted) && t < n && qlen[t] > 0
      ensures |table[wqeIdx[t]]| == n
      ensures AllTracked(wqes, emitted, |table|, NextAt(t), NextIdx(t), NextComp(t), done[t := done[t] + 1])
    {
      CurrentEntry(t);
      var e := compTemp[t] + 1 == table[wqeIdx[t]][t];
      hide Tracked;
      AllTrackedUpdate(wqes, emitted, |table|, at, wqeIdx, compTemp, done, t, if e then at[t] + 1 else at[t],
        if e then AfterSlot(wqeIdx[t]) else wqeIdx[t], if e then 0 else compTemp[t] + 1, done[t] + 1);
      assert at[t := at[t]] == at && wqeIdx[t := wqeIdx[t]] == wqeIdx;
    }

    /** `mprud_get_outer_poll`: a completion for the application. It is reported exactly if every piece of
        the oldest open request has been completed on every path, and so in the order of posting. */
    method OuterPoll() returns (r: nat)
      requires Valid() && emitted < |wqes|
      modifies this`pkt, this`head, this`emitted
      ensures Valid() && emitted == old(emitted) + r && |pkt| == n
      ensures r == if old(Finished(emitted)) then 1 else 0
    {
      var compFlag := AllPolled();
      if compFlag {
        hide Sum, Slot, Counted, Tracked, Kept, Within;
        NextSlot(emitted, |table|);
        LeftBehind();
        TakeOff(wqes[emitted]);
        head := head + 1;
        if head == |table| {
          head := 0;
        }
        emitted := emitted + 1;
        return 1;
      }
      return 0;
    }

    /** The second loop of `mprud_get_outer_poll`. */
    method TakeOff(ghost r: nat)
      requires |pkt| == n && head < |table| && |table[head]| == n
      requires forall t :: 0 <= t < n ==> table[head][t] == r <= pkt[t]
      modifies this`pkt
      ensures |pkt| == n && forall t :: 0 <= t < n ==> pkt[t] == old(pkt)[t] - r
    {
      var i := 0;
      while i < n
        invariant i <= n && |pkt| == n
        invariant forall t :: 0 <= t < i ==> pkt[t] == old(pkt)[t] - r
        invariant forall t :: i <= t < n ==> pkt[t] == old(pkt)[t]
      {
        pkt := pkt[i := pkt[i] - table[head][i]];
        i := i + 1;
      }
    }

    /** The first loop of `mprud_get_outer_poll`. */
    method AllPolled() returns (compFlag: bool)
      requires Valid() && emitted < |wqes|
      ensures compFlag <==> Finished(emitted)
      ensures head < |table| && |table[head]| == n
      ensures forall t :: 0 <= t < n ==> table[head][t] == wqes[emitted] && (compFlag ==> wqes[emitted] <= pkt[t])
    {
      NextSlot(emitted, |table|);
      hide Sum, Before, Within;
      compFlag := true;
      var i := 0;
      while i < n && compFlag
        invariant i <= n && (compFlag ==> forall t :: 0 <= t < i ==> wqes[emitted] <= pkt[t])
        invariant !compFlag ==> exists t :: 0 <= t < n && pkt[t] < wqes[emitted]
        decreases n - i, compFlag
      {
        assert table[head][i] == wqes[emitted];
        if pkt[i] < table[head][i] {
          compFlag := false;
        } else {
          i := i + 1;
        }
      }
    }

    /** No path is still working on a request that is complete, unless that has no pieces. */
    lemma LeftBehind()
      requires Valid() && emitted < |wqes| && Finished(emitted)
      ensures forall t :: 0 <= t < n ==>
        wqes[emitted] <= pkt[t] && Counted(wqes, emitted + 1, pkt[t] - wqes[emitted], qlen[t], posted[t], done[t])
      ensures NoneEmpty(wqes, emitted + 1) ==> forall t :: 0 <= t < n ==>
        Tracked(wqes, emitted + 1, |table|, at[t], wqeIdx[t], compTemp[t], done[t])
    {
      forall t | 0 <= t < n && NoneEmpty(wqes, emitted + 1) ensures emitted + 1 <= at[t] {
        WithinBeyond(wqes, at[t], compTemp[t], done[t], emitted);
      }
    }

    // --- what every reachable state has in common ---

    /** The polled counter of a path is its progress in the current request plus everything the ring holds
        from the head up to that request. */
    lemma PolledIsTempPlusRing(t: nat)
      requires Valid() && (server || NoneEmpty(wqes, emitted)) && t < n
      ensures emitted <= at[t] && wqeIdx[t] == Slot(at[t], |table|) && head < |table|
      ensures pkt[t] == compTemp[t] + RingSum(table, t, head, at[t] - emitted)
    {
      RingSumIs(table, wqes, n, emitted, |wqes|, t, at[t] - emitted);
    }

    /** The window holds for the sum of the queues, and so for each of them. */
    lemma QueuesInWindow(t: nat)
      requires Valid() && t < n
      ensures Sum(qlen) == totPosted - totPolled && qlen[t] <= Sum(qlen) <= window
    {
      SumDifference(qlen, posted, done);
      SumUpdate(qlen, t, 0);
    }

    /** Once every piece is completed, the oldest open request is complete: the application gets a
        completion for every request. */
    lemma NothingIsLost()
      requires Valid() && emitted < |wqes| && forall t :: 0 <= t < n ==> done[t] == Before(wqes, |wqes|)
      ensures Finished(emitted)
    {
      BeforeMonotone(wqes, emitted + 1, |wqes|);
    }

    // --- requests without pieces ---

    /** In front of the first empty request every path waits. */
    lemma WaitingAtEmpty(t: nat)
      requires Valid() && emitted < |wqes| && NoneEmpty(wqes, emitted) && wqes[emitted] == 0 && t < n
      ensures wqeIdx[t] == Slot(emitted, |table|) && Before(wqes, emitted) + compTemp[t] == done[t]
      ensures Finished(emitted)
    {
      hide Slot, Sum;
      forall u | 0 <= u < n ensures Before(wqes, emitted + 1) <= done[u] {
        assert Counted(wqes, emitted, pkt[u], qlen[u], posted[u], done[u]);
      }
      assert Tracked(wqes, emitted, |table|, at[t], wqeIdx[t], compTemp[t], done[t]);
    }

    lemma RingShape()
      requires Valid()
      ensures head < |table| && head == Slot(emitted, |table|) && |compTemp| == |wqeIdx| == |pkt| == n
      ensures forall s :: 0 <= s < |table| ==> |table[s]| == n
    {
      NextSlot(emitted, |table|);
    }

    /** What that means after its report, with another request in the ring. */
    lemma StalledBehind(t: nat)
      requires Valid() && 0 < emitted < |wqes| < emitted + |table| && t < n && wqes[emitted - 1] == 0
      requires wqes[|wqes| - 1] > 0 && Before(wqes, emitted - 1) + compTemp[t] == done[t]
      ensures head < |table| && pkt[t] < compTemp[t] + RingSum(table, t, head, |table| - 1)
    {
      hide Sum, Tracked, InRing, Kept;
      NextSlot(emitted, |table|);
      RingSumHas(table, t, emitted, |table| - 1, |wqes| - 1);
      hide RingSum, Slot;
    }

    /** On a sender, for any number of paths, any window and any ring of two or more slots: when the first
        empty request is reported and a request with pieces is stored, the polled counter of every path is no
        longer its progress plus what the ring holds from the head up to its index, which stays at the empty
        slot. */
    method EmptyRequestStalls(r: nat, req: Request)
      requires Valid() && !server && emitted < |wqes| < emitted + |table| && |table| > 1 && r > 0
      requires NoneEmpty(wqes, emitted) && wqes[emitted] == 0
      modifies this`pkt, this`head, this`emitted, this`next, this`table, this`rwr, this`wqes, this`reqs
      ensures Valid() && head < |table| && |pkt| == |compTemp| == |wqeIdx| == n
      ensures forall t :: 0 <= t < n ==> wqeIdx[t] == Slot(head + |table| - 1, |table|)
      ensures forall t :: 0 <= t < n ==> pkt[t] < compTemp[t] + RingSum(table, t, head, |table| - 1)
    {
      hide Slot, Sum, Holds, Kept, Before, AllCounted, AllTracked, NoneEmpty, InRing, RingSum, Finished;
      ghost var e := emitted;
      forall t: nat | t < n
        ensures wqeIdx[t] == Slot(e, |table|) && Before(wqes, e) + compTemp[t] == done[t] && Finished(e)
      {
        WaitingAtEmpty(t);
      }
      WaitingAtEmpty(0);
      var reported := OuterPoll();
      BeforeAppend(wqes, r, e);
      LastSlot(e, |table|);
      StoreWr(r, req);
      RingShape();
      forall t: nat | t < n ensures pkt[t] < compTemp[t] + RingSum(table, t, head, |table| - 1) {
        StalledBehind(t);
      }
    }

    // --- posting with waits ---

    lemma Bounds()
      requires Valid()
      ensures n > 0 && |qlen| == |posted| == n && totPolled <= totPosted <= totPolled + window
      ensures Sum(qlen) == totPosted - totPolled
    {
      QueuesInWindow(0);
    }

    /** The wait of the posting loops: it polls until there is room in the window. It gives up only for lack
        of offers; if every queue with something outstanding reports, n polls are enough. */
    method Wait(offers: seq<bool>) returns (ok: bool, used: nat)
      requires Valid()
      modifies this`pkt, this`compTemp, this`wqeIdx, this`qlen, this`totPolled, this`pollTurn, this`done, this`at
      ensures Valid() && used <= |offers| && (ok <==> totPosted < totPolled + window)
      ensures !ok ==> used == |offers| && totPosted == totPolled + window
      ensures AllTrue(offers) && |offers| >= n && window > 0 ==> ok && used <= n
    {
      hide Sum, Before, Holds, Kept, Counting, Tracking, NoneEmpty, CopiesAt, Progress, Drained, AllTrue;
      used := 0;
      Bounds();
      ghost var turn := pollTurn % n;
      ghost var lively := AllTrue(offers) && |offers| >= n && window > 0;
      MprudSplit.NextTurn(turn, n, 0);
      NoneDrained(qlen, n, turn);
      while totPosted - totPolled >= window
        invariant Valid() && used <= |offers| && totPosted <= totPolled + window && |qlen| == n > turn
        invariant lively && totPosted == totPolled + window ==>
          InLap(turn, used)
        invariant lively ==> used <= n
        decreases |offers| - used
      {
        if used == |offers| {
          return false, used;
        }
        PollOnce(offers[used], turn, used);
        if lively { AllTrueAt(offers, used); }
        used := used + 1;
        Bounds();
      }
      ok := true;
    }

    /** `mprud_post_send` or `mprud_post_recv` of a request of r pieces per path, with its waits, seen on the
        counters. All earlier requests have been posted and there is room in the window; then every piece finds
        room, in every state on the way the window is kept, and at the end this one is posted as well and there
        is room again. The loop can stop early only in a wait, with the window full, and does not if every queue
        with something outstanding reports when it is polled. */
    method PostRequest(r: nat, req: Request, turn0: nat, offers: seq<bool>)
      returns (ok: bool, used: nat, turn: nat)
      requires Valid() && |wqes| < emitted + |table| && (server ==> r > 0)
      requires AllAt(posted, n, Before(wqes, |wqes|)) && totPosted < totPolled + window
      modifies this
      ensures Valid() && wqes == old(wqes) + [r] && reqs == old(reqs) + [req] && emitted == old(emitted)
      ensures ok ==> AllAt(posted, n, Before(wqes, |wqes|)) && totPosted < totPolled + window && turn == turn0 % n
      ensures !ok ==> used == |offers| && totPosted == totPolled + window
      ensures AllTrue(offers) && |offers| >= n * (r * n) ==> ok
    {
      hide Sum, Before, Holds, Kept, Counting, Tracking, NoneEmpty, AllTrue, InTurn, AllAt;
      hide MprudSplit.Turn, MprudSplit.Index;
      Bounds();
      RequestStart(wqes, r, turn0, turn0 % n);
      StoreWr(r, req);
      ok, used, turn := PostPieces(r, turn0 % n, offers, Before(old(wqes), |old(wqes)|));
    }

    /** The loop over the pieces. */
    method PostPieces(r: nat, turn0: nat, offers: seq<bool>, ghost whole: nat)
      returns (ok: bool, used: nat, turn: nat)
      requires Valid() && totPosted < totPolled + window && turn0 < n && InTurn(posted, n, turn0, whole, 0)
      requires whole + r == Before(wqes, |wqes|)
      modifies this`qlen, this`totPosted, this`posted
      modifies this`pkt, this`compTemp, this`wqeIdx, this`totPolled, this`pollTurn, this`done, this`at
      ensures Valid()
      ensures ok ==> AllAt(posted, n, whole + r) && totPosted < totPolled + window && turn == turn0
      ensures !ok ==> used == |offers| && totPosted == totPolled + window
      ensures AllTrue(offers) && |offers| >= Polls(n, r * n) ==> ok
    {
      hide Sum, Before, Holds, Kept, Counting, Tracking, NoneEmpty, AllTrue, InTurn, AllAt;
      hide MprudSplit.Turn, MprudSplit.Index, Polls, MprudSplit.Behind;
      turn, used, ok := turn0, 0, true;
      LoopStart(turn0);
      ghost var rounds, s := 0, 0;
      var i := 0;
      var iter := r * n;
      while i < iter
        invariant Valid() && totPosted < totPolled + window && used <= |offers| && ok
        invariant i == MprudSplit.Index(rounds, n, s) && s < n && (if s == 0 then rounds <= r else rounds < r)
        invariant turn == MprudSplit.Turn(turn0, n, s) < n && InTurn(posted, n, turn0, whole + rounds, s)
        invariant AllTrue(offers) && |offers| >= Polls(n, iter) ==> used <= Polls(n, i)
        decreases iter - i
      {
        MprudSplit.InRange(i, n, rounds, s, r);
        MprudSplit.NextTurn(turn0, n, s);
        if AllTrue(offers) && |offers| >= Polls(n, iter) {
          Enough(n, i, iter, used, |offers|);
          AllTrueRest(offers, used);
        }
        var more;
        ok, more := PostAndWait(turn, offers[used..], turn0, whole + rounds, s);
        used := used + more;
        if !ok {
          return;
        }
        turn := (turn + 1) % n;
        i := i + 1;
        s := s + 1;
        if s == n { rounds, s := rounds + 1, 0; }
      }
      MprudSplit.AllRounds(i, n, rounds, s, r);
      MprudSplit.NextTurn(turn0, n, 0);
      InTurnWhole(posted, n, turn0, whole + r);
    }

    /** The loop body. */
    method PostAndWait(t: nat, offers: seq<bool>, ghost turn: nat, ghost whole: nat, ghost s: nat)
      returns (ok: bool, used: nat)
      requires Valid() && totPosted < totPolled + window && whole < Before(wqes, |wqes|)
      requires turn < n && s < n && t < n && MprudSplit.Behind(t, turn, n) == s && InTurn(posted, n, turn, whole, s)
      modifies this`qlen, this`totPosted, this`posted
      modifies this`pkt, this`compTemp, this`wqeIdx, this`totPolled, this`pollTurn, this`done, this`at
      ensures Valid() && used <= |offers| && (ok <==> totPosted < totPolled + window)
      ensures !ok ==> used == |offers| && totPosted == totPolled + window
      ensures AllTrue(offers) && |offers| >= n ==> ok && used <= n
      ensures if s + 1 == n then InTurn(posted, n, turn, whole + 1, 0) else InTurn(posted, n, turn, whole, s + 1)
    {
      hide Sum, Before, Holds, Kept, Counting, Tracking, NoneEmpty, AllTrue, InTurn, MprudSplit.Behind;
      Bounds();
      InTurnStep(posted, n, turn, whole, s, t);
      PostPiece(t);
      ok, used := Wait(offers);
    }

    lemma LoopStart(turn0: nat)
      requires turn0 < n
      ensures MprudSplit.Index(0, n, 0) == 0 && MprudSplit.Turn(turn0, n, 0) == turn0
    {
      MprudSplit.NextTurn(turn0, n, 0);
    }

    lemma RequestStart(was: seq<nat>, r: nat, turn0: nat, first: nat)
      requires n > 0 && first == turn0 % n && AllAt(posted, n, Before(was, |was|))
      ensures first < n && InTurn(posted, n, first, Before(was, |was|), 0)
      ensures Before(was + [r], |was| + 1) == Before(was, |was|) + r
    {
      MprudSplit.NextTurn(first, n, 0);
      InTurnWhole(posted, n, first, Before(was, |was|));
      BeforeAppend(was, r, |was|);
    }

    /** One poll of a wait: if the queue of the path whose turn it is would report and nothing is polled, that
        queue is empty. */
    method PollOnce(offer: bool, ghost turn: nat, ghost k: nat)
      requires Valid() && totPosted == totPolled + window && turn < n
      modifies this`pkt, this`compTemp, this`wqeIdx, this`qlen, this`totPolled, this`pollTurn, this`done, this`at
      ensures Valid() && totPolled <= old(totPolled) + 1 && old(totPolled) <= totPolled
      ensures offer && window > 0 && old(InLap(turn, k)) && totPolled == old(totPolled) ==> InLap(turn, k + 1)
    {
      hide Sum, Before, Holds, Kept, Counting, Tracking, NoneEmpty, CopiesAt, Progress, Drained, MprudSplit.Turn;
      Bounds();
      TurnAgain(pollTurn, n);
      var t, polled, copies := InnerPoll(offer && qlen[pollTurn % n] > 0);
      Bounds();
      if k < n {
        MprudSplit.NextTurn(turn, n, k);
        OneMoreDrained(qlen, n, turn, k);
      }
    }

    /** k polls after that of path `turn`, none of them with a result. */
    ghost predicate InLap(turn: nat, k: nat)
      reads this`qlen, this`pollTurn
    {
      turn < n && k < n && Drained(qlen, n, turn, k) && pollTurn % n == MprudSplit.Turn(turn, n, k)
    }
  }

  lemma AllTrueRest(offers: seq<bool>, k: nat)
    requires AllTrue(offers) && k <= |offers|
    ensures AllTrue(offers[k..])
  {
  }

  /** The polls that i pieces over n paths may need. */
  function Polls(n: nat, i: nat): nat { n * i }

  lemma Enough(n: nat, i: nat, iter: nat, used: nat, offers: nat)
    requires i < iter && used <= Polls(n, i) && Polls(n, iter) <= offers
    ensures used + n <= offers && used + n <= Polls(n, i + 1)
  {
    MulOrder(n, i + 1, iter);
    if n > 0 { Cancel(n, i, i); }
  }

  lemma TurnAgain(p: nat, n: nat)
    requires n > 0
    ensures p % n < n && (p + 1) % n == (p % n + 1) % n == ((p + 1) % n) % n
  {
    FloorMod(p, n);
    Cancel(n, p / n, p / n);
    var x := p % n;
    Quotient(x + 1, n, if x + 1 == n then 1 else 0);
    Quotient(p + 1, n, if x + 1 == n then p / n + 1 else p / n);
    Quotient((p + 1) % n, n, 0);
  }

  lemma AllTrueAt(offers: seq<bool>, i: nat)
    requires AllTrue(offers) && i < |offers|
    ensures offers[i]
  {
  }

  lemma NoneDrained(qlen: seq<nat>, n: nat, turn: nat)
    requires turn < n == |qlen|
    ensures Drained(qlen, n, turn, 0)
  {
  }

  lemma OneMoreDrained(qlen: seq<nat>, n: nat, turn: nat, k: nat)
    requires turn < n && k < n && |qlen| == n
    ensures var u := MprudSplit.Turn(turn, n, k);
      u < n && (Drained(qlen, n, turn, k) && qlen[u] == 0 ==>
        Drained(qlen, n, turn, k + 1) && (k + 1 == n ==> Sum(qlen) == 0))
  {
    MprudSplit.NextTurn(turn, n, k);
    var u := MprudSplit.Turn(turn, n, k);
    if Drained(qlen, n, turn, k) && qlen[u] == 0 {
      assert forall t :: 0 <= t < n && MprudSplit.Behind(t, turn, n) == k ==> t == u;
      assert Drained(qlen, n, turn, k + 1);
      if k + 1 == n { DrainedAll(qlen, n, turn); }
    }
  }
}
