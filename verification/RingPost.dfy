/** The flow control of `send_recv` in examples/intf.c: bursts of messages are posted into a ring of
    work requests whose slots come back as completions are polled. */
module RingPost {
  import opened Arith

  /** The queue pair and its completion queue: the slots in flight, oldest first. */
  class Queue {
    const slots: nat
    var flight: seq<nat>
    ghost var sent: seq<nat>      // every slot that was posted, in order

    constructor (slots: nat)
      ensures this.slots == slots && flight == [] && sent == []
    {
      this.slots, flight, sent := slots, [], [];
    }

    /** `qp_post` takes a burst of consecutive entries of the sg array: they exist, none of them is in
        flight, and the queue has room for them. */
    method Post(slot: nat, burst: nat)
      requires slot + burst <= slots && |flight| + burst <= slots
      requires forall i :: 0 <= i < |flight| ==> !(slot <= flight[i] < slot + burst)
      modifies this
      ensures flight == old(flight) + seq(burst, i => slot + i) && sent == old(sent) + seq(burst, i => slot + i)
    {
      flight := flight + seq(burst, i => slot + i);
      sent := sent + seq(burst, i => slot + i);
    }

    /** `qp_poll` returns an error, or up to burst completions, in order, of those the hardware offers. */
    method Poll(offer: int, burst: nat) returns (consumed: int)
      modifies this`flight
      ensures offer < 0 ==> consumed < 0 && flight == old(flight)
      ensures offer >= 0 ==> 0 <= consumed <= burst && consumed <= |old(flight)| && flight == old(flight)[consumed..]
      ensures offer > 0 && burst > 0 && old(flight) != [] ==> consumed > 0
    {
      if offer < 0 {
        return -1;
      }
      consumed := if offer < burst then offer else burst;
      if |flight| < consumed {
        consumed := |flight|;
      }
      flight := flight[consumed..];
    }
  }

  datatype Outcome = Done | Failed | StillPolling

  /** The slots of the messages done .. msg - 1. */
  ghost function InFlight(done: nat, msg: nat, slots: nat): (s: seq<nat>)
    requires done <= msg && slots > 0
    ensures |s| == msg - done
  {
    seq(msg - done, i requires 0 <= i < msg - done => (done + i) % slots)
  }

  /** A burst that starts at message msg stays inside the array and meets no slot in flight. */
  lemma BurstIsFree(done: nat, msg: nat, slots: nat, burst: nat)
    requires done <= msg && msg - done + burst <= slots && 0 < burst
    requires slots % burst == 0 && msg % burst == 0
    ensures var slot := msg % slots;
      slot + burst <= slots &&
      (forall i :: 0 <= i < msg - done ==> !(slot <= InFlight(done, msg, slots)[i] < slot + burst)) &&
      InFlight(done, msg, slots) + seq(burst, i => slot + i) == InFlight(done, msg + burst, slots)
  {
    var slot := msg % slots;
    BurstInside(msg, slots, burst);
    forall i | 0 <= i < msg - done ensures !(slot <= InFlight(done, msg, slots)[i] < slot + burst) {
      SlotsApart(done + i, msg, slots, burst);
    }
    Extended(done, msg, slots, burst);
  }

  lemma Extended(from: nat, msg: nat, slots: nat, burst: nat)
    requires from <= msg && slots > 0 && msg % slots + burst <= slots
    ensures InFlight(from, msg, slots) + seq(burst, i => msg % slots + i) == InFlight(from, msg + burst, slots)
  {
    FloorMod(msg, slots);
    var slot := msg % slots;
    var all, now := InFlight(from, msg + burst, slots), InFlight(from, msg, slots) + seq(burst, i => slot + i);
    forall i | 0 <= i < |all| ensures all[i] == now[i] {
      if i >= msg - from { Quotient(from + i, slots, msg / slots); }
    }
  }

  lemma BurstInside(msg: nat, slots: nat, burst: nat)
    requires burst > 0 && slots > 0 && slots % burst == 0 && msg % burst == 0
    ensures msg % slots + burst <= slots
  {
    FloorMod(msg, slots); FloorMod(msg, burst); FloorMod(slots, burst);
    var a, b, q := msg / burst, slots / burst, msg / slots;
    assert msg % slots == burst * (a - b * q) by {
      assert slots * q == burst * (b * q);
      assert burst * a - burst * (b * q) == burst * (a - b * q);
    }
    Cancel(burst, a - b * q, b);
    MulOrder(burst, a - b * q + 1, b);
  }

  /** Two messages less than a ring apart have different slots. */
  lemma SlotsApart(a: nat, msg: nat, slots: nat, burst: nat)
    requires a < msg && msg - a + burst <= slots && msg % slots + burst <= slots
    ensures !(msg % slots <= a % slots < msg % slots + burst)
  {
    FloorMod(msg, slots); FloorMod(a, slots);
    var p, q := a / slots, msg / slots;
    Cancel(slots, p, q); Cancel(slots, p + 1, q); Cancel(slots, q, p);
  }

  /** How many of the offers bring completions. */
  ghost function Fruitful(offers: seq<int>): (c: nat)
    ensures c <= |offers|
  {
    if offers == [] then 0
    else Fruitful(offers[..|offers| - 1]) + if offers[|offers| - 1] > 0 then 1 else 0
  }

  lemma {:induction false} FruitfulPrefix(offers: seq<int>, k: nat)
    requires k <= |offers|
    ensures Fruitful(offers[..k]) <= Fruitful(offers)
    decreases |offers|
  {
    if k == |offers| {
      assert offers[..k] == offers;
    } else {
      var w := offers[..|offers| - 1];
      FruitfulPrefix(w, k);
      assert w[..k] == offers[..k];
    }
  }

  lemma FruitfulNone(offers: seq<int>)
    ensures Fruitful(offers[..0]) == 0 && Fruitful(offers[..|offers|]) == Fruitful(offers)
  {
    assert offers[..|offers|] == offers;
  }

  lemma FruitfulNext(offers: seq<int>, k: nat)
    requires k < |offers|
    ensures Fruitful(offers[..k + 1]) == Fruitful(offers[..k]) + if offers[k] > 0 then 1 else 0
  {
    assert offers[..k + 1][..k] == offers[..k];
  }

  /** `send_recv`, driven by what each poll offers; `used` counts the polls. It keeps to the ring in every run;
      a run that finishes has posted the messages rounded up to whole bursts; it fails exactly at the first
      poll that does; and if no poll fails, it finishes as soon as enough of them bring completions, however
      many bring none, exactly if there is at least one burst of messages to post. */
  method SendRecv(qp: Queue, numMsgs: nat, burst: nat, offers: seq<int>) returns (outcome: Outcome, used: nat)
    requires qp.flight == [] && qp.sent == [] && 0 < burst <= qp.slots && qp.slots % burst == 0
    modifies qp
    ensures forall i :: 0 <= i < |qp.sent| ==> qp.sent[i] == i % qp.slots
    ensures outcome == Done ==> |qp.sent| % burst == 0 && numMsgs <= |qp.sent| < numMsgs + burst
    ensures 0 < numMsgs < burst ==> outcome != Done && qp.sent == []
    ensures used <= |offers| && (numMsgs > 0 && outcome == Done ==> used > 0)
    ensures outcome == Failed ==> used > 0 && offers[used - 1] < 0
    ensures outcome == StillPolling ==> used == |offers|
    ensures forall i :: 0 <= i < (if outcome == Failed then used - 1 else used) ==> offers[i] >= 0
    ensures 0 < numMsgs <= qp.slots && numMsgs % burst == 0 && |offers| > 0 && offers[0] >= 0 ==>
      outcome == Done && used == 1
    ensures (numMsgs == 0 || burst <= numMsgs) && Fruitful(offers) >= numMsgs + burst && outcome != Failed ==>
      outcome == Done
  {
    hide InRing, Fruitful;
    var msg, polls := 0, 0;
    var freeWrs := if qp.slots < numMsgs then qp.slots else numMsgs;
    ghost var done, room := 0, freeWrs;
    Nothing(qp, burst);
    FruitfulNone(offers);
    outcome := Done;
    while msg < numMsgs
      invariant 0 <= polls <= |offers| && InRing(qp, done, msg, burst)
      invariant 0 <= freeWrs && freeWrs + (msg - done) == room && done <= msg == |qp.sent|
      invariant msg < numMsgs + burst && (room < burst ==> msg == 0)
      invariant msg + freeWrs <= numMsgs || freeWrs < 2 * burst
      invariant polls == 0 ==> msg == 0
      invariant forall i :: 0 <= i < polls ==> offers[i] >= 0
      invariant burst <= room ==> Fruitful(offers[..polls]) <= done
      invariant msg > 0 ==> polls > 0
      invariant 0 < numMsgs <= qp.slots && numMsgs % burst == 0 && polls > 0 ==> polls == 1 && numMsgs <= msg
      decreases |offers| - polls
    {
      msg, freeWrs := FillUp(qp, numMsgs, burst, msg, freeWrs, done);
      WholeBursts(qp, done, msg, burst);
      if msg + freeWrs == numMsgs { Remainder(numMsgs, msg, freeWrs, burst); }
      outcome, polls, freeWrs, done := MakeRoom(qp, numMsgs, burst, offers, polls, freeWrs, done, msg);
      if outcome != Done {
        AllSent(qp, done, msg, burst);
        return outcome, polls;
      }
    }
    WholeBursts(qp, done, msg, burst);
    AllSent(qp, done, msg, burst);
    return Done, polls;
  }

  /** The posting loop: bursts as long as there is room. */
  method FillUp(qp: Queue, numMsgs: nat, burst: nat, msg0: nat, free0: nat, ghost done: nat)
    returns (msg: nat, freeWrs: nat)
    requires 0 < burst && InRing(qp, done, msg0, burst) && |qp.sent| == msg0 < numMsgs
    requires done <= msg0 && free0 + (msg0 - done) <= qp.slots
    requires msg0 + free0 <= numMsgs || free0 < 2 * burst
    modifies qp
    ensures InRing(qp, done, msg, burst) && |qp.sent| == msg && msg0 <= msg < numMsgs + burst
    ensures freeWrs < burst && msg + freeWrs == msg0 + free0 && (free0 < burst ==> msg == msg0)
  {
    hide InRing;
    msg, freeWrs := msg0, free0;
    while freeWrs >= burst
      invariant InRing(qp, done, msg, burst) && |qp.sent| == msg
      invariant msg0 <= msg < numMsgs + burst && msg + freeWrs == msg0 + free0
      invariant freeWrs < burst || msg + freeWrs <= numMsgs || (msg == msg0 && freeWrs < 2 * burst)
      invariant free0 < burst ==> msg == msg0
    {
      PostBurst(qp, msg, burst, done);
      msg := msg + burst;
      freeWrs := freeWrs - burst;
    }
  }

  /** The polling loop: at least once, and until there is room for a burst or nothing is left to post. */
  method MakeRoom(qp: Queue, numMsgs: nat, burst: nat, offers: seq<int>, from: nat, free0: nat, ghost done0: nat,
                  msg: nat)
    returns (outcome: Outcome, polls: nat, freeWrs: nat, ghost done: nat)
    requires from <= |offers| && InRing(qp, done0, msg, burst) && free0 < burst && done0 <= msg
    modifies qp`flight
    ensures from <= polls <= |offers| && done0 <= done <= msg && freeWrs == free0 + (done - done0) < 2 * burst
    ensures InRing(qp, done, msg, burst)
    ensures outcome == Done ==> from < polls && (burst <= freeWrs || numMsgs <= msg)
    ensures outcome == Failed ==> from < polls && offers[polls - 1] < 0
    ensures outcome == StillPolling ==> polls == |offers| && freeWrs < burst
    ensures forall i :: from <= i < (if outcome == Failed then polls - 1 else polls) ==> offers[i] >= 0
    ensures numMsgs <= msg ==> polls == if outcome == StillPolling then from else from + 1
    ensures burst <= free0 + (msg - done0) && outcome != Failed ==>
      Fruitful(offers[..polls]) - Fruitful(offers[..from]) <= done - done0
  {
    hide InRing, Fruitful;
    polls, freeWrs, done := from, free0, done0;
    var again := true;
    while again
      invariant from <= polls <= |offers| && done0 <= done <= msg && InRing(qp, done, msg, burst)
      invariant freeWrs == free0 + (done - done0) < 2 * burst && (again ==> freeWrs < burst)
      invariant numMsgs <= msg ==> polls == if again then from else from + 1
      invariant again || (from < polls && (burst <= freeWrs || numMsgs <= msg))
      invariant forall i :: from <= i < polls ==> offers[i] >= 0
      invariant burst <= free0 + (msg - done0) ==>
        Fruitful(offers[..polls]) - Fruitful(offers[..from]) <= done - done0
      decreases |offers| - polls, again
    {
      if polls == |offers| {
        return StillPolling, polls, freeWrs, done;
      }
      FruitfulNext(offers, polls);
      var consumed := PollOnce(qp, offers[polls], burst, done, msg);
      polls := polls + 1;
      if consumed > 0 {
        freeWrs := freeWrs + consumed;
        done := done + consumed;
      } else if consumed < 0 {
        return Failed, polls, freeWrs, done;
      }
      again := freeWrs < burst && msg < numMsgs;
    }
    outcome := Done;
  }

  /** The messages done .. msg - 1 are in flight, and only whole bursts have been posted. */
  ghost predicate InRing(qp: Queue, done: nat, msg: nat, burst: nat)
    reads qp
  {
    0 < burst <= qp.slots && qp.slots % burst == 0 && done <= msg && msg % burst == 0 &&
    qp.flight == InFlight(done, msg, qp.slots) && qp.sent == InFlight(0, msg, qp.slots)
  }

  method PostBurst(qp: Queue, msg: nat, burst: nat, ghost done: nat)
    requires InRing(qp, done, msg, burst) && msg - done + burst <= qp.slots
    modifies qp
    ensures InRing(qp, done, msg + burst, burst) && |qp.sent| == msg + burst
  {
    hide InFlight;
    BurstIsFree(done, msg, qp.slots, burst);
    Extended(0, msg, qp.slots, burst);
    NextMultiple(msg, burst);
    qp.Post(msg % qp.slots, burst);
  }

  method PollOnce(qp: Queue, offer: int, burst: nat, ghost done: nat, ghost msg: nat) returns (consumed: int)
    requires InRing(qp, done, msg, burst)
    modifies qp`flight
    ensures if consumed < 0 then offer < 0 && InRing(qp, done, msg, burst)
            else 0 <= offer && consumed <= burst && done + consumed <= msg && InRing(qp, done + consumed, msg, burst)
    ensures offer > 0 && done < msg ==> consumed > 0
  {
    consumed := qp.Poll(offer, burst);
    if consumed >= 0 { Returned(done, msg, qp.slots, consumed); }
  }

  lemma AllSent(qp: Queue, done: nat, msg: nat, burst: nat)
    requires InRing(qp, done, msg, burst)
    ensures |qp.sent| == msg && forall i :: 0 <= i < |qp.sent| ==> qp.sent[i] == i % qp.slots
  {
  }

  lemma WholeBursts(qp: Queue, done: nat, msg: nat, burst: nat)
    requires InRing(qp, done, msg, burst)
    ensures msg % burst == 0
  {
  }

  lemma Nothing(qp: Queue, burst: nat)
    requires qp.flight == qp.sent == [] && 0 < burst <= qp.slots && qp.slots % burst == 0
    ensures InRing(qp, 0, 0, burst)
  {
    Quotient(0, burst, 0);
  }

  lemma Remainder(all: nat, msg: nat, rest: nat, burst: nat)
    requires 0 < burst && all == msg + rest && msg % burst == 0 && rest < burst
    ensures all % burst == rest
  {
    FloorMod(msg, burst);
    Quotient(all, burst, msg / burst);
  }

  lemma NextMultiple(msg: nat, burst: nat)
    requires burst > 0 && msg % burst == 0
    ensures (msg + burst) % burst == 0
  {
    FloorMod(msg, burst);
    Cancel(burst, msg / burst, msg / burst);
    Quotient(msg + burst, burst, msg / burst + 1);
  }

  lemma Returned(done: nat, msg: nat, slots: nat, c: nat)
    requires done <= msg && c <= msg - done && slots > 0
    ensures InFlight(done, msg, slots)[c..] == InFlight(done + c, msg, slots)
  {
  }
}
