/** How mprud.c cuts one message into pieces and spreads them over the active paths. */
module MprudSplit {
  import opened Arith

  /** One work request handed to an inner queue pair. */
  datatype Piece = Piece(path: nat, addr: int, len: nat)

  // ----- the geometry of a message -----------------------------------------------------

  /** Bytes per path; the last `size % n` bytes of a message belong to no path. */
  function Chunk(size: nat, n: nat): nat
    requires n > 0
  {
    size / n
  }

  /** Pieces per path. */
  function Rounds(chunk: nat, mtu: nat): nat
    requires mtu > 0
  {
    chunk / mtu + if chunk % mtu != 0 then 1 else 0
  }

  /** Length of the final piece of a path. */
  function LastLen(chunk: nat, mtu: nat): nat
    requires mtu > 0
  {
    if chunk % mtu != 0 then chunk % mtu else mtu
  }

  lemma Geometry(chunk: nat, mtu: nat)
    requires mtu > 0
    ensures var r, l := Rounds(chunk, mtu), LastLen(chunk, mtu);
      0 < l <= mtu && (r == 0 <==> chunk == 0) && (r > 0 ==> chunk == (r - 1) * mtu + l)
  {
    var q, m := chunk / mtu, chunk % mtu;
    assert chunk == q * mtu + m;
    if m == 0 && q > 0 {
      assert (q - 1) * mtu + mtu == q * mtu;
    }
  }

  /** The piece that path t sends in round j: pieces go from the upper end of the chunk downwards. */
  function SendPiece(addr: int, size: nat, n: nat, mtu: nat, t: nat, j: nat): Piece
    requires n > 0 && mtu > 0
  {
    var chunk := Chunk(size, n);
    var base := addr + chunk * (t + 1) - (j + 1) * mtu;
    if j + 1 == Rounds(chunk, mtu) then Piece(t, base + mtu - LastLen(chunk, mtu), LastLen(chunk, mtu))
    else Piece(t, base, mtu)
  }

  /** The buffer that path t posts for round j: room for a GRH in front of the payload; the final piece
      goes to the slot of the path in the side buffer. */
  function RecvPiece(addr: int, size: nat, n: nat, mtu: nat, grh: nat, sub: int, t: nat, j: nat): Piece
    requires n > 0 && mtu > 0
  {
    var chunk := Chunk(size, n);
    if j + 1 == Rounds(chunk, mtu) then Piece(t, sub + (mtu + grh) * t - grh, LastLen(chunk, mtu) + grh)
    else Piece(t, addr + chunk * (t + 1) + grh - (j + 1) * mtu - grh, mtu + grh)
  }

  /** What a posting function hands to path t in round j. */
  type Plan = (nat, nat) -> Piece

  ghost function SendPlan(addr: int, size: nat, n: nat, mtu: nat): Plan
    requires n > 0 && mtu > 0
  {
    (t: nat, j: nat) => SendPiece(addr, size, n, mtu, t, j)
  }

  ghost function RecvPlan(addr: int, size: nat, n: nat, mtu: nat, grh: nat, sub: int): Plan
    requires n > 0 && mtu > 0
  {
    (t: nat, j: nat) => RecvPiece(addr, size, n, mtu, grh, sub, t, j)
  }

  /** The first k pieces of path t. */
  ghost function Column(plan: Plan, t: nat, k: nat): (s: seq<Piece>)
    ensures |s| == k
  {
    seq(k, j requires 0 <= j < k => plan(t, j))
  }

  // ----- the posting loops -------------------------------------------------------------

  /** How many places path t is behind the path whose turn it was at the start. */
  function Behind(t: nat, turn: nat, n: nat): nat
    requires turn < n && t < n
  {
    if t >= turn then t - turn else t + n - turn
  }

  /** The loop counter after r whole rounds and s pieces. */
  function Index(r: nat, n: nat, s: nat): nat { r * n + s }

  /** Whose turn it is s pieces after turn. */
  function Turn(turn: nat, n: nat, s: nat): nat
    requires n > 0
  {
    (turn + s) % n
  }

  lemma NextTurn(turn: nat, n: nat, s: nat)
    requires turn < n && s < n
    ensures var u := Turn(turn, n, s);
      u < n && Behind(u, turn, n) == s && (u + 1) % n == Turn(turn, n, if s + 1 == n then 0 else s + 1)
    ensures Turn(turn, n, 0) == turn == turn % n
  {
    Quotient(turn, n, 0);
    Quotient(turn + s, n, if turn + s < n then 0 else 1);
    var u := (turn + s) % n;
    Quotient(u + 1, n, if u + 1 == n then 1 else 0);
    Quotient(turn + s + 1, n, if turn + s + 1 < n then 0 else if turn + s + 1 < 2 * n then 1 else 2);
  }

  /** The loop counter runs through whole rounds. */
  lemma InRange(i: nat, n: nat, r: nat, s: nat, rounds: nat)
    requires n > 0 && i == Index(r, n, s) && s < n && (if s == 0 then r <= rounds else r < rounds) && i < rounds * n
    ensures r < rounds && i + 1 == if s + 1 == n then Index(r + 1, n, 0) else Index(r, n, s + 1)
  {
    Cancel(n, r, rounds);
  }

  lemma AllRounds(i: nat, n: nat, r: nat, s: nat, rounds: nat)
    requires n > 0 && i == Index(r, n, s) && s < n && (if s == 0 then r <= rounds else r < rounds) && i >= rounds * n
    ensures r == rounds && s == 0
  {
    if r < rounds { LastRound(i, n, r, s, rounds); }
  }

  lemma RoundOf(i: nat, n: nat, r: nat, s: nat)
    requires n > 0 && i == r * n + s && s < n
    ensures i / n == r && i % n == s
  {
    Quotient(i, n, r);
  }

  lemma LastRound(i: nat, n: nat, r: nat, s: nat, rounds: nat)
    requires n > 0 && i == r * n + s && s < n && r < rounds
    ensures rounds * n - i <= n <==> r + 1 == rounds
    ensures i < rounds * n
  {
    Cancel(n, r, r);
    if r + 1 < rounds { MulOrder(n, r + 2, rounds); }
    Cancel(n, r + 1, r + 1);
  }

  /** After r whole rounds and s pieces more, every path has got its share of the plan. */
  ghost predicate Spread(q0: seq<seq<Piece>>, q: seq<seq<Piece>>, plan: Plan, n: nat, turn: nat, r: nat, s: nat) {
    |q| == |q0| >= n > turn &&
    (forall t :: 0 <= t < n ==> q[t] == q0[t] + Column(plan, t, r + if Behind(t, turn, n) < s then 1 else 0)) &&
    (forall t :: n <= t < |q| ==> q[t] == q0[t])
  }

  lemma SpreadOne(q0: seq<seq<Piece>>, q: seq<seq<Piece>>, plan: Plan, n: nat, turn: nat, r: nat, s: nat, u: nat)
    requires s < n && Spread(q0, q, plan, n, turn, r, s) && u < n && Behind(u, turn, n) == s
    ensures |q| == |q0| >= n
    ensures var q' := q[u := q[u] + [plan(u, r)]];
      if s + 1 == n then Spread(q0, q', plan, n, turn, r + 1, 0) else Spread(q0, q', plan, n, turn, r, s + 1)
  {
    var q' := q[u := q[u] + [plan(u, r)]];
    assert Column(plan, u, r + 1) == Column(plan, u, r) + [plan(u, r)];
    assert q'[u] == q0[u] + Column(plan, u, r + 1);
    assert forall t :: 0 <= t < n && t != u ==> Behind(t, turn, n) != s;
  }

  lemma SpreadDone(q0: seq<seq<Piece>>, q: seq<seq<Piece>>, plan: Plan, n: nat, turn: nat, r: nat)
    requires Spread(q0, q, plan, n, turn, r, 0)
    ensures |q| == |q0|
    ensures forall t :: 0 <= t < n ==> q[t] == q0[t] + Column(plan, t, r)
    ensures forall t :: n <= t < |q| ==> q[t] == q0[t]
  {
  }

  /** How a posting loop may end early: a recovery changes the number of active paths before a step, or in a
      step the inner queue pair refuses the piece or the wait for completions behind it fails. */
  datatype Stop = Never | Changed(step: nat) | Failed(step: nat)

  /** The loop of iter steps ends early. */
  predicate Stopped(stop: Stop, iter: nat) { !stop.Never? && stop.step < iter }

  /** How many pieces are handed over. */
  function Steps(stop: Stop, iter: nat): nat {
    match stop
    case Never => iter
    case Changed(i) => if i < iter then i else iter
    case Failed(i) => if i < iter then i + 1 else iter
  }

  /** Whose turn is next: path 0 after a recovery, and again the path that failed. */
  function TurnAfter(stop: Stop, iter: nat, turn: nat, n: nat): nat
    requires n > 0
  {
    if stop.Changed? && stop.step < iter then 0
    else if stop.Failed? && stop.step < iter then (turn + stop.step) % n
    else turn
  }

  /** The first k pieces have been handed over in turn. */
  ghost predicate Shared(q0: seq<seq<Piece>>, q: seq<seq<Piece>>, plan: Plan, n: nat, turn: nat, k: nat)
    requires n > 0
  {
    Spread(q0, q, plan, n, turn, k / n, k % n)
  }

  lemma FailedTurn(turn: nat, n: nat, i: nat, r: nat, s: nat)
    requires turn < n && s < n && i == Index(r, n, s)
    ensures (turn + i) % n == Turn(turn, n, s)
  {
    FloorMod(turn + s, n);
    Cancel(n, r, r);
    Quotient(turn + i, n, r + (turn + s) / n);
  }

  lemma SpreadSoFar(q0: seq<seq<Piece>>, q: seq<seq<Piece>>, plan: Plan, n: nat, turn: nat, r: nat, s: nat, i: nat,
                    rounds: nat)
    requires n > 0 && s < n && i == Index(r, n, s) && Spread(q0, q, plan, n, turn, r, s)
    ensures Shared(q0, q, plan, n, turn, i)
    ensures |q| == |q0| && forall t :: n <= t < |q| ==> q[t] == q0[t]
    ensures i == rounds * n ==> forall t :: 0 <= t < n ==> q[t] == q0[t] + Column(plan, t, rounds)
  {
    RoundOf(i, n, r, s);
    if i == rounds * n { Quotient(i, n, rounds); SpreadDone(q0, q, plan, n, turn, r); }
  }

  /** What a posting loop over `rounds` pieces per path has done when it ends. */
  ghost predicate Ended(q0: seq<seq<Piece>>, q: seq<seq<Piece>>, plan: Plan, n: nat, turn: nat, rounds: nat, stop: Stop,
                        ok: bool, postTurn: nat)
    requires n > 0
  {
    var iter := rounds * n;
    |q| == |q0| && (forall t :: n <= t < |q| ==> q[t] == q0[t]) &&
    ok == !(stop.Failed? && stop.step < iter) && postTurn == TurnAfter(stop, iter, turn, n) &&
    Shared(q0, q, plan, n, turn, Steps(stop, iter)) &&
    (Steps(stop, iter) == iter ==> n <= |q| && forall t :: 0 <= t < n ==> q[t] == q0[t] + Column(plan, t, rounds))
  }

  lemma EndedHere(q0: seq<seq<Piece>>, q: seq<seq<Piece>>, plan: Plan, n: nat, turn: nat, r: nat, s: nat, i: nat,
                  rounds: nat, stop: Stop, ok: bool, postTurn: nat)
    requires n > 0 && s < n && i == Index(r, n, s) && Spread(q0, q, plan, n, turn, r, s)
    requires i == Steps(stop, rounds * n) && ok == !(stop.Failed? && stop.step < rounds * n)
    requires postTurn == TurnAfter(stop, rounds * n, turn, n)
    ensures Ended(q0, q, plan, n, turn, rounds, stop, ok, postTurn)
  {
    SpreadSoFar(q0, q, plan, n, turn, r, s, i, rounds);
  }

  /** The address and length computations of the two loop bodies. */
  lemma SendStep(addr: int, size: nat, n: nat, mtu: nat, i: nat, r: nat, s: nat, rounds: nat, t: nat)
    requires mtu > 0 && n > 0 && i == Index(r, n, s) && s < n && r < rounds == Rounds(Chunk(size, n), mtu)
    ensures var chunk := size / n;
      SendPiece(addr, size, n, mtu, t, r) ==
        var a := addr + chunk * (t + 1) - (i / n + 1) * mtu;
        if rounds * n - i <= n then Piece(t, a + mtu - LastLen(chunk, mtu), LastLen(chunk, mtu)) else Piece(t, a, mtu)
  {
    RoundOf(i, n, r, s);
    LastRound(i, n, r, s, rounds);
  }

  lemma RecvStep(addr: int, size: nat, n: nat, mtu: nat, grh: nat, sub: int, i: nat, r: nat, s: nat, rounds: nat,
                 t: nat)
    requires mtu > 0 && n > 0 && i == Index(r, n, s) && s < n && r < rounds == Rounds(Chunk(size, n), mtu)
    ensures var chunk := size / n;
      RecvPiece(addr, size, n, mtu, grh, sub, t, r) ==
        var a := addr + chunk * (t + 1) + grh - (i / n + 1) * mtu;
        if rounds * n - i <= n then Piece(t, sub + (mtu + grh) * t - grh, LastLen(chunk, mtu) + grh)
        else Piece(t, a - grh, mtu + grh)
  {
    RoundOf(i, n, r, s);
    LastRound(i, n, r, s, rounds);
  }

  /** The splitting half of `mpctx`: whose turn it is, and what has been posted on each path. */
  class Splitter {
    const mtu: nat
    const grh: nat
    const sub: int      // the side buffer for final pieces
    var postTurn: nat
    var queues: seq<seq<Piece>>

    constructor (mtu: nat, grh: nat, sub: int, paths: nat)
      ensures this.mtu == mtu && this.grh == grh && this.sub == sub && postTurn == 0
      ensures |queues| == paths && forall t :: 0 <= t < paths ==> queues[t] == []
    {
      this.mtu, this.grh, this.sub, postTurn := mtu, grh, sub, 0;
      queues := seq(paths, _ => []);
    }

    /** The arithmetic at the head of both posting functions: iterEach pieces, all of MTU size but the
        final one, which is never empty, make up exactly the chunk of a path. */
    method CutMessage(size: nat, n: nat) returns (iterEach: nat, last: nat)
      requires mtu > 0 && n > 0
      ensures 0 < last <= mtu && (iterEach == 0 <==> size < n)
      ensures iterEach > 0 ==> n * ((iterEach - 1) * mtu + last) <= size < n * ((iterEach - 1) * mtu + last) + n
      ensures iterEach == Rounds(Chunk(size, n), mtu) && last == LastLen(Chunk(size, n), mtu)
    {
      Geometry(size / n, mtu);
      FloorMod(size, n);
      Cancel(n, 0, size / n);
      var chunk := size / n;
      iterEach := chunk / mtu;
      last := chunk % mtu;
      if last != 0 {
        iterEach := iterEach + 1;
      } else {
        last := mtu;
      }
    }

    /** `mprud_post_send` on n active paths. */
    method PostSend(addr: int, size: nat, n: nat, stop: Stop) returns (ok: bool)
      requires mtu > 0 && 0 < n <= |queues|
      modifies this
      ensures var rounds, plan := Rounds(Chunk(size, n), mtu), SendPlan(addr, size, n, mtu);
        Ended(old(queues), queues, plan, n, old(postTurn) % n, rounds, stop, ok, postTurn)
      ensures var iter, plan := Rounds(Chunk(size, n), mtu) * n, SendPlan(addr, size, n, mtu);
        Shared(old(queues), queues, plan, n, old(postTurn) % n,
               if !Stopped(stop, iter) then iter else if stop.Changed? then stop.step else stop.step + 1)
      ensures var iter := Rounds(Chunk(size, n), mtu) * n;
        if !Stopped(stop, iter) then postTurn == old(postTurn) % n
        else if stop.Changed? then postTurn == 0
        else postTurn == (old(postTurn) % n + stop.step) % n
    {
      postTurn := postTurn % n;
      var rounds, last := CutMessage(size, n);
      NextTurn(postTurn, n, 0);
      hide Ended, Spread, Rounds, LastLen, Chunk, SendPlan, RecvPlan;
      ok := SendAll(addr, size, n, rounds, last, stop);
    }

    /** The loop of `mprud_post_send`. */
    method SendAll(addr: int, size: nat, n: nat, rounds: nat, last: nat, stop: Stop) returns (ok: bool)
      requires mtu > 0 && 0 < n <= |queues| && postTurn < n
      requires rounds == Rounds(Chunk(size, n), mtu) && last == LastLen(Chunk(size, n), mtu)
      modifies this
      ensures Ended(old(queues), queues, SendPlan(addr, size, n, mtu), n, old(postTurn), rounds, stop, ok, postTurn)
    {
      var iter := rounds * n;
      ghost var turn, r, s, plan := postTurn, 0, 0, SendPlan(addr, size, n, mtu);
      NextTurn(turn, n, 0);
      assert Spread(queues, queues, plan, n, turn, 0, 0);
      assert Index(0, n, 0) == 0 && Turn(turn, n, 0) == turn;
      hide Ended, Spread, SendPlan, Rounds, LastLen, Chunk, Index, Turn, Behind, Column;
      var i := 0;
      while i < iter
        invariant i == Index(r, n, s) && s < n && (if s == 0 then r <= rounds else r < rounds)
        invariant postTurn == Turn(turn, n, s) < n
        invariant Spread(old(queues), queues, plan, n, turn, r, s)
        invariant !stop.Never? ==> i <= stop.step
        decreases iter - i
      {
        if stop == Changed(i) {
          EndedHere(old(queues), queues, plan, n, turn, r, s, i, rounds, stop, true, 0);
          postTurn := 0;
          return true;
        }
        InRange(i, n, r, s, rounds);
        NextTurn(turn, n, s);
        FailedTurn(turn, n, i, r, s);
        SpreadOne(old(queues), queues, plan, n, turn, r, s, postTurn);
        PostSendPiece(addr, size, n, i, iter, last, r, s);
        s := s + 1;
        if s == n { r, s := r + 1, 0; }
        if stop == Failed(i) {
          EndedHere(old(queues), queues, plan, n, turn, r, s, i + 1, rounds, stop, false, postTurn);
          return false;
        }
        postTurn := (postTurn + 1) % n;
        i := i + 1;
      }
      AllRounds(i, n, r, s, rounds);
      EndedHere(old(queues), queues, plan, n, turn, r, s, i, rounds, stop, true, turn);
      ok := true;
    }

    /** The body of the loop of `mprud_post_send`. */
    method PostSendPiece(addr: int, size: nat, n: nat, i: nat, iter: nat, last: nat, ghost r: nat, ghost s: nat)
      requires mtu > 0 && 0 < n <= |queues| && postTurn < n && i == Index(r, n, s) && s < n
      requires r < Rounds(Chunk(size, n), mtu) && iter == Rounds(Chunk(size, n), mtu) * n
      requires last == LastLen(Chunk(size, n), mtu)
      modifies this
      ensures var t := old(postTurn);
        queues == old(queues)[t := old(queues)[t] + [SendPlan(addr, size, n, mtu)(t, r)]] && postTurn == t
    {
      SendStep(addr, size, n, mtu, i, r, s, Rounds(Chunk(size, n), mtu), postTurn);
      hide SendPiece, Rounds, LastLen;
      var chunk := size / n;
      var a := addr + chunk * (postTurn + 1) - (i / n + 1) * mtu;
      var length := mtu;
      if iter - i <= n {
        length := last;
        a := a + mtu - length;
      }
      queues := queues[postTurn := queues[postTurn] + [Piece(postTurn, a, length)]];
    }

    /** `mprud_post_recv` on n active paths; on a datagram queue pair the posted length includes a GRH. */
    method PostRecv(addr: int, length: nat, datagram: bool, n: nat, stop: Stop) returns (ok: bool)
      requires mtu > 0 && 0 < n <= |queues| && (datagram ==> grh <= length)
      modifies this
      ensures var size := if datagram then length - grh else length;
        var rounds, plan := Rounds(Chunk(size, n), mtu), RecvPlan(addr, size, n, mtu, grh, sub);
        Ended(old(queues), queues, plan, n, old(postTurn) % n, rounds, stop, ok, postTurn)
      ensures var size := if datagram then length - grh else length;
        var iter, plan := Rounds(Chunk(size, n), mtu) * n, RecvPlan(addr, size, n, mtu, grh, sub);
        Shared(old(queues), queues, plan, n, old(postTurn) % n,
               if !Stopped(stop, iter) then iter else if stop.Changed? then stop.step else stop.step + 1)
      ensures var iter := Rounds(Chunk(if datagram then length - grh else length, n), mtu) * n;
        if !Stopped(stop, iter) then postTurn == old(postTurn) % n
        else if stop.Changed? then postTurn == 0
        else postTurn == (old(postTurn) % n + stop.step) % n
    {
      postTurn := postTurn % n;
      var size := length;
      if datagram {
        size := size - grh;
      }
      var rounds, last := CutMessage(size, n);
      NextTurn(postTurn, n, 0);
      hide Ended, Spread, Rounds, LastLen, Chunk, SendPlan, RecvPlan;
      ok := RecvAll(addr, size, n, rounds, last, stop);
    }

    /** The loop of `mprud_post_recv`. */
    method RecvAll(addr: int, size: nat, n: nat, rounds: nat, last: nat, stop: Stop) returns (ok: bool)
      requires mtu > 0 && 0 < n <= |queues| && postTurn < n
      requires rounds == Rounds(Chunk(size, n), mtu) && last == LastLen(Chunk(size, n), mtu)
      modifies this
      ensures var plan := RecvPlan(addr, size, n, mtu, grh, sub);
        Ended(old(queues), queues, plan, n, old(postTurn), rounds, stop, ok, postTurn)
    {
      var iter := rounds * n;
      ghost var turn, r, s, plan := postTurn, 0, 0, RecvPlan(addr, size, n, mtu, grh, sub);
      NextTurn(turn, n, 0);
      assert Spread(queues, queues, plan, n, turn, 0, 0);
      assert Index(0, n, 0) == 0 && Turn(turn, n, 0) == turn;
      hide Ended, Spread, RecvPlan, Rounds, LastLen, Chunk, Index, Turn, Behind, Column;
      var i := 0;
      while i < iter
        invariant i == Index(r, n, s) && s < n && (if s == 0 then r <= rounds else r < rounds)
        invariant postTurn == Turn(turn, n, s) < n
        invariant Spread(old(queues), queues, plan, n, turn, r, s)
        invariant !stop.Never? ==> i <= stop.step
        decreases iter - i
      {
        if stop == Changed(i) {
          EndedHere(old(queues), queues, plan, n, turn, r, s, i, rounds, stop, true, 0);
          postTurn := 0;
          return true;
        }
        InRange(i, n, r, s, rounds);
        NextTurn(turn, n, s);
        FailedTurn(turn, n, i, r, s);
        SpreadOne(old(queues), queues, plan, n, turn, r, s, postTurn);
        PostRecvPiece(addr, size, n, i, iter, last, r, s);
        s := s + 1;
        if s == n { r, s := r + 1, 0; }
        if stop == Failed(i) {
          EndedHere(old(queues), queues, plan, n, turn, r, s, i + 1, rounds, stop, false, postTurn);
          return false;
        }
        postTurn := (postTurn + 1) % n;
        i := i + 1;
      }
      AllRounds(i, n, r, s, rounds);
      EndedHere(old(queues), queues, plan, n, turn, r, s, i, rounds, stop, true, turn);
      ok := true;
    }

    /** The body of the loop of `mprud_post_recv`. */
    method PostRecvPiece(addr: int, size: nat, n: nat, i: nat, iter: nat, last: nat, ghost r: nat, ghost s: nat)
      requires mtu > 0 && 0 < n <= |queues| && postTurn < n && i == Index(r, n, s) && s < n
      requires r < Rounds(Chunk(size, n), mtu) && iter == Rounds(Chunk(size, n), mtu) * n
      requires last == LastLen(Chunk(size, n), mtu)
      modifies this
      ensures var t := old(postTurn);
        queues == old(queues)[t := old(queues)[t] + [RecvPlan(addr, size, n, mtu, grh, sub)(t, r)]] && postTurn == t
    {
      RecvStep(addr, size, n, mtu, grh, sub, i, r, s, Rounds(Chunk(size, n), mtu), postTurn);
      hide RecvPiece, Rounds, LastLen;
      var chunk := size / n;
      var a := addr + chunk * (postTurn + 1) + grh - (i / n + 1) * mtu;
      var length := mtu;
      if iter - i <= n {
        length := last;
        a := sub + (mtu + grh) * postTurn;
      }
      a := a - grh;
      queues := queues[postTurn := queues[postTurn] + [Piece(postTurn, a, length + grh)]];
    }
  }

  lemma FirstOnly(q0: seq<seq<Piece>>, q: seq<seq<Piece>>, plan: Plan, n: nat)
    requires n > 0 && Shared(q0, q, plan, n, 0, 1)
    ensures |q| == |q0| >= n && q == q0[0 := q0[0] + [plan(0, 0)]]
  {
    Quotient(1, n, if n == 1 then 1 else 0);
    assert Column(plan, 0, 1) == [plan(0, 0)];
    forall t | 0 <= t < |q| ensures q[t] == q0[0 := q0[0] + [plan(0, 0)]][t] {
      if 0 < t < n { assert Column(plan, t, 0) == []; }
    }
  }

  /** A recovery reaches the two sides at any two steps of the message they are posting, whosever turn it is on
      each: both begin the next message on path 0 of the m paths that are left. */
  method StartOver(sender: Splitter, receiver: Splitter, n: nat, from: int, size: nat, i: nat, to: int, length: nat,
                   j: nat, m: nat, from': int, size': nat, to': int)
    returns (ghost sent: seq<seq<Piece>>, ghost posted: seq<seq<Piece>>)
    requires sender != receiver && sender.mtu > 0 && receiver.mtu > 0 && 0 < m <= n
    requires n <= |sender.queues| && n <= |receiver.queues| && m <= size'
    requires i < Rounds(Chunk(size, n), sender.mtu) * n && j < Rounds(Chunk(length, n), receiver.mtu) * n
    modifies sender, receiver
    ensures |sent| == old(|sender.queues|) && |posted| == old(|receiver.queues|)
    ensures sender.queues == sent[0 := sent[0] + [SendPiece(from', size', m, sender.mtu, 0, 0)]]
    ensures receiver.queues ==
      posted[0 := posted[0] + [RecvPiece(to', size', m, receiver.mtu, receiver.grh, receiver.sub, 0, 0)]]
  {
    hide Shared, Rounds, Chunk, SendPiece, RecvPiece;
    var _ := sender.PostSend(from, size, n, Changed(i));
    var _ := receiver.PostRecv(to, length, false, n, Changed(j));
    sent, posted := sender.queues, receiver.queues;
    Quotient(0, m, 0);
    SomePiece(size', m, sender.mtu);
    SomePiece(size', m, receiver.mtu);
    var _ := sender.PostSend(from', size', m, Failed(0));
    var _ := receiver.PostRecv(to', size', false, m, Failed(0));
    FirstOnly(sent, sender.queues, SendPlan(from', size', m, sender.mtu), m);
    FirstOnly(posted, receiver.queues, RecvPlan(to', size', m, receiver.mtu, receiver.grh, receiver.sub), m);
  }

  lemma SomePiece(size: nat, m: nat, mtu: nat)
    requires 0 < m <= size && mtu > 0
    ensures 0 < Rounds(Chunk(size, m), mtu) * m
  {
    FloorMod(size, m);
    Cancel(m, 0, size / m);
    Geometry(size / m, mtu);
    MulOrder(m, 1, Rounds(Chunk(size, m), mtu));
  }

  // ----- what the pieces of a message have in common -----------------------------------

  /** The pieces of a message cut [addr, addr + n * (size / n)) into disjoint parts: every byte is in
      exactly one of them, and none reaches outside. */
  lemma SendTiles(addr: int, size: nat, n: nat, mtu: nat, x: int)
    requires n > 0 && mtu > 0
    ensures var chunk := Chunk(size, n);
      (addr <= x < addr + n * chunk <==>
        exists t: nat, j: nat :: t < n && j < Rounds(chunk, mtu) && Holds(SendPiece(addr, size, n, mtu, t, j), x))
  {
    var chunk := Chunk(size, n);
    if addr <= x < addr + n * chunk {
      var t, j := PieceOf(addr, size, n, mtu, x);
    }
    forall t: nat, j: nat | t < n && j < Rounds(chunk, mtu) && Holds(SendPiece(addr, size, n, mtu, t, j), x)
      ensures addr <= x < addr + n * chunk
    {
      PieceInside(addr, size, n, mtu, t, j);
      MulOrder(chunk, t + 1, n); MulOrder(chunk, 0, t);
    }
  }

  predicate Holds(p: Piece, x: int) { p.addr <= x < p.addr + p.len }

  /** A piece lies in the chunk of its path, at its distance from the upper end. */
  lemma PieceInside(addr: int, size: nat, n: nat, mtu: nat, t: nat, j: nat)
    requires n > 0 && mtu > 0 && j < Rounds(Chunk(size, n), mtu)
    ensures var chunk, p := Chunk(size, n), SendPiece(addr, size, n, mtu, t, j);
      addr + chunk * t <= p.addr && 0 < p.len && p.addr + p.len == addr + chunk * (t + 1) - j * mtu &&
      (if j + 1 == Rounds(chunk, mtu) then p.addr == addr + chunk * t
       else p.addr == addr + chunk * (t + 1) - (j + 1) * mtu)
  {
    var chunk := Chunk(size, n);
    var rounds := Rounds(chunk, mtu);
    Geometry(chunk, mtu);
    if j + 1 < rounds { MulOrder(mtu, j + 1, rounds - 1); }
    Cancel(mtu, j, rounds - 1); Cancel(chunk, t, t);
  }

  lemma PieceOf(addr: int, size: nat, n: nat, mtu: nat, x: int) returns (t: nat, j: nat)
    requires n > 0 && mtu > 0 && addr <= x < addr + n * Chunk(size, n)
    ensures t < n && j < Rounds(Chunk(size, n), mtu) && Holds(SendPiece(addr, size, n, mtu, t, j), x)
  {
    hide Chunk, Rounds, SendPiece;
    var chunk := Chunk(size, n);
    assert chunk > 0;
    t := PathOf(x - addr, chunk, n);
    j := RoundAbove(chunk, mtu, chunk * (t + 1) - 1 - (x - addr));
    PieceInside(addr, size, n, mtu, t, j);
    Cancel(mtu, j, j); Cancel(chunk, t, t);
  }

  lemma PathOf(o: nat, chunk: nat, n: nat) returns (t: nat)
    requires chunk > 0 && o < n * chunk
    ensures t < n && chunk * t <= o < chunk * (t + 1)
  {
    t := o / chunk;
    FloorMod(o, chunk);
    Cancel(chunk, t, n); Cancel(chunk, t, t);
  }

  /** The piece that holds the byte with so many bytes of its chunk above it. */
  lemma RoundAbove(chunk: nat, mtu: nat, above: nat) returns (j: nat)
    requires mtu > 0 && above < chunk
    ensures j < Rounds(chunk, mtu) && mtu * j <= above < mtu * j + mtu
  {
    j := above / mtu;
    FloorMod(above, mtu);
    Geometry(chunk, mtu);
    Cancel(mtu, j, Rounds(chunk, mtu));
  }

  /** Path and round follow from any byte of a piece. */
  lemma PieceBrackets(addr: int, size: nat, n: nat, mtu: nat, t: nat, j: nat, x: int)
    requires n > 0 && mtu > 0 && j < Rounds(Chunk(size, n), mtu) && Holds(SendPiece(addr, size, n, mtu, t, j), x)
    ensures var chunk := Chunk(size, n);
      chunk > 0 && chunk * t <= x - addr < chunk * t + chunk &&
      mtu * j <= addr + chunk * t + chunk - 1 - x < mtu * j + mtu
  {
    PieceInside(addr, size, n, mtu, t, j);
    Geometry(Chunk(size, n), mtu);
    MulOrder(mtu, 0, j);
    assert SendPiece(addr, size, n, mtu, t, j).len <= mtu;
    hide SendPiece, Chunk, Rounds;
    Cancel(Chunk(size, n), t, t);
  }

  /** Two different pieces of a message share no byte. */
  lemma PiecesDisjoint(addr: int, size: nat, n: nat, mtu: nat, t: nat, j: nat, t': nat, j': nat, x: int)
    requires n > 0 && mtu > 0 && j < Rounds(Chunk(size, n), mtu) && j' < Rounds(Chunk(size, n), mtu)
    requires Holds(SendPiece(addr, size, n, mtu, t, j), x) && Holds(SendPiece(addr, size, n, mtu, t', j'), x)
    ensures t == t' && j == j'
  {
    hide SendPiece, Chunk, Rounds, Holds;
    var chunk := Chunk(size, n);
    PieceBrackets(addr, size, n, mtu, t, j, x); PieceBrackets(addr, size, n, mtu, t', j', x);
    Quotient(x - addr, chunk, t); Quotient(x - addr, chunk, t');
    var above := addr + chunk * t + chunk - 1 - x;
    Quotient(above, mtu, j); Quotient(above, mtu, j');
  }

  // ----- sender and receiver agree -----------------------------------------------------

  /** One message: where it lies at the sender and at the receiver. */
  datatype Message = Message(from: int, to: int, size: nat)

  /** Everything that posting a list of messages puts into the queue of path t, on either side. */
  ghost function SendQueue(msgs: seq<Message>, n: nat, mtu: nat, t: nat): seq<Piece>
    requires n > 0 && mtu > 0
  {
    if msgs == [] then [] else
      var m := msgs[|msgs| - 1];
      SendQueue(msgs[..|msgs| - 1], n, mtu, t) +
        Column(SendPlan(m.from, m.size, n, mtu), t, Rounds(Chunk(m.size, n), mtu))
  }

  ghost function RecvQueue(msgs: seq<Message>, n: nat, mtu: nat, grh: nat, sub: int, t: nat): seq<Piece>
    requires n > 0 && mtu > 0
  {
    if msgs == [] then [] else
      var m := msgs[|msgs| - 1];
      RecvQueue(msgs[..|msgs| - 1], n, mtu, grh, sub, t) +
        Column(RecvPlan(m.to, m.size, n, mtu, grh, sub), t, Rounds(Chunk(m.size, n), mtu))
  }

  /** The packet r was sent as piece j of message m on path t, and b is the buffer it falls into: the
      buffer has exactly room for a GRH and the payload, and the payload of every piece but the final one
      lands, behind the GRH, at the offset from which it was sent. */
  ghost predicate Fits(p: Piece, b: Piece, m: Message, n: nat, mtu: nat, grh: nat, t: nat, j: nat)
    requires n > 0 && mtu > 0
  {
    p.path == b.path == t && b.len == p.len + grh && j < Rounds(Chunk(m.size, n), mtu) &&
    p == SendPiece(m.from, m.size, n, mtu, t, j) &&
    (j + 1 < Rounds(Chunk(m.size, n), mtu) ==> b.addr - m.to == p.addr - m.from)
  }

  /** Whoever's turn it was when, the k-th packet on a path meets the k-th buffer posted on that path, and
      both belong to the same piece of the same message. */
  lemma {:induction false} QueuesMatch(msgs: seq<Message>, n: nat, mtu: nat, grh: nat, sub: int, t: nat, k: nat)
    requires n > 0 && mtu > 0
    ensures var s, r := SendQueue(msgs, n, mtu, t), RecvQueue(msgs, n, mtu, grh, sub, t);
      |s| == |r| &&
      (k < |s| ==> exists i: nat, j: nat :: i < |msgs| && Fits(s[k], r[k], msgs[i], n, mtu, grh, t, j))
    decreases |msgs|
  {
    if msgs != [] {
      var l := |msgs| - 1;
      var m := msgs[l];
      QueuesMatch(msgs[..l], n, mtu, grh, sub, t, k);
      var s, r := SendQueue(msgs[..l], n, mtu, t), RecvQueue(msgs[..l], n, mtu, grh, sub, t);
      var s', r' := SendQueue(msgs, n, mtu, t), RecvQueue(msgs, n, mtu, grh, sub, t);
      if k < |s| {
        var i: nat, j: nat :| i < |msgs[..l]| && Fits(s[k], r[k], msgs[..l][i], n, mtu, grh, t, j);
        assert Fits(s'[k], r'[k], msgs[i], n, mtu, grh, t, j);
      } else if k < |s'| {
        assert Fits(s'[k], r'[k], msgs[l], n, mtu, grh, t, k - |s|);
      }
    }
  }
}
