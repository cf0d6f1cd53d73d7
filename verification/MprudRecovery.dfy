/** How mprud.c sends again what a failed path has not delivered: the work request is cut down to the
    region of the failed path, and that region is split over the remaining paths. */
module MprudRecovery {
  import opened Arith
  import opened MprudSplit

  datatype Request = Request(addr: int, length: nat)

  /** What has been reported about the failure: n paths were active, path `path` failed, and of request
      `loss` it had completed `completed` pieces. */
  datatype Report = Report(n: nat, path: nat, loss: nat, completed: nat)

  // ----- cutting a request down --------------------------------------------------------

  /** The bytes that are sent again when c of r pieces are done. */
  function Remaining(chunk: nat, r: nat, c: nat): (b: nat)
    requires c <= r && r > 0
    ensures b <= chunk
  {
    FloorMod(chunk, r);
    MulOrder(chunk / r, c, r); MulOrder(chunk / r, 0, c);
    chunk - chunk / r * c
  }

  /** The average piece is never longer than the MTU, and as long only if every piece is full. */
  lemma Average(chunk: nat, mtu: nat)
    requires mtu > 0 && chunk > 0
    ensures var r := Rounds(chunk, mtu); 0 < r && chunk / r <= mtu && (chunk / r == mtu <==> chunk % mtu == 0)
  {
    Geometry(chunk, mtu);
    var r := Rounds(chunk, mtu);
    FloorMod(chunk, r); FloorMod(chunk, mtu);
    Cancel(r, chunk / r, mtu); Cancel(r, mtu, chunk / r);
    assert (r - 1) * mtu + mtu == r * mtu;
    if chunk % mtu == 0 { Quotient(chunk, r, mtu); }
  }

  lemma RemainingBounds(chunk: nat, mtu: nat, c: nat)
    requires mtu > 0 && chunk > 0 && c <= Rounds(chunk, mtu)
    ensures var r := Rounds(chunk, mtu);
      0 < r && chunk - mtu * c <= Remaining(chunk, r, c) &&
      (chunk - mtu * c == Remaining(chunk, r, c) <==> c == 0 || chunk % mtu == 0)
  {
    Average(chunk, mtu);
    var r := Rounds(chunk, mtu);
    var avg := chunk / r;
    FloorMod(chunk, r);
    MulOrder(avg, c, r);
    MulOrder(c, avg, mtu);
    if c > 0 { Cancel(c, avg, mtu); }
  }

  /** The request as the recovery code rewrites it in the table. */
  function Cut(w: Request, rep: Report, idx: nat, r: nat): (v: Request)
    requires rep.n > 0 && (idx == rep.loss ==> rep.completed < r)
  {
    var chunk := w.length / rep.n;
    Request(w.addr + rep.path * chunk, if idx == rep.loss then Remaining(chunk, r, rep.completed) else chunk)
  }

  /** The region of the failed path in request w, number i of the table, which had r pieces per path: of the lost
      request what its completed pieces leave, of a later one the whole chunk. */
  ghost predicate IsRegion(report: Report, r: nat, w: Request, i: nat, region: Request) {
    report.n > 0 &&
    var chunk := w.length / report.n;
    region.addr == w.addr + report.path * chunk &&
    if i == report.loss then r > 0 && region.length == chunk - chunk / r * report.completed else region.length == chunk
  }

  // ----- posting it over the remaining paths -------------------------------------------

  /** All pieces of a plan over m paths in the order in which the loop takes them. */
  ghost function Schedule(plan: Plan, m: nat, turn: nat, rounds: nat): (s: seq<Piece>)
    requires m > 0
    ensures |s| == rounds * m
  {
    MulOrder(m, 0, rounds);
    seq(rounds * m, i requires 0 <= i < rounds * m => plan((turn + i) % m, i / m))
  }

  lemma ScheduleAt(plan: Plan, m: nat, turn: nat, rounds: nat, k: nat)
    requires m > 0 && k < rounds * m
    ensures (turn + k) % m < m && k / m < rounds && Schedule(plan, m, turn, rounds)[k] == plan((turn + k) % m, k / m)
  {
    ScheduleSlot(m, turn, k, rounds);
  }

  lemma ScheduleIndex(m: nat, turn: nat, t: nat, j: nat, rounds: nat) returns (i: nat)
    requires turn < m && t < m && j < rounds
    ensures i < rounds * m && (turn + i) % m == t && i / m == j
  {
    i := m * j + Behind(t, turn, m);
    Quotient(i, m, j);
    MulOrder(m, j + 1, rounds); Cancel(m, j, j);
    var q := if t >= turn then j else j + 1;
    assert turn + i == m * q + t;
    Quotient(turn + i, m, q);
  }

  lemma ScheduleSlot(m: nat, turn: nat, i: nat, rounds: nat)
    requires m > 0 && i < rounds * m
    ensures (turn + i) % m < m && i / m < rounds
  {
    FloorMod(i, m);
    Cancel(m, i / m, rounds);
  }

  /** Only one step of the loop takes piece j of path t. */
  lemma ScheduleOnce(m: nat, turn: nat, i: nat, i': nat)
    requires m > 0 && (turn + i) % m == (turn + i') % m && i / m == i' / m
    ensures i == i'
  {
    FloorMod(i, m); FloorMod(i', m); FloorMod(turn + i, m); FloorMod(turn + i', m);
    var a, b := (turn + i) / m, (turn + i') / m;
    assert m * a - m * b == i - i';
    Cancel(m, a, b + 1); Cancel(m, b, a + 1); Cancel(m, b, b); Cancel(m, a, a);
  }

  lemma TurnStep(turn: nat, m: nat, i: nat)
    requires m > 0
    ensures ((turn + i) % m + 1) % m == (turn + (i + 1)) % m
  {
    FloorMod(turn + i, m);
    var q, x := (turn + i) / m, (turn + i) % m;
    Cancel(m, q, q);
    Quotient(x + 1, m, if x + 1 == m then 1 else 0);
    Quotient(turn + (i + 1), m, if x + 1 == m then q + 1 else q);
  }

  function TurnAt(turn: nat, i: nat, m: nat): nat
    requires m > 0
  {
    (turn + i) % m
  }

  lemma WholeTurns(turn: nat, m: nat, rounds: nat)
    requires turn < m
    ensures TurnAt(turn, rounds * m, m) == turn == TurnAt(turn, 0, m)
  {
    Quotient(turn + rounds * m, m, rounds);
    Quotient(turn, m, 0);
  }

  ghost function SendSchedule(w: Request, m: nat, mtu: nat, turn: nat): seq<Piece>
    requires m > 0 && mtu > 0
  {
    Schedule(SendPlan(w.addr, w.length, m, mtu), m, turn, Rounds(Chunk(w.length, m), mtu))
  }

  lemma PieceAt(w: Request, m: nat, mtu: nat, turn: nat, k: nat) returns (t: nat, j: nat)
    requires m > 0 && mtu > 0 && k < |SendSchedule(w, m, mtu, turn)|
    ensures t == (turn + k) % m < m && j == k / m < Rounds(Chunk(w.length, m), mtu)
    ensures SendSchedule(w, m, mtu, turn)[k] == SendPiece(w.addr, w.length, m, mtu, t, j)
  {
    var rounds := Rounds(Chunk(w.length, m), mtu);
    hide Rounds, Chunk, SendPiece;
    ScheduleAt(SendPlan(w.addr, w.length, m, mtu), m, turn, rounds, k);
    t, j := (turn + k) % m, k / m;
  }

  lemma PieceSent(w: Request, m: nat, mtu: nat, turn: nat, k: nat, x: int)
    requires m > 0 && mtu > 0 && k < |SendSchedule(w, m, mtu, turn)| && Holds(SendSchedule(w, m, mtu, turn)[k], x)
    ensures w.addr <= x < w.addr + m * Chunk(w.length, m)
  {
    var t, j := PieceAt(w, m, mtu, turn, k);
    hide Schedule, SendSchedule, Rounds, Chunk, SendPiece;
    SendTiles(w.addr, w.length, m, mtu, x);
  }

  lemma PieceCarrying(w: Request, m: nat, mtu: nat, turn: nat, x: int) returns (k: nat)
    requires turn < m && mtu > 0 && w.addr <= x < w.addr + m * Chunk(w.length, m)
    ensures k < |SendSchedule(w, m, mtu, turn)| && Holds(SendSchedule(w, m, mtu, turn)[k], x)
  {
    var rounds := Rounds(Chunk(w.length, m), mtu);
    hide Schedule, Rounds, Chunk, SendPiece;
    var t, j := PieceOf(w.addr, w.length, m, mtu, x);
    k := ScheduleIndex(m, turn, t, j, rounds);
    ScheduleAt(SendPlan(w.addr, w.length, m, mtu), m, turn, rounds, k);
  }

  /** The pieces of a schedule carry exactly the bytes of the region but its last length mod m. */
  lemma ScheduleCarries(w: Request, m: nat, mtu: nat, turn: nat, x: int)
    requires turn < m && mtu > 0
    ensures Carried(SendSchedule(w, m, mtu, turn), 0, x) <==> w.addr <= x < w.addr + w.length - w.length % m
  {
    FloorMod(w.length, m);
    hide Schedule, SendSchedule;
    var s := SendSchedule(w, m, mtu, turn);
    if Carried(s, 0, x) {
      var k :| 0 <= k < |s| && Holds(s[k], x);
      PieceSent(w, m, mtu, turn, k, x);
    }
    if w.addr <= x < w.addr + m * Chunk(w.length, m) {
      var k := PieceCarrying(w, m, mtu, turn, x);
      assert Holds(s[k], x);
    }
  }

  /** Byte x is carried by a piece of the queue, from position `from` on. */
  ghost predicate Carried(queue: seq<Piece>, from: nat, x: int) {
    exists k :: from <= k < |queue| && Holds(queue[k], x)
  }

  /** Byte x has room, behind the GRH, in a buffer of the queue from position `from` up to `to`. */
  ghost predicate Roomy(queue: seq<Piece>, from: nat, to: int, grh: nat, x: int) {
    exists k :: from <= k < to && k < |queue| && InRoom(queue[k], grh, x)
  }

  ghost predicate InRoom(b: Piece, grh: nat, x: int) { b.addr + grh <= x < b.addr + b.len }

  /** From position `from` on, m paths take turns, r times each. */
  ghost predicate InTurns(queue: seq<Piece>, from: nat, m: nat, turn: nat, r: nat)
    requires m > 0
  {
    |queue| == from + r * m && forall k :: from <= k < |queue| ==> queue[k].path == (turn + (k - from)) % m
  }

  /** The buffers for a region of m chunks of c bytes: the final one of a path is its slot of the side buffer
      and takes the tail of 1 to mtu bytes, the lowest of its chunk; all others have room for exactly the
      bytes above the tails. */
  ghost predicate RegionBuffers(queue: seq<Piece>, from: nat, lo: int, c: nat, m: nat, turn: nat, r: nat, mtu: nat,
                                grh: nat, sub: int)
    requires m > 0
  {
    InTurns(queue, from, m, turn, r) && (r == 0 <==> c == 0) &&
    (r > 0 ==>
      var tail := c - (r - 1) * mtu;
      0 < tail <= mtu &&
      (forall k :: |queue| - m <= k < |queue| ==>
        queue[k].addr + grh == sub + (mtu + grh) * queue[k].path && queue[k].len == grh + tail) &&
      (forall k :: from <= k < |queue| - m ==> queue[k].len == grh + mtu) &&
      RoomFor(queue, from, |queue| - m, grh, lo + grh, c, m, tail))
  }

  ghost predicate RoomFor(queue: seq<Piece>, from: nat, to: int, grh: nat, lo: int, c: nat, m: nat, tail: int) {
    forall x :: Roomy(queue, from, to, grh, x) <==> AboveTail(lo, c, m, tail, x)
  }

  ghost predicate AboveTail(lo: int, c: nat, m: nat, tail: int, x: int) {
    exists t: nat :: t < m && InPart(lo, c, t, tail, x)
  }

  ghost predicate InPart(lo: int, c: nat, t: nat, tail: int, x: int) { lo + c * t + tail <= x < lo + c * (t + 1) }

  ghost function RecvSchedule(w: Request, m: nat, mtu: nat, grh: nat, sub: int, turn: nat): seq<Piece>
    requires m > 0 && mtu > 0
  {
    Schedule(RecvPlan(w.addr, w.length, m, mtu, grh, sub), m, turn, Rounds(Chunk(w.length, m), mtu))
  }

  lemma BufferAt(w: Request, m: nat, mtu: nat, grh: nat, sub: int, turn: nat, k: nat)
    requires m > 0 && mtu > 0 && k < |RecvSchedule(w, m, mtu, grh, sub, turn)|
    ensures (turn + k) % m < m && k / m < Rounds(Chunk(w.length, m), mtu)
    ensures RecvSchedule(w, m, mtu, grh, sub, turn)[k] ==
      RecvPiece(w.addr, w.length, m, mtu, grh, sub, (turn + k) % m, k / m)
  {
    ScheduleAt(RecvPlan(w.addr, w.length, m, mtu, grh, sub), m, turn, Rounds(Chunk(w.length, m), mtu), k);
  }

  /** Index k is in the last round exactly if it is among the last m. */
  lemma LastOnes(k: nat, m: nat, r: nat)
    requires m > 0 && k < r * m
    ensures k / m + 1 == r <==> r * m - m <= k
    ensures k / m < r
  {
    FloorMod(k, m);
    Cancel(m, k / m, r); Cancel(m, k / m + 1, r); Cancel(m, r - 1, k / m + 1); Cancel(m, k / m, r - 1);
  }

  lemma BufferRoom(w: Request, m: nat, mtu: nat, grh: nat, sub: int, t: nat, j: nat, x: int)
    requires m > 0 && mtu > 0 && t < m && j + 1 < Rounds(Chunk(w.length, m), mtu)
    ensures InRoom(RecvPiece(w.addr, w.length, m, mtu, grh, sub, t, j), grh, x) <==>
      Holds(SendPiece(w.addr, w.length, m, mtu, t, j), x - grh)
  {
  }

  lemma RoomAboveTail(w: Request, m: nat, mtu: nat, grh: nat, sub: int, turn: nat, x: int)
    requires turn < m && mtu > 0 && Chunk(w.length, m) > 0
    ensures var s, c := RecvSchedule(w, m, mtu, grh, sub, turn), Chunk(w.length, m);
      Roomy(s, 0, |s| - m, grh, x) <==> AboveTail(w.addr + grh, c, m, LastLen(c, mtu), x)
  {
    var s, c := RecvSchedule(w, m, mtu, grh, sub, turn), Chunk(w.length, m);
    var r, tail := Rounds(c, mtu), LastLen(c, mtu);
    Geometry(c, mtu);
    if Roomy(s, 0, |s| - m, grh, x) {
      var k :| 0 <= k < |s| - m && InRoom(s[k], grh, x);
      BufferAt(w, m, mtu, grh, sub, turn, k);
      LastOnes(k, m, r);
      var t, j := (turn + k) % m, k / m;
      BufferRoom(w, m, mtu, grh, sub, t, j, x);
      PieceAboveTail(w, m, mtu, t, j, x - grh);
      assert InPart(w.addr + grh, c, t, tail, x);
    }
    if AboveTail(w.addr + grh, c, m, tail, x) {
      var t: nat :| t < m && InPart(w.addr + grh, c, t, tail, x);
      var j := PieceOver(w, m, mtu, t, x - grh);
      var k := ScheduleIndex(m, turn, t, j, r);
      BufferAt(w, m, mtu, grh, sub, turn, k);
      LastOnes(k, m, r);
      BufferRoom(w, m, mtu, grh, sub, t, j, x);
      assert InRoom(s[k], grh, x);
    }
  }

  lemma PieceAboveTail(w: Request, m: nat, mtu: nat, t: nat, j: nat, y: int)
    requires m > 0 && mtu > 0 && j + 1 < Rounds(Chunk(w.length, m), mtu)
    requires Holds(SendPiece(w.addr, w.length, m, mtu, t, j), y)
    ensures InPart(w.addr, Chunk(w.length, m), t, LastLen(Chunk(w.length, m), mtu), y)
  {
    var c := Chunk(w.length, m);
    PieceInside(w.addr, w.length, m, mtu, t, j);
    Geometry(c, mtu);
    MulOrder(mtu, 0, j); MulOrder(mtu, j + 1, Rounds(c, mtu) - 1);
    Cancel(c, t, t);
  }

  lemma PieceOver(w: Request, m: nat, mtu: nat, t: nat, y: int) returns (j: nat)
    requires m > 0 && mtu > 0 && t < m && InPart(w.addr, Chunk(w.length, m), t, LastLen(Chunk(w.length, m), mtu), y)
    ensures j + 1 < Rounds(Chunk(w.length, m), mtu) && Holds(SendPiece(w.addr, w.length, m, mtu, t, j), y)
  {
    var c := Chunk(w.length, m);
    MulOrder(c, t + 1, m); MulOrder(c, 0, t);
    var u;
    u, j := PieceOf(w.addr, w.length, m, mtu, y);
    PieceBrackets(w.addr, w.length, m, mtu, u, j, y);
    Cancel(c, t, t); Cancel(c, u, t + 1); Cancel(c, t, u + 1);
    assert u == t;
    PieceInside(w.addr, w.length, m, mtu, t, j);
  }

  /** What is posted for a region, seen on the queue. */
  lemma RegionPosted(queue0: seq<Piece>, queue: seq<Piece>, w: Request, m: nat, mtu: nat, grh: nat, sub: int, turn: nat)
    requires turn < m && mtu > 0 && queue == queue0 + RecvSchedule(w, m, mtu, grh, sub, turn)
    ensures RegionBuffers(queue, |queue0|, w.addr, Chunk(w.length, m), m, turn, Rounds(Chunk(w.length, m), mtu), mtu,
                          grh, sub)
  {
    var s, c := RecvSchedule(w, m, mtu, grh, sub, turn), Chunk(w.length, m);
    var r, from := Rounds(c, mtu), |queue0|;
    Geometry(c, mtu);
    forall k | from <= k < |queue|
      ensures queue[k].path == (turn + (k - from)) % m
      ensures queue[k].len == grh + if k < |queue| - m then mtu else LastLen(c, mtu)
      ensures k >= |queue| - m ==> queue[k].addr + grh == sub + (mtu + grh) * queue[k].path
    {
      assert queue[k] == s[k - from];
      BufferAt(w, m, mtu, grh, sub, turn, k - from);
      LastOnes(k - from, m, r);
    }
    if r > 0 {
      assert r * m - m == (r - 1) * m;
      MulOrder(m, 0, r - 1);
      var to, lo, tail := |queue| - m, w.addr + grh, LastLen(c, mtu);
      forall x ensures Roomy(queue, from, to, grh, x) <==> AboveTail(lo, c, m, tail, x) {
        RoomAboveTail(w, m, mtu, grh, sub, turn, x);
        RoomyShift(queue0, s, |s| - m, grh, x);
      }
      assert RoomFor(queue, from, to, grh, lo, c, m, tail);
    }
  }

  lemma RoomyShift(queue0: seq<Piece>, s: seq<Piece>, to: int, grh: nat, x: int)
    requires to <= |s|
    ensures Roomy(queue0 + s, |queue0|, |queue0| + to, grh, x) <==> Roomy(s, 0, to, grh, x)
  {
    var all := queue0 + s;
    if k :| |queue0| <= k < |queue0| + to && k < |all| && InRoom(all[k], grh, x) {
      assert InRoom(s[k - |queue0|], grh, x);
    }
    if k :| 0 <= k < to && k < |s| && InRoom(s[k], grh, x) {
      assert InRoom(all[k + |queue0|], grh, x);
    }
  }

  lemma CarriedEither(queue0: seq<Piece>, queue: seq<Piece>, from: nat, x: int)
    requires from <= |queue0| && queue0 <= queue
    ensures Carried(queue, from, x) <==> Carried(queue0, from, x) || Carried(queue, |queue0|, x)
  {
    if k :| from <= k < |queue| && Holds(queue[k], x) {
      assert k < |queue0| ==> Holds(queue0[k], x);
    }
    if k :| from <= k < |queue0| && Holds(queue0[k], x) {
      assert Holds(queue[k], x);
    }
  }

  /** Byte x belongs to a region, and not to the tail that m paths leave over. */
  ghost predicate Resends(w: Request, m: nat, x: int)
    requires m > 0
  {
    w.addr <= x < w.addr + w.length - w.length % m
  }

  /** The same for the pieces of the sender. */
  lemma RegionSent(queue0: seq<Piece>, queue: seq<Piece>, w: Request, m: nat, mtu: nat, turn: nat)
    requires turn < m && mtu > 0 && queue == queue0 + SendSchedule(w, m, mtu, turn)
    ensures InTurns(queue, |queue0|, m, turn, Rounds(Chunk(w.length, m), mtu))
    ensures forall x :: Carried(queue, |queue0|, x) <==> w.addr <= x < w.addr + w.length - w.length % m
  {
    var s := SendSchedule(w, m, mtu, turn);
    forall k | |queue0| <= k < |queue| ensures queue[k].path == (turn + (k - |queue0|)) % m {
      assert queue[k] == s[k - |queue0|];
      var t, j := PieceAt(w, m, mtu, turn, k - |queue0|);
    }
    forall x ensures Carried(queue, |queue0|, x) <==> w.addr <= x < w.addr + w.length - w.length % m {
      ScheduleCarries(w, m, mtu, turn, x);
      if Carried(queue, |queue0|, x) {
        var k :| |queue0| <= k < |queue| && Holds(queue[k], x);
        assert Holds(s[k - |queue0|], x);
      }
      if Carried(s, 0, x) {
        var k :| 0 <= k < |s| && Holds(s[k], x);
        assert Holds(queue[k + |queue0|], x);
      }
    }
  }

  /** The recovery half of `mpctx` and `mp_manager`, on one side. */
  class Recovery {
    const mtu: nat
    const grh: nat
    const sub: int
    const report: Report
    const iterEach: seq<nat>      // wqe[i].iter_each of the failed path
    var wqe: seq<Request>
    var postTurn: nat             // recov_post_turn
    var curPost: nat              // recovery_cur_post_wqe
    var maxWqe: nat               // recovery_max_wqe
    var queue: seq<Piece>         // what the report queue pair was given

    /** Every request still to be posted is in the table, and the lost one has pieces left. */
    ghost predicate Valid()
      reads this
    {
      mtu > 0 && report.n > 1 && |wqe| == |iterEach| && maxWqe < |wqe| &&
      (curPost <= report.loss < |wqe| ==> report.completed < iterEach[report.loss])
    }

    constructor (mtu: nat, grh: nat, sub: int, report: Report, iterEach: seq<nat>, wqe: seq<Request>, first: nat,
                 last: nat)
      requires mtu > 0 && report.n > 1 && |wqe| == |iterEach| && last < |wqe|
      requires first <= report.loss < |wqe| ==> report.completed < iterEach[report.loss]
      ensures Valid() && this.mtu == mtu && this.grh == grh && this.sub == sub && this.report == report
      ensures this.iterEach == iterEach && this.wqe == wqe && curPost == first && maxWqe == last
      ensures queue == [] && postTurn == 0
    {
      this.mtu, this.grh, this.sub, this.report, this.iterEach := mtu, grh, sub, report, iterEach;
      this.wqe, postTurn, curPost, maxWqe, queue := wqe, 0, first, last, [];
    }

    /** Request i of the table has been cut down to that region, and the queue has got what carries it over the
        m other paths: a sender's pieces hold exactly its bytes but the last length mod m. */
    ghost predicate Recovered(server: bool, i: nat, wqe0: seq<Request>, queue0: seq<Piece>, turn: nat)
      reads this
    {
      i < |wqe0| == |wqe| && report.n > 1 && mtu > 0 && wqe == wqe0[i := wqe[i]] && queue0 <= queue &&
      var lo, len, m := wqe[i].addr, wqe[i].length, report.n - 1;
      i < |iterEach| && IsRegion(report, iterEach[i], wqe0[i], i, wqe[i]) &&
      if server then
        exists r: nat :: RegionBuffers(queue, |queue0|, lo, len / m, m, turn % m, r, mtu, grh, sub)
      else
        (exists r: nat :: InTurns(queue, |queue0|, m, turn % m, r)) &&
        forall x :: Carried(queue, |queue0|, x) <==> Resends(wqe[i], m, x)
    }

    /** The posting step of `mprud_recovery_client` and `mprud_recovery_server`: one request is rewritten
        and its region is posted over the remaining paths. */
    method RecoverNext(server: bool) returns (posted: bool)
      requires Valid()
      modifies this
      ensures Valid() && posted == (old(curPost) <= old(maxWqe))
      ensures !posted ==> wqe == old(wqe) && queue == old(queue) && curPost == old(curPost) && postTurn == old(postTurn)
      ensures maxWqe == old(maxWqe) && (posted ==> curPost == old(curPost) + 1)
      ensures posted ==>
        var i, m := old(curPost), report.n - 1;
        var w := Cut(old(wqe)[i], report, i, iterEach[i]);
        wqe == old(wqe)[i := w] && postTurn == old(postTurn) % m &&
        queue == old(queue) + Schedule(PlanOf(server, w, m), m, old(postTurn) % m, Rounds(Chunk(w.length, m), mtu))
      ensures posted ==> Recovered(server, old(curPost), old(wqe), old(queue), old(postTurn))
    {
      ghost var wqe0, queue0, turn := wqe, queue, postTurn % (report.n - 1);
      if curPost > maxWqe {
        return false;
      }
      var w := wqe[curPost];
      var length := w.length / report.n;
      var addr := w.addr + report.path * length;
      if curPost == report.loss {
        assert Remaining(length, iterEach[curPost], report.completed) >= 0;
        length := length - length / iterEach[curPost] * report.completed;
      }
      wqe := wqe[curPost := Request(addr, length)];
      PostRecovery(server, addr, length, report.n - 1);
      if server {
        RegionPosted(queue0, queue, Request(addr, length), report.n - 1, mtu, grh, sub, turn);
      } else {
        RegionSent(queue0, queue, Request(addr, length), report.n - 1, mtu, turn);
      }
      curPost := curPost + 1;
      return true;
    }

    /** Byte x is in a region that the sender sends again for one of the requests i .. j - 1. */
    ghost predicate Again(wqe: seq<Request>, i: nat, j: nat, x: int)
      requires report.n > 1
    {
      exists k :: i <= k < j && k < |wqe| && Resends(wqe[k], report.n - 1, x)
    }

    /** All posting steps of a recovery, on one side: every request from the first to the last is cut down to the
        region of the failed path, and a sender sends exactly these regions again, each without its tail. */
    method RecoverAll(server: bool)
      requires Valid()
      modifies this
      ensures Valid() && |wqe| == |old(wqe)| && maxWqe == old(maxWqe) && curPost > maxWqe && old(queue) <= queue
      ensures forall i :: 0 <= i < |wqe| ==>
        if old(curPost) <= i <= maxWqe then IsRegion(report, iterEach[i], old(wqe)[i], i, wqe[i])
        else wqe[i] == old(wqe[i])
      ensures !server ==>
        forall x :: Carried(queue, |old(queue)|, x) <==> Again(wqe, old(curPost), maxWqe + 1, x)
    {
      hide RegionBuffers, InTurns, Carried, Schedule, PlanOf, Again, Resends, IsRegion, Cut, Rounds, Chunk;
      ghost var first := curPost;
      NoneYet(first, first);
      var more := true;
      while more
        invariant Valid() && |wqe| == |old(wqe)| && maxWqe == old(maxWqe) && old(queue) <= queue
        invariant first <= curPost && (curPost <= maxWqe + 1 || curPost == first) && (more || curPost > maxWqe)
        invariant forall i :: 0 <= i < |wqe| ==>
          if first <= i < curPost then IsRegion(report, iterEach[i], old(wqe)[i], i, wqe[i]) else wqe[i] == old(wqe[i])
        invariant !server ==> forall x :: Carried(queue, |old(queue)|, x) <==> Again(wqe, first, curPost, x)
        decreases maxWqe + 1 - curPost, more
      {
        ghost var wqe0, queue0, i := wqe, queue, curPost;
        more := RecoverNext(server);
        if more && !server { OneMore(old(queue), queue0, wqe0, first, i); }
      }
      if curPost == first {
        NoneYet(first, first);
        NoneYet(first, maxWqe + 1);
      }
    }

    lemma NoneYet(first: nat, j: nat)
      requires report.n > 1 && j <= first
      ensures forall x :: !Carried(queue, |queue|, x) && !Again(wqe, first, j, x)
    {
    }

    lemma OneMore(start: seq<Piece>, queue0: seq<Piece>, wqe0: seq<Request>, first: nat, i: nat)
      requires report.n > 1 && first <= i < |wqe0| == |wqe| && wqe == wqe0[i := wqe[i]] && start <= queue0 <= queue
      requires forall x :: Carried(queue0, |start|, x) <==> Again(wqe0, first, i, x)
      requires forall x :: Carried(queue, |queue0|, x) <==> Resends(wqe[i], report.n - 1, x)
      ensures forall x :: Carried(queue, |start|, x) <==> Again(wqe, first, i + 1, x)
    {
      forall x ensures Carried(queue, |start|, x) <==> Again(wqe, first, i + 1, x) {
        CarriedEither(queue0, queue, |start|, x);
        if Again(wqe0, first, i, x) {
          var k :| first <= k < i && k < |wqe0| && Resends(wqe0[k], report.n - 1, x);
          assert Resends(wqe[k], report.n - 1, x);
        }
        if Again(wqe, first, i + 1, x) {
          var k :| first <= k < i + 1 && k < |wqe| && Resends(wqe[k], report.n - 1, x);
          assert k < i ==> Resends(wqe0[k], report.n - 1, x);
        }
      }
    }

    ghost function PlanOf(server: bool, w: Request, m: nat): Plan
      requires m > 0 && mtu > 0
    {
      if server then RecvPlan(w.addr, w.length, m, mtu, grh, sub) else SendPlan(w.addr, w.length, m, mtu)
    }

    /** `mprud_post_send_recovery` and `mprud_post_recv_recovery`, apart from their waits. */
    method PostRecovery(server: bool, addr: int, size: nat, m: nat)
      requires mtu > 0 && m > 0
      modifies this`queue, this`postTurn
      ensures postTurn == old(postTurn) % m
      ensures queue == old(queue) +
        Schedule(PlanOf(server, Request(addr, size), m), m, old(postTurn) % m, Rounds(Chunk(size, m), mtu))
    {
      var rounds, last := CutRegion(size, m);
      postTurn := postTurn % m;
      ghost var turn := postTurn;
      ghost var all := Schedule(PlanOf(server, Request(addr, size), m), m, turn, rounds);
      WholeTurns(turn, m, rounds);
      hide Rounds, LastLen, Chunk, Schedule, TurnAt, PlanOf;
      PostAll(server, addr, size, m, rounds, last, turn);
      assert all[..|all|] == all;
    }

    method CutRegion(size: nat, m: nat) returns (rounds: nat, last: nat)
      requires mtu > 0 && m > 0
      ensures rounds == Rounds(Chunk(size, m), mtu) && last == LastLen(Chunk(size, m), mtu)
    {
      var chunk := size / m;
      rounds := chunk / mtu;
      last := chunk % mtu;
      if last != 0 {
        rounds := rounds + 1;
      } else {
        last := mtu;
      }
    }

    /** The posting loop. */
    method PostAll(server: bool, addr: int, size: nat, m: nat, rounds: nat, last: nat, ghost turn: nat)
      requires mtu > 0 && m > 0 && rounds == Rounds(Chunk(size, m), mtu) && last == LastLen(Chunk(size, m), mtu)
      requires postTurn == TurnAt(turn, 0, m)
      modifies this`queue, this`postTurn
      ensures postTurn == TurnAt(turn, rounds * m, m)
      ensures queue == old(queue) + Schedule(PlanOf(server, Request(addr, size), m), m, turn, rounds)
    {
      MulOrder(m, 0, rounds);
      var iter := rounds * m;
      ghost var all := Schedule(PlanOf(server, Request(addr, size), m), m, turn, rounds);
      hide Rounds, LastLen, Chunk, Schedule, TurnAt, PlanOf;
      var i := 0;
      while i < iter
        invariant i <= iter && postTurn == TurnAt(turn, i, m)
        invariant queue == old(queue) + all[..i]
      {
        PostNext(server, addr, size, m, i, iter, last, rounds, turn);
        assert all[..i + 1] == all[..i] + [all[i]];
        i := i + 1;
      }
      assert all[..iter] == all;
    }

    method PostNext(server: bool, addr: int, size: nat, m: nat, i: nat, iter: nat, last: nat, ghost rounds: nat,
                    ghost turn: nat)
      requires mtu > 0 && m > 0 && rounds == Rounds(Chunk(size, m), mtu) && last == LastLen(Chunk(size, m), mtu)
      requires iter == rounds * m && i < iter && postTurn == TurnAt(turn, i, m)
      modifies this`queue, this`postTurn
      ensures postTurn == TurnAt(turn, i + 1, m)
      ensures queue == old(queue) + [Schedule(PlanOf(server, Request(addr, size), m), m, turn, rounds)[i]]
    {
      ScheduleAt(PlanOf(server, Request(addr, size), m), m, turn, rounds, i);
      TurnStep(turn, m, i);
      hide Rounds, LastLen, Chunk, Schedule, PlanOf;
      PostOne(server, addr, size, m, i, iter, last, rounds);
    }

    /** The loop body of the two posting functions. */
    method PostOne(server: bool, addr: int, size: nat, m: nat, i: nat, iter: nat, last: nat, ghost rounds: nat)
      requires mtu > 0 && m > 0 && rounds == Rounds(Chunk(size, m), mtu) && last == LastLen(Chunk(size, m), mtu)
      requires iter == rounds * m && i < iter
      modifies this`queue, this`postTurn
      ensures queue == old(queue) + [PlanOf(server, Request(addr, size), m)(old(postTurn), i / m)]
      ensures postTurn == (old(postTurn) + 1) % m
    {
      var p;
      if server {
        p := RecvNext(addr, size, m, i, iter, last, rounds);
      } else {
        p := SendNext(addr, size, m, i, iter, last, rounds);
      }
      hide RecvPiece, SendPiece;
      queue := queue + [p];
      postTurn := (postTurn + 1) % m;
    }

    method SendNext(addr: int, size: nat, m: nat, i: nat, iter: nat, last: nat, ghost rounds: nat) returns (p: Piece)
      requires mtu > 0 && m > 0 && rounds == Rounds(Chunk(size, m), mtu) && last == LastLen(Chunk(size, m), mtu)
      requires iter == rounds * m && i < iter
      ensures p == SendPiece(addr, size, m, mtu, postTurn, i / m)
    {
      ScheduleSlot(m, 0, i, rounds);
      IndexIs(i, m);
      SendStep(addr, size, m, mtu, i, i / m, i % m, rounds, postTurn);
      hide SendPiece, Rounds, LastLen, Index;
      var chunk := size / m;
      var a := addr + chunk * (postTurn + 1) - (i / m + 1) * mtu;
      var length := mtu;
      if iter - i <= m {
        length := last;
        a := a + mtu - length;
      }
      p := Piece(postTurn, a, length);
    }

    method RecvNext(addr: int, size: nat, m: nat, i: nat, iter: nat, last: nat, ghost rounds: nat) returns (p: Piece)
      requires mtu > 0 && m > 0 && rounds == Rounds(Chunk(size, m), mtu) && last == LastLen(Chunk(size, m), mtu)
      requires iter == rounds * m && i < iter
      ensures p == RecvPiece(addr, size, m, mtu, grh, sub, postTurn, i / m)
    {
      ScheduleSlot(m, 0, i, rounds);
      IndexIs(i, m);
      RecvStep(addr, size, m, mtu, grh, sub, i, i / m, i % m, rounds, postTurn);
      hide RecvPiece, Rounds, LastLen, Index;
      var chunk := size / m;
      var a := addr + chunk * (postTurn + 1) + grh - (i / m + 1) * mtu;
      var length := mtu;
      if iter - i <= m {
        length := last;
        a := sub + (mtu + grh) * postTurn;
      }
      p := Piece(postTurn, a - grh, length + grh);
    }
  }

  lemma IndexIs(i: nat, m: nat)
    requires m > 0
    ensures i == Index(i / m, m, i % m) && i % m < m
  {
    FloorMod(i, m);
  }

  // ----- what is sent again ------------------------------------------------------------

  /** One side's view of a lost request: the original message, n paths, path e failed after c pieces. */
  datatype Loss = Loss(addr: int, size: nat, n: nat, mtu: nat, e: nat, c: nat)

  ghost function Part(l: Loss): nat
    requires l.n > 0
  {
    Chunk(l.size, l.n)
  }

  ghost predicate Plausible(l: Loss) {
    l.n > 1 && l.mtu > 0 && l.e < l.n && l.c < Rounds(Part(l), l.mtu)
  }

  /** A byte of a piece that the failed path has not completed. */
  ghost predicate Unfinished(l: Loss, x: int)
    requires l.n > 0 && l.mtu > 0
  {
    exists j: nat :: l.c <= j < Rounds(Part(l), l.mtu) && Holds(SendPiece(l.addr, l.size, l.n, l.mtu, l.e, j), x)
  }

  ghost function Again(l: Loss): Request
    requires Plausible(l)
  {
    LossPlausible(l);
    Cut(Request(l.addr, l.size), Report(l.n, l.e, 0, l.c), 0, Rounds(Part(l), l.mtu))
  }

  lemma LossPlausible(l: Loss)
    requires Plausible(l)
    ensures var r := Rounds(Part(l), l.mtu);
      0 < Part(l) && 0 < r &&
      Part(l) - l.mtu * l.c <= Remaining(Part(l), r, l.c) &&
      (Part(l) - l.mtu * l.c == Remaining(Part(l), r, l.c) <==> l.c == 0 || Part(l) % l.mtu == 0)
  {
    Geometry(Part(l), l.mtu);
    RemainingBounds(Part(l), l.mtu, l.c);
  }

  /** Some recovery piece carries byte x, whatever path has the first turn. */
  ghost predicate Resent(l: Loss, turn: nat, x: int)
    requires Plausible(l)
  {
    Carried(Sends(l, turn), 0, x)
  }

  ghost function Sends(l: Loss, turn: nat): seq<Piece>
    requires Plausible(l)
  {
    SendSchedule(Again(l), l.n - 1, l.mtu, turn)
  }

  lemma UnfinishedIs(l: Loss, x: int)
    requires Plausible(l)
    ensures Unfinished(l, x) <==> l.addr + Part(l) * l.e <= x < l.addr + Part(l) * (l.e + 1) - l.mtu * l.c
  {
    var lo, hi := l.addr + Part(l) * l.e, l.addr + Part(l) * (l.e + 1);
    LossPlausible(l);
    Cancel(Part(l), l.e, l.n);
    if lo <= x < hi - l.mtu * l.c {
      MulOrder(Part(l), l.e + 1, l.n); MulOrder(Part(l), 0, l.e); MulOrder(l.mtu, 0, l.c);
      var t, j := PieceOf(l.addr, l.size, l.n, l.mtu, x);
      PieceInside(l.addr, l.size, l.n, l.mtu, t, j);
      MulOrder(l.mtu, 0, j);
      Cancel(Part(l), t, l.e + 1); Cancel(Part(l), l.e, t + 1);
      Cancel(l.mtu, l.c, j + 1);
      assert Unfinished(l, x);
    }
    if Unfinished(l, x) {
      var j: nat :| l.c <= j < Rounds(Part(l), l.mtu) && Holds(SendPiece(l.addr, l.size, l.n, l.mtu, l.e, j), x);
      PieceInside(l.addr, l.size, l.n, l.mtu, l.e, j);
      MulOrder(l.mtu, l.c, j);
    }
  }

  /** The region that is cut out for recovery holds every unfinished byte, and nothing else exactly if
      nothing was completed or the MTU divides the chunk. */
  lemma RegionCovers(l: Loss)
    requires Plausible(l)
    ensures var w := Again(l);
      (forall x :: Unfinished(l, x) ==> w.addr <= x < w.addr + w.length) &&
      ((forall x :: w.addr <= x < w.addr + w.length ==> Unfinished(l, x)) <==> l.c == 0 || Part(l) % l.mtu == 0)
  {
    LossPlausible(l);
    var w := Again(l);
    Cancel(Part(l), l.e, l.e);
    assert w.addr == l.addr + Part(l) * l.e;
    forall x ensures Unfinished(l, x) <==> w.addr <= x < w.addr + Part(l) - l.mtu * l.c { UnfinishedIs(l, x); }
    if !(l.c == 0 || Part(l) % l.mtu == 0) {
      var x := w.addr + w.length - 1;
      assert !Unfinished(l, x);
    }
  }

  /** The recovery pieces carry exactly the bytes of the region but its last length mod (n - 1). */
  lemma ResentIs(l: Loss, turn: nat, x: int)
    requires Plausible(l) && turn < l.n - 1
    ensures var w := Again(l); Resent(l, turn, x) <==> w.addr <= x < w.addr + w.length - w.length % (l.n - 1)
  {
    hide Again, SendSchedule;
    ScheduleCarries(Again(l), l.n - 1, l.mtu, turn, x);
  }

  /** Every unfinished byte is sent again exactly if the tail that the split over n - 1 paths drops is no
      longer than what the region has too much. */
  lemma RecoveryComplete(l: Loss, turn: nat)
    requires Plausible(l) && turn < l.n - 1
    ensures var w := Again(l);
      (forall x :: Unfinished(l, x) ==> Resent(l, turn, x)) <==>
      w.length % (l.n - 1) <= w.length - (Part(l) - l.mtu * l.c)
  {
    LossPlausible(l);
    var w := Again(l);
    Cancel(Part(l), l.e, l.e);
    UnfinishedNonempty(l);
    assert w.addr == l.addr + Part(l) * l.e;
    forall x ensures Unfinished(l, x) <==> w.addr <= x < w.addr + Part(l) - l.mtu * l.c { UnfinishedIs(l, x); }
    forall x ensures Resent(l, turn, x) <==> w.addr <= x < w.addr + w.length - w.length % (l.n - 1) {
      ResentIs(l, turn, x);
    }
    if w.length % (l.n - 1) > w.length - (Part(l) - l.mtu * l.c) {
      var x := w.addr + Part(l) - l.mtu * l.c - 1;
      assert Unfinished(l, x) && !Resent(l, turn, x);
    }
  }

  lemma UnfinishedNonempty(l: Loss)
    requires Plausible(l)
    ensures l.mtu * l.c < Part(l)
  {
    Geometry(Part(l), l.mtu);
    MulOrder(l.mtu, l.c, Rounds(Part(l), l.mtu) - 1);
  }

  /** In particular, if the region is exact, some byte is lost unless n - 1 divides it. */
  lemma ExactRegionComplete(l: Loss, turn: nat)
    requires Plausible(l) && turn < l.n - 1 && (l.c == 0 || Part(l) % l.mtu == 0)
    ensures (forall x :: Unfinished(l, x) ==> Resent(l, turn, x)) <==> (Part(l) - l.mtu * l.c) % (l.n - 1) == 0
  {
    LossPlausible(l);
    RecoveryComplete(l, turn);
  }

  /** No byte is sent again twice. */
  lemma ResentOnce(l: Loss, turn: nat, k: nat, k': nat, x: int)
    requires Plausible(l) && turn < l.n - 1 && k < |Sends(l, turn)| && k' < |Sends(l, turn)|
    requires Holds(Sends(l, turn)[k], x) && Holds(Sends(l, turn)[k'], x)
    ensures k == k'
  {
    hide Again, Schedule, SendSchedule, Holds, Rounds;
    PiecesOnce(Again(l), l.n - 1, l.mtu, turn, k, k', x);
  }

  lemma PiecesOnce(w: Request, m: nat, mtu: nat, turn: nat, k: nat, k': nat, x: int)
    requires m > 0 && mtu > 0 && k < |SendSchedule(w, m, mtu, turn)| && k' < |SendSchedule(w, m, mtu, turn)|
    requires Holds(SendSchedule(w, m, mtu, turn)[k], x) && Holds(SendSchedule(w, m, mtu, turn)[k'], x)
    ensures k == k'
  {
    var t, j := PieceAt(w, m, mtu, turn, k);
    var t', j' := PieceAt(w, m, mtu, turn, k');
    if t == t' && j == j' { ScheduleOnce(m, turn, k, k'); }
    hide Schedule, SendSchedule, Rounds, Chunk, SendPiece;
    PiecesDisjoint(w.addr, w.length, m, mtu, t, j, t', j', x);
  }

  // ----- the two sides -----------------------------------------------------------------

  /** The receiver cuts its own request: it starts elsewhere and is longer by `extra`, the GRH that a
      datagram receive request includes. It knows how many pieces the message had. */
  ghost function ReceiverAgain(l: Loss, to: int, extra: nat): (w: Request)
    requires Plausible(l)
  {
    var chunk := (l.size + extra) / l.n;
    Request(to + l.e * chunk, Remaining(chunk, Rounds(Part(l), l.mtu), l.c))
  }

  /** These are the regions that the posting steps of the two sides cut out of the lost request i. */
  lemma RegionsCut(l: Loss, to: int, extra: nat, i: nat, w: Request, v: Request)
    requires Plausible(l)
    ensures var report, r := Report(l.n, l.e, i, l.c), Rounds(Part(l), l.mtu);
      (IsRegion(report, r, Request(l.addr, l.size), i, w) <==> w == Again(l)) &&
      (IsRegion(report, r, Request(to, l.size + extra), i, v) <==> v == ReceiverAgain(l, to, extra))
  {
    LossPlausible(l);
  }

  /** Both sides cut out the same bytes of the message. */
  ghost predicate SameRegion(l: Loss, to: int, extra: nat)
    requires Plausible(l)
  {
    var s, r := Again(l), ReceiverAgain(l, to, extra);
    s.addr - l.addr == r.addr - to && s.length == r.length
  }

  /** They do so exactly if the GRH does not change the size of a chunk, or path 0 failed and what is left
      of the two sizes happens to be equal. The size stays if the receiver's length includes no GRH, and
      never if the GRH has at least n bytes; and if nothing was completed, nothing else helps. */
  lemma RegionsAgree(l: Loss, to: int, extra: nat)
    requires Plausible(l)
    ensures var r, a, b := Rounds(Part(l), l.mtu), l.size / l.n, (l.size + extra) / l.n;
      0 < r && (SameRegion(l, to, extra) <==> a == b || (l.e == 0 && Remaining(a, r, l.c) == Remaining(b, r, l.c))) &&
      (l.c == 0 ==> (SameRegion(l, to, extra) <==> a == b)) && (extra == 0 ==> a == b) && (extra >= l.n ==> a < b)
  {
    LossPlausible(l);
    var a, b := l.size / l.n, (l.size + extra) / l.n;
    QuotientOrder(l.size, l.size + extra, l.n);
    FloorMod(l.size, l.n); FloorMod(l.size + extra, l.n);
    if extra >= l.n { Cancel(l.n, a + 1, b + 1); Cancel(l.n, a, b); }
    if l.e > 0 { Cancel(l.e, a, b); }
    var r := Rounds(Part(l), l.mtu);
    assert l.c == 0 ==> Remaining(a, r, l.c) == a && Remaining(b, r, l.c) == b;
    hide Rounds, Remaining;
  }

  lemma SchedulesMatch(w: Request, to: int, m: nat, mtu: nat, grh: nat, sub: int, turn: nat, k: nat)
    requires m > 0 && mtu > 0 && k < |SendSchedule(w, m, mtu, turn)|
    ensures var s, rounds := SendSchedule(w, m, mtu, turn), Rounds(Chunk(w.length, m), mtu);
      var r := Schedule(RecvPlan(to, w.length, m, mtu, grh, sub), m, turn, rounds);
      |r| == |s| && s[k].path == r[k].path && r[k].len == s[k].len + grh &&
      (k / m + 1 < rounds ==> r[k].addr - to == s[k].addr - w.addr)
  {
    var t, j := PieceAt(w, m, mtu, turn, k);
    var rounds := Rounds(Chunk(w.length, m), mtu);
    ScheduleAt(RecvPlan(to, w.length, m, mtu, grh, sub), m, turn, rounds, k);
    hide Schedule, Rounds, Chunk, LastLen;
  }

  /** If the regions agree, the k-th packet posted fits the k-th buffer posted, and has its place in the
      message behind the GRH there, except for the final pieces. The packets meet these buffers if they arrive
      in posting order; `MprudReorder` has the other orders. */
  lemma RecoveryMatches(l: Loss, to: int, extra: nat, grh: nat, sub: int, turn: nat, k: nat)
    requires Plausible(l) && turn < l.n - 1 && SameRegion(l, to, extra)
    requires k < |Sends(l, turn)|
    ensures var w, m := ReceiverAgain(l, to, extra), l.n - 1;
      var rounds := Rounds(Chunk(w.length, m), l.mtu);
      var buffers := Schedule(RecvPlan(w.addr, w.length, m, l.mtu, grh, sub), m, turn, rounds);
      |buffers| == |Sends(l, turn)| &&
      Sends(l, turn)[k].path == buffers[k].path && buffers[k].len == Sends(l, turn)[k].len + grh &&
      (k / m + 1 < rounds ==> buffers[k].addr - to == Sends(l, turn)[k].addr - l.addr)
  {
    var s, r := Again(l), ReceiverAgain(l, to, extra);
    hide Again, ReceiverAgain, Schedule, Rounds, Chunk;
    SchedulesMatch(s, r.addr, l.n - 1, l.mtu, grh, sub, turn, k);
  }
}
