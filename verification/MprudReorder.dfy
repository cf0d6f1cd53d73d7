/** What becomes of a recovery when its packets do not arrive in posting order: mprud.c sends them over all
    remaining paths, but to the one report queue pair, whose buffers are filled in the order of arrival.
    Packets of one path still arrive in order. */
module MprudReorder {
  import opened Arith
  import opened MprudSplit
  import opened MprudReceive
  import MprudRecovery

  /** The region to be received again, as a message of its own over the remaining paths. */
  ghost function Region(l: MprudRecovery.Loss, to: int, extra: nat, grh: nat, sub: int): Layout
    requires MprudRecovery.Plausible(l)
  {
    var w := MprudRecovery.ReceiverAgain(l, to, extra);
    Layout(w.addr, w.length, l.n - 1, l.mtu, grh, sub)
  }

  /** The buffers in the order in which `mprud_post_recv_recovery` posts them. */
  ghost function Buffers(g: Layout, turn: nat): seq<Piece>
    requires g.n > 0 && g.mtu > 0
  {
    MprudRecovery.Schedule(RecvPlan(g.addr, g.size, g.n, g.mtu, g.grh, g.sub), g.n, turn, RoundsOf(g))
  }

  /** The packets in the order in which `mprud_post_send_recovery` posts them; the region starts at `from` at
      the sender. */
  ghost function Packets(g: Layout, from: int, turn: nat): seq<Piece>
    requires g.n > 0 && g.mtu > 0
  {
    MprudRecovery.Schedule(SendPlan(from, g.size, g.n, g.mtu), g.n, turn, RoundsOf(g))
  }

  /** Where packet j of path t stands among them. */
  ghost function Place(g: Layout, turn: nat, t: nat, j: nat): nat
    requires turn < g.n && t < g.n
  {
    g.n * j + Behind(t, turn, g.n)
  }

  /** The packets of path t stand at these places, in this order. */
  lemma PlaceIs(g: Layout, from: int, turn: nat, t: nat, j: nat)
    requires g.mtu > 0 && turn < g.n && t < g.n && j < RoundsOf(g)
    ensures var k := Place(g, turn, t, j);
      k < |Packets(g, from, turn)| == |Buffers(g, turn)| && k < Place(g, turn, t, j + 1) &&
      Packets(g, from, turn)[k] == SendPiece(from, g.size, g.n, g.mtu, t, j) && Packets(g, from, turn)[k].path == t
  {
    var rounds := RoundsOf(g);
    var k := MprudRecovery.ScheduleIndex(g.n, turn, t, j, rounds);
    ByPlace(g, turn, t, j, k);
    Cancel(g.n, j, j);
    MprudRecovery.ScheduleAt(SendPlan(from, g.size, g.n, g.mtu), g.n, turn, rounds, k);
  }

  lemma ByPlace(g: Layout, turn: nat, t: nat, j: nat, k: nat)
    requires turn < g.n && t < g.n && (turn + k) % g.n == t && k / g.n == j
    ensures k == Place(g, turn, t, j)
  {
    var b := Behind(t, turn, g.n);
    var p := Place(g, turn, t, j);
    Quotient(p, g.n, j);
    var q := if t >= turn then j else j + 1;
    Cancel(g.n, j, j);
    Quotient(turn + p, g.n, q);
    MprudRecovery.ScheduleOnce(g.n, turn, k, p);
  }

  /** The packet that arrives as number i of a run. */
  ghost function Arriving(g: Layout, from: int, turn: nat, run: seq<nat>, i: nat): Piece
    requires g.mtu > 0 && turn < g.n && Run(g, run) && i < |run|
  {
    Arrives(g, run, i);
    PlaceIs(g, from, turn, run[i], Count(run[..i], run[i]));
    Packets(g, from, turn)[Place(g, turn, run[i], Count(run[..i], run[i]))]
  }

  lemma {:induction false} Arrives(g: Layout, run: seq<nat>, i: nat)
    requires g.n > 0 && g.mtu > 0 && Run(g, run) && i < |run|
    ensures run[i] < g.n && Count(run[..i], run[i]) < RoundsOf(g)
    decreases |run|
  {
    RunPrefix(g, run);
    if i + 1 < |run| {
      assert run[..|run| - 1][..i] == run[..i];
      Arrives(g, run[..|run| - 1], i);
    }
  }

  /** That packet fits its buffer, and if it does not carry a final piece, its payload comes to lie behind the
      GRH at the place it had in the region. */
  ghost predicate Lands(g: Layout, from: int, turn: nat, run: seq<nat>, i: nat)
    requires g.mtu > 0 && turn < g.n && Run(g, run) && i < |run|
  {
    i < |Buffers(g, turn)| &&
    var p, b := Arriving(g, from, turn, run, i), Buffers(g, turn)[i];
    p.len + g.grh <= b.len && (Count(run[..i], run[i]) + 1 < RoundsOf(g) ==> b.addr - g.addr == p.addr - from)
  }

  // ----- one path, or one piece per path -------------------------------------------------

  lemma {:induction false} Lengths(run: seq<nat>, n: nat, r: nat)
    requires (forall k :: 0 <= k < |run| ==> run[k] < n) && forall t: nat :: t < n ==> Count(run, t) <= r
    ensures |run| <= n * r
    decreases n
  {
    if run != [] {
      assert run[0] < n;
      var rest := Others(run, n - 1);
      assert Count(run, n - 1) <= r;
      Lengths(rest, n - 1, r);
      assert n * r == (n - 1) * r + r;
    }
  }

  /** The run without the arrivals on path u, the highest. */
  lemma {:induction false} Others(run: seq<nat>, u: nat) returns (rest: seq<nat>)
    requires forall k :: 0 <= k < |run| ==> run[k] <= u
    ensures |run| == |rest| + Count(run, u) && (forall k :: 0 <= k < |rest| ==> rest[k] < u)
    ensures forall t: nat :: t < u ==> Count(rest, t) == Count(run, t)
    decreases |run|
  {
    if run == [] {
      rest := [];
    } else {
      var l := |run| - 1;
      var less := Others(run[..l], u);
      rest := if run[l] == u then less else less + [run[l]];
      assert run[l] != u ==> rest[..|rest| - 1] == less;
    }
  }

  lemma {:induction false} OnePath(run: seq<nat>)
    requires forall k :: 0 <= k < |run| ==> run[k] == 0
    ensures Count(run, 0) == |run|
    decreases |run|
  {
    if run != [] { OnePath(run[..|run| - 1]); }
  }

  /** The round of buffer i. */
  ghost function Round(n: nat, i: nat): nat
    requires n > 0
  {
    i / n
  }

  lemma BufferAt(g: Layout, turn: nat, i: nat)
    requires g.mtu > 0 && turn < g.n && i < g.n * RoundsOf(g)
    ensures i < |Buffers(g, turn)| && MprudRecovery.TurnAt(turn, i, g.n) < g.n && Round(g.n, i) < RoundsOf(g)
    ensures Buffers(g, turn)[i] == Buffer(g, MprudRecovery.TurnAt(turn, i, g.n), Round(g.n, i))
  {
    MprudRecovery.ScheduleAt(RecvPlan(g.addr, g.size, g.n, g.mtu, g.grh, g.sub), g.n, turn, RoundsOf(g), i);
  }

  lemma RunLength(g: Layout, run: seq<nat>)
    requires g.n > 0 && g.mtu > 0 && Run(g, run)
    ensures |run| <= g.n * RoundsOf(g)
  {
    Lengths(run, g.n, RoundsOf(g));
  }

  /** The shapes of a packet and of any buffer. */
  lemma Shapes(g: Layout, from: int, t: nat, j: nat, u: nat, i: nat)
    requires g.n > 0 && g.mtu > 0 && j < RoundsOf(g) && i < RoundsOf(g)
    ensures var p, b := SendPiece(from, g.size, g.n, g.mtu, t, j), Buffer(g, u, i);
      p.len <= g.mtu && (j + 1 == RoundsOf(g) ==> p.len == LastOf(g) <= g.mtu && p.len + g.grh <= b.len) &&
      (t == u && j == i ==> p.len + g.grh == b.len && (j + 1 < RoundsOf(g) ==> b.addr - g.addr == p.addr - from))
  {
    Geometry(ChunkOf(g), g.mtu);
  }

  lemma OrderedLands(g: Layout, from: int, turn: nat, run: seq<nat>, i: nat)
    requires g.mtu > 0 && turn < g.n && Run(g, run) && i < |run| && (g.n == 1 || RoundsOf(g) <= 1)
    ensures Lands(g, from, turn, run, i)
  {
    Arrives(g, run, i);
    RunLength(g, run);
    if g.n == 1 { OnlyBuffer(g, turn, run, i); }
    LandsIf(g, from, turn, run, i);
  }

  lemma OnlyBuffer(g: Layout, turn: nat, run: seq<nat>, i: nat)
    requires g.mtu > 0 && g.n == 1 && turn < g.n && Run(g, run) && i < |run|
    ensures MprudRecovery.TurnAt(turn, i, g.n) == run[i] && Round(g.n, i) == Count(run[..i], run[i])
  {
    OnePath(run[..i]);
    Quotient(i, 1, i);
  }

  /** A packet lands if it meets its own buffer, or if it carries a final piece. */
  lemma LandsIf(g: Layout, from: int, turn: nat, run: seq<nat>, i: nat)
    requires g.mtu > 0 && turn < g.n && Run(g, run) && i < |run| && i < g.n * RoundsOf(g)
    requires var j := Count(run[..i], run[i]);
      (MprudRecovery.TurnAt(turn, i, g.n) == run[i] && Round(g.n, i) == j) || j + 1 == RoundsOf(g)
    ensures Lands(g, from, turn, run, i)
  {
    hide Run, RoundsOf, Count, Buffers, Packets, Buffer, SendPiece, Place, Round, MprudRecovery.TurnAt;
    var t, j := run[i], Count(run[..i], run[i]);
    Arrives(g, run, i);
    PlaceIs(g, from, turn, t, j);
    BufferAt(g, turn, i);
    Shapes(g, from, t, j, MprudRecovery.TurnAt(turn, i, g.n), Round(g.n, i));
  }

  // ----- and otherwise ---------------------------------------------------------------------

  /** A packet that does not carry a final piece is at its place only in its own buffer. */
  lemma OnlyOwnBuffer(g: Layout, from: int, t: nat, j: nat, u: nat, i: nat)
    requires WellLaid(g) && t < g.n && u < g.n && j + 1 < RoundsOf(g) && i < RoundsOf(g)
    requires Buffer(g, u, i).addr - g.addr == SendPiece(from, g.size, g.n, g.mtu, t, j).addr - from
    ensures t == u && i == j
  {
    MprudReceive.Buffers(g, u, i);
    MprudReceive.Buffers(g, t, j);
    Bases(g, t, g.n);
    MulOrder(g.mtu, 0, j);
    MulOrder(g.mtu + g.grh, 0, u);
    var p, q := SendPiece(from, g.size, g.n, g.mtu, t, j), SendPiece(from, g.size, g.n, g.mtu, u, i);
    assert p.addr - from == Sent(g, t, j).addr && p.len == g.mtu;
    if i + 1 < RoundsOf(g) {
      assert q.addr - from == Sent(g, u, i).addr && q.len == g.mtu;
      hide SendPiece, Sent, Buffer, RoundsOf, ChunkOf;
      assert Holds(p, p.addr) && Holds(q, p.addr);
      PiecesDisjoint(from, g.size, g.n, g.mtu, t, j, u, i, p.addr);
    }
  }

  /** If path 0 comes first as a whole, and then path 1, some packet misses its place. */
  lemma PathByPathMisses(g: Layout, from: int, turn: nat) returns (i: nat)
    requires WellLaid(g) && turn < g.n && g.n > 1 && RoundsOf(g) > 1
    ensures Complete(g, PathByPath(g.n, RoundsOf(g))) && i < |PathByPath(g.n, RoundsOf(g))|
    ensures !Lands(g, from, turn, PathByPath(g.n, RoundsOf(g)), i)
  {
    hide RoundsOf, PathByPath, Count;
    var r := RoundsOf(g);
    PathByPathComplete(g);
    var t;
    i, t := FirstOf(g.n, r, if turn == 0 then 1 else 0);
    NotInTurn(g.n, r, turn, i);
    Misses(g, from, turn, PathByPath(g.n, r), i);
  }

  /** The first packet of a path misses its place if it meets another buffer. */
  lemma Misses(g: Layout, from: int, turn: nat, run: seq<nat>, i: nat)
    requires WellLaid(g) && turn < g.n && RoundsOf(g) > 1 && Run(g, run) && i < |run|
    requires Count(run[..i], run[i]) == 0 && !(MprudRecovery.TurnAt(turn, i, g.n) == run[i] && Round(g.n, i) == 0)
    ensures !Lands(g, from, turn, run, i)
  {
    hide Run, RoundsOf, Count, Buffers, Packets, Buffer, SendPiece, Place, Round, MprudRecovery.TurnAt;
    RunLength(g, run);
    Arrives(g, run, i);
    BufferAt(g, turn, i);
    PlaceIs(g, from, turn, run[i], 0);
    if Lands(g, from, turn, run, i) {
      OnlyOwnBuffer(g, from, run[i], 0, MprudRecovery.TurnAt(turn, i, g.n), Round(g.n, i));
    }
  }

  /** Where path t begins in that run, for the first two paths. */
  lemma FirstOf(n: nat, r: nat, t: nat) returns (i: nat, u: nat)
    requires t <= 1 < n && r > 1
    ensures u == t && i == t * r < |PathByPath(n, r)|
    ensures PathByPath(n, r)[i] == t && Count(PathByPath(n, r)[..i], t) == 0
  {
    i, u := t * r, t;
    var run := PathByPath(n, r);
    PathByPathPrefix(t + 1, n, r); PathByPathPrefix(t, n, r);
    assert PathByPath(t + 1, r) == PathByPath(t, r) + seq(r, _ => t);
    assert |PathByPath(t, r)| == i by { if t == 1 { assert PathByPath(1, r) == PathByPath(0, r) + seq(r, _ => 0); } }
    assert run[..i] == PathByPath(t, r);
    CountPathByPath(t, r, t);
  }

  lemma NotInTurn(n: nat, r: nat, turn: nat, i: nat)
    requires n > 1 && r > 1 && turn < n && i == if turn == 0 then r else 0
    ensures !(MprudRecovery.TurnAt(turn, i, n) == (if turn == 0 then 1 else 0) && Round(n, i) == 0)
  {
    FloorMod(i, n);
    if turn != 0 { Quotient(turn, n, 0); }
  }

  /** Over all orders of arrival that keep the packets of each path in order, every recovery packet fits its
      buffer and, final pieces aside, lands where it belongs, exactly if one path is left or every path has at
      most one piece. */
  lemma RecoveryAnyOrder(g: Layout, from: int, turn: nat)
    requires WellLaid(g) && turn < g.n
    ensures (forall run, i: nat :: Complete(g, run) && i < |run| ==> Lands(g, from, turn, run, i)) <==>
      g.n == 1 || RoundsOf(g) <= 1
  {
    if g.n == 1 || RoundsOf(g) <= 1 {
      forall run, i: nat | Complete(g, run) && i < |run| ensures Lands(g, from, turn, run, i) {
        OrderedLands(g, from, turn, run, i);
      }
    } else {
      var i := PathByPathMisses(g, from, turn);
    }
  }

  /** These are the packets and buffers of a recovery for which both sides have cut out the same region. */
  lemma RecoveryIsRegion(l: MprudRecovery.Loss, to: int, extra: nat, grh: nat, sub: int, turn: nat)
    requires MprudRecovery.Plausible(l) && turn < l.n - 1 && MprudRecovery.SameRegion(l, to, extra)
    ensures var g, from := Region(l, to, extra, grh, sub), MprudRecovery.Again(l).addr;
      Packets(g, from, turn) == MprudRecovery.Sends(l, turn) && g.addr - to == from - l.addr
  {
  }
}
