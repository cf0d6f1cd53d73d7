/** What the network writes when mprud.c receives a message in place: the pieces of a path are sent from the
    upper end of its chunk downwards, so the GRH that arrives with a piece falls where the next piece of the
    same path belongs. Packets of one path arrive in posting order; the paths interleave in any way. */
module MprudReceive {
  import opened Arith
  import opened MprudSplit

  /** The receiver's buffer starts at addr; final pieces go to the side buffer at sub. */
  datatype Layout = Layout(addr: int, size: nat, n: nat, mtu: nat, grh: nat, sub: int)

  ghost function ChunkOf(g: Layout): nat
    requires g.n > 0
  {
    Chunk(g.size, g.n)
  }

  ghost function RoundsOf(g: Layout): nat
    requires g.n > 0 && g.mtu > 0
  {
    Rounds(ChunkOf(g), g.mtu)
  }

  ghost function LastOf(g: Layout): nat
    requires g.n > 0 && g.mtu > 0
  {
    LastLen(ChunkOf(g), g.mtu)
  }

  /** The first byte of chunk t, relative to the message. */
  ghost function Base(g: Layout, t: nat): nat
    requires g.n > 0
  {
    ChunkOf(g) * t
  }

  ghost predicate WellLaid(g: Layout) {
    g.n > 0 && g.mtu >= g.grh > 0 && g.addr + Base(g, g.n) + g.grh <= g.sub - g.grh
  }

  /** The side buffer lies one GRH behind the region that the application asked to register
      (`__ibv_reg_mr` adds exactly the space that `mprud_set_outer_buffer` takes off again), so every
      receive request inside that region is well laid. */
  lemma SideBufferIsApart(g: Layout, base: int, region: nat, paths: nat, sendBuf: nat, recvBuf: nat)
    requires g.n > 0 && g.mtu >= g.grh > 0
    requires base <= g.addr && g.addr + g.size + g.grh <= base + region
    requires var total := region + g.grh + (g.grh + g.mtu) * (paths + 1) + sendBuf + recvBuf;
      g.sub == base + total - recvBuf - sendBuf - (g.mtu + g.grh) - (g.mtu + g.grh) * paths
    ensures WellLaid(g)
  {
    Cancel(g.grh + g.mtu, paths, paths);
    FloorMod(g.size, g.n);
    assert Base(g, g.n) == g.n * (g.size / g.n);
  }

  // ----- memory ------------------------------------------------------------------------

  /** What a byte of the receiver's memory holds: Payload(o) is byte o of the message, and Foreign is a
      byte that was copied from another buffer. */
  datatype Byte = Stale | Header | Payload(offset: int) | Foreign

  type Memory = int -> Byte

  ghost function Sent(g: Layout, t: nat, j: nat): Piece
    requires g.n > 0 && g.mtu > 0
  {
    SendPiece(0, g.size, g.n, g.mtu, t, j)
  }

  ghost function Buffer(g: Layout, t: nat, j: nat): Piece
    requires g.n > 0 && g.mtu > 0
  {
    RecvPiece(g.addr, g.size, g.n, g.mtu, g.grh, g.sub, t, j)
  }

  /** A datagram p arrives in buffer b: a GRH, then the payload. */
  ghost function Land(m: Memory, p: Piece, b: Piece, grh: nat): Memory {
    x => if b.addr <= x < b.addr + grh then Header
         else if b.addr + grh <= x < b.addr + grh + p.len then Payload(p.addr + (x - b.addr - grh))
         else m(x)
  }

  /** How often path t occurs in a run; a run lists the paths in the order of the arrivals. */
  ghost function Count(run: seq<nat>, t: nat): nat {
    if run == [] then 0 else Count(run[..|run| - 1], t) + if run[|run| - 1] == t then 1 else 0
  }

  /** The memory after a run: the k-th arrival on a path is the k-th packet sent on it and goes to the
      k-th buffer posted for it. */
  ghost function After(g: Layout, run: seq<nat>): Memory
    requires g.n > 0 && g.mtu > 0
  {
    if run == [] then x => Stale else
      var before, t := run[..|run| - 1], run[|run| - 1];
      var j := Count(before, t);
      Land(After(g, before), Sent(g, t, j), Buffer(g, t, j), g.grh)
  }

  /** A run of one message, not necessarily finished. */
  ghost predicate Run(g: Layout, run: seq<nat>)
    requires g.n > 0 && g.mtu > 0
  {
    (forall k :: 0 <= k < |run| ==> run[k] < g.n) && (forall t :: 0 <= t < g.n ==> Count(run, t) <= RoundsOf(g))
  }

  ghost predicate Complete(g: Layout, run: seq<nat>)
    requires g.n > 0 && g.mtu > 0
  {
    Run(g, run) && forall t :: 0 <= t < g.n ==> Count(run, t) == RoundsOf(g)
  }

  /** The payload of piece j of path t is where its buffer wanted it. */
  ghost predicate Intact(g: Layout, m: Memory, t: nat, j: nat)
    requires g.n > 0 && g.mtu > 0
  {
    forall x :: InPayload(g, t, j, x) ==> m(x) == Payload(Sent(g, t, j).addr + (x - Buffer(g, t, j).addr - g.grh))
  }

  ghost predicate InPayload(g: Layout, t: nat, j: nat, x: int)
    requires g.n > 0 && g.mtu > 0
  {
    Buffer(g, t, j).addr + g.grh <= x < Buffer(g, t, j).addr + g.grh + Sent(g, t, j).len
  }

  /** Every byte of the message, apart from the final piece of each chunk, is at its offset behind the GRH. */
  ghost predicate Delivered(g: Layout, m: Memory)
    requires g.n > 0 && g.mtu > 0
  {
    forall t: nat, d: nat :: t < g.n && LastOf(g) <= d < ChunkOf(g) ==> InPlace(g, m, t, d)
  }

  ghost predicate InPlace(g: Layout, m: Memory, t: nat, d: nat)
    requires g.n > 0
  {
    m(g.addr + g.grh + Base(g, t) + d) == Payload(Base(g, t) + d)
  }

  /** The condition: a GRH at the lower end of a chunk does not reach into the chunk below. */
  ghost predicate Roomy(g: Layout)
    requires g.n > 0 && g.mtu > 0
  {
    g.n == 1 || RoundsOf(g) <= 1 || LastOf(g) >= g.grh
  }

  // ----- where the buffers lie ---------------------------------------------------------

  lemma Buffers(g: Layout, t: nat, j: nat)
    requires WellLaid(g) && t < g.n && j < RoundsOf(g)
    ensures var b, p := Buffer(g, t, j), Sent(g, t, j);
      b.len == g.grh + p.len && 0 < p.len <= g.mtu &&
      (if j + 1 == RoundsOf(g)
       then g.sub + (g.mtu + g.grh) * t - g.grh == b.addr && p.len == LastOf(g)
       else p.len == g.mtu && b.addr + g.mtu == g.addr + Base(g, t + 1) - g.mtu * j && p.addr == b.addr - g.addr &&
            g.addr + Base(g, t) + LastOf(g) + g.mtu * (RoundsOf(g) - 2 - j) == b.addr)
  {
    Geometry(ChunkOf(g), g.mtu);
    if ChunkOf(g) > 0 { Cancel(ChunkOf(g), t, t); }
    Cancel(g.mtu, j, j);
    var r := RoundsOf(g);
    if j + 1 < r {
      assert g.mtu * (r - 2 - j) + g.mtu * (j + 1) == g.mtu * (r - 1);
    }
  }

  lemma Bases(g: Layout, t: nat, u: nat)
    requires g.n > 0
    ensures Base(g, t + 1) == Base(g, t) + ChunkOf(g)
    ensures t < u ==> Base(g, t + 1) <= Base(g, u)
  {
    if ChunkOf(g) > 0 { Cancel(ChunkOf(g), t, t); }
    if t < u { MulOrder(ChunkOf(g), t + 1, u); }
  }

  /** A piece that arrives later leaves the payload of one that has arrived alone. */
  lemma Apart(g: Layout, t: nat, j: nat, u: nat, i: nat, x: int)
    requires WellLaid(g) && t < g.n && u < g.n && j < RoundsOf(g) && i < RoundsOf(g)
    requires t == u ==> i < j
    requires Roomy(g) || (i + 1 < RoundsOf(g) ==> t <= u)
    requires InPayload(g, u, i, x)
    ensures !(Buffer(g, t, j).addr <= x < Buffer(g, t, j).addr + g.grh + Sent(g, t, j).len)
  {
    Buffers(g, t, j); Buffers(g, u, i);
    Bases(g, t, u); Bases(g, u, t); Bases(g, t, g.n); Bases(g, u, g.n);
    var r := RoundsOf(g);
    MulOrder(g.mtu, 0, j); MulOrder(g.mtu, 0, i);
    if i < j { MulOrder(g.mtu, i + 1, j); Cancel(g.mtu, i, i); }
    if j + 1 < r { MulOrder(g.mtu, 0, r - 2 - j); }
    if i + 1 < r { MulOrder(g.mtu, 0, r - 2 - i); }
    var slot := g.mtu + g.grh;
    MulOrder(slot, 0, t); MulOrder(slot, 0, u);
    if t < u { MulOrder(slot, t + 1, u); Cancel(slot, t, t); }
    if u < t { MulOrder(slot, u + 1, t); Cancel(slot, u, u); }
    hide Base, Sent, Buffer, RoundsOf, ChunkOf, LastOf;
  }

  // ----- every run ---------------------------------------------------------------------

  lemma RunPrefix(g: Layout, run: seq<nat>)
    requires g.n > 0 && g.mtu > 0 && Run(g, run) && run != []
    ensures var before, t := run[..|run| - 1], run[|run| - 1];
      Run(g, before) && t < g.n && Count(before, t) < RoundsOf(g)
  {
    var before := run[..|run| - 1];
    forall t | 0 <= t < g.n ensures Count(before, t) <= RoundsOf(g) {
      assert Count(before, t) <= Count(run, t);
    }
    assert Count(run, run[|run| - 1]) <= RoundsOf(g);
  }

  /** At every moment of every run, every piece that has arrived is still intact. */
  lemma {:induction false} ArrivedStaysIntact(g: Layout, run: seq<nat>, u: nat, i: nat)
    requires WellLaid(g) && Roomy(g) && Run(g, run) && u < g.n && i < Count(run, u)
    ensures Intact(g, After(g, run), u, i)
    decreases |run|
  {
    var before, t := run[..|run| - 1], run[|run| - 1];
    var j := Count(before, t);
    RunPrefix(g, run);
    if u != t || i < j {
      ArrivedStaysIntact(g, before, u, i);
      hide Run, Count, Sent, Buffer, Roomy, WellLaid, RoundsOf;
      forall x | InPayload(g, u, i, x)
        ensures After(g, run)(x) == Payload(Sent(g, u, i).addr + (x - Buffer(g, u, i).addr - g.grh))
      {
        Apart(g, t, j, u, i, x);
      }
    }
  }

  /** The piece that carries byte d of chunk t, and the place of that byte in its buffer. */
  lemma Carrier(g: Layout, t: nat, d: nat) returns (j: nat)
    requires WellLaid(g) && t < g.n && LastOf(g) <= d < ChunkOf(g)
    ensures j + 1 < RoundsOf(g) && InPayload(g, t, j, g.addr + g.grh + Base(g, t) + d)
    ensures Buffer(g, t, j).addr == g.addr + Sent(g, t, j).addr
  {
    var below := ChunkOf(g) - 1 - d;
    j := below / g.mtu;
    FloorMod(below, g.mtu);
    Geometry(ChunkOf(g), g.mtu);
    Cancel(g.mtu, j, RoundsOf(g) - 1);
    Cancel(g.mtu, j, j);
    Bases(g, t, t);
    Buffers(g, t, j);
  }

  lemma OneDelivered(g: Layout, run: seq<nat>, t: nat, d: nat)
    requires WellLaid(g) && Roomy(g) && Complete(g, run) && t < g.n && LastOf(g) <= d < ChunkOf(g)
    ensures InPlace(g, After(g, run), t, d)
  {
    assert Count(run, t) == RoundsOf(g);
    hide RoundsOf, Count, Run, After, LastOf, ChunkOf, Roomy, Sent, Buffer, Base;
    var j := Carrier(g, t, d);
    ArrivedStaysIntact(g, run, t, j);
    assert InPayload(g, t, j, g.addr + g.grh + Base(g, t) + d);
  }

  lemma AllDelivered(g: Layout, run: seq<nat>)
    requires WellLaid(g) && Roomy(g) && Complete(g, run)
    ensures Delivered(g, After(g, run))
  {
    hide RoundsOf, Run, After, LastOf, ChunkOf, Roomy, InPlace, Complete;
    forall t: nat, d: nat | t < g.n && LastOf(g) <= d < ChunkOf(g)
      ensures InPlace(g, After(g, run), t, d)
    {
      OneDelivered(g, run, t, d);
    }
  }

  // ----- and the runs that go wrong otherwise -------------------------------------------

  /** The byte behind the final piece of chunk t, seen from the receive buffer. */
  ghost function Seam(g: Layout, t: nat): int
    requires g.n > 0 && g.mtu > 0
  {
    g.addr + Base(g, t) + LastOf(g)
  }

  /** The seam of chunk t is a header from the moment the last but one piece of path t arrives after the
      first piece of path t - 1. */
  lemma {:induction false} SeamSpoilt(g: Layout, run: seq<nat>, t: nat, k: nat)
    requires WellLaid(g) && !Roomy(g) && Run(g, run) && 0 < t < g.n && k < |run|
    requires run[k] == t && Count(run[..k], t) == RoundsOf(g) - 2 && Count(run[..k], t - 1) > 0
    ensures After(g, run)(Seam(g, t)) == Header
    ensures Count(run, t) >= RoundsOf(g) - 1 && Count(run, t - 1) > 0
    decreases |run|
  {
    var before, u := run[..|run| - 1], run[|run| - 1];
    RunPrefix(g, run);
    if k + 1 < |run| {
      assert before[..k] == run[..k];
      SeamSpoilt(g, before, t, k);
      hide Run, Roomy, RoundsOf, Sent, Buffer, Seam, WellLaid;
      SeamApart(g, t, u, Count(before, u));
    } else {
      assert before == run[..k];
      hide Run, Roomy, RoundsOf, Sent, Buffer, Seam, WellLaid;
      SeamHit(g, t);
    }
  }

  /** The GRH of the last but one piece of path t covers the seam. */
  lemma SeamHit(g: Layout, t: nat)
    requires WellLaid(g) && !Roomy(g) && 0 < t < g.n
    ensures var b := Buffer(g, t, RoundsOf(g) - 2); b.addr <= Seam(g, t) < b.addr + g.grh
  {
    Buffers(g, t, RoundsOf(g) - 2);
  }

  /** Only the first piece of path t - 1 and the last but one of path t touch the seam of chunk t. */
  lemma SeamApart(g: Layout, t: nat, u: nat, j: nat)
    requires WellLaid(g) && !Roomy(g) && 0 < t < g.n && u < g.n && j < RoundsOf(g)
    requires (u == t ==> j >= RoundsOf(g) - 1) && (u == t - 1 ==> j > 0)
    ensures !(Buffer(g, u, j).addr <= Seam(g, t) < Buffer(g, u, j).addr + g.grh + Sent(g, u, j).len)
  {
    Buffers(g, u, j);
    Bases(g, t, u); Bases(g, u, t); Bases(g, t, g.n); Bases(g, t - 1, u); Bases(g, u, t - 1);
    Geometry(ChunkOf(g), g.mtu);
    var r := RoundsOf(g);
    MulOrder(g.mtu, 0, j);
    if 0 < j { MulOrder(g.mtu, 1, j); }
    if j + 1 < r { MulOrder(g.mtu, 0, r - 2 - j); }
    MulOrder(g.mtu, 1, r - 1);
    MulOrder(g.mtu + g.grh, 0, u);
    hide Base, Sent, Buffer, RoundsOf, ChunkOf, LastOf;
  }

  /** One path after the other. */
  ghost function PathByPath(k: nat, rounds: nat): seq<nat> {
    if k == 0 then [] else PathByPath(k - 1, rounds) + seq(rounds, _ => k - 1)
  }

  lemma {:induction false} CountAppend(s: seq<nat>, c: nat, u: nat, t: nat)
    ensures Count(s + seq(c, _ => u), t) == Count(s, t) + if t == u then c else 0
    decreases c
  {
    var run := s + seq(c, _ => u);
    if c == 0 {
      assert run == s;
    } else {
      assert run[..|run| - 1] == s + seq(c - 1, _ => u);
      CountAppend(s, c - 1, u, t);
    }
  }

  lemma {:induction false} CountPathByPath(k: nat, rounds: nat, t: nat)
    ensures Count(PathByPath(k, rounds), t) == if t < k then rounds else 0
    ensures forall i :: 0 <= i < |PathByPath(k, rounds)| ==> PathByPath(k, rounds)[i] < k
    decreases k
  {
    if k > 0 {
      CountPathByPath(k - 1, rounds, t);
      CountAppend(PathByPath(k - 1, rounds), rounds, k - 1, t);
    }
  }

  lemma {:induction false} PathByPathPrefix(k: nat, l: nat, rounds: nat)
    requires k <= l
    ensures PathByPath(k, rounds) <= PathByPath(l, rounds)
    decreases l
  {
    if k < l { PathByPathPrefix(k, l - 1, rounds); }
  }

  lemma PathByPathComplete(g: Layout)
    requires g.n > 0 && g.mtu > 0
    ensures Complete(g, PathByPath(g.n, RoundsOf(g)))
  {
    var r := RoundsOf(g);
    hide RoundsOf, PathByPath, Count;
    forall t: nat ensures Count(PathByPath(g.n, r), t) == if t < g.n then r else 0 { CountPathByPath(g.n, r, t); }
    CountPathByPath(g.n, r, 0);
  }

  /** In that run the last but one piece of path 1 arrives when path 0 is done. */
  lemma PathByPathOrder(n: nat, r: nat) returns (k: nat)
    requires 1 < n && 1 < r
    ensures var run := PathByPath(n, r);
      k < |run| && run[k] == 1 && Count(run[..k], 1) == r - 2 && Count(run[..k], 0) == r
  {
    var run, p := PathByPath(n, r), PathByPath(1, r);
    k := |p| + r - 2;
    PathByPathPrefix(2, n, r);
    assert PathByPath(2, r) == p + seq(r, _ => 1);
    hide PathByPath, Count;
    assert run[..k] == p + seq(r - 2, _ => 1);
    CountPathByPath(1, r, 0); CountPathByPath(1, r, 1);
    CountAppend(p, r - 2, 1, 0); CountAppend(p, r - 2, 1, 1);
  }

  /** The seam of chunk 1 holds a byte of chunk 0 that is not in its final piece. */
  lemma SeamByte(g: Layout) returns (d: nat)
    requires WellLaid(g) && !Roomy(g)
    ensures LastOf(g) <= d < ChunkOf(g) && Seam(g, 1) == g.addr + g.grh + Base(g, 0) + d
  {
    Geometry(ChunkOf(g), g.mtu);
    MulOrder(g.mtu, 1, RoundsOf(g) - 1);
    Bases(g, 0, 1);
    d := ChunkOf(g) + LastOf(g) - g.grh;
  }

  lemma PathByPathSpoils(g: Layout)
    requires WellLaid(g) && !Roomy(g)
    ensures Complete(g, PathByPath(g.n, RoundsOf(g))) && !Delivered(g, After(g, PathByPath(g.n, RoundsOf(g))))
  {
    hide PathByPath, Count, RoundsOf, ChunkOf, LastOf, Base, Seam, After;
    var r := RoundsOf(g);
    var d := SeamByte(g);
    PathByPathComplete(g);
    var k := PathByPathOrder(g.n, r);
    SeamSpoilt(g, PathByPath(g.n, r), 1, k);
    assert !InPlace(g, After(g, PathByPath(g.n, r)), 0, d);
  }

  /** As far as the network's writes go, the message is received in place on every interleaving of the
      paths exactly if there is only one path, or no piece but the final ones, or the final pieces are at
      least as long as a GRH. The writes of the receiver itself are in `MprudCopy`. */
  lemma InPlaceReceive(g: Layout)
    requires WellLaid(g)
    ensures (forall run :: Complete(g, run) ==> Delivered(g, After(g, run))) <==> Roomy(g)
  {
    if Roomy(g) {
      forall run | Complete(g, run) ensures Delivered(g, After(g, run)) { AllDelivered(g, run); }
    } else {
      PathByPathSpoils(g);
    }
  }
}
