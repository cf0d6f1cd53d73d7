/** The other writes to the receive buffer: when a path has completed its last piece, `mprud_inner_poll`
    copies as many bytes as the final piece has from `buf.recv` to an address in the buffer. The copies
    interleave with the arrivals on the other paths. */
module MprudCopy {
  import opened Arith
  import opened MprudSplit
  import opened MprudReceive
  import MprudComplete

  datatype Event = Arrive(path: nat) | Copy(path: nat)

  /** The receive request as it was posted: the length of a datagram includes a GRH. */
  ghost function Posted(g: Layout, datagram: bool): MprudComplete.Request
    requires g.n > 0 && g.mtu > 0
  {
    MprudComplete.Request(g.addr, g.size + if datagram then g.grh else 0, LastOf(g))
  }

  /** The bytes per path as the copy computes them. */
  ghost function Stride(g: Layout, datagram: bool): nat
    requires g.n > 0 && g.mtu > 0
  {
    Posted(g, datagram).length / g.n
  }

  /** The copy of path t, as `MprudComplete` makes it, writes byte x. */
  ghost predicate Copied(g: Layout, datagram: bool, t: nat, x: int)
    requires g.n > 0 && g.mtu > 0
  {
    var c := MprudComplete.FinalCopy(Posted(g, datagram), g.n, t);
    c.to <= x < c.to + c.len
  }

  lemma CopiedIs(g: Layout, datagram: bool, t: nat, x: int)
    requires g.n > 0 && g.mtu > 0
    ensures Copied(g, datagram, t, x) <==>
      g.addr + Stride(g, datagram) * t <= x < g.addr + Stride(g, datagram) * t + LastOf(g)
  {
  }

  /** The arrivals of a run, which are a run of `MprudReceive`. */
  ghost function Arrivals(run: seq<Event>): seq<nat> {
    if run == [] then [] else
      var before, e := run[..|run| - 1], run[|run| - 1];
      if e.Arrive? then Arrivals(before) + [e.path] else Arrivals(before)
  }

  /** The memory after a run. No byte of the message is ever written to `buf.recv`, so what a copy leaves
      behind is foreign. */
  ghost function Outcome(g: Layout, datagram: bool, run: seq<Event>): Memory
    requires g.n > 0 && g.mtu > 0
  {
    if run == [] then x => Stale else
      var before, e := run[..|run| - 1], run[|run| - 1];
      var m := Outcome(g, datagram, before);
      match e
      case Arrive(t) =>
        var j := Count(Arrivals(before), t);
        Land(m, Sent(g, t, j), Buffer(g, t, j), g.grh)
      case Copy(t) => x => if Copied(g, datagram, t, x) then Foreign else m(x)
  }

  /** A path that has pieces copies once, some time after its last piece has arrived. */
  ghost predicate Polled(g: Layout, run: seq<Event>)
    requires g.n > 0 && g.mtu > 0
  {
    Run(g, Arrivals(run)) && forall k :: 0 <= k < |run| && run[k].Copy? ==> CopyAt(g, run, k)
  }

  ghost predicate CopyAt(g: Layout, run: seq<Event>, k: nat)
    requires g.n > 0 && g.mtu > 0 && k < |run|
  {
    run[k].path < g.n && run[k] !in run[..k] && Count(Arrivals(run[..k]), run[k].path) == RoundsOf(g) > 0
  }

  ghost predicate AllPolled(g: Layout, run: seq<Event>)
    requires g.n > 0 && g.mtu > 0
  {
    Polled(g, run) && Complete(g, Arrivals(run)) && (RoundsOf(g) > 0 ==> forall t: nat :: t < g.n ==> Copy(t) in run)
  }

  // ----- when the copies do no harm ------------------------------------------------------

  /** The condition: one path, or no piece but the final ones, or two paths and an upper copy that falls
      exactly where the final piece belongs. */
  ghost predicate Harmless(g: Layout, datagram: bool)
    requires g.n > 0 && g.mtu > 0
  {
    g.n == 1 || RoundsOf(g) <= 1 || (g.n == 2 && Stride(g, datagram) == ChunkOf(g) + g.grh)
  }

  /** How far the two divisions can differ. */
  lemma Strides(g: Layout, datagram: bool)
    requires g.n > 0 && g.mtu > 0 && g.grh > 0
    ensures ChunkOf(g) <= Stride(g, datagram)
    ensures g.n > 1 && Stride(g, datagram) >= ChunkOf(g) + g.grh ==> g.grh == 1 && Stride(g, datagram) == ChunkOf(g) + 1
  {
    var all := Posted(g, datagram).length;
    assert g.size <= all <= g.size + g.grh;
    QuotientOrder(g.size, all, g.n);
    FloorMod(g.size, g.n); FloorMod(all, g.n);
    var s, c := Stride(g, datagram), ChunkOf(g);
    assert g.n * c <= g.size < g.n * c + g.n && g.n * s <= all;
    hide *;
    if g.n > 1 && s >= c + g.grh { StrideGap(g.n, c, s, g.grh); }
  }

  lemma StrideGap(n: nat, c: nat, s: nat, grh: nat)
    requires n > 1 && grh > 0 && s >= c + grh && n * s < n * c + n + grh
    ensures grh == 1 && s == c + 1
  {
    MulOrder(n, c + grh, s);
    assert n * (c + grh) == n * c + n * grh && n * grh == (n - 1) * grh + grh;
    if grh > 1 { MulOrder(n - 1, 2, grh); }
    if s >= c + 2 { MulOrder(n, c + 2, s); }
  }

  lemma HarmlessIsRoomy(g: Layout, datagram: bool)
    requires WellLaid(g) && Harmless(g, datagram)
    ensures Roomy(g)
  {
    Strides(g, datagram);
    Geometry(ChunkOf(g), g.mtu);
  }

  /** Then no copy touches a byte that is not in a final piece. */
  lemma CopiesApart(g: Layout, datagram: bool, t: nat, u: nat, d: nat)
    requires WellLaid(g) && Harmless(g, datagram) && t < g.n && u < g.n && LastOf(g) <= d < ChunkOf(g)
    ensures !Copied(g, datagram, t, g.addr + g.grh + Base(g, u) + d)
  {
    Geometry(ChunkOf(g), g.mtu);
    Bases(g, 0, u);
    assert Base(g, 0) == 0 && Base(g, 1) == ChunkOf(g);
    CopiedIs(g, datagram, t, g.addr + g.grh + Base(g, u) + d);
    hide Copied;
  }

  /** A byte that no copy touches is what the arrivals have made of it. */
  lemma {:induction false} Untouched(g: Layout, datagram: bool, run: seq<Event>, x: int)
    requires g.n > 0 && g.mtu > 0 && forall e :: e in run && e.Copy? ==> !Copied(g, datagram, e.path, x)
    ensures Outcome(g, datagram, run)(x) == After(g, Arrivals(run))(x)
    decreases |run|
  {
    if run != [] {
      var before, e := run[..|run| - 1], run[|run| - 1];
      assert e in run;
      Untouched(g, datagram, before, x);
      if e.Arrive? {
        var arrivals := Arrivals(run);
        assert arrivals[..|arrivals| - 1] == Arrivals(before);
      }
    }
  }

  lemma CopyingPath(g: Layout, run: seq<Event>, e: Event)
    requires g.n > 0 && g.mtu > 0 && Polled(g, run) && e in run && e.Copy?
    ensures e.path < g.n
  {
    var k :| 0 <= k < |run| && run[k] == e;
    assert CopyAt(g, run, k);
  }

  lemma OneUntouched(g: Layout, datagram: bool, run: seq<Event>, t: nat, d: nat)
    requires WellLaid(g) && Harmless(g, datagram) && Polled(g, run) && t < g.n && LastOf(g) <= d < ChunkOf(g)
    requires InPlace(g, After(g, Arrivals(run)), t, d)
    ensures InPlace(g, Outcome(g, datagram, run), t, d)
  {
    hide After, Outcome, Arrivals, ChunkOf, LastOf, Base, Copied, Harmless, Polled;
    var x := g.addr + g.grh + Base(g, t) + d;
    forall e | e in run && e.Copy? ensures !Copied(g, datagram, e.path, x) {
      CopyingPath(g, run, e);
      CopiesApart(g, datagram, e.path, t, d);
    }
    Untouched(g, datagram, run, x);
  }

  lemma HarmlessDelivers(g: Layout, datagram: bool, run: seq<Event>)
    requires WellLaid(g) && Harmless(g, datagram) && AllPolled(g, run)
    ensures Delivered(g, Outcome(g, datagram, run))
  {
    hide After, Outcome, Arrivals, ChunkOf, LastOf, RoundsOf, Harmless, Roomy, InPlace, Polled, Complete;
    HarmlessIsRoomy(g, datagram);
    AllDelivered(g, Arrivals(run));
    forall t: nat, d: nat | t < g.n && LastOf(g) <= d < ChunkOf(g)
      ensures InPlace(g, Outcome(g, datagram, run), t, d)
    {
      assert InPlace(g, After(g, Arrivals(run)), t, d);
      OneUntouched(g, datagram, run, t, d);
    }
  }

  // ----- and when they do -----------------------------------------------------------------

  /** A byte behind a final piece that a copy overwrites. */
  lemma CopyHits(g: Layout, datagram: bool) returns (t: nat, u: nat, d: nat)
    requires WellLaid(g) && !Harmless(g, datagram)
    ensures t < g.n && u < g.n && LastOf(g) <= d < ChunkOf(g)
    ensures Copied(g, datagram, t, g.addr + g.grh + Base(g, u) + d)
  {
    Strides(g, datagram);
    LongChunk(g);
    assert Base(g, 0) == 0 && Base(g, 2) == ChunkOf(g) + ChunkOf(g);
    var s, c := Stride(g, datagram), ChunkOf(g);
    hide Stride, ChunkOf, RoundsOf, LastOf, Base, Copied;
    if s < c + g.grh {
      t, u, d := 1, 0, s - g.grh;
    } else {
      t, u, d := 2, 2, LastOf(g);
    }
    CopiedIs(g, datagram, t, g.addr + g.grh + Base(g, u) + d);
  }

  lemma LongChunk(g: Layout)
    requires g.n > 0 && g.mtu > 0 && RoundsOf(g) > 1
    ensures 0 < LastOf(g) <= g.mtu && ChunkOf(g) >= g.mtu + LastOf(g)
  {
    Geometry(ChunkOf(g), g.mtu);
    MulOrder(g.mtu, 1, RoundsOf(g) - 1);
  }

  ghost function Copies(k: nat): seq<Event> {
    if k == 0 then [] else Copies(k - 1) + [Copy(k - 1)]
  }

  ghost function Arriving(paths: seq<nat>): seq<Event> {
    if paths == [] then [] else Arriving(paths[..|paths| - 1]) + [Arrive(paths[|paths| - 1])]
  }

  /** Copies that come last leave their bytes foreign. */
  lemma {:induction false} CopiedLast(g: Layout, datagram: bool, s: seq<Event>, k: nat, t: nat, x: int)
    requires g.n > 0 && g.mtu > 0 && t < k && Copied(g, datagram, t, x)
    ensures Outcome(g, datagram, s + Copies(k))(x) == Foreign
    decreases k
  {
    hide Copied, Arrivals, Land, Count;
    var run := s + Copies(k);
    assert run[..|run| - 1] == s + Copies(k - 1);
    if t < k - 1 { CopiedLast(g, datagram, s, k - 1, t, x); }
  }

  lemma {:induction false} OnlyArrivals(paths: seq<nat>)
    ensures Arrivals(Arriving(paths)) == paths && forall l :: 0 <= l < |Arriving(paths)| ==> Arriving(paths)[l].Arrive?
    decreases |paths|
  {
    if paths != [] {
      var s := Arriving(paths);
      OnlyArrivals(paths[..|paths| - 1]);
      assert s[..|s| - 1] == Arriving(paths[..|paths| - 1]);
    }
  }

  lemma {:induction false} CopiesAre(k: nat)
    ensures |Copies(k)| == k && forall i :: 0 <= i < k ==> Copies(k)[i] == Copy(i)
  {
    if k > 0 { CopiesAre(k - 1); }
  }

  lemma {:induction false} CopiesPrefix(i: nat, k: nat)
    requires i <= k
    ensures |Copies(k)| == k && Copies(k)[..i] == Copies(i)
    decreases k
  {
    CopiesAre(k); CopiesAre(i);
    hide Copies;
  }

  lemma {:induction false} OnlyCopies(s: seq<Event>, k: nat)
    ensures Arrivals(s + Copies(k)) == Arrivals(s)
    decreases k
  {
    var run := s + Copies(k);
    if k == 0 {
      assert run == s;
    } else {
      assert run[..|run| - 1] == s + Copies(k - 1);
      OnlyCopies(s, k - 1);
    }
  }

  /** All arrivals, one path after the other, and then all copies. */
  ghost function CopiesAtTheEnd(g: Layout): seq<Event>
    requires g.n > 0 && g.mtu > 0
  {
    Arriving(PathByPath(g.n, RoundsOf(g))) + Copies(g.n)
  }

  lemma CopyAtTheEnd(g: Layout, s: seq<Event>, k: nat)
    requires g.n > 0 && g.mtu > 0 && RoundsOf(g) > 0 && Complete(g, Arrivals(s))
    requires (forall l :: 0 <= l < |s| ==> s[l].Arrive?) && k < |s + Copies(g.n)| && (s + Copies(g.n))[k].Copy?
    ensures CopyAt(g, s + Copies(g.n), k)
  {
    var i := k - |s|;
    CopiesAre(g.n); CopiesPrefix(i, g.n); CopiesAre(i);
    OnlyCopies(s, i);
    hide Arrivals, Copies, RoundsOf, Count;
    assert (s + Copies(g.n))[..k] == s + Copies(i);
  }

  lemma CopiesAtTheEndPolled(g: Layout)
    requires g.n > 0 && g.mtu > 0 && RoundsOf(g) > 0
    ensures AllPolled(g, CopiesAtTheEnd(g))
  {
    var paths := PathByPath(g.n, RoundsOf(g));
    var s, run := Arriving(paths), CopiesAtTheEnd(g);
    PathByPathComplete(g);
    OnlyArrivals(paths);
    OnlyCopies(s, g.n);
    CopiesAre(g.n);
    hide Arrivals, Arriving, Copies, PathByPath, RoundsOf, Count, CopyAt;
    forall k | 0 <= k < |run| && run[k].Copy? ensures CopyAt(g, run, k) { CopyAtTheEnd(g, s, k); }
    hide CopiesAtTheEnd;
    forall t: nat | t < g.n ensures Copy(t) in run { assert run[|s| + t] == Copy(t); }
  }

  lemma CopiesSpoil(g: Layout, datagram: bool)
    requires WellLaid(g) && !Harmless(g, datagram)
    ensures AllPolled(g, CopiesAtTheEnd(g)) && !Delivered(g, Outcome(g, datagram, CopiesAtTheEnd(g)))
  {
    assert RoundsOf(g) > 0;
    hide *;
    var t, u, d := CopyHits(g, datagram);
    CopiesAtTheEndPolled(g);
    SpoiltByte(g, datagram, t, u, d);
  }

  lemma SpoiltByte(g: Layout, datagram: bool, t: nat, u: nat, d: nat)
    requires WellLaid(g) && t < g.n && u < g.n && LastOf(g) <= d < ChunkOf(g)
    requires Copied(g, datagram, t, g.addr + g.grh + Base(g, u) + d)
    ensures !Delivered(g, Outcome(g, datagram, CopiesAtTheEnd(g)))
  {
    hide Outcome, ChunkOf, LastOf, RoundsOf, Base, Copied, Arriving, PathByPath, Copies;
    CopiedLast(g, datagram, Arriving(PathByPath(g.n, RoundsOf(g))), g.n, t, g.addr + g.grh + Base(g, u) + d);
    assert !InPlace(g, Outcome(g, datagram, CopiesAtTheEnd(g)), u, d);
  }

  /** With the copies, the message is in place on every run, apart from the final pieces, exactly if they do
      no harm; for a GRH of more than one byte that means one path or one piece per path. */
  lemma ReceiveWithCopies(g: Layout, datagram: bool)
    requires WellLaid(g)
    ensures (forall run :: AllPolled(g, run) ==> Delivered(g, Outcome(g, datagram, run))) <==> Harmless(g, datagram)
    ensures g.grh > 1 ==> (Harmless(g, datagram) <==> g.n == 1 || RoundsOf(g) <= 1)
  {
    Strides(g, datagram);
    if Harmless(g, datagram) {
      forall run | AllPolled(g, run) ensures Delivered(g, Outcome(g, datagram, run)) {
        HarmlessDelivers(g, datagram, run);
      }
    } else {
      CopiesSpoil(g, datagram);
    }
  }

  // ----- the final pieces -----------------------------------------------------------------

  /** At no moment of any run is a byte of a final piece anywhere but in the side buffer. */
  lemma {:induction false} FinalPiecesStayAside(g: Layout, datagram: bool, run: seq<Event>, t: nat, d: nat, x: int)
    requires WellLaid(g) && Run(g, Arrivals(run)) && t < g.n && d < LastOf(g) && ChunkOf(g) > 0
    requires Outcome(g, datagram, run)(x) == Payload(Base(g, t) + d)
    ensures g.sub <= x
    decreases |run|
  {
    var before, e := run[..|run| - 1], run[|run| - 1];
    if e.Arrive? {
      var arrivals := Arrivals(run);
      assert arrivals[..|arrivals| - 1] == Arrivals(before);
      RunPrefix(g, arrivals);
      var j := Count(Arrivals(before), e.path);
      hide Arrivals, Count, Run, Sent, Buffer, RoundsOf;
      if InPayload(g, e.path, j, x) {
        CarriesFinal(g, e.path, j, t, d, x);
      } else {
        assert Outcome(g, datagram, before)(x) == Payload(Base(g, t) + d);
        FinalPiecesStayAside(g, datagram, before, t, d, x);
      }
    } else {
      FinalPiecesStayAside(g, datagram, before, t, d, x);
    }
  }

  /** Only a final piece carries a byte of a final piece. */
  lemma CarriesFinal(g: Layout, u: nat, j: nat, t: nat, d: nat, x: int)
    requires WellLaid(g) && u < g.n && j < RoundsOf(g) && t < g.n && d < LastOf(g) && ChunkOf(g) > 0
    requires InPayload(g, u, j, x) && Sent(g, u, j).addr + (x - Buffer(g, u, j).addr - g.grh) == Base(g, t) + d
    ensures g.sub <= x
  {
    Buffers(g, u, j);
    Geometry(ChunkOf(g), g.mtu);
    Bases(g, t, u); Bases(g, u, t);
    var r := RoundsOf(g);
    MulOrder(g.mtu, 0, j);
    MulOrder(g.mtu + g.grh, 0, u);
    if j + 1 < r { MulOrder(g.mtu, 0, r - 2 - j); }
  }
}
