/** The huge-page buffers of buf.c: chunks of shared memory segments, each with a bitmap of its chunks. */
module HugeBuf {
  import opened Arith
  import opened BitWords
  import opened Bitmap
  import opened Sequences

  // MLX4_Q_CHUNK_SIZE is 32768 and MLX4_SHM_LENGTH 2097152.

  // ----- what the segments stand for ---------------------------------------------------

  /** A segment as its users see it: where it lies, and which runs of its chunks are buffers. */
  datatype Holding = Holding(addr: nat, chunks: nat, live: Ledger)

  /** Address x lies in the cnt chunks from chunk s on. */
  ghost predicate Within(h: Holding, s: nat, cnt: nat, x: int) {
    h.addr + 32768 * s <= x < h.addr + 32768 * (s + cnt)
  }

  ghost predicate Holds(h: Holding, x: int) {
    exists s :: s in h.live && Within(h, s, h.live[s], x)
  }

  /** Address x belongs to a live buffer. */
  ghost predicate Live(book: seq<Holding>, x: int) {
    exists i :: 0 <= i < |book| && Holds(book[i], x)
  }

  /** The buffers of a segment lie inside it and do not overlap. */
  ghost predicate Sound(h: Holding) {
    (forall s :: s in h.live ==> h.live[s] > 0 && s + h.live[s] <= h.chunks) &&
    (forall s, t :: s in h.live && t in h.live && s < t ==> s + h.live[s] <= t)
  }

  ghost predicate Apart(g: Holding, h: Holding) {
    g.addr + 32768 * g.chunks <= h.addr || h.addr + 32768 * h.chunks <= g.addr
  }

  /** Segments do not overlap, and each of them holds a buffer. */
  ghost predicate Laid(book: seq<Holding>) {
    (forall i :: 0 <= i < |book| ==> Sound(book[i])) &&
    (forall i, j :: 0 <= i < j < |book| ==> Apart(book[i], book[j]))
  }

  ghost predicate Busy(book: seq<Holding>) {
    forall i :: 0 <= i < |book| ==> book[i].live != map[]
  }

  /** From book to now, exactly the addresses lo .. hi - 1 have come into use; none was in use before. */
  ghost predicate Gained(book: seq<Holding>, now: seq<Holding>, lo: int, hi: int) {
    forall x :: (lo <= x < hi ==> !Live(book, x)) && (Live(now, x) <==> Live(book, x) || lo <= x < hi)
  }

  lemma HoldsInside(h: Holding, x: int)
    requires Sound(h) && Holds(h, x)
    ensures h.addr <= x < h.addr + 32768 * h.chunks
  {
  }

  /** Two segments of the book hold no common address. */
  lemma OneSegment(book: seq<Holding>, i: nat, j: nat, x: int)
    requires Laid(book) && i < |book| && j < |book| && Holds(book[i], x)
    requires book[j].addr <= x < book[j].addr + 32768 * book[j].chunks
    ensures i == j
  {
    assert i < j ==> Apart(book[i], book[j]);
    assert j < i ==> Apart(book[j], book[i]);
    HoldsInside(book[i], x);
  }

  /** The books differ by one run of chunks of segment i. */
  ghost predicate OneRun(less: seq<Holding>, more: seq<Holding>, i: nat, base: nat, cnt: nat) {
    i < |less| && base !in less[i].live && more == less[i := less[i].(live := Enter(less[i].live, base, cnt))]
  }

  /** Two runs of a segment hold no common address. */
  lemma RunsApart(h: Holding, s: nat, t: nat, x: int)
    requires Sound(h) && s in h.live && t in h.live && s != t && Within(h, s, h.live[s], x)
    ensures !Within(h, t, h.live[t], x)
  {
  }

  /** No address of the run was in use. */
  lemma RunFresh(less: seq<Holding>, more: seq<Holding>, i: nat, base: nat, cnt: nat, x: int)
    requires Laid(less) && Laid(more) && OneRun(less, more, i, base, cnt) && Live(less, x)
    ensures !Within(less[i], base, cnt, x)
  {
    var h, g := less[i], more[i];
    assert base in g.live && g.live[base] == cnt && Sound(g) && Sound(h);
    var j :| 0 <= j < |less| && Holds(less[j], x);
    if j == i {
      var s :| s in h.live && Within(h, s, h.live[s], x);
      RunsApart(g, s, base, x);
    } else if Within(h, base, cnt, x) {
      OneSegment(less, j, i, x);
    }
  }

  lemma RunLive(less: seq<Holding>, more: seq<Holding>, i: nat, base: nat, cnt: nat, x: int)
    requires OneRun(less, more, i, base, cnt)
    ensures Live(more, x) <==> Live(less, x) || Within(less[i], base, cnt, x)
  {
    var h, g := less[i], more[i];
    if Live(less, x) {
      var j :| 0 <= j < |less| && Holds(less[j], x);
      if j == i {
        var s :| s in h.live && Within(h, s, h.live[s], x);
        assert s in g.live && Within(g, s, g.live[s], x);
      }
      assert Holds(more[j], x);
    }
    if Within(h, base, cnt, x) { assert Within(g, base, g.live[base], x); assert Holds(more[i], x); }
    if Live(more, x) && !Within(h, base, cnt, x) {
      var j :| 0 <= j < |more| && Holds(more[j], x);
      if j == i {
        var s :| s in g.live && Within(g, s, g.live[s], x);
        assert s != base && Within(h, s, h.live[s], x);
      }
      assert Holds(less[j], x);
    }
  }

  /** Handing out that run puts exactly its addresses to use; taking it back is the reverse. */
  lemma RunGained(less: seq<Holding>, more: seq<Holding>, i: nat, base: nat, cnt: nat)
    requires Laid(less) && Laid(more) && OneRun(less, more, i, base, cnt)
    ensures var lo := less[i].addr + 32768 * base;
      Gained(less, more, lo, lo + 32768 * cnt) &&
      less[i].addr <= lo && lo + 32768 * cnt <= less[i].addr + 32768 * less[i].chunks
  {
    var lo := less[i].addr + 32768 * base;
    assert base in more[i].live && more[i].live[base] == cnt && Sound(more[i]);
    hide Live, Laid;
    forall x
      ensures lo <= x < lo + 32768 * cnt ==> !Live(less, x)
      ensures Live(more, x) <==> Live(less, x) || lo <= x < lo + 32768 * cnt
    {
      if Live(less, x) { RunFresh(less, more, i, base, cnt, x); }
      RunLive(less, more, i, base, cnt, x);
    }
  }

  /** A segment without buffers may come and go. */
  lemma EmptySegment(book: seq<Holding>, i: nat)
    requires i < |book| && book[i].live == map[]
    ensures forall x :: Live(Without(book, i), x) <==> Live(book, x)
  {
    var rest := Without(book, i);
    forall x ensures Live(rest, x) <==> Live(book, x) {
      if Live(book, x) {
        var j :| 0 <= j < |book| && Holds(book[j], x);
        assert Holds(rest[if j < i then j else j - 1], x);
      }
      if Live(rest, x) {
        var j :| 0 <= j < |rest| && Holds(rest[j], x);
        assert Holds(book[if j < i then j else j + 1], x);
      }
    }
  }

  // ----- sizes -------------------------------------------------------------------------

  /** The length of the segment that `mxl4_hugetlb_mem_alloc` asks for. */
  function SegmentLength(size: nat): nat {
    if size > 2097152 then AlignUp(size, 2097152) else 2097152
  }

  /** Chunks of a buffer, and of the segment that is made for it. */
  function Chunks(size: nat): nat { AlignUp(size, 32768) / 32768 }

  function SegmentChunks(size: nat): nat { SegmentLength(AlignUp(size, 32768)) / 32768 }

  lemma Powers()
    ensures PowerOfTwo(32768) && PowerOfTwo(2097152) && PowerOfTwo(64)
  {
    assert PowerOfTwo(64);
    assert PowerOfTwo(1024);
    assert PowerOfTwo(32768);
    assert PowerOfTwo(1048576);
  }

  /** A rounded size is a positive number of whole chunks, and its segment has room for them. */
  lemma Sizes(size: nat)
    requires size > 0
    ensures var length := AlignUp(size, 32768);
      size <= length < size + 32768 && length % 32768 == 0 && 0 < length / 32768 <= SegmentLength(length) / 32768 &&
      SegmentLength(length) % 2097152 == 0 &&
      (SegmentLength(length) == 2097152 || SegmentLength(length) < length + 2097152)
  {
    Powers();
    Aligned(size, 32768);
    var length := AlignUp(size, 32768);
    Aligned(length, 2097152);
  }

  /** The mask of a new segment is right exactly for a power of two of 2 MB units; every other segment
      gives back chunks that it was not asked to give back. */
  lemma MaskFitsSegment(size: nat)
    ensures var units := SegmentLength(size) / 2097152; var chunks := SegmentLength(size) / 32768;
      chunks > 0 && (MaskKeeps(chunks) <==> PowerOfTwo(units))
  {
    Powers();
    Aligned(size, 2097152);
    var units, chunks := SegmentLength(size) / 2097152, SegmentLength(size) / 32768;
    assert chunks == 64 * units;
    MaskIsIdentity(chunks);
    Shifted(units);
  }

  lemma Shifted(u: nat)
    requires u > 0
    ensures PowerOfTwo(64 * u) <==> PowerOfTwo(u)
  {
    hide PowerOfTwo;
    Doubled(u); Doubled(2 * u); Doubled(4 * u); Doubled(8 * u); Doubled(16 * u); Doubled(32 * u);
  }

  lemma Doubled(u: nat)
    requires u > 0
    ensures PowerOfTwo(2 * u) <==> PowerOfTwo(u)
  {
    assert 2 * u % 2 == 0 && 2 * u / 2 == u;
  }

  // ----- the list of segments ----------------------------------------------------------

  /** `struct mlx4_hugetlb_mem` */
  datatype Segment = Segment(shmaddr: nat, bitmap: Allocator)

  /** `struct mlx4_buf` */
  datatype Buf = Buf(buf: nat, length: nat, hmem: Segment, base: nat)

  /** The numbers of this bitmap are its runs: because of its size, or because one buffer is all of it. */
  ghost predicate Right(bitmap: Allocator)
    reads bitmap`top, bitmap`live
  {
    bitmap.Regular() || bitmap.live == map[] || bitmap.live == map[0 := bitmap.max]
  }

  ghost predicate Matches(seg: Segment, h: Holding)
    reads seg.bitmap, seg.bitmap.table
  {
    seg.bitmap.Valid() && Right(seg.bitmap) &&
    seg.shmaddr == h.addr && seg.bitmap.max == h.chunks && seg.bitmap.live == h.live
  }

  ghost function Objects(list: seq<Segment>): set<object> {
    (set i | 0 <= i < |list| :: list[i].bitmap) + (set i | 0 <= i < |list| :: list[i].bitmap.table)
  }

  ghost predicate Distinct(list: seq<Segment>) {
    forall i, j :: 0 <= i < j < |list| ==>
      list[i].bitmap != list[j].bitmap && list[i].bitmap.table != list[j].bitmap.table
  }

  ghost predicate Booked(list: seq<Segment>, book: seq<Holding>)
    reads Objects(list)
  {
    Distinct(list) && |book| == |list| && forall i :: 0 <= i < |list| ==> Matches(list[i], book[i])
  }

  lemma LaidUpdate(book: seq<Holding>, i: nat, live: Ledger)
    requires Laid(book) && i < |book| && Sound(book[i].(live := live))
    ensures Laid(book[i := book[i].(live := live)])
  {
  }

  /** The books of a bitmap make a sound holding. */
  lemma BitmapSound(v: seq<bool>, live: Ledger, addr: nat)
    requires Books(v, live)
    ensures Sound(Holding(addr, |v|, live))
  {
  }

  lemma BookedLess(list: seq<Segment>, book: seq<Holding>, i: nat)
    requires Booked(list, book) && i < |list|
    ensures Booked(Without(list, i), Without(book, i))
  {
  }

  lemma LaidLess(book: seq<Holding>, i: nat)
    requires Laid(book) && i < |book|
    ensures Laid(Without(book, i))
    ensures (forall j :: 0 <= j < |book| && j != i ==> book[j].live != map[]) ==> Busy(Without(book, i))
  {
  }

  /** A segment that overlaps no other joins the list, at either end. */
  lemma BookedMore(list: seq<Segment>, book: seq<Holding>, seg: Segment, h: Holding)
    requires Booked(list, book) && Matches(seg, h)
    requires forall i :: 0 <= i < |list| ==> list[i].bitmap != seg.bitmap && list[i].bitmap.table != seg.bitmap.table
    ensures Booked([seg] + list, [h] + book) && Booked(list + [seg], book + [h])
  {
    hide Matches;
  }

  lemma LaidMore(book: seq<Holding>, h: Holding)
    requires Laid(book) && Busy(book) && Sound(h) && h.live != map[]
    requires forall i :: 0 <= i < |book| ==> Apart(book[i], h)
    ensures Laid([h] + book) && Busy([h] + book) && Laid(book + [h]) && Busy(book + [h])
  {
  }

  /** Every run of cnt chunks of the segment meets a buffer. */
  ghost predicate NoRun(h: Holding, cnt: nat) {
    forall s: nat :: s + cnt <= h.chunks ==> Meets(h, s, cnt)
  }

  ghost predicate Meets(h: Holding, s: nat, cnt: nat) {
    exists i :: s <= i < s + cnt && Owned(h.live, i)
  }

  lemma NoRunOf(v: seq<bool>, live: Ledger, addr: nat, cnt: nat)
    requires Books(v, live) && NoFit(v, 0, |v|, cnt, 1) && cnt > 0
    ensures NoRun(Holding(addr, |v|, live), cnt)
  {
    forall s: nat | s + cnt <= |v| ensures Meets(Holding(addr, |v|, live), s, cnt) {
      assert Multiple(s, 1) && !Fits(v, s, cnt, 1);
      var i :| s <= i < s + cnt && v[i];
      assert Owned(live, i);
    }
  }

  /** Where a run has been handed out there was room. */
  lemma WasRoom(h: Holding, base: nat, cnt: nat)
    requires cnt > 0 && base !in h.live && Sound(h.(live := Enter(h.live, base, cnt)))
    ensures !NoRun(h, cnt)
  {
    var live := Enter(h.live, base, cnt);
    assert base in live && live[base] == cnt;
    forall i: nat | base <= i < base + cnt ensures !Owned(h.live, i) {
      forall s | s in h.live ensures !(s <= i < s + h.live[s]) {
        assert s in live && live[s] == h.live[s];
      }
    }
    assert !Meets(h, base, cnt);
  }

  lemma NoRunLeft(v: seq<bool>, live: Ledger, addr: nat, cnt: nat)
    requires Books(v, live) && (forall i :: 0 <= i < |v| ==> v[i]) && cnt > 0
    ensures NoRun(Holding(addr, |v|, live), cnt)
  {
    forall s: nat | s + cnt <= |v| ensures Meets(Holding(addr, |v|, live), s, cnt) {
      assert v[s];
      assert Owned(live, s);
    }
  }

  lemma NewRun(v: seq<bool>, owned: Ledger, w: seq<bool>, live: Ledger, ret: int, cnt: nat)
    requires Books(v, owned) && Allocated(v, owned, w, live, ret, cnt, 1) && cnt > 0
    ensures if ret == -1 then live == owned && NoFit(v, 0, |v|, cnt, 1)
            else ret >= 0 && ret !in owned && live == Enter(owned, ret, cnt)
  {
    if ret != -1 { BooksAlloc(v, owned, ret, cnt); }
  }

  // ----- the buffers that are in use -----------------------------------------------------

  /** The buffer that the run at s of segment i is. */
  ghost function BufAt(list: seq<Segment>, book: seq<Holding>, i: nat, s: nat): Buf
    requires |list| == |book| && i < |book| && s in book[i].live
  {
    Buf(book[i].addr + 32768 * s, 32768 * book[i].live[s], list[i], s)
  }

  ghost predicate IsBuf(list: seq<Segment>, book: seq<Holding>, i: nat, s: nat, b: Buf)
    requires |list| == |book|
  {
    i < |book| && s in book[i].live && b == BufAt(list, book, i, s)
  }

  ghost function Bufs(list: seq<Segment>, book: seq<Holding>): set<Buf>
    requires |list| == |book|
  {
    set i: nat, s: nat | 0 <= i < |book| && s in book[i].live :: BufAt(list, book, i, s)
  }

  lemma BufIs(list: seq<Segment>, book: seq<Holding>, b: Buf) returns (i: nat, s: nat)
    requires |list| == |book| && b in Bufs(list, book)
    ensures IsBuf(list, book, i, s, b)
  {
    i, s :| i < |book| && s in book[i].live && b == BufAt(list, book, i, s);
  }

  lemma BufIn(list: seq<Segment>, book: seq<Holding>, i: nat, s: nat, b: Buf)
    requires |list| == |book| && IsBuf(list, book, i, s, b)
    ensures b in Bufs(list, book)
  {
  }

  ghost predicate InSegment(h: Holding, b: Buf) {
    h.addr <= b.buf && b.buf + b.length <= h.addr + 32768 * h.chunks
  }

  ghost predicate Covers(b: Buf, x: int) { b.buf <= x < b.buf + b.length }

  /** The buffers in use do not overlap, lie inside their segments, and are exactly the live addresses. */
  lemma BufsApart(list: seq<Segment>, book: seq<Holding>, b: Buf, c: Buf, x: int)
    requires |list| == |book| && Laid(book) && b in Bufs(list, book) && c in Bufs(list, book)
    ensures b.length > 0 && (Covers(b, x) && Covers(c, x) ==> b == c)
    ensures exists i :: 0 <= i < |book| && b.hmem == list[i] && InSegment(book[i], b)
  {
    var i, s := BufIs(list, book, b);
    var j, t := BufIs(list, book, c);
    assert Sound(book[i]) && Sound(book[j]);
    assert InSegment(book[i], b);
    if Covers(b, x) && Covers(c, x) {
      assert Within(book[i], s, book[i].live[s], x) && Within(book[j], t, book[j].live[t], x);
      assert Holds(book[i], x) && Holds(book[j], x);
      HoldsInside(book[j], x);
      OneSegment(book, i, j, x);
      if s != t { RunsApart(book[i], s, t, x); }
    }
  }

  lemma BufsCover(list: seq<Segment>, book: seq<Holding>, x: int)
    requires |list| == |book|
    ensures Live(book, x) <==> exists b :: b in Bufs(list, book) && Covers(b, x)
  {
    if Live(book, x) {
      var i :| 0 <= i < |book| && Holds(book[i], x);
      var s :| s in book[i].live && Within(book[i], s, book[i].live[s], x);
      var b := BufAt(list, book, i, s);
      BufIn(list, book, i, s, b);
      assert Covers(b, x);
    }
    if b :| b in Bufs(list, book) && Covers(b, x) {
      var i, s := BufIs(list, book, b);
      assert Within(book[i], s, book[i].live[s], x);
      assert Holds(book[i], x);
    }
  }

  /** One run more, one buffer more. */
  lemma BufsRun(list: seq<Segment>, less: seq<Holding>, more: seq<Holding>, i: nat, base: nat, cnt: nat)
    requires |list| == |less| && OneRun(less, more, i, base, cnt)
    ensures |more| == |list| && base in more[i].live
    ensures Distinct(list) ==> BufAt(list, more, i, base) !in Bufs(list, less)
    ensures Bufs(list, more) == Bufs(list, less) + {BufAt(list, more, i, base)}
  {
    var b := BufAt(list, more, i, base);
    hide Bufs;
    forall c ensures c in Bufs(list, more) <==> c in Bufs(list, less) || c == b {
      if c in Bufs(list, more) {
        var j, s := BufIs(list, more, c);
        if !(j == i && s == base) { BufIn(list, less, j, s, c); }
      }
      if c in Bufs(list, less) {
        var j, s := BufIs(list, less, c);
        BufIn(list, more, j, s, c);
      }
      BufIn(list, more, i, base, b);
    }
    if Distinct(list) && b in Bufs(list, less) {
      var j, s := BufIs(list, less, b);
    }
  }

  /** A segment without buffers changes nothing. */
  lemma BufsLess(list: seq<Segment>, book: seq<Holding>, i: nat)
    requires |list| == |book| && i < |book| && book[i].live == map[]
    ensures Bufs(Without(list, i), Without(book, i)) == Bufs(list, book)
  {
    var list', book' := Without(list, i), Without(book, i);
    hide Bufs;
    forall c ensures c in Bufs(list', book') <==> c in Bufs(list, book) {
      if c in Bufs(list', book') {
        var j, s := BufIs(list', book', c);
        BufIn(list, book, if j < i then j else j + 1, s, c);
      }
      if c in Bufs(list, book) {
        var j, s := BufIs(list, book, c);
        BufIn(list', book', if j < i then j else j - 1, s, c);
      }
    }
  }

  datatype Place = Nowhere | Spot(seg: Segment, base: nat)

  datatype Outcome = NoMemory | ForkFailed | Granted(buf: Buf)

  function BufOf(p: Place, length: nat): Buf
    requires p.Spot?
  {
    Buf(p.seg.shmaddr + p.base * 32768, length, p.seg, p.base)
  }

  /** No segment of the list has room for cnt chunks in a row. */
  ghost predicate Exhausted(book: seq<Holding>, cnt: nat) {
    forall i :: 0 <= i < |book| ==> NoRun(book[i], cnt)
  }

  /** A new segment for this size has a regular bitmap, or the buffer fills it. */
  predicate Roundable(size: nat) {
    PowerOfTwo(SegmentChunks(size)) || Chunks(size) == SegmentChunks(size)
  }

  lemma Listed(list: seq<Segment>, seg: Segment)
    ensures seg in list ==> seg.bitmap in Objects(list) && seg.bitmap.table in Objects(list)
  {
  }

  lemma OneIsPower()
    ensures PowerOfTwo(1)
  {
  }

  /** If one buffer is the whole segment, no bit is clear. */
  lemma AllTaken(v: seq<bool>, live: Ledger)
    requires Books(v, live) && live == map[0 := |v|]
    ensures forall i :: 0 <= i < |v| ==> v[i]
  {
    forall i | 0 <= i < |v| ensures v[i] { assert 0 in live && i < 0 + live[0]; }
  }

  lemma BookedAt(list: seq<Segment>, book: seq<Holding>, i: nat)
    requires |list| == |book| && i < |list| && exists live :: Booked(list, book[i := book[i].(live := live)])
    ensures list[i].shmaddr == book[i].addr
  {
    var live :| Booked(list, book[i := book[i].(live := live)]);
    assert Matches(list[i], book[i].(live := live));
  }

  lemma EnterSome(live: Ledger, r: nat, cnt: nat)
    ensures Enter(live, r, cnt) != map[]
  {
    assert r in Enter(live, r, cnt);
  }

  lemma StillBusy(book: seq<Holding>, i: nat, live: Ledger)
    requires Busy(book) && i < |book| && live != map[]
    ensures Busy(book[i := book[i].(live := live)])
  {
  }

  /** What it means that a run was added to or taken from entry i. */
  lemma RunStep(list: seq<Segment>, less: seq<Holding>, more: seq<Holding>, i: nat, base: nat, cnt: nat, b: Buf)
    requires Distinct(list) && |list| == |less| && Laid(less) && Laid(more) && OneRun(less, more, i, base, cnt)
    requires b == Buf(less[i].addr + 32768 * base, 32768 * cnt, list[i], base)
    ensures |more| == |list| && b !in Bufs(list, less) && Bufs(list, more) == Bufs(list, less) + {b}
    ensures Gained(less, more, b.buf, b.buf + b.length)
  {
    BufsRun(list, less, more, i, base, cnt);
    assert b == BufAt(list, more, i, base);
    RunGained(less, more, i, base, cnt);
  }

  /** The same for the first run of a new segment. */
  lemma SegmentStep(list: seq<Segment>, book: seq<Holding>, k: nat, cnt: nat, b: Buf)
    requires Distinct(list) && |list| == |book| && Laid(book) && k < |book| && book[k].live == map[0 := cnt]
    requires b == Buf(book[k].addr, 32768 * cnt, list[k], 0)
    ensures var list', was := Without(list, k), Without(book, k);
      b !in Bufs(list', was) && Bufs(list, book) == Bufs(list', was) + {b} && Gained(was, book, b.buf, b.buf + b.length)
  {
    var mid := book[k := book[k].(live := map[])];
    assert Enter(map[], 0, cnt) == book[k].live;
    hide Laid, Bufs, Gained, Live, Distinct;
    LaidUpdate(book, k, map[]);
    assert book == mid[k := mid[k].(live := Enter(mid[k].live, 0, cnt))];
    RunStep(list, mid, book, k, 0, cnt, b);
    BufsLess(list, mid, k);
    EmptySegment(mid, k);
    assert Without(mid, k) == Without(book, k);
    GainedThrough(Without(book, k), mid, book, b.buf, b.buf + b.length);
  }

  class HugePages {
    var list: seq<Segment>        // hugetlb_list
    ghost var book: seq<Holding>

    ghost predicate Valid()
      reads this, Objects(list)
    {
      Booked(list, book) && Laid(book) && Busy(book)
    }

    /** The buffers that have been handed out and not given back. */
    ghost function Handles(): set<Buf>
      requires |list| == |book|
      reads this
    {
      Bufs(list, book)
    }

    constructor ()
      ensures Valid() && list == [] && Handles() == {}
    {
      list, book := [], [];
    }

    lemma NotListed(l: seq<Segment>)
      ensures this !in Objects(l)
    {
    }

    lemma SameLength()
      requires Booked(list, book)
      ensures |list| == |book| && Distinct(list)
    {
    }

    // --- allocation ---

    method IsAvailAt(k: nat, ghost cnt: nat) returns (avail: bool)
      requires Booked(list, book) && k < |list| && cnt > 0
      ensures k < |book| && (!avail ==> NoRun(book[k], cnt))
      ensures avail && book[k].live != map[] ==> list[k].bitmap.Regular()
    {
      assert Matches(list[k], book[k]);
      avail := list[k].bitmap.IsAvail();
      if !avail { NoRunLeft(list[k].bitmap.Bits(), book[k].live, book[k].addr, cnt); }
      if avail && book[k].live == map[0 := list[k].bitmap.max] { AllTaken(list[k].bitmap.Bits(), book[k].live); }
    }

    /** An allocation from segment i. */
    method AllocAt(ghost i: nat, seg: Segment, cnt: nat) returns (base: int)
      requires Booked(list, book) && i < |list| && seg == list[i] && cnt > 0 && seg.bitmap.Regular()
      modifies seg.bitmap, seg.bitmap.table
      ensures i < |book| && Sound(book[i].(live := seg.bitmap.live))
      ensures Booked(list, book[i := book[i].(live := seg.bitmap.live)])
      ensures base < 0 ==> base == -1 && seg.bitmap.live == book[i].live && NoRun(book[i], cnt)
      ensures base >= 0 ==> base !in book[i].live && seg.bitmap.live == Enter(book[i].live, base, cnt)
      ensures base >= 0 ==> !NoRun(book[i], cnt)
    {
      hide Books, Allocated, Words, View, Clear, Packed, Enter, PowerOfTwo, Sound, NoFit, NoRun, And, Or;
      ghost var v, owned, run := seg.bitmap.Bits(), seg.bitmap.live, 0;
      OneIsPower();
      base, run := seg.bitmap.AllocRange(cnt, 1);
      NewRun(v, owned, seg.bitmap.Bits(), seg.bitmap.live, base, cnt);
      if base == -1 { NoRunOf(v, owned, seg.shmaddr, cnt); }
      BitmapSound(seg.bitmap.Bits(), seg.bitmap.live, seg.shmaddr);
      if base >= 0 { WasRoom(Holding(seg.shmaddr, seg.bitmap.max, owned), base, cnt); }
    }

    method AllocIn(ghost i: nat, seg: Segment, cnt: nat) returns (base: int)
      requires Valid() && i < |list| && seg == list[i] && cnt > 0 && seg.bitmap.Regular()
      modifies this`book, seg.bitmap, seg.bitmap.table
      ensures Valid() && |list| == |book|
      ensures base < 0 ==> base == -1 && book == old(book) && NoRun(book[i], cnt)
      ensures base >= 0 ==> Taken(old(Handles()), old(book), Spot(seg, base), cnt) && !NoRun(old(book)[i], cnt)
    {
      hide Booked, Laid, Gained, NoRun, Bufs, Enter;
      SameLength();
      ghost var was := book;
      base := AllocAt(i, seg, cnt);
      BookedAt(list, book, i);
      if base >= 0 { EnterSome(book[i].live, base, cnt); }
      LaidUpdate(book, i, seg.bitmap.live);
      StillBusy(book, i, seg.bitmap.live);
      NotListed(list);
      book := book[i := book[i].(live := seg.bitmap.live)];
      if base >= 0 {
        RunStep(list, was, book, i, base, cnt, Buf(was[i].addr + 32768 * base, 32768 * cnt, list[i], base));
      }
    }

    /** The run at place p has come into use. */
    ghost predicate Taken(was: set<Buf>, wasBook: seq<Holding>, p: Place, cnt: nat)
      reads this
    {
      p.Spot? && |list| == |book| &&
      var b := BufOf(p, 32768 * cnt);
      b !in was && Handles() == was + {b} && Gained(wasBook, book, b.buf, b.buf + b.length)
    }

    /** Segment seg is the first one of the list that has room for cnt chunks in a row. */
    ghost predicate FirstWithRoom(list: seq<Segment>, book: seq<Holding>, seg: Segment, cnt: nat) {
      |list| == |book| &&
      exists k :: 0 <= k < |list| && list[k] == seg && !NoRun(book[k], cnt) &&
        forall i :: 0 <= i < k ==> NoRun(book[i], cnt)
    }

    lemma RoomThere(list: seq<Segment>, book: seq<Holding>, seg: Segment, cnt: nat)
      requires FirstWithRoom(list, book, seg, cnt)
      ensures !Exhausted(book, cnt)
    {
    }

    /** The loop of `mlx4_alloc_buf_huge` over the segments. */
    method FromList(cnt: nat) returns (p: Place)
      requires Valid() && cnt > 0
      modifies this`book, Objects(list)
      ensures Valid() && |list| == |book|
      ensures if p.Nowhere? then book == old(book) && Exhausted(book, cnt)
              else Taken(old(Handles()), old(book), p, cnt) && p.seg in list
      ensures p.Spot? ==> FirstWithRoom(list, old(book), p.seg, cnt)
    {
      hide Laid, Booked, NoRun, Taken, Allocator.Regular;
      var k := 0;
      SameLength();
      while k < |list|
        invariant k <= |list| == |book| && book == old(book) && Valid()
        invariant forall i :: 0 <= i < k ==> NoRun(book[i], cnt)
      {
        var avail := IsAvailAt(k, cnt);
        if avail {
          Listed(list, list[k]);
          var base := AllocIn(k, list[k], cnt);
          if base != -1 {
            return Spot(list[k], base);
          }
        }
        k := k + 1;
      }
      return Nowhere;
    }

    /** A segment at mem overlaps none of the list. */
    ghost predicate Unmapped(mem: nat, chunks: nat)
      reads this`book
    {
      forall i :: 0 <= i < |book| ==> Apart(book[i], Holding(mem, chunks, map[]))
    }

    /** After the first allocation a segment has room exactly if it did not take everything. */
    static lemma RoomLeft(v: seq<bool>, cnt: nat)
      requires 0 < cnt <= |v| && Books(v, map[0 := cnt])
      ensures HasRoom(v) <==> cnt < |v|
    {
      var live: Ledger := map[0 := cnt];
      forall i | 0 <= i < |v| ensures v[i] <==> i < cnt {
        if i < cnt { assert 0 in live && i < 0 + live[0]; }
      }
      if cnt < |v| { assert !v[cnt]; }
    }

    static ghost predicate HasRoom(v: seq<bool>) {
      exists i :: 0 <= i < |v| && !v[i]
    }

    static method IsAvailable(seg: Segment) returns (avail: bool)
      requires seg.bitmap.Valid()
      ensures avail <==> HasRoom(seg.bitmap.Bits())
    {
      avail := seg.bitmap.IsAvail();
    }

    static lemma ApartSame(book: seq<Holding>, mem: nat, chunks: nat, live: Ledger)
      requires forall i :: 0 <= i < |book| ==> Apart(book[i], Holding(mem, chunks, map[]))
      ensures forall i :: 0 <= i < |book| ==> Apart(book[i], Holding(mem, chunks, live))
    {
      forall i | 0 <= i < |book| ensures Apart(book[i], Holding(mem, chunks, live)) {
        assert Apart(book[i], Holding(mem, chunks, map[]));
      }
    }

    static lemma SoundFirst(mem: nat, chunks: nat, cnt: nat)
      requires 0 < cnt <= chunks
      ensures Sound(Holding(mem, chunks, map[0 := cnt])) && map[0 := cnt] != map[]
    {
      assert 0 in map[0 := cnt];
    }

    /** The bitmap of a new segment, with its first cnt chunks handed out. */
    static method NewBitmap(chunks: nat, cnt: nat) returns (bitmap: Allocator)
      requires 0 < cnt <= chunks && (PowerOfTwo(chunks) || cnt == chunks)
      ensures fresh(bitmap) && fresh(bitmap.table) && bitmap.Valid() && bitmap.max == chunks
      ensures bitmap.live == map[0 := cnt] && Right(bitmap)
    {
      hide Books, Words, View, Fill, Clear, Packed, PowerOfTwo, Allocated, Or, And, Free;
      bitmap := new Allocator(chunks, chunks - 1);
      FirstRun(bitmap, cnt);
      var base := AllocLowest(bitmap, cnt, 0);
    }

    static lemma FirstRun(bitmap: Allocator, cnt: nat)
      requires bitmap.Valid() && bitmap.live == map[] && cnt <= bitmap.max
      ensures Packed(bitmap.Bits(), 0) && Free(bitmap.Bits(), 0, cnt) && Enter(map[], 0, cnt) == map[0 := cnt]
    {
    }

    /** A segment that still has room is put in front, a full one at the end. */
    method Enlist(seg: Segment, ghost h: Holding) returns (ghost k: nat)
      requires Valid() && Matches(seg, h) && Sound(h) && h.live != map[]
      requires forall i :: 0 <= i < |book| ==> Apart(book[i], h)
      requires forall i :: 0 <= i < |list| ==>
        list[i].bitmap != seg.bitmap && list[i].bitmap.table != seg.bitmap.table
      modifies this`list, this`book
      ensures Valid() && k < |book| == |list| && list[k] == seg && book[k] == h
      ensures Without(book, k) == old(book) && Without(list, k) == old(list)
      ensures list == if HasRoom(seg.bitmap.Bits()) then [seg] + old(list) else old(list) + [seg]
    {
      hide Laid, Busy, Apart, Sound, HasRoom, Distinct, Right, Allocator.Valid;
      var avail := IsAvailable(seg);
      BookedMore(list, book, seg, h);
      LaidMore(book, h);
      SameLength();
      NotListed([seg] + list);
      NotListed(list + [seg]);
      hide Booked, Matches, Objects;
      if avail {
        k, list, book := 0, [seg] + list, [h] + book;
      } else {
        k, list, book := |list|, list + [seg], book + [h];
      }
    }

    /** The second half of `mlx4_alloc_buf_huge`: a new segment, attached at mem, whose first chunks make
        the buffer; it is put in front if it still has room, and at the end otherwise. */
    method AddSegment(mem: nat, chunks: nat, cnt: nat) returns (seg: Segment)
      requires Valid() && Unmapped(mem, chunks) && 0 < cnt <= chunks && (PowerOfTwo(chunks) || cnt == chunks)
      modifies this`list, this`book
      ensures Valid() && Taken(old(Handles()), old(book), Spot(seg, 0), cnt)
      ensures list == if cnt < chunks then [seg] + old(list) else old(list) + [seg]
      ensures seg.shmaddr == mem && seg.bitmap.max == chunks && fresh(seg.bitmap) && fresh(seg.bitmap.table)
    {
      hide Laid, Busy, Apart, Bufs, Gained, PowerOfTwo, Sound, HasRoom, Distinct, Allocator.Valid, Right;
      seg := NewSegment(mem, chunks, cnt);
      SoundFirst(mem, chunks, cnt);
      ApartSame(book, mem, chunks, map[0 := cnt]);
      SameLength();
      ghost var k := Enlist(seg, Holding(mem, chunks, map[0 := cnt]));
      SameLength();
      SegmentStep(list, book, k, cnt, Buf(mem, 32768 * cnt, seg, 0));
    }

    static method NewSegment(mem: nat, chunks: nat, cnt: nat) returns (seg: Segment)
      requires 0 < cnt <= chunks && (PowerOfTwo(chunks) || cnt == chunks)
      ensures Matches(seg, Holding(mem, chunks, map[0 := cnt])) && (HasRoom(seg.bitmap.Bits()) <==> cnt < chunks)
      ensures seg.shmaddr == mem && seg.bitmap.max == chunks && fresh(seg.bitmap) && fresh(seg.bitmap.table)
    {
      hide Words, View, Clear, Packed, Books, PowerOfTwo, HasRoom;
      var bitmap := NewBitmap(chunks, cnt);
      seg := Segment(mem, bitmap);
      RoomLeft(bitmap.Bits(), cnt);
    }

    /** A run of cnt chunks: from a segment of the list, or else from a new one, attached at mem. */
    method Obtain(chunks: nat, cnt: nat, mem: int) returns (p: Place)
      requires Valid() && 0 < cnt <= chunks
      requires 0 <= mem && Exhausted(book, cnt) ==> Unmapped(mem, chunks) && (PowerOfTwo(chunks) || cnt == chunks)
      modifies this, Objects(list)
      ensures Valid() && |list| == |book|
      ensures if p.Nowhere? then book == old(book) && list == old(list)
              else Taken(old(Handles()), old(book), p, cnt) && p.seg in list
      ensures p.Nowhere? <==> mem < 0 && Exhausted(old(book), cnt)
      ensures !Exhausted(old(book), cnt) ==>
        p.Spot? && list == old(list) && FirstWithRoom(list, old(book), p.seg, cnt)
      ensures p.Spot? && Exhausted(old(book), cnt) ==>
        p.base == 0 && p.seg.shmaddr == mem && p.seg.bitmap.max == chunks
      ensures p.Spot? ==> p.seg in old(list) || (fresh(p.seg.bitmap) && fresh(p.seg.bitmap.table))
      ensures list == old(list) || (p.Spot? && (list == [p.seg] + old(list) || list == old(list) + [p.seg]))
    {
      hide Laid, Busy, Gained, Booked, PowerOfTwo, Taken, Apart, Exhausted, Handles;
      p := FromList(cnt);
      if p.Spot? { RoomThere(list, old(book), p.seg, cnt); }
      SameLength();
      if p.Nowhere? && 0 <= mem {
        var seg := AddSegment(mem, chunks, cnt);
        p := Spot(seg, 0);
        SameLength();
      }
    }

    // --- giving back ---

    /** A run of segment i is given back. */
    method FreeAt(ghost i: nat, seg: Segment, base: nat, cnt: nat)
      requires Booked(list, book) && i < |list| && seg == list[i] && Handed(book[i].live, base, cnt)
      modifies seg.bitmap, seg.bitmap.table
      ensures i < |book| && Sound(book[i].(live := seg.bitmap.live))
      ensures Booked(list, book[i := book[i].(live := seg.bitmap.live)])
      ensures seg.bitmap.live == Leave(book[i].live, base) && cnt > 0
    {
      hide Words, View, Clear, Packed, PowerOfTwo, Sound, Fill, Masked, And;
      assert Matches(list[i], book[i]);
      RunKept(seg.bitmap, base, cnt);
      hide Books, Leave;
      seg.bitmap.FreeRange(base, cnt);
      BitmapSound(seg.bitmap.Bits(), seg.bitmap.live, seg.shmaddr);
    }

    /** A run that was handed out is freed where it was taken, and if its segment is not regular, nothing
        is left there. */
    static lemma RunKept(bitmap: Allocator, base: nat, cnt: nat)
      requires bitmap.Valid() && Right(bitmap) && Handed(bitmap.live, base, cnt)
      ensures Masked(base, bitmap.max) == base && base + cnt <= bitmap.max && cnt > 0
      ensures bitmap.Regular() || Leave(bitmap.live, base) == map[]
    {
      if bitmap.Regular() {
        MaskedBelow(base, bitmap.max);
      } else {
        MaskedZero(bitmap.max);
      }
    }

    /** Segment i leaves the list if nothing of it is in use. */
    method Reclaim(i: nat, seg: Segment)
      requires Booked(list, book) && Laid(book) && i < |list| && seg == list[i]
      requires forall j :: 0 <= j < |book| && j != i ==> book[j].live != map[]
      modifies this`list, this`book
      ensures Valid() && |list| == |book| && old(|list| == |book|) && Handles() == old(Handles())
      ensures forall x :: Live(book, x) <==> Live(old(book), x)
      ensures Objects(list) <= old(Objects(list))
    {
      assert Matches(list[i], book[i]);
      hide Laid, Live, Booked, Sound, Bufs, Distinct, Right, Allocator.Valid;
      SameLength();
      var empty := seg.bitmap.IsEmpty();
      if empty {
        BookedLess(list, book, i);
        LaidLess(book, i);
        EmptySegment(book, i);
        BufsLess(list, book, i);
        list, book := Without(list, i), Without(book, i);
      }
    }

    /** `mlx4_free_buf_huge_ex`, for any buffer that has been handed out and not given back: exactly this
        buffer leaves; a segment that has become empty is removed. */
    method FreeHuge(buf: Buf)
      requires Valid() && |list| == |book| && buf in Handles()
      modifies this`list, this`book, buf.hmem.bitmap, buf.hmem.bitmap.table
      ensures Valid() && |list| == |book| && Handles() == old(Handles()) - {buf}
      ensures Gained(book, old(book), buf.buf, buf.buf + buf.length)
      ensures Objects(list) <= old(Objects(list))
    {
      hide Laid, Sound, Gained, Live, Handed, Enter, Leave, Booked, Busy, Bufs;
      ghost var k, r := BufIs(list, book, buf);
      var i :| 0 <= i < |list| && list[i] == buf.hmem;
      SameLength();
      RunAt(list, book, k, r, buf);
      ghost var was := book;
      FreeAt(i, buf.hmem, buf.base, buf.length / 32768);
      ghost var live := buf.hmem.bitmap.live;
      LaidUpdate(was, i, live);
      GivenBack(list, was, i, buf, live);
      NotListed(list);
      book := was[i := was[i].(live := live)];
      OthersBusy(was, book, i, live);
      Reclaim(i, buf.hmem);
      GainedThrough(book, was[i := was[i].(live := live)], was, buf.buf, buf.buf + buf.length);
    }

    /** A buffer in use lies in its segment, and shares no address with another one. */
    lemma HandleInside(b: Buf)
      requires Valid() && |list| == |book| && b in Handles()
      ensures b.hmem.bitmap in Objects(list) && b.hmem.bitmap.table in Objects(list) && b.hmem in list
      ensures b.hmem.shmaddr <= b.buf && b.buf + b.length <= b.hmem.shmaddr + 32768 * b.hmem.bitmap.max
    {
      BufsApart(list, book, b, b, 0);
      var i :| 0 <= i < |book| && b.hmem == list[i] && InSegment(book[i], b);
      assert Matches(list[i], book[i]);
    }

    /** When everything has been given back, no segment is left. */
    lemma NothingLeft()
      requires Valid() && |list| == |book| && Handles() == {}
      ensures list == []
    {
      if list != [] {
        assert book[0].live != map[];
        var s :| s in book[0].live;
        BufIn(list, book, 0, s, BufAt(list, book, 0, s));
      }
    }

    // --- allocating ---

    /** `mlx4_alloc_buf_huge`: mem is where a new segment would be attached, negative if there is none;
        forkOk says whether `ibv_dontfork_range` succeeds. Only a new segment needs a size for which the
        numbers of its bitmap are right. Success adds exactly the buffer returned, which was not in use
        before; a failure changes nothing. */
    method AllocHuge(size: nat, mem: int, forkOk: bool) returns (r: Outcome)
      requires Valid() && size > 0
      requires 0 <= mem && Exhausted(book, Chunks(size)) ==> Unmapped(mem, SegmentChunks(size)) && Roundable(size)
      modifies this, Objects(list)
      ensures Valid() && |list| == |book| && old(|list| == |book|) && fresh(Objects(list) - old(Objects(list)))
      ensures r.Granted? ==> r.buf !in old(Handles()) && Handles() == old(Handles()) + {r.buf}
      ensures r.Granted? ==> r.buf.length % 32768 == 0 && size <= r.buf.length < size + 32768
      ensures r.Granted? ==> Gained(old(book), book, r.buf.buf, r.buf.buf + r.buf.length)
      ensures r.Granted? ==>
        r.buf.hmem.shmaddr <= r.buf.buf &&
        r.buf.buf + r.buf.length <= r.buf.hmem.shmaddr + 32768 * r.buf.hmem.bitmap.max
      ensures !r.Granted? ==> Handles() == old(Handles())
      ensures r.Granted? <==> forkOk && (0 <= mem || !Exhausted(old(book), Chunks(size)))
      ensures r.ForkFailed? <==> !forkOk && (0 <= mem || !Exhausted(old(book), Chunks(size)))
      ensures r.Granted? && !Exhausted(old(book), Chunks(size)) ==>
        list == old(list) && FirstWithRoom(list, old(book), r.buf.hmem, Chunks(size))
      ensures r.Granted? && Exhausted(old(book), Chunks(size)) ==>
        var bytes := 32768 * r.buf.hmem.bitmap.max;
        r.buf.buf == r.buf.hmem.shmaddr == mem && bytes % 2097152 == 0 &&
        (bytes == 2097152 || bytes < r.buf.length + 2097152)
    {
      hide Laid, Busy, Gained, Live, AlignUp, SegmentLength, PowerOfTwo, Unmapped, Booked, Exhausted, Bufs, Objects;
      Sizes(size);
      SameLength();
      var length := AlignUp(size, 32768);
      var p := Obtain(SegmentLength(length) / 32768, length / 32768, mem);
      if p.Nowhere? {
        return NoMemory;
      }
      var buf := BufOf(p, length);
      Listed(old(list), p.seg);
      GrownObjects(old(list), list, p.seg);
      if !forkOk {
        FreeHuge(buf);
        return ForkFailed;
      }
      HandleInside(buf);
      return Granted(buf);
    }

    // --- runs ---

    /** No segment of the list overlaps the chunks at mem. */
    method Fresh(mem: nat, chunks: nat) returns (apart: bool)
      requires Valid()
      ensures apart <==> Unmapped(mem, chunks)
    {
      hide Laid, Busy, Sound, Allocator.Valid;
      SameLength();
      var i := 0;
      while i < |list|
        invariant i <= |list| && forall j :: 0 <= j < i ==> Apart(book[j], Holding(mem, chunks, map[]))
      {
        assert Matches(list[i], book[i]);
        var low, high := list[i].shmaddr, list[i].shmaddr + 32768 * list[i].bitmap.max;
        if !(high <= mem || mem + 32768 * chunks <= low) {
          assert !Apart(book[i], Holding(mem, chunks, map[]));
          return false;
        }
        i := i + 1;
      }
      return true;
    }

    /** One allocation of a run. The kernel attaches a segment where none is, or not at all. */
    method TakeOne(size: nat, mem: int, forkOk: bool) returns (r: Outcome)
      requires Valid() && |list| == |book| && size > 0 && Roundable(size)
      modifies this, Objects(list)
      ensures Valid() && |list| == |book| && fresh(Objects(list) - old(Objects(list)))
      ensures r.Granted? ==> r.buf !in old(Handles()) && Handles() == old(Handles()) + {r.buf}
      ensures !r.Granted? ==> Handles() == old(Handles())
      ensures r.Granted? <==>
        forkOk && (!Exhausted(old(book), Chunks(size)) || (0 <= mem && old(Unmapped(mem, SegmentChunks(size)))))
    {
      hide Laid, Busy, Gained, Live, AlignUp, SegmentLength, PowerOfTwo, Booked, Exhausted, Bufs, Roundable;
      var mem' := mem;
      if 0 <= mem {
        var apart := Fresh(mem, SegmentChunks(size));
        if !apart { mem' := -1; }
      }
      r := AllocHuge(size, mem', forkOk);
    }

    /** Any sequence of allocations and releases, the releases in any order: what is in use at the end is
        exactly what has been returned and not been given back. `outcomes` has what each step returned; an
        allocation for which `ibv_dontfork_range` fails returns nothing. */
    method Run(steps: seq<Step>) returns (held: seq<Buf>, ghost outcomes: seq<Outcome>)
      requires Valid() && |list| == |book|
      requires forall s :: s in steps && s.Take? ==> s.size > 0 && Roundable(s.size)
      modifies this, Objects(list)
      ensures Valid() && |list| == |book| && fresh(Objects(list) - old(Objects(list)))
      ensures |outcomes| == |steps| && held == HeldAfter(steps, outcomes)
      ensures forall n :: 0 <= n < |steps| && outcomes[n].Granted? ==> steps[n].Take? && steps[n].forkOk
      ensures Once(held) && AllOf(held) !! old(Handles()) && Handles() == old(Handles()) + AllOf(held)
      ensures forall x :: Live(book, x) <==> old(Live(book, x)) || exists b :: b in held && Covers(b, x)
    {
      hide Laid, Busy, Gained, Live, AlignUp, SegmentLength, PowerOfTwo, Booked, Exhausted, Bufs, Roundable;
      ghost var was, wasBook := list, book;
      held, outcomes := [], [];
      for n := 0 to |steps|
        invariant |outcomes| == n && held == HeldAfter(steps[..n], outcomes)
        invariant forall m :: 0 <= m < n && outcomes[m].Granted? ==> steps[m].Take? && steps[m].forkOk
        invariant Valid() && |list| == |book| && fresh(Objects(list) - old(Objects(list)))
        invariant Once(held) && AllOf(held) !! old(Handles()) && Handles() == old(Handles()) + AllOf(held)
      {
        assert steps[n] in steps && steps[..n + 1][..n] == steps[..n];
        ghost var out := NoMemory;
        match steps[n] {
          case Take(size, mem, forkOk) =>
            var r := TakeOne(size, mem, forkOk);
            out := r;
            if r.Granted? {
              OnceMore(held, r.buf);
              held := held + [r.buf];
            }
          case Give(k) =>
            if k < |held| {
              OnceLess(held, k);
              HandleInside(held[k]);
              FreeHuge(held[k]);
              held := Without(held, k);
            }
        }
        assert (outcomes + [out])[..n] == outcomes;
        outcomes := outcomes + [out];
      }
      assert steps[..|steps|] == steps;
      RunCovers(was, wasBook, list, book, held);
    }

    /** Giving back everything, in any order, removes every segment. */
    method ReleaseAll(held: seq<Buf>)
      requires Valid() && |list| == |book| && Once(held) && AllOf(held) == Handles()
      modifies this, Objects(list)
      ensures Valid() && list == []
    {
      hide Laid, Gained, Live, Booked, Bufs, Objects;
      ghost var was := Objects(list);
      for n := 0 to |held|
        invariant Valid() && |list| == |book| && Objects(list) <= was
        invariant Handles() == AllOf(held[n..])
      {
        OnceLess(held[n..], 0);
        assert Without(held[n..], 0) == held[n + 1..];
        HandleInside(held[n]);
        FreeHuge(held[n]);
      }
      NothingLeft();
    }
  }

  /** The live addresses are those of the buffers in use. */
  lemma RunCovers(was: seq<Segment>, wasBook: seq<Holding>, list: seq<Segment>, book: seq<Holding>, held: seq<Buf>)
    requires |was| == |wasBook| && |list| == |book| && Bufs(list, book) == Bufs(was, wasBook) + AllOf(held)
    ensures forall x :: Live(book, x) <==> Live(wasBook, x) || exists b :: b in held && Covers(b, x)
  {
    hide Live, Bufs, Covers;
    forall x ensures Live(book, x) <==> Live(wasBook, x) || exists b :: b in held && Covers(b, x) {
      BufsCover(was, wasBook, x);
      BufsCover(list, book, x);
    }
  }

  datatype Step = Take(size: nat, mem: int, forkOk: bool) | Give(k: nat)

  /** What a user holds after these steps, when the allocations among them returned these outcomes. */
  ghost function HeldAfter(steps: seq<Step>, outcomes: seq<Outcome>): seq<Buf>
    requires |steps| == |outcomes|
  {
    if steps == [] then [] else
      var l := |steps| - 1;
      var held := HeldAfter(steps[..l], outcomes[..l]);
      match steps[l]
      case Take(_, _, _) => if outcomes[l].Granted? then held + [outcomes[l].buf] else held
      case Give(k) => if k < |held| then Without(held, k) else held
  }

  ghost predicate Once(held: seq<Buf>) {
    forall i, j :: 0 <= i < j < |held| ==> held[i] != held[j]
  }

  ghost function AllOf(held: seq<Buf>): set<Buf> {
    set b | b in held
  }

  lemma OnceMore(held: seq<Buf>, b: Buf)
    requires Once(held) && b !in AllOf(held)
    ensures Once(held + [b]) && AllOf(held + [b]) == AllOf(held) + {b}
  {
  }

  lemma OnceLess(held: seq<Buf>, k: nat)
    requires Once(held) && k < |held|
    ensures Once(Without(held, k)) && AllOf(Without(held, k)) == AllOf(held) - {held[k]} && held[k] in AllOf(held)
  {
    var rest := Without(held, k);
    forall b ensures b in rest <==> b in held && b != held[k] {
      if b in held && b != held[k] {
        var i :| 0 <= i < |held| && held[i] == b;
        assert rest[if i < k then i else i - 1] == b;
      }
    }
  }

  // ----- sizes for which it goes wrong ---------------------------------------------------

  /** A segment is 2 MB, or its last 2 MB are needed. */
  lemma SegmentTight(size: nat)
    requires size > 0
    ensures 0 < Chunks(size) <= SegmentChunks(size) && SegmentChunks(size) % 64 == 0
    ensures SegmentChunks(size) == 64 || SegmentChunks(size) < Chunks(size) + 64
  {
    hide AlignUp, PowerOfTwo;
    Powers();
    Sizes(size);
    Aligned(AlignUp(size, 32768), 2097152);
  }

  /** For every size whose buffer leaves room in its segment: a buffer, another one of one chunk, the first
      one given back, and a buffer of the same size again. The new buffer stays inside the segment and apart
      from the chunk in use exactly if the size is one for which `AllocHuge` makes segments safely; for all
      other sizes it covers that chunk. */
  method SameSizeAgain(size: nat) returns (a: Allocator, other: int, again: int)
    requires size > 0 && Chunks(size) < SegmentChunks(size)
    ensures a.Valid() && a.max == SegmentChunks(size) && a.mask == a.max - 1
    ensures Handed(a.live, 0, Chunks(size)) && other == Chunks(size) && Handed(a.live, other, 1)
    ensures again + Chunks(size) <= a.max && !(again <= other < again + Chunks(size)) <==> Roundable(size)
    ensures !Roundable(size) ==> again <= other < again + Chunks(size)
  {
    hide AlignUp, SegmentLength, PowerOfTwo, And, Handed;
    SegmentTight(size);
    a, other, again := Reused(SegmentChunks(size), Chunks(size));
    if !PowerOfTwo(SegmentChunks(size)) { Misplaced(SegmentChunks(size)); }
  }

  lemma Misplaced(num: nat)
    requires num > 0 && num % 64 == 0 && !PowerOfTwo(num)
    ensures num != 64 && 0 < And(num, num - 1) <= num - 64
  {
    Powers();
    assert Pow2(6) == 64;
    LowestBit(num);
    LowestBitOff(num, 6);
  }

  /** A buffer of 4.5 MB gets a segment of 6 MB with 192 chunks, and the mask 191. Another buffer of 1 MB
      from it, then the first one given back: two buffers of 2 MB that are allocated now get the numbers
      128, which the buffer of 1 MB is in the middle of, and 192, which is behind the segment. */
  method SixMegabytes() returns (a: Allocator, megabyte: int, third: int, fourth: int)
    ensures a.Valid() && a.max == SegmentChunks(144 * 32768) == a.mask + 1
    ensures megabyte == 144 && Handed(a.live, 144, 32) && Handed(a.live, 0, 64) && Handed(a.live, 64, 64)
    ensures third < megabyte < third + 64 && a.max <= fourth
  {
    hide Books, Clear, Words, View, Fill, Packed, Free, Allocated, Enter, Leave, Handed, Allocator.Regular;
    hide And, Or, AlignUp, SegmentLength, Masked, PowerOfTwo;
    SixNumbers();
    var chunks := SegmentChunks(144 * 32768);
    a := new Allocator(chunks, chunks - 1);
    AllClear(a);
    SixSteps(a.Bits(), a.live);
    var first := AllocLowest(a, 144, 0);
    megabyte := AllocLowest(a, 32, 144);
    a.FreeRange(first, 144);
    third := AllocLowest(a, 64, 0);
    fourth := AllocLowest(a, 64, 64);
  }

  lemma SixNumbers()
    ensures SegmentChunks(144 * 32768) == 192
    ensures And(192, 191) == 128 && Masked(0, 192) == 0
    ensures Or(0, 0) == 0 && Or(144, 0) == 144 && Or(0, 128) == 128 && Or(64, 128) == 192
  {
    hide AlignUp, SegmentLength, And, Or;
    SixLength();
    MaskedZero(192); ZeroOr(0); ZeroOr(128); OrZero(144);
    SmallNumbers();
    DoubleBits(3, 1, 2); DoubleBits(6, 2, 4); DoubleBits(12, 4, 8);
    DoubleBits(24, 8, 16); DoubleBits(48, 16, 32); DoubleBits(96, 32, 64);
  }

  lemma SmallNumbers()
    ensures And(3, 2) == 2 && Or(1, 2) == 3
  {
    assert And(1, 1) == 1 && Or(0, 1) == 1;
  }

  lemma DoubleBits(m: nat, x: nat, y: nat)
    requires m > 0 && x > 0 && y > 0
    ensures And(2 * m, 2 * m - 1) == 2 * And(m, m - 1) && Or(2 * x, 2 * y) == 2 * Or(x, y)
  {
    Halves(m - 1, true);
  }

  lemma SixLength()
    ensures SegmentLength(AlignUp(144 * 32768, 32768)) == 192 * 32768
  {
    hide AlignUp, PowerOfTwo;
    Powers();
    Aligned(144 * 32768, 32768);
    Aligned(144 * 32768, 2097152);
    assert Multiple(144 * 32768, 32768) && Multiple(192 * 32768, 2097152);
  }

  lemma SixSteps(v: seq<bool>, live: Ledger)
    requires |v| == 192 && (forall i :: 0 <= i < |v| ==> !v[i])
    ensures Packed(v, 0) && Free(v, 0, 144)
    ensures var w := Fill(v, 0, 144, true); var now := Enter(live, 0, 144);
      Packed(w, 144) && Free(w, 144, 32) && Handed(now, 0, 144) &&
      var w' := Fill(w, 144, 176, true); var now' := Enter(now, 144, 32);
      Handed(now', 0, 144) &&
      var w'' := Fill(w', 0, 144, false); var now'' := Leave(now', 0);
      Packed(w'', 0) && Free(w'', 0, 64) &&
      var u := Fill(w'', 0, 64, true); var then' := Enter(now'', 0, 64);
      Packed(u, 64) && Free(u, 64, 64) &&
      Handed(Enter(then', 64, 64), 144, 32) && Handed(Enter(then', 64, 64), 0, 64) &&
      Handed(Enter(then', 64, 64), 64, 64)
  {
  }

  lemma GrownObjects(was: seq<Segment>, now: seq<Segment>, seg: Segment)
    requires now == was || now == [seg] + was || now == was + [seg]
    ensures forall o :: o in Objects(now) ==> o in Objects(was) || o == seg.bitmap || o == seg.bitmap.table
  {
    forall o | o in Objects(now) ensures o in Objects(was) || o == seg.bitmap || o == seg.bitmap.table {
      var i :| 0 <= i < |now| && (o == now[i].bitmap || o == now[i].bitmap.table);
      if now[i] != seg {
        var j := if now == [seg] + was && now != was then i - 1 else i;
        assert was[j] == now[i];
      }
    }
  }

  /** What the buffer says about its run. */
  lemma RunAt(list: seq<Segment>, book: seq<Holding>, i: nat, s: nat, buf: Buf)
    requires |list| == |book| && IsBuf(list, book, i, s, buf)
    ensures list[i] == buf.hmem && s == buf.base && Handed(book[i].live, buf.base, buf.length / 32768)
    ensures Distinct(list) ==> forall j :: 0 <= j < |list| && list[j] == buf.hmem ==> j == i
    ensures buf.hmem.bitmap in Objects(list) && buf.hmem.bitmap.table in Objects(list)
  {
  }

  lemma OthersBusy(book: seq<Holding>, now: seq<Holding>, i: nat, live: Ledger)
    requires Busy(book) && i < |book| && now == book[i := book[i].(live := live)]
    ensures forall j :: 0 <= j < |now| && j != i ==> now[j].live != map[]
  {
  }

  lemma GivenBack(list: seq<Segment>, was: seq<Holding>, i: nat, buf: Buf, live: Ledger)
    requires Distinct(list) && |list| == |was| && Laid(was) && IsBuf(list, was, i, buf.base, buf)
    requires live == Leave(was[i].live, buf.base) && Laid(was[i := was[i].(live := live)])
    ensures var now := was[i := was[i].(live := live)];
      Bufs(list, now) == Bufs(list, was) - {buf} && Gained(now, was, buf.buf, buf.buf + buf.length)
  {
    var now, cnt := was[i := was[i].(live := live)], was[i].live[buf.base];
    assert Enter(now[i].live, buf.base, cnt) == was[i].live;
    assert was == now[i := now[i].(live := Enter(now[i].live, buf.base, cnt))];
    hide Laid, Gained, Bufs;
    RunStep(list, now, was, i, buf.base, cnt, buf);
  }

  lemma GainedThrough(less: seq<Holding>, mid: seq<Holding>, more: seq<Holding>, lo: int, hi: int)
    requires Gained(mid, more, lo, hi) && forall x :: Live(less, x) <==> Live(mid, x)
    ensures Gained(less, more, lo, hi)
  {
  }
}
