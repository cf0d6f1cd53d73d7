/** The doorbell records of dbrec.c: pages of records on a doubly linked list, each with a bit per record
    that says whether it is free. */
module Doorbell {
  import opened Arith
  import opened BitWords
  import opened Bitmap
  import opened Sequences

  // ----- the free bits of a page -------------------------------------------------------

  /** `ffsl(w) - 1` */
  function FirstOne(w: nat, from: nat): (k: nat)
    requires from <= 64
    ensures from <= k <= 64 && (k < 64 ==> Bit(w, k)) && forall j :: from <= j < k ==> !Bit(w, j)
    decreases 64 - from
  {
    if from == 64 || Bit(w, from) then from else FirstOne(w, from + 1)
  }

  ghost predicate LongWords(free: seq<nat>, n: nat): (b: bool)
    ensures b ==> n == 64 * |free|
  {
    n == 64 * |free| && forall i :: 0 <= i < |free| ==> free[i] < Pow2(64)
  }

  /** Which records of a page are free. */
  ghost function FreeSlots(free: seq<nat>, n: nat): (v: seq<bool>)
    requires n == 64 * |free|
    ensures |v| == n
  {
    seq(n, i requires 0 <= i < n => Bit(free[i / 64], i % 64))
  }

  lemma SlotAt(free: seq<nat>, n: nat, i: nat, k: nat)
    requires n == 64 * |free| && i < |free| && k < 64
    ensures 64 * i + k < n && FreeSlots(free, n)[64 * i + k] == Bit(free[i], k)
  {
    Quotient(64 * i + k, 64, i);
  }

  /** A word is zero exactly if none of its records is free. */
  lemma ZeroWord(free: seq<nat>, n: nat, i: nat)
    requires LongWords(free, n) && i < |free|
    ensures free[i] == 0 <==> forall s :: 64 * i <= s < 64 * i + 64 ==> !FreeSlots(free, n)[s]
  {
    var v := FreeSlots(free, n);
    if free[i] == 0 {
      forall s | 64 * i <= s < 64 * i + 64 ensures !v[s] { SlotAt(free, n, i, s - 64 * i); ZeroBit(s - 64 * i); }
    } else if forall s :: 64 * i <= s < 64 * i + 64 ==> !v[s] {
      forall k: nat | k < 64 ensures !Bit(free[i], k) { SlotAt(free, n, i, k); assert !v[64 * i + k]; }
      NoBits(free[i], 64);
    }
  }

  lemma TakenBit(free: seq<nat>, n: nat, i: nat, k: nat)
    requires LongWords(free, n) && i < |free| && k < 64
    ensures var now := free[i := AndNot(free[i], Pow2(k))];
      LongWords(now, n) && FreeSlots(now, n) == FreeSlots(free, n)[64 * i + k := false]
  {
    var now := free[i := AndNot(free[i], Pow2(k))];
    hide Pow2, AndNot, Bit;
    forall s | 0 <= s < n ensures FreeSlots(now, n)[s] == FreeSlots(free, n)[64 * i + k := false][s] {
      AndNotBit(free[i], Pow2(k), s % 64);
      PowerBit(k, s % 64);
    }
  }

  lemma TakenCount(free: seq<nat>, n: nat, i: nat, k: nat)
    requires LongWords(free, n) && i < |free| && k < 64 && FreeSlots(free, n)[64 * i + k]
    ensures var now := free[i := AndNot(free[i], Pow2(k))];
      LongWords(now, n) && FreeSlots(now, n) == FreeSlots(free, n)[64 * i + k := false] &&
      Clear(FreeSlots(now, n)) == Clear(FreeSlots(free, n)) + 1
  {
    TakenBit(free, n, i, k);
    ClearUpdate(FreeSlots(free, n), 64 * i + k, false);
  }

  lemma ReleasedBit(free: seq<nat>, n: nat, slot: nat)
    requires LongWords(free, n) && slot < n
    ensures var now := free[slot / 64 := Or(free[slot / 64], Pow2(slot % 64))];
      LongWords(now, n) && FreeSlots(now, n) == FreeSlots(free, n)[slot := true]
  {
    var i, k := slot / 64, slot % 64;
    PowerMonotone(k, 64);
    OrBound(free[i], Pow2(k), 64);
    var now := free[i := Or(free[i], Pow2(k))];
    hide Pow2, Or, Bit;
    forall s | 0 <= s < n ensures FreeSlots(now, n)[s] == FreeSlots(free, n)[slot := true][s] {
      OrBit(free[i], Pow2(k), s % 64);
      PowerBit(k, s % 64);
    }
  }

  // ----- one page ----------------------------------------------------------------------

  ghost function AllFree(n: nat): (v: seq<bool>)
    ensures |v| == n && forall k :: 0 <= k < n ==> v[k]
  {
    seq(n, _ => true)
  }

  /** The slots v are the free ones, and the others are counted. */
  ghost predicate PageOk(free: seq<nat>, n: nat, v: seq<bool>, useCnt: int): (b: bool)
    ensures b ==> |v| == n
  {
    LongWords(free, n) && v == FreeSlots(free, n) && useCnt == Clear(v)
  }

  /** The counter shows whether a record is free, and whether one is in use. */
  lemma CounterTells(free: seq<nat>, n: nat, v: seq<bool>, useCnt: int)
    requires PageOk(free, n, v, useCnt)
    ensures useCnt >= n ==> forall k :: 0 <= k < |v| ==> !v[k]
    ensures if useCnt == 0 then forall k :: 0 <= k < |v| ==> v[k] else exists k :: 0 <= k < |v| && !v[k]
  {
    ClearAll(v);
  }

  class DbPage {
    var prev: DbPage?
    var next: DbPage?
    const buf: nat
    const numDb: nat
    var useCnt: int
    var free: seq<nat>

    /** The page that `__add_page` fills in: every record is free. */
    constructor (buf: nat, words: nat)
      ensures this.buf == buf && numDb == 64 * words && useCnt == 0 && prev == null
      ensures PageOk(free, numDb, AllFree(64 * words), useCnt)
    {
      this.buf, numDb, useCnt, prev, next := buf, 64 * words, 0, null, null;
      free := seq(words, _ => From(0, 64));
      new;
      ghost var v := AllFree(64 * words);
      forall s | 0 <= s < numDb ensures FreeSlots(free, numDb)[s] { FromBit(0, 64, s % 64); }
      assert v == FreeSlots(free, numDb);
      ClearAll(v);
    }

    /** The second half of `mlx4_alloc_db`: the scan for a free word stays inside the page and finds the
        first free record. */
    method Take(ghost v: seq<bool>) returns (slot: nat)
      requires PageOk(free, numDb, v, useCnt) && useCnt < numDb
      modifies this`useCnt, this`free
      ensures slot < |v| && v[slot] && PageOk(free, numDb, v[slot := false], useCnt)
      ensures forall s :: 0 <= s < slot ==> !v[s]
    {
      hide Clear, FreeSlots, Pow2, AndNot, Bit, LongWords;
      ghost var w := SomeFree(v);
      useCnt := useCnt + 1;
      var i := FirstWord(v, w);
      var j := FirstBit(i, v);
      TakenCount(free, numDb, i, j - 1);
      free := free[i := AndNot(free[i], Pow2(j - 1))];
      slot := i * 8 * 8 + (j - 1);
    }

    lemma SomeFree(v: seq<bool>) returns (w: nat)
      requires PageOk(free, numDb, v, useCnt) && useCnt < numDb
      ensures w < |v| && v[w]
    {
      ClearAll(v);
      w :| w < |v| && v[w];
    }

    /** The scan for a free word: there is one at or before the word of a free record w. */
    method FirstWord(ghost v: seq<bool>, ghost w: nat) returns (i: nat)
      requires LongWords(free, numDb) && v == FreeSlots(free, numDb) && w < |v| && v[w]
      ensures i < |free| && free[i] != 0
      ensures forall s :: 0 <= s < 64 * i ==> !v[s]
    {
      hide FreeSlots, Pow2;
      i := 0;
      while free[i] == 0
        invariant i < |free| && 64 * i <= w && forall s :: 0 <= s < 64 * i ==> !v[s]
        decreases |free| - i
      {
        ZeroWord(free, numDb, i);
        i := i + 1;
      }
    }

    /** `ffsl` of a word that is not zero. */
    method FirstBit(i: nat, ghost v: seq<bool>) returns (j: nat)
      requires LongWords(free, numDb) && v == FreeSlots(free, numDb) && i < |free| && free[i] != 0
      ensures 1 <= j <= 64 && 64 * i + (j - 1) < |v| && v[64 * i + (j - 1)]
      ensures forall s :: 64 * i <= s < 64 * i + (j - 1) ==> !v[s]
    {
      j := FirstOne(free[i], 0) + 1;
      if j == 65 { NoBits(free[i], 64); }
      SlotAt(free, numDb, i, j - 1);
      forall s | 64 * i <= s < 64 * i + (j - 1) ensures !v[s] { SlotAt(free, numDb, i, s - 64 * i); }
    }

    /** The bit and the counter in `mlx4_free_db`: the counter stays right exactly if the record was in
        use. */
    method Release(slot: nat, ghost v: seq<bool>)
      requires PageOk(free, numDb, v, useCnt) && slot < |v|
      modifies this`useCnt, this`free
      ensures LongWords(free, numDb) && FreeSlots(free, numDb) == v[slot := true] && useCnt == old(useCnt) - 1
      ensures PageOk(free, numDb, v[slot := true], useCnt) <==> !v[slot]
    {
      ClearUpdate(v, slot, true);
      ReleasedBit(free, numDb, slot);
      hide Clear, FreeSlots, Pow2, Or, LongWords;
      free := free[slot / (8 * 8) := Or(free[slot / (8 * 8)], Pow2(slot % (8 * 8)))];
      useCnt := useCnt - 1;
    }
  }

  // ----- what the list of pages stands for ---------------------------------------------

  /** A page as its users see it: where it lies and which of its records are free. */
  datatype Records = Records(buf: nat, free: seq<bool>)

  /** The address of record k. */
  function RecordAddr(buf: nat, k: nat, size: nat): (db: nat)
    ensures buf <= db
  {
    MulOrder(size, 0, k);
    buf + size * k
  }

  /** Record k of a page has been handed out at address db. */
  ghost predicate LiveAt(p: Records, size: nat, db: nat, k: nat) {
    k < |p.free| && !p.free[k] && db == RecordAddr(p.buf, k, size)
  }

  ghost predicate Live(pages: seq<Records>, size: nat, db: nat) {
    exists i, k :: 0 <= i < |pages| && LiveAt(pages[i], size, db, k)
  }

  /** The size of a page in records. */
  function Capacity(ps: nat, size: nat): nat
    requires size > 0
  {
    ps / size
  }

  /** Pages are aligned and do not overlap, their records lie inside them, and no page is unused. */
  ghost predicate Separate(pages: seq<Records>, ps: nat, size: nat) {
    size > 0 && PowerOfTwo(ps) &&
    (forall i :: 0 <= i < |pages| ==> pages[i].buf % ps == 0 && |pages[i].free| == Capacity(ps, size)) &&
    (forall i, j :: 0 <= i < j < |pages| ==> pages[i].buf != pages[j].buf)
  }

  /** No page on the list is unused. */
  ghost predicate InUse(pages: seq<Records>) {
    forall i :: 0 <= i < |pages| ==> Used(pages[i])
  }

  ghost predicate Used(p: Records) {
    exists k :: 0 <= k < |p.free| && !p.free[k]
  }

  lemma InsidePage(ps: nat, size: nat, k: nat)
    requires size > 0 && k < ps / size
    ensures 0 <= size * k < ps
  {
    FloorMod(ps, size);
    Cancel(size, k, ps / size); MulOrder(size, k + 1, ps / size); MulOrder(size, 0, k);
  }

  /** A page is found by the upper bits of an address, its record by the offset. */
  lemma AddressOf(p: Records, ps: nat, size: nat, k: nat)
    requires PowerOfTwo(ps) && size > 0 && p.buf % ps == 0 && |p.free| == Capacity(ps, size) && k < |p.free|
    ensures var db := RecordAddr(p.buf, k, size); AndNot(db, ps - 1) == p.buf && (db - p.buf) / size == k
  {
    InsidePage(ps, size, k);
    Quotient(size * k, size, k);
    UpperBits(p.buf, ps, size * k);
  }

  lemma UpperBits(buf: nat, ps: nat, o: nat)
    requires PowerOfTwo(ps) && buf % ps == 0 && o < ps
    ensures AndNot(buf + o, ps - 1) == buf
  {
    var q := buf / ps;
    FloorMod(buf, ps);
    hide AndNot, And, PowerOfTwo, Masked;
    Quotient(buf + o, ps, q);
    MaskIsRemainder(buf + o, ps);
    MaskSplits(buf + o, ps);
  }

  lemma MaskSplits(x: nat, m: nat)
    requires m > 0
    ensures Masked(x, m) + AndNot(x, m - 1) == x
  {
    AndAndNot(x, m - 1);
  }

  /** An address belongs to at most one record. */
  lemma OneRecord(pages: seq<Records>, ps: nat, size: nat, i: nat, k: nat, j: nat, l: nat)
    requires Separate(pages, ps, size) && i < |pages| && j < |pages| && k < |pages[i].free| && l < |pages[j].free|
    requires RecordAddr(pages[i].buf, k, size) == RecordAddr(pages[j].buf, l, size)
    ensures i == j && k == l
  {
    AddressOf(pages[i], ps, size, k);
    AddressOf(pages[j], ps, size, l);
  }

  /** Where a record lies: whole inside the page that the upper bits of its address name, at a multiple of the
      record size from its start; another record of the page is at least one size away. */
  ghost predicate Placed(db: int, buf: nat, ps: nat, size: nat) {
    size > 0 && 0 <= db && ps > 0 && buf == AndNot(db, ps - 1) && (db - buf) % size == 0 &&
    buf <= db && db + size <= buf + ps
  }

  lemma RecordPlaced(p: Records, ps: nat, size: nat, k: nat)
    requires PowerOfTwo(ps) && size > 0 && p.buf % ps == 0 && |p.free| == Capacity(ps, size) && k < |p.free|
    ensures Placed(RecordAddr(p.buf, k, size), p.buf, ps, size)
  {
    AddressOf(p, ps, size, k);
    FloorMod(ps, size);
    MulOrder(size, k + 1, ps / size);
    Cancel(size, k, k);
    Quotient(size * k, size, k);
  }

  /** A live address is that of a record placed on a page of the list. */
  lemma LivePlaced(pages: seq<Records>, ps: nat, size: nat, x: nat) returns (i: nat)
    requires Separate(pages, ps, size) && Live(pages, size, x)
    ensures i < |pages| && Placed(x, pages[i].buf, ps, size)
  {
    var k;
    i, k :| 0 <= i < |pages| && LiveAt(pages[i], size, x, k);
    RecordPlaced(pages[i], ps, size, k);
  }

  /** Two records share no byte. */
  lemma PlacedApart(x: nat, y: nat, buf: nat, buf': nat, ps: nat, size: nat)
    requires Placed(x, buf, ps, size) && Placed(y, buf', ps, size) && x < y && PowerOfTwo(ps)
    requires buf % ps == 0 && buf' % ps == 0
    ensures x + size <= y
  {
    if buf == buf' {
      FloorMod(x - buf, size); FloorMod(y - buf, size);
      Cancel(size, (x - buf) / size, (y - buf) / size);
      MulOrder(size, (x - buf) / size + 1, (y - buf) / size);
    } else {
      FloorMod(buf, ps); FloorMod(buf', ps);
      Cancel(ps, buf / ps, buf' / ps); Cancel(ps, buf' / ps, buf / ps);
      if buf < buf' { MulOrder(ps, buf / ps + 1, buf' / ps); } else { MulOrder(ps, buf' / ps + 1, buf / ps); }
    }
  }

  /** The record that an address on a page falls into. */
  lemma RecordAround(db: nat, buf: nat, ps: nat, size: nat)
    requires ps > 0 && size > 0 && AndNot(db, ps - 1) == buf
    ensures buf <= db
    ensures var record := RecordAddr(buf, RecordNo(db, buf, size), size);
      record <= db < record + size && (record - buf) % size == 0
  {
    AndAndNot(db, ps - 1);
    FloorMod(db - buf, size);
    Quotient(size * ((db - buf) / size), size, (db - buf) / size);
  }

  /** If every record is in use, there is no place for another one on any page. */
  lemma FullPages(pages: seq<Records>, ps: nat, size: nat)
    requires Separate(pages, ps, size)
    ensures AllInUse(pages) ==>
      forall i, x :: 0 <= i < |pages| && Placed(x, pages[i].buf, ps, size) ==> Live(pages, size, x)
  {
    if AllInUse(pages) {
      forall i, x | 0 <= i < |pages| && Placed(x, pages[i].buf, ps, size) ensures Live(pages, size, x) {
        var k := (x - pages[i].buf) / size;
        FloorMod(x - pages[i].buf, size); FloorMod(ps, size);
        Cancel(size, k, ps / size); Cancel(size, ps / size, k + 1);
        assert LiveAt(pages[i], size, x, k);
      }
    }
  }

  /** Record k of page i is handed out: its address was not in use, and nothing else changes. */
  lemma Grant(pages: seq<Records>, ps: nat, size: nat, i: nat, k: nat)
    requires Separate(pages, ps, size) && i < |pages| && k < |pages[i].free| && pages[i].free[k]
    ensures var db, now := RecordAddr(pages[i].buf, k, size), pages[i := pages[i].(free := pages[i].free[k := false])];
      Separate(now, ps, size) && Granted(pages, now, size, db)
  {
    var db, now := RecordAddr(pages[i].buf, k, size), pages[i := pages[i].(free := pages[i].free[k := false])];
    if Live(pages, size, db) {
      var j, l :| 0 <= j < |pages| && LiveAt(pages[j], size, db, l);
      OneRecord(pages, ps, size, i, k, j, l);
    }
    assert LiveAt(now[i], size, db, k);
    forall x ensures Live(now, size, x) <==> Live(pages, size, x) || x == db {
      if Live(pages, size, x) {
        var j, l :| 0 <= j < |pages| && LiveAt(pages[j], size, x, l);
        assert LiveAt(now[j], size, x, l);
      }
      if Live(now, size, x) && x != db {
        var j, l :| 0 <= j < |now| && LiveAt(now[j], size, x, l);
        assert LiveAt(pages[j], size, x, l);
      }
    }
  }

  /** Record k of page i is taken back. */
  lemma Revoke(pages: seq<Records>, ps: nat, size: nat, i: nat, k: nat)
    requires Separate(pages, ps, size) && i < |pages| && k < |pages[i].free| && !pages[i].free[k]
    ensures var db, now := RecordAddr(pages[i].buf, k, size), pages[i := pages[i].(free := pages[i].free[k := true])];
      Separate(now, ps, size) && Revoked(pages, now, size, db)
  {
    var db, now := RecordAddr(pages[i].buf, k, size), pages[i := pages[i].(free := pages[i].free[k := true])];
    forall x ensures Live(now, size, x) <==> Live(pages, size, x) && x != db {
      if Live(pages, size, x) && x != db {
        var j, l :| 0 <= j < |pages| && LiveAt(pages[j], size, x, l);
        assert LiveAt(now[j], size, x, l);
      }
      if Live(now, size, x) {
        var j, l :| 0 <= j < |now| && LiveAt(now[j], size, x, l);
        assert LiveAt(pages[j], size, x, l);
        if x == db { OneRecord(pages, ps, size, i, k, j, l); }
      }
    }
  }

  /** A page all of whose records are free may come and go. */
  lemma Unused(pages: seq<Records>, size: nat, i: nat)
    requires i < |pages| && forall k :: 0 <= k < |pages[i].free| ==> pages[i].free[k]
    ensures forall x :: Live(Without(pages, i), size, x) <==> Live(pages, size, x)
  {
    var rest := Without(pages, i);
    forall x ensures Live(rest, size, x) <==> Live(pages, size, x) {
      if Live(pages, size, x) {
        var j, l :| 0 <= j < |pages| && LiveAt(pages[j], size, x, l);
        assert LiveAt(rest[if j < i then j else j - 1], size, x, l);
      }
      if Live(rest, size, x) {
        var j, l :| 0 <= j < |rest| && LiveAt(rest[j], size, x, l);
        assert LiveAt(pages[if j < i then j else j + 1], size, x, l);
      }
    }
  }

  /** Address db, which was not in use, is in use now, and nothing else has changed. */
  ghost predicate Granted(was: seq<Records>, now: seq<Records>, size: nat, db: nat) {
    !Live(was, size, db) && forall x :: Live(now, size, x) <==> Live(was, size, x) || x == db
  }

  ghost predicate Revoked(was: seq<Records>, now: seq<Records>, size: nat, db: nat) {
    forall x :: Live(now, size, x) <==> Live(was, size, x) && x != db
  }

  ghost predicate AllInUse(pages: seq<Records>) {
    forall i, k :: 0 <= i < |pages| && 0 <= k < |pages[i].free| ==> !pages[i].free[k]
  }

  /** A new page with nothing but free records makes no address live. */
  lemma OneMore(was: seq<Records>, now: seq<Records>)
    requires |now| > 0 && now == [now[0]] + was && forall k :: 0 <= k < |now[0].free| ==> now[0].free[k]
    ensures forall size, x :: Live(now, size, x) <==> Live(was, size, x)
    ensures InUse(was) ==> forall j :: 0 < j < |now| ==> Used(now[j])
  {
    assert Without(now, 0) == was;
    forall size, x ensures Live(now, size, x) <==> Live(was, size, x) { Unused(now, size, 0); }
    assert forall j :: 0 < j < |now| ==> now[j] == was[j - 1];
  }

  lemma GrantedThrough(was: seq<Records>, mid: seq<Records>, now: seq<Records>, size: nat, db: nat)
    requires (forall x :: Live(mid, size, x) <==> Live(was, size, x)) && Granted(mid, now, size, db)
    ensures Granted(was, now, size, db)
  {
  }

  lemma RevokedThrough(was: seq<Records>, mid: seq<Records>, now: seq<Records>, size: nat, db: nat)
    requires Revoked(was, mid, size, db) && forall x :: Live(now, size, x) <==> Live(mid, size, x)
    ensures Revoked(was, now, size, db)
  {
  }

  lemma SeparateNew(book: seq<Records>, ps: nat, size: nat, mem: nat)
    requires Separate(book, ps, size) && size > 0 && ps > 0 && mem % ps == 0
    requires forall i :: 0 <= i < |book| ==> book[i].buf != mem
    ensures forall free: seq<bool> :: |free| == Capacity(ps, size) ==> Separate([Records(mem, free)] + book, ps, size)
  {
  }

  lemma SeparateLess(book: seq<Records>, ps: nat, size: nat, i: nat)
    requires Separate(book, ps, size) && i < |book|
    ensures Separate(Without(book, i), ps, size)
  {
  }

  lemma PositiveSizes(book: seq<Records>, ps: nat, size: nat)
    requires Separate(book, ps, size)
    ensures ps > 0 && size > 0
  {
  }

  lemma StillUsed(p: Records)
    requires exists k :: 0 <= k < |p.free| && !p.free[k]
    ensures Used(p)
  {
  }

  function RecordNo(db: nat, buf: nat, size: nat): nat
    requires size > 0 && buf <= db
  {
    (db - buf) / size
  }

  lemma NotOnAnyPage(book: seq<Records>, ps: nat, size: nat, db: nat)
    requires Separate(book, ps, size) && forall j :: 0 <= j < |book| ==> AndNot(db, ps - 1) != book[j].buf
    ensures !Live(book, size, db)
    ensures Revoked(book, book, size, db)
  {
    if Live(book, size, db) {
      var j, l :| 0 <= j < |book| && LiveAt(book[j], size, db, l);
      AddressOf(book[j], ps, size, l);
    }
  }

  /** The page found is the page of the record, and the division gives its number. */
  lemma Located(book: seq<Records>, ps: nat, size: nat, db: nat, i: nat)
    requires Separate(book, ps, size) && i < |book| && AndNot(db, ps - 1) == book[i].buf && Live(book, size, db)
    ensures book[i].buf <= db
    ensures LiveAt(book[i], size, db, RecordNo(db, book[i].buf, size))
  {
    var j, l :| 0 <= j < |book| && LiveAt(book[j], size, db, l);
    AddressOf(book[j], ps, size, l);
  }

  // ----- the list ----------------------------------------------------------------------

  ghost function PageAt(pages: seq<DbPage>, i: int): DbPage? { if 0 <= i < |pages| then pages[i] else null }

  ghost function Nth(pages: seq<DbPage>, i: nat): DbPage
    requires i < |pages|
  {
    pages[i]
  }

  /** Page i points to its neighbours. */
  ghost predicate Joined(pages: seq<DbPage>, i: nat)
    requires i < |pages|
    reads Nth(pages, i)`prev, Nth(pages, i)`next
  {
    pages[i].prev == PageAt(pages, i - 1) && pages[i].next == PageAt(pages, i + 1)
  }

  /** Page i points to its neighbours, past the gap. */
  ghost predicate Bridged(pages: seq<DbPage>, i: nat, gap: nat)
    requires i < |pages|
    reads Nth(pages, i)`prev, Nth(pages, i)`next
  {
    pages[i].prev == PageAt(pages, if i == gap + 1 then i - 2 else i - 1) &&
    pages[i].next == PageAt(pages, if i + 1 == gap then i + 2 else i + 1)
  }

  ghost predicate Distinct(pages: seq<DbPage>) { forall i, j :: 0 <= i < j < |pages| ==> pages[i] != pages[j] }

  lemma DistinctLess(pages: seq<DbPage>, i: nat)
    requires Distinct(pages) && i < |pages|
    ensures Distinct(Without(pages, i))
  {
  }

  ghost predicate Shown(page: DbPage, r: Records)
    reads page`useCnt, page`free
  {
    r.buf == page.buf && PageOk(page.free, page.numDb, r.free, page.useCnt)
  }

  /** The book shows every page, with its free records. */
  ghost predicate Booked(repr: set<DbPage>, pages: seq<DbPage>, book: seq<Records>)
    reads repr`useCnt, repr`free
  {
    |book| == |pages| && forall i :: 0 <= i < |pages| ==> pages[i] in repr && Shown(pages[i], book[i])
  }

  lemma BookedMore(repr: set<DbPage>, pages: seq<DbPage>, book: seq<Records>, page: DbPage, r: Records)
    requires Booked(repr, pages, book) && Shown(page, r)
    ensures Booked(repr + {page}, [page] + pages, [r] + book)
  {
  }

  lemma BookedLess(repr: set<DbPage>, pages: seq<DbPage>, book: seq<Records>, i: nat)
    requires Booked(repr, pages, book) && i < |pages|
    ensures Booked(repr, Without(pages, i), Without(book, i))
  {
  }

  lemma UsedAt(book: seq<Records>, i: nat)
    requires InUse(book) && i < |book|
    ensures Used(book[i])
  {
  }

  lemma InUseAll(book: seq<Records>, i: nat)
    requires i < |book| && Used(book[i]) && forall j :: 0 <= j < |book| && j != i ==> Used(book[j])
    ensures InUse(book)
  {
  }

  lemma InUseLess(book: seq<Records>, i: nat)
    requires i < |book| && forall j :: 0 <= j < |book| && j != i ==> Used(book[j])
    ensures InUse(Without(book, i))
  {
  }

  class DbContext {
    const ps: nat         // the page size of the device
    const size: nat       // the size of a record of this type
    var dbList: DbPage?
    ghost var repr: set<DbPage>   // every page that was ever on the list
    ghost var pages: seq<DbPage>
    ghost var book: seq<Records>

    /** The list runs through the pages in both directions. */
    ghost predicate Linked()
      reads this`dbList, this`pages, this`repr, repr`prev, repr`next
    {
      (forall i :: 0 <= i < |pages| ==> pages[i] in repr) &&
      Distinct(pages) && dbList == PageAt(pages, 0) &&
      (forall i :: 0 <= i < |pages| ==> Joined(pages, i))
    }

    ghost predicate Sound()
      reads this, repr
    {
      Linked() && Booked(repr, pages, book) && Separate(book, ps, size) &&
      0 < size && Capacity(ps, size) > 0 && Capacity(ps, size) % 64 == 0
    }

    ghost predicate Valid()
      reads this, repr
    {
      Sound() && InUse(book)
    }

    constructor (ps: nat, size: nat)
      requires PowerOfTwo(ps) && size > 0 && 0 < Capacity(ps, size) && Capacity(ps, size) % 64 == 0
      ensures Valid() && pages == [] && book == [] && this.ps == ps && this.size == size
    {
      this.ps, this.size, dbList, repr, pages, book := ps, size, null, {}, [], [];
    }

    /** The search of `mlx4_alloc_db` for a page with a free record. */
    method FindPage() returns (page: DbPage?, ghost i: nat)
      requires Linked()
      ensures page == null ==> forall j :: 0 <= j < |pages| ==> pages[j].useCnt >= pages[j].numDb
      ensures page != null ==> i < |pages| && page == pages[i] && page.useCnt < page.numDb
    {
      page := dbList;
      i := 0;
      while page != null && page.useCnt >= page.numDb
        invariant i <= |pages| && page == PageAt(pages, i)
        invariant forall j :: 0 <= j < i ==> pages[j].useCnt >= pages[j].numDb
        decreases |pages| - i
      {
        assert Joined(pages, i);
        page := page.next;
        i := i + 1;
      }
    }

    /** mem is a page of memory apart from those of the list. */
    ghost predicate Apart(mem: nat)
      reads this`book
    {
      0 < ps && mem % ps == 0 && forall i :: 0 <= i < |book| ==> book[i].buf != mem
    }

    /** A new page becomes the head of the list. */
    method Push(page: DbPage)
      requires Linked() && page !in repr && page.prev == null
      modifies this`dbList, this`pages, this`repr, page`next, repr`prev
      ensures Linked() && pages == [page] + old(pages) && repr == old(repr) + {page}
    {
      ghost var was := pages;
      assert forall j :: 0 <= j < |was| ==> was[j] != page;
      assert 0 < |was| ==> Joined(was, 0);
      page.next := dbList;
      dbList := page;
      if page.next != null {
        page.next.prev := page;
      }
      pages, repr := [page] + pages, repr + {page};
      forall j | 0 <= j < |pages| ensures Joined(pages, j) {
        assert 0 < j ==> pages[j] == was[j - 1] && old(Joined(pages, j - 1));
      }
    }

    /** And the first entry of the book. */
    method Register(page: DbPage, ghost r: Records)
      requires Linked() && Booked(repr, pages, book) && page !in repr && page.prev == null && Shown(page, r)
      modifies this`dbList, this`pages, this`repr, this`book, page`next, repr`prev
      ensures Linked() && pages == [page] + old(pages) && repr == old(repr) + {page}
      ensures Booked(repr, pages, book) && book == [r] + old(book)
    {
      BookedMore(repr, pages, book, page, r);
      hide Booked, Shown, Linked;
      book := [r] + book;
      Push(page);
    }

    /** `__add_page`: mem is what `mlx4_alloc_buf` finds, or negative if it finds nothing. */
    method AddPage(mem: int) returns (page: DbPage?)
      requires Sound() && (0 <= mem ==> Apart(mem))
      modifies this`dbList, this`pages, this`repr, this`book, repr`prev
      ensures Sound() && (page == null <==> mem < 0) && repr == old(repr) + if page == null then {} else {page}
      ensures page == null ==> pages == old(pages) && book == old(book)
      ensures page != null ==>
        fresh(page) && pages == [page] + old(pages) && page.useCnt < page.numDb && book == [NewRecords(mem)] + old(book)
    {
      if mem < 0 {
        return null;
      }
      hide Separate, Linked, Booked, PageOk, Distinct;
      assert Capacity(ps, size) > 0;
      var p := new DbPage(mem, Capacity(ps, size) / 64);
      LinkIn(p);
      page := p;
    }

    ghost function NewRecords(mem: nat): Records
      requires size > 0
    {
      Records(mem, AllFree(Capacity(ps, size)))
    }

    /** A filled-in page is put on the list. */
    method LinkIn(page: DbPage)
      requires Sound() && Apart(page.buf) && page !in repr && page.prev == null && page.numDb == Capacity(ps, size)
      requires PageOk(page.free, page.numDb, AllFree(page.numDb), page.useCnt)
      modifies this`dbList, this`pages, this`repr, this`book, page`next, repr`prev
      ensures Sound() && pages == [page] + old(pages) && book == [NewRecords(page.buf)] + old(book)
      ensures repr == old(repr) + {page}
    {
      SeparateNew(book, ps, size, page.buf);
      hide Separate, PageOk, Capacity, Linked, Booked, Distinct, AllFree;
      Register(page, NewRecords(page.buf));
    }

    /** `mlx4_alloc_db`: the address it returns was not in use, and only that address is from now on; it is the
        lowest one of its page that is a multiple of the record size from the start and not in use, and the whole
        record lies on the page. A new page is made exactly if every record of every page is in use, and the
        call fails exactly if then there is none. */
    method AllocDb(mem: int) returns (db: int)
      requires Valid() && (0 <= mem ==> Apart(mem))
      modifies this, repr
      ensures Valid()
      ensures fresh(repr - old(repr)) && old(repr) <= repr
      ensures db < 0 <==> mem < 0 && AllInUse(old(book))
      ensures db < 0 ==> db == -1 && book == old(book) && pages == old(pages)
      ensures db >= 0 ==> Granted(old(book), book, size, db)
      ensures db >= 0 ==>
        exists i ::
          0 <= i < |book| && i < |pages| && pages[i].buf == book[i].buf && Placed(db, book[i].buf, ps, size) &&
          forall x :: book[i].buf <= x < db && (x - book[i].buf) % size == 0 ==> old(Live(book, size, x))
      ensures AllInUse(old(book)) ==>
        forall i, x :: 0 <= i < |old(book)| && Placed(x, old(book)[i].buf, ps, size) ==> old(Live(book, size, x))
      ensures db >= 0 ==> if AllInUse(old(book)) then db == mem && |pages| == |old(pages)| + 1 else pages == old(pages)
    {
      hide Separate, PageOk, Capacity, Granted, Live, Used, Placed, AllInUse;
      var page, i := FindPage();
      FullPages(book, ps, size);
      if page == null {
        Exhausted();
        page := AddPage(mem);
        if page == null {
          return -1;
        }
        i := 0;
        OneMore(old(book), book);
      } else {
        RoomOnPage(i);
      }
      ghost var mid := book;
      assert Separate(mid, ps, size);
      db := TakeFrom(page, i);
      if fresh(page) { NewPageStart(mid, ps, size, mem, db); }
      GrantedThrough(old(book), mid, book, size, db);
      PageShown(i);
    }

    lemma PageShown(i: nat)
      requires Linked() && Booked(repr, pages, book) && i < |pages|
      ensures i < |book| && pages[i].buf == book[i].buf
    {
      assert Shown(pages[i], book[i]);
    }

    /** The start of a new page is not in use, so it is what is handed out. */
    static lemma NewPageStart(book: seq<Records>, ps: nat, size: nat, mem: nat, db: nat)
      requires Separate(book, ps, size) && |book| > 0 && book[0].buf == mem <= db
      requires forall k :: 0 <= k < |book[0].free| ==> book[0].free[k]
      requires forall x :: mem <= x < db && (x - mem) % size == 0 ==> Live(book, size, x)
      ensures db == mem
    {
      if mem < db {
        assert (mem - mem) % size == 0;
        assert Live(book, size, mem);
        var j, l :| 0 <= j < |book| && LiveAt(book[j], size, mem, l);
        AddressOf(book[j], ps, size, l);
        UpperBits(mem, ps, 0);
      }
    }

    /** A page with a small counter has a free record. */
    lemma RoomOnPage(i: nat)
      requires Sound() && i < |pages| && pages[i].useCnt < pages[i].numDb
      ensures !AllInUse(book)
    {
      assert Shown(pages[i], book[i]);
      var k := pages[i].SomeFree(book[i].free);
      assert book[i].free[k];
    }

    /** A full page has no free record. */
    lemma Exhausted()
      requires Sound() && forall j :: 0 <= j < |pages| ==> pages[j].useCnt >= pages[j].numDb
      ensures AllInUse(book)
    {
      hide Separate, PageOk, Capacity;
      forall i | 0 <= i < |book| ensures forall k :: 0 <= k < |book[i].free| ==> !book[i].free[k] {
        CounterTells(pages[i].free, pages[i].numDb, book[i].free, pages[i].useCnt);
      }
    }

    lemma SeparateAt(i: nat)
      requires Sound() && i < |pages|
      ensures i < |book| && PowerOfTwo(ps) && size > 0 && book[i].buf % ps == 0
      ensures |book[i].free| == Capacity(ps, size)
    {
    }

    /** The records below the first free one are in use. */
    static lemma LowerInUse(book: seq<Records>, size: nat, i: nat, slot: nat)
      requires size > 0 && i < |book| && slot < |book[i].free| && forall s :: 0 <= s < slot ==> !book[i].free[s]
      ensures var buf := book[i].buf;
        forall x :: buf <= x < RecordAddr(buf, slot, size) && (x - buf) % size == 0 ==> Live(book, size, x)
    {
      var buf := book[i].buf;
      forall x | buf <= x < RecordAddr(buf, slot, size) && (x - buf) % size == 0 ensures Live(book, size, x) {
        var k := (x - buf) / size;
        FloorMod(x - buf, size);
        Cancel(size, k, slot);
        assert LiveAt(book[i], size, x, k);
      }
    }

    /** The first free record of page i is handed out. */
    method TakeFrom(page: DbPage, ghost i: nat) returns (db: nat)
      requires Sound() && i < |pages| && page == pages[i] && page.useCnt < page.numDb
      requires forall j :: 0 <= j < |book| && j != i ==> Used(book[j])
      modifies this`book, page`useCnt, page`free
      ensures Valid() && pages == old(pages) && repr == old(repr) && Granted(old(book), book, size, db)
      ensures i < |old(book)| && page.buf == old(book)[i].buf <= db && Placed(db, page.buf, ps, size)
      ensures |book| == |old(book)| && forall j :: 0 <= j < |book| ==> book[j].buf == old(book)[j].buf
      ensures forall x :: page.buf <= x < db && (x - page.buf) % size == 0 ==> Live(old(book), size, x)
    {
      hide Separate, PageOk, Capacity, Granted, Live, RecordAddr, Linked, InUse, Booked, Placed;
      ghost var was := book;
      SeparateAt(i);
      var slot := TakeAt(page, i);
      db := RecordAddr(page.buf, slot, size);
      RecordPlaced(was[i], ps, size, slot);
      LowerInUse(was, size, i, slot);
      Grant(was, ps, size, i, slot);
      assert Used(book[i]) by { assert !book[i].free[slot]; }
      InUseAll(book, i);
    }

    method TakeAt(page: DbPage, ghost i: nat) returns (slot: nat)
      requires Linked() && Booked(repr, pages, book) && i < |pages| && page == pages[i] && page.useCnt < page.numDb
      modifies this`book, page`useCnt, page`free
      ensures Linked() && Booked(repr, pages, book) && i < |old(book)| && page.buf == old(book)[i].buf
      ensures slot < |old(book)[i].free| && old(book)[i].free[slot]
      ensures forall s :: 0 <= s < slot ==> !old(book)[i].free[s]
      ensures book == old(book)[i := old(book)[i].(free := old(book)[i].free[slot := false])]
    {
      hide PageOk;
      slot := page.Take(book[i].free);
      book := book[i := book[i].(free := book[i].free[slot := false])];
    }

    /** The bit and the counter, seen in the book: it stays right if the record was in use. */
    method ReleaseAt(page: DbPage, ghost i: nat, slot: nat)
      requires Linked() && Booked(repr, pages, book) && i < |pages| && page == pages[i]
      requires i < |book| && slot < |book[i].free|
      modifies this`book, page`useCnt, page`free
      ensures Linked() && page.buf == old(book)[i].buf && page.useCnt == old(page.useCnt) - 1
      ensures book == old(book)[i := old(book)[i].(free := old(book)[i].free[slot := true])]
      ensures LongWords(page.free, page.numDb) && FreeSlots(page.free, page.numDb) == book[i].free
      ensures !old(book)[i].free[slot] ==> Booked(repr, pages, book)
    {
      hide PageOk, LongWords, FreeSlots;
      page.Release(slot, book[i].free);
      book := book[i := book[i].(free := book[i].free[slot := true])];
    }

    /** The search of `mlx4_free_db` for the page of an address. */
    method PageOf(db: nat) returns (page: DbPage?, ghost i: nat)
      requires Linked() && 0 < ps
      ensures page == null ==> forall j :: 0 <= j < |pages| ==> AndNot(db, ps - 1) != pages[j].buf
      ensures page != null ==> i < |pages| && page == pages[i] && AndNot(db, ps - 1) == page.buf
    {
      hide AndNot;
      page := dbList;
      i := 0;
      while page != null && AndNot(db, ps - 1) != page.buf
        invariant i <= |pages| && page == PageAt(pages, i)
        invariant forall j :: 0 <= j < i ==> AndNot(db, ps - 1) != pages[j].buf
        decreases |pages| - i
      {
        assert Joined(pages, i);
        page := page.next;
        i := i + 1;
      }
    }

    method ReleaseIn(page: DbPage, ghost i: nat, slot: nat)
      requires Sound() && InUse(book) && i < |pages| && page == pages[i] && i < |book| && slot < |book[i].free|
      modifies this`book, page`useCnt, page`free
      ensures Linked() && page.useCnt == old(page.useCnt) - 1
      ensures book == old(book)[i := old(book)[i].(free := old(book)[i].free[slot := true])]
      ensures LongWords(page.free, page.numDb) && FreeSlots(page.free, page.numDb) == book[i].free
      ensures !old(book)[i].free[slot] ==>
        Sound() && Revoked(old(book), book, size, RecordAddr(page.buf, slot, size)) &&
        forall j :: 0 <= j < |book| && j != i ==> Used(book[j])
    {
      hide Separate, PageOk, Capacity, Revoked, Live, Used, RecordAddr, Linked, Booked, LongWords, FreeSlots;
      ghost var was := book;
      ReleaseAt(page, i, slot);
      if !was[i].free[slot] { Revoke(was, ps, size, i, slot); }
    }

    /** The writes that take page i out of the list. */
    method Bypass(page: DbPage, ghost i: nat)
      requires Linked() && i < |pages| && page == pages[i]
      modifies this`dbList, repr`prev, repr`next
      ensures dbList == PageAt(pages, if i == 0 then 1 else 0)
      ensures forall j :: 0 <= j < |pages| && j != i ==> Bridged(pages, j, i)
    {
      assert Joined(pages, i);
      assert 0 < i ==> Joined(pages, i - 1);
      assert i + 1 < |pages| ==> Joined(pages, i + 1);
      if page.prev != null {
        page.prev.next := page.next;
      } else {
        dbList := page.next;
      }
      if page.next != null {
        page.next.prev := page.prev;
      }
      forall j | 0 <= j < |pages| && j != i ensures Bridged(pages, j, i) {
        assert old(Joined(pages, j));
      }
    }

    method Detach(page: DbPage, ghost i: nat)
      requires Linked() && i < |pages| && page == pages[i]
      modifies this`dbList, this`pages, repr`prev, repr`next
      ensures Linked() && pages == Without(old(pages), i)
    {
      ghost var was := pages;
      DistinctLess(was, i);
      hide Distinct;
      Bypass(page, i);
      pages := Without(pages, i);
      forall j | 0 <= j < |pages| ensures Joined(pages, j) {
        assert Bridged(was, if j < i then j else j + 1, i);
      }
    }

    lemma WithoutPage(i: nat)
      requires Sound() && i < |pages| && forall j :: 0 <= j < |book| && j != i ==> Used(book[j])
      ensures |book| == |pages| && InUse(Without(book, i)) && Separate(Without(book, i), ps, size)
      ensures Booked(repr, Without(pages, i), Without(book, i))
    {
      SeparateLess(book, ps, size, i);
      BookedLess(repr, pages, book, i);
      InUseLess(book, i);
    }

    /** A page whose counter is zero leaves the list. */
    method Unlink(page: DbPage, ghost i: nat, ghost sound: bool)
      requires Linked() && i < |pages| && page == pages[i] && i < |book|
      requires sound ==> Sound() && forall j :: 0 <= j < |book| && j != i ==> Used(book[j])
      modifies this`dbList, this`pages, this`book, repr`prev, repr`next
      ensures Linked() && book == Without(old(book), i) && pages == Without(old(pages), i)
      ensures sound ==> Valid()
    {
      if sound { WithoutPage(i); }
      hide Separate, PageOk, Capacity, Used, Linked, Booked, InUse, Without, Distinct, Shown, PageAt;
      book := Without(book, i);
      Detach(page, i);
    }

    /** How `mlx4_free_db` treats page i for record k: a page on the list whose record k is free loses a count
        all the same, and with the last one its place on the list, although some record of it is in use. */
    ghost predicate Miscounted(page: DbPage, i: nat, was: seq<DbPage>, wasBook: seq<Records>, wasCnt: int)
      reads this, repr, page
    {
      i < |was| && i < |wasBook| && page == was[i] && Linked() && Used(wasBook[i]) && page.useCnt == wasCnt - 1 &&
      FreeSlotsAre(page, wasBook[i].free) &&
      if wasCnt == 1 then pages == Without(was, i) && book == Without(wasBook, i) else pages == was && book == wasBook
    }

    ghost predicate FreeSlotsAre(page: DbPage, v: seq<bool>)
      reads page
    {
      LongWords(page.free, page.numDb) && v == FreeSlots(page.free, page.numDb)
    }

    /** `mlx4_free_db`: an address that lies on no page is ignored; otherwise the record that the address falls
        into, which must exist, is given back. If it was in use, exactly its address leaves. If it was free
        already, the page is miscounted. */
    method FreeDb(db: nat) returns (ghost i: int)
      requires Valid()
      requires forall j :: 0 <= j < |book| && OnPage(db, book[j].buf) ==> Slot(db, book[j].buf) < |book[j].free|
      modifies this, repr
      ensures -1 <= i < |old(book)| && repr == old(repr)
      ensures i == -1 ==> Valid() && book == old(book) && pages == old(pages)
      ensures i == -1 <==> forall j :: 0 <= j < |old(book)| ==> !OnPage(db, old(book)[j].buf)
      ensures i >= 0 ==> OnPage(db, old(book)[i].buf) && i < |old(pages)| && old(pages)[i] in old(repr)
      ensures i >= 0 ==>
        var buf := old(book)[i].buf;
        var record := RecordAddr(buf, Slot(db, buf), size);
        size > 0 && record <= db < record + size && (record - buf) % size == 0
      ensures i >= 0 ==>
        var slot, p := Slot(db, old(book)[i].buf), old(book)[i];
        if !p.free[slot] then Valid() && Revoked(old(book), book, size, RecordAddr(p.buf, slot, size))
        else Miscounted(old(pages)[i], i, old(pages), old(book), old(pages[i].useCnt))
      ensures old(Live(book, size, db)) ==> Valid() && Revoked(old(book), book, size, db)
    {
      hide Separate, PageOk, Capacity, Revoked, Live, Used, AndNot, RecordAddr, RecordNo, Linked, InUse, Distinct;
      PositiveSizes(book, ps, size);
      var page;
      page, i := PageOf(db);
      if page == null {
        NotOnAnyPage(book, ps, size, db);
        i := -1;
        return;
      }
      assert Shown(page, book[i]);
      if Live(book, size, db) { Located(book, ps, size, db, i); }
      RecordAround(db, page.buf, ps, size);
      GiveBack(page, i, db);
    }

    /** Address db lies on the page at buf, in this record. */
    ghost predicate OnPage(db: nat, buf: nat) { 0 < ps && AndNot(db, ps - 1) == buf }

    ghost function Slot(db: nat, buf: nat): nat
      requires OnPage(db, buf)
    {
      if 0 < size then RecordNo(db, buf, size) else 0
    }

    lemma InRepr(i: nat)
      requires Linked() && i < |pages|
      ensures pages[i] in repr
    {
    }

    static lemma SameBook(book: seq<Records>, i: nat, k: nat)
      requires i < |book| && k < |book[i].free| && book[i].free[k]
      ensures book[i := book[i].(free := book[i].free[k := true])] == book && book[i].free[k := true] == book[i].free
    {
      assert book[i].free[k := true] == book[i].free;
    }

    /** The record at db, which lies on page i, is given back. */
    method GiveBack(page: DbPage, ghost i: nat, db: nat)
      requires Valid() && i < |pages| && page == pages[i] && i < |book| && page.buf == book[i].buf
      requires OnPage(db, page.buf) && Slot(db, page.buf) < |book[i].free|
      modifies this, repr
      ensures repr == old(repr)
      ensures var slot, p := Slot(db, page.buf), old(book)[i];
        if !p.free[slot] then Valid() && Revoked(old(book), book, size, RecordAddr(p.buf, slot, size))
        else Miscounted(page, i, old(pages), old(book), old(page.useCnt))
    {
      hide Separate, PageOk, Capacity, Revoked, Live, Used, AndNot, RecordAddr, RecordNo, Linked, InUse, Distinct;
      hide Booked, LongWords, FreeSlots;
      PositiveSizes(book, ps, size);
      UsedAt(book, i);
      InRepr(i);
      ghost var used := !book[i].free[Slot(db, page.buf)];
      if !used { SameBook(book, i, Slot(db, page.buf)); }
      ReleaseIn(page, i, RecordNo(db, page.buf, size));
      ghost var mid := book;
      Retire(page, i, used);
      if used { RevokedThrough(old(book), mid, book, size, RecordAddr(page.buf, Slot(db, page.buf), size)); }
    }

    /** A page on which nothing is left in use leaves the list. */
    method Retire(page: DbPage, ghost i: nat, ghost sound: bool)
      requires Linked() && i < |pages| && page == pages[i] && i < |book|
      requires sound ==> Sound() && forall j :: 0 <= j < |book| && j != i ==> Used(book[j])
      modifies this`dbList, this`pages, this`book, repr`prev, repr`next
      ensures Linked()
      ensures if page.useCnt == 0 then pages == Without(old(pages), i) && book == Without(old(book), i)
              else pages == old(pages) && book == old(book)
      ensures sound ==> Valid() && forall x :: Live(book, size, x) <==> Live(old(book), size, x)
    {
      if sound {
        assert Shown(pages[i], book[i]);
        CounterTells(page.free, page.numDb, book[i].free, page.useCnt);
      }
      hide Separate, PageOk, Capacity, Live, Linked, Booked, InUse, Used;
      if page.useCnt == 0 {
        if sound { Unused(book, size, i); }
        Unlink(page, i, sound);
      } else if sound {
        StillUsed(book[i]);
        InUseAll(book, i);
      }
    }

    // --- runs ---

    /** mem is a page of memory apart from those of the list. */
    method IsApart(mem: int) returns (apart: bool)
      requires Valid()
      ensures apart <==> 0 <= mem && Apart(mem)
    {
      hide Separate, PageOk, Capacity, Used;
      PositiveSizes(book, ps, size);
      if mem < 0 || mem % ps != 0 {
        return false;
      }
      var page := dbList;
      ghost var i := 0;
      while page != null
        invariant i <= |pages| && page == PageAt(pages, i) && forall j :: 0 <= j < i ==> book[j].buf != mem
        decreases |pages| - i
      {
        assert Joined(pages, i) && Shown(pages[i], book[i]);
        if page.buf == mem {
          return false;
        }
        page := page.next;
        i := i + 1;
      }
      return true;
    }

    /** Any sequence of calls of `mlx4_alloc_db` and, in any order, of `mlx4_free_db` for addresses that were
        returned: at the end exactly those addresses are in use that were returned and not given back; each is
        the start of a record that lies on a page of the list, and no two of these records share a byte.
        `outcomes` has what each step returned. */
    method Run(steps: seq<Step>) returns (held: seq<nat>, ghost outcomes: seq<int>)
      requires Valid() && book == []
      modifies this, repr
      ensures |outcomes| == |steps| && held == HeldAfter(steps, outcomes)
      ensures Valid() && forall x :: Live(book, size, x) <==> x in held
      ensures forall x :: x in held ==> exists i :: 0 <= i < |book| && Placed(x, book[i].buf, ps, size)
      ensures forall i, j :: 0 <= i < j < |held| ==> held[i] + size <= held[j] || held[j] + size <= held[i]
    {
      hide Separate, PageOk, Capacity, Live, Used, Placed, Linked, InUse, Booked, Holds;
      held, outcomes := [], [];
      NoneLive();
      for n := 0 to |steps|
        invariant |outcomes| == n && held == HeldAfter(steps[..n], outcomes)
        invariant Valid() && fresh(repr - old(repr)) && Holds(held)
      {
        assert steps[..n + 1][..n] == steps[..n];
        var db := -1;
        match steps[n] {
          case Take(mem) => held, db := TakeOne(held, mem);
          case Give(k) => if k < |held| { held := GiveOne(held, k); }
        }
        assert (outcomes + [db])[..n] == outcomes;
        outcomes := outcomes + [db];
      }
      assert steps[..|steps|] == steps;
      HeldApart(held);
    }

    /** One allocation of a run; memory for a page is found where none is, or not at all. */
    method TakeOne(held0: seq<nat>, mem: int) returns (held: seq<nat>, db: int)
      requires Valid() && Holds(held0)
      modifies this, repr
      ensures Valid() && fresh(repr - old(repr)) && Holds(held) && held == if db < 0 then held0 else held0 + [db]
      ensures db < 0 <==> AllInUse(old(book)) && !(0 <= mem && old(Apart(mem)))
    {
      hide Separate, PageOk, Capacity, Granted, Live, Used, Placed, AllInUse, Linked, InUse, Booked;
      held := held0;
      var apart := IsApart(mem);
      ghost var was := book;
      db := AllocDb(if apart then mem else -1);
      if db >= 0 {
        HoldsMore(was, held, db);
        held := held + [db];
      }
    }

    method GiveOne(held0: seq<nat>, k: nat) returns (held: seq<nat>)
      requires Valid() && Holds(held0) && k < |held0|
      modifies this, repr
      ensures Valid() && repr == old(repr) && Holds(held) && held == Without(held0, k)
    {
      hide Separate, PageOk, Capacity, Revoked, Live, Used, Linked, InUse, Booked, RecordAddr, Slot, OnPage;
      ghost var was := book;
      LiveSlot(held0, k);
      var _ := FreeDb(held0[k]);
      HoldsLess(was, held0, k);
      held := Without(held0, k);
    }

    /** Exactly these addresses are in use, and each is listed once. */
    ghost predicate Holds(held: seq<nat>)
      reads this`book
    {
      (forall x :: Live(book, size, x) <==> x in held) && forall i, j :: 0 <= i < j < |held| ==> held[i] != held[j]
    }

    lemma NoneLive()
      requires book == []
      ensures Holds([])
    {
    }

    lemma HoldsMore(was: seq<Records>, held: seq<nat>, db: nat)
      requires Granted(was, book, size, db) && (forall x :: Live(was, size, x) <==> x in held)
      requires forall i, j :: 0 <= i < j < |held| ==> held[i] != held[j]
      ensures Holds(held + [db])
    {
      hide Live;
    }

    lemma HoldsLess(was: seq<Records>, held: seq<nat>, k: nat)
      requires k < |held| && Revoked(was, book, size, held[k]) && (forall x :: Live(was, size, x) <==> x in held)
      requires forall i, j :: 0 <= i < j < |held| ==> held[i] != held[j]
      ensures Holds(Without(held, k))
    {
      hide Live;
      forall x ensures x in Without(held, k) <==> x in held && x != held[k] {
        if x in held && x != held[k] {
          var i :| 0 <= i < |held| && held[i] == x;
          assert Without(held, k)[if i < k then i else i - 1] == x;
        }
      }
    }

    /** The record of a live address exists. */
    lemma LiveSlot(held: seq<nat>, k: nat)
      requires Valid() && Holds(held) && k < |held|
      ensures Live(book, size, held[k])
      ensures forall j :: 0 <= j < |book| && OnPage(held[k], book[j].buf) ==>
        Slot(held[k], book[j].buf) < |book[j].free|
    {
      forall j | 0 <= j < |book| && OnPage(held[k], book[j].buf) ensures Slot(held[k], book[j].buf) < |book[j].free| {
        Located(book, ps, size, held[k], j);
      }
    }

    lemma HeldApart(held: seq<nat>)
      requires Valid() && Holds(held)
      ensures forall x :: Live(book, size, x) <==> x in held
      ensures forall x :: x in held ==> exists i :: 0 <= i < |book| && Placed(x, book[i].buf, ps, size)
      ensures forall i, j :: 0 <= i < j < |held| ==> held[i] + size <= held[j] || held[j] + size <= held[i]
    {
      forall x | x in held ensures exists i :: 0 <= i < |book| && Placed(x, book[i].buf, ps, size) {
        var i := LivePlaced(book, ps, size, x);
      }
      forall i, j | 0 <= i < j < |held| ensures held[i] + size <= held[j] || held[j] + size <= held[i] {
        var k := LivePlaced(book, ps, size, held[i]);
        var l := LivePlaced(book, ps, size, held[j]);
        if held[i] < held[j] {
          PlacedApart(held[i], held[j], book[k].buf, book[l].buf, ps, size);
        } else {
          PlacedApart(held[j], held[i], book[l].buf, book[k].buf, ps, size);
        }
      }
    }
  }

  datatype Step = Take(mem: int) | Give(k: nat)

  /** What a user holds after these steps, when the allocations among them returned these addresses. */
  ghost function HeldAfter(steps: seq<Step>, outcomes: seq<int>): seq<nat>
    requires |steps| == |outcomes|
  {
    if steps == [] then [] else
      var l := |steps| - 1;
      var held := HeldAfter(steps[..l], outcomes[..l]);
      match steps[l]
      case Take(_) => if outcomes[l] < 0 then held else held + [outcomes[l]]
      case Give(k) => if k < |held| then Without(held, k) else held
  }
}
