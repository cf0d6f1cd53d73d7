/** The range allocator of bitmap.h: a bitmap packed into 32-bit words, a hint where to search, and the
    number of clear bits. */
module Bitmap {
  import opened Arith
  import opened BitWords

  // ----- the bits as a sequence --------------------------------------------------------

  /** Bits s .. s + len - 1 exist and are clear. */
  ghost predicate Free(v: seq<bool>, s: nat, len: nat) {
    s + len <= |v| && forall i :: s <= i < s + len ==> !v[i]
  }

  ghost predicate Multiple(s: nat, step: nat) { step > 0 && s % step == 0 }

  /** A range of len bits may start at s. */
  ghost predicate Fits(v: seq<bool>, s: nat, len: nat, alignment: nat) { Multiple(s, alignment) && Free(v, s, len) }

  /** No range can start at lo .. hi - 1. */
  ghost predicate NoFit(v: seq<bool>, lo: nat, hi: nat, len: nat, alignment: nat) {
    forall s: nat :: lo <= s < hi ==> !Fits(v, s, len, alignment)
  }

  /** A set bit stands in the way of every range that would hold it. */
  lemma Blocked(v: seq<bool>, lo: nat, start: nat, i: nat, len: nat, alignment: nat)
    requires NoFit(v, lo, start, len, alignment) && start <= i < |v| && v[i] && i < start + len
    ensures NoFit(v, lo, i + 1, len, alignment)
  {
    forall s: nat | start <= s <= i ensures !Fits(v, s, len, alignment) {
      NotFree(v, s, i, len);
    }
  }

  lemma NotFree(v: seq<bool>, s: nat, i: nat, len: nat)
    requires s <= i < |v| && v[i] && i < s + len
    ensures !Free(v, s, len)
  {
  }

  lemma TooLate(v: seq<bool>, lo: nat, start: nat, len: nat, alignment: nat)
    requires NoFit(v, lo, start, len, alignment) && start + len > |v|
    ensures NoFit(v, lo, |v|, len, alignment)
  {
  }

  /** v with the bits lo .. hi - 1 overwritten. */
  ghost function Fill(v: seq<bool>, lo: nat, hi: nat, b: bool): (w: seq<bool>)
    requires lo <= hi <= |v|
    ensures |w| == |v|
  {
    v[..lo] + seq(hi - lo, _ => b) + v[hi..]
  }

  ghost function Put(v: seq<bool>, i: nat, b: bool): (w: seq<bool>)
    requires i < |v|
    ensures |w| == |v|
  {
    v[i := b]
  }

  ghost function Clear(v: seq<bool>): nat {
    if v == [] then 0 else Clear(v[..|v| - 1]) + if v[|v| - 1] then 0 else 1
  }

  lemma {:induction false} ClearUpdate(v: seq<bool>, i: nat, b: bool)
    requires i < |v|
    ensures Clear(v[i := b]) == Clear(v) + (if b then 0 else 1) - if v[i] then 0 else 1
    decreases |v|
  {
    var l, w := |v| - 1, v[i := b];
    if i < l {
      assert w[..l] == v[..l][i := b];
      ClearUpdate(v[..l], i, b);
    } else {
      assert w[..l] == v[..l];
    }
  }

  lemma FillNone(v: seq<bool>, lo: nat, b: bool)
    requires lo <= |v|
    ensures Fill(v, lo, lo, b) == v
  {
  }

  lemma FillStep(v: seq<bool>, lo: nat, hi: nat, b: bool)
    requires lo <= hi < |v|
    ensures Put(Fill(v, lo, hi, b), hi, b) == Fill(v, lo, hi + 1, b) && Fill(v, lo, hi, b)[hi] == v[hi]
  {
  }

  lemma {:induction false} ClearFill(v: seq<bool>, lo: nat, hi: nat, b: bool)
    requires lo <= hi <= |v| && forall i :: lo <= i < hi ==> v[i] != b
    ensures Clear(Fill(v, lo, hi, b)) == if b then Clear(v) - (hi - lo) else Clear(v) + (hi - lo)
    decreases hi
  {
    hide Fill, Clear;
    if lo == hi {
      FillNone(v, lo, b);
    } else {
      FillStep(v, lo, hi - 1, b);
      ClearFill(v, lo, hi - 1, b);
      ClearUpdate(Fill(v, lo, hi - 1, b), hi - 1, b);
    }
  }

  lemma {:induction false} ClearAll(v: seq<bool>)
    ensures Clear(v) <= |v|
    ensures Clear(v) == |v| <==> forall i :: 0 <= i < |v| ==> !v[i]
    ensures Clear(v) == 0 <==> forall i :: 0 <= i < |v| ==> v[i]
  {
    if v != [] {
      var w := v[..|v| - 1];
      ClearAll(w);
      assert forall i :: 0 <= i < |w| ==> v[i] == w[i];
    }
  }

  // ----- alignment ---------------------------------------------------------------------

  /** `align` of mlx4.h. */
  function AlignUp(val: nat, alignment: nat): nat
    requires alignment > 0
  {
    AndNot(val + alignment - 1, alignment - 1)
  }

  lemma {:induction false} AndAndNot(x: nat, y: nat)
    ensures And(x, y) + AndNot(x, y) == x
  {
    if x != 0 && y != 0 { AndAndNot(x / 2, y / 2); }
  }

  /** For a power of two it is the least multiple that is not smaller. */
  lemma Aligned(val: nat, alignment: nat)
    requires PowerOfTwo(alignment)
    ensures var s := AlignUp(val, alignment);
      val <= s < val + alignment && Multiple(s, alignment) &&
      forall m: nat :: val <= m && Multiple(m, alignment) ==> s <= m
  {
    var x := val + alignment - 1;
    AndAndNot(x, alignment - 1);
    MaskIsRemainder(x, alignment);
    var s := AlignUp(val, alignment);
    FloorMod(x, alignment);
    assert s == alignment * (x / alignment);
    Quotient(s, alignment, x / alignment);
    forall m: nat | val <= m && Multiple(m, alignment) ensures s <= m { AlignedStep(m, s, alignment); }
  }

  /** Two multiples are at least one step apart. */
  lemma AlignedStep(m: nat, s: nat, step: nat)
    requires Multiple(m, step) && Multiple(s, step)
    ensures m < s ==> m + step <= s
    ensures Multiple(s + step, step)
  {
    FloorMod(m, step); FloorMod(s, step);
    Cancel(step, m / step, s / step); Cancel(step, m / step + 1, s / step);
    Quotient(s + step, step, s / step + 1);
  }

  // ----- the words ---------------------------------------------------------------------

  ghost predicate Words(words: seq<nat>, max: nat): (b: bool)
    ensures b ==> max <= |words| * 32
  {
    |words| == (max + 32 - 1) / 32 && forall i :: 0 <= i < |words| ==> words[i] < Pow2(32)
  }

  /** The first n bits. */
  ghost function View(words: seq<nat>, n: nat): (v: seq<bool>)
    requires n <= |words| * 32
    ensures |v| == n
  {
    seq(n, i requires 0 <= i < n => Bit(words[i / 32], i % 32))
  }

  method SetBit(nr: nat, table: array<nat>, ghost n: nat)
    requires nr < n && Words(table[..], n)
    modifies table
    ensures Words(table[..], n) && View(table[..], n) == Put(old(View(table[..], n)), nr, true)
  {
    ghost var before, q, k := old(View(table[..], n)), nr / 32, nr % 32;
    PowerMonotone(k, 32);
    OrBound(table[q], Pow2(k), 32);
    table[nr / 32] := Or(table[nr / 32], Pow2(nr % 32));
    hide Pow2, Or, Bit;
    forall i | 0 <= i < n ensures View(table[..], n)[i] == before[nr := true][i] {
      OrBit(old(table[q]), Pow2(k), i % 32);
      PowerBit(k, i % 32);
    }
  }

  method ClearBit(nr: nat, table: array<nat>, ghost n: nat)
    requires nr < n && Words(table[..], n)
    modifies table
    ensures Words(table[..], n) && View(table[..], n) == Put(old(View(table[..], n)), nr, false)
  {
    ghost var before, q, k := old(View(table[..], n)), nr / 32, nr % 32;
    table[nr / 32] := AndNot(table[nr / 32], Pow2(nr % 32));
    hide Pow2, AndNot, Bit;
    forall i | 0 <= i < n ensures View(table[..], n)[i] == before[nr := false][i] {
      AndNotBit(old(table[q]), Pow2(k), i % 32);
      PowerBit(k, i % 32);
    }
  }

  /** The words hold v with the bits lo .. hi - 1 overwritten. */
  ghost predicate Filled(words: seq<nat>, n: nat, v: seq<bool>, lo: nat, hi: nat, b: bool)
    requires lo <= hi <= |v|
  {
    Words(words, n) && View(words, n) == Fill(v, lo, hi, b)
  }

  method SetNext(lo: nat, hi: nat, table: array<nat>, ghost n: nat, ghost v: seq<bool>)
    requires lo <= hi < n && |v| == n && Filled(table[..], n, v, lo, hi, true)
    modifies table
    ensures Filled(table[..], n, v, lo, hi + 1, true)
  {
    hide Words, Fill, View, Put, Bit;
    FillStep(v, lo, hi, true);
    SetBit(hi, table, n);
  }

  /** The loop of `mlx4_bitmap_alloc_range` over the bits of a range. */
  method SetRange(obj: nat, cnt: nat, table: array<nat>, ghost n: nat)
    requires Words(table[..], n) && obj + cnt <= n && cnt > 0
    modifies table
    ensures Words(table[..], n) && View(table[..], n) == Fill(old(View(table[..], n)), obj, obj + cnt, true)
  {
    hide Words, Fill, View, Put, Bit;
    ghost var v := View(table[..], n);
    FillNone(v, obj, true);
    var i := 0;
    while i < cnt
      invariant i <= cnt && Filled(table[..], n, v, obj, obj + i, true)
    {
      SetNext(obj, obj + i, table, n, v);
      i := i + 1;
    }
  }

  method ClearNext(lo: nat, hi: nat, table: array<nat>, ghost n: nat, ghost v: seq<bool>)
    requires lo <= hi < n && |v| == n && Filled(table[..], n, v, lo, hi, false)
    modifies table
    ensures Filled(table[..], n, v, lo, hi + 1, false)
  {
    hide Words, Fill, View, Put, Bit;
    FillStep(v, lo, hi, false);
    ClearBit(hi, table, n);
  }

  /** The loop of `mlx4_bitmap_free_range`. */
  method ClearRange(obj: nat, cnt: nat, table: array<nat>, ghost n: nat)
    requires Words(table[..], n) && obj + cnt <= n && cnt > 0
    modifies table
    ensures Words(table[..], n) && View(table[..], n) == Fill(old(View(table[..], n)), obj, obj + cnt, false)
  {
    hide Words, Fill, View, Put, Bit;
    ghost var v := View(table[..], n);
    FillNone(v, obj, false);
    var i := 0;
    while i < cnt
      invariant i <= cnt && Filled(table[..], n, v, obj, obj + i, false)
    {
      ClearNext(obj, obj + i, table, n, v);
      i := i + 1;
    }
  }

  /** `mlx4_test_bit` */
  function BitSet(nr: nat, table: array<nat>): (b: bool)
    requires nr / 32 < table.Length
    reads table
    ensures b <==> Bit(table[nr / 32], nr % 32)
  {
    TestBit(table[nr / 32], nr % 32);
    And(table[nr / 32], Pow2(nr % 32)) != 0
  }

  /** Bit k of word p. */
  lemma ViewAt(words: seq<nat>, n: nat, p: nat, k: nat)
    requires Words(words, n) && k < 32 && 32 * p + k < n
    ensures p < |words| && View(words, n)[32 * p + k] == Bit(words[p], k)
  {
    Quotient(32 * p + k, 32, p);
  }

  lemma FullWord(words: seq<nat>, n: nat, p: nat)
    requires Words(words, n) && 32 * p + 32 <= n && words[p] == Pow2(32) - 1
    ensures forall i :: 32 * p <= i < 32 * p + 32 ==> View(words, n)[i]
  {
    hide Pow2, Bit, View;
    forall i | 32 * p <= i < 32 * p + 32 ensures View(words, n)[i] {
      ViewAt(words, n, p, i - 32 * p);
      OnesBit(32, i - 32 * p);
    }
  }

  /** The word tmp stands for the first size bits of word p: where its first clear bit is. */
  lemma FoundIn(words: seq<nat>, n: nat, p: nat, tmp: nat, size: nat)
    requires Words(words, n) && 32 * p + size <= n && 0 < size <= 32
    requires tmp < Pow2(32) && tmp != Pow2(32) - 1
    requires p < |words| && forall k: nat :: k < 32 ==> (Bit(tmp, k) <==> size <= k || Bit(words[p], k))
    ensures var r := FirstZero(tmp, 0);
      r < size && !View(words, n)[32 * p + r] &&
      forall i :: 32 * p <= i < 32 * p + r ==> View(words, n)[i]
  {
    hide Pow2, Bit, View;
    var r := FirstZero(tmp, 0);
    if r == 32 { Full(tmp, 32); }
    ViewAt(words, n, p, r);
    forall i | 32 * p <= i < 32 * p + r ensures View(words, n)[i] {
      ViewAt(words, n, p, i - 32 * p);
    }
  }

  lemma TailWord(words: seq<nat>, n: nat, p: nat, tmp: nat, size: nat)
    requires Words(words, n) && p < |words| && 0 < size < 32 && 32 * p + size == n
    requires tmp == Or(words[p], From(size, 32))
    ensures tmp < Pow2(32)
    ensures forall k: nat :: k < 32 ==> (Bit(tmp, k) <==> size <= k || Bit(words[p], k))
    ensures tmp == Pow2(32) - 1 ==> forall i :: 32 * p <= i < n ==> View(words, n)[i]
  {
    hide Pow2, Bit, View, From, Or;
    FromBound(size, 32);
    OrBound(words[p], From(size, 32), 32);
    forall k: nat | k < 32 ensures Bit(tmp, k) <==> size <= k || Bit(words[p], k) {
      OrBit(words[p], From(size, 32), k);
      FromBit(size, 32, k);
    }
    if tmp == Pow2(32) - 1 {
      forall i | 32 * p <= i < n ensures View(words, n)[i] {
        ViewAt(words, n, p, i - 32 * p);
        OnesBit(32, i - 32 * p);
      }
    }
  }

  /** `mlx4_find_first_zero_bit`: whole words first, then a masked tail word; it finds what a search bit
      by bit would find. */
  method FindFirstZeroBit(table: array<nat>, size0: nat) returns (r: nat)
    requires Words(table[..], size0)
    ensures r <= size0 && (r < size0 ==> !View(table[..], size0)[r])
    ensures forall i :: 0 <= i < r ==> View(table[..], size0)[i]
  {
    hide Pow2, Bit, From, Or, View;
    var p, result, size := 0, 0, size0;
    while size >= 32
      invariant result == 32 * p && result + size == size0 && 0 <= size
      invariant forall i :: 0 <= i < result ==> View(table[..], size0)[i]
      decreases size
    {
      if table[p] != Pow2(32) - 1 {
        FoundIn(table[..], size0, p, table[p], 32);
        return result + FirstZero(table[p], 0);
      }
      FullWord(table[..], size0, p);
      p := p + 1;
      result := result + 32;
      size := size - 32;
    }
    if size == 0 {
      return result;
    }
    r := InTail(table, size0, p, size);
    r := result + r;
  }

  /** The first clear bit among the last size bits, which do not fill their word. */
  method InTail(table: array<nat>, ghost n: nat, p: nat, size: nat) returns (r: nat)
    requires Words(table[..], n) && 0 < size < 32 && 32 * p + size == n
    ensures r <= size && (r < size ==> !View(table[..], n)[32 * p + r])
    ensures forall i :: 32 * p <= i < 32 * p + r ==> View(table[..], n)[i]
  {
    var tmp := Or(table[p], From(size, 32));
    TailWord(table[..], n, p, tmp, size);
    hide Pow2, Bit, From, Or, View;
    if tmp == Pow2(32) - 1 {
      return size;
    }
    FoundIn(table[..], n, p, tmp, size);
    return FirstZero(tmp, 0);
  }

  // ----- the aligned search ------------------------------------------------------------

  /** The first aligned start that is not set; no range fits before it. */
  method SkipSet(table: array<nat>, start0: nat, nbits: nat, len: nat, alignment: nat, ghost lo: nat)
    returns (start: nat)
    requires Words(table[..], nbits) && 0 < len && PowerOfTwo(alignment)
    requires lo <= start0 && NoFit(View(table[..], nbits), lo, start0, len, alignment)
    ensures start0 <= start && Multiple(start, alignment) && (start < nbits ==> !View(table[..], nbits)[start])
    ensures NoFit(View(table[..], nbits), lo, start, len, alignment)
  {
    ghost var v := View(table[..], nbits);
    start := AlignUp(start0, alignment);
    Aligned(start0, alignment);
    hide PowerOfTwo, AlignUp, Bit, Multiple, Free;
    while start < nbits && BitSet(start, table)
      invariant start0 <= start && Multiple(start, alignment)
      invariant NoFit(v, lo, start, len, alignment)
      decreases nbits - start
    {
      Blocked(v, lo, start, start, len, alignment);
      forall s: nat | start < s && Multiple(s, alignment) ensures start + alignment <= s {
        AlignedStep(start, s, alignment);
      }
      AlignedStep(start, start, alignment);
      start := start + alignment;
    }
  }

  /** `find_aligned_range`: the first aligned range of len clear bits at or behind start; nbits (for the
      source's -1) if there is none. */
  method FindAlignedRange(table: array<nat>, start0: nat, nbits: nat, len: nat, alignment: nat) returns (r: nat)
    requires Words(table[..], nbits) && 0 < len && PowerOfTwo(alignment)
    ensures r <= nbits && (r < nbits ==> start0 <= r && Fits(View(table[..], nbits), r, len, alignment))
    ensures NoFit(View(table[..], nbits), start0, r, len, alignment)
  {
    ghost var v := View(table[..], nbits);
    hide PowerOfTwo, Bit, Multiple;
    var start := start0;
    while true
      invariant start0 <= start && NoFit(v, start0, start, len, alignment)
      decreases nbits - start
    {
      start := SkipSet(table, start, nbits, len, alignment, start0);
      if start >= nbits {
        return nbits;
      }
      var end := start + len;
      if end > nbits {
        TooLate(v, start0, start, len, alignment);
        return nbits;
      }
      var i := start + 1;
      while i < end && !BitSet(i, table)
        invariant start < i <= end && Free(v, start, i - start)
      {
        i := i + 1;
      }
      if i == end {
        return start;
      }
      Blocked(v, start0, start, i, len, alignment);
      start := i + 1;
    }
  }

  // ----- which ranges are handed out ---------------------------------------------------

  /** The ranges handed out and not returned: their starts and lengths. */
  type Ledger = map<nat, nat>

  ghost function Enter(live: Ledger, r: nat, cnt: nat): Ledger { live[r := cnt] }

  ghost predicate Handed(live: Ledger, r: nat, cnt: nat) { r in live && live[r] == cnt }

  ghost function Leave(live: Ledger, r: nat): Ledger { live - {r} }

  ghost predicate Owned(live: Ledger, i: nat) {
    exists s :: s in live && s <= i < s + live[s]
  }

  /** They lie inside the bitmap, no two of them share a bit, and together they are the set bits. */
  ghost predicate Books(v: seq<bool>, live: Ledger) {
    (forall s :: s in live ==> live[s] > 0 && s + live[s] <= |v|) &&
    (forall s, t :: s in live && t in live && s < t ==> s + live[s] <= t) &&
    (forall i :: 0 <= i < |v| ==> (v[i] <==> Owned(live, i)))
  }

  /** No range that was handed out reaches into a free one. */
  lemma FreeApart(v: seq<bool>, live: Ledger, r: nat, cnt: nat, s: nat)
    requires Books(v, live) && cnt > 0 && Free(v, r, cnt) && s in live
    ensures s + live[s] <= r || r + cnt <= s
  {
    var i := if s < r then r else s;
    assert s <= i < s + live[s] ==> Owned(live, i);
    assert r <= i < r + cnt ==> !v[i];
  }

  lemma BooksAlloc(v: seq<bool>, live: Ledger, r: nat, cnt: nat)
    requires Books(v, live) && cnt > 0 && Free(v, r, cnt)
    ensures r !in live && Books(Fill(v, r, r + cnt, true), Enter(live, r, cnt))
  {
    var w, now := Fill(v, r, r + cnt, true), Enter(live, r, cnt);
    assert !v[r];
    assert r in live ==> Owned(live, r);
    forall s | s in live ensures s + live[s] <= r || r + cnt <= s { FreeApart(v, live, r, cnt, s); }
    hide Free;
    forall i | 0 <= i < |w| ensures w[i] <==> Owned(now, i) {
      OwnedMore(live, r, cnt, i);
    }
  }

  /** Entering a range owns exactly its own bits in addition. */
  lemma OwnedMore(live: Ledger, r: nat, cnt: nat, i: nat)
    requires r !in live
    ensures Owned(Enter(live, r, cnt), i) <==> Owned(live, i) || r <= i < r + cnt
  {
    var now := Enter(live, r, cnt);
    assert r in now && now[r] == cnt;
    if Owned(live, i) {
      var s :| s in live && s <= i < s + live[s];
      assert s in now && now[s] == live[s];
    }
  }

  lemma BooksFree(v: seq<bool>, live: Ledger, r: nat)
    requires Books(v, live) && r in live
    ensures r + live[r] <= |v| && (forall i :: r <= i < r + live[r] ==> v[i])
    ensures Books(Fill(v, r, r + live[r], false), Leave(live, r))
  {
    var w, now := Fill(v, r, r + live[r], false), Leave(live, r);
    assert forall i :: r <= i < r + live[r] ==> Owned(live, i);
    forall i | 0 <= i < |w| ensures w[i] <==> Owned(now, i) {
      OwnedLess(live, r, i);
    }
  }

  /** Leaving out the range at r disowns exactly its own bits. */
  lemma OwnedLess(live: Ledger, r: nat, i: nat)
    requires r in live
    requires forall s, t :: s in live && t in live && s < t ==> s + live[s] <= t
    ensures Owned(Leave(live, r), i) <==> Owned(live, i) && !(r <= i < r + live[r])
  {
    var now := Leave(live, r);
    if Owned(now, i) {
      var s :| s in now && s <= i < s + now[s];
      assert s in live && s != r;
    }
    if Owned(live, i) && !(r <= i < r + live[r]) {
      var s :| s in live && s <= i < s + live[s];
      assert s in now;
    }
  }

  lemma BooksEmpty(v: seq<bool>, live: Ledger)
    requires Books(v, live)
    ensures Clear(v) == |v| <==> live == map[]
  {
    ClearAll(v);
    if live != map[] {
      var s :| s in live;
      assert Owned(live, s);
    }
  }

  /** Below the hint every bit is set. */
  ghost predicate Packed(v: seq<bool>, last: nat) {
    last <= |v| && forall i :: 0 <= i < last ==> v[i]
  }

  /** Handing out a range. */
  lemma Taken(v: seq<bool>, live: Ledger, last: nat, r: nat, cnt: nat)
    requires Books(v, live) && cnt > 0 && Free(v, r, cnt) && Packed(v, last)
    ensures r + cnt <= |v|
    ensures var w := Fill(v, r, r + cnt, true);
      Books(w, Enter(live, r, cnt)) && Clear(w) + cnt == Clear(v) && Packed(w, last) &&
      (Packed(v, r) ==> Packed(w, r + cnt))
  {
    BooksAlloc(v, live, r, cnt);
    ClearFill(v, r, r + cnt, true);
  }

  /** And taking it back. */
  lemma Returning(v: seq<bool>, live: Ledger, last: nat, r: nat, cnt: nat)
    requires Books(v, live) && Handed(live, r, cnt) && Packed(v, last)
    ensures r + cnt <= |v| && cnt > 0
    ensures var w := Fill(v, r, r + cnt, false);
      Books(w, Leave(live, r)) && Clear(w) == Clear(v) + cnt &&
      Packed(w, if last < r then last else r)
  {
    BooksFree(v, live, r);
    ClearFill(v, r, r + cnt, false);
  }

  /** What an allocation of cnt aligned bits does to bitmap v and its books: it takes the lowest range
      that fits; it fails, changing nothing, exactly if none does. */
  ghost predicate Allocated(v: seq<bool>, owned: Ledger, w: seq<bool>, live: Ledger, ret: int, cnt: nat,
                            alignment: nat)
  {
    (ret == -1 ==> NoFit(v, 0, |v|, cnt, alignment) && w == v && live == owned) &&
    (ret != -1 ==>
      0 <= ret && Fits(v, ret, cnt, alignment) && NoFit(v, 0, ret, cnt, alignment) &&
      w == Fill(v, ret, ret + cnt, true) && live == Enter(owned, ret, cnt))
  }

  lemma Allocation(v: seq<bool>, owned: Ledger, r: nat, cnt: nat, alignment: nat)
    requires r <= |v| && NoFit(v, 0, r, cnt, alignment) && (r < |v| ==> Fits(v, r, cnt, alignment))
    ensures if r < |v|
            then Free(v, r, cnt) &&
                 Allocated(v, owned, Fill(v, r, r + cnt, true), Enter(owned, r, cnt), r, cnt, alignment)
            else Allocated(v, owned, v, owned, -1, cnt, alignment)
  {
  }

  /** The bitmap that `mlx4_bitmap_init` makes. */
  lemma AllZero(words: seq<nat>, max: nat)
    requires |words| == (max + 32 - 1) / 32 && forall i :: 0 <= i < |words| ==> words[i] == 0
    ensures Words(words, max) && Clear(View(words, max)) == max
    ensures Packed(View(words, max), 0) && Books(View(words, max), map[])
  {
    forall i | 0 <= i < max ensures !View(words, max)[i] { ZeroBit(i % 32); }
    ClearAll(View(words, max));
  }

  // ----- the allocator -----------------------------------------------------------------

  class Allocator {
    const max: nat
    const mask: nat
    const table: array<nat>
    var last: nat
    var top: nat
    var avail: nat
    ghost var live: Ledger

    ghost predicate Shaped()
      reads this`last, table
    {
      max > 0 && Words(table[..], max) && last < max
    }

    ghost predicate Valid()
      reads this`last, this`avail, this`live, table
    {
      Shaped() && avail == Clear(Bits()) && Packed(Bits(), last) && Books(Bits(), live)
    }

    /** Then `top` stays zero, and a number that was handed out is the run that was taken. */
    ghost predicate Regular()
      reads this`top
    {
      PowerOfTwo(max) && mask == max - 1 && top == 0
    }

    ghost function Bits(): (v: seq<bool>)
      requires Words(table[..], max)
      reads table
      ensures |v| == max
    {
      View(table[..], max)
    }

    /** `mlx4_bitmap_init` */
    constructor (num: nat, mask: nat)
      requires num > 0
      ensures Valid() && fresh(table) && max == num && this.mask == mask && live == map[] && avail == num
      ensures last == top == 0
    {
      last, top, max, avail, this.mask := 0, 0, num, num, mask;
      table := new nat[(num + 32 - 1) / 32](_ => 0);
      live := map[];
      new;
      AllZero(table[..], max);
    }

    /** A range of clear bits is handed out. */
    method Mark(obj: nat, cnt: nat)
      requires Valid() && cnt > 0 && Free(Bits(), obj, cnt)
      modifies this`avail, this`live, table
      ensures Valid() && Bits() == Fill(old(Bits()), obj, obj + cnt, true) && live == Enter(old(live), obj, cnt)
      ensures Packed(old(Bits()), obj) ==> Packed(Bits(), obj + cnt)
    {
      hide Books, Clear, Words, View, Fill, Packed, Free, Enter;
      Taken(Bits(), live, last, obj, cnt);
      SetRange(obj, cnt, table, max);
      live := Enter(live, obj, cnt);
      avail := avail - cnt;
    }

    /** The hint moves behind a range; at the end of the bitmap it starts again. */
    method MoveHint(hint: nat)
      requires Valid() && Packed(Bits(), hint)
      modifies this`last
      ensures Valid() && last == if hint < max then hint else 0
    {
      PackedNone(Bits());
      hide Books, Clear, Words, View, Packed;
      last := hint;
      if last >= max {
        last := 0;
      }
    }

    /** `mlx4_bitmap_alloc` */
    method Alloc() returns (ret: int, ghost run: int)
      requires Valid()
      modifies this`last, this`avail, this`live, table
      ensures Valid()
      ensures Allocated(old(Bits()), old(live), Bits(), live, run, 1, 1) && run >= -1
      ensures ret == if run == -1 then -1 else Or(run, top)
      ensures last == if run == -1 then old(last) else if run + 1 < max then run + 1 else 0
    {
      ghost var v := Bits();
      var obj := FindFirstZeroBit(table, max);
      FirstIsFit(v, obj);
      Allocation(v, live, obj, 1, 1);
      assert Packed(v, obj);
      hide Books, Clear, NoFit, Fits, Words, View, Fill, Packed, Free, Allocated, Or, Enter;
      if obj < max {
        Mark(obj, 1);
        MoveHint(obj + 1);
        ret, run := Or(obj, top), obj;
      } else {
        ret, run := -1, -1;
      }
    }

    /** Nothing fits behind the hint, so that the search starts again and `top` changes. */
    ghost predicate Retries(cnt: nat, alignment: nat)
      requires Shaped()
      reads this`last, table
    {
      !(cnt == 1 && alignment == 1) && cnt <= max && NoFit(Bits(), last, max, cnt, alignment)
    }

    /** `mlx4_bitmap_alloc_range`: the lowest run that fits is taken; the caller gets its number with the
        bits of `top` set. */
    method AllocRange(cnt: nat, alignment: nat) returns (ret: int, ghost run: int)
      requires Valid() && 0 < cnt && PowerOfTwo(alignment)
      modifies this`last, this`top, this`avail, this`live, table
      ensures Valid()
      ensures Allocated(old(Bits()), old(live), Bits(), live, run, cnt, alignment) && run >= -1
      ensures ret == if run == -1 then -1 else Or(run, top)
      ensures top == if old(Retries(cnt, alignment)) then And(old(top) + max, mask) else old(top)
      ensures last ==
        if run == -1 || (!(cnt == 1 && alignment == 1) && run != old(last)) then old(last)
        else if run + cnt < max then run + cnt else 0
      ensures old(Regular()) ==> Regular() && ret == run
    {
      RegularStep();
      hide Books, Clear, PowerOfTwo, NoFit, Fits, Words, View, Fill, Packed, Free, Allocated, Or, And, Enter;
      if cnt == 1 && alignment == 1 {
        ret, run := Alloc();
      } else {
        ret, run := AllocRun(cnt, alignment);
      }
      if Regular() { RegularReturn(run); }
    }

    /** The longer way of `mlx4_bitmap_alloc_range`. */
    method AllocRun(cnt: nat, alignment: nat) returns (ret: int, ghost run: int)
      requires Valid() && 0 < cnt && PowerOfTwo(alignment) && !(cnt == 1 && alignment == 1)
      modifies this`last, this`top, this`avail, this`live, table
      ensures Valid()
      ensures Allocated(old(Bits()), old(live), Bits(), live, run, cnt, alignment) && run >= -1
      ensures ret == if run == -1 then -1 else Or(run, top)
      ensures top == if old(Retries(cnt, alignment)) then And(old(top) + max, mask) else old(top)
      ensures last == if run == -1 || run != old(last) then old(last) else if run + cnt < max then run + cnt else 0
    {
      hide Books, Clear, PowerOfTwo, NoFit, Fits, Words, View, Fill, Packed, Free, Allocated, Or, And, Enter;
      if cnt > max {
        NoRoom(Bits(), cnt, alignment);
        Allocation(Bits(), live, max, cnt, alignment);
        return -1, -1;
      }
      var obj := Search(cnt, alignment);
      Allocation(Bits(), live, obj, cnt, alignment);
      if obj < max {
        Mark(obj, cnt);
        if obj == last {
          MoveHint(obj + cnt);
        }
        ret, run := Or(obj, top), obj;
      } else {
        ret, run := -1, -1;
      }
    }

    /** The two searches of `mlx4_bitmap_alloc_range`: from the hint, then from the start. */
    method Search(cnt: nat, alignment: nat) returns (obj: nat)
      requires Valid() && 0 < cnt <= max && PowerOfTwo(alignment) && !(cnt == 1 && alignment == 1)
      modifies this`top
      ensures Valid() && obj <= max && NoFit(Bits(), 0, obj, cnt, alignment)
      ensures obj < max ==> Fits(Bits(), obj, cnt, alignment)
      ensures top == if old(Retries(cnt, alignment)) then And(old(top) + max, mask) else old(top)
    {
      ghost var v := Bits();
      obj := FindAlignedRange(table, last, max, cnt, alignment);
      BelowHint(v, last, obj, cnt, alignment);
      Fitting(v, last, obj, cnt, alignment);
      hide Books, Clear, PowerOfTwo, NoFit, Fits, Words, View, And, Packed;
      if obj >= max {
        top := And(top + max, mask);
        obj := FindAlignedRange(table, 0, max, cnt, alignment);
      }
    }

    /** A range of bits is cleared; if it was handed out, the books follow. */
    method Unmark(obj: nat, cnt: nat)
      requires Shaped() && obj + cnt <= max && cnt > 0
      modifies this`last, this`avail, this`live, table
      ensures Shaped() && Bits() == Fill(old(Bits()), obj, obj + cnt, false) && avail == old(avail) + cnt
      ensures last == if old(last) < obj then old(last) else obj
      ensures old(Valid()) && Handed(old(live), obj, cnt) ==> Valid() && live == Leave(old(live), obj)
    {
      if Valid() && Handed(live, obj, cnt) { Returning(Bits(), live, last, obj, cnt); }
      hide Books, Clear, Words, View, Fill, Packed, Leave, Handed;
      ClearRange(obj, cnt, table, max);
      last := if last < obj then last else obj;
      avail := avail + cnt;
      if old(Valid()) && Handed(live, obj, cnt) { live := Leave(live, obj); }
    }

    /** `mlx4_bitmap_free_range` clears the bits from obj0, masked with max - 1, on; the caller answers for
        their lying inside the bitmap. A range that was handed out leaves the books. */
    method FreeRange(obj0: nat, cnt: nat)
      requires Shaped() && Masked(obj0, max) + cnt <= max && cnt > 0
      modifies this`last, this`top, this`avail, this`live, table
      ensures Shaped() && top == And(old(top) + max, mask) && avail == old(avail) + cnt
      ensures var obj := Masked(obj0, max);
        Bits() == Fill(old(Bits()), obj, obj + cnt, false) && last == (if old(last) < obj then old(last) else obj) &&
        (old(Valid()) && Handed(old(live), obj, cnt) ==> Valid() && live == Leave(old(live), obj))
      ensures old(Regular()) ==> Regular() && (obj0 < max ==> Masked(obj0, max) == obj0)
    {
      hide Books, Clear, Words, View, Fill, Masked, Packed, Leave, Handed, And, Valid, PowerOfTwo;
      RegularFree(obj0);
      Unmark(Masked(obj0, max), cnt);
      top := And(top + max, mask);
    }

    lemma RegularStep()
      ensures Regular() ==> And(top + max, mask) == 0
    {
      if Regular() { TopStaysZero(max); }
    }

    lemma RegularFree(obj: nat)
      requires max > 0
      ensures Regular() ==> And(top + max, mask) == 0 && (obj < max ==> Masked(obj, max) == obj)
    {
      RegularStep();
      if Regular() && obj < max { MaskedBelow(obj, max); }
    }

    lemma RegularReturn(run: int)
      requires run >= -1 && Regular()
      ensures run >= 0 ==> Or(run, top) == run
    {
      if run >= 0 { OrZero(run); }
    }

    /** `is_bitmap_empty` */
    method IsEmpty() returns (ret: bool)
      requires Valid()
      ensures ret <==> live == map[]
    {
      BooksEmpty(Bits(), live);
      ret := avail == max;
    }

    /** `is_bitmap_avail` */
    method IsAvail() returns (ret: bool)
      requires Valid()
      ensures ret <==> exists i :: 0 <= i < max && !Bits()[i]
    {
      ClearAll(Bits());
      ret := avail > 0;
    }
  }

  lemma OrZero(x: nat)
    ensures Or(x, 0) == x
  {
  }

  lemma MaskedBelow(x: nat, m: nat)
    requires PowerOfTwo(m) && x < m
    ensures Masked(x, m) == x
  {
    MaskIsRemainder(x, m); Quotient(x, m, 0);
  }

  lemma TopStaysZero(max: nat)
    requires PowerOfTwo(max)
    ensures Masked(0 + max, max) == 0
  {
    MaskIsRemainder(max, max); Quotient(max, max, 1);
  }

  lemma Fitting(v: seq<bool>, lo: nat, r: nat, cnt: nat, alignment: nat)
    requires NoFit(v, lo, r, cnt, alignment) && r <= |v| && (r < |v| ==> lo <= r && Fits(v, r, cnt, alignment))
    ensures NoFit(v, lo, |v|, cnt, alignment) <==> r == |v|
  {
  }

  lemma PackedNone(v: seq<bool>)
    ensures Packed(v, 0)
  {
  }

  lemma FirstIsFit(v: seq<bool>, r: nat)
    requires r <= |v| && (r < |v| ==> !v[r]) && forall i :: 0 <= i < r ==> v[i]
    ensures NoFit(v, 0, r, 1, 1) && (r < |v| ==> Fits(v, r, 1, 1))
  {
    assert r % 1 == 0;
    forall s: nat | s < r ensures !Fits(v, s, 1, 1) { NotFree(v, s, s, 1); }
  }

  lemma NoRoom(v: seq<bool>, cnt: nat, alignment: nat)
    requires cnt > |v|
    ensures NoFit(v, 0, |v|, cnt, alignment)
  {
  }

  /** Below the hint every bit is set, so the search from there misses no range. */
  lemma BelowHint(v: seq<bool>, last: nat, r: nat, cnt: nat, alignment: nat)
    requires Packed(v, last) && NoFit(v, last, r, cnt, alignment) && cnt > 0
    ensures NoFit(v, 0, r, cnt, alignment)
  {
    forall s: nat | s < last ensures !Fits(v, s, cnt, alignment) { NotFree(v, s, s, cnt); }
  }

  // ----- when the numbers are the runs ---------------------------------------------------

  /** `top` after k changes, with the mask that buf.c passes. */
  ghost function TopAfter(max: nat, k: nat): nat
    requires max > 0
  {
    if k == 0 then 0 else And(TopAfter(max, k - 1) + max, max - 1)
  }

  /** On every run, every number is returned as it is exactly if the number of bits is a power of two. */
  lemma BasesAreRuns(max: nat)
    requires max > 0
    ensures (forall k: nat, obj: nat :: obj < max ==> Or(obj, TopAfter(max, k)) == obj) <==> PowerOfTwo(max)
  {
    if PowerOfTwo(max) {
      forall k: nat, obj: nat | obj < max ensures Or(obj, TopAfter(max, k)) == obj {
        TopAlwaysZero(max, k);
        OrZero(obj);
      }
    } else {
      LowestBit(max);
      assert TopAfter(max, 1) == And(TopAfter(max, 0) + max, max - 1) != 0;
      assert Or(0, TopAfter(max, 1)) != 0;
    }
  }

  lemma {:induction false} TopAlwaysZero(max: nat, k: nat)
    requires PowerOfTwo(max)
    ensures TopAfter(max, k) == 0
  {
    if k > 0 { TopAlwaysZero(max, k - 1); TopStaysZero(max); }
  }

  /** An allocation takes the first clear run if nothing below it is clear. */
  lemma LowestIs(v: seq<bool>, owned: Ledger, w: seq<bool>, live: Ledger, ret: int, cnt: nat, e: nat)
    requires Packed(v, e) && Free(v, e, cnt) && cnt > 0 && Allocated(v, owned, w, live, ret, cnt, 1)
    ensures ret == e && w == Fill(v, e, e + cnt, true) && live == Enter(owned, e, cnt)
  {
    assert Fits(v, e, cnt, 1);
    if 0 <= ret < e { NotFree(v, ret, ret, cnt); }
  }

  /** It finds it at once if the hint is not behind it. */
  lemma FoundAtOnce(v: seq<bool>, last: nat, e: nat, cnt: nat)
    requires last <= e && Free(v, e, cnt) && cnt > 0
    ensures !NoFit(v, last, |v|, cnt, 1)
  {
    assert Fits(v, e, cnt, 1);
  }

  /** The caller of `AllocRange` gets the first clear run, with `top` as it is. */
  method AllocLowest(a: Allocator, cnt: nat, ghost e: nat) returns (ret: int)
    requires a.Valid() && cnt > 0 && Packed(a.Bits(), e) && Free(a.Bits(), e, cnt) && a.last <= e
    modifies a`last, a`top, a`avail, a`live, a.table
    ensures a.Valid() && e + cnt <= a.max && ret == Or(e, a.top) && a.top == old(a.top)
    ensures a.Bits() == Fill(old(a.Bits()), e, e + cnt, true) && a.live == Enter(old(a.live), e, cnt)
    ensures e == old(a.last) ==> a.last == if e + cnt < a.max then e + cnt else 0
  {
    ghost var v, owned := a.Bits(), a.live;
    FoundAtOnce(v, a.last, e, cnt);
    assert PowerOfTwo(1);
    hide Books, Clear, Words, View, Fill, Packed, Free, Allocated, Enter, Or, And, NoFit, PowerOfTwo, Allocator.Regular;
    ghost var run;
    ret, run := a.AllocRange(cnt, 1);
    LowestIs(v, owned, a.Bits(), a.live, run, cnt, e);
  }

  /** A bitmap of which a part is allocated, given back and allocated again while the bit behind it stays:
      the number is right exactly if the number of bits is a power of two. */
  method Reused(num: nat, cnt: nat) returns (a: Allocator, other: int, ret: int)
    requires 0 < cnt < num
    ensures a.Valid() && a.max == num && a.mask == num - 1
    ensures Handed(a.live, 0, cnt) && Handed(a.live, cnt, 1) && other == cnt
    ensures ret == And(num, num - 1) && (ret == 0 <==> PowerOfTwo(num))
  {
    hide Books, Clear, Words, View, Fill, Packed, Free, Allocated, Enter, Leave, Handed, Or, And, PowerOfTwo, Masked;
    hide Allocator.Regular;
    a := new Allocator(num, num - 1);
    AllClear(a);
    OneByOne(a.Bits(), a.live, cnt);
    ZeroOr(0);
    var first := AllocLowest(a, cnt, 0);
    OrZero(cnt);
    other := AllocLowest(a, 1, cnt);
    MaskedZero(num);
    a.FreeRange(first, cnt);
    LowestBit(num);
    ret := AllocLowest(a, cnt, 0);
    ZeroOr(a.top);
  }

  /** The four steps of `Reused` on the bits and in the books. */
  lemma OneByOne(v: seq<bool>, live: Ledger, cnt: nat)
    requires (forall i :: 0 <= i < |v| ==> !v[i]) && 0 < cnt < |v|
    ensures Packed(v, 0) && Free(v, 0, cnt)
    ensures var w := Fill(v, 0, cnt, true); var now := Enter(live, 0, cnt);
      Packed(w, cnt) && Free(w, cnt, 1) && Handed(now, 0, cnt) &&
      var w' := Fill(w, cnt, cnt + 1, true); var now' := Enter(now, cnt, 1);
      Handed(now', 0, cnt) &&
      var w'' := Fill(w', 0, cnt, false); var then' := Enter(Leave(now', 0), 0, cnt);
      Packed(w'', 0) && Free(w'', 0, cnt) && Handed(then', 0, cnt) && Handed(then', cnt, 1)
  {
  }

  lemma AllClear(a: Allocator)
    requires a.Valid() && a.live == map[]
    ensures forall i :: 0 <= i < a.max ==> !a.Bits()[i]
  {
  }

  lemma ZeroOr(x: nat)
    ensures Or(0, x) == x
  {
  }

  lemma MaskedZero(m: nat)
    requires m > 0
    ensures Masked(0, m) == 0
  {
  }
}
