/** Bitwise operations on unsigned numbers, digit by digit, and the single bits of 32-bit words. */
module BitWords {
  import opened Arith

  /** `x >> k & 1` */
  predicate Bit(x: nat, k: nat) {
    if k == 0 then x % 2 == 1 else Bit(x / 2, k - 1)
  }

  /** `x & y` */
  function And(x: nat, y: nat): (r: nat)
    ensures r <= x && r <= y
  {
    if x == 0 || y == 0 then 0 else 2 * And(x / 2, y / 2) + if x % 2 == 1 && y % 2 == 1 then 1 else 0
  }

  /** `x | y` */
  function Or(x: nat, y: nat): nat {
    if x == 0 then y else if y == 0 then x
    else 2 * Or(x / 2, y / 2) + if x % 2 == 1 || y % 2 == 1 then 1 else 0
  }

  /** `x & ~y` */
  function AndNot(x: nat, y: nat): (r: nat)
    ensures r <= x
  {
    if x == 0 || y == 0 then x else 2 * AndNot(x / 2, y / 2) + if x % 2 == 1 && y % 2 == 0 then 1 else 0
  }

  // ----- their bits --------------------------------------------------------------------

  lemma {:induction false} ZeroBit(k: nat)
    ensures !Bit(0, k)
  {
    if k > 0 { ZeroBit(k - 1); }
  }

  lemma {:induction false} AndBit(x: nat, y: nat, k: nat)
    ensures Bit(And(x, y), k) <==> Bit(x, k) && Bit(y, k)
    decreases k
  {
    if x == 0 || y == 0 {
      ZeroBit(k);
    } else {
      Halves(And(x / 2, y / 2), x % 2 == 1 && y % 2 == 1);
      if k > 0 { AndBit(x / 2, y / 2, k - 1); }
    }
  }

  lemma {:induction false} OrBit(x: nat, y: nat, k: nat)
    ensures Bit(Or(x, y), k) <==> Bit(x, k) || Bit(y, k)
    decreases k
  {
    if x == 0 || y == 0 {
      ZeroBit(k);
    } else {
      Halves(Or(x / 2, y / 2), x % 2 == 1 || y % 2 == 1);
      if k > 0 { OrBit(x / 2, y / 2, k - 1); }
    }
  }

  lemma {:induction false} AndNotBit(x: nat, y: nat, k: nat)
    ensures Bit(AndNot(x, y), k) <==> Bit(x, k) && !Bit(y, k)
    decreases k
  {
    if x == 0 || y == 0 {
      ZeroBit(k);
    } else {
      Halves(AndNot(x / 2, y / 2), x % 2 == 1 && y % 2 == 0);
      if k > 0 { AndNotBit(x / 2, y / 2, k - 1); }
    }
  }

  lemma Halves(h: nat, odd: bool)
    ensures var x := 2 * h + if odd then 1 else 0; x / 2 == h && (x % 2 == 1 <==> odd)
  {
  }

  lemma {:induction false} PowerBit(k: nat, j: nat)
    ensures Bit(Pow2(k), j) <==> j == k
  {
    if k == 0 {
      if j > 0 { ZeroBit(j - 1); }
    } else if j > 0 {
      PowerBit(k - 1, j - 1);
    }
  }

  /** A number without bits is zero. */
  lemma {:induction false} NoBits(x: nat, n: nat)
    requires x < Pow2(n) && forall k: nat :: k < n ==> !Bit(x, k)
    ensures x == 0
  {
    if n > 0 {
      forall k: nat | k < n - 1 ensures !Bit(x / 2, k) { assert !Bit(x, k + 1); }
      assert !Bit(x, 0);
      NoBits(x / 2, n - 1);
    }
  }

  /** Testing one bit with a mask. */
  lemma {:induction false} TestBit(x: nat, k: nat)
    ensures And(x, Pow2(k)) != 0 <==> Bit(x, k)
  {
    hide And, Bit, Pow2;
    var masked := And(x, Pow2(k));
    AndBit(x, Pow2(k), k);
    PowerBit(k, k);
    ZeroBit(k);
    if !Bit(x, k) {
      forall j: nat | j < k + 1 ensures !Bit(masked, j) { AndBit(x, Pow2(k), j); PowerBit(k, j); }
      PowerMonotone(k, k + 1);
      NoBits(masked, k + 1);
    }
  }

  lemma {:induction false} OrBound(x: nat, y: nat, n: nat)
    requires x < Pow2(n) && y < Pow2(n)
    ensures Or(x, y) < Pow2(n)
  {
    if n > 0 { OrBound(x / 2, y / 2, n - 1); }
  }

  /** `~0 << s`, cut to n bits. */
  function From(s: nat, n: nat): nat
    requires s <= n
  {
    PowerMonotone(s, n);
    Pow2(n) - Pow2(s)
  }

  lemma {:induction false} FromBit(s: nat, n: nat, j: nat)
    requires s <= n
    ensures Bit(From(s, n), j) <==> s <= j < n
  {
    if s == n {
      ZeroBit(j);
    } else if s == 0 {
      Halves(Pow2(n - 1) - 1, true);
      if j > 0 { FromBit(0, n - 1, j - 1); }
    } else {
      Halves(From(s - 1, n - 1), false);
      if j > 0 { FromBit(s - 1, n - 1, j - 1); }
    }
  }

  lemma FromBound(s: nat, n: nat)
    requires s <= n
    ensures From(s, n) < Pow2(n)
  {
  }

  lemma OnesBit(n: nat, j: nat)
    requires j < n
    ensures Bit(Pow2(n) - 1, j)
  {
    FromBit(0, n, j);
  }

  /** A word is full exactly if all its bits are set. */
  lemma {:induction false} Full(x: nat, n: nat)
    requires x < Pow2(n) && forall k: nat :: k < n ==> Bit(x, k)
    ensures x == Pow2(n) - 1
  {
    if n > 0 {
      forall k: nat | k < n - 1 ensures Bit(x / 2, k) { assert Bit(x, k + 1); }
      assert Bit(x, 0);
      Full(x / 2, n - 1);
    }
  }

  /** The position of the lowest clear bit (`__builtin_ffs` of the complement, less one). */
  function FirstZero(w: nat, from: nat): (k: nat)
    requires from <= 32
    ensures from <= k <= 32 && (k < 32 ==> !Bit(w, k)) && forall j :: from <= j < k ==> Bit(w, j)
    decreases 32 - from
  {
    if from == 32 || !Bit(w, from) then from else FirstZero(w, from + 1)
  }

  // ----- masks and powers of two -------------------------------------------------------

  predicate PowerOfTwo(m: nat): (b: bool)
    ensures b ==> m > 0
  {
    m == 1 || (m > 1 && m % 2 == 0 && PowerOfTwo(m / 2))
  }

  function Masked(x: nat, m: nat): nat
    requires m > 0
  {
    And(x, m - 1)
  }

  /** Masking with m - 1 takes the remainder. */
  lemma {:induction false} MaskIsRemainder(x: nat, m: nat)
    requires PowerOfTwo(m)
    ensures Masked(x, m) == x % m
  {
    if m > 1 {
      var h := m / 2;
      assert m == 2 * h && PowerOfTwo(h);
      hide Masked, PowerOfTwo, And;
      MaskIsRemainder(x / 2, h);
      MaskHalf(x, h);
      HalfRemainder(x, h);
    }
  }

  lemma MaskHalf(x: nat, h: nat)
    requires h > 0
    ensures Masked(x, 2 * h) == 2 * Masked(x / 2, h) + x % 2
  {
    Halves(h - 1, true);
  }

  lemma HalfRemainder(x: nat, h: nat)
    requires h > 0
    ensures x % (2 * h) == 2 * (x / 2 % h) + x % 2
  {
    var q := x / 2 / h;
    FloorMod(x / 2, h);
    assert 2 * (h * q) == (2 * h) * q;
    Quotient(x, 2 * h, q);
  }

  ghost predicate MaskKeeps(m: nat)
    requires m > 0
  {
    forall x: nat :: x < m ==> Masked(x, m) == x
  }

  /** Masking with m - 1 leaves every number below m alone exactly if m is a power of two. */
  lemma MaskIsIdentity(m: nat)
    requires m > 0
    ensures MaskKeeps(m) <==> PowerOfTwo(m)
  {
    hide Masked, PowerOfTwo;
    if PowerOfTwo(m) {
      forall x: nat | x < m ensures Masked(x, m) == x { MaskIsRemainder(x, m); Quotient(x, m, 0); }
    } else {
      var x := MaskChanges(m);
    }
  }

  lemma {:induction false} MaskChanges(m: nat) returns (x: nat)
    requires m > 0 && !PowerOfTwo(m)
    ensures x < m && Masked(x, m) != x
    decreases m
  {
    if m % 2 == 1 {
      x := 1;
      assert And(0, (m - 1) / 2) == 0;
    } else {
      var y := MaskChanges(m / 2);
      x := 2 * y;
      MaskHalf(x, m / 2);
    }
  }

  /** Only a power of two has no bit in common with its predecessor. */
  lemma {:induction false} LowestBit(m: nat)
    requires m > 0
    ensures And(m, m - 1) == 0 <==> PowerOfTwo(m)
    decreases m
  {
    if m % 2 == 1 {
      Halves(m / 2, false);
      if m > 1 { AndSame(m / 2); }
    } else {
      Halves(m / 2 - 1, true);
      LowestBit(m / 2);
    }
  }

  /** It takes at least as much off as the largest power of two that divides the number. */
  lemma {:induction false} LowestBitOff(m: nat, k: nat)
    requires m > 0 && m % Pow2(k) == 0
    ensures And(m, m - 1) + Pow2(k) <= m
    decreases k
  {
    if k > 0 {
      HalfDivides(m, Pow2(k - 1));
      Halves(m / 2 - 1, true);
      LowestBitOff(m / 2, k - 1);
    } else {
      assert Pow2(0) == 1;
    }
  }

  lemma HalfDivides(m: nat, p: nat)
    requires p > 0 && m > 0 && m % (2 * p) == 0
    ensures m % 2 == 0 && m / 2 > 0 && m / 2 % p == 0
  {
    var q := m / (2 * p);
    FloorMod(m, 2 * p);
    assert (2 * p) * q == 2 * (p * q);
    Quotient(p * q, p, q);
  }

  lemma {:induction false} AndSame(x: nat)
    ensures And(x, x) == x
  {
    if x > 0 { AndSame(x / 2); }
  }
}
