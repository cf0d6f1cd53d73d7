/** Rounding a byte range to whole pages, as `ibv_madvise_range` does it. */
module Pages {
  import opened Arith

  const UINTPTR_MAX: nat := 0xFFFF_FFFF_FFFF_FFFF
  const ADDRESS_SPACE: nat := UINTPTR_MAX + 1

  /** A power of two is exactly a divisor of the size of the address space. */
  predicate PageSize(ps: nat) { ps > 0 && ADDRESS_SPACE % ps == 0 }

  function PageStart(base: nat, ps: nat): (r: nat)
    requires ps > 0
    ensures r <= base
  {
    assert base % ps <= base by { DivMod(base, ps); }
    base - base % ps
  }

  /** The last byte of the last page, computed modulo the address space as the code does. */
  function PageEnd(base: nat, size: nat, ps: nat): nat
    requires ps > 0
  {
    var x := (base + size + ps - 1) % ADDRESS_SPACE;
    (x - x % ps - 1) % ADDRESS_SPACE
  }

  ghost predicate SamePage(a: int, b: int, ps: nat)
    requires ps > 0
  {
    a / ps == b / ps
  }

  /** a lies on a page that [base, base + size) touches. */
  ghost predicate Touched(base: nat, size: nat, ps: nat, a: int)
    requires ps > 0
  {
    exists b :: base <= b < base + size && SamePage(a, b, ps)
  }

  lemma DivMod(x: nat, ps: nat)
    requires ps > 0
    ensures x == ps * (x / ps) + x % ps && 0 <= x % ps < ps && 0 <= x / ps && 0 <= ps * (x / ps) <= x
  {
  }

  lemma Wraps(x: int, k: int)
    requires ADDRESS_SPACE * k <= x < ADDRESS_SPACE * k + ADDRESS_SPACE
    ensures x % ADDRESS_SPACE == x - ADDRESS_SPACE * k
  {
    Quotient(x, ADDRESS_SPACE, k);
  }

  /** The last page, without the wrap-around. */
  lemma EndOfLastPage(base: nat, size: nat, ps: nat)
    requires PageSize(ps) && size > 0 && base + size <= ADDRESS_SPACE
    ensures PageEnd(base, size, ps) == ps * ((base + size - 1) / ps) + ps - 1
    ensures PageEnd(base, size, ps) <= UINTPTR_MAX
  {
    var last := base + size - 1;
    var up := NextPage(last, ps);
    hide PageSize;
    assert last + ps == base + size + ps - 1;
    if last + ps < ADDRESS_SPACE {
      Wraps(last + ps, 0);
      Wraps(up - 1, 0);
    } else {
      Wraps(last + ps, 1);
      Wraps(-1, -1);
    }
  }

  lemma NextPage(last: nat, ps: nat) returns (up: nat)
    requires PageSize(ps) && last < ADDRESS_SPACE
    ensures up == ps * (last / ps) + ps && up <= last + ps < up + ps && ps <= up <= ADDRESS_SPACE
    ensures last + ps < ADDRESS_SPACE ==> (last + ps) % ps == last + ps - up
    ensures last + ps >= ADDRESS_SPACE ==>
      up == ADDRESS_SPACE && (last + ps - ADDRESS_SPACE) % ps == last + ps - ADDRESS_SPACE
  {
    var k, n := last / ps, ADDRESS_SPACE / ps;
    DivMod(last, ps); DivMod(ADDRESS_SPACE, ps);
    Cancel(ps, k, n);
    UpWithin(ps, k, n);
    up := ps * k + ps;
    Quotient(last + ps, ps, k + 1);
    if last + ps >= ADDRESS_SPACE {
      Quotient(last + ps - ADDRESS_SPACE, ps, 0);
    }
  }

  lemma UpWithin(ps: nat, k: int, n: int)
    requires ps > 0 && k < n
    ensures ps * (k + 1) <= ps * n
    ensures k + 1 < n ==> ps * (k + 1) + ps <= ps * n
  {
    Cancel(ps, n, k + 1);
    if k + 1 < n { Cancel(ps, n, k + 2); }
  }

  /** [PageStart, PageEnd] is exactly the set of addresses on touched pages. */
  lemma PagesCovered(base: nat, size: nat, ps: nat)
    requires PageSize(ps) && size > 0 && base + size <= ADDRESS_SPACE
    ensures PageStart(base, ps) <= PageEnd(base, size, ps) <= UINTPTR_MAX
    ensures forall a :: PageStart(base, ps) <= a <= PageEnd(base, size, ps) <==> Touched(base, size, ps, a)
  {
    EndOfLastPage(base, size, ps);
    var last := base + size - 1;
    DivMod(base, ps); DivMod(last, ps);
    forall a ensures PageStart(base, ps) <= a <= PageEnd(base, size, ps) <==> Touched(base, size, ps, a) {
      PageCovered(base, size, ps, a);
    }
  }

  lemma PageCovered(base: nat, size: nat, ps: nat, a: int)
    requires PageSize(ps) && size > 0
    ensures ps * (base / ps) <= a <= ps * ((base + size - 1) / ps) + ps - 1 <==> Touched(base, size, ps, a)
  {
    var last := base + size - 1;
    DivMod(base, ps); DivMod(last, ps); FloorMod(a, ps);
    if ps * (base / ps) <= a <= ps * (last / ps) + ps - 1 {
      FindByte(base, last, ps, a);
    }
    forall b | base <= b < base + size && SamePage(a, b, ps)
      ensures ps * (base / ps) <= a <= ps * (last / ps) + ps - 1
    {
      QuotientOrder(base, b, ps); QuotientOrder(b, last, ps);
      MulOrder(ps, base / ps, a / ps); MulOrder(ps, a / ps, last / ps);
    }
  }

  lemma FindByte(base: nat, last: nat, ps: nat, a: int)
    requires ps > 0 && base <= last && ps * (base / ps) <= a <= ps * (last / ps) + ps - 1
    ensures exists b :: base <= b <= last && SamePage(a, b, ps)
  {
    var lo, hi, k := base / ps, last / ps, a / ps;
    FloorMod(base, ps); FloorMod(last, ps); FloorMod(a, ps);
    Cancel(ps, lo, k + 1); Cancel(ps, k, hi + 1);
    if k == lo {
      assert SamePage(a, base, ps);
    } else {
      MulOrder(ps, lo + 1, k); MulOrder(ps, k, hi); Cancel(ps, lo, lo);
      Quotient(ps * k, ps, k);
      assert SamePage(a, ps * k, ps);
    }
  }
}
