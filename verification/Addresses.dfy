/** Virtual addresses as os/kernel/mm/vmm.c splits them. */
module Addresses {
  import opened Types
  import opened PageTables

  const PAGES := 0x10_0000_0000   // 2^36 pages

  /** The four 9-bit indices of an address; bits 48-63 play no part. */
  function PageOf(va: U64): Page {
    Page(va / 0x80_0000_0000 % 512, va / 0x4000_0000 % 512, va / 0x20_0000 % 512, va / 0x1000 % 512)
  }

  /** The address `i` pages above `va`, in 64-bit arithmetic. */
  function Plus(va: U64, i: nat): U64 {
    (va + i * 0x1000) % TWO64
  }

  function Number(pg: Page): int {
    ((pg.i4 * 512 + pg.i3) * 512 + pg.i2) * 512 + pg.i1
  }

  lemma NumberOfPage(va: U64)
    ensures Number(PageOf(va)) == va / 0x1000 % PAGES
  {
    var v := va / 0x1000;
    assert va / 0x20_0000 == v / 512;
    assert va / 0x4000_0000 == v / 512 / 512;
    assert va / 0x80_0000_0000 == v / 512 / 512 / 512;
  }

  lemma NumberInjective(a: Page, b: Page)
    requires Number(a) == Number(b)
    ensures a == b
  {
  }

  /** Addresses have the same indices exactly when their page numbers agree
      below 2^36 ... */
  lemma SamePage(va: U64, vb: U64)
    ensures PageOf(va) == PageOf(vb) <==> va / 0x1000 % PAGES == vb / 0x1000 % PAGES
  {
    NumberOfPage(va);
    NumberOfPage(vb);
    var a, b := PageOf(va), PageOf(vb);
    if Number(a) == Number(b) {
      NumberInjective(a, b);
    }
  }

  lemma WithNumber(va: U64, pg: Page)
    requires va / 0x1000 == Number(pg)
    ensures PageOf(va) == pg
  {
    hide PageOf, Number;
    NumberOfPage(va);
    NumberBound(pg);
    NumberInjective(PageOf(va), pg);
  }

  lemma NumberBound(pg: Page)
    ensures 0 <= Number(pg) < PAGES
  {
  }

  /** ... and every page has an address: pages are the 36-bit page numbers. */
  lemma EveryPage(pg: Page) returns (va: U64)
    ensures PageOf(va) == pg && va == Number(pg) * 0x1000 && Number(pg) < PAGES
  {
    va := Number(pg) * 0x1000;
    WithNumber(va, pg);
  }

  lemma Residues(n: int, i: int, j: int)
    requires 0 <= i < j < PAGES
    ensures (n + i) % PAGES != (n + j) % PAGES
  {
  }

  /** A range of at most 2^36 pages has no page twice, even when the addresses
      wrap around. */
  lemma RangeDistinct(va: U64, i: nat, j: nat)
    requires i < j < PAGES
    ensures PageOf(Plus(va, i)) != PageOf(Plus(va, j))
  {
    SamePage(Plus(va, i), Plus(va, j));
    PlusNumber(va, i);
    PlusNumber(va, j);
    Residues(va / 0x1000, i, j);
  }

  lemma Wrapped(x: int, q: int)
    ensures (x - q * TWO64) / 0x1000 == x / 0x1000 - q * 0x10_0000_0000_0000
  {
  }

  lemma SameResidue(y: int, q: int)
    ensures (y - q * 0x10_0000_0000_0000) % PAGES == y % PAGES
  {
    assert q * 0x10_0000_0000_0000 == (q * 0x1_0000) * PAGES;
  }

  lemma PlusNumber(va: U64, i: nat)
    ensures Plus(va, i) / 0x1000 % PAGES == (va / 0x1000 + i) % PAGES
  {
    var x := va + i * 0x1000;
    var q := x / TWO64;
    Wrapped(x, q);
    SameResidue(x / 0x1000, q);
    assert x / 0x1000 == va / 0x1000 + i;
  }
}
