/** os/kernel/mm/paging.c: giving the kernel's data and BSS pages their writable
    bit, in whatever tables the boot loader left.  Nothing is assumed about the
    shape of those tables: they may be shared or even cyclic. */
module WriteEnable {
  import opened PageTables
  import opened Addresses
  import opened Types

  /** The leaf entry of an address: its level (1: 4K, 2: 2M, 3: 1G) and place. */
  datatype Found = Found(level: int, at: Slot)

  /** `walk_va_to_leaf`. */
  function WalkToLeaf(m: Mem, cr3: Frame, pg: Page): Option<Found> {
    var pml4e := Slot(cr3, pg.i4);
    if !m[pml4e].p then None else
    var pdpte := Slot(m[pml4e].frame, pg.i3);
    if !m[pdpte].p then None else
    if m[pdpte].ps then Some(Found(3, pdpte)) else
    var pde := Slot(m[pdpte].frame, pg.i2);
    if !m[pde].p then None else
    if m[pde].ps then Some(Found(2, pde)) else
    var pte := Slot(m[pde].frame, pg.i1);
    if !m[pte].p then None else Some(Found(1, pte))
  }

  /** The walk finds the leaf the hardware uses, and fails exactly when the
      hardware has no translation. */
  lemma WalkIsHardware(m: Mem, cr3: Frame, pg: Page)
    ensures View(m, cr3, pg, 4) ==
            match WalkToLeaf(m, cr3, pg)
            case None => None
            case Some(f) => Some(Leaf(f.level, m[f.at]))
  {
    var pml4e := m[Slot(cr3, pg.i4)];
    if pml4e.p {
      var pdpte := m[Slot(pml4e.frame, pg.i3)];
      assert View(m, cr3, pg, 4) == View(m, pml4e.frame, pg, 3);
      if Points(3, pdpte) {
        assert View(m, pml4e.frame, pg, 3) == View(m, pdpte.frame, pg, 2);
      }
    }
  }

  /** Only writable bits differ, and only from 0 to 1. */
  ghost predicate OnlyWritable(m: Mem, m': Mem) {
    forall s: Slot :: m'[s] == m[s] || m'[s] == m[s].(w := true)
  }

  lemma KeptAlready(m: Mem, cr3: Frame, lo: int, hi: int)
    ensures OnlyWritable(m, m) && OnlyLeaves(m, m, cr3, lo, hi)
  {
  }

  lemma KeptTwice(m: Mem, m1: Mem, m2: Mem)
    requires OnlyWritable(m, m1) && OnlyWritable(m1, m2)
    ensures OnlyWritable(m, m2)
  {
  }

  /** Setting writable bits moves no translation: same leaf, same size, same
      frame, for every address of every table root. */
  lemma TranslationKept(m: Mem, m': Mem, cr3: Frame, pg: Page)
    requires OnlyWritable(m, m')
    ensures WalkToLeaf(m', cr3, pg) == WalkToLeaf(m, cr3, pg)
    ensures View(m', cr3, pg, 4).Some? <==> View(m, cr3, pg, 4).Some?
    ensures View(m, cr3, pg, 4).Some? ==>
              var (l, l') := (View(m, cr3, pg, 4).value, View(m', cr3, pg, 4).value);
              l'.level == l.level && PhysFrame(l', pg) == PhysFrame(l, pg)
              && (l'.e == l.e || l'.e == l.e.(w := true))
  {
    WalkIsHardware(m, cr3, pg);
    WalkIsHardware(m', cr3, pg);
    var pml4e := Slot(cr3, pg.i4);
    var pdpte := Slot(m[pml4e].frame, pg.i3);
    var pde := Slot(m[pdpte].frame, pg.i2);
    assert m'[pml4e].frame == m[pml4e].frame && m'[pdpte].frame == m[pdpte].frame && m'[pde].frame == m[pde].frame;
  }

  /** The page has a leaf, and the leaf is writable. */
  ghost predicate Writable(m: Mem, cr3: Frame, pg: Page) {
    WalkToLeaf(m, cr3, pg).Some? && m[WalkToLeaf(m, cr3, pg).value.at].w
  }

  /** Every entry above the leaf is writable. */
  ghost predicate UpperWritable(m: Mem, f: Frame, pg: Page, level: int)
    requires 1 <= level <= 4
    decreases level
  {
    var e := m[Slot(f, pg.At(level))];
    Points(level, e) ==> e.w && UpperWritable(m, e.frame, pg, level - 1)
  }

  /** The processor lets a page be written if its leaf and all entries above
      it are writable. */
  lemma {:induction false} EffectiveWrite(m: Mem, f: Frame, pg: Page, level: int)
    requires 1 <= level <= 4 && View(m, f, pg, level).Some?
    ensures Effective(m, f, pg, level).w <==> UpperWritable(m, f, pg, level) && View(m, f, pg, level).value.e.w
    decreases level
  {
    var e := m[Slot(f, pg.At(level))];
    if Points(level, e) {
      EffectiveWrite(m, e.frame, pg, level - 1);
    }
  }

  /** With a writable leaf, it is the upper entries that decide. */
  lemma WritableMeans(m: Mem, cr3: Frame, pg: Page)
    requires Writable(m, cr3, pg)
    ensures Effective(m, cr3, pg, 4).w <==> UpperWritable(m, cr3, pg, 4)
  {
    hide View, Effective, UpperWritable, WalkToLeaf;
    WalkIsHardware(m, cr3, pg);
    EffectiveWrite(m, cr3, pg, 4);
  }

  function FirstPage(start: U64): int {
    start / 0x1000
  }

  /** One past the last page the loop visits: `end` rounded up in 64-bit arithmetic. */
  function EndPage(end: U64): int {
    (end + 0xFFF) % TWO64 / 0x1000
  }

  /** The loop covers every byte of [start, end) exactly when rounding `end` up
      does not wrap, or there are no bytes. */
  lemma RangeCovered(start: U64, end: U64)
    ensures (forall a: U64 :: start <= a < end ==> FirstPage(start) <= a / 0x1000 < EndPage(end))
            <==> (end <= start || end + 0xFFF < TWO64)
  {
    if start < end {
      if end + 0xFFF < TWO64 {
        forall a: U64 | start <= a < end
          ensures FirstPage(start) <= a / 0x1000 < EndPage(end)
        {
        }
      } else {
        var last: U64 := end - 1;
        assert EndPage(end) == 0;
        assert start <= last < end && !(last / 0x1000 < EndPage(end));
      }
    }
  }

  /** Addresses whose pages the loop is about: the bytes of the range.  A range
      whose end cannot be rounded up is skipped, and an empty one inside a page
      still stands for that page. */
  ghost predicate Touched(start: U64, end: U64, a: U64) {
    && end + 0xFFF < TWO64
    && if start < end then start <= a < end
       else a == start && start / 0x1000 == end / 0x1000 && end % 0x1000 != 0
  }

  /** The pages visited are exactly those of such addresses. */
  lemma VisitedExact(start: U64, end: U64, p: nat)
    ensures FirstPage(start) <= p < EndPage(end) <==> exists a: U64 :: Touched(start, end, a) && p == a / 0x1000
  {
    if FirstPage(start) <= p < EndPage(end) {
      var a: U64 := if p * 0x1000 < start then start else p * 0x1000;
      assert Touched(start, end, a) && p == a / 0x1000;
    }
    if a: U64 :| Touched(start, end, a) && p == a / 0x1000 {
      assert FirstPage(start) <= p < EndPage(end);
    }
  }

  lemma PageOfByte(a: U64)
    ensures a / 0x1000 < 0x10_0000_0000_0000 && PageAt(a / 0x1000) == PageOf(a)
  {
    hide PageOf;
    SamePage(a, a / 0x1000 * 0x1000);
  }

  /** The pass, told by the bytes of the range: it completes exactly if all their
      pages are mapped, these then have writable leaves, and no other entry
      changes. */
  ghost predicate EnabledBytes(m: Mem, m': Mem, cr3: Frame, start: U64, end: U64, ok: bool) {
    && (ok <==> forall a: U64 :: Touched(start, end, a) ==> View(m, cr3, PageOf(a), 4).Some?)
    && (ok ==> forall a: U64 :: Touched(start, end, a) ==> Writable(m', cr3, PageOf(a)))
    && (forall s: Slot :: m'[s] != m[s] ==> exists a: U64 :: Touched(start, end, a) && LeafAt(m, cr3, PageOf(a), s))
  }

  lemma ToBytes(m: Mem, m': Mem, cr3: Frame, start: U64, end: U64, ok: bool)
    requires OnlyLeaves(m, m', cr3, FirstPage(start), EndPage(end))
    requires ok <==> forall p: nat :: FirstPage(start) <= p < EndPage(end) ==> View(m, cr3, PageAt(p), 4).Some?
    requires ok ==> forall p: nat :: FirstPage(start) <= p < EndPage(end) ==> Writable(m', cr3, PageAt(p))
    ensures EnabledBytes(m, m', cr3, start, end, ok)
  {
    hide PageOf, View, LeafAt, Writable, Touched;
    forall a: U64 | Touched(start, end, a)
      ensures FirstPage(start) <= a / 0x1000 < EndPage(end) && PageAt(a / 0x1000) == PageOf(a)
    {
      VisitedExact(start, end, a / 0x1000);
      PageOfByte(a);
    }
    if !ok {
      var p: nat :| FirstPage(start) <= p < EndPage(end) && !View(m, cr3, PageAt(p), 4).Some?;
      var a := ByteIn(start, end, p);
      assert Touched(start, end, a) && !View(m, cr3, PageOf(a), 4).Some?;
    }
    forall s: Slot | m'[s] != m[s]
      ensures exists a: U64 :: Touched(start, end, a) && LeafAt(m, cr3, PageOf(a), s)
    {
      assert LeafIn(m, cr3, FirstPage(start), EndPage(end), s);
      var p: nat :| FirstPage(start) <= p < EndPage(end) && p < 0x10_0000_0000_0000 && LeafAt(m, cr3, PageAt(p), s);
      var a := ByteIn(start, end, p);
      assert Touched(start, end, a) && LeafAt(m, cr3, PageOf(a), s);
    }
  }

  lemma ByteIn(start: U64, end: U64, p: nat) returns (a: U64)
    requires FirstPage(start) <= p < EndPage(end)
    ensures Touched(start, end, a) && p < 0x10_0000_0000_0000 && PageAt(p) == PageOf(a)
  {
    hide PageOf;
    VisitedExact(start, end, p);
    a :| Touched(start, end, a) && p == a / 0x1000;
    PageOfByte(a);
  }

  function PageAt(p: nat): Page
    requires p < 0x10_0000_0000_0000
  {
    PageOf(p * 0x1000)
  }

  /** `s` is the leaf entry of one of the pages from `lo` on, below `hi`. */
  ghost predicate LeafIn(m: Mem, cr3: Frame, lo: int, hi: int, s: Slot) {
    exists p: nat :: lo <= p < hi && p < 0x10_0000_0000_0000 && LeafAt(m, cr3, PageAt(p), s)
  }

  ghost predicate LeafAt(m: Mem, cr3: Frame, pg: Page, s: Slot) {
    WalkToLeaf(m, cr3, pg).Some? && WalkToLeaf(m, cr3, pg).value.at == s
  }

  /** What changed are leaf entries of those pages. */
  ghost predicate OnlyLeaves(m: Mem, m': Mem, cr3: Frame, lo: int, hi: int) {
    forall s: Slot :: m'[s] != m[s] ==> LeafIn(m, cr3, lo, hi, s)
  }

  lemma NextLeaf(m0: Mem, m: Mem, m': Mem, cr3: Frame, lo: int, n: nat, hi: int)
    requires OnlyWritable(m0, m) && OnlyLeaves(m0, m, cr3, lo, hi) && lo <= n < hi <= 0x10_0000_0000_0000
    requires forall s: Slot :: m'[s] != m[s] ==> LeafAt(m, cr3, PageAt(n), s)
    ensures OnlyLeaves(m0, m', cr3, lo, hi)
  {
    TranslationKept(m0, m, cr3, PageAt(n));
    forall s: Slot | m'[s] != m0[s]
      ensures LeafIn(m0, cr3, lo, hi, s)
    {
      if m'[s] != m[s] {
        assert LeafAt(m0, cr3, PageAt(n), s);
      } else {
        assert LeafIn(m0, cr3, lo, hi, s);
      }
    }
  }

  lemma StaysWritable(m: Mem, m': Mem, cr3: Frame, pg: Page)
    requires OnlyWritable(m, m') && Writable(m, cr3, pg)
    ensures Writable(m', cr3, pg)
  {
    TranslationKept(m, m', cr3, pg);
  }

  class Paging {
    var mem: Mem
    const cr3: Frame

    constructor (m: Mem, cr3: Frame)
      ensures mem == m && this.cr3 == cr3
    {
      mem, this.cr3 := m, cr3;
    }

    /** `make_page_writable_minimal`. */
    method MakeWritable(va: U64) returns (ok: bool)
      modifies this
      ensures ok <==> View(old(mem), cr3, PageOf(va), 4).Some?
      ensures OnlyWritable(old(mem), mem)
      ensures ok ==> Writable(mem, cr3, PageOf(va))
      ensures !ok ==> mem == old(mem)
      ensures forall s: Slot :: mem[s] != old(mem)[s] ==> LeafAt(old(mem), cr3, PageOf(va), s)
    {
      WalkIsHardware(mem, cr3, PageOf(va));
      var walk := WalkToLeaf(mem, cr3, PageOf(va));
      if walk.None? {
        return false;
      }
      var at := walk.value.at;
      if mem[at].w {
        return true;
      }
      mem := mem[at := mem[at].(w := true)];
      TranslationKept(old(mem), mem, cr3, PageOf(va));
      return true;
    }

    /** `enable_bss_write_permissions`; `ok` is false where the kernel halts.
        It completes exactly when every page of the range is mapped, and then
        every one has a writable leaf; no other entry changes. */
    method EnableRange(start: U64, end: U64) returns (ok: bool)
      modifies this
      ensures OnlyWritable(old(mem), mem) && OnlyLeaves(old(mem), mem, cr3, FirstPage(start), EndPage(end))
      ensures ok <==> forall p: nat :: FirstPage(start) <= p < EndPage(end) ==> View(old(mem), cr3, PageAt(p), 4).Some?
      ensures ok ==> forall p: nat :: FirstPage(start) <= p < EndPage(end) ==> Writable(mem, cr3, PageAt(p))
      ensures ok ==> forall p: nat :: FirstPage(start) <= p < EndPage(end) ==>
                (Effective(mem, cr3, PageAt(p), 4).w <==> UpperWritable(mem, cr3, PageAt(p), 4))
      ensures EnabledBytes(old(mem), mem, cr3, start, end, ok)
    {
      hide PageOf, View, WalkToLeaf, Writable, OnlyWritable, OnlyLeaves, LeafAt, Effective, UpperWritable,
           EnabledBytes;
      var va := start / 0x1000 * 0x1000;
      ghost var n := start / 0x1000;
      KeptAlready(mem, cr3, n, EndPage(end));
      while va < EndPage(end) * 0x1000
        invariant va == n * 0x1000 && FirstPage(start) <= n
        invariant OnlyWritable(old(mem), mem) && OnlyLeaves(old(mem), mem, cr3, FirstPage(start), EndPage(end))
        invariant forall p: nat :: FirstPage(start) <= p < n && p < EndPage(end) ==>
                    View(old(mem), cr3, PageAt(p), 4).Some? && Writable(mem, cr3, PageAt(p))
      {
        ghost var m := mem;
        TranslationKept(old(mem), m, cr3, PageAt(n));
        var done := MakeWritable(va);
        if !done {
          ToBytes(old(mem), mem, cr3, start, end, false);
          return false;
        }
        NextLeaf(old(mem), m, mem, cr3, FirstPage(start), n, EndPage(end));
        KeptTwice(old(mem), m, mem);
        forall p: nat | FirstPage(start) <= p < n && p < EndPage(end)
          ensures Writable(mem, cr3, PageAt(p))
        {
          StaysWritable(m, mem, cr3, PageAt(p));
        }
        va := va + 0x1000;
        n := n + 1;
      }
      forall p: nat | FirstPage(start) <= p < EndPage(end)
        ensures Effective(mem, cr3, PageAt(p), 4).w <==> UpperWritable(mem, cr3, PageAt(p), 4)
      {
        WritableMeans(mem, cr3, PageAt(p));
      }
      ToBytes(old(mem), mem, cr3, start, end, true);
      return true;
    }
  }
}
