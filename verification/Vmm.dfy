/** os/kernel/mm/vmm.c: mapping, unmapping and looking up pages in the active
    page tables. */
module Vmm {
  import opened PageTables
  import opened Addresses
  import opened Types
  import opened PteWords
  import opened Blind
  import opened Tlb
  import opened Ram

  /** Clearing a frame outside the tables changes nothing the tables say. */
  lemma ClearKeeps(m: Mem, m': Mem, t: Forest, root: Frame, cache: set<Cached>)
    requires Tree(m, t, 512) && SameFrames(m, m', t.Keys) && root in t && t[root] == Root
    requires Coherent(m, root, cache)
    ensures Tree(m', t, 512) && PageMap(m', root) == PageMap(m, root) && Coherent(m', root, cache)
  {
    OutsideTree(m, m', t, 512);
    forall pg: Page
      ensures View(m', root, pg, 4) == View(m, root, pg, 4)
    {
      OutsideWalk(m, m', t, 512, root, pg, 4);
    }
    forall c | c in cache
      ensures Agrees(m', root, c)
    {
      OutsideAgrees(m, m', t, 512, root, c);
    }
  }

  /** Linking an empty table changes nothing the tables say. */
  lemma LinkKeeps(m: Mem, t: Forest, s: Slot, c: Frame, e: Pte, root: Frame, cache: set<Cached>)
    requires Linkable(m, t, 512, s, c, e) && root in t && t[root] == Root
    requires Coherent(m, root, cache)
    ensures Tree(m[s := e], Grown(t, s, c), 512)
    ensures PageMap(m[s := e], root) == PageMap(m, root) && Coherent(m[s := e], root, cache)
  {
    LinkTree(m, t, 512, s, c, e);
    forall pg: Page
      ensures View(m[s := e], root, pg, 4) == View(m, root, pg, 4)
    {
      LinkWalk(m, t, 512, s, c, e, root, pg, 4);
    }
    forall item | item in cache
      ensures Agrees(m[s := e], root, item)
    {
      LinkAgrees(m, t, 512, s, c, e, root, item);
    }
  }

  ghost function Without(pages: imap<Page, Leaf>, pg: Page): imap<Page, Leaf> {
    imap x | x in pages && x != pg :: pages[x]
  }

  /** Mapping `n` consecutive pages, in order. */
  ghost function MapRange(pages: imap<Page, Leaf>, va: U64, pa: U64, flags: U64, n: nat): imap<Page, Leaf> {
    if n == 0 then pages
    else MapRange(pages, va, pa, flags, n - 1)
           [PageOf(Plus(va, n - 1)) := Leaf(1, LeafFor(Plus(pa, n - 1), flags))]
  }

  ghost function UnmapRange(pages: imap<Page, Leaf>, va: U64, n: nat): imap<Page, Leaf> {
    if n == 0 then pages else Without(UnmapRange(pages, va, n - 1), PageOf(Plus(va, n - 1)))
  }

  ghost predicate InRange(va: U64, n: nat, pg: Page) {
    exists i: nat :: i < n && PageOf(Plus(va, i)) == pg
  }

  lemma {:induction false} UnmapRangeIs(pages: imap<Page, Leaf>, va: U64, n: nat, pg: Page)
    ensures pg in UnmapRange(pages, va, n) <==> pg in pages && !InRange(va, n, pg)
    ensures pg in UnmapRange(pages, va, n) ==> UnmapRange(pages, va, n)[pg] == pages[pg]
  {
    hide PageOf, Plus;
    if n > 0 {
      UnmapRangeIs(pages, va, n - 1, pg);
      assert InRange(va, n, pg) <==> InRange(va, n - 1, pg) || PageOf(Plus(va, n - 1)) == pg;
    }
  }

  lemma {:induction false} MapRangeIs(pages: imap<Page, Leaf>, va: U64, pa: U64, flags: U64, n: nat, pg: Page)
    ensures pg in MapRange(pages, va, pa, flags, n) <==> pg in pages || InRange(va, n, pg)
    ensures InRange(va, n, pg) ==> MapRange(pages, va, pa, flags, n)[pg].level == 1
    ensures !InRange(va, n, pg) && pg in pages ==> MapRange(pages, va, pa, flags, n)[pg] == pages[pg]
  {
    hide LeafFor, PageOf, Plus;
    if n > 0 {
      MapRangeIs(pages, va, pa, flags, n - 1, pg);
      assert InRange(va, n, pg) <==> InRange(va, n - 1, pg) || PageOf(Plus(va, n - 1)) == pg;
    }
  }

  /** In a range of at most 2^36 pages, page `i` is mapped to frame `i`. */
  lemma {:induction false} MapRangeAt(pages: imap<Page, Leaf>, va: U64, pa: U64, flags: U64, n: nat, i: nat)
    requires i < n <= PAGES
    ensures var pg := PageOf(Plus(va, i));
            pg in MapRange(pages, va, pa, flags, n)
            && MapRange(pages, va, pa, flags, n)[pg] == Leaf(1, LeafFor(Plus(pa, i), flags))
  {
    hide LeafFor, PageOf, Plus;
    if i < n - 1 {
      RangeDistinct(va, i, n - 1);
      MapRangeAt(pages, va, pa, flags, n - 1, i);
    }
  }

  /** So, for flags without address bits and physical memory below 2^52, page `i`
      leads to the `i`-th frame from that of `pa` on, with the flags' rights. */
  lemma MapRangeFrames(pages: imap<Page, Leaf>, va: U64, pa: U64, flags: U64, n: nat, i: nat)
    requires i < n <= PAGES && pa + n * 0x1000 <= 0x10_0000_0000_0000 && AndW(flags, ADDR_MASK) == 0
    ensures var pg := PageOf((va + i * 0x1000) % TWO64);
            && pg in MapRange(pages, va, pa, flags, n)
            && MapRange(pages, va, pa, flags, n)[pg] ==
               Leaf(1, Decode(flags).(frame := pa / 0x1000 + i, p := true))
  {
    hide PageOf, LeafFor, AndW, Decode;
    MapRangeAt(pages, va, pa, flags, n, i);
    assert Plus(pa, i) == pa + i * 0x1000;
    LeafWord(Plus(pa, i), flags);
  }

  /** Mapping a range and unmapping it again, as a failed or an undone
      `vmm_map_pages` does, restores the page map exactly when no page of the
      range was mapped before. */
  lemma RangeUndone(pages: imap<Page, Leaf>, va: U64, pa: U64, flags: U64, n: nat)
    ensures UnmapRange(MapRange(pages, va, pa, flags, n), va, n) == pages
            <==> forall i: nat :: i < n ==> PageOf(Plus(va, i)) !in pages
  {
    var there := MapRange(pages, va, pa, flags, n);
    var back := UnmapRange(there, va, n);
    forall pg: Page
      ensures pg in back <==> pg in pages && !InRange(va, n, pg)
      ensures pg in back ==> back[pg] == pages[pg]
    {
      MapRangeIs(pages, va, pa, flags, n, pg);
      UnmapRangeIs(there, va, n, pg);
    }
    if back == pages {
      forall i: nat | i < n
        ensures PageOf(Plus(va, i)) !in pages
      {
        assert InRange(va, n, PageOf(Plus(va, i)));
      }
    }
  }

  /** Writing a leaf entry updates one key, and outdates one translation. */
  lemma LeafUpdates(m: Mem, t: Forest, s: Slot, e: Pte, root: Frame, pg: Page, cache: set<Cached>)
    requires Tree(m, t, 512) && root in t && t[root] == Root
    requires LeafSlot(t, s) && Visits(m, root, pg, 4, s)
    requires Coherent(m, root, cache)
    ensures Tree(m[s := e], t, 512)
    ensures PageMap(m[s := e], root) ==
            if e.p then PageMap(m, root)[pg := Leaf(1, e)]
            else Without(PageMap(m, root), pg)
    ensures CoherentBut(m[s := e], root, cache, pg)
  {
    LeafTree(m, t, 512, s, e);
    LeafHit(m, t, 512, s, e, root, pg);
    forall pg': Page | pg' != pg
      ensures View(m[s := e], root, pg', 4) == View(m, root, pg', 4)
    {
      LeafMiss(m, t, 512, s, e, root, pg, root, pg');
    }
    forall item | item in cache
      ensures Agrees(m[s := e], root, item) || (item.Translation? && item.pg == pg)
    {
      LeafAgrees(m, t, 512, s, e, root, pg, item);
    }
  }

  /** Another 4K page below the same level-2 entry. */
  function Neighbour(pg: Page): Page {
    pg.(i1 := if pg.i1 == 0 then 1 else 0)
  }

  /** A large page translates its 4K pages alike. */
  lemma {:induction false} LargeShared(m: Mem, f: Frame, pg: Page, pg': Page, level: int)
    requires 1 <= level <= 4 && pg'.i4 == pg.i4 && pg'.i3 == pg.i3 && pg'.i2 == pg.i2
    requires View(m, f, pg, level).Some? && View(m, f, pg, level).value.level > 1
    ensures View(m, f, pg', level) == View(m, f, pg, level)
    decreases level
  {
    var e := m[Slot(f, pg.At(level))];
    if Points(level, e) {
      LargeShared(m, e.frame, pg, pg', level - 1);
    }
  }

  predicate Small(pages: imap<Page, Leaf>, pg: Page) {
    pg in pages ==> pages[pg].level <= 1
  }

  /** Whatever is written to memory: if the outcome is that exactly the page
      `pg` got a 4K leaf, or lost its translation, no large page covered it. */
  lemma OneKeyNeedsSmall(m: Mem, m': Mem, root: Frame, pg: Page, x: Pte)
    requires || PageMap(m', root) == PageMap(m, root)[pg := Leaf(1, x)]
             || PageMap(m', root) == Without(PageMap(m, root), pg)
    ensures Small(PageMap(m, root), pg)
  {
    var (pages, pages', near) := (PageMap(m, root), PageMap(m', root), Neighbour(pg));
    if pg in pages && pages[pg].level > 1 {
      LargeShared(m, root, pg, near, 4);
      assert near in pages && pages[near] == pages[pg];
      assert near in pages' && pages'[near] == pages[pg];
      assert pg in pages' ==> pages'[pg] == View(m', root, pg, 4).value;
      assert pg in pages' <==> View(m', root, pg, 4).Some?;
      LargeShared(m', root, near, pg, 4);
      assert false;
    }
  }

  // ------------------------------------- tables a range misses altogether

  /** Tables `pg` misses once the first `n` pages from `va` on are mapped. */
  ghost function MissingAfter(m: Mem, root: Frame, va: U64, n: nat, pg: Page): nat {
    if n == 0 then Missing(m, root, pg, 4)
    else Min(MissingAfter(m, root, va, n - 1, pg), 3 - Shared(PageOf(Plus(va, n - 1)), pg))
  }

  /** Tables made while mapping the first `n` pages from `va` on. */
  ghost function Need(m: Mem, root: Frame, va: U64, n: nat): nat {
    if n == 0 then 0
    else Need(m, root, va, n - 1) + MissingAfter(m, root, va, n - 1, PageOf(Plus(va, n - 1)))
  }

  lemma {:induction false} NeedGrows(m: Mem, root: Frame, va: U64, k: nat, n: nat)
    requires k <= n
    ensures Need(m, root, va, k) <= Need(m, root, va, n)
    decreases n
  {
    hide MissingAfter, PageOf, Plus;
    if k < n {
      NeedGrows(m, root, va, k, n - 1);
    }
  }

  /** The place of a table: the level of the entry above it, and the indices
      that lead there. */
  datatype Place = Place(level: int, i4: Index, i3: Index, i2: Index)

  function PlaceOf(pg: Page, level: int): Place {
    Place(level, pg.i4, if level <= 3 then pg.i3 else 0, if level <= 2 then pg.i2 else 0)
  }

  /** The lowest `count` tables on the way to `pg`. */
  ghost function Places(pg: Page, count: nat): set<Place> {
    if count == 0 then {} else Places(pg, count - 1) + {PlaceOf(pg, count + 1)}
  }

  /** The tables that the first `n` pages from `va` on miss, each counted once. */
  ghost function RangePlaces(m: Mem, root: Frame, va: U64, n: nat): set<Place> {
    if n == 0 then {}
    else RangePlaces(m, root, va, n - 1) + var pg := PageOf(Plus(va, n - 1)); Places(pg, Missing(m, root, pg, 4))
  }

  lemma {:induction false} PlacesAre(pg: Page, count: nat)
    ensures |Places(pg, count)| == count
    ensures forall p :: p in Places(pg, count) <==> 2 <= p.level <= count + 1 && p == PlaceOf(pg, p.level)
  {
    if count > 0 {
      PlacesAre(pg, count - 1);
    }
  }

  /** Pages that share the path to a table both miss it or both have it. */
  lemma {:induction false} SharedMissing(m: Mem, f: Frame, pg: Page, pg': Page, level: int, k: int)
    requires 1 <= level <= 4 && 1 <= k < level && Shared(pg, pg') >= 4 - k
    ensures Missing(m, f, pg, level) >= k <==> Missing(m, f, pg', level) >= k
    decreases level
  {
    var e := m[Slot(f, pg.At(level))];
    if Points(level, e) {
      MissingBound(m, e.frame, pg, level - 1);
      MissingBound(m, e.frame, pg', level - 1);
      if k < level - 1 {
        SharedMissing(m, e.frame, pg, pg', level - 1, k);
      }
    }
  }

  ghost predicate SharesPath(va: U64, n: nat, pg: Page, level: int) {
    exists j: nat :: j < n && Shared(PageOf(Plus(va, j)), pg) > 4 - level
  }

  lemma SharesNext(va: U64, n: nat, pg: Page, level: int)
    ensures SharesPath(va, n + 1, pg, level) <==>
            SharesPath(va, n, pg, level) || Shared(PageOf(Plus(va, n)), pg) > 4 - level
  {
    hide PageOf, Plus, Shared;
  }

  lemma SamePlace(a: Page, b: Page, level: int)
    requires 2 <= level <= 4
    ensures PlaceOf(a, level) == PlaceOf(b, level) <==> Shared(a, b) > 4 - level
  {
  }

  /** A place the page itself misses is among those of another exactly when
      that page shares the path to it. */
  lemma PlaceMissed(m: Mem, root: Frame, pg: Page, other: Page, level: int)
    requires 2 <= level <= Missing(m, root, pg, 4) + 1
    ensures PlaceOf(pg, level) in Places(other, Missing(m, root, other, 4)) <==> Shared(other, pg) > 4 - level
  {
    hide Missing, Places, Shared;
    MissingBound(m, root, pg, 4);
    PlacesAre(other, Missing(m, root, other, 4));
    SamePlace(other, pg, level);
    if Shared(other, pg) > 4 - level {
      SharedMissing(m, root, other, pg, 4, level - 1);
    }
  }

  lemma {:induction false} InRangePlaces(m: Mem, root: Frame, va: U64, n: nat, pg: Page, level: int)
    requires 2 <= level <= Missing(m, root, pg, 4) + 1
    ensures PlaceOf(pg, level) in RangePlaces(m, root, va, n) <==> SharesPath(va, n, pg, level)
  {
    hide PageOf, Plus, Shared, Missing, Places, PlaceOf;
    if n > 0 {
      InRangePlaces(m, root, va, n - 1, pg, level);
      PlaceMissed(m, root, pg, PageOf(Plus(va, n - 1)), level);
      SharesNext(va, n - 1, pg, level);
    }
  }

  lemma {:induction false} MissingAfterIs(m: Mem, root: Frame, va: U64, n: nat, pg: Page, level: int)
    requires 2 <= level <= 4
    ensures MissingAfter(m, root, va, n, pg) >= level - 1 <==>
            Missing(m, root, pg, 4) >= level - 1 && !SharesPath(va, n, pg, level)
  {
    hide PageOf, Plus, Missing;
    if n > 0 {
      MissingAfterIs(m, root, va, n - 1, pg, level);
      SharesNext(va, n - 1, pg, level);
    }
  }

  /** The places page `n` adds to those of the pages before it. */
  lemma NewPlaces(m: Mem, root: Frame, va: U64, n: nat, pg: Page, p: Place)
    requires p in Places(pg, Missing(m, root, pg, 4))
    ensures p in Places(pg, MissingAfter(m, root, va, n, pg)) <==> p !in RangePlaces(m, root, va, n)
  {
    hide Missing, MissingAfter, Places, SharesPath, RangePlaces;
    MissingBound(m, root, pg, 4);
    PlacesAre(pg, Missing(m, root, pg, 4));
    PlacesAre(pg, MissingAfter(m, root, va, n, pg));
    InRangePlaces(m, root, va, n, pg, p.level);
    MissingAfterIs(m, root, va, n, pg, p.level);
  }

  lemma JoinPlaces(had: set<Place>, missed: set<Place>, made: set<Place>)
    requires made <= missed && forall p :: p in missed ==> (p in made <==> p !in had)
    ensures |had + missed| == |had| + |made|
  {
    assert had + missed == had + made && had !! made;
  }

  /** The frames a range takes are as many as the tables its pages miss together. */
  lemma {:induction false} NeedIsPlaces(m: Mem, root: Frame, va: U64, n: nat)
    ensures Need(m, root, va, n) == |RangePlaces(m, root, va, n)|
  {
    hide PageOf, Plus, Missing, MissingAfter, Places, PlaceOf;
    if n > 0 {
      NeedIsPlaces(m, root, va, n - 1);
      var pg := PageOf(Plus(va, n - 1));
      var missed, made := Missing(m, root, pg, 4), MissingAfter(m, root, va, n - 1, pg);
      forall p | p in Places(pg, missed)
        ensures p in Places(pg, made) <==> p !in RangePlaces(m, root, va, n - 1)
      {
        NewPlaces(m, root, va, n - 1, pg, p);
      }
      PlacesAre(pg, missed);
      PlacesAre(pg, made);
      MissingAfterBound(m, root, va, n - 1, pg);
      JoinPlaces(RangePlaces(m, root, va, n - 1), Places(pg, missed), Places(pg, made));
    }
  }

  lemma {:induction false} MissingAfterBound(m: Mem, root: Frame, va: U64, n: nat, pg: Page)
    ensures MissingAfter(m, root, va, n, pg) <= Missing(m, root, pg, 4)
  {
    hide Missing, PageOf, Plus;
    if n > 0 {
      MissingAfterBound(m, root, va, n - 1, pg);
    }
  }

  /** The tables there are after `n` pages were mapped. */
  ghost predicate MadeSoFar(m0: Mem, m: Mem, root: Frame, va: U64, n: nat) {
    forall pg: Page :: Missing(m, root, pg, 4) == MissingAfter(m0, root, va, n, pg)
  }

  lemma MadeNothing(m: Mem, root: Frame, va: U64)
    ensures MadeSoFar(m, m, root, va, 0)
  {
  }

  lemma MissesNow(m0: Mem, m: Mem, root: Frame, va: U64, n: nat, pg: Page)
    requires MadeSoFar(m0, m, root, va, n)
    ensures Missing(m, root, pg, 4) == MissingAfter(m0, root, va, n, pg)
  {
  }

  ghost function Taken(cs: seq<Frame>): set<int> {
    set c | c in cs
  }

  lemma TakenNone(avail: set<int>)
    ensures avail - Taken([]) == avail && Taken([]) <= avail
  {
  }

  lemma TakenBoth(avail: set<int>, avail': set<int>, avail'': set<int>, cs: seq<Frame>, cs': seq<Frame>)
    requires avail' == avail - Taken(cs) && Taken(cs) <= avail && avail'' == avail' - Taken(cs') && Taken(cs') <= avail'
    ensures avail'' == avail - Taken(cs + cs') && Taken(cs + cs') <= avail
  {
    assert Taken(cs + cs') == Taken(cs) + Taken(cs');
  }

  lemma BlindEnds(m: Mem, f: Frame, pg: Page)
    ensures BlindWalk(m, f, pg, 1, []) == Reached(m, Some(f))
  {
  }

  ghost predicate AllSmall(pages: imap<Page, Leaf>, va: U64, n: nat) {
    forall i: nat :: i < n ==> Small(pages, PageOf(Plus(va, i)))
  }

  ghost predicate Unmapped(pages: imap<Page, Leaf>, va: U64, n: nat) {
    forall i: nat :: i < n ==> PageOf(Plus(va, i)) !in pages
  }

  // ------------------------------------------- steps of a range mapping

  lemma RangeStarts(pages: imap<Page, Leaf>, m: Mem, root: Frame, va: U64, pa: U64, flags: U64, count: nat)
    ensures MadeSoFar(m, m, root, va, 0) && Need(m, root, va, 0) == 0 && MapRange(pages, va, pa, flags, 0) == pages
    ensures BlindMapRange(m, root, va, pa, flags, []) == m
    ensures Need(m, root, va, count) == |RangePlaces(m, root, va, count)|
  {
    MadeNothing(m, root, va);
    NeedIsPlaces(m, root, va, count);
  }

  lemma StillSmall(pages: imap<Page, Leaf>, va: U64, pa: U64, flags: U64, i: nat, count: nat, j: nat)
    requires AllSmall(pages, va, count) && j < count
    ensures Small(MapRange(pages, va, pa, flags, i), PageOf(Plus(va, j)))
  {
    hide PageOf, Plus, LeafFor;
    MapRangeIs(pages, va, pa, flags, i, PageOf(Plus(va, j)));
    assert Small(pages, PageOf(Plus(va, j)));
  }

  lemma StillAllSmall(pages: imap<Page, Leaf>, va: U64, pa: U64, flags: U64, i: nat, count: nat)
    requires AllSmall(pages, va, count) && i <= count
    ensures AllSmall(MapRange(pages, va, pa, flags, i), va, i)
  {
    hide PageOf, Plus, Small, MapRange;
    forall j: nat | j < i
      ensures Small(MapRange(pages, va, pa, flags, i), PageOf(Plus(va, j)))
    {
      StillSmall(pages, va, pa, flags, i, count, j);
    }
  }

  lemma RangeNext(m0: Mem, m: Mem, root: Frame, va: U64, i: nat, count: nat)
    requires MadeSoFar(m0, m, root, va, i) && i < count
    ensures Need(m0, root, va, i + 1) == Need(m0, root, va, i) + Missing(m, root, PageOf(Plus(va, i)), 4)
    ensures Need(m0, root, va, i + 1) <= Need(m0, root, va, count)
  {
    hide PageOf, Plus, Missing;
    MissesNow(m0, m, root, va, i, PageOf(Plus(va, i)));
    NeedGrows(m0, root, va, i + 1, count);
  }

  lemma MapRangeNext(pages: imap<Page, Leaf>, va: U64, pa: U64, flags: U64, i: nat)
    ensures MapRange(pages, va, pa, flags, i + 1) ==
            MapRange(pages, va, pa, flags, i)[PageOf(Plus(va, i)) := Leaf(1, LeafFor(Plus(pa, i), flags))]
  {
    hide PageOf, Plus, LeafFor;
  }

  lemma BlindNext(m: Mem, root: Frame, va: U64, pa: U64, flags: U64, css: seq<seq<Frame>>, cs: seq<Frame>)
    ensures var (n, before) := (|css|, BlindMapRange(m, root, va, pa, flags, css));
            BlindMapRange(m, root, va, pa, flags, css + [cs]) ==
            BlindMap(before, root, PageOf(Plus(va, n)), LeafFor(Plus(pa, n), flags), cs)
  {
    hide PageOf, Plus, LeafFor, BlindMap;
    assert (css + [cs])[..|css|] == css;
  }

  lemma UnmappedUndone(pages: imap<Page, Leaf>, va: U64, pa: U64, flags: U64, k: nat, count: nat)
    requires k <= count
    ensures Unmapped(pages, va, count) ==> UnmapRange(MapRange(pages, va, pa, flags, k), va, k) == pages
  {
    hide PageOf, Plus, LeafFor, MapRange, UnmapRange;
    if Unmapped(pages, va, count) {
      RangeUndone(pages, va, pa, flags, k);
    }
  }

  lemma SmallView(m: Mem, root: Frame, pg: Page)
    requires Small(PageMap(m, root), pg)
    ensures View(m, root, pg, 4).Some? ==> View(m, root, pg, 4).value.level <= 1
  {
  }

  lemma MadeNext(m0: Mem, m: Mem, m': Mem, root: Frame, va: U64, n: nat)
    requires MadeSoFar(m0, m, root, va, n) && TablesMade(m, m', root, 512, PageOf(Plus(va, n)))
    ensures MadeSoFar(m0, m', root, va, n + 1)
  {
    hide Missing, Shared, PageOf, Plus;
  }

  class Vmm {
    const ram: Machine
    const root: Frame
    ghost var tables: Forest
    ghost var tlb: set<Cached>

    /** The active tables are those CR3 points to, with an empty TLB. */
    constructor (ram: Machine, root: Frame, ghost tables: Forest)
      requires ram.Valid() && Tree(ram.mem, tables, 512) && root in tables && tables[root] == Root
      requires forall f :: f in tables ==> f !in ram.avail
      ensures Valid() && TlbOk() && this.ram == ram && this.root == root && this.tables == tables
    {
      this.ram, this.root, this.tables, tlb := ram, root, tables, {};
    }

    ghost predicate Valid()
      reads this, ram, ram.pmm, ram.pmm.freePages
    {
      && ram.Valid()
      && Tree(ram.mem, tables, 512)
      && root in tables && tables[root] == Root
      && (forall f :: f in tables ==> f !in ram.avail)
    }

    /** The page map these tables stand for. */
    ghost function Pages(): imap<Page, Leaf>
      reads this, ram
    {
      PageMap(ram.mem, root)
    }

    /** Frames that are a table or still with the allocator. */
    ghost function Frames(): set<int>
      reads this, ram
    {
      tables.Keys + ram.avail
    }

    ghost predicate TlbOk()
      reads this, ram
    {
      Coherent(ram.mem, root, tlb)
    }

    /** Tables of tree shape, and no cached item out of date. */
    ghost predicate Sound()
      reads this, ram, ram.pmm, ram.pmm.freePages
    {
      Valid() && TlbOk()
    }

    /** No large page stands in the way of a 4K mapping of `pg`. */
    ghost predicate NoHuge(pg: Page)
      reads this, ram
    {
      Small(Pages(), pg)
    }

    lemma StartsAtRoot(pg: Page)
      requires Valid()
      ensures In(tables, 512, root, pg, 4) && Visits(ram.mem, root, pg, 4, Slot(root, pg.At(4)))
    {
    }

    // The code never looks at the page-size bit.  The methods below do what it
    // does on any memory; `sound` says that the tables are sound and that no
    // large page is on the walk, and only then do the steps mean what they should.

    /** `alloc_page_table`: a cleared frame that is in no table and that the
        allocator has given away; 0 when there is none. */
    method AllocTable(ghost sound: bool) returns (c: Frame)
      requires ram.Valid() && (sound ==> Sound())
      modifies this`tlb, ram, ram.pmm
      ensures ram.Valid() && (sound ==> Sound() && Pages() == old(Pages()))
      ensures if old(ram.free) == 0 then
                c == 0 && ram.free == 0 && ram.mem == old(ram.mem) && ram.avail == old(ram.avail)
              else c != 0 && c in old(ram.avail) && ram.avail == old(ram.avail) - {c} && ram.free == old(ram.free) - 1
                   && ram.mem == Cleared(old(ram.mem), c)
                   && Blanked(ram.mem, c) && (sound ==> SameFrames(old(ram.mem), ram.mem, tables.Keys))
    {
      hide Tree, View, PageMap, Coherent, Machine.Valid, Cleared;
      ghost var m := ram.mem;
      c := ram.AllocZeroed();
      if c != 0 {
        ClearedIs(m, ram.mem, c);
      }
      if sound && c != 0 {
        ClearKeeps(m, ram.mem, tables, root, tlb);
        tlb := Hardware(ram.mem, root, tlb);
      }
    }

    /** Store the entry for the new table `c`. */
    method LinkTable(s: Slot, c: Frame, ghost sound: bool)
      requires sound ==> Sound() && c !in ram.avail && Linkable(ram.mem, tables, 512, s, c, Link(c))
      modifies this, ram`mem
      ensures ram.mem == old(ram.mem)[s := Link(c)]
      ensures sound ==> Sound() && Pages() == old(Pages()) && tables == Grown(old(tables), s, c)
    {
      hide Tree, View, PageMap, Coherent;
      ghost var m := ram.mem;
      ram.mem := ram.mem[s := Link(c)];
      if sound {
        LinkKeeps(m, tables, s, c, Link(c), root, tlb);
        tables := Grown(tables, s, c);
        tlb := Hardware(ram.mem, root, tlb);
      }
    }

    /** Hang a new table below the absent slot `s` of the walk for `pg`. */
    method MakeTable(s: Slot, ghost pg: Page, ghost sound: bool) returns (made: Option<Frame>)
      requires ram.Valid()
      requires sound ==> Sound() && Owned(tables, 512, s) && !ram.mem[s].p && Visits(ram.mem, root, pg, 4, s)
      modifies this, ram, ram.pmm
      ensures ram.Valid() && (made.Some? <==> old(ram.free) > 0)
      ensures ram.free == if made.Some? then old(ram.free) - 1 else 0
      ensures made.None? ==> ram.mem == old(ram.mem) && ram.avail == old(ram.avail)
      ensures made.Some? ==> ram.mem == Cleared(old(ram.mem), made.value)[s := Link(made.value)]
                             && made.value in old(ram.avail) && ram.avail == old(ram.avail) - {made.value}
      ensures sound ==>
                && Sound() && Pages() == old(Pages()) && Frames() == old(Frames())
                && s.frame in tables && tables[s.frame] == old(tables)[s.frame]
      ensures sound && made.Some? ==>
                && Points(Level(tables[s.frame]), ram.mem[s]) && Visits(ram.mem, root, pg, 4, s)
                && Missing(ram.mem, root, pg, 4) == Missing(old(ram.mem), root, pg, 4) - 1
                && TablesBelow(old(ram.mem), ram.mem, root, 512, pg, Level(tables[s.frame]))
    {
      hide Tree, View, PageMap, TlbOk, Machine.Valid, TablesBelow, Cleared;
      ram.NotNegative();
      ghost var m := ram.mem;
      var c := AllocTable(sound);
      if c == 0 {
        return None;
      }
      if sound {
        assert c !in tables && c != s.frame;
        LinkReached(m, ram.mem, tables, 512, s, c, Link(c), root, pg);
        LinkTablesBelow(m, ram.mem, tables, 512, s, c, Link(c), root, pg, Level(tables[s.frame]));
      }
      LinkTable(s, c, sound);
      return Some(c);
    }

    /** The table below slot `pg.At(level)` of `f`, made on demand from the frame
        `took`. */
    method NextTable(f: Frame, pg: Page, level: int, ghost sound: bool)
      returns (next: Option<Frame>, ghost took: seq<Frame>)
      requires ram.Valid() && 2 <= level <= 4
      requires sound ==> Sound() && NoHuge(pg) && In(tables, 512, f, pg, level)
                         && Visits(ram.mem, root, pg, 4, Slot(f, pg.At(level)))
      modifies this, ram, ram.pmm
      ensures ram.Valid() && Stepped(old(ram.mem), Slot(f, pg.At(level)), took, ram.mem, next)
      ensures ram.free == old(ram.free) - |took| >= 0 && (next.None? ==> ram.free == 0 && took == [])
      ensures ram.avail == old(ram.avail) - Taken(took) && Taken(took) <= old(ram.avail)
      ensures sound ==> Sound() && NoHuge(pg) && Pages() == old(Pages()) && Frames() == old(Frames())
      ensures sound && next.None? ==> Missing(ram.mem, root, pg, 4) > 0 && ram.mem == old(ram.mem)
      ensures sound && next.Some? ==>
                && In(tables, 512, next.value, pg, level - 1)
                && Visits(ram.mem, root, pg, 4, Slot(next.value, pg.At(level - 1)))
                && Missing(ram.mem, root, pg, 4) <= level - 2
                && ram.free - Missing(ram.mem, root, pg, 4) == old(ram.free - Missing(ram.mem, root, pg, 4))
                && TablesBelow(old(ram.mem), ram.mem, root, 512, pg, level)
    {
      hide Tree, View, PageMap, TlbOk, Machine.Valid, TablesBelow, Missing, Visits, Cleared;
      var s := Slot(f, pg.At(level));
      took := [];
      ram.NotNegative();
      if sound {
        InsideRoot(pg);
        Present(ram.mem, tables, 512, s, root, pg, level);
        SmallView(ram.mem, root, pg);
      }
      if !ram.mem[s].p {
        var made := MakeTable(s, pg, sound);
        if made.None? {
          return None, took;
        }
        took := [made.value];
      } else if sound {
        FollowTablesBelow(ram.mem, tables, 512, s, root, pg, level);
      }
      ram.NotNegative();
      if sound {
        InsideRoot(pg);
        Followed(ram.mem, tables, 512, s, root, pg, level);
      }
      return Some(ram.mem[s].frame), took;
    }

    lemma InsideRoot(pg: Page)
      requires Valid()
      ensures Tree(ram.mem, tables, 512) && In(tables, 512, root, pg, 4)
    {
    }

    /** Store a leaf entry and flush its page. */
    method SetLeaf(s: Slot, e: Pte, pg: Page, ghost sound: bool, ghost m0: Mem)
      requires sound ==> Sound() && LeafSlot(tables, s) && Visits(ram.mem, root, pg, 4, s)
      modifies this`tlb, ram`mem
      ensures ram.mem == old(ram.mem)[s := e]
      ensures sound ==>
                && Sound() && Frames() == old(Frames())
                && Pages() == (if e.p then old(Pages())[pg := Leaf(1, e)] else Without(old(Pages()), pg))
                && (TablesMade(m0, old(ram.mem), root, 512, pg) ==> TablesMade(m0, ram.mem, root, 512, pg))
    {
      hide Tree, View, PageMap, Without, TablesMade, Machine.Valid;
      ghost var m := ram.mem;
      ram.mem := ram.mem[s := e];
      if sound {
        LeafUpdates(m, tables, s, e, root, pg, tlb);
        if TablesMade(m0, m, root, 512, pg) {
          LeafTables(m0, m, tables, 512, s, e, root, pg);
        }
        tlb := Hardware(ram.mem, root, tlb);
        tlb := Invalidate(tlb, pg);
        tlb := Hardware(ram.mem, root, tlb);
      }
    }

    /** The three table steps of `vmm_map_page`. */
    method WalkDown(pg: Page, ghost sound: bool) returns (at: Option<Frame>, ghost cs: seq<Frame>)
      requires ram.Valid() && (sound ==> Sound() && NoHuge(pg))
      modifies this, ram, ram.pmm
      ensures ram.Valid() && BlindWalk(old(ram.mem), root, pg, 4, cs) == Reached(ram.mem, at)
      ensures TookFrames(old(ram.avail), old(ram.free), cs, at.Some?)
      ensures sound ==>
                && Sound() && NoHuge(pg) && Pages() == old(Pages()) && Frames() == old(Frames())
                && (at.Some? <==> old(ram.free) >= Missing(old(ram.mem), root, pg, 4))
                && ram.free == (if at.Some? then old(ram.free) - Missing(old(ram.mem), root, pg, 4) else 0)
      ensures sound && at.Some? ==>
                && In(tables, 512, at.value, pg, 1) && Visits(ram.mem, root, pg, 4, Slot(at.value, pg.At(1)))
                && TablesMade(old(ram.mem), ram.mem, root, 512, pg)
    {
      hide Tree, Visits, View, Missing, PageMap, Machine.Valid, Valid, TlbOk, Frames, TablesBelow, TablesMade, Small,
           Stepped, BlindWalk, Taken;
      ghost var m0, a0 := ram.mem, ram.avail;
      if sound {
        StartsAtRoot(pg);
      }
      at := None;
      ghost var cs2: seq<Frame>, cs3: seq<Frame> := [], [];
      var pdpt, cs1 := NextTable(root, pg, 4, sound);
      ghost var m1, a1 := ram.mem, ram.avail;
      TakenNone(a1);
      if pdpt.Some? {
        var pd, took := NextTable(pdpt.value, pg, 3, sound);
        cs2 := took;
        ghost var m2, a2 := ram.mem, ram.avail;
        TakenNone(a2);
        if pd.Some? {
          var pt, took := NextTable(pd.value, pg, 2, sound);
          cs3 := took;
          BlindStep(m2, pd.value, pg, 2, cs3, [], ram.mem, pt);
          if pt.Some? {
            BlindEnds(ram.mem, pt.value, pg);
            at := pt;
            if sound {
              ThreeTables(m0, m1, m2, ram.mem, root, 512, pg);
            }
          }
        }
        BlindStep(m1, pdpt.value, pg, 3, cs2, cs3, m2, pd);
        TakenBoth(a1, a2, ram.avail, cs2, cs3);
      }
      cs := cs1 + (cs2 + cs3);
      BlindStep(m0, root, pg, 4, cs1, cs2 + cs3, m1, pdpt);
      assert pdpt.None? ==> cs2 + cs3 == [];
      TakenBoth(a0, a1, ram.avail, cs1, cs2 + cs3);
    }

    /** Map the page with indices `pg`, with new tables in the frames `cs`.
        Without a large page in the way and with enough frames for the missing
        tables the page map changes at one key; with too few frames, not at all.
        Either way no cached item is out of date, and every frame taken is a
        table.  A change at one key is possible only without a large page in the
        way. */
    method MapAt(pg: Page, e: Pte) returns (ok: bool, ghost cs: seq<Frame>)
      requires ram.Valid() && e.p
      modifies this, ram, ram.pmm
      ensures ram.Valid() && Blindly(old(ram.mem), pg, e, cs, ok)
      ensures TookFrames(old(ram.avail), old(ram.free), cs, ok)
      ensures old(Sound() && NoHuge(pg)) ==>
                && Sound() && Frames() == old(Frames())
                && (ok <==> old(ram.free) >= Missing(old(ram.mem), root, pg, 4))
                && Pages() == (if ok then old(Pages())[pg := Leaf(1, e)] else old(Pages()))
                && ram.free == (if ok then old(ram.free) - Missing(old(ram.mem), root, pg, 4) else 0)
                && (ok ==> TablesMade(old(ram.mem), ram.mem, root, 512, pg))
      ensures Pages() == old(Pages())[pg := Leaf(1, e)] ==> old(NoHuge(pg))
    {
      hide Tree, Visits, View, Missing, PageMap, Machine.Valid, Valid, TlbOk, Frames, TablesMade, Small, BlindWalk,
           Taken;
      ghost var sound, m0 := Sound() && NoHuge(pg), ram.mem;
      var at, took := WalkDown(pg, sound);
      cs, ok := took, at.Some?;
      if ok {
        SetLeaf(Slot(at.value, pg.At(1)), e, pg, sound, m0);
      }
      if Pages() == old(Pages())[pg := Leaf(1, e)] {
        OneKeyNeedsSmall(m0, ram.mem, root, pg, e);
      }
    }

    /** What a mapping of `pg` does to memory, sound or not. */
    ghost predicate Blindly(m: Mem, pg: Page, e: Pte, cs: seq<Frame>, ok: bool)
      reads this, ram
    {
      ok == BlindWalk(m, root, pg, 4, cs).at.Some? && ram.mem == BlindMap(m, root, pg, e, cs)
    }

    /** The frames `cs` are gone; a failure has used up all. */
    ghost predicate TookFrames(avail: set<int>, free: int, cs: seq<Frame>, ok: bool)
      reads ram
    {
      && ram.avail == avail - Taken(cs) && Taken(cs) <= avail
      && ram.free == free - |cs| >= 0 && (!ok ==> ram.free == 0)
    }

    /** `vmm_map_page`: a successful call on sound tables changes exactly its
        own key if and only if no large page covers the page. */
    method MapPage(va: U64, pa: U64, flags: U64) returns (ok: bool, ghost cs: seq<Frame>)
      requires ram.Valid()
      modifies this, ram, ram.pmm
      ensures ram.Valid() && Blindly(old(ram.mem), PageOf(va), LeafFor(pa, flags), cs, ok)
      ensures TookFrames(old(ram.avail), old(ram.free), cs, ok)
      ensures old(Sound() && NoHuge(PageOf(va))) ==>
                && Sound() && Frames() == old(Frames())
                && (ok <==> old(ram.free) >= Missing(old(ram.mem), root, PageOf(va), 4))
                && Pages() == (if ok then old(Pages())[PageOf(va) := Leaf(1, LeafFor(pa, flags))] else old(Pages()))
                && ram.free == (if ok then old(ram.free) - Missing(old(ram.mem), root, PageOf(va), 4) else 0)
                && (ok ==> TablesMade(old(ram.mem), ram.mem, root, 512, PageOf(va)))
      ensures old(Sound()) && ok ==>
                (Pages() == old(Pages())[PageOf(va) := Leaf(1, LeafFor(pa, flags))] <==> old(NoHuge(PageOf(va))))
    {
      hide PageOf, LeafFor, PageMap, Small, Machine.Valid, Valid, TlbOk, Missing, TablesMade, Blindly, TookFrames;
      LeafForIs(pa, flags);
      ok, cs := MapAt(PageOf(va), LeafFor(pa, flags));
    }

    /** The level-1 table of `pg`, if every level above is present. */
    method FindTable(pg: Page) returns (pt: Option<Frame>)
      ensures pt == BlindTable(ram.mem, root, pg)
      ensures Valid() && NoHuge(pg) && pt.None? ==> pg !in Pages()
      ensures Valid() && NoHuge(pg) && pt.Some? ==>
                var s := Slot(pt.value, pg.At(1));
                LeafSlot(tables, s) && Visits(ram.mem, root, pg, 4, s)
                && (pg in Pages() <==> ram.mem[s].p)
                && (pg in Pages() ==> Pages()[pg] == Leaf(1, ram.mem[s]))
    {
      hide Tree, View, Missing, BlindWalk, Machine.Valid, Visits;
      ghost var sound := Valid() && NoHuge(pg);
      var m := ram.mem;
      var s4 := Slot(root, pg.At(4));
      if sound {
        StartsAtRoot(pg);
        Present(m, tables, 512, s4, root, pg, 4);
      }
      var pdpt := Follow(s4);
      BlindStep(m, root, pg, 4, [], [], m, pdpt);
      if pdpt.None? {
        return None;
      }
      var s3 := Slot(m[s4].frame, pg.At(3));
      if sound {
        Followed(m, tables, 512, s4, root, pg, 4);
        Present(m, tables, 512, s3, root, pg, 3);
      }
      var pd := Follow(s3);
      BlindStep(m, pdpt.value, pg, 3, [], [], m, pd);
      if pd.None? {
        return None;
      }
      var s2 := Slot(m[s3].frame, pg.At(2));
      if sound {
        Followed(m, tables, 512, s3, root, pg, 3);
        Present(m, tables, 512, s2, root, pg, 2);
      }
      pt := Follow(s2);
      BlindStep(m, pd.value, pg, 2, [], [], m, pt);
      if pt.Some? {
        BlindEnds(m, pt.value, pg);
      }
      if sound && pt.Some? {
        Followed(m, tables, 512, s2, root, pg, 2);
        Present(m, tables, 512, Slot(m[s2].frame, pg.At(1)), root, pg, 1);
      }
    }

    /** The frame a present entry names. */
    method Follow(s: Slot) returns (next: Option<Frame>)
      ensures Stepped(ram.mem, s, [], ram.mem, next)
    {
      return if ram.mem[s].p then Some(ram.mem[s].frame) else None;
    }

    /** `vmm_unmap_page` removes exactly one key if and only if no large page
        covers the page. */
    method UnmapPage(va: U64)
      modifies this`tlb, ram`mem
      ensures ram.mem == BlindUnmap(old(ram.mem), root, PageOf(va))
      ensures old(Sound() && NoHuge(PageOf(va))) ==>
                Sound() && Frames() == old(Frames()) && Pages() == Without(old(Pages()), PageOf(va))
      ensures old(Sound()) ==> (Pages() == Without(old(Pages()), PageOf(va)) <==> old(NoHuge(PageOf(va))))
    {
      hide PageOf, Tree, View, PageMap, Small, Machine.Valid, BlindWalk;
      var pg := PageOf(va);
      ghost var sound, m0 := Sound() && NoHuge(pg), ram.mem;
      var pt := FindTable(pg);
      if pt.Some? {
        SetLeaf(Slot(pt.value, pg.At(1)), ZERO, pg, sound, m0);
      }
      if Pages() == Without(old(Pages()), pg) {
        OneKeyNeedsSmall(m0, ram.mem, root, pg, ZERO);
      }
    }

    /** `vmm_get_physical` is the lookup without a large page; `LookupExact` says
        that only then it can be relied on. */
    method GetPhysical(va: U64) returns (pa: int)
      ensures pa == BlindLookup(ram.mem, root, PageOf(va))
      ensures NoHuge(PageOf(va)) ==>
                pa == if PageOf(va) in Pages() then Pages()[PageOf(va)].e.frame * PAGE_SIZE else 0
    {
      hide PageOf, Tree, View, BlindWalk, Machine.Valid, Visits;
      var pg := PageOf(va);
      if NoHuge(pg) {
        LookupRight(ram.mem, root, pg);
      }
      var pt := FindTable(pg);
      if pt.None? {
        return 0;
      }
      var e := ram.mem[Slot(pt.value, pg.At(1))];
      return if e.p then e.frame * PAGE_SIZE else 0;
    }

    /** No large page covers a page of the range. */
    ghost predicate RangeSmall(va: U64, n: nat)
      reads this, ram
    {
      AllSmall(Pages(), va, n)
    }

    /** `vmm_map_pages`: all pages of the range, if the frames suffice for the
        tables its pages miss together; otherwise, after running out at page
        `k`, the first `k` pages mapped and unmapped again.  `css` are the frames
        each page takes for tables. */
    method MapPages(va: U64, pa: U64, count: U64, flags: U64)
      returns (ok: bool, ghost k: nat, ghost css: seq<seq<Frame>>)
      requires ram.Valid()
      modifies this, ram, ram.pmm
      ensures ram.Valid() && |css| == (if ok then k else k + 1) && (ok <==> k == count) && k <= count
      ensures var m := BlindMapRange(old(ram.mem), root, va, pa, flags, css);
              ram.mem == if ok then m else BlindUnmapRange(m, root, va, k)
      ensures !ok ==> ram.free == 0
      ensures old(Sound() && RangeSmall(va, count)) ==>
                && Sound() && Frames() == old(Frames())
                && (ok <==> old(ram.free) >= |RangePlaces(old(ram.mem), root, va, count)|)
                && ram.free == (if ok then old(ram.free) - |RangePlaces(old(ram.mem), root, va, count)| else 0)
                && (ok ==> Pages() == MapRange(old(Pages()), va, pa, flags, count))
                && (!ok ==> Pages() == UnmapRange(MapRange(old(Pages()), va, pa, flags, k), va, k))
                && (!ok && Unmapped(old(Pages()), va, count) ==> Pages() == old(Pages()))
    {
      hide Tree, PageMap, PageOf, Plus, Coherent, LeafFor, InRange, Valid, TlbOk, Frames, Machine.Valid, MadeSoFar,
           Missing, RangePlaces, Need, MissingAfter, BlindMap, BlindMapRange, BlindUnmapRange, TablesMade, MapRange,
           UnmapRange, Small, AllSmall, Unmapped, BlindWalk, Taken, View, Sound;
      ghost var start, m0, sound := Pages(), ram.mem, Sound() && RangeSmall(va, count);
      ghost var free0 := ram.free;
      var i := 0;
      css := [];
      RangeStarts(start, m0, root, va, pa, flags, count);
      ram.NotNegative();
      while i < count
        invariant 0 <= i <= count && ram.Valid() && |css| == i
        invariant ram.mem == BlindMapRange(m0, root, va, pa, flags, css)
        invariant sound ==> Sound() && Frames() == old(Frames()) && Pages() == MapRange(start, va, pa, flags, i)
        invariant sound ==> MadeSoFar(m0, ram.mem, root, va, i) && ram.free == free0 - Need(m0, root, va, i) >= 0
      {
        ghost var m, pg := ram.mem, PageOf(Plus(va, i));
        if sound {
          StillSmall(start, va, pa, flags, i, count, i);
          StillAllSmall(start, va, pa, flags, i, count);
          RangeNext(m0, m, root, va, i, count);
        }
        var done, cs := MapPage(Plus(va, i), Plus(pa, i), flags);
        BlindNext(m0, root, va, pa, flags, css, cs);
        css := css + [cs];
        if !done {
          UnmapPages(va, i);
          UnmappedUndone(start, va, pa, flags, i, count);
          return false, i, css;
        }
        if sound {
          MadeNext(m0, m, ram.mem, root, va, i);
          MapRangeNext(start, va, pa, flags, i);
        }
        i := i + 1;
      }
      return true, count, css;
    }

    /** `vmm_unmap_pages`. */
    method UnmapPages(va: U64, count: U64)
      modifies this`tlb, ram`mem
      ensures ram.mem == BlindUnmapRange(old(ram.mem), root, va, count)
      ensures old(Sound() && RangeSmall(va, count)) ==>
                Sound() && Frames() == old(Frames()) && Pages() == UnmapRange(old(Pages()), va, count)
    {
      hide Tree, PageMap, PageOf, Plus, Coherent, Valid, TlbOk, Frames, Machine.Valid, BlindUnmap;
      ghost var start, sound := Pages(), Sound() && RangeSmall(va, count);
      for i := 0 to count
        invariant ram.mem == BlindUnmapRange(old(ram.mem), root, va, i)
        invariant sound ==> Sound() && Frames() == old(Frames()) && Pages() == UnmapRange(start, va, i)
      {
        UnmapRangeIs(start, va, i, PageOf(Plus(va, i)));
        UnmapPage(Plus(va, i));
      }
    }
  }
}
