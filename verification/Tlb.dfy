/** What the processor may remember of the tables: translations (TLB) and upper
    entries (paging-structure caches), section 4.10 of the Intel SDM, Volume 3A. */
module Tlb {
  import opened PageTables

  datatype Cached =
    | Translation(pg: Page, leaf: Leaf, rights: Rights)
    | Structure(pg: Page, level: int, e: Pte)

  /** The entry the walk for `pg` reads at level `at`, if it gets there. */
  ghost function EntryAt(m: Mem, f: Frame, pg: Page, level: int, at: int): Option<Pte>
    requires 1 <= level <= 4
    decreases level
  {
    var e := m[Slot(f, pg.At(level))];
    if at == level then Some(e)
    else if Points(level, e) then EntryAt(m, e.frame, pg, level - 1, at)
    else None
  }

  /** A cached item says what the tables say.  Only present entries are cached. */
  ghost predicate Agrees(m: Mem, root: Frame, c: Cached) {
    match c
    case Translation(pg, leaf, rights) =>
      View(m, root, pg, 4) == Some(leaf) && Effective(m, root, pg, 4) == rights
    case Structure(pg, level, e) =>
      level >= 2 && e.p && EntryAt(m, root, pg, 4, level) == Some(e)
  }

  ghost predicate Coherent(m: Mem, root: Frame, cache: set<Cached>) {
    forall c :: c in cache ==> Agrees(m, root, c)
  }

  /** Everything but the translation of `pg` is up to date. */
  ghost predicate CoherentBut(m: Mem, root: Frame, cache: set<Cached>, pg: Page) {
    forall c :: c in cache ==> Agrees(m, root, c) || (c.Translation? && c.pg == pg)
  }

  /** INVLPG drops the translation of its page and all cached upper entries. */
  ghost function Invalidate(cache: set<Cached>, pg: Page): set<Cached> {
    set c | c in cache && c.Translation? && c.pg != pg
  }

  /** At any moment the processor may cache whatever the tables say. */
  lemma Hardware(m: Mem, root: Frame, cache: set<Cached>) returns (cache': set<Cached>)
    ensures cache <= cache'
    ensures forall c :: c in cache' && c !in cache ==> Agrees(m, root, c)
    ensures Coherent(m, root, cache) ==> Coherent(m, root, cache')
    ensures forall pg :: CoherentBut(m, root, cache, pg) ==> CoherentBut(m, root, cache', pg)
  {
    var seen: set<Cached> := *;
    cache' := cache + set c | c in seen && Agrees(m, root, c);
  }

  /** Right but for user access: what is cached may lack user bits that were set
      since. */
  ghost predicate AgreesNearly(m: Mem, root: Frame, c: Cached) {
    match c
    case Translation(pg, leaf, rights) =>
      var r := Effective(m, root, pg, 4);
      View(m, root, pg, 4) == Some(leaf) && rights.w == r.w && rights.nx == r.nx && (rights.u ==> r.u)
    case Structure(pg, level, e) =>
      && level >= 2 && e.p && EntryAt(m, root, pg, 4, level).Some?
      && (EntryAt(m, root, pg, 4, level).value == e || EntryAt(m, root, pg, 4, level).value == e.(u := true))
  }

  ghost predicate Nearly(m: Mem, root: Frame, cache: set<Cached>) {
    forall c :: c in cache ==> AgreesNearly(m, root, c)
  }

  lemma CoherentIsNearly(m: Mem, root: Frame, cache: set<Cached>)
    requires Coherent(m, root, cache)
    ensures Nearly(m, root, cache)
  {
    hide View, Effective, EntryAt;
  }

  lemma NearlyMore(m: Mem, root: Frame, cache: set<Cached>, cache': set<Cached>)
    requires Nearly(m, root, cache) && forall c :: c in cache' && c !in cache ==> Agrees(m, root, c)
    ensures Nearly(m, root, cache')
  {
    hide View, Effective, EntryAt;
  }

  /** Between two steps the processor may cache whatever the tables say. */
  lemma HardwareNearly(m: Mem, root: Frame, cache: set<Cached>) returns (cache': set<Cached>)
    requires Nearly(m, root, cache)
    ensures cache <= cache' && Nearly(m, root, cache')
    ensures forall c :: c in cache' && c !in cache ==> Agrees(m, root, c)
  {
    hide View, Effective, EntryAt;
    cache' := Hardware(m, root, cache);
    NearlyMore(m, root, cache, cache');
  }

  /** Filling an absent upper slot changes no upper entry that was present. */
  lemma {:induction false} LinkEntry(m: Mem, s: Slot, e: Pte, f: Frame, pg: Page, level: int, at: int)
    requires 1 <= level <= 4 && !m[s].p
    requires EntryAt(m, f, pg, level, at).Some? && EntryAt(m, f, pg, level, at).value.p
    ensures EntryAt(m[s := e], f, pg, level, at) == EntryAt(m, f, pg, level, at)
    decreases level
  {
    var here := Slot(f, pg.At(level));
    if at != level {
      LinkEntry(m, s, e, m[here].frame, pg, level - 1, at);
    }
  }

  lemma {:induction false} OutsideEntry(m: Mem, m': Mem, t: Forest, lim: int, f: Frame, pg: Page, level: int, at: int)
    requires Tree(m, t, lim) && SameFrames(m, m', t.Keys) && In(t, lim, f, pg, level)
    ensures EntryAt(m', f, pg, level, at) == EntryAt(m, f, pg, level, at)
    decreases level
  {
    var here := Slot(f, pg.At(level));
    if at != level && Points(level, m[here]) {
      Down(m, t, lim, f, pg, level);
      OutsideEntry(m, m', t, lim, m[here].frame, pg, level - 1, at);
    }
  }

  /** Memory outside the tables is not cached. */
  lemma OutsideAgrees(m: Mem, m': Mem, t: Forest, lim: int, root: Frame, item: Cached)
    requires Tree(m, t, lim) && SameFrames(m, m', t.Keys) && In(t, lim, root, item.pg, 4)
    requires Agrees(m, root, item)
    ensures Agrees(m', root, item)
  {
    match item
    case Translation(pg, _, _) => OutsideWalk(m, m', t, lim, root, pg, 4);
    case Structure(pg, level, _) => OutsideEntry(m, m', t, lim, root, pg, 4, level);
  }

  /** Hanging an empty table keeps every cached item right. */
  lemma LinkAgrees(m: Mem, t: Forest, lim: int, s: Slot, c: Frame, e: Pte, root: Frame, item: Cached)
    requires Linkable(m, t, lim, s, c, e) && In(t, lim, root, item.pg, 4)
    requires Agrees(m, root, item)
    ensures Agrees(m[s := e], root, item)
  {
    match item
    case Translation(pg, leaf, rights) =>
      LinkMapped(m, t, lim, s, c, e, root, pg, 4);
      LinkWalk(m, t, lim, s, c, e, root, pg, 4);
    case Structure(pg, level, _) =>
      LinkEntry(m, s, e, root, pg, 4, level);
  }

  lemma {:induction false} LeafEntry(m: Mem, t: Forest, lim: int, s: Slot, e: Pte, f: Frame, pg: Page, level: int,
                                     at: int)
    requires Tree(m, t, lim) && LeafSlot(t, s) && In(t, lim, f, pg, level) && at >= 2
    ensures EntryAt(m[s := e], f, pg, level, at) == EntryAt(m, f, pg, level, at)
    decreases level
  {
    var here := Slot(f, pg.At(level));
    if at != level && Points(level, m[here]) {
      Down(m, t, lim, f, pg, level);
      LeafEntry(m, t, lim, s, e, m[here].frame, pg, level - 1, at);
    }
  }

  /** Writing a leaf entry outdates at most the translation of its own page. */
  lemma LeafAgrees(m: Mem, t: Forest, lim: int, s: Slot, e: Pte, root: Frame, pg: Page, item: Cached)
    requires Tree(m, t, lim) && LeafSlot(t, s) && In(t, lim, root, pg, 4) && Visits(m, root, pg, 4, s)
    requires In(t, lim, root, item.pg, 4) && Agrees(m, root, item)
    ensures Agrees(m[s := e], root, item) || (item.Translation? && item.pg == pg)
  {
    match item
    case Translation(pg', _, _) =>
      if pg' != pg {
        LeafMiss(m, t, lim, s, e, root, pg, root, pg');
      }
    case Structure(pg', level, _) =>
      LeafEntry(m, t, lim, s, e, root, pg', 4, level);
  }
}
