/** os/kernel/mm/user_mapping.c: user pages in the active page tables, which may
    also hold large pages. */
module UserMapping {
  import opened PageTables
  import opened Addresses
  import opened Types
  import opened PteWords
  import opened Blind
  import opened Tlb
  import opened Ram
  import V = Vmm
  import P = PmmSimple

  /** The walk meets the page-size bit at level 3 or 2, in a present entry or not. */
  ghost predicate Blocked(m: Mem, f: Frame, pg: Page, level: int)
    requires 1 <= level <= 4
    decreases level
  {
    var e := m[Slot(f, pg.At(level))];
    level > 1 && ((level < 4 && e.ps) || (e.p && Blocked(m, e.frame, pg, level - 1)))
  }

  // ------------------------------------------------ setting a user bit

  lemma UserBitTree(m: Mem, t: Forest, lim: int, s: Slot)
    requires Tree(m, t, lim)
    ensures Tree(m[s := m[s].(u := true)], t, lim)
  {
    var m' := m[s := m[s].(u := true)];
    forall f: Frame | f in t && t[f].Child?
      ensures Hangs(m', t, lim, f)
    {
      assert Hangs(m, t, lim, f);
    }
    forall x: Slot | Owned(t, lim, x)
      ensures Links(m', t, x)
    {
      assert Links(m, t, x);
    }
  }

  /** The user bit of an entry that refers to a table is in no translation. */
  lemma {:induction false} UserBitWalk(m: Mem, t: Forest, lim: int, s: Slot, f: Frame, pg: Page, level: int)
    requires Tree(m, t, lim) && In(t, lim, f, pg, level)
    requires s.frame in t && Points(Level(t[s.frame]), m[s])
    ensures var m' := m[s := m[s].(u := true)];
            && View(m', f, pg, level) == View(m, f, pg, level)
            && Missing(m', f, pg, level) == Missing(m, f, pg, level)
            && Blocked(m', f, pg, level) == Blocked(m, f, pg, level)
            && forall x: Slot :: Visits(m', f, pg, level, x) <==> Visits(m, f, pg, level, x)
    decreases level
  {
    var here := Slot(f, pg.At(level));
    if Points(level, m[here]) {
      Down(m, t, lim, f, pg, level);
      UserBitWalk(m, t, lim, s, m[here].frame, pg, level - 1);
    }
  }

  lemma UserBitPages(m: Mem, t: Forest, s: Slot, root: Frame)
    requires Tree(m, t, 512) && root in t && t[root] == Root
    requires s.frame in t && Points(Level(t[s.frame]), m[s])
    ensures PageMap(m[s := m[s].(u := true)], root) == PageMap(m, root)
  {
    forall pg: Page
      ensures View(m[s := m[s].(u := true)], root, pg, 4) == View(m, root, pg, 4)
    {
      UserBitWalk(m, t, 512, s, root, pg, 4);
    }
  }

  // ------------------------------------------------ user access on the way

  /** The walk for `pg` goes from `level` down to `stop` through entries that
      users may pass. */
  ghost predicate UserPath(m: Mem, f: Frame, pg: Page, level: int, stop: int)
    requires 1 <= stop <= 4 && level <= 4
    decreases level
  {
    level <= stop ||
    (var e := m[Slot(f, pg.At(level))]; Points(level, e) && e.u && UserPath(m, e.frame, pg, level - 1, stop))
  }

  lemma UserStart(m: Mem, f: Frame, pg: Page)
    ensures UserPath(m, f, pg, 4, 4)
  {
  }

  /** Tables keep their present entries, up to user bits being set. */
  ghost predicate KeepsEntries(m: Mem, m': Mem, t: Forest) {
    forall s: Slot :: s.frame in t && m[s].p ==> m'[s] == m[s] || m'[s] == m[s].(u := true)
  }

  lemma {:induction false} UserPathKept(m: Mem, m': Mem, t: Forest, f: Frame, pg: Page, level: int, stop: int)
    requires Tree(m, t, 512) && In(t, 512, f, pg, level) && KeepsEntries(m, m', t)
    requires 1 <= stop <= 4 && UserPath(m, f, pg, level, stop)
    ensures UserPath(m', f, pg, level, stop)
    decreases level
  {
    if level > stop {
      Down(m, t, 512, f, pg, level);
      UserPathKept(m, m', t, m[Slot(f, pg.At(level))].frame, pg, level - 1, stop);
    }
  }

  /** A path with one more user entry at its end. */
  lemma {:induction false} UserPathLonger(m: Mem, t: Forest, f: Frame, pg: Page, level: int, s: Slot)
    requires Tree(m, t, 512) && In(t, 512, f, pg, level) && Visits(m, f, pg, level, s)
    requires s.frame in t && Points(Level(t[s.frame]), m[s]) && m[s].u
    requires Level(t[s.frame]) >= 2 && Level(t[s.frame]) <= 4 && UserPath(m, f, pg, level, Level(t[s.frame]))
    ensures UserPath(m, f, pg, level, Level(t[s.frame]) - 1)
    decreases level
  {
    var here := Slot(f, pg.At(level));
    VisitsInside(m, t, 512, f, pg, level, s);
    if s != here {
      Down(m, t, 512, f, pg, level);
      VisitsInside(m, t, 512, m[here].frame, pg, level - 1, s);
      UserPathLonger(m, t, m[here].frame, pg, level - 1, s);
    }
  }

  lemma {:induction false} UserPathLeaf(m: Mem, t: Forest, s: Slot, e: Pte, f: Frame, pg: Page, level: int)
    requires Tree(m, t, 512) && In(t, 512, f, pg, level) && LeafSlot(t, s) && UserPath(m, f, pg, level, 1)
    ensures UserPath(m[s := e], f, pg, level, 1)
    decreases level
  {
    if level > 1 {
      Down(m, t, 512, f, pg, level);
      UserPathLeaf(m, t, s, e, m[Slot(f, pg.At(level))].frame, pg, level - 1);
    }
  }

  /** All the way down, users reach a leaf that lets them. */
  lemma {:induction false} UserReaches(m: Mem, f: Frame, pg: Page, level: int)
    requires 1 <= level <= 4 && UserPath(m, f, pg, level, 1)
    ensures View(m, f, pg, level).Some? && View(m, f, pg, level).value.e.u ==> Effective(m, f, pg, level).u
    decreases level
  {
    if level > 1 {
      UserReaches(m, m[Slot(f, pg.At(level))].frame, pg, level - 1);
    }
  }

  // ------------------------------------------------ blocked walks

  lemma {:induction false} BlockedSuffix(m: Mem, t: Forest, lim: int, f: Frame, pg: Page, level: int, s: Slot)
    requires Tree(m, t, lim) && In(t, lim, f, pg, level) && Visits(m, f, pg, level, s) && s.frame in t
    ensures 1 <= Level(t[s.frame]) <= 4 && Blocked(m, f, pg, level) == Blocked(m, s.frame, pg, Level(t[s.frame]))
    decreases level
  {
    VisitsInside(m, t, lim, f, pg, level, s);
    var here := Slot(f, pg.At(level));
    if s != here {
      Down(m, t, lim, f, pg, level);
      BlockedSuffix(m, t, lim, m[here].frame, pg, level - 1, s);
    }
  }

  lemma {:induction false} BlockedOutside(m: Mem, m': Mem, t: Forest, lim: int, f: Frame, pg: Page, level: int)
    requires Tree(m, t, lim) && SameFrames(m, m', t.Keys) && In(t, lim, f, pg, level)
    ensures Blocked(m', f, pg, level) == Blocked(m, f, pg, level)
    decreases level
  {
    var here := Slot(f, pg.At(level));
    if Points(level, m[here]) {
      Down(m, t, lim, f, pg, level);
      BlockedOutside(m, m', t, lim, m[here].frame, pg, level - 1);
    }
  }

  /** Filling an absent slot without a page-size bit blocks nothing new. */
  lemma {:induction false} BlockedLink(m: Mem, t: Forest, lim: int, s: Slot, c: Frame, e: Pte, f: Frame, pg: Page,
                                       level: int)
    requires Linkable(m, t, lim, s, c, e) && In(t, lim, f, pg, level) && (Level(t[s.frame]) == 4 || !m[s].ps)
    ensures Blocked(m[s := e], f, pg, level) == Blocked(m, f, pg, level)
    decreases level
  {
    var here := Slot(f, pg.At(level));
    Down(m, t, lim, f, pg, level);
    if here == s {
      assert m[s := e][Slot(c, pg.At(level - 1))] == ZERO;
    } else if Points(level, m[here]) {
      BlockedLink(m, t, lim, s, c, e, m[here].frame, pg, level - 1);
    }
  }

  lemma {:induction false} BlockedLeaf(m: Mem, t: Forest, lim: int, s: Slot, e: Pte, f: Frame, pg: Page, level: int)
    requires Tree(m, t, lim) && LeafSlot(t, s) && In(t, lim, f, pg, level)
    ensures Blocked(m[s := e], f, pg, level) == Blocked(m, f, pg, level)
    decreases level
  {
    var here := Slot(f, pg.At(level));
    if Points(level, m[here]) {
      Down(m, t, lim, f, pg, level);
      BlockedLeaf(m, t, lim, s, e, m[here].frame, pg, level - 1);
    }
  }

  ghost predicate SameBlocked(m: Mem, m': Mem, root: Frame) {
    forall pg: Page :: Blocked(m', root, pg, 4) == Blocked(m, root, pg, 4)
  }

  /** The walk for `pg` has its table below `level`, made if need be, and no
      page got blocked or unblocked. */
  ghost predicate Widened(m: Mem, m': Mem, root: Frame, pg: Page, level: int) {
    TablesBelow(m, m', root, 512, pg, level) && SameBlocked(m, m', root)
  }

  lemma LinkWidens(m0: Mem, m1: Mem, t: Forest, s: Slot, c: Frame, e: Pte, root: Frame, pg: Page, level: int)
    requires Tree(m0, t, 512) && SameFrames(m0, m1, t.Keys) && Linkable(m1, t, 512, s, c, e)
    requires In(t, 512, root, pg, 4) && Visits(m0, root, pg, 4, s) && Level(t[s.frame]) == level && t[root] == Root
    requires level == 4 || !m0[s].ps
    ensures Widened(m0, m1[s := e], root, pg, level)
  {
    LinkTablesBelow(m0, m1, t, 512, s, c, e, root, pg, level);
    forall pg': Page
      ensures Blocked(m1[s := e], root, pg', 4) == Blocked(m0, root, pg', 4)
    {
      BlockedOutside(m0, m1, t, 512, root, pg', 4);
      BlockedLink(m1, t, 512, s, c, e, root, pg', 4);
    }
  }

  lemma UserBitWidens(m: Mem, t: Forest, s: Slot, root: Frame, pg: Page, level: int)
    requires Tree(m, t, 512) && In(t, 512, root, pg, 4) && Visits(m, root, pg, 4, s) && t[root] == Root
    requires s.frame in t && Level(t[s.frame]) == level && Points(level, m[s])
    ensures Widened(m, m[s := m[s].(u := true)], root, pg, level)
  {
    FollowTablesBelow(m, t, 512, s, root, pg, level);
    forall pg': Page
      ensures Blocked(m[s := m[s].(u := true)], root, pg', 4) == Blocked(m, root, pg', 4)
      ensures Missing(m[s := m[s].(u := true)], root, pg', 4) == Missing(m, root, pg', 4)
    {
      UserBitWalk(m, t, 512, s, root, pg', 4);
    }
  }

  /** A finished mapping has made the tables of its own path only. */
  ghost predicate PathMade(m: Mem, m': Mem, root: Frame, pg: Page) {
    TablesMade(m, m', root, 512, pg) && SameBlocked(m, m', root)
  }

  lemma StillBlocked(m: Mem, m': Mem, root: Frame, pg: Page, level: int)
    requires Widened(m, m', root, pg, level)
    ensures Blocked(m', root, pg, 4) == Blocked(m, root, pg, 4)
  {
  }

  lemma ThreeWidened(m0: Mem, m1: Mem, m2: Mem, m3: Mem, root: Frame, pg: Page)
    requires Widened(m0, m1, root, pg, 4) && Widened(m1, m2, root, pg, 3) && Widened(m2, m3, root, pg, 2)
    ensures PathMade(m0, m3, root, pg)
  {
    ThreeTables(m0, m1, m2, m3, root, 512, pg);
  }

  lemma LeafPathMade(m0: Mem, m: Mem, t: Forest, s: Slot, e: Pte, root: Frame, pg: Page)
    requires Tree(m, t, 512) && LeafSlot(t, s) && root in t && t[root] == Root
    requires PathMade(m0, m, root, pg)
    ensures PathMade(m0, m[s := e], root, pg)
  {
    LeafTables(m0, m, t, 512, s, e, root, pg);
    forall pg': Page
      ensures Blocked(m[s := e], root, pg', 4) == Blocked(m, root, pg', 4)
    {
      BlockedLeaf(m, t, 512, s, e, root, pg', 4);
    }
  }

  /** A page that is mapped by a large page is blocked. */
  lemma {:induction false} HugeBlocks(m: Mem, f: Frame, pg: Page, level: int)
    requires 1 <= level <= 4 && View(m, f, pg, level).Some? && View(m, f, pg, level).value.level > 1
    ensures Blocked(m, f, pg, level)
    decreases level
  {
    var e := m[Slot(f, pg.At(level))];
    if Points(level, e) {
      HugeBlocks(m, e.frame, pg, level - 1);
    }
  }

  /** The walk's rights are no more than its leaf's. */
  lemma {:induction false} LeafBounds(m: Mem, f: Frame, pg: Page, level: int)
    requires 1 <= level <= 4 && View(m, f, pg, level).Some?
    ensures var (r, e) := (Effective(m, f, pg, level), View(m, f, pg, level).value.e);
            (r.w ==> e.w) && (r.u ==> e.u) && (e.nx ==> r.nx)
    decreases level
  {
    var e := m[Slot(f, pg.At(level))];
    if Points(level, e) {
      LeafBounds(m, e.frame, pg, level - 1);
    }
  }

  // ------------------------------------------------ rights of other pages

  /** Pages outside `but` that are mapped keep their translation, and of their
      effective rights only user access can change: it may be added, up to what
      the leaf allows. */
  ghost predicate RightsKept(m: Mem, m': Mem, root: Frame, but: set<Page>) {
    forall pg: Page :: pg !in but && View(m, root, pg, 4).Some? ==> RightsAt(m, m', root, pg)
  }

  ghost predicate RightsAt(m: Mem, m': Mem, root: Frame, pg: Page)
    requires View(m, root, pg, 4).Some?
  {
    var (r, r') := (Effective(m, root, pg, 4), Effective(m', root, pg, 4));
    && View(m', root, pg, 4) == View(m, root, pg, 4)
    && r'.w == r.w && r'.nx == r.nx && (r.u ==> r'.u)
    && (r'.u ==> View(m, root, pg, 4).value.e.u)
  }

  lemma RightsAlready(m: Mem, root: Frame)
    ensures RightsKept(m, m, root, {})
  {
    forall pg: Page | View(m, root, pg, 4).Some?
      ensures RightsAt(m, m, root, pg)
    {
      LeafBounds(m, root, pg, 4);
    }
  }

  lemma RightsThen(m: Mem, m1: Mem, m2: Mem, root: Frame, but0: set<Page>, but1: set<Page>, but: set<Page>)
    requires RightsKept(m, m1, root, but0) && RightsKept(m1, m2, root, but1) && but0 <= but && but1 <= but
    ensures RightsKept(m, m2, root, but)
  {
    hide View, Effective;
    forall pg: Page | pg !in but && View(m, root, pg, 4).Some?
      ensures RightsAt(m, m2, root, pg)
    {
      assert RightsAt(m, m1, root, pg) && RightsAt(m1, m2, root, pg);
    }
  }

  lemma RightsMore(m: Mem, m': Mem, root: Frame, but: set<Page>, more: set<Page>)
    requires RightsKept(m, m', root, but) && but <= more
    ensures RightsKept(m, m', root, more)
  {
  }

  /** A user bit set on the way adds user access at most. */
  lemma {:induction false} UserBitRights(m: Mem, t: Forest, s: Slot, f: Frame, pg: Page, level: int)
    requires Tree(m, t, 512) && In(t, 512, f, pg, level)
    requires s.frame in t && Points(Level(t[s.frame]), m[s])
    ensures var (r, r') := (Effective(m, f, pg, level), Effective(m[s := m[s].(u := true)], f, pg, level));
            r'.w == r.w && r'.nx == r.nx && (r.u ==> r'.u)
    decreases level
  {
    var here := Slot(f, pg.At(level));
    if Points(level, m[here]) {
      Down(m, t, 512, f, pg, level);
      UserBitRights(m, t, s, m[here].frame, pg, level - 1);
    }
  }

  lemma UserBitKeepsRights(m: Mem, t: Forest, s: Slot, root: Frame)
    requires Tree(m, t, 512) && root in t && t[root] == Root
    requires s.frame in t && Points(Level(t[s.frame]), m[s])
    ensures RightsKept(m, m[s := m[s].(u := true)], root, {})
  {
    var m' := m[s := m[s].(u := true)];
    forall pg: Page | View(m, root, pg, 4).Some?
      ensures RightsAt(m, m', root, pg)
    {
      UserBitRights(m, t, s, root, pg, 4);
      UserBitWalk(m, t, 512, s, root, pg, 4);
      LeafBounds(m', root, pg, 4);
    }
  }

  lemma LinkKeepsRights(m0: Mem, m1: Mem, t: Forest, s: Slot, c: Frame, e: Pte, root: Frame)
    requires Tree(m0, t, 512) && SameFrames(m0, m1, t.Keys) && Linkable(m1, t, 512, s, c, e)
    requires root in t && t[root] == Root
    ensures RightsKept(m0, m1[s := e], root, {})
  {
    forall pg: Page | View(m0, root, pg, 4).Some?
      ensures RightsAt(m0, m1[s := e], root, pg)
    {
      OutsideWalk(m0, m1, t, 512, root, pg, 4);
      LinkMapped(m1, t, 512, s, c, e, root, pg, 4);
      LinkWalk(m1, t, 512, s, c, e, root, pg, 4);
      LeafBounds(m0, root, pg, 4);
    }
  }

  lemma LeafKeepsRights(m: Mem, t: Forest, s: Slot, e: Pte, root: Frame, pg: Page)
    requires Tree(m, t, 512) && root in t && t[root] == Root && LeafSlot(t, s) && Visits(m, root, pg, 4, s)
    ensures RightsKept(m, m[s := e], root, {pg})
  {
    forall pg': Page | pg' !in {pg} && View(m, root, pg', 4).Some?
      ensures RightsAt(m, m[s := e], root, pg')
    {
      LeafMiss(m, t, 512, s, e, root, pg, root, pg');
      LeafBounds(m, root, pg', 4);
    }
  }

  ghost function Stored(pages: imap<Page, Leaf>, pg: Page, e: Pte): imap<Page, Leaf> {
    if e.p then pages[pg := Leaf(1, e)] else V.Without(pages, pg)
  }

  const CODE_PAGE := Page(0, 0, 2, 0)
  const STACK1_PAGE := Page(0, 0, 4, 0)
  const STACK0_PAGE := Page(0, 0, 4, 1)

  /** The entries that USER_PAGE_WRITE and USER_PAGE_RW_NOEXEC make. */
  const WRITE_PAGE := Pte(true, true, true, false, false, 0, 0)
  const STACK_PAGE := Pte(true, true, true, false, true, 0, 0)

  /** The page map after a complete setup. */
  ghost function WithUser(pages: imap<Page, Leaf>, code: Frame, stack1: Frame, stack0: Frame): imap<Page, Leaf> {
    pages[CODE_PAGE := Leaf(1, WRITE_PAGE.(frame := code))]
         [STACK1_PAGE := Leaf(1, STACK_PAGE.(frame := stack1))]
         [STACK0_PAGE := Leaf(1, STACK_PAGE.(frame := stack0))]
  }

  const USER_PAGES := {CODE_PAGE, STACK1_PAGE, STACK0_PAGE}

  /** How many of the three pages get mapped with `free` frames for tables, and
      how many frames are left.  A blocked walk takes no frame, and a shortage
      takes them all. */
  ghost function Outcome(m: Mem, root: Frame, free: int): (nat, int) {
    var (first, second) := (Missing(m, root, CODE_PAGE, 4), Min(Missing(m, root, STACK1_PAGE, 4), 1));
    if Blocked(m, root, CODE_PAGE, 4) then (0, free)
    else if free < first then (0, 0)
    else if Blocked(m, root, STACK1_PAGE, 4) then (1, free - first)
    else if free < first + second then (1, 0)
    else (3, free - first - second)
  }

  /** Pages other than the three are as they were. */
  ghost predicate SameBeside(pages: imap<Page, Leaf>, pages': imap<Page, Leaf>) {
    forall pg :: pg !in USER_PAGES ==> (pg in pages' <==> pg in pages) && (pg in pages ==> pages'[pg] == pages[pg])
  }

  lemma AfterBeside(pages: imap<Page, Leaf>, outcome: (nat, int), code: Frame, stack1: Frame, stack0: Frame)
    ensures SameBeside(pages, After(pages, outcome, code, stack1, stack0).0)
  {
  }

  lemma BesideThen(pages: imap<Page, Leaf>, pages': imap<Page, Leaf>, pg: Page, l: Leaf)
    requires SameBeside(pages, pages') && pg in USER_PAGES
    ensures SameBeside(pages, pages'[pg := l])
  {
  }

  ghost function After(pages: imap<Page, Leaf>, outcome: (nat, int), code: Frame, stack1: Frame,
                       stack0: Frame): (imap<Page, Leaf>, int) {
    (if outcome.0 == 0 then pages
     else if outcome.0 == 1 then pages[CODE_PAGE := Leaf(1, WRITE_PAGE.(frame := code))]
     else WithUser(pages, code, stack1, stack0),
     outcome.1)
  }

  /** No large page in the way of the three pages, and enough frames for the
      tables they miss: the stack pages share their tables, and at least the
      upper two with the code page. */
  ghost predicate Room(m: Mem, root: Frame, free: int) {
    && !Blocked(m, root, CODE_PAGE, 4) && !Blocked(m, root, STACK1_PAGE, 4) && !Blocked(m, root, STACK0_PAGE, 4)
    && free >= Missing(m, root, CODE_PAGE, 4) + Min(Missing(m, root, STACK1_PAGE, 4), 1)
  }

  lemma {:induction false} SiblingBlocked(m: Mem, f: Frame, pg: Page, pg': Page, level: int)
    requires 1 <= level <= 4 && pg'.i4 == pg.i4 && pg'.i3 == pg.i3 && pg'.i2 == pg.i2
    ensures Blocked(m, f, pg', level) == Blocked(m, f, pg, level)
    decreases level
  {
    var e := m[Slot(f, pg.At(level))];
    if level > 1 && e.p {
      SiblingBlocked(m, e.frame, pg, pg', level - 1);
    }
  }

  lemma StackBlocked(m: Mem, root: Frame)
    ensures Blocked(m, root, STACK0_PAGE, 4) == Blocked(m, root, STACK1_PAGE, 4)
  {
    SiblingBlocked(m, root, STACK1_PAGE, STACK0_PAGE, 4);
  }

  /** The code page gets mapped exactly if its own walk allows, and if only one
      page gets mapped it is the code page; a shortage leaves no frame, a blocked
      walk takes none. */
  lemma OutcomeIs(m: Mem, root: Frame, free: int, pages: imap<Page, Leaf>, code: Frame, stack1: Frame, stack0: Frame)
    requires free >= 0
    ensures var (outcome, needs) := (Outcome(m, root, free), Missing(m, root, CODE_PAGE, 4));
            && (outcome.0 > 0 <==> !Blocked(m, root, CODE_PAGE, 4) && free >= needs)
            && (outcome.0 == 0 ==> outcome.1 == if Blocked(m, root, CODE_PAGE, 4) then free else 0)
            && (outcome.0 == 1 ==> outcome.1 == if Blocked(m, root, STACK1_PAGE, 4) then free - needs else 0)
            && (outcome.0 == 3 ==> outcome.1 == free - needs - Min(Missing(m, root, STACK1_PAGE, 4), 1))
            && outcome.0 in {0, 1, 3} && 0 <= outcome.1 <= free
    ensures var outcome := Outcome(m, root, free);
            var pages' := After(pages, outcome, code, stack1, stack0).0;
            && (outcome.0 == 0 ==> pages' == pages)
            && (outcome.0 == 1 ==> forall pg :: pg != CODE_PAGE ==>
                  (pg in pages' <==> pg in pages) && (pg in pages ==> pages'[pg] == pages[pg]))
            && (outcome.0 > 0 ==> CODE_PAGE in pages' && pages'[CODE_PAGE].e.frame == code && pages'[CODE_PAGE].e.w)
  {
    hide Blocked, Missing;
  }

  /** All three pages get mapped exactly when there is room. */
  lemma RoomMeans(m: Mem, root: Frame, free: int)
    ensures Outcome(m, root, free).0 == 3 <==> Room(m, root, free)
  {
    hide Blocked, Missing;
    StackBlocked(m, root);
  }

  lemma AfterCode(m: Mem, m': Mem, root: Frame)
    requires PathMade(m, m', root, CODE_PAGE)
    ensures Missing(m', root, STACK1_PAGE, 4) == Min(Missing(m, root, STACK1_PAGE, 4), 1)
    ensures Blocked(m', root, STACK1_PAGE, 4) == Blocked(m, root, STACK1_PAGE, 4)
    ensures Blocked(m', root, STACK0_PAGE, 4) == Blocked(m, root, STACK0_PAGE, 4)
  {
  }

  lemma AfterStack1(m: Mem, m': Mem, root: Frame)
    requires PathMade(m, m', root, STACK1_PAGE)
    ensures Missing(m', root, STACK0_PAGE, 4) == 0
    ensures Blocked(m', root, STACK0_PAGE, 4) == Blocked(m, root, STACK0_PAGE, 4)
  {
  }

  lemma Layout(code: Frame, stack1: Frame, stack0: Frame)
    ensures PageOf(0x40_0000) == CODE_PAGE && PageOf(0x80_0000) == STACK1_PAGE && PageOf(0x80_1000) == STACK0_PAGE
    ensures UserLeaf(AddressOf(code), UserFlags(true, true)) == WRITE_PAGE.(frame := code)
    ensures UserLeaf(AddressOf(stack1), UserFlags(true, false)) == STACK_PAGE.(frame := stack1)
    ensures UserLeaf(AddressOf(stack0), UserFlags(true, false)) == STACK_PAGE.(frame := stack0)
  {
    hide UserLeaf, Decode, AndW, UserFlags;
    UserFlagsAre(true, true);
    UserFlagsAre(true, false);
    AddressOfEntry(UserFlags(true, true));
    AddressOfEntry(UserFlags(true, false));
    UserLeafWord(AddressOf(code), UserFlags(true, true));
    UserLeafWord(AddressOf(stack1), UserFlags(true, false));
    UserLeafWord(AddressOf(stack0), UserFlags(true, false));
  }

  /** Where a walk for a 4K page ends is a leaf slot. */
  lemma LeafThere(m: Mem, t: Forest, s: Slot, root: Frame, pg: Page)
    requires Tree(m, t, 512) && root in t && t[root] == Root
    requires View(m, root, pg, 4).Some? && View(m, root, pg, 4).value.level == 1
    requires s == BlindSlot(m, root, pg) && Visits(m, root, pg, 4, s)
    ensures LeafSlot(t, s)
  {
    var s4 := Slot(root, pg.At(4));
    var s3 := Slot(m[s4].frame, pg.At(3));
    var s2 := Slot(m[s3].frame, pg.At(2));
    assert View(m, root, pg, 4) == View(m, s3.frame, pg, 3);
    assert View(m, s3.frame, pg, 3) == View(m, s2.frame, pg, 2);
    Down(m, t, 512, root, pg, 4);
    Down(m, t, 512, s3.frame, pg, 3);
    Down(m, t, 512, s2.frame, pg, 2);
  }

  // ------------------------------------------------ what the processor cached

  lemma {:induction false} UserBitEntry(m: Mem, t: Forest, s: Slot, f: Frame, pg: Page, level: int, at: int)
    requires Tree(m, t, 512) && In(t, 512, f, pg, level) && s.frame in t && Points(Level(t[s.frame]), m[s])
    requires EntryAt(m, f, pg, level, at).Some?
    ensures var (was, now) := (EntryAt(m, f, pg, level, at), EntryAt(m[s := m[s].(u := true)], f, pg, level, at));
            now.Some? && (now == was || now.value == was.value.(u := true))
    decreases level
  {
    var here := Slot(f, pg.At(level));
    if at != level {
      Down(m, t, 512, f, pg, level);
      UserBitEntry(m, t, s, m[here].frame, pg, level - 1, at);
    }
  }

  /** Setting a user bit outdates cached items by user access only. */
  lemma UserBitNearly(m: Mem, t: Forest, s: Slot, root: Frame, cache: set<Cached>)
    requires Tree(m, t, 512) && root in t && t[root] == Root && s.frame in t && Points(Level(t[s.frame]), m[s])
    requires Nearly(m, root, cache)
    ensures Nearly(m[s := m[s].(u := true)], root, cache)
  {
    hide View, Effective, EntryAt;
    forall c | c in cache
      ensures AgreesNearly(m[s := m[s].(u := true)], root, c)
    {
      assert AgreesNearly(m, root, c);
      match c
      case Translation(pg, _, _) =>
        UserBitWalk(m, t, 512, s, root, pg, 4);
        UserBitRights(m, t, s, root, pg, 4);
      case Structure(pg, level, _) =>
        UserBitEntry(m, t, s, root, pg, 4, level);
    }
  }

  lemma ClearNearly(m: Mem, m': Mem, t: Forest, root: Frame, cache: set<Cached>)
    requires Tree(m, t, 512) && SameFrames(m, m', t.Keys) && root in t && t[root] == Root && Nearly(m, root, cache)
    ensures Nearly(m', root, cache)
  {
    hide View, Effective, EntryAt;
    forall c | c in cache
      ensures AgreesNearly(m', root, c)
    {
      assert AgreesNearly(m, root, c);
      OutsideWalk(m, m', t, 512, root, c.pg, 4);
      if c.Structure? {
        OutsideEntry(m, m', t, 512, root, c.pg, 4, c.level);
      }
    }
  }

  lemma LinkNearly(m: Mem, t: Forest, s: Slot, c: Frame, e: Pte, root: Frame, cache: set<Cached>)
    requires Linkable(m, t, 512, s, c, e) && root in t && t[root] == Root && Nearly(m, root, cache)
    ensures Nearly(m[s := e], root, cache)
  {
    hide View, Effective, EntryAt;
    forall item | item in cache
      ensures AgreesNearly(m[s := e], root, item)
    {
      assert AgreesNearly(m, root, item);
      match item
      case Translation(pg, _, _) =>
        LinkMapped(m, t, 512, s, c, e, root, pg, 4);
        LinkWalk(m, t, 512, s, c, e, root, pg, 4);
      case Structure(pg, level, _) =>
        LinkEntry(m, s, e, root, pg, 4, level);
    }
  }

  /** A leaf store and the flush of its page leave the rest nearly right. */
  lemma LeafNearly(m: Mem, t: Forest, s: Slot, e: Pte, root: Frame, pg: Page, cache: set<Cached>, cache': set<Cached>)
    requires Tree(m, t, 512) && root in t && t[root] == Root && LeafSlot(t, s) && Visits(m, root, pg, 4, s)
    requires Nearly(m, root, cache) && forall c :: c in cache' && c !in cache ==> Agrees(m[s := e], root, c)
    ensures Nearly(m[s := e], root, Invalidate(cache', pg))
  {
    hide View, Effective, EntryAt;
    forall c | c in Invalidate(cache', pg)
      ensures AgreesNearly(m[s := e], root, c)
    {
      if c in cache {
        assert AgreesNearly(m, root, c);
        LeafMiss(m, t, 512, s, e, root, pg, root, c.pg);
      } else {
        assert Agrees(m[s := e], root, c);
      }
    }
  }

  class ActiveTables {
    const ram: Machine
    const root: Frame
    ghost var tables: Forest
    ghost var tlb: set<Cached>

    constructor (ram: Machine, root: Frame, ghost tables: Forest)
      requires ram.Valid() && Tree(ram.mem, tables, 512) && root in tables && tables[root] == Root
      requires forall f :: f in tables ==> f !in ram.avail
      ensures Valid() && TlbOk() && this.ram == ram && this.root == root && this.tables == tables
    {
      this.ram, this.root, this.tables, tlb := ram, root, tables, {};
    }

    /** No cached item is out of date ... */
    ghost predicate TlbOk()
      reads this, ram
    {
      Coherent(ram.mem, root, tlb)
    }

    /** ... or only in lacking user access. */
    ghost predicate TlbNearly()
      reads this, ram
    {
      Nearly(ram.mem, root, tlb)
    }

    ghost predicate Valid()
      reads this, ram, ram.pmm, ram.pmm.freePages
    {
      && ram.Valid()
      && Tree(ram.mem, tables, 512)
      && root in tables && tables[root] == Root
      && (forall f :: f in tables ==> f !in ram.avail)
    }

    ghost function Pages(): imap<Page, Leaf>
      reads this, ram
    {
      PageMap(ram.mem, root)
    }

    /** A cleared frame that no table uses; 0 when there is none. */
    method AllocTable() returns (c: Frame)
      requires Valid() && TlbNearly()
      modifies this`tlb, ram, ram.pmm
      ensures Valid() && TlbNearly() && Pages() == old(Pages())
      ensures if old(ram.free) == 0 then
                c == 0 && ram.free == 0 && ram.mem == old(ram.mem) && ram.avail == old(ram.avail)
              else c != 0 && c in old(ram.avail) && ram.avail == old(ram.avail) - {c} && ram.free == old(ram.free) - 1
                   && Blanked(ram.mem, c) && SameFrames(old(ram.mem), ram.mem, tables.Keys)
    {
      hide View, PageMap, Tree, Nearly, Machine.Valid;
      ghost var m := ram.mem;
      c := ram.AllocZeroed();
      if c != 0 {
        ClearNearly(m, ram.mem, tables, root, tlb);
        tlb := HardwareNearly(ram.mem, root, tlb);
        V.ClearKeeps(m, ram.mem, tables, root, {});
      }
    }

    method LinkTable(s: Slot, c: Frame)
      requires Valid() && TlbNearly() && c !in ram.avail && Linkable(ram.mem, tables, 512, s, c, UserLink(c))
      modifies this, ram`mem
      ensures Valid() && TlbNearly() && Pages() == old(Pages())
      ensures tables == Grown(old(tables), s, c) && ram.mem == old(ram.mem)[s := UserLink(c)]
    {
      hide View, PageMap, Tree, Nearly, Machine.Valid;
      LinkNearly(ram.mem, tables, s, c, UserLink(c), root, tlb);
      V.LinkKeeps(ram.mem, tables, s, c, UserLink(c), root, {});
      ram.mem := ram.mem[s := UserLink(c)];
      tables := Grown(tables, s, c);
      tlb := HardwareNearly(ram.mem, root, tlb);
    }

    /** A new table below the absent slot `s` of the walk for `pg`. */
    method MakeTable(s: Slot, ghost pg: Page) returns (ok: bool)
      requires Valid() && TlbNearly() && Owned(tables, 512, s) && !ram.mem[s].p
               && (Level(tables[s.frame]) == 4 || !ram.mem[s].ps)
      requires Visits(ram.mem, root, pg, 4, s)
      modifies this, ram, ram.pmm
      ensures Valid() && TlbNearly() && Pages() == old(Pages()) && ram.avail <= old(ram.avail)
      ensures s.frame in tables && tables[s.frame] == old(tables)[s.frame]
      ensures ok == (old(ram.free) > 0)
      ensures !ok ==> ram.free == 0 && ram.mem == old(ram.mem)
      ensures ok ==>
                && ram.free == old(ram.free) - 1
                && Points(Level(tables[s.frame]), ram.mem[s]) && Visits(ram.mem, root, pg, 4, s)
                && Missing(ram.mem, root, pg, 4) == Missing(old(ram.mem), root, pg, 4) - 1
                && Widened(old(ram.mem), ram.mem, root, pg, Level(tables[s.frame]))
                && RightsKept(old(ram.mem), ram.mem, root, {})
                && ram.mem[s].u && KeepsEntries(old(ram.mem), ram.mem, old(tables))
    {
      hide View, PageMap, Missing, Blocked, Visits, Widened, RightsKept, Nearly, Machine.Valid;
      ram.NotNegative();
      ghost var m := ram.mem;
      var c := AllocTable();
      if c == 0 {
        return false;
      }
      LinkReached(m, ram.mem, tables, 512, s, c, UserLink(c), root, pg);
      LinkKeepsRights(m, ram.mem, tables, s, c, UserLink(c), root);
      LinkWidens(m, ram.mem, tables, s, c, UserLink(c), root, pg, Level(tables[s.frame]));
      LinkTable(s, c);
      return true;
    }

    /** Set the user bit of the entry `s` that refers to a table. */
    method AllowUser(s: Slot, ghost pg: Page)
      requires Valid() && TlbNearly() && s.frame in tables && Points(Level(tables[s.frame]), ram.mem[s])
               && Visits(ram.mem, root, pg, 4, s)
      modifies this`tlb, ram`mem
      ensures Valid() && TlbNearly() && Pages() == old(Pages())
      ensures Points(Level(tables[s.frame]), ram.mem[s]) && Visits(ram.mem, root, pg, 4, s)
      ensures Missing(ram.mem, root, pg, 4) == Missing(old(ram.mem), root, pg, 4)
      ensures Widened(old(ram.mem), ram.mem, root, pg, Level(tables[s.frame]))
      ensures RightsKept(old(ram.mem), ram.mem, root, {})
      ensures ram.mem[s].u && KeepsEntries(old(ram.mem), ram.mem, tables)
    {
      hide View, PageMap, Missing, Blocked, Tree, Visits, Widened, RightsKept, Nearly, Machine.Valid;
      UserBitNearly(ram.mem, tables, s, root, tlb);
      UserBitKeepsRights(ram.mem, tables, s, root);
      UserBitWidens(ram.mem, tables, s, root, pg, Level(tables[s.frame]));
      UserBitTree(ram.mem, tables, 512, s);
      UserBitPages(ram.mem, tables, s, root);
      UserBitWalk(ram.mem, tables, 512, s, root, pg, 4);
      ram.mem := ram.mem[s := ram.mem[s].(u := true)];
      tlb := HardwareNearly(ram.mem, root, tlb);
    }

    /** `get_or_make_table` at level `level` of the walk for `pg`. */
    method GetOrMake(f: Frame, pg: Page, level: int) returns (next: Option<Frame>)
      requires Valid() && TlbNearly() && In(tables, 512, root, pg, 4) && In(tables, 512, f, pg, level) && level >= 2
      requires Visits(ram.mem, root, pg, 4, Slot(f, pg.At(level)))
      requires level < 4 ==> !ram.mem[Slot(f, pg.At(level))].ps
      requires UserPath(ram.mem, root, pg, 4, level)
      modifies this, ram, ram.pmm
      ensures Valid() && TlbNearly() && Pages() == old(Pages()) && ram.avail <= old(ram.avail)
      ensures RightsKept(old(ram.mem), ram.mem, root, {})
      ensures old(ram.mem)[Slot(f, pg.At(level))].p ==> next.Some? && ram.free == old(ram.free)
      ensures next.None? ==> ram.free == old(ram.free) == 0 && Missing(old(ram.mem), root, pg, 4) > 0
      ensures next.Some? ==>
                && In(tables, 512, root, pg, 4) && In(tables, 512, next.value, pg, level - 1)
                && Visits(ram.mem, root, pg, 4, Slot(next.value, pg.At(level - 1)))
                && Missing(ram.mem, root, pg, 4) <= level - 2 && ram.free >= 0
                && ram.free - Missing(ram.mem, root, pg, 4) == old(ram.free) - Missing(old(ram.mem), root, pg, 4)
                && Widened(old(ram.mem), ram.mem, root, pg, level)
                && UserPath(ram.mem, root, pg, 4, level - 1)
    {
      hide View, PageMap, Missing, Blocked, Tree, Visits, UserPath, KeepsEntries, Widened, RightsKept, Nearly,
           Machine.Valid;
      var s := Slot(f, pg.At(level));
      ghost var m, t := ram.mem, tables;
      ram.NotNegative();
      Rooted(pg);
      if !ram.mem[s].p {
        Present(ram.mem, tables, 512, s, root, pg, level);
        var ok := MakeTable(s, pg);
        if !ok {
          RightsAlready(m, root);
          return None;
        }
      } else {
        AllowUser(s, pg);
      }
      UserPathKept(m, ram.mem, t, root, pg, 4, level);
      ram.NotNegative();
      Rooted(pg);
      UserPathLonger(ram.mem, tables, root, pg, 4, s);
      Followed(ram.mem, tables, 512, s, root, pg, level);
      return Some(ram.mem[s].frame);
    }

    lemma Rooted(pg: Page)
      requires Valid()
      ensures Tree(ram.mem, tables, 512) && In(tables, 512, root, pg, 4)
    {
    }

    lemma StartsAtRoot(pg: Page)
      requires Valid()
      ensures In(tables, 512, root, pg, 4) && Visits(ram.mem, root, pg, 4, Slot(root, pg.At(4)))
    {
    }

    /** The page-size bit of an entry on the walk blocks it; without one, a walk
        with all its tables is not blocked. */
    lemma BlockedHere(pg: Page, f: Frame, level: int)
      requires Valid() && In(tables, 512, f, pg, level) && Visits(ram.mem, root, pg, 4, Slot(f, pg.At(level)))
      ensures 1 < level < 4 && ram.mem[Slot(f, pg.At(level))].ps ==> Blocked(ram.mem, root, pg, 4)
      ensures 1 < level && !(level < 4 && ram.mem[Slot(f, pg.At(level))].ps) && Blocked(ram.mem, root, pg, 4) ==>
                ram.mem[Slot(f, pg.At(level))].p
      ensures level == 1 ==> !Blocked(ram.mem, root, pg, 4)
    {
      BlockedSuffix(ram.mem, tables, 512, root, pg, 4, Slot(f, pg.At(level)));
    }

    /** Store a leaf entry and flush everything. */
    method SetLeaf(s: Slot, e: Pte, ghost pg: Page, ghost m0: Mem)
      requires Valid() && LeafSlot(tables, s) && Visits(ram.mem, root, pg, 4, s)
      modifies this`tlb, ram`mem
      ensures Valid() && TlbOk() && Pages() == Stored(old(Pages()), pg, e)
      ensures UserPath(old(ram.mem), root, pg, 4, 1) ==> UserPath(ram.mem, root, pg, 4, 1)
      ensures PathMade(m0, old(ram.mem), root, pg) ==> PathMade(m0, ram.mem, root, pg)
      ensures RightsKept(old(ram.mem), ram.mem, root, {pg})
    {
      hide View, PageMap, Tree, Visits, UserPath, PathMade, RightsKept, Machine.Valid, Agrees;
      LeafKeepsRights(ram.mem, tables, s, e, root, pg);
      if PathMade(m0, ram.mem, root, pg) {
        LeafPathMade(m0, ram.mem, tables, s, e, root, pg);
      }
      V.LeafUpdates(ram.mem, tables, s, e, root, pg, {});
      if UserPath(ram.mem, root, pg, 4, 1) {
        UserPathLeaf(ram.mem, tables, s, e, root, pg, 4);
      }
      ram.mem := ram.mem[s := e];
      tlb := Hardware(ram.mem, root, {});
    }

    /** The walk of `map_user_4k` down to the level-1 table, with the two tests
        for large pages. */
    method WalkDown(pg: Page) returns (at: Option<Frame>)
      requires Valid() && TlbNearly()
      modifies this, ram, ram.pmm
      ensures Valid() && TlbNearly() && Pages() == old(Pages()) && ram.avail <= old(ram.avail)
      ensures at.Some? <==>
                !Blocked(old(ram.mem), root, pg, 4) && old(ram.free) >= Missing(old(ram.mem), root, pg, 4)
      ensures RightsKept(old(ram.mem), ram.mem, root, {})
      ensures at.Some? ==>
                && In(tables, 512, at.value, pg, 1) && Visits(ram.mem, root, pg, 4, Slot(at.value, pg.At(1)))
                && UserPath(ram.mem, root, pg, 4, 1) && PathMade(old(ram.mem), ram.mem, root, pg)
      ensures ram.free == if at.Some? then old(ram.free) - Missing(old(ram.mem), root, pg, 4)
                          else if Blocked(old(ram.mem), root, pg, 4) then old(ram.free) else 0
    {
      hide View, PageMap, Missing, Blocked, Tree, Visits, Valid, UserPath, Widened, PathMade, RightsKept, Nearly;
      ghost var m0 := ram.mem;
      UserStart(ram.mem, root, pg);
      StartsAtRoot(pg);
      BlockedHere(pg, root, 4);
      at := None;
      var pdpt := GetOrMake(root, pg, 4);
      if pdpt.Some? {
        ghost var m1 := ram.mem;
        StillBlocked(m0, m1, root, pg, 4);
        BlockedHere(pg, pdpt.value, 3);
        if !ram.mem[Slot(pdpt.value, pg.At(3))].ps {
          var pd := GetOrMake(pdpt.value, pg, 3);
          RightsThen(m0, m1, ram.mem, root, {}, {}, {});
          if pd.Some? {
            ghost var m2 := ram.mem;
            StillBlocked(m1, m2, root, pg, 3);
            BlockedHere(pg, pd.value, 2);
            if !ram.mem[Slot(pd.value, pg.At(2))].ps {
              at := GetOrMake(pd.value, pg, 2);
              RightsThen(m0, m2, ram.mem, root, {}, {}, {});
              if at.Some? {
                StillBlocked(m2, ram.mem, root, pg, 2);
                BlockedHere(pg, at.value, 1);
                ThreeWidened(m0, m1, m2, ram.mem, root, pg);
              }
            }
          }
        }
      }
    }

    /** Map `pg`: done exactly when no large page blocks the walk and there are
        frames for the missing tables; when not done, no translation changes.
        Cached items may then lack user access; when done, all are right. */
    method MapAt(pg: Page, e: Pte) returns (ok: bool)
      requires Valid() && TlbNearly()
      modifies this, ram, ram.pmm
      ensures Valid() && TlbNearly() && (ok ==> TlbOk())
      ensures ok <==> !Blocked(old(ram.mem), root, pg, 4) && old(ram.free) >= Missing(old(ram.mem), root, pg, 4)
      ensures Pages() == if ok then Stored(old(Pages()), pg, e) else old(Pages())
      ensures RightsKept(old(ram.mem), ram.mem, root, if ok then {pg} else {})
      ensures ok ==> UserPath(ram.mem, root, pg, 4, 1) && PathMade(old(ram.mem), ram.mem, root, pg)
      ensures ram.free == if ok then old(ram.free) - Missing(old(ram.mem), root, pg, 4)
                          else if Blocked(old(ram.mem), root, pg, 4) then old(ram.free) else 0
      ensures ram.avail <= old(ram.avail)
    {
      hide View, PageMap, Missing, Blocked, Tree, Visits, Valid, Stored, UserPath, PathMade, RightsKept, Nearly,
           Coherent;
      ghost var m0 := ram.mem;
      var at := WalkDown(pg);
      ok := at.Some?;
      if ok {
        ghost var m := ram.mem;
        SetLeaf(Slot(at.value, pg.At(1)), e, pg, m0);
        RightsThen(m0, m, ram.mem, root, {}, {pg}, {pg});
        CoherentIsNearly(ram.mem, root, tlb);
      }
    }

    /** `map_user_4k`. */
    method MapUser4k(va: U64, pa: U64, flags: U64) returns (ok: bool)
      requires Valid() && TlbNearly()
      modifies this, ram, ram.pmm
      ensures Valid() && TlbNearly() && (ok ==> TlbOk())
      ensures ok <==>
                !Blocked(old(ram.mem), root, PageOf(va), 4)
                && old(ram.free) >= Missing(old(ram.mem), root, PageOf(va), 4)
      ensures Pages() == if ok then Stored(old(Pages()), PageOf(va), UserLeaf(pa, flags)) else old(Pages())
      ensures RightsKept(old(ram.mem), ram.mem, root, if ok then {PageOf(va)} else {})
      ensures ok && UserLeaf(pa, flags).p ==> Effective(ram.mem, root, PageOf(va), 4).u
      ensures ok ==> PathMade(old(ram.mem), ram.mem, root, PageOf(va))
      ensures ram.free == if ok then old(ram.free) - Missing(old(ram.mem), root, PageOf(va), 4)
                          else if Blocked(old(ram.mem), root, PageOf(va), 4) then old(ram.free) else 0
      ensures ram.avail <= old(ram.avail)
    {
      hide PathMade, PageOf, RightsKept, UserLeaf, Valid, Missing, Blocked, UserPath, Effective, Nearly, Coherent;
      UserLeafIs(pa, flags);
      ok := MapAt(PageOf(va), UserLeaf(pa, flags));
      if ok {
        UserReaches(ram.mem, root, PageOf(va), 4);
        assert UserLeaf(pa, flags).p ==> PageOf(va) in Pages();
      }
    }

    /** `setup_user_address_space`: with fewer than three frames everything is as
        before.  Otherwise `Outcome` says how many pages get mapped and how many
        frames are left; the three data frames stay taken. */
    method Setup()
      returns (ok: bool, codeVa: U64, stackTop: U64, ghost code: Frame, ghost stack1: Frame, ghost stack0: Frame)
      requires Valid() && TlbNearly()
      modifies this, ram, ram.pmm, ram.pmm.freePages
      ensures Valid() && TlbNearly() && (ok ==> TlbOk()) && ram.avail <= old(ram.avail)
      ensures RightsKept(old(ram.mem), ram.mem, root, USER_PAGES) && SameBeside(old(Pages()), Pages())
      ensures old(ram.free) < 3 ==> !ok && Pages() == old(Pages()) && ram.pmm.out == old(ram.pmm.out)
                                    && P.GetStats(ram.pmm.Value()) == old(P.GetStats(ram.pmm.Value()))
      ensures old(ram.free) >= 3 ==>
                && (Pages(), ram.free) ==
                   After(old(Pages()), Outcome(old(ram.mem), root, old(ram.free) - 3), code, stack1, stack0)
                && ok == (Outcome(old(ram.mem), root, old(ram.free) - 3).0 == 3)
                && code != stack1 && code != stack0 && stack1 != stack0
                && {code, stack1, stack0} <= old(ram.avail) && {code, stack1, stack0} !! ram.avail
      ensures ok ==> CODE_PAGE in Pages() && Pages()[CODE_PAGE] == Leaf(1, Pte(true, true, true, false, false, code, 0))
      ensures ok ==> STACK1_PAGE in Pages()
                     && Pages()[STACK1_PAGE] == Leaf(1, Pte(true, true, true, false, true, stack1, 0))
      ensures ok ==> STACK0_PAGE in Pages()
                     && Pages()[STACK0_PAGE] == Leaf(1, Pte(true, true, true, false, true, stack0, 0))
      ensures ok ==> codeVa == 0x40_0000 && stackTop == 0x80_2000 && PageOf(codeVa) == CODE_PAGE
                     && PageOf(stackTop - 1) == STACK0_PAGE && PageOf(stackTop - 0x1001) == STACK1_PAGE
    {
      hide Tree, View, PageMap, Outcome, RightsKept, Nearly, Coherent, P.Inv, P.Avail, P.GetStats;
      ghost var m := ram.mem;
      RightsAlready(m, root);
      RightsMore(m, m, root, {}, USER_PAGES);
      var got, c, s1, s0 := ram.TakeThree();
      code, stack1, stack0 := c, s1, s0;
      if !got {
        return false, 0, 0, c, s1, s0;
      }
      AfterBeside(Pages(), Outcome(ram.mem, root, ram.free), c, s1, s0);
      ok := MapThree(c, s1, s0);
      codeVa, stackTop := 0x40_0000, 0x80_0000 + 0x2000;
    }

    /** The three mappings of `setup_user_address_space`. */
    method MapThree(code: Frame, stack1: Frame, stack0: Frame) returns (ok: bool)
      requires Valid() && TlbNearly()
      modifies this, ram, ram.pmm
      ensures Valid() && TlbNearly() && (ok ==> TlbOk()) && ram.avail <= old(ram.avail)
      ensures RightsKept(old(ram.mem), ram.mem, root, USER_PAGES)
      ensures (Pages(), ram.free) ==
              After(old(Pages()), Outcome(old(ram.mem), root, old(ram.free)), code, stack1, stack0)
      ensures ok == (Outcome(old(ram.mem), root, old(ram.free)).0 == 3)
    {
      hide Valid, PageMap, Missing, Blocked, PageOf, UserLeaf, PathMade, UserFlags, RightsKept, Nearly, Coherent;
      Layout(code, stack1, stack0);
      ghost var m0 := ram.mem;
      StackBlocked(m0, root);
      ok := MapUser4k(0x40_0000, AddressOf(code), UserFlags(true, true));
      RightsMore(m0, ram.mem, root, if ok then {CODE_PAGE} else {}, USER_PAGES);
      if ok {
        ghost var m1 := ram.mem;
        AfterCode(m0, m1, root);
        ok := MapUser4k(0x80_0000, AddressOf(stack1), UserFlags(true, false));
        RightsMore(m1, ram.mem, root, if ok then {STACK1_PAGE} else {}, USER_PAGES);
        RightsThen(m0, m1, ram.mem, root, USER_PAGES, USER_PAGES, USER_PAGES);
        if ok {
          ghost var m2 := ram.mem;
          AfterStack1(m1, m2, root);
          ok := MapUser4k(0x80_1000, AddressOf(stack0), UserFlags(true, false));
          RightsMore(m2, ram.mem, root, if ok then {STACK0_PAGE} else {}, USER_PAGES);
          RightsThen(m0, m2, ram.mem, root, USER_PAGES, USER_PAGES, USER_PAGES);
        }
      }
    }

    /** `make_code_page_executable`: one word loses its writable and no-execute
        bits.  For a page with a 4K leaf it is the leaf, and the page keeps its
        frame. */
    method MakeExecutable(va: U64)
      modifies this`tlb, ram`mem
      ensures var s := BlindSlot(old(ram.mem), root, PageOf(va));
              ram.mem == old(ram.mem)[s := old(ram.mem)[s].(w := false, nx := false)]
      ensures old(Valid() && HasLeaf(PageOf(va))) ==>
                && Valid()
                && Pages() == old(Pages())[PageOf(va) := Leaf(1, old(Pages())[PageOf(va)].e.(w := false, nx := false))]
                && RightsKept(old(ram.mem), ram.mem, root, {PageOf(va)})
                && (old(TlbNearly()) ==> TlbNearly()) && (old(TlbOk()) ==> TlbOk())
    {
      hide PageOf, Tree, View, Visits, RightsKept, Machine.Valid, Nearly, Agrees;
      var pg := PageOf(va);
      var s := BlindSlot(ram.mem, root, pg);
      ghost var m, e := ram.mem, ram.mem[s].(w := false, nx := false);
      ghost var sound, near, exact, cache := Valid() && HasLeaf(pg), TlbNearly(), TlbOk(), tlb;
      if sound {
        BlindHits(m, tables, root, pg, Pages()[pg].e);
        LeafThere(m, tables, s, root, pg);
        V.LeafUpdates(m, tables, s, e, root, pg, if exact then tlb else {});
        LeafKeepsRights(m, tables, s, e, root, pg);
      }
      ram.mem := ram.mem[s := ram.mem[s].(w := false, nx := false)];
      tlb := Hardware(ram.mem, root, tlb);
      if sound && near {
        LeafNearly(m, tables, s, e, root, pg, cache, tlb);
      }
      tlb := Invalidate(tlb, pg);
      ghost var flushed := tlb;
      tlb := Hardware(ram.mem, root, tlb);
      if sound && near {
        NearlyMore(ram.mem, root, flushed, tlb);
      }
    }

    ghost predicate HasLeaf(pg: Page)
      reads this, ram
    {
      pg in Pages() && Pages()[pg].level == 1
    }

    /** The page is mapped to `f` and is not both writable and executable. */
    ghost predicate Protected(pg: Page, f: Frame)
      reads this, ram
    {
      && pg in Pages() && Pages()[pg].level == 1 && Pages()[pg].e.frame == f
      && !(Effective(ram.mem, root, pg, 4).w && !Effective(ram.mem, root, pg, 4).nx)
    }

    lemma ProtectedLeaf(pg: Page, f: Frame)
      requires pg in Pages() && Pages()[pg].level == 1 && Pages()[pg].e.frame == f
      requires !Pages()[pg].e.w || Pages()[pg].e.nx
      ensures Protected(pg, f)
    {
      LeafBounds(ram.mem, root, pg, 4);
    }

    /** Setup followed by `make_code_page_executable`: the code page keeps its
        frame, and no user page is both writable and executable. */
    method BuildUser() returns (ok: bool, ghost code: Frame, ghost stack1: Frame, ghost stack0: Frame)
      requires Valid() && TlbNearly()
      modifies this, ram, ram.pmm, ram.pmm.freePages
      ensures Valid() && TlbNearly() && (ok ==> TlbOk())
      ensures RightsKept(old(ram.mem), ram.mem, root, USER_PAGES) && SameBeside(old(Pages()), Pages())
      ensures ok <==> old(ram.free) >= 3 && Room(old(ram.mem), root, old(ram.free) - 3)
      ensures ok ==> Protected(CODE_PAGE, code) && Protected(STACK1_PAGE, stack1) && Protected(STACK0_PAGE, stack0)
      ensures ok ==> Pages()[CODE_PAGE].e.p && !Pages()[CODE_PAGE].e.nx && !Pages()[CODE_PAGE].e.w
    {
      hide Valid, PageMap, View, Effective, PageOf, Room, Outcome, RightsKept, SameBeside, UserFlags, UserLeaf, Nearly,
           Coherent;
      ghost var m := ram.mem;
      RoomMeans(m, root, ram.free - 3);
      var codeVa, stackTop;
      ok, codeVa, stackTop, code, stack1, stack0 := Setup();
      if ok {
        Layout(code, stack1, stack0);
        ghost var m1 := ram.mem;
        BesideThen(old(Pages()), Pages(), CODE_PAGE, Leaf(1, Pages()[CODE_PAGE].e.(w := false, nx := false)));
        MakeExecutable(codeVa);
        RightsThen(m, m1, ram.mem, root, USER_PAGES, {CODE_PAGE}, USER_PAGES);
        ProtectedLeaf(CODE_PAGE, code);
        ProtectedLeaf(STACK1_PAGE, stack1);
        ProtectedLeaf(STACK0_PAGE, stack0);
      }
    }
  }
}
