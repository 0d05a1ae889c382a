/** Four-level page tables in physical memory (sections 4.5 and 4.6 of the Intel
    SDM, Volume 3A): what the hardware walk reads, and the shape invariant that
    makes updates local.

    Physical memory is 2^40 frames of 512 entries, held as a total map from
    slots to entries.  A `Forest` records, for each table frame, the level it
    serves and the single slot that points to it. */
module PageTables {

  type Frame = n: int | 0 <= n < 0x100_0000_0000
  type Index = n: int | 0 <= n < 512

  datatype Slot = Slot(frame: Frame, idx: Index)

  /** A page-table entry: present, writable, user, page-size and no-execute
      bits, the frame number, and the remaining bits. */
  datatype Pte = Pte(p: bool, w: bool, u: bool, ps: bool, nx: bool, frame: Frame, rest: int)

  const ZERO := Pte(false, false, false, false, false, 0, 0)

  type Mem = m: map<Slot, Pte> | (forall s: Slot :: s in m)
    ghost witness Blank()

  /** All-zero memory. */
  ghost function Blank(): (m: map<Slot, Pte>)
    ensures forall s: Slot :: s in m && m[s] == ZERO
  {
    var all := set f: int, i: int | 0 <= f < 0x100_0000_0000 && 0 <= i < 512 :: Slot(f, i);
    assert forall s: Slot :: s == Slot(s.frame, s.idx) && s in all;
    map s | s in all :: ZERO
  }

  /** A 36-bit page number, split into its four 9-bit indices. */
  datatype Page = Page(i4: Index, i3: Index, i2: Index, i1: Index)
  {
    function At(level: int): Index {
      if level == 4 then i4 else if level == 3 then i3 else if level == 2 then i2 else i1
    }
  }

  /** Whether an entry read at `level` refers to a lower table. */
  predicate Points(level: int, e: Pte) {
    level > 1 && e.p && (level == 4 || !e.ps)
  }

  // ------------------------------------------------------------------- walk

  /** A translation: the level of the leaf (1: 4K, 2: 2M, 3: 1G) and its entry. */
  datatype Leaf = Leaf(level: int, e: Pte)

  /** The frame a page is translated to. */
  function PhysFrame(leaf: Leaf, pg: Page): int {
    if leaf.level == 1 then leaf.e.frame
    else if leaf.level == 2 then leaf.e.frame / 512 * 512 + pg.i1
    else leaf.e.frame / 0x4_0000 * 0x4_0000 + pg.i2 * 512 + pg.i1
  }

  datatype Option<T> = None | Some(value: T)

  /** The translation of `pg` by the table `f` serving `level`. */
  ghost function View(m: Mem, f: Frame, pg: Page, level: int): Option<Leaf>
    requires 1 <= level <= 4
    decreases level
  {
    var e := m[Slot(f, pg.At(level))];
    if Points(level, e) then View(m, e.frame, pg, level - 1)
    else if e.p then Some(Leaf(level, e)) else None
  }

  /** The walk for `pg` reads slot `s`. */
  ghost predicate Visits(m: Mem, f: Frame, pg: Page, level: int, s: Slot)
    requires 1 <= level <= 4
    decreases level
  {
    var here := Slot(f, pg.At(level));
    s == here || (Points(level, m[here]) && Visits(m, m[here].frame, pg, level - 1, s))
  }

  /** Rights accumulated along a walk: write and user need every level, and any
      level can forbid execution. */
  datatype Rights = Rights(w: bool, u: bool, nx: bool)

  ghost function Effective(m: Mem, f: Frame, pg: Page, level: int): Rights
    requires 1 <= level <= 4
    decreases level
  {
    var e := m[Slot(f, pg.At(level))];
    if Points(level, e) then
      var r := Effective(m, e.frame, pg, level - 1);
      Rights(e.w && r.w, e.u && r.u, e.nx || r.nx)
    else Rights(e.w, e.u, e.nx)
  }

  /** How many tables must be made before `pg` has a level-1 table. */
  ghost function Missing(m: Mem, f: Frame, pg: Page, level: int): nat
    requires 1 <= level <= 4
    decreases level
  {
    var e := m[Slot(f, pg.At(level))];
    if Points(level, e) then Missing(m, e.frame, pg, level - 1)
    else if e.p then 0 else level - 1
  }

  /** The page map of the tables rooted at `root`. */
  ghost function PageMap(m: Mem, root: Frame): imap<Page, Leaf> {
    imap pg: Page | View(m, root, pg, 4).Some? :: View(m, root, pg, 4).value
  }

  // ------------------------------------------------- locality of the walk

  /** A walk depends only on the slots it reads. */
  lemma {:induction false} SameWalk(m: Mem, m': Mem, f: Frame, pg: Page, level: int)
    requires 1 <= level <= 4
    requires forall s: Slot :: Visits(m, f, pg, level, s) ==> m'[s] == m[s]
    ensures View(m', f, pg, level) == View(m, f, pg, level)
    ensures Effective(m', f, pg, level) == Effective(m, f, pg, level)
    ensures Missing(m', f, pg, level) == Missing(m, f, pg, level)
    ensures forall s: Slot :: Visits(m', f, pg, level, s) <==> Visits(m, f, pg, level, s)
    decreases level
  {
    var here := Slot(f, pg.At(level));
    assert Visits(m, f, pg, level, here);
    if Points(level, m[here]) {
      SameWalk(m, m', m[here].frame, pg, level - 1);
    }
  }

  // ------------------------------------------------------- the tree shape

  /** A table frame is the root of an address space or the child of one slot. */
  datatype Node = Root | Child(level: int, up: Slot)

  function Level(n: Node): int {
    if n.Root? then 4 else n.level
  }

  type Forest = map<Frame, Node>

  /** Upper-level slots that belong to the forest.  In a root only the entries
      below `lim` do: user spaces share the others with the kernel. */
  predicate Owned(t: Forest, lim: int, s: Slot) {
    s.frame in t && Level(t[s.frame]) >= 2 && (t[s.frame].Root? ==> s.idx < lim)
  }

  /** Every table is reached through exactly one slot, and every owned slot that
      refers to a table refers to one of the forest, one level down. */
  ghost predicate Tree(m: Mem, t: Forest, lim: int) {
    && (forall f: Frame :: f in t && t[f].Child? ==> Hangs(m, t, lim, f))
    && (forall s: Slot :: Owned(t, lim, s) ==> Links(m, t, s))
  }

  ghost predicate Hangs(m: Mem, t: Forest, lim: int, f: Frame)
    requires f in t && t[f].Child?
  {
    var n := t[f];
    1 <= n.level <= 3 && Owned(t, lim, n.up) && Level(t[n.up.frame]) == n.level + 1
    && Points(n.level + 1, m[n.up]) && m[n.up].frame == f
  }

  ghost predicate Links(m: Mem, t: Forest, s: Slot)
    requires s.frame in t
  {
    var level := Level(t[s.frame]);
    Points(level, m[s]) ==> m[s].frame in t && t[m[s].frame] == Child(level - 1, s)
  }

  /** `f` is a table of the forest for `level`, and `pg` stays in the owned part. */
  ghost predicate In(t: Forest, lim: int, f: Frame, pg: Page, level: int) {
    f in t && Level(t[f]) == level && 1 <= level <= 4 && (t[f].Root? ==> pg.i4 < lim)
  }

  /** Below a table of the forest the walk stays in the forest, going down. */
  lemma Down(m: Mem, t: Forest, lim: int, f: Frame, pg: Page, level: int)
    requires Tree(m, t, lim) && In(t, lim, f, pg, level)
    ensures var s := Slot(f, pg.At(level));
            Points(level, m[s]) ==> In(t, lim, m[s].frame, pg, level - 1) && t[m[s].frame] == Child(level - 1, s)
  {
    var s := Slot(f, pg.At(level));
    if Points(level, m[s]) {
      assert Owned(t, lim, s);
      assert Links(m, t, s);
      assert Hangs(m, t, lim, m[s].frame);
    }
  }

  lemma {:induction false} VisitsInside(m: Mem, t: Forest, lim: int, f: Frame, pg: Page, level: int, s: Slot)
    requires Tree(m, t, lim) && In(t, lim, f, pg, level) && Visits(m, f, pg, level, s)
    ensures s.frame in t && 1 <= Level(t[s.frame]) <= level
    ensures s.idx == pg.At(Level(t[s.frame]))
    ensures t[s.frame].Root? ==> s.idx < lim
    decreases level
  {
    var here := Slot(f, pg.At(level));
    if s != here {
      Down(m, t, lim, f, pg, level);
      VisitsInside(m, t, lim, m[here].frame, pg, level - 1, s);
    }
  }

  /** Two walks that read the same slot have the same table and the same
      indices from that level up: each table is reached by one path. */
  lemma {:induction false} OnePath(m: Mem, t: Forest, lim: int, f: Frame, pg: Page, f': Frame, pg': Page, level: int,
                                   s: Slot)
    requires Tree(m, t, lim) && In(t, lim, f, pg, level) && In(t, lim, f', pg', level)
    requires Visits(m, f, pg, level, s) && Visits(m, f', pg', level, s)
    ensures f == f'
    ensures s.frame in t
    ensures forall l :: Level(t[s.frame]) <= l <= level ==> pg.At(l) == pg'.At(l)
    decreases level
  {
    var here, here' := Slot(f, pg.At(level)), Slot(f', pg'.At(level));
    VisitsInside(m, t, lim, f, pg, level, s);
    Down(m, t, lim, f, pg, level);
    Down(m, t, lim, f', pg', level);
    if s != here {
      VisitsInside(m, t, lim, m[here].frame, pg, level - 1, s);
      assert s != here';
      OnePath(m, t, lim, m[here].frame, pg, m[here'].frame, pg', level - 1, s);
    } else if s != here' {
      VisitsInside(m, t, lim, m[here'].frame, pg', level - 1, s);
      assert false;
    }
  }

  /** Walks that read the same table start from the same table. */
  lemma {:induction false} OneRoot(m: Mem, t: Forest, lim: int, f: Frame, pg: Page, f': Frame, pg': Page, level: int,
                                   s: Slot, s': Slot)
    requires Tree(m, t, lim) && In(t, lim, f, pg, level) && In(t, lim, f', pg', level)
    requires Visits(m, f, pg, level, s) && Visits(m, f', pg', level, s') && s.frame == s'.frame
    ensures f == f'
    decreases level
  {
    var here, here' := Slot(f, pg.At(level)), Slot(f', pg'.At(level));
    VisitsInside(m, t, lim, f, pg, level, s);
    Down(m, t, lim, f, pg, level);
    Down(m, t, lim, f', pg', level);
    if Level(t[s.frame]) < level {
      OneRoot(m, t, lim, m[here].frame, pg, m[here'].frame, pg', level - 1, s, s');
    } else {
      if s != here {
        VisitsInside(m, t, lim, m[here].frame, pg, level - 1, s);
      }
      if s' != here' {
        VisitsInside(m, t, lim, m[here'].frame, pg', level - 1, s');
      }
    }
  }

  /** A leaf slot belongs to one page of one root. */
  lemma OnePage(m: Mem, t: Forest, lim: int, r: Frame, pg: Page, r': Frame, pg': Page, s: Slot)
    requires Tree(m, t, lim) && In(t, lim, r, pg, 4) && In(t, lim, r', pg', 4)
    requires s.frame in t && Level(t[s.frame]) == 1
    requires Visits(m, r, pg, 4, s) && Visits(m, r', pg', 4, s)
    ensures r == r' && pg == pg'
  {
    OnePath(m, t, lim, r, pg, r', pg', 4, s);
    assert pg.At(1) == pg'.At(1) && pg.At(2) == pg'.At(2) && pg.At(3) == pg'.At(3) && pg.At(4) == pg'.At(4);
  }

  /** Reading slot `s` splits a walk: what is above `s` no longer matters. */
  lemma {:induction false} Suffix(m: Mem, t: Forest, lim: int, f: Frame, pg: Page, level: int, s: Slot)
    requires Tree(m, t, lim) && In(t, lim, f, pg, level) && Visits(m, f, pg, level, s)
    ensures s.frame in t && In(t, lim, s.frame, pg, Level(t[s.frame]))
    ensures View(m, f, pg, level) == View(m, s.frame, pg, Level(t[s.frame]))
    ensures Missing(m, f, pg, level) == Missing(m, s.frame, pg, Level(t[s.frame]))
    decreases level
  {
    VisitsInside(m, t, lim, f, pg, level, s);
    var here := Slot(f, pg.At(level));
    if s != here {
      Down(m, t, lim, f, pg, level);
      Suffix(m, t, lim, m[here].frame, pg, level - 1, s);
    }
  }

  lemma {:induction false} NextVisit(m: Mem, t: Forest, lim: int, f: Frame, pg: Page, level: int, s: Slot)
    requires Tree(m, t, lim) && In(t, lim, f, pg, level) && Visits(m, f, pg, level, s)
    requires s.frame in t && Points(Level(t[s.frame]), m[s])
    ensures Visits(m, f, pg, level, Slot(m[s].frame, pg.At(Level(t[s.frame]) - 1)))
    decreases level
  {
    var here := Slot(f, pg.At(level));
    if s != here {
      Down(m, t, lim, f, pg, level);
      NextVisit(m, t, lim, m[here].frame, pg, level - 1, s);
    }
  }

  // ------------------------------------------------------------- updates

  ghost predicate SameFrames(m: Mem, m': Mem, fs: set<Frame>) {
    forall s: Slot :: s.frame in fs ==> m'[s] == m[s]
  }

  /** Memory outside the tables does not matter. */
  lemma OutsideTree(m: Mem, m': Mem, t: Forest, lim: int)
    requires Tree(m, t, lim) && SameFrames(m, m', t.Keys)
    ensures Tree(m', t, lim)
  {
    forall f: Frame | f in t && t[f].Child?
      ensures Hangs(m', t, lim, f)
    {
      assert Hangs(m, t, lim, f);
    }
    forall s: Slot | Owned(t, lim, s)
      ensures Links(m', t, s)
    {
      assert Links(m, t, s);
    }
  }

  lemma OutsideWalk(m: Mem, m': Mem, t: Forest, lim: int, f: Frame, pg: Page, level: int)
    requires Tree(m, t, lim) && SameFrames(m, m', t.Keys) && In(t, lim, f, pg, level)
    ensures View(m', f, pg, level) == View(m, f, pg, level)
    ensures Missing(m', f, pg, level) == Missing(m, f, pg, level)
    ensures Effective(m', f, pg, level) == Effective(m, f, pg, level)
    ensures forall s: Slot :: Visits(m', f, pg, level, s) <==> Visits(m, f, pg, level, s)
  {
    forall s: Slot | Visits(m, f, pg, level, s)
      ensures m'[s] == m[s]
    {
      VisitsInside(m, t, lim, f, pg, level, s);
    }
    SameWalk(m, m', f, pg, level);
  }

  ghost predicate Blanked(m: Mem, c: Frame) {
    forall i: Index :: m[Slot(c, i)] == ZERO
  }

  /** Writing `e` into `s` hangs the blank frame `c` below it. */
  ghost predicate Linkable(m: Mem, t: Forest, lim: int, s: Slot, c: Frame, e: Pte) {
    Tree(m, t, lim) && Owned(t, lim, s) && !m[s].p && c !in t && Blanked(m, c) && e.p && !e.ps && e.frame == c
  }

  ghost function Grown(t: Forest, s: Slot, c: Frame): (t': Forest)
    requires s.frame in t
    ensures t'.Keys == t.Keys + {c}
  {
    t[c := Child(Level(t[s.frame]) - 1, s)]
  }

  lemma LinkTree(m: Mem, t: Forest, lim: int, s: Slot, c: Frame, e: Pte)
    requires Linkable(m, t, lim, s, c, e)
    ensures Tree(m[s := e], Grown(t, s, c), lim)
  {
    var m', t' := m[s := e], Grown(t, s, c);
    forall f: Frame | f in t' && t'[f].Child?
      ensures Hangs(m', t', lim, f)
    {
      if f != c {
        assert Hangs(m, t, lim, f);
        assert t[f].up != s;
      }
    }
    forall x: Slot | Owned(t', lim, x)
      ensures Links(m', t', x)
    {
      if x.frame == c {
        assert m'[x] == ZERO;
      } else if x != s {
        assert Links(m, t, x);
      }
    }
  }

  /** Hanging an empty table changes no translation. */
  lemma {:induction false} LinkWalk(m: Mem, t: Forest, lim: int, s: Slot, c: Frame, e: Pte, f: Frame, pg: Page,
                                    level: int)
    requires Linkable(m, t, lim, s, c, e) && In(t, lim, f, pg, level)
    ensures View(m[s := e], f, pg, level) == View(m, f, pg, level)
    ensures Missing(m[s := e], f, pg, level) ==
            Missing(m, f, pg, level) - (if Visits(m, f, pg, level, s) then 1 else 0)
    ensures forall x: Slot :: Visits(m, f, pg, level, x) ==> Visits(m[s := e], f, pg, level, x)
    decreases level
  {
    var here := Slot(f, pg.At(level));
    Down(m, t, lim, f, pg, level);
    if here == s {
      assert m[s := e][Slot(c, pg.At(level - 1))] == ZERO;
    } else if Points(level, m[here]) {
      LinkWalk(m, t, lim, s, c, e, m[here].frame, pg, level - 1);
    }
  }

  ghost predicate LeafSlot(t: Forest, s: Slot) {
    s.frame in t && Level(t[s.frame]) == 1
  }

  lemma LeafTree(m: Mem, t: Forest, lim: int, s: Slot, e: Pte)
    requires Tree(m, t, lim) && LeafSlot(t, s)
    ensures Tree(m[s := e], t, lim)
  {
    var m' := m[s := e];
    forall f: Frame | f in t && t[f].Child?
      ensures Hangs(m', t, lim, f)
    {
      assert Hangs(m, t, lim, f);
    }
    forall x: Slot | Owned(t, lim, x)
      ensures Links(m', t, x)
    {
      assert Links(m, t, x);
    }
  }

  lemma {:induction false} StillVisits(m: Mem, f: Frame, pg: Page, level: int, s: Slot, e: Pte)
    requires 1 <= level <= 4 && Visits(m, f, pg, level, s)
    ensures Visits(m[s := e], f, pg, level, s)
    decreases level
  {
    var here := Slot(f, pg.At(level));
    if here != s {
      StillVisits(m, m[here].frame, pg, level - 1, s, e);
    }
  }

  /** Writing a leaf entry sets the translation of the page that reads it ... */
  lemma LeafHit(m: Mem, t: Forest, lim: int, s: Slot, e: Pte, r: Frame, pg: Page)
    requires Tree(m, t, lim) && LeafSlot(t, s) && In(t, lim, r, pg, 4) && Visits(m, r, pg, 4, s)
    ensures View(m[s := e], r, pg, 4) == if e.p then Some(Leaf(1, e)) else None
  {
    LeafTree(m, t, lim, s, e);
    StillVisits(m, r, pg, 4, s, e);
    VisitsInside(m[s := e], t, lim, r, pg, 4, s);
    Suffix(m[s := e], t, lim, r, pg, 4, s);
  }

  /** ... and of no other page, in this space or in any other. */
  lemma LeafMiss(m: Mem, t: Forest, lim: int, s: Slot, e: Pte, r: Frame, pg: Page, r': Frame, pg': Page)
    requires Tree(m, t, lim) && LeafSlot(t, s) && In(t, lim, r, pg, 4) && Visits(m, r, pg, 4, s)
    requires In(t, lim, r', pg', 4) && (r', pg') != (r, pg)
    ensures View(m[s := e], r', pg', 4) == View(m, r', pg', 4)
    ensures Effective(m[s := e], r', pg', 4) == Effective(m, r', pg', 4)
  {
    if Visits(m, r', pg', 4, s) {
      OnePage(m, t, lim, r, pg, r', pg', s);
    }
    SameWalk(m, m[s := e], r', pg', 4);
  }

  /** A mapped page does not read the slot a new table is hung below. */
  lemma LinkMapped(m: Mem, t: Forest, lim: int, s: Slot, c: Frame, e: Pte, f: Frame, pg: Page, level: int)
    requires Linkable(m, t, lim, s, c, e) && In(t, lim, f, pg, level) && View(m, f, pg, level).Some?
    ensures !Visits(m, f, pg, level, s)
    ensures Effective(m[s := e], f, pg, level) == Effective(m, f, pg, level)
  {
    if Visits(m, f, pg, level, s) {
      Suffix(m, t, lim, f, pg, level, s);
      VisitsInside(m, t, lim, f, pg, level, s);
      assert false;
    }
    SameWalk(m, m[s := e], f, pg, level);
  }

  // ------------------------------------------------- steps of a mapping call

  /** What an absent, or a present, entry on the walk for `pg` says of its
      translation. */
  lemma Present(m: Mem, t: Forest, lim: int, s: Slot, root: Frame, pg: Page, level: int)
    requires Tree(m, t, lim) && In(t, lim, root, pg, 4)
    requires In(t, lim, s.frame, pg, level) && s.idx == pg.At(level) && Visits(m, root, pg, 4, s)
    ensures !m[s].p ==> View(m, root, pg, 4) == None && Missing(m, root, pg, 4) == level - 1
    ensures m[s].p && !Points(level, m[s]) ==>
            View(m, root, pg, 4) == Some(Leaf(level, m[s])) && Missing(m, root, pg, 4) == 0
  {
    Suffix(m, t, lim, root, pg, 4, s);
  }

  lemma {:induction false} MissingBound(m: Mem, f: Frame, pg: Page, level: int)
    requires 1 <= level <= 4
    ensures Missing(m, f, pg, level) <= level - 1
    decreases level
  {
    var e := m[Slot(f, pg.At(level))];
    if Points(level, e) {
      MissingBound(m, e.frame, pg, level - 1);
    }
  }

  /** Following an entry that refers to a table stays on the walk. */
  lemma Followed(m: Mem, t: Forest, lim: int, s: Slot, root: Frame, pg: Page, level: int)
    requires Tree(m, t, lim) && In(t, lim, root, pg, 4)
    requires s.frame in t && Level(t[s.frame]) == level && Points(level, m[s]) && Visits(m, root, pg, 4, s)
    ensures In(t, lim, m[s].frame, pg, level - 1)
    ensures Visits(m, root, pg, 4, Slot(m[s].frame, pg.At(level - 1)))
    ensures Missing(m, root, pg, 4) <= level - 2
  {
    VisitsInside(m, t, lim, root, pg, 4, s);
    NextVisit(m, t, lim, root, pg, 4, s);
    Down(m, t, lim, s.frame, pg, level);
    Suffix(m, t, lim, root, pg, 4, Slot(m[s].frame, pg.At(level - 1)));
    MissingBound(m, m[s].frame, pg, level - 1);
  }

  /** A new table lies on the walk that made it, and one less is missing. */
  lemma LinkReached(m0: Mem, m1: Mem, t: Forest, lim: int, s: Slot, c: Frame, e: Pte, root: Frame, pg: Page)
    requires Tree(m0, t, lim) && SameFrames(m0, m1, t.Keys) && Linkable(m1, t, lim, s, c, e)
    requires In(t, lim, root, pg, 4) && Visits(m0, root, pg, 4, s)
    ensures Visits(m1[s := e], root, pg, 4, s)
    ensures Missing(m1[s := e], root, pg, 4) == Missing(m0, root, pg, 4) - 1
  {
    OutsideWalk(m0, m1, t, lim, root, pg, 4);
    LinkWalk(m1, t, lim, s, c, e, root, pg, 4);
  }

  /** How many of the three upper indices two pages share, from the top. */
  function Shared(a: Page, b: Page): int {
    if a.i4 != b.i4 then 0 else if a.i3 != b.i3 then 1 else if a.i2 != b.i2 then 2 else 3
  }

  function Min(a: int, b: int): int {
    if a < b then a else b
  }

  lemma {:induction false} SamePrefix(m: Mem, t: Forest, lim: int, f: Frame, pg: Page, pg': Page, level: int, s: Slot)
    requires Tree(m, t, lim) && In(t, lim, f, pg, level) && In(t, lim, f, pg', level) && Visits(m, f, pg, level, s)
    requires s.frame in t && forall l :: Level(t[s.frame]) <= l <= level ==> pg.At(l) == pg'.At(l)
    ensures Visits(m, f, pg', level, s)
    decreases level
  {
    var here := Slot(f, pg.At(level));
    VisitsInside(m, t, lim, f, pg, level, s);
    if s != here {
      Down(m, t, lim, f, pg, level);
      SamePrefix(m, t, lim, m[here].frame, pg, pg', level - 1, s);
    }
  }

  /** The pages that read an upper slot are those that share its path. */
  lemma WhoVisits(m: Mem, t: Forest, lim: int, root: Frame, pg: Page, pg': Page, s: Slot, level: int)
    requires Tree(m, t, lim) && In(t, lim, root, pg, 4) && In(t, lim, root, pg', 4) && Visits(m, root, pg, 4, s)
    requires s.frame in t && Level(t[s.frame]) == level && 2 <= level <= 4
    ensures Visits(m, root, pg', 4, s) <==> Shared(pg, pg') > 4 - level
  {
    if Shared(pg, pg') > 4 - level {
      SamePrefix(m, t, lim, root, pg, pg', 4, s);
    }
    if Visits(m, root, pg', 4, s) {
      OnePath(m, t, lim, root, pg, root, pg', 4, s);
      assert pg.At(4) == pg'.At(4) && (level <= 3 ==> pg.At(3) == pg'.At(3)) && (level <= 2 ==> pg.At(2) == pg'.At(2));
    }
  }

  /** The effect of having the table below an entry of `pg`'s walk at `level`:
      pages that share the path so far miss at most `level - 2` tables. */
  ghost predicate TablesBelow(m: Mem, m': Mem, root: Frame, lim: int, pg: Page, level: int) {
    forall pg': Page :: pg'.i4 < lim ==>
      Missing(m', root, pg', 4) ==
      if Shared(pg, pg') > 4 - level then Min(Missing(m, root, pg', 4), level - 2) else Missing(m, root, pg', 4)
  }

  lemma LinkTablesBelow(m0: Mem, m1: Mem, t: Forest, lim: int, s: Slot, c: Frame, e: Pte, root: Frame, pg: Page,
                        level: int)
    requires Tree(m0, t, lim) && SameFrames(m0, m1, t.Keys) && Linkable(m1, t, lim, s, c, e)
    requires In(t, lim, root, pg, 4) && Visits(m0, root, pg, 4, s) && Level(t[s.frame]) == level
    ensures TablesBelow(m0, m1[s := e], root, lim, pg, level)
  {
    VisitsInside(m0, t, lim, root, pg, 4, s);
    forall pg': Page | pg'.i4 < lim
      ensures Missing(m1[s := e], root, pg', 4) ==
              if Shared(pg, pg') > 4 - level then Min(Missing(m0, root, pg', 4), level - 2)
                else Missing(m0, root, pg', 4)
    {
      OutsideWalk(m0, m1, t, lim, root, pg', 4);
      LinkWalk(m1, t, lim, s, c, e, root, pg', 4);
      WhoVisits(m0, t, lim, root, pg, pg', s, level);
      if Visits(m0, root, pg', 4, s) {
        Suffix(m0, t, lim, root, pg', 4, s);
        VisitsInside(m0, t, lim, root, pg', 4, s);
      }
    }
  }

  lemma FollowTablesBelow(m: Mem, t: Forest, lim: int, s: Slot, root: Frame, pg: Page, level: int)
    requires Tree(m, t, lim) && In(t, lim, root, pg, 4) && Visits(m, root, pg, 4, s)
    requires s.frame in t && Level(t[s.frame]) == level && Points(level, m[s])
    ensures TablesBelow(m, m, root, lim, pg, level)
  {
    VisitsInside(m, t, lim, root, pg, 4, s);
    forall pg': Page | pg'.i4 < lim && Shared(pg, pg') > 4 - level
      ensures Missing(m, root, pg', 4) <= level - 2
    {
      WhoVisits(m, t, lim, root, pg, pg', s, level);
      Followed(m, t, lim, s, root, pg', level);
    }
  }

  /** Mapping `pg` makes exactly the tables of its own path. */
  ghost predicate TablesMade(m: Mem, m': Mem, root: Frame, lim: int, pg: Page) {
    forall pg': Page :: pg'.i4 < lim ==>
      Missing(m', root, pg', 4) == Min(Missing(m, root, pg', 4), 3 - Shared(pg, pg'))
  }

  lemma ThreeTables(m0: Mem, m1: Mem, m2: Mem, m3: Mem, root: Frame, lim: int, pg: Page)
    requires TablesBelow(m0, m1, root, lim, pg, 4) && TablesBelow(m1, m2, root, lim, pg, 3)
    requires TablesBelow(m2, m3, root, lim, pg, 2)
    ensures TablesMade(m0, m3, root, lim, pg)
    ensures pg.i4 < lim ==> Missing(m3, root, pg, 4) == 0
  {
    forall pg': Page | pg'.i4 < lim
      ensures Missing(m3, root, pg', 4) == Min(Missing(m0, root, pg', 4), 3 - Shared(pg, pg'))
    {
      MissingBound(m0, root, pg', 4);
    }
  }

  lemma {:induction false} LeafMissing(m: Mem, t: Forest, lim: int, s: Slot, e: Pte, f: Frame, pg: Page, level: int)
    requires Tree(m, t, lim) && LeafSlot(t, s) && In(t, lim, f, pg, level)
    ensures Missing(m[s := e], f, pg, level) == Missing(m, f, pg, level)
    decreases level
  {
    var here := Slot(f, pg.At(level));
    if Points(level, m[here]) {
      Down(m, t, lim, f, pg, level);
      LeafMissing(m, t, lim, s, e, m[here].frame, pg, level - 1);
    }
  }

  lemma LeafTables(m0: Mem, m: Mem, t: Forest, lim: int, s: Slot, e: Pte, root: Frame, pg: Page)
    requires Tree(m, t, lim) && LeafSlot(t, s) && root in t && t[root] == Root
    requires TablesMade(m0, m, root, lim, pg)
    ensures TablesMade(m0, m[s := e], root, lim, pg)
  {
    forall pg': Page | pg'.i4 < lim
      ensures Missing(m[s := e], root, pg', 4) == Missing(m, root, pg', 4)
    {
      LeafMissing(m, t, lim, s, e, root, pg', 4);
    }
  }
}
