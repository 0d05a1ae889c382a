/** Separate user address spaces (os/kernel/mm/user_as.c), as a value: what the
    page tables of all spaces say together, and what keeps them apart.

    Every user PML4 is the root of its own tree below entries 0-255; entries
    256-511 are copies of a template and lead into the kernel's tables. */
module Spaces {
  import opened PageTables

  const LOW := 256

  // ------------------------------------------------------------ kernel half

  /** A table of the kernel half, with a level at which it is used.  Kernel
      tables may be shared between levels and paths. */
  datatype Tab = Tab(frame: Frame, level: int)

  ghost predicate KernelClosed(m: Mem, k: set<Tab>) {
    && (forall x :: x in k ==> 1 <= x.level <= 3)
    && (forall x, i: Index :: x in k && Points(x.level, m[Slot(x.frame, i)]) ==>
          Tab(m[Slot(x.frame, i)].frame, x.level - 1) in k)
  }

  /** The high entries of PML4 `f` lead into the kernel's tables. */
  ghost predicate HighClosed(m: Mem, k: set<Tab>, f: Frame) {
    forall i: Index :: LOW <= i && Points(4, m[Slot(f, i)]) ==> Tab(m[Slot(f, i)].frame, 3) in k
  }

  ghost function FramesOf(k: set<Tab>): set<Frame> {
    set x | x in k :: x.frame
  }

  /** What the kernel half reached from PML4 `f` says. */
  ghost function High(m: Mem, f: Frame): imap<Page, (Leaf, Rights)> {
    imap pg: Page | LOW <= pg.i4 && View(m, f, pg, 4).Some? :: (View(m, f, pg, 4).value, Effective(m, f, pg, 4))
  }

  lemma {:induction false} KernelWalk(m: Mem, m': Mem, k: set<Tab>, f: Frame, pg: Page, level: int)
    requires KernelClosed(m, k) && Tab(f, level) in k && SameFrames(m, m', FramesOf(k))
    ensures 1 <= level <= 3
    ensures View(m', f, pg, level) == View(m, f, pg, level)
    ensures Effective(m', f, pg, level) == Effective(m, f, pg, level)
    decreases level
  {
    var here := Slot(f, pg.At(level));
    assert f in FramesOf(k) by { assert Tab(f, level).frame == f; }
    if Points(level, m[here]) {
      KernelWalk(m, m', k, m[here].frame, pg, level - 1);
    }
  }

  ghost predicate SameHigh(m: Mem, f: Frame, m': Mem, f': Frame) {
    forall i: Index :: LOW <= i ==> m'[Slot(f', i)] == m[Slot(f, i)]
  }

  /** PML4s with the same high entries have the same kernel half. */
  lemma KernelShared(m: Mem, m': Mem, k: set<Tab>, f: Frame, f': Frame)
    requires KernelClosed(m, k) && HighClosed(m, k, f) && SameFrames(m, m', FramesOf(k)) && SameHigh(m, f, m', f')
    ensures High(m', f') == High(m, f)
  {
    forall pg: Page | LOW <= pg.i4
      ensures View(m', f', pg, 4) == View(m, f, pg, 4) && Effective(m', f', pg, 4) == Effective(m, f, pg, 4)
    {
      var e := m[Slot(f, pg.At(4))];
      assert m'[Slot(f', pg.At(4))] == e;
      if Points(4, e) {
        KernelWalk(m, m', k, e.frame, pg, 3);
      }
    }
  }

  // ------------------------------------------------------------- low halves

  /** A page of a user space. */
  datatype Key = Key(root: Frame, pg: Page)

  /** A mapped page: leaf level, frame, and the rights the walk leaves. */
  datatype Mapping = Mapping(level: int, frame: Frame, rights: Rights)

  ghost predicate IsKey(t: Forest, k: Key) {
    k.root in t && t[k.root].Root? && k.pg.i4 < LOW
  }

  ghost function Roots(t: Forest): set<Frame> {
    set f | f in t && t[f].Root?
  }

  ghost function MappingAt(m: Mem, k: Key): Mapping
    requires View(m, k.root, k.pg, 4).Some?
  {
    var leaf := View(m, k.root, k.pg, 4).value;
    Mapping(leaf.level, leaf.e.frame, Effective(m, k.root, k.pg, 4))
  }

  /** The low halves of all spaces. */
  ghost function Low(m: Mem, t: Forest): imap<Key, Mapping> {
    imap k: Key | IsKey(t, k) && View(m, k.root, k.pg, 4).Some? :: MappingAt(m, k)
  }

  /** Upper entries of the low halves let users read, write and execute. */
  ghost predicate Open(m: Mem, t: Forest) {
    forall s: Slot :: Owned(t, LOW, s) && m[s].p ==> OpenEntry(m[s])
  }

  predicate OpenEntry(e: Pte) {
    e.w && e.u && !e.nx && !e.ps
  }

  ghost predicate Shape(m: Mem, t: Forest) {
    Tree(m, t, LOW) && Open(m, t)
  }

  /** The frames of user tables, of kernel tables, of the template and of the
      allocator do not overlap. */
  ghost predicate Apart(t: Forest, k: set<Tab>, template: Frame, avail: set<int>) {
    && (forall f :: f in t ==> f !in avail && f !in FramesOf(k) && f != template)
    && (forall f :: f in FramesOf(k) ==> f !in avail)
    && template !in avail
  }

  /** All spaces share the kernel half. */
  ghost predicate KernelOk(m: Mem, t: Forest, k: set<Tab>, template: Frame) {
    && KernelClosed(m, k) && HighClosed(m, k, template)
    && (forall f :: f in Roots(t) ==> SameHigh(m, template, m, f))
  }

  /** The tables of all user spaces are as this file builds them. */
  ghost predicate Good(m: Mem, t: Forest, k: set<Tab>, template: Frame, avail: set<int>) {
    Shape(m, t) && Apart(t, k, template, avail) && KernelOk(m, t, k, template)
  }

  /** A copy of the active PML4's high entries is a template for no spaces yet. */
  lemma TemplateGood(m: Mem, m': Mem, k: set<Tab>, current: Frame, template: Frame, avail: set<int>)
    requires KernelClosed(m, k) && HighClosed(m, k, current) && SameFrames(m, m', FramesOf(k))
    requires SameHigh(m, current, m', template)
    requires template !in avail && forall f :: f in FramesOf(k) ==> f !in avail
    ensures Good(m', map[], k, template, avail)
    ensures High(m', template) == High(m, current) && Low(m', map[]) == imap[]
  {
    KernelShared(m, m', k, current, template);
    forall x, i: Index | x in k
      ensures m'[Slot(x.frame, i)] == m[Slot(x.frame, i)]
    {
      assert x.frame in FramesOf(k);
    }
  }

  /** Writes below the kernel half do not show in it. */
  lemma KernelKeeps(m: Mem, m': Mem, t: Forest, t': Forest, k: set<Tab>, template: Frame)
    requires KernelOk(m, t, k, template) && SameFrames(m, m', FramesOf(k)) && SameHigh(m, template, m', template)
    requires Roots(t') == Roots(t) && forall f :: f in Roots(t) ==> SameHigh(m, f, m', f)
    ensures KernelOk(m', t', k, template) && High(m', template) == High(m, template)
  {
    KernelShared(m, m', k, template, template);
    forall x, i: Index | x in k
      ensures m'[Slot(x.frame, i)] == m[Slot(x.frame, i)]
    {
      assert x.frame in FramesOf(k);
    }
    forall f | f in Roots(t')
      ensures SameHigh(m', template, m', f)
    {
      assert SameHigh(m, template, m, f) && SameHigh(m, f, m', f);
    }
  }

  /** Only table frames were written, and the frames taken from the allocator
      are exactly the new tables. */
  ghost predicate WroteTables(m: Mem, m': Mem, t: Forest, t': Forest, avail: set<int>, avail': set<int>) {
    && t.Keys <= t'.Keys && avail' <= avail
    && t'.Keys + avail' == t.Keys + avail
    && (forall s: Slot :: s.frame !in t' ==> m'[s] == m[s])
  }

  lemma WroteNothing(m: Mem, t: Forest, avail: set<int>)
    ensures WroteTables(m, m, t, t, avail, avail)
  {
  }

  lemma WroteLink(m: Mem, m1: Mem, t: Forest, avail: set<int>, s: Slot, c: Frame, e: Pte)
    requires s.frame in t && c in avail && forall x: Slot :: x.frame != c ==> m1[x] == m[x]
    ensures WroteTables(m, m1[s := e], t, Grown(t, s, c), avail, avail - {c})
  {
  }

  lemma WroteLeaf(m: Mem, m': Mem, t: Forest, t': Forest, avail: set<int>, avail': set<int>, s: Slot, e: Pte)
    requires WroteTables(m, m', t, t', avail, avail') && s.frame in t'
    ensures WroteTables(m, m'[s := e], t, t', avail, avail')
  {
  }

  lemma WroteThen(m: Mem, m1: Mem, m2: Mem, t: Forest, t1: Forest, t2: Forest, avail: set<int>, avail1: set<int>,
                  avail2: set<int>)
    requires WroteTables(m, m1, t, t1, avail, avail1) && WroteTables(m1, m2, t1, t2, avail1, avail2)
    ensures WroteTables(m, m2, t, t2, avail, avail2)
  {
  }

  ghost predicate EmptyRoot(m: Mem, r: Frame) {
    forall i: Index :: i < LOW ==> m[Slot(r, i)] == ZERO
  }

  // ------------------------------------------ tables that spaces still miss

  /** Spaces other than `root` miss the tables they missed. */
  ghost predicate OthersKept(m: Mem, m': Mem, users: set<Frame>, root: Frame) {
    forall r, pg: Page :: r in users && r != root && pg.i4 < LOW ==> Missing(m', r, pg, 4) == Missing(m, r, pg, 4)
  }

  /** Some tables may have been made in `root`, but none of the lowest level. */
  ghost predicate PartMade(m: Mem, m': Mem, root: Frame) {
    forall pg: Page :: pg.i4 < LOW ==>
      && Missing(m', root, pg, 4) <= Missing(m, root, pg, 4)
      && (Missing(m', root, pg, 4) == 0 <==> Missing(m, root, pg, 4) == 0)
  }

  lemma NothingMade(m: Mem, users: set<Frame>, root: Frame)
    ensures OthersKept(m, m, users, root) && PartMade(m, m, root)
  {
  }

  lemma OthersThen(m: Mem, m1: Mem, m2: Mem, users: set<Frame>, root: Frame)
    requires OthersKept(m, m1, users, root) && OthersKept(m1, m2, users, root)
    ensures OthersKept(m, m2, users, root)
  {
    hide Missing;
  }

  lemma PartThen(m: Mem, m1: Mem, m2: Mem, root: Frame)
    requires PartMade(m, m1, root) && PartMade(m1, m2, root)
    ensures PartMade(m, m2, root)
  {
    hide Missing;
  }

  /** Above the lowest level a new table leaves every page missing one. */
  lemma UpperPart(m: Mem, m': Mem, root: Frame, pg: Page, level: int)
    requires level >= 3 && TablesBelow(m, m', root, LOW, pg, level)
    ensures PartMade(m, m', root)
  {
    hide Missing, Shared;
  }

  /** A slot on a walk from `root` is on no other space's walk. */
  lemma LinkOthers(m0: Mem, m1: Mem, t: Forest, s: Slot, c: Frame, e: Pte, root: Frame, pg: Page)
    requires Tree(m0, t, LOW) && SameFrames(m0, m1, t.Keys) && Linkable(m1, t, LOW, s, c, e)
    requires In(t, LOW, root, pg, 4) && Visits(m0, root, pg, 4, s)
    ensures OthersKept(m0, m1[s := e], Roots(t), root)
  {
    hide Missing, Visits;
    forall r, pg': Page | r in Roots(t) && r != root && pg'.i4 < LOW
      ensures Missing(m1[s := e], r, pg', 4) == Missing(m0, r, pg', 4)
    {
      OutsideWalk(m0, m1, t, LOW, r, pg', 4);
      LinkWalk(m1, t, LOW, s, c, e, r, pg', 4);
      if Visits(m0, r, pg', 4, s) {
        OnePath(m0, t, LOW, root, pg, r, pg', 4, s);
      }
    }
  }

  lemma LeafOthers(m: Mem, t: Forest, s: Slot, e: Pte, root: Frame)
    requires Tree(m, t, LOW) && LeafSlot(t, s)
    ensures OthersKept(m, m[s := e], Roots(t), root)
  {
    hide Missing;
    forall r, pg: Page | r in Roots(t) && r != root && pg.i4 < LOW
      ensures Missing(m[s := e], r, pg, 4) == Missing(m, r, pg, 4)
    {
      LeafMissing(m, t, LOW, s, e, r, pg, 4);
    }
  }

  lemma OutsideOthers(m: Mem, m': Mem, t: Forest, root: Frame)
    requires Tree(m, t, LOW) && SameFrames(m, m', t.Keys)
    ensures OthersKept(m, m', Roots(t), root)
  {
    hide Missing;
    forall r, pg: Page | r in Roots(t) && r != root && pg.i4 < LOW
      ensures Missing(m', r, pg, 4) == Missing(m, r, pg, 4)
    {
      OutsideWalk(m, m', t, LOW, r, pg, 4);
    }
  }

  /** A frame that is neither a table nor with the allocator is left alone. */
  lemma WroteSpares(m: Mem, m': Mem, t: Forest, t': Forest, avail: set<int>, avail': set<int>, c: Frame)
    requires WroteTables(m, m', t, t', avail, avail') && c !in t && c !in avail
    ensures c !in t' && c !in avail' && SameFrames(m, m', {c})
  {
    assert c !in t'.Keys + avail';
  }

  lemma WroteFrames(m: Mem, m': Mem, t: Forest, t': Forest, avail: set<int>, avail': set<int>)
    requires WroteTables(m, m', t, t', avail, avail')
    ensures t.Keys <= t'.Keys && avail' <= avail && t'.Keys + avail' == t.Keys + avail
  {
  }

  lemma EmptyStays(m: Mem, m': Mem, r: Frame, c: Frame)
    requires EmptyRoot(m, r) && r != c && forall s: Slot :: s.frame != c ==> m'[s] == m[s]
    ensures EmptyRoot(m', r)
  {
  }

  lemma StillBlank(m: Mem, m': Mem, c: Frame, d: Frame)
    requires Blanked(m, c) && c != d && forall s: Slot :: s.frame != d ==> m'[s] == m[s]
    ensures Blanked(m', c)
  {
  }

  lemma EmptyMisses(m: Mem, r: Frame, pg: Page)
    requires EmptyRoot(m, r) && pg.i4 < LOW
    ensures Missing(m, r, pg, 4) == 3 && View(m, r, pg, 4) == None
  {
    assert m[Slot(r, pg.At(4))] == ZERO;
  }

  ghost predicate Untouched(m: Mem, m': Mem, t: Forest, k: set<Tab>, template: Frame) {
    SameFrames(m, m', t.Keys) && SameFrames(m, m', FramesOf(k)) && SameFrames(m, m', {template})
  }

  /** Other frames may be written, and taken from the allocator, at will. */
  lemma OutsideKeeps(m: Mem, m': Mem, t: Forest, k: set<Tab>, template: Frame, avail: set<int>, avail': set<int>)
    requires Good(m, t, k, template, avail) && Untouched(m, m', t, k, template) && avail' <= avail
    ensures Good(m', t, k, template, avail')
    ensures Low(m', t) == Low(m, t) && High(m', template) == High(m, template)
  {
    OutsideTree(m, m', t, LOW);
    KernelKeeps(m, m', t, t, k, template);
    forall key: Key | IsKey(t, key)
      ensures View(m', key.root, key.pg, 4) == View(m, key.root, key.pg, 4)
      ensures Effective(m', key.root, key.pg, 4) == Effective(m, key.root, key.pg, 4)
    {
      OutsideWalk(m, m', t, LOW, key.root, key.pg, 4);
    }
  }

  lemma RootShape(m: Mem, t: Forest, r: Frame)
    requires Shape(m, t) && r !in t && EmptyRoot(m, r)
    ensures Shape(m, t[r := Root])
  {
    var t' := t[r := Root];
    forall f: Frame | f in t' && t'[f].Child?
      ensures Hangs(m, t', LOW, f)
    {
      assert Hangs(m, t, LOW, f);
    }
    assert forall s: Slot :: s.frame == r && s.idx < LOW ==> m[s] == m[Slot(r, s.idx)] == ZERO;
    forall s: Slot | Owned(t', LOW, s)
      ensures Links(m, t', s) && (m[s].p ==> OpenEntry(m[s]))
    {
      if s.frame != r {
        assert Owned(t, LOW, s) && Links(m, t, s);
      }
    }
  }

  /** A cleared frame with the template's high entries is a new, empty space. */
  lemma RootKeeps(m: Mem, t: Forest, k: set<Tab>, template: Frame, avail: set<int>, r: Frame)
    requires Good(m, t, k, template, avail)
    requires r !in t && r !in avail && r !in FramesOf(k) && r != template
    requires SameHigh(m, template, m, r) && EmptyRoot(m, r)
    ensures Good(m, t[r := Root], k, template, avail)
    ensures Low(m, t[r := Root]) == Low(m, t) && Roots(t[r := Root]) == Roots(t) + {r} && r !in Roots(t)
  {
    hide Shape, KernelClosed, HighClosed, Low, Roots, EmptyRoot;
    RootShape(m, t, r);
    RootLow(m, t, r);
  }

  lemma RootLow(m: Mem, t: Forest, r: Frame)
    requires r !in t && EmptyRoot(m, r)
    ensures Low(m, t[r := Root]) == Low(m, t) && Roots(t[r := Root]) == Roots(t) + {r} && r !in Roots(t)
  {
    hide View;
    forall pg: Page | pg.i4 < LOW
      ensures View(m, r, pg, 4) == None
    {
      EmptyMisses(m, r, pg);
    }
  }

  lemma LinkShape(m: Mem, t: Forest, s: Slot, c: Frame, e: Pte)
    requires Shape(m, t) && Linkable(m, t, LOW, s, c, e) && OpenEntry(e)
    ensures Shape(m[s := e], Grown(t, s, c)) && Roots(Grown(t, s, c)) == Roots(t)
  {
    var m', t' := m[s := e], Grown(t, s, c);
    LinkTree(m, t, LOW, s, c, e);
    assert forall x: Slot :: x.frame == c ==> m'[x] == m[Slot(c, x.idx)] == ZERO;
    assert forall x: Slot :: Owned(t', LOW, x) && x.frame != c ==> Owned(t, LOW, x);
  }

  lemma LinkLow(m: Mem, t: Forest, s: Slot, c: Frame, e: Pte)
    requires Linkable(m, t, LOW, s, c, e) && Roots(Grown(t, s, c)) == Roots(t)
    ensures Low(m[s := e], Grown(t, s, c)) == Low(m, t)
  {
    var m', t' := m[s := e], Grown(t, s, c);
    forall key: Key
      ensures IsKey(t', key) <==> IsKey(t, key)
    {
      assert key.root in Roots(t') <==> key.root in Roots(t);
    }
    forall key: Key | IsKey(t, key)
      ensures View(m', key.root, key.pg, 4) == View(m, key.root, key.pg, 4)
      ensures View(m, key.root, key.pg, 4).Some? ==>
              Effective(m', key.root, key.pg, 4) == Effective(m, key.root, key.pg, 4)
    {
      LinkWalk(m, t, LOW, s, c, e, key.root, key.pg, 4);
      if View(m, key.root, key.pg, 4).Some? {
        LinkMapped(m, t, LOW, s, c, e, key.root, key.pg, 4);
      }
    }
  }

  /** Hanging an empty open table below an absent slot changes no mapping. */
  lemma LinkKeeps(m: Mem, t: Forest, k: set<Tab>, template: Frame, avail: set<int>, s: Slot, c: Frame, e: Pte)
    requires Good(m, t, k, template, avail) && Linkable(m, t, LOW, s, c, e) && OpenEntry(e)
    requires c !in avail && c !in FramesOf(k) && c != template
    ensures Good(m[s := e], Grown(t, s, c), k, template, avail)
    ensures Low(m[s := e], Grown(t, s, c)) == Low(m, t) && High(m[s := e], template) == High(m, template)
  {
    hide Low, High, Tree, Open, KernelOk, View, Effective;
    LinkShape(m, t, s, c, e);
    LinkLow(m, t, s, c, e);
    KernelKeeps(m, m[s := e], t, Grown(t, s, c), k, template);
  }

  /** Below open tables the rights of a page are those of its leaf. */
  lemma {:induction false} OpenRights(m: Mem, t: Forest, f: Frame, pg: Page, level: int, s: Slot)
    requires Tree(m, t, LOW) && Open(m, t) && In(t, LOW, f, pg, level)
    requires LeafSlot(t, s) && Visits(m, f, pg, level, s)
    ensures Effective(m, f, pg, level) == Rights(m[s].w, m[s].u, m[s].nx)
    decreases level
  {
    var here := Slot(f, pg.At(level));
    if here != s {
      Down(m, t, LOW, f, pg, level);
      assert Owned(t, LOW, here);
      OpenRights(m, t, m[here].frame, pg, level - 1, s);
    }
  }

  lemma LeafLow(m: Mem, t: Forest, s: Slot, e: Pte, key: Key)
    requires Shape(m, t) && e.p && IsKey(t, key) && LeafSlot(t, s) && Visits(m, key.root, key.pg, 4, s)
    ensures Shape(m[s := e], t)
    ensures Low(m[s := e], t) == Low(m, t)[key := Mapping(1, e.frame, Rights(e.w, e.u, e.nx))]
  {
    var m' := m[s := e];
    LeafTree(m, t, LOW, s, e);
    LeafHit(m, t, LOW, s, e, key.root, key.pg);
    StillVisits(m, key.root, key.pg, 4, s, e);
    OpenRights(m', t, key.root, key.pg, 4, s);
    forall key': Key | IsKey(t, key') && key' != key
      ensures View(m', key'.root, key'.pg, 4) == View(m, key'.root, key'.pg, 4)
      ensures Effective(m', key'.root, key'.pg, 4) == Effective(m, key'.root, key'.pg, 4)
    {
      LeafMiss(m, t, LOW, s, e, key.root, key.pg, key'.root, key'.pg);
    }
  }

  /** Storing a leaf changes the mapping of its page, in its space, only. */
  lemma LeafKeeps(m: Mem, t: Forest, k: set<Tab>, template: Frame, avail: set<int>, s: Slot, e: Pte, key: Key)
    requires Good(m, t, k, template, avail) && e.p
    requires IsKey(t, key) && LeafSlot(t, s) && Visits(m, key.root, key.pg, 4, s)
    ensures Good(m[s := e], t, k, template, avail)
    ensures Low(m[s := e], t) == Low(m, t)[key := Mapping(1, e.frame, Rights(e.w, e.u, e.nx))]
    ensures High(m[s := e], template) == High(m, template)
  {
    hide Low, High, Tree, Open, KernelOk, View, Effective, Visits;
    LeafLow(m, t, s, e, key);
    KernelKeeps(m, m[s := e], t, t, k, template);
  }
}

/** What a sequence of calls means for the spaces, without page tables: one map
    from pages of spaces to mappings. */
module SpaceLog {
  import opened PageTables
  import opened Spaces

  datatype World = World(users: set<Frame>, maps: imap<Key, Mapping>)

  datatype Event = Made(root: Frame) | Mapped(key: Key, asked: Mapping) | Nothing

  ghost function Apply(w: World, e: Event): World {
    match e
    case Made(r) => w.(users := w.users + {r})
    case Mapped(k, a) => w.(maps := w.maps[k := a])
    case Nothing => w
  }

  ghost function Fold(w: World, es: seq<Event>): World {
    if es == [] then w else Apply(Fold(w, es[..|es| - 1]), es[|es| - 1])
  }

  /** The spaces made, in order. */
  function MadeIn(es: seq<Event>): seq<Frame> {
    if es == [] then []
    else MadeIn(es[..|es| - 1]) + if es[|es| - 1].Made? then [es[|es| - 1].root] else []
  }

  lemma FoldNext(w: World, es: seq<Event>, e: Event)
    ensures Fold(w, es + [e]) == Apply(Fold(w, es), e)
    ensures MadeIn(es + [e]) == MadeIn(es) + if e.Made? then [e.root] else []
  {
    assert (es + [e])[..|es|] == es;
  }

  /** Isolation: calls that do not map page `k` of its space leave it alone,
      whatever else they map, and wherever. */
  lemma {:induction false} Isolation(w: World, es: seq<Event>, k: Key)
    requires forall i :: 0 <= i < |es| && es[i].Mapped? ==> es[i].key != k
    ensures k in Fold(w, es).maps <==> k in w.maps
    ensures k in w.maps ==> Fold(w, es).maps[k] == w.maps[k]
  {
    if es != [] {
      Isolation(w, es[..|es| - 1], k);
    }
  }

  /** A page has the frame and the rights of its last mapping call. */
  lemma {:induction false} LastCall(w: World, es: seq<Event>, n: nat)
    requires n < |es| && es[n].Mapped?
    requires forall i :: n < i < |es| && es[i].Mapped? ==> es[i].key != es[n].key
    ensures es[n].key in Fold(w, es).maps && Fold(w, es).maps[es[n].key] == es[n].asked
  {
    if n < |es| - 1 {
      LastCall(w, es[..|es| - 1], n);
    }
  }

  ghost predicate WriteXorExecute(maps: imap<Key, Mapping>) {
    forall k :: k in maps ==> !(maps[k].rights.w && !maps[k].rights.nx)
  }

  /** If no call asks for a page both writable and executable, none ever is. */
  lemma {:induction false} NeverBoth(w: World, es: seq<Event>)
    requires WriteXorExecute(w.maps)
    requires forall i :: 0 <= i < |es| && es[i].Mapped? ==> !(es[i].asked.rights.w && !es[i].asked.rights.nx)
    ensures WriteXorExecute(Fold(w, es).maps)
  {
    if es != [] {
      NeverBoth(w, es[..|es| - 1]);
    }
  }
}

/** os/kernel/mm/user_as.c: creating user address spaces and mapping pages in
    them. */
module UserAs {
  import opened PageTables
  import opened Addresses
  import opened Types
  import opened PteWords
  import opened Spaces
  import opened SpaceLog
  import opened Ram

  datatype Op = NewSpace | MapIn(space: nat, va: U64, pa: U64, w: bool, x: bool)

  ghost predicate NoneTwice(spaces: seq<Frame>) {
    forall i, j :: 0 <= i < j < |spaces| ==> spaces[i] != spaces[j]
  }

  /** What an operation may do, `spaces` being the spaces made so far. */
  ghost predicate Did(op: Op, spaces: seq<Frame>, e: Event) {
    match op
    case NewSpace => e.Made? || e.Nothing?
    case MapIn(n, va, pa, w, x) =>
      e.Nothing? || (n < |spaces| && e == Mapped(Key(spaces[n], PageOf(va)), Asked(pa, w, x)))
  }

  ghost predicate AllDid(ops: seq<Op>, spaces: seq<Frame>, events: seq<Event>) {
    |events| == |ops| && forall i :: 0 <= i < |ops| ==> Did(ops[i], spaces, events[i])
  }

  /** No call asks for a page both writable and executable. */
  predicate NeverAsked(ops: seq<Op>) {
    forall i :: 0 <= i < |ops| && ops[i].MapIn? ==> !(ops[i].w && ops[i].x)
  }

  predicate NamesPage(op: Op, spaces: seq<Frame>, k: Key) {
    op.MapIn? && op.space < |spaces| && k == Key(spaces[op.space], PageOf(op.va))
  }

  /** No call is about page `k` of its space. */
  predicate Unnamed(ops: seq<Op>, spaces: seq<Frame>, k: Key) {
    forall i :: 0 <= i < |ops| ==> !NamesPage(ops[i], spaces, k)
  }

  ghost predicate SameAt(maps: imap<Key, Mapping>, maps': imap<Key, Mapping>, k: Key) {
    (k in maps' <==> k in maps) && (k in maps ==> maps'[k] == maps[k])
  }

  lemma OpsNeverBoth(w: World, ops: seq<Op>, spaces: seq<Frame>, events: seq<Event>)
    requires AllDid(ops, spaces, events)
    ensures NeverAsked(ops) && WriteXorExecute(w.maps) ==> WriteXorExecute(Fold(w, events).maps)
  {
    if NeverAsked(ops) && WriteXorExecute(w.maps) {
      forall i | 0 <= i < |events| && events[i].Mapped?
        ensures !(events[i].asked.rights.w && !events[i].asked.rights.nx)
      {
        assert Did(ops[i], spaces, events[i]);
      }
      NeverBoth(w, events);
    }
  }

  lemma OpsIsolate(w: World, ops: seq<Op>, spaces: seq<Frame>, events: seq<Event>, k: Key)
    requires AllDid(ops, spaces, events) && Unnamed(ops, spaces, k)
    ensures SameAt(w.maps, Fold(w, events).maps, k)
  {
    hide PageOf;
    forall i | 0 <= i < |events| && events[i].Mapped?
      ensures events[i].key != k
    {
      assert Did(ops[i], spaces, events[i]) && !NamesPage(ops[i], spaces, k);
    }
    Isolation(w, events, k);
  }

  // ------------------------------------------------- who gets the frames

  /** Frames left, spaces made, and the pages mapped in them, by space. */
  datatype Budget = Budget(free: int, made: nat, done: seq<(nat, Page)>)

  /** Tables a page of space `n` still needs: those of its path that no page
      mapped in that space has. */
  function Cost(done: seq<(nat, Page)>, n: nat, pg: Page): nat {
    if done == [] then 3
    else
      var (last, rest) := (done[|done| - 1], Cost(done[..|done| - 1], n, pg));
      if last.0 == n then Min(rest, 3 - Shared(last.1, pg)) else rest
  }

  /** Whether a call can be done. */
  predicate Fits(b: Budget, op: Op) {
    match op
    case NewSpace => b.free > 0
    case MapIn(n, va, _, _, _) => n < b.made && b.free >= Cost(b.done, n, PageOf(va))
  }

  /** What it leaves; a mapping that runs out has used up all frames. */
  function Spend(b: Budget, op: Op): Budget {
    match op
    case NewSpace => if Fits(b, op) then b.(free := b.free - 1, made := b.made + 1) else b
    case MapIn(n, va, _, _, _) =>
      if n >= b.made then b
      else if Fits(b, op) then
        b.(free := b.free - Cost(b.done, n, PageOf(va)), done := b.done + [(n, PageOf(va))])
      else b.(free := 0)
  }

  function Spent(free: int, ops: seq<Op>): Budget {
    if ops == [] then Budget(free, 0, []) else Spend(Spent(free, ops[..|ops| - 1]), ops[|ops| - 1])
  }

  /** The tables in memory are those the budget counts; once the frames are used
      up there may be more, but no more pages with all their tables. */
  ghost predicate Priced(m: Mem, spaces: seq<Frame>, b: Budget) {
    && b.made == |spaces|
    && forall n: nat, pg: Page :: n < |spaces| && pg.i4 < LOW ==> PricedAt(m, spaces[n], b, n, pg)
  }

  ghost predicate PricedAt(m: Mem, r: Frame, b: Budget, n: nat, pg: Page) {
    var (misses, cost) := (Missing(m, r, pg, 4), Cost(b.done, n, pg));
    misses <= cost && (misses == 0 <==> cost == 0) && (b.free > 0 ==> misses == cost)
  }

  lemma CostNext(done: seq<(nat, Page)>, k: nat, at: Page, n: nat, pg: Page)
    ensures Cost(done + [(k, at)], n, pg) ==
            if k == n then Min(Cost(done, n, pg), 3 - Shared(at, pg)) else Cost(done, n, pg)
  {
    assert (done + [(k, at)])[..|done|] == done;
  }

  /** Pages of a space without mappings need three tables. */
  lemma {:induction false} CostNew(done: seq<(nat, Page)>, n: nat, pg: Page)
    requires forall i :: 0 <= i < |done| ==> done[i].0 != n
    ensures Cost(done, n, pg) == 3
  {
    if done != [] {
      CostNew(done[..|done| - 1], n, pg);
    }
  }

  /** The condition the code meets is the one the budget states. */
  lemma PricedFits(m: Mem, spaces: seq<Frame>, b: Budget, n: nat, pg: Page)
    requires Priced(m, spaces, b) && n < |spaces| && pg.i4 < LOW && b.free >= 0
    ensures b.free >= Missing(m, spaces[n], pg, 4) <==> b.free >= Cost(b.done, n, pg)
    ensures b.free >= Missing(m, spaces[n], pg, 4) ==> Missing(m, spaces[n], pg, 4) == Cost(b.done, n, pg)
  {
    hide Missing, Cost;
    assert PricedAt(m, spaces[n], b, n, pg);
  }

  lemma PricedMapped(m: Mem, m': Mem, users: set<Frame>, spaces: seq<Frame>, b: Budget, k: nat, at: Page, free: int)
    requires Priced(m, spaces, b) && k < |spaces| && NoneTwice(spaces) && (forall r :: r in spaces ==> r in users)
    requires TablesMade(m, m', spaces[k], LOW, at) && OthersKept(m, m', users, spaces[k]) && free <= b.free
    ensures Priced(m', spaces, b.(free := free, done := b.done + [(k, at)]))
  {
    hide Missing, Cost, Shared;
    var b' := b.(free := free, done := b.done + [(k, at)]);
    forall n: nat, pg: Page | n < |spaces| && pg.i4 < LOW
      ensures PricedAt(m', spaces[n], b', n, pg)
    {
      assert PricedAt(m, spaces[n], b, n, pg);
      CostNext(b.done, k, at, n, pg);
    }
  }

  lemma PricedFailed(m: Mem, m': Mem, users: set<Frame>, spaces: seq<Frame>, b: Budget, k: nat)
    requires Priced(m, spaces, b) && k < |spaces| && NoneTwice(spaces) && (forall r :: r in spaces ==> r in users)
    requires PartMade(m, m', spaces[k]) && OthersKept(m, m', users, spaces[k])
    ensures Priced(m', spaces, b.(free := 0))
  {
    hide Missing, Cost;
    forall n: nat, pg: Page | n < |spaces| && pg.i4 < LOW
      ensures PricedAt(m', spaces[n], b.(free := 0), n, pg)
    {
      assert PricedAt(m, spaces[n], b, n, pg);
    }
  }

  lemma PricedMade(m: Mem, m': Mem, users: set<Frame>, spaces: seq<Frame>, b: Budget, r: Frame, free: int)
    requires Priced(m, spaces, b) && (forall x :: x in spaces ==> x in users && x != r) && free <= b.free
    requires OthersKept(m, m', users, r) && EmptyRoot(m', r)
    requires forall i :: 0 <= i < |b.done| ==> b.done[i].0 < |spaces|
    ensures Priced(m', spaces + [r], b.(free := free, made := b.made + 1))
  {
    hide Missing, Cost, EmptyRoot;
    var b' := b.(free := free, made := b.made + 1);
    forall n: nat, pg: Page | n < |spaces + [r]| && pg.i4 < LOW
      ensures PricedAt(m', (spaces + [r])[n], b', n, pg)
    {
      if n < |spaces| {
        assert spaces[n] in spaces;
        assert PricedAt(m, spaces[n], b, n, pg);
      } else {
        EmptyMisses(m', r, pg);
        CostNew(b.done, n, pg);
      }
    }
  }

  lemma PricedLength(m: Mem, spaces: seq<Frame>, b: Budget)
    requires Priced(m, spaces, b)
    ensures b.made == |spaces|
  {
  }

  lemma PricedNow(m: Mem, free: int)
    ensures Priced(m, [], Spent(free, [])) && KnownSpaces(Spent(free, [])) && Spent(free, []).free == free
  {
  }

  lemma SpentNext(free: int, ops: seq<Op>, n: nat)
    requires n < |ops|
    ensures Spent(free, ops[..n + 1]) == Spend(Spent(free, ops[..n]), ops[n])
  {
    assert ops[..n + 1][..n] == ops[..n];
  }

  /** The log of the first calls: what each did, whether it could be done, and
      the spaces made. */
  ghost predicate Logged(free: int, ops: seq<Op>, spaces: seq<Frame>, events: seq<Event>) {
    && |events| <= |ops| && spaces == MadeIn(events) && NoneTwice(spaces)
    && (forall i :: 0 <= i < |events| ==> Did(ops[i], spaces, events[i]))
    && (forall i :: 0 <= i < |events| ==> Outcome(free, ops, events, i))
  }

  /** Call `i` was done exactly if the budget allowed it. */
  ghost predicate Outcome(free: int, ops: seq<Op>, events: seq<Event>, i: nat)
    requires i < |events| <= |ops|
  {
    events[i].Nothing? <==> !Fits(Spent(free, ops[..i]), ops[i])
  }

  lemma LoggedNext(free: int, ops: seq<Op>, spaces: seq<Frame>, events: seq<Event>, e: Event)
    requires Logged(free, ops, spaces, events) && |events| < |ops| && Did(ops[|events|], spaces, e)
    requires e.Nothing? <==> !Fits(Spent(free, ops[..|events|]), ops[|events|])
    requires e.Made? ==> e.root !in spaces
    ensures Logged(free, ops, if e.Made? then spaces + [e.root] else spaces, events + [e])
  {
    hide Fits, Spent, PageOf, Asked;
    var events', spaces' := events + [e], if e.Made? then spaces + [e.root] else spaces;
    FoldNext(World({}, imap[]), events, e);
    forall i | 0 <= i < |events'|
      ensures Did(ops[i], spaces', events'[i]) && Outcome(free, ops, events', i)
    {
      if i < |events| {
        assert Did(ops[i], spaces, events[i]) && Outcome(free, ops, events, i);
      }
    }
  }

  lemma LoggedNow(w: World, free: int, ops: seq<Op>)
    ensures Logged(free, ops, [], []) && Fold(w, []) == w && ops[..0] == []
  {
  }

  lemma SpacesDistinct(free: int, ops: seq<Op>, spaces: seq<Frame>, events: seq<Event>)
    requires Logged(free, ops, spaces, events)
    ensures NoneTwice(spaces)
  {
  }

  lemma LoggedAll(free: int, ops: seq<Op>, spaces: seq<Frame>, events: seq<Event>)
    requires Logged(free, ops, spaces, events) && |events| == |ops|
    ensures AllDid(ops, spaces, events)
  {
  }

  lemma UsersNext(w: World, e: Event)
    ensures Apply(w, e).users == if e.Made? then w.users + {e.root} else w.users
  {
  }

  ghost predicate KnownSpaces(b: Budget) {
    forall i :: 0 <= i < |b.done| ==> b.done[i].0 < b.made
  }

  const CODE_PAGE := Page(0, 0, 0, 16)
  const STACK1_PAGE := Page(0, 0, 4, 0)
  const STACK0_PAGE := Page(0, 0, 4, 1)

  /** The low halves with the three pages of process `r`: code to read and
      execute, stack to read and write. */
  ghost function WithProcess(maps: imap<Key, Mapping>, r: Frame, code: Frame, stack1: Frame,
                             stack0: Frame): imap<Key, Mapping> {
    maps[Key(r, CODE_PAGE) := Mapping(1, code, Rights(false, true, false))]
        [Key(r, STACK1_PAGE) := Mapping(1, stack1, Rights(true, true, true))]
        [Key(r, STACK0_PAGE) := Mapping(1, stack0, Rights(true, true, true))]
  }

  ghost predicate SameElsewhere(maps: imap<Key, Mapping>, maps': imap<Key, Mapping>, r: Frame) {
    forall k: Key :: k.root != r ==> (k in maps' <==> k in maps) && (k in maps ==> maps'[k] == maps[k])
  }

  /** The low half of space `r` is exactly a process: code to read and execute at
      0x10000, stack to read and write at 0x800000 and 0x801000, and no other page. */
  ghost predicate ExactlyProcess(maps: imap<Key, Mapping>, r: Frame, code: Frame, stack1: Frame, stack0: Frame) {
    var (kc, k1, k0) := (Key(r, PageOf(0x1_0000)), Key(r, PageOf(0x80_0000)), Key(r, PageOf(0x80_1000)));
    && kc != k1 && kc != k0 && k1 != k0
    && (forall k: Key :: k.root == r ==> (k in maps <==> k == kc || k == k1 || k == k0))
    && kc in maps && maps[kc] == Mapping(1, code, Rights(false, true, false))
    && k1 in maps && maps[k1] == Mapping(1, stack1, Rights(true, true, true))
    && k0 in maps && maps[k0] == Mapping(1, stack0, Rights(true, true, true))
  }

  lemma NewProcess(maps: imap<Key, Mapping>, r: Frame, code: Frame, stack1: Frame, stack0: Frame)
    requires forall k :: k in maps ==> k.root != r
    ensures ExactlyProcess(WithProcess(maps, r, code, stack1, stack0), r, code, stack1, stack0)
  {
    hide PageOf;
    Layout(code, stack1, stack0);
  }

  /** The kernel half is the upper half of the address space. */
  lemma KernelHalf(a: U64)
    ensures PageOf(a).i4 >= LOW <==> a % 0x1_0000_0000_0000 >= 0x8000_0000_0000
  {
    var x := a / 0x80_0000_0000;
    assert a % 0x1_0000_0000_0000 / 0x80_0000_0000 == x % 512;
  }

  lemma SameAlready(maps: imap<Key, Mapping>, r: Frame)
    ensures SameElsewhere(maps, maps, r)
  {
  }

  lemma SameNext(maps: imap<Key, Mapping>, maps': imap<Key, Mapping>, r: Frame, pg: Page, a: Mapping)
    requires SameElsewhere(maps, maps', r)
    ensures SameElsewhere(maps, maps'[Key(r, pg) := a], r)
  {
  }

  /** Of the frames taken, three hold data and all others are new tables: the
      root and four below it. */
  ghost predicate EightTaken(t: set<int>, t': set<int>, avail: set<int>, avail': set<int>,
                             r: int, code: int, stack1: int, stack0: int) {
    && avail' <= avail && |avail - avail'| == 8
    && avail - avail' == {code, stack1, stack0} + (t' - t)
    && |{code, stack1, stack0}| == 3 && |t' - t| == 5 && r in t' - t && {code, stack1, stack0} !! t'
  }

  /** Frames of a space that was filled: three for data, the others new tables. */
  ghost predicate FramesSplit(t: set<int>, t': set<int>, avail: set<int>, avail': set<int>,
                              code: int, stack1: int, stack0: int) {
    && code != stack1 && code != stack0 && stack1 != stack0 && {code, stack1, stack0} <= avail
    && code !in t' && stack1 !in t' && stack0 !in t' && t <= t' && avail' <= avail - {code, stack1, stack0}
    && t' + avail' == t + (avail - {code, stack1, stack0})
  }

  lemma EightFrames(t0: set<int>, t1: set<int>, t: set<int>, a0: set<int>, a1: set<int>, a: set<int>,
                    r: int, code: int, stack1: int, stack0: int)
    requires t0 !! a0 && t !! a && r in a0 && t1 == t0 + {r} && a1 == a0 - {r} && |a| == |a0| - 8
    requires FramesSplit(t1, t, a1, a, code, stack1, stack0)
    ensures EightTaken(t0, t, a0, a, r, code, stack1, stack0)
  {
    assert a0 - a == {code, stack1, stack0} + (t - t0);
    assert |{code, stack1, stack0}| == 3;
  }

  /** Byte `n` of frame `c`. */
  function ByteAt(m: Mem, c: Frame, n: nat): nat
    requires n < 4096
  {
    ByteOf(WordOf(m[Slot(c, n / 8)]), n % 8)
  }

  /** The first `i` bytes of frame `c` come from the program, as far as it goes;
      the others are as they were. */
  ghost predicate Copied(m: Mem, m': Mem, c: Frame, payload: seq<Byte>, i: int) {
    forall n: nat :: n < 4096 ==> ByteAt(m', c, n) == if n < i && n < |payload| then payload[n] else ByteAt(m, c, n)
  }

  lemma NothingCopied(m: Mem, c: Frame, payload: seq<Byte>)
    ensures Copied(m, m, c, payload, 0)
  {
  }

  lemma NextCopied(m: Mem, m': Mem, c: Frame, payload: seq<Byte>, i: nat)
    requires Copied(m, m', c, payload, i) && i < |payload| && i < 4096
    ensures var s := Slot(c, i / 8); Copied(m, m'[s := StoreByte(m'[s], i % 8, payload[i])], c, payload, i + 1)
  {
    hide ByteOf, WordOf, StoreByte;
    var s := Slot(c, i / 8);
    forall n: nat | n < 4096
      ensures ByteAt(m'[s := StoreByte(m'[s], i % 8, payload[i])], c, n) ==
              if n == i then payload[i] else ByteAt(m', c, n)
    {
      StoreByteIs(m'[s], i % 8, payload[i], n % 8);
    }
  }

  lemma AllCopied(m: Mem, m': Mem, c: Frame, payload: seq<Byte>, i: nat)
    requires Copied(m, m', c, payload, i) && (i >= |payload| || i >= 4096)
    ensures Copied(m, m', c, payload, 4096)
  {
    hide ByteAt;
  }

  /** The program is in the code frame, and the rest of the three frames is zero. */
  ghost predicate Loaded(m: Mem, code: Frame, stack1: Frame, stack0: Frame, payload: seq<Byte>) {
    && Blanked(m, stack1) && Blanked(m, stack0)
    && forall n: nat :: n < 4096 ==> ByteAt(m, code, n) == if n < |payload| then payload[n] else 0
  }

  lemma LoadedNow(m: Mem, m': Mem, code: Frame, stack1: Frame, stack0: Frame, payload: seq<Byte>)
    requires Blanked(m, code) && Blanked(m, stack1) && Blanked(m, stack0) && code != stack1 && code != stack0
    requires forall s: Slot :: s.frame != code ==> m'[s] == m[s]
    requires Copied(m, m', code, payload, 4096)
    ensures Loaded(m', code, stack1, stack0, payload)
  {
    hide ByteOf, WordOf;
    forall n: nat | n < 4096
      ensures ByteAt(m, code, n) == 0
    {
      ZeroBytes(n % 8);
    }
  }

  lemma LoadedStill(m: Mem, m': Mem, code: Frame, stack1: Frame, stack0: Frame, payload: seq<Byte>)
    requires Loaded(m, code, stack1, stack0, payload)
    requires SameFrames(m, m', {code}) && SameFrames(m, m', {stack1}) && SameFrames(m, m', {stack0})
    ensures Loaded(m', code, stack1, stack0, payload)
  {
    hide ByteOf, WordOf;
    assert forall n: nat :: n < 4096 ==> ByteAt(m', code, n) == ByteAt(m, code, n);
  }

  lemma Layout(code: Frame, stack1: Frame, stack0: Frame)
    ensures PageOf(0x1_0000) == CODE_PAGE && PageOf(0x80_0000) == STACK1_PAGE && PageOf(0x80_1000) == STACK0_PAGE
    ensures Asked(AddressOf(code), false, true) == Mapping(1, code, Rights(false, true, false))
    ensures Asked(AddressOf(stack1), true, false) == Mapping(1, stack1, Rights(true, true, true))
    ensures Asked(AddressOf(stack0), true, false) == Mapping(1, stack0, Rights(true, true, true))
  {
  }

  /** Tables each page of a process still needs in an empty space ... */
  lemma EmptyCosts(m: Mem, r: Frame)
    requires EmptyRoot(m, r)
    ensures Missing(m, r, CODE_PAGE, 4) == Missing(m, r, STACK1_PAGE, 4) == Missing(m, r, STACK0_PAGE, 4) == 3
  {
    EmptyMisses(m, r, CODE_PAGE);
    EmptyMisses(m, r, STACK1_PAGE);
    EmptyMisses(m, r, STACK0_PAGE);
  }

  /** ... after the code page ... */
  lemma SecondCosts(m: Mem, m': Mem, r: Frame)
    requires TablesMade(m, m', r, LOW, CODE_PAGE)
    requires Missing(m, r, STACK1_PAGE, 4) == Missing(m, r, STACK0_PAGE, 4) == 3
    ensures Missing(m', r, STACK1_PAGE, 4) == Missing(m', r, STACK0_PAGE, 4) == 1
  {
  }

  /** ... and after the first stack page. */
  lemma ThirdCosts(m: Mem, m': Mem, r: Frame)
    requires TablesMade(m, m', r, LOW, STACK1_PAGE) && Missing(m, r, STACK0_PAGE, 4) == 1
    ensures Missing(m', r, STACK0_PAGE, 4) == 0
  {
  }

  /** What one mapping call asks for. */
  function Asked(pa: U64, w: bool, x: bool): Mapping {
    Mapping(1, pa / 0x1000 % 0x100_0000_0000, Rights(w, true, !x))
  }

  class UserAs {
    const ram: Machine
    var template: Frame
    ghost var tables: Forest
    ghost var kernel: set<Tab>

    constructor (ram: Machine)
      ensures this.ram == ram && template == 0 && tables == map[] && kernel == {}
    {
      this.ram, template, tables, kernel := ram, 0, map[], {};
    }

    ghost predicate Ready()
      reads this, ram, ram.pmm, ram.pmm.freePages
    {
      ram.Valid() && template != 0 && Good(ram.mem, tables, kernel, template, ram.avail)
    }

    ghost function Users(): set<Frame>
      reads this
    {
      Roots(tables)
    }

    ghost function LowMaps(): imap<Key, Mapping>
      reads this, ram
    {
      Low(ram.mem, tables)
    }

    ghost function KernelMap(): imap<Page, (Leaf, Rights)>
      reads this, ram
    {
      High(ram.mem, template)
    }

    method CopyHigh(dst: Frame, src: Frame)
      requires dst != src
      modifies ram`mem
      ensures SameHigh(old(ram.mem), src, ram.mem, dst)
      ensures forall s: Slot :: s.frame != dst || s.idx < LOW ==> ram.mem[s] == old(ram.mem)[s]
    {
      for i := LOW to 512
        invariant forall j: Index :: LOW <= j < i ==> ram.mem[Slot(dst, j)] == old(ram.mem)[Slot(src, j)]
        invariant forall s: Slot :: s.frame != dst || s.idx < LOW ==> ram.mem[s] == old(ram.mem)[s]
      {
        ram.mem := ram.mem[Slot(dst, i) := ram.mem[Slot(src, i)]];
      }
    }

    /** `init_kernel_pml4_template`: the template's kernel half is that of the
        active PML4. */
    method InitTemplate(current: Frame, ghost k: set<Tab>)
      requires ram.Valid() && tables == map[] && current !in ram.avail
      requires KernelClosed(ram.mem, k) && HighClosed(ram.mem, k, current)
      requires forall f :: f in FramesOf(k) ==> f !in ram.avail
      modifies this, ram, ram.pmm
      ensures ram.Valid()
      ensures template == 0 <==> old(ram.free) == 0
      ensures template != 0 ==>
                Ready() && tables == map[] && LowMaps() == imap[] && KernelMap() == old(High(ram.mem, current))
                && ram.free == old(ram.free) - 1
    {
      hide KernelClosed, HighClosed, High, Low, Good, Roots;
      ghost var m := ram.mem;
      template := ram.AllocZeroed();
      kernel := k;
      if template == 0 {
        return;
      }
      CopyHigh(template, current);
      TemplateGood(m, ram.mem, k, current, template, ram.avail);
    }

    /** `alloc_zeroed_page_phys`: a cleared frame no table uses. */
    method AllocZeroed() returns (c: Frame)
      requires Ready()
      modifies ram, ram.pmm
      ensures Ready() && LowMaps() == old(LowMaps()) && KernelMap() == old(KernelMap())
      ensures if old(ram.free) == 0 then
                c == 0 && ram.free == 0 && ram.avail == old(ram.avail) && ram.mem == old(ram.mem)
              else c != 0 && c in old(ram.avail) && ram.avail == old(ram.avail) - {c} && ram.free == old(ram.free) - 1
                   && Fresh(c) && Blanked(ram.mem, c)
                   && forall s: Slot :: s.frame != c ==> ram.mem[s] == old(ram.mem)[s]
    {
      hide Tree, Open, KernelOk, High, Low;
      ghost var m, avail := ram.mem, ram.avail;
      c := ram.AllocZeroed();
      if c != 0 {
        OutsideKeeps(m, ram.mem, tables, kernel, template, avail, ram.avail);
      }
    }

    /** Neither a table nor with the allocator. */
    ghost predicate Fresh(c: Frame)
      reads this, ram
    {
      c !in tables && c !in ram.avail && c !in FramesOf(kernel) && c != template
    }

    /** `user_as_create`: a new space with the kernel half and nothing else. */
    method Create() returns (r: Frame)
      requires template == 0 || Ready()
      modifies this`tables, ram, ram.pmm
      ensures template == 0 ==> r == 0 && ram.mem == old(ram.mem) && tables == old(tables) && ram.free == old(ram.free)
      ensures template != 0 ==>
                && Ready() && LowMaps() == old(LowMaps()) && KernelMap() == old(KernelMap())
                && (r == 0 <==> old(ram.free) == 0)
                && (r == 0 ==> tables == old(tables) && ram.free == 0 && ram.mem == old(ram.mem))
                && (r != 0 ==>
                      && r !in old(tables) && r !in old(Users())
                      && r in old(ram.avail) && ram.avail == old(ram.avail) - {r}
                      && tables == old(tables)[r := Root] && Users() == old(Users()) + {r}
                      && ram.free == old(ram.free) - 1
                      && EmptyRoot(ram.mem, r) && OthersKept(old(ram.mem), ram.mem, old(Users()), r))
    {
      hide Tree, Open, KernelOk, High, Low, Roots, OthersKept, Machine.Valid, FramesOf;
      ghost var m0 := ram.mem;
      if template == 0 {
        return 0;
      }
      r := AllocZeroed();
      if r == 0 {
        return;
      }
      ghost var m := ram.mem;
      CopyHigh(r, template);
      OutsideOthers(m0, ram.mem, tables, r);
      OutsideKeeps(m, ram.mem, tables, kernel, template, ram.avail, ram.avail);
      RootKeeps(ram.mem, tables, kernel, template, ram.avail, r);
      tables := tables[r := Root];
    }

    /** Store the entry for the new table `c`. */
    method LinkTable(s: Slot, c: Frame)
      requires Ready() && Fresh(c) && Linkable(ram.mem, tables, LOW, s, c, UserLink(c))
      modifies this`tables, ram`mem
      ensures Ready() && LowMaps() == old(LowMaps()) && KernelMap() == old(KernelMap()) && Users() == old(Users())
      ensures tables == Grown(old(tables), s, c) && ram.mem == old(ram.mem)[s := UserLink(c)]
    {
      hide Tree, Open, KernelOk, High, Low, Roots;
      LinkKeeps(ram.mem, tables, kernel, template, ram.avail, s, c, UserLink(c));
      LinkShape(ram.mem, tables, s, c, UserLink(c));
      ram.mem := ram.mem[s := UserLink(c)];
      tables := Grown(tables, s, c);
    }

    /** The absent case of `get_or_make_table_in_pml4`. */
    method MakeTable(s: Slot, ghost pg: Page, ghost root: Frame) returns (ok: bool)
      requires Ready() && root in Users() && In(tables, LOW, root, pg, 4) && Owned(tables, LOW, s) && !ram.mem[s].p
      requires Visits(ram.mem, root, pg, 4, s)
      modifies this`tables, ram, ram.pmm
      ensures Ready() && LowMaps() == old(LowMaps()) && KernelMap() == old(KernelMap()) && Users() == old(Users())
      ensures ram.avail <= old(ram.avail) && s.frame in tables && tables[s.frame] == old(tables)[s.frame]
      ensures ok == (old(ram.free) > 0)
      ensures WroteTables(old(ram.mem), ram.mem, old(tables), tables, old(ram.avail), ram.avail)
      ensures OthersKept(old(ram.mem), ram.mem, Users(), root)
      ensures !ok ==> ram.free == 0 && ram.mem == old(ram.mem)
      ensures ok ==>
                && Points(Level(tables[s.frame]), ram.mem[s]) && Visits(ram.mem, root, pg, 4, s)
                && TablesBelow(old(ram.mem), ram.mem, root, LOW, pg, Level(tables[s.frame]))
                && Missing(ram.mem, root, pg, 4) == Missing(old(ram.mem), root, pg, 4) - 1
                && ram.free == old(ram.free) - 1
    {
      hide Open, KernelOk, High, Low, Roots, View, Missing, TablesBelow, WroteTables, Machine.Valid, Visits, OthersKept;
      ram.NotNegative();
      ghost var m, t, avail := ram.mem, tables, ram.avail;
      var c := AllocZeroed();
      if c == 0 {
        WroteNothing(m, t, avail);
        NothingMade(m, Users(), root);
        return false;
      }
      LinkReached(m, ram.mem, tables, LOW, s, c, UserLink(c), root, pg);
      LinkTablesBelow(m, ram.mem, tables, LOW, s, c, UserLink(c), root, pg, Level(tables[s.frame]));
      WroteLink(m, ram.mem, t, avail, s, c, UserLink(c));
      LinkOthers(m, ram.mem, tables, s, c, UserLink(c), root, pg);
      LinkTable(s, c);
      return true;
    }

    /** An entry that is already there is open, so setting its user bit again
        changes nothing. */
    lemma AlreadyOpen(s: Slot)
      requires Ready() && Owned(tables, LOW, s) && ram.mem[s].p
      ensures ram.mem[s].(u := true) == ram.mem[s] && Points(Level(tables[s.frame]), ram.mem[s])
    {
      assert OpenEntry(ram.mem[s]);
    }

    /** `get_or_make_table_in_pml4` on the walk for `pg` from `root`. */
    method GetOrMake(f: Frame, pg: Page, level: int, ghost root: Frame) returns (next: Option<Frame>)
      requires Ready() && root in Users() && In(tables, LOW, root, pg, 4) && In(tables, LOW, f, pg, level) && level >= 2
      requires Visits(ram.mem, root, pg, 4, Slot(f, pg.At(level)))
      modifies this`tables, ram, ram.pmm
      ensures Ready() && LowMaps() == old(LowMaps()) && KernelMap() == old(KernelMap()) && Users() == old(Users())
      ensures ram.avail <= old(ram.avail)
      ensures WroteTables(old(ram.mem), ram.mem, old(tables), tables, old(ram.avail), ram.avail)
      ensures OthersKept(old(ram.mem), ram.mem, Users(), root)
      ensures next.None? ==> ram.free == old(ram.free) == 0 && Missing(old(ram.mem), root, pg, 4) > 0
                             && ram.mem == old(ram.mem)
      ensures next.Some? ==>
                && In(tables, LOW, root, pg, 4) && In(tables, LOW, next.value, pg, level - 1)
                && Visits(ram.mem, root, pg, 4, Slot(next.value, pg.At(level - 1)))
                && TablesBelow(old(ram.mem), ram.mem, root, LOW, pg, level)
                && ram.free - Missing(ram.mem, root, pg, 4) == old(ram.free) - Missing(old(ram.mem), root, pg, 4)
                && ram.free >= 0
    {
      hide Tree, Open, KernelOk, High, Low, View, Missing, TablesBelow, OthersKept, Machine.Valid;
      ram.NotNegative();
      NothingMade(ram.mem, Users(), root);
      var s := Slot(f, pg.At(level));
      if !ram.mem[s].p {
        Present(ram.mem, tables, LOW, s, root, pg, level);
        var ok := MakeTable(s, pg, root);
        if !ok {
          return None;
        }
        assert root in tables && tables[root] == Root;
      } else {
        AlreadyOpen(s);
        ram.mem := ram.mem[s := ram.mem[s].(u := true)];
        assert ram.mem == old(ram.mem);
        FollowTablesBelow(ram.mem, tables, LOW, s, root, pg, level);
      }
      ram.NotNegative();
      Followed(ram.mem, tables, LOW, s, root, pg, level);
      next := Some(ram.mem[s].frame);
    }

    lemma HasTemplate()
      requires Ready()
      ensures template != 0
    {
    }

    lemma StartsAtRoot(root: Frame, pg: Page)
      requires Ready() && root in Users() && pg.i4 < LOW
      ensures In(tables, LOW, root, pg, 4) && Visits(ram.mem, root, pg, 4, Slot(root, pg.At(4)))
    {
    }

    /** Store a leaf entry. */
    method SetLeaf(s: Slot, e: Pte, ghost key: Key, ghost m0: Mem)
      requires Ready() && key.root in Users() && In(tables, LOW, key.root, key.pg, 4)
      requires LeafSlot(tables, s) && Visits(ram.mem, key.root, key.pg, 4, s) && e.p
      requires TablesMade(m0, ram.mem, key.root, LOW, key.pg)
      modifies ram`mem
      ensures Ready() && KernelMap() == old(KernelMap())
      ensures LowMaps() == old(LowMaps())[key := Mapping(1, e.frame, Rights(e.w, e.u, e.nx))]
      ensures TablesMade(m0, ram.mem, key.root, LOW, key.pg) && OthersKept(old(ram.mem), ram.mem, Users(), key.root)
      ensures ram.mem == old(ram.mem)[s := e]
    {
      hide Tree, Open, KernelOk, High, Low, TablesMade, Visits, OthersKept;
      LeafOthers(ram.mem, tables, s, e, key.root);
      LeafKeeps(ram.mem, tables, kernel, template, ram.avail, s, e, key);
      LeafTables(m0, ram.mem, tables, LOW, s, e, key.root, key.pg);
      ram.mem := ram.mem[s := e];
    }

    /** `user_map_4k_in_pml4` in the low half of a space: the page gets exactly
        the rights asked for, and nothing else changes anywhere. */
    method Map4k(root: Frame, va: U64, pa: U64, w: bool, x: bool) returns (ok: bool)
      requires Ready() && root in Users() && PageOf(va).i4 < LOW
      modifies this`tables, ram, ram.pmm
      ensures Ready() && KernelMap() == old(KernelMap()) && Users() == old(Users())
      ensures ok <==> old(ram.free) >= Missing(old(ram.mem), root, PageOf(va), 4)
      ensures LowMaps() == if ok then old(LowMaps())[Key(root, PageOf(va)) := Asked(pa, w, x)] else old(LowMaps())
      ensures ram.free == if ok then old(ram.free) - Missing(old(ram.mem), root, PageOf(va), 4) else 0
      ensures if ok then TablesMade(old(ram.mem), ram.mem, root, LOW, PageOf(va))
              else PartMade(old(ram.mem), ram.mem, root)
      ensures OthersKept(old(ram.mem), ram.mem, Users(), root)
      ensures ram.avail <= old(ram.avail)
      ensures WroteTables(old(ram.mem), ram.mem, old(tables), tables, old(ram.avail), ram.avail)
    {
      ok := MapAt(root, PageOf(va), LeafEntry(pa, w, x));
    }

    method MapAt(root: Frame, pg: Page, e: Pte) returns (ok: bool)
      requires Ready() && root in Users() && pg.i4 < LOW && e.p
      modifies this`tables, ram, ram.pmm
      ensures Ready() && KernelMap() == old(KernelMap()) && Users() == old(Users())
      ensures ok <==> old(ram.free) >= Missing(old(ram.mem), root, pg, 4)
      ensures LowMaps() == if ok then old(LowMaps())[Key(root, pg) := Mapping(1, e.frame, Rights(e.w, e.u, e.nx))]
                           else old(LowMaps())
      ensures ram.free == if ok then old(ram.free) - Missing(old(ram.mem), root, pg, 4) else 0
      ensures if ok then TablesMade(old(ram.mem), ram.mem, root, LOW, pg) else PartMade(old(ram.mem), ram.mem, root)
      ensures OthersKept(old(ram.mem), ram.mem, Users(), root)
      ensures ram.avail <= old(ram.avail)
      ensures WroteTables(old(ram.mem), ram.mem, old(tables), tables, old(ram.avail), ram.avail)
    {
      hide Ready, Users, LowMaps, KernelMap, Visits, Missing, TablesBelow, TablesMade, WroteTables, OthersKept,
           PartMade;
      ghost var m0, t0, a0 := ram.mem, tables, ram.avail;
      var at := WalkDown(root, pg);
      ok := at.Some?;
      if ok {
        ghost var m := ram.mem;
        WroteLeaf(m0, m, t0, tables, a0, ram.avail, Slot(at.value, pg.At(1)), e);
        SetLeaf(Slot(at.value, pg.At(1)), e, Key(root, pg), m0);
        OthersThen(m0, m, ram.mem, Users(), root);
      }
    }

    /** The three table steps of `user_map_4k_in_pml4`. */
    method WalkDown(root: Frame, pg: Page) returns (at: Option<Frame>)
      requires Ready() && root in Users() && pg.i4 < LOW
      modifies this`tables, ram, ram.pmm
      ensures Ready() && LowMaps() == old(LowMaps()) && KernelMap() == old(KernelMap()) && Users() == old(Users())
      ensures at.Some? <==> old(ram.free) >= Missing(old(ram.mem), root, pg, 4)
      ensures ram.free == if at.Some? then old(ram.free) - Missing(old(ram.mem), root, pg, 4) else 0
      ensures at.Some? ==>
                && In(tables, LOW, root, pg, 4) && In(tables, LOW, at.value, pg, 1)
                && Visits(ram.mem, root, pg, 4, Slot(at.value, pg.At(1)))
                && TablesMade(old(ram.mem), ram.mem, root, LOW, pg)
      ensures at.None? ==> PartMade(old(ram.mem), ram.mem, root)
      ensures OthersKept(old(ram.mem), ram.mem, Users(), root)
      ensures WroteTables(old(ram.mem), ram.mem, old(tables), tables, old(ram.avail), ram.avail)
      ensures ram.avail <= old(ram.avail)
    {
      hide Ready, Users, LowMaps, KernelMap, Visits, Missing, TablesBelow, TablesMade, WroteTables, OthersKept,
           PartMade;
      StartsAtRoot(root, pg);
      ghost var m0, t0, a0 := ram.mem, tables, ram.avail;
      NothingMade(m0, Users(), root);
      at := None;
      var pdpt := GetOrMake(root, pg, 4, root);
      if pdpt.Some? {
        ghost var m1, t1, a1 := ram.mem, tables, ram.avail;
        UpperPart(m0, m1, root, pg, 4);
        var pd := GetOrMake(pdpt.value, pg, 3, root);
        WroteThen(m0, m1, ram.mem, t0, t1, tables, a0, a1, ram.avail);
        OthersThen(m0, m1, ram.mem, Users(), root);
        if pd.Some? {
          ghost var m2, t2, a2 := ram.mem, tables, ram.avail;
          UpperPart(m1, m2, root, pg, 3);
          PartThen(m0, m1, m2, root);
          at := GetOrMake(pd.value, pg, 2, root);
          WroteThen(m0, m2, ram.mem, t0, t2, tables, a0, a2, ram.avail);
          OthersThen(m0, m2, ram.mem, Users(), root);
          if at.Some? {
            ThreeTables(m0, m1, m2, ram.mem, root, LOW, pg);
          }
        }
      }
    }

    method CopyBytes(code: Frame, payload: seq<Byte>)
      modifies ram`mem
      ensures forall s: Slot :: s.frame != code ==> ram.mem[s] == old(ram.mem)[s]
      ensures Copied(old(ram.mem), ram.mem, code, payload, 4096)
    {
      hide Copied, StoreByte;
      NothingCopied(ram.mem, code, payload);
      var i := 0;
      while i < |payload| && i < 4096
        invariant 0 <= i <= 4096 && i <= |payload|
        invariant forall s: Slot :: s.frame != code ==> ram.mem[s] == old(ram.mem)[s]
        invariant Copied(old(ram.mem), ram.mem, code, payload, i)
      {
        var s := Slot(code, i / 8);
        NextCopied(old(ram.mem), ram.mem, code, payload, i);
        ram.mem := ram.mem[s := StoreByte(ram.mem[s], i % 8, payload[i])];
        i := i + 1;
      }
      AllCopied(old(ram.mem), ram.mem, code, payload, i);
    }

    /** Copy the start of a program into a data frame. */
    method CopyPayload(code: Frame, payload: seq<Byte>)
      requires Ready() && Fresh(code)
      modifies ram`mem
      ensures Ready() && LowMaps() == old(LowMaps()) && KernelMap() == old(KernelMap())
      ensures forall s: Slot :: s.frame != code ==> ram.mem[s] == old(ram.mem)[s]
      ensures Copied(old(ram.mem), ram.mem, code, payload, 4096)
    {
      hide Tree, Open, KernelOk, High, Low, Copied, Machine.Valid;
      ghost var m := ram.mem;
      CopyBytes(code, payload);
      OutsideKeeps(m, ram.mem, tables, kernel, template, ram.avail, ram.avail);
    }

    /** The three data frames of a process; a frame is 0 if none was left. */
    method AllocThree(ghost root: Frame) returns (code: Frame, stack1: Frame, stack0: Frame)
      requires Ready() && root in Users() && EmptyRoot(ram.mem, root)
      modifies ram, ram.pmm
      ensures Ready() && LowMaps() == old(LowMaps()) && KernelMap() == old(KernelMap())
      ensures EmptyRoot(ram.mem, root) && ram.avail <= old(ram.avail)
      ensures if old(ram.free) < 3 then (code == 0 || stack1 == 0 || stack0 == 0) && ram.free == 0
              else code != 0 && stack1 != 0 && stack0 != 0 && ram.free == old(ram.free) - 3
                   && code != stack1 && code != stack0 && stack1 != stack0
                   && Fresh(code) && Fresh(stack1) && Fresh(stack0)
                   && {code, stack1, stack0} <= old(ram.avail) && ram.avail == old(ram.avail) - {code, stack1, stack0}
                   && Blanked(ram.mem, code) && Blanked(ram.mem, stack1) && Blanked(ram.mem, stack0)
    {
      hide Good, LowMaps, KernelMap, Blanked, FramesOf, Machine.Valid;
      ram.NotNegative();
      code := AllocZeroed();
      ghost var m1 := ram.mem;
      stack1 := AllocZeroed();
      ghost var m2 := ram.mem;
      stack0 := AllocZeroed();
      if code != 0 && stack1 != 0 && stack0 != 0 {
        StillBlank(m1, m2, code, stack1);
        StillBlank(m2, ram.mem, code, stack0);
        StillBlank(m2, ram.mem, stack1, stack0);
      }
    }

    /** The three mappings of a process in its empty space need 4 tables. */
    method MapThree(r: Frame, code: Frame, stack1: Frame, stack0: Frame) returns (ok: bool)
      requires Ready() && r in Users() && EmptyRoot(ram.mem, r)
      modifies this`tables, ram, ram.pmm
      ensures Ready() && KernelMap() == old(KernelMap()) && Users() == old(Users())
      ensures ok <==> old(ram.free) >= 4
      ensures ram.free == if ok then old(ram.free) - 4 else 0
      ensures ok ==> LowMaps() == WithProcess(old(LowMaps()), r, code, stack1, stack0)
      ensures SameElsewhere(old(LowMaps()), LowMaps(), r)
      ensures ram.avail <= old(ram.avail)
      ensures WroteTables(old(ram.mem), ram.mem, old(tables), tables, old(ram.avail), ram.avail)
    {
      hide Ready, Users, KernelMap, LowMaps, WroteTables, PageOf, Asked, EmptyRoot, Missing, TablesMade, SameElsewhere;
      ghost var m0, t0, a0, l0 := ram.mem, tables, ram.avail, LowMaps();
      Layout(code, stack1, stack0);
      EmptyCosts(ram.mem, r);
      SameAlready(l0, r);
      SameNext(l0, l0, r, CODE_PAGE, Mapping(1, code, Rights(false, true, false)));
      ok := Map4k(r, 0x1_0000, AddressOf(code), false, true);
      if !ok {
        return;
      }
      ghost var m1, t1, a1 := ram.mem, tables, ram.avail;
      SecondCosts(m0, m1, r);
      SameNext(l0, LowMaps(), r, STACK1_PAGE, Mapping(1, stack1, Rights(true, true, true)));
      ok := Map4k(r, 0x80_0000, AddressOf(stack1), true, false);
      WroteThen(m0, m1, ram.mem, t0, t1, tables, a0, a1, ram.avail);
      if !ok {
        return;
      }
      ghost var m2, t2, a2 := ram.mem, tables, ram.avail;
      ThirdCosts(m1, m2, r);
      SameNext(l0, LowMaps(), r, STACK0_PAGE, Mapping(1, stack0, Rights(true, true, true)));
      ok := Map4k(r, 0x80_1000, AddressOf(stack0), true, false);
      WroteThen(m0, m2, ram.mem, t0, t2, tables, a0, a2, ram.avail);
    }

    /** The part of `create_user_process` after the three data frames are there. */
    method Populate(r: Frame, code: Frame, stack1: Frame, stack0: Frame, payload: seq<Byte>) returns (ok: bool)
      requires Ready() && r in Users() && EmptyRoot(ram.mem, r) && r in tables
      requires Fresh(code) && Fresh(stack1) && Fresh(stack0) && code != stack1 && code != stack0
      requires Blanked(ram.mem, code) && Blanked(ram.mem, stack1) && Blanked(ram.mem, stack0)
      modifies this`tables, ram, ram.pmm
      ensures Ready() && KernelMap() == old(KernelMap()) && Users() == old(Users())
      ensures ok <==> old(ram.free) >= 4
      ensures ram.free == if ok then old(ram.free) - 4 else 0
      ensures SameElsewhere(old(LowMaps()), LowMaps(), r)
      ensures ok ==> LowMaps() == WithProcess(old(LowMaps()), r, code, stack1, stack0)
                     && Loaded(ram.mem, code, stack1, stack0, payload)
      ensures code !in tables && stack1 !in tables && stack0 !in tables
      ensures old(tables).Keys <= tables.Keys && ram.avail <= old(ram.avail)
      ensures tables.Keys + ram.avail == old(tables).Keys + old(ram.avail)
    {
      hide Ready, KernelMap, LowMaps, WroteTables, Blanked, EmptyRoot, Users, WithProcess, SameElsewhere;
      ghost var m := ram.mem;
      CopyPayload(code, payload);
      EmptyStays(m, ram.mem, r, code);
      LoadedNow(m, ram.mem, code, stack1, stack0, payload);
      ghost var m1, t, avail := ram.mem, tables, ram.avail;
      ok := MapThree(r, code, stack1, stack0);
      WroteFrames(m1, ram.mem, t, tables, avail, ram.avail);
      WroteSpares(m1, ram.mem, t, tables, avail, ram.avail, code);
      WroteSpares(m1, ram.mem, t, tables, avail, ram.avail, stack1);
      WroteSpares(m1, ram.mem, t, tables, avail, ram.avail, stack0);
      LoadedStill(m1, ram.mem, code, stack1, stack0, payload);
    }

    /** The part of `create_user_process` after the space is there: three data
        frames and four tables. */
    method Fill(r: Frame, payload: seq<Byte>)
      returns (ok: bool, ghost code: Frame, ghost stack1: Frame, ghost stack0: Frame)
      requires Ready() && r in Users() && EmptyRoot(ram.mem, r) && r in tables
      modifies this`tables, ram, ram.pmm
      ensures Ready() && KernelMap() == old(KernelMap()) && Users() == old(Users())
      ensures ok <==> old(ram.free) >= 7
      ensures ram.free == if ok then old(ram.free) - 7 else 0
      ensures SameElsewhere(old(LowMaps()), LowMaps(), r)
      ensures ok ==>
                && LowMaps() == WithProcess(old(LowMaps()), r, code, stack1, stack0)
                && Loaded(ram.mem, code, stack1, stack0, payload)
                && FramesSplit(old(tables).Keys, tables.Keys, old(ram.avail), ram.avail, code, stack1, stack0)
    {
      hide Ready, KernelMap, LowMaps, Blanked, EmptyRoot, Users, WithProcess, SameElsewhere, Loaded, FramesOf;
      SameAlready(LowMaps(), r);
      var c, s1, s0 := AllocThree(r);
      code, stack1, stack0 := c, s1, s0;
      if c == 0 || s1 == 0 || s0 == 0 {
        return false, code, stack1, stack0;
      }
      ok := Populate(r, c, s1, s0, payload);
    }

    /** `create_user_process`: with 8 frames or more it takes exactly 8 and maps
        one code page and two stack pages; with fewer it takes all there are
        and gives none back.  Existing spaces do not change.  `made` is the new
        space, kept even when the rest fails. */
    method CreateProcess(payload: seq<Byte>)
      returns (r: Frame, ghost made: Frame, ghost code: Frame, ghost stack1: Frame, ghost stack0: Frame)
      requires template == 0 || Ready()
      modifies this`tables, ram, ram.pmm
      ensures template == 0 ==>
                r == made == 0 && ram.mem == old(ram.mem) && tables == old(tables) && ram.free == old(ram.free)
      ensures template != 0 ==>
                && Ready() && KernelMap() == old(KernelMap())
                && (r != 0 <==> old(ram.free) >= 8)
                && ram.free == (if r != 0 then old(ram.free) - 8 else 0)
                && if made == 0 then r == 0 && Users() == old(Users()) && LowMaps() == old(LowMaps())
                   else && made !in old(Users()) && Users() == old(Users()) + {made}
                        && SameElsewhere(old(LowMaps()), LowMaps(), made)
      ensures r != 0 ==>
                && r == made && LowMaps() == WithProcess(old(LowMaps()), r, code, stack1, stack0)
                && ExactlyProcess(LowMaps(), r, code, stack1, stack0)
                && EightTaken(old(tables).Keys, tables.Keys, old(ram.avail), ram.avail, r, code, stack1, stack0)
                && Loaded(ram.mem, code, stack1, stack0, payload)
    {
      hide Ready, KernelMap, LowMaps, EmptyRoot, Users, WithProcess, SameElsewhere, Loaded, EightTaken, FramesSplit,
           OthersKept, ExactlyProcess;
      ghost var t0, a0 := tables.Keys, ram.avail;
      KeysOfUsers();
      if template != 0 {
        TablesApart();
      }
      code, stack1, stack0 := 0, 0, 0;
      r := Create();
      made := r;
      if r == 0 {
        return;
      }
      ghost var t1, a1 := tables.Keys, ram.avail;
      assert t1 == t0 + {r};
      var ok;
      ok, code, stack1, stack0 := Fill(r, payload);
      if !ok {
        return 0, made, code, stack1, stack0;
      }
      TablesApart();
      EightFrames(t0, t1, tables.Keys, a0, a1, ram.avail, r, code, stack1, stack0);
      NewProcess(old(LowMaps()), r, code, stack1, stack0);
    }

    /** Mapped pages belong to spaces. */
    lemma KeysOfUsers()
      ensures forall k :: k in LowMaps() ==> k.root in Users()
    {
      hide View, MappingAt;
    }

    /** No table is with the allocator, which has as many frames as it says. */
    lemma TablesApart()
      requires Ready()
      ensures tables.Keys !! ram.avail && |ram.avail| == ram.free
    {
      ram.Count();
    }

    ghost function Now(): World
      reads this, ram
    {
      World(Users(), LowMaps())
    }

    /** One operation: done if the budget allows it, and then it has the effect of
        its event. */
    method DoOne(op: Op, spaces: seq<Frame>, ghost b: Budget) returns (e: Event)
      requires Ready() && (op.MapIn? ==> PageOf(op.va).i4 < LOW) && forall r :: r in spaces ==> r in Users()
      requires NoneTwice(spaces) && Priced(ram.mem, spaces, b) && KnownSpaces(b) && b.free == ram.free
      modifies this`tables, ram, ram.pmm
      ensures Ready() && KernelMap() == old(KernelMap())
      ensures Did(op, spaces, e) && Now() == Apply(old(Now()), e)
      ensures e.Made? ==> e.root !in old(Users())
      ensures e.Nothing? <==> !Fits(b, op)
      ensures ram.free == Spend(b, op).free && KnownSpaces(Spend(b, op))
      ensures Priced(ram.mem, if e.Made? then spaces + [e.root] else spaces, Spend(b, op))
    {
      hide Ready, KernelMap, LowMaps, Users, PageOf, Asked, Missing, TablesMade, WroteTables, EmptyRoot, OthersKept,
           PartMade, Priced, Cost;
      HasTemplate();
      NotNegative();
      e := Nothing;
      PricedLength(ram.mem, spaces, b);
      ghost var m := ram.mem;
      match op {
        case NewSpace =>
          var r := Create();
          if r != 0 {
            e := Made(r);
            PricedMade(m, ram.mem, old(Users()), spaces, b, r, ram.free);
          }
        case MapIn(k, va, pa, w, x) =>
          if k < |spaces| {
            PricedFits(m, spaces, b, k, PageOf(va));
            var ok := Map4k(spaces[k], va, pa, w, x);
            if ok {
              e := Mapped(Key(spaces[k], PageOf(va)), Asked(pa, w, x));
              PricedMapped(m, ram.mem, Users(), spaces, b, k, PageOf(va), ram.free);
            } else {
              PricedFailed(m, ram.mem, Users(), spaces, b, k);
            }
          }
      }
    }

    lemma NotNegative()
      requires Ready()
      ensures ram.free >= 0
    {
      ram.NotNegative();
    }

    /** Any sequence of space creations and low-half mappings means what `Fold`
        says and leaves the kernel half alone.  Which of them are done, and how
        many frames are left, follows from the calls alone. */
    method Run(ops: seq<Op>) returns (spaces: seq<Frame>, events: seq<Event>)
      requires Ready() && forall i :: 0 <= i < |ops| && ops[i].MapIn? ==> PageOf(ops[i].va).i4 < LOW
      modifies this`tables, ram, ram.pmm
      ensures Ready() && KernelMap() == old(KernelMap())
      ensures |events| == |ops| && Logged(old(ram.free), ops, spaces, events)
      ensures Now() == Fold(old(Now()), events) && forall r :: r in spaces ==> r !in old(Users())
      ensures NeverAsked(ops) && WriteXorExecute(old(LowMaps())) ==> WriteXorExecute(LowMaps())
      ensures forall k :: Unnamed(ops, spaces, k) ==> SameAt(old(LowMaps()), LowMaps(), k)
      ensures ram.free == Spent(old(ram.free), ops).free
    {
      hide Ready, KernelMap, LowMaps, Users, PageOf, Asked, Priced, Fits, Spend, Spent, Logged, KnownSpaces, Did, Fold,
           Apply, WriteXorExecute, Unnamed, SameAt;
      spaces, events := [], [];
      PricedNow(ram.mem, ram.free);
      LoggedNow(old(Now()), ram.free, ops);
      for n := 0 to |ops|
        invariant Ready() && KernelMap() == old(KernelMap())
        invariant forall r :: r in spaces ==> r in Users() && r !in old(Users())
        invariant old(Users()) <= Users()
        invariant |events| == n && Logged(old(ram.free), ops, spaces, events)
        invariant Now() == Fold(old(Now()), events)
        invariant var b := Spent(old(ram.free), ops[..n]);
                  Priced(ram.mem, spaces, b) && KnownSpaces(b) && b.free == ram.free
      {
        SpentNext(old(ram.free), ops, n);
        SpacesDistinct(old(ram.free), ops, spaces, events);
        ghost var w := Now();
        var e := DoOne(ops[n], spaces, Spent(old(ram.free), ops[..n]));
        UsersNext(w, e);
        LoggedNext(old(ram.free), ops, spaces, events, e);
        FoldNext(old(Now()), events, e);
        if e.Made? {
          spaces := spaces + [e.root];
        }
        events := events + [e];
      }
      assert ops[..|ops|] == ops;
      LoggedAll(old(ram.free), ops, spaces, events);
      OpsNeverBoth(old(Now()), ops, spaces, events);
      forall k | Unnamed(ops, spaces, k)
        ensures SameAt(old(LowMaps()), LowMaps(), k)
      {
        OpsIsolate(old(Now()), ops, spaces, events, k);
      }
    }

    /** Every space has the kernel half of the template. */
    lemma KernelEverywhere(r: Frame)
      requires Ready() && r in Users()
      ensures High(ram.mem, r) == KernelMap()
    {
      KernelShared(ram.mem, ram.mem, kernel, template, r);
    }

    /** No table frame serves two spaces. */
    lemma SpacesDisjoint(k: Key, s: Slot, k': Key, s': Slot)
      requires Ready() && IsKey(tables, k) && IsKey(tables, k')
      requires Visits(ram.mem, k.root, k.pg, 4, s) && Visits(ram.mem, k'.root, k'.pg, 4, s')
      requires s.frame == s'.frame
      ensures k.root == k'.root
    {
      OneRoot(ram.mem, tables, LOW, k.root, k.pg, k'.root, k'.pg, 4, s, s');
    }
  }
}
