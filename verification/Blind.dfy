/** What the table walks of os/kernel/mm/vmm.c do to any memory: they test the
    present bit of each entry and never its page-size bit. */
module Blind {
  import opened Types
  import opened PageTables
  import opened Addresses
  import opened PteWords

  ghost function Cleared(m: Mem, c: Frame): Mem {
    map s: Slot | s in m.Keys :: if s.frame == c then ZERO else m[s]
  }

  lemma ClearedIs(m: Mem, m': Mem, c: Frame)
    requires Blanked(m', c) && forall s: Slot :: s.frame != c ==> m'[s] == m[s]
    ensures m' == Cleared(m, c)
  {
    forall s: Slot
      ensures m'[s] == Cleared(m, c)[s]
    {
    }
  }

  /** Memory, and the level-1 table if the walk got there. */
  datatype Reached = Reached(m: Mem, at: Option<Frame>)

  /** The walk from table `f` down, where `cs` are the frames the allocator has
      for the tables that are missing. */
  ghost function BlindWalk(m: Mem, f: Frame, pg: Page, level: int, cs: seq<Frame>): Reached
    requires 1 <= level <= 4
    decreases level
  {
    var s := Slot(f, pg.At(level));
    if level == 1 then Reached(m, Some(f))
    else if m[s].p then BlindWalk(m, m[s].frame, pg, level - 1, cs)
    else if cs == [] then Reached(m, None)
    else BlindWalk(Cleared(m, cs[0])[s := Link(cs[0])], cs[0], pg, level - 1, cs[1..])
  }

  /** One step of it, which took the frames `took`. */
  ghost predicate Stepped(m: Mem, s: Slot, took: seq<Frame>, m': Mem, next: Option<Frame>) {
    if m[s].p then took == [] && m' == m && next == Some(m[s].frame)
    else if took == [] then m' == m && next == None
    else |took| == 1 && m' == Cleared(m, took[0])[s := Link(took[0])] && next == Some(took[0])
  }

  lemma BlindStep(m: Mem, f: Frame, pg: Page, level: int, took: seq<Frame>, rest: seq<Frame>,
                  m': Mem, next: Option<Frame>)
    requires 2 <= level <= 4 && Stepped(m, Slot(f, pg.At(level)), took, m', next) && (next.None? ==> rest == [])
    ensures BlindWalk(m, f, pg, level, took + rest) ==
            if next.Some? then BlindWalk(m', next.value, pg, level - 1, rest) else Reached(m', None)
    ensures (took == [] ==> took + rest == rest) && (rest == [] ==> took + rest == took)
  {
    hide Cleared;
    if took == [] {
      assert took + rest == rest;
    } else {
      assert (took + rest)[1..] == rest;
    }
  }

  /** Mapping `pg` by `e`: the store, if the walk got to a table. */
  ghost function BlindMap(m: Mem, root: Frame, pg: Page, e: Pte, cs: seq<Frame>): Mem {
    var w := BlindWalk(m, root, pg, 4, cs);
    if w.at.Some? then w.m[Slot(w.at.value, pg.i1) := e] else w.m
  }

  /** The level-1 table found by the walk that makes none. */
  ghost function BlindTable(m: Mem, root: Frame, pg: Page): Option<Frame> {
    BlindWalk(m, root, pg, 4, []).at
  }

  ghost function BlindUnmap(m: Mem, root: Frame, pg: Page): Mem {
    var at := BlindTable(m, root, pg);
    if at.Some? then m[Slot(at.value, pg.i1) := ZERO] else m
  }

  ghost function BlindLookup(m: Mem, root: Frame, pg: Page): int {
    var at := BlindTable(m, root, pg);
    if at.Some? && m[Slot(at.value, pg.i1)].p then m[Slot(at.value, pg.i1)].frame * PAGE_SIZE else 0
  }

  /** Mapping one page after the other, with the frames each one takes. */
  ghost function BlindMapRange(m: Mem, root: Frame, va: U64, pa: U64, flags: U64, css: seq<seq<Frame>>): Mem {
    if css == [] then m
    else
      var n := |css| - 1;
      var before := BlindMapRange(m, root, va, pa, flags, css[..n]);
      BlindMap(before, root, PageOf(Plus(va, n)), LeafFor(Plus(pa, n), flags), css[n])
  }

  ghost function BlindUnmapRange(m: Mem, root: Frame, va: U64, n: nat): Mem {
    if n == 0 then m else BlindUnmap(BlindUnmapRange(m, root, va, n - 1), root, PageOf(Plus(va, n - 1)))
  }

  // ------------------------------------------------------------- the lookup

  /** The address the processor translates the page to, 0 if it is unmapped. */
  ghost function TrueAddress(m: Mem, root: Frame, pg: Page): int {
    match View(m, root, pg, 4)
    case None => 0
    case Some(l) => PhysFrame(l, pg) * PAGE_SIZE
  }

  /** Without a large page, the walk ends where the processor's does. */
  lemma {:induction false} BlindReads(m: Mem, f: Frame, pg: Page, level: int)
    requires 1 <= level <= 4
    requires View(m, f, pg, level).Some? ==> View(m, f, pg, level).value.level <= 1
    ensures BlindWalk(m, f, pg, level, []).m == m
    ensures View(m, f, pg, level) ==
            match BlindWalk(m, f, pg, level, []).at
            case None => None
            case Some(f') => if m[Slot(f', pg.i1)].p then Some(Leaf(1, m[Slot(f', pg.i1)])) else None
    decreases level
  {
    var e := m[Slot(f, pg.At(level))];
    if level > 1 && e.p {
      BlindReads(m, e.frame, pg, level - 1);
    }
  }

  lemma LookupRight(m: Mem, root: Frame, pg: Page)
    requires View(m, root, pg, 4).Some? ==> View(m, root, pg, 4).value.level <= 1
    ensures BlindLookup(m, root, pg) == TrueAddress(m, root, pg)
    ensures View(m, root, pg, 4).Some? ==> View(m, root, pg, 4).value.level == 1
  {
    hide View, BlindWalk;
    BlindReads(m, root, pg, 4);
  }

  /** With a large page, the walk goes on in that page's memory. */
  lemma {:induction false} BlindInside(m: Mem, f: Frame, pg: Page, level: int, l: Leaf, cs: seq<Frame>)
    requires 1 <= level <= 4 && View(m, f, pg, level) == Some(l) && l.level > 1
    ensures l.level <= 3 && l.level <= level
    ensures BlindWalk(m, f, pg, level, cs) == BlindWalk(m, l.e.frame, pg, l.level - 1, cs)
    decreases level
  {
    var e := m[Slot(f, pg.At(level))];
    if Points(level, e) {
      BlindInside(m, e.frame, pg, level - 1, l, cs);
    }
  }

  /** The word of a large page that decides where the walk goes next. */
  function FirstWord(l: Leaf, pg: Page): Slot {
    Slot(l.e.frame, if l.level == 2 then pg.i1 else pg.i2)
  }

  /** Clearing that word, which is data, makes the lookup report 0. */
  lemma LookupWrong(m: Mem, t: Forest, root: Frame, pg: Page, l: Leaf)
    requires Tree(m, t, 512) && root in t && t[root] == Root
    requires View(m, root, pg, 4) == Some(l) && l.level > 1 && l.e.frame !in t
    ensures var m' := m[FirstWord(l, pg) := ZERO];
            && SameFrames(m, m', t.Keys) && View(m', root, pg, 4) == Some(l)
            && BlindLookup(m', root, pg) == 0
  {
    var m' := m[FirstWord(l, pg) := ZERO];
    OutsideWalk(m, m', t, 512, root, pg, 4);
    BlindInside(m', root, pg, 4, l, []);
    if l.level == 3 {
      assert BlindWalk(m', l.e.frame, pg, 2, []) == Reached(m', None);
    } else {
      assert BlindWalk(m', l.e.frame, pg, 1, []) == Reached(m', Some(l.e.frame));
    }
  }

  ghost predicate LookupOk(m: Mem, root: Frame, pg: Page) {
    BlindLookup(m, root, pg) == TrueAddress(m, root, pg)
  }

  /** The lookup gives the processor's address, whatever is in memory outside
      the tables, if and only if no large page covers the page. */
  lemma LookupExact(m: Mem, t: Forest, root: Frame, pg: Page)
    requires Tree(m, t, 512) && root in t && t[root] == Root
    requires View(m, root, pg, 4).Some? && View(m, root, pg, 4).value.level > 1 ==>
               View(m, root, pg, 4).value.e.frame !in t && TrueAddress(m, root, pg) != 0
    ensures (forall m': Mem :: SameFrames(m, m', t.Keys) ==> LookupOk(m', root, pg))
            <==> (View(m, root, pg, 4).Some? ==> View(m, root, pg, 4).value.level <= 1)
  {
    if View(m, root, pg, 4).Some? && View(m, root, pg, 4).value.level > 1 {
      var l := View(m, root, pg, 4).value;
      LookupWrong(m, t, root, pg, l);
      assert !LookupOk(m[FirstWord(l, pg) := ZERO], root, pg);
    } else {
      forall m': Mem | SameFrames(m, m', t.Keys)
        ensures LookupOk(m', root, pg)
      {
        OutsideWalk(m, m', t, 512, root, pg, 4);
        LookupRight(m', root, pg);
      }
    }
  }

  // ----------------------------------------------- stores that go astray

  /** The slot reached by following three entries, present or not. */
  function BlindSlot(m: Mem, root: Frame, pg: Page): Slot {
    var pdpt := m[Slot(root, pg.i4)].frame;
    var pd := m[Slot(pdpt, pg.i3)].frame;
    var pt := m[Slot(pd, pg.i2)].frame;
    Slot(pt, pg.i1)
  }

  /** With a 4K leaf that slot is the page's own leaf slot. */
  lemma BlindHits(m: Mem, t: Forest, root: Frame, pg: Page, e: Pte)
    requires Tree(m, t, 512) && root in t && t[root] == Root
    requires View(m, root, pg, 4) == Some(Leaf(1, e))
    ensures Visits(m, root, pg, 4, BlindSlot(m, root, pg)) && m[BlindSlot(m, root, pg)] == e && e.p
  {
    var pdpt := m[Slot(root, pg.i4)].frame;
    var pd := m[Slot(pdpt, pg.i3)].frame;
    assert View(m, root, pg, 4) == View(m, pdpt, pg, 3);
    assert View(m, pdpt, pg, 3) == View(m, pd, pg, 2);
    assert Visits(m, pd, pg, 2, BlindSlot(m, root, pg));
    assert Visits(m, pdpt, pg, 3, BlindSlot(m, root, pg));
  }

  /** What mapping a page under a large page writes: a word of a 2M page; for a
      1G page a word of the frame its middle word names, or, if that word is not
      present, the middle word itself and a new table. */
  lemma HugeMapWrites(m: Mem, root: Frame, pg: Page, l: Leaf, x: Pte, cs: seq<Frame>)
    requires View(m, root, pg, 4) == Some(l) && l.level > 1
    ensures var (m', middle) := (BlindMap(m, root, pg, x, cs), Slot(l.e.frame, pg.i2));
            && (l.level == 2 ==> m' == m[Slot(l.e.frame, pg.i1) := x])
            && (l.level == 3 && m[middle].p ==> m' == m[Slot(m[middle].frame, pg.i1) := x])
            && (l.level == 3 && !m[middle].p && cs == [] ==> m' == m)
            && (l.level == 3 && !m[middle].p && cs != [] ==>
                  m' == Cleared(m, cs[0])[middle := Link(cs[0])][Slot(cs[0], pg.i1) := x])
  {
    hide Cleared;
    BlindInside(m, root, pg, 4, l, cs);
  }

  /** Unless it hits a table, all of that is lost on the page map. */
  lemma HugeMapLost(m: Mem, t: Forest, root: Frame, pg: Page, l: Leaf, x: Pte, cs: seq<Frame>)
    requires Tree(m, t, 512) && root in t && t[root] == Root
    requires View(m, root, pg, 4) == Some(l) && l.level > 1 && l.e.frame !in t && (cs != [] ==> cs[0] !in t)
    requires l.level == 3 && m[Slot(l.e.frame, pg.i2)].p ==> m[Slot(l.e.frame, pg.i2)].frame !in t
    ensures PageMap(BlindMap(m, root, pg, x, cs), root) == PageMap(m, root)
  {
    hide BlindWalk, View;
    BlindInside(m, root, pg, 4, l, cs);
    HugeMapWrites(m, root, pg, l, x, cs);
    var m' := BlindMap(m, root, pg, x, cs);
    forall pg': Page
      ensures View(m', root, pg', 4) == View(m, root, pg', 4)
    {
      OutsideWalk(m, m', t, 512, root, pg', 4);
    }
  }
}
