/** Physical memory together with the frame allocator that hands it out. */
module Ram {
  import opened Types
  import opened PageTables
  import P = PmmSimple

  class Machine {
    var mem: Mem
    const pmm: P.Pmm
    /** The frames the allocator may still hand out, and how many it reports. */
    ghost var avail: set<int>
    ghost var free: int

    ghost predicate Valid()
      reads `avail, `free, pmm, pmm.freePages
    {
      match pmm.Books()
      case Book(s, _, _) => pmm.Valid() && avail == P.Avail(s) && free == P.FreeCount(s) >= 0
    }

    constructor (m: Mem)
      ensures mem == m && Valid() && fresh(pmm) && fresh(pmm.freePages)
      ensures pmm.Books() == P.Book(P.Init(), {}, {})
    {
      mem := m;
      pmm := new P.Pmm();
      new;
      avail, free := P.Avail(pmm.Value()), P.FreeCount(pmm.Value());
    }

    method Clear(c: Frame)
      modifies `mem
      ensures Blanked(mem, c) && forall s: Slot :: s.frame != c ==> mem[s] == old(mem)[s]
    {
      for i := 0 to 512
        invariant forall s: Slot :: s.frame != c ==> mem[s] == old(mem)[s]
        invariant forall j: Index :: j < i ==> mem[Slot(c, j)] == ZERO
      {
        mem := mem[Slot(c, i) := ZERO];
      }
    }

    /** Take a frame; frame 0 reports that none is left. */
    method AllocFrame() returns (c: Frame)
      requires Valid()
      modifies `avail, `free, pmm
      ensures Valid()
      ensures if old(free) == 0 then c == 0 && avail == old(avail) && free == 0 && pmm.Books() == old(pmm.Books())
              else c in old(avail) && c != 0 && avail == old(avail) - {c} && free == old(free) - 1
                   && pmm.out == old(pmm.out) + {c * PAGE_SIZE} && c * PAGE_SIZE !in old(pmm.out)
                   && pmm.lost == old(pmm.lost)
    {
      hide P.Inv, P.Avail, P.GetStats;
      P.AllocKeeps(pmm.Books());
      P.PoolFrames(pmm.Books());
      var a := pmm.AllocPage();
      c := a / PAGE_SIZE;
      avail, free := P.Avail(pmm.Value()), P.FreeCount(pmm.Value());
    }

    /** Give a held frame back; a full free stack drops it. */
    method FreeFrame(c: Frame)
      requires Valid() && c * PAGE_SIZE in pmm.out
      modifies `avail, `free, pmm, pmm.freePages
      ensures Valid() && pmm.out == old(pmm.out) - {c * PAGE_SIZE}
      ensures if old(pmm.freeCount) < P.MAX_FREE then
                avail == old(avail) + {c} && free == old(free) + 1 && pmm.lost == old(pmm.lost)
              else
                avail == old(avail) && free == old(free) && pmm.lost == old(pmm.lost) + {c * PAGE_SIZE}
    {
      hide P.Inv, P.Avail, P.GetStats;
      ghost var b := pmm.Books();
      P.FreeKeeps(b, c * PAGE_SIZE);
      P.HeldInside(b, c * PAGE_SIZE);
      if pmm.freeCount < P.MAX_FREE {
        P.FreeGivesOne(b, c * PAGE_SIZE);
      }
      pmm.FreePage(c * PAGE_SIZE);
      avail, free := P.Avail(pmm.Value()), P.FreeCount(pmm.Value());
    }

    /** Take a frame and clear it. */
    method AllocZeroed() returns (c: Frame)
      requires Valid()
      modifies this, pmm
      ensures Valid()
      ensures if old(free) == 0 then c == 0 && avail == old(avail) && free == 0 && mem == old(mem)
              else c in old(avail) && c != 0 && avail == old(avail) - {c} && free == old(free) - 1
                   && Blanked(mem, c) && forall s: Slot :: s.frame != c ==> mem[s] == old(mem)[s]
    {
      c := AllocFrame();
      if c != 0 {
        Clear(c);
      }
    }

    /** What `pmm_get_stats` reports, from the pages callers hold. */
    lemma Figures()
      requires Valid()
      ensures P.GetStats(pmm.Value()) == P.Stats(P.TOTAL, free, |pmm.out| + |pmm.lost|)
    {
    }

    /** The first stage of `setup_user_address_space`: three frames, or none
        kept and the allocator's figures as they were. */
    method TakeThree() returns (ok: bool, code: Frame, stack1: Frame, stack0: Frame)
      requires Valid()
      modifies `avail, `free, pmm, pmm.freePages
      ensures Valid()
      ensures ok <==> old(free) >= 3
      ensures ok ==> free == old(free) - 3 && avail <= old(avail)
                     && code != stack1 && code != stack0 && stack1 != stack0
                     && {code, stack1, stack0} <= old(avail) && {code, stack1, stack0} !! avail
      ensures !ok ==> pmm.out == old(pmm.out) && avail == old(avail)
                      && P.GetStats(pmm.Value()) == old(P.GetStats(pmm.Value()))
    {
      hide Valid, P.GetStats, P.Avail;
      Figures();
      NotNegative();
      code := AllocFrame();
      NotNegative();
      stack1 := AllocFrame();
      NotNegative();
      stack0 := AllocFrame();
      NotNegative();
      ok := code != 0 && stack1 != 0 && stack0 != 0;
      if !ok {
        // An exhausted allocator stays exhausted: there is no third frame here.
        assert stack0 == 0;
        GiveBack(code);
        GiveBack(stack1);
        Figures();
      }
    }

    /** Free a frame if there is one. */
    method GiveBack(c: Frame)
      requires Valid() && (c == 0 || c * PAGE_SIZE in pmm.out) && free < P.MAX_FREE
      modifies `avail, `free, pmm, pmm.freePages
      ensures Valid() && pmm.lost == old(pmm.lost)
      ensures if c == 0 then avail == old(avail) && free == old(free) && pmm.out == old(pmm.out)
              else avail == old(avail) + {c} && free == old(free) + 1 && pmm.out == old(pmm.out) - {c * PAGE_SIZE}
    {
      hide Valid;
      StackBound();
      if c != 0 {
        FreeFrame(c);
      }
    }

    lemma StackBound()
      requires Valid()
      ensures pmm.freeCount <= free
    {
    }

    /** The count the allocator reports is the number of frames it has. */
    lemma Count()
      requires Valid()
      ensures free == |avail|
    {
      P.AvailCount(pmm.Books());
    }

    lemma NotNegative()
      requires Valid()
      ensures free >= 0
    {
    }
  }
}
