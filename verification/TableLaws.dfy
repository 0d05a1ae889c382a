/** What each operation of os/kernel/sched/thread_minimal.c does to the table,
    told without its definition, and what follows over runs: no thread that is
    ready or running is ever lost, and each runs for exactly its slice. */
module TableLaws {
  import opened TableModel
  import Heap

  /** Everything but the table and who runs is as it was. */
  predicate SameBut(s: Sched, s': Sched) {
    && |s'.table| == |s.table| && s'.nextTid == s.nextTid && s'.active == s.active && s'.ticks == s.ticks
    && s'.enabled == s.enabled && s'.heap == s.heap && s'.stacks == s.stacks
  }

  /** The processor went from the current thread, which is READY now, to the READY
      thread at the least cyclic distance; no other slot changed. */
  ghost predicate HandedOver(s: Sched, s': Sched)
    requires 0 <= s.current < |s.table|
  {
    var (n, c, r) := (|s.table|, s.current, s'.current);
    && SameBut(s, s') && 0 <= r < n && r != c && IsReady(s.table[r])
    && s'.table[c] == s.table[c].(state := READY) && s'.table[r] == s.table[r].(state := RUNNING)
    && (forall i :: 0 <= i < n && i != c && i != r ==> s'.table[i] == s.table[i])
    && (forall i :: 0 <= i < n && IsReady(s.table[i]) ==> Distance(n, c, r) <= Distance(n, c, i))
  }

  /** A yield hands over exactly when somebody is READY. */
  lemma YieldIs(s: Sched)
    requires Inv(s)
    ensures if s.current < 0 || NobodyReady(s) then Yield(s) == s else HandedOver(s, Yield(s))
  {
    hide StacksOk, CountActive, Search;
    if s.current >= 0 {
      assert SlotOk(s, s.current);
      FindNextIs(s);
    }
  }

  /** A tick costs the running thread one unit of its slice.  The last unit is
      followed by a new slice of 10 and a handover if somebody is READY. */
  lemma ChargeExact(s: Sched)
    requires Inv(s) && s.current >= 0
    ensures var (c, left) := (s.current, s.table[s.current].slice - 1);
            var t := s.(table := s.table[c := s.table[c].(slice := if left > 0 then left else 10)]);
            if left > 0 || NobodyReady(s) then Charge(s) == t else HandedOver(t, Charge(s))
  {
    hide StacksOk, CountActive, Yield;
    assert SlotOk(s, s.current);
    ChargeIs(s);
    if s.table[s.current].slice == 1 {
      SliceKeeps(s, 10);
      var t := s.(table := s.table[s.current := s.table[s.current].(slice := 10)]);
      assert forall i :: 0 <= i < |s.table| ==> IsReady(t.table[i]) == IsReady(s.table[i]);
      YieldIs(t);
    }
  }

  predicate HoldsZombie(x: Slot) {
    x.tid != 0 && x.state == ZOMBIE
  }

  /** The cleanup frees every slot that holds a zombie and touches no other. */
  lemma CleanupIs(table: seq<Slot>)
    ensures |Cleanup(table)| == |table|
    ensures forall i :: 0 <= i < |table| ==> !HoldsZombie(Cleanup(table)[i])
    ensures forall i :: 0 <= i < |table| ==>
              if HoldsZombie(table[i]) then Cleanup(table)[i] == table[i].(tid := 0, stackBase := 0)
              else Cleanup(table)[i] == table[i]
  {
  }

  /** A tick of a started scheduler: ticks are counted in 32 bits, the running
      thread is charged, and after every hundredth tick no zombie holds a slot. */
  lemma TickIs(s: Sched)
    requires Inv(s)
    ensures !s.enabled ==> Tick(s) == s
    ensures s.enabled ==>
              var n := (s.ticks + 1) % 0x1_0000_0000;
              var t := if s.current < 0 then s.(ticks := n) else Charge(s.(ticks := n));
              && Tick(s) == t.(table := Tick(s).table) && Tick(s).ticks == n && |Tick(s).table| == |s.table|
              && (n % 100 == 0 ==> forall i :: 0 <= i < |s.table| ==> !HoldsZombie(Tick(s).table[i]))
              && (forall i :: 0 <= i < |s.table| ==>
                    var x := t.table[i];
                    Tick(s).table[i] == if n % 100 == 0 && HoldsZombie(x) then x.(tid := 0, stackBase := 0) else x)
  {
    hide Charge, Cleanup, StacksOk, CountActive;
    if s.enabled {
      var u := s.(ticks := (s.ticks + 1) % 0x1_0000_0000);
      CounterKeeps(s, u.ticks);
      ChargeLength(u);
      CleanupIs(Charge(u).table);
    }
  }

  lemma ChargeLength(s: Sched)
    requires Inv(s)
    ensures s.current < 0 ==> Charge(s) == s
    ensures |Charge(s).table| == |s.table| && Charge(s).ticks == s.ticks
  {
    hide StacksOk, CountActive;
    if s.current >= 0 {
      hide Charge;
      ChargeExact(s);
    }
  }

  /** A thread is created if and only if a slot is free and its stack ends before
      the 1 MB limit of the heap: in the lowest free slot, READY, with the next id,
      a slice of 10 and a stack pointer 16 to 31 bytes below the top of its stack. */
  lemma CreateIs(s: Sched) returns (i: int)
    requires Inv(s)
    ensures i == -1 ==> Create(s) == s && forall j :: 0 <= j < |s.table| ==> s.table[j].tid != 0
    ensures i != -1 ==> 0 <= i < |s.table| && s.table[i].tid == 0 && forall j :: 0 <= j < i ==> s.table[j].tid != 0
    ensures i != -1 && Heap.Top(s.heap) + 8192 >= 0xffff_ffff_8110_0000 ==> Create(s) == s.(heap := Heap.Top(s.heap))
    ensures i != -1 && Heap.Top(s.heap) + 8192 < 0xffff_ffff_8110_0000 ==>
              var (base, x, s') := (Heap.Top(s.heap), Create(s).table[i], Create(s));
              && s' == s.(table := s.table[i := x], nextTid := s.nextTid + 1, active := s.active + 1,
                          heap := base + 8192, stacks := s.stacks + [base])
              && x.tid == |s.stacks| + 1 && x.state == READY && x.slice == 10 && x.stackBase == base
              && base + 8192 - 32 < x.rsp <= base + 8192 - 16 && x.rsp % 16 == 0
  {
    hide Heap.Kmalloc, Heap.Inv, CountActive, SlotOk, StacksOk, StackPointer;
    FreeSlotIs(s.table, 0);
    i := FreeSlot(s.table, 0);
    NextThread(s);
    StackTop(Heap.Top(s.heap));
    Heap.KmallocExact(s.heap, 8192);
  }

  lemma NextThread(s: Sched)
    requires Inv(s)
    ensures s.nextTid == |s.stacks| + 1 && s.active < s.nextTid <= 128
    ensures Heap.Inv(s.heap) && 0 < Heap.Top(s.heap) < 0xffff_ffff_8110_0000
  {
    hide CountActive, SlotOk;
  }

  lemma StackTop(base: int)
    ensures base + 8192 - 32 < StackPointer(base) <= base + 8192 - 16 && StackPointer(base) % 16 == 0
  {
  }

  /** Starting without a current thread runs the READY thread in the lowest slot,
      and changes nothing else. */
  lemma StartIs(s: Sched)
    requires Inv(s) && s.current < 0
    ensures NobodyReady(s) ==> Start(s) == s.(enabled := true)
    ensures !NobodyReady(s) ==>
              var r := Start(s).current;
              && 0 <= r < |s.table| && IsReady(s.table[r]) && (forall i :: 0 <= i < r ==> !IsReady(s.table[i]))
              && Start(s) == s.(enabled := true, current := r, table := s.table[r := s.table[r].(state := RUNNING)])
  {
    hide StacksOk, CountActive, FindNext;
    EnabledKeeps(s);
    FindNextNone(s.(enabled := true));
  }

  /** Running threads directly ends every READY one and touches no other. */
  lemma RunDirectIs(s: Sched)
    ensures NobodyReady(s) ==> RunDirect(s) == s
    ensures !NobodyReady(s) ==>
              && RunDirect(s) == s.(table := RunDirect(s).table, current := -1) && |RunDirect(s).table| == |s.table|
              && forall i :: 0 <= i < |s.table| ==>
                   RunDirect(s).table[i] == if IsReady(s.table[i]) then s.table[i].(state := ZOMBIE) else s.table[i]
  {
  }

  /** A finishing thread is counted out, and its slot keeps its thread; the next
      READY one runs, with the finished one READY again. */
  lemma FinishIs(s: Sched)
    requires Inv(s) && s.current >= 0
    ensures Finish(s).active == s.active - 1 >= 0
    ensures Finish(s).table[s.current].tid == s.table[s.current].tid != 0
    ensures if NobodyReady(s) then Finish(s).current == s.current
            else IsReady(s.table[Finish(s).current]) && Finish(s).table[Finish(s).current].state == RUNNING
  {
    hide StacksOk, Search;
    NextThread(s);
    var z := s.(table := SetState(s.table, s.current, ZOMBIE), active := s.active - 1);
    assert SlotOk(s, s.current);
    CountSet(s.table, s.current, s.table[s.current].(state := ZOMBIE));
    CountMember(s.table, s.current);
    assert forall i :: 0 <= i < |s.table| ==> IsReady(z.table[i]) == IsReady(s.table[i]);
    var from := StartIndex(z);
    var k := SearchIs(z.table, from, 0);
    if i :| 0 <= i < |s.table| && IsReady(s.table[i]) {
      CountMember(z.table, i);
      assert Around(|s.table|, from, Distance(|s.table|, s.current, i)) == i;
    }
  }

  // ------------------------------------------------ no thread is ever lost

  /** Every slot with an active thread still has it, and it is active. */
  ghost predicate ActiveKept(s: Sched, s': Sched) {
    && |s'.table| == |s.table|
    && forall i :: 0 <= i < |s.table| && IsActive(s.table[i]) ==>
         var (x, x') := (s.table[i], s'.table[i]);
         IsActive(x') && x'.tid == x.tid && x'.stackBase == x.stackBase && x'.rsp == x.rsp
  }

  /** And nobody else became active but the threads created. */
  ghost predicate Conserves(s: Sched, s': Sched) {
    ActiveKept(s, s') && CountActive(s'.table) == CountActive(s.table) + |s'.stacks| - |s.stacks|
  }

  lemma {:induction false} SameCount(table: seq<Slot>, table': seq<Slot>)
    requires |table'| == |table| && forall i :: 0 <= i < |table| ==> IsActive(table'[i]) == IsActive(table[i])
    ensures CountActive(table') == CountActive(table)
  {
    if table != [] {
      SameCount(table[..|table| - 1], table'[..|table| - 1]);
    }
  }

  lemma HandoverConserves(s: Sched, s': Sched)
    requires Inv(s) && s.current >= 0 && HandedOver(s, s')
    ensures Conserves(s, s')
  {
    hide StacksOk;
    assert SlotOk(s, s.current);
    SameCount(s.table, s'.table);
  }

  lemma ChargeConserves(s: Sched)
    requires Inv(s) && s.current >= 0
    ensures Conserves(s, Charge(s))
  {
    hide StacksOk, Charge, CountActive, Yield;
    ChargeExact(s);
    var (c, left) := (s.current, s.table[s.current].slice - 1);
    var t := s.(table := s.table[c := s.table[c].(slice := if left > 0 then left else 10)]);
    SameCount(s.table, t.table);
    if left <= 0 && !NobodyReady(s) {
      assert SlotOk(s, c);
      SliceKeeps(s, 10);
      HandoverConserves(t, Charge(s));
    }
  }

  lemma TickConserves(s: Sched)
    requires Inv(s)
    ensures Conserves(s, Tick(s))
  {
    hide StacksOk, Charge, CountActive, Tick;
    TickIs(s);
    if s.enabled {
      var u := s.(ticks := (s.ticks + 1) % 0x1_0000_0000);
      CounterKeeps(s, u.ticks);
      if s.current >= 0 {
        ChargeConserves(u);
        SameCount(Charge(u).table, Tick(s).table);
      } else {
        SameCount(u.table, Tick(s).table);
      }
    }
  }

  lemma CreateConserves(s: Sched)
    requires Inv(s)
    ensures Conserves(s, Create(s))
  {
    hide StacksOk, CountActive, Create;
    var i := CreateIs(s);
    if i != -1 && Heap.Top(s.heap) + 8192 < 0xffff_ffff_8110_0000 {
      assert SlotOk(s, i);
      CountSet(s.table, i, Create(s).table[i]);
    }
  }

  /** No step but a direct run takes a thread out of the active ones, and only a
      creation adds one. */
  lemma StepConserves(s: Sched, e: Event)
    requires Inv(s) && Allowed(s, e) && e != RunThreads
    ensures Conserves(s, Step(s, e))
  {
    hide StacksOk, CountActive, Create, Tick, Yield, Start;
    match e {
      case CreateThread => CreateConserves(s);
      case TimerTick => TickConserves(s);
      case YieldCpu =>
        YieldIs(s);
        if s.current >= 0 && !NobodyReady(s) {
          HandoverConserves(s, Yield(s));
        }
      case StartUp => StartConserves(s);
      case OtherAlloc(_) =>
    }
  }

  lemma StartConserves(s: Sched)
    requires Inv(s) && Allowed(s, StartUp)
    ensures Conserves(s, Start(s))
  {
    hide StacksOk, CountActive, FindNext;
    if s.current < 0 {
      hide Start;
      StartIs(s);
      SameCount(s.table, Start(s).table);
    } else {
      EnabledKeeps(s);
      FindNextNone(s.(enabled := true));
    }
  }

  /** Over every run without a direct run, active threads stay active in their
      slots, and the active ones are those at the start and those created. */
  lemma {:induction false} RunConserves(s: Sched, es: seq<Event>)
    requires Inv(s) && AllowedRun(s, es) && forall i :: 0 <= i < |es| ==> es[i] != RunThreads
    ensures Conserves(s, Run(s, es))
    decreases |es|
  {
    hide StacksOk, SlotOk, Step, CountActive, IsActive;
    if es != [] {
      StepKeeps(s, es[0]);
      StepConserves(s, es[0]);
      RunConserves(Step(s, es[0]), es[1..]);
      KeptThen(s, Step(s, es[0]), Run(s, es));
    } else {
      KeptAlready(s);
    }
  }

  lemma KeptAlready(s: Sched)
    ensures ActiveKept(s, s)
  {
  }

  lemma KeptThen(s: Sched, s1: Sched, s2: Sched)
    requires ActiveKept(s, s1) && ActiveKept(s1, s2)
    ensures ActiveKept(s, s2)
  {
  }

  // ---------------------------------------------------------- exact service

  /** Neither yields, nor starts the scheduler, nor runs threads directly. */
  predicate Quiet(e: Event) {
    e == TimerTick || e == CreateThread || e.OtherAlloc?
  }

  lemma QuietStep(s: Sched, e: Event)
    requires Inv(s) && s.current >= 0 && Allowed(s, e) && Quiet(e)
    requires e == TimerTick ==> s.table[s.current].slice > 1
    ensures var (c, s') := (s.current, Step(s, e));
            && s'.current == c && |s'.table| == |s.table|
            && s'.table[c].slice == s.table[c].slice - (if e == TimerTick then 1 else 0)
  {
    hide StacksOk, CountActive, Create, Tick, Charge;
    assert SlotOk(s, s.current);
    match e {
      case TimerTick =>
        TickIs(s);
        var u := s.(ticks := (s.ticks + 1) % 0x1_0000_0000);
        CounterKeeps(s, u.ticks);
        ChargeExact(u);
      case CreateThread =>
        var i := CreateIs(s);
      case OtherAlloc(_) =>
    }
  }

  /** The running thread keeps the processor for exactly its slice of ticks: while
      fewer have passed it runs, with that many less left ... */
  lemma {:induction false} Service(s: Sched, es: seq<Event>)
    requires Inv(s) && s.current >= 0 && AllowedRun(s, es) && forall i :: 0 <= i < |es| ==> Quiet(es[i])
    requires TickCount(es) < s.table[s.current].slice
    ensures var (c, s') := (s.current, Run(s, es));
            && Inv(s') && s'.current == c && |s'.table| == |s.table|
            && s'.table[c].slice == s.table[c].slice - TickCount(es)
    decreases |es|
  {
    hide StacksOk, CountActive, Step, SlotOk;
    if es != [] {
      StepKeeps(s, es[0]);
      TicksLeftOver(es);
      QuietStep(s, es[0]);
      Service(Step(s, es[0]), es[1..]);
    }
  }

  lemma TicksLeftOver(es: seq<Event>)
    requires es != []
    ensures TickCount(es) == TickCount(es[1..]) + if es[0] == TimerTick then 1 else 0
  {
  }

  /** ... and with the last one it gets a new slice of 10 and is READY, if anybody
      was READY to run instead. */
  lemma ServiceEnds(s: Sched, es: seq<Event>)
    requires Inv(s) && s.current >= 0 && AllowedRun(s, es) && forall i :: 0 <= i < |es| ==> Quiet(es[i])
    requires TickCount(es) == s.table[s.current].slice - 1
    ensures Inv(Run(s, es)) && |Run(s, es).table| == |s.table|
    ensures |Tick(Run(s, es)).table| == |s.table| && 0 <= Tick(Run(s, es)).current < |s.table|
    ensures var (c, s', s'') := (s.current, Run(s, es), Tick(Run(s, es)));
            && s''.table[c].slice == 10 && s''.table[c].tid == s'.table[c].tid
            && (if NobodyReady(s') then s''.current == c && s''.table[c].state == RUNNING
                else s''.current != c && IsReady(s'.table[s''.current]) && s''.table[c].state == READY)
  {
    hide StacksOk, CountActive, Tick, Charge, Run;
    Service(s, es);
    var s' := Run(s, es);
    assert SlotOk(s', s'.current);
    TickIs(s');
    var u := s'.(ticks := (s'.ticks + 1) % 0x1_0000_0000);
    CounterKeeps(s', u.ticks);
    ChargeExact(u);
  }
}
