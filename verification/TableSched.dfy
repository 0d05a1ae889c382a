/** The table scheduler of os/kernel/sched/thread_minimal.c as a value: the
    thread table, who runs, the counters, and the heap its stacks come from. */
module TableModel {
  import opened Types
  import Heap

  const SLICE := 10
  const STACK := 8192

  datatype ThreadState = READY | RUNNING | BLOCKED | ZOMBIE

  /** A table slot; it is free when its thread id is 0. */
  datatype Slot = Slot(tid: int, state: ThreadState, slice: int, stackBase: int, rsp: int)

  const FREE := Slot(0, ZOMBIE, 0, 0, 0)

  /** `current` is the index of the running slot, or -1.  `stacks` lists the
      bases of all stacks ever made. */
  datatype Sched = Sched(table: seq<Slot>, current: int, nextTid: int, active: int, ticks: int, enabled: bool,
                         heap: int, stacks: seq<int>)

  predicate IsReady(x: Slot) {
    x.tid != 0 && x.state == READY
  }

  predicate IsActive(x: Slot) {
    x.tid != 0 && (x.state == READY || x.state == RUNNING)
  }

  /** The empty table; the heap may have been used before. */
  function Init(n: nat, heap: int): Sched {
    Sched(seq(n, _ => FREE), -1, 1, 0, 0, false, heap, [])
  }

  // -------------------------------------------------------------- search

  /** The `i`-th slot after `from`, cyclically. */
  function Around(n: int, from: int, i: int): int {
    if from + i < n then from + i else from + i - n
  }

  /** The first READY slot from offset `i` on, or -1. */
  function Search(table: seq<Slot>, from: int, i: nat): int
    requires 0 <= from < |table| && i <= |table|
    decreases |table| - i
  {
    if i == |table| then -1
    else if IsReady(table[Around(|table|, from, i)]) then Around(|table|, from, i)
    else Search(table, from, i + 1)
  }

  function StartIndex(s: Sched): int
    requires |s.table| > 0 && s.current < |s.table|
  {
    if 0 <= s.current then Around(|s.table|, s.current, 1) else 0
  }

  /** `find_next_thread`. */
  function FindNext(s: Sched): int
    requires |s.table| > 0 && s.current < |s.table|
  {
    if s.active == 0 then -1 else Search(s.table, StartIndex(s), 0)
  }

  // ---------------------------------------------------------- operations

  function SetState(table: seq<Slot>, i: int, st: ThreadState): seq<Slot>
    requires 0 <= i < |table|
  {
    table[i := table[i].(state := st)]
  }

  /** `sched_yield`. */
  function Yield(s: Sched): Sched
    requires |s.table| > 0 && s.current < |s.table|
  {
    if !s.enabled || s.current < 0 then s
    else
      var next := FindNext(s);
      if next < 0 || next == s.current || next >= |s.table| then s
      else s.(current := next, table := SetState(SetState(s.table, next, RUNNING), s.current, READY))
  }

  /** `cleanup_zombie_threads`. */
  function Cleaned(x: Slot): Slot {
    if x.state == ZOMBIE && x.tid != 0 then x.(tid := 0, stackBase := 0) else x
  }

  function Cleanup(table: seq<Slot>): (r: seq<Slot>)
    ensures |r| == |table| && forall i :: 0 <= i < |table| ==> r[i] == Cleaned(table[i])
  {
    seq(|table|, i requires 0 <= i < |table| => Cleaned(table[i]))
  }

  /** The part of `sched_tick` about the running thread: its slice, counted
      down in 64-bit arithmetic, and the forced yield. */
  function Charge(s: Sched): Sched
    requires |s.table| > 0 && s.current < |s.table|
  {
    if s.current < 0 then s
    else
      var c := s.current;
      var left := (s.table[c].slice - 1) % TWO64;
      if left == 0 then Yield(s.(table := s.table[c := s.table[c].(slice := SLICE)]))
      else s.(table := s.table[c := s.table[c].(slice := left)])
  }

  /** `sched_tick`. */
  function Tick(s: Sched): Sched
    requires |s.table| > 0 && s.current < |s.table|
  {
    if !s.enabled then s
    else
      var t := Charge(s.(ticks := (s.ticks + 1) % TWO32));
      if t.ticks % 100 == 0 then t.(table := Cleanup(t.table)) else t
  }

  /** The first free slot from `i` on, or -1. */
  function FreeSlot(table: seq<Slot>, i: nat): int
    requires i <= |table|
    decreases |table| - i
  {
    if i == |table| then -1 else if table[i].tid == 0 then i else FreeSlot(table, i + 1)
  }

  /** The initial stack pointer: 16 bytes below the top, rounded down to 16. */
  function StackPointer(base: int): int {
    (base + STACK - 16) / 16 * 16
  }

  /** `thread_create` with a non-null entry point. */
  function Create(s: Sched): Sched {
    var i := FreeSlot(s.table, 0);
    if i < 0 || i >= |s.table| then s
    else
      var (heap, base) := Heap.Kmalloc(s.heap, STACK);
      if base == 0 then s.(heap := heap)
      else
        s.(table := s.table[i := Slot(s.nextTid, READY, SLICE, base, StackPointer(base))],
           nextTid := (s.nextTid + 1) % TWO32, active := (s.active + 1) % TWO32,
           heap := heap, stacks := s.stacks + [base])
  }

  /** `sched_start`. */
  function Start(s: Sched): Sched
    requires |s.table| > 0 && s.current < |s.table|
  {
    var t := s.(enabled := true);
    var next := FindNext(t);
    if next < 0 || next >= |s.table| then t
    else t.(current := next, table := SetState(t.table, next, RUNNING))
  }

  /** `sched_run_threads`: every ready thread is run to its end. */
  function RunAll(table: seq<Slot>): (r: seq<Slot>)
    ensures |r| == |table|
    ensures forall i :: 0 <= i < |table| ==> r[i] == if IsReady(table[i]) then table[i].(state := ZOMBIE) else table[i]
  {
    seq(|table|, i requires 0 <= i < |table| => if IsReady(table[i]) then table[i].(state := ZOMBIE) else table[i])
  }

  /** The current thread is forgotten if any thread was run. */
  function RunDirect(s: Sched): Sched {
    if NobodyReady(s) then s else s.(table := RunAll(s.table), current := -1)
  }

  datatype Event = CreateThread | OtherAlloc(size: int) | RunThreads | StartUp | YieldCpu | TimerTick

  predicate NobodyReady(s: Sched) {
    forall i :: 0 <= i < |s.table| ==> !IsReady(s.table[i])
  }

  /** Starting the scheduler, and running threads directly, is for when no
      thread is current, or has nothing to do. */
  predicate Allowed(s: Sched, e: Event) {
    match e
    case OtherAlloc(size) => 0 <= size <= Heap.MAX_SAFE
    case RunThreads => s.current < 0 || NobodyReady(s)
    case StartUp => s.current < 0 || NobodyReady(s)
    case _ => true
  }

  function Step(s: Sched, e: Event): Sched
    requires |s.table| > 0 && s.current < |s.table|
  {
    match e
    case CreateThread => Create(s)
    case OtherAlloc(size) => s.(heap := Heap.Kmalloc(s.heap, size).0)
    case RunThreads => RunDirect(s)
    case StartUp => Start(s)
    case YieldCpu => Yield(s)
    case TimerTick => Tick(s)
  }

  // ----------------------------------------------------------- invariant

  /** Slots that are ready or running. */
  function CountActive(table: seq<Slot>): nat {
    if table == [] then 0 else CountActive(table[..|table| - 1]) + if IsActive(table[|table| - 1]) then 1 else 0
  }

  predicate SlotOk(s: Sched, i: int)
    requires 0 <= i < |s.table|
  {
    var x := s.table[i];
    && (x.tid == 0 ==> x.state == ZOMBIE)
    && (x.tid != 0 ==> 1 <= x.slice <= SLICE && x.state != BLOCKED)
    && (x.state == RUNNING <==> i == s.current)
  }

  ghost predicate Inv(s: Sched) {
    && |s.table| > 0 && -1 <= s.current < |s.table|
    && (s.current >= 0 ==> s.enabled)
    && (forall i :: 0 <= i < |s.table| ==> SlotOk(s, i))
    && CountActive(s.table) <= s.active
    && 0 <= s.active < s.nextTid
    && StacksOk(s)
  }

  /** Stacks follow one another below the heap pointer; so fewer than 128
      threads are ever made, and thread ids do not wrap. */
  ghost predicate StacksOk(s: Sched) {
    && Heap.Inv(s.heap)
    && s.nextTid == 1 + |s.stacks|
    && |s.stacks| * STACK <= Heap.Top(s.heap) - Heap.START
    && (forall i :: 0 <= i < |s.stacks| ==>
          Heap.START <= s.stacks[i] && s.stacks[i] % 8 == 0 && s.stacks[i] + STACK <= Heap.Top(s.heap))
    && (forall i, j :: 0 <= i < j < |s.stacks| ==> s.stacks[i] + STACK <= s.stacks[j])
  }

  lemma {:induction false} CountSet(table: seq<Slot>, i: nat, x: Slot)
    requires i < |table|
    ensures CountActive(table[i := x]) ==
            CountActive(table) - (if IsActive(table[i]) then 1 else 0) + (if IsActive(x) then 1 else 0)
  {
    var n := |table| - 1;
    if i < n {
      CountSet(table[..n], i, x);
      assert table[i := x][..n] == table[..n][i := x];
    } else {
      assert table[i := x][..n] == table[..n];
    }
  }

  lemma {:induction false} CountMember(table: seq<Slot>, i: nat)
    requires i < |table| && IsActive(table[i])
    ensures CountActive(table) >= 1
  {
    var n := |table| - 1;
    if i < n {
      CountMember(table[..n], i);
    }
  }

  lemma {:induction false} CountFewer(table: seq<Slot>, table': seq<Slot>)
    requires |table'| == |table| && forall i :: 0 <= i < |table| && IsActive(table'[i]) ==> IsActive(table[i])
    ensures CountActive(table') <= CountActive(table)
  {
    if table != [] {
      CountFewer(table[..|table| - 1], table'[..|table| - 1]);
    }
  }

  /** The search returns the first READY slot in cyclic order, -1 if none. */
  lemma {:induction false} SearchIs(table: seq<Slot>, from: int, i: nat) returns (k: nat)
    requires 0 <= from < |table| && i <= |table|
    ensures i <= k <= |table| && NoneReady(table, from, i, k)
    ensures Search(table, from, i) == if k == |table| then -1 else Around(|table|, from, k)
    ensures k < |table| ==> IsReady(table[Around(|table|, from, k)])
    decreases |table| - i
  {
    if i == |table| || IsReady(table[Around(|table|, from, i)]) {
      k := i;
    } else {
      k := SearchIs(table, from, i + 1);
    }
  }

  /** No slot from the `i`-th to before the `k`-th after `from` is READY. */
  ghost predicate NoneReady(table: seq<Slot>, from: int, i: int, k: int)
    requires 0 <= from < |table| && 0 <= i && k <= |table|
  {
    forall j :: i <= j < k ==> !IsReady(table[Around(|table|, from, j)])
  }

  /** How many slots after the running one slot `t` comes. */
  function Distance(n: int, current: int, t: int): int {
    if t > current then t - current - 1 else t - current - 1 + n
  }

  /** With a thread running: nobody is READY, or the next thread is the READY
      one at the least distance. */
  lemma FindNextIs(s: Sched)
    requires Inv(s) && s.current >= 0
    ensures var (n, r) := (|s.table|, FindNext(s));
            if r == -1 then forall i :: 0 <= i < n ==> !IsReady(s.table[i])
            else && 0 <= r < n && IsReady(s.table[r]) && r != s.current
                 && forall i :: 0 <= i < n && IsReady(s.table[i]) ==>
                   Distance(n, s.current, r) <= Distance(n, s.current, i)
  {
    var n := |s.table|;
    var from := StartIndex(s);
    assert SlotOk(s, s.current);
    CountMember(s.table, s.current);
    var k := SearchIs(s.table, from, 0);
    forall i | 0 <= i < n && IsReady(s.table[i])
      ensures k <= Distance(n, s.current, i) < n
    {
      assert Around(n, from, Distance(n, s.current, i)) == i;
    }
  }

  /** `find_next_thread` reports nobody exactly when nobody is READY; before
      any thread runs it reports the lowest READY slot. */
  lemma FindNextNone(s: Sched)
    requires Inv(s)
    ensures FindNext(s) == -1 <==> forall i :: 0 <= i < |s.table| ==> !IsReady(s.table[i])
    ensures s.current < 0 && FindNext(s) != -1 ==>
              var r := FindNext(s);
              0 <= r < |s.table| && IsReady(s.table[r]) && forall i :: 0 <= i < r ==> !IsReady(s.table[i])
  {
    if s.current >= 0 {
      FindNextIs(s);
    } else {
      var k := SearchIs(s.table, 0, 0);
      forall i | 0 <= i < k
        ensures !IsReady(s.table[i])
      {
        assert Around(|s.table|, 0, i) == i;
      }
      if k < |s.table| {
        CountMember(s.table, k);
      }
    }
  }

  // ------------------------------------------------- what every step keeps

  /** Moving from the running thread to a READY one keeps the invariant. */
  lemma YieldKeeps(s: Sched)
    requires Inv(s)
    ensures Inv(Yield(s))
  {
    if s.enabled && s.current >= 0 {
      FindNextIs(s);
      var next := FindNext(s);
      if next >= 0 {
        var t1 := SetState(s.table, next, RUNNING);
        CountSet(s.table, next, s.table[next].(state := RUNNING));
        CountSet(t1, s.current, t1[s.current].(state := READY));
        assert SlotOk(s, s.current) && SlotOk(s, next);
        forall i | 0 <= i < |s.table|
          ensures SlotOk(Yield(s), i)
        {
          assert SlotOk(s, i);
        }
      }
    }
  }

  /** Changing slices within bounds keeps the invariant. */
  lemma SliceKeeps(s: Sched, left: int)
    requires Inv(s) && s.current >= 0 && 1 <= left <= SLICE
    ensures Inv(s.(table := s.table[s.current := s.table[s.current].(slice := left)]))
  {
    var s' := s.(table := s.table[s.current := s.table[s.current].(slice := left)]);
    CountSet(s.table, s.current, s.table[s.current].(slice := left));
    forall i | 0 <= i < |s.table|
      ensures SlotOk(s', i)
    {
      assert SlotOk(s, i);
    }
  }

  /** The slice of the running thread is at least 1, so counting it down does
      not wrap. */
  lemma ChargeIs(s: Sched)
    requires Inv(s) && s.current >= 0
    ensures var (c, left) := (s.current, s.table[s.current].slice - 1);
            0 <= left < SLICE
            && Charge(s) == if left == 0 then Yield(s.(table := s.table[c := s.table[c].(slice := SLICE)]))
                            else s.(table := s.table[c := s.table[c].(slice := left)])
  {
    assert SlotOk(s, s.current);
  }

  lemma CleanupKeeps(s: Sched)
    requires Inv(s)
    ensures Inv(s.(table := Cleanup(s.table)))
  {
    var s' := s.(table := Cleanup(s.table));
    CountFewer(s.table, s'.table);
    forall i | 0 <= i < |s.table|
      ensures SlotOk(s', i)
    {
      assert SlotOk(s, i);
    }
  }

  lemma CounterKeeps(s: Sched, ticks: int)
    requires Inv(s)
    ensures Inv(s.(ticks := ticks))
  {
    assert forall i :: 0 <= i < |s.table| ==> SlotOk(s, i) ==> SlotOk(s.(ticks := ticks), i);
  }

  lemma ChargeKeeps(s: Sched)
    requires Inv(s)
    ensures Inv(Charge(s))
  {
    if s.current >= 0 {
      ChargeIs(s);
      var left := s.table[s.current].slice - 1;
      SliceKeeps(s, if left == 0 then SLICE else left);
      if left == 0 {
        YieldKeeps(s.(table := s.table[s.current := s.table[s.current].(slice := SLICE)]));
      }
    }
  }

  lemma TickKeeps(s: Sched)
    requires Inv(s)
    ensures Inv(Tick(s))
  {
    if s.enabled {
      var t := s.(ticks := (s.ticks + 1) % TWO32);
      CounterKeeps(s, t.ticks);
      ChargeKeeps(t);
      CleanupKeeps(Charge(t));
    }
  }

  lemma {:induction false} FreeSlotIs(table: seq<Slot>, i: nat)
    requires i <= |table|
    ensures var r := FreeSlot(table, i);
            if r == -1 then forall j :: i <= j < |table| ==> table[j].tid != 0
            else i <= r < |table| && table[r].tid == 0 && forall j :: i <= j < r ==> table[j].tid != 0
    decreases |table| - i
  {
    if i < |table| && table[i].tid != 0 {
      FreeSlotIs(table, i + 1);
    }
  }

  /** A new stack lies above all earlier ones. */
  lemma StackKeeps(s: Sched)
    requires StacksOk(s)
    ensures var (heap, base) := Heap.Kmalloc(s.heap, STACK);
            if base == 0 then StacksOk(s.(heap := heap))
            else StacksOk(s.(heap := heap, stacks := s.stacks + [base], nextTid := s.nextTid + 1)) && s.nextTid < 128
  {
    Heap.SafeSizes(s.heap, STACK);
  }

  lemma HeapReady(s: Sched)
    requires Inv(s)
    ensures Heap.Inv(s.heap)
  {
  }

  lemma CreateSlots(s: Sched, i: int, x: Slot, s': Sched)
    requires Inv(s) && 0 <= i < |s.table| && s.table[i].tid == 0
    requires x.tid != 0 && x.state == READY && 1 <= x.slice <= SLICE
    requires s'.table == s.table[i := x] && s'.current == s.current
    ensures forall j :: 0 <= j < |s.table| ==> SlotOk(s', j)
    ensures CountActive(s'.table) == CountActive(s.table) + 1
  {
    assert SlotOk(s, i);
    CountSet(s.table, i, x);
    forall j | 0 <= j < |s.table|
      ensures SlotOk(s', j)
    {
      assert SlotOk(s, j);
    }
  }

  lemma HeapKeeps(s: Sched, heap: int)
    requires Inv(s) && StacksOk(s.(heap := heap))
    ensures Inv(s.(heap := heap))
  {
    assert forall j :: 0 <= j < |s.table| ==> SlotOk(s, j) ==> SlotOk(s.(heap := heap), j);
  }

  lemma CreateKeeps(s: Sched)
    requires Inv(s)
    ensures Inv(Create(s))
  {
    hide StacksOk, Heap.Kmalloc, CountActive, StackPointer, SlotOk;
    FreeSlotIs(s.table, 0);
    StackKeeps(s);
    var i := FreeSlot(s.table, 0);
    var (heap, base) := Heap.Kmalloc(s.heap, STACK);
    if i >= 0 {
      if base == 0 {
        HeapKeeps(s, heap);
      } else {
        var x := Slot(s.nextTid, READY, SLICE, base, StackPointer(base));
        CreateSlots(s, i, x, Create(s));
        StacksSame(s.(heap := heap, stacks := s.stacks + [base], nextTid := s.nextTid + 1), Create(s));
      }
    }
  }

  lemma StacksSame(s: Sched, s': Sched)
    requires StacksOk(s) && s'.heap == s.heap && s'.stacks == s.stacks && s'.nextTid == s.nextTid
    ensures StacksOk(s')
  {
  }

  lemma EnabledKeeps(s: Sched)
    requires Inv(s)
    ensures Inv(s.(enabled := true))
  {
    assert forall i :: 0 <= i < |s.table| ==> SlotOk(s, i) ==> SlotOk(s.(enabled := true), i);
  }

  /** Starting keeps the invariant exactly when no thread is current, or nobody
      is READY; otherwise two threads are RUNNING afterwards. */
  lemma StartKeeps(s: Sched)
    requires Inv(s)
    ensures Inv(Start(s)) <==> s.current < 0 || NobodyReady(s)
  {
    EnabledKeeps(s);
    FindNextNone(s.(enabled := true));
    if s.current < 0 {
      StartFirst(s);
    } else if !NobodyReady(s) {
      FindNextIs(s.(enabled := true));
      assert SlotOk(s, s.current);
      assert !SlotOk(Start(s), s.current);
    }
  }

  lemma StartFirst(s: Sched)
    requires Inv(s) && s.current < 0
    ensures Inv(Start(s))
  {
    var k := SearchIs(s.table, 0, 0);
    var next := FindNext(s.(enabled := true));
    if next >= 0 {
      CountSet(s.table, next, s.table[next].(state := RUNNING));
    }
    forall i | 0 <= i < |s.table|
      ensures SlotOk(Start(s), i)
    {
      assert SlotOk(s, i);
    }
  }

  /** The same condition for running threads directly. */
  lemma RunDirectKeeps(s: Sched)
    requires Inv(s)
    ensures Inv(RunDirect(s)) <==> s.current < 0 || NobodyReady(s)
  {
    if s.current < 0 {
      CountFewer(s.table, RunAll(s.table));
      assert forall i :: 0 <= i < |s.table| ==> SlotOk(s, i) ==> SlotOk(RunDirect(s), i);
    } else if !NobodyReady(s) {
      assert SlotOk(s, s.current);
      assert !SlotOk(RunDirect(s), s.current);
    }
  }

  lemma StepKeeps(s: Sched, e: Event)
    requires Inv(s) && Allowed(s, e)
    ensures Inv(Step(s, e))
  {
    match e
    case CreateThread => CreateKeeps(s);
    case OtherAlloc(size) =>
      Heap.SafeSizes(s.heap, size);
      assert forall i :: 0 <= i < |s.table| ==> SlotOk(s, i) ==> SlotOk(Step(s, e), i);
    case RunThreads => RunDirectKeeps(s);
    case StartUp => StartKeeps(s);
    case YieldCpu => YieldKeeps(s);
    case TimerTick => TickKeeps(s);
  }

  predicate AllowedRun(s: Sched, es: seq<Event>)
    requires |s.table| > 0 && s.current < |s.table|
    decreases |es|
  {
    if es == [] then true
    else
      && Allowed(s, es[0])
      && var s' := Step(s, es[0]);
         |s'.table| > 0 && s'.current < |s'.table| && AllowedRun(s', es[1..])
  }

  function Run(s: Sched, es: seq<Event>): Sched
    requires |s.table| > 0 && s.current < |s.table| && AllowedRun(s, es)
    decreases |es|
  {
    if es == [] then s else Run(Step(s, es[0]), es[1..])
  }

  /** The invariant holds in every state of every run. */
  lemma {:induction false} RunKeeps(s: Sched, es: seq<Event>)
    requires Inv(s) && AllowedRun(s, es)
    ensures Inv(Run(s, es))
    decreases |es|
  {
    if es != [] {
      StepKeeps(s, es[0]);
      RunKeeps(Step(s, es[0]), es[1..]);
    }
  }

  lemma {:induction false} NothingActive(table: seq<Slot>)
    requires forall i :: 0 <= i < |table| ==> !IsActive(table[i])
    ensures CountActive(table) == 0
  {
    if table != [] {
      NothingActive(table[..|table| - 1]);
    }
  }

  lemma InitKeeps(n: nat, heap: int)
    requires n > 0 && Heap.Inv(heap)
    ensures Inv(Init(n, heap)) && |Init(n, heap).table| == n && Init(n, heap).ticks == 0 && !Init(n, heap).enabled
    ensures forall i :: 0 <= i < n ==> Init(n, heap).table[i].tid == 0
  {
    NothingActive(Init(n, heap).table);
  }

  // ------------------------------------------------------ whose stack is it

  /** A thread in the table has the stack made with it, and starts on it. */
  predicate OwnSlot(s: Sched, x: Slot) {
    x.tid != 0 ==>
      1 <= x.tid <= |s.stacks| && x.stackBase == s.stacks[x.tid - 1] && x.rsp == StackPointer(x.stackBase)
  }

  ghost predicate OwnStacks(s: Sched) {
    && (forall i :: 0 <= i < |s.table| ==> OwnSlot(s, s.table[i]))
    && (forall i, j :: 0 <= i < j < |s.table| && s.table[i].tid != 0 ==> s.table[i].tid != s.table[j].tid)
  }

  /** Slots keep their thread and its stack, or become free. */
  ghost predicate SameThreads(s: Sched, s': Sched) {
    && s'.stacks == s.stacks && |s'.table| == |s.table|
    && forall i :: 0 <= i < |s.table| ==>
         var (x, x') := (s.table[i], s'.table[i]);
         x'.tid == 0 || (x'.tid == x.tid && x'.stackBase == x.stackBase && x'.rsp == x.rsp)
  }

  lemma OwnKept(s: Sched, s': Sched)
    requires OwnStacks(s) && SameThreads(s, s')
    ensures OwnStacks(s')
  {
    forall i | 0 <= i < |s'.table|
      ensures OwnSlot(s', s'.table[i])
    {
      assert OwnSlot(s, s.table[i]);
    }
  }

  lemma ChargeSame(s: Sched)
    requires |s.table| > 0 && s.current < |s.table|
    ensures SameThreads(s, Charge(s))
  {
    hide FindNext;
  }

  lemma TickSame(s: Sched)
    requires |s.table| > 0 && s.current < |s.table|
    ensures SameThreads(s, Tick(s))
  {
    hide Charge;
    if s.enabled {
      ChargeSame(s.(ticks := (s.ticks + 1) % TWO32));
    }
  }

  lemma CreateOwn(s: Sched)
    requires Inv(s) && OwnStacks(s)
    ensures OwnStacks(Create(s))
  {
    hide CountActive, Heap.Inv;
    var s' := Create(s);
    FreeSlotIs(s.table, 0);
    forall i | 0 <= i < |s'.table|
      ensures OwnSlot(s', s'.table[i])
    {
      assert OwnSlot(s, s.table[i]);
    }
    assert forall i :: 0 <= i < |s.table| ==> OwnSlot(s, s.table[i]) && s.table[i].tid != s.nextTid;
  }

  lemma StepOwn(s: Sched, e: Event)
    requires Inv(s) && OwnStacks(s)
    ensures OwnStacks(Step(s, e))
  {
    hide StacksOk, SlotOk, CountActive, OwnStacks, Tick, Create, FindNext;
    match e {
      case CreateThread => CreateOwn(s);
      case TimerTick =>
        TickSame(s);
        OwnKept(s, Step(s, e));
      case _ => OwnKept(s, Step(s, e));
    }
  }

  lemma {:induction false} RunOwn(s: Sched, es: seq<Event>)
    requires Inv(s) && OwnStacks(s) && AllowedRun(s, es)
    ensures OwnStacks(Run(s, es))
    decreases |es|
  {
    if es != [] {
      StepKeeps(s, es[0]);
      StepOwn(s, es[0]);
      RunOwn(Step(s, es[0]), es[1..]);
    }
  }

  /** Over any run from the empty table: all stacks ever made are disjoint. */
  lemma StacksDisjoint(n: nat, heap: int, es: seq<Event>, i: nat, j: nat)
    requires n > 0 && Heap.Inv(heap) && AllowedRun(Init(n, heap), es)
    requires i < j < |Run(Init(n, heap), es).stacks|
    ensures var s := Run(Init(n, heap), es); s.stacks[i] + STACK <= s.stacks[j] && |s.stacks| < 128
  {
    InitKeeps(n, heap);
    RunKeeps(Init(n, heap), es);
  }

  /** Two threads in the table never share stack memory, and each starts 16-aligned
      inside its own stack. */
  lemma ThreadsApart(n: nat, heap: int, es: seq<Event>, i: nat, j: nat)
    requires n > 0 && Heap.Inv(heap) && AllowedRun(Init(n, heap), es)
    requires i < |Run(Init(n, heap), es).table| && j < |Run(Init(n, heap), es).table|
    requires Run(Init(n, heap), es).table[i].tid != 0 && Run(Init(n, heap), es).table[j].tid != 0
    ensures var (x, y) := (Run(Init(n, heap), es).table[i], Run(Init(n, heap), es).table[j]);
            && x.stackBase + 8192 - 32 < x.rsp <= x.stackBase + 8192 - 16 && x.rsp % 16 == 0
            && (i != j ==> x.stackBase + STACK <= y.stackBase || y.stackBase + STACK <= x.stackBase)
  {
    InitKeeps(n, heap);
    RunKeeps(Init(n, heap), es);
    RunOwn(Init(n, heap), es);
    OwnApart(Run(Init(n, heap), es), i, j);
  }

  lemma OwnApart(s: Sched, i: nat, j: nat)
    requires StacksOk(s) && OwnStacks(s) && i < |s.table| && j < |s.table|
    requires s.table[i].tid != 0 && s.table[j].tid != 0
    ensures var (x, y) := (s.table[i], s.table[j]);
            && x.stackBase + 8192 - 32 < x.rsp <= x.stackBase + 8192 - 16 && x.rsp % 16 == 0
            && (i != j ==> x.stackBase + STACK <= y.stackBase || y.stackBase + STACK <= x.stackBase)
  {
    assert OwnSlot(s, s.table[i]) && OwnSlot(s, s.table[j]);
  }

  // ------------------------------------------------------------ fairness

  /** A READY thread `t` waits while another runs. */
  ghost predicate Waits(s: Sched, t: int) {
    Inv(s) && s.current >= 0 && 0 <= t < |s.table| && IsReady(s.table[t])
  }

  /** Ticks until `t` runs, at most. */
  function TicksLeft(s: Sched, t: int): int
    requires 0 <= s.current < |s.table|
  {
    SLICE * Distance(|s.table|, s.current, t) + s.table[s.current].slice
  }

  /** A yield runs `t`, or brings it strictly closer. */
  lemma YieldCloser(s: Sched, t: int)
    requires Waits(s, t)
    ensures var s' := Yield(s);
            || s'.current == t
            || (Waits(s', t) && Distance(|s.table|, s'.current, t) < Distance(|s.table|, s.current, t)
                && s'.table[s'.current].slice <= SLICE)
    ensures |Yield(s).table| == |s.table|
  {
    FindNextIs(s);
    YieldKeeps(s);
    var r := FindNext(s);
    assert SlotOk(s, s.current) && SlotOk(s, r);
    assert r != s.current && t != s.current;
  }

  /** Charging the running thread for a tick runs `t`, or brings it closer. */
  lemma ChargeCloser(s: Sched, t: int)
    requires Waits(s, t)
    ensures var s' := Charge(s);
            || s'.current == t
            || (Waits(s', t) && TicksLeft(s', t) < TicksLeft(s, t)
                && Distance(|s.table|, s'.current, t) <= Distance(|s.table|, s.current, t))
    ensures |Charge(s).table| == |s.table|
  {
    assert SlotOk(s, s.current) && SlotOk(s, t);
    ChargeIs(s);
    var left := s.table[s.current].slice - 1;
    if left == 0 {
      SliceKeeps(s, SLICE);
      YieldCloser(s.(table := s.table[s.current := s.table[s.current].(slice := SLICE)]), t);
    } else {
      SliceKeeps(s, left);
    }
  }

  /** The cleanup touches neither the running thread nor a waiting one. */
  lemma CleanupWaits(s: Sched, t: int)
    requires Waits(s, t)
    ensures var s' := s.(table := Cleanup(s.table)); Waits(s', t) && TicksLeft(s', t) == TicksLeft(s, t)
  {
    CleanupKeeps(s);
    assert SlotOk(s, s.current);
  }

  lemma TickCloser(s: Sched, t: int)
    requires Waits(s, t)
    ensures var s' := Tick(s);
            || s'.current == t
            || (Waits(s', t) && TicksLeft(s', t) < TicksLeft(s, t)
                && Distance(|s.table|, s'.current, t) <= Distance(|s.table|, s.current, t))
    ensures |Tick(s).table| == |s.table|
  {
    hide Charge, Cleanup, Distance, CountActive, StacksOk;
    var u := s.(ticks := (s.ticks + 1) % TWO32);
    CounterKeeps(s, u.ticks);
    ChargeCloser(u, t);
    var v := Charge(u);
    if v.current != t {
      CleanupWaits(v, t);
    }
  }

  lemma StepCloser(s: Sched, e: Event, t: int)
    requires Waits(s, t) && Allowed(s, e)
    ensures var s' := Step(s, e);
            || s'.current == t
            || (&& Waits(s', t)
                && TicksLeft(s', t) <= TicksLeft(s, t) - (if e.TimerTick? then 1 else 0)
                && Distance(|s.table|, s'.current, t) + (if e.YieldCpu? then 1 else 0) <=
                   Distance(|s.table|, s.current, t))
    ensures |Step(s, e).table| == |s.table|
  {
    StepKeeps(s, e);
    assert SlotOk(s, s.current) && SlotOk(s, t);
    match e
    case CreateThread => FreeSlotIs(s.table, 0);
    case OtherAlloc(_) =>
    case YieldCpu => YieldCloser(s, t);
    case TimerTick => TickCloser(s, t);
    case _ =>
  }

  function TickCount(es: seq<Event>): nat
    decreases |es|
  {
    if es == [] then 0 else (if es[0].TimerTick? then 1 else 0) + TickCount(es[1..])
  }

  function YieldCount(es: seq<Event>): nat
    decreases |es|
  {
    if es == [] then 0 else (if es[0].YieldCpu? then 1 else 0) + YieldCount(es[1..])
  }

  /** Enough ticks, or enough yields, and the waiting thread has run. */
  lemma {:induction false} Arrives(s: Sched, es: seq<Event>, t: int) returns (n: nat)
    requires Waits(s, t) && AllowedRun(s, es)
    requires TickCount(es) >= TicksLeft(s, t) || YieldCount(es) > Distance(|s.table|, s.current, t)
    ensures 0 < n <= |es| && AllowedRun(s, es[..n]) && Run(s, es[..n]).current == t
    decreases |es|
  {
    assert SlotOk(s, s.current) && SlotOk(s, t);
    var e, s' := es[0], Step(s, es[0]);
    StepCloser(s, e, t);
    if s'.current == t {
      n := 1;
      assert es[..1] == [e] && [e][1..] == [];
    } else {
      var n' := Arrives(s', es[1..], t);
      n := n' + 1;
      assert es[..n][1..] == es[1..][..n'];
    }
  }

  /** Round-robin fairness: with N slots a READY thread runs within N - 1
      yields and within 10 * (N - 1) ticks, whatever is created meanwhile. */
  lemma RoundRobin(s: Sched, es: seq<Event>, t: int) returns (n: nat)
    requires Waits(s, t) && AllowedRun(s, es)
    requires TickCount(es) >= 10 * (|s.table| - 1) || YieldCount(es) >= |s.table| - 1
    ensures 0 < n <= |es| && AllowedRun(s, es[..n]) && Run(s, es[..n]).current == t
  {
    assert SlotOk(s, s.current) && SlotOk(s, t);
    assert t != s.current;
    n := Arrives(s, es, t);
  }

  // ------------------------------------------------------- two findings

  /** The end of `thread_wrapper`: mark the thread a zombie, count it out, yield. */
  function Finish(s: Sched): Sched
    requires 0 <= s.current < |s.table|
  {
    Yield(s.(table := SetState(s.table, s.current, ZOMBIE), active := (s.active - 1) % TWO32))
  }

  /** A finished thread stays a zombie exactly when no other thread is READY;
      otherwise the yield makes it READY again. */
  lemma FinishResurrects(s: Sched)
    requires Inv(s) && s.current >= 0
    ensures Finish(s).table[s.current].state ==
            if exists i :: 0 <= i < |s.table| && IsReady(s.table[i]) then READY else ZOMBIE
  {
    var z := s.(table := SetState(s.table, s.current, ZOMBIE), active := (s.active - 1) % TWO32);
    assert SlotOk(s, s.current);
    CountSet(s.table, s.current, s.table[s.current].(state := ZOMBIE));
    CountMember(s.table, s.current);
    var from := StartIndex(z);
    var k := SearchIs(z.table, from, 0);
    if i :| 0 <= i < |s.table| && IsReady(s.table[i]) {
      CountMember(z.table, i);
      assert Around(|s.table|, from, Distance(|s.table|, s.current, i)) == i;
    }
  }

  /** Two threads, the first of which finishes, and is READY again. */
  lemma FinishExample()
    ensures var s := Start(Create(Create(Init(2, 0))));
            s.current == 0 && Finish(s).table[0].state == READY && Finish(s).current == 1
  {
    hide Init, Create, Start;
    TwoThreads();
    var s := Start(Create(Create(Init(2, 0))));
    var z := s.(table := SetState(s.table, 0, ZOMBIE), active := 1);
    assert Search(z.table, 1, 0) == 1;
  }

  lemma TwoThreads()
    ensures |Create(Create(Init(2, 0))).table| == 2 && Create(Create(Init(2, 0))).current == -1
    ensures var s := Start(Create(Create(Init(2, 0))));
            && |s.table| == 2 && s.current == 0 && s.enabled && s.active == 2 && IsReady(s.table[1])
            && s.table[0].tid != 0 && s.table[0].state == RUNNING
  {
    var s1 := Create(Init(2, 0));
    assert FreeSlot(Init(2, 0).table, 0) == 0;
    var s2 := Create(s1);
    assert FreeSlot(s1.table, 0) == FreeSlot(s1.table, 1) == 1;
    assert Search(s2.table, 0, 0) == 0;
  }

  /** Neither starts the scheduler nor runs threads directly. */
  predicate Passive(e: Event) {
    e != StartUp && e != RunThreads
  }

  /** Without a current thread a passive event runs nobody. */
  lemma PassiveStep(s: Sched, e: Event)
    requires Inv(s) && s.current < 0 && Allowed(s, e) && Passive(e)
    ensures var s' := Step(s, e);
            && Inv(s') && s'.current < 0 && |s'.table| == |s.table|
            && forall i :: 0 <= i < |s.table| && IsReady(s.table[i]) ==> s'.table[i] == s.table[i]
  {
    StepKeeps(s, e);
    FreeSlotIs(s.table, 0);
  }

  /** Without a current thread no thread ever runs until the scheduler is started
      or threads are run directly: whoever is READY stays so. */
  lemma {:induction false} StartedTooEarly(s: Sched, es: seq<Event>)
    requires Inv(s) && s.current < 0 && AllowedRun(s, es) && forall i :: 0 <= i < |es| ==> Passive(es[i])
    ensures var s' := Run(s, es);
            && s'.current < 0 && |s'.table| == |s.table|
            && forall i :: 0 <= i < |s.table| && IsReady(s.table[i]) ==> s'.table[i] == s.table[i]
    decreases |es|
  {
    if es != [] {
      PassiveStep(s, es[0]);
      StartedTooEarly(Step(s, es[0]), es[1..]);
    }
  }

  /** Started before the first thread is created. */
  lemma TooEarlyExample()
    ensures var s := Create(Start(Init(2, 0))); s.enabled && s.current < 0 && IsReady(s.table[0])
  {
    assert FreeSlot(Init(2, 0).table, 0) == 0;
  }
}

/** os/kernel/sched/thread_minimal.c: a fixed table of threads, run round-robin. */
module TableSched {
  import opened Types
  import opened TableModel
  import Heap

  /** The remainder the source takes of an index below twice the table size. */
  lemma Remainder(x: int, n: int)
    requires 0 < n && 0 <= x < 2 * n
    ensures x % n == Around(n, 0, x)
  {
    assert x == n * (x / n) + x % n;
  }

  class Scheduler {
    const table: array<Slot>
    const heap: Heap.KernelHeap
    var current: int
    var nextTid: int
    var active: int
    var ticks: int
    var enabled: bool
    ghost var stacks: seq<int>

    ghost function Value(): Sched
      reads this, table, heap
    {
      Sched(table[..], current, nextTid, active, ticks, enabled, heap.ptr, stacks)
    }

    ghost predicate Valid()
      reads this, table, heap
    {
      Inv(Value())
    }

    /** `sched_init` with a table of `n` slots. */
    constructor (n: nat, heap: Heap.KernelHeap)
      requires n > 0 && Heap.Inv(heap.ptr)
      ensures Valid() && fresh(table) && this.heap == heap && Value() == Init(n, heap.ptr)
    {
      table := new Slot[n](_ => FREE);
      this.heap := heap;
      current, nextTid, active, ticks, enabled, stacks := -1, 1, 0, 0, false, [];
      new;
      assert table[..] == Init(n, heap.ptr).table;
      InitKeeps(n, heap.ptr);
    }

    method FindNextThread() returns (next: int)
      requires Valid()
      ensures next == FindNext(Value())
    {
      if active == 0 {
        return -1;
      }
      var n := table.Length;
      var start := 0;
      if current >= 0 {
        Remainder(current + 1, n);
        start := (current + 1) % n;
      }
      var i := 0;
      while i < n
        invariant 0 <= i <= n
        invariant Search(table[..], start, i) == Search(table[..], start, 0)
      {
        Remainder(start + i, n);
        var idx := (start + i) % n;
        if table[idx].tid != 0 && table[idx].state == READY {
          return idx;
        }
        i := i + 1;
      }
      return -1;
    }

    method SchedYield()
      requires Valid()
      modifies this`current, table
      ensures Valid() && Value() == Yield(old(Value()))
    {
      ghost var s := Value();
      YieldKeeps(s);
      if !enabled || current < 0 {
        return;
      }
      FindNextIs(s);
      var next := FindNextThread();
      if next < 0 || next == current {
        return;
      }
      var oldThread := current;
      current := next;
      table[next] := table[next].(state := RUNNING);
      table[oldThread] := table[oldThread].(state := READY);
      assert table[..] == Yield(s).table;
    }

    method CleanupZombies()
      requires Valid()
      modifies table
      ensures Valid() && Value() == old(Value()).(table := Cleanup(old(Value()).table))
    {
      ghost var s := Value();
      CleanupKeeps(s);
      for i := 0 to table.Length
        invariant forall j :: 0 <= j < i ==> table[j] == Cleaned(s.table[j])
        invariant forall j :: i <= j < table.Length ==> table[j] == s.table[j]
      {
        if table[i].state == ZOMBIE && table[i].tid != 0 {
          table[i] := table[i].(tid := 0, stackBase := 0);
        }
      }
      assert table[..] == Cleanup(s.table);
    }

    /** The part of `sched_tick` about the running thread. */
    method ChargeCurrent()
      requires Valid()
      modifies this`current, table
      ensures Valid() && Value() == Charge(old(Value()))
    {
      ghost var s := Value();
      ChargeKeeps(s);
      if current >= 0 {
        ChargeIs(s);
        var left := (table[current].slice - 1) % TWO64;
        if left == 0 {
          SliceKeeps(s, SLICE);
          table[current] := table[current].(slice := SLICE);
          assert table[..] == s.table[current := s.table[current].(slice := SLICE)];
          SchedYield();
        } else {
          table[current] := table[current].(slice := left);
          assert table[..] == s.table[current := s.table[current].(slice := left)];
        }
      }
    }

    method SchedTick()
      requires Valid()
      modifies this`current, this`ticks, table
      ensures Valid() && Value() == Tick(old(Value()))
    {
      hide Inv, Charge, Cleanup;
      if !enabled {
        return;
      }
      CounterKeeps(Value(), (ticks + 1) % TWO32);
      ticks := (ticks + 1) % TWO32;
      ChargeCurrent();
      if ticks % 100 == 0 {
        CleanupZombies();
      }
    }

    /** `thread_create`; the id is 0 when nothing was created. */
    method ThreadCreate(entry: bool) returns (tid: int)
      requires Valid()
      modifies this, table, heap
      ensures Valid()
      ensures Value() == if entry then Create(old(Value())) else old(Value())
      ensures tid == if |Value().stacks| > old(|Value().stacks|) then old(nextTid) else 0
    {
      hide Inv, StackPointer, Heap.Kmalloc, Heap.Inv;
      ghost var s := Value();
      if !entry {
        return 0;
      }
      CreateKeeps(s);
      FreeSlotIs(s.table, 0);
      HeapReady(s);
      var slot := FindFreeSlot();
      if slot == -1 {
        return 0;
      }
      var base := heap.Alloc(STACK);
      if base == 0 {
        return 0;
      }
      tid := nextTid;
      table[slot] := Slot(nextTid, READY, SLICE, base, StackPointer(base));
      nextTid := (nextTid + 1) % TWO32;
      active := (active + 1) % TWO32;
      stacks := stacks + [base];
      assert table[..] == Create(s).table;
    }

    method FindFreeSlot() returns (slot: int)
      ensures slot == FreeSlot(table[..], 0)
    {
      var i := 0;
      while i < table.Length
        invariant 0 <= i <= table.Length && FreeSlot(table[..], i) == FreeSlot(table[..], 0)
      {
        if table[i].tid == 0 {
          return i;
        }
        i := i + 1;
      }
      return -1;
    }

    /** `sched_start`. */
    method SchedStart()
      requires Valid()
      modifies this, table
      ensures Value() == Start(old(Value()))
      ensures Valid() <==> old(current) < 0 || NobodyReady(old(Value()))
      ensures old(current) < 0 ==> (current < 0 <==> NobodyReady(old(Value())))
    {
      ghost var s := Value();
      StartKeeps(s);
      enabled := true;
      EnabledKeeps(s);
      FindNextNone(Value());
      var first := FindNextThread();
      if first >= 0 {
        current := first;
        table[first] := table[first].(state := RUNNING);
      }
      assert table[..] == Start(s).table;
    }

    /** The bookkeeping of `sched_run_threads`. */
    method RunThreads()
      requires Valid()
      modifies this`current, table
      ensures Value() == RunDirect(old(Value()))
      ensures Valid() <==> old(current) < 0 || NobodyReady(old(Value()))
    {
      ghost var s := Value();
      RunDirectKeeps(s);
      ghost var ran := false;
      for i := 0 to table.Length
        invariant ran <==> exists j :: 0 <= j < i && IsReady(s.table[j])
        invariant current == if ran then -1 else s.current
        invariant forall j :: 0 <= j < i ==> table[j] == RunAll(s.table)[j]
        invariant forall j :: i <= j < table.Length ==> table[j] == s.table[j]
      {
        if table[i].tid != 0 && table[i].state == READY {
          current := i;
          table[i] := table[i].(state := RUNNING);
          table[i] := table[i].(state := ZOMBIE);
          current := -1;
          ran := true;
          assert IsReady(s.table[i]);
        }
      }
      assert table[..] == RunAll(s.table);
      if NobodyReady(s) {
        assert table[..] == s.table;
      }
    }
  }
}
