/** The queue scheduler of os/kernel/sched/thread.c as a value: who runs, who
    waits in which order, and how much of the running thread's slice is left. */
module QueueModel {

  const SLICE := 10

  datatype Sched<T> = Sched(current: T, idle: T, queue: seq<T>, slice: nat)

  datatype Event<T> = Yield | Exit | Tick | Create(t: T)

  /** Hand over to the head of the queue, or to idle; the old thread goes to the
      tail if it is still running and is not idle. */
  function Switch<T(==)>(s: Sched<T>, requeue: bool): Sched<T> {
    var back := if requeue && s.current != s.idle then [s.current] else [];
    if s.queue != [] then Sched(s.queue[0], s.idle, s.queue[1..] + back, SLICE)
    else if s.current == s.idle then s
    else Sched(s.idle, s.idle, back, SLICE)
  }

  function Step<T(==)>(s: Sched<T>, e: Event<T>): Sched<T> {
    match e
    case Yield => Switch(s, true)
    case Exit => Switch(s, false)
    case Tick =>
      var left := if s.slice > 0 then s.slice - 1 else 0;
      if left == 0 && s.queue != [] then Switch(s.(slice := left), true) else s.(slice := left)
    case Create(t) => s.(queue := s.queue + [t])
  }

  /** The thread that exits is a created one; idle never does. */
  predicate Legal<T(==)>(s: Sched<T>, es: seq<Event<T>>)
    decreases |es|
  {
    es == [] || ((es[0].Exit? ==> s.current != s.idle) && Legal(Step(s, es[0]), es[1..]))
  }

  function Run<T(==)>(s: Sched<T>, es: seq<Event<T>>): Sched<T>
    decreases |es|
  {
    if es == [] then s else Run(Step(s, es[0]), es[1..])
  }

  /** Whether an event hands over the processor. */
  predicate Switches<T(==)>(s: Sched<T>, e: Event<T>) {
    match e
    case Yield => s.queue != [] || s.current != s.idle
    case Exit => true
    case Tick => s.slice <= 1 && s.queue != []
    case Create(_) => false
  }

  function SwitchCount<T(==)>(s: Sched<T>, es: seq<Event<T>>): nat
    decreases |es|
  {
    if es == [] then 0
    else (if Switches(s, es[0]) then 1 else 0) + SwitchCount(Step(s, es[0]), es[1..])
  }

  function TickCount<T>(es: seq<Event<T>>): nat
    decreases |es|
  {
    if es == [] then 0 else (if es[0].Tick? then 1 else 0) + TickCount(es[1..])
  }

  /** A thread at index `k` of the queue moves up one place with every handover,
      and runs after exactly `k + 1` of them, whatever threads are created. */
  lemma {:induction false} Waiting<T>(s: Sched<T>, es: seq<Event<T>>, k: nat)
    requires k < |s.queue| && Legal(s, es)
    ensures var n := SwitchCount(s, es);
            && (n <= k ==> k - n < |Run(s, es).queue| && Run(s, es).queue[k - n] == s.queue[k])
            && (n == k + 1 ==> Run(s, es).current == s.queue[k])
    decreases |es|
  {
    if es != [] {
      var s' := Step(s, es[0]);
      if !Switches(s, es[0]) {
        assert s'.queue[k] == s.queue[k];
        Waiting(s', es[1..], k);
      } else if k > 0 {
        assert s'.queue[k - 1] == s.queue[k];
        Waiting(s', es[1..], k - 1);
      } else {
        assert s'.current == s.queue[0];
        Staying(s', es[1..]);
      }
    }
  }

  /** Without a handover the same thread keeps running. */
  lemma {:induction false} Staying<T>(s: Sched<T>, es: seq<Event<T>>)
    ensures SwitchCount(s, es) == 0 ==> Run(s, es).current == s.current
    decreases |es|
  {
    if es != [] && !Switches(s, es[0]) {
      Staying(Step(s, es[0]), es[1..]);
    }
  }

  function Max(a: int, b: int): int {
    if a < b then b else a
  }

  /** It runs within `10 * k + slice` ticks, and so within `10 * (k + 1)`. */
  lemma {:induction false} WithinTicks<T>(s: Sched<T>, es: seq<Event<T>>, k: nat) returns (n: nat)
    requires k < |s.queue| && s.slice <= SLICE && Legal(s, es)
    requires TickCount(es) >= SLICE * k + Max(s.slice, 1)
    ensures 0 < n <= |es| && Run(s, es[..n]).current == s.queue[k]
    decreases |es|
  {
    assert es != [];
    var s' := Step(s, es[0]);
    if Switches(s, es[0]) && k == 0 {
      n := 1;
      assert es[..1] == [es[0]] && Run(s, [es[0]]) == Run(s', []);
    } else {
      var k' := if Switches(s, es[0]) then k - 1 else k;
      assert s'.queue[k'] == s.queue[k];
      var n' := WithinTicks(s', es[1..], k');
      n := n' + 1;
      assert es[..n][1..] == es[1..][..n'];
    }
  }

  /** How often thread `x` runs or waits. */
  ghost function Live<T>(s: Sched<T>, x: T): nat {
    multiset(s.queue)[x] + if s.current == x && x != s.idle then 1 else 0
  }

  ghost function Comes<T>(e: Event<T>, x: T): nat {
    if e.Create? && e.t == x then 1 else 0
  }

  ghost function Goes<T>(s: Sched<T>, e: Event<T>, x: T): nat {
    if e.Exit? && s.current == x then 1 else 0
  }

  ghost function Created<T>(es: seq<Event<T>>, x: T): nat
    decreases |es|
  {
    if es == [] then 0 else Comes(es[0], x) + Created(es[1..], x)
  }

  ghost function Exited<T>(s: Sched<T>, es: seq<Event<T>>, x: T): nat
    decreases |es|
  {
    if es == [] then 0 else Goes(s, es[0], x) + Exited(Step(s, es[0]), es[1..], x)
  }

  lemma SwitchConserves<T>(s: Sched<T>, requeue: bool, x: T)
    requires s.idle !in s.queue && (requeue || s.current != s.idle)
    ensures s.idle !in Switch(s, requeue).queue
    ensures Live(Switch(s, requeue), x) + (if !requeue && s.current == x then 1 else 0) == Live(s, x)
  {
    if s.queue != [] {
      assert s.queue == [s.queue[0]] + s.queue[1..];
      assert s.queue[0] in s.queue;
    }
  }

  lemma StepConserves<T>(s: Sched<T>, e: Event<T>, x: T)
    requires s.idle !in s.queue && (e.Exit? ==> s.current != s.idle) && (e.Create? ==> e.t != s.idle)
    ensures s.idle !in Step(s, e).queue && Step(s, e).idle == s.idle
    ensures Live(Step(s, e), x) + Goes(s, e, x) == Live(s, x) + Comes(e, x)
  {
    match e
    case Yield => SwitchConserves(s, true, x);
    case Exit => SwitchConserves(s, false, x);
    case Tick => SwitchConserves(s.(slice := 0), true, x);
    case Create(t) =>
  }

  /** No thread is lost or doubled: in every run the times a thread runs or
      waits, and has exited, are the times it did at first and was created. */
  lemma {:induction false} Conserved<T>(s: Sched<T>, es: seq<Event<T>>, x: T)
    requires Legal(s, es) && s.idle !in s.queue
    requires forall i :: 0 <= i < |es| && es[i].Create? ==> es[i].t != s.idle
    ensures Live(Run(s, es), x) + Exited(s, es, x) == Live(s, x) + Created(es, x)
    decreases |es|
  {
    if es != [] {
      StepConserves(s, es[0], x);
      Conserved(Step(s, es[0]), es[1..], x);
    }
  }

  lemma BoundedWaiting<T>(s: Sched<T>, es: seq<Event<T>>, k: nat) returns (n: nat)
    requires k < |s.queue| && s.slice <= SLICE && Legal(s, es)
    requires TickCount(es) >= 10 * (k + 1)
    ensures 0 < n <= |es| && Run(s, es[..n]).current == s.queue[k]
  {
    n := WithinTicks(s, es, k);
  }
}

/** os/kernel/sched/thread.c: threads in an intrusive doubly linked ready queue. */
module QueueSched {
  import opened Types
  import opened QueueModel
  import Heap

  datatype ThreadState = READY | RUNNING | BLOCKED | ZOMBIE | TERMINATED

  const MAX_THREADS := 8
  const STACK := 8192

  class Thread {
    const tid: int
    var state: ThreadState
    var slice: nat
    var next: Thread?
    var prev: Thread?

    constructor (tid: int)
      ensures this.tid == tid && state == READY && slice == SLICE && next == null && prev == null
    {
      this.tid, state, slice, next, prev := tid, READY, SLICE, null, null;
    }
  }

  /** The heap pointer after a thread structure and its stack were asked for, and
      whether both were there: then they do not overlap. */
  predicate Memory(ptr: int, threadSize: int, ptr': int, ok: bool) {
    var (p1, a1) := Heap.Kmalloc(ptr, threadSize);
    var (p2, a2) := Heap.Kmalloc(p1, 8192);
    && ptr' == (if a1 == 0 then p1 else p2)
    && ok == (a1 != 0 && a2 != 0)
    && (ok ==> a1 + threadSize <= a2 && a2 + 8192 <= ptr' && Heap.InWindow(Heap.Block(a2, 8192)))
  }

  ghost predicate NoRepeats(q: seq<Thread>) {
    forall i, j :: 0 <= i < j < |q| ==> q[i] != q[j]
  }

  /** The member at `i`, or null past either end. */
  ghost function At(q: seq<Thread>, i: int): Thread? {
    if 0 <= i < |q| then q[i] else null
  }

  /** The forward links of `q` with its member `k` bridged over. */
  ghost predicate Forward(q: seq<Thread>, k: int)
    reads q`next
  {
    forall i {:trigger q[i].next} :: 0 <= i < |q| && i != k ==> q[i].next == At(q, if i + 1 == k then k + 1 else i + 1)
  }

  /** The backward links of `q` with its member `k` bridged over. */
  ghost predicate Backward(q: seq<Thread>, k: int)
    reads q`prev
  {
    forall i {:trigger q[i].prev} :: 0 <= i < |q| && i != k ==> q[i].prev == At(q, if i == k + 1 then k - 1 else i - 1)
  }

  ghost predicate Bridged(q: seq<Thread>, k: int)
    reads q`next, q`prev
  {
    Forward(q, k) && Backward(q, k)
  }

  ghost function Cut(q: seq<Thread>, k: int): seq<Thread>
    requires 0 <= k < |q|
  {
    q[..k] + q[k + 1..]
  }

  /** The links of `q`, with its last member leading on to `t`. */
  ghost predicate LeadsTo(q: seq<Thread>, t: Thread)
    reads q
  {
    && (forall i {:trigger q[i].next} :: 0 <= i < |q| ==> q[i].next == if i + 1 < |q| then q[i + 1] else t)
    && Backward(q, -1)
  }

  lemma AppendChained(q: seq<Thread>, t: Thread)
    requires NoRepeats(q) && t !in q && LeadsTo(q, t) && t.next == null && t.prev == At(q, |q| - 1)
    ensures NoRepeats(q + [t]) && Bridged(q + [t], -1)
  {
    var c := q + [t];
    forall i | 0 <= i < |c|
      ensures c[i].next == At(c, i + 1) && c[i].prev == At(c, i - 1)
    {
      if i < |q| {
        assert c[i] == q[i];
        assert q[i].next == (if i + 1 < |q| then q[i + 1] else t) && q[i].prev == At(q, i - 1);
      }
    }
  }

  lemma CutChained(q: seq<Thread>, k: int)
    requires NoRepeats(q) && 0 <= k < |q| && Bridged(q, k)
    ensures NoRepeats(Cut(q, k)) && Bridged(Cut(q, k), -1)
  {
    var c := Cut(q, k);
    CutAt(q, k);
    forall i | 0 <= i < |c|
      ensures c[i].next == At(c, i + 1) && c[i].prev == At(c, i - 1)
    {
      CutLinks(q, k, i);
    }
  }

  lemma CutAt(q: seq<Thread>, k: int)
    requires 0 <= k < |q|
    ensures |Cut(q, k)| == |q| - 1
    ensures forall i :: 0 <= i < |q| - 1 ==> Cut(q, k)[i] == q[if i < k then i else i + 1]
  {
  }

  lemma CutLinks(q: seq<Thread>, k: int, i: int)
    requires 0 <= k < |q| && Bridged(q, k) && 0 <= i < |q| - 1
    ensures |Cut(q, k)| == |q| - 1
    ensures Cut(q, k)[i].next == At(Cut(q, k), i + 1) && Cut(q, k)[i].prev == At(Cut(q, k), i - 1)
  {
    hide Cut;
    CutAt(q, k);
    var j := if i < k then i else i + 1;
    assert q[j].next == At(q, if j + 1 == k then k + 1 else j + 1);
    assert q[j].prev == At(q, if j == k + 1 then k - 1 else j - 1);
  }

  class Scheduler {
    var current: Thread
    var idle: Thread
    var head: Thread?
    var tail: Thread?
    const table: array<Thread?>
    var threadCount: nat
    var nextTid: int
    var ticks: nat
    ghost var queue: seq<Thread>
    ghost var all: set<Thread>

    /** Head, tail, next and prev are a doubly linked list of `queue`. */
    ghost predicate Linked()
      reads `queue, `head, `tail, queue
    {
      && NoRepeats(queue) && Bridged(queue, -1)
      && head == At(queue, 0) && tail == At(queue, |queue| - 1)
    }

    /** Every created thread that is not a zombie runs or waits; the current
        thread is in state `now`, and no other thread but idle is RUNNING. */
    ghost predicate Partition(now: ThreadState)
      reads this, all
    {
      && current in all && idle in all && current !in queue && idle !in queue
      && (forall t :: t in queue ==> t in all && t.state == READY)
      && current.state == now && idle.state == RUNNING
      && (forall t :: t in all && t != idle && t != current && t !in queue ==> t.state == ZOMBIE)
      && (forall t :: t in all ==> t.slice <= SLICE)
    }

    /** Slots fill up from 1 and are never cleared. */
    ghost predicate TableOk()
      reads `threadCount, table
    {
      && table.Length == MAX_THREADS && threadCount < MAX_THREADS
      && (forall i :: 1 <= i < MAX_THREADS ==> (table[i] != null <==> i <= threadCount))
    }

    ghost predicate Valid()
      reads this, all, queue, table
    {
      Partition(RUNNING) && Linked() && TableOk()
    }

    ghost function Value(): Sched<Thread>
      reads this, current
    {
      Sched(current, idle, queue, current.slice)
    }

    /** A scheduler whose idle thread is running. */
    constructor (idle: Thread)
      requires idle.state == RUNNING && idle.slice <= SLICE
      ensures Valid() && current == idle && this.idle == idle && queue == [] && all == {idle} && fresh(table)
    {
      current, this.idle, head, tail := idle, idle, null, null;
      table := new Thread?[MAX_THREADS](_ => null);
      threadCount, nextTid, ticks := 0, 1, 0;
      queue, all := [], {idle};
    }

    /** `add_to_ready_queue` appends. */
    method AddToReadyQueue(t: Thread)
      requires Linked() && t !in queue
      modifies this`head, this`tail, this`queue, queue, t
      ensures Linked() && queue == old(queue) + [t] && t.state == READY
      ensures forall x :: x in old(queue) ==> x.state == old(x.state) && x.slice == old(x.slice)
      ensures t.slice == old(t.slice)
    {
      ghost var q := queue;
      t.state := READY;
      t.next := null;
      t.prev := tail;
      if tail != null {
        tail.next := t;
      } else {
        head := t;
      }
      tail := t;
      queue := q + [t];
      AppendChained(q, t);
    }

    /** The forward half of `remove_from_ready_queue`. */
    method UnlinkForward(t: Thread, ghost k: nat)
      requires Linked() && k < |queue| && queue[k] == t
      modifies this`head, queue`next
      ensures Forward(queue, k) && t.next == At(queue, k + 1)
      ensures head == At(queue, if k == 0 then 1 else 0)
    {
      assert t.prev == At(queue, k - 1);
      if t.prev != null {
        t.prev.next := t.next;
      } else {
        head := t.next;
      }
    }

    /** The backward half. */
    method UnlinkBackward(t: Thread, ghost k: nat)
      requires NoRepeats(queue) && Backward(queue, -1) && k < |queue| && queue[k] == t && t.next == At(queue, k + 1)
      requires tail == At(queue, |queue| - 1)
      modifies this`tail, queue`prev
      ensures Backward(queue, k)
      ensures tail == At(queue, if k == |queue| - 1 then k - 1 else |queue| - 1)
    {
      assert t.prev == At(queue, k - 1);
      if t.next != null {
        t.next.prev := t.prev;
      } else {
        tail := t.prev;
      }
    }

    /** Bridge over member `k`. */
    method Unlink(t: Thread, ghost k: nat)
      requires Linked() && k < |queue| && queue[k] == t
      modifies this`head, this`tail, queue`next, queue`prev
      ensures Bridged(queue, k) && t.next == null && t.prev == null
      ensures head == At(queue, if k == 0 then 1 else 0)
      ensures tail == At(queue, if k == |queue| - 1 then k - 1 else |queue| - 1)
    {
      hide Forward, Backward, At;
      UnlinkForward(t, k);
      UnlinkBackward(t, k);
      ClearLinks(t, k);
    }

    method ClearLinks(t: Thread, ghost k: nat)
      requires NoRepeats(queue) && k < |queue| && queue[k] == t && Forward(queue, k) && Backward(queue, k)
      modifies t`next, t`prev
      ensures Forward(queue, k) && Backward(queue, k) && t.next == null && t.prev == null
    {
      assert forall i :: 0 <= i < |queue| && i != k ==> queue[i] != t;
      t.next := null;
      t.prev := null;
    }

    /** `remove_from_ready_queue` deletes any member. */
    method RemoveFromReadyQueue(t: Thread, ghost k: nat)
      requires Linked() && k < |queue| && queue[k] == t
      modifies this`head, this`tail, this`queue, queue
      ensures Linked() && queue == Cut(old(queue), k)
      ensures t.next == null && t.prev == null
      ensures forall x :: x in old(queue) ==> x.state == old(x.state) && x.slice == old(x.slice)
    {
      hide Bridged;
      ghost var q := queue;
      Unlink(t, k);
      CutChained(q, k);
      queue := Cut(q, k);
    }

    /** `get_next_thread` pops the head, or falls back to idle. */
    method GetNextThread() returns (t: Thread)
      requires Linked()
      modifies this`head, this`tail, this`queue, queue
      ensures Linked()
      ensures t == if old(queue) != [] then old(queue)[0] else idle
      ensures queue == if old(queue) != [] then old(queue)[1..] else []
      ensures t == idle || t !in queue
      ensures forall x :: x in old(queue) ==> x.state == old(x.state) && x.slice == old(x.slice)
    {
      if head != null {
        t := head;
        RemoveFromReadyQueue(t, 0);
      } else {
        t := idle;
      }
    }

    /** Everyone but `o` and `n` waits, is idle or is a zombie. */
    ghost predicate Between(o: Thread, n: Thread)
      reads this, all
    {
      && o in all && n in all && idle in all && o !in queue && n !in queue && idle !in queue && idle.state == RUNNING
      && (forall x :: x in queue ==> x in all && x.state == READY)
      && (forall x :: x in all && x != idle && x != o && x != n && x !in queue ==> x.state == ZOMBIE)
      && (forall x :: x in all ==> x.slice <= SLICE)
    }

    /** The first part of `sched_yield`: choose the next thread. */
    method Choose() returns (n: Thread)
      requires Linked() && (Partition(RUNNING) || Partition(ZOMBIE))
      modifies this`head, this`tail, this`queue, queue
      ensures Linked() && Between(current, n)
      ensures n == if old(queue) != [] then old(queue)[0] else idle
      ensures queue == if old(queue) != [] then old(queue)[1..] else []
      ensures forall x :: x in all ==> x.state == old(x.state) && x.slice == old(x.slice)
    {
      hide Bridged, NoRepeats, At;
      n := GetNextThread();
    }

    /** Then: queue the old thread if it is still running and not idle. */
    method Requeue(o: Thread, n: Thread)
      requires Linked() && Between(o, n) && o != n
      requires o.state == RUNNING || (o.state == ZOMBIE && o != idle)
      modifies this`head, this`tail, this`queue, queue, o
      ensures Linked() && Between(n, n)
      ensures queue == old(queue) + if old(o.state) == RUNNING && o != idle then [o] else []
      ensures forall x :: x in all && old(x.state) == ZOMBIE ==> x.state == ZOMBIE
    {
      hide Bridged, NoRepeats, At;
      if o.state == RUNNING {
        if o != idle {
          AddToReadyQueue(o);
        }
      }
    }

    /** Last: make `t` the running thread. */
    method Dispatch(t: Thread)
      requires Between(t, t) && Linked() && TableOk()
      modifies this`current, t
      ensures Valid() && Value() == Sched(t, idle, queue, SLICE)
      ensures forall x :: x in all && x != t ==> x.state == old(x.state)
    {
      hide Bridged, NoRepeats, At;
      t.state := RUNNING;
      t.slice := SLICE;
      current := t;
    }

    /** `sched_yield`, called by a running thread or by one that has just become
        a zombie. */
    method SchedYield()
      requires Linked() && TableOk()
      requires Partition(RUNNING) || (Partition(ZOMBIE) && current != idle)
      modifies this`current, this`head, this`tail, this`queue, all
      ensures Valid()
      ensures Value() == Switch(old(Value()), old(current.state) == RUNNING)
      ensures forall t :: t in all && old(t.state) == ZOMBIE ==> t.state == ZOMBIE
    {
      hide Linked, TableOk;
      var oldThread := current;
      var newThread := Choose();
      if newThread == oldThread {
        return;
      }
      Requeue(oldThread, newThread);
      Dispatch(newThread);
    }

    /** A running thread gives up the processor. */
    method YieldNow()
      requires Valid()
      modifies this`current, this`head, this`tail, this`queue, all
      ensures Valid() && Value() == Step(old(Value()), Yield)
      ensures forall t :: t in all && old(t.state) == ZOMBIE ==> t.state == ZOMBIE
    {
      SchedYield();
    }

    /** The end of `thread_wrapper`: the thread becomes a zombie, is not queued,
        and another thread runs. */
    method ExitNow()
      requires Valid() && current != idle
      modifies this`current, this`head, this`tail, this`queue, all
      ensures Valid() && Value() == Step(old(Value()), Exit)
      ensures old(current).state == ZOMBIE && current != old(current) && old(current) !in queue
      ensures forall t :: t in all && old(t.state) == ZOMBIE ==> t.state == ZOMBIE
    {
      hide Bridged, NoRepeats, At;
      current.state := ZOMBIE;
      SchedYield();
    }

    lemma HeadOrEmpty()
      requires Linked()
      ensures head == null <==> queue == []
    {
    }

    /** `sched_tick`. */
    method SchedTick()
      requires Valid()
      modifies this`ticks, this`current, this`head, this`tail, this`queue, all
      ensures Valid() && Value() == Step(old(Value()), Tick) && ticks == old(ticks) + 1
      ensures forall t :: t in all && old(t.state) == ZOMBIE ==> t.state == ZOMBIE
    {
      hide Linked, TableOk;
      HeadOrEmpty();
      ticks := ticks + 1;
      if current.slice > 0 {
        current.slice := current.slice - 1;
      }
      if current.slice == 0 && head != null {
        SchedYield();
      }
    }

    /** The slot search of `thread_create`: the first empty slot from 1 on, if
        there is one. */
    method TakeSlot(t: Thread)
      requires TableOk() && t !in table[..]
      modifies this`threadCount, table
      ensures TableOk() && table[0] == old(table[0])
      ensures t in table[..] <==> old(threadCount) < MAX_THREADS - 1
      ensures if old(threadCount) < 7 then table[..] == old(table[..])[old(threadCount) + 1 := t]
              else table[..] == old(table[..])
      ensures threadCount == if old(threadCount) < 7 then old(threadCount) + 1 else old(threadCount)
    {
      var i := 1;
      while i < MAX_THREADS
        invariant 1 <= i <= MAX_THREADS && i <= threadCount + 1
        invariant table[..] == old(table[..]) && threadCount == old(threadCount)
      {
        if table[i] == null {
          table[i] := t;
          threadCount := threadCount + 1;
          assert table[..][i] == t;
          return;
        }
        i := i + 1;
      }
    }

    /** A new thread joins the queue. */
    method Enroll(t: Thread)
      requires Partition(RUNNING) && Linked() && t !in all && t.slice <= SLICE
      modifies this`all, this`head, this`tail, this`queue, queue, t
      ensures Partition(RUNNING) && Linked()
      ensures all == old(all) + {t} && queue == old(queue) + [t] && t.slice == old(t.slice)
      ensures forall x :: x in old(all) ==> x.state == old(x.state) && x.slice == old(x.slice)
    {
      hide Bridged, NoRepeats, At;
      AddToReadyQueue(t);
      all := all + {t};
    }

    /** The two heap requests of `thread_create`; a structure without a stack is
        lost. */
    static method TakeMemory(heap: Heap.KernelHeap, threadSize: int) returns (ok: bool)
      requires Heap.Inv(heap.ptr) && 0 < threadSize <= Heap.MAX_SAFE
      modifies heap
      ensures Heap.Inv(heap.ptr) && Memory(old(heap.ptr), threadSize, heap.ptr, ok)
    {
      hide Heap.Kmalloc, Heap.Inv;
      Heap.SafeSizes(heap.ptr, threadSize);
      var structure := heap.Alloc(threadSize);
      if structure == 0 {
        return false;
      }
      Heap.SafeSizes(heap.ptr, STACK);
      var stack := heap.Alloc(STACK);
      return stack != 0;
    }

    /** Make the thread known: a table slot if there is one, and the queue. */
    method Admit() returns (thread: Thread)
      requires Valid()
      modifies this, queue, table
      ensures Valid() && fresh(thread) && thread.tid == old(nextTid) && nextTid == (thread.tid + 1) % TWO32
      ensures thread.slice == SLICE && all == old(all) + {thread}
      ensures Value() == Step(old(Value()), Create(thread))
      ensures thread in table[..] <==> old(threadCount) < MAX_THREADS - 1
      ensures if old(threadCount) < 7 then table[..] == old(table[..])[old(threadCount) + 1 := thread]
              else table[..] == old(table[..])
      ensures forall t :: t in old(all) ==> t.state == old(t.state)
    {
      hide Linked;
      thread := new Thread(nextTid);
      nextTid := (nextTid + 1) % TWO32;
      TakeSlot(thread);
      Enroll(thread);
    }

    /** `thread_create`.  The count of filled slots stays below the table size,
        so the check for a full table never stops a creation; from the eighth
        thread on, new threads are queued without a slot. */
    method ThreadCreate(heap: Heap.KernelHeap, threadSize: int) returns (tid: int, ghost made: Thread?)
      requires Valid() && Heap.Inv(heap.ptr) && 0 < threadSize <= Heap.MAX_SAFE
      modifies this, queue, table, heap
      ensures Valid() && Heap.Inv(heap.ptr) && Memory(old(heap.ptr), threadSize, heap.ptr, made != null)
      ensures made == null ==> tid == 0 && Value() == old(Value()) && all == old(all)
      ensures made != null ==>
                && fresh(made) && tid == made.tid == old(nextTid) && nextTid == (tid + 1) % TWO32
                && made.slice == SLICE && all == old(all) + {made}
                && Value() == Step(old(Value()), Create(made))
                && (made in table[..] <==> old(threadCount) < MAX_THREADS - 1)
                && table[..] == if old(threadCount) < 7 then old(table[..])[old(threadCount) + 1 := made]
                                else old(table[..])
      ensures forall t :: t in old(all) ==> t.state == old(t.state)
    {
      hide Linked, Partition, Heap.Inv, Memory;
      if threadCount >= MAX_THREADS {
        // The count stops at 7, so this test of the source never succeeds.
        assert false;
      }
      var ok := TakeMemory(heap, threadSize);
      if !ok {
        return 0, null;
      }
      var thread := Admit();
      return thread.tid, thread;
    }
  }
}
