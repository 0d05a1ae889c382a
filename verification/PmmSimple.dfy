/** The frame allocator of os/kernel/mm/pmm_simple.c: a bounded stack of freed
    pages in front of a bump pointer.

    `State` is the allocator's static data as a value, and the functions on it
    say what each operation does.  `Pmm` is the same data updated in place; its
    methods are proved against those functions.  A `Book` adds what only the
    callers know: which pages they hold, and which freed pages were dropped
    because the stack was full. */
module PmmSimple {
  import opened Types

  const START := 0x20_0000       // 2 MB
  const END := 0x4000_0000       // 1 GB
  const MAX_FREE := 1024
  const TOTAL := (END - START) / PAGE_SIZE

  datatype State = State(stack: seq<int>, next: int, total: int, inUse: int, freed: int)

  datatype Stats = Stats(total: int, free: int, used: int)

  /** Addresses of pages of the managed range. */
  predicate PageAddr(a: int) {
    START <= a < END && a % PAGE_SIZE == 0
  }

  function Init(): State {
    State([], START, TOTAL, 0, 0)
  }

  /** Pop the stack, else bump, else report 0. */
  function Alloc(s: State): (State, int) {
    if |s.stack| > 0 then
      (s.(stack := s.stack[..|s.stack| - 1], inUse := s.inUse + 1), s.stack[|s.stack| - 1])
    else if s.next < END then
      (s.(next := s.next + PAGE_SIZE, inUse := s.inUse + 1), s.next)
    else
      (s, 0)
  }

  /** Out-of-range addresses and frees onto a full stack are ignored. */
  function Free(s: State, a: int): State {
    if a < START || a >= END || |s.stack| >= MAX_FREE then s
    else
      s.(stack := s.stack + [a], freed := s.freed + 1,
         inUse := if s.inUse > 0 then s.inUse - 1 else s.inUse)
  }

  /** Contiguous pages come from the bump pointer only; the bound is checked in
      64-bit arithmetic. */
  function AllocMany(s: State, count: int): (State, int)
    requires 0 <= count < TWO64
  {
    var size := count * PAGE_SIZE % TWO64;
    if count == 0 then (s, 0)
    else if (s.next + size) % TWO64 <= END then
      (s.(next := (s.next + size) % TWO64, inUse := (s.inUse + count) % TWO64), s.next)
    else (s, 0)
  }

  function FreeMany(s: State, a: int, count: int): State
    requires 0 <= count
    decreases count
  {
    if count == 0 then s
    else FreeMany(Free(s, a % TWO64), (a + PAGE_SIZE) % TWO64, count - 1)
  }

  function GetStats(s: State): Stats {
    Stats(s.total, |s.stack| + (END - s.next) / PAGE_SIZE, s.inUse)
  }

  // ---------------------------------------------------------------- callers

  /** The allocator together with the pages its callers hold (`out`) and the
      freed pages it dropped (`lost`). */
  datatype Book = Book(s: State, out: set<int>, lost: set<int>)

  ghost predicate Distinct(xs: seq<int>) {
    forall i, j :: 0 <= i < j < |xs| ==> xs[i] != xs[j]
  }

  /** Issued pages lie below the bump pointer. */
  ghost predicate Issued(s: State, a: int) {
    PageAddr(a) && a < s.next
  }

  ghost predicate Inv(b: Book) {
    match b
    case Book(s, out, lost) =>
      && START <= s.next <= END && s.next % PAGE_SIZE == 0
      && s.total == TOTAL
      && |s.stack| <= MAX_FREE
      && Distinct(s.stack)
      && (forall i :: 0 <= i < |s.stack| ==> Issued(s, s.stack[i]) && s.stack[i] !in out && s.stack[i] !in lost)
      && (forall a :: a in out ==> Issued(s, a) && a !in lost)
      && (forall a :: a in lost ==> Issued(s, a))
      && s.inUse == |out| + |lost|
      && (|s.stack| + |out| + |lost|) * PAGE_SIZE == s.next - START
  }

  datatype Op = AllocOne | FreeOne(a: int) | AllocRun(count: int) | FreeRun(base: int, len: int)

  /** The pages of a run of `count` pages from `a` on. */
  ghost function RunOf(a: int, count: int): set<int> {
    set i | 0 <= i < count :: a + i * PAGE_SIZE
  }

  /** What the interface asks of callers: free only what you hold (addresses
      outside the pool are ignored and may be freed at will), and do not ask
      for a run whose byte size wraps past the bound check. */
  ghost predicate Disciplined(b: Book, op: Op) {
    match op
    case AllocOne => true
    case FreeOne(a) => a in b.out || a < START || a >= END
    case AllocRun(n) => 0 <= n < TWO64 && NoWrap(b.s, n)
    case FreeRun(a, n) => 0 <= n && RunOf(a, n) <= b.out
  }

  /** The 64-bit bound check of `AllocMany` gives the answer of exact arithmetic. */
  predicate NoWrap(s: State, count: int)
    requires 0 <= count < TWO64
  {
    (s.next + count * PAGE_SIZE <= END) == ((s.next + count * PAGE_SIZE) % TWO64 <= END)
  }

  ghost function FreeBook(b: Book, a: int): Book {
    if a < START || a >= END then b
    else if |b.s.stack| >= MAX_FREE then Book(Free(b.s, a), b.out - {a}, b.lost + {a})
    else Book(Free(b.s, a), b.out - {a}, b.lost)
  }

  ghost function FreeRunBook(b: Book, a: int, count: int): Book
    requires 0 <= count
    decreases count
  {
    if count == 0 then b else FreeRunBook(FreeBook(b, a), a + PAGE_SIZE, count - 1)
  }

  ghost function Step(b: Book, op: Op): Book
    requires Disciplined(b, op)
  {
    match op
    case AllocOne =>
      var (s', a) := Alloc(b.s);
      Book(s', if a == 0 then b.out else b.out + {a}, b.lost)
    case FreeOne(a) => FreeBook(b, a)
    case AllocRun(n) =>
      var (s', a) := AllocMany(b.s, n);
      Book(s', if a == 0 then b.out else b.out + RunOf(a, n), b.lost)
    case FreeRun(a, n) => FreeRunBook(b, a, n)
  }

  ghost predicate DisciplinedRun(b: Book, ops: seq<Op>)
    decreases |ops|
  {
    ops == [] || (Disciplined(b, ops[0]) && DisciplinedRun(Step(b, ops[0]), ops[1..]))
  }

  ghost function Run(b: Book, ops: seq<Op>): Book
    requires DisciplinedRun(b, ops)
    decreases |ops|
  {
    if ops == [] then b else Run(Step(b, ops[0]), ops[1..])
  }

  /** A page handed out was held by nobody and is a real page of the pool; 0 is
      reported exactly when nothing is left. */
  lemma AllocKeeps(b: Book)
    requires Inv(b)
    ensures Inv(Step(b, AllocOne))
    ensures var (s', a) := Alloc(b.s);
            if GetStats(b.s).free == 0 then a == 0 && s' == b.s
            else PageAddr(a) && a !in b.out && a !in b.lost && GetStats(s').free == GetStats(b.s).free - 1
  {
    hide Inv;
    Bounds(b);
    if |b.s.stack| > 0 {
      PopKeeps(b);
    } else if b.s.next < END {
      assert forall x :: x in {b.s.next} ==> PageAddr(x);
      FewInUse(b);
      GrowKeeps(b, {b.s.next}, 1);
      BumpFresh(b);
    }
  }

  lemma PopKeeps(b: Book)
    requires Inv(b) && |b.s.stack| > 0
    ensures Inv(Step(b, AllocOne))
    ensures var a := Alloc(b.s).1; PageAddr(a) && a !in b.out && a !in b.lost
  {
    var a := b.s.stack[|b.s.stack| - 1];
    assert Issued(b.s, a);
    assert |b.out + {a}| == |b.out| + 1;
  }

  lemma BumpFresh(b: Book)
    requires Inv(b)
    ensures b.s.next !in b.out && b.s.next !in b.lost
  {
  }

  lemma FreeKeeps(b: Book, a: int)
    requires Inv(b) && Disciplined(b, FreeOne(a))
    ensures Inv(FreeBook(b, a))
    ensures FreeBook(b, a).out == b.out - {a}
    ensures FreeBook(b, a).s == Free(b.s, a)
    ensures FreeBook(b, a).s.next == b.s.next
  {
    if START <= a < END {
      assert a in b.out;
      assert |b.out - {a}| == |b.out| - 1;
      var b' := FreeBook(b, a);
      if |b.s.stack| < MAX_FREE {
        assert forall x :: x in b'.s.stack ==> x in b.s.stack || x == a;
      }
    } else {
      assert a !in b.out;
    }
  }

  lemma {:induction false} RunCount(a: int, count: int)
    requires 0 <= count
    ensures |RunOf(a, count)| == count
  {
    if count > 0 {
      RunCount(a, count - 1);
      var last := a + (count - 1) * PAGE_SIZE;
      assert RunOf(a, count) == RunOf(a, count - 1) + {last};
      assert last !in RunOf(a, count - 1);
    } else {
      assert RunOf(a, count) == {};
    }
  }

  /** Where the bound check is exact, the bump pointer moves by exactly the run. */
  lemma AllocManyExact(s: State, count: int)
    requires START <= s.next <= END && s.next % PAGE_SIZE == 0
    requires 0 <= count < TWO64 && NoWrap(s, count)
    ensures (END - s.next) / PAGE_SIZE < count <==> s.next + count * PAGE_SIZE > END
    ensures AllocMany(s, count) ==
            if count == 0 || s.next + count * PAGE_SIZE > END then (s, 0)
            else (s.(next := s.next + count * PAGE_SIZE, inUse := (s.inUse + count) % TWO64), s.next)
  {
    var size := count * PAGE_SIZE;
    assert (s.next + size % TWO64) % TWO64 == (s.next + size) % TWO64;
  }

  lemma RunBounds(s: State, count: int)
    requires START <= s.next && s.next % PAGE_SIZE == 0
    requires 0 <= count && s.next + count * PAGE_SIZE <= END
    ensures forall x :: x in RunOf(s.next, count) ==> PageAddr(x) && s.next <= x < s.next + count * PAGE_SIZE
  {
    forall x | x in RunOf(s.next, count)
      ensures PageAddr(x) && s.next <= x < s.next + count * PAGE_SIZE
    {
      var i :| 0 <= i < count && x == s.next + i * PAGE_SIZE;
    }
  }

  /** Moving the bump pointer over a run that is handed out keeps the books. */
  lemma GrowKeeps(b: Book, run: set<int>, count: int)
    requires Inv(b) && 0 <= count == |run| && b.s.next + count * PAGE_SIZE <= END
    requires forall x :: x in run ==> PageAddr(x) && b.s.next <= x < b.s.next + count * PAGE_SIZE
    ensures run !! b.out
    ensures Inv(Book(b.s.(next := b.s.next + count * PAGE_SIZE, inUse := b.s.inUse + count), b.out + run, b.lost))
  {
    forall x | x in run
      ensures x !in b.out
    {
      assert Issued(b.s, x) ==> x < b.s.next;
    }
    assert |b.out + run| == |b.out| + count;
  }

  lemma FewInUse(b: Book)
    requires Inv(b)
    ensures 0 <= b.s.inUse <= TOTAL
  {
  }

  lemma AllocManyKeeps(b: Book, count: int)
    requires Inv(b) && Disciplined(b, AllocRun(count))
    ensures Inv(Step(b, AllocRun(count)))
    ensures var (s', a) := AllocMany(b.s, count);
            if count == 0 || (END - b.s.next) / PAGE_SIZE < count then a == 0 && s' == b.s
            else a == b.s.next && RunOf(a, count) !! b.out
                 && (forall x :: x in RunOf(a, count) ==> PageAddr(x))
                 && GetStats(s').free == GetStats(b.s).free - count
  {
    hide AllocMany, NoWrap, Inv, RunOf;
    var s := b.s;
    Bounds(b);
    AllocManyExact(s, count);
    if count != 0 && s.next + count * PAGE_SIZE <= END {
      var run := RunOf(s.next, count);
      RunCount(s.next, count);
      RunBounds(s, count);
      FewInUse(b);
      GrowKeeps(b, run, count);
    }
  }

  lemma Bounds(b: Book)
    requires Inv(b)
    ensures START <= b.s.next <= END && b.s.next % PAGE_SIZE == 0
  {
  }

  lemma RunFirst(a: int, count: int)
    requires 0 < count
    ensures RunOf(a, count) == {a} + RunOf(a + PAGE_SIZE, count - 1)
    ensures a !in RunOf(a + PAGE_SIZE, count - 1)
  {
    var rest := RunOf(a + PAGE_SIZE, count - 1);
    forall x | x in RunOf(a, count)
      ensures x in {a} + rest
    {
      var i :| 0 <= i < count && x == a + i * PAGE_SIZE;
      assert i > 0 ==> x == (a + PAGE_SIZE) + (i - 1) * PAGE_SIZE;
    }
    forall x | x in rest
      ensures x in RunOf(a, count)
    {
      var i :| 0 <= i < count - 1 && x == (a + PAGE_SIZE) + i * PAGE_SIZE;
      assert x == a + (i + 1) * PAGE_SIZE;
    }
    assert a == a + 0 * PAGE_SIZE;
  }

  lemma NextAddress(base: int, i: int)
    ensures ((base + i * PAGE_SIZE) % TWO64 + PAGE_SIZE) % TWO64 == (base + (i + 1) * PAGE_SIZE) % TWO64
    ensures (base + i * PAGE_SIZE) % TWO64 % TWO64 == (base + i * PAGE_SIZE) % TWO64
  {
    var x := base + i * PAGE_SIZE;
    assert (x % TWO64 + PAGE_SIZE) % TWO64 == (x + PAGE_SIZE) % TWO64;
  }

  lemma {:induction false} FreeRunIsFreeMany(b: Book, a: int, count: int)
    requires 0 <= count && 0 <= a && a + count * PAGE_SIZE < TWO64
    ensures FreeRunBook(b, a, count).s == FreeMany(b.s, a, count)
    decreases count
  {
    if count > 0 {
      FreeRunIsFreeMany(FreeBook(b, a), a + PAGE_SIZE, count - 1);
    }
  }

  lemma FreeFirst(b: Book, a: int, count: int)
    requires Inv(b) && 0 < count && RunOf(a, count) <= b.out
    ensures Inv(FreeBook(b, a))
    ensures RunOf(a + PAGE_SIZE, count - 1) <= FreeBook(b, a).out
    ensures FreeBook(b, a).out - RunOf(a + PAGE_SIZE, count - 1) == b.out - RunOf(a, count)
  {
    RunFirst(a, count);
    FreeKeeps(b, a);
  }

  /** The first page of a held run can be freed as it stands. */
  lemma HeldHead(b: Book, a: int, count: int)
    requires Inv(b) && 0 < count && RunOf(a, count) <= b.out
    ensures a % TWO64 == a && Disciplined(b, FreeOne(a))
    ensures RunOf(a + PAGE_SIZE, count - 1) <= Step(b, FreeOne(a)).out
    ensures FreeRunBook(b, a, count) == FreeRunBook(Step(b, FreeOne(a)), a + PAGE_SIZE, count - 1)
  {
    assert a in b.out by { RunFirst(a, count); }
    assert Disciplined(b, FreeOne(a));
    FreeFirst(b, a, count);
  }

  lemma {:induction false} FreeRunKeeps(b: Book, a: int, count: int)
    requires Inv(b) && 0 <= count && RunOf(a, count) <= b.out
    ensures Inv(FreeRunBook(b, a, count))
    ensures FreeRunBook(b, a, count).out == b.out - RunOf(a, count)
    decreases count
  {
    if count == 0 {
      assert RunOf(a, count) == {};
    } else {
      FreeFirst(b, a, count);
      FreeRunKeeps(FreeBook(b, a), a + PAGE_SIZE, count - 1);
    }
  }

  lemma StepKeeps(b: Book, op: Op)
    requires Inv(b) && Disciplined(b, op)
    ensures Inv(Step(b, op))
  {
    match op
    case AllocOne => AllocKeeps(b);
    case FreeOne(a) => FreeKeeps(b, a);
    case AllocRun(n) => AllocManyKeeps(b, n);
    case FreeRun(a, n) => FreeRunKeeps(b, a, n);
  }

  /** In every state of every disciplined run: stack entries are distinct pages
      that nobody holds, and used + free = total. */
  lemma {:induction false} RunSafe(b: Book, ops: seq<Op>)
    requires Inv(b) && DisciplinedRun(b, ops)
    ensures Inv(Run(b, ops))
    ensures var st := GetStats(Run(b, ops).s); st.used + st.free == st.total == TOTAL
    decreases |ops|
  {
    if ops != [] {
      StepKeeps(b, ops[0]);
      RunSafe(Step(b, ops[0]), ops[1..]);
    }
  }

  lemma InitSafe()
    ensures Inv(Book(Init(), {}, {}))
  {
  }

  /** The run handed out lies inside the pool exactly when the 64-bit bound
      check did not wrap. */
  lemma AllocManySound(b: Book, count: int)
    requires Inv(b) && 0 <= count < TWO64
    ensures var a := AllocMany(b.s, count).1;
            (a == 0 || forall x :: x in RunOf(a, count) ==> PageAddr(x))
            <==> (count == 0 || NoWrap(b.s, count))
  {
    var s := b.s;
    if count != 0 {
      if NoWrap(s, count) {
        AllocManyKeeps(b, count);
      } else {
        var size := count * PAGE_SIZE;
        assert (s.next + size % TWO64) % TWO64 == (s.next + size) % TWO64;
        assert AllocMany(s, count).1 == s.next;
        assert s.next + size > END;
        assert s.next + (count - 1) * PAGE_SIZE in RunOf(s.next, count);
      }
    }
  }

  /** Runs of fewer than 2^51 pages never wrap. */
  lemma SmallRunsDoNotWrap(s: State, count: int)
    requires START <= s.next <= END && 0 <= count < 0x8_0000_0000_0000
    ensures NoWrap(s, count)
  {
  }

  /** A wrapping request moves the bump pointer backwards, so that a page held
      by a caller is handed out again. */
  lemma WrapHandsOutTwice()
    ensures var b := Step(Book(Init(), {}, {}), AllocOne);
            START in b.out && Alloc(AllocMany(b.s, 0xF_FFFF_FFFF_FFFF).0).1 == START
  {
  }

  // ------------------------------------------------ what each operation does

  /** The page freed last is the next one handed out, and that undoes the free
      but for the count of frees. */
  lemma FreeThenAlloc(b: Book, a: int)
    requires Inv(b) && a in b.out && |b.s.stack| < 1024
    ensures Alloc(Free(b.s, a)) == (b.s.(freed := b.s.freed + 1), a)
  {
    HeldInside(b, a);
    assert b.s.inUse > 0;
    assert (b.s.stack + [a])[..|b.s.stack|] == b.s.stack;
  }

  /** New pages are taken only when no freed one is left, upwards from 2 MB, up to
      1 GB. */
  lemma BumpExact(b: Book)
    requires Inv(b)
    ensures var (s', a) := Alloc(b.s);
            && (s'.next != b.s.next <==> b.s.stack == [] && b.s.next < 0x4000_0000)
            && (s'.next != b.s.next ==> a == b.s.next && s' == b.s.(next := a + 4096, inUse := b.s.inUse + 1))
            && (b.s.stack != [] ==>
                  s' == b.s.(stack := s'.stack, inUse := b.s.inUse + 1) && s'.stack + [a] == b.s.stack)
  {
    if b.s.stack != [] {
      var n := |b.s.stack| - 1;
      assert b.s.stack[..n] + [b.s.stack[n]] == b.s.stack;
    }
  }

  /** A free of a pool address puts it on the stack while fewer than 1024 are
      there; one more, and any other address, is ignored. */
  lemma FreeExact(b: Book, a: int)
    requires Inv(b) && a in b.out + b.lost
    ensures Free(b.s, a) == if |b.s.stack| < 1024 then
                              b.s.(stack := b.s.stack + [a], freed := b.s.freed + 1, inUse := b.s.inUse - 1)
                            else b.s
    ensures forall x :: x < 0x20_0000 || x >= 0x4000_0000 ==> Free(b.s, x) == b.s
  {
    assert Issued(b.s, a);
    assert |b.out + b.lost| > 0;
  }

  ghost function Fresh(k: nat): State {
    if k == 0 then Init() else Alloc(Fresh(k - 1)).0
  }

  /** From the start exactly 261632 pages are handed out, in order from 2 MB. */
  lemma {:induction false} Capacity(k: nat)
    requires k <= 261632
    ensures Fresh(k) == State([], 0x20_0000 + 4096 * k, 261632, k, 0)
    ensures Alloc(Fresh(k)).1 == if k < 261632 then 0x20_0000 + 4096 * k else 0
    ensures GetStats(Fresh(k)) == Stats(261632, 261632 - k, k)
  {
    if k > 0 {
      Capacity(k - 1);
    }
  }

  /** A run is met exactly if the rest of the pool above the bump pointer holds
      it, with everything else as it was. */
  lemma RunExact(b: Book, count: int)
    requires Inv(b) && 0 < count < 0x8_0000_0000_0000
    ensures AllocMany(b.s, count) ==
            if b.s.next + count * 4096 <= 0x4000_0000 then
              (b.s.(next := b.s.next + count * 4096, inUse := b.s.inUse + count), b.s.next)
            else (b.s, 0)
  {
    hide Inv, AllocMany;
    Bounds(b);
    FewInUse(b);
    SmallRunsDoNotWrap(b.s, count);
    AllocManyExact(b.s, count);
  }

  // ------------------------------------------------ when nothing is dropped

  lemma FreeDropsNothing(b: Book, a: int)
    requires Inv(b) && Disciplined(b, FreeOne(a)) && b.lost == {} && b.s.next <= 0x60_0000
    ensures FreeBook(b, a).lost == {} && FreeBook(b, a).s.next == b.s.next
  {
    if a in b.out {
      assert |b.out| > 0;
    }
  }

  lemma {:induction false} FreeRunDropsNothing(b: Book, a: int, count: int)
    requires Inv(b) && 0 <= count && RunOf(a, count) <= b.out && b.lost == {} && b.s.next <= 0x60_0000
    ensures FreeRunBook(b, a, count).lost == {} && FreeRunBook(b, a, count).s.next == b.s.next
    decreases count
  {
    hide Inv, RunOf, FreeBook;
    if count > 0 {
      HeldHead(b, a, count);
      FreeFirst(b, a, count);
      FreeDropsNothing(b, a);
      FreeRunDropsNothing(FreeBook(b, a), a + PAGE_SIZE, count - 1);
    }
  }

  lemma {:induction false} FreeRunNext(b: Book, a: int, count: int)
    requires 0 <= count
    ensures FreeRunBook(b, a, count).s.next == b.s.next
    decreases count
  {
    if count > 0 {
      FreeRunNext(FreeBook(b, a), a + PAGE_SIZE, count - 1);
    }
  }

  lemma StepUp(b: Book, op: Op)
    requires Inv(b) && Disciplined(b, op)
    ensures Step(b, op).s.next >= b.s.next
  {
    hide Inv, RunOf;
    Bounds(b);
    match op {
      case AllocRun(n) =>
        hide AllocMany, NoWrap;
        AllocManyExact(b.s, n);
      case FreeRun(a, n) => FreeRunNext(b, a, n);
      case _ =>
    }
  }

  lemma {:induction false} RunUp(b: Book, ops: seq<Op>)
    requires Inv(b) && DisciplinedRun(b, ops)
    ensures Run(b, ops).s.next >= b.s.next
    decreases |ops|
  {
    hide Inv, Step, Disciplined;
    if ops != [] {
      StepUp(b, ops[0]);
      StepKeeps(b, ops[0]);
      RunUp(Step(b, ops[0]), ops[1..]);
    }
  }

  /** As long as a run has not gone past the first 1024 pages, no freed page is
      dropped: every page is free or held. */
  lemma {:induction false} NothingDropped(b: Book, ops: seq<Op>)
    requires Inv(b) && DisciplinedRun(b, ops) && b.lost == {} && Run(b, ops).s.next <= 0x60_0000
    ensures Run(b, ops).lost == {}
    decreases |ops|
  {
    hide Inv, RunOf, Alloc, AllocMany, NoWrap, FreeBook;
    if ops != [] {
      var b' := Step(b, ops[0]);
      StepUp(b, ops[0]);
      StepKeeps(b, ops[0]);
      RunUp(b', ops[1..]);
      match ops[0] {
        case FreeOne(a) => FreeDropsNothing(b, a);
        case FreeRun(a, n) => FreeRunDropsNothing(b, a, n);
        case _ =>
      }
      NothingDropped(b', ops[1..]);
    }
  }

  /** Frame numbers the allocator can still hand out. */
  ghost function Avail(s: State): set<int> {
    set f | START / PAGE_SIZE <= f < END / PAGE_SIZE && (f * PAGE_SIZE in s.stack || s.next <= f * PAGE_SIZE)
  }

  /** How many there are, as `pmm_get_stats` reports it. */
  function FreeCount(s: State): int {
    GetStats(s).free
  }

  ghost function FramesOf(pages: seq<int>): set<int> {
    if pages == [] then {} else FramesOf(pages[..|pages| - 1]) + {pages[|pages| - 1] / PAGE_SIZE}
  }

  lemma {:induction false} DistinctFrames(pages: seq<int>)
    requires Distinct(pages) && forall i :: 0 <= i < |pages| ==> pages[i] % PAGE_SIZE == 0
    ensures |FramesOf(pages)| == |pages|
    ensures forall f :: f in FramesOf(pages) <==> f * PAGE_SIZE in pages
  {
    if pages != [] {
      var front, last := pages[..|pages| - 1], pages[|pages| - 1];
      DistinctFrames(front);
      assert last !in front;
      assert last / PAGE_SIZE * PAGE_SIZE == last;
      assert pages == front + [last];
    }
  }

  ghost function Interval(lo: int, hi: int): set<int>
    decreases hi - lo
  {
    if hi <= lo then {} else Interval(lo, hi - 1) + {hi - 1}
  }

  lemma {:induction false} IntervalSize(lo: int, hi: int)
    requires lo <= hi
    ensures |Interval(lo, hi)| == hi - lo && forall f :: f in Interval(lo, hi) <==> lo <= f < hi
    decreases hi - lo
  {
    if lo < hi {
      IntervalSize(lo, hi - 1);
    }
  }

  /** The reported free count is the number of frames still to be handed out. */
  lemma AvailCount(b: Book)
    requires Inv(b)
    ensures FreeCount(b.s) == |Avail(b.s)|
  {
    var s := b.s;
    var stacked, bump := FramesOf(s.stack), Interval(s.next / PAGE_SIZE, END / PAGE_SIZE);
    DistinctFrames(s.stack);
    IntervalSize(s.next / PAGE_SIZE, END / PAGE_SIZE);
    forall f | f in stacked
      ensures f !in bump && START / PAGE_SIZE <= f < END / PAGE_SIZE
    {
      var i :| 0 <= i < |s.stack| && s.stack[i] == f * PAGE_SIZE;
      assert Issued(s, s.stack[i]);
    }
    assert Avail(s) == stacked + bump;
    assert stacked !! bump;
  }

  /** An allocation takes one frame out of the available ones. */
  lemma AllocTakesOne(b: Book)
    requires Inv(b)
    ensures var (s', a) := Alloc(b.s);
            a != 0 ==> a / PAGE_SIZE in Avail(b.s) && Avail(s') == Avail(b.s) - {a / PAGE_SIZE}
  {
    var s := b.s;
    var (s', a) := Alloc(s);
    if |s.stack| > 0 {
      assert a in s.stack;
      forall x
        ensures x in s'.stack <==> x in s.stack && x != a
      {
        if x in s.stack && x != a {
          var i :| 0 <= i < |s.stack| && s.stack[i] == x;
          assert s'.stack[i] == x;
        }
      }
    }
  }

  /** A held page given back to a stack with room is available again. */
  lemma FreeGivesOne(b: Book, a: int)
    requires Inv(b) && a in b.out && |b.s.stack| < MAX_FREE
    ensures var s' := Free(b.s, a);
            FreeCount(s') == FreeCount(b.s) + 1 && Avail(s') == Avail(b.s) + {a / PAGE_SIZE}
  {
    var s' := Free(b.s, a);
    assert forall x :: x in s'.stack <==> x in b.s.stack || x == a;
  }

  lemma HeldInside(b: Book, a: int)
    requires Inv(b) && a in b.out
    ensures PageAddr(a)
  {
    assert Issued(b.s, a);
  }

  lemma PoolFrames(b: Book)
    requires Inv(b)
    ensures FreeCount(b.s) >= 0
    ensures forall f :: f in Avail(b.s) ==> f * PAGE_SIZE !in b.out
    ensures FreeCount(Alloc(b.s).0) >= 0
  {
    AllocKeeps(b);
  }

  class Pmm {
    const freePages: array<int>
    var freeCount: int
    var next: int
    var total: int
    var inUse: int
    var freed: int
    ghost var out: set<int>
    ghost var lost: set<int>

    ghost function Value(): State
      reads this, freePages
    {
      State(if 0 <= freeCount <= freePages.Length then freePages[..freeCount] else [], next, total, inUse, freed)
    }

    ghost function Books(): Book
      reads this, freePages
    {
      Book(Value(), out, lost)
    }

    ghost predicate Valid()
      reads this, freePages
    {
      Shaped() && Inv(Books())
    }

    /** What the code relies on, whatever its callers did. */
    ghost predicate Shaped()
      reads this, freePages
    {
      freePages.Length == MAX_FREE && 0 <= freeCount <= MAX_FREE
    }

    constructor ()
      ensures Valid() && fresh(freePages)
      ensures Books() == Book(Init(), {}, {})
    {
      freePages := new int[MAX_FREE];
      freeCount, next, total, inUse, freed := 0, START, TOTAL, 0, 0;
      out, lost := {}, {};
      new;
      assert freePages[..0] == [];
      InitSafe();
    }

    method AllocPage() returns (a: int)
      requires Shaped()
      modifies this
      ensures Shaped() && (Value(), a) == Alloc(old(Value()))
      ensures old(Valid()) ==>
                && Valid() && Books() == Step(old(Books()), AllocOne)
                && if old(FreeCount(Value())) == 0 then a == 0 && Value() == old(Value())
                   else PageAddr(a) && a / PAGE_SIZE in old(Avail(Value()))
                        && Avail(Value()) == old(Avail(Value())) - {a / PAGE_SIZE}
                        && FreeCount(Value()) == old(FreeCount(Value())) - 1
    {
      hide Inv, Avail, GetStats;
      ghost var b, good := Books(), Valid();
      if freeCount > 0 {
        freeCount := freeCount - 1;
        inUse := inUse + 1;
        a := freePages[freeCount];
        assert Value().stack == b.s.stack[..|b.s.stack| - 1];
      } else if next < END {
        a := next;
        next := next + PAGE_SIZE;
        inUse := inUse + 1;
      } else {
        a := 0;
      }
      if a != 0 {
        out := out + {a};
      }
      assert (Value(), a) == Alloc(b.s);
      if good {
        AllocKeeps(b);
        AllocTakesOne(b);
      }
    }

    method FreePage(a: int)
      requires Shaped()
      modifies this, freePages
      ensures Shaped() && Value() == Free(old(Value()), a)
      ensures old(Valid() && Disciplined(Books(), FreeOne(a))) ==> Valid() && Books() == Step(old(Books()), FreeOne(a))
    {
      hide Inv;
      ghost var b, good := Books(), Valid() && Disciplined(Books(), FreeOne(a));
      if a < START || a >= END {
        return;
      }
      if freeCount < MAX_FREE {
        freePages[freeCount] := a;
        freeCount := freeCount + 1;
        freed := freed + 1;
        if inUse > 0 {
          inUse := inUse - 1;
        }
        assert Value().stack == b.s.stack + [a];
      } else {
        lost := lost + {a};
      }
      out := out - {a};
      assert Value() == Free(b.s, a);
      if good {
        FreeKeeps(b, a);
      }
    }

    method AllocPages(count: int) returns (a: int)
      requires Shaped() && 0 <= count < TWO64
      modifies this
      ensures Shaped() && (Value(), a) == AllocMany(old(Value()), count)
      ensures old(Valid() && Disciplined(Books(), AllocRun(count))) ==>
              Valid() && Books() == Step(old(Books()), AllocRun(count))
    {
      hide Inv, NoWrap;
      ghost var b, good := Books(), Valid() && Disciplined(Books(), AllocRun(count));
      if good {
        AllocManyKeeps(b, count);
        Bounds(b);
      }
      if count == 0 {
        return 0;
      }
      var size := count * PAGE_SIZE % TWO64;
      if (next + size) % TWO64 <= END {
        a := next;
        next := (next + size) % TWO64;
        inUse := (inUse + count) % TWO64;
        out := out + RunOf(a, count);
      } else {
        a := 0;
      }
      assert (Value(), a) == AllocMany(b.s, count);
    }

    method FreePages(base: int, count: int)
      requires Shaped() && 0 <= base < TWO64 && 0 <= count
      modifies this, freePages
      ensures Shaped() && Value() == FreeMany(old(Value()), base, count)
      ensures old(Valid() && Disciplined(Books(), FreeRun(base, count))) ==>
                Valid() && Books() == Step(old(Books()), FreeRun(base, count)) && out == old(out) - RunOf(base, count)
    {
      hide Inv, RunOf, FreeBook, Free;
      ghost var good := Valid() && Disciplined(Books(), FreeRun(base, count));
      ghost var goal := FreeRunBook(Books(), base, count);
      if good {
        FreeRunKeeps(Books(), base, count);
      }
      for i := 0 to count
        invariant Shaped()
        invariant FreeMany(Value(), (base + i * PAGE_SIZE) % TWO64, count - i) == old(FreeMany(Value(), base, count))
        invariant good ==> Valid() && RunOf(base + i * PAGE_SIZE, count - i) <= out
        invariant good ==> FreeRunBook(Books(), base + i * PAGE_SIZE, count - i) == goal
      {
        ghost var a := base + i * PAGE_SIZE;
        if good {
          HeldHead(Books(), a, count - i);
        }
        NextAddress(base, i);
        FreePage((base + i * PAGE_SIZE) % TWO64);
      }
    }

    method GetPmmStats() returns (st: Stats)
      requires Shaped()
      ensures st == GetStats(Value())
      ensures Valid() ==> st.used + st.free == st.total
    {
      st := Stats(total, freeCount + (END - next) / PAGE_SIZE, inUse);
    }
  }
}
