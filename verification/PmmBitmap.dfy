/** The bitmap frame allocator of os/kernel/mm/pmm.c.

    `State` is the allocator as a value, with the bitmap as a sequence of used
    flags; its operations find pages by a plain scan from page 0.  `Bitmap` holds
    the bits in bytes and starts its searches at the hint; it is proved to do
    what the plain scan does. */
module PmmBitmap {
  import opened Types

  const MAX_PAGES := 8 * 1024
  const TOTAL := 512 * 1024 * 1024
  const FREE_AT_BOOT := 256 * 1024 * 1024

  datatype State = State(used: seq<bool>, hint: nat, free: int, taken: int)

  // -------------------------------------------------------- plain scans

  /** The lowest free page from `from` on, or the number of pages. */
  function FirstFree(used: seq<bool>, from: nat): nat
    requires from <= |used|
    decreases |used| - from
  {
    if from == |used| || !used[from] then from else FirstFree(used, from + 1)
  }

  predicate AllFree(used: seq<bool>, start: nat, count: nat)
    requires start + count <= |used|
  {
    forall i :: start <= i < start + count ==> !used[i]
  }

  /** The lowest start of `count` free pages from `from` on, or the number of
      pages. */
  function FirstRun(used: seq<bool>, count: nat, from: nat): nat
    requires from <= |used|
    decreases |used| - from
  {
    if from + count > |used| then |used|
    else if AllFree(used, from, count) then from
    else FirstRun(used, count, from + 1)
  }

  lemma {:induction false} FirstFreeIs(used: seq<bool>, from: nat)
    requires from <= |used|
    ensures from <= FirstFree(used, from) <= |used|
    ensures forall i :: from <= i < FirstFree(used, from) ==> used[i]
    ensures FirstFree(used, from) < |used| ==> !used[FirstFree(used, from)]
    decreases |used| - from
  {
    if from < |used| && used[from] {
      FirstFreeIs(used, from + 1);
    }
  }

  lemma {:induction false} FirstRunIs(used: seq<bool>, count: nat, from: nat)
    requires from <= |used| && 1 <= count
    ensures from <= FirstRun(used, count, from) <= |used|
    ensures var p := FirstRun(used, count, from);
            && (p < |used| ==> p + count <= |used| && AllFree(used, p, count))
            && forall q :: from <= q < p && q + count <= |used| ==> !AllFree(used, q, count)
    decreases |used| - from
  {
    if from + count <= |used| && !AllFree(used, from, count) {
      FirstRunIs(used, count, from + 1);
    }
  }

  /** Used pages at the start can be skipped: the hint changes no search. */
  lemma {:induction false} SkipUsed(used: seq<bool>, from: nat, hint: nat)
    requires from <= hint <= |used| && forall i :: from <= i < hint ==> used[i]
    ensures FirstFree(used, from) == FirstFree(used, hint)
    ensures forall count: nat :: count >= 1 ==> FirstRun(used, count, from) == FirstRun(used, count, hint)
    decreases hint - from
  {
    if from < hint {
      SkipUsed(used, from + 1, hint);
      forall count: nat | count >= 1
        ensures FirstRun(used, count, from) == FirstRun(used, count, from + 1)
      {
        if from + count <= |used| {
          assert !AllFree(used, from, count) by { assert used[from]; }
        }
      }
    }
  }

  // --------------------------------------------------------- operations

  function Mark(used: seq<bool>, start: nat, count: nat): (r: seq<bool>)
    requires start + count <= |used|
    ensures |r| == |used|
    ensures forall i :: 0 <= i < |used| ==> r[i] == (used[i] || start <= i < start + count)
  {
    seq(|used|, i requires 0 <= i < |used| => used[i] || start <= i < start + count)
  }

  function AllocPage(s: State): (State, int) {
    var p := FirstFree(s.used, 0);
    if p < |s.used| then
      var hint := if p == s.hint then s.hint + 1 else s.hint;
      (State(s.used[p := true], hint, s.free - PAGE_SIZE, s.taken + PAGE_SIZE), p * PAGE_SIZE)
    else (s, 0)
  }

  function FreePage(s: State, a: int): State {
    if a <= 0 || a % PAGE_SIZE != 0 || a / PAGE_SIZE >= |s.used| || !s.used[a / PAGE_SIZE] then s
    else
      var p := a / PAGE_SIZE;
      State(s.used[p := false], if p < s.hint then p else s.hint, s.free + PAGE_SIZE, s.taken - PAGE_SIZE)
  }

  /** A request for no pages reports the hint and takes nothing. */
  function AllocPages(s: State, count: nat): (State, int) {
    if count == 1 then AllocPage(s)
    else if count == 0 then (s, s.hint * PAGE_SIZE)
    else
      var p := FirstRun(s.used, count, 0);
      if p < |s.used| && p + count <= |s.used| then
        (State(Mark(s.used, p, count), s.hint, s.free - count * PAGE_SIZE, s.taken + count * PAGE_SIZE), p * PAGE_SIZE)
      else (s, 0)
  }

  function FreePages(s: State, a: int, count: nat): State
    decreases count
  {
    if count == 0 then s else FreePages(FreePage(s, a % TWO64), a + PAGE_SIZE, count - 1)
  }

  datatype Op = Alloc | Free(a: int) | AllocRun(count: nat) | FreeRun(base: int, len: nat)

  /** A run longer than the bitmap makes the bound of the search wrap around;
      callers must not ask for one. */
  predicate InScope(op: Op) {
    op.AllocRun? ==> op.count <= MAX_PAGES
  }

  function Step(s: State, op: Op): State {
    match op
    case Alloc => AllocPage(s).0
    case Free(a) => FreePage(s, a)
    case AllocRun(n) => AllocPages(s, n).0
    case FreeRun(a, n) => FreePages(s, a, n)
  }

  function Run(s: State, ops: seq<Op>): State {
    if ops == [] then s else Step(Run(s, ops[..|ops| - 1]), ops[|ops| - 1])
  }

  ghost function Boot(): State {
    State(seq(MAX_PAGES, _ => false), 0, FREE_AT_BOOT, TOTAL - FREE_AT_BOOT)
  }

  // ---------------------------------------------------------- invariant

  function CountFree(used: seq<bool>): nat {
    if used == [] then 0 else CountFree(used[..|used| - 1]) + if used[|used| - 1] then 0 else 1
  }

  /** Pages below the hint are used, and the byte counters follow the bitmap. */
  ghost predicate Inv(s: State) {
    && |s.used| == MAX_PAGES && s.hint <= MAX_PAGES
    && (forall i :: 0 <= i < s.hint ==> s.used[i])
    && s.free == FREE_AT_BOOT - MAX_PAGES * PAGE_SIZE + PAGE_SIZE * CountFree(s.used)
    && s.free + s.taken == TOTAL
  }

  lemma {:induction false} CountSet(used: seq<bool>, p: nat)
    requires p < |used| && !used[p]
    ensures CountFree(used[p := true]) == CountFree(used) - 1
  {
    var n := |used| - 1;
    if p < n {
      CountSet(used[..n], p);
      assert used[p := true][..n] == used[..n][p := true];
    } else {
      assert used[p := true][..n] == used[..n];
    }
  }

  lemma {:induction false} CountClear(used: seq<bool>, p: nat)
    requires p < |used| && used[p]
    ensures CountFree(used[p := false]) == CountFree(used) + 1
  {
    CountSet(used[p := false], p);
    assert used[p := false][p := true] == used;
  }

  lemma {:induction false} CountMark(used: seq<bool>, start: nat, count: nat)
    requires start + count <= |used| && AllFree(used, start, count)
    ensures CountFree(Mark(used, start, count)) == CountFree(used) - count
    decreases count
  {
    if count == 0 {
      assert Mark(used, start, count) == used;
    } else {
      var last := start + count - 1;
      CountMark(used, start, count - 1);
      CountSet(Mark(used, start, count - 1), last);
      assert Mark(used, start, count) == Mark(used, start, count - 1)[last := true];
    }
  }

  lemma {:induction false} CountBound(used: seq<bool>)
    ensures CountFree(used) <= |used|
    ensures (forall i :: 0 <= i < |used| ==> !used[i]) ==> CountFree(used) == |used|
  {
    if used != [] {
      CountBound(used[..|used| - 1]);
    }
  }

  lemma AllocKeeps(s: State)
    requires Inv(s)
    ensures Inv(AllocPage(s).0)
  {
    FirstFreeIs(s.used, 0);
    var p := FirstFree(s.used, 0);
    if p < |s.used| {
      CountSet(s.used, p);
    }
  }

  lemma FreeKeeps(s: State, a: int)
    requires Inv(s)
    ensures Inv(FreePage(s, a))
  {
    if a > 0 && a % PAGE_SIZE == 0 && a / PAGE_SIZE < |s.used| && s.used[a / PAGE_SIZE] {
      CountClear(s.used, a / PAGE_SIZE);
    }
  }

  lemma AllocPagesKeeps(s: State, count: nat)
    requires Inv(s)
    ensures Inv(AllocPages(s, count).0)
  {
    AllocKeeps(s);
    if count > 1 {
      FirstRunIs(s.used, count, 0);
      var p := FirstRun(s.used, count, 0);
      if p < |s.used| {
        CountMark(s.used, p, count);
      }
    }
  }

  lemma {:induction false} FreePagesKeeps(s: State, a: int, count: nat)
    requires Inv(s)
    ensures Inv(FreePages(s, a, count))
    decreases count
  {
    if count > 0 {
      FreeKeeps(s, a % TWO64);
      FreePagesKeeps(FreePage(s, a % TWO64), a + PAGE_SIZE, count - 1);
    }
  }

  /** Conservation in every run: pages below the hint stay used, the two
      counters add up to the total, and neither leaves the 64-bit range. */
  lemma {:induction false} RunSafe(ops: seq<Op>)
    requires forall i :: 0 <= i < |ops| ==> InScope(ops[i])
    ensures Inv(Run(Boot(), ops))
    ensures var s := Run(Boot(), ops); 0 < s.free < TOTAL && 0 < s.taken < TOTAL
    decreases |ops|
  {
    var s := Run(Boot(), ops);
    if ops == [] {
      CountBound(Boot().used);
    } else {
      var s0 := Run(Boot(), ops[..|ops| - 1]);
      RunSafe(ops[..|ops| - 1]);
      match ops[|ops| - 1]
      case Alloc => AllocKeeps(s0);
      case Free(a) => FreeKeeps(s0, a);
      case AllocRun(n) => AllocPagesKeeps(s0, n);
      case FreeRun(a, n) => FreePagesKeeps(s0, a, n);
    }
    CountBound(s.used);
  }

  // ------------------------------------------------ what each operation does

  /** Freeing a used page other than page 0 clears exactly its flag, gives 4096
      bytes back and lowers the hint to it; any other address is ignored. */
  lemma FreeExact(s: State, a: int)
    requires Inv(s)
    ensures var s' := FreePage(s, a);
            if a > 0 && a % 4096 == 0 && a / 4096 < 8192 && s.used[a / 4096] then
              && |s'.used| == 8192 && (forall i :: 0 <= i < 8192 ==> s'.used[i] == (s.used[i] && i != a / 4096))
              && s'.free == s.free + 4096 && s'.taken == s.taken - 4096
              && s'.hint == if a / 4096 < s.hint then a / 4096 else s.hint
            else s' == s
  {
    hide CountFree;
  }

  /** The page is free again: the next allocation finds it, or a lower one. */
  lemma FreedAgain(s: State, a: int)
    requires Inv(s) && a > 0 && a % 4096 == 0 && a / 4096 < 8192 && s.used[a / 4096]
    ensures var b := AllocPage(FreePage(s, a)).1;
            0 <= b <= a && b % 4096 == 0 && (b == a || !s.used[b / 4096])
    ensures (forall i :: 0 <= i < a / 4096 ==> s.used[i]) ==> AllocPage(FreePage(s, a)).1 == a
  {
    hide CountFree;
    FreeExact(s, a);
    var used := FreePage(s, a).used;
    FirstFreeIs(used, 0);
    assert !used[a / 4096];
    assert FirstFree(used, 0) <= a / 4096;
    if forall i :: 0 <= i < a / 4096 ==> s.used[i] {
      assert FirstFree(used, 0) == a / 4096;
    }
  }

  /** An allocation takes exactly the lowest free page and 4096 bytes, and moves
      the hint past it if it was the hint; with no page free nothing changes. */
  lemma AllocExact(s: State)
    requires Inv(s)
    ensures var (s', a) := AllocPage(s);
            if forall i :: 0 <= i < 8192 ==> s.used[i] then s' == s && a == 0
            else
              var p := a / 4096;
              && a % 4096 == 0 && 0 <= p < 8192 && !s.used[p] && (forall i :: 0 <= i < p ==> s.used[i])
              && |s'.used| == 8192 && (forall i :: 0 <= i < 8192 ==> s'.used[i] == (s.used[i] || i == p))
              && s'.free == s.free - 4096 && s'.taken == s.taken + 4096
              && s'.hint == if p == s.hint then p + 1 else s.hint
  {
    hide CountFree;
    FirstFreeIs(s.used, 0);
  }

  /** An allocation of two pages or more takes exactly the lowest free run, and
      leaves the hint; without such a run nothing changes.  A request for none
      takes none and reports the hint. */
  lemma AllocPagesExact(s: State, count: nat)
    requires Inv(s)
    ensures AllocPages(s, 0) == (s, s.hint * 4096)
    ensures count >= 2 ==>
              var (s', a) := AllocPages(s, count);
              if forall p: nat :: p + count <= 8192 ==> !AllFree(s.used, p, count) then s' == s && a == 0
              else
                var p := a / 4096;
                && a % 4096 == 0 && 0 <= p && p + count <= 8192 && AllFree(s.used, p, count)
                && (forall q: nat :: q < p ==> !AllFree(s.used, q, count))
                && |s'.used| == 8192
                && (forall i :: 0 <= i < 8192 ==> s'.used[i] == (s.used[i] || p <= i < p + count))
                && s'.free == s.free - count * 4096 && s'.taken == s.taken + count * 4096 && s'.hint == s.hint
  {
    hide CountFree;
    if count >= 2 {
      FirstRunIs(s.used, count, 0);
    }
  }

  /** Address `i * 4096` is among `count` page addresses from `a` on, in 64-bit
      arithmetic. */
  ghost predicate Hit(a: int, count: nat, i: int) {
    exists j: nat :: j < count && Address(a, j) == i * 4096
  }

  function Address(a: int, j: nat): int {
    (a + j * 4096) % 0x1_0000_0000_0000_0000
  }

  lemma HitFirst(a: int, count: nat, i: int)
    requires count > 0
    ensures Hit(a, count, i) <==> Address(a, 0) == i * 4096 || Hit(a + 4096, count - 1, i)
  {
    if j: nat :| j < count && Address(a, j) == i * 4096 {
      if j > 0 {
        assert Address(a + 4096, j - 1) == Address(a, j);
      }
    }
    var next := a + 4096;
    if j: nat :| j < count - 1 && Address(next, j) == i * 4096 {
      assert Address(a, j + 1) == Address(next, j);
    }
  }

  /** Freeing a run clears exactly the flags of its pages other than page 0. */
  lemma {:induction false} FreePagesExact(s: State, a: int, count: nat)
    requires Inv(s)
    ensures var s' := FreePages(s, a, count);
            && |s'.used| == 8192
            && forall i :: 0 <= i < 8192 ==> s'.used[i] == (s.used[i] && !(i > 0 && Hit(a, count, i)))
    decreases count
  {
    hide Inv;
    InvLength(s);
    if count > 0 {
      var s1 := FreePage(s, a % TWO64);
      FreeKeeps(s, a % TWO64);
      FreeExact(s, a % TWO64);
      FreePagesExact(s1, a + PAGE_SIZE, count - 1);
      forall i | 0 <= i < 8192
        ensures FreePages(s, a, count).used[i] == (s.used[i] && !(i > 0 && Hit(a, count, i)))
      {
        HitFirst(a, count, i);
        assert s1.used[i] == (s.used[i] && !(i > 0 && Address(a, 0) == i * 4096));
      }
    }
  }

  lemma InvLength(s: State)
    requires Inv(s)
    ensures |s.used| == 8192
  {
  }

  /** The first `k` single allocations after boot. */
  ghost function Booted(k: nat): State {
    if k == 0 then Boot() else AllocPage(Booted(k - 1)).0
  }

  /** They take pages 0 to `k` - 1 in order, until all 8192 are gone. */
  lemma {:induction false} BootSequence(k: nat)
    requires k <= 8192
    ensures var s := Booted(k);
            && |s.used| == 8192 && (forall i :: 0 <= i < 8192 ==> s.used[i] == (i < k))
            && s.hint == k && s.free == 0x1000_0000 - 4096 * k && s.taken == 0x1000_0000 + 4096 * k
            && AllocPage(s).1 == if k < 8192 then 4096 * k else 0
  {
    if k > 0 {
      BootSequence(k - 1);
      LowestOf(Booted(k - 1).used, k - 1);
    }
    LowestOf(Booted(k).used, k);
  }

  lemma LowestOf(used: seq<bool>, k: nat)
    requires k <= |used| && forall i :: 0 <= i < |used| ==> used[i] == (i < k)
    ensures FirstFree(used, 0) == k
  {
    FirstFreeIs(used, 0);
    if k < |used| {
      assert !used[k];
    }
  }

  // --------------------------------------------------------- exact undo

  /** Freeing what was just allocated restores bitmap, hint and counters. */
  lemma AllocUndone(s: State)
    requires Inv(s) && AllocPage(s).1 != 0
    ensures FreePage(AllocPage(s).0, AllocPage(s).1) == s
  {
    FirstFreeIs(s.used, 0);
    var p := FirstFree(s.used, 0);
    assert s.used[p := true][p := false] == s.used;
  }

  /** Freeing the first page of a marked run of pages above the hint. */
  lemma FreeFirst(s: State, used: seq<bool>, start: nat, count: nat)
    requires 0 < start && 1 <= count && start + count <= |used| && AllFree(used, start, count)
    requires s.used == Mark(used, start, count) && s.hint <= start
    ensures FreePage(s, start * PAGE_SIZE) ==
            State(Mark(used, start + 1, count - 1), s.hint, s.free + PAGE_SIZE, s.taken - PAGE_SIZE)
  {
    hide Mark;
    var a := start * PAGE_SIZE;
    assert a / PAGE_SIZE == start && a % PAGE_SIZE == 0;
    assert s.used[start];
    assert s.used[start := false] == Mark(used, start + 1, count - 1);
  }

  /** Freeing a marked run leaves the pages as they were before. */
  lemma {:induction false} FreeMarked(s: State, used: seq<bool>, start: nat, count: nat)
    requires start + count <= |used| && |used| * PAGE_SIZE < TWO64 && AllFree(used, start, count)
    requires s.used == Mark(used, start, count) && s.hint <= start && start > 0
    ensures FreePages(s, start * PAGE_SIZE, count) ==
            State(used, s.hint, s.free + count * PAGE_SIZE, s.taken - count * PAGE_SIZE)
    decreases count
  {
    hide Mark, FreePage;
    if count == 0 {
      assert Mark(used, start, count) == used;
    } else {
      FreeFirst(s, used, start, count);
      var s' := FreePage(s, start * PAGE_SIZE);
      FreeMarked(s', used, start + 1, count - 1);
      assert (start + 1) * PAGE_SIZE == start * PAGE_SIZE + PAGE_SIZE;
    }
  }

  lemma AllocPagesUndone(s: State, count: nat)
    requires Inv(s) && count >= 1 && AllocPages(s, count).1 != 0
    ensures FreePages(AllocPages(s, count).0, AllocPages(s, count).1, count) == s
  {
    var (s', a) := AllocPages(s, count);
    if count == 1 {
      AllocUndone(s);
      FirstFreeIs(s.used, 0);
      assert a % TWO64 == a;
      assert FreePages(s', a, 1) == FreePages(FreePage(s', a), a + PAGE_SIZE, 0);
    } else {
      FirstRunIs(s.used, count, 0);
      SkipUsed(s.used, 0, s.hint);
      FirstRunIs(s.used, count, s.hint);
      FreeMarked(s', s.used, FirstRun(s.used, count, 0), count);
    }
  }

  // ------------------------------------------------- what a 0 means

  lemma {:induction false} FreePagesKeep0(s: State, a: int, count: nat)
    requires |s.used| > 0 && s.used[0]
    ensures |FreePages(s, a, count).used| == |s.used| && FreePages(s, a, count).used[0]
    decreases count
  {
    if count > 0 {
      FreePagesKeep0(FreePage(s, a % TWO64), a + PAGE_SIZE, count - 1);
    }
  }

  /** No operation ever frees page 0. */
  lemma Page0Stays(s: State, op: Op)
    requires |s.used| > 0 && s.used[0]
    ensures |Step(s, op).used| == |s.used| && Step(s, op).used[0]
  {
    match op
    case Alloc =>
    case Free(a) =>
    case AllocRun(n) =>
    case FreeRun(a, n) => FreePagesKeep0(s, a, n);
  }

  predicate Allocates(op: Op) {
    op.Alloc? || (op.AllocRun? && 1 <= op.count <= MAX_PAGES)
  }

  lemma {:induction false} BootFrees(a: int, count: nat)
    ensures FreePages(Boot(), a, count) == Boot()
    decreases count
  {
    if count > 0 {
      BootFrees(a + PAGE_SIZE, count - 1);
    }
  }

  lemma BootStep(op: Op)
    requires InScope(op)
    ensures var s := Step(Boot(), op);
            if Allocates(op) then |s.used| == MAX_PAGES && s.used[0] else s == Boot()
  {
    match op
    case Alloc =>
    case Free(a) =>
    case AllocRun(n) =>
      if n > 1 {
        assert AllFree(Boot().used, 0, n);
      }
    case FreeRun(a, n) => BootFrees(a, n);
  }

  predicate Allocated(ops: seq<Op>) {
    exists i :: 0 <= i < |ops| && Allocates(ops[i])
  }

  ghost predicate RunLeft(s: State, count: nat) {
    exists p: nat :: p + count <= |s.used| && AllFree(s.used, p, count)
  }

  /** With all pages free, an allocation takes page 0 and reports address 0. */
  lemma BootReports0(count: nat)
    requires 1 <= count <= MAX_PAGES
    ensures AllocPages(Boot(), count).1 == 0 && AllocPage(Boot()).1 == 0
    ensures AllocPages(Boot(), count).0.used == Mark(Boot().used, 0, count) && RunLeft(Boot(), count)
  {
    assert AllFree(Boot().used, 0, count);
    FirstFreeIs(Boot().used, 0);
    FirstRunIs(Boot().used, count, 0);
  }

  /** In every run page 0 is taken by the first allocation; before it the state
      is that at boot. */
  lemma {:induction false} FirstTakes0(ops: seq<Op>)
    requires forall i :: 0 <= i < |ops| ==> InScope(ops[i])
    ensures var s := Run(Boot(), ops);
            if Allocated(ops) then |s.used| == MAX_PAGES && s.used[0] else s == Boot()
    decreases |ops|
  {
    if ops != [] {
      var n := |ops| - 1;
      var s0 := Run(Boot(), ops[..n]);
      FirstTakes0(ops[..n]);
      if Allocated(ops[..n]) {
        Page0Stays(s0, ops[n]);
        var i :| 0 <= i < n && Allocates(ops[..n][i]);
        assert Allocates(ops[i]);
      } else {
        assert forall i :: 0 <= i < n ==> ops[i] == ops[..n][i];
        BootStep(ops[n]);
        assert Allocated(ops) <==> Allocates(ops[n]);
      }
    }
  }

  /** With page 0 used, 0 means that no such run of pages exists. */
  lemma ZeroWith0Used(s: State, count: nat)
    requires |s.used| > 0 && s.used[0] && 1 <= count
    ensures AllocPages(s, count).1 == 0 <==> !RunLeft(s, count)
  {
    if count == 1 {
      FirstFreeIs(s.used, 0);
      var p := FirstFree(s.used, 0);
      if p < |s.used| {
        assert AllFree(s.used, p, 1);
      } else {
        forall q: nat | q + count <= |s.used|
          ensures !AllFree(s.used, q, count)
        {
          assert s.used[q];
        }
      }
    } else {
      FirstRunIs(s.used, count, 0);
      var p := FirstRun(s.used, count, 0);
      if p < |s.used| {
        assert AllFree(s.used, p, count) && p != 0;
      }
    }
  }

  /** Over every run: a 0 result means that no such run of pages exists if and
      only if some allocation was made before. */
  lemma ZeroMeansNone(ops: seq<Op>, count: nat)
    requires forall i :: 0 <= i < |ops| ==> InScope(ops[i])
    requires 1 <= count <= MAX_PAGES
    ensures var s := Run(Boot(), ops);
            (AllocPages(s, count).1 == 0 <==> !RunLeft(s, count)) <==> Allocated(ops)
  {
    FirstTakes0(ops);
    if Allocated(ops) {
      ZeroWith0Used(Run(Boot(), ops), count);
    } else {
      BootReports0(count);
    }
  }

  // ------------------------------------------------------ bits in bytes

  function Mask(k: nat): bv8
    requires k < 8
  {
    1 << k
  }

  predicate Has(b: bv8, m: bv8) {
    b & m != 0
  }

  lemma MaskIs(k: nat)
    requires k < 8
    ensures Mask(k) == if k == 0 then 1 else if k == 1 then 2 else if k == 2 then 4 else if k == 3 then 8
                       else if k == 4 then 16 else if k == 5 then 32 else if k == 6 then 64 else 128
  {
  }

  lemma MasksApart(k: nat, j: nat)
    requires k < 8 && j < 8
    ensures Mask(k) != 0 && (k != j ==> Mask(k) & Mask(j) == 0)
  {
    hide Mask;
    MaskIs(k);
    MaskIs(j);
  }

  lemma SameMask(b: bv8, x: bv8)
    requires x != 0
    ensures Has(b | x, x) && !Has(b & !x, x)
  {
  }

  lemma OtherMask(b: bv8, x: bv8, y: bv8)
    requires x & y == 0
    ensures Has(b | x, y) == Has(b, y) && Has(b & !x, y) == Has(b, y)
  {
    assert (b | x) & y == b & y;
    assert (b & !x) & y == b & y;
  }

  /** Setting or clearing one bit of a byte leaves the others alone. */
  lemma OneBit(b: bv8, k: nat, j: nat)
    requires k < 8 && j < 8
    ensures Has(b | Mask(k), Mask(j)) == (j == k || Has(b, Mask(j)))
    ensures Has(b & !Mask(k), Mask(j)) == (j != k && Has(b, Mask(j)))
  {
    hide Mask, Has;
    MasksApart(k, j);
    if j == k {
      SameMask(b, Mask(k));
    } else {
      OtherMask(b, Mask(k), Mask(j));
    }
  }

  /** The used flags that a bitmap stands for. */
  ghost function Flags(bytes: seq<bv8>, pages: nat): (flags: seq<bool>)
    requires pages <= 8 * |bytes|
    ensures |flags| == pages
  {
    seq(pages, i requires 0 <= i < pages => Has(bytes[i / 8], Mask(i % 8)))
  }

  /** A byte with one bit of page `p` set or cleared changes that flag only. */
  lemma FlagChange(bytes: seq<bv8>, pages: nat, p: nat, byte: bv8, flag: bool)
    requires p < pages <= 8 * |bytes|
    requires forall j: nat :: j < 8 ==> Has(byte, Mask(j)) == if j == p % 8 then flag else Has(bytes[p / 8], Mask(j))
    ensures Flags(bytes[p / 8 := byte], pages) == Flags(bytes, pages)[p := flag]
  {
    hide Mask, Has;
    var old', new' := Flags(bytes, pages), Flags(bytes[p / 8 := byte], pages);
    forall i | 0 <= i < pages
      ensures new'[i] == if i == p then flag else old'[i]
    {
      if i / 8 == p / 8 {
        assert (i % 8 == p % 8) == (i == p);
      }
    }
  }

  lemma FlagSet(bytes: seq<bv8>, pages: nat, p: nat)
    requires p < pages <= 8 * |bytes|
    ensures Flags(bytes[p / 8 := bytes[p / 8] | Mask(p % 8)], pages) == Flags(bytes, pages)[p := true]
    ensures Flags(bytes[p / 8 := bytes[p / 8] & !Mask(p % 8)], pages) == Flags(bytes, pages)[p := false]
  {
    hide Mask, Has, Flags;
    var b, k := bytes[p / 8], p % 8;
    forall j: nat | j < 8
      ensures Has(b | Mask(k), Mask(j)) == (j == k || Has(b, Mask(j)))
      ensures Has(b & !Mask(k), Mask(j)) == (j != k && Has(b, Mask(j)))
    {
      OneBit(b, k, j);
    }
    FlagChange(bytes, pages, p, b | Mask(k), true);
    FlagChange(bytes, pages, p, b & !Mask(k), false);
  }

  class Bitmap {
    const bits: array<bv8>
    var bitmapPages: nat
    var firstFree: nat
    var freeMemory: int
    var usedMemory: int

    ghost predicate Shaped()
      reads this, bits
    {
      bits.Length == MAX_PAGES / 8 && bitmapPages == MAX_PAGES
    }

    ghost function Value(): State
      requires Shaped()
      reads this, bits
    {
      State(Flags(bits[..], bitmapPages), firstFree, freeMemory, usedMemory)
    }

    ghost predicate Valid()
      reads this, bits
    {
      Shaped() && Inv(Value())
    }

    /** `pmm_init` on a zeroed bitmap. */
    constructor ()
      ensures Valid() && fresh(bits) && Value() == Boot()
    {
      bits := new bv8[MAX_PAGES / 8](_ => 0);
      bitmapPages, firstFree := MAX_PAGES, 0;
      freeMemory, usedMemory := FREE_AT_BOOT, TOTAL - FREE_AT_BOOT;
      new;
      assert Value().used == Boot().used;
      RunSafe([]);
    }

    method SetUsed(p: nat)
      requires Shaped() && p < bitmapPages
      modifies bits
      ensures Value() == old(Value()).(used := old(Value()).used[p := true])
    {
      hide Mask, Has, Flags;
      FlagSet(bits[..], bitmapPages, p);
      ghost var bytes := bits[..];
      bits[p / 8] := bits[p / 8] | Mask(p % 8);
      assert bits[..] == bytes[p / 8 := bytes[p / 8] | Mask(p % 8)];
    }

    method SetFree(p: nat)
      requires Shaped() && p < bitmapPages
      modifies bits
      ensures Value() == old(Value()).(used := old(Value()).used[p := false])
    {
      FlagSet(bits[..], bitmapPages, p);
      ghost var bytes := bits[..];
      bits[p / 8] := bits[p / 8] & !Mask(p % 8);
      assert bits[..] == bytes[p / 8 := bytes[p / 8] & !Mask(p % 8)];
    }

    method IsFree(p: nat) returns (free: bool)
      requires Shaped() && p < bitmapPages
      ensures free == !Value().used[p]
    {
      free := !Has(bits[p / 8], Mask(p % 8));
    }

    /** The search from the hint finds what a scan from page 0 finds. */
    method AllocPageHinted() returns (a: int)
      requires Valid()
      modifies this, bits
      ensures Valid() && (Value(), a) == AllocPage(old(Value()))
    {
      hide Mask, Has, Flags;
      ghost var s := Value();
      SkipUsed(s.used, 0, s.hint);
      AllocKeeps(s);
      var page := firstFree;
      while page < bitmapPages
        invariant firstFree <= page <= bitmapPages && Shaped() && Value() == s
        invariant FirstFree(s.used, page) == FirstFree(s.used, 0)
      {
        var free := IsFree(page);
        if free {
          SetUsed(page);
          freeMemory := freeMemory - PAGE_SIZE;
          usedMemory := usedMemory + PAGE_SIZE;
          if page == firstFree {
            firstFree := firstFree + 1;
          }
          return page * PAGE_SIZE;
        }
        page := page + 1;
      }
      return 0;
    }

    method FreePageAt(a: int)
      requires Valid() && 0 <= a
      modifies this, bits
      ensures Valid() && Value() == FreePage(old(Value()), a)
    {
      hide Mask, Has, Flags;
      FreeKeeps(Value(), a);
      if a == 0 || a % PAGE_SIZE != 0 {
        return;
      }
      var page := a / PAGE_SIZE;
      if page >= bitmapPages {
        return;
      }
      var free := IsFree(page);
      if free {
        return;
      }
      SetFree(page);
      freeMemory := freeMemory + PAGE_SIZE;
      usedMemory := usedMemory - PAGE_SIZE;
      if page < firstFree {
        firstFree := page;
      }
    }

    /** The inner loop of `pmm_alloc_pages`. */
    method RegionFree(start: nat, count: nat) returns (found: bool)
      requires Shaped() && start + count <= bitmapPages
      ensures found == AllFree(Value().used, start, count)
    {
      hide Mask, Has, Flags;
      for i := 0 to count
        invariant AllFree(Value().used, start, i)
      {
        var free := IsFree(start + i);
        if !free {
          return false;
        }
      }
      return true;
    }

    method MarkRegion(start: nat, count: nat)
      requires Shaped() && start + count <= bitmapPages
      modifies bits
      ensures Value() == old(Value()).(used := Mark(old(Value()).used, start, count))
    {
      hide Mask, Has, Flags;
      ghost var s := Value();
      assert Mark(s.used, start, 0) == s.used;
      for i := 0 to count
        invariant Shaped() && Value() == s.(used := Mark(s.used, start, i))
      {
        SetUsed(start + i);
        assert Mark(s.used, start, i)[start + i := true] == Mark(s.used, start, i + 1);
      }
    }

    method AllocPagesHinted(count: nat) returns (a: int)
      requires Valid() && count <= bitmapPages
      modifies this, bits
      ensures Valid() && (Value(), a) == AllocPages(old(Value()), count)
    {
      hide Mask, Has, Flags, CountFree, Mark;
      if count == 1 {
        a := AllocPageHinted();
        return;
      }
      ghost var s := Value();
      SkipUsed(s.used, 0, s.hint);
      AllocPagesKeeps(s, count);
      var start := firstFree;
      while start <= bitmapPages - count
        invariant firstFree <= start && Shaped() && Value() == s
        invariant start <= bitmapPages
        invariant count == 0 ==> start == firstFree
        invariant count > 1 ==> FirstRun(s.used, count, start) == FirstRun(s.used, count, 0)
      {
        var found := RegionFree(start, count);
        if found {
          MarkRegion(start, count);
          assert count == 0 ==> Mark(s.used, start, count) == s.used;
          freeMemory := freeMemory - count * PAGE_SIZE;
          usedMemory := usedMemory + count * PAGE_SIZE;
          return start * PAGE_SIZE;
        }
        start := start + 1;
      }
      return 0;
    }

    method FreePagesAt(a: int, count: nat)
      requires Valid() && 0 <= a < TWO64
      modifies this, bits
      ensures Valid() && Value() == FreePages(old(Value()), a, count)
    {
      hide Mask, Has, Flags;
      ghost var s := Value();
      for i := 0 to count
        invariant Valid() && FreePages(Value(), a + i * PAGE_SIZE, count - i) == FreePages(s, a, count)
      {
        FreePageAt((a + i * PAGE_SIZE) % TWO64);
        assert a + i * PAGE_SIZE + PAGE_SIZE == a + (i + 1) * PAGE_SIZE;
      }
    }
  }
}
