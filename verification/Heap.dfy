/** The kernel's bump heap, `kmalloc` of os/kernel/mm/vmm.c. */
module Heap {
  import opened Types

  const START := 0xffff_ffff_8100_0000
  const LIMIT := START + 0x10_0000      // 1 MB window

  /** Requests up to this size cannot wrap, whatever was allocated before. */
  const MAX_SAFE := 0x7EF0_0000

  datatype Block = Block(base: int, size: int)

  /** `ALIGN_UP(size, 8)` in 64-bit arithmetic. */
  function AlignUp(size: int): int {
    (size + 7) % TWO64 / 8 * 8
  }

  /** The heap pointer is 0 until the first request sets it. */
  function Top(ptr: int): int {
    if ptr == 0 then START else ptr
  }

  /** The new heap pointer and the block's address, 0 for none. */
  function Kmalloc(ptr: int, size: int): (int, int) {
    if size == 0 then (ptr, 0)
    else if (Top(ptr) + AlignUp(size)) % TWO64 >= LIMIT then (Top(ptr), 0)
    else ((Top(ptr) + AlignUp(size)) % TWO64, Top(ptr))
  }

  predicate Inv(ptr: int) {
    START <= Top(ptr) < LIMIT && Top(ptr) % 8 == 0
  }

  predicate InWindow(b: Block) {
    START <= b.base && b.base + b.size <= LIMIT && b.base % 8 == 0
  }

  /** A block is handed out inside the window exactly when pointer plus size
      stays below 2^64. */
  lemma KmallocSound(ptr: int, size: int)
    requires Inv(ptr) && 0 < size < TWO64
    ensures var a := Kmalloc(ptr, size).1;
            (a == 0 || InWindow(Block(a, size))) <==> Top(ptr) + (size + 7) / 8 * 8 < TWO64
  {
  }

  /** Exactly what a request does: the size is rounded up to 8 bytes; the block is
      there if it ends before the 1 MB limit, and the pointer moves past it.  A
      sum of 2^64 or more wraps around and passes. */
  lemma KmallocExact(ptr: int, size: int)
    requires Inv(ptr) && 0 < size < TWO64
    ensures Kmalloc(ptr, 0) == (ptr, 0)
    ensures var top := if ptr == 0 then 0xffff_ffff_8100_0000 else ptr;
            var sum := top + (size + 7) / 8 * 8;
            Kmalloc(ptr, size) ==
            if sum < 0xffff_ffff_8110_0000 then (sum, top)
            else if sum < 0x1_0000_0000_0000_0000 then (top, 0)
            else (sum - 0x1_0000_0000_0000_0000, top)
  {
    Rounded(size);
    var sum := Top(ptr) + (size + 7) / 8 * 8;
    if sum >= TWO64 {
      assert (sum - TWO64) % TWO64 == sum - TWO64;
    }
  }

  lemma Rounded(size: int)
    requires 0 < size < TWO64
    ensures AlignUp(size) == if size + 7 < TWO64 then (size + 7) / 8 * 8 else 0
    ensures size + 7 >= TWO64 ==> (size + 7) / 8 * 8 == TWO64
  {
  }

  lemma SafeSizes(ptr: int, size: int)
    requires Inv(ptr) && 0 <= size <= MAX_SAFE
    ensures Inv(Kmalloc(ptr, size).0) && Top(ptr) <= Top(Kmalloc(ptr, size).0)
    ensures Kmalloc(ptr, size).1 != 0 ==>
              InWindow(Block(Kmalloc(ptr, size).1, size)) && Kmalloc(ptr, size).1 == Top(ptr)
              && Top(ptr) + size <= Top(Kmalloc(ptr, size).0)
  {
    hide AlignUp;
    Aligned(size);
    var sum := Top(ptr) + AlignUp(size);
    assert sum % TWO64 == sum;
  }

  lemma Aligned(size: int)
    requires 0 <= size <= MAX_SAFE
    ensures size <= AlignUp(size) < size + 8 && AlignUp(size) % 8 == 0
  {
    assert (size + 7) % TWO64 == size + 7;
  }

  /** One request too large wraps the pointer to 0, and the next block overlaps
      the one just handed out. */
  lemma WrapOverlaps()
    ensures var (p, a) := Kmalloc(0, 0x7F00_0000);
            a == START && Kmalloc(p, 8).1 == START
  {
  }

  /** The blocks handed out by a sequence of requests. */
  function Blocks(ptr: int, sizes: seq<int>): seq<Block>
    decreases |sizes|
  {
    if sizes == [] then []
    else
      var (p, a) := Kmalloc(ptr, sizes[0]);
      (if a == 0 then [] else [Block(a, sizes[0])]) + Blocks(p, sizes[1..])
  }

  /** Blocks in the window at or above `low`, each ending before the next begins. */
  ghost predicate Apart(low: int, bs: seq<Block>) {
    && (forall i :: 0 <= i < |bs| ==> InWindow(bs[i]) && low <= bs[i].base)
    && (forall i, j :: 0 <= i < j < |bs| ==> bs[i].base + bs[i].size <= bs[j].base)
  }

  lemma ApartBefore(low: int, b: Block, high: int, bs: seq<Block>)
    requires InWindow(b) && low <= b.base && 0 <= b.size && Apart(high, bs) && b.base + b.size <= high
    ensures Apart(low, [b] + bs)
  {
  }

  lemma NothingApart(low: int)
    ensures Apart(low, [])
  {
  }

  lemma ApartLower(low: int, high: int, bs: seq<Block>)
    requires Apart(high, bs) && low <= high
    ensures Apart(low, bs)
  {
  }

  /** Over any sequence of requests of safe size, all blocks lie in the window,
      are 8-aligned, and do not overlap. */
  lemma {:induction false} BlocksApart(ptr: int, sizes: seq<int>)
    requires Inv(ptr) && forall i :: 0 <= i < |sizes| ==> 0 <= sizes[i] <= MAX_SAFE
    ensures Apart(Top(ptr), Blocks(ptr, sizes))
    decreases |sizes|
  {
    hide Kmalloc, AlignUp, Inv, InWindow, Top, Apart;
    NothingApart(Top(ptr));
    if sizes != [] {
      SafeSizes(ptr, sizes[0]);
      var (p, a) := Kmalloc(ptr, sizes[0]);
      var rest := Blocks(p, sizes[1..]);
      BlocksApart(p, sizes[1..]);
      if a != 0 {
        ApartBefore(Top(ptr), Block(a, sizes[0]), Top(p), rest);
      } else {
        assert [] + rest == rest;
        ApartLower(Top(ptr), Top(p), rest);
      }
    }
  }

  // ------------------------------------------------ how far the heap goes

  /** Bytes a sequence of requests uses, each rounded up to 8. */
  function Total(sizes: seq<int>): int {
    if sizes == [] then 0 else Total(sizes[..|sizes| - 1]) + (sizes[|sizes| - 1] + 7) / 8 * 8
  }

  lemma {:induction false} TotalFirst(sizes: seq<int>)
    requires sizes != []
    ensures Total(sizes) == (sizes[0] + 7) / 8 * 8 + Total(sizes[1..])
  {
    if |sizes| > 1 {
      TotalFirst(sizes[..|sizes| - 1]);
      assert sizes[..|sizes| - 1][1..] == sizes[1..][..|sizes| - 2];
    }
  }

  lemma {:induction false} TotalPart(sizes: seq<int>, k: nat)
    requires k <= |sizes| && forall i :: 0 <= i < |sizes| ==> 0 < sizes[i]
    ensures 0 <= Total(sizes[..k]) <= Total(sizes)
    decreases |sizes|
  {
    if k < |sizes| {
      var front := sizes[..|sizes| - 1];
      TotalPart(front, k);
      assert front[..k] == sizes[..k];
    } else if k > 0 {
      TotalPart(sizes[..k - 1], k - 1);
      assert sizes[..k] == sizes && sizes[..k - 1][..k - 1] == sizes[..k - 1];
    } else {
      assert sizes[..k] == [];
    }
  }

  lemma FitFirst(ptr: int, size: int)
    requires Inv(ptr) && 0 < size <= MAX_SAFE && Top(ptr) + (size + 7) / 8 * 8 < 0xffff_ffff_8110_0000
    ensures var p := Kmalloc(ptr, size).0; Inv(p) && Top(p) == Top(ptr) + (size + 7) / 8 * 8
    ensures Kmalloc(ptr, size).1 == Top(ptr) != 0
  {
    hide Kmalloc;
    KmallocExact(ptr, size);
    SafeSizes(ptr, size);
  }

  /** Requests that together stay below 1 MB are all met, one after the other
      without gaps. */
  lemma {:induction false} AllFit(ptr: int, sizes: seq<int>)
    requires Inv(ptr) && (forall i :: 0 <= i < |sizes| ==> 0 < sizes[i] <= MAX_SAFE)
    requires Top(ptr) + Total(sizes) < 0xffff_ffff_8110_0000
    ensures |Blocks(ptr, sizes)| == |sizes|
    ensures forall k :: 0 <= k < |sizes| ==> Blocks(ptr, sizes)[k] == Block(Top(ptr) + Total(sizes[..k]), sizes[k])
    decreases |sizes|
  {
    hide Kmalloc, Inv, Top, Total;
    if sizes != [] {
      var rest := sizes[1..];
      TotalFirst(sizes);
      TotalPart(rest, 0);
      FitFirst(ptr, sizes[0]);
      AllFit(Kmalloc(ptr, sizes[0]).0, rest);
      forall k | 0 <= k < |sizes|
        ensures Blocks(ptr, sizes)[k] == Block(Top(ptr) + Total(sizes[..k]), sizes[k])
      {
        TotalShift(sizes, k);
      }
    }
  }

  lemma TotalShift(sizes: seq<int>, k: nat)
    requires k < |sizes|
    ensures Total(sizes[..k]) == if k == 0 then 0 else (sizes[0] + 7) / 8 * 8 + Total(sizes[1..][..k - 1])
  {
    if k > 0 {
      TotalFirst(sizes[..k]);
      assert sizes[..k][1..] == sizes[1..][..k - 1];
    }
  }

  function Stacks(n: nat): seq<int> {
    seq(n, _ => 8192)
  }

  /** From a fresh heap exactly the first 127 thread stacks are met. */
  lemma StackCapacity(n: nat)
    ensures |Blocks(0, Stacks(n))| == if n < 127 then n else 127
    ensures forall k :: 0 <= k < |Blocks(0, Stacks(n))| ==>
              Blocks(0, Stacks(n))[k] == Block(0xffff_ffff_8100_0000 + k * 8192, 8192)
  {
    StacksFrom(0, 0, n);
  }

  lemma {:induction false} StacksFrom(ptr: int, j: nat, n: nat)
    requires Inv(ptr) && j <= 127 && Top(ptr) == 0xffff_ffff_8100_0000 + j * 8192
    ensures var bs := Blocks(ptr, Stacks(n));
            && |bs| == (if n < 127 - j then n else 127 - j)
            && forall k :: 0 <= k < |bs| ==> bs[k] == Block(0xffff_ffff_8100_0000 + (j + k) * 8192, 8192)
    decreases n
  {
    hide Kmalloc, AlignUp;
    if n > 0 {
      assert Stacks(n)[1..] == Stacks(n - 1);
      KmallocExact(ptr, 8192);
      SafeSizes(ptr, 8192);
      var (p, a) := Kmalloc(ptr, 8192);
      StacksFrom(p, if a == 0 then j else j + 1, n - 1);
    }
  }

  class KernelHeap {
    var ptr: int

    constructor ()
      ensures ptr == 0 && Inv(ptr)
    {
      ptr := 0;
    }

    method Alloc(size: int) returns (a: int)
      requires Inv(ptr) && 0 <= size < TWO64
      modifies this
      ensures (ptr, a) == Kmalloc(old(ptr), size)
      ensures size <= MAX_SAFE ==> Inv(ptr) && (a != 0 ==> InWindow(Block(a, size)) && a + size <= ptr)
    {
      if size <= MAX_SAFE {
        SafeSizes(ptr, size);
      }
      if size == 0 {
        return 0;
      }
      var aligned := AlignUp(size);
      if ptr == 0 {
        ptr := START;
      }
      if (ptr + aligned) % TWO64 >= LIMIT {
        return 0;
      }
      a := ptr;
      ptr := (ptr + aligned) % TWO64;
    }
  }
}
