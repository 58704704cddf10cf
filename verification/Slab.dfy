/** The kernel heap: nine caches of fixed-size objects cut from single pages, and whole buddy blocks for
    anything larger. */
module Slab {
  import Arith
  import opened Bytes
  import opened Blocks
  import opened Regions
  import opened Buddy

  const SIZES: seq<nat> := [8, 16, 32, 64, 128, 256, 512, 1024, 2048]
  const MAX_SLAB := 2048

  // Sizes and orders

  /** The first class from i on that holds `size` bytes. */
  function ClassFrom(size: nat, i: nat): (r: Option<nat>)
    requires i <= |SIZES|
    ensures r.None? <==> forall k :: i <= k < |SIZES| ==> SIZES[k] < size
    ensures r.Some? ==> i <= r.value < |SIZES| && SIZES[r.value] >= size && forall k :: i <= k < r.value ==>
              SIZES[k] < size
    decreases |SIZES| - i
  {
    if i == |SIZES| then None else if SIZES[i] >= size then Some(i) else ClassFrom(size, i + 1)
  }

  function SlabIndex(size: nat): Option<nat> { ClassFrom(size, 0) }

  lemma SizesArePowers(i: nat)
    requires i < |SIZES|
    ensures SIZES[i] == Pow2(3 + i) && SIZES[i] <= MAX_SLAB
  {
    assert Pow2(5) == 32;
    PowersAdd(5, 3);
    if i > 2 { PowersAdd(5, i - 2); }
    if i == 8 { PowersAdd(5, 6); PowersAdd(3, 3); }
    assert Pow2(3) == 8 && Pow2(4) == 16;
  }

  lemma IndexExists(size: nat)
    ensures SlabIndex(size).Some? <==> size <= MAX_SLAB
  {
    assert SIZES[8] == MAX_SLAB;
  }

  /** The exponent of the next power of two. */
  function NextExponent(n: nat): (k: nat) {
    if n <= 1 then 0 else 1 + NextExponent((n + 1) / 2)
  }

  function NextPowerOfTwo(n: nat): nat { Pow2(NextExponent(n)) }

  lemma {:induction false} NextIsLeast(n: nat, k: nat)
    ensures n <= Pow2(k) <==> NextExponent(n) <= k
    decreases k
  {
    if n > 1 && k > 0 { NextIsLeast((n + 1) / 2, k - 1); }
  }

  function SizeToOrder(size: nat): nat {
    var pages := (size + 4095) / 4096;
    if pages <= 1 then 12 else 12 + TrailingZeros(NextPowerOfTwo(pages))
  }

  /** The order is the least one whose blocks hold the size. */
  lemma OrderIsLeast(size: nat, o: nat)
    ensures SizeToOrder(size) >= 12 && (size <= BlockBytes(o) <==> SizeToOrder(size) <= 12 + o)
  {
    hide TrailingZeros, Pow2, NextExponent;
    var pages := (size + 4095) / 4096;
    ZerosShift(1, NextExponent(pages));
    assert TrailingZeros(1) == 0 by { OddHasNone(1); }
    NextIsLeast(pages, o);
    NextIsLeast(pages, 0);
    assert Pow2(0) == 1 by { PowZero(); }
  }

  lemma OddHasNone(x: nat)
    requires x % 2 == 1
    ensures TrailingZeros(x) == 0
  {
  }

  lemma PowZero()
    ensures Pow2(0) == 1
  {
  }

  // Objects

  predicate Aligned(a: nat, n: nat) { n > 0 && a % n == 0 }

  /** Object sizes divide the page. */
  predicate Divides(size: nat) { size > 0 && Aligned(4096, size) }

  function PerPage(size: nat): nat { if size == 0 then 0 else 4096 / size }

  /** An object of the cache: a multiple of the size in one of its pages. */
  ghost predicate Slot(pages: set<Block>, size: nat, a: nat) {
    Aligned(a, size) && Block(0, a / 4096) in pages
  }

  /** One of the first i objects of the page at base. */
  ghost predicate InRun(a: nat, base: nat, size: nat, i: nat) {
    base <= a < base + i * size && Aligned(a, size)
  }

  lemma RunStep(base: nat, size: nat, i: nat, a: nat)
    requires Aligned(base, size)
    ensures Aligned(base + i * size, size) && !InRun(base + i * size, base, size, i)
    ensures InRun(a, base, size, i + 1) <==> InRun(a, base, size, i) || a == base + i * size
  {
    var q := base / size;
    Arith.DivMod(base, size);
    assert base + i * size == (q + i) * size;
    Arith.DivModUnique(q + i, 0, size);
    assert (i + 1) * size == i * size + size;
    if Aligned(a, size) && base + i * size <= a < base + i * size + size {
      Arith.DivMod(a, size);
      Arith.DivLess(a, size, q + i + 1);
      Arith.DivLess(a, size, q + i);
      assert (q + i + 1) * size == (q + i) * size + size;
    }
  }

  /** The objects of a page fill it. */
  lemma RunFills(x: Block, size: nat, a: nat)
    requires Divides(size) && x.order == 0
    ensures InRun(a, 4096 * x.index, size, PerPage(size)) <==> Slot({x}, size, a)
    ensures PerPage(size) * size == 4096 && PerPage(size) > 0 && Aligned(4096 * x.index, size)
  {
    Arith.DivMod(4096, size);
    var k := PerPage(size);
    assert 4096 * x.index == (k * x.index) * size;
    Arith.DivModUnique(k * x.index, 0, size);
  }

  lemma InPage(x: Block, size: nat, i: nat)
    requires Divides(size) && i < PerPage(size)
    ensures (4096 * x.index + i * size) / 4096 == x.index
  {
    Arith.DivMod(4096, size);
    Arith.MulMono(i + 1, PerPage(size), size);
    assert (i + 1) * size == i * size + size;
  }

  // Free lists of objects

  function First(l: seq<nat>): Option<nat> {
    if l == [] then None else Some(l[0])
  }

  ghost predicate Chained(head: Option<nat>, next: map<nat, Option<nat>>, l: seq<nat>) {
    && head == First(l)
    && forall k :: 0 <= k < |l| ==> l[k] in next && next[l[k]] == First(l[k + 1..])
  }

  ghost predicate NoDup(l: seq<nat>) {
    forall j, k :: 0 <= j < k < |l| ==> l[j] != l[k]
  }

  lemma ChainPush(head: Option<nat>, next: map<nat, Option<nat>>, l: seq<nat>, a: nat)
    requires Chained(head, next, l) && NoDup(l) && a !in l
    ensures Chained(Some(a), next[a := head], [a] + l) && NoDup([a] + l)
  {
    var l', next' := [a] + l, next[a := head];
    forall k | 0 <= k < |l'| ensures l'[k] in next' && next'[l'[k]] == First(l'[k + 1..]) {
      if k == 0 { assert l'[1..] == l; } else { assert l'[k] == l[k - 1] && l'[k + 1..] == l[k..]; }
    }
  }

  lemma ChainPop(head: Option<nat>, next: map<nat, Option<nat>>, l: seq<nat>)
    requires Chained(head, next, l) && NoDup(l) && l != []
    ensures l[0] in next && Chained(next[l[0]], next, l[1..]) && NoDup(l[1..]) && l[0] !in l[1..]
    ensures forall a :: a in l <==> a == l[0] || a in l[1..]
  {
    var l' := l[1..];
    forall k | 0 <= k < |l'| ensures l'[k] in next && next[l'[k]] == First(l'[k + 1..]) {
      assert l'[k] == l[k + 1] && l'[k + 1..] == l[k + 2..];
    }
    assert l == [l[0]] + l[1..];
  }

  /** The pages a cache gained are the blocks the buddy allocator handed out. */
  ghost predicate Gained(pages: set<Block>, pages': set<Block>, live: set<Block>, live': set<Block>) {
    pages <= pages' && live' == live + (pages' - pages) && (pages' - pages) !! live
  }

  /** Every slot of the pages is free or used, and not both. */
  ghost predicate Holds(free: seq<nat>, used: set<nat>, pages: set<Block>, size: nat) {
    (forall a: nat :: a in free || a in used <==> Slot(pages, size, a)) && forall a :: a in free ==> a !in used
  }

  lemma HoldsTaken(free: seq<nat>, used: set<nat>, pages: set<Block>, size: nat)
    requires Holds(free, used, pages, size) && free != [] && NoDup(free)
    ensures Holds(free[1..], used + {free[0]}, pages, size) && free[0] !in used && Slot(pages, size, free[0])
  {
    hide Slot;
    assert free == [free[0]] + free[1..];
  }

  lemma HoldsGiven(free: seq<nat>, used: set<nat>, pages: set<Block>, size: nat, a: nat)
    requires Holds(free, used, pages, size) && a in used
    ensures Holds([a] + free, used - {a}, pages, size) && a !in free
  {
    hide Slot;
  }

  lemma HoldsMore(free: seq<nat>, used: set<nat>, pages: set<Block>, size: nat, x: Block, free': seq<nat>)
    requires Holds(free, used, pages, size) && Divides(size) && x.order == 0 && x !in pages
    requires forall a: nat :: a in free' <==> a in free || InRun(a, 4096 * x.index, size, PerPage(size))
    ensures Holds(free', used, pages + {x}, size)
  {
    hide InRun, Divides, Slot;
    NewSlots(pages, x, size);
    forall a | a in used ensures !InRun(a, 4096 * x.index, size, PerPage(size)) {
      RunFills(x, size, a);
      OtherPage(pages, x, size, a);
    }
  }

  lemma OtherPage(pages: set<Block>, x: Block, size: nat, a: nat)
    requires x !in pages && Slot(pages, size, a)
    ensures !Slot({x}, size, a)
  {
  }

  class SlabCache {
    var freeList: Option<nat>
    var next: map<nat, Option<nat>>  // the pointers stored in the free objects
    var totalObjects: nat
    var usedObjects: nat
    ghost var free: seq<nat>
    ghost var used: set<nat>
    ghost var pages: set<Block>

    constructor (ghost size: nat)
      requires Divides(size)
      ensures Valid(size) && free == [] && used == {} && pages == {}
    {
      freeList, next, totalObjects, usedObjects := None, map[], 0, 0;
      free, used, pages := [], {}, {};
    }

    /** Free and used objects together are the slots of the pages, each once; the counters count them. */
    ghost predicate Valid(size: nat)
      reads this
    {
      && Divides(size) && Chained(freeList, next, free) && NoDup(free)
      && Holds(free, used, pages, size) && (forall x :: x in pages ==> x.order == 0)
      && usedObjects == |used| && totalObjects == usedObjects + |free| == |pages| * PerPage(size)
    }

    /** Cut a fresh page into free objects. */
    method Expand(size: nat, buddy: BuddyAllocator) returns (ok: bool)
      requires Valid(size) && buddy.Valid() && pages <= buddy.live
      modifies this, buddy
      ensures Valid(size) && buddy.Valid() && used == old(used)
      ensures Gained(old(pages), pages, old(buddy.live), buddy.live)
      ensures if ok then free != [] && |pages| == |old(pages)| + 1
              else free == old(free) && pages == old(pages) && buddy.Free() == old(buddy.Free()) == {}
    {
      hide Slot, InRun, Divides, Aligned, Holds, Chained, NoDup, PerPage, BuddyAllocator.Valid, BuddyAllocator.Tidy,
           BuddyAllocator.Complete, HandedOut, BuddyAllocator.FreeBytes, FreeSet, BlockBytes;
      var page := buddy.Allocate(0);
      if page.None? {
        return false;
      }
      ghost var x := OnePageMore(old(buddy.live), buddy.live, old(buddy.Free()), buddy.Free(), page.value);
      CutPage(size, page.value, x);
      return true;
    }

    method CutPage(size: nat, page: nat, ghost x: Block)
      requires Valid(size) && x.order == 0 && page == 4096 * x.index && x !in pages
      modifies this
      ensures Valid(size) && used == old(used) && pages == old(pages) + {x} && free != []
    {
      hide Slot, InRun, Divides, Aligned, Chained, NoDup, Holds, PerPage;
      RunFills(x, size, 0);
      RunNone(page, size);
      var perPage := PerPage(size);
      for i := 0 to perPage
        invariant Chained(freeList, next, free) && NoDup(free) && |free| == |old(free)| + i
        invariant forall a: nat :: a in free <==> a in old(free) || InRun(a, page, size, i)
        invariant used == old(used) && pages == old(pages) && totalObjects == old(totalObjects)
                  && usedObjects == old(usedObjects)
      {
        var obj := page + i * size;
        NextObject(old(free), used, pages, x, size, i);
        forall a: nat ensures InRun(a, page, size, i + 1) <==> InRun(a, page, size, i) || a == obj {
          RunStep(page, size, i, a);
        }
        ChainPush(freeList, next, free, obj);
        next := next[obj := freeList];
        freeList := Some(obj);
        free := [obj] + free;
      }
      HoldsMore(old(free), used, pages, size, x, free);
      NewSlots(pages, x, size);
      totalObjects := totalObjects + perPage;
      pages := pages + {x};
    }

    /** Hand out the head of the free list, cutting a page first if the list is empty. */
    method Allocate(size: nat, buddy: BuddyAllocator) returns (r: Option<nat>)
      requires Valid(size) && buddy.Valid() && pages <= buddy.live
      modifies this, buddy
      ensures Valid(size) && buddy.Valid() && Gained(old(pages), pages, old(buddy.live), buddy.live)
      ensures r.None? ==>
                old(free) == [] && free == [] && used == old(used) && pages == old(pages) && buddy.Free() == {}
      ensures r.Some? ==> r.value !in old(used) && used == old(used) + {r.value} && Slot(pages, size, r.value)
      ensures old(free) != [] ==>
                r == Some(old(free)[0]) && free == old(free)[1..] && pages == old(pages) && unchanged(buddy)
      ensures r.None? ==> buddy.Free() == old(buddy.Free()) && buddy.live == old(buddy.live)
      ensures old(free) == [] && r.Some? ==> |pages| == |old(pages)| + 1
    {
      hide Slot, Divides, Chained, NoDup, Holds, PerPage, BuddyAllocator.Valid;
      HeadNil(freeList, next, free);
      if freeList.None? {
        var ok := Expand(size, buddy);
        if !ok {
          return None;
        }
      }
      HeadNil(freeList, next, free);
      ChainPop(freeList, next, free);
      HoldsTaken(free, used, pages, size);
      var obj := freeList.value;
      freeList := next[obj];
      usedObjects := usedObjects + 1;
      free, used := free[1..], used + {obj};
      return Some(obj);
    }

    /** Put an object back at the head of the list. */
    method Deallocate(obj: nat, ghost size: nat)
      requires Valid(size) && obj in used
      modifies this
      ensures Valid(size) && used == old(used) - {obj} && free == [obj] + old(free) && pages == old(pages)
    {
      hide Slot, Divides, Chained, NoDup, Holds, PerPage;
      HoldsGiven(free, used, pages, size, obj);
      ChainPush(freeList, next, free, obj);
      next := next[obj := freeList];
      freeList := Some(obj);
      usedObjects := Arith.Max(usedObjects - 1, 0);
      free, used := [obj] + free, used - {obj};
    }
  }

  lemma HeadNil(head: Option<nat>, next: map<nat, Option<nat>>, l: seq<nat>)
    requires Chained(head, next, l)
    ensures head == First(l)
  {
  }

  lemma RunNone(base: nat, size: nat)
    ensures forall a: nat :: !InRun(a, base, size, 0)
  {
  }

  lemma NextObject(free: seq<nat>, used: set<nat>, pages: set<Block>, x: Block, size: nat, i: nat)
    requires Holds(free, used, pages, size) && Divides(size) && x.order == 0 && x !in pages && i < PerPage(size)
    ensures var obj := 4096 * x.index + i * size;
            obj !in free && !InRun(obj, 4096 * x.index, size, i)
  {
    hide Divides, Aligned;
    RunFills(x, size, 0);
    InPage(x, size, i);
    RunStep(4096 * x.index, size, i, 0);
    var obj := 4096 * x.index + i * size;
    assert !Slot(pages, size, obj);
  }

  lemma NewSlots(pages: set<Block>, x: Block, size: nat)
    requires Divides(size) && x.order == 0 && x !in pages
    ensures forall a: nat :: Slot(pages + {x}, size, a) <==>
              Slot(pages, size, a) || InRun(a, 4096 * x.index, size, PerPage(size))
    ensures |pages + {x}| * PerPage(size) == |pages| * PerPage(size) + PerPage(size)
  {
    hide InRun, Divides;
    forall a: nat
      ensures Slot(pages + {x}, size, a) <==> Slot(pages, size, a) || InRun(a, 4096 * x.index, size, PerPage(size)) {
      RunFills(x, size, a);
    }
    assert (|pages| + 1) * PerPage(size) == |pages| * PerPage(size) + PerPage(size);
  }

  /** A page from the buddy allocator. */
  lemma OnePageMore(live: set<Block>, live': set<Block>, free: set<Block>, free': set<Block>, addr: nat)
    returns (x: Block)
    requires exists y :: y in free && HandedOut(y, 0, addr, free, free', live, live')
    ensures x.order == 0 && addr == 4096 * x.index && x !in live && live' == live + {x}
  {
    hide Rest, Bottom;
    var y :| y in free && HandedOut(y, 0, addr, free, free', live, live');
    x := Bottom(y, 0);
  }
}
