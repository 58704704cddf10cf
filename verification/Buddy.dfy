/** The physical-memory buddy allocator: intrusive free lists per order, and a bitmap that answers
    whether a block is free. */
module Buddy {
  import Arith
  import opened Bytes
  import opened Blocks
  import opened Regions

  const ORDERS := 17

  // Addresses

  /** The size of a block; orders count from the 4 KiB page. */
  function BlockBytes(o: nat): (n: nat)
    ensures n > 0
  {
    4096 * Pow2(o)
  }

  ghost function Addr(b: Block): nat { 4096 * b.First() }

  function Quotient(a: nat, n: nat): nat
    requires n > 0
  {
    a / n
  }

  /** `addr >> order`: which block of order o starts at the address. */
  function IndexOf(addr: nat, o: nat): nat { Quotient(addr, BlockBytes(o)) }

  /** The block of order o at an address. */
  function BlockAt(addr: nat, o: nat): Block { Block(o, IndexOf(addr, o)) }

  lemma AddrRoundTrip(b: Block)
    ensures BlockAt(Addr(b), b.order) == b && Addr(b) == b.index * BlockBytes(b.order)
  {
    FirstScales(b);
    assert Addr(b) == b.index * BlockBytes(b.order);
    Arith.DivModUnique(b.index, 0, BlockBytes(b.order));
  }

  /** The buddy's address: the address with the block-size bit flipped. */
  function BuddyOf(addr: nat, o: nat): int {
    if IndexOf(addr, o) % 2 == 0 then addr + BlockBytes(o) else addr - BlockBytes(o)
  }

  lemma BuddyAddress(b: Block)
    ensures BuddyOf(Addr(b), b.order) == Addr(b.Buddy())
    ensures Addr(b.Parent()) == if Addr(b) < Addr(b.Buddy()) then Addr(b) else Addr(b.Buddy())
  {
    hide IndexOf, BlockBytes, Block.First;
    AddrRoundTrip(b);
    AddrRoundTrip(b.Buddy());
    Siblings(b);
    LowFirst(b.Parent());
    NextTimes(b.index, BlockBytes(b.order));
  }

  /** Blocks that share no page start at different addresses. */
  lemma AddrInjective(x: Block, y: Block)
    requires Apart(x, y)
    ensures Addr(x) != Addr(y)
  {
    FirstIsHere(x);
    FirstIsHere(y);
  }

  // The bitmap: one bit a block, order after order

  const LIMIT := 0x2000_0000  // the bitmap knows the first 512 MiB

  function LevelBits(o: nat): nat
    requires o <= ORDERS
  {
    Pow2(ORDERS - o)
  }

  function LevelBytes(o: nat): nat
    requires o <= ORDERS
  {
    (LevelBits(o) + 7) / 8
  }

  /** Where order o's bits start. */
  function OffsetBytes(o: nat): nat
    requires o <= ORDERS
  {
    if o == 0 then 0 else OffsetBytes(o - 1) + LevelBytes(o - 1)
  }

  function BitPos(o: nat, addr: nat): nat
    requires o < ORDERS
  {
    8 * OffsetBytes(o) + IndexOf(addr, o)
  }

  predicate Tracked(addr: nat) { addr < LIMIT }

  lemma {:induction false} UpBound(p: nat, n: nat, m: nat)
    requires p < Pow2(n + m)
    ensures Up(p, n) < Pow2(m)
    decreases n
  {
    if n > 0 { UpBound(p / 2, n - 1, m); }
  }

  lemma {:induction false} OffsetsGrow(o: nat, k: nat)
    requires o < k <= ORDERS
    ensures OffsetBytes(o) + LevelBytes(o) <= OffsetBytes(k)
    decreases k
  {
    hide LevelBytes;
    if o < k - 1 { OffsetsGrow(o, k - 1); }
  }

  /** A tracked block's bit lies in its own order's stretch of the bitmap. */
  lemma BitInLevel(b: Block)
    requires b.order < ORDERS && Tracked(Addr(b))
    ensures BitPos(b.order, Addr(b)) == 8 * OffsetBytes(b.order) + b.index
    ensures b.index < 8 * LevelBytes(b.order) && BitPos(b.order, Addr(b)) / 8 < OffsetBytes(ORDERS)
  {
    hide IndexOf, BlockBytes, Block.First, Pow2, OffsetBytes;
    AddrRoundTrip(b);
    FirstIsHere(b);
    PagesSeven();
    UpBound(b.First(), b.order, ORDERS - b.order);
    OffsetsGrow(b.order, ORDERS);
  }

  lemma PagesSeven()
    ensures Pow2(7) == 128 && Pow2(12) == 32 * Pow2(7) && Pow2(17) == 32 * Pow2(12)
  {
    assert Pow2(7) == 8 * Pow2(4) && Pow2(4) == 8 * Pow2(1);
    assert Pow2(12) == 4 * Pow2(10) && Pow2(10) == 8 * Pow2(7);
    assert Pow2(17) == 4 * Pow2(15) && Pow2(15) == 8 * Pow2(12);
  }

  /** No two tracked blocks share a bit. */
  lemma BitsApart(x: Block, y: Block)
    requires x.order < ORDERS && y.order < ORDERS && Tracked(Addr(x)) && Tracked(Addr(y))
    requires BitPos(x.order, Addr(x)) == BitPos(y.order, Addr(y))
    ensures x == y
  {
    hide IndexOf, BlockBytes, Block.First, Pow2, OffsetBytes, BitPos;
    BitInLevel(x);
    BitInLevel(y);
    if x.order < y.order { OffsetsGrow(x.order, y.order); }
    if y.order < x.order { OffsetsGrow(y.order, x.order); }
  }

  // The free lists

  ghost function FirstAddr(l: seq<Block>): Option<nat> {
    if l == [] then None else Some(Addr(l[0]))
  }

  /** head and the next pointers stored in the free blocks spell out l. */
  ghost predicate Linked(head: Option<nat>, next: map<nat, Option<nat>>, l: seq<Block>) {
    && head == FirstAddr(l)
    && forall k :: 0 <= k < |l| ==> Addr(l[k]) in next && next[Addr(l[k])] == FirstAddr(l[k + 1..])
  }

  ghost predicate Distinct(l: seq<Block>) {
    forall j, k :: 0 <= j < k < |l| ==> l[j] != l[k]
  }

  type Lists = seq<seq<Block>>

  ghost predicate ListsOk(ls: Lists) {
    && |ls| == ORDERS
    && (forall o :: 0 <= o < ORDERS ==> Distinct(ls[o]))
    && (forall o, k :: 0 <= o < ORDERS && 0 <= k < |ls[o]| ==> ls[o][k].order == o)
  }

  ghost function FreeSet(ls: Lists): set<Block> {
    set o, k | 0 <= o < |ls| && 0 <= k < |ls[o]| :: ls[o][k]
  }

  lemma InFree(ls: Lists, b: Block)
    requires ListsOk(ls)
    ensures b in FreeSet(ls) <==> b.order < ORDERS && b in ls[b.order]
  {
  }

  /** Bytes on the lists of the first n orders. */
  ghost function ListBytes(ls: Lists, n: nat): nat
    requires n <= |ls|
  {
    if n == 0 then 0 else ListBytes(ls, n - 1) + |ls[n - 1]| * BlockBytes(n - 1)
  }

  lemma {:induction false} BytesUpdate(ls: Lists, o: nat, l: seq<Block>, n: nat)
    requires o < |ls| && n <= |ls|
    ensures ListBytes(ls[o := l], n) == ListBytes(ls, n) + (if o < n then (|l| - |ls[o]|) * BlockBytes(o) else 0)
  {
    hide BlockBytes;
    if n > 0 {
      BytesUpdate(ls, o, l, n - 1);
      if o == n - 1 { assert |l| * BlockBytes(o) == |ls[o]| * BlockBytes(o) + (|l| - |ls[o]|) * BlockBytes(o); }
    }
  }

  lemma Pushed(ls: Lists, b: Block)
    requires ListsOk(ls) && b.order < ORDERS && b !in FreeSet(ls)
    ensures var ls' := ls[b.order := [b] + ls[b.order]];
            && ListsOk(ls') && FreeSet(ls') == FreeSet(ls) + {b}
            && ListBytes(ls', ORDERS) == ListBytes(ls, ORDERS) + BlockBytes(b.order)
  {
    hide BlockBytes, ListBytes;
    var ls' := ls[b.order := [b] + ls[b.order]];
    InFree(ls, b);
    assert ListsOk(ls');
    forall x ensures x in FreeSet(ls') <==> x in FreeSet(ls) || x == b { InFree(ls, x); InFree(ls', x); }
    BytesUpdate(ls, b.order, [b] + ls[b.order], ORDERS);
  }

  function Without<T>(l: seq<T>, k: nat): seq<T>
    requires k < |l|
  {
    l[..k] + l[k + 1..]
  }

  lemma Taken(ls: Lists, o: nat, k: nat)
    requires ListsOk(ls) && o < ORDERS && k < |ls[o]|
    ensures var ls' := ls[o := Without(ls[o], k)];
            && ListsOk(ls') && FreeSet(ls') == FreeSet(ls) - {ls[o][k]} && ls[o][k] in FreeSet(ls)
            && ListBytes(ls, ORDERS) == ListBytes(ls', ORDERS) + BlockBytes(o)
  {
    hide BlockBytes, ListBytes, FreeSet;
    var l, l', b := ls[o], Without(ls[o], k), ls[o][k];
    var ls' := ls[o := l'];
    forall j | 0 <= j < |l'| ensures l'[j] == (if j < k then l[j] else l[j + 1]) { }
    assert ListsOk(ls');
    forall x ensures x in FreeSet(ls') <==> x in FreeSet(ls) && x != b {
      InFree(ls, x);
      InFree(ls', x);
      if x.order == o && x in l && x != b {
        var j :| 0 <= j < |l| && l[j] == x;
        assert l'[if j < k then j else j - 1] == x;
      }
    }
    InFree(ls, b);
    BytesUpdate(ls, o, l', ORDERS);
  }

  /** Where b stands in its list. */
  ghost function Place(l: seq<Block>, b: Block): (k: nat)
    requires b in l
    ensures k < |l| && l[k] == b && forall j :: 0 <= j < k ==> l[j] != b
  {
    if l[0] == b then 0 else 1 + Place(l[1..], b)
  }

  // What the bits say

  ghost predicate BitOn(bitmap: seq<byte>, b: Block)
    requires b.order < ORDERS
  {
    Tracked(Addr(b)) && BitAt(bitmap, BitPos(b.order, Addr(b)))
  }

  /** A set bit means a block on its list. */
  ghost predicate BitsSound(bitmap: seq<byte>, free: set<Block>) {
    |bitmap| == OffsetBytes(ORDERS) && forall b: Block :: b.order < ORDERS && BitOn(bitmap, b) ==> b in free
  }

  /** Every tracked block on a list has its bit set. */
  ghost predicate BitsComplete(bitmap: seq<byte>, free: set<Block>) {
    forall b: Block :: b in free && b.order < ORDERS && Tracked(Addr(b)) ==> BitOn(bitmap, b)
  }

  function Marked(bitmap: seq<byte>, o: nat, addr: nat, on: bool): (r: seq<byte>)
    requires o < ORDERS
    ensures |r| == |bitmap|
  {
    if !Tracked(addr) || BitPos(o, addr) / 8 >= |bitmap| then bitmap
    else if on then SetBit(bitmap, BitPos(o, addr)) else ClearBit(bitmap, BitPos(o, addr))
  }

  lemma MarkedEffect(bitmap: seq<byte>, b: Block, on: bool, x: Block)
    requires b.order < ORDERS && x.order < ORDERS && |bitmap| == OffsetBytes(ORDERS)
    ensures BitOn(Marked(bitmap, b.order, Addr(b), on), x) <==>
              if x == b then on && Tracked(Addr(b)) else BitOn(bitmap, x)
  {
    hide BitPos, Addr, OffsetBytes, BitAt, SetBit, ClearBit;
    if Tracked(Addr(b)) {
      BitInLevel(b);
      if Tracked(Addr(x)) && BitPos(x.order, Addr(x)) == BitPos(b.order, Addr(b)) { BitsApart(x, b); }
    }
  }

  lemma BitsAfterSet(bitmap: seq<byte>, free: set<Block>, b: Block)
    requires b.order < ORDERS && BitsSound(bitmap, free)
    ensures BitsSound(Marked(bitmap, b.order, Addr(b), true), free + {b})
    ensures BitsComplete(bitmap, free) ==> BitsComplete(Marked(bitmap, b.order, Addr(b), true), free + {b})
  {
    hide BitOn, Marked, OffsetBytes, Addr;
    var bits := Marked(bitmap, b.order, Addr(b), true);
    forall x: Block | x.order < ORDERS
      ensures BitOn(bits, x) <==> if x == b then Tracked(Addr(b)) else BitOn(bitmap, x) {
      MarkedEffect(bitmap, b, true, x);
    }
  }

  lemma BitsAfterClear(bitmap: seq<byte>, free: set<Block>, b: Block)
    requires b.order < ORDERS && BitsSound(bitmap, free)
    ensures var bits := Marked(bitmap, b.order, Addr(b), false);
            BitsSound(bits, free) && BitsSound(bits, free - {b})
    ensures BitsComplete(bitmap, free) ==> BitsComplete(Marked(bitmap, b.order, Addr(b), false), free - {b})
  {
    hide BitOn, Marked, OffsetBytes, Addr;
    var bits := Marked(bitmap, b.order, Addr(b), false);
    forall x: Block | x.order < ORDERS ensures BitOn(bits, x) <==> x != b && BitOn(bitmap, x) {
      MarkedEffect(bitmap, b, false, x);
    }
  }

  // Links

  /** Writing the next pointer of a block that is on none of the lists. */
  lemma LinksElsewhere(head: Option<nat>, next: map<nat, Option<nat>>, l: seq<Block>, addr: nat, v: Option<nat>)
    requires Linked(head, next, l) && forall k :: 0 <= k < |l| ==> Addr(l[k]) != addr
    ensures Linked(head, next[addr := v], l)
  {
    hide Addr, FirstAddr;
  }

  lemma LinkPushed(head: Option<nat>, next: map<nat, Option<nat>>, l: seq<Block>, b: Block)
    requires Linked(head, next, l) && forall k :: 0 <= k < |l| ==> Addr(l[k]) != Addr(b)
    ensures Linked(Some(Addr(b)), next[Addr(b) := head], [b] + l)
  {
    hide Addr;
    var l', next' := [b] + l, next[Addr(b) := head];
    forall k | 0 <= k < |l'| ensures Addr(l'[k]) in next' && next'[Addr(l'[k])] == FirstAddr(l'[k + 1..]) {
      if k == 0 { assert l'[1..] == l; } else { assert l'[k] == l[k - 1] && l'[k + 1..] == l[k..]; }
    }
  }

  lemma LinkPopped(head: Option<nat>, next: map<nat, Option<nat>>, l: seq<Block>)
    requires Linked(head, next, l) && l != []
    ensures Addr(l[0]) in next && Linked(next[Addr(l[0])], next, Without(l, 0))
  {
    hide Addr;
    var l' := Without(l, 0);
    assert l' == l[1..];
    forall k | 0 <= k < |l'| ensures Addr(l'[k]) in next && next[Addr(l'[k])] == FirstAddr(l'[k + 1..]) {
      assert l'[k] == l[k + 1] && l'[k + 1..] == l[k + 2..];
    }
  }

  /** Unlinking entry k behind its predecessor. */
  lemma LinkCut(head: Option<nat>, next: map<nat, Option<nat>>, l: seq<Block>, k: nat)
    requires Linked(head, next, l) && 0 < k < |l| && Addr(l[k]) in next
    requires forall i, j :: 0 <= i < j < |l| ==> Addr(l[i]) != Addr(l[j])
    ensures Linked(head, next[Addr(l[k - 1]) := next[Addr(l[k])]], Without(l, k))
  {
    hide Addr;
    var l', next' := Without(l, k), next[Addr(l[k - 1]) := next[Addr(l[k])]];
    assert l'[0] == l[0];
    forall i | 0 <= i < |l'| ensures Addr(l'[i]) in next' && next'[Addr(l'[i])] == FirstAddr(l'[i + 1..]) {
      if i < k - 1 {
        assert l'[i] == l[i] && l'[i + 1] == l[i + 1] && l'[i + 1..] != [] && l[i + 1..] != [];
        assert l'[i + 1..][0] == l[i + 1..][0];
      } else if i == k - 1 {
        assert l'[k..] == l[k + 1..];
      } else {
        assert l'[i] == l[i + 1] && l'[i + 1..] == l[i + 2..];
      }
    }
  }

  /** No address starts two blocks of the sets. */
  lemma AddrsApart(ls: Lists, free: set<Block>, live: set<Block>, b: Block)
    requires ListsOk(ls) && free == FreeSet(ls) && AllApart(free + live)
    ensures forall o, i, j :: 0 <= o < ORDERS && 0 <= i < j < |ls[o]| ==> Addr(ls[o][i]) != Addr(ls[o][j])
    ensures b in free + live ==> forall o, k :: 0 <= o < ORDERS && 0 <= k < |ls[o]| ==>
              ls[o][k] in free && (ls[o][k] != b ==> Addr(ls[o][k]) != Addr(b))
  {
    hide Addr, Apart, FreeSet;
    forall o, i, j | 0 <= o < ORDERS && 0 <= i < j < |ls[o]| ensures Addr(ls[o][i]) != Addr(ls[o][j]) {
      InFree(ls, ls[o][i]);
      InFree(ls, ls[o][j]);
      AddrInjective(ls[o][i], ls[o][j]);
    }
    forall o, k | 0 <= o < ORDERS && 0 <= k < |ls[o]| && b in free + live
      ensures ls[o][k] in free && (ls[o][k] != b ==> Addr(ls[o][k]) != Addr(b))
    {
      InFree(ls, ls[o][k]);
      if ls[o][k] != b { AddrInjective(ls[o][k], b); }
    }
  }

  class BuddyAllocator {
    var heads: seq<Option<nat>>
    var next: map<nat, Option<nat>>  // the pointers stored at the start of the free blocks
    var bitmap: seq<byte>
    var totalMemory: nat
    ghost var lists: Lists
    ghost var live: set<Block>

    constructor ()
      ensures Valid() && Complete() && Free() == {} && live == {} && FreeBytes() == 0 && totalMemory == 0
    {
      hide FreeSet, OffsetBytes, BitsSound, BitsComplete, ListBytes, Zeros, Addr;
      heads, next, bitmap, totalMemory := seq(ORDERS, _ => None), map[], Zeros(OffsetBytes(ORDERS)), 0;
      lists, live := seq(ORDERS, _ => []), {};
      new;
      EmptyAllocator(bitmap, lists);
    }

    ghost function Free(): set<Block>
      reads this
    {
      FreeSet(lists)
    }

    /** Lists, links and bits agree; no block, free or handed out, overlaps another. */
    ghost predicate Valid()
      reads this
    {
      && |heads| == ORDERS && ListsOk(lists)
      && (forall o :: 0 <= o < ORDERS ==> Linked(heads[o], next, lists[o]))
      && AllApart(Free() + live) && Free() !! live && OrdersOk(live)
      && BitsSound(bitmap, Free())
    }

    ghost predicate Complete()
      reads this
    {
      BitsComplete(bitmap, Free())
    }

    ghost function FreeBytes(): nat
      requires |lists| == ORDERS
      reads this
    {
      ListBytes(lists, ORDERS)
    }

    /** The bitmap knows every block, and no list is longer than one scan can search. */
    ghost predicate Searchable()
      reads this
    {
      Complete() && AllTracked(Free() + live) && forall o :: 0 <= o < |lists| ==> |lists[o]| <= 4097
    }

    /** ... and nothing is left to merge. */
    ghost predicate Tidy()
      reads this
    {
      Searchable() && NoBuddies(Free())
    }

    predicate IsFree(o: nat, addr: nat)
      requires o < ORDERS
      reads this
    {
      Tracked(addr) && BitAt(bitmap, BitPos(o, addr))
    }

    /** Push a block in hand onto its list.  Its bit is never already set, so the double-free halt is out
        of reach. */
    method AddBlock(o: nat, addr: nat, ghost b: Block)
      requires Valid() && b in live && b.order == o < ORDERS && addr == Addr(b)
      modifies this
      ensures Valid() && lists == old(lists)[o := [b] + old(lists[o])] && totalMemory == old(totalMemory)
      ensures !old(IsFree(o, addr))
      ensures Free() == old(Free()) + {b} && live == old(live) - {b} && FreeBytes() == old(FreeBytes()) + BlockBytes(o)
      ensures old(Complete()) ==> Complete()
    {
      hide FreeSet, Addr, BitsSound, BitsComplete, AllApart, Marked, ListBytes, BlockBytes, Linked;
      AddrsApart(lists, Free(), live, b);
      BitTells(bitmap, Free(), b);
      Pushed(lists, b);
      BitsAfterSet(bitmap, Free(), b);
      LinkPushed(heads[o], next, lists[o], b);
      forall k | 0 <= k < ORDERS && k != o ensures Linked(heads[k], next[addr := heads[o]], lists[k]) {
        LinksElsewhere(heads[k], next, lists[k], addr, heads[o]);
      }
      assert Free() + live == Free() + {b} + (live - {b});
      next := next[addr := heads[o]];
      heads := heads[o := Some(addr)];
      bitmap := Marked(bitmap, o, addr, true);
      lists := lists[o := [b] + lists[o]];
      live := live - {b};
    }

    /** Pop the head of a list into the caller's hand. */
    method RemoveFromHead(o: nat, addr: nat)
      requires Valid() && o < ORDERS && heads[o] == Some(addr)
      modifies this
      ensures |old(lists[o])| > 0 && addr == Addr(old(lists[o])[0])
      ensures Valid() && lists == old(lists)[o := Without(old(lists[o]), 0)] && totalMemory == old(totalMemory)
      ensures var b := old(lists[o])[0];
              b.order == o && b in old(Free()) && Free() == old(Free()) - {b} && live == old(live) + {b}
              && old(FreeBytes()) == FreeBytes() + BlockBytes(o)
      ensures bitmap == Marked(old(bitmap), o, addr, false) && (old(Complete()) ==> Complete())
    {
      hide FreeSet, Addr, BitsSound, BitsComplete, AllApart, Marked, ListBytes, BlockBytes;
      ghost var b := lists[o][0];
      Taken(lists, o, 0);
      LinkPopped(heads[o], next, lists[o]);
      BitsAfterClear(bitmap, Free(), b);
      assert Free() + live == (Free() - {b}) + (live + {b});
      heads := heads[o := next[addr]];
      bitmap := Marked(bitmap, o, addr, false);
      lists := lists[o := Without(lists[o], 0)];
      live := live + {b};
    }

    /** Unlink a block from anywhere in its list.  The scan gives up after 4096 steps; the bit is cleared
        either way. */
    method RemoveArbitrary(o: nat, addr: nat, ghost b: Block) returns (found: bool)
      requires Valid() && b.order == o < ORDERS && addr == Addr(b)
      modifies this
      ensures Valid() && totalMemory == old(totalMemory)
      ensures found <==> b in old(Free()) && b in old(lists[o]) && Place(old(lists[o]), b) <= 4096
      ensures found ==> lists == old(lists)[o := Without(old(lists[o]), Place(old(lists[o]), b))]
      ensures found ==>
                Free() == old(Free()) - {b} && live == old(live) + {b}
                && old(FreeBytes()) == FreeBytes() + BlockBytes(o)
      ensures bitmap == Marked(old(bitmap), o, addr, false) && (found && old(Complete()) ==> Complete())
      ensures !found ==> lists == old(lists) && live == old(live)
    {
      hide FreeSet, Addr, BitsSound, BitsComplete, AllApart, Marked, ListBytes, BlockBytes, Linked, Place;
      ghost var l := lists[o];
      InFree(lists, b);
      BitsAfterClear(bitmap, Free(), b);
      HeadIs(heads[o], next, l, b);
      if heads[o] == Some(addr) {
        RemoveFromHead(o, addr);
        return true;
      }
      if heads[o].None? {
        bitmap := Marked(bitmap, o, addr, false);
        return false;
      }
      var prev := heads[o].value;
      var iters := 0;
      while true
        invariant 0 <= iters < |l| && iters <= 4096 && prev == Addr(l[iters])
                  && (forall j :: 0 <= j <= iters ==> l[j] != b)
        invariant heads == old(heads) && next == old(next) && bitmap == old(bitmap) && lists == old(lists)
                  && live == old(live) && totalMemory == old(totalMemory)
        decreases |l| - iters
      {
        iters := iters + 1;
        if iters > 4096 {
          NotWithin(l, b, 4096);
          bitmap := Marked(bitmap, o, addr, false);
          return false;
        }
        NextIs(heads[o], next, l, iters - 1, b);
        var follow := next[prev];
        if follow == Some(addr) {
          Unlink(o, addr, prev, b, iters);
          return true;
        }
        if follow.None? {
          NotWithin(l, b, |l| - 1);
          bitmap := Marked(bitmap, o, addr, false);
          return false;
        }
        prev := follow.value;
      }
    }

    /** Unlink the block behind prev. */
    method Unlink(o: nat, addr: nat, prev: nat, ghost b: Block, ghost k: nat)
      requires Valid() && b.order == o < ORDERS && addr == Addr(b)
      requires 0 < k < |lists[o]| && lists[o][k] == b && prev == Addr(lists[o][k - 1]) && addr in next && prev in next
      requires forall j :: 0 <= j < k ==> lists[o][j] != b
      modifies this
      ensures Valid() && totalMemory == old(totalMemory)
      ensures b in old(Free()) && b in old(lists[o]) && Place(old(lists[o]), b) == k
              && lists == old(lists)[o := Without(old(lists[o]), k)]
      ensures Free() == old(Free()) - {b} && live == old(live) + {b} && old(FreeBytes()) == FreeBytes() + BlockBytes(o)
      ensures bitmap == Marked(old(bitmap), o, addr, false) && (old(Complete()) ==> Complete())
    {
      hide FreeSet, Addr, BitsSound, BitsComplete, AllApart, Marked, ListBytes, BlockBytes, Linked;
      Taken(lists, o, k);
      AddrsApart(lists, Free(), live, lists[o][k - 1]);
      PredecessorFree(lists, o, k - 1);
      LinkCut(heads[o], next, lists[o], k);
      forall i | 0 <= i < ORDERS && i != o ensures Linked(heads[i], next[prev := next[addr]], lists[i]) {
        OtherOrder(lists, o, i, k - 1);
        LinksElsewhere(heads[i], next, lists[i], prev, next[addr]);
      }
      BitsAfterClear(bitmap, Free(), b);
      assert Free() + live == (Free() - {b}) + (live + {b});
      next := next[prev := next[addr]];
      bitmap := Marked(bitmap, o, addr, false);
      lists := lists[o := Without(lists[o], k)];
      live := live + {b};
    }

    // Allocation

    /** Halve a block in hand down to order `to`, listing the upper halves. */
    method SplitBlock(from': nat, addr: nat, to: nat, ghost x: Block)
      requires Valid() && x in live && x.order == from' < ORDERS && to <= from' && addr == Addr(x)
      modifies this
      ensures Valid() && totalMemory == old(totalMemory) && addr == Addr(Bottom(x, to))
      ensures Free() == old(Free()) + Rest(x, to) && live == old(live) - {x} + {Bottom(x, to)}
      ensures FreeBytes() + BlockBytes(to) == old(FreeBytes()) + BlockBytes(from')
      ensures old(Complete()) ==> Complete()
      ensures |lists| == ORDERS && forall k :: 0 <= k < ORDERS ==> lists[k] == Upper(x, to, k) + old(lists)[k]
    {
      hide FreeSet, Addr, BitsSound, BitsComplete, AllApart, ListBytes, BlockBytes, Linked, Rest, Bottom, Block.Has,
           Upper;
      var current := from';
      ghost var y, all := x, Free() + live;
      WholeBlock(x);
      UpperNone(x);
      while current > to
        invariant to <= current <= from' && y == Bottom(x, current) && y.order == current && y in live
                  && addr == Addr(y)
        invariant Valid() && totalMemory == old(totalMemory) && (y == x || y !in old(live))
        invariant Free() == old(Free()) + Rest(x, current) && live == old(live) - {x} + {y}
        invariant FreeBytes() + BlockBytes(current) == old(FreeBytes()) + BlockBytes(from')
        invariant old(Complete()) ==> Complete()
        invariant forall k :: 0 <= k < ORDERS ==> lists[k] == Upper(x, current, k) + old(lists)[k]
      {
        ghost var f, v := Free(), live;
        current := current - 1;
        LastSplit(x, current);
        UpperStep(x, current);
        BottomInside(x, current);
        SmallerIsOut(all, x, y.Low());
        SplitStep(f + v, y);
        HalfSizes(y);
        live := live - {y} + {y.Low(), y.High()};
        assert Free() + live == f + v - {y} + {y.Low(), y.High()};
        AddBlock(current, addr + BlockBytes(current), y.High());
        y := y.Low();
        assert live == v - {Bottom(x, current + 1)} + {y};
      }
    }

    /** Hand out a block of order o: the head of the first non-empty list from o up, split as needed. */
    method Allocate(o: nat) returns (r: Option<nat>)
      requires Valid() && o < ORDERS
      modifies this
      ensures Valid() && totalMemory == old(totalMemory) && (old(Complete()) ==> Complete())
      ensures r.None? ==> lists == old(lists) && live == old(live) && bitmap == old(bitmap)
      ensures r.None? ==> forall x :: x in Free() ==> x.order < o
      ensures r.Some? ==>
                exists x :: x in old(Free()) && HandedOut(x, o, r.value, old(Free()), Free(), old(live), live)
                            && CutFrom(old(lists), lists, x, o)
      ensures r.Some? ==> old(FreeBytes()) == FreeBytes() + BlockBytes(o)
      ensures SameCover(Free() + live, old(Free() + live)) && (old(Tidy()) ==> Tidy())
    {
      hide FreeSet, Addr, BitsSound, BitsComplete, AllApart, ListBytes, BlockBytes, Linked, Rest, Bottom, Block.Has,
           HandedOut, SameCover, Upper, CutFrom, AllTracked, NoBuddies;
      SameCoverSelf(Free() + live);
      var larger := o;
      while larger < ORDERS
        invariant o <= larger <= ORDERS && lists == old(lists) && live == old(live) && heads == old(heads)
                  && next == old(next)
        invariant bitmap == old(bitmap) && totalMemory == old(totalMemory) && Valid()
        invariant forall k :: o <= k < larger ==> lists[k] == []
      {
        HeadNone(heads[larger], next, lists[larger]);
        if heads[larger].Some? {
          var addr := heads[larger].value;
          ghost var x := lists[larger][0];
          LeastOrder(lists, o, x);
          RemoveFromHead(larger, addr);
          SplitBlock(larger, addr, o, x);
          NowCut(old(lists), lists, x, o);
          NowHandedOut(x, o, addr, old(Free()), old(live), Free(), live);
          HandedOutCover(x, o, addr, old(Free()), old(live), Free(), live);
          if old(Tidy()) { StillTidy(x, o, addr, old(Free()), old(live), Free(), live); }
          return Some(addr);
        }
        larger := larger + 1;
      }
      forall x | x in Free() ensures x.order < o { InFree(lists, x); }
      return None;
    }

    /** Merge the block in hand with its buddy, if the bitmap calls the buddy free and the scan finds it. */
    method TryMerge(o: nat, addr: nat, ghost c: Block) returns (merged: bool)
      requires Valid() && c in live && c.order == o < TOP && addr == Addr(c)
      modifies this
      ensures Valid() && totalMemory == old(totalMemory)
      ensures merged ==>
                c.Buddy() in old(Free()) && Free() == old(Free()) - {c.Buddy()}
                && live == old(live) - {c} + {c.Parent()}
      ensures merged ==> c.Parent() !in old(live) && FreeBytes() + BlockBytes(o) == old(FreeBytes())
      ensures merged ==> lists == old(lists)[o := lists[o]] && bitmap == Marked(old(bitmap), o, Addr(c.Buddy()), false)
      ensures !merged ==> lists == old(lists) && live == old(live)
      ensures merged <==> old(Within(bitmap, lists, c))
      ensures forall k :: 0 <= k < ORDERS ==> |lists[k]| <= |old(lists)[k]|
      ensures old(Searchable()) ==> Searchable() && (merged <==> c.Buddy() in old(Free()))
    {
      hide FreeSet, Addr, BitsSound, BitsComplete, AllApart, ListBytes, BlockBytes, Linked, Block.Has, BitAt;
      ghost var f, v, buddy := Free(), live, c.Buddy();
      BuddyAddress(c);
      Siblings(c);
      BitTells(bitmap, f, buddy);
      var buddyAddr := BuddyOf(addr, o);
      if !IsFree(o, buddyAddr) {
        return false;
      }
      InFree(lists, buddy);
      ListShort(lists[o], buddy);
      merged := RemoveArbitrary(o, buddyAddr, buddy);
      if !merged {
        return;
      }
      MergeStep(f + v, c);
      assert Free() + live == f + v;
      live := live - {c, buddy} + {c.Parent()};
      assert Free() + live == f + v - {c, buddy} + {c.Parent()};
      assert live == v - {c} + {c.Parent()};
    }

    /** One merge, and what it leaves of the way up. */
    method MergeOne(o: nat, addr: nat, ghost c: Block) returns (merged: bool, addr': nat)
      requires Valid() && c in live && c.order == o < TOP && addr == Addr(c)
      modifies this
      ensures Valid() && |lists| == ORDERS && totalMemory == old(totalMemory)
      ensures merged ==> addr' == Addr(c.Parent()) && live == old(live) - {c} + {c.Parent()} && c.Parent() !in old(live)
      ensures merged ==> Freeing(bitmap, lists, Free(), c.Parent()) == Freeing(old(bitmap), old(lists), old(Free()), c)
      ensures merged ==> FreeBytes() + BlockBytes(o + 1) == old(FreeBytes()) + BlockBytes(o)
      ensures !merged ==> lists == old(lists) && live == old(live) && addr' == addr
      ensures !merged ==> Free() + {c} == Freeing(old(bitmap), old(lists), old(Free()), c)
      ensures (forall k :: 0 <= k < ORDERS ==> |lists[k]| <= |old(lists)[k]|) && (old(Searchable()) ==> Searchable())
    {
      hide FreeSet, Addr, BlockBytes, Freeing, Within, Marked, OffsetBytes, BuddyOf, ListsOk, BuddyAllocator.Valid,
           BuddyAllocator.Searchable, BuddyAllocator.FreeBytes;
      ghost var f, bits, ls := Free(), bitmap, lists;
      BitmapLength(this);
      BuddyAddress(c);
      ParentSize(c);
      merged := TryMerge(o, addr, c);
      BitmapLength(this);
      if !merged {
        FreeingEnds(bits, ls, f, c);
        return false, addr;
      }
      FreeingSteps(bits, ls, bitmap, lists, f, c);
      var buddyAddr := BuddyOf(addr, o);
      return true, if addr < buddyAddr then addr else buddyAddr;
    }

    /** Merge the block in hand upward for as long as that works. */
    method MergeUp(o: nat, addr: nat, ghost b: Block) returns (current: nat, at: nat, ghost c: Block)
      requires Valid() && b in live && b.order == o < ORDERS && addr == Addr(b)
      modifies this
      ensures Valid() && totalMemory == old(totalMemory) && c in live && c.order == current < ORDERS && at == Addr(c)
      ensures live == old(live) - {b} + {c} && c !in old(live) - {b}
      ensures Free() + {c} == Freeing(old(bitmap), old(lists), old(Free()), b)
      ensures FreeBytes() + BlockBytes(current) == old(FreeBytes()) + BlockBytes(o)
      ensures (forall k :: 0 <= k < ORDERS ==> |lists[k]| <= |old(lists)[k]|) && (old(Searchable()) ==> Searchable())
    {
      hide FreeSet, Addr, BlockBytes, Freeing, BuddyAllocator.Valid, BuddyAllocator.Searchable, ListBytes, ListsOk,
           OffsetBytes;
      BitmapLength(this);
      current, at, c := o, addr, b;
      ghost var goal, rest, bytes := Freeing(bitmap, lists, Free(), b), live - {b}, FreeBytes() + BlockBytes(o);
      assert rest + {b} == live;
      while current < TOP
        invariant o <= current <= TOP && c in live && c.order == current && at == Addr(c)
        invariant Valid() && |lists| == ORDERS && totalMemory == old(totalMemory)
        invariant live == rest + {c} && c !in rest && FreeBytes() + BlockBytes(current) == bytes
        invariant forall k :: 0 <= k < ORDERS ==> |lists[k]| <= |old(lists)[k]|
        invariant Freeing(bitmap, lists, Free(), c) == goal
        invariant old(Searchable()) ==> Searchable()
      {
        var merged, up := MergeOne(current, at, c);
        if !merged {
          return;
        }
        assert rest + {c} - {c} == rest;
        c, at, current := c.Parent(), up, current + 1;
      }
      FreeingEnds(bitmap, lists, Free(), c);
    }

    /** Take a block back, merged upward. */
    method Deallocate(addr: nat, o: nat, ghost b: Block)
      requires Valid() && b in live && b.order == o < ORDERS && addr == Addr(b)
      modifies this
      ensures Valid() && totalMemory == old(totalMemory) && live == old(live) - {b}
      ensures SameCover(Free(), old(Free()) + {b}) && SameCover(Free() + live, old(Free() + live))
      ensures FreeBytes() == old(FreeBytes()) + BlockBytes(o)
      ensures Free() == Freeing(old(bitmap), old(lists), old(Free()), b)
      ensures NoBuddies(old(Free())) ==> (NoBuddies(Free()) <==> Climbs(old(bitmap), old(lists), b))
      ensures old(Searchable()) ==> Free() == Coalesce(old(Free()), b) && Complete() && AllTracked(Free() + live)
      ensures old(Tidy()) ==> NoBuddies(Free())
      ensures old(Tidy()) && (forall k :: 0 <= k < ORDERS ==> |old(lists)[k]| <= 4096) ==> Tidy()
    {
      hide FreeSet, Addr, BitsSound, BitsComplete, AllApart, ListBytes, BlockBytes, Linked, Block.Has, SameCover,
           Freeing, Climbs, NoBuddies, Coalesce;
      ghost var f0, v0, good := Free(), live, Searchable();
      if good { FreeingCoalesces(bitmap, lists, f0, b); }
      if Tidy() { CoalesceMax(f0, b); }
      FreeingMaximal(bitmap, lists, b);
      SubsetApart(f0 + live, f0 + {b});
      FreeingCovers(bitmap, lists, f0, b);
      var current, at;
      ghost var c;
      current, at, c := MergeUp(o, addr, b);
      AddBlock(current, at, c);
      SameCoverWith(Free(), f0 + {b}, live);
      assert f0 + {b} + live == f0 + v0;
    }

    // Regions and totals

    /** Cut the largest block that fits off the front of what remains of a region. */
    method AddPiece(current: nat, remaining: nat, ghost c: nat, ghost last: nat) returns (size: nat)
      requires Valid() && current == 4096 * c && remaining >= 4096 && last == c + remaining / 4096
               && Vacant(Free() + live, c, last)
      modifies this
      ensures Valid() && live == old(live) && totalMemory == old(totalMemory) && (old(Complete()) ==> Complete())
      ensures var x := Piece(c, last);
              && Free() == old(Free()) + {x} && Pieces(c, last) == {x} + Pieces(c + Pow2(x.order), last)
              && size == 4096 * Pow2(x.order) && c + Pow2(x.order) <= last
              && Vacant(Free() + live, c + Pow2(x.order), last)
              && FreeBytes() == old(FreeBytes()) + size
    {
      hide FreeSet, Addr, BitsSound, BitsComplete, AllApart, ListBytes, Linked, Block.Has, RegionOrder, Pieces,
           Vacant, Piece, Pow2, Largest, FirstAddr;
      ghost var x, all := Piece(c, last), Free() + live;
      OrderIsLargest(c, remaining);
      var order := RegionOrder(current, remaining);
      NextPiece(all, c, last);
      live := live + {x};
      assert Free() + live == all + {x};
      AddBlock(order - 12, current, x);
      assert Free() + live == all + {x};
      return BlockBytes(order - 12);
    }

    /** Take over a region: its whole pages become free blocks. */
    method AddRegion(start: nat, end: nat)
      requires Valid() && start <= end && start % 4096 == 0
      requires Vacant(Free() + live, start / 4096, start / 4096 + (end - start) / 4096)
      modifies this
      ensures Valid() && live == old(live) && totalMemory == old(totalMemory) + (end - start)
      ensures Free() == old(Free()) + Pieces(start / 4096, start / 4096 + (end - start) / 4096)
      ensures FreeBytes() == old(FreeBytes()) + (end - start) / 4096 * 4096
      ensures old(Complete()) ==> Complete()
      ensures NoBuddies(old(Free())) ==>
                (NoBuddies(Free()) <==> !Mends(old(Free()), start / 4096, start / 4096 + (end - start) / 4096))
      ensures AllTracked(old(Free() + live)) && end <= LIMIT ==> AllTracked(Free() + live)
      ensures forall k :: 0 <= k < ORDERS && (k < TOP || end <= LIMIT) ==> |lists[k]| <= |old(lists)[k]| + 2
      ensures old(Tidy()) && end <= LIMIT && !Mends(old(Free()), start / 4096, start / 4096 + (end - start) / 4096) ==>
                (forall k :: 0 <= k < ORDERS ==> |old(lists)[k]| <= 4095) ==> Tidy()
    {
      hide FreeSet, Addr, BitsSound, BitsComplete, AllApart, ListBytes, BlockBytes, Linked, Block.Has, RegionOrder,
           Pieces, Vacant, Piece, Mends, NoBuddies, AllTracked;
      var current := start;
      totalMemory := totalMemory + (end - start);
      ghost var c, last := start / 4096, start / 4096 + (end - start) / 4096;
      while current < end
        invariant current == 4096 * c && start / 4096 <= c <= last && last == c + (end - current) / 4096
                  && current <= end
        invariant Valid() && live == old(live) && totalMemory == old(totalMemory) + (end - start)
        invariant Vacant(Free() + live, c, last) && Free() + Pieces(c, last) == old(Free()) + Pieces(start / 4096, last)
        invariant FreeBytes() == old(FreeBytes()) + 4096 * (c - start / 4096)
        invariant old(Complete()) ==> Complete()
      {
        var remaining := end - current;
        if remaining < 4096 {
          break;
        }
        ghost var x := Piece(c, last);
        var size := AddPiece(current, remaining, c, last);
        current := current + size;
        c := c + Pow2(x.order);
      }
      NoPieces(last);
      StillVacant(old(Free()), old(live), start / 4096, last);
      if NoBuddies(old(Free())) { MaximalExactly(old(Free()), start / 4096, last); }
      RegionLists(old(lists), lists, start / 4096, last);
      if AllTracked(old(Free() + live)) && end <= LIMIT {
        RegionTracked(old(Free() + live), start / 4096, last);
        assert Free() + live == old(Free() + live) + Pieces(start / 4096, last);
      }
    }

    /** Walk the lists and add up the sizes. */
    method CountFreeBytes() returns (total: nat)
      requires Valid()
      ensures total == FreeBytes() && total == 4096 * |PageSet(Free())|
    {
      hide FreeSet, Addr, BitsSound, AllApart, ListBytes, BlockBytes, Linked;
      total := 0;
      BytesStart(lists);
      for o := 0 to ORDERS
        invariant total == ListBytes(lists, o)
      {
        var count := 0;
        var current := heads[o];
        HeadFollow(heads[o], next, lists[o]);
        while current.Some?
          invariant count <= |lists[o]| && current == FirstAddr(lists[o][count..])
          decreases |lists[o]| - count
        {
          Follow(heads[o], next, lists[o], count);
          current := next[current.value];
          count := count + 1;
        }
        BytesStep(lists, o);
        total := total + count * BlockBytes(o);
      }
      SubsetApart(Free() + live, Free());
      BytesArePages(lists);
    }
  }

  // Regions

  /** None of the pages from c up to `last` belongs to a block. */
  ghost predicate Vacant(s: set<Block>, c: nat, last: nat) {
    forall p: nat :: c <= p < last ==> !Covers(s, p)
  }

  lemma NextPiece(s: set<Block>, c: nat, last: nat)
    requires c < last && AllApart(s) && Vacant(s, c, last)
    ensures var x := Piece(c, last);
            && x !in s && AllApart(s + {x}) && Addr(x) == 4096 * c && x.order <= TOP && c + Pow2(x.order) <= last
            && Vacant(s + {x}, c + Pow2(x.order), last) && Pieces(c, last) == {x} + Pieces(c + Pow2(x.order), last)
            && x.order == Largest(c, last - c, TOP)
  {
    hide Block.Has, Block.First, AllApart, Largest, Covers, Pow2;
    var x := Piece(c, last);
    PieceHere(c, last);
    forall p: nat ensures x.Has(p) <==> c <= p < c + Pow2(x.order) { HasRange(x, p); }
    JoinApart(s, x);
    JoinCover(s, x);
    assert {x} + s == s + {x};
    if x in s { AlreadyCovered(s, x); }
  }

  /** A block of the set holds the page before or the page after the region. */
  ghost predicate Touches(s: set<Block>, c: nat, last: nat) {
    Covers(s, last) || (c > 0 && Covers(s, c - 1))
  }

  lemma StillVacant(f: set<Block>, live: set<Block>, c: nat, last: nat)
    requires Vacant(f + live, c, last)
    ensures forall p: nat :: c <= p < last ==> !Covers(f, p)
  {
    hide Block.Has, Covers;
    forall p: nat | c <= p < last ensures !Covers(f, p) { CoverUnion(f, live, p); }
  }

  /** Regions that do not touch what is free leave nothing to merge. */
  lemma ApartRegions(f: set<Block>, live: set<Block>, c: nat, last: nat)
    requires NoBuddies(f) && Vacant(f + live, c, last) && !Touches(f, c, last)
    ensures NoBuddies(f + Pieces(c, last))
  {
    hide Block.Has, Block.First, Pieces, Piece, LastPiece, Covers, NoBuddies, Vacant;
    StillVacant(f, live, c, last);
    MaximalExactly(f, c, last);
    if Mends(f, c, last) {
      PieceIsOne(c, last);
      LastPieceEnds(c, last);
      PiecesCut(c, last);
      var y := if Piece(c, last).Buddy() in f then Piece(c, last) else LastPiece(c, last);
      Siblings(y);
      NextToRegion(f, y.Buddy(), c, last);
    }
  }

  lemma NextToRegion(f: set<Block>, x: Block, c: nat, last: nat)
    requires x in f && CutAt(x.Buddy(), c, last)
    ensures Touches(f, c, last) || exists p: nat :: c <= p < last && Covers(f, p)
  {
    hide Block.Has, Block.First, Pow2, CutAt;
    var y := x.Buddy();
    Neighbours(x);
    CutWithin(y, c, last);
    var p := if y.First() < x.First() then x.First() else y.First() - 1;
    HasRange(x, p);
    assert Covers(f, p);
  }

  lemma RegionTracked(s: set<Block>, c: nat, last: nat)
    requires AllTracked(s) && 4096 * last <= LIMIT
    ensures AllTracked(s + Pieces(c, last))
  {
    hide Block.First, Pieces;
    PiecesCut(c, last);
  }

  lemma NoPieces(c: nat)
    ensures Pieces(c, c) == {}
  {
  }

  lemma AlreadyCovered(s: set<Block>, x: Block)
    requires x in s
    ensures Covers(s, x.First())
  {
    hide Block.Has;
    FirstIsHere(x);
  }

  /** A region makes each list longer by at most two. */
  lemma RegionLists(ls: Lists, ls': Lists, c: nat, last: nat)
    requires ListsOk(ls) && ListsOk(ls') && FreeSet(ls') == FreeSet(ls) + Pieces(c, last)
    ensures forall k :: 0 <= k < ORDERS && (k < TOP || 4096 * last <= LIMIT) ==> |ls'[k]| <= |ls[k]| + 2
  {
    hide Pieces, FreeSet, Pow2;
    forall k | 0 <= k < ORDERS && (k < TOP || 4096 * last <= LIMIT) ensures |ls'[k]| <= |ls[k]| + 2 {
      ListSize(ls, k);
      ListSize(ls', k);
      if k < TOP { AtMostTwo(c, last, k); } else { TopReach(); AtMostTwoAtTop(c, last); }
      var s, p := OfOrder(FreeSet(ls), k), OfOrder(Pieces(c, last), k);
      assert OfOrder(FreeSet(ls'), k) == s + p;
      assert s + p == s + (p - s) && |p - s| <= |p|;
    }
  }

  lemma TopReach()
    ensures 4096 * (2 * Pow2(TOP)) == LIMIT
  {
    assert Pow2(8) == 256;
    PowersAdd(8, 8);
  }

  /** A list is as long as there are free blocks of its order. */
  lemma ListSize(ls: Lists, k: nat)
    requires ListsOk(ls) && k < ORDERS
    ensures |OfOrder(FreeSet(ls), k)| == |ls[k]|
  {
    hide FreeSet;
    forall x ensures x in OfOrder(FreeSet(ls), k) <==> x in ls[k] { InFree(ls, x); }
    DistinctSize(ls[k], OfOrder(FreeSet(ls), k));
  }

  lemma {:induction false} DistinctSize(l: seq<Block>, s: set<Block>)
    requires Distinct(l) && forall x :: x in s <==> x in l
    ensures |s| == |l|
  {
    if l == [] {
      assert s == {};
    } else {
      DistinctSize(l[1..], s - {l[0]});
    }
  }

  // Totals

  lemma HeadFollow(head: Option<nat>, next: map<nat, Option<nat>>, l: seq<Block>)
    requires Linked(head, next, l)
    ensures head == FirstAddr(l[0..])
  {
    assert l[0..] == l;
  }

  lemma Follow(head: Option<nat>, next: map<nat, Option<nat>>, l: seq<Block>, k: nat)
    requires Linked(head, next, l) && k <= |l| && FirstAddr(l[k..]).Some?
    ensures k < |l| && FirstAddr(l[k..]).value in next && next[FirstAddr(l[k..]).value] == FirstAddr(l[k + 1..])
  {
    hide Addr;
  }

  lemma BytesStart(ls: Lists)
    ensures ListBytes(ls, 0) == 0
  {
  }

  lemma BytesStep(ls: Lists, n: nat)
    requires n < |ls|
    ensures ListBytes(ls, n + 1) == ListBytes(ls, n) + |ls[n]| * BlockBytes(n)
  {
  }

  /** n pages from c on. */
  ghost function RunOf(c: nat, n: nat): (run: set<nat>)
    ensures |run| == n && forall p :: p in run <==> c <= p < c + n
  {
    if n == 0 then {} else RunOf(c, n - 1) + {c + n - 1}
  }

  /** The pages of a set of blocks. */
  ghost function PageSet(s: set<Block>): set<nat> {
    set b, p | b in s && p in RunOf(b.First(), Pow2(b.order)) :: p
  }

  lemma PageSetIs(s: set<Block>, p: nat)
    ensures p in PageSet(s) <==> Covers(s, p)
  {
    hide Block.First, Block.Has, RunOf;
    forall b | b in s ensures b.Has(p) <==> p in RunOf(b.First(), Pow2(b.order)) { HasRange(b, p); }
  }

  /** The bytes on the lists are the bytes of the pages the free blocks cover: no page counts twice. */
  lemma {:induction false} BytesArePages(ls: Lists)
    requires ListsOk(ls) && AllApart(FreeSet(ls))
    ensures ListBytes(ls, ORDERS) == 4096 * |PageSet(FreeSet(ls))|
    decreases ListBytes(ls, ORDERS)
  {
    hide ListBytes, FreeSet, PageSet, AllApart, Block.First, BlockBytes;
    if o: nat :| o < ORDERS && ls[o] != [] {
      var b := ls[o][0];
      var ls' := ls[o := Without(ls[o], 0)];
      Taken(ls, o, 0);
      SubsetApart(FreeSet(ls), FreeSet(ls'));
      BytesArePages(ls');
      OneMore(FreeSet(ls), b);
    } else {
      NothingListed(ls, ORDERS);
      NothingFree(ls);
    }
  }

  lemma NothingFree(ls: Lists)
    requires forall o :: 0 <= o < |ls| ==> ls[o] == []
    ensures PageSet(FreeSet(ls)) == {}
  {
    assert FreeSet(ls) == {};
  }

  lemma OneMore(s: set<Block>, b: Block)
    requires AllApart(s) && b in s
    ensures 4096 * |PageSet(s)| == 4096 * |PageSet(s - {b})| + BlockBytes(b.order)
  {
    hide PageSet, Block.First, Block.Has, RunOf;
    var run := RunOf(b.First(), Pow2(b.order));
    forall p: nat ensures p in PageSet(s) <==> p in PageSet(s - {b}) || p in run {
      PageSetIs(s, p);
      PageSetIs(s - {b}, p);
      HasRange(b, p);
    }
    forall p: nat | p in run ensures p !in PageSet(s - {b}) {
      PageSetIs(s - {b}, p);
      HasRange(b, p);
    }
    assert PageSet(s) == PageSet(s - {b}) + run;
  }

  // Staying tidy

  lemma {:induction false} RestOdd(x: Block, o: nat)
    requires o <= x.order
    ensures forall y :: y in Rest(x, o) ==> y.index % 2 == 1 && Inside(y.Buddy(), x) && y.order < x.order
    decreases x.order
  {
    hide Block.Has;
    if x.order > o {
      RestOdd(x.Low(), o);
      Halves(x);
    }
  }

  /** Splitting a block leaves nothing to merge. */
  lemma SplitTidy(f: set<Block>, x: Block, o: nat)
    requires NoBuddies(f) && AllApart(f) && x in f && o <= x.order
    ensures NoBuddies(f - {x} + Rest(x, o))
  {
    hide Block.Has, AllApart, Rest, Inside;
    RestOdd(x, o);
    var f' := f - {x} + Rest(x, o);
    forall y | y in f' && y.order < TOP ensures y.Buddy() !in f' {
      Siblings(y);
      if y in Rest(x, o) { SmallerIsOut(f, x, y.Buddy()); }
      if y.Buddy() in Rest(x, o) { SmallerIsOut(f, x, y); }
    }
  }

  lemma TrackedPart(x: Block, y: Block)
    requires x.order <= TOP && Inside(y, x) && Tracked(Addr(x))
    ensures Tracked(Addr(y))
  {
    hide Block.First, Block.Has, Pow2;
    FirstIsHere(y);
    HasRange(x, y.First());
    FirstScales(x);
    PowersAdd(ORDERS - x.order, x.order);
    PagesSeven();
    var n, m := Pow2(x.order), Pow2(ORDERS - x.order);
    if x.index >= m { Arith.MulMono(m, x.index, n); }
    Arith.MulMono(x.index + 1, m, n);
    assert (x.index + 1) * n == x.index * n + n;
  }

  lemma StillTidy(x: Block, o: nat, addr: nat, free: set<Block>, live: set<Block>, free': set<Block>, live': set<Block>)
    requires HandedOut(x, o, addr, free, free', live, live') && x in free && AllApart(free + live)
    requires NoBuddies(free) && AllTracked(free + live) && x.order <= TOP
    ensures NoBuddies(free') && AllTracked(free' + live')
  {
    hide Block.Has, AllApart, Inside, Rest, Bottom, Addr, NoBuddies;
    SubsetApart(free + live, free);
    SplitTidy(free, x, o);
    BottomInside(x, o);
    TrackedPart(x, Bottom(x, o));
    forall y | y in Rest(x, o) ensures Tracked(Addr(y)) { TrackedPart(x, y); }
  }

  /** When nothing is left to merge, an allocation fails exactly when no aligned stretch of that size is
      free. */
  lemma FailsOnlyWhenFull(f: set<Block>, o: nat)
    requires NoBuddies(f) && o <= TOP
    ensures (forall x :: x in f ==> x.order < o) <==> !exists i: nat :: WhollyFree(f, Block(o, i))
  {
    hide Block.Has, NoBuddies;
    if i: nat :| WhollyFree(f, Block(o, i)) {
      FreeRangeIsOneBlock(f, Block(o, i));
    }
    if x :| x in f && x.order >= o {
      BottomInside(x, o);
      var b := Bottom(x, o);
      assert WhollyFree(f, Block(o, b.index));
    }
  }

  ghost predicate WhollyFree(f: set<Block>, b: Block) {
    forall p: nat :: b.Has(p) ==> Covers(f, p)
  }

  /** Giving back what was just handed out restores the free set. */
  lemma GiveBack(x: Block, o: nat, addr: nat, free: set<Block>, free': set<Block>, live: set<Block>, live': set<Block>)
    requires HandedOut(x, o, addr, free, free', live, live') && x in free && x.order <= TOP && AllApart(free)
             && NoBuddies(free)
    ensures BlockAt(addr, o) in live' && Coalesce(free', BlockAt(addr, o)) == free
  {
    hide Block.Has, AllApart, NoBuddies, Addr, Coalesce, Rest, Bottom;
    RoundTrip(free, x, o);
    AddrRoundTrip(Bottom(x, o));
  }

  lemma BitTells(bitmap: seq<byte>, free: set<Block>, b: Block)
    requires b.order < ORDERS && BitsSound(bitmap, free)
    ensures Tracked(Addr(b)) && BitAt(bitmap, BitPos(b.order, Addr(b))) ==> b in free
    ensures BitsComplete(bitmap, free) && b in free && Tracked(Addr(b)) ==> BitAt(bitmap, BitPos(b.order, Addr(b)))
  {
    hide Addr, OffsetBytes, BitPos, BitAt;
    assert BitOn(bitmap, b) <==> Tracked(Addr(b)) && BitAt(bitmap, BitPos(b.order, Addr(b)));
  }

  lemma ListShort(l: seq<Block>, b: Block)
    ensures b in l && |l| <= 4097 ==> Place(l, b) <= 4096
  {
    hide Place;
  }

  lemma SameCoverWith(s: set<Block>, t: set<Block>, more: set<Block>)
    requires SameCover(s, t)
    ensures SameCover(s + more, t + more)
  {
    hide Block.Has;
    forall p: nat ensures Covers(s + more, p) <==> Covers(t + more, p) {
      CoverUnion(s, more, p);
      CoverUnion(t, more, p);
    }
  }

  lemma CoverUnion(s: set<Block>, t: set<Block>, p: nat)
    ensures Covers(s + t, p) <==> Covers(s, p) || Covers(t, p)
  {
    hide Block.Has;
    if Covers(s, p) { var x :| x in s && x.Has(p); assert x in s + t; }
    if Covers(t, p) { var x :| x in t && x.Has(p); assert x in s + t; }
  }

  /** Handing a block out moves pages from free to live and loses none. */
  lemma HandedOutCover(x: Block, o: nat, addr: nat, free: set<Block>, live: set<Block>, free': set<Block>,
                       live': set<Block>)
    requires HandedOut(x, o, addr, free, free', live, live') && x in free && AllApart(free + live) && free !! live
    ensures SameCover(free' + live', free + live)
  {
    hide Block.Has, AllApart, Addr, Bottom, Rest;
    SplitAll(free + live, x, o);
    assert free' + live' == free + live - {x} + {Bottom(x, o)} + Rest(x, o);
  }

  lemma SubsetApart(s: set<Block>, t: set<Block>)
    requires AllApart(s) && t <= s
    ensures AllApart(t)
  {
  }

  lemma SameCoverSelf(s: set<Block>)
    ensures SameCover(s, s)
  {
  }

  lemma ParentSize(c: Block)
    ensures BlockBytes(c.order + 1) == 2 * BlockBytes(c.order)
  {
  }

  /** The buddy of c is on its list, its bit is set, and the scan gets to it. */
  ghost predicate Within(bitmap: seq<byte>, ls: Lists, c: Block) {
    && c.order < TOP && c.order < |ls| && BitOn(bitmap, c.Buddy())
    && c.Buddy() in ls[c.order] && Place(ls[c.order], c.Buddy()) <= 4096
  }

  /** What freeing b makes of the free blocks f: it is merged upward for as long as the scan finds the buddy. */
  ghost function Freeing(bitmap: seq<byte>, ls: Lists, f: set<Block>, b: Block): set<Block>
    decreases TOP - b.order
  {
    if Within(bitmap, ls, b) then Freeing(bitmap, ls, f - {b.Buddy()}, b.Parent()) else f + {b}
  }

  /** Wherever on the way up the buddy is free, the scan finds it. */
  ghost predicate Climbs(bitmap: seq<byte>, ls: Lists, b: Block)
    decreases TOP - b.order
  {
    || b.order >= TOP || b.Buddy() !in FreeSet(ls)
    || (Within(bitmap, ls, b) && Climbs(bitmap, ls, b.Parent()))
  }

  /** Lists and bits agree from order o up. */
  ghost predicate AgreeFrom(bits: seq<byte>, ls: Lists, bits': seq<byte>, ls': Lists, o: nat) {
    && |ls'| == |ls| == ORDERS && (forall k :: o <= k < ORDERS ==> ls'[k] == ls[k])
    && forall x: Block :: o <= x.order < ORDERS ==> BitOn(bits', x) == BitOn(bits, x)
  }

  lemma {:induction false} FreeingAgrees(bits: seq<byte>, ls: Lists, bits': seq<byte>, ls': Lists, f: set<Block>,
                                         b: Block)
    requires AgreeFrom(bits, ls, bits', ls', b.order)
    ensures Freeing(bits', ls', f, b) == Freeing(bits, ls, f, b)
    decreases TOP - b.order
  {
    hide BitOn, Place;
    if b.order < TOP {
      assert BitOn(bits', b.Buddy()) == BitOn(bits, b.Buddy());
      if Within(bits, ls, b) { FreeingAgrees(bits, ls, bits', ls', f - {b.Buddy()}, b.Parent()); }
    }
  }

  /** After one merge the rest of the way is what it was. */
  lemma FreeingSteps(bits: seq<byte>, ls: Lists, bits': seq<byte>, ls': Lists, f: set<Block>, c: Block)
    requires Within(bits, ls, c) && |ls| == |ls'| == ORDERS && ls' == ls[c.order := ls'[c.order]]
    requires |bits| == OffsetBytes(ORDERS) && bits' == Marked(bits, c.order, Addr(c.Buddy()), false)
    ensures Freeing(bits', ls', f - {c.Buddy()}, c.Parent()) == Freeing(bits, ls, f, c)
  {
    hide BitOn, Place, Marked, OffsetBytes, Addr;
    forall x: Block | c.order + 1 <= x.order < ORDERS ensures BitOn(bits', x) == BitOn(bits, x) {
      MarkedEffect(bits, c.Buddy(), false, x);
    }
    FreeingAgrees(bits, ls, bits', ls', f - {c.Buddy()}, c.Parent());
  }

  lemma BitmapLength(a: BuddyAllocator)
    requires a.Valid()
    ensures |a.bitmap| == OffsetBytes(ORDERS) && ListsOk(a.lists) && |a.lists| == ORDERS
  {
  }

  lemma FreeingEnds(bits: seq<byte>, ls: Lists, f: set<Block>, c: Block)
    ensures !Within(bits, ls, c) || c.order >= TOP ==> Freeing(bits, ls, f, c) == f + {c}
  {
  }

  /** Nothing mergeable is left exactly when the way up was clear. */
  lemma {:induction false} FreeingFrom(bits: seq<byte>, ls: Lists, f: set<Block>, b: Block)
    requires ListsOk(ls) && NoBuddies(f) && f <= FreeSet(ls) && forall x :: x in FreeSet(ls) && x.order >= b.order ==>
               x in f
    ensures NoBuddies(Freeing(bits, ls, f, b)) <==> Climbs(bits, ls, b)
    decreases TOP - b.order
  {
    hide BitOn, Place, FreeSet;
    if Within(bits, ls, b) {
      InFree(ls, b.Buddy());
      FreeingFrom(bits, ls, f - {b.Buddy()}, b.Parent());
    } else {
      var g := f + {b};
      if b.order < TOP && b.Buddy() in f {
        assert !NoBuddies(g);
      } else {
        forall x | x in g && x.order < TOP ensures x.Buddy() !in g { Siblings(x); Siblings(b); }
      }
    }
  }

  /** With every bit there and every list short, that is the full coalescing. */
  lemma {:induction false} FreeingCoalesces(bits: seq<byte>, ls: Lists, f: set<Block>, b: Block)
    requires ListsOk(ls) && BitsComplete(bits, FreeSet(ls)) && AllTracked(FreeSet(ls))
    requires (forall o :: 0 <= o < ORDERS ==> |ls[o]| <= 4097)
    requires f <= FreeSet(ls) && forall x :: x in FreeSet(ls) && x.order >= b.order ==> x in f
    ensures Freeing(bits, ls, f, b) == Coalesce(f, b)
    decreases TOP - b.order
  {
    hide BitOn, Place, FreeSet, Addr;
    if b.order < TOP {
      InFree(ls, b.Buddy());
      if b.Buddy() in f {
        ListShort(ls[b.order], b.Buddy());
        assert BitOn(bits, b.Buddy());
        FreeingCoalesces(bits, ls, f - {b.Buddy()}, b.Parent());
      }
    }
  }

  /** The pages are those of f and of b. */
  lemma {:induction false} FreeingCovers(bits: seq<byte>, ls: Lists, f: set<Block>, b: Block)
    requires ListsOk(ls) && AllApart(f + {b}) && b !in f && forall x :: x in FreeSet(ls) && x.order >= b.order ==>
               x in f
    ensures SameCover(Freeing(bits, ls, f, b), f + {b})
    decreases TOP - b.order
  {
    hide BitOn, Place, FreeSet, AllApart, SameCover, Block.Has;
    if Within(bits, ls, b) {
      var rest := f - {b.Buddy()};
      InFree(ls, b.Buddy());
      Siblings(b);
      MergeStep(f + {b}, b);
      assert f + {b} - {b, b.Buddy()} + {b.Parent()} == rest + {b.Parent()};
      FreeingCovers(bits, ls, rest, b.Parent());
      CoverFlips(f + {b}, rest + {b.Parent()});
      CoversMeet(Freeing(bits, ls, rest, b.Parent()), f + {b}, rest + {b.Parent()}) by {
        CoverFlips(rest + {b.Parent()}, f + {b});
      }
    } else {
      SameCoverSelf(f + {b});
    }
  }

  lemma FreeingMaximal(bits: seq<byte>, ls: Lists, b: Block)
    requires ListsOk(ls)
    ensures NoBuddies(FreeSet(ls)) ==> (NoBuddies(Freeing(bits, ls, FreeSet(ls), b)) <==> Climbs(bits, ls, b))
  {
    hide FreeSet, NoBuddies, Climbs, ListsOk;
    if NoBuddies(FreeSet(ls)) { FreeingFrom(bits, ls, FreeSet(ls), b); }
  }

  /** Blocks beyond the bitmap have their buddies beyond it too. */
  lemma BuddyUntracked(c: Block)
    requires c.order < TOP && !Tracked(Addr(c))
    ensures !Tracked(Addr(c.Buddy()))
  {
    hide Addr, Block.Has;
    BuddyAddress(c);
    Siblings(c);
    Halves(c.Parent());
    if Tracked(Addr(c.Buddy())) { TrackedPart(c.Parent(), c); }
  }

  // Where coalescing gives up

  /** A block is freed while its free buddy is out of the scan's reach, or beyond the bitmap, and nothing
      larger is free: the two stay apart, and a request for their parent is refused although every page of
      it is free. */
  method GivesUp(a: BuddyAllocator, addr: nat, o: nat, ghost b: Block) returns (r: Option<nat>)
    requires a.Valid() && b in a.live && b.order == o < TOP && addr == Addr(b)
    requires b.Buddy() in a.Free() && !Within(a.bitmap, a.lists, b) && forall x :: x in a.Free() ==> x.order <= o
    modifies a
    ensures a.Valid() && r.None? && a.Free() == old(a.Free()) + {b}
    ensures !NoBuddies(a.Free()) && WhollyFree(a.Free(), b.Parent())
  {
    hide BuddyAllocator.Valid, FreeSet, Within, Addr, BlockBytes, Block.Has, SameCover, Coalesce, BuddyAllocator.Tidy,
         HandedOut, NoBuddies;
    a.Deallocate(addr, o, b);
    ghost var f := a.Free();
    LeftApart(f, b);
    r := a.Allocate(o + 1);
  }

  lemma LeftApart(f: set<Block>, b: Block)
    requires b in f && b.Buddy() in f && b.order < TOP
    ensures !NoBuddies(f) && WhollyFree(f, b.Parent())
  {
    hide Block.Has;
    Siblings(b);
    Halves(b.Parent());
  }

  /** Any pair of pages at or above 512 MiB, allocated and freed again. */
  method HighMemory(i: nat) returns (a: BuddyAllocator, r: Option<nat>)
    requires 8192 * i >= LIMIT
    ensures a.Valid() && r.None? && WhollyFree(a.Free(), Block(1, i)) && !NoBuddies(a.Free())
  {
    hide BuddyAllocator.Valid, FreeSet, Addr, BlockBytes, Block.Has, SameCover, Coalesce, BuddyAllocator.Tidy,
         BuddyAllocator.Complete, NoBuddies, Pieces, Mends, HandedOut, WhollyFree, Within, AllTracked;
    ghost var x := Block(1, i);
    HighHalves(i);
    a := TwoHighPages(i);
    ghost var f := a.Free();
    var p := a.Allocate(0);
    OnlyOne(x, p, f, a.Free(), {}, a.live);
    f := a.Free();
    ghost var v := a.live;
    var q := a.Allocate(0);
    OnlyOne(x.High(), q, f, a.Free(), v, a.live);
    OutOfReach(a.bitmap, a.lists, x.Low());
    a.Deallocate(p.value, 0, x.Low());
    OutOfReach(a.bitmap, a.lists, x.High());
    assert a.Free() == {x.Low()};
    r := GivesUp(a, q.value, 0, x.High());
  }

  method TwoHighPages(i: nat) returns (a: BuddyAllocator)
    ensures fresh(a) && a.Valid() && a.Free() == {Block(1, i)} && a.live == {}
  {
    hide BuddyAllocator.Valid, FreeSet, Addr, BlockBytes, Block.Has, Pieces, Mends, NoBuddies, Vacant, AllTracked,
         BuddyAllocator.Complete;
    a := new BuddyAllocator();
    NothingCovered(2 * i, 2 * i + 2);
    TwoPages(i);
    a.AddRegion(8192 * i, 8192 * i + 8192);
  }

  lemma NothingCovered(c: nat, last: nat)
    ensures Vacant({} + {}, c, last)
  {
  }

  /** With one block free, an allocation of a page can only come out of it. */
  lemma OnlyOne(x: Block, r: Option<nat>, f: set<Block>, f': set<Block>, v: set<Block>, v': set<Block>)
    requires x.order <= 1 && f == {x}
    requires r.Some? ==> exists y :: y in f && HandedOut(y, 0, r.value, f, f', v, v')
    ensures r.Some? && x.order == 1 ==> r.value == Addr(x.Low()) && v' == v + {x.Low()} && f' == {x.High()}
    ensures r.Some? && x.order == 0 ==> r.value == Addr(x) && v' == v + {x} && f' == {}
  {
    hide Addr;
    if x.order == 1 {
      assert Bottom(x.Low(), 0) == x.Low() && Rest(x.Low(), 0) == {};
      assert Rest(x, 0) == {x.High()};
    }
  }

  lemma HighHalves(i: nat)
    requires 8192 * i >= LIMIT
    ensures var x := Block(1, i);
            && !Tracked(Addr(x.Low())) && !Tracked(Addr(x.High())) && x.Low().Buddy() == x.High()
            && x.High().Buddy() == x.Low()
            && x.High().Parent() == x && x.Low() != x.High()
  {
  }

  /** Beyond the bitmap nothing is ever merged. */
  lemma OutOfReach(bitmap: seq<byte>, ls: Lists, c: Block)
    requires c.order < TOP && !Tracked(Addr(c))
    ensures !Within(bitmap, ls, c)
  {
    hide Addr, Place;
    BuddyUntracked(c);
  }

  ghost predicate AllTracked(s: set<Block>) {
    forall x :: x in s ==> Tracked(Addr(x))
  }

  /** Block x of the free set went, its first part of order o at `addr` was handed out, and the upper
      halves stayed free.  No smaller free block would have done. */
  ghost predicate HandedOut(x: Block, o: nat, addr: nat, free: set<Block>, free': set<Block>, live: set<Block>,
                            live': set<Block>) {
    && x.order >= o && addr == Addr(Bottom(x, o)) && Bottom(x, o).order == o
    && free' == free - {x} + Rest(x, o)
    && live' == live + {Bottom(x, o)} && Bottom(x, o) !in live
    && forall y :: y in free && y.order >= o ==> x.order <= y.order
  }

  /** The upper half of order k that splitting x down to order o leaves over, if any. */
  ghost function Upper(x: Block, o: nat, k: nat): seq<Block> {
    if o <= k < x.order then [Bottom(x, k + 1).High()] else []
  }

  /** Block x left the head of its list, and the halves left over went to the heads of theirs. */
  ghost predicate CutFrom(ls: Lists, ls': Lists, x: Block, o: nat) {
    && o <= x.order < |ls| == |ls'| && ls[x.order] == [x] + ls'[x.order]
    && forall k :: 0 <= k < |ls| && k != x.order ==> ls'[k] == Upper(x, o, k) + ls[k]
  }

  lemma UpperNone(x: Block)
    ensures forall k :: Upper(x, x.order, k) == []
  {
  }

  lemma UpperStep(x: Block, o: nat)
    requires o < x.order
    ensures Upper(x, o, o) == [Bottom(x, o + 1).High()] && Upper(x, o + 1, o) == []
    ensures forall k :: k != o ==> Upper(x, o, k) == Upper(x, o + 1, k)
  {
  }

  lemma NowCut(ls: Lists, ls': Lists, x: Block, o: nat)
    requires o <= x.order < |ls| == |ls'| && ls[x.order] != [] && ls[x.order][0] == x
    requires forall k :: 0 <= k < |ls| ==> ls'[k] == Upper(x, o, k) + ls[x.order := Without(ls[x.order], 0)][k]
    requires forall k :: o <= k < x.order ==> ls[k] == []
    ensures CutFrom(ls, ls', x, o)
    ensures (forall k :: 0 <= k < |ls| ==> |ls[k]| <= 4097) ==> forall k :: 0 <= k < |ls'| ==> |ls'[k]| <= 4097
  {
    assert ls'[x.order] == Without(ls[x.order], 0);
    assert ls[x.order] == [x] + ls'[x.order];
  }

  /** The head of the first non-empty list from o up is a smallest free block that will do. */
  lemma LeastOrder(ls: Lists, o: nat, x: Block)
    requires ListsOk(ls) && x.order < |ls| && forall k :: o <= k < x.order ==> ls[k] == []
    ensures forall y :: y in FreeSet(ls) && y.order >= o ==> x.order <= y.order
  {
    hide FreeSet;
    forall y | y in FreeSet(ls) && y.order >= o ensures x.order <= y.order { InFree(ls, y); }
  }

  lemma NowHandedOut(x: Block, o: nat, addr: nat, free: set<Block>, live: set<Block>, free': set<Block>,
                     live': set<Block>)
    requires x in free && o <= x.order && addr == Addr(Bottom(x, o)) && AllApart(free + live) && free !! live
    requires free' == free - {x} + Rest(x, o) && live' == live + {x} - {x} + {Bottom(x, o)}
    requires forall y :: y in free && y.order >= o ==> x.order <= y.order
    ensures HandedOut(x, o, addr, free, free', live, live')
  {
    hide Addr, AllApart, Block.Has;
    BottomInside(x, o);
    if Bottom(x, o) != x { SmallerIsOut(free + live, x, Bottom(x, o)); }
  }

  lemma WholeBlock(x: Block)
    ensures Bottom(x, x.order) == x && Rest(x, x.order) == {}
  {
  }

  lemma HalfSizes(y: Block)
    requires y.order > 0
    ensures BlockBytes(y.order) == 2 * BlockBytes(y.order - 1)
    ensures Addr(y.Low()) == Addr(y) && Addr(y.High()) == Addr(y) + BlockBytes(y.order - 1) && y.Low() != y.High()
  {
    AddrRoundTrip(y.Low());
    AddrRoundTrip(y.High());
    LowFirst(y);
    NextTimes(2 * y.index, BlockBytes(y.order - 1));
  }

  lemma HeadNone(head: Option<nat>, next: map<nat, Option<nat>>, l: seq<Block>)
    requires Linked(head, next, l)
    ensures head.None? <==> l == []
  {
  }

  lemma HeadIs(head: Option<nat>, next: map<nat, Option<nat>>, l: seq<Block>, b: Block)
    requires Linked(head, next, l) && forall k :: 0 <= k < |l| ==> l[k].order == b.order
    ensures head == FirstAddr(l) && (l != [] ==> (head == Some(Addr(b)) <==> l[0] == b))
  {
    hide Addr;
    if l != [] { AddrRoundTrip(l[0]); AddrRoundTrip(b); }
  }

  lemma NextIs(head: Option<nat>, next: map<nat, Option<nat>>, l: seq<Block>, k: nat, b: Block)
    requires Linked(head, next, l) && k < |l| && forall j :: 0 <= j < |l| ==> l[j].order == b.order
    ensures Addr(l[k]) in next && (next[Addr(l[k])].None? <==> k == |l| - 1)
    ensures k < |l| - 1 ==>
              next[Addr(l[k])] == Some(Addr(l[k + 1])) && (next[Addr(l[k])] == Some(Addr(b)) <==> l[k + 1] == b)
              && Addr(l[k + 1]) in next
  {
    hide Addr;
    if k < |l| - 1 { AddrRoundTrip(l[k + 1]); AddrRoundTrip(b); assert Addr(l[k + 1]) in next; }
  }

  lemma NotWithin(l: seq<Block>, b: Block, n: nat)
    requires forall j :: 0 <= j <= n && j < |l| ==> l[j] != b
    ensures b in l ==> Place(l, b) > n
  {
    hide Place;
  }

  lemma PredecessorFree(ls: Lists, o: nat, k: nat)
    requires ListsOk(ls) && o < ORDERS && k < |ls[o]|
    ensures ls[o][k] in FreeSet(ls)
  {
  }

  lemma OtherOrder(ls: Lists, o: nat, i: nat, k: nat)
    requires ListsOk(ls) && o < ORDERS && i < ORDERS && i != o && k < |ls[o]|
    ensures forall j :: 0 <= j < |ls[i]| ==> ls[i][j] != ls[o][k]
  {
  }

  lemma EmptyAllocator(bitmap: seq<byte>, ls: Lists)
    requires bitmap == Zeros(OffsetBytes(ORDERS)) && |ls| == ORDERS && forall o :: 0 <= o < ORDERS ==> ls[o] == []
    ensures FreeSet(ls) == {} && BitsSound(bitmap, {}) && BitsComplete(bitmap, {}) && ListBytes(ls, ORDERS) == 0
  {
    hide OffsetBytes, ListBytes, BitPos, Addr;
    forall n: nat ensures !BitAt(bitmap, n) { ZeroByte(n % 8); }
    NothingListed(ls, ORDERS);
  }

  lemma {:induction false} NothingListed(ls: Lists, n: nat)
    requires n <= |ls| && forall o :: 0 <= o < n ==> ls[o] == []
    ensures ListBytes(ls, n) == 0
  {
    if n > 0 { NothingListed(ls, n - 1); }
  }
}
