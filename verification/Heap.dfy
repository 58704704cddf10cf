/** The kernel's global allocator: every request goes to a slab cache or straight to the buddy allocator,
    and what is handed out never overlaps. */
module Heap {
  import Arith
  import opened Bytes
  import opened Blocks
  import opened Regions
  import opened Buddy
  import opened Slab

  /** A request: a size and an alignment of 2^alignExp. */
  datatype Layout = Layout(size: nat, alignExp: nat) {
    function Align(): nat { Pow2(alignExp) }

    function Need(): nat { Arith.Max(size, Align()) }

    predicate Small() { Need() <= MAX_SLAB }

    predicate InClass(i: nat) { Small() && SlabIndex(Need()) == Some(i) }

    function Order(): nat { SizeToOrder(Need()) - 12 }
  }

  datatype Outcome = Null | Ptr(addr: nat) | Panic

  /** The block a large allocation is. */
  function Large(p: nat, l: Layout): Block { BlockAt(p, l.Order()) }

  /** The buddy block an allocation lies in. */
  function Home(p: nat, l: Layout): Block { if l.Small() then Block(0, p / 4096) else Large(p, l) }

  /** The bytes an allocation may use. */
  function Room(l: Layout): nat {
    if !l.Small() then BlockBytes(l.Order())
    else match SlabIndex(l.Need()) case Some(i) => SIZES[i] case None => 0
  }

  type PageSets = seq<set<Block>>
  type Objects = seq<set<nat>>

  /** The caches' pages are blocks of the buddy allocator, no two caches share one, and used objects lie in
      them. */
  ghost predicate PagesOk(pages: PageSets, used: Objects, live: set<Block>) {
    && |pages| == |used| == |SIZES|
    && (forall i :: 0 <= i < |pages| ==> pages[i] <= live)
    && (forall i, j :: 0 <= i < j < |pages| ==> pages[i] !! pages[j])
    && forall i, a :: 0 <= i < |pages| && a in used[i] ==> Slot(pages[i], SIZES[i], a)
  }

  ghost predicate InNoCache(pages: PageSets, b: Block) {
    forall i :: 0 <= i < |pages| ==> b !in pages[i]
  }

  ghost predicate LargeOk(pages: PageSets, live: set<Block>, p: nat, l: Layout) {
    l.Small() || (Large(p, l) in live && p == Addr(Large(p, l)) && InNoCache(pages, Large(p, l)))
  }

  /** What is handed out is what the caches and the buddy allocator think is handed out. */
  ghost predicate GivenOk(pages: PageSets, used: Objects, live: set<Block>, given: map<nat, Layout>) {
    && (forall i: nat, a: nat :: i < |used| ==> (a in used[i] <==> a in given && given[a].InClass(i)))
    && forall p :: p in given ==> LargeOk(pages, live, p, given[p])
  }

  ghost predicate Agree(pages: PageSets, used: Objects, live: set<Block>, given: map<nat, Layout>) {
    AllApart(live) && PagesOk(pages, used, live) && GivenOk(pages, used, live, given)
  }

  ghost predicate InCache(pages: PageSets, b: Block) {
    exists i :: 0 <= i < |pages| && b in pages[i]
  }

  /** Only cache i may have grown, and by one page exactly if it had to. */
  ghost predicate GrewBy(pages: PageSets, pages': PageSets, i: nat, empty: bool) {
    && i < |pages| == |pages'| && pages' == pages[i := pages'[i]]
    && if empty then |pages'[i]| == |pages[i]| + 1 else pages'[i] == pages[i]
  }

  ghost predicate IsLarge(given: map<nat, Layout>, b: Block) {
    Addr(b) in given && !given[Addr(b)].Small() && given[Addr(b)].Order() == b.order
  }

  /** Every block out of the buddy allocator has one owner: it was out before, it is a cache's page, or it is a
      large allocation. */
  ghost predicate Owned(pages: PageSets, live: set<Block>, given: map<nat, Layout>, before: set<Block>) {
    && (forall b :: b in live ==> b in before || InCache(pages, b) || IsLarge(given, b))
    && forall b :: b in before ==> b in live && !InCache(pages, b) && !IsLarge(given, b)
  }

  // Allocations do not overlap

  lemma SmallHasClass(l: Layout)
    requires l.Small()
    ensures SlabIndex(l.Need()).Some?
    ensures var i := SlabIndex(l.Need()).value;
            l.InClass(i) && i < |SIZES| && Room(l) == SIZES[i] && SIZES[i] >= l.Need()
  {
    IndexExists(l.Need());
  }

  lemma GivenHome(pages: PageSets, used: Objects, live: set<Block>, given: map<nat, Layout>, p: nat)
    requires Agree(pages, used, live, given) && p in given
    ensures Home(p, given[p]) in live
    ensures given[p].Small() ==> Aligned(p, Room(given[p])) && p in used[SlabIndex(given[p].Need()).value]
    ensures !given[p].Small() ==> p == Addr(Home(p, given[p]))
  {
    hide AllApart, Addr, SlabIndex, BlockAt;
    if given[p].Small() {
      SmallHasClass(given[p]);
      var i := SlabIndex(given[p].Need()).value;
      assert p in used[i] && Slot(pages[i], SIZES[i], p);
    }
  }

  lemma {:induction false} ClassDivides(i: nat)
    requires i < |SIZES|
    ensures Divides(SIZES[i])
  {
    SizesArePowers(i);
    Page();
    PowersAdd(9 - i, 3 + i);
    Multiple(Pow2(9 - i), Pow2(3 + i));
  }

  /** An object does not cross its page's end. */
  lemma FitsInPage(p: nat, size: nat)
    requires Divides(size) && Aligned(p, size)
    ensures p + size <= 4096 * (p / 4096) + 4096
  {
    var k, end := 4096 / size, p / 4096 + 1;
    Arith.DivMod(4096, size);
    Arith.DivMod(p, size);
    assert 4096 * end == (k * end) * size;
    if p / size >= k * end { Arith.MulMono(k * end, p / size, size); }
    Arith.MulMono(p / size + 1, k * end, size);
    assert (p / size + 1) * size == p / size * size + size;
  }

  lemma WithinHome(pages: PageSets, used: Objects, live: set<Block>, given: map<nat, Layout>, p: nat)
    requires Agree(pages, used, live, given) && p in given
    ensures var b := Home(p, given[p]);
            b in live && Addr(b) <= p && p + Room(given[p]) <= Addr(b) + BlockBytes(b.order)
  {
    hide Agree, Slab.Aligned, SlabIndex;
    GivenHome(pages, used, live, given, p);
    if given[p].Small() {
      SmallHasClass(given[p]);
      ClassDivides(SlabIndex(given[p].Need()).value);
      FitsInPage(p, Room(given[p]));
    }
  }

  lemma BytesApart(x: Block, y: Block)
    requires Apart(x, y)
    ensures Addr(x) + BlockBytes(x.order) <= Addr(y) || Addr(y) + BlockBytes(y.order) <= Addr(x)
  {
    hide Block.First, Block.Has;
    FirstIsHere(x);
    FirstIsHere(y);
    HasRange(x, y.First());
    HasRange(y, x.First());
  }

  lemma ObjectsApart(p: nat, q: nat, size: nat)
    requires Aligned(p, size) && Aligned(q, size) && p < q
    ensures p + size <= q
  {
    Arith.DivMod(p, size);
    Arith.DivMod(q, size);
    if p / size >= q / size { Arith.MulMono(q / size, p / size, size); }
    Arith.MulMono(p / size + 1, q / size, size);
    assert (p / size + 1) * size == p / size * size + size;
  }

  /** No two live allocations share a byte. */
  lemma NoOverlap(pages: PageSets, used: Objects, live: set<Block>, given: map<nat, Layout>, p: nat, q: nat)
    requires Agree(pages, used, live, given) && p in given && q in given && p < q
    ensures p + Room(given[p]) <= q
  {
    hide Slab.Aligned, SlabIndex, Addr, BlockBytes, Room, Home, GivenOk, PagesOk;
    WithinHome(pages, used, live, given, p);
    WithinHome(pages, used, live, given, q);
    var x, y := Home(p, given[p]), Home(q, given[q]);
    if x != y {
      BytesApart(x, y);
      RoomPositive(given[q]);
      RoomPositive(given[p]);
    } else {
      SameHome(pages, used, live, given, p, q);
    }
  }

  lemma RoomPositive(l: Layout)
    ensures Room(l) >= l.Need() > 0
  {
    hide SlabIndex, BlockBytes;
    if l.Small() { SmallHasClass(l); } else { OrderIsLeast(l.Need(), l.Order()); }
  }

  lemma SameHome(pages: PageSets, used: Objects, live: set<Block>, given: map<nat, Layout>, p: nat, q: nat)
    requires Agree(pages, used, live, given) && p in given && q in given && p < q
             && Home(p, given[p]) == Home(q, given[q])
    ensures p + Room(given[p]) <= q
  {
    hide Slab.Aligned, SlabIndex, Addr, BlockBytes, Room, AllApart, BlockAt;
    GivenHome(pages, used, live, given, p);
    GivenHome(pages, used, live, given, q);
    var l, m := given[p], given[q];
    if l.Small() { SmallHasClass(l); }
    if m.Small() { SmallHasClass(m); }
    if l.Small() && m.Small() {
      ObjectsApart(p, q, Room(l));
    }
  }

  // What each operation does to the account

  /** An address inside a block that is not in the account's blocks has not been handed out. */
  lemma FreshAddress(pages: PageSets, used: Objects, live: set<Block>, given: map<nat, Layout>, b: Block, p: nat)
    requires Agree(pages, used, live, given) && AllApart(live + {b}) && b !in live && b.Has(p / 4096)
    ensures p !in given
  {
    hide Addr, Block.Has, SlabIndex, BlockAt;
    if p in given {
      GivenHome(pages, used, live, given, p);
      PageOfHome(p, given[p]);
    }
  }

  lemma PageOfHome(p: nat, l: Layout)
    requires l.Small() || p == Addr(Large(p, l))
    ensures Home(p, l).Has(p / 4096)
  {
    if l.Small() { assert Up(p / 4096, 0) == p / 4096; } else { FirstIsHere(Large(p, l)); }
  }

  /** An address in a cache's page that the cache had not handed out has not been handed out. */
  lemma FreshObject(pages: PageSets, used: Objects, live: set<Block>, given: map<nat, Layout>, i: nat, p: nat)
    requires Agree(pages, used, live, given) && i < |SIZES| && Block(0, p / 4096) in pages[i] && p !in used[i]
    ensures p !in given
  {
    hide Addr, Block.Has, SlabIndex, BlockAt;
    if p in given {
      GivenHome(pages, used, live, given, p);
      PageOfHome(p, given[p]);
      PageOfHome(p, Layout(0, 0));
      assert Home(p, Layout(0, 0)) == Block(0, p / 4096) by { OneByte(); }
      assert Home(p, given[p]) == Block(0, p / 4096);
      if given[p].Small() { SmallHasClass(given[p]); }
    }
  }

  lemma OneByte()
    ensures Layout(0, 0).Small()
  {
  }

  lemma TookSmall(pages: PageSets, used: Objects, live: set<Block>, given: map<nat, Layout>, i: nat,
                  gained: set<Block>, live': set<Block>, p: nat, l: Layout)
    requires Agree(pages, used, live, given) && i < |SIZES| && l.InClass(i)
    requires Gained(pages[i], gained, live, live') && AllApart(live') && Slot(gained, SIZES[i], p) && p !in used[i]
    ensures p !in given && Agree(pages[i := gained], used[i := used[i] + {p}], live', given[p := l])
  {
    hide Addr, Block.Has, SlabIndex, BlockAt, AllApart, Slab.Aligned;
    var b := Block(0, p / 4096);
    if b in pages[i] {
      FreshObject(pages, used, live, given, i, p);
    } else {
      SubsetApart(live', live + {b});
      OneByte();
      PageOfHome(p, Layout(0, 0));
      FreshAddress(pages, used, live, given, b, p);
    }
    assert PagesOk(pages[i := gained], used[i := used[i] + {p}], live');
  }

  lemma GaveSmall(pages: PageSets, used: Objects, live: set<Block>, given: map<nat, Layout>, i: nat, p: nat)
    requires Agree(pages, used, live, given) && p in given && given[p].InClass(i) && i < |SIZES|
    ensures Agree(pages, used[i := used[i] - {p}], live, given - {p})
  {
    hide Addr, SlabIndex, BlockAt, AllApart, Slot;
  }

  lemma TookLarge(pages: PageSets, used: Objects, live: set<Block>, given: map<nat, Layout>, b: Block, l: Layout)
    requires Agree(pages, used, live, given) && b !in live && AllApart(live + {b}) && !l.Small() && b.order == l.Order()
    ensures Addr(b) !in given && Agree(pages, used, live + {b}, given[Addr(b) := l])
            && Aligned(Addr(b), BlockBytes(b.order))
  {
    hide Addr, SlabIndex, AllApart, Slot, BlockBytes;
    AddrRoundTrip(b);
    Multiple(b.index, BlockBytes(b.order));
    FirstIsHere(b);
    assert Addr(b) / 4096 == b.First() by { AddrPage(b); }
    FreshAddress(pages, used, live, given, b, Addr(b));
  }

  lemma AddrPage(b: Block)
    ensures Addr(b) / 4096 == b.First()
  {
  }

  lemma GaveLarge(pages: PageSets, used: Objects, live: set<Block>, given: map<nat, Layout>, p: nat)
    requires Agree(pages, used, live, given) && p in given && !given[p].Small()
    ensures Large(p, given[p]) in live && p == Addr(Large(p, given[p]))
    ensures Agree(pages, used, live - {Large(p, given[p])}, given - {p})
  {
    hide Addr, SlabIndex, BlockAt, AllApart, Slot;
    SubsetApart(live, live - {Large(p, given[p])});
  }

  // What each operation does to the owners

  lemma OwnSmall(pages: PageSets, live: set<Block>, given: map<nat, Layout>, before: set<Block>, i: nat,
                 gained: set<Block>, live': set<Block>, p: nat, l: Layout)
    requires Owned(pages, live, given, before) && i < |pages| && Gained(pages[i], gained, live, live')
    requires l.Small() && p !in given
    ensures Owned(pages[i := gained], live', given[p := l], before)
  {
    hide Addr;
    var pages' := pages[i := gained];
    forall b ensures InCache(pages', b) <==> InCache(pages, b) || b in gained - pages[i] {
      if k :| 0 <= k < |pages| && b in pages[k] { assert b in pages'[k]; }
      if b in gained { assert b in pages'[i]; }
    }
    forall b ensures IsLarge(given[p := l], b) == IsLarge(given, b) { }
  }

  lemma DisownSmall(pages: PageSets, live: set<Block>, given: map<nat, Layout>, before: set<Block>, p: nat)
    requires Owned(pages, live, given, before) && p in given && given[p].Small()
    ensures Owned(pages, live, given - {p}, before)
  {
    hide Addr, InCache;
    forall b ensures IsLarge(given - {p}, b) == IsLarge(given, b) { }
  }

  lemma OwnLarge(pages: PageSets, live: set<Block>, given: map<nat, Layout>, before: set<Block>, b: Block, l: Layout)
    requires Owned(pages, live, given, before) && b !in live && Addr(b) !in given
    requires !l.Small() && l.Order() == b.order
    ensures Owned(pages, live + {b}, given[Addr(b) := l], before)
  {
    hide Addr, InCache, BlockAt;
    AddrRoundTrip(b);
    forall x ensures IsLarge(given[Addr(b) := l], x) <==> IsLarge(given, x) || x == b { AddrRoundTrip(x); }
  }

  lemma DisownLarge(pages: PageSets, live: set<Block>, given: map<nat, Layout>, before: set<Block>, p: nat)
    requires Owned(pages, live, given, before) && p in given && !given[p].Small()
    requires p == Addr(Large(p, given[p]))
    ensures Large(p, given[p]) !in before && Owned(pages, live - {Large(p, given[p])}, given - {p}, before)
  {
    hide Addr, InCache;
    var b := Large(p, given[p]);
    assert IsLarge(given, b);
    forall x ensures IsLarge(given - {p}, x) <==> IsLarge(given, x) && x != b { AddrRoundTrip(x); }
  }

  /** A multiple of 2^m is a multiple of every smaller power of two. */
  lemma AlignedDown(p: nat, m: nat, k: nat)
    requires k <= m && Aligned(p, Pow2(m))
    ensures Aligned(p, Pow2(k))
  {
    hide Pow2;
    Arith.DivMod(p, Pow2(m));
    PowersAdd(m - k, k);
    assert p == (p / Pow2(m) * Pow2(m - k)) * Pow2(k);
    Multiple(p / Pow2(m) * Pow2(m - k), Pow2(k));
  }

  lemma {:induction false} PowMono(a: nat, b: nat)
    ensures Pow2(a) <= Pow2(b) <==> a <= b
  {
    if a > 0 && b > 0 { PowMono(a - 1, b - 1); }
  }

  /** An address aligned to its room is aligned as asked. */
  lemma AlignedAsAsked(p: nat, l: Layout)
    requires Aligned(p, Room(l))
    ensures Aligned(p, l.Align())
  {
    hide Pow2, SlabIndex, Slab.Aligned, BlockBytes;
    RoomPositive(l);
    var m := RoomIsPower(l);
    PowMono(l.alignExp, m);
    AlignedDown(p, m, l.alignExp);
  }

  lemma RoomIsPower(l: Layout) returns (m: nat)
    ensures Room(l) == Pow2(m)
  {
    hide Pow2, SlabIndex;
    if l.Small() {
      SmallHasClass(l);
      var i := SlabIndex(l.Need()).value;
      SizesArePowers(i);
      m := 3 + i;
    } else {
      Page();
      PowersAdd(12, l.Order());
      m := 12 + l.Order();
    }
  }

  method NewCaches() returns (cs: seq<SlabCache>)
    ensures |cs| == |SIZES| && fresh(cs) && forall i, j :: 0 <= i < j < |cs| ==> cs[i] != cs[j]
    ensures forall i :: 0 <= i < |cs| ==> cs[i].Valid(SIZES[i]) && cs[i].pages == {} && cs[i].used == {}
  {
    hide SlabCache.Valid;
    cs := [];
    for k := 0 to |SIZES|
      invariant |cs| == k && fresh(cs) && forall i, j :: 0 <= i < j < |cs| ==> cs[i] != cs[j]
      invariant forall i :: 0 <= i < |cs| ==> cs[i].Valid(SIZES[i]) && cs[i].pages == {} && cs[i].used == {}
    {
      ClassDivides(k);
      var c := new SlabCache(SIZES[k]);
      cs := cs + [c];
    }
  }

  class SlabAllocator {
    const caches: seq<SlabCache>
    const buddy: BuddyAllocator
    ghost var given: map<nat, Layout>
    ghost const before: set<Block>  // the blocks out when the caches were set up

    constructor (buddy: BuddyAllocator)
      requires buddy.Valid()
      ensures Valid() && given == map[] && this.buddy == buddy && fresh(caches) && before == buddy.live
    {
      hide BuddyAllocator.Valid, SlabCache.Valid, Agree;
      var cs := NewCaches();
      caches, this.buddy, given, before := cs, buddy, map[], buddy.live;
      new;
      LiveApart(buddy);
      NothingGiven(Pages(), Used(), buddy.live);
    }

    ghost predicate Distinct() {
      |caches| == |SIZES| && forall i, j :: 0 <= i < j < |caches| ==> caches[i] != caches[j]
    }

    ghost function Pages(): (r: PageSets)
      reads caches
      ensures |r| == |caches| && forall i :: 0 <= i < |r| ==> r[i] == caches[i].pages
    {
      seq(|caches|, i requires 0 <= i < |caches| reads caches => caches[i].pages)
    }

    ghost function Used(): (r: Objects)
      reads caches
      ensures |r| == |caches| && forall i :: 0 <= i < |r| ==> r[i] == caches[i].used
    {
      seq(|caches|, i requires 0 <= i < |caches| reads caches => caches[i].used)
    }

    ghost predicate Valid()
      reads this, caches, buddy
    {
      && Distinct() && buddy.Valid() && (forall i :: 0 <= i < |caches| ==> caches[i].Valid(SIZES[i]))
      && Agree(Pages(), Used(), buddy.live, given) && Owned(Pages(), buddy.live, given, before)
    }

    /** Serve a request from its size class, or as a buddy block of its own. */
    method Allocate(l: Layout) returns (r: Outcome)
      requires Valid()
      modifies this, caches, buddy
      ensures Valid()
      ensures r.Panic? <==> l.Need() > BlockBytes(TOP)
      ensures r.Ptr? ==> r.addr !in old(given) && given == old(given)[r.addr := l] && Aligned(r.addr, l.Align())
      ensures !r.Ptr? ==> given == old(given)
      ensures r.Null? ==> forall x :: x in buddy.Free() ==> !l.Small() && x.order < l.Order()
      ensures !r.Ptr? ==> buddy.Free() == old(buddy.Free()) && buddy.live == old(buddy.live) && Pages() == old(Pages())
      ensures r.Ptr? && !l.Small() ==> buddy.live == old(buddy.live) + {Large(r.addr, l)} && Pages() == old(Pages())
      ensures forall i: nat :: r.Ptr? && i < |caches| && l.InClass(i) ==>
                && GrewBy(old(Pages()), Pages(), i, old(caches[i].free == []))
                && Gained(old(caches[i].pages), caches[i].pages, old(buddy.live), buddy.live)
                && (old(caches[i].free != []) ==> unchanged(buddy))
    {
      hide BuddyAllocator.Valid, SlabCache.Valid, Agree, BlockBytes, SlabIndex, Slab.Aligned, Room, Layout.Align,
           Gained, Owned;
      if !l.Small() {
        r := AllocateLarge(l);
        return;
      }
      SmallIsSmall(l);
      SmallHasClass(l);
      var i := SlabIndex(l.Need()).value;
      LivePages(Pages(), Used(), buddy.live, given, i);
      ghost var pages, used, live := Pages(), Used(), buddy.live;
      var obj := caches[i].Allocate(SIZES[i], buddy);
      assert Pages() == pages[i := caches[i].pages] && Used() == used[i := caches[i].used];
      LiveApart(buddy);
      if obj.None? {
        assert Pages() == pages && Used() == used;
        SameLive(caches[i].pages, live, buddy.live);
        return Null;
      }
      TookSmall(pages, used, live, given, i, caches[i].pages, buddy.live, obj.value, l);
      OwnSmall(pages, live, given, before, i, caches[i].pages, buddy.live, obj.value, l);
      SlotAligned(caches[i].pages, SIZES[i], obj.value);
      AlignedAsAsked(obj.value, l);
      given := given[obj.value := l];
      return Ptr(obj.value);
    }

    method AllocateLarge(l: Layout) returns (r: Outcome)
      requires Valid() && !l.Small()
      modifies this, buddy
      ensures Valid()
      ensures r.Panic? <==> l.Need() > BlockBytes(TOP)
      ensures r.Ptr? ==> r.addr !in old(given) && given == old(given)[r.addr := l] && Aligned(r.addr, l.Align())
      ensures !r.Ptr? ==> given == old(given)
      ensures r.Null? ==> forall x :: x in buddy.Free() ==> x.order < l.Order()
      ensures !r.Ptr? ==> buddy.Free() == old(buddy.Free()) && buddy.live == old(buddy.live)
      ensures r.Ptr? ==> buddy.live == old(buddy.live) + {Large(r.addr, l)}
    {
      hide BuddyAllocator.Valid, SlabCache.Valid, Agree, BlockBytes, SlabIndex, Slab.Aligned, Layout.Align,
           BuddyAllocator.Tidy, HandedOut, Addr, Owned;
      OrderIsLeast(l.Need(), TOP);
      var order := SizeToOrder(l.Need());
      if order - 12 >= ORDERS {
        return Panic;
      }
      ghost var pages, used, live, free := Pages(), Used(), buddy.live, buddy.Free();
      var addr := buddy.Allocate(order - 12);
      assert Pages() == pages && Used() == used;
      if addr.None? {
        return Null;
      }
      ghost var b := OneBlockMore(live, buddy.live, free, buddy.Free(), addr.value, order - 12);
      LiveApart(buddy);
      TookLarge(pages, used, live, given, b, l);
      OwnLarge(pages, live, given, before, b, l);
      AlignedAsAsked(addr.value, l);
      given := given[addr.value := l];
      return Ptr(addr.value);
    }

    /** Give an allocation back; nothing happens for a null pointer. */
    method Deallocate(ptr: Option<nat>, l: Layout)
      requires Valid() && (ptr.Some? ==> ptr.value in given && given[ptr.value] == l)
      modifies this, caches, buddy
      ensures Valid() && given == if ptr.Some? then old(given) - {ptr.value} else old(given)
      ensures ptr.None? || l.Small() ==> unchanged(buddy)
      ensures ptr.Some? && !l.Small() ==>
                var b := Large(ptr.value, l);
                && buddy.live == old(buddy.live) - {b} && SameCover(buddy.Free(), old(buddy.Free()) + {b})
                && buddy.Free() == Freeing(old(buddy.bitmap), old(buddy.lists), old(buddy.Free()), b)
      ensures Pages() == old(Pages())
    {
      hide BuddyAllocator.Valid, SlabCache.Valid, Agree, BlockBytes, SlabIndex, Slab.Aligned, Room, Layout.Align,
           BuddyAllocator.Tidy, Coalesce, Addr, Owned, SameCover, Freeing, Climbs, NoBuddies, BuddyAllocator.Searchable;
      if ptr.None? {
        return;
      }
      var p := ptr.value;
      ghost var pages, used, live := Pages(), Used(), buddy.live;
      if !l.Small() {
        GaveLarge(pages, used, live, given, p);
        DisownLarge(pages, live, given, before, p);
        OrderFits(buddy, Large(p, l));
        buddy.Deallocate(p, SizeToOrder(l.Need()) - 12, Large(p, l));
        assert Pages() == pages && Used() == used;
        given := given - {p};
        return;
      }
      SmallHasClass(l);
      var i := SlabIndex(l.Need()).value;
      GivenHome(pages, used, live, given, p);
      GaveSmall(pages, used, live, given, i, p);
      DisownSmall(pages, live, given, before, p);
      caches[i].Deallocate(p, SIZES[i]);
      assert Pages() == pages && Used() == used[i := used[i] - {p}];
      given := given - {p};
    }
  }

  lemma NothingGiven(pages: PageSets, used: Objects, live: set<Block>)
    requires AllApart(live) && |pages| == |used| == |SIZES|
    requires forall i :: 0 <= i < |SIZES| ==> pages[i] == {} && used[i] == {}
    ensures Agree(pages, used, live, map[])
  {
  }

  lemma SmallIsSmall(l: Layout)
    requires l.Small()
    ensures l.Need() <= BlockBytes(TOP)
  {
  }

  lemma LivePages(pages: PageSets, used: Objects, live: set<Block>, given: map<nat, Layout>, i: nat)
    requires Agree(pages, used, live, given) && i < |SIZES|
    ensures pages[i] <= live
  {
  }

  lemma LiveApart(buddy: BuddyAllocator)
    requires buddy.Valid()
    ensures AllApart(buddy.live)
  {
    SubsetApart(buddy.Free() + buddy.live, buddy.live);
  }

  lemma SameLive(pages: set<Block>, live: set<Block>, live': set<Block>)
    requires Gained(pages, pages, live, live')
    ensures live == live'
  {
  }

  lemma SlotAligned(pages: set<Block>, size: nat, a: nat)
    requires Slot(pages, size, a)
    ensures Aligned(a, size)
  {
  }

  lemma OrderFits(buddy: BuddyAllocator, b: Block)
    requires buddy.Valid() && b in buddy.live
    ensures b.order < ORDERS
  {
  }

  lemma OneBlockMore(live: set<Block>, live': set<Block>, free: set<Block>, free': set<Block>, addr: nat, o: nat)
    returns (b: Block)
    requires exists y :: y in free && HandedOut(y, o, addr, free, free', live, live')
    ensures b.order == o && addr == Addr(b) && b == BlockAt(addr, o) && b !in live && live' == live + {b}
  {
    hide Rest, Bottom, Addr, BlockAt;
    var y :| y in free && HandedOut(y, o, addr, free, free', live, live');
    b := Bottom(y, o);
    AddrRoundTrip(b);
  }
}
