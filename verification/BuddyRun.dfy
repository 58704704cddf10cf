/** Whole runs of the buddy allocator: any sequence of allocations and of frees of what is held. */
module BuddyRun {
  import opened Bytes
  import opened Blocks
  import opened Regions
  import opened Buddy

  datatype Request = Get(order: nat) | Put(which: nat)

  /** An allocation held by the client. */
  datatype Held = Held(addr: nat, order: nat) {
    function At(): Block { BlockAt(addr, order) }
  }

  /** What a request got: nothing to do also covers an order out of range and a free of nothing. */
  datatype Answer = Granted(addr: nat) | Refused | Done

  /** The client's blocks, on top of those that were out before, are all the blocks out; none is held twice. */
  ghost predicate Holding(held: seq<Held>, live: set<Block>, others: set<Block>) {
    && (forall k :: 0 <= k < |held| ==>
         held[k].order < ORDERS && held[k].addr == Addr(held[k].At()) && held[k].At() in live
         && held[k].At() !in others)
    && (forall j, k :: 0 <= j < k < |held| ==> held[j].At() != held[k].At())
    && others <= live && forall x :: x in live && x !in others ==> HeldBlock(held, x)
  }

  ghost predicate HeldBlock(held: seq<Held>, x: Block) {
    exists k :: 0 <= k < |held| && held[k].At() == x
  }

  ghost predicate Short(lists: Lists) {
    forall k :: 0 <= k < |lists| ==> |lists[k]| <= 4096
  }

  /** Refused only because no aligned stretch of that size was free. */
  ghost predicate Honest(request: Request, answer: Answer, free: set<Block>) {
    request.Get? && answer == Refused ==> forall i: nat :: !WhollyFree(free, Block(request.order, i))
  }

  /** The allocator's bitmap, lists and blocks out, and what the client holds. */
  datatype State = State(bitmap: seq<byte>, lists: Lists, live: set<Block>, held: seq<Held>)

  datatype Step = Step(before: State, request: Request, answer: Answer, after: State)

  /** The step is what the request asks for.  A grant hands out one new block and adds it to what is held; a
      refusal changes nothing, and every free block is smaller; a free puts back exactly the block held there,
      merged as far as the scan gets; anything else does nothing. */
  ghost predicate Served(st: Step) {
    var s, s' := st.before, st.after;
    && (st.answer.Done? <==> st.request.Put? || st.request.order >= ORDERS)
    && match st.request
       case Get(o) =>
         && (st.answer.Done? || st.answer.Refused? ==> s' == s)
         && (st.answer.Refused? ==> forall x :: x in FreeSet(s.lists) ==> x.order < o)
         && (st.answer.Granted? ==>
               && s'.held == s.held + [Held(st.answer.addr, o)]
               && GrantedFrom(o, st.answer.addr, s.lists, s'.lists, s.live, s'.live))
       case Put(n) =>
         if n >= |s.held| then s' == s
         else
           && s'.held == Without(s.held, n) && s'.live == s.live - {s.held[n].At()}
           && FreeSet(s'.lists) == Freeing(s.bitmap, s.lists, FreeSet(s.lists), s.held[n].At())
  }

  /** Granted from a smallest free block that will do, the head of its list. */
  ghost predicate GrantedFrom(o: nat, addr: nat, lists: Lists, lists': Lists, live: set<Block>, live': set<Block>) {
    o < ORDERS
    && exists x :: x in FreeSet(lists) && HandedOut(x, o, addr, FreeSet(lists), FreeSet(lists'), live, live')
                   && CutFrom(lists, lists', x, o)
  }

  /** Each step begins where the one before it ended. */
  ghost predicate Chain(log: seq<Step>, first: State, last: State) {
    if log == [] then last == first
    else Chain(log[..|log| - 1], first, log[|log| - 1].before) && log[|log| - 1].after == last
  }

  /** The log is of these requests and answers. */
  ghost predicate Logged(log: seq<Step>, requests: seq<Request>, answers: seq<Answer>) {
    && |log| == |requests| == |answers|
    && forall k :: 0 <= k < |log| ==> log[k].request == requests[k] && log[k].answer == answers[k] && Served(log[k])
  }

  /** No block overlaps another, the client's blocks are all those out since the start, the pages are the same. */
  ghost predicate Sane(s: State, others: set<Block>, pages: set<Block>) {
    && Holding(s.held, s.live, others) && ListsOk(s.lists) && AllApart(FreeSet(s.lists) + s.live)
    && SameCover(FreeSet(s.lists) + s.live, pages)
  }

  ghost predicate AllShort(log: seq<Step>) {
    forall k :: 0 <= k < |log| ==> Short(log[k].before.lists)
  }

  /** Before each request nothing was left to merge, and it was refused only if it could not be met. */
  ghost predicate AllHonest(log: seq<Step>) {
    forall k :: 0 <= k < |log| ==>
      NoBuddies(FreeSet(log[k].before.lists)) && Honest(log[k].request, log[k].answer, FreeSet(log[k].before.lists))
  }

  /** Every block freed found its way up clear. */
  ghost predicate AllClimb(log: seq<Step>) {
    forall k :: 0 <= k < |log| ==> StepClimbs(log[k])
  }

  ghost predicate StepClimbs(st: Step) {
    st.request.Put? && st.request.which < |st.before.held| ==>
      Climbs(st.before.bitmap, st.before.lists, st.before.held[st.request.which].At())
  }

  /** After no request was anything left to merge. */
  ghost predicate AllMerged(log: seq<Step>) {
    forall k :: 0 <= k < |log| ==> NoBuddies(FreeSet(log[k].after.lists))
  }

  /** One step leaves nothing to merge exactly when the way up was clear. */
  lemma StepMerged(st: Step, others: set<Block>, pages: set<Block>)
    requires Served(st) && Sane(st.before, others, pages) && NoBuddies(FreeSet(st.before.lists))
    ensures NoBuddies(FreeSet(st.after.lists)) <==> StepClimbs(st)
    ensures Honest(st.request, st.answer, FreeSet(st.before.lists))
  {
    hide FreeSet, Freeing, Climbs, NoBuddies, Holding, SameCover, AllApart, WhollyFree, ListsOk, Addr, BlockAt, Rest,
         Bottom;
    var s, s' := st.before, st.after;
    if st.request.Put? {
      if st.request.which < |s.held| { FreeingMaximal(s.bitmap, s.lists, s.held[st.request.which].At()); }
    } else if st.answer.Granted? {
      var o := st.request.order;
      var x :| x in FreeSet(s.lists)
          && HandedOut(x, o, st.answer.addr, FreeSet(s.lists), FreeSet(s'.lists), s.live, s'.live);
      SubsetApart(FreeSet(s.lists) + s.live, FreeSet(s.lists));
      SplitTidy(FreeSet(s.lists), x, o);
    } else if st.answer.Refused? {
      FailsOnlyWhenFull(FreeSet(s.lists), st.request.order);
    }
  }

  /** Over a run: nothing mergeable is ever left exactly when every way up was clear, and then every refusal was
      because no aligned stretch of that size was free. */
  lemma {:induction false} RunMerged(log: seq<Step>, first: State, last: State, others: set<Block>, pages: set<Block>)
    requires Chain(log, first, last) && NoBuddies(FreeSet(first.lists))
    requires forall k :: 0 <= k < |log| ==> Served(log[k]) && Sane(log[k].before, others, pages)
    ensures AllClimb(log) <==> AllMerged(log)
    ensures AllMerged(log) ==> AllHonest(log) && NoBuddies(FreeSet(last.lists))
    decreases |log|
  {
    hide FreeSet, NoBuddies, Served, Sane, Honest, StepClimbs;
    if log != [] {
      var n := |log| - 1;
      var front, st := log[..n], log[n];
      RunMerged(front, first, st.before, others, pages);
      LogFront(log);
      if AllMerged(front) {
        StepMerged(st, others, pages);
        assert log == front + [st];
        HonestGrows(front, st);
      }
    }
  }

  lemma LogFront(log: seq<Step>)
    requires log != []
    ensures var front, st := log[..|log| - 1], log[|log| - 1];
            && (AllClimb(log) <==> AllClimb(front) && StepClimbs(st))
            && (AllMerged(log) <==> AllMerged(front) && NoBuddies(FreeSet(st.after.lists)))
  {
    hide FreeSet, NoBuddies, StepClimbs;
    var front, st := log[..|log| - 1], log[|log| - 1];
    assert forall k :: 0 <= k < |front| ==> front[k] == log[k];
    if AllClimb(front) && StepClimbs(st) {
      forall k | 0 <= k < |log| ensures StepClimbs(log[k]) { if k < |front| { assert StepClimbs(front[k]); } }
    }
    if AllMerged(front) && NoBuddies(FreeSet(st.after.lists)) {
      forall k | 0 <= k < |log| ensures NoBuddies(FreeSet(log[k].after.lists)) {
        if k < |front| { assert NoBuddies(FreeSet(front[k].after.lists)); }
      }
    }
  }

  ghost function Now(a: BuddyAllocator, held: seq<Held>): State
    reads a
  {
    State(a.bitmap, a.lists, a.live, held)
  }

  // Boot

  datatype Region = Region(start: nat, end: nat) {
    function First(): nat { start / 4096 }

    function Last(): nat
      requires start <= end
    {
      start / 4096 + (end - start) / 4096
    }

    predicate Ok() { start <= end <= LIMIT && start % 4096 == 0 }
  }

  /** Page p is a whole page of one of the regions. */
  ghost predicate InRegions(regions: seq<Region>, p: nat) {
    exists j :: 0 <= j < |regions| && regions[j].Ok() && regions[j].First() <= p < regions[j].Last()
  }

  /** Regions with at least a page between them. */
  ghost predicate Spaced(regions: seq<Region>) {
    && (forall j :: 0 <= j < |regions| ==> regions[j].Ok())
    && forall j, k :: 0 <= j < |regions| && 0 <= k < |regions| && j != k ==>
         regions[j].Last() < regions[k].First() || regions[k].Last() < regions[j].First()
  }

  /** The allocator as the memory map leaves it: exactly the regions' whole pages are free, nothing is left to
      merge, and every list is short enough for the next run. */
  method Boot(regions: seq<Region>) returns (a: BuddyAllocator)
    requires Spaced(regions) && |regions| <= 2048
    ensures fresh(a) && a.Valid() && a.Tidy() && Short(a.lists) && a.live == {}
    ensures forall p: nat :: Covers(a.Free(), p) <==> InRegions(regions, p)
  {
    hide BuddyAllocator.Valid, FreeSet, Block.Has, Pieces, Mends, NoBuddies, Covers, AllApart, AllTracked, BitsComplete,
         ListBytes, BlockBytes, InRegions, Vacant;
    a := new BuddyAllocator();
    StartsTidy(a);
    NoRegions(a.Free());
    for i := 0 to |regions|
      invariant fresh(a) && a.Valid() && a.Tidy() && a.live == {} && |a.lists| == ORDERS
      invariant forall k :: 0 <= k < ORDERS ==> |a.lists[k]| <= 2 * i
      invariant forall p: nat :: Covers(a.Free(), p) <==> InRegions(regions[..i], p)
    {
      var r := regions[i];
      ghost var f := a.Free();
      assert f + a.live == f;
      SpacedFromRest(regions, i, f);
      RoomForRegion(f, r.First(), r.Last());
      ListCount(a);
      a.AddRegion(r.start, r.end);
      ListCount(a);
      RegionsGrow(regions, i, f, a.Free());
    }
    assert regions[..|regions|] == regions;
  }

  lemma StartsTidy(a: BuddyAllocator)
    requires a.Valid() && a.Complete() && a.Free() == {} && a.live == {}
    ensures a.Tidy() && |a.lists| == ORDERS && forall k :: 0 <= k < ORDERS ==> |a.lists[k]| == 0
  {
    forall k | 0 <= k < ORDERS ensures |a.lists[k]| == 0 { ListSize(a.lists, k); }
  }

  lemma NoRegions(f: set<Block>)
    requires f == {}
    ensures forall p: nat :: Covers(f, p) <==> InRegions([], p)
  {
  }

  lemma SpacedFromRest(regions: seq<Region>, i: nat, f: set<Block>)
    requires Spaced(regions) && i < |regions| && forall p: nat :: Covers(f, p) <==> InRegions(regions[..i], p)
    ensures regions[i].Ok() && Vacant(f, regions[i].First(), regions[i].Last())
    ensures !Touches(f, regions[i].First(), regions[i].Last())
  {
    hide Covers;
  }

  lemma RoomForRegion(f: set<Block>, c: nat, last: nat)
    requires NoBuddies(f) && Vacant(f, c, last) && !Touches(f, c, last)
    ensures !Mends(f, c, last)
  {
    hide Mends, Vacant, Touches, NoBuddies, Pieces;
    assert f + {} == f;
    ApartRegions(f, {}, c, last);
    StillVacant(f, {}, c, last);
    MaximalExactly(f, c, last);
  }

  lemma RegionsGrow(regions: seq<Region>, i: nat, f: set<Block>, f': set<Block>)
    requires i < |regions| && regions[i].Ok() && f' == f + Pieces(regions[i].First(), regions[i].Last())
    requires forall p: nat :: Covers(f, p) <==> InRegions(regions[..i], p)
    ensures forall p: nat :: Covers(f', p) <==> InRegions(regions[..i + 1], p)
  {
    hide Covers, Pieces;
    var r, front, all := regions[i], regions[..i], regions[..i + 1];
    PiecesCover(r.First(), r.Last());
    forall p: nat ensures Covers(f', p) <==> InRegions(all, p) {
      CoverUnion(f, Pieces(r.First(), r.Last()), p);
      if InRegions(front, p) {
        var j :| 0 <= j < i && front[j].Ok() && front[j].First() <= p < front[j].Last();
        assert all[j] == front[j];
      }
      if r.First() <= p < r.Last() { assert all[i] == r; }
      if InRegions(all, p) {
        var j :| 0 <= j <= i && all[j].Ok() && all[j].First() <= p < all[j].Last();
        if j < i { assert front[j] == all[j]; }
      }
    }
  }

  // What the client holds

  lemma HoldMore(held: seq<Held>, live: set<Block>, others: set<Block>, h: Held)
    requires Holding(held, live, others) && h.order < ORDERS && h.addr == Addr(h.At()) && h.At() !in live
    ensures Holding(held + [h], live + {h.At()}, others)
  {
    hide Addr, BlockAt;
    var held' := held + [h];
    forall x | x in live + {h.At()} && x !in others ensures HeldBlock(held', x) {
      if x == h.At() {
        assert held'[|held|].At() == x;
      } else {
        var k :| 0 <= k < |held| && held[k].At() == x;
        assert held'[k].At() == x;
      }
    }
  }

  lemma HoldLess(held: seq<Held>, live: set<Block>, others: set<Block>, n: nat)
    requires Holding(held, live, others) && n < |held|
    ensures Holding(Without(held, n), live - {held[n].At()}, others)
  {
    hide Addr, BlockAt;
    var held', b := Without(held, n), held[n].At();
    forall k | 0 <= k < |held'| ensures held'[k] == held[Skip(k, n)] { }
    HoldOthers(held, live, others, n, held');
    forall x | x in live - {b} && x !in others ensures HeldBlock(held', x) {
      var k :| 0 <= k < |held| && held[k].At() == x;
      assert held'[if k < n then k else k - 1].At() == x;
    }
  }

  function Skip(k: nat, n: nat): nat { if k < n then k else k + 1 }

  lemma HoldOthers(held: seq<Held>, live: set<Block>, others: set<Block>, n: nat, held': seq<Held>)
    requires Holding(held, live, others) && n < |held| && |held'| == |held| - 1
    requires forall k :: 0 <= k < |held'| ==> held'[k] == held[Skip(k, n)]
    ensures forall k :: 0 <= k < |held'| ==> held'[k].At() != held[n].At() && held'[k] in held
    ensures forall j, k :: 0 <= j < k < |held'| ==> held'[j].At() != held'[k].At()
  {
    hide Addr, BlockAt, HeldBlock;
  }

  lemma NewBlock(live: set<Block>, live': set<Block>, free: set<Block>, free': set<Block>, addr: nat, o: nat)
    returns (b: Block)
    requires exists y :: y in free && HandedOut(y, o, addr, free, free', live, live')
    ensures b == BlockAt(addr, o) && addr == Addr(b) && b !in live && live' == live + {b}
  {
    hide Rest, Bottom, Addr, BlockAt;
    var y :| y in free && HandedOut(y, o, addr, free, free', live, live');
    b := Bottom(y, o);
    AddrRoundTrip(b);
  }

  /** Any run, from any valid state.  The log chains the steps from the first state to the last, each with the
      effect and answer of its request; at every one what is held stays apart and aligned, and free and held
      pages together stay the pages they were.  Nothing is ever left unmerged exactly when each free finds its
      way up clear, as it does while the lists are short enough to search; then no request is refused that
      could be met. */
  method Run(a: BuddyAllocator, requests: seq<Request>)
    returns (answers: seq<Answer>, held: seq<Held>, ghost log: seq<Step>)
    requires a.Valid()
    modifies a
    ensures a.Valid() && Logged(log, requests, answers) && Chain(log, old(Now(a, [])), Now(a, held))
    ensures Sane(Now(a, held), old(a.live), old(a.Free() + a.live))
    ensures forall k :: 0 <= k < |log| ==> Sane(log[k].before, old(a.live), old(a.Free() + a.live))
    ensures forall j, k :: 0 <= j < k < |held| ==> Apart(held[j].At(), held[k].At())
    ensures NoBuddies(old(a.Free())) ==> (AllClimb(log) <==> AllMerged(log)) && (AllMerged(log) ==> AllHonest(log))
    ensures old(a.Tidy()) && AllShort(log) ==> a.Tidy() && AllMerged(log)
  {
    hide BuddyAllocator.Valid, BuddyAllocator.Tidy, Sane, Served, Apart, FreeSet, Honest, NoBuddies, Short, Chain,
         AllApart;
    answers, held, log := [], [], [];
    ghost var others, pages := a.live, a.Free() + a.live;
    SaneAtFirst(a);
    ChainStarts(Now(a, []));
    for i := 0 to |requests|
      invariant a.Valid() && Sane(Now(a, held), others, pages)
      invariant Logged(log, requests[..i], answers) && Chain(log, old(Now(a, [])), Now(a, held))
      invariant forall k :: 0 <= k < |log| ==> Sane(log[k].before, others, pages)
      invariant old(a.Tidy()) && AllShort(log) ==> a.Tidy() && AllMerged(log)
    {
      ghost var before, log0 := Now(a, held), log;
      var answer;
      answer, held := Serve(a, requests[i], held, others, pages);
      ghost var st := Step(before, requests[i], answer, Now(a, held));
      ChainGrows(log0, old(Now(a, [])), st);
      LogGrows(log0, requests, i, answers, st);
      answers := answers + [answer];
      log := log0 + [st];
      ShortEnds(log0, st);
      TidyMeans(a);
      MergedGrows(log0, st);
    }
    assert requests[..|requests|] == requests;
    if NoBuddies(old(a.Free())) { RunMerged(log, old(Now(a, [])), Now(a, held), others, pages); }
    HeldApart(a, held, others, pages);
  }

  lemma ChainStarts(s: State)
    ensures Chain([], s, s)
  {
  }

  lemma ChainGrows(log: seq<Step>, first: State, st: Step)
    requires Chain(log, first, st.before)
    ensures Chain(log + [st], first, st.after)
  {
    assert (log + [st])[..|log|] == log;
  }

  lemma LogGrows(log: seq<Step>, requests: seq<Request>, i: nat, answers: seq<Answer>, st: Step)
    requires i < |requests| && Logged(log, requests[..i], answers) && Served(st) && st.request == requests[i]
    ensures Logged(log + [st], requests[..i + 1], answers + [st.answer])
  {
    hide Served;
  }

  lemma ShortEnds(log: seq<Step>, st: Step)
    ensures AllShort(log + [st]) ==> AllShort(log) && Short(st.before.lists)
  {
    hide Short;
    var log' := log + [st];
    if AllShort(log') {
      forall k | 0 <= k < |log| ensures Short(log[k].before.lists) { assert Short(log'[k].before.lists); }
      assert Short(log'[|log|].before.lists);
    }
  }

  lemma HonestGrows(log: seq<Step>, st: Step)
    ensures AllHonest(log) && NoBuddies(FreeSet(st.before.lists))
            && Honest(st.request, st.answer, FreeSet(st.before.lists)) ==>
              AllHonest(log + [st])
  {
    hide NoBuddies, Honest, FreeSet;
  }

  lemma MergedGrows(log: seq<Step>, st: Step)
    ensures AllMerged(log) && NoBuddies(FreeSet(st.after.lists)) ==> AllMerged(log + [st])
  {
    hide NoBuddies, FreeSet;
  }

  lemma TidyMeans(a: BuddyAllocator)
    ensures a.Tidy() ==> NoBuddies(FreeSet(a.lists))
  {
  }

  lemma SaneAtFirst(a: BuddyAllocator)
    requires a.Valid()
    ensures Sane(Now(a, []), a.live, a.Free() + a.live)
  {
    hide FreeSet, AllApart, Addr, SameCover;
    NothingHeld(a.live);
    SameCoverSelf(a.Free() + a.live);
  }

  /** One request. */
  method Serve(a: BuddyAllocator, request: Request, held: seq<Held>, ghost others: set<Block>, ghost pages: set<Block>)
    returns (answer: Answer, held': seq<Held>)
    requires a.Valid() && Sane(Now(a, held), others, pages)
    modifies a
    ensures a.Valid() && Sane(Now(a, held'), others, pages)
    ensures Served(Step(old(Now(a, held)), request, answer, Now(a, held')))
    ensures NoBuddies(old(a.Free())) ==> Honest(request, answer, old(a.Free()))
    ensures old(a.Tidy()) && old(Short(a.lists)) ==> a.Tidy()
  {
    hide BuddyAllocator.Valid, BuddyAllocator.Tidy, Holding, Addr, HandedOut, SameCover, BlockBytes, BlockAt, AllApart,
         Coalesce, WhollyFree, FreeSet, Freeing, Climbs, Marked, NoBuddies;
    ghost var free, live := a.Free(), a.live;
    match request {
      case Get(o) =>
        if o >= ORDERS {
          return Done, held;
        }
        var r := a.Allocate(o);
        ListsApart(a);
        CoverTrans(a.Free() + a.live, free + live, pages);
        if r.None? {
          if NoBuddies(free) { FailsOnlyWhenFull(free, o); }
          return Refused, held;
        }
        ghost var b := NewBlock(live, a.live, free, a.Free(), r.value, o);
        HoldMore(held, live, others, Held(r.value, o));
        return Granted(r.value), held + [Held(r.value, o)];
      case Put(n) =>
        if n >= |held| {
          return Done, held;
        }
        HeldIs(held, a.live, others, n);
        HoldLess(held, a.live, others, n);
        ListCount(a);
        a.Deallocate(held[n].addr, held[n].order, held[n].At());
        ListsApart(a);
        CoverTrans(a.Free() + a.live, free + live, pages);
        return Done, Without(held, n);
    }
  }

  lemma ListsApart(a: BuddyAllocator)
    requires a.Valid()
    ensures AllApart(a.Free() + a.live) && ListsOk(a.lists)
  {
  }

  lemma ListCount(a: BuddyAllocator)
    requires a.Valid()
    ensures |a.lists| == ORDERS
  {
  }

  lemma HeldIs(held: seq<Held>, live: set<Block>, others: set<Block>, n: nat)
    requires Holding(held, live, others) && n < |held|
    ensures held[n].At() in live && held[n].order < ORDERS && held[n].addr == Addr(held[n].At())
            && held[n].At().order == held[n].order
  {
  }

  lemma NothingHeld(live: set<Block>)
    ensures Holding([], live, live)
  {
  }

  lemma CoverTrans(s: set<Block>, t: set<Block>, u: set<Block>)
    requires SameCover(s, t) && SameCover(t, u)
    ensures SameCover(s, u)
  {
  }

  lemma HeldApart(a: BuddyAllocator, held: seq<Held>, others: set<Block>, pages: set<Block>)
    requires Sane(Now(a, held), others, pages)
    ensures forall j, k :: 0 <= j < k < |held| ==> Apart(held[j].At(), held[k].At())
  {
    hide Apart, FreeSet, Addr, BlockAt;
  }
}
