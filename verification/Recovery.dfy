/** Mounting after a crash: from any image a crash can leave, the repair passes give back a volume with
    every reachable file untouched, exact counters and no leaks. */
module Recovery {
  import opened Bytes
  import opened Geometry
  import opened Inode
  import opened Image
  import opened Tree
  import opened DirBlock
  import opened Consistency
  import opened Counters
  import opened Volume
  import opened Growth
  import opened Listing
  import opened Files
  import opened Content
  import opened Directories
  import opened Names
  import opened Walk
  import opened Repair
  import opened Reach
  import opened Orphans

  /** The inodes the root reaches. */
  ghost function LiveSet(g: Geo, d: Img): set<nat>
    requires Layout(g, d)
  {
    set i | 1 <= i <= g.sb.inodesCount && Live(g, d, i)
  }

  /** In a consistent volume everything listed belongs to the set. */
  lemma ListsInSet(g: Geo, d: Img, s: set<nat>, i: nat, j: nat)
    requires DiskInv(g, d, s) && i in s && Lists(g, d, i, j)
    ensures j in s
  {
    hide Inv, Geo.Valid, DescMatches, DirListing, NodeOf, Rec;
    var nodes := DiskNodes(g, d, s);
    var l := DirListing(g, d, DiskNode(g, d, i));
    var e :| e in l && e.ino == j;
    var k :| 0 <= k < |l| && l[k] == e;
    ListingInSet(g, d, nodes, i, k);
  }

  lemma LiveInSet(g: Geo, d: Img, s: set<nat>, j: nat)
    requires DiskInv(g, d, s) && Reaches(g, d, ROOT_INO, j)
    ensures j in s
  {
    hide Geo.Valid, DescMatches, Lists, DiskInv;
    RootInSet(g, d, s);
    var path :| Chain(g, d, path) && path[0] == ROOT_INO && path[|path| - 1] == j;
    var all := iset i | i in s;
    forall i: nat, k: nat | i in all && Lists(g, d, i, k) ensures k in all { ListsInSet(g, d, s, i, k); }
    ClosedHoldsChain(g, d, all, path);
  }

  lemma RootInSet(g: Geo, d: Img, s: set<nat>)
    requires DiskInv(g, d, s)
    ensures Layout(g, d) && ROOT_INO in s && forall i :: i in s ==> g.sb.HasInode(i)
  {
    hide Inv, Geo.Valid, DescMatches, NodeOf, Rec;
    InvValid(g, d, DiskNodes(g, d, s));
  }

  /** A live inode's children are live. */
  lemma LiveClosed(g: Geo, d: Img, i: nat, j: nat)
    requires Layout(g, d) && Live(g, d, i) && Lists(g, d, i, j) && g.sb.HasInode(j)
    ensures Live(g, d, j)
  {
    hide Geo.Valid, DescMatches, Lists, Reaches;
    ReachesSnoc(g, d, ROOT_INO, i, j);
  }

  /** The live part of a consistent volume is itself consistent. */
  lemma LivePart(g: Geo, d: Img, s: set<nat>)
    requires DiskInv(g, d, s)
    ensures LiveSet(g, d) <= s && DiskInv(g, d, LiveSet(g, d))
  {
    hide Geo.Valid, DescMatches, Reaches, Inv, NodeOf, Rec, Lists;
    RootInSet(g, d, s);
    var live := LiveSet(g, d);
    forall i | i in live ensures i in s { LiveInSet(g, d, s, i); }
    ReachesSelf(g, d, ROOT_INO);
    var nodes, nodes' := DiskNodes(g, d, s), DiskNodes(g, d, live);
    assert forall i :: i in nodes' ==> i in nodes && nodes'[i] == nodes[i];
    InvValid(g, d, nodes);
    LiveDirs(g, d, s);
    SubsetTrees(g, d, nodes', nodes);
    SubtreesInv(g, d, nodes', nodes);
  }

  lemma SubsetTrees(g: Geo, d: Img, nodes': map<nat, Node>, nodes: map<nat, Node>)
    requires g.Valid() && forall i :: i in nodes' ==> i in nodes && nodes'[i] == nodes[i]
    ensures Subtrees(g, d, nodes', nodes)
  {
    hide Geo.Valid, At;
  }

  lemma LiveDirs(g: Geo, d: Img, s: set<nat>)
    requires DiskInv(g, d, s)
    ensures DirsClosed(g, d, DiskNodes(g, d, LiveSet(g, d)))
  {
    hide Geo.Valid, DescMatches, Reaches, Inv, NodeOf, Rec, Lists, Leaf, Scan, Tiled, Live;
    var nodes, nodes' := DiskNodes(g, d, s), DiskNodes(g, d, LiveSet(g, d));
    forall i, x: nat | i in nodes' && x < nodes'[i].dirBlocks && Leaf(d, nodes'[i].slots, Ptrs(g), x) != 0
      ensures DirBlockOk(BlockOf(d, Leaf(d, nodes'[i].slots, Ptrs(g), x)), nodes'.Keys)
    {
      LiveIsLive(g, d, i);
      LiveInSet(g, d, s, i);
      DirBlockClosed(g, d, nodes, i, x);
      var buf := BlockOf(d, Leaf(d, nodes[i].slots, Ptrs(g), x));
      forall e | e in Scan(buf, 0) ensures e.ino in nodes' {
        BlockEntryListed(g, d, i, x, e);
        ListsInSet(g, d, s, i, e.ino);
        RootInSet(g, d, s);
        LiveClosed(g, d, i, e.ino);
      }
    }
  }

  lemma LiveIsLive(g: Geo, d: Img, i: nat)
    requires Layout(g, d) && i in LiveSet(g, d)
    ensures Live(g, d, i) && Reaches(g, d, ROOT_INO, i)
  {
    hide Geo.Valid, DescMatches, Reaches;
  }

  lemma BlockEntryListed(g: Geo, d: Img, i: nat, x: nat, e: DirEntry)
    requires Layout(g, d) && g.sb.HasInode(i) && x < DiskNode(g, d, i).dirBlocks
    requires Leaf(d, DiskNode(g, d, i).slots, Ptrs(g), x) != 0
    requires e in Scan(BlockOf(d, Leaf(d, DiskNode(g, d, i).slots, Ptrs(g), x)), 0)
    ensures Lists(g, d, i, e.ino)
  {
    hide Geo.Valid, DescMatches, Leaf, Scan, DiskNode, Entries;
    var node, p := DiskNode(g, d, i), Ptrs(g);
    var l := BlockListing(d, node.slots, p, x);
    var m :| 0 <= m < |l| && l[m] == e;
    BlockHasEntry(d, node.slots, p, node.dirBlocks, x, m);
    var all := DirListing(g, d, node);
    assert all[Position(d, node.slots, p, x, m)] in all;
  }

  /** The scan never meets an unreadable inode in a consistent volume. */
  lemma AlwaysReadable(g: Geo, d: Img, s: set<nat>, j: nat)
    requires DiskInv(g, d, s) && Reaches(g, d, ROOT_INO, j)
    ensures !Unreadable(g, d, j)
  {
    hide Geo.Valid, DescMatches, Reaches, Inv, Leaf, PointersInRange, NodeOf, Rec;
    LiveInSet(g, d, s, j);
    var nodes := DiskNodes(g, d, s);
    TreeInRange(g, d, nodes, j, 0);
    forall x: nat ensures Leaf(d, nodes[j].slots, Ptrs(g), x) < |d| { TreeInRange(g, d, nodes, j, x); }
  }

  // What the repair leaves alone

  /** The trees of live inodes run through data blocks only. */
  ghost predicate TreesInData(g: Geo, a: Img)
    requires Layout(g, a)
  {
    forall j: nat, q :: Live(g, a, j) && ValidPath(Ptrs(g), q) && At(a, DiskNode(g, a, j).slots, q) != 0 ==>
                          g.IsData(At(a, DiskNode(g, a, j).slots, q))
  }

  lemma ConsistentInData(g: Geo, a: Img, s: set<nat>)
    requires DiskInv(g, a, s)
    ensures TreesInData(g, a)
  {
    hide Geo.Valid, DescMatches, Reaches, At, NodeOf, Rec, MetaMarked, InodesMarked, Apart, DirsClosed, Marked;
    var nodes := DiskNodes(g, a, s);
    forall j: nat | Live(g, a, j) ensures j in nodes && nodes[j] == DiskNode(g, a, j) { LiveInSet(g, a, s, j); }
  }

  /** Same records and data blocks: a live inode has the same tree with the same blocks. */
  lemma LiveIntact(g: Geo, a: Img, h: Img, j: nat)
    requires Layout(g, a) && TreesInData(g, a) && SameContent(g, a, h) && Live(g, a, j)
    ensures DiskNode(g, h, j) == DiskNode(g, a, j) && Intact(g, a, h, DiskNode(g, a, j))
  {
    hide Geo.Valid, DescMatches, Reaches, At, NodeOf, Rec;
    var node := DiskNode(g, a, j);
    assert SamePointers(Ptrs(g), a, h, node.slots);
    forall q | ValidPath(Ptrs(g), q) ensures At(h, node.slots, q) == At(a, node.slots, q) {
      AtUnchanged(Ptrs(g), a, h, node.slots, q);
    }
  }

  lemma LiveLists(g: Geo, a: Img, h: Img, i: nat, j: nat)
    requires Layout(g, a) && TreesInData(g, a) && SameContent(g, a, h) && Live(g, a, i)
    ensures Lists(g, h, i, j) <==> Lists(g, a, i, j)
  {
    hide Geo.Valid, DescMatches, Reaches, DirListing, NodeOf, Rec, TreesInData, Intact;
    LiveIntact(g, a, h, i);
    IntactListing(g, a, h, DiskNode(g, a, i));
  }

  /** So the root reaches the same inodes. */
  lemma SameLive(g: Geo, a: Img, h: Img)
    requires Layout(g, a) && TreesInData(g, a) && SameContent(g, a, h)
    ensures forall j: nat :: Reaches(g, h, ROOT_INO, j) <==> Reaches(g, a, ROOT_INO, j)
    ensures forall j: nat :: Live(g, h, j) <==> Live(g, a, j)
  {
    hide Geo.Valid, DescMatches, Lists, TreesInData, Reaches, SameContent;
    SameContentLayout(g, a, h);
    var both := iset j: nat | Reaches(g, a, ROOT_INO, j) && Reaches(g, h, ROOT_INO, j);
    ReachesSelf(g, a, ROOT_INO);
    ReachesSelf(g, h, ROOT_INO);
    forall i: nat, j: nat | i in both && Lists(g, a, i, j) ensures j in both { BothStep(g, a, h, i, j); }
    forall i: nat, j: nat | i in both && Lists(g, h, i, j) ensures j in both { BothStep(g, a, h, i, j); }
    forall j: nat | Reaches(g, a, ROOT_INO, j) ensures j in both { ClosedHolds(g, a, both, j); }
    forall j: nat | Reaches(g, h, ROOT_INO, j) ensures j in both { ClosedHolds(g, h, both, j); }
  }

  lemma ClosedHolds(g: Geo, d: Img, s: iset<nat>, j: nat)
    requires Layout(g, d) && Reaches(g, d, ROOT_INO, j) && ROOT_INO in s
    requires forall i: nat, j: nat :: i in s && Lists(g, d, i, j) ==> j in s
    ensures j in s
  {
    hide Geo.Valid, DescMatches, Lists;
    var path :| Chain(g, d, path) && path[0] == ROOT_INO && path[|path| - 1] == j;
    ClosedHoldsChain(g, d, s, path);
  }

  lemma SameContentLayout(g: Geo, a: Img, h: Img)
    requires SameContent(g, a, h)
    ensures Layout(g, a) && Layout(g, h)
  {
  }

  lemma BothStep(g: Geo, a: Img, h: Img, i: nat, j: nat)
    requires Layout(g, a) && Layout(g, h) && TreesInData(g, a) && SameContent(g, a, h)
    requires Reaches(g, a, ROOT_INO, i) && Reaches(g, h, ROOT_INO, i) && (Lists(g, a, i, j) || Lists(g, h, i, j))
    ensures Reaches(g, a, ROOT_INO, j) && Reaches(g, h, ROOT_INO, j)
  {
    hide Geo.Valid, DescMatches, TreesInData, Reaches, SameContent, DirListing, DiskNode;
    assert Live(g, a, i);
    LiveLists(g, a, h, i, j);
    ReachesSnoc(g, a, ROOT_INO, i, j);
    ReachesSnoc(g, h, ROOT_INO, i, j);
  }

  /** And the same blocks are in use. */
  lemma SameInUse(g: Geo, a: Img, h: Img, b: nat)
    requires Layout(g, a) && TreesInData(g, a) && SameContent(g, a, h)
    ensures InUse(g, h, b) <==> InUse(g, a, b)
  {
    hide Geo.Valid, DescMatches, TreesInData, SameContent, Reaches, At, DiskNode;
    SameContentLayout(g, a, h);
    SameLive(g, a, h);
    forall j: nat | Live(g, a, j)
      ensures Holds(g, h, DiskNode(g, h, j).slots, b) <==> Holds(g, a, DiskNode(g, a, j).slots, b)
    {
      LiveIntact(g, a, h, j);
    }
  }

  /** All metadata lies where the repair expects it. */
  ghost predicate TightRoles(g: Geo)
    requires g.Valid()
  {
    forall b: nat :: g.sb.HasBit(b) && !g.IsData(b) ==> Reserved(g, b)
  }

  ghost function LostInodes(g: Geo, a: Img, h: Img): set<nat>
    requires Layout(g, a) && Layout(g, h)
  {
    set i | 1 <= i <= g.sb.inodesCount && InodeMarked(g, a, i) && !InodeMarked(g, h, i)
  }

  lemma ReclaimingKeeps(g: Geo, a: Img, h: Img)
    requires Layout(g, a) && Layout(g, h) && Reclaiming(g, a, h) && TightRoles(g)
    ensures Keeps(g, a, h, FreedBlocks(g, a, h), LostInodes(g, a, h))
  {
    hide Geo.Valid, DescMatches, BlockUsed, InodeUsed, Rec, Reserved, InUse, Live;
    forall b | b in FreedBlocks(g, a, h) ensures g.IsData(b) { }
    forall b: nat | Marked(g, a, b) && b !in FreedBlocks(g, a, h) ensures Marked(g, h, b) { BitInVolume(g, b); }
  }

  lemma BitInVolume(g: Geo, b: nat)
    requires g.Valid() && g.sb.HasBit(b)
    ensures b < g.sb.blocksCount
  {
  }

  lemma LiveUnowned(g: Geo, a: Img, h: Img)
    requires Layout(g, a) && Layout(g, h) && Reclaiming(g, a, h)
    ensures Unowned(g, a, DiskNodes(g, a, LiveSet(g, a)), FreedBlocks(g, a, h))
    ensures LiveSet(g, a) !! LostInodes(g, a, h)
  {
    hide Geo.Valid, DescMatches, Reaches, At, NodeOf, Rec, BlockUsed, InodeUsed, Reserved, SameContent;
    var nodes := DiskNodes(g, a, LiveSet(g, a));
    forall i, q | i in nodes && ValidPath(Ptrs(g), q) ensures At(a, nodes[i].slots, q) !in FreedBlocks(g, a, h) - {0} {
      var b := At(a, nodes[i].slots, q);
      if b != 0 {
        LiveIsLive(g, a, i);
        assert nodes[i] == DiskNode(g, a, i);
        assert Holds(g, a, DiskNode(g, a, i).slots, b);
        assert InUse(g, a, b);
      }
    }
  }

  /** At every step of the repair the live files are intact and the volume is consistent. */
  lemma ReclaimingIsSafe(g: Geo, a: Img, h: Img, s: set<nat>)
    requires DiskInv(g, a, s) && TightRoles(g) && Reclaiming(g, a, h)
    ensures DiskInv(g, h, LiveSet(g, a)) && SameRecords(g, a, h, {})
    ensures forall i :: i in LiveSet(g, a) ==> Intact(g, a, h, DiskNode(g, a, i))
  {
    hide Geo.Valid, DescMatches, Live, Inv, NodeOf, Rec, Keeps, Unowned, Intact, FreedBlocks, LostInodes, TightRoles,
         Reserved, InUse, Marked, InodeMarked;
    SameContentLayout(g, a, h);
    LivePart(g, a, s);
    var live := LiveSet(g, a);
    var nodes := DiskNodes(g, a, live);
    ReclaimingKeeps(g, a, h);
    LiveUnowned(g, a, h);
    KeepsInv(g, a, h, nodes, FreedBlocks(g, a, h), LostInodes(g, a, h));
    KeepsIntact(g, a, h, nodes, FreedBlocks(g, a, h), LostInodes(g, a, h));
    assert DiskNodes(g, h, live) == nodes;
  }

  /** Every bit set in d is accounted for: reserved, or in use by a live inode. */
  ghost predicate NoLeaks(g: Geo, d: Img)
    requires Layout(g, d)
  {
    && (forall b: nat :: Marked(g, d, b) ==> Reserved(g, b) || InUse(g, d, b))
    && (forall i: nat :: InodeMarked(g, d, i) ==> i < g.sb.firstIno || Live(g, d, i))
  }

  lemma ReclaimedHasNoLeaks(g: Geo, a: Img, d: Img)
    requires Layout(g, a) && TreesInData(g, a) && Reclaimed(g, a, d)
    ensures Layout(g, d) && NoLeaks(g, d)
  {
    hide Geo.Valid, DescMatches, TreesInData, SameContent, Reserved, InUse, Live, BlockUsed, InodeUsed;
    SameContentLayout(g, a, d);
    SameLive(g, a, d);
    forall b: nat ensures InUse(g, d, b) <==> InUse(g, a, b) { SameInUse(g, a, d, b); }
  }

  /** A second repair finds nothing to free. */
  lemma SecondRepairFreesNothing(g: Geo, a: Img, d: Img, e: Img)
    requires Layout(g, a) && TreesInData(g, a) && Reclaimed(g, a, d) && Reclaimed(g, d, e)
    ensures Layout(g, d) && Layout(g, e) && FreedBlocks(g, d, e) == {} && FreedInodes(g, d, e) == {}
  {
    hide Geo.Valid, DescMatches, TreesInData, SameContent, Reserved, InUse, Live, BlockUsed, InodeUsed;
    ReclaimedHasNoLeaks(g, a, d);
    SameContentLayout(g, d, e);
  }

  // Mounting

  /** From a to d: the live files are untouched and are all that is left, the counters are exact. */
  ghost predicate Recovered(g: Geo, a: Img, d: Img) {
    && Layout(g, a) && Layout(g, d)
    && DiskInv(g, d, LiveSet(g, d)) && LiveSet(g, d) == LiveSet(g, a)
    && (forall i :: i in LiveSet(g, a) ==> Rec(g, d, i) == Rec(g, a, i) && Intact(g, a, d, DiskNode(g, a, i)))
    && CountersOk(g, d) && NoLeaks(g, d)
  }

  /** Every image since h0 is consistent, with all of a's live files intact. */
  ghost predicate SafeDuring(g: Geo, a: Img, h0: seq<Img>, h1: seq<Img>)
    requires Layout(g, a)
  {
    h0 <= h1 && forall k :: |h0| <= k < |h1| ==> LiveSafe(g, a, h1[k])
  }

  ghost predicate LiveSafe(g: Geo, a: Img, h: Img)
    requires Layout(g, a)
  {
    && DiskInv(g, h, LiveSet(g, a)) && SameRecords(g, a, h, {})
    && forall i :: i in LiveSet(g, a) ==> Intact(g, a, h, DiskNode(g, a, i))
  }

  lemma CountsAreSafe(g: Geo, a: Img, h: Img, s: set<nat>)
    requires DiskInv(g, a, s) && OnlyCounts(g, a, h)
    ensures SameContent(g, a, h) && DiskInv(g, h, s) && LiveSet(g, h) == LiveSet(g, a) && LiveSafe(g, a, h)
  {
    hide Geo.Valid, DescMatches, OnlyCounts, Inv, NodeOf, Rec, Marked, InodeMarked, Intact, Live;
    OnlyCountsEffect(g, a, h);
    SameContentLayout(g, a, h);
    var nodes := DiskNodes(g, a, s);
    NothingOwned(g, a, nodes);
    assert Keeps(g, a, h, {}, {});
    KeepsInv(g, a, h, nodes, {}, {});
    KeepsIntact(g, a, h, nodes, {}, {});
    assert DiskNodes(g, h, s) == nodes;
    ConsistentInData(g, a, s);
    SameLive(g, a, h);
    LivePart(g, a, s);
    LivePart(g, h, s);
    forall i | i in LiveSet(g, a) ensures Intact(g, a, h, DiskNode(g, a, i)) { assert nodes[i] == DiskNode(g, a, i); }
  }

  lemma LiveSafeTransitive(g: Geo, a: Img, b: Img, c: Img)
    requires Layout(g, a) && Layout(g, b) && LiveSet(g, b) == LiveSet(g, a) && LiveSafe(g, a, b) && LiveSafe(g, b, c)
    ensures LiveSafe(g, a, c)
  {
    hide Geo.Valid, DescMatches, DiskInv, NodeOf, Rec, Intact, Live;
    forall i | i in LiveSet(g, a) ensures Intact(g, a, c, DiskNode(g, a, i)) {
      assert DiskNode(g, b, i) == DiskNode(g, a, i);
      IntactTransitive(g, a, b, c, DiskNode(g, a, i));
    }
  }

  lemma ReclaimedIsReclaiming(g: Geo, a: Img, d: Img)
    requires Reclaimed(g, a, d)
    ensures Reclaiming(g, a, d)
  {
    hide Geo.Valid, DescMatches, BlockUsed, InodeUsed, SameContent, Reserved, InUse, Live;
  }

  lemma RecoveredFrom(g: Geo, a: Img, mid: Img, d: Img, s: set<nat>)
    requires DiskInv(g, a, s) && TightRoles(g) && OnlyCounts(g, a, mid) && Reclaimed(g, mid, d) && Layout(g, d)
             && CountersOk(g, d)
    ensures Recovered(g, a, d)
  {
    hide Geo.Valid, DescMatches, OnlyCounts, DiskInv, Reclaimed, Reclaiming, CountersOk, TightRoles, NoLeaks, Rec,
         NodeOf, Intact, Live, SameContent;
    ConsistentLayout(g, a, s);
    CountsAreSafe(g, a, mid, s);
    SameContentLayout(g, a, mid);
    ReclaimedIsReclaiming(g, mid, d);
    ReclaimingIsSafe(g, mid, d, s);
    ConsistentInData(g, mid, s);
    ReclaimedHasNoLeaks(g, mid, d);
    ReclaimedContent(g, mid, d);
    SameLive(g, mid, d);
    assert LiveSet(g, d) == LiveSet(g, mid);
    LiveSafeTransitive(g, a, mid, d);
    forall i | i in LiveSet(g, a) ensures Rec(g, d, i) == Rec(g, a, i) { }
  }

  lemma ReclaimedContent(g: Geo, a: Img, d: Img)
    requires Reclaimed(g, a, d)
    ensures SameContent(g, a, d)
  {
    hide Geo.Valid, DescMatches, BlockUsed, InodeUsed, SameContent, Reserved, InUse, Live;
  }

  lemma ConsistentLayout(g: Geo, a: Img, s: set<nat>)
    requires DiskInv(g, a, s)
    ensures Layout(g, a)
  {
    hide Inv;
  }

  /** A way down the repaired tree is a way down the tree before. */
  lemma SameChain(g: Geo, a: Img, h: Img, path: seq<nat>)
    requires Layout(g, a) && TreesInData(g, a) && SameContent(g, a, h) && Layout(g, h) && Chain(g, h, path)
             && path[0] == ROOT_INO
    ensures Chain(g, a, path)
  {
    hide Geo.Valid, DescMatches, TreesInData, SameContent, Reaches, DirListing, DiskNode;
    SameLive(g, a, h);
    forall k | 0 <= k < |path| - 1 ensures Lists(g, a, path[k], path[k + 1]) {
      assert Lists(g, h, path[k], path[k + 1]);
      PrefixReaches(g, h, path, k);
      LiveLists(g, a, h, path[k], path[k + 1]);
    }
  }

  lemma PrefixReaches(g: Geo, h: Img, path: seq<nat>, k: nat)
    requires Layout(g, h) && Chain(g, h, path) && k < |path|
    ensures Reaches(g, h, path[0], path[k])
  {
    hide Geo.Valid, DescMatches, Lists;
    var front := path[..k + 1];
    forall j | 0 <= j < |front| - 1 ensures Lists(g, h, front[j], front[j + 1]) {
      assert Lists(g, h, path[j], path[j + 1]);
    }
    assert Chain(g, h, front);
  }

  /** On a consistent volume the survey can fail for depth alone. */
  lemma SurveyOnConsistent(g: Geo, a: Img, mid: Img, s: set<nat>, e: Ext2Error)
    requires DiskInv(g, a, s) && OnlyCounts(g, a, mid) && Layout(g, mid) && SurveyFails(g, mid, e)
    ensures Layout(g, a) && e == TooDeep && Deep(g, a, ROOT_INO, 65)
  {
    hide Geo.Valid, DescMatches, OnlyCounts, DiskInv, Reaches, Unreadable, Chain, SameContent, TreesInData;
    ConsistentLayout(g, a, s);
    CountsAreSafe(g, a, mid, s);
    forall j | Reaches(g, mid, ROOT_INO, j) ensures !Unreadable(g, mid, j) { AlwaysReadable(g, mid, s, j); }
    ConsistentInData(g, a, s);
    var path :| Chain(g, mid, path) && Simple(path) && |path| == 65 && path[0] == ROOT_INO;
    SameChain(g, a, mid, path);
  }

  /** Where every inode has one name, an inode is listed by one directory, and the root by none. */
  lemma OneParent(g: Geo, d: Img, t: set<nat>, i: nat, k: nat, j: nat)
    requires DiskInv(g, d, t) && OneName(TablesOf(g, d, t)) && i in t && k in t && Layout(g, d) && Lists(g, d, i, j)
             && Lists(g, d, k, j)
    ensures i == k && j != ROOT_INO
  {
    hide Geo.Valid, DescMatches, Inv, DirListing, DiskNode;
    var m: Tables := TablesOf(g, d, t);
    var e :| e in m[i] && e.ino == j;
    var f :| f in m[k] && f.ino == j;
    var x :| 0 <= x < |m[i]| && m[i][x] == e;
    var y :| 0 <= y < |m[k]| && m[k][y] == f;
  }

  /** ... so all ways down from the root to an inode are equally long. */
  lemma {:induction false} OneLength(g: Geo, d: Img, t: set<nat>, p: seq<nat>, q: seq<nat>)
    requires DiskInv(g, d, t) && OneName(TablesOf(g, d, t)) && Layout(g, d) && Chain(g, d, p) && Chain(g, d, q)
    requires p[0] == ROOT_INO == q[0] && p[|p| - 1] == q[|q| - 1]
    ensures |p| == |q|
    decreases |p|
  {
    hide Geo.Valid, DescMatches, DiskInv, OneName, TablesOf, Lists, Reaches;
    if |p| > 1 { LastStep(g, d, t, p); }
    if |q| > 1 { LastStep(g, d, t, q); }
    if |p| > 1 && |q| > 1 {
      OneParent(g, d, t, p[|p| - 2], q[|q| - 2], p[|p| - 1]);
      OneLength(g, d, t, p[..|p| - 1], q[..|q| - 1]);
    }
  }

  lemma LastStep(g: Geo, d: Img, t: set<nat>, p: seq<nat>)
    requires DiskInv(g, d, t) && OneName(TablesOf(g, d, t)) && Layout(g, d) && Chain(g, d, p) && p[0] == ROOT_INO
             && |p| > 1
    ensures p[|p| - 2] in t && Lists(g, d, p[|p| - 2], p[|p| - 1]) && Chain(g, d, p[..|p| - 1])
            && p[|p| - 1] != ROOT_INO
  {
    hide Geo.Valid, DescMatches, DiskInv, OneName, TablesOf, Lists, Reaches;
    PrefixReaches(g, d, p, |p| - 2);
    LiveInSet(g, d, t, p[|p| - 2]);
    assert Lists(g, d, p[|p| - 2], p[|p| - 1]);
    var front := p[..|p| - 1];
    forall k | 0 <= k < |front| - 1 ensures Lists(g, d, front[k], front[k + 1]) { assert Lists(g, d, p[k], p[k + 1]); }
    OneParent(g, d, t, p[|p| - 2], p[|p| - 2], p[|p| - 1]);
  }

  /** A survey that got through leaves no way down of 65 inodes. */
  lemma ShallowNotDeep(g: Geo, a: Img, mid: Img, s: set<nat>)
    requires DiskInv(g, a, s) && OneName(TablesOf(g, a, s)) && OnlyCounts(g, a, mid) && Layout(g, mid)
             && Shallow(g, mid)
    ensures Layout(g, a) && !Deep(g, a, ROOT_INO, 65)
  {
    hide Geo.Valid, DescMatches, OnlyCounts, DiskInv, OneName, TablesOf, Lists, SameContent, TreesInData;
    ConsistentLayout(g, a, s);
    CountsAreSafe(g, a, mid, s);
    ConsistentInData(g, a, s);
    SameLive(g, a, mid);
    if path :| Chain(g, a, path) && Simple(path) && path[0] == ROOT_INO && |path| == 65 {
      var j := path[64];
      assert Reaches(g, a, ROOT_INO, j);
      var short :| Chain(g, mid, short) && short[0] == ROOT_INO && short[|short| - 1] == j && |short| <= 64;
      SameChain(g, a, mid, short);
      OneLength(g, a, s, path, short);
    }
  }

  lemma MountIsSafe(g: Geo, a: Img, mid: Img, h0: seq<Img>, h1: seq<Img>, h2: seq<Img>, s: set<nat>)
    requires DiskInv(g, a, s) && TightRoles(g) && OnlyCounts(g, a, mid)
    requires CountsSince(g, a, h0, h1) && ReclaimingSince(g, mid, h1, h2)
    ensures Layout(g, a) && SafeDuring(g, a, h0, h2)
  {
    hide Geo.Valid, DescMatches, OnlyCounts, DiskInv, Reclaiming, TightRoles, SameContent, LiveSafe, LiveSet;
    ConsistentLayout(g, a, s);
    CountsAreSafe(g, a, mid, s);
    SameContentLayout(g, a, mid);
    forall k | |h0| <= k < |h2| ensures LiveSafe(g, a, h2[k]) {
      if k < |h1| {
        assert h2[k] == h1[k];
        CountsAreSafe(g, a, h1[k], s);
      } else {
        SafeStep(g, mid, h2[k], s);
        LiveSafeTransitive(g, a, mid, h2[k]);
      }
    }
  }

  lemma SafeStep(g: Geo, a: Img, h: Img, s: set<nat>)
    requires DiskInv(g, a, s) && TightRoles(g) && Reclaiming(g, a, h)
    ensures Layout(g, a) && LiveSafe(g, a, h)
  {
    hide Geo.Valid, DescMatches, Inv, Reclaiming, TightRoles, SameRecords, Live, Intact;
    ReclaimingIsSafe(g, a, h, s);
  }

  /** Mount: recount the counters, then reclaim what no live inode uses. */
  method MountAndRepair(core: Ext2Core, ghost s: set<nat>) returns (r: Result<(nat, nat)>, ghost mid: Img)
    requires core.Ready()
    modifies core
    ensures core.Ready() && CountersOk(core.geo, core.disk) && OnlyCounts(core.geo, old(core.disk), mid)
    ensures r.Err? ==> SurveyFails(core.geo, mid, r.error) && core.disk == mid
    ensures r.Ok? ==> Reclaimed(core.geo, mid, core.disk)
    ensures r.Ok? && DiskInv(core.geo, old(core.disk), s) && TightRoles(core.geo) ==>
              Recovered(core.geo, old(core.disk), core.disk)
    ensures DiskInv(core.geo, old(core.disk), s) && r.Err? ==>
              r == Err(TooDeep) && Deep(core.geo, old(core.disk), ROOT_INO, 65)
    ensures DiskInv(core.geo, old(core.disk), s) && OneName(TablesOf(core.geo, old(core.disk), s)) ==>
              (r.Err? <==> Deep(core.geo, old(core.disk), ROOT_INO, 65))
    ensures DiskInv(core.geo, old(core.disk), s) && TightRoles(core.geo) ==>
              SafeDuring(core.geo, old(core.disk), old(core.history), core.history)
    ensures Dirs(core.geo, core.disk) == Dirs(core.geo, old(core.disk))
  {
    hide Dirs, Geo.Valid, DescMatches, SurveyFails, OnlyCounts, Reclaimed, Reclaiming, CountersOk, Recovered,
         TightRoles, DiskInv, SafeDuring, Shallow, Deep, OneName, TablesOf;
    ghost var g, a, h0 := core.geo, core.disk, core.history;
    var report := ReconcileFreeCounts(core);
    mid := core.disk;
    ghost var h1 := core.history;
    r := ReclaimOrphans(core);
    if DiskInv(g, a, s) {
      RootInSet(g, a, s);
      if r.Err? { SurveyOnConsistent(g, a, mid, s, r.error); }
      if r.Ok? && OneName(TablesOf(g, a, s)) { ShallowNotDeep(g, a, mid, s); }
      if TightRoles(g) {
        if r.Ok? { RecoveredFrom(g, a, mid, core.disk, s); }
        MountIsSafe(g, a, mid, h0, h1, core.history, s);
      }
    }
  }
}
