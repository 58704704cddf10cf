/** Removing names: unlink, rmdir and truncation.  A name goes first, and only then what it named. */
module Removal {
  import opened Bytes
  import opened Geometry
  import opened Inode
  import opened Image
  import opened Tree
  import opened DirBlock
  import opened Consistency
  import opened Counters
  import opened Volume
  import opened Growth
  import opened Listing
  import opened Files
  import opened Content
  import opened Directories
  import opened Walk
  import opened Names
  import opened Session
  import opened Operations

  /** Free the blocks of a file outside the set. */
  method FreeOwned(core: Ext2Core, raw: RawInode, ghost a: Img, ghost h0: seq<Img>, ghost s: set<nat>,
                   ghost gone: set<nat>, ghost dir: nat,
                   ghost l: seq<DirEntry>, ghost t: set<nat>, ghost i: nat)
    returns (raw': RawInode)
    requires InOp(core, a, h0, s, gone, dir, l, t) && raw.Valid() && core.sb.blockSize > 0 && core.sb.HasInode(i)
    requires TreeOk(core.geo, core.disk, NodeOf(core.geo, raw).slots) && (forall j :: j in t ==> core.sb.HasInode(j))
    requires Unowned(core.geo, core.disk, DiskNodes(core.geo, core.disk, t),
                     TreeBlocks(core.geo, core.disk, NodeOf(core.geo, raw).slots))
    modifies core
    ensures InOp(core, a, h0, s, gone, dir, l, t) && Same(core.geo, old(core.disk), core.disk, t)
    ensures Shows(core.geo, core.disk, dir) == Shows(core.geo, old(core.disk), dir)
            && Rec(core.geo, core.disk, dir) == Rec(core.geo, old(core.disk), dir)
    ensures Changed(core.geo, old(core.disk), core.disk, {},
                    TreeBlocks(core.geo, old(core.disk), NodeOf(core.geo, raw).slots), {}, {})
    ensures raw'.Valid() && |raw'.buf| == |raw.buf| && raw'.Size() == 0 && NodeOf(core.geo, raw') == Node(NoSlots(), 0)
            && SameLinks(raw, raw')
    ensures KeptSince(core.geo, old(core.disk), old(core.history), core.history,
                      TreeBlocks(core.geo, old(core.disk), NodeOf(core.geo, raw).slots), {})
    ensures CountersOk(core.geo, old(core.disk)) ==> CountersOk(core.geo, core.disk)
    ensures Dirs(core.geo, core.disk) == Dirs(core.geo, old(core.disk))
  {
    hide Dirs, Geo.Valid, DescMatches, DiskInv, Same, Shows, CrashSince, CountersOk, Changed, Rec, TreeOk, TreeBlocks,
         NodeOf, Unowned, RawInode.Mode, OneName, TablesOf, RawInode.Size, RawInode.LinksCount, DiskNodes;
    ghost var g, d, h1 := core.geo, core.disk, core.history;
    ghost var owned := TreeBlocks(g, d, NodeOf(g, raw).slots);
    var ok;
    ok, raw' := FreeAllBlocks(core, raw);
    OwnedIsData(g, d, NodeOf(g, raw).slots);
    ChangedFreed(g, d, core.disk, t, owned);
    forall k | |h1| <= k < |core.history| ensures DiskInv(g, core.history[k], t) && Same(g, d, core.history[k], t) {
      FreedSame(g, d, core.history[k], t, owned, {}, {});
    }
    OutsideSteps(core, a, d, h0, h1, s, gone, dir, l, t);
  }

  lemma OwnedIsData(g: Geo, d: Img, slots: seq<nat>)
    requires TreeOk(g, d, slots)
    ensures forall b :: b in TreeBlocks(g, d, slots) ==> g.IsData(b)
  {
    hide Geo.Valid, DescMatches, At, Marked;
  }

  lemma ChangedFreed(g: Geo, d: Img, h: Img, t: set<nat>, owned: set<nat>)
    requires DiskInv(g, d, t) && Changed(g, d, h, {}, owned, {}, {}) && (forall b :: b in owned ==> g.IsData(b))
    requires Unowned(g, d, DiskNodes(g, d, t), owned)
    ensures DiskInv(g, h, t) && Same(g, d, h, t) && forall i: nat :: InodeMarked(g, d, i) ==> InodeMarked(g, h, i)
  {
    hide Geo.Valid, DescMatches, DiskInv, Rec, Keeps, Same, Marked, InodeMarked, DiskNodes, Unowned;
    ChangedKeeps(g, d, h, {}, owned, {}, {});
    FreedSame(g, d, h, t, owned, {}, {});
  }

  /** Write the record of an inode outside the set. */
  method WriteOutside(core: Ext2Core, i: nat, raw: RawInode, ghost a: Img, ghost h0: seq<Img>, ghost s: set<nat>,
                      ghost gone: set<nat>, ghost dir: nat,
                      ghost l: seq<DirEntry>, ghost t: set<nat>)
    requires InOp(core, a, h0, s, gone, dir, l, t) && i !in t && core.sb.HasInode(i) && |raw.buf| == core.sb.inodeSize
    modifies core
    ensures InOp(core, a, h0, s, gone, dir, l, t) && Same(core.geo, old(core.disk), core.disk, t)
    ensures Shows(core.geo, core.disk, dir) == Shows(core.geo, old(core.disk), dir)
            && Rec(core.geo, core.disk, dir) == Rec(core.geo, old(core.disk), dir)
    ensures RecordWritten(core.geo, old(core.disk), core.disk, i, raw)
            && core.history == old(core.history) + [core.disk]
    ensures CountersOk(core.geo, old(core.disk)) ==> CountersOk(core.geo, core.disk)
    ensures Dirs(core.geo, core.disk) == Dirs(core.geo, old(core.disk))
  {
    hide Dirs, Geo.Valid, DescMatches, DiskInv, Same, Shows, CrashSince, CountersOk, Rec, RecordWritten, OneName,
         TablesOf;
    ghost var g, d, h1 := core.geo, core.disk, core.history;
    var w := core.WriteInode(i, raw);
    OutsideRecord(g, d, core.disk, t, i, raw);
    OutsideSteps(core, a, d, h0, h1, s, gone, dir, l, t);
  }

  lemma OutsideRecord(g: Geo, d: Img, h: Img, t: set<nat>, i: nat, raw: RawInode)
    requires DiskInv(g, d, t) && RecordWritten(g, d, h, i, raw) && i !in t && Layout(g, d) && Layout(g, h)
    ensures DiskInv(g, h, t) && Same(g, d, h, t) && (CountersOk(g, d) ==> CountersOk(g, h))
  {
    hide Geo.Valid, DescMatches, DiskInv, Rec, Keeps, Same, CountersOk, RecordWritten;
    WrittenKept(g, d, h, i, raw);
    WrittenCounters(g, d, h, i, raw);
    KeptSame(g, d, h, t, {i});
  }

  // The name goes

  /** The first entry of a name is the one both lookup and removal find. */
  lemma FirstUnique(l: seq<DirEntry>, l': seq<DirEntry>, e: DirEntry, f: DirEntry)
    requires FirstEntry(l, e) && FirstRemoved(l, l', f) && e.name == f.name
    ensures e == f
  {
    hide FirstOf, RemoveAt;
    var k: nat :| k < |l| && l[k] == f && (forall j :: 0 <= j < k ==> l[j].name != f.name) && l' == RemoveAt(l, k);
    FirstAt(l, k);
  }

  /** With its only entry gone, the inode leaves the set. */
  lemma NameGone(g: Geo, a: Img, d: Img, s: set<nat>, dir: nat, e: DirEntry)
    requires DiskInv(g, a, s) && OneName(TablesOf(g, a, s)) && dir in s && g.sb.HasInode(dir) && e.ino in s
             && e.ino != dir
    requires DiskInv(g, d, s) && Same(g, a, d, s - {dir}) && FirstRemoved(Shows(g, a, dir), Shows(g, d, dir), e)
    ensures DiskInv(g, d, s - {e.ino}) && OneName(TablesOf(g, d, s - {e.ino}))
  {
    hide Geo.Valid, DescMatches, Inv, Same, DirListing, NodeOf, Rec, OneName, Closed, Shows;
    SetLayout(g, a, s);
    var t: Tables, t': Tables := TablesOf(g, a, s), TablesOf(g, d, s);
    ConsistentClosed(g, a, s);
    ShowsTable(g, a, s, dir);
    ShowsTable(g, d, s, dir);
    forall i | i in s && i != dir ensures t'[i] == t[i] {
      SameShows(g, a, d, s - {dir}, i);
      ShowsTable(g, a, s, i);
      ShowsTable(g, d, s, i);
    }
    var k: nat :| k < |t[dir]| && t[dir][k] == e && t'[dir] == RemoveAt(t[dir], k);
    NotRoot(t, dir, k);
    NameRemoved(t, t', dir, k);
    TablesUnnamed(g, d, s, e.ino);
    DropNode(g, d, DiskNodes(g, d, s), e.ino);
    assert DiskNodes(g, d, s) - {e.ino} == DiskNodes(g, d, s - {e.ino});
    NamesDropped(t', TablesOf(g, d, s - {e.ino}));
  }

  lemma NotRoot(t: Tables, dir: nat, k: nat)
    requires OneName(t) && dir in t && k < |t[dir]|
    ensures t[dir][k].ino != ROOT_INO
  {
  }

  /** Remove the entry from its directory; the operation goes on without the inode it named. */
  method RemoveName(core: Ext2Core, dirIno: nat, dirRaw: RawInode, e: DirEntry, ghost s: set<nat>)
    returns (r: Result<nat>)
    requires Sound(core, s) && dirIno in s && core.sb.HasInode(dirIno) && dirRaw == Rec(core.geo, core.disk, dirIno)
             && dirRaw.IsDir()
    requires FirstEntry(Shows(core.geo, core.disk, dirIno), e) && Listed(e.name) && e.ino in s && e.ino != dirIno
    modifies core
    ensures r == Ok(e.ino) && core.Ready() && CountersOk(core.geo, core.disk)
    ensures InOp(core, old(core.disk), old(core.history), s, {e.ino}, dirIno, Shows(core.geo, old(core.disk), dirIno),
                 s - {e.ino})
    ensures FirstRemoved(Shows(core.geo, old(core.disk), dirIno), Shows(core.geo, core.disk, dirIno), e)
    ensures DiskInv(core.geo, core.disk, s) && OneName(TablesOf(core.geo, core.disk, s - {e.ino}))
    ensures Rec(core.geo, core.disk, dirIno) == dirRaw && Same(core.geo, old(core.disk), core.disk, s - {dirIno})
    ensures core.history == old(core.history) + [core.disk]
    ensures Dirs(core.geo, core.disk) == Dirs(core.geo, old(core.disk))
  {
    hide Dirs, Geo.Valid, DescMatches, DiskInv, Same, OneName, CountersOk, Rec, NodeOf, CrashOk, RawInode.Mode,
         DirListing, Inv, StepOk, FirstRemoved, FirstEntry, Listed, Ahead;
    ghost var g, a, h0, dir := core.geo, core.disk, core.history, dirIno;
    SetLayout(g, a, s);
    OpenDir(core, s, dirIno, dirRaw);
    NodeIs(g, a, s, dirIno);
    FirstIsEntry(Shows(g, a, dirIno), e);
    var found :- RemoveDirEntry(core, dirRaw, e.name, DiskNodes(g, a, s), dirIno);
    ghost var d, l, l' := core.disk, Shows(g, a, dirIno), Shows(g, core.disk, dirIno);
    FirstUnique(l, l', e, DirEntry(found.0, found.1, e.name));
    StepSame(g, a, d, s, dirIno);
    NameGone(g, a, d, s, dirIno, e);
    ghost var t := s - {e.ino};
    SameFewer(g, a, d, s - {dirIno}, t - {dirIno});
    assert SomeSet(g, d, t);
    assert CrashOk(g, a, d, s, {e.ino}, dirIno, l, l') by { hide *; CrashNow(g, a, d, s, {e.ino}, dirIno, l, l'); }
    return Ok(found.0);
  }

  lemma CrashNow(g: Geo, a: Img, h: Img, s: set<nat>, gone: set<nat>, dir: nat, l: seq<DirEntry>, l': seq<DirEntry>)
    requires SomeSet(g, h, s - gone) && Same(g, a, h, s - gone - {dir}) && g.sb.HasInode(dir) && Layout(g, h)
             && Shows(g, h, dir) == l'
    ensures CrashOk(g, a, h, s, gone, dir, l, l')
  {
    hide SomeSet, Same, Shows, Geo.Valid, DescMatches;
  }

  // What it named goes

  /** The record owns nothing any more and tells when it was deleted. */
  ghost predicate Cleared(g: Geo, d: Img, i: nat, now: nat) {
    && Layout(g, d) && g.sb.HasInode(i)
    && var raw := Rec(g, d, i);
       raw.Size() == 0 && DiskNode(g, d, i) == Node(NoSlots(), 0) && Field(raw.buf, 20, 4) == now % 0x1_0000_0000
  }

  /** The inode and every block of its tree are free again, and its record is cleared. */
  ghost predicate Released(g: Geo, a: Img, d: Img, i: nat, now: nat) {
    && Layout(g, a) && Layout(g, d) && g.sb.HasInode(i) && !InodeMarked(g, d, i) && Cleared(g, d, i, now)
    && forall b :: b in TreeBlocks(g, a, DiskNode(g, a, i).slots) ==> !Marked(g, d, b)
  }

  /** In no image since h0 is the inode free while its record still owns something. */
  ghost predicate ClearedFirst(g: Geo, h0: seq<Img>, h1: seq<Img>, i: nat, now: nat) {
    && h0 <= h1
    && forall k :: |h0| <= k < |h1| ==>
         Layout(g, h1[k]) && (InodeMarked(g, h1[k], i) || Cleared(g, h1[k], i, now))
  }

  lemma StillInodeMarked(g: Geo, a: Img, h0: seq<Img>, h1: seq<Img>, freed: set<nat>, i: nat)
    requires KeptSince(g, a, h0, h1, freed, {}) && Layout(g, a) && InodeMarked(g, a, i)
    ensures h0 <= h1 && forall k :: |h0| <= k < |h1| ==> Layout(g, h1[k]) && InodeMarked(g, h1[k], i)
  {
    hide Geo.Valid, DescMatches, Marked, InodeMarked, SameRecords;
  }

  lemma StillClearedSince(g: Geo, d: Img, h0: seq<Img>, h1: seq<Img>, i: nat, now: nat)
    requires Cleared(g, d, i, now) && g.sb.HasInode(i) && ChangedSince(g, d, h0, h1, {}, {}, {}, {i})
    ensures h0 <= h1 && forall k :: |h0| <= k < |h1| ==> Layout(g, h1[k]) && Cleared(g, h1[k], i, now)
  {
    hide Geo.Valid, DescMatches, Marked, InodeMarked, Cleared, Rec;
    forall k | |h0| <= k < |h1| ensures Layout(g, h1[k]) && Cleared(g, h1[k], i, now) {
      InodeGone(g, d, h1[k], i);
      StillCleared(g, d, h1[k], i, now);
    }
  }

  /** One image before, with the inode still in use. */
  lemma ClearedAfter(g: Geo, h0: seq<Img>, h1: seq<Img>, h2: seq<Img>, d: Img, i: nat, now: nat)
    requires h1 == h0 + [d] && Layout(g, d) && InodeMarked(g, d, i) && ClearedFirst(g, h1, h2, i, now)
    ensures ClearedFirst(g, h0, h2, i, now)
  {
    hide Geo.Valid, DescMatches, InodeMarked, Cleared;
    assert h2[|h0|] == h1[|h0|];
  }

  /** One image more, with the record cleared. */
  lemma ClearedThen(g: Geo, h0: seq<Img>, h1: seq<Img>, h2: seq<Img>, d: Img, i: nat, now: nat)
    requires ClearedFirst(g, h0, h1, i, now) && h2 == h1 + [d] && Cleared(g, d, i, now)
    ensures ClearedFirst(g, h0, h2, i, now)
  {
    hide Geo.Valid, DescMatches, InodeMarked, Rec, DiskNode;
    forall k | |h0| <= k < |h2| ensures Layout(g, h2[k]) && (InodeMarked(g, h2[k], i) || Cleared(g, h2[k], i, now)) {
      if k < |h1| { assert h2[k] == h1[k]; }
    }
  }

  lemma NowCleared(g: Geo, d: Img, i: nat, empty: RawInode, now: nat)
    requires Layout(g, d) && g.sb.HasInode(i) && empty.Valid() && empty.Size() == 0 && g.sb.blockSize > 0
    requires NodeOf(g, empty) == Node(NoSlots(), 0) && Rec(g, d, i) == empty.SetDtime(now)
    ensures Cleared(g, d, i, now)
  {
    hide Geo.Valid, DescMatches, Rec, RawInode.Mode, RawInode.Size, RawInode.IBlock, NodeOf, Field, NoSlots;
    BookkeepingKeepsShape(empty, now);
    ShapeNode(g, empty, empty.SetDtime(now));
    Widths();
    SetFieldMod(empty.buf, 20, 4, now);
  }

  lemma StillCleared(g: Geo, d: Img, h: Img, i: nat, now: nat)
    requires Cleared(g, d, i, now) && Layout(g, h) && Rec(g, h, i) == Rec(g, d, i)
    ensures Cleared(g, h, i, now)
  {
    hide Geo.Valid, DescMatches, Rec, NodeOf, NoSlots;
  }

  /** Free the blocks, write the emptied record, free the inode: the tail of unlink and of rmdir. */
  method Release(core: Ext2Core, i: nat, raw: RawInode, isDir: bool, now: nat, ghost a: Img, ghost h0: seq<Img>,
                 ghost s: set<nat>, ghost dir: nat,
                 ghost l: seq<DirEntry>)
    requires InOp(core, a, h0, s, {i}, dir, l, s - {i}) && DiskInv(core.geo, core.disk, s) && i in s && i != dir
             && core.sb.blockSize > 0
    requires core.sb.HasInode(i) && raw.Valid() && |raw.buf| == core.sb.inodeSize
             && NodeOf(core.geo, raw) == DiskNode(core.geo, core.disk, i)
    modifies core
    ensures InOp(core, a, h0, s, {i}, dir, l, s - {i}) && Same(core.geo, old(core.disk), core.disk, s - {i})
    ensures Shows(core.geo, core.disk, dir) == Shows(core.geo, old(core.disk), dir)
            && Rec(core.geo, core.disk, dir) == Rec(core.geo, old(core.disk), dir)
    ensures Released(core.geo, old(core.disk), core.disk, i, now)
    ensures ClearedFirst(core.geo, old(core.history), core.history, i, now)
    ensures DirMoved(core.geo, old(core.disk), core.disk, i, if isDir then -1 else 0)
    ensures CountersOk(core.geo, old(core.disk)) ==> CountersOk(core.geo, core.disk)
  {
    hide ClearedFirst, Dirs, MoveDirs, Geo.Valid, DescMatches, DiskInv, Same, Shows, CrashSince, CountersOk, Changed,
         Rec, TreeOk, TreeBlocks, NodeOf, DiskNode, DiskNodes, Unowned, RawInode.Mode, RawInode.Size, RecordWritten,
         InodeMarked, Released, OneName, TablesOf, Cleared, SameLinks;
    ghost var g, d, t := core.geo, core.disk, s - {i};
    OwnedElsewhere(g, d, s, i, t);
    StillInUse(g, d, s, i);
    ghost var hd := core.history;
    var empty := FreeOwned(core, raw, a, h0, s, {i}, dir, l, t, i);
    StillInodeMarked(g, d, hd, core.history, TreeBlocks(g, d, NodeOf(g, raw).slots), i);
    ghost var d1, h1 := core.disk, core.history;
    WriteOutside(core, i, empty.SetDtime(now), a, h0, s, {i}, dir, l, t);
    ghost var d2 := core.disk;
    WrittenRec(g, d1, d2, i, empty.SetDtime(now));
    NowCleared(g, d2, i, empty, now);
    SameTransitive(g, d, d1, d2, t);
    MarksLeft(g, d, d1, d2, i, TreeBlocks(g, d, DiskNode(g, d, i).slots), empty.SetDtime(now));
    ghost var h2 := core.history;
    GiveBack(core, i, isDir, a, h0, s, {i}, dir, l, t);
    StillClearedSince(g, d2, h2, core.history, i, now);
    ClearedInOrder(g, hd, h1, h2, core.history, i, now);
    InodeGone(g, d2, core.disk, i);
    StillCleared(g, d2, core.disk, i, now);
    SameTransitive(g, d, d2, core.disk, t);
    assert Released(g, d, core.disk, i, now) by { hide *; NowReleased(g, d, d2, core.disk, i, now); }
  }

  lemma ClearedInOrder(g: Geo, h0: seq<Img>, h1: seq<Img>, h2: seq<Img>, h3: seq<Img>, i: nat, now: nat)
    requires h0 <= h1 && h1 <= h2 && h2 <= h3 && |h2| == |h1| + 1
    requires forall k :: |h0| <= k < |h1| ==> Layout(g, h1[k]) && InodeMarked(g, h1[k], i)
    requires Cleared(g, h2[|h1|], i, now)
    requires forall k :: |h2| <= k < |h3| ==> Layout(g, h3[k]) && Cleared(g, h3[k], i, now)
    ensures ClearedFirst(g, h0, h3, i, now)
  {
    hide Geo.Valid, DescMatches, InodeMarked, Rec, DiskNode;
    forall k | |h0| <= k < |h3| ensures Layout(g, h3[k]) && (InodeMarked(g, h3[k], i) || Cleared(g, h3[k], i, now)) {
      if k < |h1| { assert h3[k] == h1[k]; } else if k < |h2| { assert h3[k] == h2[k]; }
    }
  }

  lemma MarksLeft(g: Geo, d: Img, d1: Img, d2: Img, i: nat, owned: set<nat>, raw: RawInode)
    requires Changed(g, d, d1, {}, owned, {}, {}) && RecordWritten(g, d1, d2, i, raw) && Layout(g, d) && Layout(g, d2)
             && InodeMarked(g, d, i)
    ensures InodeMarked(g, d2, i) && forall b :: b in owned ==> !Marked(g, d2, b)
  {
    hide Geo.Valid, DescMatches, BlockUsed, InodeUsed, Rec, SameRecords, SameCounters;
  }

  lemma InodeGone(g: Geo, d: Img, h: Img, i: nat)
    requires Changed(g, d, h, {}, {}, {}, {i})
    ensures Layout(g, d) && Layout(g, h) && !InodeMarked(g, h, i)
    ensures g.sb.HasInode(i) ==> Rec(g, h, i) == Rec(g, d, i)
    ensures forall b: nat :: Marked(g, h, b) <==> Marked(g, d, b)
  {
    hide Geo.Valid, DescMatches, BlockUsed, InodeUsed, Rec;
  }

  lemma NowReleased(g: Geo, d: Img, d2: Img, h: Img, i: nat, now: nat)
    requires Layout(g, d) && Layout(g, d2) && Layout(g, h) && g.sb.HasInode(i) && !InodeMarked(g, h, i)
             && Cleared(g, h, i, now)
    requires forall b :: b in TreeBlocks(g, d, DiskNode(g, d, i).slots) ==> !Marked(g, d2, b)
    requires forall b: nat :: Marked(g, h, b) <==> Marked(g, d2, b)
    ensures Released(g, d, h, i, now)
  {
    hide Geo.Valid, DescMatches, Marked, InodeMarked, TreeBlocks, DiskNode, Cleared;
  }

  /** A removed name: it led to inode i, its entry is out of the listing, and every other name leads where it
      led.  Where names were unique they still are, and the name leads nowhere. */
  ghost predicate Unlinked(g: Geo, a: Img, d: Img, s: set<nat>, dir: nat, name: seq<byte>, i: nat) {
    && Layout(g, a) && Layout(g, d) && g.sb.HasInode(dir) && g.sb.HasInode(i)
    && var l, l' := Shows(g, a, dir), Shows(g, d, dir);
       && FirstOf(l, name).Some? && FirstOf(l, name).value.ino == i && FirstRemoved(l, l', FirstOf(l, name).value)
       && (forall n :: n != name ==> FirstOf(l', n) == FirstOf(l, n))
       && (NamesUnique(g, a, s) ==> NamesUnique(g, d, s - {i}) && Unbound(l, l', name))
  }

  /** The file lives on under its other names: one link fewer, and all of its blocks still its own. */
  ghost predicate OneLinkLess(g: Geo, a: Img, d: Img, i: nat) {
    && Layout(g, a) && Layout(g, d) && g.sb.HasInode(i) && InodeMarked(g, d, i)
    && Rec(g, d, i).LinksCount() == Rec(g, a, i).LinksCount() - 1 && SameShape(Rec(g, a, i), Rec(g, d, i))
    && Intact(g, a, d, DiskNode(g, a, i))
    && forall b :: b in TreeBlocks(g, a, DiskNode(g, a, i).slots) ==> Marked(g, d, b)
  }

  /** The last link takes the file with it; any other only counts down. */
  ghost predicate LinkDropped(g: Geo, a: Img, d: Img, i: nat, now: nat) {
    && Layout(g, a) && g.sb.HasInode(i)
    && if Rec(g, a, i).LinksCount() <= 1 then Released(g, a, d, i, now) else OneLinkLess(g, a, d, i)
  }

  lemma NowLinkLess(g: Geo, a: Img, d: Img, h: Img, s: set<nat>, dir: nat, i: nat)
    requires Same(g, a, d, s - {dir}) && DiskInv(g, d, s) && i in s && i != dir && g.sb.HasInode(i) && Layout(g, d)
    requires Rec(g, d, i).LinksCount() > 1
             && RecordWritten(g, d, h, i, Rec(g, d, i).SetLinksCount(Rec(g, d, i).LinksCount() - 1))
    ensures OneLinkLess(g, a, h, i) && InodeMarked(g, h, i)
  {
    hide Geo.Valid, DescMatches, DiskInv, Rec, NodeOf, At, InodeMarked, Marked, RawInode.LinksCount, RawInode.Mode,
         RawInode.Size, RawInode.IBlock, RawInode.SetLinksCount, SameCounters, SameRecords, Intact, TreeOk, DiskNodes;
    var raw := Rec(g, d, i);
    LinksFit(raw);
    SetLinksCountEffect(raw, raw.LinksCount() - 1);
    StillInUse(g, d, s, i);
    OwnedElsewhere(g, d, s, i, {});
    var node := DiskNode(g, a, i);
    assert DiskNode(g, d, i) == node;
    TreeHeld(g, a, d, h, node);
  }

  lemma MarkedTwice(g: Geo, h0: seq<Img>, d: Img, d': Img, h1: seq<Img>, i: nat, now: nat)
    requires h1 == h0 + [d] + [d'] && Layout(g, d) && InodeMarked(g, d, i) && Layout(g, d') && InodeMarked(g, d', i)
    ensures ClearedFirst(g, h0, h1, i, now)
  {
    hide Geo.Valid, DescMatches, InodeMarked, Cleared;
  }

  lemma ReleasedCleared(g: Geo, a: Img, d: Img, i: nat, now: nat)
    requires Released(g, a, d, i, now)
    ensures Cleared(g, d, i, now)
  {
    hide Cleared;
  }

  lemma LinksFit(raw: RawInode)
    requires raw.Valid()
    ensures raw.LinksCount() < 0x1_0000
  {
    Widths();
  }

  /** A tree on data blocks stays as it is while another block's bytes and no marks change. */
  lemma TreeHeld(g: Geo, a: Img, d: Img, h: Img, node: Node)
    requires Layout(g, a) && TreeOk(g, d, node.slots) && Intact(g, a, d, node) && SameMarks(g, d, h)
    requires forall x: nat :: g.IsData(x) ==> BlockOf(h, x) == BlockOf(d, x)
    ensures Intact(g, a, h, node) && forall b :: b in TreeBlocks(g, a, node.slots) ==> Marked(g, h, b)
  {
    hide Geo.Valid, DescMatches, Marked, InodeMarked, At;
    assert SamePointers(Ptrs(g), d, h, node.slots);
    forall q | ValidPath(Ptrs(g), q)
      ensures At(h, node.slots, q) == At(a, node.slots, q)
      ensures At(a, node.slots, q) != 0 ==>
                && BlockOf(h, At(a, node.slots, q)) == BlockOf(a, At(a, node.slots, q))
                && Marked(g, h, At(a, node.slots, q))
    {
      AtUnchanged(Ptrs(g), d, h, node.slots, q);
    }
  }

  method Unlink(core: Ext2Core, dirIno: nat, dirRaw: RawInode, name: seq<byte>, now: nat, ghost s: set<nat>)
    returns (r: Outcome<()>, ghost gone: set<nat>)
    requires Sound(core, s) && dirIno in s && core.sb.HasInode(dirIno) && dirRaw == Rec(core.geo, core.disk, dirIno)
    modifies core
    ensures Sound(core, s - gone) && Same(core.geo, old(core.disk), core.disk, s - gone - {dirIno})
    ensures CrashSince(core.geo, old(core.disk), old(core.history), core.history, s, gone, dirIno,
                       Shows(core.geo, old(core.disk), dirIno), Shows(core.geo, core.disk, dirIno))
    ensures r.Fail? ==> gone == {} && core.disk == old(core.disk) && core.history == old(core.history)
    ensures r == Fail(ENOENT) <==> dirRaw.IsDir() && forall e :: e in Shows(core.geo, old(core.disk), dirIno) ==>
              e.name != name
    ensures r.Done? <==> dirRaw.IsDir() && LeadsTo(core.geo, old(core.disk), dirIno, name, false)
    ensures r == Fail(EISDIR) <==> dirRaw.IsDir() && LeadsTo(core.geo, old(core.disk), dirIno, name, true)
    ensures r == Fail(ENOTDIR) <==> !dirRaw.IsDir()
    ensures r.Fail? ==> r.errno in {ENOTDIR, ENOENT, EISDIR}
    ensures r.Done? ==> exists i ::
              && gone == {i} && i in s && Unlinked(core.geo, old(core.disk), core.disk, s, dirIno, name, i)
              && !Rec(core.geo, old(core.disk), i).IsDir()
              && LinkDropped(core.geo, old(core.disk), core.disk, i, now)
              && ClearedFirst(core.geo, old(core.history), core.history, i, now)
    ensures r.Done? ==> Rec(core.geo, core.disk, dirIno) == dirRaw
    ensures Dirs(core.geo, core.disk) == Dirs(core.geo, old(core.disk))
  {
    hide ClearedFirst, Dirs, MoveDirs, Geo.Valid, DescMatches, DiskInv, Same, Shows, OneName, CountersOk, Rec, NodeOf,
         CrashOk, RawInode.Mode, RawInode.LinksCount, FirstOf, Released, Unlinked, InodeMarked, DiskNode, RecordWritten,
         RawInode.SetLinksCount, TablesOf, OneLinkLess;
    ghost var g, a, h0 := core.geo, core.disk, core.history;
    SetLayout(g, a, s);
    BlockSizePositive(g);
    NoChange(g, a, s, dirIno, h0);
    assert s - {} == s;
    if !dirRaw.IsDir() {
      return Fail(ENOTDIR), {};
    }
    var e := Lookup(core, dirRaw, name, s, dirIno);
    if e.None? {
      return Fail(ENOENT), {};
    }
    FirstIsEntry(Shows(g, a, dirIno), e.value);
    var child := e.value.ino;
    var look := core.ReadInode(child);
    if look.value.IsDir() {
      return Fail(EISDIR), {};
    }
    gone := {child};
    ghost var l, t := Shows(g, a, dirIno), s - {child};
    var removed := RemoveName(core, dirIno, dirRaw, e.value, s);
    ghost var d, h1 := core.disk, core.history;
    StillInUse(g, d, s, child);
    SameRec(g, a, d, s - {dirIno}, child);
    var raw := core.ReadInode(child);
    var links := OneFewer(raw.value.LinksCount());
    BookkeepingKeepsShape(raw.value, links);
    ShapeNode(g, raw.value, raw.value.SetLinksCount(links));
    RecNode(g, d, child, raw.value);
    if links == 0 {
      Release(core, child, raw.value.SetLinksCount(links), false, now, a, h0, s, dirIno, l);
      NotMoved(g, d, core.disk, child);
      ClearedAfter(g, h0, h1, core.history, d, child, now);
      ReleasedSince(g, a, d, core.disk, s - {dirIno}, child, now);
    } else {
      WriteOutside(core, child, raw.value.SetLinksCount(links), a, h0, s, {child}, dirIno, l, t);
      NowLinkLess(g, a, d, core.disk, s, dirIno, child);
      MarkedTwice(g, h0, d, core.disk, core.history, child, now);
    }
    NamesStay(g, d, core.disk, t);
    assert Unlinked(g, a, core.disk, s, dirIno, name, child) by {
      hide *;
      NowUnlinked(g, a, d, core.disk, s, dirIno, e.value);
    }
    return Done(()), {child};
  }

  lemma NowUnlinked(g: Geo, a: Img, d: Img, h: Img, s: set<nat>, dir: nat, e: DirEntry)
    requires Layout(g, a) && Layout(g, d) && Layout(g, h) && g.sb.HasInode(dir) && g.sb.HasInode(e.ino) && dir in s
             && e.ino != dir
    requires FirstEntry(Shows(g, a, dir), e) && (forall i :: i in s ==> g.sb.HasInode(i))
    requires FirstRemoved(Shows(g, a, dir), Shows(g, d, dir), e) && Shows(g, h, dir) == Shows(g, d, dir)
    requires Same(g, a, h, s - {e.ino} - {dir})
    ensures Unlinked(g, a, h, s, dir, e.name, e.ino)
  {
    hide Geo.Valid, DescMatches, Same, DirListing, DiskNode, FirstRemoved, FirstOf, UniqueNames;
    var l, l' := Shows(g, a, dir), Shows(g, h, dir);
    forall n | n != e.name ensures FirstOf(l', n) == FirstOf(l, n) { RemoveOthers(l, l', e, n); }
    if NamesUnique(g, a, s) {
      assert UniqueNames(TablesOf(g, a, s)[dir]);
      RemoveUnbinds(l, l', e);
      StillUnique(g, a, h, s, dir, e.ino);
    }
  }

  lemma StillUnique(g: Geo, a: Img, h: Img, s: set<nat>, dir: nat, gone: nat)
    requires NamesUnique(g, a, s) && Layout(g, h) && g.sb.HasInode(dir) && Same(g, a, h, s - {gone} - {dir})
             && UniqueNames(Shows(g, h, dir))
    ensures NamesUnique(g, h, s - {gone})
  {
    hide Geo.Valid, DescMatches, Same, DirListing, DiskNode, UniqueNames;
    var t: Tables, t': Tables := TablesOf(g, a, s), TablesOf(g, h, s - {gone});
    forall i | i in s - {gone} ensures UniqueNames(t'[i]) {
      if i != dir { SameShows(g, a, h, s - {gone} - {dir}, i); }
    }
  }

  /** The released tree is the one the file had when the operation began. */
  lemma ReleasedSince(g: Geo, a: Img, d: Img, h: Img, k: set<nat>, i: nat, now: nat)
    requires Same(g, a, d, k) && i in k && Released(g, d, h, i, now)
    ensures Released(g, a, h, i, now)
  {
    hide Geo.Valid, DescMatches, Marked, InodeMarked, At, Rec, NodeOf, Cleared;
    var slots := DiskNode(g, a, i).slots;
    assert DiskNode(g, d, i) == DiskNode(g, a, i);
    assert TreeBlocks(g, d, slots) == TreeBlocks(g, a, slots) by { SameTreeBlocks(g, a, d, DiskNode(g, a, i)); }
  }

  lemma SameTreeBlocks(g: Geo, a: Img, d: Img, node: Node)
    requires Layout(g, a) && Layout(g, d) && Intact(g, a, d, node)
    ensures TreeBlocks(g, d, node.slots) == TreeBlocks(g, a, node.slots)
  {
    hide Geo.Valid, DescMatches, At;
    forall b: nat ensures Holds(g, d, node.slots, b) <==> Holds(g, a, node.slots, b) { }
  }

  // Rmdir

  lemma StillReleased(g: Geo, a: Img, d: Img, h: Img, i: nat, now: nat, dir: nat, raw: RawInode)
    requires Released(g, a, d, i, now) && RecordWritten(g, d, h, dir, raw) && i != dir
    ensures Released(g, a, h, i, now)
  {
    hide Geo.Valid, DescMatches, BlockUsed, InodeUsed, TreeBlocks, DiskNode, Cleared, SameCounters, Rec;
    StillCleared(g, d, h, i, now);
  }

  /** The name leads to a directory, which is empty or not. */
  ghost predicate LeadsToEmpty(g: Geo, a: Img, dir: nat, name: seq<byte>, empty: bool) {
    LeadsTo(g, a, dir, name, true) && (Shows(g, a, FirstOf(Shows(g, a, dir), name).value.ino) == []) == empty
  }

  method Rmdir(core: Ext2Core, dirIno: nat, dirRaw: RawInode, name: seq<byte>, now: nat, ghost s: set<nat>)
    returns (r: Outcome<()>, ghost gone: set<nat>)
    requires Sound(core, s) && dirIno in s && core.sb.HasInode(dirIno) && dirRaw == Rec(core.geo, core.disk, dirIno)
    modifies core
    ensures Sound(core, s - gone) && Same(core.geo, old(core.disk), core.disk, s - gone - {dirIno})
    ensures CrashSince(core.geo, old(core.disk), old(core.history), core.history, s, gone, dirIno,
                       Shows(core.geo, old(core.disk), dirIno), Shows(core.geo, core.disk, dirIno))
    ensures r.Fail? ==> gone == {} && core.disk == old(core.disk) && core.history == old(core.history)
    ensures r == Fail(ENOENT) <==> dirRaw.IsDir() && forall e :: e in Shows(core.geo, old(core.disk), dirIno) ==>
              e.name != name
    ensures r.Done? <==> dirRaw.IsDir() && LeadsToEmpty(core.geo, old(core.disk), dirIno, name, true)
    ensures r == Fail(ENOTEMPTY) <==> dirRaw.IsDir() && LeadsToEmpty(core.geo, old(core.disk), dirIno, name, false)
    ensures r == Fail(ENOTDIR) <==> !dirRaw.IsDir() || LeadsTo(core.geo, old(core.disk), dirIno, name, false)
    ensures r.Fail? ==> r.errno in {ENOTDIR, ENOENT, ENOTEMPTY}
    ensures r.Done? ==> exists i ::
              && gone == {i} && i in s && Unlinked(core.geo, old(core.disk), core.disk, s, dirIno, name, i)
              && Rec(core.geo, old(core.disk), i).IsDir() && Shows(core.geo, old(core.disk), i) == []
              && Released(core.geo, old(core.disk), core.disk, i, now)
              && DirMoved(core.geo, old(core.disk), core.disk, i, -1)
              && ClearedFirst(core.geo, old(core.history), core.history, i, now)
    ensures r.Done? ==>
              ParentAfter(core.geo, old(core.disk), core.disk, dirIno, OneFewer(dirRaw.LinksCount()))
  {
    hide ClearedFirst, Dirs, MoveDirs, Geo.Valid, DescMatches, DiskInv, Same, Shows, OneName, CountersOk, Rec, NodeOf,
         CrashOk, RawInode.Mode, RawInode.LinksCount, FirstOf, Released, Unlinked, InodeMarked, DiskNode, TablesOf,
         DirInRange, Slots, Entries, BlocksFor, RawInode.Size, SameMarks, DirListing, ParentAfter, RecordWritten,
         Placed;
    ghost var g, a, h0 := core.geo, core.disk, core.history;
    SetLayout(g, a, s);
    BlockSizePositive(g);
    NoChange(g, a, s, dirIno, h0);
    assert s - {} == s;
    if !dirRaw.IsDir() {
      return Fail(ENOTDIR), {};
    }
    var e := Lookup(core, dirRaw, name, s, dirIno);
    if e.None? {
      return Fail(ENOENT), {};
    }
    FirstIsEntry(Shows(g, a, dirIno), e.value);
    var child := e.value.ino;
    var look := core.ReadInode(child);
    if !look.value.IsDir() {
      return Fail(ENOTDIR), {};
    }
    DirReadable(g, a, s, child, look.value);
    ShowsNode(g, a, child, look.value);
    var inside := ReadDirEntries(core, look.value);
    if inside.Err? {
      return Fail(EIO), {};
    }
    if |inside.value| > 0 {
      return Fail(ENOTEMPTY), {};
    }
    gone := {child};
    ghost var l, t := Shows(g, a, dirIno), s - {child};
    var removed := RemoveName(core, dirIno, dirRaw, e.value, s);
    ghost var d, h1 := core.disk, core.history;
    StillInUse(g, d, s, child);
    SameRec(g, a, d, s - {dirIno}, child);
    var raw := core.ReadInode(child);
    RecNode(g, d, child, raw.value);
    Release(core, child, raw.value, true, now, a, h0, s, dirIno, l);
    ReleasedSince(g, a, d, core.disk, s - {dirIno}, child, now);
    NamesStay(g, d, core.disk, t);
    ClearedAfter(g, h0, h1, core.history, d, child, now);
    ghost var d2, h2 := core.disk, core.history;
    var links := OneFewer(dirRaw.LinksCount());
    UpdateLinks(core, dirIno, dirRaw, links, a, h0, s, {child}, l, t);
    StillReleased(g, a, d2, core.disk, child, now, dirIno, dirRaw.SetLinksCount(links));
    ReleasedCleared(g, a, core.disk, child, now);
    ClearedThen(g, h0, h2, core.history, core.disk, child, now);
    LinksFit(dirRaw);
    SmallMod(links);
    ParentMoved(g, a, d2, core.disk, dirIno, links);
    SameTables(g, d2, core.disk, t, dirIno);
    assert Unlinked(g, a, core.disk, s, dirIno, name, child) by {
      hide *;
      NowUnlinked(g, a, d, core.disk, s, dirIno, e.value);
    }
    return Done(()), {child};
  }

  lemma SmallMod(n: nat)
    requires n < 0x1_0000
    ensures n % 0x1_0000 == n
  {
  }

  lemma ShowsNode(g: Geo, d: Img, i: nat, raw: RawInode)
    requires Layout(g, d) && g.sb.HasInode(i) && raw == Rec(g, d, i) && g.sb.blockSize > 0
    ensures Shows(g, d, i) == DirListing(g, d, NodeOf(g, raw))
  {
    hide Geo.Valid, DescMatches, Rec, NodeOf, DirListing;
  }

  // Truncation

  /** Between freeing the blocks and writing the record, the record still names freed blocks: no
      consistent set of inodes can hold the file. */
  lemma TruncateWindow(g: Geo, a: Img, h: Img, s: set<nat>, i: nat, freed: set<nat>, t: set<nat>)
    requires DiskInv(g, a, s) && i in s && i in t && Layout(g, a) && g.sb.HasInode(i)
    requires Changed(g, a, h, {}, freed, {}, {}) && freed <= TreeBlocks(g, a, DiskNode(g, a, i).slots) && freed != {}
    ensures !DiskInv(g, h, t)
  {
    hide Geo.Valid, DescMatches, NodeOf, Rec, At, InodeMarked, BlockUsed, DiskInv;
    var b :| b in freed;
    var q :| ValidPath(Ptrs(g), q) && At(a, DiskNode(g, a, i).slots, q) == b;
    UnchangedTree(g, a, h, s, i, freed, q);
    if DiskInv(g, h, t) { TreeMarked(g, h, t, i, q); }
  }

  lemma TreeMarked(g: Geo, h: Img, t: set<nat>, i: nat, q: Path)
    requires DiskInv(g, h, t) && i in t && g.sb.HasInode(i) && ValidPath(Ptrs(g), q)
             && At(h, DiskNode(g, h, i).slots, q) != 0
    ensures Marked(g, h, At(h, DiskNode(g, h, i).slots, q))
  {
    hide Geo.Valid, DescMatches, NodeOf, Rec, At, Marked, MetaMarked, InodesMarked, Apart, DirsClosed;
    assert DiskNodes(g, h, t)[i] == DiskNode(g, h, i);
  }

  lemma UnchangedTree(g: Geo, a: Img, h: Img, s: set<nat>, i: nat, freed: set<nat>, q: Path)
    requires DiskInv(g, a, s) && i in s && Layout(g, a) && g.sb.HasInode(i) && Changed(g, a, h, {}, freed, {}, {})
             && ValidPath(Ptrs(g), q)
    ensures DiskNode(g, h, i) == DiskNode(g, a, i)
            && At(h, DiskNode(g, a, i).slots, q) == At(a, DiskNode(g, a, i).slots, q)
  {
    hide Geo.Valid, DescMatches, NodeOf, Rec, At, InodeMarked, MetaMarked, InodesMarked, Apart, DirsClosed, Marked;
    var nodes := DiskNodes(g, a, s);
    var node := DiskNode(g, a, i);
    assert nodes[i] == node;
    assert SamePointers(Ptrs(g), a, h, node.slots);
    AtUnchanged(Ptrs(g), a, h, node.slots, q);
  }

  /** With the blocks freed, the file is as good as empty to everyone else. */
  lemma EmptiedInv(g: Geo, a: Img, mid: Img, s: set<nat>, i: nat)
    requires DiskInv(g, a, s) && i in s && Layout(g, a) && g.sb.HasInode(i) && DiskNode(g, a, i).dirBlocks == 0
    requires Changed(g, a, mid, {}, TreeBlocks(g, a, DiskNode(g, a, i).slots), {}, {})
    ensures var nodes := DiskNodes(g, a, s)[i := Node(NoSlots(), 0)];
            Inv(g, mid, nodes) && OthersOnDisk(g, mid, nodes, i) && nodes.Keys == s
            && forall j :: j in s - {i} ==> Intact(g, a, mid, DiskNode(g, a, j))
  {
    hide Geo.Valid, DescMatches, Inv, NodeOf, Rec, Marked, InodeMarked, TreeBlocks, Keeps, Unowned, Intact, Within,
         TreeOk;
    var before := DiskNodes(g, a, s);
    var node := DiskNode(g, a, i);
    assert before[i] == node;
    NoSlotsWithin(node.slots);
    ShrinkNode(g, a, before, i, NoSlots());
    var nodes := before[i := Node(NoSlots(), 0)];
    assert nodes == before[i := node.(slots := NoSlots())];
    var owned := TreeBlocks(g, a, node.slots);
    InvTreeOk(g, a, before, i);
    OwnedIsData(g, a, node.slots);
    ChangedKeeps(g, a, mid, {}, owned, {}, {});
    EmptiedUnowned(g, a, s, i);
    KeepsInv(g, a, mid, nodes, owned, {});
    KeepsIntact(g, a, mid, nodes, owned, {});
    forall j | j in s - {i} ensures Intact(g, a, mid, DiskNode(g, a, j)) { assert nodes[j] == DiskNode(g, a, j); }
    assert OthersOnDisk(g, mid, nodes, i);
  }

  lemma NoSlotsWithin(slots: seq<nat>)
    requires |slots| == 15
    ensures Within(NoSlots(), slots)
  {
  }

  lemma EmptiedUnowned(g: Geo, a: Img, s: set<nat>, i: nat)
    requires DiskInv(g, a, s) && i in s && Layout(g, a) && g.sb.HasInode(i)
    ensures Unowned(g, a, DiskNodes(g, a, s)[i := Node(NoSlots(), 0)], TreeBlocks(g, a, DiskNode(g, a, i).slots))
  {
    hide Geo.Valid, DescMatches, NodeOf, Rec, At, Marked, MetaMarked, InodesMarked, DirsClosed, Sized, Owned, NoSlots;
    var nodes := DiskNodes(g, a, s);
    assert nodes[i] == DiskNode(g, a, i);
    forall q ensures At(a, NoSlots(), q) == 0 { EmptyTree(a, q); }
  }

  /** Inode i's blocks are free in h, and nothing else differs from a but counters. */
  ghost predicate Freed(g: Geo, a: Img, h: Img, i: nat)
    requires Layout(g, a) && g.sb.HasInode(i)
  {
    Changed(g, a, h, {}, TreeBlocks(g, a, DiskNode(g, a, i).slots), {}, {})
  }

  /** Free a file's blocks, then write its emptied record.  The volume is sound before and after; in
      between it is consistent exactly when the file had no blocks to free. */
  method TruncateToZero(core: Ext2Core, ino: nat, raw: RawInode, ghost s: set<nat>)
    returns (r: Result<()>, raw': RawInode, ghost mid: Img)
    requires Sound(core, s) && ino in s && core.sb.HasInode(ino) && raw == Rec(core.geo, core.disk, ino) && !raw.IsDir()
    modifies core
    ensures r.Ok? && Sound(core, s) && Same(core.geo, old(core.disk), core.disk, s - {ino})
    ensures Rec(core.geo, core.disk, ino) == raw' && raw'.Size() == 0 && SameLinks(raw, raw')
    ensures NodeOf(core.geo, raw') == Node(NoSlots(), 0) == DiskNode(core.geo, core.disk, ino)
    ensures forall b :: b in TreeBlocks(core.geo, old(core.disk), DiskNode(core.geo, old(core.disk), ino).slots) ==>
              !Marked(core.geo, core.disk, b)
    ensures DiskInv(core.geo, mid, s) <==>
              TreeBlocks(core.geo, old(core.disk), DiskNode(core.geo, old(core.disk), ino).slots) == {}
    ensures Freed(core.geo, old(core.disk), mid, ino) && core.history[|core.history| - 1] == core.disk
            && old(core.history) < core.history && core.history[|core.history| - 2] == mid
    ensures Dirs(core.geo, core.disk) == Dirs(core.geo, old(core.disk))
  {
    hide Dirs, Geo.Valid, DescMatches, DiskInv, Same, OneName, CountersOk, Rec, NodeOf, RawInode.Mode, RawInode.Size,
         RawInode.LinksCount, InodeMarked, DiskNode, TablesOf, TreeBlocks, Changed, KeptSince, RecordWritten, TreeOk,
         Intact, NoSlots, Marked, SameMarks;
    ghost var g, a := core.geo, core.disk;
    SetLayout(g, a, s);
    BlockSizePositive(g);
    FileNode(g, a, s, ino, raw);
    r, raw' := FreeAllBlocks(core, raw);
    mid := core.disk;
    HistoryGrows(g, a, old(core.history), core.history, TreeBlocks(g, a, NodeOf(g, raw).slots));
    ghost var owned := TreeBlocks(g, a, DiskNode(g, a, ino).slots);
    Window(g, a, mid, s, ino, owned);
    r := core.WriteInode(ino, raw');
    Emptied(g, a, mid, core.disk, s, ino, raw', owned);
    RecNode(g, core.disk, ino, raw');
  }

  lemma FileNode(g: Geo, a: Img, s: set<nat>, i: nat, raw: RawInode)
    requires DiskInv(g, a, s) && i in s && g.sb.HasInode(i) && raw == Rec(g, a, i) && !raw.IsDir() && g.sb.blockSize > 0
    ensures DiskNode(g, a, i) == NodeOf(g, raw) && DiskNode(g, a, i).dirBlocks == 0
            && TreeOk(g, a, NodeOf(g, raw).slots)
  {
    hide Geo.Valid, DescMatches, Inv, Rec, RawInode.Mode, RawInode.Size, Slots, TreeOk;
    InvTreeOk(g, a, DiskNodes(g, a, s), i);
  }

  lemma HistoryGrows(g: Geo, a: Img, h0: seq<Img>, h1: seq<Img>, freed: set<nat>)
    requires KeptSince(g, a, h0, h1, freed, {})
    ensures h0 <= h1
  {
  }

  lemma Window(g: Geo, a: Img, mid: Img, s: set<nat>, i: nat, owned: set<nat>)
    requires DiskInv(g, a, s) && i in s && Layout(g, a) && g.sb.HasInode(i)
             && owned == TreeBlocks(g, a, DiskNode(g, a, i).slots)
    requires Changed(g, a, mid, {}, owned, {}, {})
    ensures DiskInv(g, mid, s) <==> owned == {}
  {
    hide Geo.Valid, DescMatches, DiskInv, Rec, Marked, InodeMarked, TreeBlocks, Keeps, Same, DiskNode;
    if owned == {} {
      ChangedKeeps(g, a, mid, {}, {}, {}, {});
      KeptSame(g, a, mid, s, {});
    } else {
      TruncateWindow(g, a, mid, s, i, owned, s);
    }
  }

  lemma Emptied(g: Geo, a: Img, mid: Img, d: Img, s: set<nat>, i: nat, raw: RawInode, owned: set<nat>)
    requires DiskInv(g, a, s) && OneName(TablesOf(g, a, s)) && i in s && Layout(g, a) && g.sb.HasInode(i)
             && DiskNode(g, a, i).dirBlocks == 0
    requires owned == TreeBlocks(g, a, DiskNode(g, a, i).slots) && Changed(g, a, mid, {}, owned, {}, {})
    requires Layout(g, mid) && Layout(g, d) && g.sb.blockSize > 0 && raw.Valid() && RecordWritten(g, mid, d, i, raw)
    requires NodeOf(g, raw) == Node(NoSlots(), 0) && CountersOk(g, mid)
    ensures DiskInv(g, d, s) && OneName(TablesOf(g, d, s)) && CountersOk(g, d) && Same(g, a, d, s - {i})
            && Rec(g, d, i) == raw
    ensures forall b :: b in owned ==> !Marked(g, d, b)
  {
    hide Geo.Valid, DescMatches, Inv, Rec, NodeOf, Marked, InodeMarked, TreeBlocks, OneName, CountersOk, SameCounters,
         NoSlots, Intact, DirListing;
    EmptiedInv(g, a, mid, s, i);
    var nodes := DiskNodes(g, a, s)[i := Node(NoSlots(), 0)];
    RecordStep(g, mid, d, nodes, i, raw);
    assert DiskNodes(g, d, s) == nodes;
    WrittenRec(g, mid, d, i, raw);
    forall j | j in s - {i} ensures Rec(g, d, j) == Rec(g, a, j) && Intact(g, a, d, DiskNode(g, a, j)) {
      assert nodes[j] == DiskNode(g, a, j);
      IntactTransitive(g, a, mid, d, DiskNode(g, a, j));
    }
    EmptyShows(g, a, d, i, raw);
    SameTables(g, a, d, s, i);
  }

  /** Neither before nor after does a file list anything. */
  lemma EmptyShows(g: Geo, a: Img, d: Img, i: nat, raw: RawInode)
    requires Layout(g, a) && Layout(g, d) && g.sb.HasInode(i) && g.sb.blockSize > 0 && DiskNode(g, a, i).dirBlocks == 0
    requires Rec(g, d, i) == raw && NodeOf(g, raw) == Node(NoSlots(), 0)
    ensures Shows(g, a, i) == [] && Shows(g, d, i) == []
  {
    hide Geo.Valid, DescMatches, Rec, NodeOf;
  }
}
