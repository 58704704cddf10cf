/** The operations that write file content: symlink and write. */
module Writes {
  import Arith
  import opened Bytes
  import opened Geometry
  import opened Inode
  import opened Image
  import opened Tree
  import opened DirBlock
  import opened Consistency
  import opened Counters
  import opened Volume
  import opened Growth
  import opened Listing
  import opened Files
  import opened Content
  import opened Directories
  import opened Walk
  import opened Symlink
  import opened Names
  import opened Session
  import opened Operations
  import opened Removal

  /** The new inode, owning nothing yet, beside the nodes on disk. */
  ghost function WithNew(g: Geo, b: Img, s: set<nat>, new': nat): (m: map<nat, Node>)
    requires g.Valid() && Sized(g, b) && forall i :: i in s ==> g.sb.HasInode(i)
    ensures m.Keys == s + {new'} && m[new'] == Node(NoSlots(), 0)
  {
    DiskNodes(g, b, s)[new' := Node(NoSlots(), 0)]
  }

  lemma WithNewInv(g: Geo, b: Img, s: set<nat>, new': nat)
    requires DiskInv(g, b, s) && new' !in s && g.sb.HasInode(new') && InodeMarked(g, b, new')
    ensures Inv(g, b, WithNew(g, b, s, new')) && OthersOnDisk(g, b, WithNew(g, b, s, new'), new')
  {
    hide Geo.Valid, DescMatches, Inv, NodeOf, Rec, InodeMarked;
    AddNode(g, b, DiskNodes(g, b, s), new');
  }

  /** A step of writing the new inode's content. */
  lemma NewStep(g: Geo, b: Img, h: Img, s: set<nat>, new': nat)
    requires DiskInv(g, b, s) && new' !in s && StepOk(g, b, h, WithNew(g, b, s, new'), new')
    ensures DiskInv(g, h, s + {new'}) && Same(g, b, h, s)
  {
    hide Geo.Valid, DescMatches, Inv, NodeOf, Rec, Intact;
    var nodes := WithNew(g, b, s, new');
    forall j | j in s ensures Intact(g, b, h, DiskNode(g, b, j)) { assert nodes[j] == DiskNode(g, b, j); }
  }

  /** So writing it shows nowhere. */
  lemma NewSteps(core: Ext2Core, a: Img, b: Img, h0: seq<Img>, h1: seq<Img>, s: set<nat>, new': nat, dir: nat)
    requires core.Ready() && DiskInv(core.geo, b, s) && OneName(TablesOf(core.geo, b, s)) && new' !in s && dir in s
             && core.sb.HasInode(dir)
    requires Layout(core.geo, b) && Same(core.geo, a, b, s - {dir})
    requires CrashSince(core.geo, a, h0, h1, s, {}, dir, Shows(core.geo, b, dir), Shows(core.geo, b, dir))
    requires StepOk(core.geo, b, core.disk, WithNew(core.geo, b, s, new'), new')
    requires SafeSince(core.geo, b, h1, core.history, WithNew(core.geo, b, s, new'), new')
    ensures InOp(core, a, h0, s, {}, dir, Shows(core.geo, b, dir), s) && DiskInv(core.geo, core.disk, s + {new'})
    ensures Same(core.geo, b, core.disk, s) && Shows(core.geo, core.disk, dir) == Shows(core.geo, b, dir)
    ensures Rec(core.geo, core.disk, dir) == Rec(core.geo, b, dir)
  {
    hide Geo.Valid, DescMatches, DiskInv, Same, Shows, CrashOk, StepOk, Rec, WithNew, OneName, TablesOf;
    var g, l := core.geo, Shows(core.geo, b, dir);
    assert s - {} == s;
    NewStep(g, b, core.disk, s, new');
    SameCrash(g, a, b, core.disk, s, new', dir);
    forall k | |h1| <= k < |core.history| ensures CrashOk(g, a, core.history[k], s, {}, dir, l, l) {
      NewStep(g, b, core.history[k], s, new');
      SameCrash(g, a, b, core.history[k], s, new', dir);
    }
    CrashAppend(g, a, h0, h1, core.history, s, {}, dir, l, l);
  }

  lemma SameCrash(g: Geo, a: Img, b: Img, h: Img, s: set<nat>, new': nat, dir: nat)
    requires DiskInv(g, b, s) && OneName(TablesOf(g, b, s)) && DiskInv(g, h, s + {new'}) && new' !in s
    requires Same(g, b, h, s) && Same(g, a, b, s - {dir}) && dir in s && g.sb.HasInode(dir) && Layout(g, b)
    ensures DiskInv(g, h, s) && OneName(TablesOf(g, h, s))
    ensures CrashOk(g, a, h, s, {}, dir, Shows(g, b, dir), Shows(g, b, dir)) && Same(g, a, h, s - {dir})
    ensures Shows(g, h, dir) == Shows(g, b, dir) && Rec(g, h, dir) == Rec(g, b, dir)
  {
    hide Geo.Valid, DescMatches, DiskInv, Same, Shows, Rec, OneName, TablesOf;
    assert s - {} == s;
    SetLayout(g, h, s + {new'});
    SameShows(g, b, h, s, dir);
    SameRec(g, b, h, s, dir);
    SameFewer(g, b, h, s, s - {dir});
    Dropped(g, b, h, s, new', dir);
    NamesStay(g, b, h, s);
    SameTransitive(g, a, b, h, s - {dir});
  }

  /** A record without pointers owns nothing. */
  lemma OwnsNothing(g: Geo, d: Img, t: set<nat>, raw: RawInode)
    requires DiskInv(g, d, t) && raw.Valid() && g.sb.blockSize > 0 && NodeOf(g, raw).slots == NoSlots()
    ensures TreeOk(g, d, NodeOf(g, raw).slots) && (forall j :: j in t ==> g.sb.HasInode(j))
    ensures Unowned(g, d, DiskNodes(g, d, t), TreeBlocks(g, d, NodeOf(g, raw).slots))
  {
    hide Geo.Valid, DescMatches, Inv, NodeOf, Rec, At, Marked, NoSlots;
    EmptyTreeBlocks(g, d);
    forall q ensures At(d, NoSlots(), q) == 0 { EmptyTree(d, q); }
  }

  lemma EmptyLink(g: Geo, raw: RawInode)
    requires raw.Valid() && raw.Mode() == SYMLINK_MODE && raw.Size() == 0 && g.sb.blockSize > 0
    ensures NodeOf(g, raw).slots == NoSlots()
  {
    hide RawInode.Mode, RawInode.Size, Slots;
  }

  /** The target survives whatever leaves the symlink alone. */
  lemma TargetKept(g: Geo, d: Img, h: Img, i: nat, raw: RawInode, target: seq<byte>)
    requires LinkWritten(g, d, i, raw, target) && Same(g, d, h, {i}) && g.sb.blockSize > 0
    ensures LinkWritten(g, h, i, raw, target)
  {
    hide Geo.Valid, DescMatches, Rec, RawInode.Mode, RawInode.Size, Slots, ByteAt, Intact, Leaf;
    if !raw.IsFastSymlink() {
      var node := DiskNode(g, d, i);
      assert node.slots == Slots(raw);
      forall k: nat ensures ByteAt(g, h, Slots(raw), k) == ByteAt(g, d, Slots(raw), k) {
        IntactContent(g, d, h, node, k);
      }
      forall x: nat ensures Leaf(h, Slots(raw), Ptrs(g), x) == Leaf(d, Slots(raw), Ptrs(g), x) {
        IntactLeaf(g, d, h, node, x);
      }
      assert FileBytes(g, h, Slots(raw), raw.Size()) == FileBytes(g, d, Slots(raw), raw.Size());
    }
  }

  lemma LinkListsNothing(g: Geo, d: Img, i: nat, raw: RawInode, target: seq<byte>)
    requires LinkWritten(g, d, i, raw, target) && g.sb.blockSize > 0
    ensures Shows(g, d, i) == [] && DiskNode(g, d, i) == NodeOf(g, raw)
  {
    hide Geo.Valid, DescMatches, Rec, RawInode.Mode, RawInode.Size, Slots, Target;
  }

  method MakeSymlink(core: Ext2Core, dirIno: nat, dirRaw: RawInode, name: seq<byte>, target: seq<byte>,
                     ghost s: set<nat>)
    returns (r: Outcome<nat>, ghost s': set<nat>)
    requires Sound(core, s) && dirIno in s && core.sb.HasInode(dirIno) && dirRaw == Rec(core.geo, core.disk, dirIno)
    requires 8 + |name| <= core.sb.blockSize && |target| < 0x1_0000_0000
    modifies core
    ensures Sound(core, s') && Same(core.geo, old(core.disk), core.disk, s - {dirIno})
    ensures CrashSince(core.geo, old(core.disk), old(core.history), core.history, s, {}, dirIno,
                       Shows(core.geo, old(core.disk), dirIno), Shows(core.geo, core.disk, dirIno))
    ensures r.Fail? ==> s' == s && Shows(core.geo, core.disk, dirIno) == Shows(core.geo, old(core.disk), dirIno)
                        && Rec(core.geo, core.disk, dirIno) == dirRaw
    ensures r == Fail(EEXIST) <==>
              dirRaw.IsDir() && exists e :: e in Shows(core.geo, old(core.disk), dirIno) && e.name == name
    ensures r.Fail? ==> r.errno in {ENOTDIR, EEXIST, ENOSPC, EFBIG}
    ensures r == Fail(ENOTDIR) <==> !dirRaw.IsDir()
    ensures r == Fail(ENOSPC) ==>
              NoSpaceFor(core.geo, old(core.disk), old(core.history), core.history, dirRaw, name, |target| >= 60)
    ensures r == Fail(EFBIG) ==> core.geo.Valid() && core.sb.blockSize > 0
                                 && DirFull(core.geo, old(core.disk), NodeOf(core.geo, dirRaw), name)
    ensures Dirs(core.geo, core.disk) == Dirs(core.geo, old(core.disk))
    ensures r.Done? ==>
              && r.value !in s && s' == s + {r.value} && core.sb.HasInode(r.value)
              && LinkWritten(core.geo, core.disk, r.value, Rec(core.geo, core.disk, r.value), target)
              && FreshRecord(core.geo, core.disk, r.value, 0xA1FF, 1)
              && ParentAfter(core.geo, old(core.disk), core.disk, dirIno, dirRaw.LinksCount())
              && Introduced(core.geo, old(core.disk), core.disk, s, dirIno, dirRaw, name,
                            Stored(r.value, name, SYMLINK))
  {
    hide Dirs, MoveDirs, Geo.Valid, DescMatches, DiskInv, Same, Shows, OneName, CountersOk, Rec, NodeOf, CrashOk,
         RawInode.Mode, Linked, Stored, Introduced, Inv, NoFreeInode, InodeMarked, Building, LinkWritten, FirstOf,
         DirFull, HasRoom, DirentLen, FullDuring, ParentAfter, FreshRecord, RawInode.LinksCount;
    ghost var g, a, h0 := core.geo, core.disk, core.history;
    SetLayout(g, a, s);
    BlockSizePositive(g);
    NoChange(g, a, s, dirIno, h0);
    if !dirRaw.IsDir() {
      return Fail(ENOTDIR), s;
    }
    var existing := Lookup(core, dirRaw, name, s, dirIno);
    if existing.Some? {
      FirstIsEntry(Shows(g, a, dirIno), existing.value);
      return Fail(EEXIST), s;
    }
    var i := NewInode(core, false, s);
    if i.None? {
      return Fail(ENOSPC), s;
    }
    NotMoved(g, a, core.disk, i.value);
    r, s' := FinishSymlink(core, dirIno, dirRaw, name, target, i.value, a, h0, s);
  }

  /** Target first, then the name; blocks and inode are given back if the name cannot be written. */
  method FinishSymlink(core: Ext2Core, dirIno: nat, dirRaw: RawInode, name: seq<byte>, target: seq<byte>, new': nat,
                       ghost a: Img, ghost h0: seq<Img>, ghost s: set<nat>)
    returns (r: Outcome<nat>, ghost s': set<nat>)
    requires DiskInv(core.geo, a, s) && OneName(TablesOf(core.geo, a, s)) && dirIno in s && core.sb.HasInode(dirIno)
    requires Building(core, a, h0, {}) && CountersOk(core.geo, core.disk) && h0 != []
    requires new' !in s && core.sb.HasInode(new') && InodeMarked(core.geo, core.disk, new')
    requires dirRaw == Rec(core.geo, a, dirIno) && dirRaw.IsDir() && 8 + |name| <= core.sb.blockSize
             && |target| < 0x1_0000_0000
    requires FirstOf(Shows(core.geo, a, dirIno), name) == None && Dirs(core.geo, core.disk) == Dirs(core.geo, a)
    modifies core
    ensures Dirs(core.geo, core.disk) == Dirs(core.geo, a)
    ensures Sound(core, s') && Same(core.geo, a, core.disk, s - {dirIno})
    ensures CrashSince(core.geo, a, h0, core.history, s, {}, dirIno, Shows(core.geo, a, dirIno),
                       Shows(core.geo, core.disk, dirIno))
    ensures r.Fail? ==>
              && s' == s && Shows(core.geo, core.disk, dirIno) == Shows(core.geo, a, dirIno)
              && Rec(core.geo, core.disk, dirIno) == dirRaw && r.errno in {ENOSPC, EFBIG}
    ensures r == Fail(ENOSPC) ==> NoSpaceFor(core.geo, a, h0, core.history, dirRaw, name, |target| >= 60)
    ensures r == Fail(EFBIG) ==> Layout(core.geo, a) && core.sb.blockSize > 0
                                 && DirFull(core.geo, a, NodeOf(core.geo, dirRaw), name)
    ensures r.Done? ==>
              && r.value == new' && s' == s + {new'}
              && LinkWritten(core.geo, core.disk, new', Rec(core.geo, core.disk, new'), target)
              && FreshRecord(core.geo, core.disk, new', 0xA1FF, 1)
              && ParentAfter(core.geo, a, core.disk, dirIno, dirRaw.LinksCount())
              && Introduced(core.geo, a, core.disk, s, dirIno, dirRaw, name, Stored(new', name, SYMLINK))
  {
    hide Dirs, MoveDirs, Geo.Valid, DescMatches, DiskInv, Same, Shows, OneName, CountersOk, Rec, NodeOf, CrashOk,
         RawInode.Mode, RawInode.Size, NewRecord, Linked, Stored, Introduced, EntryFits, FirstOf, Inv, InodeMarked,
         KeptBut, TablesOf, NoSlots, LinkWritten, StepOk, SafeSince, OthersOnDisk, FreshLink, DiskNode, Ahead,
         SameMarks, TreeBlocks, Unowned, TreeOk, RanOut, DirFull, HasRoom, DirentLen, FullDuring, NoFreeInode,
         ParentAfter, FreshRecord, RawInode.LinksCount;
    ghost var g, b, h1 := core.geo, core.disk, core.history;
    SetLayout(g, a, s);
    GroupArithmetic(g);
    BlockSizePositive(g);
    assert s - {} == s;
    BuildingCrash(core, a, h0, s, {}, dirIno);
    NamesStay(g, a, b, s);
    WithNewInv(g, b, s, new');
    NewRecordNode(g, SYMLINK_MODE, 1);
    NewRecordShape(g.sb.inodeSize, SYMLINK_MODE, 1);
    var written,
        raw := WriteSymlinkTarget(core, NewRecord(core.sb.inodeSize, SYMLINK_MODE, 1), new', target,
                                  WithNew(g, b, s, new'));
    NewSteps(core, a, b, h0, h1, s, new', dirIno);
    ghost var d := core.disk;
    SameTransitive(g, a, b, d, s);
    StillInUse(g, d, s + {new'}, new');
    if written.Err? {
      EmptyLink(g, raw);
      ghost var h2 := core.history;
      CrashHistory(g, a, h0, h2, s, {}, dirIno, Shows(g, a, dirIno), Shows(g, a, dirIno));
      FullNow(core, b, h0);
      r := Abandon(core, raw, new', written.error, a, h0, s, dirIno);
      StillFull(g, h0, h2, core.history);
      return r, s;
    }
    LinkListsNothing(g, d, new', raw, target);
    CrashHistory(g, a, h0, core.history, s, {}, dirIno, Shows(g, a, dirIno), Shows(g, a, dirIno));
    var link, dirRaw' := LinkNew(core, dirIno, dirRaw, name, new', SYMLINK, a, h0, s);
    SameFewer(g, d, core.disk, s + {new'} - {dirIno}, {new'});
    SameRec(g, d, core.disk, {new'}, new');
    SameShows(g, d, core.disk, {new'}, new');
    if link.Err? {
      StillInUse(g, core.disk, s + {new'}, new');
      Dropped(g, a, core.disk, s, new', dirIno);
      SameTables(g, a, core.disk, s, dirIno);
      OwnedElsewhere(g, core.disk, s + {new'}, new', s);
      ghost var h2 := core.history;
      if link == Err(NoSpace) { FullNow(core, d, h0); }
      r := Abandon(core, raw, new', link.error, a, h0, s, dirIno);
      if link == Err(NoSpace) { StillFull(g, h0, h2, core.history); }
      return r, s;
    }
    TargetKept(g, d, core.disk, new', raw, target);
    StoredIno(new', name, SYMLINK);
    InodeIsSmall(g, new');
    NowIntroduced(g, a, core.disk, s, dirIno, dirRaw, name, Stored(new', name, SYMLINK), SYMLINK);
    ParentKept(g, a, core.disk, dirIno);
    NowFreshRecord(g, core.disk, new', raw, NewRecord(core.sb.inodeSize, SYMLINK_MODE, 1));
    return Done(new'), s + {new'};
  }

  /** Give up on a symlink that has no name yet. */
  method Abandon(core: Ext2Core, raw: RawInode, new': nat, e: Ext2Error, ghost a: Img, ghost h0: seq<Img>,
                 ghost s: set<nat>, ghost dir: nat)
    returns (r: Outcome<nat>)
    requires DiskInv(core.geo, a, s) && OneName(TablesOf(core.geo, a, s)) && dir in s && core.sb.HasInode(dir)
    requires InOp(core, a, h0, s, {}, dir, Shows(core.geo, a, dir), s) && CountersOk(core.geo, core.disk)
    requires Shows(core.geo, core.disk, dir) == Shows(core.geo, a, dir)
    requires new' !in s && core.sb.HasInode(new') && InodeMarked(core.geo, core.disk, new') && raw.Valid()
             && core.sb.blockSize > 0
    requires NodeOf(core.geo, raw).slots == NoSlots()
             || (DiskInv(core.geo, core.disk, s + {new'})
             && NodeOf(core.geo, raw) == DiskNode(core.geo, core.disk, new'))
    requires e == NoSpace || e == TooLarge
    modifies core
    ensures Sound(core, s) && Same(core.geo, a, core.disk, s - {dir})
    ensures CrashSince(core.geo, a, h0, core.history, s, {}, dir, Shows(core.geo, a, dir),
                       Shows(core.geo, core.disk, dir))
    ensures r == Fail(FromExt2(e)) && Shows(core.geo, core.disk, dir) == Shows(core.geo, a, dir)
            && Rec(core.geo, core.disk, dir) == Rec(core.geo, old(core.disk), dir)
    ensures old(core.history) <= core.history && Dirs(core.geo, core.disk) == Dirs(core.geo, old(core.disk))
  {
    hide Dirs, MoveDirs, Geo.Valid, DescMatches, DiskInv, Same, Shows, OneName, CountersOk, Rec, NodeOf, CrashSince,
         InodeMarked, TablesOf, NoSlots, DiskNode, TreeBlocks, Unowned, TreeOk, Changed, RawInode.Size;
    ghost var g, d := core.geo, core.disk;
    SetLayout(g, a, s);
    ghost var l := Shows(g, a, dir);
    assert s - {} == s;
    if NodeOf(g, raw).slots == NoSlots() {
      OwnsNothing(g, d, s, raw);
    } else {
      OwnedElsewhere(g, d, s + {new'}, new', s);
    }
    var empty := FreeOwned(core, raw, a, h0, s, {}, dir, l, s, new');
    StillMarkedInode(g, d, core.disk, TreeBlocks(g, d, NodeOf(g, raw).slots), new');
    ghost var d2 := core.disk;
    GiveBack(core, new', false, a, h0, s, {}, dir, l, s);
    NotMoved(g, d2, core.disk, new');
    SameTables(g, a, core.disk, s, dir);
    return Fail(FromExt2(e));
  }

  lemma StillMarkedInode(g: Geo, d: Img, h: Img, freed: set<nat>, i: nat)
    requires Changed(g, d, h, {}, freed, {}, {})
    ensures Layout(g, d) && Layout(g, h) && (InodeMarked(g, d, i) ==> InodeMarked(g, h, i))
  {
    hide Geo.Valid, DescMatches, Marked, InodeUsed, SameRecords;
  }

  // Write

  /** Every image since h0 is consistent, and every inode of s outside `gone` and `touched` is as in a. */
  ghost predicate Survives(g: Geo, a: Img, h0: seq<Img>, h1: seq<Img>, s: set<nat>, gone: set<nat>, touched: nat) {
    h0 <= h1 && forall k :: |h0| <= k < |h1| ==> SomeSet(g, h1[k], s - gone) && Same(g, a, h1[k], s - gone - {touched})
  }

  lemma CrashSurvives(g: Geo, a: Img, h0: seq<Img>, h1: seq<Img>, s: set<nat>, gone: set<nat>, dir: nat,
                      l: seq<DirEntry>, l': seq<DirEntry>)
    requires CrashSince(g, a, h0, h1, s, gone, dir, l, l')
    ensures Survives(g, a, h0, h1, s, gone, dir)
  {
    hide SomeSet, Same, Shows;
  }

  /** A step of a write to a file, which lists nothing before or after. */
  lemma FileStep(g: Geo, a: Img, h: Img, s: set<nat>, i: nat)
    requires DiskInv(g, a, s) && OneName(TablesOf(g, a, s)) && i in s && StepOk(g, a, h, DiskNodes(g, a, s), i)
    requires Layout(g, a) && Layout(g, h) && g.sb.HasInode(i) && Shows(g, h, i) == Shows(g, a, i)
    ensures SomeSet(g, h, s - {}) && Same(g, a, h, s - {} - {i}) && DiskInv(g, h, s) && OneName(TablesOf(g, h, s))
  {
    hide Geo.Valid, DescMatches, Same, StepOk, Inv, OneName, TablesOf, Shows;
    assert s - {} == s;
    StepSame(g, a, h, s, i);
    SameTables(g, a, h, s, i);
  }

  /** So all images of a write survive a crash: quiet ones, and the one that commits the record. */
  lemma FileSteps(g: Geo, a: Img, h0: seq<Img>, h1: seq<Img>, d: Img, s: set<nat>, i: nat)
    requires DiskInv(g, a, s) && OneName(TablesOf(g, a, s)) && i in s && Layout(g, a) && Layout(g, d)
             && g.sb.HasInode(i)
    requires || CommitsLast(g, a, h0, h1, d, DiskNodes(g, a, s), i)
             || (Quiet(g, a, d, DiskNodes(g, a, s), i) && QuietSince(g, a, h0, h1, DiskNodes(g, a, s), i))
    requires Shows(g, d, i) == Shows(g, a, i)
    ensures Survives(g, a, h0, h1, s, {}, i)
    ensures Same(g, a, d, s - {} - {i}) && DiskInv(g, d, s) && OneName(TablesOf(g, d, s))
  {
    hide Geo.Valid, DescMatches, DiskInv, StepOk, SomeSet, Same, OneName, TablesOf, DirListing, DiskNode, DiskNodes,
         Rec, SameRecords;
    SetLayout(g, a, s);
    var nodes := DiskNodes(g, a, s);
    FileStep(g, a, d, s, i);
    forall k | |h0| <= k < |h1| ensures SomeSet(g, h1[k], s - {}) && Same(g, a, h1[k], s - {} - {i}) {
      if k < |h1| - 1 || !CommitsLast(g, a, h0, h1, d, nodes, i) {
        if CommitsLast(g, a, h0, h1, d, nodes, i) { assert h1[k] == h1[..|h1| - 1][k]; }
        QuietLayout(g, a, h1[k], nodes, i);
        FileStep(g, a, h1[k], s, i);
      }
    }
  }

  lemma QuietLayout(g: Geo, a: Img, h: Img, nodes: map<nat, Node>, i: nat)
    requires Quiet(g, a, h, nodes, i)
    ensures Layout(g, a) && Layout(g, h) && g.sb.HasInode(i) && Shows(g, h, i) == Shows(g, a, i)
            && StepOk(g, a, h, nodes, i)
    ensures Rec(g, h, i) == Rec(g, a, i)
  {
    hide Geo.Valid, DescMatches, Rec, DirListing, DiskNode, Inv;
  }

  /** Write to a regular file.  Whatever happens, no other file changes and every image on the way is
      consistent; the bytes written, all of them on success and those before the failure otherwise, are where
      the offset lands, and no other byte of the file changed.  A failed write leaves the record on disk. */
  method WriteFile(core: Ext2Core, ino: nat, raw: RawInode, offset: nat, data: seq<byte>, ghost s: set<nat>)
    returns (r: Outcome<nat>, raw': RawInode, ghost done: nat)
    requires Sound(core, s) && ino in s && core.sb.HasInode(ino) && raw == Rec(core.geo, core.disk, ino) && raw.IsReg()
    requires offset + |data| < 0x1_0000_0000_0000_0000
    modifies core
    ensures Sound(core, s) && Same(core.geo, old(core.disk), core.disk, s - {ino})
    ensures Survives(core.geo, old(core.disk), old(core.history), core.history, s, {}, ino)
    ensures core.geo.Valid() && core.sb.blockSize > 0 && raw'.Valid() && Rec(core.geo, core.disk, ino).IsReg()
    ensures FileWritten(core.geo, old(core.disk), raw, core.disk, ino, raw', offset, data, done)
    ensures r.Done? <==> done == |data|
    ensures r.Done? ==> r.value == |data|
    ensures r.Done? && data != [] ==>
              Landing(offset, core.sb.blockSize) + |data| <= Capacity(Ptrs(core.geo)) * core.sb.blockSize
    ensures r.Fail? ==> r.errno in {ENOSPC, EFBIG}
    ensures r == Fail(ENOSPC) ==> NoFreeBlock(core.geo, core.disk)
    ensures HalfWritten(core.geo, old(core.disk), old(core.history), core.history, core.disk, ino, raw, offset, data)
    ensures r == Fail(EFBIG) ==>
              Landing(offset, core.sb.blockSize) + |data| > Capacity(Ptrs(core.geo)) * core.sb.blockSize
    ensures Dirs(core.geo, core.disk) == Dirs(core.geo, old(core.disk))
  {
    hide Dirs, Geo.Valid, DescMatches, DiskInv, Same, Shows, OneName, CountersOk, Rec, NodeOf, RawInode.Mode,
         RawInode.Size, TablesOf, Slots, StepOk, SafeSince, Inv, Ahead, RangeWritten, Mapped, Capacity, Landing,
         SomeSet, WithRaw, Survives, CommitsLast, Quiet, QuietSince, DiskNodes, PartSince, HalfWritten, NoFreeBlock,
         RanOut;
    ghost var g, a, h0 := core.geo, core.disk, core.history;
    SetLayout(g, a, s);
    BlockSizePositive(g);
    OpenFile(core, s, ino);
    NodeIs(g, a, s, ino);
    RegularNode(g, a, ino, raw);
    ghost var nodes := DiskNodes(g, a, s);
    var n;
    n, raw', done := WriteFileRange(core, ino, raw, offset, data, nodes);
    assert s - {} == s;
    StillNoDir(core, nodes, ino, raw');
    if n.Err? || data == [] { QuietLayout(g, a, core.disk, nodes, ino); }
    FileSteps(g, a, h0, core.history, core.disk, s, ino);
    RegularByMode(raw, raw');
    PartsOnDisk(g, a, h0, core.history, core.disk, ino, raw, raw', offset, data, done, n.Ok? && data != [], nodes);
    if n == Err(NoSpace) { NoneFree(g, a, core.disk); }
    if n.Err? {
      return Fail(FromExt2(n.error)), raw', done;
    }
    return Done(n.value), raw', done;
  }

  /** The first `done` bytes of data are in the file the record raw' describes, and the record is on disk if
      all of them are; otherwise the record on disk is still the old one. */
  ghost predicate FileWritten(g: Geo, a: Img, raw: RawInode, d: Img, i: nat, raw': RawInode, offset: nat,
                              data: seq<byte>, done: nat)
    requires g.Valid() && g.sb.blockSize > 0 && raw.Valid() && raw'.Valid()
  {
    && Layout(g, d) && g.sb.HasInode(i) && done <= |data|
    && RangeWritten(g, a, Slots(raw), d, Slots(raw'), Landing(offset, g.sb.blockSize), data[..done])
    && Rec(g, d, i) == (if done == |data| then raw' else raw)
    && (done == |data| && data != [] ==> raw'.Size() == Arith.Max(raw.Size(), offset + |data|))
  }

  /** In every image since h0 the file's record is the old one, or the image is the last; and each byte of the
      file is the old one or the one written there. */
  ghost predicate HalfWritten(g: Geo, a: Img, h0: seq<Img>, h1: seq<Img>, d: Img, i: nat, raw: RawInode, offset: nat,
                              data: seq<byte>) {
    h0 <= h1 && forall k :: |h0| <= k < |h1| ==> HalfAt(g, a, h1[k], d, i, raw, offset, data)
  }

  ghost predicate HalfAt(g: Geo, a: Img, h: Img, d: Img, i: nat, raw: RawInode, offset: nat, data: seq<byte>) {
    && Layout(g, h) && g.sb.HasInode(i) && g.sb.blockSize > 0 && raw.Valid() && Rec(g, h, i).Valid()
    && (Rec(g, h, i) == raw || h == d)
    && PartWritten(g, a, Slots(raw), h, Slots(Rec(g, h, i)), Landing(offset, g.sb.blockSize), data)
  }

  lemma NoneFree(g: Geo, a: Img, d: Img)
    requires RanOut(g, a, d) && Layout(g, a) && CountersOk(g, a)
    ensures Layout(g, d) && NoFreeBlock(g, d)
  {
    hide Geo.Valid, DescMatches, CountersOk, NoFreeBlock;
  }

  lemma QuietRecord(g: Geo, a: Img, h: Img, nodes: map<nat, Node>, i: nat)
    requires Quiet(g, a, h, nodes, i)
    ensures Layout(g, a) && Layout(g, h) && g.sb.HasInode(i) && Rec(g, h, i) == Rec(g, a, i)
  {
    hide Geo.Valid, DescMatches, Rec, StepOk, DirListing, DiskNode;
  }

  lemma PartsOnDisk(g: Geo, a: Img, h0: seq<Img>, h1: seq<Img>, d: Img, i: nat, raw: RawInode,
                    raw': RawInode, offset: nat, data: seq<byte>, done: nat, committed: bool, nodes: map<nat, Node>)
    requires Layout(g, a) && Layout(g, d) && g.sb.HasInode(i) && g.sb.blockSize > 0 && raw.Valid() && raw'.Valid()
    requires raw == Rec(g, a, i) && FileWritten(g, a, raw, d, i, raw', offset, data, done)
    requires committed ==> CommitsLast(g, a, h0, h1, d, nodes, i) && done == |data| && |h1| > 0
    requires !committed ==> QuietSince(g, a, h0, h1, nodes, i)
    requires PartSince(g, a, h0, if committed then h1[..|h1| - 1]
             else h1, Slots(raw), Landing(offset, g.sb.blockSize), data)
    ensures HalfWritten(g, a, h0, h1, d, i, raw, offset, data)
  {
    hide Geo.Valid, DescMatches, Rec, Slots, PartWritten, RangeWritten, Landing, StepOk, Quiet;
    var h := if committed then h1[..|h1| - 1] else h1;
    forall k | |h0| <= k < |h1| ensures HalfAt(g, a, h1[k], d, i, raw, offset, data) {
      if k < |h| {
        assert h1[k] == h[k];
        QuietRecord(g, a, h[k], nodes, i);
        assert PartWritten(g, a, Slots(raw), h[k], Slots(raw), Landing(offset, g.sb.blockSize), data);
      } else {
        RangeIsPart(g, a, Slots(raw), d, Slots(raw'), Landing(offset, g.sb.blockSize), data, done);
      }
    }
  }

  lemma RegularByMode(raw: RawInode, raw': RawInode)
    requires raw.Valid() && raw'.Valid() && raw.IsReg() && raw'.Mode() == raw.Mode()
    ensures raw'.IsReg()
  {
    hide RawInode.Mode;
  }

  /** Reading anywhere in the file after a write: the written bytes where the write landed, the old bytes,
      zero for holes, everywhere else. */
  method WriteThenRead(core: Ext2Core, ino: nat, raw: RawInode, offset: nat, data: seq<byte>, at: nat,
                       buf: array<byte>, ghost s: set<nat>)
    returns (r: Outcome<nat>, got: Result<()>)
    requires Sound(core, s) && ino in s && core.sb.HasInode(ino) && raw == Rec(core.geo, core.disk, ino) && raw.IsReg()
    requires offset + |data| < 0x1_0000_0000_0000_0000
    modifies core, buf
    ensures core.geo.Valid() && core.sb.blockSize > 0 && got.Ok?
    ensures r.Fail? ==> buf[..] == old(buf[..])
    ensures r.Done? ==> forall k :: 0 <= k < buf.Length ==>
              var first, p := Landing(offset, core.sb.blockSize), Landing(at + k, core.sb.blockSize);
              buf[k] == if first <= p < first + |data| then data[p - first]
                  else ByteAt(core.geo, old(core.disk), Slots(raw), p)
    ensures Dirs(core.geo, core.disk) == Dirs(core.geo, old(core.disk))
  {
    hide Dirs, Geo.Valid, DescMatches, DiskInv, Same, Shows, OneName, CountersOk, Rec, NodeOf, RawInode.Mode,
         RawInode.Size, TablesOf, Slots, Survives, Capacity, BlockIndex, ByteIn, ByteAt, RangeWritten, PointersInRange,
         Leaf, Landing;
    ghost var g := core.geo;
    SetLayout(g, core.disk, s);
    BlockSizePositive(g);
    ghost var done;
    var raw1;
    r, raw1, done := WriteFile(core, ino, raw, offset, data, s);
    if r.Fail? {
      return r, Ok(());
    }
    assert data[..done] == data;
    SetLayout(g, core.disk, s);
    var inode := core.ReadInode(ino);
    var raw' := inode.value;
    FileReadable(g, core.disk, s, ino, raw');
    got := ReadFileRange(core, raw', at, buf);
    forall k | 0 <= k < buf.Length
      ensures buf[k] == ByteAt(g, core.disk, Slots(raw'), Landing(at + k, core.sb.blockSize))
    {
      ByteThere(g, core.disk, Slots(raw'), at + k);
    }
    WrittenAt(g, old(core.disk), Slots(raw), core.disk, Slots(raw'), Landing(offset, core.sb.blockSize), data);
  }

  lemma FileReadable(g: Geo, d: Img, s: set<nat>, i: nat, raw: RawInode)
    requires DiskInv(g, d, s) && i in s && Layout(g, d) && g.sb.HasInode(i) && raw == Rec(g, d, i) && raw.IsReg()
    ensures PointersInRange(g, d, Slots(raw)) && forall x: nat :: Leaf(d, Slots(raw), Ptrs(g), x) < g.sb.blocksCount
  {
    hide Geo.Valid, DescMatches, Rec, NodeOf, RawInode.Mode, Slots, Inv, Leaf, PointersInRange, BlockOf;
    BlockSizePositive(g);
    RegularNode(g, d, i, raw);
    NodeIs(g, d, s, i);
    TreeInRange(g, d, DiskNodes(g, d, s), i, 0);
    forall x: nat ensures Leaf(d, Slots(raw), Ptrs(g), x) < g.sb.blocksCount {
      TreeInRange(g, d, DiskNodes(g, d, s), i, x);
    }
  }

  lemma ByteThere(g: Geo, d: Img, slots: seq<nat>, pos: nat)
    requires g.Valid() && g.sb.blockSize > 0
    ensures ByteIn(g, d, slots, BlockIndex(pos, g.sb.blockSize), pos % g.sb.blockSize)
            == ByteAt(g, d, slots, Landing(pos, g.sb.blockSize))
  {
    hide Geo.Valid, ByteIn, BlockIndex, Landing, BlockNo;
    LandingIs(pos, g.sb.blockSize);
  }

  lemma WrittenAt(g: Geo, a: Img, sa: seq<nat>, d: Img, sd: seq<nat>, offset: nat, data: seq<byte>)
    requires g.Valid() && RangeWritten(g, a, sa, d, sd, offset, data)
    ensures forall pos: nat :: ByteAt(g, d, sd, pos) == if offset <= pos < offset + |data| then data[pos - offset]
            else ByteAt(g, a, sa, pos)
  {
    hide Geo.Valid, ByteAt;
  }

  lemma RegularNode(g: Geo, a: Img, i: nat, raw: RawInode)
    requires Layout(g, a) && g.sb.HasInode(i) && raw == Rec(g, a, i) && raw.IsReg() && g.sb.blockSize > 0
    ensures DiskNode(g, a, i) == Node(Slots(raw), 0) && Shows(g, a, i) == []
  {
    hide Geo.Valid, DescMatches, Rec, RawInode.Mode, Slots;
  }

  lemma StillNoDir(core: Ext2Core, nodes: map<nat, Node>, i: nat, raw: RawInode)
    requires i in nodes && raw.Valid() && Writing(core, WithRaw(nodes, i, raw), i) && nodes[i].dirBlocks == 0
             && core.sb.HasInode(i)
    ensures Shows(core.geo, core.disk, i) == []
  {
    hide Geo.Valid, DescMatches, Inv, Rec, NodeOf, Slots, Within;
  }
}
