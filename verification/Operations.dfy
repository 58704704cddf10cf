/** Lookup, create and mkdir, each run from a sound volume to a sound volume, with every block write on the
    way crash-safe; and the steps removal and writing share with them. */
module Operations {
  import opened Bytes
  import opened Geometry
  import opened Inode
  import opened Image
  import opened Tree
  import opened DirBlock
  import opened Consistency
  import opened Counters
  import opened Volume
  import opened Growth
  import opened Listing
  import opened Files
  import opened Content
  import opened Directories
  import opened Walk
  import opened Symlink
  import opened Names
  import opened Session

  datatype Errno = EIO | ENOSPC | EFBIG | ENOENT | ELOOP | ENOTDIR | EISDIR | EEXIST | ENOTEMPTY | EINVAL

  function FromExt2(e: Ext2Error): Errno {
    match e
    case Io => EIO
    case NoSpace => ENOSPC
    case TooLarge => EFBIG
    case NotFound => ENOENT
    case TooDeep => ELOOP
  }

  datatype Outcome<+T> = Done(value: T) | Fail(errno: Errno)

  const REGULAR: byte := 1
  const DIRECTORY: byte := 2
  const SYMLINK: byte := 7

  /** A mounted volume: consistent, every inode named once, every counter exact. */
  ghost predicate Sound(core: Ext2Core, s: set<nat>)
    reads core
  {
    && core.Ready() && DiskInv(core.geo, core.disk, s)
    && OneName(TablesOf(core.geo, core.disk, s)) && CountersOk(core.geo, core.disk)
  }

  // Lookup

  /** e is the first entry of its name. */
  ghost predicate FirstEntry(es: seq<DirEntry>, e: DirEntry) {
    FirstOf(es, e.name) == Some(e)
  }

  method FindEntry(es: seq<DirEntry>, name: seq<byte>) returns (k: Option<nat>)
    ensures k.Some? ==> k.value < |es| && FirstOf(es, name) == Some(es[k.value])
    ensures k.None? ==> FirstOf(es, name) == None
  {
    hide FirstOf;
    for i := 0 to |es|
      invariant forall j :: 0 <= j < i ==> es[j].name != name
    {
      if es[i].name == name {
        FirstAt(es, i);
        return Some(i);
      }
    }
    FirstIs(es, name);
    return None;
  }

  /** The first entry of the directory with this name. */
  method Lookup(core: Ext2Core, dirRaw: RawInode, name: seq<byte>, ghost s: set<nat>, ghost dir: nat)
    returns (r: Option<DirEntry>)
    requires core.Ready() && DiskInv(core.geo, core.disk, s) && dir in s && core.sb.HasInode(dir)
    requires dirRaw == Rec(core.geo, core.disk, dir) && dirRaw.IsDir()
    ensures r == FirstOf(Shows(core.geo, core.disk, dir), name)
    ensures r.Some? ==> r.value.name == name && r.value.ino in s && r.value.ino != 0 && Listed(name)
    ensures r.None? ==> forall e :: e in Shows(core.geo, core.disk, dir) ==> e.name != name
  {
    hide Geo.Valid, DescMatches, Inv, NodeOf, Rec, RawInode.Mode, RawInode.Size, DirListing, Entries, Slots,
         DirInRange, BlocksFor, FirstOf;
    ghost var g, d := core.geo, core.disk;
    BlockSizePositive(g);
    DirReadable(g, d, s, dir, dirRaw);
    FirstIs(Shows(g, d, dir), name);
    var es := ReadDirEntries(core, dirRaw);
    if es.Err? {
      return None;
    }
    var k := FindEntry(es.value, name);
    if k.None? {
      return None;
    }
    ShownEntry(g, d, s, dir, k.value);
    return Some(es.value[k.value]);
  }

  lemma DirReadable(g: Geo, d: Img, s: set<nat>, dir: nat, raw: RawInode)
    requires DiskInv(g, d, s) && dir in s && g.sb.HasInode(dir) && raw == Rec(g, d, dir) && raw.IsDir()
             && g.sb.blockSize > 0
    ensures DirInRange(g, d, Slots(raw)) && NodeOf(g, raw) == DiskNode(g, d, dir)
  {
    hide Geo.Valid, DescMatches, Inv, Rec, RawInode.Mode, RawInode.Size, Slots, Leaf, PointersInRange, BlocksFor;
    var nodes := DiskNodes(g, d, s);
    DirNode(g, raw);
    TreeInRange(g, d, nodes, dir, 0);
    forall x: nat ensures Leaf(d, Slots(raw), Ptrs(g), x) < |d| { TreeInRange(g, d, nodes, dir, x); }
  }

  lemma ShownEntry(g: Geo, d: Img, s: set<nat>, dir: nat, k: nat)
    requires DiskInv(g, d, s) && dir in s && g.sb.HasInode(dir) && k < |Shows(g, d, dir)|
    ensures Shows(g, d, dir)[k].ino in s && Shows(g, d, dir)[k].ino != 0 && Listed(Shows(g, d, dir)[k].name)
  {
    hide Geo.Valid, DescMatches, Inv, NodeOf, Rec, Leaf, Entries, Scan;
    var nodes := DiskNodes(g, d, s);
    var node := DiskNode(g, d, dir);
    ListingInSet(g, d, nodes, dir, k);
    var x, m := EntryHasBlock(d, node.slots, Ptrs(g), node.dirBlocks, k);
    var b := Leaf(d, node.slots, Ptrs(g), x);
    assert BlockListing(d, node.slots, Ptrs(g), x)[m] in Scan(BlockOf(d, b), 0);
  }

  // Building a new inode, before anything names it

  /** Since image a and history h0 everything in use was kept, and only records of ch changed. */
  ghost predicate Building(core: Ext2Core, a: Img, h0: seq<Img>, ch: set<nat>)
    reads core
  {
    && core.Ready() && KeptBut(core.geo, a, core.disk, ch) && h0 <= core.history
    && forall k :: |h0| <= k < |core.history| ==> KeptBut(core.geo, a, core.history[k], ch)
  }

  ghost predicate KeptBut(g: Geo, a: Img, h: Img, ch: set<nat>) {
    Keeps(g, a, h, {}, {}) && SameRecords(g, a, h, ch)
  }

  lemma KeptButTransitive(g: Geo, a: Img, b: Img, c: Img, ch: set<nat>)
    requires KeptBut(g, a, b, ch) && KeptBut(g, b, c, ch)
    ensures KeptBut(g, a, c, ch)
  {
    hide Geo.Valid, DescMatches, Rec, Keeps;
    KeepsTransitive(g, a, b, c, {}, {});
  }

  lemma KeptButMore(g: Geo, a: Img, h: Img, ch: set<nat>, more: set<nat>)
    requires KeptBut(g, a, h, ch) && ch <= more
    ensures KeptBut(g, a, h, more)
  {
    hide Geo.Valid, DescMatches, Rec, Keeps;
  }

  lemma WrittenKept(g: Geo, a: Img, h: Img, i: nat, raw: RawInode)
    requires RecordWritten(g, a, h, i, raw)
    ensures KeptBut(g, a, h, {i}) && Layout(g, h)
  {
    hide Geo.Valid, DescMatches, Rec, Keeps, SameCounters;
    RecordKeeps(g, a, h, i, raw);
  }

  /** Allocating an inode keeps everything. */
  method NewInode(core: Ext2Core, isDir: bool, ghost s: set<nat>) returns (r: Option<nat>)
    requires Sound(core, s)
    modifies core
    ensures core.Ready() && CountersOk(core.geo, core.disk)
    ensures r.None? ==>
              core.disk == old(core.disk) && core.history == old(core.history) && NoFreeInode(core.geo, core.disk)
    ensures r.Some? ==> Building(core, old(core.disk), old(core.history), {})
                        && r.value !in s && core.sb.HasInode(r.value) && InodeMarked(core.geo, core.disk, r.value)
                        && DirMoved(core.geo, old(core.disk), core.disk, r.value, if isDir then 1 else 0)
  {
    hide DirMoved, Geo.Valid, DescMatches, DiskInv, OneName, Rec, Keeps, InodeMarked, CountersOk, NoFreeInode, Changed;
    ghost var g, a, h0 := core.geo, core.disk, core.history;
    SetLayout(g, a, s);
    var i := core.AllocInode(isDir);
    if i.value.None? {
      return None;
    }
    NewlyMarked(g, a, core.disk, i.value.value);
    return i.value;
  }

  lemma NewlyMarked(g: Geo, a: Img, h: Img, i: nat)
    requires InodeAllocated(g, a, h, i)
    ensures KeptBut(g, a, h, {}) && Layout(g, a) && Layout(g, h) && InodeMarked(g, h, i) && !InodeMarked(g, a, i)
  {
    hide Geo.Valid, DescMatches, Rec, Keeps, BlockUsed, InodeUsed;
    ChangedKeeps(g, a, h, {}, {}, {i}, {});
  }

  /** Writing the record of the inode under construction. */
  method BuildRecord(core: Ext2Core, new': nat, raw: RawInode, ghost a: Img, ghost h0: seq<Img>, ghost ch: set<nat>)
    requires Building(core, a, h0, ch) && core.sb.HasInode(new') && |raw.buf| == core.sb.inodeSize
    modifies core
    ensures Building(core, a, h0, ch + {new'}) && core.history == old(core.history) + [core.disk]
    ensures RecordWritten(core.geo, old(core.disk), core.disk, new', raw)
    ensures CountersOk(core.geo, old(core.disk)) ==> CountersOk(core.geo, core.disk)
    ensures Dirs(core.geo, core.disk) == Dirs(core.geo, old(core.disk))
  {
    hide Dirs, Geo.Valid, DescMatches, KeptBut, RecordWritten, CountersOk;
    ghost var g, b, h1 := core.geo, core.disk, core.history;
    var w := core.WriteInode(new', raw);
    WrittenKept(g, b, core.disk, new', raw);
    WrittenCounters(g, b, core.disk, new', raw);
    KeptButMore(g, a, b, ch, ch + {new'});
    KeptButMore(g, b, core.disk, {new'}, ch + {new'});
    KeptButTransitive(g, a, b, core.disk, ch + {new'});
    forall k | |h0| <= k < |core.history| ensures KeptBut(g, a, core.history[k], ch + {new'}) {
      if k < |h1| { assert core.history[k] == h1[k]; KeptButMore(g, a, h1[k], ch, ch + {new'}); }
    }
  }

  lemma WrittenCounters(g: Geo, a: Img, h: Img, i: nat, raw: RawInode)
    requires RecordWritten(g, a, h, i, raw) && Layout(g, a) && Layout(g, h)
    ensures CountersOk(g, a) ==> CountersOk(g, h)
  {
    hide Geo.Valid, DescMatches, CountersOk, SameMarks, SameRecords;
    SameCountersKeep(g, a, h);
  }

  /** With its record on disk and nothing owned, the new inode may join the set. */
  lemma Joined(g: Geo, a: Img, b: Img, d: Img, s: set<nat>, new': nat, raw: RawInode)
    requires Layout(g, b) && Layout(g, d) && g.sb.HasInode(new') && g.sb.blockSize > 0 && InodeMarked(g, b, new')
    requires DiskInv(g, a, s) && KeptBut(g, a, d, {new'}) && new' !in s
    requires RecordWritten(g, b, d, new', raw) && raw.Valid() && NodeOf(g, raw) == Node(NoSlots(), 0)
    ensures DiskInv(g, d, s) && DiskInv(g, d, s + {new'}) && Same(g, a, d, s) && Shows(g, d, new') == []
  {
    hide Geo.Valid, DescMatches, Inv, NodeOf, Rec, Keeps, Marked, InodeMarked, SameRecords, SameCounters, Same;
    KeptSame(g, a, d, s, {new'});
    var nodes := DiskNodes(g, d, s);
    InvValid(g, d, nodes);
    AddNode(g, d, nodes, new');
    assert DiskNodes(g, d, s + {new'}) == nodes[new' := Node(NoSlots(), 0)];
  }

  /** An inode that lists nothing and that nothing lists may join without disturbing the names. */
  lemma JoinedNames(g: Geo, a: Img, d: Img, s: set<nat>, new': nat, dir: nat)
    requires DiskInv(g, a, s) && OneName(TablesOf(g, a, s)) && dir in s && g.sb.HasInode(dir) && new' !in s
             && g.sb.HasInode(new')
    requires Same(g, a, d, s - {dir}) && Shows(g, d, dir) == Shows(g, a, dir) && Shows(g, d, new') == []
             && DiskInv(g, d, s + {new'})
    ensures OneName(TablesOf(g, d, s + {new'}))
  {
    hide Geo.Valid, DescMatches, DiskInv, Same, DirListing, DiskNode, OneName, Closed;
    SetLayout(g, a, s);
    SetLayout(g, d, s + {new'});
    ConsistentClosed(g, a, s);
    var t: Tables, t': Tables := TablesOf(g, a, s), TablesOf(g, d, s + {new'});
    forall i | i in s && i != dir ensures t'[i] == t[i] { SameShows(g, a, d, s - {dir}, i); }
    assert t'[dir] == InsertAt(t[dir], 0, []);
    NameAdded(t, t', dir, new', 0, []);
  }

  /** What the operation has done so far shows nowhere. */
  lemma BuildingCrash(core: Ext2Core, a: Img, h0: seq<Img>, s: set<nat>, ch: set<nat>, dir: nat)
    requires Building(core, a, h0, ch) && DiskInv(core.geo, a, s) && OneName(TablesOf(core.geo, a, s)) && s !! ch
             && dir in s
    ensures Layout(core.geo, a) && core.sb.HasInode(dir)
    ensures CrashSince(core.geo, a, h0, core.history, s, {}, dir, Shows(core.geo, a, dir), Shows(core.geo, a, dir))
    ensures Same(core.geo, a, core.disk, s) && Same(core.geo, a, core.disk, s - {dir})
            && DiskInv(core.geo, core.disk, s)
    ensures Shows(core.geo, core.disk, dir) == Shows(core.geo, a, dir)
            && Rec(core.geo, core.disk, dir) == Rec(core.geo, a, dir)
  {
    hide Geo.Valid, DescMatches, DiskInv, Keeps, SameRecords, Same, Shows, CrashOk, Inv, Rec, OneName, TablesOf;
    var g := core.geo;
    SetLayout(g, a, s);
    KeptSame(g, a, core.disk, s, ch);
    KeptCrash(g, a, core.disk, s, ch, dir);
    SameRec(g, a, core.disk, s, dir);
    forall k | |h0| <= k < |core.history|
      ensures CrashOk(g, a, core.history[k], s, {}, dir, Shows(g, a, dir), Shows(g, a, dir)) {
      KeptCrash(g, a, core.history[k], s, ch, dir);
    }
  }

  lemma SameRec(g: Geo, a: Img, h: Img, k: set<nat>, i: nat)
    requires Same(g, a, h, k) && i in k
    ensures g.sb.HasInode(i) && Rec(g, h, i) == Rec(g, a, i)
  {
    hide Geo.Valid, DescMatches, Rec, Intact;
  }

  // Linking the new inode into its directory

  /** l' is l with e's entry put in somewhere; in a directory past its size limit l' is cut short instead. */
  ghost predicate Linked(l: seq<DirEntry>, l': seq<DirEntry>, e: DirEntry, fits: bool) {
    if fits then exists k: nat :: k <= |l| && l' == InsertAt(l, k, ShownOf(Record(0, e))) else l' <= l
  }

  /** The entry shows beside one that already has its name. */
  predicate Clash(l: seq<DirEntry>, e: DirEntry, fits: bool) {
    fits && Shown(e) && FirstOf(l, e.name).Some?
  }

  /** Names stay unique unless the entry clashes, and a name that was free now leads to the entry. */
  lemma LinkedMeans(l: seq<DirEntry>, l': seq<DirEntry>, e: DirEntry, fits: bool)
    requires Linked(l, l', e, fits)
    ensures UniqueNames(l) ==> (UniqueNames(l') <==> !Clash(l, e, fits))
    ensures fits && Shown(e) && FirstOf(l, e.name) == None ==> Bound(l, l', e)
  {
    hide FirstOf, Bound, Shown, InsertAt;
    if fits {
      var k: nat :| k <= |l| && l' == InsertAt(l, k, ShownOf(Record(0, e)));
      if Shown(e) {
        if UniqueNames(l) { InsertUnique(l, k, e); }
        if FirstOf(l, e.name) == None { InsertBinds(l, k, e); }
      } else {
        InsertNothing(l, k);
      }
    }
  }

  lemma InsertNothing(l: seq<DirEntry>, k: nat)
    requires k <= |l|
    ensures InsertAt(l, k, []) == l
  {
  }

  ghost predicate NamesUnique(g: Geo, d: Img, s: set<nat>) {
    Layout(g, d) && (forall i :: i in s ==> g.sb.HasInode(i)) && AllUnique(TablesOf(g, d, s))
  }

  /** A new name: the name was free, the entry is in the listing if it fits, and then, when the name survives
      storing and is one a listing shows, the name leads to it and no other name changes its meaning.  Names
      stay unique exactly when the stored entry does not clash with one already there. */
  ghost predicate Introduced(g: Geo, a: Img, d: Img, s: set<nat>, dir: nat, raw: RawInode, name: seq<byte>,
                             e: DirEntry) {
    && Layout(g, a) && Layout(g, d) && g.sb.HasInode(dir) && g.sb.blockSize > 0 && raw.Valid()
    && var l, l', fits := Shows(g, a, dir), Shows(g, d, dir), EntryFits(g, a, raw, name);
       && FirstOf(l, name) == None && Linked(l, l', e, fits)
       && (fits && 0 < |name| <= 255 && name != [46] && name != [46, 46] ==> Bound(l, l', e))
       && (NamesUnique(g, a, s) ==> (NamesUnique(g, d, s + {e.ino}) <==> !Clash(l, e, fits)))
       && (|name| <= 255 ==> !Clash(l, e, fits))
  }

  /** A name of 300 bytes is stored as its first 44, so creating it beside an entry of those 44 bytes is not
      refused and gives the directory two entries of one name. */
  lemma LongNameClashes(x: byte, i: nat, kind: byte, new': nat, fileType: byte)
    requires new' != 0
    ensures var l, name := [DirEntry(i, kind, seq(44, _ => x))], seq(300, _ => x);
            FirstOf(l, name) == None && Clash(l, Stored(new', name, fileType), true)
  {
    var short, name := seq(44, _ => x), seq(300, _ => x);
    assert name[..44] == short;
    FirstIs([DirEntry(i, kind, short)], name);
  }

  lemma QuietCrash(g: Geo, a: Img, b: Img, h: Img, s: set<nat>, t: set<nat>, dir: nat, l': seq<DirEntry>)
    requires DiskInv(g, b, t) && s <= t && Same(g, a, b, s - {dir}) && dir in t
    requires Quiet(g, b, h, DiskNodes(g, b, t), dir) && OneName(TablesOf(g, b, t))
    ensures Layout(g, b) && Layout(g, h) && g.sb.HasInode(dir) && Shows(g, h, dir) == Shows(g, b, dir)
    ensures CrashOk(g, a, h, s, {}, dir, Shows(g, b, dir), l')
  {
    hide Geo.Valid, DescMatches, DiskInv, StepOk, Same, DirListing, DiskNode, CrashOk, Rec, OneName, TablesOf;
    assert s - {} == s;
    SetLayout(g, b, t);
    StepSame(g, b, h, t, dir);
    SetLayout(g, h, t);
    SameTables(g, b, h, t, dir);
    StepCrash(g, a, b, h, s, t, {}, dir, Shows(g, b, dir), l');
  }

  /** Everything AddDirEntry did, seen from the operation's start. */
  lemma LinkCrash(g: Geo, a: Img, b: Img, d: Img, h0: seq<Img>, h1: seq<Img>, h2: seq<Img>, s: set<nat>, t: set<nat>,
                  dir: nat)
    requires DiskInv(g, b, t) && s <= t && Same(g, a, b, s - {dir}) && dir in t && Layout(g, b) && g.sb.HasInode(dir)
    requires CrashSince(g, a, h0, h1, s, {}, dir, Shows(g, b, dir), Shows(g, b, dir))
    requires CommitsLast(g, b, h1, h2, d, DiskNodes(g, b, t), dir) && Layout(g, d)
    requires OneName(TablesOf(g, b, t)) && OneName(TablesOf(g, d, t))
    ensures CrashSince(g, a, h0, h2, s, {}, dir, Shows(g, b, dir), Shows(g, d, dir))
    ensures DiskInv(g, d, t) && Same(g, b, d, t - {dir})
  {
    hide Geo.Valid, DescMatches, DiskInv, StepOk, Same, Shows, CrashOk, Quiet, OneName, TablesOf, DiskNodes, SomeSet;
    var l, l' := Shows(g, b, dir), Shows(g, d, dir);
    assert s - {} == s;
    StepCrash(g, a, b, d, s, t, {}, dir, l, l');
    CrashWiden(g, a, h0, h1, s, {}, dir, l, {}, l');
    forall k | |h1| <= k < |h2| ensures CrashOk(g, a, h2[k], s, {}, dir, l, l') {
      if k < |h2| - 1 {
        assert h2[k] == h2[..|h2| - 1][k];
        QuietCrash(g, a, b, h2[k], s, t, dir, l');
      }
    }
    CrashAppend(g, a, h0, h1, h2, s, {}, dir, l, l');
  }

  lemma NodeIs(g: Geo, b: Img, t: set<nat>, i: nat)
    requires DiskInv(g, b, t) && i in t
    ensures DiskNodes(g, b, t)[i] == DiskNode(g, b, i)
  {
    hide Geo.Valid, DescMatches, Inv, Rec, NodeOf;
  }

  /** A failed AddDirEntry shows nowhere. */
  lemma QuietDone(g: Geo, a: Img, b: Img, d: Img, h0: seq<Img>, h1: seq<Img>, h2: seq<Img>, s: set<nat>, t: set<nat>,
                  dir: nat)
    requires DiskInv(g, b, t) && s <= t && Same(g, a, b, s - {dir}) && dir in t && Layout(g, b) && g.sb.HasInode(dir)
    requires CrashSince(g, a, h0, h1, s, {}, dir, Shows(g, b, dir), Shows(g, b, dir))
    requires Quiet(g, b, d, DiskNodes(g, b, t), dir) && QuietSince(g, b, h1, h2, DiskNodes(g, b, t), dir)
    requires OneName(TablesOf(g, b, t))
    ensures Layout(g, d) && Shows(g, d, dir) == Shows(g, b, dir) && Rec(g, d, dir) == Rec(g, b, dir)
    ensures CrashSince(g, a, h0, h2, s, {}, dir, Shows(g, b, dir), Shows(g, b, dir))
    ensures DiskInv(g, d, t) && Same(g, b, d, t - {dir})
  {
    hide Geo.Valid, DescMatches, DiskInv, StepOk, Same, Shows, CrashOk, Rec, DirListing, DiskNode, OneName, TablesOf;
    var l := Shows(g, b, dir);
    QuietCrash(g, a, b, d, s, t, dir, l);
    StepSame(g, b, d, t, dir);
    forall k | |h1| <= k < |h2| ensures CrashOk(g, a, h2[k], s, {}, dir, l, l) {
      QuietCrash(g, a, b, h2[k], s, t, dir, l);
    }
    CrashAppend(g, a, h0, h1, h2, s, {}, dir, l, l);
  }

  /** Write the name of the new inode, which nothing lists yet and which lists nothing itself. */
  method LinkNew(core: Ext2Core, dirIno: nat, dirRaw: RawInode, name: seq<byte>, new': nat, fileType: byte,
                 ghost a: Img, ghost h0: seq<Img>, ghost s: set<nat>)
    returns (r: Result<()>, dirRaw': RawInode)
    requires DiskInv(core.geo, a, s) && OneName(TablesOf(core.geo, a, s)) && new' !in s && core.sb.HasInode(new')
    requires core.Ready() && core.sb.blockSize > 0 && DiskInv(core.geo, core.disk, s + {new'}) && dirIno in s
             && core.sb.HasInode(dirIno)
    requires dirRaw == Rec(core.geo, core.disk, dirIno) && dirRaw.IsDir() && 8 + |name| <= core.sb.blockSize
    requires Same(core.geo, a, core.disk, s) && Shows(core.geo, core.disk, dirIno) == Shows(core.geo, a, dirIno)
    requires Shows(core.geo, core.disk, new') == []
    requires CrashSince(core.geo, a, h0, core.history, s, {}, dirIno, Shows(core.geo, a, dirIno),
                        Shows(core.geo, a, dirIno))
    modifies core
    ensures core.Ready() && DiskInv(core.geo, core.disk, s + {new'}) && Same(core.geo, a, core.disk, s - {dirIno})
    ensures OneName(TablesOf(core.geo, core.disk, s + {new'}))
    ensures Same(core.geo, old(core.disk), core.disk, s + {new'} - {dirIno})
    ensures CrashSince(core.geo, a, h0, core.history, s, {}, dirIno, Shows(core.geo, a, dirIno),
                       Shows(core.geo, core.disk, dirIno))
    ensures r.Err? ==>
              (r == Err(NoSpace) || r == Err(TooLarge))
              && Shows(core.geo, core.disk, dirIno) == Shows(core.geo, a, dirIno)
                       && Rec(core.geo, core.disk, dirIno) == dirRaw
    ensures r.Ok? ==> dirRaw' == Rec(core.geo, core.disk, dirIno) && dirRaw'.IsDir() && SameLinks(dirRaw, dirRaw')
                      && Linked(Shows(core.geo, a, dirIno), Shows(core.geo, core.disk, dirIno),
                                Stored(new', name, fileType), EntryFits(core.geo, a, dirRaw, name))
    ensures r.Err? ==> !HasRoom(core.geo, a, NodeOf(core.geo, dirRaw), DirentLen(|name|))
    ensures r == Err(NoSpace) ==> RanOut(core.geo, old(core.disk), core.disk)
    ensures r == Err(TooLarge) ==> DirFull(core.geo, a, NodeOf(core.geo, dirRaw), name)
    ensures old(core.history) <= core.history
    ensures CountersOk(core.geo, old(core.disk)) ==> CountersOk(core.geo, core.disk)
    ensures Dirs(core.geo, core.disk) == Dirs(core.geo, old(core.disk))
  {
    hide Dirs, Geo.Valid, DescMatches, DiskInv, StepOk, Same, CrashOk, Quiet, Rec, NodeOf, DirListing, Stored,
         GrowthFits, CountersOk, Inv, Ahead, RawInode.Mode, CommitsLast, ShownOf, HasRoom, OneName, TablesOf,
         WrappedListing, SameLinks, DirentLen, EntryFits, Linked, Added, Shows, CrashSince, RanOut, Capacity;
    ghost var g, b, h1, t := core.geo, core.disk, core.history, s + {new'};
    SetLayout(g, a, s);
    SetLayout(g, b, t);
    SameFewer(g, a, b, s, s - {dirIno});
    JoinedNames(g, a, b, s, new', dirIno);
    OpenDir(core, t, dirIno, dirRaw);
    ghost var nodes := DiskNodes(g, b, t);
    NodeIs(g, b, t, dirIno);
    SameRoom(g, a, b, s, dirIno, dirRaw, name);
    r, dirRaw' := AddDirEntry(core, dirIno, dirRaw, name, new', fileType, nodes);
    ghost var e := Stored(new', name, fileType);
    if r.Err? {
      QuietHistory(g, b, h1, core.history, nodes, dirIno);
      QuietDone(g, a, b, core.disk, h0, h1, core.history, s, t, dirIno);
      SameTables(g, b, core.disk, t, dirIno);
    } else {
      StoredIno(new', name, fileType);
      InvValid(g, core.disk, WithRecord(g, nodes, dirIno, dirRaw'));
      CommitHistory(g, b, h1, core.history, core.disk, nodes, dirIno);
      NowLinked(g, b, core.disk, dirIno, dirRaw, dirRaw', name, e);
      LinkDone(g, a, b, core.disk, h0, h1, core.history, s, new', dirIno, e, EntryFits(g, a, dirRaw, name));
    }
    SameFewer(g, b, core.disk, t - {dirIno}, s - {dirIno});
    SameTransitive(g, a, b, core.disk, s - {dirIno});
  }

  /** What AddDirEntry says of the listing, as the directory shows it. */
  lemma NowLinked(g: Geo, b: Img, d: Img, dir: nat, raw: RawInode, raw': RawInode, name: seq<byte>, e: DirEntry)
    requires Layout(g, b) && Layout(g, d) && g.sb.HasInode(dir) && g.sb.blockSize > 0 && raw == Rec(g, b, dir)
             && raw' == Rec(g, d, dir)
    requires EntryFits(g, b, raw, name) ==> Added(g, b, NodeOf(g, raw), d, NodeOf(g, raw'), e)
    requires !EntryFits(g, b, raw, name) ==> DirListing(g, d, NodeOf(g, raw')) <= DirListing(g, b, NodeOf(g, raw))
    ensures Linked(Shows(g, b, dir), Shows(g, d, dir), e, EntryFits(g, b, raw, name))
  {
    hide Geo.Valid, DescMatches, Rec, NodeOf, DirListing, EntryFits, ShownOf, InsertAt;
  }

  lemma CommitIsStep(g: Geo, a: Img, h0: seq<Img>, h1: seq<Img>, d: Img, nodes: map<nat, Node>, i: nat)
    requires CommitsLast(g, a, h0, h1, d, nodes, i)
    ensures StepOk(g, a, d, nodes, i)
  {
    hide StepOk, QuietSince;
  }

  /** The name is written: seen from the operation's start. */
  lemma QuietHistory(g: Geo, a: Img, h0: seq<Img>, h1: seq<Img>, nodes: map<nat, Node>, i: nat)
    requires QuietSince(g, a, h0, h1, nodes, i)
    ensures h0 <= h1
  {
    hide Quiet;
  }

  lemma CommitHistory(g: Geo, a: Img, h0: seq<Img>, h1: seq<Img>, d: Img, nodes: map<nat, Node>, i: nat)
    requires CommitsLast(g, a, h0, h1, d, nodes, i)
    ensures h0 <= h1
  {
    hide StepOk;
    QuietHistory(g, a, h0, h1[..|h1| - 1], nodes, i);
  }

  // Why an operation is refused

  /** Some image since h0, the one before the first write included, has every block in use. */
  ghost predicate FullDuring(g: Geo, h0: seq<Img>, h1: seq<Img>) {
    h0 != [] && h0 <= h1 && exists k :: |h0| - 1 <= k < |h1| && FullAt(g, h1[k])
  }

  ghost predicate FullAt(g: Geo, h: Img) {
    Layout(g, h) && NoFreeBlock(g, h)
  }

  /** There was no free inode, or a block was needed when there was none. */
  ghost predicate NoSpaceFor(g: Geo, a: Img, h0: seq<Img>, h1: seq<Img>, raw: RawInode, name: seq<byte>, blocks: bool) {
    && Layout(g, a) && raw.Valid() && g.sb.blockSize > 0
    && (NoFreeInode(g, a)
        || ((blocks || !HasRoom(g, a, NodeOf(g, raw), DirentLen(|name|))) && FullDuring(g, h0, h1)))
  }

  lemma FullNow(core: Ext2Core, a: Img, h0: seq<Img>)
    requires core.Ready() && RanOut(core.geo, a, core.disk) && CountersOk(core.geo, a) && h0 != [] && h0 <= core.history
    ensures FullDuring(core.geo, h0, core.history)
  {
    hide Geo.Valid, DescMatches, CountersOk, NoFreeBlock;
    assert FullAt(core.geo, core.history[|core.history| - 1]);
  }

  lemma StillFull(g: Geo, h0: seq<Img>, h1: seq<Img>, h2: seq<Img>)
    requires FullDuring(g, h0, h1) && h1 <= h2
    ensures FullDuring(g, h0, h2)
  {
    hide FullAt;
    var k :| |h0| - 1 <= k < |h1| && FullAt(g, h1[k]);
    assert h2[k] == h1[k];
  }

  /** The name leads to a directory, or to something else. */
  ghost predicate LeadsTo(g: Geo, a: Img, dir: nat, name: seq<byte>, isDir: bool) {
    && Layout(g, a) && g.sb.HasInode(dir)
    && var found := FirstOf(Shows(g, a, dir), name);
       found.Some? && g.sb.HasInode(found.value.ino) && Rec(g, a, found.value.ino).IsDir() == isDir
  }

  lemma LinkDone(g: Geo, a: Img, b: Img, d: Img, h0: seq<Img>, h1: seq<Img>, h2: seq<Img>, s: set<nat>, new': nat,
                 dir: nat, e: DirEntry, fits: bool)
    requires DiskInv(g, a, s) && OneName(TablesOf(g, a, s)) && dir in s && new' !in s && g.sb.HasInode(dir)
             && g.sb.HasInode(new')
    requires DiskInv(g, b, s + {new'}) && OneName(TablesOf(g, b, s + {new'})) && Same(g, a, b, s - {dir})
    requires Layout(g, a) && Layout(g, b) && Layout(g, d) && Shows(g, b, dir) == Shows(g, a, dir)
             && Shows(g, b, new') == []
    requires CrashSince(g, a, h0, h1, s, {}, dir, Shows(g, a, dir), Shows(g, a, dir))
    requires CommitsLast(g, b, h1, h2, d, DiskNodes(g, b, s + {new'}), dir)
    requires Linked(Shows(g, a, dir), Shows(g, d, dir), e, fits) && e.ino == new'
    ensures DiskInv(g, d, s + {new'}) && OneName(TablesOf(g, d, s + {new'})) && Same(g, b, d, s + {new'} - {dir})
    ensures CrashSince(g, a, h0, h2, s, {}, dir, Shows(g, a, dir), Shows(g, d, dir))
  {
    hide Geo.Valid, DescMatches, DiskInv, StepOk, Same, Shows, CrashOk, CrashSince, Quiet, OneName, TablesOf, Linked,
         CommitsLast, DiskNodes;
    var t := s + {new'};
    SetLayout(g, b, t);
    CommitIsStep(g, b, h1, h2, d, DiskNodes(g, b, t), dir);
    StepSame(g, b, d, t, dir);
    SameFewer(g, b, d, t - {dir}, s - {dir});
    SameTransitive(g, a, b, d, s - {dir});
    SameFewer(g, b, d, t - {dir}, {new'});
    LinkedNames(g, a, b, d, s, new', dir, e, fits);
    LinkCrash(g, a, b, d, h0, h1, h2, s, t, dir);
  }

  /** What other inodes did not change, the room in the directory's blocks did not either. */
  lemma SameRoom(g: Geo, a: Img, b: Img, s: set<nat>, dir: nat, raw: RawInode, name: seq<byte>)
    requires Same(g, a, b, s) && dir in s && g.sb.HasInode(dir) && raw == Rec(g, b, dir) && g.sb.blockSize > 0
    ensures raw == Rec(g, a, dir) && (EntryFits(g, b, raw, name) <==> EntryFits(g, a, raw, name))
    ensures HasRoom(g, b, NodeOf(g, raw), DirentLen(|name|)) <==> HasRoom(g, a, NodeOf(g, raw), DirentLen(|name|))
  {
    hide Geo.Valid, DescMatches, Rec, NodeOf, Intact, HasRoom, GrowthFits, DirentLen;
    assert DiskNode(g, a, dir) == NodeOf(g, raw);
    IntactRoom(g, a, b, NodeOf(g, raw), DirentLen(|name|));
  }

  // Undoing a failed operation

  /** An inode nothing lists leaves the set. */
  lemma Dropped(g: Geo, a: Img, d: Img, s: set<nat>, new': nat, dir: nat)
    requires DiskInv(g, a, s) && Same(g, a, d, s - {dir}) && dir in s && g.sb.HasInode(dir)
             && Shows(g, d, dir) == Shows(g, a, dir)
    requires DiskInv(g, d, s + {new'}) && new' !in s
    ensures DiskInv(g, d, s)
  {
    hide Geo.Valid, DescMatches, Inv, Same, DirListing, NodeOf, Rec, Shows;
    SetLayout(g, a, s);
    SameTables(g, a, d, s, dir);
    ConsistentClosed(g, a, s);
    var t: Tables := TablesOf(g, d, s + {new'});
    forall j, x | j in s + {new'} && j != new' && 0 <= x < |t[j]| ensures t[j][x].ino != new' {
      assert t[j] == TablesOf(g, d, s)[j] == TablesOf(g, a, s)[j];
    }
    TablesUnnamed(g, d, s + {new'}, new');
    DropNode(g, d, DiskNodes(g, d, s + {new'}), new');
    assert DiskNodes(g, d, s + {new'}) - {new'} == DiskNodes(g, d, s);
  }

  /** Freeing what no inode of the set owns, and inodes outside it. */
  lemma FreedSame(g: Geo, d: Img, h: Img, s: set<nat>, fb: set<nat>, fi: set<nat>, ch: set<nat>)
    requires DiskInv(g, d, s) && Keeps(g, d, h, fb, fi) && SameRecords(g, d, h, ch) && s !! fi && s !! ch
    requires Unowned(g, d, DiskNodes(g, d, s), fb)
    ensures DiskInv(g, h, s) && Same(g, d, h, s)
  {
    hide Geo.Valid, DescMatches, Inv, NodeOf, Rec, Keeps, Intact, Unowned;
    var nodes := DiskNodes(g, d, s);
    KeepsInv(g, d, h, nodes, fb, fi);
    KeepsIntact(g, d, h, nodes, fb, fi);
    assert DiskNodes(g, h, s) == nodes;
    forall i | i in s ensures Intact(g, d, h, DiskNode(g, d, i)) { assert nodes[i] == DiskNode(g, d, i); }
  }

  /** Such a step, seen from the operation's start. */
  lemma OutsideCrash(g: Geo, a: Img, d: Img, h: Img, s: set<nat>, gone: set<nat>, dir: nat, l: seq<DirEntry>,
                     t: set<nat>)
    requires DiskInv(g, h, t) && Same(g, d, h, t) && s - gone <= t && Same(g, a, d, s - gone - {dir}) && dir in t
    requires Layout(g, d) && g.sb.HasInode(dir) && OneName(TablesOf(g, h, t))
    ensures Layout(g, h) && CrashOk(g, a, h, s, gone, dir, l, Shows(g, d, dir)) && Same(g, a, h, s - gone - {dir})
    ensures Shows(g, h, dir) == Shows(g, d, dir) && Rec(g, h, dir) == Rec(g, d, dir)
  {
    hide Geo.Valid, DescMatches, DiskInv, Same, Shows, Rec, OneName, TablesOf;
    SetLayout(g, h, t);
    SameShows(g, d, h, t, dir);
    SameRec(g, d, h, t, dir);
    SameFewer(g, d, h, t, s - gone - {dir});
    SameTransitive(g, a, d, h, s - gone - {dir});
  }

  /** A stretch of such steps keeps the operation going. */
  lemma OutsideSteps(core: Ext2Core, a: Img, d: Img, h0: seq<Img>, h1: seq<Img>, s: set<nat>, gone: set<nat>,
                     dir: nat, l: seq<DirEntry>, t: set<nat>)
    requires core.Ready() && Layout(core.geo, d) && core.sb.HasInode(dir) && dir in t && s - gone <= t
    requires Same(core.geo, a, d, s - gone - {dir})
             && CrashSince(core.geo, a, h0, h1, s, gone, dir, l, Shows(core.geo, d, dir))
    requires DiskInv(core.geo, d, t) && OneName(TablesOf(core.geo, d, t))
    requires DiskInv(core.geo, core.disk, t) && Same(core.geo, d, core.disk, t) && h1 <= core.history
    requires forall k :: |h1| <= k < |core.history| ==>
               DiskInv(core.geo, core.history[k], t) && Same(core.geo, d, core.history[k], t)
    ensures InOp(core, a, h0, s, gone, dir, l, t) && Shows(core.geo, core.disk, dir) == Shows(core.geo, d, dir)
    ensures Rec(core.geo, core.disk, dir) == Rec(core.geo, d, dir)
  {
    hide Geo.Valid, DescMatches, DiskInv, Same, Shows, CrashOk, Rec, OneName, TablesOf;
    var g := core.geo;
    NamesStay(g, d, core.disk, t);
    OutsideCrash(g, a, d, core.disk, s, gone, dir, l, t);
    forall k | |h1| <= k < |core.history| ensures CrashOk(g, a, core.history[k], s, gone, dir, l, Shows(g, d, dir)) {
      NamesStay(g, d, core.history[k], t);
      OutsideCrash(g, a, d, core.history[k], s, gone, dir, l, t);
    }
    CrashAppend(g, a, h0, h1, core.history, s, gone, dir, l, Shows(g, d, dir));
  }

  lemma InodeFreedSame(g: Geo, d: Img, h: Img, s: set<nat>, i: nat)
    requires DiskInv(g, d, s) && Changed(g, d, h, {}, {}, {}, {i}) && i !in s
    ensures DiskInv(g, h, s) && Same(g, d, h, s)
  {
    hide Geo.Valid, DescMatches, Inv, NodeOf, Rec, Keeps, Same, Marked, InodeMarked;
    ChangedKeeps(g, d, h, {}, {}, {}, {i});
    NothingOwned(g, d, DiskNodes(g, d, s));
    FreedSame(g, d, h, s, {}, {i}, {});
  }

  /** Give back an inode outside the set. */
  method GiveBack(core: Ext2Core, i: nat, isDir: bool, ghost a: Img, ghost h0: seq<Img>, ghost s: set<nat>,
                  ghost gone: set<nat>, ghost dir: nat,
                  ghost l: seq<DirEntry>, ghost t: set<nat>)
    requires InOp(core, a, h0, s, gone, dir, l, t) && i !in t && core.sb.HasInode(i)
             && InodeMarked(core.geo, core.disk, i)
    modifies core
    ensures InOp(core, a, h0, s, gone, dir, l, t) && Same(core.geo, old(core.disk), core.disk, t)
    ensures Shows(core.geo, core.disk, dir) == Shows(core.geo, old(core.disk), dir)
            && Rec(core.geo, core.disk, dir) == Rec(core.geo, old(core.disk), dir)
    ensures Changed(core.geo, old(core.disk), core.disk, {}, {}, {}, {i})
    ensures ChangedSince(core.geo, old(core.disk), old(core.history), core.history, {}, {}, {}, {i})
    ensures CountersOk(core.geo, old(core.disk)) ==> CountersOk(core.geo, core.disk)
    ensures DirMoved(core.geo, old(core.disk), core.disk, i, if isDir then -1 else 0)
  {
    hide DirMoved, Geo.Valid, DescMatches, DiskInv, Same, Shows, CrashSince, CountersOk, Changed, InodeMarked, Rec,
         OneName, TablesOf;
    ghost var g, d, h1 := core.geo, core.disk, core.history;
    var w := core.FreeInode(i, isDir);
    InodeFreedSame(g, d, core.disk, t, i);
    forall k | |h1| <= k < |core.history| ensures DiskInv(g, core.history[k], t) && Same(g, d, core.history[k], t) {
      InodeFreedSame(g, d, core.history[k], t, i);
    }
    OutsideSteps(core, a, d, h0, h1, s, gone, dir, l, t);
  }

  // Records

  const REGULAR_MODE := 0x81A4  // 0x8000 with permissions 0644
  const DIRECTORY_MODE := 0x41ED  // 0x4000 with permissions 0755
  const SYMLINK_MODE := 0xA1FF  // 0xA000 with permissions 0777

  function NewRecord(size: nat, mode: nat, links: nat): (r: RawInode)
    requires size >= 128
    ensures r.Valid() && |r.buf| == size
  {
    Zeroed(size).SetMode(mode).SetLinksCount(links)
  }

  /** A new record: the type given, no size, no pointers. */
  lemma NewRecordShape(size: nat, mode: nat, links: nat)
    requires size >= 128 && mode < 0x1_0000
    ensures var r := NewRecord(size, mode, links);
            && r.Mode() == mode && r.Size() == 0 && Slots(r) == NoSlots() && r.LinksCount() == links % 0x1_0000
  {
    hide RawInode.SetMode, RawInode.SetLinksCount, Zeroed, RawInode.Mode, RawInode.IBlock, RawInode.LinksCount;
    var z := Zeroed(size);
    ZeroedReadsZero(size);
    SetModeEffect(z, mode);
    var m := z.SetMode(mode);
    SetLinksCountEffect(m, links);
    assert m.Size() == 0;
  }

  /** The inode's record has this mode and this many links. */
  ghost predicate FreshRecord(g: Geo, d: Img, i: nat, mode: nat, links: nat) {
    Layout(g, d) && g.sb.HasInode(i) && Rec(g, d, i).Mode() == mode && Rec(g, d, i).LinksCount() == links
  }

  lemma NowFreshRecord(g: Geo, d: Img, i: nat, raw: RawInode, new': RawInode)
    requires Layout(g, d) && g.sb.HasInode(i) && Rec(g, d, i) == raw && SameLinks(new', raw)
    ensures FreshRecord(g, d, i, new'.Mode(), new'.LinksCount())
  {
    hide Geo.Valid, DescMatches, Rec, RawInode.Mode, RawInode.LinksCount;
  }

  lemma NewRecordNode(g: Geo, mode: nat, links: nat)
    requires g.Valid() && g.sb.blockSize > 0 && g.sb.inodeSize >= 128 && (mode == REGULAR_MODE || mode == SYMLINK_MODE)
    ensures NodeOf(g, NewRecord(g.sb.inodeSize, mode, links)) == Node(NoSlots(), 0)
    ensures mode == REGULAR_MODE ==> NewRecord(g.sb.inodeSize, mode, links).IsReg()
    ensures mode == SYMLINK_MODE ==> FreshLink(NewRecord(g.sb.inodeSize, mode, links))
  {
    hide NewRecord, Geo.Valid, RawInode.Mode, RawInode.Size, Slots;
    NewRecordShape(g.sb.inodeSize, mode, links);
  }

  /** After a successful link every inode is still named once. */
  lemma LinkedNames(g: Geo, a: Img, b: Img, d: Img, s: set<nat>, new': nat, dir: nat, e: DirEntry, fits: bool)
    requires DiskInv(g, a, s) && OneName(TablesOf(g, a, s)) && dir in s && new' !in s && g.sb.HasInode(dir)
             && g.sb.HasInode(new')
    requires Same(g, a, d, s - {dir}) && Same(g, b, d, {new'}) && Shows(g, b, new') == []
    requires DiskInv(g, d, s + {new'}) && Linked(Shows(g, a, dir), Shows(g, d, dir), e, fits) && e.ino == new'
    ensures OneName(TablesOf(g, d, s + {new'}))
  {
    hide Geo.Valid, DescMatches, DiskInv, Same, DirListing, DiskNode, OneName, Closed;
    SetLayout(g, a, s);
    SetLayout(g, d, s + {new'});
    var t: Tables, t': Tables := TablesOf(g, a, s), TablesOf(g, d, s + {new'});
    ConsistentClosed(g, a, s);
    SameShows(g, b, d, {new'}, new');
    forall i | i in s && i != dir ensures t'[i] == t[i] { SameShows(g, a, d, s - {dir}, i); }
    if fits {
      var k: nat :| k <= |t[dir]| && t'[dir] == InsertAt(t[dir], k, ShownOf(Record(0, e)));
      NameAdded(t, t', dir, new', k, ShownOf(Record(0, e)));
    } else {
      NamesCut(t, t', dir, new');
    }
  }

  /** ... and the new name means what it should. */
  lemma NowIntroduced(g: Geo, a: Img, d: Img, s: set<nat>, dir: nat, raw: RawInode, name: seq<byte>, e: DirEntry,
                      fileType: byte)
    requires DiskInv(g, a, s) && dir in s && e.ino !in s && e.ino != 0 && g.sb.HasInode(dir) && g.sb.HasInode(e.ino)
    requires Same(g, a, d, s - {dir}) && Shows(g, d, e.ino) == [] && DiskInv(g, d, s + {e.ino})
    requires g.sb.blockSize > 0 && raw.Valid() && FirstOf(Shows(g, a, dir), name) == None
             && e == Stored(e.ino, name, fileType)
    requires Linked(Shows(g, a, dir), Shows(g, d, dir), e, EntryFits(g, a, raw, name))
    ensures Introduced(g, a, d, s, dir, raw, name, e)
  {
    hide Geo.Valid, DescMatches, DiskInv, Same, Shows, Linked, FirstOf, Bound, EntryFits, UniqueNames, TablesOf, Stored;
    SetLayout(g, a, s);
    SetLayout(g, d, s + {e.ino});
    var l, l', fits := Shows(g, a, dir), Shows(g, d, dir), EntryFits(g, a, raw, name);
    LinkedMeans(l, l', e, fits);
    NameSurvivesUpTo255(e.ino, name, fileType);
    UniqueExceptHere(g, a, d, s, dir, e.ino);
  }

  lemma UniqueExceptHere(g: Geo, a: Img, d: Img, s: set<nat>, dir: nat, new': nat)
    requires Layout(g, a) && Layout(g, d) && (forall i :: i in s + {new'} ==> g.sb.HasInode(i)) && dir in s
             && new' !in s
    requires Same(g, a, d, s - {dir}) && Shows(g, d, new') == []
    ensures NamesUnique(g, a, s) ==> UniqueNames(Shows(g, a, dir))
    ensures NamesUnique(g, a, s) ==> (NamesUnique(g, d, s + {new'}) <==> UniqueNames(Shows(g, d, dir)))
  {
    hide Geo.Valid, DescMatches, Same, DirListing, DiskNode, UniqueNames;
    var t: Tables, t': Tables := TablesOf(g, a, s), TablesOf(g, d, s + {new'});
    assert UniqueNames([]) by { NoNames(); }
    forall i | i in s && i != dir ensures t'[i] == t[i] { SameShows(g, a, d, s - {dir}, i); }
  }

  lemma NoNames()
    ensures UniqueNames([])
  {
  }

  // Create

  /** A lookup's answer is this inode. */
  predicate Leads(found: Option<DirEntry>, i: nat) {
    found.Some? && found.value.ino == i
  }

  method Create(core: Ext2Core, dirIno: nat, dirRaw: RawInode, name: seq<byte>, ghost s: set<nat>)
    returns (r: Outcome<nat>, ghost s': set<nat>)
    requires Sound(core, s) && dirIno in s && core.sb.HasInode(dirIno) && dirRaw == Rec(core.geo, core.disk, dirIno)
    requires 8 + |name| <= core.sb.blockSize
    modifies core
    ensures Sound(core, s') && s <= s' && Same(core.geo, old(core.disk), core.disk, s - {dirIno})
    ensures CrashSince(core.geo, old(core.disk), old(core.history), core.history, s, {}, dirIno,
                       Shows(core.geo, old(core.disk), dirIno), Shows(core.geo, core.disk, dirIno))
    ensures r.Fail? ==> s' == s && Shows(core.geo, core.disk, dirIno) == Shows(core.geo, old(core.disk), dirIno)
                        && Rec(core.geo, core.disk, dirIno) == dirRaw
    ensures r.Fail? ==> r.errno in {ENOTDIR, EISDIR, ENOSPC, EFBIG}
    ensures r == Fail(ENOTDIR) <==> !dirRaw.IsDir()
    ensures r == Fail(EISDIR) <==> dirRaw.IsDir() && LeadsTo(core.geo, old(core.disk), dirIno, name, true)
    ensures r == Fail(ENOSPC) ==>
              NoSpaceFor(core.geo, old(core.disk), old(core.history), core.history, dirRaw, name, false)
    ensures r == Fail(EFBIG) ==> core.geo.Valid() && core.sb.blockSize > 0
                                 && DirFull(core.geo, old(core.disk), NodeOf(core.geo, dirRaw), name)
    ensures Dirs(core.geo, core.disk) == Dirs(core.geo, old(core.disk))
    ensures r.Done? ==> r.value in s' && !Rec(core.geo, core.disk, r.value).IsDir()
    ensures r.Done? && r.value in s ==> s' == s && core.disk == old(core.disk) && core.history == old(core.history)
                                        && Leads(FirstOf(Shows(core.geo, core.disk, dirIno), name), r.value)
    ensures r.Done? && r.value !in s ==>
              && s' == s + {r.value}
              && Rec(core.geo, core.disk, r.value) == NewRecord(core.sb.inodeSize, REGULAR_MODE, 1)
              && FreshRecord(core.geo, core.disk, r.value, 0x81A4, 1)
              && ParentAfter(core.geo, old(core.disk), core.disk, dirIno, dirRaw.LinksCount())
              && Introduced(core.geo, old(core.disk), core.disk, s, dirIno, dirRaw, name,
                            Stored(r.value, name, REGULAR))
  {
    hide Dirs, MoveDirs, Geo.Valid, DescMatches, DiskInv, Same, Shows, OneName, CountersOk, Rec, NodeOf, CrashOk,
         RawInode.Mode, NewRecord, Linked, Stored, Introduced, Inv, FirstOf, NoFreeInode, InodeMarked, RecordWritten,
         DirFull, HasRoom, DirentLen, FullDuring, ParentAfter, FreshRecord, RawInode.LinksCount;
    ghost var g, a, h0 := core.geo, core.disk, core.history;
    s' := s;
    SetLayout(g, a, s);
    BlockSizePositive(g);
    NoChange(g, a, s, dirIno, h0);
    if !dirRaw.IsDir() {
      return Fail(ENOTDIR), s;
    }
    var existing := Lookup(core, dirRaw, name, s, dirIno);
    if existing.Some? {
      var child := core.ReadInode(existing.value.ino);
      if child.value.IsDir() {
        return Fail(EISDIR), s;
      }
      return Done(existing.value.ino), s;
    }
    var i := NewInode(core, false, s);
    if i.None? {
      return Fail(ENOSPC), s;
    }
    var new' := i.value;
    NotMoved(g, a, core.disk, new');
    r, s' := FinishCreate(core, dirIno, dirRaw, name, new', a, h0, s);
  }

  lemma CrashHistory(g: Geo, a: Img, h0: seq<Img>, h1: seq<Img>, s: set<nat>, gone: set<nat>, dir: nat,
                     l: seq<DirEntry>, l': seq<DirEntry>)
    requires CrashSince(g, a, h0, h1, s, gone, dir, l, l')
    ensures h0 <= h1
  {
    hide CrashOk;
  }

  lemma NoChange(g: Geo, a: Img, s: set<nat>, dir: nat, h0: seq<Img>)
    requires DiskInv(g, a, s) && dir in s && g.sb.HasInode(dir) && Layout(g, a)
    ensures Same(g, a, a, s - {dir}) && CrashSince(g, a, h0, h0, s, {}, dir, Shows(g, a, dir), Shows(g, a, dir))
  {
    hide Geo.Valid, DescMatches, DiskInv, Rec, NodeOf, At, Shows;
    SetLayout(g, a, s);
  }

  /** The record of the new file, then its name; the inode is given back if the name cannot be written. */
  method FinishCreate(core: Ext2Core, dirIno: nat, dirRaw: RawInode, name: seq<byte>, new': nat, ghost a: Img,
                      ghost h0: seq<Img>, ghost s: set<nat>)
    returns (r: Outcome<nat>, ghost s': set<nat>)
    requires DiskInv(core.geo, a, s) && OneName(TablesOf(core.geo, a, s)) && dirIno in s && core.sb.HasInode(dirIno)
    requires Building(core, a, h0, {}) && CountersOk(core.geo, core.disk) && h0 != []
    requires new' !in s && core.sb.HasInode(new') && InodeMarked(core.geo, core.disk, new')
    requires dirRaw == Rec(core.geo, a, dirIno) && dirRaw.IsDir() && 8 + |name| <= core.sb.blockSize
    requires FirstOf(Shows(core.geo, a, dirIno), name) == None && Dirs(core.geo, core.disk) == Dirs(core.geo, a)
    modifies core
    ensures Dirs(core.geo, core.disk) == Dirs(core.geo, a)
    ensures Sound(core, s') && s <= s' && Same(core.geo, a, core.disk, s - {dirIno})
    ensures CrashSince(core.geo, a, h0, core.history, s, {}, dirIno, Shows(core.geo, a, dirIno),
                       Shows(core.geo, core.disk, dirIno))
    ensures r.Fail? ==>
              && s' == s && Shows(core.geo, core.disk, dirIno) == Shows(core.geo, a, dirIno)
              && Rec(core.geo, core.disk, dirIno) == dirRaw && r.errno in {ENOSPC, EFBIG}
    ensures r == Fail(ENOSPC) ==> NoSpaceFor(core.geo, a, h0, core.history, dirRaw, name, false)
    ensures r == Fail(EFBIG) ==> Layout(core.geo, a) && core.sb.blockSize > 0
                                 && DirFull(core.geo, a, NodeOf(core.geo, dirRaw), name)
    ensures r.Done? ==>
              && r.value == new' && s' == s + {new'}
              && Rec(core.geo, core.disk, new') == NewRecord(core.sb.inodeSize, REGULAR_MODE, 1)
              && !Rec(core.geo, core.disk, new').IsDir()
              && FreshRecord(core.geo, core.disk, new', 0x81A4, 1)
              && ParentAfter(core.geo, a, core.disk, dirIno, dirRaw.LinksCount())
              && Introduced(core.geo, a, core.disk, s, dirIno, dirRaw, name, Stored(new', name, REGULAR))
  {
    hide Dirs, MoveDirs, Geo.Valid, DescMatches, DiskInv, Same, Shows, OneName, CountersOk, Rec, NodeOf, CrashOk,
         RawInode.Mode, NewRecord, Linked, Stored, Introduced, EntryFits, Inv, InodeMarked, RecordWritten, KeptBut,
         TablesOf, FirstOf, RanOut, DirFull, HasRoom, DirentLen, FullDuring, NoFreeInode, ParentAfter, FreshRecord,
         RawInode.LinksCount;
    ghost var g, b := core.geo, core.disk;
    GroupArithmetic(g);
    BlockSizePositive(g);
    var raw := NewRecord(core.sb.inodeSize, REGULAR_MODE, 1);
    NewRecordNode(g, REGULAR_MODE, 1);
    BuildRecord(core, new', raw, a, h0, {});
    ghost var d := core.disk;
    assert {} + {new'} == {new'};
    Joined(g, a, b, d, s, new', raw);
    BuildingCrash(core, a, h0, s, {new'}, dirIno);
    WrittenRec(g, b, d, new', raw);
    CrashHistory(g, a, h0, core.history, s, {}, dirIno, Shows(g, a, dirIno), Shows(g, a, dirIno));
    var link, dirRaw' := LinkNew(core, dirIno, dirRaw, name, new', REGULAR, a, h0, s);
    SameFewer(g, d, core.disk, s + {new'} - {dirIno}, {new'});
    SameRec(g, d, core.disk, {new'}, new');
    if link.Err? {
      Dropped(g, a, core.disk, s, new', dirIno);
      StillInUse(g, core.disk, s + {new'}, new');
      assert s - {} == s;
      SameTables(g, a, core.disk, s, dirIno);
      ghost var h2 := core.history;
      if link == Err(NoSpace) { FullNow(core, d, h0); }
      ghost var d2 := core.disk;
      GiveBack(core, new', false, a, h0, s, {}, dirIno, Shows(g, a, dirIno), s);
      NotMoved(g, d2, core.disk, new');
      SameTables(g, a, core.disk, s, dirIno);
      if link == Err(NoSpace) { StillFull(g, h0, h2, core.history); }
      return Fail(FromExt2(link.error)), s;
    }
    StoredIno(new', name, REGULAR);
    SameShows(g, d, core.disk, {new'}, new');
    InodeIsSmall(g, new');
    NowIntroduced(g, a, core.disk, s, dirIno, dirRaw, name, Stored(new', name, REGULAR), REGULAR);
    ParentKept(g, a, core.disk, dirIno);
    NewRecordShape(core.sb.inodeSize, REGULAR_MODE, 1);
    NowFreshRecord(g, core.disk, new', raw, raw);
    RegularIsNoDir(raw);
    return Done(new'), s + {new'};
  }

  lemma StillInUse(g: Geo, d: Img, t: set<nat>, i: nat)
    requires DiskInv(g, d, t) && i in t
    ensures Layout(g, d) && InodeMarked(g, d, i)
  {
    hide DiskInv;
    SetLayout(g, d, t);
  }

  lemma RegularIsNoDir(raw: RawInode)
    requires raw.Valid() && raw.IsReg()
    ensures !raw.IsDir()
  {
  }

  // Bookkeeping on a directory's own record

  /** An operation under way: the volume is consistent with t, and everything since a was crash-safe. */
  ghost predicate InOp(core: Ext2Core, a: Img, h0: seq<Img>, s: set<nat>, gone: set<nat>, dir: nat, l: seq<DirEntry>,
                       t: set<nat>)
    reads core
  {
    && core.Ready() && DiskInv(core.geo, core.disk, t) && s - gone <= t && dir in t && core.sb.HasInode(dir)
    && OneName(TablesOf(core.geo, core.disk, t))
    && Same(core.geo, a, core.disk, s - gone - {dir})
    && CrashSince(core.geo, a, h0, core.history, s, gone, dir, l, Shows(core.geo, core.disk, dir))
  }

  /** Writing back a record that differs in bookkeeping only. */
  lemma LinksStep(g: Geo, d: Img, h: Img, t: set<nat>, dir: nat, raw: RawInode)
    requires DiskInv(g, d, t) && dir in t && g.sb.HasInode(dir) && g.sb.blockSize > 0 && raw.Valid()
    requires RecordWritten(g, d, h, dir, raw) && SameShape(Rec(g, d, dir), raw)
    ensures DiskInv(g, h, t) && StepOk(g, d, h, DiskNodes(g, d, t), dir) && Layout(g, h)
    ensures Shows(g, h, dir) == Shows(g, d, dir) && (CountersOk(g, d) ==> CountersOk(g, h))
  {
    hide Geo.Valid, DescMatches, Inv, Rec, RecordWritten, CountersOk, RawInode.Mode, RawInode.Size, RawInode.IBlock,
         DirListing, StepOk, NodeOf;
    SetLayout(g, d, t);
    ShapeNode(g, Rec(g, d, dir), raw);
    var nodes := DiskNodes(g, d, t);
    NodeIs(g, d, t, dir);
    assert OthersOnDisk(g, d, nodes, dir);
    RecordStep(g, d, h, nodes, dir, raw);
    WrittenLayout(g, d, h, dir, raw);
    WrittenRec(g, d, h, dir, raw);
    IntactListing(g, d, h, DiskNode(g, d, dir));
  }

  lemma ShapeNode(g: Geo, a: RawInode, b: RawInode)
    requires a.Valid() && b.Valid() && SameShape(a, b) && g.sb.blockSize > 0
    ensures NodeOf(g, b) == NodeOf(g, a)
  {
    hide RawInode.Mode, RawInode.Size, RawInode.IBlock, BlocksFor;
    assert Slots(a) == Slots(b);
  }

  /** The directory kept its type and has this many links. */
  ghost predicate ParentAfter(g: Geo, a: Img, d: Img, dir: nat, links: nat) {
    && Layout(g, a) && Layout(g, d) && g.sb.HasInode(dir)
    && Rec(g, d, dir).Mode() == Rec(g, a, dir).Mode() && Rec(g, d, dir).LinksCount() == links
  }

  lemma ParentKept(g: Geo, a: Img, d: Img, dir: nat)
    requires Layout(g, a) && Layout(g, d) && g.sb.HasInode(dir) && SameLinks(Rec(g, a, dir), Rec(g, d, dir))
    ensures ParentAfter(g, a, d, dir, Rec(g, a, dir).LinksCount())
  {
    hide Rec, RawInode.Mode, RawInode.LinksCount, Geo.Valid, DescMatches;
  }

  lemma ParentMoved(g: Geo, a: Img, d: Img, h: Img, dir: nat, links: nat)
    requires Layout(g, a) && Layout(g, d) && g.sb.HasInode(dir) && SameLinks(Rec(g, a, dir), Rec(g, d, dir))
    requires ParentAfter(g, d, h, dir, links)
    ensures ParentAfter(g, a, h, dir, links)
  {
    hide Rec, RawInode.Mode, RawInode.LinksCount, Geo.Valid, DescMatches;
  }

  method UpdateLinks(core: Ext2Core, dir: nat, raw: RawInode, links: nat, ghost a: Img, ghost h0: seq<Img>,
                     ghost s: set<nat>, ghost gone: set<nat>,
                     ghost l: seq<DirEntry>, ghost t: set<nat>)
    requires InOp(core, a, h0, s, gone, dir, l, t) && raw == Rec(core.geo, core.disk, dir)
    modifies core
    ensures InOp(core, a, h0, s, gone, dir, l, t) && Same(core.geo, old(core.disk), core.disk, t - {dir})
    ensures Shows(core.geo, core.disk, dir) == Shows(core.geo, old(core.disk), dir)
    ensures RecordWritten(core.geo, old(core.disk), core.disk, dir, raw.SetLinksCount(links))
            && core.history == old(core.history) + [core.disk]
    ensures ParentAfter(core.geo, old(core.disk), core.disk, dir, links % 0x1_0000)
    ensures CountersOk(core.geo, old(core.disk)) ==> CountersOk(core.geo, core.disk)
    ensures Dirs(core.geo, core.disk) == Dirs(core.geo, old(core.disk))
  {
    hide Dirs, Geo.Valid, DescMatches, DiskInv, Same, Shows, CrashOk, CountersOk, Rec, RawInode.Mode, RawInode.Size,
         RawInode.IBlock, RawInode.LinksCount, RecordWritten, StepOk, OneName, TablesOf;
    ghost var g, d, h1 := core.geo, core.disk, core.history;
    BlockSizePositive(g);
    SetLinksCountEffect(raw, links);
    var w := core.WriteInode(dir, raw.SetLinksCount(links));
    WrittenRec(g, d, core.disk, dir, raw.SetLinksCount(links));
    LinksStep(g, d, core.disk, t, dir, raw.SetLinksCount(links));
    StepSame(g, d, core.disk, t, dir);
    SameTables(g, d, core.disk, t, dir);
    StepCrash(g, a, d, core.disk, s, t, gone, dir, l, Shows(g, d, dir));
    CrashAppend(g, a, h0, h1, core.history, s, gone, dir, l, Shows(g, d, dir));
    SameFewer(g, d, core.disk, t - {dir}, s - gone - {dir});
    SameTransitive(g, a, d, core.disk, s - gone - {dir});
  }

  // Mkdir

  function DirRecord(size: nat, b: nat, bs: nat): (r: RawInode)
    requires size >= 128
    ensures r.Valid() && |r.buf| == size
  {
    NewRecord(size, DIRECTORY_MODE, 2).SetIBlock(0, b).SetSize(bs)
  }

  lemma DirRecordNode(g: Geo, b: nat)
    requires g.Valid() && g.sb.blockSize > 0 && g.sb.inodeSize >= 128 && b < 0x1_0000_0000
    ensures var r := DirRecord(g.sb.inodeSize, b, g.sb.blockSize);
            && r.IsDir() && NodeOf(g, r) == Node(NoSlots()[0 := b], 1)
            && r.Mode() == 0x41ED && r.LinksCount() == 2 && r.Size() == g.sb.blockSize
  {
    hide NewRecord, Geo.Valid, RawInode.LinksCount, RawInode.Mode, RawInode.Size, RawInode.IBlock,
         RawInode.SetIBlock, RawInode.SetSize, BlocksFor;
    NewRecordShape(g.sb.inodeSize, DIRECTORY_MODE, 2);
    var r0 := NewRecord(g.sb.inodeSize, DIRECTORY_MODE, 2);
    SetIBlockEffect(r0, 0, b);
    var r1 := r0.SetIBlock(0, b);
    BlockSizePositive(g);
    SetSizeEffect(r1, g.sb.blockSize);
    var r := r1.SetSize(g.sb.blockSize);
    assert Slots(r) == NoSlots()[0 := b] by {
      forall j | 0 <= j < 15 ensures r.IBlock(j) == NoSlots()[0 := b][j] { assert Slots(r0)[j] == r0.IBlock(j); }
    }
    BlocksForMultiple(1, g.sb.blockSize);
  }

  /** Writing a block that was free when the operation began. */
  lemma FreshWrite(g: Geo, a: Img, d: Img, ch: set<nat>, b: nat, buf: seq<byte>)
    requires KeptBut(g, a, d, ch) && Layout(g, a) && Layout(g, d) && g.IsData(b) && b < |d| && |buf| == g.sb.blockSize
             && !Marked(g, a, b)
    ensures Layout(g, d[b := buf]) && KeptBut(g, a, d[b := buf], ch) && SameMarks(g, d, d[b := buf])
    ensures (CountersOk(g, d) ==> CountersOk(g, d[b := buf])) && Dirs(g, d[b := buf]) == Dirs(g, d)
  {
    hide Dirs, Geo.Valid, DescMatches, Rec, Marked, InodeMarked, CountersOk;
    DataWrite(g, d, b, buf);
    LeafCounters(g, d, b, buf);
  }

  /** A block for the new directory, with its "." and ".." entries. */
  method NewDirBlock(core: Ext2Core, new': nat, parent: nat, ghost a: Img, ghost h0: seq<Img>, ghost s: set<nat>)
    returns (r: Option<nat>)
    requires Building(core, a, h0, {}) && DiskInv(core.geo, a, s) && CountersOk(core.geo, core.disk)
    requires core.sb.HasInode(new') && InodeMarked(core.geo, core.disk, new')
    modifies core
    ensures core.Ready() && CountersOk(core.geo, core.disk) && Building(core, a, h0, {})
            && InodeMarked(core.geo, core.disk, new')
    ensures r.None? ==> core.disk == old(core.disk) && RanOut(core.geo, core.disk, core.disk)
    ensures r.Some? ==> core.geo.IsData(r.value) && 0 < r.value < 0x1_0000_0000 && core.sb.blockSize >= 24
                        && FreshDirBlock(core.geo, a, core.disk, new', parent, r.value)
    ensures Dirs(core.geo, core.disk) == Dirs(core.geo, old(core.disk))
  {
    hide Dirs, Geo.Valid, DescMatches, DiskInv, CountersOk, KeptBut, Marked, InodeMarked, MetaMarked, BlockAllocated,
         NoFreeBlock, KeptSince, SameMarks, DotBlock, SameCounters;
    ghost var g, b1, h1 := core.geo, core.disk, core.history;
    BuildingMeta(core, a, h0, s);
    var nb := core.AllocBlock();
    if nb.value.None? {
      return None;
    }
    var b := nb.value.value;
    BlockSizePositive(g);
    AllocKept(g, a, b1, core.disk, b, new');
    ghost var d := core.disk;
    BuildingSince(g, a, b1, h1, core.history);
    forall k | |h0| <= k < |core.history| ensures KeptBut(g, a, core.history[k], {}) {
      if k < |h1| { assert core.history[k] == h1[k]; }
    }
    FreshWrite(g, a, d, {}, b, DotBlock(core.sb.blockSize, new', parent));
    var w := core.WriteBlock(b, DotBlock(core.sb.blockSize, new', parent));
    WrittenFresh(g, a, d, b, new', parent);
    return Some(b);
  }

  /** Block b, free in a, is the new directory's block in d. */
  ghost predicate FreshDirBlock(g: Geo, a: Img, d: Img, new': nat, parent: nat, b: nat) {
    && Layout(g, a) && Layout(g, d) && g.sb.blockSize >= 24
    && !Marked(g, a, b) && Marked(g, d, b) && BlockOf(d, b) == DotBlock(g.sb.blockSize, new', parent)
  }

  lemma BuildingMeta(core: Ext2Core, a: Img, h0: seq<Img>, s: set<nat>)
    requires Building(core, a, h0, {}) && DiskInv(core.geo, a, s)
    ensures Layout(core.geo, a) && MetaMarked(core.geo, core.disk)
  {
    hide Geo.Valid, DescMatches, Inv, Rec, NodeOf, Keeps, SameRecords, MetaMarked;
    KeptSame(core.geo, a, core.disk, s, {});
    InvValid(core.geo, core.disk, DiskNodes(core.geo, core.disk, s));
  }

  lemma AllocKept(g: Geo, a: Img, d: Img, h: Img, b: nat, i: nat)
    requires BlockAllocated(g, d, h, b) && KeptBut(g, a, d, {}) && Layout(g, a) && Layout(g, d) && InodeMarked(g, d, i)
    ensures Layout(g, h) && KeptBut(g, a, h, {}) && g.IsData(b) && 0 < b < 0x1_0000_0000 && b < |h| == g.sb.blocksCount
    ensures !Marked(g, a, b) && Marked(g, h, b) && InodeMarked(g, h, i)
  {
    hide Geo.Valid, DescMatches, Rec, Marked, InodeMarked;
    ChangedKeeps(g, d, h, {b}, {}, {}, {});
    KeptButTransitive(g, a, d, h, {});
    DataIsNotZero(g, b);
    DataInRange(g, h, b);
  }

  lemma BuildingSince(g: Geo, a: Img, d: Img, h1: seq<Img>, h2: seq<Img>)
    requires KeptSince(g, d, h1, h2, {}, {}) && KeptBut(g, a, d, {})
    ensures h1 <= h2 && forall k :: |h1| <= k < |h2| ==> KeptBut(g, a, h2[k], {})
  {
    hide Keeps, SameRecords;
    forall k | |h1| <= k < |h2| ensures KeptBut(g, a, h2[k], {}) { KeptButTransitive(g, a, d, h2[k], {}); }
  }

  lemma WrittenFresh(g: Geo, a: Img, d: Img, b: nat, new': nat, parent: nat)
    requires Layout(g, a) && Layout(g, d) && g.IsData(b) && b < |d| && g.sb.blockSize >= 24 && !Marked(g, a, b)
             && Marked(g, d, b)
    requires SameMarks(g, d, d[b := DotBlock(g.sb.blockSize, new', parent)])
    ensures FreshDirBlock(g, a, d[b := DotBlock(g.sb.blockSize, new', parent)], new', parent, b)
    ensures forall i: nat :: InodeMarked(g, d, i) ==> InodeMarked(g, d[b := DotBlock(g.sb.blockSize, new', parent)], i)
  {
    hide Geo.Valid, DescMatches, DotBlock, BlockUsed, InodeUsed;
  }

  /** A block free in a is owned by no inode of the set, then or since. */
  lemma FreshUnowned(g: Geo, a: Img, d: Img, s: set<nat>, b: nat)
    requires DiskInv(g, a, s) && Same(g, a, d, s) && DiskInv(g, d, s) && Layout(g, a) && !Marked(g, a, b)
    ensures Unowned(g, d, DiskNodes(g, d, s), {b})
  {
    hide Geo.Valid, DescMatches, NodeOf, Rec, At, Marked, MetaMarked, InodesMarked, Apart, DirsClosed, Sized;
    var na, nd := DiskNodes(g, a, s), DiskNodes(g, d, s);
    forall i, q | i in nd && ValidPath(Ptrs(g), q) ensures At(d, nd[i].slots, q) !in {b} - {0} {
      assert nd[i] == na[i] == DiskNode(g, a, i);
      assert At(d, na[i].slots, q) == At(a, na[i].slots, q);
    }
  }

  /** A new directory: mode 040755, two links, one block, and in it a dot for the directory itself and two dots
      for its parent. */
  ghost predicate FreshDir(g: Geo, d: Img, i: nat, parent: nat) {
    && Layout(g, d) && g.sb.HasInode(i)
    && var raw := Rec(g, d, i);
       && raw.Mode() == 0x41ED && raw.LinksCount() == 2 && raw.Size() == g.sb.blockSize
       && var b := Leaf(d, Slots(raw), Ptrs(g), 0);
          b != 0 && DotRecords(BlockOf(d, b), i, parent)
  }

  lemma NowFreshDir(g: Geo, a: Img, d: Img, i: nat, parent: nat, b: nat)
    requires FreshDirBlock(g, a, d, i, parent, b) && g.sb.HasInode(i) && g.sb.HasInode(parent) && g.sb.inodeSize >= 128
    requires 0 < b < 0x1_0000_0000 && Rec(g, d, i) == DirRecord(g.sb.inodeSize, b, g.sb.blockSize)
    ensures FreshDir(g, d, i, parent)
  {
    hide Geo.Valid, DescMatches, Rec, DirRecord, DotBlock, DotRecords, Leaf, RawInode.LinksCount, RawInode.Mode,
         RawInode.Size, Marked, NoSlots, BlocksFor, RawInode.IBlock, Slots;
    BlockSizePositive(g);
    BlockSizes(g);
    DirRecordNode(g, b);
    DirSlots(g, Rec(g, d, i));
    InodeIsSmall(g, i);
    InodeIsSmall(g, parent);
    DotBlockRecords(g.sb.blockSize, i, parent);
    FirstLeaf(Ptrs(g), d, b);
  }

  lemma DirSlots(g: Geo, raw: RawInode)
    requires raw.Valid() && raw.IsDir() && g.sb.blockSize > 0
    ensures NodeOf(g, raw).slots == Slots(raw)
  {
    hide BlocksFor, RawInode.Mode;
  }

  lemma StillFreshDir(g: Geo, d: Img, h: Img, i: nat, parent: nat)
    requires FreshDir(g, d, i, parent) && Same(g, d, h, {i}) && g.sb.blockSize > 0
    ensures FreshDir(g, h, i, parent)
  {
    hide Geo.Valid, DescMatches, Rec, DotRecords, RawInode.LinksCount, RawInode.Size, RawInode.Mode, At, LeafPath,
         Slots, NodeOf, Capacity;
    var raw := Rec(g, d, i);
    DirSlots(g, raw);
    if 0 < Capacity(Ptrs(g)) { LeafPathOfIndex(Ptrs(g), 0); }
    assert DiskNode(g, d, i).slots == Slots(raw);
  }

  /** With its block and record on disk, the new directory may join the set. */
  lemma JoinedDir(g: Geo, a: Img, d: Img, s: set<nat>, new': nat, parent: nat, b: nat, raw: RawInode)
    requires Layout(g, a) && Layout(g, d) && g.sb.HasInode(new') && g.sb.blockSize > 0 && InodeMarked(g, d, new')
    requires DiskInv(g, a, s) && KeptBut(g, a, d, {new'}) && new' !in s && g.sb.HasInode(parent)
    requires g.IsData(b) && b != 0 && FreshDirBlock(g, a, d, new', parent, b)
    requires Rec(g, d, new') == raw && raw.Valid() && NodeOf(g, raw) == Node(NoSlots()[0 := b], 1)
    ensures DiskInv(g, d, s + {new'}) && Shows(g, d, new') == []
  {
    hide Geo.Valid, DescMatches, Inv, NodeOf, Rec, Keeps, Marked, InodeMarked, SameRecords, Same, Unowned, DotBlock,
         NoSlots, Scan, Tiled, Leaf, Entries;
    KeptSame(g, a, d, s, {new'});
    FreshUnowned(g, a, d, s, b);
    var nodes := DiskNodes(g, d, s);
    InvValid(g, d, nodes);
    BlockSizePositive(g);
    InodeIsSmall(g, new');
    InodeIsSmall(g, parent);
    DotBlockListsNothing(g.sb.blockSize, new', parent);
    assert DirBlockOk(BlockOf(d, b), nodes.Keys + {new'});
    AddDirNode(g, d, nodes, new', b);
    assert DiskNodes(g, d, s + {new'}) == nodes[new' := Node(NoSlots()[0 := b], 1)];
    EmptyDir(g, d, b);
  }

  lemma EmptyDir(g: Geo, d: Img, b: nat)
    requires g.Valid() && b != 0 && Scan(BlockOf(d, b), 0) == []
    ensures DirListing(g, d, Node(NoSlots()[0 := b], 1)) == []
  {
    hide Geo.Valid, Scan, Leaf, NoSlots;
    FirstLeaf(Ptrs(g), d, b);
    var slots := NoSlots()[0 := b];
    assert Entries(d, slots, Ptrs(g), 0, 1) == Entries(d, slots, Ptrs(g), 0, 0) + BlockListing(d, slots, Ptrs(g), 0);
  }

  /** What one inode of the set owns no other does. */
  lemma OwnedElsewhere(g: Geo, d: Img, t: set<nat>, i: nat, k: set<nat>)
    requires DiskInv(g, d, t) && i in t && k <= t - {i}
    ensures Layout(g, d) && g.sb.HasInode(i) && (forall j :: j in k ==> g.sb.HasInode(j))
    ensures Unowned(g, d, DiskNodes(g, d, k), TreeBlocks(g, d, DiskNode(g, d, i).slots))
    ensures TreeOk(g, d, DiskNode(g, d, i).slots)
  {
    hide Geo.Valid, DescMatches, NodeOf, Rec, At, Marked, MetaMarked, InodesMarked, DirsClosed, Sized;
    var nodes, nk := DiskNodes(g, d, t), DiskNodes(g, d, k);
    assert nodes[i] == DiskNode(g, d, i);
    forall j, q | j in nk && ValidPath(Ptrs(g), q)
      ensures At(d, nk[j].slots, q) !in TreeBlocks(g, d, nodes[i].slots) - {0} {
      assert nk[j] == nodes[j];
    }
    InvTreeOk(g, d, nodes, i);
  }

  /** Take back the block of a directory that never got its name. */
  method GiveBackBlock(core: Ext2Core, b: nat, i: nat, ghost a: Img, ghost h0: seq<Img>, ghost s: set<nat>,
                       ghost gone: set<nat>, ghost dir: nat,
                       ghost l: seq<DirEntry>, ghost t: set<nat>)
    requires InOp(core, a, h0, s, gone, dir, l, t) && DiskInv(core.geo, core.disk, t + {i}) && i !in t
             && core.sb.HasInode(i)
    requires DiskNode(core.geo, core.disk, i).slots == NoSlots()[0 := b] && b != 0
    modifies core
    ensures InOp(core, a, h0, s, gone, dir, l, t)
            && Shows(core.geo, core.disk, dir) == Shows(core.geo, old(core.disk), dir)
            && Rec(core.geo, core.disk, dir) == Rec(core.geo, old(core.disk), dir)
    ensures InodeMarked(core.geo, core.disk, i) && old(core.history) <= core.history
    ensures CountersOk(core.geo, old(core.disk)) ==> CountersOk(core.geo, core.disk)
    ensures Dirs(core.geo, core.disk) == Dirs(core.geo, old(core.disk))
  {
    hide Dirs, Geo.Valid, DescMatches, DiskInv, Same, Shows, CrashSince, CountersOk, Changed, InodeMarked, Marked,
         DiskNode, NoSlots, Rec, OneName, TablesOf;
    ghost var g, d, h1 := core.geo, core.disk, core.history;
    OneBlockOwned(g, d, t, i, b);
    var w := core.FreeBlock(b);
    BlockFreedSame(g, d, core.disk, t, i, b);
    forall k | |h1| <= k < |core.history| ensures DiskInv(g, core.history[k], t) && Same(g, d, core.history[k], t) {
      BlockFreedSame(g, d, core.history[k], t, i, b);
    }
    OutsideSteps(core, a, d, h0, h1, s, gone, dir, l, t);
  }

  lemma OneBlockOwned(g: Geo, d: Img, s: set<nat>, i: nat, b: nat)
    requires DiskInv(g, d, s) && DiskInv(g, d, s + {i}) && i !in s && g.sb.HasInode(i) && Layout(g, d)
    requires DiskNode(g, d, i).slots == NoSlots()[0 := b] && b != 0
    ensures g.IsData(b) && Marked(g, d, b) && g.sb.HasBit(b) && InodeMarked(g, d, i)
            && Unowned(g, d, DiskNodes(g, d, s), {b})
  {
    hide Geo.Valid, DescMatches, DiskInv, At, BlockUsed, InodeUsed, NoSlots, DiskNode, DiskNodes;
    OwnedElsewhere(g, d, s + {i}, i, s);
    SetLayout(g, d, s + {i});
    OneBlockTree(Ptrs(g), d, b, Slot(0));
    assert g.IsData(b) && Marked(g, d, b);
    DataInRange(g, d, b);
    assert Holds(g, d, DiskNode(g, d, i).slots, b);
    assert b in TreeBlocks(g, d, DiskNode(g, d, i).slots);
  }

  lemma BlockFreedSame(g: Geo, d: Img, h: Img, s: set<nat>, i: nat, b: nat)
    requires DiskInv(g, d, s) && Changed(g, d, h, {}, {b}, {}, {}) && g.IsData(b)
             && Unowned(g, d, DiskNodes(g, d, s), {b})
    ensures DiskInv(g, h, s) && Same(g, d, h, s) && (InodeMarked(g, d, i) ==> InodeMarked(g, h, i))
  {
    hide Geo.Valid, DescMatches, DiskInv, Rec, Keeps, Same, Marked, InodeMarked, DiskNodes, Unowned;
    ChangedKeeps(g, d, h, {}, {b}, {}, {});
    FreedSame(g, d, h, s, {b}, {}, {});
  }

  method Mkdir(core: Ext2Core, dirIno: nat, dirRaw: RawInode, name: seq<byte>, ghost s: set<nat>)
    returns (r: Outcome<nat>, ghost s': set<nat>)
    requires Sound(core, s) && dirIno in s && core.sb.HasInode(dirIno) && dirRaw == Rec(core.geo, core.disk, dirIno)
    requires 8 + |name| <= core.sb.blockSize
    modifies core
    ensures Sound(core, s') && Same(core.geo, old(core.disk), core.disk, s - {dirIno})
    ensures CrashSince(core.geo, old(core.disk), old(core.history), core.history, s, {}, dirIno,
                       Shows(core.geo, old(core.disk), dirIno), Shows(core.geo, core.disk, dirIno))
    ensures r.Fail? ==> s' == s && Shows(core.geo, core.disk, dirIno) == Shows(core.geo, old(core.disk), dirIno)
                        && Rec(core.geo, core.disk, dirIno) == dirRaw
    ensures r == Fail(EEXIST) <==>
              dirRaw.IsDir() && exists e :: e in Shows(core.geo, old(core.disk), dirIno) && e.name == name
    ensures r.Fail? ==> r.errno in {ENOTDIR, EEXIST, ENOSPC, EFBIG}
    ensures r.Fail? ==> Dirs(core.geo, core.disk) == Dirs(core.geo, old(core.disk))
    ensures r == Fail(ENOTDIR) <==> !dirRaw.IsDir()
    ensures r == Fail(ENOSPC) ==>
              NoSpaceFor(core.geo, old(core.disk), old(core.history), core.history, dirRaw, name, true)
    ensures r == Fail(EFBIG) ==> core.geo.Valid() && core.sb.blockSize > 0
                                 && DirFull(core.geo, old(core.disk), NodeOf(core.geo, dirRaw), name)
    ensures r.Done? ==>
              && r.value !in s && s' == s + {r.value} && core.sb.HasInode(r.value)
              && Rec(core.geo, core.disk, r.value).IsDir() && Shows(core.geo, core.disk, r.value) == []
              && FreshDir(core.geo, core.disk, r.value, dirIno)
              && DirMoved(core.geo, old(core.disk), core.disk, r.value, 1)
              && ParentAfter(core.geo, old(core.disk), core.disk, dirIno, (dirRaw.LinksCount() + 1) % 0x1_0000)
              && Introduced(core.geo, old(core.disk), core.disk, s, dirIno, dirRaw, name,
                            Stored(r.value, name, DIRECTORY))
  {
    hide Dirs, MoveDirs, Geo.Valid, DescMatches, DiskInv, Same, Shows, OneName, CountersOk, Rec, NodeOf, CrashOk,
         RawInode.Mode, NewRecord, Linked, Stored, Introduced, Inv, NoFreeInode, InodeMarked, RecordWritten, Building,
         FirstOf, DirFull, HasRoom, DirentLen, FullDuring, FreshDir, ParentAfter, RawInode.LinksCount;
    ghost var g, a, h0 := core.geo, core.disk, core.history;
    SetLayout(g, a, s);
    BlockSizePositive(g);
    NoChange(g, a, s, dirIno, h0);
    if !dirRaw.IsDir() {
      return Fail(ENOTDIR), s;
    }
    var existing := Lookup(core, dirRaw, name, s, dirIno);
    if existing.Some? {
      FirstIsEntry(Shows(g, a, dirIno), existing.value);
      return Fail(EEXIST), s;
    }
    var i := NewInode(core, true, s);
    if i.None? {
      return Fail(ENOSPC), s;
    }
    r, s' := FinishMkdir(core, dirIno, dirRaw, name, i.value, a, h0, s);
  }

  lemma FirstIsEntry(es: seq<DirEntry>, e: DirEntry)
    requires FirstEntry(es, e)
    ensures e in es
  {
    hide FirstOf;
    FirstIs(es, e.name);
  }

  /** Block, record, name, then the parent's link count; undone in reverse if the name cannot be written. */
  method FinishMkdir(core: Ext2Core, dirIno: nat, dirRaw: RawInode, name: seq<byte>, new': nat, ghost a: Img,
                     ghost h0: seq<Img>, ghost s: set<nat>)
    returns (r: Outcome<nat>, ghost s': set<nat>)
    requires DiskInv(core.geo, a, s) && OneName(TablesOf(core.geo, a, s)) && dirIno in s && core.sb.HasInode(dirIno)
    requires Building(core, a, h0, {}) && CountersOk(core.geo, core.disk) && h0 != []
    requires new' !in s && core.sb.HasInode(new') && InodeMarked(core.geo, core.disk, new')
    requires dirRaw == Rec(core.geo, a, dirIno) && dirRaw.IsDir() && 8 + |name| <= core.sb.blockSize
    requires FirstOf(Shows(core.geo, a, dirIno), name) == None && DirMoved(core.geo, a, core.disk, new', 1)
    modifies core
    ensures r.Done? ==> DirMoved(core.geo, a, core.disk, new', 1)
    ensures r.Fail? ==> Dirs(core.geo, core.disk) == Dirs(core.geo, a)
    ensures Sound(core, s') && Same(core.geo, a, core.disk, s - {dirIno})
    ensures CrashSince(core.geo, a, h0, core.history, s, {}, dirIno, Shows(core.geo, a, dirIno),
                       Shows(core.geo, core.disk, dirIno))
    ensures r.Fail? ==>
              && s' == s && Shows(core.geo, core.disk, dirIno) == Shows(core.geo, a, dirIno)
              && Rec(core.geo, core.disk, dirIno) == dirRaw && r.errno in {ENOSPC, EFBIG}
    ensures r == Fail(ENOSPC) ==> NoSpaceFor(core.geo, a, h0, core.history, dirRaw, name, true)
    ensures r == Fail(EFBIG) ==> Layout(core.geo, a) && core.sb.blockSize > 0
                                 && DirFull(core.geo, a, NodeOf(core.geo, dirRaw), name)
    ensures r.Done? ==>
              && r.value == new' && s' == s + {new'} && Rec(core.geo, core.disk, new').IsDir()
              && Shows(core.geo, core.disk, new') == [] && FreshDir(core.geo, core.disk, new', dirIno)
              && ParentAfter(core.geo, a, core.disk, dirIno, (dirRaw.LinksCount() + 1) % 0x1_0000)
              && Introduced(core.geo, a, core.disk, s, dirIno, dirRaw, name, Stored(new', name, DIRECTORY))
  {
    hide Dirs, MoveDirs, Geo.Valid, DescMatches, DiskInv, Same, Shows, OneName, CountersOk, Rec, NodeOf, CrashOk,
         RawInode.Mode, DirRecord, Linked, Stored, Introduced, EntryFits, Inv, InodeMarked, KeptBut, TablesOf,
         FreshDirBlock, NoSlots, RecordWritten, FirstOf, RanOut, DirFull, HasRoom, DirentLen, FullDuring, NoFreeInode,
         FreshDir, ParentAfter, RawInode.LinksCount;
    ghost var g := core.geo;
    SetLayout(g, a, s);
    GroupArithmetic(g);
    BlockSizePositive(g);
    var nb := NewDirBlock(core, new', dirIno, a, h0, s);
    if nb.None? {
      BuildingCrash(core, a, h0, s, {}, dirIno);
      assert s - {} == s;
      SameTables(g, a, core.disk, s, dirIno);
      ghost var h2, d2 := core.history, core.disk;
      FullNow(core, core.disk, h0);
      GiveBack(core, new', true, a, h0, s, {}, dirIno, Shows(g, a, dirIno), s);
      MovedBack(g, a, d2, core.disk, new');
      SameTables(g, a, core.disk, s, dirIno);
      StillFull(g, h0, h2, core.history);
      return Fail(ENOSPC), s;
    }
    var b := nb.value;
    ghost var d1 := core.disk;
    var raw := DirRecord(core.sb.inodeSize, b, core.sb.blockSize);
    DirRecordNode(g, b);
    BuildRecord(core, new', raw, a, h0, {});
    ghost var d := core.disk;
    assert {} + {new'} == {new'};
    RecordOnly(g, a, d1, d, new', raw, dirIno, b);
    NowFreshDir(g, a, d, new', dirIno, b);
    JoinedDir(g, a, d, s, new', dirIno, b, raw);
    BuildingCrash(core, a, h0, s, {new'}, dirIno);
    CrashHistory(g, a, h0, core.history, s, {}, dirIno, Shows(g, a, dirIno), Shows(g, a, dirIno));
    var link, dirRaw' := LinkNew(core, dirIno, dirRaw, name, new', DIRECTORY, a, h0, s);
    SameFewer(g, d, core.disk, s + {new'} - {dirIno}, {new'});
    SameRec(g, d, core.disk, {new'}, new');
    SameShows(g, d, core.disk, {new'}, new');
    if link.Err? {
      Dropped(g, a, core.disk, s, new', dirIno);
      RecNode(g, core.disk, new', raw);
      assert s - {} == s;
      SameTables(g, a, core.disk, s, dirIno);
      ghost var h2 := core.history;
      if link == Err(NoSpace) { FullNow(core, d, h0); }
      GiveBackBlock(core, b, new', a, h0, s, {}, dirIno, Shows(g, a, dirIno), s);
      ghost var d2 := core.disk;
      GiveBack(core, new', true, a, h0, s, {}, dirIno, Shows(g, a, dirIno), s);
      MovedBack(g, a, d2, core.disk, new');
      SameTables(g, a, core.disk, s, dirIno);
      if link == Err(NoSpace) { StillFull(g, h0, h2, core.history); }
      return Fail(FromExt2(link.error)), s;
    }
    ghost var d3 := core.disk;
    StoredIno(new', name, DIRECTORY);
    assert s - {} == s;
    UpdateLinks(core, dirIno, dirRaw', dirRaw'.LinksCount() + 1, a, h0, s, {}, Shows(g, a, dirIno), s + {new'});
    SameFewer(g, d3, core.disk, s + {new'} - {dirIno}, {new'});
    SameRec(g, d3, core.disk, {new'}, new');
    SameShows(g, d3, core.disk, {new'}, new');
    StillFreshDir(g, d, d3, new', dirIno);
    StillFreshDir(g, d3, core.disk, new', dirIno);
    ParentMoved(g, a, d3, core.disk, dirIno, (dirRaw.LinksCount() + 1) % 0x1_0000);
    InodeIsSmall(g, new');
    NowIntroduced(g, a, core.disk, s, dirIno, dirRaw, name, Stored(new', name, DIRECTORY), DIRECTORY);
    return Done(new'), s + {new'};
  }

  lemma RecNode(g: Geo, d: Img, i: nat, raw: RawInode)
    requires Layout(g, d) && g.sb.HasInode(i) && Rec(g, d, i) == raw && g.sb.blockSize > 0
    ensures DiskNode(g, d, i) == NodeOf(g, raw)
  {
    hide Geo.Valid, DescMatches, Rec, NodeOf;
  }

  /** Writing the record leaves the block and the marks in place. */
  lemma RecordOnly(g: Geo, a: Img, d1: Img, d: Img, new': nat, raw: RawInode, parent: nat, b: nat)
    requires RecordWritten(g, d1, d, new', raw) && Layout(g, d1) && Layout(g, d) && InodeMarked(g, d1, new')
             && g.IsData(b)
    requires FreshDirBlock(g, a, d1, new', parent, b)
    ensures Rec(g, d, new') == raw && InodeMarked(g, d, new') && FreshDirBlock(g, a, d, new', parent, b)
  {
    hide Geo.Valid, DescMatches, Rec, BlockUsed, InodeUsed, DotBlock, SameCounters, SameRecords;
  }
}
