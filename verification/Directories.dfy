/** Directory operations on the volume: list, insert and remove an entry. */
module Directories {
  import opened Arith
  import opened Bytes
  import opened Geometry
  import opened Inode
  import opened Image
  import opened Tree
  import opened DirBlock
  import opened Consistency
  import opened Counters
  import opened Volume
  import opened Growth
  import opened Files
  import opened Content
  import opened Listing

  // Listing

  /** What the record at off adds to the scan. */
  function ScanOne(buf: seq<byte>, off: nat): seq<DirEntry>
    requires off + 8 <= |buf|
  {
    if off + 8 + buf[off + 6] <= |buf| then ShownOf(RecordAt(buf, off)) else []
  }

  lemma ScanUnfold(buf: seq<byte>, off: nat)
    ensures off + 8 > |buf| || RecLen(buf, off) < 8 ==> Scan(buf, off) == []
    ensures off + 8 <= |buf| && RecLen(buf, off) >= 8 ==>
              Scan(buf, off) == ScanOne(buf, off) + Scan(buf, off + RecLen(buf, off))
  {
    hide RecLen, RecordAt, ShownOf;
  }

  lemma Reassociate<T>(whole: seq<T>, before: seq<T>, one: seq<T>, rest: seq<T>)
    requires whole == before + (one + rest)
    ensures whole == before + one + rest
  {
  }

  method ScanBlock(buf: seq<byte>) returns (es: seq<DirEntry>)
    ensures es == Scan(buf, 0)
  {
    hide Scan, RecLen, RecIno, ScanOne;
    es := [];
    var off := 0;
    while off + 8 <= |buf|
      invariant Scan(buf, 0) == es + Scan(buf, off)
      decreases |buf| - off
    {
      var len := RecLen(buf, off);
      ScanUnfold(buf, off);
      if len < 8 {
        break;
      }
      Reassociate(Scan(buf, 0), es, ScanOne(buf, off), Scan(buf, off + len));
      var one := ScanRecord(buf, off);
      es := es + one;
      off := off + len;
    }
    ScanUnfold(buf, off);
    assert es + [] == es;
  }

  method ScanRecord(buf: seq<byte>, off: nat) returns (es: seq<DirEntry>)
    requires off + 8 <= |buf|
    ensures es == ScanOne(buf, off)
  {
    hide RecLen, RecIno;
    var n := buf[off + 6];
    if off + 8 + n > |buf| {
      return [];
    }
    var e := DirEntry(RecIno(buf, off), buf[off + 7], buf[off + 8..off + 8 + n]);
    if e.ino != 0 && e.name != [] && e.name != DOT && e.name != DOT_DOT {
      return [e];
    }
    return [];
  }

  /** Every block of the directory the listing has to read lies inside the volume. */
  ghost predicate DirInRange(g: Geo, img: Img, slots: seq<nat>)
    requires g.Valid()
  {
    PointersInRange(g, img, slots) && forall x: nat :: Leaf(img, slots, Ptrs(g), x) < |img|
  }

  method ReadDirEntries(core: Ext2Core, raw: RawInode) returns (r: Result<seq<DirEntry>>)
    requires core.Ready() && raw.Valid() && core.sb.blockSize > 0
    ensures r.Ok? ==>
              r.value == Entries(core.disk, Slots(raw), Ptrs(core.geo), 0, BlocksFor(raw.Size(), core.sb.blockSize))
    ensures r.Ok? ==> forall e :: e in r.value <==>
              Placed(core.disk, Slots(raw), Ptrs(core.geo), BlocksFor(raw.Size(), core.sb.blockSize), e)
    ensures r.Ok? && raw.IsDir() ==> r.value == DirListing(core.geo, core.disk, NodeOf(core.geo, raw))
    ensures r.Err? ==> r == Err(Io) && !DirInRange(core.geo, core.disk, Slots(raw))
  {
    hide Geo.Valid, DescMatches, Leaf, Slots, Scan, RawInode.Size, RawInode.Mode, PointersInRange, Placed;
    BlockSizePositive(core.geo);
    var bs := core.sb.blockSize;
    var numBlocks := (raw.Size() + bs - 1) / bs;
    ghost var slots, p := Slots(raw), Ptrs(core.geo);
    var es := [];
    for x := 0 to numBlocks
      invariant es == Entries(core.disk, slots, p, 0, x)
    {
      var block :- BlockForIndex(core, raw, x);
      if block.None? {
        continue;
      }
      var buf :- core.BlockVec(block.value);
      var more := ScanBlock(buf);
      es := es + more;
    }
    forall e ensures e in es <==> Placed(core.disk, slots, p, numBlocks, e) {
      EntriesGiven(core.disk, slots, p, numBlocks, e);
    }
    return Ok(es);
  }

  // Insertion

  /** No record of the stretch has room for `needed` bytes. */
  predicate NoRoom(buf: seq<byte>, lo: nat, hi: nat, needed: nat)
    requires lo <= hi <= |buf| && Tiled(buf, lo, hi)
    decreases hi - lo
  {
    lo == hi || (Slack(buf, lo) < needed && NoRoom(buf, lo + RecLen(buf, lo), hi, needed))
  }

  /** Some block of the directory has a record with room for `needed` bytes. */
  ghost predicate HasRoom(g: Geo, a: Img, node: Node, needed: nat)
    requires g.Valid()
  {
    exists x: nat :: x < node.dirBlocks && RoomIn(g, a, node, x, needed)
  }

  ghost predicate RoomIn(g: Geo, a: Img, node: Node, x: nat, needed: nat)
    requires g.Valid()
  {
    var b := Leaf(a, node.slots, Ptrs(g), x);
    b != 0 && Tiled(BlockOf(a, b), 0, |BlockOf(a, b)|) && !NoRoom(BlockOf(a, b), 0, |BlockOf(a, b)|, needed)
  }

  lemma IntactRoom(g: Geo, a: Img, h: Img, node: Node, needed: nat)
    requires g.Valid() && Intact(g, a, h, node)
    ensures HasRoom(g, h, node, needed) <==> HasRoom(g, a, node, needed)
  {
    hide Geo.Valid, Tiled, NoRoom, At, LeafPath;
    forall x: nat ensures RoomIn(g, h, node, x, needed) <==> RoomIn(g, a, node, x, needed) {
      if x < Capacity(Ptrs(g)) { LeafPathOfIndex(Ptrs(g), x); }
    }
  }

  /** The first record with enough slack. */
  method FindSlack(buf: seq<byte>, needed: nat) returns (r: Result<Option<nat>>)
    requires Tiled(buf, 0, |buf|)
    ensures r.Ok?
    ensures r.value.Some? ==>
              && r.value.value + 8 <= |buf| && Tiled(buf, 0, r.value.value) && Tiled(buf, r.value.value, |buf|)
              && needed <= Slack(buf, r.value.value) && NoRoom(buf, 0, r.value.value, needed)
    ensures r.value.None? <==> NoRoom(buf, 0, |buf|, needed)
  {
    hide RecordAt, RecIno, RecLen, RecordFits, Records, DirBlock.Listing, Slack;
    var off := 0;
    TiledEmpty(buf);
    while off + 8 <= |buf|
      invariant 0 <= off <= |buf| && Tiled(buf, 0, off) && Tiled(buf, off, |buf|)
      invariant NoRoom(buf, 0, off, needed)
      invariant NoRoom(buf, off, |buf|, needed) <==> NoRoom(buf, 0, |buf|, needed)
      decreases |buf| - off
    {
      var len := RecLen(buf, off);
      if len < 8 {
        return Err(Io);
      }
      if Slack(buf, off) >= needed {
        return Ok(Some(off));
      }
      TiledStep(buf, off);
      OneRecord(buf, off, off + len);
      TiledConcat(buf, 0, off, off + len);
      NoRoomThrough(buf, 0, off, needed);
      off := off + len;
    }
    return Ok(None);
  }

  /** One more record without room. */
  lemma {:induction false} NoRoomThrough(buf: seq<byte>, lo: nat, off: nat, needed: nat)
    requires lo <= off && off + 8 <= |buf| && off + RecLen(buf, off) <= |buf|
    requires Tiled(buf, lo, off) && NoRoom(buf, lo, off, needed) && Slack(buf, off) < needed
    requires Tiled(buf, off, off + RecLen(buf, off)) && RecLen(buf, off) >= 8
    ensures Tiled(buf, lo, off + RecLen(buf, off)) && NoRoom(buf, lo, off + RecLen(buf, off), needed)
    decreases off - lo
  {
    hide RecLen, RecordFits, Slack;
    if lo < off { NoRoomThrough(buf, lo + RecLen(buf, lo), off, needed); }
  }

  /** The listing gained exactly entry e (if it is one a listing shows) and is otherwise unchanged. */
  ghost predicate Added(g: Geo, a: Img, node: Node, h: Img, node': Node, e: DirEntry)
    requires g.Valid()
  {
    exists k: nat :: k <= |DirListing(g, a, node)|
                     && DirListing(g, h, node') == InsertAt(DirListing(g, a, node), k, ShownOf(Record(0, e)))
  }

  /** Rewriting one leaf block leaves every other block's entries as they were. */
  lemma LeafWriteListing(g: Geo, a: Img, nodes: map<nat, Node>, i: nat, x: nat, buf: seq<byte>, y: nat)
    requires Inv(g, a, nodes) && i in nodes && 0 < Leaf(a, nodes[i].slots, Ptrs(g), x) < |a|
    requires SameTrees(g, a, a[Leaf(a, nodes[i].slots, Ptrs(g), x) := buf], nodes)
    ensures BlockListing(a[Leaf(a, nodes[i].slots, Ptrs(g), x) := buf], nodes[i].slots, Ptrs(g), y)
            == if y == x then Scan(buf, 0) else BlockListing(a, nodes[i].slots, Ptrs(g), y)
  {
    hide At, LeafPath, Inv, Geo.Valid, Scan;
    InvValid(g, a, nodes);
    if y < Capacity(Ptrs(g)) { LeafPathOfIndex(Ptrs(g), y); }
    if y != x { DistinctIndicesDistinctBlocks(g, a, nodes, i, x, i, y); }
  }

  /** So the listing changes by that block's stretch alone. */
  lemma ListingEdited(g: Geo, a: Img, nodes: map<nat, Node>, i: nat, x: nat, buf: seq<byte>)
    requires Inv(g, a, nodes) && i in nodes && x < nodes[i].dirBlocks && 0 < Leaf(a, nodes[i].slots, Ptrs(g), x) < |a|
    requires SameTrees(g, a, a[Leaf(a, nodes[i].slots, Ptrs(g), x) := buf], nodes)
    ensures var p, slots, n := Ptrs(g), nodes[i].slots, nodes[i].dirBlocks;
            var b := Leaf(a, slots, p, x);
            var pre, post := Entries(a, slots, p, 0, x), Entries(a, slots, p, x + 1, n);
            && DirListing(g, a, nodes[i]) == pre + Scan(a[b], 0) + post
            && DirListing(g, a[b := buf], nodes[i]) == pre + Scan(buf, 0) + post
  {
    hide Inv, Geo.Valid, Leaf, Scan, SameTrees, Entries;
    InvValid(g, a, nodes);
    var p, slots := Ptrs(g), nodes[i].slots;
    var b := Leaf(a, slots, p, x);
    var h := a[b := buf];
    forall y: nat
      ensures BlockListing(h, slots, p, y) == if y == x then Scan(buf, 0) else BlockListing(a, slots, p, y) {
      LeafWriteListing(g, a, nodes, i, x, buf, y);
    }
    EntriesEdit(a, slots, h, slots, p, nodes[i].dirBlocks, x);
  }

  /** Inserting into an existing block: the block stays well formed and the listing gains the entry. */
  lemma InsertedInPlace(g: Geo, a: Img, nodes: map<nat, Node>, i: nat, x: nat, off: nat, ino: nat, name: seq<byte>,
                        fileType: byte)
    requires Inv(g, a, nodes) && i in nodes && ino in nodes && x < nodes[i].dirBlocks
    requires var b := Leaf(a, nodes[i].slots, Ptrs(g), x);
             && 0 < b < |a| && off + 8 <= |a[b]| == g.sb.blockSize
             && Tiled(a[b], 0, off) && Tiled(a[b], off, |a[b]|) && off + RecLen(a[b], off) <= |a[b]|
             && DirentLen(|name|) <= Slack(a[b], off)
    ensures var b := Leaf(a, nodes[i].slots, Ptrs(g), x);
            var buf := Insert(a[b], off, ino, name, fileType);
            && DirBlockOk(buf, nodes.Keys)
            && (SameTrees(g, a, a[b := buf], nodes) ==>
                 Added(g, a, nodes[i], a[b := buf], nodes[i], Stored(ino, name, fileType)))
  {
    hide Inv, Geo.Valid, Leaf, Tiled, Insert, Slack, RecLen, Stored, Scan, SameTrees, DirentLen, DirListing;
    InvValid(g, a, nodes);
    var p, slots, n := Ptrs(g), nodes[i].slots, nodes[i].dirBlocks;
    var b := Leaf(a, slots, p, x);
    var buf := Insert(a[b], off, ino, name, fileType);
    BlockSizePositive(g);
    InodeIsSmall(g, ino);
    var k := InsertEffect(a[b], off, ino, name, fileType);
    DirBlockClosed(g, a, nodes, i, x);
    InsertedClosed(a[b], buf, k, ino, name, fileType, nodes.Keys);
    if SameTrees(g, a, a[b := buf], nodes) {
      ListingEdited(g, a, nodes, i, x, buf);
      var e := ShownOf(Record(0, Stored(ino, name, fileType)));
      InsertInside(Entries(a, slots, p, 0, x), Scan(a[b], 0), Entries(a, slots, p, x + 1, n), k, e);
    }
  }

  lemma InodeIsSmall(g: Geo, ino: nat)
    requires g.Valid() && g.sb.HasInode(ino)
    ensures 0 < ino < 0x1_0000_0000
  {
  }

  lemma InsertedClosed(old': seq<byte>, buf: seq<byte>, k: nat, ino: nat, name: seq<byte>, fileType: byte,
                       inos: set<nat>)
    requires DirBlockOk(old', inos) && ino in inos && Tiled(buf, 0, |buf|) && k <= |Scan(old', 0)|
    requires Scan(buf, 0) == Scan(old', 0)[..k] + ShownOf(Record(0, Stored(ino, name, fileType))) + Scan(old', 0)[k..]
    ensures DirBlockOk(buf, inos)
  {
    hide Scan, Tiled;
  }

  // Growth by one block

  /** A directory whose tree has grown past its last block lists the same. */
  lemma GrownListing(g: Geo, a: Img, s: seq<nat>, h: Img, s': seq<nat>, n: nat, m: nat)
    requires g.Valid() && m <= n < Capacity(Ptrs(g)) && Grown(Ptrs(g), a, s, h, s', LeafPath(Ptrs(g), n))
    ensures Entries(h, s', Ptrs(g), 0, m) == Entries(a, s, Ptrs(g), 0, m)
  {
    hide At, OnPath, LeafPath, Geo.Valid, Scan, Entries;
    forall x: nat | x < n ensures BlockListing(h, s', Ptrs(g), x) == BlockListing(a, s, Ptrs(g), x) {
      OtherIndicesUnchanged(g, a, s, h, s', n, x);
      LeafPathOfIndex(Ptrs(g), x);
    }
    EntriesSame(a, s, h, s', Ptrs(g), 0, m);
  }

  /** The bytes of a new directory block: one record that fills it. */
  function FirstBlock(bs: nat, ino: nat, name: seq<byte>, fileType: byte): (r: seq<byte>)
    requires 8 + |name| <= bs
    ensures |r| == bs
  {
    Patch(Zeros(bs), 0, DirentBytes(ino, bs, name, fileType))
  }

  lemma FirstBlockOk(bs: nat, ino: u32, name: seq<byte>, fileType: byte, inos: set<nat>)
    requires 8 + |name| <= bs < 0x1_0000 && bs % 4 == 0 && ino != 0 && ino in inos
    ensures var buf := FirstBlock(bs, ino, name, fileType);
            DirBlockOk(buf, inos) && Scan(buf, 0) == ShownOf(Record(0, Stored(ino, name, fileType)))
  {
    hide Scan, Tiled, Records, DirBlock.Listing, Stored, Zeros, Patch, Field;
    var buf := FirstBlock(bs, ino, name, fileType);
    SplitTail(Zeros(bs), 0, bs, ino, name, fileType);
    ScanIsListing(buf, 0);
    StoredIno(ino, name, fileType);
  }

  lemma StoredIno(ino: nat, name: seq<byte>, fileType: byte)
    ensures Stored(ino, name, fileType).ino == ino
  {
  }

  /** The directory with its new block written but its record not yet: any count up to the new block will do. */
  lemma GrowthCounted(g: Geo, a: Img, nodes: map<nat, Node>, i: nat, buf: seq<byte>, n': nat)
    requires Inv(g, a, nodes) && i in nodes && DirBlockOk(buf, nodes.Keys) && n' <= nodes[i].dirBlocks + 1
    requires Leaf(a, nodes[i].slots, Ptrs(g), nodes[i].dirBlocks) != 0
    requires BlockOf(a, Leaf(a, nodes[i].slots, Ptrs(g), nodes[i].dirBlocks)) == buf
    ensures Inv(g, a, nodes[i := nodes[i].(dirBlocks := n')])
  {
    hide Inv, Leaf, DirBlockOk, Geo.Valid;
    InvValid(g, a, nodes);
    forall x: nat | x < n' && Leaf(a, nodes[i].slots, Ptrs(g), x) != 0
      ensures DirBlockOk(BlockOf(a, Leaf(a, nodes[i].slots, Ptrs(g), x)), nodes.Keys)
    {
      if x < nodes[i].dirBlocks { DirBlockClosed(g, a, nodes, i, x); }
    }
    SetDirBlocks(g, a, nodes, i, n');
  }

  /** A directory open for a change: its record in memory is the one on disk, and the nodes describe both. */
  ghost predicate DirOpen(core: Ext2Core, nodes: map<nat, Node>, dirIno: nat, dirRaw: RawInode)
    reads core
  {
    && Writing(core, nodes, dirIno) && core.sb.blockSize > 0
    && dirRaw.Valid() && |dirRaw.buf| == core.sb.inodeSize && dirRaw.IsDir()
    && nodes[dirIno] == NodeOf(core.geo, dirRaw) && Rec(core.geo, core.disk, dirIno) == dirRaw
  }

  /** Try to place the entry in an existing block. */
  method InsertInBlocks(core: Ext2Core, dirRaw: RawInode, name: seq<byte>, ino: nat, fileType: byte,
                        ghost nodes: map<nat, Node>, ghost dirIno: nat)
    returns (r: Result<bool>)
    requires DirOpen(core, nodes, dirIno, dirRaw) && ino in nodes
    modifies core
    ensures r.Ok? && DirOpen(core, nodes, dirIno, dirRaw)
    ensures r.value <==> HasRoom(core.geo, old(core.disk), nodes[dirIno], DirentLen(|name|))
    ensures !r.value ==> core.disk == old(core.disk) && core.history == old(core.history)
    ensures r.value ==>
              Added(core.geo, old(core.disk), nodes[dirIno], core.disk, nodes[dirIno], Stored(ino, name, fileType))
    ensures r.value ==> core.history == old(core.history) + [core.disk]
    ensures StepOk(core.geo, old(core.disk), core.disk, nodes, dirIno)
    ensures CountersOk(core.geo, old(core.disk)) ==> CountersOk(core.geo, core.disk)
    ensures Dirs(core.geo, core.disk) == Dirs(core.geo, old(core.disk))
  {
    hide Dirs, Inv, Ahead, Geo.Valid, DescMatches, StepOk, CountersOk, Leaf, Tiled, Insert, Stored, Scan, SameTrees,
         DirentLen, Added, RawInode.Mode, RawInode.Size, NoRoom, RecLen, RecIno, BlocksFor, BlockOf;
    ghost var g, a, h0 := core.geo, core.disk, core.history;
    SelfStep(g, a, nodes, dirIno);
    assert Quiet(g, a, a, nodes, dirIno);
    DirNode(g, dirRaw);
    var needed := DirentLen(|name|);
    var numBlocks := BlocksFor(dirRaw.Size(), core.sb.blockSize);
    for x := 0 to numBlocks
      invariant core.disk == a && core.history == h0
      invariant forall y: nat :: y < x ==> !RoomIn(g, a, nodes[dirIno], y, needed)
    {
      TreeInRange(g, a, nodes, dirIno, x);
      var block :- BlockForIndex(core, dirRaw, x);
      if block.None? {
        continue;
      }
      DirBlockClosed(g, a, nodes, dirIno, x);
      var buf :- core.BlockVec(block.value);
      DirBlockTiled(buf, nodes.Keys);
      var off :- FindSlack(buf, needed);
      if off.Some? {
        assert RoomIn(g, a, nodes[dirIno], x, needed);
        TiledStep(buf, off.value);
        InsertFits(buf, off.value, name);
        InsertedInPlace(g, a, nodes, dirIno, x, off.value, ino, name, fileType);
        ghost var buf' := Insert(buf, off.value, ino, name, fileType);
        LeafStep(g, a, nodes, dirIno, x, buf');
        var _ :- core.WriteBlock(block.value, Insert(buf, off.value, ino, name, fileType));
        InvValid(g, core.disk, nodes);
        RecordKept(g, a, core.disk, nodes, dirIno);
        return Ok(true);
      }
    }
    return Ok(false);
  }

  lemma DirNode(g: Geo, raw: RawInode)
    requires raw.Valid() && raw.IsDir() && g.sb.blockSize > 0
    ensures NodeOf(g, raw) == Node(Slots(raw), BlocksFor(raw.Size(), g.sb.blockSize))
  {
  }

  lemma DirBlockTiled(buf: seq<byte>, inos: set<nat>)
    requires DirBlockOk(buf, inos)
    ensures Tiled(buf, 0, |buf|)
  {
  }

  /** Following the pointers of a consistent file never leaves the volume. */
  lemma TreeInRange(g: Geo, a: Img, nodes: map<nat, Node>, i: nat, x: nat)
    requires Inv(g, a, nodes) && i in nodes
    ensures g.Valid() && PointersInRange(g, a, nodes[i].slots)
    ensures Leaf(a, nodes[i].slots, Ptrs(g), x) < |a| == g.sb.blocksCount
    ensures Leaf(a, nodes[i].slots, Ptrs(g), x) != 0 ==>
              |a[Leaf(a, nodes[i].slots, Ptrs(g), x)]| == g.sb.blockSize
              && BlockOf(a, Leaf(a, nodes[i].slots, Ptrs(g), x)) == a[Leaf(a, nodes[i].slots, Ptrs(g), x)]
  {
    hide At, Leaf, Marked, MetaMarked, InodesMarked, Apart, DirsClosed, Geo.Valid, DescMatches;
    VolumeNotEmpty(g, a);
    forall u | ValidPath(Ptrs(g), u) ensures At(a, nodes[i].slots, u) < |a| {
      if At(a, nodes[i].slots, u) != 0 { DataInRange(g, a, At(a, nodes[i].slots, u)); }
    }
    if Leaf(a, nodes[i].slots, Ptrs(g), x) != 0 { LeafInRange(g, a, nodes, i, x); }
  }

  lemma VolumeNotEmpty(g: Geo, a: Img)
    requires g.Valid() && Sized(g, a)
    ensures 0 < |a| == g.sb.blocksCount
  {
  }

  /** A step that changes no record leaves the directory's own record in place. */
  lemma RecordKept(g: Geo, a: Img, h: Img, nodes: map<nat, Node>, i: nat)
    requires Layout(g, a) && Layout(g, h) && i in nodes && g.sb.HasInode(i)
    requires SameRecords(g, a, h, {})
    ensures Rec(g, h, i) == Rec(g, a, i)
  {
  }

  /** Writing a leaf past the last block of entries does not show in the listing on disk. */
  lemma LeafQuiet(g: Geo, a: Img, nodes: map<nat, Node>, i: nat, x: nat, buf: seq<byte>)
    requires Inv(g, a, nodes) && Ahead(g, a, nodes, i) && |buf| == g.sb.blockSize
    requires 0 < Leaf(a, nodes[i].slots, Ptrs(g), x) < |a| && nodes[i].dirBlocks <= x
    requires var h := a[Leaf(a, nodes[i].slots, Ptrs(g), x) := buf];
             StepOk(g, a, h, nodes, i) && SameRecords(g, a, h, {})
    ensures Quiet(g, a, a[Leaf(a, nodes[i].slots, Ptrs(g), x) := buf], nodes, i)
  {
    hide Inv, Geo.Valid, DescMatches, Rec, NodeOf, StepOk, At, Scan, LeafPath;
    var h, d := a[Leaf(a, nodes[i].slots, Ptrs(g), x) := buf], DiskNode(g, a, i);
    assert DiskNode(g, h, i) == d;
    LeafPathOfIndex(Ptrs(g), x);
    LeafOutside(g, a, nodes, i, d.slots, LeafPath(Ptrs(g), x), buf);
    forall y: nat | y < d.dirBlocks
      ensures BlockListing(h, d.slots, Ptrs(g), y) == BlockListing(a, d.slots, Ptrs(g), y)
    {
      if y < Capacity(Ptrs(g)) {
        LeafPathInjective(Ptrs(g), x, y);
        LeafPathOfIndex(Ptrs(g), y);
      }
    }
    EntriesSame(a, d.slots, h, d.slots, Ptrs(g), 0, d.dirBlocks);
  }

  /** A smaller tree of the same inode keeps its pointers, and its blocks at every other place. */
  lemma LeafOutside(g: Geo, a: Img, nodes: map<nat, Node>, i: nat, slots: seq<nat>, q0: Path, buf: seq<byte>)
    requires Inv(g, a, nodes) && i in nodes && Within(slots, nodes[i].slots)
    requires ValidPath(Ptrs(g), q0) && Height(q0) == 0 && 0 < At(a, nodes[i].slots, q0) < |a|
    ensures var h := a[At(a, nodes[i].slots, q0) := buf];
            forall q :: ValidPath(Ptrs(g), q) ==>
              && At(h, slots, q) == At(a, slots, q)
              && (q != q0 && At(a, slots, q) != 0 ==> BlockOf(h, At(a, slots, q)) == BlockOf(a, At(a, slots, q)))
  {
    hide At, MetaMarked, InodesMarked, Owned, DirsClosed, Geo.Valid, DescMatches, Sized, Within;
    var b := At(a, nodes[i].slots, q0);
    var h := a[b := buf];
    forall q | ValidPath(Ptrs(g), q) ensures q != q0 && At(a, slots, q) != 0 ==> At(a, slots, q) != b {
      WithinAt(a, slots, nodes[i].slots, q);
    }
    assert SamePointers(Ptrs(g), a, h, slots);
    forall q | ValidPath(Ptrs(g), q) ensures At(h, slots, q) == At(a, slots, q) {
      AtUnchanged(Ptrs(g), a, h, slots, q);
    }
  }

  /** The number of blocks a directory has after growing by one, as its 32-bit size records it. */
  function GrownBlocks(n: nat, bs: nat): nat
    requires bs > 0
  {
    BlocksFor((n + 1) * bs % 0x1_0000_0000, bs)
  }

  /** The size of a directory grown by one block fits its record. */
  predicate GrowthFits(raw: RawInode, bs: nat)
    requires raw.Valid() && bs > 0
  {
    (BlocksFor(raw.Size(), bs) + 1) * bs < 0x1_0000_0000
  }

  lemma BlocksForMultiple(n: nat, bs: nat)
    requires bs > 0
    ensures BlocksFor(n * bs, bs) == n
  {
    DivModUnique(n, bs - 1, bs);
  }

  /** However the size wraps, no block beyond the new one is counted. */
  lemma GrownBlocksBound(n: nat, bs: nat)
    requires bs in {1024, 2048, 4096}
    ensures GrownBlocks(n, bs) <= n + 1
    ensures (n + 1) * bs < 0x1_0000_0000 ==> GrownBlocks(n, bs) == n + 1
  {
    hide BlocksFor;
    var size := (n + 1) * bs;
    BlocksForMultiple(n + 1, bs);
    BlocksForMonotone(size % 0x1_0000_0000, size, bs);
  }

  /** Growing a directory counts the new block exactly when the size still fits 32 bits; past that it
      wraps and blocks drop out of the listing. */
  lemma GrowthCountsExactly(n: nat, bs: nat)
    requires bs in {1024, 2048, 4096} && (n + 1) * bs < 0x2_0000_0000
    ensures GrownBlocks(n, bs) == n + 1 <==> (n + 1) * bs < 0x1_0000_0000
  {
    hide BlocksFor;
    GrownBlocksBound(n, bs);
    if (n + 1) * bs >= 0x1_0000_0000 {
      BlocksForMonotone((n + 1) * bs % 0x1_0000_0000, n * bs, bs);
      BlocksForMultiple(n, bs);
    }
  }

  lemma BlocksForMonotone(s: nat, t: nat, bs: nat)
    requires bs > 0 && s <= t
    ensures BlocksFor(s, bs) <= BlocksFor(t, bs)
  {
    DivMod(s + bs - 1, bs);
    DivMod(t + bs - 1, bs);
    DivLess(s + bs - 1, bs, BlocksFor(t, bs) + 1);
  }

  /** The listing after growing by one block: the old entries, then the new one. */
  lemma GrownByOne(g: Geo, a: Img, s: seq<nat>, d1: Img, nodes: map<nat, Node>, i: nat, buf: seq<byte>, d3: Img,
                   e: seq<DirEntry>)
    requires Inv(g, d1, nodes) && i in nodes && nodes[i].dirBlocks < Capacity(Ptrs(g))
    requires Grown(Ptrs(g), a, s, d1, nodes[i].slots, LeafPath(Ptrs(g), nodes[i].dirBlocks))
    requires 0 < Leaf(d1, nodes[i].slots, Ptrs(g), nodes[i].dirBlocks) < |d1| && Scan(buf, 0) == e
    requires var d2 := d1[Leaf(d1, nodes[i].slots, Ptrs(g), nodes[i].dirBlocks) := buf];
             SameTrees(g, d1, d2, nodes) && Intact(g, d2, d3, nodes[i])
    ensures var n := nodes[i].dirBlocks;
            DirListing(g, d3, nodes[i].(dirBlocks := n + 1)) == Entries(a, s, Ptrs(g), 0, n) + e
  {
    hide Inv, Geo.Valid, Leaf, LeafPath, Scan, SameTrees, Intact, Grown;
    InvValid(g, d1, nodes);
    var n, slots, p := nodes[i].dirBlocks, nodes[i].slots, Ptrs(g);
    var d2 := d1[Leaf(d1, slots, p, n) := buf];
    GrownListing(g, a, s, d1, slots, n, n);
    forall y: nat
      ensures BlockListing(d2, slots, p, y) == if y == n then Scan(buf, 0) else BlockListing(d1, slots, p, y) {
      LeafWriteListing(g, d1, nodes, i, n, buf, y);
    }
    IntactListing(g, d2, d3, nodes[i]);
    EntriesSame(d1, slots, d3, slots, p, 0, n);
  }

  /** When the size wraps, what is listed is the blocks the wrapped size still counts. */
  lemma CutShort(g: Geo, a: Img, s: seq<nat>, d1: Img, nodes: map<nat, Node>, i: nat, buf: seq<byte>, d3: Img, n': nat)
    requires Inv(g, d1, nodes) && i in nodes && nodes[i].dirBlocks < Capacity(Ptrs(g)) && n' <= nodes[i].dirBlocks
    requires Grown(Ptrs(g), a, s, d1, nodes[i].slots, LeafPath(Ptrs(g), nodes[i].dirBlocks))
    requires 0 < Leaf(d1, nodes[i].slots, Ptrs(g), nodes[i].dirBlocks) < |d1|
    requires var d2 := d1[Leaf(d1, nodes[i].slots, Ptrs(g), nodes[i].dirBlocks) := buf];
             SameTrees(g, d1, d2, nodes) && Intact(g, d2, d3, nodes[i])
    ensures DirListing(g, d3, nodes[i].(dirBlocks := n')) == Entries(a, s, Ptrs(g), 0, n')
  {
    hide Inv, Geo.Valid, Leaf, LeafPath, Scan, SameTrees, Intact, Grown, Entries;
    InvValid(g, d1, nodes);
    var n, slots, p := nodes[i].dirBlocks, nodes[i].slots, Ptrs(g);
    var d2 := d1[Leaf(d1, slots, p, n) := buf];
    GrownListing(g, a, s, d1, slots, n, n');
    forall y: nat
      ensures BlockListing(d2, slots, p, y) == if y == n then Scan(buf, 0) else BlockListing(d1, slots, p, y) {
      LeafWriteListing(g, d1, nodes, i, n, buf, y);
    }
    IntactListing(g, d2, d3, nodes[i]);
    EntriesSame(d1, slots, d3, slots, p, 0, n');
  }

  lemma Wrapped(raw: RawInode, n: nat, bs: nat)
    requires raw.Valid() && raw.IsDir() && bs in {1024, 2048, 4096} && n == BlocksFor(raw.Size(), bs)
             && !GrowthFits(raw, bs)
    ensures GrownBlocks(n, bs) <= n
  {
    hide BlocksFor, RawInode.Size, GrownBlocks;
    SizeIsSmall(raw);
    RoundUp(raw.Size(), bs);
    GrowthCountsExactly(n, bs);
    GrownBlocksBound(n, bs);
  }

  /** The new block is written and the record is not: the grown directory is ready to be recorded. */
  lemma ReadyToRecord(g: Geo, d1: Img, nodes: map<nat, Node>, i: nat, buf: seq<byte>, n': nat)
    requires Inv(g, d1, nodes) && Ahead(g, d1, nodes, i) && |buf| == g.sb.blockSize && DirBlockOk(buf, nodes.Keys)
    requires 0 < Leaf(d1, nodes[i].slots, Ptrs(g), nodes[i].dirBlocks) < |d1| && n' <= nodes[i].dirBlocks + 1
    ensures var d2 := d1[Leaf(d1, nodes[i].slots, Ptrs(g), nodes[i].dirBlocks) := buf];
            var nodes' := nodes[i := nodes[i].(dirBlocks := n')];
            && Layout(g, d2) && Quiet(g, d1, d2, nodes, i) && SameTrees(g, d1, d2, nodes)
            && Inv(g, d2, nodes') && OthersOnDisk(g, d2, nodes', i)
            && (CountersOk(g, d1) ==> CountersOk(g, d2)) && Dirs(g, d2) == Dirs(g, d1)
  {
    hide Dirs, Inv, Geo.Valid, DescMatches, Leaf, DirBlockOk, Quiet, StepOk, NodeOf, CountersOk, Rec, Within, SameTrees;
    var b := Leaf(d1, nodes[i].slots, Ptrs(g), nodes[i].dirBlocks);
    var d2 := d1[b := buf];
    LeafStep(g, d1, nodes, i, nodes[i].dirBlocks, buf);
    LeafQuiet(g, d1, nodes, i, nodes[i].dirBlocks, buf);
    SameLeaf(g, d1, d2, nodes, i, nodes[i].dirBlocks);
    GrowthCounted(g, d2, nodes, i, buf, n');
  }

  ghost function WithRecord(g: Geo, nodes: map<nat, Node>, i: nat, raw: RawInode): (m: map<nat, Node>)
    requires raw.Valid() && g.sb.blockSize > 0 && i in nodes
    ensures m.Keys == nodes.Keys && SameOthers(nodes, m, i)
  {
    nodes[i := NodeOf(g, raw)]
  }

  /** The grown record: same type and pointers, one block longer as far as its size can say so. */
  lemma GrownRecord(g: Geo, raw: RawInode, n: nat)
    requires g.Valid() && g.sb.blockSize > 0 && raw.Valid() && raw.IsDir() && n == BlocksFor(raw.Size(), g.sb.blockSize)
    ensures var raw' := raw.SetSize((n + 1) * g.sb.blockSize);
            && raw'.Valid() && |raw'.buf| == |raw.buf| && raw'.IsDir() && SameLinks(raw, raw')
            && raw'.Size() == (n + 1) * g.sb.blockSize % 0x1_0000_0000
            && NodeOf(g, raw') == Node(Slots(raw), GrownBlocks(n, g.sb.blockSize))
  {
    hide RawInode.SetSize, RawInode.Mode, RawInode.LinksCount, BlocksFor, RawInode.IBlock;
    var bs := g.sb.blockSize;
    SizeIsSmall(raw);
    RoundUp(raw.Size(), bs);
    assert bs <= 4096;
    SetSizeEffect(raw, (n + 1) * bs);
    var raw' := raw.SetSize((n + 1) * bs);
    assert Slots(raw') == Slots(raw);
    DirNode(g, raw');
  }

  lemma SizeIsSmall(raw: RawInode)
    requires raw.Valid() && raw.IsDir()
    ensures raw.Size() < 0x1_0000_0000 && !raw.IsReg()
  {
    Widths();
    assert Field(raw.buf, 4, 4) < Pow256(4);
  }

  lemma RoundUp(size: nat, bs: nat)
    requires bs > 0
    ensures size <= BlocksFor(size, bs) * bs < size + bs
  {
    DivMod(size + bs - 1, bs);
  }

  /** Grow the directory by one block that holds just the new entry. */
  method GrowDirectory(core: Ext2Core, dirIno: nat, dirRaw: RawInode, name: seq<byte>, ino: nat, fileType: byte,
                       ghost nodes: map<nat, Node>)
    returns (r: Result<()>, dirRaw': RawInode)
    requires DirOpen(core, nodes, dirIno, dirRaw) && ino in nodes && 8 + |name| <= core.sb.blockSize
    modifies core
    ensures core.Ready() && (r.Err? ==> r == Err(NoSpace) || r == Err(TooLarge))
    ensures r.Err? ==> Quiet(core.geo, old(core.disk), core.disk, nodes, dirIno)
                       && QuietSince(core.geo, old(core.disk), old(core.history), core.history, nodes, dirIno)
    ensures r.Ok? ==> dirRaw'.Valid() && core.sb.blockSize > 0
                      && DirOpen(core, WithRecord(core.geo, nodes, dirIno, dirRaw'), dirIno, dirRaw')
                      && CommitsLast(core.geo, old(core.disk), old(core.history), core.history, core.disk, nodes,
                                     dirIno)
                      && StepOk(core.geo, old(core.disk), core.disk, nodes, dirIno) && SameLinks(dirRaw, dirRaw')
    ensures r.Ok? && GrowthFits(dirRaw, core.sb.blockSize) ==>
              DirListing(core.geo, core.disk, NodeOf(core.geo, dirRaw'))
              == DirListing(core.geo, old(core.disk), nodes[dirIno]) + ShownOf(Record(0, Stored(ino, name, fileType)))
    ensures r.Ok? && !GrowthFits(dirRaw, core.sb.blockSize) ==>
              DirListing(core.geo, core.disk, NodeOf(core.geo, dirRaw'))
                  == WrappedListing(core.geo, old(core.disk), nodes[dirIno])
    ensures r == Err(NoSpace) ==> RanOut(core.geo, old(core.disk), core.disk)
    ensures r == Err(TooLarge) <==> nodes[dirIno].dirBlocks >= Capacity(Ptrs(core.geo))
    ensures CountersOk(core.geo, old(core.disk)) ==> CountersOk(core.geo, core.disk)
    ensures Dirs(core.geo, core.disk) == Dirs(core.geo, old(core.disk))
  {
    hide Dirs, Inv, Ahead, Geo.Valid, DescMatches, StepOk, Quiet, QuietSince, CommitsLast, CountersOk, Leaf, Stored,
         Scan, SameTrees, Added, RawInode.Mode, RawInode.Size, RawInode.SetSize, RawInode.LinksCount, BlocksFor,
         FirstBlock, DirBlockOk, Grown, Rec, NodeOf, Slots, LeafPath, Capacity, RecordWritten, OthersOnDisk, Intact,
         ShownOf, BlockOf, RanOut;
    ghost var g, a, h0 := core.geo, core.disk, core.history;
    InvValid(g, a, nodes);
    DirNode(g, dirRaw);
    var bs := core.sb.blockSize;
    var n := BlocksFor(dirRaw.Size(), bs);
    var b;
    b, dirRaw' := BlockForIndexAlloc(core, dirRaw, n, nodes, dirIno);
    if b.Err? {
      SelfStep(g, a, nodes, dirIno);
      return Err(b.error), dirRaw';
    }
    var w;
    w, dirRaw' := AppendBlock(core, dirIno, dirRaw', b.value, n, name, ino, fileType, nodes, a, h0, Slots(dirRaw));
    return Ok(()), dirRaw';
  }

  /** What a directory lists once growing has wrapped its size. */
  ghost function WrappedListing(g: Geo, a: Img, node: Node): seq<DirEntry>
    requires g.Valid() && g.sb.blockSize > 0
  {
    Entries(a, node.slots, Ptrs(g), 0, GrownBlocks(node.dirBlocks, g.sb.blockSize))
  }

  /** It is the front of what it listed. */
  lemma WrappedIsShorter(g: Geo, a: Img, raw: RawInode)
    requires g.Valid() && g.sb.blockSize > 0 && raw.Valid() && raw.IsDir() && !GrowthFits(raw, g.sb.blockSize)
    ensures WrappedListing(g, a, NodeOf(g, raw)) <= DirListing(g, a, NodeOf(g, raw))
  {
    hide RawInode.Mode, RawInode.Size, Entries, BlocksFor, GrownBlocks, GrowthFits;
    BlockSizes(g);
    hide Geo.Valid;
    DirNode(g, raw);
    var node := NodeOf(g, raw);
    Wrapped(raw, node.dirBlocks, g.sb.blockSize);
    EntriesSplit(a, node.slots, Ptrs(g), 0, GrownBlocks(node.dirBlocks, g.sb.blockSize), node.dirBlocks);
  }

  /** Write the new last block, then the record that counts it.  Guarantees are stated from image a and
      history h0, where the directory's pointers were s. */
  method AppendBlock(core: Ext2Core, dirIno: nat, raw: RawInode, block: nat, n: nat, name: seq<byte>, ino: nat,
                     fileType: byte,
                     ghost nodes: map<nat, Node>, ghost a: Img, ghost h0: seq<Img>, ghost s: seq<nat>)
    returns (r: Result<()>, raw': RawInode)
    requires dirIno in nodes && raw.Valid() && Writing(core, WithRaw(nodes, dirIno, raw), dirIno)
             && core.sb.blockSize > 0
    requires |raw.buf| == core.sb.inodeSize && raw.IsDir()
             && n == BlocksFor(raw.Size(), core.sb.blockSize) == nodes[dirIno].dirBlocks
    requires n < Capacity(Ptrs(core.geo)) && Leaf(core.disk, Slots(raw), Ptrs(core.geo), n) == block != 0
    requires ino in nodes && 8 + |name| <= core.sb.blockSize
    requires Quiet(core.geo, a, core.disk, nodes, dirIno) && QuietSince(core.geo, a, h0, core.history, nodes, dirIno)
    requires Grown(Ptrs(core.geo), a, s, core.disk, Slots(raw), LeafPath(Ptrs(core.geo), n))
    modifies core
    ensures core.Ready() && r.Ok? && raw'.Valid() && core.sb.blockSize > 0 && SameLinks(raw, raw')
    ensures DirOpen(core, WithRecord(core.geo, nodes, dirIno, raw'), dirIno, raw')
    ensures CommitsLast(core.geo, a, h0, core.history, core.disk, nodes, dirIno)
            && StepOk(core.geo, a, core.disk, nodes, dirIno)
    ensures GrowthFits(raw, core.sb.blockSize) ==>
              DirListing(core.geo, core.disk, NodeOf(core.geo, raw'))
              == Entries(a, s, Ptrs(core.geo), 0, n) + ShownOf(Record(0, Stored(ino, name, fileType)))
    ensures !GrowthFits(raw, core.sb.blockSize) ==>
              DirListing(core.geo, core.disk, NodeOf(core.geo, raw'))
              == Entries(a, s, Ptrs(core.geo), 0, GrownBlocks(n, core.sb.blockSize))
              && GrownBlocks(n, core.sb.blockSize) <= n
    ensures CountersOk(core.geo, old(core.disk)) ==> CountersOk(core.geo, core.disk)
    ensures Dirs(core.geo, core.disk) == Dirs(core.geo, old(core.disk))
  {
    hide Dirs, Inv, Ahead, Geo.Valid, DescMatches, StepOk, Quiet, QuietSince, CommitsLast, CountersOk, Leaf, Stored,
         Scan, SameTrees, RawInode.Mode, RawInode.Size, RawInode.SetSize, RawInode.LinksCount, BlocksFor, FirstBlock,
         DirBlockOk, Grown, Rec, NodeOf, Slots, LeafPath, Capacity, RecordWritten, OthersOnDisk, Intact, ShownOf,
         BlockOf, Entries, GrownBlocks, GrowthFits, DirListing;
    var bs := core.sb.blockSize;
    var size: nat := (n + 1) * bs;
    ghost var g, nodes1, d1, h1 := core.geo, WithRaw(nodes, dirIno, raw), core.disk, core.history;
    InvValid(g, d1, nodes1);
    LeafInRange(g, d1, nodes1, dirIno, n);
    ghost var buf := FirstBlock(bs, ino, name, fileType);
    BlockSizes(g);
    InodeIsSmall(g, ino);
    FirstBlockOk(bs, ino, name, fileType, nodes1.Keys);
    GrownBlocksBound(n, bs);
    ReadyToRecord(g, d1, nodes1, dirIno, buf, GrownBlocks(n, bs));
    r := core.WriteBlock(block, FirstBlock(bs, ino, name, fileType));
    ghost var d2 := core.disk;
    GrownRecord(g, raw, n);
    raw' := raw.SetSize(size);
    r := core.WriteInode(dirIno, raw');
    GrowthDone(g, a, d1, d2, core.disk, h0, h1, nodes, nodes1, dirIno, raw');
    AppendListing(g, a, s, d1, nodes1, dirIno, buf, core.disk, raw, raw', ino, name, fileType);
  }

  /** What is listed once the new block and its record are written. */
  lemma AppendListing(g: Geo, a: Img, s: seq<nat>, d1: Img, nodes: map<nat, Node>, i: nat, buf: seq<byte>, d3: Img,
                      raw: RawInode, raw': RawInode, ino: nat, name: seq<byte>, fileType: byte)
    requires Inv(g, d1, nodes) && i in nodes && nodes[i].dirBlocks < Capacity(Ptrs(g))
    requires Grown(Ptrs(g), a, s, d1, nodes[i].slots, LeafPath(Ptrs(g), nodes[i].dirBlocks))
    requires 0 < Leaf(d1, nodes[i].slots, Ptrs(g), nodes[i].dirBlocks) < |d1|
    requires Scan(buf, 0) == ShownOf(Record(0, Stored(ino, name, fileType)))
    requires var d2 := d1[Leaf(d1, nodes[i].slots, Ptrs(g), nodes[i].dirBlocks) := buf];
             SameTrees(g, d1, d2, nodes) && Intact(g, d2, d3, nodes[i])
    requires raw.Valid() && raw.IsDir() && raw'.Valid() && g.sb.blockSize in {1024, 2048, 4096}
    requires BlocksFor(raw.Size(), g.sb.blockSize) == nodes[i].dirBlocks
    requires NodeOf(g, raw') == Node(nodes[i].slots, GrownBlocks(nodes[i].dirBlocks, g.sb.blockSize))
    ensures GrowthFits(raw, g.sb.blockSize) ==>
              DirListing(g, d3, NodeOf(g, raw'))
              == Entries(a, s, Ptrs(g), 0, nodes[i].dirBlocks) + ShownOf(Record(0, Stored(ino, name, fileType)))
    ensures var n' := GrownBlocks(nodes[i].dirBlocks, g.sb.blockSize);
            !GrowthFits(raw, g.sb.blockSize) ==>
              DirListing(g, d3, NodeOf(g, raw')) == Entries(a, s, Ptrs(g), 0, n') && n' <= nodes[i].dirBlocks
  {
    hide Inv, Geo.Valid, Leaf, LeafPath, Scan, SameTrees, Intact, Grown, Entries, GrownBlocks, NodeOf, BlocksFor,
         ShownOf, Stored, Capacity, RawInode.Size, RawInode.Mode, DirListing;
    var n, bs := nodes[i].dirBlocks, g.sb.blockSize;
    GrownBlocksBound(n, bs);
    if GrowthFits(raw, bs) {
      GrownByOne(g, a, s, d1, nodes, i, buf, d3, ShownOf(Record(0, Stored(ino, name, fileType))));
    } else {
      Wrapped(raw, n, bs);
      CutShort(g, a, s, d1, nodes, i, buf, d3, GrownBlocks(n, bs));
    }
  }

  lemma BlockSizes(g: Geo)
    requires g.Valid()
    ensures g.sb.blockSize in {1024, 2048, 4096} && g.sb.blockSize % 4 == 0
  {
  }

  lemma AddedLast(g: Geo, a: Img, node: Node, h: Img, node': Node, e: DirEntry)
    requires g.Valid() && DirListing(g, h, node') == DirListing(g, a, node) + ShownOf(Record(0, e))
    ensures Added(g, a, node, h, node', e)
  {
    hide Geo.Valid, DirListing;
    var old' := DirListing(g, a, node);
    assert DirListing(g, h, node') == InsertAt(old', |old'|, ShownOf(Record(0, e)));
  }

  /** The last step of growing: the record is written over a tree that is ready for it. */
  lemma GrowthDone(g: Geo, a: Img, d1: Img, d2: Img, d3: Img, h0: seq<Img>, h1: seq<Img>,
                   nodes: map<nat, Node>, nodes1: map<nat, Node>, i: nat, raw: RawInode)
    requires raw.Valid() && g.sb.blockSize > 0 && i in nodes1 && SameOthers(nodes, nodes1, i)
    requires Quiet(g, a, d1, nodes, i) && QuietSince(g, a, h0, h1, nodes, i) && Quiet(g, d1, d2, nodes1, i)
    requires Inv(g, d2, WithRecord(g, nodes1, i, raw)) && OthersOnDisk(g, d2, WithRecord(g, nodes1, i, raw), i)
    requires RecordWritten(g, d2, d3, i, raw) && NodeOf(g, raw).slots == nodes1[i].slots
    ensures var nodes' := WithRecord(g, nodes, i, raw);
            && Inv(g, d3, nodes') && Ahead(g, d3, nodes', i) && Rec(g, d3, i) == raw && Layout(g, d3)
    ensures CommitsLast(g, a, h0, h1 + [d2] + [d3], d3, nodes, i) && StepOk(g, a, d3, nodes, i)
    ensures Intact(g, d2, d3, nodes1[i]) && (CountersOk(g, d2) ==> CountersOk(g, d3))
  {
    hide Inv, StepOk, Quiet, QuietSince, OthersOnDisk, Ahead, RecordWritten, CountersOk, NodeOf, Geo.Valid,
         DescMatches, Intact;
    var nodes2 := WithRecord(g, nodes1, i, raw);
    assert WithRecord(g, nodes, i, raw) == nodes2;
    RecordStep(g, d2, d3, nodes2, i, raw);
    WrittenLayout(g, d2, d3, i, raw);
    QuietTransitive(g, a, d1, d2, nodes, nodes1, i);
    QuietSinceSnoc(g, a, d2, h0, h1, nodes, i);
    QuietIsSafe(g, a, h0, h1, nodes, i);
    StepOkTransitive(g, a, d2, d3, nodes, nodes2, i);
    assert (h1 + [d2] + [d3])[..|h1| + 1] == h1 + [d2];
    WrittenRec(g, d2, d3, i, raw);
    IntactSlots(g, d2, d3, nodes2[i], nodes1[i]);
  }

  lemma WrittenRec(g: Geo, a: Img, h: Img, i: nat, raw: RawInode)
    requires RecordWritten(g, a, h, i, raw)
    ensures Rec(g, h, i) == raw
  {
  }

  lemma IntactSlots(g: Geo, a: Img, h: Img, n1: Node, n2: Node)
    requires g.Valid() && Intact(g, a, h, n1) && n1.slots == n2.slots
    ensures Intact(g, a, h, n2)
  {
    hide Geo.Valid, At;
  }

  /** The entry goes in and is counted: a record has room for it, or one more block does not wrap the size. */
  ghost predicate EntryFits(g: Geo, a: Img, raw: RawInode, name: seq<byte>)
    requires g.Valid() && g.sb.blockSize > 0 && raw.Valid()
  {
    HasRoom(g, a, NodeOf(g, raw), DirentLen(|name|)) || GrowthFits(raw, g.sb.blockSize)
  }

  /** No record has room for the name, and the last block a file can have is taken. */
  ghost predicate DirFull(g: Geo, a: Img, node: Node, name: seq<byte>)
    requires g.Valid()
  {
    !HasRoom(g, a, node, DirentLen(|name|)) && node.dirBlocks >= Capacity(Ptrs(g))
  }

  /** Insert an entry: in the slack of an existing block, or in a new block at the end.  Until the last
      block write the directory reads as before. */
  method AddDirEntry(core: Ext2Core, dirIno: nat, dirRaw: RawInode, name: seq<byte>, ino: nat, fileType: byte,
                     ghost nodes: map<nat, Node>)
    returns (r: Result<()>, dirRaw': RawInode)
    requires DirOpen(core, nodes, dirIno, dirRaw) && ino in nodes && 8 + |name| <= core.sb.blockSize
    modifies core
    ensures core.Ready() && (r.Err? ==> r == Err(NoSpace) || r == Err(TooLarge))
    ensures r.Err? ==> Quiet(core.geo, old(core.disk), core.disk, nodes, dirIno)
                       && QuietSince(core.geo, old(core.disk), old(core.history), core.history, nodes, dirIno)
    ensures r.Ok? ==> dirRaw'.Valid() && core.sb.blockSize > 0
                      && DirOpen(core, WithRecord(core.geo, nodes, dirIno, dirRaw'), dirIno, dirRaw')
                      && CommitsLast(core.geo, old(core.disk), old(core.history), core.history, core.disk, nodes,
                                     dirIno)
                      && StepOk(core.geo, old(core.disk), core.disk, nodes, dirIno) && SameLinks(dirRaw, dirRaw')
    ensures HasRoom(core.geo, old(core.disk), nodes[dirIno], DirentLen(|name|)) ==>
              r.Ok? && dirRaw' == dirRaw && core.history == old(core.history) + [core.disk]
    ensures r.Ok? && EntryFits(core.geo, old(core.disk), dirRaw, name) ==>
              Added(core.geo, old(core.disk), nodes[dirIno], core.disk, NodeOf(core.geo, dirRaw'),
                    Stored(ino, name, fileType))
    ensures r.Ok? && !HasRoom(core.geo, old(core.disk), nodes[dirIno], DirentLen(|name|))
            && GrowthFits(dirRaw, core.sb.blockSize) ==>
              DirListing(core.geo, core.disk, NodeOf(core.geo, dirRaw'))
              == DirListing(core.geo, old(core.disk), nodes[dirIno]) + ShownOf(Record(0, Stored(ino, name, fileType)))
    ensures r.Ok? && !EntryFits(core.geo, old(core.disk), dirRaw, name) ==>
              DirListing(core.geo, core.disk, NodeOf(core.geo, dirRaw'))
                  == WrappedListing(core.geo, old(core.disk), nodes[dirIno])
              <= DirListing(core.geo, old(core.disk), nodes[dirIno])
    ensures r == Err(NoSpace) ==> RanOut(core.geo, old(core.disk), core.disk)
    ensures r == Err(TooLarge) <==> DirFull(core.geo, old(core.disk), nodes[dirIno], name)
    ensures CountersOk(core.geo, old(core.disk)) ==> CountersOk(core.geo, core.disk)
    ensures Dirs(core.geo, core.disk) == Dirs(core.geo, old(core.disk))
  {
    hide Dirs, Inv, Ahead, Geo.Valid, DescMatches, StepOk, Quiet, CountersOk, Stored, Added, HasRoom, DirListing,
         WrappedListing, ShownOf, RawInode.Mode, RawInode.Size, RawInode.LinksCount, BlocksFor, Rec, NodeOf, GrowthFits,
         DirentLen, RanOut, Capacity;
    dirRaw' := dirRaw;
    var placed := InsertInBlocks(core, dirRaw, name, ino, fileType, nodes, dirIno);
    assert WithRecord(core.geo, nodes, dirIno, dirRaw) == nodes;
    if placed.Err? {
      return Err(Io), dirRaw;
    }
    if placed.value {
      assert core.history[..|core.history| - 1] == old(core.history);
      return Ok(()), dirRaw;
    }
    r, dirRaw' := GrowDirectory(core, dirIno, dirRaw, name, ino, fileType, nodes);
    if r.Ok? {
      ghost var g, a := core.geo, old(core.disk);
      if GrowthFits(dirRaw, core.sb.blockSize) {
        AddedLast(g, a, nodes[dirIno], core.disk, NodeOf(g, dirRaw'), Stored(ino, name, fileType));
      } else {
        WrappedIsShorter(g, a, dirRaw);
      }
    }
  }

  // Removal

  lemma ScannedNext(buf: seq<byte>, prev: Option<nat>, off: nat)
    requires Scanned(buf, prev, off) && off + 8 <= |buf|
    ensures RecLen(buf, off) >= 8 && off + 8 + (if RecIno(buf, off) == 0 then 0 else buf[off + 6]) <= |buf|
    ensures Scanned(buf, Some(off), off + RecLen(buf, off))
    ensures Between(buf, 0, off + RecLen(buf, off))
            == Between(buf, 0, off) + ShownOf(RecordAt(buf, off))
  {
    hide Un, Field, RecordAt, Records, DirBlock.Listing, Scan, ShownOf;
    var hi := off + RecLen(buf, off);
    TiledStep(buf, off);
    OneRecord(buf, off, hi);
    TiledConcat(buf, 0, off, hi);
    ListingConcat(Records(buf, 0, off), Records(buf, off, hi));
  }

  /** The first live record with this name, and the record before it. */
  method FindName(buf: seq<byte>, name: seq<byte>) returns (r: Option<(Option<nat>, nat)>)
    requires Tiled(buf, 0, |buf|)
    ensures r.Some? ==> var (prev, off) := r.value;
              && off + 8 <= |buf| && Scanned(buf, prev, off)
              && RecIno(buf, off) != 0 && RecordAt(buf, off).entry.name == name
              && forall e :: e in Between(buf, 0, off) ==> e.name != name
    ensures r.None? ==> forall e :: e in Scan(buf, 0) ==> e.name != name
  {
    hide Un, Field, Records, DirBlock.Listing, Scan, Tiled, RecLen, RecordFits, Scanned, RecIno;
    var off: nat, prev: Option<nat> := 0, None;
    TiledEmpty(buf);
    StartScan(buf);
    while off + 8 <= |buf|
      invariant Scanned(buf, prev, off) && off <= |buf| && Tiled(buf, 0, off)
      invariant forall e :: e in Between(buf, 0, off) ==> e.name != name
      decreases |buf| - off
    {
      var len := RecLen(buf, off);
      ScannedNext(buf, prev, off);
      if len < 8 {
        break;
      }
      var n := buf[off + 6];
      if RecIno(buf, off) != 0 && n == |name| && off + 8 + n <= |buf| && buf[off + 8..off + 8 + n] == name {
        return Some((prev, off));
      }
      ScannedHere(buf, Some(off), off + len);
      prev, off := Some(off), off + len;
    }
    EndScan(buf, prev, off);
    return None;
  }

  lemma StartScan(buf: seq<byte>)
    requires Tiled(buf, 0, |buf|)
    ensures Scanned(buf, None, 0) && Between(buf, 0, 0) == []
  {
  }

  lemma ScannedHere(buf: seq<byte>, prev: Option<nat>, off: nat)
    requires Scanned(buf, prev, off)
    ensures off <= |buf| && Tiled(buf, 0, off) && (prev.Some? ==> prev.value + 8 <= off)
  {
  }

  lemma EndScan(buf: seq<byte>, prev: Option<nat>, off: nat)
    requires Scanned(buf, prev, off) && off + 8 > |buf|
    ensures Scan(buf, 0) == Between(buf, 0, off)
  {
    hide Un, Field, Records, DirBlock.Listing, Scan, RecordFits;
    assert off == |buf|;
    ScanIsListing(buf, 0);
  }

  /** A name a listing can show. */
  predicate Listed(name: seq<byte>) {
    name != [] && name != DOT && name != DOT_DOT
  }

  /** l' is l without its first entry of this name. */
  ghost predicate FirstRemoved(l: seq<DirEntry>, l': seq<DirEntry>, e: DirEntry) {
    exists k: nat :: k < |l| && l[k] == e && (forall j :: 0 <= j < k ==> l[j].name != e.name) && l' == RemoveAt(l, k)
  }

  /** What a removal does to the block: the entries before and after the removed one stay. */
  lemma RemovedFromBlock(buf: seq<byte>, prev: Option<nat>, off: nat, inos: set<nat>) returns (back: seq<DirEntry>)
    requires |buf| < 0x1_0000 && off + 8 <= |buf| && (prev.Some? ==> prev.value + 8 <= off)
    requires Scanned(buf, prev, off) && RecIno(buf, off) != 0 && DirBlockOk(buf, inos)
    ensures var front, e := Between(buf, 0, off), RecordAt(buf, off).entry;
            && Scan(buf, 0) == front + (if Listed(e.name) then [e] else []) + back
            && Scan(Remove(buf, prev, off), 0) == front + back && DirBlockOk(Remove(buf, prev, off), inos)
  {
    hide Tiled, Remove, RecLen, RecIno, Scan, Between, RecordAt, Scanned;
    RemoveEffect(buf, prev, off);
    ScannedHere(buf, prev, off);
    ListedIsShown(buf, off);
    var front := Between(buf, 0, off);
    back := Between(buf, off + RecLen(buf, off), |buf|);
    forall e | e in front + back ensures e.ino in inos {
      assert e in front || e in back;
      assert e in Scan(buf, 0);
    }
  }

  lemma FirstOut(pre: seq<DirEntry>, front: seq<DirEntry>, e: DirEntry, back: seq<DirEntry>, post: seq<DirEntry>)
    requires (forall d :: d in pre ==> d.name != e.name) && (forall d :: d in front ==> d.name != e.name)
    ensures FirstRemoved(pre + (front + [e] + back) + post, pre + (front + back) + post, e)
  {
    var l, k := pre + (front + [e] + back) + post, |pre| + |front|;
    assert l[..k] == pre + front && l[k + 1..] == back + post;
    assert pre + (front + back) + post == RemoveAt(l, k);
  }

  /** Removing a record from its block: the block stays well formed and the listing loses that entry. */
  lemma RemovedInPlace(g: Geo, a: Img, nodes: map<nat, Node>, i: nat, x: nat, prev: Option<nat>, off: nat)
    requires Inv(g, a, nodes) && i in nodes && x < nodes[i].dirBlocks
    requires var b := Leaf(a, nodes[i].slots, Ptrs(g), x);
             && 0 < b < |a| && off + 8 <= |a[b]| == g.sb.blockSize && Scanned(a[b], prev, off) && RecIno(a[b], off) != 0
             && var name := RecordAt(a[b], off).entry.name;
                && (forall e :: e in Between(a[b], 0, off) ==> e.name != name)
                && (forall e :: e in Entries(a, nodes[i].slots, Ptrs(g), 0, x) ==> e.name != name)
    ensures var b := Leaf(a, nodes[i].slots, Ptrs(g), x);
            var buf, e := Remove(a[b], prev, off), RecordAt(a[b], off).entry;
            && DirBlockOk(buf, nodes.Keys)
            && (SameTrees(g, a, a[b := buf], nodes) ==>
                  var l, l' := DirListing(g, a, nodes[i]), DirListing(g, a[b := buf], nodes[i]);
                  if Listed(e.name) then FirstRemoved(l, l', e) else l' == l)
  {
    hide Inv, Geo.Valid, Leaf, Remove, Scan, SameTrees, DirListing, Records, DirBlock.Listing, RecordAt, Scanned,
         Entries, FirstRemoved, DirBlockOk, RecIno;
    InvValid(g, a, nodes);
    var p, slots, n := Ptrs(g), nodes[i].slots, nodes[i].dirBlocks;
    var b := Leaf(a, slots, p, x);
    BlockSizes(g);
    ScannedHere(a[b], prev, off);
    DirBlockClosed(g, a, nodes, i, x);
    var back := RemovedFromBlock(a[b], prev, off, nodes.Keys);
    var buf := Remove(a[b], prev, off);
    if SameTrees(g, a, a[b := buf], nodes) {
      ListingEdited(g, a, nodes, i, x, buf);
      var front, e := Between(a[b], 0, off), RecordAt(a[b], off).entry;
      if Listed(e.name) {
        FirstOut(Entries(a, slots, p, 0, x), front, e, back, Entries(a, slots, p, x + 1, n));
      } else {
        assert front + [] + back == front + back;
      }
    }
  }

  lemma ListedIsShown(buf: seq<byte>, off: nat)
    requires off + 8 <= |buf| && RecIno(buf, off) != 0
    ensures var r := RecordAt(buf, off);
            ShownOf(r) == if Listed(r.entry.name) then [r.entry] else []
  {
  }

  /** Remove the first live record with this name: swallowed by the one before it, or marked deleted. */
  method RemoveDirEntry(core: Ext2Core, dirRaw: RawInode, name: seq<byte>, ghost nodes: map<nat, Node>,
                        ghost dirIno: nat)
    returns (r: Result<(nat, byte)>)
    requires DirOpen(core, nodes, dirIno, dirRaw)
    modifies core
    ensures DirOpen(core, nodes, dirIno, dirRaw)
    ensures r.Err? ==> r == Err(NotFound) && core.disk == old(core.disk) && core.history == old(core.history)
                       && forall e :: e in DirListing(core.geo, core.disk, nodes[dirIno]) ==> e.name != name
    ensures r.Ok? ==> core.history == old(core.history) + [core.disk]
                      && var l, l' := DirListing(core.geo, old(core.disk), nodes[dirIno]),
                         DirListing(core.geo, core.disk, nodes[dirIno]);
                         if Listed(name) then FirstRemoved(l, l', DirEntry(r.value.0, r.value.1, name)) else l' == l
    ensures StepOk(core.geo, old(core.disk), core.disk, nodes, dirIno)
    ensures CountersOk(core.geo, old(core.disk)) ==> CountersOk(core.geo, core.disk)
    ensures Dirs(core.geo, core.disk) == Dirs(core.geo, old(core.disk))
  {
    hide Dirs, Inv, Ahead, Geo.Valid, DescMatches, StepOk, CountersOk, Leaf, Tiled, Remove, Scan, SameTrees,
         FirstRemoved, RawInode.Mode, RawInode.Size, RecLen, RecIno, BlocksFor, Records, DirBlock.Listing, Scanned,
         Listed, Rec, NodeOf, DirBlockOk;
    ghost var g, a, h0 := core.geo, core.disk, core.history;
    SelfStep(g, a, nodes, dirIno);
    assert Quiet(g, a, a, nodes, dirIno);
    DirNode(g, dirRaw);
    ghost var slots, p := nodes[dirIno].slots, Ptrs(g);
    var numBlocks := BlocksFor(dirRaw.Size(), core.sb.blockSize);
    for x := 0 to numBlocks
      invariant core.disk == a && core.history == h0
      invariant forall e :: e in Entries(a, slots, p, 0, x) ==> e.name != name
    {
      TreeInRange(g, a, nodes, dirIno, x);
      var block :- BlockForIndex(core, dirRaw, x);
      if block.None? {
        continue;
      }
      DirBlockClosed(g, a, nodes, dirIno, x);
      var buf :- core.BlockVec(block.value);
      DirBlockTiled(buf, nodes.Keys);
      var found := FindName(buf, name);
      if found.Some? {
        var (prev, off) := found.value;
        ScannedHere(buf, prev, off);
        RemovedInPlace(g, a, nodes, dirIno, x, prev, off);
        LeafStep(g, a, nodes, dirIno, x, Remove(buf, prev, off));
        var _ :- core.WriteBlock(block.value, Remove(buf, prev, off));
        InvValid(g, core.disk, nodes);
        RecordKept(g, a, core.disk, nodes, dirIno);
        return Ok((RecIno(buf, off), buf[off + 7]));
      }
    }
    return Err(NotFound);
  }
}
