/** The smallest volume: eight blocks of 1 KiB, with room for eight inodes and an empty root directory.  It is
    sound, and the operations work on it. */
module Smallest {
  import opened Bytes
  import opened Geometry
  import opened Inode
  import opened Image
  import opened Tree
  import opened DirBlock
  import opened Consistency
  import opened Counters
  import opened Volume
  import opened Growth
  import opened Listing
  import opened Directories
  import opened Names
  import opened Session
  import opened Operations
  import opened Orphans
  import opened Recovery

  const SB := Superblock(1024, 8, 8, 8, 8, 1, 128, 1, 3)
  const GEO := Geo(SB, [3], [4], [5],
                   [Boot, Super, GroupTable(0), BlockBits(0), InodeBits(0), InodeTable(0, 0), Data, Data])

  /** Block 6 holds the root's entries, block 7 is free, inodes 3 to 8 are free. */
  function Disk(): Img {
    var empty := Zeros(1024);
    [empty, SuperBytes(empty), DescBytes(empty), empty[0 := 63], empty[0 := 3],
     Patch(empty, 128, DirRecord(128, 6, 1024).buf), DotBlock(1024, 2, 2), empty]
  }

  function SuperBytes(buf: seq<byte>): (r: seq<byte>)
    requires |buf| == 1024
    ensures |r| == 1024
  {
    SetField(SetField(buf, 12, 4, 1), 16, 4, 6)
  }

  function DescBytes(buf: seq<byte>): (r: seq<byte>)
    requires |buf| == 1024
    ensures |r| == 1024
  {
    SetField(SetField(SetField(SetField(SetField(buf, 0, 4, 3), 4, 4, 4), 8, 4, 5), 12, 2, 1), 14, 2, 6)
  }

  lemma SbValid()
    ensures SB.Valid() && SB.DescBlocks() == 1 && SB.TableBlocks() == 1
  {
  }

  lemma DiskSized()
    ensures |Disk()| == 8 && forall b :: 0 <= b < 8 ==> |Disk()[b]| == 1024
  {
    hide Zeros, DotBlock, SuperBytes, DescBytes, DirRecord, Patch;
  }

  lemma GeoValid()
    ensures GEO.Valid() && SB.DescBlocks() == 1 && SB.TableBlocks() == 1
    ensures Sized(GEO, Disk())
  {
    hide Disk, Superblock.Valid, Superblock.DescBlocks, Superblock.TableBlocks;
    SbValid();
    DiskSized();
  }

  lemma DescFields(buf: seq<byte>)
    requires |buf| == 1024
    ensures var r := DescBytes(buf); Field(r, 0, 4) == 3 && Field(r, 4, 4) == 4 && Field(r, 8, 4) == 5
    ensures var r := DescBytes(buf); Field(r, 12, 2) == 1 && Field(r, 14, 2) == 6
  {
    hide Un, Le, Field, Patch;
    Widths();
    var b0 := SetField(buf, 0, 4, 3);
    var b1 := SetField(b0, 4, 4, 4);
    var b2 := SetField(b1, 8, 4, 5);
    var b3 := SetField(b2, 12, 2, 1);
    SetFieldHere(buf, 0, 4, 3);
    SetFieldHere(b0, 4, 4, 4);
    SetFieldHere(b1, 8, 4, 5);
    SetFieldHere(b2, 12, 2, 1);
    SetFieldHere(b3, 14, 2, 6);
    PatchElsewhere(b0, 4, Le(4, 4), 0, 4);
    PatchElsewhere(b1, 8, Le(5, 4), 0, 4);
    PatchElsewhere(b1, 8, Le(5, 4), 4, 4);
    PatchElsewhere(b2, 12, Le(1, 2), 0, 4);
    PatchElsewhere(b2, 12, Le(1, 2), 4, 4);
    PatchElsewhere(b2, 12, Le(1, 2), 8, 4);
    PatchElsewhere(b3, 14, Le(6, 2), 0, 4);
    PatchElsewhere(b3, 14, Le(6, 2), 4, 4);
    PatchElsewhere(b3, 14, Le(6, 2), 8, 4);
    PatchElsewhere(b3, 14, Le(6, 2), 12, 2);
  }

  lemma SuperFields(buf: seq<byte>)
    requires |buf| == 1024
    ensures Field(SuperBytes(buf), 12, 4) == 1 && Field(SuperBytes(buf), 16, 4) == 6
  {
    hide Un, Le, Field, Patch;
    Widths();
    var b0 := SetField(buf, 12, 4, 1);
    SetFieldHere(buf, 12, 4, 1);
    SetFieldHere(b0, 16, 4, 6);
    PatchElsewhere(b0, 16, Le(6, 4), 12, 4);
  }

  lemma LaidOut()
    ensures GEO.Valid() && Layout(GEO, Disk())
    ensures StoredBlocks(GEO, Disk(), 0) == 1 && StoredInodes(GEO, Disk(), 0) == 6
    ensures SuperField(GEO, Disk(), 12) == 1 && SuperField(GEO, Disk(), 16) == 6
  {
    hide Zeros, DotBlock, SuperBytes, DescBytes, DirRecord, Field;
    GeoValid();
    DescFields(Zeros(1024));
    SuperFields(Zeros(1024));
  }

  lemma Bits(buf: seq<byte>)
    requires |buf| == 1024
    ensures buf[0] == 63 ==> forall n: nat :: n < 8 ==> (BitAt(buf, n) <==> n < 6)
    ensures buf[0] == 3 ==> forall n: nat :: n < 8 ==> (BitAt(buf, n) <==> n < 2)
  {
    hide ByteBit;
    forall n: nat | n < 8 ensures (ByteBit(63, n) <==> n < 6) && (ByteBit(3, n) <==> n < 2) { BitsOf(n); }
  }

  lemma BitsOf(n: nat)
    requires n < 8
    ensures (ByteBit(63, n) <==> n < 6) && (ByteBit(3, n) <==> n < 2)
  {
    assert ByteBit(63, 0) && ByteBit(63, 1) && ByteBit(3, 0) && ByteBit(3, 1);
    assert ByteBit(31, 1) && ByteBit(15, 1) && ByteBit(7, 1) && ByteBit(3, 1) && ByteBit(1, 0);
    assert !ByteBit(0, 0) && !ByteBit(0, 1) && !ByteBit(0, 2) && !ByteBit(0, 3) && !ByteBit(0, 4) && !ByteBit(0, 5);
    assert ByteBit(63, 2) == ByteBit(31, 1) && ByteBit(31, 1) == ByteBit(15, 0);
    if n >= 1 { assert ByteBit(63, n) == ByteBit(31, n - 1) && ByteBit(3, n) == ByteBit(1, n - 1); }
    if n >= 2 {
      assert ByteBit(31, n - 1) == ByteBit(15, n - 2) && ByteBit(1, n - 1) == ByteBit(0, n - 2);
      ZeroByte(n - 2);
    }
    if n >= 3 { assert ByteBit(15, n - 2) == ByteBit(7, n - 3); }
    if n >= 4 { assert ByteBit(7, n - 3) == ByteBit(3, n - 4); }
    if n >= 5 { assert ByteBit(3, n - 4) == ByteBit(1, n - 5); }
    if n >= 6 { assert ByteBit(1, n - 5) == ByteBit(0, n - 6); ZeroByte(n - 6); }
  }

  lemma Marks()
    ensures GEO.Valid() && Sized(GEO, Disk())
    ensures forall b: nat :: Marked(GEO, Disk(), b) <==> 1 <= b < 7
    ensures forall i: nat :: InodeMarked(GEO, Disk(), i) <==> 1 <= i < 3
  {
    hide Zeros, DotBlock, SuperBytes, DescBytes, DirRecord, BitAt;
    GeoValid();
    Bits(Disk()[3]);
    Bits(Disk()[4]);
  }

  lemma {:induction false} CountTo(buf: seq<byte>, used: nat, n: nat)
    requires used <= n <= 8 && forall m: nat :: m < 8 ==> (BitAt(buf, m) <==> m < used)
    ensures CountClear(buf, n) == n - used
    decreases n
  {
    hide BitAt;
    if n > used {
      CountTo(buf, used, n - 1);
    } else {
      CountZero(buf, n);
    }
  }

  lemma CountsExact()
    ensures GEO.Valid() && Sized(GEO, Disk()) && CountersOk(GEO, Disk())
  {
    hide Zeros, DotBlock, SuperBytes, DescBytes, DirRecord, BitAt, Field, CountClear;
    LaidOut();
    Bits(Disk()[3]);
    Bits(Disk()[4]);
    CountTo(Disk()[3], 6, 7);
    CountTo(Disk()[4], 2, 8);
    assert ClearBlocks(GEO, Disk(), 0) == 1 && ClearInodes(GEO, Disk(), 0) == 6;
    assert TotalBlocks(GEO, Disk(), 0) == 0 && TotalInodes(GEO, Disk(), 0) == 0;
  }

  lemma RootRecord()
    ensures GEO.Valid() && Sized(GEO, Disk()) && Rec(GEO, Disk(), 2) == DirRecord(128, 6, 1024)
    ensures Rec(GEO, Disk(), 2).IsDir() && DiskNode(GEO, Disk(), 2) == Node(NoSlots()[0 := 6], 1)
  {
    hide Zeros, DotBlock, SuperBytes, DescBytes, DirRecord, NodeOf, RawInode.Mode;
    GeoValid();
    var r := DirRecord(128, 6, 1024);
    assert Disk()[5][128..256] == r.buf;
    DirRecordNode(GEO, 6);
  }

  lemma RootTree(q: Path)
    requires ValidPath(256, q)
    ensures At(Disk(), NoSlots()[0 := 6], q) == if q == Slot(0) then 6 else 0
  {
    hide Disk;
    OneBlockTree(256, Disk(), 6, q);
  }

  lemma RootBlock()
    ensures Tiled(Disk()[6], 0, 1024) && Scan(Disk()[6], 0) == [] && |Disk()[6]| == 1024
  {
    hide Zeros, SuperBytes, DescBytes, DirRecord, Tiled, Scan, DotBlock;
    DotBlockListsNothing(1024, 2, 2);
  }

  lemma Consistent()
    ensures DiskInv(GEO, Disk(), {2}) && Shows(GEO, Disk(), 2) == [] && OneName(TablesOf(GEO, Disk(), {2}))
  {
    hide Disk, Geo.Valid, DescMatches, Rec, NodeOf, RawInode.Mode, Tiled, Scan, Marked, InodeMarked, MetaMarked,
         InodesMarked, Owned, Apart, DirsClosed, Leaf, OneName, Sized;
    LaidOut();
    RootShape();
    RootRecord();
    RootBlock();
    var d, node := Disk(), Node(NoSlots()[0 := 6], 1);
    assert DiskNodes(GEO, d, {2}) == map[2 := node];
    forall q | ValidPath(256, q) ensures At(d, NoSlots()[0 := 6], q) == if q == Slot(0) then 6 else 0 { RootTree(q); }
    FirstLeaf(d);
    RootLists(d);
    Parts(d, node);
    NoEntries(d);
  }

  lemma Parts(d: Img, node: Node)
    requires d == Disk() && node == Node(NoSlots()[0 := 6], 1) && Layout(GEO, d) && Ptrs(GEO) == 256
    requires forall q :: ValidPath(256, q) ==> At(d, NoSlots()[0 := 6], q) == if q == Slot(0) then 6 else 0
    requires Leaf(d, NoSlots()[0 := 6], 256, 0) == 6 && Tiled(d[6], 0, 1024) && Scan(d[6], 0) == [] && |d[6]| == 1024
    ensures Inv(GEO, d, map[2 := node])
  {
    hide Disk, Geo.Valid, DescMatches, At, Tiled, Scan, BlockUsed, InodeUsed, Leaf, Sized, Marked, InodeMarked;
    Marks();
    RootShape();
  }

  lemma NoEntries(d: Img)
    requires Layout(GEO, d) && GEO.sb.HasInode(2) && Shows(GEO, d, 2) == []
    ensures OneName(TablesOf(GEO, d, {2}))
  {
    hide Geo.Valid, DescMatches, Shows;
    ShowsTable(GEO, d, {2}, 2);
  }

  /** What the volume's shape gives, block by block. */
  lemma RootShape()
    ensures GEO.Valid() && GEO.IsData(6) && |Disk()| == 8 && GEO.sb == SB && Ptrs(GEO) == 256
    ensures forall b: nat :: GEO.sb.HasBit(b) && !GEO.IsData(b) ==> 1 <= b < 7
    ensures forall i: nat :: GEO.sb.HasInode(i) <==> 1 <= i <= 8
  {
    hide Disk, Geo.Valid, Sized;
    GeoValid();
    DiskSized();
  }

  lemma FirstLeaf(d: Img)
    requires forall q :: ValidPath(256, q) ==> At(d, NoSlots()[0 := 6], q) == if q == Slot(0) then 6 else 0
    ensures Leaf(d, NoSlots()[0 := 6], 256, 0) == 6
  {
    hide At;
    LeafCases(256, 0);
    assert ValidPath(256, Slot(0));
  }

  lemma RootLists(d: Img)
    requires GEO.Valid() && Leaf(d, NoSlots()[0 := 6], 256, 0) == 6 && |d| == 8 && Scan(d[6], 0) == []
    ensures DirListing(GEO, d, Node(NoSlots()[0 := 6], 1)) == []
  {
    hide Scan, Leaf, Geo.Valid;
    assert Entries(d, NoSlots()[0 := 6], 256, 1, 1) == [];
  }

  lemma Tight()
    ensures GEO.Valid() && TightRoles(GEO)
  {
    hide Disk, Geo.Valid, Sized;
    GeoValid();
    RootShape();
    forall b: nat | GEO.sb.HasBit(b) && !GEO.IsData(b) ensures Reserved(GEO, b) {
      if b >= 3 { assert GroupOwn(GEO, 0, b); }
    }
  }

  /** The record of ".." leaves 1000 bytes. */
  lemma DotRoom(needed: nat)
    requires needed <= 1000
    ensures var r := DotBlock(1024, 2, 2); Tiled(r, 0, 1024) && !NoRoom(r, 0, 1024, needed)
  {
    hide DotBlock, Patch, DirentBytes, Scan, DirentLen, RecLen, RecIno, RecordFits;
    DotBlockListsNothing(1024, 2, 2);
    var r := DotBlock(1024, 2, 2);
    DotRecords();
    assert Tiled(r, 12, 1024) && Slack(r, 12) >= needed;
  }

  lemma DotRecords()
    ensures var r := DotBlock(1024, 2, 2);
            RecLen(r, 0) == 12 && RecLen(r, 12) == 1012 && RecIno(r, 12) == 2 && UsedLen(r, 12) == 12
  {
    hide DotBlock, Patch, DirentBytes, RecLen, RecIno, RecordAt, Un, Field;
    DotFirst(1024, 2, 2);
    DotLengths();
    var dot := Patch(Zeros(1024), 0, DirentBytes(2, 12, DOT, 2));
    WrittenRecord(Zeros(1024), 0, 2, 12, DOT, 2);
    WrittenRecord(dot, 12, 2, 1012, DOT_DOT, 2);
    AgreeRecLen(dot, DotBlock(1024, 2, 2));
  }

  lemma AgreeRecLen(a: seq<byte>, b: seq<byte>)
    requires |a| == |b| == 1024 && Agree(a, b, 0, 12)
    ensures RecLen(b, 0) == RecLen(a, 0)
  {
    assert b[4..6] == a[4..6];
  }

  lemma RootHasRoom(needed: nat)
    requires needed <= 1000
    ensures GEO.Valid() && HasRoom(GEO, Disk(), Node(NoSlots()[0 := 6], 1), needed)
  {
    hide Geo.Valid, Tiled, NoRoom, DotBlock, Leaf, Zeros, SuperBytes, DescBytes, DirRecord, Patch, At;
    RootShape();
    forall q | ValidPath(256, q) ensures At(Disk(), NoSlots()[0 := 6], q) == if q == Slot(0) then 6 else 0 {
      RootTree(q);
    }
    FirstLeaf(Disk());
    DotRoom(needed);
    assert RoomIn(GEO, Disk(), Node(NoSlots()[0 := 6], 1), 0, needed);
  }

  /** The volume, mounted. */
  method Format() returns (core: Ext2Core)
    ensures fresh(core) && core.sb == SB && core.geo == GEO && core.disk == Disk()
    ensures Sound(core, {ROOT_INO}) && TightRoles(core.geo)
  {
    hide Disk, Geo.Valid, DescMatches, DiskInv, OneName, TablesOf, CountersOk, TightRoles;
    LaidOut();
    core := new Ext2Core(SB, GEO, Disk());
    Consistent();
    CountsExact();
    Tight();
  }

  /** A file of any name that can be stored is made on it, and found again unless the name is empty, "." or "..". */
  method FirstFile(name: seq<byte>) returns (core: Ext2Core, r: Outcome<nat>)
    requires |name| <= 255
    ensures fresh(core) && r.Done? && Sound(core, {ROOT_INO, r.value}) && core.sb.HasInode(ROOT_INO)
    ensures !Rec(core.geo, core.disk, r.value).IsDir()
    ensures name != [] && name != [46] && name != [46, 46] ==>
              Leads(FirstOf(Shows(core.geo, core.disk, ROOT_INO), name), r.value)
  {
    hide Disk, Geo.Valid, DescMatches, DiskInv, OneName, TablesOf, CountersOk, TightRoles, Rec, NodeOf, RawInode.Mode,
         HasRoom, Same, CrashSince, Shows, Sized, NewRecord, FreshRecord, ParentAfter, RawInode.LinksCount, Dirs,
         Linked, NamesUnique, Clash;
    core := Format();
    RootRecord();
    RootShape();
    Consistent();
    RootHasRoom(DirentLen(|name|));
    var raw := core.ReadInode(ROOT_INO);
    ghost var s';
    r, s' := Create(core, ROOT_INO, raw.value, name, {ROOT_INO});
    FreeInodes();
    assert {ROOT_INO} + {r.value} == {ROOT_INO, r.value};
  }

  lemma FreeInodes()
    ensures GEO.Valid() && Sized(GEO, Disk()) && !NoFreeInode(GEO, Disk())
  {
    hide Disk, Geo.Valid, InodeMarked, Sized;
    GeoValid();
    Marks();
    RootShape();
    assert !InodeMarked(GEO, Disk(), 3);
  }
}
