/** The device-backed volume: block I/O, group descriptors, and allocation and freeing of blocks and
    inodes.  Every whole-block write is one step; `history` records the image after each. */
module Volume {
  import opened Bytes
  import opened Geometry
  import opened Inode
  import opened Image
  import opened Consistency
  import opened Counters

  datatype Ext2Error = Io | NoSpace | TooLarge | NotFound | TooDeep

  datatype Result<+T> = Ok(value: T) | Err(error: Ext2Error) {
    predicate IsFailure() { Err? }

    function PropagateFailure<U>(): Result<U> {
      match this
      case Err(e) => Err(e)
      case Ok(_) => Err(Io)
    }

    function Extract(): T
      requires Ok?
    {
      value
    }
  }

  datatype BlockGroupDesc = BlockGroupDesc(
    blockBitmap: nat, inodeBitmap: nat, inodeTable: nat, freeBlocks: nat, freeInodes: nat)

  // Bitmap scans

  /** The first clear bit among the first `valid`. */
  method FindFirstFreeBit(bits: seq<byte>, valid: nat) returns (r: Option<nat>)
    requires valid <= 8 * |bits|
    ensures r.Some? ==> r.value < valid && !BitAt(bits, r.value) && forall n: nat :: n < r.value ==> BitAt(bits, n)
    ensures r.None? <==> forall n: nat :: n < valid ==> BitAt(bits, n)
  {
    for bit := 0 to valid
      invariant forall n: nat :: n < bit ==> BitAt(bits, n)
    {
      if !ByteBit(bits[bit / 8], bit % 8) {
        return Some(bit);
      }
    }
    return None;
  }

  method CountFreeBits(bits: seq<byte>, valid: nat) returns (free: nat)
    requires valid <= 8 * |bits| && valid < 0x1_0000
    ensures free == CountClear(bits, valid)
  {
    free := 0;
    for bit := 0 to valid
      invariant free == CountClear(bits, bit)
    {
      if !ByteBit(bits[bit / 8], bit % 8) {
        free := free + 1;
      }
    }
  }

  // What the allocation steps do to an image

  /** Only free counters changed: descriptors' counts and the superblock. */
  ghost predicate OnlyCounts(g: Geo, a: Img, h: Img) {
    && Layout(g, a) && Layout(g, h)
    && forall b :: 0 <= b < |a| && !g.roles[b].GroupTable? && !g.roles[b].Super? ==> h[b] == a[b]
  }

  lemma OnlyCountsEffect(g: Geo, a: Img, h: Img)
    requires OnlyCounts(g, a, h)
    ensures SameMarks(g, a, h) && SameRecords(g, a, h, {})
    ensures forall b: nat :: g.IsData(b) ==> BlockOf(h, b) == BlockOf(a, b)
    ensures forall k :: 0 <= k < g.sb.numGroups ==>
              ClearBlocks(g, h, k) == ClearBlocks(g, a, k) && ClearInodes(g, h, k) == ClearInodes(g, a, k)
  {
    forall k | 0 <= k < g.sb.numGroups
      ensures BlockBitmap(g, h, k) == BlockBitmap(g, a, k) && InodeBitmap(g, h, k) == InodeBitmap(g, a, k)
    {
      assert g.HasRole(g.blockBits[k], BlockBits(k)) && g.HasRole(g.inodeBits[k], InodeBits(k));
    }
    OnlyCountsMarks(g, a, h);
    forall i: nat | g.sb.HasInode(i) ensures Rec(g, h, i) == Rec(g, a, i) { g.InodeBlockRole(i); }
  }

  lemma OnlyCountsMarks(g: Geo, a: Img, h: Img)
    requires Layout(g, a) && Layout(g, h)
    requires forall k :: 0 <= k < g.sb.numGroups ==>
               BlockBitmap(g, h, k) == BlockBitmap(g, a, k) && InodeBitmap(g, h, k) == InodeBitmap(g, a, k)
    ensures SameMarks(g, a, h)
  {
    forall b: nat | g.sb.HasBit(b) ensures BlockUsed(g, h, b) == BlockUsed(g, a, b) { g.sb.BlockHasPlace(b); }
    forall i: nat | g.sb.HasInode(i) ensures InodeUsed(g, h, i) == InodeUsed(g, a, i) { g.sb.InodeHasPlace(i); }
  }

  /** A 16-bit count moved by delta, as the driver does it: untouched when delta is zero. */
  function Bump(buf: seq<byte>, off: nat, delta: int): (r: seq<byte>)
    requires off + 2 <= |buf|
    ensures |r| == |buf|
  {
    if delta == 0 then buf else SetField(buf, off, 2, (Field(buf, off, 2) + delta) % 0x1_0000)
  }

  ghost function BumpDesc(g: Geo, a: Img, grp: nat, off: nat, delta: int): (h: Img)
    requires Layout(g, a) && grp < g.sb.numGroups && 12 <= off <= 30
  {
    g.DescRole(grp);
    g.sb.DescFits(grp);
    var at := g.sb.DescBlock(grp);
    a[at := Bump(a[at], g.sb.DescOffset(grp) + off, delta)]
  }

  /** Moving one count of one descriptor moves that count alone. */
  lemma BumpDescEffect(g: Geo, a: Img, grp: nat, off: nat, delta: int)
    requires Layout(g, a) && grp < g.sb.numGroups && (off == 12 || off == 14 || off == 16)
    ensures var h := BumpDesc(g, a, grp, off, delta);
            && OnlyCounts(g, a, h) && h[g.sb.firstDataBlock] == a[g.sb.firstDataBlock]
            && forall k, f :: 0 <= k < g.sb.numGroups && (f == 12 || f == 14 || f == 16) ==>
                 DescField(g, h, k, f, 2) == if k == grp && f == off then (DescField(g, a, k, f, 2) + delta) % 0x1_0000
                                             else DescField(g, a, k, f, 2)
  {
    hide Geo.Valid, Superblock.DescBlock, Superblock.DescOffset, Superblock.DescPerBlock, DescMatches, Un, SetField;
    DescInRange(g, a, grp);
    CountIsSmall(g, a, grp, off);
    var at := g.sb.DescBlock(grp);
    var h := BumpDesc(g, a, grp, off, delta);
    if delta == 0 {
      assert h == a;
    } else {
      var v := (DescField(g, a, grp, off, 2) + delta) % 0x1_0000;
      assert h == a[at := SetField(a[at], g.sb.DescOffset(grp) + off, 2, v)];
      DescCountWritten(g, a, grp, off, v);
    }
  }

  lemma DescInRange(g: Geo, a: Img, grp: nat)
    requires Layout(g, a) && grp < g.sb.numGroups
    ensures var at := g.sb.DescBlock(grp);
            at < |a| && g.sb.DescOffset(grp) + 32 <= g.sb.blockSize == |a[at]|
    ensures g.sb.firstDataBlock < |a|
  {
    g.DescRole(grp);
    g.sb.DescFits(grp);
  }

  lemma CountIsSmall(g: Geo, a: Img, grp: nat, off: nat)
    requires g.Valid() && Sized(g, a) && grp < g.sb.numGroups && off + 2 <= 32
    ensures DescField(g, a, grp, off, 2) < 0x1_0000
  {
    assert Pow256(2) == 0x1_0000;
  }

  /** Writing one 16-bit count of one descriptor. */
  lemma DescCountWritten(g: Geo, a: Img, grp: nat, off: nat, v: nat)
    requires Layout(g, a) && grp < g.sb.numGroups && 12 <= off <= 30 && v < 0x1_0000
    requires g.sb.DescBlock(grp) < |a| && g.sb.DescOffset(grp) + 32 <= g.sb.blockSize
    ensures var at := g.sb.DescBlock(grp);
            var h := a[at := SetField(a[at], g.sb.DescOffset(grp) + off, 2, v)];
            && OnlyCounts(g, a, h) && h[g.sb.firstDataBlock] == a[g.sb.firstDataBlock]
            && DescField(g, h, grp, off, 2) == v
            && forall k, f ::
                 0 <= k < g.sb.numGroups && (f == 12 || f == 14 || f == 16)
                 && (k != grp || f + 2 <= off || off + 2 <= f) ==>
                 DescField(g, h, k, f, 2) == DescField(g, a, k, f, 2)
  {
    var at, base := g.sb.DescBlock(grp), g.sb.DescOffset(grp);
    var h := a[at := SetField(a[at], base + off, 2, v)];
    g.DescRole(grp);
    WriteDescCounts(g, a, grp, Le(v, 2), off);
    assert Pow256(2) == 0x1_0000;
    SetFieldHere(a[at], base + off, 2, v);
    hide Geo.Valid, Superblock.DescOffset, Superblock.DescPerBlock, Un, Le, Pow256;
    forall k, f | 0 <= k < g.sb.numGroups && (f == 12 || f == 14 || f == 16)
                  && (k != grp || f + 2 <= off || off + 2 <= f)
      ensures DescField(g, h, k, f, 2) == DescField(g, a, k, f, 2)
    {
      DescFieldKept(g, a, grp, Le(v, 2), off, k, f, 2);
    }
  }

  ghost predicate DescsMoved(g: Geo, a: Img, h: Img, grp: nat, db: int, di: int) {
    && OnlyCounts(g, a, h)
    && SuperField(g, h, 12) == SuperField(g, a, 12) && SuperField(g, h, 16) == SuperField(g, a, 16)
    && forall k :: 0 <= k < g.sb.numGroups ==>
         && StoredBlocks(g, h, k)
            == (if k == grp then (StoredBlocks(g, a, k) + db) % 0x1_0000 else StoredBlocks(g, a, k))
         && StoredInodes(g, h, k)
            == (if k == grp then (StoredInodes(g, a, k) + di) % 0x1_0000 else StoredInodes(g, a, k))
  }

  lemma BumpThree(g: Geo, a: Img, grp: nat, db: int, di: int, dd: int)
    requires Layout(g, a) && grp < g.sb.numGroups
    ensures var b := BumpDesc(g, a, grp, 12, db);
            && Layout(g, b)
            && var c := BumpDesc(g, b, grp, 14, di);
               && Layout(g, c) && DescsMoved(g, a, BumpDesc(g, c, grp, 16, dd), grp, db, di)
               && Dirs(g, BumpDesc(g, c, grp, 16, dd)) == MoveDirs(Dirs(g, a), grp, dd)
  {
    hide BumpDesc, DescField, DescMatches, Superblock.SuperOffset;
    BumpDescEffect(g, a, grp, 12, db);
    var b := BumpDesc(g, a, grp, 12, db);
    BumpDescEffect(g, b, grp, 14, di);
    var c := BumpDesc(g, b, grp, 14, di);
    BumpDescEffect(g, c, grp, 16, dd);
  }

  /** The three counts moved in the descriptor's own block. */
  lemma BumpBytes(g: Geo, a: Img, grp: nat, db: int, di: int, dd: int)
    requires Layout(g, a) && grp < g.sb.numGroups
    ensures var at, off := g.sb.DescBlock(grp), g.sb.DescOffset(grp);
            && at < |a| == g.sb.blocksCount && off + 32 <= |a[at]| == g.sb.blockSize
            && var h := a[at := Bump(Bump(Bump(a[at], off + 12, db), off + 14, di), off + 16, dd)];
               && Layout(g, h) && DescsMoved(g, a, h, grp, db, di) && Dirs(g, h) == MoveDirs(Dirs(g, a), grp, dd)
  {
    hide Geo.Valid, Bump, DescsMoved, Superblock.DescOffset, Superblock.DescBlock, Superblock.DescPerBlock,
         DescMatches, Dirs, MoveDirs, OnlyCounts;
    DescInRange(g, a, grp);
    BumpThree(g, a, grp, db, di, dd);
    var at, off := g.sb.DescBlock(grp), g.sb.DescOffset(grp);
    var b := BumpDesc(g, a, grp, 12, db);
    assert b == a[at := Bump(a[at], off + 12, db)];
    var c := BumpDesc(g, b, grp, 14, di);
    assert c == a[at := Bump(b[at], off + 14, di)];
    assert BumpDesc(g, c, grp, 16, dd) == a[at := Bump(c[at], off + 16, dd)];
    MovedLayout(g, a, BumpDesc(g, c, grp, 16, dd), grp, db, di);
  }

  lemma MovedLayout(g: Geo, a: Img, h: Img, grp: nat, db: int, di: int)
    requires DescsMoved(g, a, h, grp, db, di)
    ensures Layout(g, h)
  {
  }

  /** A 32-bit superblock count moved by delta. */
  function BumpWide(buf: seq<byte>, off: nat, delta: int): (r: seq<byte>)
    requires off + 4 <= |buf|
    ensures |r| == |buf|
  {
    if delta == 0 then buf else SetField(buf, off, 4, (Field(buf, off, 4) + delta) % 0x1_0000_0000)
  }

  lemma BumpWideEffect(buf: seq<byte>, off: nat, delta: int)
    requires off + 4 <= |buf|
    ensures Field(BumpWide(buf, off, delta), off, 4) == (Field(buf, off, 4) + delta) % 0x1_0000_0000
    ensures forall f: nat :: f + 4 <= |buf| && (f + 4 <= off || off + 4 <= f) ==>
              Field(BumpWide(buf, off, delta), f, 4) == Field(buf, f, 4)
  {
    Widths();
    if delta != 0 {
      var v := (Field(buf, off, 4) + delta) % 0x1_0000_0000;
      SetFieldHere(buf, off, 4, v);
      forall f: nat | f + 4 <= |buf| && (f + 4 <= off || off + 4 <= f)
        ensures Field(BumpWide(buf, off, delta), f, 4) == Field(buf, f, 4)
      {
        PatchElsewhere(buf, off, Le(v, 4), f, 4);
      }
    }
  }

  ghost predicate SuperMoved(g: Geo, a: Img, h: Img, db: int, di: int) {
    && OnlyCounts(g, a, h)
    && SuperField(g, h, 12) == (SuperField(g, a, 12) + db) % 0x1_0000_0000
    && SuperField(g, h, 16) == (SuperField(g, a, 16) + di) % 0x1_0000_0000
    && forall k :: 0 <= k < g.sb.numGroups ==>
         StoredBlocks(g, h, k) == StoredBlocks(g, a, k) && StoredInodes(g, h, k) == StoredInodes(g, a, k)
  }

  lemma BumpSuper(g: Geo, a: Img, db: int, di: int)
    requires Layout(g, a)
    ensures var at, o := g.sb.firstDataBlock, g.sb.SuperOffset();
            && at < |a| && o + 1024 <= |a[at]|
            && SuperMoved(g, a, a[at := BumpWide(BumpWide(a[at], o + 12, db), o + 16, di)], db, di)
  {
    hide Geo.Valid, Superblock.SuperOffset, BumpWide, Field, DescField, DescMatches, OnlyCounts;
    var at, o := g.sb.firstDataBlock, g.sb.SuperOffset();
    SuperInRange(g, a);
    var b := BumpWide(a[at], o + 12, db);
    var c := BumpWide(b, o + 16, di);
    SuperWrite(g, a, c);
    BumpWideEffect(a[at], o + 12, db);
    BumpWideEffect(b, o + 16, di);
  }

  lemma SuperDirs(g: Geo, a: Img, buf: seq<byte>)
    requires Layout(g, a) && |buf| == g.sb.blockSize && Layout(g, a[g.sb.firstDataBlock := buf])
    ensures Dirs(g, a[g.sb.firstDataBlock := buf]) == Dirs(g, a)
  {
    DirsElsewhere(g, a, g.sb.firstDataBlock, buf);
  }

  lemma SuperInRange(g: Geo, a: Img)
    requires Layout(g, a)
    ensures var at := g.sb.firstDataBlock;
            at < |a| && g.sb.SuperOffset() + 1024 <= |a[at]| == g.sb.blockSize
  {
  }

  lemma SuperWrite(g: Geo, a: Img, buf: seq<byte>)
    requires Layout(g, a) && |buf| == g.sb.blockSize
    ensures var h := a[g.sb.firstDataBlock := buf];
            && OnlyCounts(g, a, h)
            && forall k :: 0 <= k < g.sb.numGroups ==>
                 StoredBlocks(g, h, k) == StoredBlocks(g, a, k) && StoredInodes(g, h, k) == StoredInodes(g, a, k)
  {
    var h := a[g.sb.firstDataBlock := buf];
    WriteTouchesOneRole(g, a, g.sb.firstDataBlock, buf);
    forall k | 0 <= k < g.sb.numGroups
      ensures StoredBlocks(g, h, k) == StoredBlocks(g, a, k) && StoredInodes(g, h, k) == StoredInodes(g, a, k)
    {
      g.DescRole(k);
    }
  }

  /** Exactly the blocks in tb and inodes in ti became used, exactly those in fb and fi became free;
      no data block outside tb and no inode record changed. */
  ghost predicate Changed(g: Geo, a: Img, h: Img, tb: set<nat>, fb: set<nat>, ti: set<nat>, fi: set<nat>) {
    && Layout(g, a) && Layout(g, h)
    && (forall x: nat :: Marked(g, h, x) == (x in tb || (Marked(g, a, x) && x !in fb)))
    && (forall i: nat :: InodeMarked(g, h, i) == (i in ti || (InodeMarked(g, a, i) && i !in fi)))
    && (forall x: nat :: g.IsData(x) && x !in tb ==> BlockOf(h, x) == BlockOf(a, x))
    && SameRecords(g, a, h, {})
  }

  lemma ChangedKeeps(g: Geo, a: Img, h: Img, tb: set<nat>, fb: set<nat>, ti: set<nat>, fi: set<nat>)
    requires Changed(g, a, h, tb, fb, ti, fi)
    requires (forall x :: x in tb ==> !Marked(g, a, x)) && (forall x :: x in fb ==> g.IsData(x))
    ensures Keeps(g, a, h, fb, fi)
  {
    hide Marked, InodeMarked, SameRecords, Geo.Valid, Sized, DescMatches;
  }

  lemma CountsKeepChanged(g: Geo, a: Img, b: Img, c: Img, tb: set<nat>, fb: set<nat>, ti: set<nat>, fi: set<nat>)
    requires Changed(g, a, b, tb, fb, ti, fi) && OnlyCounts(g, b, c)
    ensures Changed(g, a, c, tb, fb, ti, fi)
  {
    hide Marked, InodeMarked, Geo.Valid, Sized, DescMatches, OnlyCounts, Rec, BlockOf;
    OnlyCountsEffect(g, b, c);
  }

  /** Flipping the bit of block b. */
  lemma BlockBitChanged(g: Geo, a: Img, b: nat, on: bool)
    requires Layout(g, a) && g.sb.HasBit(b)
    ensures g.sb.GroupOf(b) < g.sb.numGroups && g.sb.BitOf(b) / 8 < g.sb.blockSize
    ensures g.blockBits[g.sb.GroupOf(b)] < |a| == g.sb.blocksCount
    ensures var grp := g.sb.GroupOf(b);
            var bits := BlockBitmap(g, a, grp);
            var buf := if on then SetBit(bits, g.sb.BitOf(b)) else ClearBit(bits, g.sb.BitOf(b));
            var h := a[g.blockBits[grp] := buf];
            && Changed(g, a, h, if on then {b} else {}, if on then {} else {b}, {}, {})
            && BitsMoved(g, a, h, grp, ClearDelta(Marked(g, a, b), on), 0)
  {
    g.sb.BlockHasPlace(b);
    var grp := g.sb.GroupOf(b);
    var bits := BlockBitmap(g, a, grp);
    var buf := if on then SetBit(bits, g.sb.BitOf(b)) else ClearBit(bits, g.sb.BitOf(b));
    assert g.HasRole(g.blockBits[grp], BlockBits(grp));
    BlockBitmapWrite(g, a, b, buf, on);
    BlockBitmapCounts(g, a, b, buf, on);
  }

  lemma BlockBitmapWrite(g: Geo, a: Img, b: nat, buf: seq<byte>, on: bool)
    requires Layout(g, a) && g.sb.HasBit(b)
    requires g.sb.GroupOf(b) < g.sb.numGroups && g.sb.BitOf(b) / 8 < g.sb.blockSize
    requires var bits := BlockBitmap(g, a, g.sb.GroupOf(b));
             buf == if on then SetBit(bits, g.sb.BitOf(b)) else ClearBit(bits, g.sb.BitOf(b))
    ensures var h := a[g.blockBits[g.sb.GroupOf(b)] := buf];
            Changed(g, a, h, if on then {b} else {}, if on then {} else {b}, {}, {})
  {
    hide SetBit, ClearBit, BlockUsed, InodeUsed, Rec, Superblock.GroupOf, Superblock.BitOf, DescMatches;
    WriteBlockBit(g, a, b, buf, on);
    assert g.HasRole(g.blockBits[g.sb.GroupOf(b)], BlockBits(g.sb.GroupOf(b)));
    WriteTouchesOneRole(g, a, g.blockBits[g.sb.GroupOf(b)], buf);
  }

  /** Group grp has db more clear block bits and di more clear inode bits; no counter changed yet. */
  ghost predicate BitsMoved(g: Geo, a: Img, h: Img, grp: nat, db: int, di: int) {
    && g.Valid() && Sized(g, a) && Sized(g, h) && grp < g.sb.numGroups
    && (forall k :: 0 <= k < g.sb.numGroups ==>
          && ClearBlocks(g, h, k) == ClearBlocks(g, a, k) + (if k == grp then db else 0)
          && ClearInodes(g, h, k) == ClearInodes(g, a, k) + (if k == grp then di else 0)
          && StoredBlocks(g, h, k) == StoredBlocks(g, a, k) && StoredInodes(g, h, k) == StoredInodes(g, a, k))
    && SuperField(g, h, 12) == SuperField(g, a, 12) && SuperField(g, h, 16) == SuperField(g, a, 16)
  }

  lemma BlockBitmapCounts(g: Geo, a: Img, b: nat, buf: seq<byte>, on: bool)
    requires Layout(g, a) && g.sb.HasBit(b)
    requires g.sb.GroupOf(b) < g.sb.numGroups && g.sb.BitOf(b) / 8 < g.sb.blockSize
    requires var bits := BlockBitmap(g, a, g.sb.GroupOf(b));
             buf == if on then SetBit(bits, g.sb.BitOf(b)) else ClearBit(bits, g.sb.BitOf(b))
    ensures var h := a[g.blockBits[g.sb.GroupOf(b)] := buf];
            BitsMoved(g, a, h, g.sb.GroupOf(b), ClearDelta(BlockUsed(g, a, b), on), 0)
  {
    g.sb.BlockHasPlace(b);
    var grp := g.sb.GroupOf(b);
    var h := a[g.blockBits[grp] := buf];
    assert g.HasRole(g.blockBits[grp], BlockBits(grp));
    BitmapElsewhere(g, a, g.blockBits[grp], buf);
    CountAfterChange(BlockBitmap(g, a, grp), buf, g.sb.BitOf(b), g.sb.BlocksInGroup(grp), on);
  }

  /** A bitmap write touches no counter and no other bitmap. */
  lemma BitmapElsewhere(g: Geo, a: Img, at: nat, buf: seq<byte>)
    requires g.Valid() && Sized(g, a) && at < |a| && |buf| == g.sb.blockSize
    requires g.roles[at].BlockBits? || g.roles[at].InodeBits?
    ensures var h := a[at := buf];
            && (forall k :: 0 <= k < g.sb.numGroups ==>
                  && (g.blockBits[k] != at ==> ClearBlocks(g, h, k) == ClearBlocks(g, a, k))
                  && (g.inodeBits[k] != at ==> ClearInodes(g, h, k) == ClearInodes(g, a, k))
                  && StoredBlocks(g, h, k) == StoredBlocks(g, a, k) && StoredInodes(g, h, k) == StoredInodes(g, a, k))
            && SuperField(g, h, 12) == SuperField(g, a, 12) && SuperField(g, h, 16) == SuperField(g, a, 16)
  {
    var h := a[at := buf];
    forall k | 0 <= k < g.sb.numGroups
      ensures StoredBlocks(g, h, k) == StoredBlocks(g, a, k) && StoredInodes(g, h, k) == StoredInodes(g, a, k)
      ensures g.blockBits[k] != at ==> ClearBlocks(g, h, k) == ClearBlocks(g, a, k)
      ensures g.inodeBits[k] != at ==> ClearInodes(g, h, k) == ClearInodes(g, a, k)
    {
      g.DescRole(k);
    }
  }

  lemma InodeBitChanged(g: Geo, a: Img, i: nat, on: bool)
    requires Layout(g, a) && g.sb.HasInode(i)
    ensures g.sb.InodeGroup(i) < g.sb.numGroups && g.sb.InodeBit(i) / 8 < g.sb.blockSize
    ensures g.inodeBits[g.sb.InodeGroup(i)] < |a| == g.sb.blocksCount
    ensures var grp := g.sb.InodeGroup(i);
            var bits := InodeBitmap(g, a, grp);
            var buf := if on then SetBit(bits, g.sb.InodeBit(i)) else ClearBit(bits, g.sb.InodeBit(i));
            var h := a[g.inodeBits[grp] := buf];
            && Changed(g, a, h, {}, {}, if on then {i} else {}, if on then {} else {i})
            && BitsMoved(g, a, h, grp, 0, ClearDelta(InodeMarked(g, a, i), on))
  {
    g.sb.InodeHasPlace(i);
    var grp := g.sb.InodeGroup(i);
    var bits := InodeBitmap(g, a, grp);
    var buf := if on then SetBit(bits, g.sb.InodeBit(i)) else ClearBit(bits, g.sb.InodeBit(i));
    assert g.HasRole(g.inodeBits[grp], InodeBits(grp));
    InodeBitmapWrite(g, a, i, buf, on);
    InodeBitmapCounts(g, a, i, buf, on);
  }

  lemma InodeBitmapWrite(g: Geo, a: Img, i: nat, buf: seq<byte>, on: bool)
    requires Layout(g, a) && g.sb.HasInode(i)
    requires g.sb.InodeGroup(i) < g.sb.numGroups && g.sb.InodeBit(i) / 8 < g.sb.blockSize
    requires var bits := InodeBitmap(g, a, g.sb.InodeGroup(i));
             buf == if on then SetBit(bits, g.sb.InodeBit(i)) else ClearBit(bits, g.sb.InodeBit(i))
    ensures var h := a[g.inodeBits[g.sb.InodeGroup(i)] := buf];
            Changed(g, a, h, {}, {}, if on then {i} else {}, if on then {} else {i})
  {
    hide SetBit, ClearBit, BlockUsed, InodeUsed, Rec, Superblock.InodeGroup, Superblock.InodeBit, DescMatches;
    WriteInodeBit(g, a, i, buf, on);
    assert g.HasRole(g.inodeBits[g.sb.InodeGroup(i)], InodeBits(g.sb.InodeGroup(i)));
    WriteTouchesOneRole(g, a, g.inodeBits[g.sb.InodeGroup(i)], buf);
  }

  lemma InodeBitmapCounts(g: Geo, a: Img, i: nat, buf: seq<byte>, on: bool)
    requires Layout(g, a) && g.sb.HasInode(i)
    requires g.sb.InodeGroup(i) < g.sb.numGroups && g.sb.InodeBit(i) / 8 < g.sb.blockSize
    requires var bits := InodeBitmap(g, a, g.sb.InodeGroup(i));
             buf == if on then SetBit(bits, g.sb.InodeBit(i)) else ClearBit(bits, g.sb.InodeBit(i))
    ensures var h := a[g.inodeBits[g.sb.InodeGroup(i)] := buf];
            BitsMoved(g, a, h, g.sb.InodeGroup(i), 0, ClearDelta(InodeUsed(g, a, i), on))
  {
    g.sb.InodeHasPlace(i);
    var grp := g.sb.InodeGroup(i);
    var h := a[g.inodeBits[grp] := buf];
    assert g.HasRole(g.inodeBits[grp], InodeBits(grp));
    BitmapElsewhere(g, a, g.inodeBits[grp], buf);
    CountAfterChange(InodeBitmap(g, a, grp), buf, g.sb.InodeBit(i), g.sb.InodesInGroup(grp), on);
  }

  /** Bits first, then the descriptor's counts, then the superblock's: together one exact adjustment. */
  lemma BooksBalance(g: Geo, a: Img, b: Img, c: Img, d: Img, grp: nat, cb: int, ci: int, db: int, di: int)
    requires BitsMoved(g, a, b, grp, cb, ci) && DescsMoved(g, b, c, grp, db, di) && SuperMoved(g, c, d, db, di)
    ensures Adjusted(g, a, d, grp, cb, ci, db, di)
  {
    hide Geo.Valid, DescMatches, ClearBlocks, ClearInodes, StoredBlocks, StoredInodes, SuperField, OnlyCounts;
    BooksCounts(g, b, c);
    BooksCounts(g, c, d);
  }

  lemma BooksCounts(g: Geo, a: Img, h: Img)
    requires OnlyCounts(g, a, h)
    ensures Layout(g, a) && Layout(g, h)
    ensures forall k :: 0 <= k < g.sb.numGroups ==>
              ClearBlocks(g, h, k) == ClearBlocks(g, a, k) && ClearInodes(g, h, k) == ClearInodes(g, a, k)
  {
    OnlyCountsEffect(g, a, h);
  }

  lemma CountersAfter(g: Geo, a: Img, b: Img, c: Img, grp: nat, db: int, di: int)
    requires Adjusted(g, a, b, grp, db, di, db, di) && SameCounters(g, b, c)
    ensures CountersOk(g, a) ==> CountersOk(g, c)
  {
    hide CountersOk;
    SameCountersKeep(g, b, c);
    if CountersOk(g, a) { AdjustedKeepsCounters(g, a, b, grp, db, di); }
  }

  /** Zeroing the block just taken. */
  lemma ZeroTaken(g: Geo, a: Img, b: Img, x: nat)
    requires Changed(g, a, b, {x}, {}, {}, {}) && g.IsData(x)
    ensures x < |b|
    ensures Changed(g, a, b[x := Zeros(g.sb.blockSize)], {x}, {}, {}, {})
    ensures SameCounters(g, b, b[x := Zeros(g.sb.blockSize)])
    ensures Dirs(g, b[x := Zeros(g.sb.blockSize)]) == Dirs(g, b)
  {
    hide Marked, InodeMarked, DescMatches, Rec;
    DataInRange(g, b, x);
    DataWrite(g, b, x, Zeros(g.sb.blockSize));
    ContentWriteKeepsCounters(g, b, x, Zeros(g.sb.blockSize));
    DirsElsewhere(g, b, x, Zeros(g.sb.blockSize));
  }

  /** Neither bitmap of a group counts directories. */
  lemma BitmapDirs(g: Geo, a: Img, grp: nat, buf: seq<byte>)
    requires Layout(g, a) && grp < g.sb.numGroups
    ensures Layout(g, a[g.blockBits[grp] := buf]) ==> Dirs(g, a[g.blockBits[grp] := buf]) == Dirs(g, a)
    ensures Layout(g, a[g.inodeBits[grp] := buf]) ==> Dirs(g, a[g.inodeBits[grp] := buf]) == Dirs(g, a)
  {
    BitmapInRange(g, a, grp);
    assert g.HasRole(g.blockBits[grp], BlockBits(grp)) && g.HasRole(g.inodeBits[grp], InodeBits(grp));
    if Layout(g, a[g.blockBits[grp] := buf]) { DirsElsewhere(g, a, g.blockBits[grp], buf); }
    if Layout(g, a[g.inodeBits[grp] := buf]) { DirsElsewhere(g, a, g.inodeBits[grp], buf); }
  }

  /** A clear bit of a group is a free data block, since all metadata is marked. */
  lemma FreeBitIsData(g: Geo, a: Img, grp: nat, bit: nat)
    requires Layout(g, a) && MetaMarked(g, a) && grp < g.sb.numGroups && bit < g.sb.BlocksInGroup(grp)
    requires !BitAt(BlockBitmap(g, a, grp), bit)
    ensures var b := g.sb.BlockAt(grp, bit);
            && g.sb.HasBit(b) && g.sb.GroupOf(b) == grp && g.sb.BitOf(b) == bit
            && !Marked(g, a, b) && g.IsData(b)
  {
    g.sb.PlaceHasBlock(grp, bit);
  }

  lemma FreeBitIsInode(g: Geo, a: Img, grp: nat, bit: nat)
    requires Layout(g, a) && grp < g.sb.numGroups && bit < g.sb.InodesInGroup(grp)
    requires !BitAt(InodeBitmap(g, a, grp), bit)
    ensures var i := g.sb.InodeAt(grp, bit);
            && g.sb.HasInode(i) && g.sb.InodeGroup(i) == grp && g.sb.InodeBit(i) == bit
            && !InodeMarked(g, a, i)
  {
    g.sb.PlaceHasInode(grp, bit);
  }

  lemma BooksKeepChanged(g: Geo, a: Img, b: Img, c: Img, d: Img, grp: nat, cb: int, ci: int, db: int, di: int,
                         tb: set<nat>, fb: set<nat>, ti: set<nat>, fi: set<nat>)
    requires Changed(g, a, b, tb, fb, ti, fi) && BitsMoved(g, a, b, grp, cb, ci)
    requires DescsMoved(g, b, c, grp, db, di) && SuperMoved(g, c, d, db, di)
    ensures Changed(g, a, c, tb, fb, ti, fi) && Changed(g, a, d, tb, fb, ti, fi)
    ensures Adjusted(g, a, d, grp, cb, ci, db, di)
  {
    hide Changed, OnlyCounts, BitsMoved, Adjusted, SuperField, StoredBlocks, StoredInodes;
    CountsKeepChanged(g, a, b, c, tb, fb, ti, fi);
    CountsKeepChanged(g, a, c, d, tb, fb, ti, fi);
    BooksBalance(g, a, b, c, d, grp, cb, ci, db, di);
  }

  /** Block b, free before, is now used and zeroed; nothing else in use changed. */
  ghost predicate BlockAllocated(g: Geo, a: Img, h: Img, b: nat) {
    && Changed(g, a, h, {b}, {}, {}, {})
    && g.IsData(b) && !Marked(g, a, b) && BlockOf(h, b) == Zeros(g.sb.blockSize)
  }

  /** Every block of the volume is marked used. */
  ghost predicate NoFreeBlock(g: Geo, img: Img)
    requires g.Valid() && Sized(g, img)
  {
    forall b: nat :: g.sb.HasBit(b) ==> Marked(g, img, b)
  }

  /** With exact counters in a, every block of d is in use. */
  ghost predicate RanOut(g: Geo, a: Img, d: Img) {
    Layout(g, a) && Layout(g, d) && (CountersOk(g, a) ==> NoFreeBlock(g, d))
  }

  lemma RanOutLater(g: Geo, a: Img, b: Img, d: Img)
    requires RanOut(g, b, d) && Layout(g, a) && (CountersOk(g, a) ==> CountersOk(g, b))
    ensures RanOut(g, a, d)
  {
    hide Geo.Valid, DescMatches, CountersOk, NoFreeBlock;
  }

  ghost predicate NoFreeInode(g: Geo, img: Img)
    requires g.Valid() && Sized(g, img)
  {
    forall i: nat :: g.sb.HasInode(i) ==> InodeMarked(g, img, i)
  }

  lemma BitmapInRange(g: Geo, a: Img, grp: nat)
    requires Layout(g, a) && grp < g.sb.numGroups
    ensures |g.blockBits| == |g.inodeBits| == g.sb.numGroups
    ensures g.blockBits[grp] < g.sb.blocksCount && a[g.blockBits[grp]] == BlockBitmap(g, a, grp)
    ensures g.inodeBits[grp] < g.sb.blocksCount && a[g.inodeBits[grp]] == InodeBitmap(g, a, grp)
    ensures g.sb.BlocksInGroup(grp) <= 8 * g.sb.blockSize && g.sb.InodesInGroup(grp) <= 8 * g.sb.blockSize
  {
    assert g.HasRole(g.blockBits[grp], BlockBits(grp)) && g.HasRole(g.inodeBits[grp], InodeBits(grp));
  }

  /** A group without clear bits has all its blocks and inodes marked. */
  lemma FullGroup(g: Geo, a: Img, grp: nat)
    requires Layout(g, a) && grp < g.sb.numGroups
    ensures ClearBlocks(g, a, grp) == 0 ==> forall b: nat :: g.sb.HasBit(b) && g.sb.GroupOf(b) == grp ==>
              Marked(g, a, b)
    ensures ClearInodes(g, a, grp) == 0 ==> forall i: nat :: g.sb.HasInode(i) && g.sb.InodeGroup(i) == grp ==>
              InodeMarked(g, a, i)
  {
    hide DescMatches, CountClear, BitAt, Superblock.GroupOf, Superblock.BitOf, Superblock.InodeGroup,
         Superblock.InodeBit;
    CountZero(BlockBitmap(g, a, grp), g.sb.BlocksInGroup(grp));
    CountZero(InodeBitmap(g, a, grp), g.sb.InodesInGroup(grp));
    forall b: nat | g.sb.HasBit(b) && g.sb.GroupOf(b) == grp ensures g.sb.BitOf(b) < g.sb.BlocksInGroup(grp) {
      g.sb.BlockHasPlace(b);
    }
    forall i: nat | g.sb.HasInode(i) && g.sb.InodeGroup(i) == grp ensures g.sb.InodeBit(i) < g.sb.InodesInGroup(grp) {
      g.sb.InodeHasPlace(i);
    }
  }

  /** Every valid bit of every group set means every block and inode marked. */
  lemma AllGroupsFull(g: Geo, a: Img)
    requires Layout(g, a)
    ensures (forall grp :: 0 <= grp < g.sb.numGroups ==> ClearBlocks(g, a, grp) == 0) ==> NoFreeBlock(g, a)
    ensures (forall grp :: 0 <= grp < g.sb.numGroups ==> ClearInodes(g, a, grp) == 0) ==> NoFreeInode(g, a)
  {
    hide DescMatches, ClearBlocks, ClearInodes, Marked, InodeMarked, Superblock.GroupOf, Superblock.InodeGroup;
    forall b: nat | g.sb.HasBit(b)
      ensures g.sb.GroupOf(b) < g.sb.numGroups && (ClearBlocks(g, a, g.sb.GroupOf(b)) == 0 ==> Marked(g, a, b))
    {
      g.sb.BlockHasPlace(b);
      FullGroup(g, a, g.sb.GroupOf(b));
    }
    forall i: nat | g.sb.HasInode(i)
      ensures g.sb.InodeGroup(i) < g.sb.numGroups
              && (ClearInodes(g, a, g.sb.InodeGroup(i)) == 0 ==> InodeMarked(g, a, i))
    {
      g.sb.InodeHasPlace(i);
      FullGroup(g, a, g.sb.InodeGroup(i));
    }
  }

  /** Free bits before this one would have been found first. */
  lemma LeastBlock(g: Geo, a: Img, grp: nat, bit: nat)
    requires Layout(g, a) && grp < g.sb.numGroups && bit < g.sb.BlocksInGroup(grp)
    requires forall k :: 0 <= k < grp ==> ClearBlocks(g, a, k) == 0
    requires forall n: nat :: n < bit ==> BitAt(BlockBitmap(g, a, grp), n)
    ensures forall x: nat :: g.sb.HasBit(x) && x < g.sb.BlockAt(grp, bit) ==> Marked(g, a, x)
  {
    hide Geo.Valid, DescMatches, ClearBlocks, BitAt, Superblock.GroupOf, Superblock.BitOf, Superblock.BlockAt;
    GroupArithmetic(g);
    forall x: nat | g.sb.HasBit(x) && x < g.sb.BlockAt(grp, bit) ensures Marked(g, a, x) {
      g.sb.EarlierBlock(x, grp, bit);
      FullGroup(g, a, g.sb.GroupOf(x));
    }
  }

  lemma DataDirs(g: Geo, a: Img, b: nat, buf: seq<byte>)
    requires Layout(g, a) && g.IsData(b) && |buf| == g.sb.blockSize
    ensures b < |a| && Dirs(g, a[b := buf]) == Dirs(g, a)
  {
    DataWrite(g, a, b, buf);
    DirsElsewhere(g, a, b, buf);
  }

  lemma TableDirs(g: Geo, a: Img, i: nat, buf: seq<byte>)
    requires Layout(g, a) && g.sb.HasInode(i) && g.InodeBlock(i) < |a| && Layout(g, a[g.InodeBlock(i) := buf])
    ensures Dirs(g, a[g.InodeBlock(i) := buf]) == Dirs(g, a)
  {
    g.InodeBlockRole(i);
    DirsElsewhere(g, a, g.InodeBlock(i), buf);
  }

  lemma LeastInode(g: Geo, a: Img, grp: nat, bit: nat)
    requires Layout(g, a) && grp < g.sb.numGroups && bit < g.sb.InodesInGroup(grp)
    requires forall k :: 0 <= k < grp ==> ClearInodes(g, a, k) == 0
    requires forall n: nat :: n < bit ==> BitAt(InodeBitmap(g, a, grp), n)
    ensures forall i: nat :: g.sb.HasInode(i) && i < g.sb.InodeAt(grp, bit) ==> InodeMarked(g, a, i)
  {
    hide Geo.Valid, DescMatches, ClearInodes, BitAt, Superblock.InodeGroup, Superblock.InodeBit, Superblock.InodeAt;
    GroupArithmetic(g);
    forall i: nat | g.sb.HasInode(i) && i < g.sb.InodeAt(grp, bit) ensures InodeMarked(g, a, i) {
      g.sb.EarlierInode(i, grp, bit);
      FullGroup(g, a, g.sb.InodeGroup(i));
    }
  }

  /** Inode i's record became raw, and nothing else changed. */
  ghost predicate RecordWritten(g: Geo, a: Img, h: Img, i: nat, raw: RawInode) {
    && SameMarks(g, a, h) && SameRecords(g, a, h, {i}) && SameCounters(g, a, h)
    && g.sb.HasInode(i) && Rec(g, h, i) == raw
    && forall x: nat :: g.IsData(x) ==> BlockOf(h, x) == BlockOf(a, x)
  }

  lemma RecordWrite(g: Geo, a: Img, i: nat, raw: RawInode)
    requires Layout(g, a) && g.sb.HasInode(i) && |raw.buf| == g.sb.inodeSize
    ensures g.InodeBlock(i) < |a| && g.sb.TableOffset(i) + g.sb.inodeSize <= g.sb.blockSize == |a[g.InodeBlock(i)]|
    ensures RecordWritten(g, a, a[g.InodeBlock(i) := Patch(a[g.InodeBlock(i)], g.sb.TableOffset(i), raw.buf)], i, raw)
  {
    hide DescMatches, BlockUsed, InodeUsed, Rec, Superblock.TableOffset, Superblock.TableIndex, Superblock.InodeGroup;
    g.InodeBlockRole(i);
    g.sb.TableSlotFits(i);
    var at := g.InodeBlock(i);
    var buf := Patch(a[at], g.sb.TableOffset(i), raw.buf);
    WriteRecord(g, a, i, raw);
    WriteTouchesOneRole(g, a, at, buf);
    ContentWriteKeepsCounters(g, a, at, buf);
  }

  lemma WrittenLayout(g: Geo, a: Img, h: Img, i: nat, raw: RawInode)
    requires RecordWritten(g, a, h, i, raw)
    ensures Layout(g, a) && Layout(g, h)
  {
  }

  lemma GroupArithmetic(g: Geo)
    requires g.Valid()
    ensures g.sb.blocksPerGroup > 0 && g.sb.inodesPerGroup > 0 && 128 <= g.sb.inodeSize <= g.sb.blockSize
  {
  }

  lemma AdjustedCounters(g: Geo, a: Img, h: Img, grp: nat, cb: int, ci: int, db: int, di: int)
    requires Adjusted(g, a, h, grp, cb, ci, db, di) && -1 <= db - cb <= 1 && -1 <= di - ci <= 1
    ensures CountersOk(g, a) ==> (CountersOk(g, h) <==> cb == db && ci == di)
  {
    hide CountersOk;
    if CountersOk(g, a) {
      if cb == db && ci == di {
        AdjustedKeepsCounters(g, a, h, grp, db, di);
      } else {
        MiscountShows(g, a, h, grp, cb, ci, db, di);
      }
    }
  }

  /** Inode i, free before, is now used; nothing else changed. */
  ghost predicate InodeAllocated(g: Geo, a: Img, h: Img, i: nat) {
    Changed(g, a, h, {}, {}, {i}, {}) && g.sb.HasInode(i) && !InodeMarked(g, a, i)
  }

  /** The directory count of inode i's group moved by dd, and no other. */
  ghost predicate DirMoved(g: Geo, a: Img, h: Img, i: nat, dd: int) {
    && g.Valid() && g.sb.HasInode(i) && g.sb.inodesPerGroup > 0
    && Dirs(g, h) == MoveDirs(Dirs(g, a), g.sb.InodeGroup(i), dd)
  }

  lemma NotMoved(g: Geo, a: Img, h: Img, i: nat)
    requires DirMoved(g, a, h, i, 0) && Layout(g, a)
    ensures Dirs(g, h) == Dirs(g, a)
  {
    hide Dirs, MoveDirs, Superblock.InodeGroup;
    g.sb.InodeHasPlace(i);
    DirsStay(g, a);
  }

  lemma MovedBack(g: Geo, a: Img, b: Img, h: Img, i: nat)
    requires DirMoved(g, a, b, i, 1) && DirMoved(g, b, h, i, -1) && Layout(g, a)
    ensures Dirs(g, h) == Dirs(g, a)
  {
    hide Superblock.InodeGroup, MoveDirs, Geo.Valid, DescMatches;
    DirsSmall(g, a);
    UpAndDown(Dirs(g, a), g.sb.InodeGroup(i));
  }

  lemma DirsSmall(g: Geo, a: Img)
    requires Layout(g, a)
    ensures forall k :: 0 <= k < |Dirs(g, a)| ==> Dirs(g, a)[k] < 0x1_0000
  {
    Widths();
  }

  lemma UpAndDown(ds: seq<nat>, k: nat)
    requires forall j :: 0 <= j < |ds| ==> ds[j] < 0x1_0000
    ensures MoveDirs(MoveDirs(ds, k, 1), k, -1) == ds
  {
    if k < |ds| {
      assert MoveDirs(MoveDirs(ds, k, 1), k, -1)[k] == ds[k];
    }
  }

  /** Since history h0, every image kept what a had in use, outside the freed blocks and inodes, and
      every inode record. */
  ghost predicate KeptSince(g: Geo, a: Img, h0: seq<Img>, h1: seq<Img>, freed: set<nat>, freedInodes: set<nat>) {
    && h0 <= h1
    && forall k :: |h0| <= k < |h1| ==> Keeps(g, a, h1[k], freed, freedInodes) && SameRecords(g, a, h1[k], {})
  }

  /** Since history h0, every image is a with exactly these marks changed. */
  ghost predicate ChangedSince(g: Geo, a: Img, h0: seq<Img>, h1: seq<Img>,
                               tb: set<nat>, fb: set<nat>, ti: set<nat>, fi: set<nat>) {
    h0 <= h1 && forall k :: |h0| <= k < |h1| ==> Changed(g, a, h1[k], tb, fb, ti, fi)
  }

  lemma ChangedSinceKept(g: Geo, a: Img, h0: seq<Img>, h1: seq<Img>, tb: set<nat>, fb: set<nat>, ti: set<nat>,
                         fi: set<nat>)
    requires ChangedSince(g, a, h0, h1, tb, fb, ti, fi) && Layout(g, a)
    requires (forall x :: x in tb ==> !Marked(g, a, x)) && (forall x :: x in fb ==> g.IsData(x))
    ensures KeptSince(g, a, h0, h1, fb, fi)
  {
    forall k | |h0| <= k < |h1| ensures Keeps(g, a, h1[k], fb, fi) && SameRecords(g, a, h1[k], {}) {
      hide Keeps, Marked, InodeMarked, SameRecords, Layout;
      ChangedKeeps(g, a, h1[k], tb, fb, ti, fi);
    }
  }

  lemma ChangedLayout(g: Geo, a: Img, h: Img, tb: set<nat>, fb: set<nat>, ti: set<nat>, fi: set<nat>)
    requires Changed(g, a, h, tb, fb, ti, fi)
    ensures Layout(g, a) && Layout(g, h)
  {
  }

  class Ext2Core {
    const sb: Superblock
    ghost const geo: Geo
    var disk: Img
    var history: seq<Img>  // every image the device held, up to the present one; one a block write

    constructor (sb: Superblock, ghost geo: Geo, disk: Img)
      requires geo.sb == sb && Layout(geo, disk)
      ensures this.sb == sb && this.geo == geo && this.disk == disk && history == [disk]
      ensures Ready()
    {
      this.sb, this.geo, this.disk, history := sb, geo, disk, [disk];
    }

    ghost predicate Ready()
      reads this
    {
      geo.sb == sb && Layout(geo, disk) && history != [] && history[|history| - 1] == disk
    }

    // Raw block I/O

    method BlockVec(n: nat) returns (r: Result<seq<byte>>)
      requires Ready()
      ensures r == if n < sb.blocksCount then Ok(disk[n]) else Err(Io)
    {
      if n >= sb.blocksCount {
        return Err(Io);
      }
      return Ok(disk[n]);
    }

    method WriteBlock(n: nat, buf: seq<byte>) returns (r: Result<()>)
      requires Ready() && |buf| == sb.blockSize
      modifies this
      ensures n < sb.blocksCount ==> r == Ok(()) && disk == old(disk)[n := buf] && history == old(history) + [disk]
      ensures n >= sb.blocksCount ==> r == Err(Io) && disk == old(disk) && history == old(history)
    {
      if n >= sb.blocksCount {
        return Err(Io);
      }
      disk := disk[n := buf];
      history := history + [disk];
      return Ok(());
    }

    // Group descriptors and counters

    method ReadBgd(group: nat) returns (r: Result<BlockGroupDesc>)
      requires Ready() && group < sb.numGroups
      ensures r == Ok(BlockGroupDesc(geo.blockBits[group], geo.inodeBits[group], geo.inodeTable[group],
                                     StoredBlocks(geo, disk, group), StoredInodes(geo, disk, group)))
    {
      geo.DescRole(group);
      sb.DescFits(group);
      assert DescMatches(geo, disk, group);
      var off := sb.DescOffset(group);
      var buf :- BlockVec(sb.DescBlock(group));
      r := Ok(BlockGroupDesc(Field(buf, off, 4), Field(buf, off + 4, 4), Field(buf, off + 8, 4),
                             Field(buf, off + 12, 2), Field(buf, off + 14, 2)));
    }
  
    method AdjustBgdCounts(group: nat, db: int, di: int, dd: int) returns (r: Result<()>)
      requires Ready() && group < sb.numGroups
      modifies this
      ensures r.Ok? && Ready() && history == old(history) + [disk]
      ensures DescsMoved(geo, old(disk), disk, group, db, di)
      ensures Dirs(geo, disk) == MoveDirs(Dirs(geo, old(disk)), group, dd)
    {
      hide Geo.Valid, Bump, DescsMoved, Superblock.DescOffset, Superblock.DescBlock, Superblock.DescPerBlock,
           DescMatches, Dirs, MoveDirs;
      BumpBytes(geo, disk, group, db, di, dd);
      var blk, off := sb.DescBlock(group), sb.DescOffset(group);
      var buf :- BlockVec(blk);
      buf := Bump(buf, off + 12, db);
      buf := Bump(buf, off + 14, di);
      buf := Bump(buf, off + 16, dd);
      r := WriteBlock(blk, buf);
    }
  
    method AdjustSbCounts(db: int, di: int) returns (r: Result<()>)
      requires Ready()
      modifies this
      ensures r.Ok? && Ready() && history == old(history) + [disk]
      ensures SuperMoved(geo, old(disk), disk, db, di)
      ensures Dirs(geo, disk) == Dirs(geo, old(disk))
    {
      BumpSuper(geo, disk, db, di);
      var at, off := sb.firstDataBlock, sb.SuperOffset();
      var raw :- BlockVec(at);
      raw := BumpWide(raw, off + 12, db);
      raw := BumpWide(raw, off + 16, di);
      r := WriteBlock(at, raw);
      SuperDirs(geo, old(disk), raw);
    }
  
    // Allocation

    /** The two counter updates that follow every bitmap write. */
    method Book(group: nat, db: int, di: int, dd: int, ghost a: Img, ghost cb: int, ghost ci: int,
                ghost tb: set<nat>, ghost fb: set<nat>, ghost ti: set<nat>, ghost fi: set<nat>)
      returns (r: Result<()>)
      requires Ready() && group < sb.numGroups
      requires Changed(geo, a, disk, tb, fb, ti, fi) && BitsMoved(geo, a, disk, group, cb, ci)
      modifies this
      ensures r.Ok? && Ready() && Changed(geo, a, disk, tb, fb, ti, fi)
      ensures ChangedSince(geo, a, old(history), history, tb, fb, ti, fi)
      ensures Adjusted(geo, a, disk, group, cb, ci, db, di)
      ensures Dirs(geo, disk) == MoveDirs(Dirs(geo, old(disk)), group, dd)
    {
      hide Dirs, MoveDirs, Layout, Changed, DescsMoved, SuperMoved, BitsMoved, Adjusted;
      ghost var b := disk;
      r := AdjustBgdCounts(group, db, di, dd);
      ghost var c := disk;
      r := AdjustSbCounts(db, di);
      BooksKeepChanged(geo, a, b, c, disk, group, cb, ci, db, di, tb, fb, ti, fi);
    }

    /** Claim bit `bit` of a group: bitmap, counters, then the block's content. */
    method TakeBlock(group: nat, bit: nat, at: nat, bmap: seq<byte>) returns (r: Result<nat>)
      requires Ready() && MetaMarked(geo, disk) && group < sb.numGroups && bit < sb.BlocksInGroup(group)
      requires at == geo.blockBits[group] && bmap == BlockBitmap(geo, disk, group) && !BitAt(bmap, bit)
      modifies this
      ensures Ready() && r == Ok(sb.BlockAt(group, bit)) && BlockAllocated(geo, old(disk), disk, sb.BlockAt(group, bit))
      ensures KeptSince(geo, old(disk), old(history), history, {}, {})
      ensures CountersOk(geo, old(disk)) ==> CountersOk(geo, disk)
      ensures Dirs(geo, disk) == Dirs(geo, old(disk))
    {
      hide Dirs, MoveDirs, Geo.Valid, DescMatches, Marked, InodeMarked, MetaMarked, Changed, BitsMoved, Adjusted,
           CountersOk, SameCounters, Zeros, SameRecords, Keeps, Superblock.BlockAt, Superblock.GroupOf,
           Superblock.BitOf, KeptSince;
      ghost var a := disk;
      var b := sb.BlockAt(group, bit);
      FreeBitIsData(geo, disk, group, bit);
      BlockBitChanged(geo, a, b, true);
      var ok := WriteBlock(at, SetBit(bmap, bit));
      ChangedLayout(geo, a, disk, {b}, {}, {}, {});
      BitmapDirs(geo, a, group, SetBit(bmap, bit));
      DirsStay(geo, disk);
      ok := Book(group, -1, 0, 0, a, -1, 0, {b}, {}, {}, {});
      ghost var d3 := disk;
      ZeroTaken(geo, a, d3, b);
      ok := WriteBlock(b, Zeros(sb.blockSize));
      ChangedLayout(geo, a, disk, {b}, {}, {}, {});
      assert ChangedSince(geo, a, old(history), history, {b}, {}, {}, {});
      ChangedSinceKept(geo, a, old(history), history, {b}, {}, {}, {});
      CountersAfter(geo, a, d3, disk, group, -1, 0);
      r := Ok(b);
    }
  
    /** First free block of the first group with one, so the least one; `None` exactly when the volume is full. */
    method AllocBlock() returns (r: Result<Option<nat>>)
      requires Ready() && MetaMarked(geo, disk)
      modifies this
      ensures Ready() && r.Ok?
      ensures r.value.None? ==> disk == old(disk) && history == old(history)
      ensures r.value.None? && CountersOk(geo, old(disk)) ==> NoFreeBlock(geo, old(disk))
      ensures r.value.Some? ==> BlockAllocated(geo, old(disk), disk, r.value.value)
      ensures r.value.Some? && CountersOk(geo, old(disk)) ==>
                forall x: nat :: sb.HasBit(x) && x < r.value.value ==> Marked(geo, old(disk), x)
      ensures KeptSince(geo, old(disk), old(history), history, {}, {})
      ensures CountersOk(geo, old(disk)) ==> CountersOk(geo, disk)
      ensures Dirs(geo, disk) == Dirs(geo, old(disk))
    {
      hide Geo.Valid, DescMatches, MetaMarked, BlockAllocated, NoFreeBlock, BitAt, Superblock.BlocksInGroup, Keeps,
           Marked;
      for group := 0 to sb.numGroups
        invariant disk == old(disk) && history == old(history)
        invariant CountersOk(geo, disk) ==> forall grp :: 0 <= grp < group ==> ClearBlocks(geo, disk, grp) == 0
      {
        var bgd :- ReadBgd(group);
        assert CountersOk(geo, disk) ==> GroupOk(geo, disk, group);
        if bgd.freeBlocks == 0 {
          continue;
        }
        BitmapInRange(geo, disk, group);
        var bmap :- BlockVec(bgd.blockBitmap);
        var bit := FindFirstFreeBit(bmap, sb.BlocksInGroup(group));
        CountZero(bmap, sb.BlocksInGroup(group));
        if bit.Some? {
          if CountersOk(geo, disk) { LeastBlock(geo, disk, group, bit.value); }
          var b :- TakeBlock(group, bit.value, bgd.blockBitmap, bmap);
          return Ok(Some(b));
        }
      }
      AllGroupsFull(geo, disk);
      return Ok(None);
    }
  
    /** Clear the block's bit, then adjust the counters.  A block outside the volume is refused. */
    method FreeBlock(b: nat) returns (r: Result<()>)
      requires Ready()
      modifies this
      ensures Ready()
      ensures !sb.HasBit(b) ==> r == Err(Io) && disk == old(disk) && history == old(history)
      ensures sb.HasBit(b) ==> r.Ok? && Changed(geo, old(disk), disk, {}, {b}, {}, {})
      ensures sb.HasBit(b) ==> ChangedSince(geo, old(disk), old(history), history, {}, {b}, {}, {})
      ensures sb.HasBit(b) && CountersOk(geo, old(disk)) ==> (CountersOk(geo, disk) <==> Marked(geo, old(disk), b))
      ensures Dirs(geo, disk) == Dirs(geo, old(disk))
    {
      hide Dirs, MoveDirs, Geo.Valid, DescMatches, Marked, Changed, BitsMoved, Adjusted, CountersOk, Superblock.GroupOf,
           Superblock.BitOf;
      if b < sb.firstDataBlock || b >= sb.blocksCount {
        return Err(Io);
      }
      ghost var a := disk;
      GroupArithmetic(geo);
      BlockBitChanged(geo, a, b, false);
      var group, bit := sb.GroupOf(b), sb.BitOf(b);
      var bgd :- ReadBgd(group);
      BitmapInRange(geo, disk, group);
      var bmap :- BlockVec(bgd.blockBitmap);
      var _ :- WriteBlock(bgd.blockBitmap, ClearBit(bmap, bit));
      ChangedLayout(geo, a, disk, {}, {b}, {}, {});
      BitmapDirs(geo, a, group, ClearBit(bmap, bit));
      DirsStay(geo, disk);
      r := Book(group, 1, 0, 0, a, ClearDelta(Marked(geo, a, b), false), 0, {}, {b}, {}, {});
      AdjustedCounters(geo, a, disk, group, ClearDelta(Marked(geo, a, b), false), 0, 1, 0);
    }

    method TakeInode(group: nat, bit: nat, at: nat, bmap: seq<byte>, isDir: bool) returns (r: Result<nat>)
      requires Ready() && group < sb.numGroups && bit < sb.InodesInGroup(group)
      requires at == geo.inodeBits[group] && bmap == InodeBitmap(geo, disk, group) && !BitAt(bmap, bit)
      modifies this
      ensures Ready() && r == Ok(sb.InodeAt(group, bit)) && InodeAllocated(geo, old(disk), disk, sb.InodeAt(group, bit))
      ensures KeptSince(geo, old(disk), old(history), history, {}, {})
      ensures CountersOk(geo, old(disk)) ==> CountersOk(geo, disk)
      ensures DirMoved(geo, old(disk), disk, sb.InodeAt(group, bit), if isDir then 1 else 0)
    {
      hide Dirs, MoveDirs, Geo.Valid, DescMatches, InodeMarked, Changed, BitsMoved, Adjusted, CountersOk, SameRecords,
           Keeps, Superblock.InodeAt, Superblock.InodeGroup, Superblock.InodeBit, KeptSince;
      ghost var a := disk;
      var i := sb.InodeAt(group, bit);
      FreeBitIsInode(geo, disk, group, bit);
      InodeBitChanged(geo, a, i, true);
      var _ :- WriteBlock(at, SetBit(bmap, bit));
      ChangedLayout(geo, a, disk, {}, {}, {i}, {});
      BitmapDirs(geo, a, group, SetBit(bmap, bit));
      GroupArithmetic(geo);
      var _ :- Book(group, 0, -1, if isDir then 1 else 0, a, 0, -1, {}, {}, {i}, {});
      AdjustedCounters(geo, a, disk, group, 0, -1, 0, -1);
      assert ChangedSince(geo, a, old(history), history, {}, {}, {i}, {});
      ChangedSinceKept(geo, a, old(history), history, {}, {}, {i}, {});
      r := Ok(i);
    }

    method AllocInode(isDir: bool) returns (r: Result<Option<nat>>)
      requires Ready()
      modifies this
      ensures Ready() && r.Ok?
      ensures r.value.None? ==> disk == old(disk) && history == old(history)
      ensures r.value.None? && CountersOk(geo, old(disk)) ==> NoFreeInode(geo, old(disk))
      ensures r.value.Some? ==> InodeAllocated(geo, old(disk), disk, r.value.value)
      ensures r.value.Some? && CountersOk(geo, old(disk)) ==>
                forall x: nat :: sb.HasInode(x) && x < r.value.value ==> InodeMarked(geo, old(disk), x)
      ensures KeptSince(geo, old(disk), old(history), history, {}, {})
      ensures CountersOk(geo, old(disk)) ==> CountersOk(geo, disk)
      ensures r.value.Some? ==>
                DirMoved(geo, old(disk), disk, r.value.value, if isDir then 1 else 0)
    {
      hide DirMoved, Geo.Valid, DescMatches, InodeAllocated, NoFreeInode, BitAt, Superblock.InodesInGroup, Keeps,
           InodeMarked;
      for group := 0 to sb.numGroups
        invariant disk == old(disk) && history == old(history)
        invariant CountersOk(geo, disk) ==> forall grp :: 0 <= grp < group ==> ClearInodes(geo, disk, grp) == 0
      {
        var bgd :- ReadBgd(group);
        assert CountersOk(geo, disk) ==> GroupOk(geo, disk, group);
        if bgd.freeInodes == 0 {
          continue;
        }
        BitmapInRange(geo, disk, group);
        var bmap :- BlockVec(bgd.inodeBitmap);
        var bit := FindFirstFreeBit(bmap, sb.InodesInGroup(group));
        CountZero(bmap, sb.InodesInGroup(group));
        if bit.Some? {
          if CountersOk(geo, disk) { LeastInode(geo, disk, group, bit.value); }
          var i :- TakeInode(group, bit.value, bgd.inodeBitmap, bmap, isDir);
          return Ok(Some(i));
        }
      }
      AllGroupsFull(geo, disk);
      return Ok(None);
    }

    method FreeInode(i: nat, isDir: bool) returns (r: Result<()>)
      requires Ready()
      modifies this
      ensures Ready()
      ensures !sb.HasInode(i) ==> r == Err(Io) && disk == old(disk) && history == old(history)
      ensures sb.HasInode(i) ==> r.Ok? && Changed(geo, old(disk), disk, {}, {}, {}, {i})
      ensures sb.HasInode(i) ==> ChangedSince(geo, old(disk), old(history), history, {}, {}, {}, {i})
      ensures sb.HasInode(i) && CountersOk(geo, old(disk)) ==>
                (CountersOk(geo, disk) <==> InodeMarked(geo, old(disk), i))
      ensures sb.HasInode(i) ==> DirMoved(geo, old(disk), disk, i, if isDir then -1 else 0)
    {
      hide Dirs, MoveDirs, Geo.Valid, DescMatches, InodeMarked, Changed, BitsMoved, Adjusted, CountersOk,
           Superblock.InodeGroup, Superblock.InodeBit;
      if i < 1 || i > sb.inodesCount {
        return Err(Io);
      }
      ghost var a := disk;
      GroupArithmetic(geo);
      InodeBitChanged(geo, a, i, false);
      var group, bit := sb.InodeGroup(i), sb.InodeBit(i);
      var bgd :- ReadBgd(group);
      BitmapInRange(geo, disk, group);
      var bmap :- BlockVec(bgd.inodeBitmap);
      var _ :- WriteBlock(bgd.inodeBitmap, ClearBit(bmap, bit));
      ChangedLayout(geo, a, disk, {}, {}, {}, {i});
      ghost var ci := ClearDelta(InodeMarked(geo, a, i), false);
      BitmapDirs(geo, a, group, ClearBit(bmap, bit));
      r := Book(group, 0, 1, if isDir then -1 else 0, a, 0, ci, {}, {}, {}, {i});
      AdjustedCounters(geo, a, disk, group, 0, ci, 0, 1);
    }

    // Inode table

    method InodeLocation(i: nat) returns (r: Result<(nat, nat)>)
      requires Ready()
      ensures !sb.HasInode(i) ==> r == Err(Io)
      ensures sb.HasInode(i) ==> r == Ok((geo.InodeBlock(i), sb.TableOffset(i)))
    {
      if i < 1 || i > sb.inodesCount {
        return Err(Io);
      }
      GroupArithmetic(geo);
      sb.InodeHasPlace(i);
      var group := sb.InodeGroup(i);
      if group >= sb.numGroups {
        return Err(Io);
      }
      hide DescMatches, Superblock.InodeGroup;
      var bgd :- ReadBgd(group);
      r := Ok((bgd.inodeTable + sb.TableIndex(i), sb.TableOffset(i)));
    }

    method ReadInode(i: nat) returns (r: Result<RawInode>)
      requires Ready()
      ensures !sb.HasInode(i) ==> r == Err(Io)
      ensures sb.HasInode(i) ==> r == Ok(Rec(geo, disk, i))
    {
      var loc :- InodeLocation(i);
      geo.InodeBlockRole(i);
      sb.TableSlotFits(i);
      hide DescMatches, Superblock.TableOffset, Superblock.TableIndex, Superblock.InodeGroup;
      var buf :- BlockVec(loc.0);
      r := Ok(RawInode(buf[loc.1..loc.1 + sb.inodeSize]));
    }

    method WriteInode(i: nat, raw: RawInode) returns (r: Result<()>)
      requires Ready() && |raw.buf| == sb.inodeSize
      modifies this
      ensures Ready()
      ensures !sb.HasInode(i) ==> r == Err(Io) && disk == old(disk) && history == old(history)
      ensures sb.HasInode(i) ==>
                r.Ok? && history == old(history) + [disk] && RecordWritten(geo, old(disk), disk, i, raw)
      ensures Dirs(geo, disk) == Dirs(geo, old(disk))
    {
      hide Dirs, DescMatches, Superblock.TableOffset, Superblock.TableIndex, Superblock.InodeGroup, Geo.Valid,
           SameMarks, SameRecords, SameCounters;
      var loc :- InodeLocation(i);
      RecordWrite(geo, disk, i, raw);
      var buf :- BlockVec(loc.0);
      r := WriteBlock(loc.0, Patch(buf, loc.1, raw.buf));
      WrittenLayout(geo, old(disk), disk, i, raw);
      TableDirs(geo, old(disk), i, Patch(buf, loc.1, raw.buf));
    }
  }
}
