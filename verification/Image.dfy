/** A volume image is an array of blocks.  This module says how the bitmaps, descriptors and inode
    records are read out of an image, and which of them one block write can change. */
module Image {
  import opened Bytes
  import opened Geometry
  import opened Inode

  ghost predicate Sized(g: Geo, img: Img) {
    |img| == g.sb.blocksCount && forall b :: 0 <= b < |img| ==> |img[b]| == g.sb.blockSize
  }

  /** Field of a group descriptor: bitmap and table pointers at 0, 4, 8, free counts at 12 and 14. */
  function DescField(g: Geo, img: Img, grp: nat, off: nat, w: nat): nat
    requires g.Valid() && Sized(g, img) && grp < g.sb.numGroups && off + w <= 32
  {
    g.sb.DescFits(grp);
    g.DescRole(grp);
    Field(img[g.sb.DescBlock(grp)], g.sb.DescOffset(grp) + off, w)
  }

  /** The descriptors on the image name the geometry's own bitmap and table blocks. */
  ghost predicate Layout(g: Geo, img: Img) {
    && g.Valid()
    && Sized(g, img)
    && forall grp :: 0 <= grp < g.sb.numGroups ==> DescMatches(g, img, grp)
  }

  ghost predicate DescMatches(g: Geo, img: Img, grp: nat)
    requires g.Valid() && Sized(g, img) && grp < g.sb.numGroups
  {
    && DescField(g, img, grp, 0, 4) == g.blockBits[grp]
    && DescField(g, img, grp, 4, 4) == g.inodeBits[grp]
    && DescField(g, img, grp, 8, 4) == g.inodeTable[grp]
  }

  function BlockBitmap(g: Geo, img: Img, grp: nat): (r: seq<byte>)
    requires g.Valid() && Sized(g, img) && grp < g.sb.numGroups
    ensures |r| == g.sb.blockSize
  {
    assert g.HasRole(g.blockBits[grp], BlockBits(grp));
    img[g.blockBits[grp]]
  }

  function InodeBitmap(g: Geo, img: Img, grp: nat): (r: seq<byte>)
    requires g.Valid() && Sized(g, img) && grp < g.sb.numGroups
    ensures |r| == g.sb.blockSize
  {
    assert g.HasRole(g.inodeBits[grp], InodeBits(grp));
    img[g.inodeBits[grp]]
  }

  predicate BlockUsed(g: Geo, img: Img, b: nat)
    requires g.Valid() && Sized(g, img) && g.sb.HasBit(b)
  {
    g.sb.BlockHasPlace(b);
    BitAt(BlockBitmap(g, img, g.sb.GroupOf(b)), g.sb.BitOf(b))
  }

  predicate InodeUsed(g: Geo, img: Img, i: nat)
    requires g.Valid() && Sized(g, img) && g.sb.HasInode(i)
  {
    g.sb.InodeHasPlace(i);
    BitAt(InodeBitmap(g, img, g.sb.InodeGroup(i)), g.sb.InodeBit(i))
  }

  /** The on-disk record of inode i. */
  function Rec(g: Geo, img: Img, i: nat): (r: RawInode)
    requires g.Valid() && Sized(g, img) && g.sb.HasInode(i)
    ensures |r.buf| == g.sb.inodeSize && r.Valid()
  {
    g.InodeBlockRole(i);
    g.sb.TableSlotFits(i);
    var off := g.sb.TableOffset(i);
    RawInode(img[g.InodeBlock(i)][off..off + g.sb.inodeSize])
  }

  /** What one block write leaves alone, by the written block's role. */
  lemma WriteTouchesOneRole(g: Geo, img: Img, b: nat, buf: seq<byte>)
    requires Layout(g, img) && b < |img| && |buf| == g.sb.blockSize
    ensures Sized(g, img[b := buf])
    ensures !g.roles[b].GroupTable? ==> Layout(g, img[b := buf])
    ensures !g.roles[b].BlockBits? ==>
              forall x: nat | g.sb.HasBit(x) :: BlockUsed(g, img[b := buf], x) == BlockUsed(g, img, x)
    ensures !g.roles[b].InodeBits? ==>
              forall i: nat | g.sb.HasInode(i) :: InodeUsed(g, img[b := buf], i) == InodeUsed(g, img, i)
    ensures !g.roles[b].InodeTable? ==>
              forall i: nat | g.sb.HasInode(i) :: Rec(g, img[b := buf], i) == Rec(g, img, i)
  {
    var h := img[b := buf];
    if !g.roles[b].GroupTable? {
      forall grp | 0 <= grp < g.sb.numGroups ensures DescMatches(g, h, grp) {
        g.DescRole(grp);
        assert DescMatches(g, img, grp);
      }
    }
    if !g.roles[b].BlockBits? {
      forall x: nat | g.sb.HasBit(x) ensures BlockUsed(g, h, x) == BlockUsed(g, img, x) {
        g.sb.BlockHasPlace(x);
        assert g.HasRole(g.blockBits[g.sb.GroupOf(x)], BlockBits(g.sb.GroupOf(x)));
      }
    }
    if !g.roles[b].InodeBits? {
      forall i: nat | g.sb.HasInode(i) ensures InodeUsed(g, h, i) == InodeUsed(g, img, i) {
        g.sb.InodeHasPlace(i);
        assert g.HasRole(g.inodeBits[g.sb.InodeGroup(i)], InodeBits(g.sb.InodeGroup(i)));
      }
    }
    if !g.roles[b].InodeTable? {
      forall i: nat | g.sb.HasInode(i) ensures Rec(g, h, i) == Rec(g, img, i) {
        g.InodeBlockRole(i);
      }
    }
  }

  /** Setting or clearing one bit of a group's block bitmap changes that block's mark and no other. */
  lemma WriteBlockBit(g: Geo, img: Img, b: nat, buf: seq<byte>, on: bool)
    requires Layout(g, img) && g.sb.HasBit(b)
    requires g.sb.GroupOf(b) < g.sb.numGroups && g.sb.BitOf(b) / 8 < g.sb.blockSize
    requires var bits := BlockBitmap(g, img, g.sb.GroupOf(b));
             buf == if on then SetBit(bits, g.sb.BitOf(b)) else ClearBit(bits, g.sb.BitOf(b))
    ensures var h := img[g.blockBits[g.sb.GroupOf(b)] := buf];
            && Layout(g, h)
            && forall x: nat | g.sb.HasBit(x) :: BlockUsed(g, h, x) == if x == b then on else BlockUsed(g, img, x)
  {
    var grp := g.sb.GroupOf(b);
    var at := g.blockBits[grp];
    assert g.HasRole(at, BlockBits(grp));
    WriteTouchesOneRole(g, img, at, buf);
    var h := img[at := buf];
    forall x: nat | g.sb.HasBit(x)
      ensures BlockUsed(g, h, x) == if x == b then on else BlockUsed(g, img, x)
    {
      g.sb.BlockHasPlace(x);
      g.sb.BlockHasPlace(b);
      assert g.HasRole(g.blockBits[g.sb.GroupOf(x)], BlockBits(g.sb.GroupOf(x)));
    }
  }

  lemma WriteInodeBit(g: Geo, img: Img, i: nat, buf: seq<byte>, on: bool)
    requires Layout(g, img) && g.sb.HasInode(i)
    requires g.sb.InodeGroup(i) < g.sb.numGroups && g.sb.InodeBit(i) / 8 < g.sb.blockSize
    requires var bits := InodeBitmap(g, img, g.sb.InodeGroup(i));
             buf == if on then SetBit(bits, g.sb.InodeBit(i)) else ClearBit(bits, g.sb.InodeBit(i))
    ensures var h := img[g.inodeBits[g.sb.InodeGroup(i)] := buf];
            && Layout(g, h)
            && forall x: nat | g.sb.HasInode(x) :: InodeUsed(g, h, x) == if x == i then on else InodeUsed(g, img, x)
  {
    var grp := g.sb.InodeGroup(i);
    var at := g.inodeBits[grp];
    assert g.HasRole(at, InodeBits(grp));
    WriteTouchesOneRole(g, img, at, buf);
    var h := img[at := buf];
    forall x: nat | g.sb.HasInode(x)
      ensures InodeUsed(g, h, x) == if x == i then on else InodeUsed(g, img, x)
    {
      g.sb.InodeHasPlace(x);
      g.sb.InodeHasPlace(i);
      assert g.HasRole(g.inodeBits[g.sb.InodeGroup(x)], InodeBits(g.sb.InodeGroup(x)));
    }
  }

  /** Writing back one inode record changes that record and no other. */
  lemma WriteRecord(g: Geo, img: Img, i: nat, raw: RawInode)
    requires Layout(g, img) && g.sb.HasInode(i) && |raw.buf| == g.sb.inodeSize
    requires g.InodeBlock(i) < |img| && g.sb.TableOffset(i) + g.sb.inodeSize <= g.sb.blockSize
    ensures var h := img[g.InodeBlock(i) := Patch(img[g.InodeBlock(i)], g.sb.TableOffset(i), raw.buf)];
            && Layout(g, h)
            && forall x: nat | g.sb.HasInode(x) :: Rec(g, h, x) == if x == i then raw else Rec(g, img, x)
  {
    var at, off := g.InodeBlock(i), g.sb.TableOffset(i);
    var buf := Patch(img[at], off, raw.buf);
    g.InodeBlockRole(i);
    WriteTouchesOneRole(g, img, at, buf);
    var h := img[at := buf];
    forall x: nat | g.sb.HasInode(x)
      ensures Rec(g, h, x) == if x == i then raw else Rec(g, img, x)
    {
      g.InodeBlockRole(x);
      g.sb.TableSlotFits(x);
      if x == i {
        assert buf[off..off + g.sb.inodeSize] == raw.buf;
      } else if g.InodeBlock(x) == at {
        g.sb.TableSlotsDisjoint(x, i);
        PatchElsewhere(img[at], off, raw.buf, g.sb.TableOffset(x), g.sb.inodeSize);
      }
    }
  }

  /** Patching the counters of a group descriptor leaves every descriptor's pointers alone. */
  lemma WriteDescCounts(g: Geo, img: Img, grp: nat, bytes: seq<byte>, off: nat)
    requires Layout(g, img) && grp < g.sb.numGroups && 12 <= off && off + |bytes| <= 32
    requires g.sb.DescBlock(grp) < |img| && g.sb.DescOffset(grp) + 32 <= g.sb.blockSize
    ensures var at := g.sb.DescBlock(grp);
            Layout(g, img[at := Patch(img[at], g.sb.DescOffset(grp) + off, bytes)])
  {
    var at := g.sb.DescBlock(grp);
    var h := img[at := Patch(img[at], g.sb.DescOffset(grp) + off, bytes)];
    forall x | 0 <= x < g.sb.numGroups ensures DescMatches(g, h, x) {
      assert DescMatches(g, img, x);
      DescFieldKept(g, img, grp, bytes, off, x, 0, 4);
      DescFieldKept(g, img, grp, bytes, off, x, 4, 4);
      DescFieldKept(g, img, grp, bytes, off, x, 8, 4);
    }
  }

  /** A patch inside one descriptor keeps every field it does not cover. */
  lemma DescFieldKept(g: Geo, img: Img, grp: nat, bytes: seq<byte>, off: nat, x: nat, f: nat, w: nat)
    requires g.Valid() && Sized(g, img) && grp < g.sb.numGroups && x < g.sb.numGroups
    requires g.sb.DescBlock(grp) < |img| && g.sb.DescOffset(grp) + 32 <= g.sb.blockSize
    requires off + |bytes| <= 32 && f + w <= 32
    requires x != grp || f + w <= off || off + |bytes| <= f
    ensures var at := g.sb.DescBlock(grp);
            var h := img[at := Patch(img[at], g.sb.DescOffset(grp) + off, bytes)];
            Sized(g, h) && DescField(g, h, x, f, w) == DescField(g, img, x, f, w)
  {
    hide Superblock.DescOffset, Superblock.DescPerBlock, Superblock.Valid, Un;
    var at, base := g.sb.DescBlock(grp), g.sb.DescOffset(grp);
    g.sb.DescFits(x);
    g.DescRole(x);
    var h := img[at := Patch(img[at], base + off, bytes)];
    assert Sized(g, h);
    if g.sb.DescBlock(x) == at {
      if x != grp { g.sb.DescsDisjoint(x, grp); }
      PatchElsewhere(img[at], base + off, bytes, g.sb.DescOffset(x) + f, w);
    }
  }
}
