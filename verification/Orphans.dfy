/** The orphan scan: mark what the volume itself and the directory tree use, then clear every other bit. */
module Orphans {
  import opened Arith
  import opened Bytes
  import opened Geometry
  import opened Inode
  import opened Image
  import opened Tree
  import opened Consistency
  import opened Counters
  import opened Volume
  import opened Growth
  import opened Listing
  import opened Content
  import opened Directories
  import opened Walk
  import opened Repair
  import opened Reach

  // The volume's own blocks

  /** Every group keeps its first 1 + descriptor-table blocks for a superblock copy. */
  ghost predicate GroupHead(sb: Superblock, grp: nat, b: nat)
    requires sb.blockSize >= 32
  {
    sb.BlockAt(grp, 0) <= b < sb.BlockAt(grp, 0) + 1 + sb.DescBlocks()
  }

  ghost predicate GroupOwn(g: Geo, grp: nat, b: nat)
    requires g.Valid() && grp < g.sb.numGroups
  {
    || b == g.blockBits[grp] || b == g.inodeBits[grp]
    || g.inodeTable[grp] <= b < g.inodeTable[grp] + g.sb.TableBlocks()
    || GroupHead(g.sb, grp, b)
  }

  ghost predicate Reserved(g: Geo, b: nat)
    requires g.Valid()
  {
    || b <= g.sb.firstDataBlock
    || g.sb.BgdtBlock() <= b < g.sb.BgdtBlock() + g.sb.DescBlocks()
    || exists grp :: 0 <= grp < g.sb.numGroups && GroupOwn(g, grp, b)
  }

  ghost predicate RangeAdded(bits: seq<byte>, bits': seq<byte>, lo: nat, hi: nat) {
    |bits'| == |bits| && forall n: nat :: BitAt(bits', n) <==> BitAt(bits, n) || (lo <= n < hi && n / 8 < |bits|)
  }

  method MarkRange(marks: Marks, lo: nat, hi: nat)
    requires lo <= hi
    modifies marks`blocks
    ensures RangeAdded(old(marks.blocks), marks.blocks, lo, hi)
  {
    hide BitAt;
    for b := lo to hi
      invariant RangeAdded(old(marks.blocks), marks.blocks, lo, b)
    {
      marks.blocks := MarkBit(marks.blocks, b);
    }
  }

  /** The bits are exactly the reserved blocks they have room for, groups below n counted. */
  ghost predicate ReservedMarked(g: Geo, bits: seq<byte>, n: nat)
    requires g.Valid() && n <= g.sb.numGroups
  {
    forall b: nat :: BitAt(bits, b) <==>
      b / 8 < |bits| && (|| b <= g.sb.firstDataBlock
                         || g.sb.BgdtBlock() <= b < g.sb.BgdtBlock() + g.sb.DescBlocks()
                         || exists grp :: 0 <= grp < n && GroupOwn(g, grp, b))
  }

  lemma OneGroupMore(g: Geo, b0: seq<byte>, b1: seq<byte>, b2: seq<byte>, b3: seq<byte>, b4: seq<byte>, n: nat)
    requires g.Valid() && n < g.sb.numGroups && ReservedMarked(g, b0, n)
    requires BitsAdded(b0, b1, {g.blockBits[n]}) && BitsAdded(b1, b2, {g.inodeBits[n]})
    requires RangeAdded(b2, b3, g.inodeTable[n], g.inodeTable[n] + g.sb.TableBlocks())
    requires RangeAdded(b3, b4, g.sb.BlockAt(n, 0), g.sb.BlockAt(n, 0) + 1 + g.sb.DescBlocks())
    ensures ReservedMarked(g, b4, n + 1)
  {
    hide BitAt, Superblock.BlockAt, Superblock.DescBlocks, Superblock.TableBlocks, Superblock.BgdtBlock;
    forall b: nat
      ensures BitAt(b4, b) <==> BitAt(b0, b) || (b / 8 < |b0| && GroupOwn(g, n, b))
    {
      assert BitAt(b4, b) <==> BitAt(b3, b) || (GroupHead(g.sb, n, b) && b / 8 < |b0|);
    }
  }

  method ReserveMetadata(core: Ext2Core, marks: Marks) returns (r: Result<()>)
    requires core.Ready() && forall b: nat :: !BitAt(marks.blocks, b)
    modifies marks`blocks
    ensures r.Ok? && |marks.blocks| == |old(marks.blocks)|
    ensures ReservedMarked(core.geo, marks.blocks, core.sb.numGroups)
  {
    hide BitAt, Geo.Valid, DescMatches, Superblock.BlockAt, Superblock.DescBlocks, Superblock.TableBlocks,
         Superblock.BgdtBlock, GroupOwn;
    var sb := core.sb;
    BlockSizes(core.geo);
    GroupArithmetic(core.geo);
    MarkRange(marks, 0, sb.firstDataBlock + 1);
    MarkRange(marks, sb.BgdtBlock(), sb.BgdtBlock() + sb.DescBlocks());
    for group := 0 to sb.numGroups
      invariant core.Ready() && ReservedMarked(core.geo, marks.blocks, group) && |marks.blocks| == |old(marks.blocks)|
    {
      ghost var b0 := marks.blocks;
      var bgd :- core.ReadBgd(group);
      marks.blocks := MarkBit(marks.blocks, bgd.blockBitmap);
      ghost var b1 := marks.blocks;
      marks.blocks := MarkBit(marks.blocks, bgd.inodeBitmap);
      ghost var b2 := marks.blocks;
      MarkRange(marks, bgd.inodeTable, bgd.inodeTable + sb.TableBlocks());
      ghost var b3 := marks.blocks;
      MarkRange(marks, sb.BlockAt(group, 0), sb.BlockAt(group, 0) + 1 + sb.DescBlocks());
      OneGroupMore(core.geo, b0, b1, b2, b3, marks.blocks, group);
    }
    return Ok(());
  }

  // The sweep

  /** One bitmap with every bit cleared that `used` does not have. */
  ghost predicate Kept(bits: seq<byte>, bits': seq<byte>, valid: nat, base: nat, used: seq<byte>) {
    && |bits'| == |bits|
    && (forall n: nat :: n / 8 < |bits| ==>
         (BitAt(bits', n) <==> BitAt(bits, n) && (n < valid ==> BitAt(used, base + n))))
  }

  /** Numbers from base on whose bit is set but which are not used. */
  ghost function Gone(bits: seq<byte>, valid: nat, base: nat, used: seq<byte>): set<nat> {
    set n | base <= n < base + valid && BitAt(bits, n - base) && !BitAt(used, n)
  }

  method SweepBits(bits: seq<byte>, valid: nat, base: nat, used: seq<byte>) returns (bits': seq<byte>, freed: nat)
    requires valid <= 8 * |bits|
    ensures Kept(bits, bits', valid, base, used)
    ensures freed == |Gone(bits, valid, base, used)|
    ensures freed == 0 ==> bits' == bits
  {
    hide BitAt;
    bits', freed := bits, 0;
    assert Gone(bits, 0, base, used) == {};
    for bit := 0 to valid
      invariant Kept(bits, bits', bit, base, used)
      invariant freed == |Gone(bits, bit, base, used)|
      invariant freed == 0 ==> bits' == bits
    {
      assert Gone(bits, bit + 1, base, used)
             == Gone(bits, bit, base, used) + if BitAt(bits, bit) && !BitAt(used, base + bit) then {base + bit} else {};
      if BitAt(bits', bit) && !BitAt(used, base + bit) {
        bits' := ClearBit(bits', bit);
        freed := freed + 1;
      }
    }
  }

  /** From a to d only bitmaps changed: in groups below nb the block bits that ub has not were cleared,
      in groups below ni the inode bits that ui has not. */
  ghost predicate Swept(g: Geo, a: Img, d: Img, ub: seq<byte>, ui: seq<byte>, nb: nat, ni: nat) {
    && Layout(g, a) && Layout(g, d)
    && (forall b: nat :: 0 <= b < |a| && !g.roles[b].BlockBits? && !g.roles[b].InodeBits? ==> d[b] == a[b])
    && (forall k :: 0 <= k < g.sb.numGroups ==> BlocksSwept(g, a, d, ub, k, nb))
    && (forall k :: 0 <= k < g.sb.numGroups ==> InodesSwept(g, a, d, ui, k, ni))
  }

  /** How many inodes come before group k. */
  function InodeBase(sb: Superblock, k: nat): nat { k * sb.inodesPerGroup }

  ghost predicate BlocksSwept(g: Geo, a: Img, d: Img, ub: seq<byte>, k: nat, nb: nat)
    requires g.Valid() && Sized(g, a) && Sized(g, d) && k < g.sb.numGroups
  {
    var bits, bits', valid := BlockBitmap(g, a, k), BlockBitmap(g, d, k), g.sb.BlocksInGroup(k);
    if k < nb then Kept(bits, bits', valid, g.sb.BlockAt(k, 0), ub) else bits' == bits
  }

  ghost predicate InodesSwept(g: Geo, a: Img, d: Img, ui: seq<byte>, k: nat, ni: nat)
    requires g.Valid() && Sized(g, a) && Sized(g, d) && k < g.sb.numGroups
  {
    var bits, bits', valid := InodeBitmap(g, a, k), InodeBitmap(g, d, k), g.sb.InodesInGroup(k);
    if k < ni then Kept(bits, bits', valid, InodeBase(g.sb, k), ui) else bits' == bits
  }

  lemma SweepBegins(g: Geo, a: Img, ub: seq<byte>, ui: seq<byte>)
    requires Layout(g, a)
    ensures Swept(g, a, a, ub, ui, 0, 0)
  {
    hide Geo.Valid, DescMatches, BitAt;
  }

  /** Rewriting one bitmap leaves every other bitmap, and everything that is no bitmap, alone. */
  lemma OneBitmap(g: Geo, d: Img, k: nat, buf: seq<byte>)
    requires Layout(g, d) && k < g.sb.numGroups && |buf| == g.sb.blockSize
    ensures k < |g.blockBits| && g.blockBits[k] < |d| == |g.roles| && g.roles[g.blockBits[k]].BlockBits?
    ensures k < |g.inodeBits| && g.inodeBits[k] < |d| && g.roles[g.inodeBits[k]].InodeBits?
    ensures var h := d[g.blockBits[k] := buf];
            && Layout(g, h)
            && forall grp :: 0 <= grp < g.sb.numGroups ==>
                 BlockBitmap(g, h, grp) == (if grp == k then buf else BlockBitmap(g, d, grp))
                 && InodeBitmap(g, h, grp) == InodeBitmap(g, d, grp)
    ensures var h := d[g.inodeBits[k] := buf];
            && Layout(g, h)
            && forall grp :: 0 <= grp < g.sb.numGroups ==>
                 InodeBitmap(g, h, grp) == (if grp == k then buf else InodeBitmap(g, d, grp))
                 && BlockBitmap(g, h, grp) == BlockBitmap(g, d, grp)
  {
    hide DescMatches, BlockUsed, InodeUsed, Rec;
    assert g.HasRole(g.blockBits[k], BlockBits(k)) && g.HasRole(g.inodeBits[k], InodeBits(k));
    WriteTouchesOneRole(g, d, g.blockBits[k], buf);
    WriteTouchesOneRole(g, d, g.inodeBits[k], buf);
    forall grp | 0 <= grp < g.sb.numGroups
      ensures g.HasRole(g.blockBits[grp], BlockBits(grp)) && g.HasRole(g.inodeBits[grp], InodeBits(grp))
    {
    }
  }

  lemma SweepBlockBits(g: Geo, a: Img, d: Img, ub: seq<byte>, ui: seq<byte>, k: nat, buf: seq<byte>)
    requires Swept(g, a, d, ub, ui, k, k) && k < g.sb.numGroups && |buf| == g.sb.blockSize
    requires Kept(BlockBitmap(g, d, k), buf, g.sb.BlocksInGroup(k), g.sb.BlockAt(k, 0), ub)
    ensures g.blockBits[k] < |d|
    ensures Swept(g, a, d[g.blockBits[k] := buf], ub, ui, k + 1, k)
  {
    hide DescMatches, BitAt, Kept, Geo.Valid, BlockBitmap, InodeBitmap;
    OneBitmap(g, d, k, buf);
    var h, k1 := d[g.blockBits[k] := buf], k + 1;
    forall grp | 0 <= grp < g.sb.numGroups ensures BlocksSwept(g, a, h, ub, grp, k1) {
      assert BlocksSwept(g, a, d, ub, grp, k);
    }
    forall grp | 0 <= grp < g.sb.numGroups ensures InodesSwept(g, a, h, ui, grp, k) {
      assert InodesSwept(g, a, d, ui, grp, k);
    }
  }

  lemma SweepInodeBits(g: Geo, a: Img, d: Img, ub: seq<byte>, ui: seq<byte>, k: nat, buf: seq<byte>)
    requires Swept(g, a, d, ub, ui, k + 1, k) && k < g.sb.numGroups && |buf| == g.sb.blockSize
    requires Kept(InodeBitmap(g, d, k), buf, g.sb.InodesInGroup(k), InodeBase(g.sb, k), ui)
    ensures g.inodeBits[k] < |d|
    ensures Swept(g, a, d[g.inodeBits[k] := buf], ub, ui, k + 1, k + 1)
  {
    hide DescMatches, BitAt, Kept, Geo.Valid, BlockBitmap, InodeBitmap;
    OneBitmap(g, d, k, buf);
    var h, k1 := d[g.inodeBits[k] := buf], k + 1;
    forall grp | 0 <= grp < g.sb.numGroups ensures BlocksSwept(g, a, h, ub, grp, k1) {
      assert BlocksSwept(g, a, d, ub, grp, k1);
    }
    forall grp | 0 <= grp < g.sb.numGroups ensures InodesSwept(g, a, h, ui, grp, k1) {
      assert InodesSwept(g, a, d, ui, grp, k);
    }
  }

  lemma KeptEverywhere(bits: seq<byte>, bits': seq<byte>, valid: nat, base: nat, used: seq<byte>)
    requires Kept(bits, bits', valid, base, used)
    ensures forall n: nat :: BitAt(bits', n) <==> BitAt(bits, n) && (n < valid ==> BitAt(used, base + n))
  {
  }

  lemma SweptMarks(g: Geo, a: Img, d: Img, ub: seq<byte>, ui: seq<byte>, nb: nat, ni: nat)
    requires Swept(g, a, d, ub, ui, nb, ni)
    ensures forall b: nat :: g.sb.HasBit(b) ==>
              (Marked(g, d, b) <==> Marked(g, a, b) && (g.sb.GroupOf(b) < nb ==> BitAt(ub, b)))
    ensures forall i: nat :: g.sb.HasInode(i) ==>
              (InodeMarked(g, d, i) <==> InodeMarked(g, a, i) && (g.sb.InodeGroup(i) < ni ==> BitAt(ui, i - 1)))
  {
    hide DescMatches, BitAt, Geo.Valid;
    GroupArithmetic(g);
    forall b: nat | g.sb.HasBit(b)
      ensures Marked(g, d, b) <==> Marked(g, a, b) && (g.sb.GroupOf(b) < nb ==> BitAt(ub, b))
    {
      SweptBlock(g, a, d, ub, ui, nb, ni, b);
    }
    forall i: nat | g.sb.HasInode(i)
      ensures InodeMarked(g, d, i) <==> InodeMarked(g, a, i) && (g.sb.InodeGroup(i) < ni ==> BitAt(ui, i - 1))
    {
      SweptInode(g, a, d, ub, ui, nb, ni, i);
    }
  }

  lemma SweptBlock(g: Geo, a: Img, d: Img, ub: seq<byte>, ui: seq<byte>, nb: nat, ni: nat, b: nat)
    requires Swept(g, a, d, ub, ui, nb, ni) && g.sb.HasBit(b) && g.sb.blocksPerGroup > 0
    ensures Marked(g, d, b) <==> Marked(g, a, b) && (g.sb.GroupOf(b) < nb ==> BitAt(ub, b))
  {
    hide DescMatches, BitAt, Superblock.GroupOf, Superblock.BitOf;
    g.sb.BlockHasPlace(b);
    var k := g.sb.GroupOf(b);
    assert BlocksSwept(g, a, d, ub, k, nb);
    if k < nb {
      KeptEverywhere(BlockBitmap(g, a, k), BlockBitmap(g, d, k), g.sb.BlocksInGroup(k), g.sb.BlockAt(k, 0), ub);
    }
  }

  lemma SweptInode(g: Geo, a: Img, d: Img, ub: seq<byte>, ui: seq<byte>, nb: nat, ni: nat, i: nat)
    requires Swept(g, a, d, ub, ui, nb, ni) && g.sb.HasInode(i) && g.sb.inodesPerGroup > 0
    ensures InodeMarked(g, d, i) <==> InodeMarked(g, a, i) && (g.sb.InodeGroup(i) < ni ==> BitAt(ui, i - 1))
  {
    hide DescMatches, BitAt, Superblock.InodeGroup, Superblock.InodeBit;
    g.sb.InodeHasPlace(i);
    var k := g.sb.InodeGroup(i);
    assert InodesSwept(g, a, d, ui, k, ni);
    if k < ni {
      KeptEverywhere(InodeBitmap(g, a, k), InodeBitmap(g, d, k), g.sb.InodesInGroup(k), InodeBase(g.sb, k), ui);
    }
  }

  /** The blocks of the first n groups that are marked in a but not used. */
  ghost function OrphanBlocks(g: Geo, a: Img, ub: seq<byte>, n: nat): set<nat>
    requires Layout(g, a) && g.sb.blocksPerGroup > 0
  {
    set b | 0 <= b < g.sb.blocksCount && Marked(g, a, b) && g.sb.GroupOf(b) < n && !BitAt(ub, b)
  }

  /** The same for inodes, which the bitmaps count from 0: inode n + 1 has bit n. */
  ghost function OrphanInodes(g: Geo, a: Img, ui: seq<byte>, n: nat): set<nat>
    requires Layout(g, a) && g.sb.inodesPerGroup > 0
  {
    set i | 0 <= i < g.sb.inodesCount && InodeMarked(g, a, i + 1) && g.sb.InodeGroup(i + 1) < n && !BitAt(ui, i)
  }

  lemma OrphanBlocksMore(g: Geo, a: Img, ub: seq<byte>, k: nat)
    requires Layout(g, a) && k < g.sb.numGroups && g.sb.blocksPerGroup > 0
    ensures var gone := Gone(BlockBitmap(g, a, k), g.sb.BlocksInGroup(k), g.sb.BlockAt(k, 0), ub);
            OrphanBlocks(g, a, ub, k + 1) == OrphanBlocks(g, a, ub, k) + gone && OrphanBlocks(g, a, ub, k) !! gone
  {
    hide DescMatches, BitAt, Superblock.GroupOf, Superblock.BitOf, Superblock.BlocksInGroup;
    var gone := Gone(BlockBitmap(g, a, k), g.sb.BlocksInGroup(k), g.sb.BlockAt(k, 0), ub);
    forall b: nat | g.sb.HasBit(b) ensures b in gone <==> Marked(g, a, b) && g.sb.GroupOf(b) == k && !BitAt(ub, b) {
      g.sb.BlockHasPlace(b);
      if g.sb.BlockAt(k, 0) <= b < g.sb.BlockAt(k, 0) + g.sb.BlocksInGroup(k) {
        g.sb.PlaceHasBlock(k, b - g.sb.BlockAt(k, 0));
      }
    }
    forall b | b in gone ensures g.sb.HasBit(b) { g.sb.PlaceHasBlock(k, b - g.sb.BlockAt(k, 0)); }
  }

  lemma OrphanInodesMore(g: Geo, a: Img, ui: seq<byte>, k: nat)
    requires Layout(g, a) && k < g.sb.numGroups && g.sb.inodesPerGroup > 0
    ensures var gone := Gone(InodeBitmap(g, a, k), g.sb.InodesInGroup(k), InodeBase(g.sb, k), ui);
            OrphanInodes(g, a, ui, k + 1) == OrphanInodes(g, a, ui, k) + gone && OrphanInodes(g, a, ui, k) !! gone
  {
    hide DescMatches, BitAt, Superblock.InodeGroup, Superblock.InodeBit, Superblock.InodesInGroup;
    var gone := Gone(InodeBitmap(g, a, k), g.sb.InodesInGroup(k), InodeBase(g.sb, k), ui);
    forall i: nat | g.sb.HasInode(i + 1)
      ensures i in gone <==> InodeMarked(g, a, i + 1) && g.sb.InodeGroup(i + 1) == k && !BitAt(ui, i) {
      g.sb.InodeHasPlace(i + 1);
      if InodeBase(g.sb, k) <= i < InodeBase(g.sb, k) + g.sb.InodesInGroup(k) {
        g.sb.PlaceHasInode(k, i - InodeBase(g.sb, k));
      }
    }
    forall n | n in gone ensures g.sb.HasInode(n + 1) { g.sb.PlaceHasInode(k, n - InodeBase(g.sb, k)); }
  }

  /** Every image since h0 is somewhere in the sweep. */
  ghost predicate SweptSince(g: Geo, a: Img, h0: seq<Img>, h1: seq<Img>, ub: seq<byte>, ui: seq<byte>) {
    h0 <= h1 && forall k :: |h0| <= k < |h1| ==> Sweeping(g, a, h1[k], ub, ui)
  }

  ghost predicate Sweeping(g: Geo, a: Img, h: Img, ub: seq<byte>, ui: seq<byte>) {
    exists nb, ni :: Swept(g, a, h, ub, ui, nb, ni)
  }

  lemma SweepingNow(g: Geo, a: Img, h: Img, ub: seq<byte>, ui: seq<byte>, nb: nat, ni: nat)
    requires Swept(g, a, h, ub, ui, nb, ni)
    ensures Sweeping(g, a, h, ub, ui) && Layout(g, h) && Layout(g, a)
  {
    hide BlocksSwept, InodesSwept, Geo.Valid, DescMatches;
  }

  /** A group not yet swept has the bitmaps it had. */
  lemma NotYetSwept(g: Geo, a: Img, d: Img, ub: seq<byte>, ui: seq<byte>, k: nat, nb: nat)
    requires Swept(g, a, d, ub, ui, nb, k) && k < g.sb.numGroups
    ensures Layout(g, d) && (nb <= k ==> BlockBitmap(g, d, k) == BlockBitmap(g, a, k))
            && InodeBitmap(g, d, k) == InodeBitmap(g, a, k)
  {
    hide Geo.Valid, DescMatches;
    assert BlocksSwept(g, a, d, ub, k, nb) && InodesSwept(g, a, d, ui, k, k);
  }

  /** Clear every bit that was not surveyed as used, group by group. */
  method Sweep(core: Ext2Core, ub: seq<byte>, ui: seq<byte>) returns (freedBlocks: nat, freedInodes: nat)
    requires core.Ready() && core.sb.blocksPerGroup > 0 && core.sb.inodesPerGroup > 0
    modifies core
    ensures core.Ready() && Swept(core.geo, old(core.disk), core.disk, ub, ui, core.sb.numGroups, core.sb.numGroups)
    ensures SweptSince(core.geo, old(core.disk), old(core.history), core.history, ub, ui)
    ensures freedBlocks == |OrphanBlocks(core.geo, old(core.disk), ub, core.sb.numGroups)|
    ensures freedInodes == |OrphanInodes(core.geo, old(core.disk), ui, core.sb.numGroups)|
    ensures freedBlocks == 0 && freedInodes == 0 ==> core.disk == old(core.disk) && core.history == old(core.history)
    ensures Dirs(core.geo, core.disk) == Dirs(core.geo, old(core.disk))
  {
    hide Dirs, Geo.Valid, DescMatches, Swept, Sweeping, Superblock.BlocksInGroup, Superblock.InodesInGroup,
         Superblock.BlockAt, InodeBase, Kept, Gone, Marked, InodeMarked, OrphanBlocks, OrphanInodes, BlockBitmap,
         InodeBitmap;
    ghost var g, a, h0 := core.geo, core.disk, core.history;
    freedBlocks, freedInodes := 0, 0;
    SweepBegins(g, a, ub, ui);
    NoOrphansYet(g, a, ub, ui);
    for group := 0 to core.sb.numGroups
      invariant core.Ready() && Swept(g, a, core.disk, ub, ui, group, group)
                && SweptSince(g, a, h0, core.history, ub, ui)
      invariant freedBlocks == |OrphanBlocks(g, a, ub, group)| && freedInodes == |OrphanInodes(g, a, ui, group)|
      invariant freedBlocks == 0 && freedInodes == 0 ==> core.disk == a && core.history == h0
      invariant Dirs(g, core.disk) == Dirs(g, a)
    {
      NotYetSwept(g, a, core.disk, ub, ui, group, group);
      OrphanBlocksMore(g, a, ub, group);
      OrphanInodesMore(g, a, ui, group);
      var fb := SweepGroupBlocks(core, group, ub, ui, a);
      var fi := SweepGroupInodes(core, group, ub, ui, a);
      freedBlocks, freedInodes := freedBlocks + fb, freedInodes + fi;
    }
  }

  lemma NoOrphansYet(g: Geo, a: Img, ub: seq<byte>, ui: seq<byte>)
    requires Layout(g, a) && g.sb.blocksPerGroup > 0 && g.sb.inodesPerGroup > 0
    ensures OrphanBlocks(g, a, ub, 0) == {} && OrphanInodes(g, a, ui, 0) == {}
  {
    hide Geo.Valid, DescMatches, Marked, InodeMarked, Superblock.GroupOf, Superblock.InodeGroup;
  }

  method SweepGroupBlocks(core: Ext2Core, group: nat, ub: seq<byte>, ghost ui: seq<byte>, ghost a: Img)
    returns (freed: nat)
    requires core.Ready() && group < core.sb.numGroups && Swept(core.geo, a, core.disk, ub, ui, group, group)
    modifies core
    ensures core.Ready() && Swept(core.geo, a, core.disk, ub, ui, group + 1, group)
    ensures SweptSince(core.geo, a, old(core.history), core.history, ub, ui)
    ensures freed
            == |Gone(BlockBitmap(core.geo, a, group), core.sb.BlocksInGroup(group), core.sb.BlockAt(group, 0), ub)|
    ensures freed == 0 ==> core.disk == old(core.disk) && core.history == old(core.history)
    ensures Dirs(core.geo, core.disk) == Dirs(core.geo, old(core.disk))
  {
    hide Dirs, Geo.Valid, DescMatches, Swept, Sweeping, Superblock.BlocksInGroup, Superblock.BlockAt, Kept, Gone;
    ghost var g, d := core.geo, core.disk;
    NotYetSwept(g, a, d, ub, ui, group, group);
    BitmapInRange(g, d, group);
    var bgd := core.ReadBgd(group);
    var bits := core.BlockVec(bgd.value.blockBitmap);
    var bits';
    bits', freed := SweepBits(bits.value, core.sb.BlocksInGroup(group), core.sb.BlockAt(group, 0), ub);
    KeptSize(bits.value, bits', core.sb.BlocksInGroup(group), core.sb.BlockAt(group, 0), ub);
    SweepBlockBits(g, a, d, ub, ui, group, bits');
    SameImage(d, g.blockBits[group]);
    SweepingNow(g, a, d[g.blockBits[group] := bits'], ub, ui, group + 1, group);
    if freed > 0 {
      BitmapDirs(g, d, group, bits');
      var w := core.WriteBlock(bgd.value.blockBitmap, bits');
    }
  }

  method SweepGroupInodes(core: Ext2Core, group: nat, ghost ub: seq<byte>, ui: seq<byte>, ghost a: Img)
    returns (freed: nat)
    requires core.Ready() && group < core.sb.numGroups && Swept(core.geo, a, core.disk, ub, ui, group + 1, group)
    modifies core
    ensures core.Ready() && Swept(core.geo, a, core.disk, ub, ui, group + 1, group + 1)
    ensures SweptSince(core.geo, a, old(core.history), core.history, ub, ui)
    ensures freed
            == |Gone(InodeBitmap(core.geo, a, group), core.sb.InodesInGroup(group), InodeBase(core.sb, group), ui)|
    ensures freed == 0 ==> core.disk == old(core.disk) && core.history == old(core.history)
    ensures Dirs(core.geo, core.disk) == Dirs(core.geo, old(core.disk))
  {
    hide Dirs, Geo.Valid, DescMatches, Swept, Sweeping, Superblock.InodesInGroup, InodeBase, Kept, Gone;
    ghost var g, d := core.geo, core.disk;
    NotYetSwept(g, a, d, ub, ui, group, group + 1);
    BitmapInRange(g, d, group);
    var bgd := core.ReadBgd(group);
    var bits := core.BlockVec(bgd.value.inodeBitmap);
    var bits';
    bits', freed := SweepBits(bits.value, core.sb.InodesInGroup(group), InodeBase(core.sb, group), ui);
    KeptSize(bits.value, bits', core.sb.InodesInGroup(group), InodeBase(core.sb, group), ui);
    SweepInodeBits(g, a, d, ub, ui, group, bits');
    SameImage(d, g.inodeBits[group]);
    SweepingNow(g, a, d[g.inodeBits[group] := bits'], ub, ui, group + 1, group + 1);
    if freed > 0 {
      BitmapDirs(g, d, group, bits');
      var w := core.WriteBlock(bgd.value.inodeBitmap, bits');
    }
  }

  lemma KeptSize(bits: seq<byte>, bits': seq<byte>, valid: nat, base: nat, used: seq<byte>)
    requires Kept(bits, bits', valid, base, used)
    ensures |bits'| == |bits|
  {
  }

  lemma SameImage(d: Img, b: nat)
    requires b < |d|
    ensures d[b := d[b]] == d
  {
  }

  // The survey: what is in use

  /** Some inode the root reaches owns block b. */
  ghost predicate InUse(g: Geo, d: Img, b: nat)
    requires Layout(g, d)
  {
    exists j: nat :: Live(g, d, j) && Holds(g, d, DiskNode(g, d, j).slots, b)
  }

  /** The root reaches inode j. */
  ghost predicate Live(g: Geo, d: Img, j: nat)
    requires Layout(g, d)
  {
    g.sb.HasInode(j) && Reaches(g, d, ROOT_INO, j)
  }

  /** Everything the root reaches is within 64 inodes of it, itself included. */
  ghost predicate Shallow(g: Geo, d: Img)
    requires Layout(g, d)
  {
    forall j: nat :: Reaches(g, d, ROOT_INO, j) ==> Near(g, d, ROOT_INO, j, 64)
  }

  /** The survey's bitmaps say exactly which blocks and inodes are reserved or in use. */
  ghost predicate Surveyed(g: Geo, d: Img, ub: seq<byte>, ui: seq<byte>)
    requires Layout(g, d)
  {
    && (forall b: nat :: b < g.sb.blocksCount ==> (BitAt(ub, b) <==> Reserved(g, b) || InUse(g, d, b)))
    && (forall i: nat :: g.sb.HasInode(i) ==> (InodeBitSet(ui, i) <==> i < g.sb.firstIno || Live(g, d, i)))
  }

  /** A completed scan from the root has marked exactly what the root reaches. */
  lemma ScanIsExact(g: Geo, d: Img, m: seq<byte>, m': seq<byte>)
    requires Layout(g, d) && (forall j: nat :: !InodeBitSet(m, j))
    requires Found(g, d, ROOT_INO, m, m', {}, 64) && InodeBitSet(m', ROOT_INO)
    ensures Shallow(g, d)
    ensures forall j: nat :: InodeBitSet(m', j) <==> Reaches(g, d, ROOT_INO, j)
    ensures forall j: nat :: InodeBitSet(m', j) <==> Live(g, d, j)
    ensures forall j: nat :: New(m, m', j) <==> Live(g, d, j)
  {
    hide Geo.Valid, DescMatches, Lists, InodeBitSet, Near;
    var s := iset j: nat | InodeBitSet(m', j);
    forall j: nat | Reaches(g, d, ROOT_INO, j) ensures InodeBitSet(m', j) {
      var path :| Chain(g, d, path) && path[0] == ROOT_INO && path[|path| - 1] == j;
      ClosedHoldsChain(g, d, s, path);
    }
    forall j: nat | InodeBitSet(m', j)
      ensures Near(g, d, ROOT_INO, j, 64) && g.sb.HasInode(j) && Reaches(g, d, ROOT_INO, j) {
      assert New(m, m', j);
      NearReaches(g, d, ROOT_INO, j, 64, 64);
    }
  }

  /** So the block marks are exactly the reserved blocks and those in use. */
  lemma BlocksAreExact(g: Geo, d: Img, m: seq<byte>, m': seq<byte>, b: seq<byte>, b': seq<byte>)
    requires Layout(g, d) && BlocksOf(g, d, m, m', b, b') && forall j: nat :: New(m, m', j) <==> Live(g, d, j)
    requires ReservedMarked(g, b, g.sb.numGroups) && |b| == (g.sb.blocksCount + 7) / 8
    ensures forall n: nat :: n < g.sb.blocksCount ==> (BitAt(b', n) <==> Reserved(g, n) || InUse(g, d, n))
  {
    hide Geo.Valid, DescMatches, New, BitAt, Holds, DiskNode, Reaches, Superblock.BgdtBlock, Superblock.DescBlocks,
         GroupOwn;
    forall n: nat | n < g.sb.blocksCount ensures BitAt(b', n) <==> Reserved(g, n) || InUse(g, d, n) {
      assert BitAt(b, n) <==> Reserved(g, n);
      if InUse(g, d, n) {
        var j: nat :| Live(g, d, j) && Holds(g, d, DiskNode(g, d, j).slots, n);
        assert New(m, m', j);
      }
      if BitAt(b', n) && !BitAt(b, n) {
        assert FromNew(g, d, m, m', n);
        var j: nat :| New(m, m', j) && g.sb.HasInode(j) && Holds(g, d, DiskNode(g, d, j).slots, n);
      }
    }
  }

  lemma NoBits(n: nat)
    ensures forall k: nat :: !BitAt(Zeros(n), k) && !InodeBitSet(Zeros(n), k)
  {
    forall k: nat ensures !BitAt(Zeros(n), k) { ZeroByte(k % 8); }
  }

  /** Survey the volume: its own blocks, everything the root reaches (at most 64 levels down), and the
      reserved inodes.  Nothing is written. */
  method Survey(core: Ext2Core) returns (r: Result<(seq<byte>, seq<byte>)>)
    requires core.Ready()
    modifies core
    ensures core.Ready() && core.disk == old(core.disk) && core.history == old(core.history)
    ensures r.Ok? ==> Surveyed(core.geo, core.disk, r.value.0, r.value.1) && Shallow(core.geo, core.disk)
    ensures r.Err? ==> SurveyFails(core.geo, core.disk, r.error)
    ensures Dirs(core.geo, core.disk) == Dirs(core.geo, old(core.disk))
  {
    hide Dirs, Geo.Valid, DescMatches, Found, BlocksOf, BitAt, InodeBitSet, Reaches, Reserved, ReservedMarked, InUse,
         Unreadable, DeepUnmarked, New, Zeros, MarkInodeBit, Shallow;
    ghost var g, d := core.geo, core.disk;
    var marks := new Marks((core.sb.inodesCount + 7) / 8, (core.sb.blocksCount + 7) / 8);
    NoBits((core.sb.inodesCount + 7) / 8);
    NoBits((core.sb.blocksCount + 7) / 8);
    var ok := ReserveMetadata(core, marks);
    ghost var m, b := marks.inodes, marks.blocks;
    ok := MarkReachable(core, ROOT_INO, marks, 64);
    if ok.Err? {
      if ok.error == TooDeep { UnmarkedIsDeep(g, d, m); }
      return Err(ok.error);
    }
    ghost var m' := marks.inodes;
    ScanIsExact(g, d, m, m');
    BlocksAreExact(g, d, m, m', b, marks.blocks);
    var ub := marks.blocks;
    var i := 1;
    while i < core.sb.firstIno
      invariant i == 1 || i <= core.sb.firstIno
      invariant |marks.inodes| == |m| && core.Ready() && core.disk == d && core.history == old(core.history)
                && marks.blocks == ub
      invariant forall j: nat :: g.sb.HasInode(j) ==> (InodeBitSet(marks.inodes, j) <==> InodeBitSet(m', j) || j < i)
    {
      marks.inodes := MarkInodeBit(marks.inodes, i);
      i := i + 1;
    }
    return Ok((marks.blocks, marks.inodes));
  }

  lemma UnmarkedIsDeep(g: Geo, d: Img, m: seq<byte>)
    requires Layout(g, d)
    ensures DeepUnmarked(g, d, ROOT_INO, 65, m) ==> Deep(g, d, ROOT_INO, 65)
  {
    hide Geo.Valid, DescMatches, Chain, Simple, Unmarked;
  }

  /** Why a survey fails: the tree is deeper than 64 levels, or an inode in it cannot be read. */
  ghost predicate SurveyFails(g: Geo, d: Img, e: Ext2Error)
    requires Layout(g, d)
  {
    || (e == TooDeep && Deep(g, d, ROOT_INO, 65))
    || (e == Io && exists j :: Reaches(g, d, ROOT_INO, j) && Unreadable(g, d, j))
  }

  // The repair as a whole

  /** From a to d: bits cleared of exactly the blocks and inodes that are neither reserved nor in use,
      no bit set, and otherwise only free counters rewritten. */
  ghost predicate Reclaimed(g: Geo, a: Img, d: Img) {
    && SameContent(g, a, d)
    && (forall b: nat :: g.sb.HasBit(b) ==>
         (Marked(g, d, b) <==> Marked(g, a, b) && (Reserved(g, b) || InUse(g, a, b))))
    && (forall i: nat :: g.sb.HasInode(i) ==>
         (InodeMarked(g, d, i) <==> InodeMarked(g, a, i) && (i < g.sb.firstIno || Live(g, a, i))))
  }

  /** Same inode records and same data blocks. */
  ghost predicate SameContent(g: Geo, a: Img, d: Img) {
    && SameRecords(g, a, d, {})
    && forall b: nat :: g.IsData(b) ==> BlockOf(d, b) == BlockOf(a, b)
  }

  /** An image on the way: nothing in use was cleared, nothing was set. */
  ghost predicate Reclaiming(g: Geo, a: Img, h: Img) {
    && SameContent(g, a, h)
    && (forall b: nat :: g.sb.HasBit(b) && Marked(g, h, b) ==> Marked(g, a, b))
    && (forall b: nat :: g.sb.HasBit(b) && Marked(g, a, b) && (Reserved(g, b) || InUse(g, a, b)) ==> Marked(g, h, b))
    && (forall i: nat :: g.sb.HasInode(i) && InodeMarked(g, a, i) && (i < g.sb.firstIno || Live(g, a, i)) ==>
         InodeMarked(g, h, i))
  }

  ghost predicate ReclaimingSince(g: Geo, a: Img, h0: seq<Img>, h1: seq<Img>) {
    h0 <= h1 && forall k :: |h0| <= k < |h1| ==> Reclaiming(g, a, h1[k])
  }

  lemma SweptContent(g: Geo, a: Img, d: Img, ub: seq<byte>, ui: seq<byte>, nb: nat, ni: nat)
    requires Swept(g, a, d, ub, ui, nb, ni)
    ensures SameContent(g, a, d)
  {
    hide DescMatches, BlocksSwept, InodesSwept;
    forall i: nat | g.sb.HasInode(i) ensures Rec(g, d, i) == Rec(g, a, i) { g.InodeBlockRole(i); }
  }

  lemma SweepReclaims(g: Geo, a: Img, d: Img, ub: seq<byte>, ui: seq<byte>, nb: nat, ni: nat)
    requires Swept(g, a, d, ub, ui, nb, ni) && Surveyed(g, a, ub, ui)
    ensures Reclaiming(g, a, d)
    ensures nb >= g.sb.numGroups && ni >= g.sb.numGroups ==> Reclaimed(g, a, d)
  {
    hide Geo.Valid, DescMatches, BitAt, Swept, Marked, InodeMarked, Reserved, InUse, Live, SameContent,
         Superblock.GroupOf, Superblock.InodeGroup;
    SweepingNow(g, a, d, ub, ui, nb, ni);
    SweptContent(g, a, d, ub, ui, nb, ni);
    SweptMarks(g, a, d, ub, ui, nb, ni);
    AllInGroups(g);
  }

  lemma AllInGroups(g: Geo)
    requires g.Valid()
    ensures g.sb.blocksPerGroup > 0 && g.sb.inodesPerGroup > 0
    ensures forall b: nat :: g.sb.HasBit(b) ==> g.sb.GroupOf(b) < g.sb.numGroups && b < g.sb.blocksCount
    ensures forall i: nat :: g.sb.HasInode(i) ==> g.sb.InodeGroup(i) < g.sb.numGroups
  {
    forall b: nat | g.sb.HasBit(b) ensures g.sb.GroupOf(b) < g.sb.numGroups { g.sb.BlockHasPlace(b); }
    forall i: nat | g.sb.HasInode(i) ensures g.sb.InodeGroup(i) < g.sb.numGroups { g.sb.InodeHasPlace(i); }
  }

  /** Rewriting counters afterwards changes none of this. */
  lemma CountsKeepReclaimed(g: Geo, a: Img, d: Img, h: Img)
    requires OnlyCounts(g, d, h) && Layout(g, a)
    ensures Reclaiming(g, a, d) ==> Reclaiming(g, a, h)
    ensures Reclaimed(g, a, d) ==> Reclaimed(g, a, h)
  {
    hide Geo.Valid, DescMatches, OnlyCounts, Marked, InodeMarked, Reserved, InUse, Live, Rec;
    OnlyCountsEffect(g, d, h);
  }

  /** Blocks marked in a and no longer in d. */
  ghost function FreedBlocks(g: Geo, a: Img, d: Img): set<nat>
    requires Layout(g, a) && Layout(g, d)
  {
    set b | 0 <= b < g.sb.blocksCount && Marked(g, a, b) && !Marked(g, d, b)
  }

  /** Inodes marked in a and no longer in d, by bit number. */
  ghost function FreedInodes(g: Geo, a: Img, d: Img): set<nat>
    requires Layout(g, a) && Layout(g, d)
  {
    set i | 0 <= i < g.sb.inodesCount && InodeFreed(g, a, d, i)
  }

  ghost predicate InodeFreed(g: Geo, a: Img, d: Img, bit: nat)
    requires Layout(g, a) && Layout(g, d)
  {
    InodeMarked(g, a, bit + 1) && !InodeMarked(g, d, bit + 1)
  }

  lemma OrphansAreFreed(g: Geo, a: Img, d: Img, ub: seq<byte>, ui: seq<byte>)
    requires Swept(g, a, d, ub, ui, g.sb.numGroups, g.sb.numGroups) && Layout(g, a) && Layout(g, d)
    requires g.sb.blocksPerGroup > 0 && g.sb.inodesPerGroup > 0
    ensures FreedBlocks(g, a, d) == OrphanBlocks(g, a, ub, g.sb.numGroups)
    ensures FreedInodes(g, a, d) == OrphanInodes(g, a, ui, g.sb.numGroups)
  {
    hide Geo.Valid, DescMatches, BitAt, Swept, BlockUsed, InodeUsed, Superblock.GroupOf, Superblock.InodeGroup;
    SweptMarks(g, a, d, ub, ui, g.sb.numGroups, g.sb.numGroups);
    AllInGroups(g);
  }

  lemma SameFreed(g: Geo, a: Img, d: Img, h: Img)
    requires Layout(g, a) && OnlyCounts(g, d, h)
    ensures Layout(g, d) && Layout(g, h) && FreedBlocks(g, a, h) == FreedBlocks(g, a, d)
            && FreedInodes(g, a, h) == FreedInodes(g, a, d)
  {
    hide Geo.Valid, DescMatches, OnlyCounts, BlockUsed, InodeUsed;
    OnlyCountsEffect(g, d, h);
  }

  lemma ReclaimSelf(g: Geo, a: Img)
    requires Layout(g, a)
    ensures Reclaiming(g, a, a)
  {
    hide Geo.Valid, DescMatches, Marked, InodeMarked, Reserved, InUse, Live, Rec;
  }

  /** Free every block and inode that is marked used but neither reserved nor reachable from the root.
      If the tree cannot be walked completely, nothing at all is written. */
  method ReclaimOrphans(core: Ext2Core) returns (r: Result<(nat, nat)>)
    requires core.Ready()
    modifies core
    ensures core.Ready()
    ensures r.Err? ==>
              SurveyFails(core.geo, core.disk, r.error) && core.disk == old(core.disk)
              && core.history == old(core.history)
    ensures r.Ok? ==> Reclaimed(core.geo, old(core.disk), core.disk) && Shallow(core.geo, old(core.disk))
    ensures r.Ok? ==>
              r.value
              == (|FreedBlocks(core.geo, old(core.disk), core.disk)|,
                  |FreedInodes(core.geo, old(core.disk), core.disk)|)
    ensures r.Ok? && r.value == (0, 0) ==> core.disk == old(core.disk) && core.history == old(core.history)
    ensures ReclaimingSince(core.geo, old(core.disk), old(core.history), core.history)
    ensures CountersOk(core.geo, old(core.disk)) ==> CountersOk(core.geo, core.disk)
    ensures Dirs(core.geo, core.disk) == Dirs(core.geo, old(core.disk))
  {
    hide Dirs, Geo.Valid, DescMatches, Surveyed, SurveyFails, Shallow, Swept, Sweeping, OnlyCounts, Reclaimed,
         Reclaiming, CountersOk, OrphanBlocks, OrphanInodes, FreedBlocks, FreedInodes;
    ghost var g, a, h0 := core.geo, core.disk, core.history;
    ReclaimSelf(g, a);
    GroupArithmetic(g);
    var used := Survey(core);
    if used.Err? {
      return Err(used.error);
    }
    var (ub, ui) := used.value;
    var freedBlocks, freedInodes := Sweep(core, ub, ui);
    ghost var d, h1 := core.disk, core.history;
    SweepReclaims(g, a, d, ub, ui, g.sb.numGroups, g.sb.numGroups);
    OrphansAreFreed(g, a, d, ub, ui);
    forall k | |h0| <= k < |h1| ensures Reclaiming(g, a, h1[k]) { SweepingReclaims(g, a, h1[k], ub, ui); }
    if freedBlocks > 0 || freedInodes > 0 {
      var _ :- ReconcileFreeCounts(core);
      CountsKeepReclaimed(g, a, d, core.disk);
      SameFreed(g, a, d, core.disk);
      forall k | |h1| <= k < |core.history| ensures Reclaiming(g, a, core.history[k]) {
        CountsKeepReclaimed(g, a, d, core.history[k]);
      }
    }
    return Ok((freedBlocks, freedInodes));
  }

  lemma SweepingReclaims(g: Geo, a: Img, h: Img, ub: seq<byte>, ui: seq<byte>)
    requires Sweeping(g, a, h, ub, ui) && Layout(g, a) && Surveyed(g, a, ub, ui)
    ensures Reclaiming(g, a, h)
  {
    hide Swept, Surveyed, Reclaiming, Reclaimed, Geo.Valid, DescMatches;
    var nb: nat, ni: nat :| Swept(g, a, h, ub, ui, nb, ni);
    SweepReclaims(g, a, h, ub, ui, nb, ni);
  }
}
