/** The volume geometry: what the superblock records, which role each block plays, and
    the arithmetic between block or inode numbers and (group, bit) pairs. */
module Geometry {
  import opened Bytes
  import Arith

  const ROOT_INO: nat := 2

  /** The geometry fields parsed once at mount. */
  datatype Superblock = Superblock(
    blockSize: nat, inodesCount: nat, blocksCount: nat,
    inodesPerGroup: nat, blocksPerGroup: nat,
    firstDataBlock: nat, inodeSize: nat, numGroups: nat, firstIno: nat)
  {
    function BgdtBlock(): nat { firstDataBlock + 1 }

    function PtrsPerBlock(): nat { blockSize / 4 }

    function DescPerBlock(): nat { blockSize / 32 }

    function DescBlocks(): nat
      requires blockSize >= 32
    {
      (numGroups + DescPerBlock() - 1) / DescPerBlock()
    }

    function InodesPerBlock(): nat
      requires inodeSize > 0
    {
      blockSize / inodeSize
    }

    function TableBlocks(): nat
      requires 0 < inodeSize <= blockSize
    {
      Arith.DivLess(blockSize, inodeSize, 1);
      (inodesPerGroup + InodesPerBlock() - 1) / InodesPerBlock()
    }

    /** Saturating: the last group may be short. */
    function BlocksInGroup(g: nat): nat {
      var start := firstDataBlock + g * blocksPerGroup;
      if blocksCount <= start then 0
      else if blocksCount - start < blocksPerGroup then blocksCount - start else blocksPerGroup
    }

    function InodesInGroup(g: nat): nat {
      var start := g * inodesPerGroup;
      if inodesCount <= start then 0
      else if inodesCount - start < inodesPerGroup then inodesCount - start else inodesPerGroup
    }

    ghost predicate Valid() {
      && blockSize in {1024, 2048, 4096}
      && firstDataBlock == (if blockSize == 1024 then 1 else 0)
      && 128 <= inodeSize <= blockSize
      && 1 <= blocksPerGroup <= 8 * blockSize
      && 1 <= inodesPerGroup <= 8 * blockSize
      && numGroups >= 1
      && firstDataBlock < blocksCount
      && firstDataBlock + (numGroups - 1) * blocksPerGroup < blocksCount <= numGroups * blocksPerGroup
      && ROOT_INO <= inodesCount <= numGroups * inodesPerGroup
      && blocksCount < 0x1_0000_0000 && inodesCount < 0x1_0000_0000
    }

    predicate HasBit(b: nat) { firstDataBlock <= b < blocksCount }

    predicate HasInode(i: nat) { 1 <= i <= inodesCount }

    function GroupOf(b: nat): nat
      requires HasBit(b) && blocksPerGroup > 0
    {
      (b - firstDataBlock) / blocksPerGroup
    }

    function BitOf(b: nat): nat
      requires HasBit(b) && blocksPerGroup > 0
    {
      (b - firstDataBlock) % blocksPerGroup
    }

    function InodeGroup(i: nat): nat
      requires HasInode(i) && inodesPerGroup > 0
    {
      (i - 1) / inodesPerGroup
    }

    function InodeBit(i: nat): nat
      requires HasInode(i) && inodesPerGroup > 0
    {
      (i - 1) % inodesPerGroup
    }

    function BlockAt(g: nat, bit: nat): nat { firstDataBlock + g * blocksPerGroup + bit }

    function InodeAt(g: nat, bit: nat): nat { g * inodesPerGroup + bit + 1 }

    // Block numbers and (group, bit) pairs correspond one to one

    lemma BlockHasPlace(b: nat)
      requires Valid() && HasBit(b)
      ensures GroupOf(b) < numGroups && BitOf(b) < BlocksInGroup(GroupOf(b))
      ensures BlockAt(GroupOf(b), BitOf(b)) == b
    {
      var x := b - firstDataBlock;
      Arith.DivMod(x, blocksPerGroup);
      Arith.DivLess(x, blocksPerGroup, numGroups);
    }

    lemma PlaceHasBlock(g: nat, bit: nat)
      requires Valid() && g < numGroups && bit < BlocksInGroup(g)
      ensures HasBit(BlockAt(g, bit))
      ensures GroupOf(BlockAt(g, bit)) == g && BitOf(BlockAt(g, bit)) == bit
    {
      Arith.DivModUnique(g, bit, blocksPerGroup);
    }

    /** Block numbers are in the order of groups, and of bits inside a group. */
    lemma EarlierBlock(x: nat, g: nat, bit: nat)
      requires HasBit(x) && bit < blocksPerGroup && x < BlockAt(g, bit)
      ensures GroupOf(x) < g || (GroupOf(x) == g && BitOf(x) < bit)
    {
      Arith.DivOrder(x - firstDataBlock, g, bit, blocksPerGroup);
    }

    lemma EarlierInode(i: nat, g: nat, bit: nat)
      requires HasInode(i) && bit < inodesPerGroup && i < InodeAt(g, bit)
      ensures InodeGroup(i) < g || (InodeGroup(i) == g && InodeBit(i) < bit)
    {
      Arith.DivOrder(i - 1, g, bit, inodesPerGroup);
    }

    lemma InodeHasPlace(i: nat)
      requires Valid() && HasInode(i)
      ensures InodeGroup(i) < numGroups && InodeBit(i) < InodesInGroup(InodeGroup(i))
      ensures InodeAt(InodeGroup(i), InodeBit(i)) == i
    {
      Arith.DivMod(i - 1, inodesPerGroup);
      Arith.DivLess(i - 1, inodesPerGroup, numGroups);
    }

    lemma PlaceHasInode(g: nat, bit: nat)
      requires Valid() && g < numGroups && bit < InodesInGroup(g)
      ensures HasInode(InodeAt(g, bit))
      ensures InodeGroup(InodeAt(g, bit)) == g && InodeBit(InodeAt(g, bit)) == bit
    {
      Arith.DivModUnique(g, bit, inodesPerGroup);
    }

    // The inode table

    lemma InodesPerBlockPositive()
      requires Valid()
      ensures InodesPerBlock() > 0
    {
      Arith.DivLess(blockSize, inodeSize, 1);
    }

    function TableIndex(i: nat): nat
      requires HasInode(i) && inodesPerGroup > 0 && 0 < inodeSize <= blockSize
    {
      Arith.DivLess(blockSize, inodeSize, 1);
      InodeBit(i) / InodesPerBlock()
    }

    function TableOffset(i: nat): nat
      requires HasInode(i) && inodesPerGroup > 0 && 0 < inodeSize <= blockSize
    {
      Arith.DivLess(blockSize, inodeSize, 1);
      (InodeBit(i) % InodesPerBlock()) * inodeSize
    }

    lemma TableSlotFits(i: nat)
      requires Valid() && HasInode(i)
      ensures TableIndex(i) < TableBlocks()
      ensures TableOffset(i) + inodeSize <= blockSize
    {
      InodesPerBlockPositive();
      var n := InodesPerBlock();
      Arith.DivLess(InodeBit(i), n, TableBlocks());
      Arith.DivMod(inodesPerGroup + n - 1, n);
      Arith.MulMono(InodeBit(i) % n + 1, n, inodeSize);
      Arith.DivMod(blockSize, inodeSize);
    }

    /** Two inodes of one table block occupy disjoint byte ranges. */
    lemma TableSlotsDisjoint(i: nat, j: nat)
      requires Valid() && HasInode(i) && HasInode(j) && i != j
      requires InodeGroup(i) == InodeGroup(j) && TableIndex(i) == TableIndex(j)
      ensures TableOffset(i) + inodeSize <= TableOffset(j) || TableOffset(j) + inodeSize <= TableOffset(i)
    {
      InodesPerBlockPositive();
      InodeHasPlace(i);
      InodeHasPlace(j);
      Arith.SlotsApart(InodeBit(i), InodeBit(j), InodesPerBlock(), inodeSize);
    }

    // The group descriptor table: 32 bytes a group

    function DescBlock(g: nat): nat
      requires blockSize >= 32
    {
      BgdtBlock() + g / DescPerBlock()
    }

    function DescOffset(g: nat): nat
      requires blockSize >= 32
    {
      (g % DescPerBlock()) * 32
    }

    lemma DescFits(g: nat)
      requires Valid() && g < numGroups
      ensures g / DescPerBlock() < DescBlocks()
      ensures DescOffset(g) + 32 <= blockSize
    {
      var n := DescPerBlock();
      Arith.DivLess(g, n, DescBlocks());
      Arith.DivMod(numGroups + n - 1, n);
    }

    lemma DescsDisjoint(g: nat, h: nat)
      requires Valid() && g != h && DescBlock(g) == DescBlock(h)
      ensures DescOffset(g) + 32 <= DescOffset(h) || DescOffset(h) + 32 <= DescOffset(g)
    {
      Arith.DivMod(g, DescPerBlock());
      Arith.DivMod(h, DescPerBlock());
    }

    /** The superblock is the 1024 bytes at byte 1024 of the device: its block, and where in it. */
    function SuperOffset(): nat { if blockSize == 1024 then 0 else 1024 }

    /** The superblock is at byte 1024 of the device, and the 32-byte descriptors follow one another from the
        block after it. */
    lemma MetadataPlaces(g: nat)
      requires Valid()
      ensures firstDataBlock * blockSize + SuperOffset() == 1024
      ensures DescBlock(g) * blockSize + DescOffset(g) == (firstDataBlock + 1) * blockSize + 32 * g
    {
      var n := DescPerBlock();
      Arith.DivMod(g, n);
      assert n * 32 == blockSize;
      assert g / n * n * 32 == g / n * blockSize;
    }

    /** When records fill their blocks, a group's records follow one another from the start of its table. */
    lemma RecordPlace(i: nat)
      requires Valid() && HasInode(i) && blockSize % inodeSize == 0
      ensures TableIndex(i) * blockSize + TableOffset(i) == (i - 1) % inodesPerGroup * inodeSize
    {
      InodesPerBlockPositive();
      var n, k := InodesPerBlock(), InodeBit(i);
      Arith.DivMod(blockSize, inodeSize);
      Arith.DivMod(k, n);
      assert k / n * blockSize == k / n * n * inodeSize;
      assert k * inodeSize == (k / n * n + k % n) * inodeSize == k / n * n * inodeSize + k % n * inodeSize;
    }
  }

  /** What a block is for. */
  datatype Role =
    | Boot
    | Super
    | GroupTable(k: nat)
    | BlockBits(g: nat)
    | InodeBits(g: nat)
    | InodeTable(g: nat, k: nat)
    | Data

  /** The superblock together with the fixed placement of each group's bitmaps and inode table.
      One role a block: metadata areas never overlap. */
  datatype Geo = Geo(
    sb: Superblock, blockBits: seq<nat>, inodeBits: seq<nat>, inodeTable: seq<nat>, roles: seq<Role>)
  {
    ghost predicate Valid() {
      && sb.Valid()
      && |roles| == sb.blocksCount
      && |blockBits| == |inodeBits| == |inodeTable| == sb.numGroups
      && (sb.firstDataBlock == 1 ==> roles[0] == Boot)
      && roles[sb.firstDataBlock] == Super
      && (forall k :: 0 <= k < sb.DescBlocks() ==> HasRole(sb.BgdtBlock() + k, GroupTable(k)))
      && (forall g :: 0 <= g < sb.numGroups ==> HasRole(blockBits[g], BlockBits(g)))
      && (forall g :: 0 <= g < sb.numGroups ==> HasRole(inodeBits[g], InodeBits(g)))
      && (forall g, k :: 0 <= g < sb.numGroups && 0 <= k < sb.TableBlocks() ==>
            HasRole(inodeTable[g] + k, InodeTable(g, k)))
    }

    predicate HasRole(b: nat, r: Role) { b < |roles| && roles[b] == r }

    /** A block the allocator may hand out for file content or pointers. */
    predicate IsData(b: nat) { b < |roles| && roles[b] == Data }

    /** The inode table block that holds inode i. */
    function InodeBlock(i: nat): nat
      requires Valid() && sb.HasInode(i)
    {
      sb.InodeHasPlace(i);
      inodeTable[sb.InodeGroup(i)] + sb.TableIndex(i)
    }

    lemma InodeBlockRole(i: nat)
      requires Valid() && sb.HasInode(i)
      ensures HasRole(InodeBlock(i), InodeTable(sb.InodeGroup(i), sb.TableIndex(i)))
    {
      sb.InodeHasPlace(i);
      sb.TableSlotFits(i);
    }

    lemma DescRole(g: nat)
      requires Valid() && g < sb.numGroups
      ensures HasRole(sb.DescBlock(g), GroupTable(g / sb.DescPerBlock()))
    {
      sb.DescFits(g);
    }
  }
}
