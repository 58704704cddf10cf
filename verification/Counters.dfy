/** The redundant free counters: one pair in every group descriptor and one in the superblock, each
    meant to equal the clear bits of the bitmaps they summarize. */
module Counters {
  import opened Bytes
  import opened Geometry
  import opened Inode
  import opened Image

  // Counting clear bits

  /** By how much clear bits grow when a bit that was `was` becomes `on`. */
  function ClearDelta(was: bool, on: bool): int {
    if was == on then 0 else if on then -1 else 1
  }

  lemma {:induction false} CountAfterChange(a: seq<byte>, b: seq<byte>, n: nat, valid: nat, on: bool)
    requires |a| == |b| && forall m: nat :: BitAt(b, m) == if m == n then on else BitAt(a, m)
    ensures CountClear(b, valid) == CountClear(a, valid) + if n < valid then ClearDelta(BitAt(a, n), on) else 0
  {
    if valid > 0 { CountAfterChange(a, b, n, valid - 1, on); }
  }

  /** No clear bit exactly when every valid bit is set. */
  lemma {:induction false} CountZero(a: seq<byte>, valid: nat)
    ensures CountClear(a, valid) == 0 <==> forall n: nat :: n < valid ==> BitAt(a, n)
  {
    if valid > 0 { CountZero(a, valid - 1); }
  }

  // Stored counts and true counts

  function StoredBlocks(g: Geo, img: Img, grp: nat): nat
    requires g.Valid() && Sized(g, img) && grp < g.sb.numGroups
  {
    DescField(g, img, grp, 12, 2)
  }

  function StoredInodes(g: Geo, img: Img, grp: nat): nat
    requires g.Valid() && Sized(g, img) && grp < g.sb.numGroups
  {
    DescField(g, img, grp, 14, 2)
  }

  /** How many directories each group's descriptor says it has. */
  ghost function Dirs(g: Geo, img: Img): (ds: seq<nat>)
    ensures Layout(g, img) ==> |ds| == g.sb.numGroups
    ensures Layout(g, img) ==> forall k :: 0 <= k < |ds| ==> ds[k] == DescField(g, img, k, 16, 2)
  {
    if Layout(g, img)
    then seq(g.sb.numGroups, k requires 0 <= k < g.sb.numGroups => DescField(g, img, k, 16, 2))
    else []
  }

  /** One group's count moved, in 16 bits. */
  function MoveDirs(ds: seq<nat>, grp: nat, dd: int): seq<nat> {
    if grp < |ds| then ds[grp := (ds[grp] + dd) % 0x1_0000] else ds
  }

  /** A block outside the descriptor table counts no directories. */
  lemma DirsElsewhere(g: Geo, a: Img, b: nat, buf: seq<byte>)
    requires Layout(g, a) && b < |a| && !g.roles[b].GroupTable? && Layout(g, a[b := buf])
    ensures Dirs(g, a[b := buf]) == Dirs(g, a)
  {
    forall k | 0 <= k < g.sb.numGroups ensures DescField(g, a[b := buf], k, 16, 2) == DescField(g, a, k, 16, 2) {
      g.DescRole(k);
    }
  }

  lemma DirsStay(g: Geo, a: Img)
    ensures Layout(g, a) ==> forall k :: 0 <= k < g.sb.numGroups ==> MoveDirs(Dirs(g, a), k, 0) == Dirs(g, a)
  {
    Widths();
  }

  /** Free count of the superblock: blocks at byte 12, inodes at byte 16. */
  function SuperField(g: Geo, img: Img, off: nat): nat
    requires g.Valid() && Sized(g, img) && off + 4 <= 1024
  {
    Field(img[g.sb.firstDataBlock], g.sb.SuperOffset() + off, 4)
  }

  function ClearBlocks(g: Geo, img: Img, grp: nat): nat
    requires g.Valid() && Sized(g, img) && grp < g.sb.numGroups
  {
    CountClear(BlockBitmap(g, img, grp), g.sb.BlocksInGroup(grp))
  }

  function ClearInodes(g: Geo, img: Img, grp: nat): nat
    requires g.Valid() && Sized(g, img) && grp < g.sb.numGroups
  {
    CountClear(InodeBitmap(g, img, grp), g.sb.InodesInGroup(grp))
  }

  function TotalBlocks(g: Geo, img: Img, n: nat): nat
    requires g.Valid() && Sized(g, img) && n <= g.sb.numGroups
  {
    if n == 0 then 0 else TotalBlocks(g, img, n - 1) + ClearBlocks(g, img, n - 1)
  }

  function TotalInodes(g: Geo, img: Img, n: nat): nat
    requires g.Valid() && Sized(g, img) && n <= g.sb.numGroups
  {
    if n == 0 then 0 else TotalInodes(g, img, n - 1) + ClearInodes(g, img, n - 1)
  }

  /** Every counter equals the bits it summarizes. */
  ghost predicate CountersOk(g: Geo, img: Img)
    requires g.Valid() && Sized(g, img)
  {
    && (forall grp :: 0 <= grp < g.sb.numGroups ==> GroupOk(g, img, grp))
    && SuperField(g, img, 12) == TotalBlocks(g, img, g.sb.numGroups)
    && SuperField(g, img, 16) == TotalInodes(g, img, g.sb.numGroups)
  }

  ghost predicate GroupOk(g: Geo, img: Img, grp: nat)
    requires g.Valid() && Sized(g, img) && grp < g.sb.numGroups
  {
    StoredBlocks(g, img, grp) == ClearBlocks(g, img, grp) && StoredInodes(g, img, grp) == ClearInodes(g, img, grp)
  }

  /** A group has fewer clear bits than a 16-bit counter can hold, all groups fewer than a 32-bit one. */
  lemma CountsFit(g: Geo, img: Img, grp: nat)
    requires g.Valid() && Sized(g, img) && grp < g.sb.numGroups
    ensures ClearBlocks(g, img, grp) < 0x1_0000 && ClearInodes(g, img, grp) < 0x1_0000
  {
  }

  lemma {:induction false} TotalsFit(g: Geo, img: Img, n: nat)
    requires g.Valid() && Sized(g, img) && n <= g.sb.numGroups
    ensures TotalBlocks(g, img, n) + g.sb.firstDataBlock <= g.sb.blocksCount
    ensures TotalBlocks(g, img, n) <= n * g.sb.blocksPerGroup
    ensures TotalInodes(g, img, n) <= g.sb.inodesCount && TotalInodes(g, img, n) <= n * g.sb.inodesPerGroup
  {
    if n > 0 {
      TotalsFit(g, img, n - 1);
      hide Geo.Valid, CountClear, Sized;
      assert n * g.sb.blocksPerGroup == (n - 1) * g.sb.blocksPerGroup + g.sb.blocksPerGroup;
      assert n * g.sb.inodesPerGroup == (n - 1) * g.sb.inodesPerGroup + g.sb.inodesPerGroup;
    }
  }

  lemma {:induction false} TotalsMove(g: Geo, a: Img, h: Img, n: nat, grp: nat, db: int, di: int)
    requires g.Valid() && Sized(g, a) && Sized(g, h) && n <= g.sb.numGroups
    requires forall k :: 0 <= k < n ==>
               && ClearBlocks(g, h, k) == ClearBlocks(g, a, k) + (if k == grp then db else 0)
               && ClearInodes(g, h, k) == ClearInodes(g, a, k) + (if k == grp then di else 0)
    ensures TotalBlocks(g, h, n) == TotalBlocks(g, a, n) + (if grp < n then db else 0)
    ensures TotalInodes(g, h, n) == TotalInodes(g, a, n) + (if grp < n then di else 0)
  {
    hide Geo.Valid, Sized, ClearBlocks, ClearInodes;
    if n > 0 { TotalsMove(g, a, h, n - 1, grp, db, di); }
  }

  /** Group grp gained cb clear block bits and ci clear inode bits, and its stored counts and the
      superblock's were adjusted by db and di, in their own width. */
  ghost predicate Adjusted(g: Geo, a: Img, h: Img, grp: nat, cb: int, ci: int, db: int, di: int) {
    && g.Valid() && Sized(g, a) && Sized(g, h) && grp < g.sb.numGroups
    && (forall k :: 0 <= k < g.sb.numGroups ==>
          && ClearBlocks(g, h, k) == ClearBlocks(g, a, k) + (if k == grp then cb else 0)
          && ClearInodes(g, h, k) == ClearInodes(g, a, k) + (if k == grp then ci else 0)
          && StoredBlocks(g, h, k)
             == (if k == grp then (StoredBlocks(g, a, k) + db) % 0x1_0000 else StoredBlocks(g, a, k))
          && StoredInodes(g, h, k)
             == (if k == grp then (StoredInodes(g, a, k) + di) % 0x1_0000 else StoredInodes(g, a, k)))
    && SuperField(g, h, 12) == (SuperField(g, a, 12) + db) % 0x1_0000_0000
    && SuperField(g, h, 16) == (SuperField(g, a, 16) + di) % 0x1_0000_0000
  }

  /** Such a step keeps all counters exact when the counts moved as the bits did. */
  lemma AdjustedKeepsCounters(g: Geo, a: Img, h: Img, grp: nat, db: int, di: int)
    requires Adjusted(g, a, h, grp, db, di, db, di) && CountersOk(g, a)
    ensures CountersOk(g, h)
  {
    hide ClearBlocks, ClearInodes, StoredBlocks, StoredInodes, SuperField, Sized;
    forall k | 0 <= k < g.sb.numGroups ensures GroupOk(g, h, k) {
      assert GroupOk(g, a, k);
      CountsFit(g, h, k);
    }
    TotalsMove(g, a, h, g.sb.numGroups, grp, db, di);
    TotalsFit(g, h, g.sb.numGroups);
  }

  /** And only then: one count off by one shows in its group. */
  lemma MiscountShows(g: Geo, a: Img, h: Img, grp: nat, cb: int, ci: int, db: int, di: int)
    requires Adjusted(g, a, h, grp, cb, ci, db, di) && CountersOk(g, a)
    requires -1 <= db - cb <= 1 && -1 <= di - ci <= 1 && (cb != db || ci != di)
    ensures !CountersOk(g, h)
  {
    hide ClearBlocks, ClearInodes, StoredBlocks, StoredInodes, SuperField, Sized;
    assert GroupOk(g, a, grp);
    CountsFit(g, h, grp);
    CountsFit(g, a, grp);
    assert !GroupOk(g, h, grp);
  }

  ghost predicate SameCounters(g: Geo, a: Img, h: Img) {
    && g.Valid() && Sized(g, a) && Sized(g, h)
    && (forall k :: 0 <= k < g.sb.numGroups ==>
          && ClearBlocks(g, h, k) == ClearBlocks(g, a, k) && ClearInodes(g, h, k) == ClearInodes(g, a, k)
          && StoredBlocks(g, h, k) == StoredBlocks(g, a, k) && StoredInodes(g, h, k) == StoredInodes(g, a, k))
    && SuperField(g, h, 12) == SuperField(g, a, 12) && SuperField(g, h, 16) == SuperField(g, a, 16)
  }

  lemma SameCountersKeep(g: Geo, a: Img, h: Img)
    requires SameCounters(g, a, h)
    ensures CountersOk(g, h) == CountersOk(g, a)
  {
    hide ClearBlocks, ClearInodes, StoredBlocks, StoredInodes, SuperField, Sized, Geo.Valid;
    TotalsMove(g, a, h, g.sb.numGroups, g.sb.numGroups, 0, 0);
    if CountersOk(g, a) {
      forall k | 0 <= k < g.sb.numGroups ensures GroupOk(g, h, k) { assert GroupOk(g, a, k); }
    }
    if CountersOk(g, h) {
      forall k | 0 <= k < g.sb.numGroups ensures GroupOk(g, a, k) { assert GroupOk(g, h, k); }
    }
  }

  /** Data blocks and inode tables hold no counter and no bitmap. */
  lemma ContentWriteKeepsCounters(g: Geo, a: Img, b: nat, buf: seq<byte>)
    requires g.Valid() && Sized(g, a) && b < |a| && |buf| == g.sb.blockSize
    requires g.roles[b].Data? || g.roles[b].InodeTable?
    ensures SameCounters(g, a, a[b := buf])
  {
    var h := a[b := buf];
    forall k | 0 <= k < g.sb.numGroups
      ensures ClearBlocks(g, h, k) == ClearBlocks(g, a, k) && ClearInodes(g, h, k) == ClearInodes(g, a, k)
      ensures StoredBlocks(g, h, k) == StoredBlocks(g, a, k) && StoredInodes(g, h, k) == StoredInodes(g, a, k)
    {
      g.DescRole(k);
      assert g.HasRole(g.blockBits[k], BlockBits(k)) && g.HasRole(g.inodeBits[k], InodeBits(k));
    }
  }
}
