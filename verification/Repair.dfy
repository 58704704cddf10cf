/** Mount-time repair: recount the free counters from the bitmaps. */
module Repair {
  import opened Bytes
  import opened Geometry
  import opened Image
  import opened Consistency
  import opened Counters
  import opened Volume

  datatype ReconcileReport = ReconcileReport(bgdDrift: bool, sbDrift: bool, totalFreeBlocks: nat, totalFreeInodes: nat)

  /** Every image since h0 differs from a in free counters only. */
  ghost predicate CountsSince(g: Geo, a: Img, h0: seq<Img>, h1: seq<Img>) {
    h0 <= h1 && forall k :: |h0| <= k < |h1| ==> OnlyCounts(g, a, h1[k])
  }

  /** The first n groups have been recounted; the rest, and the superblock, are as in a. */
  ghost predicate Recounted(g: Geo, a: Img, d: Img, n: nat) {
    && OnlyCounts(g, a, d) && n <= g.sb.numGroups
    && (forall k :: 0 <= k < n ==> GroupOk(g, d, k))
    && (forall k :: n <= k < g.sb.numGroups ==>
          StoredBlocks(g, d, k) == StoredBlocks(g, a, k) && StoredInodes(g, d, k) == StoredInodes(g, a, k))
    && SuperField(g, d, 12) == SuperField(g, a, 12) && SuperField(g, d, 16) == SuperField(g, a, 16)
  }

  lemma OnlyCountsTransitive(g: Geo, a: Img, b: Img, c: Img)
    requires OnlyCounts(g, a, b) && OnlyCounts(g, b, c)
    ensures OnlyCounts(g, a, c)
  {
    hide Geo.Valid, DescMatches;
  }

  lemma OnlyCountsSelf(g: Geo, a: Img)
    requires Layout(g, a)
    ensures OnlyCounts(g, a, a)
  {
  }

  /** Recounting group n. */
  lemma RecountGroup(g: Geo, a: Img, d: Img, d': Img, n: nat)
    requires Recounted(g, a, d, n) && n < g.sb.numGroups
    requires DescsMoved(g, d, d', n, ClearBlocks(g, d, n) - StoredBlocks(g, d, n),
                        ClearInodes(g, d, n) - StoredInodes(g, d, n))
    ensures Recounted(g, a, d', n + 1)
  {
    hide Geo.Valid, DescMatches, ClearBlocks, ClearInodes, StoredBlocks, StoredInodes, SuperField, OnlyCounts;
    OnlyCountsTransitive(g, a, d, d');
    BooksCounts(g, d, d');
    CountsFit(g, d, n);
    forall k | 0 <= k < n + 1 ensures GroupOk(g, d', k) {
      if k < n { assert GroupOk(g, d, k); }
    }
  }

  /** A group whose counts are right already. */
  lemma SkipGroup(g: Geo, a: Img, d: Img, n: nat)
    requires Recounted(g, a, d, n) && n < g.sb.numGroups && GroupOk(g, d, n)
    ensures Recounted(g, a, d, n + 1)
  {
    hide Geo.Valid, DescMatches, GroupOk, StoredBlocks, StoredInodes, SuperField, OnlyCounts;
  }

  lemma {:induction false} SameTotals(g: Geo, a: Img, d: Img, n: nat)
    requires OnlyCounts(g, a, d) && n <= g.sb.numGroups
    ensures Layout(g, a) && Layout(g, d)
    ensures TotalBlocks(g, d, n) == TotalBlocks(g, a, n) && TotalInodes(g, d, n) == TotalInodes(g, a, n)
  {
    hide Geo.Valid, DescMatches, ClearBlocks, ClearInodes, OnlyCounts;
    BooksCounts(g, a, d);
    TotalsMove(g, a, d, n, n, 0, 0);
  }

  /** All groups recounted and the superblock set to the totals: every counter is exact. */
  lemma AllCounted(g: Geo, a: Img, d: Img, d': Img)
    requires Recounted(g, a, d, g.sb.numGroups)
    requires SuperMoved(g, d, d', TotalBlocks(g, a, g.sb.numGroups) - SuperField(g, a, 12),
                        TotalInodes(g, a, g.sb.numGroups) - SuperField(g, a, 16))
             || (d' == d && SuperField(g, d, 12) == TotalBlocks(g, a, g.sb.numGroups)
                && SuperField(g, d, 16) == TotalInodes(g, a, g.sb.numGroups))
    ensures OnlyCounts(g, a, d') && Layout(g, d') && CountersOk(g, d')
  {
    hide Geo.Valid, DescMatches, ClearBlocks, ClearInodes, StoredBlocks, StoredInodes, SuperField, OnlyCounts,
         TotalBlocks, TotalInodes;
    SameTotals(g, a, d, g.sb.numGroups);
    OnlyCountsSelf(g, d);
    BooksCounts(g, d, d');
    SuperTotals(g, a);
    OnlyCountsTransitive(g, a, d, d');
    SameTotals(g, a, d', g.sb.numGroups);
    forall k | 0 <= k < g.sb.numGroups ensures GroupOk(g, d', k) { assert GroupOk(g, d, k); }
  }

  lemma SuperTotals(g: Geo, a: Img)
    requires Layout(g, a)
    ensures TotalBlocks(g, a, g.sb.numGroups) < 0x1_0000_0000 && TotalInodes(g, a, g.sb.numGroups) < 0x1_0000_0000
  {
    hide TotalBlocks, TotalInodes;
    TotalsFit(g, a, g.sb.numGroups);
  }

  /** Recount every group from its bitmaps and correct what disagrees: afterwards every counter is
      exact, whatever was stored before, and nothing but counters was written. */
  method ReconcileFreeCounts(core: Ext2Core) returns (r: Result<ReconcileReport>)
    requires core.Ready()
    modifies core
    ensures core.Ready() && r.Ok? && CountersOk(core.geo, core.disk)
    ensures OnlyCounts(core.geo, old(core.disk), core.disk)
            && CountsSince(core.geo, old(core.disk), old(core.history), core.history)
    ensures r.value.totalFreeBlocks == TotalBlocks(core.geo, old(core.disk), core.sb.numGroups)
    ensures r.value.totalFreeInodes == TotalInodes(core.geo, old(core.disk), core.sb.numGroups)
    ensures r.value.bgdDrift <==> exists k :: 0 <= k < core.sb.numGroups && !GroupOk(core.geo, old(core.disk), k)
    ensures r.value.sbDrift
            <==> || SuperField(core.geo, old(core.disk), 12) != TotalBlocks(core.geo, old(core.disk), core.sb.numGroups)
                 || SuperField(core.geo, old(core.disk), 16) != TotalInodes(core.geo, old(core.disk), core.sb.numGroups)
    ensures !r.value.bgdDrift && !r.value.sbDrift <==> CountersOk(core.geo, old(core.disk))
    ensures CountersOk(core.geo, old(core.disk)) ==> core.disk == old(core.disk) && core.history == old(core.history)
    ensures Dirs(core.geo, core.disk) == Dirs(core.geo, old(core.disk))
  {
    hide Dirs, Geo.Valid, DescMatches, ClearBlocks, ClearInodes, StoredBlocks, StoredInodes, OnlyCounts, DescsMoved,
         SuperMoved, Superblock.BlocksInGroup, Superblock.InodesInGroup, Superblock.SuperOffset, CountClear, Field,
         MoveDirs;
    ghost var g, a, h0 := core.geo, core.disk, core.history;
    SuperInRange(g, a);
    var sbBuf :- core.BlockVec(core.sb.firstDataBlock);
    var sbFreeBlocks, sbFreeInodes := Field(sbBuf, core.sb.SuperOffset() + 12, 4),
        Field(sbBuf, core.sb.SuperOffset() + 16, 4);
    var totalBlocks, totalInodes, bgdDrift := 0, 0, false;
    OnlyCountsSelf(g, a);
    for group := 0 to core.sb.numGroups
      invariant core.Ready() && Recounted(g, a, core.disk, group) && CountsSince(g, a, h0, core.history)
      invariant totalBlocks == TotalBlocks(g, a, group) && totalInodes == TotalInodes(g, a, group)
      invariant !bgdDrift <==> forall k :: 0 <= k < group ==> GroupOk(g, a, k)
      invariant !bgdDrift ==> core.disk == a && core.history == h0
      invariant Dirs(g, core.disk) == Dirs(g, a)
    {
      ghost var d := core.disk;
      BooksCounts(g, a, d);
      var bgd :- core.ReadBgd(group);
      BitmapInRange(g, d, group);
      GroupFits(g, d, group);
      var blockBits :- core.BlockVec(bgd.blockBitmap);
      var freeBlocks := CountFreeBits(blockBits, core.sb.BlocksInGroup(group));
      var inodeBits :- core.BlockVec(bgd.inodeBitmap);
      var freeInodes := CountFreeBits(inodeBits, core.sb.InodesInGroup(group));
      ClearCounts(g, d, group);
      assert GroupOk(g, a, group) <==> freeBlocks == bgd.freeBlocks && freeInodes == bgd.freeInodes;
      if freeBlocks != bgd.freeBlocks || freeInodes != bgd.freeInodes {
        bgdDrift := true;
        DirsStay(g, d);
        var _ :- core.AdjustBgdCounts(group, freeBlocks - bgd.freeBlocks, freeInodes - bgd.freeInodes, 0);
        RecountGroup(g, a, d, core.disk, group);
      } else {
        SkipGroup(g, a, d, group);
      }
      totalBlocks, totalInodes := totalBlocks + freeBlocks, totalInodes + freeInodes;
    }
    ghost var d := core.disk;
    SuperReads(g, a);
    var sbDrift := totalBlocks != sbFreeBlocks || totalInodes != sbFreeInodes;
    if sbDrift {
      var _ :- core.AdjustSbCounts(totalBlocks - sbFreeBlocks, totalInodes - sbFreeInodes);
    }
    AllCounted(g, a, d, core.disk);
    r := Ok(ReconcileReport(bgdDrift, sbDrift, totalBlocks, totalInodes));
  }

  lemma GroupFits(g: Geo, d: Img, grp: nat)
    requires g.Valid() && grp < g.sb.numGroups
    ensures g.sb.BlocksInGroup(grp) < 0x1_0000 && g.sb.InodesInGroup(grp) < 0x1_0000
  {
  }

  lemma ClearCounts(g: Geo, d: Img, grp: nat)
    requires Layout(g, d) && grp < g.sb.numGroups
    ensures ClearBlocks(g, d, grp) == CountClear(BlockBitmap(g, d, grp), g.sb.BlocksInGroup(grp))
    ensures ClearInodes(g, d, grp) == CountClear(InodeBitmap(g, d, grp), g.sb.InodesInGroup(grp))
  {
  }

  lemma SuperReads(g: Geo, a: Img)
    requires Layout(g, a)
    ensures g.sb.firstDataBlock < |a| && g.sb.SuperOffset() + 20 <= |a[g.sb.firstDataBlock]|
    ensures SuperField(g, a, 12) == Field(a[g.sb.firstDataBlock], g.sb.SuperOffset() + 12, 4)
    ensures SuperField(g, a, 16) == Field(a[g.sb.firstDataBlock], g.sb.SuperOffset() + 16, 4)
  {
    SuperInRange(g, a);
  }
}
