/** What one file-system operation may leave behind if it is cut off after any block write: a consistent
    volume, every other file untouched, and the directory as it was or as it will be. */
module Session {
  import opened Bytes
  import opened Geometry
  import opened Inode
  import opened Image
  import opened Tree
  import opened DirBlock
  import opened Consistency
  import opened Counters
  import opened Volume
  import opened Growth
  import opened Listing
  import opened Files
  import opened Content
  import opened Directories
  import opened Names

  /** Every inode of k has the same record, the same tree and the same blocks. */
  ghost predicate Same(g: Geo, a: Img, h: Img, k: set<nat>) {
    && Layout(g, a) && Layout(g, h)
    && forall i :: i in k ==> g.sb.HasInode(i) && Rec(g, h, i) == Rec(g, a, i) && Intact(g, a, h, DiskNode(g, a, i))
  }

  lemma SameTransitive(g: Geo, a: Img, b: Img, c: Img, k: set<nat>)
    requires Same(g, a, b, k) && Same(g, b, c, k)
    ensures Same(g, a, c, k)
  {
    hide Geo.Valid, DescMatches, Rec, NodeOf, Intact;
    forall i | i in k ensures Intact(g, a, c, DiskNode(g, a, i)) {
      assert DiskNode(g, b, i) == DiskNode(g, a, i);
      IntactTransitive(g, a, b, c, DiskNode(g, a, i));
    }
  }

  lemma SameFewer(g: Geo, a: Img, h: Img, k: set<nat>, fewer: set<nat>)
    requires Same(g, a, h, k) && fewer <= k
    ensures Same(g, a, h, fewer)
  {
    hide Geo.Valid, DescMatches, Rec, NodeOf, Intact;
  }

  /** What inode i lists on image h. */
  ghost function Shows(g: Geo, h: Img, i: nat): seq<DirEntry>
    requires Layout(g, h) && g.sb.HasInode(i)
  {
    DirListing(g, h, DiskNode(g, h, i))
  }

  lemma SameShows(g: Geo, a: Img, h: Img, k: set<nat>, i: nat)
    requires Same(g, a, h, k) && i in k
    ensures g.sb.HasInode(i) && Shows(g, h, i) == Shows(g, a, i) && DiskNode(g, h, i) == DiskNode(g, a, i)
  {
    hide Geo.Valid, DescMatches, Rec, NodeOf, Intact, DirListing;
    IntactListing(g, a, h, DiskNode(g, a, i));
  }

  /** Some set of inodes around k is consistent and names each inode once. */
  ghost predicate SomeSet(g: Geo, h: Img, k: set<nat>) {
    exists t: set<nat> :: k <= t && DiskInv(g, h, t) && OneName(TablesOf(g, h, t))
  }

  lemma ShowsTable(g: Geo, d: Img, s: set<nat>, i: nat)
    requires Layout(g, d) && (forall j :: j in s ==> g.sb.HasInode(j)) && i in s
    ensures TablesOf(g, d, s)[i] == Shows(g, d, i)
  {
    hide Geo.Valid, DescMatches, DirListing, DiskNode;
  }

  lemma SameLayout(g: Geo, a: Img, h: Img, k: set<nat>)
    requires Same(g, a, h, k)
    ensures Layout(g, a) && Layout(g, h)
  {
    hide Geo.Valid, DescMatches, Rec, Intact;
  }

  lemma SameTables(g: Geo, a: Img, d: Img, s: set<nat>, dir: nat)
    requires DiskInv(g, a, s) && Same(g, a, d, s - {dir}) && dir in s && g.sb.HasInode(dir)
             && Shows(g, d, dir) == Shows(g, a, dir)
    ensures (forall i :: i in s ==> g.sb.HasInode(i)) && TablesOf(g, d, s) == TablesOf(g, a, s)
  {
    hide Geo.Valid, DescMatches, DiskInv, Same, DirListing, DiskNode;
    SetLayout(g, a, s);
    SameLayout(g, a, d, s - {dir});
    forall i | i in s ensures Shows(g, d, i) == Shows(g, a, i) {
      if i != dir { SameShows(g, a, d, s - {dir}, i); }
    }
  }

  lemma NamesStay(g: Geo, d: Img, h: Img, t: set<nat>)
    requires DiskInv(g, d, t) && DiskInv(g, h, t) && Same(g, d, h, t) && OneName(TablesOf(g, d, t))
    ensures OneName(TablesOf(g, h, t))
  {
    hide Geo.Valid, DescMatches, DiskInv, Same, OneName, DirListing, DiskNode;
    SetLayout(g, d, t);
    SetLayout(g, h, t);
    forall i | i in t ensures Shows(g, h, i) == Shows(g, d, i) { SameShows(g, d, h, t, i); }
    assert TablesOf(g, h, t) == TablesOf(g, d, t);
  }

  /** One crash image of an operation on directory `dir` that lists l before and l' after; the inodes of s
      outside `gone` survive it. */
  ghost predicate CrashOk(g: Geo, a: Img, h: Img, s: set<nat>, gone: set<nat>, dir: nat, l: seq<DirEntry>,
                          l': seq<DirEntry>) {
    && SomeSet(g, h, s - gone) && g.sb.HasInode(dir)
    && Same(g, a, h, s - gone - {dir})
    && (Shows(g, h, dir) == l || Shows(g, h, dir) == l')
  }

  ghost predicate CrashSince(g: Geo, a: Img, h0: seq<Img>, h1: seq<Img>, s: set<nat>, gone: set<nat>, dir: nat,
                             l: seq<DirEntry>, l': seq<DirEntry>) {
    h0 <= h1 && forall k :: |h0| <= k < |h1| ==> CrashOk(g, a, h1[k], s, gone, dir, l, l')
  }

  lemma CrashWiden(g: Geo, a: Img, h0: seq<Img>, h1: seq<Img>, s: set<nat>, gone: set<nat>, dir: nat,
                   l: seq<DirEntry>, gone': set<nat>, l': seq<DirEntry>)
    requires CrashSince(g, a, h0, h1, s, gone, dir, l, l) && gone <= gone'
    ensures CrashSince(g, a, h0, h1, s, gone', dir, l, l')
  {
    hide SomeSet, Same, Shows;
    forall k | |h0| <= k < |h1| ensures CrashOk(g, a, h1[k], s, gone', dir, l, l') {
      assert CrashOk(g, a, h1[k], s, gone, dir, l, l);
      SmallerSet(g, h1[k], s - gone, s - gone');
      SameFewer(g, a, h1[k], s - gone - {dir}, s - gone' - {dir});
    }
  }

  lemma SmallerSet(g: Geo, h: Img, k: set<nat>, k': set<nat>)
    requires SomeSet(g, h, k) && k' <= k
    ensures SomeSet(g, h, k')
  {
    hide DiskInv, OneName;
  }

  lemma CrashAppend(g: Geo, a: Img, h0: seq<Img>, h1: seq<Img>, h2: seq<Img>, s: set<nat>, gone: set<nat>, dir: nat,
                    l: seq<DirEntry>, l': seq<DirEntry>)
    requires CrashSince(g, a, h0, h1, s, gone, dir, l, l') && h1 <= h2
    requires forall k :: |h1| <= k < |h2| ==> CrashOk(g, a, h2[k], s, gone, dir, l, l')
    ensures CrashSince(g, a, h0, h2, s, gone, dir, l, l')
  {
    hide CrashOk;
    forall k | |h0| <= k < |h2| ensures CrashOk(g, a, h2[k], s, gone, dir, l, l') {
      if k < |h1| { assert h2[k] == h1[k]; }
    }
  }

  // Steps that only add

  /** Everything a had in use is kept, and only records outside the set changed. */
  lemma KeptSame(g: Geo, a: Img, h: Img, s: set<nat>, ch: set<nat>)
    requires DiskInv(g, a, s) && Keeps(g, a, h, {}, {}) && SameRecords(g, a, h, ch) && s !! ch
    ensures DiskInv(g, h, s) && Same(g, a, h, s)
  {
    hide Geo.Valid, DescMatches, Inv, NodeOf, Rec, Keeps, Intact;
    var nodes := DiskNodes(g, a, s);
    NothingOwned(g, a, nodes);
    KeepsInv(g, a, h, nodes, {}, {});
    KeepsIntact(g, a, h, nodes, {}, {});
    assert DiskNodes(g, h, s) == nodes;
    forall i | i in s ensures Intact(g, a, h, DiskNode(g, a, i)) { assert nodes[i] == DiskNode(g, a, i); }
  }

  lemma KeptCrash(g: Geo, a: Img, h: Img, s: set<nat>, ch: set<nat>, dir: nat)
    requires DiskInv(g, a, s) && OneName(TablesOf(g, a, s)) && Keeps(g, a, h, {}, {}) && SameRecords(g, a, h, ch)
             && s !! ch && dir in s
    ensures Layout(g, a) && g.sb.HasInode(dir) && CrashOk(g, a, h, s, {}, dir, Shows(g, a, dir), Shows(g, a, dir))
    ensures Shows(g, h, dir) == Shows(g, a, dir) && Same(g, a, h, s - {dir})
  {
    hide Geo.Valid, DescMatches, DiskInv, Keeps, SameRecords, Same, Shows, Inv, OneName, TablesOf;
    SetLayout(g, a, s);
    KeptSame(g, a, h, s, ch);
    NamesStay(g, a, h, s);
    SameFewer(g, a, h, s, s - {dir});
    assert s - {} - {dir} == s - {dir};
    SameShows(g, a, h, s, dir);
    SetLayout(g, h, s);
    assert SomeSet(g, h, s - {});
  }

  lemma SetLayout(g: Geo, a: Img, s: set<nat>)
    requires DiskInv(g, a, s)
    ensures Layout(g, a) && ROOT_INO in s && forall i :: i in s ==> g.sb.HasInode(i) && InodeMarked(g, a, i)
  {
    hide Inv, Geo.Valid, DescMatches, NodeOf, Rec, InodeMarked;
    InvValid(g, a, DiskNodes(g, a, s));
  }

  /** A step of a write to inode i leaves the others of the set as they were. */
  lemma StepSame(g: Geo, b: Img, h: Img, t: set<nat>, i: nat)
    requires DiskInv(g, b, t) && StepOk(g, b, h, DiskNodes(g, b, t), i)
    ensures DiskInv(g, h, t) && Same(g, b, h, t - {i})
  {
    hide Geo.Valid, DescMatches, Inv, NodeOf, Rec, Intact;
    var nodes := DiskNodes(g, b, t);
    assert nodes.Keys == t;
    forall j | j in t - {i} ensures Intact(g, b, h, DiskNode(g, b, j)) { assert nodes[j] == DiskNode(g, b, j); }
  }

  /** A step of a write to the directory, seen from the operation's start. */
  lemma StepCrash(g: Geo, a: Img, b: Img, h: Img, s: set<nat>, t: set<nat>, gone: set<nat>, dir: nat,
                  l: seq<DirEntry>, l': seq<DirEntry>)
    requires DiskInv(g, b, t) && s - gone <= t && Same(g, a, b, s - gone - {dir}) && dir in t
    requires StepOk(g, b, h, DiskNodes(g, b, t), dir) && Layout(g, h) && g.sb.HasInode(dir)
             && (Shows(g, h, dir) == l || Shows(g, h, dir) == l')
    requires OneName(TablesOf(g, h, t))
    ensures CrashOk(g, a, h, s, gone, dir, l, l') && DiskInv(g, h, t) && Same(g, b, h, t - {dir})
  {
    hide Geo.Valid, DescMatches, DiskInv, StepOk, Same, Shows, OneName, TablesOf;
    StepSame(g, b, h, t, dir);
    SameFewer(g, b, h, t - {dir}, s - gone - {dir});
    SameTransitive(g, a, b, h, s - gone - {dir});
  }

  /** A directory of a consistent volume, opened for a change. */
  lemma OpenDir(core: Ext2Core, t: set<nat>, dir: nat, raw: RawInode)
    requires core.Ready() && DiskInv(core.geo, core.disk, t) && dir in t && core.sb.HasInode(dir)
    requires raw == Rec(core.geo, core.disk, dir) && raw.IsDir()
    ensures DirOpen(core, DiskNodes(core.geo, core.disk, t), dir, raw)
  {
    hide Geo.Valid, DescMatches, Inv, NodeOf, Rec, RawInode.Mode;
    OpenFile(core, t, dir);
    BlockSizePositive(core.geo);
    assert DiskNodes(core.geo, core.disk, t)[dir] == NodeOf(core.geo, raw);
  }

  lemma OpenFile(core: Ext2Core, t: set<nat>, i: nat)
    requires core.Ready() && DiskInv(core.geo, core.disk, t) && i in t
    ensures Writing(core, DiskNodes(core.geo, core.disk, t), i)
  {
    hide Geo.Valid, DescMatches, Inv, NodeOf, Rec;
    var g := core.geo;
    var nodes := DiskNodes(g, core.disk, t);
    SelfWithin(nodes[i].slots);
    assert forall j :: j in nodes ==> nodes[j] == DiskNode(g, core.disk, j);
  }
}
