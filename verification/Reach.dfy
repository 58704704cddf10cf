/** Which inodes the directory tree reaches, and the depth-limited scan that marks them with their blocks. */
module Reach {
  import opened Bytes
  import opened Geometry
  import opened Inode
  import opened Image
  import opened Tree
  import opened DirBlock
  import opened Consistency
  import opened Counters
  import opened Volume
  import opened Growth
  import opened Listing
  import opened Files
  import opened Content
  import opened Directories
  import opened Walk

  /** Directory i lists inode j. */
  ghost predicate Lists(g: Geo, d: Img, i: nat, j: nat)
    requires Layout(g, d)
  {
    g.sb.HasInode(i) && exists e :: e in DirListing(g, d, DiskNode(g, d, i)) && e.ino == j
  }

  /** A way down the directory tree. */
  ghost predicate Chain(g: Geo, d: Img, path: seq<nat>)
    requires Layout(g, d)
  {
    |path| > 0 && forall k :: 0 <= k < |path| - 1 ==> Lists(g, d, path[k], path[k + 1])
  }

  ghost predicate Reaches(g: Geo, d: Img, i: nat, j: nat)
    requires Layout(g, d)
  {
    exists path :: Chain(g, d, path) && path[0] == i && path[|path| - 1] == j
  }

  /** Some way down from i to j goes through at most n inodes. */
  ghost predicate Near(g: Geo, d: Img, i: nat, j: nat, n: nat)
    requires Layout(g, d)
  {
    exists path :: Chain(g, d, path) && path[0] == i && path[|path| - 1] == j && |path| <= n
  }

  /** No inode twice. */
  ghost predicate Simple(path: seq<nat>) {
    forall j, k :: 0 <= j < k < |path| ==> path[j] != path[k]
  }

  /** Some way down from i goes through n different inodes. */
  ghost predicate Deep(g: Geo, d: Img, i: nat, n: nat)
    requires Layout(g, d)
  {
    exists path :: Chain(g, d, path) && Simple(path) && path[0] == i && |path| == n
  }

  /** ... none of them marked in m. */
  ghost predicate DeepUnmarked(g: Geo, d: Img, i: nat, n: nat, m: seq<byte>)
    requires Layout(g, d)
  {
    exists path :: Chain(g, d, path) && Simple(path) && path[0] == i && |path| == n && Unmarked(path, m)
  }

  ghost predicate Unmarked(path: seq<nat>, m: seq<byte>) {
    forall k :: 0 <= k < |path| ==> !InodeBitSet(m, path[k])
  }

  lemma ReachesSelf(g: Geo, d: Img, i: nat)
    requires Layout(g, d)
    ensures Reaches(g, d, i, i) && Near(g, d, i, i, 1)
    ensures forall m :: !InodeBitSet(m, i) ==> DeepUnmarked(g, d, i, 1, m)
  {
    hide Geo.Valid, DescMatches, Lists, InodeBitSet;
    assert Chain(g, d, [i]) && Simple([i]);
    forall m | !InodeBitSet(m, i) ensures DeepUnmarked(g, d, i, 1, m) { assert Unmarked([i], m); }
  }

  lemma NearReaches(g: Geo, d: Img, i: nat, j: nat, n: nat, n': nat)
    requires Layout(g, d) && Near(g, d, i, j, n)
    ensures Reaches(g, d, i, j) && (n <= n' ==> Near(g, d, i, j, n'))
  {
    hide Geo.Valid, DescMatches, Lists, Chain;
  }

  lemma ReachesThrough(g: Geo, d: Img, i: nat, c: nat, j: nat)
    requires Layout(g, d) && Lists(g, d, i, c) && Reaches(g, d, c, j)
    ensures Reaches(g, d, i, j)
  {
    hide Geo.Valid, DescMatches, Lists;
    var path :| Chain(g, d, path) && path[0] == c && path[|path| - 1] == j;
    ChainFront(g, d, i, path);
  }

  lemma ReachesSnoc(g: Geo, d: Img, r: nat, i: nat, j: nat)
    requires Layout(g, d) && Reaches(g, d, r, i) && Lists(g, d, i, j)
    ensures Reaches(g, d, r, j)
  {
    hide Geo.Valid, DescMatches, Lists;
    var path :| Chain(g, d, path) && path[0] == r && path[|path| - 1] == i;
    var longer := path + [j];
    forall k | 0 <= k < |longer| - 1 ensures Lists(g, d, longer[k], longer[k + 1]) {
      if k < |path| - 1 { assert Lists(g, d, path[k], path[k + 1]); }
    }
    assert Chain(g, d, longer);
  }

  lemma NearThrough(g: Geo, d: Img, i: nat, c: nat, j: nat, n: nat)
    requires Layout(g, d) && Lists(g, d, i, c) && Near(g, d, c, j, n)
    ensures Near(g, d, i, j, n + 1)
  {
    hide Geo.Valid, DescMatches, Lists;
    var path :| Chain(g, d, path) && path[0] == c && path[|path| - 1] == j && |path| <= n;
    ChainFront(g, d, i, path);
  }

  /** An unmarked way down from an entry of i, once i itself was marked, is one from i before. */
  lemma DeepThrough(g: Geo, d: Img, i: nat, c: nat, n: nat, m: seq<byte>, m1: seq<byte>)
    requires Layout(g, d) && Lists(g, d, i, c) && DeepUnmarked(g, d, c, n, m1)
    requires New(m, m1, i) && forall j: nat :: InodeBitSet(m, j) ==> InodeBitSet(m1, j)
    ensures DeepUnmarked(g, d, i, n + 1, m)
  {
    hide Geo.Valid, DescMatches, Lists, InodeBitSet;
    var path :| Chain(g, d, path) && Simple(path) && path[0] == c && |path| == n && Unmarked(path, m1);
    ChainFront(g, d, i, path);
    var longer := [i] + path;
    assert Simple(longer) && Unmarked(longer, m);
  }

  lemma ChainFront(g: Geo, d: Img, i: nat, path: seq<nat>)
    requires Layout(g, d) && Chain(g, d, path) && Lists(g, d, i, path[0])
    ensures Chain(g, d, [i] + path)
  {
    hide Geo.Valid, DescMatches, Lists;
    var longer := [i] + path;
    forall k | 0 <= k < |longer| - 1 ensures Lists(g, d, longer[k], longer[k + 1]) {
      if k > 0 { assert Lists(g, d, path[k - 1], path[k]); }
    }
  }

  /** A set of inodes that holds i and, with each inode, everything that inode lists, holds all that i reaches. */
  lemma {:induction false} ClosedHoldsChain(g: Geo, d: Img, s: iset<nat>, path: seq<nat>)
    requires Layout(g, d) && Chain(g, d, path) && path[0] in s
    requires forall i, j :: i in s && Lists(g, d, i, j) ==> j in s
    ensures path[|path| - 1] in s
    decreases |path|
  {
    hide Geo.Valid, DescMatches, Lists;
    if |path| > 1 {
      assert Lists(g, d, path[0], path[1]);
      var rest := path[1..];
      forall k | 0 <= k < |rest| - 1 ensures Lists(g, d, rest[k], rest[k + 1]) {
        assert Lists(g, d, path[k + 1], path[k + 2]);
      }
      ClosedHoldsChain(g, d, s, rest);
    }
  }

  /** The scan cannot get past inode j: it does not exist, or its pointers leave the volume. */
  ghost predicate Unreadable(g: Geo, d: Img, j: nat)
    requires Layout(g, d)
  {
    !g.sb.HasInode(j) || !DirInRange(g, d, DiskNode(g, d, j).slots)
  }

  /** Inode bitmaps count from inode 1. */
  predicate InodeBitSet(bits: seq<byte>, i: nat) {
    i >= 1 && BitAt(bits, i - 1)
  }

  function MarkInodeBit(bits: seq<byte>, i: nat): (r: seq<byte>)
    ensures |r| == |bits|
    ensures forall j: nat :: InodeBitSet(r, j) <==> InodeBitSet(bits, j) || (j == i && i >= 1 && (i - 1) / 8 < |bits|)
  {
    if i >= 1 then MarkBit(bits, i - 1) else bits
  }

  /** Inode j was marked between m and m'. */
  ghost predicate New(m: seq<byte>, m': seq<byte>, j: nat) {
    InodeBitSet(m', j) && !InodeBitSet(m, j)
  }

  /** The block bits of b', beyond those of b, are exactly the blocks of the inodes in s. */
  ghost predicate BlocksOf(g: Geo, d: Img, m: seq<byte>, m': seq<byte>, b: seq<byte>, b': seq<byte>)
    requires Layout(g, d)
  {
    && |b'| == |b|
    && (forall n: nat :: BitAt(b, n) ==> BitAt(b', n))
    && (forall j: nat, n: nat ::
          New(m, m', j) && g.sb.HasInode(j) && Holds(g, d, DiskNode(g, d, j).slots, n) && n / 8 < |b| ==> BitAt(b', n))
    && (forall n: nat :: BitAt(b', n) && !BitAt(b, n) ==> FromNew(g, d, m, m', n))
  }

  ghost predicate FromNew(g: Geo, d: Img, m: seq<byte>, m': seq<byte>, n: nat)
    requires Layout(g, d)
  {
    exists j: nat :: New(m, m', j) && g.sb.HasInode(j) && Holds(g, d, DiskNode(g, d, j).slots, n)
  }

  /** What marking from inode i adds: i itself, only inodes i reaches within n steps, and with each new inode (other
      than those still open) all it lists. */
  ghost predicate Found(g: Geo, d: Img, i: nat, m: seq<byte>, m': seq<byte>, open: set<nat>, n: nat)
    requires Layout(g, d)
  {
    && |m'| == |m|
    && (forall j: nat :: InodeBitSet(m, j) ==> InodeBitSet(m', j))
    && (forall j: nat :: New(m, m', j) ==> g.sb.HasInode(j) && Near(g, d, i, j, n))
    && (forall j: nat, k: nat :: New(m, m', j) && j !in open && Lists(g, d, j, k) ==> InodeBitSet(m', k))
  }

  lemma FoundStep(g: Geo, d: Img, i: nat, c: nat, m: seq<byte>, m1: seq<byte>, m2: seq<byte>, open: set<nat>, n: nat)
    requires Layout(g, d) && Found(g, d, i, m, m1, open, n + 1) && Found(g, d, c, m1, m2, {}, n) && Lists(g, d, i, c)
    ensures Found(g, d, i, m, m2, open, n + 1)
  {
    hide Geo.Valid, DescMatches, Lists, Near, InodeBitSet;
    forall j: nat | New(m, m2, j) ensures g.sb.HasInode(j) && Near(g, d, i, j, n + 1) {
      if !New(m, m1, j) {
        assert New(m1, m2, j);
        NearThrough(g, d, i, c, j, n);
      }
    }
    forall j: nat, k: nat | New(m, m2, j) && j !in open && Lists(g, d, j, k) ensures InodeBitSet(m2, k) {
      if !New(m, m1, j) { assert New(m1, m2, j); }
    }
  }

  lemma BlocksStep(g: Geo, d: Img, m: seq<byte>, m1: seq<byte>, m2: seq<byte>, b: seq<byte>, b1: seq<byte>,
                   b2: seq<byte>)
    requires Layout(g, d) && BlocksOf(g, d, m, m1, b, b1) && BlocksOf(g, d, m1, m2, b1, b2)
    requires forall j: nat :: (InodeBitSet(m, j) ==> InodeBitSet(m1, j)) && (InodeBitSet(m1, j) ==> InodeBitSet(m2, j))
    ensures BlocksOf(g, d, m, m2, b, b2)
  {
    hide Geo.Valid, DescMatches, Holds, InodeBitSet, BitAt, DiskNode;
    forall j: nat, n: nat | New(m, m2, j) && g.sb.HasInode(j) && Holds(g, d, DiskNode(g, d, j).slots, n)
           && n / 8 < |b| ensures BitAt(b2, n) {
      if !New(m, m1, j) { assert New(m1, m2, j); }
    }
    forall n: nat | BitAt(b2, n) && !BitAt(b, n) ensures FromNew(g, d, m, m2, n) {
      var j: nat :| (New(m, m1, j) || New(m1, m2, j)) && g.sb.HasInode(j) && Holds(g, d, DiskNode(g, d, j).slots, n);
      assert New(m, m2, j);
    }
  }

  lemma NothingFound(g: Geo, d: Img, i: nat, m: seq<byte>, b: seq<byte>, n: nat)
    requires Layout(g, d)
    ensures Found(g, d, i, m, m, {}, n) && BlocksOf(g, d, m, m, b, b)
  {
    hide Geo.Valid, DescMatches, Holds, InodeBitSet, BitAt, DiskNode, Lists, Near;
  }

  /** Marking inode i alone, with the blocks of its tree. */
  lemma FoundOne(g: Geo, d: Img, i: nat, m: seq<byte>, b: seq<byte>, b': seq<byte>, done: set<Path>, n: nat)
    requires n > 0 && Layout(g, d) && g.sb.HasInode(i) && !InodeBitSet(m, i) && |m| == (g.sb.inodesCount + 7) / 8
    requires Complete(Ptrs(g), d, DiskNode(g, d, i).slots, done)
             && BitsAdded(b, b', Blocks(d, DiskNode(g, d, i).slots, done))
    ensures Found(g, d, i, m, MarkInodeBit(m, i), {i}, n) && New(m, MarkInodeBit(m, i), i)
    ensures BlocksOf(g, d, m, MarkInodeBit(m, i), b, b')
  {
    hide Geo.Valid, DescMatches, BitAt, DiskNode, Lists, Near, At, MarkInodeBit, InodeBitSet, DeepUnmarked;
    var m' := MarkInodeBit(m, i);
    ReachesSelf(g, d, i);
    NearReaches(g, d, i, i, 1, n);
    var slots := DiskNode(g, d, i).slots;
    forall k: nat ensures k in Blocks(d, slots, done) <==> Holds(g, d, slots, k) {
      CompleteBlocks(g, d, slots, done, k);
    }
  }

  lemma CompleteBlocks(g: Geo, d: Img, slots: seq<nat>, done: set<Path>, n: nat)
    requires g.Valid() && Complete(Ptrs(g), d, slots, done)
    ensures n in Blocks(d, slots, done) <==> Holds(g, d, slots, n)
  {
    hide Geo.Valid, At;
  }

  /** With everything it lists marked, the inode is no longer open. */
  lemma FoundClosed(g: Geo, d: Img, i: nat, m: seq<byte>, m': seq<byte>, n: nat)
    requires Layout(g, d) && Found(g, d, i, m, m', {i}, n)
    requires forall k: nat :: Lists(g, d, i, k) ==> InodeBitSet(m', k)
    ensures Found(g, d, i, m, m', {}, n)
  {
    hide Geo.Valid, DescMatches, InodeBitSet, Lists, Near;
  }

  /** What the record says of the inode, as the walk and the listing see it. */
  lemma RecordNode(g: Geo, d: Img, i: nat, raw: RawInode)
    requires Layout(g, d) && g.sb.HasInode(i) && raw == Rec(g, d, i) && g.sb.blockSize > 0
    ensures DiskNode(g, d, i) == NodeOf(g, raw)
    ensures DiskNode(g, d, i).slots == if raw.HasBlockPointers() then Slots(raw) else NoSlots()
    ensures !raw.IsDir() ==> DirListing(g, d, DiskNode(g, d, i)) == []
    ensures raw.IsDir() ==> raw.HasBlockPointers()
  {
    hide Geo.Valid, DescMatches, RawInode.Mode, RawInode.Size, Rec, Slots;
  }

  lemma EmptyWalk(g: Geo, d: Img, b: seq<byte>)
    requires g.Valid()
    ensures Complete(Ptrs(g), d, NoSlots(), {}) && BitsAdded(b, b, Blocks(d, NoSlots(), {}))
  {
    hide Geo.Valid, At, BitAt;
    forall q ensures At(d, NoSlots(), q) == 0 { EmptyTree(d, q); }
  }

  /** Mark inode `ino` and everything reachable through it, with every block those inodes own.  Success
      means the marking is complete and exact; failure means a chain deeper than the limit or an
      unreadable inode, and in either case nothing was written. */
  method MarkReachable(core: Ext2Core, ino: nat, marks: Marks, depth: nat) returns (r: Result<()>)
    requires core.Ready() && |marks.inodes| == (core.sb.inodesCount + 7) / 8
    modifies core, marks
    ensures core.Ready() && core.disk == old(core.disk) && core.history == old(core.history)
            && |marks.inodes| == |old(marks.inodes)|
    ensures r.Ok? ==>
              && InodeBitSet(marks.inodes, ino)
              && Found(core.geo, core.disk, ino, old(marks.inodes), marks.inodes, {}, depth)
              && BlocksOf(core.geo, core.disk, old(marks.inodes), marks.inodes, old(marks.blocks), marks.blocks)
    ensures r.Err? ==>
              || (r == Err(TooDeep) && DeepUnmarked(core.geo, core.disk, ino, depth + 1, old(marks.inodes)))
              || (r == Err(Io)
                  && exists j :: Reaches(core.geo, core.disk, ino, j) && Unreadable(core.geo, core.disk, j))
    ensures Dirs(core.geo, core.disk) == Dirs(core.geo, old(core.disk))
    decreases depth
  {
    hide Dirs, Geo.Valid, DescMatches, Found, BlocksOf, Reaches, Near, Lists, DeepUnmarked, Unreadable, InodeBitSet,
         MarkInodeBit, Rec, DiskNode, RawInode.Mode, RawInode.Size, Slots, DirListing, Complete, Blocks, BitsAdded,
         DirInRange, PointersInRange;
    ghost var g, d, m, b := core.geo, core.disk, marks.inodes, marks.blocks;
    NothingFound(g, d, ino, m, b, depth);
    ReachesSelf(g, d, ino);
    if InodeBitSet(marks.inodes, ino) {
      return Ok(());
    }
    if depth == 0 {
      return Err(TooDeep);
    }
    marks.inodes := MarkInodeBit(marks.inodes, ino);
    UnreadableHere(g, d, ino);
    var raw := core.ReadInode(ino);
    if raw.Err? {
      return Err(Io);
    }
    BlockSizePositive(g);
    RecordNode(g, d, ino, raw.value);
    ghost var done := {};
    EmptyWalk(g, d, b);
    if raw.value.HasBlockPointers() {
      r, done := VisitInodeBlocks(core, raw.value, marks, false);
      if r.Err? {
        return;
      }
    }
    FoundOne(g, d, ino, m, b, marks.blocks, done, depth);
    if raw.value.IsDir() {
      r := MarkEntries(core, ino, raw.value, marks, depth, m, b);
      if r.Err? {
        return;
      }
    } else {
      ListsNothing(g, d, ino);
    }
    FoundClosed(g, d, ino, m, marks.inodes, depth);
    return Ok(());
  }

  lemma UnreadableHere(g: Geo, d: Img, j: nat)
    requires Layout(g, d)
    ensures !g.sb.HasInode(j) ==> Unreadable(g, d, j)
    ensures g.sb.HasInode(j)
            && (!PointersInRange(g, d, DiskNode(g, d, j).slots) || !DirInRange(g, d, DiskNode(g, d, j).slots)) ==>
            Unreadable(g, d, j)
  {
    hide Geo.Valid, DescMatches, At, Leaf, DiskNode;
  }

  lemma ListsNothing(g: Geo, d: Img, i: nat)
    requires Layout(g, d) && g.sb.HasInode(i) && DirListing(g, d, DiskNode(g, d, i)) == []
    ensures forall k: nat :: !Lists(g, d, i, k)
  {
    hide Geo.Valid, DescMatches, DirListing, DiskNode;
  }

  lemma ListsEntry(g: Geo, d: Img, i: nat, es: seq<DirEntry>)
    requires Layout(g, d) && g.sb.HasInode(i) && DirListing(g, d, DiskNode(g, d, i)) == es
    ensures forall k :: 0 <= k < |es| ==> Lists(g, d, i, es[k].ino)
    ensures forall j: nat :: Lists(g, d, i, j) ==> exists k :: 0 <= k < |es| && es[k].ino == j
  {
    hide Geo.Valid, DescMatches, DirListing, DiskNode;
    forall k | 0 <= k < |es| ensures Lists(g, d, i, es[k].ino) { assert es[k] in es; }
  }

  /** Descend into every entry of directory `ino`, whose own marks m and b began. */
  method MarkEntries(core: Ext2Core, ghost ino: nat, raw: RawInode, marks: Marks, depth: nat, ghost m: seq<byte>,
                     ghost b: seq<byte>)
    returns (r: Result<()>)
    requires core.Ready() && depth > 0 && |marks.inodes| == |m| == (core.sb.inodesCount + 7) / 8
             && core.sb.HasInode(ino)
    requires raw == Rec(core.geo, core.disk, ino) && raw.IsDir()
    requires Found(core.geo, core.disk, ino, m, marks.inodes, {ino}, depth) && New(m, marks.inodes, ino)
    requires BlocksOf(core.geo, core.disk, m, marks.inodes, b, marks.blocks)
    modifies core, marks
    ensures core.Ready() && core.disk == old(core.disk) && core.history == old(core.history) && |marks.inodes| == |m|
    ensures r.Ok? ==>
              && Found(core.geo, core.disk, ino, m, marks.inodes, {ino}, depth) && New(m, marks.inodes, ino)
              && BlocksOf(core.geo, core.disk, m, marks.inodes, b, marks.blocks)
              && forall k: nat :: Lists(core.geo, core.disk, ino, k) ==> InodeBitSet(marks.inodes, k)
    ensures r.Err? ==>
              || (r == Err(TooDeep) && DeepUnmarked(core.geo, core.disk, ino, depth + 1, m))
              || (r == Err(Io)
                  && exists j :: Reaches(core.geo, core.disk, ino, j) && Unreadable(core.geo, core.disk, j))
    ensures Dirs(core.geo, core.disk) == Dirs(core.geo, old(core.disk))
    decreases depth, 0
  {
    hide Dirs, Geo.Valid, DescMatches, Found, BlocksOf, Reaches, Near, Lists, DeepUnmarked, Unreadable, InodeBitSet,
         New, Rec, DiskNode, RawInode.Mode, RawInode.Size, Slots, DirListing, DirInRange, PointersInRange, Entries,
         BlocksFor;
    ghost var g, d := core.geo, core.disk;
    BlockSizePositive(g);
    RecordNode(g, d, ino, raw);
    ReachesSelf(g, d, ino);
    UnreadableHere(g, d, ino);
    var es := ReadDirEntries(core, raw);
    if es.Err? {
      return Err(Io);
    }
    ListsEntry(g, d, ino, es.value);
    for k := 0 to |es.value|
      invariant core.Ready() && core.disk == d && core.history == old(core.history) && |marks.inodes| == |m|
      invariant Found(g, d, ino, m, marks.inodes, {ino}, depth) && New(m, marks.inodes, ino)
      invariant BlocksOf(g, d, m, marks.inodes, b, marks.blocks)
      invariant forall l :: 0 <= l < k ==> InodeBitSet(marks.inodes, es.value[l].ino)
    {
      ghost var m1, b1 := marks.inodes, marks.blocks;
      var c := es.value[k].ino;
      r := MarkReachable(core, c, marks, depth - 1);
      if r.Err? {
        FoundKeeps(g, d, ino, m, m1, {ino}, depth);
        ErrorThrough(g, d, ino, c, depth, m, m1);
        return;
      }
      FoundGrows(g, d, ino, c, m, m1, marks.inodes, {ino}, depth);
      FoundStep(g, d, ino, c, m, m1, marks.inodes, {ino}, depth - 1);
      BlocksStep(g, d, m, m1, marks.inodes, b, b1, marks.blocks);
    }
    return Ok(());
  }

  lemma FoundGrows(g: Geo, d: Img, i: nat, c: nat, m: seq<byte>, m1: seq<byte>, m2: seq<byte>, open: set<nat>, n: nat)
    requires n > 0 && Layout(g, d) && Found(g, d, i, m, m1, open, n) && Found(g, d, c, m1, m2, {}, n - 1)
    ensures forall j: nat :: (InodeBitSet(m, j) ==> InodeBitSet(m1, j)) && (InodeBitSet(m1, j) ==> InodeBitSet(m2, j))
    ensures forall j: nat :: New(m, m1, j) ==> New(m, m2, j)
  {
    hide Geo.Valid, DescMatches, Lists, Near, InodeBitSet;
  }

  lemma FoundKeeps(g: Geo, d: Img, i: nat, m: seq<byte>, m1: seq<byte>, open: set<nat>, n: nat)
    requires Layout(g, d) && Found(g, d, i, m, m1, open, n)
    ensures forall j: nat :: InodeBitSet(m, j) ==> InodeBitSet(m1, j)
  {
    hide Geo.Valid, DescMatches, Lists, Near, InodeBitSet;
  }

  lemma ErrorThrough(g: Geo, d: Img, i: nat, c: nat, depth: nat, m: seq<byte>, m1: seq<byte>)
    requires Layout(g, d) && Lists(g, d, i, c) && New(m, m1, i) && forall j: nat :: InodeBitSet(m, j) ==>
               InodeBitSet(m1, j)
    ensures DeepUnmarked(g, d, c, depth, m1) ==> DeepUnmarked(g, d, i, depth + 1, m)
    ensures forall j :: Reaches(g, d, c, j) ==> Reaches(g, d, i, j)
  {
    hide Geo.Valid, DescMatches, Lists, Reaches, DeepUnmarked, InodeBitSet;
    if DeepUnmarked(g, d, c, depth, m1) { DeepThrough(g, d, i, c, depth, m, m1); }
    forall j | Reaches(g, d, c, j) ensures Reaches(g, d, i, j) { ReachesThrough(g, d, i, c, j); }
  }
}
