/** The invariant of a mounted volume: a set of inodes closed under directory entries, whose pointer
    trees share no block, and everything they own marked used.  Blocks and inodes may be marked
    used without belonging to it: those are leaks, and leaks are all a crash can produce. */
module Consistency {
  import opened Bytes
  import opened Geometry
  import opened Inode
  import opened Image
  import opened Tree
  import opened DirBlock

  /** What navigation sees of an inode: its block pointers (none for a fast symlink or a device) and,
      for a directory, how many blocks of entries it has. */
  datatype Node = Node(slots: seq<nat>, dirBlocks: nat)

  function Slots(raw: RawInode): (r: seq<nat>)
    requires raw.Valid()
    ensures |r| == 15 && forall i :: 0 <= i < 15 ==> r[i] == raw.IBlock(i)
  {
    seq(15, i requires 0 <= i < 15 => raw.IBlock(i))
  }

  function NoSlots(): (r: seq<nat>)
    ensures |r| == 15 && forall i :: 0 <= i < 15 ==> r[i] == 0
  {
    seq(15, _ => 0)
  }

  function BlocksFor(size: nat, bs: nat): nat
    requires bs > 0
  {
    (size + bs - 1) / bs
  }

  function NodeOf(g: Geo, raw: RawInode): (n: Node)
    requires raw.Valid() && g.sb.blockSize > 0
    ensures |n.slots| == 15
  {
    Node(if raw.HasBlockPointers() then Slots(raw) else NoSlots(),
         if raw.IsDir() then BlocksFor(raw.Size(), g.sb.blockSize) else 0)
  }

  function Ptrs(g: Geo): (p: nat)
    requires g.Valid()
    ensures p > 0 && 4 * p == g.sb.blockSize
  {
    g.sb.PtrsPerBlock()
  }

  function BlockOf(img: Img, b: nat): seq<byte> {
    if b < |img| then img[b] else []
  }

  lemma DataInRange(g: Geo, img: Img, b: nat)
    requires g.Valid() && Sized(g, img) && g.IsData(b)
    ensures b < |img| && |img[b]| == g.sb.blockSize && BlockOf(img, b) == img[b]
  {
  }

  lemma DataIsNotZero(g: Geo, b: nat)
    requires g.Valid() && g.IsData(b)
    ensures 0 < b < 0x1_0000_0000
  {
  }

  predicate Marked(g: Geo, img: Img, b: nat)
    requires g.Valid() && Sized(g, img)
  {
    g.sb.HasBit(b) && BlockUsed(g, img, b)
  }

  predicate InodeMarked(g: Geo, img: Img, i: nat)
    requires g.Valid() && Sized(g, img)
  {
    g.sb.HasInode(i) && InodeUsed(g, img, i)
  }

  /** Every metadata block with a bit is marked used, so the allocator never hands one out. */
  ghost predicate MetaMarked(g: Geo, img: Img)
    requires g.Valid() && Sized(g, img)
  {
    forall b: nat :: g.sb.HasBit(b) && !g.IsData(b) ==> Marked(g, img, b)
  }

  ghost predicate InodesMarked(g: Geo, img: Img, nodes: map<nat, Node>)
    requires g.Valid() && Sized(g, img)
  {
    ROOT_INO in nodes && forall i :: i in nodes ==> InodeMarked(g, img, i) && |nodes[i].slots| == 15
  }

  /** Every block a tree reaches is a data block and marked used. */
  ghost predicate Owned(g: Geo, img: Img, nodes: map<nat, Node>)
    requires g.Valid() && Sized(g, img)
  {
    forall i, q :: i in nodes && ValidPath(Ptrs(g), q) && At(img, nodes[i].slots, q) != 0 ==>
                     g.IsData(At(img, nodes[i].slots, q)) && Marked(g, img, At(img, nodes[i].slots, q))
  }

  /** One owner a block: no two pointers, in one tree or two, name the same block. */
  ghost predicate Apart(g: Geo, img: Img, nodes: map<nat, Node>)
    requires g.Valid()
  {
    forall i, q, j, r ::
      && i in nodes && j in nodes && ValidPath(Ptrs(g), q) && ValidPath(Ptrs(g), r)
      && At(img, nodes[i].slots, q) != 0
      && At(img, nodes[i].slots, q) == At(img, nodes[j].slots, r)
      ==> i == j && q == r
  }

  ghost predicate DirBlockOk(buf: seq<byte>, inos: set<nat>) {
    Tiled(buf, 0, |buf|) && forall e :: e in Scan(buf, 0) ==> e.ino in inos
  }

  /** Directory blocks are tiled and name only inodes of the set. */
  ghost predicate DirsClosed(g: Geo, img: Img, nodes: map<nat, Node>)
    requires g.Valid()
  {
    forall i, x: nat :: i in nodes && x < nodes[i].dirBlocks && Leaf(img, nodes[i].slots, Ptrs(g), x) != 0 ==>
                          DirBlockOk(BlockOf(img, Leaf(img, nodes[i].slots, Ptrs(g), x)), nodes.Keys)
  }

  ghost predicate Inv(g: Geo, img: Img, nodes: map<nat, Node>) {
    && Layout(g, img)
    && MetaMarked(g, img)
    && InodesMarked(g, img, nodes)
    && Owned(g, img, nodes)
    && Apart(g, img, nodes)
    && DirsClosed(g, img, nodes)
  }

  /** The nodes as the image itself records them. */
  ghost function DiskNodes(g: Geo, img: Img, inos: set<nat>): (m: map<nat, Node>)
    requires g.Valid() && Sized(g, img) && forall i :: i in inos ==> g.sb.HasInode(i)
    ensures m.Keys == inos
  {
    map i | i in inos :: NodeOf(g, Rec(g, img, i))
  }

  ghost predicate DiskInv(g: Geo, img: Img, inos: set<nat>) {
    && Layout(g, img)
    && (forall i :: i in inos ==> g.sb.HasInode(i))
    && Inv(g, img, DiskNodes(g, img, inos))
  }

  lemma InvValid(g: Geo, a: Img, nodes: map<nat, Node>)
    requires Inv(g, a, nodes)
    ensures Layout(g, a) && g.Valid() && Sized(g, a) && MetaMarked(g, a) && ROOT_INO in nodes
    ensures forall j :: j in nodes ==> InodeMarked(g, a, j) && g.sb.HasInode(j) && |nodes[j].slots| == 15
  {
  }

  /** A pointer of a consistent tree names a data block of the volume, in use. */
  lemma OwnedData(g: Geo, a: Img, nodes: map<nat, Node>, i: nat, q: Path)
    requires Inv(g, a, nodes) && i in nodes && ValidPath(Ptrs(g), q) && At(a, nodes[i].slots, q) != 0
    ensures var b := At(a, nodes[i].slots, q);
            g.IsData(b) && Marked(g, a, b) && b < |a| && |a[b]| == g.sb.blockSize && BlockOf(a, b) == a[b]
  {
    hide At, Marked, MetaMarked, InodesMarked, Apart, DirsClosed, Geo.Valid, DescMatches;
    DataInRange(g, a, At(a, nodes[i].slots, q));
  }

  lemma OneOwner(g: Geo, a: Img, nodes: map<nat, Node>, i: nat, q: Path, j: nat, r: Path)
    requires Inv(g, a, nodes) && i in nodes && j in nodes && ValidPath(Ptrs(g), q) && ValidPath(Ptrs(g), r)
    requires At(a, nodes[i].slots, q) != 0 && At(a, nodes[i].slots, q) == At(a, nodes[j].slots, r)
    ensures i == j && q == r
  {
    hide At, MetaMarked, InodesMarked, Owned, DirsClosed, Geo.Valid, DescMatches, Sized;
  }

  lemma DirBlockClosed(g: Geo, a: Img, nodes: map<nat, Node>, i: nat, x: nat)
    requires Inv(g, a, nodes) && i in nodes && x < nodes[i].dirBlocks && Leaf(a, nodes[i].slots, Ptrs(g), x) != 0
    ensures DirBlockOk(BlockOf(a, Leaf(a, nodes[i].slots, Ptrs(g), x)), nodes.Keys)
  {
    hide Leaf, MetaMarked, InodesMarked, Owned, Apart, DirBlockOk, Geo.Valid, DescMatches;
  }

  /** The tree of `node` and every block of it are the same in both images. */
  ghost predicate Intact(g: Geo, a: Img, h: Img, node: Node)
    requires g.Valid()
  {
    forall q :: ValidPath(Ptrs(g), q) ==>
                  && At(h, node.slots, q) == At(a, node.slots, q)
                  && (At(a, node.slots, q) != 0 ==>
                       BlockOf(h, At(a, node.slots, q)) == BlockOf(a, At(a, node.slots, q)))
  }

  // Writes that keep everything in use

  /** Every block and inode marked used in a, outside the freed ones, is still marked used in h, and
      the data blocks among them have the same content. */
  ghost predicate Keeps(g: Geo, a: Img, h: Img, freed: set<nat>, freedInodes: set<nat>) {
    && Layout(g, a) && Layout(g, h)
    && (forall b :: b in freed ==> g.IsData(b))
    && (forall b: nat :: Marked(g, a, b) && b !in freed ==>
         Marked(g, h, b) && (g.IsData(b) ==> BlockOf(h, b) == BlockOf(a, b)))
    && (forall i: nat :: InodeMarked(g, a, i) && i !in freedInodes ==> InodeMarked(g, h, i))
  }

  /** Every inode record outside `changed` is the same. */
  ghost predicate SameRecords(g: Geo, a: Img, h: Img, changed: set<nat>) {
    && Layout(g, a) && Layout(g, h)
    && forall i: nat :: g.sb.HasInode(i) && i !in changed ==> Rec(g, h, i) == Rec(g, a, i)
  }

  lemma KeepsTransitive(g: Geo, a: Img, b: Img, c: Img, freed: set<nat>, freedInodes: set<nat>)
    requires Keeps(g, a, b, freed, freedInodes) && Keeps(g, b, c, freed, freedInodes)
    ensures Keeps(g, a, c, freed, freedInodes)
  {
    hide Marked, InodeMarked, Layout;
  }

  lemma KeepsMonotone(g: Geo, a: Img, h: Img, freed: set<nat>, freedInodes: set<nat>, more: set<nat>,
                      moreInodes: set<nat>)
    requires Keeps(g, a, h, freed, freedInodes) && freed <= more && freedInodes <= moreInodes
    requires forall b :: b in more ==> g.IsData(b)
    ensures Keeps(g, a, h, more, moreInodes)
  {
    hide Marked, InodeMarked, Layout;
  }

  /** No tree of the set reaches a freed block. */
  ghost predicate Unowned(g: Geo, img: Img, nodes: map<nat, Node>, blocks: set<nat>)
    requires g.Valid()
  {
    forall i, q :: i in nodes && ValidPath(Ptrs(g), q) ==> At(img, nodes[i].slots, q) !in blocks - {0}
  }

  /** Such a write leaves every tree of the set as it was. */
  lemma KeepsTrees(g: Geo, a: Img, h: Img, nodes: map<nat, Node>, freed: set<nat>, freedInodes: set<nat>, i: nat,
                   q: Path)
    requires Inv(g, a, nodes) && Keeps(g, a, h, freed, freedInodes) && Unowned(g, a, nodes, freed)
    requires i in nodes && ValidPath(Ptrs(g), q)
    ensures At(h, nodes[i].slots, q) == At(a, nodes[i].slots, q)
    ensures At(a, nodes[i].slots, q) != 0 ==>
              && g.IsData(At(a, nodes[i].slots, q)) && Marked(g, h, At(a, nodes[i].slots, q))
              && BlockOf(h, At(a, nodes[i].slots, q)) == BlockOf(a, At(a, nodes[i].slots, q))
  {
    hide Marked, InodeMarked, MetaMarked, InodesMarked, Apart, DirsClosed, At;
    assert SamePointers(Ptrs(g), a, h, nodes[i].slots);
    AtUnchanged(Ptrs(g), a, h, nodes[i].slots, q);
  }

  lemma KeepsInv(g: Geo, a: Img, h: Img, nodes: map<nat, Node>, freed: set<nat>, freedInodes: set<nat>)
    requires Inv(g, a, nodes) && Keeps(g, a, h, freed, freedInodes) && Unowned(g, a, nodes, freed)
    requires nodes.Keys !! freedInodes
    ensures Inv(g, h, nodes)
  {
    hide Marked, InodeMarked, Owned, Apart, DirsClosed, Unowned;
    assert MetaMarked(g, h);
    assert InodesMarked(g, h, nodes);
    KeepsOwned(g, a, h, nodes, freed, freedInodes);
    KeepsDirs(g, a, h, nodes, freed, freedInodes);
  }

  /** No file of the set changes. */
  lemma KeepsIntact(g: Geo, a: Img, h: Img, nodes: map<nat, Node>, freed: set<nat>, freedInodes: set<nat>)
    requires Inv(g, a, nodes) && Keeps(g, a, h, freed, freedInodes) && Unowned(g, a, nodes, freed)
    ensures forall i :: i in nodes ==> Intact(g, a, h, nodes[i])
  {
    hide At, Unowned, BlockOf, Geo.Valid, Owned, Apart, DirsClosed, MetaMarked, InodesMarked, Marked, InodeMarked,
         Sized, DescMatches;
    forall i, q | i in nodes && ValidPath(Ptrs(g), q)
      ensures At(h, nodes[i].slots, q) == At(a, nodes[i].slots, q)
      ensures At(a, nodes[i].slots, q) != 0 ==>
                BlockOf(h, At(a, nodes[i].slots, q)) == BlockOf(a, At(a, nodes[i].slots, q))
    {
      KeepsTrees(g, a, h, nodes, freed, freedInodes, i, q);
    }
  }

  lemma KeepsOwned(g: Geo, a: Img, h: Img, nodes: map<nat, Node>, freed: set<nat>, freedInodes: set<nat>)
    requires Inv(g, a, nodes) && Keeps(g, a, h, freed, freedInodes) && Unowned(g, a, nodes, freed)
    ensures Owned(g, h, nodes) && Apart(g, h, nodes)
  {
    hide At, Marked, Unowned, MetaMarked, InodesMarked, DirsClosed, Geo.Valid, Sized, DescMatches;
    forall i, q | i in nodes && ValidPath(Ptrs(g), q)
      ensures At(h, nodes[i].slots, q) == At(a, nodes[i].slots, q)
      ensures At(a, nodes[i].slots, q) != 0 ==>
                g.IsData(At(a, nodes[i].slots, q)) && Marked(g, h, At(a, nodes[i].slots, q))
    {
      hide *;
      KeepsTrees(g, a, h, nodes, freed, freedInodes, i, q);
    }
  }

  lemma KeepsDirs(g: Geo, a: Img, h: Img, nodes: map<nat, Node>, freed: set<nat>, freedInodes: set<nat>)
    requires Inv(g, a, nodes) && Keeps(g, a, h, freed, freedInodes) && Unowned(g, a, nodes, freed)
    ensures DirsClosed(g, h, nodes)
  {
    forall i, x: nat | i in nodes && x < nodes[i].dirBlocks && Leaf(h, nodes[i].slots, Ptrs(g), x) != 0
      ensures DirBlockOk(BlockOf(h, Leaf(h, nodes[i].slots, Ptrs(g), x)), nodes.Keys)
    {
      hide At, Marked, InodeMarked, Layout, DirBlockOk, Owned, Apart, MetaMarked, InodesMarked, LeafPath, Keeps,
           Unowned;
      LeafPathOfIndex(Ptrs(g), x);
      KeepsTrees(g, a, h, nodes, freed, freedInodes, i, LeafPath(Ptrs(g), x));
      assert Leaf(a, nodes[i].slots, Ptrs(g), x) == Leaf(h, nodes[i].slots, Ptrs(g), x);
    }
  }

  // Structural changes

  /** The trees of `nodes` other than i's, as a sees them. */
  ghost predicate OthersSame(g: Geo, a: Img, h: Img, nodes: map<nat, Node>, i: nat)
    requires g.Valid()
  {
    forall j, q :: j in nodes && j != i && ValidPath(Ptrs(g), q) ==>
             At(h, nodes[j].slots, q) == At(a, nodes[j].slots, q)
  }

  ghost predicate SameMarks(g: Geo, a: Img, h: Img) {
    && Layout(g, a) && Layout(g, h)
    && (forall b: nat :: Marked(g, h, b) == Marked(g, a, b))
    && (forall i: nat :: InodeMarked(g, h, i) == InodeMarked(g, a, i))
  }

  /** Writing a data block changes no mark and no inode record. */
  lemma DataWrite(g: Geo, a: Img, b: nat, buf: seq<byte>)
    requires Layout(g, a) && g.IsData(b) && |buf| == g.sb.blockSize
    ensures b < |a|
    ensures SameMarks(g, a, a[b := buf]) && SameRecords(g, a, a[b := buf], {})
  {
    WriteTouchesOneRole(g, a, b, buf);
    hide BlockUsed, InodeUsed, Rec, Layout, Geo.Valid;
  }

  /** Every pointer of every tree is as before, except that q0 of tree i leads to nb. */
  ghost predicate OneMore(g: Geo, a: Img, nodes: map<nat, Node>, h: Img, nodes': map<nat, Node>, i: nat, q0: Path,
                          nb: nat)
    requires g.Valid()
  {
    && nodes'.Keys == nodes.Keys
    && forall j, q :: j in nodes' && ValidPath(Ptrs(g), q) ==>
         At(h, nodes'[j].slots, q) == if j == i && q == q0 then nb else At(a, nodes[j].slots, q)
  }

  /** A tree that has grown by one block, allocated and owned by nobody, keeps the invariant. */
  lemma GraftInv(g: Geo, a: Img, h: Img, nodes: map<nat, Node>, i: nat, slots': seq<nat>, q0: Path, nb: nat)
    requires Inv(g, a, nodes) && i in nodes && |slots'| == 15 && SameMarks(g, a, h)
    requires Grafted(Ptrs(g), a, nodes[i].slots, h, slots', q0, nb) && OthersSame(g, a, h, nodes, i)
    requires nb != 0 && g.IsData(nb) && Marked(g, a, nb) && Unowned(g, a, nodes, {nb})
    requires DirsClosed(g, h, nodes[i := nodes[i].(slots := slots')])
    ensures Inv(g, h, nodes[i := nodes[i].(slots := slots')])
  {
    var nodes' := nodes[i := nodes[i].(slots := slots')];
    hide At, Marked, InodeMarked, Geo.Valid, Sized, DescMatches, DirsClosed, Owned, Apart, Unowned;
    assert OneMore(g, a, nodes, h, nodes', i, q0, nb);
    hide OneMore, Grafted, OthersSame;
    GraftOwned(g, a, h, nodes, nodes', i, q0, nb);
    GraftApart(g, a, h, nodes, nodes', i, q0, nb);
  }

  lemma GraftOwned(g: Geo, a: Img, h: Img, nodes: map<nat, Node>, nodes': map<nat, Node>, i: nat, q0: Path, nb: nat)
    requires SameMarks(g, a, h) && Owned(g, a, nodes) && OneMore(g, a, nodes, h, nodes', i, q0, nb)
    requires g.IsData(nb) && Marked(g, a, nb)
    ensures Owned(g, h, nodes')
  {
    hide At, Marked, InodeMarked, Geo.Valid, Sized, DescMatches;
  }

  lemma GraftApart(g: Geo, a: Img, h: Img, nodes: map<nat, Node>, nodes': map<nat, Node>, i: nat, q0: Path, nb: nat)
    requires g.Valid() && Apart(g, a, nodes) && OneMore(g, a, nodes, h, nodes', i, q0, nb)
    requires nb != 0 && Unowned(g, a, nodes, {nb})
    ensures Apart(g, h, nodes')
  {
    hide At, Geo.Valid;
  }

  /** Directory blocks that are as they were stay closed, provided the graft is not one of them. */
  lemma GraftDirs(g: Geo, a: Img, h: Img, nodes: map<nat, Node>, i: nat, slots': seq<nat>, q0: Path, nb: nat)
    requires Inv(g, a, nodes) && i in nodes
    requires Grafted(Ptrs(g), a, nodes[i].slots, h, slots', q0, nb) && OthersSame(g, a, h, nodes, i)
    requires forall x: nat :: x < nodes[i].dirBlocks && x < Capacity(Ptrs(g)) ==> LeafPath(Ptrs(g), x) != q0
    requires forall j, q :: j in nodes && ValidPath(Ptrs(g), q) && Height(q) == 0 && At(a, nodes[j].slots, q) != 0 ==>
               BlockOf(h, At(a, nodes[j].slots, q)) == BlockOf(a, At(a, nodes[j].slots, q))
    ensures DirsClosed(g, h, nodes[i := nodes[i].(slots := slots')])
  {
    var nodes' := nodes[i := nodes[i].(slots := slots')];
    assert nodes'.Keys == nodes.Keys;
    forall j, x: nat | j in nodes' && x < nodes'[j].dirBlocks && Leaf(h, nodes'[j].slots, Ptrs(g), x) != 0
      ensures DirBlockOk(BlockOf(h, Leaf(h, nodes'[j].slots, Ptrs(g), x)), nodes.Keys)
    {
      hide At, Layout, DirBlockOk, Owned, Apart, MetaMarked, InodesMarked, LeafPath, BlockOf;
      LeafPathOfIndex(Ptrs(g), x);
      assert Leaf(a, nodes[j].slots, Ptrs(g), x) == Leaf(h, nodes'[j].slots, Ptrs(g), x);
    }
  }

  /** Writing a block that one tree holds as a leaf leaves every pointer where it was. */
  lemma LeafWriteTrees(g: Geo, a: Img, nodes: map<nat, Node>, i: nat, q: Path, buf: seq<byte>, j: nat, r: Path)
    requires Inv(g, a, nodes) && i in nodes && j in nodes
    requires ValidPath(Ptrs(g), q) && Height(q) == 0 && At(a, nodes[i].slots, q) != 0
    requires ValidPath(Ptrs(g), r)
    ensures At(a, nodes[i].slots, q) < |a|
    ensures At(a[At(a, nodes[i].slots, q) := buf], nodes[j].slots, r) == At(a, nodes[j].slots, r)
  {
    hide At, Inv, Geo.Valid;
    InvValid(g, a, nodes);
    OwnedData(g, a, nodes, i, q);
    LeafIsNotInner(g, a, nodes, i, q, buf, j);
    AtUnchanged(Ptrs(g), a, a[At(a, nodes[i].slots, q) := buf], nodes[j].slots, r);
  }

  lemma LeafIsNotInner(g: Geo, a: Img, nodes: map<nat, Node>, i: nat, q: Path, buf: seq<byte>, j: nat)
    requires Inv(g, a, nodes) && i in nodes && j in nodes
    requires ValidPath(Ptrs(g), q) && Height(q) == 0 && 0 < At(a, nodes[i].slots, q) < |a|
    ensures SamePointers(Ptrs(g), a, a[At(a, nodes[i].slots, q) := buf], nodes[j].slots)
  {
    hide At, Inv, Geo.Valid;
    InvValid(g, a, nodes);
    forall u | ValidPath(Ptrs(g), u) && Height(u) > 0 && 0 < At(a, nodes[j].slots, u) < |a|
      ensures At(a, nodes[j].slots, u) != At(a, nodes[i].slots, q)
    {
      if At(a, nodes[j].slots, u) == At(a, nodes[i].slots, q) { OneOwner(g, a, nodes, i, q, j, u); }
    }
  }

  ghost predicate SameTrees(g: Geo, a: Img, h: Img, nodes: map<nat, Node>)
    requires g.Valid()
  {
    forall j, r :: j in nodes && ValidPath(Ptrs(g), r) ==> At(h, nodes[j].slots, r) == At(a, nodes[j].slots, r)
  }

  lemma SameTreesInv(g: Geo, a: Img, h: Img, nodes: map<nat, Node>)
    requires Inv(g, a, nodes) && SameMarks(g, a, h) && SameTrees(g, a, h, nodes) && DirsClosed(g, h, nodes)
    ensures Inv(g, h, nodes)
  {
    hide At, Marked, InodeMarked, DescMatches, Geo.Valid, DirsClosed;
    assert Owned(g, h, nodes);
    assert Apart(g, h, nodes);
  }

  /** Rewriting a leaf block keeps the invariant; a block of directory entries must stay well formed. */
  lemma LeafWriteInv(g: Geo, a: Img, nodes: map<nat, Node>, i: nat, x: nat, buf: seq<byte>)
    requires Inv(g, a, nodes) && i in nodes && |buf| == g.sb.blockSize
    requires Leaf(a, nodes[i].slots, Ptrs(g), x) != 0
    requires x < nodes[i].dirBlocks ==> DirBlockOk(buf, nodes.Keys)
    ensures g.IsData(Leaf(a, nodes[i].slots, Ptrs(g), x)) && Leaf(a, nodes[i].slots, Ptrs(g), x) < |a|
    ensures var h := a[Leaf(a, nodes[i].slots, Ptrs(g), x) := buf];
            && Inv(g, h, nodes) && SameMarks(g, a, h) && SameRecords(g, a, h, {}) && SameTrees(g, a, h, nodes)
            && forall j :: j in nodes && j != i ==> Intact(g, a, h, nodes[j])
  {
    var q := LeafPath(Ptrs(g), x);
    LeafPathOfIndex(Ptrs(g), x);
    var b := At(a, nodes[i].slots, q);
    hide At, Marked, InodeMarked, DescMatches, Geo.Valid, LeafPath, DirBlockOk, DirsClosed, MetaMarked, InodesMarked,
         Apart;
    LeafWriteTrees(g, a, nodes, i, q, buf, i, q);
    assert g.IsData(b);
    DataWrite(g, a, b, buf);
    var h := a[b := buf];
    forall j, r | j in nodes && ValidPath(Ptrs(g), r) ensures At(h, nodes[j].slots, r) == At(a, nodes[j].slots, r) {
      LeafWriteTrees(g, a, nodes, i, q, buf, j, r);
    }
    LeafWriteDirs(g, a, nodes, i, x, buf);
    SameTreesInv(g, a, h, nodes);
    LeafWriteIntact(g, a, nodes, i, q, buf);
  }

  lemma LeafWriteIntact(g: Geo, a: Img, nodes: map<nat, Node>, i: nat, q: Path, buf: seq<byte>)
    requires Inv(g, a, nodes) && i in nodes && ValidPath(Ptrs(g), q)
    requires 0 < At(a, nodes[i].slots, q) < |a|
    requires SameTrees(g, a, a[At(a, nodes[i].slots, q) := buf], nodes)
    ensures forall j :: j in nodes && j != i ==> Intact(g, a, a[At(a, nodes[i].slots, q) := buf], nodes[j])
  {
    hide At, Layout, MetaMarked, InodesMarked, Owned, DirsClosed;
  }

  lemma LeafWriteDirs(g: Geo, a: Img, nodes: map<nat, Node>, i: nat, x: nat, buf: seq<byte>)
    requires Inv(g, a, nodes) && i in nodes
    requires 0 < Leaf(a, nodes[i].slots, Ptrs(g), x) < |a|
    requires SameTrees(g, a, a[Leaf(a, nodes[i].slots, Ptrs(g), x) := buf], nodes)
    requires x < nodes[i].dirBlocks ==> DirBlockOk(buf, nodes.Keys)
    ensures DirsClosed(g, a[Leaf(a, nodes[i].slots, Ptrs(g), x) := buf], nodes)
  {
    hide At, Inv, Geo.Valid, DirBlockOk, LeafPath, BlockOf;
    InvValid(g, a, nodes);
    var b := Leaf(a, nodes[i].slots, Ptrs(g), x);
    var h := a[b := buf];
    forall j, y: nat | j in nodes && y < nodes[j].dirBlocks && Leaf(h, nodes[j].slots, Ptrs(g), y) != 0
      ensures DirBlockOk(BlockOf(h, Leaf(h, nodes[j].slots, Ptrs(g), y)), nodes.Keys)
    {
      LeafPathOfIndex(Ptrs(g), y);
      assert Leaf(h, nodes[j].slots, Ptrs(g), y) == Leaf(a, nodes[j].slots, Ptrs(g), y);
      DirBlockClosed(g, a, nodes, j, y);
      WrittenBlock(a, b, buf, Leaf(a, nodes[j].slots, Ptrs(g), y));
      if Leaf(a, nodes[j].slots, Ptrs(g), y) == b { OneLeaf(g, a, nodes, i, x, j, y); }
    }
  }

  lemma WrittenBlock(a: Img, b: nat, buf: seq<byte>, c: nat)
    requires b < |a|
    ensures BlockOf(a[b := buf], c) == if c == b then buf else BlockOf(a, c)
  {
  }

  lemma OneLeaf(g: Geo, a: Img, nodes: map<nat, Node>, i: nat, x: nat, j: nat, y: nat)
    requires Inv(g, a, nodes) && i in nodes && j in nodes
    requires Leaf(a, nodes[i].slots, Ptrs(g), x) != 0
             && Leaf(a, nodes[i].slots, Ptrs(g), x) == Leaf(a, nodes[j].slots, Ptrs(g), y)
    ensures i == j && x == y
  {
    hide At, Inv, Geo.Valid, LeafPath;
    InvValid(g, a, nodes);
    LeafPathOfIndex(Ptrs(g), x);
    LeafPathOfIndex(Ptrs(g), y);
    OneOwner(g, a, nodes, i, LeafPath(Ptrs(g), x), j, LeafPath(Ptrs(g), y));
    LeafPathInjective(Ptrs(g), x, y);
  }

  // Linking a fresh block into a tree

  /** q is not the place of one of the node's blocks of directory entries. */
  ghost predicate NotDirLeaf(g: Geo, node: Node, q: Path)
    requires g.Valid()
  {
    forall x: nat :: x < node.dirBlocks && x < Capacity(Ptrs(g)) ==> LeafPath(Ptrs(g), x) != q
  }

  /** A zeroed data block, marked used, that no tree of the set reaches. */
  ghost predicate Fresh(g: Geo, img: Img, nodes: map<nat, Node>, nb: nat)
    requires g.Valid() && Sized(g, img)
  {
    && nb != 0 && g.IsData(nb) && Marked(g, img, nb) && Unowned(g, img, nodes, {nb})
    && forall i :: 0 <= i < |BlockOf(img, nb)| ==> BlockOf(img, nb)[i] == 0
  }

  lemma LinkSlot(g: Geo, a: Img, nodes: map<nat, Node>, i: nat, s: nat, nb: nat)
    requires Inv(g, a, nodes) && i in nodes && s < 15 && nodes[i].slots[s] == 0 && Fresh(g, a, nodes, nb)
    requires NotDirLeaf(g, nodes[i], Slot(s))
    ensures Inv(g, a, nodes[i := nodes[i].(slots := nodes[i].slots[s := nb])])
    ensures Grafted(Ptrs(g), a, nodes[i].slots, a, nodes[i].slots[s := nb], Slot(s), nb)
  {
    var slots := nodes[i].slots;
    LinkSlotTrees(g, a, nodes, i, s, nb);
    hide At, Marked, InodeMarked, DescMatches, Geo.Valid, MetaMarked, Owned, Apart, DirsClosed, LeafPath, Unowned,
         Grafted, ValidPath, Height;
    assert OthersSame(g, a, a, nodes, i);
    GraftDirs(g, a, a, nodes, i, slots[s := nb], Slot(s), nb);
    GraftInv(g, a, a, nodes, i, slots[s := nb], Slot(s), nb);
  }

  lemma LinkSlotTrees(g: Geo, a: Img, nodes: map<nat, Node>, i: nat, s: nat, nb: nat)
    requires Layout(g, a) && i in nodes && s < 15 == |nodes[i].slots| && nodes[i].slots[s] == 0
             && Fresh(g, a, nodes, nb)
    ensures Grafted(Ptrs(g), a, nodes[i].slots, a, nodes[i].slots[s := nb], Slot(s), nb)
  {
    var slots := nodes[i].slots;
    DataInRange(g, a, nb);
    hide At, Marked, DescMatches, Geo.Valid, Unowned;
    forall q | ValidPath(Ptrs(g), q) ensures At(a, slots[s := nb], q) == if q == Slot(s) then nb else At(a, slots, q) {
      FillSlot(Ptrs(g), a, slots, s, nb, q);
    }
  }

  /** The write of pointer nb into entry k of the pointer block at u, seen from every tree. */
  lemma LinkEntryTrees(g: Geo, a: Img, nodes: map<nat, Node>, i: nat, u: Path, k: nat, nb: nat)
    requires Inv(g, a, nodes) && i in nodes && ValidPath(Ptrs(g), Sub(u, k)) && Fresh(g, a, nodes, nb)
    requires 0 < At(a, nodes[i].slots, u) < |a| && Entry(a, At(a, nodes[i].slots, u), k) == 0
    requires 4 * k + 4 <= |a[At(a, nodes[i].slots, u)]| && nb < 0x1_0000_0000
    ensures var h := WithEntry(a, At(a, nodes[i].slots, u), k, nb);
            && Grafted(Ptrs(g), a, nodes[i].slots, h, nodes[i].slots, Sub(u, k), nb)
            && OthersSame(g, a, h, nodes, i)
  {
    hide At, Inv, Geo.Valid, WithEntry, Entry, Fresh, OnlyAt, Height;
    var c := At(a, nodes[i].slots, u);
    InvValid(g, a, nodes);
    LinkEntryApart(g, a, nodes, i, u, k, nb);
    forall q | ValidPath(Ptrs(g), q)
      ensures At(WithEntry(a, c, k, nb), nodes[i].slots, q)
              == if q == Sub(u, k) then nb else At(a, nodes[i].slots, q)
    {
      FillEntry(Ptrs(g), a, nodes[i].slots, u, c, k, nb, q);
    }
    forall j, q | j in nodes && j != i && ValidPath(Ptrs(g), q)
      ensures At(WithEntry(a, c, k, nb), nodes[j].slots, q) == At(a, nodes[j].slots, q)
    {
      EntryElsewhere(Ptrs(g), a, nodes[j].slots, c, k, nb, q);
    }
  }

  lemma LinkEntryApart(g: Geo, a: Img, nodes: map<nat, Node>, i: nat, u: Path, k: nat, nb: nat)
    requires Inv(g, a, nodes) && i in nodes && ValidPath(Ptrs(g), Sub(u, k)) && Fresh(g, a, nodes, nb)
    requires At(a, nodes[i].slots, u) != 0
    ensures OnlyAt(Ptrs(g), a, nodes[i].slots, At(a, nodes[i].slots, u), u)
    ensures nb != At(a, nodes[i].slots, u) && 0 < nb < |a| && forall x :: 0 <= x < |a[nb]| ==> a[nb][x] == 0
    ensures forall j, r :: j in nodes && j != i && ValidPath(Ptrs(g), r) && At(a, nodes[j].slots, r) != 0 ==>
              At(a, nodes[j].slots, r) != At(a, nodes[i].slots, u)
  {
    hide At, Marked, InodeMarked, DescMatches, Geo.Valid, Inv;
    InvValid(g, a, nodes);
    DataInRange(g, a, nb);
    forall j, r | j in nodes && ValidPath(Ptrs(g), r) && At(a, nodes[j].slots, r) != 0
           && At(a, nodes[j].slots, r) == At(a, nodes[i].slots, u)
      ensures j == i && r == u
    {
      OneOwner(g, a, nodes, i, u, j, r);
    }
  }

  lemma LinkEntry(g: Geo, a: Img, nodes: map<nat, Node>, i: nat, u: Path, k: nat, nb: nat)
    requires Inv(g, a, nodes) && i in nodes && ValidPath(Ptrs(g), Sub(u, k)) && Fresh(g, a, nodes, nb)
    requires 0 < At(a, nodes[i].slots, u) < |a| && Entry(a, At(a, nodes[i].slots, u), k) == 0
    requires 4 * k + 4 <= |a[At(a, nodes[i].slots, u)]| && nb < 0x1_0000_0000
    requires NotDirLeaf(g, nodes[i], Sub(u, k))
    ensures var h := WithEntry(a, At(a, nodes[i].slots, u), k, nb);
            && Inv(g, h, nodes) && SameMarks(g, a, h) && SameRecords(g, a, h, {})
            && Grafted(Ptrs(g), a, nodes[i].slots, h, nodes[i].slots, Sub(u, k), nb)
            && OthersSame(g, a, h, nodes, i)
  {
    hide At, Inv, Geo.Valid, DescMatches, Unowned, LeafPath, Grafted, OthersSame, NotDirLeaf, WithEntry, Marked,
         BlockOf, SameMarks, SameRecords, Entry, DirsClosed;
    var c := At(a, nodes[i].slots, u);
    var h := WithEntry(a, c, k, nb);
    InvValid(g, a, nodes);
    LinkEntryTrees(g, a, nodes, i, u, k, nb);
    OwnedData(g, a, nodes, i, u);
    EntryIsWrite(a, c, k, nb);
    DataWrite(g, a, c, SetField(a[c], 4 * k, 4, nb));
    LinkEntryLeaves(g, a, nodes, i, u, k, nb);
    LinkEntryDirs(g, a, nodes, i, u, k, nb);
    var nodes' := nodes[i := nodes[i].(slots := nodes[i].slots)];
    assert nodes' == nodes;
    GraftInv(g, a, h, nodes, i, nodes[i].slots, Sub(u, k), nb);
  }

  lemma EntryIsWrite(a: Img, c: nat, k: nat, v: nat)
    requires c < |a| && 4 * k + 4 <= |a[c]|
    ensures WithEntry(a, c, k, v) == a[c := SetField(a[c], 4 * k, 4, v)]
  {
  }

  /** A pointer block is nobody's leaf. */
  lemma LinkEntryLeaves(g: Geo, a: Img, nodes: map<nat, Node>, i: nat, u: Path, k: nat, nb: nat)
    requires Inv(g, a, nodes) && i in nodes && ValidPath(Ptrs(g), Sub(u, k))
    requires 0 < At(a, nodes[i].slots, u) < |a| && 4 * k + 4 <= |a[At(a, nodes[i].slots, u)]|
    ensures forall j, q ::
              j in nodes && ValidPath(Ptrs(g), q) && (j != i || Height(q) == 0) && At(a, nodes[j].slots, q) != 0 ==>
              BlockOf(WithEntry(a, At(a, nodes[i].slots, u), k, nb), At(a, nodes[j].slots, q))
              == BlockOf(a, At(a, nodes[j].slots, q))
  {
    hide At, WithEntry, Layout, MetaMarked, InodesMarked, Owned, DirsClosed;
  }

  lemma LinkEntryDirs(g: Geo, a: Img, nodes: map<nat, Node>, i: nat, u: Path, k: nat, nb: nat)
    requires Inv(g, a, nodes) && i in nodes && ValidPath(Ptrs(g), Sub(u, k))
    requires 0 < At(a, nodes[i].slots, u) < |a| && 4 * k + 4 <= |a[At(a, nodes[i].slots, u)]|
    requires NotDirLeaf(g, nodes[i], Sub(u, k))
    requires var h := WithEntry(a, At(a, nodes[i].slots, u), k, nb);
             && Grafted(Ptrs(g), a, nodes[i].slots, h, nodes[i].slots, Sub(u, k), nb)
             && OthersSame(g, a, h, nodes, i)
    ensures DirsClosed(g, WithEntry(a, At(a, nodes[i].slots, u), k, nb), nodes[i := nodes[i].(slots := nodes[i].slots)])
  {
    var h := WithEntry(a, At(a, nodes[i].slots, u), k, nb);
    LinkEntryLeaves(g, a, nodes, i, u, k, nb);
    hide At, WithEntry, Inv, Grafted, OthersSame, LeafPath, BlockOf;
    GraftDirs(g, a, h, nodes, i, nodes[i].slots, Sub(u, k), nb);
  }

  // Changes to the set of nodes

  /** Every slot of the smaller list is empty or as in the larger. */
  ghost predicate Within(small: seq<nat>, large: seq<nat>) {
    |small| == |large| && forall s :: 0 <= s < |small| ==> small[s] == 0 || small[s] == large[s]
  }

  lemma {:induction false} WithinAt(img: Img, small: seq<nat>, large: seq<nat>, q: Path)
    requires Within(small, large)
    ensures At(img, small, q) == 0 || At(img, small, q) == At(img, large, q)
  {
    if q.Sub? { WithinAt(img, small, large, q.up); }
  }

  /** Each tree of nodes' is part of the tree of the same inode in nodes. */
  ghost predicate Subtrees(g: Geo, img: Img, nodes': map<nat, Node>, nodes: map<nat, Node>)
    requires g.Valid()
  {
    && nodes'.Keys <= nodes.Keys
    && forall j, q :: j in nodes' && ValidPath(Ptrs(g), q) ==>
         At(img, nodes'[j].slots, q) == 0 || At(img, nodes'[j].slots, q) == At(img, nodes[j].slots, q)
  }

  lemma SubtreesInv(g: Geo, img: Img, nodes': map<nat, Node>, nodes: map<nat, Node>)
    requires Inv(g, img, nodes) && Subtrees(g, img, nodes', nodes)
    requires ROOT_INO in nodes' && forall i :: i in nodes' ==> |nodes'[i].slots| == 15
    requires DirsClosed(g, img, nodes')
    ensures Inv(g, img, nodes')
  {
    hide At, Marked, InodeMarked, DescMatches, Geo.Valid, DirsClosed, Sized;
    assert Owned(g, img, nodes');
    assert Apart(g, img, nodes');
  }

  /** The on-disk record of a file being written has fewer pointers than the one in memory, never others. */
  lemma ShrinkNode(g: Geo, img: Img, nodes: map<nat, Node>, i: nat, slots: seq<nat>)
    requires Inv(g, img, nodes) && i in nodes && Within(slots, nodes[i].slots)
    ensures Inv(g, img, nodes[i := nodes[i].(slots := slots)])
  {
    var nodes' := nodes[i := nodes[i].(slots := slots)];
    assert nodes'.Keys == nodes.Keys;
    hide At, Marked, InodeMarked, DescMatches, Geo.Valid, Owned, Apart, LeafPath, DirBlockOk;
    forall q | ValidPath(Ptrs(g), q)
      ensures At(img, slots, q) == 0 || At(img, slots, q) == At(img, nodes[i].slots, q)
    {
      WithinAt(img, slots, nodes[i].slots, q);
    }
    assert Subtrees(g, img, nodes', nodes);
    forall j, x: nat | j in nodes' && x < nodes'[j].dirBlocks && Leaf(img, nodes'[j].slots, Ptrs(g), x) != 0
      ensures DirBlockOk(BlockOf(img, Leaf(img, nodes'[j].slots, Ptrs(g), x)), nodes.Keys)
    {
      LeafPathOfIndex(Ptrs(g), x);
      assert Leaf(img, nodes'[j].slots, Ptrs(g), x) == Leaf(img, nodes[j].slots, Ptrs(g), x);
    }
    SubtreesInv(g, img, nodes', nodes);
  }

  /** No directory of the set, other than i itself, names i. */
  ghost predicate Unnamed(g: Geo, img: Img, nodes: map<nat, Node>, i: nat)
    requires g.Valid()
  {
    forall j, x: nat, e ::
      (j in nodes && j != i && x < nodes[j].dirBlocks && Leaf(img, nodes[j].slots, Ptrs(g), x) != 0
       && e in Scan(BlockOf(img, Leaf(img, nodes[j].slots, Ptrs(g), x)), 0)) ==> e.ino != i
  }

  /** An inode no directory names any more leaves the set. */
  lemma DropNode(g: Geo, img: Img, nodes: map<nat, Node>, i: nat)
    requires Inv(g, img, nodes) && i != ROOT_INO && Unnamed(g, img, nodes, i)
    ensures Inv(g, img, nodes - {i})
  {
    hide At, Marked, InodeMarked, DescMatches, Geo.Valid, Owned, Apart, Leaf, Scan, Tiled;
    assert DirsClosed(g, img, nodes - {i});
    SubtreesInv(g, img, nodes - {i}, nodes);
  }

  lemma {:induction false} EmptyTree(img: Img, q: Path)
    ensures At(img, NoSlots(), q) == 0
  {
    if q.Sub? { EmptyTree(img, q.up); }
  }

  /** A newly allocated inode that owns nothing joins the set. */
  lemma AddNode(g: Geo, img: Img, nodes: map<nat, Node>, i: nat)
    requires Inv(g, img, nodes) && i !in nodes && InodeMarked(g, img, i)
    ensures Inv(g, img, nodes[i := Node(NoSlots(), 0)])
  {
    var nodes' := nodes[i := Node(NoSlots(), 0)];
    hide At, Marked, InodeMarked, DescMatches, Geo.Valid, Leaf, Scan, Tiled, NoSlots;
    forall q ensures At(img, NoSlots(), q) == 0 { EmptyTree(img, q); }
    assert Owned(g, img, nodes');
    assert Apart(g, img, nodes');
    assert DirsClosed(g, img, nodes');
  }

  /** A directory whose entry blocks are all well formed may count n of them. */
  lemma SetDirBlocks(g: Geo, img: Img, nodes: map<nat, Node>, i: nat, n: nat)
    requires Inv(g, img, nodes) && i in nodes
    requires forall x: nat :: x < n && Leaf(img, nodes[i].slots, Ptrs(g), x) != 0 ==>
               DirBlockOk(BlockOf(img, Leaf(img, nodes[i].slots, Ptrs(g), x)), nodes.Keys)
    ensures Inv(g, img, nodes[i := nodes[i].(dirBlocks := n)])
  {
    var nodes' := nodes[i := nodes[i].(dirBlocks := n)];
    assert nodes'.Keys == nodes.Keys;
    hide At, Marked, InodeMarked, DescMatches, Geo.Valid, Owned, Apart, Leaf, DirBlockOk;
    assert DirsClosed(g, img, nodes');
    assert Subtrees(g, img, nodes', nodes);
    SubtreesInv(g, img, nodes', nodes);
  }

  /** A tree of one direct block. */
  lemma {:induction false} OneBlockTree(p: nat, img: Img, b: nat, q: Path)
    requires ValidPath(p, q)
    ensures At(img, NoSlots()[0 := b], q) == if q == Slot(0) then b else 0
  {
    if q.Sub? { OneBlockTree(p, img, b, q.up); }
  }

  lemma OneBlockApart(g: Geo, img: Img, nodes: map<nat, Node>, i: nat, b: nat)
    requires Inv(g, img, nodes) && i !in nodes
    requires g.IsData(b) && Marked(g, img, b) && b != 0 && Unowned(g, img, nodes, {b})
    ensures var nodes' := nodes[i := Node(NoSlots()[0 := b], 1)];
            Owned(g, img, nodes') && Apart(g, img, nodes')
  {
    hide At, Marked, MetaMarked, InodesMarked, DescMatches, Geo.Valid, DirsClosed, NoSlots, Sized;
    var slots := NoSlots()[0 := b];
    forall q | ValidPath(Ptrs(g), q) ensures At(img, slots, q) == if q == Slot(0) then b else 0 {
      OneBlockTree(Ptrs(g), img, b, q);
    }
    forall j, q | j in nodes && ValidPath(Ptrs(g), q) ensures At(img, nodes[j].slots, q) != b { assert b in {b} - {0}; }
  }

  /** A newly allocated directory whose one block is written joins the set. */
  lemma AddDirNode(g: Geo, img: Img, nodes: map<nat, Node>, i: nat, b: nat)
    requires Inv(g, img, nodes) && i !in nodes && InodeMarked(g, img, i)
    requires g.IsData(b) && Marked(g, img, b) && b != 0 && Unowned(g, img, nodes, {b})
    requires DirBlockOk(BlockOf(img, b), nodes.Keys + {i})
    ensures Inv(g, img, nodes[i := Node(NoSlots()[0 := b], 1)])
  {
    OneBlockApart(g, img, nodes, i, b);
    var slots := NoSlots()[0 := b];
    var nodes' := nodes[i := Node(slots, 1)];
    assert nodes'.Keys == nodes.Keys + {i};
    forall j, x: nat | j in nodes' && x < nodes'[j].dirBlocks && Leaf(img, nodes'[j].slots, Ptrs(g), x) != 0
      ensures DirBlockOk(BlockOf(img, Leaf(img, nodes'[j].slots, Ptrs(g), x)), nodes'.Keys)
    {
      hide At, Marked, InodeMarked, DescMatches, Geo.Valid, NoSlots, Owned, Apart, MetaMarked, Scan, Tiled;
      if j == i { assert Leaf(img, slots, Ptrs(g), 0) == b by { FirstLeaf(Ptrs(g), img, b); } }
    }
    hide At, Marked, InodeMarked, DescMatches, Geo.Valid, NoSlots, Owned, Apart, MetaMarked, Scan, Tiled;
  }

  lemma FirstLeaf(p: nat, img: Img, b: nat)
    requires p > 0
    ensures Leaf(img, NoSlots()[0 := b], p, 0) == b
  {
    OneBlockTree(p, img, b, Slot(0));
  }
}
