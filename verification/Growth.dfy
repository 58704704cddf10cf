/** A file being written: its record in memory runs ahead of the one on disk, its tree only grows,
    and every image on the way is a consistent volume in which no other file has changed. */
module Growth {
  import opened Bytes
  import opened Geometry
  import opened Inode
  import opened Image
  import opened Tree
  import opened DirBlock
  import opened Consistency
  import opened Counters
  import opened Volume
  import opened Listing

  /** The disk's own record of inode j, as a node. */
  ghost function DiskNode(g: Geo, img: Img, j: nat): (n: Node)
    requires g.Valid() && Sized(g, img) && g.sb.HasInode(j)
    ensures |n.slots| == 15
  {
    NodeOf(g, Rec(g, img, j))
  }

  /** The nodes are the disk's own, except that inode i may have pointers its record does not have yet. */
  ghost predicate Ahead(g: Geo, img: Img, nodes: map<nat, Node>, i: nat) {
    && Layout(g, img)
    && i in nodes
    && (forall j :: j in nodes ==> g.sb.HasInode(j))
    && (forall j :: j in nodes && j != i ==> nodes[j] == DiskNode(g, img, j))
    && DiskNode(g, img, i).dirBlocks == nodes[i].dirBlocks
    && Within(DiskNode(g, img, i).slots, nodes[i].slots)
  }

  ghost predicate OthersOnDisk(g: Geo, img: Img, nodes: map<nat, Node>, i: nat) {
    && Layout(g, img)
    && i in nodes
    && (forall j :: j in nodes ==> g.sb.HasInode(j))
    && (forall j :: j in nodes && j != i ==> nodes[j] == DiskNode(g, img, j))
  }

  /** So the image itself is consistent, whatever the record in memory holds. */
  lemma AheadIsSafe(g: Geo, img: Img, nodes: map<nat, Node>, i: nat)
    requires Inv(g, img, nodes) && Ahead(g, img, nodes, i)
    ensures DiskInv(g, img, nodes.Keys)
  {
    hide Inv, Geo.Valid, DescMatches, Within, NodeOf, Rec;
    var d := DiskNode(g, img, i);
    ShrinkNode(g, img, nodes, i, d.slots);
    assert nodes[i := nodes[i].(slots := d.slots)] == DiskNodes(g, img, nodes.Keys);
  }

  /** One crash image of a write to inode i: consistent, and no other file of the set has changed. */
  ghost predicate StepOk(g: Geo, a: Img, h: Img, nodes: map<nat, Node>, i: nat) {
    && DiskInv(g, h, nodes.Keys)
    && SameRecords(g, a, h, {i})
    && forall j :: j in nodes && j != i ==> Intact(g, a, h, nodes[j])
  }

  ghost predicate SafeSince(g: Geo, a: Img, h0: seq<Img>, h1: seq<Img>, nodes: map<nat, Node>, i: nat) {
    h0 <= h1 && forall k :: |h0| <= k < |h1| ==> StepOk(g, a, h1[k], nodes, i)
  }

  lemma IntactTransitive(g: Geo, a: Img, b: Img, c: Img, node: Node)
    requires g.Valid() && Intact(g, a, b, node) && Intact(g, b, c, node)
    ensures Intact(g, a, c, node)
  {
    hide At, Geo.Valid;
  }

  ghost predicate SameOthers(n1: map<nat, Node>, n2: map<nat, Node>, i: nat) {
    n1.Keys == n2.Keys && forall j :: j in n1 && j != i ==> n1[j] == n2[j]
  }

  lemma StepOkTransitive(g: Geo, a: Img, b: Img, c: Img, nodes: map<nat, Node>, nodes': map<nat, Node>, i: nat)
    requires StepOk(g, a, b, nodes, i) && StepOk(g, b, c, nodes', i) && SameOthers(nodes, nodes', i)
    ensures StepOk(g, a, c, nodes, i)
  {
    hide Intact, DiskInv, Geo.Valid, Sized, DescMatches, Rec;
    forall j | j in nodes && j != i ensures Intact(g, a, c, nodes[j]) {
      IntactTransitive(g, a, b, c, nodes[j]);
    }
  }

  lemma SafeSinceTransitive(g: Geo, a: Img, b: Img, h0: seq<Img>, h1: seq<Img>, h2: seq<Img>,
                            nodes: map<nat, Node>, nodes': map<nat, Node>, i: nat)
    requires SafeSince(g, a, h0, h1, nodes, i) && SafeSince(g, b, h1, h2, nodes', i)
    requires StepOk(g, a, b, nodes, i) && SameOthers(nodes, nodes', i)
    ensures SafeSince(g, a, h0, h2, nodes, i)
  {
    hide StepOk, SameOthers;
    forall k | |h0| <= k < |h2| ensures StepOk(g, a, h2[k], nodes, i) {
      if k >= |h1| { StepOkTransitive(g, a, b, h2[k], nodes, nodes', i); } else { assert h2[k] == h1[k]; }
    }
  }

  lemma SafeSinceSnoc(g: Geo, a: Img, h: Img, h0: seq<Img>, h1: seq<Img>, nodes: map<nat, Node>, i: nat)
    requires SafeSince(g, a, h0, h1, nodes, i) && StepOk(g, a, h, nodes, i)
    ensures SafeSince(g, a, h0, h1 + [h], nodes, i)
  {
    hide StepOk;
  }

  /** A step that does not show: no record changed, and a directory lists what it listed. */
  ghost predicate Quiet(g: Geo, a: Img, h: Img, nodes: map<nat, Node>, i: nat) {
    && StepOk(g, a, h, nodes, i) && g.sb.HasInode(i)
    && SameRecords(g, a, h, {})
    && DirListing(g, h, DiskNode(g, h, i)) == DirListing(g, a, DiskNode(g, a, i))
  }

  ghost predicate QuietSince(g: Geo, a: Img, h0: seq<Img>, h1: seq<Img>, nodes: map<nat, Node>, i: nat) {
    h0 <= h1 && forall k :: |h0| <= k < |h1| ==> Quiet(g, a, h1[k], nodes, i)
  }

  lemma QuietTransitive(g: Geo, a: Img, b: Img, c: Img, nodes: map<nat, Node>, nodes': map<nat, Node>, i: nat)
    requires Quiet(g, a, b, nodes, i) && Quiet(g, b, c, nodes', i) && SameOthers(nodes, nodes', i)
    ensures Quiet(g, a, c, nodes, i)
  {
    hide StepOk, Geo.Valid, Sized, DescMatches, Rec, DirListing, DiskNode, SameOthers;
    StepOkTransitive(g, a, b, c, nodes, nodes', i);
  }

  lemma QuietSinceTransitive(g: Geo, a: Img, b: Img, h0: seq<Img>, h1: seq<Img>, h2: seq<Img>,
                             nodes: map<nat, Node>, nodes': map<nat, Node>, i: nat)
    requires QuietSince(g, a, h0, h1, nodes, i) && QuietSince(g, b, h1, h2, nodes', i)
    requires Quiet(g, a, b, nodes, i) && SameOthers(nodes, nodes', i)
    ensures QuietSince(g, a, h0, h2, nodes, i)
  {
    hide Quiet, SameOthers;
    forall k | |h0| <= k < |h2| ensures Quiet(g, a, h2[k], nodes, i) {
      if k >= |h1| { QuietTransitive(g, a, b, h2[k], nodes, nodes', i); } else { assert h2[k] == h1[k]; }
    }
  }

  lemma QuietSinceSnoc(g: Geo, a: Img, h: Img, h0: seq<Img>, h1: seq<Img>, nodes: map<nat, Node>, i: nat)
    requires QuietSince(g, a, h0, h1, nodes, i) && Quiet(g, a, h, nodes, i)
    ensures QuietSince(g, a, h0, h1 + [h], nodes, i)
  {
    hide Quiet;
  }

  lemma QuietIsSafe(g: Geo, a: Img, h0: seq<Img>, h1: seq<Img>, nodes: map<nat, Node>, i: nat)
    requires QuietSince(g, a, h0, h1, nodes, i)
    ensures SafeSince(g, a, h0, h1, nodes, i)
    ensures forall h :: Quiet(g, a, h, nodes, i) ==> StepOk(g, a, h, nodes, i)
  {
    hide StepOk, SameRecords, DirListing;
  }

  /** All images but the last show the directory as it was; the last one is the disk. */
  ghost predicate CommitsLast(g: Geo, a: Img, h0: seq<Img>, h1: seq<Img>, d: Img, nodes: map<nat, Node>, i: nat) {
    |h0| < |h1| && h1[|h1| - 1] == d && QuietSince(g, a, h0, h1[..|h1| - 1], nodes, i) && StepOk(g, a, d, nodes, i)
  }

  lemma CommitsLastSafe(g: Geo, a: Img, h0: seq<Img>, h1: seq<Img>, d: Img, nodes: map<nat, Node>, i: nat)
    requires CommitsLast(g, a, h0, h1, d, nodes, i)
    ensures SafeSince(g, a, h0, h1, nodes, i)
  {
    hide StepOk, Quiet;
    QuietIsSafe(g, a, h0, h1[..|h1| - 1], nodes, i);
    SafeSinceSnoc(g, a, h1[|h1| - 1], h0, h1[..|h1| - 1], nodes, i);
    assert h1 == h1[..|h1| - 1] + [h1[|h1| - 1]];
  }

  /** An inode without directory blocks lists nothing, so a step that changes no record does not show. */
  lemma FileIsQuiet(g: Geo, a: Img, h: Img, nodes: map<nat, Node>, i: nat)
    requires StepOk(g, a, h, nodes, i) && SameRecords(g, a, h, {}) && g.sb.HasInode(i)
             && DiskNode(g, a, i).dirBlocks == 0
    ensures Quiet(g, a, h, nodes, i)
  {
    hide StepOk, Geo.Valid, DescMatches, Rec, NodeOf;
  }

  /** A step that keeps the tree on disk, and the record, is quiet. */
  lemma IntactIsQuiet(g: Geo, a: Img, h: Img, nodes: map<nat, Node>, i: nat)
    requires StepOk(g, a, h, nodes, i) && SameRecords(g, a, h, {}) && g.sb.HasInode(i)
    requires Intact(g, a, h, DiskNode(g, a, i))
    ensures Quiet(g, a, h, nodes, i)
  {
    hide StepOk, Intact, Geo.Valid, DescMatches, Rec, DirListing, NodeOf;
    IntactListing(g, a, h, DiskNode(g, a, i));
  }

  /** An image that keeps everything in use is such a step. */
  lemma KeepsIsStep(g: Geo, a: Img, h: Img, nodes: map<nat, Node>, i: nat)
    requires Inv(g, a, nodes) && Ahead(g, a, nodes, i) && Keeps(g, a, h, {}, {}) && SameRecords(g, a, h, {})
    ensures Inv(g, h, nodes) && Ahead(g, h, nodes, i) && Quiet(g, a, h, nodes, i)
    ensures forall j :: j in nodes ==> Intact(g, a, h, nodes[j])
  {
    KeepsIsSafe(g, a, h, nodes, i);
    hide Inv, Keeps, Intact, NodeOf, StepOk, DirListing, Geo.Valid, DescMatches;
    AheadIsSafe(g, a, nodes, i);
    var disk := DiskNodes(g, a, nodes.Keys);
    NothingOwned(g, a, disk);
    KeepsIntact(g, a, h, disk, {}, {});
    assert disk[i] == DiskNode(g, a, i);
    IntactIsQuiet(g, a, h, nodes, i);
  }

  lemma KeepsIsSafe(g: Geo, a: Img, h: Img, nodes: map<nat, Node>, i: nat)
    requires Inv(g, a, nodes) && Ahead(g, a, nodes, i) && Keeps(g, a, h, {}, {}) && SameRecords(g, a, h, {})
    ensures Inv(g, h, nodes) && Ahead(g, h, nodes, i) && StepOk(g, a, h, nodes, i)
    ensures forall j :: j in nodes ==> Intact(g, a, h, nodes[j])
  {
    hide Inv, Keeps, Intact, Rec, NodeOf, Within;
    InvValid(g, a, nodes);
    assert Unowned(g, a, nodes, {});
    KeepsInv(g, a, h, nodes, {}, {});
    KeepsIntact(g, a, h, nodes, {}, {});
    assert Ahead(g, h, nodes, i);
    AheadIsSafe(g, h, nodes, i);
  }

  lemma KeptIsQuiet(g: Geo, a: Img, h0: seq<Img>, h1: seq<Img>, nodes: map<nat, Node>, i: nat)
    requires Inv(g, a, nodes) && Ahead(g, a, nodes, i) && KeptSince(g, a, h0, h1, {}, {})
    ensures QuietSince(g, a, h0, h1, nodes, i)
  {
    hide Inv, Ahead, Keeps, SameRecords, Quiet;
    forall k | |h0| <= k < |h1| ensures Quiet(g, a, h1[k], nodes, i) {
      KeepsIsStep(g, a, h1[k], nodes, i);
    }
  }

  // Growth of one tree

  /** q is the target pointer or one on the way to it. */
  predicate OnPath(q: Path, target: Path) {
    q == target || (target.Sub? && OnPath(q, target.up))
  }

  /** From (a, s) to (h, s') only empty pointers on the way to the target may have been filled; every
      leaf block is as it was, and a new leaf is zeroed. */
  ghost predicate Grown(p: nat, a: Img, s: seq<nat>, h: Img, s': seq<nat>, target: Path) {
    && (forall q :: ValidPath(p, q) && (At(a, s, q) != 0 || !OnPath(q, target)) ==> At(h, s', q) == At(a, s, q))
    && (forall q :: ValidPath(p, q) && Height(q) == 0 && At(a, s, q) != 0 ==>
          BlockOf(h, At(a, s, q)) == BlockOf(a, At(a, s, q)))
    && (At(a, s, target) == 0 && At(h, s', target) != 0 ==> AllZero(BlockOf(h, At(h, s', target))))
  }

  ghost predicate AllZero(buf: seq<byte>) {
    forall x :: 0 <= x < |buf| ==> buf[x] == 0
  }

  lemma GrownTransitive(p: nat, a: Img, sa: seq<nat>, b: Img, sb: seq<nat>, c: Img, sc: seq<nat>, target: Path)
    requires Grown(p, a, sa, b, sb, target) && Grown(p, b, sb, c, sc, target)
    requires ValidPath(p, target) && Height(target) == 0
    ensures Grown(p, a, sa, c, sc, target)
  {
    hide At, OnPath;
  }

  lemma IntactGrown(g: Geo, a: Img, h: Img, node: Node, target: Path)
    requires g.Valid() && Intact(g, a, h, node) && ValidPath(Ptrs(g), target)
    ensures Grown(Ptrs(g), a, node.slots, h, node.slots, target)
  {
    hide At, OnPath, Geo.Valid;
  }

  /** In every image since h0 the tree of s was that of a, or grown towards the target. */
  ghost predicate GrownSince(p: nat, a: Img, h0: seq<Img>, h1: seq<Img>, s: seq<nat>, target: Path) {
    h0 <= h1 && forall k :: |h0| <= k < |h1| ==> Grown(p, a, s, h1[k], s, target)
  }

  lemma {:induction false} SameRoot(a: Img, h: Img, small: seq<nat>, large: seq<nat>, q: Path)
    requires Within(small, large) && At(a, small, q) != 0
    ensures At(h, small, q) == At(h, large, q)
  {
    if q.Sub? { SameRoot(a, h, small, large, q.up); }
  }

  /** Growth seen from the slots it began with. */
  lemma GrownRestricted(p: nat, a: Img, s: seq<nat>, h: Img, s': seq<nat>, target: Path)
    requires Grown(p, a, s, h, s', target) && Within(s, s') && ValidPath(p, target) && Height(target) == 0
    ensures Grown(p, a, s, h, s, target)
  {
    hide At, OnPath, Within, BlockOf, AllZero;
    forall q | ValidPath(p, q) && (At(a, s, q) != 0 || !OnPath(q, target)) ensures At(h, s, q) == At(a, s, q) {
      WithinAt(h, s, s', q);
      if At(a, s, q) != 0 { SameRoot(a, h, s, s', q); }
    }
    WithinAt(h, s, s', target);
  }

  lemma GrownWithin(p: nat, a: Img, s: seq<nat>, h: Img, s': seq<nat>, target: Path)
    requires Grown(p, a, s, h, s', target) && |s| == |s'| == 15
    ensures Within(s, s')
  {
    hide OnPath;
    forall k | 0 <= k < 15 && s[k] != 0 ensures s'[k] == s[k] {
      assert ValidPath(p, Slot(k)) && At(a, s, Slot(k)) == s[k] && At(h, s', Slot(k)) == s'[k];
    }
  }

  lemma GrownSinceAppend(p: nat, a: Img, s: seq<nat>, b: Img, s': seq<nat>, h0: seq<Img>, h1: seq<Img>, h2: seq<Img>,
                         target: Path)
    requires GrownSince(p, a, h0, h1, s, target) && Grown(p, a, s, b, s', target)
             && GrownSince(p, b, h1, h2, s', target)
    requires Within(s, s') && ValidPath(p, target) && Height(target) == 0
    ensures GrownSince(p, a, h0, h2, s, target)
  {
    hide Grown, Within, OnPath;
    forall k | |h0| <= k < |h2| ensures Grown(p, a, s, h2[k], s, target) {
      if k >= |h1| {
        GrownTransitive(p, a, s, b, s', h2[k], s', target);
        GrownRestricted(p, a, s, h2[k], s', target);
      }
    }
  }

  lemma GrownSinceSnoc(p: nat, a: Img, h0: seq<Img>, h1: seq<Img>, s: seq<nat>, target: Path, h: Img)
    requires GrownSince(p, a, h0, h1, s, target) && Grown(p, a, s, h, s, target)
    ensures GrownSince(p, a, h0, h1 + [h], s, target)
  {
    hide Grown;
  }

  lemma KeptIsGrown(g: Geo, a: Img, h0: seq<Img>, h1: seq<Img>, nodes: map<nat, Node>, i: nat, target: Path)
    requires Inv(g, a, nodes) && i in nodes && KeptSince(g, a, h0, h1, {}, {}) && ValidPath(Ptrs(g), target)
    ensures GrownSince(Ptrs(g), a, h0, h1, nodes[i].slots, target)
  {
    hide Inv, Keeps, SameRecords, Grown, Intact, Unowned, Geo.Valid;
    NothingOwned(g, a, nodes);
    forall k | |h0| <= k < |h1| ensures Grown(Ptrs(g), a, nodes[i].slots, h1[k], nodes[i].slots, target) {
      KeepsIntact(g, a, h1[k], nodes, {}, {});
      IntactGrown(g, a, h1[k], nodes[i], target);
    }
  }

  // The three steps of growth: allocate, fill an inode slot, fill an entry of a pointer block

  lemma AllocStep(g: Geo, a: Img, h: Img, nodes: map<nat, Node>, i: nat, b: nat)
    requires Inv(g, a, nodes) && Ahead(g, a, nodes, i) && BlockAllocated(g, a, h, b)
    ensures Inv(g, h, nodes) && Ahead(g, h, nodes, i) && Quiet(g, a, h, nodes, i)
    ensures forall j :: j in nodes ==> Intact(g, a, h, nodes[j])
    ensures b != 0 ==> Fresh(g, h, nodes, b)
  {
    hide Inv, Ahead, Quiet, Intact, SameRecords, Keeps, Marked, InodeMarked, Geo.Valid, DescMatches;
    InvValid(g, a, nodes);
    ChangedKeeps(g, a, h, {b}, {}, {}, {});
    KeepsIsStep(g, a, h, nodes, i);
    AllocUnowned(g, a, h, nodes, b);
  }

  lemma AllocUnowned(g: Geo, a: Img, h: Img, nodes: map<nat, Node>, b: nat)
    requires Inv(g, a, nodes) && BlockAllocated(g, a, h, b) && forall j :: j in nodes ==> Intact(g, a, h, nodes[j])
    ensures Unowned(g, h, nodes, {b})
  {
    hide At, Marked, MetaMarked, InodesMarked, Apart, DirsClosed, Geo.Valid, DescMatches, Sized, SameRecords;
  }

  /** The nodes with slot s of inode i filled. */
  ghost function WithSlot(nodes: map<nat, Node>, i: nat, s: nat, nb: nat): (m: map<nat, Node>)
    requires i in nodes && s < |nodes[i].slots|
    ensures SameOthers(nodes, m, i) && m[i] == nodes[i].(slots := nodes[i].slots[s := nb])
  {
    nodes[i := nodes[i].(slots := nodes[i].slots[s := nb])]
  }

  lemma SlotStep(g: Geo, a: Img, nodes: map<nat, Node>, i: nat, s: nat, nb: nat, target: Path)
    requires Layout(g, a) && i in nodes && s < 15 == |nodes[i].slots| && nodes[i].slots[s] == 0
    requires Inv(g, a, nodes) && Ahead(g, a, nodes, i) && Fresh(g, a, nodes, nb)
    requires NotDirLeaf(g, nodes[i], Slot(s)) && OnPath(Slot(s), target) && ValidPath(Ptrs(g), target)
    ensures Inv(g, a, WithSlot(nodes, i, s, nb)) && Ahead(g, a, WithSlot(nodes, i, s, nb), i)
    ensures Grown(Ptrs(g), a, nodes[i].slots, a, nodes[i].slots[s := nb], target)
  {
    hide Inv, At, Geo.Valid, DescMatches, Rec, NodeOf, Marked, Unowned, OnPath, NotDirLeaf;
    LinkSlot(g, a, nodes, i, s, nb);
    SlotEmpty(a, nodes[i].slots, s);
  }

  lemma SlotEmpty(a: Img, slots: seq<nat>, s: nat)
    requires s < |slots|
    ensures At(a, slots, Slot(s)) == slots[s]
  {
  }

  lemma EntryStep(g: Geo, a: Img, nodes: map<nat, Node>, i: nat, u: Path, k: nat, nb: nat, target: Path)
    requires Inv(g, a, nodes) && Ahead(g, a, nodes, i) && Fresh(g, a, nodes, nb) && nb < 0x1_0000_0000
    requires ValidPath(Ptrs(g), Sub(u, k)) && 0 < At(a, nodes[i].slots, u) < |a|
    requires 4 * k + 4 <= |a[At(a, nodes[i].slots, u)]| && Entry(a, At(a, nodes[i].slots, u), k) == 0
    requires NotDirLeaf(g, nodes[i], Sub(u, k)) && OnPath(Sub(u, k), target) && ValidPath(Ptrs(g), target)
    ensures var h := WithEntry(a, At(a, nodes[i].slots, u), k, nb);
            && Inv(g, h, nodes) && Ahead(g, h, nodes, i) && Quiet(g, a, h, nodes, i)
            && Grown(Ptrs(g), a, nodes[i].slots, h, nodes[i].slots, target)
            && At(h, nodes[i].slots, Sub(u, k)) == nb
  {
    hide Inv, Geo.Valid, DescMatches, Rec, NodeOf, Marked, InodeMarked, Unowned, OnPath, NotDirLeaf, Entry, WithEntry,
         Within, Intact, At;
    var h := WithEntry(a, At(a, nodes[i].slots, u), k, nb);
    LinkEntry(g, a, nodes, i, u, k, nb);
    LinkEntryLeaves(g, a, nodes, i, u, k, nb);
    assert Ahead(g, h, nodes, i);
    AheadIsSafe(g, h, nodes, i);
    EntryIntact(g, a, h, nodes, i);
    EntryGrown(g, a, nodes, i, u, k, nb, target);
    EntryQuiet(g, a, nodes, i, u, k, nb);
  }

  /** The tree on disk, which may lack pointers the one in memory has, sees the new entry or nothing. */
  lemma {:induction false} EntryOnDisk(p: nat, a: Img, s: seq<nat>, S: seq<nat>, u: Path, c: nat, k: nat, nb: u32,
                                       q: Path)
    requires Within(s, S) && ValidPath(p, u) && ValidPath(p, q) && q != Sub(u, k)
    requires At(a, S, u) == c && 0 < c < |a| && 4 * k + 4 <= |a[c]| && Entry(a, c, k) == 0 && OnlyAt(p, a, S, c, u)
    requires 0 < nb < |a| && nb != c && forall i :: 0 <= i < |a[nb]| ==> a[nb][i] == 0
    requires At(WithEntry(a, c, k, nb), S, Sub(u, k)) == nb
    ensures At(WithEntry(a, c, k, nb), s, q) == At(a, s, q)
  {
    hide WithEntry;
    var h := WithEntry(a, c, k, nb);
    if q.Sub? {
      if q.up == Sub(u, k) {
        WithinAt(a, s, S, q.up);
        WithinAt(h, s, S, q.up);
        SubAt(a, S, u, k);
        ZeroEntries(h, nb, q.k);
      } else {
        EntryOnDisk(p, a, s, S, u, c, k, nb, q.up);
        WithinAt(a, s, S, q.up);
        WithEntryReads(a, c, k, nb, At(a, s, q.up), q.k);
      }
    }
  }

  lemma EntryQuiet(g: Geo, a: Img, nodes: map<nat, Node>, i: nat, u: Path, k: nat, nb: nat)
    requires Inv(g, a, nodes) && Ahead(g, a, nodes, i) && Fresh(g, a, nodes, nb) && nb < 0x1_0000_0000
    requires ValidPath(Ptrs(g), Sub(u, k)) && 0 < At(a, nodes[i].slots, u) < |a|
    requires 4 * k + 4 <= |a[At(a, nodes[i].slots, u)]| && Entry(a, At(a, nodes[i].slots, u), k) == 0
    requires NotDirLeaf(g, nodes[i], Sub(u, k))
    requires var h := WithEntry(a, At(a, nodes[i].slots, u), k, nb);
             At(h, nodes[i].slots, Sub(u, k)) == nb && SameRecords(g, a, h, {})
    ensures var h := WithEntry(a, At(a, nodes[i].slots, u), k, nb);
            DirListing(g, h, DiskNode(g, h, i)) == DirListing(g, a, DiskNode(g, a, i))
  {
    hide Inv, Geo.Valid, DescMatches, Rec, NodeOf, Marked, InodeMarked, Unowned, Entry, WithEntry, At, Scan, LeafPath;
    var S, c := nodes[i].slots, At(a, nodes[i].slots, u);
    var h, d := WithEntry(a, c, k, nb), DiskNode(g, a, i);
    assert DiskNode(g, h, i) == d;
    LinkEntryApart(g, a, nodes, i, u, k, nb);
    LinkEntryLeaves(g, a, nodes, i, u, k, nb);
    forall x: nat | x < d.dirBlocks
      ensures BlockListing(h, d.slots, Ptrs(g), x) == BlockListing(a, d.slots, Ptrs(g), x)
    {
      if x < Capacity(Ptrs(g)) {
        var q := LeafPath(Ptrs(g), x);
        LeafPathOfIndex(Ptrs(g), x);
        EntryOnDisk(Ptrs(g), a, d.slots, S, u, c, k, nb, q);
        WithinAt(a, d.slots, S, q);
      }
    }
    EntriesSame(a, d.slots, h, d.slots, Ptrs(g), 0, d.dirBlocks);
  }

  lemma EntryIntact(g: Geo, a: Img, h: Img, nodes: map<nat, Node>, i: nat)
    requires g.Valid() && OthersSame(g, a, h, nodes, i)
    requires forall j, q ::
               j in nodes && ValidPath(Ptrs(g), q) && (j != i || Height(q) == 0) && At(a, nodes[j].slots, q) != 0 ==>
               BlockOf(h, At(a, nodes[j].slots, q)) == BlockOf(a, At(a, nodes[j].slots, q))
    ensures forall j :: j in nodes && j != i ==> Intact(g, a, h, nodes[j])
  {
    hide At, Geo.Valid, BlockOf;
  }

  lemma EntryGrown(g: Geo, a: Img, nodes: map<nat, Node>, i: nat, u: Path, k: nat, nb: nat, target: Path)
    requires Inv(g, a, nodes) && i in nodes && Fresh(g, a, nodes, nb)
    requires ValidPath(Ptrs(g), Sub(u, k)) && 0 < At(a, nodes[i].slots, u) < |a|
    requires 4 * k + 4 <= |a[At(a, nodes[i].slots, u)]| && Entry(a, At(a, nodes[i].slots, u), k) == 0
    requires OnPath(Sub(u, k), target) && ValidPath(Ptrs(g), target)
    requires var h := WithEntry(a, At(a, nodes[i].slots, u), k, nb);
             && Grafted(Ptrs(g), a, nodes[i].slots, h, nodes[i].slots, Sub(u, k), nb)
             && (forall j, q ::
                   j in nodes && ValidPath(Ptrs(g), q) && (j != i || Height(q) == 0)
                   && At(a, nodes[j].slots, q) != 0 ==>
                   BlockOf(h, At(a, nodes[j].slots, q)) == BlockOf(a, At(a, nodes[j].slots, q)))
    ensures Grown(Ptrs(g), a, nodes[i].slots, WithEntry(a, At(a, nodes[i].slots, u), k, nb), nodes[i].slots, target)
    ensures At(WithEntry(a, At(a, nodes[i].slots, u), k, nb), nodes[i].slots, Sub(u, k)) == nb
  {
    hide Inv, Geo.Valid, DescMatches, Marked, Unowned, OnPath, Entry, At, WithEntry;
    var h := WithEntry(a, At(a, nodes[i].slots, u), k, nb);
    SubAt(a, nodes[i].slots, u, k);
    LinkEntryApart(g, a, nodes, i, u, k, nb);
    assert BlockOf(h, nb) == BlockOf(a, nb);
  }

  lemma SubAt(a: Img, slots: seq<nat>, u: Path, k: nat)
    ensures At(a, slots, Sub(u, k)) == if At(a, slots, u) == 0 then 0 else Entry(a, At(a, slots, u), k)
  {
  }

  /** Rewriting a leaf block of inode i that holds no directory entries, or well-formed ones. */
  lemma LeafStep(g: Geo, a: Img, nodes: map<nat, Node>, i: nat, x: nat, buf: seq<byte>)
    requires Inv(g, a, nodes) && Ahead(g, a, nodes, i) && |buf| == g.sb.blockSize
    requires Leaf(a, nodes[i].slots, Ptrs(g), x) != 0
    requires x < nodes[i].dirBlocks ==> DirBlockOk(buf, nodes.Keys)
    ensures Leaf(a, nodes[i].slots, Ptrs(g), x) < |a|
    ensures var h := a[Leaf(a, nodes[i].slots, Ptrs(g), x) := buf];
            && Inv(g, h, nodes) && Ahead(g, h, nodes, i) && StepOk(g, a, h, nodes, i)
            && SameTrees(g, a, h, nodes) && SameRecords(g, a, h, {}) && (CountersOk(g, a) ==> CountersOk(g, h))
            && Dirs(g, h) == Dirs(g, a)
  {
    hide Dirs, Inv, Geo.Valid, DescMatches, Rec, NodeOf, Within, Intact, SameMarks, SameTrees, DirBlockOk, Leaf,
         CountersOk, SameCounters;
    var b := Leaf(a, nodes[i].slots, Ptrs(g), x);
    LeafWriteInv(g, a, nodes, i, x, buf);
    var h := a[b := buf];
    assert Ahead(g, h, nodes, i);
    AheadIsSafe(g, h, nodes, i);
    LeafCounters(g, a, b, buf);
  }

  lemma LeafCounters(g: Geo, a: Img, b: nat, buf: seq<byte>)
    requires Layout(g, a) && g.IsData(b) && b < |a| && |buf| == g.sb.blockSize
    ensures Sized(g, a[b := buf]) && (CountersOk(g, a) ==> CountersOk(g, a[b := buf]))
    ensures Dirs(g, a[b := buf]) == Dirs(g, a)
  {
    hide CountersOk;
    DataDirs(g, a, b, buf);
    ContentWriteKeepsCounters(g, a, b, buf);
    SameCountersKeep(g, a, a[b := buf]);
  }

  /** Writing back inode i's record, once it says what the nodes say of i. */
  lemma RecordStep(g: Geo, a: Img, h: Img, nodes: map<nat, Node>, i: nat, raw: RawInode)
    requires Inv(g, a, nodes) && OthersOnDisk(g, a, nodes, i) && RecordWritten(g, a, h, i, raw) && raw.Valid()
    requires g.sb.blockSize > 0 && NodeOf(g, raw) == nodes[i]
    ensures Inv(g, h, nodes) && StepOk(g, a, h, nodes, i) && DiskNodes(g, h, nodes.Keys) == nodes
    ensures Ahead(g, h, nodes, i) && OthersOnDisk(g, h, nodes, i)
    ensures CountersOk(g, a) ==> CountersOk(g, h)
    ensures Intact(g, a, h, nodes[i])
  {
    hide Inv, Geo.Valid, DescMatches, Rec, NodeOf, Within, Intact, Marked, InodeMarked, CountersOk, SameCounters;
    RecordKeeps(g, a, h, i, raw);
    assert Unowned(g, a, nodes, {}) by { hide *; NothingOwned(g, a, nodes); }
    KeepsInv(g, a, h, nodes, {}, {});
    KeepsIntact(g, a, h, nodes, {}, {});
    assert DiskNodes(g, h, nodes.Keys) == nodes;
    SelfWithin(nodes[i].slots);
    SameCountersKeep(g, a, h);
  }

  lemma SelfWithin(s: seq<nat>)
    ensures Within(s, s)
  {
  }

  lemma NothingOwned(g: Geo, a: Img, nodes: map<nat, Node>)
    requires Inv(g, a, nodes)
    ensures g.Valid() && Unowned(g, a, nodes, {})
  {
    hide At, Owned, Apart, DirsClosed, MetaMarked, InodesMarked;
  }

  lemma RecordKeeps(g: Geo, a: Img, h: Img, i: nat, raw: RawInode)
    requires RecordWritten(g, a, h, i, raw)
    ensures Keeps(g, a, h, {}, {})
  {
    hide Marked, InodeMarked, Geo.Valid, DescMatches, Rec, SameCounters;
  }
}
