/** File data: mapping a file block index to a block, reading, allocating on demand, and byte-range
    reads and writes. */
module Files {
  import opened Bytes
  import opened Geometry
  import opened Inode
  import opened Image
  import opened Tree
  import opened Consistency
  import opened Counters
  import opened Volume
  import opened Growth
  import opened Listing

  function Pointer(b: nat): Option<nat> {
    if b == 0 then None else Some(b)
  }

  /** No pointer of the tree that has to be followed lies outside the volume. */
  ghost predicate PointersInRange(g: Geo, img: Img, slots: seq<nat>)
    requires g.Valid()
  {
    forall u :: ValidPath(Ptrs(g), u) && Height(u) > 0 ==> At(img, slots, u) < |img|
  }

  /** Entry `index` of a pointer block. */
  method ReadBlockPtr(core: Ext2Core, block: nat, index: nat) returns (r: Result<Option<nat>>)
    requires core.Ready() && index < Ptrs(core.geo)
    ensures r == if block < core.sb.blocksCount then Ok(Pointer(Entry(core.disk, block, index))) else Err(Io)
  {
    hide DescMatches;
    var buf :- core.BlockVec(block);
    var b := Field(buf, 4 * index, 4);
    return Ok(if b == 0 then None else Some(b));
  }

  /** The read-only lookup: direct, single-, double- and triple-indirect. */
  method BlockForIndex(core: Ext2Core, raw: RawInode, index: nat) returns (r: Result<Option<nat>>)
    requires core.Ready() && raw.Valid()
    ensures r.Ok? ==> r.value == Pointer(Leaf(core.disk, Slots(raw), Ptrs(core.geo), index))
    ensures r.Err? ==> r.error == Io && !PointersInRange(core.geo, core.disk, Slots(raw))
  {
    hide Geo.Valid, DescMatches, At, Entry, Slots, DoubleCap;
    ghost var slots, p, disk := Slots(raw), Ptrs(core.geo), core.disk;
    forall s | 0 <= s < 15 ensures At(disk, slots, Slot(s)) == raw.IBlock(s) { SlotEmpty(disk, slots, s); }
    if index < 12 {
      return Ok(Pointer(raw.IBlock(index)));
    }
    var ptrs := core.sb.blockSize / 4;
    var indirect := index - 12;
    if indirect < ptrs {
      var c := raw.IBlock(12);
      SubAt(disk, slots, Slot(12), indirect);
      if c == 0 {
        return Ok(None);
      }
      r := ReadBlockPtr(core, c, indirect);
      return;
    }
    var dbl := indirect - ptrs;
    var dblCap := DoubleCap(ptrs);
    if dbl < dblCap {
      r := DoubleLookup(core, raw.IBlock(13), dbl, raw);
      return;
    }
    var tpl := dbl - dblCap;
    if tpl < TripleCap(ptrs) {
      r := TripleLookup(core, raw.IBlock(14), tpl, raw);
      return;
    }
    return Ok(None);
  }

  method DoubleLookup(core: Ext2Core, dblBlock: nat, dbl: nat, ghost raw: RawInode) returns (r: Result<Option<nat>>)
    requires core.Ready() && raw.Valid() && dblBlock == raw.IBlock(13) && dbl < DoubleCap(Ptrs(core.geo))
    ensures r.Ok? ==> r.value == Pointer(At(core.disk, Slots(raw), DoublePath(Ptrs(core.geo), dbl)))
    ensures r.Err? ==> r.error == Io && !PointersInRange(core.geo, core.disk, Slots(raw))
  {
    hide Geo.Valid, DescMatches, At, Entry, Slots, DoubleCap;
    ghost var slots, p, disk := Slots(raw), Ptrs(core.geo), core.disk;
    var ptrs := core.sb.blockSize / 4;
    SlotEmpty(disk, slots, 13);
    DoublePathValid(p, dbl);
    var first, second := dbl / ptrs, dbl % ptrs;
    SubAt(disk, slots, Slot(13), first);
    SubAt(disk, slots, Sub(Slot(13), first), second);
    if dblBlock == 0 {
      return Ok(None);
    }
    var level1 :- ReadBlockPtr(core, dblBlock, first);
    if level1.None? {
      return Ok(None);
    }
    r := ReadBlockPtr(core, level1.value, second);
  }

  method TripleLookup(core: Ext2Core, tplBlock: nat, tpl: nat, ghost raw: RawInode) returns (r: Result<Option<nat>>)
    requires core.Ready() && raw.Valid() && tplBlock == raw.IBlock(14)
    requires tpl < TripleCap(Ptrs(core.geo))
    ensures r.Ok? ==> r.value == Pointer(At(core.disk, Slots(raw), TriplePath(Ptrs(core.geo), tpl)))
    ensures r.Err? ==> r.error == Io && !PointersInRange(core.geo, core.disk, Slots(raw))
  {
    hide Geo.Valid, DescMatches, At, Entry, Slots, DoubleCap;
    ghost var slots, p, disk := Slots(raw), Ptrs(core.geo), core.disk;
    var ptrs := core.sb.blockSize / 4;
    var dblCap := DoubleCap(ptrs);
    SlotEmpty(disk, slots, 14);
    TriplePathValid(p, tpl);
    var first, rem := tpl / dblCap, tpl % dblCap;
    var second, third := rem / ptrs, rem % ptrs;
    ghost var u1 := Sub(Slot(14), first);
    ghost var u2 := Sub(u1, second);
    assert TriplePath(p, tpl) == Sub(u2, third) && ValidPath(p, u2) && ValidPath(p, u1) && Height(u1) == 2
           && Height(u2) == 1;
    SubAt(disk, slots, Slot(14), first);
    SubAt(disk, slots, u1, second);
    SubAt(disk, slots, u2, third);
    if tplBlock == 0 {
      return Ok(None);
    }
    var level1 :- ReadBlockPtr(core, tplBlock, first);
    if level1.None? {
      return Ok(None);
    }
    var level2 :- ReadBlockPtr(core, level1.value, second);
    if level2.None? {
      return Ok(None);
    }
    r := ReadBlockPtr(core, level2.value, third);
  }

  // Allocation on demand

  /** The volume is consistent with `nodes`, where inode i's record in memory may run ahead of its record on disk. */
  ghost predicate Writing(core: Ext2Core, nodes: map<nat, Node>, i: nat)
    reads core
  {
    core.Ready() && i in nodes && Inv(core.geo, core.disk, nodes) && Ahead(core.geo, core.disk, nodes, i)
  }

  /** A fresh zeroed block, or `NoSpace` and an untouched volume. */
  method AllocFresh(core: Ext2Core, ghost nodes: map<nat, Node>, ghost i: nat) returns (r: Result<nat>)
    requires Writing(core, nodes, i)
    modifies core
    ensures Writing(core, nodes, i)
    ensures r.Ok? ==>
              Fresh(core.geo, core.disk, nodes, r.value) && 0 < r.value < core.sb.blocksCount && r.value < 0x1_0000_0000
    ensures r.Ok? ==> !Marked(core.geo, old(core.disk), r.value)
    ensures r.Err? ==> r == Err(NoSpace) && core.disk == old(core.disk) && core.history == old(core.history)
    ensures r.Err? ==> RanOut(core.geo, old(core.disk), core.disk)
    ensures KeptSince(core.geo, old(core.disk), old(core.history), core.history, {}, {})
    ensures forall j :: j in nodes ==> Intact(core.geo, old(core.disk), core.disk, nodes[j])
    ensures Quiet(core.geo, old(core.disk), core.disk, nodes, i)
    ensures QuietSince(core.geo, old(core.disk), old(core.history), core.history, nodes, i)
    ensures CountersOk(core.geo, old(core.disk)) ==> CountersOk(core.geo, core.disk)
    ensures Dirs(core.geo, core.disk) == Dirs(core.geo, old(core.disk))
  {
    hide Dirs, Inv, Ahead, Geo.Valid, DescMatches, Quiet, Intact, Fresh, CountersOk, NoFreeBlock, KeptSince, Marked,
         MetaMarked;
    ghost var a := core.disk;
    InvValid(core.geo, a, nodes);
    var nb :- core.AllocBlock();
    KeptIsQuiet(core.geo, a, old(core.history), core.history, nodes, i);
    if nb.None? {
      SelfStep(core.geo, a, nodes, i);
      return Err(NoSpace);
    }
    AllocStep(core.geo, a, core.disk, nodes, i, nb.value);
    DataIsNotZero(core.geo, nb.value);
    DataInRange(core.geo, core.disk, nb.value);
    return Ok(nb.value);
  }

  lemma SelfStep(g: Geo, a: Img, nodes: map<nat, Node>, i: nat)
    requires Inv(g, a, nodes) && Ahead(g, a, nodes, i)
    ensures Quiet(g, a, a, nodes, i)
    ensures forall j :: j in nodes ==> Intact(g, a, a, nodes[j])
  {
    hide Inv, Geo.Valid, DescMatches, NodeOf, Rec, At, DirListing;
    AheadIsSafe(g, a, nodes, i);
  }

  /** A pointer block of a tree is a data block of the volume. */
  lemma ContainerInRange(g: Geo, a: Img, nodes: map<nat, Node>, i: nat, u: Path, k: nat)
    requires Inv(g, a, nodes) && i in nodes && ValidPath(Ptrs(g), Sub(u, k)) && At(a, nodes[i].slots, u) != 0
    ensures var c := At(a, nodes[i].slots, u);
            && g.IsData(c) && c < |a| && |a[c]| == g.sb.blockSize && k < Ptrs(g) && 4 * k + 4 <= |a[c]|
            && Entry(a, c, k) == Field(a[c], 4 * k, 4) && BlockOf(a, c) == a[c]
  {
    hide At, Marked, MetaMarked, InodesMarked, Apart, DirsClosed, Geo.Valid, DescMatches;
    assert g.IsData(At(a, nodes[i].slots, u));
    DataInRange(g, a, At(a, nodes[i].slots, u));
  }

  lemma ContainerKept(g: Geo, a: Img, b: Img, nodes: map<nat, Node>, i: nat, u: Path, k: nat)
    requires Inv(g, a, nodes) && Inv(g, b, nodes) && i in nodes && ValidPath(Ptrs(g), Sub(u, k))
    requires At(a, nodes[i].slots, u) != 0 && Intact(g, a, b, nodes[i])
    ensures var c := At(a, nodes[i].slots, u);
            At(b, nodes[i].slots, u) == c && c < |a| == |b| && b[c] == a[c] && Entry(b, c, k) == Entry(a, c, k)
  {
    hide Inv, Geo.Valid, At;
    ContainerInRange(g, a, nodes, i, u, k);
    assert At(b, nodes[i].slots, u) == At(a, nodes[i].slots, u);
    ContainerInRange(g, b, nodes, i, u, k);
    InvValid(g, a, nodes);
    InvValid(g, b, nodes);
  }

  lemma EntryWrite(g: Geo, b: Img, c: nat, k: nat, v: nat)
    requires Layout(g, b) && g.IsData(c) && c < |b| && 4 * k + 4 <= |b[c]|
    ensures WithEntry(b, c, k, v) == b[c := SetField(b[c], 4 * k, 4, v)]
    ensures Sized(g, WithEntry(b, c, k, v)) && (CountersOk(g, b) ==> CountersOk(g, WithEntry(b, c, k, v)))
    ensures Dirs(g, WithEntry(b, c, k, v)) == Dirs(g, b)
  {
    hide CountersOk, SetField;
    DataDirs(g, b, c, SetField(b[c], 4 * k, 4, v));
    ContentWriteKeepsCounters(g, b, c, SetField(b[c], 4 * k, 4, v));
    SameCountersKeep(g, b, WithEntry(b, c, k, v));
  }

  /** The pointer in entry `index` of a pointer block of inode i, allocated if it was empty. */
  method GetOrAllocPtr(core: Ext2Core, container: nat, index: nat, ghost nodes: map<nat, Node>, ghost i: nat,
                       ghost u: Path, ghost target: Path)
    returns (r: Result<nat>)
    requires Writing(core, nodes, i)
    requires ValidPath(Ptrs(core.geo), Sub(u, index)) && At(core.disk, nodes[i].slots, u) == container != 0
    requires OnPath(Sub(u, index), target) && ValidPath(Ptrs(core.geo), target) && Height(target) == 0
    requires NotDirLeaf(core.geo, nodes[i], Sub(u, index))
    modifies core
    ensures Writing(core, nodes, i)
    ensures r.Ok? ==> r.value != 0 && At(core.disk, nodes[i].slots, Sub(u, index)) == r.value
    ensures r.Err? ==> r == Err(NoSpace) && RanOut(core.geo, old(core.disk), core.disk)
    ensures Grown(Ptrs(core.geo), old(core.disk), nodes[i].slots, core.disk, nodes[i].slots, target)
    ensures GrownSince(Ptrs(core.geo), old(core.disk), old(core.history), core.history, nodes[i].slots, target)
    ensures Quiet(core.geo, old(core.disk), core.disk, nodes, i)
    ensures QuietSince(core.geo, old(core.disk), old(core.history), core.history, nodes, i)
    ensures CountersOk(core.geo, old(core.disk)) ==> CountersOk(core.geo, core.disk)
    ensures Dirs(core.geo, core.disk) == Dirs(core.geo, old(core.disk))
  {
    hide Dirs, Inv, Ahead, Geo.Valid, DescMatches, Quiet, Intact, Fresh, CountersOk, NoFreeBlock, Marked, At, Grown,
         ValidPath, OnPath, NotDirLeaf, WithEntry, Entry;
    ghost var a, slots := core.disk, nodes[i].slots;
    ContainerInRange(core.geo, a, nodes, i, u, index);
    SubAt(a, slots, u, index);
    var buf :- core.BlockVec(container);
    var existing := Field(buf, 4 * index, 4);
    if existing != 0 {
      SelfStep(core.geo, a, nodes, i);
      IntactGrown(core.geo, a, a, nodes[i], target);
      return Ok(existing);
    }
    var nb := AllocFresh(core, nodes, i);
    ghost var b, h1 := core.disk, core.history;
    KeptIsGrown(core.geo, a, old(core.history), h1, nodes, i, target);
    IntactGrown(core.geo, a, b, nodes[i], target);
    if nb.Err? {
      return nb;
    }
    ContainerKept(core.geo, a, b, nodes, i, u, index);
    ghost var h := WithEntry(b, container, index, nb.value);
    EntryStep(core.geo, b, nodes, i, u, index, nb.value, target);
    EntryWrite(core.geo, b, container, index, nb.value);
    var _ :- core.WriteBlock(container, SetField(buf, 4 * index, 4, nb.value));
    InvValid(core.geo, h, nodes);
    QuietTransitive(core.geo, a, b, h, nodes, nodes, i);
    GrownTransitive(Ptrs(core.geo), a, slots, b, slots, h, slots, target);
    GrownSinceSnoc(Ptrs(core.geo), a, old(core.history), h1, slots, target, h);
    return nb;
  }

  lemma OnPathUp(q: Path, u: Path, k: nat)
    requires q == u || OnPath(q, u)
    ensures OnPath(u, u) && OnPath(q, Sub(u, k))
  {
  }

  lemma InnerIsNotDirLeaf(g: Geo, node: Node, q: Path)
    requires g.Valid() && Height(q) > 0
    ensures NotDirLeaf(g, node, q)
  {
    hide LeafPath, Geo.Valid;
    forall x: nat | x < node.dirBlocks && x < Capacity(Ptrs(g)) ensures LeafPath(Ptrs(g), x) != q {
      LeafPathOfIndex(Ptrs(g), x);
    }
  }

  lemma LaterIsNotDirLeaf(g: Geo, node: Node, index: nat)
    requires g.Valid() && node.dirBlocks <= index < Capacity(Ptrs(g))
    ensures NotDirLeaf(g, node, LeafPath(Ptrs(g), index))
  {
    hide LeafPath, Geo.Valid;
    forall x: nat | x < node.dirBlocks && x < Capacity(Ptrs(g))
      ensures LeafPath(Ptrs(g), x) != LeafPath(Ptrs(g), index) {
      LeafPathInjective(Ptrs(g), x, index);
    }
  }

  /** The nodes with inode i's pointers taken from a record in memory. */
  ghost function WithRaw(nodes: map<nat, Node>, i: nat, raw: RawInode): (m: map<nat, Node>)
    requires i in nodes && raw.Valid()
    ensures m.Keys == nodes.Keys && SameOthers(nodes, m, i)
  {
    nodes[i := nodes[i].(slots := Slots(raw))]
  }

  /** What one allocate-on-demand call guarantees, whether or not it found space. */
  ghost predicate Advanced(g: Geo, a: Img, raw: RawInode, h: Img, raw': RawInode, nodes: map<nat, Node>, i: nat,
                           target: Path) {
    && g.Valid() && raw.Valid() && raw'.Valid() && |raw'.buf| == |raw.buf|
    && raw'.Mode() == raw.Mode() && raw'.Size() == raw.Size() && raw'.LinksCount() == raw.LinksCount()
    && Grown(Ptrs(g), a, Slots(raw), h, Slots(raw'), target)
    && Quiet(g, a, h, nodes, i)
  }

  /** The pointer in slot s of the record in memory, allocated if it was empty. */
  method GetOrAllocSlot(core: Ext2Core, raw: RawInode, s: nat, ghost nodes: map<nat, Node>, ghost i: nat,
                        ghost target: Path)
    returns (r: Result<nat>, raw': RawInode)
    requires Writing(core, nodes, i) && raw.Valid() && nodes[i].slots == Slots(raw) && s < 15
    requires OnPath(Slot(s), target) && ValidPath(Ptrs(core.geo), target) && Height(target) == 0
    requires NotDirLeaf(core.geo, nodes[i], Slot(s))
    modifies core
    ensures Advanced(core.geo, old(core.disk), raw, core.disk, raw', nodes, i, target)
    ensures raw'.Valid() && Writing(core, WithRaw(nodes, i, raw'), i)
    ensures r.Ok? ==> r.value != 0 && At(core.disk, Slots(raw'), Slot(s)) == r.value
    ensures r.Err? ==> r == Err(NoSpace) && RanOut(core.geo, old(core.disk), core.disk)
    ensures GrownSince(Ptrs(core.geo), old(core.disk), old(core.history), core.history, Slots(raw), target)
    ensures QuietSince(core.geo, old(core.disk), old(core.history), core.history, nodes, i)
    ensures CountersOk(core.geo, old(core.disk)) ==> CountersOk(core.geo, core.disk)
    ensures Dirs(core.geo, core.disk) == Dirs(core.geo, old(core.disk))
  {
    hide Dirs, Inv, Ahead, Geo.Valid, DescMatches, Quiet, Intact, Fresh, CountersOk, NoFreeBlock, Marked, At, Grown,
         ValidPath, OnPath, NotDirLeaf, RawInode.IBlock, RawInode.SetIBlock, RawInode.Mode, RawInode.Size,
         RawInode.LinksCount;
    ghost var a := core.disk;
    raw' := raw;
    assert WithRaw(nodes, i, raw) == nodes;
    SlotEmpty(a, Slots(raw), s);
    var b := raw.IBlock(s);
    if b != 0 {
      SelfStep(core.geo, a, nodes, i);
      IntactGrown(core.geo, a, a, nodes[i], target);
      return Ok(b), raw;
    }
    r := AllocFresh(core, nodes, i);
    KeptIsGrown(core.geo, a, old(core.history), core.history, nodes, i, target);
    IntactGrown(core.geo, a, core.disk, nodes[i], target);
    if r.Err? {
      return;
    }
    raw' := raw.SetIBlock(s, r.value);
    SetIBlockEffect(raw, s, r.value);
    assert Slots(raw') == Slots(raw)[s := r.value];
    SlotStep(core.geo, core.disk, nodes, i, s, r.value, target);
    SlotEmpty(core.disk, Slots(raw'), s);
    GrownTransitive(Ptrs(core.geo), a, Slots(raw), core.disk, Slots(raw), core.disk, Slots(raw'), target);
  }

  /** As GetOrAllocPtr, with the guarantees stated from the start of the enclosing call: its image a,
      its record raw and its history h0. */
  method NextPtr(core: Ext2Core, container: nat, index: nat, ghost nodes: map<nat, Node>, ghost i: nat, ghost u: Path,
                 ghost target: Path,
                 ghost a: Img, ghost raw: RawInode, ghost raw': RawInode, ghost h0: seq<Img>)
    returns (r: Result<nat>)
    requires i in nodes && Advanced(core.geo, a, raw, core.disk, raw', nodes, i, target)
             && Writing(core, WithRaw(nodes, i, raw'), i)
    requires QuietSince(core.geo, a, h0, core.history, nodes, i)
    requires GrownSince(Ptrs(core.geo), a, h0, core.history, Slots(raw), target)
    requires ValidPath(Ptrs(core.geo), Sub(u, index)) && At(core.disk, Slots(raw'), u) == container != 0
    requires OnPath(Sub(u, index), target) && ValidPath(Ptrs(core.geo), target) && Height(target) == 0
    requires NotDirLeaf(core.geo, nodes[i], Sub(u, index))
    modifies core
    ensures Advanced(core.geo, a, raw, core.disk, raw', nodes, i, target)
    ensures Writing(core, WithRaw(nodes, i, raw'), i)
    ensures r.Ok? ==> r.value != 0 && At(core.disk, Slots(raw'), Sub(u, index)) == r.value
    ensures r.Err? ==> r == Err(NoSpace) && RanOut(core.geo, old(core.disk), core.disk)
    ensures QuietSince(core.geo, a, h0, core.history, nodes, i)
    ensures GrownSince(Ptrs(core.geo), a, h0, core.history, Slots(raw), target)
    ensures CountersOk(core.geo, old(core.disk)) ==> CountersOk(core.geo, core.disk)
    ensures Dirs(core.geo, core.disk) == Dirs(core.geo, old(core.disk))
  {
    hide Dirs, Inv, Ahead, Geo.Valid, DescMatches, Quiet, CountersOk, At, Grown, ValidPath, OnPath, QuietSince,
         LeafPath;
    ghost var nodes' := WithRaw(nodes, i, raw');
    ghost var b, h1 := core.disk, core.history;
    assert NotDirLeaf(core.geo, nodes'[i], Sub(u, index));
    r := GetOrAllocPtr(core, container, index, nodes', i, u, target);
    QuietTransitive(core.geo, a, b, core.disk, nodes, nodes', i);
    QuietSinceTransitive(core.geo, a, b, h0, h1, core.history, nodes, nodes', i);
    GrownTransitive(Ptrs(core.geo), a, Slots(raw), b, Slots(raw'), core.disk, Slots(raw'), target);
    GrownWithin(Ptrs(core.geo), a, Slots(raw), b, Slots(raw'), target);
    GrownSinceAppend(Ptrs(core.geo), a, Slots(raw), b, Slots(raw'), h0, h1, core.history, target);
  }

  /** The lookup that allocates whatever is missing: data block and pointer blocks on the way. */
  method BlockForIndexAlloc(core: Ext2Core, raw: RawInode, index: nat, ghost nodes: map<nat, Node>, ghost i: nat)
    returns (r: Result<nat>, raw': RawInode)
    requires Writing(core, nodes, i) && raw.Valid() && nodes[i].slots == Slots(raw) && nodes[i].dirBlocks <= index
    modifies core
    ensures index < Capacity(Ptrs(core.geo)) ==>
              Advanced(core.geo, old(core.disk), raw, core.disk, raw', nodes, i, LeafPath(Ptrs(core.geo), index))
    ensures index < Capacity(Ptrs(core.geo)) && r.Ok? ==>
              r.value != 0 && Leaf(core.disk, Slots(raw'), Ptrs(core.geo), index) == r.value
    ensures index < Capacity(Ptrs(core.geo)) && r.Err? ==> r == Err(NoSpace)
    ensures r == Err(NoSpace) ==> RanOut(core.geo, old(core.disk), core.disk)
    ensures index < Capacity(Ptrs(core.geo)) ==>
              GrownSince(Ptrs(core.geo), old(core.disk), old(core.history), core.history, Slots(raw),
                         LeafPath(Ptrs(core.geo), index))
    ensures index >= Capacity(Ptrs(core.geo)) ==>
              r == Err(TooLarge) && raw' == raw && core.disk == old(core.disk) && core.history == old(core.history)
    ensures raw'.Valid() && Writing(core, WithRaw(nodes, i, raw'), i)
    ensures QuietSince(core.geo, old(core.disk), old(core.history), core.history, nodes, i)
    ensures CountersOk(core.geo, old(core.disk)) ==> CountersOk(core.geo, core.disk)
    ensures Dirs(core.geo, core.disk) == Dirs(core.geo, old(core.disk))
  {
    hide Dirs, Inv, Ahead, Geo.Valid, DescMatches, Quiet, CountersOk, At, Grown, NotDirLeaf, DoubleCap, TripleCap,
         Advanced, LeafPath, DoublePath, TriplePath, OnPath, ValidPath, Height, Capacity, Slots;
    ghost var a, h0, p := core.disk, core.history, Ptrs(core.geo);
    raw' := raw;
    assert WithRaw(nodes, i, raw) == nodes;
    LeafCases(p, index);
    if index < Capacity(p) {
      LeafPathOfIndex(p, index);
      LaterIsNotDirLeaf(core.geo, nodes[i], index);
    }
    if index < 12 {
      DirectPath(p, index);
      r, raw' := GetOrAllocSlot(core, raw, index, nodes, i, Slot(index));
      return;
    }
    var ptrs := core.sb.blockSize / 4;
    var indirect := index - 12;
    if indirect < ptrs {
      r, raw' := SingleAlloc(core, raw, indirect, nodes, i);
      return;
    }
    var dbl := indirect - ptrs;
    var dblCap := DoubleCap(ptrs);
    if dbl < dblCap {
      r, raw' := DoubleAlloc(core, raw, dbl, nodes, i);
      return;
    }
    var tpl := dbl - dblCap;
    if tpl < TripleCap(ptrs) {
      r, raw' := TripleAlloc(core, raw, tpl, nodes, i);
      return;
    }
    r := Err(TooLarge);
  }

  lemma DirectPath(p: nat, s: nat)
    requires s < 12
    ensures ValidPath(p, Slot(s)) && Height(Slot(s)) == 0 && OnPath(Slot(s), Slot(s))
  {
  }

  method SingleAlloc(core: Ext2Core, raw: RawInode, indirect: nat, ghost nodes: map<nat, Node>, ghost i: nat)
    returns (r: Result<nat>, raw': RawInode)
    requires Writing(core, nodes, i) && raw.Valid() && nodes[i].slots == Slots(raw) && indirect < Ptrs(core.geo)
    requires NotDirLeaf(core.geo, nodes[i], Sub(Slot(12), indirect))
    modifies core
    ensures Advanced(core.geo, old(core.disk), raw, core.disk, raw', nodes, i, Sub(Slot(12), indirect))
    ensures r.Ok? ==> r.value != 0 && At(core.disk, Slots(raw'), Sub(Slot(12), indirect)) == r.value
    ensures r.Err? ==> r == Err(NoSpace) && RanOut(core.geo, old(core.disk), core.disk)
    ensures GrownSince(Ptrs(core.geo), old(core.disk), old(core.history), core.history, Slots(raw),
                       Sub(Slot(12), indirect))
    ensures raw'.Valid() && Writing(core, WithRaw(nodes, i, raw'), i)
    ensures QuietSince(core.geo, old(core.disk), old(core.history), core.history, nodes, i)
    ensures CountersOk(core.geo, old(core.disk)) ==> CountersOk(core.geo, core.disk)
    ensures Dirs(core.geo, core.disk) == Dirs(core.geo, old(core.disk))
  {
    hide Dirs, Inv, Ahead, Geo.Valid, DescMatches, Quiet, QuietSince, CountersOk, At, Grown, NotDirLeaf, Advanced,
         Slots;
    ghost var a, h0, target := core.disk, core.history, Sub(Slot(12), indirect);
    InnerIsNotDirLeaf(core.geo, nodes[i], Slot(12));
    r, raw' := GetOrAllocSlot(core, raw, 12, nodes, i, target);
    if r.Ok? {
      r := NextPtr(core, r.value, indirect, nodes, i, Slot(12), target, a, raw, raw', h0);
    }
  }

  method DoubleAlloc(core: Ext2Core, raw: RawInode, dbl: nat, ghost nodes: map<nat, Node>, ghost i: nat)
    returns (r: Result<nat>, raw': RawInode)
    requires Writing(core, nodes, i) && raw.Valid() && nodes[i].slots == Slots(raw) && dbl < DoubleCap(Ptrs(core.geo))
    requires NotDirLeaf(core.geo, nodes[i], DoublePath(Ptrs(core.geo), dbl))
    modifies core
    ensures Advanced(core.geo, old(core.disk), raw, core.disk, raw', nodes, i, DoublePath(Ptrs(core.geo), dbl))
    ensures r.Ok? ==> r.value != 0 && At(core.disk, Slots(raw'), DoublePath(Ptrs(core.geo), dbl)) == r.value
    ensures r.Err? ==> r == Err(NoSpace) && RanOut(core.geo, old(core.disk), core.disk)
    ensures GrownSince(Ptrs(core.geo), old(core.disk), old(core.history), core.history, Slots(raw),
                       DoublePath(Ptrs(core.geo), dbl))
    ensures raw'.Valid() && Writing(core, WithRaw(nodes, i, raw'), i)
    ensures QuietSince(core.geo, old(core.disk), old(core.history), core.history, nodes, i)
    ensures CountersOk(core.geo, old(core.disk)) ==> CountersOk(core.geo, core.disk)
    ensures Dirs(core.geo, core.disk) == Dirs(core.geo, old(core.disk))
  {
    hide Dirs, Inv, Ahead, Geo.Valid, DescMatches, Quiet, CountersOk, At, Grown, NotDirLeaf, DoubleCap, Advanced;
    ghost var a, h0, p := core.disk, core.history, Ptrs(core.geo);
    DoublePathValid(p, dbl);
    var ptrs := core.sb.blockSize / 4;
    var first, second := dbl / ptrs, dbl % ptrs;
    ghost var target := DoublePath(p, dbl);
    ghost var u := Sub(Slot(13), first);
    OnPathUp(Slot(13), Slot(13), first);
    OnPathUp(Slot(13), u, second);
    OnPathUp(u, u, second);
    InnerIsNotDirLeaf(core.geo, nodes[i], Slot(13));
    InnerIsNotDirLeaf(core.geo, nodes[i], u);
    r, raw' := GetOrAllocSlot(core, raw, 13, nodes, i, target);
    if r.Ok? {
      r := NextPtr(core, r.value, first, nodes, i, Slot(13), target, a, raw, raw', h0);
    }
    if r.Ok? {
      r := NextPtr(core, r.value, second, nodes, i, u, target, a, raw, raw', h0);
    }
  }

  /** The pointers on the way to a triple-indirect leaf. */
  lemma TripleSteps(p: nat, tpl: nat)
    requires p > 0 && tpl < TripleCap(p)
    ensures var c := DoubleCap(p);
            var u1 := Sub(Slot(14), tpl / c);
            var u2 := Sub(u1, tpl % c / p);
            var target := Sub(u2, tpl % c % p);
            && TriplePath(p, tpl) == target && ValidPath(p, target) && Height(target) == 0
            && ValidPath(p, u1) && ValidPath(p, u2) && Height(u1) > 0 && Height(u2) > 0
            && OnPath(Slot(14), target) && OnPath(u1, target) && OnPath(u2, target) && OnPath(target, target)
  {
    hide DoubleCap, OnPath;
    TriplePathValid(p, tpl);
    var c := DoubleCap(p);
    var u1 := Sub(Slot(14), tpl / c);
    var u2 := Sub(u1, tpl % c / p);
    assert ValidPath(p, u2) && ValidPath(p, u1) && Height(u1) == 2 && Height(u2) == 1;
    OnPathUp(Slot(14), Slot(14), tpl / c);
    OnPathUp(Slot(14), u1, tpl % c / p);
    OnPathUp(Slot(14), u2, tpl % c % p);
    OnPathUp(u1, u1, tpl % c / p);
    OnPathUp(u1, u2, tpl % c % p);
    OnPathUp(u2, u2, tpl % c % p);
    OnPathUp(Sub(u2, tpl % c % p), Sub(u2, tpl % c % p), 0);
  }

  method TripleAlloc(core: Ext2Core, raw: RawInode, tpl: nat, ghost nodes: map<nat, Node>, ghost i: nat)
    returns (r: Result<nat>, raw': RawInode)
    requires Writing(core, nodes, i) && raw.Valid() && nodes[i].slots == Slots(raw)
    requires tpl < TripleCap(Ptrs(core.geo))
    requires NotDirLeaf(core.geo, nodes[i], TriplePath(Ptrs(core.geo), tpl))
    modifies core
    ensures Advanced(core.geo, old(core.disk), raw, core.disk, raw', nodes, i, TriplePath(Ptrs(core.geo), tpl))
    ensures r.Ok? ==> r.value != 0 && At(core.disk, Slots(raw'), TriplePath(Ptrs(core.geo), tpl)) == r.value
    ensures r.Err? ==> r == Err(NoSpace) && RanOut(core.geo, old(core.disk), core.disk)
    ensures GrownSince(Ptrs(core.geo), old(core.disk), old(core.history), core.history, Slots(raw),
                       TriplePath(Ptrs(core.geo), tpl))
    ensures raw'.Valid() && Writing(core, WithRaw(nodes, i, raw'), i)
    ensures QuietSince(core.geo, old(core.disk), old(core.history), core.history, nodes, i)
    ensures CountersOk(core.geo, old(core.disk)) ==> CountersOk(core.geo, core.disk)
    ensures Dirs(core.geo, core.disk) == Dirs(core.geo, old(core.disk))
  {
    hide Dirs, Inv, Ahead, Geo.Valid, DescMatches, Quiet, CountersOk, At, Grown, NotDirLeaf, DoubleCap, Advanced,
         OnPath, TriplePath, ValidPath, QuietSince;
    ghost var a, h0, p := core.disk, core.history, Ptrs(core.geo);
    var ptrs := core.sb.blockSize / 4;
    TripleSteps(p, tpl);
    var dblCap := DoubleCap(ptrs);
    var first, rem := tpl / dblCap, tpl % dblCap;
    var second, third := rem / ptrs, rem % ptrs;
    ghost var target := TriplePath(p, tpl);
    ghost var u1 := Sub(Slot(14), first);
    ghost var u2 := Sub(u1, second);
    InnerIsNotDirLeaf(core.geo, nodes[i], Slot(14));
    InnerIsNotDirLeaf(core.geo, nodes[i], u1);
    InnerIsNotDirLeaf(core.geo, nodes[i], u2);
    r, raw' := GetOrAllocSlot(core, raw, 14, nodes, i, target);
    if r.Ok? {
      r := NextPtr(core, r.value, first, nodes, i, Slot(14), target, a, raw, raw', h0);
    }
    if r.Ok? {
      r := NextPtr(core, r.value, second, nodes, i, u1, target, a, raw, raw', h0);
    }
    if r.Ok? {
      r := NextPtr(core, r.value, third, nodes, i, u2, target, a, raw, raw', h0);
    }
  }
}
