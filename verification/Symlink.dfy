/** Symbolic links: a target under 60 bytes lives in the record's own pointer area, a longer one is
    ordinary file content. */
module Symlink {
  import Arith
  import opened Bytes
  import opened Geometry
  import opened Inode
  import opened Image
  import opened Tree
  import opened Consistency
  import opened Counters
  import opened Volume
  import opened Growth
  import opened Listing
  import opened Files
  import opened Content

  /** The first n bytes of a file. */
  ghost function FileBytes(g: Geo, d: Img, slots: seq<nat>, n: nat): (r: seq<byte>)
    requires g.Valid()
    ensures |r| == n && forall k :: 0 <= k < n ==> r[k] == ByteAt(g, d, slots, k)
  {
    seq(n, k requires 0 <= k < n => ByteAt(g, d, slots, k))
  }

  /** The target a symlink record stands for. */
  ghost function Target(g: Geo, d: Img, raw: RawInode): seq<byte>
    requires g.Valid() && raw.Valid()
  {
    if raw.IsFastSymlink() then raw.buf[40..40 + raw.Size()] else FileBytes(g, d, Slots(raw), raw.Size())
  }

  /** No pointer of the file leads outside the volume. */
  ghost predicate FileInRange(g: Geo, d: Img, slots: seq<nat>)
    requires g.Valid()
  {
    PointersInRange(g, d, slots) && forall x: nat :: Leaf(d, slots, Ptrs(g), x) < g.sb.blocksCount
  }

  method ReadSymlinkTarget(core: Ext2Core, raw: RawInode) returns (r: Result<seq<byte>>)
    requires core.Ready() && raw.Valid() && raw.IsSymlink()
    ensures r.Ok? ==> r.value == Target(core.geo, core.disk, raw)
    ensures r.Err? ==> !raw.IsFastSymlink() && !FileInRange(core.geo, core.disk, Slots(raw))
  {
    hide Geo.Valid, DescMatches, RawInode.Size, RawInode.Mode, Slots, PointersInRange, Leaf, ByteAt, ByteIn, BlockIndex;
    BlockSizePositive(core.geo);
    var size := raw.Size();
    if raw.IsFastSymlink() {
      return Ok(raw.buf[40..40 + size]);
    }
    var buf := new byte[size];
    var _ :- ReadFileRange(core, raw, 0, buf);
    SymlinkSize(raw);
    forall k | 0 <= k < size ensures buf[k] == ByteAt(core.geo, core.disk, Slots(raw), k) {
      SmallIndex(core.geo, core.disk, Slots(raw), k);
    }
    assert buf[..] == FileBytes(core.geo, core.disk, Slots(raw), size);
    return Ok(buf[..]);
  }

  lemma SymlinkSize(raw: RawInode)
    requires raw.Valid() && raw.IsSymlink()
    ensures raw.Size() < 0x1_0000_0000
  {
    Widths();
    assert Field(raw.buf, 4, 4) < Pow256(4);
  }

  /** A 32-bit position needs no more than 32 bits of block index. */
  lemma SmallIndex(g: Geo, d: Img, slots: seq<nat>, pos: nat)
    requires g.Valid() && pos < 0x1_0000_0000 && g.sb.blockSize > 0
    ensures ByteIn(g, d, slots, BlockIndex(pos, g.sb.blockSize), pos % g.sb.blockSize) == ByteAt(g, d, slots, pos)
  {
    hide ByteIn, Geo.Valid;
    BlockSizePositive(g);
    IndexWraps(pos, g.sb.blockSize);
    Arith.DivMod(pos, g.sb.blockSize);
    assert pos / g.sb.blockSize <= pos;
  }

  /** A record as `symlink` sets it up: the type, no size, no pointers. */
  ghost predicate FreshLink(raw: RawInode) {
    raw.Valid() && raw.IsSymlink() && raw.Size() == 0 && Slots(raw) == NoSlots()
  }

  /** The target copied over the pointer area. */
  function Inline(raw: RawInode, target: seq<byte>): (r: RawInode)
    requires raw.Valid() && |target| < 60
    ensures r.Valid() && |r.buf| == |raw.buf|
  {
    RawInode(Patch(raw.buf, 40, target)).SetSize(|target|)
  }

  /** An inline target reads back as written, and the record owns no blocks whatever its text decodes to. */
  lemma InlineTarget(g: Geo, d: Img, raw: RawInode, target: seq<byte>)
    requires g.Valid() && g.sb.blockSize > 0 && FreshLink(raw) && |target| < 60
    ensures var r := Inline(raw, target);
            && SameLinks(raw, r) && r.Size() == |target| && Target(g, d, r) == target
            && !r.HasBlockPointers() && NodeOf(g, r) == Node(NoSlots(), 0)
  {
    hide RawInode.Mode, RawInode.Size, RawInode.LinksCount, Slots, Geo.Valid, FileBytes;
    var p := RawInode(Patch(raw.buf, 40, target));
    ModeElsewhere(raw, target);
    SetSizeEffect(p, |target|);
    InlineBytes(raw, target);
  }

  lemma ModeElsewhere(raw: RawInode, target: seq<byte>)
    requires raw.Valid() && |target| < 60
    ensures SameLinks(raw, RawInode(Patch(raw.buf, 40, target)))
  {
    PatchElsewhere(raw.buf, 40, target, 26, 2);
    PatchElsewhere(raw.buf, 40, target, 0, 2);
  }

  lemma InlineBytes(raw: RawInode, target: seq<byte>)
    requires raw.Valid() && |target| < 60 && RawInode(Patch(raw.buf, 40, target)).IsSymlink()
    ensures Inline(raw, target).buf[40..40 + |target|] == target
  {
    var p := Patch(raw.buf, 40, target);
    assert !RawInode(p).IsReg();
    PatchElsewhere(p, 4, Le(|target| % 0x1_0000_0000, 4), 40, |target|);
    assert p[40..40 + |target|] == target;
  }

  lemma FreshNode(g: Geo, raw: RawInode)
    requires FreshLink(raw) && g.sb.blockSize > 0
    ensures NodeOf(g, raw) == Node(NoSlots(), 0)
  {
  }

  /** What a written target guarantees: it reads back, and the slots are block pointers exactly when it is
      long, with a block behind every byte of it. */
  ghost predicate LinkWritten(g: Geo, d: Img, ino: nat, raw: RawInode, target: seq<byte>) {
    && Layout(g, d) && g.sb.HasInode(ino) && raw.Valid() && Rec(g, d, ino) == raw
    && raw.IsSymlink() && raw.Size() == |target| && Target(g, d, raw) == target
    && (raw.HasBlockPointers() <==> |target| >= 60)
    && (raw.HasBlockPointers() ==> Mapped(g, d, Slots(raw), 0, |target|))
  }

  /** No 32-bit target is too long for the pointer tree. */
  lemma TargetsFit(g: Geo)
    requires g.Valid()
    ensures Capacity(Ptrs(g)) * g.sb.blockSize >= 0x1_0000_0000
  {
    var p := Ptrs(g);
    BlockSizePositive(g);
    hide Geo.Valid;
    assert p >= 256;
    Arith.MulMono(256, p, 256);
    Arith.MulMono(256, p, p);
    assert DoubleCap(p) >= 0x1_0000;
    Arith.MulMono(0x1_0000, DoubleCap(p), 256);
    Arith.MulMono(256, p, DoubleCap(p));
    assert Capacity(p) >= 0x100_0000;
    Arith.MulMono(0x100_0000, Capacity(p), 1024);
    Arith.MulMono(1024, g.sb.blockSize, Capacity(p));
  }

  /** Write the target, inline when it is short enough and as file content otherwise. */
  method WriteSymlinkTarget(core: Ext2Core, raw: RawInode, ino: nat, target: seq<byte>, ghost nodes: map<nat, Node>)
    returns (r: Result<()>, raw': RawInode)
    requires core.Ready() && Inv(core.geo, core.disk, nodes) && OthersOnDisk(core.geo, core.disk, nodes, ino)
    requires FreshLink(raw) && |raw.buf| == core.sb.inodeSize && core.sb.blockSize > 0
    requires nodes[ino] == Node(NoSlots(), 0) && |target| < 0x1_0000_0000
    modifies core
    ensures core.Ready() && raw'.Valid() && |raw'.buf| == core.sb.inodeSize && SameLinks(raw, raw')
    ensures StepOk(core.geo, old(core.disk), core.disk, nodes, ino)
    ensures SafeSince(core.geo, old(core.disk), old(core.history), core.history, nodes, ino)
    ensures CountersOk(core.geo, old(core.disk)) ==> CountersOk(core.geo, core.disk)
    ensures r.Ok? ==> LinkWritten(core.geo, core.disk, ino, raw', target)
    ensures r.Ok? ==> Writing(core, nodes[ino := NodeOf(core.geo, raw')], ino) && Rec(core.geo, core.disk, ino) == raw'
    ensures |target| < 60 ==>
              r.Ok? && SameMarks(core.geo, old(core.disk), core.disk) && core.history == old(core.history) + [core.disk]
    ensures r.Err? ==> r == Err(NoSpace) && raw'.Size() == 0 && RanOut(core.geo, old(core.disk), core.disk)
    ensures Dirs(core.geo, core.disk) == Dirs(core.geo, old(core.disk))
  {
    hide Dirs, Inv, Ahead, Geo.Valid, DescMatches, StepOk, CountersOk, SafeSince, RawInode.Mode, RawInode.Size, Slots,
         Rec, NodeOf, Target, Inline, RawInode.HasBlockPointers, FreshLink, SameMarks, SameRecords, SameCounters,
         Capacity, RanOut, RawInode.LinksCount;
    ghost var g, a, h0 := core.geo, core.disk, core.history;
    InvValid(g, a, nodes);
    FreshNode(g, raw);
    EmptySince(g, a, h0, nodes, ino);
    QuietIsSafe(g, a, h0, h0, nodes, ino);
    if |target| < 60 {
      InlineTarget(g, a, raw, target);
      raw' := Inline(raw, target);
      r := core.WriteInode(ino, raw');
      InlineTarget(g, core.disk, raw, target);
      RecordStep(g, a, core.disk, nodes, ino, raw');
      SafeSinceSnoc(g, a, core.disk, h0, h0, nodes, ino);
      SymlinkByMode(raw, raw');
      assert nodes[ino := NodeOf(g, raw')] == nodes;
    } else {
      r := core.WriteInode(ino, raw);
      RecordStep(g, a, core.disk, nodes, ino, raw);
      SafeSinceSnoc(g, a, core.disk, h0, h0, nodes, ino);
      ghost var b := core.disk;
      r, raw' := WriteLongTarget(core, raw, ino, target, nodes, a, h0);
      if r.Err? { RanOutLater(g, a, b, core.disk); }
    }
  }

  lemma SymlinkByMode(raw: RawInode, raw': RawInode)
    requires FreshLink(raw) && raw'.Valid() && raw'.Mode() == raw.Mode()
    ensures raw.IsSymlink() && raw'.IsSymlink() && raw.Size() == 0
  {
    hide RawInode.Mode, RawInode.Size, Slots;
  }

  /** A long target once written: the record has block pointers, and its content is the target. */
  lemma LongTarget(g: Geo, a: Img, d: Img, raw: RawInode, raw': RawInode, target: seq<byte>)
    requires g.Valid() && g.sb.blockSize > 0 && FreshLink(raw) && raw'.Valid() && raw'.Mode() == raw.Mode()
    requires 60 <= |target| == raw'.Size()
    ensures NodeOf(g, raw') == Node(Slots(raw'), 0) && raw'.IsSymlink() && raw'.HasBlockPointers()
    ensures RangeWritten(g, a, Slots(raw), d, Slots(raw'), 0, target) ==> Target(g, d, raw') == target
  {
    hide RawInode.Mode, RawInode.Size, Slots, Geo.Valid, ByteAt;
    SymlinkByMode(raw, raw');
    if RangeWritten(g, a, Slots(raw), d, Slots(raw'), 0, target) {
      assert FileBytes(g, d, Slots(raw'), |target|) == target;
    }
  }

  /** The long form, its guarantees stated from image a and history h0. */
  method WriteLongTarget(core: Ext2Core, raw: RawInode, ino: nat, target: seq<byte>, ghost nodes: map<nat, Node>,
                         ghost a: Img, ghost h0: seq<Img>)
    returns (r: Result<()>, raw': RawInode)
    requires Writing(core, nodes, ino) && FreshLink(raw) && |raw.buf| == core.sb.inodeSize && core.sb.blockSize > 0
    requires nodes[ino] == Node(NoSlots(), 0) && 60 <= |target| < 0x1_0000_0000
    requires StepOk(core.geo, a, core.disk, nodes, ino) && SafeSince(core.geo, a, h0, core.history, nodes, ino)
    modifies core
    ensures core.Ready() && raw'.Valid() && |raw'.buf| == core.sb.inodeSize && SameLinks(raw, raw')
    ensures StepOk(core.geo, a, core.disk, nodes, ino) && SafeSince(core.geo, a, h0, core.history, nodes, ino)
    ensures CountersOk(core.geo, old(core.disk)) ==> CountersOk(core.geo, core.disk)
    ensures r.Ok? ==> LinkWritten(core.geo, core.disk, ino, raw', target)
    ensures r.Ok? ==> Writing(core, nodes[ino := NodeOf(core.geo, raw')], ino) && Rec(core.geo, core.disk, ino) == raw'
    ensures r.Err? ==> r == Err(NoSpace) && raw'.Size() == 0 && RanOut(core.geo, old(core.disk), core.disk)
    ensures Dirs(core.geo, core.disk) == Dirs(core.geo, old(core.disk))
  {
    hide Dirs, Inv, Ahead, Geo.Valid, DescMatches, StepOk, CountersOk, SafeSince, RawInode.Mode, RawInode.Size, Slots,
         Rec, NodeOf, Target, Capacity, RangeWritten, Landing, Mapped, Quiet, CommitsLast, SameOthers, RanOut,
         PartSince, RawInode.LinksCount;
    ghost var g, b, h1 := core.geo, core.disk, core.history;
    SymlinkByMode(raw, raw);
    var w;
    ghost var done;
    w, raw', done := WriteFileRange(core, ino, raw, 0, target, nodes);
    assert Landing(0, core.sb.blockSize) == 0 by { hide *; LandsAtZero(core.sb.blockSize); }
    CommitsSafely(g, b, h1, core.history, core.disk, nodes, ino);
    StepOkTransitive(g, a, b, core.disk, nodes, nodes, ino) by { hide *; SameOthersSelf(nodes, ino); }
    SafeSinceTransitive(g, a, b, h0, h1, core.history, nodes, nodes, ino) by { hide *; SameOthersSelf(nodes, ino); }
    TargetsFit(g);
    if w.Err? {
      return Err(w.error), raw';
    }
    assert target[..done] == target;
    LongTarget(g, b, core.disk, raw, raw', target);
    InvValid(g, core.disk, WithRaw(nodes, ino, raw'));
    assert nodes[ino := NodeOf(g, raw')] == WithRaw(nodes, ino, raw');
    return Ok(()), raw';
  }

  lemma LandsAtZero(bs: nat)
    requires bs > 0
    ensures Landing(0, bs) == 0
  {
    LandingIs(0, bs);
  }

  lemma CommitsSafely(g: Geo, a: Img, h0: seq<Img>, h1: seq<Img>, d: Img, nodes: map<nat, Node>, i: nat)
    requires CommitsLast(g, a, h0, h1, d, nodes, i) || (Quiet(g, a, d, nodes, i) && QuietSince(g, a, h0, h1, nodes, i))
    ensures SafeSince(g, a, h0, h1, nodes, i) && StepOk(g, a, d, nodes, i)
  {
    hide StepOk, Quiet;
    if CommitsLast(g, a, h0, h1, d, nodes, i) { CommitsLastSafe(g, a, h0, h1, d, nodes, i); }
       else { QuietIsSafe(g, a, h0, h1, nodes, i); }
  }

  lemma SameOthersSelf(nodes: map<nat, Node>, i: nat)
    ensures SameOthers(nodes, nodes, i)
  {
  }
}
