/** A file's content as a sparse byte array, and what growth and leaf writes do to it. */
module Content {
  import opened Bytes
  import opened Geometry
  import opened Inode
  import opened Image
  import opened Tree
  import opened Consistency
  import opened Counters
  import opened Volume
  import opened Growth
  import opened Files
  import Arith

  /** Byte `off` of file block `index`: zero in a hole and beyond the addressable range. */
  ghost function ByteIn(g: Geo, img: Img, slots: seq<nat>, index: nat, off: nat): byte
    requires g.Valid()
  {
    var b := Leaf(img, slots, Ptrs(g), index);
    if b == 0 || off >= |BlockOf(img, b)| then 0 else BlockOf(img, b)[off]
  }

  /** Position pos as a block of the file and an offset in it. */
  function BlockNo(pos: nat, bs: nat): nat
    requires bs > 0
  {
    pos / bs
  }

  function InBlock(pos: nat, bs: nat): (o: nat)
    requires bs > 0
    ensures o < bs
  {
    pos % bs
  }

  /** The byte of the file at position pos. */
  ghost function ByteAt(g: Geo, img: Img, slots: seq<nat>, pos: nat): byte
    requires g.Valid()
  {
    ByteIn(g, img, slots, BlockNo(pos, g.sb.blockSize), InBlock(pos, g.sb.blockSize))
  }

  /** Only the target itself is a leaf on the way to a leaf. */
  lemma {:induction false} LeafOnPath(p: nat, q: Path, target: Path)
    requires ValidPath(p, target) && OnPath(q, target) && q != target
    ensures Height(q) > Height(target)
  {
    if q != target.up { LeafOnPath(p, q, target.up); }
  }

  /** Allocating on demand: the index maps to the returned block and every other index maps as before. */
  lemma OtherIndicesUnchanged(g: Geo, a: Img, s: seq<nat>, h: Img, s': seq<nat>, index: nat, x: nat)
    requires g.Valid() && index < Capacity(Ptrs(g)) && x != index
    requires Grown(Ptrs(g), a, s, h, s', LeafPath(Ptrs(g), index))
    ensures Leaf(h, s', Ptrs(g), x) == Leaf(a, s, Ptrs(g), x)
  {
    hide At, OnPath, LeafPath, Geo.Valid;
    var p := Ptrs(g);
    if x < Capacity(p) {
      LeafPathOfIndex(p, x);
      LeafPathOfIndex(p, index);
      LeafPathInjective(p, x, index);
      if OnPath(LeafPath(p, x), LeafPath(p, index)) { LeafOnPath(p, LeafPath(p, x), LeafPath(p, index)); }
    }
  }

  /** A mapped index keeps its block. */
  lemma MappedIndexKept(g: Geo, a: Img, s: seq<nat>, h: Img, s': seq<nat>, index: nat)
    requires g.Valid() && index < Capacity(Ptrs(g))
    requires Grown(Ptrs(g), a, s, h, s', LeafPath(Ptrs(g), index))
    ensures Leaf(a, s, Ptrs(g), index) != 0 ==> Leaf(h, s', Ptrs(g), index) == Leaf(a, s, Ptrs(g), index)
  {
    hide At, OnPath, LeafPath, Geo.Valid;
    LeafPathOfIndex(Ptrs(g), index);
  }

  /** Distinct mapped indices have distinct blocks, in one file or in two. */
  lemma DistinctIndicesDistinctBlocks(g: Geo, img: Img, nodes: map<nat, Node>, i: nat, x: nat, j: nat, y: nat)
    requires Inv(g, img, nodes) && i in nodes && j in nodes && (i != j || x != y)
    requires Leaf(img, nodes[i].slots, Ptrs(g), x) != 0
    ensures Leaf(img, nodes[i].slots, Ptrs(g), x) != Leaf(img, nodes[j].slots, Ptrs(g), y)
  {
    hide At, LeafPath, Geo.Valid, DescMatches, MetaMarked, InodesMarked, Owned, DirsClosed;
    LeafPathOfIndex(Ptrs(g), x);
    if y < Capacity(Ptrs(g)) {
      LeafPathOfIndex(Ptrs(g), y);
      LeafPathInjective(Ptrs(g), x, y);
    }
  }

  /** Growth is invisible in the content: a new leaf reads as the zeros of the hole it fills. */
  lemma GrowthInvisible(g: Geo, a: Img, s: seq<nat>, h: Img, s': seq<nat>, index: nat, x: nat, off: nat)
    requires g.Valid() && index < Capacity(Ptrs(g)) && Grown(Ptrs(g), a, s, h, s', LeafPath(Ptrs(g), index))
    ensures ByteIn(g, h, s', x, off) == ByteIn(g, a, s, x, off)
  {
    hide At, OnPath, LeafPath, Geo.Valid;
    var p := Ptrs(g);
    if x != index { OtherIndicesUnchanged(g, a, s, h, s', index, x); } else { MappedIndexKept(g, a, s, h, s', index); }
    if x < Capacity(p) { LeafPathOfIndex(p, x); }
  }

  /** Writing the block of one index changes that index's bytes alone. */
  lemma LeafWriteContent(g: Geo, a: Img, nodes: map<nat, Node>, i: nat, index: nat, buf: seq<byte>, x: nat, off: nat)
    requires Inv(g, a, nodes) && i in nodes && Leaf(a, nodes[i].slots, Ptrs(g), index) != 0
    requires Leaf(a, nodes[i].slots, Ptrs(g), index) < |a|
    requires SameTrees(g, a, a[Leaf(a, nodes[i].slots, Ptrs(g), index) := buf], nodes)
    ensures ByteIn(g, a[Leaf(a, nodes[i].slots, Ptrs(g), index) := buf], nodes[i].slots, x, off)
            == if x == index then (if off < |buf| then buf[off] else 0) else ByteIn(g, a, nodes[i].slots, x, off)
  {
    hide At, LeafPath, Inv, Geo.Valid;
    InvValid(g, a, nodes);
    var p := Ptrs(g);
    if x < Capacity(p) { LeafPathOfIndex(p, x); }
    if x != index { DistinctIndicesDistinctBlocks(g, a, nodes, i, index, i, x); }
  }

  /** Intact files have intact content. */
  lemma IntactContent(g: Geo, a: Img, h: Img, node: Node, pos: nat)
    requires g.Valid() && Intact(g, a, h, node)
    ensures ByteAt(g, h, node.slots, pos) == ByteAt(g, a, node.slots, pos)
  {
    hide At, LeafPath;
    var x := pos / g.sb.blockSize;
    if x < Capacity(Ptrs(g)) { LeafPathOfIndex(Ptrs(g), x); }
  }

  lemma IntactLeaf(g: Geo, a: Img, h: Img, node: Node, x: nat)
    requires g.Valid() && Intact(g, a, h, node)
    ensures Leaf(h, node.slots, Ptrs(g), x) == Leaf(a, node.slots, Ptrs(g), x)
  {
    hide At, LeafPath, Geo.Valid;
    if x < Capacity(Ptrs(g)) { LeafPathOfIndex(Ptrs(g), x); }
  }

  // Byte-range reads

  /** The file block index of a position, as the driver computes it: 32 bits wide. */
  function BlockIndex(pos: nat, bs: nat): nat
    requires bs > 0
  {
    pos / bs % 0x1_0000_0000
  }

  /** Below 2^32 blocks the index is the true quotient, and only there: further out positions alias. */
  lemma IndexWraps(pos: nat, bs: nat)
    requires bs > 0
    ensures BlockIndex(pos, bs) == pos / bs <==> pos / bs < 0x1_0000_0000
    ensures BlockIndex(pos + 0x1_0000_0000 * bs, bs) == BlockIndex(pos, bs)
  {
    Arith.DivShift(pos, bs, 0x1_0000_0000);
  }

  /** Where in the file a position lands: the driver's blocks repeat every 2^32. */
  function Landing(pos: nat, bs: nat): nat
    requires bs > 0
  {
    pos % (0x1_0000_0000 * bs)
  }

  lemma LandingIs(pos: nat, bs: nat)
    requires bs > 0
    ensures Landing(pos, bs) < 0x1_0000_0000 * bs && (Landing(pos, bs) == pos <==> pos < 0x1_0000_0000 * bs)
    ensures BlockNo(Landing(pos, bs), bs) == BlockIndex(pos, bs) && InBlock(Landing(pos, bs), bs) == InBlock(pos, bs)
  {
    var q, r := pos / bs, pos % bs;
    var k, i := q / 0x1_0000_0000, q % 0x1_0000_0000;
    var n := i * bs + r;
    Arith.DivMod(pos, bs);
    Arith.MulMono(i + 1, 0x1_0000_0000, bs);
    assert (i + 1) * bs == i * bs + bs;
    assert pos == k * (0x1_0000_0000 * bs) + n;
    Arith.DivModUnique(k, n, 0x1_0000_0000 * bs);
    Arith.DivModUnique(i, r, bs);
    if k > 0 { Arith.MulMono(1, k, 0x1_0000_0000 * bs); }
  }

  lemma LandingAdd(pos: nat, k: nat, bs: nat)
    requires bs > 0 && Landing(pos, bs) + k < 0x1_0000_0000 * bs
    ensures Landing(pos + k, bs) == Landing(pos, bs) + k
  {
    Arith.ModAdd(pos, k, 0x1_0000_0000 * bs);
  }

  /** Fill buf with the file's bytes from `offset`; holes read as zeros. */
  method ReadFileRange(core: Ext2Core, raw: RawInode, offset: nat, buf: array<byte>) returns (r: Result<()>)
    requires core.Ready() && raw.Valid()
    modifies buf
    ensures r.Ok? ==> forall k :: 0 <= k < buf.Length ==>
              buf[k] == ByteIn(core.geo, core.disk, Slots(raw), BlockIndex(offset + k, core.sb.blockSize),
                               (offset + k) % core.sb.blockSize)
    ensures (PointersInRange(core.geo, core.disk, Slots(raw))
             && forall x: nat :: Leaf(core.disk, Slots(raw), Ptrs(core.geo), x) < core.sb.blocksCount) ==> r.Ok?
  {
    hide Geo.Valid, DescMatches, Leaf, Slots;
    BlockSizePositive(core.geo);
    var bs := core.sb.blockSize;
    var done := 0;
    while done < buf.Length
      invariant 0 <= done <= buf.Length
      invariant forall k :: 0 <= k < done ==>
                  buf[k] == ByteIn(core.geo, core.disk, Slots(raw), BlockIndex(offset + k, bs), (offset + k) % bs)
    {
      var pos := offset + done;
      var index, blockOff := BlockIndex(pos, bs), pos % bs;
      var n := if bs - blockOff < buf.Length - done then bs - blockOff else buf.Length - done;
      var block :- BlockForIndex(core, raw, index);
      ghost var before := buf[..];
      if block.Some? {
        var b :- core.BlockVec(block.value);
        forall k | 0 <= k < n { buf[done + k] := b[blockOff + k]; }
      } else {
        forall k | 0 <= k < n { buf[done + k] := 0; }
      }
      forall k | 0 <= k < done + n
        ensures buf[k] == ByteIn(core.geo, core.disk, Slots(raw), BlockIndex(offset + k, bs), (offset + k) % bs)
      {
        if k >= done {
          SameBlock(pos, k - done, bs);
          assert buf[k] == buf[done + (k - done)];
        } else {
          assert buf[k] == before[k];
        }
      }
      done := done + n;
    }
    return Ok(());
  }

  lemma BlockSizePositive(g: Geo)
    requires g.Valid()
    ensures g.sb.blockSize >= 1024 && g.sb.blockSize < 0x1_0000
  {
  }

  lemma SameBlock(pos: nat, k: nat, bs: nat)
    requires bs > 0 && pos % bs + k < bs
    ensures (pos + k) / bs == pos / bs && (pos + k) % bs == pos % bs + k
  {
    Arith.DivMod(pos, bs);
    Arith.DivModUnique(pos / bs, pos % bs + k, bs);
  }

  // Byte-range writes

  ghost predicate SameHeader(raw: RawInode, raw': RawInode) {
    && raw.Valid() && raw'.Valid() && |raw'.buf| == |raw.buf|
    && raw'.Mode() == raw.Mode() && raw'.Size() == raw.Size() && raw'.LinksCount() == raw.LinksCount()
  }

  /** Bytes [off, off + |chunk|) of block `index` became chunk; every other byte of the file is as before. */
  ghost predicate ChunkWritten(g: Geo, a: Img, s: seq<nat>, h: Img, s': seq<nat>, index: nat, off: nat,
                               chunk: seq<byte>)
    requires g.Valid()
  {
    forall x: nat, o: nat :: o < g.sb.blockSize ==>
      ByteIn(g, h, s', x, o) == if x == index && off <= o < off + |chunk| then chunk[o - off] else ByteIn(g, a, s, x, o)
  }

  /** Every index that had a block still has it. */
  ghost predicate StillMapped(g: Geo, a: Img, s: seq<nat>, h: Img, s': seq<nat>)
    requires g.Valid()
  {
    forall x: nat :: Leaf(a, s, Ptrs(g), x) != 0 ==> Leaf(h, s', Ptrs(g), x) == Leaf(a, s, Ptrs(g), x)
  }

  lemma GrowthStillMapped(g: Geo, a: Img, s: seq<nat>, h: Img, s': seq<nat>, index: nat)
    requires g.Valid() && index < Capacity(Ptrs(g)) && Grown(Ptrs(g), a, s, h, s', LeafPath(Ptrs(g), index))
    ensures StillMapped(g, a, s, h, s') && ChunkWritten(g, a, s, h, s', index, 0, [])
  {
    hide Geo.Valid, Leaf, Grown, LeafPath, Capacity;
    forall x: nat | Leaf(a, s, Ptrs(g), x) != 0 ensures Leaf(h, s', Ptrs(g), x) == Leaf(a, s, Ptrs(g), x) {
      if x != index {
        OtherIndicesUnchanged(g, a, s, h, s', index, x);
      } else {
        MappedIndexKept(g, a, s, h, s', index);
      }
    }
    forall x: nat, o: nat | o < g.sb.blockSize ensures ByteIn(g, h, s', x, o) == ByteIn(g, a, s, x, o) {
      GrowthInvisible(g, a, s, h, s', index, x, o);
    }
  }

  lemma WriteStillMapped(g: Geo, a: Img, s: seq<nat>, d: Img, h: Img, nodes: map<nat, Node>, i: nat)
    requires g.Valid() && i in nodes && StillMapped(g, a, s, d, nodes[i].slots) && SameTrees(g, d, h, nodes)
    ensures StillMapped(g, a, s, h, nodes[i].slots)
  {
    hide Geo.Valid, Leaf, SameTrees;
    forall x: nat ensures Leaf(h, nodes[i].slots, Ptrs(g), x) == Leaf(d, nodes[i].slots, Ptrs(g), x) {
      SameLeaf(g, d, h, nodes, i, x);
    }
  }

  lemma SameLeaf(g: Geo, a: Img, h: Img, nodes: map<nat, Node>, i: nat, x: nat)
    requires g.Valid() && i in nodes && SameTrees(g, a, h, nodes)
    ensures Leaf(h, nodes[i].slots, Ptrs(g), x) == Leaf(a, nodes[i].slots, Ptrs(g), x)
  {
    hide Geo.Valid, At, LeafPath;
    if x < Capacity(Ptrs(g)) { LeafPathOfIndex(Ptrs(g), x); }
  }

  lemma LeafInRange(g: Geo, a: Img, nodes: map<nat, Node>, i: nat, x: nat)
    requires Inv(g, a, nodes) && i in nodes && Leaf(a, nodes[i].slots, Ptrs(g), x) != 0
    ensures var b := Leaf(a, nodes[i].slots, Ptrs(g), x);
            g.IsData(b) && b < |a| == g.sb.blocksCount && |a[b]| == g.sb.blockSize && BlockOf(a, b) == a[b]
  {
    hide At, Marked, MetaMarked, InodesMarked, Apart, DirsClosed, Geo.Valid, DescMatches, LeafPath;
    LeafPathOfIndex(Ptrs(g), x);
    assert g.IsData(At(a, nodes[i].slots, LeafPath(Ptrs(g), x)));
    DataInRange(g, a, At(a, nodes[i].slots, LeafPath(Ptrs(g), x)));
  }

  lemma ChunkEffect(g: Geo, a: Img, s: seq<nat>, d: Img, nodes: map<nat, Node>, i: nat, index: nat, off: nat,
                    chunk: seq<byte>, buf: seq<byte>)
    requires Inv(g, d, nodes) && i in nodes && index < Capacity(Ptrs(g))
    requires Grown(Ptrs(g), a, s, d, nodes[i].slots, LeafPath(Ptrs(g), index))
    requires var b := Leaf(d, nodes[i].slots, Ptrs(g), index);
             && 0 < b < |d| && SameTrees(g, d, d[b := buf], nodes) && |buf| == |d[b]| == g.sb.blockSize
             && forall o :: 0 <= o < |buf| ==> buf[o] == if off <= o < off + |chunk| then chunk[o - off] else d[b][o]
    ensures ChunkWritten(g, a, s, d[Leaf(d, nodes[i].slots, Ptrs(g), index) := buf], nodes[i].slots, index, off, chunk)
  {
    hide Inv, Geo.Valid, Leaf, Grown, SameTrees, LeafPath, Capacity;
    InvValid(g, d, nodes);
    var b := Leaf(d, nodes[i].slots, Ptrs(g), index);
    var h := d[b := buf];
    forall x: nat, o: nat | o < g.sb.blockSize
      ensures ByteIn(g, h, nodes[i].slots, x, o)
              == if x == index && off <= o < off + |chunk| then chunk[o - off] else ByteIn(g, a, s, x, o)
    {
      GrowthInvisible(g, a, s, d, nodes[i].slots, index, x, o);
      LeafWriteContent(g, d, nodes, i, index, buf, x, o);
    }
  }

  // What a crash image shows of a write

  /** Bytes outside the chunk are as before, bytes inside it as before or new; indices that had a block have it. */
  ghost predicate ChunkPart(g: Geo, a: Img, s: seq<nat>, h: Img, index: nat, off: nat, chunk: seq<byte>)
    requires g.Valid()
  {
    && StillMapped(g, a, s, h, s)
    && forall x: nat, o: nat :: o < g.sb.blockSize ==>
         || ByteIn(g, h, s, x, o) == ByteIn(g, a, s, x, o)
         || (x == index && off <= o < off + |chunk| && ByteIn(g, h, s, x, o) == chunk[o - off])
  }

  ghost predicate ChunkSince(g: Geo, a: Img, h0: seq<Img>, h1: seq<Img>, s: seq<nat>, index: nat, off: nat,
                             chunk: seq<byte>)
    requires g.Valid()
  {
    h0 <= h1 && forall k :: |h0| <= k < |h1| ==> ChunkPart(g, a, s, h1[k], index, off, chunk)
  }

  /** Seen through fewer slots, a block that was there is there, and any other is there or missing. */
  lemma FewerSlots(g: Geo, a: Img, s: seq<nat>, h: Img, s': seq<nat>, x: nat)
    requires g.Valid() && Within(s, s') && StillMapped(g, a, s, h, s')
    ensures Leaf(h, s, Ptrs(g), x) == 0 || Leaf(h, s, Ptrs(g), x) == Leaf(h, s', Ptrs(g), x)
    ensures Leaf(a, s, Ptrs(g), x) != 0 ==> Leaf(h, s, Ptrs(g), x) == Leaf(a, s, Ptrs(g), x)
  {
    hide Geo.Valid, At, Within, LeafPath;
    if x < Capacity(Ptrs(g)) {
      WithinAt(h, s, s', LeafPath(Ptrs(g), x));
      if Leaf(a, s, Ptrs(g), x) != 0 { SameRoot(a, h, s, s', LeafPath(Ptrs(g), x)); }
    }
  }

  lemma ChunkSeen(g: Geo, a: Img, s: seq<nat>, h: Img, s': seq<nat>, index: nat, off: nat, chunk: seq<byte>)
    requires g.Valid() && Within(s, s') && StillMapped(g, a, s, h, s')
    requires ChunkWritten(g, a, s, h, s', index, off, chunk)
    ensures ChunkPart(g, a, s, h, index, off, chunk)
  {
    hide Geo.Valid, Leaf, Within, StillMapped;
    assert StillMapped(g, a, s, h, s) by { hide *; SeenMapped(g, a, s, h, s'); }
    forall x: nat, o: nat | o < g.sb.blockSize
      ensures || ByteIn(g, h, s, x, o) == ByteIn(g, a, s, x, o)
              || (x == index && off <= o < off + |chunk| && ByteIn(g, h, s, x, o) == chunk[o - off])
    {
      FewerSlots(g, a, s, h, s', x);
    }
  }

  lemma SeenMapped(g: Geo, a: Img, s: seq<nat>, h: Img, s': seq<nat>)
    requires g.Valid() && Within(s, s') && StillMapped(g, a, s, h, s')
    ensures StillMapped(g, a, s, h, s)
  {
    hide Geo.Valid, Leaf, Within;
    forall x: nat | Leaf(a, s, Ptrs(g), x) != 0 ensures Leaf(h, s, Ptrs(g), x) == Leaf(a, s, Ptrs(g), x) {
      FewerSlots(g, a, s, h, s', x);
    }
  }

  /** While the tree grows no byte changes. */
  lemma GrowthSeen(g: Geo, a: Img, h0: seq<Img>, h1: seq<Img>, s: seq<nat>, index: nat, off: nat, chunk: seq<byte>)
    requires g.Valid() && index < Capacity(Ptrs(g))
    requires GrownSince(Ptrs(g), a, h0, h1, s, LeafPath(Ptrs(g), index))
    ensures ChunkSince(g, a, h0, h1, s, index, off, chunk)
  {
    hide Geo.Valid, Grown, LeafPath, Capacity, StillMapped, ByteIn;
    forall k | |h0| <= k < |h1| ensures ChunkPart(g, a, s, h1[k], index, off, chunk) {
      GrowthStillMapped(g, a, s, h1[k], s, index);
    }
  }

  lemma ChunkSinceSnoc(g: Geo, a: Img, h0: seq<Img>, h1: seq<Img>, s: seq<nat>, index: nat, off: nat, chunk: seq<byte>,
                       h: Img)
    requires g.Valid() && ChunkSince(g, a, h0, h1, s, index, off, chunk) && ChunkPart(g, a, s, h, index, off, chunk)
    ensures ChunkSince(g, a, h0, h1 + [h], s, index, off, chunk)
  {
    hide Geo.Valid, ChunkPart;
  }

  /** Every byte of the file, read in h through slots t, is the old one or the one to be written there. */
  ghost predicate PartWritten(g: Geo, a: Img, s: seq<nat>, h: Img, t: seq<nat>, at: nat, data: seq<byte>)
    requires g.Valid()
  {
    forall pos: nat ::
      || ByteAt(g, h, t, pos) == ByteAt(g, a, s, pos)
      || (at <= pos < at + |data| && ByteAt(g, h, t, pos) == data[pos - at])
  }

  ghost predicate PartSince(g: Geo, a: Img, h0: seq<Img>, h1: seq<Img>, s: seq<nat>, at: nat, data: seq<byte>)
    requires g.Valid()
  {
    h0 <= h1 && forall k :: |h0| <= k < |h1| ==> PartWritten(g, a, s, h1[k], s, at, data)
  }

  lemma RangeIsPart(g: Geo, a: Img, s: seq<nat>, h: Img, t: seq<nat>, at: nat, data: seq<byte>, n: nat)
    requires g.Valid() && n <= |data| && RangeWritten(g, a, s, h, t, at, data[..n])
    ensures PartWritten(g, a, s, h, t, at, data)
  {
    hide Geo.Valid, ByteAt;
  }

  /** A chunk's images after the chunks before it, through the slots the write began with. */
  lemma PartSeen(g: Geo, a: Img, s: seq<nat>, b: Img, s': seq<nat>, h: Img, at: nat, data: seq<byte>, i: nat, n: nat)
    requires g.Valid() && g.sb.blockSize > 0 && i + n <= |data| && Within(s, s') && StillMapped(g, a, s, b, s')
    requires InBlock(at + i, g.sb.blockSize) + n <= g.sb.blockSize
    requires RangeWritten(g, a, s, b, s', at, data[..i])
    requires ChunkPart(g, b, s', h, BlockNo(at + i, g.sb.blockSize), InBlock(at + i, g.sb.blockSize), data[i..i + n])
    ensures PartWritten(g, a, s, h, s, at, data)
  {
    hide Geo.Valid, Leaf, Within, StillMapped, BlockNo, InBlock, RangeWritten, ChunkPart;
    var bs := g.sb.blockSize;
    assert StillMapped(g, a, s, h, s') by { hide *; MappedTwice(g, a, s, b, s', h, BlockNo(at + i, g.sb.blockSize),
                                                      InBlock(at + i, g.sb.blockSize), data[i..i + n]); }
    forall pos: nat
      ensures || ByteAt(g, h, s, pos) == ByteAt(g, a, s, pos)
              || (at <= pos < at + |data| && ByteAt(g, h, s, pos) == data[pos - at])
    {
      FewerSlots(g, a, s, h, s', BlockNo(pos, bs));
      PartAt(g, a, s, b, s', h, at, data, i, n, pos);
    }
  }

  lemma MappedTwice(g: Geo, a: Img, s: seq<nat>, b: Img, s': seq<nat>, h: Img, index: nat, off: nat, chunk: seq<byte>)
    requires g.Valid() && StillMapped(g, a, s, b, s') && ChunkPart(g, b, s', h, index, off, chunk)
    ensures StillMapped(g, a, s, h, s')
  {
    hide Geo.Valid, Leaf, ByteIn;
  }

  lemma PartAt(g: Geo, a: Img, s: seq<nat>, b: Img, s': seq<nat>, h: Img, at: nat, data: seq<byte>, i: nat, n: nat,
               pos: nat)
    requires g.Valid() && g.sb.blockSize > 0 && i + n <= |data|
    requires InBlock(at + i, g.sb.blockSize) + n <= g.sb.blockSize
    requires RangeWritten(g, a, s, b, s', at, data[..i])
    requires ChunkPart(g, b, s', h, BlockNo(at + i, g.sb.blockSize), InBlock(at + i, g.sb.blockSize), data[i..i + n])
    ensures || ByteAt(g, h, s', pos) == ByteAt(g, a, s, pos)
            || (at <= pos < at + |data| && ByteAt(g, h, s', pos) == data[pos - at])
  {
    hide Geo.Valid, ByteIn, BlockNo, InBlock, StillMapped;
    var bs := g.sb.blockSize;
    InChunk(pos, at + i, n, bs);
    assert ByteAt(g, b, s', pos) == if at <= pos < at + i then data[..i][pos - at] else ByteAt(g, a, s, pos);
  }

  /** One block's worth of a write: find or allocate the block, then rewrite it whole or in part. */
  method WriteChunk(core: Ext2Core, raw: RawInode, index: nat, blockOff: nat, chunk: seq<byte>,
                    ghost nodes: map<nat, Node>, ghost i: nat)
    returns (r: Result<()>, raw': RawInode)
    requires Writing(core, nodes, i) && raw.Valid() && nodes[i] == Node(Slots(raw), 0)
    requires 0 < |chunk| && blockOff + |chunk| <= core.sb.blockSize
    modifies core
    ensures SameHeader(raw, raw') && Writing(core, WithRaw(nodes, i, raw'), i)
    ensures Quiet(core.geo, old(core.disk), core.disk, nodes, i)
    ensures QuietSince(core.geo, old(core.disk), old(core.history), core.history, nodes, i)
    ensures ChunkWritten(core.geo, old(core.disk), Slots(raw), core.disk, Slots(raw'), index, blockOff,
                         if r.Ok? then chunk else [])
    ensures StillMapped(core.geo, old(core.disk), Slots(raw), core.disk, Slots(raw'))
    ensures r.Ok? ==> index < Capacity(Ptrs(core.geo)) && Leaf(core.disk, Slots(raw'), Ptrs(core.geo), index) != 0
    ensures r.Err? ==> r.error == if index < Capacity(Ptrs(core.geo)) then NoSpace else TooLarge
    ensures index >= Capacity(Ptrs(core.geo)) ==> r.Err? && core.disk == old(core.disk) && raw' == raw
    ensures r == Err(NoSpace) ==> RanOut(core.geo, old(core.disk), core.disk)
    ensures Within(Slots(raw), Slots(raw'))
    ensures ChunkSince(core.geo, old(core.disk), old(core.history), core.history, Slots(raw), index, blockOff, chunk)
    ensures CountersOk(core.geo, old(core.disk)) ==> CountersOk(core.geo, core.disk)
    ensures Dirs(core.geo, core.disk) == Dirs(core.geo, old(core.disk))
  {
    hide Dirs, Inv, Ahead, Geo.Valid, DescMatches, StepOk, CountersOk, Grown, Leaf, LeafPath, Quiet, RawInode.Mode,
         RawInode.Size, RawInode.LinksCount, ChunkWritten, Capacity, SameTrees, StillMapped, ChunkPart, RanOut, Within,
         GrownSince;
    ghost var a, h0, g := core.disk, core.history, core.geo;
    SelfWithin(Slots(raw));
    var b;
    b, raw' := BlockForIndexAlloc(core, raw, index, nodes, i);
    ghost var nodes', d1, h1 := WithRaw(nodes, i, raw'), core.disk, core.history;
    if b.Err? {
      if index >= Capacity(Ptrs(g)) {
        SelfStep(g, a, nodes, i);
        NothingChunked(g, a, Slots(raw), index, blockOff);
      } else {
        GrowthSeen(g, a, h0, h1, Slots(raw), index, blockOff, chunk);
        GrownWithin(Ptrs(g), a, Slots(raw), d1, Slots(raw'), LeafPath(Ptrs(g), index));
        GrowthStillMapped(g, a, Slots(raw), d1, Slots(raw'), index);
        EmptyChunk(g, a, Slots(raw), d1, Slots(raw'), index, 0, blockOff);
      }
      return Err(b.error), raw';
    }
    GrowthStillMapped(g, a, Slots(raw), d1, Slots(raw'), index);
    GrowthSeen(g, a, h0, h1, Slots(raw), index, blockOff, chunk);
    GrownWithin(Ptrs(g), a, Slots(raw), d1, Slots(raw'), LeafPath(Ptrs(g), index));
    LeafInRange(g, d1, nodes', i, index);
    ghost var new' := chunk;
    if |chunk| == core.sb.blockSize {
      r := core.WriteBlock(b.value, chunk);
    } else {
      var buf := core.BlockVec(b.value);
      new' := Patch(buf.value, blockOff, chunk);
      r := core.WriteBlock(b.value, Patch(buf.value, blockOff, chunk));
    }
    LeafStep(g, d1, nodes', i, index, new');
    ChunkEffect(g, a, Slots(raw), d1, nodes', i, index, blockOff, chunk, new');
    WriteStillMapped(g, a, Slots(raw), d1, core.disk, nodes', i);
    SameLeaf(g, d1, core.disk, nodes', i, index);
    LeafIsQuiet(g, a, d1, core.disk, nodes, nodes', i);
    QuietSinceSnoc(g, a, core.disk, h0, h1, nodes, i);
    ChunkSeen(g, a, Slots(raw), core.disk, Slots(raw'), index, blockOff, chunk);
    ChunkSinceSnoc(g, a, h0, h1, Slots(raw), index, blockOff, chunk, core.disk);
  }

  /** A block written after a quiet step, still no record. */
  lemma LeafIsQuiet(g: Geo, a: Img, d: Img, h: Img, nodes: map<nat, Node>, nodes': map<nat, Node>, i: nat)
    requires Quiet(g, a, d, nodes, i) && SameOthers(nodes, nodes', i) && Ahead(g, d, nodes', i)
             && nodes'[i].dirBlocks == 0
    requires StepOk(g, d, h, nodes', i) && SameRecords(g, d, h, {})
    ensures Quiet(g, a, h, nodes, i)
  {
    hide Inv, Geo.Valid, DescMatches, StepOk, Rec, NodeOf, Within, Quiet, SameRecords, SameOthers;
    FileIsQuiet(g, d, h, nodes', i);
    QuietTransitive(g, a, d, h, nodes, nodes', i);
  }

  lemma NothingChunked(g: Geo, a: Img, s: seq<nat>, index: nat, off: nat)
    requires g.Valid()
    ensures ChunkWritten(g, a, s, a, s, index, off, []) && StillMapped(g, a, s, a, s)
  {
    hide Geo.Valid, Leaf, ByteIn;
  }

  lemma EmptyChunk(g: Geo, a: Img, s: seq<nat>, h: Img, s': seq<nat>, index: nat, off: nat, off': nat)
    requires g.Valid() && ChunkWritten(g, a, s, h, s', index, off, [])
    ensures ChunkWritten(g, a, s, h, s', index, off', [])
  {
    hide Geo.Valid, ByteIn;
  }

  /** Bytes [offset, offset + |data|) of the file became data; every other byte is as before. */
  ghost predicate RangeWritten(g: Geo, a: Img, s: seq<nat>, h: Img, s': seq<nat>, offset: nat, data: seq<byte>)
    requires g.Valid()
  {
    forall pos: nat ::
      ByteAt(g, h, s', pos) == if offset <= pos < offset + |data| then data[pos - offset] else ByteAt(g, a, s, pos)
  }

  /** A range written so far and the next chunk make a longer range. */
  lemma RangeExtend(g: Geo, a: Img, sa: seq<nat>, b: Img, sb: seq<nat>, c: Img, sc: seq<nat>, offset: nat,
                    data: seq<byte>, done: nat, n: nat)
    requires g.Valid() && done + n <= |data| && g.sb.blockSize > 0
    requires InBlock(offset + done, g.sb.blockSize) + n <= g.sb.blockSize
    requires RangeWritten(g, a, sa, b, sb, offset, data[..done])
    requires ChunkWritten(g, b, sb, c, sc, BlockNo(offset + done, g.sb.blockSize),
                          InBlock(offset + done, g.sb.blockSize), data[done..done + n])
    ensures RangeWritten(g, a, sa, c, sc, offset, data[..done + n])
  {
    hide ByteAt, Geo.Valid, ChunkWritten, BlockNo, InBlock;
    BlockSizePositive(g);
    forall pos: nat
      ensures ByteAt(g, c, sc, pos)
              == if offset <= pos < offset + (done + n) then data[..done + n][pos - offset] else ByteAt(g, a, sa, pos)
    {
      ChunkAt(g, b, sb, c, sc, offset + done, data[done..done + n], pos);
      assert ByteAt(g, b, sb, pos) == if offset <= pos < offset + done then data[..done][pos - offset]
             else ByteAt(g, a, sa, pos);
    }
  }

  lemma ChunkAt(g: Geo, b: Img, sb: seq<nat>, c: Img, sc: seq<nat>, at: nat, chunk: seq<byte>, pos: nat)
    requires g.Valid() && g.sb.blockSize > 0 && InBlock(at, g.sb.blockSize) + |chunk| <= g.sb.blockSize
    requires ChunkWritten(g, b, sb, c, sc, BlockNo(at, g.sb.blockSize), InBlock(at, g.sb.blockSize), chunk)
    ensures ByteAt(g, c, sc, pos) == if at <= pos < at + |chunk| then chunk[pos - at] else ByteAt(g, b, sb, pos)
  {
    hide ByteIn, Geo.Valid, BlockNo, InBlock;
    InChunk(pos, at, |chunk|, g.sb.blockSize);
  }

  lemma InChunk(pos: nat, at: nat, n: nat, bs: nat)
    requires bs > 0 && InBlock(at, bs) + n <= bs
    ensures (BlockNo(pos, bs) == BlockNo(at, bs) && InBlock(at, bs) <= InBlock(pos, bs) < InBlock(at, bs) + n) <==>
              at <= pos < at + n
    ensures at <= pos < at + n ==> InBlock(pos, bs) - InBlock(at, bs) == pos - at
  {
    Arith.DivMod(pos, bs);
    Arith.DivMod(at, bs);
    if at <= pos < at + n { SameBlock(at, pos - at, bs); }
  }

  lemma IndexesFit(g: Geo)
    requires g.Valid()
    ensures Capacity(Ptrs(g)) < 0x1_0000_0000
  {
    CapacityBound(Ptrs(g));
  }

  lemma CapacityBound(p: nat)
    requires p <= 1024
    ensures Capacity(p) < 0x1_0000_0000
  {
    Arith.MulMono(p, 1024, p);
    assert DoubleCap(p) <= 1024 * 1024;
    Arith.MulMono(DoubleCap(p), 1024 * 1024, p);
  }

  lemma FirstPart(g: Geo, a: Img, s: seq<nat>, offset: nat)
    requires g.Valid()
    ensures RangeWritten(g, a, s, a, s, offset, []) && Mapped(g, a, s, offset, 0)
  {
    hide Geo.Valid, ByteAt;
  }

  /** No position of the range lies in a hole. */
  ghost predicate Mapped(g: Geo, d: Img, slots: seq<nat>, at: nat, n: nat)
    requires g.Valid()
  {
    forall pos: nat :: at <= pos < at + n ==> Leaf(d, slots, Ptrs(g), BlockNo(pos, g.sb.blockSize)) != 0
  }

  lemma MappedExtend(g: Geo, a: Img, s: seq<nat>, h: Img, s': seq<nat>, at: nat, done: nat, n: nat)
    requires g.Valid() && g.sb.blockSize > 0 && Mapped(g, a, s, at, done) && StillMapped(g, a, s, h, s')
    requires InBlock(at + done, g.sb.blockSize) + n <= g.sb.blockSize
             && Leaf(h, s', Ptrs(g), BlockNo(at + done, g.sb.blockSize)) != 0
    ensures Mapped(g, h, s', at, done + n)
  {
    hide Geo.Valid, Leaf, BlockNo, InBlock;
    forall pos: nat | at <= pos < at + (done + n) ensures Leaf(h, s', Ptrs(g), BlockNo(pos, g.sb.blockSize)) != 0 {
      if pos >= at + done { InChunk(pos, at + done, n, g.sb.blockSize); }
    }
  }

  // A write far out

  /** Beyond 2^32 blocks nothing is ever read back where it was written: a write there that succeeds changes
      the bytes it lands on instead, and the range itself still reads as zeros. */
  lemma FarWriteMisses(g: Geo, a: Img, s: seq<nat>, h: Img, s': seq<nat>, offset: nat, data: seq<byte>, k: nat)
    requires g.Valid() && g.sb.blockSize > 0 && k < |data| && data[k] != 0
    requires RangeWritten(g, a, s, h, s', Landing(offset, g.sb.blockSize), data)
    ensures RangeWritten(g, a, s, h, s', offset, data) <==> offset < 0x1_0000_0000 * g.sb.blockSize
  {
    hide Geo.Valid, Capacity, BlockIndex, InBlock, Landing, ByteAt;
    var bs := g.sb.blockSize;
    LandingIs(offset, bs);
    if offset >= 0x1_0000_0000 * bs {
      Arith.DivLess(offset + k, bs, 0x1_0000_0000);
      IndexesFit(g);
      BeyondIsZero(g, h, s', offset + k);
    }
  }

  lemma BeyondIsZero(g: Geo, h: Img, s: seq<nat>, pos: nat)
    requires g.Valid() && g.sb.blockSize > 0 && BlockNo(pos, g.sb.blockSize) >= Capacity(Ptrs(g))
    ensures ByteAt(g, h, s, pos) == 0
  {
    hide Geo.Valid, At, LeafPath, Capacity;
  }

  /** One byte written 2^32 blocks into a file replaces the file's first byte. */
  lemma FarByteHitsTheFirst(g: Geo, a: Img, s: seq<nat>, h: Img, s': seq<nat>, x: byte)
    requires g.Valid() && g.sb.blockSize > 0 && x != 0
    requires RangeWritten(g, a, s, h, s', Landing(0x1_0000_0000 * g.sb.blockSize, g.sb.blockSize), [x])
    ensures ByteAt(g, h, s', 0) == x && ByteAt(g, h, s', 0x1_0000_0000 * g.sb.blockSize) == 0
    ensures !RangeWritten(g, a, s, h, s', 0x1_0000_0000 * g.sb.blockSize, [x])
  {
    hide Geo.Valid, ByteAt;
    var far := 0x1_0000_0000 * g.sb.blockSize;
    Arith.DivModUnique(1, 0, far);
    assert Landing(far, g.sb.blockSize) == 0;
    FarWriteMisses(g, a, s, h, s', far, [x], 0);
    IndexesFit(g);
    Arith.DivLess(far, g.sb.blockSize, 0x1_0000_0000);
    BeyondIsZero(g, h, s', far);
  }

  /** A record the driver writes file data through: a regular file, or a symlink whose target is long
      enough to need blocks; sizes fit the record. */
  ghost predicate Writable(raw: RawInode, end: nat) {
    && raw.Valid()
    && (raw.IsReg() || raw.IsSymlink())
    && (raw.IsReg() ==> end < 0x1_0000_0000_0000_0000)
    && (raw.IsSymlink() ==> 60 <= end < 0x1_0000_0000)
  }

  lemma EmptySince(g: Geo, a: Img, h0: seq<Img>, nodes: map<nat, Node>, i: nat)
    ensures QuietSince(g, a, h0, h0, nodes, i)
  {
  }

  /** The final record: same type and pointers, size grown to the end of the write. */
  lemma Resized(g: Geo, raw: RawInode, mem: RawInode, raw': RawInode, end: nat)
    requires g.Valid() && SameHeader(raw, mem) && Writable(raw, end)
    requires raw' == if end > mem.Size() then mem.SetSize(end) else mem
    ensures raw'.Valid() && |raw'.buf| == |raw.buf| && SameLinks(raw, raw')
            && raw'.Size() == Arith.Max(raw.Size(), end)
    ensures Slots(raw') == Slots(mem) && g.sb.blockSize > 0 && NodeOf(g, raw') == Node(Slots(raw'), 0)
  {
    hide RawInode.Size, RawInode.SetSize, RawInode.Mode, RawInode.LinksCount, RawInode.IBlock;
    BlockSizePositive(g);
    if end > mem.Size() { SetSizeEffect(mem, end); }
    assert Slots(raw') == Slots(mem);
  }

  lemma FinishWrite(g: Geo, a: Img, mid: Img, h: Img, nodes: map<nat, Node>, nodes': map<nat, Node>, i: nat,
                    raw: RawInode)
    requires StepOk(g, a, mid, nodes, i) && SameOthers(nodes, nodes', i)
    requires Inv(g, mid, nodes') && Ahead(g, mid, nodes', i) && RecordWritten(g, mid, h, i, raw) && raw.Valid()
    requires g.sb.blockSize > 0 && NodeOf(g, raw) == nodes'[i]
    ensures Inv(g, h, nodes') && Ahead(g, h, nodes', i) && StepOk(g, a, h, nodes, i)
    ensures Rec(g, h, i) == raw && Intact(g, mid, h, nodes'[i]) && (CountersOk(g, mid) ==> CountersOk(g, h))
  {
    hide Inv, StepOk, Intact, CountersOk, NodeOf, Within, Geo.Valid, DescMatches, SameCounters, SameMarks,
         SameRecords, SameOthers;
    RecordStep(g, mid, h, nodes', i, raw);
    StepOkTransitive(g, a, mid, h, nodes, nodes', i);
  }

  lemma ContentUnmoved(g: Geo, a: Img, s: seq<nat>, mid: Img, h: Img, node: Node, offset: nat, data: seq<byte>)
    requires g.Valid() && RangeWritten(g, a, s, mid, node.slots, offset, data) && Intact(g, mid, h, node)
    requires Mapped(g, mid, node.slots, offset, |data|)
    ensures RangeWritten(g, a, s, h, node.slots, offset, data) && Mapped(g, h, node.slots, offset, |data|)
  {
    hide ByteAt, Intact, Geo.Valid, Leaf, BlockNo;
    forall x: nat ensures Leaf(h, node.slots, Ptrs(g), x) == Leaf(mid, node.slots, Ptrs(g), x) {
      IntactLeaf(g, mid, h, node, x);
    }
    forall pos: nat ensures ByteAt(g, h, node.slots, pos) == ByteAt(g, mid, node.slots, pos) {
      IntactContent(g, mid, h, node, pos);
    }
  }

  /** The chunks of a write, one block at a time; after a failure, those before it are in place. */
  method WriteChunks(core: Ext2Core, ghost ino: nat, raw: RawInode, offset: nat, data: seq<byte>,
                     ghost nodes: map<nat, Node>)
    returns (r: Result<()>, raw': RawInode, ghost done: nat)
    requires Writing(core, nodes, ino) && raw.Valid() && nodes[ino] == Node(Slots(raw), 0) && data != []
             && core.sb.blockSize > 0
    modifies core
    ensures SameHeader(raw, raw') && Writing(core, WithRaw(nodes, ino, raw'), ino)
    ensures Quiet(core.geo, old(core.disk), core.disk, nodes, ino)
    ensures QuietSince(core.geo, old(core.disk), old(core.history), core.history, nodes, ino)
    ensures CountersOk(core.geo, old(core.disk)) ==> CountersOk(core.geo, core.disk)
    ensures done <= |data| && (r.Ok? <==> done == |data|)
    ensures RangeWritten(core.geo, old(core.disk), Slots(raw), core.disk, Slots(raw'),
                         Landing(offset, core.sb.blockSize), data[..done])
    ensures Mapped(core.geo, core.disk, Slots(raw'), Landing(offset, core.sb.blockSize), done)
    ensures r.Ok? ==> Landing(offset, core.sb.blockSize) + |data| <= Capacity(Ptrs(core.geo)) * core.sb.blockSize
    ensures r.Err? ==> r == Err(NoSpace) || r == Err(TooLarge)
    ensures r == Err(NoSpace) ==> RanOut(core.geo, old(core.disk), core.disk)
    ensures PartSince(core.geo, old(core.disk), old(core.history), core.history, Slots(raw),
                      Landing(offset, core.sb.blockSize), data)
    ensures r == Err(TooLarge) ==>
              Landing(offset, core.sb.blockSize) + |data| > Capacity(Ptrs(core.geo)) * core.sb.blockSize
    ensures Landing(offset, core.sb.blockSize) >= Capacity(Ptrs(core.geo)) * core.sb.blockSize ==>
              r == Err(TooLarge) && core.disk == old(core.disk)
    ensures Dirs(core.geo, core.disk) == Dirs(core.geo, old(core.disk))
  {
    hide Dirs, Inv, Ahead, Geo.Valid, DescMatches, CountersOk, RawInode.Mode, RawInode.LinksCount, RawInode.Size,
         ChunkWritten, RangeWritten, Capacity, BlockIndex, BlockNo, InBlock, SameOthers, Quiet, Landing, Mapped,
         StillMapped, Leaf, RanOut, Within, ChunkPart, PartWritten, ChunkSince, PartSince;
    ghost var a, h0, g := core.disk, core.history, core.geo;
    raw' := raw;
    SelfWithin(Slots(raw));
    NothingChunked(g, a, Slots(raw), 0, 0);
    PartStarts(g, a, h0, Slots(raw), Landing(offset, core.sb.blockSize), data);
    assert WithRaw(nodes, ino, raw) == nodes;
    SelfStep(g, a, nodes, ino);
    EmptySince(g, a, h0, nodes, ino);
    var bs := core.sb.blockSize;
    ghost var at := Landing(offset, bs);
    FirstPart(g, a, Slots(raw), at);
    var i := 0;
    done := 0;
    assert data[..0] == [];
    while i < |data|
      invariant 0 <= i == done <= |data|
      invariant SameHeader(raw, raw') && Writing(core, WithRaw(nodes, ino, raw'), ino)
      invariant Quiet(g, a, core.disk, nodes, ino) && QuietSince(g, a, h0, core.history, nodes, ino)
      invariant RangeWritten(g, a, Slots(raw), core.disk, Slots(raw'), at, data[..i])
                && Mapped(g, core.disk, Slots(raw'), at, i)
      invariant Within(Slots(raw), Slots(raw')) && StillMapped(g, a, Slots(raw), core.disk, Slots(raw'))
      invariant PartSince(g, a, h0, core.history, Slots(raw), at, data)
      invariant i > 0 ==> at + i <= Capacity(Ptrs(g)) * bs
      invariant i == 0 ==> core.disk == a
      invariant (CountersOk(g, a) ==> CountersOk(g, core.disk)) && Dirs(g, core.disk) == Dirs(g, a)
    {
      var pos := offset + i;
      var index, blockOff := BlockIndex(pos, bs), InBlock(pos, bs);
      var n := if bs - blockOff < |data| - i then bs - blockOff else |data| - i;
      LandsOn(g, offset, i);
      ChunkIndex(g, at + i, n);
      ghost var b, h1, cur, nodes' := core.disk, core.history, raw', WithRaw(nodes, ino, raw');
      var w;
      w, raw' := WriteChunk(core, raw', index, blockOff, data[i..i + n], nodes', ino);
      assert WithRaw(nodes', ino, raw') == WithRaw(nodes, ino, raw');
      QuietTransitive(g, a, b, core.disk, nodes, nodes', ino);
      QuietSinceTransitive(g, a, b, h0, h1, core.history, nodes, nodes', ino);
      PartGrows(g, a, Slots(raw), b, Slots(cur), h0, h1, core.history, at, data, i, n);
      MappedThrough(g, a, Slots(raw), b, Slots(cur), core.disk, Slots(raw'));
      WithinTransitive(Slots(raw), Slots(cur), Slots(raw'));
      if w == Err(NoSpace) { RanOutLater(g, a, b, core.disk); }
      if w.Err? {
        NoneExtend(g, a, Slots(raw), b, Slots(cur), core.disk, Slots(raw'), at, data, i);
        MappedStays(g, b, Slots(cur), core.disk, Slots(raw'), at, i);
        return Err(w.error), raw', done;
      }
      RangeExtend(g, a, Slots(raw), b, Slots(cur), core.disk, Slots(raw'), at, data, i, n);
      MappedExtend(g, b, Slots(cur), core.disk, Slots(raw'), at, i, n);
      i := i + n;
      done := i;
    }
    assert data[..|data|] == data;
    return Ok(()), raw', done;
  }

  lemma PartStarts(g: Geo, a: Img, h: seq<Img>, s: seq<nat>, at: nat, data: seq<byte>)
    requires g.Valid()
    ensures PartSince(g, a, h, h, s, at, data)
  {
    hide Geo.Valid, PartWritten;
  }

  lemma PartGrows(g: Geo, a: Img, s: seq<nat>, b: Img, s': seq<nat>, h0: seq<Img>, h1: seq<Img>, h2: seq<Img>, at: nat,
                  data: seq<byte>, i: nat, n: nat)
    requires g.Valid() && g.sb.blockSize > 0 && i + n <= |data| && Within(s, s') && StillMapped(g, a, s, b, s')
    requires InBlock(at + i, g.sb.blockSize) + n <= g.sb.blockSize
    requires RangeWritten(g, a, s, b, s', at, data[..i]) && PartSince(g, a, h0, h1, s, at, data)
    requires ChunkSince(g, b, h1, h2, s', BlockNo(at + i, g.sb.blockSize), InBlock(at + i, g.sb.blockSize),
                        data[i..i + n])
    ensures PartSince(g, a, h0, h2, s, at, data)
  {
    hide Geo.Valid, Within, StillMapped, BlockNo, InBlock, RangeWritten, ChunkPart, PartWritten;
    forall k | |h0| <= k < |h2| ensures PartWritten(g, a, s, h2[k], s, at, data) {
      if k >= |h1| { PartSeen(g, a, s, b, s', h2[k], at, data, i, n); }
    }
  }

  lemma MappedThrough(g: Geo, a: Img, s: seq<nat>, b: Img, s': seq<nat>, c: Img, s'': seq<nat>)
    requires g.Valid() && StillMapped(g, a, s, b, s') && StillMapped(g, b, s', c, s'')
    ensures StillMapped(g, a, s, c, s'')
  {
    hide Geo.Valid, Leaf;
  }

  lemma WithinTransitive(s: seq<nat>, s': seq<nat>, s'': seq<nat>)
    requires Within(s, s') && Within(s', s'')
    ensures Within(s, s'')
  {
  }

  /** Position offset + done lands done bytes after where offset lands, while all lies within capacity. */
  lemma LandsOn(g: Geo, offset: nat, done: nat)
    requires g.Valid() && g.sb.blockSize > 0
    requires done > 0 ==> Landing(offset, g.sb.blockSize) + done <= Capacity(Ptrs(g)) * g.sb.blockSize
    ensures var bs, at := g.sb.blockSize, Landing(offset, g.sb.blockSize) + done;
            BlockIndex(offset + done, bs) == BlockNo(at, bs) && InBlock(offset + done, bs) == InBlock(at, bs)
  {
    hide Geo.Valid, Capacity, BlockIndex, InBlock, BlockNo, Landing;
    var bs := g.sb.blockSize;
    LandingIs(offset, bs);
    LandingIs(offset + done, bs);
    if done > 0 {
      IndexesFit(g);
      Below(Capacity(Ptrs(g)), bs);
      LandingAdd(offset, done, bs);
    }
  }

  lemma Below(c: nat, bs: nat)
    requires c < 0x1_0000_0000 && bs > 0
    ensures c * bs < 0x1_0000_0000 * bs
  {
    Arith.MulMono(c + 1, 0x1_0000_0000, bs);
    assert (c + 1) * bs == c * bs + bs;
  }

  /** A chunk that does not cross its block's end stays below capacity when its block does. */
  lemma ChunkIndex(g: Geo, at: nat, n: nat)
    requires g.Valid() && g.sb.blockSize > 0 && n > 0 && InBlock(at, g.sb.blockSize) + n <= g.sb.blockSize
    ensures BlockNo(at, g.sb.blockSize) < Capacity(Ptrs(g)) <==> at + n <= Capacity(Ptrs(g)) * g.sb.blockSize
    ensures BlockNo(at, g.sb.blockSize) < Capacity(Ptrs(g)) <==> at < Capacity(Ptrs(g)) * g.sb.blockSize
  {
    hide Geo.Valid, Capacity;
    var bs, c := g.sb.blockSize, Capacity(Ptrs(g));
    Arith.DivMod(at, bs);
    Arith.DivLess(at, bs, c);
    if at / bs < c { Arith.MulMono(at / bs + 1, c, bs); assert (at / bs + 1) * bs == at / bs * bs + bs; }
  }

  lemma NoneExtend(g: Geo, a: Img, sa: seq<nat>, b: Img, sb: seq<nat>, c: Img, sc: seq<nat>, at: nat, data: seq<byte>,
                   done: nat)
    requires g.Valid() && done <= |data| && g.sb.blockSize > 0 && RangeWritten(g, a, sa, b, sb, at, data[..done])
    requires ChunkWritten(g, b, sb, c, sc, BlockNo(at + done, g.sb.blockSize), InBlock(at + done, g.sb.blockSize), [])
    ensures RangeWritten(g, a, sa, c, sc, at, data[..done])
  {
    hide Geo.Valid, RangeWritten, ChunkWritten;
    assert data[done..done + 0] == [] && data[..done + 0] == data[..done];
    RangeExtend(g, a, sa, b, sb, c, sc, at, data, done, 0);
  }

  lemma MappedStays(g: Geo, a: Img, s: seq<nat>, h: Img, s': seq<nat>, at: nat, n: nat)
    requires g.Valid() && Mapped(g, a, s, at, n) && StillMapped(g, a, s, h, s')
    ensures Mapped(g, h, s', at, n)
  {
    hide Geo.Valid, Leaf;
  }

  /** Write `data` at `offset`, allocating what is missing, then persist the record.  The bytes go where the
      offset lands.  After any single block write on the way the volume is consistent and no other file has
      changed; the record changes last, or not at all. */
  method WriteFileRange(core: Ext2Core, ino: nat, raw: RawInode, offset: nat, data: seq<byte>,
                        ghost nodes: map<nat, Node>)
    returns (r: Result<nat>, raw': RawInode, ghost done: nat)
    requires Writing(core, nodes, ino) && |raw.buf| == core.sb.inodeSize && Writable(raw, offset + |data|)
    requires nodes[ino] == Node(Slots(raw), 0) && core.sb.blockSize > 0
    modifies core
    ensures core.Ready() && raw'.Valid() && |raw'.buf| == core.sb.inodeSize && SameLinks(raw, raw')
    ensures Writing(core, WithRaw(nodes, ino, raw'), ino)
    ensures CountersOk(core.geo, old(core.disk)) ==> CountersOk(core.geo, core.disk)
    ensures data == [] ==> r == Ok(0) && raw' == raw && core.disk == old(core.disk) && core.history == old(core.history)
    ensures done <= |data| && (r.Ok? <==> done == |data|)
    ensures RangeWritten(core.geo, old(core.disk), Slots(raw), core.disk, Slots(raw'),
                         Landing(offset, core.sb.blockSize), data[..done])
    ensures Mapped(core.geo, core.disk, Slots(raw'), Landing(offset, core.sb.blockSize), done)
    ensures r.Ok? && data != [] ==>
              && r.value == |data| && raw'.Size() == Arith.Max(raw.Size(), offset + |data|)
              && Rec(core.geo, core.disk, ino) == raw'
              && Landing(offset, core.sb.blockSize) + |data| <= Capacity(Ptrs(core.geo)) * core.sb.blockSize
              && CommitsLast(core.geo, old(core.disk), old(core.history), core.history, core.disk, nodes, ino)
    ensures r.Err? || data == [] ==>
              && Quiet(core.geo, old(core.disk), core.disk, nodes, ino)
              && QuietSince(core.geo, old(core.disk), old(core.history), core.history, nodes, ino)
    ensures r.Err? ==> (r == Err(NoSpace) || r == Err(TooLarge)) && raw'.Size() == raw.Size()
    ensures r == Err(NoSpace) ==> RanOut(core.geo, old(core.disk), core.disk)
    ensures PartSince(core.geo, old(core.disk), old(core.history),
                      if r.Ok? && data != [] then core.history[..|core.history| - 1] else core.history, Slots(raw),
                      Landing(offset, core.sb.blockSize), data)
    ensures r == Err(TooLarge) ==>
              Landing(offset, core.sb.blockSize) + |data| > Capacity(Ptrs(core.geo)) * core.sb.blockSize
    ensures data != [] && Landing(offset, core.sb.blockSize) >= Capacity(Ptrs(core.geo)) * core.sb.blockSize ==>
              r == Err(TooLarge) && core.disk == old(core.disk)
    ensures Dirs(core.geo, core.disk) == Dirs(core.geo, old(core.disk))
  {
    hide Dirs, Inv, Ahead, Geo.Valid, DescMatches, StepOk, CountersOk, RawInode.Mode, RawInode.LinksCount,
         RawInode.Size, RangeWritten, Mapped, Capacity, Landing, Rec, SameOthers, Quiet, NodeOf, Intact, Leaf, RanOut,
         PartSince;
    ghost var a, h0, g := core.disk, core.history, core.geo;
    raw', done := raw, 0;
    if |data| == 0 {
      PartStarts(g, a, h0, Slots(raw), Landing(offset, core.sb.blockSize), data);
      assert WithRaw(nodes, ino, raw) == nodes && data[..0] == [];
      SelfStep(g, a, nodes, ino);
      EmptySince(g, a, h0, nodes, ino);
      FirstPart(g, a, Slots(raw), Landing(offset, core.sb.blockSize));
      return Ok(0), raw, 0;
    }
    var w;
    w, raw', done := WriteChunks(core, ino, raw, offset, data, nodes);
    if w.Err? {
      return Err(w.error), raw', done;
    }
    var end := offset + |data|;
    ghost var mid, mem, h1 := core.disk, raw', core.history;
    if end > raw'.Size() {
      raw' := raw'.SetSize(end);
    }
    Resized(g, raw, mem, raw', end);
    ghost var nodes' := WithRaw(nodes, ino, raw');
    assert nodes' == WithRaw(nodes, ino, mem);
    InvValid(g, mid, nodes');
    w := core.WriteInode(ino, raw');
    QuietIsSafe(g, a, h0, h1, nodes, ino);
    FinishWrite(g, a, mid, core.disk, nodes, nodes', ino, raw');
    assert core.history[..|core.history| - 1] == h1;
    ContentUnmoved(g, a, Slots(raw), mid, core.disk, nodes'[ino], Landing(offset, core.sb.blockSize), data[..done]);
    return Ok(|data|), raw', done;
  }
}
