/** The walk over every block an inode owns, pointer blocks included, and the two uses made of it:
    freeing the blocks of a deleted file, and marking the blocks of a live one. */
module Walk {
  import opened Bytes
  import opened Geometry
  import opened Inode
  import opened Image
  import opened Tree
  import opened Consistency
  import opened Counters
  import opened Volume
  import opened Growth
  import opened Files

  // In-memory bitmaps that ignore what they have no room for

  /** bits' is bits with every number of s it has room for. */
  ghost predicate BitsAdded(bits: seq<byte>, bits': seq<byte>, s: set<nat>) {
    |bits'| == |bits| && forall n: nat :: BitAt(bits', n) <==> BitAt(bits, n) || (n in s && n / 8 < |bits|)
  }

  function MarkBit(bits: seq<byte>, n: nat): (r: seq<byte>)
    ensures BitsAdded(bits, r, {n})
  {
    if n / 8 < |bits| then SetBit(bits, n) else bits
  }

  /** What the orphan scan has found in use so far. */
  class Marks {
    var inodes: seq<byte>
    var blocks: seq<byte>

    constructor (inodeBytes: nat, blockBytes: nat)
      ensures inodes == Zeros(inodeBytes) && blocks == Zeros(blockBytes)
    {
      inodes, blocks := Zeros(inodeBytes), Zeros(blockBytes);
    }
  }

  // The paths of one tree

  lemma {:induction false} OnPathTrans(u: Path, k: nat, q: Path)
    requires OnPath(Sub(u, k), q)
    ensures OnPath(u, q) && q != u
    decreases q
  {
    OnPathShorter(Sub(u, k), q);
    if q != Sub(u, k) { OnPathTrans(u, k, q.up); }
  }

  lemma {:induction false} OnPathShorter(u: Path, q: Path)
    requires OnPath(u, q)
    ensures Length(u) <= Length(q) && (q != u ==> Length(u) < Length(q))
    decreases q
  {
    if q != u { OnPathShorter(u, q.up); }
  }

  function Length(q: Path): nat {
    if q.Slot? then 0 else 1 + Length(q.up)
  }

  /** A path strictly below u goes through one child of u. */
  lemma {:induction false} ThroughChild(u: Path, q: Path) returns (k: nat)
    requires OnPath(u, q) && q != u
    ensures OnPath(Sub(u, k), q)
    decreases q
  {
    if q.up == u { k := q.k; } else { k := ThroughChild(u, q.up); }
  }

  lemma {:induction false} OneChild(u: Path, j: nat, k: nat, q: Path)
    requires OnPath(Sub(u, j), q) && OnPath(Sub(u, k), q)
    ensures j == k
    decreases q
  {
    OnPathShorter(Sub(u, j), q);
    OnPathShorter(Sub(u, k), q);
    if q != Sub(u, j) && q != Sub(u, k) { OneChild(u, j, k, q.up); }
  }

  /** A pointer below an empty one is empty, and a valid path has valid ancestors. */
  lemma {:induction false} AncestorsFull(p: nat, a: Img, slots: seq<nat>, u: Path, q: Path)
    requires ValidPath(p, q) && At(a, slots, q) != 0 && OnPath(u, q)
    ensures ValidPath(p, u) && At(a, slots, u) != 0 && (q != u ==> Height(u) > 0)
    decreases q
  {
    if q != u { AncestorsFull(p, a, slots, u, q.up); }
  }

  ghost function Blocks(a: Img, slots: seq<nat>, done: set<Path>): set<nat> {
    set q | q in done :: At(a, slots, q)
  }

  /** Every block of the tree is a data block in use, and no two pointers name the same one. */
  ghost predicate TreeOk(g: Geo, a: Img, slots: seq<nat>) {
    && Layout(g, a)
    && (forall q :: ValidPath(Ptrs(g), q) && At(a, slots, q) != 0 ==>
         g.IsData(At(a, slots, q)) && Marked(g, a, At(a, slots, q)))
    && (forall q, r ::
          ValidPath(Ptrs(g), q) && ValidPath(Ptrs(g), r)
          && At(a, slots, q) != 0 && At(a, slots, q) == At(a, slots, r) ==>
          q == r)
  }

  lemma InvTreeOk(g: Geo, a: Img, nodes: map<nat, Node>, i: nat)
    requires Inv(g, a, nodes) && i in nodes
    ensures TreeOk(g, a, nodes[i].slots)
  {
    hide At, Marked, MetaMarked, InodesMarked, DirsClosed, Geo.Valid, DescMatches, Sized;
  }

  /** All pointers of the tree that lead somewhere. */
  ghost predicate Complete(p: nat, a: Img, slots: seq<nat>, done: set<Path>) {
    forall q :: q in done <==> ValidPath(p, q) && At(a, slots, q) != 0
  }

  /** Where a walk that began on image a, marks m and history h stands: freeing, the disk is a with
      exactly the blocks walked so far freed; marking, exactly those are added to the marks. */
  ghost predicate Walked(core: Ext2Core, marks: Marks, free: bool, a: Img, m: seq<byte>, h: seq<Img>, slots: seq<nat>,
                         done: set<Path>)
    reads core, marks
  {
    && core.Ready() && Layout(core.geo, a)
    && (forall q :: q in done ==> ValidPath(Ptrs(core.geo), q) && At(a, slots, q) != 0)
    && (free ==>
          && TreeOk(core.geo, a, slots) && marks.blocks == m
          && Changed(core.geo, a, core.disk, {}, Blocks(a, slots, done), {}, {})
          && KeptSince(core.geo, a, h, core.history, TreeBlocks(core.geo, a, slots), {})
          && (CountersOk(core.geo, a) ==> CountersOk(core.geo, core.disk)))
    && (!free ==> core.disk == a && core.history == h && BitsAdded(m, marks.blocks, Blocks(a, slots, done)))
  }

  /** Some pointer of the tree names block b. */
  ghost predicate Holds(g: Geo, a: Img, slots: seq<nat>, b: nat)
    requires g.Valid()
  {
    b != 0 && exists q :: ValidPath(Ptrs(g), q) && At(a, slots, q) == b
  }

  /** The blocks a tree reaches. */
  ghost function TreeBlocks(g: Geo, a: Img, slots: seq<nat>): set<nat>
    requires g.Valid()
  {
    set b | 0 < b < |a| && Holds(g, a, slots, b)
  }

  lemma BlocksInTree(g: Geo, a: Img, slots: seq<nat>, done: set<Path>)
    requires TreeOk(g, a, slots) && forall q :: q in done ==> ValidPath(Ptrs(g), q) && At(a, slots, q) != 0
    ensures Blocks(a, slots, done) <= TreeBlocks(g, a, slots)
    ensures forall b :: b in TreeBlocks(g, a, slots) ==> g.IsData(b)
    ensures Complete(Ptrs(g), a, slots, done) ==> Blocks(a, slots, done) == TreeBlocks(g, a, slots)
  {
    hide At, Marked, Geo.Valid, DescMatches;
    forall q | q in done ensures At(a, slots, q) in TreeBlocks(g, a, slots) { DataInRange(g, a, At(a, slots, q)); }
  }

  /** Freeing one more block of the tree. */
  lemma FreedOneMore(g: Geo, a: Img, d: Img, d': Img, slots: seq<nat>, done: set<Path>, q: Path)
    requires TreeOk(g, a, slots) && Changed(g, a, d, {}, Blocks(a, slots, done), {}, {})
    requires (forall r :: r in done ==> ValidPath(Ptrs(g), r) && At(a, slots, r) != 0) && q !in done
    requires ValidPath(Ptrs(g), q) && At(a, slots, q) != 0 && Changed(g, d, d', {}, {At(a, slots, q)}, {}, {})
    ensures Changed(g, a, d', {}, Blocks(a, slots, done + {q}), {}, {})
  {
    hide At, Marked, InodeMarked, Geo.Valid, DescMatches, Sized, Rec;
    assert Blocks(a, slots, done + {q}) == Blocks(a, slots, done) + {At(a, slots, q)};
  }

  lemma StillMarked(g: Geo, a: Img, d: Img, slots: seq<nat>, done: set<Path>, q: Path)
    requires TreeOk(g, a, slots) && Changed(g, a, d, {}, Blocks(a, slots, done), {}, {})
    requires (forall r :: r in done ==> ValidPath(Ptrs(g), r) && At(a, slots, r) != 0) && q !in done
    requires ValidPath(Ptrs(g), q) && At(a, slots, q) != 0
    ensures Marked(g, d, At(a, slots, q)) && g.sb.HasBit(At(a, slots, q))
  {
    hide At, InodeMarked, Geo.Valid, DescMatches, Sized, Rec, BlockUsed;
    forall r | r in done ensures At(a, slots, r) != At(a, slots, q) { }
  }

  lemma KeptStep(g: Geo, a: Img, d: Img, h: Img, slots: seq<nat>, done: set<Path>, q: Path)
    requires TreeOk(g, a, slots) && Changed(g, a, d, {}, Blocks(a, slots, done), {}, {})
    requires (forall r :: r in done ==> ValidPath(Ptrs(g), r) && At(a, slots, r) != 0) && q !in done
    requires ValidPath(Ptrs(g), q) && At(a, slots, q) != 0 && Changed(g, d, h, {}, {At(a, slots, q)}, {}, {})
    ensures Keeps(g, a, h, TreeBlocks(g, a, slots), {}) && SameRecords(g, a, h, {})
  {
    hide At, Marked, InodeMarked, Geo.Valid, DescMatches, Sized, Rec, TreeBlocks, Keeps, Blocks;
    FreedOneMore(g, a, d, h, slots, done, q);
    BlocksInTree(g, a, slots, done + {q});
    ChangedKeeps(g, a, h, {}, Blocks(a, slots, done + {q}), {}, {});
    KeepsMonotone(g, a, h, Blocks(a, slots, done + {q}), {}, TreeBlocks(g, a, slots), {});
  }

  /** The visitor: free the block, or mark it in memory. */
  method VisitBlock(core: Ext2Core, marks: Marks, free: bool, b: nat,
                    ghost a: Img, ghost m: seq<byte>, ghost h: seq<Img>, ghost slots: seq<nat>, ghost done: set<Path>,
                    ghost q: Path)
    returns (r: Result<()>)
    requires Walked(core, marks, free, a, m, h, slots, done) && q !in done
    requires ValidPath(Ptrs(core.geo), q) && At(a, slots, q) == b != 0
    modifies core, marks`blocks
    ensures r.Ok? && Walked(core, marks, free, a, m, h, slots, done + {q})
    ensures Dirs(core.geo, core.disk) == Dirs(core.geo, old(core.disk))
  {
    hide Dirs, At, Changed, Geo.Valid, DescMatches, CountersOk, TreeBlocks, Keeps, SameRecords, TreeOk, BitAt, Blocks;
    if free {
      ghost var g, d, h1 := core.geo, core.disk, core.history;
      StillMarked(g, a, d, slots, done, q);
      r := core.FreeBlock(b);
      FreedOneMore(g, a, d, core.disk, slots, done, q);
      forall k | |h1| <= k < |core.history|
        ensures Keeps(g, a, core.history[k], TreeBlocks(g, a, slots), {}) && SameRecords(g, a, core.history[k], {})
      {
        KeptStep(g, a, d, core.history[k], slots, done, q);
      }
    } else {
      marks.blocks := MarkBit(marks.blocks, b);
      BlocksMore(a, slots, done, q);
      r := Ok(());
    }
  }

  lemma BlocksMore(a: Img, slots: seq<nat>, done: set<Path>, q: Path)
    ensures Blocks(a, slots, done + {q}) == Blocks(a, slots, done) + {At(a, slots, q)}
  {
    hide At;
  }

  // The walk itself

  /** done' is done with everything strictly below u. */
  ghost predicate Descended(p: nat, a: Img, slots: seq<nat>, u: Path, done: set<Path>, done': set<Path>) {
    && done <= done'
    && (forall q :: q in done' && q !in done ==> OnPath(u, q) && q != u)
    && (forall q :: ValidPath(p, q) && At(a, slots, q) != 0 && OnPath(u, q) && q != u ==> q in done')
  }

  /** Nothing strictly below u has been walked yet. */
  ghost predicate Unwalked(u: Path, done: set<Path>) {
    forall q :: q in done && OnPath(u, q) ==> q == u
  }

  /** done' is done with everything at or below the first n children of u. */
  ghost predicate Children(p: nat, a: Img, slots: seq<nat>, u: Path, n: nat, done: set<Path>, done': set<Path>) {
    && done <= done'
    && (forall q :: q in done' && q !in done ==> OnPath(u, q) && q != u)
    && (forall q, k: nat :: q in done' && q !in done && OnPath(Sub(u, k), q) ==> k < n)
    && (forall q, k: nat :: k < n && ValidPath(p, q) && At(a, slots, q) != 0 && OnPath(Sub(u, k), q) ==> q in done')
  }

  lemma NoChildren(p: nat, a: Img, slots: seq<nat>, u: Path, done: set<Path>)
    ensures Children(p, a, slots, u, 0, done, done)
  {
  }

  lemma AllChildren(p: nat, a: Img, slots: seq<nat>, u: Path, done: set<Path>, done': set<Path>)
    requires Children(p, a, slots, u, p, done, done')
    ensures Descended(p, a, slots, u, done, done')
  {
    hide At, OnPath;
    forall q | ValidPath(p, q) && At(a, slots, q) != 0 && OnPath(u, q) && q != u ensures q in done' {
      var k := ThroughChild(u, q);
      AncestorsFull(p, a, slots, Sub(u, k), q);
    }
  }

  /** An empty child has nothing below it. */
  lemma EmptyChild(p: nat, a: Img, slots: seq<nat>, u: Path, n: nat, done: set<Path>, done': set<Path>)
    requires Children(p, a, slots, u, n, done, done') && At(a, slots, Sub(u, n)) == 0
    ensures Children(p, a, slots, u, n + 1, done, done')
  {
    hide At, OnPath;
    forall q, k: nat | k < n + 1 && ValidPath(p, q) && At(a, slots, q) != 0 && OnPath(Sub(u, k), q) ensures q in done' {
      if k == n { AncestorsFull(p, a, slots, Sub(u, n), q); }
    }
  }

  /** The child at n and everything below it. */
  lemma FullChild(p: nat, a: Img, slots: seq<nat>, u: Path, n: nat, done: set<Path>, mid: set<Path>, done': set<Path>)
    requires Children(p, a, slots, u, n, done, mid) && Descended(p, a, slots, Sub(u, n), mid + {Sub(u, n)}, done')
    ensures Children(p, a, slots, u, n + 1, done, done')
  {
    hide At, OnPath;
    var c := Sub(u, n);
    assert OnPath(c, c) by { OnPathUp(c, c, 0); }
    forall q | q in done' && q !in done ensures OnPath(u, q) && q != u {
      if q !in mid { OnPathTrans(u, n, q); }
    }
    forall q, k: nat | q in done' && q !in done && OnPath(Sub(u, k), q) ensures k < n + 1 {
      if q !in mid { OneChild(u, k, n, q); }
    }
  }

  lemma ChildUnwalked(p: nat, a: Img, slots: seq<nat>, u: Path, n: nat, done: set<Path>, done': set<Path>)
    requires Unwalked(u, done) && Children(p, a, slots, u, n, done, done')
    ensures Sub(u, n) !in done' && Unwalked(Sub(u, n), done' + {Sub(u, n)})
  {
    hide At, OnPath;
    var c := Sub(u, n);
    assert OnPath(c, c) by { OnPathUp(c, c, 0); }
    forall q | q in done' && OnPath(c, q) ensures false {
      OnPathTrans(u, n, q);
    }
  }

  /** A pointer block reads the same during the walk as before it. */
  lemma ContainerDuring(core: Ext2Core, marks: Marks, free: bool, a: Img, m: seq<byte>, h: seq<Img>, slots: seq<nat>,
                        done: set<Path>, u: Path)
    requires Walked(core, marks, free, a, m, h, slots, done)
    requires ValidPath(Ptrs(core.geo), u) && At(a, slots, u) != 0
    ensures var c := At(a, slots, u);
            && BlockOf(core.disk, c) == BlockOf(a, c)
            && |core.disk| == |a| == core.sb.blocksCount
    ensures free ==> At(a, slots, u) < |a|
  {
    hide At, Marked, InodeMarked, DescMatches, CountersOk, TreeBlocks, KeptSince, SameRecords, Blocks;
  }

  /** Visit every block the pointer block c leads to, with whatever lies below them: `level` says how
      many layers of pointer blocks that is. */
  method VisitTargets(core: Ext2Core, marks: Marks, free: bool, c: nat, level: nat,
                      ghost a: Img, ghost m: seq<byte>, ghost h: seq<Img>, ghost slots: seq<nat>,
                      ghost done: set<Path>, ghost u: Path)
    returns (r: Result<()>, ghost done': set<Path>)
    requires Walked(core, marks, free, a, m, h, slots, done) && Unwalked(u, done)
    requires ValidPath(Ptrs(core.geo), u) && At(a, slots, u) == c != 0 && Height(u) == level >= 1
    modifies core, marks`blocks
    ensures Walked(core, marks, free, a, m, h, slots, done')
    ensures r.Ok? ==> Descended(Ptrs(core.geo), a, slots, u, done, done')
    ensures r.Err? ==> r == Err(Io) && !free && !PointersInRange(core.geo, a, slots)
    ensures Dirs(core.geo, core.disk) == Dirs(core.geo, old(core.disk))
    decreases level
  {
    hide Dirs, At, Geo.Valid, DescMatches, Walked, Children, Descended, Unwalked, OnPath, ValidPath;
    done' := done;
    WalkedReady(core, marks, free, a, m, h, slots, done);
    ghost var p := Ptrs(core.geo);
    ContainerDuring(core, marks, free, a, m, h, slots, done, u);
    var buf := core.BlockVec(c);
    if buf.Err? {
      return Err(Io), done';
    }
    NoChildren(p, a, slots, u, done);
    var ptrs := core.sb.blockSize / 4;
    for k := 0 to ptrs
      invariant Walked(core, marks, free, a, m, h, slots, done') && Children(p, a, slots, u, k, done, done')
      invariant Dirs(core.geo, core.disk) == Dirs(core.geo, old(core.disk))
    {
      SubAt(a, slots, u, k);
      PathBelow(p, u, k);
      ghost var q := Sub(u, k);
      var b := Field(buf.value, 4 * k, 4);
      if b == 0 {
        EmptyChild(p, a, slots, u, k, done, done');
      } else {
        ChildUnwalked(p, a, slots, u, k, done, done');
        ghost var mid := done';
        r := VisitBlock(core, marks, free, b, a, m, h, slots, done', q);
        done' := done' + {q};
        if level > 1 {
          r, done' := VisitTargets(core, marks, free, b, level - 1, a, m, h, slots, done', q);
          if r.Err? {
            return;
          }
        } else {
          NothingBelow(p, a, slots, q, done');
        }
        FullChild(p, a, slots, u, k, done, mid, done');
      }
    }
    AllChildren(p, a, slots, u, done, done');
    return Ok(()), done';
  }

  lemma WalkedReady(core: Ext2Core, marks: Marks, free: bool, a: Img, m: seq<byte>, h: seq<Img>, slots: seq<nat>,
                    done: set<Path>)
    requires Walked(core, marks, free, a, m, h, slots, done)
    ensures core.Ready() && Layout(core.geo, a)
  {
  }

  lemma PathBelow(p: nat, u: Path, k: nat)
    requires ValidPath(p, u) && Height(u) >= 1 && k < p
    ensures ValidPath(p, Sub(u, k)) && Height(Sub(u, k)) == Height(u) - 1
  {
  }

  /** A leaf pointer leads to data, not to more pointers. */
  lemma NothingBelow(p: nat, a: Img, slots: seq<nat>, q: Path, done: set<Path>)
    requires Height(q) == 0
    ensures Descended(p, a, slots, q, done, done)
  {
    hide At;
    forall r | ValidPath(p, r) && At(a, slots, r) != 0 && OnPath(q, r) ensures r == q {
      AncestorsFull(p, a, slots, q, r);
    }
  }

  function RootSlot(q: Path): nat {
    if q.Slot? then q.s else RootSlot(q.up)
  }

  lemma {:induction false} UnderSlot(s: nat, q: Path)
    ensures OnPath(Slot(s), q) <==> RootSlot(q) == s
    decreases q
  {
    if q.Sub? { UnderSlot(s, q.up); }
  }

  lemma {:induction false} RootIsValid(p: nat, q: Path)
    requires ValidPath(p, q)
    ensures RootSlot(q) < 15
  {
    if q.Sub? { RootIsValid(p, q.up); }
  }

  /** done is everything in the trees of the first n slots. */
  ghost predicate SlotsDone(p: nat, a: Img, slots: seq<nat>, n: nat, done: set<Path>) {
    forall q :: q in done <==> ValidPath(p, q) && At(a, slots, q) != 0 && RootSlot(q) < n
  }

  lemma SlotUnwalked(p: nat, a: Img, slots: seq<nat>, n: nat, done: set<Path>)
    requires SlotsDone(p, a, slots, n, done)
    ensures Slot(n) !in done && Unwalked(Slot(n), done + {Slot(n)})
  {
    hide At, OnPath;
    forall q | q in done + {Slot(n)} && OnPath(Slot(n), q) ensures q == Slot(n) { UnderSlot(n, q); }
  }

  lemma EmptySlot(p: nat, a: Img, slots: seq<nat>, n: nat, done: set<Path>)
    requires SlotsDone(p, a, slots, n, done) && At(a, slots, Slot(n)) == 0
    ensures SlotsDone(p, a, slots, n + 1, done)
  {
    hide At, OnPath;
    forall q | ValidPath(p, q) && At(a, slots, q) != 0 ensures RootSlot(q) != n {
      UnderSlot(n, q);
      if RootSlot(q) == n { AncestorsFull(p, a, slots, Slot(n), q); }
    }
  }

  lemma FullSlot(p: nat, a: Img, slots: seq<nat>, n: nat, done: set<Path>, done': set<Path>)
    requires SlotsDone(p, a, slots, n, done) && At(a, slots, Slot(n)) != 0 && n < 15
    requires Descended(p, a, slots, Slot(n), done + {Slot(n)}, done')
    requires forall q :: q in done' ==> ValidPath(p, q) && At(a, slots, q) != 0
    ensures SlotsDone(p, a, slots, n + 1, done')
  {
    hide At, OnPath;
    forall q ensures OnPath(Slot(n), q) <==> RootSlot(q) == n { UnderSlot(n, q); }
  }

  lemma AllSlots(p: nat, a: Img, slots: seq<nat>, done: set<Path>)
    requires SlotsDone(p, a, slots, 15, done)
    ensures Complete(p, a, slots, done)
  {
    hide At;
    forall q | ValidPath(p, q) ensures RootSlot(q) < 15 { RootIsValid(p, q); }
  }

  /** Visit every block the inode owns: direct blocks, pointer blocks and what they lead to.  On success
      the blocks visited are exactly those some pointer of the tree names. */
  method VisitInodeBlocks(core: Ext2Core, raw: RawInode, marks: Marks, free: bool)
    returns (r: Result<()>, ghost done: set<Path>)
    requires core.Ready() && raw.Valid() && (free ==> TreeOk(core.geo, core.disk, Slots(raw)))
    modifies core, marks`blocks
    ensures Walked(core, marks, free, old(core.disk), old(marks.blocks), old(core.history), Slots(raw), done)
    ensures r.Ok? ==> Complete(Ptrs(core.geo), old(core.disk), Slots(raw), done)
    ensures r.Err? ==> r == Err(Io) && !free && !PointersInRange(core.geo, old(core.disk), Slots(raw))
    ensures Dirs(core.geo, core.disk) == Dirs(core.geo, old(core.disk))
  {
    hide Dirs, At, Geo.Valid, DescMatches, Walked, Descended, Unwalked, OnPath, SlotsDone, Slots, TreeOk;
    ghost var a, m, h, slots, p := core.disk, marks.blocks, core.history, Slots(raw), Ptrs(core.geo);
    done := {};
    WalkBegins(core, marks, free, slots);
    for s := 0 to 15
      invariant Walked(core, marks, free, a, m, h, slots, done) && SlotsDone(p, a, slots, s, done)
      invariant Dirs(core.geo, core.disk) == Dirs(core.geo, a)
    {
      SlotEmpty(a, slots, s);
      var b := raw.IBlock(s);
      if b == 0 {
        EmptySlot(p, a, slots, s, done);
      } else {
        SlotUnwalked(p, a, slots, s, done);
        ghost var before := done;
        r := VisitBlock(core, marks, free, b, a, m, h, slots, done, Slot(s));
        done := done + {Slot(s)};
        if s >= 12 {
          r, done := VisitTargets(core, marks, free, b, s - 11, a, m, h, slots, done, Slot(s));
          if r.Err? {
            return;
          }
        } else {
          NothingBelow(p, a, slots, Slot(s), done);
        }
        WalkedPaths(core, marks, free, a, m, h, slots, done);
        FullSlot(p, a, slots, s, before, done);
      }
    }
    AllSlots(p, a, slots, done);
    return Ok(()), done;
  }

  lemma WalkedPaths(core: Ext2Core, marks: Marks, free: bool, a: Img, m: seq<byte>, h: seq<Img>, slots: seq<nat>,
                    done: set<Path>)
    requires Walked(core, marks, free, a, m, h, slots, done)
    ensures core.geo.Valid() && forall q :: q in done ==> ValidPath(Ptrs(core.geo), q) && At(a, slots, q) != 0
  {
    hide At, ValidPath, Geo.Valid, DescMatches;
  }

  lemma WalkBegins(core: Ext2Core, marks: Marks, free: bool, slots: seq<nat>)
    requires core.Ready() && (free ==> TreeOk(core.geo, core.disk, slots))
    ensures Walked(core, marks, free, core.disk, marks.blocks, core.history, slots, {})
    ensures SlotsDone(Ptrs(core.geo), core.disk, slots, 0, {})
  {
    hide At, TreeOk, Geo.Valid, DescMatches, Marked, InodeMarked;
    assert Blocks(core.disk, slots, {}) == {};
  }

  // Freeing a file's blocks

  /** The record with its first n pointers cleared. */
  method ClearPointers(raw: RawInode) returns (r: RawInode)
    requires raw.Valid()
    ensures r.Valid() && |r.buf| == |raw.buf| && r.Mode() == raw.Mode() && r.Size() == raw.Size()
            && r.LinksCount() == raw.LinksCount()
    ensures forall i :: 0 <= i < 15 ==> r.IBlock(i) == 0
  {
    hide RawInode.IBlock, RawInode.SetIBlock, RawInode.Mode, RawInode.Size, RawInode.LinksCount;
    r := raw;
    for i := 0 to 15
      invariant r.Valid() && |r.buf| == |raw.buf| && r.Mode() == raw.Mode() && r.Size() == raw.Size()
                && r.LinksCount() == raw.LinksCount()
      invariant forall j :: 0 <= j < i ==> r.IBlock(j) == 0
    {
      SetIBlockEffect(r, i, 0);
      r := r.SetIBlock(i, 0);
    }
  }

  /** An empty record of the same kind owns nothing. */
  lemma EmptyRecord(g: Geo, raw: RawInode, cleared: RawInode)
    requires g.sb.blockSize > 0 && raw.Valid() && cleared.Valid() && |cleared.buf| == |raw.buf|
             && cleared.Mode() == raw.Mode()
    requires cleared.LinksCount() == raw.LinksCount()
    requires if raw.HasBlockPointers() then forall i :: 0 <= i < 15 ==> cleared.IBlock(i) == 0 else cleared == raw
    ensures var r := cleared.SetSize(0).SetBlocks512(0);
            && r.Valid() && |r.buf| == |raw.buf| && r.Mode() == raw.Mode() && r.Size() == 0
            && r.LinksCount() == raw.LinksCount()
            && NodeOf(g, r) == Node(NoSlots(), 0)
  {
    hide RawInode.IBlock, RawInode.SetSize, RawInode.SetBlocks512, RawInode.Mode, RawInode.Size, RawInode.LinksCount,
         BlocksFor;
    SetSizeEffect(cleared, 0);
    var s := cleared.SetSize(0);
    BookkeepingKeepsShape(s, 0);
    LinksKept(s, 0);
    var r := s.SetBlocks512(0);
    BlocksForNone(g.sb.blockSize);
    if raw.HasBlockPointers() { assert Slots(r) == NoSlots(); }
  }

  lemma LinksKept(a: RawInode, v: nat)
    requires a.Valid()
    ensures a.SetBlocks512(v).LinksCount() == a.LinksCount() && a.SetDtime(v).LinksCount() == a.LinksCount()
  {
    PatchElsewhere(a.buf, 28, Le(v, 4), 26, 2);
    PatchElsewhere(a.buf, 20, Le(v, 4), 26, 2);
  }

  lemma BlocksForNone(bs: nat)
    requires bs > 0
    ensures BlocksFor(0, bs) == 0
  {
  }

  lemma EmptyTreeBlocks(g: Geo, a: Img)
    requires g.Valid()
    ensures TreeBlocks(g, a, NoSlots()) == {}
  {
    hide At, Geo.Valid;
    forall q ensures At(a, NoSlots(), q) == 0 { EmptyTree(a, q); }
  }

  /** Free every block the inode owns, and only those, each counted back exactly once.  A record without
      block pointers, such as a fast symlink's, frees nothing. */
  method FreeAllBlocks(core: Ext2Core, raw: RawInode) returns (r: Result<()>, raw': RawInode)
    requires core.Ready() && raw.Valid() && core.sb.blockSize > 0
             && TreeOk(core.geo, core.disk, NodeOf(core.geo, raw).slots)
    modifies core
    ensures r.Ok? && core.Ready() && raw'.Valid() && |raw'.buf| == |raw.buf|
    ensures raw'.Mode() == raw.Mode() && raw'.Size() == 0 && raw'.LinksCount() == raw.LinksCount()
    ensures NodeOf(core.geo, raw') == Node(NoSlots(), 0)
    ensures var owned := TreeBlocks(core.geo, old(core.disk), NodeOf(core.geo, raw).slots);
            && Changed(core.geo, old(core.disk), core.disk, {}, owned, {}, {})
            && KeptSince(core.geo, old(core.disk), old(core.history), core.history, owned, {})
    ensures CountersOk(core.geo, old(core.disk)) ==> CountersOk(core.geo, core.disk)
    ensures Dirs(core.geo, core.disk) == Dirs(core.geo, old(core.disk))
  {
    hide Dirs, Geo.Valid, DescMatches, TreeOk, TreeBlocks, Changed, KeptSince, CountersOk, RawInode.Mode, RawInode.Size,
         RawInode.LinksCount, RawInode.SetSize, RawInode.SetBlocks512, RawInode.IBlock, Complete, Blocks, BlocksFor;
    raw' := raw;
    ghost var a, h, g := core.disk, core.history, core.geo;
    if raw.HasBlockPointers() {
      var marks := new Marks(0, 0);
      ghost var done;
      r, done := VisitInodeBlocks(core, raw, marks, true);
      WalkedPaths(core, marks, true, a, marks.blocks, h, Slots(raw), done);
      BlocksInTree(g, a, Slots(raw), done);
      raw' := ClearPointers(raw);
    } else {
      EmptyTreeBlocks(g, a);
      NothingFreed(g, a, h);
      r := Ok(());
    }
    EmptyRecord(g, raw, raw');
    raw' := raw'.SetSize(0).SetBlocks512(0);
  }

  lemma NothingFreed(g: Geo, a: Img, h: seq<Img>)
    requires Layout(g, a)
    ensures Changed(g, a, a, {}, {}, {}, {}) && KeptSince(g, a, h, h, {}, {})
  {
    hide Geo.Valid, DescMatches, Marked, InodeMarked;
  }
}
