/** Whole runs: any sequence of operations, cut off after any block write and mounted again. */
module Crash {
  import Arith
  import opened Bytes
  import opened Geometry
  import opened Inode
  import opened Image
  import opened Tree
  import opened DirBlock
  import opened Consistency
  import opened Counters
  import opened Volume
  import opened Growth
  import opened Listing
  import opened Content
  import opened Directories
  import opened Walk
  import opened Symlink
  import opened Names
  import opened Session
  import opened Operations
  import opened Removal
  import opened Writes
  import opened Reach
  import opened Orphans
  import opened Recovery

  type Name = seq<byte>

  /** One request, on paths given as the names from the root down. */
  datatype Request =
    | CreateAt(dir: seq<Name>, name: Name)
    | MkdirAt(dir: seq<Name>, name: Name)
    | SymlinkAt(dir: seq<Name>, name: Name, target: seq<byte>)
    | UnlinkAt(dir: seq<Name>, name: Name, now: nat)
    | RmdirAt(dir: seq<Name>, name: Name, now: nat)
    | WriteAt(file: seq<Name>, offset: nat, data: seq<byte>)
  {
    /** The path of the inode the request works on. */
    function Path(): seq<Name> { if WriteAt? then file else dir }

    predicate Makes() { CreateAt? || MkdirAt? || SymlinkAt? }
  }

  /** Names and sizes a system call can pass. */
  predicate Fits(q: Request, bs: nat) {
    match q
    case CreateAt(_, name) => 8 + |name| <= bs
    case MkdirAt(_, name) => 8 + |name| <= bs
    case SymlinkAt(_, name, target) => 8 + |name| <= bs && |target| < 0x1_0000_0000
    case UnlinkAt(_, _, _) => true
    case RmdirAt(_, _, _) => true
    case WriteAt(_, offset, data) => offset + |data| < 0x1_0000_0000_0000_0000
  }

  // Paths

  /** The inode a path names, from inode i down, name by name. */
  ghost function PathOf(g: Geo, d: Img, i: nat, path: seq<Name>): Outcome<nat>
    requires Layout(g, d)
    decreases |path|
  {
    if path == [] then Done(i)
    else if !g.sb.HasInode(i) then Fail(ENOENT)
    else if !Rec(g, d, i).IsDir() then Fail(ENOTDIR)
    else match FirstOf(Shows(g, d, i), path[0])
      case None => Fail(ENOENT)
      case Some(e) => PathOf(g, d, e.ino, path[1..])
  }

  method Resolve(core: Ext2Core, path: seq<Name>, ghost s: set<nat>) returns (r: Outcome<nat>)
    requires Sound(core, s)
    ensures r == PathOf(core.geo, core.disk, ROOT_INO, path)
    ensures r.Done? ==> r.value in s && core.sb.HasInode(r.value) && Reaches(core.geo, core.disk, ROOT_INO, r.value)
  {
    hide Geo.Valid, DescMatches, DiskInv, OneName, CountersOk, Rec, TablesOf, Reaches, Shows, FirstOf, RawInode.Mode;
    ghost var g := core.geo;
    SetLayout(g, core.disk, s);
    ReachesSelf(g, core.disk, ROOT_INO);
    var at := ROOT_INO;
    assert path[0..] == path;
    for i := 0 to |path|
      invariant at in s && core.sb.HasInode(at) && Reaches(g, core.disk, ROOT_INO, at)
      invariant PathOf(g, core.disk, ROOT_INO, path) == PathOf(g, core.disk, at, path[i..])
    {
      assert path[i..][1..] == path[i + 1..];
      var raw := core.ReadInode(at);
      if !raw.value.IsDir() {
        return Fail(ENOTDIR);
      }
      var e := Lookup(core, raw.value, path[i], s, at);
      if e.None? {
        return Fail(ENOENT);
      }
      FirstIsEntry(Shows(g, core.disk, at), e.value);
      EntryLists(g, core.disk, at, e.value);
      ReachesSnoc(g, core.disk, ROOT_INO, at, e.value.ino);
      at := e.value.ino;
    }
    return Done(at);
  }

  lemma EntryLists(g: Geo, d: Img, i: nat, e: DirEntry)
    requires Layout(g, d) && g.sb.HasInode(i) && e in Shows(g, d, i)
    ensures Lists(g, d, i, e.ino)
  {
    hide Geo.Valid, DescMatches, DirListing, DiskNode;
  }

  // What a request does to the inode it works on

  /** A file was there already, or one was made. */
  ghost predicate FileThere(g: Geo, a: Img, i: nat, name: Name, c: nat)
    requires Layout(g, a) && g.sb.HasInode(i)
  {
    Leads(FirstOf(Shows(g, a, i), name), c) && g.sb.HasInode(c) && !Rec(g, a, c).IsDir()
  }

  ghost predicate FileMade(g: Geo, a: Img, d: Img, s: set<nat>, s': set<nat>, i: nat, name: Name, c: nat)
    requires Layout(g, a) && Layout(g, d) && g.sb.HasInode(i)
  {
    && c !in s && s' == s + {c} && g.sb.HasInode(c) && g.sb.inodeSize >= 128
    && Rec(g, d, c) == NewRecord(g.sb.inodeSize, REGULAR_MODE, 1) && FreshRecord(g, d, c, 0x81A4, 1)
    && ParentAfter(g, a, d, i, Rec(g, a, i).LinksCount())
    && Introduced(g, a, d, s, i, Rec(g, a, i), name, Stored(c, name, REGULAR))
  }

  ghost predicate DirMade(g: Geo, a: Img, d: Img, s: set<nat>, s': set<nat>, i: nat, name: Name, c: nat)
    requires Layout(g, a) && Layout(g, d) && g.sb.HasInode(i)
  {
    && c !in s && s' == s + {c} && g.sb.HasInode(c) && Rec(g, d, c).IsDir() && Shows(g, d, c) == []
    && FreshDir(g, d, c, i) && DirMoved(g, a, d, c, 1)
    && ParentAfter(g, a, d, i, (Rec(g, a, i).LinksCount() + 1) % 0x1_0000)
    && Introduced(g, a, d, s, i, Rec(g, a, i), name, Stored(c, name, DIRECTORY))
  }

  ghost predicate LinkMade(g: Geo, a: Img, d: Img, s: set<nat>, s': set<nat>, i: nat, name: Name, target: seq<byte>,
                           c: nat)
    requires Layout(g, a) && Layout(g, d) && g.sb.HasInode(i)
  {
    && c !in s && s' == s + {c} && g.sb.HasInode(c) && LinkWritten(g, d, c, Rec(g, d, c), target)
    && FreshRecord(g, d, c, 0xA1FF, 1) && ParentAfter(g, a, d, i, Rec(g, a, i).LinksCount())
    && Introduced(g, a, d, s, i, Rec(g, a, i), name, Stored(c, name, SYMLINK))
  }

  ghost predicate Removed(g: Geo, a: Img, d: Img, s: set<nat>, s': set<nat>, i: nat, name: Name, isDir: bool, now: nat,
                          c: nat)
    requires Layout(g, a) && Layout(g, d) && g.sb.HasInode(i)
  {
    && c in s && s' == s - {c} && Unlinked(g, a, d, s, i, name, c) && Rec(g, a, c).IsDir() == isDir
    && Shows(g, a, c) == []
    && (if isDir
        then && Released(g, a, d, c, now) && ParentAfter(g, a, d, i, OneFewer(Rec(g, a, i).LinksCount()))
             && DirMoved(g, a, d, c, -1)
        else && LinkDropped(g, a, d, c, now) && Rec(g, d, i) == Rec(g, a, i) && Dirs(g, d) == Dirs(g, a))
  }

  ghost predicate Wrote(g: Geo, a: Img, d: Img, i: nat, offset: nat, data: seq<byte>, raw': RawInode, done: nat)
    requires Layout(g, a) && Layout(g, d) && g.sb.HasInode(i)
  {
    g.sb.blockSize > 0 && raw'.Valid() && FileWritten(g, a, Rec(g, a, i), d, i, raw', offset, data, done)
  }

  /** What serving request q did to inode i, the set of inodes and the one that lost its name. */
  ghost predicate Effect(g: Geo, q: Request, a: Img, d: Img, s: set<nat>, s': set<nat>, i: nat, gone: set<nat>,
                         ok: bool)
    requires Layout(g, a) && Layout(g, d) && g.sb.HasInode(i)
  {
    match q
    case CreateAt(_, name) =>
      && gone == {} && Dirs(g, d) == Dirs(g, a)
      && if !ok then s' == s && Shows(g, d, i) == Shows(g, a, i) && Rec(g, d, i) == Rec(g, a, i)
         else || (s' == s && d == a && exists c: nat :: FileThere(g, a, i, name, c))
              || exists c: nat :: FileMade(g, a, d, s, s', i, name, c)
    case MkdirAt(_, name) =>
      && gone == {}
      && if !ok then && s' == s && Shows(g, d, i) == Shows(g, a, i) && Rec(g, d, i) == Rec(g, a, i)
                     && Dirs(g, d) == Dirs(g, a)
         else exists c: nat :: DirMade(g, a, d, s, s', i, name, c)
    case SymlinkAt(_, name, target) =>
      && gone == {} && Dirs(g, d) == Dirs(g, a)
      && if !ok then s' == s && Shows(g, d, i) == Shows(g, a, i) && Rec(g, d, i) == Rec(g, a, i)
         else exists c: nat :: LinkMade(g, a, d, s, s', i, name, target, c)
    case UnlinkAt(_, name, now) =>
      if !ok then gone == {} && s' == s && d == a
      else exists c: nat :: gone == {c} && Removed(g, a, d, s, s', i, name, false, now, c)
    case RmdirAt(_, name, now) =>
      if !ok then gone == {} && s' == s && d == a
      else exists c: nat :: gone == {c} && Removed(g, a, d, s, s', i, name, true, now, c)
    case WriteAt(_, offset, data) =>
      && gone == {} && s' == s && Dirs(g, d) == Dirs(g, a)
      && if !Rec(g, a, i).IsReg() then !ok && d == a
         else exists raw', done: nat :: Wrote(g, a, d, i, offset, data, raw', done) && (ok <==> done == |data|)
  }

  /** What makes the kernel refuse the request, error by error; the images are those since h0. */
  ghost predicate Reason(g: Geo, q: Request, a: Img, h0: seq<Img>, h1: seq<Img>, i: nat, e: Errno)
    requires Layout(g, a) && g.sb.HasInode(i)
  {
    var raw := Rec(g, a, i);
    match q
    case CreateAt(_, name) =>
      || (e == ENOTDIR && !raw.IsDir()) || (e == EISDIR && LeadsTo(g, a, i, name, true))
      || NoPlace(g, a, h0, h1, raw, name, false, e)
    case MkdirAt(_, name) =>
      || (e == ENOTDIR && !raw.IsDir()) || (e == EEXIST && Taken(g, a, i, name))
      || NoPlace(g, a, h0, h1, raw, name, true, e)
    case SymlinkAt(_, name, target) =>
      || (e == ENOTDIR && !raw.IsDir()) || (e == EEXIST && Taken(g, a, i, name))
      || NoPlace(g, a, h0, h1, raw, name, |target| >= 60, e)
    case UnlinkAt(_, name, _) =>
      || (e == ENOTDIR && !raw.IsDir()) || (e == ENOENT && !Taken(g, a, i, name))
      || (e == EISDIR && LeadsTo(g, a, i, name, true))
    case RmdirAt(_, name, _) =>
      || (e == ENOTDIR && (!raw.IsDir() || LeadsTo(g, a, i, name, false))) || (e == ENOENT && !Taken(g, a, i, name))
      || (e == ENOTEMPTY && LeadsToEmpty(g, a, i, name, false))
    case WriteAt(_, offset, data) =>
      || (e == EISDIR && raw.IsDir()) || (e == EINVAL && !raw.IsDir() && !raw.IsReg())
      || (e == ENOSPC && FullDuring(g, h0, h1)) || (e == EFBIG && TooFar(g, offset, data))
  }

  ghost predicate Taken(g: Geo, a: Img, i: nat, name: Name)
    requires Layout(g, a) && g.sb.HasInode(i)
  {
    exists e :: e in Shows(g, a, i) && e.name == name
  }

  /** No inode, no block or no further block of the directory for a new entry. */
  ghost predicate NoPlace(g: Geo, a: Img, h0: seq<Img>, h1: seq<Img>, raw: RawInode, name: Name, blocks: bool,
                          e: Errno) {
    || (e == ENOSPC && NoSpaceFor(g, a, h0, h1, raw, name, blocks))
    || (e == EFBIG && g.Valid() && g.sb.blockSize > 0 && raw.Valid() && DirFull(g, a, NodeOf(g, raw), name))
  }

  ghost predicate TooFar(g: Geo, offset: nat, data: seq<byte>) {
    g.Valid() && g.sb.blockSize > 0 && Landing(offset, g.sb.blockSize) + |data| > Capacity(Ptrs(g)) * g.sb.blockSize
  }

  /** An image while q is served on inode i: consistent, every other inode as before, and inode i as before or as
      after: a directory by what it lists, a file byte by byte. */
  ghost predicate Passing(g: Geo, q: Request, a: Img, d: Img, s: set<nat>, gone: set<nat>, i: nat, h: Img) {
    && Layout(g, a) && Layout(g, d) && Layout(g, h) && g.sb.HasInode(i)
    && SomeSet(g, h, s - gone) && Same(g, a, h, s - gone - {i})
    && (Shows(g, h, i) == Shows(g, a, i) || Shows(g, h, i) == Shows(g, d, i))
    && (q.WriteAt? && Rec(g, a, i).IsReg() ==> HalfAt(g, a, h, d, i, Rec(g, a, i), q.offset, q.data))
  }

  ghost predicate PassingSince(g: Geo, q: Request, a: Img, d: Img, s: set<nat>, gone: set<nat>, i: nat, h0: seq<Img>,
                               h1: seq<Img>) {
    h0 <= h1 && forall k :: |h0| <= k < |h1| ==> Passing(g, q, a, d, s, gone, i, h1[k])
  }

  /** A served request: the images it went through, from the one before to the one after, and the inodes before
      and after; the inode it worked on, the one whose name it removed, and the answer. */
  datatype Step = Step(images: seq<Img>, before: Img, after: Img, inos: set<nat>, inos': set<nat>, at: set<nat>,
                       gone: set<nat>, answer: Outcome<()>)

  /** The step is what the request asks for: on the inode its path names, with that request's effect in the end and
      no other on the way, or refused for a reason; on a path that names nothing, no effect at all. */
  ghost predicate Served(g: Geo, q: Request, st: Step) {
    && Layout(g, st.before) && Layout(g, st.after)
    && st.images != [] && st.images[0] == st.before && st.images[|st.images| - 1] == st.after
    && match PathOf(g, st.before, ROOT_INO, q.Path())
       case Fail(e) =>
         st.answer == Fail(e) && st.images == [st.before] && st.inos' == st.inos && st.at == {} && st.gone == {}
       case Done(i) =>
         && g.sb.HasInode(i) && st.at == {i}
         && Effect(g, q, st.before, st.after, st.inos, st.inos', i, st.gone, st.answer.Done?)
         && (st.answer.Fail? ==> Reason(g, q, st.before, [st.before], st.images, i, st.answer.errno))
         && PassingSince(g, q, st.before, st.after, st.inos, st.gone, i, [st.before], st.images)
  }

  /** A new entry finds room without wrapping the directory's size. */
  ghost predicate Fitting(g: Geo, q: Request, a: Img, i: nat)
    requires Layout(g, a) && g.sb.HasInode(i)
  {
    q.Makes() ==> g.sb.blockSize > 0 && EntryFits(g, a, Rec(g, a, i), q.name)
  }

  ghost predicate StepFits(g: Geo, q: Request, st: Step) {
    Layout(g, st.before) && forall i :: i in st.at && g.sb.HasInode(i) ==> Fitting(g, q, st.before, i)
  }

  /** The name, if the request makes one, is short enough to be stored whole. */
  predicate ShortName(q: Request) { q.Makes() ==> |q.name| <= 255 }

  // What stays untouched, and what stays reachable

  /** Every image since h0 is consistent, and every inode of k has the record, tree and blocks it had in a. */
  ghost predicate Untouched(g: Geo, a: Img, h0: seq<Img>, h1: seq<Img>, k: set<nat>) {
    h0 <= h1 && forall j :: |h0| <= j < |h1| ==> SomeSet(g, h1[j], k) && Same(g, a, h1[j], k)
  }

  lemma UntouchedMore(g: Geo, a: Img, b: Img, h: seq<Img>, h0: seq<Img>, h1: seq<Img>, k: set<nat>, k1: set<nat>,
                      k': set<nat>)
    requires Untouched(g, a, h, h0, k) && Same(g, a, b, k) && Untouched(g, b, h0, h1, k1) && k' <= k && k' <= k1
    ensures Untouched(g, a, h, h1, k')
  {
    hide SomeSet, Same;
    forall j | |h| <= j < |h1| ensures SomeSet(g, h1[j], k') && Same(g, a, h1[j], k') {
      if j < |h0| {
        assert h1[j] == h0[j];
        SmallerSet(g, h1[j], k, k');
        SameFewer(g, a, h1[j], k, k');
      } else {
        SmallerSet(g, h1[j], k1, k');
        SameFewer(g, b, h1[j], k1, k');
        SameFewer(g, a, b, k, k');
        SameTransitive(g, a, b, h1[j], k');
      }
    }
  }

  /** Everything the root reached in a and that is not gone it reaches in h. */
  ghost predicate StillReached(g: Geo, a: Img, h: Img, gone: set<nat>) {
    && Layout(g, a) && Layout(g, h)
    && forall j: nat :: Reaches(g, a, ROOT_INO, j) && j !in gone ==> Reaches(g, h, ROOT_INO, j)
  }

  /** ... and in every image since h0. */
  ghost predicate ReachKept(g: Geo, a: Img, h0: seq<Img>, h1: seq<Img>, d: Img, gone: set<nat>) {
    h0 <= h1 && StillReached(g, a, d, gone) && forall k :: |h0| <= k < |h1| ==> StillReached(g, a, h1[k], gone)
  }

  lemma StillReachedMore(g: Geo, a: Img, b: Img, c: Img, gone: set<nat>, more: set<nat>, all: set<nat>)
    requires StillReached(g, a, b, gone) && StillReached(g, b, c, more) && gone <= all && more <= all
    ensures StillReached(g, a, c, all)
  {
    hide Geo.Valid, DescMatches, Reaches;
  }

  lemma ReachKeptMore(g: Geo, a: Img, b: Img, d: Img, h: seq<Img>, h0: seq<Img>, h1: seq<Img>, gone: set<nat>,
                      more: set<nat>)
    requires ReachKept(g, a, h, h0, b, gone) && ReachKept(g, b, h0, h1, d, more)
    ensures ReachKept(g, a, h, h1, d, gone + more)
  {
    hide StillReached;
    StillReachedMore(g, a, b, d, gone, more, gone + more);
    forall k | |h| <= k < |h1| ensures StillReached(g, a, h1[k], gone + more) {
      if k < |h0| {
        assert h1[k] == h0[k];
        StillReachedSelf(g, h1[k]) by { hide *; ReachedLayout(g, a, h1[k], gone); }
        StillReachedMore(g, a, h1[k], h1[k], gone, {}, gone + more);
      } else {
        StillReachedMore(g, a, b, h1[k], gone, more, gone + more);
      }
    }
  }

  lemma StillReachedSelf(g: Geo, a: Img)
    requires Layout(g, a)
    ensures StillReached(g, a, a, {})
  {
    hide Geo.Valid, DescMatches, Reaches;
  }

  lemma ReachedLayout(g: Geo, a: Img, h: Img, gone: set<nat>)
    requires StillReached(g, a, h, gone)
    ensures Layout(g, a) && Layout(g, h)
  {
    hide Geo.Valid, DescMatches, Reaches;
  }

  /** A crash image of an operation on `dir` reaches everything the volume reached before, except what
      the operation removes: its entries for anything else are all still there. */
  lemma StaysReachable(g: Geo, a: Img, h: Img, s: set<nat>, gone: set<nat>, dir: nat, l': seq<DirEntry>)
    requires DiskInv(g, a, s) && dir in s - gone && Layout(g, a) && g.sb.HasInode(dir)
    requires CrashOk(g, a, h, s, gone, dir, Shows(g, a, dir), l') && Layout(g, h)
    requires forall e :: e in Shows(g, a, dir) && e.ino !in gone ==> e in l'
    requires forall i :: i in gone && g.sb.HasInode(i) ==> Shows(g, a, i) == []
    ensures StillReached(g, a, h, gone)
  {
    hide Geo.Valid, DescMatches, DiskInv, Reaches, Lists, Same, Shows;
    var reached := iset i: nat | i in gone || (i in s && Reaches(g, h, ROOT_INO, i));
    SetLayout(g, a, s);
    ReachesSelf(g, h, ROOT_INO);
    forall i: nat, c: nat | i in reached && Lists(g, a, i, c) ensures c in reached {
      ReachStep(g, a, h, s, gone, dir, l', i, c);
    }
    forall j: nat | Reaches(g, a, ROOT_INO, j) && j !in gone ensures Reaches(g, h, ROOT_INO, j) {
      ClosedHolds(g, a, reached, j);
    }
  }

  lemma ReachStep(g: Geo, a: Img, h: Img, s: set<nat>, gone: set<nat>, dir: nat, l': seq<DirEntry>, i: nat, c: nat)
    requires DiskInv(g, a, s) && dir in s - gone && Layout(g, a) && g.sb.HasInode(dir)
    requires CrashOk(g, a, h, s, gone, dir, Shows(g, a, dir), l') && Layout(g, h)
    requires forall e :: e in Shows(g, a, dir) && e.ino !in gone ==> e in l'
    requires forall i :: i in gone && g.sb.HasInode(i) ==> Shows(g, a, i) == []
    requires Lists(g, a, i, c) && (i in gone || (i in s && Reaches(g, h, ROOT_INO, i)))
    ensures c in gone || (c in s && Reaches(g, h, ROOT_INO, c))
  {
    hide Geo.Valid, DescMatches, DiskInv, Reaches, Same, DirListing, DiskNode, SomeSet;
    assert i !in gone;
    ListsInSet(g, a, s, i, c);
    if c !in gone {
      if i != dir { SameShows(g, a, h, s - gone - {dir}, i); }
      assert Lists(g, h, i, c);
      ReachesSnoc(g, h, ROOT_INO, i, c);
    }
  }

  /** Which is so for a link that fits, and for a removal. */
  lemma LinkKeepsEntries(l: seq<DirEntry>, l': seq<DirEntry>, e: DirEntry)
    requires Linked(l, l', e, true)
    ensures forall f :: f in l ==> f in l'
  {
    var k: nat :| k <= |l| && l' == InsertAt(l, k, ShownOf(Record(0, e)));
    hide ShownOf;
    forall f | f in l ensures f in l' { assert l == l[..k] + l[k..]; }
  }

  lemma RemovalKeepsEntries(l: seq<DirEntry>, l': seq<DirEntry>, e: DirEntry)
    requires FirstRemoved(l, l', e)
    ensures forall f :: f in l && f.ino != e.ino ==> f in l'
  {
    var k: nat :| k < |l| && l[k] == e && l' == RemoveAt(l, k);
    forall f | f in l && f.ino != e.ino ensures f in l' { assert l == l[..k] + [e] + l[k + 1..]; }
  }

  /** All images of an operation on a directory, and the volume after it. */
  lemma DirReached(g: Geo, a: Img, h0: seq<Img>, h1: seq<Img>, d: Img, s: set<nat>, s': set<nat>, gone: set<nat>,
                   dir: nat)
    requires DiskInv(g, a, s) && dir in s - gone && Layout(g, a) && Layout(g, d) && g.sb.HasInode(dir)
    requires CrashSince(g, a, h0, h1, s, gone, dir, Shows(g, a, dir), Shows(g, d, dir))
    requires DiskInv(g, d, s') && OneName(TablesOf(g, d, s')) && s - gone <= s' && Same(g, a, d, s - gone - {dir})
    requires forall e :: e in Shows(g, a, dir) && e.ino !in gone ==> e in Shows(g, d, dir)
    requires forall i :: i in gone && g.sb.HasInode(i) ==> Shows(g, a, i) == []
    ensures ReachKept(g, a, h0, h1, d, gone)
  {
    hide Geo.Valid, DescMatches, DiskInv, OneName, TablesOf, Same, Shows, StillReached, SomeSet;
    var l' := Shows(g, d, dir);
    assert SomeSet(g, d, s - gone) by { hide *; SetIs(g, d, s', s - gone); }
    StaysReachable(g, a, d, s, gone, dir, l');
    forall k | |h0| <= k < |h1| ensures StillReached(g, a, h1[k], gone) {
      SameLayout(g, a, h1[k], s - gone - {dir});
      StaysReachable(g, a, h1[k], s, gone, dir, l');
    }
  }

  lemma SetIs(g: Geo, d: Img, t: set<nat>, k: set<nat>)
    requires DiskInv(g, d, t) && OneName(TablesOf(g, d, t)) && k <= t
    ensures SomeSet(g, d, k)
  {
  }

  /** All images of a write to a file, which lists nothing to lose. */
  lemma FileReached(g: Geo, a: Img, h0: seq<Img>, h1: seq<Img>, d: Img, s: set<nat>, i: nat)
    requires DiskInv(g, a, s) && i in s && Layout(g, a) && Layout(g, d) && g.sb.HasInode(i) && Shows(g, a, i) == []
    requires Survives(g, a, h0, h1, s, {}, i) && DiskInv(g, d, s) && OneName(TablesOf(g, d, s))
             && Same(g, a, d, s - {} - {i})
    ensures ReachKept(g, a, h0, h1, d, {})
  {
    hide Geo.Valid, DescMatches, DiskInv, OneName, TablesOf, Same, Shows, StillReached, SomeSet;
    assert s - {} == s;
    assert SomeSet(g, d, s - {}) by { hide *; SetIs(g, d, s, s - {}); }
    StaysReachable(g, a, d, s, {}, i, Shows(g, d, i));
    forall k | |h0| <= k < |h1| ensures StillReached(g, a, h1[k], {}) {
      SameLayout(g, a, h1[k], s - {} - {i});
      StaysReachable(g, a, h1[k], s, {}, i, Shows(g, h1[k], i));
    }
  }

  // Serving one request

  /** Serving q on inode i took image a and inodes s to d and s': the request had its effect or was refused for a
      reason, and had no other on the way; every other inode
      stayed as it was in every image on the way, what the root reached it still reaches if a new entry fitted,
      and names that were unique still are if the new one is stored whole. */
  ghost predicate Handled(g: Geo, q: Request, a: Img, d: Img, h0: seq<Img>, h1: seq<Img>, s: set<nat>, s': set<nat>,
                          i: nat, gone: set<nat>, answer: Outcome<()>) {
    && Layout(g, a) && Layout(g, d) && g.sb.HasInode(i) && s - gone <= s'
    && Effect(g, q, a, d, s, s', i, gone, answer.Done?)
    && (answer.Fail? ==> Reason(g, q, a, h0, h1, i, answer.errno)) && PassingSince(g, q, a, d, s, gone, i, h0, h1)
    && Untouched(g, a, h0, h1, s - gone - {i}) && Same(g, a, d, s - gone - {i})
    && (Fitting(g, q, a, i) ==> ReachKept(g, a, h0, h1, d, gone))
    && (NamesUnique(g, a, s) && ShortName(q) ==> NamesUnique(g, d, s'))
  }

  lemma CrashPasses(g: Geo, q: Request, a: Img, d: Img, h0: seq<Img>, h1: seq<Img>, s: set<nat>, gone: set<nat>, i: nat)
    requires !q.WriteAt? && Layout(g, a) && Layout(g, d) && g.sb.HasInode(i)
    requires CrashSince(g, a, h0, h1, s, gone, i, Shows(g, a, i), Shows(g, d, i))
    ensures PassingSince(g, q, a, d, s, gone, i, h0, h1)
  {
    hide Geo.Valid, DescMatches, SomeSet, Same, Shows;
    forall k | |h0| <= k < |h1| ensures Passing(g, q, a, d, s, gone, i, h1[k]) {
      assert CrashOk(g, a, h1[k], s, gone, i, Shows(g, a, i), Shows(g, d, i));
      SameLayout(g, a, h1[k], s - gone - {i});
    }
  }

  lemma SurvivorsUntouched(g: Geo, a: Img, h0: seq<Img>, h1: seq<Img>, s: set<nat>, gone: set<nat>, i: nat)
    requires Survives(g, a, h0, h1, s, gone, i)
    ensures Untouched(g, a, h0, h1, s - gone - {i})
  {
    hide SomeSet, Same;
    forall k | |h0| <= k < |h1| ensures SomeSet(g, h1[k], s - gone - {i}) {
      SmallerSet(g, h1[k], s - gone, s - gone - {i});
    }
  }

  /** Nothing but the records of inode i changed, and it lists what it did. */
  lemma UniqueAsBefore(g: Geo, a: Img, d: Img, s: set<nat>, i: nat)
    requires DiskInv(g, a, s) && Same(g, a, d, s - {i}) && i in s && Layout(g, a) && Layout(g, d) && g.sb.HasInode(i)
    requires Shows(g, d, i) == Shows(g, a, i)
    ensures NamesUnique(g, a, s) ==> NamesUnique(g, d, s)
  {
    hide Geo.Valid, DescMatches, DiskInv, Same, Shows, AllUnique, TablesOf;
    SameTables(g, a, d, s, i);
  }

  /** The new name of a short-named link keeps names unique, and if it fits every old entry. */
  lemma IntroducedKeeps(g: Geo, a: Img, d: Img, s: set<nat>, i: nat, name: Name, e: DirEntry)
    requires Layout(g, a) && g.sb.HasInode(i) && Introduced(g, a, d, s, i, Rec(g, a, i), name, e)
    ensures NamesUnique(g, a, s) && |name| <= 255 ==> NamesUnique(g, d, s + {e.ino})
    ensures g.sb.blockSize > 0
    ensures EntryFits(g, a, Rec(g, a, i), name) ==> forall f :: f in Shows(g, a, i) ==> f in Shows(g, d, i)
  {
    hide Geo.Valid, DescMatches, NamesUnique, Shows, EntryFits, Linked, Clash, FirstOf, Bound;
    if EntryFits(g, a, Rec(g, a, i), name) { LinkKeepsEntries(Shows(g, a, i), Shows(g, d, i), e); }
  }

  lemma StoredIno(i: nat, name: Name, kind: byte)
    ensures Stored(i, name, kind).ino == i
  {
  }

  /** What a successful or failed request for a new name leaves of the directory. */
  lemma MadeKeeps(g: Geo, q: Request, a: Img, d: Img, s: set<nat>, s': set<nat>, i: nat, ok: bool)
    requires q.Makes() && DiskInv(g, a, s) && i in s && Layout(g, a) && Layout(g, d) && g.sb.HasInode(i)
    requires Same(g, a, d, s - {i}) && Effect(g, q, a, d, s, s', i, {}, ok)
    ensures NamesUnique(g, a, s) && ShortName(q) ==> NamesUnique(g, d, s')
    ensures Fitting(g, q, a, i) ==> forall e :: e in Shows(g, a, i) ==> e in Shows(g, d, i)
    ensures s <= s'
  {
    hide Geo.Valid, DescMatches, DiskInv, Same, Shows, NamesUnique, EntryFits, Introduced, Stored, LinkWritten, Rec,
         Released, Unlinked, FileWritten, FileThere, NewRecord;
    if s' == s && Shows(g, d, i) == Shows(g, a, i) {
      UniqueAsBefore(g, a, d, s, i);
    } else {
      var c: nat, kind: byte :| c !in s && s' == s + {c}
          && Introduced(g, a, d, s, i, Rec(g, a, i), q.name, Stored(c, q.name, kind));
      StoredIno(c, q.name, kind);
      IntroducedKeeps(g, a, d, s, i, q.name, Stored(c, q.name, kind));
    }
  }

  lemma MadeHandled(g: Geo, q: Request, a: Img, d: Img, h0: seq<Img>, h1: seq<Img>, s: set<nat>, s': set<nat>, i: nat,
                    answer: Outcome<()>)
    requires q.Makes() && DiskInv(g, a, s) && i in s && Layout(g, a) && Layout(g, d) && g.sb.HasInode(i)
    requires DiskInv(g, d, s') && OneName(TablesOf(g, d, s'))
    requires Same(g, a, d, s - {i}) && Effect(g, q, a, d, s, s', i, {}, answer.Done?)
    requires answer.Fail? ==> Reason(g, q, a, h0, h1, i, answer.errno)
    requires CrashSince(g, a, h0, h1, s, {}, i, Shows(g, a, i), Shows(g, d, i))
    ensures Handled(g, q, a, d, h0, h1, s, s', i, {}, answer)
  {
    hide Geo.Valid, DescMatches, DiskInv, OneName, TablesOf, Same, Shows, CrashSince, NamesUnique, Effect, Fitting,
         ReachKept, Untouched, Survives, ShortName, Reason, PassingSince;
    assert s - {} == s;
    MadeKeeps(g, q, a, d, s, s', i, answer.Done?);
    CrashPasses(g, q, a, d, h0, h1, s, {}, i);
    CrashSurvives(g, a, h0, h1, s, {}, i, Shows(g, a, i), Shows(g, d, i));
    SurvivorsUntouched(g, a, h0, h1, s, {}, i);
    if Fitting(g, q, a, i) { DirReached(g, a, h0, h1, d, s, s', {}, i); }
  }

  lemma RecordsFit(g: Geo, d: Img)
    requires Layout(g, d)
    ensures g.sb.inodeSize >= 128
  {
    hide DescMatches;
  }

  method ServeMake(core: Ext2Core, q: Request, i: nat, raw: RawInode, ghost s: set<nat>)
    returns (answer: Outcome<()>, ghost s': set<nat>)
    requires Sound(core, s) && i in s && core.sb.HasInode(i) && raw == Rec(core.geo, core.disk, i)
    requires q.Makes() && Fits(q, core.sb.blockSize)
    modifies core
    ensures Sound(core, s')
    ensures Handled(core.geo, q, old(core.disk), core.disk, old(core.history), core.history, s, s', i, {}, answer)
  {
    hide Dirs, DirMoved, Geo.Valid, DescMatches, DiskInv, Same, OneName, CountersOk, Rec, TablesOf, Shows, CrashSince,
         Introduced, Stored, LinkWritten, Unlinked, Released, FileWritten, NewRecord, FirstOf, RawInode.Mode, Handled,
         NoSpaceFor, FreshDir, FreshRecord, ParentAfter, RawInode.LinksCount, DirFull, LeadsTo, LeadsToEmpty,
         FullDuring;
    ghost var g, a, h0 := core.geo, core.disk, core.history;
    SetLayout(g, a, s);
    match q {
      case CreateAt(_, name) =>
        var r;
        r, s' := Create(core, i, raw, name, s);
        answer := if r.Done? then Done(()) else Fail(r.errno);
        SetLayout(g, core.disk, s');
        if r.Done? && r.value in s {
          assert FileThere(g, a, i, name, r.value);
        } else if r.Done? {
          RecordsFit(g, core.disk);
          assert FileMade(g, a, core.disk, s, s', i, name, r.value);
        }
        assert Effect(g, q, a, core.disk, s, s', i, {}, answer.Done?);
      case MkdirAt(_, name) =>
        var r;
        r, s' := Mkdir(core, i, raw, name, s);
        answer := if r.Done? then Done(()) else Fail(r.errno);
        SetLayout(g, core.disk, s');
        if r.Done? { assert DirMade(g, a, core.disk, s, s', i, name, r.value); }
        assert Effect(g, q, a, core.disk, s, s', i, {}, answer.Done?);
      case SymlinkAt(_, name, target) =>
        var r;
        r, s' := MakeSymlink(core, i, raw, name, target, s);
        answer := if r.Done? then Done(()) else Fail(r.errno);
        SetLayout(g, core.disk, s');
        if r.Done? { assert LinkMade(g, a, core.disk, s, s', i, name, target, r.value); }
        assert Effect(g, q, a, core.disk, s, s', i, {}, answer.Done?);
    }
    MadeHandled(g, q, a, core.disk, h0, core.history, s, s', i, answer);
  }

  /** What a removal leaves: every entry for another inode. */
  lemma RemovedKeeps(g: Geo, q: Request, a: Img, d: Img, s: set<nat>, s': set<nat>, i: nat, gone: set<nat>, ok: bool)
    requires (q.UnlinkAt? || q.RmdirAt?) && Layout(g, a) && Layout(g, d) && g.sb.HasInode(i)
    requires Effect(g, q, a, d, s, s', i, gone, ok)
    ensures s' == s - gone && i !in gone && (NamesUnique(g, a, s) ==> NamesUnique(g, d, s'))
    ensures forall e :: e in Shows(g, a, i) && e.ino !in gone ==> e in Shows(g, d, i)
    ensures forall c :: c in gone && g.sb.HasInode(c) ==> Shows(g, a, c) == []
  {
    hide Geo.Valid, DescMatches, Shows, NamesUnique, EntryFits, Introduced, Stored, LinkWritten, Rec, Released,
         FileWritten, NewRecord, FirstRemoved, FirstOf, Unbound;
    if ok {
      var c: nat :| gone == {c} && Removed(g, a, d, s, s', i, q.name, q.RmdirAt?, q.now, c);
      FirstIs(Shows(g, a, i), q.name);
      RemovalKeepsEntries(Shows(g, a, i), Shows(g, d, i), FirstOf(Shows(g, a, i), q.name).value);
    } else {
      assert s - {} == s;
    }
  }

  lemma RemovedHandled(g: Geo, q: Request, a: Img, d: Img, h0: seq<Img>, h1: seq<Img>, s: set<nat>, s': set<nat>,
                       i: nat, gone: set<nat>, answer: Outcome<()>)
    requires (q.UnlinkAt? || q.RmdirAt?) && DiskInv(g, a, s) && i in s && Layout(g, a) && Layout(g, d)
             && g.sb.HasInode(i)
    requires DiskInv(g, d, s') && OneName(TablesOf(g, d, s'))
    requires Same(g, a, d, s - gone - {i}) && Effect(g, q, a, d, s, s', i, gone, answer.Done?)
    requires answer.Fail? ==> Reason(g, q, a, h0, h1, i, answer.errno)
    requires CrashSince(g, a, h0, h1, s, gone, i, Shows(g, a, i), Shows(g, d, i))
    ensures Handled(g, q, a, d, h0, h1, s, s', i, gone, answer)
  {
    hide Geo.Valid, DescMatches, DiskInv, OneName, TablesOf, Same, Shows, CrashSince, NamesUnique, Effect, Fitting,
         ReachKept, Untouched, Survives, ShortName, Reason, PassingSince;
    RemovedKeeps(g, q, a, d, s, s', i, gone, answer.Done?);
    CrashPasses(g, q, a, d, h0, h1, s, gone, i);
    CrashSurvives(g, a, h0, h1, s, gone, i, Shows(g, a, i), Shows(g, d, i));
    SurvivorsUntouched(g, a, h0, h1, s, gone, i);
    DirReached(g, a, h0, h1, d, s, s', gone, i);
  }

  method ServeRemove(core: Ext2Core, q: Request, i: nat, raw: RawInode, ghost s: set<nat>)
    returns (answer: Outcome<()>, ghost s': set<nat>, ghost gone: set<nat>)
    requires Sound(core, s) && i in s && core.sb.HasInode(i) && raw == Rec(core.geo, core.disk, i)
             && (q.UnlinkAt? || q.RmdirAt?)
    modifies core
    ensures Sound(core, s')
    ensures Handled(core.geo, q, old(core.disk), core.disk, old(core.history), core.history, s, s', i, gone, answer)
  {
    hide Dirs, DirMoved, Geo.Valid, DescMatches, DiskInv, Same, OneName, CountersOk, Rec, TablesOf, Shows, CrashSince,
         Introduced, Stored, LinkWritten, Unlinked, Released, LinkDropped, ParentAfter, FileWritten, NewRecord, FirstOf,
         RawInode.Mode, RawInode.LinksCount, Handled, LeadsTo, LeadsToEmpty, NoPlace;
    ghost var g, a, h0 := core.geo, core.disk, core.history;
    SetLayout(g, a, s);
    if q.UnlinkAt? {
      answer, gone := Unlink(core, i, raw, q.name, q.now, s);
      if answer.Done? {
        ghost var c :| gone == {c} && c in s && Unlinked(g, a, core.disk, s, i, q.name, c) && !Rec(g, a, c).IsDir()
                       && LinkDropped(g, a, core.disk, c, q.now);
        FileListsNothing(g, a, c);
        assert Removed(g, a, core.disk, s, s - gone, i, q.name, false, q.now, c);
      }
    } else {
      answer, gone := Rmdir(core, i, raw, q.name, q.now, s);
      if answer.Done? {
        ghost var c :| gone == {c} && c in s && Unlinked(g, a, core.disk, s, i, q.name, c) && Rec(g, a, c).IsDir()
                       && Shows(g, a, c) == [] && Released(g, a, core.disk, c, q.now)
                       && DirMoved(g, a, core.disk, c, -1);
        assert Removed(g, a, core.disk, s, s - gone, i, q.name, true, q.now, c);
      }
    }
    s' := s - gone;
    assert s - {} == s;
    SetLayout(g, core.disk, s');
    assert Effect(g, q, a, core.disk, s, s', i, gone, answer.Done?);
    RemovedHandled(g, q, a, core.disk, h0, core.history, s, s', i, gone, answer);
  }

  lemma FileListsNothing(g: Geo, a: Img, i: nat)
    requires Layout(g, a) && g.sb.HasInode(i) && !Rec(g, a, i).IsDir()
    ensures Shows(g, a, i) == []
  {
    hide DescMatches, Rec, RawInode.Mode;
    RecordNode(g, a, i, Rec(g, a, i));
  }

  method ServeWrite(core: Ext2Core, q: Request, i: nat, raw: RawInode, ghost s: set<nat>)
    returns (answer: Outcome<()>)
    requires Sound(core, s) && i in s && core.sb.HasInode(i) && raw == Rec(core.geo, core.disk, i)
    requires q.WriteAt? && Fits(q, core.sb.blockSize)
    modifies core
    ensures Sound(core, s)
    ensures Handled(core.geo, q, old(core.disk), core.disk, old(core.history), core.history, s, s, i, {}, answer)
  {
    hide Dirs, DirMoved, Geo.Valid, DescMatches, DiskInv, Same, OneName, CountersOk, Rec, TablesOf, Shows, CrashSince,
         Introduced, Stored, LinkWritten, Unlinked, Released, FileWritten, NewRecord, NamesUnique, FirstOf, EntryFits,
         Fitting, RawInode.Mode, ReachKept, Untouched, Survives, Capacity, Landing, HalfWritten, NoFreeBlock,
         FullDuring;
    ghost var g, a, h0 := core.geo, core.disk, core.history;
    SetLayout(g, a, s);
    assert s - {} == s;
    NoChange(g, a, s, i, h0);
    if !raw.IsReg() {
      CrashSurvives(g, a, h0, h0, s, {}, i, Shows(g, a, i), Shows(g, a, i));
      SurvivorsUntouched(g, a, h0, h0, s, {}, i);
      DirReached(g, a, h0, h0, a, s, s, {}, i);
      return if raw.IsDir() then Fail(EISDIR) else Fail(EINVAL);
    }
    var r, raw';
    ghost var done;
    r, raw', done := WriteFile(core, i, raw, q.offset, q.data, s);
    SetLayout(g, core.disk, s);
    assert Wrote(g, a, core.disk, i, q.offset, q.data, raw', done);
    RegularNode(g, a, i, raw);
    RegularNode(g, core.disk, i, Rec(g, core.disk, i));
    UniqueAsBefore(g, a, core.disk, s, i);
    SurvivorsUntouched(g, a, h0, core.history, s, {}, i);
    FileReached(g, a, h0, core.history, core.disk, s, i);
    FilePasses(g, q, a, core.disk, h0, core.history, s, i);
    if r.Fail? {
      if r.errno == ENOSPC { FullAtLast(core, h0); }
      return Fail(r.errno);
    }
    return Done(());
  }

  lemma FullAtLast(core: Ext2Core, h0: seq<Img>)
    requires core.Ready() && NoFreeBlock(core.geo, core.disk) && h0 != [] && h0 <= core.history
    ensures FullDuring(core.geo, h0, core.history)
  {
    hide Geo.Valid, DescMatches, NoFreeBlock;
    assert FullAt(core.geo, core.history[|core.history| - 1]);
  }

  lemma FilePasses(g: Geo, q: Request, a: Img, d: Img, h0: seq<Img>, h1: seq<Img>, s: set<nat>, i: nat)
    requires q.WriteAt? && Layout(g, a) && Layout(g, d) && g.sb.HasInode(i) && Rec(g, a, i).IsReg()
    requires Survives(g, a, h0, h1, s, {}, i) && Shows(g, a, i) == Shows(g, d, i) == []
    requires HalfWritten(g, a, h0, h1, d, i, Rec(g, a, i), q.offset, q.data)
    ensures PassingSince(g, q, a, d, s, {}, i, h0, h1)
  {
    hide Geo.Valid, DescMatches, SomeSet, Same, Shows, Rec, RawInode.Mode, PartWritten, Landing, Slots;
    forall k | |h0| <= k < |h1| ensures Passing(g, q, a, d, s, {}, i, h1[k]) {
      SameLayout(g, a, h1[k], s - {} - {i});
      assert HalfAt(g, a, h1[k], d, i, Rec(g, a, i), q.offset, q.data);
      if Rec(g, h1[k], i) == Rec(g, a, i) { RegularShows(g, h1[k], i); }
    }
  }

  lemma RegularShows(g: Geo, h: Img, i: nat)
    requires Layout(g, h) && g.sb.HasInode(i) && Rec(g, h, i).IsReg() && g.sb.blockSize > 0
    ensures Shows(g, h, i) == []
  {
    hide Geo.Valid, DescMatches, Rec, RawInode.Mode, Slots;
    RegularNode(g, h, i, Rec(g, h, i));
  }

  /** Resolve the request's path and serve it there.  The answer is the request's own: on the inode the path
      names, with the effect it asks for. */
  method Serve(core: Ext2Core, q: Request, ghost s: set<nat>) returns (answer: Outcome<()>, ghost step: Step)
    requires Sound(core, s) && Fits(q, core.sb.blockSize)
    modifies core
    ensures Sound(core, step.inos') && Served(core.geo, q, step)
    ensures step.before == old(core.disk) && step.after == core.disk && step.inos == s && step.answer == answer
            && s - step.gone <= step.inos'
    ensures core.history == old(core.history) + step.images[1..]
    ensures Untouched(core.geo, old(core.disk), old(core.history), core.history, s - step.gone - step.at)
    ensures Same(core.geo, old(core.disk), core.disk, s - step.gone - step.at)
    ensures StepFits(core.geo, q, step) ==>
              ReachKept(core.geo, old(core.disk), old(core.history), core.history, core.disk, step.gone)
    ensures NamesUnique(core.geo, old(core.disk), s) && ShortName(q) ==> NamesUnique(core.geo, core.disk, step.inos')
  {
    hide Geo.Valid, DescMatches, DiskInv, Same, OneName, CountersOk, Rec, TablesOf, Reaches, Fits, Effect, ReachKept,
         Untouched, NamesUnique, PathOf, Fitting, ShortName, Reason, PassingSince;
    ghost var g, a, h0 := core.geo, core.disk, core.history;
    SetLayout(g, a, s);
    var found := Resolve(core, q.Path(), s);
    if found.Fail? {
      NothingHappened(g, a, h0, s);
      assert s - {} - {} == s;
      return Fail(found.errno), Step([a], a, a, s, s, {}, {}, Fail(found.errno));
    }
    var i := found.value;
    var raw := core.ReadInode(i);
    ghost var s', gone := s, {};
    if q.Makes() {
      answer, s' := ServeMake(core, q, i, raw.value, s);
    } else if q.WriteAt? {
      answer := ServeWrite(core, q, i, raw.value, s);
    } else {
      answer, s', gone := ServeRemove(core, q, i, raw.value, s);
    }
    PassedHistory(g, q, a, core.disk, s, gone, i, h0, core.history);
    ghost var images := core.history[|h0| - 1..];
    PassedImages(g, q, a, core.disk, s, gone, i, h0, core.history);
    if answer.Fail? { ReasonImages(g, q, a, h0, core.history, i, answer.errno); }
    step := Step(images, a, core.disk, s, s', {i}, gone, answer);
  }

  lemma PassedHistory(g: Geo, q: Request, a: Img, d: Img, s: set<nat>, gone: set<nat>, i: nat, h0: seq<Img>,
                      h1: seq<Img>)
    requires PassingSince(g, q, a, d, s, gone, i, h0, h1) && h0 != []
    ensures h0 <= h1 && h1 == h0 + h1[|h0| - 1..][1..]
  {
    hide Passing;
  }

  /** The same, with the images cut out of the history. */
  lemma PassedImages(g: Geo, q: Request, a: Img, d: Img, s: set<nat>, gone: set<nat>, i: nat, h0: seq<Img>,
                     h1: seq<Img>)
    requires PassingSince(g, q, a, d, s, gone, i, h0, h1) && h0 != [] && h0[|h0| - 1] == a
    ensures h0 <= h1 && PassingSince(g, q, a, d, s, gone, i, [a], h1[|h0| - 1..])
  {
    hide Passing;
    var images := h1[|h0| - 1..];
    forall k | 1 <= k < |images| ensures Passing(g, q, a, d, s, gone, i, images[k]) {
      assert images[k] == h1[|h0| - 1 + k];
    }
  }

  lemma FullImages(g: Geo, a: Img, h0: seq<Img>, h1: seq<Img>)
    requires h0 != [] && h0 <= h1 && h0[|h0| - 1] == a && FullDuring(g, h0, h1)
    ensures FullDuring(g, [a], h1[|h0| - 1..])
  {
    hide FullAt;
    var images := h1[|h0| - 1..];
    var k :| |h0| - 1 <= k < |h1| && FullAt(g, h1[k]);
    assert images[k - (|h0| - 1)] == h1[k];
  }

  lemma ReasonImages(g: Geo, q: Request, a: Img, h0: seq<Img>, h1: seq<Img>, i: nat, e: Errno)
    requires Layout(g, a) && g.sb.HasInode(i) && Reason(g, q, a, h0, h1, i, e)
    requires h0 != [] && h0 <= h1 && h0[|h0| - 1] == a
    ensures Reason(g, q, a, [a], h1[|h0| - 1..], i, e)
  {
    hide Geo.Valid, DescMatches, Rec, RawInode.Mode, Taken, LeadsTo, LeadsToEmpty, TooFar, DirFull, NoFreeInode,
         HasRoom, NodeOf, FullDuring, DirentLen;
    if FullDuring(g, h0, h1) { FullImages(g, a, h0, h1); }
  }

  lemma NothingHappened(g: Geo, a: Img, h0: seq<Img>, s: set<nat>)
    requires DiskInv(g, a, s)
    ensures Same(g, a, a, s) && Untouched(g, a, h0, h0, s) && ReachKept(g, a, h0, h0, a, {})
  {
    hide Geo.Valid, DescMatches, DiskInv, Rec, NodeOf, At, StillReached;
    SetLayout(g, a, s);
    StillReachedSelf(g, a);
  }

  // Runs

  /** The inodes the steps worked on or removed the names of. */
  ghost function Touched(log: seq<Step>): set<nat> {
    if log == [] then {} else Touched(log[..|log| - 1]) + log[|log| - 1].gone + log[|log| - 1].at
  }

  /** The inodes the steps removed the names of. */
  ghost function Gone(log: seq<Step>): set<nat> {
    if log == [] then {} else Gone(log[..|log| - 1]) + log[|log| - 1].gone
  }

  /** The images of the steps, one after the other; each step's first is the last of the one before. */
  ghost function Images(log: seq<Step>): seq<Img> {
    if log == [] then []
    else Images(log[..|log| - 1]) + if log[|log| - 1].images == [] then [] else log[|log| - 1].images[1..]
  }

  /** The image is one while a request was served: the requests before it are done, those after it not begun. */
  ghost predicate Caught(g: Geo, requests: seq<Request>, log: seq<Step>, h: Img) {
    |log| == |requests| && exists j :: 0 <= j < |log| && CaughtIn(g, requests[j], log[j], h)
  }

  ghost predicate CaughtIn(g: Geo, q: Request, st: Step, h: Img) {
    exists i: nat :: st.at == {i} && Passing(g, q, st.before, st.after, st.inos, st.gone, i, h)
  }

  /** The steps lead from image a with inodes s to image d with inodes s', each from where the last one ended. */
  ghost predicate Chain(log: seq<Step>, a: Img, s: set<nat>, d: Img, s': set<nat>) {
    if log == [] then d == a && s' == s
    else var last := log[|log| - 1];
         Chain(log[..|log| - 1], a, s, last.before, last.inos) && last.after == d && last.inos' == s'
  }

  /** Every step is what its request asks for. */
  ghost predicate AllServed(g: Geo, requests: seq<Request>, log: seq<Step>) {
    |log| == |requests| && forall j :: 0 <= j < |log| ==> Served(g, requests[j], log[j])
  }

  ghost predicate AllFit(g: Geo, requests: seq<Request>, log: seq<Step>) {
    |log| == |requests| && forall j :: 0 <= j < |log| ==> StepFits(g, requests[j], log[j])
  }

  predicate AllShort(requests: seq<Request>) {
    forall q :: q in requests ==> ShortName(q)
  }

  lemma LogGrows(log: seq<Step>, st: Step, a: Img, s: set<nat>)
    requires Chain(log, a, s, st.before, st.inos)
    ensures Chain(log + [st], a, s, st.after, st.inos')
    ensures Touched(log + [st]) == Touched(log) + st.gone + st.at && Gone(log + [st]) == Gone(log) + st.gone
    ensures st.images != [] ==> Images(log + [st]) == Images(log) + st.images[1..]
  {
    assert (log + [st])[..|log|] == log;
  }

  lemma RequestsGrow(g: Geo, requests: seq<Request>, j: nat, log: seq<Step>, st: Step)
    requires j < |requests| && |log| == j
    ensures AllServed(g, requests[..j], log) && Served(g, requests[j], st) ==>
              AllServed(g, requests[..j + 1], log + [st])
    ensures AllFit(g, requests[..j + 1], log + [st]) ==> AllFit(g, requests[..j], log) && StepFits(g, requests[j], st)
    ensures AllShort(requests[..j + 1]) ==> AllShort(requests[..j]) && ShortName(requests[j])
  {
    hide Served, StepFits, ShortName;
    assert requests[..j + 1] == requests[..j] + [requests[j]];
    if AllFit(g, requests[..j + 1], log + [st]) {
      forall x | 0 <= x < j ensures StepFits(g, requests[x], log[x]) {
        assert StepFits(g, requests[..j + 1][x], (log + [st])[x]);
      }
      assert StepFits(g, requests[..j + 1][j], (log + [st])[j]);
    }
  }

  /** Any sequence of requests, served one after the other from a sound volume.  The log says what each did, and
      after every single block write of the whole run the volume is consistent, with every inode the log does not
      mention exactly as it was and, when every new entry fitted, everything in reach that was not removed. */
  method Run(core: Ext2Core, requests: seq<Request>, ghost s: set<nat>)
    returns (done: seq<Outcome<()>>, ghost s': set<nat>, ghost log: seq<Step>)
    requires Sound(core, s) && forall q :: q in requests ==> Fits(q, core.sb.blockSize)
    modifies core
    ensures Sound(core, s') && Chain(log, old(core.disk), s, core.disk, s') && AllServed(core.geo, requests, log)
    ensures |done| == |log| && (forall j :: 0 <= j < |done| ==> done[j] == log[j].answer) && s - Gone(log) <= s'
    ensures core.history == old(core.history) + Images(log)
    ensures Same(core.geo, old(core.disk), core.disk, s - Touched(log))
    ensures Untouched(core.geo, old(core.disk), old(core.history), core.history, s - Touched(log))
    ensures AllFit(core.geo, requests, log) ==>
              ReachKept(core.geo, old(core.disk), old(core.history), core.history, core.disk, Gone(log))
    ensures NamesUnique(core.geo, old(core.disk), s) && AllShort(requests) ==> NamesUnique(core.geo, core.disk, s')
  {
    hide DiskInv, Same, OneName, CountersOk, TablesOf, Fits, Layout, Untouched, ReachKept, NamesUnique, Served,
         StepFits, ShortName, Touched, Gone, Images, Chain, AllServed, AllFit, AllShort;
    ghost var g, a, h := core.geo, core.disk, core.history;
    done, s', log := [], s, [];
    NothingHappened(g, a, h, s);
    RunStarts(g, a, s, requests);
    for j := 0 to |requests|
      invariant Sound(core, s') && Chain(log, a, s, core.disk, s') && AllServed(g, requests[..j], log)
      invariant |done| == |log| == j && (forall x :: 0 <= x < j ==> done[x] == log[x].answer) && s - Gone(log) <= s'
      invariant core.history == h + Images(log)
      invariant Same(g, a, core.disk, s - Touched(log)) && Untouched(g, a, h, core.history, s - Touched(log))
                && Gone(log) <= Touched(log)
      invariant AllFit(g, requests[..j], log) ==> ReachKept(g, a, h, core.history, core.disk, Gone(log))
      invariant NamesUnique(g, a, s) && AllShort(requests[..j]) ==> NamesUnique(g, core.disk, s')
    {
      ghost var b, h0, before, k := core.disk, core.history, s', s - Touched(log);
      var answer;
      ghost var st;
      answer, st := Serve(core, requests[j], s');
      StepImages(g, requests[j], st);
      RequestsGrow(g, requests, j, log, st);
      LogGrows(log, st, a, s);
      ghost var log1 := log + [st];
      ghost var k1 := s - Touched(log1);
      UntouchedMore(g, a, b, h, h0, core.history, k, before - st.gone - st.at, k1);
      SameFewer(g, a, b, k, k1);
      SameFewer(g, b, core.disk, before - st.gone - st.at, k1);
      SameTransitive(g, a, b, core.disk, k1);
      if AllFit(g, requests[..j + 1], log1) {
        ReachKeptMore(g, a, b, core.disk, h, h0, core.history, Gone(log), st.gone);
      }
      log, done, s' := log1, done + [answer], st.inos';
    }
    assert requests[..|requests|] == requests;
  }

  lemma StepImages(g: Geo, q: Request, st: Step)
    requires Served(g, q, st)
    ensures st.images != []
  {
  }

  lemma RunStarts(g: Geo, a: Img, s: set<nat>, requests: seq<Request>)
    ensures Chain([], a, s, a, s) && AllServed(g, requests[..0], []) && Touched([]) == Gone([]) == {} && s - {} == s
    ensures Images([]) == []
  {
  }

  // Mounting after the crash

  /** A crash image, mounted.  It is refused exactly when some chain of names is 65 inodes long; otherwise what the
      image still reached is back as it was before the run, the volume is sound and nothing leaks. */
  method MountAfterCrash(core: Ext2Core, ghost a: Img, ghost k: set<nat>, ghost gone: set<nat>)
    returns (r: Result<(nat, nat)>)
    requires core.Ready() && TightRoles(core.geo) && SomeSet(core.geo, core.disk, k) && Same(core.geo, a, core.disk, k)
    modifies core
    ensures core.Ready() && (r.Err? <==> Deep(core.geo, old(core.disk), ROOT_INO, 65)) && (r.Err? ==> r == Err(TooDeep))
    ensures r.Ok? ==> Recovered(core.geo, old(core.disk), core.disk) && Sound(core, LiveSet(core.geo, core.disk))
    ensures r.Ok? ==> Same(core.geo, a, core.disk, k * LiveSet(core.geo, core.disk))
    ensures r.Ok? && StillReached(core.geo, a, old(core.disk), gone) ==> StillReached(core.geo, a, core.disk, gone)
  {
    hide Geo.Valid, DescMatches, DiskInv, Same, TightRoles, Recovered, Deep, CountersOk, OnlyCounts, Reclaimed,
         SurveyFails, SafeDuring, LiveSet, StillReached, OneName, TablesOf;
    ghost var h := core.disk;
    ghost var t := Around(core.geo, h, k);
    ghost var mid;
    r, mid := MountAndRepair(core, t);
    if r.Ok? {
      BackAgain(core.geo, a, h, core.disk, k);
      BackSound(core.geo, h, core.disk, t);
      if StillReached(core.geo, a, h, gone) { BackReached(core.geo, a, h, core.disk, t, gone); }
    }
  }

  lemma Around(g: Geo, h: Img, k: set<nat>) returns (t: set<nat>)
    requires SomeSet(g, h, k)
    ensures k <= t && DiskInv(g, h, t) && OneName(TablesOf(g, h, t))
  {
    t :| k <= t && DiskInv(g, h, t) && OneName(TablesOf(g, h, t));
  }

  lemma BackAgain(g: Geo, a: Img, h: Img, d: Img, k: set<nat>)
    requires Same(g, a, h, k) && Recovered(g, h, d)
    ensures Layout(g, h) && Layout(g, d) && Same(g, a, d, k * LiveSet(g, d))
  {
    hide Geo.Valid, DescMatches, DiskInv, Rec, NodeOf, Intact, CountersOk, NoLeaks, LiveSet;
    var live := k * LiveSet(g, h);
    forall i | i in live
      ensures g.sb.HasInode(i) && Rec(g, d, i) == Rec(g, a, i) && Intact(g, a, d, DiskNode(g, a, i)) {
      assert DiskNode(g, h, i) == DiskNode(g, a, i);
      IntactTransitive(g, a, h, d, DiskNode(g, a, i));
    }
  }

  /** The live inodes' listings are as they were, so no two names lead to one inode. */
  lemma BackSound(g: Geo, h: Img, d: Img, t: set<nat>)
    requires DiskInv(g, h, t) && OneName(TablesOf(g, h, t)) && Recovered(g, h, d)
    ensures Layout(g, d) && DiskInv(g, d, LiveSet(g, d)) && CountersOk(g, d) && OneName(TablesOf(g, d, LiveSet(g, d)))
  {
    hide Geo.Valid, DescMatches, DiskInv, Same, OneName, CountersOk, NoLeaks, Shows, LiveSet, Rec, NodeOf, Intact;
    SetLayout(g, h, t);
    LivePart(g, h, t);
    var live := LiveSet(g, d);
    SetLayout(g, d, live);
    assert Same(g, h, d, live) by { hide *; RecoveredSame(g, h, d); }
    forall i | i in live ensures TablesOf(g, d, live)[i] == TablesOf(g, h, t)[i] {
      SameShows(g, h, d, live, i);
      ShowsTable(g, d, live, i);
      ShowsTable(g, h, t, i);
    }
    NamesDropped(TablesOf(g, h, t), TablesOf(g, d, live));
  }

  lemma RecoveredSame(g: Geo, h: Img, d: Img)
    requires Recovered(g, h, d)
    ensures Layout(g, d) && Same(g, h, d, LiveSet(g, d))
  {
    hide Geo.Valid, DescMatches, DiskInv, CountersOk, NoLeaks, Rec, NodeOf, Intact, LiveSet;
    SetLayout(g, d, LiveSet(g, d));
  }

  lemma BackReached(g: Geo, a: Img, h: Img, d: Img, t: set<nat>, gone: set<nat>)
    requires DiskInv(g, h, t) && Recovered(g, h, d) && StillReached(g, a, h, gone)
    ensures StillReached(g, a, d, gone)
  {
    hide Geo.Valid, DescMatches, DiskInv, CountersOk, NoLeaks, Rec, NodeOf, Intact, Reaches;
    SetLayout(g, h, t);
    forall j: nat | Reaches(g, a, ROOT_INO, j) && j !in gone ensures Reaches(g, d, ROOT_INO, j) {
      LiveInSet(g, h, t, j);
      assert j in LiveSet(g, h);
      LiveIsLive(g, d, j);
    }
  }

  // Power cuts, one after another

  /** The time between two mounts: requests, and after how many block writes of theirs the power goes. */
  datatype Round = Round(requests: seq<Request>, writes: nat)

  /** A round as it went: the history it found and, last in it, the mounted image; the inodes then; the log of the
      requests as they would have gone without the cut, and the images they went through; the image the cut left;
      and what mounting that made of it. */
  datatype Era = Era(found: seq<Img>, inos: set<nat>, log: seq<Step>, ran: seq<Img>, image: Img, after: Img,
                     inos': set<nat>)
  {
    function Before(): Img
      requires found != []
    {
      found[|found| - 1]
    }
  }

  /** Of the images a run went through since h0, the one after so many writes, or the last. */
  ghost predicate CutAt(h0: seq<Img>, ran: seq<Img>, writes: nat, image: Img) {
    h0 != [] && h0 <= ran && image == ran[Arith.Min(|h0| - 1 + writes, |ran| - 1)]
  }

  /** The requests were served one after the other from the mounted image, through exactly the images of the run,
      and the power went after so many writes, before the first or while one of them was served.  Up to then no
      inode outside the log had changed. */
  ghost predicate CutOff(g: Geo, round: Round, era: Era) {
    && CutAt(era.found, era.ran, round.writes, era.image) && Layout(g, era.image)
    && LogEnds(era.log, era.Before(), era.inos, era.ran) && AllServed(g, round.requests, era.log)
    && era.ran == era.found + Images(era.log)
    && (era.image == era.Before() || Caught(g, round.requests, era.log, era.image))
    && Untouched(g, era.Before(), era.found, era.ran, era.inos - Touched(era.log))
  }

  ghost predicate LogEnds(log: seq<Step>, a: Img, s: set<nat>, ran: seq<Img>) {
    exists d: Img, t: set<nat> :: Chain(log, a, s, d, t) && ran != [] && ran[|ran| - 1] == d
  }

  /** ... and the mount repaired what the cut left.  An inode that no request touched and that is still in reach is
      unchanged, and when every new entry fitted everything in reach that was not removed still is. */
  ghost predicate MountedAgain(g: Geo, round: Round, era: Era) {
    && CutOff(g, round, era) && Recovered(g, era.image, era.after) && era.inos' == LiveSet(g, era.after)
    && Same(g, era.Before(), era.after, (era.inos - Touched(era.log)) * era.inos')
    && (AllFit(g, round.requests, era.log) ==> StillReached(g, era.Before(), era.after, Gone(era.log)))
  }

  /** Requests, a power cut after any block write, and a mount. */
  method ServeRound(core: Ext2Core, round: Round, ghost s: set<nat>) returns (r: Result<(nat, nat)>, ghost era: Era)
    requires Sound(core, s) && TightRoles(core.geo) && forall q :: q in round.requests ==> Fits(q, core.sb.blockSize)
    modifies core
    ensures core.Ready() && era.found == old(core.history) && era.inos == s && CutOff(core.geo, round, era)
    ensures r.Err? <==> Deep(core.geo, era.image, ROOT_INO, 65)
    ensures r.Ok? ==> era.after == core.disk && Sound(core, era.inos') && MountedAgain(core.geo, round, era)
  {
    hide DiskInv, Same, OneName, CountersOk, TablesOf, Fits, Layout, ReachKept, NamesUnique, Served, StepFits,
         ShortName, SomeSet, Touched, Gone, Images, Chain, AllServed, AllFit, AllShort, Deep, StillReached, TightRoles,
         Recovered, LiveSet, Untouched, Caught, CutOff;
    ghost var g, a, h0 := core.geo, core.disk, core.history;
    var n := |core.history|;
    var done;
    ghost var s', log;
    done, s', log := Run(core, round.requests, s);
    ghost var ran, k, gone, d := core.history, s - Touched(log), Gone(log), core.disk;
    ghost var t := s';
    GoneTouched(log);
    HistoryKept(g, a, h0, ran, k);
    SetIs(g, core.disk, s', k);
    if AllFit(g, round.requests, log) { ReachedAtEnd(g, a, h0, core.history, core.disk, gone); }
    var cut := n - 1 + round.writes;
    if cut < |core.history| {
      UntouchedAt(g, a, h0, core.history, s, k, cut);
      if AllFit(g, round.requests, log) { ReachedAt(g, a, h0, core.history, core.disk, gone, cut); }
      core.disk, core.history := core.history[cut], core.history[..cut + 1];
    }
    ghost var image := core.disk;
    if image != a { CutIsCaught(g, round.requests, log, h0, ran, Arith.Min(cut, |ran| - 1)); }
    SameLayout(g, a, image, k);
    r := MountAfterCrash(core, a, k, gone);
    era := Era(h0, s, log, ran, image, core.disk, {});
    if r.Ok? {
      RecoveredSame(g, image, core.disk);
      era := Era(h0, s, log, ran, image, core.disk, LiveSet(g, core.disk));
    }
    NowCutOff(g, round, era, d, t);
  }

  lemma NowCutOff(g: Geo, round: Round, era: Era, d: Img, t: set<nat>)
    requires CutAt(era.found, era.ran, round.writes, era.image) && Layout(g, era.image)
    requires Chain(era.log, era.Before(), era.inos, d, t) && era.ran[|era.ran| - 1] == d
    requires AllServed(g, round.requests, era.log) && era.ran == era.found + Images(era.log)
    requires era.image == era.Before() || Caught(g, round.requests, era.log, era.image)
    requires Untouched(g, era.Before(), era.found, era.ran, era.inos - Touched(era.log))
    ensures CutOff(g, round, era)
  {
    hide Layout, Chain, AllServed, Images, Caught, Untouched, Touched;
  }

  lemma HistoryKept(g: Geo, a: Img, h0: seq<Img>, h1: seq<Img>, k: set<nat>)
    requires Untouched(g, a, h0, h1, k)
    ensures h0 <= h1
  {
  }

  /** Every image of a run but the first is one of the images of a step. */
  lemma {:induction false} ImageInStep(log: seq<Step>, k: nat) returns (j: nat, m: nat)
    requires k < |Images(log)|
    ensures j < |log| && 1 <= m < |log[j].images| && Images(log)[k] == log[j].images[m]
    decreases |log|
  {
    var n := |log| - 1;
    var front := Images(log[..n]);
    if k < |front| {
      j, m := ImageInStep(log[..n], k);
    } else {
      j, m := n, k - |front| + 1;
    }
  }

  lemma CutIsCaught(g: Geo, requests: seq<Request>, log: seq<Step>, h0: seq<Img>, ran: seq<Img>, c: nat)
    requires AllServed(g, requests, log) && ran == h0 + Images(log) && h0 != [] && |h0| - 1 <= c < |ran|
    requires ran[c] != h0[|h0| - 1]
    ensures Caught(g, requests, log, ran[c])
  {
    hide Images, Layout, Effect, Reason, Passing, PathOf;
    var j, m := ImageInStep(log, c - |h0|);
    var st := log[j];
    assert Served(g, requests[j], st);
    var i := PathOf(g, st.before, ROOT_INO, requests[j].Path()).value;
    assert Passing(g, requests[j], st.before, st.after, st.inos, st.gone, i, st.images[m]);
    assert CaughtIn(g, requests[j], st, ran[c]);
  }

  lemma {:induction false} GoneTouched(log: seq<Step>)
    ensures Gone(log) <= Touched(log)
  {
    if log != [] { GoneTouched(log[..|log| - 1]); }
  }

  /** The images a run can be cut at: the one it began with and every one since. */
  lemma UntouchedAt(g: Geo, a: Img, h0: seq<Img>, h1: seq<Img>, s: set<nat>, k: set<nat>, j: nat)
    requires Untouched(g, a, h0, h1, k) && |h0| - 1 <= j < |h1| && h0 != [] && h0[|h0| - 1] == a
    requires DiskInv(g, a, s) && OneName(TablesOf(g, a, s)) && k <= s
    ensures SomeSet(g, h1[j], k) && Same(g, a, h1[j], k) && Layout(g, h1[j])
  {
    hide SomeSet, Same, DiskInv, OneName;
    if j == |h0| - 1 {
      NothingHappened(g, a, h0, s);
      SameFewer(g, a, a, s, k);
      SetIs(g, a, s, k);
    }
    SameLayout(g, a, h1[j], k);
  }

  lemma ReachedAt(g: Geo, a: Img, h0: seq<Img>, h1: seq<Img>, d: Img, gone: set<nat>, j: nat)
    requires ReachKept(g, a, h0, h1, d, gone) && |h0| - 1 <= j < |h1| && h0 != [] && h0[|h0| - 1] == a
    ensures StillReached(g, a, h1[j], gone)
  {
    hide StillReached;
    if j == |h0| - 1 {
      ReachedLayout(g, a, d, gone);
      StillReachedSelf(g, a);
      StillReachedMore(g, a, a, a, {}, {}, gone);
    }
  }

  lemma ReachedAtEnd(g: Geo, a: Img, h0: seq<Img>, h1: seq<Img>, d: Img, gone: set<nat>)
    requires ReachKept(g, a, h0, h1, d, gone)
    ensures StillReached(g, a, d, gone)
  {
    hide StillReached;
  }

  /** The rounds follow one another: each found what the mount before it left. */
  ghost predicate EraChain(eras: seq<Era>, a: Img, s: set<nat>, d: Img, s': set<nat>) {
    if eras == [] then d == a && s' == s
    else var last := eras[|eras| - 1];
         last.found != [] && EraChain(eras[..|eras| - 1], a, s, last.Before(), last.inos) && last.after == d
         && last.inos' == s'
  }

  ghost predicate AllMounted(g: Geo, rounds: seq<Round>, eras: seq<Era>) {
    |eras| <= |rounds| && forall j :: 0 <= j < |eras| ==> MountedAgain(g, rounds[j], eras[j])
  }

  ghost predicate RoundsFit(g: Geo, rounds: seq<Round>, eras: seq<Era>) {
    |eras| <= |rounds| && forall j :: 0 <= j < |eras| ==> AllFit(g, rounds[j].requests, eras[j].log)
  }

  ghost function AllTouched(eras: seq<Era>): set<nat> {
    if eras == [] then {} else AllTouched(eras[..|eras| - 1]) + Touched(eras[|eras| - 1].log)
  }

  ghost function AllGone(eras: seq<Era>): set<nat> {
    if eras == [] then {} else AllGone(eras[..|eras| - 1]) + Gone(eras[|eras| - 1].log)
  }

  /** The inodes of s that no request touched and that were in reach at every mount. */
  ghost function Kept(s: set<nat>, eras: seq<Era>): set<nat> {
    if eras == [] then s else (Kept(s, eras[..|eras| - 1]) - Touched(eras[|eras| - 1].log)) * eras[|eras| - 1].inos'
  }

  /** Over any rounds that follow one another: an inode kept through all of them is as it was, and if every new
      entry fitted that is every inode the root reached at the start and no request touched. */
  lemma {:induction false} Outlived(g: Geo, rounds: seq<Round>, eras: seq<Era>, a: Img, s: set<nat>, d: Img,
                                    s': set<nat>)
    requires DiskInv(g, a, s) && EraChain(eras, a, s, d, s') && AllMounted(g, rounds, eras)
    ensures Layout(g, a) && Layout(g, d) && Kept(s, eras) <= s' && Same(g, a, d, Kept(s, eras))
    ensures RoundsFit(g, rounds, eras) ==>
              StillReached(g, a, d, AllGone(eras)) && LiveSet(g, a) - AllTouched(eras) <= Kept(s, eras)
    decreases |eras|
  {
    hide Same, Layout, AllFit, Touched, Gone, StillReached, LiveSet, DiskInv, MountedAgain;
    if eras == [] {
      NoRounds(g, a, s);
    } else {
      var n := |eras| - 1;
      var front, last := eras[..n], eras[n];
      Outlived(g, rounds, front, a, s, last.Before(), last.inos);
      assert MountedAgain(g, rounds[n], last);
      OneMoreRound(g, rounds, front, last, a, s);
      assert front + [last] == eras;
    }
  }

  lemma NoRounds(g: Geo, a: Img, s: set<nat>)
    requires DiskInv(g, a, s)
    ensures Layout(g, a) && Same(g, a, a, s) && StillReached(g, a, a, {}) && LiveSet(g, a) <= s
  {
    hide Geo.Valid, DescMatches, DiskInv, Same, LiveSet, StillReached, Untouched, ReachKept;
    SetLayout(g, a, s);
    NothingHappened(g, a, [], s);
    StillReachedSelf(g, a);
    LivePart(g, a, s);
  }

  lemma OneMoreRound(g: Geo, rounds: seq<Round>, eras: seq<Era>, era: Era, a: Img, s: set<nat>)
    requires |eras| < |rounds| && MountedAgain(g, rounds[|eras|], era) && Layout(g, a) && Kept(s, eras) <= era.inos
    requires era.found != [] && Same(g, a, era.Before(), Kept(s, eras))
    requires RoundsFit(g, rounds, eras) ==>
               StillReached(g, a, era.Before(), AllGone(eras)) && LiveSet(g, a) - AllTouched(eras) <= Kept(s, eras)
    ensures var all := eras + [era];
            && Layout(g, era.after) && Kept(s, all) <= era.inos' && Same(g, a, era.after, Kept(s, all))
            && (RoundsFit(g, rounds, all) ==>
                  StillReached(g, a, era.after, AllGone(all)) && LiveSet(g, a) - AllTouched(all) <= Kept(s, all))
  {
    hide Same, Layout, AllServed, AllFit, Touched, Gone, StillReached, LiveSet, CutOff, Recovered;
    var all, b, d, k := eras + [era], era.Before(), era.after, Kept(s, eras);
    assert all[..|eras|] == eras;
    RecoveredSame(g, era.image, d);
    var k' := (k - Touched(era.log)) * era.inos';
    SameFewer(g, a, b, k, k');
    SameFewer(g, b, d, (era.inos - Touched(era.log)) * era.inos', k');
    SameTransitive(g, a, b, d, k');
    if RoundsFit(g, rounds, all) {
      assert AllFit(g, rounds[|eras|].requests, all[|eras|].log);
      forall j | 0 <= j < |eras| ensures AllFit(g, rounds[j].requests, eras[j].log) {
        assert AllFit(g, rounds[j].requests, all[j].log);
      }
      StillReachedMore(g, a, b, d, AllGone(eras), Gone(era.log), AllGone(all));
      AllGoneTouched(all);
      ReachedIsLive(g, a, d, AllGone(all));
    }
  }

  lemma {:induction false} AllGoneTouched(eras: seq<Era>)
    ensures AllGone(eras) <= AllTouched(eras)
  {
    hide Gone, Touched;
    if eras != [] {
      AllGoneTouched(eras[..|eras| - 1]);
      GoneTouched(eras[|eras| - 1].log);
    }
  }

  lemma ReachedIsLive(g: Geo, a: Img, d: Img, gone: set<nat>)
    requires StillReached(g, a, d, gone)
    ensures Layout(g, a) && Layout(g, d) && LiveSet(g, a) - gone <= LiveSet(g, d)
  {
    hide Geo.Valid, DescMatches, Reaches;
  }

  /** Any number of rounds.  Each is mounted as the cut left it, until one is refused for a chain of names 65 inodes
      long; otherwise the volume is sound at the end and everything in reach at the start that nobody touched is
      there, as it was. */
  method ServeRounds(core: Ext2Core, rounds: seq<Round>, ghost s: set<nat>)
    returns (ok: bool, ghost s': set<nat>, ghost eras: seq<Era>, ghost refused: Era)
    requires Sound(core, s) && TightRoles(core.geo)
    requires forall j, q :: 0 <= j < |rounds| && q in rounds[j].requests ==> Fits(q, core.sb.blockSize)
    modifies core
    ensures core.Ready() && AllMounted(core.geo, rounds, eras)
    ensures ok ==> |eras| == |rounds| && Sound(core, s') && EraChain(eras, old(core.disk), s, core.disk, s')
    ensures ok ==> Layout(core.geo, old(core.disk)) && Kept(s, eras) <= s'
                   && Same(core.geo, old(core.disk), core.disk, Kept(s, eras))
    ensures ok && RoundsFit(core.geo, rounds, eras) ==>
              && StillReached(core.geo, old(core.disk), core.disk, AllGone(eras))
              && LiveSet(core.geo, old(core.disk)) - AllTouched(eras) <= Kept(s, eras)
    ensures !ok ==> |eras| < |rounds| && CutOff(core.geo, rounds[|eras|], refused)
                    && EraChain(eras, old(core.disk), s, refused.Before(), refused.inos)
                    && Deep(core.geo, refused.image, ROOT_INO, 65)
  {
    hide DiskInv, Same, OneName, CountersOk, TablesOf, Fits, Layout, Deep, TightRoles, Recovered, LiveSet, MountedAgain,
         CutOff, EraChain, Kept, AllGone, AllTouched, RoundsFit, StillReached;
    ghost var g, a := core.geo, core.disk;
    NoEras(a, s);
    s', eras, refused := s, [], Era([a], s, [], [a], a, a, s);
    for j := 0 to |rounds|
      invariant Sound(core, s') && |eras| == j && EraChain(eras, a, s, core.disk, s') && AllMounted(g, rounds, eras)
    {
      var r;
      ghost var era;
      r, era := ServeRound(core, rounds[j], s');
      EraFound(g, rounds[j], era);
      if r.Err? {
        return false, s', eras, era;
      }
      EraChainGrows(eras, a, s, era);
      s', eras := era.inos', eras + [era];
    }
    Outlived(g, rounds, eras, a, s, core.disk, s');
    ok := true;
  }

  lemma NoEras(a: Img, s: set<nat>)
    ensures EraChain([], a, s, a, s)
  {
  }

  lemma EraFound(g: Geo, round: Round, era: Era)
    requires CutOff(g, round, era)
    ensures era.found != []
  {
    hide Layout, LogEnds, AllServed, Untouched;
  }

  lemma EraChainGrows(eras: seq<Era>, a: Img, s: set<nat>, era: Era)
    requires era.found != [] && EraChain(eras, a, s, era.Before(), era.inos)
    ensures EraChain(eras + [era], a, s, era.after, era.inos')
  {
    assert (eras + [era])[..|eras|] == eras;
  }

  // The one operation that is not crash-safe

  /** A crash between truncation's two steps is not mended by mounting: whether or not the mount succeeds, the
      file's blocks are free and its record still names them, so no set of inodes with the file is consistent. */
  method MountInWindow(core: Ext2Core, ghost a: Img, ghost s: set<nat>, ghost i: nat) returns (r: Result<(nat, nat)>)
    requires core.Ready() && DiskInv(core.geo, a, s) && i in s && Layout(core.geo, a) && core.geo.sb.HasInode(i)
    requires Freed(core.geo, a, core.disk, i) && TreeBlocks(core.geo, a, DiskNode(core.geo, a, i).slots) != {}
    modifies core
    ensures core.Ready() && forall t: set<nat> :: i in t ==> !DiskInv(core.geo, core.disk, t)
  {
    hide Geo.Valid, DescMatches, DiskInv, Freed, TreeBlocks, DiskNode, CountersOk, OnlyCounts, Reclaimed, SurveyFails,
         SafeDuring, Recovered, Deep, OneName, TablesOf;
    ghost var g, h := core.geo, core.disk;
    ghost var mid;
    r, mid := MountAndRepair(core, s);
    CountsKeepWindow(g, h, mid);
    if r.Ok? { ReclaimKeepsWindow(g, h, mid, core.disk); }
    forall t: set<nat> | i in t ensures !DiskInv(g, core.disk, t) {
      WindowStaysOpen(g, a, h, core.disk, s, i, t);
    }
  }

  /** Truncation itself, cut off before its last block write and mounted: a file that had blocks is lost for good. */
  method CutTruncation(core: Ext2Core, ino: nat, raw: RawInode, ghost s: set<nat>) returns (r: Result<(nat, nat)>)
    requires Sound(core, s) && ino in s && core.sb.HasInode(ino) && raw == Rec(core.geo, core.disk, ino) && !raw.IsDir()
    requires TreeBlocks(core.geo, core.disk, DiskNode(core.geo, core.disk, ino).slots) != {}
    modifies core
    ensures core.Ready() && forall t: set<nat> :: ino in t ==> !DiskInv(core.geo, core.disk, t)
  {
    hide Geo.Valid, DescMatches, DiskInv, TreeBlocks, DiskNode, CountersOk, OneName, TablesOf, Same, NodeOf, Rec,
         RawInode.Mode, RawInode.Size, NoSlots, Marked, Changed;
    ghost var a := core.disk;
    SetLayout(core.geo, a, s);
    var done, raw';
    ghost var mid;
    done, raw', mid := TruncateToZero(core, ino, raw, s);
    assert Layout(core.geo, mid) by { hide *; FreedLayout(core.geo, a, mid, ino); }
    core.disk, core.history := core.history[|core.history| - 2], core.history[..|core.history| - 1];
    r := MountInWindow(core, a, s, ino);
  }

  lemma FreedLayout(g: Geo, a: Img, h: Img, i: nat)
    requires Layout(g, a) && g.sb.HasInode(i) && Freed(g, a, h, i)
    ensures Layout(g, h)
  {
    hide Geo.Valid, DescMatches, DiskNode, TreeBlocks, Marked, InodeMarked;
  }

  /** Same records and data, and no bit set that was not. */
  ghost predicate NothingTaken(g: Geo, h: Img, d: Img) {
    SameContent(g, h, d) && Layout(g, h) && Layout(g, d) && forall b: nat :: Marked(g, d, b) ==> Marked(g, h, b)
  }

  lemma CountsKeepWindow(g: Geo, h: Img, mid: Img)
    requires OnlyCounts(g, h, mid)
    ensures NothingTaken(g, h, mid)
  {
    hide Geo.Valid, DescMatches, Marked, InodeMarked, OnlyCounts;
    OnlyCountsEffect(g, h, mid);
  }

  lemma ReclaimKeepsWindow(g: Geo, h: Img, mid: Img, d: Img)
    requires NothingTaken(g, h, mid) && Reclaimed(g, mid, d)
    ensures NothingTaken(g, h, d)
  {
    hide Geo.Valid, DescMatches, InUse, Reserved, Live;
    SameContentLayout(g, mid, d);
  }

  lemma WindowStaysOpen(g: Geo, a: Img, h: Img, d: Img, s: set<nat>, i: nat, t: set<nat>)
    requires DiskInv(g, a, s) && i in s && i in t && Layout(g, a) && g.sb.HasInode(i)
    requires Freed(g, a, h, i) && TreeBlocks(g, a, DiskNode(g, a, i).slots) != {} && NothingTaken(g, h, d)
    ensures !DiskInv(g, d, t)
  {
    hide Geo.Valid, DescMatches, NodeOf, Rec, At, InodeMarked, DiskInv, BlockUsed, Reserved, InUse, Live, SameContent;
    var node := DiskNode(g, a, i);
    var b :| b in TreeBlocks(g, a, node.slots);
    var q :| ValidPath(Ptrs(g), q) && At(a, node.slots, q) == b;
    UnchangedTree(g, a, h, s, i, TreeBlocks(g, a, node.slots), q);
    TreeUnmoved(g, a, h, d, s, i, q);
    if DiskInv(g, d, t) { TreeMarked(g, d, t, i, q); }
  }

  lemma TreeUnmoved(g: Geo, a: Img, mid: Img, d: Img, s: set<nat>, i: nat, q: Path)
    requires DiskInv(g, a, s) && i in s && Layout(g, a) && Layout(g, mid) && Layout(g, d) && g.sb.HasInode(i)
             && ValidPath(Ptrs(g), q)
    requires Changed(g, a, mid, {}, TreeBlocks(g, a, DiskNode(g, a, i).slots), {}, {}) && SameContent(g, mid, d)
    ensures DiskNode(g, d, i) == DiskNode(g, a, i)
            && At(d, DiskNode(g, a, i).slots, q) == At(a, DiskNode(g, a, i).slots, q)
  {
    hide Geo.Valid, DescMatches, NodeOf, Rec, At, InodeMarked, MetaMarked, InodesMarked, Apart, DirsClosed, Marked,
         TreeBlocks;
    var node := DiskNode(g, a, i);
    assert DiskNodes(g, a, s)[i] == node;
    assert SamePointers(Ptrs(g), a, d, node.slots);
    AtUnchanged(Ptrs(g), a, d, node.slots, q);
  }
}
