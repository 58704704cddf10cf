/** Directory listings across the system call: entries packed as linux_dirent64 records into the
    caller's buffers, and parsed back out of them. */
module Getdents {
  import opened Bytes
  import Inode

  type u64 = x: int | 0 <= x < 0x1_0000_0000_0000_0000

  datatype FileType = Regular | Directory | CharDevice | BlockDevice | Symlink {
    function DtType(): byte {
      match this
      case Regular => 8
      case Directory => 4
      case CharDevice => 2
      case BlockDevice => 6
      case Symlink => 10
    }
  }

  /** The type byte a listing gives is the type an inode's mode has in its top four bits. */
  lemma TypesAgree(raw: Inode.RawInode)
    requires raw.Valid()
    ensures raw.IsReg() <==> raw.Mode() / 0x1000 == Regular.DtType() as nat
    ensures raw.IsDir() <==> raw.Mode() / 0x1000 == Directory.DtType() as nat
    ensures raw.IsSymlink() <==> raw.Mode() / 0x1000 == Symlink.DtType() as nat
  {
  }

  /** A name is the first nameLen bytes of a 256-byte array. */
  datatype DirEntry = DirEntry(ino: u64, kind: FileType, name: seq<byte>, nameLen: nat) {
    predicate Ok() { |name| == 256 && nameLen <= 255 }

    function Name(): seq<byte>
      requires Ok()
    {
      name[..nameLen]
    }

    /** Header, name and terminator, rounded up to 8. */
    function Size(): nat { (19 + nameLen + 1 + 7) / 8 * 8 }
  }

  /** Names are kept exactly up to 255 bytes, and cut there. */
  function NewEntry(ino: u64, kind: FileType, name: seq<byte>): (e: DirEntry)
    ensures e.Ok() && e.ino == ino && e.kind == kind && e.Name() <= name
    ensures (e.Name() == name <==> |name| <= 255) && (|name| > 255 ==> |e.Name()| == 255)
  {
    var len := if |name| < 255 then |name| else 255;
    DirEntry(ino, kind, Patch(Zeros(256), 0, name[..len]), len)
  }

  /** The bytes of an entry's record. */
  function Record(e: DirEntry, nextOff: nat): (r: seq<byte>)
    requires e.Ok()
    ensures |r| == e.Size()
  {
    Le(e.ino, 8) + Le(nextOff, 8) + Le(e.Size(), 2) + [e.kind.DtType()] + e.Name() + Zeros(e.Size() - 19 - e.nameLen)
  }

  ghost predicate AllOk(entries: seq<DirEntry>) {
    forall k :: 0 <= k < |entries| ==> entries[k].Ok()
  }

  /** The records of consecutive entries, the first one numbered off. */
  ghost function Packed(entries: seq<DirEntry>, off: nat): seq<byte>
    requires AllOk(entries)
  {
    if entries == [] then [] else Record(entries[0], off + 1) + Packed(entries[1..], off + 1)
  }

  lemma {:induction false} PackedMore(entries: seq<DirEntry>, off: nat, e: DirEntry)
    requires AllOk(entries) && e.Ok()
    ensures Packed(entries + [e], off) == Packed(entries, off) + Record(e, off + |entries| + 1)
  {
    hide Record;
    if entries == [] {
      assert Packed([e], off) == Record(e, off + 1) + Packed([], off + 1);
    } else {
      PackedMore(entries[1..], off + 1, e);
      assert (entries + [e])[1..] == entries[1..] + [e];
    }
  }

  // Writing records in place

  lemma PatchPatch(buf: seq<byte>, at: nat, a: seq<byte>, b: seq<byte>)
    requires at + |a| + |b| <= |buf|
    ensures Patch(Patch(buf, at, a), at + |a|, b) == Patch(buf, at, a + b)
  {
  }

  /** `copy_from_slice` into part of the buffer. */
  method CopyInto(buf: array<byte>, at: nat, bytes: seq<byte>)
    requires at + |bytes| <= buf.Length
    modifies buf
    ensures buf[..] == Patch(old(buf[..]), at, bytes)
  {
    for i := 0 to |bytes|
      invariant forall k :: 0 <= k < buf.Length ==> buf[k] == if at <= k < at + i then bytes[k - at] else old(buf[k])
    {
      buf[at + i] := bytes[i];
    }
  }

  method WriteDirent(e: DirEntry, nextOff: nat, buf: array<byte>, at: nat)
    requires e.Ok() && at + e.Size() <= buf.Length
    modifies buf
    ensures buf[..] == Patch(old(buf[..]), at, Record(e, nextOff))
  {
    hide Patch, Le, Zeros;
    ghost var was := buf[..];
    var name, n := e.name[..e.nameLen], e.nameLen;
    CopyInto(buf, at, Le(e.ino, 8));
    CopyInto(buf, at + 8, Le(nextOff, 8));
    PatchPatch(was, at, Le(e.ino, 8), Le(nextOff, 8));
    CopyInto(buf, at + 16, Le(e.Size(), 2));
    PatchPatch(was, at, Le(e.ino, 8) + Le(nextOff, 8), Le(e.Size(), 2));
    ghost var head := Le(e.ino, 8) + Le(nextOff, 8) + Le(e.Size(), 2);
    CopyInto(buf, at + 18, [e.kind.DtType()]);
    PatchPatch(was, at, head, [e.kind.DtType()]);
    CopyInto(buf, at + 19, name);
    PatchPatch(was, at, head + [e.kind.DtType()], name);
    CopyInto(buf, at + 19 + n, [0]);
    PatchPatch(was, at, head + [e.kind.DtType()] + name, [0]);
    CopyInto(buf, at + 20 + n, Zeros(e.Size() - 20 - n));
    PatchPatch(was, at, head + [e.kind.DtType()] + name + [0], Zeros(e.Size() - 20 - n));
    ZeroTail(head + [e.kind.DtType()] + name, e.Size() - 19 - n);
  }

  lemma ZeroTail(s: seq<byte>, n: nat)
    requires n > 0
    ensures s + [0] + Zeros(n - 1) == s + Zeros(n)
  {
    assert [0] + Zeros(n - 1) == Zeros(n);
    assert s + [0] + Zeros(n - 1) == s + ([0] + Zeros(n - 1));
  }

  // The packing loop

  /** Entries a up to b, none when that is no range. */
  ghost function Slice(entries: seq<DirEntry>, a: nat, b: nat): (r: seq<DirEntry>)
    ensures AllOk(entries) ==> AllOk(r)
  {
    if a <= b <= |entries| then entries[a..b] else []
  }

  /** The buffer after entries a up to b went into it. */
  ghost function Filled(entries: seq<DirEntry>, a: nat, b: nat, was: seq<byte>): seq<byte>
    requires AllOk(entries)
  {
    var done := Packed(Slice(entries, a, b), a);
    if |done| <= |was| then done + was[|done|..] else done
  }

  /** Pack entries from `offset` on until one does not fit.  The buffer then starts with exactly the records
      of the entries passed, the rest of it untouched. */
  method FromSnapshot(entries: seq<DirEntry>, offset: nat, buf: array<byte>) returns (written: nat, offset': nat)
    requires AllOk(entries)
    modifies buf
    ensures offset <= offset' && (offset' <= |entries| || offset' == offset) && written <= buf.Length
    ensures written == |Packed(Slice(entries, offset, offset'), offset)|
    ensures buf[..] == Filled(entries, offset, offset', old(buf[..]))
    ensures offset' < |entries| ==> written + entries[offset'].Size() > buf.Length
    ensures written == 0 <==> offset >= |entries| || entries[offset].Size() > buf.Length
  {
    hide Record, Packed, Patch, Filled, Slice;
    ghost var was := buf[..];
    written, offset' := 0, offset;
    NonePacked(entries, offset, was);
    while offset' < |entries|
      invariant offset <= offset' && (offset' <= |entries| || offset' == offset) && written <= buf.Length
      invariant offset < offset' ==> entries[offset].Size() <= buf.Length
      invariant written == |Packed(Slice(entries, offset, offset'), offset)|
                && buf[..] == Filled(entries, offset, offset', was)
    {
      var e := entries[offset'];
      if written + e.Size() > buf.Length {
        break;
      }
      WriteDirent(e, offset' + 1, buf, written);
      PackStep(entries, offset, offset', was);
      written := written + e.Size();
      offset' := offset' + 1;
    }
    SliceEmpty(entries, offset, offset');
    NothingWritten(Slice(entries, offset, offset'), offset);
  }

  lemma SliceEmpty(entries: seq<DirEntry>, a: nat, b: nat)
    requires a <= b
    ensures Slice(entries, a, b) == [] <==> b == a || b > |entries|
  {
  }

  /** Zero bytes, twice: a record one byte too long for the buffer, and the end of the listing.  Nothing in
      the answer tells them apart. */
  method SameAnswer(ino: u64, kind: FileType, name: seq<byte>) returns (stuck: nat, ended: nat)
    requires |name| <= 255
    ensures stuck == ended == 0
  {
    var e := NewEntry(ino, kind, name);
    var buf := new byte[e.Size() - 1];
    var offset;
    stuck, offset := FromSnapshot([e], 0, buf);
    ended, offset := FromSnapshot([e], 1, buf);
  }

  /** With room for any record, zero bytes means the end and nothing else. */
  method Ended(entries: seq<DirEntry>, offset: nat, buf: array<byte>) returns (written: nat, offset': nat)
    requires AllOk(entries) && buf.Length >= 280
    modifies buf
    ensures written == 0 <==> offset >= |entries|
  {
    if offset < |entries| { AnyRecordFits(entries[offset]); }
    written, offset' := FromSnapshot(entries, offset, buf);
  }

  lemma NonePacked(entries: seq<DirEntry>, off: nat, was: seq<byte>)
    requires AllOk(entries)
    ensures |Packed(Slice(entries, off, off), off)| == 0 && Filled(entries, off, off, was) == was
  {
    assert Slice(entries, off, off) == [];
  }

  lemma PackStep(entries: seq<DirEntry>, a: nat, b: nat, was: seq<byte>)
    requires AllOk(entries) && a <= b < |entries|
    ensures |Packed(Slice(entries, a, b + 1), a)| == |Packed(Slice(entries, a, b), a)| + entries[b].Size()
    ensures |Packed(Slice(entries, a, b), a)| + entries[b].Size() <= |was| ==>
              && |Filled(entries, a, b, was)| == |was|
              && Patch(Filled(entries, a, b, was), |Packed(Slice(entries, a, b), a)|, Record(entries[b], b + 1))
                 == Filled(entries, a, b + 1, was)
  {
    hide Record, Packed;
    var done, rec := Packed(Slice(entries, a, b), a), Record(entries[b], b + 1);
    assert Slice(entries, a, b + 1) == Slice(entries, a, b) + [entries[b]];
    hide Slice, Patch, DirEntry.Size;
    PackedMore(Slice(entries, a, b), a, entries[b]);
    if |done| + |rec| <= |was| {
      PatchJoin(done, was[|done|..], rec);
      assert was[|done|..][|rec|..] == was[|done| + |rec|..];
    }
  }

  lemma PatchJoin(done: seq<byte>, rest: seq<byte>, bytes: seq<byte>)
    requires |bytes| <= |rest|
    ensures Patch(done + rest, |done|, bytes) == done + bytes + rest[|bytes|..]
  {
  }

  // Parsing

  /** One parsed record. */
  datatype View = View(ino: nat, dType: byte, name: seq<byte>, recordLen: nat)

  function UpToNul(s: seq<byte>): (r: seq<byte>)
    ensures r <= s && 0 !in r && (r == s <==> 0 !in s)
  {
    if s == [] || s[0] == 0 then [] else [s[0]] + UpToNul(s[1..])
  }

  function ParseDirent(buf: seq<byte>): (r: Option<View>)
    ensures r.Some? ==> 19 <= r.value.recordLen <= |buf|
  {
    if |buf| < 19 then None
    else
      var len := Field(buf, 16, 2);
      if len < 19 || len > |buf| then None
      else Some(View(Field(buf, 0, 8), buf[18], UpToNul(buf[19..len]), len))
  }

  /** What a reader should see of an entry: its name up to the first NUL. */
  function Seen(e: DirEntry): View
    requires e.Ok()
  {
    View(e.ino, e.kind.DtType(), UpToNul(e.Name()), e.Size())
  }

  lemma {:induction false} NulPadded(s: seq<byte>, n: nat)
    ensures UpToNul(s + Zeros(n)) == UpToNul(s)
  {
    if s == [] {
      assert s + Zeros(n) == Zeros(n);
    } else {
      NulPadded(s[1..], n);
      assert (s + Zeros(n))[1..] == s[1..] + Zeros(n);
    }
  }

  /** Parsing a record gives the entry back, its name cut at the first NUL. */
  lemma ParseRecord(e: DirEntry, nextOff: nat, rest: seq<byte>)
    requires e.Ok()
    ensures ParseDirent(Record(e, nextOff) + rest) == Some(Seen(e))
  {
    hide Le, Un, Zeros, UpToNul;
    var buf := Record(e, nextOff) + rest;
    RecordParts(e, nextOff, rest);
    TwoPowers();
    UnLe(e.ino, 8);
    UnLe(e.Size(), 2);
    NulPadded(e.Name(), e.Size() - 19 - e.nameLen);
  }

  lemma TwoPowers()
    ensures Pow256(2) == 0x1_0000 && Pow256(8) == 0x1_0000_0000_0000_0000
  {
    assert Pow256(2) == 0x1_0000;
    assert Pow256(4) == 0x1_0000_0000;
    assert Pow256(6) == 0x1_0000 * Pow256(4);
  }

  lemma RecordParts(e: DirEntry, nextOff: nat, rest: seq<byte>)
    requires e.Ok()
    ensures var buf := Record(e, nextOff) + rest;
            && |buf| >= e.Size() >= 20 && buf[0..8] == Le(e.ino, 8) && buf[16..18] == Le(e.Size(), 2)
            && buf[18] == e.kind.DtType() && buf[19..e.Size()] == e.Name() + Zeros(e.Size() - 19 - e.nameLen)
  {
    hide Le, Zeros;
  }

  /** Bytes 8 to 15 of a record give the position of the entry after it: a call from there goes on with the
      next entry. */
  lemma {:induction false} NextPosition(entries: seq<DirEntry>, off: nat, k: nat)
    requires AllOk(entries) && k < |entries| && off + k + 1 < 0x1_0000_0000_0000_0000
    ensures var at := |Packed(entries[..k], off)|;
            && at + entries[k].Size() <= |Packed(entries, off)|
            && Field(Packed(entries, off), at + 8, 8) == off + k + 1
  {
    hide Record, Un, Le;
    var first, rest := Record(entries[0], off + 1), Packed(entries[1..], off + 1);
    if k == 0 {
      assert entries[..0] == [];
      OffsetBytes(entries[0], off + 1, rest);
    } else {
      NextPosition(entries[1..], off + 1, k - 1);
      assert entries[..k][1..] == entries[1..][..k - 1];
      var at := |Packed(entries[1..][..k - 1], off + 1)|;
      assert (first + rest)[|first| + at + 8..|first| + at + 16] == rest[at + 8..at + 16];
    }
  }

  lemma OffsetBytes(e: DirEntry, nextOff: nat, rest: seq<byte>)
    requires e.Ok() && nextOff < 0x1_0000_0000_0000_0000
    ensures |Record(e, nextOff) + rest| >= 20 && Field(Record(e, nextOff) + rest, 8, 8) == nextOff
  {
    hide Le, Un, Zeros;
    TwoPowers();
    UnLe(nextOff, 8);
    assert (Record(e, nextOff) + rest)[8..16] == Le(nextOff, 8);
  }

  /** Every record of a filled buffer, in order. */
  function Views(buf: seq<byte>): seq<View> {
    match ParseDirent(buf)
    case None => []
    case Some(v) => [v] + Views(buf[v.recordLen..])
  }

  /** The reader's loop over a filled buffer. */
  method ReadViews(buf: seq<byte>) returns (views: seq<View>)
    ensures views == Views(buf)
  {
    hide ParseDirent;
    views := [];
    var off := 0;
    while off < |buf|
      invariant off <= |buf| && views + Views(buf[off..]) == Views(buf)
    {
      var r := ParseDirent(buf[off..]);
      if r.None? {
        break;
      }
      views := views + [r.value];
      assert buf[off..][r.value.recordLen..] == buf[off + r.value.recordLen..];
      off := off + r.value.recordLen;
    }
    ShortHasNone(buf[off..]);
  }

  lemma ShortHasNone(buf: seq<byte>)
    ensures buf == [] ==> Views(buf) == []
  {
  }

  ghost function SeenAll(entries: seq<DirEntry>): seq<View>
    requires AllOk(entries)
  {
    seq(|entries|, k requires 0 <= k < |entries| => Seen(entries[k]))
  }

  /** Splitting packed records gives the entries, none lost, none twice, in order. */
  lemma {:induction false} ViewsPacked(entries: seq<DirEntry>, off: nat)
    requires AllOk(entries)
    ensures Views(Packed(entries, off)) == SeenAll(entries)
  {
    hide Record, ParseDirent, Seen;
    if entries == [] {
      NoViews();
    } else {
      var rest := Packed(entries[1..], off + 1);
      ParseRecord(entries[0], off + 1, rest);
      SeenSize(entries[0]);
      assert (Record(entries[0], off + 1) + rest)[entries[0].Size()..] == rest;
      ViewsPacked(entries[1..], off + 1);
    }
  }

  lemma NoViews()
    ensures Views([]) == []
  {
  }

  lemma SeenSize(e: DirEntry)
    requires e.Ok()
    ensures Seen(e).recordLen == e.Size()
  {
  }

  /** A reader gets an entry's own name exactly when the name holds no NUL. */
  lemma SeenName(e: DirEntry)
    requires e.Ok()
    ensures Seen(e).name == e.Name() <==> 0 !in e.Name()
  {
  }

  // Whole listings

  ghost predicate Fits(entries: seq<DirEntry>, size: nat) {
    forall k :: 0 <= k < |entries| ==> entries[k].Size() <= size
  }

  /** Repeated calls with any buffers, each parsed as it comes back: the reader sees the snapshot's entries
      in order, and no call with room for the next record stalls before the end. */
  method ReadAll(entries: seq<DirEntry>, bufs: seq<array<byte>>) returns (views: seq<View>, offset: nat)
    requires AllOk(entries)
    modifies set k | 0 <= k < |bufs| :: bufs[k]
    ensures offset <= |entries| && views == SeenAll(entries[..offset])
    ensures (forall k :: 0 <= k < |bufs| ==> Fits(entries, bufs[k].Length)) ==> offset == |entries| || offset >= |bufs|
  {
    hide Record, Packed, Seen, Views, Filled, Slice;
    views, offset := [], 0;
    for i := 0 to |bufs|
      invariant offset <= |entries| && views == SeenAll(entries[..offset])
      invariant (forall k :: 0 <= k < |bufs| ==> Fits(entries, bufs[k].Length)) ==> offset == |entries| || offset >= i
    {
      ghost var was := bufs[i][..];
      var written, offset' := FromSnapshot(entries, offset, bufs[i]);
      OneCall(entries, offset, offset', was, views);
      var more := ReadViews(bufs[i][..written]);
      views := views + more;
      offset := offset';
    }
  }

  lemma OneCall(entries: seq<DirEntry>, a: nat, b: nat, was: seq<byte>, views: seq<View>)
    requires AllOk(entries) && a <= b <= |entries| && views == SeenAll(entries[..a])
    ensures var n := |Packed(Slice(entries, a, b), a)|;
            && (n <= |was| ==>
                 |Filled(entries, a, b, was)| == |was|
                 && views + Views(Filled(entries, a, b, was)[..n]) == SeenAll(entries[..b]))
            && (n == 0 <==> a == b)
  {
    hide Record, Packed, Seen, Views;
    var done := Packed(Slice(entries, a, b), a);
    NothingWritten(Slice(entries, a, b), a);
    ViewsPacked(Slice(entries, a, b), a);
    assert entries[..b] == entries[..a] + Slice(entries, a, b);
    if |done| <= |was| { assert Filled(entries, a, b, was)[..|done|] == done; }
  }

  lemma NothingWritten(entries: seq<DirEntry>, off: nat)
    requires AllOk(entries)
    ensures |Packed(entries, off)| == 0 <==> entries == []
  {
    hide Record;
  }

  /** 280 bytes hold any record. */
  lemma AnyRecordFits(e: DirEntry)
    requires e.Ok()
    ensures e.Size() <= 280
  {
  }
}
