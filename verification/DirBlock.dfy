/** Directory blocks: variable-length records that tile the block.  A stretch [lo, hi) of a block is
    tiled when whole records fill it exactly; stretches compose, and a stretch means the same
    wherever its bytes are the same. */
module DirBlock {
  import opened Bytes

  datatype DirEntry = DirEntry(ino: nat, fileType: byte, name: seq<byte>)

  /** One raw record: deleted ones have inode 0. */
  datatype Record = Record(len: nat, entry: DirEntry)

  const DOT: seq<byte> := [46]
  const DOT_DOT: seq<byte> := [46, 46]

  /** Record length for a name, rounded up to 4-byte alignment. */
  function DirentLen(nameLen: nat): (r: nat)
    ensures r % 4 == 0 && 8 + nameLen <= r < 8 + nameLen + 4
  {
    (8 + nameLen + 3) / 4 * 4
  }

  function RecIno(buf: seq<byte>, off: nat): nat
    requires off + 8 <= |buf|
  {
    Field(buf, off, 4)
  }

  function RecLen(buf: seq<byte>, off: nat): nat
    requires off + 8 <= |buf|
  {
    Field(buf, off + 4, 2)
  }

  /** The serialized record header and name; the name length is one byte wide. */
  function DirentBytes(ino: nat, len: nat, name: seq<byte>, fileType: byte): (r: seq<byte>)
    ensures |r| == 8 + |name|
  {
    Le(ino, 4) + Le(len, 2) + [|name| % 256, fileType] + name
  }

  /** A live record is at least as long as its name needs. */
  predicate RecordFits(buf: seq<byte>, off: nat)
    requires off + 8 <= |buf|
  {
    RecIno(buf, off) != 0 ==> DirentLen(buf[off + 6]) <= RecLen(buf, off)
  }

  /** Whole, well-formed records fill [lo, hi) exactly. */
  predicate Tiled(buf: seq<byte>, lo: nat, hi: nat)
    requires lo <= hi <= |buf|
    decreases hi - lo
  {
    lo == hi ||
    (&& lo + 8 <= hi
     && RecLen(buf, lo) >= 8
     && lo + RecLen(buf, lo) <= hi
     && RecordFits(buf, lo)
     && Tiled(buf, lo + RecLen(buf, lo), hi))
  }

  function RecordAt(buf: seq<byte>, off: nat): Record
    requires off + 8 <= |buf|
  {
    var n := buf[off + 6];
    Record(RecLen(buf, off),
           DirEntry(RecIno(buf, off), buf[off + 7],
                    if off + 8 + n <= |buf| then buf[off + 8..off + 8 + n] else []))
  }

  function Records(buf: seq<byte>, lo: nat, hi: nat): seq<Record>
    requires lo <= hi <= |buf| && Tiled(buf, lo, hi)
    decreases hi - lo
  {
    if lo == hi then [] else [RecordAt(buf, lo)] + Records(buf, lo + RecLen(buf, lo), hi)
  }

  /** What a listing shows: live, named, and neither "." nor "..". */
  predicate Shown(e: DirEntry) {
    e.ino != 0 && e.name != [] && e.name != DOT && e.name != DOT_DOT
  }

  function ShownOf(r: Record): seq<DirEntry> {
    if Shown(r.entry) then [r.entry] else []
  }

  function Listing(rs: seq<Record>): (es: seq<DirEntry>)
    ensures forall e :: e in es ==> Shown(e)
  {
    if rs == [] then [] else ShownOf(rs[0]) + Listing(rs[1..])
  }

  lemma {:induction false} ListingConcat(a: seq<Record>, b: seq<Record>)
    ensures Listing(a + b) == Listing(a) + Listing(b)
  {
    hide ShownOf;
    if a == [] {
      assert a + b == b;
    } else {
      ListingConcat(a[1..], b);
      assert (a + b)[1..] == a[1..] + b && (a + b)[0] == a[0];
      assert ShownOf(a[0]) + (Listing(a[1..]) + Listing(b)) == ShownOf(a[0]) + Listing(a[1..]) + Listing(b);
    }
  }

  /** The scan of `read_dir_entries`, total on any bytes: it stops at a corrupt length. */
  function Scan(buf: seq<byte>, off: nat): (es: seq<DirEntry>)
    ensures forall e :: e in es ==> Shown(e)
    decreases |buf| - off
  {
    if off + 8 > |buf| || RecLen(buf, off) < 8 then []
    else
      var rest := Scan(buf, off + RecLen(buf, off));
      if off + 8 + buf[off + 6] <= |buf| then ShownOf(RecordAt(buf, off)) + rest else rest
  }

  /** On a tiled block the scan lists exactly the tiling's records. */
  lemma {:induction false} ScanIsListing(buf: seq<byte>, off: nat)
    requires off <= |buf| && Tiled(buf, off, |buf|)
    ensures Scan(buf, off) == Listing(Records(buf, off, |buf|))
    decreases |buf| - off
  {
    if off < |buf| {
      ScanIsListing(buf, off + RecLen(buf, off));
      var rs := Records(buf, off, |buf|);
      assert rs[1..] == Records(buf, off + RecLen(buf, off), |buf|);
      assert off + 8 + buf[off + 6] > |buf| ==> !Shown(RecordAt(buf, off).entry);
    }
  }

  /** The chain of records from `off` on, followed by their lengths, comes to `at`. */
  ghost predicate OnChain(buf: seq<byte>, off: nat, at: nat)
    decreases |buf| - off
  {
    && off + 8 <= |buf| && RecLen(buf, off) >= 8
    && (at == off || OnChain(buf, off + RecLen(buf, off), at))
  }

  /** The bytes at `at` are a record that a listing must give: in use, whole inside the block, with a name of at
      least one byte which is neither a lone dot nor two dots. */
  ghost predicate LiveAt(buf: seq<byte>, at: nat) {
    && at + 8 <= |buf| && at + 8 + buf[at + 6] <= |buf| && Field(buf, at, 4) != 0 && buf[at + 6] > 0
    && !(buf[at + 6] == 1 && buf[at + 8] == 46)
    && !(buf[at + 6] == 2 && buf[at + 8] == 46 && buf[at + 9] == 46)
  }

  /** Inode, type and name of e are the bytes at `at`. */
  ghost predicate ReadsAt(buf: seq<byte>, at: nat, e: DirEntry) {
    && at + 8 <= |buf| && at + 8 + buf[at + 6] <= |buf| && e.ino == Field(buf, at, 4) && e.fileType == buf[at + 7]
    && e.name == buf[at + 8..at + 8 + buf[at + 6]]
  }

  /** Entry k of es is the record at ps[k], from left to right, and ps are all the places to list. */
  ghost predicate Gives(buf: seq<byte>, off: nat, es: seq<DirEntry>, ps: seq<nat>) {
    && |ps| == |es| && (forall k :: 0 <= k < |ps| ==> ps[k] >= off && ReadsAt(buf, ps[k], es[k]))
    && (forall j, k :: 0 <= j < k < |ps| ==> ps[j] < ps[k])
    && forall at: nat :: at in ps <==> OnChain(buf, off, at) && LiveAt(buf, at)
  }

  lemma LiveIsShown(buf: seq<byte>, at: nat)
    requires at + 8 <= |buf| && at + 8 + buf[at + 6] <= |buf|
    ensures LiveAt(buf, at) <==> Shown(RecordAt(buf, at).entry)
    ensures ReadsAt(buf, at, RecordAt(buf, at).entry)
  {
    hide Field;
    var n, name := buf[at + 6], RecordAt(buf, at).entry.name;
    assert |name| == n;
    if n == 1 { assert name == [buf[at + 8]]; }
    if n == 2 { assert name == [buf[at + 8], buf[at + 9]]; }
  }

  /** The scan gives every live record on the chain once, in order, and nothing else, whatever the bytes are. */
  lemma {:induction false} ScanGivesAll(buf: seq<byte>, off: nat) returns (ps: seq<nat>)
    ensures Gives(buf, off, Scan(buf, off), ps)
    decreases |buf| - off
  {
    hide Field, RecordAt, Shown, LiveAt, ReadsAt, RecLen, Gives;
    ps := [];
    if off + 8 <= |buf| && RecLen(buf, off) >= 8 {
      var next := off + RecLen(buf, off);
      ps := ScanGivesAll(buf, next);
      if off + 8 + buf[off + 6] <= |buf| { LiveIsShown(buf, off); } else { NotLive(buf, off); }
      OneGiven(buf, off, Scan(buf, next), ps, RecordAt(buf, off).entry);
      assert [] + Scan(buf, next) == Scan(buf, next);
      if LiveAt(buf, off) { ps := [off] + ps; }
    } else {
      NoneGiven(buf, off);
    }
  }

  lemma NoneGiven(buf: seq<byte>, off: nat)
    requires off + 8 > |buf| || RecLen(buf, off) < 8
    ensures Gives(buf, off, [], [])
  {
    hide LiveAt, RecLen;
  }

  /** The record at off, in front of what the rest of the chain gives. */
  lemma OneGiven(buf: seq<byte>, off: nat, es: seq<DirEntry>, ps: seq<nat>, e: DirEntry)
    requires off + 8 <= |buf| && RecLen(buf, off) >= 8 && Gives(buf, off + RecLen(buf, off), es, ps)
    requires LiveAt(buf, off) ==> ReadsAt(buf, off, e)
    ensures if LiveAt(buf, off) then Gives(buf, off, [e] + es, [off] + ps) else Gives(buf, off, es, ps)
  {
    hide LiveAt, ReadsAt, RecLen;
  }

  lemma NotLive(buf: seq<byte>, at: nat)
    requires at + 8 <= |buf| && at + 8 + buf[at + 6] > |buf|
    ensures !LiveAt(buf, at)
  {
  }

  // Composition and locality of stretches

  lemma {:induction false} TiledConcat(buf: seq<byte>, lo: nat, mid: nat, hi: nat)
    requires lo <= mid <= hi <= |buf|
    requires Tiled(buf, lo, mid) && Tiled(buf, mid, hi)
    ensures Tiled(buf, lo, hi)
    ensures Records(buf, lo, hi) == Records(buf, lo, mid) + Records(buf, mid, hi)
    decreases mid - lo
  {
    hide RecordAt, RecLen, RecordFits;
    if lo < mid {
      var next := lo + RecLen(buf, lo);
      TiledConcat(buf, next, mid, hi);
      assert Records(buf, lo, hi) == [RecordAt(buf, lo)] + Records(buf, next, hi);
    }
  }

  ghost predicate Agree(a: seq<byte>, b: seq<byte>, lo: nat, hi: nat) {
    |a| == |b| && hi <= |a| && forall k :: lo <= k < hi ==> a[k] == b[k]
  }

  lemma SameRecord(a: seq<byte>, b: seq<byte>, off: nat, hi: nat)
    requires off + 8 <= hi && Agree(a, b, off, hi)
    ensures RecLen(b, off) == RecLen(a, off) && RecIno(b, off) == RecIno(a, off) && b[off + 6] == a[off + 6]
    ensures RecordFits(b, off) == RecordFits(a, off)
    ensures RecordFits(a, off) && off + RecLen(a, off) <= hi ==> ShownOf(RecordAt(b, off)) == ShownOf(RecordAt(a, off))
  {
    assert b[off..off + 4] == a[off..off + 4];
    assert b[off + 4..off + 6] == a[off + 4..off + 6];
    var n := a[off + 6];
    if off + 8 + n <= hi { assert b[off + 8..off + 8 + n] == a[off + 8..off + 8 + n]; }
  }

  /** A stretch is tiled and lists the same wherever its bytes are the same. */
  lemma {:induction false} TiledLocal(a: seq<byte>, b: seq<byte>, lo: nat, hi: nat)
    requires lo <= hi && Agree(a, b, lo, hi) && Tiled(a, lo, hi)
    ensures Tiled(b, lo, hi)
    ensures Listing(Records(b, lo, hi)) == Listing(Records(a, lo, hi))
    decreases hi - lo
  {
    hide RecordAt, RecLen, RecordFits, ShownOf;
    if lo < hi {
      SameRecord(a, b, lo, hi);
      var next := lo + RecLen(a, lo);
      TiledLocal(a, b, next, hi);
      assert Records(a, lo, hi)[1..] == Records(a, next, hi);
      assert Records(b, lo, hi)[1..] == Records(b, next, hi);
    }
  }

  /** A stretch filled by one record. */
  lemma OneRecord(buf: seq<byte>, lo: nat, hi: nat)
    requires lo + 8 <= hi <= |buf| && RecLen(buf, lo) == hi - lo && RecordFits(buf, lo)
    ensures Tiled(buf, lo, hi)
    ensures Listing(Records(buf, lo, hi)) == ShownOf(RecordAt(buf, lo))
  {
    hide RecordAt, RecLen, RecordFits, ShownOf;
    assert Records(buf, lo, hi) == [RecordAt(buf, lo)];
    assert Listing([RecordAt(buf, lo)]) == ShownOf(RecordAt(buf, lo)) + Listing([]);
  }

  lemma TiledEmpty(buf: seq<byte>)
    ensures Tiled(buf, 0, 0)
  {
  }

  /** The first record of a tiled tail. */
  lemma TiledStep(buf: seq<byte>, off: nat)
    requires off + 8 <= |buf| && Tiled(buf, off, |buf|)
    ensures RecLen(buf, off) >= 8 && off + RecLen(buf, off) <= |buf| && RecordFits(buf, off)
    ensures Tiled(buf, off + RecLen(buf, off), |buf|)
    ensures RecIno(buf, off) == 0 ==> ShownOf(RecordAt(buf, off)) == []
  {
  }

  // Serialization

  /** What a record written for `name` reads back as: the length byte keeps only |name| modulo 256. */
  function Stored(ino: nat, name: seq<byte>, fileType: byte): DirEntry {
    DirEntry(ino, fileType, name[..|name| % 256])
  }

  /** The name reads back whole exactly when its length fits the one-byte field. */
  lemma NameSurvivesUpTo255(ino: nat, name: seq<byte>, fileType: byte)
    ensures Stored(ino, name, fileType).name == name <==> |name| <= 255
  {
    if |name| > 255 { assert |name[..|name| % 256]| < |name|; }
  }

  lemma LongNameIsCutShort(x: byte)
    ensures Stored(12, seq(300, _ => x), 1).name == seq(44, _ => x)
  {
  }

  /** Part of what was copied, read back. */
  lemma PatchSlice(buf: seq<byte>, off: nat, bytes: seq<byte>, i: nat, j: nat)
    requires off + |bytes| <= |buf| && i <= j <= |bytes|
    ensures Patch(buf, off, bytes)[off + i..off + j] == bytes[i..j]
  {
  }

  lemma FourParts(a: seq<byte>, b: seq<byte>, c: seq<byte>, d: seq<byte>, n: nat)
    requires |a| == 4 && |b| == 2 && |c| == 2 && n <= |d|
    ensures var r := a + b + c + d;
            r[0..4] == a && r[4..6] == b && r[6] == c[0] && r[7] == c[1] && r[8..8 + n] == d[..n]
  {
  }

  lemma DirentParts(ino: nat, len: nat, name: seq<byte>, fileType: byte, n: nat)
    requires n <= |name|
    ensures var r := DirentBytes(ino, len, name, fileType);
            r[0..4] == Le(ino, 4) && r[4..6] == Le(len, 2) && r[6] == |name| % 256 && r[7] == fileType
            && r[8..8 + n] == name[..n]
  {
    hide Le;
    FourParts(Le(ino, 4), Le(len, 2), [|name| % 256, fileType], name, n);
  }

  lemma WrittenRecord(buf: seq<byte>, off: nat, ino: u32, len: nat, name: seq<byte>, fileType: byte)
    requires off + 8 + |name| <= |buf| && len < 0x1_0000
    ensures var b := Patch(buf, off, DirentBytes(ino, len, name, fileType));
            && RecIno(b, off) == ino && RecLen(b, off) == len && b[off + 6] == |name| % 256
            && RecordAt(b, off) == Record(len, Stored(ino, name, fileType))
  {
    hide Patch, DirentBytes, Le, Un;
    var bytes := DirentBytes(ino, len, name, fileType);
    var n := |name| % 256;
    Widths();
    UnLe(ino, 4);
    UnLe(len, 2);
    DirentParts(ino, len, name, fileType, n);
    PatchSlice(buf, off, bytes, 0, 4);
    PatchSlice(buf, off, bytes, 4, 6);
    PatchSlice(buf, off, bytes, 8, 8 + n);
  }

  // Insertion

  /** Bytes a live record does not need, or the whole of a deleted one. */
  function UsedLen(buf: seq<byte>, off: nat): nat
    requires off + 8 <= |buf|
  {
    if RecIno(buf, off) == 0 then 0 else DirentLen(buf[off + 6])
  }

  function Slack(buf: seq<byte>, off: nat): int
    requires off + 8 <= |buf|
  {
    RecLen(buf, off) - UsedLen(buf, off)
  }

  /** The block after a new entry is put into the record at `off`: a live record is split and the new
      one takes its tail, a deleted one is reused whole. */
  function Insert(buf: seq<byte>, off: nat, ino: nat, name: seq<byte>, fileType: byte): (r: seq<byte>)
    requires off + 8 <= |buf| && off + RecLen(buf, off) <= |buf| && 8 + |name| <= Slack(buf, off)
    ensures |r| == |buf|
  {
    if RecIno(buf, off) != 0 then
      Patch(SetField(buf, off + 4, 2, UsedLen(buf, off)), off + UsedLen(buf, off),
            DirentBytes(ino, Slack(buf, off), name, fileType))
    else
      Patch(buf, off, DirentBytes(ino, RecLen(buf, off), name, fileType))
  }

  lemma InsertFits(buf: seq<byte>, off: nat, name: seq<byte>)
    requires off + 8 <= |buf| && off + RecLen(buf, off) <= |buf| && DirentLen(|name|) <= Slack(buf, off)
    ensures 8 + |name| <= Slack(buf, off)
  {
  }

  /** The rewritten stretch [off, off + RecLen): the old entry, if live, and then the new one. */
  lemma InsertHere(buf: seq<byte>, off: nat, ino: u32, name: seq<byte>, fileType: byte)
    requires |buf| < 0x1_0000 && ino != 0
    requires off + 8 <= |buf| && off + RecLen(buf, off) <= |buf| && RecordFits(buf, off)
    requires DirentLen(|name|) <= Slack(buf, off)
    ensures var r, hi := Insert(buf, off, ino, name, fileType), off + RecLen(buf, off);
            && Agree(buf, r, 0, off) && Agree(buf, r, hi, |buf|)
            && Tiled(r, off, hi)
            && Between(r, off, hi)
               == (if RecIno(buf, off) != 0 then ShownOf(RecordAt(buf, off)) else [])
                  + ShownOf(Record(0, Stored(ino, name, fileType)))
  {
    hide Field, Listing, Records, Tiled, RecordAt, DirentBytes, Stored;
    var hi := off + RecLen(buf, off);
    if RecIno(buf, off) != 0 {
      SplitHere(buf, off, ino, name, fileType);
    } else {
      SplitTail(buf, off, hi, ino, name, fileType);
      BetweenIs(Insert(buf, off, ino, name, fileType), off, hi);
      var new' := ShownOf(Record(0, Stored(ino, name, fileType)));
      assert [] + new' == new';
    }
  }

  lemma SplitHere(buf: seq<byte>, off: nat, ino: u32, name: seq<byte>, fileType: byte)
    requires |buf| < 0x1_0000 && ino != 0
    requires off + 8 <= |buf| && off + RecLen(buf, off) <= |buf| && RecordFits(buf, off)
    requires RecIno(buf, off) != 0 && DirentLen(|name|) <= Slack(buf, off)
    ensures var r, hi := Insert(buf, off, ino, name, fileType), off + RecLen(buf, off);
            && Agree(buf, r, 0, off) && Agree(buf, r, hi, |buf|)
            && Tiled(r, off, hi)
            && Between(r, off, hi)
               == ShownOf(RecordAt(buf, off)) + ShownOf(Record(0, Stored(ino, name, fileType)))
  {
    hide *;
    var hi, used, slack := off + RecLen(buf, off), UsedLen(buf, off), Slack(buf, off);
    var m := SetField(buf, off + 4, 2, used);
    SplitBytes(buf, off, ino, name, fileType);
    var r := Insert(buf, off, ino, name, fileType);
    Shrunk(buf, off);
    SplitTail(m, off + used, hi, ino, name, fileType);
    SameRecord(m, r, off, off + used);
    OneRecord(r, off, off + used);
    TiledConcat(r, off, off + used, hi);
    ListingConcat(Records(r, off, off + used), Records(r, off + used, hi));
    BetweenIs(r, off, hi);
  }

  lemma SplitBytes(buf: seq<byte>, off: nat, ino: u32, name: seq<byte>, fileType: byte)
    requires off + 8 <= |buf| && off + RecLen(buf, off) <= |buf| && RecordFits(buf, off)
    requires RecIno(buf, off) != 0 && DirentLen(|name|) <= Slack(buf, off)
    ensures UsedLen(buf, off) >= 8 && UsedLen(buf, off) + Slack(buf, off) == RecLen(buf, off)
    ensures 8 + |name| <= Slack(buf, off)
    ensures var m := SetField(buf, off + 4, 2, UsedLen(buf, off));
            var r := Insert(buf, off, ino, name, fileType);
            && r == Patch(m, off + UsedLen(buf, off), DirentBytes(ino, Slack(buf, off), name, fileType))
            && Agree(m, r, off, off + UsedLen(buf, off))
            && Agree(buf, r, 0, off) && Agree(buf, r, off + RecLen(buf, off), |buf|)
  {
    hide Field, Le, DirentBytes;
  }

  lemma SplitTail(m: seq<byte>, lo: nat, hi: nat, ino: u32, name: seq<byte>, fileType: byte)
    requires lo <= hi <= |m| < 0x1_0000 && ino != 0 && DirentLen(|name|) <= hi - lo
    ensures var r := Patch(m, lo, DirentBytes(ino, hi - lo, name, fileType));
            && Tiled(r, lo, hi)
            && Listing(Records(r, lo, hi)) == ShownOf(Record(0, Stored(ino, name, fileType)))
  {
    hide Un, Field, RecLen, RecIno, RecordAt, Patch, DirentBytes, Listing, Records, Tiled, Stored, DirentLen, Shown;
    var r := Patch(m, lo, DirentBytes(ino, hi - lo, name, fileType));
    WrittenRecord(m, lo, ino, hi - lo, name, fileType);
    ShorterName(|name|);
    OneRecord(r, lo, hi);
  }

  lemma ShorterName(n: nat)
    ensures DirentLen(n % 256) <= DirentLen(n)
  {
    assert n % 256 <= n;
  }

  /** A live record shrunk to what its name needs still shows the same entry. */
  lemma Shrunk(buf: seq<byte>, off: nat)
    requires |buf| < 0x1_0000 && off + 8 <= |buf| && RecIno(buf, off) != 0
    requires off + RecLen(buf, off) <= |buf| && RecordFits(buf, off)
    ensures var m := SetField(buf, off + 4, 2, UsedLen(buf, off));
            && RecLen(m, off) == UsedLen(buf, off) && RecordFits(m, off)
            && ShownOf(RecordAt(m, off)) == ShownOf(RecordAt(buf, off))
  {
    hide Field, SetField;
    Relength(buf, off, UsedLen(buf, off));
  }

  /** Rewriting a record's length field changes nothing else about the record. */
  lemma Relength(buf: seq<byte>, off: nat, len: nat)
    requires off + 8 <= |buf| && len < 0x1_0000
    ensures var m := SetField(buf, off + 4, 2, len);
            && RecLen(m, off) == len && RecIno(m, off) == RecIno(buf, off) && m[off + 6] == buf[off + 6]
            && RecordAt(m, off).entry == RecordAt(buf, off).entry
  {
    hide Un, Le;
    var m := SetField(buf, off + 4, 2, len);
    assert Pow256(2) == 0x1_0000;
    SetFieldHere(buf, off + 4, 2, len);
    assert m[off..off + 4] == buf[off..off + 4];
    var n := buf[off + 6];
    assert off + 8 + n <= |buf| ==> m[off + 8..off + 8 + n] == buf[off + 8..off + 8 + n];
  }

  /** Inserting adds exactly one entry to the block's listing and disturbs no other. */
  lemma InsertEffect(buf: seq<byte>, off: nat, ino: u32, name: seq<byte>, fileType: byte) returns (k: nat)
    requires |buf| < 0x1_0000 && ino != 0
    requires off + 8 <= |buf| && Tiled(buf, 0, off) && Tiled(buf, off, |buf|)
    requires DirentLen(|name|) <= Slack(buf, off)
    ensures var r := Insert(buf, off, ino, name, fileType);
            && Tiled(r, 0, |r|)
            && k <= |Scan(buf, 0)|
            && Scan(r, 0) == Scan(buf, 0)[..k] + ShownOf(Record(0, Stored(ino, name, fileType))) + Scan(buf, 0)[k..]
  {
    hide *;
    TiledStep(buf, off);
    var hi := off + RecLen(buf, off);
    InsertFits(buf, off, name);
    var r := Insert(buf, off, ino, name, fileType);
    InsertHere(buf, off, ino, name, fileType);
    var a, b := Listing(Records(buf, 0, off)), Listing(Records(buf, hi, |buf|));
    var mid := if RecIno(buf, off) != 0 then ShownOf(RecordAt(buf, off)) else [];
    OneRecord(buf, off, hi);
    ThreeStretches(buf, off, hi);
    TiledLocal(buf, r, 0, off);
    TiledLocal(buf, r, hi, |buf|);
    ThreeStretches(r, off, hi);
    BetweenIs(r, off, hi);
    k := |a + mid|;
    assert Scan(buf, 0) == a + mid + b;
    assert Scan(buf, 0)[..k] == a + mid && Scan(buf, 0)[k..] == b;
  }

  lemma ThreeStretches(buf: seq<byte>, lo: nat, hi: nat)
    requires lo <= hi <= |buf| && Tiled(buf, 0, lo) && Tiled(buf, lo, hi) && Tiled(buf, hi, |buf|)
    ensures Tiled(buf, 0, |buf|)
    ensures Scan(buf, 0)
            == Listing(Records(buf, 0, lo)) + Listing(Records(buf, lo, hi)) + Listing(Records(buf, hi, |buf|))
  {
    TiledConcat(buf, 0, lo, hi);
    TiledConcat(buf, 0, hi, |buf|);
    ListingConcat(Records(buf, 0, lo), Records(buf, lo, hi));
    ListingConcat(Records(buf, 0, hi), Records(buf, hi, |buf|));
    ScanIsListing(buf, 0);
  }

  // Removal

  /** The block after the record at `off` goes: swallowed by the record before it, or, when it is the
      first of the block, marked deleted. */
  function Remove(buf: seq<byte>, prev: Option<nat>, off: nat): (r: seq<byte>)
    requires off + 8 <= |buf| && (prev.Some? ==> prev.value + 8 <= |buf|)
    ensures |r| == |buf|
  {
    if prev.Some?
    then SetField(buf, prev.value + 4, 2, RecLen(buf, prev.value) + RecLen(buf, off))
    else SetField(buf, off, 4, 0)
  }

  /** Where the stretch rewritten by a removal starts. */
  function EditStart(prev: Option<nat>, off: nat): nat {
    if prev.Some? then prev.value else off
  }

  lemma RemoveHere(buf: seq<byte>, prev: Option<nat>, off: nat)
    requires |buf| < 0x1_0000 && off + 8 <= |buf| && off + RecLen(buf, off) <= |buf| && RecLen(buf, off) >= 8
    requires prev.Some? ==> prev.value + 8 <= off && prev.value + RecLen(buf, prev.value) == off
                            && RecordFits(buf, prev.value)
    ensures var r, lo, hi := Remove(buf, prev, off), EditStart(prev, off), off + RecLen(buf, off);
            && Agree(buf, r, 0, lo) && Agree(buf, r, hi, |buf|)
            && Tiled(r, lo, hi)
            && Between(r, lo, hi) == if prev.Some? then ShownOf(RecordAt(buf, prev.value)) else []
  {
    hide Un, Field, RecLen, RecIno, RecordAt, RecordFits, Records, Listing, Tiled, Scan, Remove, Agree, Between,
         ShownOf;
    var r, lo, hi := Remove(buf, prev, off), EditStart(prev, off), off + RecLen(buf, off);
    RemoveAgrees(buf, prev, off);
    if prev.Some? {
      Swallowed(buf, prev.value, off);
    } else {
      MarkedDeleted(buf, off);
    }
    OneRecord(r, lo, hi);
    BetweenIs(r, lo, hi);
  }

  /** Bytes outside the rewritten stretch stay. */
  lemma RemoveAgrees(buf: seq<byte>, prev: Option<nat>, off: nat)
    requires off + 8 <= |buf| && off + RecLen(buf, off) <= |buf| && RecLen(buf, off) >= 8
    requires prev.Some? ==> prev.value + 8 <= off
    ensures var r, lo, hi := Remove(buf, prev, off), EditStart(prev, off), off + RecLen(buf, off);
            Agree(buf, r, 0, lo) && Agree(buf, r, hi, |buf|)
  {
    hide RecLen, Un;
  }

  lemma Swallowed(buf: seq<byte>, p: nat, off: nat)
    requires |buf| < 0x1_0000 && p + 8 <= off && off + 8 <= |buf| && p + RecLen(buf, p) == off && RecordFits(buf, p)
    requires off + RecLen(buf, off) <= |buf|
    ensures var r := Remove(buf, Some(p), off);
            && RecLen(r, p) == off + RecLen(buf, off) - p && RecordFits(r, p)
            && ShownOf(RecordAt(r, p)) == ShownOf(RecordAt(buf, p))
  {
    hide Field, SetField;
    Relength(buf, p, RecLen(buf, p) + RecLen(buf, off));
  }

  lemma MarkedDeleted(buf: seq<byte>, off: nat)
    requires off + 8 <= |buf|
    ensures var r := Remove(buf, None, off);
            RecLen(r, off) == RecLen(buf, off) && RecordFits(r, off) && ShownOf(RecordAt(r, off)) == []
  {
    var r := Remove(buf, None, off);
    SetFieldHere(buf, off, 4, 0);
    assert r[off + 4..off + 6] == buf[off + 4..off + 6];
  }

  /** The record at off, with the one before it in the block, as a scan that has come this far knows them. */
  ghost predicate Scanned(buf: seq<byte>, prev: Option<nat>, off: nat) {
    && off <= |buf| && Tiled(buf, 0, off) && Tiled(buf, off, |buf|)
    && (prev.Some? ==> prev.value + 8 <= off && prev.value + RecLen(buf, prev.value) == off
                       && RecordFits(buf, prev.value) && Tiled(buf, 0, prev.value))
    && (prev.None? ==> off == 0)
  }

  /** A block's entries, around the record at off. */
  lemma ScanAround(buf: seq<byte>, prev: Option<nat>, off: nat)
    requires off + 8 <= |buf| && Scanned(buf, prev, off)
    ensures var hi := off + RecLen(buf, off);
            Scan(buf, 0) == Between(buf, 0, off) + ShownOf(RecordAt(buf, off)) + Between(buf, hi, |buf|)
  {
    hide Un, Field, RecLen, RecIno, RecordAt, RecordFits, Records, Listing, Tiled, Scan;
    assert Tiled(buf, 0, off) && Tiled(buf, off, |buf|);
    hide *;
    var hi := off + RecLen(buf, off);
    TiledStep(buf, off);
    OneRecord(buf, off, hi);
    ThreeStretches(buf, off, hi);
    BetweenIs(buf, 0, off);
    BetweenIs(buf, hi, |buf|);
  }

  lemma ScanRemoved(buf: seq<byte>, prev: Option<nat>, off: nat)
    requires |buf| < 0x1_0000 && off + 8 <= |buf| && (prev.Some? ==> prev.value + 8 <= off) && Scanned(buf, prev, off)
    ensures Tiled(Remove(buf, prev, off), 0, |buf|)
    ensures Scan(Remove(buf, prev, off), 0) == Between(buf, 0, off) + Between(buf, off + RecLen(buf, off), |buf|)
  {
    hide Un, Field, RecLen, RecIno, RecordAt, RecordFits, Records, Listing, Tiled, Scan, Remove;
    TiledEmpty(buf);
    var r, lo, hi := Remove(buf, prev, off), EditStart(prev, off), off + RecLen(buf, off);
    assert Tiled(buf, 0, lo) && lo <= off;
    hide *;
    TiledStep(buf, off);
    RemoveHere(buf, prev, off);
    FrontStretch(buf, prev, off);
    TiledLocal(buf, r, 0, lo);
    TiledLocal(buf, r, hi, |buf|);
    ThreeStretches(r, lo, hi);
    BetweenIs(r, lo, hi);
    BetweenIs(buf, 0, off);
    BetweenIs(buf, hi, |buf|);
  }

  /** Removing takes exactly the record's own entry out of the listing and disturbs no other. */
  lemma RemoveEffect(buf: seq<byte>, prev: Option<nat>, off: nat)
    requires |buf| < 0x1_0000 && off + 8 <= |buf| && (prev.Some? ==> prev.value + 8 <= off) && Scanned(buf, prev, off)
    ensures Tiled(Remove(buf, prev, off), 0, |buf|)
    ensures var hi := off + RecLen(buf, off);
            && Scan(buf, 0) == Between(buf, 0, off) + ShownOf(RecordAt(buf, off)) + Between(buf, hi, |buf|)
            && Scan(Remove(buf, prev, off), 0) == Between(buf, 0, off) + Between(buf, hi, |buf|)
  {
    hide *;
    ScanAround(buf, prev, off);
    ScanRemoved(buf, prev, off);
  }

  /** The entries of a stretch, if it is tiled. */
  function Between(buf: seq<byte>, lo: nat, hi: nat): seq<DirEntry> {
    if lo <= hi <= |buf| && Tiled(buf, lo, hi) then Listing(Records(buf, lo, hi)) else []
  }

  lemma BetweenIs(buf: seq<byte>, lo: nat, hi: nat)
    requires lo <= hi <= |buf| && Tiled(buf, lo, hi)
    ensures Between(buf, lo, hi) == Listing(Records(buf, lo, hi))
  {
  }

  lemma FrontStretch(buf: seq<byte>, prev: Option<nat>, off: nat)
    requires Scanned(buf, prev, off)
    ensures EditStart(prev, off) <= off && Tiled(buf, 0, EditStart(prev, off))
    ensures Listing(Records(buf, 0, off))
            == Listing(Records(buf, 0, EditStart(prev, off)))
               + if prev.Some? then ShownOf(RecordAt(buf, prev.value)) else []
  {
    hide Un, Field, RecLen, RecIno, RecordAt, RecordFits, Records, Listing, Tiled, Scan, ShownOf;
    TiledEmpty(buf);
    if prev.Some? {
      var p := prev.value;
      OneRecord(buf, p, off);
      TiledConcat(buf, 0, p, off);
      ListingConcat(Records(buf, 0, p), Records(buf, p, off));
    }
  }

  // Every record, shown or not

  /** A record in use at `at`, reached from the front of the block. */
  ghost predicate HasRecord(buf: seq<byte>, at: nat, e: DirEntry) {
    OnChain(buf, 0, at) && at + 8 <= |buf| && RecIno(buf, at) != 0 && ReadsAt(buf, at, e)
  }

  lemma {:induction false} ChainBound(buf: seq<byte>, lo: nat, at: nat)
    requires OnChain(buf, lo, at)
    ensures lo <= at && at + 8 <= |buf|
    decreases |buf| - lo
  {
    hide RecLen;
    if at != lo { ChainBound(buf, lo + RecLen(buf, lo), at); }
  }

  /** Past a tiled stretch the chain goes on from its end. */
  lemma {:induction false} ChainThrough(buf: seq<byte>, lo: nat, mid: nat, at: nat)
    requires lo <= mid <= |buf| && Tiled(buf, lo, mid)
    ensures at >= mid && OnChain(buf, mid, at) ==> OnChain(buf, lo, at)
    ensures at >= mid && OnChain(buf, lo, at) ==> OnChain(buf, mid, at)
    decreases mid - lo
  {
    hide RecLen, RecordFits;
    if lo < mid { ChainThrough(buf, lo + RecLen(buf, lo), mid, at); }
  }

  /** The chain inside a stretch is the same wherever its bytes are the same, and so are its records in use. */
  lemma {:induction false} ChainLocal(a: seq<byte>, b: seq<byte>, lo: nat, hi: nat, at: nat, e: DirEntry)
    requires lo <= hi && Agree(a, b, lo, hi) && Tiled(a, lo, hi) && OnChain(a, lo, at) && at < hi
    requires at + 8 <= |a| && RecIno(a, at) != 0 && ReadsAt(a, at, e)
    ensures OnChain(b, lo, at) && RecIno(b, at) != 0 && ReadsAt(b, at, e)
    decreases hi - lo
  {
    hide RecLen, RecIno, RecordFits, ReadsAt;
    ChainBound(a, lo, at);
    SameRecord(a, b, lo, hi);
    if at == lo {
      SameBytesRead(a, b, lo, hi, e);
    } else {
      ChainBound(a, lo + RecLen(a, lo), at);
      ChainLocal(a, b, lo + RecLen(a, lo), hi, at, e);
    }
  }

  lemma SameBytesRead(a: seq<byte>, b: seq<byte>, at: nat, hi: nat, e: DirEntry)
    requires at + 8 <= hi && Agree(a, b, at, hi) && RecordFits(a, at) && RecIno(a, at) != 0
    requires at + RecLen(a, at) <= hi && ReadsAt(a, at, e)
    ensures ReadsAt(b, at, e)
  {
    assert b[at..at + 4] == a[at..at + 4];
    var n := a[at + 6];
    assert b[at + 8..at + 8 + n] == a[at + 8..at + 8 + n];
  }

  /** An insert keeps every record in use, dots included, where it was and as it was. */
  lemma InsertKeepsRecords(buf: seq<byte>, off: nat, ino: u32, name: seq<byte>, fileType: byte, at: nat, e: DirEntry)
    requires |buf| < 0x1_0000 && ino != 0
    requires off + 8 <= |buf| && Tiled(buf, 0, off) && Tiled(buf, off, |buf|)
    requires DirentLen(|name|) <= Slack(buf, off) && HasRecord(buf, at, e)
    ensures 8 + |name| <= Slack(buf, off) && off + RecLen(buf, off) <= |buf|
    ensures HasRecord(Insert(buf, off, ino, name, fileType), at, e)
  {
    hide *;
    TiledStep(buf, off);
    InsertFits(buf, off, name);
    InsertHere(buf, off, ino, name, fileType);
    var r, hi := Insert(buf, off, ino, name, fileType), off + RecLen(buf, off);
    TiledLocal(buf, r, 0, off);
    OneRecord(buf, off, hi);
    UseParts(buf, at, e);
    if at >= off { NotInside(buf, off, at); }
    if at == off { InsertAtUsed(buf, off, ino, name, fileType, e); }
    KeptOutside(buf, r, off, hi, at, e);
  }

  /** The chain does not step into the middle of a record. */
  lemma NotInside(buf: seq<byte>, off: nat, at: nat)
    requires off + 8 <= |buf| && Tiled(buf, 0, off) && OnChain(buf, 0, at) && at >= off
    ensures at == off || at >= off + RecLen(buf, off)
  {
    hide RecLen, Tiled;
    ChainThrough(buf, 0, off, at);
    if at != off { ChainBound(buf, off + RecLen(buf, off), at); }
  }

  lemma UseParts(buf: seq<byte>, at: nat, e: DirEntry)
    requires HasRecord(buf, at, e)
    ensures OnChain(buf, 0, at) && at + 8 <= |buf| && RecIno(buf, at) != 0 && ReadsAt(buf, at, e)
  {
    hide RecIno, ReadsAt, OnChain;
    ChainBound(buf, 0, at);
  }

  /** The record split by an insert keeps its place, its inode and its name. */
  lemma InsertAtUsed(buf: seq<byte>, off: nat, ino: u32, name: seq<byte>, fileType: byte, e: DirEntry)
    requires |buf| < 0x1_0000 && off + 8 <= |buf| && off + RecLen(buf, off) <= |buf| && RecordFits(buf, off)
    requires DirentLen(|name|) <= Slack(buf, off) && RecIno(buf, off) != 0 && ReadsAt(buf, off, e)
    ensures 8 + |name| <= Slack(buf, off)
    ensures var r := Insert(buf, off, ino, name, fileType);
            RecIno(r, off) != 0 && ReadsAt(r, off, e) && RecLen(r, off) >= 8
  {
    hide Field, SetField, Insert, Un;
    var used := UsedLen(buf, off);
    var m := SetField(buf, off + 4, 2, used);
    SplitBytes(buf, off, ino, name, fileType);
    var r := Insert(buf, off, ino, name, fileType);
    Relength(buf, off, used);
    SameRecord(m, r, off, off + used);
    assert m[off + 7] == buf[off + 7] by { SetFieldElsewhere(buf, off + 4, used, off + 7); }
    assert r[off + 8..off + 8 + buf[off + 6]] == m[off + 8..off + 8 + buf[off + 6]];
  }

  lemma SetFieldElsewhere(buf: seq<byte>, at: nat, v: nat, k: nat)
    requires at + 2 <= |buf| && k < |buf| && (k < at || k >= at + 2)
    ensures SetField(buf, at, 2, v)[k] == buf[k]
  {
  }

  /** A record in use outside [lo, hi), or still in place at its start, stays on the chain when only that
      stretch is rewritten and it stays tiled. */
  lemma KeptOutside(buf: seq<byte>, r: seq<byte>, lo: nat, hi: nat, at: nat, e: DirEntry)
    requires lo <= hi <= |buf| == |r| && Tiled(buf, 0, lo) && Tiled(buf, lo, hi) && Tiled(buf, hi, |buf|)
    requires Agree(buf, r, 0, lo) && Agree(buf, r, hi, |buf|) && Tiled(r, 0, lo) && Tiled(r, lo, hi)
    requires OnChain(buf, 0, at) && at + 8 <= |buf| && RecIno(buf, at) != 0 && ReadsAt(buf, at, e)
    requires at < lo || at >= hi || (at == lo && RecIno(r, lo) != 0 && ReadsAt(r, lo, e) && RecLen(r, lo) >= 8)
    ensures HasRecord(r, at, e)
  {
    hide RecLen, RecIno, RecordFits, ReadsAt, Tiled, Agree;
    if at < lo {
      ChainLocal(buf, r, 0, lo, at, e);
    } else if at >= hi {
      ChainThrough(buf, 0, lo, at);
      ChainThrough(buf, lo, hi, at);
      ChainLocal(buf, r, hi, |buf|, at, e);
      ChainThrough(r, lo, hi, at);
      ChainThrough(r, 0, lo, at);
    } else {
      ChainThrough(r, 0, lo, at);
    }
  }

  /** A removal keeps every other record in use where it was and as it was. */
  lemma RemoveKeepsRecords(buf: seq<byte>, prev: Option<nat>, off: nat, at: nat, e: DirEntry)
    requires |buf| < 0x1_0000 && off + 8 <= |buf| && (prev.Some? ==> prev.value + 8 <= off) && Scanned(buf, prev, off)
    requires HasRecord(buf, at, e) && at != off
    ensures HasRecord(Remove(buf, prev, off), at, e)
  {
    hide Un, Field, RecLen, RecIno, RecordFits, Records, Listing, Tiled, Scan, Remove, ReadsAt, OnChain, HasRecord,
         Agree, Between;
    TiledEmpty(buf);
    var r, lo, hi := Remove(buf, prev, off), EditStart(prev, off), off + RecLen(buf, off);
    TiledStep(buf, off);
    RemoveHere(buf, prev, off);
    FrontStretch(buf, prev, off);
    TiledLocal(buf, r, 0, lo);
    OneRecord(buf, off, hi);
    UseParts(buf, at, e);
    if at >= off { NotInside(buf, off, at); }
    if prev.Some? {
      OneRecord(buf, lo, off);
      TiledConcat(buf, lo, off, hi);
      if at >= lo { NotInside(buf, lo, at); }
      if at == lo { SwallowedRecord(buf, lo, off, e); }
    }
    KeptOutside(buf, r, lo, hi, at, e);
  }

  lemma SwallowedRecord(buf: seq<byte>, p: nat, off: nat, e: DirEntry)
    requires |buf| < 0x1_0000 && p + 8 <= off && off + 8 <= |buf| && p + RecLen(buf, p) == off && RecordFits(buf, p)
    requires off + RecLen(buf, off) <= |buf| && RecIno(buf, p) != 0 && ReadsAt(buf, p, e)
    ensures var r := Remove(buf, Some(p), off);
            RecIno(r, p) != 0 && ReadsAt(r, p, e) && RecLen(r, p) >= 8
  {
    hide Field, SetField, Un;
    var len := RecLen(buf, p) + RecLen(buf, off);
    var r := SetField(buf, p + 4, 2, len);
    Relength(buf, p, len);
    SetFieldElsewhere(buf, p + 4, len, p + 7);
    var n := buf[p + 6];
    forall k | p + 8 <= k < p + 8 + n ensures r[k] == buf[k] { SetFieldElsewhere(buf, p + 4, len, k); }
    assert r[p + 8..p + 8 + n] == buf[p + 8..p + 8 + n];
  }

  // A new directory's own block

  /** The block of a new directory: "." then "..", which takes the rest. */
  function DotBlock(bs: nat, ino: nat, parent: nat): (r: seq<byte>)
    requires bs >= 24
    ensures |r| == bs
  {
    var dot := Patch(Zeros(bs), 0, DirentBytes(ino, DirentLen(1), DOT, 2));
    Patch(dot, DirentLen(1), DirentBytes(parent, bs - DirentLen(1), DOT_DOT, 2))
  }

  /** The first record, before ".." is written behind it. */
  lemma DotFirst(bs: nat, ino: nat, parent: nat)
    requires bs >= 24
    ensures DirentLen(1) == 12 && DirentLen(2) == 12
    ensures var dot := Patch(Zeros(bs), 0, DirentBytes(ino, 12, DOT, 2));
            && DotBlock(bs, ino, parent) == Patch(dot, 12, DirentBytes(parent, bs - 12, DOT_DOT, 2))
            && Agree(dot, DotBlock(bs, ino, parent), 0, 12)
  {
  }

  /** It is well formed and lists nothing. */
  lemma DotBlockListsNothing(bs: nat, ino: u32, parent: u32)
    requires 24 <= bs < 0x1_0000 && ino != 0 && parent != 0
    ensures Tiled(DotBlock(bs, ino, parent), 0, bs) && Scan(DotBlock(bs, ino, parent), 0) == []
  {
    hide *;
    DotFirst(bs, ino, parent);
    DotLengths();
    var dot := Patch(Zeros(bs), 0, DirentBytes(ino, 12, DOT, 2));
    var r := DotBlock(bs, ino, parent);
    SpecialNames(ino, parent);
    SplitTail(Zeros(bs), 0, 12, ino, DOT, 2);
    SplitTail(dot, 12, bs, parent, DOT_DOT, 2);
    TiledLocal(dot, r, 0, 12);
    TiledConcat(r, 0, 12, bs);
    ListingConcat(Records(r, 0, 12), Records(r, 12, bs));
    ScanIsListing(r, 0);
  }

  /** The bytes of the two records that fill a new directory's block: a dot for itself and two for its parent. */
  ghost predicate DotRecords(buf: seq<byte>, ino: nat, parent: nat) {
    && |buf| >= 24
    && RecIno(buf, 0) == ino && RecLen(buf, 0) == 12 && buf[6] == 1 && buf[7] == 2 && buf[8] == 46
    && RecIno(buf, 12) == parent && RecLen(buf, 12) == |buf| - 12 && buf[18] == 2 && buf[19] == 2
    && buf[20] == 46 && buf[21] == 46
  }

  lemma DotBlockRecords(bs: nat, ino: u32, parent: u32)
    requires 24 <= bs < 0x1_0000
    ensures DotRecords(DotBlock(bs, ino, parent), ino, parent)
  {
    hide *;
    DotFirst(bs, ino, parent);
    DotLengths();
    var dot := Patch(Zeros(bs), 0, DirentBytes(ino, 12, DOT, 2));
    var r := DotBlock(bs, ino, parent);
    NameWritten(Zeros(bs), 0, ino, 12, DOT, 2);
    NameWritten(dot, 12, parent, bs - 12, DOT_DOT, 2);
    SameRecord(dot, r, 0, 12);
    DotBytes(dot, r, ino, parent);
  }

  /** A short name written into a record is there byte for byte. */
  lemma NameWritten(buf: seq<byte>, off: nat, ino: u32, len: nat, name: seq<byte>, fileType: byte)
    requires off + 8 + |name| <= |buf| && len < 0x1_0000 && |name| < 256
    ensures var b := Patch(buf, off, DirentBytes(ino, len, name, fileType));
            && RecIno(b, off) == ino && RecLen(b, off) == len && b[off + 6] == |name| && b[off + 7] == fileType
            && b[off + 8..off + 8 + |name|] == name
  {
    hide Patch, DirentBytes, RecLen, RecIno;
    WrittenRecord(buf, off, ino, len, name, fileType);
    assert name[..|name|] == name;
  }

  lemma DotBytes(dot: seq<byte>, r: seq<byte>, ino: nat, parent: nat)
    requires |r| >= 24 && Agree(dot, r, 0, 12) && dot[7] == 2 && dot[8..9] == DOT
    requires RecIno(r, 0) == ino && RecLen(r, 0) == 12 && r[6] == 1
    requires RecIno(r, 12) == parent && RecLen(r, 12) == |r| - 12 && r[18] == 2 && r[19] == 2 && r[20..22] == DOT_DOT
    ensures DotRecords(r, ino, parent)
  {
    hide RecIno, RecLen;
    assert dot[8] == dot[8..9][0] && r[20] == r[20..22][0] && r[21] == r[20..22][1];
  }

  lemma DotLengths()
    ensures |DOT| == 1 && |DOT_DOT| == 2
  {
  }

  lemma SpecialNames(ino: nat, parent: nat)
    ensures ShownOf(Record(0, Stored(ino, DOT, 2))) == [] && ShownOf(Record(0, Stored(parent, DOT_DOT, 2))) == []
  {
    assert DOT[..1] == DOT && DOT_DOT[..2] == DOT_DOT;
  }
}
