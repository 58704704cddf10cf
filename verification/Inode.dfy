/** The raw on-disk inode record: fields are patched in the record's own bytes, and everything
    else in it survives. */
module Inode {
  import opened Bytes

  datatype RawInode = RawInode(buf: seq<byte>)
  {
    predicate Valid() { |buf| >= 128 }

    function Mode(): nat
      requires Valid()
    {
      Field(buf, 0, 2)
    }

    function LinksCount(): nat
      requires Valid()
    {
      Field(buf, 26, 2)
    }

    /** The top four bits of the mode. */
    predicate IsDir()
      requires Valid()
    {
      Mode() / 0x1000 == 4
    }

    predicate IsReg()
      requires Valid()
    {
      Mode() / 0x1000 == 8
    }

    predicate IsSymlink()
      requires Valid()
    {
      Mode() / 0x1000 == 10
    }

    /** Only a regular file has upper size bits. */
    function Size(): nat
      requires Valid()
    {
      if IsReg() then Field(buf, 108, 4) * 0x1_0000_0000 + Field(buf, 4, 4) else Field(buf, 4, 4)
    }

    function IBlock(i: nat): nat
      requires Valid() && i < 15
    {
      Field(buf, 40 + 4 * i, 4)
    }

    predicate IsFastSymlink()
      requires Valid()
    {
      IsSymlink() && Size() < 60
    }

    predicate HasBlockPointers()
      requires Valid()
    {
      (IsDir() || IsReg() || IsSymlink()) && !IsFastSymlink()
    }

    // Setters

    function SetMode(v: nat): (r: RawInode)
      requires Valid()
      ensures r.Valid() && |r.buf| == |buf|
    {
      RawInode(SetField(buf, 0, 2, v))
    }

    function SetLinksCount(v: nat): (r: RawInode)
      requires Valid()
      ensures r.Valid() && |r.buf| == |buf|
    {
      RawInode(SetField(buf, 26, 2, v))
    }

    function SetBlocks512(v: nat): (r: RawInode)
      requires Valid()
      ensures r.Valid() && |r.buf| == |buf|
    {
      RawInode(SetField(buf, 28, 4, v))
    }

    function SetDtime(v: nat): (r: RawInode)
      requires Valid()
      ensures r.Valid() && |r.buf| == |buf|
    {
      RawInode(SetField(buf, 20, 4, v))
    }

    function SetSize(v: nat): (r: RawInode)
      requires Valid()
      ensures r.Valid() && |r.buf| == |buf|
    {
      var lo := SetField(buf, 4, 4, v % 0x1_0000_0000);
      if IsReg() then RawInode(SetField(lo, 108, 4, v / 0x1_0000_0000)) else RawInode(lo)
    }

    function SetIBlock(i: nat, v: nat): (r: RawInode)
      requires Valid() && i < 15
      ensures r.Valid() && |r.buf| == |buf|
    {
      RawInode(SetField(buf, 40 + 4 * i, 4, v))
    }
  }

  /** `saturating_sub(1)`. */
  function OneFewer(n: nat): nat { if n == 0 then 0 else n - 1 }

  function Zeroed(size: nat): (r: RawInode)
    ensures |r.buf| == size
  {
    RawInode(Zeros(size))
  }

  lemma ZeroedReadsZero(size: nat)
    requires size >= 128
    ensures var r := Zeroed(size);
            r.Mode() == 0 && Field(r.buf, 4, 4) == 0 && Field(r.buf, 108, 4) == 0
            && forall i :: 0 <= i < 15 ==> r.IBlock(i) == 0
  {
    var r := Zeroed(size);
    UnZeros(r.buf[0..2]);
    UnZeros(r.buf[4..8]);
    UnZeros(r.buf[108..112]);
    forall i | 0 <= i < 15 ensures r.IBlock(i) == 0 { UnZeros(r.buf[40 + 4 * i..44 + 4 * i]); }
  }

  /** Where the fields are in the record, byte by byte. */
  lemma FieldsOnDisk(raw: RawInode)
    requires raw.Valid()
    ensures var b := raw.buf;
            && raw.Mode() == U16(b[0], b[1]) && raw.LinksCount() == U16(b[26], b[27])
            && raw.Size() == U32(b[4], b[5], b[6], b[7])
                             + (if raw.IsReg() then 0x1_0000_0000 * U32(b[108], b[109], b[110], b[111]) else 0)
            && forall i :: 0 <= i < 15 ==>
                 raw.IBlock(i) == U32(b[40 + 4 * i], b[41 + 4 * i], b[42 + 4 * i], b[43 + 4 * i])
  {
    hide Field, U16, U32;
    FieldBytes(raw.buf, 0);
    FieldBytes(raw.buf, 26);
    FieldBytes(raw.buf, 4);
    FieldBytes(raw.buf, 108);
    forall i | 0 <= i < 15
      ensures raw.IBlock(i)
              == U32(raw.buf[40 + 4 * i], raw.buf[41 + 4 * i], raw.buf[42 + 4 * i], raw.buf[43 + 4 * i])
    {
      FieldBytes(raw.buf, 40 + 4 * i);
    }
  }

  /** Same type, size and pointers: all the driver navigates by. */
  ghost predicate SameShape(a: RawInode, b: RawInode)
    requires a.Valid() && b.Valid()
  {
    && a.Mode() == b.Mode()
    && a.Size() == b.Size()
    && forall i :: 0 <= i < 15 ==> a.IBlock(i) == b.IBlock(i)
  }

  /** Same mode and link count. */
  ghost predicate SameLinks(a: RawInode, b: RawInode) {
    a.Valid() && b.Valid() && a.Mode() == b.Mode() && a.LinksCount() == b.LinksCount()
  }

  /** A patch that stays clear of mode, size and pointers changes none of them. */
  lemma ShapeUntouched(a: RawInode, off: nat, bytes: seq<byte>)
    requires a.Valid() && off + |bytes| <= |a.buf|
    requires 8 <= off && (off + |bytes| <= 40 || (100 <= off && off + |bytes| <= 108) || 112 <= off)
    ensures RawInode(Patch(a.buf, off, bytes)).Valid()
    ensures SameShape(a, RawInode(Patch(a.buf, off, bytes)))
  {
    PatchElsewhere(a.buf, off, bytes, 0, 2);
    PatchElsewhere(a.buf, off, bytes, 4, 4);
    PatchElsewhere(a.buf, off, bytes, 108, 4);
    forall i | 0 <= i < 15 ensures a.IBlock(i) == RawInode(Patch(a.buf, off, bytes)).IBlock(i) {
      PatchElsewhere(a.buf, off, bytes, 40 + 4 * i, 4);
    }
  }

  lemma BookkeepingKeepsShape(a: RawInode, v: nat)
    requires a.Valid()
    ensures SameShape(a, a.SetLinksCount(v))
    ensures SameShape(a, a.SetBlocks512(v))
    ensures SameShape(a, a.SetDtime(v))
  {
    ShapeUntouched(a, 26, Le(v, 2));
    ShapeUntouched(a, 28, Le(v, 4));
    ShapeUntouched(a, 20, Le(v, 4));
  }

  lemma SetIBlockEffect(a: RawInode, i: nat, v: u32)
    requires a.Valid() && i < 15
    ensures var r := a.SetIBlock(i, v);
            && r.Mode() == a.Mode() && r.Size() == a.Size() && r.LinksCount() == a.LinksCount()
            && forall j :: 0 <= j < 15 ==> r.IBlock(j) == if j == i then v else a.IBlock(j)
  {
    Widths();
    var bytes := Le(v, 4);
    PatchElsewhere(a.buf, 40 + 4 * i, bytes, 0, 2);
    PatchElsewhere(a.buf, 40 + 4 * i, bytes, 4, 4);
    PatchElsewhere(a.buf, 40 + 4 * i, bytes, 26, 2);
    PatchElsewhere(a.buf, 40 + 4 * i, bytes, 108, 4);
    SetFieldHere(a.buf, 40 + 4 * i, 4, v);
    forall j | 0 <= j < 15 && j != i ensures a.SetIBlock(i, v).IBlock(j) == a.IBlock(j) {
      PatchElsewhere(a.buf, 40 + 4 * i, bytes, 40 + 4 * j, 4);
    }
  }

  /** What is left of a size once stored: 64 bits of it for a regular file, 32 for anything else. */
  function StoredSize(a: RawInode, v: nat): nat
    requires a.Valid()
  {
    if a.IsReg() then v else v % 0x1_0000_0000
  }

  /** The size field, written and read back. */
  lemma SizeStored(buf: seq<byte>, v: nat, upper: bool)
    requires |buf| >= 128 && v < 0x1_0000_0000_0000_0000
    ensures var m := SetField(buf, 4, 4, v % 0x1_0000_0000);
            var r := if upper then SetField(m, 108, 4, v / 0x1_0000_0000) else m;
            && Field(r, 4, 4) == v % 0x1_0000_0000
            && (upper ==> Field(r, 108, 4) == v / 0x1_0000_0000)
  {
    Widths();
    hide Field;
    var lo, hi := v % 0x1_0000_0000, v / 0x1_0000_0000;
    var m := SetField(buf, 4, 4, lo);
    SetFieldHere(buf, 4, 4, lo);
    SetFieldHere(m, 108, 4, hi);
    PatchElsewhere(m, 108, Le(hi, 4), 4, 4);
  }

  /** Storing a size changes no other field. */
  lemma SizeElsewhere(a: RawInode, v: nat, at: nat, w: nat)
    requires a.Valid() && at + w <= 128 && (at + w <= 4 || 8 <= at) && (at + w <= 108 || 112 <= at)
    ensures Field(a.SetSize(v).buf, at, w) == Field(a.buf, at, w)
  {
    hide Field;
    var lo, hi := v % 0x1_0000_0000, v / 0x1_0000_0000;
    PatchElsewhere(a.buf, 4, Le(lo, 4), at, w);
    PatchElsewhere(SetField(a.buf, 4, 4, lo), 108, Le(hi, 4), at, w);
  }

  lemma SetSizeEffect(a: RawInode, v: nat)
    requires a.Valid() && v < 0x1_0000_0000_0000_0000
    ensures var r := a.SetSize(v);
            && r.Mode() == a.Mode() && r.Size() == StoredSize(a, v) && r.LinksCount() == a.LinksCount()
            && forall j :: 0 <= j < 15 ==> r.IBlock(j) == a.IBlock(j)
  {
    hide Field, SetField;
    SizeElsewhere(a, v, 0, 2);
    SizeElsewhere(a, v, 26, 2);
    SizeStored(a.buf, v, a.IsReg());
    forall j | 0 <= j < 15 ensures a.SetSize(v).IBlock(j) == a.IBlock(j) { SizeElsewhere(a, v, 40 + 4 * j, 4); }
  }

  /** A size reads back as written exactly when the record is wide enough for it. */
  lemma SizeSurvives(a: RawInode, v: nat)
    requires a.Valid() && v < 0x1_0000_0000_0000_0000
    ensures a.SetSize(v).Size() == v <==> v < 0x1_0000_0000 || a.IsReg()
  {
    hide RawInode.SetSize, RawInode.Size, RawInode.IsReg;
    SetSizeEffect(a, v);
  }

  /** The 16-bit link count, and nothing the driver navigates by. */
  lemma SetLinksCountEffect(a: RawInode, v: nat)
    requires a.Valid()
    ensures a.SetLinksCount(v).LinksCount() == v % 0x1_0000 && SameShape(a, a.SetLinksCount(v))
  {
    hide Field;
    Widths();
    SetFieldMod(a.buf, 26, 2, v);
    BookkeepingKeepsShape(a, v);
  }

  lemma SetModeEffect(a: RawInode, v: nat)
    requires a.Valid() && v < 0x1_0000
    ensures var r := a.SetMode(v);
            && r.Mode() == v && Field(r.buf, 4, 4) == Field(a.buf, 4, 4) && Field(r.buf, 108, 4) == Field(a.buf, 108, 4)
            && forall j :: 0 <= j < 15 ==> r.IBlock(j) == a.IBlock(j)
  {
    Widths();
    SetFieldHere(a.buf, 0, 2, v);
    PatchElsewhere(a.buf, 0, Le(v, 2), 4, 4);
    PatchElsewhere(a.buf, 0, Le(v, 2), 108, 4);
    forall j | 0 <= j < 15 ensures a.SetMode(v).IBlock(j) == a.IBlock(j) {
      PatchElsewhere(a.buf, 0, Le(v, 2), 40 + 4 * j, 4);
    }
  }
}
