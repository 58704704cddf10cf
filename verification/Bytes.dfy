/** Bytes, little-endian fields inside byte buffers, and byte-packed bitmaps
    (bit n lives in byte n / 8 under mask 1 << n % 8). */
module Bytes {
  import opened Arith

  datatype Option<+T> = None | Some(value: T)

  type byte = x: int | 0 <= x < 256
  type u32 = x: int | 0 <= x < 0x1_0000_0000

  /** A device image: one byte string a block. */
  type Img = seq<seq<byte>>

  // Little-endian fields

  function Pow256(w: nat): (p: nat)
    ensures p > 0
  {
    if w == 0 then 1 else 256 * Pow256(w - 1)
  }

  lemma Widths()
    ensures Pow256(1) == 256 && Pow256(2) == 0x1_0000 && Pow256(4) == 0x1_0000_0000
  {
    assert Pow256(4) == 256 * 256 * Pow256(2);
  }

  /** `to_le_bytes` of the low w bytes of v. */
  function Le(v: nat, w: nat): (s: seq<byte>)
    ensures |s| == w
    decreases w
  {
    if w == 0 then [] else [v % 256] + Le(v / 256, w - 1)
  }

  /** `from_le_bytes`. */
  function Un(s: seq<byte>): (v: nat)
    ensures v < Pow256(|s|)
  {
    if s == [] then 0 else s[0] + 256 * Un(s[1..])
  }

  lemma {:induction false} UnLe(v: nat, w: nat)
    requires v < Pow256(w)
    ensures Un(Le(v, w)) == v
    decreases w
  {
    if w > 0 {
      UnLe(v / 256, w - 1);
      assert Le(v, w)[1..] == Le(v / 256, w - 1);
    }
  }

  /** A value too wide for its field loses its high bytes. */
  lemma {:induction false} UnLeMod(v: nat, w: nat)
    ensures Un(Le(v, w)) == v % Pow256(w)
    decreases w
  {
    if w > 0 {
      UnLeMod(v / 256, w - 1);
      assert Le(v, w)[1..] == Le(v / 256, w - 1);
      var p := Pow256(w - 1);
      DivTwice(v, 256, p);
      DivMod(v, 256 * p);
      DivMod(v / 256, p);
      assert v / (256 * p) * (256 * p) == 256 * (v / 256 / p * p);
    }
  }

  lemma SetFieldMod(buf: seq<byte>, off: nat, w: nat, v: nat)
    requires off + w <= |buf|
    ensures Field(SetField(buf, off, w, v), off, w) == v % Pow256(w)
  {
    UnLeMod(v, w);
    assert SetField(buf, off, w, v)[off..off + w] == Le(v, w);
  }

  /** The sum of the first n bytes of s, byte k weighing 256 to the k. */
  function Weighed(s: seq<byte>, n: nat): nat
    requires n <= |s|
  {
    if n == 0 then 0 else Weighed(s, n - 1) + s[n - 1] * Pow256(n - 1)
  }

  lemma {:induction false} WeighedShift(s: seq<byte>, n: nat)
    requires 1 <= n <= |s|
    ensures Weighed(s, n) == s[0] + 256 * Weighed(s[1..], n - 1)
  {
    if n > 1 {
      WeighedShift(s, n - 1);
      var p := Pow256(n - 2);
      assert Pow256(n - 1) == 256 * p;
      assert s[n - 1] * (256 * p) == 256 * (s[n - 1] * p);
    }
  }

  /** The least significant byte comes first when a field is read. */
  lemma {:induction false} UnIsLittleEndian(s: seq<byte>)
    ensures Un(s) == Weighed(s, |s|)
  {
    if s != [] {
      UnIsLittleEndian(s[1..]);
      WeighedShift(s, |s|);
    }
  }

  /** And when it is written: byte k is digit k of the value to base 256. */
  lemma {:induction false} LeIsLittleEndian(v: nat, w: nat, k: nat)
    requires k < w
    ensures Le(v, w)[k] == v / Pow256(k) % 256
    decreases w
  {
    if k > 0 {
      LeIsLittleEndian(v / 256, w - 1, k - 1);
      var p := Pow256(k - 1);
      DivTwice(v, 256, p);
    }
  }

  /** The buffer with `bytes` copied over it at `off`. */
  function Patch(buf: seq<byte>, off: nat, bytes: seq<byte>): (r: seq<byte>)
    requires off + |bytes| <= |buf|
    ensures |r| == |buf|
    ensures forall i :: 0 <= i < |r| ==> r[i] == if off <= i < off + |bytes| then bytes[i - off] else buf[i]
  {
    buf[..off] + bytes + buf[off + |bytes|..]
  }

  /** The w-byte little-endian field at `off`. */
  function Field(buf: seq<byte>, off: nat, w: nat): (v: nat)
    requires off + w <= |buf|
    ensures v < Pow256(w)
  {
    Un(buf[off..off + w])
  }

  function U16(b0: nat, b1: nat): nat { b0 + 0x100 * b1 }

  function U32(b0: nat, b1: nat, b2: nat, b3: nat): nat { b0 + 0x100 * b1 + 0x1_0000 * b2 + 0x100_0000 * b3 }

  lemma TwoBytes(s: seq<byte>)
    requires |s| == 2
    ensures Weighed(s, 2) == U16(s[0], s[1])
  {
    assert Weighed(s, 2) == Weighed(s, 1) + s[1] * Pow256(1) && Weighed(s, 1) == s[0] * Pow256(0);
  }

  lemma FourBytes(s: seq<byte>)
    requires |s| == 4
    ensures Weighed(s, 4) == U32(s[0], s[1], s[2], s[3])
  {
    Widths();
    assert Pow256(3) == 0x100_0000 && Pow256(0) == 1;
    assert Weighed(s, 4) == Weighed(s, 2) + s[2] * Pow256(2) + s[3] * Pow256(3);
    assert Weighed(s, 2) == Weighed(s, 1) + s[1] * Pow256(1) && Weighed(s, 1) == s[0] * Pow256(0);
  }

  /** Two- and four-byte fields, byte by byte. */
  lemma FieldBytes(buf: seq<byte>, off: nat)
    ensures off + 2 <= |buf| ==> Field(buf, off, 2) == U16(buf[off], buf[off + 1])
    ensures off + 4 <= |buf| ==> Field(buf, off, 4) == U32(buf[off], buf[off + 1], buf[off + 2], buf[off + 3])
  {
    hide Un, Weighed, U16, U32;
    if off + 2 <= |buf| {
      UnIsLittleEndian(buf[off..off + 2]);
      TwoBytes(buf[off..off + 2]);
    }
    if off + 4 <= |buf| {
      UnIsLittleEndian(buf[off..off + 4]);
      FourBytes(buf[off..off + 4]);
    }
  }

  function SetField(buf: seq<byte>, off: nat, w: nat, v: nat): (r: seq<byte>)
    requires off + w <= |buf|
    ensures |r| == |buf|
  {
    Patch(buf, off, Le(v, w))
  }

  lemma SetFieldHere(buf: seq<byte>, off: nat, w: nat, v: nat)
    requires off + w <= |buf| && v < Pow256(w)
    ensures Field(SetField(buf, off, w, v), off, w) == v
  {
    UnLe(v, w);
    assert SetField(buf, off, w, v)[off..off + w] == Le(v, w);
  }

  lemma PatchElsewhere(buf: seq<byte>, off: nat, bytes: seq<byte>, at: nat, w: nat)
    requires off + |bytes| <= |buf| && at + w <= |buf|
    requires at + w <= off || off + |bytes| <= at
    ensures Patch(buf, off, bytes)[at..at + w] == buf[at..at + w]
    ensures Field(Patch(buf, off, bytes), at, w) == Field(buf, at, w)
  {
    assert Patch(buf, off, bytes)[at..at + w] == buf[at..at + w];
  }

  /** All-zero buffers read as zero everywhere. */
  function Zeros(n: nat): (s: seq<byte>)
    ensures |s| == n && forall i :: 0 <= i < n ==> s[i] == 0
  {
    seq(n, _ => 0)
  }

  lemma {:induction false} UnZeros(s: seq<byte>)
    requires forall i :: 0 <= i < |s| ==> s[i] == 0
    ensures Un(s) == 0
  {
    if s != [] { UnZeros(s[1..]); }
  }

  // Bits of a byte

  function Pow2(k: nat): (m: nat)
    ensures m > 0
  {
    if k == 0 then 1 else 2 * Pow2(k - 1)
  }

  /** `b & (1 << k) != 0`. */
  predicate ByteBit(b: nat, k: nat) {
    if k == 0 then b % 2 == 1 else ByteBit(b / 2, k - 1)
  }

  /** Bit k is binary digit k: the least significant bit comes first. */
  lemma {:induction false} BitIsDigit(b: nat, k: nat)
    ensures ByteBit(b, k) <==> b / Pow2(k) % 2 == 1
  {
    if k > 0 {
      BitIsDigit(b / 2, k - 1);
      DivTwice(b, 2, Pow2(k - 1));
    }
  }

  lemma {:induction false} ZeroByte(k: nat)
    ensures !ByteBit(0, k)
  {
    if k > 0 { ZeroByte(k - 1); }
  }

  lemma {:induction false} SetBitFits(b: nat, k: nat, w: nat)
    requires k < w && b < Pow2(w)
    ensures ByteBit(b, k) ==> Pow2(k) <= b
    ensures !ByteBit(b, k) ==> b + Pow2(k) < Pow2(w)
  {
    if k > 0 { SetBitFits(b / 2, k - 1, w - 1); }
  }

  /** `b | (1 << k)`. */
  function ByteSet(b: byte, k: nat): (r: byte)
    requires k < 8
  {
    SetBitFits(b, k, 8);
    assert Pow2(8) == 2 * 2 * Pow2(6) == 16 * Pow2(4) == 64 * Pow2(2) == 256;
    if ByteBit(b, k) then b else b + Pow2(k)
  }

  /** `b & !(1 << k)`. */
  function ByteClear(b: byte, k: nat): (r: byte)
    requires k < 8
  {
    assert Pow2(8) == 2 * 2 * Pow2(6) == 16 * Pow2(4) == 64 * Pow2(2) == 256;
    SetBitFits(b, k, 8);
    if ByteBit(b, k) then b - Pow2(k) else b
  }

  lemma {:induction false} FlipBit(b: nat, k: nat, j: nat)
    requires !ByteBit(b, k)
    ensures ByteBit(b + Pow2(k), j) == (j == k || ByteBit(b, j))
  {
    if k > 0 {
      assert (b + Pow2(k)) / 2 == b / 2 + Pow2(k - 1);
      if j > 0 { FlipBit(b / 2, k - 1, j - 1); }
    } else {
      assert j > 0 ==> (b + 1) / 2 == b / 2;
    }
  }

  lemma {:induction false} UnflipBit(b: nat, k: nat)
    requires ByteBit(b, k)
    ensures Pow2(k) <= b && !ByteBit(b - Pow2(k), k)
  {
    if k > 0 {
      UnflipBit(b / 2, k - 1);
      assert (b - Pow2(k)) / 2 == b / 2 - Pow2(k - 1);
    }
  }

  // Byte-packed bitmaps

  /** Bit n; out of range reads as clear. */
  predicate BitAt(bits: seq<byte>, n: nat) {
    n / 8 < |bits| && ByteBit(bits[n / 8], n % 8)
  }

  function SetBit(bits: seq<byte>, n: nat): (r: seq<byte>)
    requires n / 8 < |bits|
    ensures |r| == |bits|
    ensures forall m: nat :: BitAt(r, m) == (m == n || BitAt(bits, m))
  {
    var r := bits[n / 8 := ByteSet(bits[n / 8], n % 8)];
    assert forall m: nat :: BitAt(r, m) == (m == n || BitAt(bits, m)) by {
      forall m: nat ensures BitAt(r, m) == (m == n || BitAt(bits, m)) {
        if m / 8 == n / 8 && !ByteBit(bits[n / 8], n % 8) { FlipBit(bits[n / 8], n % 8, m % 8); }
      }
    }
    r
  }

  function ClearBit(bits: seq<byte>, n: nat): (r: seq<byte>)
    requires n / 8 < |bits|
    ensures |r| == |bits|
    ensures forall m: nat :: BitAt(r, m) == (m != n && BitAt(bits, m))
  {
    var r := bits[n / 8 := ByteClear(bits[n / 8], n % 8)];
    assert forall m: nat :: BitAt(r, m) == (m != n && BitAt(bits, m)) by {
      forall m: nat ensures BitAt(r, m) == (m != n && BitAt(bits, m)) {
        if m / 8 == n / 8 && ByteBit(bits[n / 8], n % 8) {
          UnflipBit(bits[n / 8], n % 8);
          FlipBit(bits[n / 8] - Pow2(n % 8), n % 8, m % 8);
        }
      }
    }
    r
  }

  /** Clear bits among the first `valid`. */
  function CountClear(bits: seq<byte>, valid: nat): (c: nat)
    ensures c <= valid
  {
    if valid == 0 then 0
    else CountClear(bits, valid - 1) + if BitAt(bits, valid - 1) then 0 else 1
  }
}
