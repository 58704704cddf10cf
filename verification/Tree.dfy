/** The block-pointer tree of an inode: 12 direct slots and one single-, one double- and one
    triple-indirect slot.  A path names one pointer of the tree; a file block index names a leaf path. */
module Tree {
  import opened Bytes
  import Arith

  /** Slot s of the inode, or entry k of the pointer block that `up` leads to. */
  datatype Path = Slot(s: nat) | Sub(up: Path, k: nat)

  /** How many pointer blocks lie between this pointer and the data below it. */
  function Height(q: Path): int {
    match q
    case Slot(s) => if s < 12 then 0 else s - 11
    case Sub(up, _) => Height(up) - 1
  }

  predicate ValidPath(p: nat, q: Path) {
    match q
    case Slot(s) => s < 15
    case Sub(up, k) => ValidPath(p, up) && Height(up) > 0 && k < p
  }

  lemma {:induction false} HeightRange(p: nat, q: Path)
    requires ValidPath(p, q)
    ensures 0 <= Height(q) <= 3
  {
    if q.Sub? { HeightRange(p, q.up); }
  }

  /** Entry k of pointer block c. */
  function Entry(img: Img, c: nat, k: nat): nat {
    if c < |img| && 4 * k + 4 <= |img[c]| then Field(img[c], 4 * k, 4) else 0
  }

  /** The block the pointer at q names; 0 where the tree has no such pointer. */
  function At(img: Img, slots: seq<nat>, q: Path): nat {
    match q
    case Slot(s) => if s < |slots| then slots[s] else 0
    case Sub(up, k) => var c := At(img, slots, up); if c == 0 then 0 else Entry(img, c, k)
  }

  // File block indices and leaf paths

  /** Data blocks under one double-indirect block. */
  function DoubleCap(p: nat): (c: nat)
    ensures p > 0 ==> c > 0
  {
    p * p
  }

  /** Data blocks under one triple-indirect block. */
  function TripleCap(p: nat): nat { DoubleCap(p) * p }

  function Capacity(p: nat): nat { 12 + p + DoubleCap(p) + TripleCap(p) }

  function DoublePath(p: nat, d: nat): Path
    requires p > 0
  {
    Sub(Sub(Slot(13), d / p), d % p)
  }

  function TriplePath(p: nat, t: nat): Path
    requires p > 0
  {
    var c := DoubleCap(p);
    Sub(Sub(Sub(Slot(14), t / c), t % c / p), t % c % p)
  }

  function LeafPath(p: nat, index: nat): Path
    requires p > 0 && index < Capacity(p)
  {
    if index < 12 then Slot(index)
    else if index - 12 < p then Sub(Slot(12), index - 12)
    else if index - 12 - p < DoubleCap(p) then DoublePath(p, index - 12 - p)
    else TriplePath(p, index - 12 - p - DoubleCap(p))
  }

  /** Which path serves an index, range by range. */
  lemma LeafCases(p: nat, index: nat)
    requires p > 0
    ensures index < 12 ==> index < Capacity(p) && LeafPath(p, index) == Slot(index)
    ensures 12 <= index < 12 + p ==> index < Capacity(p) && LeafPath(p, index) == Sub(Slot(12), index - 12)
    ensures 12 + p <= index < 12 + p + DoubleCap(p) ==>
              index < Capacity(p) && LeafPath(p, index) == DoublePath(p, index - 12 - p)
    ensures 12 + p + DoubleCap(p) <= index < 12 + p + DoubleCap(p) + TripleCap(p) ==>
              index < Capacity(p) && LeafPath(p, index) == TriplePath(p, index - 12 - p - DoubleCap(p))
    ensures index >= 12 + p + DoubleCap(p) + TripleCap(p) ==> index >= Capacity(p)
  {
    hide DoubleCap, TripleCap, DoublePath, TriplePath;
  }

  function Join(high: nat, low: nat, base: nat): nat { high * base + low }

  /** The index a leaf path serves. */
  function IndexOf(p: nat, q: Path): int {
    match q
    case Slot(s) => s
    case Sub(Slot(_), k) => 12 + k
    case Sub(Sub(Slot(_), j), k) => 12 + p + Join(j, k, p)
    case Sub(Sub(Sub(_, i), j), k) => 12 + p + DoubleCap(p) + Join(i, Join(j, k, p), DoubleCap(p))
  }

  lemma DoublePathValid(p: nat, d: nat)
    requires p > 0 && d < DoubleCap(p)
    ensures ValidPath(p, DoublePath(p, d)) && Height(DoublePath(p, d)) == 0
    ensures IndexOf(p, DoublePath(p, d)) == 12 + p + d
  {
    Arith.DivMod(d, p);
    Arith.DivLess(d, p, p);
    assert Height(Sub(Slot(13), d / p)) == 1;
  }

  lemma TriplePathValid(p: nat, t: nat)
    requires p > 0 && t < TripleCap(p)
    ensures ValidPath(p, TriplePath(p, t)) && Height(TriplePath(p, t)) == 0
    ensures IndexOf(p, TriplePath(p, t)) == 12 + p + DoubleCap(p) + t
  {
    var c := DoubleCap(p);
    TripleDigits(p, t);
    hide DoubleCap;
    var u := Sub(Slot(14), t / c);
    assert Height(u) == 2 && ValidPath(p, u);
    assert Height(Sub(u, t % c / p)) == 1 && ValidPath(p, Sub(u, t % c / p));
  }

  lemma TripleDigits(p: nat, t: nat)
    requires p > 0 && t < TripleCap(p)
    ensures var c := DoubleCap(p);
            && t / c < p && t % c / p < p && t % c % p < p
            && t == (t / c) * c + ((t % c / p) * p + t % c % p)
  {
    var c := DoubleCap(p);
    Arith.DivMod(t, c);
    Arith.DivLess(t, c, p);
    Arith.DivMod(t % c, p);
    Arith.DivLess(t % c, p, p);
  }

  /** Every index has a valid leaf path, and only that index has it. */
  lemma LeafPathOfIndex(p: nat, index: nat)
    requires p > 0 && index < Capacity(p)
    ensures ValidPath(p, LeafPath(p, index)) && Height(LeafPath(p, index)) == 0
    ensures IndexOf(p, LeafPath(p, index)) == index
  {
    hide DoubleCap, DoublePath, TriplePath;
    if index >= 12 + p {
      var d := index - 12 - p;
      if d < DoubleCap(p) { DoublePathValid(p, d); } else { TriplePathValid(p, d - DoubleCap(p)); }
    }
  }

  /** Every valid leaf path serves some index: the four addressing regimes cover the tree. */
  lemma IndexOfLeafPath(p: nat, q: Path)
    requires p > 0 && ValidPath(p, q) && Height(q) == 0
    ensures 0 <= IndexOf(p, q) < Capacity(p) && LeafPath(p, IndexOf(p, q)) == q
  {
    LeafShapes(p, q);
    hide DoubleCap, DoublePath, TriplePath, ValidPath, Height, Join;
    if q.Sub? && q.up.Sub? {
      if q.up.up.Slot? {
        DoubleIndex(p, q.up.k, q.k);
      } else {
        TripleIndex(p, q.up.up.k, q.up.k, q.k);
      }
    }
  }

  /** A leaf path is in one of the four regimes. */
  lemma LeafShapes(p: nat, q: Path)
    requires ValidPath(p, q) && Height(q) == 0
    ensures || (q.Slot? && q.s < 12)
            || (q.Sub? && q.k < p && q.up == Slot(12))
            || (q.Sub? && q.k < p && q.up.Sub? && q.up.k < p && q.up.up == Slot(13))
            || (q.Sub? && q.k < p && q.up.Sub? && q.up.k < p && q.up.up.Sub? && q.up.up.k < p && q.up.up.up == Slot(14))
  {
    if q.Sub? {
      HeightRange(p, q.up);
      if q.up.Sub? {
        HeightRange(p, q.up.up);
        if q.up.up.Sub? {
          HeightRange(p, q.up.up.up);
          if q.up.up.up.Sub? { HeightRange(p, q.up.up.up.up); }
        }
      }
    }
  }

  lemma DoubleIndex(p: nat, j: nat, k: nat)
    requires j < p && k < p
    ensures Join(j, k, p) < DoubleCap(p)
    ensures DoublePath(p, Join(j, k, p)) == Sub(Sub(Slot(13), j), k)
  {
    Arith.DivModUnique(j, k, p);
    Arith.DivLess(j * p + k, p, p);
  }

  lemma TripleIndex(p: nat, i: nat, j: nat, k: nat)
    requires i < p && j < p && k < p
    ensures Join(i, Join(j, k, p), DoubleCap(p)) < TripleCap(p)
    ensures TriplePath(p, Join(i, Join(j, k, p), DoubleCap(p))) == Sub(Sub(Sub(Slot(14), i), j), k)
  {
    DoubleIndex(p, j, k);
    Arith.DivModUnique(j, k, p);
    var c := DoubleCap(p);
    Arith.DivModUnique(i, j * p + k, c);
    Arith.DivLess(i * c + (j * p + k), c, p);
  }

  lemma LeafPathInjective(p: nat, i: nat, j: nat)
    requires p > 0 && i < Capacity(p) && j < Capacity(p)
    ensures LeafPath(p, i) == LeafPath(p, j) ==> i == j
  {
    LeafPathOfIndex(p, i);
    LeafPathOfIndex(p, j);
  }

  /** The data block of a file block index, 0 for a hole or beyond the triple-indirect range. */
  function Leaf(img: Img, slots: seq<nat>, p: nat, index: nat): nat
    requires p > 0
  {
    if index < Capacity(p) then At(img, slots, LeafPath(p, index)) else 0
  }

  // What a write does to a tree

  /** Pointer blocks the tree walks through are the same in both images. */
  ghost predicate SamePointers(p: nat, a: Img, b: Img, slots: seq<nat>) {
    |a| == |b| &&
    forall u :: ValidPath(p, u) && Height(u) > 0 && 0 < At(a, slots, u) < |a| ==>
                  b[At(a, slots, u)] == a[At(a, slots, u)]
  }

  lemma {:induction false} AtUnchanged(p: nat, a: Img, b: Img, slots: seq<nat>, q: Path)
    requires SamePointers(p, a, b, slots) && ValidPath(p, q)
    ensures At(b, slots, q) == At(a, slots, q)
  {
    if q.Sub? { AtUnchanged(p, a, b, slots, q.up); }
  }

  /** A zeroed block, as an entry of nothing. */
  lemma ZeroEntries(img: Img, c: nat, k: nat)
    requires c < |img| && (forall i :: 0 <= i < |img[c]| ==> img[c][i] == 0)
    ensures Entry(img, c, k) == 0
  {
    if 4 * k + 4 <= |img[c]| { UnZeros(img[c][4 * k..4 * k + 4]); }
  }

  /** b and its slots have one more pointer than a: q0 now leads to nb. */
  ghost predicate Grafted(p: nat, a: Img, slots: seq<nat>, b: Img, slots': seq<nat>, q0: Path, nb: nat) {
    forall q :: ValidPath(p, q) ==> At(b, slots', q) == if q == q0 then nb else At(a, slots, q)
  }

  /** Filling an empty inode slot with a zeroed block. */
  lemma {:induction false} FillSlot(p: nat, a: Img, slots: seq<nat>, s: nat, nb: nat, q: Path)
    requires s < |slots| && slots[s] == 0 && 0 < nb < |a| && ValidPath(p, q)
    requires forall i :: 0 <= i < |a[nb]| ==> a[nb][i] == 0
    ensures At(a, slots[s := nb], q) == if q == Slot(s) then nb else At(a, slots, q)
  {
    if q.Sub? {
      FillSlot(p, a, slots, s, nb, q.up);
      if q.up == Slot(s) { ZeroEntries(a, nb, q.k); }
    }
  }

  /** Entry k of block c, rewritten. */
  function WithEntry(img: Img, c: nat, k: nat, v: nat): (r: Img)
    requires c < |img| && 4 * k + 4 <= |img[c]|
    ensures |r| == |img| && |r[c]| == |img[c]| && forall b :: 0 <= b < |img| && b != c ==> r[b] == img[b]
  {
    img[c := SetField(img[c], 4 * k, 4, v)]
  }

  lemma WithEntryReads(img: Img, c: nat, k: nat, v: u32, b: nat, j: nat)
    requires c < |img| && 4 * k + 4 <= |img[c]|
    ensures Entry(WithEntry(img, c, k, v), b, j) == if b == c && j == k then v else Entry(img, b, j)
  {
    if b == c && 4 * j + 4 <= |img[c]| {
      assert Pow256(4) == 256 * 256 * Pow256(2);
      if j == k {
        SetFieldHere(img[c], 4 * k, 4, v);
      } else {
        PatchElsewhere(img[c], 4 * k, Le(v, 4), 4 * j, 4);
      }
    }
  }

  /** No other path of this tree leads to block c. */
  ghost predicate OnlyAt(p: nat, img: Img, slots: seq<nat>, c: nat, q: Path) {
    forall r :: ValidPath(p, r) && At(img, slots, r) == c ==> r == q
  }

  /** Filling an empty entry of a pointer block the tree reaches only through u. */
  lemma {:induction false} FillEntry(p: nat, a: Img, slots: seq<nat>, u: Path, c: nat, k: nat, nb: u32, q: Path)
    requires ValidPath(p, u) && ValidPath(p, q) && At(a, slots, u) == c && 0 < c < |a|
    requires 4 * k + 4 <= |a[c]| && Entry(a, c, k) == 0 && OnlyAt(p, a, slots, c, u)
    requires 0 < nb < |a| && nb != c && forall i :: 0 <= i < |a[nb]| ==> a[nb][i] == 0
    ensures At(WithEntry(a, c, k, nb), slots, q) == if q == Sub(u, k) then nb else At(a, slots, q)
  {
    if q.Sub? {
      FillEntry(p, a, slots, u, c, k, nb, q.up);
      var x := At(a, slots, q.up);
      WithEntryReads(a, c, k, nb, At(WithEntry(a, c, k, nb), slots, q.up), q.k);
      if q.up == Sub(u, k) { ZeroEntries(a, nb, q.k); }
    }
  }

  /** A tree that does not pass through c at all does not see the write. */
  lemma {:induction false} EntryElsewhere(p: nat, a: Img, slots: seq<nat>, c: nat, k: nat, v: nat, q: Path)
    requires c < |a| && 4 * k + 4 <= |a[c]| && ValidPath(p, q)
    requires forall r :: ValidPath(p, r) && At(a, slots, r) != 0 ==> At(a, slots, r) != c
    ensures At(WithEntry(a, c, k, v), slots, q) == At(a, slots, q)
  {
    if q.Sub? { EntryElsewhere(p, a, slots, c, k, v, q.up); }
  }
}
