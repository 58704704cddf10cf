/** How a region of memory is cut into buddy blocks: page by page, always the largest block that starts
    there and fits. */
module Regions {
  import Arith
  import opened Bytes
  import opened Blocks

  lemma {:induction false} FirstScales(b: Block)
    ensures b.First() == b.index * Pow2(b.order)
    decreases b.order
  {
    if b.order > 0 { FirstScales(b.Low()); }
  }

  lemma NextTimes(i: nat, n: nat)
    ensures (i + 1) * n == i * n + n && (i - 1) * n == i * n - n
  {
  }

  lemma Neighbours(x: Block)
    ensures if x.index % 2 == 0 then x.Buddy().First() == x.First() + Pow2(x.order)
            else x.First() == x.Buddy().First() + Pow2(x.order)
    ensures x.Buddy().order == x.order
  {
    hide Block.First, Pow2;
    FirstScales(x);
    FirstScales(x.Buddy());
    NextTimes(x.index, Pow2(x.order));
  }

  /** A block is a run of consecutive pages. */
  lemma {:induction false} HasRange(b: Block, p: nat)
    ensures b.Has(p) <==> b.First() <= p < b.First() + Pow2(b.order)
    decreases b.order
  {
    if b.order > 0 {
      hide Block.Has, Block.First;
      Halves(b);
      HasRange(b.Low(), p);
      HasRange(b.High(), p);
      FirstScales(b);
      FirstScales(b.Low());
      FirstScales(b.High());
      Doubles(b.index, Pow2(b.order - 1));
    } else {
      assert Up(p, 0) == p;
    }
  }

  lemma Doubles(i: nat, n: nat)
    ensures i * (2 * n) == 2 * i * n == 2 * (i * n) && (2 * i + 1) * n == 2 * i * n + n
  {
  }

  /** Page c is the first page of a block of order o. */
  predicate StartsBlock(c: nat, o: nat) { Block(o, Up(c, o)).First() == c }

  lemma StartsHalf(c: nat, o: nat)
    requires o > 0
    ensures StartsBlock(c, o) <==> c % 2 == 0 && StartsBlock(c / 2, o - 1)
    ensures StartsBlock(c, o) ==> StartsBlock(c, o - 1)
  {
    hide Block.First;
    var i := Up(c, o);
    FirstScales(Block(o, i));
    FirstScales(Block(o - 1, i));
    Doubles(i, Pow2(o - 1));
    LowStarts(c, o);
  }

  lemma LowStarts(c: nat, o: nat)
    requires o > 0
    ensures StartsBlock(c, o) ==> StartsBlock(c, o - 1)
  {
    if StartsBlock(c, o) { FirstIsHere(Block(o, Up(c, o)).Low()); }
  }

  /** The largest order, up to o, of a block that starts at page c and has at most n pages. */
  function Largest(c: nat, n: nat, o: nat): (r: nat)
    ensures r <= o && (r > 0 ==> StartsBlock(c, r) && Pow2(r) <= n)
    ensures forall k :: r < k <= o ==> !(StartsBlock(c, k) && Pow2(k) <= n)
  {
    if o == 0 || (StartsBlock(c, o) && Pow2(o) <= n) then o else Largest(c, n, o - 1)
  }

  // The order the allocator computes from the bits of the address and of the remaining size

  /** `u64::trailing_zeros`. */
  function TrailingZeros(x: nat): nat {
    if x == 0 then 64 else if x % 2 == 1 then 0 else 1 + TrailingZeros(x / 2)
  }

  /** `63 - leading_zeros`. */
  function Log2(x: nat): nat {
    if x < 2 then 0 else 1 + Log2(x / 2)
  }

  function RegionOrder(addr: nat, remaining: nat): nat {
    Arith.Max(Arith.Min(Arith.Min(TrailingZeros(addr), Log2(remaining)), 12 + TOP), 12)
  }

  lemma {:induction false} StartsByZeros(c: nat, o: nat)
    requires c > 0
    ensures StartsBlock(c, o) <==> o <= TrailingZeros(c)
    decreases o
  {
    hide StartsBlock;
    if o > 0 {
      StartsHalf(c, o);
      if c % 2 == 0 { StartsByZeros(c / 2, o - 1); }
    } else {
      PageStarts(c);
    }
  }

  lemma PageStarts(c: nat)
    ensures StartsBlock(c, 0)
  {
  }

  lemma {:induction false} ZeroStarts(o: nat)
    ensures StartsBlock(0, o)
  {
    hide StartsBlock;
    if o > 0 { StartsHalf(0, o); ZeroStarts(o - 1); } else { PageStarts(0); }
  }

  lemma {:induction false} LogFits(x: nat, o: nat)
    requires x > 0
    ensures Pow2(o) <= x <==> o <= Log2(x)
    decreases o
  {
    if o > 0 && x > 1 { LogFits(x / 2, o - 1); }
  }

  lemma {:induction false} ZerosShift(c: nat, n: nat)
    requires c > 0
    ensures TrailingZeros(Pow2(n) * c) == n + TrailingZeros(c)
  {
    if n > 0 {
      ZerosShift(c, n - 1);
      var x := Pow2(n - 1) * c;
      Twice(Pow2(n - 1), c);
      assert (2 * x) % 2 == 0 && 2 * x / 2 == x;
    }
  }

  lemma Twice(a: nat, b: nat)
    ensures 2 * a * b == 2 * (a * b) && (a > 0 && b > 0 ==> a * b > 0)
  {
  }

  lemma {:induction false} PowersAdd(a: nat, b: nat)
    ensures Pow2(a + b) == Pow2(a) * Pow2(b)
  {
    if a > 0 { PowersAdd(a - 1, b); Twice(Pow2(a - 1), Pow2(b)); }
  }

  lemma Page()
    ensures Pow2(12) == 4096
  {
    assert Pow2(4) == 16;
    PowersAdd(4, 4);
    PowersAdd(8, 4);
  }

  /** The computed order is the largest block that starts at the page and fits. */
  lemma OrderIsLargest(c: nat, remaining: nat)
    requires remaining >= 4096
    ensures RegionOrder(4096 * c, remaining) == 12 + Largest(c, remaining / 4096, TOP)
  {
    hide StartsBlock, TrailingZeros, Log2;
    Page();
    PageStarts(c);
    var r := RegionOrder(4096 * c, remaining) - 12;
    LogFits(remaining, 12);
    forall k: nat | k <= TOP ensures StartsBlock(c, k) && Pow2(k) <= remaining / 4096 <==> k <= r {
      PowersAdd(12, k);
      LogFits(remaining, 12 + k);
      if c > 0 {
        ZerosShift(c, 12);
        StartsByZeros(c, k);
      } else {
        ZeroStarts(k);
        ZeroIs64();
      }
    }
    assert StartsBlock(c, r) && Pow2(r) <= remaining / 4096;
    var l := Largest(c, remaining / 4096, TOP);
    assert l > 0 ==> l <= r;
  }

  lemma ZeroIs64()
    ensures TrailingZeros(0) == 64
  {
  }

  lemma {:induction false} ZerosDivide(x: nat, o: nat)
    requires x > 0 && o <= TrailingZeros(x)
    ensures x % Pow2(o) == 0
    decreases o
  {
    hide TrailingZeros;
    var c := Quotients(x, o);
    Multiple(c, Pow2(o));
  }

  lemma {:induction false} Quotients(x: nat, o: nat) returns (c: nat)
    requires x > 0 && o <= TrailingZeros(x)
    ensures x == c * Pow2(o)
    decreases o
  {
    if o == 0 {
      c := x;
    } else {
      c := Quotients(x / 2, o - 1);
      Doubles(c, Pow2(o - 1));
    }
  }

  lemma Multiple(c: nat, n: nat)
    requires n > 0
    ensures c * n % n == 0
  {
    Arith.DivModUnique(c, 0, n);
  }

  /** A block is cut at a multiple of its own size exactly when the region started on a page boundary:
      the lower bound on the order overrides the alignment. */
  lemma CutIsAligned(addr: nat, remaining: nat)
    requires remaining >= 4096
    ensures addr % Pow2(RegionOrder(addr, remaining)) == 0 <==> addr % 4096 == 0
    ensures addr % 4096 != 0 ==> RegionOrder(addr, remaining) == 12
  {
    hide TrailingZeros, Log2, Pow2;
    Page();
    if addr > 0 && TrailingZeros(addr) >= 12 {
      LogFits(remaining, 12);
      ZerosDivide(addr, 12);
      ZerosDivide(addr, RegionOrder(addr, remaining));
    } else if addr > 0 {
      if addr % 4096 == 0 { ZerosShift(addr / 4096, 12); }
    } else {
      Multiple(0, Pow2(RegionOrder(addr, remaining)));
    }
  }

  // The whole region

  /** The block cut at page c when the region ends at page `last`. */
  function Piece(c: nat, last: nat): Block
    requires c < last
  {
    var o := Largest(c, last - c, TOP);
    Block(o, Up(c, o))
  }

  lemma PieceHere(c: nat, last: nat)
    requires c < last
    ensures var b := Piece(c, last);
            b.order <= TOP && b.First() == c && c + Pow2(b.order) <= last
    ensures var b := Piece(c, last);
            b.order == TOP || b.index % 2 == 1 || c + 2 * Pow2(b.order) > last
  {
    hide Block.First;
    PageStarts(c);
    var b := Piece(c, last);
    if b.order < TOP && b.index % 2 == 0 {
      Siblings(b);
      UpPlus(c, b.order, 1);
      assert Up(b.index, 1) == b.index / 2;
      LowFirst(b.Parent());
      assert StartsBlock(c, b.order + 1);
    }
  }

  lemma LowFirst(x: Block)
    requires x.order > 0
    ensures x.First() == x.Low().First()
  {
  }

  function Pieces(c: nat, last: nat): set<Block>
    decreases last - c
  {
    if c >= last then {} else {Piece(c, last)} + Pieces(c + Pow2(Piece(c, last).order), last)
  }

  /** The last block cut. */
  function LastPiece(c: nat, last: nat): Block
    requires c < last
    decreases last - c
  {
    var next := c + Pow2(Piece(c, last).order);
    if next >= last then Piece(c, last) else LastPiece(next, last)
  }

  lemma {:induction false} LastPieceEnds(c: nat, last: nat)
    requires c < last
    ensures LastPiece(c, last) in Pieces(c, last)
    ensures LastPiece(c, last).First() + Pow2(LastPiece(c, last).order) == last
    decreases last - c
  {
    hide Block.First, Largest, Piece, Pow2;
    PieceHere(c, last);
    var next := c + Pow2(Piece(c, last).order);
    if next < last { LastPieceEnds(next, last); }
  }

  /** Only the first piece starts where the region starts, and only the last ends where it ends. */
  lemma EndPieces(c: nat, last: nat, y: Block)
    requires c < last && y in Pieces(c, last)
    ensures y.First() == c ==> y == Piece(c, last)
    ensures y.First() + Pow2(y.order) == last ==> y == LastPiece(c, last)
  {
    hide Block.First, Block.Has, Largest, Piece, LastPiece, Pieces, Pow2, AllApart;
    PieceHere(c, last);
    PieceIsOne(c, last);
    LastPieceEnds(c, last);
    PiecesCover(c, last);
    HasRange(y, c);
    HasRange(y, last - 1);
    HasRange(Piece(c, last), c);
    HasRange(LastPiece(c, last), last - 1);
    if y.First() == c { OneHolder(Pieces(c, last), y, Piece(c, last), c); }
    if y.First() + Pow2(y.order) == last { OneHolder(Pieces(c, last), y, LastPiece(c, last), last - 1); }
  }

  lemma PieceIsOne(c: nat, last: nat)
    requires c < last
    ensures Piece(c, last) in Pieces(c, last)
  {
  }

  lemma OneHolder(s: set<Block>, x: Block, y: Block, p: nat)
    requires AllApart(s) && x in s && y in s && x.Has(p) && y.Has(p)
    ensures x == y
  {
    hide Block.Has;
  }

  /** x lies in the pages from c up to `last`, and could not have been cut larger. */
  ghost predicate CutAt(x: Block, c: nat, last: nat) {
    && x.order <= TOP && c <= x.First() && x.First() + Pow2(x.order) <= last
    && (x.order == TOP || x.index % 2 == 1 || x.First() + 2 * Pow2(x.order) > last)
  }

  lemma {:induction false} PiecesCut(c: nat, last: nat)
    ensures forall x :: x in Pieces(c, last) ==> CutAt(x, c, last)
    decreases last - c
  {
    hide Block.First, Largest;
    if c < last {
      PieceHere(c, last);
      PiecesCut(c + Pow2(Piece(c, last).order), last);
    }
  }

  /** The pieces are the region's pages, each once. */
  lemma {:induction false} PiecesCover(c: nat, last: nat)
    ensures AllApart(Pieces(c, last)) && forall p: nat :: Covers(Pieces(c, last), p) <==> c <= p < last
    decreases last - c
  {
    hide Block.First, Largest, Block.Has, Piece;
    if c < last {
      var b := Piece(c, last);
      var mid := c + Pow2(b.order);
      PieceHere(c, last);
      PiecesCover(mid, last);
      forall p: nat ensures b.Has(p) <==> c <= p < mid { HasRange(b, p); }
      JoinApart(Pieces(mid, last), b);
      JoinCover(Pieces(mid, last), b);
    }
  }

  lemma JoinApart(s: set<Block>, b: Block)
    requires AllApart(s) && forall p: nat :: b.Has(p) ==> !Covers(s, p)
    ensures AllApart({b} + s)
  {
    hide Block.Has;
    forall x | x in s ensures Apart(x, b) && Apart(b, x) {
      forall p: nat ensures !(x.Has(p) && b.Has(p)) { }
    }
  }

  lemma JoinCover(s: set<Block>, b: Block)
    ensures forall p: nat :: Covers({b} + s, p) <==> b.Has(p) || Covers(s, p)
  {
    hide Block.Has;
    forall p: nat ensures Covers({b} + s, p) <==> b.Has(p) || Covers(s, p) {
      if b.Has(p) { assert b in {b} + s; }
      if Covers(s, p) { var x :| x in s && x.Has(p); assert x in {b} + s; }
    }
  }

  /** Cutting leaves nothing to merge. */
  lemma PiecesMaximal(c: nat, last: nat)
    ensures NoBuddies(Pieces(c, last))
  {
    hide Block.First, Pieces;
    PiecesCut(c, last);
    forall x | x in Pieces(c, last) && x.order < TOP ensures x.Buddy() !in Pieces(c, last) {
      if x.Buddy() in Pieces(c, last) { NotBoth(x, c, last); }
    }
  }

  lemma NotBoth(x: Block, c: nat, last: nat)
    requires CutAt(x, c, last) && x.order < TOP
    ensures !CutAt(x.Buddy(), c, last)
  {
    hide Block.First, Pow2;
    Neighbours(x);
  }

  /** A free block is the buddy of the region's first or last piece, small enough to be merged with it. */
  ghost predicate Mends(f: set<Block>, c: nat, last: nat) {
    && c < last
    && ( || (Piece(c, last).order < TOP && Piece(c, last).Buddy() in f)
         || (LastPiece(c, last).order < TOP && LastPiece(c, last).Buddy() in f))
  }

  /** Cutting a vacant region beside a set with nothing to merge leaves something to merge exactly when the
      buddy of its first or last piece is free: only the ends can meet their buddies. */
  lemma MaximalExactly(f: set<Block>, c: nat, last: nat)
    requires NoBuddies(f) && forall p: nat :: c <= p < last ==> !Covers(f, p)
    ensures NoBuddies(f + Pieces(c, last)) <==> !Mends(f, c, last)
  {
    hide Block.Has, Block.First, Pieces, Piece, LastPiece, Covers;
    PiecesMaximal(c, last);
    PiecesCut(c, last);
    forall x | x in f && x.Buddy() in Pieces(c, last) && x.order < TOP ensures Mends(f, c, last) {
      AtAnEnd(f, x, c, last);
    }
    if c < last && Mends(f, c, last) {
      PieceIsOne(c, last);
      LastPieceEnds(c, last);
    }
    if !Mends(f, c, last) {
      forall x | x in f + Pieces(c, last) && x.order < TOP ensures x.Buddy() !in f + Pieces(c, last) { Siblings(x); }
    }
  }

  lemma AtAnEnd(f: set<Block>, x: Block, c: nat, last: nat)
    requires x in f && x.order < TOP && x.Buddy() in Pieces(c, last) && forall p: nat :: c <= p < last ==> !Covers(f, p)
    ensures Mends(f, c, last)
  {
    hide Block.Has, Block.First, Pieces, Pow2, Piece, LastPiece;
    var y := x.Buddy();
    Siblings(x);
    Neighbours(x);
    PiecesCut(c, last);
    EndPieces(c, last, y);
    var p := if x.First() < y.First() then y.First() - 1 else x.First();
    HasRange(x, p);
    assert Covers(f, p);
  }

  /** Two regions that touch are not merged: together they can hold a free pair of buddies, and so an
      aligned stretch of free memory that no single free block holds. */
  lemma TouchingRegions(i: nat)
    ensures var s := Pieces(2 * i, 2 * i + 1) + Pieces(2 * i + 1, 2 * i + 2);
            && AllApart(s) && !NoBuddies(s) && (forall x :: x in s ==> x.order < 1)
            && forall p: nat :: Block(1, i).Has(p) ==> Covers(s, p)
  {
    hide Pieces, Block.Has, AllApart, NoBuddies, Covers;
    OnePage(2 * i);
    OnePage(2 * i + 1);
    var x := Block(1, i);
    Halves(x);
    assert Pieces(2 * i, 2 * i + 1) + Pieces(2 * i + 1, 2 * i + 2) == {x.Low(), x.High()};
    BothApart(x.Low(), x.High());
    Paired({x.Low(), x.High()}, x.Low());
    HalvesCover(x);
  }

  lemma HalvesCover(x: Block)
    requires x.order > 0
    ensures forall p: nat :: x.Has(p) ==> Covers({x.Low(), x.High()}, p)
  {
    hide Block.Has;
    Halves(x);
    assert x.Low() in {x.Low(), x.High()} && x.High() in {x.Low(), x.High()};
  }

  lemma OnePage(c: nat)
    ensures Pieces(c, c + 1) == {Block(0, c)}
  {
    hide Block.First;
    PieceHere(c, c + 1);
    var b := Piece(c, c + 1);
    assert Pow2(b.order) == 1;
    FirstScales(b);
    assert Pieces(c + 1, c + 1) == {};
  }

  lemma FourPages(o: nat)
    requires o > 1
    ensures Pow2(o) >= 4
  {
  }

  lemma TwoPages(i: nat)
    ensures Pieces(2 * i, 2 * i + 2) == {Block(1, i)}
  {
    hide Block.First, Largest, StartsBlock, Piece;
    var b := Piece(2 * i, 2 * i + 2);
    if b.order > 1 { FourPages(b.order); }
    PieceHere(2 * i, 2 * i + 2);
    FirstScales(b);
    assert Pow2(0) == 1 && Pow2(1) == 2;
    assert Pieces(2 * i + 2, 2 * i + 2) == {};
  }

  lemma BothApart(x: Block, y: Block)
    requires Apart(x, y)
    ensures AllApart({x, y})
  {
    hide Block.Has;
  }

  lemma Paired(s: set<Block>, x: Block)
    requires x in s && x.Buddy() in s && x.order < TOP
    ensures !NoBuddies(s)
  {
  }

  // How many blocks of each size

  /** The blocks of order k. */
  ghost function OfOrder(s: set<Block>, k: nat): set<Block> {
    set x | x in s && x.order == k
  }

  /** Three blocks of one order below the top: the middle one would have been cut with its buddy. */
  lemma NoThird(c: nat, last: nat, x: Block, y: Block, z: Block)
    requires x in Pieces(c, last) && y in Pieces(c, last) && z in Pieces(c, last)
    requires x.order == y.order == z.order < TOP && x.index < y.index
    ensures z.index <= y.index
  {
    hide Block.Has, Block.First, Pieces, Covers, NoBuddies, AllApart, Pow2;
    var s, up := Pieces(c, last), y.Parent();
    PiecesCover(c, last);
    if z.index > y.index {
      forall p: nat | up.Has(p) ensures Covers(s, p) { Between(c, last, x, y, z, p); }
      PiecesMaximal(c, last);
      FreeRangeIsOneBlock(s, up);
      var w :| w in s && w.order >= up.order && Inside(up, w);
      Siblings(y);
      Halves(up);
      SmallerIsOut(s, w, y);
    }
  }

  lemma Between(c: nat, last: nat, x: Block, y: Block, z: Block, p: nat)
    requires x in Pieces(c, last) && z in Pieces(c, last) && x.order == y.order == z.order && y.Parent().Has(p)
    requires x.index < y.index < z.index
    ensures c <= p < last
  {
    hide Block.Has, Block.First, Pieces, Pow2, CutAt;
    PiecesCut(c, last);
    CutWithin(x, c, last);
    CutWithin(z, c, last);
    Siblings(y);
    Halves(y.Parent());
    HasRange(y, p);
    HasRange(y.Buddy(), p);
    FirstScales(x);
    FirstScales(y);
    FirstScales(y.Buddy());
    FirstScales(z);
    var n := Pow2(x.order);
    Arith.MulMono(x.index, y.Buddy().index, n);
    Arith.MulMono(y.Buddy().index, z.index, n);
    Arith.MulMono(x.index, y.index, n);
    Arith.MulMono(y.index, z.index, n);
  }

  lemma CutWithin(x: Block, c: nat, last: nat)
    requires CutAt(x, c, last)
    ensures c <= x.First() && x.First() + Pow2(x.order) <= last
  {
  }

  /** A region gives at most two blocks of each order below the top. */
  lemma AtMostTwo(c: nat, last: nat, k: nat)
    requires k < TOP
    ensures |OfOrder(Pieces(c, last), k)| <= 2
  {
    hide Pieces;
    var s := OfOrder(Pieces(c, last), k);
    if |s| > 2 {
      var x :| x in s;
      assert |s - {x}| == |s| - 1;
      var y :| y in s - {x};
      assert |s - {x} - {y}| == |s| - 2;
      var z :| z in s - {x} - {y};
      Sorted3(c, last, x, y, z);
      Sorted3(c, last, y, x, z);
    }
  }

  lemma Sorted3(c: nat, last: nat, x: Block, y: Block, z: Block)
    requires x in Pieces(c, last) && y in Pieces(c, last) && z in Pieces(c, last)
    requires x.order == y.order == z.order < TOP && x != y && y != z && x != z
    ensures x.index > y.index
  {
    hide Pieces;
    if x.index < y.index {
      NoThird(c, last, x, y, z);
      if z.index < x.index { NoThird(c, last, z, x, y); } else { NoThird(c, last, x, z, y); }
    }
  }

  /** A region below block 2 of the top order gives at most two of those as well. */
  lemma AtMostTwoAtTop(c: nat, last: nat)
    requires last <= 2 * Pow2(TOP)
    ensures |OfOrder(Pieces(c, last), TOP)| <= 2
  {
    hide Pieces, Block.First, Pow2;
    PiecesCut(c, last);
    var s := OfOrder(Pieces(c, last), TOP);
    forall x | x in s ensures x in {Block(TOP, 0), Block(TOP, 1)} {
      CutWithin(x, c, last);
      FirstScales(x);
      if x.index >= 2 { Arith.MulMono(2, x.index, Pow2(TOP)); }
    }
    Subset2(s, Block(TOP, 0), Block(TOP, 1));
  }

  lemma Subset2(s: set<Block>, x: Block, y: Block)
    requires s <= {x, y}
    ensures |s| <= 2
  {
    if x in s {
      if y in s { assert s == {x, y}; } else { assert s == {x}; }
    } else if y in s {
      assert s == {y};
    } else {
      assert s == {};
    }
  }
}
