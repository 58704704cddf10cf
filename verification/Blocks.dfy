/** Buddy blocks as sets: what splitting, merging and coalescing do to a set of free blocks, apart from
    how an allocator stores it.  Orders count from one page; block i of an order is the pages whose
    number, halved that many times, is i. */
module Blocks {
  const TOP := 16

  /** p halved n times. */
  function Up(p: nat, n: nat): nat {
    if n == 0 then p else Up(p / 2, n - 1)
  }

  datatype Block = Block(order: nat, index: nat) {
    predicate Has(p: nat) { Up(p, order) == index }

    function Buddy(): Block { Block(order, if index % 2 == 0 then index + 1 else index - 1) }

    function Parent(): Block { Block(order + 1, index / 2) }

    function Low(): Block
      requires order > 0
    {
      Block(order - 1, 2 * index)
    }

    function High(): Block
      requires order > 0
    {
      Block(order - 1, 2 * index + 1)
    }

    /** The first page of the block. */
    function First(): nat
      decreases order
    {
      if order == 0 then index else Block(order - 1, 2 * index).First()
    }
  }

  lemma {:induction false} UpPlus(p: nat, a: nat, b: nat)
    ensures Up(p, a + b) == Up(Up(p, a), b)
    decreases a
  {
    if a > 0 { UpPlus(p / 2, a - 1, b); }
  }

  lemma {:induction false} FirstIsHere(x: Block)
    ensures x.Has(x.First())
    decreases x.order
  {
    if x.order > 0 {
      FirstIsHere(x.Low());
      UpPlus(x.First(), x.order - 1, 1);
      assert Up(2 * x.index, 1) == x.index;
    }
  }

  /** Two blocks share no page. */
  ghost predicate Apart(x: Block, y: Block) {
    forall p: nat :: !(x.Has(p) && y.Has(p))
  }

  ghost predicate AllApart(s: set<Block>) {
    forall x, y :: x in s && y in s && x != y ==> Apart(x, y)
  }

  ghost predicate Inside(x: Block, y: Block) {
    forall p: nat :: x.Has(p) ==> y.Has(p)
  }

  ghost predicate Covers(s: set<Block>, p: nat) {
    exists x :: x in s && x.Has(p)
  }

  ghost predicate SameCover(s: set<Block>, t: set<Block>) {
    forall p: nat :: Covers(s, p) <==> Covers(t, p)
  }

  ghost predicate OrdersOk(s: set<Block>) {
    forall x :: x in s ==> x.order <= TOP
  }

  // Halves and parents

  lemma Halves(x: Block)
    requires x.order > 0
    ensures forall p: nat :: x.Has(p) <==> x.Low().Has(p) || x.High().Has(p)
    ensures Apart(x.Low(), x.High()) && Inside(x.Low(), x) && Inside(x.High(), x)
    ensures x.Low().Buddy() == x.High() && x.High().Buddy() == x.Low() && x.Low().Parent() == x == x.High().Parent()
  {
    forall p: nat ensures x.Has(p) <==> x.Low().Has(p) || x.High().Has(p) {
      UpPlus(p, x.order - 1, 1);
      assert Up(Up(p, x.order - 1), 1) == Up(p, x.order - 1) / 2;
    }
  }

  lemma Siblings(x: Block)
    ensures x.Buddy().order == x.order && x.Buddy() != x && x.Buddy().Buddy() == x && x.Buddy().Parent() == x.Parent()
    ensures (x == x.Parent().Low() && x.Buddy() == x.Parent().High())
            || (x == x.Parent().High() && x.Buddy() == x.Parent().Low())
  {
  }

  /** Blocks that meet are nested, the smaller in the larger. */
  lemma Nested(x: Block, y: Block, p: nat)
    requires x.order <= y.order && x.Has(p) && y.Has(p)
    ensures Inside(x, y)
  {
    forall q: nat | x.Has(q) ensures y.Has(q) {
      UpPlus(p, x.order, y.order - x.order);
      UpPlus(q, x.order, y.order - x.order);
    }
  }

  // Replacing a block by what it is made of

  lemma InsideApart(x: Block, y: Block, z: Block)
    requires Inside(x, y) && Apart(y, z)
    ensures Apart(x, z) && Apart(z, x)
  {
  }

  /** One block for its two halves: nothing overlaps, and the same pages are covered. */
  lemma SplitStep(s: set<Block>, x: Block)
    requires AllApart(s) && x in s && x.order > 0
    ensures var t := s - {x} + {x.Low(), x.High()};
            AllApart(t) && SameCover(s, t) && x.Low() !in s && x.High() !in s
  {
    hide Block.Has;
    Halves(x);
    FirstIsHere(x.Low());
    FirstIsHere(x.High());
    var t := s - {x} + {x.Low(), x.High()};
    assert x.Low() !in s && x.High() !in s by { SmallerIsOut(s, x, x.Low()); SmallerIsOut(s, x, x.High()); }
    forall a, b | a in t && b in t && a != b ensures Apart(a, b) {
      if a in s && b !in s { InsideApart(b, x, a); }
      if b in s && a !in s { InsideApart(a, x, b); }
    }
    CoverSwap(s, x, x.Low(), x.High());
  }

  lemma SmallerIsOut(s: set<Block>, x: Block, y: Block)
    requires AllApart(s) && x in s && Inside(y, x) && y != x
    ensures y !in s
  {
    hide Block.Has;
    FirstIsHere(y);
  }

  lemma CoverSwap(s: set<Block>, x: Block, y: Block, z: Block)
    requires x in s && forall p: nat :: x.Has(p) <==> y.Has(p) || z.Has(p)
    ensures SameCover(s, s - {x} + {y, z})
  {
    hide Block.Has;
    var t := s - {x} + {y, z};
    forall p: nat ensures Covers(s, p) <==> Covers(t, p) {
      if Covers(s, p) {
        var w :| w in s && w.Has(p);
        if w == x { assert y in t && z in t; }
      }
      if Covers(t, p) {
        var w :| w in t && w.Has(p);
        if w !in s { assert x.Has(p); }
      }
    }
  }

  /** Two buddies for their parent. */
  lemma MergeStep(s: set<Block>, x: Block)
    requires AllApart(s) && x in s && x.Buddy() in s
    ensures var t := s - {x, x.Buddy()} + {x.Parent()};
            AllApart(t) && SameCover(s, t) && x.Parent() !in s
  {
    hide Block.Has;
    Siblings(x);
    var y, up := x.Buddy(), x.Parent();
    Halves(up);
    var t := s - {x, y} + {up};
    if up in s { assert Apart(up, x); FirstIsHere(x); }
    forall a | a in t && a != up ensures Apart(a, up) && Apart(up, a) { ApartParent(a, x, y, up); }
    CoverSwap(t, up, up.Low(), up.High());
    assert t - {up} + {up.Low(), up.High()} == s;
  }

  lemma ApartParent(a: Block, x: Block, y: Block, up: Block)
    requires Apart(a, x) && Apart(a, y) && forall p: nat :: up.Has(p) <==> x.Has(p) || y.Has(p)
    ensures Apart(a, up) && Apart(up, a)
  {
  }

  // Splitting down to an order

  /** The first block of order o inside x. */
  function Bottom(x: Block, o: nat): (b: Block)
    requires o <= x.order
    ensures b.order == o
    decreases x.order
  {
    if x.order == o then x else Bottom(x.Low(), o)
  }

  /** What splitting x down to order o leaves over: one upper half of each order from o up. */
  function Rest(x: Block, o: nat): set<Block>
    requires o <= x.order
    decreases x.order
  {
    if x.order == o then {} else {x.High()} + Rest(x.Low(), o)
  }

  lemma {:induction false} BottomInside(x: Block, o: nat)
    requires o <= x.order
    ensures Bottom(x, o).order == o && Bottom(x, o).First() == x.First() && Inside(Bottom(x, o), x)
    ensures forall y :: y in Rest(x, o) ==> o <= y.order < x.order && Inside(y, x)
    decreases x.order
  {
    hide Block.Has;
    if x.order > o {
      BottomInside(x.Low(), o);
      Halves(x);
    }
  }

  /** Splitting loses and duplicates nothing. */
  lemma {:induction false} SplitAll(s: set<Block>, x: Block, o: nat)
    requires AllApart(s) && x in s && o <= x.order
    ensures var t := s - {x} + {Bottom(x, o)} + Rest(x, o);
            AllApart(t) && SameCover(s, t)
    ensures x.order > o ==> Bottom(x, o) !in s
    ensures Bottom(x, o) !in Rest(x, o) && Rest(x, o) !! (s - {x})
    decreases x.order
  {
    hide Block.Has;
    BottomInside(x, o);
    if x.order > o {
      SplitStep(s, x);
      var m := s - {x} + {x.Low(), x.High()};
      SplitAll(m, x.Low(), o);
      assert m - {x.Low()} + {Bottom(x, o)} + Rest(x.Low(), o) == s - {x} + {Bottom(x, o)} + Rest(x, o);
      SmallerIsOut(s, x, Bottom(x, o));
    } else {
      assert s - {x} + {x} + {} == s;
    }
  }

  // Coalescing

  /** Put b into the free set f, merging it with its buddy for as long as the buddy is free. */
  function Coalesce(f: set<Block>, b: Block): set<Block>
    decreases TOP - b.order
  {
    if b.order < TOP && b.Buddy() in f then Coalesce(f - {b.Buddy()}, b.Parent()) else f + {b}
  }

  lemma {:induction false} CoalesceApart(f: set<Block>, b: Block)
    requires AllApart(f + {b}) && b !in f
    ensures AllApart(Coalesce(f, b)) && SameCover(f + {b}, Coalesce(f, b))
    decreases TOP - b.order
  {
    hide Block.Has;
    if b.order < TOP && b.Buddy() in f {
      var s := f + {b};
      Siblings(b);
      MergeStep(s, b);
      var rest := f - {b.Buddy()};
      assert s - {b, b.Buddy()} + {b.Parent()} == rest + {b.Parent()};
      CoalesceApart(rest, b.Parent());
    }
  }

  /** No two free blocks could be merged. */
  ghost predicate NoBuddies(f: set<Block>) {
    forall x :: x in f && x.order < TOP ==> x.Buddy() !in f
  }

  lemma {:induction false} CoalesceMax(f: set<Block>, b: Block)
    requires NoBuddies(f)
    ensures NoBuddies(Coalesce(f, b))
    decreases TOP - b.order
  {
    if b.order < TOP && b.Buddy() in f {
      CoalesceMax(f - {b.Buddy()}, b.Parent());
    } else {
      forall x | x in f + {b} && x.order < TOP ensures x.Buddy() !in f + {b} { Siblings(x); Siblings(b); }
    }
  }

  /** Freeing what was just split off puts every piece back together. */
  lemma {:induction false} RoundTrip(f: set<Block>, x: Block, o: nat)
    requires AllApart(f) && NoBuddies(f) && x in f && o <= x.order <= TOP
    ensures Coalesce(f - {x} + Rest(x, o), Bottom(x, o)) == f
    decreases x.order - o
  {
    hide Block.Has, AllApart, NoBuddies, Inside, Apart;
    if x.order == o {
      Alone(f, x);
      assert f - {x} + {} == f - {x} && f - {x} + {x} == f;
    } else {
      LastSplit(x, o);
      BottomInside(x, o);
      BottomInside(x, o + 1);
      var z := Bottom(x, o + 1);
      Halves(z);
      SmallerIsOut(f, x, z.High());
      OneBack(f - {x}, Rest(x, o + 1), z.High());
      RoundTrip(f, x, o + 1);
    }
  }

  lemma Alone(f: set<Block>, x: Block)
    requires NoBuddies(f) && x in f
    ensures x.order < TOP ==> x.Buddy() !in f
  {
  }

  lemma OneBack(f: set<Block>, rest: set<Block>, h: Block)
    requires h !in f && h !in rest
    ensures f + (rest + {h}) - {h} == f + rest && h in f + (rest + {h})
  {
  }

  /** The last split is of the bottom block one order up. */
  lemma {:induction false} LastSplit(x: Block, o: nat)
    requires o < x.order
    ensures Bottom(x, o + 1).order == o + 1 && Bottom(x, o) == Bottom(x, o + 1).Low()
    ensures Rest(x, o) == Rest(x, o + 1) + {Bottom(x, o + 1).High()}
    decreases x.order
  {
    if x.order > o + 1 { LastSplit(x.Low(), o); }
  }

  // What coalescing buys

  /** With no buddies left to merge, a block whose pages are all free lies in one free block. */
  lemma {:induction false} FreeRangeIsOneBlock(f: set<Block>, x: Block)
    requires NoBuddies(f) && x.order <= TOP && forall p: nat :: x.Has(p) ==> Covers(f, p)
    ensures exists y :: y in f && y.order >= x.order && Inside(x, y)
    decreases x.order
  {
    hide Block.Has;
    FirstIsHere(x);
    if x.order == 0 {
      var y :| y in f && y.Has(x.First());
      Nested(x, y, x.First());
    } else {
      Halves(x);
      FreeRangeIsOneBlock(f, x.Low());
      FreeRangeIsOneBlock(f, x.High());
      var y :| y in f && y.order >= x.Low().order && Inside(x.Low(), y);
      var z :| z in f && z.order >= x.High().order && Inside(x.High(), z);
      FirstIsHere(x.Low());
      FirstIsHere(x.High());
      if y.order >= x.order {
        Nested(x, y, x.Low().First());
      } else if z.order >= x.order {
        Nested(x, z, x.High().First());
      } else {
        SameOrder(x.Low(), y);
        SameOrder(x.High(), z);
      }
    }
  }

  lemma SameOrder(x: Block, y: Block)
    requires x.order == y.order && Inside(x, y)
    ensures x == y
  {
    FirstIsHere(x);
  }

  lemma InCanonical(s: set<Block>, t: set<Block>, x: Block)
    requires AllApart(s) && NoBuddies(s) && NoBuddies(t) && OrdersOk(s) && OrdersOk(t) && SameCover(s, t) && x in s
    ensures x in t
  {
    hide Block.Has, NoBuddies;
    forall p: nat | x.Has(p) ensures Covers(t, p) { assert Covers(s, p); }
    FreeRangeIsOneBlock(t, x);
    var y :| y in t && y.order >= x.order && Inside(x, y);
    forall p: nat | y.Has(p) ensures Covers(s, p) { assert Covers(t, p); }
    FreeRangeIsOneBlock(s, y);
    var z :| z in s && z.order >= y.order && Inside(y, z);
    FirstIsHere(x);
    assert !Apart(x, z);
    SameOrder(x, y);
  }

  /** The free pages alone determine the free blocks, once nothing is left to merge. */
  lemma Canonical(s: set<Block>, t: set<Block>)
    requires AllApart(s) && AllApart(t) && NoBuddies(s) && NoBuddies(t) && OrdersOk(s) && OrdersOk(t) && SameCover(s, t)
    ensures s == t
  {
    hide AllApart, NoBuddies, OrdersOk, SameCover;
    assert SameCover(t, s) by { hide *; CoverFlips(s, t); }
    forall x | x in s ensures x in t { InCanonical(s, t, x); }
    forall x | x in t ensures x in s { InCanonical(t, s, x); }
  }

  lemma CoverFlips(s: set<Block>, t: set<Block>)
    requires SameCover(s, t)
    ensures SameCover(t, s)
  {
    hide Covers;
  }

  lemma {:induction false} CoalesceOrders(f: set<Block>, b: Block)
    requires OrdersOk(f + {b})
    ensures OrdersOk(Coalesce(f, b))
    decreases TOP - b.order
  {
    if b.order < TOP && b.Buddy() in f { CoalesceOrders(f - {b.Buddy()}, b.Parent()); }
  }

  /** Coalescing a in leaves another block b apart from everything, and adds its pages alone. */
  lemma CoalesceBeside(f: set<Block>, a: Block, b: Block)
    requires AllApart(f + {a} + {b}) && a !in f && b !in f + {a}
    ensures var g := Coalesce(f, a); AllApart(g + {b}) && b !in g && SameCover(g + {b}, f + {a} + {b})
  {
    hide Block.Has, Coalesce;
    var s, g := f + {a}, Coalesce(f, a);
    assert AllApart(s);
    CoalesceApart(f, a);
    FirstIsHere(b);
    forall x | x in g ensures Apart(x, b) && Apart(b, x) {
      forall p: nat ensures !(x.Has(p) && b.Has(p)) {
        if x.Has(p) {
          assert Covers(g, p) && Covers(s, p);
          var y :| y in s && y.Has(p);
          assert Apart(y, b);
        }
      }
    }
    forall p: nat ensures Covers(g + {b}, p) <==> Covers(s + {b}, p) {
      CoversOneMore(g, b, p);
      CoversOneMore(s, b, p);
      assert Covers(g, p) <==> Covers(s, p);
    }
  }

  lemma CoversOneMore(s: set<Block>, b: Block, p: nat)
    ensures Covers(s + {b}, p) <==> Covers(s, p) || b.Has(p)
  {
    hide Block.Has;
    if b.Has(p) { assert b in s + {b}; }
    if Covers(s, p) {
      var x :| x in s && x.Has(p);
      assert x in s + {b};
    }
  }

  /** The order in which two blocks are freed does not matter. */
  lemma FreeingCommutes(f: set<Block>, a: Block, b: Block)
    requires AllApart(f + {a} + {b}) && NoBuddies(f) && OrdersOk(f + {a} + {b}) && a !in f && b !in f + {a}
    ensures Coalesce(Coalesce(f, a), b) == Coalesce(Coalesce(f, b), a)
  {
    hide AllApart, NoBuddies, OrdersOk, SameCover, Coalesce;
    assert f + {a} + {b} == f + {b} + {a};
    FreedBoth(f, a, b);
    FreedBoth(f, b, a);
    var s, t := Coalesce(Coalesce(f, a), b), Coalesce(Coalesce(f, b), a);
    assert SameCover(s, t) by { hide *; CoversMeet(s, t, f + {a} + {b}); }
    Canonical(s, t);
  }

  lemma CoversMeet(s: set<Block>, t: set<Block>, u: set<Block>)
    requires SameCover(s, u) && SameCover(t, u)
    ensures SameCover(s, t)
  {
    hide Covers;
  }

  lemma FreedOrders(f: set<Block>, a: Block, b: Block)
    requires OrdersOk(f + {a} + {b})
    ensures OrdersOk(Coalesce(Coalesce(f, a), b))
  {
    hide Coalesce;
    CoalesceOrders(f, a);
    CoalesceOrders(Coalesce(f, a), b);
  }

  lemma FreedBoth(f: set<Block>, a: Block, b: Block)
    requires AllApart(f + {a} + {b}) && NoBuddies(f) && OrdersOk(f + {a} + {b}) && a !in f && b !in f + {a}
    ensures var s := Coalesce(Coalesce(f, a), b);
            AllApart(s) && NoBuddies(s) && OrdersOk(s) && SameCover(s, f + {a} + {b})
  {
    hide *;
    var g := Coalesce(f, a);
    CoalesceBeside(f, a, b);
    CoalesceApart(g, b);
    CoalesceMax(f, a);
    CoalesceMax(g, b);
    FreedOrders(f, a, b);
    CoverFlips(g + {b}, Coalesce(g, b));
    CoverFlips(g + {b}, f + {a} + {b});
    CoversMeet(Coalesce(g, b), f + {a} + {b}, g + {b});
  }
}
