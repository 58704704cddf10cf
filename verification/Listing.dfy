/** A directory's listing: the entries of its blocks, in order.  A directory edit changes one block,
    and so one stretch of the listing. */
module Listing {
  import opened Bytes
  import opened Geometry
  import opened Inode
  import opened Image
  import opened Tree
  import opened DirBlock
  import opened Consistency

  /** The entries of file block x; a hole lists nothing. */
  ghost function BlockListing(img: Img, slots: seq<nat>, p: nat, x: nat): seq<DirEntry>
    requires p > 0
  {
    var b := Leaf(img, slots, p, x);
    if b == 0 then [] else Scan(BlockOf(img, b), 0)
  }

  /** The entries of file blocks lo to hi. */
  ghost function Entries(img: Img, slots: seq<nat>, p: nat, lo: nat, hi: nat): seq<DirEntry>
    requires p > 0 && lo <= hi
    decreases hi - lo
  {
    if lo == hi then [] else Entries(img, slots, p, lo, hi - 1) + BlockListing(img, slots, p, hi - 1)
  }

  /** File block x has the record of e at offset `at`, and a listing must give it. */
  ghost predicate PlacedAt(img: Img, slots: seq<nat>, p: nat, x: nat, at: nat, e: DirEntry)
    requires p > 0
  {
    var b := Leaf(img, slots, p, x);
    b != 0 && OnChain(BlockOf(img, b), 0, at) && LiveAt(BlockOf(img, b), at) && ReadsAt(BlockOf(img, b), at, e)
  }

  ghost predicate Placed(img: Img, slots: seq<nat>, p: nat, n: nat, e: DirEntry)
    requires p > 0
  {
    exists x: nat, at: nat :: x < n && PlacedAt(img, slots, p, x, at, e)
  }

  /** One block lists exactly its live records. */
  lemma BlockGives(img: Img, slots: seq<nat>, p: nat, x: nat, e: DirEntry)
    requires p > 0
    ensures e in BlockListing(img, slots, p, x) <==> exists at: nat :: PlacedAt(img, slots, p, x, at, e)
  {
    hide Leaf, Scan, OnChain, LiveAt, ReadsAt;
    var b := Leaf(img, slots, p, x);
    if b != 0 {
      var buf := BlockOf(img, b);
      var ps := ScanGivesAll(buf, 0);
      if e in Scan(buf, 0) {
        var k :| 0 <= k < |ps| && Scan(buf, 0)[k] == e;
        assert PlacedAt(img, slots, p, x, ps[k], e);
      }
      if at: nat :| PlacedAt(img, slots, p, x, at, e) {
        var k :| 0 <= k < |ps| && ps[k] == at;
        SameBytes(buf, at, e, Scan(buf, 0)[k]);
      }
    }
  }

  lemma SameBytes(buf: seq<byte>, at: nat, e: DirEntry, f: DirEntry)
    requires ReadsAt(buf, at, e) && ReadsAt(buf, at, f)
    ensures e == f
  {
  }

  /** A directory lists exactly the live records of its blocks. */
  lemma {:induction false} EntriesGiven(img: Img, slots: seq<nat>, p: nat, n: nat, e: DirEntry)
    requires p > 0
    ensures e in Entries(img, slots, p, 0, n) <==> Placed(img, slots, p, n, e)
  {
    hide BlockListing, PlacedAt;
    if n > 0 {
      EntriesGiven(img, slots, p, n - 1, e);
      BlockGives(img, slots, p, n - 1, e);
    }
  }

  lemma {:induction false} EntriesSplit(img: Img, slots: seq<nat>, p: nat, lo: nat, mid: nat, hi: nat)
    requires p > 0 && lo <= mid <= hi
    ensures Entries(img, slots, p, lo, hi) == Entries(img, slots, p, lo, mid) + Entries(img, slots, p, mid, hi)
    decreases hi - mid
  {
    hide BlockListing;
    if mid < hi { EntriesSplit(img, slots, p, lo, mid, hi - 1); }
  }

  lemma {:induction false} EntriesSame(a: Img, sa: seq<nat>, h: Img, sh: seq<nat>, p: nat, lo: nat, hi: nat)
    requires p > 0 && lo <= hi
    requires forall x: nat :: lo <= x < hi ==> BlockListing(h, sh, p, x) == BlockListing(a, sa, p, x)
    ensures Entries(h, sh, p, lo, hi) == Entries(a, sa, p, lo, hi)
    decreases hi - lo
  {
    hide BlockListing;
    if lo < hi { EntriesSame(a, sa, h, sh, p, lo, hi - 1); }
  }

  /** The entry at position k of block x, as a position of the whole listing. */
  ghost function Position(img: Img, slots: seq<nat>, p: nat, x: nat, k: nat): nat
    requires p > 0
  {
    |Entries(img, slots, p, 0, x)| + k
  }

  /** Replacing one block's entries replaces that stretch of the listing. */
  lemma EntriesEdit(a: Img, sa: seq<nat>, h: Img, sh: seq<nat>, p: nat, n: nat, x0: nat)
    requires p > 0 && x0 < n
    requires forall x: nat :: x < n && x != x0 ==> BlockListing(h, sh, p, x) == BlockListing(a, sa, p, x)
    ensures Entries(a, sa, p, 0, n)
            == Entries(a, sa, p, 0, x0) + BlockListing(a, sa, p, x0) + Entries(a, sa, p, x0 + 1, n)
    ensures Entries(h, sh, p, 0, n)
            == Entries(a, sa, p, 0, x0) + BlockListing(h, sh, p, x0) + Entries(a, sa, p, x0 + 1, n)
  {
    hide BlockListing;
    EntriesSplit(a, sa, p, 0, x0 + 1, n);
    EntriesSplit(h, sh, p, 0, x0 + 1, n);
    EntriesSame(a, sa, h, sh, p, 0, x0);
    EntriesSame(a, sa, h, sh, p, x0 + 1, n);
  }

  /** es with e put in at position k. */
  function InsertAt<T>(es: seq<T>, k: nat, e: seq<T>): seq<T>
    requires k <= |es|
  {
    es[..k] + e + es[k..]
  }

  function RemoveAt<T>(es: seq<T>, k: nat): seq<T>
    requires k < |es|
  {
    es[..k] + es[k + 1..]
  }

  lemma InsertInside<T>(pre: seq<T>, mid: seq<T>, post: seq<T>, k: nat, e: seq<T>)
    requires k <= |mid|
    ensures pre + InsertAt(mid, k, e) + post == InsertAt(pre + mid + post, |pre| + k, e)
  {
  }

  /** The listing of a directory as its node describes it. */
  ghost function DirListing(g: Geo, img: Img, node: Node): seq<DirEntry>
    requires g.Valid()
  {
    Entries(img, node.slots, Ptrs(g), 0, node.dirBlocks)
  }

  /** An intact directory lists the same. */
  lemma IntactListing(g: Geo, a: Img, h: Img, node: Node)
    requires g.Valid() && Intact(g, a, h, node)
    ensures DirListing(g, h, node) == DirListing(g, a, node)
    ensures forall x: nat :: BlockListing(h, node.slots, Ptrs(g), x) == BlockListing(a, node.slots, Ptrs(g), x)
  {
    hide At, LeafPath, Geo.Valid, Scan, Entries;
    forall x: nat ensures BlockListing(h, node.slots, Ptrs(g), x) == BlockListing(a, node.slots, Ptrs(g), x) {
      if x < Capacity(Ptrs(g)) { LeafPathOfIndex(Ptrs(g), x); }
    }
    EntriesSame(a, node.slots, h, node.slots, Ptrs(g), 0, node.dirBlocks);
  }

  /** Entries of the listing are entries of some block of it. */
  lemma {:induction false} EntryHasBlock(img: Img, slots: seq<nat>, p: nat, n: nat, k: nat) returns (x: nat, m: nat)
    requires p > 0 && k < |Entries(img, slots, p, 0, n)|
    ensures x < n && m < |BlockListing(img, slots, p, x)| && k == Position(img, slots, p, x, m)
    ensures BlockListing(img, slots, p, x)[m] == Entries(img, slots, p, 0, n)[k]
  {
    hide BlockListing;
    var front := Entries(img, slots, p, 0, n - 1);
    if k < |front| {
      x, m := EntryHasBlock(img, slots, p, n - 1, k);
    } else {
      x, m := n - 1, k - |front|;
    }
  }

  lemma BlockHasEntry(img: Img, slots: seq<nat>, p: nat, n: nat, x: nat, m: nat)
    requires p > 0 && x < n && m < |BlockListing(img, slots, p, x)|
    ensures Position(img, slots, p, x, m) < |Entries(img, slots, p, 0, n)|
    ensures Entries(img, slots, p, 0, n)[Position(img, slots, p, x, m)] == BlockListing(img, slots, p, x)[m]
  {
    hide BlockListing;
    EntriesSplit(img, slots, p, 0, x + 1, n);
  }

  /** Every entry of a consistent directory names an inode of the set. */
  lemma ListingInSet(g: Geo, img: Img, nodes: map<nat, Node>, i: nat, k: nat)
    requires Inv(g, img, nodes) && i in nodes && k < |DirListing(g, img, nodes[i])|
    ensures DirListing(g, img, nodes[i])[k].ino in nodes
  {
    hide At, LeafPath, Geo.Valid, Scan, Tiled, Owned, Apart, Leaf;
    var x, m := EntryHasBlock(img, nodes[i].slots, Ptrs(g), nodes[i].dirBlocks, k);
    assert DirBlockOk(BlockOf(img, Leaf(img, nodes[i].slots, Ptrs(g), x)), nodes.Keys);
    assert BlockListing(img, nodes[i].slots, Ptrs(g),
                        x)[m] in Scan(BlockOf(img, Leaf(img, nodes[i].slots, Ptrs(g), x)), 0);
  }
}
