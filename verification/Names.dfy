/** Names: in a volume this driver keeps, every inode is named by at most one directory entry. */
module Names {
  import opened Bytes
  import opened Geometry
  import opened Inode
  import opened Image
  import opened Tree
  import opened DirBlock
  import opened Consistency
  import opened Growth
  import opened Listing
  import opened Directories

  type Tables = map<nat, seq<DirEntry>>

  /** What each inode of the set lists. */
  ghost function TablesOf(g: Geo, d: Img, s: set<nat>): (m: Tables)
    requires Layout(g, d) && forall i :: i in s ==> g.sb.HasInode(i)
    ensures m.Keys == s
  {
    map i | i in s :: DirListing(g, d, DiskNode(g, d, i))
  }

  /** No two entries name the same inode, and none names the root. */
  ghost predicate OneName(t: Tables) {
    && (forall i, k, j, l :: i in t && 0 <= k < |t[i]| && j in t && 0 <= l < |t[j]| && t[i][k].ino == t[j][l].ino ==>
         i == j && k == l)
    && (forall i, k :: i in t && 0 <= k < |t[i]| ==> t[i][k].ino != ROOT_INO)
  }

  /** Every entry names an inode of the set. */
  ghost predicate Closed(t: Tables) {
    forall i, k :: i in t && 0 <= k < |t[i]| ==> t[i][k].ino in t
  }

  lemma ConsistentClosed(g: Geo, d: Img, s: set<nat>)
    requires DiskInv(g, d, s)
    ensures Closed(TablesOf(g, d, s))
  {
    hide Inv, Geo.Valid, DescMatches, DirListing, NodeOf, Rec;
    var t: Tables := TablesOf(g, d, s);
    forall i, k | i in t && 0 <= k < |t[i]| ensures t[i][k].ino in t {
      ListingInSet(g, d, DiskNodes(g, d, s), i, k);
    }
  }

  /** Where entry x of directory i was before n entries went in at position k of directory dir. */
  function Back(dir: nat, k: nat, n: nat, i: nat, x: int): int {
    if i == dir && x >= k then x - n else x
  }

  /** A new, so far unnamed inode that lists nothing joins the set; at most one new entry names it. */
  lemma NameAdded(t: Tables, t': Tables, dir: nat, new': nat, k: nat, es: seq<DirEntry>)
    requires OneName(t) && Closed(t) && dir in t && new' !in t && new' != ROOT_INO
    requires t'.Keys == t.Keys + {new'} && t'[new'] == [] && (forall i :: i in t && i != dir ==> t'[i] == t[i])
    requires k <= |t[dir]| && t'[dir] == InsertAt(t[dir], k, es) && (es == [] || (|es| == 1 && es[0].ino == new'))
    ensures OneName(t') && Closed(t')
  {
    forall i, x | i in t' && 0 <= x < |t'[i]|
      ensures i in t && if i == dir && x == k && |es| == 1 then t'[i][x].ino == new'
              else var y := Back(dir, k, |es|, i, x); 0 <= y < |t[i]| && t'[i][x] == t[i][y] && t'[i][x].ino in t
    {
    }
  }

  /** Entries cut off the end of one directory. */
  lemma NamesCut(t: Tables, t': Tables, dir: nat, new': nat)
    requires OneName(t) && Closed(t) && dir in t && new' !in t
    requires t'.Keys == t.Keys + {new'} && t'[new'] == [] && (forall i :: i in t && i != dir ==> t'[i] == t[i])
    requires t'[dir] <= t[dir]
    ensures OneName(t') && Closed(t')
  {
    forall i, x | i in t' && 0 <= x < |t'[i]| ensures i in t && x < |t[i]| && t'[i][x] == t[i][x] {
    }
  }

  /** One entry removed: what it named is named no more. */
  lemma NameRemoved(t: Tables, t': Tables, dir: nat, k: nat)
    requires OneName(t) && Closed(t) && dir in t && k < |t[dir]|
    requires t'.Keys == t.Keys && (forall i :: i in t && i != dir ==> t'[i] == t[i]) && t'[dir] == RemoveAt(t[dir], k)
    ensures OneName(t')
    ensures forall i, x :: i in t' && 0 <= x < |t'[i]| ==> t'[i][x].ino != t[dir][k].ino && t'[i][x].ino in t
  {
    forall i, x | i in t' && 0 <= x < |t'[i]|
      ensures var y := if i == dir && x >= k then x + 1 else x;
              0 <= y < |t[i]| && t'[i][x] == t[i][y] && (i != dir || y != k)
    {
    }
  }

  /** Fewer directories, same entries. */
  lemma NamesDropped(t: Tables, t': Tables)
    requires OneName(t) && t'.Keys <= t.Keys && forall i :: i in t' ==> t'[i] == t[i]
    ensures OneName(t')
  {
  }

  /** No entry of the tables names i: the volume may do without it. */
  lemma TablesUnnamed(g: Geo, d: Img, s: set<nat>, i: nat)
    requires DiskInv(g, d, s) && forall j, x :: j in s && j != i && 0 <= x < |TablesOf(g, d, s)[j]| ==>
               TablesOf(g, d, s)[j][x].ino != i
    ensures g.Valid() && Unnamed(g, d, DiskNodes(g, d, s), i)
  {
    hide Inv, Geo.Valid, DescMatches, NodeOf, Rec, Leaf, Scan, Entries;
    var nodes, t: Tables := DiskNodes(g, d, s), TablesOf(g, d, s);
    forall j, x: nat, e | j in nodes && j != i && x < nodes[j].dirBlocks && Leaf(d, nodes[j].slots, Ptrs(g), x) != 0
                          && e in Scan(BlockOf(d, Leaf(d, nodes[j].slots, Ptrs(g), x)), 0)
      ensures e.ino != i
    {
      var l := BlockListing(d, nodes[j].slots, Ptrs(g), x);
      var m :| 0 <= m < |l| && l[m] == e;
      BlockHasEntry(d, nodes[j].slots, Ptrs(g), nodes[j].dirBlocks, x, m);
      assert t[j][Position(d, nodes[j].slots, Ptrs(g), x, m)] == e;
    }
  }

  // Looking names up

  /** The first entry of a name. */
  function FirstOf(es: seq<DirEntry>, name: seq<byte>): Option<DirEntry> {
    if es == [] then None else if es[0].name == name then Some(es[0]) else FirstOf(es[1..], name)
  }

  /** Its place; none if and only if no entry has the name. */
  lemma {:induction false} FirstIs(es: seq<DirEntry>, name: seq<byte>)
    ensures FirstOf(es, name).Some? ==> FirstOf(es, name).value in es && FirstOf(es, name).value.name == name
    ensures FirstOf(es, name).None? <==> forall e :: e in es ==> e.name != name
  {
    if es != [] {
      FirstIs(es[1..], name);
      assert es == [es[0]] + es[1..];
    }
  }

  lemma {:induction false} FirstConcat(a: seq<DirEntry>, b: seq<DirEntry>, name: seq<byte>)
    ensures FirstOf(a + b, name) == if FirstOf(a, name).Some? then FirstOf(a, name) else FirstOf(b, name)
  {
    if a == [] {
      assert a + b == b;
    } else {
      FirstConcat(a[1..], b, name);
      assert (a + b)[1..] == a[1..] + b;
    }
  }

  lemma FirstHere(es: seq<DirEntry>)
    requires es != []
    ensures FirstOf(es, es[0].name) == Some(es[0])
    ensures forall name :: name != es[0].name ==> FirstOf(es, name) == FirstOf(es[1..], name)
  {
  }

  /** The entry at position k, if no earlier one has its name. */
  lemma FirstAt(es: seq<DirEntry>, k: nat)
    requires k < |es| && forall j :: 0 <= j < k ==> es[j].name != es[k].name
    ensures FirstOf(es, es[k].name) == Some(es[k])
  {
    hide FirstOf;
    var name, rest := es[k].name, es[k..];
    assert es == es[..k] + rest;
    FirstConcat(es[..k], rest, name);
    FirstIs(es[..k], name);
    FirstHere(rest);
  }

  /** No name twice in a listing. */
  ghost predicate UniqueNames(l: seq<DirEntry>) {
    forall j, k :: 0 <= j < k < |l| ==> l[j].name != l[k].name
  }

  ghost predicate AllUnique(t: Tables) {
    forall i :: i in t ==> UniqueNames(t[i])
  }

  /** The names of l' lead where those of l lead, and e's name leads to e. */
  ghost predicate Bound(l: seq<DirEntry>, l': seq<DirEntry>, e: DirEntry) {
    forall name :: FirstOf(l', name) == if name == e.name then Some(e) else FirstOf(l, name)
  }

  /** The names of l' lead where those of l lead, except this one, which is gone. */
  ghost predicate Unbound(l: seq<DirEntry>, l': seq<DirEntry>, gone: seq<byte>) {
    forall name :: FirstOf(l', name) == if name == gone then None else FirstOf(l, name)
  }

  /** An entry put in anywhere answers to its name, if the name was free. */
  lemma InsertBinds(l: seq<DirEntry>, k: nat, e: DirEntry)
    requires k <= |l| && FirstOf(l, e.name) == None
    ensures Bound(l, InsertAt(l, k, [e]), e)
  {
    hide FirstOf;
    var l' := InsertAt(l, k, [e]);
    forall name ensures FirstOf(l', name) == if name == e.name then Some(e) else FirstOf(l, name) {
      SplitAround(l, k, e, l', name);
    }
  }

  lemma SplitAround(l: seq<DirEntry>, k: nat, e: DirEntry, l': seq<DirEntry>, name: seq<byte>)
    requires k <= |l| && l' == InsertAt(l, k, [e])
    ensures FirstOf(l, name) == if FirstOf(l[..k], name).Some? then FirstOf(l[..k], name) else FirstOf(l[k..], name)
    ensures FirstOf(l', name) == if FirstOf(l[..k], name).Some? then FirstOf(l[..k], name)
                                 else if name == e.name then Some(e) else FirstOf(l[k..], name)
  {
    hide FirstOf;
    var tail := [e] + l[k..];
    assert l == l[..k] + l[k..] && l' == l[..k] + tail && tail[1..] == l[k..];
    FirstConcat(l[..k], l[k..], name);
    FirstConcat(l[..k], tail, name);
    FirstHere(tail);
  }

  /** ... and names stay unique exactly then. */
  lemma InsertUnique(l: seq<DirEntry>, k: nat, e: DirEntry)
    requires k <= |l| && UniqueNames(l)
    ensures UniqueNames(InsertAt(l, k, [e])) <==> FirstOf(l, e.name) == None
  {
    hide FirstOf, InsertAt;
    var l' := InsertAt(l, k, [e]);
    FirstIs(l, e.name);
    InsertedAt(l, k, e, 0);
    if FirstOf(l, e.name).Some? {
      var x :| 0 <= x < |l| && l[x] == FirstOf(l, e.name).value;
      InsertedAt(l, k, e, k);
      InsertedAt(l, k, e, if x < k then x else x + 1);
      assert l'[k].name == l'[if x < k then x else x + 1].name;
    } else {
      forall x, y | 0 <= x < y < |l'| ensures l'[x].name != l'[y].name {
        InsertedAt(l, k, e, x);
        InsertedAt(l, k, e, y);
        if x == k { assert l[y - 1] in l; }
        if y == k { assert l[x] in l; }
      }
    }
  }

  lemma InsertedAt(l: seq<DirEntry>, k: nat, e: DirEntry, x: nat)
    requires k <= |l| && x <= |l|
    ensures |InsertAt(l, k, [e])| == |l| + 1
    ensures InsertAt(l, k, [e])[x] == if x < k then l[x] else if x == k then e else l[x - 1]
  {
  }

  /** Removing the first entry of a name leaves every other name where it led. */
  lemma RemoveOthers(l: seq<DirEntry>, l': seq<DirEntry>, e: DirEntry, name: seq<byte>)
    requires FirstRemoved(l, l', e) && name != e.name
    ensures FirstOf(l', name) == FirstOf(l, name)
  {
    hide FirstOf;
    var k: nat :| k < |l| && l[k] == e && l' == RemoveAt(l, k);
    SplitAround(l', k, e, l, name) by { hide *; RemoveInsert(l, k); }
  }

  lemma RemoveInsert(l: seq<DirEntry>, k: nat)
    requires k < |l|
    ensures l == InsertAt(RemoveAt(l, k), k, [l[k]])
  {
    var l' := RemoveAt(l, k);
    assert l'[..k] == l[..k] && l'[k..] == l[k + 1..];
  }

  /** Where names are unique, the name itself is gone. */
  lemma RemoveUnbinds(l: seq<DirEntry>, l': seq<DirEntry>, e: DirEntry)
    requires FirstRemoved(l, l', e) && UniqueNames(l)
    ensures Unbound(l, l', e.name) && UniqueNames(l')
  {
    hide FirstOf;
    var k: nat :| k < |l| && l[k] == e && l' == RemoveAt(l, k);
    forall x | 0 <= x < |l'| ensures l'[x] == if x < k then l[x] else l[x + 1] { }
    hide RemoveAt, FirstRemoved;
    assert UniqueNames(l');
    FirstIs(l', e.name);
    forall name ensures FirstOf(l', name) == if name == e.name then None else FirstOf(l, name) {
      if name != e.name { RemoveOthers(l, l', e, name); }
    }
  }
}
