/** Ordered sequences of entries, the finite maps they stand for, and searching by key.

    The comparator of a libavl table is a strict total order; here it compares
    the integer keys of items. */
module Ordered {
  import opened Store

  // The sign of the comparison function.
  function Compare(a: Item, b: Item): int {
    if a.key < b.key then -1 else if a.key > b.key then 1 else 0
  }

  ghost predicate Sorted(s: seq<Entry>) {
    forall i, j :: 0 <= i < j < |s| ==> s[i].item.key < s[j].item.key
  }

  ghost predicate Below(s: seq<Entry>, k: int) { forall x :: x in s ==> x.item.key < k }

  ghost predicate Above(s: seq<Entry>, k: int) { forall x :: x in s ==> k < x.item.key }

  // The abstract value of a table: what is stored under each key.
  function MapOf(s: seq<Entry>): map<int, Entry> {
    if s == [] then map[] else MapOf(s[..|s| - 1])[s[|s| - 1].item.key := s[|s| - 1]]
  }

  lemma {:induction false} MapConcat(a: seq<Entry>, b: seq<Entry>)
    ensures MapOf(a + b) == MapOf(a) + MapOf(b)
  {
    if b == [] {
      assert a + b == a;
    } else {
      var n := |b| - 1;
      assert (a + b)[..|a + b| - 1] == a + b[..n];
      MapConcat(a, b[..n]);
    }
  }

  lemma {:induction false} MapKeys(s: seq<Entry>)
    ensures forall k :: k in MapOf(s) ==> MapOf(s)[k] in s && MapOf(s)[k].item.key == k
    ensures forall x :: x in s ==> x.item.key in MapOf(s)
  {
    if s != [] {
      var n := |s| - 1;
      MapKeys(s[..n]);
      assert s == s[..n] + [s[n]];
    }
  }

  // A key that separates a from b is not in a + b.
  lemma Absent(a: seq<Entry>, b: seq<Entry>, k: int)
    requires Below(a, k) && Above(b, k)
    ensures k !in MapOf(a + b)
  {
    MapKeys(a + b);
  }

  // Putting x between a and b adds exactly x; taking it away removes exactly x.
  lemma MapAround(a: seq<Entry>, x: Entry, b: seq<Entry>)
    requires Below(a, x.item.key) && Above(b, x.item.key)
    ensures x.item.key !in MapOf(a + b)
    ensures MapOf(a + [x] + b) == MapOf(a + b)[x.item.key := x]
    ensures MapOf(a + b) == MapOf(a + [x] + b) - {x.item.key}
  {
    Absent(a, b, x.item.key);
    MapConcat(a, b);
    MapConcat(a + [x], b);
    MapConcat(a, [x]);
    assert MapOf([x]) == map[x.item.key := x];
    MapKeys(b);
  }

  lemma SortedInsert(a: seq<Entry>, x: Entry, b: seq<Entry>)
    requires Sorted(a + b) && Below(a, x.item.key) && Above(b, x.item.key)
    ensures Sorted(a + [x] + b)
  {
    var s := a + [x] + b;
    forall i, j | 0 <= i < j < |s| ensures s[i].item.key < s[j].item.key {
      if i < |a| { assert s[i] == (a + b)[i] && s[i] in a; }
      if j < |a| { assert s[j] == (a + b)[j]; }
      if i > |a| { assert s[i] == (a + b)[i - 1]; }
      if j > |a| { assert s[j] == (a + b)[j - 1] && s[j] in b; }
    }
  }

  lemma SortedAround(a: seq<Entry>, x: Entry, b: seq<Entry>)
    requires Sorted(a + [x] + b)
    ensures Below(a, x.item.key) && Above(b, x.item.key) && Sorted(a + b) && Sorted(a) && Sorted(b)
  {
    var s := a + [x] + b;
    assert s[|a|] == x;
    assert forall i :: 0 <= i < |a| ==> s[i] == a[i];
    assert forall i :: 0 <= i < |b| ==> s[|a| + 1 + i] == b[i];
    assert forall i :: 0 <= i < |a + b| ==> (a + b)[i] == s[if i < |a| then i else i + 1];
  }

  /* ---------- search trees ---------- */

  ghost predicate SearchTree(t: Tree) {
    t.Node? ==>
      && Below(Inorder(t.l), t.item.key) && Above(Inorder(t.r), t.item.key)
      && SearchTree(t.l) && SearchTree(t.r)
  }

  lemma {:induction false} SortedTree(t: Tree)
    requires Sorted(Inorder(t))
    ensures SearchTree(t)
  {
    if t.Node? {
      SortedAround(Inorder(t.l), Entry(t.p, t.item), Inorder(t.r));
      SortedTree(t.l);
      SortedTree(t.r);
    }
  }

  // Everything outside the hole is on the proper side of k.
  ghost predicate Around(c: Ctx, k: int) { Below(Before(c), k) && Above(After(c), k) }

  lemma SearchStep(mem: Memory, c: Ctx, t: Tree, k: int)
    requires At(mem, c, t) && t.Node? && SearchTree(t) && Around(c, k) && k != t.item.key
    ensures var d := k > t.item.key; var c' := In(c, d, t.p, t.item, t.mark, Kid(t, !d));
            At(mem, c', Kid(t, d)) && SearchTree(Kid(t, d)) && Around(c', k)
  {
    Down(mem, c, k > t.item.key, t);
  }

  // A search that ends in an empty hole has shown the key absent; filling the
  // hole keeps the order and adds exactly the item.
  lemma HoleInsert(c: Ctx, n: Ptr, x: Item, m: int)
    requires Around(c, x.key) && Sorted(Inorder(Plug(c, Leaf)))
    ensures var old', new' := Inorder(Plug(c, Leaf)), Inorder(Plug(c, Node(Leaf, n, x, m, Leaf)));
            && Sorted(new') && |new'| == |old'| + 1
            && Nodes(new') == Nodes(old') + {n}
            && x.key !in MapOf(old') && MapOf(new') == MapOf(old')[x.key := Entry(n, x)]
  {
    var a, b := Before(c), After(c);
    PlugInorder(c, Leaf);
    assert a + [] + b == a + b;
    PlugInorder(c, Node(Leaf, n, x, m, Leaf));
    assert Inorder(Node(Leaf, n, x, m, Leaf)) == [Entry(n, x)];
    SortedInsert(a, Entry(n, x), b);
    NodesConcat(a, b);
    NodesConcat(a, [Entry(n, x)]);
    NodesConcat(a + [Entry(n, x)], b);
    NodesOne(Entry(n, x));
    MapAround(a, Entry(n, x), b);
  }

  // A search that ends at a node has found what the table stores under the key.
  lemma NodeFound(c: Ctx, t: Tree)
    requires t.Node? && Sorted(Inorder(Plug(c, t)))
    ensures var s := MapOf(Inorder(Plug(c, t))); t.item.key in s && s[t.item.key] == Entry(t.p, t.item)
  {
    var a, b := EntrySplit(c, t);
    SortedAround(a, Entry(t.p, t.item), b);
    MapAround(a, Entry(t.p, t.item), b);
  }

  lemma Absence(c: Ctx, k: int)
    requires Around(c, k)
    ensures k !in MapOf(Inorder(Plug(c, Leaf)))
  {
    PlugInorder(c, Leaf);
    Absent(Before(c), After(c), k);
    assert Before(c) + [] + After(c) == Before(c) + After(c);
  }

  // Taking one entry out of the in-order sequence.
  lemma EntryGone(tree: Tree, tree': Tree, a: seq<Entry>, e: Entry, b: seq<Entry>)
    requires Sorted(Inorder(tree)) && Inorder(tree) == a + [e] + b && Inorder(tree') == a + b
    ensures Sorted(Inorder(tree')) && MapOf(Inorder(tree')) == MapOf(Inorder(tree)) - {e.item.key}
    ensures |Inorder(tree')| == |Inorder(tree)| - 1 && Addrs(tree) == Addrs(tree') + {e.p}
  {
    SortedAround(a, e, b);
    MapAround(a, e, b);
    AddrsInorder(tree);
    AddrsInorder(tree');
    NodesOne(e);
    NodesConcat(a, b);
    NodesConcat(a, [e]);
    NodesConcat(a + [e], b);
  }

  // What the abstract table says about a key is in memory.
  lemma TableMemory(mem: Memory, tree: Tree, k: int)
    requires At(mem, Top, tree)
    ensures var s := MapOf(Inorder(tree));
            k in s ==> s[k].p != NULL && s[k].p in mem && mem[s[k].p].item == s[k].item && s[k].item.key == k
  {
    MapKeys(Inorder(tree));
    EntryCells(mem, tree);
  }

  lemma {:induction false} NodeOf(mem: Memory, c0: Ctx, t0: Tree, k: int) returns (c: Ctx, t: Tree)
    requires At(mem, c0, t0) && SearchTree(t0) && exists e :: e in Inorder(t0) && e.item.key == k
    ensures At(mem, c, t) && Plug(c, t) == Plug(c0, t0) && t.Node? && t.item.key == k
    decreases t0
  {
    if t0.item.key == k {
      return c0, t0;
    }
    var d := k > t0.item.key;
    Down(mem, c0, d, t0);
    c, t := NodeOf(mem, In(c0, d, t0.p, t0.item, t0.mark, Kid(t0, !d)), Kid(t0, d), k);
  }

  // Overwriting the item of a node by one with the same key.
  lemma ItemStored(c: Ctx, t: Tree, x: Item)
    requires t.Node? && t.item.key == x.key && Sorted(Inorder(Plug(c, t)))
    ensures var s, s' := Inorder(Plug(c, t)), Inorder(Plug(c, t.(item := x)));
            && Sorted(s') && |s'| == |s| && Nodes(s') == Nodes(s)
            && x.key in MapOf(s) && MapOf(s)[x.key].p == t.p && MapOf(s') == MapOf(s)[x.key := Entry(t.p, x)]
  {
    var a, b := EntrySplit(c, t);
    var a', b' := EntrySplit(c, t.(item := x));
    ReplacedEntry(a, Entry(t.p, t.item), Entry(t.p, x), b);
  }

  lemma EntrySplit(c: Ctx, t: Tree) returns (a: seq<Entry>, b: seq<Entry>)
    requires t.Node?
    ensures a == Before(c) + Inorder(t.l) && b == Inorder(t.r) + After(c)
    ensures Inorder(Plug(c, t)) == a + [Entry(t.p, t.item)] + b
  {
    a, b := Before(c) + Inorder(t.l), Inorder(t.r) + After(c);
    PlugInorder(c, t);
  }

  lemma ReplacedEntry(a: seq<Entry>, e: Entry, e': Entry, b: seq<Entry>)
    requires e.p == e'.p && e.item.key == e'.item.key && Sorted(a + [e] + b)
    ensures var s, s' := a + [e] + b, a + [e'] + b;
            && Sorted(s') && |s'| == |s| && Nodes(s') == Nodes(s)
            && e.item.key in MapOf(s) && MapOf(s)[e.item.key] == e && MapOf(s') == MapOf(s)[e.item.key := e']
  {
    SortedAround(a, e, b);
    SortedInsert(a, e', b);
    MapAround(a, e, b);
    MapAround(a, e', b);
    NodesOne(e);
    NodesOne(e');
    NodesConcat(a, [e]);
    NodesConcat(a, [e']);
    NodesConcat(a + [e], b);
    NodesConcat(a + [e'], b);
  }

  // What inserting x in the hole of c does to the table, whatever tree holds the result.
  lemma TableGrown(tree: Tree, c: Ctx, n: Ptr, x: Item, m: int, tree': Tree)
    requires Plug(c, Leaf) == tree && Around(c, x.key) && Sorted(Inorder(tree))
    requires Inorder(tree') == Inorder(Plug(c, Node(Leaf, n, x, m, Leaf)))
    ensures Sorted(Inorder(tree')) && |Inorder(tree')| == |Inorder(tree)| + 1
    ensures MapOf(Inorder(tree')) == MapOf(Inorder(tree))[x.key := Entry(n, x)]
    ensures {HEAD} + Addrs(tree') == ({HEAD} + Addrs(tree)) + {n}
  {
    HoleInsert(c, n, x, m);
    AddrsInorder(tree);
    AddrsInorder(tree');
  }
}
