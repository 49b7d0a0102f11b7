/** How many entries of their fixed arrays the functions of avl-2.0/src/avl.c use, and when the
    arrays are long enough. */
module AvlStack {
  import opened Store
  import opened Ordered
  import opened AvlShape

  const AVL_MAX_HEIGHT := 32

  // One item fewer than the smallest AVL tree of height 32, and than that of height 33.
  const DELETE_ITEMS := 5_702_885
  const MAX_ITEMS := 9_227_463

  lemma SmallestTrees() returns (h: nat, h': nat)
    ensures AVL_MAX_HEIGHT <= h <= AVL_MAX_HEIGHT && h' == h + 1
    ensures MinSize(h) == DELETE_ITEMS + 1 && MinSize(h') == MAX_ITEMS + 1
  {
    h, h' := AVL_MAX_HEIGHT, AVL_MAX_HEIGHT + 1;
    assert MinSize(8) == 54 && MinSize(9) == 88;
    assert MinSize(16) == 2583 && MinSize(17) == 4180;
    assert MinSize(24) == 121392 && MinSize(25) == 196417;
    assert MinSize(31) == 3524577 && MinSize(32) == 5702886;
  }

  lemma Heights(t: Tree)
    requires Avl(t)
    ensures |Inorder(t)| <= MAX_ITEMS ==> Height(t) <= AVL_MAX_HEIGHT
    ensures |Inorder(t)| <= DELETE_ITEMS ==> Height(t) < AVL_MAX_HEIGHT
  {
    var h, h' := SmallestTrees();
    TooFew(t, h, DELETE_ITEMS);
    TooFew(t, h', MAX_ITEMS);
  }

  lemma TooFew(t: Tree, h: nat, n: nat)
    requires Avl(t) && MinSize(h) == n + 1
    ensures |Inorder(t)| <= n ==> Height(t) < h
  {
    if |Inorder(t)| <= n {
      AvlHeight(t, h);
    }
  }

  // The nodes from the root of t down its left links.
  function LeftSpine(t: Tree): nat { if t.Leaf? then 0 else 1 + LeftSpine(t.l) }

  // The entries avl_delete stacks above HEAD: the nodes compared with that do not match; and if a
  // node matches and has a right child, those from there on down to its successor.
  function Pushed(t: Tree, k: int): nat {
    if t.Leaf? then 0
    else if k == t.item.key then LeftSpine(t.r)
    else 1 + Pushed(Kid(t, k > t.item.key), k)
  }

  // A search that goes through c has stacked the nodes of c.
  lemma {:induction false} PushedThrough(c: Ctx, t: Tree, k: int)
    requires Around(c, k)
    ensures Pushed(Plug(c, t), k) == Depth(c) + Pushed(t, k)
    decreases c
  {
    if c.In? {
      var e := Entry(c.p, c.item);
      assert if c.d then e in Before(c) else e in After(c);
      assert forall x :: x in Before(c.up) ==> x in Before(c);
      assert forall x :: x in After(c.up) ==> x in After(c);
      PushedThrough(c.up, Mk(c.d, t, c.p, c.item, c.mark, c.sib), k);
    }
  }

  lemma {:induction false} SpineHeight(t: Tree)
    ensures LeftSpine(t) <= Height(t)
  {
    if t.Node? {
      SpineHeight(t.l);
    }
  }

  /* ---------- the arrays of avl_delete can be too short ---------- */

  // The smallest AVL tree of height h, with the keys, and addresses, from b on.  All its nodes
  // lean to the right.
  function Smallest(h: nat, b: nat): Tree {
    if h == 0 then Leaf
    else if h == 1 then Node(Leaf, b, Item(b, 0), 0, Leaf)
    else var m := b + MinSize(h - 2); Node(Smallest(h - 2, b), m, Item(m, 0), 1, Smallest(h - 1, m + 1))
  }

  ghost predicate KeysWithin(s: seq<Entry>, a: nat, b: nat) {
    forall e :: e in s ==> e.item.key == e.p && a <= e.p < b
  }

  lemma {:induction false} SmallestHeight(h: nat, b: nat)
    ensures Height(Smallest(h, b)) == h
    decreases h
  {
    if h > 1 {
      SmallestHeight(h - 2, b);
      SmallestHeight(h - 1, b + MinSize(h - 2) + 1);
    }
  }

  lemma {:induction false} SmallestAvl(h: nat, b: nat)
    ensures Avl(Smallest(h, b))
    decreases h
  {
    if h > 1 {
      SmallestHeight(h - 2, b);
      SmallestHeight(h - 1, b + MinSize(h - 2) + 1);
      SmallestAvl(h - 2, b);
      SmallestAvl(h - 1, b + MinSize(h - 2) + 1);
    }
  }

  lemma {:induction false} SmallestSize(h: nat, b: nat)
    ensures Size(Smallest(h, b)) == MinSize(h)
    decreases h
  {
    if h > 1 {
      SmallestSize(h - 2, b);
      SmallestSize(h - 1, b + MinSize(h - 2) + 1);
    }
  }

  lemma {:induction false} SmallestOrder(h: nat, b: nat)
    ensures KeysWithin(Inorder(Smallest(h, b)), b, b + MinSize(h)) && Sorted(Inorder(Smallest(h, b)))
    decreases h
  {
    if h > 1 {
      var m := b + MinSize(h - 2);
      SmallestOrder(h - 2, b);
      SmallestOrder(h - 1, m + 1);
      SortedJoin(Inorder(Smallest(h - 2, b)), Entry(m, Item(m, 0)), Inorder(Smallest(h - 1, m + 1)), b, b + MinSize(h));
    }
  }

  lemma SortedJoin(l: seq<Entry>, e: Entry, r: seq<Entry>, a: nat, b: nat)
    requires Sorted(l) && Sorted(r) && e.item.key == e.p && a <= e.p < b
    requires KeysWithin(l, a, e.p) && KeysWithin(r, e.p + 1, b)
    ensures Sorted(l + [e] + r) && KeysWithin(l + [e] + r, a, b)
  {
  }

  lemma {:induction false} SmallestDisj(h: nat, b: nat)
    ensures Disj(Smallest(h, b)) && forall a :: a in Addrs(Smallest(h, b)) ==> b <= a < b + MinSize(h)
    decreases h
  {
    if h > 1 {
      SmallestDisj(h - 2, b);
      SmallestDisj(h - 1, b + MinSize(h - 2) + 1);
    }
  }

  // A key beyond all of them is searched for along the right spine.
  lemma {:induction false} SmallestPath(h: nat, b: nat, k: int)
    requires k >= b + MinSize(h)
    ensures Pushed(Smallest(h, b), k) == h
    decreases h
  {
    if h == 1 {
      assert Pushed(Leaf, k) == 0;
    } else if h > 1 {
      SmallestPath(h - 1, b + MinSize(h - 2) + 1, k);
    }
  }

  // Memory that holds t.
  function MemoryOf(t: Tree): Memory {
    if t.Leaf? then map[] else (MemoryOf(t.l) + MemoryOf(t.r))[t.p := Cell(Root(t.l), Root(t.r), t.item, t.mark)]
  }

  lemma {:induction false} MemoryHolds(t: Tree)
    requires Disj(t) && NULL !in Addrs(t)
    ensures Cells(MemoryOf(t), t) && MemoryOf(t).Keys == Addrs(t)
  {
    if t.Node? {
      MemoryHolds(t.l);
      MemoryHolds(t.r);
      FrameTree(MemoryOf(t.l), MemoryOf(t), t.l);
      FrameTree(MemoryOf(t.r), MemoryOf(t), t.r);
    }
  }

  // For every height there is a valid table, with the fewest items an AVL tree of this height can
  // have, and an absent key for which avl_delete fills one entry more than the height.
  lemma DeepTable(h: nat) returns (mem: Memory, tree: Tree, k: int)
    ensures At(mem, Top, tree) && mem.Keys == {HEAD} + Addrs(tree) && Avl(tree) && Sorted(Inorder(tree))
    ensures |Inorder(tree)| == MinSize(h) && Height(tree) == h && k !in MapOf(Inorder(tree))
    ensures 1 + Pushed(tree, k) == h + 1
  {
    tree, k := Smallest(h, 2), 2 + MinSize(h);
    SmallestHeight(h, 2);
    SmallestAvl(h, 2);
    SmallestSize(h, 2);
    SizeInorder(tree);
    SmallestOrder(h, 2);
    SmallestDisj(h, 2);
    SmallestPath(h, 2, k);
    mem := TableMemoryOf(tree);
    MapKeys(Inorder(tree));
  }

  lemma TableMemoryOf(tree: Tree) returns (mem: Memory)
    requires Disj(tree) && NULL !in Addrs(tree) && HEAD !in Addrs(tree)
    ensures At(mem, Top, tree) && mem.Keys == {HEAD} + Addrs(tree)
  {
    MemoryHolds(tree);
    mem := MemoryOf(tree)[HEAD := Cell(Root(tree), NULL, Item(0, 0), 0)];
    FrameTree(MemoryOf(tree), mem, tree);
  }

  // So 32 entries do not do for every table that 32 levels do for: 33 are filled here.
  lemma DeleteOverflows() returns (mem: Memory, tree: Tree, k: int)
    ensures At(mem, Top, tree) && mem.Keys == {HEAD} + Addrs(tree) && Avl(tree) && Sorted(Inorder(tree))
    ensures |Inorder(tree)| == DELETE_ITEMS + 1 && k !in MapOf(Inorder(tree))
    ensures 1 + Pushed(tree, k) == AVL_MAX_HEIGHT + 1
  {
    var h, _ := SmallestTrees();
    mem, tree, k := DeepTable(h);
  }

  lemma DeepestHole(t: Tree) returns (c: Ctx)
    ensures Plug(c, Leaf) == t && Depth(c) == Height(t)
  {
    c := DeepestHoleIn(t, Top);
  }

  lemma {:induction false} DeepestHoleIn(t: Tree, o: Ctx) returns (c: Ctx)
    ensures Plug(c, Leaf) == Plug(o, t) && Depth(c) == Depth(o) + Height(t)
    decreases t
  {
    c := o;
    if t.Node? {
      var d := Height(t.r) >= Height(t.l);
      c := DeepestHoleIn(Kid(t, d), In(o, d, t.p, t.item, t.mark, Kid(t, !d)));
    }
  }

  // A search for an absent key ends in a hole c and fills the entries of Pa(c): they fit exactly
  // if at most 31 nodes have been compared with.
  lemma AbsentFitsIff(c: Ctx, k: int)
    requires Around(c, k)
    ensures 1 + Pushed(Plug(c, Leaf), k) == |Pa(c)|
    ensures |Pa(c)| <= AVL_MAX_HEIGHT <==> Depth(c) < AVL_MAX_HEIGHT
  {
    PushedThrough(c, Leaf, k);
  }

  // All holes of a tree are within the array exactly if the tree has less than 32 levels.
  lemma DeleteFitsIff(t: Tree)
    ensures (forall c :: Plug(c, Leaf) == t ==> |Pa(c)| <= AVL_MAX_HEIGHT) <==> Height(t) < AVL_MAX_HEIGHT
  {
    var deep := DeepestHole(t);
    forall c | Plug(c, Leaf) == t ensures |Pa(c)| <= 1 + Height(t) {
      PlugHeight(c, Leaf);
    }
  }

  /* ---------- when avl_probe rotates ---------- */

  // Whether the last node with a nonzero balance on the search path leans towards the key.
  function Leans(t: Tree, k: int, before: bool): bool {
    if t.Leaf? || k == t.item.key then before
    else Leans(Kid(t, k > t.item.key), k, if t.mark == 0 then before else t.mark == Sgn(k > t.item.key))
  }
}
