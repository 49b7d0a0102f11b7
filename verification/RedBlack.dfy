/** avl-2.0/src/rb.c: the red-black table. */
module RedBlack {
  import opened Store
  import opened Ordered
  import opened Splice
  import opened RedBlackShape
  import opened RedBlackInsert
  import opened RedBlackDelete

  const RB_MAX_HEIGHT := 48

  lemma StackHeight(inn: Ctx, o: Ctx, st: Tree)
    requires st.Node? && o.In?
    ensures |Pa(Join(inn, o))| <= Height(Plug(Join(inn, o), st))
  {
    PlugHeight(Join(inn, o), st);
  }

  // rb_delete pushes at most one entry beyond the path to the node it takes out.
  lemma RemoveBound(tree: Tree, k: nat, high: nat)
    requires IsRB(tree) && k <= Height(tree) && high <= k + 1
    ensures |Inorder(tree)| <= MAX_ITEMS ==> high <= RB_MAX_HEIGHT
  {
    if |Inorder(tree)| <= MAX_ITEMS {
      HeightBound(tree);
    }
  }

  // The stack holds HEAD and proper ancestors only.
  lemma DescentBound(c: Ctx, t: Tree, tree: Tree)
    requires Plug(c, t) == tree && IsRB(tree)
    ensures |Inorder(tree)| <= MAX_ITEMS ==> |Pa(c)| < RB_MAX_HEIGHT
  {
    PlugHeight(c, t);
    if |Inorder(tree)| <= MAX_ITEMS {
      HeightBound(tree);
    }
  }

  lemma ReplaceNode(mem: Memory, tree: Tree, x: Item) returns (c: Ctx, t: Tree)
    requires At(mem, Top, tree) && IsRB(tree) && Sorted(Inorder(tree)) && x.key in MapOf(Inorder(tree))
    ensures t.Node? && t.p in mem && t.p == MapOf(Inorder(tree))[x.key].p && Plug(c, t) == tree
    ensures var tree' := Plug(c, t.(item := x));
            && At(mem[t.p := mem[t.p].(item := x)], Top, tree') && IsRB(tree') && Addrs(tree') == Addrs(tree)
            && Sorted(Inorder(tree')) && |Inorder(tree')| == |Inorder(tree)|
            && MapOf(Inorder(tree')) == MapOf(Inorder(tree))[x.key := Entry(t.p, x)]
  {
    MapKeys(Inorder(tree));
    SortedTree(tree);
    c, t := NodeOf(mem, Top, tree, x.key);
    ItemStored(c, t, x);
    ReplaceAt(mem, c, t, x);
  }

  lemma ReplaceAt(mem: Memory, c: Ctx, t: Tree, x: Item)
    requires At(mem, c, t) && t.Node? && IsRB(Plug(c, t))
    requires Nodes(Inorder(Plug(c, t.(item := x)))) == Nodes(Inorder(Plug(c, t)))
    ensures t.p in mem && At(mem[t.p := mem[t.p].(item := x)], Top, Plug(c, t.(item := x)))
    ensures IsRB(Plug(c, t.(item := x))) && Addrs(Plug(c, t.(item := x))) == Addrs(Plug(c, t))
  {
    var t' := t.(item := x);
    StoreData(mem, c, t, x);
    PlugAt(mem[t.p := mem[t.p].(item := x)], c, t');
    AddrsInorder(Plug(c, t));
    AddrsInorder(Plug(c, t'));
    var h :| RB(Plug(c, t), h);
    PlugItemRB(c, t, t', h);
  }

  // The nodes of a tree and their places, without the items they hold.
  function Shape(t: Tree): Tree {
    if t.Leaf? then Leaf else Node(Shape(t.l), t.p, Item(0, 0), t.mark, Shape(t.r))
  }

  lemma {:induction false} PlugShape(c: Ctx, t: Tree, t': Tree)
    requires Shape(t) == Shape(t')
    ensures Shape(Plug(c, t)) == Shape(Plug(c, t'))
    decreases c
  {
    if c.In? {
      PlugShape(c.up, Mk(c.d, t, c.p, c.item, c.mark, c.sib), Mk(c.d, t', c.p, c.item, c.mark, c.sib));
    }
  }

  // What every call does to the generation: it moves on, or the nodes stay where they are.
  ghost predicate Tick(g: nat, t: Tree, g': nat, t': Tree) {
    (g' == g && Shape(t') == Shape(t)) || g' == (g + 1) % ULONG
  }

  // A call for key k ticks and leaves all other keys to their nodes.
  ghost predicate Call(g: nat, t: Tree, g': nat, t': Tree, k: int) {
    Tick(g, t, g', t') && MapOf(Inorder(t')) - {k} == MapOf(Inorder(t)) - {k}
  }

  lemma CallStored(g: nat, t: Tree, g': nat, t': Tree, k: int, e: Entry)
    requires Tick(g, t, g', t') && MapOf(Inorder(t')) == MapOf(Inorder(t))[k := e]
    ensures Call(g, t, g', t', k)
  {
  }

  class RbTable {
    var node: Memory
    var count: nat
    var generation: nat
    ghost var tree: Tree

    ghost predicate Valid()
      reads this
    {
      && At(node, Top, tree) && node.Keys == {HEAD} + Addrs(tree)
      && IsRB(tree)
      && Sorted(Inorder(tree)) && count == |Inorder(tree)| && generation < ULONG
    }

    ghost function Table(): map<int, Entry>
      reads this
    {
      MapOf(Inorder(tree))
    }

    constructor ()
      ensures Valid() && Table() == map[] && count == 0 && generation == 0
    {
      node := map[HEAD := Cell(NULL, NULL, Item(0, 0), BLACK)];
      count, generation := 0, 0;
      tree := Leaf;
      new;
      assert RB(tree, 0);
    }

    method Find(item: Item) returns (found: Option<Item>)
      requires Valid()
      ensures found == if item.key in Table() then Some(Table()[item.key].item) else None
    {
      SortedTree(tree);
      ghost var c, t := Top, tree;
      var p := node[HEAD].l;
      while p != NULL
        invariant At(node, c, t) && p == Root(t) && Plug(c, t) == tree
        invariant SearchTree(t) && Around(c, item.key)
        decreases t
      {
        RootIn(node, t);
        if item.key == node[p].item.key {
          NodeFound(c, t);
          return Some(node[p].item);
        }
        SearchStep(node, c, t, item.key);
        var d := item.key > node[p].item.key;
        c, t := In(c, d, p, t.item, t.mark, Kid(t, !d)), Kid(t, d);
        p := Link(node[p], d);
      }
      RootIn(node, t);
      Absence(c, item.key);
      return None;
    }

    // The descent of rb_probe, which fills pa and da; p is NULL if the key is absent.
    method Descend(item: Item) returns (p: Ptr, pa: seq<Ptr>, da: seq<bool>, ghost c: Ctx, ghost t: Tree, ghost h: nat)
      requires Valid()
      ensures At(node, c, t) && p == Root(t) && Plug(c, t) == tree && pa == Pa(c) && da == Da(c)
      ensures RB(t, h) && CtxRB(c, h, IsRed(t))
      ensures if t.Leaf? then Around(c, item.key) else t.item.key == item.key && p in node && node[p].item == t.item
    {
      SortedTree(tree);
      pa, da := [HEAD], [false];
      c, t := Top, tree;
      h :| RB(tree, h);
      p := node[HEAD].l;
      while p != NULL
        invariant At(node, c, t) && p == Root(t) && Plug(c, t) == tree && pa == Pa(c) && da == Da(c)
        invariant SearchTree(t) && Around(c, item.key)
        invariant RB(t, h) && CtxRB(c, h, IsRed(t))
        decreases t
      {
        RootIn(node, t);
        if item.key == node[p].item.key {
          return;
        }
        SearchStep(node, c, t, item.key);
        var d := item.key > node[p].item.key;
        h := DownRB(c, t, h, d);
        c, t := In(c, d, p, t.item, t.mark, Kid(t, !d)), Kid(t, d);
        pa, da := pa + [p], da + [d];
        p := Link(node[p], d);
      }
      RootIn(node, t);
    }

    // n is the address malloc returns, NULL if it fails.  The result is the node
    // whose data field the C function points to.  `high` counts the entries of
    // pa and da that are written.
    method Probe(item: Item, n: Ptr) returns (slot: Ptr, ghost high: nat)
      requires Valid() && (n == NULL || n !in node)
      modifies this
      ensures Valid()
      ensures old(count) <= MAX_ITEMS ==> high <= RB_MAX_HEIGHT
      ensures item.key in old(Table()) || n == NULL ==> unchanged(this)
      ensures item.key in old(Table()) ==> slot == Table()[item.key].p
      ensures item.key !in old(Table()) ==> slot == n
      ensures item.key !in old(Table()) && n != NULL ==>
                && Table() == old(Table())[item.key := Entry(n, item)]
                && count == old(count) + 1 && generation == (old(generation) + 1) % ULONG
      ensures Call(old(generation), old(tree), generation, tree, item.key)
    {
      var p, pa, da;
      ghost var c, t, h;
      p, pa, da, c, t, h := Descend(item);
      high := |pa|;
      DescentBound(c, t, tree);
      if p != NULL {
        NodeFound(c, t);
        return p, high;
      }
      Absence(c, item.key);
      if n != NULL {
        AttachRed(item, n, pa, da, c, h);
      }
      slot := n;
    }

    // rb_probe from the successful allocation on.
    method AttachRed(item: Item, n: Ptr, pa: seq<Ptr>, da: seq<bool>, ghost c: Ctx, ghost h: nat)
      requires Valid() && Plug(c, Leaf) == tree && At(node, c, Leaf) && Around(c, item.key)
      requires n != NULL && n !in node && pa == Pa(c) && da == Da(c) && h == 0 && CtxRB(c, h, false)
      modifies this
      ensures Valid() && Table() == old(Table())[item.key := Entry(n, item)]
      ensures Call(old(generation), old(tree), generation, tree, item.key)
      ensures count == old(count) + 1 && generation == (old(generation) + 1) % ULONG
    {
      GrowTree(item, n, pa, da, c, h);
      count := count + 1;
      generation := (generation + 1) % ULONG;
      TableGrown(old(tree), c, n, item, RED, tree);
      CallStored(old(generation), old(tree), generation, tree, item.key, Entry(n, item));
    }

    method GrowTree(item: Item, n: Ptr, pa: seq<Ptr>, da: seq<bool>, ghost c: Ctx, ghost h: nat)
      requires At(node, c, Leaf) && n != NULL && n !in node && pa == Pa(c) && da == Da(c) && h == 0 && CtxRB(c, h, false)
      modifies this`node, this`tree
      ensures At(node, Top, tree) && IsRB(tree) && node.Keys == old(node.Keys) + {n}
      ensures Inorder(tree) == Inorder(Plug(c, Node(Leaf, n, item, RED, Leaf)))
    {
      AttachNode(item, n, pa[|pa| - 1], da[|da| - 1], c);
      RestoreAfterInsert(pa, da, c, Node(Leaf, n, item, RED, Leaf), h);
    }

    method AttachNode(item: Item, n: Ptr, q: Ptr, dir: bool, ghost c: Ctx)
      requires At(node, c, Leaf) && n != NULL && n !in node && q == Last(c) && dir == Side(c)
      modifies this`node
      ensures At(node, c, Node(Leaf, n, item, RED, Leaf)) && node.Keys == old(node.Keys) + {n}
    {
      Attach(node, c, n, item, RED);
      node := SetLink(node, q, dir, n)[n := Cell(NULL, NULL, item, RED)];
    }

    // The test of the loop.
    method ParentIsRed(pa: seq<Ptr>, ghost c: Ctx, ghost t: Tree, ghost h: nat) returns (red: bool)
      requires At(node, c, t) && Inserting(c, t, h) && pa == Pa(c)
      ensures red <==> c.In? && c.mark == RED
    {
      InsertView(node, c, t, h);
      red := |pa| >= 3 && node[pa[|pa| - 1]].mark == RED;
    }

    // The body of the loop: the violation moves up two levels, or rotations end it.
    method InsertStep(pa: seq<Ptr>, da: seq<bool>, ghost c: Ctx, ghost t: Tree, ghost h: nat)
      returns (done: bool, pa': seq<Ptr>, da': seq<bool>, ghost c': Ctx, ghost t': Tree, ghost h': nat)
      requires At(node, c, t) && Inserting(c, t, h) && c.In? && c.mark == RED && pa == Pa(c) && da == Da(c)
      modifies this`node, this`tree
      ensures node.Keys == old(node.Keys)
      ensures done ==> At(node, Top, tree) && IsRB(tree) && Inorder(tree) == Inorder(Plug(c, t))
      ensures !done ==> At(node, c', t') && Inserting(c', t', h') && pa' == Pa(c') && da' == Da(c') && |pa'| == |pa| - 2
      ensures !done ==> c.up.In? && c' == c.up.up && Inorder(Plug(c', t')) == Inorder(Plug(c, t))
    {
      var k := |pa|;
      pa', da', c', t', h' := pa, da, c, t, h;
      var y, red := Uncle(pa, da, c, t, h);
      if red {
        RecolourAfterInsert(pa[k - 1], y, pa[k - 2], c, t, h);
        pa', da' := pa[..k - 2], da[..k - 2];
        c', t', h' := c.up.up, Recoloured(c, t), h + 1;
        done := false;
      } else {
        RotateAfterInsert(pa, da, c, t, h);
        done := true;
      }
    }

    // The sibling of the red parent of the new node, and whether it is red.
    method Uncle(pa: seq<Ptr>, da: seq<bool>, ghost c: Ctx, ghost t: Tree, ghost h: nat) returns (y: Ptr, red: bool)
      requires At(node, c, t) && Inserting(c, t, h) && c.In? && c.mark == RED && pa == Pa(c) && da == Da(c)
      ensures c.up.In? && y == Root(c.up.sib) && red == IsRed(c.up.sib)
      ensures var k := |pa|;
              && k >= 3 && pa[k - 1] == c.p && pa[k - 2] == c.up.p
              && pa[..k - 2] == Pa(c.up.up) && da[..k - 2] == Da(c.up.up)
    {
      InsertView(node, c, t, h);
      var k := |pa|;
      y := Link(node[pa[k - 2]], !da[k - 2]);
      red := y != NULL && node[y].mark == RED;
    }

    // The loop of rb_probe that follows the new red node up, and the line after it.
    method RestoreAfterInsert(pa0: seq<Ptr>, da0: seq<bool>, ghost c0: Ctx, ghost t0: Tree, ghost h0: nat)
      requires At(node, c0, t0) && Inserting(c0, t0, h0) && pa0 == Pa(c0) && da0 == Da(c0)
      modifies this`node, this`tree
      ensures node.Keys == old(node.Keys)
      ensures At(node, Top, tree) && IsRB(tree) && Inorder(tree) == Inorder(Plug(c0, t0))
    {
      var pa, da := pa0, da0;
      ghost var c, t, h := c0, t0, h0;
      var done := false;
      var red := ParentIsRed(pa, c, t, h);
      while red && !done
        invariant !done ==> pa == Pa(c) && da == Da(c) && At(node, c, t) && Inserting(c, t, h) && (red <==> c.In? && c.mark == RED)
        invariant !done ==> Inorder(Plug(c, t)) == Inorder(Plug(c0, t0))
        invariant done ==> At(node, Top, tree) && IsRB(tree) && Inorder(tree) == Inorder(Plug(c0, t0))
        invariant node.Keys == old(node.Keys)
        decreases !done, |pa|
      {
        done, pa, da, c, t, h := InsertStep(pa, da, c, t, h);
        if !done {
          red := ParentIsRed(pa, c, t, h);
        }
      }
      if done {
        return;
      }
      RootBlackened(node, c, t, h);
      node := SetMark(node, node[HEAD].l, BLACK);
      tree := BlackRoot(Plug(c, t));
    }

    // Red uncle y: parent and uncle turn black, the grandparent red.
    method RecolourAfterInsert(q: Ptr, y: Ptr, g: Ptr, ghost c: Ctx, ghost t: Tree, ghost h: nat)
      requires At(node, c, t) && Inserting(c, t, h)
      requires c.In? && c.mark == RED && c.up.In? && IsRed(c.up.sib)
      requires q == c.p && y == c.up.sib.p && g == c.up.p
      modifies this`node
      ensures node.Keys == old(node.Keys)
      ensures At(node, c.up.up, Recoloured(c, t)) && Inserting(c.up.up, Recoloured(c, t), h + 1)
      ensures Inorder(Plug(c.up.up, Recoloured(c, t))) == Inorder(Plug(c, t))
    {
      RecolourCase(node, c, t, h);
      node := SetMark(node, q, BLACK);
      node := SetMark(node, y, BLACK);
      node := SetMark(node, g, RED);
    }

    // Black uncle: one or two rotations end the fix-up.
    method RotateAfterInsert(pa: seq<Ptr>, da: seq<bool>, ghost c0: Ctx, ghost t0: Tree, ghost h: nat)
      requires At(node, c0, t0) && Inserting(c0, t0, h) && pa == Pa(c0) && da == Da(c0)
      requires c0.In? && c0.mark == RED && c0.up.In? && !IsRed(c0.up.sib)
      modifies this`node, this`tree
      ensures node.Keys == old(node.Keys)
      ensures At(node, Top, tree) && IsRB(tree) && Inorder(tree) == Inorder(Plug(c0, t0))
    {
      PaTop(c0);
      var k := |pa|;
      var d, g, x, y := da[k - 2], pa[k - 2], NULL, NULL;
      ghost var c, t := c0, t0;
      if da[k - 1] == d {
        y := pa[k - 1];
      } else {
        InnerStep(node, c, t);
        InnerRB(c, t, h);
        x := pa[k - 1];
        y := Link(node[x], !d);
        node := SetLink(node, x, !d, Link(node[y], d));
        node := SetLink(node, y, d, x);
        node := SetLink(node, g, d, y);
        c, t := In(c.up, d, y, t.item, t.mark, Kid(t, !d)), Mk(d, c.sib, x, c.item, c.mark, Kid(t, d));
      }
      ghost var done := OuterCase(node, c, t, h);
      x := g;
      node := SetMark(SetMark(node, x, RED), y, BLACK);
      node := SetLink(node, x, d, Link(node[y], !d));
      node := SetLink(node, y, !d, x);
      node := SetLink(node, pa[k - 3], da[k - 3], y);
      Recolor(node, Top, done, BLACK);
      node := SetMark(node, node[HEAD].l, BLACK);
      tree := done;
    }

    /* ---------- deletion ---------- */

    // The descent of rb_delete: pa[0] is HEAD, as if the comparison with it gave -1.
    method Locate(item: Item) returns (p: Ptr, pa: seq<Ptr>, da: seq<bool>, ghost c: Ctx, ghost t: Tree, ghost h: nat)
      requires Valid()
      ensures At(node, c, t) && p == Root(t) && Plug(c, t) == tree && pa == Pa(c) && da == Da(c)
      ensures RB(t, h) && CtxRB(c, h, IsRed(t))
      ensures if t.Leaf? then Around(c, item.key) else t.item.key == item.key
    {
      SortedTree(tree);
      c, t := Top, tree;
      h :| RB(tree, h);
      pa, da, p := [], [], HEAD;
      var cmp := -1;
      while cmp != 0
        invariant At(node, c, t) && Plug(c, t) == tree && SearchTree(t) && Around(c, item.key)
        invariant RB(t, h) && CtxRB(c, h, IsRed(t))
        invariant pa == [] ==> p == HEAD && cmp == -1 && c == Top && da == []
        invariant pa != [] ==> pa == Pa(c) && da == Da(c) && t.Node? && p == t.p && cmp == Compare(item, t.item)
        decreases if pa == [] then 1 else 0, t
      {
        var dir := cmp > 0;
        if pa != [] {
          RootIn(node, t);
          SearchStep(node, c, t, item.key);
          h := DownRB(c, t, h, dir);
          c, t := In(c, dir, p, t.item, t.mark, Kid(t, !dir)), Kid(t, dir);
        }
        pa, da := pa + [p], da + [dir];
        p := Link(node[p], dir);
        RootIn(node, t);
        if p == NULL {
          return;
        }
        cmp := Compare(item, node[p].item);
      }
    }

    // Takes the node p out of the tree; its record stays in memory until it is freed.
    method Unlink(p: Ptr, pa: seq<Ptr>, da: seq<bool>, ghost c: Ctx, ghost t: Tree, ghost h: nat)
      returns (pa': seq<Ptr>, da': seq<bool>, ghost c': Ctx, ghost x: Tree, ghost h': nat, ghost a: seq<Entry>, ghost b: seq<Entry>)
      requires At(node, c, t) && t.Node? && t.p == p && pa == Pa(c) && da == Da(c)
      requires RB(t, h) && CtxRB(c, h, IsRed(t))
      modifies this`node
      ensures node.Keys == old(node.Keys) && p in node && p !in CtxAddrs(c') + Addrs(x)
      ensures At(node, c', x) && pa' == Pa(c') && da' == Da(c') && TakenOut(node[p].mark, c', x, h')
      ensures Inorder(Plug(c, t)) == a + [Entry(p, t.item)] + b && Inorder(Plug(c', x)) == a + b
      ensures |pa'| <= Height(Plug(c, t))
    {
      RootIn(node, t);
      PlugHeight(c, t);
      if node[p].r == NULL {
        RootIn(node, t.r);
        Bypass(node, c, t, false);
        h' := BypassRB(c, t, h);
        a, b := BypassInorder(c, t);
        node := SetLink(node, pa[|pa| - 1], da[|da| - 1], node[p].l);
        return pa, da, c, t.l, h', a, b;
      }
      var r := node[p].r;
      RootIn(node, t.r);
      RootIn(node, t.r.l);
      if node[r].l == NULL {
        pa', da', c', x, h', a, b := UnlinkNext(p, r, pa, da, c, t, h);
      } else {
        pa', da', c', x, h', a, b := UnlinkSuccessor(p, pa, da, c, t, h);
      }
    }

    // The right child r of p has no left child.
    method UnlinkNext(p: Ptr, r: Ptr, pa: seq<Ptr>, da: seq<bool>, ghost c: Ctx, ghost t: Tree, ghost h: nat)
      returns (pa': seq<Ptr>, da': seq<bool>, ghost c': Ctx, ghost x: Tree, ghost h': nat, ghost a: seq<Entry>, ghost b: seq<Entry>)
      requires At(node, c, t) && t.Node? && t.p == p && t.r.Node? && t.r.p == r && t.r.l.Leaf?
      requires pa == Pa(c) && da == Da(c) && RB(t, h) && CtxRB(c, h, IsRed(t))
      modifies this`node
      ensures node.Keys == old(node.Keys) && p in node && p !in CtxAddrs(c') + Addrs(x)
      ensures At(node, c', x) && pa' == Pa(c') && da' == Da(c') && TakenOut(node[p].mark, c', x, h')
      ensures Inorder(Plug(c, t)) == a + [Entry(p, t.item)] + b && Inorder(Plug(c', x)) == a + b
      ensures |pa'| <= Depth(c) + 2
    {
      Down(node, c, true, t);
      h' := DownRB(c, t, h, true);
      h' := MoveUpRB(c, p, t.item, t.mark, t.l, Top, t.r, h');
      a, b := MoveUpInorder(c, p, t.item, t.mark, t.l, Top, t.r);
      NextMovedUp(node, c, t);
      RootIn(node, t);
      RootIn(node, t.r);
      ghost var mem := node;
      node := SetLink(node, r, false, node[p].l);
      var m := node[r].mark;
      node := SetMark(node, r, node[p].mark);
      node := SetMark(node, p, m);
      node := SetLink(node, pa[|pa| - 1], da[|da| - 1], r);
      MoveUp(mem, node, c, p, t.item, t.mark, t.l, Top, t.r);
      c', x := In(c, true, r, t.r.item, t.mark, t.l), t.r.r;
      pa', da' := pa + [r], da + [true];
    }

    // The successor s of p is found by going left from p's right child.
    method UnlinkSuccessor(p: Ptr, pa: seq<Ptr>, da: seq<bool>, ghost c: Ctx, ghost t: Tree, ghost h: nat)
      returns (pa': seq<Ptr>, da': seq<bool>, ghost c': Ctx, ghost x: Tree, ghost h': nat, ghost a: seq<Entry>, ghost b: seq<Entry>)
      requires At(node, c, t) && t.Node? && t.p == p && t.r.Node? && t.r.l.Node?
      requires pa == Pa(c) && da == Da(c) && RB(t, h) && CtxRB(c, h, IsRed(t))
      modifies this`node
      ensures node.Keys == old(node.Keys) && p in node && p !in CtxAddrs(c') + Addrs(x)
      ensures At(node, c', x) && pa' == Pa(c') && da' == Da(c') && TakenOut(node[p].mark, c', x, h')
      ensures Inorder(Plug(c, t)) == a + [Entry(p, t.item)] + b && Inorder(Plug(c', x)) == a + b
      ensures |pa'| <= Height(Plug(c, t))
    {
      ghost var o := In(c, true, p, t.item, t.mark, t.l);
      ghost var inn, st, hs;
      var s, r;
      s, r, pa', da', inn, st, hs := Successor(p, pa, da, c, t, h);
      var j := |pa|;
      ghost var o' := In(c, true, s, st.item, t.mark, t.l);
      PaJoin(inn, o, o');
      StackHeight(inn, o, st);
      h' := MoveUpRB(c, p, t.item, t.mark, t.l, inn, st, hs);
      a, b := MoveUpInorder(c, p, t.item, t.mark, t.l, inn, st);
      pa', da' := pa'[j := s], da'[j := true];
      MoveSuccessorUp(p, s, r, pa'[j - 1], da'[j - 1], c, t, inn, st);
      c', x := Join(inn, o'), st.r;
    }

    // Puts s, whose parent is r, in the place of p below node `above`.
    method MoveSuccessorUp(p: Ptr, s: Ptr, r: Ptr, above: Ptr, dir: bool, ghost c: Ctx, ghost t: Tree, ghost inn: Ctx, ghost st: Tree)
      requires t.Node? && t.p == p && At(node, Join(inn, In(c, true, p, t.item, t.mark, t.l)), st)
      requires LeftPath(inn) && inn.In? && inn.p == r && st.Node? && st.p == s && st.l.Leaf?
      requires above == Last(c) && dir == Side(c)
      modifies this`node
      ensures node.Keys == old(node.Keys) && p in node && node[p].mark == st.mark
      ensures At(node, Join(inn, In(c, true, s, st.item, t.mark, t.l)), st.r)
      ensures p !in CtxAddrs(Join(inn, In(c, true, s, st.item, t.mark, t.l))) + Addrs(st.r)
    {
      SuccessorView(node, c, p, t.item, t.mark, t.l, inn, st);
      SuccessorMovedUp(node, c, p, t.item, t.mark, t.l, inn, st);
      ghost var mem := node;
      node := SetLink(node, above, dir, s);
      node := SetLink(node, s, false, node[p].l);
      node := SetLink(node, r, false, node[s].r);
      node := SetLink(node, s, true, node[p].r);
      var m := node[s].mark;
      node := SetMark(node, s, node[p].mark);
      node := SetMark(node, p, m);
      MoveUp(mem, node, c, p, t.item, t.mark, t.l, inn, st);
    }

    // The inner loop of rb_delete.  Slot |pa| of the stack is reserved for the successor.
    method Successor(p: Ptr, pa: seq<Ptr>, da: seq<bool>, ghost c: Ctx, ghost t: Tree, ghost h: nat)
      returns (s: Ptr, r: Ptr, pa': seq<Ptr>, da': seq<bool>, ghost inn: Ctx, ghost st: Tree, ghost hs: nat)
      requires At(node, c, t) && t.Node? && t.p == p && t.r.Node? && t.r.l.Node?
      requires pa == Pa(c) && da == Da(c) && RB(t, h) && CtxRB(c, h, IsRed(t))
      ensures var o := In(c, true, p, t.item, t.mark, t.l);
              && At(node, Join(inn, o), st) && RB(st, hs) && CtxRB(Join(inn, o), hs, IsRed(st))
              && |pa'| == |Pa(Join(inn, o))| > |pa| && |da'| == |pa'|
              && pa'[|pa| := p] == Pa(Join(inn, o)) && da'[|pa| := true] == Da(Join(inn, o))
              && Plug(Join(inn, o), st) == Plug(c, t)
      ensures LeftPath(inn) && inn.In? && inn.p == r && st.Node? && st.p == s && st.l.Leaf?
    {
      ghost var o := In(c, true, p, t.item, t.mark, t.l);
      Down(node, c, true, t);
      hs := DownRB(c, t, h, true);
      RootIn(node, t);
      inn, st := Top, t.r;
      pa', da' := pa + [NULL], da + [false];
      r := node[p].r;
      s := NULL;
      while true
        invariant At(node, Join(inn, o), st) && RB(st, hs) && CtxRB(Join(inn, o), hs, IsRed(st))
        invariant |pa'| == |Pa(Join(inn, o))| > |pa| && |da'| == |pa'|
        invariant pa'[|pa| := p] == Pa(Join(inn, o)) && da'[|pa| := true] == Da(Join(inn, o))
        invariant Plug(Join(inn, o), st) == Plug(c, t)
        invariant LeftPath(inn) && st.Node? && st.p == r && st.l.Node?
        decreases st
      {
        RootIn(node, st);
        Down(node, Join(inn, o), false, st);
        hs := DownRB(Join(inn, o), st, hs, false);
        PushUpdate(pa', |pa|, p, r);
        PushUpdate(da', |pa|, true, false);
        da' := da' + [false];
        pa' := pa' + [r];
        s := node[r].l;
        inn, st := In(inn, false, r, st.item, st.mark, st.r), st.l;
        RootIn(node, st);
        RootIn(node, st.l);
        if node[s].l == NULL {
          break;
        }
        r := s;
      }
    }

    // The fix-up loop of rb_delete.  It pushes on the stack in the red-sibling case, yet ends:
    // then the next node it looks at is red.
    method RestoreAfterDelete(pa0: seq<Ptr>, da0: seq<bool>, ghost c0: Ctx, ghost x0: Tree, ghost h0: nat)
      returns (ghost high: nat, ghost pushes: nat)
      requires At(node, c0, x0) && Deleting(c0, x0, h0) && pa0 == Pa(c0) && da0 == Da(c0)
      modifies this`node, this`tree
      ensures node.Keys == old(node.Keys) && pushes <= 1 && high <= |pa0| + pushes
      ensures At(node, Top, tree) && IsRB(tree) && Inorder(tree) == Inorder(Plug(c0, x0))
    {
      var pa, da := pa0, da0;
      ghost var c, t, h := c0, x0, h0;
      high, pushes := |pa0|, 0;
      var done := false;
      while !done
        invariant !done ==> At(node, c, t) && Deleting(c, t, h) && pa == Pa(c) && da == Da(c)
        invariant !done ==> Inorder(Plug(c, t)) == Inorder(Plug(c0, x0)) && |pa| <= |pa0| && (pushes > 0 ==> IsRed(t))
        invariant done ==> At(node, Top, tree) && IsRB(tree) && Inorder(tree) == Inorder(Plug(c0, x0))
        invariant pushes <= 1 && high <= |pa0| + pushes && node.Keys == old(node.Keys)
        decreases !done, if IsRed(t) then 0 else |pa|
      {
        ghost var pushed;
        var k := |pa|;
        done, pa, da, c, t, h, pushed := FixUp(pa, da, c, t, h);
        if pushed {
          pushes := pushes + 1;
          high := if k + 1 > high then k + 1 else high;
        }
      }
    }

    // One round of the fix-up loop.  A round that pushes is the last but one, at most.
    method FixUp(pa: seq<Ptr>, da: seq<bool>, ghost c: Ctx, ghost t: Tree, ghost h: nat)
      returns (done: bool, pa': seq<Ptr>, da': seq<bool>, ghost c': Ctx, ghost t': Tree, ghost h': nat, ghost pushed: bool)
      requires At(node, c, t) && Deleting(c, t, h) && pa == Pa(c) && da == Da(c)
      modifies this`node, this`tree
      ensures node.Keys == old(node.Keys) && (IsRed(t) ==> done && !pushed)
      ensures done ==> At(node, Top, tree) && IsRB(tree) && Inorder(tree) == Inorder(Plug(c, t))
      ensures !done ==> At(node, c', t') && Deleting(c', t', h') && pa' == Pa(c') && da' == Da(c')
      ensures !done ==> Inorder(Plug(c', t')) == Inorder(Plug(c, t)) && (if pushed then IsRed(t') && |pa'| <= |pa| else |pa'| < |pa|)
    {
      PaTop(c);
      DeleteView(node, c, t, h);
      pa', da', c', t', h', pushed := pa, da, c, t, h, false;
      var k := |pa|;
      var x := Link(node[pa[k - 1]], da[k - 1]);
      if x != NULL && node[x].mark == RED {
        RedFound(node, c, t, h);
        node := SetMark(node, x, BLACK);
        tree := Plug(c, BlackRoot(t));
        done := true;
      } else if k < 2 {
        tree := t;
        done := true;
      } else {
        done, pa', da', c', t', h', pushed := FixSibling(pa, da, c, t, h);
      }
    }

    // The part of a round in which there is a sibling.
    method FixSibling(pa: seq<Ptr>, da: seq<bool>, ghost c: Ctx, ghost t: Tree, ghost h: nat)
      returns (done: bool, pa': seq<Ptr>, da': seq<bool>, ghost c': Ctx, ghost t': Tree, ghost h': nat, ghost pushed: bool)
      requires At(node, c, t) && Deleting(c, t, h) && pa == Pa(c) && da == Da(c) && c.In? && !IsRed(t)
      modifies this`node, this`tree
      ensures node.Keys == old(node.Keys)
      ensures done ==> At(node, Top, tree) && IsRB(tree) && Inorder(tree) == Inorder(Plug(c, t))
      ensures !done ==> At(node, c', t') && Deleting(c', t', h') && pa' == Pa(c') && da' == Da(c')
      ensures !done ==> Inorder(Plug(c', t')) == Inorder(Plug(c, t)) && (if pushed then IsRed(t') && |pa'| <= |pa| else |pa'| < |pa|)
    {
      PaTop(c);
      DeleteView(node, c, t, h);
      pa', da', c', pushed := pa, da, c, false;
      var k := |pa|;
      var d := da[k - 1];
      var w := Link(node[pa[k - 1]], !d);
      if node[w].mark == RED {
        c', pa', da' := RotateRedSibling(w, pa, da, c, t, h);
        pushed := true;
        k := |pa'|;
        w := Link(node[pa'[k - 1]], !d);
      }
      done, t', h' := RepairAtSibling(w, pa', da', c', t, h);
      if !done {
        PaTop(c');
        pa', da', c' := pa'[..k - 1], da'[..k - 1], c'.up;
      }
    }


    // Red sibling w: rotate it above the parent, which becomes one entry more on the stack.
    method RotateRedSibling(w: Ptr, pa: seq<Ptr>, da: seq<bool>, ghost c: Ctx, ghost x: Tree, ghost h: nat)
      returns (ghost c': Ctx, pa': seq<Ptr>, da': seq<bool>)
      requires At(node, c, x) && Deleting(c, x, h) && c.In? && IsRed(c.sib) && w == c.sib.p
      requires pa == Pa(c) && da == Da(c)
      modifies this`node
      ensures node.Keys == old(node.Keys)
      ensures At(node, c', x) && Deleting(c', x, h) && pa' == Pa(c') && da' == Da(c') && |pa'| == |pa| + 1
      ensures c'.In? && c'.d == c.d && c'.mark == RED && !IsRed(c'.sib)
      ensures pa'[|pa'| - 1] in node && Link(node[pa'[|pa'| - 1]], !c.d) == Root(c'.sib)
      ensures Inorder(Plug(c', x)) == Inorder(Plug(c, x))
    {
      PaTop(c);
      var k := |pa|;
      var d, q := da[k - 1], pa[k - 1];
      RedSiblingAt(node, c, x);
      RedSiblingRB(c, x, h);
      RedSiblingInorder(c, x);
      Peek(node, c, Root(x));
      node := SetMark(SetMark(node, w, BLACK), q, RED);
      node := SetLink(node, q, !d, Link(node[w], d));
      node := SetLink(node, w, d, q);
      node := SetLink(node, pa[k - 2], da[k - 2], w);
      pa', da' := pa[..k - 1] + [w, q], da + [d];
      c' := BelowSibling(c);
      BelowSiblingStack(c);
      Peek(node, c', Root(x));
    }

    // Black sibling w: either the lack moves up (not done), or rotations end the fix-up.
    method RepairAtSibling(w: Ptr, pa: seq<Ptr>, da: seq<bool>, ghost c: Ctx, ghost x: Tree, ghost h: nat)
      returns (done: bool, ghost x': Tree, ghost h': nat)
      requires At(node, c, x) && Deleting(c, x, h) && !IsRed(x) && c.In? && !IsRed(c.sib) && w == Root(c.sib)
      requires pa == Pa(c) && da == Da(c)
      modifies this`node, this`tree
      ensures node.Keys == old(node.Keys)
      ensures done ==> At(node, Top, tree) && IsRB(tree) && Inorder(tree) == Inorder(Plug(c, x))
      ensures !done ==> At(node, c.up, x') && Deleting(c.up, x', h') && (c.mark == RED ==> IsRed(x'))
      ensures !done ==> Inorder(Plug(c.up, x')) == Inorder(Plug(c, x))
    {
      SiblingView(node, c, x, h);
      x', h' := x, h;
      if (node[w].l == NULL || node[node[w].l].mark == BLACK) && (node[w].r == NULL || node[node[w].r].mark == BLACK) {
        h' := BlackNephews(node, c, x, h);
        node := SetMark(node, w, RED);
        return false, Mk(c.d, x, c.p, c.item, c.mark, c.sib.(mark := RED)), h';
      }
      RotateNephew(w, pa, da, c, x, h);
      done := true;
    }

    method RotateNephew(w0: Ptr, pa: seq<Ptr>, da: seq<bool>, ghost c0: Ctx, ghost x: Tree, ghost h: nat)
      requires At(node, c0, x) && Deleting(c0, x, h) && !IsRed(x) && c0.In? && !IsRed(c0.sib) && w0 == Root(c0.sib)
      requires c0.sib.Node? && (IsRed(c0.sib.l) || IsRed(c0.sib.r)) && pa == Pa(c0) && da == Da(c0)
      modifies this`node, this`tree
      ensures node.Keys == old(node.Keys)
      ensures At(node, Top, tree) && IsRB(tree) && Inorder(tree) == Inorder(Plug(c0, x))
    {
      PaTop(c0);
      SiblingView(node, c0, x, h);
      var k := |pa|;
      var d, w := da[k - 1], w0;
      ghost var c := c0;
      if Link(node[w], !d) == NULL || node[Link(node[w], !d)].mark == BLACK {
        InnerNephewAt(node, c, x);
        InnerNephewRB(c, x, h);
        InnerNephewInorder(c, x);
        var y := Link(node[w], d);
        node := SetMark(SetMark(node, y, BLACK), w, RED);
        node := SetLink(node, w, d, Link(node[y], !d));
        node := SetLink(node, y, !d, w);
        node := SetLink(node, pa[k - 1], !d, y);
        w := y;
        c := InnerNephewUp(c);
      }
      RotateOuterNephew(w, d, pa[k - 1], pa[k - 2], da[k - 2], c, x, h);
    }

    method RotateOuterNephew(w: Ptr, d: bool, q: Ptr, above: Ptr, dir: bool, ghost c: Ctx, ghost x: Tree, ghost h: nat)
      requires At(node, c, x) && Deleting(c, x, h) && !IsRed(x) && c.In? && c.sib.Node? && !IsRed(c.sib) && w == c.sib.p
      requires IsRed(Kid(c.sib, !c.d)) && d == c.d && q == c.p && above == Last(c.up) && dir == Side(c.up)
      modifies this`node, this`tree
      ensures node.Keys == old(node.Keys)
      ensures At(node, Top, tree) && IsRB(tree) && Inorder(tree) == Inorder(Plug(c, x))
    {
      OuterNephewAt(node, c, x);
      OuterNephewRB(c, x, h);
      OuterNephewInorder(c, x);
      node := SetMark(node, w, node[q].mark);
      node := SetMark(node, q, BLACK);
      node := SetMark(node, Link(node[w], !d), BLACK);
      node := SetLink(node, q, !d, Link(node[w], d));
      node := SetLink(node, w, d, q);
      node := SetLink(node, above, dir, w);
      PlugAt(node, c.up, OuterNephewUp(c, x));
      tree := Plug(c.up, OuterNephewUp(c, x));
    }

    // Returns the item that was stored under the key.
    method Delete(item: Item) returns (found: Option<Item>, ghost high: nat)
      requires Valid()
      modifies this
      ensures Valid()
      ensures old(count) <= MAX_ITEMS ==> high <= RB_MAX_HEIGHT
      ensures item.key !in old(Table()) ==> found == None && unchanged(this)
      ensures item.key in old(Table()) ==>
                && found == Some(old(Table())[item.key].item)
                && Table() == old(Table()) - {item.key}
                && count == old(count) - 1 && generation == (old(generation) + 1) % ULONG
      ensures Call(old(generation), old(tree), generation, tree, item.key)
    {
      var p, pa, da;
      ghost var c, t, h;
      p, pa, da, c, t, h := Locate(item);
      DescentBound(c, t, tree);
      RootIn(node, t);
      if p == NULL {
        Absence(c, item.key);
        return None, |pa|;
      }
      NodeFound(c, t);
      found := Some(node[p].item);
      high := Remove(p, pa, da, c, t, h);
    }

    // rb_delete from the point where p has been found.
    method Remove(p: Ptr, pa0: seq<Ptr>, da0: seq<bool>, ghost c0: Ctx, ghost t: Tree, ghost h0: nat)
      returns (ghost high: nat)
      requires Valid() && Plug(c0, t) == tree && At(node, c0, t) && t.Node? && t.p == p && pa0 == Pa(c0) && da0 == Da(c0)
      requires RB(t, h0) && CtxRB(c0, h0, IsRed(t))
      modifies this
      ensures Valid() && Table() == old(Table()) - {t.item.key}
      ensures old(count) <= MAX_ITEMS ==> high <= RB_MAX_HEIGHT
      ensures count == old(count) - 1 && generation == (old(generation) + 1) % ULONG
    {
      ghost var k, c, x, a, b;
      k, high, c, x, a, b := TakeOut(p, pa0, da0, c0, t, h0);
      RemoveBound(old(tree), k, high);
      Release(p, c, x, old(tree), a, Entry(p, t.item), b);
    }

    method TakeOut(p: Ptr, pa0: seq<Ptr>, da0: seq<bool>, ghost c0: Ctx, ghost t: Tree, ghost h0: nat)
      returns (ghost k: nat, ghost high: nat, ghost c: Ctx, ghost x: Tree, ghost a: seq<Entry>, ghost b: seq<Entry>)
      requires At(node, c0, t) && t.Node? && t.p == p && pa0 == Pa(c0) && da0 == Da(c0) && RB(t, h0) && CtxRB(c0, h0, IsRed(t))
      modifies this`node, this`tree
      ensures node.Keys == old(node.Keys) && p !in CtxAddrs(c) + Addrs(x)
      ensures At(node, Top, tree) && IsRB(tree) && Inorder(tree) == Inorder(Plug(c, x)) == a + b
      ensures Inorder(Plug(c0, t)) == a + [Entry(p, t.item)] + b
      ensures k <= Height(Plug(c0, t)) && high <= k + 1
    {
      var pa, da;
      ghost var h;
      pa, da, c, x, h, a, b := Unlink(p, pa0, da0, c0, t, h0);
      k := |pa|;
      high := Repair(p, pa, da, c, x, h);
    }

    // The fix-up is needed only if the colour that went was black.
    method Repair(p: Ptr, pa: seq<Ptr>, da: seq<bool>, ghost c: Ctx, ghost x: Tree, ghost h: nat) returns (ghost high: nat)
      requires At(node, c, x) && p in node && TakenOut(node[p].mark, c, x, h) && pa == Pa(c) && da == Da(c)
      modifies this`node, this`tree
      ensures node.Keys == old(node.Keys) && high <= |pa| + 1
      ensures At(node, Top, tree) && IsRB(tree) && Inorder(tree) == Inorder(Plug(c, x))
    {
      high := |pa|;
      if node[p].mark == BLACK {
        ghost var pushes;
        high, pushes := RestoreAfterDelete(pa, da, c, x, h);
      } else {
        PlugAt(node, c, x);
        PlugRB(c, x, h);
        tree := Plug(c, x);
      }
    }

    // The last lines of rb_delete.
    method Release(p: Ptr, ghost c: Ctx, ghost x: Tree, ghost tree0: Tree, ghost a: seq<Entry>, ghost e: Entry, ghost b: seq<Entry>)
      requires At(node, Top, tree) && IsRB(tree) && Inorder(tree) == Inorder(Plug(c, x)) == a + b
      requires Inorder(tree0) == a + [e] + b && Sorted(Inorder(tree0)) && count == |Inorder(tree0)|
      requires node.Keys == {HEAD} + Addrs(tree0) && e.p == p && p !in CtxAddrs(c) + Addrs(x)
      modifies this`node, this`count, this`generation
      ensures Valid() && Table() == MapOf(Inorder(tree0)) - {e.item.key}
      ensures count == old(count) - 1 && generation == (old(generation) + 1) % ULONG
    {
      Forgotten(node, c, x, tree, p);
      EntryGone(tree0, tree, a, e, b);
      node := node - {p};
      count := count - 1;
      generation := (generation + 1) % ULONG;
    }

    // Returns the duplicate that kept the item out, unless it is the item itself.
    method Insert(item: Item, n: Ptr) returns (dup: Option<Item>)
      requires Valid() && (n == NULL || n !in node)
      modifies this
      ensures Valid()
      ensures item.key in old(Table()) ==>
                unchanged(this) && dup == if Table()[item.key].item == item then None else Some(Table()[item.key].item)
      ensures item.key !in old(Table()) ==> dup == None
      ensures item.key !in old(Table()) ==>
                Table() == if n == NULL then old(Table()) else old(Table())[item.key := Entry(n, item)]
      ensures Call(old(generation), old(tree), generation, tree, item.key)
    {
      var p, _ := Probe(item, n);
      TableMemory(node, tree, item.key);
      return if p == NULL || node[p].item == item then None else Some(node[p].item);
    }

    // Returns the item that was replaced.  The node that held it stays where it is.
    method Replace(item: Item, n: Ptr) returns (old_: Option<Item>)
      requires Valid() && (n == NULL || n !in node)
      modifies this
      ensures Valid()
      ensures item.key in old(Table()) ==>
                && Table() == old(Table())[item.key := Entry(old(Table())[item.key].p, item)]
                && old_ == if old(Table())[item.key].item == item then None else Some(old(Table())[item.key].item)
      ensures item.key !in old(Table()) ==> old_ == None
      ensures item.key !in old(Table()) ==>
                Table() == if n == NULL then old(Table()) else old(Table())[item.key := Entry(n, item)]
      ensures Call(old(generation), old(tree), generation, tree, item.key)
    {
      var p, _ := Probe(item, n);
      TableMemory(node, tree, item.key);
      if p == NULL || node[p].item == item {
        return None;
      }
      old_ := Some(node[p].item);
      StoreItem(p, item);
    }

    method StoreItem(p: Ptr, item: Item)
      requires Valid() && item.key in Table() && Table()[item.key].p == p
      modifies this`node, this`tree
      ensures Valid() && Table() == old(Table())[item.key := Entry(p, item)]
      ensures Shape(tree) == Shape(old(tree))
    {
      ghost var c, t := ReplaceNode(node, tree, item);
      PlugShape(c, t, t.(item := item));
      node := node[p := node[p].(item := item)];
      tree := Plug(c, t.(item := item));
    }
  }
}
