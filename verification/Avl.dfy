/** avl-2.0/src/avl.c: the AVL table. */
module AvlTree {
  import opened Store
  import opened Ordered
  import opened Splice
  import opened AvlShape
  import opened AvlStack
  import opened AvlPaths

  // What the descent of avl_probe knows: y is the last node on the path with a nonzero balance,
  // or the root; z is its parent; da holds the directions taken from y on.
  ghost predicate Tracked(c: Ctx, tree: Tree, y: Ptr, z: Ptr, da: seq<bool>, yc: Ctx, low: Ctx) {
    if c.Top? then y == Root(tree) && z == HEAD && da == []
    else
      && yc.In? && c == Join(low, yc) && y == yc.p && z == Last(yc.up)
      && da == [yc.d] + Dirs(low) && BalancedPath(low) && (yc.mark == 0 ==> yc.up.Top?)
  }

  // Whether the node that is tracked leans towards the key.
  predicate LeansAt(yc: Ctx) { yc.In? && yc.mark == Sgn(yc.d) }

  // The subtree xt of y has grown, and y's balance ym is up to date: the tree is AVL again, or y
  // is two levels out and needs a rotation.
  ghost predicate Grown(c: Ctx, d: bool, xt: Tree, y: Ptr, yi: Item, ym: int, e: Tree) {
    if ym == 2 * Sgn(d) then
      && xt.Node? && Avl(xt) && Avl(e) && Height(xt) == Height(e) + 2 && CtxAvl(c, Height(xt))
      && (xt.mark == 1 || xt.mark == -1)
    else Avl(Plug(c, Mk(d, xt, y, yi, ym, e)))
  }

  class AvlTable {
    var node: Memory
    var count: nat
    var generation: nat
    ghost var tree: Tree

    ghost predicate Valid()
      reads this
    {
      && At(node, Top, tree) && node.Keys == {HEAD} + Addrs(tree)
      && Avl(tree)
      && Sorted(Inorder(tree)) && count == |Inorder(tree)|
    }

    ghost function Table(): map<int, Entry>
      reads this
    {
      MapOf(Inorder(tree))
    }

    constructor ()
      ensures Valid() && Table() == map[] && count == 0 && generation == 0
    {
      node := map[HEAD := Cell(NULL, NULL, Item(0, 0), 0)];
      count, generation := 0, 0;
      tree := Leaf;
    }

    /* ---------- insertion ---------- */

    // The descent of avl_probe; p ends as NULL if the key is absent, with q and dir the free link.
    method Descend(item: Item)
      returns (p: Ptr, q: Ptr, y: Ptr, z: Ptr, dir: bool, da: seq<bool>, ghost c: Ctx, ghost t: Tree, ghost yc: Ctx, ghost low: Ctx,
               ghost peak: nat)
      requires Valid()
      ensures At(node, c, t) && p == Root(t) && Plug(c, t) == tree && q == Last(c) && dir == Side(c)
      ensures Avl(t) && CtxAvl(c, Height(t)) && Tracked(c, tree, y, z, da, yc, low)
      ensures Leans(tree, item.key, false) == LeansAt(yc) && (c.Top? ==> yc.Top?) && peak <= Height(tree)
      ensures if t.Leaf? then Around(c, item.key) else t.item.key == item.key
    {
      SortedTree(tree);
      c, t := Top, tree;
      yc, low := Top, Top;
      da := [];
      z := HEAD;
      y := node[HEAD].l;
      dir := false;
      q, p := z, y;
      peak := 0;
      while p != NULL
        invariant At(node, c, t) && p == Root(t) && Plug(c, t) == tree && q == Last(c) && dir == Side(c)
        invariant Avl(t) && CtxAvl(c, Height(t)) && Tracked(c, tree, y, z, da, yc, low)
        invariant SearchTree(t) && Around(c, item.key) && |da| <= peak <= Depth(c)
        invariant (c.Top? ==> yc.Top?) && Leans(tree, item.key, false) == Leans(t, item.key, LeansAt(yc))
        decreases t
      {
        RootIn(node, t);
        if item.key == node[p].item.key {
          PlugHeight(c, t);
          return;
        }
        yc, low := TrackStep(c, t, tree, item.key > node[p].item.key, y, z, da, yc, low);
        if node[p].mark != 0 {
          z, y, da := q, p, [];
        }
        SearchStep(node, c, t, item.key);
        dir := item.key > node[p].item.key;
        DownAvl(c, t, dir);
        da := da + [dir];
        peak := if |da| > peak then |da| else peak;
        c, t := In(c, dir, p, t.item, t.mark, Kid(t, !dir)), Kid(t, dir);
        q, p := p, Link(node[p], dir);
      }
      RootIn(node, t);
      PlugHeight(c, t);
    }

    // The descent, with what it says about the table.
    method Search(item: Item)
      returns (p: Ptr, q: Ptr, y: Ptr, z: Ptr, dir: bool, da: seq<bool>, ghost c: Ctx, ghost yc: Ctx, ghost low: Ctx, ghost peak: nat)
      requires Valid()
      ensures count <= MAX_ITEMS ==> peak <= AVL_MAX_HEIGHT
      ensures p != NULL ==> item.key in Table() && Table()[item.key].p == p
      ensures p == NULL ==> item.key !in Table() && Plug(c, Leaf) == tree && At(node, c, Leaf) && Around(c, item.key)
      ensures p == NULL ==> q == Last(c) && dir == Side(c) && CtxAvl(c, 0) && Tracked(c, tree, y, z, da, yc, low)
      ensures p == NULL ==> Leans(tree, item.key, false) == LeansAt(yc) && (c.Top? ==> yc.Top?)
    {
      ghost var t;
      p, q, y, z, dir, da, c, t, yc, low, peak := Descend(item);
      PeakBound(tree, peak);
      RootIn(node, t);
      if p != NULL {
        NodeFound(c, t);
      } else {
        Absence(c, item.key);
      }
    }

    // n is the address malloc returns, NULL if it fails.  The result is the node whose data
    // field the C function points to.  `high` is the most entries of da in use at any time.
    method Probe(item: Item, n: Ptr) returns (slot: Ptr, ghost high: nat)
      requires Valid() && (n == NULL || n !in node)
      modifies this
      ensures Valid()
      ensures old(count) <= MAX_ITEMS ==> high <= AVL_MAX_HEIGHT
      ensures item.key in old(Table()) || n == NULL ==> unchanged(this)
      ensures item.key in old(Table()) ==> slot == Table()[item.key].p
      ensures item.key !in old(Table()) ==> slot == n
      ensures item.key !in old(Table()) && n != NULL ==>
                && Table() == old(Table())[item.key := Entry(n, item)]
                && count == old(count) + 1
                && generation == if Leans(old(tree), item.key, false) then (old(generation) + 1) % ULONG else old(generation)
      ensures generation == old(generation) <==> SamePaths(old(tree), tree)
    {
      var p, q, y, z, dir, da;
      ghost var c, yc, low;
      p, q, y, z, dir, da, c, yc, low, high := Search(item);
      if p != NULL {
        return p, high;
      }
      if n != NULL {
        Grow(item, n, q, y, z, dir, da, c, yc, low);
      }
      slot := n;
    }

    // avl_probe from the successful allocation on.
    method Grow(item: Item, n: Ptr, q: Ptr, y: Ptr, z: Ptr, dir: bool, da: seq<bool>, ghost c: Ctx, ghost yc: Ctx, ghost low: Ctx)
      requires Valid() && Plug(c, Leaf) == tree && At(node, c, Leaf) && Around(c, item.key)
      requires n != NULL && n !in node && q == Last(c) && dir == Side(c)
      requires CtxAvl(c, 0) && Tracked(c, tree, y, z, da, yc, low) && (c.Top? ==> yc.Top?)
      modifies this
      ensures Valid() && Table() == old(Table())[item.key := Entry(n, item)]
      ensures count == old(count) + 1
      ensures generation == if LeansAt(yc) then (old(generation) + 1) % ULONG else old(generation)
      ensures SamePaths(old(tree), tree) <==> !LeansAt(yc)
    {
      ghost var nt := Node(Leaf, n, item, 0, Leaf);
      GrowTree(item, n, q, y, z, dir, da, c, nt, yc, low);
      TableGrown(old(tree), c, n, item, 0, tree);
    }

    // The new node and the way back to a balanced tree.
    method GrowTree(item: Item, n: Ptr, q: Ptr, y: Ptr, z: Ptr, dir: bool, da: seq<bool>,
                    ghost c: Ctx, ghost nt: Tree, ghost yc: Ctx, ghost low: Ctx)
      requires At(node, c, Leaf) && n != NULL && n !in node && q == Last(c) && dir == Side(c) && nt == Node(Leaf, n, item, 0, Leaf)
      requires CtxAvl(c, 0) && Tracked(c, Plug(c, Leaf), y, z, da, yc, low) && (c.Top? ==> yc.Top?)
      modifies this`node, this`tree, this`count, this`generation
      ensures node.Keys == old(node.Keys) + {n} && At(node, Top, tree) && Avl(tree) && count == old(count) + 1
      ensures Inorder(tree) == Inorder(Plug(c, nt))
      ensures generation == if LeansAt(yc) then (old(generation) + 1) % ULONG else old(generation)
      ensures SamePaths(Plug(c, Leaf), tree) <==> !LeansAt(yc)
    {
      NoPath(node, c, y, z, da, yc, low);
      AttachLeaf(item, n, q, dir, c);
      GrowPath(y, z, n, da, c, nt, yc, low);
    }

    method AttachLeaf(item: Item, n: Ptr, q: Ptr, dir: bool, ghost c: Ctx)
      requires At(node, c, Leaf) && n != NULL && n !in node && q == Last(c) && dir == Side(c)
      modifies this`node, this`count
      ensures At(node, c, Node(Leaf, n, item, 0, Leaf)) && node.Keys == old(node.Keys) + {n} && count == old(count) + 1
    {
      Attach(node, c, n, item, 0);
      node := SetLink(node, q, dir, n)[n := Cell(NULL, NULL, item, 0)];
      count := count + 1;
    }

    // The second loop of avl_probe, from y down to the new node, and the rotation at y.
    method GrowPath(y: Ptr, z: Ptr, n: Ptr, da: seq<bool>, ghost c: Ctx, ghost nt: Tree, ghost yc: Ctx, ghost low: Ctx)
      requires At(node, c, nt) && nt.Node? && nt.p == n && nt.mark == 0 && nt.l.Leaf? && nt.r.Leaf?
      requires CtxAvl(c, 0) && Tracked(c, Plug(c, Leaf), y, z, da, yc, low) && (y == NULL <==> c.Top?) && (c.Top? ==> yc.Top?)
      modifies this`node, this`tree, this`generation
      ensures node.Keys == old(node.Keys) && At(node, Top, tree) && Avl(tree)
      ensures Inorder(tree) == Inorder(Plug(c, nt))
      ensures generation == if LeansAt(yc) then (old(generation) + 1) % ULONG else old(generation)
      ensures SamePaths(Plug(c, Leaf), tree) <==> !LeansAt(yc)
    {
      if y == NULL {
        tree := nt;
        return;
      }
      TrackedBelow(c, Plug(c, Leaf), y, z, da, yc, low);
      ghost var u := GrownSubtree(c, nt, yc, low);
      GrowFrom(y, z, n, da, c, nt, yc, low, u);
      PathsAfter(c, nt, yc, low, u, tree);
    }

    method GrowFrom(y: Ptr, z: Ptr, n: Ptr, da: seq<bool>, ghost c: Ctx, ghost nt: Tree, ghost yc: Ctx, ghost low: Ctx, ghost u: Tree)
      requires At(node, c, nt) && nt.Node? && nt.p == n && nt.l.Leaf? && nt.r.Leaf?
      requires yc.In? && c == Join(low, yc) && y == yc.p && z == Last(yc.up) && da == [yc.d] + Dirs(low) && da[0] == yc.d
      requires u == Plug(BumpCtx(low), nt) && Grown(yc.up, yc.d, u, yc.p, yc.item, yc.mark + Sgn(yc.d), yc.sib)
      requires Inorder(Plug(yc.up, Mk(yc.d, u, yc.p, yc.item, yc.mark + Sgn(yc.d), yc.sib))) == Inorder(Plug(c, nt))
      modifies this`node, this`tree, this`generation
      ensures node.Keys == old(node.Keys) && At(node, Top, tree) && Avl(tree)
      ensures Inorder(tree) == Inorder(Plug(c, nt))
      ensures generation == if LeansAt(yc) then (old(generation) + 1) % ULONG else old(generation)
      ensures var m := yc.mark + Sgn(yc.d);
              if m == 2 * Sgn(yc.d) then |Ancestors(tree, y)| > Depth(yc.up) else tree == Plug(yc.up, Mk(yc.d, u, y, yc.item, m, yc.sib))
    {
      BumpAll(y, n, da, c, nt, yc, low);
      Rebalance(y, z, da[0], yc.up, u, yc.item, yc.mark + Sgn(yc.d), yc.sib);
    }

    // avl_probe from the test of y's new balance on.
    method Rebalance(y: Ptr, z: Ptr, d: bool, ghost c: Ctx, ghost xt: Tree, ghost yi: Item, ghost ym: int, ghost e: Tree)
      requires At(node, c, Mk(d, xt, y, yi, ym, e)) && z == Last(c)
      requires Grown(c, d, xt, y, yi, ym, e)
      modifies this`node, this`tree, this`generation
      ensures node.Keys == old(node.Keys) && At(node, Top, tree) && Avl(tree)
      ensures Inorder(tree) == Inorder(Plug(c, Mk(d, xt, y, yi, ym, e)))
      ensures generation == if ym == 2 * Sgn(d) then (old(generation) + 1) % ULONG else old(generation)
      ensures if ym == 2 * Sgn(d) then |Ancestors(tree, y)| > Depth(c) else tree == Plug(c, Mk(d, xt, y, yi, ym, e))
    {
      MkIn(node, c, d, xt, y, yi, ym, e);
      if node[y].mark == 2 * Sgn(d) {
        RotateGrown(y, z, d, c, xt, yi, e);
        generation := (generation + 1) % ULONG;
      } else {
        PlugAt(node, c, Mk(d, xt, y, yi, ym, e));
        tree := Plug(c, Mk(d, xt, y, yi, ym, e));
      }
    }

    method BumpAll(y: Ptr, n: Ptr, da: seq<bool>, ghost c: Ctx, ghost nt: Tree, ghost yc: Ctx, ghost low: Ctx)
      requires At(node, c, nt) && nt.Node? && nt.p == n && yc.In? && c == Join(low, yc) && y == yc.p
      requires da == [yc.d] + Dirs(low)
      modifies this`node
      ensures node.Keys == old(node.Keys)
      ensures At(node, yc.up, Mk(yc.d, Plug(BumpCtx(low), nt), y, yc.item, yc.mark + Sgn(yc.d), yc.sib))
    {
      ghost var yt := Mk(yc.d, Plug(low, nt), y, yc.item, yc.mark, yc.sib);
      JoinUp(node, low, yc, nt);
      Up(node, yc, Plug(low, nt));
      var p, k := y, 0;
      ghost var cp, tp := yc.up, yt;
      PathStart(low, yc, nt, da);
      while p != n
        invariant k <= |da| && At(node, cp, tp) && p == Root(tp) && Follow(tp, da[k..]) == nt
        invariant Plug(cp, Bump(tp, da[k..])) == Plug(yc.up, Bump(yt, da))
        invariant node.Keys == old(node.Keys)
        decreases |da| - k
      {
        PathTail(da, k);
        RootIn(node, tp);
        p, cp, tp := BumpOne(p, da[k], cp, tp);
        k := k + 1;
      }
      PathEnd(tp, da[k..], nt);
      PlugAt(node, cp, tp);
      PathDone(low, yc, nt, da);
      JoinTop(yc.up);
      JoinDown(node, yc.up, Top, Bump(yt, da));
    }

    // One step of that loop, at p in direction d.
    method BumpOne(p: Ptr, d: bool, ghost c: Ctx, ghost t: Tree) returns (p': Ptr, ghost c': Ctx, ghost t': Tree)
      requires At(node, c, t) && t.Node? && p == t.p
      modifies this`node
      ensures node.Keys == old(node.Keys) && At(node, c', t') && p' == Root(t')
      ensures c' == In(c, d, p, t.item, t.mark + Sgn(d), Kid(t, !d)) && t' == Kid(t, d)
    {
      RootIn(node, t);
      Recolor(node, c, t, t.mark + Sgn(d));
      if !d {
        node := SetMark(node, p, node[p].mark - 1);
      } else {
        node := SetMark(node, p, node[p].mark + 1);
      }
      ghost var u := t.(mark := t.mark + Sgn(d));
      Down(node, c, d, u);
      RootIn(node, u);
      c', t' := In(c, d, p, t.item, u.mark, Kid(t, !d)), Kid(t, d);
      p' := Link(node[p], d);
    }

    // y has become two levels higher on side d than on the other, z is its parent.
    method RotateGrown(y: Ptr, z: Ptr, d: bool, ghost c: Ctx, ghost xt: Tree, ghost yi: Item, ghost e: Tree)
      requires At(node, c, Mk(d, xt, y, yi, 2 * Sgn(d), e)) && z == Last(c)
      requires xt.Node? && Avl(xt) && Avl(e) && Height(xt) == Height(e) + 2 && CtxAvl(c, Height(xt))
      requires xt.mark == 1 || xt.mark == -1
      modifies this`node, this`tree
      ensures node.Keys == old(node.Keys) && At(node, Top, tree) && Avl(tree)
      ensures Inorder(tree) == Inorder(Plug(c, Mk(d, xt, y, yi, 2 * Sgn(d), e)))
      ensures |Ancestors(tree, y)| > Depth(c)
    {
      RotationView(node, c, d, y, xt, yi, 2 * Sgn(d), e);
      var x := Link(node[y], d);
      if node[x].mark == Sgn(d) {
        SingleGrown(y, z, x, d, c, xt, yi, e);
      } else {
        DoubleGrown(y, z, x, d, c, xt, yi, e);
      }
    }

    method SingleGrown(y: Ptr, z: Ptr, x: Ptr, d: bool, ghost c: Ctx, ghost xt: Tree, ghost yi: Item, ghost e: Tree)
      requires At(node, c, Mk(d, xt, y, yi, 2 * Sgn(d), e)) && z == Last(c)
      requires xt.Node? && x == xt.p && xt.mark == Sgn(d) && Avl(xt) && Avl(e) && Height(xt) == Height(e) + 2 && CtxAvl(c, Height(xt))
      modifies this`node, this`tree
      ensures node.Keys == old(node.Keys) && At(node, Top, tree) && Avl(tree)
      ensures Inorder(tree) == Inorder(Plug(c, Mk(d, xt, y, yi, 2 * Sgn(d), e)))
      ensures |Ancestors(tree, y)| > Depth(c)
    {
      ghost var mem := node;
      RotationView(node, c, d, y, xt, yi, 2 * Sgn(d), e);
      ghost var a, b := Kid(xt, d), Kid(xt, !d);
      WriteSingle(y, z, x, d, c);
      SingleAt(mem, node, c, d, y, yi, 2 * Sgn(d), x, xt.item, xt.mark, 0, 0, a, b, e);
      tree := SingleDoneGrowing(node, c, d, y, yi, xt, e);
    }

    method WriteSingle(y: Ptr, z: Ptr, x: Ptr, d: bool, ghost c: Ctx)
      requires x in node && y in node && Last(c) in node && x != y && x != Last(c) && y != Last(c)
      requires z == Last(c) && (node[z].l == y <==> !Side(c))
      modifies this`node
      ensures SingleDone(old(node), node, c, d, y, x, 0, 0)
    {
      SingleWrites(node, c, d, y, x);
      node := SetLink(node, y, d, Link(node[x], !d));
      node := SetLink(node, x, !d, y);
      node := SetMark(SetMark(node, x, 0), y, 0);
      node := SetLink(node, z, y != node[z].l, x);
    }

    method WriteDouble(y: Ptr, z: Ptr, x: Ptr, w: Ptr, d: bool, ghost c: Ctx)
      requires x in node && y in node && w in node && Last(c) in node && w == Link(node[x], !d)
      requires x != y && w != x && w != y && x != Last(c) && y != Last(c) && w != Last(c) && -1 <= node[w].mark <= 1
      requires z == Last(c) && (node[z].l == y <==> !Side(c))
      modifies this`node
      ensures DoubleDone(old(node), node, c, d, y, x, w, YMark(d, old(node)[w].mark), XMark(d, old(node)[w].mark))
    {
      DoubleWrites(node, c, d, y, x, w);
      node := SetLink(node, x, !d, Link(node[w], d));
      node := SetLink(node, w, d, x);
      node := SetLink(node, y, d, Link(node[w], !d));
      node := SetLink(node, w, !d, y);
      node := MarksAfterDouble(node, d, x, y, w);
      node := SetLink(node, z, y != node[z].l, w);
    }

    method DoubleGrown(y: Ptr, z: Ptr, x: Ptr, d: bool, ghost c: Ctx, ghost xt: Tree, ghost yi: Item, ghost e: Tree)
      requires At(node, c, Mk(d, xt, y, yi, 2 * Sgn(d), e)) && z == Last(c)
      requires xt.Node? && x == xt.p && xt.mark == -Sgn(d) && Avl(xt) && Avl(e) && Height(xt) == Height(e) + 2 && CtxAvl(c, Height(xt))
      modifies this`node, this`tree
      ensures node.Keys == old(node.Keys) && At(node, Top, tree) && Avl(tree)
      ensures Inorder(tree) == Inorder(Plug(c, Mk(d, xt, y, yi, 2 * Sgn(d), e)))
      ensures |Ancestors(tree, y)| > Depth(c)
    {
      ghost var mem := node;
      RotationView(node, c, d, y, xt, yi, 2 * Sgn(d), e);
      DoubleHeight(d, y, yi, xt, e);
      DoubleKeeps(c, d, y, yi, xt, e);
      var w := Link(node[x], !d);
      WriteDouble(y, z, x, w, d, c);
      DoubleRotated(mem, node, c, d, y, yi, xt, e);
      DoubleMoves(c, d, y, yi, xt, e);
      tree := Finish(node, c, Double(d, y, yi, xt, e));
    }

    /* ---------- deletion ---------- */

    // Returns the item that was stored under the key.  `high` is the number of entries of pa and
    // da that are filled.
    method Delete(item: Item) returns (found: Option<Item>, ghost high: nat)
      requires Valid()
      modifies this
      ensures Valid()
      ensures high == 1 + Pushed(old(tree), item.key)
      ensures old(count) <= DELETE_ITEMS ==> high <= AVL_MAX_HEIGHT
      ensures old(count) <= MAX_ITEMS && item.key in old(Table()) ==> high <= AVL_MAX_HEIGHT
      ensures item.key !in old(Table()) ==> found == None && unchanged(this)
      ensures item.key in old(Table()) ==>
                && found == Some(old(Table())[item.key].item)
                && Table() == old(Table()) - {item.key}
                && count == old(count) - 1 && generation == (old(generation) + 1) % ULONG
    {
      var p, pa, da;
      ghost var c, t;
      p, pa, da, c, t := Locate(item);
      RootIn(node, t);
      PushedThrough(c, t, item.key);
      PushedLow(c, t, item.key);
      Heights(tree);
      if p == NULL {
        Absence(c, item.key);
        return None, |pa|;
      }
      NodeFound(c, t);
      found := Some(node[p].item);
      high := Remove(p, pa, da, c, t);
    }

    // The descent of avl_delete: pa[0] is HEAD, as if the comparison with it gave -1.
    method Locate(item: Item) returns (p: Ptr, pa: seq<Ptr>, da: seq<bool>, ghost c: Ctx, ghost t: Tree)
      requires Valid()
      ensures At(node, c, t) && p == Root(t) && Plug(c, t) == tree && pa == Pa(c) && da == Da(c)
      ensures Avl(t) && CtxAvl(c, Height(t)) && Around(c, item.key)
      ensures t.Node? ==> t.item.key == item.key
    {
      SortedTree(tree);
      c, t := Top, tree;
      pa, da, p := [], [], HEAD;
      var cmp := -1;
      while cmp != 0
        invariant At(node, c, t) && Plug(c, t) == tree && SearchTree(t) && Around(c, item.key)
        invariant Avl(t) && CtxAvl(c, Height(t))
        invariant pa == [] ==> p == HEAD && cmp == -1 && c == Top && da == []
        invariant pa != [] ==> pa == Pa(c) && da == Da(c) && t.Node? && p == t.p && cmp == Compare(item, t.item)
        decreases if pa == [] then 1 else 0, t
      {
        var dir := cmp > 0;
        if pa != [] {
          RootIn(node, t);
          SearchStep(node, c, t, item.key);
          DownAvl(c, t, dir);
          c, t := In(c, dir, p, t.item, t.mark, Kid(t, !dir)), Kid(t, dir);
        }
        pa, da := pa + [p], da + [dir];
        p := Link(node[p], dir);
        RootIn(node, t);
        if p == NULL {
          return;
        }
        cmp := Compare(item, node[p].item);
      }
    }

    // avl_delete from the point where p has been found.
    method Remove(p: Ptr, pa0: seq<Ptr>, da0: seq<bool>, ghost c0: Ctx, ghost t: Tree) returns (ghost high: nat)
      requires Valid() && Plug(c0, t) == tree && At(node, c0, t) && t.Node? && t.p == p && pa0 == Pa(c0) && da0 == Da(c0)
      requires Avl(t) && CtxAvl(c0, Height(t))
      modifies this
      ensures Valid() && Table() == old(Table()) - {t.item.key}
      ensures count == old(count) - 1 && generation == (old(generation) + 1) % ULONG
      ensures high == |pa0| + LeftSpine(t.r)
    {
      var pa, da;
      ghost var c, x, a, b;
      pa, da, c, x, a, b := Unlink(p, pa0, da0, c0, t);
      high := |pa|;
      Release(p, pa, da, c, x, a, Entry(p, t.item), b);
    }

    // Frees p's record, rebalances and counts.
    method Release(p: Ptr, pa: seq<Ptr>, da: seq<bool>, ghost c: Ctx, ghost x: Tree, ghost a: seq<Entry>, ghost e: Entry, ghost b: seq<Entry>)
      requires At(node, c, x) && pa == Pa(c) && da == Da(c) && Lower(c, x)
      requires Inorder(tree) == a + [e] + b && Inorder(Plug(c, x)) == a + b && Sorted(Inorder(tree)) && count == |Inorder(tree)|
      requires node.Keys == {HEAD} + Addrs(tree) && e.p == p && p !in CtxAddrs(c) + Addrs(x)
      modifies this
      ensures Valid() && Table() == old(Table()) - {e.item.key}
      ensures count == old(count) - 1 && generation == (old(generation) + 1) % ULONG
    {
      Free(p, c, x);
      Retrace(pa, da, c, x);
      Removed(old(tree), tree, c, x, a, e, b);
      count := count - 1;
      generation := (generation + 1) % ULONG;
    }

    method Free(p: Ptr, ghost c: Ctx, ghost x: Tree)
      requires At(node, c, x) && p !in CtxAddrs(c) + Addrs(x)
      modifies this`node
      ensures At(node, c, x) && node.Keys == old(node.Keys) - {p}
    {
      FrameAt(node, node - {p}, c, x);
      node := node - {p};
    }

    // Takes the node p out of the tree; its record stays in memory until it is freed.
    method Unlink(p: Ptr, pa: seq<Ptr>, da: seq<bool>, ghost c: Ctx, ghost t: Tree)
      returns (pa': seq<Ptr>, da': seq<bool>, ghost c': Ctx, ghost x: Tree, ghost a: seq<Entry>, ghost b: seq<Entry>)
      requires At(node, c, t) && t.Node? && t.p == p && pa == Pa(c) && da == Da(c) && Avl(t) && CtxAvl(c, Height(t))
      modifies this`node
      ensures node.Keys == old(node.Keys) && p !in CtxAddrs(c') + Addrs(x)
      ensures At(node, c', x) && pa' == Pa(c') && da' == Da(c') && Lower(c', x) && |pa'| == |pa| + LeftSpine(t.r)
      ensures Inorder(Plug(c, t)) == a + [Entry(p, t.item)] + b && Inorder(Plug(c', x)) == a + b
    {
      RootIn(node, t);
      if node[p].r == NULL {
        RootIn(node, t.r);
        Bypass(node, c, t, false);
        BypassLower(c, t);
        a, b := BypassInorder(c, t);
        node := SetLink(node, pa[|pa| - 1], da[|da| - 1], node[p].l);
        return pa, da, c, t.l, a, b;
      }
      var r := node[p].r;
      RootIn(node, t.r);
      RootIn(node, t.r.l);
      if node[r].l == NULL {
        pa', da', c', x, a, b := UnlinkNext(p, r, pa, da, c, t);
      } else {
        pa', da', c', x, a, b := UnlinkSuccessor(p, pa, da, c, t);
      }
    }

    // The right child r of p has no left child.
    method UnlinkNext(p: Ptr, r: Ptr, pa: seq<Ptr>, da: seq<bool>, ghost c: Ctx, ghost t: Tree)
      returns (pa': seq<Ptr>, da': seq<bool>, ghost c': Ctx, ghost x: Tree, ghost a: seq<Entry>, ghost b: seq<Entry>)
      requires At(node, c, t) && t.Node? && t.p == p && t.r.Node? && t.r.p == r && t.r.l.Leaf?
      requires pa == Pa(c) && da == Da(c) && Avl(t) && CtxAvl(c, Height(t))
      modifies this`node
      ensures node.Keys == old(node.Keys) && p !in CtxAddrs(c') + Addrs(x)
      ensures At(node, c', x) && pa' == Pa(c') && da' == Da(c') && Lower(c', x) && |pa'| == |pa| + LeftSpine(t.r)
      ensures Inorder(Plug(c, t)) == a + [Entry(p, t.item)] + b && Inorder(Plug(c', x)) == a + b
    {
      Down(node, c, true, t);
      DownAvl(c, t, true);
      MoveUpLower(c, p, t.item, t.mark, t.l, Top, t.r);
      a, b := MoveUpInorder(c, p, t.item, t.mark, t.l, Top, t.r);
      NextWrites(node, c, t);
      RootIn(node, t);
      ghost var mem := node;
      node := SetLink(node, r, false, node[p].l);
      node := SetMark(node, r, node[p].mark);
      node := SetLink(node, pa[|pa| - 1], da[|da| - 1], r);
      MoveUp(mem, node, c, p, t.item, t.mark, t.l, Top, t.r);
      c', x := In(c, true, r, t.r.item, t.mark, t.l), t.r.r;
      pa', da' := pa + [r], da + [true];
    }

    // The successor s of p is found by going left from p's right child.
    method UnlinkSuccessor(p: Ptr, pa: seq<Ptr>, da: seq<bool>, ghost c: Ctx, ghost t: Tree)
      returns (pa': seq<Ptr>, da': seq<bool>, ghost c': Ctx, ghost x: Tree, ghost a: seq<Entry>, ghost b: seq<Entry>)
      requires At(node, c, t) && t.Node? && t.p == p && t.r.Node? && t.r.l.Node?
      requires pa == Pa(c) && da == Da(c) && Avl(t) && CtxAvl(c, Height(t))
      modifies this`node
      ensures node.Keys == old(node.Keys) && p !in CtxAddrs(c') + Addrs(x)
      ensures At(node, c', x) && pa' == Pa(c') && da' == Da(c') && Lower(c', x) && |pa'| == |pa| + LeftSpine(t.r)
      ensures Inorder(Plug(c, t)) == a + [Entry(p, t.item)] + b && Inorder(Plug(c', x)) == a + b
    {
      ghost var o := In(c, true, p, t.item, t.mark, t.l);
      ghost var inn, st;
      var s, r;
      s, r, pa', da', inn, st := Successor(p, pa, da, c, t);
      var j := |pa|;
      ghost var o' := In(c, true, s, st.item, t.mark, t.l);
      PaJoin(inn, o, o');
      SpineOfPath(inn, st);
      MoveUpLower(c, p, t.item, t.mark, t.l, inn, st);
      a, b := MoveUpInorder(c, p, t.item, t.mark, t.l, inn, st);
      MoveSuccessorUp(p, s, r, pa'[j - 1], da'[j - 1], c, t, inn, st);
      pa', da' := pa'[j := s], da'[j := true];
      c', x := Join(inn, o'), st.r;
    }

    // Puts s, whose parent is r, in the place of p below node `above`.
    method MoveSuccessorUp(p: Ptr, s: Ptr, r: Ptr, above: Ptr, dir: bool, ghost c: Ctx, ghost t: Tree, ghost inn: Ctx, ghost st: Tree)
      requires t.Node? && t.p == p && At(node, Join(inn, In(c, true, p, t.item, t.mark, t.l)), st)
      requires LeftPath(inn) && inn.In? && inn.p == r && st.Node? && st.p == s && st.l.Leaf?
      requires above == Last(c) && dir == Side(c)
      modifies this`node
      ensures node.Keys == old(node.Keys)
      ensures At(node, Join(inn, In(c, true, s, st.item, t.mark, t.l)), st.r)
      ensures p !in CtxAddrs(Join(inn, In(c, true, s, st.item, t.mark, t.l))) + Addrs(st.r)
    {
      SuccessorView(node, c, p, t.item, t.mark, t.l, inn, st);
      SuccessorWrites(node, c, p, t.item, t.mark, t.l, inn, st);
      ghost var mem := node;
      node := SetLink(node, s, false, node[p].l);
      node := SetLink(node, r, false, node[s].r);
      node := SetLink(node, s, true, node[p].r);
      node := SetMark(node, s, node[p].mark);
      node := SetLink(node, above, dir, s);
      MoveUp(mem, node, c, p, t.item, t.mark, t.l, inn, st);
    }

    // The inner loop of avl_delete.  Slot |pa| of the stack is reserved for the successor.
    method Successor(p: Ptr, pa: seq<Ptr>, da: seq<bool>, ghost c: Ctx, ghost t: Tree)
      returns (s: Ptr, r: Ptr, pa': seq<Ptr>, da': seq<bool>, ghost inn: Ctx, ghost st: Tree)
      requires At(node, c, t) && t.Node? && t.p == p && t.r.Node? && t.r.l.Node?
      requires pa == Pa(c) && da == Da(c) && Avl(t) && CtxAvl(c, Height(t))
      ensures var o := In(c, true, p, t.item, t.mark, t.l);
              && At(node, Join(inn, o), st) && Avl(st) && CtxAvl(Join(inn, o), Height(st))
              && |pa'| == |Pa(Join(inn, o))| > |pa| && |da'| == |pa'|
              && pa'[|pa| := p] == Pa(Join(inn, o)) && da'[|pa| := true] == Da(Join(inn, o))
              && Plug(Join(inn, o), st) == Plug(c, t) && Plug(inn, st) == t.r
      ensures LeftPath(inn) && inn.In? && inn.p == r && st.Node? && st.p == s && st.l.Leaf?
    {
      ghost var o := In(c, true, p, t.item, t.mark, t.l);
      Down(node, c, true, t);
      DownAvl(c, t, true);
      RootIn(node, t);
      inn, st := Top, t.r;
      pa', da' := pa + [NULL], da + [false];
      r := node[p].r;
      s := NULL;
      while true
        invariant At(node, Join(inn, o), st) && Avl(st) && CtxAvl(Join(inn, o), Height(st))
        invariant |pa'| == |Pa(Join(inn, o))| > |pa| && |da'| == |pa'|
        invariant pa'[|pa| := p] == Pa(Join(inn, o)) && da'[|pa| := true] == Da(Join(inn, o))
        invariant Plug(Join(inn, o), st) == Plug(c, t) && Plug(inn, st) == t.r
        invariant LeftPath(inn) && st.Node? && st.p == r && st.l.Node?
        decreases st
      {
        RootIn(node, st);
        Down(node, Join(inn, o), false, st);
        DownAvl(Join(inn, o), st, false);
        PushUpdate(pa', |pa|, p, r);
        PushUpdate(da', |pa|, true, false);
        da' := da' + [false];
        pa' := pa' + [r];
        s := node[r].l;
        inn, st := In(inn, false, r, st.item, st.mark, st.r), st.l;
        RootIn(node, st);
        RootIn(node, st.l);
        if node[s].l == NULL {
          break;
        }
        r := s;
      }
    }

    // The rebalancing loop of avl_delete, from the lowered subtree up.
    method Retrace(pa0: seq<Ptr>, da0: seq<bool>, ghost c0: Ctx, ghost t0: Tree)
      requires At(node, c0, t0) && Lower(c0, t0) && pa0 == Pa(c0) && da0 == Da(c0)
      modifies this`node, this`tree
      ensures node.Keys == old(node.Keys) && At(node, Top, tree) && Avl(tree)
      ensures Inorder(tree) == Inorder(Plug(c0, t0))
    {
      var pa, da := pa0, da0;
      ghost var c, t := c0, t0;
      while |pa| > 1
        invariant At(node, c, t) && Lower(c, t) && pa == Pa(c) && da == Da(c)
        invariant node.Keys == old(node.Keys) && Inorder(Plug(c, t)) == Inorder(Plug(c0, t0))
        decreases |pa|
      {
        PaTop(c);
        var k := |pa| - 1;
        var done;
        done, t := RetraceStep(pa[k], da[k], pa[k - 1], da[k - 1], c, t);
        pa, da, c := pa[..k], da[..k], c.up;
        if done {
          tree := Plug(c, t);
          return;
        }
      }
      tree := t;
    }

    // One round of the loop at node y, whose side d has become one level lower.
    method RetraceStep(y: Ptr, d: bool, above: Ptr, dir: bool, ghost c: Ctx, ghost t: Tree)
      returns (done: bool, ghost t': Tree)
      requires At(node, c, t) && Lower(c, t) && c.In? && y == c.p && d == c.d && above == Last(c.up) && dir == Side(c.up)
      modifies this`node
      ensures node.Keys == old(node.Keys) && Inorder(Plug(c.up, t')) == Inorder(Plug(c, t))
      ensures if done then At(node, Top, Plug(c.up, t')) && Avl(Plug(c.up, t')) else At(node, c.up, t') && Lower(c.up, t')
    {
      ghost var m := c.mark - Sgn(d);
      t' := Mk(d, t, y, c.item, m, c.sib);
      Remark(node, c, t, m);
      if !d {
        node := SetMark(node, y, node[y].mark + 1);
      } else {
        node := SetMark(node, y, node[y].mark - 1);
      }
      done := false;
      if node[y].mark == -Sgn(d) {
        LowerAbsorbed(c, t);
        PlugAt(node, c.up, t');
        done := true;
      } else if node[y].mark == -2 * Sgn(d) {
        LowerHeavy(c, t);
        done, t' := RotateLowered(y, above, dir, !d, c.up, c.sib, c.item, t);
      } else {
        LowerPassed(c, t);
      }
    }

    // y has become two levels higher on side d than on the other, after a deletion.
    method RotateLowered(y: Ptr, above: Ptr, dir: bool, d: bool, ghost c: Ctx, ghost xt: Tree, ghost yi: Item, ghost e: Tree)
      returns (done: bool, ghost t': Tree)
      requires At(node, c, Mk(d, xt, y, yi, 2 * Sgn(d), e)) && above == Last(c) && dir == Side(c)
      requires xt.Node? && Avl(xt) && Avl(e) && Height(xt) == Height(e) + 2 && CtxAvl(c, Height(e) + 3)
      modifies this`node
      ensures node.Keys == old(node.Keys) && Inorder(Plug(c, t')) == Inorder(Plug(c, Mk(d, xt, y, yi, 2 * Sgn(d), e)))
      ensures if done then At(node, Top, Plug(c, t')) && Avl(Plug(c, t')) else At(node, c, t') && Lower(c, t')
    {
      RotationView(node, c, d, y, xt, yi, 2 * Sgn(d), e);
      var x := Link(node[y], d);
      if node[x].mark == -Sgn(d) {
        t' := DoubleLowered(y, x, above, dir, d, c, xt, yi, e);
        done := false;
      } else {
        done, t' := SingleLowered(y, x, above, dir, d, c, xt, yi, e);
      }
    }

    method DoubleLowered(y: Ptr, x: Ptr, above: Ptr, dir: bool, d: bool, ghost c: Ctx, ghost xt: Tree, ghost yi: Item, ghost e: Tree)
      returns (ghost t': Tree)
      requires At(node, c, Mk(d, xt, y, yi, 2 * Sgn(d), e)) && above == Last(c) && dir == Side(c)
      requires xt.Node? && x == xt.p && xt.mark == -Sgn(d)
      requires Avl(xt) && Avl(e) && Height(xt) == Height(e) + 2 && CtxAvl(c, Height(e) + 3)
      modifies this`node
      ensures node.Keys == old(node.Keys) && Inorder(Plug(c, t')) == Inorder(Plug(c, Mk(d, xt, y, yi, 2 * Sgn(d), e)))
      ensures At(node, c, t') && Lower(c, t')
    {
      ghost var mem := node;
      RotationView(node, c, d, y, xt, yi, 2 * Sgn(d), e);
      DoubleLower(c, d, y, yi, xt, e);
      var w := Link(node[x], !d);
      WriteDouble(y, above, x, w, d, c);
      DoubleRotated(mem, node, c, d, y, yi, xt, e);
      t' := Double(d, y, yi, xt, e);
    }

    method SingleLowered(y: Ptr, x: Ptr, above: Ptr, dir: bool, d: bool, ghost c: Ctx, ghost xt: Tree, ghost yi: Item, ghost e: Tree)
      returns (done: bool, ghost t': Tree)
      requires At(node, c, Mk(d, xt, y, yi, 2 * Sgn(d), e)) && above == Last(c) && dir == Side(c)
      requires xt.Node? && x == xt.p && xt.mark != -Sgn(d)
      requires Avl(xt) && Avl(e) && Height(xt) == Height(e) + 2 && CtxAvl(c, Height(e) + 3)
      modifies this`node
      ensures node.Keys == old(node.Keys) && Inorder(Plug(c, t')) == Inorder(Plug(c, Mk(d, xt, y, yi, 2 * Sgn(d), e)))
      ensures if done then At(node, Top, Plug(c, t')) && Avl(Plug(c, t')) else At(node, c, t') && Lower(c, t')
    {
      ghost var mem := node;
      RotationView(node, c, d, y, xt, yi, 2 * Sgn(d), e);
      done := WriteSingleLowered(y, x, above, dir, d, c);
      SingleRotated(mem, node, c, d, y, yi, xt, e);
      SingleLower(c, d, y, yi, xt, e);
      t' := Single(d, y, yi, xt, e);
      if done {
        PlugAt(node, c, t');
      }
    }

    method WriteSingleLowered(y: Ptr, x: Ptr, above: Ptr, dir: bool, d: bool, ghost c: Ctx) returns (done: bool)
      requires x in node && y in node && Last(c) in node && x != y && x != Last(c) && y != Last(c)
      requires above == Last(c) && dir == Side(c) && (node[x].mark == 0 || node[x].mark == Sgn(d))
      modifies this`node
      ensures SingleDone(old(node), node, c, d, y, x, Sgn(d) - old(node)[x].mark, old(node)[x].mark - Sgn(d))
      ensures done <==> old(node)[x].mark == 0
    {
      LoweredWrites(node, c, d, y, x);
      node := SetLink(node, y, d, Link(node[x], !d));
      node := SetLink(node, x, !d, y);
      node := SetLink(node, above, dir, x);
      if node[x].mark == 0 {
        node := SetMark(node, x, -Sgn(d));
        node := SetMark(node, y, Sgn(d));
        return true;
      }
      node := SetMark(SetMark(node, x, 0), y, 0);
      done := false;
    }
  }

  // The balances avl.c assigns after a double rotation.
  function MarksAfterDouble(mem: Memory, d: bool, x: Ptr, y: Ptr, w: Ptr): Memory
    requires x in mem && y in mem && w in mem
  {
    var m1 :=
      if mem[w].mark == Sgn(d) then SetMark(SetMark(mem, x, 0), y, -Sgn(d))
      else if mem[w].mark == 0 then SetMark(SetMark(mem, x, 0), y, 0)
      else SetMark(SetMark(mem, x, Sgn(d)), y, 0);
    SetMark(m1, w, 0)
  }

  // What the end of Rebalance means for the paths of the old nodes.
  lemma PathsAfter(c: Ctx, nt: Tree, yc: Ctx, low: Ctx, u: Tree, tree: Tree)
    requires yc.In? && c == Join(low, yc) && Separate(c, nt) && nt.Node? && nt.l.Leaf? && nt.r.Leaf? && u == Plug(BumpCtx(low), nt)
    requires var m := yc.mark + Sgn(yc.d);
             if m == 2 * Sgn(yc.d) then |Ancestors(tree, yc.p)| > Depth(yc.up)
             else tree == Plug(yc.up, Mk(yc.d, u, yc.p, yc.item, m, yc.sib))
    ensures SamePaths(Plug(c, Leaf), tree) <==> !LeansAt(yc)
  {
    if LeansAt(yc) {
      PathChanged(c, yc, low, tree);
    } else {
      LeafAdded(c, nt, yc, low, yc.mark + Sgn(yc.d), tree);
    }
  }

  lemma SingleMoves(c: Ctx, d: bool, y: Ptr, yi: Item, xt: Tree, e: Tree)
    requires xt.Node? && Separate(c, Single(d, y, yi, xt, e)) && y != xt.p
    ensures |Ancestors(Plug(c, Single(d, y, yi, xt, e)), y)| > Depth(c)
  {
    MkTree(d, Kid(xt, !d), y, yi, Sgn(d) - xt.mark, e);
    MkTree(d, Kid(xt, d), xt.p, xt.item, xt.mark - Sgn(d), Mk(d, Kid(xt, !d), y, yi, Sgn(d) - xt.mark, e));
    MovedDown(c, Single(d, y, yi, xt, e), y);
  }

  lemma SingleDoneGrowing(mem: Memory, c: Ctx, d: bool, y: Ptr, yi: Item, xt: Tree, e: Tree) returns (tree: Tree)
    requires xt.Node? && xt.mark == Sgn(d) && y != xt.p && Avl(xt) && Avl(e) && Height(xt) == Height(e) + 2 && CtxAvl(c, Height(xt))
    requires At(mem, c, Single(d, y, yi, xt, e))
    ensures At(mem, Top, tree) && Avl(tree) && |Ancestors(tree, y)| > Depth(c)
    ensures Inorder(tree) == Inorder(Plug(c, Mk(d, xt, y, yi, 2 * Sgn(d), e)))
  {
    SingleMoves(c, d, y, yi, xt, e);
    SingleGrow(c, d, y, yi, xt, e);
    tree := Finish(mem, c, Single(d, y, yi, xt, e));
  }

  lemma DoubleMoves(c: Ctx, d: bool, y: Ptr, yi: Item, xt: Tree, e: Tree)
    requires xt.Node? && Kid(xt, !d).Node? && Separate(c, Double(d, y, yi, xt, e)) && y != Kid(xt, !d).p
    ensures |Ancestors(Plug(c, Double(d, y, yi, xt, e)), y)| > Depth(c)
  {
    var w := Kid(xt, !d);
    var low := Mk(d, Kid(w, !d), y, yi, YMark(d, w.mark), e);
    MkTree(d, Kid(w, !d), y, yi, YMark(d, w.mark), e);
    MkTree(d, Mk(d, Kid(xt, d), xt.p, xt.item, XMark(d, w.mark), Kid(w, d)), w.p, w.item, 0, low);
    MovedDown(c, Double(d, y, yi, xt, e), y);
  }

  lemma MkIn(mem: Memory, c: Ctx, d: bool, a: Tree, p: Ptr, item: Item, m: int, b: Tree)
    requires At(mem, c, Mk(d, a, p, item, m, b))
    ensures p in mem && mem[p].mark == m
  {
    RootIn(mem, Mk(d, a, p, item, m, b));
  }

  lemma Finish(mem: Memory, c: Ctx, t: Tree) returns (tree: Tree)
    requires At(mem, c, t) && Avl(t) && CtxAvl(c, Height(t))
    ensures tree == Plug(c, t) && At(mem, Top, tree) && Avl(tree)
  {
    tree := Plug(c, t);
    PlugAt(mem, c, t);
    PlugAvl(c, t);
  }

  lemma SingleWrites(mem: Memory, c: Ctx, d: bool, y: Ptr, x: Ptr)
    requires x in mem && y in mem && Last(c) in mem && x != y && x != Last(c) && y != Last(c)
    ensures var m1 := SetLink(SetLink(mem, y, d, Link(mem[x], !d)), x, !d, y);
            var m2 := SetMark(SetMark(m1, x, 0), y, 0);
            SingleDone(mem, SetLink(m2, Last(c), Side(c), x), c, d, y, x, 0, 0) && m2[Last(c)] == mem[Last(c)]
  {
  }

  lemma DoubleWrites(mem: Memory, c: Ctx, d: bool, y: Ptr, x: Ptr, w: Ptr)
    requires x in mem && y in mem && w in mem && Last(c) in mem
    requires x != y && w != x && w != y && x != Last(c) && y != Last(c) && w != Last(c) && -1 <= mem[w].mark <= 1
    ensures var m1 := SetLink(SetLink(mem, x, !d, Link(mem[w], d)), w, d, x);
            var m2 := SetLink(SetLink(m1, y, d, Link(m1[w], !d)), w, !d, y);
            var m3 := MarksAfterDouble(m2, d, x, y, w);
            && DoubleDone(mem, SetLink(m3, Last(c), Side(c), w), c, d, y, x, w, YMark(d, mem[w].mark), XMark(d, mem[w].mark))
            && m3[Last(c)] == mem[Last(c)]
  {
  }

  // What a rotation at y reads.
  lemma {:induction false} RotationView(mem: Memory, c: Ctx, d: bool, y: Ptr, xt: Tree, yi: Item, ym: int, e: Tree)
    requires xt.Node? && Avl(xt) && Avl(e) && Height(xt) == Height(e) + 2
    requires At(mem, c, Mk(d, xt, y, yi, ym, e))
    ensures y in mem && Last(c) in mem && xt.p in mem && Link(mem[y], d) == xt.p && mem[xt.p].mark == xt.mark
    ensures Link(mem[Last(c)], Side(c)) == y && (mem[Last(c)].l == y <==> !Side(c))
    ensures y != xt.p && Last(c) != y && Last(c) != xt.p
    ensures xt == Mk(d, Kid(xt, d), xt.p, xt.item, xt.mark, Kid(xt, !d))
    ensures xt.mark == -Sgn(d) ==>
              var wt := Kid(xt, !d);
              && wt.Node? && wt.p in mem && Link(mem[xt.p], !d) == wt.p && mem[wt.p].mark == wt.mark
              && wt.p != y && wt.p != xt.p && wt.p != Last(c) && -1 <= wt.mark <= 1
              && wt == Mk(d, Kid(wt, d), wt.p, wt.item, wt.mark, Kid(wt, !d))
  {
    var yt := Mk(d, xt, y, yi, ym, e);
    LastIn(mem, c, y);
    Down(mem, c, d, yt);
    var yc := In(c, d, y, yi, ym, e);
    Peek(mem, yc, xt.p);
    RootIn(mem, xt);
    assert Last(c) in CtxAddrs(c) && CtxDisj(yc);
    OnlyLink(mem, c, yt);
    if xt.mark == -Sgn(d) {
      Down(mem, yc, !d, xt);
      RootIn(mem, Kid(xt, !d));
      assert Last(c) in CtxAddrs(In(yc, !d, xt.p, xt.item, xt.mark, Kid(xt, d)));
    }
  }

  // Only one of the two links of the parent leads to its child.
  lemma OnlyLink(mem: Memory, c: Ctx, t: Tree)
    requires At(mem, c, t) && t.Node?
    ensures Last(c) in mem && (mem[Last(c)].l == t.p <==> !Side(c))
  {
    LastIn(mem, c, t.p);
    if c.In? {
      Peek(mem, c, t.p);
      assert c.sib.Node? ==> c.sib.p in Addrs(c.sib);
    }
  }

  // How the tracked path grows by the step from t in direction d.
  lemma TrackStep(c: Ctx, t: Tree, tree: Tree, d: bool, y: Ptr, z: Ptr, da: seq<bool>, yc: Ctx, low: Ctx)
    returns (yc': Ctx, low': Ctx)
    requires t.Node? && Plug(c, t) == tree && Tracked(c, tree, y, z, da, yc, low)
    ensures yc' == if t.mark != 0 || c.Top? then In(c, d, t.p, t.item, t.mark, Kid(t, !d)) else yc
    ensures Tracked(In(c, d, t.p, t.item, t.mark, Kid(t, !d)), tree,
                    if t.mark != 0 then t.p else y, if t.mark != 0 then Last(c) else z,
                    (if t.mark != 0 then [] else da) + [d], yc', low')
  {
    var c' := In(c, d, t.p, t.item, t.mark, Kid(t, !d));
    if t.mark != 0 || c.Top? {
      yc', low' := c', Top;
      assert Join(Top, c') == c';
    } else {
      yc', low' := yc, In(low, d, t.p, t.item, t.mark, Kid(t, !d));
      assert da + [d] == [yc.d] + (Dirs(low) + [d]);
    }
  }

  // A descent that went anywhere has a node to start the update from.
  lemma NoPath(mem: Memory, c: Ctx, y: Ptr, z: Ptr, da: seq<bool>, yc: Ctx, low: Ctx)
    requires At(mem, c, Leaf) && Tracked(c, Plug(c, Leaf), y, z, da, yc, low)
    ensures y == NULL <==> c.Top?
  {
    if c.In? {
      JoinUp(mem, low, yc, Leaf);
    }
  }

  // The updated path below and at y.
  lemma {:induction false} GrownPath(c: Ctx, nt: Tree, yc: Ctx, low: Ctx)
    requires nt.Node? && nt.mark == 0 && nt.l.Leaf? && nt.r.Leaf?
    requires yc.In? && c == Join(low, yc) && CtxAvl(c, 0) && BalancedPath(low) && (yc.mark == 0 ==> yc.up.Top?)
    ensures var u := Plug(BumpCtx(low), nt); var m := yc.mark + Sgn(yc.d);
            Grown(yc.up, yc.d, u, yc.p, yc.item, m, yc.sib)
  {
    GrowBalanced(low, yc, Leaf, nt);
    PlugNode(BumpCtx(low), nt);
    if low.In? {
      PlugNode(low.up, Mk(low.d, Leaf, low.p, low.item, low.mark, low.sib));
    }
    GrownAtY(yc, Plug(low, Leaf), Plug(BumpCtx(low), nt));
  }

  lemma TrackedBelow(c: Ctx, tree: Tree, y: Ptr, z: Ptr, da: seq<bool>, yc: Ctx, low: Ctx)
    requires c.In? && Tracked(c, tree, y, z, da, yc, low)
    ensures yc.In? && c == Join(low, yc) && y == yc.p && z == Last(yc.up) && da == [yc.d] + Dirs(low) && da[0] == yc.d
    ensures BalancedPath(low) && (yc.mark == 0 ==> yc.up.Top?)
  {
  }

  lemma GrownSubtree(c: Ctx, nt: Tree, yc: Ctx, low: Ctx) returns (u: Tree)
    requires nt.Node? && nt.mark == 0 && nt.l.Leaf? && nt.r.Leaf?
    requires yc.In? && c == Join(low, yc) && CtxAvl(c, 0) && BalancedPath(low) && (yc.mark == 0 ==> yc.up.Top?)
    ensures u == Plug(BumpCtx(low), nt) && Grown(yc.up, yc.d, u, yc.p, yc.item, yc.mark + Sgn(yc.d), yc.sib)
    ensures Inorder(Plug(yc.up, Mk(yc.d, u, yc.p, yc.item, yc.mark + Sgn(yc.d), yc.sib))) == Inorder(Plug(c, nt))
  {
    u := Plug(BumpCtx(low), nt);
    GrownPath(c, nt, yc, low);
    BumpInorder(low, yc, nt);
  }

  lemma {:induction false} BumpBeforeAfter(low: Ctx)
    ensures Before(BumpCtx(low)) == Before(low) && After(BumpCtx(low)) == After(low)
    decreases low
  {
    if low.In? {
      BumpBeforeAfter(low.up);
    }
  }

  lemma BumpInorder(low: Ctx, yc: Ctx, nt: Tree)
    requires yc.In?
    ensures Inorder(Plug(yc.up, Mk(yc.d, Plug(BumpCtx(low), nt), yc.p, yc.item, yc.mark + Sgn(yc.d), yc.sib))) ==
            Inorder(Plug(Join(low, yc), nt))
  {
    JoinPlug(low, yc, nt);
    BumpBeforeAfter(low);
    PlugInorder(low, nt);
    PlugInorder(BumpCtx(low), nt);
    MkInorder(yc.d, Plug(low, nt), Plug(BumpCtx(low), nt), yc.p, yc.item, yc.mark, yc.mark + Sgn(yc.d), yc.sib, yc.sib);
    SameInorder(yc.up, Mk(yc.d, Plug(low, nt), yc.p, yc.item, yc.mark, yc.sib),
                Mk(yc.d, Plug(BumpCtx(low), nt), yc.p, yc.item, yc.mark + Sgn(yc.d), yc.sib));
  }

  // The subtree that the cached directions lead to.
  function Follow(t: Tree, path: seq<bool>): Tree decreases |path| {
    if path == [] || t.Leaf? then t else Follow(Kid(t, path[0]), path[1..])
  }

  lemma {:induction false} FollowAddr(t: Tree, path: seq<bool>)
    ensures Addrs(Follow(t, path)) <= Addrs(t)
    decreases |path|
  {
    if path != [] && t.Node? {
      FollowAddr(Kid(t, path[0]), path[1..]);
    }
  }

  lemma {:induction false} FollowPlug(low: Ctx, t: Tree, rest: seq<bool>)
    ensures Follow(Plug(low, t), Dirs(low) + rest) == Follow(t, rest)
    decreases low
  {
    if low.Top? {
      assert Dirs(low) + rest == rest;
    } else {
      assert Dirs(low) + rest == Dirs(low.up) + ([low.d] + rest);
      FollowPlug(low.up, Mk(low.d, t, low.p, low.item, low.mark, low.sib), [low.d] + rest);
      assert ([low.d] + rest)[1..] == rest;
    }
  }

  lemma PathStart(low: Ctx, yc: Ctx, nt: Tree, da: seq<bool>)
    requires yc.In? && nt.Node? && da == [yc.d] + Dirs(low)
    ensures Follow(Mk(yc.d, Plug(low, nt), yc.p, yc.item, yc.mark, yc.sib), da[0..]) == nt
    ensures da[0..] == da
  {
    FollowPlug(low, nt, []);
    assert Dirs(low) + [] == Dirs(low) && da[1..] == Dirs(low);
  }

  lemma PathTail(da: seq<bool>, k: nat)
    requires k < |da|
    ensures da[k..] != [] && da[k..][0] == da[k] && da[k..][1..] == da[k + 1..]
  {
  }

  lemma PathEnd(t: Tree, path: seq<bool>, nt: Tree)
    requires Disj(t) && t.Node? && nt.Node? && Follow(t, path) == nt && t.p == nt.p
    ensures path == [] && t == nt
  {
    if path != [] {
      FollowAddr(Kid(t, path[0]), path[1..]);
    }
  }

  lemma PathDone(low: Ctx, yc: Ctx, nt: Tree, da: seq<bool>)
    requires yc.In? && da == [yc.d] + Dirs(low)
    ensures Bump(Mk(yc.d, Plug(low, nt), yc.p, yc.item, yc.mark, yc.sib), da) ==
            Mk(yc.d, Plug(BumpCtx(low), nt), yc.p, yc.item, yc.mark + Sgn(yc.d), yc.sib)
  {
    BumpPlug(low, nt, []);
    assert Dirs(low) + [] == Dirs(low) && da[1..] == Dirs(low);
  }

  lemma {:induction false} JoinTop(c: Ctx)
    ensures Join(c, Top) == c
    decreases c
  {
    if c.In? {
      JoinTop(c.up);
    }
  }

  lemma LoweredWrites(mem: Memory, c: Ctx, d: bool, y: Ptr, x: Ptr)
    requires x in mem && y in mem && Last(c) in mem && x != y && x != Last(c) && y != Last(c)
    requires mem[x].mark == 0 || mem[x].mark == Sgn(d)
    ensures var m := Rotated(mem, c, d, y, x);
            && m[x].mark == mem[x].mark
            && SingleDone(mem, SetMark(SetMark(m, x, mem[x].mark - Sgn(d)), y, Sgn(d) - mem[x].mark), c, d, y, x,
                          Sgn(d) - mem[x].mark, mem[x].mark - Sgn(d))
  {
  }

  // The balance of the parent of the hole is changed.
  lemma Remark(mem: Memory, c: Ctx, t: Tree, m: int)
    requires At(mem, c, t) && c.In?
    ensures c.p in mem && mem[c.p].mark == c.mark
    ensures At(SetMark(mem, c.p, m), c.up, Mk(c.d, t, c.p, c.item, m, c.sib))
    ensures Inorder(Plug(c.up, Mk(c.d, t, c.p, c.item, m, c.sib))) == Inorder(Plug(c, t))
  {
    var y := Mk(c.d, t, c.p, c.item, c.mark, c.sib);
    Up(mem, c, t);
    Recolor(mem, c.up, y, m);
    SameInorder(c.up, y, y.(mark := m));
  }

  // The right child r of p has no left child: it moves up and takes p's balance.
  lemma NextWrites(mem: Memory, c: Ctx, t: Tree)
    requires At(mem, c, t) && t.Node? && t.r.Node?
    ensures t.p in mem && t.r.p in mem && Last(c) in mem
    ensures var r := t.r.p; var m1 := SetMark(SetLink(mem, r, false, Root(t.l)), r, t.mark);
            MovedUp(mem, SetLink(m1, Last(c), Side(c), r), c, t.p, t.mark, t.l, Top, t.r) && m1[t.p] == mem[t.p]
  {
    LastIn(mem, c, t.p);
    assert Cells(mem, t.r);
    assert t.r.p in Addrs(t.r);
  }

  lemma SuccessorWrites(mem: Memory, c: Ctx, p: Ptr, pi: Item, pm: int, l: Tree, inn: Ctx, st: Tree)
    requires st.Node? && inn.In? && !inn.d && st.p in mem && p in mem && inn.p in mem && Last(c) in mem
    requires mem[p] == Cell(Root(l), Root(Plug(inn, st.r)), pi, pm)
    requires mem[st.p] == Cell(Root(st.l), Root(st.r), st.item, st.mark)
    requires st.p != p && st.p != inn.p && st.p != Last(c) && p != inn.p && p != Last(c) && inn.p != Last(c)
    ensures var s, r := st.p, inn.p;
            var m1 := SetLink(mem, s, false, mem[p].l);
            var m2 := SetLink(SetLink(m1, r, false, m1[s].r), s, true, mem[p].r);
            MovedUp(mem, SetLink(SetMark(m2, s, pm), Last(c), Side(c), s), c, p, pm, l, inn, st)
  {
  }

  lemma Removed(tree: Tree, tree': Tree, c: Ctx, x: Tree, a: seq<Entry>, e: Entry, b: seq<Entry>)
    requires Sorted(Inorder(tree)) && Inorder(tree) == a + [e] + b && Inorder(tree') == Inorder(Plug(c, x)) == a + b
    requires e.p !in CtxAddrs(c) + Addrs(x)
    ensures Sorted(Inorder(tree')) && MapOf(Inorder(tree')) == MapOf(Inorder(tree)) - {e.item.key}
    ensures |Inorder(tree')| == |Inorder(tree)| - 1 && {HEAD} + Addrs(tree') == ({HEAD} + Addrs(tree)) - {e.p}
  {
    EntryGone(tree, tree', a, e, b);
    Elsewhere(c, x, tree', e.p);
  }

  lemma PeakBound(tree: Tree, peak: nat)
    requires Avl(tree) && peak <= Height(tree)
    ensures |Inorder(tree)| <= MAX_ITEMS ==> peak <= AVL_MAX_HEIGHT
  {
    Heights(tree);
  }

  // What Pushed comes to in terms of the path to where the search ends.
  lemma PushedLow(c: Ctx, t: Tree, k: int)
    requires t.Node? ==> t.item.key == k
    ensures Depth(c) + Pushed(t, k) <= Height(Plug(c, t)) - (if t.Node? then 1 else 0)
  {
    PlugHeight(c, t);
    if t.Node? {
      SpineHeight(t.r);
    }
  }

  lemma {:induction false} SpineOfPath(inn: Ctx, t: Tree)
    requires LeftPath(inn)
    ensures LeftSpine(Plug(inn, t)) == Depth(inn) + LeftSpine(t)
    decreases inn
  {
    if inn.In? {
      SpineOfPath(inn.up, Mk(inn.d, t, inn.p, inn.item, inn.mark, inn.sib));
    }
  }

  lemma Elsewhere(c: Ctx, x: Tree, tree: Tree, p: Ptr)
    requires Inorder(tree) == Inorder(Plug(c, x)) && p !in CtxAddrs(c) + Addrs(x)
    ensures p != HEAD && p !in Addrs(tree)
  {
    HeadIn(c);
    PlugAddrs(c, x);
    AddrsInorder(tree);
    AddrsInorder(Plug(c, x));
  }
}
