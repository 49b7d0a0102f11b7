/** Which nodes keep their ancestors when a node is inserted: what a traverser of an AVL table
    relies on, as it keeps the ancestors of its node on a stack. */
module AvlPaths {
  import opened Store
  import opened Splice
  import opened AvlShape

  // The ancestors of node p in t, outermost first.
  function Ancestors(t: Tree, p: Ptr): seq<Ptr> {
    if t.Leaf? || p == t.p then []
    else [t.p] + if p in Addrs(t.l) then Ancestors(t.l, p) else Ancestors(t.r, p)
  }

  // Every node of t has the same ancestors in t'.
  ghost predicate SamePaths(t: Tree, t': Tree) { forall p :: p in Addrs(t) ==> Ancestors(t', p) == Ancestors(t, p) }

  ghost predicate Separate(c: Ctx, t: Tree) { Disj(t) && CtxDisj(c) && Addrs(t) !! CtxAddrs(c) }

  lemma SeparateUp(c: Ctx, t: Tree)
    requires Separate(c, t) && c.In?
    ensures Separate(c.up, Mk(c.d, t, c.p, c.item, c.mark, c.sib))
  {
    MkTree(c.d, t, c.p, c.item, c.mark, c.sib);
  }

  lemma {:induction false} AbovePlug(c: Ctx, t: Tree, p: Ptr)
    requires Separate(c, t) && p in Addrs(t)
    ensures Ancestors(Plug(c, t), p) == Stack(c) + Ancestors(t, p)
    decreases c
  {
    if c.In? {
      var t' := Mk(c.d, t, c.p, c.item, c.mark, c.sib);
      SeparateUp(c, t);
      AbovePlug(c.up, t', p);
      assert Ancestors(t', p) == [c.p] + Ancestors(t, p);
    }
  }

  // A node outside the hole has the same ancestors whatever is in the hole.
  lemma {:induction false} AboveOutside(c: Ctx, t: Tree, t': Tree, p: Ptr)
    requires Separate(c, t) && Separate(c, t') && p in CtxAddrs(c) && p != HEAD && p !in Addrs(t) + Addrs(t')
    ensures Ancestors(Plug(c, t), p) == Ancestors(Plug(c, t'), p)
    decreases c
  {
    var u, u' := Mk(c.d, t, c.p, c.item, c.mark, c.sib), Mk(c.d, t', c.p, c.item, c.mark, c.sib);
    SeparateUp(c, t);
    SeparateUp(c, t');
    if p == c.p || p in Addrs(c.sib) {
      AbovePlug(c.up, u, p);
      AbovePlug(c.up, u', p);
      assert Ancestors(u, p) == Ancestors(u', p);
    } else {
      AboveOutside(c.up, u, u', p);
    }
  }

  // The tree without items and balances.
  function Bones(t: Tree): Tree {
    if t.Leaf? then Leaf else Node(Bones(t.l), t.p, Item(0, 0), 0, Bones(t.r))
  }

  lemma {:induction false} BonesPaths(t: Tree, t': Tree, p: Ptr)
    requires Bones(t) == Bones(t')
    ensures Addrs(t) == Addrs(t') && Ancestors(t, p) == Ancestors(t', p)
  {
    if t.Node? {
      BonesPaths(t.l, t'.l, p);
      BonesPaths(t.r, t'.r, p);
    }
  }

  lemma MkBones(d: bool, a: Tree, a': Tree, p: Ptr, item: Item, m: int, m': int, b: Tree)
    requires Bones(a) == Bones(a')
    ensures Bones(Mk(d, a, p, item, m, b)) == Bones(Mk(d, a', p, item, m', b))
  {
  }

  lemma {:induction false} PlugBones(c: Ctx, t: Tree, t': Tree)
    requires Bones(t) == Bones(t')
    ensures Bones(Plug(c, t)) == Bones(Plug(c, t')) == Bones(Plug(BumpCtx(c), t'))
    decreases c
  {
    if c.In? {
      var u := Mk(c.d, t, c.p, c.item, c.mark, c.sib);
      MkBones(c.d, t, t', c.p, c.item, c.mark, c.mark, c.sib);
      MkBones(c.d, t, t', c.p, c.item, c.mark, c.mark + Sgn(c.d), c.sib);
      PlugBones(c.up, u, Mk(c.d, t', c.p, c.item, c.mark, c.sib));
      PlugBones(c.up, u, Mk(c.d, t', c.p, c.item, c.mark + Sgn(c.d), c.sib));
    }
  }

  // Without a rotation the new tree is, balances aside, the old one with a leaf added: every old
  // node keeps its ancestors.
  lemma LeafAdded(c: Ctx, nt: Tree, yc: Ctx, low: Ctx, m: int, tree: Tree)
    requires yc.In? && c == Join(low, yc) && Separate(c, nt) && nt.Node? && nt.l.Leaf? && nt.r.Leaf?
    requires tree == Plug(yc.up, Mk(yc.d, Plug(BumpCtx(low), nt), yc.p, yc.item, m, yc.sib))
    ensures SamePaths(Plug(c, Leaf), tree)
  {
    JoinPlug(low, yc, nt);
    PlugBones(low, nt, nt);
    MkBones(yc.d, Plug(low, nt), Plug(BumpCtx(low), nt), yc.p, yc.item, yc.mark, m, yc.sib);
    PlugBones(yc.up, Mk(yc.d, Plug(low, nt), yc.p, yc.item, yc.mark, yc.sib), Mk(yc.d, Plug(BumpCtx(low), nt), yc.p, yc.item, m, yc.sib));
    forall p | p in Addrs(Plug(c, Leaf)) ensures Ancestors(tree, p) == Ancestors(Plug(c, Leaf), p) {
      OldNode(c, nt, p);
      BonesPaths(Plug(c, nt), tree, p);
    }
  }

  lemma OldNode(c: Ctx, nt: Tree, p: Ptr)
    requires Separate(c, nt) && nt.Node? && nt.l.Leaf? && nt.r.Leaf? && p in Addrs(Plug(c, Leaf))
    ensures Ancestors(Plug(c, nt), p) == Ancestors(Plug(c, Leaf), p)
  {
    PlugAddrs(c, Leaf);
    HeadAway(c, Leaf);
    AboveOutside(c, nt, Leaf, p);
  }

  lemma {:induction false} HeadAway(c: Ctx, t: Tree)
    requires Separate(c, t)
    ensures HEAD !in Addrs(Plug(c, t))
    decreases c
  {
    if c.In? {
      SeparateUp(c, t);
      HeadAway(c.up, Mk(c.d, t, c.p, c.item, c.mark, c.sib));
    }
  }

  lemma {:induction false} SeparateJoin(inn: Ctx, o: Ctx, t: Tree)
    requires Separate(Join(inn, o), t)
    ensures Separate(o, Plug(inn, t))
    decreases inn
  {
    if inn.In? {
      SeparateUp(Join(inn, o), t);
      SeparateJoin(inn.up, o, Mk(inn.d, t, inn.p, inn.item, inn.mark, inn.sib));
    }
  }

  // The ancestors that the node yc.p on the path had before the insertion.
  lemma OldAbove(c: Ctx, yc: Ctx, low: Ctx)
    requires yc.In? && c == Join(low, yc) && CtxDisj(c)
    ensures yc.p in Addrs(Plug(c, Leaf)) && Ancestors(Plug(c, Leaf), yc.p) == Stack(yc.up)
  {
    var t := Mk(yc.d, Plug(low, Leaf), yc.p, yc.item, yc.mark, yc.sib);
    SeparateJoin(low, yc, Leaf);
    SeparateUp(yc, Plug(low, Leaf));
    JoinPlug(low, yc, Leaf);
    AbovePlug(yc.up, t, yc.p);
    PlugAddrs(yc.up, t);
    HeadIn(yc.up);
  }

  // A rotation moves the old root y of a subtree down.
  lemma MovedDown(o: Ctx, t: Tree, y: Ptr)
    requires Separate(o, t) && t.Node? && t.p != y && y in Addrs(t)
    ensures |Ancestors(Plug(o, t), y)| > Depth(o)
  {
    AbovePlug(o, t, y);
  }

  // So y does not keep its ancestors.
  lemma PathChanged(c: Ctx, yc: Ctx, low: Ctx, tree: Tree)
    requires yc.In? && c == Join(low, yc) && CtxDisj(c) && |Ancestors(tree, yc.p)| > Depth(yc.up)
    ensures !SamePaths(Plug(c, Leaf), tree)
  {
    OldAbove(c, yc, low);
  }
}
