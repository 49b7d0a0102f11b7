/** avl-2.0/src/pbst.c: balancing a binary search tree whose nodes know their parents.  The
    vine functions of pbst.c are those of bst.c; they leave arbitrary stale parent pointers,
    which update_parents repairs without a stack.  The mark of a node is its pbst_parent. */
module Pbst {
  import opened Powers
  import opened Store
  import opened Ordered
  import opened Vine
  import opened Bst

  // Every node of t points to the node that links to it; the root points to q.
  ghost predicate Parents(t: Tree, q: Ptr) {
    t.Node? ==> t.mark == q && Parents(t.l, t.p) && Parents(t.r, t.p)
  }

  // What the parent pointer in the hole must be: NULL at the root, although HEAD links to it.
  function ParentOf(c: Ctx): Ptr { if c.Top? then NULL else c.p }

  // The ancestors of the hole, and what is left of the path, are repaired; what is right of it
  // has not been visited.
  ghost predicate PathRepaired(c: Ctx) decreases c {
    c.In? ==> c.mark == ParentOf(c.up) && PathRepaired(c.up) && (c.d ==> Parents(c.sib, c.p))
  }

  // How many nodes right of the path are still to be visited.
  function Unvisited(c: Ctx): nat decreases c {
    if c.Top? then 0 else Unvisited(c.up) + (if c.d then 0 else Size(c.sib))
  }

  // The tree without its parent pointers.
  function Bare(t: Tree): Tree {
    if t.Leaf? then Leaf else Node(Bare(t.l), t.p, t.item, 0, Bare(t.r))
  }

  lemma {:induction false} BarePlug(c: Ctx, t: Tree, t': Tree)
    requires Bare(t) == Bare(t')
    ensures Bare(Plug(c, t)) == Bare(Plug(c, t'))
    decreases c
  {
    if c.In? {
      BarePlug(c.up, Mk(c.d, t, c.p, c.item, c.mark, c.sib), Mk(c.d, t', c.p, c.item, c.mark, c.sib));
    }
  }

  lemma {:induction false} BareSame(t: Tree)
    ensures Inorder(Bare(t)) == Inorder(t) && Height(Bare(t)) == Height(t)
  {
    if t.Node? {
      BareSame(t.l);
      BareSame(t.r);
    }
  }

  // Repairing the pointer of child d of the focus and moving there.
  lemma RepairDown(mem: Memory, c: Ctx, d: bool, t: Tree)
    requires At(mem, c, t) && t.Node? && Kid(t, d).Node?
    ensures Kid(t, d).p in mem && Link(mem[t.p], d) == Kid(t, d).p
    ensures var k := Kid(t, d); var c' := In(c, d, t.p, t.item, t.mark, Kid(t, !d)); var k' := k.(mark := t.p);
            && At(SetMark(mem, k.p, t.p), c', k')
            && Bare(Plug(c', k')) == Bare(Plug(c, t))
            && Size(k') == Size(k)
  {
    var c' := In(c, d, t.p, t.item, t.mark, Kid(t, !d));
    RootIn(mem, t);
    Down(mem, c, d, t);
    Recolor(mem, c', Kid(t, d), t.p);
    BarePlug(c', Kid(t, d), Kid(t, d).(mark := t.p));
  }

  // Climbing from a repaired subtree.
  lemma RepairUp(mem: Memory, c: Ctx, t: Tree)
    requires At(mem, c, t) && t.Node? && c.In? && Parents(t, c.p) && PathRepaired(c)
    ensures var t' := Mk(c.d, t, c.p, c.item, c.mark, c.sib);
            && At(mem, c.up, t') && t'.mark == ParentOf(c.up) && Parents(t'.l, c.p) && PathRepaired(c.up)
            && (c.d ==> Parents(t', ParentOf(c.up)))
            && Unvisited(c) == Unvisited(c.up) + (if c.d then 0 else Size(t'.r))
  {
    Up(mem, c, t);
  }

  // How the code tells whether it comes from the left: the parent's left link is the node itself.
  lemma FromLeft(mem: Memory, c: Ctx, t: Tree)
    requires At(mem, c, t) && t.Node? && PathRepaired(c) && t.mark == ParentOf(c)
    ensures t.p in mem && mem[t.p].mark == ParentOf(c)
    ensures ParentOf(c) == NULL <==> c.Top?
    ensures c.In? ==> c.p in mem && (mem[c.p].l == t.p <==> !c.d)
  {
    RootIn(mem, t);
    if c.In? {
      Peek(mem, c, t.p);
      assert c.sib.Node? ==> c.sib.p in Addrs(c.sib);
    }
  }

  // The only place where a parent pointer is read: it must have been repaired before.
  method ParentField(b: BstTable, p: Ptr, ghost repaired: set<Ptr>) returns (q: int)
    requires p in repaired && p in b.node
    ensures q == b.node[p].mark
  {
    q := b.node[p].mark;
  }

  // The only place where one is repaired.
  method SetParent(b: BstTable, k: Ptr, p: Ptr, ghost repaired: set<Ptr>) returns (ghost repaired': set<Ptr>)
    requires k in b.node
    modifies b`node
    ensures b.node == SetMark(old(b.node), k, p) && repaired' == repaired + {k}
  {
    b.node := SetMark(b.node, k, p);
    repaired' := repaired + {k};
  }

  // The nodes on the path to the hole.
  function Ancestors(c: Ctx): set<Ptr> { if c.Top? then {} else Ancestors(c.up) + {c.p} }

  method UpdateParents(b: BstTable)
    requires At(b.node, Top, b.tree)
    modifies b`node, b`tree
    ensures At(b.node, Top, b.tree) && b.node.Keys == old(b.node.Keys)
    ensures Parents(b.tree, NULL) && Bare(b.tree) == old(Bare(b.tree))
  {
    RootIn(b.node, b.tree);
    if b.node[HEAD].l == NULL {
      return;
    }
    Recolor(b.node, Top, b.tree, NULL);
    ghost var c, t := Top, b.tree.(mark := NULL);
    ghost var repaired := SetParent(b, b.node[HEAD].l, NULL, {});
    var p := b.node[HEAD].l;
    while true
      invariant At(b.node, c, t) && t.Node? && p == t.p && t.mark == ParentOf(c) && PathRepaired(c)
      invariant Ancestors(c) + {t.p} <= repaired
      invariant b.node.Keys == old(b.node.Keys) && Bare(Plug(c, t)) == old(Bare(b.tree))
      decreases Unvisited(c) + Size(t)
    {
      c, t, p, repaired := Leftmost(b, c, t, p, repaired);
      var done;
      done, c, t, p := Climb(b, c, t, p, repaired);
      if done {
        b.tree := t;
        return;
      }
      RepairDown(b.node, c, true, t);
      repaired := SetParent(b, b.node[p].r, p, repaired);
      c, t := In(c, true, t.p, t.item, t.mark, t.l), t.r.(mark := p);
      p := b.node[p].r;
    }
  }

  // The first inner loop: go left as far as possible.
  method Leftmost(b: BstTable, ghost c0: Ctx, ghost t0: Tree, p0: Ptr, ghost repaired0: set<Ptr>)
    returns (ghost c: Ctx, ghost t: Tree, p: Ptr, ghost repaired: set<Ptr>)
    requires At(b.node, c0, t0) && t0.Node? && p0 == t0.p && t0.mark == ParentOf(c0) && PathRepaired(c0)
    requires Ancestors(c0) + {t0.p} <= repaired0
    modifies b`node
    ensures At(b.node, c, t) && t.Node? && t.l.Leaf? && p == t.p && t.mark == ParentOf(c) && PathRepaired(c)
    ensures Ancestors(c) + {t.p} <= repaired
    ensures b.node.Keys == old(b.node.Keys) && Bare(Plug(c, t)) == Bare(Plug(c0, t0))
    ensures Unvisited(c) + Size(t) <= Unvisited(c0) + Size(t0)
  {
    c, t, p, repaired := c0, t0, p0, repaired0;
    RootIn(b.node, t);
    RootIn(b.node, t.l);
    while b.node[p].l != NULL
      invariant At(b.node, c, t) && t.Node? && p == t.p && p in b.node && t.mark == ParentOf(c) && PathRepaired(c)
      invariant b.node.Keys == old(b.node.Keys) && Bare(Plug(c, t)) == Bare(Plug(c0, t0))
      invariant (b.node[p].l == NULL <==> t.l.Leaf?) && Ancestors(c) + {t.p} <= repaired
      invariant Unvisited(c) + Size(t) <= Unvisited(c0) + Size(t0)
      decreases Size(t)
    {
      RepairDown(b.node, c, false, t);
      repaired := SetParent(b, b.node[p].l, p, repaired);
      c, t := In(c, false, t.p, t.item, t.mark, t.r), t.l.(mark := p);
      p := b.node[p].l;
      RootIn(b.node, t);
      RootIn(b.node, t.l);
    }
  }

  // The second inner loop: from a node whose left side is repaired, climb until there is a right
  // child to visit.  Done means that the climb has come out at the root.
  method Climb(b: BstTable, ghost c0: Ctx, ghost t0: Tree, p0: Ptr, ghost repaired: set<Ptr>)
    returns (done: bool, ghost c: Ctx, ghost t: Tree, p: Ptr)
    requires At(b.node, c0, t0) && t0.Node? && Parents(t0.l, t0.p) && p0 == t0.p && t0.mark == ParentOf(c0) && PathRepaired(c0)
    requires Ancestors(c0) + {t0.p} <= repaired
    ensures Bare(Plug(c, t)) == Bare(Plug(c0, t0)) && At(b.node, c, t)
    ensures done ==> c.Top? && Parents(t, NULL)
    ensures !done ==> t.Node? && t.r.Node? && Parents(t.l, t.p) && p == t.p && t.mark == ParentOf(c) && PathRepaired(c)
    ensures !done ==> Unvisited(c) + Size(t.r) <= Unvisited(c0) + Size(t0.r) && Ancestors(c) + {t.p} <= repaired
  {
    c, t, p := c0, t0, p0;
    done := false;
    RootIn(b.node, t);
    RootIn(b.node, t.r);
    while !done && b.node[p].r == NULL
      invariant At(b.node, c, t) && Plug(c, t) == Plug(c0, t0)
      invariant done ==> c.Top? && Parents(t, NULL)
      invariant !done ==> t.Node? && Parents(t.l, t.p) && p == t.p && p in b.node && t.mark == ParentOf(c) && PathRepaired(c)
      invariant !done ==> (b.node[p].r == NULL <==> t.r.Leaf?) && Ancestors(c) + {t.p} <= repaired
      invariant !done ==> Unvisited(c) + Size(t.r) <= Unvisited(c0) + Size(t0.r)
      decreases !done, Depth(c)
    {
      done, c, t, p := ClimbOut(b, c, t, p, repaired);
      if !done {
        RootIn(b.node, t);
        RootIn(b.node, t.r);
      }
    }
  }

  // The loop inside it, and the step after it: out of right subtrees, and up from a left one.
  method ClimbOut(b: BstTable, ghost c0: Ctx, ghost t0: Tree, p0: Ptr, ghost repaired: set<Ptr>)
    returns (done: bool, ghost c: Ctx, ghost t: Tree, p: Ptr)
    requires At(b.node, c0, t0) && t0.Node? && Parents(t0, ParentOf(c0)) && p0 == t0.p && PathRepaired(c0)
    requires Ancestors(c0) + {t0.p} <= repaired
    ensures At(b.node, c, t) && Plug(c, t) == Plug(c0, t0)
    ensures done ==> c.Top? && Parents(t, NULL)
    ensures !done ==> t.Node? && Parents(t.l, t.p) && p == t.p && t.mark == ParentOf(c) && PathRepaired(c)
    ensures !done ==> Depth(c) < Depth(c0) && Unvisited(c) + Size(t.r) <= Unvisited(c0) && Ancestors(c) + {t.p} <= repaired
  {
    c, t, p := c0, t0, p0;
    while true
      invariant At(b.node, c, t) && t.Node? && Parents(t, ParentOf(c)) && p == t.p && PathRepaired(c)
      invariant Plug(c, t) == Plug(c0, t0) && Unvisited(c) <= Unvisited(c0) && Depth(c) <= Depth(c0)
      invariant Ancestors(c) + {t.p} <= repaired
      decreases Depth(c)
    {
      FromLeft(b.node, c, t);
      var up := ParentField(b, p, repaired);
      if up == NULL {
        return true, c, t, p;
      }
      if p == b.node[up].l {
        break;
      }
      RepairUp(b.node, c, t);
      p := ParentField(b, p, repaired);
      c, t := c.up, Mk(c.d, t, c.p, c.item, c.mark, c.sib);
    }
    RepairUp(b.node, c, t);
    p := ParentField(b, p, repaired);
    c, t := c.up, Mk(c.d, t, c.p, c.item, c.mark, c.sib);
    done := false;
  }

  // Nodes and order stay, the height is the least possible, and every parent pointer is right.
  method Balance(b: BstTable) returns (height: nat)
    requires b.Valid()
    modifies b
    ensures b.Valid() && Inorder(b.tree) == old(Inorder(b.tree)) && b.node.Keys == old(b.node.Keys)
    ensures b.count > 0 ==> height == Height(b.tree) && Pow2(height - 1) <= b.count < Pow2(height)
    ensures Parents(b.tree, NULL) && b.count == old(b.count)
  {
    AddrsInorder(b.tree);
    b.TreeToVine();
    var fits;
    height, fits := b.VineToTree();
    BareSame(b.tree);
    UpdateParents(b);
    BareSame(b.tree);
    AddrsInorder(b.tree);
  }
}
