/** Taking a node out of a search tree, as rb_delete and avl_delete both do it: a node
    without right child is bypassed; any other node is replaced by its in-order
    successor, which moves up into its place. */
module Splice {
  import opened Store

  // The context whose inner part is `inn` and whose outer part is o.
  function Join(inn: Ctx, o: Ctx): Ctx {
    match inn
    case Top => o
    case In(up, d, p, item, mark, sib) => In(Join(up, o), d, p, item, mark, sib)
  }

  lemma {:induction false} JoinPlug(inn: Ctx, o: Ctx, t: Tree)
    ensures Plug(Join(inn, o), t) == Plug(o, Plug(inn, t))
    decreases inn
  {
    if inn.In? {
      JoinPlug(inn.up, o, Mk(inn.d, t, inn.p, inn.item, inn.mark, inn.sib));
    }
  }

  lemma {:induction false} JoinUp(mem: Memory, inn: Ctx, o: Ctx, t: Tree)
    requires At(mem, Join(inn, o), t)
    ensures At(mem, o, Plug(inn, t))
    decreases inn
  {
    if inn.In? {
      Up(mem, Join(inn, o), t);
      JoinUp(mem, inn.up, o, Mk(inn.d, t, inn.p, inn.item, inn.mark, inn.sib));
    }
  }

  lemma {:induction false} JoinDown(mem: Memory, inn: Ctx, o: Ctx, t: Tree)
    requires At(mem, o, Plug(inn, t))
    ensures At(mem, Join(inn, o), t)
    decreases inn
  {
    if inn.In? {
      var t' := Mk(inn.d, t, inn.p, inn.item, inn.mark, inn.sib);
      JoinDown(mem, inn.up, o, t');
      Down(mem, Join(inn.up, o), inn.d, t');
    }
  }

  // The link to a node with at most one child is redirected to that child.
  lemma {:induction false} Bypass(mem: Memory, c: Ctx, t: Tree, d: bool)
    requires At(mem, c, t) && t.Node? && Kid(t, !d).Leaf?
    ensures Last(c) in mem
    ensures At(SetLink(mem, Last(c), Side(c), Root(Kid(t, d))), c, Kid(t, d))
    ensures t.p !in CtxAddrs(c) + Addrs(Kid(t, d))
  {
    LastIn(mem, c, t.p);
    var mem' := SetLink(mem, Last(c), Side(c), Root(Kid(t, d)));
    FrameTree(mem, mem', Kid(t, d));
    Relink(mem, mem', c, t.p, Root(Kid(t, d)));
  }

  // Node s takes the place, the children and the mark of node t.p.
  lemma {:induction false} TakePlace(mem: Memory, mem': Memory, c: Ctx, t: Tree, s: Ptr, si: Item)
    requires At(mem, c, t) && t.Node?
    requires s != NULL && s !in Addrs(t) + CtxAddrs(c)
    requires s in mem' && mem'[s] == Cell(Root(t.l), Root(t.r), si, t.mark)
    requires Last(c) in mem && Last(c) in mem' && mem'[Last(c)] == SetLink(mem, Last(c), Side(c), s)[Last(c)]
    requires Same(mem, mem', Addrs(t.l) + Addrs(t.r) + (CtxAddrs(c) - {Last(c)}))
    ensures At(mem', c, Node(t.l, s, si, t.mark, t.r))
  {
    FrameTree(mem, mem', t.l);
    FrameTree(mem, mem', t.r);
    Relink(mem, mem', c, t.p, s);
  }

  lemma {:induction false} JoinAddrs(inn: Ctx, o: Ctx, t: Tree)
    ensures CtxAddrs(Join(inn, o)) + Addrs(t) == CtxAddrs(o) + Addrs(Plug(inn, t))
    decreases inn
  {
    if inn.In? {
      MkTree(inn.d, t, inn.p, inn.item, inn.mark, inn.sib);
      JoinAddrs(inn.up, o, Mk(inn.d, t, inn.p, inn.item, inn.mark, inn.sib));
    }
  }

  // Memory after the in-order successor s, which is below the left-going path inn,
  // has been unhooked and put in the place of p.
  ghost predicate MovedUp(mem: Memory, mem': Memory, c: Ctx, p: Ptr, pm: int, l: Tree, inn: Ctx, st: Tree)
    requires st.Node?
  {
    var s := st.p;
    && s in mem' && mem'[s] == Cell(Root(l), Root(Plug(inn, st.r)), st.item, pm)
    && (inn.In? ==> inn.p in mem && inn.p in mem' && mem'[inn.p] == SetLink(mem, inn.p, inn.d, Root(st.r))[inn.p])
    && Last(c) in mem && Last(c) in mem' && mem'[Last(c)] == SetLink(mem, Last(c), Side(c), s)[Last(c)]
    && forall a :: a in mem && a != p && a != s && a != Last(c) && !(inn.In? && a == inn.p) ==> a in mem' && mem'[a] == mem[a]
  }

  lemma MoveUp(mem: Memory, mem': Memory, c: Ctx, p: Ptr, pi: Item, pm: int, l: Tree, inn: Ctx, st: Tree)
    requires st.Node? && st.l.Leaf? && At(mem, Join(inn, In(c, true, p, pi, pm, l)), st)
    requires MovedUp(mem, mem', c, p, pm, l, inn, st)
    ensures At(mem', Join(inn, In(c, true, st.p, st.item, pm, l)), st.r)
    ensures p !in CtxAddrs(Join(inn, In(c, true, st.p, st.item, pm, l))) + Addrs(st.r)
  {
    var o, o' := In(c, true, p, pi, pm, l), In(c, true, st.p, st.item, pm, l);
    var r := Plug(inn, st.r);
    Bypass(mem, Join(inn, o), st, true);
    var mem1 := SetLink(mem, Last(Join(inn, o)), Side(Join(inn, o)), Root(st.r));
    JoinUp(mem1, inn, o, st.r);
    JoinAddrs(inn, o, st.r);
    Up(mem1, o, r);
    TakePlace(mem1, mem', c, Node(l, p, pi, pm, r), st.p, st.item);
    Down(mem', c, true, Node(l, st.p, st.item, pm, r));
    JoinDown(mem', inn, o', st.r);
    JoinAddrs(inn, o', st.r);
  }

  ghost predicate LeftPath(inn: Ctx) decreases inn { inn.In? ==> !inn.d && LeftPath(inn.up) }

  lemma {:induction false} LeftPathBefore(inn: Ctx)
    requires LeftPath(inn)
    ensures Before(inn) == []
    decreases inn
  {
    if inn.In? {
      LeftPathBefore(inn.up);
    }
  }

  // In order, replacing p by its successor just drops p.
  lemma MoveUpInorder(c: Ctx, p: Ptr, pi: Item, pm: int, l: Tree, inn: Ctx, st: Tree) returns (a: seq<Entry>, b: seq<Entry>)
    requires st.Node? && st.l.Leaf? && LeftPath(inn)
    ensures Inorder(Plug(Join(inn, In(c, true, p, pi, pm, l)), st)) == a + [Entry(p, pi)] + b
    ensures Inorder(Plug(Join(inn, In(c, true, st.p, st.item, pm, l)), st.r)) == a + b
  {
    var o, o' := In(c, true, p, pi, pm, l), In(c, true, st.p, st.item, pm, l);
    var s := [Entry(st.p, st.item)];
    LeftPathBefore(inn);
    JoinPlug(inn, o, st);
    JoinPlug(inn, o', st.r);
    var rest := FirstOut(inn, st);
    PlugInorder(o, Plug(inn, st));
    PlugInorder(o', Plug(inn, st.r));
    a := Before(c) + Inorder(l);
    b := s + rest + After(c);
    assert Before(o) == a + [Entry(p, pi)] by { Assoc(Before(c), Inorder(l), [Entry(p, pi)]); }
    assert Before(o') == a + s by { Assoc(Before(c), Inorder(l), s); }
    Assoc(a + [Entry(p, pi)], s + rest, After(c));
    Regroup(a, s, rest, After(c));
  }

  lemma Assoc<T>(a: seq<T>, b: seq<T>, c: seq<T>)
    ensures a + (b + c) == (a + b) + c
  {
  }

  lemma FirstOut(inn: Ctx, st: Tree) returns (rest: seq<Entry>)
    requires st.Node? && st.l.Leaf? && LeftPath(inn)
    ensures Inorder(Plug(inn, st)) == [Entry(st.p, st.item)] + rest
    ensures Inorder(Plug(inn, st.r)) == rest
  {
    LeftPathBefore(inn);
    PlugInorder(inn, st);
    PlugInorder(inn, st.r);
    rest := Inorder(st.r) + After(inn);
    Assoc([Entry(st.p, st.item)], Inorder(st.r), After(inn));
  }

  // Bypassing a node without right child drops just that node.
  lemma BypassInorder(c: Ctx, t: Tree) returns (a: seq<Entry>, b: seq<Entry>)
    requires t.Node? && t.r.Leaf?
    ensures Inorder(Plug(c, t)) == a + [Entry(t.p, t.item)] + b
    ensures Inorder(Plug(c, t.l)) == a + b
  {
    PlugInorder(c, t);
    PlugInorder(c, t.l);
    a, b := Before(c) + Inorder(t.l), After(c);
    assert Inorder(t) == Inorder(t.l) + [Entry(t.p, t.item)];
    Regroup(Before(c), Inorder(t.l), [Entry(t.p, t.item)], After(c));
  }

  // The stack after p's entry, at index Depth(o), has been overwritten.
  lemma {:induction false} PaJoin(inn: Ctx, o: Ctx, o': Ctx)
    requires o.In? && o'.In? && o.up == o'.up && o.d == o'.d
    ensures |Pa(Join(inn, o))| == Depth(inn) + Depth(o) + 1 == Depth(Join(inn, o)) + 1
    ensures Pa(Join(inn, o')) == Pa(Join(inn, o))[Depth(o) := o'.p]
    ensures Da(Join(inn, o')) == Da(Join(inn, o)) && Da(Join(inn, o))[Depth(o)] == o.d
    ensures Pa(Join(inn, o))[Depth(o.up)] == Last(o.up) && Da(Join(inn, o))[Depth(o.up)] == Side(o.up)
    decreases inn
  {
    if inn.In? {
      PaJoin(inn.up, o, o');
    }
  }

  // The records that change when the successor st of p, with parent inn.p, moves up.
  lemma {:induction false} SuccessorView(mem: Memory, c: Ctx, p: Ptr, pi: Item, pm: int, l: Tree, inn: Ctx, st: Tree)
    requires st.Node? && inn.In? && !inn.d && At(mem, Join(inn, In(c, true, p, pi, pm, l)), st)
    ensures st.p in mem && p in mem && inn.p in mem && Last(c) in mem
    ensures mem[p] == Cell(Root(l), Root(Plug(inn, st.r)), pi, pm)
    ensures mem[inn.p].l == st.p && mem[st.p] == Cell(Root(st.l), Root(st.r), st.item, st.mark)
    ensures st.p != p && st.p != inn.p && st.p != Last(c) && p != inn.p && p != Last(c) && inn.p != Last(c)
  {
    var o := In(c, true, p, pi, pm, l);
    Peek(mem, Join(inn, o), Root(st));
    RootIn(mem, st);
    JoinUp(mem, inn, o, st);
    OuterRoot(inn, st, st.r);
    LastIn(mem, c, p);
    HoleNotLast(inn, o, st);
  }

  lemma HoleNotLast(inn: Ctx, o: Ctx, t: Tree)
    requires inn.In? && o.In? && t.Node? && CtxDisj(Join(inn, o)) && Addrs(t) !! CtxAddrs(Join(inn, o))
    ensures t.p != o.p && t.p != inn.p && t.p != Last(o.up) && inn.p != o.p && inn.p != Last(o.up)
  {
    JoinAddrs(inn.up, o, Leaf);
    assert inn.p !in CtxAddrs(Join(inn.up, o));
    LastAddr(o.up);
    assert o.p in CtxAddrs(o);
    assert CtxAddrs(o) <= CtxAddrs(Join(inn.up, o)) + Addrs(Leaf);
  }

  lemma LastAddr(c: Ctx)
    ensures Last(c) in CtxAddrs(c)
  {
  }

  lemma {:induction false} OuterRoot(inn: Ctx, t: Tree, t': Tree)
    requires inn.In?
    ensures Root(Plug(inn, t)) == Root(Plug(inn, t'))
    decreases inn
  {
    if inn.up.In? {
      OuterRoot(inn.up, Mk(inn.d, t, inn.p, inn.item, inn.mark, inn.sib), Mk(inn.d, t', inn.p, inn.item, inn.mark, inn.sib));
    }
  }
}
