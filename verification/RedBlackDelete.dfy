/** The deletion of avl-2.0/src/rb.c: taking a node out, and one lemma for each way
    through the fix-up loop. */
module RedBlackDelete {
  import opened Store
  import opened Splice
  import opened RedBlackShape

  // x lacks one black node on every path, unless it is red: then turning it black repairs that.
  ghost predicate Deleting(c: Ctx, x: Tree, h: nat) {
    CtxRB(c, h + 1, false) && if IsRed(x) then RB(BlackRoot(x), h + 1) else RB(x, h)
  }

  // After a node of mark m has been taken out: nothing to repair if it was red.
  ghost predicate TakenOut(m: int, c: Ctx, x: Tree, h: nat) {
    if m == RED then RB(x, h) && CtxRB(c, h, IsRed(x)) else m == BLACK && Deleting(c, x, h)
  }

  lemma BypassRB(c: Ctx, t: Tree, h: nat) returns (h': nat)
    requires t.Node? && t.r.Leaf? && RB(t, h) && CtxRB(c, h, IsRed(t))
    ensures TakenOut(t.mark, c, t.l, h')
  {
    h' := 0;
    assert RB(t.r, if t.mark == RED then h else h - 1);
  }

  // The colour rules see marks and shapes, not which node is where.
  lemma {:induction false} JoinRB(inn: Ctx, o: Ctx, o': Ctx, h: nat, red: bool)
    requires o.In? && o'.In? && o.mark == o'.mark && o.sib == o'.sib && o.up == o'.up
    ensures CtxRB(Join(inn, o), h, red) == CtxRB(Join(inn, o'), h, red)
    decreases inn
  {
    if inn.In? {
      JoinRB(inn.up, o, o', h, true);
      JoinRB(inn.up, o, o', h + 1, false);
    }
  }

  lemma MoveUpRB(c: Ctx, p: Ptr, pi: Item, pm: int, l: Tree, inn: Ctx, st: Tree, h: nat) returns (h': nat)
    requires st.Node? && st.l.Leaf?
    requires RB(st, h) && CtxRB(Join(inn, In(c, true, p, pi, pm, l)), h, IsRed(st))
    ensures TakenOut(st.mark, Join(inn, In(c, true, st.p, st.item, pm, l)), st.r, h')
  {
    h' := 0;
    JoinRB(inn, In(c, true, p, pi, pm, l), In(c, true, st.p, st.item, pm, l), h, IsRed(st));
    assert RB(st.l, if st.mark == RED then h else h - 1);
  }

  // The right child r of p has no left child: it moves up, exchanging marks with p.
  lemma NextMovedUp(mem: Memory, c: Ctx, t: Tree)
    requires At(mem, c, t) && t.Node? && t.r.Node?
    ensures t.p in mem && t.r.p in mem && Last(c) in mem
    ensures var p, r := t.p, t.r.p;
            var m1 := SetMark(SetMark(SetLink(mem, r, false, Root(t.l)), r, t.mark), p, t.r.mark);
            && MovedUp(mem, SetLink(m1, Last(c), Side(c), r), c, p, t.mark, t.l, Top, t.r)
            && SetLink(m1, Last(c), Side(c), r)[p].mark == t.r.mark
  {
    LastIn(mem, c, t.p);
    assert Cells(mem, t.r);
    assert t.r.p in Addrs(t.r);
  }

  // The successor st of p, with parent inn.p, moves up, exchanging marks with p.
  lemma SuccessorMovedUp(mem: Memory, c: Ctx, p: Ptr, pi: Item, pm: int, l: Tree, inn: Ctx, st: Tree)
    requires st.Node? && inn.In? && !inn.d && st.p in mem && p in mem && inn.p in mem && Last(c) in mem
    requires mem[p] == Cell(Root(l), Root(Plug(inn, st.r)), pi, pm)
    requires mem[st.p] == Cell(Root(st.l), Root(st.r), st.item, st.mark)
    requires st.p != p && st.p != inn.p && st.p != Last(c) && p != inn.p && p != Last(c) && inn.p != Last(c)
    ensures var s, r := st.p, inn.p;
            var m1 := SetLink(SetLink(mem, Last(c), Side(c), s), s, false, mem[p].l);
            var m2 := SetLink(SetLink(m1, r, false, m1[s].r), s, true, mem[p].r);
            var m3 := SetMark(SetMark(m2, s, pm), p, st.mark);
            MovedUp(mem, m3, c, p, pm, l, inn, st) && m3[p].mark == st.mark
  {
  }

  /* ---------- the fix-up loop ---------- */

  // The sibling of a node that lacks a black node exists.
  lemma SiblingRB(c: Ctx, x: Tree, h: nat)
    requires Deleting(c, x, h) && c.In?
    ensures c.sib.Node? && RB(c.sib, h + 1)
    ensures !IsRed(c.sib) ==> c.sib.mark == BLACK && RB(c.sib.l, h) && RB(c.sib.r, h)
  {
  }

  // What the loop reads.
  lemma DeleteView(mem: Memory, c: Ctx, x: Tree, h: nat)
    requires At(mem, c, x) && Deleting(c, x, h)
    ensures Last(c) in mem && Link(mem[Last(c)], Side(c)) == Root(x)
    ensures Root(x) != NULL ==> Root(x) in mem
    ensures IsRed(x) <==> Root(x) != NULL && mem[Root(x)].mark == RED
    ensures c.In? ==> Link(mem[c.p], !c.d) == Root(c.sib) && Root(c.sib) in mem
    ensures c.In? ==> (IsRed(c.sib) <==> mem[Root(c.sib)].mark == RED)
  {
    LastIn(mem, c, Root(x));
    RootIn(mem, x);
    if c.In? {
      SiblingRB(c, x, h);
      Peek(mem, c, Root(x));
    }
  }

  // Red sibling: after a rotation the sibling is black, one level further down.
  function BelowSibling(c: Ctx): Ctx
    requires c.In? && c.sib.Node?
  {
    In(In(c.up, c.d, c.sib.p, c.sib.item, BLACK, Kid(c.sib, !c.d)), c.d, c.p, c.item, RED, Kid(c.sib, c.d))
  }

  lemma RedSiblingAt(mem: Memory, c: Ctx, x: Tree)
    requires At(mem, c, x) && c.In? && c.sib.Node?
    ensures c.p in mem && c.sib.p in mem && Last(c.up) in mem
    ensures At(Rotated(SetMark(SetMark(mem, c.sib.p, BLACK), c.p, RED), c.up, !c.d, c.p, c.sib.p), BelowSibling(c), x)
  {
    var d, w := c.d, c.sib;
    Up(mem, c, x);
    LastIn(mem, c.up, c.p);
    Down(mem, c.up, !d, Mk(d, x, c.p, c.item, c.mark, w));
    var cw := In(c.up, !d, c.p, c.item, c.mark, x);
    Recolor(mem, cw, w, BLACK);
    var m1 := SetMark(mem, w.p, BLACK);
    Up(m1, cw, w.(mark := BLACK));
    Recolor(m1, c.up, Mk(d, x, c.p, c.item, c.mark, w.(mark := BLACK)), RED);
    var m2 := SetMark(m1, c.p, RED);
    Rotate(m2, c.up, !d, c.p, c.item, RED, w.p, w.item, BLACK, Kid(w, !d), Kid(w, d), x);
    var m3 := Rotated(m2, c.up, !d, c.p, w.p);
    var low := Mk(d, x, c.p, c.item, RED, Kid(w, d));
    Down(m3, c.up, d, Mk(d, low, w.p, w.item, BLACK, Kid(w, !d)));
    Down(m3, In(c.up, d, w.p, w.item, BLACK, Kid(w, !d)), d, low);
  }

  lemma RedSiblingInorder(c: Ctx, x: Tree)
    requires c.In? && c.sib.Node?
    ensures Inorder(Plug(BelowSibling(c), x)) == Inorder(Plug(c, x))
  {
    var d, w := c.d, c.sib;
    RotateInorder(!d, c.p, c.item, RED, w.p, w.item, BLACK, Kid(w, !d), Kid(w, d), x);
    SameInorder(c.up, Mk(d, x, c.p, c.item, c.mark, w),
                Mk(d, Mk(d, x, c.p, c.item, RED, Kid(w, d)), w.p, w.item, BLACK, Kid(w, !d)));
  }

  lemma RedSiblingRB(c: Ctx, x: Tree, h: nat)
    requires Deleting(c, x, h) && c.In? && IsRed(c.sib)
    ensures Deleting(BelowSibling(c), x, h) && !IsRed(BelowSibling(c).sib)
  {
  }

  // Black sibling without a red child: it turns red and the lack moves up one level.
  lemma BlackNephews(mem: Memory, c: Ctx, x: Tree, h: nat) returns (h': nat)
    requires At(mem, c, x) && Deleting(c, x, h) && !IsRed(x)
    requires c.In? && !IsRed(c.sib) && c.sib.Node? && !IsRed(c.sib.l) && !IsRed(c.sib.r)
    ensures c.sib.p in mem
    ensures var x' := Mk(c.d, x, c.p, c.item, c.mark, c.sib.(mark := RED));
            && At(SetMark(mem, c.sib.p, RED), c.up, x') && Deleting(c.up, x', h')
            && (c.mark == RED <==> IsRed(x'))
            && Inorder(Plug(c.up, x')) == Inorder(Plug(c, x))
  {
    var d, w := c.d, c.sib;
    h' := if c.mark == RED then h else h + 1;
    Up(mem, c, x);
    Down(mem, c.up, !d, Mk(d, x, c.p, c.item, c.mark, w));
    var cw := In(c.up, !d, c.p, c.item, c.mark, x);
    Recolor(mem, cw, w, RED);
    Up(SetMark(mem, w.p, RED), cw, w.(mark := RED));
    SameInorder(c.up, Mk(d, x, c.p, c.item, c.mark, w), Mk(d, x, c.p, c.item, c.mark, w.(mark := RED)));
    SiblingRB(c, x, h);
    assert RB(w.(mark := RED), h);
    if c.mark == RED {
      CtxRBBlack(c.up, h + 1);
    }
  }

  lemma CtxRBBlack(c: Ctx, h: nat)
    requires CtxRB(c, h, true)
    ensures CtxRB(c, h, false)
  {
  }

  // Black sibling whose only red child is on the inner side: rotate it outward.
  function InnerNephewUp(c: Ctx): Ctx
    requires c.In? && c.sib.Node? && Kid(c.sib, c.d).Node?
  {
    var d, w := c.d, c.sib;
    var y := Kid(w, d);
    c.(sib := Mk(d, Kid(y, d), y.p, y.item, BLACK, Mk(d, Kid(y, !d), w.p, w.item, RED, Kid(w, !d))))
  }

  lemma InnerNephewAt(mem: Memory, c: Ctx, x: Tree)
    requires At(mem, c, x) && c.In? && c.sib.Node? && Kid(c.sib, c.d).Node?
    ensures var w, y := c.sib.p, Kid(c.sib, c.d).p;
            && w in mem && y in mem && c.p in mem && Link(mem[w], c.d) == y
            && At(Rotated(SetMark(SetMark(mem, y, BLACK), w, RED), In(c.up, !c.d, c.p, c.item, c.mark, x), c.d, w, y),
                  InnerNephewUp(c), x)
  {
    var d, w := c.d, c.sib;
    var y := Kid(w, d);
    var cw := In(c.up, !d, c.p, c.item, c.mark, x);
    Up(mem, c, x);
    Down(mem, c.up, !d, Mk(d, x, c.p, c.item, c.mark, w));
    Down(mem, cw, d, w);
    var cy := In(cw, d, w.p, w.item, w.mark, Kid(w, !d));
    Recolor(mem, cy, y, BLACK);
    var m1 := SetMark(mem, y.p, BLACK);
    Up(m1, cy, y.(mark := BLACK));
    var w1 := Mk(d, y.(mark := BLACK), w.p, w.item, w.mark, Kid(w, !d));
    Recolor(m1, cw, w1, RED);
    var m2 := SetMark(m1, w.p, RED);
    Rotate(m2, cw, d, w.p, w.item, RED, y.p, y.item, BLACK, Kid(y, d), Kid(y, !d), Kid(w, !d));
    var m3 := Rotated(m2, cw, d, w.p, y.p);
    Up(m3, cw, InnerNephewUp(c).sib);
    Down(m3, c.up, d, Mk(d, x, c.p, c.item, c.mark, InnerNephewUp(c).sib));
  }

  lemma InnerNephewInorder(c: Ctx, x: Tree)
    requires c.In? && c.sib.Node? && Kid(c.sib, c.d).Node?
    ensures Inorder(Plug(InnerNephewUp(c), x)) == Inorder(Plug(c, x))
  {
    var d, w := c.d, c.sib;
    var y := Kid(w, d);
    RotateInorder(d, w.p, w.item, RED, y.p, y.item, BLACK, Kid(y, d), Kid(y, !d), Kid(w, !d));
    MkInorder(d, x, x, c.p, c.item, c.mark, c.mark, w, InnerNephewUp(c).sib);
    SameInorder(c.up, Mk(d, x, c.p, c.item, c.mark, w), Mk(d, x, c.p, c.item, c.mark, InnerNephewUp(c).sib));
  }

  lemma InnerNephewRB(c: Ctx, x: Tree, h: nat)
    requires Deleting(c, x, h) && c.In? && c.sib.Node? && !IsRed(c.sib)
    requires !IsRed(Kid(c.sib, !c.d)) && IsRed(Kid(c.sib, c.d))
    ensures Deleting(InnerNephewUp(c), x, h)
    ensures !IsRed(InnerNephewUp(c).sib) && IsRed(Kid(InnerNephewUp(c).sib, !c.d))
  {
    SiblingRB(c, x, h);
    var y := Kid(c.sib, c.d);
    assert RB(Mk(c.d, Kid(y, !c.d), c.sib.p, c.sib.item, RED, Kid(c.sib, !c.d)), h);
  }

  // Black sibling with a red outer child: one rotation ends the fix-up.
  function OuterNephewUp(c: Ctx, x: Tree): Tree
    requires c.In? && c.sib.Node? && Kid(c.sib, !c.d).Node?
  {
    var d, w := c.d, c.sib;
    Mk(d, Mk(d, x, c.p, c.item, BLACK, Kid(w, d)), w.p, w.item, c.mark, BlackRoot(Kid(w, !d)))
  }

  lemma OuterNephewAt(mem: Memory, c: Ctx, x: Tree)
    requires At(mem, c, x) && c.In? && c.sib.Node? && Kid(c.sib, !c.d).Node?
    ensures var w, z := c.sib.p, Kid(c.sib, !c.d).p;
            && w in mem && z in mem && c.p in mem && Last(c.up) in mem
            && mem[c.p].mark == c.mark && Link(mem[w], !c.d) == z
            && At(Rotated(SetMark(SetMark(SetMark(mem, w, c.mark), c.p, BLACK), z, BLACK), c.up, !c.d, c.p, w),
                  c.up, OuterNephewUp(c, x))
  {
    var d, w := c.d, c.sib;
    var z := Kid(w, !d);
    Peek(mem, c, Root(x));
    LastIn(mem, c.up, c.p);
    Up(mem, c, x);
    Down(mem, c.up, !d, Mk(d, x, c.p, c.item, c.mark, w));
    var cw := In(c.up, !d, c.p, c.item, c.mark, x);
    Recolor(mem, cw, w, c.mark);
    var m1 := SetMark(mem, w.p, c.mark);
    var w1 := w.(mark := c.mark);
    Up(m1, cw, w1);
    Recolor(m1, c.up, Mk(d, x, c.p, c.item, c.mark, w1), BLACK);
    var m2 := SetMark(m1, c.p, BLACK);
    Down(m2, c.up, !d, Mk(d, x, c.p, c.item, BLACK, w1));
    var cw2 := In(c.up, !d, c.p, c.item, BLACK, x);
    Down(m2, cw2, !d, w1);
    var cz := In(cw2, !d, w.p, w.item, c.mark, Kid(w, d));
    Recolor(m2, cz, z, BLACK);
    var m3 := SetMark(m2, z.p, BLACK);
    Up(m3, cz, z.(mark := BLACK));
    Up(m3, cw2, Mk(!d, z.(mark := BLACK), w.p, w.item, c.mark, Kid(w, d)));
    Rotate(m3, c.up, !d, c.p, c.item, BLACK, w.p, w.item, c.mark, z.(mark := BLACK), Kid(w, d), x);
  }

  lemma OuterNephewInorder(c: Ctx, x: Tree)
    requires c.In? && c.sib.Node? && Kid(c.sib, !c.d).Node?
    ensures Inorder(Plug(c.up, OuterNephewUp(c, x))) == Inorder(Plug(c, x))
  {
    var d, w := c.d, c.sib;
    RotateInorder(!d, c.p, c.item, BLACK, w.p, w.item, c.mark, BlackRoot(Kid(w, !d)), Kid(w, d), x);
    MkInorder(d, Kid(w, d), Kid(w, d), w.p, w.item, w.mark, c.mark, Kid(w, !d), BlackRoot(Kid(w, !d)));
    var w1 := Mk(d, Kid(w, d), w.p, w.item, c.mark, BlackRoot(Kid(w, !d)));
    MkInorder(d, x, x, c.p, c.item, c.mark, BLACK, w, w1);
    SameInorder(c.up, Mk(d, x, c.p, c.item, c.mark, w), OuterNephewUp(c, x));
  }

  lemma OuterNephewRB(c: Ctx, x: Tree, h: nat)
    requires Deleting(c, x, h) && !IsRed(x) && c.In? && c.sib.Node? && !IsRed(c.sib) && IsRed(Kid(c.sib, !c.d))
    ensures IsRB(Plug(c.up, OuterNephewUp(c, x)))
  {
    SiblingRB(c, x, h);
    var low := Mk(c.d, x, c.p, c.item, BLACK, Kid(c.sib, c.d));
    assert RB(low, h + 1);
    assert RB(BlackRoot(Kid(c.sib, !c.d)), h + 1);
    PlugRB(c.up, OuterNephewUp(c, x), if c.mark == RED then h + 1 else h + 2);
  }

  // The loop stops at a red node, which turns black, or at the root.
  lemma RedFound(mem: Memory, c: Ctx, x: Tree, h: nat)
    requires At(mem, c, x) && Deleting(c, x, h) && IsRed(x)
    ensures x.p in mem
    ensures At(SetMark(mem, x.p, BLACK), Top, Plug(c, BlackRoot(x)))
    ensures IsRB(Plug(c, BlackRoot(x))) && Inorder(Plug(c, BlackRoot(x))) == Inorder(Plug(c, x))
  {
    Recolor(mem, c, x, BLACK);
    PlugAt(SetMark(mem, x.p, BLACK), c, BlackRoot(x));
    PlugRB(c, BlackRoot(x), h + 1);
    SameInorder(c, x, BlackRoot(x));
  }

  lemma BelowSiblingStack(c: Ctx)
    requires c.In? && c.sib.Node?
    ensures Pa(BelowSibling(c)) == Pa(c)[..|Pa(c)| - 1] + [c.sib.p, c.p]
    ensures Da(BelowSibling(c)) == Da(c) + [c.d]
  {
  }

  // What the loop reads of the sibling and its children.
  lemma SiblingView(mem: Memory, c: Ctx, x: Tree, h: nat)
    requires At(mem, c, x) && Deleting(c, x, h) && c.In? && !IsRed(c.sib)
    ensures c.sib.Node? && c.sib.p in mem && mem[c.sib.p].l == Root(c.sib.l) && mem[c.sib.p].r == Root(c.sib.r)
    ensures Root(c.sib.l) != NULL ==> Root(c.sib.l) in mem
    ensures Root(c.sib.r) != NULL ==> Root(c.sib.r) in mem
    ensures !IsRed(c.sib.l) <==> Root(c.sib.l) == NULL || mem[Root(c.sib.l)].mark == BLACK
    ensures !IsRed(c.sib.r) <==> Root(c.sib.r) == NULL || mem[Root(c.sib.r)].mark == BLACK
  {
    SiblingRB(c, x, h);
    Peek(mem, c, Root(x));
    RootIn(mem, c.sib);
    RootIn(mem, c.sib.l);
    RootIn(mem, c.sib.r);
  }
}
