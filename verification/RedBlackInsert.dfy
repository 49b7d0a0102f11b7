/** The insertion fix-up of avl-2.0/src/rb.c, one lemma for each way through its loop:
    the writes to memory, the tree they make, and the red-black rules of that tree. */
module RedBlackInsert {
  import opened Store
  import opened RedBlackShape

  /* ---------- insertion fix-up, case by case ---------- */

  lemma RecolourStep(mem: Memory, c: Ctx, t: Tree)
    requires At(mem, c, t) && c.In? && c.up.In? && c.up.sib.Node?
    ensures var g := c.up; var y := g.sib.p;
            && c.p in mem && y in mem && g.p in mem && Link(mem[g.p], !g.d) == y
            && At(SetMark(SetMark(SetMark(mem, c.p, BLACK), y, BLACK), g.p, RED), g.up,
                  Mk(g.d, Mk(c.d, t, c.p, c.item, BLACK, c.sib), g.p, g.item, RED, BlackRoot(g.sib)))
  {
    var g := c.up;
    Up(mem, c, t);
    var q := Mk(c.d, t, c.p, c.item, c.mark, c.sib);
    Recolor(mem, g, q, BLACK);
    var m1 := SetMark(mem, c.p, BLACK);
    var q' := Mk(c.d, t, c.p, c.item, BLACK, c.sib);
    Up(m1, g, q');
    var gt := Mk(g.d, q', g.p, g.item, g.mark, g.sib);
    Down(m1, g.up, !g.d, gt);
    var gc := In(g.up, !g.d, g.p, g.item, g.mark, q');
    Recolor(m1, gc, g.sib, BLACK);
    var m2 := SetMark(m1, g.sib.p, BLACK);
    Up(m2, gc, BlackRoot(g.sib));
    Recolor(m2, g.up, Mk(g.d, q', g.p, g.item, g.mark, BlackRoot(g.sib)), RED);
  }

  lemma RecolourInorder(c: Ctx, t: Tree)
    requires c.In? && c.up.In? && c.up.sib.Node?
    ensures var g := c.up;
            Inorder(Plug(g.up, Mk(g.d, Mk(c.d, t, c.p, c.item, BLACK, c.sib), g.p, g.item, RED, BlackRoot(g.sib)))) ==
            Inorder(Plug(c, t))
  {
    var g := c.up;
    var q, q' := Mk(c.d, t, c.p, c.item, c.mark, c.sib), Mk(c.d, t, c.p, c.item, BLACK, c.sib);
    SameInorder(g.up, Mk(g.d, q, g.p, g.item, g.mark, g.sib), Mk(g.d, q', g.p, g.item, RED, BlackRoot(g.sib)));
  }

  // What the fix-up loop reads when its guard holds.
  lemma InsertView(mem: Memory, c: Ctx, t: Tree, h: nat)
    requires At(mem, c, t) && Inserting(c, t, h)
    ensures var k := |Pa(c)|;
            && Last(c) in mem && Pa(c)[k - 1] == Last(c)
            && (k >= 3 && mem[Last(c)].mark == RED <==> c.In? && c.mark == RED)
    ensures c.In? && c.mark == RED ==>
              var k := |Pa(c)|;
              && k >= 3 && c.up.In? && Pa(c)[k - 2] == c.up.p && Da(c)[k - 2] == c.up.d
              && Pa(c)[..k - 2] == Pa(c.up.up) && Da(c)[..k - 2] == Da(c.up.up)
              && c.up.p in mem && Link(mem[c.up.p], !c.up.d) == Root(c.up.sib)
              && (Root(c.up.sib) != NULL ==> Root(c.up.sib) in mem)
              && (Root(c.up.sib) != NULL && mem[Root(c.up.sib)].mark == RED <==> IsRed(c.up.sib))
  {
    PaTop(c);
    LastIn(mem, c, Root(t));
    if c.In? {
      Peek(mem, c, Root(t));
      if c.mark == RED {
        RedParent(c, t, h);
        Peek(mem, c.up, c.p);
      }
    }
  }

  function Recoloured(c: Ctx, t: Tree): Tree
    requires c.In? && c.up.In?
  {
    Mk(c.up.d, Mk(c.d, t, c.p, c.item, BLACK, c.sib), c.up.p, c.up.item, RED, BlackRoot(c.up.sib))
  }

  lemma RecolourCase(mem: Memory, c: Ctx, t: Tree, h: nat)
    requires At(mem, c, t) && Inserting(c, t, h)
    requires c.In? && c.mark == RED && c.up.In? && IsRed(c.up.sib)
    ensures c.p in mem && c.up.sib.p in mem && c.up.p in mem
    ensures At(SetMark(SetMark(SetMark(mem, c.p, BLACK), c.up.sib.p, BLACK), c.up.p, RED), c.up.up, Recoloured(c, t))
    ensures Inserting(c.up.up, Recoloured(c, t), h + 1)
    ensures Inorder(Plug(c.up.up, Recoloured(c, t))) == Inorder(Plug(c, t))
  {
    RecolourStep(mem, c, t);
    RecolourInorder(c, t);
    RecolourRB(c, t, h);
  }

  lemma OuterStep(mem: Memory, c: Ctx, t: Tree)
    requires At(mem, c, t) && c.In? && c.up.In? && c.d == c.up.d
    ensures var g := c.up;
            var top := Mk(g.d, t, c.p, c.item, BLACK, Mk(g.d, c.sib, g.p, g.item, RED, g.sib));
            && c.p in mem && g.p in mem && Last(g.up) in mem
            && At(Rotated(SetMark(SetMark(mem, g.p, RED), c.p, BLACK), g.up, g.d, g.p, c.p), g.up, top)
            && Inorder(Plug(g.up, top)) == Inorder(Plug(c, t))
  {
    var g := c.up;
    Up(mem, c, t);
    var q := Mk(c.d, t, c.p, c.item, c.mark, c.sib);
    Up(mem, g, q);
    var gt := Mk(g.d, q, g.p, g.item, g.mark, g.sib);
    LastIn(mem, g.up, g.p);
    Recolor(mem, g.up, gt, RED);
    var m1 := SetMark(mem, g.p, RED);
    Down(m1, g.up, g.d, gt.(mark := RED));
    var g1 := In(g.up, g.d, g.p, g.item, RED, g.sib);
    Recolor(m1, g1, q, BLACK);
    var m2 := SetMark(m1, c.p, BLACK);
    Up(m2, g1, q.(mark := BLACK));
    Rotate(m2, g.up, g.d, g.p, g.item, RED, c.p, c.item, BLACK, t, c.sib, g.sib);
    RotateInorder(g.d, g.p, g.item, RED, c.p, c.item, BLACK, t, c.sib, g.sib);
    SameInorder(g.up, gt, Mk(g.d, t, c.p, c.item, BLACK, Mk(g.d, c.sib, g.p, g.item, RED, g.sib)));
  }

  lemma InnerStep(mem: Memory, c: Ctx, t: Tree)
    requires At(mem, c, t) && t.Node? && c.In? && c.up.In? && c.d != c.up.d
    ensures var g := c.up;
            var q := Mk(g.d, c.sib, c.p, c.item, c.mark, Kid(t, g.d));
            var c' := In(g, g.d, t.p, t.item, t.mark, Kid(t, !g.d));
            && c.p in mem && t.p in mem && g.p in mem && Link(mem[c.p], !g.d) == t.p
            && At(Rotated(mem, g, !g.d, c.p, t.p), c', q)
            && Inorder(Plug(c', q)) == Inorder(Plug(c, t))
  {
    var g := c.up;
    Up(mem, c, t);
    Rotate(mem, g, !g.d, c.p, c.item, c.mark, t.p, t.item, t.mark, Kid(t, !g.d), Kid(t, g.d), c.sib);
    RotateInorder(!g.d, c.p, c.item, c.mark, t.p, t.item, t.mark, Kid(t, !g.d), Kid(t, g.d), c.sib);
    var q := Mk(g.d, c.sib, c.p, c.item, c.mark, Kid(t, g.d));
    var top := Mk(!g.d, Kid(t, !g.d), t.p, t.item, t.mark, q);
    Down(Rotated(mem, g, !g.d, c.p, t.p), g, g.d, top);
    SameInorder(g, Mk(c.d, t, c.p, c.item, c.mark, c.sib), top);
  }

  // Black uncle, outer side: the last rotation leaves a red-black tree.
  lemma OuterCase(mem: Memory, c: Ctx, t: Tree, h: nat) returns (done: Tree)
    requires At(mem, c, t) && Inserting(c, t, h)
    requires c.In? && c.mark == RED && c.up.In? && !IsRed(c.up.sib) && c.d == c.up.d
    ensures c.p in mem && c.up.p in mem && Last(c.up.up) in mem
    ensures At(Rotated(SetMark(SetMark(mem, c.up.p, RED), c.p, BLACK), c.up.up, c.up.d, c.up.p, c.p), Top, done)
    ensures IsRB(done) && done.Node? && done.mark == BLACK && Inorder(done) == Inorder(Plug(c, t))
  {
    OuterStep(mem, c, t);
    OuterRB(c, t, h);
    var top := Mk(c.up.d, t, c.p, c.item, BLACK, Mk(c.up.d, c.sib, c.up.p, c.up.item, RED, c.up.sib));
    PlugAt(Rotated(SetMark(SetMark(mem, c.up.p, RED), c.p, BLACK), c.up.up, c.up.d, c.up.p, c.p), c.up.up, top);
    PlugRB(c.up.up, top, h + 1);
    PlugNode(c.up.up, top);
    done := Plug(c.up.up, top);
  }

  // The loop ended without a rotation: the parent is black, or there is none.
  lemma RootBlackened(mem: Memory, c: Ctx, t: Tree, h: nat)
    requires At(mem, c, t) && Inserting(c, t, h) && !(c.In? && c.mark == RED)
    ensures HEAD in mem && mem[HEAD].l in mem
    ensures var t' := BlackRoot(Plug(c, t));
            At(SetMark(mem, mem[HEAD].l, BLACK), Top, t') && IsRB(t') && Inorder(t') == Inorder(Plug(c, t))
  {
    PlugAt(mem, c, t);
    InsertDone(c, t, h);
    PlugNode(c, t);
    Recolor(mem, Top, Plug(c, t), BLACK);
  }
}
