/** The red-black rules, and what each step of the two fix-up loops of rb.c does to them. */
module RedBlackShape {
  import opened Powers
  import opened Store

  const BLACK := 0
  const RED := 1

  predicate IsRed(t: Tree) { t.Node? && t.mark == RED }

  // No red node has a red child, and every path to a leaf passes h black nodes.
  ghost predicate RB(t: Tree, h: nat) {
    match t
    case Leaf => h == 0
    case Node(l, _, _, m, r) =>
      if m == RED then !IsRed(l) && !IsRed(r) && RB(l, h) && RB(r, h)
      else m == BLACK && h > 0 && RB(l, h - 1) && RB(r, h - 1)
  }

  // The whole tree obeys the rules and its root is black.
  ghost predicate IsRB(t: Tree) { !IsRed(t) && exists h :: RB(t, h) }

  // Filling the hole with a tree of black height h and the given root colour obeys the rules.
  ghost predicate CtxRB(c: Ctx, h: nat, red: bool) decreases c {
    match c
    case Top => !red
    case In(up, _, _, _, m, sib) =>
      if m == RED then !red && !IsRed(sib) && RB(sib, h) && CtxRB(up, h, true)
      else m == BLACK && RB(sib, h) && CtxRB(up, h + 1, false)
  }

  lemma {:induction false} PlugRB(c: Ctx, t: Tree, h: nat)
    requires RB(t, h) && CtxRB(c, h, IsRed(t))
    ensures IsRB(Plug(c, t))
    decreases c
  {
    if c.In? {
      PlugRB(c.up, Mk(c.d, t, c.p, c.item, c.mark, c.sib), if c.mark == RED then h else h + 1);
    }
  }

  // The rules do not look at items.
  lemma {:induction false} PlugItemRB(c: Ctx, t: Tree, t': Tree, h: nat)
    requires forall k: nat :: RB(t, k) ==> RB(t', k)
    requires IsRed(t) == IsRed(t') && RB(Plug(c, t), h)
    ensures RB(Plug(c, t'), h) && IsRed(Plug(c, t')) == IsRed(Plug(c, t))
    decreases c
  {
    if c.In? {
      var u, u' := Mk(c.d, t, c.p, c.item, c.mark, c.sib), Mk(c.d, t', c.p, c.item, c.mark, c.sib);
      forall k: nat | RB(u, k) ensures RB(u', k) {
      }
      PlugItemRB(c.up, u, u', h);
    }
  }

  lemma DownRB(c: Ctx, t: Tree, h: nat, d: bool) returns (h': nat)
    requires t.Node? && RB(t, h) && CtxRB(c, h, IsRed(t))
    ensures RB(Kid(t, d), h') && CtxRB(In(c, d, t.p, t.item, t.mark, Kid(t, !d)), h', IsRed(Kid(t, d)))
  {
    h' := if t.mark == RED then h else h - 1;
  }

  /* ---------- height against number of items ---------- */

  lemma {:induction false} RBSize(t: Tree, h: nat)
    requires RB(t, h)
    ensures Size(t) + 1 >= Pow2(h)
    ensures Height(t) <= 2 * h + (if IsRed(t) then 1 else 0)
  {
    if t.Node? {
      var h' := if t.mark == RED then h else h - 1;
      RBSize(t.l, h');
      RBSize(t.r, h');
    }
  }

  lemma Pow2At24()
    ensures Pow2(24) == 0x100_0000
  {
    assert Pow2(8) == 256;
    Pow2Add(8, 8);
    Pow2Add(16, 8);
  }

  // A red-black tree of height h and n items has h <= 2 * log2(n + 1).
  lemma HeightLaw(t: Tree)
    requires IsRB(t)
    ensures Pow2(Height(t)) <= (|Inorder(t)| + 1) * (|Inorder(t)| + 1)
  {
    var h: nat :| RB(t, h);
    RBSize(t, h);
    SizeInorder(t);
    Pow2Monotonic(Height(t), h + h);
    Pow2Add(h, h);
    Squares(Pow2(h), |Inorder(t)| + 1);
  }

  lemma Squares(a: nat, b: nat)
    requires a <= b
    ensures a * a <= b * b
  {
  }

  // The number of items up to which the 48 entries of pa and da are enough.
  const MAX_ITEMS := 0xFF_FFFE

  lemma HeightBound(t: Tree)
    requires IsRB(t) && |Inorder(t)| <= MAX_ITEMS
    ensures Height(t) <= 46
  {
    var h :| RB(t, h);
    RBSize(t, h);
    SizeInorder(t);
    Pow2At24();
    if h >= 24 {
      Pow2Monotonic(24, h);
    }
  }

  /* ---------- insertion: at most one red node under a red parent ---------- */

  ghost predicate Inserting(c: Ctx, t: Tree, h: nat) { IsRed(t) && RB(t, h) && CtxRB(c, h, false) }

  // A red parent is never the root, so there is a black grandparent.
  lemma RedParent(c: Ctx, t: Tree, h: nat)
    requires Inserting(c, t, h) && c.In? && c.mark == RED
    ensures c.up.In? && c.up.mark == BLACK && RB(c.sib, h) && !IsRed(c.sib)
    ensures RB(c.up.sib, h) && CtxRB(c.up.up, h + 1, false)
  {
    assert CtxRB(c.up, h, true);
  }

  // With no red parent left only the root may still be red.
  lemma InsertDone(c: Ctx, t: Tree, h: nat)
    requires Inserting(c, t, h) && (c.In? ==> c.mark != RED)
    ensures IsRB(BlackRoot(Plug(c, t)))
  {
    if c.Top? {
      assert RB(t.(mark := BLACK), h + 1);
    } else {
      PlugRB(c, t, h);
    }
  }

  function BlackRoot(t: Tree): Tree { if t.Leaf? then t else t.(mark := BLACK) }

  // Red uncle u: recolouring moves the violation up by two levels.
  lemma RecolourRB(c: Ctx, t: Tree, h: nat)
    requires Inserting(c, t, h) && c.In? && c.mark == RED && c.up.In? && IsRed(c.up.sib)
    ensures var g := c.up; var q := Mk(c.d, t, c.p, c.item, BLACK, c.sib);
            Inserting(g.up, Mk(g.d, q, g.p, g.item, RED, BlackRoot(g.sib)), h + 1)
  {
    RedParent(c, t, h);
  }

  // Black uncle, t on the outer side: one rotation at the grandparent ends the fix-up.
  lemma OuterRB(c: Ctx, t: Tree, h: nat)
    requires Inserting(c, t, h) && c.In? && c.mark == RED && c.up.In? && !IsRed(c.up.sib) && c.d == c.up.d
    ensures var g := c.up;
            var top := Mk(g.d, t, c.p, c.item, BLACK, Mk(g.d, c.sib, g.p, g.item, RED, g.sib));
            RB(top, h + 1) && CtxRB(g.up, h + 1, false)
  {
    RedParent(c, t, h);
    assert RB(Mk(c.up.d, c.sib, c.up.p, c.up.item, RED, c.up.sib), h);
  }

  // Black uncle, t on the inner side: rotating the parent first makes it the outer case.
  lemma InnerRB(c: Ctx, t: Tree, h: nat)
    requires Inserting(c, t, h) && c.In? && c.mark == RED && c.up.In? && !IsRed(c.up.sib) && c.d != c.up.d
    ensures var g := c.up;
            var q := Mk(g.d, c.sib, c.p, c.item, RED, Kid(t, g.d));
            Inserting(In(g, g.d, t.p, t.item, RED, Kid(t, !g.d)), q, h)
  {
    RedParent(c, t, h);
  }
}
