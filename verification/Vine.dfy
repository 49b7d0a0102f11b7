/** The Day-Stout-Warren algorithm as libavl uses it: what its rotations make of a tree, how high
    the result is, and the bit trick that counts the nodes of the bottom level. */
module Vine {
  import opened Powers
  import opened Store

  // Every node hangs on the left of another: a list in descending order.
  ghost predicate IsVine(t: Tree) { t.Node? ==> t.r.Leaf? && IsVine(t.l) }

  ghost predicate VineCtx(c: Ctx) decreases c { c.In? ==> !c.d && c.sib.Leaf? && VineCtx(c.up) }

  lemma {:induction false} PlugVine(c: Ctx, t: Tree)
    requires VineCtx(c) && IsVine(t)
    ensures IsVine(Plug(c, t))
    decreases c
  {
    if c.In? {
      PlugVine(c.up, Mk(c.d, t, c.p, c.item, c.mark, c.sib));
    }
  }

  // The left spine of t has at least n nodes.
  predicate SpineHas(t: Tree, n: nat) { n == 0 || (t.Node? && SpineHas(t.l, n - 1)) }

  // A right rotation at every second node of the left spine, k times from the top.
  function Compressed(t: Tree, k: nat): Tree
    requires SpineHas(t, 2 * k)
    decreases k
  {
    if k == 0 then t
    else
      var black := t.l;
      assert SpineHas(black, 2 * k - 1);
      Node(Compressed(black.l, k - 1), black.p, black.item, black.mark, Node(black.r, t.p, t.item, t.mark, t.r))
  }

  lemma {:induction false} CompressedInorder(t: Tree, k: nat)
    requires SpineHas(t, 2 * k)
    ensures Inorder(Compressed(t, k)) == Inorder(t)
    decreases k
  {
    if k > 0 {
      var black := t.l;
      CompressedInorder(black.l, k - 1);
      Regroup(Inorder(black.l), [Entry(black.p, black.item)], Inorder(black.r), [Entry(t.p, t.item)] + Inorder(t.r));
      var low := Node(black.r, t.p, t.item, t.mark, t.r);
      assert Inorder(low) == Inorder(black.r) + [Entry(t.p, t.item)] + Inorder(t.r);
    }
  }

  // A spine of v nodes whose right subtrees, and whose rest below, are at most j high.
  ghost predicate Spine(t: Tree, v: nat, j: nat) decreases v {
    if v == 0 then Height(t) <= j else t.Node? && Height(t.r) <= j && Spine(t.l, v - 1, j)
  }

  lemma {:induction false} SpineLong(t: Tree, v: nat, j: nat, n: nat)
    requires Spine(t, v, j) && n <= v
    ensures SpineHas(t, n)
    decreases v
  {
    if n > 0 {
      SpineLong(t.l, v - 1, j, n - 1);
    }
  }

  // One round of compression halves an odd spine and adds one level.
  lemma {:induction false} CompressSpine(t: Tree, w: nat, j: nat)
    requires Spine(t, 2 * w + 1, j) && SpineHas(t, 2 * w)
    ensures Spine(Compressed(t, w), w, j + 1)
    decreases w
  {
    if w > 0 {
      CompressSpine(t.l.l, w - 1, j);
    }
  }

  lemma {:induction false} VineSpine(t: Tree)
    requires IsVine(t)
    ensures Spine(t, Size(t), 0)
  {
    if t.Node? {
      VineSpine(t.l);
    }
  }

  // The first round folds k nodes into the bottom level.
  lemma {:induction false} CompressVine(t: Tree, k: nat)
    requires IsVine(t) && 2 * k <= Size(t) && SpineHas(t, 2 * k)
    ensures Spine(Compressed(t, k), Size(t) - k, if k > 0 then 1 else 0)
    decreases k
  {
    if k == 0 {
      VineSpine(t);
    } else {
      CompressVine(t.l.l, k - 1);
      SpineWider(Compressed(t.l.l, k - 1), Size(t) - k - 1, if k > 1 then 1 else 0, 1);
    }
  }

  lemma {:induction false} SpineWider(t: Tree, v: nat, j: nat, j': nat)
    requires Spine(t, v, j) && j <= j'
    ensures Spine(t, v, j')
    decreases v
  {
    if v > 0 {
      SpineWider(t.l, v - 1, j, j');
    }
  }

  // No tree of height h has 2^h nodes or more.
  lemma {:induction false} SizeBelowPow2(t: Tree)
    ensures Size(t) < Pow2(Height(t))
  {
    if t.Node? {
      SizeBelowPow2(t.l);
      SizeBelowPow2(t.r);
      Pow2Monotonic(Height(t.l), Height(t) - 1);
      Pow2Monotonic(Height(t.r), Height(t) - 1);
    }
  }
}
