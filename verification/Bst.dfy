/** avl-2.0/src/bst.c: balancing a binary search tree in place. */
module Bst {
  import opened Powers
  import opened Store
  import opened Ordered
  import opened Vine

  const BST_MAX_HEIGHT := 32

  class BstTable {
    var node: Memory
    var count: nat
    var generation: nat
    ghost var tree: Tree

    ghost predicate Valid()
      reads this
    {
      && At(node, Top, tree) && node.Keys == {HEAD} + Addrs(tree)
      && Sorted(Inorder(tree)) && count == |Inorder(tree)|
    }

    // Turns the tree into a vine by rotating every right child up.
    method TreeToVine()
      requires At(node, Top, tree)
      modifies this`node, this`tree
      ensures At(node, Top, tree) && IsVine(tree) && node.Keys == old(node.Keys)
      ensures Inorder(tree) == old(Inorder(tree))
    {
      ghost var c, t := Top, tree;
      var q := HEAD;
      var p := node[HEAD].l;
      while p != NULL
        invariant At(node, c, t) && p == Root(t) && q == Last(c) && VineCtx(c) && node.Keys == old(node.Keys)
        invariant Inorder(Plug(c, t)) == old(Inorder(tree))
        decreases Size(t), if t.Node? then Size(t.r) else 0
      {
        RootIn(node, t);
        if node[p].r == NULL {
          RootIn(node, t.r);
          Down(node, c, false, t);
          c, t := In(c, false, p, t.item, t.mark, t.r), t.l;
          q := p;
          p := node[p].l;
        } else {
          RootIn(node, t.r);
          RotateUp(node, c, t);
          var r := node[p].r;
          node := SetLink(node, p, true, node[r].l);
          node := SetLink(node, r, false, p);
          p := r;
          node := SetLink(node, q, false, r);
          t := RotatedUp(t);
        }
      }
      RootIn(node, t);
      PlugAt(node, c, t);
      PlugVine(c, t);
      tree := Plug(c, t);
    }

    // `count` rotations down the left spine, from the root on.
    method Compress(count: nat)
      requires At(node, Top, tree) && SpineHas(tree, 2 * count)
      modifies this`node, this`tree
      ensures At(node, Top, tree) && node.Keys == old(node.Keys)
      ensures tree == Compressed(old(tree), count) && Inorder(tree) == old(Inorder(tree))
    {
      ghost var c, t := Top, tree;
      var root, n := HEAD, count;
      while n > 0
        invariant At(node, c, t) && SpineHas(t, 2 * n) && root == Last(c) && !Side(c) && node.Keys == old(node.Keys)
        invariant Plug(c, Compressed(t, n)) == Compressed(old(tree), count)
      {
        n := n - 1;
        SpineTop(t, n);
        LastIn(node, c, Root(t));
        RootIn(node, t);
        RootIn(node, t.l);
        Fold(node, c, t);
        var red := node[root].l;
        var black := node[red].l;
        node := SetLink(node, root, false, black);
        node := SetLink(node, red, false, node[black].r);
        node := SetLink(node, black, true, red);
        root := black;
        c, t := In(c, false, t.l.p, t.l.item, t.l.mark, Node(t.l.r, t.p, t.item, t.mark, t.r)), t.l.l;
      }
      PlugAt(node, c, t);
      tree := Plug(c, t);
      CompressedInorder(old(tree), count);
    }

    // Builds the balanced tree; `fits` is false where the C function exits because it is too high.
    method VineToTree() returns (height: nat, fits: bool)
      requires At(node, Top, tree) && IsVine(tree) && count == |Inorder(tree)|
      modifies this`node, this`tree
      ensures At(node, Top, tree) && node.Keys == old(node.Keys) && Inorder(tree) == old(Inorder(tree))
      ensures count > 0 ==> height == Height(tree) && Pow2(height - 1) <= count < Pow2(height)
      ensures fits <==> count < 0x1_0000_0000
    {
      SizeInorder(tree);
      ghost var k := Log2(count + 1);
      var leaves := BottomLevel(k);
      var vine := count - leaves;
      height := 1 + (if leaves > 0 then 1 else 0);
      height := UpperRounds(vine, height, k);
      SizeInorder(tree);
      if count > 0 {
        FinalHeight(tree, count, k, leaves, height);
        Limit(count, height);
      }
      fits := height <= BST_MAX_HEIGHT;
    }

    // Folds as many nodes of the vine into a bottom level as there are above a full tree.
    method BottomLevel(ghost k: nat) returns (leaves: nat)
      requires At(node, Top, tree) && IsVine(tree) && count == Size(tree) && Pow2(k) <= count + 1 < Pow2(k + 1)
      modifies this`node, this`tree
      ensures At(node, Top, tree) && node.Keys == old(node.Keys) && Inorder(tree) == old(Inorder(tree))
      ensures leaves == count + 1 - Pow2(k) && Spine(tree, count - leaves, if leaves > 0 then 1 else 0)
    {
      leaves := HighestPower(count + 1, k);
      leaves := count + 1 - leaves;
      VineSpine(tree);
      SpineLong(tree, count, 0, 2 * leaves);
      CompressVine(tree, leaves);
      Compress(leaves);
    }

    // Every round halves the spine and adds a level.
    method UpperRounds(vine0: nat, height0: nat, ghost k: nat) returns (height: nat)
      requires At(node, Top, tree) && vine0 == Pow2(k) - 1 && height0 > 0 && Spine(tree, vine0, height0 - 1)
      modifies this`node, this`tree
      ensures At(node, Top, tree) && node.Keys == old(node.Keys) && Inorder(tree) == old(Inorder(tree))
      ensures if k > 0 then height == height0 + k - 1 && Spine(tree, 1, height - 1) else height == height0
    {
      var vine := vine0;
      height := height0;
      ghost var j: nat := k;
      while vine > 1
        invariant At(node, Top, tree) && node.Keys == old(node.Keys) && Inorder(tree) == old(Inorder(tree))
        invariant j <= k && vine == Pow2(j) - 1 && (k > 0 ==> j > 0)
        invariant height + j == height0 + k && height > 0 && Spine(tree, vine, height - 1)
        decreases vine
      {
        assert vine == 2 * (Pow2(j - 1) - 1) + 1;
        SpineLong(tree, vine, height - 1, 2 * (vine / 2));
        CompressSpine(tree, vine / 2, height - 1);
        Compress(vine / 2);
        vine := vine / 2;
        height := height + 1;
        j := j - 1;
      }
      assert k > 0 ==> j == 1;
    }

    // The nodes and their order stay, and the height is the least possible for their number.
    method Balance() returns (height: nat, fits: bool)
      requires Valid()
      modifies this
      ensures Valid() && Inorder(tree) == old(Inorder(tree)) && node.Keys == old(node.Keys) && count == old(count)
      ensures count > 0 ==> height == Height(tree) && Pow2(height - 1) <= count < Pow2(height)
      ensures fits <==> count < 0x1_0000_0000
      ensures generation == (old(generation) + 1) % ULONG
    {
      AddrsInorder(tree);
      TreeToVine();
      height, fits := VineToTree();
      AddrsInorder(tree);
      generation := (generation + 1) % ULONG;
    }
  }

  // The right child becomes the parent.
  function RotatedUp(t: Tree): Tree
    requires t.Node? && t.r.Node?
  {
    Node(Node(t.l, t.p, t.item, t.mark, t.r.l), t.r.p, t.r.item, t.r.mark, t.r.r)
  }

  lemma RotateUp(mem: Memory, c: Ctx, t: Tree)
    requires At(mem, c, t) && t.Node? && t.r.Node?
    ensures t.p in mem && t.r.p in mem && Last(c) in mem && mem[t.p].r == t.r.p
    ensures At(Rotated(mem, c, true, t.p, t.r.p), c, RotatedUp(t))
    ensures Inorder(Plug(c, RotatedUp(t))) == Inorder(Plug(c, t))
    ensures Size(RotatedUp(t)) == Size(t) && Size(RotatedUp(t).r) < Size(t.r)
  {
    assert Size(Node(t.l, t.p, t.item, t.mark, t.r.l)) == Size(t.l) + 1 + Size(t.r.l);
    Rotate(mem, c, true, t.p, t.item, t.mark, t.r.p, t.r.item, t.r.mark, t.r.r, t.r.l, t.l);
    RotateInorder(true, t.p, t.item, t.mark, t.r.p, t.r.item, t.r.mark, t.r.r, t.r.l, t.l);
    SameInorder(c, t, RotatedUp(t));
  }

  lemma SpineTop(t: Tree, n: nat)
    requires SpineHas(t, 2 * (n + 1))
    ensures t.Node? && t.l.Node? && SpineHas(t.l.l, 2 * n)
  {
    assert SpineHas(t.l, 2 * n + 1);
  }

  // The left child becomes the parent, and the focus moves on to its left child.
  lemma Fold(mem: Memory, c: Ctx, t: Tree)
    requires At(mem, c, t) && t.Node? && t.l.Node? && !Side(c)
    ensures t.p in mem && t.l.p in mem && Last(c) in mem
    ensures var red, black := t.p, t.l.p;
            var m1 := SetLink(mem, Last(c), false, black);
            var m2 := SetLink(m1, red, false, m1[black].r);
            At(SetLink(m2, black, true, red),
               In(c, false, black, t.l.item, t.l.mark, Node(t.l.r, red, t.item, t.mark, t.r)), t.l.l)
  {
    var red, black := t.p, t.l.p;
    Rotate(mem, c, false, red, t.item, t.mark, black, t.l.item, t.l.mark, t.l.l, t.l.r, t.r);
    var top := Node(t.l.l, black, t.l.item, t.l.mark, Node(t.l.r, red, t.item, t.mark, t.r));
    Down(Rotated(mem, c, false, red, black), c, false, top);
    assert black in Addrs(t.l) && Last(c) in CtxAddrs(c);
    FoldWrites(mem, c, red, black);
  }

  lemma FoldWrites(mem: Memory, c: Ctx, red: Ptr, black: Ptr)
    requires red in mem && black in mem && Last(c) in mem && !Side(c)
    requires red != black && red != Last(c) && black != Last(c)
    ensures var m1 := SetLink(mem, Last(c), false, black);
            var m2 := SetLink(m1, red, false, m1[black].r);
            SetLink(m2, black, true, red) == Rotated(mem, c, false, red, black)
  {
  }

  // The height vine_to_tree counts is the height of the tree, and the least possible one.
  lemma FinalHeight(t: Tree, n: nat, k: nat, leaves: nat, height: nat)
    requires n > 0 && Size(t) == n && k > 0 && Pow2(k) <= n + 1 < Pow2(k + 1) && leaves == n + 1 - Pow2(k)
    requires height == k + (if leaves > 0 then 1 else 0) && Spine(t, 1, height - 1)
    ensures Height(t) == height && Pow2(height - 1) <= n < Pow2(height)
  {
    assert Spine(t.l, 0, height - 1);
    SizeBelowPow2(t);
    if Height(t) < height {
      Pow2Monotonic(Height(t), height - 1);
    }
  }

  // The height is too great exactly from 2^32 nodes on.
  lemma Limit(n: nat, height: nat)
    requires height > 0 && Pow2(height - 1) <= n < Pow2(height)
    ensures height <= BST_MAX_HEIGHT <==> n < 0x1_0000_0000
  {
    Pow2At32();
    if height <= BST_MAX_HEIGHT {
      Pow2Monotonic(height, BST_MAX_HEIGHT);
    } else {
      Pow2Monotonic(BST_MAX_HEIGHT, height - 1);
    }
  }

  lemma Pow2At32()
    ensures Pow2(BST_MAX_HEIGHT) == 0x1_0000_0000
  {
    assert Pow2(8) == 256;
    Pow2Add(8, 8);
    Pow2Add(16, 16);
  }

  // The loop that clears low bits until one is left.
  method HighestPower(x: nat, ghost k: nat) returns (p: nat)
    requires Pow2(k) <= x < Pow2(k + 1)
    ensures p == Pow2(k)
  {
    p := x;
    while true
      invariant Pow2(k) <= p < Pow2(k + 1)
      decreases p
    {
      var next := And(p, p - 1);
      ClearLowBit(p, k);
      if next == 0 {
        break;
      }
      p := next;
    }
  }
}
