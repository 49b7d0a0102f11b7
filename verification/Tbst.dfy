/** avl-2.0/src/tbst.c: balancing a threaded binary search tree in place. */
module Tbst {
  import opened Powers
  import opened Store
  import opened Ordered
  import opened Threads
  import opened Vine
  import Splice
  import Bst

  class TbstTable {
    var node: Threaded
    var count: nat
    ghost var tree: Tree

    ghost predicate Valid()
      reads this
    {
      && TAt(node, Top, tree) && node.Keys == {HEAD} + Addrs(tree)
      && Sorted(Inorder(tree)) && count == |Inorder(tree)|
    }

    // Hangs the nodes, one after the other in order, onto a vine.
    method TreeToVine()
      requires TAt(node, Top, tree)
      modifies this`node, this`tree
      ensures TAt(node, Top, tree) && IsVine(tree) && node.Keys == old(node.Keys)
      ensures Inorder(tree) == old(Inorder(tree))
    {
      TView(node, Top, tree);
      if node[HEAD].l == NULL {
        return;
      }
      ghost var c, t;
      var p;
      p, c, t := Leftmost(node[HEAD].l, NULL, Top, tree);
      while true
        invariant Unrolled(node, c, t) && p == t.p && node.Keys == old(node.Keys)
        invariant Inorder(t) + After(c) == old(Inorder(tree))
        decreases |After(c)| + Size(t.r)
      {
        SizeInorder(t.r);
        SpanRoot(node, t.r, false, t.p, Nb(c, true));
        var q := node[p].r;
        if !node[p].rt {
          ghost var mem, c', s := node, c, t.r;
          q, c', s := Leftmost(q, p, c, t.r);
          node := SetTag(node, p, true, true);
          node := SetTo(node, p, true, q);
          ToSuccessor(mem, c, t, c', s);
          SuccessorOrder(c, t, c', s);
          c, t := c', Node(Node(t.l, p, t.item, t.mark, Leaf), q, s.item, s.mark, s.r);
        } else if q != NULL {
          ToAncestor(node, c, t);
          Splice.Assoc(Inorder(t), [Entry(c.p, c.item)] + Inorder(c.sib), After(c.up));
          Splice.Assoc(Inorder(t), [Entry(c.p, c.item)], Inorder(c.sib));
          SizeInorder(c.sib);
          c, t := c.up, Node(t, c.p, c.item, c.mark, c.sib);
        }
        if q == NULL {
          break;
        }
        node := SetTag(node, q, false, false);
        node := SetTo(node, q, false, p);
        p := q;
      }
      VineDone(node, t);
      node := SetTo(node, HEAD, false, p);
      tree := t;
    }

    // Goes left from the root p0 of t0 as far as there are children.
    method Leftmost(p0: Ptr, ghost a: Ptr, ghost c0: Ctx, ghost t0: Tree) returns (p: Ptr, ghost c: Ctx, ghost t: Tree)
      requires t0.Node? && p0 == t0.p && TCells(node, t0, a, Nb(c0, true)) && Pending(node, c0) && Apart(c0, t0)
      ensures t.Node? && t.l.Leaf? && p == t.p && TCells(node, t, a, Nb(c, true)) && Pending(node, c) && Apart(c, t)
      ensures Inorder(t) + After(c) == Inorder(t0) + After(c0) && CtxAddrs(c) + Addrs(t) == CtxAddrs(c0) + Addrs(t0)
    {
      p, c, t := p0, c0, t0;
      while !node[p].lt
        invariant t.Node? && p == t.p && TCells(node, t, a, Nb(c, true)) && Pending(node, c) && Apart(c, t)
        invariant Inorder(t) + After(c) == Inorder(t0) + After(c0) && CtxAddrs(c) + Addrs(t) == CtxAddrs(c0) + Addrs(t0)
        decreases t
      {
        SpanRoot(node, t.l, false, a, t.p);
        LeftStep(c, t);
        p := node[p].l;
        c, t := In(c, false, t.p, t.item, t.mark, t.r), t.l;
      }
      SpanRoot(node, t.l, false, a, t.p);
    }

    // Rotations down the left spine: first at nodes whose left child has a right child, then at
    // nodes whose left child has a thread there.
    method Compress(nonthread: nat, thread: nat)
      requires TAt(node, Top, tree) && SpineHas(tree, 2 * (nonthread + thread)) && Blacks(tree, nonthread, thread)
      modifies this`node, this`tree
      ensures TAt(node, Top, tree) && node.Keys == old(node.Keys)
      ensures SpineHas(old(tree), 2 * (nonthread + thread)) && tree == Compressed(old(tree), nonthread + thread)
    {
      ghost var c, t;
      var root;
      root, c, t := FoldChildren(nonthread, thread);
      c, t := FoldThreads(root, thread, c, t);
      TPlugAt(node, c, t);
      tree := Plug(c, t);
    }

    method FoldChildren(nonthread: nat, ghost thread: nat) returns (root: Ptr, ghost c: Ctx, ghost t: Tree)
      requires TAt(node, Top, tree) && SpineHas(tree, 2 * (nonthread + thread)) && Blacks(tree, nonthread, thread)
      modifies this`node
      ensures TAt(node, c, t) && root == Last(c) && !Side(c) && node.Keys == old(node.Keys)
      ensures SpineHas(t, 2 * thread) && Blacks(t, 0, thread)
      ensures Plug(c, Compressed(t, thread)) == Compressed(tree, nonthread + thread)
    {
      c, t, root := Top, tree, HEAD;
      var n: nat := nonthread;
      while n > 0
        invariant TAt(node, c, t) && root == Last(c) && !Side(c) && node.Keys == old(node.Keys)
        invariant SpineHas(t, 2 * (n + thread)) && Blacks(t, n, thread)
        invariant Plug(c, Compressed(t, n + thread)) == Compressed(tree, nonthread + thread)
      {
        n := n - 1;
        FoldStep(c, t, n + 1, thread, n + thread);
        root := FoldChild(root, c, t);
        c, t := Folded(c, t), t.l.l;
      }
    }

    method FoldThreads(root0: Ptr, thread: nat, ghost c0: Ctx, ghost t0: Tree) returns (ghost c: Ctx, ghost t: Tree)
      requires TAt(node, c0, t0) && root0 == Last(c0) && !Side(c0)
      requires SpineHas(t0, 2 * thread) && Blacks(t0, 0, thread)
      modifies this`node
      ensures TAt(node, c, t) && Plug(c, t) == Plug(c0, Compressed(t0, thread)) && node.Keys == old(node.Keys)
    {
      c, t := c0, t0;
      var root, n: nat := root0, thread;
      while n > 0
        invariant TAt(node, c, t) && root == Last(c) && !Side(c) && node.Keys == old(node.Keys)
        invariant SpineHas(t, 2 * n) && Blacks(t, 0, n) && Plug(c, Compressed(t, n)) == Plug(c0, Compressed(t0, thread))
      {
        n := n - 1;
        FoldStep(c, t, 0, n + 1, n);
        root := FoldThread(root, c, t);
        c, t := Folded(c, t), t.l.l;
      }
    }

    method FoldChild(root0: Ptr, ghost c: Ctx, ghost t: Tree) returns (root: Ptr)
      requires TAt(node, c, t) && root0 == Last(c) && !Side(c) && t.Node? && t.l.Node? && t.l.r.Node?
      modifies this`node
      ensures TAt(node, Folded(c, t), t.l.l) && root == t.l.p && node.Keys == old(node.Keys)
    {
      TFold(node, c, t);
      root := root0;
      var red := node[root].l;
      var black := node[red].l;
      node := SetTo(node, root, false, black);
      node := SetTo(node, red, false, node[black].r);
      node := SetTo(node, black, true, red);
      root := black;
    }

    method FoldThread(root0: Ptr, ghost c: Ctx, ghost t: Tree) returns (root: Ptr)
      requires TAt(node, c, t) && root0 == Last(c) && !Side(c) && t.Node? && t.l.Node? && t.l.r.Leaf?
      modifies this`node
      ensures TAt(node, Folded(c, t), t.l.l) && root == t.l.p && node.Keys == old(node.Keys)
    {
      TFold(node, c, t);
      root := root0;
      var red := node[root].l;
      var black := node[red].l;
      node := SetTo(node, root, false, black);
      node := SetTo(node, red, false, black);
      node := SetTag(node, red, false, true);
      node := SetTag(node, black, true, false);
      root := black;
    }

    // Folds as many nodes of the vine into a bottom level as there are above a full tree.
    method BottomLevel(ghost k: nat) returns (leaves: nat)
      requires TAt(node, Top, tree) && IsVine(tree) && count == Size(tree) && Pow2(k) <= count + 1 < Pow2(k + 1)
      modifies this`node, this`tree
      ensures TAt(node, Top, tree) && node.Keys == old(node.Keys) && Inorder(tree) == old(Inorder(tree))
      ensures leaves == count + 1 - Pow2(k)
      ensures Kids(tree, leaves, count - leaves) && Spine(tree, count - leaves, if leaves > 0 then 1 else 0)
    {
      leaves := Bst.HighestPower(count + 1, k);
      leaves := count + 1 - leaves;
      VineSpine(tree);
      SpineLong(tree, count, 0, 2 * leaves);
      CompressVine(tree, leaves);
      CompressedInorder(tree, leaves);
      VineKids(tree, count);
      KidsBlacks(tree, 0, count, leaves);
      VineCompressedKids(tree, leaves);
      Compress(0, leaves);
    }

    method VineToTree() returns (height: nat)
      requires TAt(node, Top, tree) && IsVine(tree) && count == |Inorder(tree)|
      modifies this`node, this`tree
      ensures TAt(node, Top, tree) && node.Keys == old(node.Keys) && Inorder(tree) == old(Inorder(tree))
      ensures count > 0 ==> height == Height(tree) && Pow2(height - 1) <= count < Pow2(height)
    {
      SizeInorder(tree);
      ghost var k := Log2(count + 1);
      var leaves := BottomLevel(k);
      ghost var bottom := leaves;
      var vine := count - leaves;
      height := 1 + (if leaves > 0 then 1 else 0);
      if vine > 1 {
        leaves := SecondRound(vine, leaves, height, k);
        vine := vine / 2;
        height := height + 1;
      }
      height := UpperRounds(vine, height, if k > 1 then k - 1 else k);
      SizeInorder(tree);
      if count > 0 {
        Bst.FinalHeight(tree, count, k, bottom, height);
      }
    }

    // The rounds in which every node that moves up has a right child.
    method UpperRounds(vine0: nat, height0: nat, ghost k: nat) returns (height: nat)
      requires TAt(node, Top, tree) && vine0 == Pow2(k) - 1 && height0 > 0
      requires Spine(tree, vine0, height0 - 1) && (vine0 > 1 ==> Kids(tree, vine0, vine0))
      modifies this`node, this`tree
      ensures TAt(node, Top, tree) && node.Keys == old(node.Keys) && Inorder(tree) == old(Inorder(tree))
      ensures k > 0 ==> height == height0 + k - 1 && Spine(tree, 1, height - 1)
    {
      var vine := vine0;
      height := height0;
      ghost var j: nat := k;
      while vine > 1
        invariant TAt(node, Top, tree) && node.Keys == old(node.Keys) && Inorder(tree) == old(Inorder(tree))
        invariant j <= k && vine == Pow2(j) - 1 && (vine > 1 ==> Kids(tree, vine, vine))
        invariant (k > 0 ==> j > 0) && height + j == height0 + k && height > 0 && Spine(tree, vine, height - 1)
        decreases vine
      {
        assert vine == 2 * (Pow2(j - 1) - 1) + 1;
        Round(tree, vine, vine, height - 1, vine / 2);
        Compress(vine / 2, 0);
        vine := vine / 2;
        height := height + 1;
        j := j - 1;
      }
      assert k > 0 ==> j == 1;
    }

    // The round after the bottom level, in which only some nodes have right children.
    method SecondRound(vine: nat, leaves0: nat, ghost height: nat, ghost k: nat) returns (leaves: nat)
      requires TAt(node, Top, tree) && vine > 1 && vine == Pow2(k) - 1 && leaves0 < Pow2(k)
      requires height > 0 && Kids(tree, leaves0, vine) && Spine(tree, vine, height - 1)
      modifies this`node, this`tree
      ensures TAt(node, Top, tree) && node.Keys == old(node.Keys) && Inorder(tree) == old(Inorder(tree))
      ensures k > 1 && vine / 2 == Pow2(k - 1) - 1
      ensures Spine(tree, vine / 2, height) && Kids(tree, vine / 2, vine / 2)
    {
      assert vine == 2 * (Pow2(k - 1) - 1) + 1;
      var nonleaves := vine / 2;
      leaves := leaves0 / 2;
      if leaves > nonleaves {
        // Never: the bottom level is at most as wide as what hangs above it allows.
        assert false;
      } else {
        nonleaves := nonleaves - leaves;
      }
      Round(tree, leaves0, vine, height - 1, leaves + nonleaves);
      Compress(leaves, nonleaves);
    }

    // The nodes and their order stay, every thread is exact, and the height is the least
    // possible for the number of nodes.
    method Balance() returns (height: nat)
      requires Valid()
      modifies this
      ensures Valid() && Inorder(tree) == old(Inorder(tree)) && node.Keys == old(node.Keys) && count == old(count)
      ensures count > 0 ==> height == Height(tree) && Pow2(height - 1) <= count < Pow2(height)
    {
      AddrsInorder(tree);
      TreeToVine();
      height := VineToTree();
      AddrsInorder(tree);
    }
  }

  /* ---------- from tree to vine ---------- */

  // The ancestors still to come, all entered to the left: their left links are stale.
  ghost predicate Pending(mem: Threaded, c: Ctx) decreases c {
    c.In? ==>
      && !c.d && c.p != NULL && c.p in mem && mem[c.p].item == c.item && mem[c.p].mark == c.mark
      && Leads(mem[c.p], true, Root(c.sib), Nb(c.up, true))
      && TCells(mem, c.sib, c.p, Nb(c.up, true)) && Pending(mem, c.up)
  }

  // The nodes up to the root of t are on the vine; the rest follows.
  ghost predicate Unrolled(mem: Threaded, c: Ctx, t: Tree) {
    && t.Node? && IsVine(t.l) && TCells(mem, t, NULL, Nb(c, true)) && Pending(mem, c) && Apart(c, t)
    && HEAD in mem && !mem[HEAD].lt
  }

  lemma {:induction false} PendingFrame(mem: Threaded, mem': Threaded, c: Ctx)
    requires Pending(mem, c) && Same'(mem, mem', CtxAddrs(c))
    ensures Pending(mem', c)
    decreases c
  {
    if c.In? {
      TFrameTree(mem, mem', c.sib, c.p, Nb(c.up, true));
      PendingFrame(mem, mem', c.up);
    }
  }

  lemma LeftStep(c: Ctx, t: Tree)
    requires t.Node?
    ensures var c' := In(c, false, t.p, t.item, t.mark, t.r);
            && Inorder(t.l) + After(c') == Inorder(t) + After(c)
            && CtxAddrs(c') + Addrs(t.l) == CtxAddrs(c) + Addrs(t)
  {
    var e := [Entry(t.p, t.item)];
    Splice.Assoc(Inorder(t.l), e + Inorder(t.r), After(c));
    Splice.Assoc(Inorder(t.l), e, Inorder(t.r));
  }

  // The successor s is below the right child of the node p handled last.
  lemma ToSuccessor(mem: Threaded, c: Ctx, t: Tree, c': Ctx, s: Tree)
    requires Unrolled(mem, c, t)
    requires s.Node? && s.l.Leaf? && TCells(mem, s, t.p, Nb(c', true)) && Pending(mem, c') && Apart(c', s)
    requires CtxAddrs(c') + Addrs(s) == CtxAddrs(c) + Addrs(t.r)
    ensures t.p in mem && s.p in mem
    ensures var m1 := SetTo(SetTag(mem, t.p, true, true), t.p, true, s.p);
            var m2 := SetTo(SetTag(m1, s.p, false, false), s.p, false, t.p);
            Unrolled(m2, c', Node(Node(t.l, t.p, t.item, t.mark, Leaf), s.p, s.item, s.mark, s.r))
  {
    var m1 := SetTo(SetTag(mem, t.p, true, true), t.p, true, s.p);
    var m2 := SetTo(SetTag(m1, s.p, false, false), s.p, false, t.p);
    SuccessorApart(c, t, c', s);
    OnVine(mem, t.p, s.p, Addrs(t.l) + Addrs(s.r) + CtxAddrs(c'));
    TFrameTree(mem, m2, t.l, NULL, t.p);
    TFrameTree(mem, m2, s.r, s.p, Nb(c', true));
    PendingFrame(mem, m2, c');
    SuccessorCells(m2, t, s, Nb(c', true));
  }

  lemma SuccessorCells(mem: Threaded, t: Tree, s: Tree, b: Ptr)
    requires t.Node? && s.Node? && t.p != NULL && s.p != NULL && t.p in mem && s.p in mem
    requires TCells(mem, t.l, NULL, t.p) && TCells(mem, s.r, s.p, b)
    requires mem[t.p].item == t.item && mem[t.p].mark == t.mark && mem[s.p].item == s.item && mem[s.p].mark == s.mark
    requires Leads(mem[t.p], false, Root(t.l), NULL) && Leads(mem[t.p], true, NULL, s.p)
    requires Leads(mem[s.p], false, t.p, NULL) && Leads(mem[s.p], true, Root(s.r), b)
    ensures TCells(mem, Node(Node(t.l, t.p, t.item, t.mark, Leaf), s.p, s.item, s.mark, s.r), NULL, b)
  {
    assert TCells(mem, Node(t.l, t.p, t.item, t.mark, Leaf), NULL, s.p);
  }

  lemma OnVine(mem: Threaded, p: Ptr, q: Ptr, rest: set<Ptr>)
    requires p in mem && q in mem && p != q && p !in rest && q !in rest
    ensures var m1 := SetTo(SetTag(mem, p, true, true), p, true, q);
            var m2 := SetTo(SetTag(m1, q, false, false), q, false, p);
            && m2[p] == mem[p].(r := q, rt := true) && m2[q] == mem[q].(l := p, lt := false)
            && Same'(mem, m2, rest)
  {
  }

  lemma SuccessorApart(c: Ctx, t: Tree, c': Ctx, s: Tree)
    requires t.Node? && Apart(c, t) && s.Node? && s.l.Leaf? && Apart(c', s)
    requires CtxAddrs(c') + Addrs(s) == CtxAddrs(c) + Addrs(t.r)
    ensures Apart(c', Node(Node(t.l, t.p, t.item, t.mark, Leaf), s.p, s.item, s.mark, s.r))
    ensures t.p !in Addrs(t.l) + Addrs(s) + CtxAddrs(c') && s.p !in Addrs(t.l) + Addrs(s.r) + CtxAddrs(c')
    ensures HEAD != t.p && HEAD != s.p
  {
    HeadIn(c');
    var rest := CtxAddrs(c') + Addrs(s);
    assert t.p !in rest && Addrs(t.l) !! rest;
    assert Addrs(Node(t.l, t.p, t.item, t.mark, Leaf)) == Addrs(t.l) + {t.p};
  }

  lemma SuccessorOrder(c: Ctx, t: Tree, c': Ctx, s: Tree)
    requires t.Node? && s.Node? && s.l.Leaf? && Inorder(s) + After(c') == Inorder(t.r) + After(c)
    ensures Inorder(Node(Node(t.l, t.p, t.item, t.mark, Leaf), s.p, s.item, s.mark, s.r)) + After(c') == Inorder(t) + After(c)
    ensures |After(c')| + Size(s.r) < |After(c)| + Size(t.r)
  {
    SizeInorder(s.r);
    SizeInorder(t.r);
    VineOrder(t.l, t.p, t.item, t.mark);
    FirstOrder(s);
    Onto(Inorder(t.l) + [Entry(t.p, t.item)], [Entry(s.p, s.item)], Inorder(s.r), After(c'), Inorder(t.r), After(c));
  }

  lemma FirstOrder(s: Tree)
    requires s.Node? && s.l.Leaf?
    ensures Inorder(s) == [Entry(s.p, s.item)] + Inorder(s.r)
  {
  }

  lemma VineOrder(l: Tree, p: Ptr, item: Item, mark: int)
    ensures Inorder(Node(l, p, item, mark, Leaf)) == Inorder(l) + [Entry(p, item)]
  {
  }

  lemma Onto<T>(e: seq<T>, s: seq<T>, r': seq<T>, a': seq<T>, r: seq<T>, a: seq<T>)
    requires (s + r') + a' == r + a
    ensures e + s + r' + a' == e + r + a && |s| + |r'| + |a'| == |r| + |a|
  {
    assert e + s + r' + a' == e + ((s + r') + a');
    assert |s + r' + a'| == |r + a|;
  }

  // The node handled last has no right child: its thread leads to the innermost pending ancestor.
  lemma ToAncestor(mem: Threaded, c: Ctx, t: Tree)
    requires Unrolled(mem, c, t) && t.r.Leaf? && c.In?
    ensures c.p in mem
    ensures var m2 := SetTo(SetTag(mem, c.p, false, false), c.p, false, t.p);
            Unrolled(m2, c.up, Node(t, c.p, c.item, c.mark, c.sib))
  {
    var m2 := SetTo(SetTag(mem, c.p, false, false), c.p, false, t.p);
    HeadIn(c.up);
    TFrameTree(mem, m2, t, NULL, c.p);
    TFrameTree(mem, m2, c.sib, c.p, Nb(c.up, true));
    PendingFrame(mem, m2, c.up);
  }

  lemma VineDone(mem: Threaded, t: Tree)
    requires Unrolled(mem, Top, t) && t.r.Leaf?
    ensures TAt(SetTo(mem, HEAD, false, t.p), Top, t)
  {
    TFrameTree(mem, SetTo(mem, HEAD, false, t.p), t, NULL, NULL);
  }

  /* ---------- from vine to tree ---------- */

  // Of the first v nodes of the left spine, the first m have right children.
  ghost predicate Kids(t: Tree, m: nat, v: nat) decreases v {
    v == 0 || (t.Node? && (t.r.Node? <==> m > 0) && Kids(t.l, if m > 0 then m - 1 else 0, v - 1))
  }

  // Of every second node, first `nonthread` have right children and then `thread` have none.
  ghost predicate Blacks(t: Tree, nonthread: nat, thread: nat) decreases nonthread + thread {
    nonthread + thread == 0 ||
    (&& t.Node? && t.l.Node? && (t.l.r.Node? <==> nonthread > 0)
     && if nonthread > 0 then Blacks(t.l.l, nonthread - 1, thread) else Blacks(t.l.l, 0, thread - 1))
  }

  lemma {:induction false} KidsBlacks(t: Tree, m: nat, v: nat, w: nat)
    requires Kids(t, m, v) && 2 * w <= v && m / 2 <= w
    ensures Blacks(t, m / 2, w - m / 2)
    decreases w
  {
    if w > 0 {
      KidsBlacks(t.l.l, if m > 1 then m - 2 else 0, v - 2, w - 1);
    }
  }

  lemma {:induction false} VineKids(t: Tree, v: nat)
    requires IsVine(t) && v <= Size(t)
    ensures Kids(t, 0, v)
  {
    if v > 0 {
      VineKids(t.l, v - 1);
    }
  }

  // Every rotation gives the node that moves up a right child.
  lemma {:induction false} CompressedKids(t: Tree, w: nat)
    requires SpineHas(t, 2 * w)
    ensures Kids(Compressed(t, w), w, w)
    decreases w
  {
    if w > 0 {
      CompressedKids(t.l.l, w - 1);
    }
  }

  lemma {:induction false} VineCompressedKids(t: Tree, w: nat)
    requires IsVine(t) && SpineHas(t, 2 * w) && 2 * w <= Size(t)
    ensures Kids(Compressed(t, w), w, Size(t) - w)
    decreases w
  {
    if w == 0 {
      VineKids(t, Size(t));
    } else {
      VineCompressedKids(t.l.l, w - 1);
    }
  }

  // One round of compression on an odd spine of which the first m nodes have right children.
  lemma Round(t: Tree, m: nat, v: nat, j: nat, w: nat)
    requires Kids(t, m, v) && Spine(t, v, j) && v == 2 * w + 1 && m / 2 <= w
    ensures SpineHas(t, 2 * w) && Blacks(t, m / 2, w - m / 2)
    ensures Spine(Compressed(t, w), w, j + 1) && Kids(Compressed(t, w), w, w)
    ensures Inorder(Compressed(t, w)) == Inorder(t)
  {
    SpineLong(t, v, j, 2 * w);
    KidsBlacks(t, m, v, w);
    CompressSpine(t, w, j);
    CompressedKids(t, w);
    CompressedInorder(t, w);
  }

  // The path after a rotation: the left child has become the parent, and the focus is its left child.
  function Folded(c: Ctx, t: Tree): Ctx
    requires t.Node? && t.l.Node?
  {
    In(c, false, t.l.p, t.l.item, t.l.mark, Node(t.l.r, t.p, t.item, t.mark, t.r))
  }

  lemma FoldStep(c: Ctx, t: Tree, nonthread: nat, thread: nat, n: nat)
    requires Blacks(t, nonthread, thread) && nonthread + thread == n + 1 && SpineHas(t, 2 * (n + 1))
    ensures t.Node? && t.l.Node? && (t.l.r.Node? <==> nonthread > 0) && SpineHas(t.l.l, 2 * n)
    ensures if nonthread > 0 then Blacks(t.l.l, nonthread - 1, thread) else Blacks(t.l.l, 0, thread - 1)
    ensures Plug(Folded(c, t), Compressed(t.l.l, n)) == Plug(c, Compressed(t, n + 1))
  {
    assert SpineHas(t.l, 2 * n + 1);
  }

  // The writes of the two loops of compress, at the root of t below `above`.
  function ChildWrites(mem: Threaded, above: Ptr, red: Ptr, black: Ptr): Threaded
    requires above in mem && red in mem && black in mem
  {
    var m1 := SetTo(mem, above, false, black);
    SetTo(SetTo(m1, red, false, m1[black].r), black, true, red)
  }

  function ThreadWrites(mem: Threaded, above: Ptr, red: Ptr, black: Ptr): Threaded
    requires above in mem && red in mem && black in mem
  {
    SetTag(SetTag(SetTo(SetTo(mem, above, false, black), red, false, black), red, false, true), black, true, false)
  }

  // Which of the two loops is right depends on whether `black` has a right child, and on nothing else.
  lemma TFold(mem: Threaded, c: Ctx, t: Tree)
    requires TAt(mem, c, t) && t.Node? && t.l.Node? && !Side(c)
    ensures t.p in mem && t.l.p in mem && Last(c) in mem && mem[Last(c)].l == t.p && mem[t.p].l == t.l.p
    ensures TAt(ChildWrites(mem, Last(c), t.p, t.l.p), Folded(c, t), t.l.l) <==> t.l.r.Node?
    ensures TAt(ThreadWrites(mem, Last(c), t.p, t.l.p), Folded(c, t), t.l.l) <==> t.l.r.Leaf?
  {
    var red, black := t.p, t.l.p;
    TView(mem, c, t);
    TDown(mem, c, false, t);
    TView(mem, In(c, false, red, t.item, t.mark, t.r), t.l);
    assert Last(c) != black && red != black;
    var m2 := if t.l.r.Node? then ChildWrites(mem, Last(c), red, black) else ThreadWrites(mem, Last(c), red, black);
    FoldWritten(mem, c, red, black, m2);
    TRotate(mem, m2, c, false, red, t.item, t.mark, black, t.l.item, t.l.mark, t.mark, t.l.mark, t.l.l, t.l.r, t.r);
    TDown(m2, c, false, Node(t.l.l, black, t.l.item, t.l.mark, Node(t.l.r, red, t.item, t.mark, t.r)));
    WrongFold(mem, c, t);
  }

  lemma WrongFold(mem: Threaded, c: Ctx, t: Tree)
    requires t.Node? && t.l.Node? && t.p in mem && t.l.p in mem && Last(c) in mem && t.p != t.l.p && t.p != Last(c)
    requires t.l.r.Node? <==> Root(t.l.r) != NULL
    requires !mem[t.p].lt && mem[t.l.p].rt == t.l.r.Leaf?
    ensures t.l.r.Leaf? ==> !TAt(ChildWrites(mem, Last(c), t.p, t.l.p), Folded(c, t), t.l.l)
    ensures t.l.r.Node? ==> !TAt(ThreadWrites(mem, Last(c), t.p, t.l.p), Folded(c, t), t.l.l)
  {
  }

  lemma FoldWritten(mem: Threaded, c: Ctx, red: Ptr, black: Ptr, mem': Threaded)
    requires red in mem && black in mem && Last(c) in mem && red != black && red != Last(c) && black != Last(c) && !Side(c)
    requires !mem[red].lt && (mem[black].rt ==> mem[black].r == red)
    requires mem' == if mem[black].rt then ThreadWrites(mem, Last(c), red, black) else ChildWrites(mem, Last(c), red, black)
    ensures TRotated(mem, mem', c, false, red, black, mem[red].mark, mem[black].mark)
  {
  }
}
