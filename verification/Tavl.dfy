/** avl-2.0/src/tavl.c: deletion from a threaded AVL tree.  No stack and no parent pointers: on
    the way back up, find_parent finds the parent of a node from child links and threads. */
module Tavl {
  import opened Store
  import opened Ordered
  import opened Splice
  import opened AvlShape
  import opened Threads
  import AvlTree

  class TavlTable {
    var node: Threaded
    var count: nat
    ghost var tree: Tree

    ghost predicate Valid()
      reads this
    {
      && TAt(node, Top, tree) && node.Keys == {HEAD} + Addrs(tree)
      && Avl(tree) && Sorted(Inorder(tree)) && count == |Inorder(tree)|
    }

    ghost function Table(): map<int, Entry>
      reads this
    {
      MapOf(Inorder(tree))
    }

    // find_parent: the record above the node p, from child links and threads alone.
    method FindParent(p: Ptr, ghost c: Ctx, ghost t: Tree) returns (q: Ptr)
      requires TAt(node, c, t) && t.Node? && p == t.p
      ensures q == Last(c)
    {
      TopView(node, c, t);
      if p == node[HEAD].l {
        return HEAD;
      }
      var x, y := p, p;
      ghost var tx, ty, xi, yi := t, t, Nb(c, true), Nb(c, false);
      while true
        invariant tx.Node? && x == tx.p && TCells(node, tx, Nb(c, false), xi)
        invariant ty.Node? && y == ty.p && TCells(node, ty, yi, Nb(c, true))
        decreases tx
      {
        SpanRoot(node, tx.l, false, Nb(c, false), tx.p);
        SpanRoot(node, ty.r, false, ty.p, Nb(c, true));
        if node[y].rt {
          q := node[y].r;
          ThreadUp(node, c, t, true);
          if q == NULL || node[q].l != p {
            q := FarEnd(x, false, tx, Nb(c, false), xi);
          }
          return;
        } else if node[x].lt {
          q := node[x].l;
          ThreadUp(node, c, t, false);
          if q == NULL || node[q].r != p {
            q := FarEnd(y, true, ty, Nb(c, true), yi);
          }
          return;
        }
        xi, yi := x, y;
        x, y := node[x].l, node[y].r;
        tx, ty := tx.l, ty.r;
      }
    }

    // Follows children on side d from x, and then the thread.
    method FarEnd(x0: Ptr, d: bool, ghost t0: Tree, ghost o: Ptr, ghost i0: Ptr) returns (q: Ptr)
      requires Span(node, t0, d, o, i0) && t0.Node? && x0 == t0.p
      ensures q == o
    {
      var x := x0;
      ghost var t, i := t0, i0;
      while !Tag(node[x], d)
        invariant Span(node, t, d, o, i) && t.Node? && x == t.p
        decreases t
      {
        SpanRoot(node, Kid(t, d), d, o, t.p);
        x, t, i := To(node[x], d), Kid(t, d), t.p;
      }
      SpanRoot(node, Kid(t, d), d, o, t.p);
      q := To(node[x], d);
    }

    // Returns the item that was stored under the key.
    method Delete(item: Item) returns (found: Option<Item>)
      requires Valid()
      modifies this
      ensures Valid()
      ensures item.key !in old(Table()) ==> found == None && unchanged(this)
      ensures item.key in old(Table()) ==>
                && found == Some(old(Table())[item.key].item)
                && Table() == old(Table()) - {item.key} && count == old(count) - 1
    {
      TView(node, Top, tree);
      if node[HEAD].l == NULL {
        return None;
      }
      var p, q, dir;
      ghost var c, t;
      p, q, dir, c, t := Locate(item);
      if p == NULL {
        Absence(c, item.key);
        return None;
      }
      TView(node, c, t);
      NodeFound(c, t);
      found := Some(node[p].item);
      ghost var was, c', x, a, b := tree, c, t, [], [];
      q, dir, c', x, a, b := Unlink(p, q, dir, c, t);
      ghost var mem := node;
      node := node - {p};
      TFrame(mem, node, c', x);
      Retrace(q, dir, c', x);
      AvlTree.Removed(was, tree, c', x, a, Entry(p, t.item), b);
      count := count - 1;
    }

    // The descent: it starts at HEAD as if the comparison there had given -1.
    method Locate(item: Item) returns (p: Ptr, q: Ptr, dir: bool, ghost c: Ctx, ghost t: Tree)
      requires Valid() && tree.Node?
      ensures TAt(node, c, t) && p == Root(t) && Plug(c, t) == tree && q == Last(c) && dir == Side(c)
      ensures Avl(t) && CtxAvl(c, Height(t))
      ensures if t.Leaf? then Around(c, item.key) else t.item.key == item.key
    {
      SortedTree(tree);
      c, t := Top, tree;
      p, q, dir := HEAD, HEAD, false;
      var cmp := -1;
      while cmp != 0
        invariant TAt(node, c, t) && Plug(c, t) == tree && SearchTree(t) && Around(c, item.key)
        invariant Avl(t) && CtxAvl(c, Height(t)) && t.Node?
        invariant p == HEAD ==> cmp == -1 && c == Top
        invariant p != HEAD ==> p == t.p && cmp == Compare(item, t.item) && q == Last(c) && dir == Side(c)
        decreases if p == HEAD then 1 else 0, t
      {
        TView(node, c, t);
        dir := cmp > 0;
        q := p;
        if p != HEAD {
          LocateStep(node, c, t, item.key);
          c, t := In(c, dir, p, t.item, t.mark, Kid(t, !dir)), Kid(t, dir);
        }
        if Tag(node[p], dir) {
          return NULL, q, dir, c, t;
        }
        p := To(node[p], dir);
        TView(node, c, t);
        NotHead(c, t);
        cmp := Compare(item, node[p].item);
      }
    }

    // Takes the node p out of the tree and returns where the tree has become one level lower.
    method Unlink(p: Ptr, q0: Ptr, dir0: bool, ghost c: Ctx, ghost t: Tree)
      returns (q: Ptr, dir: bool, ghost c': Ctx, ghost x: Tree, ghost a: seq<Entry>, ghost b: seq<Entry>)
      requires TAt(node, c, t) && t.Node? && t.p == p && q0 == Last(c) && dir0 == Side(c) && Avl(t) && CtxAvl(c, Height(t))
      modifies this`node
      ensures node.Keys == old(node.Keys) && p !in CtxAddrs(c') + Addrs(x)
      ensures TAt(node, c', x) && q == Last(c') && dir == Side(c') && Lower(c', x)
      ensures Inorder(Plug(c, t)) == a + [Entry(p, t.item)] + b && Inorder(Plug(c', x)) == a + b
    {
      TView(node, c, t);
      if node[p].rt {
        BypassLower(c, t);
        a, b := BypassInorder(c, t);
        Bypassed(node, c, t);
        if !node[p].lt {
          var e := RightEnd(node[p].l, t.l, Nb(c, false), p);
          node := SetTo(node, e, true, node[p].r);
          node := SetTo(node, q0, dir0, node[p].l);
        } else {
          node := SetTo(node, q0, dir0, To(node[p], dir0));
          if q0 != HEAD {
            node := SetTag(node, q0, dir0, true);
          }
        }
        return q0, dir0, c, t.l, a, b;
      }
      var r := node[p].r;
      TDown(node, c, true, t);
      TView(node, In(c, true, p, t.item, t.mark, t.l), t.r);
      if node[r].lt {
        c', x, a, b := UnlinkNext(p, r, q0, dir0, c, t);
        q, dir := r, true;
      } else {
        q, c', x, a, b := UnlinkSuccessor(p, r, q0, dir0, c, t);
        dir := false;
      }
    }

    // From e = p the right end of t.
    method RightEnd(p: Ptr, ghost t0: Tree, ghost a0: Ptr, ghost b: Ptr) returns (e: Ptr)
      requires TCells(node, t0, a0, b) && t0.Node? && p == t0.p
      ensures e == LastOf(t0)
    {
      e := p;
      ghost var t, a := t0, a0;
      while !node[e].rt
        invariant TCells(node, t, a, b) && t.Node? && e == t.p && LastOf(t) == LastOf(t0)
        decreases t
      {
        SpanRoot(node, t.r, false, t.p, b);
        e, t, a := node[e].r, t.r, t.p;
      }
      SpanRoot(node, t.r, false, t.p, b);
    }

    // The right child r of p has no left child and takes p's place.
    method UnlinkNext(p: Ptr, r: Ptr, q0: Ptr, dir0: bool, ghost c: Ctx, ghost t: Tree)
      returns (ghost c': Ctx, ghost x: Tree, ghost a: seq<Entry>, ghost b: seq<Entry>)
      requires TAt(node, c, t) && t.Node? && t.p == p && q0 == Last(c) && dir0 == Side(c) && Avl(t) && CtxAvl(c, Height(t))
      requires t.r.Node? && t.r.p == r && t.r.l.Leaf?
      modifies this`node
      ensures node.Keys == old(node.Keys) && p !in CtxAddrs(c') + Addrs(x)
      ensures TAt(node, c', x) && r == Last(c') && Side(c') && Lower(c', x)
      ensures Inorder(Plug(c, t)) == a + [Entry(p, t.item)] + b && Inorder(Plug(c', x)) == a + b
    {
      TDown(node, c, true, t);
      DownAvl(c, t, true);
      MoveUpLower(c, p, t.item, t.mark, t.l, Top, t.r);
      a, b := MoveUpInorder(c, p, t.item, t.mark, t.l, Top, t.r);
      SuccessorView'(node, c, t, Top, t.r);
      ghost var mem := node;
      node := SetTo(node, r, false, node[p].l);
      node := SetTag(node, r, false, node[p].lt);
      var e := r;
      if !node[r].lt {
        TFrameTree(mem, node, t.l, Nb(c, false), p);
        e := RightEnd(node[r].l, t.l, Nb(c, false), p);
        node := SetTo(node, e, true, r);
      }
      node := SetTo(node, q0, dir0, r);
      node := SetBalance(node, r, node[p].mark);
      NextWritten(mem, c, t, e);
      MoveUp'(mem, node, c, p, t.item, t.mark, t.l, Top, t.r);
      c', x := In(c, true, r, t.r.item, t.mark, t.l), t.r.r;
    }

    // The successor s of p, further down to the left, takes p's place; q is its old parent.
    method UnlinkSuccessor(p: Ptr, r: Ptr, q0: Ptr, dir0: bool, ghost c: Ctx, ghost t: Tree)
      returns (q: Ptr, ghost c': Ctx, ghost x: Tree, ghost a: seq<Entry>, ghost b: seq<Entry>)
      requires TAt(node, c, t) && t.Node? && t.p == p && q0 == Last(c) && dir0 == Side(c) && Avl(t) && CtxAvl(c, Height(t))
      requires t.r.Node? && t.r.p == r && t.r.l.Node?
      modifies this`node
      ensures node.Keys == old(node.Keys) && p !in CtxAddrs(c') + Addrs(x)
      ensures TAt(node, c', x) && q == Last(c') && !Side(c') && Lower(c', x)
      ensures Inorder(Plug(c, t)) == a + [Entry(p, t.item)] + b && Inorder(Plug(c', x)) == a + b
    {
      var s;
      ghost var inn, st;
      s, q, inn, st := Successor(p, r, c, t);
      MoveUpLower(c, p, t.item, t.mark, t.l, inn, st);
      a, b := MoveUpInorder(c, p, t.item, t.mark, t.l, inn, st);
      MoveSuccessorUp(p, s, q, q0, dir0, c, t, inn, st);
      c', x := Join(inn, In(c, true, s, st.item, t.mark, t.l)), st.r;
    }

    // Goes left from p's right child r0.
    method Successor(p: Ptr, r0: Ptr, ghost c: Ctx, ghost t: Tree) returns (s: Ptr, r: Ptr, ghost inn: Ctx, ghost st: Tree)
      requires TAt(node, c, t) && t.Node? && t.p == p && Avl(t) && CtxAvl(c, Height(t))
      requires t.r.Node? && t.r.p == r0 && t.r.l.Node?
      ensures var o := In(c, true, p, t.item, t.mark, t.l);
              && TAt(node, Join(inn, o), st) && Avl(st) && CtxAvl(Join(inn, o), Height(st)) && Plug(Join(inn, o), st) == Plug(c, t)
      ensures LeftPath(inn) && inn.In? && inn.p == r && st.Node? && st.p == s && st.l.Leaf? && node[p].r == r0
      ensures Root(Plug(inn, st.r)) == r0
    {
      ghost var o := In(c, true, p, t.item, t.mark, t.l);
      TView(node, c, t);
      TDown(node, c, true, t);
      DownAvl(c, t, true);
      inn, st := Top, t.r;
      r, s := r0, r0;
      while true
        invariant TAt(node, Join(inn, o), st) && Avl(st) && CtxAvl(Join(inn, o), Height(st))
        invariant Plug(Join(inn, o), st) == Plug(c, t) && Root(Plug(inn, st)) == r0
        invariant LeftPath(inn) && st.Node? && st.p == r && st.l.Node?
        decreases st
      {
        TView(node, Join(inn, o), st);
        TDown(node, Join(inn, o), false, st);
        DownAvl(Join(inn, o), st, false);
        s := node[r].l;
        inn, st := In(inn, false, r, st.item, st.mark, st.r), st.l;
        TView(node, Join(inn, o), st);
        if node[s].lt {
          break;
        }
        r := s;
      }
      OuterRoot(inn, st, st.r);
    }

    // The relinking that puts s, with parent r, in the place of p below q0.
    method MoveSuccessorUp(p: Ptr, s: Ptr, r: Ptr, q0: Ptr, dir0: bool, ghost c: Ctx, ghost t: Tree, ghost inn: Ctx, ghost st: Tree)
      requires t.Node? && t.p == p && TAt(node, Join(inn, In(c, true, p, t.item, t.mark, t.l)), st)
      requires LeftPath(inn) && inn.In? && inn.p == r && st.Node? && st.p == s && st.l.Leaf?
      requires q0 == Last(c) && dir0 == Side(c)
      modifies this`node
      ensures node.Keys == old(node.Keys)
      ensures TAt(node, Join(inn, In(c, true, s, st.item, t.mark, t.l)), st.r)
      ensures p !in CtxAddrs(Join(inn, In(c, true, s, st.item, t.mark, t.l))) + Addrs(st.r)
    {
      SuccessorView'(node, c, t, inn, st);
      ghost var mem := node;
      if !node[s].rt {
        node := SetTo(node, r, false, node[s].r);
      } else {
        node := SetTo(node, r, false, s);
        node := SetTag(node, r, false, true);
      }
      node := SetTo(node, s, false, node[p].l);
      var e := s;
      if !node[p].lt {
        TFrameTree(mem, node, t.l, Nb(c, false), p);
        e := RightEnd(node[p].l, t.l, Nb(c, false), p);
        node := SetTo(node, e, true, s);
        node := SetTag(node, s, false, false);
      }
      node := SetTo(node, s, true, node[p].r);
      node := SetTag(node, s, true, false);
      node := SetTo(node, q0, dir0, s);
      node := SetBalance(node, s, node[p].mark);
      SuccessorWritten(mem, c, t, inn, st, e);
      MoveUp'(mem, node, c, p, t.item, t.mark, t.l, inn, st);
    }

    // The rebalancing loop, from the lowered subtree t0 below q0 up.
    method Retrace(q0: Ptr, dir0: bool, ghost c0: Ctx, ghost t0: Tree)
      requires TAt(node, c0, t0) && Lower(c0, t0) && q0 == Last(c0) && dir0 == Side(c0)
      modifies this`node, this`tree
      ensures node.Keys == old(node.Keys) && TAt(node, Top, tree) && Avl(tree)
      ensures Inorder(tree) == Inorder(Plug(c0, t0))
    {
      var q, dir := q0, dir0;
      ghost var c, t := c0, t0;
      while q != HEAD
        invariant TAt(node, c, t) && Lower(c, t) && q == Last(c) && dir == Side(c)
        invariant node.Keys == old(node.Keys) && Inorder(Plug(c, t)) == Inorder(Plug(c0, t0))
        decreases Depth(c)
      {
        var y, d := q, dir;
        TUp(node, c, t);
        ghost var yt := Mk(d, t, c.p, c.item, c.mark, c.sib);
        TView(node, c.up, yt);
        OnlyLink'(node, c.up, yt);
        q := FindParent(y, c.up, yt);
        dir := node[q].l != y;
        var done;
        done, t := RetraceStep(y, d, q, dir, c, t);
        c := c.up;
        if done {
          tree := Plug(c, t);
          return;
        }
      }
      NotHead'(node, c, Root(t));
      tree := t;
    }

    // One round at node y, whose side d has become one level lower; above is y's parent.
    method RetraceStep(y: Ptr, d: bool, above: Ptr, dir: bool, ghost c: Ctx, ghost t: Tree)
      returns (done: bool, ghost t': Tree)
      requires TAt(node, c, t) && Lower(c, t) && c.In? && y == c.p && d == c.d && above == Last(c.up) && dir == Side(c.up)
      modifies this`node
      ensures node.Keys == old(node.Keys) && Inorder(Plug(c.up, t')) == Inorder(Plug(c, t))
      ensures if done then TAt(node, Top, Plug(c.up, t')) && Avl(Plug(c.up, t')) else TAt(node, c.up, t') && Lower(c.up, t')
    {
      ghost var m := c.mark - Sgn(d);
      t' := Mk(d, t, y, c.item, m, c.sib);
      TRemark(node, c, t, m);
      if !d {
        node := SetBalance(node, y, node[y].mark + 1);
      } else {
        node := SetBalance(node, y, node[y].mark - 1);
      }
      done := false;
      if node[y].mark == -Sgn(d) {
        LowerAbsorbed(c, t);
        TPlugAt(node, c.up, t');
        done := true;
      } else if node[y].mark == -2 * Sgn(d) {
        LowerHeavy(c, t);
        done, t' := RotateLowered(y, above, dir, !d, c.up, c.sib, c.item, t);
      } else {
        LowerPassed(c, t);
      }
    }

    // y has become two levels higher on side d than on the other.
    method RotateLowered(y: Ptr, above: Ptr, dir: bool, d: bool, ghost c: Ctx, ghost xt: Tree, ghost yi: Item, ghost e: Tree)
      returns (done: bool, ghost t': Tree)
      requires TAt(node, c, Mk(d, xt, y, yi, 2 * Sgn(d), e)) && above == Last(c) && dir == Side(c)
      requires xt.Node? && Avl(xt) && Avl(e) && Height(xt) == Height(e) + 2 && CtxAvl(c, Height(e) + 3)
      modifies this`node
      ensures node.Keys == old(node.Keys) && Inorder(Plug(c, t')) == Inorder(Plug(c, Mk(d, xt, y, yi, 2 * Sgn(d), e)))
      ensures if done then TAt(node, Top, Plug(c, t')) && Avl(Plug(c, t')) else TAt(node, c, t') && Lower(c, t')
    {
      TurnView(node, c, d, y, xt, yi, 2 * Sgn(d), e);
      var x := To(node[y], d);
      if node[x].mark == -Sgn(d) {
        t' := DoubleLowered(y, x, above, dir, d, c, xt, yi, e);
        done := false;
      } else {
        done, t' := SingleLowered(y, x, above, dir, d, c, xt, yi, e);
      }
    }

    // x leans the other way: its child w moves up two levels.
    method DoubleLowered(y: Ptr, x: Ptr, above: Ptr, dir: bool, d: bool, ghost c: Ctx, ghost xt: Tree, ghost yi: Item, ghost e: Tree)
      returns (ghost t': Tree)
      requires TAt(node, c, Mk(d, xt, y, yi, 2 * Sgn(d), e)) && above == Last(c) && dir == Side(c)
      requires xt.Node? && x == xt.p && xt.mark == -Sgn(d)
      requires Avl(xt) && Avl(e) && Height(xt) == Height(e) + 2 && CtxAvl(c, Height(e) + 3)
      modifies this`node
      ensures node.Keys == old(node.Keys) && Inorder(Plug(c, t')) == Inorder(Plug(c, Mk(d, xt, y, yi, 2 * Sgn(d), e)))
      ensures TAt(node, c, t') && Lower(c, t')
    {
      ghost var mem := node;
      TurnView(node, c, d, y, xt, yi, 2 * Sgn(d), e);
      DoubleLower(c, d, y, yi, xt, e);
      var w := To(node[x], !d);
      WriteDouble(y, x, w, d);
      ghost var mid := node;
      node := SetTo(node, above, dir, w);
      TDoubleRotated(mem, mid, c, d, y, yi, xt, e);
      t' := Double(d, y, yi, xt, e);
    }

    // Both rotations at once, then the balances, then the threads.
    method WriteDouble(y: Ptr, x: Ptr, w: Ptr, d: bool)
      requires x in node && y in node && w in node && x != y && x != w && y != w && -1 <= node[w].mark <= 1
      requires !Tag(node[y], d) && !Tag(node[x], !d)
      modifies this`node
      ensures TurnedTwice(old(node), node, d, y, x, w)
    {
      ghost var mem := node;
      node := SetTo(node, x, !d, To(node[w], d));
      node := SetTo(node, w, d, x);
      node := SetTo(node, y, d, To(node[w], !d));
      node := SetTo(node, w, !d, y);
      CrossLinks(mem, d, y, x, w);
      ghost var m1 := node;
      if node[w].mark == Sgn(d) {
        node := SetBalance(node, x, 0);
        node := SetBalance(node, y, -Sgn(d));
      } else if node[w].mark == 0 {
        node := SetBalance(node, x, 0);
        node := SetBalance(node, y, 0);
      } else {
        node := SetBalance(node, x, Sgn(d));
        node := SetBalance(node, y, 0);
      }
      node := SetBalance(node, w, 0);
      CrossMarks(m1, d, y, x, w);
      WriteThreads(y, x, w, d);
      CrossDone(mem, node, d, y, x, w);
    }

    method WriteThreads(y: Ptr, x: Ptr, w: Ptr, d: bool)
      requires x in node && y in node && w in node && x != y && x != w && y != w
      modifies this`node
      ensures node == CrossThreads(old(node), d, y, x, w)
    {
      if Tag(node[w], !d) {
        node := SetTag(node, y, d, true);
        node := SetTo(node, y, d, w);
        node := SetTag(node, w, !d, false);
      }
      if Tag(node[w], d) {
        node := SetTag(node, x, !d, true);
        node := SetTo(node, x, !d, w);
        node := SetTag(node, w, d, false);
      }
    }

    method SingleLowered(y: Ptr, x: Ptr, above: Ptr, dir: bool, d: bool, ghost c: Ctx, ghost xt: Tree, ghost yi: Item, ghost e: Tree)
      returns (done: bool, ghost t': Tree)
      requires TAt(node, c, Mk(d, xt, y, yi, 2 * Sgn(d), e)) && above == Last(c) && dir == Side(c)
      requires xt.Node? && x == xt.p && xt.mark != -Sgn(d)
      requires Avl(xt) && Avl(e) && Height(xt) == Height(e) + 2 && CtxAvl(c, Height(e) + 3)
      modifies this`node
      ensures node.Keys == old(node.Keys) && Inorder(Plug(c, t')) == Inorder(Plug(c, Mk(d, xt, y, yi, 2 * Sgn(d), e)))
      ensures if done then TAt(node, Top, Plug(c, t')) && Avl(Plug(c, t')) else TAt(node, c, t') && Lower(c, t')
    {
      ghost var mem := node;
      TurnView(node, c, d, y, xt, yi, 2 * Sgn(d), e);
      done := WriteSingle(y, x, above, dir, d, c);
      TSingleRotated(mem, node, c, d, y, yi, xt, e);
      SingleLower(c, d, y, yi, xt, e);
      t' := Single(d, y, yi, xt, e);
      if done {
        TPlugAt(node, c, t');
      }
    }

    method WriteSingle(y: Ptr, x: Ptr, above: Ptr, dir: bool, d: bool, ghost c: Ctx) returns (done: bool)
      requires x in node && y in node && Last(c) in node && x != y && x != Last(c) && y != Last(c)
      requires above == Last(c) && dir == Side(c) && (node[x].mark == 0 || node[x].mark == Sgn(d))
      requires !Tag(node[y], d) && To(node[y], d) == x && (node[x].mark == 0 ==> !Tag(node[x], !d))
      modifies this`node
      ensures TRotated(old(node), node, c, d, y, x, Sgn(d) - old(node)[x].mark, old(node)[x].mark - Sgn(d))
      ensures done <==> old(node)[x].mark == 0
    {
      BalancedWrites(node, c, d, y, x);
      LeaningWrites(node, c, d, y, x);
      node := SetTo(node, above, dir, x);
      if node[x].mark == 0 {
        node := SetTo(node, y, d, To(node[x], !d));
        node := SetTo(node, x, !d, y);
        node := SetBalance(node, x, -Sgn(d));
        node := SetBalance(node, y, Sgn(d));
        return true;
      }
      if !Tag(node[x], !d) {
        node := SetTo(node, y, d, To(node[x], !d));
      } else {
        node := SetTag(node, y, d, true);
        node := SetTag(node, x, !d, false);
      }
      node := SetTo(node, x, !d, y);
      node := SetBalance(SetBalance(node, x, 0), y, 0);
      done := false;
    }
  }

  lemma LocateStep(mem: Threaded, c: Ctx, t: Tree, k: int)
    requires TAt(mem, c, t) && t.Node? && SearchTree(t) && Around(c, k) && k != t.item.key && Avl(t) && CtxAvl(c, Height(t))
    ensures var d := k > t.item.key; var c' := In(c, d, t.p, t.item, t.mark, Kid(t, !d));
            && TAt(mem, c', Kid(t, d)) && SearchTree(Kid(t, d)) && Around(c', k)
            && Avl(Kid(t, d)) && CtxAvl(c', Height(Kid(t, d))) && Plug(c', Kid(t, d)) == Plug(c, t)
  {
    TDown(mem, c, k > t.item.key, t);
    DownAvl(c, t, k > t.item.key);
  }

  // The node that is last in order.
  function LastOf(t: Tree): Ptr
    requires t.Node?
  {
    if t.r.Leaf? then t.p else LastOf(t.r)
  }

  lemma TFrame(mem: Threaded, mem': Threaded, c: Ctx, t: Tree)
    requires TAt(mem, c, t) && Same'(mem, mem', CtxAddrs(c) + Addrs(t))
    ensures TAt(mem', c, t)
  {
    TFrameTree(mem, mem', t, Nb(c, false), Nb(c, true));
    TFrameCtx(mem, mem', c, Root(t));
  }

  lemma NotHead(c: Ctx, t: Tree)
    requires Apart(c, t) && t.Node?
    ensures t.p != HEAD
  {
    HeadIn(c);
  }

  /* ---------- finding the parent ---------- */

  lemma {:induction false} RootLink(mem: Threaded, c: Ctx, q: Ptr)
    requires TCtxCells(mem, c, q)
    ensures HEAD in mem && (if c.Top? then mem[HEAD].l == q else mem[HEAD].l in CtxAddrs(c))
    decreases c
  {
    if c.In? {
      RootLink(mem, c.up, c.p);
    }
  }

  lemma TopView(mem: Threaded, c: Ctx, t: Tree)
    requires TAt(mem, c, t) && t.Node?
    ensures HEAD in mem && (mem[HEAD].l == t.p <==> c.Top?)
  {
    RootLink(mem, c, t.p);
  }

  // The neighbour on side d has, on its other side, the subtree that contains the hole.
  lemma {:induction false} NbView(mem: Threaded, c: Ctx, q: Ptr, d: bool)
    requires TCtxCells(mem, c, q) && q != NULL
    ensures Nb(c, d) != NULL ==>
              Nb(c, d) in mem && Nb(c, d) in CtxAddrs(c) && (To(mem[Nb(c, d)], !d) == q || To(mem[Nb(c, d)], !d) in CtxAddrs(c))
    decreases c
  {
    if c.In? && c.d == d {
      NbView(mem, c.up, c.p, d);
    }
  }

  // Below the root, the thread out of t on side d leads to the parent just when the record it
  // leads to has t.p as its child on the other side; else the thread on the other side does.
  lemma ThreadUp(mem: Threaded, c: Ctx, t: Tree, d: bool)
    requires TAt(mem, c, t) && t.Node? && c.In?
    ensures Nb(c, d) != NULL ==> Nb(c, d) in mem
    ensures if Nb(c, d) != NULL && To(mem[Nb(c, d)], !d) == t.p then Nb(c, d) == c.p else Nb(c, !d) == c.p
  {
    NbView(mem, c, t.p, d);
    if c.d == d {
      NbView(mem, c.up, c.p, d);
    }
  }

  /* ---------- unlinking ---------- */

  // Redirecting the thread at the right end of t.
  lemma {:induction false} EndLink(mem: Threaded, t: Tree, a: Ptr, b: Ptr, b': Ptr)
    requires TCells(mem, t, a, b) && t.Node? && Disj(t)
    ensures LastOf(t) in mem && LastOf(t) in Addrs(t) && mem[LastOf(t)].rt && mem[LastOf(t)].r == b
    ensures TCells(SetTo(mem, LastOf(t), true, b'), t, a, b')
  {
    SpanRoot(mem, t.r, false, t.p, b);
    if t.r.Node? {
      EndLink(mem, t.r, t.p, b, b');
    }
    TFrameTree(mem, SetTo(mem, LastOf(t), true, b'), t.l, a, t.p);
  }

  // A node without right child is bypassed.
  lemma Bypassed(mem: Threaded, c: Ctx, t: Tree)
    requires TAt(mem, c, t) && t.Node? && t.r.Leaf?
    ensures t.p in mem && Last(c) in mem && t.p !in CtxAddrs(c) + Addrs(t.l)
    ensures t.l.Node? ==>
              && TCells(mem, t.l, Nb(c, false), t.p) && LastOf(t.l) in mem && LastOf(t.l) != t.p
              && TAt(SetTo(SetTo(mem, LastOf(t.l), true, mem[t.p].r), Last(c), Side(c), t.l.p), c, t.l)
    ensures t.l.Leaf? ==>
              var m1 := SetTo(mem, Last(c), Side(c), To(mem[t.p], Side(c)));
              TAt(if Last(c) != HEAD then SetTag(m1, Last(c), Side(c), true) else m1, c, Leaf)
  {
    TView(mem, c, t);
    if t.l.Node? {
      EndLink(mem, t.l, Nb(c, false), t.p, Nb(c, true));
      var m1 := SetTo(mem, LastOf(t.l), true, mem[t.p].r);
      var m2 := SetTo(m1, Last(c), Side(c), t.l.p);
      TFrameTree(m1, m2, t.l, Nb(c, false), Nb(c, true));
      TRelink(mem, m2, c, t.p, t.l.p);
    } else {
      var m1 := SetTo(mem, Last(c), Side(c), To(mem[t.p], Side(c)));
      var m2 := if Last(c) != HEAD then SetTag(m1, Last(c), Side(c), true) else m1;
      TRelink(mem, m2, c, t.p, NULL);
    }
  }

  function Inner(inn: Ctx): set<Ptr> {
    if inn.Top? then {} else Inner(inn.up) + {inn.p} + Addrs(inn.sib)
  }

  lemma {:induction false} InnerJoin(inn: Ctx, o: Ctx)
    ensures CtxAddrs(Join(inn, o)) == CtxAddrs(o) + Inner(inn)
    ensures CtxDisj(Join(inn, o)) ==> CtxDisj(o) && Inner(inn) !! CtxAddrs(o)
    ensures CtxDisj(Join(inn, o)) && inn.In? ==> Inner(inn.up) + Addrs(inn.sib) == Inner(inn) - {inn.p} && inn.p in Inner(inn)
    decreases inn
  {
    if inn.In? {
      InnerJoin(inn.up, o);
    }
  }

  lemma {:induction false} TJoinUp(mem: Threaded, inn: Ctx, o: Ctx, t: Tree)
    requires TAt(mem, Join(inn, o), t)
    ensures TAt(mem, o, Plug(inn, t))
    decreases inn
  {
    if inn.In? {
      TUp(mem, Join(inn, o), t);
      TJoinUp(mem, inn.up, o, Mk(inn.d, t, inn.p, inn.item, inn.mark, inn.sib));
    }
  }

  lemma {:induction false} NbJoin(inn: Ctx, o: Ctx, o': Ctx)
    requires LeftPath(inn) && Nb(o, true) == Nb(o', true)
    ensures Nb(Join(inn, o), true) == Nb(Join(inn, o'), true) && Nb(Join(inn, o'), false) == Nb(o', false)
    decreases inn
  {
    if inn.In? {
      NbJoin(inn.up, o, o');
    }
  }

  // Below o only the innermost record has been written, and o has become o'.
  lemma {:induction false} JoinCtx(mem: Threaded, mem': Threaded, inn: Ctx, o: Ctx, o': Ctx, t: Tree, t': Tree)
    requires LeftPath(inn) && Nb(o, true) == Nb(o', true) && TCtxCells(mem, Join(inn, o), Root(t))
    requires TCtxCells(mem', o', Root(Plug(inn, t')))
    requires inn.In? ==>
               && Same'(mem, mem', Inner(inn.up) + Addrs(inn.sib)) && inn.p in mem'
               && OtherSide(mem[inn.p], mem'[inn.p], false) && Leads(mem'[inn.p], false, Root(t'), Nb(o', false))
    ensures TCtxCells(mem', Join(inn, o'), Root(t'))
    decreases inn
  {
    if inn.In? {
      NbJoin(inn.up, o, o');
      TFrameSpan(mem, mem', inn.sib, false, inn.p, Nb(Join(inn.up, o), true));
      JoinCtx(mem, mem', inn.up, o, o', Mk(inn.d, t, inn.p, inn.item, inn.mark, inn.sib),
              Mk(inn.d, t', inn.p, inn.item, inn.mark, inn.sib));
    }
  }

  // Memory after st's root s has been unhooked below the left-going path inn and has taken p's place.
  ghost predicate MovedUp'(mem: Threaded, mem': Threaded, c: Ctx, p: Ptr, pm: int, l: Tree, inn: Ctx, st: Tree)
    requires st.Node?
  {
    var s := st.p;
    && s in mem && s in mem' && mem'[s].item == st.item && mem'[s].mark == pm
    && Leads(mem'[s], false, Root(l), Nb(c, false))
    && (if inn.Top? then mem'[s].r == mem[s].r && mem'[s].rt == mem[s].rt else Leads(mem'[s], true, Root(Plug(inn, st.r)), Nb(c, true)))
    && (inn.In? ==> inn.p in mem && inn.p in mem' && OtherSide(mem[inn.p], mem'[inn.p], false) && Leads(mem'[inn.p], false, Root(st.r), s))
    && (l.Node? ==> LastOf(l) in mem && LastOf(l) in mem' && mem'[LastOf(l)] == SetTo(mem, LastOf(l), true, s)[LastOf(l)])
    && Last(c) in mem && Last(c) in mem' && mem'[Last(c)] == SetTo(mem, Last(c), Side(c), s)[Last(c)]
    && Same'(mem, mem', mem.Keys - Touched(c, p, l, inn, s))
  }

  function Touched(c: Ctx, p: Ptr, l: Tree, inn: Ctx, s: Ptr): set<Ptr> {
    {p, s, Last(c)} + HoleOf(inn) + EndOf(l)
  }

  function HoleOf(inn: Ctx): set<Ptr> { if inn.In? then {inn.p} else {} }

  function EndOf(l: Tree): set<Ptr> { if l.Node? then {LastOf(l)} else {} }

  // The same on one level: s, taken from between l and what is now r, replaces p.
  lemma OuterPlace(mem: Threaded, mem': Threaded, c: Ctx, t: Tree, s: Ptr, si: Item, r: Tree)
    requires TAt(mem, c, t) && t.Node? && s != NULL && s !in Addrs(t.l) + CtxAddrs(c) && s in mem'
    requires mem'[s].item == si && mem'[s].mark == t.mark
    requires Leads(mem'[s], false, Root(t.l), Nb(c, false)) && Leads(mem'[s], true, Root(r), Nb(c, true))
    requires Last(c) in mem && Last(c) in mem' && mem'[Last(c)] == SetTo(mem, Last(c), Side(c), s)[Last(c)]
    requires Same'(mem, mem', CtxAddrs(c) - {Last(c)})
    requires t.l.Node? ==> LastOf(t.l) in mem && Same'(SetTo(mem, LastOf(t.l), true, s), mem', Addrs(t.l))
    ensures TCtxCells(mem', In(c, true, s, si, t.mark, t.l), Root(r)) && CtxDisj(In(c, true, s, si, t.mark, t.l))
  {
    TView(mem, c, t);
    if t.l.Node? {
      EndLink(mem, t.l, Nb(c, false), t.p, s);
      TFrameTree(SetTo(mem, LastOf(t.l), true, s), mem', t.l, Nb(c, false), s);
    }
    TRelink(mem, mem', c, t.p, s);
  }

  lemma MoveUp'(mem: Threaded, mem': Threaded, c: Ctx, p: Ptr, pi: Item, pm: int, l: Tree, inn: Ctx, st: Tree)
    requires st.Node? && st.l.Leaf? && TAt(mem, Join(inn, In(c, true, p, pi, pm, l)), st) && LeftPath(inn)
    requires MovedUp'(mem, mem', c, p, pm, l, inn, st)
    ensures TAt(mem', Join(inn, In(c, true, st.p, st.item, pm, l)), st.r)
    ensures p !in CtxAddrs(Join(inn, In(c, true, st.p, st.item, pm, l))) + Addrs(st.r)
  {
    var o, o' := In(c, true, p, pi, pm, l), In(c, true, st.p, st.item, pm, l);
    MoveUpApart(c, p, pi, pm, l, inn, st);
    MoveUpOuter(mem, mem', c, p, pi, pm, l, inn, st);
    MoveUpFrame(mem, mem', c, p, pi, pm, l, inn, st);
    InnerJoin(inn, o);
    NbJoin(inn, o, o');
    JoinCtx(mem, mem', inn, o, o', st, st.r);
    TFrameTree(mem, mem', st.r, st.p, Nb(Join(inn, o), true));
  }

  lemma MoveUpOuter(mem: Threaded, mem': Threaded, c: Ctx, p: Ptr, pi: Item, pm: int, l: Tree, inn: Ctx, st: Tree)
    requires st.Node? && st.l.Leaf? && TAt(mem, Join(inn, In(c, true, p, pi, pm, l)), st) && LeftPath(inn)
    requires MovedUp'(mem, mem', c, p, pm, l, inn, st)
    ensures TCtxCells(mem', In(c, true, st.p, st.item, pm, l), Root(Plug(inn, st.r)))
    ensures EndOf(l) <= Addrs(l)
  {
    var o := In(c, true, p, pi, pm, l);
    TView(mem, Join(inn, o), st);
    MoveUpAddrs(c, p, pi, pm, l, inn, st);
    TJoinUp(mem, inn, o, st);
    TUp(mem, o, Plug(inn, st));
    if l.Node? {
      EndLink(mem, l, Nb(c, false), p, p);
    }
    MoveUpFrame(mem, mem', c, p, pi, pm, l, inn, st);
    if l.Node? {
      EndSame(mem, mem', Addrs(l), LastOf(l), st.p);
    }
    OuterPlace(mem, mem', c, Node(l, p, pi, pm, Plug(inn, st)), st.p, st.item, Plug(inn, st.r));
  }

  lemma {:induction false} JoinDisj(inn: Ctx, o: Ctx, o': Ctx)
    requires CtxDisj(Join(inn, o)) && CtxDisj(o') && CtxAddrs(o') !! Inner(inn)
    ensures CtxDisj(Join(inn, o'))
    decreases inn
  {
    if inn.In? {
      InnerJoin(inn.up, o);
      InnerJoin(inn.up, o');
      JoinDisj(inn.up, o, o');
    }
  }

  lemma MoveUpAddrs(c: Ctx, p: Ptr, pi: Item, pm: int, l: Tree, inn: Ctx, st: Tree)
    requires st.Node? && Apart(Join(inn, In(c, true, p, pi, pm, l)), st)
    ensures Pieces(CtxAddrs(c), Addrs(l), Inner(inn), Addrs(st.r), p, st.p) && p !in Addrs(st)
    ensures Disj(l) && CtxDisj(c) && Disj(st)
  {
    var o := In(c, true, p, pi, pm, l);
    InnerJoin(inn, o);
    assert CtxAddrs(o) == CtxAddrs(c) + {p} + Addrs(l);
    assert CtxDisj(o) && p !in CtxAddrs(c) && p !in Addrs(l) && Addrs(l) !! CtxAddrs(c);
    TakeApart(CtxAddrs(Join(inn, o)), CtxAddrs(c), Addrs(l), Inner(inn), Addrs(st), Addrs(st.r), p, st.p);
  }

  ghost predicate Pieces(c: set<Ptr>, l: set<Ptr>, inn: set<Ptr>, r: set<Ptr>, p: Ptr, s: Ptr) {
    && s !in c + l + inn + {p} && p !in c + l + inn
    && c !! inn && l !! inn && c !! l && r !! c + l + inn + {s, p}
  }

  lemma TakeApart(all: set<Ptr>, c: set<Ptr>, l: set<Ptr>, inn: set<Ptr>, st: set<Ptr>, r: set<Ptr>, p: Ptr, s: Ptr)
    requires all == c + {p} + l + inn && inn !! c + {p} + l && st !! all
    requires p !in c && p !in l && l !! c && s in st && r <= st && s !in r
    ensures Pieces(c, l, inn, r, p, s)
  {
  }

  lemma MoveUpApart(c: Ctx, p: Ptr, pi: Item, pm: int, l: Tree, inn: Ctx, st: Tree)
    requires st.Node? && Apart(Join(inn, In(c, true, p, pi, pm, l)), st)
    ensures Apart(Join(inn, In(c, true, st.p, st.item, pm, l)), st.r)
    ensures p !in CtxAddrs(Join(inn, In(c, true, st.p, st.item, pm, l))) + Addrs(st.r)
  {
    var o, o' := In(c, true, p, pi, pm, l), In(c, true, st.p, st.item, pm, l);
    MoveUpAddrs(c, p, pi, pm, l, inn, st);
    InnerJoin(inn, o');
    assert CtxAddrs(o') == CtxAddrs(c) + {st.p} + Addrs(l);
    JoinDisj(inn, o, o');
  }

  lemma MoveUpFrame(mem: Threaded, mem': Threaded, c: Ctx, p: Ptr, pi: Item, pm: int, l: Tree, inn: Ctx, st: Tree)
    requires st.Node? && Apart(Join(inn, In(c, true, p, pi, pm, l)), st)
    requires Same'(mem, mem', mem.Keys - Touched(c, p, l, inn, st.p)) && EndOf(l) <= Addrs(l)
    ensures Same'(mem, mem', Addrs(st.r)) && Same'(mem, mem', CtxAddrs(c) - {Last(c)})
    ensures Same'(mem, mem', Inner(inn) - HoleOf(inn)) && Same'(mem, mem', Addrs(l) - EndOf(l))
  {
    var w := Touched(c, p, l, inn, st.p);
    TouchedApart(c, p, pi, pm, l, inn, st);
    Miss(mem, mem', Addrs(st.r), w);
    Miss(mem, mem', CtxAddrs(c) - {Last(c)}, w);
    Miss(mem, mem', Inner(inn) - HoleOf(inn), w);
    Miss(mem, mem', Addrs(l) - EndOf(l), w);
  }

  lemma Miss(mem: Threaded, mem': Threaded, s: set<Ptr>, w: set<Ptr>)
    requires Same'(mem, mem', mem.Keys - w) && s !! w
    ensures Same'(mem, mem', s)
  {
  }

  lemma EndSame(mem: Threaded, mem': Threaded, s: set<Ptr>, e: Ptr, q: Ptr)
    requires e in mem && e in mem' && mem'[e] == SetTo(mem, e, true, q)[e] && Same'(mem, mem', s - {e})
    ensures Same'(SetTo(mem, e, true, q), mem', s)
  {
  }

  lemma TouchedApart(c: Ctx, p: Ptr, pi: Item, pm: int, l: Tree, inn: Ctx, st: Tree)
    requires st.Node? && Apart(Join(inn, In(c, true, p, pi, pm, l)), st) && EndOf(l) <= Addrs(l)
    ensures var w := Touched(c, p, l, inn, st.p);
            && Addrs(st.r) !! w && (CtxAddrs(c) - {Last(c)}) !! w && (Addrs(l) - EndOf(l)) !! w && (Inner(inn) - HoleOf(inn)) !! w
  {
    MoveUpAddrs(c, p, pi, pm, l, inn, st);
    InnerJoin(inn, In(c, true, p, pi, pm, l));
    LastAddr(c);
    MissTouched(CtxAddrs(c), Addrs(l), Inner(inn), Addrs(st.r), p, st.p, Last(c), HoleOf(inn), EndOf(l));
  }

  lemma MissTouched(c: set<Ptr>, l: set<Ptr>, inn: set<Ptr>, r: set<Ptr>, p: Ptr, s: Ptr, q: Ptr, ip: set<Ptr>, il: set<Ptr>)
    requires Pieces(c, l, inn, r, p, s) && q in c && ip <= inn && il <= l
    ensures var w := {p, s, q} + ip + il; r !! w && (c - {q}) !! w && (l - il) !! w && (inn - ip) !! w
  {
  }

  // The writes of tavl_delete when the right child r takes p's place; e is the right end of p's left side.
  lemma NextWritten(mem: Threaded, c: Ctx, t: Tree, e: Ptr)
    requires t.Node? && t.r.Node? && t.r.l.Leaf? && TAt(mem, In(c, true, t.p, t.item, t.mark, t.l), t.r)
    requires if t.l.Node? then e == LastOf(t.l) else e == t.r.p
    ensures t.p in mem && t.r.p in mem && e in mem && Last(c) in mem
    ensures var p, r := t.p, t.r.p;
            var m1 := SetTag(SetTo(mem, r, false, mem[p].l), r, false, mem[p].lt);
            var m2 := if t.l.Node? then SetTo(m1, e, true, r) else m1;
            MovedUp'(mem, SetBalance(SetTo(m2, Last(c), Side(c), r), r, mem[p].mark), c, p, t.mark, t.l, Top, t.r)
  {
    SuccessorView'(mem, c, t, Top, t.r);
  }

  // The same when s, whose parent is r, does: unhooking it, and then the writes that make it p.
  function Unhooked(mem: Threaded, s: Ptr, r: Ptr): Threaded
    requires s in mem && r in mem
  {
    if mem[s].rt then SetTag(SetTo(mem, r, false, s), r, false, true) else SetTo(mem, r, false, mem[s].r)
  }

  function Replacing(mem: Threaded, p: Ptr, s: Ptr, e: Ptr, q: Ptr, dir: bool): Threaded
    requires s in mem && p in mem && e in mem && q in mem
  {
    var m2 := SetTo(mem, s, false, mem[p].l);
    var m3 := if !m2[p].lt then SetTag(SetTo(m2, e, true, s), s, false, false) else m2;
    var m4 := SetTag(SetTo(m3, s, true, m3[p].r), s, true, false);
    var m5 := SetTo(m4, q, dir, s);
    SetBalance(m5, s, m5[p].mark)
  }

  lemma ReplacingRecords(mem: Threaded, p: Ptr, s: Ptr, r: Ptr, e: Ptr, q: Ptr, dir: bool)
    requires p in mem && s in mem && r in mem && e in mem && q in mem
    requires p != s && p != r && p != q && s != r && s != q && r != q
    requires if mem[p].lt then e == s else e != p && e != s && e != r && e != q
    ensures var m := Replacing(Unhooked(mem, s, r), p, s, e, q, dir);
            && m[s] == mem[s].(l := mem[p].l, lt := mem[p].lt && mem[s].lt, r := mem[p].r, rt := false, mark := mem[p].mark)
            && m[r] == (if mem[s].rt then mem[r].(l := s, lt := true) else mem[r].(l := mem[s].r))
            && (!mem[p].lt ==> m[e] == SetTo(mem, e, true, s)[e]) && m[q] == SetTo(mem, q, dir, s)[q]
            && Same'(mem, m, mem.Keys - {p, s, q, r, e})
  {
  }

  lemma SuccessorWritten(mem: Threaded, c: Ctx, t: Tree, inn: Ctx, st: Tree, e: Ptr)
    requires t.Node? && LeftPath(inn) && inn.In? && st.Node? && st.l.Leaf?
    requires TAt(mem, Join(inn, In(c, true, t.p, t.item, t.mark, t.l)), st)
    requires if t.l.Node? then e == LastOf(t.l) else e == st.p
    ensures t.p in mem && st.p in mem && e in mem && Last(c) in mem && inn.p in mem
    ensures MovedUp'(mem, Replacing(Unhooked(mem, st.p, inn.p), t.p, st.p, e, Last(c), Side(c)), c, t.p, t.mark, t.l, inn, st)
  {
    SuccessorView'(mem, c, t, inn, st);
    OuterRoot'(inn, st);
    ReplacingRecords(mem, t.p, st.p, inn.p, e, Last(c), Side(c));
    SuccessorDone(mem, Replacing(Unhooked(mem, st.p, inn.p), t.p, st.p, e, Last(c), Side(c)), c, t, inn, st, e);
  }

  lemma SuccessorDone(mem: Threaded, m: Threaded, c: Ctx, t: Tree, inn: Ctx, st: Tree, e: Ptr)
    requires t.Node? && inn.In? && st.Node?
    requires t.p in mem && st.p in mem && inn.p in mem && e in mem && Last(c) in mem && m.Keys == mem.Keys
    requires if t.l.Node? then e == LastOf(t.l) && !mem[t.p].lt else e == st.p && mem[t.p].lt
    requires Leads(mem[t.p], false, Root(t.l), Nb(c, false)) && mem[t.p].mark == t.mark
    requires Leads(mem[t.p], true, Root(Plug(inn, st.r)), Nb(c, true)) && !mem[t.p].rt
    requires mem[st.p].item == st.item && mem[st.p].lt && !mem[inn.p].lt
    requires if mem[st.p].rt then st.r.Leaf? else Root(st.r) != NULL && mem[st.p].r == Root(st.r)
    requires m[st.p] == mem[st.p].(l := mem[t.p].l, lt := mem[t.p].lt && mem[st.p].lt, r := mem[t.p].r, rt := false, mark := mem[t.p].mark)
    requires m[inn.p] == (if mem[st.p].rt then mem[inn.p].(l := st.p, lt := true) else mem[inn.p].(l := mem[st.p].r))
    requires !mem[t.p].lt ==> m[e] == SetTo(mem, e, true, st.p)[e]
    requires m[Last(c)] == SetTo(mem, Last(c), Side(c), st.p)[Last(c)]
    requires Same'(mem, m, mem.Keys - {t.p, st.p, Last(c), inn.p, e})
    ensures MovedUp'(mem, m, c, t.p, t.mark, t.l, inn, st)
  {
    assert Touched(c, t.p, t.l, inn, st.p) >= {t.p, st.p, Last(c), inn.p, e};
  }

  lemma OuterRoot'(inn: Ctx, st: Tree)
    requires inn.In? && st.Node?
    ensures Root(Plug(inn, st.r)) == Root(Plug(inn, st))
  {
    OuterRoot(inn, st, st.r);
  }

  // What the relinking reads, and which records are different.
  lemma {:induction false} SuccessorView'(mem: Threaded, c: Ctx, t: Tree, inn: Ctx, st: Tree)
    requires t.Node? && LeftPath(inn) && st.Node? && st.l.Leaf? && TAt(mem, Join(inn, In(c, true, t.p, t.item, t.mark, t.l)), st)
    ensures TCells(mem, t.l, Nb(c, false), t.p) && Disj(t.l) && (t.l.Node? <==> Root(t.l) != NULL)
    ensures t.l.Node? ==> LastOf(t.l) in mem && LastOf(t.l) in Addrs(t.l)
    ensures t.p in mem && Leads(mem[t.p], false, Root(t.l), Nb(c, false)) && mem[t.p].mark == t.mark
    ensures Leads(mem[t.p], true, Root(Plug(inn, st)), Nb(c, true)) && !mem[t.p].rt
    ensures st.p in mem && st.p != NULL && mem[st.p].item == st.item && mem[st.p].lt
    ensures Leads(mem[st.p], true, Root(st.r), Nb(Join(inn, In(c, true, t.p, t.item, t.mark, t.l)), true)) && (st.r.Node? <==> Root(st.r) != NULL)
    ensures inn.In? ==> inn.p in mem && inn.p !in Addrs(t.l) && !mem[inn.p].lt
    ensures inn.In? ==> inn.p != t.p && inn.p != st.p && inn.p != Last(c)
    ensures Last(c) in mem && Last(c) !in Addrs(t.l) && st.p !in Addrs(t.l) && t.p !in Addrs(t.l)
    ensures st.p != t.p && st.p != Last(c) && t.p != Last(c)
  {
    var o := In(c, true, t.p, t.item, t.mark, t.l);
    TView(mem, Join(inn, o), st);
    MoveUpAddrs(c, t.p, t.item, t.mark, t.l, inn, st);
    TJoinUp(mem, inn, o, st);
    TUp(mem, o, Plug(inn, st));
    PlugNode(inn, st);
    TView(mem, c, Node(t.l, t.p, t.item, t.mark, Plug(inn, st)));
    if t.l.Node? {
      EndLink(mem, t.l, Nb(c, false), t.p, t.p);
    }
  }

  /* ---------- rebalancing ---------- */

  lemma NotHead'(mem: Threaded, c: Ctx, q: Ptr)
    requires TCtxCells(mem, c, q) && CtxDisj(c)
    ensures Last(c) == HEAD <==> c.Top?
  {
    if c.In? {
      HeadIn(c.up);
    }
  }

  // Only one of the two links of the parent leads to its child.
  lemma OnlyLink'(mem: Threaded, c: Ctx, t: Tree)
    requires TAt(mem, c, t) && t.Node?
    ensures Last(c) in mem && (mem[Last(c)].l == t.p <==> !Side(c))
  {
    TView(mem, c, t);
    if c.In? && c.d {
      NbView(mem, c.up, c.p, false);
      SpanRoot(mem, c.sib, true, c.p, Nb(c.up, false));
    }
  }

  lemma TRemark(mem: Threaded, c: Ctx, t: Tree, m: int)
    requires TAt(mem, c, t) && c.In?
    ensures c.p in mem && mem[c.p].mark == c.mark
    ensures TAt(SetBalance(mem, c.p, m), c.up, Mk(c.d, t, c.p, c.item, m, c.sib))
    ensures Inorder(Plug(c.up, Mk(c.d, t, c.p, c.item, m, c.sib))) == Inorder(Plug(c, t))
  {
    var y := Mk(c.d, t, c.p, c.item, c.mark, c.sib);
    TUp(mem, c, t);
    TRecolor(mem, c.up, y, m);
    SameInorder(c.up, y, y.(mark := m));
  }

  // The records after a double rotation, but for the link from above.
  ghost predicate TurnedTwice(mem: Threaded, mem': Threaded, d: bool, y: Ptr, x: Ptr, w: Ptr) {
    && x in mem && y in mem && w in mem && mem'.Keys == mem.Keys
    && mem'[y] == YAfter(mem[y], d, mem[w], w, YMark(d, mem[w].mark))
    && mem'[x] == YAfter(mem[x], !d, mem[w], w, XMark(d, mem[w].mark))
    && mem'[w] == (if d then mem[w].(l := y, r := x, lt := false, rt := false, mark := 0)
                   else mem[w].(l := x, r := y, lt := false, rt := false, mark := 0))
    && Same'(mem, mem', mem.Keys - {x, y, w})
  }

  // Memory between the two rotations.
  function HalfTurned(mem: Threaded, d: bool, y: Ptr, x: Ptr, w: Ptr, xm: int): Threaded
    requires x in mem && y in mem && w in mem
  {
    mem[x := YAfter(mem[x], !d, mem[w], w, xm)][w := XAfter(mem[w], !d, x, mem[w].mark)][y := SetTo(mem, y, d, w)[y]]
  }

  lemma TwoTurns(mem: Threaded, mem': Threaded, c: Ctx, d: bool, y: Ptr, yc: Ctx, x: Ptr, w: Ptr, m: Threaded)
    requires TurnedTwice(mem, mem', d, y, x, w) && Last(c) in mem && m == SetTo(mem', Last(c), Side(c), w)
    requires x != y && x != w && y != w && Last(c) != x && Last(c) != y && Last(c) != w && yc.In? && yc.p == y && yc.d == d
    ensures TRotated(mem, HalfTurned(mem, d, y, x, w, XMark(d, mem[w].mark)), yc, !d, x, w, XMark(d, mem[w].mark), mem[w].mark)
    ensures TRotated(HalfTurned(mem, d, y, x, w, XMark(d, mem[w].mark)), m, c, d, y, w, YMark(d, mem[w].mark), 0)
  {
  }

  lemma TSingleRotated(mem: Threaded, mem': Threaded, c: Ctx, d: bool, y: Ptr, yi: Item, xt: Tree, e: Tree)
    requires xt.Node? && TAt(mem, c, Mk(d, xt, y, yi, 2 * Sgn(d), e))
    requires TRotated(mem, mem', c, d, y, xt.p, Sgn(d) - xt.mark, xt.mark - Sgn(d))
    ensures TAt(mem', c, Single(d, y, yi, xt, e))
  {
    KidsMake(d, xt);
    TRotate(mem, mem', c, d, y, yi, 2 * Sgn(d), xt.p, xt.item, xt.mark, Sgn(d) - xt.mark, xt.mark - Sgn(d), Kid(xt, d), Kid(xt, !d), e);
  }

  lemma TDoubleRotated(mem: Threaded, mem': Threaded, c: Ctx, d: bool, y: Ptr, yi: Item, xt: Tree, e: Tree)
    requires xt.Node? && Kid(xt, !d).Node? && TAt(mem, c, Mk(d, xt, y, yi, 2 * Sgn(d), e))
    requires Last(c) in mem && TurnedTwice(mem, mem', d, y, xt.p, Kid(xt, !d).p) && mem[Kid(xt, !d).p].mark == Kid(xt, !d).mark
    ensures Last(c) in mem' && TAt(SetTo(mem', Last(c), Side(c), Kid(xt, !d).p), c, Double(d, y, yi, xt, e))
  {
    var wt := Kid(xt, !d);
    KidsMake(d, xt);
    KidsMake(d, wt);
    TDoubleAt(mem, mem', SetTo(mem', Last(c), Side(c), wt.p), c, d, y, yi, 2 * Sgn(d), xt.p, xt.item, xt.mark,
              wt.p, wt.item, wt.mark, Kid(xt, d), Kid(wt, d), Kid(wt, !d), e);
  }

  lemma TDoubleAt(mem: Threaded, mem': Threaded, m: Threaded, c: Ctx, d: bool, y: Ptr, yi: Item, ym: int, x: Ptr, xi: Item, xm: int,
                  w: Ptr, wi: Item, wm: int, a: Tree, w1: Tree, w2: Tree, e: Tree)
    requires TAt(mem, c, Mk(d, Mk(d, a, x, xi, xm, Mk(d, w1, w, wi, wm, w2)), y, yi, ym, e))
    requires TurnedTwice(mem, mem', d, y, x, w) && mem[w].mark == wm
    requires Last(c) in mem && m == SetTo(mem', Last(c), Side(c), w)
    ensures TAt(m, c, Mk(d, Mk(d, a, x, xi, XMark(d, wm), w1), w, wi, 0, Mk(d, w2, y, yi, YMark(d, wm), e)))
  {
    var ym', xm' := YMark(d, wm), XMark(d, wm);
    var xt := Mk(d, a, x, xi, xm, Mk(d, w1, w, wi, wm, w2));
    var yc := In(c, d, y, yi, ym, e);
    DoubleDistinct(c, d, y, yi, ym, x, xi, xm, w, wi, wm, a, w1, w2, e);
    TDown(mem, c, d, Mk(d, xt, y, yi, ym, e));
    TwoTurns(mem, mem', c, d, y, yc, x, w, m);
    var half := HalfTurned(mem, d, y, x, w, xm');
    TRotate(mem, half, yc, !d, x, xi, xm, w, wi, wm, xm', wm, w2, w1, a);
    TUp(half, yc, Mk(d, Mk(d, a, x, xi, xm', w1), w, wi, wm, w2));
    TRotate(half, m, c, d, y, yi, ym, w, wi, wm, ym', 0, Mk(d, a, x, xi, xm', w1), w2, e);
  }

  // What a rotation at y reads.
  lemma {:induction false} TurnView(mem: Threaded, c: Ctx, d: bool, y: Ptr, xt: Tree, yi: Item, ym: int, e: Tree)
    requires xt.Node? && Avl(xt) && Avl(e) && Height(xt) == Height(e) + 2
    requires TAt(mem, c, Mk(d, xt, y, yi, ym, e))
    ensures y in mem && Last(c) in mem && xt.p in mem && !Tag(mem[y], d) && To(mem[y], d) == xt.p && mem[xt.p].mark == xt.mark
    ensures y != xt.p && Last(c) != y && Last(c) != xt.p && (xt.mark == 0 || xt.mark == Sgn(d) || xt.mark == -Sgn(d))
    ensures xt == Mk(d, Kid(xt, d), xt.p, xt.item, xt.mark, Kid(xt, !d))
    ensures xt.mark == 0 ==> !Tag(mem[xt.p], !d)
    ensures xt.mark == -Sgn(d) ==>
              var wt := Kid(xt, !d);
              && wt.Node? && wt.p in mem && To(mem[xt.p], !d) == wt.p && !Tag(mem[xt.p], !d) && mem[wt.p].mark == wt.mark
              && wt.p != y && wt.p != xt.p && wt.p != Last(c) && -1 <= wt.mark <= 1
              && wt == Mk(d, Kid(wt, d), wt.p, wt.item, wt.mark, Kid(wt, !d))
  {
    var yt := Mk(d, xt, y, yi, ym, e);
    var yc := In(c, d, y, yi, ym, e);
    TView(mem, c, yt);
    TDown(mem, c, d, yt);
    TView(mem, yc, xt);
    assert Last(c) in CtxAddrs(yc);
    if xt.mark != Sgn(d) {
      var xc := In(yc, !d, xt.p, xt.item, xt.mark, Kid(xt, d));
      assert Kid(xt, !d).Node?;
      TDown(mem, yc, !d, xt);
      TView(mem, xc, Kid(xt, !d));
      assert Last(c) in CtxAddrs(xc) && y in CtxAddrs(xc) && xt.p in CtxAddrs(xc);
    }
  }

  lemma BalancedWrites(mem: Threaded, c: Ctx, d: bool, y: Ptr, x: Ptr)
    requires x in mem && y in mem && Last(c) in mem && x != y && x != Last(c) && y != Last(c)
    requires !Tag(mem[y], d)
    ensures var m1 := SetTo(mem, Last(c), Side(c), x);
            var m2 := SetTo(SetTo(m1, y, d, To(m1[x], !d)), x, !d, y);
            && m1[x] == mem[x]
            && (!Tag(mem[x], !d) ==> TRotated(mem, SetBalance(SetBalance(m2, x, -Sgn(d)), y, Sgn(d)), c, d, y, x, Sgn(d), -Sgn(d)))
  {
  }

  lemma LeaningWrites(mem: Threaded, c: Ctx, d: bool, y: Ptr, x: Ptr)
    requires x in mem && y in mem && Last(c) in mem && x != y && x != Last(c) && y != Last(c)
    requires !Tag(mem[y], d) && To(mem[y], d) == x
    ensures var m1 := SetTo(mem, Last(c), Side(c), x);
            var m2 := if !Tag(m1[x], !d) then SetTo(m1, y, d, To(m1[x], !d)) else SetTag(SetTag(m1, y, d, true), x, !d, false);
            TRotated(mem, SetBalance(SetBalance(SetTo(m2, x, !d, y), x, 0), y, 0), c, d, y, x, 0, 0)
  {
  }

  lemma CrossLinks(mem: Threaded, d: bool, y: Ptr, x: Ptr, w: Ptr)
    requires x in mem && y in mem && w in mem && x != y && x != w && y != w
    ensures var m1 := SetTo(SetTo(mem, x, !d, To(mem[w], d)), w, d, x);
            var m := SetTo(SetTo(m1, y, d, To(m1[w], !d)), w, !d, y);
            && m.Keys == mem.Keys && m[w].mark == mem[w].mark
            && m == mem[x := SetTo(mem, x, !d, To(mem[w], d))[x]][y := SetTo(mem, y, d, To(mem[w], !d))[y]]
                       [w := if d then mem[w].(l := y, r := x) else mem[w].(l := x, r := y)]
  {
  }

  lemma CrossMarks(mem: Threaded, d: bool, y: Ptr, x: Ptr, w: Ptr)
    requires x in mem && y in mem && w in mem && x != y && x != w && y != w && -1 <= mem[w].mark <= 1
    ensures var m1 :=
              if mem[w].mark == Sgn(d) then SetBalance(SetBalance(mem, x, 0), y, -Sgn(d))
              else if mem[w].mark == 0 then SetBalance(SetBalance(mem, x, 0), y, 0)
              else SetBalance(SetBalance(mem, x, Sgn(d)), y, 0);
            SetBalance(m1, w, 0) ==
              mem[x := mem[x].(mark := XMark(d, mem[w].mark))][y := mem[y].(mark := YMark(d, mem[w].mark))][w := mem[w].(mark := 0)]
  {
  }

  function CrossThreads(mem: Threaded, d: bool, y: Ptr, x: Ptr, w: Ptr): Threaded
    requires x in mem && y in mem && w in mem
  {
    var m1 := if Tag(mem[w], !d) then SetTag(SetTo(SetTag(mem, y, d, true), y, d, w), w, !d, false) else mem;
    if Tag(m1[w], d) then SetTag(SetTo(SetTag(m1, x, !d, true), x, !d, w), w, d, false) else m1
  }

  lemma CrossDone(mem: Threaded, mem': Threaded, d: bool, y: Ptr, x: Ptr, w: Ptr)
    requires x in mem && y in mem && w in mem && x != y && x != w && y != w
    requires !Tag(mem[y], d) && !Tag(mem[x], !d)
    requires var m1 := mem[x := SetTo(mem, x, !d, To(mem[w], d))[x]][y := SetTo(mem, y, d, To(mem[w], !d))[y]]
                          [w := if d then mem[w].(l := y, r := x) else mem[w].(l := x, r := y)];
             mem' == CrossThreads(m1[x := m1[x].(mark := XMark(d, m1[w].mark))][y := m1[y].(mark := YMark(d, m1[w].mark))][w := m1[w].(mark := 0)], d, y, x, w)
    ensures TurnedTwice(mem, mem', d, y, x, w)
  {
  }
}
