/** The traversers of avl-2.0/src/rb.c: a node, the stack of its ancestors, and the generation of
    the table for which that stack was made. */
module Traverser {
  import opened Store
  import opened Ordered
  import opened RedBlackShape
  import opened RedBlack

  ghost predicate OnPath(tree: Tree, c: Ctx, t: Tree, p: Ptr, stack: seq<Ptr>) {
    Plug(c, t) == tree && t.Node? && t.p == p && stack == Stack(c)
  }

  // The stack holds the ancestors of p in this tree.
  ghost predicate StackRight(tree: Tree, p: Ptr, stack: seq<Ptr>) {
    exists c, t :: OnPath(tree, c, t, p, stack)
  }

  /* ---------- what an equal generation number tells ---------- */

  // A state of a table, and the key of the call that led to it.
  datatype Version = Version(generation: nat, tree: Tree, key: int)

  // The states of a table after each of the calls made on it, as the contracts of RbTable have them.
  ghost predicate History(h: seq<Version>) {
    && (forall i :: 0 <= i < |h| ==> h[i].generation < ULONG)
    && forall i :: 0 < i < |h| ==> Call(h[i - 1].generation, h[i - 1].tree, h[i].generation, h[i].tree, h[i].key)
  }

  // How many calls have changed the table, as the generation number counts them.
  function Changes(h: seq<Version>): nat {
    if |h| <= 1 then 0 else Changes(h[..|h| - 1]) + (if h[|h| - 1].generation == h[|h| - 2].generation then 0 else 1)
  }

  lemma {:induction false} CountsChanges(h: seq<Version>)
    requires History(h) && h != []
    ensures h[|h| - 1].generation == (h[0].generation + Changes(h)) % ULONG
    ensures Changes(h) == 0 ==> Shape(h[|h| - 1].tree) == Shape(h[0].tree)
  {
    var w := Wraps(h);
    Remainder(h[|h| - 1].generation, w, h[0].generation + Changes(h));
    if Changes(h) == 0 {
      Quiet(h);
    }
  }

  // How often the generation number has wrapped around.
  lemma {:induction false} Wraps(h: seq<Version>) returns (w: nat)
    requires History(h) && h != []
    ensures h[|h| - 1].generation + w * ULONG == h[0].generation + Changes(h)
  {
    w := 0;
    if |h| > 1 {
      w := Wraps(h[..|h| - 1]);
      var a, b := h[|h| - 2], h[|h| - 1];
      assert Call(a.generation, a.tree, b.generation, b.tree, b.key);
      NextOf(a.generation);
      if b.generation != a.generation && a.generation + 1 == ULONG {
        w := w + 1;
      }
    }
  }

  lemma NextOf(g: nat)
    requires g < ULONG
    ensures (g + 1) % ULONG == if g + 1 == ULONG then 0 else g + 1
  {
  }

  lemma Remainder(g: nat, w: nat, sum: nat)
    requires g < ULONG && g + w * ULONG == sum
    ensures g == sum % ULONG
  {
  }

  lemma {:induction false} Quiet(h: seq<Version>)
    requires History(h) && h != [] && Changes(h) == 0
    ensures Shape(h[|h| - 1].tree) == Shape(h[0].tree)
  {
    if |h| > 1 {
      Quiet(h[..|h| - 1]);
      var a, b := h[|h| - 2], h[|h| - 1];
      assert Call(a.generation, a.tree, b.generation, b.tree, b.key);
    }
  }

  // A traverser whose generation number is still that of the table, after fewer than 2^64 changes,
  // has the right stack still.
  lemma {:induction false} StillRight(h: seq<Version>, p: Ptr, stack: seq<Ptr>)
    requires History(h) && h != [] && StackRight(h[0].tree, p, stack) && Changes(h) < ULONG
    requires h[|h| - 1].generation == h[0].generation
    ensures StackRight(h[|h| - 1].tree, p, stack)
  {
    NothingChanged(h);
    Quiet(h);
    SameShape(h[0].tree, h[|h| - 1].tree, p, stack);
  }

  lemma {:induction false} NothingChanged(h: seq<Version>)
    requires History(h) && h != [] && Changes(h) < ULONG && h[|h| - 1].generation == h[0].generation
    ensures Changes(h) == 0
  {
    var w := Wraps(h);
  }

  lemma SameShape(tree: Tree, tree': Tree, p: Ptr, stack: seq<Ptr>)
    requires Shape(tree') == Shape(tree) && StackRight(tree, p, stack)
    ensures StackRight(tree', p, stack)
  {
    var c, t :| OnPath(tree, c, t, p, stack);
    var c', t' := SamePath(tree', c, t);
    assert OnPath(tree', c', t', p, stack);
  }

  // The node p is in the table, under key k.
  ghost predicate Live(tree: Tree, p: Ptr, k: int) {
    k in MapOf(Inorder(tree)) && MapOf(Inorder(tree))[k].p == p
  }

  lemma LiveAddr(tree: Tree, p: Ptr, k: int)
    requires Live(tree, p, k)
    ensures p in Addrs(tree)
  {
    MapKeys(Inorder(tree));
    AddrsInorder(tree);
  }

  lemma {:induction false} StaysLive(h: seq<Version>, p: Ptr, k: int)
    requires History(h) && h != [] && Live(h[0].tree, p, k)
    requires forall i :: 0 < i < |h| ==> h[i].key != k
    ensures Live(h[|h| - 1].tree, p, k)
  {
    if |h| > 1 {
      var a, b := h[|h| - 2], h[|h| - 1];
      StaysLive(h[..|h| - 1], p, k);
      assert Call(a.generation, a.tree, b.generation, b.tree, b.key);
      assert k in MapOf(Inorder(a.tree)) - {b.key};
    }
  }

  // What makes a traverser with current node p usable on a table.
  ghost predicate Usable(generation: nat, tree: Tree, g: nat, p: Ptr, stack: seq<Ptr>) {
    p != NULL ==> p in Addrs(tree) && (g == generation ==> StackRight(tree, p, stack))
  }

  // A traverser that was up to date at the start, on a node under key k, is usable after any
  // calls for other keys, as long as fewer than 2^64 of them have changed the table.
  lemma {:induction false} StillUsable(h: seq<Version>, p: Ptr, k: int, stack: seq<Ptr>)
    requires History(h) && h != [] && Live(h[0].tree, p, k) && StackRight(h[0].tree, p, stack)
    requires Changes(h) < ULONG && forall i :: 0 < i < |h| ==> h[i].key != k
    ensures Usable(h[|h| - 1].generation, h[|h| - 1].tree, h[0].generation, p, stack)
  {
    StaysLive(h, p, k);
    LiveAddr(h[|h| - 1].tree, p, k);
    if h[|h| - 1].generation == h[0].generation {
      StillRight(h, p, stack);
    }
  }

  lemma {:induction false} SamePath(tree': Tree, c: Ctx, t: Tree) returns (c': Ctx, t': Tree)
    requires Shape(tree') == Shape(Plug(c, t))
    ensures Plug(c', t') == tree' && Shape(t') == Shape(t) && Stack(c') == Stack(c)
    decreases c
  {
    if c.Top? {
      return Top, tree';
    }
    var u, v := SamePath(tree', c.up, Mk(c.d, t, c.p, c.item, c.mark, c.sib));
    c', t' := In(u, c.d, v.p, v.item, v.mark, Kid(v, !c.d)), Kid(v, c.d);
  }

  /* ---------- in-order neighbours ---------- */

  // The last node of t on side d.
  function End(t: Tree, d: bool): Ptr
    requires t.Node?
  {
    if Kid(t, d).Leaf? then t.p else End(Kid(t, d), d)
  }

  // The node after, or before, the root of t in the whole tree.
  function Neighbour(c: Ctx, t: Tree, d: bool): Ptr
    requires t.Node?
  {
    if Kid(t, d).Node? then End(Kid(t, d), !d) else Nb(c, d)
  }

  lemma {:induction false} EndInOrder(t: Tree)
    requires t.Node?
    ensures Inorder(t) != [] && Inorder(t)[0].p == End(t, false) && Inorder(t)[|Inorder(t)| - 1].p == End(t, true)
  {
    if t.l.Node? {
      EndInOrder(t.l);
    }
    if t.r.Node? {
      EndInOrder(t.r);
    }
  }

  lemma {:induction false} NbInOrder(c: Ctx)
    ensures Nb(c, true) == if After(c) == [] then NULL else After(c)[0].p
    ensures Nb(c, false) == if Before(c) == [] then NULL else Before(c)[|Before(c)| - 1].p
    decreases c
  {
    if c.In? {
      NbInOrder(c.up);
    }
  }

  // Position i + 1 or i - 1 of the in-order sequence, or NULL beyond its ends.
  function At'(s: seq<Entry>, i: int): Ptr { if 0 <= i < |s| then s[i].p else NULL }

  function Beside(s: seq<Entry>, i: int, d: bool): Ptr { if d then At'(s, i + 1) else At'(s, i - 1) }

  lemma NeighbourInOrder(c: Ctx, t: Tree, d: bool) returns (i: nat)
    requires t.Node?
    ensures var s := Inorder(Plug(c, t)); i < |s| && s[i] == Entry(t.p, t.item) && Neighbour(c, t, d) == Beside(s, i, d)
  {
    PlugInorder(c, t);
    NbInOrder(c);
    i := |Before(c)| + |Inorder(t.l)|;
    if Kid(t, d).Node? {
      EndInOrder(Kid(t, d));
    }
  }

  // A node of a search tree lies on the side its key says.
  lemma TowardsNode(t: Tree, e: Entry)
    requires SearchTree(t) && t.Node? && e in Inorder(t) && e.p != t.p
    ensures e in Inorder(Kid(t, e.item.key > t.item.key)) && Kid(t, e.item.key > t.item.key).Node?
  {
  }

  // With the items the table is made for, there is room for another push.
  lemma StackFits(c: Ctx, t: Tree, count: nat)
    requires t.Node? && IsRB(Plug(c, t)) && count == |Inorder(Plug(c, t))|
    ensures count <= MAX_ITEMS ==> |Stack(c)| < RB_MAX_HEIGHT
  {
    DescentBound(c, t, Plug(c, t));
  }

  class RbTraverser {
    const table: RbTable
    var node: Ptr
    var stack: seq<Ptr>
    var generation: nat

    // The current node is in the table, and an equal generation number means a right stack.
    ghost predicate Valid()
      reads this, table
    {
      table.Valid() && Usable(table.generation, table.tree, generation, node, stack)
    }

    // Whether the stack is within the array.
    ghost predicate Fits()
      reads this, table
    {
      table.count <= MAX_ITEMS ==> |stack| < RB_MAX_HEIGHT
    }

    // rb_t_init.
    constructor (table: RbTable)
      requires table.Valid()
      ensures Valid() && this.table == table && node == NULL
    {
      this.table := table;
      node, stack, generation := NULL, [], table.generation;
    }

    // trav_refresh: searches for the current node from the root.
    method Refresh()
      requires Valid()
      modifies this
      ensures Valid() && node == old(node) && generation == table.generation
      ensures node != NULL ==> Fits()
    {
      generation := table.generation;
      if node != NULL {
        ghost var e := EntryOf(table.tree, node);
        EntryCells(table.node, table.tree);
        SortedTree(table.tree);
        stack := [];
        var i := table.node[HEAD].l;
        ghost var c, t := Top, table.tree;
        RootIn(table.node, t);
        while i != node
          invariant At(table.node, c, t) && Plug(c, t) == table.tree && t.Node? && i == t.p && stack == Stack(c)
          invariant SearchTree(t) && e in Inorder(t) && node == old(node) && generation == table.generation
          decreases t
        {
          RootIn(table.node, t);
          TowardsNode(t, e);
          StackFits(c, t, table.count);
          assert table.count <= MAX_ITEMS ==> |stack| < RB_MAX_HEIGHT;
          var d := Compare(table.node[node].item, table.node[i].item) > 0;
          Down(table.node, c, d, t);
          stack := stack + [i];
          i := Link(table.node[i], d);
          c, t := In(c, d, t.p, t.item, t.mark, Kid(t, !d)), Kid(t, d);
        }
        assert OnPath(table.tree, c, t, node, stack);
        StackFits(c, t, table.count);
      }
    }

    // rb_t_first and rb_t_last.
    method ToEnd(d: bool) returns (item: Option<Item>)
      requires table.Valid()
      modifies this
      ensures Valid() && generation == table.generation && Fits()
      ensures node == if table.tree.Leaf? then NULL else End(table.tree, d)
      ensures item == ItemAt()
    {
      stack, generation := [], table.generation;
      var x := table.node[HEAD].l;
      RootIn(table.node, table.tree);
      if x == NULL {
        node := NULL;
        return None;
      }
      x := Descend(x, d, Top, table.tree);
      node := x;
      item := Some(table.node[x].item);
    }

    ghost function ItemAt(): Option<Item>
      reads this, table
    {
      if node == NULL || node !in table.node then None else Some(table.node[node].item)
    }

    // From x down on side d, stacking the nodes passed.  The assert is the one of the C code.
    method Descend(x0: Ptr, d: bool, ghost c0: Ctx, ghost t0: Tree) returns (x: Ptr)
      requires table.Valid() && At(table.node, c0, t0) && Plug(c0, t0) == table.tree && t0.Node? && x0 == t0.p && stack == Stack(c0)
      modifies this`stack
      ensures x == End(t0, d) && x != NULL && x in table.node && x in Addrs(table.tree) && StackRight(table.tree, x, stack)
      ensures Fits()
    {
      x := x0;
      ghost var c, t := c0, t0;
      RootIn(table.node, t);
      RootIn(table.node, Kid(t, d));
      while Link(table.node[x], d) != NULL
        invariant At(table.node, c, t) && Plug(c, t) == table.tree && t.Node? && x == t.p && x in table.node && stack == Stack(c)
        invariant End(t, d) == End(t0, d) && (Link(table.node[x], d) != NULL <==> Kid(t, d).Node?)
        decreases t
      {
        StackFits(c, t, table.count);
        assert table.count <= MAX_ITEMS ==> |stack| < RB_MAX_HEIGHT;
        stack := stack + [x];
        Down(table.node, c, d, t);
        x := Link(table.node[x], d);
        c, t := In(c, d, t.p, t.item, t.mark, Kid(t, !d)), Kid(t, d);
        RootIn(table.node, t);
        RootIn(table.node, Kid(t, d));
      }
      PlugAddrs(c, t);
      Landed(c, t);
      StackFits(c, t, table.count);
      assert OnPath(table.tree, c, t, x, stack);
    }

    // rb_t_next and rb_t_prev: to the neighbour in the table as it is now.
    method Move(d: bool) returns (item: Option<Item>, ghost i: nat)
      requires Valid()
      modifies this
      ensures Valid() && generation == table.generation && item == ItemAt() && (node != NULL ==> Fits())
      ensures old(node) == NULL ==> node == if table.tree.Leaf? then NULL else End(table.tree, !d)
      ensures old(node) != NULL ==>
                var s := Inorder(table.tree);
                i < |s| && s[i].p == old(node) && node == Beside(s, i, d)
    {
      if generation != table.generation {
        Refresh();
      }
      i := 0;
      if node == NULL {
        item := ToEnd(!d);
        return;
      }
      ghost var c, t :| OnPath(table.tree, c, t, node, stack);
      Onto(table.node, c, t);
      i := NeighbourInOrder(c, t, d);
      node := Step(d, c, t);
      item := if node == NULL then None else Some(table.node[node].item);
    }

    // From the current node down and then back out, or up.
    method Step(d: bool, ghost c: Ctx, ghost t: Tree) returns (x: Ptr)
      requires table.Valid() && At(table.node, c, t) && OnPath(table.tree, c, t, node, stack)
      modifies this`stack
      ensures x == Neighbour(c, t, d) && (x != NULL ==> Fits())
      ensures x != NULL ==> x in table.node && x in Addrs(table.tree) && StackRight(table.tree, x, stack)
    {
      RootIn(table.node, t);
      RootIn(table.node, Kid(t, d));
      if Link(table.node[node], d) != NULL {
        StackFits(c, t, table.count);
        assert table.count <= MAX_ITEMS ==> |stack| < RB_MAX_HEIGHT;
        stack := stack + [node];
        Down(table.node, c, d, t);
        x := Descend(Link(table.node[node], d), !d, In(c, d, t.p, t.item, t.mark, Kid(t, !d)), Kid(t, d));
      } else {
        x := Climb(d, c, t);
      }
    }

    // The do loop: up as long as we come from side d.  NULL if that leads past the root.
    method Climb(d: bool, ghost c0: Ctx, ghost t0: Tree) returns (x: Ptr)
      requires table.Valid() && At(table.node, c0, t0) && OnPath(table.tree, c0, t0, node, stack)
      modifies this`stack
      ensures x == Nb(c0, d) && (x != NULL ==> Fits())
      ensures x != NULL ==> x in table.node && x in Addrs(table.tree) && StackRight(table.tree, x, stack)
    {
      x := node;
      ghost var c, t := c0, t0;
      while true
        invariant At(table.node, c, t) && OnPath(table.tree, c, t, x, stack) && Nb(c, d) == Nb(c0, d)
        decreases |stack|
      {
        if |stack| == 0 {
          return NULL;
        }
        var y := x;
        FromSide(table.node, c, t, d);
        x, stack := stack[|stack| - 1], stack[..|stack| - 1];
        Up(table.node, c, t);
        ghost var from := c.d;
        c, t := c.up, Mk(c.d, t, c.p, c.item, c.mark, c.sib);
        if y != Link(table.node[x], d) {
          PlugAddrs(c, t);
          Landed(c, t);
          StackFits(c, t, table.count);
          assert OnPath(table.tree, c, t, x, stack);
          return;
        }
      }
    }
  }

  // A node of the plugged tree is not the head.
  lemma Landed(c: Ctx, t: Tree)
    requires t.Node? && CtxDisj(c) && Addrs(t) !! CtxAddrs(c)
    ensures t.p != HEAD
  {
    HeadIn(c);
  }

  lemma {:induction false} Onto(mem: Memory, c: Ctx, t: Tree)
    requires At(mem, Top, Plug(c, t))
    ensures At(mem, c, t)
    decreases c
  {
    if c.In? {
      Onto(mem, c.up, Mk(c.d, t, c.p, c.item, c.mark, c.sib));
      Down(mem, c.up, c.d, Mk(c.d, t, c.p, c.item, c.mark, c.sib));
    }
  }

  lemma FromSide(mem: Memory, c: Ctx, t: Tree, d: bool)
    requires At(mem, c, t) && t.Node? && c.In?
    ensures c.p in mem && c.p != NULL && (Link(mem[c.p], d) == t.p <==> c.d == d)
  {
    Peek(mem, c, t.p);
    RootIn(mem, t);
  }

  lemma {:induction false} EntryOf(t: Tree, p: Ptr) returns (e: Entry)
    requires p in Addrs(t)
    ensures e in Inorder(t) && e.p == p
  {
    if p == t.p {
      e := Entry(t.p, t.item);
    } else if p in Addrs(t.l) {
      e := EntryOf(t.l, p);
    } else {
      e := EntryOf(t.r, p);
    }
  }
}
