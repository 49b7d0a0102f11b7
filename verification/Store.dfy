/** The memory the libavl tables live in, and the shapes that live in that memory.

    A C pointer is an address; the C heap is a map from addresses to node
    records.  Writing `x->link[1] = y` replaces the record at x.  The cast
    `(struct node *) &tree->root` of the C code is the address HEAD, whose
    `link[0]` is the root.  What a piece of memory represents is described by a
    ghost Tree, and a position inside a tree by a ghost context (a zipper), which
    is the list of ancestors that the C code keeps in its `pa`/`da` stacks. */
module Store {

  type Ptr = nat
  const NULL: Ptr := 0
  const HEAD: Ptr := 1

  // An item is found through its key; the payload is what replacing changes.
  datatype Item = Item(key: int, val: int)

  // `mark` is rb_color in a red-black node, avl_balance in an AVL node and
  // pbst_parent in a node with a parent pointer; a plain bst node ignores it.
  datatype Cell = Cell(l: Ptr, r: Ptr, item: Item, mark: int)

  type Memory = map<Ptr, Cell>

  datatype Option<T> = None | Some(value: T)

  // Generation numbers are unsigned longs.
  const ULONG := 0x1_0000_0000_0000_0000

  /* ---------- links by direction: false is link[0], true is link[1] ---------- */

  function Link(c: Cell, d: bool): Ptr { if d then c.r else c.l }

  function SetLink(mem: Memory, p: Ptr, d: bool, q: Ptr): (m: Memory)
    requires p in mem
    ensures m.Keys == mem.Keys
  {
    mem[p := if d then mem[p].(r := q) else mem[p].(l := q)]
  }

  function SetMark(mem: Memory, p: Ptr, m: int): (mem': Memory)
    requires p in mem
    ensures mem'.Keys == mem.Keys
  {
    mem[p := mem[p].(mark := m)]
  }

  /* ---------- ghost trees ---------- */

  datatype Tree = Leaf | Node(l: Tree, p: Ptr, item: Item, mark: int, r: Tree)

  // The node whose child on side d is `near` and whose other child is `far`.
  function Mk(d: bool, near: Tree, p: Ptr, item: Item, mark: int, far: Tree): Tree {
    if d then Node(far, p, item, mark, near) else Node(near, p, item, mark, far)
  }

  function Kid(t: Tree, d: bool): Tree
    requires t.Node?
  {
    if d then t.r else t.l
  }

  function Root(t: Tree): Ptr { if t.Leaf? then NULL else t.p }

  // A node and the item it holds.
  datatype Entry = Entry(p: Ptr, item: Item)

  function Inorder(t: Tree): seq<Entry> {
    if t.Leaf? then [] else Inorder(t.l) + [Entry(t.p, t.item)] + Inorder(t.r)
  }

  function Addrs(t: Tree): set<Ptr> {
    if t.Leaf? then {} else Addrs(t.l) + {t.p} + Addrs(t.r)
  }

  function Height(t: Tree): nat {
    if t.Leaf? then 0 else 1 + if Height(t.l) > Height(t.r) then Height(t.l) else Height(t.r)
  }

  function Size(t: Tree): nat {
    if t.Leaf? then 0 else Size(t.l) + 1 + Size(t.r)
  }

  // Every address is used once.
  ghost predicate Disj(t: Tree) {
    t.Node? ==>
      && t.p !in Addrs(t.l) && t.p !in Addrs(t.r)
      && Addrs(t.l) !! Addrs(t.r)
      && Disj(t.l) && Disj(t.r)
  }

  // Memory holds exactly the records of t.
  ghost predicate Cells(mem: Memory, t: Tree) {
    t.Node? ==>
      && t.p != NULL && t.p in mem
      && mem[t.p] == Cell(Root(t.l), Root(t.r), t.item, t.mark)
      && Cells(mem, t.l) && Cells(mem, t.r)
  }

  /* ---------- contexts: a tree with one subtree missing ---------- */

  // In(up, d, p, ..., sib): the hole is child d of p, whose other child is sib.
  datatype Ctx = Top | In(up: Ctx, d: bool, p: Ptr, item: Item, mark: int, sib: Tree)

  function Plug(c: Ctx, t: Tree): Tree {
    match c
    case Top => t
    case In(up, d, p, item, mark, sib) => Plug(up, Mk(d, t, p, item, mark, sib))
  }

  // The innermost stack entry, pa[k - 1] and da[k - 1].
  function Last(c: Ctx): Ptr { if c.Top? then HEAD else c.p }

  function Side(c: Ctx): bool { c.In? && c.d }

  // The contents of the C arrays pa[0..k] and da[0..k].
  function Pa(c: Ctx): (s: seq<Ptr>)
    ensures |s| == Depth(c) + 1 && s[Depth(c)] == Last(c)
  {
    if c.Top? then [HEAD] else Pa(c.up) + [c.p]
  }

  function Da(c: Ctx): (s: seq<bool>)
    ensures |s| == Depth(c) + 1 && s[Depth(c)] == Side(c)
  {
    if c.Top? then [false] else Da(c.up) + [c.d]
  }

  function Depth(c: Ctx): nat { if c.Top? then 0 else 1 + Depth(c.up) }

  // The ancestors of the hole, outermost first: what a traverser keeps on its stack.
  function Stack(c: Ctx): (s: seq<Ptr>)
    ensures |s| == Depth(c)
  {
    if c.Top? then [] else Stack(c.up) + [c.p]
  }

  lemma PaTop(c: Ctx)
    ensures Pa(c)[|Pa(c)| - 1] == Last(c) && Da(c)[|Da(c)| - 1] == Side(c)
    ensures c.In? ==> |Pa(c)| >= 2 && Pa(c)[|Pa(c)| - 2] == Last(c.up) && Da(c)[|Da(c)| - 2] == Side(c.up)
    ensures c.In? ==> Pa(c)[..|Pa(c)| - 1] == Pa(c.up) && Da(c)[..|Da(c)| - 1] == Da(c.up)
    ensures c.In? && c.up.In? ==> |Pa(c)| >= 3 && Pa(c)[|Pa(c)| - 3] == Last(c.up.up) && Da(c)[|Da(c)| - 3] == Side(c.up.up)
    ensures c.In? && c.up.In? ==> Pa(c)[..|Pa(c)| - 2] == Pa(c.up.up) && Da(c)[..|Da(c)| - 2] == Da(c.up.up)
  {
  }

  function CtxAddrs(c: Ctx): set<Ptr> {
    if c.Top? then {HEAD} else CtxAddrs(c.up) + {c.p} + Addrs(c.sib)
  }

  // The entries in order before and after the hole.
  function Before(c: Ctx): seq<Entry> {
    if c.Top? then [] else if c.d then Before(c.up) + (Inorder(c.sib) + [Entry(c.p, c.item)]) else Before(c.up)
  }

  function After(c: Ctx): seq<Entry> {
    if c.Top? then [] else if c.d then After(c.up) else ([Entry(c.p, c.item)] + Inorder(c.sib)) + After(c.up)
  }

  // The in-order neighbour, on side d, of whatever is in the hole.
  function Nb(c: Ctx, d: bool): Ptr decreases c {
    if c.Top? then NULL else if c.d == d then Nb(c.up, d) else c.p
  }

  ghost predicate CtxDisj(c: Ctx) {
    c.In? ==>
      && c.p !in CtxAddrs(c.up) && c.p !in Addrs(c.sib)
      && Addrs(c.sib) !! CtxAddrs(c.up)
      && Disj(c.sib) && CtxDisj(c.up)
  }

  // Memory holds the records of c around a hole that is linked to q.
  ghost predicate CtxCells(mem: Memory, c: Ctx, q: Ptr)
    decreases c
  {
    match c
    case Top => HEAD in mem && mem[HEAD].l == q
    case In(up, d, p, item, mark, sib) =>
      && p != NULL && p in mem
      && mem[p] == (if d then Cell(Root(sib), q, item, mark) else Cell(q, Root(sib), item, mark))
      && Cells(mem, sib)
      && CtxCells(mem, up, p)
  }

  // Memory represents Plug(c, t), and no record is shared.
  ghost predicate At(mem: Memory, c: Ctx, t: Tree) {
    && Cells(mem, t) && CtxCells(mem, c, Root(t))
    && Disj(t) && CtxDisj(c) && Addrs(t) !! CtxAddrs(c)
  }

  /* ---------- moving the focus ---------- */

  lemma Down(mem: Memory, c: Ctx, d: bool, t: Tree)
    requires At(mem, c, t) && t.Node?
    ensures At(mem, In(c, d, t.p, t.item, t.mark, Kid(t, !d)), Kid(t, d))
  {
  }

  lemma Up(mem: Memory, c: Ctx, t: Tree)
    requires At(mem, c, t) && c.In?
    ensures At(mem, c.up, Mk(c.d, t, c.p, c.item, c.mark, c.sib))
  {
  }

  lemma Regroup<T>(a: seq<T>, b: seq<T>, c: seq<T>, e: seq<T>)
    ensures (a + b) + c + e == a + (b + c) + e
  {
  }

  lemma Regroup'<T>(a: seq<T>, b: seq<T>, c: seq<T>, d: seq<T>, e: seq<T>)
    ensures a + b + ((c + d) + e) == a + (b + c + d) + e
  {
  }

  lemma {:induction false} PlugInorder(c: Ctx, t: Tree)
    ensures Inorder(Plug(c, t)) == Before(c) + Inorder(t) + After(c)
    decreases c
  {
    if c.In? {
      PlugInorder(c.up, Mk(c.d, t, c.p, c.item, c.mark, c.sib));
      if c.d {
        Regroup(Before(c.up), Inorder(c.sib) + [Entry(c.p, c.item)], Inorder(t), After(c.up));
      } else {
        Regroup'(Before(c.up), Inorder(t), [Entry(c.p, c.item)], Inorder(c.sib), After(c.up));
      }
    }
  }

  lemma {:induction false} PlugAt(mem: Memory, c: Ctx, t: Tree)
    requires At(mem, c, t)
    ensures At(mem, Top, Plug(c, t))
    decreases c
  {
    if c.In? {
      Up(mem, c, t);
      PlugAt(mem, c.up, Mk(c.d, t, c.p, c.item, c.mark, c.sib));
    }
  }

  lemma {:induction false} PlugHeight(c: Ctx, t: Tree)
    ensures Depth(c) + Height(t) <= Height(Plug(c, t))
    decreases c
  {
    if c.In? {
      PlugHeight(c.up, Mk(c.d, t, c.p, c.item, c.mark, c.sib));
    }
  }

  lemma {:induction false} SizeInorder(t: Tree)
    ensures Size(t) == |Inorder(t)|
  {
    if t.Node? {
      SizeInorder(t.l);
      SizeInorder(t.r);
    }
  }

  // The nodes of a tree can be read off its in-order sequence.
  function Nodes(s: seq<Entry>): set<Ptr> { set e | e in s :: e.p }

  lemma NodesOne(e: Entry)
    ensures Nodes([e]) == {e.p}
  {
    assert e in [e];
  }

  lemma NodesConcat(a: seq<Entry>, b: seq<Entry>)
    ensures Nodes(a + b) == Nodes(a) + Nodes(b)
  {
    forall p | p in Nodes(a) + Nodes(b) ensures p in Nodes(a + b) {
      var e :| (e in a || e in b) && e.p == p;
      assert e in a + b;
    }
  }

  lemma {:induction false} AddrsInorder(t: Tree)
    ensures Addrs(t) == Nodes(Inorder(t))
  {
    if t.Node? {
      AddrsInorder(t.l);
      AddrsInorder(t.r);
      var e := [Entry(t.p, t.item)];
      NodesOne(e[0]);
      NodesConcat(Inorder(t.l), e);
      NodesConcat(Inorder(t.l) + e, Inorder(t.r));
    }
  }

  lemma {:induction false} PlugNode(c: Ctx, t: Tree)
    requires t.Node?
    ensures Plug(c, t).Node?
    decreases c
  {
    if c.In? {
      PlugNode(c.up, Mk(c.d, t, c.p, c.item, c.mark, c.sib));
    }
  }

  lemma SameInorder(c: Ctx, t: Tree, t': Tree)
    requires Inorder(t) == Inorder(t')
    ensures Inorder(Plug(c, t)) == Inorder(Plug(c, t'))
  {
    PlugInorder(c, t);
    PlugInorder(c, t');
  }

  // A push beyond an overwritten slot.
  lemma PushUpdate<T>(s: seq<T>, j: nat, v: T, x: T)
    requires j < |s|
    ensures (s + [x])[j := v] == s[j := v] + [x]
  {
  }

  /* ---------- frames: what a write does not touch ---------- */

  ghost predicate Same(mem: Memory, mem': Memory, s: set<Ptr>) {
    forall a :: a in s && a in mem ==> a in mem' && mem'[a] == mem[a]
  }

  lemma {:induction false} CellsIn(mem: Memory, t: Tree)
    requires Cells(mem, t)
    ensures Addrs(t) <= mem.Keys && NULL !in Addrs(t)
  {
    if t.Node? {
      CellsIn(mem, t.l);
      CellsIn(mem, t.r);
    }
  }

  lemma {:induction false} CtxCellsIn(mem: Memory, c: Ctx, q: Ptr)
    requires CtxCells(mem, c, q)
    ensures CtxAddrs(c) <= mem.Keys && NULL !in CtxAddrs(c)
    decreases c
  {
    if c.In? {
      CellsIn(mem, c.sib);
      CtxCellsIn(mem, c.up, c.p);
    }
  }

  lemma {:induction false} FrameTree(mem: Memory, mem': Memory, t: Tree)
    requires Cells(mem, t) && Same(mem, mem', Addrs(t))
    ensures Cells(mem', t)
  {
    if t.Node? {
      FrameTree(mem, mem', t.l);
      FrameTree(mem, mem', t.r);
    }
  }

  lemma {:induction false} FrameCtx(mem: Memory, mem': Memory, c: Ctx, q: Ptr)
    requires CtxCells(mem, c, q) && Same(mem, mem', CtxAddrs(c))
    ensures CtxCells(mem', c, q)
    decreases c
  {
    if c.In? {
      FrameTree(mem, mem', c.sib);
      FrameCtx(mem, mem', c.up, c.p);
    }
  }

  lemma {:induction false} PlugAddrs(c: Ctx, t: Tree)
    ensures Addrs(Plug(c, t)) + {HEAD} == CtxAddrs(c) + Addrs(t)
    decreases c
  {
    if c.In? {
      var t' := Mk(c.d, t, c.p, c.item, c.mark, c.sib);
      MkTree(c.d, t, c.p, c.item, c.mark, c.sib);
      PlugAddrs(c.up, t');
    }
  }

  lemma FrameAt(mem: Memory, mem': Memory, c: Ctx, t: Tree)
    requires At(mem, c, t) && Same(mem, mem', Addrs(t) + CtxAddrs(c))
    ensures At(mem', c, t)
  {
    FrameTree(mem, mem', t);
    FrameCtx(mem, mem', c, Root(t));
  }

  // Redirecting the link that leads into the hole.
  lemma Relink(mem: Memory, mem': Memory, c: Ctx, q: Ptr, q': Ptr)
    requires CtxCells(mem, c, q) && CtxDisj(c)
    requires Same(mem, mem', CtxAddrs(c) - {Last(c)})
    requires Last(c) in mem && Last(c) in mem'
    requires mem'[Last(c)] == SetLink(mem, Last(c), Side(c), q')[Last(c)]
    ensures CtxCells(mem', c, q')
  {
    if c.In? {
      FrameTree(mem, mem', c.sib);
      FrameCtx(mem, mem', c.up, c.p);
    }
  }

  lemma LastIn(mem: Memory, c: Ctx, q: Ptr)
    requires CtxCells(mem, c, q)
    ensures Last(c) in mem && Link(mem[Last(c)], Side(c)) == q && Last(c) in CtxAddrs(c)
  {
  }

  lemma RootIn(mem: Memory, t: Tree)
    requires Cells(mem, t)
    ensures t.Node? <==> Root(t) != NULL
    ensures t.Node? ==> t.p in mem && mem[t.p] == Cell(Root(t.l), Root(t.r), t.item, t.mark)
  {
  }

  lemma {:induction false} HeadIn(c: Ctx)
    ensures HEAD in CtxAddrs(c)
    decreases c
  {
    if c.In? {
      HeadIn(c.up);
    }
  }

  // What memory shows of the innermost stack entry and of the hole's sibling.
  lemma Peek(mem: Memory, c: Ctx, q: Ptr)
    requires CtxCells(mem, c, q) && c.In?
    ensures c.p in mem && mem[c.p].mark == c.mark && mem[c.p].item == c.item
    ensures Link(mem[c.p], c.d) == q && Link(mem[c.p], !c.d) == Root(c.sib)
    ensures CtxCells(mem, c.up, c.p) && Cells(mem, c.sib)
    ensures c.sib.Node? <==> Root(c.sib) != NULL
    ensures c.sib.Node? ==> c.sib.p in mem && mem[c.sib.p].mark == c.sib.mark
  {
  }

  /* ---------- the two writes every rebalancing is made of ---------- */

  lemma Recolor(mem: Memory, c: Ctx, t: Tree, m: int)
    requires At(mem, c, t) && t.Node?
    ensures At(SetMark(mem, t.p, m), c, t.(mark := m))
  {
    var mem' := SetMark(mem, t.p, m);
    FrameTree(mem, mem', t.l);
    FrameTree(mem, mem', t.r);
    FrameCtx(mem, mem', c, t.p);
  }

  // Child y of x, on side d, becomes the parent of x.
  function Rotated(mem: Memory, c: Ctx, d: bool, x: Ptr, y: Ptr): Memory
    requires x in mem && y in mem && Last(c) in mem
  {
    SetLink(SetLink(SetLink(mem, x, d, Link(mem[y], !d)), y, !d, x), Last(c), Side(c), y)
  }

  // The written record by record.
  lemma RotatedCells(mem: Memory, c: Ctx, d: bool, x: Ptr, y: Ptr)
    requires x in mem && y in mem && Last(c) in mem && x != y && Last(c) != x && Last(c) != y
    ensures var m := Rotated(mem, c, d, x, y);
            && m.Keys == mem.Keys
            && m[x] == SetLink(mem, x, d, Link(mem[y], !d))[x]
            && m[y] == SetLink(mem, y, !d, x)[y]
            && m[Last(c)] == SetLink(mem, Last(c), Side(c), y)[Last(c)]
            && forall a :: a in mem && a != x && a != y && a != Last(c) ==> m[a] == mem[a]
  {
  }

  lemma MkTree(d: bool, a: Tree, p: Ptr, item: Item, mark: int, b: Tree)
    ensures Addrs(Mk(d, a, p, item, mark, b)) == Addrs(a) + {p} + Addrs(b)
    ensures Disj(Mk(d, a, p, item, mark, b)) <==>
            p !in Addrs(a) && p !in Addrs(b) && Addrs(a) !! Addrs(b) && Disj(a) && Disj(b)
  {
  }

  lemma MkInorder(d: bool, a: Tree, a': Tree, p: Ptr, item: Item, m: int, m': int, b: Tree, b': Tree)
    requires Inorder(a) == Inorder(a') && Inorder(b) == Inorder(b')
    ensures Inorder(Mk(d, a, p, item, m, b)) == Inorder(Mk(d, a', p, item, m', b'))
  {
  }

  lemma RotateInorder(d: bool, x: Ptr, xi: Item, xm: int, y: Ptr, yi: Item, ym: int, a: Tree, b: Tree, e: Tree)
    ensures Inorder(Mk(d, Mk(d, a, y, yi, ym, b), x, xi, xm, e)) ==
            Inorder(Mk(d, a, y, yi, ym, Mk(d, b, x, xi, xm, e)))
  {
    if d {
      Regroup(Inorder(e), [Entry(x, xi)], Inorder(b), [Entry(y, yi)] + Inorder(a));
    } else {
      Regroup(Inorder(a), [Entry(y, yi)], Inorder(b), [Entry(x, xi)] + Inorder(e));
    }
  }

  lemma RotateAddrs(d: bool, x: Ptr, xi: Item, xm: int, y: Ptr, yi: Item, ym: int, a: Tree, b: Tree, e: Tree)
    requires Disj(Mk(d, Mk(d, a, y, yi, ym, b), x, xi, xm, e))
    ensures Disj(Mk(d, a, y, yi, ym, Mk(d, b, x, xi, xm, e)))
    ensures Addrs(Mk(d, Mk(d, a, y, yi, ym, b), x, xi, xm, e)) == Addrs(a) + Addrs(b) + Addrs(e) + {x, y}
    ensures Addrs(Mk(d, a, y, yi, ym, Mk(d, b, x, xi, xm, e))) == Addrs(a) + Addrs(b) + Addrs(e) + {x, y}
    ensures x != y && x !in Addrs(a) + Addrs(b) + Addrs(e) && y !in Addrs(a) + Addrs(b) + Addrs(e)
  {
    MkTree(d, a, y, yi, ym, b);
    MkTree(d, Mk(d, a, y, yi, ym, b), x, xi, xm, e);
    MkTree(d, b, x, xi, xm, e);
    MkTree(d, a, y, yi, ym, Mk(d, b, x, xi, xm, e));
  }

  lemma Rotate(mem: Memory, c: Ctx, d: bool, x: Ptr, xi: Item, xm: int, y: Ptr, yi: Item, ym: int,
               a: Tree, b: Tree, e: Tree)
    requires At(mem, c, Mk(d, Mk(d, a, y, yi, ym, b), x, xi, xm, e))
    ensures x in mem && y in mem && Last(c) in mem
    ensures At(Rotated(mem, c, d, x, y), c, Mk(d, a, y, yi, ym, Mk(d, b, x, xi, xm, e)))
  {
    var low, low' := Mk(d, a, y, yi, ym, b), Mk(d, b, x, xi, xm, e);
    assert Cells(mem, low);
    LastIn(mem, c, x);
    RotateAddrs(d, x, xi, xm, y, yi, ym, a, b, e);
    RotatedCells(mem, c, d, x, y);
    var mem' := Rotated(mem, c, d, x, y);
    FrameTree(mem, mem', a);
    FrameTree(mem, mem', b);
    FrameTree(mem, mem', e);
    Relink(mem, mem', c, x, y);
    assert Cells(mem', low');
  }

  // A freshly allocated node fills an empty hole.
  lemma Attach(mem: Memory, c: Ctx, n: Ptr, x: Item, m: int)
    requires At(mem, c, Leaf) && n != NULL && n !in mem
    ensures Last(c) in mem
    ensures var mem' := SetLink(mem, Last(c), Side(c), n)[n := Cell(NULL, NULL, x, m)];
            At(mem', c, Node(Leaf, n, x, m, Leaf)) && mem'.Keys == mem.Keys + {n}
  {
    LastIn(mem, c, NULL);
    CtxCellsIn(mem, c, NULL);
    var mem' := SetLink(mem, Last(c), Side(c), n)[n := Cell(NULL, NULL, x, m)];
    Relink(mem, mem', c, NULL, n);
  }

  // Writing the data field of a node.
  lemma StoreData(mem: Memory, c: Ctx, t: Tree, x: Item)
    requires At(mem, c, t) && t.Node?
    ensures t.p in mem
    ensures At(mem[t.p := mem[t.p].(item := x)], c, t.(item := x))
  {
    var mem' := mem[t.p := mem[t.p].(item := x)];
    FrameTree(mem, mem', t.l);
    FrameTree(mem, mem', t.r);
    FrameCtx(mem, mem', c, t.p);
  }

  // Every entry of the in-order sequence is a record in memory.
  lemma {:induction false} EntryCells(mem: Memory, t: Tree)
    requires Cells(mem, t)
    ensures forall e :: e in Inorder(t) ==> e.p != NULL && e.p in mem && mem[e.p].item == e.item
  {
    if t.Node? {
      EntryCells(mem, t.l);
      EntryCells(mem, t.r);
    }
  }

  // A node that is no longer part of the tree can be freed.
  lemma Forgotten(mem: Memory, c: Ctx, x: Tree, tree: Tree, p: Ptr)
    requires p !in CtxAddrs(c) + Addrs(x) && Inorder(tree) == Inorder(Plug(c, x)) && At(mem, Top, tree)
    ensures p != HEAD && p !in Addrs(tree) && At(mem - {p}, Top, tree)
  {
    HeadIn(c);
    PlugAddrs(c, x);
    AddrsInorder(tree);
    AddrsInorder(Plug(c, x));
    FrameAt(mem, mem - {p}, Top, tree);
  }
}
