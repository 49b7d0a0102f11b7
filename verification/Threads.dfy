/** Threaded trees: a link that has no child to lead to leads to the in-order neighbour on its
    side instead, and a tag beside it says which of the two it is.  The shapes are those of
    Store; only the records differ. */
module Threads {
  import opened Store
  import opened AvlShape

  // lt and rt are the tags: true is THREAD, false is CHILD.
  datatype Cell' = Cell'(l: Ptr, r: Ptr, lt: bool, rt: bool, item: Item, mark: int)

  type Threaded = map<Ptr, Cell'>

  function To(x: Cell', d: bool): Ptr { if d then x.r else x.l }

  function Tag(x: Cell', d: bool): bool { if d then x.rt else x.lt }

  function SetTo(mem: Threaded, p: Ptr, d: bool, q: Ptr): (m: Threaded)
    requires p in mem
    ensures m.Keys == mem.Keys
  {
    mem[p := if d then mem[p].(r := q) else mem[p].(l := q)]
  }

  function SetTag(mem: Threaded, p: Ptr, d: bool, tag: bool): (m: Threaded)
    requires p in mem
    ensures m.Keys == mem.Keys
  {
    mem[p := if d then mem[p].(rt := tag) else mem[p].(lt := tag)]
  }

  function SetBalance(mem: Threaded, p: Ptr, b: int): (m: Threaded)
    requires p in mem
    ensures m.Keys == mem.Keys
  {
    mem[p := mem[p].(mark := b)]
  }

  // The link of record x on side d leads to the child q, or is a thread to nb if there is none.
  predicate Leads(x: Cell', d: bool, q: Ptr, nb: Ptr) {
    if q == NULL then Tag(x, d) && To(x, d) == nb else !Tag(x, d) && To(x, d) == q
  }

  // Memory holds the records of t, whose neighbours in order are a and b.
  ghost predicate TCells(mem: Threaded, t: Tree, a: Ptr, b: Ptr) {
    t.Node? ==>
      && t.p != NULL && t.p in mem && mem[t.p].item == t.item && mem[t.p].mark == t.mark
      && Leads(mem[t.p], false, Root(t.l), a) && Leads(mem[t.p], true, Root(t.r), b)
      && TCells(mem, t.l, a, t.p) && TCells(mem, t.r, t.p, b)
  }

  // The same, seen from side d: o is the neighbour on that side and i the one on the other.
  ghost predicate Span(mem: Threaded, t: Tree, d: bool, o: Ptr, i: Ptr) {
    if d then TCells(mem, t, i, o) else TCells(mem, t, o, i)
  }

  // Memory holds the records around a hole that is filled by q.  The tag that tavl_delete reads
  // in HEAD is a byte of another field of the table, and that byte is never THREAD.
  ghost predicate TCtxCells(mem: Threaded, c: Ctx, q: Ptr)
    decreases c
  {
    if c.Top? then HEAD in mem && mem[HEAD].l == q && !mem[HEAD].lt
    else
      && c.p != NULL && c.p in mem && mem[c.p].item == c.item && mem[c.p].mark == c.mark
      && Leads(mem[c.p], c.d, q, Nb(c, c.d)) && Leads(mem[c.p], !c.d, Root(c.sib), Nb(c.up, !c.d))
      && Span(mem, c.sib, c.d, c.p, Nb(c.up, !c.d))
      && TCtxCells(mem, c.up, c.p)
  }

  ghost predicate Apart(c: Ctx, t: Tree) { Disj(t) && CtxDisj(c) && Addrs(t) !! CtxAddrs(c) }

  // Memory represents Plug(c, t), every thread is exact, and no record is shared.
  ghost predicate TAt(mem: Threaded, c: Ctx, t: Tree) {
    TCells(mem, t, Nb(c, false), Nb(c, true)) && TCtxCells(mem, c, Root(t)) && Apart(c, t)
  }

  /* ---------- moving the focus ---------- */

  lemma MkSpan(mem: Threaded, d: bool, near: Tree, p: Ptr, item: Item, mark: int, far: Tree, o: Ptr, i: Ptr)
    ensures Span(mem, Mk(d, near, p, item, mark, far), d, o, i) <==>
              && p != NULL && p in mem && mem[p].item == item && mem[p].mark == mark
              && Leads(mem[p], d, Root(near), o) && Leads(mem[p], !d, Root(far), i)
              && Span(mem, near, d, o, p) && Span(mem, far, d, p, i)
  {
  }

  lemma SpanRoot(mem: Threaded, t: Tree, d: bool, o: Ptr, i: Ptr)
    requires Span(mem, t, d, o, i)
    ensures t.Node? <==> Root(t) != NULL
  {
  }

  lemma TDown(mem: Threaded, c: Ctx, d: bool, t: Tree)
    requires TAt(mem, c, t) && t.Node?
    ensures TAt(mem, In(c, d, t.p, t.item, t.mark, Kid(t, !d)), Kid(t, d))
  {
  }

  lemma TUp(mem: Threaded, c: Ctx, t: Tree)
    requires TAt(mem, c, t) && c.In?
    ensures TAt(mem, c.up, Mk(c.d, t, c.p, c.item, c.mark, c.sib))
  {
  }

  lemma {:induction false} TPlugAt(mem: Threaded, c: Ctx, t: Tree)
    requires TAt(mem, c, t)
    ensures TAt(mem, Top, Plug(c, t))
    decreases c
  {
    if c.In? {
      TUp(mem, c, t);
      TPlugAt(mem, c.up, Mk(c.d, t, c.p, c.item, c.mark, c.sib));
    }
  }

  // What memory shows of the root of t and of the record above it.
  lemma TView(mem: Threaded, c: Ctx, t: Tree)
    requires TAt(mem, c, t)
    ensures t.Node? <==> Root(t) != NULL
    ensures t.Node? ==> && t.p in mem && mem[t.p].item == t.item && mem[t.p].mark == t.mark
                        && Leads(mem[t.p], false, Root(t.l), Nb(c, false)) && Leads(mem[t.p], true, Root(t.r), Nb(c, true))
                        && (t.l.Node? <==> Root(t.l) != NULL) && (t.r.Node? <==> Root(t.r) != NULL)
    ensures Last(c) in mem && Last(c) in CtxAddrs(c) && !(t.Node? && t.p == Last(c))
    ensures c.Top? ==> mem[HEAD].l == Root(t) && !mem[HEAD].lt
    ensures c.In? ==> Leads(mem[c.p], c.d, Root(t), Nb(c, c.d)) && mem[c.p].mark == c.mark && c.p != HEAD
  {
    if c.In? {
      HeadIn(c.up);
    }
    SpanRoot(mem, t, false, Nb(c, false), Nb(c, true));
    if t.Node? {
      SpanRoot(mem, t.l, false, Nb(c, false), t.p);
      SpanRoot(mem, t.r, false, t.p, Nb(c, true));
    }
  }

  /* ---------- frames ---------- */

  ghost predicate Same'(mem: Threaded, mem': Threaded, s: set<Ptr>) {
    forall a :: a in s && a in mem ==> a in mem' && mem'[a] == mem[a]
  }

  lemma {:induction false} TFrameTree(mem: Threaded, mem': Threaded, t: Tree, a: Ptr, b: Ptr)
    requires TCells(mem, t, a, b) && Same'(mem, mem', Addrs(t))
    ensures TCells(mem', t, a, b)
  {
    if t.Node? {
      TFrameTree(mem, mem', t.l, a, t.p);
      TFrameTree(mem, mem', t.r, t.p, b);
    }
  }

  lemma TFrameSpan(mem: Threaded, mem': Threaded, t: Tree, d: bool, o: Ptr, i: Ptr)
    requires Span(mem, t, d, o, i) && Same'(mem, mem', Addrs(t))
    ensures Span(mem', t, d, o, i)
  {
    TFrameTree(mem, mem', t, if d then i else o, if d then o else i);
  }

  lemma {:induction false} TFrameCtx(mem: Threaded, mem': Threaded, c: Ctx, q: Ptr)
    requires TCtxCells(mem, c, q) && Same'(mem, mem', CtxAddrs(c))
    ensures TCtxCells(mem', c, q)
    decreases c
  {
    if c.In? {
      TFrameSpan(mem, mem', c.sib, c.d, c.p, Nb(c.up, !c.d));
      TFrameCtx(mem, mem', c.up, c.p);
    }
  }

  // Record x' is x but for the link on side d.
  predicate OtherSide(x: Cell', x': Cell', d: bool) {
    x'.item == x.item && x'.mark == x.mark && To(x', !d) == To(x, !d) && Tag(x', !d) == Tag(x, !d)
  }

  // The record above the hole leads to q, or threads past the hole.
  predicate Hangs(x: Cell', c: Ctx, q: Ptr) {
    if c.Top? then x.l == q && !x.lt else Leads(x, c.d, q, Nb(c, c.d))
  }

  lemma TRelink(mem: Threaded, mem': Threaded, c: Ctx, q: Ptr, q': Ptr)
    requires TCtxCells(mem, c, q) && CtxDisj(c) && Same'(mem, mem', CtxAddrs(c) - {Last(c)})
    requires Last(c) in mem && Last(c) in mem' && Hangs(mem'[Last(c)], c, q')
    requires OtherSide(mem[Last(c)], mem'[Last(c)], Side(c))
    ensures TCtxCells(mem', c, q')
  {
    if c.In? {
      TFrameSpan(mem, mem', c.sib, c.d, c.p, Nb(c.up, !c.d));
      TFrameCtx(mem, mem', c.up, c.p);
    }
  }

  lemma TRecolor(mem: Threaded, c: Ctx, t: Tree, m: int)
    requires TAt(mem, c, t) && t.Node?
    ensures t.p in mem && TAt(SetBalance(mem, t.p, m), c, t.(mark := m))
  {
    var mem' := SetBalance(mem, t.p, m);
    TFrameTree(mem, mem', t.l, Nb(c, false), t.p);
    TFrameTree(mem, mem', t.r, t.p, Nb(c, true));
    TFrameCtx(mem, mem', c, t.p);
  }

  // Every thread leads to the neighbour in order, and past both ends to a and b.
  lemma {:induction false} ThreadsExact(mem: Threaded, t: Tree, a: Ptr, b: Ptr, i: nat)
    requires TCells(mem, t, a, b) && i < |Inorder(t)|
    ensures var p := Inorder(t)[i].p;
            && p in mem && mem[p].item == Inorder(t)[i].item
            && (mem[p].lt ==> mem[p].l == if i > 0 then Inorder(t)[i - 1].p else a)
            && (mem[p].rt ==> mem[p].r == if i + 1 < |Inorder(t)| then Inorder(t)[i + 1].p else b)
  {
    var k := |Inorder(t.l)|;
    if i < k {
      ThreadsExact(mem, t.l, a, t.p, i);
    } else if i > k {
      ThreadsExact(mem, t.r, t.p, b, i - k - 1);
    }
    SpanRoot(mem, t.l, false, a, t.p);
    SpanRoot(mem, t.r, false, t.p, b);
  }

  /* ---------- rotations: the child x of y, on side d, moves up ---------- */

  // What y's record becomes.  Where x has a thread back to y, y gets one to x.
  function YAfter(y: Cell', d: bool, x: Cell', xp: Ptr, ym: int): Cell' {
    var q := if Tag(x, !d) then xp else To(x, !d);
    if d then y.(r := q, rt := x.lt, mark := ym) else y.(l := q, lt := x.rt, mark := ym)
  }

  function XAfter(x: Cell', d: bool, yp: Ptr, xm: int): Cell' {
    if d then x.(l := yp, lt := false, mark := xm) else x.(r := yp, rt := false, mark := xm)
  }

  ghost predicate TRotated(mem: Threaded, mem': Threaded, c: Ctx, d: bool, y: Ptr, x: Ptr, ym: int, xm: int) {
    && x in mem && y in mem && Last(c) in mem && mem'.Keys == mem.Keys
    && mem'[y] == YAfter(mem[y], d, mem[x], x, ym) && mem'[x] == XAfter(mem[x], d, y, xm)
    && mem'[Last(c)] == SetTo(mem, Last(c), Side(c), x)[Last(c)]
    && forall a :: a in mem && a != x && a != y && a != Last(c) ==> mem'[a] == mem[a]
  }

  lemma TRotateCells(mem: Threaded, mem': Threaded, d: bool, y: Ptr, yi: Item, ym: int, x: Ptr, xi: Item, xm: int,
                     ym': int, xm': int, a: Tree, b: Tree, e: Tree, o: Ptr, i: Ptr)
    requires Span(mem, Mk(d, Mk(d, a, x, xi, xm, b), y, yi, ym, e), d, o, i)
    requires y in mem && x in mem && y in mem' && x in mem'
    requires mem'[y] == YAfter(mem[y], d, mem[x], x, ym') && mem'[x] == XAfter(mem[x], d, y, xm')
    requires Same'(mem, mem', Addrs(a) + Addrs(b) + Addrs(e))
    ensures Span(mem', Mk(d, a, x, xi, xm', Mk(d, b, y, yi, ym', e)), d, o, i)
  {
    var low, low' := Mk(d, a, x, xi, xm, b), Mk(d, b, y, yi, ym', e);
    MkSpan(mem, d, low, y, yi, ym, e, o, i);
    MkSpan(mem, d, a, x, xi, xm, b, o, y);
    SpanRoot(mem, b, d, x, y);
    TFrameSpan(mem, mem', a, d, o, x);
    TFrameSpan(mem, mem', b, d, x, y);
    TFrameSpan(mem, mem', e, d, y, i);
    MkSpan(mem', d, b, y, yi, ym', e, x, i);
    MkSpan(mem', d, a, x, xi, xm', low', o, i);
  }

  lemma TRotate(mem: Threaded, mem': Threaded, c: Ctx, d: bool, y: Ptr, yi: Item, ym: int, x: Ptr, xi: Item, xm: int,
                ym': int, xm': int, a: Tree, b: Tree, e: Tree)
    requires TAt(mem, c, Mk(d, Mk(d, a, x, xi, xm, b), y, yi, ym, e))
    requires TRotated(mem, mem', c, d, y, x, ym', xm')
    ensures TAt(mem', c, Mk(d, a, x, xi, xm', Mk(d, b, y, yi, ym', e)))
  {
    TView(mem, c, Mk(d, Mk(d, a, x, xi, xm, b), y, yi, ym, e));
    RotateAddrs(d, y, yi, ym, x, xi, xm, a, b, e);
    SameAddrs(d, y, yi, ym, ym', x, xi, xm, xm', a, b, e);
    TRotateCells(mem, mem', d, y, yi, ym, x, xi, xm, ym', xm', a, b, e, Nb(c, d), Nb(c, !d));
    TRelink(mem, mem', c, y, x);
  }
}
