/** The AVL rule - every node stores its balance, and no balance leaves -1..1 - and what the
    insertion and the deletion of avl-2.0/src/avl.c do to it. */
module AvlShape {
  import opened Store
  import opened Splice

  // A child on side d that is one level higher than its sibling shows as this balance.
  function Sgn(d: bool): int { if d then 1 else -1 }

  // The balance of a node whose child on side d has height h and whose other child has height k.
  function Lean(d: bool, h: int, k: int): int { if d then h - k else k - h }

  ghost predicate Avl(t: Tree) {
    t.Node? ==>
      && t.mark == Height(t.r) - Height(t.l) && -1 <= t.mark <= 1
      && Avl(t.l) && Avl(t.r)
  }

  // Filling the hole with an AVL tree of height h makes an AVL tree.
  ghost predicate CtxAvl(c: Ctx, h: nat) decreases c {
    c.In? ==>
      && c.mark == Lean(c.d, h, Height(c.sib)) && -1 <= c.mark <= 1
      && Avl(c.sib) && CtxAvl(c.up, 1 + Max(h, Height(c.sib)))
  }

  function Max(a: int, b: int): int { if a > b then a else b }

  lemma {:induction false} MkAvl(d: bool, a: Tree, p: Ptr, item: Item, m: int, b: Tree)
    ensures Height(Mk(d, a, p, item, m, b)) == 1 + Max(Height(a), Height(b))
    ensures Avl(Mk(d, a, p, item, m, b)) <==>
            m == Lean(d, Height(a), Height(b)) && -1 <= m <= 1 && Avl(a) && Avl(b)
  {
  }

  lemma {:induction false} PlugAvl(c: Ctx, t: Tree)
    requires Avl(t) && CtxAvl(c, Height(t))
    ensures Avl(Plug(c, t))
    decreases c
  {
    if c.In? {
      MkAvl(c.d, t, c.p, c.item, c.mark, c.sib);
      PlugAvl(c.up, Mk(c.d, t, c.p, c.item, c.mark, c.sib));
    }
  }

  lemma {:induction false} DownAvl(c: Ctx, t: Tree, d: bool)
    requires t.Node? && Avl(t) && CtxAvl(c, Height(t))
    ensures Avl(Kid(t, d)) && CtxAvl(In(c, d, t.p, t.item, t.mark, Kid(t, !d)), Height(Kid(t, d)))
  {
    KidsMake(d, t);
    MkAvl(d, Kid(t, d), t.p, t.item, t.mark, Kid(t, !d));
  }

  /* ---------- insertion ---------- */

  // Directions from the top of inn down to its hole: the cached comparisons in da.
  function Dirs(inn: Ctx): seq<bool> decreases inn { if inn.Top? then [] else Dirs(inn.up) + [inn.d] }

  // Every balance along inn moved one towards the hole, as the second loop of avl_probe does.
  function BumpCtx(inn: Ctx): Ctx decreases inn {
    if inn.Top? then Top else In(BumpCtx(inn.up), inn.d, inn.p, inn.item, inn.mark + Sgn(inn.d), inn.sib)
  }

  // The same, seen from the top: what is left to do below t for the directions in path.
  function Bump(t: Tree, path: seq<bool>): Tree decreases |path| {
    if path == [] || t.Leaf? then t
    else Mk(path[0], Bump(Kid(t, path[0]), path[1..]), t.p, t.item, t.mark + Sgn(path[0]), Kid(t, !path[0]))
  }

  lemma {:induction false} BumpPlug(inn: Ctx, t: Tree, rest: seq<bool>)
    ensures Bump(Plug(inn, t), Dirs(inn) + rest) == Plug(BumpCtx(inn), Bump(t, rest))
    decreases inn
  {
    if inn.Top? {
      assert Dirs(inn) + rest == rest;
    } else {
      var t' := Mk(inn.d, t, inn.p, inn.item, inn.mark, inn.sib);
      assert Dirs(inn) + rest == Dirs(inn.up) + ([inn.d] + rest);
      BumpPlug(inn.up, t', [inn.d] + rest);
      assert ([inn.d] + rest)[1..] == rest;
    }
  }

  ghost predicate BalancedPath(low: Ctx) decreases low { low.In? ==> low.mark == 0 && BalancedPath(low.up) }

  // Where all balances are 0, one level more at the bottom is one level more at the top.
  lemma {:induction false} GrowBalanced(low: Ctx, o: Ctx, t: Tree, t': Tree)
    requires BalancedPath(low) && CtxAvl(Join(low, o), Height(t)) && Avl(t') && Height(t') == Height(t) + 1
    ensures var u, u' := Plug(low, t), Plug(BumpCtx(low), t');
            && Avl(u') && Height(u') == Height(u) + 1 && CtxAvl(o, Height(u))
            && (low.In? ==> u'.Node? && (u'.mark == 1 || u'.mark == -1))
    decreases low
  {
    if low.In? {
      var v, v' := Mk(low.d, t, low.p, low.item, 0, low.sib), Mk(low.d, t', low.p, low.item, Sgn(low.d), low.sib);
      MkAvl(low.d, t, low.p, low.item, 0, low.sib);
      MkAvl(low.d, t', low.p, low.item, Sgn(low.d), low.sib);
      GrowBalanced(low.up, o, v, v');
    }
  }

  // At y, the topmost node of the updated path, the child u has grown to u'.
  lemma GrownAtY(y: Ctx, u: Tree, u': Tree)
    requires y.In? && CtxAvl(y, Height(u)) && Avl(u') && Height(u') == Height(u) + 1
    requires y.mark == 0 ==> y.up.Top?
    requires Height(u) > 0 ==> u'.Node? && (u'.mark == 1 || u'.mark == -1)
    ensures var m := y.mark + Sgn(y.d);
            if m == 2 * Sgn(y.d) then
              && Height(u') == Height(y.sib) + 2 && u'.Node? && (u'.mark == 1 || u'.mark == -1)
              && Avl(y.sib) && CtxAvl(y.up, Height(u'))
            else
              -1 <= m <= 1 && Avl(Plug(y.up, Mk(y.d, u', y.p, y.item, m, y.sib)))
  {
    if y.mark != Sgn(y.d) {
      GrownBalanced(y, u, u');
    }
  }

  lemma GrownBalanced(y: Ctx, u: Tree, u': Tree)
    requires y.In? && CtxAvl(y, Height(u)) && Avl(u') && Height(u') == Height(u) + 1 && y.mark != Sgn(y.d)
    requires y.mark == 0 ==> y.up.Top?
    ensures -1 <= y.mark + Sgn(y.d) <= 1 && Avl(Plug(y.up, Mk(y.d, u', y.p, y.item, y.mark + Sgn(y.d), y.sib)))
  {
    var m := y.mark + Sgn(y.d);
    MkAvl(y.d, u', y.p, y.item, m, y.sib);
    PlugAvl(y.up, Mk(y.d, u', y.p, y.item, m, y.sib));
  }

  /* ---------- rotations: y has become too high on side d, where its child is x ---------- */

  ghost predicate SingleDone(mem: Memory, mem': Memory, c: Ctx, d: bool, y: Ptr, x: Ptr, ym: int, xm: int) {
    && x in mem && y in mem && Last(c) in mem && mem'.Keys == mem.Keys
    && mem'[y] == SetLink(mem, y, d, Link(mem[x], !d))[y].(mark := ym)
    && mem'[x] == SetLink(mem, x, !d, y)[x].(mark := xm)
    && mem'[Last(c)] == SetLink(mem, Last(c), Side(c), x)[Last(c)]
    && forall a :: a in mem && a != x && a != y && a != Last(c) ==> mem'[a] == mem[a]
  }

  lemma SingleAt(mem: Memory, mem': Memory, c: Ctx, d: bool, y: Ptr, yi: Item, ym: int, x: Ptr, xi: Item, xm: int,
                 ym': int, xm': int, a: Tree, b: Tree, e: Tree)
    requires At(mem, c, Mk(d, Mk(d, a, x, xi, xm, b), y, yi, ym, e))
    requires SingleDone(mem, mem', c, d, y, x, ym', xm')
    ensures At(mem', c, Mk(d, a, x, xi, xm', Mk(d, b, y, yi, ym', e)))
  {
    LastIn(mem, c, y);
    RotateAddrs(d, y, yi, ym, x, xi, xm, a, b, e);
    SameAddrs(d, y, yi, ym, ym', x, xi, xm, xm', a, b, e);
    SingleCells(mem, mem', d, y, yi, ym, x, xi, xm, ym', xm', a, b, e);
    Relink(mem, mem', c, y, x);
  }

  lemma {:induction false} SingleCells(mem: Memory, mem': Memory, d: bool, y: Ptr, yi: Item, ym: int, x: Ptr, xi: Item, xm: int,
                    ym': int, xm': int, a: Tree, b: Tree, e: Tree)
    requires Cells(mem, Mk(d, Mk(d, a, x, xi, xm, b), y, yi, ym, e))
    requires x in mem && y in mem && x in mem' && y in mem'
    requires mem'[y] == SetLink(mem, y, d, Link(mem[x], !d))[y].(mark := ym') && mem'[x] == SetLink(mem, x, !d, y)[x].(mark := xm')
    requires Same(mem, mem', Addrs(a) + Addrs(b) + Addrs(e))
    ensures Cells(mem', Mk(d, a, x, xi, xm', Mk(d, b, y, yi, ym', e)))
  {
    assert Cells(mem, Mk(d, a, x, xi, xm, b));
    FrameTree(mem, mem', a);
    FrameTree(mem, mem', b);
    FrameTree(mem, mem', e);
    assert Cells(mem', Mk(d, b, y, yi, ym', e));
  }

  lemma SameAddrs(d: bool, y: Ptr, yi: Item, ym: int, ym': int, x: Ptr, xi: Item, xm: int, xm': int, a: Tree, b: Tree, e: Tree)
    ensures var t, t' := Mk(d, a, x, xi, xm, Mk(d, b, y, yi, ym, e)), Mk(d, a, x, xi, xm', Mk(d, b, y, yi, ym', e));
            Addrs(t') == Addrs(t) && (Disj(t) ==> Disj(t')) && Inorder(t) == Inorder(t')
  {
    MkTree(d, b, y, yi, ym, e);
    MkTree(d, b, y, yi, ym', e);
    MkTree(d, a, x, xi, xm, Mk(d, b, y, yi, ym, e));
    MkTree(d, a, x, xi, xm', Mk(d, b, y, yi, ym', e));
  }

  // Child x of y leans the other way: its child w moves up two levels.
  ghost predicate DoubleDone(mem: Memory, mem': Memory, c: Ctx, d: bool, y: Ptr, x: Ptr, w: Ptr, ym: int, xm: int) {
    && x in mem && y in mem && w in mem && Last(c) in mem && mem'.Keys == mem.Keys
    && mem'[y] == SetLink(mem, y, d, Link(mem[w], !d))[y].(mark := ym)
    && mem'[x] == SetLink(mem, x, !d, Link(mem[w], d))[x].(mark := xm)
    && mem'[w] == (if d then mem[w].(l := y, r := x, mark := 0) else mem[w].(l := x, r := y, mark := 0))
    && mem'[Last(c)] == SetLink(mem, Last(c), Side(c), w)[Last(c)]
    && forall a :: a in mem && a != x && a != y && a != w && a != Last(c) ==> mem'[a] == mem[a]
  }

  // Memory between the two rotations, which the C code never completes.
  function HalfWay(mem: Memory, d: bool, y: Ptr, x: Ptr, w: Ptr, xm: int): Memory
    requires x in mem && y in mem && w in mem
  {
    mem[x := SetLink(mem, x, !d, Link(mem[w], d))[x].(mark := xm)][w := SetLink(mem, w, d, x)[w]][y := SetLink(mem, y, d, w)[y]]
  }

  lemma HalfWaySteps(mem: Memory, mem': Memory, c: Ctx, d: bool, y: Ptr, yc: Ctx, x: Ptr, w: Ptr, ym: int, xm: int)
    requires DoubleDone(mem, mem', c, d, y, x, w, ym, xm)
    requires x != y && x != w && y != w && Last(c) != x && Last(c) != y && Last(c) != w
    requires yc.In? && yc.p == y && yc.d == d
    ensures SingleDone(mem, HalfWay(mem, d, y, x, w, xm), yc, !d, x, w, xm, mem[w].mark)
    ensures SingleDone(HalfWay(mem, d, y, x, w, xm), mem', c, d, y, w, ym, 0)
  {
  }

  lemma DoubleAt(mem: Memory, mem': Memory, c: Ctx, d: bool, y: Ptr, yi: Item, ym: int, x: Ptr, xi: Item, xm: int,
                 w: Ptr, wi: Item, wm: int, ym': int, xm': int, a: Tree, w1: Tree, w2: Tree, e: Tree)
    requires At(mem, c, Mk(d, Mk(d, a, x, xi, xm, Mk(d, w1, w, wi, wm, w2)), y, yi, ym, e))
    requires DoubleDone(mem, mem', c, d, y, x, w, ym', xm')
    ensures At(mem', c, Mk(d, Mk(d, a, x, xi, xm', w1), w, wi, 0, Mk(d, w2, y, yi, ym', e)))
  {
    var wt := Mk(d, w1, w, wi, wm, w2);
    var xt := Mk(d, a, x, xi, xm, wt);
    var yt := Mk(d, xt, y, yi, ym, e);
    var yc := In(c, d, y, yi, ym, e);
    LastIn(mem, c, y);
    DoubleDistinct(c, d, y, yi, ym, x, xi, xm, w, wi, wm, a, w1, w2, e);
    Down(mem, c, d, yt);
    assert Cells(mem, wt);
    HalfWaySteps(mem, mem', c, d, y, yc, x, w, ym', xm');
    var mem1 := HalfWay(mem, d, y, x, w, xm');
    SingleAt(mem, mem1, yc, !d, x, xi, xm, w, wi, wm, xm', wm, w2, w1, a);
    var xt1 := Mk(d, Mk(d, a, x, xi, xm', w1), w, wi, wm, w2);
    Up(mem1, yc, xt1);
    SingleAt(mem1, mem', c, d, y, yi, ym, w, wi, wm, ym', 0, Mk(d, a, x, xi, xm', w1), w2, e);
  }

  lemma DoubleDistinct(c: Ctx, d: bool, y: Ptr, yi: Item, ym: int, x: Ptr, xi: Item, xm: int,
                       w: Ptr, wi: Item, wm: int, a: Tree, w1: Tree, w2: Tree, e: Tree)
    requires var t := Mk(d, Mk(d, a, x, xi, xm, Mk(d, w1, w, wi, wm, w2)), y, yi, ym, e);
             Disj(t) && Addrs(t) !! CtxAddrs(c)
    ensures x != y && x != w && y != w && Last(c) != x && Last(c) != y && Last(c) != w
  {
    MkTree(d, w2, w, wi, wm, w1);
    MkTree(d, a, x, xi, xm, Mk(d, w1, w, wi, wm, w2));
    MkTree(d, Mk(d, a, x, xi, xm, Mk(d, w1, w, wi, wm, w2)), y, yi, ym, e);
    assert Last(c) in CtxAddrs(c);
  }

  // The marks avl.c writes after a double rotation, from the balance w had before.
  function XMark(d: bool, wm: int): int { if wm == -Sgn(d) then Sgn(d) else 0 }

  function YMark(d: bool, wm: int): int { if wm == Sgn(d) then -Sgn(d) else 0 }

  lemma SingleAvl(d: bool, y: Ptr, yi: Item, x: Ptr, xi: Item, xm: int, a: Tree, b: Tree, e: Tree)
    requires Avl(Mk(d, a, x, xi, xm, b)) && Avl(e) && Height(Mk(d, a, x, xi, xm, b)) == Height(e) + 2
    requires xm == Sgn(d) || xm == 0
    ensures var r := Mk(d, a, x, xi, xm - Sgn(d), Mk(d, b, y, yi, Sgn(d) - xm, e));
            Avl(r) && Height(r) == Height(e) + (if xm == 0 then 3 else 2)
  {
    MkAvl(d, a, x, xi, xm, b);
    MkAvl(d, b, y, yi, Sgn(d) - xm, e);
    MkAvl(d, a, x, xi, xm - Sgn(d), Mk(d, b, y, yi, Sgn(d) - xm, e));
  }

  lemma DoubleAvl(d: bool, y: Ptr, yi: Item, x: Ptr, xi: Item, w: Ptr, wi: Item, wm: int, a: Tree, w1: Tree, w2: Tree, e: Tree)
    requires var xt := Mk(d, a, x, xi, -Sgn(d), Mk(d, w1, w, wi, wm, w2));
             Avl(xt) && Avl(e) && Height(xt) == Height(e) + 2
    ensures var r := Mk(d, Mk(d, a, x, xi, XMark(d, wm), w1), w, wi, 0, Mk(d, w2, y, yi, YMark(d, wm), e));
            Avl(r) && Height(r) == Height(e) + 2
  {
    MkAvl(d, w1, w, wi, wm, w2);
    MkAvl(d, a, x, xi, -Sgn(d), Mk(d, w1, w, wi, wm, w2));
    MkAvl(d, a, x, xi, XMark(d, wm), w1);
    MkAvl(d, w2, y, yi, YMark(d, wm), e);
    MkAvl(d, Mk(d, a, x, xi, XMark(d, wm), w1), w, wi, 0, Mk(d, w2, y, yi, YMark(d, wm), e));
  }

  lemma SingleInorder(c: Ctx, d: bool, y: Ptr, yi: Item, ym: int, x: Ptr, xi: Item, xm: int, ym': int, xm': int, a: Tree, b: Tree, e: Tree)
    ensures Inorder(Plug(c, Mk(d, a, x, xi, xm', Mk(d, b, y, yi, ym', e)))) ==
            Inorder(Plug(c, Mk(d, Mk(d, a, x, xi, xm, b), y, yi, ym, e)))
  {
    RotateInorder(d, y, yi, ym, x, xi, xm, a, b, e);
    SameAddrs(d, y, yi, ym, ym', x, xi, xm, xm', a, b, e);
    SameInorder(c, Mk(d, Mk(d, a, x, xi, xm, b), y, yi, ym, e), Mk(d, a, x, xi, xm', Mk(d, b, y, yi, ym', e)));
  }

  lemma DoubleInorder(c: Ctx, d: bool, y: Ptr, yi: Item, ym: int, x: Ptr, xi: Item, xm: int, w: Ptr, wi: Item, wm: int,
                      ym': int, xm': int, a: Tree, w1: Tree, w2: Tree, e: Tree)
    ensures Inorder(Plug(c, Mk(d, Mk(d, a, x, xi, xm', w1), w, wi, 0, Mk(d, w2, y, yi, ym', e)))) ==
            Inorder(Plug(c, Mk(d, Mk(d, a, x, xi, xm, Mk(d, w1, w, wi, wm, w2)), y, yi, ym, e)))
  {
    SingleInorder(In(c, d, y, yi, ym, e), !d, x, xi, xm, w, wi, wm, xm', wm, w2, w1, a);
    SingleInorder(c, d, y, yi, ym, w, wi, wm, ym', 0, Mk(d, a, x, xi, xm', w1), w2, e);
  }

  /* ---------- height against number of items ---------- */

  // The fewest nodes of an AVL tree of height h.
  function MinSize(h: nat): nat { if h == 0 then 0 else if h == 1 then 1 else 1 + MinSize(h - 1) + MinSize(h - 2) }

  lemma {:induction false} MinSizeGrows(a: nat, b: nat)
    requires a <= b
    ensures MinSize(a) <= MinSize(b)
  {
    if a < b {
      MinSizeGrows(a, b - 1);
    }
  }

  lemma {:induction false} AvlSize(t: Tree)
    requires Avl(t)
    ensures Size(t) >= MinSize(Height(t))
  {
    if t.Node? {
      AvlSize(t.l);
      AvlSize(t.r);
      var h := Height(t);
      if h >= 2 {
        MinSizeGrows(h - 2, Height(t.l));
        MinSizeGrows(h - 2, Height(t.r));
      }
    }
  }

  // A tree with too few items for height h is lower.
  lemma AvlHeight(t: Tree, h: nat)
    requires Avl(t) && |Inorder(t)| < MinSize(h)
    ensures Height(t) < h
  {
    AvlSize(t);
    SizeInorder(t);
    if Height(t) >= h {
      MinSizeGrows(h, Height(t));
    }
  }

  /* ---------- deletion: the subtree in the hole has become one level lower ---------- */

  ghost predicate Lower(c: Ctx, t: Tree) { Avl(t) && CtxAvl(c, Height(t) + 1) }

  // Taking a node out leaves one level less where it, or its successor, was.
  lemma BypassLower(c: Ctx, t: Tree)
    requires t.Node? && t.r.Leaf? && Avl(t) && CtxAvl(c, Height(t))
    ensures Lower(c, t.l)
  {
  }

  lemma {:induction false} JoinAvl(inn: Ctx, o: Ctx, o': Ctx, h: nat)
    requires o.In? && o'.In? && o.mark == o'.mark && o.sib == o'.sib && o.up == o'.up && o.d == o'.d
    ensures CtxAvl(Join(inn, o), h) == CtxAvl(Join(inn, o'), h)
    decreases inn
  {
    if inn.In? {
      JoinAvl(inn.up, o, o', 1 + Max(h, Height(inn.sib)));
    }
  }

  lemma MoveUpLower(c: Ctx, p: Ptr, pi: Item, pm: int, l: Tree, inn: Ctx, st: Tree)
    requires st.Node? && st.l.Leaf? && Avl(st) && CtxAvl(Join(inn, In(c, true, p, pi, pm, l)), Height(st))
    ensures Lower(Join(inn, In(c, true, st.p, st.item, pm, l)), st.r)
  {
    JoinAvl(inn, In(c, true, p, pi, pm, l), In(c, true, st.p, st.item, pm, l), Height(st));
  }

  // The parent was balanced and keeps its height: nothing further up changes.
  lemma LowerAbsorbed(c: Ctx, t: Tree)
    requires Lower(c, t) && c.In? && c.mark == 0
    ensures Avl(Plug(c.up, Mk(c.d, t, c.p, c.item, -Sgn(c.d), c.sib)))
  {
    MkAvl(c.d, t, c.p, c.item, -Sgn(c.d), c.sib);
    PlugAvl(c.up, Mk(c.d, t, c.p, c.item, -Sgn(c.d), c.sib));
  }

  // The parent leaned towards the hole: now it is balanced and one level lower itself.
  lemma LowerPassed(c: Ctx, t: Tree)
    requires Lower(c, t) && c.In? && c.mark == Sgn(c.d)
    ensures Lower(c.up, Mk(c.d, t, c.p, c.item, 0, c.sib))
  {
    MkAvl(c.d, t, c.p, c.item, 0, c.sib);
  }

  // The parent leaned away from the hole: its other child is two levels higher now.
  lemma {:induction false} LowerHeavy(c: Ctx, t: Tree)
    requires Lower(c, t) && c.In? && c.mark == -Sgn(c.d)
    ensures c.sib.Node? && Height(c.sib) == Height(t) + 2 && CtxAvl(c.up, Height(t) + 3)
    ensures c.sib.mark == -Sgn(c.d) || c.sib.mark == 0 || c.sib.mark == Sgn(c.d)
    ensures Avl(c.sib) && (c.sib.mark == Sgn(c.d) ==> Kid(c.sib, c.d).Node?)
  {
  }

  // y and its higher child x after the single rotation.
  function Single(d: bool, y: Ptr, yi: Item, xt: Tree, e: Tree): Tree
    requires xt.Node?
  {
    Mk(d, Kid(xt, d), xt.p, xt.item, xt.mark - Sgn(d), Mk(d, Kid(xt, !d), y, yi, Sgn(d) - xt.mark, e))
  }

  lemma SingleRotated(mem: Memory, mem': Memory, c: Ctx, d: bool, y: Ptr, yi: Item, xt: Tree, e: Tree)
    requires xt.Node? && At(mem, c, Mk(d, xt, y, yi, 2 * Sgn(d), e))
    requires SingleDone(mem, mem', c, d, y, xt.p, Sgn(d) - xt.mark, xt.mark - Sgn(d))
    ensures At(mem', c, Single(d, y, yi, xt, e))
  {
    KidsMake(d, xt);
    SingleAt(mem, mem', c, d, y, yi, 2 * Sgn(d), xt.p, xt.item, xt.mark, Sgn(d) - xt.mark, xt.mark - Sgn(d), Kid(xt, d), Kid(xt, !d), e);
  }

  lemma {:induction false} SingleHeight(d: bool, y: Ptr, yi: Item, xt: Tree, e: Tree)
    requires xt.Node? && (xt.mark == 0 || xt.mark == Sgn(d))
    requires Avl(xt) && Avl(e) && Height(xt) == Height(e) + 2
    ensures Avl(Single(d, y, yi, xt, e)) && Height(Single(d, y, yi, xt, e)) == Height(e) + (if xt.mark == 0 then 3 else 2)
  {
    KidsMake(d, xt);
    SingleAvl(d, y, yi, xt.p, xt.item, xt.mark, Kid(xt, d), Kid(xt, !d), e);
  }

  // A single rotation after an insertion: x leans outwards, and the old height comes back.
  lemma SingleGrow(c: Ctx, d: bool, y: Ptr, yi: Item, xt: Tree, e: Tree)
    requires xt.Node? && xt.mark == Sgn(d) && Avl(xt) && Avl(e) && Height(xt) == Height(e) + 2 && CtxAvl(c, Height(xt))
    ensures Avl(Single(d, y, yi, xt, e)) && CtxAvl(c, Height(Single(d, y, yi, xt, e)))
    ensures Inorder(Plug(c, Single(d, y, yi, xt, e))) == Inorder(Plug(c, Mk(d, xt, y, yi, 2 * Sgn(d), e)))
  {
    KidsMake(d, xt);
    SingleHeight(d, y, yi, xt, e);
    SingleInorder(c, d, y, yi, 2 * Sgn(d), xt.p, xt.item, xt.mark, 0, 0, Kid(xt, d), Kid(xt, !d), e);
  }

  lemma KidsMake(d: bool, t: Tree)
    requires t.Node?
    ensures t == Mk(d, Kid(t, d), t.p, t.item, t.mark, Kid(t, !d))
  {
  }

  // A single rotation after a deletion gives the old height back if x was balanced.
  lemma {:induction false} SingleLower(c: Ctx, d: bool, y: Ptr, yi: Item, xt: Tree, e: Tree)
    requires xt.Node? && (xt.mark == 0 || xt.mark == Sgn(d))
    requires Avl(xt) && Avl(e) && Height(xt) == Height(e) + 2 && CtxAvl(c, Height(e) + 3)
    ensures if xt.mark == 0 then Avl(Plug(c, Single(d, y, yi, xt, e))) else Lower(c, Single(d, y, yi, xt, e))
    ensures Inorder(Plug(c, Single(d, y, yi, xt, e))) == Inorder(Plug(c, Mk(d, xt, y, yi, 2 * Sgn(d), e)))
  {
    var t := Single(d, y, yi, xt, e);
    SingleHeight(d, y, yi, xt, e);
    SingleKeeps(c, d, y, yi, xt, e);
    if xt.mark == 0 {
      assert Height(t) == Height(e) + 3;
      PlugAvl(c, t);
    } else {
      assert Height(t) == Height(e) + 2;
    }
  }

  lemma SingleKeeps(c: Ctx, d: bool, y: Ptr, yi: Item, xt: Tree, e: Tree)
    requires xt.Node?
    ensures Inorder(Plug(c, Single(d, y, yi, xt, e))) == Inorder(Plug(c, Mk(d, xt, y, yi, 2 * Sgn(d), e)))
  {
    KidsMake(d, xt);
    SingleInorder(c, d, y, yi, 2 * Sgn(d), xt.p, xt.item, xt.mark, Sgn(d) - xt.mark, xt.mark - Sgn(d), Kid(xt, d), Kid(xt, !d), e);
  }

  // y, its higher child x, which leans the other way, and the child w of x after the double rotation.
  function Double(d: bool, y: Ptr, yi: Item, xt: Tree, e: Tree): Tree
    requires xt.Node? && Kid(xt, !d).Node?
  {
    var w := Kid(xt, !d);
    Mk(d, Mk(d, Kid(xt, d), xt.p, xt.item, XMark(d, w.mark), Kid(w, d)), w.p, w.item, 0, Mk(d, Kid(w, !d), y, yi, YMark(d, w.mark), e))
  }

  lemma DoubleHeight(d: bool, y: Ptr, yi: Item, xt: Tree, e: Tree)
    requires xt.Node? && xt.mark == -Sgn(d) && Avl(xt) && Avl(e) && Height(xt) == Height(e) + 2
    ensures Kid(xt, !d).Node? && Avl(Double(d, y, yi, xt, e)) && Height(Double(d, y, yi, xt, e)) == Height(e) + 2
  {
    var w := Kid(xt, !d);
    KidsMake(d, xt);
    MkAvl(d, Kid(xt, d), xt.p, xt.item, xt.mark, w);
    KidsMake(d, w);
    DoubleAvl(d, y, yi, xt.p, xt.item, w.p, w.item, w.mark, Kid(xt, d), Kid(w, d), Kid(w, !d), e);
  }

  lemma DoubleKeeps(c: Ctx, d: bool, y: Ptr, yi: Item, xt: Tree, e: Tree)
    requires xt.Node? && Kid(xt, !d).Node?
    ensures Inorder(Plug(c, Double(d, y, yi, xt, e))) == Inorder(Plug(c, Mk(d, xt, y, yi, 2 * Sgn(d), e)))
  {
    var w := Kid(xt, !d);
    KidsMake(d, xt);
    KidsMake(d, w);
    DoubleInorder(c, d, y, yi, 2 * Sgn(d), xt.p, xt.item, xt.mark, w.p, w.item, w.mark,
                  YMark(d, w.mark), XMark(d, w.mark), Kid(xt, d), Kid(w, d), Kid(w, !d), e);
  }

  // A double rotation after a deletion leaves the subtree one level lower.
  lemma DoubleLower(c: Ctx, d: bool, y: Ptr, yi: Item, xt: Tree, e: Tree)
    requires xt.Node? && xt.mark == -Sgn(d) && Avl(xt) && Avl(e) && Height(xt) == Height(e) + 2 && CtxAvl(c, Height(e) + 3)
    ensures Kid(xt, !d).Node? && Lower(c, Double(d, y, yi, xt, e))
    ensures Inorder(Plug(c, Double(d, y, yi, xt, e))) == Inorder(Plug(c, Mk(d, xt, y, yi, 2 * Sgn(d), e)))
  {
    DoubleHeight(d, y, yi, xt, e);
    DoubleKeeps(c, d, y, yi, xt, e);
  }

  lemma DoubleRotated(mem: Memory, mem': Memory, c: Ctx, d: bool, y: Ptr, yi: Item, xt: Tree, e: Tree)
    requires xt.Node? && Kid(xt, !d).Node? && At(mem, c, Mk(d, xt, y, yi, 2 * Sgn(d), e))
    requires var w := Kid(xt, !d); DoubleDone(mem, mem', c, d, y, xt.p, w.p, YMark(d, w.mark), XMark(d, w.mark))
    ensures At(mem', c, Double(d, y, yi, xt, e))
  {
    var w := Kid(xt, !d);
    KidsMake(d, xt);
    KidsMake(d, w);
    DoubleAt(mem, mem', c, d, y, yi, 2 * Sgn(d), xt.p, xt.item, xt.mark, w.p, w.item, w.mark,
             YMark(d, w.mark), XMark(d, w.mark), Kid(xt, d), Kid(w, d), Kid(w, !d), e);
  }
}
