/**
 The red-black tree on the heap (src/mbox-redblacktree.c): nodes with parent pointers, one
 shared sentinel, rotations and the fixup loop. The ghost shape of RbShape says which tree
 the pointers spell out; every method proves the pointers still match after it has written.
 */
module RbHeap {
  import opened Bytes
  import opened KeyOrder
  import opened RbShape

  // ---------- The pointers a shape demands ----------

  /** What the fields of one node must hold. */
  datatype View = View(key: Bytes, value: Bytes, color: Color, left: RbNode, right: RbNode, parent: RbNode?)

  ghost function RootOf(t: Tree, sentinel: RbNode): RbNode {
    if t.Leaf? then sentinel else t.entry.node
  }

  ghost function ViewOf(t: Tree, p: RbNode?, sentinel: RbNode): View
    requires t.Node?
  {
    View(t.entry.key, t.entry.value, t.color, RootOf(t.left, sentinel), RootOf(t.right, sentinel), p)
  }

  /** In `t`, hung below `p`, the node `n` must look like `v`. */
  ghost predicate Demands(t: Tree, p: RbNode?, sentinel: RbNode, n: RbNode, older v: View) {
    match t
    case Leaf => false
    case Node(c, l, e, r) =>
      || (n == e.node && v == ViewOf(t, p, sentinel))
      || Demands(l, e.node, sentinel, n, v)
      || Demands(r, e.node, sentinel, n, v)
  }

  ghost function Parent(ctx: Ctx): RbNode? {
    if ctx.Top? then null else ctx.entry.node
  }

  /** The view of the context's innermost node when `x` hangs in the hole. */
  ghost function CtxView(ctx: Ctx, x: RbNode, sentinel: RbNode): View
    requires !ctx.Top?
  {
    match ctx
    case InLeft(c, e, r, up) => View(e.key, e.value, c, x, RootOf(r, sentinel), Parent(up))
    case InRight(c, l, e, up) => View(e.key, e.value, c, RootOf(l, sentinel), x, Parent(up))
  }

  /** The same for the nodes of a context; `x` hangs in its hole. */
  ghost predicate CtxDemands(ctx: Ctx, x: RbNode, sentinel: RbNode, n: RbNode, v: View) {
    match ctx
    case Top => false
    case InLeft(c, e, r, up) =>
      || (n == e.node && v == CtxView(ctx, x, sentinel))
      || Demands(r, e.node, sentinel, n, v)
      || CtxDemands(up, e.node, sentinel, n, v)
    case InRight(c, l, e, up) =>
      || (n == e.node && v == CtxView(ctx, x, sentinel))
      || Demands(l, e.node, sentinel, n, v)
      || CtxDemands(up, e.node, sentinel, n, v)
  }

  lemma {:induction false} PlugDemands(ctx: Ctx, t: Tree, sentinel: RbNode, n: RbNode, v: View)
    ensures Demands(Plug(ctx, t), null, sentinel, n, v)
       <==> Demands(t, Parent(ctx), sentinel, n, v) || CtxDemands(ctx, RootOf(t, sentinel), sentinel, n, v)
    decreases ctx
  {
    match ctx
    case Top =>
    case InLeft(c, e, r, up) => PlugDemands(up, Node(c, t, e, r), sentinel, n, v);
    case InRight(c, l, e, up) => PlugDemands(up, Node(c, l, e, t), sentinel, n, v);
  }

  lemma {:induction false} DemandsInside(t: Tree, p: RbNode?, sentinel: RbNode, n: RbNode, v: View)
    requires Demands(t, p, sentinel, n, v)
    ensures n in Nodes(t)
    decreases t
  {
    if n != t.entry.node {
      if Demands(t.left, t.entry.node, sentinel, n, v) {
        DemandsInside(t.left, t.entry.node, sentinel, n, v);
      } else {
        DemandsInside(t.right, t.entry.node, sentinel, n, v);
      }
    }
  }

  lemma {:induction false} CtxDemandsInside(ctx: Ctx, x: RbNode, sentinel: RbNode, n: RbNode, v: View)
    requires CtxDemands(ctx, x, sentinel, n, v)
    ensures n in CtxNodes(ctx)
    decreases ctx
  {
    if n != ctx.entry.node {
      var e, side := ctx.entry.node, if ctx.InLeft? then ctx.right else ctx.left;
      if Demands(side, e, sentinel, n, v) {
        DemandsInside(side, e, sentinel, n, v);
      } else {
        CtxDemandsInside(ctx.up, e, sentinel, n, v);
      }
    }
  }

  /** Every node of `t` has a view. */
  lemma {:induction false} DemandsSome(t: Tree, p: RbNode?, sentinel: RbNode, n: RbNode) returns (v: View)
    requires n in Nodes(t)
    ensures Demands(t, p, sentinel, n, v)
    decreases t
  {
    if n == t.entry.node {
      v := ViewOf(t, p, sentinel);
    } else if n in Nodes(t.left) {
      v := DemandsSome(t.left, t.entry.node, sentinel, n);
    } else {
      v := DemandsSome(t.right, t.entry.node, sentinel, n);
    }
  }

  /** Hanging a subtree below another parent changes its root's view and no other. */
  lemma DemandsBelow(t: Tree, p: RbNode?, q: RbNode?, sentinel: RbNode, n: RbNode, v: View)
    requires Distinct(t) && Demands(t, q, sentinel, n, v)
    ensures if n == RootOf(t, sentinel) && t.Node? then v == ViewOf(t, q, sentinel)
            else Demands(t, p, sentinel, n, v)
  {
    if n == t.entry.node && v != ViewOf(t, q, sentinel) {
      if Demands(t.left, n, sentinel, n, v) {
        DemandsInside(t.left, n, sentinel, n, v);
      } else {
        DemandsInside(t.right, n, sentinel, n, v);
      }
    }
  }

  /** Hanging another node in the hole changes one child field of the innermost node only. */
  lemma CtxDemandsAt(ctx: Ctx, x: RbNode, y: RbNode, sentinel: RbNode, n: RbNode, v: View)
    requires CtxDistinct(ctx) && CtxDemands(ctx, y, sentinel, n, v)
    ensures if n == Parent(ctx) then v == CtxView(ctx, y, sentinel)
            else CtxDemands(ctx, x, sentinel, n, v)
  {
    if n == ctx.entry.node && v != CtxView(ctx, y, sentinel) {
      var side := if ctx.InLeft? then ctx.right else ctx.left;
      if Demands(side, n, sentinel, n, v) {
        DemandsInside(side, n, sentinel, n, v);
      } else {
        CtxDemandsInside(ctx.up, n, sentinel, n, v);
      }
    }
  }

  /** Below a context, exchanging the subtree leaves the root of the whole tree alone. */
  lemma {:induction false} PlugRoot(ctx: Ctx, t: Tree, u: Tree, sentinel: RbNode)
    requires ctx.Top? ==> RootOf(t, sentinel) == RootOf(u, sentinel)
    ensures RootOf(Plug(ctx, t), sentinel) == RootOf(Plug(ctx, u), sentinel)
    decreases ctx
  {
    match ctx
    case Top =>
    case InLeft(c, e, r, up) => PlugRoot(up, Node(c, t, e, r), Node(c, u, e, r), sentinel);
    case InRight(c, l, e, up) => PlugRoot(up, Node(c, l, e, t), Node(c, l, e, u), sentinel);
  }

  lemma {:induction false} RootInCtx(ctx: Ctx, t: Tree, sentinel: RbNode)
    requires !ctx.Top?
    ensures RootOf(Plug(ctx, t), sentinel) in CtxNodes(ctx)
    decreases ctx
  {
    var up := if ctx.InLeft? then Node(ctx.color, t, ctx.entry, ctx.right) else Node(ctx.color, ctx.left, ctx.entry, t);
    if !ctx.up.Top? {
      RootInCtx(ctx.up, up, sentinel);
    }
  }

  lemma PlugRootAny(ctx: Ctx, t: Tree, u: Tree, sentinel: RbNode)
    requires !ctx.Top?
    ensures RootOf(Plug(ctx, t), sentinel) == RootOf(Plug(ctx, u), sentinel)
  {
    match ctx
    case InLeft(c, e, r, up) => PlugRoot(up, Node(c, t, e, r), Node(c, u, e, r), sentinel);
    case InRight(c, l, e, up) => PlugRoot(up, Node(c, l, e, t), Node(c, l, e, u), sentinel);
  }

  // ---------- Rotations of the shape ----------

  ghost function RotatedLeft(t: Tree): Tree
    requires t.Node? && t.right.Node?
  {
    var r := t.right;
    Node(r.color, Node(t.color, t.left, t.entry, r.left), r.entry, r.right)
  }

  ghost function RotatedRight(t: Tree): Tree
    requires t.Node? && t.left.Node?
  {
    var l := t.left;
    Node(l.color, l.left, l.entry, Node(t.color, l.right, t.entry, t.right))
  }

  lemma RotateNodes(t: Tree)
    requires t.Node? && Distinct(t)
    ensures t.right.Node? ==> Distinct(RotatedLeft(t)) && Nodes(RotatedLeft(t)) == Nodes(t)
    ensures t.left.Node? ==> Distinct(RotatedRight(t)) && Nodes(RotatedRight(t)) == Nodes(t)
  {
  }

  lemma Assoc5<T>(a: seq<T>, x: T, b: seq<T>, y: T, c: seq<T>)
    ensures (a + [x] + b) + [y] + c == a + [x] + (b + [y] + c)
  {
  }

  lemma RotateInorder(t: Tree)
    requires t.Node?
    ensures t.right.Node? ==> Inorder(RotatedLeft(t)) == Inorder(t)
    ensures t.left.Node? ==> Inorder(RotatedRight(t)) == Inorder(t)
  {
    if t.right.Node? {
      Assoc5(Inorder(t.left), PairOf(t.entry), Inorder(t.right.left), PairOf(t.right.entry), Inorder(t.right.right));
    }
    if t.left.Node? {
      Assoc5(Inorder(t.left.left), PairOf(t.left.entry), Inorder(t.left.right), PairOf(t.entry), Inorder(t.right));
    }
  }

  /** Exchanging a subtree for one with the same nodes: what the whole tree keeps. */
  lemma ExchangeShape(ctx: Ctx, t: Tree, u: Tree, sentinel: RbNode)
    requires Separate(ctx, t) && Distinct(u) && Nodes(u) == Nodes(t) && t.Node? && u.Node?
    ensures Separate(ctx, u) && Distinct(Plug(ctx, u)) && Nodes(Plug(ctx, u)) == Nodes(Plug(ctx, t))
    ensures RootOf(Plug(ctx, u), sentinel) == if ctx.Top? then u.entry.node else RootOf(Plug(ctx, t), sentinel)
  {
    PlugNodes(ctx, t);
    PlugNodes(ctx, u);
    if !ctx.Top? {
      PlugRootAny(ctx, t, u, sentinel);
    }
  }

  /** What a left rotation makes of the view of one node. */
  lemma RotateLeftDemands(ctx: Ctx, t: Tree, sentinel: RbNode, n: RbNode, v: View)
    requires Separate(ctx, t) && t.Node? && t.right.Node?
    requires Demands(Plug(ctx, RotatedLeft(t)), null, sentinel, n, v)
    ensures var (x, y, b) := (t.entry.node, t.right.entry.node, t.right.left);
      var b0 := RootOf(b, sentinel);
      if n == x then v == ViewOf(t, Parent(ctx), sentinel).(right := b0, parent := y)
      else if n == y then v == ViewOf(t.right, x, sentinel).(left := x, parent := Parent(ctx))
      else if b.Node? && n == b0 then v == ViewOf(b, x, sentinel)
      else if n == Parent(ctx) then v == CtxView(ctx, y, sentinel)
      else Demands(Plug(ctx, t), null, sentinel, n, v)
  {
    var (x, y, b) := (t.entry.node, t.right.entry.node, t.right.left);
    var t' := RotatedLeft(t);
    RotateNodes(t);
    PlugDemands(ctx, t', sentinel, n, v);
    PlugDemands(ctx, t, sentinel, n, v);
    if CtxDemands(ctx, y, sentinel, n, v) {
      CtxDemandsInside(ctx, y, sentinel, n, v);
      CtxDemandsAt(ctx, x, y, sentinel, n, v);
    } else if Demands(t.left, x, sentinel, n, v) {
      DemandsInside(t.left, x, sentinel, n, v);
    } else if Demands(b, x, sentinel, n, v) {
      DemandsInside(b, x, sentinel, n, v);
      DemandsBelow(b, y, x, sentinel, n, v);
    } else if Demands(t.right.right, y, sentinel, n, v) {
      DemandsInside(t.right.right, y, sentinel, n, v);
    } else {
      assert Demands(t', Parent(ctx), sentinel, n, v);
      assert n == y || Demands(t'.left, y, sentinel, n, v);
    }
  }

  /** The mirror image, for a right rotation. */
  lemma RotateRightDemands(ctx: Ctx, t: Tree, sentinel: RbNode, n: RbNode, v: View)
    requires Separate(ctx, t) && t.Node? && t.left.Node?
    requires Demands(Plug(ctx, RotatedRight(t)), null, sentinel, n, v)
    ensures var (y, x, b) := (t.entry.node, t.left.entry.node, t.left.right);
      var b0 := RootOf(b, sentinel);
      if n == y then v == ViewOf(t, Parent(ctx), sentinel).(left := b0, parent := x)
      else if n == x then v == ViewOf(t.left, y, sentinel).(right := y, parent := Parent(ctx))
      else if b.Node? && n == b0 then v == ViewOf(b, y, sentinel)
      else if n == Parent(ctx) then v == CtxView(ctx, x, sentinel)
      else Demands(Plug(ctx, t), null, sentinel, n, v)
  {
    var (y, x, b) := (t.entry.node, t.left.entry.node, t.left.right);
    var t' := RotatedRight(t);
    RotateNodes(t);
    PlugDemands(ctx, t', sentinel, n, v);
    PlugDemands(ctx, t, sentinel, n, v);
    if CtxDemands(ctx, x, sentinel, n, v) {
      CtxDemandsInside(ctx, x, sentinel, n, v);
      CtxDemandsAt(ctx, y, x, sentinel, n, v);
    } else if Demands(t.right, y, sentinel, n, v) {
      DemandsInside(t.right, y, sentinel, n, v);
    } else if Demands(b, y, sentinel, n, v) {
      DemandsInside(b, y, sentinel, n, v);
      DemandsBelow(b, x, y, sentinel, n, v);
    } else if Demands(t.left.left, x, sentinel, n, v) {
      DemandsInside(t.left.left, x, sentinel, n, v);
    } else {
      assert Demands(t', Parent(ctx), sentinel, n, v);
      assert n == x || Demands(t'.right, x, sentinel, n, v);
    }
  }

  /** Repainting one node changes its own view and no other. */
  lemma PaintDemands(ctx: Ctx, t: Tree, c: Color, sentinel: RbNode, n: RbNode, v: View)
    requires Separate(ctx, t) && t.Node?
    requires Demands(Plug(ctx, t.(color := c)), null, sentinel, n, v)
    ensures if n == t.entry.node then v == ViewOf(t, Parent(ctx), sentinel).(color := c)
            else Demands(Plug(ctx, t), null, sentinel, n, v)
  {
    var x := t.entry.node;
    PlugDemands(ctx, t, sentinel, n, v);
    PlugDemands(ctx, t.(color := c), sentinel, n, v);
    if CtxDemands(ctx, x, sentinel, n, v) {
      CtxDemandsInside(ctx, x, sentinel, n, v);
    } else if Demands(t.left, x, sentinel, n, v) {
      DemandsInside(t.left, x, sentinel, n, v);
    } else if Demands(t.right, x, sentinel, n, v) {
      DemandsInside(t.right, x, sentinel, n, v);
    }
  }

  // ---------- The fixup loop on shapes ----------

  /** All red-black rules hold, except that the red `t` may hang below a red node. */
  ghost predicate AlmostRedBlack(ctx: Ctx, t: Tree) {
    IsRed(t) && RedBlack(t) && CtxRedBlack(ctx, BlackHeight(t))
  }

  ghost predicate RedAbove(ctx: Ctx) {
    !ctx.Top? && ctx.color == Red
  }

  ghost function Depth(ctx: Ctx): nat {
    if ctx.Top? then 0 else 1 + Depth(ctx.up)
  }

  /** Moving one node of the context into the subtree. */
  ghost function Raise(ctx: Ctx, t: Tree): Tree
    requires !ctx.Top?
  {
    match ctx
    case InLeft(c, e, r, _) => Node(c, t, e, r)
    case InRight(c, l, e, _) => Node(c, l, e, t)
  }

  lemma RaiseKeeps(ctx: Ctx, t: Tree)
    requires !ctx.Top?
    ensures Plug(ctx, t) == Plug(ctx.up, Raise(ctx, t))
    ensures Separate(ctx, t) <==> Separate(ctx.up, Raise(ctx, t))
  {
  }

  ghost function Blackened(g: Tree, left: bool): Tree
    requires g.Node? && (if left then g.left else g.right).Node?
  {
    if left then g.(left := g.left.(color := Black)) else g.(right := g.right.(color := Black))
  }

  /** The red-uncle case: the grandparent's red moves down onto both its children, reversed. */
  ghost function Recolored(g: Tree): Tree
    requires g.Node? && g.left.Node? && g.right.Node?
  {
    Node(Red, g.left.(color := Black), g.entry, g.right.(color := Black))
  }

  /** The black-uncle case: the parent turns black and takes the place of the red grandparent. */
  ghost function LiftedLeft(g: Tree): Tree
    requires g.Node? && g.left.Node?
  {
    RotatedRight(Node(Red, g.left.(color := Black), g.entry, g.right))
  }

  ghost function LiftedRight(g: Tree): Tree
    requires g.Node? && g.right.Node?
  {
    RotatedLeft(Node(Red, g.left, g.entry, g.right.(color := Black)))
  }

  /** The parent subtree once `t` is its outer child. */
  ghost function Outward(ctx: Ctx, t: Tree): Tree
    requires !ctx.Top? && !ctx.up.Top? && t.Node?
  {
    var p := Raise(ctx, t);
    if ctx.up.InLeft? && ctx.InRight? then RotatedLeft(p)
    else if ctx.up.InRight? && ctx.InLeft? then RotatedRight(p)
    else p
  }

  lemma SameOrder(ctx: Ctx, t: Tree, u: Tree)
    requires Inorder(t) == Inorder(u)
    ensures Inorder(Plug(ctx, t)) == Inorder(Plug(ctx, u))
  {
    PlugInorder(ctx, t);
    PlugInorder(ctx, u);
  }

  lemma OutwardOrder(ctx: Ctx, t: Tree)
    requires !ctx.Top? && !ctx.up.Top? && t.Node?
    ensures Inorder(Plug(ctx.up, Outward(ctx, t))) == Inorder(Plug(ctx, t))
  {
    RaiseKeeps(ctx, t);
    RotateInorder(Raise(ctx, t));
    SameOrder(ctx.up, Outward(ctx, t), Raise(ctx, t));
  }

  /** What the almost-rules say about the parent and grandparent of the offending node. */
  lemma TwoUp(ctx: Ctx, t: Tree)
    requires AlmostRedBlack(ctx, t) && RedAbove(ctx)
    ensures ctx.up.color == Black
    ensures var h := BlackHeight(t);
      var (s, u) := (if ctx.InLeft? then ctx.right else ctx.left, if ctx.up.InLeft? then ctx.up.right else ctx.up.left);
      && RedBlack(s) && BlackHeight(s) == h && !IsRed(s)
      && RedBlack(u) && BlackHeight(u) == h
      && CtxRedBlack(ctx.up.up, h + 1)
  {
    assert CtxRedBlack(ctx.up, BlackHeight(t));
  }

  lemma RecolorFixes(ctx: Ctx, t: Tree)
    requires AlmostRedBlack(ctx, t) && RedAbove(ctx)
    requires IsRed(if ctx.up.InLeft? then ctx.up.right else ctx.up.left)
    ensures var g := Raise(ctx.up, Raise(ctx, t));
      && AlmostRedBlack(ctx.up.up, Recolored(g))
      && Inorder(Plug(ctx.up.up, Recolored(g))) == Inorder(Plug(ctx, t))
  {
    var g := Raise(ctx.up, Raise(ctx, t));
    TwoUp(ctx, t);
    RaiseKeeps(ctx, t);
    RaiseKeeps(ctx.up, Raise(ctx, t));
    SameOrder(ctx.up.up, Recolored(g), g);
  }

  lemma LiftLeftFixes(ctx: Ctx, t: Tree)
    requires AlmostRedBlack(ctx, t) && RedAbove(ctx) && ctx.up.InLeft? && !IsRed(ctx.up.right)
    ensures var p := Outward(ctx, t);
      var g := Raise(ctx.up, p);
      var ctx' := InLeft(Black, p.entry, LiftedLeft(g).right, ctx.up.up);
      && p.left.Node? && LiftedLeft(g) == Raise(ctx', p.left)
      && AlmostRedBlack(ctx', p.left)
      && Inorder(Plug(ctx.up.up, LiftedLeft(g))) == Inorder(Plug(ctx, t))
  {
    var p := Outward(ctx, t);
    var g := Raise(ctx.up, p);
    TwoUp(ctx, t);
    OutwardOrder(ctx, t);
    RaiseKeeps(ctx.up, p);
    RotateInorder(Node(Red, g.left.(color := Black), g.entry, g.right));
    SameOrder(ctx.up.up, LiftedLeft(g), g);
  }

  lemma LiftRightFixes(ctx: Ctx, t: Tree)
    requires AlmostRedBlack(ctx, t) && RedAbove(ctx) && ctx.up.InRight? && !IsRed(ctx.up.left)
    ensures var p := Outward(ctx, t);
      var g := Raise(ctx.up, p);
      var ctx' := InRight(Black, LiftedRight(g).left, p.entry, ctx.up.up);
      && p.right.Node? && LiftedRight(g) == Raise(ctx', p.right)
      && AlmostRedBlack(ctx', p.right)
      && Inorder(Plug(ctx.up.up, LiftedRight(g))) == Inorder(Plug(ctx, t))
  {
    var p := Outward(ctx, t);
    var g := Raise(ctx.up, p);
    TwoUp(ctx, t);
    OutwardOrder(ctx, t);
    RaiseKeeps(ctx.up, p);
    RotateInorder(Node(Red, g.left, g.entry, g.right.(color := Black)));
    SameOrder(ctx.up.up, LiftedRight(g), g);
  }

  // ---------- Walking down and hanging a new node ----------

  /** The red-black rules, seen from a subtree on the way down. */
  ghost predicate Descending(ctx: Ctx, t: Tree) {
    && RedBlack(t) && CtxRedBlack(ctx, BlackHeight(t))
    && (IsRed(t) ==> !ctx.Top? && ctx.color == Black)
  }

  lemma StepDown(ctx: Ctx, t: Tree)
    requires Descending(ctx, t) && t.Node? && Separate(ctx, t)
    ensures var l := InLeft(t.color, t.entry, t.right, ctx);
      Descending(l, t.left) && Separate(l, t.left) && Plug(l, t.left) == Plug(ctx, t)
    ensures var r := InRight(t.color, t.left, t.entry, ctx);
      Descending(r, t.right) && Separate(r, t.right) && Plug(r, t.right) == Plug(ctx, t)
  {
  }

  /** Every comparison made on the way down sent `key` towards the hole of `ctx`. */
  ghost predicate Fits(cmp: Compare, ctx: Ctx, key: Bytes) {
    match ctx
    case Top => true
    case InLeft(_, e, _, up) => cmp(key, e.key) < 0 && Fits(cmp, up, key)
    case InRight(_, _, e, up) => cmp(key, e.key) > 0 && Fits(cmp, up, key)
  }

  /** How many keys a search compares on its way down. */
  function Compares(cmp: Compare, t: Tree, key: Bytes): nat {
    if t.Leaf? then 0
    else 1 + if cmp(key, t.entry.key) == 0 then 0
             else if cmp(key, t.entry.key) < 0 then Compares(cmp, t.left, key)
             else Compares(cmp, t.right, key)
  }

  lemma {:induction false} ComparesHeight(cmp: Compare, t: Tree, key: Bytes)
    ensures Compares(cmp, t, key) <= Height(t)
  {
    if t.Node? {
      ComparesHeight(cmp, t.left, key);
      ComparesHeight(cmp, t.right, key);
    }
  }

  /** In a search tree those comparisons decide all the others. */
  lemma {:induction false} FitsEverywhere(cmp: Compare, ctx: Ctx, t: Tree, key: Bytes)
    requires Coherent(cmp) && Sorted(cmp, Inorder(Plug(ctx, t))) && Fits(cmp, ctx, key)
    ensures AllBelow(cmp, Before(ctx), key) && AllAbove(cmp, After(ctx), key)
    decreases ctx
  {
    if !ctx.Top? {
      var (p, t') := (PairOf(ctx.entry), Raise(ctx, t));
      var (l, r) := (Inorder(t'.left), Inorder(t'.right));
      FitsEverywhere(cmp, ctx.up, t', key);
      PlugInorder(ctx.up, t');
      SplitParts(cmp, Before(ctx.up), l, p, r, After(ctx.up), key);
    }
  }

  lemma SplitParts(cmp: Compare, a: seq<Pair>, l: seq<Pair>, p: Pair, r: seq<Pair>, b: seq<Pair>, key: Bytes)
    requires Coherent(cmp) && Sorted(cmp, a + (l + [p] + r) + b)
    ensures cmp(key, p.key) < 0 ==> AllAbove(cmp, [p] + r + b, key)
    ensures cmp(key, p.key) > 0 ==> AllBelow(cmp, a + l + [p], key)
  {
    assert a + (l + [p] + r) + b == (a + l) + [p] + (r + b);
    assert [p] + r + b == [p] + (r + b);
    CompareSplits(cmp, a + l, p, r + b, key);
  }

  /** A key that fits around an empty hole is equal to no stored key. */
  lemma FitsMissing(cmp: Compare, ctx: Ctx, key: Bytes)
    requires Coherent(cmp) && Sorted(cmp, Inorder(Plug(ctx, Leaf))) && Fits(cmp, ctx, key)
    ensures !KeyOrder.Has(cmp, Inorder(Plug(ctx, Leaf)), key)
  {
    FitsEverywhere(cmp, ctx, Leaf, key);
    PlugInorder(ctx, Leaf);
  }

  /** A node met on the way down is stored. */
  lemma MetIsStored(ctx: Ctx, t: Tree)
    requires t.Node?
    ensures Pair(t.entry.key, t.entry.value) in Inorder(Plug(ctx, t))
  {
    PlugInorder(ctx, t);
    var s := Inorder(Plug(ctx, t));
    var i := |Before(ctx)| + |Inorder(t.left)|;
    assert s[i] == PairOf(t.entry);
  }

  lemma StoredIsKept(cmp: Compare, s: seq<Pair>, kept: seq<Pair>, e: Entry, key: Bytes)
    requires multiset(s) == multiset(kept) && Pair(e.key, e.value) in s && Equal(cmp, key, e.key)
    ensures KeyOrder.Has(cmp, kept, key)
  {
    var i :| 0 <= i < |s| && s[i] == Pair(e.key, e.value);
    assert Equal(cmp, key, s[i].key);
    HasOfPermutation(cmp, s, kept, key);
  }

  /** Putting a pair where its key fits keeps the order and adds exactly that pair. */
  lemma HungOrder(cmp: Compare, ctx: Ctx, p: Pair)
    requires Coherent(cmp) && Fits(cmp, ctx, p.key) && Sorted(cmp, Inorder(Plug(ctx, Leaf)))
    ensures var s := Before(ctx) + [p] + After(ctx);
      Sorted(cmp, s) && multiset(s) == multiset(Inorder(Plug(ctx, Leaf))) + multiset{p}
  {
    PlugInorder(ctx, Leaf);
    FitsEverywhere(cmp, ctx, Leaf, p.key);
    assert Before(ctx) + [] + After(ctx) == Before(ctx) + After(ctx);
    HungSorted(cmp, Before(ctx), p, After(ctx));
  }

  lemma HungSorted(cmp: Compare, a: seq<Pair>, p: Pair, b: seq<Pair>)
    requires Coherent(cmp) && Sorted(cmp, a + b)
    requires AllBelow(cmp, a, p.key) && AllAbove(cmp, b, p.key)
    ensures Sorted(cmp, a + [p] + b) && multiset(a + [p] + b) == multiset(a + b) + multiset{p}
  {
    SortedInsert(cmp, a, p, b);
  }

  /** Hanging a new node in the hole: its own view, and the link from above. */
  lemma HangDemands(ctx: Ctx, e: Entry, sentinel: RbNode, n: RbNode, v: View)
    requires CtxDistinct(ctx) && Demands(Plug(ctx, Node(Red, Leaf, e, Leaf)), null, sentinel, n, v)
    ensures
      || (n == e.node && v == View(e.key, e.value, Red, sentinel, sentinel, Parent(ctx)))
      || (n == Parent(ctx) && v == CtxView(ctx, e.node, sentinel))
      || (n != Parent(ctx) && Demands(Plug(ctx, Leaf), null, sentinel, n, v))
  {
    var t := Node(Red, Leaf, e, Leaf);
    PlugDemands(ctx, t, sentinel, n, v);
    PlugDemands(ctx, Leaf, sentinel, n, v);
    if CtxDemands(ctx, e.node, sentinel, n, v) {
      CtxDemandsInside(ctx, e.node, sentinel, n, v);
      CtxDemandsAt(ctx, sentinel, e.node, sentinel, n, v);
    }
  }

  ghost predicate Matches(n: RbNode, v: View)
    reads n
  {
    && n.key == v.key && n.value == v.value && n.color == v.color
    && n.left == v.left && n.right == v.right && n.parent == v.parent
  }

  class RbTree {
    const keycmp: Compare
    const sentinel: RbNode
    var root: RbNode
    var size: nat
    ghost var shape: Tree
    /** The nodes of the tree; the sentinel is not one of them. */
    ghost var repr: set<RbNode>
    /** The pairs kept so far, in the order they were inserted. */
    ghost var kept: seq<Pair>

    /** An empty tree; creating one writes the shared sentinel, always with the same contents. */
    constructor (keycmp: Compare, sentinel: RbNode)
      requires Coherent(keycmp)
      modifies sentinel
      ensures Valid() && this.keycmp == keycmp && this.sentinel == sentinel
      ensures kept == [] && shape == Leaf
      ensures sentinel.color == Black && sentinel.left == null && sentinel.right == null
      ensures sentinel.parent == old(sentinel.parent)
    {
      this.keycmp, this.sentinel := keycmp, sentinel;
      root, size := sentinel, 0;
      shape, repr, kept := Leaf, {}, [];
      new;
      sentinel.color := Black;
      sentinel.left, sentinel.right := null, null;
      sentinel.key, sentinel.value := [], [];
    }

    /** The pointers spell out exactly `shape`, and the sentinel is not part of it. */
    ghost predicate Coupled()
      reads `root, `shape, `repr, repr, sentinel
    {
      && sentinel.color == Black && sentinel !in repr && repr == Nodes(shape)
      && Distinct(shape)
      && root == RootOf(shape, sentinel)
      && (forall n, v :: n in repr && Demands(shape, null, sentinel, n, v) ==> Matches(n, v))
    }

    ghost predicate Valid()
      reads this, repr, sentinel
    {
      && Coherent(keycmp)
      && Sorted(keycmp, Bindings())
      && multiset(Bindings()) == multiset(kept)
      && size == |kept|
      && RedBlack(shape) && !IsRed(shape)
      && Coupled()
    }

    /** The stored pairs in key order. */
    ghost function Bindings(): seq<Pair>
      reads `shape
    {
      Inorder(shape)
    }

    /** `shape` is `t` inside `ctx`, and `x` is the pointer to `t`. */
    ghost predicate At(ctx: Ctx, t: Tree, x: RbNode)
      reads `shape
    {
      shape == Plug(ctx, t) && Separate(ctx, t) && x == RootOf(t, sentinel)
    }

    /** At a node, and at the node above it, the pointers can be read off the shape. */
    lemma ReadOff(ctx: Ctx, t: Tree)
      requires Coupled() && shape == Plug(ctx, t)
      ensures t.Node? ==>
        var n := t.entry.node;
        n in repr && n != sentinel && Matches(n, ViewOf(t, Parent(ctx), sentinel))
      ensures !ctx.Top? ==>
        var p := Parent(ctx);
        p in repr && p != sentinel && Matches(p, CtxView(ctx, RootOf(t, sentinel), sentinel))
      ensures ctx.Top? ==> root == RootOf(t, sentinel)
      ensures ctx.InRight? && Separate(ctx, t) && t.Node? ==> Parent(ctx).left != t.entry.node
      ensures ctx.InLeft? && Separate(ctx, t) && t.Node? ==> Parent(ctx).right != t.entry.node
    {
      PlugNodes(ctx, t);
      if t.Node? {
        PlugDemands(ctx, t, sentinel, t.entry.node, ViewOf(t, Parent(ctx), sentinel));
      }
      if !ctx.Top? {
        PlugDemands(ctx, t, sentinel, Parent(ctx), CtxView(ctx, RootOf(t, sentinel), sentinel));
      }
    }

    /** The pointers a left rotation at `t` follows, and that they lead to different nodes. */
    lemma ReadOffRight(ctx: Ctx, t: Tree)
      requires Coupled() && At(ctx, t, RootOf(t, sentinel)) && t.Node? && t.right.Node?
      ensures var (x, y, b) := (t.entry.node, t.right.entry.node, t.right.left);
        && y in repr && y != sentinel && Matches(y, ViewOf(t.right, x, sentinel))
        && x != y && x != Parent(ctx) && y != Parent(ctx)
        && (b.Node? ==>
          var z := b.entry.node;
          z in repr && z != sentinel && Matches(z, ViewOf(b, y, sentinel))
          && z != x && z != y && z != Parent(ctx))
    {
      var atY := InRight(t.color, t.left, t.entry, ctx);
      assert t.right.left.Node? ==> t.right.left.entry.node in Nodes(t.right);
      ReadOff(atY, t.right);
      ReadOff(InLeft(t.right.color, t.right.entry, t.right.right, atY), t.right.left);
    }

    /** The field writes of a left rotation, and no others, re-couple the pointers. */
    lemma LeftRotated(ctx: Ctx, t: Tree)
      requires Separate(ctx, t) && t.Node? && t.right.Node? && shape == Plug(ctx, RotatedLeft(t))
      requires sentinel.color == Black && sentinel !in repr && repr == Nodes(Plug(ctx, t))
      requires root == if ctx.Top? then t.right.entry.node else RootOf(Plug(ctx, t), sentinel)
      requires var (x, y, b) := (t.entry.node, t.right.entry.node, t.right.left);
        && Matches(x, ViewOf(t, Parent(ctx), sentinel).(right := RootOf(b, sentinel), parent := y))
        && Matches(y, ViewOf(t.right, x, sentinel).(left := x, parent := Parent(ctx)))
        && (b.Node? ==> Matches(b.entry.node, ViewOf(b, x, sentinel)))
        && (!ctx.Top? ==> Matches(Parent(ctx), CtxView(ctx, y, sentinel)))
      requires
        forall n, v :: n in repr && Demands(Plug(ctx, t), null, sentinel, n, v) ==>
          || n == t.entry.node || n == t.right.entry.node || n == Parent(ctx)
          || n == RootOf(t.right.left, sentinel) || Matches(n, v)
      ensures Coupled() && At(ctx, RotatedLeft(t), t.right.entry.node)
    {
      RotateNodes(t);
      ExchangeShape(ctx, t, RotatedLeft(t), sentinel);
      forall n, v | n in repr && Demands(shape, null, sentinel, n, v) ensures Matches(n, v) {
        RotateLeftDemands(ctx, t, sentinel, n, v);
      }
    }

    method LeftRotate(x: RbNode, ghost ctx: Ctx, ghost t: Tree)
      requires Coupled() && At(ctx, t, x) && t.Node? && t.right.Node?
      modifies this`root, this`shape, repr
      ensures Coupled() && At(ctx, RotatedLeft(t), t.right.entry.node)
    {
      ReadOff(ctx, t);
      ReadOffRight(ctx, t);
      var y := x.right;
      x.right := y.left;
      if y.left != sentinel {
        y.left.parent := x;
      }
      y.parent := x.parent;
      if x.parent == null {
        root := y;
      } else if x == x.parent.left {
        x.parent.left := y;
      } else {
        x.parent.right := y;
      }
      y.left := x;
      x.parent := y;
      shape := Plug(ctx, RotatedLeft(t));
      LeftRotated(ctx, t);
    }

    /** The pointers a right rotation at `t` follows, and that they lead to different nodes. */
    lemma ReadOffLeft(ctx: Ctx, t: Tree)
      requires Coupled() && At(ctx, t, RootOf(t, sentinel)) && t.Node? && t.left.Node?
      ensures var (y, x, b) := (t.entry.node, t.left.entry.node, t.left.right);
        && x in repr && x != sentinel && Matches(x, ViewOf(t.left, y, sentinel))
        && x != y && x != Parent(ctx) && y != Parent(ctx)
        && (b.Node? ==>
          var z := b.entry.node;
          z in repr && z != sentinel && Matches(z, ViewOf(b, x, sentinel))
          && z != x && z != y && z != Parent(ctx))
    {
      var atX := InLeft(t.color, t.entry, t.right, ctx);
      assert t.left.right.Node? ==> t.left.right.entry.node in Nodes(t.left);
      ReadOff(atX, t.left);
      ReadOff(InRight(t.left.color, t.left.left, t.left.entry, atX), t.left.right);
    }

    /** The field writes of a right rotation, and no others, re-couple the pointers. */
    lemma RightRotated(ctx: Ctx, t: Tree)
      requires Separate(ctx, t) && t.Node? && t.left.Node? && shape == Plug(ctx, RotatedRight(t))
      requires sentinel.color == Black && sentinel !in repr && repr == Nodes(Plug(ctx, t))
      requires root == if ctx.Top? then t.left.entry.node else RootOf(Plug(ctx, t), sentinel)
      requires var (y, x, b) := (t.entry.node, t.left.entry.node, t.left.right);
        && Matches(y, ViewOf(t, Parent(ctx), sentinel).(left := RootOf(b, sentinel), parent := x))
        && Matches(x, ViewOf(t.left, y, sentinel).(right := y, parent := Parent(ctx)))
        && (b.Node? ==> Matches(b.entry.node, ViewOf(b, y, sentinel)))
        && (!ctx.Top? ==> Matches(Parent(ctx), CtxView(ctx, x, sentinel)))
      requires
        forall n, v :: n in repr && Demands(Plug(ctx, t), null, sentinel, n, v) ==>
          || n == t.entry.node || n == t.left.entry.node || n == Parent(ctx)
          || n == RootOf(t.left.right, sentinel) || Matches(n, v)
      ensures Coupled() && At(ctx, RotatedRight(t), t.left.entry.node)
    {
      RotateNodes(t);
      ExchangeShape(ctx, t, RotatedRight(t), sentinel);
      forall n, v | n in repr && Demands(shape, null, sentinel, n, v) ensures Matches(n, v) {
        RotateRightDemands(ctx, t, sentinel, n, v);
      }
    }

    method RightRotate(y: RbNode, ghost ctx: Ctx, ghost t: Tree)
      requires Coupled() && At(ctx, t, y) && t.Node? && t.left.Node?
      modifies this`root, this`shape, repr
      ensures Coupled() && At(ctx, RotatedRight(t), t.left.entry.node)
    {
      ReadOff(ctx, t);
      ReadOffLeft(ctx, t);
      var x := y.left;
      y.left := x.right;
      if x.right != sentinel {
        x.right.parent := y;
      }
      x.parent := y.parent;
      if y.parent == null {
        root := x;
      } else if y == y.parent.right {
        y.parent.right := x;
      } else {
        y.parent.left := x;
      }
      x.right := y;
      y.parent := x;
      shape := Plug(ctx, RotatedRight(t));
      RightRotated(ctx, t);
    }

    /** One assignment to a color field. */
    method Paint(x: RbNode, c: Color, ghost ctx: Ctx, ghost t: Tree)
      requires Coupled() && At(ctx, t, x) && t.Node?
      modifies this`shape, repr
      ensures Coupled() && At(ctx, t.(color := c), x)
    {
      ReadOff(ctx, t);
      x.color := c;
      shape := Plug(ctx, t.(color := c));
      ExchangeShape(ctx, t, t.(color := c), sentinel);
      forall n, v | n in repr && Demands(shape, null, sentinel, n, v) ensures Matches(n, v) {
        PaintDemands(ctx, t, c, sentinel, n, v);
      }
    }

    /** A child of the node `grand` stands at turns black. */
    method Blacken(x: RbNode, ghost up: Ctx, ghost grand: Tree, ghost left: bool)
      requires Coupled() && At(up, grand, RootOf(grand, sentinel)) && grand.Node?
      requires var child := if left then grand.left else grand.right;
        child.Node? && x == child.entry.node
      modifies this`shape, repr
      ensures Coupled() && At(up, Blackened(grand, left), RootOf(grand, sentinel))
    {
      ghost var ctx := if left then InLeft(grand.color, grand.entry, grand.right, up) else InRight(grand.color, grand.left, grand.entry, up);
      ghost var child := if left then grand.left else grand.right;
      RaiseKeeps(ctx, child);
      RaiseKeeps(ctx, child.(color := Black));
      Paint(x, Black, ctx, child);
    }

    /** Both children of `g` turn black and `g` turns red; `y` is one child and `p` the other. */
    method Recolor(y: RbNode, p: RbNode, g: RbNode, ghost up: Ctx, ghost grand: Tree, ghost left: bool)
      requires Coupled() && At(up, grand, g) && grand.Node? && grand.left.Node? && grand.right.Node?
      requires y == (if left then grand.left else grand.right).entry.node
      requires p == (if left then grand.right else grand.left).entry.node
      modifies this`shape, repr
      ensures Coupled() && At(up, Recolored(grand), g)
    {
      Blacken(y, up, grand, left);
      Blacken(p, up, Blackened(grand, left), !left);
      Paint(g, Red, up, Blackened(Blackened(grand, left), !left));
    }

    /** `p`, the left child of `g`, turns black and takes the place of `g`, which turns red. */
    method LiftLeft(p: RbNode, g: RbNode, ghost up: Ctx, ghost grand: Tree)
      requires Coupled() && At(up, grand, g) && grand.Node? && grand.left.Node? && p == grand.left.entry.node
      modifies this`root, this`shape, repr
      ensures Coupled() && At(up, LiftedLeft(grand), p)
    {
      Blacken(p, up, grand, true);
      Paint(g, Red, up, Blackened(grand, true));
      RightRotate(g, up, Blackened(grand, true).(color := Red));
    }

    method LiftRight(p: RbNode, g: RbNode, ghost up: Ctx, ghost grand: Tree)
      requires Coupled() && At(up, grand, g) && grand.Node? && grand.right.Node? && p == grand.right.entry.node
      modifies this`root, this`shape, repr
      ensures Coupled() && At(up, LiftedRight(grand), p)
    {
      Blacken(p, up, grand, false);
      Paint(g, Red, up, Blackened(grand, false));
      LeftRotate(g, up, Blackened(grand, false).(color := Red));
    }

    /** One round of the loop when the parent of `z` is a left child. */
    method FixLeft(z: RbNode, ghost ctx: Ctx, ghost t: Tree)
        returns (z': RbNode, ghost ctx': Ctx, ghost t': Tree)
      requires Coupled() && At(ctx, t, z) && AlmostRedBlack(ctx, t) && RedAbove(ctx) && ctx.up.InLeft?
      modifies this`root, this`shape, repr
      ensures Coupled() && At(ctx', t', z') && AlmostRedBlack(ctx', t')
      ensures RedAbove(ctx') ==> Depth(ctx') < Depth(ctx)
      ensures Inorder(shape) == old(Inorder(shape))
    {
      ghost var up := ctx.up.up;
      ghost var parent := Raise(ctx, t);
      ghost var grand := Raise(ctx.up, parent);
      RaiseKeeps(ctx, t);
      RaiseKeeps(ctx.up, parent);
      ReadOff(ctx, t);
      ReadOff(ctx.up, parent);
      ReadOff(InRight(grand.color, grand.left, grand.entry, up), grand.right);
      var p, g := z.parent, z.parent.parent;
      var y := g.right;
      if y.color == Red {
        Recolor(y, p, g, up, grand, false);
        RecolorFixes(ctx, t);
        z', ctx', t' := g, up, Recolored(grand);
      } else {
        LiftLeftFixes(ctx, t);
        ghost var lifted := Outward(ctx, t);
        z' := z;
        if z' == z'.parent.right {
          z' := z'.parent;
          LeftRotate(z', ctx.up, parent);
        }
        RaiseKeeps(ctx.up, lifted);
        RaiseKeeps(InLeft(Red, lifted.entry, lifted.right, ctx.up), lifted.left);
        ReadOff(InLeft(Red, lifted.entry, lifted.right, ctx.up), lifted.left);
        ReadOff(ctx.up, lifted);
        LiftLeft(z'.parent, z'.parent.parent, up, Raise(ctx.up, lifted));
        t', ctx' := lifted.left, InLeft(Black, lifted.entry, LiftedLeft(Raise(ctx.up, lifted)).right, up);
        RaiseKeeps(ctx', t');
      }
    }

    /** The mirror image, when the parent of `z` is a right child. */
    method FixRight(z: RbNode, ghost ctx: Ctx, ghost t: Tree)
        returns (z': RbNode, ghost ctx': Ctx, ghost t': Tree)
      requires Coupled() && At(ctx, t, z) && AlmostRedBlack(ctx, t) && RedAbove(ctx) && ctx.up.InRight?
      modifies this`root, this`shape, repr
      ensures Coupled() && At(ctx', t', z') && AlmostRedBlack(ctx', t')
      ensures RedAbove(ctx') ==> Depth(ctx') < Depth(ctx)
      ensures Inorder(shape) == old(Inorder(shape))
    {
      ghost var up := ctx.up.up;
      ghost var parent := Raise(ctx, t);
      ghost var grand := Raise(ctx.up, parent);
      RaiseKeeps(ctx, t);
      RaiseKeeps(ctx.up, parent);
      ReadOff(ctx, t);
      ReadOff(ctx.up, parent);
      ReadOff(InLeft(grand.color, grand.entry, grand.right, up), grand.left);
      var p, g := z.parent, z.parent.parent;
      var y := g.left;
      if y.color == Red {
        Recolor(y, p, g, up, grand, true);
        RecolorFixes(ctx, t);
        z', ctx', t' := g, up, Recolored(grand);
      } else {
        LiftRightFixes(ctx, t);
        ghost var lifted := Outward(ctx, t);
        z' := z;
        if z' == z'.parent.left {
          z' := z'.parent;
          RightRotate(z', ctx.up, parent);
        }
        RaiseKeeps(ctx.up, lifted);
        RaiseKeeps(InRight(Red, lifted.left, lifted.entry, ctx.up), lifted.right);
        ReadOff(InRight(Red, lifted.left, lifted.entry, ctx.up), lifted.right);
        ReadOff(ctx.up, lifted);
        LiftRight(z'.parent, z'.parent.parent, up, Raise(ctx.up, lifted));
        t', ctx' := lifted.right, InRight(Black, LiftedRight(Raise(ctx.up, lifted)).left, lifted.entry, up);
        RaiseKeeps(ctx', t');
      }
    }

    /** Restores the red-black rules above a red node that may hang below a red node. */
    method InsertFixup(z0: RbNode, ghost ctx0: Ctx, ghost t0: Tree)
      requires Coupled() && At(ctx0, t0, z0) && AlmostRedBlack(ctx0, t0) && !ctx0.Top?
      modifies this`root, this`shape, repr
      ensures Coupled() && RedBlack(shape) && !IsRed(shape)
      ensures Inorder(shape) == old(Inorder(shape))
    {
      var z := z0;
      ghost var ctx, t := ctx0, t0;
      ReadOff(ctx, t);
      while z.parent.color == Red
        invariant Coupled() && At(ctx, t, z) && AlmostRedBlack(ctx, t) && !ctx.Top?
        invariant z.parent == Parent(ctx) && z.parent.color == ctx.color
        invariant Inorder(shape) == old(Inorder(shape))
        decreases if RedAbove(ctx) then 1 + Depth(ctx) else 0
      {
        RaiseKeeps(ctx, t);
        ReadOff(ctx.up, Raise(ctx, t));
        if z.parent == z.parent.parent.left {
          z, ctx, t := FixLeft(z, ctx, t);
        } else {
          z, ctx, t := FixRight(z, ctx, t);
        }
        ReadOff(ctx, t);
        if z == root {
          assert ctx.Top? by {
            if !ctx.Top? { RootInCtx(ctx, t, sentinel); }
          }
          break;
        }
      }
      ReadOff(ctx, t);
      if ctx.Top? {
        assert shape == t;
      } else {
        PlugRedBlack(ctx, t);
      }
      Paint(root, Black, Top, shape);
    }

    /** Links a new node below `y`, on the side its key belongs to, and counts it. */
    method Hang(z: RbNode, y: RbNode?, ghost ctx: Ctx)
      requires Coupled() && At(ctx, Leaf, sentinel) && y == Parent(ctx)
      requires z !in repr && z != sentinel
      requires z.color == Red && z.left == sentinel && z.right == sentinel
      requires ctx.InLeft? ==> keycmp(z.key, ctx.entry.key) < 0
      requires ctx.InRight? ==> keycmp(z.key, ctx.entry.key) > 0
      modifies this, z, repr
      ensures size == old(size) + 1 && kept == old(kept) + [Pair(old(z.key), old(z.value))]
      ensures Coupled() && At(ctx, Node(Red, Leaf, Entry(z, old(z.key), old(z.value)), Leaf), z)
      ensures repr == old(repr) + {z}
    {
      ghost var t := Node(Red, Leaf, Entry(z, z.key, z.value), Leaf);
      ReadOff(ctx, Leaf);
      z.parent := y;
      if y == null {
        root := z;
      } else if keycmp(z.key, y.key) < 0 {
        y.left := z;
      } else {
        y.right := z;
      }
      size := size + 1;
      shape, repr, kept := Plug(ctx, t), repr + {z}, kept + [Pair(z.key, z.value)];
      Hung(z, ctx);
    }

    /** The field writes of hanging a node, and no others, re-couple the pointers. */
    lemma Hung(z: RbNode, ctx: Ctx)
      requires CtxDistinct(ctx) && z !in Nodes(Plug(ctx, Leaf)) && z != sentinel
      requires repr == Nodes(Plug(ctx, Leaf)) + {z} && sentinel !in repr && sentinel.color == Black
      requires shape == Plug(ctx, Node(Red, Leaf, Entry(z, z.key, z.value), Leaf))
      requires root == if ctx.Top? then z else RootOf(Plug(ctx, Leaf), sentinel)
      requires Matches(z, View(z.key, z.value, Red, sentinel, sentinel, Parent(ctx)))
      requires !ctx.Top? ==> Matches(Parent(ctx), CtxView(ctx, z, sentinel))
      requires
        forall n, v :: n in repr && Demands(Plug(ctx, Leaf), null, sentinel, n, v) ==>
          n == z || n == Parent(ctx) || Matches(n, v)
      ensures Coupled() && At(ctx, Node(Red, Leaf, Entry(z, z.key, z.value), Leaf), z)
    {
      var t := Node(Red, Leaf, Entry(z, z.key, z.value), Leaf);
      PlugNodes(ctx, Leaf);
      assert Nodes(t) == {z} && Separate(ctx, t);
      PlugNodes(ctx, t);
      if !ctx.Top? {
        PlugRootAny(ctx, Leaf, t, sentinel);
      }
      forall n, v | n in repr && Demands(shape, null, sentinel, n, v) ensures Matches(n, v) {
        HangDemands(ctx, t.entry, sentinel, n, v);
        if Demands(Plug(ctx, Leaf), null, sentinel, n, v) {
          DemandsInside(Plug(ctx, Leaf), null, sentinel, n, v);
        }
      }
    }

    /** The end of an insert: a lone root turns black, a child of the root stays red. */
    method Settle(z: RbNode, ghost ctx: Ctx, ghost t: Tree)
      requires Coupled() && At(ctx, t, z) && AlmostRedBlack(ctx, t)
      modifies this`root, this`shape, repr
      ensures Coupled() && RedBlack(shape) && !IsRed(shape)
      ensures Inorder(shape) == old(Inorder(shape))
    {
      ReadOff(ctx, t);
      if z.parent == null {
        Paint(z, Black, ctx, t);
        return;
      }
      RaiseKeeps(ctx, t);
      ReadOff(ctx.up, Raise(ctx, t));
      if z.parent.parent == null {
        PlugRedBlack(ctx, t);
        return;
      }
      InsertFixup(z, ctx, t);
    }

    /** A new node in the empty place `ctx`, and the rules restored above it. */
    method Attach(key: Bytes, value: Bytes, y: RbNode?, ghost ctx: Ctx) returns (z: RbNode)
      requires Coupled() && At(ctx, Leaf, sentinel) && y == Parent(ctx) && Descending(ctx, Leaf)
      requires ctx.InLeft? ==> keycmp(key, ctx.entry.key) < 0
      requires ctx.InRight? ==> keycmp(key, ctx.entry.key) > 0
      modifies this, repr
      ensures Coupled() && RedBlack(shape) && !IsRed(shape)
      ensures size == old(size) + 1 && kept == old(kept) + [Pair(key, value)]
      ensures fresh(z) && repr == old(repr) + {z}
      ensures Inorder(shape) == Before(ctx) + [Pair(key, value)] + After(ctx)
    {
      z := new RbNode(key, value, sentinel);
      ghost var t := Node(Red, Leaf, Entry(z, key, value), Leaf);
      PlugInorder(ctx, t);
      assert AlmostRedBlack(ctx, t) && Inorder(t) == [Pair(key, value)];
      Hang(z, y, ctx);
      Settle(z, ctx, t);
    }

    /** A search that meets an equal key has met a kept pair. */
    lemma Met(ctx: Ctx, t: Tree, key: Bytes)
      requires Valid() && shape == Plug(ctx, t) && t.Node? && Equal(keycmp, key, t.entry.key)
      ensures Pair(t.entry.key, t.entry.value) in kept && KeyOrder.Has(keycmp, kept, key)
    {
      MetIsStored(ctx, t);
      StoredIsKept(keycmp, Bindings(), kept, t.entry, key);
      assert PairOf(t.entry) in multiset(kept);
    }

    /** A search that reaches an empty place proves that no kept key is equal. */
    lemma Missed(ctx: Ctx, key: Bytes)
      requires Valid() && shape == Plug(ctx, Leaf) && Fits(keycmp, ctx, key)
      ensures !KeyOrder.Has(keycmp, kept, key)
    {
      FitsMissing(keycmp, ctx, key);
      HasOfPermutation(keycmp, Bindings(), kept, key);
    }

    /** Walks down to the place of `key`: a stored key equal to it, or the empty place it fits. */
    method Locate(key: Bytes) returns (found: bool, y: RbNode?, ghost ctx: Ctx)
      requires Valid()
      ensures found == KeyOrder.Has(keycmp, kept, key)
      ensures !found ==>
        At(ctx, Leaf, sentinel) && y == Parent(ctx) && Descending(ctx, Leaf) && Fits(keycmp, ctx, key)
    {
      var x: RbNode := root;
      y := null;
      ghost var t := shape;
      ctx := Top;
      while x != sentinel
        invariant At(ctx, t, x) && y == Parent(ctx)
        invariant Descending(ctx, t) && Fits(keycmp, ctx, key)
        decreases t
      {
        ReadOff(ctx, t);
        StepDown(ctx, t);
        y := x;
        var cmp := keycmp(key, x.key);
        if cmp < 0 {
          x := x.left;
          ctx, t := InLeft(t.color, t.entry, t.right, ctx), t.left;
        } else if cmp > 0 {
          x := x.right;
          ctx, t := InRight(t.color, t.left, t.entry, ctx), t.right;
        } else {
          Met(ctx, t, key);
          return true, y, ctx;
        }
      }
      ReadOff(ctx, t);
      Missed(ctx, key);
      found := false;
    }

    /** The pairs once `p` is put where the search for its key ended. */
    lemma Placed(ctx: Ctx, p: Pair) returns (pairs: seq<Pair>)
      requires Valid() && shape == Plug(ctx, Leaf) && Fits(keycmp, ctx, p.key)
      ensures pairs == Before(ctx) + [p] + After(ctx)
      ensures Sorted(keycmp, pairs) && multiset(pairs) == multiset(kept + [p])
    {
      pairs := Before(ctx) + [p] + After(ctx);
      HungOrder(keycmp, ctx, p);
    }

    /** The second half of an insert: a new node where the search ended. */
    method Grow(key: Bytes, value: Bytes, y: RbNode?, ghost ctx: Ctx)
      requires Valid() && At(ctx, Leaf, sentinel) && y == Parent(ctx)
      requires Descending(ctx, Leaf) && Fits(keycmp, ctx, key)
      modifies this, repr
      ensures Valid() && kept == old(kept) + [Pair(key, value)]
      ensures old(repr) <= repr && forall n <- repr :: n in old(repr) || fresh(n)
    {
      ghost var pairs := Placed(ctx, Pair(key, value));
      var z := Attach(key, value, y, ctx);
      assert Bindings() == pairs;
    }

    /** Adds the pair, unless a stored key is equal to its key: then nothing changes. */
    method Insert(key: Bytes, value: Bytes)
      requires Valid()
      modifies this, repr
      ensures Valid()
      ensures old(repr) <= repr && forall n <- repr :: n in old(repr) || fresh(n)
      ensures kept == KeepFirst(keycmp, old(kept), Pair(key, value))
      ensures KeyOrder.Has(keycmp, old(kept), key) ==> shape == old(shape) && root == old(root)
    {
      var found, y, ctx := Locate(key);
      if !found {
        Grow(key, value, y, ctx);
      }
    }

    /** Search: some stored node whose key is equal to `key`, exactly when there is one. */
    method Find(key: Bytes) returns (n: RbNode?, ghost comparisons: nat)
      requires Valid()
      ensures n != null <==> KeyOrder.Has(keycmp, kept, key)
      ensures n != null ==> Equal(keycmp, key, n.key) && Pair(n.key, n.value) in kept
      ensures comparisons == Compares(keycmp, shape, key)
    {
      var cur: RbNode? := root;
      ghost var ctx, t := Top, shape;
      comparisons := 0;
      while cur != null && cur != sentinel
        invariant cur != null && At(ctx, t, cur)
        invariant Descending(ctx, t) && Fits(keycmp, ctx, key)
        invariant comparisons + Compares(keycmp, t, key) == Compares(keycmp, shape, key)
        decreases t
      {
        ReadOff(ctx, t);
        StepDown(ctx, t);
        var cmp := keycmp(key, cur.key);
        comparisons := comparisons + 1;
        if cmp == 0 {
          Met(ctx, t, key);
          return cur, comparisons;
        } else if cmp < 0 {
          cur := cur.left;
          ctx, t := InLeft(t.color, t.entry, t.right, ctx), t.left;
        } else {
          cur := cur.right;
          ctx, t := InRight(t.color, t.left, t.entry, ctx), t.right;
        }
      }
      ReadOff(ctx, t);
      Missed(ctx, key);
      n := null;
    }

    lemma KeptSize()
      requires Valid()
      ensures |Inorder(shape)| == size
    {
      assert |multiset(Bindings())| == |multiset(kept)|;
    }

    /** So a search makes at most 2 * log2(size + 1) comparisons. */
    lemma SearchBound(key: Bytes)
      requires Valid()
      ensures Pow2(Compares(keycmp, shape, key)) <= (size + 1) * (size + 1)
    {
      KeptSize();
      HeightLogarithmic(shape);
      ComparesHeight(keycmp, shape, key);
      Pow2Monotone(Compares(keycmp, shape, key), Height(shape));
    }

    method Get(key: Bytes) returns (r: Option<Bytes>)
      requires Valid()
      ensures r.Some? <==> KeyOrder.Has(keycmp, kept, key)
      ensures r.Some? ==> exists p :: p in kept && Equal(keycmp, key, p.key) && p.value == r.value
    {
      var n, _ := Find(key);
      if n == null {
        return None;
      }
      assert Pair(n.key, n.value) in kept;
      r := Some(n.value);
    }

    method Contains(key: Bytes) returns (b: bool)
      requires Valid()
      ensures b <==> KeyOrder.Has(keycmp, kept, key)
    {
      var n, _ := Find(key);
      b := n != null;
    }

    /** The callback sees the pairs of the subtree at `n` in key order. */
    method ForEachHelper(n: RbNode?, seen: seq<Pair>, ghost ctx: Ctx, ghost t: Tree) returns (seen': seq<Pair>)
      requires Coupled() && n != null && At(ctx, t, n)
      ensures seen' == seen + Inorder(t)
      decreases t
    {
      seen' := seen;
      ReadOff(ctx, t);
      if n != null && n != sentinel {
        ghost var (atL, atR) := (InLeft(t.color, t.entry, t.right, ctx), InRight(t.color, t.left, t.entry, ctx));
        seen' := ForEachHelper(n.left, seen', atL, t.left);
        seen' := seen' + [Pair(n.key, n.value)];
        seen' := ForEachHelper(n.right, seen', atR, t.right);
      }
    }

    /** Every kept pair is visited exactly once, in strictly increasing key order. */
    method ForEach() returns (seen: seq<Pair>)
      requires Valid()
      ensures multiset(seen) == multiset(kept) && Sorted(keycmp, seen)
    {
      seen := ForEachHelper(root, [], Top, shape);
      assert seen == Bindings();
    }
  }

  /** Inserting into one tree leaves another tree alone, although both share the sentinel. */
  method InsertBeside(t: RbTree, u: RbTree, key: Bytes, value: Bytes)
    requires t.Valid() && u.Valid() && t != u && t.repr !! u.repr && t.sentinel == u.sentinel
    modifies t, t.repr
    ensures t.Valid() && u.Valid() && t.repr !! u.repr
    ensures t.kept == KeepFirst(t.keycmp, old(t.kept), Pair(key, value))
    ensures u.shape == old(u.shape) && u.kept == old(u.kept)
  {
    ghost var others := u.repr;
    t.Insert(key, value);
    assert forall n <- others :: old(allocated(n));
    assert others !! t.repr;
  }
}
