/**
 The shape of a red-black tree (src/mbox-redblacktree.c) as a value: which node object
 sits where, and the context (zipper) around a subtree. Everything here is pure; the heap
 methods of RbHeap keep a ghost shape and prove that the pointers spell it out.
 */
module RbShape {
  import opened Bytes
  import opened KeyOrder

  datatype Color = Red | Black

  /** One tree node. The sentinel that stands for every missing child is a node too. */
  class RbNode {
    var key: Bytes
    var value: Bytes
    var color: Color
    var left: RbNode?
    var right: RbNode?
    var parent: RbNode?

    /** A new node is red and both its children are the sentinel. */
    constructor (key: Bytes, value: Bytes, sentinel: RbNode)
      ensures this.key == key && this.value == value && color == Red
      ensures left == sentinel && right == sentinel && parent == null
    {
      this.key, this.value, this.color := key, value, Red;
      this.left, this.right, this.parent := sentinel, sentinel, null;
    }
  }

  /** What a stored node means: its identity and its binding. */
  datatype Entry = Entry(node: RbNode, key: Bytes, value: Bytes)

  datatype Tree = Leaf | Node(color: Color, left: Tree, entry: Entry, right: Tree)

  /** The path from a subtree up to the root; `InLeft` means the hole is the left child. */
  datatype Ctx =
    | Top
    | InLeft(color: Color, entry: Entry, right: Tree, up: Ctx)
    | InRight(color: Color, left: Tree, entry: Entry, up: Ctx)

  ghost function Plug(ctx: Ctx, t: Tree): Tree {
    match ctx
    case Top => t
    case InLeft(c, e, r, up) => Plug(up, Node(c, t, e, r))
    case InRight(c, l, e, up) => Plug(up, Node(c, l, e, t))
  }

  // ---------- Which node objects a shape mentions ----------

  ghost function Nodes(t: Tree): set<RbNode> {
    match t
    case Leaf => {}
    case Node(_, l, e, r) => Nodes(l) + {e.node} + Nodes(r)
  }

  ghost function CtxNodes(ctx: Ctx): set<RbNode> {
    match ctx
    case Top => {}
    case InLeft(_, e, r, up) => {e.node} + Nodes(r) + CtxNodes(up)
    case InRight(_, l, e, up) => {e.node} + Nodes(l) + CtxNodes(up)
  }

  /** No node occurs twice. */
  ghost predicate Distinct(t: Tree) {
    match t
    case Leaf => true
    case Node(_, l, e, r) =>
      Distinct(l) && Distinct(r) && e.node !in Nodes(l) && e.node !in Nodes(r) && Nodes(l) !! Nodes(r)
  }

  ghost predicate CtxDistinct(ctx: Ctx) {
    match ctx
    case Top => true
    case InLeft(_, e, r, up) =>
      Distinct(r) && CtxDistinct(up) && e.node !in Nodes(r) && e.node !in CtxNodes(up) && Nodes(r) !! CtxNodes(up)
    case InRight(_, l, e, up) =>
      Distinct(l) && CtxDistinct(up) && e.node !in Nodes(l) && e.node !in CtxNodes(up) && Nodes(l) !! CtxNodes(up)
  }

  ghost predicate Separate(ctx: Ctx, t: Tree) {
    Distinct(t) && CtxDistinct(ctx) && Nodes(t) !! CtxNodes(ctx)
  }

  lemma {:induction false} PlugNodes(ctx: Ctx, t: Tree)
    ensures Nodes(Plug(ctx, t)) == CtxNodes(ctx) + Nodes(t)
    ensures Separate(ctx, t) ==> Distinct(Plug(ctx, t))
    decreases ctx
  {
    match ctx
    case Top =>
    case InLeft(c, e, r, up) => PlugNodes(up, Node(c, t, e, r));
    case InRight(c, l, e, up) => PlugNodes(up, Node(c, l, e, t));
  }

  // ---------- In-order contents ----------

  ghost function PairOf(e: Entry): Pair {
    Pair(e.key, e.value)
  }

  ghost function Inorder(t: Tree): seq<Pair> {
    match t
    case Leaf => []
    case Node(_, l, e, r) => Inorder(l) + [PairOf(e)] + Inorder(r)
  }

  /** What comes before the hole of a context, in order. */
  ghost function Before(ctx: Ctx): seq<Pair> {
    match ctx
    case Top => []
    case InLeft(_, _, _, up) => Before(up)
    case InRight(_, l, e, up) => Before(up) + Inorder(l) + [PairOf(e)]
  }

  ghost function After(ctx: Ctx): seq<Pair> {
    match ctx
    case Top => []
    case InLeft(_, e, r, up) => [PairOf(e)] + Inorder(r) + After(up)
    case InRight(_, _, _, up) => After(up)
  }

  lemma {:induction false} PlugInorder(ctx: Ctx, t: Tree)
    ensures Inorder(Plug(ctx, t)) == Before(ctx) + Inorder(t) + After(ctx)
    decreases ctx
  {
    match ctx
    case Top =>
    case InLeft(c, e, r, up) =>
      PlugInorder(up, Node(c, t, e, r));
    case InRight(c, l, e, up) =>
      PlugInorder(up, Node(c, l, e, t));
  }

  // ---------- The red-black rules ----------

  ghost predicate IsRed(t: Tree) {
    t.Node? && t.color == Red
  }

  /** Black nodes on the left spine; by Balanced it is the same on every path. */
  ghost function BlackHeight(t: Tree): nat {
    match t
    case Leaf => 0
    case Node(c, l, _, _) => BlackHeight(l) + if c == Black then 1 else 0
  }

  /** No red node has a red child, and every path below a node has the same black count. */
  ghost predicate RedBlack(t: Tree) {
    match t
    case Leaf => true
    case Node(c, l, _, r) =>
      RedBlack(l) && RedBlack(r) && BlackHeight(l) == BlackHeight(r) && (c == Red ==> !IsRed(l) && !IsRed(r))
  }

  /** A context is red-black around a hole of black height h; its outermost node is black. */
  ghost predicate CtxRedBlack(ctx: Ctx, h: nat) {
    match ctx
    case Top => true
    case InLeft(c, _, r, up) =>
      && RedBlack(r) && BlackHeight(r) == h
      && (c == Red ==> !IsRed(r) && !up.Top? && up.color == Black)
      && CtxRedBlack(up, if c == Black then h + 1 else h)
    case InRight(c, l, _, up) =>
      && RedBlack(l) && BlackHeight(l) == h
      && (c == Red ==> !IsRed(l) && !up.Top? && up.color == Black)
      && CtxRedBlack(up, if c == Black then h + 1 else h)
  }

  lemma {:induction false} PlugRedBlack(ctx: Ctx, t: Tree)
    requires RedBlack(t) && CtxRedBlack(ctx, BlackHeight(t))
    requires IsRed(t) ==> ctx.Top? || ctx.color == Black
    ensures RedBlack(Plug(ctx, t))
    ensures !ctx.Top? ==> !IsRed(Plug(ctx, t))
    decreases ctx
  {
    match ctx
    case Top =>
    case InLeft(c, e, r, up) =>
      if up.Top? {
        assert c == Black;
      }
      PlugRedBlack(up, Node(c, t, e, r));
    case InRight(c, l, e, up) =>
      if up.Top? {
        assert c == Black;
      }
      PlugRedBlack(up, Node(c, l, e, t));
  }

  // ---------- Height and size ----------

  ghost function Height(t: Tree): nat {
    match t
    case Leaf => 0
    case Node(_, l, _, r) => 1 + if Height(l) < Height(r) then Height(r) else Height(l)
  }

  function Pow2(n: nat): (p: nat)
    ensures p >= 1
  {
    if n == 0 then 1 else 2 * Pow2(n - 1)
  }

  lemma {:induction false} Pow2Add(m: nat, n: nat)
    ensures Pow2(m + n) == Pow2(m) * Pow2(n)
  {
    if m > 0 {
      Pow2Add(m - 1, n);
      calc {
        Pow2(m + n);
        2 * Pow2(m + n - 1);
        2 * (Pow2(m - 1) * Pow2(n));
        Pow2(m) * Pow2(n);
      }
    }
  }

  lemma {:induction false} Pow2Monotone(m: nat, n: nat)
    requires m <= n
    ensures Pow2(m) <= Pow2(n)
    decreases n
  {
    if m < n {
      Pow2Monotone(m, n - 1);
    }
  }

  lemma {:induction false} SizeAtLeast(t: Tree)
    requires RedBlack(t)
    ensures |Inorder(t)| + 1 >= Pow2(BlackHeight(t))
  {
    if t.Node? {
      SizeAtLeast(t.left);
      SizeAtLeast(t.right);
    }
  }

  lemma {:induction false} HeightAtMost(t: Tree)
    requires RedBlack(t)
    ensures Height(t) <= 2 * BlackHeight(t) + if IsRed(t) then 1 else 0
  {
    if t.Node? {
      HeightAtMost(t.left);
      HeightAtMost(t.right);
    }
  }

  /** The classic bound: height <= 2 * log2(n + 1), with the logarithm cleared. */
  lemma HeightLogarithmic(t: Tree)
    requires RedBlack(t) && !IsRed(t)
    ensures Pow2(Height(t)) <= (|Inorder(t)| + 1) * (|Inorder(t)| + 1)
  {
    var b := BlackHeight(t);
    SizeAtLeast(t);
    HeightAtMost(t);
    Pow2Monotone(Height(t), b + b);
    Pow2Add(b, b);
    MulMonotone(Pow2(b), |Inorder(t)| + 1);
  }

  lemma MulMonotone(a: nat, b: nat)
    requires a <= b
    ensures a * a <= b * b
  {
    assert a * a <= a * b <= b * b;
  }
}
