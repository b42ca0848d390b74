/**
 The memory of the red-black tree: node records with left, right, parent and colour fields,
 and what it means that a memory holds a given tree. A memory is a map from nodes to link
 records, so a change of memory is a relation between two maps.
 */
module NodeStore {
  import opened RedBlackShape

  class Node<K> {
    const key: K
    var left: Node?<K>
    var right: Node?<K>
    var parent: Node?<K>
    var color: Color

    constructor (key: K)
      ensures this.key == key
    {
      this.key := key;
      left, right, parent, color := null, null, null, Red;
    }
  }

  /** The contents of a node's link record (RB_ENTRY). */
  datatype Link<K> = Link(left: Node?<K>, right: Node?<K>, parent: Node?<K>, color: Color)

  type Memory<K> = map<Node<K>, Link<K>>

  /** The current contents of the link records of the nodes in S. */
  ghost function Snap<K>(S: set<Node<K>>): Memory<K>
    reads S
  {
    map n | n in S :: Link(n.left, n.right, n.parent, n.color)
  }

  ghost function RootOf<K>(t: Tree<Node<K>>): Node?<K> {
    if t.Leaf? then null else t.node
  }

  ghost function ParentOf<K>(ctx: Ctx<Node<K>>): Node?<K> {
    if ctx.Top? then null else ctx.node
  }

  /** The root of the whole tree when the hole of `ctx` holds a subtree rooted at `hole`. */
  ghost function TopNode<K>(ctx: Ctx<Node<K>>, hole: Node?<K>): (r: Node?<K>)
    ensures !ctx.Top? ==> r in CtxNodes(ctx)
  {
    if ctx.Top? then hole else TopNode(ctx.up, ctx.node)
  }

  /** The memory spells out `t`, and the parent field of its root is `p`. */
  ghost predicate Holds<K>(m: Memory<K>, t: Tree<Node<K>>, p: Node?<K>) {
    match t
    case Leaf => true
    case T(l, n, c, r) =>
      && n in m && m[n] == Link(RootOf(l), RootOf(r), p, c)
      && Holds(m, l, n) && Holds(m, r, n)
  }

  /** The memory spells out `ctx` with a subtree rooted at `hole` in its hole. */
  ghost predicate HoldsCtx<K>(m: Memory<K>, ctx: Ctx<Node<K>>, hole: Node?<K>) {
    match ctx
    case Top => true
    case InLeft(up, n, c, r) =>
      && n in m && m[n] == Link(hole, RootOf(r), ParentOf(up), c)
      && Holds(m, r, n) && HoldsCtx(m, up, n)
    case InRight(up, l, n, c) =>
      && n in m && m[n] == Link(RootOf(l), hole, ParentOf(up), c)
      && Holds(m, l, n) && HoldsCtx(m, up, n)
  }

  ghost predicate Separate<K>(ctx: Ctx<Node<K>>, t: Tree<Node<K>>) {
    CtxDistinct(ctx) && Distinct(t) && CtxNodes(ctx) !! Nodes(t)
  }

  /** Memory `m` and root pointer `root` hold the tree that plugs `t` into `ctx`. */
  ghost predicate At<K>(m: Memory<K>, root: Node?<K>, ctx: Ctx<Node<K>>, t: Tree<Node<K>>) {
    && Separate(ctx, t) && CtxNodes(ctx) <= m.Keys && Nodes(t) <= m.Keys
    && root == TopNode(ctx, RootOf(t))
    && HoldsCtx(m, ctx, RootOf(t)) && Holds(m, t, ParentOf(ctx))
  }

  /** Moving the focus does not change what the memory holds. */
  lemma {:induction false} AtPlug<K>(m: Memory<K>, root: Node?<K>, ctx: Ctx<Node<K>>, t: Tree<Node<K>>)
    ensures At(m, root, ctx, t) <==> At(m, root, Top, Plug(ctx, t))
    decreases ctx
  {
    match ctx
    case Top =>
    case InLeft(up, n, c, r) => AtPlug(m, root, up, T(t, n, c, r));
    case InRight(up, l, n, c) => AtPlug(m, root, up, T(l, n, c, t));
  }

  lemma Parts<K>(m: Memory<K>, t: Tree<Node<K>>, p: Node?<K>)
    requires Holds(m, t, p) && Distinct(t) && t.T?
    ensures t.node in m && m[t.node] == Link(RootOf(t.left), RootOf(t.right), p, t.color)
    ensures Holds(m, t.left, t.node) && Holds(m, t.right, t.node)
    ensures Distinct(t.left) && Distinct(t.right) && Nodes(t.left) !! Nodes(t.right)
    ensures t.node !in Nodes(t.left) && t.node !in Nodes(t.right)
    ensures Nodes(t) == Nodes(t.left) + {t.node} + Nodes(t.right)
  {
  }

  // ---------- Framing ----------

  ghost predicate Agree<K>(m: Memory<K>, m': Memory<K>, S: set<Node<K>>) {
    forall n :: n in S ==> n in m && n in m' && m'[n] == m[n]
  }

  lemma {:induction false} HoldsFrame<K>(m: Memory<K>, m': Memory<K>, t: Tree<Node<K>>, p: Node?<K>)
    requires Holds(m, t, p) && Agree(m, m', Nodes(t))
    ensures Holds(m', t, p)
  {
    match t
    case Leaf =>
    case T(l, n, c, r) =>
      HoldsFrame(m, m', l, n);
      HoldsFrame(m, m', r, n);
  }

  lemma {:induction false} HoldsCtxFrame<K>(m: Memory<K>, m': Memory<K>, ctx: Ctx<Node<K>>, hole: Node?<K>)
    requires HoldsCtx(m, ctx, hole) && Agree(m, m', CtxNodes(ctx))
    ensures HoldsCtx(m', ctx, hole)
  {
    match ctx
    case Top =>
    case InLeft(up, n, c, r) =>
      HoldsFrame(m, m', r, n);
      HoldsCtxFrame(m, m', up, n);
    case InRight(up, l, n, c) =>
      HoldsFrame(m, m', l, n);
      HoldsCtxFrame(m, m', up, n);
  }

  /** `m'` differs from `m` at most on the nodes in D. */
  ghost predicate Changed<K>(m: Memory<K>, m': Memory<K>, D: set<Node?<K>>) {
    m'.Keys == m.Keys && forall n :: n in m && n !in D ==> m'[n] == m[n]
  }

  /** Changing the parent field of the root of `t`, and nothing else in `t`. */
  lemma HoldsReparented<K>(m: Memory<K>, m': Memory<K>, D: set<Node?<K>>, t: Tree<Node<K>>, p: Node?<K>, q: Node?<K>)
    requires Holds(m, t, p) && Distinct(t) && Nodes(t) <= m.Keys
    requires Changed(m, m', D) && D * Nodes(t) <= {RootOf(t)}
    requires t.T? ==> m'[t.node] == m[t.node].(parent := q)
    ensures Holds(m', t, q)
  {
    if t.T? {
      Parts(m, t, p);
      assert Agree(m, m', Nodes(t.left));
      assert Agree(m, m', Nodes(t.right));
      HoldsFrame(m, m', t.left, t.node);
      HoldsFrame(m, m', t.right, t.node);
    }
  }

  /** Node `p`, if any, has `y` in the child field that held `x`. */
  ghost predicate SlotChanged<K>(m: Memory<K>, m': Memory<K>, p: Node?<K>, x: Node<K>, y: Node?<K>) {
    p != null ==>
      p in m && p in m' && m'[p] == if m[p].left == x then m[p].(left := y) else m[p].(right := y)
  }

  /** Exchanging the subtree in the hole, and its slot in the context. */
  lemma Graft<K>(m: Memory<K>, root: Node?<K>, m': Memory<K>, root': Node?<K>, D: set<Node?<K>>,
                 ctx: Ctx<Node<K>>, t: Tree<Node<K>>, t': Tree<Node<K>>)
    requires At(m, root, ctx, t) && t.T?
    requires Changed(m, m', D) && D * CtxNodes(ctx) <= {ParentOf(ctx)}
    requires SlotChanged(m, m', ParentOf(ctx), t.node, RootOf(t'))
    requires root' == if ctx.Top? then RootOf(t') else root
    requires Holds(m', t', ParentOf(ctx)) && Separate(ctx, t') && Nodes(t') <= m.Keys
    ensures At(m', root', ctx, t')
  {
    match ctx
    case Top =>
    case InLeft(up, n, c, s) =>
      assert Agree(m, m', Nodes(s));
      assert Agree(m, m', CtxNodes(up));
      HoldsFrame(m, m', s, n);
      HoldsCtxFrame(m, m', up, n);
    case InRight(up, s, n, c) =>
      assert Agree(m, m', Nodes(s));
      assert Agree(m, m', CtxNodes(up));
      assert RootOf(s) != t.node;
      HoldsFrame(m, m', s, n);
      HoldsCtxFrame(m, m', up, n);
  }

  // ---------- Rotations ----------

  ghost predicate LeftRotated<K>(m: Memory<K>, m': Memory<K>, x: Node<K>, y: Node<K>, b: Node?<K>, p: Node?<K>) {
    && Changed(m, m', {x, y, b, p})
    && x in m && y in m && m'[x] == Link(m[x].left, b, y, m[x].color)
    && m'[y] == Link(x, m[y].right, p, m[y].color)
    && (b != null ==> b in m && m'[b] == m[b].(parent := x))
    && SlotChanged(m, m', p, x, y)
  }

  ghost function RotatedLeft<N>(t: Tree<N>): (r: Tree<N>)
    requires t.T? && t.right.T?
    ensures Nodes(r) == Nodes(t) && (Distinct(r) <==> Distinct(t))
    ensures Inorder(r) == Inorder(t)
  {
    T(T(t.left, t.node, t.color, t.right.left), t.right.node, t.right.color, t.right.right)
  }

  lemma RotateLeftCorrect<K>(m: Memory<K>, root: Node?<K>, m': Memory<K>, root': Node?<K>, ctx: Ctx<Node<K>>, t: Tree<Node<K>>)
    requires At(m, root, ctx, t) && t.T? && t.right.T?
    requires LeftRotated(m, m', t.node, t.right.node, RootOf(t.right.left), ParentOf(ctx))
    requires root' == if ctx.Top? then t.right.node else root
    ensures At(m', root', ctx, RotatedLeft(t))
  {
    var x, y, b, p := t.node, t.right.node, t.right.left, ParentOf(ctx);
    var D := {x, y, RootOf(b), p};
    Parts(m, t, p);
    Parts(m, t.right, x);
    assert p !in Nodes(t);
    HoldsReparented(m, m', D, b, y, x);
    assert Agree(m, m', Nodes(t.left));
    HoldsFrame(m, m', t.left, x);
    assert Agree(m, m', Nodes(t.right.right));
    HoldsFrame(m, m', t.right.right, y);
    Graft(m, root, m', root', D, ctx, t, RotatedLeft(t));
  }

  ghost predicate RightRotated<K>(m: Memory<K>, m': Memory<K>, x: Node<K>, y: Node<K>, b: Node?<K>, p: Node?<K>) {
    && Changed(m, m', {x, y, b, p})
    && x in m && y in m && m'[x] == Link(b, m[x].right, y, m[x].color)
    && m'[y] == Link(m[y].left, x, p, m[y].color)
    && (b != null ==> b in m && m'[b] == m[b].(parent := x))
    && SlotChanged(m, m', p, x, y)
  }

  ghost function RotatedRight<N>(t: Tree<N>): (r: Tree<N>)
    requires t.T? && t.left.T?
    ensures Nodes(r) == Nodes(t) && (Distinct(r) <==> Distinct(t))
    ensures Inorder(r) == Inorder(t)
  {
    T(t.left.left, t.left.node, t.left.color, T(t.left.right, t.node, t.color, t.right))
  }

  lemma RotateRightCorrect<K>(m: Memory<K>, root: Node?<K>, m': Memory<K>, root': Node?<K>, ctx: Ctx<Node<K>>, t: Tree<Node<K>>)
    requires At(m, root, ctx, t) && t.T? && t.left.T?
    requires RightRotated(m, m', t.node, t.left.node, RootOf(t.left.right), ParentOf(ctx))
    requires root' == if ctx.Top? then t.left.node else root
    ensures At(m', root', ctx, RotatedRight(t))
  {
    var x, y, b, p := t.node, t.left.node, t.left.right, ParentOf(ctx);
    var D := {x, y, RootOf(b), p};
    Parts(m, t, p);
    Parts(m, t.left, x);
    assert p !in Nodes(t);
    HoldsReparented(m, m', D, b, y, x);
    assert Agree(m, m', Nodes(t.right));
    HoldsFrame(m, m', t.right, x);
    assert Agree(m, m', Nodes(t.left.left));
    HoldsFrame(m, m', t.left.left, y);
    Graft(m, root, m', root', D, ctx, t, RotatedRight(t));
  }

  // ---------- Removing, replacing, adding and painting a node ----------

  /** `x` loses its place to `y`, the root of its only subtree. */
  ghost predicate SplicedOut<K>(m: Memory<K>, m': Memory<K>, x: Node<K>, y: Node?<K>, p: Node?<K>) {
    && Changed(m, m', {y, p})
    && (y != null ==> y in m && m'[y] == m[y].(parent := p))
    && SlotChanged(m, m', p, x, y)
  }

  lemma SpliceCorrect<K>(m: Memory<K>, root: Node?<K>, m': Memory<K>, root': Node?<K>, ctx: Ctx<Node<K>>, t: Tree<Node<K>>, sub: Tree<Node<K>>)
    requires At(m, root, ctx, t) && t.T? && (sub == t.left || sub == t.right)
    requires SplicedOut(m, m', t.node, RootOf(sub), ParentOf(ctx))
    requires root' == if ctx.Top? then RootOf(sub) else root
    ensures At(m', root', ctx, sub)
  {
    var p := ParentOf(ctx);
    var D := {RootOf(sub), p};
    Parts(m, t, p);
    HoldsReparented(m, m', D, sub, t.node, p);
    Graft(m, root, m', root', D, ctx, t, sub);
  }

  /** `y` takes over the link record, and so the place, of `x`. */
  ghost predicate TakenOver<K>(m: Memory<K>, m': Memory<K>, x: Node<K>, y: Node<K>) {
    x in m && y in m &&
    var Link(l, r, p, c) := m[x];
    && Changed(m, m', {y, l, r, p})
    && m'[y] == m[x]
    && (l != null ==> l in m && m'[l] == m[l].(parent := y))
    && (r != null ==> r in m && m'[r] == m[r].(parent := y))
    && SlotChanged(m, m', p, x, y)
  }

  lemma TakeOverCorrect<K>(m: Memory<K>, root: Node?<K>, m': Memory<K>, root': Node?<K>, ctx: Ctx<Node<K>>, t: Tree<Node<K>>, y: Node<K>)
    requires At(m, root, ctx, t) && t.T? && y !in Nodes(t) && y !in CtxNodes(ctx)
    requires TakenOver(m, m', t.node, y)
    requires root' == if ctx.Top? then y else root
    ensures At(m', root', ctx, T(t.left, y, t.color, t.right))
  {
    var p := ParentOf(ctx);
    var D := {y, RootOf(t.left), RootOf(t.right), p};
    Parts(m, t, p);
    assert p !in Nodes(t);
    HoldsReparented(m, m', D, t.left, t.node, y);
    HoldsReparented(m, m', D, t.right, t.node, y);
    Graft(m, root, m', root', D, ctx, t, T(t.left, y, t.color, t.right));
  }

  lemma PaintCorrect<K>(m: Memory<K>, root: Node?<K>, m': Memory<K>, ctx: Ctx<Node<K>>, t: Tree<Node<K>>, c: Color)
    requires At(m, root, ctx, t) && t.T?
    requires Changed(m, m', {t.node}) && m'[t.node] == m[t.node].(color := c)
    ensures At(m', root, ctx, t.(color := c))
  {
    Parts(m, t, ParentOf(ctx));
    assert Agree(m, m', Nodes(t.left));
    assert Agree(m, m', Nodes(t.right));
    HoldsFrame(m, m', t.left, t.node);
    HoldsFrame(m, m', t.right, t.node);
    assert Agree(m, m', CtxNodes(ctx));
    HoldsCtxFrame(m, m', ctx, t.node);
  }

  /** A new red node is hung in an empty hole. */
  lemma AttachCorrect<K>(m: Memory<K>, root: Node?<K>, m': Memory<K>, root': Node?<K>, ctx: Ctx<Node<K>>, n: Node<K>)
    requires At(m, root, ctx, Leaf) && n !in CtxNodes(ctx) && n in m
    requires Changed(m, m', {n, ParentOf(ctx)}) && m'[n] == Link(null, null, ParentOf(ctx), Red)
    requires !ctx.Top? ==>
      m'[ctx.node] == if ctx.InLeft? then m[ctx.node].(left := n) else m[ctx.node].(right := n)
    requires root' == if ctx.Top? then n else root
    ensures At(m', root', ctx, T(Leaf, n, Red, Leaf))
  {
    if !ctx.Top? {
      var s := Sibling(ctx);
      assert Agree(m, m', Nodes(s));
      HoldsFrame(m, m', s, ctx.node);
      assert Agree(m, m', CtxNodes(ctx.up));
      HoldsCtxFrame(m, m', ctx.up, ctx.node);
    }
  }
}
