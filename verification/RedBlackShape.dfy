/**
 The mathematics behind the red-black tree of kvstore/NtyCo/core/nty_tree.h: trees, the
 contexts ("zippers") that describe a position in a tree, and what rotations and
 recolourings do to them. Nothing here mentions memory; `RedBlackTree` connects these
 values to nodes with pointers.
 */
module RedBlackShape {
  datatype Color = Red | Black

  datatype Tree<N> = Leaf | T(left: Tree<N>, node: N, color: Color, right: Tree<N>)

  /** A tree with one subtree missing, from the missing subtree up to the root. */
  datatype Ctx<N> =
    | Top
    | InLeft(up: Ctx<N>, node: N, color: Color, right: Tree<N>)
    | InRight(up: Ctx<N>, left: Tree<N>, node: N, color: Color)

  ghost function Plug<N>(ctx: Ctx<N>, t: Tree<N>): Tree<N> {
    match ctx
    case Top => t
    case InLeft(up, n, c, r) => Plug(up, T(t, n, c, r))
    case InRight(up, l, n, c) => Plug(up, T(l, n, c, t))
  }

  /** The in-order sequence of nodes: what the tree holds, and in which order. */
  ghost function Inorder<N>(t: Tree<N>): seq<N> {
    match t
    case Leaf => []
    case T(l, n, _, r) => Inorder(l) + [n] + Inorder(r)
  }

  ghost function Before<N>(ctx: Ctx<N>): seq<N> {
    match ctx
    case Top => []
    case InLeft(up, _, _, _) => Before(up)
    case InRight(up, l, n, _) => Before(up) + (Inorder(l) + [n])
  }

  ghost function After<N>(ctx: Ctx<N>): seq<N> {
    match ctx
    case Top => []
    case InLeft(up, n, _, r) => ([n] + Inorder(r)) + After(up)
    case InRight(up, _, _, _) => After(up)
  }

  lemma {:induction false} InorderPlug<N>(ctx: Ctx<N>, t: Tree<N>)
    ensures Inorder(Plug(ctx, t)) == Before(ctx) + Inorder(t) + After(ctx)
    decreases ctx
  {
    match ctx
    case Top =>
    case InLeft(up, n, c, r) =>
      InorderPlug(up, T(t, n, c, r));
      Regroup(Before(up), Inorder(t), [n], Inorder(r), After(up));
    case InRight(up, l, n, c) =>
      InorderPlug(up, T(l, n, c, t));
      Regroup(Before(up), Inorder(l), [n], Inorder(t), After(up));
  }

  lemma Regroup<N>(a: seq<N>, b: seq<N>, c: seq<N>, d: seq<N>, e: seq<N>)
    ensures a + (b + c + d) + e == a + b + ((c + d) + e) == (a + (b + c)) + d + e
    ensures a + (b + c + d) + e == (a + b) + c + (d + e)
  {
  }

  /** The in-order sequence, split at the node in focus. */
  lemma InorderFocus<N>(ctx: Ctx<N>, t: Tree<N>)
    requires t.T?
    ensures Inorder(Plug(ctx, t)) == (Before(ctx) + Inorder(t.left)) + [t.node] + (Inorder(t.right) + After(ctx))
  {
    InorderPlug(ctx, t);
    Regroup(Before(ctx), Inorder(t.left), [t.node], Inorder(t.right), After(ctx));
  }

  // ---------- The nodes of a tree, and that no node occurs twice ----------

  ghost function Nodes<N>(t: Tree<N>): set<N> {
    match t
    case Leaf => {}
    case T(l, n, _, r) => Nodes(l) + {n} + Nodes(r)
  }

  ghost function CtxNodes<N>(ctx: Ctx<N>): set<N> {
    match ctx
    case Top => {}
    case InLeft(up, n, _, r) => CtxNodes(up) + {n} + Nodes(r)
    case InRight(up, l, n, _) => CtxNodes(up) + {n} + Nodes(l)
  }

  ghost predicate Distinct<N>(t: Tree<N>) {
    match t
    case Leaf => true
    case T(l, n, _, r) =>
      && Distinct(l) && Distinct(r)
      && n !in Nodes(l) && n !in Nodes(r) && Nodes(l) !! Nodes(r)
  }

  ghost predicate CtxDistinct<N>(ctx: Ctx<N>) {
    match ctx
    case Top => true
    case InLeft(up, n, _, r) =>
      && CtxDistinct(up) && Distinct(r)
      && n !in CtxNodes(up) && n !in Nodes(r) && CtxNodes(up) !! Nodes(r)
    case InRight(up, l, n, _) =>
      && CtxDistinct(up) && Distinct(l)
      && n !in CtxNodes(up) && n !in Nodes(l) && CtxNodes(up) !! Nodes(l)
  }

  lemma {:induction false} PlugNodes<N>(ctx: Ctx<N>, t: Tree<N>)
    ensures Nodes(Plug(ctx, t)) == CtxNodes(ctx) + Nodes(t)
    ensures Distinct(Plug(ctx, t)) <==> CtxDistinct(ctx) && Distinct(t) && CtxNodes(ctx) !! Nodes(t)
    decreases ctx
  {
    match ctx
    case Top =>
    case InLeft(up, n, c, r) => PlugNodes(up, T(t, n, c, r));
    case InRight(up, l, n, c) => PlugNodes(up, T(l, n, c, t));
  }

  lemma {:induction false} NodesInorder<N>(t: Tree<N>, n: N)
    ensures n in Nodes(t) <==> n in Inorder(t)
    ensures |Nodes(t)| <= |Inorder(t)|
  {
    match t
    case Leaf =>
    case T(l, m, _, r) =>
      NodesInorder(l, n);
      NodesInorder(r, n);
      var lm := Nodes(l) + {m};
      assert |lm| <= |Nodes(l)| + 1;
      assert |lm + Nodes(r)| <= |lm| + |Nodes(r)|;
  }

  /** The position of a node in a tree. */
  ghost function Locate<N>(ctx: Ctx<N>, t: Tree<N>, n: N): (r: (Ctx<N>, Tree<N>))
    requires n in Nodes(t)
    ensures r.1.T? && r.1.node == n && Plug(r.0, r.1) == Plug(ctx, t)
    decreases t
  {
    if t.node == n then (ctx, t)
    else if n in Nodes(t.left) then Locate(InLeft(ctx, t.node, t.color, t.right), t.left, n)
    else Locate(InRight(ctx, t.left, t.node, t.color), t.right, n)
  }

  // ---------- The red-black conditions ----------

  ghost predicate IsRed<N>(t: Tree<N>) {
    t.T? && t.color == Red
  }

  /** No red node has a red child. */
  ghost predicate RedOk<N>(t: Tree<N>) {
    match t
    case Leaf => true
    case T(l, _, c, r) => RedOk(l) && RedOk(r) && (c == Red ==> !IsRed(l) && !IsRed(r))
  }

  /** The number of black nodes on the leftmost path, hence on every path of a balanced tree. */
  ghost function BlackHeight<N>(t: Tree<N>): nat {
    match t
    case Leaf => 0
    case T(l, _, c, _) => BlackHeight(l) + Blackness(c)
  }

  ghost function Blackness(c: Color): nat {
    if c == Black then 1 else 0
  }

  ghost predicate Balanced<N>(t: Tree<N>) {
    match t
    case Leaf => true
    case T(l, _, _, r) => Balanced(l) && Balanced(r) && BlackHeight(l) == BlackHeight(r)
  }

  ghost predicate RedBlack<N>(t: Tree<N>) {
    RedOk(t) && Balanced(t) && !IsRed(t)
  }

  // ---------- The same conditions for a context ----------

  /** The context is balanced around a hole of black height h. */
  ghost predicate CtxBalanced<N>(ctx: Ctx<N>, h: nat) {
    match ctx
    case Top => true
    case InLeft(up, _, c, s) => Balanced(s) && BlackHeight(s) == h && CtxBalanced(up, h + Blackness(c))
    case InRight(up, s, _, c) => Balanced(s) && BlackHeight(s) == h && CtxBalanced(up, h + Blackness(c))
  }

  /** The node above the hole exists and is black. */
  ghost predicate BlackAbove<N>(ctx: Ctx<N>) {
    !ctx.Top? && ctx.color == Black
  }

  /** No red node of the context is the root, or has a red parent or a red child. */
  ghost predicate CtxRedOk<N>(ctx: Ctx<N>) {
    match ctx
    case Top => true
    case InLeft(up, _, c, s) => CtxRedOk(up) && RedOk(s) && (c == Red ==> !IsRed(s) && BlackAbove(up))
    case InRight(up, s, _, c) => CtxRedOk(up) && RedOk(s) && (c == Red ==> !IsRed(s) && BlackAbove(up))
  }

  /** A context that accepts a subtree of black height h. */
  ghost predicate CtxOk<N>(ctx: Ctx<N>, h: nat) {
    CtxBalanced(ctx, h) && CtxRedOk(ctx)
  }

  ghost predicate SubtreeOk<N>(t: Tree<N>) {
    Balanced(t) && RedOk(t)
  }

  /** Red-black trees are exactly the plugged pairs of a good context and a good subtree. */
  lemma {:induction false} PlugRedBlack<N>(ctx: Ctx<N>, t: Tree<N>)
    ensures RedBlack(Plug(ctx, t)) <==>
            CtxOk(ctx, BlackHeight(t)) && SubtreeOk(t) && (IsRed(t) ==> BlackAbove(ctx))
    decreases ctx
  {
    match ctx
    case Top =>
    case InLeft(up, n, c, s) => PlugRedBlack(up, T(t, n, c, s));
    case InRight(up, s, n, c) => PlugRedBlack(up, T(s, n, c, t));
  }

  // ---------- One level of a context, on either side ----------

  datatype Side = L | R

  /** The tree with root `n` whose subtree on side `d` is `near`, and on the other side `far`. */
  ghost function Mk<N>(d: Side, near: Tree<N>, n: N, c: Color, far: Tree<N>): Tree<N> {
    if d == L then T(near, n, c, far) else T(far, n, c, near)
  }

  /** The context whose hole is on side `d` of `n`, with sibling `far`. */
  ghost function Frame<N>(d: Side, up: Ctx<N>, n: N, c: Color, far: Tree<N>): Ctx<N> {
    if d == L then InLeft(up, n, c, far) else InRight(up, far, n, c)
  }

  ghost function SideOf<N>(ctx: Ctx<N>): Side
    requires !ctx.Top?
  {
    if ctx.InLeft? then L else R
  }

  ghost function Sibling<N>(ctx: Ctx<N>): Tree<N>
    requires !ctx.Top?
  {
    if ctx.InLeft? then ctx.right else ctx.left
  }

  /** The subtree rooted at the node just above the hole. */
  ghost function Join<N>(ctx: Ctx<N>, t: Tree<N>): (r: Tree<N>)
    requires !ctx.Top?
    ensures Plug(ctx, t) == Plug(ctx.up, r)
  {
    Mk(SideOf(ctx), t, ctx.node, ctx.color, Sibling(ctx))
  }

  ghost function Painted<N>(t: Tree<N>, c: Color): Tree<N> {
    if t.T? then t.(color := c) else t
  }

  ghost function Depth<N>(ctx: Ctx<N>): nat {
    if ctx.Top? then 0 else 1 + Depth(ctx.up)
  }

  lemma OpenMk<N>(d: Side, near: Tree<N>, n: N, c: Color, far: Tree<N>)
    ensures Balanced(Mk(d, near, n, c, far)) <==>
            Balanced(near) && Balanced(far) && BlackHeight(near) == BlackHeight(far)
    ensures BlackHeight(near) == BlackHeight(far) ==>
            BlackHeight(Mk(d, near, n, c, far)) == BlackHeight(near) + Blackness(c)
    ensures RedOk(Mk(d, near, n, c, far)) <==>
            RedOk(near) && RedOk(far) && (c == Red ==> !IsRed(near) && !IsRed(far))
  {
  }

  lemma OpenFrame<N>(d: Side, up: Ctx<N>, n: N, c: Color, far: Tree<N>, h: nat)
    ensures CtxOk(Frame(d, up, n, c, far), h) <==>
            && CtxOk(up, h + Blackness(c)) && SubtreeOk(far) && BlackHeight(far) == h
            && (c == Red ==> !IsRed(far) && BlackAbove(up))
  {
  }

  /** A subtree and its repainting have the same subtrees. */
  lemma OpenPainted<N>(t: Tree<N>, c: Color)
    ensures Balanced(Painted(t, c)) <==> Balanced(t)
    ensures t.T? ==> BlackHeight(Painted(t, c)) + Blackness(t.color) == BlackHeight(t) + Blackness(c)
    ensures RedOk(t) ==> RedOk(Painted(t, Black))
  {
  }

  /** The context that leads through `outer` and then through `inner`. */
  ghost function Compose<N>(inner: Ctx<N>, outer: Ctx<N>): Ctx<N> {
    match inner
    case Top => outer
    case InLeft(up, n, c, r) => InLeft(Compose(up, outer), n, c, r)
    case InRight(up, l, n, c) => InRight(Compose(up, outer), l, n, c)
  }

  lemma {:induction false} PlugCompose<N>(inner: Ctx<N>, outer: Ctx<N>, t: Tree<N>)
    ensures Plug(Compose(inner, outer), t) == Plug(outer, Plug(inner, t))
    decreases inner
  {
    match inner
    case Top =>
    case InLeft(up, n, c, r) => PlugCompose(up, outer, T(t, n, c, r));
    case InRight(up, l, n, c) => PlugCompose(up, outer, T(l, n, c, t));
  }

  /** The red-black conditions do not depend on which node stands above the path. */
  lemma {:induction false} ComposeRename<N>(inner: Ctx<N>, up: Ctx<N>, l: Tree<N>, n: N, n': N, c: Color, h: nat)
    requires CtxOk(Compose(inner, InRight(up, l, n, c)), h)
    ensures CtxOk(Compose(inner, InRight(up, l, n', c)), h)
    ensures BlackAbove(Compose(inner, InRight(up, l, n, c))) <==> BlackAbove(Compose(inner, InRight(up, l, n', c)))
    decreases inner
  {
    match inner
    case Top =>
    case InLeft(i, _, d, _) => ComposeRename(i, up, l, n, n', c, h + Blackness(d));
    case InRight(i, _, _, d) => ComposeRename(i, up, l, n, n', c, h + Blackness(d));
  }

  // ---------- Insertion repair ----------

  /** The state of RB_INSERT_COLOR: a red subtree, possibly under a red parent, is the only flaw. */
  ghost predicate RedAt<N>(ctx: Ctx<N>, t: Tree<N>) {
    IsRed(t) && SubtreeOk(t) && CtxOk(ctx, BlackHeight(t))
  }

  /** A red parent has a parent of its own, and that one is black. */
  lemma GrandparentExists<N>(ctx: Ctx<N>, t: Tree<N>)
    requires RedAt(ctx, t) && !ctx.Top? && ctx.color == Red
    ensures !ctx.up.Top? && ctx.up.color == Black && !IsRed(Sibling(ctx))
  {
  }

  /** A red uncle: repainting moves the flaw two levels up. */
  lemma RedUncle<N>(ctx: Ctx<N>, t: Tree<N>)
    requires RedAt(ctx, t) && !ctx.Top? && ctx.color == Red && !ctx.up.Top? && IsRed(Sibling(ctx.up))
    ensures RedAt(ctx.up.up, Mk(SideOf(ctx.up), Painted(Join(ctx, t), Black), ctx.up.node, Red,
                                Painted(Sibling(ctx.up), Black)))
  {
    var d, up, u := SideOf(ctx.up), ctx.up.up, Sibling(ctx.up);
    OpenFrame(SideOf(ctx), ctx.up, ctx.node, Red, Sibling(ctx), BlackHeight(t));
    OpenFrame(d, up, ctx.up.node, Black, u, BlackHeight(t));
    OpenMk(SideOf(ctx), t, ctx.node, Black, Sibling(ctx));
    OpenPainted(u, Black);
    OpenMk(d, Painted(Join(ctx, t), Black), ctx.up.node, Red, Painted(u, Black));
  }

  /** An inner child: rotating the parent makes it an outer child. */
  lemma InnerChild<N>(ctx: Ctx<N>, t: Tree<N>)
    requires RedAt(ctx, t) && !ctx.Top? && ctx.color == Red && !ctx.up.Top? && SideOf(ctx) != SideOf(ctx.up)
    ensures t.T?
    ensures var d := SideOf(ctx.up);
            var near, far := if d == L then t.left else t.right, if d == L then t.right else t.left;
            RedAt(Frame(d, ctx.up, t.node, Red, far), Mk(d, Sibling(ctx), ctx.node, Red, near))
  {
    var d := SideOf(ctx.up);
    var near, far := if d == L then t.left else t.right, if d == L then t.right else t.left;
    OpenMk(d, near, t.node, Red, far);
    OpenFrame(SideOf(ctx), ctx.up, ctx.node, Red, Sibling(ctx), BlackHeight(t));
    OpenMk(d, Sibling(ctx), ctx.node, Red, near);
    OpenFrame(d, ctx.up, t.node, Red, far, BlackHeight(t));
  }

  /** A black uncle and an outer child: rotating the grandparent leaves a black parent. */
  lemma BlackUncle<N>(ctx: Ctx<N>, t: Tree<N>)
    requires RedAt(ctx, t) && !ctx.Top? && ctx.color == Red && !ctx.up.Top?
    requires SideOf(ctx) == SideOf(ctx.up) && !IsRed(Sibling(ctx.up))
    ensures RedAt(Frame(SideOf(ctx), ctx.up.up, ctx.node, Black,
                        Mk(SideOf(ctx), Sibling(ctx), ctx.up.node, Red, Sibling(ctx.up))), t)
  {
    var d, up, u := SideOf(ctx), ctx.up.up, Sibling(ctx.up);
    OpenFrame(d, ctx.up, ctx.node, Red, Sibling(ctx), BlackHeight(t));
    OpenFrame(d, up, ctx.up.node, Black, u, BlackHeight(t));
    OpenMk(d, Sibling(ctx), ctx.up.node, Red, u);
    OpenFrame(d, up, ctx.node, Black, Mk(d, Sibling(ctx), ctx.up.node, Red, u), BlackHeight(t));
  }

  /** When the parent is black or missing, painting the root black finishes the repair. */
  lemma {:induction false} InsertDone<N>(ctx: Ctx<N>, t: Tree<N>)
    requires RedAt(ctx, t) && (ctx.Top? || ctx.color == Black)
    ensures RedBlack(Painted(Plug(ctx, t), Black)) && Plug(ctx, t).T?
    ensures !ctx.Top? ==> Plug(ctx, t).color == Black
  {
    PlugRedBlack(ctx, t);
    PlugNodes(ctx, t);
  }

  // ---------- Deletion repair ----------

  /**
   The state of RB_REMOVE_COLOR: every path through the subtree `t` lacks one black node.
   The root of `t` may be red under its own red child; then painting it black repairs both.
   */
  ghost predicate Deficient<N>(ctx: Ctx<N>, t: Tree<N>) {
    Balanced(t) && RedOk(Painted(t, Black)) && CtxOk(ctx, BlackHeight(t) + 1)
  }

  lemma SiblingExists<N>(ctx: Ctx<N>, t: Tree<N>)
    requires Deficient(ctx, t) && !ctx.Top?
    ensures Sibling(ctx).T?
  {
  }

  /** A red sibling: rotating it up leaves the subtree with a black sibling and a red parent. */
  lemma RedSibling<N>(d: Side, up: Ctx<N>, n: N, c: Color, near: Tree<N>, s: N, far: Tree<N>, t: Tree<N>)
    requires Deficient(Frame(d, up, n, c, Mk(d, near, s, Red, far)), t)
    ensures c == Black && near.T? && near.color == Black
    ensures Deficient(Frame(d, Frame(d, up, s, Black, far), n, Red, near), t)
  {
    var h := BlackHeight(t) + 1;
    OpenFrame(d, up, n, c, Mk(d, near, s, Red, far), h);
    OpenMk(d, near, s, Red, far);
    OpenFrame(d, up, s, Black, far, h);
    OpenFrame(d, Frame(d, up, s, Black, far), n, Red, near, h);
  }

  /** A black sibling with two black children: painting it red moves the deficiency up. */
  lemma BlackNephews<N>(d: Side, up: Ctx<N>, n: N, c: Color, near: Tree<N>, s: N, far: Tree<N>, t: Tree<N>)
    requires Deficient(Frame(d, up, n, c, Mk(d, near, s, Black, far)), t) && !IsRed(t)
    requires !IsRed(near) && !IsRed(far)
    ensures Deficient(up, Mk(d, t, n, c, Mk(d, near, s, Red, far)))
  {
    OpenFrame(d, up, n, c, Mk(d, near, s, Black, far), BlackHeight(t) + 1);
    OpenMk(d, near, s, Black, far);
    OpenMk(d, near, s, Red, far);
    OpenMk(d, t, n, c, Mk(d, near, s, Red, far));
    OpenMk(d, t, n, Black, Mk(d, near, s, Red, far));
  }

  /** Only the near child of the sibling is red: rotating the sibling makes the far one red. */
  lemma RedNearNephew<N>(d: Side, up: Ctx<N>, n: N, c: Color, a: Tree<N>, r: N, b: Tree<N>, s: N, far: Tree<N>, t: Tree<N>)
    requires Deficient(Frame(d, up, n, c, Mk(d, Mk(d, a, r, Red, b), s, Black, far)), t) && !IsRed(far)
    ensures Deficient(Frame(d, up, n, c, Mk(d, a, r, Black, Mk(d, b, s, Red, far))), t)
  {
    var h := BlackHeight(t) + 1;
    OpenFrame(d, up, n, c, Mk(d, Mk(d, a, r, Red, b), s, Black, far), h);
    OpenMk(d, Mk(d, a, r, Red, b), s, Black, far);
    OpenMk(d, a, r, Red, b);
    OpenMk(d, b, s, Red, far);
    OpenMk(d, a, r, Black, Mk(d, b, s, Red, far));
    OpenFrame(d, up, n, c, Mk(d, a, r, Black, Mk(d, b, s, Red, far)), h);
  }

  /** The far child of the sibling is red: one rotation finishes the repair. */
  lemma {:induction false} RedFarNephew<N>(d: Side, up: Ctx<N>, n: N, c: Color, near: Tree<N>, s: N, far: Tree<N>, t: Tree<N>)
    requires Deficient(Frame(d, up, n, c, Mk(d, near, s, Black, far)), t) && !IsRed(t) && IsRed(far)
    ensures RedBlack(Plug(up, Mk(d, Mk(d, t, n, Black, near), s, c, Painted(far, Black))))
  {
    FarNephewOk(d, up, n, c, near, s, far, t);
    PlugRedBlack(up, Mk(d, Mk(d, t, n, Black, near), s, c, Painted(far, Black)));
  }

  lemma FarNephewOk<N>(d: Side, up: Ctx<N>, n: N, c: Color, near: Tree<N>, s: N, far: Tree<N>, t: Tree<N>)
    requires Deficient(Frame(d, up, n, c, Mk(d, near, s, Black, far)), t) && !IsRed(t) && IsRed(far)
    ensures var r := Mk(d, Mk(d, t, n, Black, near), s, c, Painted(far, Black));
            SubtreeOk(r) && CtxOk(up, BlackHeight(r)) && (IsRed(r) ==> BlackAbove(up))
  {
    OpenFrame(d, up, n, c, Mk(d, near, s, Black, far), BlackHeight(t) + 1);
    OpenMk(d, near, s, Black, far);
    OpenMk(d, t, n, Black, near);
    OpenPainted(far, Black);
    OpenMk(d, Mk(d, t, n, Black, near), s, c, Painted(far, Black));
  }

  /** At the root, or at a red node, painting the subtree black finishes the repair. */
  lemma {:induction false} DeleteDone<N>(ctx: Ctx<N>, t: Tree<N>)
    requires Deficient(ctx, t) && (ctx.Top? || IsRed(t))
    ensures RedBlack(Plug(ctx, Painted(t, Black)))
  {
    OpenPainted(t, Black);
    PlugRedBlack(ctx, Painted(t, Black));
  }

  /** Splicing out a node with at most one subtree. */
  lemma {:induction false} Spliced<N>(ctx: Ctx<N>, t: Tree<N>, sub: Tree<N>)
    requires RedBlack(Plug(ctx, t)) && t.T?
    requires (t.left == Leaf && sub == t.right) || (t.right == Leaf && sub == t.left)
    ensures t.color == Black ==> Deficient(ctx, sub)
    ensures t.color == Red ==> RedBlack(Plug(ctx, sub))
  {
    PlugRedBlack(ctx, t);
    PlugRedBlack(ctx, sub);
    OpenMk(L, t.left, t.node, t.color, t.right);
    OpenPainted(sub, Black);
  }

  // ---------- Replacing a node by its successor ----------

  /** `elm`, first below the right child of the root of `t`, takes the root's place. */
  ghost predicate SuccessorOf<N>(path: Ctx<N>, t: Tree<N>, sub: Tree<N>) {
    t.T? && sub.T? && sub.left == Leaf && Plug(path, sub) == t.right && Before(path) == []
  }

  lemma {:induction false} SuccessorColors<N>(path: Ctx<N>, ctx: Ctx<N>, t: Tree<N>, sub: Tree<N>)
    requires SuccessorOf(path, t, sub)
    ensures var at, at' := Compose(path, InRight(ctx, t.left, t.node, t.color)),
                           Compose(path, InRight(ctx, t.left, sub.node, t.color));
            && (Deficient(at, sub.right) ==> Deficient(at', sub.right))
            && (RedBlack(Plug(at, sub.right)) ==> RedBlack(Plug(at', sub.right)))
  {
    var at, at' := Compose(path, InRight(ctx, t.left, t.node, t.color)),
                   Compose(path, InRight(ctx, t.left, sub.node, t.color));
    var h := BlackHeight(sub.right);
    if CtxOk(at, h + 1) { ComposeRename(path, ctx, t.left, t.node, sub.node, t.color, h + 1); }
    if CtxOk(at, h) { ComposeRename(path, ctx, t.left, t.node, sub.node, t.color, h); }
    PlugRedBlack(at, sub.right);
    PlugRedBlack(at', sub.right);
  }

  lemma {:induction false} SuccessorInorder<N>(path: Ctx<N>, ctx: Ctx<N>, t: Tree<N>, sub: Tree<N>)
    requires SuccessorOf(path, t, sub)
    ensures Inorder(Plug(ctx, T(t.left, sub.node, t.color, Plug(path, sub.right)))) ==
            (Before(ctx) + Inorder(t.left)) + (Inorder(t.right) + After(ctx))
  {
    InorderPlug(path, sub);
    InorderPlug(path, sub.right);
    var rest := Inorder(Plug(path, sub.right));
    assert Inorder(sub) == [sub.node] + Inorder(sub.right);
    assert Inorder(t.right) == [sub.node] + rest;
    InorderFocus(ctx, T(t.left, sub.node, t.color, Plug(path, sub.right)));
    Shift(Before(ctx) + Inorder(t.left), [sub.node], rest, After(ctx));
  }

  lemma Shift<N>(a: seq<N>, b: seq<N>, c: seq<N>, d: seq<N>)
    ensures a + b + (c + d) == a + ((b + c) + d)
  {
  }

  // ---------- Height ----------

  ghost function Height<N>(t: Tree<N>): nat {
    match t
    case Leaf => 0
    case T(l, _, _, r) => 1 + if Height(l) < Height(r) then Height(r) else Height(l)
  }

  ghost function Pow2(n: nat): (p: nat)
    ensures p > 0
  {
    if n == 0 then 1 else 2 * Pow2(n - 1)
  }

  lemma {:induction false} Pow2Add(m: nat, n: nat)
    ensures Pow2(m + n) == Pow2(m) * Pow2(n)
  {
    if m != 0 {
      Pow2Add(m - 1, n);
      assert 2 * (Pow2(m - 1) * Pow2(n)) == (2 * Pow2(m - 1)) * Pow2(n);
    }
  }

  lemma {:induction false} Pow2Monotone(m: nat, n: nat)
    requires m <= n
    ensures Pow2(m) <= Pow2(n)
  {
    if m < n {
      Pow2Monotone(m, n - 1);
    }
  }

  lemma {:induction false} HeightBounds<N>(t: Tree<N>)
    requires SubtreeOk(t)
    ensures Height(t) <= 2 * BlackHeight(t) + (if IsRed(t) then 1 else 0)
    ensures Pow2(BlackHeight(t)) <= |Inorder(t)| + 1
  {
    match t
    case Leaf =>
    case T(l, _, _, r) =>
      HeightBounds(l);
      HeightBounds(r);
  }

  /** A red-black tree of n nodes has height at most 2 * log2(n + 1). */
  lemma {:induction false} HeightLogarithmic<N>(t: Tree<N>)
    requires RedBlack(t)
    ensures Pow2(Height(t)) <= (|Inorder(t)| + 1) * (|Inorder(t)| + 1)
  {
    HeightBounds(t);
    var h, n := BlackHeight(t), |Inorder(t)| + 1;
    Pow2Monotone(Height(t), h + h);
    Pow2Add(h, h);
    SquareMonotone(Pow2(h), n);
  }

  lemma SquareMonotone(a: nat, b: nat)
    requires a <= b
    ensures a * a <= b * b
  {
    assert b * b == a * a + (b - a) * (b + a);
  }
}
