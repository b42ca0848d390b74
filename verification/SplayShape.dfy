/**
 The mathematics behind the top-down splay tree of kvstore/NtyCo/core/nty_tree.h: the middle
 tree that is still being searched, and the two side trees that the loop has built so far.
 */
module SplayShape {
  datatype Tree<N> = Leaf | T(left: Tree<N>, node: N, right: Tree<N>)

  /** A side tree of smaller elements: a right spine whose last right child is still missing. */
  datatype LeftSide<N> = LeftEnd | LeftLink(up: LeftSide<N>, left: Tree<N>, node: N)

  /** A side tree of larger elements: a left spine whose last left child is still missing. */
  datatype RightSide<N> = RightEnd | RightLink(up: RightSide<N>, node: N, right: Tree<N>)

  ghost function Inorder<N>(t: Tree<N>): seq<N> {
    match t
    case Leaf => []
    case T(l, n, r) => Inorder(l) + [n] + Inorder(r)
  }

  ghost function LeftSeq<N>(ls: LeftSide<N>): seq<N> {
    match ls
    case LeftEnd => []
    case LeftLink(up, l, n) => LeftSeq(up) + (Inorder(l) + [n])
  }

  ghost function RightSeq<N>(rs: RightSide<N>): seq<N> {
    match rs
    case RightEnd => []
    case RightLink(up, n, r) => ([n] + Inorder(r)) + RightSeq(up)
  }

  /** All elements: those on the left, those in the middle, those on the right. */
  ghost function Whole<N>(ls: LeftSide<N>, mid: Tree<N>, rs: RightSide<N>): seq<N> {
    LeftSeq(ls) + Inorder(mid) + RightSeq(rs)
  }

  /** Filling the missing place of a side tree. */
  ghost function PlugLeft<N>(ls: LeftSide<N>, t: Tree<N>): Tree<N> {
    match ls
    case LeftEnd => t
    case LeftLink(up, l, n) => PlugLeft(up, T(l, n, t))
  }

  ghost function PlugRight<N>(rs: RightSide<N>, t: Tree<N>): Tree<N> {
    match rs
    case RightEnd => t
    case RightLink(up, n, r) => PlugRight(up, T(t, n, r))
  }

  lemma {:induction false} InorderPlugLeft<N>(ls: LeftSide<N>, t: Tree<N>)
    ensures Inorder(PlugLeft(ls, t)) == LeftSeq(ls) + Inorder(t)
    decreases ls
  {
    match ls
    case LeftEnd =>
    case LeftLink(up, l, n) =>
      InorderPlugLeft(up, T(l, n, t));
      Associate(LeftSeq(up), Inorder(l) + [n], Inorder(t));
  }

  lemma {:induction false} InorderPlugRight<N>(rs: RightSide<N>, t: Tree<N>)
    ensures Inorder(PlugRight(rs, t)) == Inorder(t) + RightSeq(rs)
    decreases rs
  {
    match rs
    case RightEnd =>
    case RightLink(up, n, r) =>
      InorderPlugRight(up, T(t, n, r));
      Associate(Inorder(t), [n], Inorder(r));
      Associate(Inorder(t), [n] + Inorder(r), RightSeq(up));
  }

  lemma Associate<N>(a: seq<N>, b: seq<N>, c: seq<N>)
    ensures a + b + c == a + (b + c)
  {
  }

  ghost function Size<N>(t: Tree<N>): nat {
    if t.Leaf? then 0 else Size(t.left) + 1 + Size(t.right)
  }

  /** What SPLAY_ASSEMBLE makes of the three trees. */
  ghost function Assembled<N>(ls: LeftSide<N>, mid: Tree<N>, rs: RightSide<N>): Tree<N>
    requires mid.T?
  {
    T(PlugLeft(ls, mid.left), mid.node, PlugRight(rs, mid.right))
  }

  lemma InorderAssembled<N>(ls: LeftSide<N>, mid: Tree<N>, rs: RightSide<N>)
    requires mid.T?
    ensures Inorder(Assembled(ls, mid, rs)) == Whole(ls, mid, rs)
    ensures Inorder(Assembled(ls, mid, rs).left) == LeftSeq(ls) + Inorder(mid.left)
    ensures Inorder(Assembled(ls, mid, rs).right) == Inorder(mid.right) + RightSeq(rs)
  {
    InorderPlugLeft(ls, mid.left);
    InorderPlugRight(rs, mid.right);
    Regroup(LeftSeq(ls), Inorder(mid.left), [mid.node], Inorder(mid.right), RightSeq(rs));
  }

  lemma Regroup<N>(a: seq<N>, b: seq<N>, c: seq<N>, d: seq<N>, e: seq<N>)
    ensures (a + b) + c + (d + e) == a + (b + c + d) + e
    ensures (a + b) + c + (d + e) == a + b + ((c + d) + e)
    ensures (a + b) + c + (d + e) == (a + (b + c)) + d + e
  {
  }

  // ---------- The steps of the loop on trees ----------

  ghost function RotatedRight<N>(t: Tree<N>): (r: Tree<N>)
    requires t.T? && t.left.T?
    ensures Inorder(r) == Inorder(t) && Nodes(r) == Nodes(t) && (Distinct(r) <==> Distinct(t))
  {
    Regroup([], Inorder(t.left.left), [t.left.node], Inorder(t.left.right), [t.node] + Inorder(t.right));
    T(t.left.left, t.left.node, T(t.left.right, t.node, t.right))
  }

  ghost function RotatedLeft<N>(t: Tree<N>): (r: Tree<N>)
    requires t.T? && t.right.T?
    ensures Inorder(r) == Inorder(t) && Nodes(r) == Nodes(t) && (Distinct(r) <==> Distinct(t))
  {
    T(T(t.left, t.node, t.right.left), t.right.node, t.right.right)
  }

  /** Handing the root and its right subtree to the right side keeps the whole sequence. */
  lemma LinkLeftKeeps<N>(ls: LeftSide<N>, mid: Tree<N>, rs: RightSide<N>)
    requires mid.T?
    ensures Whole(ls, mid.left, RightLink(rs, mid.node, mid.right)) == Whole(ls, mid, rs)
  {
    Regroup(LeftSeq(ls), Inorder(mid.left), [mid.node], Inorder(mid.right), RightSeq(rs));
  }

  lemma LinkRightKeeps<N>(ls: LeftSide<N>, mid: Tree<N>, rs: RightSide<N>)
    requires mid.T?
    ensures Whole(LeftLink(ls, mid.left, mid.node), mid.right, rs) == Whole(ls, mid, rs)
  {
    Regroup(LeftSeq(ls), Inorder(mid.left), [mid.node], Inorder(mid.right), RightSeq(rs));
  }

  // ---------- Nodes ----------

  ghost function Nodes<N>(t: Tree<N>): set<N> {
    match t
    case Leaf => {}
    case T(l, n, r) => Nodes(l) + {n} + Nodes(r)
  }

  ghost function LeftNodes<N>(ls: LeftSide<N>): set<N> {
    match ls
    case LeftEnd => {}
    case LeftLink(up, l, n) => LeftNodes(up) + {n} + Nodes(l)
  }

  ghost function RightNodes<N>(rs: RightSide<N>): set<N> {
    match rs
    case RightEnd => {}
    case RightLink(up, n, r) => RightNodes(up) + {n} + Nodes(r)
  }

  ghost predicate Distinct<N>(t: Tree<N>) {
    match t
    case Leaf => true
    case T(l, n, r) =>
      && Distinct(l) && Distinct(r)
      && n !in Nodes(l) && n !in Nodes(r) && Nodes(l) !! Nodes(r)
  }

  ghost predicate LeftDistinct<N>(ls: LeftSide<N>) {
    match ls
    case LeftEnd => true
    case LeftLink(up, l, n) =>
      && LeftDistinct(up) && Distinct(l)
      && n !in LeftNodes(up) && n !in Nodes(l) && LeftNodes(up) !! Nodes(l)
  }

  ghost predicate RightDistinct<N>(rs: RightSide<N>) {
    match rs
    case RightEnd => true
    case RightLink(up, n, r) =>
      && RightDistinct(up) && Distinct(r)
      && n !in RightNodes(up) && n !in Nodes(r) && RightNodes(up) !! Nodes(r)
  }

  lemma {:induction false} PlugLeftNodes<N>(ls: LeftSide<N>, t: Tree<N>)
    ensures Nodes(PlugLeft(ls, t)) == LeftNodes(ls) + Nodes(t)
    ensures Distinct(PlugLeft(ls, t)) <==> LeftDistinct(ls) && Distinct(t) && LeftNodes(ls) !! Nodes(t)
    decreases ls
  {
    match ls
    case LeftEnd =>
    case LeftLink(up, l, n) => PlugLeftNodes(up, T(l, n, t));
  }

  lemma {:induction false} PlugRightNodes<N>(rs: RightSide<N>, t: Tree<N>)
    ensures Nodes(PlugRight(rs, t)) == RightNodes(rs) + Nodes(t)
    ensures Distinct(PlugRight(rs, t)) <==> RightDistinct(rs) && Distinct(t) && RightNodes(rs) !! Nodes(t)
    decreases rs
  {
    match rs
    case RightEnd =>
    case RightLink(up, n, r) => PlugRightNodes(up, T(t, n, r));
  }

  lemma {:induction false} NodesInorder<N>(t: Tree<N>, n: N)
    ensures n in Nodes(t) <==> n in Inorder(t)
  {
    match t
    case Leaf =>
    case T(l, _, r) =>
      NodesInorder(l, n);
      NodesInorder(r, n);
  }
}
