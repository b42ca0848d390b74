/**
 The memory of the splay tree: node records with left and right fields, and what it means
 that a memory holds the three trees of the splay loop.
 */
module SplayStore {
  import opened SplayShape

  class Node<K> {
    const key: K
    var left: Node?<K>
    var right: Node?<K>

    constructor (key: K)
      ensures this.key == key && left == null && right == null
    {
      this.key := key;
      left, right := null, null;
    }
  }

  /** The contents of a node's link record (SPLAY_ENTRY). */
  datatype Link<K> = Link(left: Node?<K>, right: Node?<K>)

  type Memory<K> = map<Node<K>, Link<K>>

  ghost function Snap<K>(S: set<Node<K>>): Memory<K>
    reads S
  {
    map n | n in S :: Link(n.left, n.right)
  }

  ghost function RootOf<K>(t: Tree<Node<K>>): Node?<K> {
    if t.Leaf? then null else t.node
  }

  /** The memory spells out `t`. */
  ghost predicate Holds<K>(m: Memory<K>, t: Tree<Node<K>>) {
    match t
    case Leaf => true
    case T(l, n, r) => n in m && m[n] == Link(RootOf(l), RootOf(r)) && Holds(m, l) && Holds(m, r)
  }

  /** The node whose right field is the missing place; `d` is the dummy node. */
  ghost function LeftCursor<K>(ls: LeftSide<Node<K>>, d: Node<K>): Node<K> {
    if ls.LeftEnd? then d else ls.node
  }

  ghost function RightCursor<K>(rs: RightSide<Node<K>>, d: Node<K>): Node<K> {
    if rs.RightEnd? then d else rs.node
  }

  /** The memory spells out the left side tree, whose root is the right field of `d`. */
  ghost predicate HoldsLeft<K>(m: Memory<K>, ls: LeftSide<Node<K>>, d: Node<K>) {
    match ls
    case LeftEnd => true
    case LeftLink(up, l, n) =>
      && n in m && m[n].left == RootOf(l) && Holds(m, l)
      && LeftCursor(up, d) in m && m[LeftCursor(up, d)].right == n && HoldsLeft(m, up, d)
  }

  /** The memory spells out the right side tree, whose root is the left field of `d`. */
  ghost predicate HoldsRight<K>(m: Memory<K>, rs: RightSide<Node<K>>, d: Node<K>) {
    match rs
    case RightEnd => true
    case RightLink(up, n, r) =>
      && n in m && m[n].right == RootOf(r) && Holds(m, r)
      && RightCursor(up, d) in m && m[RightCursor(up, d)].left == n && HoldsRight(m, up, d)
  }

  ghost predicate Separate<K>(d: Node<K>, ls: LeftSide<Node<K>>, mid: Tree<Node<K>>, rs: RightSide<Node<K>>) {
    && LeftDistinct(ls) && Distinct(mid) && RightDistinct(rs)
    && LeftNodes(ls) !! Nodes(mid) && LeftNodes(ls) !! RightNodes(rs) && Nodes(mid) !! RightNodes(rs)
    && d !in LeftNodes(ls) && d !in Nodes(mid) && d !in RightNodes(rs)
  }

  /** Moving the root and one subtree to a side keeps the set of nodes. */
  lemma AllNodesLinked<K>(ls: LeftSide<Node<K>>, mid: Tree<Node<K>>, rs: RightSide<Node<K>>)
    requires mid.T?
    ensures AllNodes(ls, mid.left, RightLink(rs, mid.node, mid.right)) == AllNodes(ls, mid, rs)
    ensures AllNodes(LeftLink(ls, mid.left, mid.node), mid.right, rs) == AllNodes(ls, mid, rs)
  {
  }

  ghost function AllNodes<K>(ls: LeftSide<Node<K>>, mid: Tree<Node<K>>, rs: RightSide<Node<K>>): set<Node<K>> {
    LeftNodes(ls) + Nodes(mid) + RightNodes(rs)
  }

  /** The memory holds the three trees of the splay loop. */
  ghost predicate Three<K>(m: Memory<K>, d: Node<K>, ls: LeftSide<Node<K>>, mid: Tree<Node<K>>, rs: RightSide<Node<K>>) {
    && Separate(d, ls, mid, rs) && d in m && AllNodes(ls, mid, rs) <= m.Keys
    && HoldsLeft(m, ls, d) && Holds(m, mid) && HoldsRight(m, rs, d)
  }

  lemma Parts<K>(m: Memory<K>, t: Tree<Node<K>>)
    requires Holds(m, t) && Distinct(t) && t.T?
    ensures t.node in m && m[t.node] == Link(RootOf(t.left), RootOf(t.right))
    ensures Holds(m, t.left) && Holds(m, t.right)
    ensures Distinct(t.left) && Distinct(t.right) && Nodes(t.left) !! Nodes(t.right)
    ensures t.node !in Nodes(t.left) && t.node !in Nodes(t.right)
    ensures Nodes(t) == Nodes(t.left) + {t.node} + Nodes(t.right)
  {
  }

  // ---------- Framing ----------

  ghost predicate Agree<K>(m: Memory<K>, m': Memory<K>, S: set<Node<K>>) {
    forall n :: n in S ==> n in m && n in m' && m'[n] == m[n]
  }

  lemma {:induction false} HoldsFrame<K>(m: Memory<K>, m': Memory<K>, t: Tree<Node<K>>)
    requires Holds(m, t) && Agree(m, m', Nodes(t))
    ensures Holds(m', t)
  {
    match t
    case Leaf =>
    case T(l, n, r) =>
      HoldsFrame(m, m', l);
      HoldsFrame(m, m', r);
  }

  /** The left side does not depend on the missing place, nor on the left field of the dummy. */
  lemma {:induction false} HoldsLeftFrame<K>(m: Memory<K>, m': Memory<K>, ls: LeftSide<Node<K>>, d: Node<K>)
    requires HoldsLeft(m, ls, d) && LeftDistinct(ls) && d !in LeftNodes(ls) && d in m && d in m'
    requires Agree(m, m', LeftNodes(ls) - {LeftCursor(ls, d)})
    requires ls.LeftLink? ==> ls.node in m' && m'[ls.node].left == m[ls.node].left && m'[d].right == m[d].right
    ensures HoldsLeft(m', ls, d)
  {
    match ls
    case LeftEnd =>
    case LeftLink(up, l, n) =>
      assert Agree(m, m', Nodes(l));
      HoldsFrame(m, m', l);
      assert Agree(m, m', LeftNodes(up));
      HoldsLeftFrame(m, m', up, d);
  }

  lemma {:induction false} HoldsRightFrame<K>(m: Memory<K>, m': Memory<K>, rs: RightSide<Node<K>>, d: Node<K>)
    requires HoldsRight(m, rs, d) && RightDistinct(rs) && d !in RightNodes(rs) && d in m && d in m'
    requires Agree(m, m', RightNodes(rs) - {RightCursor(rs, d)})
    requires rs.RightLink? ==> rs.node in m' && m'[rs.node].right == m[rs.node].right && m'[d].left == m[d].left
    ensures HoldsRight(m', rs, d)
  {
    match rs
    case RightEnd =>
    case RightLink(up, n, r) =>
      assert Agree(m, m', Nodes(r));
      HoldsFrame(m, m', r);
      assert Agree(m, m', RightNodes(up));
      HoldsRightFrame(m, m', up, d);
  }

  /** Filling the missing place of the left side completes it. */
  lemma {:induction false} HoldsPlugLeft<K>(m: Memory<K>, ls: LeftSide<Node<K>>, d: Node<K>, t: Tree<Node<K>>)
    requires HoldsLeft(m, ls, d) && Holds(m, t) && d in m
    requires LeftCursor(ls, d) in m && m[LeftCursor(ls, d)].right == RootOf(t)
    ensures Holds(m, PlugLeft(ls, t)) && m[d].right == RootOf(PlugLeft(ls, t))
    decreases ls
  {
    if ls.LeftLink? { HoldsPlugLeft(m, ls.up, d, T(ls.left, ls.node, t)); }
  }

  lemma {:induction false} HoldsPlugRight<K>(m: Memory<K>, rs: RightSide<Node<K>>, d: Node<K>, t: Tree<Node<K>>)
    requires HoldsRight(m, rs, d) && Holds(m, t) && d in m
    requires RightCursor(rs, d) in m && m[RightCursor(rs, d)].left == RootOf(t)
    ensures Holds(m, PlugRight(rs, t)) && m[d].left == RootOf(PlugRight(rs, t))
    decreases rs
  {
    if rs.RightLink? { HoldsPlugRight(m, rs.up, d, T(t, rs.node, rs.right)); }
  }

  // ---------- The steps of the loop on memory ----------

  /** `m'` differs from `m` at most on the nodes in D. */
  ghost predicate Changed<K>(m: Memory<K>, m': Memory<K>, D: set<Node<K>>) {
    m'.Keys == m.Keys && forall n :: n in m && n !in D ==> m'[n] == m[n]
  }

  /** The side trees survive a change inside the middle tree. */
  lemma MiddleChanged<K>(m: Memory<K>, m': Memory<K>, D: set<Node<K>>, d: Node<K>,
                         ls: LeftSide<Node<K>>, mid: Tree<Node<K>>, rs: RightSide<Node<K>>, mid': Tree<Node<K>>)
    requires Three(m, d, ls, mid, rs) && Changed(m, m', D) && D <= Nodes(mid)
    requires Holds(m', mid') && Nodes(mid') == Nodes(mid) && Distinct(mid')
    ensures Three(m', d, ls, mid', rs)
  {
    assert Agree(m, m', LeftNodes(ls));
    HoldsLeftFrame(m, m', ls, d);
    assert Agree(m, m', RightNodes(rs));
    HoldsRightFrame(m, m', rs, d);
  }

  /** SPLAY_ROTATE_RIGHT. */
  lemma RotateRightCorrect<K>(m: Memory<K>, m': Memory<K>, d: Node<K>, ls: LeftSide<Node<K>>, mid: Tree<Node<K>>, rs: RightSide<Node<K>>)
    requires Three(m, d, ls, mid, rs) && mid.T? && mid.left.T?
    requires var x, y := mid.node, mid.left.node;
      && Changed(m, m', {x, y})
      && m'[x] == m[x].(left := m[y].right) && m'[y] == m[y].(right := x)
    ensures Three(m', d, ls, RotatedRight(mid), rs)
  {
    var x, y := mid.node, mid.left.node;
    Parts(m, mid);
    Parts(m, mid.left);
    assert Agree(m, m', Nodes(mid.left.left));
    HoldsFrame(m, m', mid.left.left);
    assert Agree(m, m', Nodes(mid.left.right));
    HoldsFrame(m, m', mid.left.right);
    assert Agree(m, m', Nodes(mid.right));
    HoldsFrame(m, m', mid.right);
    MiddleChanged(m, m', {x, y}, d, ls, mid, rs, RotatedRight(mid));
  }

  /** SPLAY_ROTATE_LEFT. */
  lemma RotateLeftCorrect<K>(m: Memory<K>, m': Memory<K>, d: Node<K>, ls: LeftSide<Node<K>>, mid: Tree<Node<K>>, rs: RightSide<Node<K>>)
    requires Three(m, d, ls, mid, rs) && mid.T? && mid.right.T?
    requires var x, y := mid.node, mid.right.node;
      && Changed(m, m', {x, y})
      && m'[x] == m[x].(right := m[y].left) && m'[y] == m[y].(left := x)
    ensures Three(m', d, ls, RotatedLeft(mid), rs)
  {
    var x, y := mid.node, mid.right.node;
    Parts(m, mid);
    Parts(m, mid.right);
    assert Agree(m, m', Nodes(mid.left));
    HoldsFrame(m, m', mid.left);
    assert Agree(m, m', Nodes(mid.right.left));
    HoldsFrame(m, m', mid.right.left);
    assert Agree(m, m', Nodes(mid.right.right));
    HoldsFrame(m, m', mid.right.right);
    MiddleChanged(m, m', {x, y}, d, ls, mid, rs, RotatedLeft(mid));
  }

  /** SPLAY_LINKLEFT: the root of the middle tree becomes the end of the right side. */
  lemma LinkLeftCorrect<K>(m: Memory<K>, m': Memory<K>, d: Node<K>, ls: LeftSide<Node<K>>, mid: Tree<Node<K>>, rs: RightSide<Node<K>>)
    requires Three(m, d, ls, mid, rs) && mid.T?
    requires var c := RightCursor(rs, d);
      c in m && Changed(m, m', {c}) && m'[c] == m[c].(left := mid.node)
    ensures Three(m', d, ls, mid.left, RightLink(rs, mid.node, mid.right))
  {
    assert Agree(m, m', LeftNodes(ls));
    HoldsLeftFrame(m, m', ls, d);
    HoldsRightFrame(m, m', rs, d);
    assert Agree(m, m', Nodes(mid));
    HoldsFrame(m, m', mid);
  }

  /** SPLAY_LINKRIGHT: the root of the middle tree becomes the end of the left side. */
  lemma LinkRightCorrect<K>(m: Memory<K>, m': Memory<K>, d: Node<K>, ls: LeftSide<Node<K>>, mid: Tree<Node<K>>, rs: RightSide<Node<K>>)
    requires Three(m, d, ls, mid, rs) && mid.T?
    requires var c := LeftCursor(ls, d);
      c in m && Changed(m, m', {c}) && m'[c] == m[c].(right := mid.node)
    ensures Three(m', d, LeftLink(ls, mid.left, mid.node), mid.right, rs)
  {
    assert Agree(m, m', RightNodes(rs));
    HoldsRightFrame(m, m', rs, d);
    HoldsLeftFrame(m, m', ls, d);
    assert Agree(m, m', Nodes(mid));
    HoldsFrame(m, m', mid);
  }

  /** The effect of SPLAY_ASSEMBLE on memory; `a` and `b` are the two cursors. */
  ghost predicate IsAssembled<K>(m: Memory<K>, m': Memory<K>, root: Node<K>, d: Node<K>, a: Node<K>, b: Node<K>) {
    && Changed(m, m', {root, a, b}) && root in m && d in m && a in m && b in m
    && m'[a].right == m[root].left && m'[b].left == m[root].right
    && (a != b ==> m'[a].left == m[a].left && m'[b].right == m[b].right)
    && m'[root] == Link(m'[d].right, m'[d].left)
  }

  lemma AssembleLeft<K>(m: Memory<K>, m': Memory<K>, d: Node<K>, ls: LeftSide<Node<K>>, mid: Tree<Node<K>>, rs: RightSide<Node<K>>)
    requires Three(m, d, ls, mid, rs) && mid.T?
    requires IsAssembled(m, m', mid.node, d, LeftCursor(ls, d), RightCursor(rs, d))
    ensures Holds(m', PlugLeft(ls, mid.left)) && m'[d].right == RootOf(PlugLeft(ls, mid.left))
  {
    Parts(m, mid);
    HoldsLeftFrame(m, m', ls, d);
    assert Agree(m, m', Nodes(mid.left));
    HoldsFrame(m, m', mid.left);
    HoldsPlugLeft(m', ls, d, mid.left);
  }

  lemma AssembleRight<K>(m: Memory<K>, m': Memory<K>, d: Node<K>, ls: LeftSide<Node<K>>, mid: Tree<Node<K>>, rs: RightSide<Node<K>>)
    requires Three(m, d, ls, mid, rs) && mid.T?
    requires IsAssembled(m, m', mid.node, d, LeftCursor(ls, d), RightCursor(rs, d))
    ensures Holds(m', PlugRight(rs, mid.right)) && m'[d].left == RootOf(PlugRight(rs, mid.right))
  {
    Parts(m, mid);
    HoldsRightFrame(m, m', rs, d);
    assert Agree(m, m', Nodes(mid.right));
    HoldsFrame(m, m', mid.right);
    HoldsPlugRight(m', rs, d, mid.right);
  }

  lemma AssembleCorrect<K>(m: Memory<K>, m': Memory<K>, d: Node<K>, ls: LeftSide<Node<K>>, mid: Tree<Node<K>>, rs: RightSide<Node<K>>)
    requires Three(m, d, ls, mid, rs) && mid.T?
    requires IsAssembled(m, m', mid.node, d, LeftCursor(ls, d), RightCursor(rs, d))
    ensures Holds(m', Assembled(ls, mid, rs)) && Distinct(Assembled(ls, mid, rs))
    ensures Nodes(Assembled(ls, mid, rs)) == AllNodes(ls, mid, rs)
  {
    AssembleLeft(m, m', d, ls, mid, rs);
    AssembleRight(m, m', d, ls, mid, rs);
    PlugLeftNodes(ls, mid.left);
    PlugRightNodes(rs, mid.right);
  }

  // ---------- Opening a tree at its root ----------

  /** SPLAY_INSERT below the root: `n` becomes the root, the old root its right child. */
  lemma InsertBelowCorrect<K>(m: Memory<K>, m': Memory<K>, w: Tree<Node<K>>, n: Node<K>)
    requires Holds(m, w) && Distinct(w) && w.T? && n !in Nodes(w) && Nodes(w) <= m.Keys && n in m
    requires Changed(m, m', {n, w.node})
    requires m'[n] == Link(m[w.node].left, w.node) && m'[w.node] == m[w.node].(left := null)
    ensures Holds(m', T(w.left, n, T(Leaf, w.node, w.right))) && Distinct(T(w.left, n, T(Leaf, w.node, w.right)))
    ensures Nodes(T(w.left, n, T(Leaf, w.node, w.right))) == Nodes(w) + {n}
  {
    Parts(m, w);
    assert Agree(m, m', Nodes(w.left));
    HoldsFrame(m, m', w.left);
    assert Agree(m, m', Nodes(w.right));
    HoldsFrame(m, m', w.right);
  }

  /** SPLAY_INSERT above the root: `n` becomes the root, the old root its left child. */
  lemma InsertAboveCorrect<K>(m: Memory<K>, m': Memory<K>, w: Tree<Node<K>>, n: Node<K>)
    requires Holds(m, w) && Distinct(w) && w.T? && n !in Nodes(w) && Nodes(w) <= m.Keys && n in m
    requires Changed(m, m', {n, w.node})
    requires m'[n] == Link(w.node, m[w.node].right) && m'[w.node] == m[w.node].(right := null)
    ensures Holds(m', T(T(w.left, w.node, Leaf), n, w.right)) && Distinct(T(T(w.left, w.node, Leaf), n, w.right))
    ensures Nodes(T(T(w.left, w.node, Leaf), n, w.right)) == Nodes(w) + {n}
  {
    Parts(m, w);
    assert Agree(m, m', Nodes(w.left));
    HoldsFrame(m, m', w.left);
    assert Agree(m, m', Nodes(w.right));
    HoldsFrame(m, m', w.right);
  }

  /** SPLAY_REMOVE: the saved right subtree is hung on a root without right child. */
  lemma JoinCorrect<K>(m: Memory<K>, m': Memory<K>, w: Tree<Node<K>>, r: Tree<Node<K>>)
    requires Holds(m, w) && Holds(m, r) && Distinct(w) && Distinct(r) && Nodes(w) !! Nodes(r)
    requires w.T? && w.right == Leaf && Nodes(w) + Nodes(r) <= m.Keys
    requires Changed(m, m', {w.node}) && m'[w.node] == m[w.node].(right := RootOf(r))
    ensures Holds(m', w.(right := r)) && Distinct(w.(right := r))
    ensures Nodes(w.(right := r)) == Nodes(w) + Nodes(r)
  {
    Parts(m, w);
    assert Agree(m, m', Nodes(w.left));
    HoldsFrame(m, m', w.left);
    assert Agree(m, m', Nodes(r));
    HoldsFrame(m, m', r);
  }
}
