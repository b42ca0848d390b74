/**
 The splay tree macros of kvstore/NtyCo/core/nty_tree.h (SPLAY, SPLAY_INSERT, SPLAY_REMOVE,
 SPLAY_FIND, SPLAY_NEXT, SPLAY_MINMAX and the traversal), working in place on linked nodes.
 */
module SplayTree {
  import opened SplayShape
  import opened SplayStore
  import opened SplayDepth
  import opened Ordering
  import opened Sequences
  import opened Traversal

  ghost function KeyOf<K>(n: Node<K>): K {
    n.key
  }

  ghost function Keys<K>(s: seq<Node<K>>): seq<K> {
    KeysBy(s, KeyOf)
  }

  /** The whole sequence, split at the root of the middle tree. */
  lemma WholeFocus<N>(ls: LeftSide<N>, mid: Tree<N>, rs: RightSide<N>)
    requires mid.T?
    ensures Whole(ls, mid, rs) == (LeftSeq(ls) + Inorder(mid.left)) + [mid.node] + (Inorder(mid.right) + RightSeq(rs))
  {
    Regroup(LeftSeq(ls), Inorder(mid.left), [mid.node], Inorder(mid.right), RightSeq(rs));
  }

  /** The root equals the key, or is its in-order neighbour: nothing lies between them. */
  ghost predicate Closest<K>(cmp: (K, K) -> int, t: Tree<Node<K>>, k: K) {
    && t.T?
    && (cmp(k, t.node.key) < 0 ==> AllBelow(cmp, Keys(Inorder(t.left)), k))
    && (cmp(k, t.node.key) > 0 ==> AllAbove(cmp, Keys(Inorder(t.right)), k))
  }

  class Splay<K(!new)> {
    const cmp: (K, K) -> int
    var root: Node?<K>
    /** What the links spell out. */
    ghost var tree: Tree<Node<K>>

    /** The elements in ascending order. */
    ghost function Elements(): seq<Node<K>>
      reads this
    {
      Inorder(tree)
    }

    /** The link records of the nodes of `w`, reached from the root pointer, spell out `w`. */
    ghost predicate Stored(w: Tree<Node<K>>)
      reads this`root, Nodes(w)
    {
      root == RootOf(w) && Distinct(w) && Holds(Snap(Nodes(w)), w)
    }

    ghost predicate Ascending(w: Tree<Node<K>>) {
      IsOrder(cmp) && Sorted(cmp, Keys(Inorder(w)))
    }

    ghost predicate Valid()
      reads this, Nodes(tree)
    {
      Stored(tree) && Ascending(tree)
    }

    constructor (cmp: (K, K) -> int)
      requires IsOrder(cmp)
      ensures Valid() && Elements() == [] && this.cmp == cmp
    {
      this.cmp := cmp;
      root := null;
      tree := Leaf;
    }

    // ---------- The splay loop ----------

    /** The state of the loop: the root pointer leads to the middle tree. */
    ghost predicate Looping(S: set<Node<K>>, d: Node<K>, ls: LeftSide<Node<K>>, mid: Tree<Node<K>>, rs: RightSide<Node<K>>)
      reads this`root, S
    {
      root == RootOf(mid) && Three(Snap(S), d, ls, mid, rs)
    }

    method RotateRight(tmp: Node<K>, ghost S: set<Node<K>>, ghost d: Node<K>, ghost ls: LeftSide<Node<K>>,
                       ghost mid: Tree<Node<K>>, ghost rs: RightSide<Node<K>>)
      requires Looping(S, d, ls, mid, rs) && mid.T? && mid.left.T? && tmp == mid.left.node
      modifies this`root, S
      ensures Looping(S, d, ls, RotatedRight(mid), rs)
    {
      ghost var m := Snap(S);
      Parts(m, mid);
      root.left := tmp.right;
      tmp.right := root;
      root := tmp;
      RotateRightCorrect(m, Snap(S), d, ls, mid, rs);
    }

    method RotateLeft(tmp: Node<K>, ghost S: set<Node<K>>, ghost d: Node<K>, ghost ls: LeftSide<Node<K>>,
                      ghost mid: Tree<Node<K>>, ghost rs: RightSide<Node<K>>)
      requires Looping(S, d, ls, mid, rs) && mid.T? && mid.right.T? && tmp == mid.right.node
      modifies this`root, S
      ensures Looping(S, d, ls, RotatedLeft(mid), rs)
    {
      ghost var m := Snap(S);
      Parts(m, mid);
      root.right := tmp.left;
      tmp.left := root;
      root := tmp;
      RotateLeftCorrect(m, Snap(S), d, ls, mid, rs);
    }

    method LinkLeft(tmp0: Node<K>, ghost S: set<Node<K>>, ghost d: Node<K>, ghost ls: LeftSide<Node<K>>,
                    ghost mid: Tree<Node<K>>, ghost rs: RightSide<Node<K>>)
      returns (tmp: Node<K>)
      requires Looping(S, d, ls, mid, rs) && mid.T? && tmp0 == RightCursor(rs, d)
      modifies this`root, S
      ensures Looping(S, d, ls, mid.left, RightLink(rs, mid.node, mid.right)) && tmp == mid.node
    {
      ghost var m := Snap(S);
      Parts(m, mid);
      tmp0.left := root;
      tmp := root;
      root := root.left;
      LinkLeftCorrect(m, Snap(S), d, ls, mid, rs);
    }

    method LinkRight(tmp0: Node<K>, ghost S: set<Node<K>>, ghost d: Node<K>, ghost ls: LeftSide<Node<K>>,
                     ghost mid: Tree<Node<K>>, ghost rs: RightSide<Node<K>>)
      returns (tmp: Node<K>)
      requires Looping(S, d, ls, mid, rs) && mid.T? && tmp0 == LeftCursor(ls, d)
      modifies this`root, S
      ensures Looping(S, d, LeftLink(ls, mid.left, mid.node), mid.right, rs) && tmp == mid.node
    {
      ghost var m := Snap(S);
      Parts(m, mid);
      tmp0.right := root;
      tmp := root;
      root := root.right;
      LinkRightCorrect(m, Snap(S), d, ls, mid, rs);
    }

    method Assemble(node: Node<K>, left: Node<K>, right: Node<K>, ghost S: set<Node<K>>, ghost ls: LeftSide<Node<K>>,
                    ghost mid: Tree<Node<K>>, ghost rs: RightSide<Node<K>>)
      requires Looping(S, node, ls, mid, rs) && mid.T?
      requires left == LeftCursor(ls, node) && right == RightCursor(rs, node)
      modifies this`root, S
      ensures Stored(Assembled(ls, mid, rs)) && Inorder(Assembled(ls, mid, rs)) == Whole(ls, mid, rs)
      ensures Nodes(Assembled(ls, mid, rs)) == AllNodes(ls, mid, rs)
    {
      ghost var m := Snap(S);
      Parts(m, mid);
      left.right := root.left;
      right.left := root.right;
      root.left := node.right;
      root.right := node.left;
      AssembleCorrect(m, Snap(S), node, ls, mid, rs);
      InorderAssembled(ls, mid, rs);
      Narrow(S, Assembled(ls, mid, rs));
    }

    /** Reading the fields of the nodes of a tree from just these nodes. */
    lemma Narrow(S: set<Node<K>>, w: Tree<Node<K>>)
      requires Holds(Snap(S), w) && Nodes(w) <= S
      ensures Holds(Snap(Nodes(w)), w)
    {
      assert Agree(Snap(S), Snap(Nodes(w)), Nodes(w));
      HoldsFrame(Snap(S), Snap(Nodes(w)), w);
    }

    /** Everything on the left side is below the key, everything on the right side above. */
    ghost predicate Divided(ls: LeftSide<Node<K>>, mid: Tree<Node<K>>, rs: RightSide<Node<K>>, k: K) {
      && IsOrder(cmp) && Sorted(cmp, Keys(Whole(ls, mid, rs)))
      && AllBelow(cmp, Keys(LeftSeq(ls)), k) && AllAbove(cmp, Keys(RightSeq(rs)), k)
    }

    lemma DivideLeft(ls: LeftSide<Node<K>>, mid: Tree<Node<K>>, rs: RightSide<Node<K>>, k: K)
      requires Divided(ls, mid, rs, k) && mid.T? && cmp(k, mid.node.key) < 0
      ensures Divided(ls, mid.left, RightLink(rs, mid.node, mid.right), k)
      ensures Whole(ls, mid.left, RightLink(rs, mid.node, mid.right)) == Whole(ls, mid, rs)
    {
      var a, b := LeftSeq(ls) + Inorder(mid.left), Inorder(mid.right) + RightSeq(rs);
      LinkLeftKeeps(ls, mid, rs);
      WholeFocus(ls, mid, rs);
      KeysAround(a, mid.node, b, KeyOf);
      BelowMiddle(cmp, Keys(a), mid.node.key, Keys(b), k);
      assert RightSeq(RightLink(rs, mid.node, mid.right)) == [mid.node] + b;
      KeysConcat([mid.node], b, KeyOf);
      assert Keys([mid.node]) == [mid.node.key];
    }

    lemma DivideRight(ls: LeftSide<Node<K>>, mid: Tree<Node<K>>, rs: RightSide<Node<K>>, k: K)
      requires Divided(ls, mid, rs, k) && mid.T? && cmp(k, mid.node.key) > 0
      ensures Divided(LeftLink(ls, mid.left, mid.node), mid.right, rs, k)
      ensures Whole(LeftLink(ls, mid.left, mid.node), mid.right, rs) == Whole(ls, mid, rs)
    {
      var a, b := LeftSeq(ls) + Inorder(mid.left), Inorder(mid.right) + RightSeq(rs);
      LinkRightKeeps(ls, mid, rs);
      WholeFocus(ls, mid, rs);
      KeysAround(a, mid.node, b, KeyOf);
      AboveMiddle(cmp, Keys(a), mid.node.key, Keys(b), k);
      assert LeftSeq(LeftLink(ls, mid.left, mid.node)) == a + [mid.node];
      KeysConcat(a, [mid.node], KeyOf);
      assert Keys([mid.node]) == [mid.node.key];
    }

    /** The middle tree after the rotation that a round may start with. */
    ghost function ZigLeft(mid: Tree<Node<K>>, k: K): (r: Tree<Node<K>>)
      requires mid.T?
      ensures r.T? && Inorder(r) == Inorder(mid) && Nodes(r) == Nodes(mid) && Size(r) == Size(mid)
      ensures cmp(k, mid.node.key) < 0 ==> cmp(k, r.node.key) < 0
    {
      if mid.left.T? && cmp(k, mid.left.node.key) < 0 then RotatedRight(mid) else mid
    }

    ghost function ZigRight(mid: Tree<Node<K>>, k: K): (r: Tree<Node<K>>)
      requires mid.T?
      ensures r.T? && Inorder(r) == Inorder(mid) && Nodes(r) == Nodes(mid) && Size(r) == Size(mid)
      ensures cmp(k, mid.node.key) > 0 ==> cmp(k, r.node.key) > 0
    {
      if mid.right.T? && cmp(k, mid.right.node.key) > 0 then RotatedLeft(mid) else mid
    }

    /** One round of the loop when the key is below the root; `done` stands for the two breaks. */
    method StepLeft(k: K, right0: Node<K>, ghost S: set<Node<K>>, ghost d: Node<K>, ghost ls: LeftSide<Node<K>>,
                    ghost mid0: Tree<Node<K>>, ghost rs0: RightSide<Node<K>>)
      returns (done: bool, right: Node<K>, ghost mid: Tree<Node<K>>, ghost rs: RightSide<Node<K>>)
      requires Looping(S, d, ls, mid0, rs0) && mid0.T? && right0 == RightCursor(rs0, d)
      modifies this`root, S
      ensures Looping(S, d, ls, mid, rs) && mid.T? && right == RightCursor(rs, d)
      ensures var z := ZigLeft(mid0, k);
        && (done <==> z.left == Leaf)
        && (done ==> mid == z && rs == rs0)
        && (!done ==> mid == z.left && rs == RightLink(rs0, z.node, z.right))
    {
      mid, rs, right := mid0, rs0, right0;
      Parts(Snap(S), mid);
      var tmp := root.left;
      if tmp == null {
        return true, right, mid, rs;
      }
      if cmp(k, tmp.key) < 0 {
        RotateRight(tmp, S, d, ls, mid, rs);
        mid := RotatedRight(mid);
        Parts(Snap(S), mid);
        if root.left == null {
          return true, right, mid, rs;
        }
      }
      right := LinkLeft(right, S, d, ls, mid, rs);
      mid, rs := mid.left, RightLink(rs, mid.node, mid.right);
      done := false;
    }

    /** One round of the loop when the key is above the root. */
    method StepRight(k: K, left0: Node<K>, ghost S: set<Node<K>>, ghost d: Node<K>, ghost ls0: LeftSide<Node<K>>,
                     ghost mid0: Tree<Node<K>>, ghost rs: RightSide<Node<K>>)
      returns (done: bool, left: Node<K>, ghost mid: Tree<Node<K>>, ghost ls: LeftSide<Node<K>>)
      requires Looping(S, d, ls0, mid0, rs) && mid0.T? && left0 == LeftCursor(ls0, d)
      modifies this`root, S
      ensures Looping(S, d, ls, mid, rs) && mid.T? && left == LeftCursor(ls, d)
      ensures var z := ZigRight(mid0, k);
        && (done <==> z.right == Leaf)
        && (done ==> mid == z && ls == ls0)
        && (!done ==> mid == z.right && ls == LeftLink(ls0, z.left, z.node))
    {
      mid, ls, left := mid0, ls0, left0;
      Parts(Snap(S), mid);
      var tmp := root.right;
      if tmp == null {
        return true, left, mid, ls;
      }
      if cmp(k, tmp.key) > 0 {
        RotateLeft(tmp, S, d, ls, mid, rs);
        mid := RotatedLeft(mid);
        Parts(Snap(S), mid);
        if root.right == null {
          return true, left, mid, ls;
        }
      }
      left := LinkRight(left, S, d, ls, mid, rs);
      mid, ls := mid.right, LeftLink(ls, mid.left, mid.node);
      done := false;
    }

    lemma ClosestAssembled(ls: LeftSide<Node<K>>, mid: Tree<Node<K>>, rs: RightSide<Node<K>>, k: K)
      requires Divided(ls, mid, rs, k) && mid.T?
      requires cmp(k, mid.node.key) < 0 ==> mid.left == Leaf
      requires cmp(k, mid.node.key) > 0 ==> mid.right == Leaf
      ensures Closest(cmp, Assembled(ls, mid, rs), k)
    {
      InorderAssembled(ls, mid, rs);
      assert LeftSeq(ls) + [] == LeftSeq(ls);
      assert [] + RightSeq(rs) == RightSeq(rs);
    }

    /** The loop keeps the whole sequence and the set of nodes. */
    ghost predicate Keeps(ls: LeftSide<Node<K>>, mid: Tree<Node<K>>, rs: RightSide<Node<K>>, k: K, w0: Tree<Node<K>>) {
      && mid.T? && Divided(ls, mid, rs, k)
      && Whole(ls, mid, rs) == Inorder(w0) && AllNodes(ls, mid, rs) == Nodes(w0)
    }

    lemma KeepsLeft(ls: LeftSide<Node<K>>, mid: Tree<Node<K>>, rs: RightSide<Node<K>>, k: K, w0: Tree<Node<K>>)
      requires Keeps(ls, mid, rs, k, w0) && cmp(k, mid.node.key) < 0
      ensures var z := ZigLeft(mid, k);
        && Keeps(ls, z, rs, k, w0)
        && (z.left.T? ==> Keeps(ls, z.left, RightLink(rs, z.node, z.right), k, w0) && Size(z.left) < Size(mid))
    {
      var z := ZigLeft(mid, k);
      assert Divided(ls, z, rs, k) && AllNodes(ls, z, rs) == AllNodes(ls, mid, rs);
      DivideLeft(ls, z, rs, k);
      AllNodesLinked(ls, z, rs);
    }

    lemma KeepsRight(ls: LeftSide<Node<K>>, mid: Tree<Node<K>>, rs: RightSide<Node<K>>, k: K, w0: Tree<Node<K>>)
      requires Keeps(ls, mid, rs, k, w0) && cmp(k, mid.node.key) > 0
      ensures var z := ZigRight(mid, k);
        && Keeps(ls, z, rs, k, w0)
        && (z.right.T? ==> Keeps(LeftLink(ls, z.left, z.node), z.right, rs, k, w0) && Size(z.right) < Size(mid))
    {
      var z := ZigRight(mid, k);
      assert Divided(ls, z, rs, k) && AllNodes(ls, z, rs) == AllNodes(ls, mid, rs);
      DivideRight(ls, z, rs, k);
      AllNodesLinked(ls, z, rs);
    }

    /** Where the search for `k` goes at a node. */
    ghost function Toward(k: K): Node<K> -> int {
      (n: Node<K>) => cmp(k, n.key)
    }

    lemma ZigsToward(mid: Tree<Node<K>>, k: K)
      requires mid.T?
      ensures IsZigLeft(mid, ZigLeft(mid, k), Toward(k)) && IsZigRight(mid, ZigRight(mid, k), Toward(k))
    {
    }

    /** The depths after a round: the search goes on, or the promises are kept. */
    ghost predicate InDepth(done: bool, ls: LeftSide<Node<K>>, mid: Tree<Node<K>>, rs: RightSide<Node<K>>, dir: Node<K> -> int,
                            w0: Tree<Node<K>>, i: nat)
    {
      mid.T? && if done then Kept(w0, Assembled(ls, mid, rs), dir) else Going(ls, mid, rs, dir, w0, i)
    }

    lemma DepthLeft(ls: LeftSide<Node<K>>, mid: Tree<Node<K>>, rs: RightSide<Node<K>>, k: K, w0: Tree<Node<K>>, i: nat)
      requires Going(ls, mid, rs, Toward(k), w0, i) && cmp(k, mid.node.key) < 0
      ensures var z := ZigLeft(mid, k); var j := i + Steps(ZigsLeft(mid, Toward(k)));
        if z.left == Leaf then InDepth(true, ls, z, rs, Toward(k), w0, j)
        else InDepth(false, ls, z.left, RightLink(rs, z.node, z.right), Toward(k), w0, j)
    {
      var z := ZigLeft(mid, k);
      ZigsToward(mid, k);
      if z.left == Leaf {
        StopLeft(ls, mid, z, rs, Toward(k), w0, i);
      } else {
        GoLeft(ls, mid, z, rs, Toward(k), w0, i);
      }
    }

    lemma DepthRight(ls: LeftSide<Node<K>>, mid: Tree<Node<K>>, rs: RightSide<Node<K>>, k: K, w0: Tree<Node<K>>, i: nat)
      requires Going(ls, mid, rs, Toward(k), w0, i) && cmp(k, mid.node.key) > 0
      ensures var z := ZigRight(mid, k); var j := i + Steps(ZigsRight(mid, Toward(k)));
        if z.right == Leaf then InDepth(true, ls, z, rs, Toward(k), w0, j)
        else InDepth(false, LeftLink(ls, z.left, z.node), z.right, rs, Toward(k), w0, j)
    {
      var z := ZigRight(mid, k);
      ZigsToward(mid, k);
      if z.right == Leaf {
        StopRight(ls, mid, z, rs, Toward(k), w0, i);
      } else {
        GoRight(ls, mid, z, rs, Toward(k), w0, i);
      }
    }

    /** What the loop keeps, and what it has reached when it is done. */
    ghost predicate Searching(done: bool, ls: LeftSide<Node<K>>, mid: Tree<Node<K>>, rs: RightSide<Node<K>>, k: K,
                              w0: Tree<Node<K>>, i: nat)
    {
      && Keeps(ls, mid, rs, k, w0) && InDepth(done, ls, mid, rs, Toward(k), w0, i)
      && (done && cmp(k, mid.node.key) < 0 ==> mid.left == Leaf)
      && (done && cmp(k, mid.node.key) > 0 ==> mid.right == Leaf)
    }

    lemma SearchLeft(ls: LeftSide<Node<K>>, mid: Tree<Node<K>>, rs: RightSide<Node<K>>, k: K, w0: Tree<Node<K>>, i: nat)
      returns (j: nat)
      requires Searching(false, ls, mid, rs, k, w0, i) && cmp(k, mid.node.key) < 0
      ensures var z := ZigLeft(mid, k);
        && (z.left == Leaf ==> Searching(true, ls, z, rs, k, w0, j))
        && (z.left != Leaf ==> Searching(false, ls, z.left, RightLink(rs, z.node, z.right), k, w0, j) && Size(z.left) < Size(mid))
    {
      KeepsLeft(ls, mid, rs, k, w0);
      DepthLeft(ls, mid, rs, k, w0, i);
      j := i + Steps(ZigsLeft(mid, Toward(k)));
    }

    lemma SearchRight(ls: LeftSide<Node<K>>, mid: Tree<Node<K>>, rs: RightSide<Node<K>>, k: K, w0: Tree<Node<K>>, i: nat)
      returns (j: nat)
      requires Searching(false, ls, mid, rs, k, w0, i) && cmp(k, mid.node.key) > 0
      ensures var z := ZigRight(mid, k);
        && (z.right == Leaf ==> Searching(true, ls, z, rs, k, w0, j))
        && (z.right != Leaf ==> Searching(false, LeftLink(ls, z.left, z.node), z.right, rs, k, w0, j) && Size(z.right) < Size(mid))
    {
      KeepsRight(ls, mid, rs, k, w0);
      DepthRight(ls, mid, rs, k, w0, i);
      j := i + Steps(ZigsRight(mid, Toward(k)));
    }

    /** The loop of SPLAY. */
    method SplayLoop(k: K, node: Node<K>, ghost S: set<Node<K>>, ghost w0: Tree<Node<K>>)
      returns (left: Node<K>, right: Node<K>, ghost ls: LeftSide<Node<K>>, ghost mid: Tree<Node<K>>, ghost rs: RightSide<Node<K>>)
      requires Looping(S, node, LeftEnd, w0, RightEnd) && Keeps(LeftEnd, w0, RightEnd, k, w0)
      modifies this`root, S
      ensures Looping(S, node, ls, mid, rs) && Keeps(ls, mid, rs, k, w0)
      ensures left == LeftCursor(ls, node) && right == RightCursor(rs, node)
      ensures cmp(k, mid.node.key) < 0 ==> mid.left == Leaf
      ensures cmp(k, mid.node.key) > 0 ==> mid.right == Leaf
      ensures Kept(w0, Assembled(ls, mid, rs), Toward(k))
    {
      left, right, ls, mid, rs := node, node, LeftEnd, w0, RightEnd;
      ghost var i: nat := 0;
      Begin(w0, Toward(k));
      var comp, done := cmp(k, root.key), false;
      while !done && comp != 0
        invariant Looping(S, node, ls, mid, rs) && Searching(done, ls, mid, rs, k, w0, i)
        invariant left == LeftCursor(ls, node) && right == RightCursor(rs, node)
        invariant comp == cmp(k, mid.node.key)
        decreases !done, Size(mid)
      {
        if comp < 0 {
          i := SearchLeft(ls, mid, rs, k, w0, i);
          done, right, mid, rs := StepLeft(k, right, S, node, ls, mid, rs);
        } else {
          i := SearchRight(ls, mid, rs, k, w0, i);
          done, left, mid, ls := StepRight(k, left, S, node, ls, mid, rs);
        }
        comp := cmp(k, root.key);
      }
      if !done {
        StopHere(ls, mid, rs, Toward(k), w0, i);
      }
    }

    /** SPLAY: brings the element closest to the key to the root. */
    method SplayKey(k: K, ghost w0: Tree<Node<K>>) returns (ghost w: Tree<Node<K>>)
      requires Stored(w0) && Ascending(w0) && w0.T?
      modifies this`root, Nodes(w0)
      ensures Stored(w) && Inorder(w) == Inorder(w0) && Nodes(w) == Nodes(w0) && Closest(cmp, w, k)
      ensures Halved(w0, w, Toward(k))
    {
      ghost var m0 := Snap(Nodes(w0));
      var node := new Node(k);
      ghost var S := Nodes(w0) + {node};
      assert Agree(m0, Snap(S), Nodes(w0));
      HoldsFrame(m0, Snap(S), w0);
      assert Whole(LeftEnd, w0, RightEnd) == Inorder(w0);
      var left, right;
      ghost var ls, mid, rs;
      left, right, ls, mid, rs := SplayLoop(k, node, S, w0);
      ClosestAssembled(ls, mid, rs, k);
      Assemble(node, left, right, S, ls, mid, rs);
      w := Assembled(ls, mid, rs);
      KeptHalved(w0, w, Toward(k));
    }

    // ---------- The operations ----------

    /** After a splay: the root tells whether the key occurs, and where it would go. */
    lemma AtRoot(w: Tree<Node<K>>, k: K)
      requires Ascending(w) && Closest(cmp, w, k)
      ensures cmp(k, w.node.key) < 0 ==> AllAbove(cmp, Keys([w.node] + Inorder(w.right)), k)
      ensures cmp(k, w.node.key) > 0 ==> AllBelow(cmp, Keys(Inorder(w.left) + [w.node]), k)
      ensures cmp(k, w.node.key) == 0 ==>
        AllBelow(cmp, Keys(Inorder(w.left)), k) && AllAbove(cmp, Keys(Inorder(w.right)), k)
    {
      var a, x, b := Keys(Inorder(w.left)), w.node.key, Keys(Inorder(w.right));
      KeysAround(Inorder(w.left), w.node, Inorder(w.right), KeyOf);
      KeysConcat([w.node], Inorder(w.right), KeyOf);
      KeysConcat(Inorder(w.left), [w.node], KeyOf);
      assert Keys([w.node]) == [x];
      if cmp(k, x) < 0 {
        BelowMiddle(cmp, a, x, b, k);
      } else if cmp(k, x) > 0 {
        AboveMiddle(cmp, a, x, b, k);
      } else {
        EqualMiddle(cmp, a, x, b, k);
      }
    }

    /** The key occurs in the tree exactly if it is at the root. */
    lemma OccursAtRoot(w: Tree<Node<K>>, k: K, n: Node<K>)
      requires Ascending(w) && Closest(cmp, w, k) && n in Nodes(w)
      ensures cmp(k, n.key) == 0 <==> n == w.node && cmp(k, w.node.key) == 0
    {
      AtRoot(w, k);
      NodesInorder(w.left, n);
      NodesInorder(w.right, n);
      KeysConcat([w.node], Inorder(w.right), KeyOf);
      KeysConcat(Inorder(w.left), [w.node], KeyOf);
      if n in Inorder(w.left) {
        var i :| 0 <= i < |Inorder(w.left)| && Inorder(w.left)[i] == n;
        assert Keys(Inorder(w.left))[i] == n.key;
        assert Keys(Inorder(w.left) + [w.node])[i] == n.key;
        assert Consistent(cmp, n.key, k, k);
      } else if n in Inorder(w.right) {
        var i :| 0 <= i < |Inorder(w.right)| && Inorder(w.right)[i] == n;
        assert Keys(Inorder(w.right))[i] == n.key;
        assert Keys([w.node] + Inorder(w.right))[i + 1] == n.key;
      }
      if n == w.node && (n in Nodes(w.left) || n in Nodes(w.right)) {
        assert Consistent(cmp, n.key, n.key, n.key) && Consistent(cmp, k, n.key, k);
      }
    }

    /** SPLAY on the whole tree. */
    method SplayHead(k: K)
      requires Valid() && root != null
      modifies this`root, this`tree, Nodes(tree)
      ensures Valid() && Elements() == old(Elements()) && Nodes(tree) == old(Nodes(tree)) && root != null
      ensures Closest(cmp, tree, k) && Halved(old(tree), tree, Toward(k))
      ensures forall n :: n in Nodes(tree) ==> (cmp(k, n.key) == 0 <==> n == root && cmp(k, root.key) == 0)
    {
      tree := SplayKey(k, tree);
      forall n | n in Nodes(tree) ensures cmp(k, n.key) == 0 <==> n == tree.node && cmp(k, tree.node.key) == 0 {
        OccursAtRoot(tree, k, n);
      }
    }

    /** SPLAY_FIND. */
    method Find(elm: Node<K>) returns (r: Node?<K>)
      requires Valid()
      modifies this`root, this`tree, Nodes(tree)
      ensures Valid() && Elements() == old(Elements()) && Nodes(tree) == old(Nodes(tree))
      ensures r != null ==> r in Nodes(tree) && cmp(elm.key, r.key) == 0 && r == root
      ensures r == null ==> forall n :: n in Nodes(tree) ==> cmp(elm.key, n.key) != 0
      ensures Halved(old(tree), tree, Toward(elm.key))
    {
      if root == null {
        return null;
      }
      SplayHead(elm.key);
      if cmp(elm.key, root.key) == 0 {
        return root;
      }
      return null;
    }

    /** Reading the fields of the nodes of a stored tree from a larger set. */
    lemma HoldsIn(S: set<Node<K>>, w: Tree<Node<K>>)
      requires Stored(w) && Nodes(w) <= S
      ensures Holds(Snap(S), w)
    {
      assert Agree(Snap(Nodes(w)), Snap(S), Nodes(w));
      HoldsFrame(Snap(Nodes(w)), Snap(S), w);
    }

    method InsertBelow(elm: Node<K>, ghost w: Tree<Node<K>>)
      requires Stored(w) && w.T? && elm !in Nodes(w)
      modifies this`root, Nodes(w), elm
      ensures Stored(T(w.left, elm, T(Leaf, w.node, w.right)))
      ensures Nodes(T(w.left, elm, T(Leaf, w.node, w.right))) == Nodes(w) + {elm}
    {
      ghost var S := Nodes(w) + {elm};
      HoldsIn(S, w);
      ghost var m := Snap(S);
      Parts(m, w);
      elm.left := root.left;
      elm.right := root;
      root.left := null;
      root := elm;
      InsertBelowCorrect(m, Snap(S), w, elm);
    }

    method InsertAbove(elm: Node<K>, ghost w: Tree<Node<K>>)
      requires Stored(w) && w.T? && elm !in Nodes(w)
      modifies this`root, Nodes(w), elm
      ensures Stored(T(T(w.left, w.node, Leaf), elm, w.right))
      ensures Nodes(T(T(w.left, w.node, Leaf), elm, w.right)) == Nodes(w) + {elm}
    {
      ghost var S := Nodes(w) + {elm};
      HoldsIn(S, w);
      ghost var m := Snap(S);
      Parts(m, w);
      elm.right := root.right;
      elm.left := root;
      root.right := null;
      root := elm;
      InsertAboveCorrect(m, Snap(S), w, elm);
    }

    /** Putting an element between the ones below it and the ones above it. */
    lemma InsertedOrder(w: Tree<Node<K>>, w': Tree<Node<K>>, a: seq<Node<K>>, elm: Node<K>, b: seq<Node<K>>)
      requires Ascending(w) && Inorder(w) == a + b && Inorder(w') == a + [elm] + b
      requires AllBelow(cmp, Keys(a), elm.key) && AllAbove(cmp, Keys(b), elm.key)
      ensures Ascending(w') && IsInserted(Inorder(w), Inorder(w'), elm)
    {
      KeysConcat(a, b, KeyOf);
      KeysAround(a, elm, b, KeyOf);
      InsertSorted(cmp, Keys(a), elm.key, Keys(b));
      InsertedBetween(a, elm, b);
    }

    /** SPLAY_INSERT: returns the equal element if there is one, else adds `elm` and returns null. */
    method Insert(elm: Node<K>) returns (r: Node?<K>)
      requires Valid()
      modifies this`root, this`tree, Nodes(tree), elm
      ensures Valid()
      ensures r == null <==> forall n :: n in old(Nodes(tree)) ==> cmp(elm.key, n.key) != 0
      ensures r != null ==> r in Nodes(tree) && cmp(elm.key, r.key) == 0
      ensures r != null ==> Elements() == old(Elements()) && Nodes(tree) == old(Nodes(tree))
      ensures r == null ==> IsInserted(old(Elements()), Elements(), elm)
      ensures r == null ==> Nodes(tree) == old(Nodes(tree)) + {elm}
      ensures root == if r == null then elm else r
      ensures forall n :: n in old(Nodes(tree)) ==> Depth(tree, n) <= Due(old(tree), Toward(elm.key), n) + 1
    {
      if root == null {
        InsertFirst(elm);
        return null;
      }
      SplayHead(elm.key);
      if cmp(elm.key, root.key) == 0 {
        return root;
      }
      assert Consistent(cmp, elm.key, elm.key, elm.key);
      InsertSplayed(elm);
      r := null;
    }

    method InsertFirst(elm: Node<K>)
      requires Valid() && root == null
      modifies this`root, this`tree, elm
      ensures Valid() && IsInserted(old(Elements()), Elements(), elm) && Nodes(tree) == {elm} && old(Nodes(tree)) == {} && root == elm
    {
      elm.left, elm.right := null, null;
      root := elm;
      tree := T(Leaf, elm, Leaf);
      InsertedBetween([], elm, []);
    }

    /** The part of SPLAY_INSERT after the splay, when the root differs from the key. */
    method InsertSplayed(elm: Node<K>)
      requires Valid() && Closest(cmp, tree, elm.key) && cmp(elm.key, tree.node.key) != 0 && elm !in Nodes(tree)
      modifies this`root, this`tree, Nodes(tree), elm
      ensures Valid() && IsInserted(old(Elements()), Elements(), elm)
      ensures Nodes(tree) == old(Nodes(tree)) + {elm} && root == elm
      ensures forall n :: n in old(Nodes(tree)) ==> Depth(tree, n) <= Depth(old(tree), n) + 1
    {
      AtRoot(tree, elm.key);
      ghost var w := tree;
      ghost var l, x, r := Inorder(w.left), w.node, Inorder(w.right);
      if cmp(elm.key, root.key) < 0 {
        InsertBelow(elm, w);
        tree := T(w.left, elm, T(Leaf, x, w.right));
        assert Inorder(T(Leaf, x, w.right)) == [x] + r;
        Associate(l, [x], r);
        InsertedOrder(w, tree, l, elm, [x] + r);
      } else {
        InsertAbove(elm, w);
        tree := T(T(w.left, x, Leaf), elm, w.right);
        assert Inorder(T(w.left, x, Leaf)) == l + [x];
        InsertedOrder(w, tree, l + [x], elm, r);
      }
    }

    lemma SubtreesAscending(w: Tree<Node<K>>)
      requires Ascending(w) && w.T?
      ensures Ascending(w.left) && Ascending(w.right)
    {
      KeysAround(Inorder(w.left), w.node, Inorder(w.right), KeyOf);
      SortedParts(cmp, Keys(Inorder(w.left)), w.node.key, Keys(Inorder(w.right)));
    }

    /** Splaying a tree of smaller elements leaves a root without right child. */
    lemma NothingAbove(w: Tree<Node<K>>, k: K)
      requires IsOrder(cmp) && Closest(cmp, w, k) && AllBelow(cmp, Keys(Inorder(w)), k)
      ensures w.right == Leaf
    {
      var a, b := Inorder(w.left), Inorder(w.right);
      KeysAround(a, w.node, b, KeyOf);
      assert Keys(Inorder(w))[|a|] == w.node.key;
      assert Consistent(cmp, w.node.key, k, k) && Consistent(cmp, k, w.node.key, k);
      assert forall i :: 0 <= i < |Keys(b)| ==> Keys(b)[i] == Keys(Inorder(w))[|a| + 1 + i];
      NotBoth(cmp, Keys(b), k);
    }

    /** The two subtrees of a stored tree, each on its own. */
    lemma Detached(w: Tree<Node<K>>)
      requires Stored(w) && w.T?
      ensures root == w.node && root.left == RootOf(w.left) && root.right == RootOf(w.right)
      ensures Holds(Snap(Nodes(w.left)), w.left) && Holds(Snap(Nodes(w.right)), w.right)
      ensures Distinct(w.left) && Distinct(w.right) && Nodes(w.left) !! Nodes(w.right)
      ensures Nodes(w) == Nodes(w.left) + {w.node} + Nodes(w.right)
      ensures w.node !in Nodes(w.left) && w.node !in Nodes(w.right)
    {
      var m := Snap(Nodes(w));
      Parts(m, w);
      assert Agree(m, Snap(Nodes(w.left)), Nodes(w.left));
      HoldsFrame(m, Snap(Nodes(w.left)), w.left);
      assert Agree(m, Snap(Nodes(w.right)), Nodes(w.right));
      HoldsFrame(m, Snap(Nodes(w.right)), w.right);
    }

    /** The saved right subtree is hung on the root. */
    method HangRight(tmp: Node?<K>, ghost l: Tree<Node<K>>, ghost r: Tree<Node<K>>)
      requires Stored(l) && l.T? && l.right == Leaf && tmp == RootOf(r)
      requires Holds(Snap(Nodes(r)), r) && Distinct(r) && Nodes(l) !! Nodes(r)
      modifies Nodes(l)
      ensures Stored(l.(right := r)) && Nodes(l.(right := r)) == Nodes(l) + Nodes(r)
    {
      ghost var S := Nodes(l) + Nodes(r);
      HoldsIn(S, l);
      assert Agree(Snap(Nodes(r)), Snap(S), Nodes(r));
      HoldsFrame(Snap(Nodes(r)), Snap(S), r);
      ghost var m := Snap(S);
      root.right := tmp;
      JoinCorrect(m, Snap(S), l, r);
    }

    /** The root is taken out; its left subtree is splayed again on the removed key. */
    method RemoveRoot(k: K)
      requires Stored(tree) && tree.T? && Ascending(tree.left) && AllBelow(cmp, Keys(Inorder(tree.left)), k)
      modifies this`root, this`tree, Nodes(tree)
      ensures Stored(tree)
      ensures Elements() == Inorder(old(tree).left) + Inorder(old(tree).right)
      ensures Nodes(tree) == old(Nodes(tree)) - {old(root)}
    {
      ghost var w := tree;
      Detached(w);
      if root.left == null {
        tree := DropRoot(w);
      } else {
        tree := Rejoin(k, w);
      }
      assert Nodes(w.left) + Nodes(w.right) == Nodes(w) - {w.node};
    }

    /** Without a left subtree, the right one is what remains. */
    method DropRoot(ghost w: Tree<Node<K>>) returns (ghost w': Tree<Node<K>>)
      requires Stored(w) && w.T? && w.left == Leaf
      modifies this`root
      ensures w' == w.right && Stored(w') && Inorder(w') == Inorder(w.left) + Inorder(w.right)
      ensures Nodes(w') == Nodes(w.left) + Nodes(w.right)
    {
      Detached(w);
      ghost var m := Snap(Nodes(w.right));
      root := root.right;
      assert Snap(Nodes(w.right)) == m;
      w' := w.right;
    }

    /** Splays the left subtree on the removed key and hangs the right subtree on its root. */
    method Rejoin(k: K, ghost w: Tree<Node<K>>) returns (ghost w': Tree<Node<K>>)
      requires Stored(w) && w.T? && w.left.T? && Ascending(w.left) && AllBelow(cmp, Keys(Inorder(w.left)), k)
      modifies this`root, Nodes(w.left)
      ensures Stored(w') && Inorder(w') == Inorder(w.left) + Inorder(w.right)
      ensures Nodes(w') == Nodes(w.left) + Nodes(w.right)
    {
      var tmp;
      ghost var l;
      tmp, l := SplayLeft(k, w);
      HangRight(tmp, l, w.right);
      w' := l.(right := w.right);
      HungInorder(l, w.right);
    }

    /** The left subtree, splayed on a key above all of it: its root has no right child. */
    method SplayLeft(k: K, ghost w: Tree<Node<K>>) returns (tmp: Node?<K>, ghost l: Tree<Node<K>>)
      requires Stored(w) && w.T? && w.left.T? && Ascending(w.left) && AllBelow(cmp, Keys(Inorder(w.left)), k)
      modifies this`root, Nodes(w.left)
      ensures Stored(l) && l.T? && l.right == Leaf && Inorder(l) == Inorder(w.left) && Nodes(l) == Nodes(w.left)
      ensures tmp == RootOf(w.right) && Holds(Snap(Nodes(w.right)), w.right)
      ensures Distinct(w.right) && Nodes(l) !! Nodes(w.right)
    {
      tmp := TakeLeft(w);
      l := SplayApart(k, w.left, w.right);
      NothingAbove(l, k);
    }

    /** A splay leaves another tree alone. */
    method SplayApart(k: K, ghost w0: Tree<Node<K>>, ghost r: Tree<Node<K>>) returns (ghost w: Tree<Node<K>>)
      requires Stored(w0) && Ascending(w0) && w0.T? && Holds(Snap(Nodes(r)), r) && Nodes(w0) !! Nodes(r)
      modifies this`root, Nodes(w0)
      ensures Stored(w) && Inorder(w) == Inorder(w0) && Nodes(w) == Nodes(w0) && Closest(cmp, w, k)
      ensures Holds(Snap(Nodes(r)), r)
    {
      ghost var R := Nodes(r);
      ghost var m := Snap(R);
      w := SplayKey(k, w0);
      assert forall n :: n in R ==> n.left == old(n.left) && n.right == old(n.right);
      assert Snap(R) == m;
    }

    /** The left subtree becomes the tree; the right one is saved. */
    method TakeLeft(ghost w: Tree<Node<K>>) returns (tmp: Node?<K>)
      requires Stored(w) && w.T?
      modifies this`root
      ensures Stored(w.left) && tmp == RootOf(w.right) && Holds(Snap(Nodes(w.right)), w.right)
      ensures Distinct(w.right) && Nodes(w.left) !! Nodes(w.right)
    {
      Detached(w);
      ghost var ml, mr := Snap(Nodes(w.left)), Snap(Nodes(w.right));
      tmp := root.right;
      root := root.left;
      assert Snap(Nodes(w.left)) == ml && Snap(Nodes(w.right)) == mr;
    }

    lemma HungInorder(l: Tree<Node<K>>, r: Tree<Node<K>>)
      requires l.T? && l.right == Leaf
      ensures Inorder(l.(right := r)) == Inorder(l) + Inorder(r)
    {
      assert Inorder(l) == Inorder(l.left) + [l.node];
    }

    /**
     SPLAY_REMOVE: takes out the element equal to `elm` and returns `elm`, or returns null. What it
     took out is what it returns exactly if `elm` itself was in the tree.
     */
    method Remove(elm: Node<K>) returns (r: Node?<K>)
      requires Valid()
      modifies this`root, this`tree, Nodes(tree)
      ensures Valid()
      ensures r == null <==> forall n :: n in old(Nodes(tree)) ==> cmp(elm.key, n.key) != 0
      ensures r == null ==> Elements() == old(Elements())
      ensures r != null ==> r == elm && exists i ::
        && IsRemoved(old(Elements()), Elements(), i) && cmp(elm.key, old(Elements())[i].key) == 0
        && (old(Elements())[i] == elm <==> elm in old(Nodes(tree)))
    {
      if root == null {
        return null;
      }
      SplayHead(elm.key);
      if cmp(elm.key, root.key) == 0 {
        ghost var w := tree;
        AtRoot(w, elm.key);
        SubtreesAscending(w);
        RemoveRoot(elm.key);
        RemovedRoot(w, tree);
        OnlyEqual(w, elm);
        return elm;
      }
      return null;
    }

    /** The root that is equal to `elm` is `elm`, if `elm` is in the tree at all. */
    lemma OnlyEqual(w: Tree<Node<K>>, elm: Node<K>)
      requires Ascending(w) && w.T? && cmp(elm.key, w.node.key) == 0
      requires AllBelow(cmp, Keys(Inorder(w.left)), elm.key) && AllAbove(cmp, Keys(Inorder(w.right)), elm.key)
      ensures elm == w.node <==> elm in Nodes(w)
    {
      assert Consistent(cmp, elm.key, elm.key, elm.key);
      NodesInorder(w.left, elm);
      NodesInorder(w.right, elm);
      NoneEqual(Inorder(w.left), elm.key);
      NoneEqual(Inorder(w.right), elm.key);
    }

    lemma NoneEqual(s: seq<Node<K>>, k: K)
      requires AllBelow(cmp, Keys(s), k) || AllAbove(cmp, Keys(s), k)
      ensures forall n :: n in s ==> cmp(n.key, k) < 0 || cmp(k, n.key) < 0
    {
      forall n | n in s ensures cmp(n.key, k) < 0 || cmp(k, n.key) < 0 {
        var i :| 0 <= i < |s| && s[i] == n;
        assert Keys(s)[i] == n.key;
      }
    }

    lemma RemovedRoot(w: Tree<Node<K>>, w': Tree<Node<K>>)
      requires Ascending(w) && w.T? && Inorder(w') == Inorder(w.left) + Inorder(w.right)
      ensures Ascending(w')
      ensures IsRemoved(Inorder(w), Inorder(w'), |Inorder(w.left)|) && Inorder(w)[|Inorder(w.left)|] == w.node
    {
      var a, b := Inorder(w.left), Inorder(w.right);
      KeysAround(a, w.node, b, KeyOf);
      KeysConcat(a, b, KeyOf);
      RemoveSorted(cmp, Keys(a), w.node.key, Keys(b));
      RemovedBetween(a, w.node, b);
    }

    // ---------- Smallest, largest, next, and traversal ----------

    ghost function TurnLeft(mid: Tree<Node<K>>): (r: Tree<Node<K>>)
      requires mid.T?
      ensures r.T? && Inorder(r) == Inorder(mid) && Nodes(r) == Nodes(mid) && Size(r) == Size(mid)
    {
      if mid.left.T? then RotatedRight(mid) else mid
    }

    ghost function TurnRight(mid: Tree<Node<K>>): (r: Tree<Node<K>>)
      requires mid.T?
      ensures r.T? && Inorder(r) == Inorder(mid) && Nodes(r) == Nodes(mid) && Size(r) == Size(mid)
    {
      if mid.right.T? then RotatedLeft(mid) else mid
    }

    /** One round of SPLAY_MINMAX towards the smallest element. */
    method MinStep(right0: Node<K>, ghost S: set<Node<K>>, ghost d: Node<K>, ghost ls: LeftSide<Node<K>>,
                   ghost mid0: Tree<Node<K>>, ghost rs0: RightSide<Node<K>>)
      returns (done: bool, right: Node<K>, ghost mid: Tree<Node<K>>, ghost rs: RightSide<Node<K>>)
      requires Looping(S, d, ls, mid0, rs0) && mid0.T? && right0 == RightCursor(rs0, d)
      modifies this`root, S
      ensures Looping(S, d, ls, mid, rs) && mid.T? && right == RightCursor(rs, d)
      ensures var z := TurnLeft(mid0);
        && (done <==> z.left == Leaf)
        && (done ==> mid == z && rs == rs0)
        && (!done ==> mid == z.left && rs == RightLink(rs0, z.node, z.right))
    {
      mid, rs, right := mid0, rs0, right0;
      Parts(Snap(S), mid);
      var tmp := root.left;
      if tmp == null {
        return true, right, mid, rs;
      }
      RotateRight(tmp, S, d, ls, mid, rs);
      mid := RotatedRight(mid);
      Parts(Snap(S), mid);
      if root.left == null {
        return true, right, mid, rs;
      }
      right := LinkLeft(right, S, d, ls, mid, rs);
      mid, rs := mid.left, RightLink(rs, mid.node, mid.right);
      done := false;
    }

    /** One round of SPLAY_MINMAX towards the largest element. */
    method MaxStep(left0: Node<K>, ghost S: set<Node<K>>, ghost d: Node<K>, ghost ls0: LeftSide<Node<K>>,
                   ghost mid0: Tree<Node<K>>, ghost rs: RightSide<Node<K>>)
      returns (done: bool, left: Node<K>, ghost mid: Tree<Node<K>>, ghost ls: LeftSide<Node<K>>)
      requires Looping(S, d, ls0, mid0, rs) && mid0.T? && left0 == LeftCursor(ls0, d)
      modifies this`root, S
      ensures Looping(S, d, ls, mid, rs) && mid.T? && left == LeftCursor(ls, d)
      ensures var z := TurnRight(mid0);
        && (done <==> z.right == Leaf)
        && (done ==> mid == z && ls == ls0)
        && (!done ==> mid == z.right && ls == LeftLink(ls0, z.left, z.node))
    {
      mid, ls, left := mid0, ls0, left0;
      Parts(Snap(S), mid);
      var tmp := root.right;
      if tmp == null {
        return true, left, mid, ls;
      }
      RotateLeft(tmp, S, d, ls, mid, rs);
      mid := RotatedLeft(mid);
      Parts(Snap(S), mid);
      if root.right == null {
        return true, left, mid, ls;
      }
      left := LinkRight(left, S, d, ls, mid, rs);
      mid, ls := mid.right, LeftLink(ls, mid.left, mid.node);
      done := false;
    }

    ghost predicate SameWhole(ls: LeftSide<Node<K>>, mid: Tree<Node<K>>, rs: RightSide<Node<K>>, w0: Tree<Node<K>>) {
      Whole(ls, mid, rs) == Inorder(w0) && AllNodes(ls, mid, rs) == Nodes(w0)
    }

    lemma MinKeeps(ls: LeftSide<Node<K>>, mid: Tree<Node<K>>, rs: RightSide<Node<K>>, w0: Tree<Node<K>>)
      requires mid.T? && SameWhole(ls, mid, rs, w0)
      ensures var z := TurnLeft(mid);
        && SameWhole(ls, z, rs, w0) && SameWhole(ls, z.left, RightLink(rs, z.node, z.right), w0)
        && Size(z.left) < Size(mid)
    {
      LinkLeftKeeps(ls, TurnLeft(mid), rs);
      AllNodesLinked(ls, TurnLeft(mid), rs);
    }

    lemma MaxKeeps(ls: LeftSide<Node<K>>, mid: Tree<Node<K>>, rs: RightSide<Node<K>>, w0: Tree<Node<K>>)
      requires mid.T? && SameWhole(ls, mid, rs, w0)
      ensures var z := TurnRight(mid);
        && SameWhole(ls, z, rs, w0) && SameWhole(LeftLink(ls, z.left, z.node), z.right, rs, w0)
        && Size(z.right) < Size(mid)
    {
      LinkRightKeeps(ls, TurnRight(mid), rs);
      AllNodesLinked(ls, TurnRight(mid), rs);
    }

    /** SPLAY_MINMAX turns the same way at every node. */
    ghost function Always(comp: int): Node<K> -> int {
      (n: Node<K>) => comp
    }

    lemma DepthMin(ls: LeftSide<Node<K>>, mid: Tree<Node<K>>, rs: RightSide<Node<K>>, comp: int, w0: Tree<Node<K>>, i: nat)
      requires Going(ls, mid, rs, Always(comp), w0, i) && comp < 0
      ensures var z := TurnLeft(mid); var j := i + Steps(mid.left.T?);
        if z.left == Leaf then InDepth(true, ls, z, rs, Always(comp), w0, j)
        else InDepth(false, ls, z.left, RightLink(rs, z.node, z.right), Always(comp), w0, j)
    {
      var z := TurnLeft(mid);
      assert ZigsLeft(mid, Always(comp)) == mid.left.T?;
      if z.left == Leaf {
        StopLeft(ls, mid, z, rs, Always(comp), w0, i);
      } else {
        GoLeft(ls, mid, z, rs, Always(comp), w0, i);
      }
    }

    lemma DepthMax(ls: LeftSide<Node<K>>, mid: Tree<Node<K>>, rs: RightSide<Node<K>>, comp: int, w0: Tree<Node<K>>, i: nat)
      requires Going(ls, mid, rs, Always(comp), w0, i) && comp > 0
      ensures var z := TurnRight(mid); var j := i + Steps(mid.right.T?);
        if z.right == Leaf then InDepth(true, ls, z, rs, Always(comp), w0, j)
        else InDepth(false, LeftLink(ls, z.left, z.node), z.right, rs, Always(comp), w0, j)
    {
      var z := TurnRight(mid);
      assert ZigsRight(mid, Always(comp)) == mid.right.T?;
      if z.right == Leaf {
        StopRight(ls, mid, z, rs, Always(comp), w0, i);
      } else {
        GoRight(ls, mid, z, rs, Always(comp), w0, i);
      }
    }

    /** What the loop of SPLAY_MINMAX keeps, and what it has reached when it is done. */
    ghost predicate Turning(done: bool, ls: LeftSide<Node<K>>, mid: Tree<Node<K>>, rs: RightSide<Node<K>>, comp: int,
                            w0: Tree<Node<K>>, i: nat)
    {
      && mid.T? && SameWhole(ls, mid, rs, w0) && InDepth(done, ls, mid, rs, Always(comp), w0, i)
      && (if comp < 0 then ls == LeftEnd else rs == RightEnd)
      && (done ==> if comp < 0 then mid.left == Leaf else mid.right == Leaf)
    }

    lemma TurnMin(ls: LeftSide<Node<K>>, mid: Tree<Node<K>>, rs: RightSide<Node<K>>, comp: int, w0: Tree<Node<K>>, i: nat)
      returns (j: nat)
      requires Turning(false, ls, mid, rs, comp, w0, i) && comp < 0
      ensures var z := TurnLeft(mid);
        && (z.left == Leaf ==> Turning(true, ls, z, rs, comp, w0, j))
        && (z.left != Leaf ==> Turning(false, ls, z.left, RightLink(rs, z.node, z.right), comp, w0, j) && Size(z.left) < Size(mid))
    {
      MinKeeps(ls, mid, rs, w0);
      DepthMin(ls, mid, rs, comp, w0, i);
      j := i + Steps(mid.left.T?);
    }

    lemma TurnMax(ls: LeftSide<Node<K>>, mid: Tree<Node<K>>, rs: RightSide<Node<K>>, comp: int, w0: Tree<Node<K>>, i: nat)
      returns (j: nat)
      requires Turning(false, ls, mid, rs, comp, w0, i) && comp > 0
      ensures var z := TurnRight(mid);
        && (z.right == Leaf ==> Turning(true, ls, z, rs, comp, w0, j))
        && (z.right != Leaf ==> Turning(false, LeftLink(ls, z.left, z.node), z.right, rs, comp, w0, j) && Size(z.right) < Size(mid))
    {
      MaxKeeps(ls, mid, rs, w0);
      DepthMax(ls, mid, rs, comp, w0, i);
      j := i + Steps(mid.right.T?);
    }

    /** The loop of SPLAY_MINMAX. */
    method ExtremeLoop(comp: int, node: Node<K>, ghost S: set<Node<K>>, ghost w0: Tree<Node<K>>)
      returns (left: Node<K>, right: Node<K>, ghost ls: LeftSide<Node<K>>, ghost mid: Tree<Node<K>>, ghost rs: RightSide<Node<K>>)
      requires Looping(S, node, LeftEnd, w0, RightEnd) && w0.T? && comp != 0
      modifies this`root, S
      ensures Looping(S, node, ls, mid, rs) && mid.T?
      ensures left == LeftCursor(ls, node) && right == RightCursor(rs, node)
      ensures SameWhole(ls, mid, rs, w0)
      ensures if comp < 0 then ls == LeftEnd && mid.left == Leaf else rs == RightEnd && mid.right == Leaf
      ensures Kept(w0, Assembled(ls, mid, rs), Always(comp))
    {
      left, right, ls, mid, rs := node, node, LeftEnd, w0, RightEnd;
      ghost var i: nat := 0;
      Begin(w0, Always(comp));
      var done := false;
      while !done
        invariant Looping(S, node, ls, mid, rs) && Turning(done, ls, mid, rs, comp, w0, i)
        invariant left == LeftCursor(ls, node) && right == RightCursor(rs, node)
        decreases !done, Size(mid)
      {
        if comp < 0 {
          i := TurnMin(ls, mid, rs, comp, w0, i);
          done, right, mid, rs := MinStep(right, S, node, ls, mid, rs);
        } else {
          i := TurnMax(ls, mid, rs, comp, w0, i);
          done, left, mid, ls := MaxStep(left, S, node, ls, mid, rs);
        }
      }
    }

    /** SPLAY_MINMAX: brings the smallest element to the root for a negative `comp`, else the largest. */
    method SplayExtreme(comp: int, ghost w0: Tree<Node<K>>) returns (ghost w: Tree<Node<K>>)
      requires Stored(w0) && w0.T? && comp != 0
      modifies this`root, Nodes(w0)
      ensures Stored(w) && w.T? && Inorder(w) == Inorder(w0) && Nodes(w) == Nodes(w0)
      ensures if comp < 0 then Inorder(w.left) == [] else Inorder(w.right) == []
      ensures Halved(w0, w, Always(comp))
    {
      ghost var m0 := Snap(Nodes(w0));
      var node := new Node(root.key);
      ghost var S := Nodes(w0) + {node};
      assert Agree(m0, Snap(S), Nodes(w0));
      HoldsFrame(m0, Snap(S), w0);
      var left, right;
      ghost var ls, mid, rs;
      left, right, ls, mid, rs := ExtremeLoop(comp, node, S, w0);
      InorderAssembled(ls, mid, rs);
      Assemble(node, left, right, S, ls, mid, rs);
      w := Assembled(ls, mid, rs);
      KeptHalved(w0, w, Always(comp));
    }

    /** SPLAY_MIN for a negative `val`, otherwise SPLAY_MAX. */
    method MinMax(val: int) returns (r: Node?<K>)
      requires Valid() && val != 0
      modifies this`root, this`tree, Nodes(tree)
      ensures Valid() && Elements() == old(Elements()) && Nodes(tree) == old(Nodes(tree))
      ensures r == if val < 0 then ItemAt<Node?<K>>(Elements(), 0, null)
                   else ItemAt<Node?<K>>(Elements(), |Elements()| - 1, null)
      ensures r == root && Halved(old(tree), tree, Always(val))
    {
      if root == null {
        return null;
      }
      tree := SplayExtreme(val, tree);
      r := root;
    }

    /** SPLAY_NEXT: the element after `elm`. */
    method Next(elm0: Node<K>) returns (r: Node?<K>)
      requires Valid() && elm0 in Nodes(tree)
      modifies this`root, this`tree, Nodes(tree)
      ensures Valid() && Elements() == old(Elements()) && Nodes(tree) == old(Nodes(tree))
      ensures IsNext<Node?<K>>(Elements(), elm0, r, null)
      ensures root == elm0 && Halved(old(tree), tree, Toward(elm0.key))
    {
      SplayHead(elm0.key);
      assert Consistent(cmp, elm0.key, elm0.key, elm0.key);
      SortedNoDuplicates(cmp, Elements(), KeyOf);
      Neighbours<Node?<K>>(Elements(), Inorder(tree.left), elm0, Inorder(tree.right), null);
      Parts(Snap(Nodes(tree)), tree);
      r := First(elm0.right, Nodes(tree), tree.right);
    }

    /** The walk of SPLAY_NEXT down the left spine of the right subtree. */
    method First(top: Node?<K>, ghost S: set<Node<K>>, ghost t: Tree<Node<K>>) returns (elm: Node?<K>)
      requires Holds(Snap(S), t) && Nodes(t) <= S && top == RootOf(t)
      ensures Snap(S) == old(Snap(S))
      ensures elm == ItemAt<Node?<K>>(Inorder(t), 0, null)
    {
      elm := top;
      if elm != null {
        ghost var sub, rest := t, [];
        while elm.left != null
          invariant Snap(S) == old(Snap(S))
          invariant Holds(Snap(S), sub) && Nodes(sub) <= S && sub.T? && sub.node == elm
          invariant Inorder(t) == Inorder(sub) + rest
          decreases sub
        {
          elm := elm.left;
          rest := [sub.node] + Inorder(sub.right) + rest;
          sub := sub.left;
        }
      }
    }

    /** SPLAY_FOREACH visits every element once, in ascending order, while the tree keeps changing shape. */
    method Foreach() returns (visited: seq<Node<K>>)
      requires Valid()
      modifies this`root, this`tree, Nodes(tree)
      ensures Valid() && Elements() == old(Elements()) && visited == Elements()
    {
      visited := [];
      ghost var s := Elements();
      var x := MinMax(-1);
      while x != null
        invariant Valid() && Elements() == s && Nodes(tree) == old(Nodes(tree))
        invariant VisitedTo<Node?<K>>(s, visited, x, null)
        decreases |s| - |visited|
      {
        NodesInorder(tree, x);
        ghost var v, y := visited, x;
        visited := visited + [x];
        x := Next(x);
        VisitNext<Node?<K>>(s, v, y, x, null);
      }
    }
  }

  /** A tree that holds one element: an equal element from outside takes it out, and is returned. */
  method RemoveByEqual<K(!new)>(t: Splay<K>, inside: Node<K>, outside: Node<K>) returns (r: Node?<K>)
    requires t.Valid() && t.Elements() == [inside] && outside != inside && t.cmp(outside.key, inside.key) == 0
    modifies t`root, t`tree, Nodes(t.tree)
    ensures t.Valid() && t.Elements() == [] && r == outside
  {
    NodesInorder(t.tree, inside);
    r := t.Remove(outside);
  }

  /** Such a tree and such an element, with the keys 7 and 7. */
  method RemoveByEqualWitness() returns (t: Splay<int>, inside: Node<int>, outside: Node<int>, r: Node?<int>)
    ensures t.Elements() == [] && r == outside != inside && inside.key == outside.key == 7
  {
    t, inside := SingleTree(7);
    outside := new Node(7);
    r := RemoveByEqual(t, inside, outside);
  }

  method SingleTree(key: int) returns (t: Splay<int>, inside: Node<int>)
    ensures fresh(t) && fresh(inside) && inside.key == key
    ensures t.Valid() && t.Elements() == [inside] && Nodes(t.tree) == {inside} && t.cmp(key, key) == 0
  {
    var cmp := (a: int, b: int) => a - b;
    assert IsOrder(cmp);
    t := new Splay(cmp);
    inside := new Node(key);
    var r := t.Insert(inside);
  }
}
