/**
 The red-black tree macros of kvstore/NtyCo/core/nty_tree.h (RB_INSERT, RB_REMOVE, RB_FIND,
 RB_NFIND, RB_NEXT, RB_PREV, RB_MINMAX and the traversals), working in place on linked nodes.
 */
module RedBlackTree {
  import opened RedBlackShape
  import opened NodeStore
  import opened Ordering
  import opened Sequences
  import opened Traversal

  ghost function KeyOf<K>(n: Node<K>): K {
    n.key
  }

  ghost function Keys<K>(s: seq<Node<K>>): seq<K> {
    KeysBy(s, KeyOf)
  }

  lemma RemovedNodes<K(!new)>(w0: Tree<Node<K>>, w: Tree<Node<K>>, a: seq<Node<K>>, n: Node<K>, b: seq<Node<K>>)
    requires Inorder(w0) == a + [n] + b && Inorder(w) == a + b
    requires n !in a && n !in b
    ensures Nodes(w) == Nodes(w0) - {n}
  {
    forall m: Node<K> | m in Nodes(w0) + Nodes(w) + {n} ensures m in Nodes(w) <==> m in Nodes(w0) - {n} {
      NodesInorder(w0, m);
      NodesInorder(w, m);
    }
  }

  /** Taking one element out of the in-order sequence. */
  lemma RemovedFrom<K(!new)>(cmp: (K, K) -> int, w0: Tree<Node<K>>, w: Tree<Node<K>>, a: seq<Node<K>>, n: Node<K>, b: seq<Node<K>>)
    requires IsOrder(cmp) && Sorted(cmp, Keys(Inorder(w0))) && Inorder(w0) == a + [n] + b && Inorder(w) == a + b
    ensures Sorted(cmp, Keys(Inorder(w)))
    ensures Nodes(w) == Nodes(w0) - {n}
    ensures forall i :: 0 <= i < |Inorder(w0)| && Inorder(w0)[i] == n ==>
              Inorder(w) == Inorder(w0)[..i] + Inorder(w0)[i + 1..]
  {
    SortedNoDuplicates(cmp, Inorder(w0), KeyOf);
    IndexOf(Inorder(w0), a, n, b);
    RemovedNodes(w0, w, a, n, b);
    KeysAround(a, n, b, KeyOf);
    KeysConcat(a, b, KeyOf);
    RemoveSorted(cmp, Keys(a), n.key, Keys(b));
  }

  lemma InsertedNodes<K(!new)>(w0: Tree<Node<K>>, w: Tree<Node<K>>, a: seq<Node<K>>, n: Node<K>, b: seq<Node<K>>)
    requires Inorder(w0) == a + b && Inorder(w) == a + [n] + b
    ensures Nodes(w) == Nodes(w0) + {n}
  {
    forall m: Node<K> | m in Nodes(w0) + Nodes(w) + {n} ensures m in Nodes(w) <==> m in Nodes(w0) + {n} {
      NodesInorder(w0, m);
      NodesInorder(w, m);
    }
  }

  /** Putting one element into the in-order sequence. */
  lemma InsertedInto<K(!new)>(cmp: (K, K) -> int, w0: Tree<Node<K>>, w: Tree<Node<K>>, a: seq<Node<K>>, n: Node<K>, b: seq<Node<K>>)
    requires Sorted(cmp, Keys(Inorder(w0))) && Inorder(w0) == a + b && Inorder(w) == a + [n] + b
    requires AllBelow(cmp, Keys(a), n.key) && AllAbove(cmp, Keys(b), n.key)
    ensures Sorted(cmp, Keys(Inorder(w)))
    ensures Nodes(w) == Nodes(w0) + {n}
  {
    KeysAround(a, n, b, KeyOf);
    KeysConcat(a, b, KeyOf);
    InsertSorted(cmp, Keys(a), n.key, Keys(b));
    InsertedNodes(w0, w, a, n, b);
  }

  class RBTree<K(!new)> {
    const cmp: (K, K) -> int
    var root: Node?<K>
    /** What the links spell out. */
    ghost var tree: Tree<Node<K>>

    /** The elements in ascending order. */
    ghost function Elements(): seq<Node<K>>
      reads this
    {
      Inorder(tree)
    }

    /** A well-linked red-black search tree. */
    ghost predicate Valid()
      reads this, Nodes(tree)
    {
      && IsOrder(cmp)
      && Stored(Nodes(tree), tree) && RedBlack(tree)
      && Sorted(cmp, Keys(Inorder(tree)))
    }

    constructor (cmp: (K, K) -> int)
      requires IsOrder(cmp)
      ensures Valid() && Elements() == [] && this.cmp == cmp
    {
      this.cmp := cmp;
      root := null;
      tree := Leaf;
    }

    lemma StoredIn(S: set<Node<K>>, S': set<Node<K>>, w: Tree<Node<K>>)
      requires Stored(S, w) && Nodes(w) <= S'
      ensures Stored(S', w)
    {
      assert Agree(Snap(S), Snap(S'), Nodes(w));
      HoldsFrame(Snap(S), Snap(S'), w, null);
    }

    /** The link records of the nodes in S, reached from the root pointer, spell out `w`. */
    ghost predicate Stored(S: set<Node<K>>, w: Tree<Node<K>>)
      reads this`root, S
    {
      At(Snap(S), root, Top, w)
    }

    /** What the fields at and just above a position say. */
    lemma Look(S: set<Node<K>>, ctx: Ctx<Node<K>>, t: Tree<Node<K>>)
      requires Stored(S, Plug(ctx, t))
      ensures t.T? ==>
        && t.node in S && t.node.left == RootOf(t.left) && t.node.right == RootOf(t.right)
        && t.node.parent == ParentOf(ctx) && t.node.color == t.color
      ensures !ctx.Top? ==>
        && ctx.node in S && ctx.node.parent == ParentOf(ctx.up) && ctx.node.color == ctx.color
        && (if ctx.InLeft? then ctx.node.left == RootOf(t) && ctx.node.right == RootOf(ctx.right)
            else ctx.node.right == RootOf(t) && ctx.node.left == RootOf(ctx.left))
        && (t.T? ==> RootOf(Sibling(ctx)) != t.node)
      ensures ctx.Top? <==> root == RootOf(t)
    {
      AtPlug(Snap(S), root, ctx, t);
      assert Snap(S).Keys == S;
    }

    // ---------- The steps on links ----------

    /** The pointer assignments of RB_ROTATE_LEFT. */
    method RotateLeftLinks(elm: Node<K>, ghost S: set<Node<K>>) returns (tmp: Node<K>)
      requires elm in S && elm.right != null && elm.right in S
      requires elm.right.left == null || elm.right.left in S - {elm, elm.right}
      requires elm.parent == null || elm.parent in S - {elm, elm.right, elm.right.left}
      requires elm != elm.right
      modifies this`root, S
      ensures tmp == old(elm.right)
      ensures LeftRotated(old(Snap(S)), Snap(S), elm, tmp, old(tmp.left), old(elm.parent))
      ensures root == if old(elm.parent) == null then tmp else old(root)
    {
      tmp := elm.right;
      elm.right := tmp.left;
      if elm.right != null {
        tmp.left.parent := elm;
      }
      tmp.parent := elm.parent;
      if tmp.parent != null {
        if elm == elm.parent.left {
          elm.parent.left := tmp;
        } else {
          elm.parent.right := tmp;
        }
      } else {
        root := tmp;
      }
      tmp.left := elm;
      elm.parent := tmp;
    }

    method RotateLeft(elm: Node<K>, ghost S: set<Node<K>>, ghost ctx: Ctx<Node<K>>, ghost t: Tree<Node<K>>)
      returns (tmp: Node<K>)
      requires Stored(S, Plug(ctx, t)) && t.T? && t.node == elm && t.right.T?
      modifies this`root, S
      ensures tmp == t.right.node
      ensures Stored(S, Plug(ctx, RotatedLeft(t)))
      ensures Inorder(Plug(ctx, RotatedLeft(t))) == Inorder(Plug(ctx, t))
    {
      ghost var m := Snap(S);
      AtPlug(m, root, ctx, t);
      Parts(m, t, ParentOf(ctx));
      Parts(m, t.right, elm);
      tmp := RotateLeftLinks(elm, S);
      RotateLeftCorrect(m, old(root), Snap(S), root, ctx, t);
      AtPlug(Snap(S), root, ctx, RotatedLeft(t));
      InorderPlug(ctx, t);
      InorderPlug(ctx, RotatedLeft(t));
    }

    /** The pointer assignments of RB_ROTATE_RIGHT. */
    method RotateRightLinks(elm: Node<K>, ghost S: set<Node<K>>) returns (tmp: Node<K>)
      requires elm in S && elm.left != null && elm.left in S
      requires elm.left.right == null || elm.left.right in S - {elm, elm.left}
      requires elm.parent == null || elm.parent in S - {elm, elm.left, elm.left.right}
      requires elm != elm.left
      modifies this`root, S
      ensures tmp == old(elm.left)
      ensures RightRotated(old(Snap(S)), Snap(S), elm, tmp, old(tmp.right), old(elm.parent))
      ensures root == if old(elm.parent) == null then tmp else old(root)
    {
      tmp := elm.left;
      elm.left := tmp.right;
      if elm.left != null {
        tmp.right.parent := elm;
      }
      tmp.parent := elm.parent;
      if tmp.parent != null {
        if elm == elm.parent.left {
          elm.parent.left := tmp;
        } else {
          elm.parent.right := tmp;
        }
      } else {
        root := tmp;
      }
      tmp.right := elm;
      elm.parent := tmp;
    }

    method RotateRight(elm: Node<K>, ghost S: set<Node<K>>, ghost ctx: Ctx<Node<K>>, ghost t: Tree<Node<K>>)
      returns (tmp: Node<K>)
      requires Stored(S, Plug(ctx, t)) && t.T? && t.node == elm && t.left.T?
      modifies this`root, S
      ensures tmp == t.left.node
      ensures Stored(S, Plug(ctx, RotatedRight(t)))
      ensures Inorder(Plug(ctx, RotatedRight(t))) == Inorder(Plug(ctx, t))
    {
      ghost var m := Snap(S);
      AtPlug(m, root, ctx, t);
      Parts(m, t, ParentOf(ctx));
      Parts(m, t.left, elm);
      tmp := RotateRightLinks(elm, S);
      RotateRightCorrect(m, old(root), Snap(S), root, ctx, t);
      AtPlug(Snap(S), root, ctx, RotatedRight(t));
      InorderPlug(ctx, t);
      InorderPlug(ctx, RotatedRight(t));
    }

    method Paint(n: Node<K>, c: Color, ghost S: set<Node<K>>, ghost ctx: Ctx<Node<K>>, ghost t: Tree<Node<K>>)
      requires Stored(S, Plug(ctx, t)) && t.T? && t.node == n
      modifies S`color
      ensures Stored(S, Plug(ctx, Painted(t, c)))
      ensures Inorder(Plug(ctx, Painted(t, c))) == Inorder(Plug(ctx, t))
    {
      ghost var m := Snap(S);
      AtPlug(m, root, ctx, t);
      n.color := c;
      PaintCorrect(m, root, Snap(S), ctx, t, c);
      AtPlug(Snap(S), root, ctx, Painted(t, c));
      InorderPlug(ctx, t);
      InorderPlug(ctx, Painted(t, c));
    }

    /** The pointer assignments that put `child` in the place of `elm`. */
    method SpliceLinks(elm: Node<K>, child: Node?<K>, parent: Node?<K>, ghost S: set<Node<K>>)
      requires elm in S && (child == null || child in S) && (parent == null || parent in S)
      requires child != elm && parent != elm && (child == null || child != parent)
      modifies this`root, S
      ensures SplicedOut(old(Snap(S)), Snap(S), elm, child, parent)
      ensures root == if parent == null then child else old(root)
    {
      if child != null {
        child.parent := parent;
      }
      if parent != null {
        if parent.left == elm {
          parent.left := child;
        } else {
          parent.right := child;
        }
      } else {
        root := child;
      }
    }

    method Splice(elm: Node<K>, child: Node?<K>, ghost S: set<Node<K>>, ghost ctx: Ctx<Node<K>>,
                  ghost t: Tree<Node<K>>, ghost sub: Tree<Node<K>>)
      requires Stored(S, Plug(ctx, t)) && t.T? && t.node == elm && RootOf(sub) == child
      requires (t.left == Leaf && sub == t.right) || (t.right == Leaf && sub == t.left)
      modifies this`root, S
      ensures Stored(S, Plug(ctx, sub)) && elm.parent == old(elm.parent)
    {
      ghost var m := Snap(S);
      AtPlug(m, root, ctx, t);
      Parts(m, t, ParentOf(ctx));
      var parent := elm.parent;
      SpliceLinks(elm, child, parent, S);
      SpliceCorrect(m, old(root), Snap(S), root, ctx, t, sub);
      AtPlug(Snap(S), root, ctx, sub);
    }

    /** The pointer assignments that give `elm` the link record of `prev`. */
    method TakeOverLinks(prev: Node<K>, elm: Node<K>, ghost S: set<Node<K>>)
      requires prev in S && elm in S && prev != elm
      requires prev.left != null && prev.left in S - {prev, elm}
      requires prev.right == null || prev.right in S - {prev, elm, prev.left}
      requires prev.parent == null || prev.parent in S - {prev, elm, prev.left, prev.right}
      modifies this`root, S
      ensures TakenOver(old(Snap(S)), Snap(S), prev, elm)
      ensures root == if old(prev.parent) == null then elm else old(root)
    {
      elm.left, elm.right, elm.parent, elm.color := prev.left, prev.right, prev.parent, prev.color;
      if prev.parent != null {
        if prev.parent.left == prev {
          prev.parent.left := elm;
        } else {
          prev.parent.right := elm;
        }
      } else {
        root := elm;
      }
      prev.left.parent := elm;
      if prev.right != null {
        prev.right.parent := elm;
      }
    }

    method TakeOver(prev: Node<K>, elm: Node<K>, ghost S: set<Node<K>>, ghost ctx: Ctx<Node<K>>, ghost t: Tree<Node<K>>)
      requires Stored(S, Plug(ctx, t)) && t.T? && t.node == prev && t.left.T?
      requires elm in S && elm !in Nodes(Plug(ctx, t))
      modifies this`root, S
      ensures Stored(S, Plug(ctx, T(t.left, elm, t.color, t.right)))
    {
      ghost var m := Snap(S);
      AtPlug(m, root, ctx, t);
      PlugNodes(ctx, t);
      Parts(m, t, ParentOf(ctx));
      TakeOverLinks(prev, elm, S);
      TakeOverCorrect(m, old(root), Snap(S), root, ctx, t, elm);
      AtPlug(Snap(S), root, ctx, T(t.left, elm, t.color, t.right));
    }

    // ---------- Searching ----------

    /** Descending to the left of a node above the key. */
    lemma GoLeft(ctx: Ctx<Node<K>>, t: Tree<Node<K>>, k: K)
      requires IsOrder(cmp) && Sorted(cmp, Keys(Inorder(Plug(ctx, t)))) && t.T? && cmp(k, t.node.key) < 0
      ensures AllAbove(cmp, Keys(After(InLeft(ctx, t.node, t.color, t.right))), k)
    {
      var a, b := Before(ctx) + Inorder(t.left), Inorder(t.right) + After(ctx);
      InorderFocus(ctx, t);
      KeysAround(a, t.node, b, KeyOf);
      BelowMiddle(cmp, Keys(a), t.node.key, Keys(b), k);
      assert After(InLeft(ctx, t.node, t.color, t.right)) == [t.node] + b;
      KeysConcat([t.node], b, KeyOf);
      assert Keys([t.node]) == [t.node.key];
    }

    /** Descending to the right of a node below the key. */
    lemma GoRight(ctx: Ctx<Node<K>>, t: Tree<Node<K>>, k: K)
      requires IsOrder(cmp) && Sorted(cmp, Keys(Inorder(Plug(ctx, t)))) && t.T? && cmp(k, t.node.key) > 0
      ensures AllBelow(cmp, Keys(Before(InRight(ctx, t.left, t.node, t.color))), k)
    {
      var a, b := Before(ctx) + Inorder(t.left), Inorder(t.right) + After(ctx);
      InorderFocus(ctx, t);
      KeysAround(a, t.node, b, KeyOf);
      AboveMiddle(cmp, Keys(a), t.node.key, Keys(b), k);
      assert Before(InRight(ctx, t.left, t.node, t.color)) == a + [t.node];
      KeysConcat(a, [t.node], KeyOf);
      assert Keys([t.node]) == [t.node.key];
    }

    /** A descent of n steps in a tree of |Elements()| elements: n <= 2 * log2(|Elements()| + 1). */
    lemma DescentLogarithmic(steps: nat)
      requires Valid() && steps <= Height(tree)
      ensures Pow2(steps) <= (|Elements()| + 1) * (|Elements()| + 1)
    {
      HeightLogarithmic(tree);
      Pow2Monotone(steps, Height(tree));
    }

    /** The descent shared by RB_FIND and RB_INSERT. */
    method Descend(k: K) returns (tmp: Node?<K>, parent: Node?<K>, comp: int, ghost ctx: Ctx<Node<K>>, ghost t: Tree<Node<K>>, ghost steps: nat)
      requires Valid()
      ensures Valid() && Snap(Nodes(tree)) == old(Snap(Nodes(tree)))
      ensures Plug(ctx, t) == tree && tmp == RootOf(t) && parent == (if tmp == null then ParentOf(ctx) else tmp)
      ensures tmp != null ==> tmp in Nodes(tree) && cmp(k, tmp.key) == 0
      ensures AllBelow(cmp, Keys(Before(ctx)), k) && AllAbove(cmp, Keys(After(ctx)), k)
      ensures tmp == null && parent != null ==> (comp < 0 <==> ctx.InLeft?)
      ensures steps <= Height(tree)
    {
      tmp, parent, comp := root, null, 0;
      ctx, t, steps := Top, tree, 0;
      while tmp != null
        invariant Stored(Nodes(tree), tree) && Snap(Nodes(tree)) == old(Snap(Nodes(tree)))
        invariant Plug(ctx, t) == tree && tmp == RootOf(t) && parent == ParentOf(ctx)
        invariant AllBelow(cmp, Keys(Before(ctx)), k) && AllAbove(cmp, Keys(After(ctx)), k)
        invariant !ctx.Top? ==> (comp < 0 <==> ctx.InLeft?)
        invariant steps + Height(t) <= Height(tree)
        decreases t
      {
        Look(Nodes(tree), ctx, t);
        parent := tmp;
        comp := cmp(k, parent.key);
        steps := steps + 1;
        if comp < 0 {
          GoLeft(ctx, t, k);
          tmp := tmp.left;
          ctx, t := InLeft(ctx, t.node, t.color, t.right), t.left;
        } else if comp > 0 {
          GoRight(ctx, t, k);
          tmp := tmp.right;
          ctx, t := InRight(ctx, t.left, t.node, t.color), t.right;
        } else {
          return;
        }
      }
    }

    /** No element equals a key whose descent ends in an empty place. */
    lemma NotFound(ctx: Ctx<Node<K>>, k: K)
      requires IsOrder(cmp) && AllBelow(cmp, Keys(Before(ctx)), k) && AllAbove(cmp, Keys(After(ctx)), k)
      ensures forall n :: n in Nodes(Plug(ctx, Leaf)) ==> cmp(k, n.key) != 0
    {
      InorderPlug(ctx, Leaf);
      forall n | n in Nodes(Plug(ctx, Leaf)) ensures cmp(k, n.key) != 0 {
        NodesInorder(Plug(ctx, Leaf), n);
        if n in Before(ctx) {
          var i :| 0 <= i < |Before(ctx)| && Before(ctx)[i] == n;
          assert Keys(Before(ctx))[i] == n.key;
          assert Consistent(cmp, n.key, k, k);
        } else {
          var i :| 0 <= i < |After(ctx)| && After(ctx)[i] == n;
          assert Keys(After(ctx))[i] == n.key;
        }
      }
    }

    /** RB_FIND, with the length of the descent. */
    method Find(elm: Node<K>) returns (r: Node?<K>, ghost steps: nat)
      requires Valid()
      ensures r != null ==> r in Nodes(tree) && cmp(elm.key, r.key) == 0
      ensures r == null ==> forall n :: n in Nodes(tree) ==> cmp(elm.key, n.key) != 0
      ensures steps <= Height(tree)
    {
      var parent, comp;
      ghost var ctx, t;
      r, parent, comp, ctx, t, steps := Descend(elm.key);
      if r == null {
        NotFound(ctx, elm.key);
      }
    }

    /** RB_NFIND: the least element not below the key. */
    method NFind(elm: Node<K>) returns (res: Node?<K>, ghost steps: nat)
      requires Valid()
      ensures res == null ==> AllBelow(cmp, Keys(Elements()), elm.key)
      ensures res != null ==> exists i :: LeastNotBelow(i, res, elm.key)
      ensures steps <= Height(tree)
    {
      var k := elm.key;
      var tmp := root;
      res := null;
      steps := 0;
      ghost var ctx: Ctx<Node<K>>, t := Top, tree;
      while tmp != null
        invariant Stored(Nodes(tree), tree)
        invariant Plug(ctx, t) == tree && tmp == RootOf(t)
        invariant AllBelow(cmp, Keys(Before(ctx)), k)
        invariant if After(ctx) == [] then res == null else res == After(ctx)[0] && cmp(k, res.key) < 0
        invariant steps + Height(t) <= Height(tree)
        decreases t
      {
        Look(Nodes(tree), ctx, t);
        InorderFocus(ctx, t);
        var comp := cmp(k, tmp.key);
        steps := steps + 1;
        if comp < 0 {
          res := tmp;
          tmp := tmp.left;
          ctx, t := InLeft(ctx, t.node, t.color, t.right), t.left;
        } else if comp > 0 {
          GoRight(ctx, t, k);
          tmp := tmp.right;
          ctx, t := InRight(ctx, t.left, t.node, t.color), t.right;
        } else {
          BelowEqual(ctx, t, k);
          FirstNotBelow(Before(ctx) + Inorder(t.left), tmp, Inorder(t.right) + After(ctx), k);
          return tmp, steps;
        }
      }
      NFindEnd(ctx, res, k);
    }

    /** When the descent has ended, what follows the empty place is not below the key. */
    lemma NFindEnd(ctx: Ctx<Node<K>>, res: Node?<K>, k: K)
      requires tree == Plug(ctx, Leaf) && AllBelow(cmp, Keys(Before(ctx)), k)
      requires if After(ctx) == [] then res == null else res == After(ctx)[0] && cmp(k, res.key) < 0
      ensures res == null ==> AllBelow(cmp, Keys(Elements()), k)
      ensures res != null ==> exists i :: LeastNotBelow(i, res, k)
    {
      InorderPlug(ctx, Leaf);
      assert Elements() == Before(ctx) + After(ctx);
      if After(ctx) == [] {
        assert Elements() == Before(ctx);
      } else {
        assert Elements() == Before(ctx) + [res] + After(ctx)[1..];
        FirstNotBelow(Before(ctx), res, After(ctx)[1..], k);
      }
    }

    lemma FirstNotBelow(a: seq<Node<K>>, n: Node<K>, b: seq<Node<K>>, k: K)
      requires Elements() == a + [n] + b && AllBelow(cmp, Keys(a), k) && cmp(k, n.key) <= 0
      ensures LeastNotBelow(|a|, n, k)
    {
      assert Elements()[..|a|] == a;
    }

    /** `n` is element number `i`, it is not below `k`, and everything before it is. */
    ghost predicate LeastNotBelow(i: nat, n: Node<K>, k: K)
      reads this
    {
      && i < |Elements()| && Elements()[i] == n && cmp(k, n.key) <= 0
      && AllBelow(cmp, Keys(Elements()[..i]), k)
    }

    lemma BelowEqual(ctx: Ctx<Node<K>>, t: Tree<Node<K>>, k: K)
      requires IsOrder(cmp) && Sorted(cmp, Keys(Inorder(Plug(ctx, t)))) && t.T? && cmp(k, t.node.key) == 0
      ensures AllBelow(cmp, Keys(Before(ctx) + Inorder(t.left)), k)
    {
      var a, b := Before(ctx) + Inorder(t.left), Inorder(t.right) + After(ctx);
      InorderFocus(ctx, t);
      KeysAround(a, t.node, b, KeyOf);
      EqualMiddle(cmp, Keys(a), t.node.key, Keys(b), k);
    }

    // ---------- Insertion ----------

    /** RB_INSERT_COLOR: climbs until no red node has a red parent. */
    method InsertColor(elm0: Node<K>, ghost S: set<Node<K>>, ghost ctx0: Ctx<Node<K>>, ghost t0: Tree<Node<K>>)
      returns (ghost w: Tree<Node<K>>)
      requires Stored(S, Plug(ctx0, t0)) && RedAt(ctx0, t0) && t0.node == elm0
      modifies this`root, S
      ensures Stored(S, w) && RedBlack(w) && Inorder(w) == Inorder(Plug(ctx0, t0))
    {
      var elm := elm0;
      ghost var ctx, t := ctx0, t0;
      Look(S, ctx, t);
      while elm.parent != null && elm.parent.color == Red
        invariant Stored(S, Plug(ctx, t)) && RedAt(ctx, t) && t.node == elm
        invariant elm.parent == ParentOf(ctx) && (ctx.Top? || (ctx.node in S && ctx.node.color == ctx.color))
        invariant Inorder(Plug(ctx, t)) == Inorder(Plug(ctx0, t0))
        decreases Depth(ctx)
      {
        ctx, t, elm := InsertColorStep(elm, S, ctx, t);
        Look(S, ctx, t);
      }
      InsertDone(ctx, t);
      w := Painted(Plug(ctx, t), Black);
      Look(S, Top, Plug(ctx, t));
      Paint(root, Black, S, Top, Plug(ctx, t));
    }

    /** One round of the loop of RB_INSERT_COLOR. */
    method InsertColorStep(elm0: Node<K>, ghost S: set<Node<K>>, ghost ctx0: Ctx<Node<K>>, ghost t0: Tree<Node<K>>)
      returns (ghost ctx: Ctx<Node<K>>, ghost t: Tree<Node<K>>, elm: Node<K>)
      requires Stored(S, Plug(ctx0, t0)) && RedAt(ctx0, t0) && t0.node == elm0
      requires !ctx0.Top? && ctx0.color == Red
      modifies this`root, S
      ensures Stored(S, Plug(ctx, t)) && RedAt(ctx, t) && t.node == elm
      ensures Inorder(Plug(ctx, t)) == Inorder(Plug(ctx0, t0))
      ensures Depth(ctx) < Depth(ctx0)
    {
      Look(S, ctx0, t0);
      GrandparentExists(ctx0, t0);
      Look(S, ctx0.up, Join(ctx0, t0));
      var parent := elm0.parent;
      var gparent := parent.parent;
      if parent == gparent.left {
        ctx, t, elm := InsertColorLeft(elm0, parent, gparent, S, ctx0, t0);
      } else {
        ctx, t, elm := InsertColorRight(elm0, parent, gparent, S, ctx0, t0);
      }
    }

    /** The round when the parent is a left child. */
    method InsertColorLeft(elm0: Node<K>, parent0: Node<K>, gparent: Node<K>,
                           ghost S: set<Node<K>>, ghost ctx0: Ctx<Node<K>>, ghost t0: Tree<Node<K>>)
      returns (ghost ctx: Ctx<Node<K>>, ghost t: Tree<Node<K>>, elm: Node<K>)
      requires Stored(S, Plug(ctx0, t0)) && RedAt(ctx0, t0) && t0.node == elm0
      requires !ctx0.Top? && ctx0.color == Red && parent0 == ctx0.node
      requires ctx0.up.InLeft? && gparent == ctx0.up.node
      modifies this`root, S
      ensures Stored(S, Plug(ctx, t)) && RedAt(ctx, t) && t.node == elm
      ensures Inorder(Plug(ctx, t)) == Inorder(Plug(ctx0, t0))
      ensures Depth(ctx) < Depth(ctx0)
    {
      elm, ctx, t := elm0, ctx0, t0;
      var parent := parent0;
      GrandparentExists(ctx, t);
      ghost var up, u := ctx.up.up, Sibling(ctx.up);
      Look(S, ctx, t);
      Look(S, ctx.up, Join(ctx, t));
      Look(S, InRight(up, Join(ctx, t), gparent, Black), u);
      var tmp := gparent.right;
      if tmp != null && tmp.color == Red {
        RedUncle(ctx, t);
        Paint(tmp, Black, S, InRight(up, Join(ctx, t), gparent, Black), u);
        Paint(parent, Black, S, InLeft(up, gparent, Black, Painted(u, Black)), Join(ctx, t));
        t := T(Painted(Join(ctx, t), Black), gparent, Black, Painted(u, Black));
        ctx := up;
        Paint(gparent, Red, S, ctx, t);
        t := Painted(t, Red);
        elm := gparent;
        return;
      }
      if parent.right == elm {
        InnerChild(ctx, t);
        tmp := RotateLeft(parent, S, ctx.up, Join(ctx, t));
        ctx, t := InLeft(ctx.up, elm, Red, t.right), T(Sibling(ctx), parent, Red, t.left);
        tmp := parent;
        parent := elm;
        elm := tmp;
      }
      BlackUncle(ctx, t);
      Paint(parent, Black, S, ctx.up, Join(ctx, t));
      ghost var g := T(Painted(Join(ctx, t), Black), gparent, Black, u);
      Paint(gparent, Red, S, up, g);
      tmp := RotateRight(gparent, S, up, Painted(g, Red));
      ctx := InLeft(up, parent, Black, T(Sibling(ctx), gparent, Red, u));
    }

    /** The round when the parent is a right child. */
    method InsertColorRight(elm0: Node<K>, parent0: Node<K>, gparent: Node<K>,
                            ghost S: set<Node<K>>, ghost ctx0: Ctx<Node<K>>, ghost t0: Tree<Node<K>>)
      returns (ghost ctx: Ctx<Node<K>>, ghost t: Tree<Node<K>>, elm: Node<K>)
      requires Stored(S, Plug(ctx0, t0)) && RedAt(ctx0, t0) && t0.node == elm0
      requires !ctx0.Top? && ctx0.color == Red && parent0 == ctx0.node
      requires ctx0.up.InRight? && gparent == ctx0.up.node
      modifies this`root, S
      ensures Stored(S, Plug(ctx, t)) && RedAt(ctx, t) && t.node == elm
      ensures Inorder(Plug(ctx, t)) == Inorder(Plug(ctx0, t0))
      ensures Depth(ctx) < Depth(ctx0)
    {
      elm, ctx, t := elm0, ctx0, t0;
      var parent := parent0;
      GrandparentExists(ctx, t);
      ghost var up, u := ctx.up.up, Sibling(ctx.up);
      Look(S, ctx, t);
      Look(S, ctx.up, Join(ctx, t));
      Look(S, InLeft(up, gparent, Black, Join(ctx, t)), u);
      var tmp := gparent.left;
      if tmp != null && tmp.color == Red {
        RedUncle(ctx, t);
        Paint(tmp, Black, S, InLeft(up, gparent, Black, Join(ctx, t)), u);
        Paint(parent, Black, S, InRight(up, Painted(u, Black), gparent, Black), Join(ctx, t));
        t := T(Painted(u, Black), gparent, Black, Painted(Join(ctx, t), Black));
        ctx := up;
        Paint(gparent, Red, S, ctx, t);
        t := Painted(t, Red);
        elm := gparent;
        return;
      }
      if parent.left == elm {
        InnerChild(ctx, t);
        tmp := RotateRight(parent, S, ctx.up, Join(ctx, t));
        ctx, t := InRight(ctx.up, t.left, elm, Red), T(t.right, parent, Red, Sibling(ctx));
        tmp := parent;
        parent := elm;
        elm := tmp;
      }
      BlackUncle(ctx, t);
      Paint(parent, Black, S, ctx.up, Join(ctx, t));
      ghost var g := T(u, gparent, Black, Painted(Join(ctx, t), Black));
      Paint(gparent, Red, S, up, g);
      tmp := RotateLeft(gparent, S, up, Painted(g, Red));
      ctx := InRight(up, T(u, gparent, Red, Sibling(ctx)), parent, Black);
    }

    /** RB_SET and the assignment that hangs the new node under its parent. */
    method AttachLinks(elm: Node<K>, parent: Node?<K>, comp: int, ghost S: set<Node<K>>)
      requires elm in S && (parent == null || (parent in S && parent != elm))
      modifies this`root, S
      ensures Changed(old(Snap(S)), Snap(S), {elm, parent})
      ensures Snap(S)[elm] == Link(null, null, parent, Red)
      ensures parent != null ==> var l := old(Snap(S))[parent];
        Snap(S)[parent] == if comp < 0 then l.(left := elm) else l.(right := elm)
      ensures root == if parent == null then elm else old(root)
    {
      elm.parent := parent;
      elm.left, elm.right := null, null;
      elm.color := Red;
      if parent != null {
        if comp < 0 {
          parent.left := elm;
        } else {
          parent.right := elm;
        }
      } else {
        root := elm;
      }
    }

    method Attach(elm: Node<K>, parent: Node?<K>, comp: int, ghost S: set<Node<K>>, ghost ctx: Ctx<Node<K>>)
      requires Stored(S, Plug(ctx, Leaf)) && elm in S && elm !in Nodes(Plug(ctx, Leaf))
      requires parent == ParentOf(ctx) && (parent != null ==> (comp < 0 <==> ctx.InLeft?))
      modifies this`root, S
      ensures Stored(S, Plug(ctx, T(Leaf, elm, Red, Leaf)))
    {
      ghost var m := Snap(S);
      AtPlug(m, root, ctx, Leaf);
      PlugNodes(ctx, Leaf);
      AttachLinks(elm, parent, comp, S);
      AttachCorrect(m, old(root), Snap(S), root, ctx, elm);
      AtPlug(Snap(S), root, ctx, T(Leaf, elm, Red, Leaf));
    }

    /** A red leaf in an empty place is at most red under a red parent. */
    lemma NewLeaf(ctx: Ctx<Node<K>>, elm: Node<K>)
      requires RedBlack(Plug(ctx, Leaf))
      ensures var leaf := T(Leaf, elm, Red, Leaf);
        RedAt(ctx, leaf) && Inorder(Plug(ctx, leaf)) == Before(ctx) + [elm] + After(ctx)
    {
      PlugRedBlack(ctx, Leaf);
      InorderPlug(ctx, T(Leaf, elm, Red, Leaf));
    }

    /** RB_INSERT after the descent. */
    method InsertUnder(elm: Node<K>, parent: Node?<K>, comp: int, ghost S: set<Node<K>>, ghost ctx: Ctx<Node<K>>)
      returns (ghost w: Tree<Node<K>>)
      requires Stored(S, Plug(ctx, Leaf)) && RedBlack(Plug(ctx, Leaf)) && elm in S && elm !in Nodes(Plug(ctx, Leaf))
      requires parent == ParentOf(ctx) && (parent != null ==> (comp < 0 <==> ctx.InLeft?))
      modifies this`root, S
      ensures Stored(S, w) && RedBlack(w) && Inorder(w) == Before(ctx) + [elm] + After(ctx)
    {
      ghost var leaf := T(Leaf, elm, Red, Leaf);
      NewLeaf(ctx, elm);
      Attach(elm, parent, comp, S, ctx);
      w := InsertColor(elm, S, ctx, leaf);
    }

    /** RB_INSERT: returns the equal element if there is one, else adds `elm` and returns null. */
    method Insert(elm: Node<K>) returns (r: Node?<K>)
      requires Valid()
      modifies this`root, this`tree, Nodes(tree), elm
      ensures Valid()
      ensures r == null <==> forall n :: n in old(Nodes(tree)) ==> cmp(elm.key, n.key) != 0
      ensures r != null ==> r in old(Nodes(tree)) && cmp(elm.key, r.key) == 0
      ensures r != null ==> unchanged(this) && unchanged(elm) && Snap(Nodes(tree)) == old(Snap(Nodes(tree)))
      ensures r == null ==> IsInserted(old(Elements()), Elements(), elm)
      ensures r == null ==> Nodes(tree) == old(Nodes(tree)) + {elm}
    {
      var tmp, parent, comp;
      ghost var ctx, t, steps;
      tmp, parent, comp, ctx, t, steps := Descend(elm.key);
      if tmp != null {
        return tmp;
      }
      NotFound(ctx, elm.key);
      assert Consistent(cmp, elm.key, elm.key, elm.key);
      InsertNew(elm, parent, comp, ctx);
      r := null;
    }

    /** RB_INSERT when the descent ended in an empty place. */
    method InsertNew(elm: Node<K>, parent: Node?<K>, comp: int, ghost ctx: Ctx<Node<K>>)
      requires Valid() && tree == Plug(ctx, Leaf) && elm !in Nodes(tree)
      requires parent == ParentOf(ctx) && (parent != null ==> (comp < 0 <==> ctx.InLeft?))
      requires AllBelow(cmp, Keys(Before(ctx)), elm.key) && AllAbove(cmp, Keys(After(ctx)), elm.key)
      modifies this`root, this`tree, Nodes(tree), elm
      ensures Valid() && IsInserted(old(Elements()), Elements(), elm)
      ensures Nodes(tree) == old(Nodes(tree)) + {elm}
    {
      ghost var S := Nodes(tree) + {elm};
      StoredIn(Nodes(tree), S, tree);
      tree := InsertUnder(elm, parent, comp, S, ctx);
      InsertedAt(old(tree), tree, ctx, elm);
      StoredIn(S, Nodes(tree), tree);
    }

    lemma InsertedAt(w0: Tree<Node<K>>, w: Tree<Node<K>>, ctx: Ctx<Node<K>>, elm: Node<K>)
      requires Sorted(cmp, Keys(Inorder(w0))) && w0 == Plug(ctx, Leaf)
      requires Inorder(w) == Before(ctx) + [elm] + After(ctx)
      requires AllBelow(cmp, Keys(Before(ctx)), elm.key) && AllAbove(cmp, Keys(After(ctx)), elm.key)
      ensures Sorted(cmp, Keys(Inorder(w))) && Nodes(w) == Nodes(w0) + {elm}
      ensures IsInserted(Inorder(w0), Inorder(w), elm)
    {
      var a, b := Before(ctx), After(ctx);
      InorderPlug(ctx, Leaf);
      assert a + [] + b == a + b;
      InsertedInto(cmp, w0, w, a, elm, b);
      assert Inorder(w0)[..|a|] == a && Inorder(w0)[|a|..] == b;
    }

    // ---------- Deletion ----------

    /** RB_REMOVE_COLOR: climbs until the missing black node is made up for. */
    method RemoveColor(parent0: Node?<K>, elm0: Node?<K>, ghost S: set<Node<K>>, ghost ctx0: Ctx<Node<K>>, ghost t0: Tree<Node<K>>)
      returns (ghost w: Tree<Node<K>>)
      requires Stored(S, Plug(ctx0, t0)) && Deficient(ctx0, t0)
      requires elm0 == RootOf(t0) && parent0 == ParentOf(ctx0)
      modifies this`root, S
      ensures Stored(S, w) && RedBlack(w) && Inorder(w) == Inorder(Plug(ctx0, t0))
    {
      var parent, elm, done := parent0, elm0, false;
      ghost var ctx, t := ctx0, t0;
      Look(S, ctx, t);
      while !done && (elm == null || elm.color == Black) && elm != root
        invariant Stored(S, Plug(ctx, t)) && Deficient(ctx, t)
        invariant elm == RootOf(t) && parent == ParentOf(ctx)
        invariant elm != null ==> elm in S && elm.color == t.color
        invariant ctx.Top? <==> elm == root
        invariant done ==> ctx.Top?
        invariant Inorder(Plug(ctx, t)) == Inorder(Plug(ctx0, t0))
        decreases if IsRed(t) then 0 else Depth(ctx) + 1
      {
        Look(S, ctx, t);
        SiblingExists(ctx, t);
        if parent.left == elm {
          ctx, t, parent, elm, done := RemoveColorLeft(parent, elm, S, ctx, t);
        } else {
          ctx, t, parent, elm, done := RemoveColorRight(parent, elm, S, ctx, t);
        }
        Look(S, ctx, t);
      }
      DeleteDone(ctx, t);
      w := Plug(ctx, Painted(t, Black));
      if elm != null {
        Paint(elm, Black, S, ctx, t);
      }
    }

    /** If the sibling is red, rotates it upwards, so that the sibling is black; the parent is then red. */
    method BlackSiblingLeft(parent: Node<K>, ghost S: set<Node<K>>, ghost ctx0: Ctx<Node<K>>, ghost t: Tree<Node<K>>)
      returns (tmp: Node<K>, ghost up: Ctx<Node<K>>, ghost c: Color, ghost s: Tree<Node<K>>)
      requires Stored(S, Plug(ctx0, t)) && Deficient(ctx0, t) && !IsRed(t)
      requires ctx0.InLeft? && ctx0.right.T? && parent == ctx0.node
      modifies this`root, S
      ensures Stored(S, Plug(InLeft(up, parent, c, s), t)) && Deficient(InLeft(up, parent, c, s), t)
      ensures s.T? && s.node == tmp && s.color == Black && (up == ctx0.up || c == Red)
      ensures Inorder(Plug(InLeft(up, parent, c, s), t)) == Inorder(Plug(ctx0, t))
    {
      up, c, s := ctx0.up, ctx0.color, ctx0.right;
      Look(S, ctx0, t);
      Look(S, InRight(up, t, parent, c), s);
      tmp := parent.right;
      if tmp.color == Red {
        RedSibling(L, up, parent, c, s.left, tmp, s.right, t);
        Paint(tmp, Black, S, InRight(up, t, parent, c), s);
        Paint(parent, Red, S, up, T(t, parent, c, Painted(s, Black)));
        tmp := RotateLeft(parent, S, up, T(t, parent, Red, Painted(s, Black)));
        up := InLeft(up, tmp, Black, s.right);
        c, s := Red, s.left;
        Look(S, InLeft(up, parent, c, s), t);
        Look(S, InRight(up, t, parent, c), s);
        tmp := parent.right;
      }
    }

    /** The round when the deficient subtree is a left child. */
    method RemoveColorLeft(parent0: Node<K>, elm0: Node?<K>, ghost S: set<Node<K>>, ghost ctx0: Ctx<Node<K>>, ghost t0: Tree<Node<K>>)
      returns (ghost ctx: Ctx<Node<K>>, ghost t: Tree<Node<K>>, parent: Node?<K>, elm: Node?<K>, done: bool)
      requires Stored(S, Plug(ctx0, t0)) && Deficient(ctx0, t0) && !IsRed(t0)
      requires ctx0.InLeft? && ctx0.right.T?
      requires elm0 == RootOf(t0) && parent0 == ParentOf(ctx0)
      modifies this`root, S
      ensures Stored(S, Plug(ctx, t)) && Deficient(ctx, t)
      ensures elm == RootOf(t) && parent == ParentOf(ctx)
      ensures done ==> ctx.Top?
      ensures Inorder(Plug(ctx, t)) == Inorder(Plug(ctx0, t0))
      ensures done || IsRed(t) || Depth(ctx) < Depth(ctx0)
    {
      t := t0;
      var tmp;
      ghost var up, c, s;
      tmp, up, c, s := BlackSiblingLeft(parent0, S, ctx0, t0);
      Look(S, InRight(up, t, parent0, c), s);
      Look(S, InLeft(InRight(up, t, parent0, c), tmp, Black, s.right), s.left);
      Look(S, InRight(InRight(up, t, parent0, c), s.left, tmp, Black), s.right);
      if (tmp.left == null || tmp.left.color == Black) && (tmp.right == null || tmp.right.color == Black) {
        BlackNephews(L, up, parent0, c, s.left, tmp, s.right, t);
        Paint(tmp, Red, S, InRight(up, t, parent0, c), s);
        t := T(t, parent0, c, Painted(s, Red));
        ctx := up;
        Look(S, ctx, t);
        elm := parent0;
        parent := elm.parent;
        done := false;
      } else {
        ctx, t := RemoveColorLeftEnd(parent0, tmp, S, up, c, s, t);
        Look(S, ctx, t);
        elm := root;
        parent := null;
        done := true;
      }
    }

    /** Makes sure that the far child of the sibling is the red one. */
    method RemoveColorLeftNear(parent: Node<K>, tmp0: Node<K>, ghost S: set<Node<K>>, ghost up: Ctx<Node<K>>,
                              ghost c: Color, ghost s0: Tree<Node<K>>, ghost t0: Tree<Node<K>>)
      returns (tmp: Node<K>, ghost s: Tree<Node<K>>)
      requires Stored(S, Plug(InLeft(up, parent, c, s0), t0)) && Deficient(InLeft(up, parent, c, s0), t0)
      requires s0.T? && s0.node == tmp0 && s0.color == Black
      requires IsRed(s0.left) || IsRed(s0.right)
      modifies this`root, S
      ensures Stored(S, Plug(InLeft(up, parent, c, s), t0)) && Deficient(InLeft(up, parent, c, s), t0)
      ensures s.T? && s.node == tmp && s.color == Black && IsRed(s.right)
      ensures Inorder(Plug(InLeft(up, parent, c, s), t0)) == Inorder(Plug(InLeft(up, parent, c, s0), t0))
    {
      tmp := tmp0;
      s := s0;
      ghost var at := InRight(up, t0, parent, c);
      Look(S, at, s);
      Look(S, InRight(at, s.left, tmp, Black), s.right);
      if tmp.right == null || tmp.right.color == Black {
        RedNearNephew(L, up, parent, c, s.left.left, s.left.node, s.left.right, tmp, s.right, t0);
        var oleft := tmp.left;
        if oleft != null {
          Paint(oleft, Black, S, InLeft(at, tmp, Black, s.right), s.left);
        }
        Paint(tmp, Red, S, at, s.(left := Painted(s.left, Black)));
        oleft := RotateRight(tmp, S, at, T(Painted(s.left, Black), tmp, Red, s.right));
        s := T(s.left.left, oleft, Black, T(s.left.right, tmp, Red, s.right));
        Look(S, InLeft(up, parent, c, s), t0);
        tmp := parent.right;
      }
    }

    /** The last round: the sibling on the right has a red child. */
    method RemoveColorLeftEnd(parent: Node<K>, tmp0: Node<K>, ghost S: set<Node<K>>, ghost up: Ctx<Node<K>>,
                              ghost c: Color, ghost s0: Tree<Node<K>>, ghost t0: Tree<Node<K>>)
      returns (ghost ctx: Ctx<Node<K>>, ghost t: Tree<Node<K>>)
      requires Stored(S, Plug(InLeft(up, parent, c, s0), t0)) && Deficient(InLeft(up, parent, c, s0), t0)
      requires !IsRed(t0) && s0.T? && s0.node == tmp0 && s0.color == Black
      requires IsRed(s0.left) || IsRed(s0.right)
      modifies this`root, S
      ensures ctx.Top? && Stored(S, t) && RedBlack(t)
      ensures Inorder(t) == Inorder(Plug(InLeft(up, parent, c, s0), t0))
    {
      var tmp;
      ghost var s;
      tmp, s := RemoveColorLeftNear(parent, tmp0, S, up, c, s0, t0);
      ghost var at := InRight(up, t0, parent, c);
      RedFarNephew(L, up, parent, c, s.left, tmp, s.right, t0);
      Look(S, InLeft(up, parent, c, s), t0);
      Paint(tmp, parent.color, S, at, s);
      s := Painted(s, c);
      Paint(parent, Black, S, up, T(t0, parent, c, s));
      at := InRight(up, t0, parent, Black);
      Look(S, at, s);
      if tmp.right != null {
        Paint(tmp.right, Black, S, InRight(at, s.left, tmp, c), s.right);
      }
      s := s.(right := Painted(s.right, Black));
      tmp := RotateLeft(parent, S, up, T(t0, parent, Black, s));
      ctx, t := Top, Plug(up, RotatedLeft(T(t0, parent, Black, s)));
    }

    /** If the sibling is red, rotates it upwards, so that the sibling is black; the parent is then red. */
    method BlackSiblingRight(parent: Node<K>, ghost S: set<Node<K>>, ghost ctx0: Ctx<Node<K>>, ghost t: Tree<Node<K>>)
      returns (tmp: Node<K>, ghost up: Ctx<Node<K>>, ghost c: Color, ghost s: Tree<Node<K>>)
      requires Stored(S, Plug(ctx0, t)) && Deficient(ctx0, t) && !IsRed(t)
      requires ctx0.InRight? && ctx0.left.T? && parent == ctx0.node
      modifies this`root, S
      ensures Stored(S, Plug(InRight(up, s, parent, c), t)) && Deficient(InRight(up, s, parent, c), t)
      ensures s.T? && s.node == tmp && s.color == Black && (up == ctx0.up || c == Red)
      ensures Inorder(Plug(InRight(up, s, parent, c), t)) == Inorder(Plug(ctx0, t))
    {
      up, c, s := ctx0.up, ctx0.color, ctx0.left;
      Look(S, ctx0, t);
      Look(S, InLeft(up, parent, c, t), s);
      tmp := parent.left;
      if tmp.color == Red {
        RedSibling(R, up, parent, c, s.right, tmp, s.left, t);
        Paint(tmp, Black, S, InLeft(up, parent, c, t), s);
        Paint(parent, Red, S, up, T(Painted(s, Black), parent, c, t));
        tmp := RotateRight(parent, S, up, T(Painted(s, Black), parent, Red, t));
        up := InRight(up, s.left, tmp, Black);
        c, s := Red, s.right;
        Look(S, InRight(up, s, parent, c), t);
        Look(S, InLeft(up, parent, c, t), s);
        tmp := parent.left;
      }
    }

    /** The round when the deficient subtree is a right child. */
    method RemoveColorRight(parent0: Node<K>, elm0: Node?<K>, ghost S: set<Node<K>>, ghost ctx0: Ctx<Node<K>>, ghost t0: Tree<Node<K>>)
      returns (ghost ctx: Ctx<Node<K>>, ghost t: Tree<Node<K>>, parent: Node?<K>, elm: Node?<K>, done: bool)
      requires Stored(S, Plug(ctx0, t0)) && Deficient(ctx0, t0) && !IsRed(t0)
      requires ctx0.InRight? && ctx0.left.T?
      requires elm0 == RootOf(t0) && parent0 == ParentOf(ctx0)
      modifies this`root, S
      ensures Stored(S, Plug(ctx, t)) && Deficient(ctx, t)
      ensures elm == RootOf(t) && parent == ParentOf(ctx)
      ensures done ==> ctx.Top?
      ensures Inorder(Plug(ctx, t)) == Inorder(Plug(ctx0, t0))
      ensures done || IsRed(t) || Depth(ctx) < Depth(ctx0)
    {
      t := t0;
      var tmp;
      ghost var up, c, s;
      tmp, up, c, s := BlackSiblingRight(parent0, S, ctx0, t0);
      Look(S, InLeft(up, parent0, c, t), s);
      Look(S, InRight(InLeft(up, parent0, c, t), s.left, tmp, Black), s.right);
      Look(S, InLeft(InLeft(up, parent0, c, t), tmp, Black, s.right), s.left);
      if (tmp.right == null || tmp.right.color == Black) && (tmp.left == null || tmp.left.color == Black) {
        BlackNephews(R, up, parent0, c, s.right, tmp, s.left, t);
        Paint(tmp, Red, S, InLeft(up, parent0, c, t), s);
        t := T(Painted(s, Red), parent0, c, t);
        ctx := up;
        Look(S, ctx, t);
        elm := parent0;
        parent := elm.parent;
        done := false;
      } else {
        ctx, t := RemoveColorRightEnd(parent0, tmp, S, up, c, s, t);
        Look(S, ctx, t);
        elm := root;
        parent := null;
        done := true;
      }
    }

    /** Makes sure that the far child of the sibling is the red one. */
    method RemoveColorRightNear(parent: Node<K>, tmp0: Node<K>, ghost S: set<Node<K>>, ghost up: Ctx<Node<K>>,
                              ghost c: Color, ghost s0: Tree<Node<K>>, ghost t0: Tree<Node<K>>)
      returns (tmp: Node<K>, ghost s: Tree<Node<K>>)
      requires Stored(S, Plug(InRight(up, s0, parent, c), t0)) && Deficient(InRight(up, s0, parent, c), t0)
      requires s0.T? && s0.node == tmp0 && s0.color == Black
      requires IsRed(s0.left) || IsRed(s0.right)
      modifies this`root, S
      ensures Stored(S, Plug(InRight(up, s, parent, c), t0)) && Deficient(InRight(up, s, parent, c), t0)
      ensures s.T? && s.node == tmp && s.color == Black && IsRed(s.left)
      ensures Inorder(Plug(InRight(up, s, parent, c), t0)) == Inorder(Plug(InRight(up, s0, parent, c), t0))
    {
      tmp := tmp0;
      s := s0;
      ghost var at := InLeft(up, parent, c, t0);
      Look(S, at, s);
      Look(S, InLeft(at, tmp, Black, s.right), s.left);
      if tmp.left == null || tmp.left.color == Black {
        RedNearNephew(R, up, parent, c, s.right.right, s.right.node, s.right.left, tmp, s.left, t0);
        var oright := tmp.right;
        if oright != null {
          Paint(oright, Black, S, InRight(at, s.left, tmp, Black), s.right);
        }
        Paint(tmp, Red, S, at, s.(right := Painted(s.right, Black)));
        oright := RotateLeft(tmp, S, at, T(s.left, tmp, Red, Painted(s.right, Black)));
        s := T(T(s.left, tmp, Red, s.right.left), oright, Black, s.right.right);
        Look(S, InRight(up, s, parent, c), t0);
        tmp := parent.left;
      }
    }

    /** The last round: the sibling on the left has a red child. */
    method RemoveColorRightEnd(parent: Node<K>, tmp0: Node<K>, ghost S: set<Node<K>>, ghost up: Ctx<Node<K>>,
                              ghost c: Color, ghost s0: Tree<Node<K>>, ghost t0: Tree<Node<K>>)
      returns (ghost ctx: Ctx<Node<K>>, ghost t: Tree<Node<K>>)
      requires Stored(S, Plug(InRight(up, s0, parent, c), t0)) && Deficient(InRight(up, s0, parent, c), t0)
      requires !IsRed(t0) && s0.T? && s0.node == tmp0 && s0.color == Black
      requires IsRed(s0.right) || IsRed(s0.left)
      modifies this`root, S
      ensures ctx.Top? && Stored(S, t) && RedBlack(t)
      ensures Inorder(t) == Inorder(Plug(InRight(up, s0, parent, c), t0))
    {
      var tmp;
      ghost var s;
      tmp, s := RemoveColorRightNear(parent, tmp0, S, up, c, s0, t0);
      ghost var at := InLeft(up, parent, c, t0);
      RedFarNephew(R, up, parent, c, s.right, tmp, s.left, t0);
      Look(S, InRight(up, s, parent, c), t0);
      Paint(tmp, parent.color, S, at, s);
      s := Painted(s, c);
      Paint(parent, Black, S, up, T(s, parent, c, t0));
      at := InLeft(up, parent, Black, t0);
      Look(S, at, s);
      if tmp.left != null {
        Paint(tmp.left, Black, S, InLeft(at, tmp, c, s.right), s.left);
      }
      s := s.(left := Painted(s.left, Black));
      tmp := RotateRight(parent, S, up, T(s, parent, Black, t0));
      ctx, t := Top, Plug(up, RotatedRight(T(s, parent, Black, t0)));
    }

    /** Unlinks a node with at most one subtree. */
    method UnlinkOne(elm: Node<K>, child: Node?<K>, ghost S: set<Node<K>>, ghost ctx: Ctx<Node<K>>,
                     ghost t: Tree<Node<K>>, ghost sub: Tree<Node<K>>)
      returns (parent: Node?<K>, color: Color)
      requires Stored(S, Plug(ctx, t)) && RedBlack(Plug(ctx, t)) && t.T? && t.node == elm && child == RootOf(sub)
      requires (t.left == Leaf && sub == t.right) || (t.right == Leaf && sub == t.left)
      modifies this`root, S
      ensures Stored(S, Plug(ctx, sub)) && parent == ParentOf(ctx) == elm.parent
      ensures color == Black ==> Deficient(ctx, sub)
      ensures color == Red ==> RedBlack(Plug(ctx, sub))
      ensures Inorder(Plug(ctx, sub)) == (Before(ctx) + Inorder(t.left)) + (Inorder(t.right) + After(ctx))
    {
      Look(S, ctx, t);
      Spliced(ctx, t, sub);
      parent := elm.parent;
      color := elm.color;
      Splice(elm, child, S, ctx, t, sub);
      InorderPlug(ctx, sub);
      assert Inorder(t.left) + Inorder(t.right) == Inorder(sub);
      Ungroup(Before(ctx), Inorder(t.left), Inorder(t.right), After(ctx));
    }

    static lemma Ungroup<N>(a: seq<N>, b: seq<N>, c: seq<N>, d: seq<N>)
      ensures a + (b + c) + d == (a + b) + (c + d)
    {
    }

    /** The leftmost node below a position, and the way to it. */
    method Leftmost(top: Node<K>, ghost S: set<Node<K>>, ghost outer: Ctx<Node<K>>, ghost t: Tree<Node<K>>)
      returns (elm: Node<K>, ghost path: Ctx<Node<K>>, ghost sub: Tree<Node<K>>)
      requires Stored(S, Plug(outer, t)) && t.T? && t.node == top
      ensures Stored(S, Plug(outer, t))
      ensures Plug(path, sub) == t && sub.T? && sub.node == elm && sub.left == Leaf && Before(path) == []
      ensures elm == Inorder(t)[0]
    {
      elm, path, sub := top, Top, t;
      PlugCompose(path, outer, sub);
      Look(S, Compose(path, outer), sub);
      while elm.left != null
        invariant Stored(S, Plug(outer, t))
        invariant Plug(path, sub) == t && sub.T? && sub.node == elm && elm.left == RootOf(sub.left) && Before(path) == []
        decreases sub
      {
        elm := elm.left;
        path, sub := InLeft(path, sub.node, sub.color, sub.right), sub.left;
        PlugCompose(path, outer, sub);
        Look(S, Compose(path, outer), sub);
      }
      InorderPlug(path, sub);
    }

    /** Unlinks a node with two subtrees: its successor takes its place. */
    method UnlinkTwo(prev: Node<K>, ghost S: set<Node<K>>, ghost ctx: Ctx<Node<K>>, ghost t: Tree<Node<K>>)
      returns (child: Node?<K>, parent: Node?<K>, color: Color, ghost ctx': Ctx<Node<K>>, ghost sub': Tree<Node<K>>)
      requires Stored(S, Plug(ctx, t)) && RedBlack(Plug(ctx, t)) && t.T? && t.node == prev
      requires t.left.T? && t.right.T?
      modifies this`root, S
      ensures Stored(S, Plug(ctx', sub')) && child == RootOf(sub') && parent == ParentOf(ctx')
      ensures color == Black ==> Deficient(ctx', sub')
      ensures color == Red ==> RedBlack(Plug(ctx', sub'))
      ensures Inorder(Plug(ctx', sub')) == (Before(ctx) + Inorder(t.left)) + (Inorder(t.right) + After(ctx))
    {
      Look(S, ctx, t);
      ghost var outer := InRight(ctx, t.left, prev, t.color);
      var elm := prev.right;
      ghost var path, sub;
      elm, path, sub := Leftmost(elm, S, outer, t.right);
      ghost var at := Compose(path, outer);
      SuccessorPlace(S, path, ctx, t, sub);
      Look(S, at, sub);
      child := elm.right;
      sub' := sub.right;
      parent, color := UnlinkOne(elm, child, S, at, sub, sub');
      if elm.parent == prev {
        parent := elm;
      }
      TakeOver(prev, elm, S, ctx, T(t.left, prev, t.color, Plug(path, sub')));
      ctx' := Compose(path, InRight(ctx, t.left, elm, t.color));
      SuccessorColors(path, ctx, t, sub);
      SuccessorInorder(path, ctx, t, sub);
    }

    lemma SuccessorPlace(S: set<Node<K>>, path: Ctx<Node<K>>, ctx: Ctx<Node<K>>, t: Tree<Node<K>>, sub: Tree<Node<K>>)
      requires Stored(S, Plug(ctx, t)) && SuccessorOf(path, t, sub)
      ensures var at, at' := Compose(path, InRight(ctx, t.left, t.node, t.color)),
                             Compose(path, InRight(ctx, t.left, sub.node, t.color));
        && Plug(at, sub) == Plug(ctx, t)
        && Plug(at, sub.right) == Plug(ctx, T(t.left, t.node, t.color, Plug(path, sub.right)))
        && Plug(at', sub.right) == Plug(ctx, T(t.left, sub.node, t.color, Plug(path, sub.right)))
        && sub.node in S && sub.node !in Nodes(Plug(at, sub.right))
        && ParentOf(at') == if ParentOf(at) == t.node then sub.node else ParentOf(at)
    {
      var at := Compose(path, InRight(ctx, t.left, t.node, t.color));
      PlugCompose(path, InRight(ctx, t.left, t.node, t.color), sub);
      PlugCompose(path, InRight(ctx, t.left, t.node, t.color), sub.right);
      PlugCompose(path, InRight(ctx, t.left, sub.node, t.color), sub.right);
      Disjoint(S, at, sub);
      PlugNodes(ctx, t);
      PlugNodes(path, sub);
    }

    /** A stored node is not elsewhere in the tree. */
    lemma Disjoint(S: set<Node<K>>, ctx: Ctx<Node<K>>, t: Tree<Node<K>>)
      requires Stored(S, Plug(ctx, t)) && t.T?
      ensures t.node in S && t.node !in Nodes(Plug(ctx, t.left)) && t.node !in Nodes(Plug(ctx, t.right))
    {
      PlugNodes(ctx, t);
      PlugNodes(ctx, t.left);
      PlugNodes(ctx, t.right);
    }

    /** RB_REMOVE, in terms of the position of the element. */
    method RemoveAt(elm: Node<K>, ghost S: set<Node<K>>, ghost ctx: Ctx<Node<K>>, ghost t: Tree<Node<K>>)
      returns (ghost w: Tree<Node<K>>)
      requires Stored(S, Plug(ctx, t)) && RedBlack(Plug(ctx, t)) && t.T? && t.node == elm
      modifies this`root, S
      ensures Stored(S, w) && RedBlack(w)
      ensures Inorder(w) == (Before(ctx) + Inorder(t.left)) + (Inorder(t.right) + After(ctx))
    {
      Look(S, ctx, t);
      var child, parent, color;
      ghost var ctx', sub := ctx, t.right;
      if elm.left == null {
        child := elm.right;
        parent, color := UnlinkOne(elm, child, S, ctx, t, sub);
      } else if elm.right == null {
        child := elm.left;
        sub := t.left;
        parent, color := UnlinkOne(elm, child, S, ctx, t, sub);
      } else {
        child, parent, color, ctx', sub := UnlinkTwo(elm, S, ctx, t);
      }
      w := Plug(ctx', sub);
      if color == Black {
        w := RemoveColor(parent, child, S, ctx', sub);
      }
    }

    /** RB_REMOVE: unlinks an element of the tree and returns it. */
    method Remove(elm: Node<K>) returns (r: Node<K>)
      requires Valid() && elm in Nodes(tree)
      modifies this`root, this`tree, Nodes(tree)
      ensures Valid() && r == elm
      ensures forall i :: 0 <= i < |old(Elements())| && old(Elements())[i] == elm ==>
                Elements() == old(Elements())[..i] + old(Elements())[i + 1..]
      ensures Nodes(tree) == old(Nodes(tree)) - {elm}
    {
      ghost var S, position := Nodes(tree), Locate(Top, tree, elm);
      ghost var ctx, t := position.0, position.1;
      InorderFocus(ctx, t);
      tree := RemoveAt(elm, S, ctx, t);
      RemovedFrom(cmp, old(tree), tree, Before(ctx) + Inorder(t.left), elm, Inorder(t.right) + After(ctx));
      StoredIn(S, Nodes(tree), tree);
      r := elm;
    }

    // ---------- Traversal ----------

    /** Where a node stands in the tree, and what its neighbours are. */
    lemma Place(elm: Node<K>) returns (ctx: Ctx<Node<K>>, t: Tree<Node<K>>)
      requires Valid() && elm in Nodes(tree)
      ensures Plug(ctx, t) == tree && t.T? && t.node == elm
      ensures IsNext<Node?<K>>(Elements(), elm, NextFrom(ctx, t), null)
      ensures IsPrev<Node?<K>>(Elements(), elm, PrevFrom(ctx, t), null)
    {
      var position := Locate(Top, tree, elm);
      ctx, t := position.0, position.1;
      InorderFocus(ctx, t);
      SortedNoDuplicates(cmp, Elements(), KeyOf);
      Neighbours<Node?<K>>(Elements(), Before(ctx) + Inorder(t.left), elm, Inorder(t.right) + After(ctx), null);
    }

    /** The first node below the right child, or else the first one after the whole subtree. */
    ghost function NextFrom(ctx: Ctx<Node<K>>, t: Tree<Node<K>>): Node?<K>
      requires t.T?
    {
      if t.right.T? then Inorder(t.right)[0] else ItemAt<Node?<K>>(After(ctx), 0, null)
    }

    /** The last node below the left child, or else the last one before the whole subtree. */
    ghost function PrevFrom(ctx: Ctx<Node<K>>, t: Tree<Node<K>>): Node?<K>
      requires t.T?
    {
      if t.left.T? then Inorder(t.left)[|Inorder(t.left)| - 1] else ItemAt<Node?<K>>(Before(ctx), |Before(ctx)| - 1, null)
    }

    /** What lies below a child of `t` is in the tree. */
    lemma Below(ctx: Ctx<Node<K>>, t: Tree<Node<K>>, path: Ctx<Node<K>>, sub: Tree<Node<K>>)
      requires t.T? && sub.T? && (Plug(path, sub) == t.left || Plug(path, sub) == t.right)
      ensures sub.node in Nodes(Plug(ctx, t))
    {
      PlugNodes(ctx, t);
      PlugNodes(path, sub);
    }

    /** RB_NEXT, found through the links alone. */
    method Next(elm: Node<K>) returns (r: Node?<K>)
      requires Valid() && elm in Nodes(tree)
      ensures Stored(Nodes(tree), tree)
      ensures IsNext<Node?<K>>(Elements(), elm, r, null)
      ensures r != null ==> r in Nodes(tree)
    {
      ghost var ctx, t := Place(elm);
      Look(Nodes(tree), ctx, t);
      if elm.right != null {
        ghost var path, sub;
        r, path, sub := Leftmost(elm.right, Nodes(tree), InRight(ctx, t.left, t.node, t.color), t.right);
        Below(ctx, t, path, sub);
      } else {
        r := ClimbNext(elm, Nodes(tree), ctx, t);
      }
    }

    /** The way up of RB_NEXT, from a node without right child. */
    method ClimbNext(elm0: Node<K>, ghost S: set<Node<K>>, ghost ctx0: Ctx<Node<K>>, ghost t0: Tree<Node<K>>) returns (r: Node?<K>)
      requires Stored(S, Plug(ctx0, t0)) && t0.T? && t0.node == elm0
      ensures Stored(S, Plug(ctx0, t0))
      ensures r == ItemAt<Node?<K>>(After(ctx0), 0, null) && (r != null ==> r in S)
    {
      var elm := elm0;
      ghost var w, ctx, t := Plug(ctx0, t0), ctx0, t0;
      Look(S, ctx, t);
      if elm.parent != null && elm == elm.parent.left {
        return elm.parent;
      }
      while elm.parent != null && elm == elm.parent.right
        invariant Stored(S, w) && Plug(ctx, t) == w && t.T? && t.node == elm && After(ctx) == After(ctx0)
        invariant elm.parent == ParentOf(ctx) && (!ctx.Top? ==> ctx.node in S && (elm == ctx.node.right <==> ctx.InRight?))
        decreases ctx
      {
        elm := elm.parent;
        t, ctx := Join(ctx, t), ctx.up;
        Look(S, ctx, t);
      }
      r := elm.parent;
    }

    /** RB_PREV, found through the links alone. */
    method Prev(elm: Node<K>) returns (r: Node?<K>)
      requires Valid() && elm in Nodes(tree)
      ensures Stored(Nodes(tree), tree)
      ensures IsPrev<Node?<K>>(Elements(), elm, r, null)
      ensures r != null ==> r in Nodes(tree)
    {
      ghost var ctx, t := Place(elm);
      Look(Nodes(tree), ctx, t);
      if elm.left != null {
        ghost var path, sub;
        r, path, sub := Rightmost(elm.left, Nodes(tree), InLeft(ctx, t.node, t.color, t.right), t.left);
        Below(ctx, t, path, sub);
      } else {
        r := ClimbPrev(elm, Nodes(tree), ctx, t);
      }
    }

    /** The way up of RB_PREV, from a node without left child. */
    method ClimbPrev(elm0: Node<K>, ghost S: set<Node<K>>, ghost ctx0: Ctx<Node<K>>, ghost t0: Tree<Node<K>>) returns (r: Node?<K>)
      requires Stored(S, Plug(ctx0, t0)) && t0.T? && t0.node == elm0
      ensures Stored(S, Plug(ctx0, t0))
      ensures r == ItemAt<Node?<K>>(Before(ctx0), |Before(ctx0)| - 1, null) && (r != null ==> r in S)
    {
      var elm := elm0;
      ghost var w, ctx, t := Plug(ctx0, t0), ctx0, t0;
      Look(S, ctx, t);
      if elm.parent != null && elm == elm.parent.right {
        return elm.parent;
      }
      while elm.parent != null && elm == elm.parent.left
        invariant Stored(S, w) && Plug(ctx, t) == w && t.T? && t.node == elm && Before(ctx) == Before(ctx0)
        invariant elm.parent == ParentOf(ctx) && (!ctx.Top? ==> ctx.node in S && (elm == ctx.node.left <==> ctx.InLeft?))
        decreases ctx
      {
        elm := elm.parent;
        t, ctx := Join(ctx, t), ctx.up;
        Look(S, ctx, t);
      }
      r := elm.parent;
    }

    /** The rightmost node below a position, and the way to it. */
    method Rightmost(top: Node<K>, ghost S: set<Node<K>>, ghost outer: Ctx<Node<K>>, ghost t: Tree<Node<K>>)
      returns (elm: Node<K>, ghost path: Ctx<Node<K>>, ghost sub: Tree<Node<K>>)
      requires Stored(S, Plug(outer, t)) && t.T? && t.node == top
      ensures Stored(S, Plug(outer, t))
      ensures Plug(path, sub) == t && sub.T? && sub.node == elm && sub.right == Leaf && After(path) == []
      ensures elm == Inorder(t)[|Inorder(t)| - 1]
    {
      elm, path, sub := top, Top, t;
      PlugCompose(path, outer, sub);
      Look(S, Compose(path, outer), sub);
      while elm.right != null
        invariant Stored(S, Plug(outer, t))
        invariant Plug(path, sub) == t && sub.T? && sub.node == elm && elm.right == RootOf(sub.right) && After(path) == []
        decreases sub
      {
        elm := elm.right;
        path, sub := InRight(path, sub.left, sub.node, sub.color), sub.right;
        PlugCompose(path, outer, sub);
        Look(S, Compose(path, outer), sub);
      }
      InorderPlug(path, sub);
    }

    /** RB_MINMAX: the first element for a negative `val`, otherwise the last one. */
    method MinMax(val: int) returns (parent: Node?<K>)
      requires Valid()
      ensures Stored(Nodes(tree), tree)
      ensures parent == null <==> Elements() == []
      ensures parent != null ==> parent == if val < 0 then Elements()[0] else Elements()[|Elements()| - 1]
      ensures parent != null ==> parent in Nodes(tree)
    {
      var tmp := root;
      parent := null;
      ghost var S := Nodes(tree);
      ghost var ctx: Ctx<Node<K>>, t := Top, tree;
      while tmp != null
        invariant Stored(S, tree) && Plug(ctx, t) == tree && tmp == RootOf(t) && parent == ParentOf(ctx)
        invariant !ctx.Top? ==> ctx.node in S
        invariant val < 0 ==> Before(ctx) == [] && (!ctx.Top? ==> After(ctx) != [] && After(ctx)[0] == parent)
        invariant val >= 0 ==> After(ctx) == [] && (!ctx.Top? ==> Before(ctx) != [] && Before(ctx)[|Before(ctx)| - 1] == parent)
        decreases t
      {
        Look(S, ctx, t);
        parent := tmp;
        if val < 0 {
          tmp := tmp.left;
          ctx, t := InLeft(ctx, t.node, t.color, t.right), t.left;
        } else {
          tmp := tmp.right;
          ctx, t := InRight(ctx, t.left, t.node, t.color), t.right;
        }
      }
      InorderPlug(ctx, Leaf);
    }

    /** RB_NEXT and RB_PREV undo each other. */
    lemma NextPrevInverse(elm: Node<K>, r: Node<K>)
      requires IsOrder(cmp) && Sorted(cmp, Keys(Elements())) && elm in Elements() && r in Elements()
      ensures IsNext<Node?<K>>(Elements(), elm, r, null) <==> IsPrev<Node?<K>>(Elements(), r, elm, null)
    {
      SortedNoDuplicates(cmp, Elements(), KeyOf);
      Inverse<Node?<K>>(Elements(), elm, r, null);
    }

    /** RB_FOREACH visits every element once, in ascending order. */
    method Foreach() returns (visited: seq<Node<K>>)
      requires Valid()
      ensures visited == Elements()
    {
      visited := [];
      ghost var s := Elements();
      var x := MinMax(-1);
      while x != null
        invariant Stored(Nodes(tree), tree) && VisitedTo<Node?<K>>(s, visited, x, null)
        invariant x != null ==> x in Nodes(tree)
        decreases |s| - |visited|
      {
        ghost var v, y := visited, x;
        visited := visited + [x];
        x := Next(x);
        VisitNext<Node?<K>>(s, v, y, x, null);
      }
    }

    /** RB_FOREACH_REVERSE visits every element once, in descending order. */
    method ForeachReverse() returns (visited: seq<Node<K>>)
      requires Valid()
      ensures |visited| == |Elements()|
      ensures forall i :: 0 <= i < |visited| ==> visited[i] == Elements()[|visited| - 1 - i]
    {
      visited := [];
      ghost var s := Elements();
      var x := MinMax(1);
      while x != null
        invariant Stored(Nodes(tree), tree) && VisitedBackTo<Node?<K>>(s, visited, x, null)
        invariant x != null ==> x in Nodes(tree)
        decreases |s| - |visited|
      {
        ghost var v, y := visited, x;
        visited := visited + [x];
        x := Prev(x);
        VisitPrev<Node?<K>>(s, v, y, x, null);
      }
    }
  }
}
