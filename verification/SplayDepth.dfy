/**
 What a splay of kvstore/NtyCo/core/nty_tree.h does to depths. `dir` says at each node where the
 search goes: left for a negative value, right for a positive one, and no further for 0.
 */
module SplayDepth {
  import opened SplayShape

  // ---------- Depths, and how far a node lies along the search path ----------

  ghost function Depth<N>(t: Tree<N>, n: N): nat
    requires n in Nodes(t)
  {
    if n == t.node then 0 else if n in Nodes(t.left) then 1 + Depth(t.left, n) else 1 + Depth(t.right, n)
  }

  /** How many steps the way to `n` shares with the search path. */
  ghost function Along<N>(t: Tree<N>, dir: N -> int, n: N): (a: nat)
    requires n in Nodes(t)
    ensures a <= Depth(t, n)
  {
    if n == t.node then 0
    else if n in Nodes(t.left) then (if dir(t.node) < 0 then 1 + Along(t.left, dir, n) else 0)
    else (if dir(t.node) > 0 then 1 + Along(t.right, dir, n) else 0)
  }

  /** `n` occurs in `t` at depth `b` or above. */
  ghost predicate Within<N>(t: Tree<N>, n: N, b: int) {
    t.T? && b >= 0 && (n == t.node || Within(t.left, n, b - 1) || Within(t.right, n, b - 1))
  }

  lemma {:induction false} WithinDepth<N>(t: Tree<N>, n: N, b: int)
    requires Distinct(t) && Within(t, n, b)
    ensures n in Nodes(t) && Depth(t, n) <= b
  {
    if n != t.node {
      if Within(t.left, n, b - 1) {
        WithinDepth(t.left, n, b - 1);
      } else {
        WithinDepth(t.right, n, b - 1);
      }
    }
  }

  lemma {:induction false} DepthWithin<N>(t: Tree<N>, n: N)
    requires n in Nodes(t)
    ensures Within(t, n, Depth(t, n))
  {
    if n != t.node {
      if n in Nodes(t.left) { DepthWithin(t.left, n); } else { DepthWithin(t.right, n); }
    }
  }

  lemma {:induction false} WithinMore<N>(t: Tree<N>, n: N, b: int, c: int)
    requires Within(t, n, b) && b <= c
    ensures Within(t, n, c)
  {
    if n != t.node {
      if Within(t.left, n, b - 1) { WithinMore(t.left, n, b - 1, c - 1); } else { WithinMore(t.right, n, b - 1, c - 1); }
    }
  }

  // ---------- The promise ----------

  /**
   With `t` standing `i` steps down the search path, the promise for `n` is at most `b`: of the
   steps along the path half are promised, and two more; of those off the path all.
   */
  ghost predicate Promised<N>(t: Tree<N>, dir: N -> int, i: nat, n: N, b: int) {
    t.T? && (
      || (n == t.node && i / 2 + 2 <= b)
      || (if dir(t.node) < 0 then Promised(t.left, dir, i + 1, n, b) else Within(t.left, n, b - i / 2 - 3))
      || (if dir(t.node) > 0 then Promised(t.right, dir, i + 1, n, b) else Within(t.right, n, b - i / 2 - 3)))
  }

  /** What is promised for `w0` holds of `w`. */
  ghost predicate Kept<N>(w0: Tree<N>, w: Tree<N>, dir: N -> int) {
    forall n, b: int :: n in Nodes(w0) && Promised(w0, dir, 0, n, b) ==> Within(w, n, b)
  }

  lemma {:induction false} PromisedDepth<N>(t: Tree<N>, dir: N -> int, i: nat, n: N, b: int)
    requires n in Nodes(t)
    requires b == Depth(t, n) - Along(t, dir, n) + (i + Along(t, dir, n)) / 2 + 2
    ensures Promised(t, dir, i, n, b)
  {
    if n != t.node {
      var left := n in Nodes(t.left);
      var s := if left then t.left else t.right;
      if (if left then dir(t.node) < 0 else dir(t.node) > 0) {
        assert Along(t, dir, n) == 1 + Along(s, dir, n);
        PromisedDepth(s, dir, i + 1, n, b);
      } else {
        assert b - i / 2 - 3 == Depth(s, n);
        DepthWithin(s, n);
      }
    }
  }

  /** The depth promised for `n`. */
  ghost function Due<N>(t: Tree<N>, dir: N -> int, n: N): int
    requires n in Nodes(t)
  {
    var a := Along(t, dir, n);
    Depth(t, n) - a + a / 2 + 2
  }

  /** A node whose way shared `a` steps with the search path loses half of them, up to two. */
  ghost predicate Halved<N>(w0: Tree<N>, w: Tree<N>, dir: N -> int)
    requires Nodes(w0) <= Nodes(w)
  {
    forall n :: n in Nodes(w0) ==> Depth(w, n) <= Due(w0, dir, n)
  }

  lemma DueKept<N>(w0: Tree<N>, w: Tree<N>, dir: N -> int, n: N)
    requires Kept(w0, w, dir) && Distinct(w) && n in Nodes(w0) && n in Nodes(w)
    ensures Depth(w, n) <= Due(w0, dir, n)
  {
    PromisedDepth(w0, dir, 0, n, Due(w0, dir, n));
    WithinDepth(w, n, Due(w0, dir, n));
  }

  lemma KeptHalved<N>(w0: Tree<N>, w: Tree<N>, dir: N -> int)
    requires Kept(w0, w, dir) && Distinct(w) && Nodes(w0) <= Nodes(w)
    ensures Halved(w0, w, dir)
  {
    forall n | n in Nodes(w0)
      ensures Depth(w, n) <= Due(w0, dir, n)
    {
      DueKept(w0, w, dir, n);
    }
  }

  /** Nodes on the search path: half their depth, and two more. */
  lemma {:induction false} PathAlong<N>(t: Tree<N>, dir: N -> int, n: N)
    requires Distinct(t) && n in Path(t, dir)
    ensures n in Nodes(t) && Along(t, dir, n) == Depth(t, n) && Due(t, dir, n) == Depth(t, n) / 2 + 2
  {
    if n != t.node {
      PathAlong(if dir(t.node) < 0 then t.left else t.right, dir, n);
    }
  }

  /** The nodes that the search visits. */
  ghost function Path<N>(t: Tree<N>, dir: N -> int): seq<N> {
    if t == Leaf then []
    else if dir(t.node) < 0 then [t.node] + Path(t.left, dir)
    else if dir(t.node) > 0 then [t.node] + Path(t.right, dir)
    else [t.node]
  }

  /** No node is more than two steps deeper than before. */
  lemma DueAtMost<N>(t: Tree<N>, dir: N -> int, n: N)
    requires n in Nodes(t)
    ensures Due(t, dir, n) <= Depth(t, n) + 2
  {
  }

  // ---------- The side trees ----------

  ghost function LeftLength<N>(ls: LeftSide<N>): nat {
    match ls case LeftEnd => 0 case LeftLink(up, _, _) => LeftLength(up) + 1
  }

  ghost function RightLength<N>(rs: RightSide<N>): nat {
    match rs case RightEnd => 0 case RightLink(up, _, _) => RightLength(up) + 1
  }

  /** `n` is on the left side, and will be at depth `b` or above when the trees are put together. */
  ghost predicate LeftWithin<N>(ls: LeftSide<N>, n: N, b: int) {
    match ls
    case LeftEnd => false
    case LeftLink(up, l, m) =>
      (n == m && LeftLength(ls) <= b) || Within(l, n, b - LeftLength(ls) - 1) || LeftWithin(up, n, b)
  }

  ghost predicate RightWithin<N>(rs: RightSide<N>, n: N, b: int) {
    match rs
    case RightEnd => false
    case RightLink(up, m, r) =>
      (n == m && RightLength(rs) <= b) || Within(r, n, b - RightLength(rs) - 1) || RightWithin(up, n, b)
  }

  lemma {:induction false} PlugLeftWithin<N>(ls: LeftSide<N>, t: Tree<N>, n: N, b: int)
    requires Within(t, n, b - LeftLength(ls)) || LeftWithin(ls, n, b + 1)
    ensures Within(PlugLeft(ls, t), n, b)
    decreases ls
  {
    match ls
    case LeftEnd =>
    case LeftLink(up, l, m) =>
      PlugLeftWithin(up, T(l, m, t), n, b);
  }

  lemma {:induction false} PlugRightWithin<N>(rs: RightSide<N>, t: Tree<N>, n: N, b: int)
    requires Within(t, n, b - RightLength(rs)) || RightWithin(rs, n, b + 1)
    ensures Within(PlugRight(rs, t), n, b)
    decreases rs
  {
    match rs
    case RightEnd =>
    case RightLink(up, m, r) =>
      PlugRightWithin(up, T(t, m, r), n, b);
  }

  lemma {:induction false} LeftWithinPositive<N>(ls: LeftSide<N>, n: N, b: int)
    requires LeftWithin(ls, n, b)
    ensures b >= 1
  {
    if ls.LeftLink? && LeftWithin(ls.up, n, b) { LeftWithinPositive(ls.up, n, b); }
  }

  lemma {:induction false} RightWithinPositive<N>(rs: RightSide<N>, n: N, b: int)
    requires RightWithin(rs, n, b)
    ensures b >= 1
  {
    if rs.RightLink? && RightWithin(rs.up, n, b) { RightWithinPositive(rs.up, n, b); }
  }

  /** Where a node is when the trees are put together. */
  lemma AssembledWithin<N>(ls: LeftSide<N>, mid: Tree<N>, rs: RightSide<N>, n: N, b: int)
    requires mid.T?
    requires
      || (n == mid.node && b >= 0) || LeftWithin(ls, n, b) || RightWithin(rs, n, b)
      || Within(mid.left, n, b - 1 - LeftLength(ls)) || Within(mid.right, n, b - 1 - RightLength(rs))
    ensures Within(Assembled(ls, mid, rs), n, b)
  {
    if LeftWithin(ls, n, b) {
      LeftWithinPositive(ls, n, b);
      PlugLeftWithin(ls, mid.left, n, b - 1);
    } else if RightWithin(rs, n, b) {
      RightWithinPositive(rs, n, b);
      PlugRightWithin(rs, mid.right, n, b - 1);
    } else if Within(mid.left, n, b - 1 - LeftLength(ls)) {
      PlugLeftWithin(ls, mid.left, n, b - 1);
    } else if Within(mid.right, n, b - 1 - RightLength(rs)) {
      PlugRightWithin(rs, mid.right, n, b - 1);
    }
  }

  // ---------- The loop ----------

  /** Each side is at most half as long as the way so far; one more only if the search has just turned away. */
  ghost predicate Short<N>(ls: LeftSide<N>, mid: Tree<N>, rs: RightSide<N>, dir: N -> int, i: nat)
    requires mid.T?
  {
    && 2 * LeftLength(ls) <= i + (if dir(mid.node) <= 0 then 1 else 0)
    && 2 * RightLength(rs) <= i + (if dir(mid.node) >= 0 then 1 else 0)
  }

  /** The search stands at the middle tree, `i` steps down the path of `w0`, and has kept the promises so far. */
  ghost predicate Going<N>(ls: LeftSide<N>, mid: Tree<N>, rs: RightSide<N>, dir: N -> int, w0: Tree<N>, i: nat) {
    && mid.T? && Short(ls, mid, rs, dir, i)
    && forall n, b: int :: n in Nodes(w0) && Promised(w0, dir, 0, n, b) ==>
         LeftWithin(ls, n, b) || RightWithin(rs, n, b) || Promised(mid, dir, i, n, b)
  }

  lemma Begin<N>(w0: Tree<N>, dir: N -> int)
    requires w0.T?
    ensures Going(LeftEnd, w0, RightEnd, dir, w0, 0)
  {
  }

  /** The search goes on to the left below the root. */
  ghost predicate ZigsLeft<N>(mid: Tree<N>, dir: N -> int)
    requires mid.T?
  {
    mid.left.T? && dir(mid.left.node) < 0
  }

  ghost predicate ZigsRight<N>(mid: Tree<N>, dir: N -> int)
    requires mid.T?
  {
    mid.right.T? && dir(mid.right.node) > 0
  }

  /** The middle tree after the rotation of SPLAY when the search goes left at the root. */
  ghost predicate IsZigLeft<N>(mid: Tree<N>, z: Tree<N>, dir: N -> int) {
    mid.T? && z == if ZigsLeft(mid, dir) then RotatedRight(mid) else mid
  }

  ghost predicate IsZigRight<N>(mid: Tree<N>, z: Tree<N>, dir: N -> int) {
    mid.T? && z == if ZigsRight(mid, dir) then RotatedLeft(mid) else mid
  }

  /** How many steps a round goes down. */
  ghost function Steps(zigs: bool): nat {
    if zigs then 2 else 1
  }

  lemma LeftLinked<N>(ls: LeftSide<N>, mid: Tree<N>, z: Tree<N>, rs: RightSide<N>, dir: N -> int, i: nat, n: N, b: int)
    requires mid.T? && Short(ls, mid, rs, dir, i) && dir(mid.node) < 0 && IsZigLeft(mid, z, dir) && z.left.T?
    requires Promised(mid, dir, i, n, b)
    ensures RightWithin(RightLink(rs, z.node, z.right), n, b) || Promised(z.left, dir, i + Steps(ZigsLeft(mid, dir)), n, b)
  {
    var k := RightLength(rs) + 1;
    if !ZigsLeft(mid, dir) {
      if Within(mid.right, n, b - i / 2 - 3) { WithinMore(mid.right, n, b - i / 2 - 3, b - k - 1); }
    } else {
      if n == mid.node && i / 2 + 2 <= b {
      } else if Within(mid.right, n, b - i / 2 - 3) {
        WithinMore(mid.right, n, b - i / 2 - 3, b - k - 2);
      } else if Within(mid.left.right, n, b - (i + 1) / 2 - 3) {
        WithinMore(mid.left.right, n, b - (i + 1) / 2 - 3, b - k - 2);
      }
    }
  }

  lemma RightLinked<N>(ls: LeftSide<N>, mid: Tree<N>, z: Tree<N>, rs: RightSide<N>, dir: N -> int, i: nat, n: N, b: int)
    requires mid.T? && Short(ls, mid, rs, dir, i) && dir(mid.node) > 0 && IsZigRight(mid, z, dir) && z.right.T?
    requires Promised(mid, dir, i, n, b)
    ensures LeftWithin(LeftLink(ls, z.left, z.node), n, b) || Promised(z.right, dir, i + Steps(ZigsRight(mid, dir)), n, b)
  {
    var k := LeftLength(ls) + 1;
    if !ZigsRight(mid, dir) {
      if Within(mid.left, n, b - i / 2 - 3) { WithinMore(mid.left, n, b - i / 2 - 3, b - k - 1); }
    } else {
      if n == mid.node && i / 2 + 2 <= b {
      } else if Within(mid.left, n, b - i / 2 - 3) {
        WithinMore(mid.left, n, b - i / 2 - 3, b - k - 2);
      } else if Within(mid.right.left, n, b - (i + 1) / 2 - 3) {
        WithinMore(mid.right.left, n, b - (i + 1) / 2 - 3, b - k - 2);
      }
    }
  }

  /** A round that links to the right side. */
  lemma GoLeft<N>(ls: LeftSide<N>, mid: Tree<N>, z: Tree<N>, rs: RightSide<N>, dir: N -> int, w0: Tree<N>, i: nat)
    requires Going(ls, mid, rs, dir, w0, i) && dir(mid.node) < 0 && IsZigLeft(mid, z, dir) && z.left.T?
    ensures Going(ls, z.left, RightLink(rs, z.node, z.right), dir, w0, i + Steps(ZigsLeft(mid, dir)))
  {
    forall n, b: int | n in Nodes(w0) && Promised(w0, dir, 0, n, b)
      ensures LeftWithin(ls, n, b) || RightWithin(RightLink(rs, z.node, z.right), n, b)
           || Promised(z.left, dir, i + Steps(ZigsLeft(mid, dir)), n, b)
    {
      if Promised(mid, dir, i, n, b) { LeftLinked(ls, mid, z, rs, dir, i, n, b); }
    }
  }

  lemma GoRight<N>(ls: LeftSide<N>, mid: Tree<N>, z: Tree<N>, rs: RightSide<N>, dir: N -> int, w0: Tree<N>, i: nat)
    requires Going(ls, mid, rs, dir, w0, i) && dir(mid.node) > 0 && IsZigRight(mid, z, dir) && z.right.T?
    ensures Going(LeftLink(ls, z.left, z.node), z.right, rs, dir, w0, i + Steps(ZigsRight(mid, dir)))
  {
    forall n, b: int | n in Nodes(w0) && Promised(w0, dir, 0, n, b)
      ensures LeftWithin(LeftLink(ls, z.left, z.node), n, b) || RightWithin(rs, n, b)
           || Promised(z.right, dir, i + Steps(ZigsRight(mid, dir)), n, b)
    {
      if Promised(mid, dir, i, n, b) { RightLinked(ls, mid, z, rs, dir, i, n, b); }
    }
  }

  /** A round that finds nothing further on the left, perhaps after its rotation. */
  lemma StopLeft<N>(ls: LeftSide<N>, mid: Tree<N>, z: Tree<N>, rs: RightSide<N>, dir: N -> int, w0: Tree<N>, i: nat)
    requires Going(ls, mid, rs, dir, w0, i) && dir(mid.node) < 0 && IsZigLeft(mid, z, dir) && z.left == Leaf
    ensures Kept(w0, Assembled(ls, z, rs), dir)
  {
    forall n, b: int | n in Nodes(w0) && Promised(w0, dir, 0, n, b)
      ensures Within(Assembled(ls, z, rs), n, b)
    {
      if Promised(mid, dir, i, n, b) { LeftStopped(ls, mid, z, rs, dir, i, n, b); }
      AssembledWithin(ls, z, rs, n, b);
    }
  }

  lemma LeftStopped<N>(ls: LeftSide<N>, mid: Tree<N>, z: Tree<N>, rs: RightSide<N>, dir: N -> int, i: nat, n: N, b: int)
    requires mid.T? && Short(ls, mid, rs, dir, i) && dir(mid.node) < 0 && IsZigLeft(mid, z, dir) && z.left == Leaf
    requires Promised(mid, dir, i, n, b)
    ensures (n == z.node && b >= 0) || Within(z.right, n, b - 1 - RightLength(rs))
  {
    var k := RightLength(rs) + 1;
    if n == mid.node {
      assert ZigsLeft(mid, dir) && i / 2 + 2 <= b ==> z.right.node == n;
    }
    if Within(mid.right, n, b - i / 2 - 3) {
      WithinMore(mid.right, n, b - i / 2 - 3, if ZigsLeft(mid, dir) then b - k - 1 else b - k);
    } else if ZigsLeft(mid, dir) && Promised(mid.left, dir, i + 1, n, b) {
      assert !Promised(mid.left.left, dir, i + 2, n, b);
      if Within(mid.left.right, n, b - (i + 1) / 2 - 3) {
        WithinMore(mid.left.right, n, b - (i + 1) / 2 - 3, b - k - 1);
      }
    }
  }

  lemma StopRight<N>(ls: LeftSide<N>, mid: Tree<N>, z: Tree<N>, rs: RightSide<N>, dir: N -> int, w0: Tree<N>, i: nat)
    requires Going(ls, mid, rs, dir, w0, i) && dir(mid.node) > 0 && IsZigRight(mid, z, dir) && z.right == Leaf
    ensures Kept(w0, Assembled(ls, z, rs), dir)
  {
    forall n, b: int | n in Nodes(w0) && Promised(w0, dir, 0, n, b)
      ensures Within(Assembled(ls, z, rs), n, b)
    {
      if Promised(mid, dir, i, n, b) { RightStopped(ls, mid, z, rs, dir, i, n, b); }
      AssembledWithin(ls, z, rs, n, b);
    }
  }

  lemma RightStopped<N>(ls: LeftSide<N>, mid: Tree<N>, z: Tree<N>, rs: RightSide<N>, dir: N -> int, i: nat, n: N, b: int)
    requires mid.T? && Short(ls, mid, rs, dir, i) && dir(mid.node) > 0 && IsZigRight(mid, z, dir) && z.right == Leaf
    requires Promised(mid, dir, i, n, b)
    ensures (n == z.node && b >= 0) || Within(z.left, n, b - 1 - LeftLength(ls))
  {
    var k := LeftLength(ls) + 1;
    if n == mid.node {
      assert ZigsRight(mid, dir) && i / 2 + 2 <= b ==> z.left.node == n;
    }
    if Within(mid.left, n, b - i / 2 - 3) {
      WithinMore(mid.left, n, b - i / 2 - 3, if ZigsRight(mid, dir) then b - k - 1 else b - k);
    } else if ZigsRight(mid, dir) && Promised(mid.right, dir, i + 1, n, b) {
      assert !Promised(mid.right.right, dir, i + 2, n, b);
      if Within(mid.right.left, n, b - (i + 1) / 2 - 3) {
        WithinMore(mid.right.left, n, b - (i + 1) / 2 - 3, b - k - 1);
      }
    }
  }

  /** The search has found what it looks for. */
  lemma StopHere<N>(ls: LeftSide<N>, mid: Tree<N>, rs: RightSide<N>, dir: N -> int, w0: Tree<N>, i: nat)
    requires Going(ls, mid, rs, dir, w0, i) && dir(mid.node) == 0
    ensures Kept(w0, Assembled(ls, mid, rs), dir)
  {
    forall n, b: int | n in Nodes(w0) && Promised(w0, dir, 0, n, b)
      ensures Within(Assembled(ls, mid, rs), n, b)
    {
      if Within(mid.left, n, b - i / 2 - 3) {
        WithinMore(mid.left, n, b - i / 2 - 3, b - 1 - LeftLength(ls));
      } else if Within(mid.right, n, b - i / 2 - 3) {
        WithinMore(mid.right, n, b - i / 2 - 3, b - 1 - RightLength(rs));
      }
      AssembledWithin(ls, mid, rs, n, b);
    }
  }
}
