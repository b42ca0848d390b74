/**
 In-order neighbours, and traversals that follow them. `end` is what follows the last
 element and precedes the first one: a null pointer.
 */
module Traversal {
  import opened Sequences

  /** `s` is `s0` with `n` put in somewhere. */
  ghost predicate IsInserted<N>(s0: seq<N>, s: seq<N>, n: N) {
    exists i :: 0 <= i <= |s0| && s == s0[..i] + [n] + s0[i..]
  }

  lemma InsertedBetween<N>(a: seq<N>, n: N, b: seq<N>)
    ensures IsInserted(a + b, a + [n] + b, n)
  {
    assert (a + b)[..|a|] == a && (a + b)[|a|..] == b;
  }

  /** `s` is `s0` without element number `i`. */
  ghost predicate IsRemoved<N>(s0: seq<N>, s: seq<N>, i: int) {
    0 <= i < |s0| && s == s0[..i] + s0[i + 1..]
  }

  lemma RemovedBetween<N>(a: seq<N>, n: N, b: seq<N>)
    ensures IsRemoved(a + [n] + b, a + b, |a|) && (a + [n] + b)[|a|] == n
  {
    assert (a + [n] + b)[..|a|] == a && (a + [n] + b)[|a| + 1..] == b;
  }

  /** The element with a given number, if there is one. */
  ghost function ItemAt<N>(s: seq<N>, i: int, end: N): N {
    if 0 <= i < |s| then s[i] else end
  }

  ghost predicate IsNext<N>(s: seq<N>, elm: N, r: N, end: N) {
    forall i :: 0 <= i < |s| && s[i] == elm ==> r == ItemAt(s, i + 1, end)
  }

  ghost predicate IsPrev<N>(s: seq<N>, elm: N, r: N, end: N) {
    forall i :: 0 <= i < |s| && s[i] == elm ==> r == ItemAt(s, i - 1, end)
  }

  lemma IndexOf<N>(s: seq<N>, a: seq<N>, n: N, b: seq<N>)
    requires s == a + [n] + b && NoDuplicates(s)
    ensures forall i :: 0 <= i < |s| && s[i] == n ==> i == |a|
    ensures s[|a|] == n && s[..|a|] == a && s[|a| + 1..] == b
  {
    assert s[|a|] == n;
  }

  lemma Neighbours<N>(s: seq<N>, a: seq<N>, elm: N, b: seq<N>, end: N)
    requires NoDuplicates(s) && s == a + [elm] + b
    ensures IsNext(s, elm, if b == [] then end else b[0], end)
    ensures IsPrev(s, elm, if a == [] then end else a[|a| - 1], end)
  {
    IndexOf(s, a, elm, b);
  }

  /** Going to the next element and going to the previous one undo each other. */
  lemma Inverse<N>(s: seq<N>, elm: N, r: N, end: N)
    requires NoDuplicates(s) && elm in s && r in s && end !in s
    ensures IsNext(s, elm, r, end) <==> IsPrev(s, r, elm, end)
  {
    var i :| 0 <= i < |s| && s[i] == elm;
    var j :| 0 <= j < |s| && s[j] == r;
    assert forall k :: 0 <= k < |s| && s[k] == elm ==> k == i;
    assert forall k :: 0 <= k < |s| && s[k] == r ==> k == j;
    if IsNext(s, elm, r, end) {
      assert r == ItemAt(s, i + 1, end);
    }
    if IsPrev(s, r, elm, end) {
      assert elm == ItemAt(s, j - 1, end);
    }
  }

  /** A traversal has visited a prefix of the sequence and stands at what follows. */
  ghost predicate VisitedTo<N>(s: seq<N>, visited: seq<N>, x: N, end: N) {
    visited <= s && x == if |visited| < |s| then s[|visited|] else end
  }

  lemma VisitNext<N>(s: seq<N>, visited: seq<N>, x: N, next: N, end: N)
    requires VisitedTo(s, visited, x, end) && IsNext(s, x, next, end) && x != end
    ensures VisitedTo(s, visited + [x], next, end)
  {
  }

  ghost predicate VisitedBackTo<N>(s: seq<N>, visited: seq<N>, x: N, end: N) {
    && |visited| <= |s| && (forall i :: 0 <= i < |visited| ==> visited[i] == s[|s| - 1 - i])
    && x == if |visited| < |s| then s[|s| - 1 - |visited|] else end
  }

  lemma VisitPrev<N>(s: seq<N>, visited: seq<N>, x: N, prev: N, end: N)
    requires VisitedBackTo(s, visited, x, end) && IsPrev(s, x, prev, end) && x != end
    ensures VisitedBackTo(s, visited + [x], prev, end)
  {
    assert s[|s| - 1 - |visited|] == x;
  }
}
