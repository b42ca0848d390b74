/**
 The TAILQ macros of kvstore/NtyCo/core/nty_queue.h, working in place. The scheduler of
 NtyCo keeps its ready and deferred coroutines in such queues.
 */
module TailQueue {
  import opened TailQueueShape
  import opened Sequences
  import opened Traversal

  ghost function NodesOf(s: seq<Node>): set<Node> {
    set n | n in s
  }

  /** The links of the elements of `s` and of the head make `q` the queue `s`. */
  ghost predicate Stored(q: Queue, s: seq<Node>)
    reads q, NodesOf(s)
  {
    Holds(Snap({q}, NodesOf(s)), q, s)
  }

  /** Only the fields of the head and of the elements matter. */
  lemma HoldsFrame(m: Memory, m': Memory, q: Queue, s: seq<Node>)
    requires Holds(m, q, s) && q in m'.heads && m'.heads[q] == m.heads[q]
    requires forall n :: n in s ==> n in m.elems && n in m'.elems && m'.elems[n] == m.elems[n]
    ensures Holds(m', q, s)
  {
    forall i | 0 <= i < |s| ensures ElemOk(m', q, s, i) {
      assert s[i] in s && ElemOk(m, q, s, i);
    }
  }

  lemma StoredIn(q: Queue, s: seq<Node>, Q: set<Queue>, S: set<Node>)
    requires q in Q && NodesOf(s) <= S
    ensures Stored(q, s) <==> Holds(Snap(Q, S), q, s)
  {
    if Stored(q, s) {
      HoldsFrame(Snap({q}, NodesOf(s)), Snap(Q, S), q, s);
    }
    if Holds(Snap(Q, S), q, s) {
      HoldsFrame(Snap(Q, S), Snap({q}, NodesOf(s)), q, s);
    }
  }

  /** The assignment `*a = v`. */
  method StoreAt(a: Slot, v: Node?, ghost Q: set<Queue>, ghost S: set<Node>)
    requires Known(Snap(Q, S), a)
    modifies Q`first, S`next
    ensures Snap(Q, S) == Store(old(Snap(Q, S)), a, v)
  {
    match a
    case HeadSlot(q) => q.first := v;
    case NextSlot(n) => n.next := v;
  }

  /** Both fields of an element are assigned. */
  method Fill(elm: Node, next: Node?, prev: Slot, ghost Q: set<Queue>, ghost S: set<Node>)
    requires elm in S
    modifies elm
    ensures elm.next == next && elm.prev == prev
    ensures var m := old(Snap(Q, S)); Snap(Q, S) == m.(elems := m.elems[elm := Elem(next, prev)])
  {
    elm.next := next;
    elm.prev := prev;
  }

  method PutPrev(n: Node, a: Slot, ghost Q: set<Queue>, ghost S: set<Node>)
    requires n in S
    modifies n`prev
    ensures Snap(Q, S) == SetPrev(old(Snap(Q, S)), n, a)
  {
    n.prev := a;
  }

  method PutLast(q: Queue, a: Slot, ghost S: set<Node>)
    modifies q`last
    ensures Snap({q}, S) == SetLast(old(Snap({q}, S)), q, a)
  {
    q.last := a;
  }

  ghost function Owner(a: Slot): set<object> {
    match a case Nowhere => {} case HeadSlot(q) => {q} case NextSlot(n) => {n}
  }

  /** The expression `*a`. */
  function LoadAt(a: Slot): Node?
    requires !a.Nowhere?
    reads Owner(a)
  {
    match a case HeadSlot(q) => q.first case NextSlot(n) => n.next
  }

  /** The expression `((struct headname *)a)->tqh_last`. */
  function LastAt(a: Slot): Slot
    requires !a.Nowhere?
    reads Owner(a)
  {
    match a case HeadSlot(q) => q.last case NextSlot(n) => n.prev
  }

  /** What the fields around element number `i` say. */
  lemma Look(q: Queue, s: seq<Node>, i: nat)
    requires Stored(q, s) && i <= |s|
    ensures i < |s| ==> s[i].next == Nth(s, i + 1) && s[i].prev == SlotOf(q, s, i)
    ensures q.first == Nth(s, 0) && q.last == SlotOf(q, s, |s|)
    ensures LoadAt(SlotOf(q, s, i)) == Nth(s, i)
    ensures LastAt(SlotOf(q, s, i)) == if i == 0 then SlotOf(q, s, |s|) else SlotOf(q, s, i - 1)
  {
    var m := Snap({q}, NodesOf(s));
    LoadSlot(m, q, s, i);
    if i < |s| { assert ElemOk(m, q, s, i); }
    if i > 0 { assert ElemOk(m, q, s, i - 1); }
  }

  method Init(q: Queue)
    modifies q
    ensures Stored(q, [])
  {
    q.first := null;
    q.last := HeadSlot(q);
  }

  lemma InsNodes(s: seq<Node>, i: nat, elm: Node)
    requires i <= |s|
    ensures NodesOf(Ins(s, i, elm)) == NodesOf(s) + {elm}
  {
    assert s == s[..i] + s[i..];
  }

  /** The fields say that `elm` was linked in: then the queue is stored with it. */
  lemma InsertedStored(m: Memory, q: Queue, s: seq<Node>, i: nat, elm: Node)
    requires Holds(m, q, s) && i <= |s| && elm in m.elems && elm !in s
    requires Snap({q}, NodesOf(s) + {elm}) == Inserted(m, q, s, i, elm)
    ensures Stored(q, Ins(s, i, elm))
  {
    InsertCorrect(m, q, s, i, elm);
    InsNodes(s, i, elm);
    StoredIn(q, Ins(s, i, elm), {q}, NodesOf(s) + {elm});
  }

  // The pointer assignments of each macro, and then the macro on a queue.

  method InsertHeadLinks(q: Queue, elm: Node, ghost S: set<Node>)
    requires elm in S && (q.first != null ==> q.first in S && q.first != elm)
    modifies q, S
    ensures Snap({q}, S) == LinkIn(old(Snap({q}, S)), q, HeadSlot(q), old(q.first), elm)
  {
    elm.next := q.first;
    if elm.next != null {
      q.first.prev := NextSlot(elm);
    } else {
      q.last := NextSlot(elm);
    }
    q.first := elm;
    elm.prev := HeadSlot(q);
  }

  method InsertHead(q: Queue, elm: Node, ghost s: seq<Node>)
    requires Stored(q, s) && elm !in s
    modifies q, NodesOf(s), elm
    ensures Stored(q, [elm] + s)
  {
    ghost var S := NodesOf(s) + {elm};
    StoredIn(q, s, {q}, S);
    ghost var m := Snap({q}, S);
    InsertHeadLinks(q, elm, S);
    InsertedStored(m, q, s, 0, elm);
    assert Ins(s, 0, elm) == [elm] + s;
  }

  method InsertTailLinks(q: Queue, elm: Node, ghost S: set<Node>)
    requires elm in S && Known(Snap({q}, S), q.last) && q.last != NextSlot(elm)
    modifies q, S
    ensures Snap({q}, S) == LinkIn(old(Snap({q}, S)), q, old(q.last), null, elm)
  {
    ghost var a := q.last;
    Fill(elm, null, q.last, {q}, S);
    ghost var m1 := Snap({q}, S);
    StoreAt(q.last, elm, {q}, S);
    PutLast(q, NextSlot(elm), S);
    StoreThenLast(m1, a, elm, q, NextSlot(elm));
  }

  method InsertTail(q: Queue, elm: Node, ghost s: seq<Node>)
    requires Stored(q, s) && elm !in s
    modifies q, NodesOf(s), elm
    ensures Stored(q, s + [elm])
  {
    ghost var S := NodesOf(s) + {elm};
    StoredIn(q, s, {q}, S);
    ghost var m := Snap({q}, S);
    LoadSlot(m, q, s, |s|);
    InsertTailLinks(q, elm, S);
    InsertedStored(m, q, s, |s|, elm);
    assert Ins(s, |s|, elm) == s + [elm];
  }

  method InsertAfterLinks(q: Queue, listelm: Node, elm: Node, ghost S: set<Node>)
    requires elm in S && listelm in S && elm != listelm
    requires listelm.next != null ==> listelm.next in S && listelm.next != elm && listelm.next != listelm
    modifies q, S
    ensures Snap({q}, S) == LinkIn(old(Snap({q}, S)), q, NextSlot(listelm), old(listelm.next), elm)
  {
    LinkInLate(Snap({q}, S), q, NextSlot(listelm), listelm.next, elm);
    StoreAt(NextSlot(elm), listelm.next, {q}, S);
    if elm.next != null {
      PutPrev(elm.next, NextSlot(elm), {q}, S);
    } else {
      PutLast(q, NextSlot(elm), S);
    }
    StoreAt(NextSlot(listelm), elm, {q}, S);
    PutPrev(elm, NextSlot(listelm), {q}, S);
  }

  /** The element behind number `i` is another one, and known. */
  lemma Beside(m: Memory, q: Queue, s: seq<Node>, i: nat)
    requires Holds(m, q, s) && i < |s|
    ensures s[i] in m.elems && m.elems[s[i]] == Elem(Nth(s, i + 1), SlotOf(q, s, i))
    ensures i + 1 < |s| ==> s[i + 1] in m.elems && s[i + 1] != s[i] && s[i + 1] in s
  {
    assert ElemOk(m, q, s, i);
    if i + 1 < |s| { assert ElemOk(m, q, s, i + 1); }
  }

  method InsertAfter(q: Queue, listelm: Node, elm: Node, ghost s: seq<Node>, ghost i: nat)
    requires Stored(q, s) && elm !in s && i < |s| && s[i] == listelm
    modifies q, NodesOf(s), elm
    ensures Stored(q, s[..i + 1] + [elm] + s[i + 1..])
  {
    ghost var S := NodesOf(s) + {elm};
    StoredIn(q, s, {q}, S);
    ghost var m := Snap({q}, S);
    Beside(m, q, s, i);
    InsertAfterLinks(q, listelm, elm, S);
    InsertedStored(m, q, s, i + 1, elm);
  }

  method InsertBeforeLinks(ghost q: Queue, listelm: Node, elm: Node, ghost S: set<Node>)
    requires elm in S && listelm in S && elm != listelm
    requires Known(Snap({q}, S), listelm.prev) && listelm.prev != NextSlot(elm) && listelm.prev != NextSlot(listelm)
    modifies q, S
    ensures Snap({q}, S) == LinkIn(old(Snap({q}, S)), q, old(listelm.prev), listelm, elm)
  {
    ghost var a := listelm.prev;
    Fill(elm, listelm, listelm.prev, {q}, S);
    ghost var m1 := Snap({q}, S);
    StoreAt(listelm.prev, elm, {q}, S);
    PutPrev(listelm, NextSlot(elm), {q}, S);
    StoreThenPrev(m1, a, elm, listelm, NextSlot(elm));
  }

  method InsertBefore(ghost q: Queue, listelm: Node, elm: Node, ghost s: seq<Node>, ghost i: nat)
    requires Stored(q, s) && elm !in s && i < |s| && s[i] == listelm
    modifies q, NodesOf(s), elm
    ensures Stored(q, s[..i] + [elm] + s[i..])
  {
    ghost var S := NodesOf(s) + {elm};
    StoredIn(q, s, {q}, S);
    ghost var m := Snap({q}, S);
    LoadSlot(m, q, s, i);
    assert ElemOk(m, q, s, i);
    InsertBeforeLinks(q, listelm, elm, S);
    InsertedStored(m, q, s, i, elm);
  }

  method RemoveLinks(q: Queue, elm: Node, ghost S: set<Node>)
    requires elm in S && Known(Snap({q}, S), elm.prev) && elm.prev != NextSlot(elm)
    requires elm.next != null ==> elm.next in S && elm.next != elm && elm.prev != NextSlot(elm.next)
    modifies q, S
    ensures Snap({q}, S) == LinkOut(old(Snap({q}, S)), q, old(elm.prev), old(elm.next))
  {
    if elm.next != null {
      elm.next.prev := elm.prev;
    } else {
      q.last := elm.prev;
    }
    StoreAt(elm.prev, elm.next, {q}, S);
  }

  method Remove(q: Queue, elm: Node, ghost s: seq<Node>, ghost i: nat)
    requires Stored(q, s) && i < |s| && s[i] == elm
    modifies q, NodesOf(s)
    ensures Stored(q, s[..i] + s[i + 1..])
  {
    ghost var S := NodesOf(s);
    ghost var m := Snap({q}, S);
    LoadSlot(m, q, s, i);
    assert ElemOk(m, q, s, i);
    RemoveLinks(q, elm, S);
    RemoveCorrect(m, q, s, i);
    StoredIn(q, Cut(s, i), {q}, S);
  }

  method ConcatLinks(q: Queue, r: Queue, ghost S: set<Node>)
    requires q != r && r.first != null && r.first in S && Known(Snap({q, r}, S), q.last)
    requires q.last != HeadSlot(r) && q.last != NextSlot(r.first)
    modifies q, r, S
    ensures Snap({q, r}, S) == JoinLinks(old(Snap({q, r}, S)), q, old(q.last), r, old(r.first), old(r.last))
  {
    HangOnLinks(q.last, r.first, {q, r}, S);
    HandOverLinks(q, r, S);
  }

  method HandOverLinks(q: Queue, r: Queue, ghost S: set<Node>)
    requires q != r
    modifies q`last, r
    ensures Snap({q, r}, S) == HandOver(old(Snap({q, r}, S)), q, r, old(r.last))
  {
    q.last := r.last;
    r.first := null;
    r.last := HeadSlot(r);
  }

  method HangOnLinks(end: Slot, first: Node, ghost Q: set<Queue>, ghost S: set<Node>)
    requires first in S && Known(Snap(Q, S), end) && end != NextSlot(first)
    modifies Q`first, S
    ensures Snap(Q, S) == HangOn(old(Snap(Q, S)), end, first)
  {
    match end {
      case HeadSlot(h) => h.first := first;
      case NextSlot(n) => n.next := first;
    }
    first.prev := end;
  }

  /** TAILQ_CONCAT: the second queue is emptied into the first. */
  method Concat(q: Queue, r: Queue, ghost a: seq<Node>, ghost b: seq<Node>)
    requires Stored(q, a) && Stored(r, b) && q != r && Apart(a, b)
    modifies q, r, NodesOf(a), NodesOf(b)
    ensures Stored(q, a + b) && Stored(r, [])
  {
    ghost var S := NodesOf(a) + NodesOf(b);
    StoredIn(q, a, {q, r}, S);
    StoredIn(r, b, {q, r}, S);
    if r.first != null {
      ghost var m := Snap({q, r}, S);
      LoadSlot(m, q, a, |a|);
      assert a != [] ==> a[|a| - 1] in a;
      assert b[0] in b;
      ConcatLinks(q, r, S);
      ConcatCorrect(m, q, a, r, b);
      StoredIn(q, a + b, {q, r}, S);
      StoredIn(r, [], {q, r}, S);
    } else {
      assert a + b == a;
    }
  }

  /** The two queues after the exchange of their heads. */
  ghost predicate Exchanged(m: Memory, m': Memory, q: Queue, r: Queue) {
    q in m.heads && r in m.heads && q in m'.heads && r in m'.heads &&
    var x, y := m.heads[q], m.heads[r];
    && m'.heads[q] == Head(y.first, if y.first == null then HeadSlot(q) else y.last)
    && m'.heads[r] == Head(x.first, if x.first == null then HeadSlot(r) else x.last)
    && m'.elems.Keys == m.elems.Keys
    && forall n :: n in m.elems ==> m'.elems[n] == Rehomed(m.elems[n], n, q, x.first, r, y.first)
  }

  ghost function Rehomed(e: Elem, n: Node, q: Queue, x: Node?, r: Queue, y: Node?): Elem {
    if n == y then e.(prev := HeadSlot(q)) else if n == x then e.(prev := HeadSlot(r)) else e
  }

  method SwapLinks(q: Queue, r: Queue, ghost S: set<Node>)
    requires (q.first != null ==> q.first in S) && (r.first != null ==> r.first in S)
    requires q != r && q.first != null ==> q.first != r.first
    requires q == r ==> if q.first != null then q.first.prev == HeadSlot(q) else q.last == HeadSlot(q)
    modifies q, r, S
    ensures q != r ==> Exchanged(old(Snap({q, r}, S)), Snap({q, r}, S), q, r)
    ensures q == r ==> Snap({q, r}, S) == old(Snap({q, r}, S))
  {
    ghost var m := Snap({q, r}, S);
    SwapHeads(q, r, S);
    Reattach(q, {q, r}, S);
    Reattach(r, {q, r}, S);
    SwappedHeads(m, q, r);
  }

  /** The first four assignments of TAILQ_SWAP. */
  method SwapHeads(q: Queue, r: Queue, ghost S: set<Node>)
    modifies q, r
    ensures q.first == old(r.first) && r.first == old(q.first)
    ensures var m := old(Snap({q, r}, S)); Snap({q, r}, S) == m.(heads := m.heads[q := m.heads[r]][r := m.heads[q]])
  {
    var swapFirst, swapLast := q.first, q.last;
    q.first := r.first;
    q.last := r.last;
    r.first := swapFirst;
    r.last := swapLast;
  }

  /** The first element, or the head of an empty queue, gets the address of the head's first field. */
  ghost function Reattached(m: Memory, q: Queue): Memory
    requires q in m.heads && (m.heads[q].first != null ==> m.heads[q].first in m.elems)
  {
    if m.heads[q].first != null then SetPrev(m, m.heads[q].first, HeadSlot(q)) else SetLast(m, q, HeadSlot(q))
  }

  method Reattach(q: Queue, ghost Q: set<Queue>, ghost S: set<Node>)
    requires q in Q && (q.first != null ==> q.first in S)
    modifies q`last, S`prev
    ensures Snap(Q, S) == Reattached(old(Snap(Q, S)), q)
  {
    var swapFirst := q.first;
    if swapFirst != null {
      swapFirst.prev := HeadSlot(q);
    } else {
      q.last := HeadSlot(q);
    }
  }

  lemma SwappedHeads(m: Memory, q: Queue, r: Queue)
    requires q in m.heads && r in m.heads
    requires (m.heads[q].first != null ==> m.heads[q].first in m.elems) && (m.heads[r].first != null ==> m.heads[r].first in m.elems)
    requires q != r && m.heads[q].first != null ==> m.heads[q].first != m.heads[r].first
    requires q == r ==> if m.heads[q].first != null then m.elems[m.heads[q].first].prev == HeadSlot(q) else m.heads[q].last == HeadSlot(q)
    ensures var m1 := m.(heads := m.heads[q := m.heads[r]][r := m.heads[q]]);
      if q == r then Reattached(Reattached(m1, q), r) == m else Exchanged(m, Reattached(Reattached(m1, q), r), q, r)
  {
  }

  lemma ExchangedTakesOver(m: Memory, m': Memory, q: Queue, r: Queue, a: seq<Node>, b: seq<Node>)
    requires Holds(m, q, a) && Holds(m, r, b) && Apart(a, b) && Exchanged(m, m', q, r)
    ensures TookOver(m, m', q, r, b) && TookOver(m, m', r, q, a)
  {
    forall i | 0 <= i < |a|
      ensures a[i] in m.elems && m'.elems[a[i]] == if i == 0 then m.elems[a[i]].(prev := HeadSlot(r)) else m.elems[a[i]]
    {
      assert a[i] in a && ElemOk(m, q, a, i);
      assert b != [] ==> b[0] in b;
    }
    forall i | 0 <= i < |b|
      ensures b[i] in m.elems && m'.elems[b[i]] == if i == 0 then m.elems[b[i]].(prev := HeadSlot(q)) else m.elems[b[i]]
    {
      assert b[i] in b && ElemOk(m, r, b, i);
    }
  }

  /** TAILQ_SWAP: the two queues exchange their elements, whichever is empty, and also if they are one. */
  method Swap(q: Queue, r: Queue, ghost a: seq<Node>, ghost b: seq<Node>)
    requires Stored(q, a) && Stored(r, b) && if q == r then a == b else Apart(a, b)
    modifies q, r, NodesOf(a), NodesOf(b)
    ensures Stored(q, b) && Stored(r, a)
  {
    ghost var S := NodesOf(a) + NodesOf(b);
    StoredIn(q, a, {q, r}, S);
    StoredIn(r, b, {q, r}, S);
    ghost var m := Snap({q, r}, S);
    assert a != [] ==> a[0] in a;
    assert b != [] ==> b[0] in b;
    Look(q, a, 0);
    SwapLinks(q, r, S);
    if q != r {
      ExchangedTakesOver(m, Snap({q, r}, S), q, r, a, b);
      SwapCorrect(m, Snap({q, r}, S), q, r, b);
      SwapCorrect(m, Snap({q, r}, S), r, q, a);
    }
    StoredIn(q, b, {q, r}, S);
    StoredIn(r, a, {q, r}, S);
  }

  /** TAILQ_LAST, through the head-shaped view of the last element. */
  method Last(q: Queue, ghost s: seq<Node>) returns (n: Node?)
    requires Stored(q, s)
    ensures n == Nth(s, |s| - 1)
  {
    Look(q, s, |s|);
    Look(q, s, if |s| > 0 then |s| - 1 else 0);
    n := LoadAt(LastAt(q.last));
  }

  /** TAILQ_PREV, through the head-shaped view of the element before. */
  method Prev(ghost q: Queue, elm: Node, ghost s: seq<Node>, ghost i: nat) returns (n: Node?)
    requires Stored(q, s) && i < |s| && s[i] == elm
    ensures n == Nth(s, i - 1)
  {
    Look(q, s, i);
    Look(q, s, if i > 0 then i - 1 else |s|);
    n := LoadAt(LastAt(elm.prev));
  }

  /** The way back through the prev fields, from the head and from all elements. */
  ghost predicate Chained(q: Queue, s: seq<Node>)
    reads q, NodesOf(s)
  {
    && !q.last.Nowhere? && Owner(q.last) <= {q} + NodesOf(s)
    && !LastAt(q.last).Nowhere? && Owner(LastAt(q.last)) <= {q} + NodesOf(s) && LoadAt(LastAt(q.last)) == Nth(s, |s| - 1)
    && forall i :: 0 <= i < |s| ==> LeadsBack(q, s, i)
  }

  /** Element number `i` leads back to the one before, or to nothing. */
  ghost predicate LeadsBack(q: Queue, s: seq<Node>, i: nat)
    reads q, NodesOf(s)
    requires i < |s|
  {
    var n := s[i];
    && !n.prev.Nowhere? && Owner(n.prev) <= {q} + NodesOf(s)
    && !LastAt(n.prev).Nowhere? && Owner(LastAt(n.prev)) <= {q} + NodesOf(s)
    && LoadAt(LastAt(n.prev)) == Nth(s, i - 1)
  }

  lemma StoredChained(q: Queue, s: seq<Node>)
    requires Stored(q, s)
    ensures Chained(q, s) && NextChained(q, s)
  {
    Look(q, s, |s|);
    Look(q, s, if |s| > 0 then |s| - 1 else 0);
    forall i | 0 <= i < |s|
      ensures s[i].next == Nth(s, i + 1) && LeadsBack(q, s, i)
    {
      Look(q, s, i);
      Look(q, s, if i > 0 then i - 1 else |s|);
    }
  }

  /** The next fields of all elements. */
  ghost predicate NextChained(q: Queue, s: seq<Node>)
    reads q, NodesOf(s)
  {
    q.first == Nth(s, 0) && forall i :: 0 <= i < |s| ==> s[i].next == Nth(s, i + 1)
  }

  method Walk(q: Queue, ghost s: seq<Node>) returns (visited: seq<Node>)
    requires NextChained(q, s)
    ensures visited == s
  {
    visited := [];
    var x := q.first;
    while x != null
      invariant VisitedTo<Node?>(s, visited, x, null)
      decreases |s| - |visited|
    {
      ghost var n := |visited|;
      assert x == s[n] && x.next == Nth(s, n + 1);
      visited := visited + [x];
      x := x.next;
      assert visited == s[..n + 1];
    }
  }

  method WalkBack(q: Queue, ghost s: seq<Node>) returns (visited: seq<Node>)
    requires Chained(q, s)
    ensures |visited| == |s| && forall i :: 0 <= i < |s| ==> visited[i] == s[|s| - 1 - i]
  {
    visited := [];
    var x := LoadAt(LastAt(q.last));
    while x != null
      invariant VisitedBackTo<Node?>(s, visited, x, null)
      decreases |s| - |visited|
    {
      ghost var i, v, y := |s| - 1 - |visited|, visited, x;
      assert x == s[i] && LeadsBack(q, s, i);
      visited := visited + [x];
      x := LoadAt(LastAt(x.prev));
      StepBack(s, v, y, x);
    }
  }

  lemma StepBack(s: seq<Node>, visited: seq<Node>, x: Node, prev: Node?)
    requires VisitedBackTo<Node?>(s, visited, x, null) && prev == Nth(s, |s| - 2 - |visited|)
    ensures VisitedBackTo<Node?>(s, visited + [x], prev, null)
  {
  }

  /** TAILQ_FOREACH visits the elements in order. */
  method Foreach(q: Queue, ghost s: seq<Node>) returns (visited: seq<Node>)
    requires Stored(q, s)
    ensures visited == s
  {
    StoredChained(q, s);
    visited := Walk(q, s);
  }

  /** TAILQ_FOREACH_REVERSE visits the elements in reverse order. */
  method ForeachReverse(q: Queue, ghost s: seq<Node>) returns (visited: seq<Node>)
    requires Stored(q, s)
    ensures |visited| == |s| && forall i :: 0 <= i < |s| ==> visited[i] == s[|s| - 1 - i]
  {
    StoredChained(q, s);
    visited := WalkBack(q, s);
  }
}
