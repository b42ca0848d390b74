/**
 The memory of the tail queues of kvstore/NtyCo/core/nty_queue.h. Every element records the
 address of the pointer that points to it, and the queue head records the address of the
 last next pointer. Such an address is a `Slot`: the first field of a head, or the next
 field of an element.
 */
module TailQueueShape {
  import opened Sequences

  class Node {
    var next: Node?
    var prev: Slot

    constructor ()
    {
      next, prev := null, Nowhere;
    }
  }

  class Queue {
    var first: Node?
    var last: Slot

    /** TAILQ_HEAD_INITIALIZER. */
    constructor ()
      ensures first == null && last == HeadSlot(this)
    {
      first, last := null, Nowhere;
      new;
      last := HeadSlot(this);
    }
  }

  /** `Nowhere` is an address not yet assigned. */
  datatype Slot = Nowhere | HeadSlot(q: Queue) | NextSlot(n: Node)

  datatype Elem = Elem(next: Node?, prev: Slot)

  datatype Head = Head(first: Node?, last: Slot)

  datatype Memory = Memory(elems: map<Node, Elem>, heads: map<Queue, Head>)

  ghost function Snap(Q: set<Queue>, S: set<Node>): Memory
    reads Q, S
  {
    Memory(map n | n in S :: Elem(n.next, n.prev), map q | q in Q :: Head(q.first, q.last))
  }

  // ---------- Reading and writing through addresses ----------

  ghost predicate Known(m: Memory, a: Slot) {
    match a case Nowhere => false case HeadSlot(q) => q in m.heads case NextSlot(n) => n in m.elems
  }

  ghost function Load(m: Memory, a: Slot): Node?
    requires Known(m, a)
  {
    match a case HeadSlot(q) => m.heads[q].first case NextSlot(n) => m.elems[n].next
  }

  /** The second field of the record at an address: an element seen as a head has its prev there. */
  ghost function LastThrough(m: Memory, a: Slot): Slot
    requires Known(m, a)
  {
    match a case HeadSlot(q) => m.heads[q].last case NextSlot(n) => m.elems[n].prev
  }

  ghost function Store(m: Memory, a: Slot, v: Node?): Memory
    requires Known(m, a)
  {
    match a
    case HeadSlot(q) => m.(heads := m.heads[q := m.heads[q].(first := v)])
    case NextSlot(n) => m.(elems := m.elems[n := m.elems[n].(next := v)])
  }

  ghost function SetPrev(m: Memory, n: Node, a: Slot): Memory
    requires n in m.elems
  {
    m.(elems := m.elems[n := m.elems[n].(prev := a)])
  }

  ghost function SetLast(m: Memory, q: Queue, a: Slot): Memory
    requires q in m.heads
  {
    m.(heads := m.heads[q := m.heads[q].(last := a)])
  }

  // ---------- A queue in memory ----------

  ghost function Nth(s: seq<Node>, i: int): Node? {
    if 0 <= i < |s| then s[i] else null
  }

  /** The address of the pointer to element number `i`. */
  ghost function SlotOf(q: Queue, s: seq<Node>, i: int): Slot {
    if 0 < i <= |s| then NextSlot(s[i - 1]) else HeadSlot(q)
  }

  /** The memory holds the elements of `s`, in this order, as queue `q`. */
  ghost predicate Holds(m: Memory, q: Queue, s: seq<Node>) {
    && NoDuplicates(s)
    && q in m.heads && m.heads[q] == Head(Nth(s, 0), SlotOf(q, s, |s|))
    && forall i :: 0 <= i < |s| ==> ElemOk(m, q, s, i)
  }

  /** The fields of element number `i`. */
  ghost predicate ElemOk(m: Memory, q: Queue, s: seq<Node>, i: int)
    requires 0 <= i < |s|
  {
    s[i] in m.elems && m.elems[s[i]] == Elem(Nth(s, i + 1), SlotOf(q, s, i))
  }

  /** The slot of element `i` points to it; the last slot points nowhere. */
  lemma LoadSlot(m: Memory, q: Queue, s: seq<Node>, i: int)
    requires Holds(m, q, s) && 0 <= i <= |s|
    ensures Known(m, SlotOf(q, s, i)) && Load(m, SlotOf(q, s, i)) == Nth(s, i)
    ensures LastThrough(m, SlotOf(q, s, i)) == if i == 0 then SlotOf(q, s, |s|) else SlotOf(q, s, i - 1)
    ensures i < |s| ==> s[i] in m.elems
  {
    if i > 0 { assert ElemOk(m, q, s, i - 1); }
    if i < |s| { assert ElemOk(m, q, s, i); }
  }

  /** What QMD_TAILQ_CHECK_HEAD, _TAIL, _NEXT and _PREV test: none of them panics. */
  ghost predicate ChecksPass(m: Memory, q: Queue, s: seq<Node>) {
    && q in m.heads
    && (m.heads[q].first != null ==> m.heads[q].first in m.elems && m.elems[m.heads[q].first].prev == HeadSlot(q))
    && Known(m, m.heads[q].last) && Load(m, m.heads[q].last) == null
    && forall n :: n in s ==>
         && n in m.elems
         && (m.elems[n].next != null ==> m.elems[n].next in m.elems && m.elems[m.elems[n].next].prev == NextSlot(n))
         && Known(m, m.elems[n].prev) && Load(m, m.elems[n].prev) == n
  }

  lemma HoldsPassesChecks(m: Memory, q: Queue, s: seq<Node>)
    requires Holds(m, q, s)
    ensures ChecksPass(m, q, s)
  {
    LoadSlot(m, q, s, |s|);
    if s != [] { assert ElemOk(m, q, s, 0); }
    forall n | n in s
      ensures n in m.elems && Known(m, m.elems[n].prev) && Load(m, m.elems[n].prev) == n
      ensures m.elems[n].next != null ==> m.elems[n].next in m.elems && m.elems[m.elems[n].next].prev == NextSlot(n)
    {
      var i :| 0 <= i < |s| && s[i] == n;
      LoadSlot(m, q, s, i);
      assert ElemOk(m, q, s, i);
      if i + 1 < |s| { assert ElemOk(m, q, s, i + 1); }
    }
  }

  // ---------- Insertion and removal ----------

  /** Stores through a pointer and to a link back are independent. */
  lemma StoreThenPrev(m: Memory, a: Slot, v: Node?, n: Node, p: Slot)
    requires Known(m, a) && n in m.elems
    ensures SetPrev(Store(m, a, v), n, p) == Store(SetPrev(m, n, p), a, v)
  {
  }

  lemma StoreThenLast(m: Memory, a: Slot, v: Node?, q: Queue, p: Slot)
    requires Known(m, a) && q in m.heads
    ensures SetLast(Store(m, a, v), q, p) == Store(SetLast(m, q, p), a, v)
  {
  }

  /** `elm` linked in between the pointer at address `a` and the element `next` it pointed to. */
  ghost function LinkIn(m: Memory, q: Queue, a: Slot, next: Node?, elm: Node): Memory
    requires q in m.heads && Known(m, a) && (next != null ==> next in m.elems)
  {
    var m1 := m.(elems := m.elems[elm := Elem(next, a)]);
    var m2 := if next != null then SetPrev(m1, next, NextSlot(elm)) else SetLast(m1, q, NextSlot(elm));
    Store(m2, a, elm)
  }

  /** It does not matter that the prev field of `elm` is assigned last. */
  lemma LinkInLate(m: Memory, q: Queue, a: Slot, next: Node?, elm: Node)
    requires q in m.heads && Known(m, a) && elm in m.elems && a != NextSlot(elm)
    requires next != null ==> next in m.elems && next != elm
    ensures var m1 := Store(m, NextSlot(elm), next);
      var m2 := if next != null then SetPrev(m1, next, NextSlot(elm)) else SetLast(m1, q, NextSlot(elm));
      Known(m2, a) && SetPrev(Store(m2, a, elm), elm, a) == LinkIn(m, q, a, next, elm)
  {
  }

  /** The pointer at address `a` leads to `next` again. */
  ghost function LinkOut(m: Memory, q: Queue, a: Slot, next: Node?): Memory
    requires q in m.heads && Known(m, a) && (next != null ==> next in m.elems)
  {
    var m1 := if next != null then SetPrev(m, next, a) else SetLast(m, q, a);
    Store(m1, a, next)
  }

  /** `elm` linked in as element number `i`. */
  ghost function Inserted(m: Memory, q: Queue, s: seq<Node>, i: nat, elm: Node): Memory
    requires Holds(m, q, s) && i <= |s| && elm in m.elems
  {
    LoadSlot(m, q, s, i);
    LinkIn(m, q, SlotOf(q, s, i), Nth(s, i), elm)
  }

  ghost function Ins(s: seq<Node>, i: nat, elm: Node): seq<Node>
    requires i <= |s|
  {
    s[..i] + [elm] + s[i..]
  }

  lemma InsAt(q: Queue, s: seq<Node>, i: nat, elm: Node, j: int)
    requires i <= |s|
    ensures Nth(Ins(s, i, elm), j) == if j < i then Nth(s, j) else if j == i then elm else Nth(s, j - 1)
    ensures 0 <= j <= i ==> SlotOf(q, Ins(s, i, elm), j) == SlotOf(q, s, j)
    ensures j == i + 1 ==> SlotOf(q, Ins(s, i, elm), j) == NextSlot(elm)
    ensures i + 1 < j <= |s| + 1 ==> SlotOf(q, Ins(s, i, elm), j) == SlotOf(q, s, j - 1)
  {
  }

  lemma InsNoDuplicates(s: seq<Node>, i: nat, elm: Node)
    requires i <= |s| && NoDuplicates(s) && elm !in s
    ensures NoDuplicates(Ins(s, i, elm))
  {
    var t := Ins(s, i, elm);
    assert forall j :: 0 <= j < |t| ==> t[j] == if j < i then s[j] else if j == i then elm else s[j - 1];
  }

  /** What the insertion makes of the element that was number `k`. */
  lemma InsertedElem(m: Memory, q: Queue, s: seq<Node>, i: nat, elm: Node, k: nat)
    requires Holds(m, q, s) && i <= |s| && elm in m.elems && elm !in s && k < |s|
    ensures var m' := Inserted(m, q, s, i, elm);
      s[k] in m'.elems && m'.elems[s[k]] ==
        Elem(if k + 1 == i then elm else Nth(s, k + 1), if k == i then NextSlot(elm) else SlotOf(q, s, k))
  {
    if i > 0 { assert ElemOk(m, q, s, i - 1); }
    assert ElemOk(m, q, s, k);
  }

  lemma InsertedEnds(m: Memory, q: Queue, s: seq<Node>, i: nat, elm: Node)
    requires Holds(m, q, s) && i <= |s| && elm in m.elems && elm !in s
    ensures var m' := Inserted(m, q, s, i, elm);
      && elm in m'.elems && m'.elems[elm] == Elem(Nth(s, i), SlotOf(q, s, i))
      && q in m'.heads
      && m'.heads[q] == Head(if i == 0 then elm else Nth(s, 0), if i == |s| then NextSlot(elm) else SlotOf(q, s, |s|))
  {
    if i > 0 { assert ElemOk(m, q, s, i - 1); }
    if i < |s| { assert ElemOk(m, q, s, i); }
  }

  lemma InsertCorrect(m: Memory, q: Queue, s: seq<Node>, i: nat, elm: Node)
    requires Holds(m, q, s) && i <= |s| && elm in m.elems && elm !in s
    ensures Holds(Inserted(m, q, s, i, elm), q, Ins(s, i, elm))
  {
    var m', t := Inserted(m, q, s, i, elm), Ins(s, i, elm);
    InsNoDuplicates(s, i, elm);
    InsertedEnds(m, q, s, i, elm);
    InsAt(q, s, i, elm, 0);
    InsAt(q, s, i, elm, |t|);
    forall j | 0 <= j < |t| ensures ElemOk(m', q, t, j) {
      InsertedAt(m, q, s, i, elm, j);
    }
  }

  lemma InsertedAt(m: Memory, q: Queue, s: seq<Node>, i: nat, elm: Node, j: nat)
    requires Holds(m, q, s) && i <= |s| && elm in m.elems && elm !in s && j <= |s|
    ensures var m', t := Inserted(m, q, s, i, elm), Ins(s, i, elm);
      ElemOk(m', q, t, j)
  {
    InsAt(q, s, i, elm, j);
    InsAt(q, s, i, elm, j + 1);
    var t := Ins(s, i, elm);
    assert t[j] == Nth(t, j);
    if j < i {
      assert t[j] == s[j];
      InsertedElem(m, q, s, i, elm, j);
    } else if j == i {
      InsertedEnds(m, q, s, i, elm);
    } else {
      assert t[j] == s[j - 1];
      InsertedElem(m, q, s, i, elm, j - 1);
    }
  }

  /** Element number `i` taken out. */
  ghost function Removed(m: Memory, q: Queue, s: seq<Node>, i: nat): Memory
    requires Holds(m, q, s) && i < |s|
  {
    LoadSlot(m, q, s, i);
    LoadSlot(m, q, s, i + 1);
    LinkOut(m, q, SlotOf(q, s, i), Nth(s, i + 1))
  }

  lemma CutAt(q: Queue, s: seq<Node>, i: nat, j: int)
    requires i < |s|
    ensures Nth(Cut(s, i), j) == if j < i then Nth(s, j) else Nth(s, j + 1)
    ensures 0 <= j < |s| ==> SlotOf(q, Cut(s, i), j) == if j <= i then SlotOf(q, s, j) else SlotOf(q, s, j + 1)
  {
  }

  /** What the removal makes of another element, which was number `k`. */
  lemma RemovedElem(m: Memory, q: Queue, s: seq<Node>, i: nat, k: nat)
    requires Holds(m, q, s) && i < |s| && k < |s| && k != i
    ensures var m' := Removed(m, q, s, i);
      s[k] in m'.elems && m'.elems[s[k]] ==
        Elem(if k + 1 == i then Nth(s, i + 1) else Nth(s, k + 1), if k == i + 1 then SlotOf(q, s, i) else SlotOf(q, s, k))
  {
    if i > 0 { assert ElemOk(m, q, s, i - 1); }
    assert ElemOk(m, q, s, k);
  }

  lemma RemovedEnds(m: Memory, q: Queue, s: seq<Node>, i: nat)
    requires Holds(m, q, s) && i < |s|
    ensures var m' := Removed(m, q, s, i);
      && q in m'.heads
      && m'.heads[q] == Head(if i == 0 then Nth(s, 1) else Nth(s, 0),
                             if i + 1 == |s| then SlotOf(q, s, i) else SlotOf(q, s, |s|))
  {
    if i > 0 { assert ElemOk(m, q, s, i - 1); }
    if i + 1 < |s| { assert ElemOk(m, q, s, i + 1); }
  }

  lemma RemoveCorrect(m: Memory, q: Queue, s: seq<Node>, i: nat)
    requires Holds(m, q, s) && i < |s|
    ensures Holds(Removed(m, q, s, i), q, Cut(s, i))
  {
    var m', t := Removed(m, q, s, i), Cut(s, i);
    CutNoDuplicates(s, i);
    RemovedEnds(m, q, s, i);
    CutAt(q, s, i, 0);
    CutAt(q, s, i, |t|);
    forall j | 0 <= j < |t| ensures ElemOk(m', q, t, j) {
      RemovedAt(m, q, s, i, j);
    }
  }

  lemma RemovedAt(m: Memory, q: Queue, s: seq<Node>, i: nat, j: nat)
    requires Holds(m, q, s) && i < |s| && j < |Cut(s, i)|
    ensures var m', t := Removed(m, q, s, i), Cut(s, i);
      ElemOk(m', q, t, j)
  {
    CutAt(q, s, i, j);
    CutAt(q, s, i, j + 1);
    assert Cut(s, i)[j] == Nth(Cut(s, i), j);
    RemovedElem(m, q, s, i, if j < i then j else j + 1);
  }

  // ---------- Two queues ----------

  ghost predicate Apart(a: seq<Node>, b: seq<Node>) {
    forall n :: n in a ==> n !in b
  }

  lemma ConcatAt(q: Queue, a: seq<Node>, b: seq<Node>, r: Queue, j: int)
    ensures Nth(a + b, j) == if j < |a| then Nth(a, j) else Nth(b, j - |a|)
    ensures 0 <= j <= |a| ==> SlotOf(q, a + b, j) == SlotOf(q, a, j)
    ensures |a| < j <= |a| + |b| ==> SlotOf(q, a + b, j) == SlotOf(r, b, j - |a|)
  {
  }

  /** The elements from `first` to the slot `last`, which were queue `r`, are hung on the slot `end` of `q`. */
  ghost function JoinLinks(m: Memory, q: Queue, end: Slot, r: Queue, first: Node, last: Slot): Memory
    requires q in m.heads && r in m.heads && Known(m, end) && first in m.elems
  {
    HandOver(HangOn(m, end, first), q, r, last)
  }

  ghost function HandOver(m: Memory, q: Queue, r: Queue, last: Slot): Memory
    requires q in m.heads && r in m.heads
  {
    var m1 := SetLast(m, q, last);
    m1.(heads := m1.heads[r := Head(null, HeadSlot(r))])
  }

  ghost function HangOn(m: Memory, end: Slot, first: Node): Memory
    requires Known(m, end) && first in m.elems
  {
    SetPrev(Store(m, end, first), first, end)
  }

  /** TAILQ_CONCAT with a second queue that is not empty. */
  ghost function Joined(m: Memory, q: Queue, a: seq<Node>, r: Queue, b: seq<Node>): Memory
    requires Holds(m, q, a) && Holds(m, r, b) && b != [] && q != r
  {
    LoadSlot(m, q, a, |a|);
    LoadSlot(m, r, b, 0);
    JoinLinks(m, q, SlotOf(q, a, |a|), r, b[0], SlotOf(r, b, |b|))
  }

  lemma JoinedElem(m: Memory, q: Queue, a: seq<Node>, r: Queue, b: seq<Node>, j: nat)
    requires Holds(m, q, a) && Holds(m, r, b) && b != [] && q != r && Apart(a, b) && j < |a| + |b|
    ensures var m', t := Joined(m, q, a, r, b), a + b;
      ElemOk(m', q, t, j)
  {
    ConcatAt(q, a, b, r, j);
    ConcatAt(q, a, b, r, j + 1);
    if a != [] { assert ElemOk(m, q, a, |a| - 1) && a[|a| - 1] in a; }
    assert b[0] in b && ElemOk(m, r, b, 0);
    if j < |a| {
      assert (a + b)[j] == a[j] && a[j] in a && ElemOk(m, q, a, j);
    } else {
      var k := j - |a|;
      assert (a + b)[j] == b[k] && b[k] in b && ElemOk(m, r, b, k);
    }
  }

  lemma ConcatCorrect(m: Memory, q: Queue, a: seq<Node>, r: Queue, b: seq<Node>)
    requires Holds(m, q, a) && Holds(m, r, b) && b != [] && q != r && Apart(a, b)
    ensures Holds(Joined(m, q, a, r, b), q, a + b) && Holds(Joined(m, q, a, r, b), r, [])
  {
    var m', t := Joined(m, q, a, r, b), a + b;
    assert NoDuplicates(t) by {
      forall i, j | 0 <= i < j < |t| ensures t[i] != t[j] {
        if i < |a| <= j { assert a[i] in a && b[j - |a|] in b; }
      }
    }
    ConcatAt(q, a, b, r, 0);
    ConcatAt(q, a, b, r, |t|);
    forall j | 0 <= j < |t| ensures ElemOk(m', q, t, j) {
      JoinedElem(m, q, a, r, b, j);
    }
  }

  /** One side of TAILQ_SWAP: queue `q` takes over the elements that were queue `r`. */
  ghost predicate TookOver(m: Memory, m': Memory, q: Queue, r: Queue, b: seq<Node>) {
    && q in m'.heads && r in m.heads
    && m'.heads[q] == Head(m.heads[r].first, if b == [] then HeadSlot(q) else m.heads[r].last)
    && (forall n :: n in b ==> n in m.elems && n in m'.elems && m'.elems[n].next == m.elems[n].next)
    && (forall i :: 0 <= i < |b| ==> m'.elems[b[i]].prev == if i == 0 then HeadSlot(q) else m.elems[b[i]].prev)
  }

  lemma SwapCorrect(m: Memory, m': Memory, q: Queue, r: Queue, b: seq<Node>)
    requires Holds(m, r, b) && TookOver(m, m', q, r, b)
    ensures Holds(m', q, b)
  {
    forall i | 0 <= i < |b| ensures ElemOk(m', q, b, i) {
      assert b[i] in b && ElemOk(m, r, b, i);
    }
  }
}
