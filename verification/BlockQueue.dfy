/**
 The circular buffer of TinyWebServer/log/block_queue.h: the parts of push(), pop(), clear() and
 the queries that run under the mutex. The waiting is in BlockQueueWaits.
 */
module BlockQueue {
  // ---------- Positions that wrap around ----------

  /** The slot of a position that lies up to two turns ahead. */
  ghost function Slot(x: int, m: int): (k: int)
    requires 0 <= x <= 2 * m && m > 0
    ensures 0 <= k < m
  {
    if x < m then x else if x < 2 * m then x - m else 0
  }

  /** The remainder that the program computes is the slot. */
  lemma WrapOnce(x: int, m: int)
    requires 0 <= x <= m && m > 0
    ensures x % m == Slot(x, m)
  {
    if x == m {
      assert m == m * 1;
      assert m % m == 0;
    } else {
      assert x / m == 0;
    }
  }

  /** The slots of the array that hold the queue, from position `start` on. */
  ghost function Window<T>(a: seq<T>, start: int, n: nat): (s: seq<T>)
    requires |a| > 0 && 0 <= start <= |a| && n <= |a|
  {
    seq(n, i requires 0 <= i < n => a[Slot(start + i, |a|)])
  }

  /** Writing the slot behind the window appends to it, as long as it is not full. */
  lemma WindowPush<T>(a: seq<T>, start: int, n: nat, x: T)
    requires 0 <= start <= |a| && n < |a|
    ensures Window(a[Slot(start + n, |a|) := x], start, n + 1) == Window(a, start, n) + [x]
  {
    var after := Window(a[Slot(start + n, |a|) := x], start, n + 1);
    forall i | 0 <= i < n
      ensures after[i] == Window(a, start, n)[i]
    {
      assert Slot(start + i, |a|) != Slot(start + n, |a|);
    }
  }

  /** The window that starts one slot later, perhaps at the beginning again, lacks the first element. */
  lemma WindowPop<T>(a: seq<T>, start: int, n: nat)
    requires |a| > 0 && 0 <= start <= |a| && 0 < n <= |a|
    ensures Window(a, Slot(start, |a|) + 1, n - 1) == Window(a, start, n)[1..]
  {
    var after := Window(a, Slot(start, |a|) + 1, n - 1);
    forall i | 0 <= i < n - 1
      ensures after[i] == Window(a, start, n)[i + 1]
    {
      assert Slot(Slot(start, |a|) + 1 + i, |a|) == Slot(start + (i + 1), |a|);
    }
  }

  // ---------- The ring as a value ----------

  /** The fields m_array, m_size, m_front and m_back. */
  datatype Ring<T> = Ring(items: seq<T>, size: int, front: int, back: int)

  ghost predicate RingOk<T>(r: Ring<T>) {
    var n := |r.items|;
    && n > 0 && 0 <= r.size <= n && -1 <= r.front < n && -1 <= r.back < n
    && Slot(r.front + 1 + r.size, n) == Slot(r.back + 1, n)
    && (r.back == -1 ==> r.size == 0)
  }

  /** The queue, oldest element first. */
  ghost function Queued<T>(r: Ring<T>): (q: seq<T>)
    requires RingOk(r)
    ensures |q| == r.size
  {
    Window(r.items, r.front + 1, r.size)
  }

  /** The assignments of push(). */
  ghost function Pushed<T>(r: Ring<T>, x: T): Ring<T>
    requires RingOk(r)
  {
    var back := (r.back + 1) % |r.items|;
    Ring(r.items[back := x], r.size + 1, r.front, back)
  }

  /** The assignments of pop(), and the element that it takes. */
  ghost function Popped<T>(r: Ring<T>): (Ring<T>, T)
    requires RingOk(r)
  {
    var front := (r.front + 1) % |r.items|;
    (r.(front := front, size := r.size - 1), r.items[front])
  }

  /** The assignments of clear(), and of the constructor. */
  ghost function Emptied<T>(r: Ring<T>): Ring<T> {
    Ring(r.items, 0, -1, -1)
  }

  lemma PushedQueued<T>(r: Ring<T>, x: T)
    requires RingOk(r) && r.size < |r.items|
    ensures RingOk(Pushed(r, x)) && Queued(Pushed(r, x)) == Queued(r) + [x]
  {
    WindowPush(r.items, r.front + 1, r.size, x);
    WrapOnce(r.back + 1, |r.items|);
  }

  lemma PoppedQueued<T>(r: Ring<T>)
    requires RingOk(r) && r.size > 0
    ensures RingOk(Popped(r).0) && [Popped(r).1] + Queued(Popped(r).0) == Queued(r)
  {
    WindowPop(r.items, r.front + 1, r.size);
    WrapOnce(r.front + 1, |r.items|);
  }

  // ---------- The queue ----------

  class BlockQueue<T(0)> {
    const items: array<T>    // m_array
    var size: int            // m_size
    var front: int           // m_front, the slot before the first element
    var back: int            // m_back, the slot of the last element

    ghost function AsRing(): Ring<T>
      reads this, items
    {
      Ring(items[..], size, front, back)
    }

    ghost predicate Valid()
      reads this, items
    {
      RingOk(AsRing())
    }

    /** The queue, oldest element first. */
    ghost function Contents(): seq<T>
      reads this, items
      requires Valid()
    {
      Queued(AsRing())
    }

    constructor (maxSize: int)
      requires maxSize > 0
      ensures Valid() && Contents() == [] && AsRing() == Emptied(AsRing()) && items.Length == maxSize && fresh(items)
    {
      items := new T[maxSize];
      size, front, back := 0, -1, -1;
    }

    method Clear()
      requires Valid()
      modifies this
      ensures Valid() && Contents() == [] && AsRing() == Emptied(old(AsRing()))
    {
      size := 0;
      front := -1;
      back := -1;
    }

    method Full() returns (r: bool)
      requires Valid()
      ensures r <==> |Contents()| == items.Length
    {
      r := size >= items.Length;
    }

    method Empty() returns (r: bool)
      requires Valid()
      ensures r <==> Contents() == []
    {
      r := size <= 0;
    }

    method Size() returns (n: int)
      requires Valid()
      ensures n == |Contents()| <= items.Length
    {
      n := size;
    }

    /** back(): the newest element, or nothing. */
    method Back() returns (ok: bool, value: T)
      requires Valid()
      ensures ok <==> Contents() != []
      ensures ok ==> value == Contents()[|Contents()| - 1]
    {
      value := items[0];
      if size <= 0 {
        return false, value;
      }
      assert Slot(front + 1 + (size - 1), items.Length) == back;
      value := items[back];
      ok := true;
    }

    /** push(), up to the broadcast. */
    method Push(item: T) returns (ok: bool)
      requires Valid()
      modifies this, items
      ensures Valid() && ok == (|old(Contents())| < items.Length)
      ensures Contents() == if ok then old(Contents()) + [item] else old(Contents())
      ensures AsRing() == if ok then Pushed(old(AsRing()), item) else old(AsRing())
    {
      if size >= items.Length {
        return false;
      }
      PushedQueued(AsRing(), item);
      back := (back + 1) % items.Length;
      items[back] := item;
      size := size + 1;
      ok := true;
    }

    /** pop(), once there is an element. */
    method Pop() returns (item: T)
      requires Valid() && Contents() != []
      modifies this
      ensures Valid() && [item] + Contents() == old(Contents()) && (AsRing(), item) == Popped(old(AsRing()))
    {
      PoppedQueued(AsRing());
      front := (front + 1) % items.Length;
      item := items[front];
      size := size - 1;
    }
  }
}
