/**
 The reference-counted pointer of Cpp/shared_ptr.cpp. Handles share a control block whose
 counter says how many there are; whoever leaves last frees the resource and the block.
 */
module SharedPtrs {
  /** A resource; `deleted` says how often it was freed. */
  class Resource {
    ghost var deleted: nat

    constructor ()
      ensures deleted == 0
    {
      deleted := 0;
    }
  }

  /** A control block, made for one resource. */
  class SharedCount {
    var count: int
    ghost const target: Resource
    ghost var deleted: nat

    constructor (ghost p: Resource)
      ensures count == 1 && target == p && deleted == 0
    {
      count := 1;
      target := p;
      deleted := 0;
    }

    /** add(), on a block that is still there. */
    method Add()
      requires deleted == 0
      modifies this`count
      ensures count == old(count) + 1
    {
      count := count + 1;
    }

    /** minus(), on a block that is still there. */
    method Minus() returns (left: int)
      requires deleted == 0
      modifies this`count
      ensures left == count == old(count) - 1
    {
      count := count - 1;
      return count;
    }
  }

  // ---------- Who owns what ----------

  type Owners = map<SharedPtr, SharedCount?>

  ghost function Holders(m: Owners, b: SharedCount): set<SharedPtr> {
    set h | h in m && m[h] == b
  }

  ghost function Uses(m: Owners, b: SharedCount): nat {
    |Holders(m, b)|
  }

  ghost function One(p: bool): nat {
    if p then 1 else 0
  }

  /** A handle that moves from one block to another counts off here and on there. */
  lemma Moved(m: Owners, h: SharedPtr, x: SharedCount?, b: SharedCount)
    ensures Uses(m[h := x], b) == Uses(m, b) - One(h in m && m[h] == b) + One(x == b)
  {
    var before, after := Holders(m, b), Holders(m[h := x], b);
    assert before - {h} == after - {h};
    SizeWithout(before, h);
    SizeWithout(after, h);
  }

  lemma SizeWithout(s: set<SharedPtr>, h: SharedPtr)
    ensures |s - {h}| == |s| - One(h in s)
  {
    if h !in s { assert s - {h} == s; }
  }

  lemma Gone(m: Owners, h: SharedPtr, b: SharedCount)
    requires h in m && m[h] != b
    ensures Uses(m - {h}, b) == Uses(m, b)
  {
    assert Holders(m - {h}, b) == Holders(m, b);
  }

  /** The handles that exist and the control blocks made so far. */
  class World {
    ghost var handles: set<SharedPtr>
    ghost var blocks: set<SharedCount>

    ghost function Owns(): Owners
      reads this, handles
    {
      map h | h in handles :: h.refCount
    }

    ghost predicate Tied(h: SharedPtr)
      reads this, h
    {
      if h.refCount == null then h.ptr == null else h.refCount in blocks && h.ptr == h.refCount.target
    }

    /**
     A block counts its handles; it and its resource are freed exactly once when there are none,
     and not before.
     */
    ghost predicate Exact(b: SharedCount)
      reads this, handles, b, b.target
    {
      && b.count == Uses(Owns(), b)
      && b.deleted == b.target.deleted == One(b.count == 0)
    }

    ghost predicate Valid()
      reads this, handles, blocks, set b | b in blocks :: b.target
    {
      && (forall h :: h in handles ==> Tied(h))
      && (forall b :: b in blocks ==> Exact(b))
      && (forall b, c :: b in blocks && c in blocks && b.target == c.target ==> b == c)
    }

    /** A raw pointer that nobody owns yet. */
    ghost predicate Unowned(p: Resource)
      reads this, p
    {
      p.deleted == 0 && forall b :: b in blocks ==> b.target != p
    }

    constructor ()
      ensures Valid() && handles == {} && blocks == {}
    {
      handles, blocks := {}, {};
    }

    /** A block that a handle refers to is still there, and so is its resource. */
    lemma Alive(h: SharedPtr)
      requires Valid() && h in handles && h.refCount != null
      ensures h.refCount.count > 0 && h.refCount.deleted == 0 && h.refCount.target.deleted == 0
    {
      assert h in Holders(Owns(), h.refCount);
      assert Exact(h.refCount);
    }

    ghost function Held(m: Owners, h: SharedPtr): SharedCount? {
      if h in m then m[h] else null
    }

    /** Nothing was freed, and the handles other than `h` and `g` kept their resource. */
    twostate predicate Kept(new h: SharedPtr, new g: SharedPtr)
      reads this, handles, blocks, set b | b in blocks :: b.target
    {
      && old(blocks) <= blocks
      && (forall b :: b in old(blocks) ==> b.deleted == old(b.deleted) && b.target.deleted == old(b.target.deleted))
      && handles == old(handles) + {h}
      && (forall k :: k in old(handles) && k != h && k != g ==> k.ptr == old(k.ptr))
    }

    /** The handle `h`, which held nothing, joins block `x`: an old one that is alive, or a new one. */
    twostate lemma Rebalanced(new h: SharedPtr, new x: SharedCount?)
      requires old(Valid()) && Kept(h, h) && Held(old(Owns()), h) == null
      requires Owns() == old(Owns())[h := x] && Tied(h)
      requires blocks == old(blocks) + (if x == null then {} else {x})
      requires forall b :: b in old(blocks) ==> b.count == old(b.count) + One(x == b)
      requires x != null ==> x.deleted == 0 && x.target.deleted == 0
      requires x != null && x !in old(blocks) ==> x.count == 1 && forall b :: b in old(blocks) ==> b.target != x.target
      ensures Valid()
    {
      var m := old(Owns());
      forall b | b in blocks
        ensures Exact(b)
      {
        Moved(m, h, x, b);
        if b in old(blocks) {
          assert old(Exact(b));
        } else {
          assert forall k :: k in old(handles) ==> old(Tied(k));
          assert Holders(m, b) == {};
        }
      }
      forall k | k in handles
        ensures Tied(k)
      {
        if k != h {
          assert old(Tied(k)) && Owns()[k] == m[k];
        }
      }
    }

    /** The handles `h` and `g` exchange what they hold; a new `h` held nothing. */
    twostate lemma Exchanged(new h: SharedPtr, new g: SharedPtr)
      requires old(Valid()) && Kept(h, g) && g in old(handles) && blocks == old(blocks)
      requires Owns() == old(Owns())[h := Held(old(Owns()), g)][g := Held(old(Owns()), h)] && Tied(h) && Tied(g)
      requires forall b :: b in blocks ==> b.count == old(b.count)
      ensures Valid()
    {
      var m := old(Owns());
      forall b | b in blocks
        ensures Exact(b)
      {
        Moved(m, h, Held(m, g), b);
        Moved(m[h := Held(m, g)], g, Held(m, h), b);
        assert old(Exact(b));
      }
      forall k | k in handles
        ensures Tied(k)
      {
        if k != h && k != g {
          assert old(Tied(k)) && Owns()[k] == m[k];
        }
      }
    }

    /** A block for a resource that is freed, or that another block has too, is not in order. */
    lemma OwnedTwice(b: SharedCount)
      requires b in blocks && b.deleted == 0
      requires b.target.deleted != 0 || exists c :: c in blocks && c != b && c.target == b.target
      ensures !Valid()
    {
      assert Valid() ==> Exact(b);
    }

    /** When no handle refers to anything, every block and every resource is freed, once. */
    lemma NoLeak()
      requires Valid() && forall h :: h in handles ==> h.refCount == null
      ensures forall b :: b in blocks ==> b.deleted == 1 && b.target.deleted == 1
    {
      forall b | b in blocks
        ensures b.deleted == 1 && b.target.deleted == 1
      {
        assert Exact(b);
        assert Holders(Owns(), b) == {};
      }
    }
  }

  // ---------- Handles ----------

  class SharedPtr {
    var ptr: Resource?
    var refCount: SharedCount?

    /** The private clean(): leave the block, and free it and the resource when it was the last. */
    method Clean(ghost w: World)
      requires w.Valid() && this in w.handles
      modifies this, refCount, ptr
      ensures w.Valid() && w.Owns() == old(w.Owns())[this := null]
    {
      if refCount != null {
        w.Alive(this);
        assert w.Tied(this) && w.Exact(refCount);
        ghost var b := refCount;
        ghost var m := w.Owns();
        var left := refCount.Minus();
        if left == 0 {
          ptr.deleted := ptr.deleted + 1;
          refCount.deleted := refCount.deleted + 1;
        }
        ptr := null;
        refCount := null;
        assert w.Owns() == m[this := null];
        forall c | c in w.blocks
          ensures w.Exact(c)
        {
          Moved(m, this, null, c);
          assert old(w.Exact(c));
        }
        forall h | h in w.handles
          ensures w.Tied(h)
        {
          assert old(w.Tied(h));
        }
      } else {
        assert w.Owns() == old(w.Owns())[this := null];
      }
    }

    /** SharedPtr(). */
    constructor Empty(ghost w: World)
      requires w.Valid()
      modifies w
      ensures w.Valid() && w.handles == old(w.handles) + {this} && w.blocks == old(w.blocks)
      ensures w.Owns() == old(w.Owns())[this := null]
    {
      ptr, refCount := null, null;
      new;
      w.handles := w.handles + {this};
      assert w.Owns() == old(w.Owns())[this := null];
      w.Rebalanced(this, null);
    }

    /** SharedPtr(T*). The counts stay exact exactly if nobody owns the raw pointer yet. */
    constructor FromRaw(p: Resource?, ghost w: World)
      requires w.Valid()
      modifies w
      ensures w.Valid() <==> p == null || old(w.Unowned(p))
      ensures w.handles == old(w.handles) + {this}
      ensures ptr == p && (p == null <==> refCount == null)
      ensures w.blocks == old(w.blocks) + (if refCount == null then {} else {refCount}) && (refCount != null ==> fresh(refCount))
      ensures w.Owns() == old(w.Owns())[this := refCount]
    {
      ptr, refCount := p, null;
      if p != null {
        refCount := new SharedCount(p);
      }
      new;
      w.handles := w.handles + {this};
      w.blocks := w.blocks + (if refCount == null then {} else {refCount});
      assert w.Owns() == old(w.Owns())[this := refCount];
      if p == null || old(w.Unowned(p)) {
        w.Rebalanced(this, refCount);
      } else {
        w.OwnedTwice(refCount);
      }
    }

    /** SharedPtr(const SharedPtr&). */
    constructor Copy(other: SharedPtr, ghost w: World)
      requires w.Valid() && other in w.handles
      modifies w, other.refCount
      ensures w.Valid() && w.handles == old(w.handles) + {this} && w.blocks == old(w.blocks)
      ensures w.Owns() == old(w.Owns())[this := old(other.refCount)]
    {
      ptr, refCount := other.ptr, other.refCount;
      new;
      if refCount != null {
        w.Alive(other);
        refCount.Add();
      }
      assert w.Tied(other);
      w.handles := w.handles + {this};
      assert w.Owns() == old(w.Owns())[this := old(other.refCount)];
      w.Rebalanced(this, refCount);
    }

    /** SharedPtr(SharedPtr&&). */
    constructor Move(other: SharedPtr, ghost w: World)
      requires w.Valid() && other in w.handles
      modifies w, other
      ensures w.Valid() && w.handles == old(w.handles) + {this} && w.blocks == old(w.blocks)
      ensures w.Owns() == old(w.Owns())[this := old(other.refCount)][other := null]
    {
      ptr, refCount := other.ptr, other.refCount;
      new;
      assert w.Tied(other);
      other.ptr := null;
      other.refCount := null;
      w.handles := w.handles + {this};
      assert w.Owns() == old(w.Owns())[this := old(other.refCount)][other := null];
      w.Exchanged(this, other);
    }

    /** operator=(const SharedPtr&). */
    method CopyAssign(other: SharedPtr, ghost w: World)
      requires w.Valid() && this in w.handles && other in w.handles
      modifies this, refCount, ptr, other.refCount
      ensures w.Valid() && w.Owns() == old(w.Owns())[this := old(other.refCount)]
    {
      assert w.Owns()[this := refCount] == w.Owns();
      if this != other {
        Clean(w);
        Join(other, w);
      }
    }

    /** The end of a copy assignment, when this handle holds nothing. */
    method Join(other: SharedPtr, ghost w: World)
      requires w.Valid() && this in w.handles && other in w.handles && w.Owns()[this] == null
      modifies this, other.refCount
      ensures w.Valid() && w.Owns() == old(w.Owns())[this := old(other.refCount)]
    {
      if other.refCount != null {
        w.Alive(other);
      }
      assert w.Tied(other);
      ptr := other.ptr;
      refCount := other.refCount;
      if refCount != null {
        refCount.Add();
      }
      w.Rebalanced(this, refCount);
    }

    /** operator=(SharedPtr&&). */
    method MoveAssign(other: SharedPtr, ghost w: World)
      requires w.Valid() && this in w.handles && other in w.handles
      modifies this, refCount, ptr, other
      ensures w.Valid()
      ensures w.Owns() == if this == other then old(w.Owns()) else old(w.Owns())[this := old(other.refCount)][other := null]
    {
      if this != other {
        Clean(w);
        TakeFrom(other, w);
      }
    }

    /** The end of a move assignment, when this handle holds nothing. */
    method TakeFrom(other: SharedPtr, ghost w: World)
      requires w.Valid() && this in w.handles && other in w.handles && w.Owns()[this] == null && this != other
      modifies this, other
      ensures w.Valid() && w.Owns() == old(w.Owns())[this := old(other.refCount)][other := null]
    {
      assert w.Tied(other);
      ptr := other.ptr;
      refCount := other.refCount;
      other.ptr := null;
      other.refCount := null;
      w.Exchanged(this, other);
    }

    /** reset(T*). The counts stay exact exactly if nobody owns the raw pointer yet. */
    method Reset(p: Resource?, ghost w: World)
      requires w.Valid() && this in w.handles
      modifies this, refCount, ptr, w
      ensures w.Valid() <==> p == null || old(w.Unowned(p))
      ensures w.handles == old(w.handles)
      ensures ptr == p && (p == null <==> refCount == null)
      ensures w.blocks == old(w.blocks) + (if refCount == null then {} else {refCount}) && (refCount != null ==> fresh(refCount))
      ensures w.Owns() == old(w.Owns())[this := refCount]
    {
      assert w.Tied(this);
      Clean(w);
      assert w.Owns()[this] == null && w.Tied(this);
      if p != null {
        Adopt(p, w);
      }
    }

    /** The end of reset(), when this handle holds nothing. */
    method Adopt(p: Resource, ghost w: World)
      requires w.Valid() && this in w.handles && w.Owns()[this] == null
      modifies this, w
      ensures w.Valid() <==> old(w.Unowned(p))
      ensures w.handles == old(w.handles) && ptr == p
      ensures refCount != null && fresh(refCount) && w.blocks == old(w.blocks) + {refCount}
      ensures w.Owns() == old(w.Owns())[this := refCount]
    {
      ptr := p;
      refCount := new SharedCount(p);
      w.blocks := w.blocks + {refCount};
      if old(w.Unowned(p)) {
        w.Rebalanced(this, refCount);
      } else {
        w.OwnedTwice(refCount);
      }
    }

    /** swap(), also of a handle with itself. */
    method Swap(other: SharedPtr, ghost w: World)
      requires w.Valid() && this in w.handles && other in w.handles
      modifies this, other
      ensures w.Valid() && w.Owns() == old(w.Owns())[this := old(other.refCount)][other := old(refCount)]
    {
      ptr, other.ptr := other.ptr, ptr;
      refCount, other.refCount := other.refCount, refCount;
      w.Exchanged(this, other);
    }

    /** ~SharedPtr(): the handle is no more. */
    method Destroy(ghost w: World)
      requires w.Valid() && this in w.handles
      modifies this, refCount, ptr, w
      ensures w.Valid() && w.handles == old(w.handles) - {this} && w.blocks == old(w.blocks)
      ensures w.Owns() == old(w.Owns()) - {this}
    {
      Clean(w);
      ghost var m := w.Owns();
      w.handles := w.handles - {this};
      assert w.Owns() == m - {this};
      forall b | b in w.blocks
        ensures w.Exact(b)
      {
        Gone(m, this, b);
      }
    }
  }
}
