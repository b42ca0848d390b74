/**
 The LRU cache of algo/Ya_10.cpp: a hash map into a doubly linked list between two sentinels.
 */
module LruCache {
  import opened LinkedList
  import opened Sequences
  import opened LruSpec

  ghost function EntryOf(n: DListNode): Entry
    reads n`value
  {
    Entry(n.key, n.value)
  }

  ghost function Entries(s: seq<DListNode>): seq<Entry>
    reads s`value
  {
    if s == [] then [] else [EntryOf(s[0])] + Entries(s[1..])
  }

  lemma {:induction false} EntriesConcat(a: seq<DListNode>, b: seq<DListNode>)
    ensures Entries(a + b) == Entries(a) + Entries(b)
  {
    if a == [] {
      assert a + b == b;
    } else {
      EntriesConcat(a[1..], b);
      assert (a + b)[1..] == a[1..] + b;
    }
  }

  /** Taking one node out takes its entry out. */
  lemma EntriesCut(s: seq<DListNode>, i: nat)
    requires i < |s|
    ensures |Entries(s)| == |s| && Entries(s)[i] == EntryOf(s[i])
    ensures Entries(Cut(s, i)) == Entries(s)[..i] + Entries(s)[i + 1..]
    ensures Entries(s[..i]) == Entries(s)[..i]
  {
    var a, b := s[..i], s[i + 1..];
    assert s == a + ([s[i]] + b);
    EntriesConcat(a, [s[i]] + b);
    EntriesConcat([s[i]], b);
    EntriesConcat(a, b);
    EntriesLength(a);
    EntriesLength(s);
    assert Entries([s[i]]) == [EntryOf(s[i])];
    Slices(Entries(a), EntryOf(s[i]), Entries(b));
  }

  lemma Slices(a: seq<Entry>, e: Entry, b: seq<Entry>)
    ensures var x := a + ([e] + b); x[..|a|] == a && x[|a|] == e && x[|a| + 1..] == b
  {
  }

  lemma {:induction false} EntriesLength(s: seq<DListNode>)
    ensures |Entries(s)| == |s|
  {
    if s != [] { EntriesLength(s[1..]); }
  }

  class LRUCache {
    var cache: map<int, DListNode>
    var size: int
    const capacity: int
    const head: DListNode
    const tail: DListNode
    /** The nodes between the sentinels, most recently used first. */
    ghost var nodes: seq<DListNode>
    /** Every node that belongs to the cache. */
    ghost var repr: set<DListNode>
    /** Every call so far. */
    ghost var history: seq<Op>

    ghost function All(): seq<DListNode>
      reads this
    {
      [head] + nodes + [tail]
    }

    ghost predicate ListOk()
      reads this, repr
    {
      (forall n :: n in All() ==> n in repr) && Linked(Snap(repr), All())
    }

    /** The map and the list hold the same nodes. */
    ghost predicate MapOk()
      reads this
    {
      && size == |nodes|
      && (forall n :: n in nodes ==> n.key in cache && cache[n.key] == n)
      && (forall k :: k in cache ==> cache[k] in nodes && cache[k].key == k)
    }

    ghost predicate Valid()
      reads this, repr, nodes
    {
      ListOk() && MapOk() && Entries(nodes) == Contents(capacity, history)
    }

    constructor (c: int)
      ensures Valid() && capacity == c && history == [] && fresh(repr)
    {
      capacity := c;
      size := 0;
      cache := map[];
      head := new DListNode(0, 0);
      tail := new DListNode(0, 0);
      nodes, history := [], [];
      new;
      head.next := tail;
      tail.prev := head;
      repr := {head, tail};
    }

    static method RemoveNode(node: DListNode, ghost S: set<DListNode>, ghost s: seq<DListNode>, ghost i: nat)
      requires Linked(Snap(S), s) && 0 < i < |s| - 1 && s[i] == node
      modifies S`prev, S`next
      ensures Linked(Snap(S), Cut(s, i))
    {
      ghost var m := Snap(S);
      assert NodeOk(m, s, i) && NodeOk(m, s, i - 1) && NodeOk(m, s, i + 1);
      node.prev.next := node.next;
      node.next.prev := node.prev;
      assert Unlinked(m, Snap(S), node);
      RemoveCorrect(m, Snap(S), s, i);
    }

    static method AddToHead(head: DListNode, node: DListNode, ghost S: set<DListNode>, ghost s: seq<DListNode>)
      requires Linked(Snap(S), s) && |s| >= 2 && s[0] == head && node !in s && node in S
      modifies S`prev, S`next
      ensures Linked(Snap(S), [head, node] + s[1..])
    {
      ghost var m := Snap(S);
      assert NodeOk(m, s, 0) && NodeOk(m, s, 1);
      node.next := head.next;
      node.prev := head;
      head.next.prev := node;
      head.next := node;
      assert LinkedIn(m, Snap(S), head, node);
      AddCorrect(m, Snap(S), s, node);
    }

    static method MoveToHead(head: DListNode, node: DListNode, ghost S: set<DListNode>, ghost s: seq<DListNode>, ghost i: nat)
      requires Linked(Snap(S), s) && 0 < i < |s| - 1 && s[0] == head && s[i] == node
      modifies S`prev, S`next
      ensures Linked(Snap(S), [head, node] + Cut(s, i)[1..])
    {
      assert NodeOk(Snap(S), s, i);
      RemoveNode(node, S, s, i);
      CutNoDuplicates(s, i);
      assert Cut(s, i)[0] == head;
      assert node in S;
      AddToHead(head, node, S, Cut(s, i));
    }

    /** The list part of MoveToHead for a node of the cache. */
    method Touch(node: DListNode, ghost i: nat)
      requires ListOk() && MapOk() && i < |nodes| && nodes[i] == node
      modifies this`nodes, repr`prev, repr`next
      ensures ListOk() && MapOk() && nodes == [node] + Cut(old(nodes), i)
    {
      ghost var ns := nodes;
      TouchedAll(ns, i);
      MoveToHead(head, node, repr, All(), i + 1);
      nodes := [node] + Cut(ns, i);
    }

    lemma TouchedAll(ns: seq<DListNode>, i: nat)
      requires i < |ns|
      ensures var all, moved := [head] + ns + [tail], [head] + ([ns[i]] + Cut(ns, i)) + [tail];
        && all[i + 1] == ns[i] && all[0] == head
        && moved == [head, ns[i]] + Cut(all, i + 1)[1..]
        && (forall n :: n in [ns[i]] + Cut(ns, i) <==> n in ns)
        && (forall n :: n in moved ==> n in all)
    {
      assert ns == ns[..i] + [ns[i]] + ns[i + 1..];
      assert Cut([head] + ns + [tail], i + 1) == [head] + Cut(ns, i) + [tail];
    }

    lemma NodesDiffer()
      requires ListOk()
      ensures NoDuplicates(nodes)
    {
      forall a, b | 0 <= a < b < |nodes| ensures nodes[a] != nodes[b] {
        assert All()[a + 1] == nodes[a] && All()[b + 1] == nodes[b];
      }
    }

    /** The list has no repeated keys, so the recency sequence can be searched by key. */
    lemma KeysDiffer()
      requires ListOk() && MapOk()
      ensures NoDuplicates(LruSpec.Keys(Entries(nodes)))
    {
      var ks := LruSpec.Keys(Entries(nodes));
      EntriesLength(nodes);
      NodesDiffer();
      forall i, j | 0 <= i < j < |ks| ensures ks[i] != ks[j] {
        EntriesCut(nodes, i);
        EntriesCut(nodes, j);
        assert nodes[i] in nodes && nodes[j] in nodes;
      }
    }

    /** A key in the map: its node is in the list, and the entry can be picked out. */
    lemma Found(key: int) returns (i: nat)
      requires ListOk() && MapOk() && key in cache
      ensures i < |nodes| && nodes[i] == cache[key] && nodes[i].key == key
      ensures key in LruSpec.Keys(Entries(nodes)) && Lookup(Entries(nodes), key) == nodes[i].value
      ensures Without(Entries(nodes), key) == Entries(Cut(nodes, i))
    {
      i :| 0 <= i < |nodes| && nodes[i] == cache[key];
      EntriesCut(nodes, i);
      KeysDiffer();
      PickOut(Entries(nodes), i);
    }

    /** A key not in the map is not in the recency sequence. */
    lemma NotThere(key: int)
      requires ListOk() && MapOk() && key !in cache
      ensures key !in LruSpec.Keys(Entries(nodes)) && Without(Entries(nodes), key) == Entries(nodes)
      ensures Lookup(Entries(nodes), key) == -1
    {
      var ks := LruSpec.Keys(Entries(nodes));
      EntriesLength(nodes);
      forall i | 0 <= i < |ks| ensures ks[i] != key {
        EntriesCut(nodes, i);
        assert nodes[i] in nodes;
      }
      WithoutAbsent(Entries(nodes), key);
      LookupAbsent(Entries(nodes), key);
    }

    method Get(key: int) returns (r: int)
      requires Valid()
      modifies this`nodes, this`history, repr`prev, repr`next
      ensures Valid() && history == old(history) + [Op.Get(key)]
      ensures r == Lookup(Contents(capacity, old(history)), key)
    {
      Extend(capacity, history, Op.Get(key));
      if key !in cache {
        NotThere(key);
        history := history + [Op.Get(key)];
        return -1;
      }
      var node := cache[key];
      GetOld(key, node);
      history := history + [Op.Get(key)];
      r := node.value;
    }

    /** The list part of Get for a key in the cache. */
    method GetOld(key: int, node: DListNode)
      requires ListOk() && MapOk() && key in cache && cache[key] == node
      modifies this`nodes, repr`prev, repr`next
      ensures ListOk() && MapOk()
      ensures Entries(nodes) == AfterGet(old(Entries(nodes)), key) && node.value == Lookup(old(Entries(nodes)), key)
    {
      ghost var i := Found(key);
      ghost var rest := Cut(nodes, i);
      ghost var es := Entries(rest);
      Touch(node, i);
      assert Entries(rest) == es;
      EntriesConcat([node], rest);
      assert Entries([node]) == [Entry(key, node.value)];
    }

    /** Links a fresh node in behind the head and enters it into the map. */
    method AddNew(node: DListNode)
      requires ListOk() && MapOk() && node !in repr && node.key !in cache
      modifies this`nodes, this`repr, this`cache, this`size, repr`prev, repr`next, node`prev, node`next
      ensures ListOk() && MapOk() && nodes == [node] + old(nodes) && repr == old(repr) + {node}
      ensures node.key in cache && cache[node.key] == node
    {
      cache := cache[node.key := node];
      LinkNew(node);
      size := size + 1;
    }

    /** The list part of AddNew. */
    method LinkNew(node: DListNode)
      requires ListOk() && node !in repr
      modifies this`nodes, this`repr, repr`prev, repr`next, node`prev, node`next
      ensures ListOk() && nodes == [node] + old(nodes) && repr == old(repr) + {node}
    {
      ghost var S := repr + {node};
      Widen(S);
      AddedAll(nodes, node);
      AddToHead(head, node, S, All());
      repr := S;
      nodes := [node] + nodes;
    }

    lemma AddedAll(ns: seq<DListNode>, node: DListNode)
      ensures var all, more := [head] + ns + [tail], [head] + ([node] + ns) + [tail];
        more == [head, node] + all[1..] && (forall n :: n in more <==> n in all || n == node)
    {
    }

    lemma Widen(S: set<DListNode>)
      requires ListOk() && repr <= S
      ensures Linked(Snap(S), All())
    {
      forall i | 0 <= i < |All()| ensures NodeOk(Snap(S), All(), i) {
        assert NodeOk(Snap(repr), All(), i);
      }
    }

    method RemoveTail() returns (removed: DListNode)
      requires ListOk() && nodes != []
      modifies this`nodes, repr`prev, repr`next
      ensures ListOk() && nodes == old(nodes)[..|old(nodes)| - 1] && removed == old(nodes)[|old(nodes)| - 1]
    {
      ghost var all, last := All(), |nodes|;
      assert all[last] == nodes[last - 1] && all[last + 1] == tail;
      assert NodeOk(Snap(repr), all, last + 1);
      removed := tail.prev;
      RemoveNode(removed, repr, all, last);
      nodes := nodes[..last - 1];
      assert All() == Cut(all, last);
    }

    /** Evicts the least recently used node. */
    method Evict()
      requires ListOk() && MapOk() && nodes != []
      modifies this`nodes, this`cache, this`size, repr`prev, repr`next
      ensures ListOk() && MapOk() && nodes == old(nodes)[..|old(nodes)| - 1]
    {
      ghost var ns := nodes;
      assert ns == ns[..|ns| - 1] + [ns[|ns| - 1]];
      LastDiffers();
      var removed := RemoveTail();
      cache := cache - {removed.key};
      size := size - 1;
    }

    lemma LastDiffers()
      requires ListOk() && nodes != []
      ensures nodes[|nodes| - 1] !in nodes[..|nodes| - 1]
    {
      forall i | 0 <= i < |nodes| - 1 ensures nodes[i] != nodes[|nodes| - 1] {
        assert All()[i + 1] == nodes[i] && All()[|nodes|] == nodes[|nodes| - 1];
      }
    }

    method Put(key: int, value: int)
      requires Valid()
      modifies this`nodes, this`history, this`cache, this`size, this`repr, repr
      ensures Valid() && history == old(history) + [Op.Put(key, value)]
      ensures size == |cache| == Holding(capacity, history)
      ensures fresh(repr - old(repr))
    {
      Extend(capacity, history, Op.Put(key, value));
      PutEntry(key, value);
      history := history + [Op.Put(key, value)];
      CacheSize();
    }

    /** put() on list and map. */
    method PutEntry(key: int, value: int)
      requires Valid()
      modifies this`nodes, this`cache, this`size, this`repr, repr
      ensures ListOk() && MapOk() && fresh(repr - old(repr))
      ensures Entries(nodes) == AfterPut(capacity, old(Entries(nodes)), key, value)
    {
      ContentsFit(capacity, history);
      EntriesLength(nodes);
      if key !in cache {
        PutNew(key, value);
      } else {
        PutOld(key, value);
      }
    }

    /** The map has as many keys as the capacity and the puts so far demand. */
    lemma CacheSize()
      requires Valid()
      ensures size == |cache| == Holding(capacity, history)
    {
      var ks := LruSpec.Keys(Entries(nodes));
      KeysDiffer();
      SetSize(ks);
      EntriesLength(nodes);
      ContentsSize(capacity, history);
      forall k ensures k in ks <==> k in cache {
        if k in cache { var i := Found(k); } else { NotThere(k); }
      }
      assert cache.Keys == set k | k in ks;
    }

    method PutNew(key: int, value: int)
      requires ListOk() && MapOk() && key !in cache && |nodes| <= Room(capacity)
      modifies this`nodes, this`cache, this`size, this`repr, repr
      ensures ListOk() && MapOk() && fresh(repr - old(repr))
      ensures Entries(nodes) == AfterPut(capacity, old(Entries(nodes)), key, value)
    {
      NotThere(key);
      ghost var es := Entries(nodes);
      var node := new DListNode(key, value);
      ghost var ns := nodes;
      assert Entries(ns) == es;
      AddNew(node);
      assert Entries(ns) == es;
      EntriesConcat([node], ns);
      EntriesLength(nodes);
      Trim();
    }

    /** Evicts when the new entry is one too many. */
    method Trim()
      requires ListOk() && MapOk() && 0 < |nodes| <= Room(capacity) + 1
      modifies this`nodes, this`cache, this`size, repr`prev, repr`next
      ensures ListOk() && MapOk() && Entries(nodes) == Take(old(Entries(nodes)), Room(capacity))
    {
      EntriesCut(nodes, |nodes| - 1);
      if size > capacity {
        Evict();
      }
    }

    method PutOld(key: int, value: int)
      requires ListOk() && MapOk() && key in cache && |nodes| <= Room(capacity)
      modifies this`nodes, repr
      ensures ListOk() && MapOk()
      ensures Entries(nodes) == AfterPut(capacity, old(Entries(nodes)), key, value)
    {
      var node := cache[key];
      ghost var i := Found(key);
      ghost var rest := Cut(nodes, i);
      ghost var es := Entries(rest);
      CutOtherNodes(i);
      EntriesLength(rest);
      ghost var m := Snap(repr);
      node.value := value;
      assert Snap(repr) == m && Entries(rest) == es;
      Touch(node, i);
      assert Entries(rest) == es;
      EntriesConcat([node], rest);
      assert Entries([node]) == [Entry(key, value)];
    }

    lemma CutOtherNodes(i: nat)
      requires ListOk() && i < |nodes|
      ensures nodes[i] !in Cut(nodes, i)
    {
      NodesDiffer();
      CutNoDuplicates(nodes, i);
    }
  }
}
