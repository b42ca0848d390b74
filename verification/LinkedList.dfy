/**
 A doubly linked list as memory: a map from nodes to their prev and next fields, and the
 effect of unlinking a node and of linking one in behind the first.
 */
module LinkedList {
  import opened Sequences

  class DListNode {
    const key: int
    var value: int
    var prev: DListNode?
    var next: DListNode?

    constructor (k: int, v: int)
      ensures key == k && value == v && prev == null && next == null
    {
      key, value, prev, next := k, v, null, null;
    }
  }

  datatype Links = Links(prev: DListNode?, next: DListNode?)

  type Memory = map<DListNode, Links>

  ghost function Snap(S: set<DListNode>): Memory
    reads S
  {
    map n | n in S :: Links(n.prev, n.next)
  }

  ghost function Nth(s: seq<DListNode>, i: int): DListNode? {
    if 0 <= i < |s| then s[i] else null
  }

  /** The nodes are linked both ways in the order of the sequence, and nothing lies beyond its ends. */
  ghost predicate Linked(m: Memory, s: seq<DListNode>) {
    && NoDuplicates(s)
    && forall i :: 0 <= i < |s| ==> NodeOk(m, s, i)
  }

  /** The fields of node number `i`. */
  ghost predicate NodeOk(m: Memory, s: seq<DListNode>, i: int)
    requires 0 <= i < |s|
  {
    s[i] in m && m[s[i]] == Links(Nth(s, i - 1), Nth(s, i + 1))
  }

  ghost predicate Unlinked(m: Memory, m': Memory, node: DListNode) {
    node in m &&
    var Links(p, n) := m[node];
    && p != null && n != null && p in m && n in m
    && m' == m[p := m[p].(next := n)][n := m[n].(prev := p)]
  }

  lemma CutNth(s: seq<DListNode>, i: nat, j: int)
    requires i < |s|
    ensures Nth(Cut(s, i), j) == if j < i then Nth(s, j) else Nth(s, j + 1)
  {
  }

  lemma RemoveCorrect(m: Memory, m': Memory, s: seq<DListNode>, i: nat)
    requires Linked(m, s) && 0 < i < |s| - 1
    requires Unlinked(m, m', s[i])
    ensures Linked(m', Cut(s, i))
  {
    var c := Cut(s, i);
    CutNoDuplicates(s, i);
    forall j | 0 <= j < |c| ensures NodeOk(m', c, j) {
      CutNth(s, i, j);
      CutNth(s, i, j - 1);
      CutNth(s, i, j + 1);
      var k := if j < i then j else j + 1;
      assert c[j] == s[k] && NodeOk(m, s, k);
      assert NodeOk(m, s, i) && NodeOk(m, s, i - 1) && NodeOk(m, s, i + 1);
    }
  }

  ghost predicate LinkedIn(m: Memory, m': Memory, head: DListNode, node: DListNode) {
    head in m && node in m && head != node &&
    var first := m[head].next;
    && first != null && first in m && first != head && first != node
    && m' == m[node := Links(head, first)][first := m[first].(prev := node)][head := m[head].(next := node)]
  }

  lemma AddCorrect(m: Memory, m': Memory, s: seq<DListNode>, node: DListNode)
    requires Linked(m, s) && |s| >= 2 && node !in s && LinkedIn(m, m', s[0], node)
    ensures Linked(m', [s[0], node] + s[1..])
  {
    var c := [s[0], node] + s[1..];
    assert forall j :: 0 <= j < |c| ==> c[j] == if j == 0 then s[0] else if j == 1 then node else s[j - 1];
    assert NodeOk(m, s, 0) && NodeOk(m, s, 1);
    forall j | 0 <= j < |c| ensures NodeOk(m', c, j) {
      if j >= 2 {
        assert c[j] == s[j - 1] && NodeOk(m, s, j - 1);
      }
    }
  }
}
