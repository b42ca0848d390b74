/**
 The comparison function that both tree macros of kvstore/NtyCo/core/nty_tree.h take as
 their `cmp` argument, and strictly ascending sequences under it.
 */
module Ordering {
  import opened Sequences

  /** `cmp` answers below, equal or above consistently. Equal keys need not be identical. */
  ghost predicate IsOrder<K(!new)>(cmp: (K, K) -> int) {
    forall a, b, c :: Consistent(cmp, a, b, c)
  }

  ghost predicate Consistent<K>(cmp: (K, K) -> int, a: K, b: K, c: K) {
    && (cmp(a, b) < 0 <==> cmp(b, a) > 0)
    && (cmp(a, b) < 0 && cmp(b, c) < 0 ==> cmp(a, c) < 0)
    && (cmp(a, b) == 0 && cmp(b, c) < 0 ==> cmp(a, c) < 0)
    && (cmp(a, b) < 0 && cmp(b, c) == 0 ==> cmp(a, c) < 0)
  }

  ghost predicate Sorted<K>(cmp: (K, K) -> int, s: seq<K>) {
    forall i, j :: 0 <= i < j < |s| ==> cmp(s[i], s[j]) < 0
  }

  ghost predicate AllBelow<K>(cmp: (K, K) -> int, s: seq<K>, k: K) {
    forall i :: 0 <= i < |s| ==> cmp(s[i], k) < 0
  }

  ghost predicate AllAbove<K>(cmp: (K, K) -> int, s: seq<K>, k: K) {
    forall i :: 0 <= i < |s| ==> cmp(k, s[i]) < 0
  }

  lemma SortedParts<K>(cmp: (K, K) -> int, a: seq<K>, m: K, b: seq<K>)
    requires Sorted(cmp, a + [m] + b)
    ensures Sorted(cmp, a) && Sorted(cmp, b) && AllBelow(cmp, a, m) && AllAbove(cmp, b, m)
  {
    var s := a + [m] + b;
    assert s[|a|] == m;
    assert forall i :: 0 <= i < |a| ==> s[i] == a[i];
    assert forall i :: 0 <= i < |b| ==> s[|a| + 1 + i] == b[i];
    forall i, j | 0 <= i < j < |a| ensures cmp(a[i], a[j]) < 0 { assert cmp(s[i], s[j]) < 0; }
    forall i, j | 0 <= i < j < |b| ensures cmp(b[i], b[j]) < 0 {
      assert cmp(s[|a| + 1 + i], s[|a| + 1 + j]) < 0;
    }
    forall i | 0 <= i < |a| ensures cmp(a[i], m) < 0 { assert cmp(s[i], s[|a|]) < 0; }
    forall i | 0 <= i < |b| ensures cmp(m, b[i]) < 0 { assert cmp(s[|a|], s[|a| + 1 + i]) < 0; }
  }

  /** A key below the middle element is below everything after it. */
  lemma BelowMiddle<K(!new)>(cmp: (K, K) -> int, a: seq<K>, m: K, b: seq<K>, k: K)
    requires IsOrder(cmp) && Sorted(cmp, a + [m] + b) && cmp(k, m) < 0
    ensures AllAbove(cmp, [m] + b, k)
  {
    SortedParts(cmp, a, m, b);
    forall i | 0 <= i < |b| ensures cmp(k, b[i]) < 0 { assert Consistent(cmp, k, m, b[i]); }
    assert forall i :: 0 < i < |[m] + b| ==> ([m] + b)[i] == b[i - 1];
  }

  /** A key above the middle element is above everything before it. */
  lemma AboveMiddle<K(!new)>(cmp: (K, K) -> int, a: seq<K>, m: K, b: seq<K>, k: K)
    requires IsOrder(cmp) && Sorted(cmp, a + [m] + b) && cmp(k, m) > 0
    ensures AllBelow(cmp, a + [m], k)
  {
    assert Consistent(cmp, m, k, m);
    SortedParts(cmp, a, m, b);
    forall i | 0 <= i < |a| ensures cmp(a[i], k) < 0 {
      assert Consistent(cmp, a[i], m, k);
    }
  }

  /** A key equal to the middle element is above what is before it and below what is after it. */
  lemma EqualMiddle<K(!new)>(cmp: (K, K) -> int, a: seq<K>, m: K, b: seq<K>, k: K)
    requires IsOrder(cmp) && Sorted(cmp, a + [m] + b) && cmp(k, m) == 0
    ensures AllBelow(cmp, a, k) && AllAbove(cmp, b, k)
  {
    SortedParts(cmp, a, m, b);
    assert Consistent(cmp, k, m, k) && Consistent(cmp, m, k, m);
    forall i | 0 <= i < |a| ensures cmp(a[i], k) < 0 { assert Consistent(cmp, a[i], m, k); }
    forall i | 0 <= i < |b| ensures cmp(k, b[i]) < 0 { assert Consistent(cmp, k, m, b[i]); }
  }

  lemma NotBoth<K(!new)>(cmp: (K, K) -> int, s: seq<K>, k: K)
    requires IsOrder(cmp) && AllBelow(cmp, s, k) && AllAbove(cmp, s, k)
    ensures s == []
  {
    if s != [] { Asymmetric(cmp, s[0], k); }
  }

  lemma Asymmetric<K(!new)>(cmp: (K, K) -> int, a: K, b: K)
    requires IsOrder(cmp)
    ensures !(cmp(a, b) < 0 && cmp(b, a) < 0)
  {
    assert Consistent(cmp, a, b, a);
  }

  lemma InsertSorted<K>(cmp: (K, K) -> int, a: seq<K>, k: K, b: seq<K>)
    requires Sorted(cmp, a + b) && AllBelow(cmp, a, k) && AllAbove(cmp, b, k)
    ensures Sorted(cmp, a + [k] + b)
  {
    var s, t := a + b, a + [k] + b;
    assert forall i :: 0 <= i < |a| ==> t[i] == a[i] == s[i];
    assert forall i :: |a| < i < |t| ==> t[i] == b[i - |a| - 1] == s[i - 1];
    forall i, j | 0 <= i < j < |t| ensures cmp(t[i], t[j]) < 0 {
      if i < |a| && |a| < j {
        assert cmp(s[i], s[j - 1]) < 0;
      } else if |a| < i {
        assert cmp(s[i - 1], s[j - 1]) < 0;
      }
    }
  }

  lemma RemoveSorted<K>(cmp: (K, K) -> int, a: seq<K>, k: K, b: seq<K>)
    requires Sorted(cmp, a + [k] + b)
    ensures Sorted(cmp, a + b)
  {
    var s, t := a + b, a + [k] + b;
    forall i, j | 0 <= i < j < |s| ensures cmp(s[i], s[j]) < 0 {
      var i', j' := if i < |a| then i else i + 1, if j < |a| then j else j + 1;
      assert s[i] == t[i'] && s[j] == t[j'];
    }
  }

  // ---------- The keys of nodes ----------

  ghost function KeysBy<N, K>(s: seq<N>, key: N -> K): (ks: seq<K>)
    ensures |ks| == |s| && forall i :: 0 <= i < |s| ==> ks[i] == key(s[i])
  {
    seq(|s|, i requires 0 <= i < |s| => key(s[i]))
  }

  lemma KeysConcat<N, K>(a: seq<N>, b: seq<N>, key: N -> K)
    ensures KeysBy(a + b, key) == KeysBy(a, key) + KeysBy(b, key)
  {
  }

  lemma KeysAround<N, K>(a: seq<N>, n: N, b: seq<N>, key: N -> K)
    ensures KeysBy(a + [n] + b, key) == KeysBy(a, key) + [key(n)] + KeysBy(b, key)
  {
  }

  /** Where keys ascend, no node occurs twice. */
  lemma SortedNoDuplicates<N, K(!new)>(cmp: (K, K) -> int, s: seq<N>, key: N -> K)
    requires IsOrder(cmp) && Sorted(cmp, KeysBy(s, key))
    ensures NoDuplicates(s)
  {
    var ks := KeysBy(s, key);
    forall i, j | 0 <= i < j < |s| ensures s[i] != s[j] {
      assert Consistent(cmp, ks[i], ks[i], ks[i]);
      assert cmp(ks[i], ks[j]) < 0;
    }
  }
}
