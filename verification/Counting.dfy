/** Counting and collecting over the threads of a system. */
module Counting {
  ghost function Count<T>(s: seq<T>, p: T -> bool): nat {
    if s == [] then 0 else (if p(s[0]) then 1 else 0) + Count(s[1..], p)
  }

  lemma {:induction false} CountUpdate<T>(s: seq<T>, i: nat, x: T, p: T -> bool)
    requires i < |s|
    ensures Count(s[i := x], p) == Count(s, p) - (if p(s[i]) then 1 else 0) + (if p(x) then 1 else 0)
  {
    if i == 0 {
      assert s[i := x][1..] == s[1..];
    } else {
      CountUpdate(s[1..], i - 1, x, p);
      assert s[i := x][1..] == s[1..][i - 1 := x];
    }
  }

  /** A count is positive exactly if some element is counted. */
  lemma {:induction false} CountPositive<T>(s: seq<T>, p: T -> bool)
    ensures Count(s, p) > 0 <==> exists i :: 0 <= i < |s| && p(s[i])
  {
    if s != [] {
      CountPositive(s[1..], p);
      if exists i :: 0 <= i < |s[1..]| && p(s[1..][i]) {
        var i :| 0 <= i < |s[1..]| && p(s[1..][i]);
        assert p(s[i + 1]);
      }
      if exists i :: 0 <= i < |s| && p(s[i]) {
        var i :| 0 <= i < |s| && p(s[i]);
        assert i == 0 || s[1..][i - 1] == s[i];
      }
    }
  }

  ghost function Total<T>(s: seq<T>, f: T -> nat): nat {
    if s == [] then 0 else f(s[0]) + Total(s[1..], f)
  }

  lemma {:induction false} TotalUpdate<T>(s: seq<T>, i: nat, x: T, f: T -> nat)
    requires i < |s|
    ensures Total(s[i := x], f) == Total(s, f) - f(s[i]) + f(x)
  {
    if i == 0 {
      assert s[i := x][1..] == s[1..];
    } else {
      TotalUpdate(s[1..], i - 1, x, f);
      assert s[i := x][1..] == s[1..][i - 1 := x];
    }
  }

  ghost function Gather<T, C>(s: seq<T>, f: T -> multiset<C>): multiset<C> {
    if s == [] then multiset{} else f(s[0]) + Gather(s[1..], f)
  }

  lemma {:induction false} GatherContains<T, C>(s: seq<T>, i: nat, f: T -> multiset<C>)
    requires i < |s|
    ensures f(s[i]) <= Gather(s, f)
  {
    if i > 0 { GatherContains(s[1..], i - 1, f); }
  }

  lemma {:induction false} GatherUpdate<T, C>(s: seq<T>, i: nat, x: T, f: T -> multiset<C>)
    requires i < |s|
    ensures Gather(s[i := x], f) + f(s[i]) == Gather(s, f) + f(x)
  {
    if i == 0 {
      assert s[i := x][1..] == s[1..];
      assert Gather(s[i := x], f) == f(x) + Gather(s[1..], f);
    } else {
      GatherUpdate(s[1..], i - 1, x, f);
      assert s[i := x][1..] == s[1..][i - 1 := x];
      var a, g, g' := f(s[0]), Gather(s[1..], f), Gather(s[1..][i - 1 := x], f);
      assert s[1..][i - 1] == s[i];
      assert g' + f(s[i]) == g + f(x);
      assert Gather(s[i := x], f) == a + g';
      Reassociate(a, g', f(s[i]), g, f(x));
    }
  }

  lemma Reassociate<C>(a: multiset<C>, b: multiset<C>, c: multiset<C>, d: multiset<C>, e: multiset<C>)
    requires b + c == d + e
    ensures (a + b) + c == (a + d) + e
  {
    assert (a + b) + c == a + (b + c);
    assert (a + d) + e == a + (d + e);
  }

  lemma {:induction false} GatherTwo<T, C>(s: seq<T>, i: nat, j: nat, f: T -> multiset<C>)
    requires i < j < |s|
    ensures f(s[i]) + f(s[j]) <= Gather(s, f)
  {
    if i == 0 {
      GatherContains(s[1..], j - 1, f);
    } else {
      GatherTwo(s[1..], i - 1, j - 1, f);
    }
  }

  lemma {:induction false} CountBelow<T>(s: seq<T>, i: nat, p: T -> bool)
    requires i < |s| && !p(s[i])
    ensures Count(s, p) < |s|
  {
    if i > 0 { CountBelow(s[1..], i - 1, p); } else { CountAtMost(s[1..], p); }
  }

  lemma {:induction false} CountAtMost<T>(s: seq<T>, p: T -> bool)
    ensures Count(s, p) <= |s|
  {
    if s != [] { CountAtMost(s[1..], p); }
  }

  /** If every element yields one item or none, the items are as many as the elements that yield one. */
  lemma {:induction false} GatherSize<T, C>(s: seq<T>, f: T -> multiset<C>, p: T -> bool)
    requires forall i :: 0 <= i < |s| ==> |f(s[i])| == if p(s[i]) then 1 else 0
    ensures |Gather(s, f)| == Count(s, p)
  {
    if s != [] {
      assert forall i :: 0 <= i < |s[1..]| ==> s[1..][i] == s[i + 1];
      GatherSize(s[1..], f, p);
    }
  }

  lemma {:induction false} CountNone<T>(s: seq<T>, p: T -> bool)
    requires forall i :: 0 <= i < |s| ==> !p(s[i])
    ensures Count(s, p) == 0
  {
    CountPositive(s, p);
  }

  lemma {:induction false} GatherNone<T, C>(s: seq<T>, f: T -> multiset<C>)
    requires forall i :: 0 <= i < |s| ==> f(s[i]) == multiset{}
    ensures Gather(s, f) == multiset{}
  {
    if s != [] {
      assert forall i :: 0 <= i < |s[1..]| ==> s[1..][i] == s[i + 1];
      GatherNone(s[1..], f);
    }
  }

  lemma CancelSum<T>(a: multiset<T>, b: multiset<T>, c: multiset<T>)
    requires a + c == b + c
    ensures a == b
  {
    assert a == (a + c) - c && b == (b + c) - c;
  }

  // Moving one thread changes what is gathered over the threads by what that thread gains and loses.

  lemma GatherSame<T, X>(ts: seq<T>, i: nat, t: T, f: T -> multiset<X>)
    requires i < |ts| && f(t) == f(ts[i])
    ensures Gather(ts[i := t], f) == Gather(ts, f)
  {
    GatherUpdate(ts, i, t, f);
    CancelSum(Gather(ts[i := t], f), Gather(ts, f), f(t));
  }

  lemma GatherGains<T, X>(ts: seq<T>, i: nat, t: T, f: T -> multiset<X>, x: X)
    requires i < |ts| && f(ts[i]) == multiset{} && f(t) == multiset{x}
    ensures Gather(ts[i := t], f) == Gather(ts, f) + multiset{x}
  {
    GatherUpdate(ts, i, t, f);
  }

  lemma GatherLoses<T, X>(ts: seq<T>, i: nat, t: T, f: T -> multiset<X>, x: X)
    requires i < |ts| && f(ts[i]) == multiset{x} && f(t) == multiset{}
    ensures Gather(ts[i := t], f) + multiset{x} == Gather(ts, f)
  {
    GatherUpdate(ts, i, t, f);
  }
}
