/** Sequences without repetition, and what is left of one when an element is taken out. */
module Sequences {
  ghost predicate NoDuplicates<T>(s: seq<T>) {
    forall i, j :: 0 <= i < j < |s| ==> s[i] != s[j]
  }

  /** Without element number `i`. */
  ghost function Cut<T>(s: seq<T>, i: nat): seq<T>
    requires i < |s|
  {
    s[..i] + s[i + 1..]
  }

  lemma CutNoDuplicates<T>(s: seq<T>, i: nat)
    requires i < |s| && NoDuplicates(s)
    ensures NoDuplicates(Cut(s, i)) && s[i] !in Cut(s, i)
  {
    var c := Cut(s, i);
    assert forall j :: 0 <= j < |c| ==> c[j] == s[if j < i then j else j + 1];
  }

  lemma Behead<T>(s: seq<T>)
    requires s != [] && NoDuplicates(s)
    ensures NoDuplicates(s[1..]) && s[0] !in s[1..]
    ensures (set x | x in s) == (set x | x in s[1..]) + {s[0]}
  {
    assert s == [s[0]] + s[1..];
    assert forall i :: 0 <= i < |s| - 1 ==> s[1..][i] == s[i + 1];
  }

  lemma {:induction false} SetSize<T>(s: seq<T>)
    requires NoDuplicates(s)
    ensures |set x | x in s| == |s|
  {
    if s != [] {
      Behead(s);
      SetSize(s[1..]);
    }
  }
}
