/**
 What the LRU cache of algo/Ya_10.cpp should hold: once as a sequence ordered by recency, and
 once from the history of calls alone.
 */
module LruSpec {
  import opened Sequences

  datatype Entry = Entry(key: int, value: int)

  datatype Op = Get(key: int) | Put(key: int, value: int)

  // ---------- A sequence of entries, most recently used first ----------

  ghost function Keys(es: seq<Entry>): seq<int> {
    seq(|es|, i requires 0 <= i < |es| => es[i].key)
  }

  ghost function Without(es: seq<Entry>, k: int): seq<Entry> {
    if es == [] then [] else if es[0].key == k then Without(es[1..], k) else [es[0]] + Without(es[1..], k)
  }

  /** The value stored under a key, or -1. */
  ghost function Lookup(es: seq<Entry>, k: int): int {
    if es == [] then -1 else if es[0].key == k then es[0].value else Lookup(es[1..], k)
  }

  ghost function Room(capacity: int): nat {
    if capacity < 0 then 0 else capacity
  }

  ghost function AfterGet(es: seq<Entry>, k: int): seq<Entry> {
    if k in Keys(es) then [Entry(k, Lookup(es, k))] + Without(es, k) else es
  }

  ghost function AfterPut(capacity: int, es: seq<Entry>, k: int, v: int): seq<Entry> {
    Take([Entry(k, v)] + Without(es, k), Room(capacity))
  }

  ghost function Take<T>(s: seq<T>, n: nat): seq<T> {
    if |s| <= n then s else s[..n]
  }

  ghost function After(capacity: int, es: seq<Entry>, op: Op): seq<Entry> {
    match op
    case Get(k) => AfterGet(es, k)
    case Put(k, v) => AfterPut(capacity, es, k, v)
  }

  ghost function Contents(capacity: int, history: seq<Op>): seq<Entry> {
    if history == [] then [] else
    var n := |history| - 1;
    After(capacity, Contents(capacity, history[..n]), history[n])
  }

  lemma Extend(capacity: int, history: seq<Op>, op: Op)
    ensures Contents(capacity, history + [op]) == After(capacity, Contents(capacity, history), op)
  {
    assert (history + [op])[..|history|] == history;
  }

  // ---------- The same from the history alone ----------

  ghost function Minus(ks: seq<int>, k: int): seq<int> {
    if ks == [] then [] else if ks[0] == k then Minus(ks[1..], k) else [ks[0]] + Minus(ks[1..], k)
  }

  /** The keys of a sequence without repetitions, by first occurrence. */
  ghost function Firsts(ks: seq<int>): seq<int> {
    if ks == [] then [] else [ks[0]] + Minus(Firsts(ks[1..]), ks[0])
  }

  /** The first `Room(capacity)` different keys among the touches, latest touch first. */
  ghost function Recent(capacity: int, touches: seq<int>): seq<int> {
    Take(Firsts(touches), Room(capacity))
  }

  /** The keys touched by a history, latest first: every put, and every get of a recent key. */
  ghost function Touches(capacity: int, history: seq<Op>): seq<int> {
    if history == [] then [] else
    var n := |history| - 1;
    var before, op := Touches(capacity, history[..n]), history[n];
    if op.Put? || op.key in Recent(capacity, before) then [op.key] + before else before
  }

  /** The value of the last put of a key. */
  ghost function LatestPut(history: seq<Op>, k: int): int {
    if history == [] then -1 else
    var n := |history| - 1;
    if history[n].Put? && history[n].key == k then history[n].value else LatestPut(history[..n], k)
  }

  // ---------- They agree ----------

  lemma {:induction false} WithoutKeys(es: seq<Entry>, k: int)
    ensures Keys(Without(es, k)) == Minus(Keys(es), k)
  {
    if es != [] {
      assert Keys(es)[1..] == Keys(es[1..]);
      WithoutKeys(es[1..], k);
      if es[0].key != k {
        assert Keys([es[0]] + Without(es[1..], k)) == [es[0].key] + Keys(Without(es[1..], k));
      }
    }
  }

  lemma {:induction false} MinusAbsent(ks: seq<int>, k: int)
    requires k !in ks
    ensures Minus(ks, k) == ks
  {
    if ks != [] { MinusAbsent(ks[1..], k); }
  }

  lemma {:induction false} MinusMember(ks: seq<int>, k: int, x: int)
    ensures x in Minus(ks, k) <==> x in ks && x != k
    ensures |Minus(ks, k)| <= |ks|
  {
    if ks != [] { MinusMember(ks[1..], k, x); }
  }

  lemma {:induction false} MinusNoDuplicates(ks: seq<int>, k: int)
    requires NoDuplicates(ks)
    ensures NoDuplicates(Minus(ks, k))
  {
    if ks != [] {
      MinusNoDuplicates(ks[1..], k);
      MinusMember(ks[1..], k, ks[0]);
    }
  }

  lemma {:induction false} FirstsNoDuplicates(ks: seq<int>)
    ensures NoDuplicates(Firsts(ks))
  {
    if ks != [] {
      FirstsNoDuplicates(ks[1..]);
      MinusNoDuplicates(Firsts(ks[1..]), ks[0]);
      MinusMember(Firsts(ks[1..]), ks[0], ks[0]);
    }
  }

  /** Removing a key from a sequence without repetitions, before or after cutting it short. */
  lemma {:induction false} MinusTake(f: seq<int>, k: int, n: nat)
    requires NoDuplicates(f) && n > 0
    ensures Take(Minus(f, k), n - 1) == Take(Minus(Take(f, n), k), n - 1)
  {
    if f != [] {
      var x, t := f[0], f[1..];
      var u := Take(t, n - 1);
      assert f == [x] + t;
      TakeCons(x, t, n);
      MinusCons(x, t, k);
      MinusCons(x, u, k);
      if x == k {
        assert k !in t && k !in u;
        MinusAbsent(t, k);
        MinusAbsent(u, k);
      } else {
        if n > 1 { MinusTake(t, k, n - 1); }
        TakeCons(x, Minus(t, k), n - 1);
        TakeCons(x, Minus(u, k), n - 1);
      }
    }
  }

  lemma MinusCons(x: int, s: seq<int>, k: int)
    ensures Minus([x] + s, k) == if x == k then Minus(s, k) else [x] + Minus(s, k)
  {
    assert ([x] + s)[1..] == s;
  }

  lemma TakeCons(x: int, s: seq<int>, n: nat)
    ensures Take([x] + s, n) == if n == 0 then [] else [x] + Take(s, n - 1)
  {
  }

  lemma {:induction false} MinusShorter(ks: seq<int>, k: int)
    requires k in ks
    ensures |Minus(ks, k)| < |ks|
  {
    if ks[0] == k { MinusMember(ks[1..], k, k); } else { MinusShorter(ks[1..], k); }
  }

  lemma {:induction false} WithoutMember(es: seq<Entry>, k: int, e: Entry)
    ensures e in Without(es, k) <==> e in es && e.key != k
  {
    if es != [] { WithoutMember(es[1..], k, e); }
  }

  lemma {:induction false} LookupMember(es: seq<Entry>, k: int)
    requires k in Keys(es)
    ensures Entry(k, Lookup(es, k)) in es
  {
    assert Keys(es)[1..] == Keys(es[1..]);
    if es[0].key != k { LookupMember(es[1..], k); }
  }

  lemma ConsKeys(e: Entry, es: seq<Entry>, n: nat)
    ensures Keys([e] + es) == [e.key] + Keys(es) && Keys(Take(es, n)) == Take(Keys(es), n)
  {
  }

  /** Touching a key, on the recency sequence and on the touches. */
  lemma TouchKeys(capacity: int, touches: seq<int>, k: int)
    ensures var n, ks := Room(capacity), Recent(capacity, touches);
      Recent(capacity, [k] + touches) == Take([k] + Minus(ks, k), n)
  {
    var n, f := Room(capacity), Firsts(touches);
    assert ([k] + touches)[1..] == touches;
    FirstsNoDuplicates(touches);
    TakeCons(k, Minus(f, k), n);
    TakeCons(k, Minus(Take(f, n), k), n);
    if n > 0 { MinusTake(f, k, n); }
  }

  /** The cache holds exactly the most recently touched keys, in that order. */
  lemma {:induction false} ContentsKeys(capacity: int, history: seq<Op>)
    ensures Keys(Contents(capacity, history)) == Recent(capacity, Touches(capacity, history))
  {
    if history != [] {
      var n := |history| - 1;
      var es, t, op := Contents(capacity, history[..n]), Touches(capacity, history[..n]), history[n];
      var k := op.key;
      ContentsKeys(capacity, history[..n]);
      WithoutKeys(es, k);
      TouchKeys(capacity, t, k);
      if op.Put? {
        ConsKeys(Entry(k, op.value), Without(es, k), 0);
        ConsKeys(Entry(k, op.value), [Entry(k, op.value)] + Without(es, k), Room(capacity));
      } else if k in Keys(es) {
        ConsKeys(Entry(k, Lookup(es, k)), Without(es, k), 0);
        MinusShorter(Keys(es), k);
      }
    }
  }

  /** Every entry carries the value of the last put of its key. */
  lemma {:induction false} ContentsValues(capacity: int, history: seq<Op>, e: Entry)
    requires e in Contents(capacity, history)
    ensures e.value == LatestPut(history, e.key)
  {
    var n := |history| - 1;
    var es, op := Contents(capacity, history[..n]), history[n];
    WithoutMember(es, op.key, e);
    if op.Get? && op.key in Keys(es) && e == Entry(op.key, Lookup(es, op.key)) {
      LookupMember(es, op.key);
      ContentsValues(capacity, history[..n], e);
    } else if e in Without(es, op.key) || op.Get? {
      ContentsValues(capacity, history[..n], e);
    }
  }

  /**
   After any history, the cache is the sequence of the `Room(capacity)` keys touched last,
   latest first, each with the value of its last put.
   */
  lemma HistoryDetermines(capacity: int, history: seq<Op>)
    ensures var es, ks := Contents(capacity, history), Recent(capacity, Touches(capacity, history));
      es == seq(|ks|, i requires 0 <= i < |ks| => Entry(ks[i], LatestPut(history, ks[i])))
  {
    var es, ks := Contents(capacity, history), Recent(capacity, Touches(capacity, history));
    ContentsKeys(capacity, history);
    assert |es| == |Keys(es)|;
    forall i | 0 <= i < |es| ensures es[i] == Entry(ks[i], LatestPut(history, ks[i])) {
      assert Keys(es)[i] == es[i].key;
      ContentsValues(capacity, history, es[i]);
    }
  }

  /** What get() answers after any history, without reference to the cache. */
  lemma GetAnswer(capacity: int, history: seq<Op>, k: int)
    ensures Lookup(Contents(capacity, history), k) ==
            if k in Recent(capacity, Touches(capacity, history)) then LatestPut(history, k) else -1
  {
    var es := Contents(capacity, history);
    ContentsKeys(capacity, history);
    if k in Keys(es) {
      LookupMember(es, k);
      ContentsValues(capacity, history, Entry(k, Lookup(es, k)));
    } else {
      LookupAbsent(es, k);
    }
  }

  lemma {:induction false} LookupAbsent(es: seq<Entry>, k: int)
    requires k !in Keys(es)
    ensures Lookup(es, k) == -1
  {
    if es != [] {
      assert Keys(es)[0] == es[0].key && Keys(es)[1..] == Keys(es[1..]);
      LookupAbsent(es[1..], k);
    }
  }

  /** In a sequence without repeated keys, one entry can be picked out by its key. */
  lemma {:induction false} PickOut(es: seq<Entry>, i: nat)
    requires i < |es| && NoDuplicates(Keys(es))
    ensures Without(es, es[i].key) == es[..i] + es[i + 1..] && Lookup(es, es[i].key) == es[i].value
    ensures es[i].key in Keys(es)
  {
    var ks := Keys(es);
    assert ks[i] == es[i].key && ks[0] == es[0].key && ks[1..] == Keys(es[1..]);
    if i == 0 {
      WithoutAbsent(es[1..], es[0].key);
    } else {
      PickOut(es[1..], i - 1);
      assert es[..i] == [es[0]] + es[1..][..i - 1];
      assert es[i + 1..] == es[1..][i..];
    }
  }

  lemma {:induction false} WithoutAbsent(es: seq<Entry>, k: int)
    requires k !in Keys(es)
    ensures Without(es, k) == es
  {
    if es != [] {
      assert Keys(es)[0] == es[0].key && Keys(es)[1..] == Keys(es[1..]);
      WithoutAbsent(es[1..], k);
    }
  }

  lemma ContentsFit(capacity: int, history: seq<Op>)
    ensures |Contents(capacity, history)| <= Room(capacity)
  {
    ContentsKeys(capacity, history);
    assert |Keys(Contents(capacity, history))| == |Contents(capacity, history)|;
  }

  // ---------- How much the cache holds ----------

  ghost function PutKeys(history: seq<Op>): set<int> {
    set i | 0 <= i < |history| && history[i].Put? :: history[i].key
  }

  /** Nothing without a positive capacity; else every key ever put, or as many as the capacity allows. */
  ghost function Holding(capacity: int, history: seq<Op>): nat {
    if capacity <= 0 then 0 else if |PutKeys(history)| < capacity then |PutKeys(history)| else capacity
  }

  lemma {:induction false} FirstsMember(ks: seq<int>, k: int)
    ensures k in Firsts(ks) <==> k in ks
  {
    if ks != [] {
      FirstsMember(ks[1..], k);
      MinusMember(Firsts(ks[1..]), ks[0], k);
    }
  }

  /** Only keys that were put are ever touched, and those all are. */
  lemma {:induction false} TouchedArePut(capacity: int, history: seq<Op>, k: int)
    ensures k in Touches(capacity, history) <==> k in PutKeys(history)
  {
    if history != [] {
      var n := |history| - 1;
      var op, before := history[n], history[..n];
      TouchedArePut(capacity, before, k);
      assert history == before + [op];
      assert PutKeys(history) == PutKeys(before) + (if op.Put? then {op.key} else {}) by {
        assert forall i :: 0 <= i < n ==> before[i] == history[i];
      }
      if op.Get? && op.key == k {
        FirstsMember(Touches(capacity, before), k);
      }
    }
  }

  /** The number of entries, from the capacity and the keys put alone. */
  lemma ContentsSize(capacity: int, history: seq<Op>)
    ensures |Contents(capacity, history)| == Holding(capacity, history)
  {
    var ts := Touches(capacity, history);
    ContentsKeys(capacity, history);
    assert |Keys(Contents(capacity, history))| == |Contents(capacity, history)|;
    FirstsNoDuplicates(ts);
    SetSize(Firsts(ts));
    assert (set k | k in Firsts(ts)) == PutKeys(history) by {
      forall k ensures k in Firsts(ts) <==> k in PutKeys(history) {
        FirstsMember(ts, k);
        TouchedArePut(capacity, history, k);
      }
    }
  }
}
