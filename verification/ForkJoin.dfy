/**
 The sum of squares of process/multi_thread_cal.cpp: the range 0..maxV is split among threads,
 each sums up its part and adds it to the global sum under a mutex.
 */
module ForkJoin {
  import opened Counting
  import opened Options

  /** The sum of i * i for lo <= i <= hi. */
  ghost function Squares(lo: int, hi: int): nat
    decreases hi - lo + 1
  {
    if lo > hi then 0 else
    assert hi * hi >= 0;
    Squares(lo, hi - 1) + hi * hi
  }

  /** worker(): adds the squares of a range to the sum. */
  method Worker(sum0: int, minV: int, maxV: int) returns (sum: int)
    ensures sum == sum0 + Squares(minV, maxV)
  {
    sum := sum0;
    var i := minV;
    while i <= maxV
      invariant minV <= i && (i <= maxV + 1 || i == minV)
      invariant sum == sum0 + Squares(minV, i - 1)
    {
      sum := sum + i * i;
      i := i + 1;
    }
  }

  lemma {:induction false} SquaresSplit(lo: int, mid: int, hi: int)
    requires lo <= mid <= hi + 1
    ensures Squares(lo, mid - 1) + Squares(mid, hi) == Squares(lo, hi)
    decreases hi - mid + 1
  {
    if mid <= hi { SquaresSplit(lo, mid, hi - 1); }
  }

  lemma SquaresPositive(lo: int, hi: int)
    requires 0 < lo <= hi
    ensures Squares(lo, hi) > 0
  {
    assert hi * hi > 0;
  }

  // ---------- The split ----------

  /** The part of the numbers that a thread sums up, both ends included. */
  datatype Range = Range(lo: int, hi: int)

  ghost function Share(r: Range): nat {
    Squares(r.lo, r.hi)
  }

  ghost predicate Stepwise(ranges: seq<Range>, width: int) {
    forall t :: 0 <= t < |ranges| ==> ranges[t] == Range(t * width, t * width + (width - 1))
  }

  /** All parts have the same width, except the last, which ends at maxV. */
  ghost predicate IsSplit(ranges: seq<Range>, maxV: nat, threads: nat) {
    && threads >= 1 && |ranges| == threads && Stepwise(ranges[..threads - 1], maxV / threads + 1)
    && ranges[threads - 1] == Range((threads - 1) * (maxV / threads + 1), maxV)
  }

  /** The loop of concurrent_task() that starts `threads` threads. */
  method Split(maxV: nat, threads: nat) returns (ranges: seq<Range>)
    requires threads >= 1
    ensures IsSplit(ranges, maxV, threads)
  {
    ranges := [];
    var minV := 0;
    var range := maxV / threads;
    var t := 0;
    while t < threads
      invariant 0 <= t <= threads && |ranges| == t
      invariant t < threads ==> minV == t * (range + 1) && Stepwise(ranges, range + 1)
      invariant t == threads ==> Stepwise(ranges[..t - 1], range + 1) && ranges[t - 1] == Range((t - 1) * (range + 1), maxV)
    {
      if t < threads - 1 {
        ranges := ranges + [Range(minV, minV + range)];
        minV := minV + (range + 1);
        assert (t + 1) * (range + 1) == t * (range + 1) + (range + 1);
      } else {
        ghost var before := ranges;
        ranges := ranges + [Range(minV, maxV)];
        assert ranges[..t] == before;
      }
      t := t + 1;
    }
  }

  lemma {:induction false} TotalAppend<T>(s: seq<T>, x: T, f: T -> nat)
    ensures Total(s + [x], f) == Total(s, f) + f(x)
  {
    if s != [] {
      TotalAppend(s[1..], x, f);
      assert (s + [x])[1..] == s[1..] + [x];
    } else {
      assert (s + [x])[1..] == [];
    }
  }

  /** Equal consecutive parts add up to one range. */
  lemma {:induction false} StepwiseTotal(ranges: seq<Range>, width: int)
    requires width > 0 && Stepwise(ranges, width)
    ensures Total(ranges, Share) == Squares(0, |ranges| * width - 1)
  {
    var n := |ranges|;
    if n > 0 {
      var init := ranges[..n - 1];
      StepwiseTotal(init, width);
      assert ranges == init + [ranges[n - 1]];
      TotalAppend(init, ranges[n - 1], Share);
      assert n * width == (n - 1) * width + width;
      NonNegative(n - 1, width);
      SquaresSplit(0, (n - 1) * width, n * width - 1);
    }
  }

  lemma NonNegative(a: int, b: int)
    requires a >= 0 && b >= 0
    ensures a * b >= 0
  {
  }

  /** The last part begins at or before the end of the numbers. */
  ghost predicate Fits(maxV: nat, threads: nat)
    requires threads >= 1
  {
    threads <= maxV / threads + maxV % threads + 2
  }

  lemma FitsMeans(maxV: nat, threads: nat)
    requires threads >= 1
    ensures Fits(maxV, threads) <==> (threads - 1) * (maxV / threads + 1) <= maxV + 1
  {
    var r := maxV / threads;
    assert maxV == threads * r + maxV % threads;
    assert (threads - 1) * (r + 1) == threads * r + threads - r - 1;
  }

  /** The number behind the last one that a part of equal width takes in. */
  ghost function Reach(maxV: nat, threads: nat): int
    requires threads >= 1
  {
    (threads - 1) * (maxV / threads + 1)
  }

  lemma SplitParts(ranges: seq<Range>, maxV: nat, threads: nat)
    requires IsSplit(ranges, maxV, threads)
    ensures var start := Reach(maxV, threads);
      0 <= start && Total(ranges, Share) == Squares(0, start - 1) + Squares(start, maxV)
  {
    var width, last := maxV / threads + 1, threads - 1;
    NonNegative(last, width);
    StepwiseTotal(ranges[..last], width);
    assert ranges == ranges[..last] + [ranges[last]];
    TotalAppend(ranges[..last], ranges[last], Share);
  }

  /** Whatever the number of threads, the parts take in 0..maxV and what the equal parts have beyond. */
  lemma SplitTotal(ranges: seq<Range>, maxV: nat, threads: nat)
    requires IsSplit(ranges, maxV, threads)
    ensures Total(ranges, Share) == Squares(0, maxV) + Squares(maxV + 1, Reach(maxV, threads) - 1)
  {
    var start := Reach(maxV, threads);
    SplitParts(ranges, maxV, threads);
    if start <= maxV + 1 {
      SquaresSplit(0, start, maxV);
    } else {
      SquaresSplit(0, maxV + 1, start - 1);
    }
  }

  /**
   The parts add up to the serial sum exactly if the threads are few enough for the numbers;
   otherwise the parts run past maxV and the sum is too large.
   */
  lemma SplitExact(ranges: seq<Range>, maxV: nat, threads: nat)
    requires IsSplit(ranges, maxV, threads)
    ensures Total(ranges, Share) == Squares(1, maxV) <==> Fits(maxV, threads)
    ensures Total(ranges, Share) >= Squares(1, maxV)
  {
    SplitTotal(ranges, maxV, threads);
    SquaresSplit(0, 1, maxV);
    assert Squares(0, 0) == Squares(0, -1) + 0;
    FitsMeans(maxV, threads);
    if !Fits(maxV, threads) {
      SquaresPositive(maxV + 1, Reach(maxV, threads) - 1);
    }
  }

  lemma {:induction false} Mirror(n: int)
    requires n >= 0
    ensures Squares(-n, -1) == Squares(1, n)
  {
    if n > 0 {
      Mirror(n - 1);
      SquaresSplit(-n, -n + 1, -1);
      assert Squares(-n, -n) == Squares(-n, -n - 1) + n * n by { assert (-n) * (-n) == n * n; }
    }
  }

  /**
   The lower bound that the caller passes is not used. From a bound of 0 or more, the result is
   the sum that was asked for exactly if the split fits and no square was to be left out; from a
   negative bound, only if the squares beyond maxV happen to make up for those below 0.
   */
  lemma LowerBoundIgnored(ranges: seq<Range>, maxV: nat, threads: nat, minV: int)
    requires IsSplit(ranges, maxV, threads)
    ensures minV >= 0 ==>
      (Total(ranges, Share) == Squares(minV, maxV) <==> Fits(maxV, threads) && (minV <= 1 || maxV == 0))
    ensures minV < 0 ==>
      (Total(ranges, Share) == Squares(minV, maxV) <==> Squares(maxV + 1, Reach(maxV, threads) - 1) == Squares(1, -minV))
    ensures minV < 0 && Fits(maxV, threads) ==> Total(ranges, Share) < Squares(minV, maxV)
  {
    SplitTotal(ranges, maxV, threads);
    SplitExact(ranges, maxV, threads);
    FitsMeans(maxV, threads);
    assert Squares(0, 0) == Squares(0, -1) + 0;
    SquaresSplit(0, 1, maxV);
    if minV < 0 {
      SquaresSplit(minV, 0, maxV);
      Mirror(-minV);
      SquaresPositive(1, -minV);
    } else if 1 < minV && 0 < maxV {
      SquaresFrom(minV, maxV);
    }
  }

  /** Leaving out the square of 1 makes a difference. */
  lemma SquaresFrom(minV: int, maxV: int)
    requires 1 < minV && 0 < maxV
    ensures Squares(minV, maxV) < Squares(1, maxV)
  {
    if minV <= maxV + 1 {
      SquaresSplit(1, minV, maxV);
      SquaresPositive(1, minV - 1);
    } else {
      SquaresPositive(1, maxV);
    }
  }

  /** Asked for 2..3 with one thread, the program answers 14 instead of 13. */
  lemma LowerBoundWitness(ranges: seq<Range>)
    requires IsSplit(ranges, 3, 1)
    ensures Total(ranges, Share) == 14 && Squares(2, 3) == 13
  {
    assert ranges == [Range(0, 3)];
    assert Squares(0, 3) == 14 && Squares(2, 3) == 13 by {
      assert Squares(0, 0) == 0 && Squares(0, 1) == 1 && Squares(0, 2) == 5;
      assert Squares(2, 2) == 4;
    }
  }

  // ---------- The additions under the mutex ----------

  /** sum += tmp, taken apart into its read and its write. */
  datatype Pc = Summed | Locked | Loaded(value: int) | Stored | Finished

  datatype Thread = Thread(pc: Pc, tmp: nat)

  datatype State = State(threads: seq<Thread>, owner: Option<nat>, sum: int)

  ghost predicate CanStep(s: State, t: nat) {
    t < |s.threads| && match s.threads[t].pc
      case Summed => s.owner.None?
      case Finished => false
      case _ => true
  }

  ghost function To(s: State, t: nat, pc: Pc): State
    requires t < |s.threads|
  {
    s.(threads := s.threads[t := s.threads[t].(pc := pc)])
  }

  ghost function Step(s: State, t: nat): State
    requires CanStep(s, t)
  {
    match s.threads[t].pc
    case Summed => To(s, t, Locked).(owner := Some(t))
    case Locked => To(s, t, Loaded(s.sum))
    case Loaded(v) => To(s, t, Stored).(sum := v + s.threads[t].tmp)
    case Stored => To(s, t, Finished).(owner := None)
    case Finished => s
  }

  ghost predicate CanRun(s: State, order: seq<nat>)
    decreases order
  {
    order == [] || (CanStep(s, order[0]) && CanRun(Step(s, order[0]), order[1..]))
  }

  ghost function Run(s: State, order: seq<nat>): State
    requires CanRun(s, order)
    decreases order
  {
    if order == [] then s else Run(Step(s, order[0]), order[1..])
  }

  /** All threads have computed their share; nothing is added yet. */
  ghost function Start(ranges: seq<Range>): (s: State)
    ensures |s.threads| == |ranges|
    ensures forall t :: 0 <= t < |ranges| ==> s.threads[t] == Thread(Summed, Share(ranges[t]))
  {
    State(seq(|ranges|, t requires 0 <= t < |ranges| => Thread(Summed, Share(ranges[t]))), None, 0)
  }

  ghost predicate InSection(pc: Pc) {
    pc.Locked? || pc.Loaded? || pc.Stored?
  }

  /** What a thread has not added yet. */
  ghost function Pending(t: Thread): nat {
    if t.pc.Stored? || t.pc.Finished? then 0 else t.tmp
  }

  ghost predicate Inv(s: State, total: nat) {
    && (s.owner.Some? ==> s.owner.value < |s.threads|)
    && (forall t :: 0 <= t < |s.threads| ==> (InSection(s.threads[t].pc) <==> s.owner == Some(t)))
    && (forall t :: 0 <= t < |s.threads| ==> s.threads[t].pc.Loaded? ==> s.threads[t].pc.value == s.sum)
    && s.sum + Total(s.threads, Pending) == total
  }

  lemma InvKept(s: State, t: nat, total: nat)
    requires Inv(s, total) && CanStep(s, t)
    ensures Inv(Step(s, t), total)
  {
    TotalUpdate(s.threads, t, Step(s, t).threads[t], Pending);
  }

  lemma {:induction false} RunKeeps(s: State, order: seq<nat>, total: nat)
    requires Inv(s, total) && CanRun(s, order)
    ensures Inv(Run(s, order), total)
    decreases order
  {
    if order != [] {
      InvKept(s, order[0], total);
      RunKeeps(Step(s, order[0]), order[1..], total);
    }
  }

  lemma {:induction false} StartTotal(ranges: seq<Range>)
    ensures Total(Start(ranges).threads, Pending) == Total(ranges, Share)
  {
    if ranges != [] {
      StartTotal(ranges[1..]);
      assert Start(ranges).threads[1..] == Start(ranges[1..]).threads;
    }
  }

  /** Every thread can be joined. */
  ghost predicate AllFinished(threads: seq<Thread>) {
    forall t :: 0 <= t < |threads| ==> threads[t].pc.Finished?
  }

  lemma {:induction false} NothingPending(threads: seq<Thread>)
    requires AllFinished(threads)
    ensures Total(threads, Pending) == 0
  {
    if threads != [] { NothingPending(threads[1..]); }
  }

  /** In every order of the locked additions, the threads leave the sum of their shares. */
  lemma EveryOrder(ranges: seq<Range>, order: seq<nat>)
    requires CanRun(Start(ranges), order)
    requires AllFinished(Run(Start(ranges), order).threads)
    ensures Run(Start(ranges), order).sum == Total(ranges, Share)
  {
    StartTotal(ranges);
    RunKeeps(Start(ranges), order, Total(ranges, Share));
    NothingPending(Run(Start(ranges), order).threads);
  }

  /** How many steps a thread still has to take. */
  ghost function Left(t: Thread): nat {
    match t.pc case Summed => 4 case Locked => 3 case Loaded(_) => 2 case Stored => 1 case Finished => 0
  }

  lemma {:induction false} StepsTaken(s: State, order: seq<nat>)
    requires CanRun(s, order)
    ensures |order| + Total(Run(s, order).threads, Left) == Total(s.threads, Left)
    ensures |Run(s, order).threads| == |s.threads|
    decreases order
  {
    if order != [] {
      var s' := Step(s, order[0]);
      TotalUpdate(s.threads, order[0], s'.threads[order[0]], Left);
      StepsTaken(s', order[1..]);
    }
  }

  lemma {:induction false} StartLeft(ranges: seq<Range>)
    ensures Total(Start(ranges).threads, Left) == 4 * |ranges|
  {
    if ranges != [] {
      StartLeft(ranges[1..]);
      assert Start(ranges).threads[1..] == Start(ranges[1..]).threads;
    }
  }

  /** No thread can go on. */
  ghost predicate Ended(s: State) {
    forall t :: 0 <= t < |s.threads| ==> !CanStep(s, t)
  }

  /** Whoever has the mutex, or else any thread that is not finished, can go on. */
  lemma SomeoneSteps(s: State, total: nat)
    requires Inv(s, total)
    ensures AllFinished(s.threads) <==> Ended(s)
  {
    if s.owner.Some? {
      assert CanStep(s, s.owner.value);
    } else if t :| 0 <= t < |s.threads| && !s.threads[t].pc.Finished? {
      assert CanStep(s, t);
    }
  }

  /**
   Every schedule takes at most four steps for each thread, and one that cannot go on has let
   every thread finish: the joins return.
   */
  lemma JoinsReturn(ranges: seq<Range>, order: seq<nat>)
    requires CanRun(Start(ranges), order)
    ensures |order| <= 4 * |ranges|
    ensures AllFinished(Run(Start(ranges), order).threads) <==> Ended(Run(Start(ranges), order))
  {
    StepsTaken(Start(ranges), order);
    StartLeft(ranges);
    StartTotal(ranges);
    RunKeeps(Start(ranges), order, Total(ranges, Share));
    SomeoneSteps(Run(Start(ranges), order), Total(ranges, Share));
  }

  /**
   Every run that has ended leaves the sum over minV..maxV that the caller asked for, exactly
   if the split fits and the lower bound leaves no square out.
   */
  lemma ConcurrentIsSerial(minV: nat, maxV: nat, count: nat, ranges: seq<Range>, order: seq<nat>)
    requires IsSplit(ranges, maxV, count) && CanRun(Start(ranges), order) && Ended(Run(Start(ranges), order))
    ensures Run(Start(ranges), order).sum == Squares(minV, maxV) <==> Fits(maxV, count) && (minV <= 1 || maxV == 0)
  {
    JoinsReturn(ranges, order);
    EveryOrder(ranges, order);
    LowerBoundIgnored(ranges, maxV, count, minV);
  }

  /** With four threads, the parts of 0..1 are 0..0, 1..1, 2..2 and 3..1: the square of 2 is too much. */
  lemma TooManyThreads(ranges: seq<Range>)
    requires IsSplit(ranges, 1, 4)
    ensures Total(ranges, Share) == 5 && Squares(1, 1) == 1
  {
    assert forall t :: 0 <= t < 3 ==> ranges[..3][t] == ranges[t];
    var one, two, three := Range(0, 0), Range(1, 1), Range(2, 2);
    assert ranges == [one] + [two] + [three] + [Range(3, 1)];
    assert Squares(0, 0) == 0 && Squares(1, 1) == 1 && Squares(2, 2) == 4 && Squares(3, 1) == 0;
    TotalAppend([one] + [two] + [three], Range(3, 1), Share);
    TotalAppend([one] + [two], three, Share);
    TotalAppend([one], two, Share);
    assert Total([one], Share) == Share(one);
  }
}
