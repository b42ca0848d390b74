/**
 Programs over the handles of Cpp/shared_ptr.cpp. What a program means is defined on names and
 numbered blocks alone; running it on handles is proved to realise that meaning.
 */
module SharedPrograms {
  import opened SharedPtrs
  import opened Options
  import opened Sequences

  /** A statement over named handles; `wanted` asks for a new resource. */
  datatype Step =
    | Declare(x: nat, wanted: bool)
    | DeclareCopy(x: nat, y: nat)
    | DeclareMove(x: nat, y: nat)
    | Assign(x: nat, y: nat)
    | AssignMove(x: nat, y: nat)
    | ResetTo(x: nat, wanted: bool)
    | SwapWith(x: nat, y: nat)
    | Leave(x: nat)

  // ---------- What a program means ----------

  /** The block that each name holds. */
  type Holdings<!B> = map<nat, Option<B>>

  ghost predicate Makes<B>(held: Holdings<B>, step: Step) {
    || (step.Declare? && step.wanted && step.x !in held)
    || (step.ResetTo? && step.wanted && step.x in held)
  }

  /** The holdings after a statement, when `made` is the block that a new resource gets. */
  ghost function After<B>(held: Holdings<B>, step: Step, made: Option<B>): Holdings<B> {
    match step
    case Declare(x, wanted) => if x in held then held else held[x := if wanted then made else None]
    case DeclareCopy(x, y) => if x in held || y !in held then held else held[x := held[y]]
    case DeclareMove(x, y) => if x in held || y !in held then held else held[x := held[y]][y := None]
    case Assign(x, y) => if x !in held || y !in held then held else held[x := held[y]]
    case AssignMove(x, y) => if x !in held || y !in held || x == y then held else held[x := held[y]][y := None]
    case ResetTo(x, wanted) => if x !in held then held else held[x := if wanted then made else None]
    case SwapWith(x, y) => if x !in held || y !in held then held else held[x := held[y]][y := held[x]]
    case Leave(x) => held - {x}
  }

  datatype Outcome = Outcome(held: Holdings<nat>, made: nat)

  /** What a program leaves behind: the blocks are numbered in the order in which they were made. */
  ghost function Meaning(steps: seq<Step>): Outcome {
    if steps == [] then Outcome(map[], 0) else
    var n := |steps| - 1;
    var o := Meaning(steps[..n]);
    Outcome(After(o.held, steps[n], Some(o.made)), if Makes(o.held, steps[n]) then o.made + 1 else o.made)
  }

  /** The names that hold block `b`. */
  ghost function NamesOf<B>(held: Holdings<B>, b: B): set<nat> {
    set x | x in held && held[x] == Some(b)
  }

  ghost predicate Numbered(held: Holdings<nat>, n: nat) {
    forall x :: x in held && held[x].Some? ==> held[x].value < n
  }

  lemma {:induction false} MeaningNumbered(steps: seq<Step>)
    ensures Numbered(Meaning(steps).held, Meaning(steps).made)
  {
    if steps != [] { MeaningNumbered(steps[..|steps| - 1]); }
  }

  /** The same holdings, with the blocks that bear the numbers. */
  ghost function Renamed(held: Holdings<nat>, made: seq<SharedCount>): Holdings<SharedCount>
    requires Numbered(held, |made|)
  {
    map x | x in held :: Block(held[x], made)
  }

  ghost function Block(k: Option<nat>, made: seq<SharedCount>): Option<SharedCount>
    requires k.Some? ==> k.value < |made|
  {
    if k.None? then None else Some(made[k.value])
  }

  /** Statements do not care whether blocks are numbers or objects. */
  lemma AfterRenamed(held: Holdings<nat>, step: Step, made: seq<SharedCount>, made': seq<SharedCount>, b: Option<SharedCount>)
    requires Numbered(held, |made|)
    requires if Makes(held, step) then b.Some? && made' == made + [b.value] else made' == made
    ensures var held' := After(held, step, Some(|made|));
      Numbered(held', |made'|) && Renamed(held', made') == After(Renamed(held, made), step, b)
  {
    var x := step.x;
    RenamedMore(held, made, made');
    match step
    case Declare(_, wanted) =>
      if x !in held { RenamedSet(held, x, if wanted then Some(|made|) else None, made'); }
    case ResetTo(_, wanted) =>
      if x in held { RenamedSet(held, x, if wanted then Some(|made|) else None, made'); }
    case Leave(_) =>
      RenamedDrop(held, x, made');
    case _ =>
      if step.y in held {
        RenamedSet(held, x, held[step.y], made');
        RenamedSet(held[x := held[step.y]], step.y, None, made');
        if x in held { RenamedSet(held[x := held[step.y]], step.y, held[x], made'); }
      }
  }

  lemma RenamedMore(held: Holdings<nat>, made: seq<SharedCount>, made': seq<SharedCount>)
    requires Numbered(held, |made|) && made <= made'
    ensures Renamed(held, made') == Renamed(held, made)
  {
  }

  lemma RenamedSet(held: Holdings<nat>, x: nat, k: Option<nat>, made: seq<SharedCount>)
    requires Numbered(held, |made|) && (k.Some? ==> k.value < |made|)
    ensures Numbered(held[x := k], |made|) && Renamed(held[x := k], made) == Renamed(held, made)[x := Block(k, made)]
  {
  }

  lemma RenamedDrop(held: Holdings<nat>, x: nat, made: seq<SharedCount>)
    requires Numbered(held, |made|)
    ensures Numbered(held - {x}, |made|) && Renamed(held - {x}, made) == Renamed(held, made) - {x}
  {
  }

  // ---------- Names for handles ----------

  type Scope = map<nat, SharedPtr>

  /** Each handle has exactly one name. */
  ghost predicate Names(vars: Scope, handles: set<SharedPtr>) {
    && vars.Values == handles
    && (forall x, y :: x in vars && y in vars && vars[x] == vars[y] ==> x == y)
  }

  lemma Named(vars: Scope, x: nat, h: SharedPtr, handles: set<SharedPtr>)
    requires Names(vars, handles) && x !in vars && h !in handles
    ensures Names(vars[x := h], handles + {h})
  {
    var more := vars[x := h];
    forall k | k in handles + {h}
      ensures k in more.Values
    {
      if k != h {
        var y :| y in vars && vars[y] == k;
        assert more[y] == k;
      } else {
        assert more[x] == h;
      }
    }
    assert forall y :: y in vars ==> more[y] in vars.Values;
  }

  lemma Unnamed(vars: Scope, x: nat, handles: set<SharedPtr>)
    requires Names(vars, handles) && x in vars
    ensures Names(vars - {x}, handles - {vars[x]})
  {
    var less := vars - {x};
    forall k | k in handles - {vars[x]}
      ensures k in less.Values
    {
      var y :| y in vars && vars[y] == k;
      assert less[y] == k;
    }
  }

  ghost function Opt(b: SharedCount?): Option<SharedCount> {
    if b == null then None else var block: SharedCount := b; Some(block)
  }

  /** What the names hold, when the handles hold what `m` says. */
  ghost function View(vars: Scope, m: Owners): Holdings<SharedCount> {
    map x | x in vars && vars[x] in m :: Opt(m[vars[x]])
  }

  lemma ViewSet(vars: Scope, m: Owners, x: nat, b: SharedCount?)
    requires Names(vars, m.Keys) && x in vars
    ensures View(vars, m[vars[x] := b]) == View(vars, m)[x := Opt(b)]
  {
  }

  lemma ViewAdd(vars: Scope, m: Owners, x: nat, h: SharedPtr, b: SharedCount?)
    requires Names(vars, m.Keys) && x !in vars && h !in m
    ensures View(vars[x := h], m[h := b]) == View(vars, m)[x := Opt(b)]
  {
    var before, after := View(vars, m)[x := Opt(b)], View(vars[x := h], m[h := b]);
    assert forall y :: y in vars ==> vars[y] in vars.Values;
    assert after.Keys == before.Keys;
  }

  lemma ViewDrop(vars: Scope, m: Owners, x: nat)
    requires Names(vars, m.Keys) && x in vars
    ensures View(vars - {x}, m - {vars[x]}) == View(vars, m) - {x}
  {
  }

  lemma ViewKeys(vars: Scope, m: Owners)
    requires Names(vars, m.Keys)
    ensures View(vars, m).Keys == vars.Keys
    ensures forall x :: x in vars ==> vars[x] in m && View(vars, m)[x] == Opt(m[vars[x]])
  {
    assert forall x :: x in vars ==> vars[x] in vars.Values;
  }

  // ---------- Running a program ----------

  /** What is new in the world was not there before. */
  twostate predicate Grown(w: World)
    reads w, w.handles, w.blocks
  {
    && old(w.blocks) <= w.blocks
    && (forall h :: h in w.handles ==> h in old(w.handles) || fresh(h))
    && (forall b :: b in w.blocks ==> b in old(w.blocks) || (fresh(b) && fresh(b.target)))
  }

  /** The holdings changed as the statement says. */
  ghost predicate Means<B>(before: Holdings<B>, after: Holdings<B>, step: Step, made: Option<B>) {
    after == After(before, step, made) && (made.Some? <==> Makes(before, step))
  }

  /** The statement had its meaning; `made` is the block that it made, if any. */
  twostate predicate Did(w: World, vars: Scope, new vars': Scope, step: Step, new made: Option<SharedCount>)
    reads w, w.handles
  {
    && Means(old(View(vars, w.Owns())), View(vars', w.Owns()), step, made)
    && (made.Some? ==> made.value !in old(w.blocks))
    && w.blocks == old(w.blocks) + (if made.Some? then {made.value} else {})
  }

  // What the operations do to the handles is what the statements mean.

  lemma EnterMeans(vars: Scope, m: Owners, step: Step, h: SharedPtr, b: SharedCount?)
    requires Names(vars, m.Keys) && h !in m && step.x !in vars
    requires
      || (step.Declare? && (step.wanted <==> b != null))
      || (step.DeclareCopy? && step.y in vars && vars[step.y] in m && b == m[vars[step.y]])
    ensures Means(View(vars, m), View(vars[step.x := h], m[h := b]), step, if step.Declare? then Opt(b) else None)
  {
    ViewKeys(vars, m);
    ViewAdd(vars, m, step.x, h, b);
  }

  lemma EnterMoveMeans(vars: Scope, m: Owners, step: Step, h: SharedPtr)
    requires Names(vars, m.Keys) && h !in m && step.DeclareMove? && step.x !in vars && step.y in vars && vars[step.y] in m
    ensures Means(View(vars, m), View(vars[step.x := h], m[h := m[vars[step.y]]][vars[step.y] := null]), step, None)
  {
    var b := m[vars[step.y]];
    ViewKeys(vars, m);
    ViewAdd(vars, m, step.x, h, b);
    Named(vars, step.x, h, m.Keys);
    assert m[h := b].Keys == m.Keys + {h};
    ViewSet(vars[step.x := h], m[h := b], step.y, null);
  }

  lemma SetMeans(vars: Scope, m: Owners, step: Step, b: SharedCount?)
    requires Names(vars, m.Keys) && step.x in vars
    requires
      || (step.ResetTo? && (step.wanted <==> b != null))
      || (step.Assign? && step.y in vars && vars[step.y] in m && b == m[vars[step.y]])
    ensures Means(View(vars, m), View(vars, m[vars[step.x] := b]), step, if step.ResetTo? then Opt(b) else None)
  {
    ViewKeys(vars, m);
    ViewSet(vars, m, step.x, b);
  }

  lemma PairMeans(vars: Scope, m: Owners, step: Step, b: SharedCount?)
    requires Names(vars, m.Keys) && step.x in vars && (step.AssignMove? || step.SwapWith?)
    requires step.y in vars && vars[step.x] in m && vars[step.y] in m
    requires if step.AssignMove? then step.x != step.y && b == null else b == m[vars[step.x]]
    ensures Means(View(vars, m), View(vars, m[vars[step.x] := m[vars[step.y]]][vars[step.y] := b]), step, None)
  {
    var m1 := m[vars[step.x] := m[vars[step.y]]];
    ViewKeys(vars, m);
    ViewSet(vars, m, step.x, m[vars[step.y]]);
    assert m1.Keys == m.Keys;
    ViewSet(vars, m1, step.y, b);
  }

  lemma LeaveMeans(vars: Scope, m: Owners, step: Step)
    requires Names(vars, m.Keys) && step.Leave? && step.x in vars
    ensures Means(View(vars, m), View(vars - {step.x}, m - {vars[step.x]}), step, None)
  {
    ViewKeys(vars, m);
    ViewDrop(vars, m, step.x);
  }

  lemma NothingMeans(vars: Scope, m: Owners, step: Step)
    requires Names(vars, m.Keys)
    requires
      match step
      case Declare(x, _) => x in vars
      case DeclareCopy(x, y) => x in vars || y !in vars
      case DeclareMove(x, y) => x in vars || y !in vars
      case ResetTo(x, _) => x !in vars
      case Leave(x) => x !in vars
      case _ => step.x !in vars || step.y !in vars || (step.AssignMove? && step.x == step.y)
    ensures Means(View(vars, m), View(vars, m), step, None)
  {
    ViewKeys(vars, m);
    assert step.Leave? ==> View(vars, m) - {step.x} == View(vars, m);
  }

  method NewResource(wanted: bool, ghost w: World) returns (p: Resource?)
    requires w.Valid()
    ensures if wanted then p != null && fresh(p) && w.Unowned(p) else p == null
  {
    p := null;
    if wanted {
      p := new Resource();
    }
  }

  /** SharedPtr() and SharedPtr(T*). */
  method DoDeclare(vars: Scope, step: Step, ghost w: World) returns (vars': Scope, ghost made: Option<SharedCount>)
    requires w.Valid() && Names(vars, w.handles) && step.Declare? && step.x !in vars
    modifies w, w.handles, w.blocks
    ensures w.Valid() && Names(vars', w.handles) && Grown(w) && Did(w, vars, vars', step, made)
  {
    ghost var m := w.Owns();
    var p := NewResource(step.wanted, w);
    var h := new SharedPtr.FromRaw(p, w);
    Named(vars, step.x, h, m.Keys);
    EnterMeans(vars, m, step, h, h.refCount);
    vars', made := vars[step.x := h], Opt(h.refCount);
  }

  /** The copy constructor. */
  method DoCopy(vars: Scope, step: Step, ghost w: World) returns (vars': Scope, ghost made: Option<SharedCount>)
    requires w.Valid() && Names(vars, w.handles) && step.DeclareCopy? && step.x !in vars && step.y in vars
    modifies w, w.handles, w.blocks
    ensures w.Valid() && Names(vars', w.handles) && Grown(w) && Did(w, vars, vars', step, made)
  {
    ghost var m := w.Owns();
    var y := vars[step.y];
    assert y in vars.Values && w.Tied(y);
    var h := new SharedPtr.Copy(y, w);
    Named(vars, step.x, h, m.Keys);
    EnterMeans(vars, m, step, h, m[y]);
    vars', made := vars[step.x := h], None;
  }

  /** The move constructor. */
  method DoMove(vars: Scope, step: Step, ghost w: World) returns (vars': Scope, ghost made: Option<SharedCount>)
    requires w.Valid() && Names(vars, w.handles) && step.DeclareMove? && step.x !in vars && step.y in vars
    modifies w, w.handles, w.blocks
    ensures w.Valid() && Names(vars', w.handles) && Grown(w) && Did(w, vars, vars', step, made)
  {
    ghost var m := w.Owns();
    var y := vars[step.y];
    assert y in vars.Values;
    var h := new SharedPtr.Move(y, w);
    Named(vars, step.x, h, m.Keys);
    EnterMoveMeans(vars, m, step, h);
    vars', made := vars[step.x := h], None;
  }

  /** Copy assignment. */
  method DoAssign(vars: Scope, step: Step, ghost w: World) returns (vars': Scope, ghost made: Option<SharedCount>)
    requires w.Valid() && Names(vars, w.handles) && step.Assign? && step.x in vars && step.y in vars
    modifies w, w.handles, w.blocks, set b | b in w.blocks :: b.target
    ensures w.Valid() && Names(vars', w.handles) && Grown(w) && Did(w, vars, vars', step, made)
  {
    ghost var m := w.Owns();
    var x, y := vars[step.x], vars[step.y];
    assert x in vars.Values && y in vars.Values && w.Tied(x) && w.Tied(y);
    SetMeans(vars, m, step, m[y]);
    x.CopyAssign(y, w);
    vars', made := vars, None;
  }

  /** Move assignment. */
  method DoAssignMove(vars: Scope, step: Step, ghost w: World) returns (vars': Scope, ghost made: Option<SharedCount>)
    requires w.Valid() && Names(vars, w.handles) && step.AssignMove? && step.x in vars && step.y in vars && step.x != step.y
    modifies w, w.handles, w.blocks, set b | b in w.blocks :: b.target
    ensures w.Valid() && Names(vars', w.handles) && Grown(w) && Did(w, vars, vars', step, made)
  {
    ghost var m := w.Owns();
    var x, y := vars[step.x], vars[step.y];
    assert x in vars.Values && y in vars.Values && w.Tied(x);
    PairMeans(vars, m, step, null);
    x.MoveAssign(y, w);
    vars', made := vars, None;
  }

  /** reset(). */
  method DoReset(vars: Scope, step: Step, ghost w: World) returns (vars': Scope, ghost made: Option<SharedCount>)
    requires w.Valid() && Names(vars, w.handles) && step.ResetTo? && step.x in vars
    modifies w, w.handles, w.blocks, set b | b in w.blocks :: b.target
    ensures w.Valid() && Names(vars', w.handles) && Grown(w) && Did(w, vars, vars', step, made)
  {
    assert vars[step.x] in vars.Values && w.Tied(vars[step.x]);
    ghost var m := w.Owns();
    var p := NewResource(step.wanted, w);
    assert w.Owns() == m;
    made := ResetNamed(vars, step, p, w);
    vars' := vars;
    assert Means(View(vars, m), View(vars, w.Owns()), step, made);
  }

  method ResetNamed(vars: Scope, step: Step, p: Resource?, ghost w: World) returns (ghost made: Option<SharedCount>)
    requires w.Valid() && Names(vars, w.handles) && step.ResetTo? && step.x in vars
    requires if step.wanted then p != null && w.Unowned(p) else p == null
    modifies w, vars[step.x], vars[step.x].refCount, vars[step.x].ptr
    ensures w.Valid() && w.handles == old(w.handles) && Did(w, vars, vars, step, made)
    ensures made.Some? ==> fresh(made.value) && made.value.target == p
  {
    ghost var m := w.Owns();
    var h := vars[step.x];
    assert h in vars.Values;
    h.Reset(p, w);
    SetMeans(vars, m, step, h.refCount);
    made := Opt(h.refCount);
    assert made.Some? ==> w.Tied(h);
  }

  /** swap(). */
  method DoSwap(vars: Scope, step: Step, ghost w: World) returns (vars': Scope, ghost made: Option<SharedCount>)
    requires w.Valid() && Names(vars, w.handles) && step.SwapWith? && step.x in vars && step.y in vars
    modifies w, w.handles, w.blocks, set b | b in w.blocks :: b.target
    ensures w.Valid() && Names(vars', w.handles) && Grown(w) && Did(w, vars, vars', step, made)
  {
    ghost var m := w.Owns();
    var x, y := vars[step.x], vars[step.y];
    assert x in vars.Values && y in vars.Values;
    PairMeans(vars, m, step, m[x]);
    x.Swap(y, w);
    vars', made := vars, None;
  }

  /** The destructor. */
  method DoLeave(vars: Scope, step: Step, ghost w: World) returns (vars': Scope, ghost made: Option<SharedCount>)
    requires w.Valid() && Names(vars, w.handles) && step.Leave? && step.x in vars
    modifies w, w.handles, w.blocks, set b | b in w.blocks :: b.target
    ensures w.Valid() && Names(vars', w.handles) && Grown(w) && Did(w, vars, vars', step, made)
  {
    ghost var m := w.Owns();
    var h := vars[step.x];
    assert h in vars.Values && w.Tied(h);
    h.Destroy(w);
    Unnamed(vars, step.x, m.Keys);
    LeaveMeans(vars, m, step);
    vars', made := vars - {step.x}, None;
  }

  /** A move assignment of a handle to itself goes through the test for self-assignment. */
  method DoMoveSelf(vars: Scope, step: Step, ghost w: World)
    requires w.Valid() && Names(vars, w.handles) && step.AssignMove? && step.x in vars && step.x == step.y
    modifies w.handles, w.blocks, set b | b in w.blocks :: b.target
    ensures w.Valid() && w.Owns() == old(w.Owns())
  {
    var x := vars[step.x];
    assert x in vars.Values && w.Tied(x);
    x.MoveAssign(x, w);
  }

  /** One statement; one that names an unknown handle, or declares a known one, does nothing. */
  method Perform(vars: Scope, step: Step, ghost w: World) returns (vars': Scope, ghost made: Option<SharedCount>)
    requires w.Valid() && Names(vars, w.handles)
    modifies w, w.handles, w.blocks, set b | b in w.blocks :: b.target
    ensures w.Valid() && Names(vars', w.handles) && Grown(w) && Did(w, vars, vars', step, made)
  {
    ghost var m := w.Owns();
    if step.Declare? && step.x !in vars {
      vars', made := DoDeclare(vars, step, w);
    } else if step.DeclareCopy? && step.x !in vars && step.y in vars {
      vars', made := DoCopy(vars, step, w);
    } else if step.DeclareMove? && step.x !in vars && step.y in vars {
      vars', made := DoMove(vars, step, w);
    } else if step.Assign? && step.x in vars && step.y in vars {
      vars', made := DoAssign(vars, step, w);
    } else if step.AssignMove? && step.x in vars && step.y in vars && step.x != step.y {
      vars', made := DoAssignMove(vars, step, w);
    } else if step.ResetTo? && step.x in vars {
      vars', made := DoReset(vars, step, w);
    } else if step.SwapWith? && step.x in vars && step.y in vars {
      vars', made := DoSwap(vars, step, w);
    } else if step.Leave? && step.x in vars {
      vars', made := DoLeave(vars, step, w);
    } else {
      if step.AssignMove? && step.x in vars && step.x == step.y {
        DoMoveSelf(vars, step, w);
      }
      NothingMeans(vars, m, step);
      vars', made := vars, None;
    }
  }

  ghost predicate Realised(o: Outcome, vars: Scope, made: seq<SharedCount>, w: World)
    reads w, w.handles
  {
    && |made| == o.made && Numbered(o.held, |made|) && NoDuplicates(made)
    && w.blocks == (set b | b in made)
    && View(vars, w.Owns()) == Renamed(o.held, made)
  }

  /** The block that a statement made comes last. */
  ghost function Append(made: seq<SharedCount>, b: Option<SharedCount>): seq<SharedCount> {
    if b.Some? then made + [b.value] else made
  }

  lemma StepRealised(steps: seq<Step>, made: seq<SharedCount>, after: Holdings<SharedCount>, b: Option<SharedCount>)
    requires steps != []
    requires var o := Meaning(steps[..|steps| - 1]);
      && |made| == o.made && Numbered(o.held, |made|)
      && Means(Renamed(o.held, made), after, steps[|steps| - 1], b)
    ensures var o, made' := Meaning(steps), Append(made, b);
      |made'| == o.made && Numbered(o.held, |made'|) && after == Renamed(o.held, made')
  {
    var o, step := Meaning(steps[..|steps| - 1]), steps[|steps| - 1];
    assert Renamed(o.held, made).Keys == o.held.Keys;
    AfterRenamed(o.held, step, made, Append(made, b), b);
  }

  /** Each block counts the names that hold it; it and its resource are freed, once, when there are none. */
  ghost predicate Accounted(held: Holdings<nat>, made: seq<SharedCount>)
    reads made, set b | b in made :: b.target
  {
    forall k :: 0 <= k < |made| ==>
      && made[k].count == |NamesOf(held, k)|
      && made[k].deleted == made[k].target.deleted == One(NamesOf(held, k) == {})
  }

  lemma {:induction false} ImageSize(vars: Scope, names: set<nat>)
    requires names <= vars.Keys && forall x, y :: x in vars && y in vars && vars[x] == vars[y] ==> x == y
    ensures |set x | x in names :: vars[x]| == |names|
    decreases |names|
  {
    if names != {} {
      var x :| x in names;
      var less := names - {x};
      ImageSize(vars, less);
      assert (set y | y in names :: vars[y]) == (set y | y in less :: vars[y]) + {vars[x]};
      assert vars[x] !in (set y | y in less :: vars[y]);
    }
  }

  lemma RealisedAccounted(o: Outcome, vars: Scope, made: seq<SharedCount>, w: World)
    requires w.Valid() && Names(vars, w.handles) && Realised(o, vars, made, w)
    ensures Accounted(o.held, made)
  {
    forall k | 0 <= k < |made|
      ensures made[k].count == |NamesOf(o.held, k)|
      ensures made[k].deleted == made[k].target.deleted == One(NamesOf(o.held, k) == {})
    {
      assert made[k] in w.blocks && w.Exact(made[k]);
      HoldersNamed(o, vars, made, w, k);
    }
  }

  lemma HoldersNamed(o: Outcome, vars: Scope, made: seq<SharedCount>, w: World, k: nat)
    requires Names(vars, w.handles) && Realised(o, vars, made, w) && k < |made|
    ensures Uses(w.Owns(), made[k]) == |NamesOf(o.held, k)|
  {
    var m, names := w.Owns(), NamesOf(o.held, k);
    ViewKeys(vars, m);
    assert vars.Keys == o.held.Keys;
    assert forall x :: x in vars ==> (m[vars[x]] == made[k] <==> o.held[x] == Some(k)) by {
      forall x | x in vars
        ensures m[vars[x]] == made[k] <==> o.held[x] == Some(k)
      {
        assert Opt(m[vars[x]]) == Block(o.held[x], made);
      }
    }
    ImageSize(vars, names);
    assert Holders(m, made[k]) == set x | x in names :: vars[x];
  }

  /** Any program, from the start: the handles and blocks are what it means, and so are the counts. */
  method PerformAll(steps: seq<Step>, ghost w: World) returns (vars: Scope, ghost made: seq<SharedCount>)
    requires w.Valid() && w.handles == {} && w.blocks == {}
    modifies w
    ensures w.Valid() && Names(vars, w.handles) && Grown(w)
    ensures Realised(Meaning(steps), vars, made, w) && Accounted(Meaning(steps).held, made)
  {
    vars, made := map[], [];
    assert steps[..0] == [] && View(vars, w.Owns()) == map[];
    for i := 0 to |steps|
      invariant w.Valid() && Names(vars, w.handles) && Grown(w)
      invariant Realised(Meaning(steps[..i]), vars, made, w)
    {
      assert steps[..i + 1][..i] == steps[..i];
      vars, made := PerformNext(steps[..i + 1], vars, made, w);
    }
    assert steps[..|steps|] == steps;
    RealisedAccounted(Meaning(steps), vars, made, w);
  }

  method PerformNext(steps: seq<Step>, vars: Scope, ghost made: seq<SharedCount>, ghost w: World)
    returns (vars': Scope, ghost made': seq<SharedCount>)
    requires steps != [] && w.Valid() && Names(vars, w.handles)
    requires Realised(Meaning(steps[..|steps| - 1]), vars, made, w)
    modifies w, w.handles, w.blocks, set b | b in w.blocks :: b.target
    ensures w.Valid() && Names(vars', w.handles) && Grown(w)
    ensures Realised(Meaning(steps), vars', made', w)
  {
    ghost var b;
    vars', b := Perform(vars, steps[|steps| - 1], w);
    StepRealised(steps, made, View(vars', w.Owns()), b);
    made' := Append(made, b);
  }

  /** The handles in scope leave it, in any order. */
  method LeaveAll(vars0: Scope, ghost w: World)
    requires w.Valid() && Names(vars0, w.handles)
    modifies w, w.handles, w.blocks, set b | b in w.blocks :: b.target
    ensures w.Valid() && w.handles == {} && w.blocks == old(w.blocks)
    decreases |vars0|
  {
    if vars0 == map[] {
      return;
    }
    var x :| x in vars0;
    var vars := LeaveOne(vars0, x, w);
    LeaveAll(vars, w);
  }

  method LeaveOne(vars0: Scope, x: nat, ghost w: World) returns (vars: Scope)
    requires w.Valid() && Names(vars0, w.handles) && x in vars0
    modifies w, w.handles, w.blocks, set b | b in w.blocks :: b.target
    ensures w.Valid() && Names(vars, w.handles) && |vars| < |vars0|
    ensures w.blocks == old(w.blocks) && w.handles <= old(w.handles)
  {
    var h := vars0[x];
    assert h in vars0.Values && w.Tied(h);
    Unnamed(vars0, x, w.handles);
    h.Destroy(w);
    vars := vars0 - {x};
    assert vars.Keys == vars0.Keys - {x};
  }

  /**
   Any program, and then the end of its scope: of all the resources that it asked for, as many as
   its meaning says, each is freed exactly once, and so is its block.
   */
  method Run(steps: seq<Step>, ghost w: World) returns (ghost made: seq<SharedCount>)
    requires w.Valid() && w.handles == {} && w.blocks == {}
    modifies w
    ensures w.Valid() && w.handles == {}
    ensures |made| == Meaning(steps).made && NoDuplicates(made) && w.blocks == (set b | b in made)
    ensures forall b :: b in w.blocks ==> b.deleted == 1 && b.target.deleted == 1
  {
    var vars;
    vars, made := PerformAll(steps, w);
    LeaveAll(vars, w);
    w.NoLeak();
  }
}
