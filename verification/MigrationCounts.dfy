/**
 What the counters of a migration report count: steps that moved a collection,
 and edges that were repaired.
 */
module MigrationCounts {
  import opened Prelude
  import opened MigrationNode
  import opened MigrationEngine
  import opened MigrationChain
  import opened MigrationResumption
  import opened MigrationTheorems
  import opened MigrationRuns

  // ----- on any store

  /** A complete version that is flagged active. */
  predicate Live(s: Store, id: VersionId)
  {
    id in s.versions && s.versions[id].isActive && !s.versions[id].isPlaceholder
  }

  /** Between `s` and `t` the step made progress: its collection came to exist, its
      pin was activated, or its in-place patch was needed. */
  predicate Progressed(s: Store, t: Store, step: Step)
  {
    match step
    case AddCollection(sdl, _, _) => sdl.name !in s.names && sdl.name in t.names
    case PatchVersioned(_, _, _, pin, _, _) => pin.Some? && !Live(s, pin.value) && Live(t, pin.value)
    case PatchInPlace(c, _, expected) =>
      c in s.names && s.names[c] in s.versions && expected.Some? && !(expected.value <= s.versions[s.names[c]].fields)
  }

  /** Between `s` and `t` the edge of the step's pin was rewritten, and not because the version was completed. */
  predicate Rewired(s: Store, t: Store, step: Step)
  {
    && step.PatchVersioned? && step.pin.Some? && step.pin.value in s.versions && step.pin.value in t.versions
    && s.versions[step.pin.value].isPlaceholder == t.versions[step.pin.value].isPlaceholder
    && s.versions[step.pin.value].previous != t.versions[step.pin.value].previous
  }

  /** The step's lens is the one whose transform it pins. */
  predicate LensIsPinned(step: Step)
  {
    step.PatchVersioned? && step.transform.Some? && step.lens.Some? ==> step.transform == Some(step.lens.value.transform)
  }

  lemma {:induction false} AppliedIsProgress(s: Store, step: Step)
    requires !ApplyStep(s, step).outcome.Failed?
    ensures ApplyStep(s, step).outcome.Applied? <==> Progressed(s, After(s, ApplyStep(s, step).writes), step)
  {
    if step.PatchVersioned? {
      VersionedIsProgress(s, step);
    }
  }

  lemma {:induction false} VersionedIsProgress(s: Store, step: Step)
    requires step.PatchVersioned? && !ApplyPatchVersioned(s, step).outcome.Failed?
    ensures ApplyPatchVersioned(s, step).outcome.Applied? <==> Progressed(s, After(s, ApplyPatchVersioned(s, step).writes), step)
  {
    hide DescendsFrom, Verify;
    var pin := step.pin.value;
    var active := GetCollection(s, step.collection).value;
    if active.id == pin && active.isActive && !active.isPlaceholder {
      assert Live(s, pin);
    } else if pin !in s.versions {
      CreatedIsLive(s, step, pin);
      AttachedIsLive(s, step, active.id, pin);
    } else if !s.versions[pin].isActive && DescendsFrom(s.versions, active.id, pin) {
    } else if s.versions[pin].isPlaceholder {
      CreatedIsLive(s, step, pin);
    } else if !s.versions[pin].isActive {
      ActivatedIsLive(s, step, active.id, pin);
    }
  }

  lemma {:induction false} CreatedIsLive(s: Store, step: Step, pin: VersionId)
    requires step.PatchVersioned?
    ensures var run := PatchVerifyActivate(s, step, pin);
            !run.outcome.Failed? ==> run.outcome == Applied(0) && Live(After(s, run.writes), pin)
  {
    hide Verify;
  }

  lemma {:induction false} AttachedIsLive(s: Store, step: Step, active: VersionId, pin: VersionId)
    requires step.PatchVersioned?
    ensures var run := AttachPatchActivate(s, step, active, pin);
            !run.outcome.Failed? ==> run.outcome == Applied(0) && Live(After(s, run.writes), pin)
  {
    CreatedIsLive(s, step, pin);
    if step.lens.Some? {
      var attached := SetMigration(s, active, pin, step.lens.value);
      CreatedIsLive(attached, step, pin);
      hide PatchVerifyActivate;
      AfterBoth(s, [], [attached], PatchVerifyActivate(attached, step, pin).writes);
    }
  }

  lemma {:induction false} ActivatedIsLive(s: Store, step: Step, active: VersionId, pin: VersionId)
    requires step.PatchVersioned? && pin in s.versions
    ensures var run := ActivateInactive(s, step, active, pin, s.versions[pin]);
            !run.outcome.Failed? ==> run.outcome.Applied? && Live(After(s, run.writes), pin)
  {
    hide Verify;
  }

  /** A run repairs at most one edge, and says so exactly when it rewrote it. */
  lemma {:induction false} RepairedIsRewired(s: Store, step: Step)
    requires !ApplyStep(s, step).outcome.Failed? && LensIsPinned(step)
    ensures ApplyStep(s, step).outcome.repaired == if Rewired(s, After(s, ApplyStep(s, step).writes), step) then 1 else 0
  {
    if step.PatchVersioned? {
      VersionedIsRewired(s, step);
    }
  }

  lemma {:induction false} VersionedIsRewired(s: Store, step: Step)
    requires step.PatchVersioned? && !ApplyPatchVersioned(s, step).outcome.Failed? && LensIsPinned(step)
    ensures var run := ApplyPatchVersioned(s, step);
            run.outcome.repaired == if Rewired(s, After(s, run.writes), step) then 1 else 0
  {
    hide DescendsFrom, Verify;
    var pin := step.pin.value;
    var active := GetCollection(s, step.collection).value;
    if active.id == pin && active.isActive && !active.isPlaceholder {
    } else if pin !in s.versions {
      AttachedIsLive(s, step, active.id, pin);
    } else if !s.versions[pin].isActive && DescendsFrom(s.versions, active.id, pin) {
    } else if s.versions[pin].isPlaceholder {
      CreatedIsLive(s, step, pin);
    } else if !s.versions[pin].isActive {
      ActivatedIsRewired(s, step, active.id, pin);
    }
  }

  lemma {:induction false} ActivatedIsRewired(s: Store, step: Step, active: VersionId, pin: VersionId)
    requires step.PatchVersioned? && step.pin == Some(pin) && pin in s.versions && !s.versions[pin].isPlaceholder && LensIsPinned(step)
    ensures var run := ActivateInactive(s, step, active, pin, s.versions[pin]);
            !run.outcome.Failed? ==> run.outcome.repaired == if Rewired(s, After(s, run.writes), step) then 1 else 0
  {
    hide Verify;
  }

  /** The store before step `i`. */
  ghost function StoreAt(s: Store, steps: seq<Step>, i: nat): Store
    requires i <= |steps|
  {
    After(s, ApplySteps(s, steps[..i]).writes)
  }

  ghost predicate ProgressedAt(s: Store, steps: seq<Step>, i: nat)
    requires i < |steps|
  {
    Progressed(StoreAt(s, steps, i), StoreAt(s, steps, i + 1), steps[i])
  }

  ghost predicate RewiredAt(s: Store, steps: seq<Step>, i: nat)
    requires i < |steps|
  {
    Rewired(StoreAt(s, steps, i), StoreAt(s, steps, i + 1), steps[i])
  }

  /** The steps among the first `n` that made progress. */
  ghost function ProgressSteps(s: Store, steps: seq<Step>, n: nat): set<nat>
    requires n <= |steps|
  {
    set i: nat | i < n && ProgressedAt(s, steps, i)
  }

  /** The steps among the first `n` that rewrote an edge. */
  ghost function RewiredSteps(s: Store, steps: seq<Step>, n: nat): set<nat>
    requires n <= |steps|
  {
    set i: nat | i < n && RewiredAt(s, steps, i)
  }

  lemma {:induction false} OneMore(n: nat, a: set<nat>, b: set<nat>, p: bool)
    requires (forall i | i in a :: i < n) && b == if p then a + {n} else a
    ensures |b| == |a| + if p then 1 else 0
  {
  }

  /** On any store, `applied` counts the steps that made progress. */
  lemma {:induction false} AppliedCounts(s: Store, steps: seq<Step>, n: nat)
    requires n <= |steps| && ApplySteps(s, steps[..n]).fault.None?
    ensures ApplySteps(s, steps[..n]).tally.applied == |ProgressSteps(s, steps, n)|
  {
    hide ApplyStep, Progressed;
    if n == 0 {
      assert ProgressSteps(s, steps, n) == {};
    } else {
      var m := n - 1;
      var front, run := LastStep(s, steps, n);
      AppliedCounts(s, steps, m);
      AppliedIsProgress(StoreAt(s, steps, m), steps[m]);
      hide StoreAt, ApplySteps;
      OneMore(m, ProgressSteps(s, steps, m), ProgressSteps(s, steps, n), ProgressedAt(s, steps, m));
    }
  }

  /** On any store, `repaired` counts the edges that were rewritten. */
  lemma {:induction false} RepairedCounts(s: Store, steps: seq<Step>, n: nat)
    requires n <= |steps| && ApplySteps(s, steps[..n]).fault.None? && forall i | 0 <= i < n :: LensIsPinned(steps[i])
    ensures ApplySteps(s, steps[..n]).tally.repaired == |RewiredSteps(s, steps, n)|
  {
    hide ApplyStep, Rewired, LensIsPinned;
    if n == 0 {
      assert RewiredSteps(s, steps, n) == {};
    } else {
      var m := n - 1;
      var front, run := LastStep(s, steps, n);
      RepairedCounts(s, steps, m);
      RepairedIsRewired(StoreAt(s, steps, m), steps[m]);
      hide StoreAt, ApplySteps;
      OneMore(m, RewiredSteps(s, steps, m), RewiredSteps(s, steps, n), RewiredAt(s, steps, m));
    }
  }

  /** The last of the first `n` steps, and the store it leaves. */
  lemma {:induction false} LastStep(s: Store, steps: seq<Step>, n: nat) returns (front: StepsRun, run: Run)
    requires 0 < n <= |steps| && ApplySteps(s, steps[..n]).fault.None?
    ensures front == ApplySteps(s, steps[..n - 1]) && front.fault.None?
    ensures run == ApplyStep(StoreAt(s, steps, n - 1), steps[n - 1]) && !run.outcome.Failed?
    ensures ApplySteps(s, steps[..n]) == Extend(front, run)
    ensures StoreAt(s, steps, n) == After(StoreAt(s, steps, n - 1), run.writes)
  {
    hide ApplyStep;
    var m := n - 1;
    assert steps[..n][..m] == steps[..m];
    front := ApplySteps(s, steps[..m]);
    run := ApplyStep(After(s, front.writes), steps[m]);
    ApplyOneMore(s, steps, m, front, run);
    AfterBoth(s, [], front.writes, run.writes);
  }

  /** A run that faults keeps the tally of the steps before the fault. */
  lemma {:induction false} FaultKeepsTally(s: Store, steps: seq<Step>) returns (n: nat)
    requires ApplySteps(s, steps).fault.Some?
    ensures n < |steps| && ApplySteps(s, steps[..n]).fault.None? && ApplySteps(s, steps).tally == ApplySteps(s, steps[..n]).tally
  {
    hide ApplyStep;
    var m := |steps| - 1;
    var front := ApplySteps(s, steps[..m]);
    if front.fault.Some? {
      n := FaultKeepsTally(s, steps[..m]);
      assert steps[..m][..n] == steps[..n];
    } else {
      n := m;
    }
  }

  // ----- along the chains

  function Max(a: int, b: int): int
  {
    if a >= b then a else b
  }

  ghost function Place(reg: Registry, s: Store, c: string): int
  {
    Position(s, c, Chain(reg, c))
  }

  /** Every collection stands where it stood in `s`, or where the first `n` steps take it if that is further. */
  ghost predicate MovedTo(reg: Registry, s: Store, t: Store, n: nat)
    requires n <= |reg.steps|
  {
    forall c | Chain(reg, c) != [] :: Place(reg, t, c) == Max(Place(reg, s, c), |Prescribed(reg, n, c)| - 1)
  }

  /** Step `n` lies beyond where its collection stands. */
  ghost predicate Ahead(reg: Registry, s: Store, n: nat)
    requires n < |reg.steps|
  {
    match reg.steps[n]
    case AddCollection(sdl, _, _) => Place(reg, s, sdl.name) < 0
    case PatchVersioned(c, _, _, _, _, _) => Place(reg, s, c) < |Prescribed(reg, n, c)|
    case PatchInPlace(_, _, _) => false
  }

  /** A move of `c` to link `k` leaves every other collection in its place. */
  lemma {:induction false} OthersStay(reg: Registry, s: Store, t: Store, c: string, k: nat, next: Next)
    requires WellFormed(reg) && OnChain(reg, s) && OnTheWay(c, Chain(reg, c), s, t, k, next)
    ensures Place(reg, t, c) == k
    ensures forall d | d != c && Chain(reg, d) != [] :: Place(reg, t, d) == Place(reg, s, d)
  {
    PositionIs(reg, t, c, k, next);
    forall d | d != c && Chain(reg, d) != [] ensures Place(reg, t, d) == Place(reg, s, d) {
      ManagedNamesAreReal(reg, d);
      forall id | id in t.versions && Linked(Chain(reg, c), id) ensures t.versions[id].name != d {
        OwnNames(t, c, Chain(reg, c), k, next, id);
      }
      ElsewhereUntouched(reg, c, d, s, t);
    }
  }

  /** Finished steps take no collection beyond its place. */
  lemma {:induction false} DonePlace(reg: Registry, s: Store, n: nat, c: string)
    requires WellFormed(reg) && n <= |reg.steps| && Done(reg, s, n)
    ensures Place(reg, s, c) >= |Prescribed(reg, n, c)| - 1
  {
    if Prescribed(reg, n, c) != [] {
      DoneReaches(reg, s, n, c);
    }
  }

  lemma {:induction false} MovedByStep(reg: Registry, s: Store, t: Store, n: nat, c: string, k: nat, next: Next)
    requires WellFormed(reg) && OnChain(reg, s) && n < |reg.steps| && Done(reg, s, n)
    requires forall d | d != c :: Prescribed(reg, n + 1, d) == Prescribed(reg, n, d)
    requires OnTheWay(c, Chain(reg, c), s, t, k, next) && k == Max(Place(reg, s, c), |Prescribed(reg, n + 1, c)| - 1)
    ensures MovedTo(reg, s, t, n + 1)
  {
    OthersStay(reg, s, t, c, k, next);
    hide WellFormed, OnChain, Done, OnTheWay, Place;
    forall d | Chain(reg, d) != [] && d != c ensures Place(reg, t, d) == Max(Place(reg, s, d), |Prescribed(reg, n + 1, d)| - 1) {
      DonePlace(reg, s, n, d);
    }
  }

  lemma {:induction false} VersionedMoves(reg: Registry, s: Store, n: nat)
    requires WellFormed(reg) && OnChain(reg, s) && n < |reg.steps| && Done(reg, s, n) && reg.steps[n].PatchVersioned?
    requires !ApplyPatchVersioned(s, reg.steps[n]).outcome.Failed?
    ensures MovedTo(reg, s, After(s, ApplyPatchVersioned(s, reg.steps[n]).writes), n + 1)
    ensures ApplyPatchVersioned(s, reg.steps[n]).outcome.Applied? <==> Ahead(reg, s, n)
  {
    var step := reg.steps[n];
    var c := step.collection;
    var j, k, next := StandsBefore(reg, s, n);
    var same := StepAdds(reg, n);
    TakesChainArm(reg, s, step, j, k, next);
    PositionIs(reg, s, c, k, next);
    if j <= k {
      var run := ArmIsCurrent(s, Chain(reg, c), step, j, k, next);
      LeadClimbs(reg, s, c, k, next, k, next, run.writes);
      MovedByStep(reg, s, After(s, run.writes), n, c, k, next);
    } else if next != Patched && !Derives(s, step, Chain(reg, c), j) {
      ArmFails(s, Chain(reg, c), step, j, k, next);
    } else {
      var run := ArmApplies(s, Chain(reg, c), step, j, k, next);
      LeadClimbs(reg, s, c, k, next, j, Absent, run.writes);
      MovedByStep(reg, s, After(s, run.writes), n, c, j, Absent);
    }
  }

  lemma {:induction false} TouchesNothing(c: string, chain: seq<Link>, s: Store, k: nat, next: Next)
    requires At(s, c, chain, k, next)
    ensures OnTheWay(c, chain, s, s, k, next)
  {
  }

  lemma {:induction false} AddedMoves(reg: Registry, s: Store, n: nat)
    requires WellFormed(reg) && OnChain(reg, s) && n < |reg.steps| && Done(reg, s, n) && reg.steps[n].AddCollection?
    requires !ApplyAddCollection(s, reg.steps[n]).outcome.Failed?
    ensures MovedTo(reg, s, After(s, ApplyAddCollection(s, reg.steps[n]).writes), n + 1)
    ensures ApplyAddCollection(s, reg.steps[n]).outcome.Applied? <==> Ahead(reg, s, n)
  {
    var step := reg.steps[n];
    var c := step.sdl.name;
    assert WellFormedStep(reg, n);
    NextPrescribed(reg, n);
    PrescribedIsPrefix(reg, n + 1, c);
    var k, next := Registers(reg, s, step.sdl);
    if AddSchema(s, step.sdl).Ok? {
      MovedByStep(reg, s, AddSchema(s, step.sdl).value, n, c, k, next);
    } else {
      PositionIs(reg, s, c, k, next);
      TouchesNothing(c, Chain(reg, c), s, k, next);
      MovedByStep(reg, s, s, n, c, k, next);
    }
  }

  lemma {:induction false} InPlaceMoves(reg: Registry, s: Store, n: nat)
    requires WellFormed(reg) && OnChain(reg, s) && n < |reg.steps| && Done(reg, s, n) && reg.steps[n].PatchInPlace?
    ensures ApplyPatchInPlace(s, reg.steps[n]) == Run([], Current(0)) && MovedTo(reg, s, s, n + 1)
  {
    var c := reg.steps[n].collection;
    assert WellFormedStep(reg, n);
    NextPrescribed(reg, n);
    assert DoneFor(reg, s, n, c);
    var k: nat, next :| At(s, c, Chain(reg, c), k, next) && k >= |Prescribed(reg, n, c)| - 1;
    assert Complete(s.versions[Chain(reg, c)[k].id], c, Chain(reg, c)[k], true);
    forall d | Chain(reg, d) != [] ensures Place(reg, s, d) == Max(Place(reg, s, d), |Prescribed(reg, n + 1, d)| - 1) {
      DonePlace(reg, s, n, d);
    }
  }

  lemma {:induction false} StepMoves(reg: Registry, s: Store, n: nat)
    requires WellFormed(reg) && OnChain(reg, s) && n < |reg.steps| && Done(reg, s, n)
    requires !ApplyStep(s, reg.steps[n]).outcome.Failed?
    ensures MovedTo(reg, s, After(s, ApplyStep(s, reg.steps[n]).writes), n + 1)
    ensures ApplyStep(s, reg.steps[n]).outcome.Applied? <==> Ahead(reg, s, n)
  {
    match reg.steps[n]
    case AddCollection(_, _, _) => AddedMoves(reg, s, n);
    case PatchVersioned(_, _, _, _, _, _) => VersionedMoves(reg, s, n);
    case PatchInPlace(_, _, _) => InPlaceMoves(reg, s, n);
  }

  /** The steps among the first `n` that lie beyond where their collections stand. */
  ghost function AheadSteps(reg: Registry, s: Store, n: nat): set<nat>
    requires n <= |reg.steps|
  {
    set i: nat | i < n && Ahead(reg, s, i)
  }

  /** Steps before `n` do not change whether step `n` lies ahead. */
  lemma {:induction false} StillAhead(reg: Registry, s: Store, t: Store, m: nat, n: nat)
    requires WellFormed(reg) && m <= n < |reg.steps| && MovedTo(reg, s, t, m)
    ensures Ahead(reg, t, n) <==> Ahead(reg, s, n)
  {
    assert WellFormedStep(reg, n);
    hide Place;
    match reg.steps[n]
    case AddCollection(sdl, _, _) =>
      ChainGrows(reg, m, n, sdl.name);
      NextPrescribed(reg, n);
      PrescribedIsPrefix(reg, n + 1, sdl.name);
    case PatchVersioned(c, _, _, _, _, _) =>
      ChainGrows(reg, m, n, c);
      PrescribedIsPrefix(reg, n, c);
    case PatchInPlace(_, _, _) =>
  }

  lemma {:induction false} MovedOn(reg: Registry, s: Store, t: Store, u: Store, n: nat)
    requires n < |reg.steps| && MovedTo(reg, s, t, n) && MovedTo(reg, t, u, n + 1)
    ensures MovedTo(reg, s, u, n + 1)
  {
    hide Place;
    forall c | Chain(reg, c) != [] ensures Place(reg, u, c) == Max(Place(reg, s, c), |Prescribed(reg, n + 1, c)| - 1) {
      ChainGrows(reg, n, n + 1, c);
    }
  }

  lemma {:induction false} StepsMove(reg: Registry, s: Store, n: nat)
    requires WellFormed(reg) && OnChain(reg, s) && Done(reg, s, 0) && n <= |reg.steps|
    requires ApplySteps(s, reg.steps[..n]).fault.None?
    ensures MovedTo(reg, s, StoreAt(s, reg.steps, n), n)
    ensures ApplySteps(s, reg.steps[..n]).tally.applied == |AheadSteps(reg, s, n)|
  {
    hide WellFormed, OnChain, ApplyStep, Place, Done;
    if n == 0 {
      forall c | Chain(reg, c) != [] ensures Place(reg, s, c) == Max(Place(reg, s, c), |Prescribed(reg, 0, c)| - 1) {
        DonePlace(reg, s, 0, c);
      }
      assert AheadSteps(reg, s, 0) == {};
    } else {
      var m := n - 1;
      var front, run := LastStep(s, reg.steps, n);
      StepsMove(reg, s, m);
      StepsRan(reg, s, m);
      var t := StoreAt(s, reg.steps, m);
      StepMoves(reg, t, m);
      StillAhead(reg, s, t, m, m);
      MovedOn(reg, s, t, StoreAt(s, reg.steps, n), m);
      hide StoreAt, ApplySteps, MovedTo, Ahead;
      OneMore(m, AheadSteps(reg, s, m), AheadSteps(reg, s, n), Ahead(reg, s, m));
    }
  }

  // ----- the baseline moves only what was absent

  /** Where the first `n` baseline entries take the collections. */
  ghost predicate Entered(reg: Registry, s: Store, t: Store, n: nat)
    requires n <= |reg.baseline|
  {
    forall c | Chain(reg, c) != [] ::
      Place(reg, t, c) == if exists i :: 0 <= i < n && reg.baseline[i].name == c then Max(Place(reg, s, c), 0) else Place(reg, s, c)
  }

  lemma {:induction false} BaselineEnters(reg: Registry, s: Store, n: nat)
    requires WellFormed(reg) && OnChain(reg, s) && n <= |reg.baseline|
    ensures Entered(reg, s, After(s, RegisterBaseline(s, reg.baseline[..n]).writes), n)
  {
    hide OnChain, Place, Entered, Climbs, RegisteredAll, WellFormed, AddSchema;
    if n > 0 {
      var m := n - 1;
      BaselineEnters(reg, s, m);
      BaselineRan(reg, s, m);
      assert reg.baseline[..n][..m] == reg.baseline[..m];
      var front := RegisterBaseline(s, reg.baseline[..m]);
      EntryEnters(reg, s, After(s, front.writes), m);
    } else {
      NoneEntered(reg, s);
    }
  }

  lemma {:induction false} NoneEntered(reg: Registry, s: Store)
    ensures Entered(reg, s, s, 0)
  {
    hide Place;
  }

  lemma {:induction false} EntryEnters(reg: Registry, s: Store, t: Store, m: nat)
    requires WellFormed(reg) && m < |reg.baseline| && OnChain(reg, t) && Entered(reg, s, t, m)
    ensures match AddSchema(t, reg.baseline[m].sdl)
            case Ok(u) => Entered(reg, s, u, m + 1)
            case Err(e) => e == AlreadyExists && Entered(reg, s, t, m + 1)
  {
    var sdl := reg.baseline[m].sdl;
    var c := sdl.name;
    assert WellFormedEntry(reg, reg.baseline[m]);
    EntryIsFirst(reg, m);
    var k, next := Registers(reg, t, sdl);
    match AddSchema(t, sdl)
    case Ok(u) =>
      OthersStay(reg, t, u, c, k, next);
      EnteredOne(reg, s, t, u, m);
    case Err(_) =>
      PositionIs(reg, t, c, k, next);
      EnteredOne(reg, s, t, t, m);
  }

  lemma {:induction false} EnteredOne(reg: Registry, s: Store, t: Store, u: Store, m: nat)
    requires WellFormedBaseline(reg) && m < |reg.baseline| && Entered(reg, s, t, m) && Chain(reg, reg.baseline[m].name) != []
    requires Place(reg, u, reg.baseline[m].name) == Max(Place(reg, t, reg.baseline[m].name), 0)
    requires forall d | d != reg.baseline[m].name && Chain(reg, d) != [] :: Place(reg, u, d) == Place(reg, t, d)
    ensures Entered(reg, s, u, m + 1)
  {
    hide Place;
    var n := m + 1;
    forall c | Chain(reg, c) != []
      ensures (exists i :: 0 <= i < n && reg.baseline[i].name == c) <==>
              (exists i :: 0 <= i < m && reg.baseline[i].name == c) || reg.baseline[m].name == c
    {
      if i :| 0 <= i < n && reg.baseline[i].name == c {
        assert i < m || reg.baseline[m].name == c;
      }
    }
  }

  lemma {:induction false} EnteredIsMoved(reg: Registry, s: Store, t: Store)
    requires WellFormed(reg) && Entered(reg, s, t, |reg.baseline|)
    ensures MovedTo(reg, s, t, 0)
  {
    hide Place;
    forall c | Chain(reg, c) != [] ensures Place(reg, t, c) == Max(Place(reg, s, c), |Prescribed(reg, 0, c)| - 1) {
      PlaceIsReal(reg, s, c);
      assert reg.steps[..0] == [];
      if i :| 0 <= i < |reg.baseline| && reg.baseline[i].name == c {
        EntryIsFirst(reg, i);
      } else if RootChain(reg.baseline, c) != [] {
        RootIsListed(reg.baseline, c);
      }
    }
  }

  lemma {:induction false} PlaceIsReal(reg: Registry, s: Store, c: string)
    ensures Place(reg, s, c) >= -1
  {
  }

  // ----- what a pass reports

  /** From any undisturbed store along the chains, a pass reports as applied exactly
      the added and versioned steps beyond where the collections stood. */
  lemma {:induction false} PassAppliesAhead(reg: Registry, s: Store)
    requires WellFormed(reg) && OnChain(reg, s) && Undisturbed(reg, s)
    ensures PassSteps(s, reg).tally.applied == |AheadSteps(reg, s, |reg.steps|)|
  {
    hide WellFormed, OnChain, Undisturbed, Place, MovedTo, Entered, AheadSteps, Climbs, SameForeign, AtEnd;
    PassCompletes(reg, s);
    BaselineRan(reg, s, |reg.baseline|);
    BaselineEnters(reg, s, |reg.baseline|);
    assert reg.baseline[..|reg.baseline|] == reg.baseline && reg.steps[..|reg.steps|] == reg.steps;
    var t := After(s, RegisterBaseline(s, reg.baseline).writes);
    EnteredIsMoved(reg, s, t);
    BaselineDone(reg, t);
    StepsMove(reg, t, |reg.steps|);
    SameStepsAhead(reg, s, t);
  }

  lemma {:induction false} SameStepsAhead(reg: Registry, s: Store, t: Store)
    requires WellFormed(reg) && MovedTo(reg, s, t, 0)
    ensures AheadSteps(reg, t, |reg.steps|) == AheadSteps(reg, s, |reg.steps|)
  {
    hide WellFormed, MovedTo, Ahead;
    forall n | 0 <= n < |reg.steps| ensures Ahead(reg, t, n) <==> Ahead(reg, s, n) {
      StillAhead(reg, s, t, 0, n);
    }
  }

  /** A pass over an empty store applies every added and every versioned step. */
  lemma {:induction false} FreshPassAppliesAll(reg: Registry)
    requires WellFormed(reg)
    ensures PassSteps(Store(map[], map[]), reg).tally.applied
         == |set n: nat | n < |reg.steps| && !reg.steps[n].PatchInPlace?|
  {
    var s := Store(map[], map[]);
    FreshStoreIsOnChain(reg);
    PassAppliesAhead(reg, s);
    assert AheadSteps(reg, s, |reg.steps|) == set n: nat | n < |reg.steps| && !reg.steps[n].PatchInPlace?;
  }
}
