/**
 Whole-pass and whole-run theorems about the migration engine.
 */
module MigrationTheorems {
  import opened Prelude
  import opened MigrationNode
  import opened MigrationEngine
  import opened MigrationChain
  import opened MigrationResumption

  // ----- one step of the registry

  /** What running step `n` from `s` achieves. */
  ghost predicate Achieves(reg: Registry, s: Store, n: nat, run: Run)
    requires n < |reg.steps|
  {
    var t := After(s, run.writes);
    && !run.outcome.Failed?
    && Climbs(reg, s, run.writes) && OnChain(reg, t)
    && Done(reg, t, n + 1)
    && (Done(reg, s, n + 1) ==> run == Run([], Current(0)))
  }

  /** Running step `n` achieves it, unless foreign versions disturb the id of the version it has to create. */
  ghost predicate AchievesUnlessDisturbed(reg: Registry, s: Store, n: nat, run: Run)
    requires n < |reg.steps|
  {
    if run.outcome.Failed? then FailsLoudly(run) && !UndisturbedAt(reg, s, n) && !Done(reg, s, n + 1)
    else Achieves(reg, s, n, run)
  }

  /** A step of `c` completes when `c` itself is done and nothing else was touched. */
  lemma {:induction false} DoneAfter(reg: Registry, s: Store, t: Store, n: nat, c: string, k: nat, next: Next)
    requires WellFormed(reg) && OnChain(reg, s) && n < |reg.steps| && Done(reg, s, n)
    requires forall d | d != c :: Prescribed(reg, n + 1, d) == Prescribed(reg, n, d)
    requires Prescribed(reg, n + 1, c) != []
    requires OnTheWay(c, Chain(reg, c), s, t, k, next)
    requires k >= |Prescribed(reg, n + 1, c)| - 1 && Exact(t, Chain(reg, c), |Prescribed(reg, n + 1, c)|)
    ensures Done(reg, t, n + 1)
  {
    var m := n + 1;
    forall d | Prescribed(reg, m, d) != [] ensures DoneFor(reg, t, m, d) {
      if d != c {
        assert DoneFor(reg, s, n, d);
        PrescribedIsPrefix(reg, m, d);
        ManagedNamesAreReal(reg, d);
        forall id | id in t.versions && Linked(Chain(reg, c), id) ensures t.versions[id].name != d {
          OwnNames(t, c, Chain(reg, c), k, next, id);
        }
        ElsewhereUntouched(reg, c, d, s, t);
      }
    }
  }

  lemma {:induction false} NextPrescribed(reg: Registry, n: nat)
    requires n < |reg.steps| && WellFormedStep(reg, n)
    ensures reg.steps[n].PatchVersioned? ==>
              && (forall d | d != reg.steps[n].collection :: Prescribed(reg, n + 1, d) == Prescribed(reg, n, d))
              && var chain := Prescribed(reg, n, reg.steps[n].collection);
                 && chain != []
                 && Prescribed(reg, n + 1, reg.steps[n].collection) == chain + [NextLink(reg.steps[n], chain[|chain| - 1])]
    ensures reg.steps[n].AddCollection? ==>
              && (forall d | d != reg.steps[n].sdl.name :: Prescribed(reg, n + 1, d) == Prescribed(reg, n, d))
              && Prescribed(reg, n + 1, reg.steps[n].sdl.name) == [RootLink(reg.steps[n].sdl)]
    ensures reg.steps[n].PatchInPlace? ==> forall d :: Prescribed(reg, n + 1, d) == Prescribed(reg, n, d)
  {
    assert reg.steps[..n + 1][..n] == reg.steps[..n];
  }

  lemma {:induction false} ChainUnrepeated(reg: Registry, c: string)
    requires DistinctPins(reg)
    ensures Unrepeated(Chain(reg, c))
  {
  }

  /** Step `n` adds link number `j` to its collection's chain. */
  lemma {:induction false} StepAdds(reg: Registry, n: nat) returns (j: nat)
    requires WellFormed(reg) && n < |reg.steps| && reg.steps[n].PatchVersioned?
    ensures j == |Prescribed(reg, n, reg.steps[n].collection)| && 0 < j
    ensures |Prescribed(reg, n + 1, reg.steps[n].collection)| == j + 1
    ensures Adds(reg.steps[n], Chain(reg, reg.steps[n].collection), j)
    ensures Chain(reg, reg.steps[n].collection)[..j] == Prescribed(reg, n, reg.steps[n].collection)
    ensures forall d | d != reg.steps[n].collection :: Prescribed(reg, n + 1, d) == Prescribed(reg, n, d)
  {
    var c := reg.steps[n].collection;
    assert WellFormedStep(reg, n);
    NextPrescribed(reg, n);
    j := |Prescribed(reg, n, c)|;
    PrescribedIsPrefix(reg, n + 1, c);
    PrescribedIsPrefix(reg, n, c);
  }

  /** Every write of a versioned step is a forward step of the store. */
  lemma {:induction false} WriteIsForward(reg: Registry, s: Store, t: Store, c: string, from: nat, fromNext: Next, k: nat, next: Next)
    requires WellFormed(reg) && OnChain(reg, s)
    requires At(s, c, Chain(reg, c), from, fromNext) && from <= k
    requires OnTheWay(c, Chain(reg, c), s, t, k, next)
    ensures Forward(reg, s, t)
  {
    PositionIs(reg, s, c, from, fromNext);
    MoveIsForward(reg, s, t, c, k, next);
  }

  /** The collection of step `n` stands at `k`, no further back than the link before the step's own. */
  ghost predicate Before(reg: Registry, s: Store, step: Step, j: nat, k: nat, next: Next)
  {
    && step.PatchVersioned? && step.collection != ""
    && var chain := Chain(reg, step.collection);
    && Unrepeated(chain) && Adds(step, chain, j) && j - 1 <= k
    && Located(s, step.collection, chain) && At(s, step.collection, chain, k, next) && Exact(s, chain, j)
  }

  lemma {:induction false} StandsBefore(reg: Registry, s: Store, n: nat) returns (j: nat, k: nat, next: Next)
    requires WellFormed(reg) && OnChain(reg, s) && n < |reg.steps| && Done(reg, s, n)
    requires reg.steps[n].PatchVersioned?
    ensures Before(reg, s, reg.steps[n], j, k, next)
    ensures |Prescribed(reg, n + 1, reg.steps[n].collection)| == j + 1
    ensures UndisturbedAt(reg, s, n) <==> Derives(s, reg.steps[n], Chain(reg, reg.steps[n].collection), j)
    ensures forall d | d != reg.steps[n].collection :: Prescribed(reg, n + 1, d) == Prescribed(reg, n, d)
  {
    var c := reg.steps[n].collection;
    j := StepAdds(reg, n);
    assert DoneFor(reg, s, n, c);
    k, next :| At(s, c, Chain(reg, c), k, next) && k >= j - 1;
    ChainUnrepeated(reg, c);
    ManagedNamesAreReal(reg, c);
  }

  /** Writes that keep to the chain climb. */
  lemma {:induction false} LeadClimbs(
      reg: Registry, s: Store, c: string, k: nat, from: Next, to: nat, next: Next, writes: seq<Store>)
    requires WellFormed(reg) && OnChain(reg, s) && At(s, c, Chain(reg, c), k, from) && k <= to
    requires Lead(c, Chain(reg, c), s, k, to, next, writes)
    ensures Climbs(reg, s, writes) && OnChain(reg, After(s, writes))
    ensures OnTheWay(c, Chain(reg, c), s, After(s, writes), to, next)
    decreases |writes|
  {
    hide WellFormed, Located, At, Touches, Forward, OnChain, Chain;
    if |writes| <= 1 {
      WriteIsForward(reg, s, After(s, writes), c, k, from, to, next);
    } else {
      var mid :| OnTheWay(c, Chain(reg, c), s, writes[0], k, mid);
      WriteIsForward(reg, s, writes[0], c, k, from, k, mid);
      LeadClimbs(reg, writes[0], c, k, mid, to, next, writes[1..]);
      TouchesBoth(c, Chain(reg, c), s, writes[0], After(s, writes));
    }
  }

  lemma {:induction false} TouchesBoth(c: string, chain: seq<Link>, s: Store, t: Store, u: Store)
    requires Touches(c, chain, s, t) && Touches(c, chain, t, u)
    ensures Touches(c, chain, s, u)
  {
  }

  /** A completed prefix puts every collection it prescribes at least that far. */
  lemma {:induction false} DoneReaches(reg: Registry, s: Store, m: nat, c: string)
    requires DistinctPins(reg) && m <= |reg.steps| && Done(reg, s, m) && Prescribed(reg, m, c) != []
    ensures Position(s, c, Chain(reg, c)) >= |Prescribed(reg, m, c)| - 1
    ensures Exact(s, Chain(reg, c), |Prescribed(reg, m, c)|)
  {
    assert DoneFor(reg, s, m, c);
    var k: nat, next :| At(s, c, Chain(reg, c), k, next) && k >= |Prescribed(reg, m, c)| - 1;
    PositionIs(reg, s, c, k, next);
  }

  lemma {:induction false} TakesChainArm(reg: Registry, s: Store, step: Step, j: nat, k: nat, next: Next)
    requires Before(reg, s, step, j, k, next)
    ensures ApplyPatchVersioned(s, step) == Arm(s, Chain(reg, step.collection), step, j, k, next)
  {
    ChainThreaded(reg.baseline, reg.steps, step.collection);
    TakesArm(s, Chain(reg, step.collection), step, j, k, next);
  }

  lemma {:induction false} VersionedStep(reg: Registry, s: Store, n: nat)
    requires WellFormed(reg) && OnChain(reg, s) && n < |reg.steps| && Done(reg, s, n)
    requires reg.steps[n].PatchVersioned?
    ensures AchievesUnlessDisturbed(reg, s, n, ApplyPatchVersioned(s, reg.steps[n]))
  {
    var step := reg.steps[n];
    var c := step.collection;
    var j, k, next := StandsBefore(reg, s, n);
    TakesChainArm(reg, s, step, j, k, next);
    PositionIs(reg, s, c, k, next);
    if Done(reg, s, n + 1) {
      DoneReaches(reg, s, n + 1, c);
    }
    if j <= k {
      var run := ArmIsCurrent(s, Chain(reg, c), step, j, k, next);
      LeadClimbs(reg, s, c, k, next, k, next, run.writes);
      DoneAfter(reg, s, After(s, run.writes), n, c, k, next);
    } else if next != Patched && !Derives(s, step, Chain(reg, c), j) {
      ArmFails(s, Chain(reg, c), step, j, k, next);
    } else {
      var run := ArmApplies(s, Chain(reg, c), step, j, k, next);
      LeadClimbs(reg, s, c, k, next, j, Absent, run.writes);
      DoneAfter(reg, s, After(s, run.writes), n, c, j, Absent);
    }
  }

  // ----- the other kinds of step

  lemma {:induction false} AddedRoot(s: Store, c: string, chain: seq<Link>, sdl: Sdl)
    requires Unregistered(s, c, chain) && chain != [] && chain[0] == RootLink(sdl) && sdl.name == c != ""
    requires Unrepeated(chain)
    ensures AddSchema(s, sdl).Ok?
    ensures OnTheWay(c, chain, s, AddSchema(s, sdl).value, 0, Absent)
  {
    var t := AddSchema(s, sdl).value;
    assert Linked(chain, chain[0].id);
    assert Complete(t.versions[chain[0].id], c, chain[0], true);
  }

  /** Registering a managed collection keeps the store on the chain; a registered one is left alone. */
  lemma {:induction false} Registers(reg: Registry, s: Store, sdl: Sdl) returns (k: nat, next: Next)
    requires WellFormed(reg) && OnChain(reg, s) && sdl.name != ""
    requires Chain(reg, sdl.name) != [] && Chain(reg, sdl.name)[0] == RootLink(sdl)
    ensures match AddSchema(s, sdl)
            case Ok(t) => && k == 0 && OnTheWay(sdl.name, Chain(reg, sdl.name), s, t, k, next) && Forward(reg, s, t)
                          && Position(s, sdl.name, Chain(reg, sdl.name)) == -1
            case Err(e) => e == AlreadyExists && At(s, sdl.name, Chain(reg, sdl.name), k, next)
  {
    var c := sdl.name;
    assert Located(s, c, Chain(reg, c));
    if Unregistered(s, c, Chain(reg, c)) {
      ChainUnrepeated(reg, c);
      AddedRoot(s, c, Chain(reg, c), sdl);
      k, next := 0, Absent;
      MoveIsForward(reg, s, AddSchema(s, sdl).value, c, 0, Absent);
    } else {
      k, next :| At(s, c, Chain(reg, c), k, next);
    }
  }

  lemma {:induction false} AddedStep(reg: Registry, s: Store, n: nat)
    requires WellFormed(reg) && OnChain(reg, s) && n < |reg.steps| && Done(reg, s, n)
    requires reg.steps[n].AddCollection?
    ensures Achieves(reg, s, n, ApplyAddCollection(s, reg.steps[n]))
  {
    var step := reg.steps[n];
    var c := step.sdl.name;
    assert WellFormedStep(reg, n);
    NextPrescribed(reg, n);
    PrescribedIsPrefix(reg, n + 1, c);
    var k, next := Registers(reg, s, step.sdl);
    var t := if AddSchema(s, step.sdl).Ok? then AddSchema(s, step.sdl).value else s;
    assert Complete(t.versions[Chain(reg, c)[0].id], c, Chain(reg, c)[0], 0 == k);
    DoneAfter(reg, s, t, n, c, k, next);
    if Done(reg, s, n + 1) {
      DoneReaches(reg, s, n + 1, c);
    }
  }

  lemma {:induction false} InPlaceStep(reg: Registry, s: Store, n: nat)
    requires WellFormed(reg) && OnChain(reg, s) && n < |reg.steps| && Done(reg, s, n)
    requires reg.steps[n].PatchInPlace?
    ensures Achieves(reg, s, n, ApplyPatchInPlace(s, reg.steps[n]))
  {
    var c := reg.steps[n].collection;
    assert WellFormedStep(reg, n);
    NextPrescribed(reg, n);
    assert DoneFor(reg, s, n, c);
    var k: nat, next :| At(s, c, Chain(reg, c), k, next) && k >= |Prescribed(reg, n, c)| - 1;
    assert Complete(s.versions[Chain(reg, c)[k].id], c, Chain(reg, c)[k], true);
    var m := n + 1;
    forall d | Prescribed(reg, m, d) != [] ensures DoneFor(reg, s, m, d) {
      assert DoneFor(reg, s, n, d);
    }
  }

  /** Every step of a well-formed registry succeeds from every store that finished
      the steps before it, unless the id it has to derive is disturbed. */
  lemma {:induction false} StepAchieves(reg: Registry, s: Store, n: nat)
    requires WellFormed(reg) && OnChain(reg, s) && n < |reg.steps| && Done(reg, s, n)
    ensures AchievesUnlessDisturbed(reg, s, n, ApplyStep(s, reg.steps[n]))
  {
    match reg.steps[n]
    case AddCollection(_, _, _) => AddedStep(reg, s, n);
    case PatchVersioned(_, _, _, _, _, _) => VersionedStep(reg, s, n);
    case PatchInPlace(_, _, _) => InPlaceStep(reg, s, n);
  }

  // ----- whole passes

  /** The first `n` steps run from `s` to a store that has them done. */
  ghost predicate Ran(reg: Registry, s: Store, n: nat, run: StepsRun)
    requires n <= |reg.steps|
  {
    var t := After(s, run.writes);
    && run.fault.None?
    && Climbs(reg, s, run.writes) && OnChain(reg, t) && Done(reg, t, n)
    && run.tally.applied + run.tally.current == n
  }

  lemma {:induction false} StepsRan(reg: Registry, s: Store, n: nat)
    requires WellFormed(reg) && OnChain(reg, s) && Done(reg, s, 0) && n <= |reg.steps|
    ensures ApplySteps(s, reg.steps[..n]).fault.None? ==> Ran(reg, s, n, ApplySteps(s, reg.steps[..n]))
    ensures Undisturbed(reg, s) ==> ApplySteps(s, reg.steps[..n]).fault.None?
    ensures var run := ApplySteps(s, reg.steps[..n]); run.writes == [] ==> run.fault.None? || run.fault == Some(StepFailed)
  {
    hide WellFormed, ApplyStep, Done, UndisturbedAt, Forward;
    if n > 0 {
      StepsRan(reg, s, n - 1);
      var front := ApplySteps(s, reg.steps[..n - 1]);
      assert reg.steps[..n][..n - 1] == reg.steps[..n - 1];
      if front.fault.None? {
        var t := After(s, front.writes);
        StepAchieves(reg, t, n - 1);
        var run := ApplyStep(t, reg.steps[n - 1]);
        ApplyOneMore(s, reg.steps, n - 1, front, run);
        if run.outcome.Failed? {
          if Undisturbed(reg, s) {
            RanUndisturbed(reg, s, front.writes);
          }
        } else {
          RanOneMore(reg, s, n - 1, front, run);
        }
      }
    }
  }

  lemma {:induction false} RanUndisturbed(reg: Registry, s: Store, writes: seq<Store>)
    requires WellFormed(reg) && OnChain(reg, s) && Climbs(reg, s, writes) && Undisturbed(reg, s)
    ensures Undisturbed(reg, After(s, writes))
  {
    ClimbCut(reg, s, writes, |writes|);
    assert writes[..|writes|] == writes;
    hide WellFormed, OnChain, Undisturbed;
    StaysUndisturbed(reg, s, After(s, writes));
  }

  lemma {:induction false} RanOneMore(reg: Registry, s: Store, n: nat, front: StepsRun, run: Run)
    requires n < |reg.steps| && Ran(reg, s, n, front) && Achieves(reg, After(s, front.writes), n, run)
    ensures Ran(reg, s, n + 1, Extend(front, run))
  {
    hide OnChain, Forward, Done;
    AfterBoth(s, [], front.writes, run.writes);
    ClimbsOn(reg, s, front.writes, run.writes);
  }

  // ----- the baseline

  lemma {:induction false} EntryRoot(baseline: seq<Baseline>, i: nat)
    requires i < |baseline|
    requires forall a, b | 0 <= a < b < |baseline| :: baseline[a].name != baseline[b].name
    ensures RootChain(baseline, baseline[i].name) == [RootLink(baseline[i].sdl)]
    ensures LastBaselinePin(baseline, baseline[i].name) == baseline[i].pin
  {
    var last := |baseline| - 1;
    if i < last {
      EntryRoot(baseline[..last], i);
    } else if baseline[i].pin.None? {
      NoEarlierPin(baseline[..last], baseline[i].name);
    }
  }

  lemma {:induction false} NoEarlierPin(baseline: seq<Baseline>, name: string)
    requires forall a | 0 <= a < |baseline| :: baseline[a].name != name
    ensures LastBaselinePin(baseline, name) == None
  {
    if baseline != [] {
      NoEarlierPin(baseline[..|baseline| - 1], name);
    }
  }

  /** A baseline entry is the first link of its collection's chain. */
  lemma {:induction false} EntryIsFirst(reg: Registry, i: nat)
    requires WellFormedBaseline(reg) && i < |reg.baseline|
    ensures Chain(reg, reg.baseline[i].name) != []
    ensures Chain(reg, reg.baseline[i].name)[0] == RootLink(reg.baseline[i].sdl)
    ensures Prescribed(reg, 0, reg.baseline[i].name) == [RootLink(reg.baseline[i].sdl)]
  {
    EntryRoot(reg.baseline, i);
    assert reg.steps[..0] == [];
    PrescribedIsPrefix(reg, 0, reg.baseline[i].name);
  }

  ghost predicate RegisteredAll(reg: Registry, s: Store, n: nat)
    requires n <= |reg.baseline|
  {
    forall i | 0 <= i < n :: Position(s, reg.baseline[i].name, Chain(reg, reg.baseline[i].name)) >= 0
  }

  ghost predicate RanBaseline(reg: Registry, s: Store, n: nat, run: BaselineRun)
    requires n <= |reg.baseline|
  {
    var t := After(s, run.writes);
    && run.ok && Climbs(reg, s, run.writes) && OnChain(reg, t) && RegisteredAll(reg, t, n)
    && (RegisteredAll(reg, s, n) ==> run.writes == [])
  }

  lemma {:induction false} BaselineRan(reg: Registry, s: Store, n: nat)
    requires WellFormed(reg) && OnChain(reg, s) && n <= |reg.baseline|
    ensures RanBaseline(reg, s, n, RegisterBaseline(s, reg.baseline[..n]))
  {
    hide OnChain, Forward, Position;
    if n > 0 {
      var m := n - 1;
      BaselineRan(reg, s, m);
      assert reg.baseline[..n][..m] == reg.baseline[..m];
      BaselineOneMore(reg, s, m, RegisterBaseline(s, reg.baseline[..m]));
    }
  }

  lemma {:induction false} BaselineOneMore(reg: Registry, s: Store, m: nat, front: BaselineRun)
    requires WellFormed(reg) && m < |reg.baseline| && OnChain(reg, s) && RanBaseline(reg, s, m, front)
    ensures match AddSchema(After(s, front.writes), reg.baseline[m].sdl)
            case Ok(u) => RanBaseline(reg, s, m + 1, front.(writes := front.writes + [u], registered := front.registered + 1))
            case Err(e) => e == AlreadyExists && RanBaseline(reg, s, m + 1, front.(present := front.present + 1))
  {
    hide OnChain, SameForeign, Located, At, Touches, Position, DistinctPins, WellFormedStep;
    var t := After(s, front.writes);
    var sdl := reg.baseline[m].sdl;
    assert WellFormedEntry(reg, reg.baseline[m]);
    EntryIsFirst(reg, m);
    var k, next := Registers(reg, t, sdl);
    match AddSchema(t, sdl)
    case Ok(u) =>
      PositionOf(reg, u, sdl.name, k, next);
      assert Climbs(reg, t, [u]);
      ClimbsOn(reg, s, front.writes, [u]);
      StillRegistered(reg, t, u, m);
    case Err(_) =>
      PositionOf(reg, t, sdl.name, k, next);
  }

  lemma {:induction false} PositionOf(reg: Registry, s: Store, c: string, k: nat, next: Next)
    requires WellFormed(reg) && At(s, c, Chain(reg, c), k, next)
    ensures Position(s, c, Chain(reg, c)) == k
  {
    PositionIs(reg, s, c, k, next);
  }

  lemma {:induction false} StillRegistered(reg: Registry, t: Store, u: Store, m: nat)
    requires WellFormedBaseline(reg) && m <= |reg.baseline| && RegisteredAll(reg, t, m) && Forward(reg, t, u)
    ensures RegisteredAll(reg, u, m)
  {
    forall i | 0 <= i < m ensures Position(u, reg.baseline[i].name, Chain(reg, reg.baseline[i].name)) >= 0 {
      EntryIsFirst(reg, i);
      assert Position(t, reg.baseline[i].name, Chain(reg, reg.baseline[i].name)) >= 0;
    }
  }

  // ----- verification of the completed store

  lemma {:induction false} GroupMembers(all: seq<Version>, name: string, v: Version)
    ensures v in Group(all, name) <==> v in all && !v.isPlaceholder && v.name == name != ""
  {
    if all != [] {
      GroupMembers(all[1..], name, v);
    }
  }

  lemma {:induction false} GroupDistinct(all: seq<Version>, name: string)
    requires forall i, j | 0 <= i < j < |all| :: all[i].id != all[j].id
    ensures forall i, j | 0 <= i < j < |Group(all, name)| :: Group(all, name)[i].id != Group(all, name)[j].id
  {
    if all != [] {
      GroupDistinct(all[1..], name);
      forall v | v in Group(all[1..], name) ensures v.id != all[0].id {
        GroupMembers(all[1..], name, v);
      }
    }
  }

  /** The pins of the versioned steps are known, and the last of them is the target. */
  lemma {:induction false} StepPinsKnown(reg: Registry, n: nat, c: string)
    requires WellFormed(reg) && n <= |reg.steps|
    ensures forall i | 0 < i < |Prescribed(reg, n, c)| :: Prescribed(reg, n, c)[i].id in KnownPins(reg)
    ensures var last := LastStepPin(reg.steps[..n], c);
            && (last.None? ==> |Prescribed(reg, n, c)| <= 1)
            && (last.Some? ==> |Prescribed(reg, n, c)| > 1
                               && last.value == Prescribed(reg, n, c)[|Prescribed(reg, n, c)| - 1].id)
  {
    if n == 0 {
      assert reg.steps[..0] == [];
      if RootChain(reg.baseline, c) != [] {
        RootIsListed(reg.baseline, c);
      }
    } else {
      StepPinsKnown(reg, n - 1, c);
      assert WellFormedStep(reg, n - 1);
      assert reg.steps[..n][..n - 1] == reg.steps[..n - 1];
      NextPrescribed(reg, n - 1);
      var step := reg.steps[n - 1];
      assert StepPin(step).Some? ==> StepPin(step).value in KnownPins(reg);
    }
  }

  /** In a completed store a collection's complete versions are exactly its links, if none is foreign. */
  lemma {:induction false} GroupIsChain(reg: Registry, s: Store, all: seq<Version>, c: string, v: Version)
    requires WellFormed(reg) && AtEnd(reg, s) && Lists(all, s) && Chain(reg, c) != []
    requires ForeignIds(s, c, Chain(reg, c)) == {}
    ensures v in Group(all, c) <==>
            exists i :: 0 <= i < |Chain(reg, c)| && Chain(reg, c)[i].id in s.versions && v == s.versions[Chain(reg, c)[i].id]
  {
    var chain := Chain(reg, c);
    ManagedNamesAreReal(reg, c);
    GroupMembers(all, c, v);
    assert At(s, c, chain, |chain| - 1, Absent);
    if v in Group(all, c) {
      ListedIsStored(all, v);
      assert v.id !in ForeignIds(s, c, chain) && Linked(chain, v.id);
    }
    if i :| 0 <= i < |chain| && chain[i].id in s.versions && v == s.versions[chain[i].id] {
      assert Complete(v, c, chain[i], i == |chain| - 1);
      assert Find(all, chain[i].id) == Some(v);
    }
  }

  lemma {:induction false} GroupIsKnown(reg: Registry, s: Store, all: seq<Version>, i: nat, v: Version)
    requires WellFormed(reg) && AtEnd(reg, s) && Lists(all, s) && i < |reg.baseline|
    requires ForeignIds(s, reg.baseline[i].name, Chain(reg, reg.baseline[i].name)) == {}
    requires v in Group(all, reg.baseline[i].name) && |Group(all, reg.baseline[i].name)| > 1
    ensures v.id in KnownPins(reg)
  {
    hide ForeignIds;
    var entry := reg.baseline[i];
    var chain := Chain(reg, entry.name);
    assert WellFormedEntry(reg, entry);
    EntryIsFirst(reg, i);
    GroupIsChain(reg, s, all, entry.name, v);
    var k :| 0 <= k < |chain| && chain[k].id in s.versions && v == s.versions[chain[k].id];
    StepPinsKnown(reg, |reg.steps|, entry.name);
    assert reg.steps[..|reg.steps|] == reg.steps;
    if |chain| == 1 {
      OneLinkOneVersion(reg, s, all, entry.name);
    }
  }

  /** The active version of a completed collection is its last link. */
  lemma {:induction false} SelectedIsTip(reg: Registry, s: Store, all: seq<Version>, c: string)
    requires WellFormed(reg) && AtEnd(reg, s) && Lists(all, s) && Chain(reg, c) != []
    requires ForeignIds(s, c, Chain(reg, c)) == {}
    ensures Group(all, c) != []
    ensures var tip := Chain(reg, c)[|Chain(reg, c)| - 1];
            && Selected(Group(all, c)).id == tip.id && Selected(Group(all, c)).fields == tip.fields
    ensures exists v :: v in Group(all, c) && v.id == Chain(reg, c)[0].id
  {
    hide WellFormed, ForeignIds;
    var chain := Chain(reg, c);
    var group := Group(all, c);
    assert At(s, c, chain, |chain| - 1, Absent);
    var tip := s.versions[chain[|chain| - 1].id];
    assert Complete(tip, c, chain[|chain| - 1], true);
    GroupIsChain(reg, s, all, c, tip);
    assert tip in group && tip.isActive;
    GroupIsChain(reg, s, all, c, s.versions[chain[0].id]);
    assert Complete(s.versions[chain[0].id], c, chain[0], 0 == |chain| - 1);
    var chosen := Selected(group);
    GroupIsChain(reg, s, all, c, chosen);
    var k :| 0 <= k < |chain| && chosen == s.versions[chain[k].id];
    assert Complete(chosen, c, chain[k], k == |chain| - 1);
  }

  /** The target of a baseline collection, when one is pinned, is its last link. */
  lemma {:induction false} TargetIsTip(reg: Registry, i: nat)
    requires WellFormed(reg) && i < |reg.baseline|
    ensures var c := reg.baseline[i].name;
            && Chain(reg, c) != []
            && (TargetPin(reg, c).Some? ==> TargetPin(reg, c).value == Chain(reg, c)[|Chain(reg, c)| - 1].id)
  {
    var entry := reg.baseline[i];
    assert WellFormedEntry(reg, entry);
    EntryIsFirst(reg, i);
    EntryRoot(reg.baseline, i);
    StepPinsKnown(reg, |reg.steps|, entry.name);
    assert reg.steps[..|reg.steps|] == reg.steps;
  }

  lemma {:induction false} EntryVerifies(reg: Registry, s: Store, all: seq<Version>, i: nat)
    requires WellFormed(reg) && AtEnd(reg, s) && Lists(all, s) && i < |reg.baseline|
    requires ForeignIds(s, reg.baseline[i].name, Chain(reg, reg.baseline[i].name)) == {}
    ensures var entry := reg.baseline[i];
            VerifyCollection(entry, Group(all, entry.name), KnownPins(reg), TargetPin(reg, entry.name)) == None
  {
    hide ForeignIds, AtEnd, Lists, KnownPins, TargetPin, DistinctPins;
    var entry := reg.baseline[i];
    var group := Group(all, entry.name);
    assert WellFormedEntry(reg, entry);
    EntryIsFirst(reg, i);
    TargetIsTip(reg, i);
    SelectedIsTip(reg, s, all, entry.name);
    forall v | v in group ensures |group| > 1 ==> v.id in KnownPins(reg) {
      if |group| > 1 {
        GroupIsKnown(reg, s, all, i, v);
      }
    }
  }

  lemma {:induction false} OneLinkOneVersion(reg: Registry, s: Store, all: seq<Version>, c: string)
    requires WellFormed(reg) && AtEnd(reg, s) && Lists(all, s)
    requires |Chain(reg, c)| == 1 && ForeignIds(s, c, Chain(reg, c)) == {}
    ensures |Group(all, c)| <= 1
  {
    var group := Group(all, c);
    GroupDistinct(all, c);
    if |group| > 1 {
      GroupIsChain(reg, s, all, c, group[0]);
      GroupIsChain(reg, s, all, c, group[1]);
    }
  }

  /** No foreign version stands beside a baseline collection. */
  ghost predicate CleanBaseline(reg: Registry, s: Store)
  {
    forall i | 0 <= i < |reg.baseline| :: ForeignIds(s, reg.baseline[i].name, Chain(reg, reg.baseline[i].name)) == {}
  }

  lemma {:induction false} BaselinesVerify(reg: Registry, s: Store, all: seq<Version>, i: nat)
    requires WellFormed(reg) && AtEnd(reg, s) && Lists(all, s) && i <= |reg.baseline| && CleanBaseline(reg, s)
    ensures VerifyBaselines(reg, all, i) == None
    decreases |reg.baseline| - i
  {
    hide WellFormed, AtEnd, Lists, ForeignIds;
    if i < |reg.baseline| {
      EntryVerifies(reg, s, all, i);
      BaselinesVerify(reg, s, all, i + 1);
    }
  }

  lemma {:induction false} AddedVerify(reg: Registry, s: Store, all: seq<Version>, n: nat)
    requires WellFormed(reg) && AtEnd(reg, s) && Lists(all, s) && n <= |reg.steps|
    ensures VerifyAdded(all, reg.steps[n..]) == None
    decreases |reg.steps| - n
  {
    if n < |reg.steps| {
      AddedVerify(reg, s, all, n + 1);
      assert reg.steps[n..][1..] == reg.steps[n + 1..];
      if reg.steps[n].AddCollection? {
        var c := reg.steps[n].sdl.name;
        assert WellFormedStep(reg, n);
        NextPrescribed(reg, n);
        PrescribedIsPrefix(reg, n + 1, c);
        var chain := Chain(reg, c);
        assert At(s, c, chain, |chain| - 1, Absent);
        assert Complete(s.versions[chain[0].id], c, chain[0], 0 == |chain| - 1);
      }
    }
  }

  /** Every pin the verification knows is a link of some chain. */
  lemma {:induction false} KnownIsPinned(reg: Registry, id: VersionId)
    requires WellFormed(reg) && id in KnownPins(reg)
    ensures Pinned(reg, id)
  {
    if i :| 0 <= i < |reg.baseline| && reg.baseline[i].pin == Some(id) {
      assert WellFormedEntry(reg, reg.baseline[i]);
      EntryIsFirst(reg, i);
      assert Linked(Chain(reg, reg.baseline[i].name), id);
    } else {
      var n :| 0 <= n < |reg.steps| && StepPin(reg.steps[n]) == Some(id);
      assert WellFormedStep(reg, n);
      NextPrescribed(reg, n);
      var c := if reg.steps[n].AddCollection? then reg.steps[n].sdl.name else reg.steps[n].collection;
      PrescribedIsPrefix(reg, n + 1, c);
      var k := |Prescribed(reg, n + 1, c)| - 1;
      assert Chain(reg, c)[k].id == id;
      assert Linked(Chain(reg, c), id);
    }
  }

  /** A foreign version beside a baseline collection fails that collection. */
  lemma {:induction false} ForeignFails(reg: Registry, s: Store, all: seq<Version>, i: nat, id: VersionId)
    requires WellFormed(reg) && OnChain(reg, s) && AtEnd(reg, s) && Lists(all, s) && i < |reg.baseline|
    requires id in ForeignIds(s, reg.baseline[i].name, Chain(reg, reg.baseline[i].name))
    ensures var entry := reg.baseline[i];
            VerifyCollection(entry, Group(all, entry.name), KnownPins(reg), TargetPin(reg, entry.name)).Some?
  {
    var entry := reg.baseline[i];
    var c, chain, group := entry.name, Chain(reg, entry.name), Group(all, entry.name);
    EntryIsFirst(reg, i);
    ForeignIsUnpinned(reg, s, c, id);
    if id in KnownPins(reg) {
      KnownIsPinned(reg, id);
    }
    var v, root := s.versions[id], s.versions[chain[0].id];
    TwoInGroup(reg, s, all, c, id);
    assert v in group && v.id !in KnownPins(reg) && root in group && v != root;
    hide KnownPins, TargetPin, Group;
    assert |group| > 1;
  }

  lemma {:induction false} TwoInGroup(reg: Registry, s: Store, all: seq<Version>, c: string, id: VersionId)
    requires WellFormed(reg) && OnChain(reg, s) && AtEnd(reg, s) && Lists(all, s) && Chain(reg, c) != []
    requires id in ForeignIds(s, c, Chain(reg, c))
    ensures Chain(reg, c)[0].id in s.versions && s.versions[id] != s.versions[Chain(reg, c)[0].id]
    ensures s.versions[id] in Group(all, c) && s.versions[Chain(reg, c)[0].id] in Group(all, c)
  {
    var chain := Chain(reg, c);
    ManagedNamesAreReal(reg, c);
    assert Located(s, c, chain) && At(s, c, chain, |chain| - 1, Absent);
    assert Complete(s.versions[chain[0].id], c, chain[0], 0 == |chain| - 1);
    assert Linked(chain, chain[0].id);
    assert Find(all, id) == Some(s.versions[id]) && Find(all, chain[0].id) == Some(s.versions[chain[0].id]);
    GroupMembers(all, c, s.versions[id]);
    GroupMembers(all, c, s.versions[chain[0].id]);
  }

  lemma {:induction false} CleanIsKept(reg: Registry, s: Store, t: Store)
    requires WellFormed(reg) && OnChain(reg, s) && OnChain(reg, t) && SameForeign(reg, s, t)
    ensures CleanBaseline(reg, s) <==> CleanBaseline(reg, t)
  {
    hide OnChain, SameForeign, ForeignIds;
    forall i | 0 <= i < |reg.baseline|
      ensures ForeignIds(s, reg.baseline[i].name, Chain(reg, reg.baseline[i].name))
           == ForeignIds(t, reg.baseline[i].name, Chain(reg, reg.baseline[i].name))
    {
      EntryIsFirst(reg, i);
      ForeignIsKept(reg, s, t, reg.baseline[i].name);
    }
  }

  /** A fault of one entry is a fault of the baseline. */
  lemma {:induction false} OneFaultFails(reg: Registry, all: seq<Version>, from: nat, i: nat)
    requires from <= i < |reg.baseline|
    requires var entry := reg.baseline[i];
             VerifyCollection(entry, Group(all, entry.name), KnownPins(reg), TargetPin(reg, entry.name)).Some?
    ensures VerifyBaselines(reg, all, from).Some?
    decreases i - from
  {
    if from < i {
      OneFaultFails(reg, all, from + 1, i);
    }
  }

  /** A completed store passes lineage verification, in whatever order it is listed,
      exactly when no foreign version stands beside a baseline collection. */
  lemma {:induction false} CompletedVerifies(reg: Registry, s: Store, all: seq<Version>)
    requires WellFormed(reg) && OnChain(reg, s) && AtEnd(reg, s) && Lists(all, s)
    ensures VerifyLineages(reg, all) == None <==> CleanBaseline(reg, s)
  {
    hide WellFormed, OnChain, AtEnd, Lists, ForeignIds, VerifyCollection;
    if CleanBaseline(reg, s) {
      BaselinesVerify(reg, s, all, 0);
      AddedVerify(reg, s, all, 0);
      assert reg.steps[0..] == reg.steps;
    } else {
      var i :| 0 <= i < |reg.baseline| && ForeignIds(s, reg.baseline[i].name, Chain(reg, reg.baseline[i].name)) != {};
      var id :| id in ForeignIds(s, reg.baseline[i].name, Chain(reg, reg.baseline[i].name));
      ForeignFails(reg, s, all, i, id);
      OneFaultFails(reg, all, 0, i);
    }
  }
}
