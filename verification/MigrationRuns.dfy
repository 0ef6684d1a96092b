/**
 What the migration engine guarantees over whole passes and over runs of
 passes cut at any point.
 */
module MigrationRuns {
  import opened Prelude
  import opened MigrationNode
  import opened MigrationEngine
  import opened MigrationChain
  import opened MigrationResumption
  import opened MigrationTheorems

  // ----- one pass from any store along the chain

  lemma {:induction false} BaselineDone(reg: Registry, s: Store)
    requires WellFormed(reg) && OnChain(reg, s) && RegisteredAll(reg, s, |reg.baseline|)
    ensures Done(reg, s, 0)
  {
    forall c | Prescribed(reg, 0, c) != [] ensures DoneFor(reg, s, 0, c) {
      assert reg.steps[..0] == [];
      RootIsListed(reg.baseline, c);
      var i :| 0 <= i < |reg.baseline| && reg.baseline[i].name == c;
      EntryIsFirst(reg, i);
      assert Position(s, reg.baseline[i].name, Chain(reg, reg.baseline[i].name)) >= 0;
      assert Located(s, c, Chain(reg, c));
    }
  }

  /** Finishing all steps is standing at the end of every chain. */
  lemma {:induction false} DoneIsEnd(reg: Registry, s: Store)
    requires Done(reg, s, |reg.steps|)
    ensures AtEnd(reg, s)
  {
    var n := |reg.steps|;
    assert reg.steps[..n] == reg.steps;
    forall c | Chain(reg, c) != []
      ensures At(s, c, Chain(reg, c), |Chain(reg, c)| - 1, Absent) && Exact(s, Chain(reg, c), |Chain(reg, c)|)
    {
      assert Prescribed(reg, n, c) == Chain(reg, c);
      assert DoneFor(reg, s, n, c);
    }
  }

  lemma {:induction false} EndIsDone(reg: Registry, s: Store, n: nat)
    requires WellFormed(reg) && AtEnd(reg, s) && n <= |reg.steps|
    ensures Done(reg, s, n)
  {
    forall c | Prescribed(reg, n, c) != [] ensures DoneFor(reg, s, n, c) {
      PrescribedIsPrefix(reg, n, c);
      assert At(s, c, Chain(reg, c), |Chain(reg, c)| - 1, Absent);
    }
  }

  /** From any store along the chain an uninterrupted pass climbs to the completed
      store, or fails a step; it fails none if no foreign version disturbs an id. */
  lemma {:induction false} PassEnds(reg: Registry, s: Store)
    requires WellFormed(reg) && OnChain(reg, s)
    ensures Undisturbed(reg, s) ==> PassSteps(s, reg).fault == None
    ensures PassWrites(s, reg) == [] ==> PassSteps(s, reg).fault == None || PassSteps(s, reg).fault == Some(StepFailed)
    ensures PassSteps(s, reg).fault == None ==> Climbs(reg, s, PassWrites(s, reg))
    ensures PassSteps(s, reg).fault == None ==>
              OnChain(reg, After(s, PassWrites(s, reg))) && AtEnd(reg, After(s, PassWrites(s, reg)))
  {
    hide WellFormed, OnChain, Done, AtEnd, Undisturbed;
    BaselineRan(reg, s, |reg.baseline|);
    assert reg.baseline[..|reg.baseline|] == reg.baseline;
    var base := RegisterBaseline(s, reg.baseline);
    var t := After(s, base.writes);
    BaselineDone(reg, t);
    if Undisturbed(reg, s) {
      RanUndisturbed(reg, s, base.writes);
    }
    StepsRan(reg, t, |reg.steps|);
    assert reg.steps[..|reg.steps|] == reg.steps;
    var steps := ApplySteps(t, reg.steps);
    if steps.fault == None {
      DoneIsEnd(reg, After(t, steps.writes));
      ClimbsOn(reg, s, base.writes, steps.writes);
      AfterBoth(s, [], base.writes, steps.writes);
    }
  }

  /** Undisturbed, an uninterrupted pass from any store along the chain completes. */
  lemma {:induction false} PassCompletes(reg: Registry, s: Store)
    requires WellFormed(reg) && OnChain(reg, s) && Undisturbed(reg, s)
    ensures PassSteps(s, reg).fault == None
    ensures Climbs(reg, s, PassWrites(s, reg)) && SameForeign(reg, s, After(s, PassWrites(s, reg)))
    ensures OnChain(reg, After(s, PassWrites(s, reg))) && AtEnd(reg, After(s, PassWrites(s, reg)))
  {
    hide WellFormed, OnChain, AtEnd, Undisturbed, PassWrites, PassSteps;
    PassEnds(reg, s);
    var writes := PassWrites(s, reg);
    ClimbCut(reg, s, writes, |writes|);
    assert writes[..|writes|] == writes;
  }

  /** The completed store is where every climb over the same unmanaged content ends. */
  lemma {:induction false} PassIsConfluent(reg: Registry, s: Store, t: Store)
    requires WellFormed(reg) && OnChain(reg, s) && OnChain(reg, t) && SameForeign(reg, s, t) && Undisturbed(reg, s)
    ensures After(s, PassWrites(s, reg)) == After(t, PassWrites(t, reg))
  {
    hide WellFormed, OnChain, AtEnd, PassWrites, PassSteps, Position, Undisturbed, Climbs;
    var sw, tw := PassWrites(s, reg), PassWrites(t, reg);
    StaysUndisturbed(reg, s, t);
    PassCompletes(reg, s);
    PassCompletes(reg, t);
    EndIsUnique(reg, After(s, sw), After(t, tw));
  }

  // ----- runs of interrupted passes

  /** The store after passes that stop after the given numbers of node writes. */
  ghost function Interrupted(s: Store, reg: Registry, cuts: seq<nat>): Store
  {
    if cuts == [] then s
    else
      var t := Interrupted(s, reg, cuts[..|cuts| - 1]);
      var writes := PassWrites(t, reg);
      After(t, writes[..Min(cuts[|cuts| - 1], |writes|)])
  }

  function Min(a: nat, b: nat): nat
  {
    if a <= b then a else b
  }

  /** Every store an interrupted run can leave lies on the chain, forward of the start. */
  lemma {:induction false} InterruptedIsForward(reg: Registry, s: Store, cuts: seq<nat>)
    requires WellFormed(reg) && OnChain(reg, s) && Undisturbed(reg, s)
    ensures OnChain(reg, Interrupted(s, reg, cuts)) && Forward(reg, s, Interrupted(s, reg, cuts))
    ensures Undisturbed(reg, Interrupted(s, reg, cuts))
  {
    hide WellFormed, PassWrites, PassSteps, Undisturbed, AtEnd;
    if cuts != [] {
      InterruptedIsForward(reg, s, cuts[..|cuts| - 1]);
      var t := Interrupted(s, reg, cuts[..|cuts| - 1]);
      var writes := PassWrites(t, reg);
      PassCompletes(reg, t);
      ClimbCut(reg, t, writes, Min(cuts[|cuts| - 1], |writes|));
      ForwardTransitive(reg, s, t, Interrupted(s, reg, cuts));
      StaysUndisturbed(reg, s, Interrupted(s, reg, cuts));
    }
  }

  /** Crash resumption.  Whatever sequence of passes was cut between whichever
      node calls, the next uninterrupted pass leaves the store of a pass that was
      never interrupted, and however the node lists its versions it succeeds
      exactly when no foreign version stands beside a baseline collection. */
  lemma {:induction false} CrashResumption(reg: Registry, s: Store, cuts: seq<nat>, all: seq<Version>)
    requires WellFormed(reg) && OnChain(reg, s) && Undisturbed(reg, s)
    requires Lists(all, After(s, PassWrites(s, reg)))
    ensures var t := Interrupted(s, reg, cuts);
            && After(t, PassWrites(t, reg)) == After(s, PassWrites(s, reg))
            && (PassSucceeds(t, reg, all) <==> CleanBaseline(reg, s))
  {
    hide WellFormed, OnChain, AtEnd, PassWrites, PassSteps, VerifyLineages, Undisturbed, CleanBaseline, Climbs, SameForeign;
    var t := Interrupted(s, reg, cuts);
    InterruptedIsForward(reg, s, cuts);
    PassIsConfluent(reg, s, t);
    PassCompletes(reg, s);
    PassCompletes(reg, t);
    var end := After(s, PassWrites(s, reg));
    CompletedVerifies(reg, end, all);
    CleanIsKept(reg, s, end);
  }

  /** No rollback.  Between any two moments of an interrupted run, within a pass
      or across crashes, no collection's active version moves back. */
  lemma {:induction false} NoRollback(reg: Registry, s: Store, before: seq<nat>, after: seq<nat>, i: nat, j: nat, c: string)
    requires WellFormed(reg) && OnChain(reg, s) && Undisturbed(reg, s) && Chain(reg, c) != []
    requires before < after || (before == after && i <= j)
    requires i <= |PassWrites(Interrupted(s, reg, before), reg)|
    requires j <= |PassWrites(Interrupted(s, reg, after), reg)|
    requires before < after ==> i <= after[|before|]
    ensures var t, u := Interrupted(s, reg, before), Interrupted(s, reg, after);
            Position(After(t, PassWrites(t, reg)[..i]), c, Chain(reg, c))
            <= Position(After(u, PassWrites(u, reg)[..j]), c, Chain(reg, c))
  {
    hide WellFormed, PassWrites, PassSteps, Position, Chain, Forward, Undisturbed, AtEnd;
    var t, u := Interrupted(s, reg, before), Interrupted(s, reg, after);
    InterruptedIsForward(reg, s, before);
    InterruptedIsForward(reg, s, after);
    PassCompletes(reg, t);
    PassCompletes(reg, u);
    if before == after {
      ClimbNeverFalls(reg, t, PassWrites(t, reg), i, j, c);
    } else {
      var writes := PassWrites(t, reg);
      var next := after[..|before| + 1];
      assert next[..|before|] == before;
      ClimbNeverFalls(reg, t, writes, i, Min(after[|before|], |writes|), c);
      LaterIsForward(reg, s, next, after, c);
      ClimbNeverFalls(reg, u, PassWrites(u, reg), 0, j, c);
    }
  }

  lemma {:induction false} LaterIsForward(reg: Registry, s: Store, before: seq<nat>, after: seq<nat>, c: string)
    requires WellFormed(reg) && OnChain(reg, s) && Undisturbed(reg, s) && before <= after && Chain(reg, c) != []
    ensures Position(Interrupted(s, reg, before), c, Chain(reg, c)) <= Position(Interrupted(s, reg, after), c, Chain(reg, c))
    decreases |after|
  {
    hide WellFormed, PassWrites, PassSteps, Position, Chain, Forward, Undisturbed, AtEnd;
    if before == after {
    } else {
      var front := after[..|after| - 1];
      LaterIsForward(reg, s, before, front, c);
      InterruptedIsForward(reg, s, front);
      var t := Interrupted(s, reg, front);
      var writes := PassWrites(t, reg);
      PassCompletes(reg, t);
      ClimbNeverFalls(reg, t, writes, 0, Min(after[|after| - 1], |writes|), c);
    }
  }

  /** A store with nothing in it is on the chain, undisturbed and clean. */
  lemma {:induction false} FreshStoreIsOnChain(reg: Registry)
    requires WellFormed(reg)
    ensures var s := Store(map[], map[]); OnChain(reg, s) && Undisturbed(reg, s) && CleanBaseline(reg, s)
  {
    CleanIsUndisturbed(reg, Store(map[], map[]));
    var s := Store(map[], map[]);
    forall c | Chain(reg, c) != [] ensures Located(s, c, Chain(reg, c)) {
      assert Unregistered(s, c, Chain(reg, c));
    }
  }

  // ----- idempotence and accounting

  lemma {:induction false} SettledSteps(reg: Registry, s: Store, n: nat)
    requires WellFormed(reg) && OnChain(reg, s) && AtEnd(reg, s) && n <= |reg.steps|
    ensures ApplySteps(s, reg.steps[..n]) == StepsRun([], None, Tally(0, n, 0))
  {
    hide WellFormed, OnChain, AtEnd, ApplyStep;
    if n > 0 {
      SettledSteps(reg, s, n - 1);
      EndIsDone(reg, s, n - 1);
      EndIsDone(reg, s, n);
      StepAchieves(reg, s, n - 1);
      ApplyOneMore(s, reg.steps, n - 1, StepsRun([], None, Tally(0, n - 1, 0)), Run([], Current(0)));
    }
  }

  lemma {:induction false} EndIsRegistered(reg: Registry, s: Store)
    requires WellFormed(reg) && AtEnd(reg, s)
    ensures RegisteredAll(reg, s, |reg.baseline|)
  {
    forall i | 0 <= i < |reg.baseline|
      ensures Position(s, reg.baseline[i].name, Chain(reg, reg.baseline[i].name)) >= 0
    {
      var c := reg.baseline[i].name;
      EntryIsFirst(reg, i);
      assert At(s, c, Chain(reg, c), |Chain(reg, c)| - 1, Absent);
      PositionIs(reg, s, c, |Chain(reg, c)| - 1, Absent);
    }
  }

  /** A pass over a completed store writes nothing and finds every step current,
      whatever stands beside the chains. */
  lemma {:induction false} CompletedIsIdle(reg: Registry, s: Store)
    requires WellFormed(reg) && OnChain(reg, s) && AtEnd(reg, s)
    ensures PassWrites(s, reg) == [] && PassSteps(s, reg) == StepsRun([], None, Tally(0, |reg.steps|, 0))
  {
    hide WellFormed, OnChain, AtEnd, Position;
    EndIsRegistered(reg, s);
    BaselineRan(reg, s, |reg.baseline|);
    assert reg.baseline[..|reg.baseline|] == reg.baseline;
    SettledSteps(reg, s, |reg.steps|);
    assert reg.steps[..|reg.steps|] == reg.steps;
  }

  /** Idempotence.  After a pass a second one writes nothing, applies no step,
      repairs no edge, finds every step current, and succeeds exactly when the
      first did. */
  lemma {:induction false} SecondPassIsIdle(reg: Registry, s: Store, all: seq<Version>)
    requires WellFormed(reg) && OnChain(reg, s) && Undisturbed(reg, s)
    requires Lists(all, After(s, PassWrites(s, reg)))
    ensures var t := After(s, PassWrites(s, reg));
            && PassWrites(t, reg) == []
            && PassSteps(t, reg).tally == Tally(0, |reg.steps|, 0)
            && (PassSucceeds(t, reg, all) <==> PassSucceeds(s, reg, all))
            && (PassSucceeds(t, reg, all) <==> CleanBaseline(reg, s))
  {
    hide WellFormed, OnChain, AtEnd, VerifyLineages, Undisturbed, CleanBaseline, PassWrites, PassSteps, Climbs, SameForeign;
    var t := After(s, PassWrites(s, reg));
    PassCompletes(reg, s);
    CompletedIsIdle(reg, t);
    CompletedVerifies(reg, t, all);
    CleanIsKept(reg, s, t);
  }

  // ----- foreign versions

  /** A foreign version beside a baseline collection is refused by every pass,
      whether or not it disturbs the ids of later patches. */
  lemma {:induction false} ForeignIsRefused(reg: Registry, s: Store, all: seq<Version>)
    requires WellFormed(reg) && OnChain(reg, s) && !CleanBaseline(reg, s)
    requires Lists(all, After(s, PassWrites(s, reg)))
    ensures !PassSucceeds(s, reg, all)
  {
    hide WellFormed, OnChain, AtEnd, VerifyLineages, CleanBaseline, PassWrites, PassSteps, Undisturbed, SameForeign;
    PassEnds(reg, s);
    if PassSteps(s, reg).fault == None {
      var writes := PassWrites(s, reg);
      ClimbCut(reg, s, writes, |writes|);
      assert writes[..|writes|] == writes;
      CompletedVerifies(reg, After(s, writes), all);
      CleanIsKept(reg, s, After(s, writes));
    }
  }

  /** When it is refused before anything is written.  The lineage check comes after
      the steps, so a store with a foreign version is refused unwritten exactly
      when nothing was left to apply, unless the node itself rejects a patch
      whose id the foreign version disturbs.  Where no id is disturbed, it is the
      lineage check that refuses. */
  lemma {:induction false} RefusedUnwritten(reg: Registry, s: Store, all: seq<Version>)
    requires WellFormed(reg) && OnChain(reg, s) && !CleanBaseline(reg, s)
    requires Lists(all, After(s, PassWrites(s, reg)))
    ensures AtEnd(reg, s) ==> PassWrites(s, reg) == []
    ensures PassWrites(s, reg) == [] ==> AtEnd(reg, s) || PassSteps(s, reg).fault == Some(StepFailed)
    ensures Undisturbed(reg, s) ==> (PassWrites(s, reg) == [] <==> AtEnd(reg, s))
    ensures Undisturbed(reg, s) ==> PassSteps(s, reg).fault == None && VerifyLineages(reg, all).Some?
  {
    hide WellFormed, OnChain, AtEnd, VerifyLineages, CleanBaseline, PassWrites, PassSteps, Undisturbed, Climbs, SameForeign;
    PassEnds(reg, s);
    if AtEnd(reg, s) {
      CompletedIsIdle(reg, s);
    }
    if Undisturbed(reg, s) {
      PassCompletes(reg, s);
      ForeignIsRefused(reg, s, all);
    }
  }

  /** Accounting.  On any store and any registry, a pass that gets through its
      steps has counted every step once, and every baseline entry once. */
  lemma {:induction false} StepsAreCounted(s: Store, steps: seq<Step>)
    ensures var run := ApplySteps(s, steps);
            if run.fault.None? then run.tally.applied + run.tally.current == |steps|
            else run.tally.applied + run.tally.current < |steps|
  {
    hide ApplyStep;
    if steps != [] {
      StepsAreCounted(s, steps[..|steps| - 1]);
    }
  }

  lemma {:induction false} EntriesAreCounted(s: Store, baseline: seq<Baseline>)
    ensures var run := RegisterBaseline(s, baseline);
            if run.ok then run.registered + run.present == |baseline|
            else run.registered + run.present < |baseline|
    ensures |RegisterBaseline(s, baseline).writes| == RegisterBaseline(s, baseline).registered
  {
    if baseline != [] {
      EntriesAreCounted(s, baseline[..|baseline| - 1]);
    }
  }

  /** Verified lineage.  On any store and listing, a successful verification
      means of every pinned baseline collection that its root is there, every
      complete version is a known pin, and the selected version is the last pin
      and has the fields the entry expects. */
  lemma {:induction false} VerifiedLineage(reg: Registry, all: seq<Version>, i: nat)
    requires VerifyLineages(reg, all) == None && i < |reg.baseline| && reg.baseline[i].pin.Some?
    ensures var entry := reg.baseline[i];
            var group := Group(all, entry.name);
            && (exists v :: v in group && v.id == entry.pin.value)
            && (forall v | v in group :: v.id in KnownPins(reg))
            && group != [] && Some(Selected(group).id) == TargetPin(reg, entry.name)
            && (entry.expected.Some? ==> entry.expected.value <= Selected(group).fields)
  {
    EachEntryVerified(reg, all, 0, i);
    PinnedHasTarget(reg.baseline, i);
    var entry := reg.baseline[i];
    assert entry.pin.value in KnownPins(reg);
    var group := Group(all, entry.name);
    if |group| == 1 {
      assert group == [group[0]];
    }
  }

  /** Likewise every pinned added collection: its root is listed, with the expected fields. */
  lemma {:induction false} VerifiedAddition(reg: Registry, all: seq<Version>, n: nat)
    requires VerifyLineages(reg, all) == None && n < |reg.steps| && reg.steps[n].AddCollection? && reg.steps[n].pin.Some?
    ensures var step := reg.steps[n];
            && step.pin.value in ById(all)
            && (step.expected.Some? ==> step.expected.value <= ById(all)[step.pin.value].fields)
  {
    EachAdditionVerified(all, reg.steps, n);
  }

  lemma {:induction false} EachAdditionVerified(all: seq<Version>, steps: seq<Step>, n: nat)
    requires n < |steps| && VerifyAdded(all, steps) == None && steps[n].AddCollection? && steps[n].pin.Some?
    ensures Find(all, steps[n].pin.value).Some? && Verify(steps[n].expected, Find(all, steps[n].pin.value).value)
  {
    if n > 0 {
      EachAdditionVerified(all, steps[1..], n - 1);
    }
  }

  lemma {:induction false} EachEntryVerified(reg: Registry, all: seq<Version>, from: nat, i: nat)
    requires from <= i < |reg.baseline| && VerifyBaselines(reg, all, from) == None
    ensures var entry := reg.baseline[i];
            VerifyCollection(entry, Group(all, entry.name), KnownPins(reg), TargetPin(reg, entry.name)) == None
    decreases i - from
  {
    if from < i {
      EachEntryVerified(reg, all, from + 1, i);
    }
  }

  lemma {:induction false} PinnedHasTarget(baseline: seq<Baseline>, i: nat)
    requires i < |baseline| && baseline[i].pin.Some?
    ensures LastBaselinePin(baseline, baseline[i].name).Some?
  {
    if i < |baseline| - 1 {
      PinnedHasTarget(baseline[..|baseline| - 1], i);
    }
  }

  /** The known pins: those of baseline entries, added collections and versioned steps. */
  lemma {:induction false} KnownPinsExactly(reg: Registry, id: VersionId)
    ensures id in KnownPins(reg) <==>
            || (exists i :: 0 <= i < |reg.baseline| && reg.baseline[i].pin == Some(id))
            || (exists n :: 0 <= n < |reg.steps| && reg.steps[n].AddCollection? && reg.steps[n].pin == Some(id))
            || (exists n :: 0 <= n < |reg.steps| && reg.steps[n].PatchVersioned? && reg.steps[n].pin == Some(id))
  {
    if id in KnownPins(reg) {
      if n :| 0 <= n < |reg.steps| && StepPin(reg.steps[n]) == Some(id) {
        assert reg.steps[n].pin == Some(id);
      }
    }
    if n :| 0 <= n < |reg.steps| && !reg.steps[n].PatchInPlace? && reg.steps[n].pin == Some(id) {
      assert StepPin(reg.steps[n]).Some? && StepPin(reg.steps[n]).value == id;
    }
  }

  // ----- edges of the contract

  /** The arm that finds its destination active although the name pointer is
      elsewhere never succeeds, and never writes: it re-reads the pointer and
      refuses it. */
  lemma {:induction false} PointerLagIsRefused(s: Store, step: Step, active: Version)
    requires step.PatchVersioned? && step.pin.Some? && step.pin.value in s.versions
    requires GetCollection(s, step.collection) == Some(active)
    requires s.versions[step.pin.value].isActive && !s.versions[step.pin.value].isPlaceholder
    requires active.id != step.pin.value
    ensures ApplyPatchVersioned(s, step) == Run([], Failed(VersionPinMismatch))
  {
  }

  /** Only the transform of one version's edge differs. */
  ghost predicate OnlyEdge(s: Store, t: Store, id: VersionId)
  {
    && s.names == t.names && s.versions.Keys == t.versions.Keys
    && (forall d | d in s.versions && d != id :: t.versions[d] == s.versions[d])
    && (id in s.versions ==> t.versions[id] == s.versions[id].(previous := t.versions[id].previous))
  }

  predicate CarriesTransform(v: Version, transform: string)
  {
    v.previous.Some? && v.previous.value.transform == Some(transform)
  }

  /** A repair fails exactly when the transform is wrong and there is no lens to
      attach; otherwise the edge carries the expected transform or the lens's,
      and nothing but that edge has changed. */
  lemma {:induction false} RepairLeaves(s: Store, source: VersionId, dest: VersionId, lens: Option<Lens>, expected: string)
    requires dest in s.versions
    ensures var run := RepairTransform(s, source, dest, lens, expected, s.versions[dest]);
            var t := After(s, run.writes);
            && (run.outcome.Failed? <==> !CarriesTransform(s.versions[dest], expected) && lens.None?)
            && OnlyEdge(s, t, dest)
            && (!run.outcome.Failed? ==> CarriesTransform(t.versions[dest], expected)
                                         || (lens.Some? && CarriesTransform(t.versions[dest], lens.value.transform)))
            && (run.writes == [] <==> run.outcome.Failed? || CarriesTransform(s.versions[dest], expected))
  {
  }

  /** The active pin is accepted exactly when the name pointer names it, it has the
      expected fields, and its edge is right or can be repaired; then the edge
      carries the pinned transform or the lens's, and nothing else has changed. */
  lemma {:induction false} ActiveIsAccepted(s: Store, step: Step, pin: VersionId)
    requires step.PatchVersioned?
    ensures var run := VerifyActiveStep(s, step, pin);
            var t := After(s, run.writes);
            && (!run.outcome.Failed? <==>
                  && step.collection in s.names && s.names[step.collection] == pin && pin in s.versions
                  && (step.expected.Some? ==> step.expected.value <= s.versions[pin].fields)
                  && (step.transform.Some? && s.versions[pin].previous.Some? ==>
                        step.lens.Some? || CarriesTransform(s.versions[pin], step.transform.value)))
            && OnlyEdge(s, t, pin)
            && (!run.outcome.Failed? && step.transform.Some? && s.versions[pin].previous.Some? ==>
                  || CarriesTransform(t.versions[pin], step.transform.value)
                  || (step.lens.Some? && CarriesTransform(t.versions[pin], step.lens.value.transform)))
  {
    if GetCollection(s, step.collection).Some? && step.transform.Some? {
      var active := GetCollection(s, step.collection).value;
      if active.id == pin && active.previous.Some? {
        RepairLeaves(s, active.previous.value.source, pin, step.lens, step.transform.value);
      }
    }
  }

  /** A consequence of the node contract: an in-place patch changes nothing that a
      field expectation can see, so under field expectations an in-place step
      never counts as applied.  It is current, and needs no patch, exactly when
      the expectation already holds. */
  lemma {:induction false} InPlaceNeverApplies(s: Store, step: Step)
    requires step.PatchInPlace? && step.patch.InPlace?
    ensures !ApplyPatchInPlace(s, step).outcome.Applied?
    ensures ApplyPatchInPlace(s, step).outcome.Current? <==>
            GetCollection(s, step.collection).Some? && Verify(step.expected, GetCollection(s, step.collection).value)
    ensures After(s, ApplyPatchInPlace(s, step).writes) == s
  {
  }

  lemma {:induction false} PatchedIsVerified(s: Store, step: Step, pin: VersionId)
    requires step.PatchVersioned? && PatchVerifyActivate(s, step, pin).outcome.Applied?
    ensures var t := After(s, PatchVerifyActivate(s, step, pin).writes);
            pin in t.versions && t.versions[pin].isActive && !t.versions[pin].isPlaceholder && Verify(step.expected, t.versions[pin])
  {
  }

  lemma {:induction false} ActivatedInactiveIsVerified(s: Store, step: Step, active: VersionId, pin: VersionId)
    requires step.PatchVersioned? && pin in s.versions
    requires ActivateInactive(s, step, active, pin, s.versions[pin]).outcome.Applied?
    ensures var t := After(s, ActivateInactive(s, step, active, pin, s.versions[pin]).writes);
            pin in t.versions && t.versions[pin].isActive && !t.versions[pin].isPlaceholder && Verify(step.expected, t.versions[pin])
  {
  }

  /** No unverified activation.  On any store, a step that applies leaves its pin
      active and holding every field it is expected to have. */
  lemma {:induction false} ActivatedIsVerified(s: Store, step: Step)
    requires step.PatchVersioned? && ApplyPatchVersioned(s, step).outcome.Applied?
    ensures var t := After(s, ApplyPatchVersioned(s, step).writes);
            && step.pin.Some? && step.pin.value in t.versions
            && t.versions[step.pin.value].isActive && !t.versions[step.pin.value].isPlaceholder
            && (step.expected.Some? ==> step.expected.value <= t.versions[step.pin.value].fields)
  {
    hide DescendsFrom, PatchVerifyActivate, ActivateInactive, SetMigration;
    var pin := step.pin.value;
    var active := GetCollection(s, step.collection).value;
    var run := ApplyPatchVersioned(s, step);
    if pin !in s.versions && step.lens.Some? {
      var attached := SetMigration(s, active.id, pin, step.lens.value);
      PatchedIsVerified(attached, step, pin);
      AfterBoth(s, [], [attached], PatchVerifyActivate(attached, step, pin).writes);
    } else if run == PatchVerifyActivate(s, step, pin) {
      PatchedIsVerified(s, step, pin);
    } else {
      ActivatedInactiveIsVerified(s, step, active.id, pin);
    }
  }

  // ----- a foreign version, patched over

  /** `derived` is the id the node derives when the foreign version is stored too. */
  function LateCheck(derived: VersionId): Registry
  {
    Registry(
      [Baseline("Doc", Sdl("Doc", "v0", {"name"}), Some("v0"), None)],
      [PatchVersioned("Doc", NewVersion(map[("v0", {"v0"}) := "v1", ("v0", {"v0", "x"}) := derived], {"label"}, {}),
                      None, Some("v1"), None, None)])
  }

  /** A foreign version, complete but inactive, beside the root. */
  const FOREIGN_STORE := Store(
    map["v0" := Version("v0", "Doc", true, false, {"name"}, None),
        "x" := Version("x", "Doc", false, false, {"name"}, None)],
    map["Doc" := "v0"])

  lemma {:induction false} LateChain(derived: VersionId, c: string)
    ensures Chain(LateCheck(derived), c) ==
            if c == "Doc" then [Link("v0", None, {"name"}, None, false), Link("v1", Some("v0"), {"name", "label"}, None, false)]
            else []
    ensures Prescribed(LateCheck(derived), 0, c) == if c == "Doc" then [Link("v0", None, {"name"}, None, false)] else []
  {
    var reg := LateCheck(derived);
    assert reg.steps[..|reg.steps| - 1] == [] && reg.steps[..0] == [] && reg.baseline[..|reg.baseline| - 1] == [];
    assert RootChain(reg.baseline, c) == if c == "Doc" then [Link("v0", None, {"name"}, None, false)] else [];
    var root := Link("v0", None, {"name"}, None, false);
    assert ChainOf(reg.baseline, reg.steps[..|reg.steps| - 1], c) == RootChain(reg.baseline, c);
    assert NextLink(reg.steps[0], root) == Link("v1", Some("v0"), {"name", "label"}, None, false) by {
      assert {"name"} - {} + {"label"} == {"name", "label"};
    }
    assert [root] + [NextLink(reg.steps[0], root)] == [root, NextLink(reg.steps[0], root)];
  }

  lemma {:induction false} OneLinkId(link: Link)
    ensures LinkIds([link]) == {link.id}
  {
    assert [link][0].id == link.id;
  }

  lemma {:induction false} LateIsWellFormed(derived: VersionId)
    ensures WellFormed(LateCheck(derived))
  {
    var reg := LateCheck(derived);
    forall c { LateChain(derived, c); }
    hide Chain, Prescribed;
    OneLinkId(Prescribed(reg, 0, "Doc")[0]);
    assert LinkIds(Prescribed(reg, 0, "Doc")) + {} == {"v0"};
    assert Yields(reg.steps[0].patch, Prescribed(reg, 0, "Doc"), {}, "v1");
    assert WellFormedEntry(reg, reg.baseline[0]) && WellFormedStep(reg, 0);
  }

  lemma {:induction false} LateIsOnChain(derived: VersionId)
    ensures OnChain(LateCheck(derived), FOREIGN_STORE) && !AtEnd(LateCheck(derived), FOREIGN_STORE)
    ensures ForeignIds(FOREIGN_STORE, "Doc", Chain(LateCheck(derived), "Doc")) == {"x"}
  {
    var reg, s := LateCheck(derived), FOREIGN_STORE;
    forall c { LateChain(derived, c); }
    hide Chain, Prescribed;
    var chain := Chain(reg, "Doc");
    assert At(s, "Doc", chain, 0, Absent);
    assert chain[0].id == "v0" && Linked(chain, "v0");
    assert !At(s, "Doc", chain, 1, Absent);
  }

  /** The witness is one of the stores the theorems speak of; it is disturbed exactly when the id differs. */
  lemma {:induction false} LateCheckIsShipped(derived: VersionId)
    ensures WellFormed(LateCheck(derived)) && OnChain(LateCheck(derived), FOREIGN_STORE)
    ensures !CleanBaseline(LateCheck(derived), FOREIGN_STORE) && !AtEnd(LateCheck(derived), FOREIGN_STORE)
    ensures Undisturbed(LateCheck(derived), FOREIGN_STORE) <==> derived == "v1"
  {
    var reg, s := LateCheck(derived), FOREIGN_STORE;
    LateIsWellFormed(derived);
    LateIsOnChain(derived);
    LateChain(derived, "Doc");
    hide WellFormed, OnChain, AtEnd, Chain, Prescribed, ForeignIds;
    assert "x" in ForeignIds(s, reg.baseline[0].name, Chain(reg, reg.baseline[0].name));
    OneLinkId(Prescribed(reg, 0, "Doc")[0]);
    assert LinkIds(Prescribed(reg, 0, "Doc")) + {"x"} == {"v0", "x"};
    assert UndisturbedAt(reg, s, 0) <==> derived == "v1";
  }

  lemma {:induction false} LateSteps(derived: VersionId)
    requires derived !in FOREIGN_STORE.versions
    ensures var run := PatchVerifyActivate(FOREIGN_STORE, LateCheck(derived).steps[0], "v1");
            && PassWrites(FOREIGN_STORE, LateCheck(derived)) == run.writes
            && PassSteps(FOREIGN_STORE, LateCheck(derived)).fault == if run.outcome.Failed? then Some(run.outcome.fault) else None
  {
    var s, reg := FOREIGN_STORE, LateCheck(derived);
    assert reg.baseline[..0] == [] && reg.steps[..0] == [];
    assert RegisterBaseline(s, reg.baseline) == BaselineRun([], true, 0, 1);
    var run := PatchVerifyActivate(s, reg.steps[0], "v1");
    assert ApplyStep(s, reg.steps[0]) == run;
    ApplyOneMore(s, reg.steps, 0, StepsRun([], None, Tally(0, 0, 0)), run);
    assert reg.steps[..1] == reg.steps;
  }

  lemma {:induction false} LatePatch(derived: VersionId)
    requires derived !in FOREIGN_STORE.versions
    ensures var run := PatchVerifyActivate(FOREIGN_STORE, LateCheck(derived).steps[0], "v1");
            if derived == "v1" then |run.writes| == 2 && run.outcome == Applied(0)
            else |run.writes| == 1 && run.outcome == Failed(VersionPinMismatch)
  {
    assert NamedIds(FOREIGN_STORE, "Doc") == {"v0", "x"};
  }

  /** The foreign version is written over before it is refused: where the id stays
      the pin, the chain is patched and activated; where it does not, the
      mismatching version has been stored when the step notices. */
  lemma {:induction false} ForeignVersionIsFoundLate(derived: VersionId)
    requires derived !in FOREIGN_STORE.versions
    ensures PassWrites(FOREIGN_STORE, LateCheck(derived)) != []
    ensures PassSteps(FOREIGN_STORE, LateCheck(derived)).fault == if derived == "v1" then None else Some(VersionPinMismatch)
  {
    hide PassWrites, PassSteps;
    LateSteps(derived);
    LatePatch(derived);
  }
}
