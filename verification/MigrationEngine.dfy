/**
 The schema migration engine: register the baseline, run the step chain, check
 every managed lineage.  Each operation appears twice: as a function from a
 store to the writes it makes and its outcome, and as the imperative method
 that drives the live node and the report.
 */
module MigrationEngine {
  import opened Prelude
  import opened MigrationNode

  /** Required field names; absent means that field names are not checked. */
  type Expectation = Option<set<Field>>

  datatype Baseline = Baseline(name: string, sdl: Sdl, pin: Option<VersionId>, expected: Expectation)

  datatype Step =
    | AddCollection(sdl: Sdl, pin: Option<VersionId>, expected: Expectation)
    | PatchVersioned(collection: string, patch: Patch, lens: Option<Lens>, pin: Option<VersionId>,
                     transform: Option<string>, expected: Expectation)
    | PatchInPlace(collection: string, patch: Patch, expected: Expectation)

  datatype Registry = Registry(baseline: seq<Baseline>, steps: seq<Step>)

  datatype Fault =
    | BaselineRegister
    | CollectionMissing
    | VersionPinMismatch
    | StateVerification
    | StepFailed
    | ForeignVersion
    | UnknownLineage

  datatype Outcome = Applied(repaired: nat) | Current(repaired: nat) | Failed(fault: Fault)

  /** The stores written, in order, and how the operation ended. */
  datatype Run = Run(writes: seq<Store>, outcome: Outcome)

  function After(s: Store, writes: seq<Store>): Store
  {
    if writes == [] then s else writes[|writes| - 1]
  }

  lemma {:induction false} AfterBoth(s: Store, before: seq<Store>, a: seq<Store>, b: seq<Store>)
    ensures After(s, a + b) == After(After(s, a), b)
    ensures before + (a + b) == before + a + b
  {
  }

  predicate Verify(expected: Expectation, v: Version)
  {
    expected.None? || expected.value <= v.fields
  }

  // ----- ancestry in the version graph

  /** The version `n` edges behind `id`, if the edges lead that far. */
  function Ancestor(versions: VersionTable, id: VersionId, n: nat): Option<VersionId>
  {
    if n == 0 then Some(id)
    else
      match Ancestor(versions, id, n - 1)
      case None => None
      case Some(d) =>
        if d in versions && versions[d].previous.Some? then Some(versions[d].previous.value.source) else None
  }

  ghost predicate DescendsFrom(versions: VersionTable, descendant: VersionId, ancestor: VersionId)
  {
    exists n: nat :: n > 0 && Ancestor(versions, descendant, n) == Some(ancestor)
  }

  /** When the walk comes back to a version it has seen, it has seen everything. */
  lemma {:induction false} CycleIsExhausted(versions: VersionTable, id: VersionId, m: nat, back: nat, n: nat)
    requires back < m && Ancestor(versions, id, m) == Ancestor(versions, id, back)
    requires n > 0
    ensures exists i: nat :: 0 < i <= m && Ancestor(versions, id, n) == Ancestor(versions, id, i)
  {
    if n > 1 {
      CycleIsExhausted(versions, id, m, back, n - 1);
      var i: nat :| 0 < i <= m && Ancestor(versions, id, n - 1) == Ancestor(versions, id, i);
      var next := if i < m then i + 1 else back + 1;
      assert Ancestor(versions, id, n) == Ancestor(versions, id, next);
    }
  }

  /** Past the end of the edges there is nothing. */
  lemma {:induction false} NothingBeyond(versions: VersionTable, id: VersionId, m: nat, n: nat)
    requires m <= n && Ancestor(versions, id, m) == None
    ensures Ancestor(versions, id, n) == None
  {
    if m < n {
      NothingBeyond(versions, id, m, n - 1);
    }
  }

  method VersionDescendsFrom(all: seq<Version>, descendant: VersionId, ancestor: VersionId) returns (r: bool)
    ensures r <==> DescendsFrom(ById(all), descendant, ancestor)
  {
    var current := descendant;
    var visited: set<VersionId> := {};
    ghost var versions := ById(all);
    ghost var m: nat := 0;
    while current !in visited
      invariant Ancestor(versions, descendant, m) == Some(current)
      invariant forall id | id in visited :: exists i: nat :: i < m && Ancestor(versions, descendant, i) == Some(id)
      invariant forall i: nat | 0 < i <= m :: Ancestor(versions, descendant, i) != Some(ancestor)
      invariant visited <= versions.Keys
      decreases versions.Keys - visited
    {
      match Find(all, current)
      case None =>
        assert Ancestor(versions, descendant, m + 1) == None;
        forall n: nat | n > m { NothingBeyond(versions, descendant, m + 1, n); }
        return false;
      case Some(version) =>
        match version.previous
        case None =>
          assert Ancestor(versions, descendant, m + 1) == None;
          forall n: nat | n > m { NothingBeyond(versions, descendant, m + 1, n); }
          return false;
        case Some(previous) =>
          assert Ancestor(versions, descendant, m + 1) == Some(previous.source);
          if previous.source == ancestor {
            return true;
          }
          visited := visited + {current};
          current, m := previous.source, m + 1;
    }
    ghost var back: nat :| back < m && Ancestor(versions, descendant, back) == Some(current);
    forall n: nat | n > 0 ensures Ancestor(versions, descendant, n) != Some(ancestor) {
      CycleIsExhausted(versions, descendant, m, back, n);
    }
    return false;
  }

  // ----- baseline

  /** Registers the entries in order; `registered + present` counts them all. */
  datatype BaselineRun = BaselineRun(writes: seq<Store>, ok: bool, registered: nat, present: nat)

  function RegisterBaseline(s: Store, baseline: seq<Baseline>): BaselineRun
  {
    if baseline == [] then BaselineRun([], true, 0, 0)
    else
      var front := RegisterBaseline(s, baseline[..|baseline| - 1]);
      if !front.ok then front
      else
        match AddSchema(After(s, front.writes), baseline[|baseline| - 1].sdl)
        case Ok(t) => front.(writes := front.writes + [t], registered := front.registered + 1)
        case Err(AlreadyExists) => front.(present := front.present + 1)
        case Err(Rejected) => front.(ok := false)
  }

  // ----- steps

  function RepairTransform(s: Store, source: VersionId, dest: VersionId, lens: Option<Lens>,
                           expected: string, version: Version): Run
  {
    if version.previous.Some? && version.previous.value.transform == Some(expected) then Run([], Current(0))
    else if lens.None? then Run([], Failed(StateVerification))
    else Run([SetMigration(s, source, dest, lens.value)], Current(1))
  }

  function VerifyActiveStep(s: Store, step: Step, pin: VersionId): Run
    requires step.PatchVersioned?
  {
    match GetCollection(s, step.collection)
    case None => Run([], Failed(CollectionMissing))
    case Some(active) =>
      if active.id != pin then Run([], Failed(VersionPinMismatch))
      else if !Verify(step.expected, active) then Run([], Failed(StateVerification))
      else if step.transform.Some? && active.previous.Some? then
        RepairTransform(s, active.previous.value.source, pin, step.lens, step.transform.value, active)
      else Run([], Current(0))
  }

  function PatchVerifyActivate(s: Store, step: Step, pin: VersionId): Run
    requires step.PatchVersioned?
  {
    match PatchCollection(s, step.collection, step.patch)
    case Err(_) => Run([], Failed(StepFailed))
    case Ok((s1, patched)) =>
      if patched.id != pin then Run([s1], Failed(VersionPinMismatch))
      else if !Verify(step.expected, patched) then Run([s1], Failed(StateVerification))
      else
        match SetActive(s1, pin)
        case Err(_) => Run([s1], Failed(StepFailed))
        case Ok(s2) => Run([s1, s2], Applied(0))
  }

  function AttachPatchActivate(s: Store, step: Step, active: VersionId, pin: VersionId): Run
    requires step.PatchVersioned?
  {
    if step.lens.None? then PatchVerifyActivate(s, step, pin)
    else
      var attached := SetMigration(s, active, pin, step.lens.value);
      var rest := PatchVerifyActivate(attached, step, pin);
      Run([attached] + rest.writes, rest.outcome)
  }

  function ActivateInactive(s: Store, step: Step, active: VersionId, pin: VersionId, dest: Version): Run
    requires step.PatchVersioned?
  {
    if !Verify(step.expected, dest) then Run([], Failed(StateVerification))
    else
      var repair := if step.transform.Some?
                    then RepairTransform(s, active, pin, step.lens, step.transform.value, dest)
                    else Run([], Current(0));
      if repair.outcome.Failed? then repair
      else
        match SetActive(After(s, repair.writes), pin)
        case Err(_) => Run(repair.writes, Failed(StepFailed))
        case Ok(t) => Run(repair.writes + [t], Applied(repair.outcome.repaired))
  }

  /** The destination lies behind the active version: check it, never activate it. */
  function VerifyAncestor(s: Store, step: Step, pin: VersionId, dest: Version): Run
    requires step.PatchVersioned?
  {
    if !Verify(step.expected, dest) then Run([], Failed(StateVerification))
    else if step.transform.None? then Run([], Current(0))
    else if dest.previous.None? then Run([], Failed(StateVerification))
    else RepairTransform(s, dest.previous.value.source, pin, step.lens, step.transform.value, dest)
  }

  ghost function ApplyPatchVersioned(s: Store, step: Step): Run
    requires step.PatchVersioned?
  {
    if step.pin.None? then Run([], Failed(StepFailed))
    else
      var pin := step.pin.value;
      match GetCollection(s, step.collection)
      case None => Run([], Failed(CollectionMissing))
      case Some(active) =>
        if active.id == pin && active.isActive && !active.isPlaceholder then VerifyActiveStep(s, step, pin)
        else if pin !in s.versions then
          AttachPatchActivate(s, step, active.id, pin)
        else
          var dest := s.versions[pin];
          if !dest.isActive && DescendsFrom(s.versions, active.id, pin) then VerifyAncestor(s, step, pin, dest)
          else if dest.isPlaceholder then PatchVerifyActivate(s, step, pin)
          else if !dest.isActive then ActivateInactive(s, step, active.id, pin, dest)
          else VerifyActivatedElsewhere(s, step, pin)
  }

  /** The destination is flagged active although the name pointer is elsewhere:
      verify through the pointer, then re-activate to re-trigger the reindex. */
  function VerifyActivatedElsewhere(s: Store, step: Step, pin: VersionId): Run
    requires step.PatchVersioned?
  {
    var check := VerifyActiveStep(s, step, pin);
    if check.outcome.Failed? then check
    else
      match SetActive(After(s, check.writes), pin)
      case Err(_) => check
      case Ok(t) => Run(check.writes + [t], check.outcome)
  }

  function ApplyAddCollection(s: Store, step: Step): Run
    requires step.AddCollection?
  {
    match AddSchema(s, step.sdl)
    case Err(Rejected) => Run([], Failed(StepFailed))
    case Err(AlreadyExists) => Run([], CheckAdded(s, step, Current(0)))
    case Ok(t) => Run([t], CheckAdded(t, step, Applied(0)))
  }

  function CheckAdded(s: Store, step: Step, outcome: Outcome): Outcome
    requires step.AddCollection?
  {
    if step.pin.None? then outcome
    else if step.pin.value !in s.versions || s.versions[step.pin.value].isPlaceholder then Failed(VersionPinMismatch)
    else if !Verify(step.expected, s.versions[step.pin.value]) then Failed(StateVerification)
    else outcome
  }

  function ApplyPatchInPlace(s: Store, step: Step): Run
    requires step.PatchInPlace?
  {
    match GetCollection(s, step.collection)
    case None => Run([], Failed(CollectionMissing))
    case Some(active) =>
      if Verify(step.expected, active) then Run([], Current(0))
      else
        match PatchCollection(s, step.collection, step.patch)
        case Err(_) => Run([], Failed(StepFailed))
        case Ok((t, patched)) =>
          Run([t], if Verify(step.expected, patched) then Applied(0) else Failed(StateVerification))
  }

  ghost function ApplyStep(s: Store, step: Step): Run
  {
    match step
    case AddCollection(_, _, _) => ApplyAddCollection(s, step)
    case PatchVersioned(_, _, _, _, _, _) => ApplyPatchVersioned(s, step)
    case PatchInPlace(_, _, _) => ApplyPatchInPlace(s, step)
  }

  datatype Tally = Tally(applied: nat, current: nat, repaired: nat)

  function Count(t: Tally, o: Outcome): Tally
    requires !o.Failed?
  {
    match o
    case Applied(n) => t.(applied := t.applied + 1, repaired := t.repaired + n)
    case Current(n) => t.(current := t.current + 1, repaired := t.repaired + n)
  }

  datatype StepsRun = StepsRun(writes: seq<Store>, fault: Option<Fault>, tally: Tally)

  ghost function ApplySteps(s: Store, steps: seq<Step>): StepsRun
  {
    if steps == [] then StepsRun([], None, Tally(0, 0, 0))
    else
      var front := ApplySteps(s, steps[..|steps| - 1]);
      if front.fault.Some? then front
      else Extend(front, ApplyStep(After(s, front.writes), steps[|steps| - 1]))
  }

  function Extend(front: StepsRun, run: Run): StepsRun
  {
    if run.outcome.Failed? then StepsRun(front.writes + run.writes, Some(run.outcome.fault), front.tally)
    else StepsRun(front.writes + run.writes, None, Count(front.tally, run.outcome))
  }

  lemma {:induction false} ApplyOneMore(s: Store, steps: seq<Step>, i: nat, front: StepsRun, run: Run)
    requires i < |steps| && front == ApplySteps(s, steps[..i]) && front.fault.None?
    requires run == ApplyStep(After(s, front.writes), steps[i])
    ensures ApplySteps(s, steps[..i + 1]) == Extend(front, run)
  {
    assert steps[..i + 1][..i] == steps[..i];
  }

  // ----- lineage verification

  function KnownPins(reg: Registry): set<VersionId>
  {
    (set i | 0 <= i < |reg.baseline| && reg.baseline[i].pin.Some? :: reg.baseline[i].pin.value)
    + (set i | 0 <= i < |reg.steps| && StepPin(reg.steps[i]).Some? :: StepPin(reg.steps[i]).value)
  }

  function StepPin(step: Step): Option<VersionId>
  {
    if step.PatchInPlace? then None else step.pin
  }

  /** The last pin of a collection: its last versioned step, else its baseline root. */
  function TargetPin(reg: Registry, name: string): Option<VersionId>
  {
    var last := LastStepPin(reg.steps, name);
    if last.Some? then last else LastBaselinePin(reg.baseline, name)
  }

  function LastStepPin(steps: seq<Step>, name: string): Option<VersionId>
  {
    if steps == [] then None
    else
      var step := steps[|steps| - 1];
      if step.PatchVersioned? && step.collection == name && step.pin.Some? then step.pin
      else LastStepPin(steps[..|steps| - 1], name)
  }

  function LastBaselinePin(baseline: seq<Baseline>, name: string): Option<VersionId>
  {
    if baseline == [] then None
    else
      var entry := baseline[|baseline| - 1];
      if entry.name == name && entry.pin.Some? then entry.pin
      else LastBaselinePin(baseline[..|baseline| - 1], name)
  }

  /** The complete versions of a collection, in listing order. */
  function Group(all: seq<Version>, name: string): seq<Version>
  {
    if all == [] then []
    else
      var rest := Group(all[1..], name);
      if all[0].isPlaceholder || all[0].name == "" || all[0].name != name then rest else [all[0]] + rest
  }

  /** The first version flagged active, else the first version. */
  function Selected(group: seq<Version>): (v: Version)
    requires group != []
    ensures v in group
    ensures (exists w :: w in group && w.isActive) ==> v.isActive
  {
    if group[0].isActive || |group| == 1 then group[0]
    else
      var v := Selected(group[1..]);
      if v.isActive then v else group[0]
  }

  function VerifyCollection(entry: Baseline, group: seq<Version>, known: set<VersionId>, target: Option<VersionId>)
    : Option<Fault>
  {
    if group == [] then Some(CollectionMissing)
    else if |group| > 1 && known == {} then Some(UnknownLineage)
    else if |group| > 1 && exists v | v in group :: v.id !in known then Some(ForeignVersion)
    else if entry.pin.Some? && !exists v | v in group :: v.id == entry.pin.value then Some(UnknownLineage)
    else if target.Some? && Selected(group).id != target.value then Some(VersionPinMismatch)
    else if !Verify(entry.expected, Selected(group)) then Some(StateVerification)
    else None
  }

  function VerifyBaselines(reg: Registry, all: seq<Version>, i: nat): Option<Fault>
    requires i <= |reg.baseline|
    decreases |reg.baseline| - i
  {
    if i == |reg.baseline| then None
    else
      var entry := reg.baseline[i];
      var fault := VerifyCollection(entry, Group(all, entry.name), KnownPins(reg), TargetPin(reg, entry.name));
      if fault.Some? then fault else VerifyBaselines(reg, all, i + 1)
  }

  function VerifyAdded(all: seq<Version>, steps: seq<Step>): Option<Fault>
  {
    if steps == [] then None
    else if steps[0].AddCollection? && steps[0].pin.Some? && Find(all, steps[0].pin.value).None? then
      Some(VersionPinMismatch)
    else if steps[0].AddCollection? && steps[0].pin.Some?
            && !Verify(steps[0].expected, Find(all, steps[0].pin.value).value) then
      Some(StateVerification)
    else VerifyAdded(all, steps[1..])
  }

  function VerifyLineages(reg: Registry, all: seq<Version>): Option<Fault>
  {
    var fault := VerifyBaselines(reg, all, 0);
    if fault.Some? then fault else VerifyAdded(all, reg.steps)
  }

  // ----- one pass

  /** The writes of a pass.  Verification reads only, so a pass that reaches it has written all it will. */
  ghost function PassWrites(s: Store, reg: Registry): seq<Store>
  {
    var base := RegisterBaseline(s, reg.baseline);
    if !base.ok then base.writes
    else base.writes + ApplySteps(After(s, base.writes), reg.steps).writes
  }

  /** How a pass ends before verification: the fault, or the tally of its steps. */
  ghost function PassSteps(s: Store, reg: Registry): StepsRun
  {
    var base := RegisterBaseline(s, reg.baseline);
    if !base.ok then StepsRun(base.writes, Some(BaselineRegister), Tally(0, 0, 0))
    else ApplySteps(After(s, base.writes), reg.steps)
  }

  /** A pass over `s` whose last listing was `all` succeeds. */
  ghost predicate PassSucceeds(s: Store, reg: Registry, all: seq<Version>)
  {
    PassSteps(s, reg).fault.None? && VerifyLineages(reg, all).None?
  }

  // ----- the imperative engine

  class MigrationReport {
    var registered: nat
    var present: nat
    var applied: nat
    var current: nat
    var repaired: nat

    constructor ()
      ensures registered == present == applied == current == repaired == 0
    {
      registered, present, applied, current, repaired := 0, 0, 0, 0, 0;
    }

    ghost function Tallied(): Tally
      reads this
    {
      Tally(applied, current, repaired)
    }

    method Record(o: Outcome)
      requires !o.Failed?
      modifies this`applied, this`current, this`repaired
      ensures Tallied() == Count(old(Tallied()), o)
    {
      match o
      case Applied(n) => applied, repaired := applied + 1, repaired + n;
      case Current(n) => current, repaired := current + 1, repaired + n;
    }
  }

  /** The node moved exactly as the run says. */
  twostate predicate Drove(node: EmbeddedNode, writes: seq<Store>)
    reads node
  {
    node.writes == old(node.writes) + writes && node.store == After(old(node.store), writes)
  }

  method RunRepairTransform(node: EmbeddedNode, source: VersionId, dest: VersionId, lens: Option<Lens>,
                            expected: string, version: Version) returns (o: Outcome)
    modifies node
    ensures var run := RepairTransform(old(node.store), source, dest, lens, expected, version);
            o == run.outcome && Drove(node, run.writes)
  {
    if version.previous.Some? && version.previous.value.transform == Some(expected) {
      return Current(0);
    }
    if lens.None? {
      return Failed(StateVerification);
    }
    node.CallSetMigration(source, dest, lens.value);
    return Current(1);
  }

  method RunVerifyActiveStep(node: EmbeddedNode, step: Step, pin: VersionId) returns (o: Outcome)
    requires step.PatchVersioned?
    modifies node
    ensures var run := VerifyActiveStep(old(node.store), step, pin);
            o == run.outcome && Drove(node, run.writes)
  {
    match GetCollection(node.store, step.collection)
    case None => o := Failed(CollectionMissing);
    case Some(active) =>
      if active.id != pin {
        return Failed(VersionPinMismatch);
      }
      if !Verify(step.expected, active) {
        return Failed(StateVerification);
      }
      o := Current(0);
      if step.transform.Some? && active.previous.Some? {
        o := RunRepairTransform(node, active.previous.value.source, pin, step.lens, step.transform.value, active);
      }
  }

  method RunPatchVerifyActivate(node: EmbeddedNode, step: Step, pin: VersionId) returns (o: Outcome)
    requires step.PatchVersioned?
    modifies node
    ensures var run := PatchVerifyActivate(old(node.store), step, pin);
            o == run.outcome && Drove(node, run.writes)
  {
    var patched := node.CallPatchCollection(step.collection, step.patch);
    if patched.Err? {
      return Failed(StepFailed);
    }
    if patched.value.id != pin {
      return Failed(VersionPinMismatch);
    }
    if !Verify(step.expected, patched.value) {
      return Failed(StateVerification);
    }
    var activated := node.CallSetActive(pin);
    o := if activated.Err? then Failed(StepFailed) else Applied(0);
  }

  method RunVerifyAncestor(node: EmbeddedNode, step: Step, pin: VersionId, dest: Version) returns (o: Outcome)
    requires step.PatchVersioned?
    modifies node
    ensures var run := VerifyAncestor(old(node.store), step, pin, dest);
            o == run.outcome && Drove(node, run.writes)
  {
    if !Verify(step.expected, dest) {
      return Failed(StateVerification);
    }
    o := Current(0);
    if step.transform.Some? {
      if dest.previous.None? {
        return Failed(StateVerification);
      }
      o := RunRepairTransform(node, dest.previous.value.source, pin, step.lens, step.transform.value, dest);
    }
  }

  method RunActivateInactive(node: EmbeddedNode, step: Step, active: VersionId, pin: VersionId, dest: Version)
    returns (o: Outcome)
    requires step.PatchVersioned?
    modifies node
    ensures var run := ActivateInactive(old(node.store), step, active, pin, dest);
            o == run.outcome && Drove(node, run.writes)
  {
    if !Verify(step.expected, dest) {
      return Failed(StateVerification);
    }
    var repaired := 0;
    if step.transform.Some? {
      var repair := RunRepairTransform(node, active, pin, step.lens, step.transform.value, dest);
      if repair.Failed? {
        return repair;
      }
      repaired := repair.repaired;
    }
    var activated := node.CallSetActive(pin);
    o := if activated.Err? then Failed(StepFailed) else Applied(repaired);
  }

  method RunVerifyActivatedElsewhere(node: EmbeddedNode, step: Step, pin: VersionId) returns (o: Outcome)
    requires step.PatchVersioned?
    modifies node
    ensures var run := VerifyActivatedElsewhere(old(node.store), step, pin);
            o == run.outcome && Drove(node, run.writes)
  {
    o := RunVerifyActiveStep(node, step, pin);
    if !o.Failed? {
      var _ := node.CallSetActive(pin);
    }
  }

  method RunCreate(node: EmbeddedNode, step: Step, active: VersionId, pin: VersionId) returns (o: Outcome)
    requires step.PatchVersioned?
    modifies node
    ensures var run := AttachPatchActivate(old(node.store), step, active, pin);
            o == run.outcome && Drove(node, run.writes)
  {
    if step.lens.Some? {
      node.CallSetMigration(active, pin, step.lens.value);
    }
    o := RunPatchVerifyActivate(node, step, pin);
  }

  method RunPatchVersioned(node: EmbeddedNode, step: Step) returns (o: Outcome)
    requires step.PatchVersioned?
    modifies node
    ensures var run := ApplyPatchVersioned(old(node.store), step);
            o == run.outcome && Drove(node, run.writes)
  {
    if step.pin.None? {
      return Failed(StepFailed);
    }
    var pin := step.pin.value;
    var found := GetCollection(node.store, step.collection);
    if found.None? {
      return Failed(CollectionMissing);
    }
    var active := found.value;
    if active.id == pin && active.isActive && !active.isPlaceholder {
      o := RunVerifyActiveStep(node, step, pin);
      return;
    }
    var all := node.GetAllCollectionVersions();
    var located := Find(all, pin);
    if located.None? {
      o := RunCreate(node, step, active.id, pin);
      return;
    }
    var dest := located.value;
    var behind := VersionDescendsFrom(all, active.id, pin);
    if !dest.isActive && behind {
      o := RunVerifyAncestor(node, step, pin, dest);
    } else if dest.isPlaceholder {
      o := RunPatchVerifyActivate(node, step, pin);
    } else if !dest.isActive {
      o := RunActivateInactive(node, step, active.id, pin, dest);
    } else {
      o := RunVerifyActivatedElsewhere(node, step, pin);
    }
  }

  method RunAddCollection(node: EmbeddedNode, step: Step) returns (o: Outcome)
    requires step.AddCollection?
    modifies node
    ensures var run := ApplyAddCollection(old(node.store), step);
            o == run.outcome && Drove(node, run.writes)
  {
    var added := node.CallAddSchema(step.sdl);
    if added == Err(Rejected) {
      return Failed(StepFailed);
    }
    o := if added.Ok? then Applied(0) else Current(0);
    if step.pin.Some? {
      var all := node.GetAllCollectionVersions();
      var located := Find(all, step.pin.value);
      if located.None? || located.value.isPlaceholder {
        o := Failed(VersionPinMismatch);
      } else if !Verify(step.expected, located.value) {
        o := Failed(StateVerification);
      }
    }
  }

  method RunPatchInPlace(node: EmbeddedNode, step: Step) returns (o: Outcome)
    requires step.PatchInPlace?
    modifies node
    ensures var run := ApplyPatchInPlace(old(node.store), step);
            o == run.outcome && Drove(node, run.writes)
  {
    var found := GetCollection(node.store, step.collection);
    if found.None? {
      return Failed(CollectionMissing);
    }
    if Verify(step.expected, found.value) {
      return Current(0);
    }
    var patched := node.CallPatchCollection(step.collection, step.patch);
    if patched.Err? {
      return Failed(StepFailed);
    }
    o := if Verify(step.expected, patched.value) then Applied(0) else Failed(StateVerification);
  }

  method RunStep(node: EmbeddedNode, step: Step) returns (o: Outcome)
    modifies node
    ensures var run := ApplyStep(old(node.store), step);
            o == run.outcome && Drove(node, run.writes)
  {
    match step
    case AddCollection(_, _, _) => o := RunAddCollection(node, step);
    case PatchVersioned(_, _, _, _, _, _) => o := RunPatchVersioned(node, step);
    case PatchInPlace(_, _, _) => o := RunPatchInPlace(node, step);
  }

  method RunSteps(node: EmbeddedNode, steps: seq<Step>, report: MigrationReport) returns (fault: Option<Fault>)
    requires report.Tallied() == Tally(0, 0, 0)
    modifies node, report`applied, report`current, report`repaired
    ensures var run := ApplySteps(old(node.store), steps);
            fault == run.fault && Drove(node, run.writes) && report.Tallied() == run.tally
  {
    ghost var front := StepsRun([], None, Tally(0, 0, 0));
    for i := 0 to |steps|
      invariant front == ApplySteps(old(node.store), steps[..i]) && front.fault.None?
      invariant Drove(node, front.writes) && report.Tallied() == front.tally
    {
      ghost var run := ApplyStep(node.store, steps[i]);
      ApplyOneMore(old(node.store), steps, i, front, run);
      var o := RunStep(node, steps[i]);
      AfterBoth(old(node.store), old(node.writes), front.writes, run.writes);
      front := Extend(front, run);
      if o.Failed? {
        StopsAtFault(old(node.store), steps, i + 1);
        return Some(o.fault);
      }
      report.Record(o);
    }
    assert steps[..|steps|] == steps;
    return None;
  }

  /** A faulted prefix decides the whole chain. */
  lemma {:induction false} StopsAtFault(s: Store, steps: seq<Step>, n: nat)
    requires n <= |steps| && ApplySteps(s, steps[..n]).fault.Some?
    ensures ApplySteps(s, steps) == ApplySteps(s, steps[..n])
  {
    if n == |steps| {
      assert steps[..n] == steps;
    } else {
      assert steps[..|steps| - 1][..n] == steps[..n];
      StopsAtFault(s, steps[..|steps| - 1], n);
    }
  }

  method RunRegisterBaseline(node: EmbeddedNode, baseline: seq<Baseline>, report: MigrationReport)
    returns (ok: bool)
    requires report.registered == report.present == 0
    modifies node, report`registered, report`present
    ensures var run := RegisterBaseline(old(node.store), baseline);
            && ok == run.ok && Drove(node, run.writes)
            && report.registered == run.registered && report.present == run.present
  {
    for i := 0 to |baseline|
      invariant var run := RegisterBaseline(old(node.store), baseline[..i]);
                && run.ok && Drove(node, run.writes)
                && report.registered == run.registered && report.present == run.present
    {
      assert baseline[..i + 1][..i] == baseline[..i];
      var r := node.CallAddSchema(baseline[i].sdl);
      match r
      case Ok(_) => report.registered := report.registered + 1;
      case Err(AlreadyExists) => report.present := report.present + 1;
      case Err(Rejected) =>
        StopsAtRejection(old(node.store), baseline, i + 1);
        return false;
    }
    assert baseline[..|baseline|] == baseline;
    return true;
  }

  lemma {:induction false} StopsAtRejection(s: Store, baseline: seq<Baseline>, n: nat)
    requires n <= |baseline| && !RegisterBaseline(s, baseline[..n]).ok
    ensures RegisterBaseline(s, baseline) == RegisterBaseline(s, baseline[..n])
  {
    if n == |baseline| {
      assert baseline[..n] == baseline;
    } else {
      assert baseline[..|baseline| - 1][..n] == baseline[..n];
      StopsAtRejection(s, baseline[..|baseline| - 1], n);
    }
  }

  method CollectKnownPins(reg: Registry) returns (pins: set<VersionId>)
    ensures pins == KnownPins(reg)
  {
    pins := {};
    for i := 0 to |reg.baseline|
      invariant pins == set k | 0 <= k < i && reg.baseline[k].pin.Some? :: reg.baseline[k].pin.value
    {
      if reg.baseline[i].pin.Some? {
        pins := pins + {reg.baseline[i].pin.value};
      }
    }
    ghost var roots := pins;
    for i := 0 to |reg.steps|
      invariant pins == roots + set k | 0 <= k < i && StepPin(reg.steps[k]).Some? :: StepPin(reg.steps[k]).value
    {
      if StepPin(reg.steps[i]).Some? {
        pins := pins + {StepPin(reg.steps[i]).value};
      }
    }
  }

  method CollectTargetPins(reg: Registry) returns (targets: map<string, VersionId>)
    ensures forall name :: (name in targets <==> TargetPin(reg, name).Some?)
    ensures forall name | name in targets :: TargetPin(reg, name) == Some(targets[name])
  {
    targets := map[];
    for i := 0 to |reg.baseline|
      invariant forall name :: (name in targets <==> LastBaselinePin(reg.baseline[..i], name).Some?)
      invariant forall name | name in targets :: LastBaselinePin(reg.baseline[..i], name) == Some(targets[name])
    {
      assert reg.baseline[..i + 1][..i] == reg.baseline[..i];
      if reg.baseline[i].pin.Some? {
        targets := targets[reg.baseline[i].name := reg.baseline[i].pin.value];
      }
    }
    assert reg.baseline[..|reg.baseline|] == reg.baseline;
    for i := 0 to |reg.steps|
      invariant forall name :: (name in targets <==> TargetPin(reg.(steps := reg.steps[..i]), name).Some?)
      invariant forall name | name in targets :: TargetPin(reg.(steps := reg.steps[..i]), name) == Some(targets[name])
    {
      assert reg.steps[..i + 1][..i] == reg.steps[..i];
      if reg.steps[i].PatchVersioned? && reg.steps[i].pin.Some? {
        targets := targets[reg.steps[i].collection := reg.steps[i].pin.value];
      }
    }
    assert reg.steps[..|reg.steps|] == reg.steps;
  }

  method RunVerifyLineages(node: EmbeddedNode, reg: Registry) returns (fault: Option<Fault>, ghost all: seq<Version>)
    ensures Lists(all, node.store) && fault == VerifyLineages(reg, all)
  {
    var listing := node.GetAllCollectionVersions();
    all := listing;
    var known := CollectKnownPins(reg);
    var targets := CollectTargetPins(reg);
    for i := 0 to |reg.baseline|
      invariant VerifyBaselines(reg, listing, 0) == VerifyBaselines(reg, listing, i)
    {
      var entry := reg.baseline[i];
      var target := if entry.name in targets then Some(targets[entry.name]) else None;
      fault := VerifyCollection(entry, Group(listing, entry.name), known, target);
      if fault.Some? {
        return;
      }
    }
    for i := 0 to |reg.steps|
      invariant VerifyAdded(listing, reg.steps) == VerifyAdded(listing, reg.steps[i..])
    {
      if reg.steps[i].AddCollection? && reg.steps[i].pin.Some? {
        var located := Find(listing, reg.steps[i].pin.value);
        if located.None? {
          fault := Some(VersionPinMismatch);
          return;
        }
        if !Verify(reg.steps[i].expected, located.value) {
          fault := Some(StateVerification);
          return;
        }
      }
      assert reg.steps[i..][1..] == reg.steps[i + 1..];
    }
    fault := None;
  }

  /** One serialized pass: baseline, chain, lineage check. */
  method EnsureMigrations(node: EmbeddedNode, reg: Registry)
    returns (fault: Option<Fault>, report: MigrationReport, ghost all: seq<Version>)
    modifies node
    ensures fresh(report) && Drove(node, PassWrites(old(node.store), reg))
    ensures var run := PassSteps(old(node.store), reg);
            && fault == (if run.fault.Some? then run.fault else VerifyLineages(reg, all))
            && (run.fault.None? ==> Lists(all, node.store) && report.Tallied() == run.tally)
    ensures fault.None? <==> PassSucceeds(old(node.store), reg, all)
    ensures var base := RegisterBaseline(old(node.store), reg.baseline);
            report.registered == base.registered && report.present == base.present
  {
    report := new MigrationReport();
    all := [];
    var ok := RunRegisterBaseline(node, reg.baseline, report);
    if !ok {
      return Some(BaselineRegister), report, all;
    }
    ghost var base := RegisterBaseline(old(node.store), reg.baseline).writes;
    ghost var steps := ApplySteps(node.store, reg.steps).writes;
    fault := RunSteps(node, reg.steps, report);
    AfterBoth(old(node.store), old(node.writes), base, steps);
    if fault.None? {
      fault, all := RunVerifyLineages(node, reg);
    }
  }
}
