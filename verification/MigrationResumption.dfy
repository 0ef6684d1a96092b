/**
 Crash resumption of the migration engine: from any store along the pinned
 chain, and after any number of passes cut between any two node calls, one
 uninterrupted pass succeeds and leaves the one completed store, without ever
 moving a collection backwards.
 */
module MigrationResumption {
  import opened Prelude
  import opened MigrationNode
  import opened MigrationEngine
  import opened MigrationChain

  // ----- node calls along a chain

  /** From link `k` exactly the links before it are ancestors. */
  lemma {:induction false} AncestorAlong(s: Store, c: string, chain: seq<Link>, k: nat, next: Next, n: nat)
    requires Threaded(chain) && At(s, c, chain, k, next)
    ensures n <= k ==> Ancestor(s.versions, chain[k].id, n) == Some(chain[k - n].id)
    ensures n > k ==> Ancestor(s.versions, chain[k].id, n) == None
  {
    if n > 0 {
      AncestorAlong(s, c, chain, k, next, n - 1);
      if n <= k + 1 {
        assert Complete(s.versions[chain[k - (n - 1)].id], c, chain[k - (n - 1)], n == 1);
      }
    }
  }

  ghost predicate Unrepeated(chain: seq<Link>)
  {
    forall i, j | 0 <= i < j < |chain| :: chain[i].id != chain[j].id
  }

  lemma {:induction false} DescendsAlong(s: Store, c: string, chain: seq<Link>, k: nat, next: Next, j: nat)
    requires Threaded(chain) && Unrepeated(chain) && At(s, c, chain, k, next) && j < |chain|
    ensures DescendsFrom(s.versions, chain[k].id, chain[j].id) <==> j < k
  {
    if j < k {
      AncestorAlong(s, c, chain, k, next, k - j);
    }
    forall n: nat | n > 0 && Ancestor(s.versions, chain[k].id, n) == Some(chain[j].id) ensures j < k {
      AncestorAlong(s, c, chain, k, next, n);
    }
  }

  /** Rewriting one stored version of the chain touches nothing else. */
  lemma {:induction false} UpdateTouches(s: Store, c: string, chain: seq<Link>, i: nat, v: Version)
    requires i < |chain| && v.id == chain[i].id
    ensures Touches(c, chain, s, s.(versions := s.versions[v.id := v]))
  {
    assert Linked(chain, v.id);
  }

  lemma {:induction false} AttachAlong(s: Store, c: string, chain: seq<Link>, k: nat, lens: Lens)
    requires Unrepeated(chain) && At(s, c, chain, k, Absent) && k + 1 < |chain|
    requires chain[k + 1].prev == Some(chain[k].id)
    requires chain[k + 1].transform == Some(lens.transform)
    ensures var t := SetMigration(s, chain[k].id, chain[k + 1].id, lens);
            && At(t, c, chain, k, Attached) && Touches(c, chain, s, t)
            && (Exact(s, chain, k + 1) ==> Exact(t, chain, k + 1))
  {
    var t := SetMigration(s, chain[k].id, chain[k + 1].id, lens);
    UpdateTouches(s, c, chain, k + 1, t.versions[chain[k + 1].id]);
  }

  /** Before the next version is patched, a collection's versions are the links so far and the foreign ones. */
  lemma {:induction false} NamedAlong(s: Store, c: string, chain: seq<Link>, k: nat, next: Next)
    requires At(s, c, chain, k, next) && next != Patched && c != ""
    ensures NamedIds(s, c) == LinkIds(chain[..k + 1]) + ForeignIds(s, c, chain)
  {
    forall i | 0 <= i < |chain| ensures chain[i].id in NamedIds(s, c) <==> i <= k {
      if i <= k {
        assert Complete(s.versions[chain[i].id], c, chain[i], i == k);
      }
    }
    forall id ensures id in NamedIds(s, c) <==> id in LinkIds(chain[..k + 1]) + ForeignIds(s, c, chain) {
      if id in LinkIds(chain[..k + 1]) {
        var i :| 0 <= i < k + 1 && chain[..k + 1][i].id == id;
        assert chain[i].id == id;
      }
      if id in NamedIds(s, c) && Linked(chain, id) {
        var i :| 0 <= i < |chain| && chain[i].id == id;
        assert chain[..k + 1][i].id == id;
      }
    }
  }

  lemma {:induction false} PatchAlong(s: Store, c: string, chain: seq<Link>, k: nat, next: Next, step: Step)
    requires Unrepeated(chain) && At(s, c, chain, k, next) && k + 1 < |chain|
    requires next == Attached || (next == Absent && chain[k + 1].transform == None)
    requires step.PatchVersioned? && step.collection == c && step.pin.Some? && step.patch.NewVersion?
    requires c != "" && Yields(step.patch, chain[..k + 1], ForeignIds(s, c, chain), chain[k + 1].id)
    requires chain[k + 1] == NextLink(step, chain[k])
    ensures var r := PatchCollection(s, c, step.patch);
            && r.Ok? && r.value.1.id == chain[k + 1].id && r.value.1.fields == chain[k + 1].fields
            && At(r.value.0, c, chain, k, Patched) && Touches(c, chain, s, r.value.0)
            && (Exact(s, chain, k + 1) ==> Exact(r.value.0, chain, k + 2))
  {
    assert Complete(s.versions[chain[k].id], c, chain[k], true);
    NamedAlong(s, c, chain, k, next);
    var t := PatchCollection(s, c, step.patch).value.0;
    UpdateTouches(s, c, chain, k + 1, t.versions[chain[k + 1].id]);
  }

  lemma {:induction false} ActivateAlong(s: Store, c: string, chain: seq<Link>, k: nat)
    requires Unrepeated(chain) && Located(s, c, chain) && c != ""
    requires At(s, c, chain, k, Patched)
    ensures var r := SetActive(s, chain[k + 1].id);
            && r.Ok? && At(r.value, c, chain, k + 1, Absent) && Touches(c, chain, s, r.value)
            && (Exact(s, chain, k + 2) ==> Exact(r.value, chain, k + 2))
  {
    var t := SetActive(s, chain[k + 1].id).value;
    forall i | 0 <= i <= k + 1 ensures Complete(t.versions[chain[i].id], c, chain[i], i == k + 1) {
      if i <= k {
        assert Complete(s.versions[chain[i].id], c, chain[i], i == k);
      }
    }
  }

  lemma {:induction false} RepairAlong(s: Store, c: string, chain: seq<Link>, k: nat, next: Next, i: nat, lens: Lens)
    requires Unrepeated(chain) && At(s, c, chain, k, next) && 0 < i < |chain|
    requires i <= k || (i == k + 1 && next == Patched)
    requires chain[i].prev == Some(chain[i - 1].id)
    requires chain[i].transform == Some(lens.transform)
    ensures var t := SetMigration(s, chain[i - 1].id, chain[i].id, lens);
            && At(t, c, chain, k, next) && Touches(c, chain, s, t)
            && (Exact(s, chain, i) ==> Exact(t, chain, i + 1))
  {
    var t := SetMigration(s, chain[i - 1].id, chain[i].id, lens);
    assert Complete(t.versions[chain[i].id], c, chain[i], i == k);
    forall j | 0 <= j <= k && j != i ensures t.versions[chain[j].id] == s.versions[chain[j].id] {}
    UpdateTouches(s, c, chain, i, t.versions[chain[i].id]);
  }

  // ----- one versioned step, within its own chain

  /** The step adds link `j`. */
  ghost predicate Adds(step: Step, chain: seq<Link>, j: nat)
  {
    && step.PatchVersioned? && step.pin.Some? && step.patch.NewVersion?
    && 0 < j < |chain| && chain[j] == NextLink(step, chain[j - 1])
    && (step.expected.Some? ==> step.expected.value <= chain[j].fields)
    && (step.transform.Some? ==> step.lens.Some? && step.lens.value.transform == step.transform.value)
  }

  /** With what stands beside the chain, the step's patch derives its pin. */
  ghost predicate Derives(s: Store, step: Step, chain: seq<Link>, j: nat)
    requires Adds(step, chain, j)
  {
    Yields(step.patch, chain[..j], ForeignIds(s, step.collection, chain), step.pin.value)
  }

  lemma {:induction false} StillDerives(s: Store, t: Store, step: Step, chain: seq<Link>, j: nat)
    requires Adds(step, chain, j) && Derives(s, step, chain, j) && Touches(step.collection, chain, s, t)
    ensures Derives(t, step, chain, j)
  {
    ForeignUntouched(s, t, step.collection, chain);
  }

  /** A store the step may write on its way: `c` at link `k`, nothing else touched. */
  ghost predicate OnTheWay(c: string, chain: seq<Link>, s: Store, t: Store, k: nat, next: Next)
  {
    At(t, c, chain, k, next) && Touches(c, chain, s, t)
  }

  /** Which arm a versioned step takes, by where its collection stands. */
  ghost function Arm(s: Store, chain: seq<Link>, step: Step, j: nat, k: nat, next: Next): Run
    requires Adds(step, chain, j) && j - 1 <= k && At(s, step.collection, chain, k, next)
  {
    var pin := chain[j].id;
    if k == j then VerifyActiveStep(s, step, pin)
    else if k > j then VerifyAncestor(s, step, pin, s.versions[pin])
    else
      match next
      case Absent => AttachPatchActivate(s, step, chain[k].id, pin)
      case Attached => PatchVerifyActivate(s, step, pin)
      case Patched => ActivateInactive(s, step, chain[k].id, pin, s.versions[pin])
  }

  lemma {:induction false} TakesArm(s: Store, chain: seq<Link>, step: Step, j: nat, k: nat, next: Next)
    requires Threaded(chain) && Unrepeated(chain) && Adds(step, chain, j)
    requires j - 1 <= k && At(s, step.collection, chain, k, next)
    ensures ApplyPatchVersioned(s, step) == Arm(s, chain, step, j, k, next)
  {
    var c := step.collection;
    assert Complete(s.versions[chain[k].id], c, chain[k], true);
    assert j <= k ==> Complete(s.versions[chain[j].id], c, chain[j], j == k);
    DescendsAlong(s, c, chain, k, next, j);
  }

  /** At or past the link, edge intact: a check and no write. */
  lemma {:induction false} RunBehindIntact(s: Store, chain: seq<Link>, step: Step, j: nat, k: nat, next: Next)
    requires Adds(step, chain, j) && j <= k
    requires At(s, step.collection, chain, k, next) && Exact(s, chain, j + 1)
    ensures Arm(s, chain, step, j, k, next) == Run([], Current(0))
  {
    assert Complete(s.versions[chain[k].id], step.collection, chain[k], true);
    assert Complete(s.versions[chain[j].id], step.collection, chain[j], j == k);
  }

  /** At or past the link, pinned transform damaged: one repairing write. */
  lemma {:induction false} RunBehindDamaged(s: Store, chain: seq<Link>, step: Step, j: nat, k: nat, next: Next) returns (t: Store)
    requires Unrepeated(chain) && Adds(step, chain, j) && j <= k
    requires At(s, step.collection, chain, k, next) && Exact(s, chain, j) && !Exact(s, chain, j + 1)
    ensures Arm(s, chain, step, j, k, next) == Run([t], Current(1))
    ensures OnTheWay(step.collection, chain, s, t, k, next) && Exact(t, chain, j + 1)
  {
    var c := step.collection;
    assert Complete(s.versions[chain[j].id], c, chain[j], j == k);
    assert step.transform.Some?;
    t := SetMigration(s, chain[j - 1].id, chain[j].id, step.lens.value);
    assert Arm(s, chain, step, j, k, next) == Run([t], Current(1)) by {
      assert Complete(s.versions[chain[k].id], c, chain[k], true);
    }
    RepairAlong(s, c, chain, k, next, j, step.lens.value);
  }

  lemma {:induction false} LocatedOnTheWay(s: Store, t: Store, c: string, chain: seq<Link>, k: nat, next: Next)
    requires Located(s, c, chain) && OnTheWay(c, chain, s, t, k, next)
    ensures Located(t, c, chain)
  {
    ForeignUntouched(s, t, c, chain);
  }

  /** Complete and inactive, edge intact: check, activate. */
  lemma {:induction false} RunPatchedIntact(s: Store, chain: seq<Link>, step: Step, j: nat) returns (t: Store)
    requires Unrepeated(chain) && Adds(step, chain, j)
    requires Located(s, step.collection, chain) && step.collection != ""
    requires At(s, step.collection, chain, j - 1, Patched) && Exact(s, chain, j + 1)
    ensures ActivateInactive(s, step, chain[j - 1].id, chain[j].id, s.versions[chain[j].id]) == Run([t], Applied(0))
    ensures OnTheWay(step.collection, chain, s, t, j, Absent) && Exact(t, chain, j + 1)
  {
    ActivateAlong(s, step.collection, chain, j - 1);
    t := SetActive(s, chain[j].id).value;
  }

  /** Complete and inactive, pinned transform damaged: check, repair, activate. */
  lemma {:induction false} RunPatchedDamaged(s: Store, chain: seq<Link>, step: Step, j: nat) returns (s1: Store, t: Store)
    requires Unrepeated(chain) && Adds(step, chain, j)
    requires Located(s, step.collection, chain) && step.collection != ""
    requires At(s, step.collection, chain, j - 1, Patched) && Exact(s, chain, j) && !Exact(s, chain, j + 1)
    ensures ActivateInactive(s, step, chain[j - 1].id, chain[j].id, s.versions[chain[j].id]) == Run([s1, t], Applied(1))
    ensures OnTheWay(step.collection, chain, s, s1, j - 1, Patched)
    ensures OnTheWay(step.collection, chain, s1, t, j, Absent) && Exact(t, chain, j + 1)
  {
    var c := step.collection;
    assert step.transform.Some?;
    s1 := SetMigration(s, chain[j - 1].id, chain[j].id, step.lens.value);
    RepairAlong(s, c, chain, j - 1, Patched, j, step.lens.value);
    LocatedOnTheWay(s, s1, c, chain, j - 1, Patched);
    t := RunPatchedIntact(s1, chain, step, j);
    RepairThenActivate(s, chain[j - 1].id, step, s1, t);
  }

  lemma {:induction false} RepairThenActivate(s: Store, active: VersionId, step: Step, s1: Store, t: Store)
    requires step.PatchVersioned? && step.pin.Some? && step.pin.value in s.versions
    requires step.transform.Some? && step.lens.Some?
    requires s.versions[step.pin.value].previous.Some?
    requires s.versions[step.pin.value].previous.value.transform != step.transform
    requires s1 == SetMigration(s, active, step.pin.value, step.lens.value)
    requires step.pin.value in s1.versions
    requires ActivateInactive(s1, step, active, step.pin.value, s1.versions[step.pin.value]) == Run([t], Applied(0))
    ensures ActivateInactive(s, step, active, step.pin.value, s.versions[step.pin.value]) == Run([s1, t], Applied(1))
  {
    assert [s1] + [t] == [s1, t];
  }

  /** Patch inactive, verify, activate. */
  lemma {:induction false} RunPatches(s: Store, chain: seq<Link>, step: Step, j: nat, next: Next) returns (s1: Store, s2: Store)
    requires Unrepeated(chain) && Adds(step, chain, j)
    requires Located(s, step.collection, chain) && step.collection != ""
    requires At(s, step.collection, chain, j - 1, next) && Exact(s, chain, j)
    requires next == Attached || (next == Absent && step.lens.None?)
    requires Derives(s, step, chain, j)
    ensures PatchVerifyActivate(s, step, chain[j].id) == Run([s1, s2], Applied(0))
    ensures OnTheWay(step.collection, chain, s, s1, j - 1, Patched)
    ensures OnTheWay(step.collection, chain, s1, s2, j, Absent) && Exact(s2, chain, j + 1)
  {
    var c := step.collection;
    PatchAlong(s, c, chain, j - 1, next, step);
    s1 := PatchCollection(s, c, step.patch).value.0;
    LocatedOnTheWay(s, s1, c, chain, j - 1, Patched);
    ActivateAlong(s1, c, chain, j - 1);
    s2 := SetActive(s1, chain[j].id).value;
  }

  /** Attach first, then patch inactive, verify, activate. */
  lemma {:induction false} RunAttaches(s: Store, chain: seq<Link>, step: Step, j: nat) returns (s0: Store, s1: Store, s2: Store)
    requires Unrepeated(chain) && Adds(step, chain, j) && step.lens.Some?
    requires Located(s, step.collection, chain) && step.collection != ""
    requires At(s, step.collection, chain, j - 1, Absent) && Exact(s, chain, j) && Derives(s, step, chain, j)
    ensures AttachPatchActivate(s, step, chain[j - 1].id, chain[j].id) == Run([s0, s1, s2], Applied(0))
    ensures OnTheWay(step.collection, chain, s, s0, j - 1, Attached)
    ensures OnTheWay(step.collection, chain, s0, s1, j - 1, Patched)
    ensures OnTheWay(step.collection, chain, s1, s2, j, Absent) && Exact(s2, chain, j + 1)
  {
    var c := step.collection;
    s0 := SetMigration(s, chain[j - 1].id, chain[j].id, step.lens.value);
    AttachAlong(s, c, chain, j - 1, step.lens.value);
    LocatedOnTheWay(s, s0, c, chain, j - 1, Attached);
    StillDerives(s, s0, step, chain, j);
    s1, s2 := RunPatches(s0, chain, step, j, Attached);
    AttachThenPatch(s, chain[j - 1].id, step, s0, s1, s2);
  }

  lemma {:induction false} AttachThenPatch(s: Store, active: VersionId, step: Step, s0: Store, s1: Store, s2: Store)
    requires step.PatchVersioned? && step.pin.Some? && step.lens.Some?
    requires s0 == SetMigration(s, active, step.pin.value, step.lens.value)
    requires PatchVerifyActivate(s0, step, step.pin.value) == Run([s1, s2], Applied(0))
    ensures AttachPatchActivate(s, step, active, step.pin.value) == Run([s0, s1, s2], Applied(0))
  {
    assert [s0] + [s1, s2] == [s0, s1, s2];
  }

  /** A write made while still at link `k`. */
  ghost predicate Advancing(c: string, chain: seq<Link>, s: Store, k: nat, t: Store)
  {
    exists next :: OnTheWay(c, chain, s, t, k, next)
  }

  /** Writes, each after the other, that stay at link `k` until the last one stands at link `to`. */
  ghost predicate Lead(c: string, chain: seq<Link>, s: Store, k: nat, to: nat, next: Next, writes: seq<Store>)
    decreases |writes|
  {
    if |writes| <= 1 then OnTheWay(c, chain, s, After(s, writes), to, next)
    else Advancing(c, chain, s, k, writes[0]) && Lead(c, chain, writes[0], k, to, next, writes[1..])
  }

  lemma {:induction false} LeadMore(c: string, chain: seq<Link>, s: Store, k: nat, s1: Store, to: nat, next: Next, rest: seq<Store>)
    requires Advancing(c, chain, s, k, s1) && rest != [] && Lead(c, chain, s1, k, to, next, rest)
    ensures Lead(c, chain, s, k, to, next, [s1] + rest)
  {
    assert ([s1] + rest)[1..] == rest;
  }

  /** From just before its link a versioned step applies, and ends at its link. */
  ghost predicate Arrives(s: Store, chain: seq<Link>, step: Step, j: nat, k: nat, run: Run)
    requires step.PatchVersioned?
  {
    && run.outcome.Applied? && run.writes != []
    && Lead(step.collection, chain, s, k, j, Absent, run.writes)
    && Exact(After(s, run.writes), chain, j + 1)
  }

  lemma {:induction false} PatchedArrives(s: Store, chain: seq<Link>, step: Step, j: nat, k: nat) returns (run: Run)
    requires Unrepeated(chain) && Adds(step, chain, j) && k + 1 == j
    requires Located(s, step.collection, chain) && step.collection != ""
    requires At(s, step.collection, chain, k, Patched) && Exact(s, chain, j)
    ensures run == ActivateInactive(s, step, chain[k].id, chain[j].id, s.versions[chain[j].id])
    ensures Arrives(s, chain, step, j, k, run)
  {
    hide Located, At, Touches, OnTheWay, Exact;
    if Exact(s, chain, j + 1) {
      var t := RunPatchedIntact(s, chain, step, j);
      run := Run([t], Applied(0));
    } else {
      var s1, t := RunPatchedDamaged(s, chain, step, j);
      LeadMore(step.collection, chain, s, k, s1, j, Absent, [t]);
      run := Run([s1] + [t], Applied(1));
    }
  }

  lemma {:induction false} AttachedArrives(s: Store, chain: seq<Link>, step: Step, j: nat, k: nat, next: Next) returns (run: Run)
    requires Unrepeated(chain) && Adds(step, chain, j) && k + 1 == j
    requires Located(s, step.collection, chain) && step.collection != ""
    requires At(s, step.collection, chain, k, next) && Exact(s, chain, j)
    requires next == Attached || (next == Absent && step.lens.None?)
    requires Derives(s, step, chain, j)
    ensures run == PatchVerifyActivate(s, step, chain[j].id)
    ensures Arrives(s, chain, step, j, k, run)
  {
    hide Located, At, Touches, OnTheWay, Exact;
    var s1, t := RunPatches(s, chain, step, j, next);
    LeadMore(step.collection, chain, s, k, s1, j, Absent, [t]);
    run := Run([s1] + [t], Applied(0));
  }

  lemma {:induction false} AbsentArrives(s: Store, chain: seq<Link>, step: Step, j: nat, k: nat) returns (run: Run)
    requires Unrepeated(chain) && Adds(step, chain, j) && k + 1 == j && step.lens.Some?
    requires Located(s, step.collection, chain) && step.collection != ""
    requires At(s, step.collection, chain, k, Absent) && Exact(s, chain, j) && Derives(s, step, chain, j)
    ensures run == AttachPatchActivate(s, step, chain[k].id, chain[j].id)
    ensures Arrives(s, chain, step, j, k, run)
  {
    hide Located, At, Touches, OnTheWay, Exact;
    var s0, s1, t := RunAttaches(s, chain, step, j);
    LeadMore(step.collection, chain, s0, k, s1, j, Absent, [t]);
    LeadMore(step.collection, chain, s, k, s0, j, Absent, [s1] + [t]);
    run := Run([s0] + ([s1] + [t]), Applied(0));
  }

  lemma {:induction false} ArmApplies(s: Store, chain: seq<Link>, step: Step, j: nat, k: nat, next: Next) returns (run: Run)
    requires Unrepeated(chain) && Adds(step, chain, j) && k + 1 == j
    requires Located(s, step.collection, chain) && step.collection != ""
    requires At(s, step.collection, chain, k, next) && Exact(s, chain, j)
    requires next == Patched || Derives(s, step, chain, j)
    ensures run == Arm(s, chain, step, j, k, next) && Arrives(s, chain, step, j, k, run)
  {
    hide Located, At, Touches, OnTheWay, Exact;
    if next == Patched {
      run := PatchedArrives(s, chain, step, j, k);
    } else if next == Absent && step.lens.Some? {
      run := AbsentArrives(s, chain, step, j, k);
    } else {
      run := AttachedArrives(s, chain, step, j, k, next);
    }
  }

  /** Failed, and not unnoticed: something was written, or the node itself rejected the patch. */
  predicate FailsLoudly(run: Run)
  {
    run.outcome.Failed? && (run.writes != [] || run.outcome.fault == StepFailed)
  }

  /** A patch that derives another id than its pin fails the step. */
  lemma {:induction false} PatchFails(s: Store, chain: seq<Link>, step: Step, j: nat, next: Next)
    requires Adds(step, chain, j) && step.collection != "" && next != Patched
    requires At(s, step.collection, chain, j - 1, next) && !Derives(s, step, chain, j)
    ensures FailsLoudly(PatchVerifyActivate(s, step, chain[j].id))
  {
    NamedAlong(s, step.collection, chain, j - 1, next);
    assert Complete(s.versions[chain[j - 1].id], step.collection, chain[j - 1], true);
    assert chain[..j][j - 1] == chain[j - 1];
  }

  lemma {:induction false} ArmFails(s: Store, chain: seq<Link>, step: Step, j: nat, k: nat, next: Next)
    requires Unrepeated(chain) && Adds(step, chain, j) && k + 1 == j && step.collection != ""
    requires At(s, step.collection, chain, k, next) && next != Patched && !Derives(s, step, chain, j)
    ensures FailsLoudly(Arm(s, chain, step, j, k, next))
  {
    if next == Absent && step.lens.Some? {
      var s0 := SetMigration(s, chain[k].id, chain[j].id, step.lens.value);
      AttachAlong(s, step.collection, chain, k, step.lens.value);
      ForeignUntouched(s, s0, step.collection, chain);
      PatchFails(s0, chain, step, j, Attached);
    } else {
      PatchFails(s, chain, step, j, next);
    }
  }

  /** At or past its link a versioned step is current; it writes only to repair. */
  lemma {:induction false} ArmIsCurrent(s: Store, chain: seq<Link>, step: Step, j: nat, k: nat, next: Next) returns (run: Run)
    requires Unrepeated(chain) && Adds(step, chain, j) && j <= k
    requires At(s, step.collection, chain, k, next) && Exact(s, chain, j)
    ensures run == Arm(s, chain, step, j, k, next)
    ensures run.outcome.Current? && |run.writes| <= 1
    ensures Exact(s, chain, j + 1) ==> run == Run([], Current(0))
    ensures Lead(step.collection, chain, s, k, k, next, run.writes)
    ensures Exact(After(s, run.writes), chain, j + 1)
  {
    if Exact(s, chain, j + 1) {
      RunBehindIntact(s, chain, step, j, k, next);
      run := Run([], Current(0));
    } else {
      var t := RunBehindDamaged(s, chain, step, j, k, next);
      run := Run([t], Current(1));
    }
  }
}
