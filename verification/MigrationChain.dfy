/**
 The pinned chain a registry prescribes for each collection, and the stores
 that stand somewhere along it.
 */
module MigrationChain {
  import opened Prelude
  import opened MigrationNode
  import opened MigrationEngine

  /** One pinned version and the edge to the version before it.  `checked` says
      that the step pins the transform too. */
  datatype Link = Link(id: VersionId, prev: Option<VersionId>, fields: set<Field>, transform: Option<string>, checked: bool)

  function RootLink(sdl: Sdl): Link
  {
    Link(sdl.root, None, sdl.fields, None, false)
  }

  function RootChain(baseline: seq<Baseline>, c: string): seq<Link>
  {
    if baseline == [] then []
    else if baseline[|baseline| - 1].name == c then [RootLink(baseline[|baseline| - 1].sdl)]
    else RootChain(baseline[..|baseline| - 1], c)
  }

  /** The link a versioned step adds behind `tip`. */
  function NextLink(step: Step, tip: Link): Link
    requires step.PatchVersioned? && step.pin.Some? && step.patch.NewVersion?
  {
    Link(step.pin.value, Some(tip.id), tip.fields - step.patch.drop + step.patch.add,
         if step.lens.Some? then Some(step.lens.value.transform) else None, step.transform.Some?)
  }

  function ChainOf(baseline: seq<Baseline>, steps: seq<Step>, c: string): seq<Link>
    decreases |steps|
  {
    if steps == [] then RootChain(baseline, c)
    else
      var chain := ChainOf(baseline, steps[..|steps| - 1], c);
      var step := steps[|steps| - 1];
      match step
      case AddCollection(sdl, _, _) => if sdl.name == c && chain == [] then [RootLink(sdl)] else chain
      case PatchVersioned(collection, patch, _, pin, _, _) =>
        if collection == c && chain != [] && patch.NewVersion? && pin.Some?
        then chain + [NextLink(step, chain[|chain| - 1])]
        else chain
      case PatchInPlace(_, _, _) => chain
  }

  /** The whole chain of a collection; empty when the registry does not manage it. */
  function Chain(reg: Registry, c: string): seq<Link>
  {
    ChainOf(reg.baseline, reg.steps, c)
  }

  /** The part of the chain that the first `n` steps prescribe. */
  function Prescribed(reg: Registry, n: nat, c: string): seq<Link>
    requires n <= |reg.steps|
  {
    ChainOf(reg.baseline, reg.steps[..n], c)
  }

  lemma {:induction false} ChainGrows(reg: Registry, n: nat, m: nat, c: string)
    requires n <= m <= |reg.steps|
    ensures Prescribed(reg, n, c) <= Prescribed(reg, m, c)
    decreases m - n
  {
    if n < m {
      ChainGrows(reg, n, m - 1, c);
      assert reg.steps[..m][..m - 1] == reg.steps[..m - 1];
    }
  }

  lemma {:induction false} PrescribedIsPrefix(reg: Registry, n: nat, c: string)
    requires n <= |reg.steps|
    ensures Prescribed(reg, n, c) <= Chain(reg, c)
  {
    ChainGrows(reg, n, |reg.steps|, c);
    assert reg.steps[..|reg.steps|] == reg.steps;
  }

  /** Each link's edge leads to the link before it. */
  ghost predicate Threaded(chain: seq<Link>)
  {
    && (chain != [] ==> chain[0].prev == None)
    && (forall i {:trigger chain[i].prev} | 0 < i < |chain| :: chain[i].prev == Some(chain[i - 1].id))
  }

  lemma {:induction false} RootThreaded(baseline: seq<Baseline>, c: string)
    ensures Threaded(RootChain(baseline, c))
  {
    if baseline != [] {
      RootThreaded(baseline[..|baseline| - 1], c);
    }
  }

  lemma {:induction false} ChainThreaded(baseline: seq<Baseline>, steps: seq<Step>, c: string)
    ensures Threaded(ChainOf(baseline, steps, c))
    decreases |steps|
  {
    if steps == [] {
      RootThreaded(baseline, c);
    } else {
      ChainThreaded(baseline, steps[..|steps| - 1], c);
    }
  }

  // ----- registries a maintainer may ship

  ghost predicate WellFormedBaseline(reg: Registry)
  {
    && (forall i, j | 0 <= i < j < |reg.baseline| :: reg.baseline[i].name != reg.baseline[j].name)
    && (forall i | 0 <= i < |reg.baseline| :: WellFormedEntry(reg, reg.baseline[i]))
  }

  /** The schema text declares the entry's name, a pin is the schema's own root,
      a collection with later versions is pinned, and the entry's expectation
      survives to the last version, where verification looks for it. */
  ghost predicate WellFormedEntry(reg: Registry, entry: Baseline)
  {
    var chain := Chain(reg, entry.name);
    && entry.sdl.name == entry.name != ""
    && (entry.pin.Some? ==> entry.pin.value == entry.sdl.root)
    && (|chain| > 1 ==> entry.pin.Some?)
    && (chain != [] && entry.expected.Some? ==> entry.expected.value <= chain[|chain| - 1].fields)
  }

  function LinkIds(chain: seq<Link>): set<VersionId>
  {
    set i | 0 <= i < |chain| :: chain[i].id
  }

  /** Applied at the end of `chain`, with `others` stored beside it, the patch derives `pin`. */
  predicate Yields(patch: Patch, chain: seq<Link>, others: set<VersionId>, pin: VersionId)
    requires patch.NewVersion? && chain != []
  {
    var key := (chain[|chain| - 1].id, LinkIds(chain) + others);
    key in patch.cid && patch.cid[key] == pin
  }

  ghost predicate WellFormedStep(reg: Registry, n: nat)
    requires n < |reg.steps|
  {
    var step := reg.steps[n];
    match step
    case AddCollection(sdl, pin, expected) =>
      && sdl.name != "" && Prescribed(reg, n, sdl.name) == []
      && (pin.Some? ==> pin.value == sdl.root)
      && (expected.Some? ==> expected.value <= sdl.fields)
    case PatchVersioned(c, patch, lens, pin, transform, expected) =>
      var chain := Prescribed(reg, n, c);
      && chain != [] && pin.Some? && patch.NewVersion?
      && Yields(patch, chain, {}, pin.value)
      && (expected.Some? ==> expected.value <= NextLink(step, chain[|chain| - 1]).fields)
      && (transform.Some? ==> lens.Some? && lens.value.transform == transform.value)
    case PatchInPlace(c, patch, expected) =>
      && Prescribed(reg, n, c) != []
      && (expected.Some? ==> forall k | |Prescribed(reg, n, c)| - 1 <= k < |Chain(reg, c)| ::
            expected.value <= Chain(reg, c)[k].fields)
  }

  /** No two links of the registry share a version id. */
  ghost predicate DistinctPins(reg: Registry)
  {
    forall c, d, i, j | 0 <= i < |Chain(reg, c)| && 0 <= j < |Chain(reg, d)| ::
      Chain(reg, c)[i].id == Chain(reg, d)[j].id ==> c == d && i == j
  }

  ghost predicate WellFormed(reg: Registry)
  {
    && WellFormedBaseline(reg)
    && (forall n | 0 <= n < |reg.steps| :: WellFormedStep(reg, n))
    && DistinctPins(reg)
  }

  // ----- stores along the chain

  /** What is stored of the version after the active one. */
  datatype Next = Absent | Attached | Patched

  /** `v` is the complete version of `link`.  A checked transform may be damaged. */
  ghost predicate Complete(v: Version, c: string, link: Link, active: bool)
  {
    && v.id == link.id && v.name == c && v.isActive == active && !v.isPlaceholder
    && v.fields == link.fields
    && (if link.prev.None? then v.previous == None
        else && v.previous.Some? && v.previous.value.source == link.prev.value
             && (link.checked || v.previous.value.transform == link.transform))
  }

  /** `v` is the placeholder that attaching the transform of `link` leaves. */
  ghost predicate Placeholder(v: Version, link: Link)
  {
    && link.prev.Some?
    && v == Version(link.id, "", false, true, {}, Some(Edge(link.prev.value, link.transform)))
  }

  /** Collection `c` is active at link `k` of its chain. */
  ghost predicate At(s: Store, c: string, chain: seq<Link>, k: nat, next: Next)
  {
    && k < |chain| && c in s.names && s.names[c] == chain[k].id
    && (forall i | 0 <= i <= k :: chain[i].id in s.versions && Complete(s.versions[chain[i].id], c, chain[i], i == k))
    && (forall i | k + 1 < i < |chain| :: chain[i].id !in s.versions)
    && (k + 1 < |chain| ==> NextIs(s, c, chain[k + 1], next))
    && (k + 1 == |chain| ==> next == Absent)
  }

  ghost predicate NextIs(s: Store, c: string, link: Link, next: Next)
  {
    match next
    case Absent => link.id !in s.versions
    case Attached => link.id in s.versions && Placeholder(s.versions[link.id], link)
    case Patched => link.id in s.versions && Complete(s.versions[link.id], c, link, false)
  }

  ghost predicate Unregistered(s: Store, c: string, chain: seq<Link>)
  {
    c !in s.names && forall i | 0 <= i < |chain| :: chain[i].id !in s.versions
  }

  ghost predicate Linked(chain: seq<Link>, id: VersionId)
  {
    exists i :: 0 <= i < |chain| && chain[i].id == id
  }

  /** Versions under the name `c` that are no links of its chain. */
  ghost function ForeignIds(s: Store, c: string, chain: seq<Link>): set<VersionId>
  {
    set id | id in s.versions && s.versions[id].name == c && !Linked(chain, id)
  }

  /** Foreign versions may stand beside the chain, complete and inactive. */
  ghost predicate Located(s: Store, c: string, chain: seq<Link>)
  {
    && (Unregistered(s, c, chain) || exists k, next :: At(s, c, chain, k, next))
    && (forall id | id in ForeignIds(s, c, chain) :: !s.versions[id].isActive && !s.versions[id].isPlaceholder)
  }

  /** Every managed collection stands somewhere along its chain.  Collections
      the registry does not manage are unconstrained. */
  ghost predicate OnChain(reg: Registry, s: Store)
  {
    forall c :: Chain(reg, c) != [] ==> Located(s, c, Chain(reg, c))
  }

  /** The chain position of the active version; -1 before registration. */
  ghost function Position(s: Store, c: string, chain: seq<Link>): int
  {
    if c in s.names && Linked(chain, s.names[c])
    then (var k :| 0 <= k < |chain| && chain[k].id == s.names[c]; k)
    else -1
  }

  lemma {:induction false} PositionIs(reg: Registry, s: Store, c: string, k: nat, next: Next)
    requires DistinctPins(reg) && At(s, c, Chain(reg, c), k, next)
    ensures Position(s, c, Chain(reg, c)) == k
  {
    assert Linked(Chain(reg, c), s.names[c]);
  }

  ghost predicate Pinned(reg: Registry, id: VersionId)
  {
    exists c :: Linked(Chain(reg, c), id)
  }

  /** Whatever the registry does not manage is the same in both stores. */
  ghost predicate SameForeign(reg: Registry, s: Store, t: Store)
  {
    && (forall id | !Pinned(reg, id) ::
          && (id in s.versions <==> id in t.versions)
          && (id in s.versions ==> s.versions[id] == t.versions[id]))
    && (forall c | Chain(reg, c) == [] ::
          && (c in s.names <==> c in t.names)
          && (c in s.names ==> s.names[c] == t.names[c]))
  }

  /** `t` may follow `s` in a run: on the chain, nowhere further back. */
  ghost predicate Forward(reg: Registry, s: Store, t: Store)
  {
    && OnChain(reg, t)
    && SameForeign(reg, s, t)
    && (forall c | Chain(reg, c) != [] :: Position(s, c, Chain(reg, c)) <= Position(t, c, Chain(reg, c)))
  }

  /** Links below `n` carry the pinned transform. */
  ghost predicate Exact(s: Store, chain: seq<Link>, n: nat)
  {
    forall i | 0 < i < n && i < |chain| :: chain[i].id in s.versions
      && s.versions[chain[i].id].previous.Some?
      && s.versions[chain[i].id].previous.value.transform == chain[i].transform
  }

  /** The first `n` steps are done: no collection is behind them and their edges are intact. */
  ghost predicate Done(reg: Registry, s: Store, n: nat)
    requires n <= |reg.steps|
  {
    forall c :: Prescribed(reg, n, c) != [] ==> DoneFor(reg, s, n, c)
  }

  ghost predicate DoneFor(reg: Registry, s: Store, n: nat, c: string)
    requires n <= |reg.steps|
  {
    var m := |Prescribed(reg, n, c)|;
    && (exists k: nat, next :: At(s, c, Chain(reg, c), k, next) && k >= m - 1)
    && Exact(s, Chain(reg, c), m)
  }

  /** The store a completed pass leaves: every collection at its last link, every edge intact. */
  ghost predicate AtEnd(reg: Registry, s: Store)
  {
    forall c | Chain(reg, c) != [] ::
      && At(s, c, Chain(reg, c), |Chain(reg, c)| - 1, Absent)
      && Exact(s, Chain(reg, c), |Chain(reg, c)|)
  }

  lemma {:induction false} SameLink(s: Store, t: Store, c: string, chain: seq<Link>, i: nat)
    requires Threaded(chain) && i < |chain|
    requires At(s, c, chain, |chain| - 1, Absent) && Exact(s, chain, |chain|)
    requires At(t, c, chain, |chain| - 1, Absent) && Exact(t, chain, |chain|)
    ensures chain[i].id in s.versions && chain[i].id in t.versions
    ensures s.versions[chain[i].id] == t.versions[chain[i].id]
  {
    assert Complete(s.versions[chain[i].id], c, chain[i], i == |chain| - 1);
    assert Complete(t.versions[chain[i].id], c, chain[i], i == |chain| - 1);
    if i > 0 {
      assert chain[i].prev == Some(chain[i - 1].id);
    }
  }

  /** There is only one completed store over given unmanaged content. */
  lemma {:induction false} EndIsUnique(reg: Registry, s: Store, t: Store)
    requires AtEnd(reg, s) && AtEnd(reg, t) && SameForeign(reg, s, t)
    ensures s == t
  {
    EndNames(reg, s, t);
    hide AtEnd;
    forall id | Pinned(reg, id) ensures id in s.versions && id in t.versions && s.versions[id] == t.versions[id] {
      EndVersion(reg, s, t, id);
    }
    SameTable(reg, s.versions, t.versions);
  }

  lemma {:induction false} EndVersion(reg: Registry, s: Store, t: Store, id: VersionId)
    requires AtEnd(reg, s) && AtEnd(reg, t) && Pinned(reg, id)
    ensures id in s.versions && id in t.versions && s.versions[id] == t.versions[id]
  {
    hide At, Exact;
    var c :| Linked(Chain(reg, c), id);
    var i :| 0 <= i < |Chain(reg, c)| && Chain(reg, c)[i].id == id;
    ChainThreaded(reg.baseline, reg.steps, c);
    SameLink(s, t, c, Chain(reg, c), i);
  }

  lemma {:induction false} EndNames(reg: Registry, s: Store, t: Store)
    requires AtEnd(reg, s) && AtEnd(reg, t) && SameForeign(reg, s, t)
    ensures s.names == t.names
  {
    hide Exact, Linked;
    forall c ensures (c in s.names <==> c in t.names) && (c in s.names ==> s.names[c] == t.names[c]) {
      if Chain(reg, c) != [] {
        assert At(s, c, Chain(reg, c), |Chain(reg, c)| - 1, Absent);
        assert At(t, c, Chain(reg, c), |Chain(reg, c)| - 1, Absent);
      }
    }
    assert s.names.Keys == t.names.Keys;
  }

  lemma {:induction false} SameTable(reg: Registry, a: VersionTable, b: VersionTable)
    requires forall id | Pinned(reg, id) :: id in a && id in b && a[id] == b[id]
    requires forall id | !Pinned(reg, id) :: (id in a <==> id in b) && (id in a ==> a[id] == b[id])
    ensures a == b
  {
    forall id ensures (id in a <==> id in b) && (id in a ==> a[id] == b[id]) {
      assert Pinned(reg, id) || !Pinned(reg, id);
    }
    assert a.Keys == b.Keys;
  }

  // ----- one collection moves, the others stand still

  /** Only versions of `chain` and the name `c` may differ. */
  ghost predicate Touches(c: string, chain: seq<Link>, s: Store, t: Store)
  {
    && (forall id | !Linked(chain, id) ::
          && (id in s.versions <==> id in t.versions)
          && (id in s.versions ==> s.versions[id] == t.versions[id]))
    && (forall d | d != c ::
          && (d in s.names <==> d in t.names)
          && (d in s.names ==> s.names[d] == t.names[d]))
  }

  lemma {:induction false} ForeignUntouched(s: Store, t: Store, c: string, chain: seq<Link>)
    requires Touches(c, chain, s, t)
    ensures ForeignIds(s, c, chain) == ForeignIds(t, c, chain)
    ensures forall id | id in ForeignIds(s, c, chain) :: s.versions[id] == t.versions[id]
  {
  }

  lemma {:induction false} ElsewhereUntouched(reg: Registry, c: string, d: string, s: Store, t: Store)
    requires DistinctPins(reg) && Touches(c, Chain(reg, c), s, t) && d != c
    requires Chain(reg, d) != [] && Located(s, d, Chain(reg, d))
    requires forall id | id in t.versions && Linked(Chain(reg, c), id) :: t.versions[id].name != d
    ensures Located(t, d, Chain(reg, d))
    ensures forall k, next :: At(s, d, Chain(reg, d), k, next) ==> At(t, d, Chain(reg, d), k, next)
    ensures Position(s, d, Chain(reg, d)) == Position(t, d, Chain(reg, d))
    ensures forall n | Exact(s, Chain(reg, d), n) :: Exact(t, Chain(reg, d), n)
  {
    var chain := Chain(reg, d);
    forall id | id in ForeignIds(t, d, chain) ensures id in ForeignIds(s, d, chain) && s.versions[id] == t.versions[id] {}
    forall i | 0 <= i < |chain| ensures !Linked(Chain(reg, c), chain[i].id) {}
    forall k, next | At(s, d, chain, k, next) ensures At(t, d, chain, k, next) {}
  }

  /** Versions a collection stores for its own chain bear its own name, or none. */
  lemma {:induction false} OwnNames(s: Store, c: string, chain: seq<Link>, k: nat, next: Next, id: VersionId)
    requires At(s, c, chain, k, next) && id in s.versions && Linked(chain, id)
    ensures s.versions[id].name == c || s.versions[id].name == ""
  {
    var i :| 0 <= i < |chain| && chain[i].id == id;
    assert i <= k ==> Complete(s.versions[chain[i].id], c, chain[i], i == k);
  }

  /** A move within one collection is a forward step of the whole store. */
  lemma {:induction false} MoveIsForward(reg: Registry, s: Store, t: Store, c: string, k: nat, next: Next)
    requires WellFormed(reg) && OnChain(reg, s) && Chain(reg, c) != []
    requires Touches(c, Chain(reg, c), s, t)
    requires At(t, c, Chain(reg, c), k, next) && Position(s, c, Chain(reg, c)) <= k
    ensures Forward(reg, s, t)
  {
    PositionIs(reg, t, c, k, next);
    forall d | Chain(reg, d) != []
      ensures Located(t, d, Chain(reg, d))
      ensures Position(s, d, Chain(reg, d)) <= Position(t, d, Chain(reg, d))
    {
      if d == c {
        assert Located(s, c, Chain(reg, c));
        ForeignUntouched(s, t, c, Chain(reg, c));
      } else {
        ManagedNamesAreReal(reg, d);
        forall id | id in t.versions && Linked(Chain(reg, c), id) ensures t.versions[id].name != d {
          OwnNames(t, c, Chain(reg, c), k, next, id);
        }
        ElsewhereUntouched(reg, c, d, s, t);
      }
    }
    forall id | !Pinned(reg, id) ensures !Linked(Chain(reg, c), id) {}
  }

  // ----- foreign versions

  /** A version stored under a managed name that is no link of its chain is no link of any chain. */
  lemma {:induction false} ForeignIsUnpinned(reg: Registry, s: Store, c: string, id: VersionId)
    requires WellFormed(reg) && OnChain(reg, s) && Chain(reg, c) != [] && id in ForeignIds(s, c, Chain(reg, c))
    ensures !Pinned(reg, id)
  {
    ManagedNamesAreReal(reg, c);
    forall d | d != c ensures !Linked(Chain(reg, d), id) {
      if Chain(reg, d) != [] && !Unregistered(s, d, Chain(reg, d)) {
        assert Located(s, d, Chain(reg, d));
        var k, next :| At(s, d, Chain(reg, d), k, next);
        if Linked(Chain(reg, d), id) {
          OwnNames(s, d, Chain(reg, d), k, next, id);
        }
      }
    }
  }

  /** Stores that agree on what is unmanaged have the same foreign versions. */
  lemma {:induction false} ForeignIsKept(reg: Registry, s: Store, t: Store, c: string)
    requires WellFormed(reg) && OnChain(reg, s) && OnChain(reg, t) && SameForeign(reg, s, t) && Chain(reg, c) != []
    ensures ForeignIds(s, c, Chain(reg, c)) == ForeignIds(t, c, Chain(reg, c))
  {
    hide WellFormed, OnChain;
    var chain := Chain(reg, c);
    forall id ensures id in ForeignIds(s, c, chain) <==> id in ForeignIds(t, c, chain) {
      if id in ForeignIds(s, c, chain) {
        ForeignIsUnpinned(reg, s, c, id);
      }
      if id in ForeignIds(t, c, chain) {
        ForeignIsUnpinned(reg, t, c, id);
      }
    }
  }

  /** Whatever stands beside the chains, each patch still derives the pinned id. */
  ghost predicate Undisturbed(reg: Registry, s: Store)
  {
    forall n | 0 <= n < |reg.steps| :: UndisturbedAt(reg, s, n)
  }

  ghost predicate UndisturbedAt(reg: Registry, s: Store, n: nat)
    requires n < |reg.steps|
  {
    var step := reg.steps[n];
    step.PatchVersioned? ==>
      && step.pin.Some? && step.patch.NewVersion? && Prescribed(reg, n, step.collection) != []
      && Yields(step.patch, Prescribed(reg, n, step.collection),
                ForeignIds(s, step.collection, Chain(reg, step.collection)), step.pin.value)
  }

  lemma {:induction false} StaysUndisturbed(reg: Registry, s: Store, t: Store)
    requires WellFormed(reg) && OnChain(reg, s) && OnChain(reg, t) && SameForeign(reg, s, t) && Undisturbed(reg, s)
    ensures Undisturbed(reg, t)
  {
    hide OnChain, SameForeign, WellFormed, Yields;
    forall n | 0 <= n < |reg.steps| ensures UndisturbedAt(reg, t, n) {
      assert UndisturbedAt(reg, s, n);
      var step := reg.steps[n];
      if step.PatchVersioned? {
        PrescribedIsPrefix(reg, n, step.collection);
        ForeignIsKept(reg, s, t, step.collection);
      }
    }
  }

  lemma {:induction false} CleanIsUndisturbed(reg: Registry, s: Store)
    requires WellFormed(reg) && forall c | Chain(reg, c) != [] :: ForeignIds(s, c, Chain(reg, c)) == {}
    ensures Undisturbed(reg, s)
  {
    hide Yields, ForeignIds;
    forall n | 0 <= n < |reg.steps| ensures UndisturbedAt(reg, s, n) {
      assert WellFormedStep(reg, n);
      if reg.steps[n].PatchVersioned? {
        PrescribedIsPrefix(reg, n, reg.steps[n].collection);
      }
    }
  }

  lemma {:induction false} ManagedNamesAreReal(reg: Registry, c: string)
    requires WellFormed(reg) && Chain(reg, c) != []
    ensures c != ""
  {
    var n := |reg.steps|;
    assert reg.steps[..n] == reg.steps;
    while n > 0 && Prescribed(reg, n - 1, c) != []
      invariant 0 <= n <= |reg.steps| && Prescribed(reg, n, c) != []
    {
      n := n - 1;
    }
    if n > 0 {
      assert reg.steps[..n][..n - 1] == reg.steps[..n - 1];
      assert WellFormedStep(reg, n - 1);
    } else {
      assert reg.steps[..0] == [];
      RootIsListed(reg.baseline, c);
    }
  }

  lemma {:induction false} RootIsListed(baseline: seq<Baseline>, c: string)
    requires RootChain(baseline, c) != []
    ensures exists i :: 0 <= i < |baseline| && baseline[i].name == c && RootChain(baseline, c) == [RootLink(baseline[i].sdl)]
  {
    var last := |baseline| - 1;
    if baseline[last].name != c {
      RootIsListed(baseline[..last], c);
    }
  }

  lemma {:induction false} ForwardTransitive(reg: Registry, s: Store, t: Store, u: Store)
    requires Forward(reg, s, t) && Forward(reg, t, u)
    ensures Forward(reg, s, u)
  {
    forall c | Chain(reg, c) != []
      ensures Position(s, c, Chain(reg, c)) <= Position(u, c, Chain(reg, c))
    {
      assert Position(s, c, Chain(reg, c)) <= Position(t, c, Chain(reg, c));
      assert Position(t, c, Chain(reg, c)) <= Position(u, c, Chain(reg, c));
    }
  }

  /** Each write of a run is a forward step from the store before it. */
  ghost predicate Climbs(reg: Registry, s: Store, writes: seq<Store>)
    decreases |writes|
  {
    writes != [] ==> Forward(reg, s, writes[0]) && Climbs(reg, writes[0], writes[1..])
  }

  lemma {:induction false} ClimbsOn(reg: Registry, s: Store, a: seq<Store>, b: seq<Store>)
    requires Climbs(reg, s, a) && Climbs(reg, After(s, a), b)
    ensures Climbs(reg, s, a + b)
    decreases |a|
  {
    hide Forward;
    if a == [] {
      assert a + b == b;
    } else {
      ClimbsOn(reg, a[0], a[1..], b);
      assert (a + b)[1..] == a[1..] + b;
    }
  }

  /** A climb cut short is a climb, and ends forward of where it began. */
  lemma {:induction false} ClimbCut(reg: Registry, s: Store, writes: seq<Store>, n: nat)
    requires Climbs(reg, s, writes) && OnChain(reg, s) && n <= |writes|
    ensures Climbs(reg, s, writes[..n]) && Forward(reg, s, After(s, writes[..n]))
    decreases n
  {
    if n > 0 {
      ClimbCut(reg, writes[0], writes[1..], n - 1);
      assert writes[..n][1..] == writes[1..][..n - 1];
      assert After(s, writes[..n]) == After(writes[0], writes[1..][..n - 1]);
      ForwardTransitive(reg, s, writes[0], After(s, writes[..n]));
    }
  }

  /** Along a climb no collection ever moves back. */
  lemma {:induction false} ClimbNeverFalls(reg: Registry, s: Store, writes: seq<Store>, i: nat, j: nat, c: string)
    requires Climbs(reg, s, writes) && OnChain(reg, s) && i <= j <= |writes| && Chain(reg, c) != []
    ensures Position(After(s, writes[..i]), c, Chain(reg, c)) <= Position(After(s, writes[..j]), c, Chain(reg, c))
    decreases j
  {
    hide OnChain, Position, Chain;
    if i == 0 {
      ClimbCut(reg, s, writes, j);
    } else {
      ClimbNeverFalls(reg, writes[0], writes[1..], i - 1, j - 1, c);
      assert After(s, writes[..i]) == After(writes[0], writes[1..][..i - 1]);
      assert After(s, writes[..j]) == After(writes[0], writes[1..][..j - 1]);
    }
  }
}
