/**
 Behavior readiness: the runtime's publisher and the two client projectors.
 */
module BehaviorReadiness {
  import opened Prelude
  import Text

  const FORMAT_VERSION: nat := 1
  const MAX_AGE_SECONDS: int := 45
  const NANOS_PER_SECOND: int := 1_000_000_000

  datatype ProcessState = Uninitialized | Recovering | ProcessReady | ShuttingDown | Shutdown

  datatype EntryState = EntryReady | EntryUnavailable

  datatype Reason =
    | BehaviorDisabled
    | RuntimeConfigurationInvalid
    | BackendNotConfigured
    | BackendDisabled
    | BackendTemporarilyUnavailable
    | CredentialsRequired
    | InferenceProfileInvalid
    | ToolConfigurationInvalid
    | ToolSurfaceUnavailable
    | ExecutorStartFailed

  datatype Entry = Entry(id: string, state: EntryState, reason: Option<Reason>)

  datatype Snapshot = Snapshot(
    formatVersion: nat,
    process: ProcessState,
    activeGeneration: nat,
    routerGeneration: nat,
    defaultId: string,
    behaviors: seq<Entry>)

  datatype Source = Source(id: string, dispatcherPresent: bool, unavailable: Option<Reason>, startupDemoted: bool)

  datatype Admission = Admitted | Vetoed(reason: Reason) | Unassigned

  predicate Canonical(value: string)
  {
    value != "" && value == Text.Trim(value)
  }

  function Admit(dispatcherPresent: bool, unavailable: Option<Reason>, startupDemoted: bool): Admission
  {
    if startupDemoted then Vetoed(ExecutorStartFailed)
    else if unavailable.Some? then Vetoed(unavailable.value)
    else if dispatcherPresent then Admitted
    else Unassigned
  }

  function EntryOf(source: Source): Option<Entry>
  {
    match Admit(source.dispatcherPresent, source.unavailable, source.startupDemoted)
    case Admitted => Some(Entry(source.id, EntryReady, None))
    case Vetoed(reason) => Some(Entry(source.id, EntryUnavailable, Some(reason)))
    case Unassigned => None
  }

  // ----- the publisher

  /** An ordered map, as the list of its bindings in key order. */
  type Ordered = seq<(string, Option<Entry>)>

  /** The map with `key` bound; none when it was bound already. */
  function Bind(m: Ordered, key: string, value: Option<Entry>): Option<Ordered>
  {
    if m == [] || Text.Less(key, m[0].0) then Some([(key, value)] + m)
    else if m[0].0 == key then None
    else
      match Bind(m[1..], key, value)
      case None => None
      case Some(rest) => Some([m[0]] + rest)
  }

  function Entries(m: Ordered): seq<Entry>
  {
    if m == [] then []
    else (if m[0].1.Some? then [m[0].1.value] else []) + Entries(m[1..])
  }

  function BindAll(sources: seq<Source>): Option<Ordered>
  {
    if sources == [] then Some([])
    else
      match BindAll(sources[..|sources| - 1])
      case None => None
      case Some(m) =>
        var last := sources[|sources| - 1];
        if !Canonical(last.id) then None else Bind(m, last.id, EntryOf(last))
  }

  predicate Lists(entries: seq<Entry>, id: string)
  {
    exists i :: 0 <= i < |entries| && entries[i].id == id
  }

  function ProjectSource(process: ProcessState, active: nat, router: nat, defaultId: string, sources: seq<Source>)
    : Option<Snapshot>
  {
    if !Canonical(defaultId) then None
    else
      match BindAll(sources)
      case None => None
      case Some(m) =>
        if !Lists(Entries(m), defaultId) then None
        else Some(Snapshot(FORMAT_VERSION, process, active, router, defaultId, Entries(m)))
  }

  method PublishSource(process: ProcessState, active: nat, router: nat, defaultId: string, sources: seq<Source>)
    returns (r: Option<Snapshot>)
    ensures r == ProjectSource(process, active, router, defaultId, sources)
  {
    if !Canonical(defaultId) {
      return None;
    }
    var behaviors: Ordered := [];
    for i := 0 to |sources|
      invariant BindAll(sources[..i]) == Some(behaviors)
    {
      assert sources[..i + 1][..i] == sources[..i];
      var inserted := if Canonical(sources[i].id) then Bind(behaviors, sources[i].id, EntryOf(sources[i])) else None;
      if inserted.None? {
        RefusalStays(sources, i + 1);
        return None;
      }
      behaviors := inserted.value;
    }
    assert sources[..|sources|] == sources;
    var entries := Entries(behaviors);
    if !Lists(entries, defaultId) {
      return None;
    }
    return Some(Snapshot(FORMAT_VERSION, process, active, router, defaultId, entries));
  }

  lemma {:induction false} RefusalStays(sources: seq<Source>, n: nat)
    requires n <= |sources| && BindAll(sources[..n]).None?
    ensures BindAll(sources).None?
  {
    if n == |sources| {
      assert sources[..n] == sources;
    } else {
      assert sources[..|sources| - 1][..n] == sources[..n];
      RefusalStays(sources[..|sources| - 1], n);
    }
  }

  // ----- the wire row and its decoder

  datatype Row = Row(agentDid: string, snapshotJson: string, updatedAt: string)

  /** The foreign parts: JSON decoding, and timestamps in nanoseconds. */
  datatype Host = Host(parse: string -> Option<Snapshot>, time: string -> Option<int>)

  datatype UnknownReason =
    | ReadinessMissing
    | ReadinessMalformed
    | ReadinessVersionUnsupported
    | ReadinessStale
    | ProcessNotReady
    | RouterGenerationStale
    | BehaviorNotAssigned

  predicate CanonicalEntry(e: Entry)
  {
    Canonical(e.id) && (e.state.EntryReady? <==> e.reason.None?)
  }

  predicate Increasing(entries: seq<Entry>)
  {
    forall i | 0 <= i < |entries| - 1 :: Text.Less(entries[i].id, entries[i + 1].id)
  }

  function Decode(h: Host, row: Row, agentDid: string): Result<Snapshot, UnknownReason>
  {
    if !Canonical(agentDid) || row.agentDid != agentDid then Err(ReadinessMalformed)
    else
      match h.parse(row.snapshotJson)
      case None => Err(ReadinessMalformed)
      case Some(s) =>
        if s.formatVersion != FORMAT_VERSION then Err(ReadinessVersionUnsupported)
        else if !(forall i | 0 <= i < |s.behaviors| :: CanonicalEntry(s.behaviors[i])) || !Increasing(s.behaviors)
                || !Canonical(s.defaultId) then Err(ReadinessMalformed)
        else if !Lists(s.behaviors, s.defaultId) then Err(BehaviorNotAssigned)
        else Ok(s)
  }

  /** Not in the future, and at most 45 whole seconds old. */
  predicate Fresh(h: Host, row: Row, now: int)
  {
    var at := h.time(row.updatedAt);
    at.Some? && at.value <= now && (now - at.value) / NANOS_PER_SECOND <= MAX_AGE_SECONDS
  }

  function GlobalUnknown(s: Snapshot): Option<UnknownReason>
  {
    if !s.process.ProcessReady? then Some(ProcessNotReady)
    else if s.activeGeneration == 0 || s.routerGeneration != s.activeGeneration then Some(RouterGenerationStale)
    else None
  }

  // ----- the summary

  datatype Summary = Observed(snapshot: Snapshot, readyCount: nat, unavailable: map<string, Reason>) | Unknown(why: UnknownReason)

  function ReadyCount(entries: seq<Entry>): nat
  {
    if entries == [] then 0
    else ReadyCount(entries[..|entries| - 1]) + if entries[|entries| - 1].state.EntryReady? then 1 else 0
  }

  function UnavailableOf(entries: seq<Entry>): map<string, Reason>
  {
    if entries == [] then map[]
    else
      var rest := UnavailableOf(entries[..|entries| - 1]);
      var e := entries[|entries| - 1];
      if e.state.EntryUnavailable? && e.reason.Some? then rest[e.id := e.reason.value] else rest
  }

  function Summarize(h: Host, row: Option<Row>, agentDid: string, now: int): Summary
  {
    if row.None? then Unknown(ReadinessMissing)
    else
      match Decode(h, row.value, agentDid)
      case Err(why) => Unknown(why)
      case Ok(s) =>
        if !Fresh(h, row.value, now) then Unknown(ReadinessStale)
        else if GlobalUnknown(s).Some? then Unknown(GlobalUnknown(s).value)
        else Observed(s, ReadyCount(s.behaviors), UnavailableOf(s.behaviors))
  }

  method ProjectSummary(h: Host, row: Option<Row>, agentDid: string, now: int) returns (r: Summary)
    ensures r == Summarize(h, row, agentDid, now)
  {
    if row.None? {
      return Unknown(ReadinessMissing);
    }
    var decoded := Decode(h, row.value, agentDid);
    if decoded.Err? {
      return Unknown(decoded.error);
    }
    var s := decoded.value;
    if !Fresh(h, row.value, now) {
      return Unknown(ReadinessStale);
    }
    if !s.process.ProcessReady? {
      return Unknown(ProcessNotReady);
    }
    if s.activeGeneration == 0 || s.routerGeneration != s.activeGeneration {
      return Unknown(RouterGenerationStale);
    }
    var ready, unavailable := CountEntries(s.behaviors);
    return Observed(s, ready, unavailable);
  }

  method CountEntries(behaviors: seq<Entry>) returns (ready: nat, unavailable: map<string, Reason>)
    requires forall i | 0 <= i < |behaviors| :: CanonicalEntry(behaviors[i])
    ensures ready == ReadyCount(behaviors) && unavailable == UnavailableOf(behaviors)
  {
    ready, unavailable := 0, map[];
    for i := 0 to |behaviors|
      invariant ready == ReadyCount(behaviors[..i]) && unavailable == UnavailableOf(behaviors[..i])
    {
      assert behaviors[..i + 1][..i] == behaviors[..i];
      assert CanonicalEntry(behaviors[i]);
      match behaviors[i].state
      case EntryReady => ready := ready + 1;
      case EntryUnavailable => unavailable := unavailable[behaviors[i].id := behaviors[i].reason.value];
    }
    assert behaviors[..|behaviors|] == behaviors;
  }

  // ----- the per-behavior projection

  datatype Readiness = Ready | Unavailable(reason: Reason) | NotKnown(why: UnknownReason)

  datatype Projection = Projection(
    snapshot: Option<Snapshot>,
    updatedAt: Option<string>,
    unknown: Option<UnknownReason>,
    behaviors: map<string, Readiness>)

  function UnknownProjection(ids: set<string>, why: UnknownReason): Projection
  {
    Projection(None, None, Some(why), map id | id in ids :: NotKnown(why))
  }

  /** The entry of an id, if any. */
  function Lookup(entries: seq<Entry>, id: string): (r: Option<Entry>)
    ensures r.Some? <==> Lists(entries, id)
    ensures r.Some? ==> r.value in entries && r.value.id == id
  {
    if entries == [] then None
    else if entries[|entries| - 1].id == id then Some(entries[|entries| - 1])
    else
      var r := Lookup(entries[..|entries| - 1], id);
      assert r.None? ==> forall i | 0 <= i < |entries| - 1 :: entries[i] == entries[..|entries| - 1][i];
      r
  }

  function ReadinessOf(s: Snapshot, id: string): Readiness
  {
    if GlobalUnknown(s).Some? then NotKnown(GlobalUnknown(s).value)
    else
      match Lookup(s.behaviors, id)
      case None => NotKnown(BehaviorNotAssigned)
      case Some(e) => if e.reason.Some? then Unavailable(e.reason.value) else Ready
  }

  function AllIds(configured: seq<string>, configuredDefault: Option<string>): set<string>
  {
    (set i | 0 <= i < |configured| && Canonical(configured[i]) :: configured[i])
    + (if configuredDefault.Some? && Canonical(configuredDefault.value) then {configuredDefault.value} else {})
  }

  predicate CanonicalConfig(configured: seq<string>, configuredDefault: Option<string>)
  {
    && (forall i | 0 <= i < |configured| :: Canonical(configured[i]))
    && (configuredDefault.Some? ==> Canonical(configuredDefault.value))
  }

  function EntryIds(entries: seq<Entry>): set<string>
  {
    set i | 0 <= i < |entries| :: entries[i].id
  }

  function Project(h: Host, row: Option<Row>, agentDid: string, configured: seq<string>,
                   configuredDefault: Option<string>, now: int): Projection
  {
    var ids := AllIds(configured, configuredDefault);
    if !CanonicalConfig(configured, configuredDefault) then UnknownProjection(ids, ReadinessMalformed)
    else if row.None? then UnknownProjection(ids, ReadinessMissing)
    else
      match Decode(h, row.value, agentDid)
      case Err(why) => UnknownProjection(ids, why)
      case Ok(s) =>
        if !Fresh(h, row.value, now) then UnknownProjection(ids, ReadinessStale)
        else
          Projection(Some(s), Some(row.value.updatedAt), GlobalUnknown(s),
                     map id | id in ids + EntryIds(s.behaviors) :: ReadinessOf(s, id))
  }

  method ProjectReadiness(h: Host, row: Option<Row>, agentDid: string, configured: seq<string>,
                          configuredDefault: Option<string>, now: int) returns (r: Projection)
    ensures r == Project(h, row, agentDid, configured, configuredDefault, now)
  {
    var ids: set<string> := {};
    var malformed := false;
    for i := 0 to |configured|
      invariant ids == set k | 0 <= k < i && Canonical(configured[k]) :: configured[k]
      invariant malformed <==> exists k :: 0 <= k < i && !Canonical(configured[k])
    {
      if Canonical(configured[i]) {
        ids := ids + {configured[i]};
      } else {
        malformed := true;
      }
    }
    if configuredDefault.Some? {
      if Canonical(configuredDefault.value) {
        ids := ids + {configuredDefault.value};
      } else {
        malformed := true;
      }
    }
    assert ids == AllIds(configured, configuredDefault);
    if malformed {
      return UnknownProjection(ids, ReadinessMalformed);
    }
    if row.None? {
      return UnknownProjection(ids, ReadinessMissing);
    }
    var decoded := Decode(h, row.value, agentDid);
    if decoded.Err? {
      return UnknownProjection(ids, decoded.error);
    }
    if !Fresh(h, row.value, now) {
      return UnknownProjection(ids, ReadinessStale);
    }
    var s := decoded.value;
    return Projection(Some(s), Some(row.value.updatedAt), GlobalUnknown(s),
                      map id | id in ids + EntryIds(s.behaviors) :: ReadinessOf(s, id));
  }

  // ----- published snapshots are accepted

  ghost predicate Sorted(m: Ordered)
  {
    forall i, j | 0 <= i < j < |m| :: Text.Less(m[i].0, m[j].0)
  }

  /** Binding keeps the map ordered and adds exactly one binding. */
  lemma {:induction false} BindKeepsOrder(m: Ordered, key: string, value: Option<Entry>)
    requires Sorted(m) && Bind(m, key, value).Some?
    ensures Sorted(Bind(m, key, value).value)
    ensures forall b :: b in Bind(m, key, value).value <==> b in m || b == (key, value)
    ensures forall b | b in m :: b.0 != key
  {
    var r := Bind(m, key, value).value;
    if m == [] {
    } else if Text.Less(key, m[0].0) {
      forall j | 0 <= j < |m| ensures Text.Less(key, m[j].0) && m[j].0 != key {
        if j > 0 {
          Text.LessTransitive(key, m[0].0, m[j].0);
        }
        Text.LessIrreflexive(key);
      }
    } else {
      BindKeepsOrder(m[1..], key, value);
      Text.LessTotal(key, m[0].0);
      var rest := Bind(m[1..], key, value).value;
      assert m == [m[0]] + m[1..];
      forall j | 0 <= j < |rest| ensures Text.Less(m[0].0, rest[j].0) {
        assert rest[j] in rest;
        if rest[j] in m[1..] {
          var k :| 0 <= k < |m[1..]| && m[1..][k] == rest[j];
          assert m[k + 1] == rest[j];
        }
      }
    }
  }

  lemma {:induction false} BindAllSorted(sources: seq<Source>)
    requires BindAll(sources).Some?
    ensures Sorted(BindAll(sources).value)
  {
    if sources != [] {
      hide Sorted, Bind, EntryOf, Canonical;
      var front, last := sources[..|sources| - 1], sources[|sources| - 1];
      BindAllSorted(front);
      BindKeepsOrder(BindAll(front).value, last.id, EntryOf(last));
    } else {
      assert BindAll(sources).value == [];
    }
  }

  /** What the map of the sources holds, one source at a time. */
  lemma {:induction false} BindAllHolds(sources: seq<Source>, b: (string, Option<Entry>))
    requires sources != [] && BindAll(sources).Some?
    ensures var front, last := sources[..|sources| - 1], sources[|sources| - 1];
            BindAll(front).Some? && Canonical(last.id)
            && (b in BindAll(sources).value <==> b in BindAll(front).value || b == (last.id, EntryOf(last)))
  {
    var front, last := sources[..|sources| - 1], sources[|sources| - 1];
    BindAllSorted(front);
    BindKeepsOrder(BindAll(front).value, last.id, EntryOf(last));
  }

  lemma {:induction false} BoundIsSource(sources: seq<Source>, b: (string, Option<Entry>)) returns (i: nat)
    requires BindAll(sources).Some? && b in BindAll(sources).value
    ensures i < |sources| && b == (sources[i].id, EntryOf(sources[i]))
  {
    hide Bind, EntryOf, Canonical;
    var n := |sources| - 1;
    BindAllHolds(sources, b);
    if b in BindAll(sources[..n]).value {
      i := BoundIsSource(sources[..n], b);
    } else {
      i := n;
    }
  }

  lemma {:induction false} SourceIsBound(sources: seq<Source>, i: nat)
    requires BindAll(sources).Some? && i < |sources|
    ensures Canonical(sources[i].id) && (sources[i].id, EntryOf(sources[i])) in BindAll(sources).value
  {
    hide BindAll, EntryOf, Canonical;
    var n := |sources| - 1;
    BindAllHolds(sources, (sources[i].id, EntryOf(sources[i])));
    if i < n {
      SourceIsBound(sources[..n], i);
      assert sources[..n][i] == sources[i];
    }
  }

  /** The ordered map of the sources binds each source's id to its entry, once. */
  lemma {:induction false} BindAllBinds(sources: seq<Source>)
    requires BindAll(sources).Some?
    ensures Sorted(BindAll(sources).value)
    ensures forall b | b in BindAll(sources).value :: exists i :: 0 <= i < |sources| && b == (sources[i].id, EntryOf(sources[i]))
    ensures forall i | 0 <= i < |sources| :: Canonical(sources[i].id) && (sources[i].id, EntryOf(sources[i])) in BindAll(sources).value
  {
    hide BindAll, EntryOf, Canonical, Sorted;
    BindAllSorted(sources);
    forall b | b in BindAll(sources).value ensures exists i :: 0 <= i < |sources| && b == (sources[i].id, EntryOf(sources[i])) {
      var i := BoundIsSource(sources, b);
    }
    forall i | 0 <= i < |sources| ensures Canonical(sources[i].id) && (sources[i].id, EntryOf(sources[i])) in BindAll(sources).value {
      SourceIsBound(sources, i);
    }
  }

  lemma {:induction false} EntriesMembers(m: Ordered, e: Entry)
    ensures e in Entries(m) <==> exists i :: 0 <= i < |m| && m[i].1 == Some(e)
  {
    if m != [] {
      EntriesMembers(m[1..], e);
      assert forall i | 0 < i < |m| :: m[i] == m[1..][i - 1];
      assert forall i | 0 <= i < |m[1..]| :: m[1..][i] == m[i + 1];
    }
  }

  /** Every entry is bound under its own id. */
  ghost predicate Keyed(m: Ordered)
  {
    forall i | 0 <= i < |m| :: m[i].1.Some? ==> m[i].1.value.id == m[i].0
  }

  lemma {:induction false} EntriesIncrease(m: Ordered)
    requires Sorted(m) && Keyed(m)
    ensures Increasing(Entries(m))
  {
    if m != [] {
      EntriesIncrease(m[1..]);
      var rest := Entries(m[1..]);
      if m[0].1.Some? && rest != [] {
        EntriesMembers(m[1..], rest[0]);
        var i :| 0 <= i < |m[1..]| && m[1..][i].1 == Some(rest[0]);
        assert m[i + 1] == m[1..][i];
        assert Entries(m) == [m[0].1.value] + rest;
        forall k | 0 <= k < |Entries(m)| - 1 ensures Text.Less(Entries(m)[k].id, Entries(m)[k + 1].id) {
          if k > 0 {
            assert Entries(m)[k] == rest[k - 1] && Entries(m)[k + 1] == rest[k];
          }
        }
      }
    }
  }

  /** The published entries are exactly the entries of the sources. */
  lemma {:induction false} PublishedEntries(sources: seq<Source>, e: Entry)
    requires BindAll(sources).Some?
    ensures e in Entries(BindAll(sources).value) <==> exists i :: 0 <= i < |sources| && EntryOf(sources[i]) == Some(e)
  {
    var m := BindAll(sources).value;
    BindAllBinds(sources);
    EntriesMembers(m, e);
    if e in Entries(m) {
      var i :| 0 <= i < |m| && m[i].1 == Some(e);
      assert m[i] in m;
    }
    if i :| 0 <= i < |sources| && EntryOf(sources[i]) == Some(e) {
      var b := (sources[i].id, EntryOf(sources[i]));
      assert b in m;
      var k :| 0 <= k < |m| && m[k] == b;
    }
  }

  /** Every published snapshot is accepted by the decoder of its own agent. */
  lemma {:induction false} PublishedIsAccepted(h: Host, process: ProcessState, active: nat, router: nat, defaultId: string,
                            sources: seq<Source>, row: Row)
    requires ProjectSource(process, active, router, defaultId, sources).Some?
    requires h.parse(row.snapshotJson) == ProjectSource(process, active, router, defaultId, sources)
    requires Canonical(row.agentDid)
    ensures Decode(h, row, row.agentDid) == Ok(ProjectSource(process, active, router, defaultId, sources).value)
  {
    PublishedIsCanonical(sources);
  }

  lemma {:induction false} PublishedIsCanonical(sources: seq<Source>)
    requires BindAll(sources).Some?
    ensures Increasing(Entries(BindAll(sources).value))
    ensures forall i | 0 <= i < |Entries(BindAll(sources).value)| :: CanonicalEntry(Entries(BindAll(sources).value)[i])
  {
    hide Canonical;
    var m := BindAll(sources).value;
    BindAllBinds(sources);
    forall i | 0 <= i < |m| ensures m[i].1.Some? ==> m[i].1.value.id == m[i].0 {
      assert m[i] in m;
    }
    EntriesIncrease(m);
    forall i | 0 <= i < |Entries(m)| ensures CanonicalEntry(Entries(m)[i]) {
      PublishedEntries(sources, Entries(m)[i]);
    }
  }

  // ----- the client sees what the source decided

  lemma {:induction false} IncreasingIsDistinct(entries: seq<Entry>, i: nat, j: nat)
    requires Increasing(entries) && i < j < |entries|
    ensures Text.Less(entries[i].id, entries[j].id) && entries[i].id != entries[j].id
    decreases j - i
  {
    if i + 1 < j {
      IncreasingIsDistinct(entries, i, j - 1);
      Text.LessTransitive(entries[i].id, entries[j - 1].id, entries[j].id);
    }
    Text.LessIrreflexive(entries[i].id);
  }

  /** The source has a dispatcher for the behavior and nothing against it. */
  predicate Offered(source: Source, id: string)
  {
    source.id == id && source.dispatcherPresent && source.unavailable.None? && !source.startupDemoted
  }

  /** Readiness end to end.  With canonical configured ids, a client sees Ready
      for a behavior exactly when the source had a dispatcher for it and no veto,
      the row is for that agent, not from the future and under 46 seconds old, the process is ready, and the router
      runs the active generation, which is not zero. */
  lemma {:induction false} ReadyEndToEnd(h: Host, process: ProcessState, active: nat, router: nat, defaultId: string,
                      sources: seq<Source>, row: Row, agentDid: string, configured: seq<string>,
                      configuredDefault: Option<string>, now: int, id: string)
    requires ProjectSource(process, active, router, defaultId, sources).Some?
    requires h.parse(row.snapshotJson) == ProjectSource(process, active, router, defaultId, sources)
    requires CanonicalConfig(configured, configuredDefault)
    ensures var p := Project(h, Some(row), agentDid, configured, configuredDefault, now);
            (id in p.behaviors && p.behaviors[id] == Ready) <==>
              && (exists i :: 0 <= i < |sources| && Offered(sources[i], id))
              && Canonical(agentDid) && row.agentDid == agentDid
              && h.time(row.updatedAt).Some? && 0 <= now - h.time(row.updatedAt).value < 46 * NANOS_PER_SECOND
              && process.ProcessReady? && router == active > 0
  {
    var s := ProjectSource(process, active, router, defaultId, sources).value;
    if Canonical(agentDid) && row.agentDid == agentDid {
      PublishedIsAccepted(h, process, active, router, defaultId, sources, row);
      if Fresh(h, row, now) && GlobalUnknown(s).None? {
        ReadyMeansSource(s, sources, id);
        assert id in EntryIds(s.behaviors) <==> Lists(s.behaviors, id);
      }
    }
  }

  lemma {:induction false} ReadyHasSource(s: Snapshot, sources: seq<Source>, id: string) returns (i: nat)
    requires BindAll(sources).Some? && s.behaviors == Entries(BindAll(sources).value) && ReadinessOf(s, id) == Ready
    ensures i < |sources| && Offered(sources[i], id) && Lists(s.behaviors, id)
  {
    var found := Lookup(s.behaviors, id).value;
    PublishedEntries(sources, found);
    i :| 0 <= i < |sources| && EntryOf(sources[i]) == Some(found);
  }

  lemma {:induction false} SourceIsReady(s: Snapshot, sources: seq<Source>, id: string, i: nat)
    requires BindAll(sources).Some? && s.behaviors == Entries(BindAll(sources).value) && GlobalUnknown(s).None?
    requires i < |sources| && Offered(sources[i], id)
    ensures ReadinessOf(s, id) == Ready
  {
    var e := Entry(id, EntryReady, None);
    assert EntryOf(sources[i]) == Some(e);
    PublishedEntries(sources, e);
    var k :| 0 <= k < |s.behaviors| && s.behaviors[k] == e;
    assert Lists(s.behaviors, id);
    var found := Lookup(s.behaviors, id).value;
    PublishedEntries(sources, found);
    var j :| 0 <= j < |sources| && EntryOf(sources[j]) == Some(found);
    SourcesAreDistinct(sources, i, j);
  }

  lemma {:induction false} ReadyMeansSource(s: Snapshot, sources: seq<Source>, id: string)
    requires BindAll(sources).Some? && s.behaviors == Entries(BindAll(sources).value) && GlobalUnknown(s).None?
    ensures ReadinessOf(s, id) == Ready <==> exists i :: 0 <= i < |sources| && Offered(sources[i], id)
    ensures ReadinessOf(s, id) == Ready ==> Lists(s.behaviors, id)
  {
    if ReadinessOf(s, id) == Ready {
      var i := ReadyHasSource(s, sources, id);
    }
    if i :| 0 <= i < |sources| && Offered(sources[i], id) {
      SourceIsReady(s, sources, id, i);
    }
  }

  lemma {:induction false} LastSourceIsNew(sources: seq<Source>, k: nat)
    requires BindAll(sources).Some? && k < |sources| - 1
    ensures sources[k].id != sources[|sources| - 1].id
  {
    var n := |sources| - 1;
    var front := BindAll(sources[..n]).value;
    BindAllBinds(sources[..n]);
    assert sources[..n][k] == sources[k];
    hide EntryOf, Canonical;
    assert (sources[k].id, EntryOf(sources[k])) in front;
    BindKeepsOrder(front, sources[n].id, EntryOf(sources[n]));
  }

  /** A source list that binds names each id once. */
  lemma {:induction false} SourcesAreDistinct(sources: seq<Source>, i: nat, j: nat)
    requires BindAll(sources).Some? && i < |sources| && j < |sources| && sources[i].id == sources[j].id
    ensures i == j
  {
    hide Bind, Canonical;
    var n := |sources| - 1;
    if i < n && j < n {
      SourcesAreDistinct(sources[..n], i, j);
    } else if i != j {
      LastSourceIsNew(sources, if i < j then i else j);
    }
  }

  // ----- every other thing a client may see

  /** The source has something against the behavior: a demotion at startup, or else its own reason. */
  predicate Withheld(source: Source, id: string, why: Reason)
  {
    source.id == id && if source.startupDemoted then why == ExecutorStartFailed else source.unavailable == Some(why)
  }

  lemma {:induction false} SourceIsWithheld(s: Snapshot, sources: seq<Source>, id: string, i: nat, why: Reason)
    requires BindAll(sources).Some? && s.behaviors == Entries(BindAll(sources).value) && GlobalUnknown(s).None?
    requires i < |sources| && Withheld(sources[i], id, why)
    ensures ReadinessOf(s, id) == Unavailable(why) && Lists(s.behaviors, id)
  {
    var e := Entry(id, EntryUnavailable, Some(why));
    assert EntryOf(sources[i]) == Some(e);
    PublishedEntries(sources, e);
    var k :| 0 <= k < |s.behaviors| && s.behaviors[k] == e;
    assert Lists(s.behaviors, id);
    var found := Lookup(s.behaviors, id).value;
    PublishedEntries(sources, found);
    var j :| 0 <= j < |sources| && EntryOf(sources[j]) == Some(found);
    SourcesAreDistinct(sources, i, j);
  }

  lemma {:induction false} WithheldHasSource(s: Snapshot, sources: seq<Source>, id: string, why: Reason) returns (i: nat)
    requires BindAll(sources).Some? && s.behaviors == Entries(BindAll(sources).value) && ReadinessOf(s, id) == Unavailable(why)
    ensures i < |sources| && Withheld(sources[i], id, why)
  {
    var found := Lookup(s.behaviors, id).value;
    PublishedEntries(sources, found);
    i :| 0 <= i < |sources| && EntryOf(sources[i]) == Some(found);
  }

  /** What a client sees of a published row, in every case and for every behavior it
      asks for or the row lists: why nothing is known, or each behavior as the
      source had it. */
  lemma {:induction false} SeenEndToEnd(h: Host, process: ProcessState, active: nat, router: nat, defaultId: string,
                                        sources: seq<Source>, row: Row, agentDid: string, configured: seq<string>,
                                        configuredDefault: Option<string>, now: int, id: string, why: Reason)
    requires ProjectSource(process, active, router, defaultId, sources).Some?
    requires h.parse(row.snapshotJson) == ProjectSource(process, active, router, defaultId, sources)
    requires CanonicalConfig(configured, configuredDefault)
    ensures var p := Project(h, Some(row), agentDid, configured, configuredDefault, now);
            var at := h.time(row.updatedAt);
            if !Canonical(agentDid) || row.agentDid != agentDid then p.unknown == Some(ReadinessMalformed)
            else if at.None? || now < at.value || now - at.value >= 46 * NANOS_PER_SECOND then p.unknown == Some(ReadinessStale)
            else if !process.ProcessReady? then p.unknown == Some(ProcessNotReady)
            else if active == 0 || router != active then p.unknown == Some(RouterGenerationStale)
            else
              && p.unknown == None && p.updatedAt == Some(row.updatedAt)
              && p.snapshot == ProjectSource(process, active, router, defaultId, sources)
              && (id in p.behaviors && p.behaviors[id] == Unavailable(why) <==>
                  exists i :: 0 <= i < |sources| && Withheld(sources[i], id, why))
              && (id in p.behaviors && p.behaviors[id].NotKnown? ==> p.behaviors[id] == NotKnown(BehaviorNotAssigned))
    ensures var p := Project(h, Some(row), agentDid, configured, configuredDefault, now);
            p.unknown.Some? && id in p.behaviors ==> p.behaviors[id] == NotKnown(p.unknown.value)
  {
    var s := ProjectSource(process, active, router, defaultId, sources).value;
    if Canonical(agentDid) && row.agentDid == agentDid {
      PublishedIsAccepted(h, process, active, router, defaultId, sources, row);
      if Fresh(h, row, now) && GlobalUnknown(s).None? {
        assert id in EntryIds(s.behaviors) <==> Lists(s.behaviors, id);
        if i :| 0 <= i < |sources| && Withheld(sources[i], id, why) {
          SourceIsWithheld(s, sources, id, i, why);
        }
        if ReadinessOf(s, id) == Unavailable(why) {
          var i := WithheldHasSource(s, sources, id, why);
        }
      }
    }
  }

  /** Without a row, or with a malformed configuration, nothing is known either. */
  lemma {:induction false} UnseenWithoutRow(h: Host, row: Option<Row>, agentDid: string, configured: seq<string>,
                                            configuredDefault: Option<string>, now: int)
    requires row.None? || !CanonicalConfig(configured, configuredDefault)
    ensures var p := Project(h, row, agentDid, configured, configuredDefault, now);
            p.unknown == Some(if !CanonicalConfig(configured, configuredDefault) then ReadinessMalformed else ReadinessMissing)
            && forall id | id in p.behaviors :: p.behaviors[id] == NotKnown(p.unknown.value)
  {
  }

  /** Exactly which snapshots the decoder accepts, whoever wrote them. */
  lemma {:induction false} DecodesExactly(h: Host, row: Row, agentDid: string, s: Snapshot)
    ensures Decode(h, row, agentDid) == Ok(s) <==>
            && agentDid != "" && Text.Trim(agentDid) == agentDid && row.agentDid == agentDid
            && h.parse(row.snapshotJson) == Some(s) && s.formatVersion == 1
            && s.defaultId != "" && Text.Trim(s.defaultId) == s.defaultId && Lists(s.behaviors, s.defaultId)
            && (forall i | 0 <= i < |s.behaviors| ::
                  var e := s.behaviors[i];
                  && e.id != "" && Text.Trim(e.id) == e.id
                  && (e.state == EntryReady ==> e.reason == None) && (e.state == EntryUnavailable ==> e.reason.Some?))
            && (forall i | 0 <= i < |s.behaviors| - 1 :: Text.Less(s.behaviors[i].id, s.behaviors[i + 1].id))
  {
  }

  /** And why it refuses the others. */
  lemma {:induction false} DecodeReasons(h: Host, row: Row, agentDid: string)
    ensures var r, parsed := Decode(h, row, agentDid), h.parse(row.snapshotJson);
            if !Canonical(agentDid) || row.agentDid != agentDid || parsed.None? then r == Err(ReadinessMalformed)
            else if parsed.value.formatVersion != 1 then r == Err(ReadinessVersionUnsupported)
            else r.Err? ==> r.error == ReadinessMalformed || (r.error == BehaviorNotAssigned && !Lists(parsed.value.behaviors, parsed.value.defaultId))
  {
  }

  // ----- when a source is published

  lemma {:induction false} BindFails(m: Ordered, key: string, value: Option<Entry>)
    requires Sorted(m)
    ensures Bind(m, key, value).None? <==> exists i :: 0 <= i < |m| && m[i].0 == key
  {
    if m != [] {
      Text.LessTotal(key, m[0].0);
      if Text.Less(key, m[0].0) {
        forall i | 0 <= i < |m| ensures m[i].0 != key {
          if i > 0 {
            Text.LessTransitive(key, m[0].0, m[i].0);
          }
          Text.LessIrreflexive(key);
        }
      } else if m[0].0 != key {
        BindFails(m[1..], key, value);
        if i :| 0 <= i < |m| && m[i].0 == key {
          assert m[1..][i - 1].0 == key;
        }
        if i :| 0 <= i < |m| - 1 && m[1..][i].0 == key {
          assert m[i + 1].0 == key;
        }
      }
    }
  }

  ghost predicate NamedOnce(sources: seq<Source>)
  {
    && (forall i | 0 <= i < |sources| :: Canonical(sources[i].id))
    && (forall i, j | 0 <= i < j < |sources| :: sources[i].id != sources[j].id)
  }

  lemma {:induction false} BindsExactly(sources: seq<Source>)
    ensures BindAll(sources).Some? <==> NamedOnce(sources)
  {
    hide Canonical, Bind, EntryOf;
    if BindAll(sources).Some? {
      BindAllBinds(sources);
      forall i, j | 0 <= i < j < |sources| ensures sources[i].id != sources[j].id {
        if sources[i].id == sources[j].id {
          SourcesAreDistinct(sources, i, j);
        }
      }
    }
    if NamedOnce(sources) && sources != [] {
      var n := |sources| - 1;
      var front, last := sources[..n], sources[n];
      BindsExactly(front);
      var m := BindAll(front).value;
      BindAllSorted(front);
      BindFails(m, last.id, EntryOf(last));
      if i :| 0 <= i < |m| && m[i].0 == last.id {
        var k := BoundIsSource(front, m[i]);
      }
    }
  }

  /** The source decides about the behavior, for or against it. */
  predicate Assigns(source: Source, id: string)
  {
    source.id == id && (source.startupDemoted || source.unavailable.Some? || source.dispatcherPresent)
  }

  lemma {:induction false} AssignedIsListed(sources: seq<Source>, id: string)
    requires BindAll(sources).Some?
    ensures Lists(Entries(BindAll(sources).value), id) <==> exists i :: 0 <= i < |sources| && Assigns(sources[i], id)
  {
    hide BindAll, Entries;
    var entries := Entries(BindAll(sources).value);
    if i :| 0 <= i < |sources| && Assigns(sources[i], id) {
      var e := EntryOf(sources[i]).value;
      PublishedEntries(sources, e);
      var k :| 0 <= k < |entries| && entries[k] == e;
    }
    if k :| 0 <= k < |entries| && entries[k].id == id {
      PublishedEntries(sources, entries[k]);
      var i :| 0 <= i < |sources| && EntryOf(sources[i]) == Some(entries[k]);
      assert Assigns(sources[i], id);
    }
  }

  /** A source is published exactly when its ids are canonical and named once, and the
      default is among them and assigned. */
  lemma {:induction false} PublishesExactly(process: ProcessState, active: nat, router: nat, defaultId: string, sources: seq<Source>)
    ensures ProjectSource(process, active, router, defaultId, sources).Some? <==>
            NamedOnce(sources) && exists i :: 0 <= i < |sources| && Assigns(sources[i], defaultId)
    ensures var r := ProjectSource(process, active, router, defaultId, sources);
            r.Some? ==> && r.value.process == process && r.value.activeGeneration == active
                        && r.value.routerGeneration == router && r.value.defaultId == defaultId
  {
    BindsExactly(sources);
    hide BindAll, Entries, Lists;
    if BindAll(sources).Some? {
      AssignedIsListed(sources, defaultId);
    }
  }

  // ----- the two consumers agree

  lemma {:induction false} UnavailableMeansEntry(entries: seq<Entry>, id: string)
    requires Increasing(entries) && forall i | 0 <= i < |entries| :: CanonicalEntry(entries[i])
    ensures id in UnavailableOf(entries) <==> Lookup(entries, id).Some? && Lookup(entries, id).value.reason.Some?
    ensures id in UnavailableOf(entries) ==> Lookup(entries, id).value.reason == Some(UnavailableOf(entries)[id])
  {
    if entries != [] {
      var n := |entries| - 1;
      UnavailableMeansEntry(entries[..n], id);
      var found := Lookup(entries[..n], id);
      if found.Some? {
        var k :| 0 <= k < n && entries[..n][k] == found.value;
        IncreasingIsDistinct(entries, k, n);
      }
    }
  }

  ghost function ReadyIds(entries: seq<Entry>): set<string>
  {
    set i | 0 <= i < |entries| && entries[i].state.EntryReady? :: entries[i].id
  }

  lemma {:induction false} ReadyIdsSnoc(front: seq<Entry>, last: Entry)
    ensures ReadyIds(front + [last]) == ReadyIds(front) + (if last.state.EntryReady? then {last.id} else {})
  {
    var all := front + [last];
    assert all[|front|] == last;
    forall id | id in ReadyIds(front) ensures id in ReadyIds(all) {
      var i :| 0 <= i < |front| && front[i].state.EntryReady? && front[i].id == id;
      assert all[i] == front[i];
    }
  }

  lemma {:induction false} ReadyCountIsCardinality(entries: seq<Entry>)
    requires Increasing(entries)
    ensures |ReadyIds(entries)| == ReadyCount(entries)
  {
    if entries != [] {
      var n := |entries| - 1;
      var front, last := entries[..n], entries[n];
      ReadyCountIsCardinality(front);
      assert entries == front + [last];
      ReadyIdsSnoc(front, last);
      forall i | 0 <= i < n ensures front[i].id != last.id {
        IncreasingIsDistinct(entries, i, n);
      }
      hide Increasing;
      assert last.id !in ReadyIds(front);
    }
  }

  /** The consumers agree.  With canonical configured ids the summary is unknown
      for a reason exactly when the projection is, and an observed summary counts
      the projection's ready behaviors and carries its unavailable ones. */
  lemma {:induction false} ConsumersAgree(h: Host, row: Option<Row>, agentDid: string, configured: seq<string>,
                       configuredDefault: Option<string>, now: int)
    requires CanonicalConfig(configured, configuredDefault)
    ensures var p := Project(h, row, agentDid, configured, configuredDefault, now);
            match Summarize(h, row, agentDid, now)
            case Unknown(why) => p.unknown == Some(why) && forall id | id in p.behaviors :: p.behaviors[id] == NotKnown(why)
            case Observed(s, ready, unavailable) =>
              && p.unknown == None && p.snapshot == Some(s)
              && ready == |set id | id in p.behaviors && p.behaviors[id] == Ready|
              && (forall id :: id in unavailable <==> id in p.behaviors && p.behaviors[id].Unavailable?)
              && (forall id | id in unavailable :: p.behaviors[id] == Unavailable(unavailable[id]))
  {
    var p := Project(h, row, agentDid, configured, configuredDefault, now);
    match Summarize(h, row, agentDid, now)
    case Unknown(_) =>
    case Observed(s, ready, unavailable) =>
      ReadyCountIsCardinality(s.behaviors);
      forall id
        ensures id in unavailable <==> id in p.behaviors && p.behaviors[id].Unavailable?
        ensures id in unavailable ==> p.behaviors[id] == Unavailable(unavailable[id])
      {
        UnavailableMeansEntry(s.behaviors, id);
        assert id in EntryIds(s.behaviors) <==> Lists(s.behaviors, id);
      }
      assert (set id | id in p.behaviors && p.behaviors[id] == Ready) == ReadyIds(s.behaviors) by {
        forall id ensures (id in p.behaviors && p.behaviors[id] == Ready) <==> id in ReadyIds(s.behaviors) {
          ReadyIsListed(s, id);
        }
      }
  }

  lemma {:induction false} ReadyIsListed(s: Snapshot, id: string)
    requires Increasing(s.behaviors) && GlobalUnknown(s).None?
    requires forall i | 0 <= i < |s.behaviors| :: CanonicalEntry(s.behaviors[i])
    ensures ReadinessOf(s, id) == Ready <==> id in ReadyIds(s.behaviors)
    ensures ReadinessOf(s, id) == Ready ==> id in EntryIds(s.behaviors)
    ensures id in ReadyIds(s.behaviors) ==> id in EntryIds(s.behaviors)
  {
    var found := Lookup(s.behaviors, id);
    if found.Some? {
      var k :| 0 <= k < |s.behaviors| && s.behaviors[k] == found.value;
      forall i | 0 <= i < |s.behaviors| && s.behaviors[i].id == id ensures i == k {
        if i < k {
          IncreasingIsDistinct(s.behaviors, i, k);
        } else if k < i {
          IncreasingIsDistinct(s.behaviors, k, i);
        }
      }
    }
  }
}
