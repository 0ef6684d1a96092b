/**
 The interrupt latch as a protocol: any number of root and descendant latchers
 fetch, conditionally update and recheck one store of requests, interleaved
 with lifecycle transitions.
 */
module CascadeLatch {
  import opened Prelude
  import Text
  import RL = RequestLifecycle

  import opened CascadeWalk

  type Timestamp = string

  /** A root latcher is scoped to an operator's documents; a descendant latcher is not. */
  datatype Kind = ForRoot(agentDid: Option<string>) | ForDescendant

  datatype Outcome =
    | Latched(at: Timestamp, wasFirst: bool)
    | Skipped            // a descendant that turned terminal
    | Refused            // an error

  datatype Phase = Start | Writing(now: Timestamp) | Rechecking | Done(outcome: Outcome)

  datatype Latcher = Latcher(kind: Kind, target: Id, phase: Phase)

  /** `writes` records, per request, every timestamp ever written. */
  datatype World = World(rows: map<Id, Request>, latchers: seq<Latcher>, writes: map<Id, seq<Timestamp>>)

  /** The row a fetch finds: the root's own document filter applies as given. */
  predicate Fetchable(rows: map<Id, Request>, l: Latcher)
  {
    l.target in rows && (l.kind.ForRoot? && l.kind.agentDid.Some? ==> rows[l.target].agentDid == l.kind.agentDid)
  }

  /** The update's filter: an active state, no latch, and for a root the trimmed owner when one is given. */
  predicate Updatable(rows: map<Id, Request>, l: Latcher)
  {
    && l.target in rows
    && rows[l.target].state.Some? && RL.IsActiveRuntime(rows[l.target].state.value)
    && rows[l.target].interruptRequestedAt.None?
    && (l.kind.ForRoot? && l.kind.agentDid.Some? && Text.Trim(l.kind.agentDid.value) != ""
        ==> rows[l.target].agentDid == Some(Text.Trim(l.kind.agentDid.value)))
  }

  /** What both the first fetch and the recheck conclude when they can conclude. */
  function Settle(rows: map<Id, Request>, l: Latcher): Option<Outcome>
  {
    if !Fetchable(rows, l) then Some(Refused)
    else if Terminal(rows[l.target].state) then Some(if l.kind.ForRoot? then Refused else Skipped)
    else if rows[l.target].interruptRequestedAt.Some? then Some(Latched(rows[l.target].interruptRequestedAt.value, false))
    else None
  }

  /** The recheck must conclude: a row still open to a latch means it was not accepted. */
  function Conclude(rows: map<Id, Request>, l: Latcher): Outcome
  {
    match Settle(rows, l)
    case Some(outcome) => outcome
    case None => Refused
  }

  /** One step of one actor. */
  datatype Action =
    | Fetch(who: nat, now: Timestamp)
    | Update(who: nat)
    | Recheck(who: nat)
    | Transition(id: Id, state: RL.State)

  /** Terminal states are absorbing; a row without a state is not terminal. */
  ghost predicate Enabled(w: World, a: Action)
  {
    match a
    case Fetch(who, _) => who < |w.latchers| && w.latchers[who].phase.Start?
    case Update(who) => who < |w.latchers| && w.latchers[who].phase.Writing?
    case Recheck(who) => who < |w.latchers| && w.latchers[who].phase.Rechecking?
    case Transition(id, _) => id in w.rows && !Terminal(w.rows[id].state)
  }

  function To(w: World, who: nat, phase: Phase): World
    requires who < |w.latchers|
  {
    w.(latchers := w.latchers[who := w.latchers[who].(phase := phase)])
  }

  /** The timestamps written to `id` so far. */
  function Written(w: World, id: Id): seq<Timestamp>
  {
    if id in w.writes then w.writes[id] else []
  }

  ghost function Step(w: World, a: Action): World
    requires Enabled(w, a)
  {
    match a
    case Fetch(who, now) =>
      (match Settle(w.rows, w.latchers[who])
       case Some(outcome) => To(w, who, Done(outcome))
       case None => To(w, who, Writing(now)))
    case Update(who) =>
      var l := w.latchers[who];
      if !Updatable(w.rows, l) then To(w, who, Rechecking)
      else
        var now := l.phase.now;
        To(World(w.rows[l.target := w.rows[l.target].(interruptRequestedAt := Some(now))], w.latchers,
                 w.writes[l.target := Written(w, l.target) + [now]]),
           who, Done(Latched(now, true)))
    case Recheck(who) =>
      To(w, who, Done(Conclude(w.rows, w.latchers[who])))
    case Transition(id, state) =>
      w.(rows := w.rows[id := w.rows[id].(state := Some(state))])
  }

  // ----- the invariant

  /** Latcher `who` returned the latch of `id`. */
  predicate Returned(w: World, who: nat, id: Id)
    requires who < |w.latchers|
  {
    w.latchers[who].target == id && w.latchers[who].phase.Done? && w.latchers[who].phase.outcome.Latched?
  }

  /** `start` is the store before any latcher ran. */
  ghost predicate Agrees(w: World, start: map<Id, Request>)
  {
    && w.rows.Keys == start.Keys
    && (forall id | id in w.rows :: RowAgrees(w, start, id))
    && (forall id | id in w.writes :: id in w.rows)
    && (forall who | 0 <= who < |w.latchers| :: ReturnAgrees(w, who))
  }

  /** A latch is the one from before, or the only one written. */
  ghost predicate RowAgrees(w: World, start: map<Id, Request>, id: Id)
    requires id in w.rows && id in start
  {
    && (start[id].interruptRequestedAt.Some? ==> w.rows[id].interruptRequestedAt == start[id].interruptRequestedAt && Written(w, id) == [])
    && (start[id].interruptRequestedAt.None? ==> Written(w, id) == if w.rows[id].interruptRequestedAt.Some? then [w.rows[id].interruptRequestedAt.value] else [])
  }

  /** A returned latch is the stored one; a first one was written. */
  ghost predicate ReturnAgrees(w: World, who: nat)
    requires who < |w.latchers|
  {
    var l := w.latchers[who];
    Returned(w, who, l.target) ==>
      && l.target in w.rows && w.rows[l.target].interruptRequestedAt == Some(l.phase.outcome.at)
      && (l.phase.outcome.wasFirst ==> Written(w, l.target) != [])
  }

  ghost predicate OneFirst(w: World)
  {
    forall a, b | 0 <= a < b < |w.latchers| :: !(First(w, a) && First(w, b) && w.latchers[a].target == w.latchers[b].target)
  }

  predicate First(w: World, who: nat)
    requires who < |w.latchers|
  {
    w.latchers[who].phase.Done? && w.latchers[who].phase.outcome.Latched? && w.latchers[who].phase.outcome.wasFirst
  }

  ghost predicate AllStarting(w: World)
  {
    w.writes == map[] && forall who | 0 <= who < |w.latchers| :: w.latchers[who].phase == Start
  }

  /** A latcher that settles on what is stored agrees. */
  lemma {:induction false} MoveAgrees(w: World, start: map<Id, Request>, who: nat, phase: Phase)
    requires Agrees(w, start) && OneFirst(w) && who < |w.latchers|
    requires phase.Done? && phase.outcome.Latched? ==>
               && !phase.outcome.wasFirst && w.latchers[who].target in w.rows
               && w.rows[w.latchers[who].target].interruptRequestedAt == Some(phase.outcome.at)
    ensures Agrees(To(w, who, phase), start) && OneFirst(To(w, who, phase))
  {
    var v := To(w, who, phase);
    forall b | 0 <= b < |v.latchers| ensures ReturnAgrees(v, b) {
      assert ReturnAgrees(w, b);
    }
    forall id | id in v.rows ensures RowAgrees(v, start, id) {
      assert RowAgrees(w, start, id);
    }
    forall b, c | 0 <= b < c < |v.latchers| && First(v, b) && First(v, c)
      ensures v.latchers[b].target != v.latchers[c].target
    {
      assert First(w, b) && First(w, c);
    }
  }

  lemma {:induction false} UpdateAgrees(w: World, start: map<Id, Request>, who: nat)
    requires Agrees(w, start) && OneFirst(w) && Enabled(w, Update(who)) && Updatable(w.rows, w.latchers[who])
    ensures Agrees(Step(w, Update(who)), start)
  {
    var v := Step(w, Update(who));
    var target := w.latchers[who].target;
    assert RowAgrees(w, start, target);
    forall b | 0 <= b < |v.latchers| ensures ReturnAgrees(v, b) {
      assert ReturnAgrees(w, b);
      if b != who {
        assert v.latchers[b] == w.latchers[b];
      }
    }
    forall id | id in v.rows ensures RowAgrees(v, start, id) {
      assert RowAgrees(w, start, id);
    }
  }

  lemma {:induction false} UpdateOneFirst(w: World, start: map<Id, Request>, who: nat)
    requires Agrees(w, start) && OneFirst(w) && Enabled(w, Update(who)) && Updatable(w.rows, w.latchers[who])
    ensures OneFirst(Step(w, Update(who)))
  {
    var v := Step(w, Update(who));
    forall b | 0 <= b < |w.latchers| && b != who && First(v, b)
      ensures w.latchers[b].target != w.latchers[who].target
    {
      assert v.latchers[b] == w.latchers[b] && ReturnAgrees(w, b);
    }
    forall b, c | 0 <= b < c < |v.latchers| && First(v, b) && First(v, c)
      ensures v.latchers[b].target != v.latchers[c].target
    {
      if b != who && c != who {
        assert First(w, b) && First(w, c);
      }
    }
  }

  lemma {:induction false} TransitionAgrees(w: World, start: map<Id, Request>, id: Id, state: RL.State)
    requires Agrees(w, start) && Enabled(w, Transition(id, state))
    ensures Agrees(Step(w, Transition(id, state)), start)
  {
    var v := Step(w, Transition(id, state));
    forall b | 0 <= b < |v.latchers| ensures ReturnAgrees(v, b) {
      assert ReturnAgrees(w, b);
    }
    forall id | id in v.rows ensures RowAgrees(v, start, id) {
      assert RowAgrees(w, start, id);
    }
  }

  lemma {:induction false} StepAgrees(w: World, start: map<Id, Request>, a: Action)
    requires Agrees(w, start) && OneFirst(w) && Enabled(w, a)
    ensures Agrees(Step(w, a), start) && OneFirst(Step(w, a))
  {
    hide Agrees;
    match a
    case Fetch(who, now) =>
      var settled := Settle(w.rows, w.latchers[who]);
      MoveAgrees(w, start, who, if settled.Some? then Done(settled.value) else Writing(now));
    case Update(who) =>
      if Updatable(w.rows, w.latchers[who]) {
        UpdateAgrees(w, start, who);
        UpdateOneFirst(w, start, who);
      } else {
        MoveAgrees(w, start, who, Rechecking);
      }
    case Recheck(who) =>
      MoveAgrees(w, start, who, Done(Conclude(w.rows, w.latchers[who])));
    case Transition(id, state) =>
      TransitionAgrees(w, start, id, state);
  }

  // ----- whole runs

  /** `worlds` is a run of the protocol. */
  ghost predicate IsRun(worlds: seq<World>, actions: seq<Action>)
  {
    && |worlds| == |actions| + 1 && AllStarting(worlds[0])
    && forall i | 0 <= i < |actions| :: Enabled(worlds[i], actions[i]) && worlds[i + 1] == Step(worlds[i], actions[i])
  }

  lemma {:induction false} RunAgrees(worlds: seq<World>, actions: seq<Action>, n: nat)
    requires IsRun(worlds, actions) && n < |worlds|
    ensures Agrees(worlds[n], worlds[0].rows) && OneFirst(worlds[n])
  {
    if n > 0 {
      RunAgrees(worlds, actions, n - 1);
      StepAgrees(worlds[n - 1], worlds[0].rows, actions[n - 1]);
    }
  }

  /** Interrupt latch under interleaving.  In every run, each request's timestamp
      is written at most once and is never replaced, at most one caller per
      request was first, and all callers that return a latch of a request return
      the stored timestamp. */
  lemma {:induction false} LatchIsWrittenOnce(worlds: seq<World>, actions: seq<Action>, n: nat, id: Id)
    requires IsRun(worlds, actions) && n < |worlds|
    ensures |Written(worlds[n], id)| <= 1
    ensures forall a, b | 0 <= a < |worlds[n].latchers| && 0 <= b < |worlds[n].latchers| ::
              Returned(worlds[n], a, id) && Returned(worlds[n], b, id) ==>
              && worlds[n].latchers[a].phase.outcome.at == worlds[n].latchers[b].phase.outcome.at
              && (First(worlds[n], a) && First(worlds[n], b) ==> a == b)
  {
    RunAgrees(worlds, actions, n);
    var w := worlds[n];
    if id in w.rows {
      assert RowAgrees(w, worlds[0].rows, id);
    }
    forall a, b | 0 <= a < |w.latchers| && 0 <= b < |w.latchers| && Returned(w, a, id) && Returned(w, b, id)
      ensures w.latchers[a].phase.outcome.at == w.latchers[b].phase.outcome.at
      ensures First(w, a) && First(w, b) ==> a == b
    {
      assert ReturnAgrees(w, a) && ReturnAgrees(w, b);
    }
  }

  /** A stored timestamp never changes again. */
  lemma {:induction false} LatchIsPermanent(worlds: seq<World>, actions: seq<Action>, m: nat, n: nat, id: Id)
    requires IsRun(worlds, actions) && m <= n < |worlds|
    requires id in worlds[m].rows && worlds[m].rows[id].interruptRequestedAt.Some?
    ensures id in worlds[n].rows && worlds[n].rows[id].interruptRequestedAt == worlds[m].rows[id].interruptRequestedAt
  {
    if m < n {
      LatchIsPermanent(worlds, actions, m, n - 1, id);
      assert worlds[n] == Step(worlds[n - 1], actions[n - 1]);
    }
  }

  /** Whenever a step changes a latch, it writes the timestamp of an update whose
      target is at that moment in an active, non-terminal state. */
  lemma {:induction false} NeverOntoTerminal(w: World, a: Action, id: Id)
    requires Enabled(w, a) && id in w.rows && Step(w, a).rows[id].interruptRequestedAt != w.rows[id].interruptRequestedAt
    ensures a.Update? && w.latchers[a.who].target == id && !Terminal(w.rows[id].state) && !Terminal(Step(w, a).rows[id].state)
    ensures w.rows[id].interruptRequestedAt == None && Step(w, a).rows[id].interruptRequestedAt == Some(w.latchers[a.who].phase.now)
  {
  }

  // ----- when a latch is set

  /** The states from which a request may be interrupted. */
  predicate Running(state: Option<RL.State>)
  {
    state == Some(RL.Pending) || state == Some(RL.Claimed) || state == Some(RL.Processing)
  }

  /** The row is one the latcher may see and write.  A root latcher's owner is looked
      up as given but written for as trimmed, so an owner with surrounding white
      space matches no row, unless it is blank. */
  predicate Owned(row: Request, kind: Kind)
  {
    match kind
    case ForDescendant => true
    case ForRoot(None) => true
    case ForRoot(Some(did)) => row.agentDid == Some(did) && (Text.Trim(did) == did || Text.Trim(did) == "")
  }

  predicate Seen(row: Request, kind: Kind)
  {
    match kind
    case ForDescendant => true
    case ForRoot(owner) => owner.None? || row.agentDid == owner
  }

  /** In any interleaving, an update latches exactly the rows that are unlatched and
      running at that moment, and its caller is then the first. */
  lemma {:induction false} UpdateLatches(w: World, who: nat)
    requires Enabled(w, Update(who))
    requires w.latchers[who].target in w.rows && Seen(w.rows[w.latchers[who].target], w.latchers[who].kind)
    ensures var l := w.latchers[who];
            var row, v := w.rows[l.target], Step(w, Update(who));
            if row.interruptRequestedAt.None? && Running(row.state) && Owned(row, l.kind)
            then v.rows == w.rows[l.target := row.(interruptRequestedAt := Some(l.phase.now))]
                 && v.latchers[who].phase == Done(Latched(l.phase.now, true))
            else v.rows == w.rows && v.latchers[who].phase == Rechecking
  {
  }
}
