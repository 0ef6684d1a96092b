/**
 The operator's interrupt: latch the root, and with a still-valid preview latch
 every descendant the preview marked.
 */
module CascadeInterrupt {
  import opened Prelude
  import opened CascadeWalk
  import opened CascadeLatch
  import opened CascadePreview
  import CascadeExact
  import RL = RequestLifecycle

  datatype InterruptRequest = InterruptRequest(
    requestId: Id,
    agentDid: Option<string>,
    cause: string,
    cascade: bool,
    expectedSignature: Option<string>)

  datatype InterruptResult = InterruptResult(
    requestId: Id,
    accepted: bool,
    interruptRequestedAt: Option<Timestamp>,
    alreadyInterrupted: bool,
    stalePreview: bool,
    preview: Option<Preview>)

  datatype InterruptError = CauseNotAuthentic | SignatureRequired | WalkFailed(error: WalkError) | NotLatched

  /** A latcher that runs with nobody interleaving. */
  function LatchAlone(rows: map<Id, Request>, l: Latcher, now: Timestamp): (map<Id, Request>, Outcome)
  {
    match Settle(rows, l)
    case Some(outcome) => (rows, outcome)
    case None =>
      if Updatable(rows, l)
      then (rows[l.target := rows[l.target].(interruptRequestedAt := Some(now))], Latched(now, true))
      else (rows, Refused)
  }

  /** Undisturbed, the protocol steps of one latcher amount to `LatchAlone`. */
  lemma {:induction false} LatchAloneIsTheProtocol(w: World, who: nat, now: Timestamp)
    requires who < |w.latchers| && w.latchers[who].phase == Start
    ensures var (rows, outcome) := LatchAlone(w.rows, w.latchers[who], now);
            var w1 := Step(w, Fetch(who, now));
            var w2 := if w1.latchers[who].phase.Writing? then Step(w1, Update(who)) else w1;
            var w3 := if w2.latchers[who].phase.Rechecking? then Step(w2, Recheck(who)) else w2;
            w3.rows == rows && w3.latchers[who].phase == Done(outcome)
  {
    var w1 := Step(w, Fetch(who, now));
    assert Settle(w1.rows, w1.latchers[who]) == Settle(w.rows, w.latchers[who]);
    assert Updatable(w1.rows, w1.latchers[who]) == Updatable(w.rows, w.latchers[who]);
  }

  /** Only latches were set, only on `allowed` requests, only where none was and the state was active. */
  ghost predicate Confined(before: map<Id, Request>, after: map<Id, Request>, allowed: set<Id>)
  {
    && before.Keys == after.Keys
    && forall id | id in before :: after[id] == before[id] || (id in allowed && NewlyLatched(before[id], after[id]))
  }

  ghost predicate NewlyLatched(before: Request, after: Request)
  {
    && before.interruptRequestedAt.None? && after.interruptRequestedAt.Some?
    && before.state.Some? && RL.IsActiveRuntime(before.state.value)
    && after == before.(interruptRequestedAt := after.interruptRequestedAt)
  }

  lemma {:induction false} ConfinedTwice(a: map<Id, Request>, b: map<Id, Request>, c: map<Id, Request>, allowed: set<Id>)
    requires Confined(a, b, allowed) && Confined(b, c, allowed)
    ensures Confined(a, c, allowed)
  {
    forall id | id in a && c[id] != a[id] ensures id in allowed && NewlyLatched(a[id], c[id]) {
      assert b[id] == a[id] || c[id] == b[id];
    }
  }

  /** A request that needs nothing more: latched, or terminal. */
  predicate Settled(rows: map<Id, Request>, id: Id)
  {
    id in rows && (rows[id].interruptRequestedAt.Some? || Terminal(rows[id].state))
  }

  lemma {:induction false} LatchAloneConfined(rows: map<Id, Request>, l: Latcher, now: Timestamp)
    ensures var (after, outcome) := LatchAlone(rows, l, now);
            && Confined(rows, after, {l.target})
            && (outcome.Latched? ==> l.target in after && after[l.target].interruptRequestedAt == Some(outcome.at))
            && (outcome.Latched? && outcome.wasFirst ==> rows[l.target].interruptRequestedAt.None?)
            && (outcome.Latched? && !outcome.wasFirst ==> after == rows)
            && (!outcome.Refused? ==> Settled(after, l.target))
  {
  }

  /** Every outcome of an undisturbed latcher, and when it is returned. */
  lemma {:induction false} LatchesExactly(rows: map<Id, Request>, l: Latcher, now: Timestamp)
    ensures var outcome := LatchAlone(rows, l, now).1;
            if l.target !in rows || !Seen(rows[l.target], l.kind) then outcome == Refused
            else
              var row := rows[l.target];
              if Terminal(row.state) then outcome == (if l.kind.ForRoot? then Refused else Skipped)
              else if row.interruptRequestedAt.Some? then outcome == Latched(row.interruptRequestedAt.value, false)
              else if Running(row.state) && Owned(row, l.kind) then outcome == Latched(now, true)
              else outcome == Refused
  {
  }

  /** The root can be interrupted: found, not over, and latched already or running. */
  predicate Interruptible(rows: map<Id, Request>, id: Id, owner: Option<string>)
  {
    && id in rows && Seen(rows[id], ForRoot(owner)) && !Terminal(rows[id].state)
    && (rows[id].interruptRequestedAt.Some? || (Running(rows[id].state) && Owned(rows[id], ForRoot(owner))))
  }

  /** A descendant that a cascade can deal with: over, latched already, or running. */
  predicate Cascadable(rows: map<Id, Request>, id: Id)
  {
    id in rows && (Terminal(rows[id].state) || rows[id].interruptRequestedAt.Some? || Running(rows[id].state))
  }

  /** Setting latches does not change what a cascade can deal with. */
  lemma {:induction false} StaysCascadable(before: map<Id, Request>, after: map<Id, Request>, allowed: set<Id>, id: Id)
    requires Confined(before, after, allowed)
    ensures Cascadable(before, id) <==> Cascadable(after, id)
  {
    if id in before && after[id] != before[id] {
      assert NewlyLatched(before[id], after[id]);
    }
  }

  function Targets(rows: seq<Row>): set<Id>
  {
    Ids(Bucket(rows, WillInterrupt))
  }

  lemma {:induction false} TargetsAreMarked(rows: seq<Row>, id: Id)
    ensures id in Targets(rows) <==> CascadeExact.Marked(rows, id)
  {
    var bucket := Bucket(rows, WillInterrupt);
    if id in Targets(rows) {
      var i :| 0 <= i < |bucket| && bucket[i].id == id;
      BucketMembers(rows, WillInterrupt, bucket[i]);
      var k :| 0 <= k < |rows| && rows[k] == bucket[i];
    }
    if CascadeExact.Marked(rows, id) {
      var i :| 0 <= i < |rows| && rows[i].id == id && rows[i].classification.WillInterrupt?;
      BucketMembers(rows, WillInterrupt, rows[i]);
      var k :| 0 <= k < |bucket| && bucket[k] == rows[i];
    }
  }

  /** What the operator confirms is what is latched.  `shown` is the snapshot of the
      preview on display and `now` the one `Interrupt` walks; the signature it
      requires is both the one displayed and the one of `now`.  If the digest
      tells the two texts apart, the displayed columns contain no separator, and
      as many rows are found, the requests it latches are the displayed ones. */
  lemma {:induction false} ShownIsLatched(shown: Snapshot, all: bool, did: Option<string>, now: Snapshot,
                                          req: InterruptRequest, hash: string -> string)
    requires Walk(shown, req.requestId, did, all).Ok? && Walk(now, req.requestId, req.agentDid, true).Ok?
    requires var a, b := Walk(shown, req.requestId, did, all).value, Walk(now, req.requestId, req.agentDid, true).value;
             var x, y := SignatureText(InputOf(req.requestId, a)), SignatureText(InputOf(req.requestId, b));
             && req.expectedSignature == Some(PreviewOf(req.requestId, a, hash).signature) == Some(hash(y))
             && (hash(x) == hash(y) ==> x == y)
             && PlainInput(InputOf(req.requestId, a)) && |a.rows| == |b.rows|
    ensures Targets(Walk(shown, req.requestId, did, all).value.rows)
         == Targets(Walk(now, req.requestId, req.agentDid, true).value.rows)
  {
    hide Walk, SignatureText, PlainInput, Targets;
    var a, b := Walk(shown, req.requestId, did, all).value, Walk(now, req.requestId, req.agentDid, true).value;
    forall id ensures id in Targets(a.rows) <==> id in Targets(b.rows) {
      SameTextSameMarks(shown, now, req.requestId, did, req.agentDid, all, true, id);
      TargetsAreMarked(a.rows, id);
      TargetsAreMarked(b.rows, id);
    }
  }

  class RequestStore {
    var snap: Snapshot

    constructor (snap: Snapshot)
      ensures this.snap == snap
    {
      this.snap := snap;
    }

    /** Fetch, conditional update, recheck. */
    method Latch(kind: Kind, id: Id, now: Timestamp) returns (o: Outcome)
      modifies this
      ensures (snap.requests, o) == LatchAlone(old(snap.requests), Latcher(kind, id, Start), now)
      ensures snap.calls == old(snap.calls) && Confined(old(snap.requests), snap.requests, {id})
      ensures o.Latched? ==> id in snap.requests && snap.requests[id].interruptRequestedAt == Some(o.at)
      ensures !o.Refused? ==> Settled(snap.requests, id)
    {
      var l := Latcher(kind, id, Start);
      LatchAloneConfined(snap.requests, l, now);
      if !Fetchable(snap.requests, l) {
        return Refused;
      }
      if Terminal(snap.requests[id].state) {
        return if kind.ForRoot? then Refused else Skipped;
      }
      if snap.requests[id].interruptRequestedAt.Some? {
        return Latched(snap.requests[id].interruptRequestedAt.value, false);
      }
      if Updatable(snap.requests, l) {
        var latched := snap.requests[id].(interruptRequestedAt := Some(now));
        snap := snap.(requests := snap.requests[id := latched]);
        return Latched(now, true);
      }
      return Conclude(snap.requests, l);
    }

    /** Latches each marked row in turn; an error stops the rest. `clock` reads the time of each latch. */
    method LatchDescendants(marked: seq<Row>, clock: nat -> Timestamp) returns (ok: bool)
      modifies this
      ensures snap.calls == old(snap.calls)
      ensures Confined(old(snap.requests), snap.requests, Ids(marked))
      ensures ok ==> forall id | id in Ids(marked) :: Settled(snap.requests, id)
      ensures ok <==> forall id | id in Ids(marked) :: Cascadable(old(snap.requests), id)
    {
      for i := 0 to |marked|
        invariant snap.calls == old(snap.calls)
        invariant Confined(old(snap.requests), snap.requests, Ids(marked))
        invariant forall k | 0 <= k < i :: Settled(snap.requests, marked[k].id) && Cascadable(old(snap.requests), marked[k].id)
      {
        ghost var before := snap.requests;
        var o := Latch(ForDescendant, marked[i].id, clock(i + 1));
        LatchAloneConfined(before, Latcher(ForDescendant, marked[i].id, Start), clock(i + 1));
        LatchesExactly(before, Latcher(ForDescendant, marked[i].id, Start), clock(i + 1));
        StaysCascadable(old(snap.requests), before, Ids(marked), marked[i].id);
        assert marked[i].id in Ids(marked);
        assert Confined(before, snap.requests, Ids(marked));
        ConfinedTwice(old(snap.requests), before, snap.requests, Ids(marked));
        if o.Refused? {
          return false;
        }
        forall k | 0 <= k < i ensures Settled(snap.requests, marked[k].id) {
          assert Settled(before, marked[k].id);
        }
      }
      return true;
    }

    /** A rejected cause, a missing or stale signature and a failed walk write
        nothing.  Otherwise only the root and, on a cascade, the requests of the
        confirmed preview may gain a latch; on success the root carries the
        returned timestamp and every previewed request is latched or terminal.
        The last clauses say exactly when an interrupt is accepted. */
    method Interrupt(req: InterruptRequest, hash: string -> string, clock: nat -> Timestamp)
      returns (r: Result<InterruptResult, InterruptError>)
      modifies this
      ensures snap.calls == old(snap.calls)
      ensures r.Err? && !r.error.NotLatched? ==> snap == old(snap)
      ensures r.Ok? && r.value.stalePreview ==> snap == old(snap) && !r.value.accepted
      ensures req.cause != "userCancelled" ==> r == Err(CauseNotAuthentic)
      ensures !req.cascade ==> Confined(old(snap.requests), snap.requests, {req.requestId})
      ensures req.cascade && snap != old(snap) ==>
                && var walked := Walk(old(snap), req.requestId, req.agentDid, true);
                && walked.Ok?
                && req.expectedSignature == Some(hash(SignatureText(InputOf(req.requestId, walked.value))))
                && Confined(old(snap.requests), snap.requests, {req.requestId} + Targets(walked.value.rows))
      ensures r.Ok? && r.value.accepted ==>
                && req.requestId in snap.requests
                && snap.requests[req.requestId].interruptRequestedAt == r.value.interruptRequestedAt
                && r.value.interruptRequestedAt.Some?
                && (r.value.alreadyInterrupted <==> old(snap.requests)[req.requestId].interruptRequestedAt.Some?)
      ensures r.Ok? && r.value.accepted && req.cascade ==>
                && Walk(old(snap), req.requestId, req.agentDid, true).Ok?
                && forall id | id in Targets(Walk(old(snap), req.requestId, req.agentDid, true).value.rows) ::
                     Settled(snap.requests, id)
      ensures !req.cascade ==>
                (r.Ok? && r.value.accepted <==>
                 req.cause == "userCancelled" && Interruptible(old(snap.requests), req.requestId, req.agentDid))
      ensures req.cascade ==>
                (r.Ok? && r.value.accepted <==>
                 && req.cause == "userCancelled" && Interruptible(old(snap.requests), req.requestId, req.agentDid)
                 && var walked := Walk(old(snap), req.requestId, req.agentDid, true);
                 && walked.Ok?
                 && req.expectedSignature == Some(hash(SignatureText(InputOf(req.requestId, walked.value))))
                 && forall id | id in Targets(walked.value.rows) :: Cascadable(old(snap.requests), id))
      ensures r.Ok? && !r.value.accepted ==> r.value.stalePreview
      ensures r.Ok? && r.value.stalePreview <==>
                && req.cause == "userCancelled" && req.cascade && req.expectedSignature.Some?
                && var walked := Walk(old(snap), req.requestId, req.agentDid, true);
                && walked.Ok?
                && req.expectedSignature.value != hash(SignatureText(InputOf(req.requestId, walked.value)))
    {
      if req.cause != "userCancelled" {
        return Err(CauseNotAuthentic);
      }
      if !req.cascade {
        var latched := LatchRoot(req, clock);
        return if latched.Refused? || latched.Skipped? then Err(NotLatched) else Ok(Accepted(req, latched));
      }
      if req.expectedSignature.None? {
        return Err(SignatureRequired);
      }
      var preview := BuildPreview(snap, req.requestId, req.agentDid, true, hash);
      if preview.Err? {
        return Err(WalkFailed(preview.error));
      }
      if preview.value.signature != req.expectedSignature.value {
        return Ok(InterruptResult(req.requestId, false, None, false, true, Some(preview.value)));
      }
      var latched := LatchRoot(req, clock);
      if !latched.Latched? {
        return Err(NotLatched);
      }
      ghost var mid := snap.requests;
      forall id { StaysCascadable(old(snap.requests), mid, {req.requestId}, id); }
      var ok := LatchDescendants(preview.value.willInterrupt, clock);
      ghost var allowed := {req.requestId} + Ids(preview.value.willInterrupt);
      assert Confined(old(snap.requests), mid, allowed);
      assert Confined(mid, snap.requests, allowed);
      ConfinedTwice(old(snap.requests), mid, snap.requests, allowed);
      if !ok {
        return Err(NotLatched);
      }
      return Ok(Accepted(req, latched));
    }

    method LatchRoot(req: InterruptRequest, clock: nat -> Timestamp) returns (o: Outcome)
      modifies this
      ensures snap.calls == old(snap.calls) && Confined(old(snap.requests), snap.requests, {req.requestId})
      ensures o.Latched? ==> && req.requestId in snap.requests
                             && snap.requests[req.requestId].interruptRequestedAt == Some(o.at)
                             && (!o.wasFirst ==> snap == old(snap))
      ensures o.Latched? <==> Interruptible(old(snap.requests), req.requestId, req.agentDid)
      ensures o.Latched? ==> (o.wasFirst <==> old(snap.requests)[req.requestId].interruptRequestedAt.None?)
    {
      LatchesExactly(snap.requests, Latcher(ForRoot(req.agentDid), req.requestId, Start), clock(0));
      LatchAloneConfined(snap.requests, Latcher(ForRoot(req.agentDid), req.requestId, Start), clock(0));
      o := Latch(ForRoot(req.agentDid), req.requestId, clock(0));
    }
  }

  function Accepted(req: InterruptRequest, o: Outcome): InterruptResult
    requires o.Latched?
  {
    InterruptResult(req.requestId, true, Some(o.at), !o.wasFirst, false, None)
  }
}
