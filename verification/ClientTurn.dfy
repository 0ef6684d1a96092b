/**
 The client's view of a turn: one attempt is projected to a client state, and
 of several attempts the one no other attempt retries is shown.
 */
module ClientTurn {
  import opened Prelude
  import Life = RequestLifecycle

  datatype TurnState = WaitingForClaim | Streaming | Completed | Failed | Superseded | Interrupted

  function Rank(s: TurnState): nat
  {
    match s
    case WaitingForClaim => 0
    case Streaming => 1
    case _ => 2
  }

  datatype ResponseStatus = Partial | Complete | Error

  datatype Attempt = Attempt(id: string, retryParent: Option<string>, lifecycle: Life.State,
                             isSuperseded: bool, response: Option<ResponseStatus>)

  function DeriveAttempt(a: Attempt): TurnState
  {
    if a.isSuperseded then Superseded
    else match a.lifecycle
      case Superseded => Superseded
      case Completed => Completed
      case Failed => Failed
      case Dead => Failed
      case Interrupted => Interrupted
      case _ =>
        match a.response
        case None => WaitingForClaim
        case Some(Complete) => Completed
        case Some(Error) => Failed
        case Some(Partial) => Streaming
  }

  function Referenced(attempts: seq<Attempt>): set<string>
  {
    set a | a in attempts && a.retryParent.Some? && a.retryParent.value != "" :: a.retryParent.value
  }

  function Unreferenced(attempts: seq<Attempt>, referenced: set<string>): seq<Attempt>
  {
    if attempts == [] then []
    else (if attempts[0].id in referenced then [] else [attempts[0]]) + Unreferenced(attempts[1..], referenced)
  }

  function ResolveTip(attempts: seq<Attempt>): Option<Attempt>
  {
    var tips := Unreferenced(attempts, Referenced(attempts));
    if |tips| == 1 then Some(tips[0]) else None
  }

  function DeriveTurn(attempts: seq<Attempt>): Option<TurnState>
  {
    match ResolveTip(attempts)
    case None => None
    case Some(tip) => Some(DeriveAttempt(tip))
  }

  // ----- the order of the attempts does not show

  lemma {:induction false} UnreferencedCount(attempts: seq<Attempt>, referenced: set<string>, a: Attempt)
    ensures multiset(Unreferenced(attempts, referenced))[a] ==
            if a.id in referenced then 0 else multiset(attempts)[a]
  {
    if attempts != [] {
      UnreferencedCount(attempts[1..], referenced, a);
      assert attempts == [attempts[0]] + attempts[1..];
    }
  }

  lemma {:induction false} PermutationInvariant(a: seq<Attempt>, b: seq<Attempt>)
    requires multiset(a) == multiset(b)
    ensures ResolveTip(a) == ResolveTip(b) && DeriveTurn(a) == DeriveTurn(b)
  {
    ReferencedPermutes(a, b);
    UnreferencedPermutes(a, b, Referenced(a));
    SingletonsPermute(Unreferenced(a, Referenced(a)), Unreferenced(b, Referenced(a)));
  }

  lemma {:induction false} ReferencedPermutes(a: seq<Attempt>, b: seq<Attempt>)
    requires multiset(a) == multiset(b)
    ensures Referenced(a) == Referenced(b)
  {
    forall x ensures x in a <==> x in b {
      assert x in multiset(a) <==> x in multiset(b);
    }
  }

  lemma {:induction false} UnreferencedPermutes(a: seq<Attempt>, b: seq<Attempt>, referenced: set<string>)
    requires multiset(a) == multiset(b)
    ensures multiset(Unreferenced(a, referenced)) == multiset(Unreferenced(b, referenced))
  {
    var s, t := Unreferenced(a, referenced), Unreferenced(b, referenced);
    forall x: Attempt ensures multiset(s)[x] == multiset(t)[x] {
      UnreferencedCount(a, referenced, x);
      UnreferencedCount(b, referenced, x);
    }
  }

  lemma {:induction false} SingletonsPermute<T>(s: seq<T>, t: seq<T>)
    requires multiset(s) == multiset(t)
    ensures |s| == |t| && (|s| == 1 ==> s[0] == t[0])
  {
    assert |s| == |multiset(s)| && |t| == |multiset(t)|;
    if |s| == 1 {
      assert s[0] in multiset(t);
    }
  }

  // ----- tips and retry chains

  ghost predicate DistinctIds(attempts: seq<Attempt>)
  {
    forall i, j | 0 <= i < j < |attempts| :: attempts[i].id != attempts[j].id
  }

  predicate IsTip(attempts: seq<Attempt>, a: Attempt)
  {
    a in attempts && a.id !in Referenced(attempts)
  }

  /** Attempts oldest first, each retrying the one before it. */
  ghost predicate IsChain(chain: seq<Attempt>)
  {
    && chain != [] && DistinctIds(chain)
    && forall i | 0 < i < |chain| :: chain[i].retryParent == Some(chain[i - 1].id)
  }

  lemma {:induction false} DistinctCount(attempts: seq<Attempt>, a: Attempt)
    requires DistinctIds(attempts)
    ensures multiset(attempts)[a] == if a in attempts then 1 else 0
  {
    if attempts != [] {
      DistinctCount(attempts[1..], a);
      assert attempts == [attempts[0]] + attempts[1..];
    }
  }

  lemma {:induction false} AllAlike<T>(s: seq<T>, x: T)
    requires forall i | 0 <= i < |s| :: s[i] == x
    ensures multiset(s)[x] == |s|
  {
    if s != [] {
      assert s == [s[0]] + s[1..];
      AllAlike(s[1..], x);
    }
  }

  /** With distinct ids an attempt is shown exactly when it is the only tip. */
  lemma {:induction false} ShownIsTheOnlyTip(attempts: seq<Attempt>, a: Attempt)
    requires DistinctIds(attempts)
    ensures ResolveTip(attempts) == Some(a) <==>
            IsTip(attempts, a) && forall b | b in attempts && b != a :: !IsTip(attempts, b)
  {
    var r := Referenced(attempts);
    var tips := Unreferenced(attempts, r);
    forall x ensures multiset(tips)[x] == if IsTip(attempts, x) then 1 else 0 {
      UnreferencedCount(attempts, r, x);
      DistinctCount(attempts, x);
    }
    if IsTip(attempts, a) && forall b | b in attempts && b != a :: !IsTip(attempts, b) {
      forall i | 0 <= i < |tips| ensures tips[i] == a {
        assert tips[i] in multiset(tips);
      }
      AllAlike(tips, a);
    }
    if ResolveTip(attempts) == Some(a) {
      assert tips == [a];
      forall b | b in attempts && b != a ensures !IsTip(attempts, b) {
        assert multiset(tips)[b] == 0;
      }
      assert a in multiset(tips);
    }
  }

  /** What goes wrong with a retry chain: an older attempt with the empty id, which
      no reference counts for, or a first attempt that names the newest as its parent. */
  predicate Shows(chain: seq<Attempt>)
    requires chain != []
  {
    var newest := chain[|chain| - 1];
    && (forall i | 0 <= i < |chain| - 1 :: chain[i].id != "")
    && !(newest.id != "" && chain[0].retryParent == Some(newest.id))
  }

  lemma {:induction false} OlderIsReferenced(chain: seq<Attempt>, i: nat)
    requires IsChain(chain) && i < |chain| - 1
    ensures IsTip(chain, chain[i]) <==> chain[i].id == ""
  {
    var next := i + 1;
    assert chain[next].retryParent == Some(chain[next - 1].id) && chain[next] in chain;
  }

  lemma {:induction false} NewestIsReferenced(chain: seq<Attempt>)
    requires IsChain(chain)
    ensures var newest := chain[|chain| - 1];
            IsTip(chain, newest) <==> !(newest.id != "" && chain[0].retryParent == Some(newest.id))
  {
    var newest := chain[|chain| - 1];
    assert chain[0] in chain && newest in chain;
    forall k | 0 < k < |chain| ensures chain[k].retryParent != Some(newest.id) {
      assert chain[k].retryParent == Some(chain[k - 1].id);
    }
  }

  /** A retry chain of any length, in any order, shows its newest attempt, exactly when `Shows` holds. */
  lemma {:induction false} ChainShowsNewest(chain: seq<Attempt>, attempts: seq<Attempt>)
    requires IsChain(chain) && multiset(chain) == multiset(attempts)
    ensures ResolveTip(attempts) == Some(chain[|chain| - 1]) <==> Shows(chain)
    ensures Shows(chain) ==> DeriveTurn(attempts) == Some(DeriveAttempt(chain[|chain| - 1]))
  {
    PermutationInvariant(chain, attempts);
    var n := |chain| - 1;
    ShownIsTheOnlyTip(chain, chain[n]);
    NewestIsReferenced(chain);
    forall i | 0 <= i < n ensures chain[i] in chain && chain[i] != chain[n] && (IsTip(chain, chain[i]) <==> chain[i].id == "") {
      OlderIsReferenced(chain, i);
    }
    hide IsTip, ResolveTip, DeriveAttempt;
    if Shows(chain) {
      forall b | b in chain && b != chain[n] ensures !IsTip(chain, b) {
        var k :| 0 <= k < |chain| && chain[k] == b;
      }
    }
  }

  /** The two shapes that `Shows` excludes do fail: neither of these chains shows anything. */
  lemma {:induction false} BrokenChains(first: Attempt, second: Attempt)
    requires second.retryParent == Some(first.id) && first.id != second.id && second.id != ""
    requires || (first.id == "" && first.retryParent != Some(second.id))
             || (first.id != "" && first.retryParent == Some(second.id))
    ensures IsChain([first, second]) && !Shows([first, second]) && DeriveTurn([first, second]) == None
  {
    var chain := [first, second];
    assert chain[0] == first && chain[1] == second;
    var r := Referenced(chain);
    assert first in chain && second in chain;
    assert first.id in r <==> first.id != "";
    assert second.id in r <==> first.id != "";
    assert chain[1..] == [second] && [second][1..] == [];
    assert Unreferenced([second], r) == if second.id in r then [] else [second];
    assert Unreferenced(chain, r) == if first.id == "" then [first, second] else [];
  }

  // ----- only chains are shown

  /** Retries are created after what they retry. */
  ghost predicate CreatedInOrder(attempts: seq<Attempt>, created: map<string, nat>)
  {
    && (forall a | a in attempts :: a.id in created)
    && (forall a, b | a in attempts && b in attempts && a.retryParent == Some(b.id) :: created[b.id] < created[a.id])
  }

  ghost predicate ParentWithin(attempts: seq<Attempt>, a: Attempt)
  {
    exists p :: p in attempts && a.retryParent == Some(p.id)
  }

  /** The retries that led to `a`, oldest first. */
  lemma {:induction false} Ancestry(attempts: seq<Attempt>, created: map<string, nat>, a: Attempt)
    returns (chain: seq<Attempt>)
    requires CreatedInOrder(attempts, created) && a in attempts
    ensures chain != [] && chain[|chain| - 1] == a && !ParentWithin(attempts, chain[0])
    ensures forall i | 0 <= i < |chain| :: chain[i] in attempts
    ensures forall i | 0 < i < |chain| :: chain[i].retryParent == Some(chain[i - 1].id)
    decreases created[a.id]
  {
    if ParentWithin(attempts, a) {
      var p :| p in attempts && a.retryParent == Some(p.id);
      var older := Ancestry(attempts, created, p);
      chain := older + [a];
    } else {
      chain := [a];
    }
  }

  lemma {:induction false} AncestryIsOrdered(attempts: seq<Attempt>, created: map<string, nat>, chain: seq<Attempt>, i: nat, j: nat)
    requires CreatedInOrder(attempts, created) && i < j < |chain|
    requires forall i | 0 <= i < |chain| :: chain[i] in attempts
    requires forall i | 0 < i < |chain| :: chain[i].retryParent == Some(chain[i - 1].id)
    ensures created[chain[i].id] < created[chain[j].id]
  {
    assert created[chain[j - 1].id] < created[chain[j].id];
    if i < j - 1 {
      AncestryIsOrdered(attempts, created, chain, i, j - 1);
    }
  }

  ghost function Latest(attempts: seq<Attempt>, created: map<string, nat>): (m: nat)
    requires forall a | a in attempts :: a.id in created
    ensures forall a | a in attempts :: created[a.id] <= m
  {
    if attempts == [] then 0
    else
      var m := Latest(attempts[1..], created);
      assert forall a | a in attempts :: a == attempts[0] || a in attempts[1..];
      if created[attempts[0].id] > m then created[attempts[0].id] else m
  }

  /** Every attempt is among the ancestors of the only tip. */
  lemma {:induction false} ChainCovers(attempts: seq<Attempt>, created: map<string, nat>, chain: seq<Attempt>, x: Attempt)
    requires CreatedInOrder(attempts, created) && DistinctIds(attempts) && x in attempts
    requires chain != [] && !ParentWithin(attempts, chain[0])
    requires forall i | 0 <= i < |chain| :: chain[i] in attempts
    requires forall i | 0 < i < |chain| :: chain[i].retryParent == Some(chain[i - 1].id)
    requires forall b | b in attempts && b != chain[|chain| - 1] :: !IsTip(attempts, b)
    ensures x in chain
    decreases Latest(attempts, created) - created[x.id]
  {
    if x != chain[|chain| - 1] {
      assert x.id in Referenced(attempts);
      var y :| y in attempts && y.retryParent == Some(x.id);
      ChainCovers(attempts, created, chain, y);
      var k :| 0 <= k < |chain| && chain[k] == y;
      assert k != 0;
      var i :| 0 <= i < |attempts| && attempts[i] == x;
      var j :| 0 <= j < |attempts| && attempts[j] == chain[k - 1];
      assert i == j;
    }
  }

  /** A turn that shows a state is one retry chain: forks and unrelated attempts
      show nothing.  Together with `ChainShowsNewest` this says exactly which turns do. */
  lemma {:induction false} OnlyChainsAreShown(attempts: seq<Attempt>, created: map<string, nat>, tip: Attempt) returns (chain: seq<Attempt>)
    requires DistinctIds(attempts) && CreatedInOrder(attempts, created)
    requires ResolveTip(attempts) == Some(tip)
    ensures IsChain(chain) && multiset(chain) == multiset(attempts) && chain[|chain| - 1] == tip
  {
    ShownIsTheOnlyTip(attempts, tip);
    chain := Ancestry(attempts, created, tip);
    forall i, j | 0 <= i < j < |chain| ensures chain[i].id != chain[j].id {
      AncestryIsOrdered(attempts, created, chain, i, j);
    }
    forall x: Attempt ensures multiset(chain)[x] == multiset(attempts)[x] {
      if x in attempts {
        ChainCovers(attempts, created, chain, x);
      }
      DistinctCount(chain, x);
      DistinctCount(attempts, x);
    }
  }

  // ----- the rank never falls

  function Progress(response: Option<ResponseStatus>): nat
  {
    match response
    case None => 0
    case Some(Partial) => 1
    case Some(_) => 2
  }

  /** How a snapshot of one attempt may change. */
  predicate Advances(a: Attempt, b: Attempt)
  {
    && (Life.IsTerminal(a.lifecycle) ==> b.lifecycle == a.lifecycle)
    && (a.isSuperseded ==> b.isSuperseded)
    && Progress(a.response) <= Progress(b.response)
  }

  lemma {:induction false} RankNeverFalls(run: seq<Attempt>, i: nat, j: nat)
    requires forall k | 0 < k < |run| :: Advances(run[k - 1], run[k])
    requires i <= j < |run|
    ensures Rank(DeriveAttempt(run[i])) <= Rank(DeriveAttempt(run[j]))
  {
    if i < j {
      RankNeverFalls(run, i, j - 1);
      assert Advances(run[j - 1], run[j]);
    }
  }

  /** The ranks: waiting, then streaming, then every ended turn alike. */
  lemma {:induction false} RankOrders(s: TurnState)
    ensures Rank(WaitingForClaim) == 0 && Rank(Streaming) == 1
    ensures Rank(s) == 2 <==> s == Completed || s == Failed || s == Superseded || s == Interrupted
  {
  }

  // ----- what a client sees

  /** The request has not ended, so its response decides. */
  predicate Undecided(a: Attempt)
  {
    && !a.isSuperseded
    && (a.lifecycle == Life.WorkspaceBindingPending || a.lifecycle == Life.Pending || a.lifecycle == Life.Claimed
        || a.lifecycle == Life.Processing || a.lifecycle == Life.InputRequired)
  }

  /** What the client sees of a retry chain of any length, in any order: the newest
      attempt, by its supersession, then its lifecycle, then its response. */
  lemma {:induction false} ChainShows(chain: seq<Attempt>, attempts: seq<Attempt>)
    requires IsChain(chain) && multiset(chain) == multiset(attempts) && Shows(chain)
    ensures var newest := chain[|chain| - 1];
            var turn := DeriveTurn(attempts);
            && (turn == Some(Superseded) <==> newest.isSuperseded || newest.lifecycle == Life.Superseded)
            && (turn == Some(Completed) <==>
                  || (!newest.isSuperseded && newest.lifecycle == Life.Completed)
                  || (Undecided(newest) && newest.response == Some(Complete)))
            && (turn == Some(Failed) <==>
                  || (!newest.isSuperseded && (newest.lifecycle == Life.Failed || newest.lifecycle == Life.Dead))
                  || (Undecided(newest) && newest.response == Some(Error)))
            && (turn == Some(Interrupted) <==> !newest.isSuperseded && newest.lifecycle == Life.Interrupted)
            && (turn == Some(Streaming) <==> Undecided(newest) && newest.response == Some(Partial))
            && (turn == Some(WaitingForClaim) <==> Undecided(newest) && newest.response == None)
  {
    ChainShowsNewest(chain, attempts);
  }

  /** An ended request is shown as ended, whatever its response says. */
  lemma {:induction false} EndedWins(a: Attempt, response: Option<ResponseStatus>)
    requires Life.IsTerminal(a.lifecycle) || a.isSuperseded
    ensures DeriveTurn([a]) == DeriveTurn([a.(response := response)])
    ensures DeriveTurn([a]).Some? ==> Rank(DeriveTurn([a]).value) == 2
  {
    var b := a.(response := response);
    TipOfOne(a);
    TipOfOne(b);
  }

  lemma {:induction false} TipOfOne(a: Attempt)
    ensures ResolveTip([a]) == if a.retryParent == Some(a.id) && a.id != "" then None else Some(a)
  {
    var r := Referenced([a]);
    assert [a][0] == a && [a][1..] == [];
    assert a.id in r <==> a.retryParent == Some(a.id) && a.id != "";
    assert Unreferenced([a][1..], r) == [];
  }
}
