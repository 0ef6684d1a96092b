/**
 The single-flight contract loader: a per-process cache checked twice around an
 in-process mutex, and an exclusive file lock shared by every process that
 builds or generates in one proofs directory.
 */
module SingleFlight {
  import opened Prelude

  type Payload = string

  /** A loader goes through cache and mutex; the two direct callers only take the file lock. */
  datatype Kind = Loader | BuildOnly | GenerateOnly

  datatype Pc =
    | Start
    | Locking               // waiting for the mutex
    | Holding               // has the mutex, about to look at the cache again
    | Waiting               // waiting for the file lock
    | Building              // has the file lock
    | Generating            // has the file lock
    | Storing(value: Payload)
    | Returned(result: Result<Payload, ()>, built: bool)

  datatype Thread = Thread(kind: Kind, process: nat, pc: Pc)

  /** The mutex maps a process to its holder; the file lock has one holder. */
  datatype World = World(threads: seq<Thread>, cache: map<nat, Payload>, mutex: map<nat, nat>, file: Option<nat>)

  /** How the foreign call of a step turns out: lock errors, build and generator failures. */
  datatype Choice = Succeed(value: Payload) | Fail

  predicate InCritical(pc: Pc)
  {
    pc.Holding? || pc.Waiting? || pc.Building? || pc.Generating? || pc.Storing?
  }

  predicate Working(pc: Pc)
  {
    pc.Building? || pc.Generating?
  }

  /** A thread blocks only on a lock that another one holds; opening or waiting
      for the lock file can fail at any time. */
  predicate Enabled(w: World, t: nat, choice: Choice)
  {
    && t < |w.threads|
    && match w.threads[t].pc
       case Locking => w.threads[t].process !in w.mutex
       case Waiting => w.file.None? || choice.Fail?
       case Returned(_, _) => false
       case _ => true
  }

  function To(w: World, t: nat, pc: Pc): World
    requires t < |w.threads|
  {
    w.(threads := w.threads[t := w.threads[t].(pc := pc)])
  }

  /** Leaves with a result, dropping whichever locks the thread holds. */
  function Leave(w: World, t: nat, result: Result<Payload, ()>, built: bool): World
    requires t < |w.threads|
  {
    var p := w.threads[t].process;
    To(w.(mutex := if p in w.mutex && w.mutex[p] == t then w.mutex - {p} else w.mutex,
          file := if w.file == Some(t) then None else w.file), t, Returned(result, built))
  }

  function Step(w: World, t: nat, choice: Choice): World
    requires Enabled(w, t, choice)
  {
    var th := w.threads[t];
    match th.pc
    case Start =>
      if !th.kind.Loader? then To(w, t, Waiting)
      else if th.process in w.cache then Leave(w, t, Ok(w.cache[th.process]), false)
      else To(w, t, Locking)
    case Locking => To(w.(mutex := w.mutex[th.process := t]), t, Holding)
    case Holding =>
      if th.process in w.cache then Leave(w, t, Ok(w.cache[th.process]), false) else To(w, t, Waiting)
    case Waiting =>
      if choice.Fail? then Leave(w, t, Err(()), false)
      else To(w.(file := Some(t)), t, if th.kind.GenerateOnly? then Generating else Building)
    case Building =>
      if choice.Fail? then Leave(w, t, Err(()), false)
      else if th.kind.BuildOnly? then Leave(w, t, Ok(""), false)
      else To(w, t, Generating)
    case Generating =>
      if choice.Fail? then Leave(w, t, Err(()), false)
      else if !th.kind.Loader? then Leave(w, t, Ok(choice.value), false)
      else To(w.(file := None), t, Storing(choice.value))
    case Storing(v) =>
      var cache := if th.process in w.cache then w.cache else w.cache[th.process := v];
      Leave(w.(cache := cache), t, Ok(v), true)
    case Returned(_, _) => w
  }

  // ----- the invariant

  ghost predicate FileAgrees(w: World)
  {
    forall t | 0 <= t < |w.threads| :: w.file == Some(t) <==> Working(w.threads[t].pc)
  }

  ghost predicate MutexAgrees(w: World)
  {
    && (forall t | 0 <= t < |w.threads| && w.threads[t].kind.Loader? && InCritical(w.threads[t].pc) ::
          w.threads[t].process in w.mutex && w.mutex[w.threads[t].process] == t)
    && (forall p | p in w.mutex :: && w.mutex[p] < |w.threads| && w.threads[w.mutex[p]].kind.Loader?
                                   && w.threads[w.mutex[p]].process == p && InCritical(w.threads[w.mutex[p]].pc))
  }

  /** A loader past the second look at the cache knows that it is empty. */
  predicate PastCheck(th: Thread)
  {
    th.kind.Loader? && (th.pc.Waiting? || th.pc.Building? || th.pc.Generating? || th.pc.Storing?)
  }

  predicate Loaded(th: Thread)
  {
    th.kind.Loader? && th.pc.Returned? && th.pc.result.Ok?
  }

  ghost predicate CacheAgrees(w: World)
  {
    && (forall t | 0 <= t < |w.threads| && PastCheck(w.threads[t]) :: w.threads[t].process !in w.cache)
    && (forall t | 0 <= t < |w.threads| && Loaded(w.threads[t]) ::
          w.threads[t].process in w.cache && w.cache[w.threads[t].process] == w.threads[t].pc.result.value)
  }

  predicate Built(th: Thread)
  {
    Loaded(th) && th.pc.built
  }

  ghost predicate BuiltOnce(w: World)
  {
    forall a, b | 0 <= a < b < |w.threads| ::
      !(Built(w.threads[a]) && Built(w.threads[b]) && w.threads[a].process == w.threads[b].process)
  }

  ghost predicate DirectStaysOut(w: World)
  {
    forall t | 0 <= t < |w.threads| && !w.threads[t].kind.Loader? ::
      !w.threads[t].pc.Locking? && !w.threads[t].pc.Holding? && !w.threads[t].pc.Storing?
  }

  ghost predicate Inv(w: World)
  {
    DirectStaysOut(w) && FileAgrees(w) && MutexAgrees(w) && CacheAgrees(w) && BuiltOnce(w) && (w.file.Some? ==> w.file.value < |w.threads|)
  }

  ghost predicate Fresh(w: World)
  {
    && w.cache == map[] && w.mutex == map[] && w.file == None
    && forall t | 0 <= t < |w.threads| :: w.threads[t].pc == Start
  }

  /** A step touches one thread, which keeps its kind and its process and comes closer to returning. */
  lemma {:induction false} StepIsLocal(w: World, t: nat, choice: Choice) returns (pc: Pc)
    requires Enabled(w, t, choice)
    ensures Step(w, t, choice).threads == w.threads[t := w.threads[t].(pc := pc)]
    ensures Remaining(pc) < Remaining(w.threads[t].pc)
  {
    pc := Step(w, t, choice).threads[t].pc;
  }

  lemma {:induction false} StepKeepsFile(w: World, t: nat, choice: Choice)
    requires Inv(w) && Enabled(w, t, choice)
    ensures FileAgrees(Step(w, t, choice)) && DirectStaysOut(Step(w, t, choice))
    ensures var v := Step(w, t, choice); v.file.Some? ==> v.file.value < |v.threads|
  {
    hide CacheAgrees, MutexAgrees, BuiltOnce;
    assert w.file == Some(t) <==> Working(w.threads[t].pc);
    var pc := StepIsLocal(w, t, choice);
  }

  lemma {:induction false} StepKeepsMutex(w: World, t: nat, choice: Choice)
    requires Inv(w) && Enabled(w, t, choice)
    ensures MutexAgrees(Step(w, t, choice))
  {
    var pc := MutexFollows(w, t, choice);
    MutexStillAgrees(w, Step(w, t, choice), t, pc);
  }

  /** The mutex of a loader's process is taken and given up with its critical section. */
  ghost predicate Follows(w: World, v: World, t: nat, pc: Pc)
    requires t < |w.threads|
  {
    var th := w.threads[t];
    && v.threads == w.threads[t := th.(pc := pc)]
    && (th.kind.Loader? && InCritical(pc) ==>
          v.mutex == w.mutex[th.process := t] && (th.process in w.mutex ==> w.mutex[th.process] == t))
    && (th.kind.Loader? && !InCritical(pc) && InCritical(th.pc) ==>
          v.mutex == w.mutex - {th.process} && th.process in w.mutex && w.mutex[th.process] == t)
    && (!th.kind.Loader? || (!InCritical(pc) && !InCritical(th.pc)) ==> v.mutex == w.mutex)
  }

  lemma {:induction false} MutexStillAgrees(w: World, v: World, t: nat, pc: Pc)
    requires t < |w.threads| && MutexAgrees(w) && Follows(w, v, t, pc)
    ensures MutexAgrees(v)
  {
    assert forall u | 0 <= u < |w.threads| && u != t :: v.threads[u] == w.threads[u];
  }

  lemma {:induction false} MutexFollows(w: World, t: nat, choice: Choice) returns (pc: Pc)
    requires Inv(w) && Enabled(w, t, choice)
    ensures Follows(w, Step(w, t, choice), t, pc)
  {
    hide CacheAgrees, FileAgrees, BuiltOnce;
    pc := StepIsLocal(w, t, choice);
    var th := w.threads[t];
    assert Step(w, t, choice).threads[t].pc == pc;
    if InCritical(th.pc) && th.kind.Loader? {
      assert th.process in w.mutex && w.mutex[th.process] == t;
      assert w.mutex[th.process := t] == w.mutex;
    }
    assert th.process in w.mutex && w.mutex[th.process] == t ==> th.kind.Loader? && InCritical(th.pc);
  }

  lemma {:induction false} StepKeepsCache(w: World, t: nat, choice: Choice)
    requires Inv(w) && Enabled(w, t, choice)
    ensures CacheAgrees(Step(w, t, choice))
  {
    hide FileAgrees, BuiltOnce;
    var th := w.threads[t];
    var pc := StepIsLocal(w, t, choice);
    if th.pc.Storing? {
      assert PastCheck(th);
      forall u | 0 <= u < |w.threads| && u != t && PastCheck(w.threads[u]) ensures w.threads[u].process != th.process {
        assert w.mutex[th.process] == t;
      }
    }
  }

  lemma {:induction false} StepKeepsBuilt(w: World, t: nat, choice: Choice)
    requires Inv(w) && Enabled(w, t, choice)
    ensures BuiltOnce(Step(w, t, choice))
  {
    hide FileAgrees, MutexAgrees;
    var th := w.threads[t];
    var pc := StepIsLocal(w, t, choice);
    if th.pc.Storing? {
      assert PastCheck(th);
      forall u | 0 <= u < |w.threads| && Built(w.threads[u]) ensures w.threads[u].process != th.process {
      }
    } else {
      assert Step(w, t, choice).threads[t].pc == pc;
      assert !Built(th.(pc := pc));
    }
  }

  lemma {:induction false} StepKeepsInv(w: World, t: nat, choice: Choice)
    requires Inv(w) && Enabled(w, t, choice)
    ensures Inv(Step(w, t, choice))
  {
    StepKeepsFile(w, t, choice);
    StepKeepsMutex(w, t, choice);
    StepKeepsCache(w, t, choice);
    StepKeepsBuilt(w, t, choice);
  }

  ghost predicate IsRun(worlds: seq<World>, who: seq<nat>, choices: seq<Choice>)
  {
    && |worlds| == |who| + 1 && |choices| == |who| && Fresh(worlds[0])
    && forall i | 0 <= i < |who| :: Enabled(worlds[i], who[i], choices[i]) && worlds[i + 1] == Step(worlds[i], who[i], choices[i])
  }

  lemma {:induction false} RunTakesSteps(worlds: seq<World>, who: seq<nat>, choices: seq<Choice>, i: nat)
    requires IsRun(worlds, who, choices) && i < |who|
    ensures Enabled(worlds[i], who[i], choices[i]) && worlds[i + 1] == Step(worlds[i], who[i], choices[i])
  {
    hide Step, Enabled;
  }

  lemma {:induction false} RunKeepsInv(worlds: seq<World>, who: seq<nat>, choices: seq<Choice>, n: nat)
    requires IsRun(worlds, who, choices) && n < |worlds|
    ensures Inv(worlds[n])
  {
    if n > 0 {
      RunKeepsInv(worlds, who, choices, n - 1);
      StepKeepsInv(worlds[n - 1], who[n - 1], choices[n - 1]);
    }
  }

  /** Single flight.  Over all interleavings of threads and processes at most one
      is inside build or generate, within a process at most one load succeeds by
      building, and every successful load returns the cached payload. */
  lemma {:induction false} SingleFlightHolds(worlds: seq<World>, who: seq<nat>, choices: seq<Choice>, n: nat, a: nat, b: nat)
    requires IsRun(worlds, who, choices) && n < |worlds| && a < |worlds[n].threads| && b < |worlds[n].threads|
    ensures var w := worlds[n];
            && (Working(w.threads[a].pc) && Working(w.threads[b].pc) ==> a == b)
            && (w.threads[a].process == w.threads[b].process ==>
                  && (Built(w.threads[a]) && Built(w.threads[b]) ==> a == b)
                  && (Loaded(w.threads[a]) && Loaded(w.threads[b]) ==>
                        && w.threads[a].process in w.cache
                        && w.threads[a].pc.result == w.threads[b].pc.result == Ok(w.cache[w.threads[a].process])))
  {
    RunKeepsInv(worlds, who, choices, n);
  }

  /** A cached payload stays. */
  lemma {:induction false} CacheIsPermanent(worlds: seq<World>, who: seq<nat>, choices: seq<Choice>, m: nat, n: nat, p: nat)
    requires IsRun(worlds, who, choices) && m <= n < |worlds| && p in worlds[m].cache
    ensures p in worlds[n].cache && worlds[n].cache[p] == worlds[m].cache[p]
  {
    if m < n {
      CacheIsPermanent(worlds, who, choices, m, n - 1, p);
      assert worlds[n] == Step(worlds[n - 1], who[n - 1], choices[n - 1]);
    }
  }

  /** A step that ends in failure caches nothing and lets go of both locks. */
  lemma {:induction false} FailureReleases(w: World, t: nat, choice: Choice)
    requires Inv(w) && Enabled(w, t, choice)
    requires Step(w, t, choice).threads[t].pc == Returned(Err(()), false)
    ensures var v := Step(w, t, choice);
            && v.cache == w.cache && v.file != Some(t)
            && (forall p | p in v.mutex :: v.mutex[p] != t)
            && (Working(w.threads[t].pc) ==> v.file == None)
            && (w.threads[t].kind.Loader? && w.threads[t].pc != Start ==> w.threads[t].process !in v.mutex)
  {
  }

  /** No deadlock.  In every world of a run, unless all threads have returned,
      some thread can take a successful step. */
  lemma {:induction false} NeverStuck(worlds: seq<World>, who: seq<nat>, choices: seq<Choice>, n: nat, t: nat, value: Payload)
    returns (u: nat)
    requires IsRun(worlds, who, choices) && n < |worlds| && t < |worlds[n].threads|
    requires !worlds[n].threads[t].pc.Returned?
    ensures Enabled(worlds[n], u, Succeed(value))
  {
    RunKeepsInv(worlds, who, choices, n);
    var w := worlds[n];
    u := t;
    if w.threads[u].pc.Locking? && !Enabled(w, u, Succeed(value)) {
      u := w.mutex[w.threads[u].process];
    }
    if w.threads[u].pc.Waiting? && !Enabled(w, u, Succeed(value)) {
      u := w.file.value;
    }
  }

  // ----- every run ends

  /** The steps a thread can still take, at most. */
  function Remaining(pc: Pc): nat
  {
    match pc
    case Start => 7
    case Locking => 6
    case Holding => 5
    case Waiting => 4
    case Building => 3
    case Generating => 2
    case Storing(_) => 1
    case Returned(_, _) => 0
  }

  function TotalRemaining(threads: seq<Thread>): nat
  {
    if threads == [] then 0 else Remaining(threads[0].pc) + TotalRemaining(threads[1..])
  }

  lemma {:induction false} TotalAfterUpdate(threads: seq<Thread>, t: nat, th: Thread)
    requires t < |threads|
    ensures TotalRemaining(threads[t := th]) == TotalRemaining(threads) - Remaining(threads[t].pc) + Remaining(th.pc)
  {
    if t > 0 {
      TotalAfterUpdate(threads[1..], t - 1, th);
      assert threads[t := th][1..] == threads[1..][t - 1 := th];
    } else {
      assert threads[t := th][1..] == threads[1..];
    }
  }

  lemma {:induction false} TotalOfFresh(threads: seq<Thread>)
    requires forall t | 0 <= t < |threads| :: threads[t].pc == Start
    ensures TotalRemaining(threads) == 7 * |threads|
  {
    if threads != [] {
      TotalOfFresh(threads[1..]);
    }
  }

  lemma {:induction false} StepSpends(w: World, t: nat, choice: Choice)
    requires Enabled(w, t, choice)
    ensures var v := Step(w, t, choice);
            |v.threads| == |w.threads| && TotalRemaining(v.threads) < TotalRemaining(w.threads)
  {
    hide Step;
    assert t < |w.threads|;
    var pc := StepIsLocal(w, t, choice);
    TotalAfterUpdate(w.threads, t, w.threads[t].(pc := pc));
  }

  lemma {:induction false} RunSpends(worlds: seq<World>, who: seq<nat>, choices: seq<Choice>, n: nat)
    requires IsRun(worlds, who, choices) && n < |worlds|
    ensures |worlds[n].threads| == |worlds[0].threads|
    ensures TotalRemaining(worlds[n].threads) + n <= 7 * |worlds[0].threads|
  {
    if n == 0 {
      TotalOfFresh(worlds[0].threads);
    } else {
      RunTakesSteps(worlds, who, choices, n - 1);
      hide IsRun, Step, Enabled, TotalRemaining;
      RunSpends(worlds, who, choices, n - 1);
      var w, v := worlds[n - 1], worlds[n];
      assert v == Step(w, who[n - 1], choices[n - 1]);
      StepSpends(w, who[n - 1], choices[n - 1]);
    }
  }

  /** Every run is finite, and one that cannot be extended has let every caller
      return: no lock is kept and no caller waits for ever. */
  lemma {:induction false} EveryCallReturns(worlds: seq<World>, who: seq<nat>, choices: seq<Choice>, value: Payload)
    requires IsRun(worlds, who, choices)
    ensures |who| <= 7 * |worlds[0].threads|
    ensures var w := worlds[|who|];
            (forall t: nat :: !Enabled(w, t, Succeed(value))) ==>
              && (forall t | 0 <= t < |w.threads| :: w.threads[t].pc.Returned?)
              && w.file == None && w.mutex == map[]
  {
    RunSpends(worlds, who, choices, |who|);
    RunKeepsInv(worlds, who, choices, |who|);
    var w := worlds[|who|];
    if forall t: nat :: !Enabled(w, t, Succeed(value)) {
      forall t | 0 <= t < |w.threads| ensures w.threads[t].pc.Returned? {
        if !w.threads[t].pc.Returned? {
          var u := NeverStuck(worlds, who, choices, |who|, t, value);
        }
      }
      assert w.mutex.Keys == {};
    }
  }

  /** Whoever comes after a cached load gets the payload from the cache in one step, without any lock. */
  lemma {:induction false} CachedLoadIsImmediate(w: World, t: nat, choice: Choice)
    requires t < |w.threads| && w.threads[t].kind.Loader? && w.threads[t].pc == Start && w.threads[t].process in w.cache
    requires w.threads[t].process in w.mutex ==> w.mutex[w.threads[t].process] != t
    requires w.file != Some(t)
    ensures Enabled(w, t, choice)
    ensures Step(w, t, choice) == To(w, t, Returned(Ok(w.cache[w.threads[t].process]), false))
  {
  }
}
