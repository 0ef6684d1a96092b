/**
 Single writes to the configuration rows, and when every row that is referred to
 exists after each of them.
 */
module ConfigWrites {
  import opened Collections
  import opened ImportSanitize
  import opened GraphqlLiteral

  datatype Key = Key(collection: Collection, id: string)

  type Rows = map<Key, Fields>

  datatype Write =
    | Put(key: Key, add: Fields, update: Fields)
    | Drop(key: Key)

  /** An upsert adds the create form or lays the update form over the row. */
  function Perform(rows: Rows, w: Write): Rows
  {
    match w
    case Put(key, add, update) => rows[key := if key in rows then rows[key] + update else add]
    case Drop(key) => rows - {key}
  }

  function Run(rows: Rows, writes: seq<Write>): Rows
  {
    if writes == [] then rows else Perform(Run(rows, writes[..|writes| - 1]), writes[|writes| - 1])
  }

  lemma {:induction false} RunOne(rows: Rows, writes: seq<Write>, w: Write)
    ensures Run(rows, writes + [w]) == Perform(Run(rows, writes), w)
  {
    assert (writes + [w])[..|writes|] == writes;
  }

  lemma {:induction false} RunTwo(rows: Rows, a: seq<Write>, b: seq<Write>)
    ensures Run(rows, a + b) == Run(Run(rows, a), b)
  {
    if b == [] {
      assert a + b == a;
    } else {
      var n := |b| - 1;
      RunTwo(rows, a, b[..n]);
      assert a + b == (a + b[..n]) + [b[n]];
      RunOne(rows, a + b[..n], b[n]);
    }
  }

  // ----- references

  /** The keys a value of a field refers to: any relation. */
  type References = (Collection, string, Json) -> set<Key>

  function Links(refs: References, key: Key, row: Fields): set<Key>
  {
    set f, t | f in row.Keys && t in refs(key.collection, f, row[f]) :: t
  }

  /** No dangling reference. */
  ghost predicate Closed(refs: References, rows: Rows)
  {
    forall k, t | k in rows && t in Links(refs, k, rows[k]) :: t in rows
  }

  /** References point to earlier collections of the apply order, or outside it. */
  ghost predicate RefersEarlier(refs: References)
  {
    forall c, f, v, t | t in refs(c, f, v) :: Rank(t.collection) < Rank(c) || t.collection.WorkspaceRoot?
  }

  lemma {:induction false} LinksAreEarlier(refs: References, key: Key, row: Fields, t: Key)
    requires RefersEarlier(refs) && t in Links(refs, key, row)
    ensures Rank(t.collection) < Rank(key.collection) || t.collection.WorkspaceRoot?
  {
    var f :| f in row.Keys && t in refs(key.collection, f, row[f]);
  }

  // ----- orderly batches of writes

  ghost predicate Ascending(puts: seq<Write>)
  {
    && (forall i | 0 <= i < |puts| :: puts[i].Put? && !puts[i].key.collection.WorkspaceRoot?)
    && (forall i, j | 0 <= i < j < |puts| :: Rank(puts[i].key.collection) <= Rank(puts[j].key.collection))
  }

  ghost predicate Descending(drops: seq<Write>)
  {
    && (forall i | 0 <= i < |drops| :: drops[i].Drop? && !drops[i].key.collection.WorkspaceRoot?)
    && (forall i, j | 0 <= i < j < |drops| :: Rank(drops[j].key.collection) <= Rank(drops[i].key.collection))
  }

  predicate Touches(writes: seq<Write>, k: Key)
  {
    exists i | 0 <= i < |writes| :: writes[i].key == k
  }

  /** Puts keep every row, and change only the rows they name. */
  lemma {:induction false} PutsKeep(rows: Rows, puts: seq<Write>, k: Key)
    requires forall i | 0 <= i < |puts| :: puts[i].Put?
    ensures k in Run(rows, puts) <==> k in rows || Touches(puts, k)
    ensures !Touches(puts, k) && k in rows ==> Run(rows, puts)[k] == rows[k]
  {
    if puts != [] {
      var n := |puts| - 1;
      PutsKeep(rows, puts[..n], k);
      assert Touches(puts, k) <==> Touches(puts[..n], k) || puts[n].key == k by {
        if i :| 0 <= i < |puts| && puts[i].key == k && i < n {
          assert puts[..n][i].key == k;
        }
        if i :| 0 <= i < n && puts[..n][i].key == k {
          assert puts[i].key == k;
        }
      }
    }
  }

  lemma {:induction false} DropsRemove(rows: Rows, drops: seq<Write>, k: Key)
    requires forall i | 0 <= i < |drops| :: drops[i].Drop?
    ensures k in Run(rows, drops) <==> k in rows && !Touches(drops, k)
    ensures k in Run(rows, drops) ==> Run(rows, drops)[k] == rows[k]
  {
    if drops != [] {
      var n := |drops| - 1;
      DropsRemove(rows, drops[..n], k);
      assert Touches(drops, k) <==> Touches(drops[..n], k) || drops[n].key == k by {
        if i :| 0 <= i < |drops| && drops[i].key == k && i < n {
          assert drops[..n][i].key == k;
        }
        if i :| 0 <= i < n && drops[..n][i].key == k {
          assert drops[i].key == k;
        }
      }
    }
  }

  /** The row put by write `i` does not last: it is put again, or dropped. */
  predicate Passing(puts: seq<Write>, drops: seq<Write>, i: nat)
    requires i < |puts|
  {
    Touches(puts[i + 1..], puts[i].key) || Touches(drops, puts[i].key)
  }

  /** What row `k` refers to is there. */
  ghost predicate LinksMet(refs: References, rows: Rows, k: Key)
  {
    k in rows && forall t | t in Links(refs, k, rows[k]) :: t in rows
  }

  /** Rows that do not last have what they refer to when they are put. */
  ghost predicate PassingMet(refs: References, rows: Rows, puts: seq<Write>, drops: seq<Write>)
  {
    forall i {:trigger Passing(puts, drops, i)} | 0 <= i < |puts| && Passing(puts, drops, i) ::
      LinksMet(refs, Run(rows, puts[..i + 1]), puts[i].key)
  }

  /** The last write to `k` among the first `n`, which gave it its contents there. */
  lemma {:induction false} LastPut(rows: Rows, puts: seq<Write>, n: nat, k: Key) returns (i: nat)
    requires n <= |puts| && Touches(puts[..n], k) && forall i | 0 <= i < |puts| :: puts[i].Put?
    ensures i < n && puts[i].key == k
    ensures var put, now := Run(rows, puts[..i + 1]), Run(rows, puts[..n]);
            put.Keys <= now.Keys && k in put && now[k] == put[k]
    ensures forall j | i < j < n :: puts[j].key != k
  {
    hide Run;
    if puts[n - 1].key == k {
      i := n - 1;
      PutsKeep(rows, puts[..n], k);
    } else {
      var m := n - 1;
      var j :| 0 <= j < n && puts[..n][j].key == k;
      assert puts[..m][j].key == k;
      i := LastPut(rows, puts, m, k);
      OtherPutKeeps(rows, puts, m, k);
    }
  }

  lemma {:induction false} OtherPutKeeps(rows: Rows, puts: seq<Write>, m: nat, k: Key)
    requires m < |puts| && puts[m].Put? && puts[m].key != k && k in Run(rows, puts[..m])
    ensures var put, now := Run(rows, puts[..m]), Run(rows, puts[..m + 1]);
            put.Keys <= now.Keys && k in now && now[k] == put[k]
  {
    assert puts[..m + 1] == puts[..m] + [puts[m]];
    RunOne(rows, puts[..m], puts[m]);
  }

  /** A row that lasts has its final contents. */
  lemma {:induction false} PutIsFinal(rows: Rows, puts: seq<Write>, n: nat, k: Key)
    requires n <= |puts| && (forall i | 0 <= i < |puts| :: puts[i].Put?)
    requires Touches(puts[..n], k) && !Touches(puts[n..], k)
    ensures k in Run(rows, puts) && k in Run(rows, puts[..n]) && Run(rows, puts)[k] == Run(rows, puts[..n])[k]
  {
    var a, b := puts[..n], puts[n..];
    assert puts == a + b;
    RunTwo(rows, a, b);
    PutsKeep(rows, a, k);
    PutsKeep(Run(rows, a), b, k);
  }

  /** Where the puts alone stand: the target of a reference of a put row is there. */
  lemma {:induction false} PutPrefixClosed(refs: References, rows: Rows, puts: seq<Write>, drops: seq<Write>, n: nat)
    requires RefersEarlier(refs) && Ascending(puts) && Descending(drops) && PassingMet(refs, rows, puts, drops)
    requires Closed(refs, rows) && Closed(refs, Run(rows, puts + drops)) && n <= |puts|
    ensures Closed(refs, Run(rows, puts[..n]))
  {
    var now := Run(rows, puts[..n]);
    forall k, t | k in now && t in Links(refs, k, now[k]) ensures t in now {
      PutsKeep(rows, puts[..n], k);
      PutsKeep(rows, puts[..n], t);
      if Touches(puts[..n], k) {
        var i := LastPut(rows, puts, n, k);
        if Passing(puts, drops, i) {
          assert LinksMet(refs, Run(rows, puts[..i + 1]), puts[i].key);
        } else {
          LastingIsFinal(puts, drops, i, n);
          PutIsFinal(rows, puts, n, k);
          TargetOfPut(refs, rows, puts, drops, n, k, t);
        }
      }
    }
  }

  lemma {:induction false} LastingIsFinal(puts: seq<Write>, drops: seq<Write>, i: nat, n: nat)
    requires i < n <= |puts| && !Passing(puts, drops, i)
    ensures !Touches(puts[n..], puts[i].key)
  {
    var rest := puts[i + 1..];
    forall j | 0 <= j < |puts[n..]| ensures puts[n..][j].key != puts[i].key {
      assert rest[n - i - 1 + j] == puts[n..][j];
    }
  }

  lemma {:induction false} TargetOfPut(refs: References, rows: Rows, puts: seq<Write>, drops: seq<Write>, n: nat, k: Key, t: Key)
    requires RefersEarlier(refs) && Ascending(puts) && Descending(drops) && !Touches(drops, k)
    requires Closed(refs, Run(rows, puts + drops)) && n <= |puts|
    requires Touches(puts[..n], k) && k in Run(rows, puts) && t in Links(refs, k, Run(rows, puts)[k])
    ensures t in rows || Touches(puts[..n], t)
  {
    RunTwo(rows, puts, drops);
    var i :| 0 <= i < n && puts[..n][i].key == k;
    DropsRemove(Run(rows, puts), drops, k);
    DropsRemove(Run(rows, puts), drops, t);
    PutsKeep(rows, puts, t);
    assert t in Run(rows, puts + drops);
    if t !in rows {
      var j :| 0 <= j < |puts| && puts[j].key == t;
      LinksAreEarlier(refs, k, Run(rows, puts)[k], t);
      assert Rank(puts[j].key.collection) < Rank(puts[i].key.collection);
      assert j < i;
      assert puts[..n][j].key == t;
    }
  }

  lemma {:induction false} DropPrefixClosed(refs: References, rows: Rows, puts: seq<Write>, drops: seq<Write>, n: nat)
    requires RefersEarlier(refs) && Ascending(puts) && Descending(drops) && PassingMet(refs, rows, puts, drops)
    requires Closed(refs, rows) && Closed(refs, Run(rows, puts + drops)) && n <= |drops|
    ensures Closed(refs, Run(rows, puts + drops[..n]))
  {
    var applied := Run(rows, puts);
    RunTwo(rows, puts, drops[..n]);
    RunTwo(rows, puts, drops);
    PutPrefixClosed(refs, rows, puts, drops, |puts|);
    assert puts[..|puts|] == puts;
    var now := Run(applied, drops[..n]);
    forall k, t | k in now && t in Links(refs, k, now[k]) ensures t in now {
      DropsRemove(applied, drops[..n], k);
      DropsRemove(applied, drops[..n], t);
      DropsRemove(applied, drops, k);
      DropsRemove(applied, drops, t);
      assert t in applied;
      LinksAreEarlier(refs, k, now[k], t);
      if Touches(drops[..n], t) && Touches(drops, k) {
        LaterIsDroppedFirst(drops, n, k, t);
      }
    }
  }

  lemma {:induction false} LaterIsDroppedFirst(drops: seq<Write>, n: nat, k: Key, t: Key)
    requires Descending(drops) && n <= |drops| && Touches(drops[..n], t) && Touches(drops, k)
    requires Rank(t.collection) < Rank(k.collection) || t.collection.WorkspaceRoot?
    ensures Touches(drops[..n], k)
  {
    var i :| 0 <= i < n && drops[..n][i].key == t;
    var j :| 0 <= j < |drops| && drops[j].key == k;
    assert drops[i].key == t;
    assert j < i;
    assert drops[..n][j].key == k;
  }

  /** Whatever rows there are and whatever the relation, puts in ascending order
      followed by drops in descending order leave no dangling reference after any
      single write, exactly when there is none before the first and after the
      last, and rows that do not last find what they refer to. */
  lemma {:induction false} ClosedAfterEveryWrite(refs: References, rows: Rows, puts: seq<Write>, drops: seq<Write>)
    requires RefersEarlier(refs) && Ascending(puts) && Descending(drops)
    ensures Closed(refs, rows) && Closed(refs, Run(rows, puts + drops)) && PassingMet(refs, rows, puts, drops) <==>
            forall n | 0 <= n <= |puts + drops| :: Closed(refs, Run(rows, (puts + drops)[..n]))
  {
    hide Closed, Ascending, Descending, PassingMet, RefersEarlier, Run;
    if Closed(refs, rows) && Closed(refs, Run(rows, puts + drops)) && PassingMet(refs, rows, puts, drops) {
      StaysClosed(refs, rows, puts, drops);
    }
    if forall n | 0 <= n <= |puts + drops| :: Closed(refs, Run(rows, (puts + drops)[..n])) {
      ClosedMeets(refs, rows, puts, drops);
    }
  }

  lemma {:induction false} StaysClosed(refs: References, rows: Rows, puts: seq<Write>, drops: seq<Write>)
    requires RefersEarlier(refs) && Ascending(puts) && Descending(drops) && PassingMet(refs, rows, puts, drops)
    requires Closed(refs, rows) && Closed(refs, Run(rows, puts + drops))
    ensures forall n | 0 <= n <= |puts + drops| :: Closed(refs, Run(rows, (puts + drops)[..n]))
  {
    hide Closed, Ascending, Descending, PassingMet, RefersEarlier;
    var all := puts + drops;
    forall n | 0 <= n <= |all| ensures Closed(refs, Run(rows, all[..n])) {
      if n <= |puts| {
        PutPrefixClosed(refs, rows, puts, drops, n);
        assert all[..n] == puts[..n];
      } else {
        DropPrefixClosed(refs, rows, puts, drops, n - |puts|);
        assert all[..n] == puts + drops[..n - |puts|];
      }
    }
  }

  lemma {:induction false} ClosedMeets(refs: References, rows: Rows, puts: seq<Write>, drops: seq<Write>)
    requires Ascending(puts) && forall n | 0 <= n <= |puts + drops| :: Closed(refs, Run(rows, (puts + drops)[..n]))
    ensures Closed(refs, rows) && Closed(refs, Run(rows, puts + drops)) && PassingMet(refs, rows, puts, drops)
  {
    hide Run, Closed, LinksMet;
    var all := puts + drops;
    assert all[..0] == [] && all[..|all|] == all;
    assert Closed(refs, Run(rows, all[..0])) && Closed(refs, Run(rows, all[..|all|]));
    RunNone(rows);
    forall i | 0 <= i < |puts| && Passing(puts, drops, i) ensures LinksMet(refs, Run(rows, puts[..i + 1]), puts[i].key) {
      var m := i + 1;
      assert all[..m] == puts[..m];
      assert Closed(refs, Run(rows, all[..m]));
      PutIsMet(refs, rows, puts, i);
    }
  }

  lemma {:induction false} RunNone(rows: Rows)
    ensures Run(rows, []) == rows
  {
  }

  lemma {:induction false} PutIsMet(refs: References, rows: Rows, puts: seq<Write>, i: nat)
    requires i < |puts| && puts[i].Put? && Closed(refs, Run(rows, puts[..i + 1]))
    ensures LinksMet(refs, Run(rows, puts[..i + 1]), puts[i].key)
  {
    assert puts[..i + 1] == puts[..i] + [puts[i]];
    RunOne(rows, puts[..i], puts[i]);
  }

  // ----- deleting in another order

  /** Deletions in any order leave no dangling reference after any of them exactly
      when whatever refers to a deleted row is deleted no later. */
  lemma {:induction false} PruneClosed(refs: References, rows: Rows, drops: seq<Write>)
    requires Closed(refs, rows) && forall i | 0 <= i < |drops| :: drops[i].Drop?
    ensures (forall n | 0 <= n <= |drops| :: Closed(refs, Run(rows, drops[..n]))) <==>
            (forall i, k | 0 <= i < |drops| && k in rows && drops[i].key in Links(refs, k, rows[k]) ::
               Touches(drops[..i + 1], k))
  {
    if forall n | 0 <= n <= |drops| :: Closed(refs, Run(rows, drops[..n])) {
      forall i, k | 0 <= i < |drops| && k in rows && drops[i].key in Links(refs, k, rows[k])
        ensures Touches(drops[..i + 1], k)
      {
        var t, m := drops[i].key, i + 1;
        assert Closed(refs, Run(rows, drops[..m]));
        DropsRemove(rows, drops[..m], k);
        DropsRemove(rows, drops[..m], t);
        assert drops[..m][i].key == t;
      }
    }
    if forall i, k | 0 <= i < |drops| && k in rows && drops[i].key in Links(refs, k, rows[k]) :: Touches(drops[..i + 1], k) {
      forall n | 0 <= n <= |drops| ensures Closed(refs, Run(rows, drops[..n])) {
        PrunedPrefixClosed(refs, rows, drops, n);
      }
    }
  }

  lemma {:induction false} TouchedEarlier(writes: seq<Write>, m: nat, n: nat, k: Key)
    requires m <= n <= |writes| && Touches(writes[..m], k)
    ensures Touches(writes[..n], k)
  {
    var j :| 0 <= j < m && writes[..m][j].key == k;
    assert writes[..n][j].key == k;
  }

  lemma {:induction false} PrunedPrefixClosed(refs: References, rows: Rows, drops: seq<Write>, n: nat)
    requires Closed(refs, rows) && n <= |drops| && forall i | 0 <= i < |drops| :: drops[i].Drop?
    requires forall i, k | 0 <= i < |drops| && k in rows && drops[i].key in Links(refs, k, rows[k]) :: Touches(drops[..i + 1], k)
    ensures Closed(refs, Run(rows, drops[..n]))
  {
    var now := Run(rows, drops[..n]);
    forall k, t | k in now && t in Links(refs, k, now[k]) ensures t in now {
      DropsRemove(rows, drops[..n], k);
      DropsRemove(rows, drops[..n], t);
      if Touches(drops[..n], t) {
        var i :| 0 <= i < n && drops[..n][i].key == t;
        assert drops[i].key == t;
        TouchedEarlier(drops, i + 1, n, k);
      }
    }
  }

  /** Deleting in apply order stays closed only when nothing that is deleted is referred to. */
  lemma {:induction false} ForwardPruneClosed(refs: References, rows: Rows, drops: seq<Write>)
    requires RefersEarlier(refs) && Closed(refs, rows)
    requires forall i | 0 <= i < |drops| :: drops[i].Drop? && !drops[i].key.collection.WorkspaceRoot?
    requires forall i, j | 0 <= i < j < |drops| :: Rank(drops[i].key.collection) <= Rank(drops[j].key.collection)
    ensures (forall n | 0 <= n <= |drops| :: Closed(refs, Run(rows, drops[..n]))) <==>
            (forall i, k | 0 <= i < |drops| && k in rows :: drops[i].key !in Links(refs, k, rows[k]))
  {
    PruneClosed(refs, rows, drops);
    forall i, k | 0 <= i < |drops| && k in rows && drops[i].key in Links(refs, k, rows[k])
      ensures !Touches(drops[..i + 1], k)
    {
      LinksAreEarlier(refs, k, rows[k], drops[i].key);
      var front := drops[..i + 1];
      forall j | 0 <= j < |front| ensures front[j].key != k {
        assert Rank(drops[j].key.collection) <= Rank(drops[i].key.collection);
      }
    }
  }

  /** Agent behaviors name their backend. */
  function BehaviorBackend(c: Collection, f: string, v: Json): set<Key>
  {
    if c.AgentBehavior? && f == "backend_id" && v.Str? then {Key(InferenceBackend, v.s)} else {}
  }

  /** One backend and the behavior that names it, both deleted: the order decides. */
  lemma {:induction false} ForwardPruneDangles()
    ensures var b, a := Key(InferenceBackend, "b"), Key(AgentBehavior, "a");
            var rows: Rows := map[b := map[], a := map["backend_id" := Str("b")]];
            && RefersEarlier(BehaviorBackend) && Closed(BehaviorBackend, rows)
            && Closed(BehaviorBackend, Run(rows, [Drop(b), Drop(a)])) && !Closed(BehaviorBackend, Run(rows, [Drop(b)]))
  {
    var b, a := Key(InferenceBackend, "b"), Key(AgentBehavior, "a");
    var rows: Rows := map[b := map[], a := map["backend_id" := Str("b")]];
    RunOne(rows, [], Drop(b));
    RunOne(rows, [Drop(b)], Drop(a));
    assert [] + [Drop(b)] == [Drop(b)] && [Drop(b)] + [Drop(a)] == [Drop(b), Drop(a)];
    assert Run(rows, [Drop(b)]) == map[a := rows[a]];
    assert "backend_id" in rows[a].Keys && b in BehaviorBackend(a.collection, "backend_id", rows[a]["backend_id"]);
    assert b in Links(BehaviorBackend, a, rows[a]);
    assert Run(rows, [Drop(b), Drop(a)]) == map[];
  }
}
