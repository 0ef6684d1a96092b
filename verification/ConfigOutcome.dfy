/**
 What a completed apply run leaves: every selected document in its place, every
 planned deletion gone, everything else as it was.
 */
module ConfigOutcome {
  import opened Prelude
  import opened Collections
  import opened ImportSanitize
  import opened ConfigWrites
  import opened ConfigApply

  /** The one put of a key decides its row. */
  lemma {:induction false} SinglePut(rows: Rows, puts: seq<Write>, m: nat)
    requires m < |puts| && (forall i | 0 <= i < |puts| :: puts[i].Put?)
    requires forall i | 0 <= i < |puts| && i != m :: puts[i].key != puts[m].key
    ensures var k := puts[m].key;
            && k in Run(rows, puts)
            && Run(rows, puts)[k] == if k in rows then rows[k] + puts[m].update else puts[m].add
  {
    var k, front, rest := puts[m].key, puts[..m], puts[m + 1..];
    assert puts == (front + [puts[m]]) + rest;
    RunTwo(rows, front + [puts[m]], rest);
    RunOne(rows, front, puts[m]);
    assert !Touches(front, k) by {
      forall i | 0 <= i < |front| ensures front[i].key != k { assert front[i] == puts[i]; }
    }
    assert !Touches(rest, k) by {
      forall i | 0 <= i < |rest| ensures rest[i].key != k { assert rest[i] == puts[m + 1 + i]; }
    }
    PutsKeep(rows, front, k);
    PutsKeep(Run(rows, front + [puts[m]]), rest, k);
  }

  /** A prepared plan puts every selected document. */
  lemma {:induction false} PutIsPlanned(plan: Plan, order: seq<Collection>, now: string, n: nat, i: nat) returns (m: nat)
    requires Prepared(plan, order, now) && n < |order| && i < |CollectionPuts(plan, order[n], now).value|
    ensures m < |Puts(plan, order, now)| && Puts(plan, order, now)[m] == CollectionPuts(plan, order[n], now).value[i]
  {
    hide CollectionPuts;
    if n == 0 {
      m := i;
    } else {
      assert forall k | 0 <= k < |order| - 1 :: order[1..][k] == order[k + 1];
      var rest := PutIsPlanned(plan, order[1..], now, n - 1, i);
      m := |CollectionPuts(plan, order[0], now).value| + rest;
    }
  }

  /** The puts of a collection are its own block; two with one key lie in it. */
  lemma {:induction false} PutsOfKey(plan: Plan, order: seq<Collection>, now: string, m: nat) returns (n: nat, i: nat)
    requires Prepared(plan, order, now) && m < |Puts(plan, order, now)|
    ensures n < |order| && i < |CollectionPuts(plan, order[n], now).value|
    ensures Puts(plan, order, now)[m] == CollectionPuts(plan, order[n], now).value[i]
    ensures Puts(plan, order, now)[m].Put? && Puts(plan, order, now)[m].key.collection == order[n]
  {
    hide CollectionPuts;
    var head := CollectionPuts(plan, order[0], now).value;
    if m < |head| {
      n, i := 0, m;
      PutsOfOne(plan, order[0], now, m);
    } else {
      assert forall k | 0 <= k < |order| - 1 :: order[1..][k] == order[k + 1];
      n, i := PutsOfKey(plan, order[1..], now, m - |head|);
      n := n + 1;
    }
  }

  ghost predicate KeysOnce(puts: seq<Write>)
  {
    forall i, j | 0 <= i < j < |puts| :: puts[i].key != puts[j].key
  }

  /** The row a document is written to. */
  function KeyOf(c: Collection, doc: Fields): Key
    requires Writable(c, doc)
  {
    Key(c, UniqueValue(c, doc).value)
  }

  /** A selected document that is not deleted again ends up in the row of its id: over
      an existing row in its update form, otherwise in its create form. */
  lemma {:induction false} DocumentIsApplied(plan: Plan, rows: Rows, now: string, n: nat, i: nat)
    requires Prepared(plan, APPLY_ORDER, now) && n < |APPLY_ORDER| && KeysOnce(PlannedPuts(plan, now))
    requires i < |CollectionPuts(plan, APPLY_ORDER[n], now).value|
    requires !Touches(PlannedDrops(plan, now), CollectionPuts(plan, APPLY_ORDER[n], now).value[i].key)
    ensures var c := APPLY_ORDER[n];
            var doc := Select(plan, c).value[i];
            var end := Run(rows, PlannedPuts(plan, now) + PlannedDrops(plan, now));
            var k := KeyOf(c, doc);
            && k in end
            && end[k] == if k in rows then rows[k] + FormOf(c, doc, true, now) else FormOf(c, doc, false, now)
  {
    var puts, drops := PlannedPuts(plan, now), PlannedDrops(plan, now);
    var w := CollectionPuts(plan, APPLY_ORDER[n], now).value[i];
    assert w == PutOf(APPLY_ORDER[n], Select(plan, APPLY_ORDER[n]).value[i], now);
    var m := PutIsPlanned(plan, APPLY_ORDER, now, n, i);
    ApplyOrderAscends();
    PutsAscend(plan, APPLY_ORDER, now);
    DropsDescend(plan, Reverse(APPLY_ORDER));
    hide CollectionPuts, Select, FormOf, Run, PlannedDrops, Prepared;
    SinglePut(rows, puts, m);
    RunTwo(rows, puts, drops);
    DropsAreDrops(plan, now);
    DropsRemove(Run(rows, puts), drops, w.key);
  }

  lemma {:induction false} DropsAreDrops(plan: Plan, now: string)
    ensures forall i | 0 <= i < |PlannedDrops(plan, now)| :: PlannedDrops(plan, now)[i].Drop?
  {
    ApplyOrderAscends();
    DropsDescend(plan, Reverse(APPLY_ORDER));
  }

  lemma {:induction false} DropsExactly(plan: Plan, order: seq<Collection>, k: Key)
    ensures Touches(Drops(plan, order), k) <==> k.collection in order && k.id in plan.diffs(k.collection).delete
  {
    if order != [] {
      var head, tail := CollectionDrops(plan, order[0]), Drops(plan, order[1..]);
      DropsExactly(plan, order[1..], k);
      TouchesBoth(head, tail, k);
      var ids := plan.diffs(order[0]).delete;
      assert Touches(head, k) <==> k.collection == order[0] && k.id in ids by {
        if k.collection == order[0] && k.id in ids {
          var i :| 0 <= i < |ids| && ids[i] == k.id;
          assert head[i].key == k;
        }
      }
      assert order == [order[0]] + order[1..];
    }
  }

  lemma {:induction false} TouchesBoth(a: seq<Write>, b: seq<Write>, k: Key)
    ensures Touches(a + b, k) <==> Touches(a, k) || Touches(b, k)
  {
    if i :| 0 <= i < |a| && a[i].key == k {
      assert (a + b)[i].key == k;
    }
    if i :| 0 <= i < |b| && b[i].key == k {
      assert (a + b)[|a| + i].key == k;
    }
  }

  /** Which rows there are at the end of a prepared run: those of before and those that
      were put, without those planned for deletion; what was neither is unchanged. */
  lemma {:induction false} RowsAtTheEnd(plan: Plan, rows: Rows, now: string, k: Key)
    requires Prepared(plan, APPLY_ORDER, now)
    ensures var end := Run(rows, PlannedPuts(plan, now) + PlannedDrops(plan, now));
            var deleted := k.collection in APPLY_ORDER && k.id in plan.diffs(k.collection).delete;
            && (k in end <==> (k in rows || Touches(PlannedPuts(plan, now), k)) && !deleted)
            && (k in end && !Touches(PlannedPuts(plan, now), k) ==> end[k] == rows[k])
  {
    var puts, drops := PlannedPuts(plan, now), PlannedDrops(plan, now);
    ApplyOrderAscends();
    PutsAscend(plan, APPLY_ORDER, now);
    DropsAreDrops(plan, now);
    DropsExactly(plan, Reverse(APPLY_ORDER), k);
    OrdersAreDistinct();
    hide Run, Puts, Drops;
    RunTwo(rows, puts, drops);
    PutsKeep(rows, puts, k);
    DropsRemove(Run(rows, puts), drops, k);
  }

  /** `doc` is selected of the collection of `k`, under its id. */
  predicate SelectedAs(plan: Plan, k: Key, doc: Fields)
  {
    && Select(plan, k.collection).Ok? && doc in Select(plan, k.collection).value
    && Names(k.collection, doc, k.id)
  }

  /** The principal is selected whenever it is to be created or updated, and must then be there. */
  lemma {:induction false} PrincipalIsSelected(plan: Plan)
    ensures var diff, r := plan.diffs(AgentPrincipal), Select(plan, AgentPrincipal);
            if |diff.create| + |diff.update| == 0 then r == Ok([])
            else if plan.principal == None then r.Err?
            else r == Ok([plan.principal.value])
  {
  }

  lemma {:induction false} PutHasDocument(plan: Plan, order: seq<Collection>, now: string, m: nat) returns (doc: Fields)
    requires Prepared(plan, order, now) && m < |Puts(plan, order, now)|
    ensures SelectedAs(plan, Puts(plan, order, now)[m].key, doc) && Puts(plan, order, now)[m].key.collection in order
  {
    var n, i := PutsOfKey(plan, order, now, m);
    hide Puts, Select, FormOf;
    assert CollectionPuts(plan, order[n], now).Ok?;
    doc := Select(plan, order[n]).value[i];
    assert Puts(plan, order, now)[m] == PutOf(order[n], doc, now);
    WritableNames(order[n], doc, Puts(plan, order, now)[m].key.id);
  }

  lemma {:induction false} DocumentHasPut(plan: Plan, order: seq<Collection>, now: string, k: Key, doc: Fields) returns (m: nat)
    requires Prepared(plan, order, now) && k.collection in order && SelectedAs(plan, k, doc)
    ensures m < |Puts(plan, order, now)| && Puts(plan, order, now)[m].key == k
  {
    hide Puts, Select, FormOf;
    var n :| 0 <= n < |order| && order[n] == k.collection;
    var docs := Select(plan, k.collection).value;
    var i :| 0 <= i < |docs| && docs[i] == doc;
    assert CollectionPuts(plan, order[n], now).Ok?;
    WritableNames(k.collection, doc, k.id);
    m := PutIsPlanned(plan, order, now, n, i);
  }

  /** Whose rows are put: the selected documents', by their trimmed ids. */
  lemma {:induction false} PutsExactly(plan: Plan, order: seq<Collection>, now: string, k: Key)
    requires Prepared(plan, order, now)
    ensures Touches(Puts(plan, order, now), k) <==> k.collection in order && exists doc :: SelectedAs(plan, k, doc)
  {
    hide Puts, Prepared, SelectedAs;
    var puts := Puts(plan, order, now);
    if m :| 0 <= m < |puts| && puts[m].key == k {
      var doc := PutHasDocument(plan, order, now, m);
    }
    if k.collection in order && exists doc :: SelectedAs(plan, k, doc) {
      var doc :| SelectedAs(plan, k, doc);
      var m := DocumentHasPut(plan, order, now, k, doc);
    }
  }
}
