/**
 Applying desired state: the documents a plan asks for are written collection by
 collection in apply order, then the planned deletions in the reverse order.
 */
module ConfigApply {
  import opened Prelude
  import opened Collections
  import opened ImportSanitize
  import opened ConfigWrites
  import Sorting
  import Text
  import opened GraphqlLiteral

  // ----- the prune order

  function Reverse(s: seq<Collection>): seq<Collection>
  {
    seq(|s|, i requires 0 <= i < |s| => s[|s| - 1 - i])
  }

  method Reversed(order: array<Collection>) returns (r: array<Collection>)
    ensures fresh(r) && r[..] == Reverse(order[..])
  {
    r := new Collection[order.Length](i requires 0 <= i < order.Length reads order => order[i]);
    var n, i := r.Length, 0;
    while i < n / 2
      invariant 0 <= i <= n / 2
      invariant forall k | 0 <= k < i :: r[k] == order[n - 1 - k] && r[n - 1 - k] == order[k]
      invariant forall k | i <= k < n - i :: r[k] == order[k]
    {
      var j := n - 1 - i;
      var tmp := r[i];
      r[i] := r[j];
      r[j] := tmp;
      i := i + 1;
    }
    SwappedIsReversed(order[..], r[..], i);
  }

  /** Two halves exchanged place by place are a reversal. */
  lemma {:induction false} SwappedIsReversed(s: seq<Collection>, t: seq<Collection>, half: nat)
    requires |s| == |t| && half == |s| / 2
    requires forall k | 0 <= k < half :: t[k] == s[|s| - 1 - k] && t[|s| - 1 - k] == s[k]
    requires forall k | half <= k < |s| - half :: t[k] == s[k]
    ensures t == Reverse(s)
  {
    var n := |s|;
    forall k | 0 <= k < n ensures t[k] == s[n - 1 - k] {
      if n - half <= k {
        assert t[n - 1 - (n - 1 - k)] == s[n - 1 - k];
      }
    }
  }

  // ----- which documents are written

  datatype Diff = Diff(create: seq<string>, update: seq<string>, delete: seq<string>)

  datatype Plan = Plan(principal: Option<Fields>, docs: Collection -> seq<Fields>, diffs: Collection -> Diff)

  function IdOf(field: string, doc: Fields): Option<string>
  {
    if field in doc && doc[field].Str? then Some(doc[field].s) else None
  }

  function SortKey(field: string): Fields -> string
  {
    doc => match IdOf(field, doc) case None => "" case Some(id) => id
  }

  function Requested(diff: Diff): set<string>
  {
    (set id | id in diff.create) + (set id | id in diff.update)
  }

  predicate Asked(field: string, requested: set<string>, doc: Fields)
  {
    IdOf(field, doc).Some? && IdOf(field, doc).value in requested
  }

  function Matching(docs: seq<Fields>, field: string, requested: set<string>): seq<Fields>
  {
    if docs == [] then []
    else (if Asked(field, requested, docs[0]) then [docs[0]] else []) + Matching(docs[1..], field, requested)
  }

  function SelectDocs(docs: seq<Fields>, field: string, diff: Diff): Result<seq<Fields>, ()>
  {
    var requested := Requested(diff);
    if requested == {} then Ok([])
    else
      var selected := Sorting.SortBy(SortKey(field), Matching(docs, field, requested));
      var found := set doc | doc in selected && IdOf(field, doc).Some? :: IdOf(field, doc).value;
      if requested <= found then Ok(selected) else Err(())
  }

  lemma {:induction false} MatchingIsExact(docs: seq<Fields>, field: string, requested: set<string>, doc: Fields)
    ensures doc in Matching(docs, field, requested) <==> doc in docs && Asked(field, requested, doc)
  {
    if docs != [] {
      MatchingIsExact(docs[1..], field, requested, doc);
      assert docs == [docs[0]] + docs[1..];
    }
  }

  lemma {:induction false} SelectionMembers(docs: seq<Fields>, field: string, diff: Diff)
    ensures SelectDocs(docs, field, diff).Ok? <==>
            forall id | id in Requested(diff) :: exists doc :: doc in docs && IdOf(field, doc) == Some(id)
    ensures var r := SelectDocs(docs, field, diff);
            r.Ok? ==> && Sorting.Sorted(SortKey(field), r.value)
                      && forall doc :: doc in r.value <==> doc in docs && Asked(field, Requested(diff), doc)
  {
    var requested := Requested(diff);
    var matching := Matching(docs, field, requested);
    var selected := Sorting.SortBy(SortKey(field), matching);
    Sorting.SortBySorts(SortKey(field), matching);
    forall doc ensures doc in selected <==> doc in docs && Asked(field, requested, doc) {
      MatchingIsExact(docs, field, requested, doc);
      assert doc in multiset(selected) <==> doc in multiset(matching);
    }
    if requested != {} {
      var found := set doc | doc in selected && IdOf(field, doc).Some? :: IdOf(field, doc).value;
      forall id | id in requested ensures id in found <==> exists doc :: doc in docs && IdOf(field, doc) == Some(id) {
        if doc :| doc in docs && IdOf(field, doc) == Some(id) {
          assert doc in selected;
        }
      }
    }
  }

  /** The document carries the id in the field, as a text. */
  predicate Carries(doc: Fields, field: string, id: string)
  {
    field in doc && doc[field] == Str(id)
  }

  lemma {:induction false} SortedByCarried(field: string, docs: seq<Fields>)
    requires Sorting.Sorted(SortKey(field), docs)
    ensures forall i, j, a, b | 0 <= i < j < |docs| && Carries(docs[i], field, a) && Carries(docs[j], field, b) :: Text.AtMost(a, b)
  {
    forall i, j, a, b | 0 <= i < j < |docs| && Carries(docs[i], field, a) && Carries(docs[j], field, b) ensures Text.AtMost(a, b) {
      assert SortKey(field)(docs[i]) == a && SortKey(field)(docs[j]) == b;
    }
  }

  /** A selection succeeds exactly when every id to create or update has a document; it
      is then the documents with those ids and no others, sorted by id. */
  lemma {:induction false} SelectionIsExact(docs: seq<Fields>, field: string, diff: Diff)
    ensures SelectDocs(docs, field, diff).Ok? <==>
            forall id | id in diff.create || id in diff.update :: exists doc :: doc in docs && Carries(doc, field, id)
    ensures var r := SelectDocs(docs, field, diff);
            r.Ok? ==> && (forall i, j, a, b | && 0 <= i < j < |r.value| && Carries(r.value[i], field, a)
                                            && Carries(r.value[j], field, b) :: Text.AtMost(a, b))
                      && forall doc :: doc in r.value <==>
                           doc in docs && exists id :: (id in diff.create || id in diff.update) && Carries(doc, field, id)
  {
    SelectionMembers(docs, field, diff);
    if SelectDocs(docs, field, diff).Ok? {
      SortedByCarried(field, SelectDocs(docs, field, diff).value);
    }
    forall id ensures id in Requested(diff) <==> id in diff.create || id in diff.update {}
    forall doc: Fields, id ensures IdOf(field, doc) == Some(id) <==> Carries(doc, field, id) {}
    forall doc ensures Asked(field, Requested(diff), doc) <==>
      exists id :: (id in diff.create || id in diff.update) && Carries(doc, field, id)
    {
      if Asked(field, Requested(diff), doc) {
        assert Carries(doc, field, IdOf(field, doc).value);
      }
    }
    hide SelectDocs, Requested, Asked, IdOf, Carries, Sorting.Sorted;
  }

  function SelectPrincipal(principal: Option<Fields>, diff: Diff): Result<seq<Fields>, ()>
  {
    if diff.create == [] && diff.update == [] then Ok([])
    else if principal.None? then Err(())
    else Ok([principal.value])
  }

  function Select(plan: Plan, c: Collection): Result<seq<Fields>, ()>
  {
    if c.AgentPrincipal? then SelectPrincipal(plan.principal, plan.diffs(c))
    else SelectDocs(plan.docs(c), UniqueField(c), plan.diffs(c))
  }

  // ----- the writes of a plan

  function UniqueValue(c: Collection, doc: Fields): Option<string>
  {
    match IdOf(UniqueField(c), doc)
    case None => None
    case Some(id) => if Text.Trim(id) == "" then None else Some(Text.Trim(id))
  }

  predicate Writable(c: Collection, doc: Fields)
  {
    UniqueValue(c, doc).Some? && Sanitizes(c, doc)
  }

  predicate UsesCustomWriter(c: Collection)
  {
    c.Task? || c.Schedule? || c.EventTrigger?
  }

  predicate UniqueDocs(c: Collection, docs: seq<Fields>)
  {
    forall i, j | 0 <= i < j < |docs| :: UniqueValue(c, docs[i]) != UniqueValue(c, docs[j])
  }

  function PutOf(c: Collection, doc: Fields, now: string): Write
    requires Writable(c, doc)
  {
    Put(Key(c, UniqueValue(c, doc).value), FormOf(c, doc, false, now), FormOf(c, doc, true, now))
  }

  /** The writes of one collection.  A document without an id, one that cannot be
      sanitized, or a second document for a key fails it before the first write. */
  function CollectionPuts(plan: Plan, c: Collection, now: string): Result<seq<Write>, ()>
  {
    match Select(plan, c)
    case Err(_) => Err(())
    case Ok(docs) =>
      if (forall i | 0 <= i < |docs| :: Writable(c, docs[i])) && (UsesCustomWriter(c) || UniqueDocs(c, docs))
      then Ok(seq(|docs|, i requires 0 <= i < |docs| && Writable(c, docs[i]) => PutOf(c, docs[i], now)))
      else Err(())
  }

  /** The document names its row: its id field holds a text that is not blank once trimmed. */
  predicate Names(c: Collection, doc: Fields, id: string)
  {
    UniqueField(c) in doc && doc[UniqueField(c)].Str? && Text.Trim(doc[UniqueField(c)].s) == id != ""
  }

  lemma {:induction false} WritableNames(c: Collection, doc: Fields, id: string)
    ensures UniqueValue(c, doc) == Some(id) <==> Names(c, doc, id)
    ensures Writable(c, doc) <==> Sanitizes(c, doc) && exists id :: Names(c, doc, id)
  {
    hide UniqueField, Text.Trim;
    if UniqueValue(c, doc).Some? {
      assert Names(c, doc, UniqueValue(c, doc).value);
    }
  }

  /** The document names its row and can be sanitized. */
  ghost predicate Named(c: Collection, doc: Fields)
  {
    Sanitizes(c, doc) && exists id :: Names(c, doc, id)
  }

  /** No two documents name one row. */
  ghost predicate EachOwnRow(c: Collection, docs: seq<Fields>)
  {
    forall i, j, id | 0 <= i < j < |docs| && Names(c, docs[i], id) :: !Names(c, docs[j], id)
  }

  /** When a collection's documents can be written at all: selected, each named and
      sanitizable, and each its own row, unless the collection has a writer of its own. */
  lemma {:induction false} PutsWhen(plan: Plan, c: Collection, now: string)
    ensures CollectionPuts(plan, c, now).Ok? <==>
            && Select(plan, c).Ok?
            && (forall i | 0 <= i < |Select(plan, c).value| :: Named(c, Select(plan, c).value[i]))
            && (c == Task || c == Schedule || c == EventTrigger || EachOwnRow(c, Select(plan, c).value))
  {
    hide Select, CollectionPuts, Named, EachOwnRow, AllWritable;
    CollectionSucceeds(plan, c, now);
    if Select(plan, c).Ok? {
      AllNamed(c, Select(plan, c).value);
      if AllWritable(c, Select(plan, c).value) {
        OwnRows(c, Select(plan, c).value);
      }
    }
  }

  predicate AllWritable(c: Collection, docs: seq<Fields>)
  {
    forall i | 0 <= i < |docs| :: Writable(c, docs[i])
  }

  lemma {:induction false} CollectionSucceeds(plan: Plan, c: Collection, now: string)
    ensures CollectionPuts(plan, c, now).Ok? <==>
            Select(plan, c).Ok? && AllWritable(c, Select(plan, c).value) && (UsesCustomWriter(c) || UniqueDocs(c, Select(plan, c).value))
  {
    hide Select, Writable, UniqueDocs, UsesCustomWriter;
  }

  lemma {:induction false} AllNamed(c: Collection, docs: seq<Fields>)
    ensures AllWritable(c, docs) <==> forall i | 0 <= i < |docs| :: Named(c, docs[i])
  {
    forall i | 0 <= i < |docs| ensures Writable(c, docs[i]) <==> Named(c, docs[i]) {
      WritableNames(c, docs[i], "");
    }
    hide Writable, Named;
  }

  lemma {:induction false} OwnRows(c: Collection, docs: seq<Fields>)
    requires AllWritable(c, docs)
    ensures UniqueDocs(c, docs) <==> EachOwnRow(c, docs)
  {
    hide Names, Sanitizes, UniqueValue;
    if UniqueDocs(c, docs) {
      forall i, j, id | 0 <= i < j < |docs| && Names(c, docs[i], id) ensures !Names(c, docs[j], id) {
        WritableNames(c, docs[i], id);
        WritableNames(c, docs[j], id);
      }
    }
    if EachOwnRow(c, docs) {
      forall i, j | 0 <= i < j < |docs| ensures UniqueValue(c, docs[i]) != UniqueValue(c, docs[j]) {
        assert Writable(c, docs[i]);
        var id := UniqueValue(c, docs[i]).value;
        WritableNames(c, docs[i], id);
        WritableNames(c, docs[j], id);
      }
    }
  }

  function Puts(plan: Plan, order: seq<Collection>, now: string): seq<Write>
  {
    if order == [] then []
    else match CollectionPuts(plan, order[0], now)
      case Err(_) => []
      case Ok(writes) => writes + Puts(plan, order[1..], now)
  }

  predicate Prepared(plan: Plan, order: seq<Collection>, now: string)
  {
    forall i | 0 <= i < |order| :: CollectionPuts(plan, order[i], now).Ok?
  }

  function CollectionDrops(plan: Plan, c: Collection): seq<Write>
  {
    var ids := plan.diffs(c).delete;
    seq(|ids|, i requires 0 <= i < |ids| => Drop(Key(c, ids[i])))
  }

  function Drops(plan: Plan, order: seq<Collection>): seq<Write>
  {
    if order == [] then [] else CollectionDrops(plan, order[0]) + Drops(plan, order[1..])
  }

  function PlannedPuts(plan: Plan, now: string): seq<Write>
  {
    Puts(plan, APPLY_ORDER, now)
  }

  function PlannedDrops(plan: Plan, now: string): seq<Write>
  {
    if Prepared(plan, APPLY_ORDER, now) then Drops(plan, Reverse(APPLY_ORDER)) else []
  }

  // ----- their order

  ghost predicate OfCollections(writes: seq<Write>, order: seq<Collection>)
  {
    forall i | 0 <= i < |writes| :: writes[i].key.collection in order
  }

  ghost predicate StrictlyUp(order: seq<Collection>)
  {
    && WorkspaceRoot !in order
    && forall i, j | 0 <= i < j < |order| :: Rank(order[i]) < Rank(order[j])
  }

  ghost predicate StrictlyDown(order: seq<Collection>)
  {
    && WorkspaceRoot !in order
    && forall i, j | 0 <= i < j < |order| :: Rank(order[j]) < Rank(order[i])
  }

  lemma {:induction false} PutsOfOne(plan: Plan, c: Collection, now: string, i: nat)
    requires CollectionPuts(plan, c, now).Ok? && i < |CollectionPuts(plan, c, now).value|
    ensures var w := CollectionPuts(plan, c, now).value[i]; w.Put? && w.key.collection == c
  {
    hide Select, FormOf, UniqueValue;
  }

  /** A block of one collection before later ones. */
  lemma {:induction false} BlockBeforeLater(block: seq<Write>, rest: seq<Write>, c: Collection)
    requires c != WorkspaceRoot && (forall i | 0 <= i < |block| :: block[i].Put? && block[i].key.collection == c)
    requires Ascending(rest) && forall i | 0 <= i < |rest| :: Rank(c) < Rank(rest[i].key.collection)
    ensures Ascending(block + rest)
  {
    hide Rank;
  }

  lemma {:induction false} BlockBeforeEarlier(block: seq<Write>, rest: seq<Write>, c: Collection)
    requires c != WorkspaceRoot && (forall i | 0 <= i < |block| :: block[i].Drop? && block[i].key.collection == c)
    requires Descending(rest) && forall i | 0 <= i < |rest| :: Rank(rest[i].key.collection) < Rank(c)
    ensures Descending(block + rest)
  {
    hide Rank;
  }

  lemma {:induction false} BlockOf(block: seq<Write>, rest: seq<Write>, order: seq<Collection>)
    requires order != [] && OfCollections(rest, order[1..])
    requires forall i | 0 <= i < |block| :: block[i].key.collection == order[0]
    ensures OfCollections(block + rest, order)
  {
    var all := block + rest;
    forall i | 0 <= i < |all| ensures all[i].key.collection in order {
      if i >= |block| {
        assert all[i] == rest[i - |block|] && order == [order[0]] + order[1..];
      }
    }
  }

  lemma {:induction false} PutsAscend(plan: Plan, order: seq<Collection>, now: string)
    requires StrictlyUp(order)
    ensures Ascending(Puts(plan, order, now)) && OfCollections(Puts(plan, order, now), order)
  {
    hide CollectionPuts, Rank;
    if order != [] && CollectionPuts(plan, order[0], now).Ok? {
      var head, tail := CollectionPuts(plan, order[0], now).value, Puts(plan, order[1..], now);
      PutsAscend(plan, order[1..], now);
      forall i | 0 <= i < |head| ensures head[i].Put? && head[i].key.collection == order[0] {
        PutsOfOne(plan, order[0], now, i);
      }
      forall i | 0 <= i < |tail| ensures Rank(order[0]) < Rank(tail[i].key.collection) {
        assert tail[i].key.collection in order[1..];
      }
      assert order[0] in order;
      BlockBeforeLater(head, tail, order[0]);
      BlockOf(head, tail, order);
    }
  }

  lemma {:induction false} DropsDescend(plan: Plan, order: seq<Collection>)
    requires StrictlyDown(order)
    ensures Descending(Drops(plan, order)) && OfCollections(Drops(plan, order), order)
  {
    hide Rank;
    if order != [] {
      var head, tail := CollectionDrops(plan, order[0]), Drops(plan, order[1..]);
      DropsDescend(plan, order[1..]);
      forall i | 0 <= i < |tail| ensures Rank(tail[i].key.collection) < Rank(order[0]) {
        assert tail[i].key.collection in order[1..];
      }
      assert order[0] in order;
      BlockBeforeEarlier(head, tail, order[0]);
      BlockOf(head, tail, order);
    }
  }

  lemma {:induction false} ApplyOrderAscends()
    ensures StrictlyUp(APPLY_ORDER) && StrictlyDown(Reverse(APPLY_ORDER))
  {
    var n := |APPLY_ORDER|;
    forall i | 0 <= i < n ensures Rank(APPLY_ORDER[i]) == i && APPLY_ORDER[i] != WorkspaceRoot {
      OrderIsRanked(i);
    }
    forall i | 0 <= i < n ensures Rank(Reverse(APPLY_ORDER)[i]) == n - 1 - i && Reverse(APPLY_ORDER)[i] != WorkspaceRoot {
      OrderIsRanked(n - 1 - i);
    }
  }

  /** No dangling reference at any moment of a run, whenever it stops, exactly when
      there is none before the first write and after the last, and no document
      that is written over or deleted again refers to what is not there yet. */
  lemma {:induction false} ClosedThroughout(refs: References, plan: Plan, rows: Rows, now: string)
    requires RefersEarlier(refs)
    ensures var puts, drops := PlannedPuts(plan, now), PlannedDrops(plan, now);
            Closed(refs, rows) && Closed(refs, Run(rows, puts + drops)) && PassingMet(refs, rows, puts, drops) <==>
            forall n | 0 <= n <= |puts + drops| :: Closed(refs, Run(rows, (puts + drops)[..n]))
  {
    ApplyOrderAscends();
    PutsAscend(plan, APPLY_ORDER, now);
    DropsDescend(plan, Reverse(APPLY_ORDER));
    ClosedAfterEveryWrite(refs, rows, PlannedPuts(plan, now), PlannedDrops(plan, now));
  }

  // ----- the run

  ghost predicate IsPrefix(a: seq<Write>, b: seq<Write>)
  {
    |a| <= |b| && b[..|a|] == a
  }

  /** Why a run stopped short: the transport gave up, or the row to delete is not there. */
  ghost predicate Stopped(all: seq<Write>, log: seq<Write>, rows: Rows, calls: nat)
  {
    |log| < |all| && (|log| == calls || (all[|log|].Drop? && all[|log|].key !in rows))
  }

  /** A configuration transaction.  `budget` is how many writes the transport
      still carries; `log` is what has been written. */
  class ConfigTxn {
    var rows: Rows
    var budget: nat
    ghost var log: seq<Write>

    constructor (start: Rows, calls: nat)
      ensures rows == start && budget == calls && log == []
    {
      rows, budget, log := start, calls, [];
    }

    /** Deleting a row that is not there reports no document, which is an error. */
    method Execute(w: Write) returns (ok: bool)
      modifies this
      ensures ok <==> old(budget) > 0 && (w.Drop? ==> w.key in old(rows))
      ensures ok ==> rows == Perform(old(rows), w) && log == old(log) + [w] && budget == old(budget) - 1
      ensures !ok ==> rows == old(rows) && log == old(log)
    {
      ok := budget > 0 && (w.Put? || w.key in rows);
      if ok {
        rows := Perform(rows, w);
        log := log + [w];
      }
      if budget > 0 {
        budget := budget - 1;
      }
    }

    /** Writes until the end or the first failure, and says how far it came. */
    method ExecuteAll(writes: seq<Write>) returns (done: nat)
      modifies this
      ensures done <= |writes| && log == old(log) + writes[..done] && rows == Run(old(rows), writes[..done])
      ensures done == |writes| ==> budget == old(budget) - done
      ensures done < |writes| ==> done == old(budget) || (writes[done].Drop? && writes[done].key !in rows)
    {
      done := 0;
      while done < |writes|
        invariant done <= |writes| && log == old(log) + writes[..done] && rows == Run(old(rows), writes[..done])
        invariant budget == old(budget) - done
      {
        var ok := Execute(writes[done]);
        if !ok {
          return;
        }
        RunOne(old(rows), writes[..done], writes[done]);
        assert writes[..done + 1] == writes[..done] + [writes[done]];
        done := done + 1;
      }
    }

    /** The first loop: documents in apply order. */
    method ApplyAll(plan: Plan, order: seq<Collection>, now: string) returns (counts: Option<map<Collection, nat>>)
      requires log == [] && Distinct(order)
      modifies this
      ensures IsPrefix(log, Puts(plan, order, now)) && rows == Run(old(rows), log)
      ensures counts.Some? ==> Prepared(plan, order, now) && log == Puts(plan, order, now)
      ensures counts.Some? ==> AppliedCounts(plan, order, now, counts.value) && budget == old(budget) - |log|
      ensures counts.None? && Prepared(plan, order, now) ==> |log| == old(budget) < |Puts(plan, order, now)|
    {
      var tally: map<Collection, nat> := map[];
      assert order[0..] == order;
      for i := 0 to |order|
        invariant Puts(plan, order, now) == log + Puts(plan, order[i..], now)
        invariant rows == Run(old(rows), log) && budget == old(budget) - |log|
        invariant Prepared(plan, order[..i], now) && AppliedCounts(plan, order[..i], now, tally)
      {
        hide Run, Puts, CollectionPuts, Prepared, AppliedCounts;
        var c := order[i];
        PutsSplit(plan, order, now, i);
        var puts := CollectionPuts(plan, c, now);
        if puts.Err? {
          return None;
        }
        ghost var before, rest := log, Puts(plan, order[i + 1..], now);
        var n := ExecuteAll(puts.value);
        RunTwo(old(rows), before, puts.value[..n]);
        PrefixOfBlock(before, puts.value, n, rest);
        if n < |puts.value| {
          return None;
        }
        AppliedOneMore(plan, order, now, i, tally, |puts.value|);
        tally := tally[c := |puts.value|];
      }
      assert order[..|order|] == order;
      return Some(tally);
    }

    /** The second loop: deletions, which add to the counts. */
    method PruneAll(plan: Plan, order: seq<Collection>, tally: map<Collection, nat>, ghost start: Rows, ghost calls: nat)
      returns (counts: Option<map<Collection, nat>>)
      requires Distinct(order) && (forall i | 0 <= i < |order| :: order[i] in tally) && rows == Run(start, log)
      requires budget == calls - |log|
      modifies this
      ensures IsPrefix(log, old(log) + Drops(plan, order)) && rows == Run(start, log)
      ensures counts.Some? ==> log == old(log) + Drops(plan, order) && PrunedCounts(plan, order, tally, counts.value)
      ensures counts.None? ==> Stopped(old(log) + Drops(plan, order), log, rows, calls)
    {
      hide Run, CollectionDrops;
      var total: map<Collection, nat> := tally;
      assert order[0..] == order;
      for i := 0 to |order|
        invariant old(log) + Drops(plan, order) == log + Drops(plan, order[i..])
        invariant rows == Run(start, log) && budget == calls - |log|
        invariant PrunedCounts(plan, order[..i], tally, total)
        invariant forall k | i <= k < |order| :: order[k] in total && total[order[k]] == tally[order[k]]
      {
        var c := order[i];
        DropsSplit(plan, order, i);
        var drops := CollectionDrops(plan, c);
        ghost var before, rest := log, Drops(plan, order[i + 1..]);
        var n := ExecuteAll(drops);
        RunTwo(start, before, drops[..n]);
        PrefixOfBlock(before, drops, n, rest);
        if n < |drops| {
          assert (before + (drops + rest))[|log|] == drops[n];
          return None;
        }
        PrunedOneMore(plan, order, i, tally, total);
        total := total[c := total[c] + |plan.diffs(c).delete|];
      }
      assert order[..|order|] == order;
      return Some(total);
    }

    /** The run writes the planned writes in order and may stop between any two of
        them; it succeeds exactly with all of them, and then reports, collection by
        collection, how many documents were written and deleted. */
    method ApplyDesiredStateChanges(plan: Plan, now: string) returns (r: Result<map<Collection, nat>, ()>)
      requires log == []
      modifies this
      ensures IsPrefix(log, PlannedPuts(plan, now) + PlannedDrops(plan, now))
      ensures rows == Run(old(rows), log)
      ensures r.Ok? ==> Prepared(plan, APPLY_ORDER, now) && log == PlannedPuts(plan, now) + PlannedDrops(plan, now)
      ensures r.Ok? ==> forall c | c in APPLY_ORDER ::
                  c in r.value && r.value[c] == |CollectionPuts(plan, c, now).value| + |plan.diffs(c).delete|
      ensures r.Err? && Prepared(plan, APPLY_ORDER, now) ==>
                Stopped(PlannedPuts(plan, now) + PlannedDrops(plan, now), log, rows, old(budget))
    {
      var order := new Collection[|APPLY_ORDER|](i requires 0 <= i < |APPLY_ORDER| => APPLY_ORDER[i]);
      assert order[..] == APPLY_ORDER;
      OrdersAreDistinct();
      var applied := ApplyAll(plan, order[..], now);
      if applied.None? {
        return Err(());
      }
      assert order[..] == APPLY_ORDER;
      var prune := Reversed(order);
      var pruned := PruneAll(plan, prune[..], applied.value, old(rows), old(budget));
      if pruned.None? {
        return Err(());
      }
      return Ok(pruned.value);
    }
  }

  ghost predicate Distinct(order: seq<Collection>)
  {
    forall i, j | 0 <= i < j < |order| :: order[i] != order[j]
  }

  ghost predicate AppliedCounts(plan: Plan, order: seq<Collection>, now: string, counts: map<Collection, nat>)
    requires Prepared(plan, order, now)
  {
    forall i | 0 <= i < |order| ::
      order[i] in counts && counts[order[i]] == |CollectionPuts(plan, order[i], now).value|
  }

  ghost predicate PrunedCounts(plan: Plan, order: seq<Collection>, tally: map<Collection, nat>, counts: map<Collection, nat>)
  {
    forall i | 0 <= i < |order| ::
      order[i] in counts && order[i] in tally && counts[order[i]] == tally[order[i]] + |plan.diffs(order[i]).delete|
  }

  lemma {:induction false} AppliedOneMore(plan: Plan, order: seq<Collection>, now: string, i: nat, counts: map<Collection, nat>, n: nat)
    requires Distinct(order) && i < |order| && Prepared(plan, order[..i], now) && AppliedCounts(plan, order[..i], now, counts)
    requires CollectionPuts(plan, order[i], now).Ok? && n == |CollectionPuts(plan, order[i], now).value|
    ensures Prepared(plan, order[..i + 1], now) && AppliedCounts(plan, order[..i + 1], now, counts[order[i] := n])
  {
    hide CollectionPuts;
    forall k | 0 <= k < i ensures order[..i + 1][k] == order[..i][k] && order[k] != order[i] {
    }
  }

  lemma {:induction false} PrunedOneMore(plan: Plan, order: seq<Collection>, i: nat, tally: map<Collection, nat>, counts: map<Collection, nat>)
    requires Distinct(order) && i < |order| && PrunedCounts(plan, order[..i], tally, counts)
    requires order[i] in counts && order[i] in tally && counts[order[i]] == tally[order[i]]
    ensures PrunedCounts(plan, order[..i + 1], tally, counts[order[i] := counts[order[i]] + |plan.diffs(order[i]).delete|])
  {
    forall k | 0 <= k < i ensures order[..i + 1][k] == order[..i][k] && order[k] != order[i] {
    }
  }

  lemma {:induction false} PutsSplit(plan: Plan, order: seq<Collection>, now: string, i: nat)
    requires i < |order|
    ensures Puts(plan, order[i..], now) ==
            match CollectionPuts(plan, order[i], now)
            case Err(_) => []
            case Ok(puts) => puts + Puts(plan, order[i + 1..], now)
  {
    assert order[i..][1..] == order[i + 1..];
  }

  lemma {:induction false} DropsSplit(plan: Plan, order: seq<Collection>, i: nat)
    requires i < |order|
    ensures Drops(plan, order[i..]) == CollectionDrops(plan, order[i]) + Drops(plan, order[i + 1..])
  {
    assert order[i..][1..] == order[i + 1..];
  }

  lemma {:induction false} PrefixOfBlock(before: seq<Write>, block: seq<Write>, n: nat, rest: seq<Write>)
    requires n <= |block|
    ensures IsPrefix(before + block[..n], before + (block + rest))
    ensures n == |block| ==> before + (block + rest) == (before + block[..n]) + rest
  {
  }

  lemma {:induction false} OrdersAreDistinct()
    ensures Distinct(APPLY_ORDER) && Distinct(Reverse(APPLY_ORDER))
    ensures forall c :: c in APPLY_ORDER <==> c in Reverse(APPLY_ORDER)
  {
    ApplyOrderAscends();
    var rev := Reverse(APPLY_ORDER);
    forall i | 0 <= i < |rev| ensures rev[i] in APPLY_ORDER && APPLY_ORDER[i] in rev {
      assert rev[|rev| - 1 - i] == APPLY_ORDER[i];
    }
  }
}
