/**
 The directory hint list: a bounded sorted vector kept by binary search, insert
 and truncate, refined against sorting everything and taking the first ten.
 */
module TopLevelEntries {
  import opened Prelude
  import opened Text
  import opened Sorting

  const SEARCH_DIR_ENTRY_HINTS: nat := 10

  function Cut(s: seq<string>): seq<string>
  {
    if |s| <= SEARCH_DIR_ENTRY_HINTS then s else s[..SEARCH_DIR_ENTRY_HINTS]
  }

  /** The names of the entries that could be read. */
  function Readable(entries: seq<Option<string>>): seq<string>
  {
    if entries == [] then []
    else
      var n := |entries| - 1;
      Readable(entries[..n]) + if entries[n].Some? then [entries[n].value] else []
  }

  /** Where `x` may be inserted. */
  ghost predicate Slot(s: seq<string>, x: string, k: nat)
  {
    && k <= |s|
    && (forall i | 0 <= i < k :: AtMost(s[i], x))
    && (forall i | k <= i < |s| :: AtMost(x, s[i]))
  }

  /** The standard binary search: a match, or the point of insertion. */
  method BinarySearch(s: seq<string>, x: string) returns (r: Result<nat, nat>)
    requires Sorted(Itself, s)
    ensures r.Ok? ==> r.value < |s| && s[r.value] == x
    ensures r.Err? ==> x !in s
    ensures Slot(s, x, if r.Ok? then r.value else r.error)
  {
    var lo, hi := 0, |s|;
    while lo < hi
      invariant lo <= hi <= |s|
      invariant forall i | 0 <= i < lo :: Less(s[i], x)
      invariant forall i | hi <= i < |s| :: Less(x, s[i])
    {
      var mid := lo + (hi - lo) / 2;
      LessTotal(s[mid], x);
      if s[mid] == x {
        MatchIsSlot(s, x, mid);
        return Ok(mid);
      } else if Less(s[mid], x) {
        BelowIsBelow(s, x, mid);
        lo := mid + 1;
      } else {
        AboveIsAbove(s, x, mid);
        hi := mid;
      }
    }
    if x in s {
      var k :| 0 <= k < |s| && s[k] == x;
      LessIrreflexive(x);
    }
    return Err(lo);
  }

  lemma {:induction false} MatchIsSlot(s: seq<string>, x: string, k: nat)
    requires Sorted(Itself, s) && k < |s| && s[k] == x
    ensures Slot(s, x, k)
  {
    forall i | 0 <= i < k ensures AtMost(s[i], x) {
      assert AtMost(Itself(s[i]), Itself(s[k]));
    }
    forall i | k <= i < |s| ensures AtMost(x, s[i]) {
      assert i == k || AtMost(Itself(s[k]), Itself(s[i]));
    }
  }

  lemma {:induction false} BelowIsBelow(s: seq<string>, x: string, k: nat)
    requires Sorted(Itself, s) && k < |s| && Less(s[k], x)
    ensures forall i | 0 <= i <= k :: Less(s[i], x)
  {
    forall i | 0 <= i <= k ensures Less(s[i], x) {
      if i < k && s[i] != s[k] {
        assert AtMost(Itself(s[i]), Itself(s[k]));
        LessTransitive(s[i], s[k], x);
      }
    }
  }

  lemma {:induction false} AboveIsAbove(s: seq<string>, x: string, k: nat)
    requires Sorted(Itself, s) && k < |s| && Less(x, s[k])
    ensures forall i | k <= i < |s| :: Less(x, s[i])
  {
    forall i | k <= i < |s| ensures Less(x, s[i]) {
      if k < i && s[i] != s[k] {
        assert AtMost(Itself(s[k]), Itself(s[i]));
        LessTransitive(x, s[k], s[i]);
      }
    }
  }

  lemma {:induction false} NotBefore(x: string, y: string)
    requires AtMost(y, x)
    ensures !Less(x, y)
  {
    if Less(x, y) {
      AtMostAntisymmetric(x, y);
      LessIrreflexive(x);
    }
  }

  lemma {:induction false} InsertGrows(s: seq<string>, x: string)
    ensures |Insert(Itself, s, x)| == |s| + 1
  {
    if s != [] {
      InsertGrows(s[1..], x);
    }
  }

  /** Inserting at any admissible place gives the same list. */
  lemma {:induction false} AnySlotInserts(s: seq<string>, x: string, k: nat)
    requires Slot(s, x, k)
    ensures s[..k] + [x] + s[k..] == Insert(Itself, s, x)
  {
    if k > 0 {
      NotBefore(x, s[0]);
      AnySlotInserts(s[1..], x, k - 1);
      assert s[..k] == [s[0]] + s[1..][..k - 1] && s[k..] == s[1..][k - 1..];
    } else if s != [] && !Less(x, s[0]) {
      assert x == s[0];
      AnyEqualInserts(s, x);
    }
  }

  lemma {:induction false} AnyEqualInserts(s: seq<string>, x: string)
    requires Slot(s, x, 0)
    ensures [x] + s == Insert(Itself, s, x)
  {
    if s != [] && !Less(x, s[0]) {
      assert x == s[0];
      AnyEqualInserts(s[1..], x);
      assert s == [s[0]] + s[1..];
    }
  }

  /** An element past the first `k` leaves them alone. */
  lemma {:induction false} InsertKeepsPrefix(s: seq<string>, x: string, k: nat)
    requires k <= |s| && forall i | 0 <= i < k :: AtMost(s[i], x)
    ensures |Insert(Itself, s, x)| == |s| + 1 && Insert(Itself, s, x)[..k] == s[..k]
  {
    InsertGrows(s, x);
    if k > 0 {
      NotBefore(x, s[0]);
      InsertKeepsPrefix(s[1..], x, k - 1);
      assert s[..k] == [s[0]] + s[1..][..k - 1];
    }
  }

  lemma {:induction false} SkipIsHarmless(all: seq<string>, x: string)
    requires Sorted(Itself, all) && |all| >= SEARCH_DIR_ENTRY_HINTS
    requires AtMost(all[SEARCH_DIR_ENTRY_HINTS - 1], x)
    ensures Cut(Insert(Itself, all, x)) == Cut(all)
  {
    var n := SEARCH_DIR_ENTRY_HINTS;
    forall i | 0 <= i < n ensures AtMost(all[i], x) {
      if i < n - 1 {
        assert AtMost(Itself(all[i]), Itself(all[n - 1]));
        AtMostTransitive(all[i], all[n - 1], x);
      }
    }
    InsertKeepsPrefix(all, x, n);
  }

  lemma {:induction false} CutInsert(all: seq<string>, x: string, k: nat)
    requires Sorted(Itself, all) && Slot(Cut(all), x, k)
    requires |Cut(all)| == SEARCH_DIR_ENTRY_HINTS ==> !AtMost(all[SEARCH_DIR_ENTRY_HINTS - 1], x)
    ensures var kept := Cut(all);
            Cut(Insert(Itself, all, x)) == Cut(kept[..k] + [x] + kept[k..])
  {
    var kept, n := Cut(all), SEARCH_DIR_ENTRY_HINTS;
    if |kept| == n {
      assert k < n;
      forall i | k <= i < |all| ensures AtMost(x, all[i]) {
        if i >= n {
          assert AtMost(x, kept[n - 1]) && AtMost(Itself(all[n - 1]), Itself(all[i]));
          AtMostTransitive(x, all[n - 1], all[i]);
        }
      }
    }
    AnySlotInserts(all, x, k);
    assert all[..k] == kept[..k];
  }

  /** One more directory entry. */
  lemma {:induction false} ReadOne(entries: seq<Option<string>>, i: nat)
    requires i < |entries|
    ensures var before := Readable(entries[..i]);
            && Sorted(Itself, SortBy(Itself, before))
            && SortBy(Itself, Readable(entries[..i + 1])) ==
               if entries[i].Some? then Insert(Itself, SortBy(Itself, before), entries[i].value) else SortBy(Itself, before)
  {
    var before := Readable(entries[..i]);
    SortBySorts(Itself, before);
    assert entries[..i + 1][..i] == entries[..i];
    if entries[i].Some? {
      var name := entries[i].value;
      assert (before + [name])[..|before|] == before;
    } else {
      assert before + [] == before;
    }
  }

  /** Bounded insertion refines sort-and-take, for every order of the directory,
      with duplicates and unreadable entries. */
  method TopLevelEntryNames(readDir: Option<seq<Option<string>>>) returns (names: seq<string>)
    ensures readDir.None? ==> names == []
    ensures readDir.Some? ==> names == Cut(SortBy(Itself, Readable(readDir.value)))
  {
    if readDir.None? {
      return [];
    }
    var entries := readDir.value;
    names := [];
    for i := 0 to |entries|
      invariant names == Cut(SortBy(Itself, Readable(entries[..i])))
    {
      ghost var all := SortBy(Itself, Readable(entries[..i]));
      ReadOne(entries, i);
      if entries[i].Some? {
        var name := entries[i].value;
        if |names| == SEARCH_DIR_ENTRY_HINTS && AtMost(names[|names| - 1], name) {
          SkipIsHarmless(all, name);
          continue;
        }
        assert Sorted(Itself, names);
        var found := BinarySearch(names, name);
        var position := match found case Ok(k) => k case Err(k) => k;
        CutInsert(all, name, position);
        names := Cut(names[..position] + [name] + names[position..]);
      }
    }
    assert entries[..|entries|] == entries;
  }

  /** What the hint list is, without naming a sort: as many names as fit, in
      order, and every name left out is no smaller. */
  lemma {:induction false} HintsAreTheSmallest(names: seq<string>) returns (rest: seq<string>)
    ensures var hints := Cut(SortBy(Itself, names));
            && Sorted(Itself, hints)
            && |hints| == (if |names| <= 10 then |names| else 10)
            && multiset(names) == multiset(hints) + multiset(rest)
            && (forall a, b | a in hints && b in rest :: AtMost(a, b))
  {
    var all := SortBy(Itself, names);
    SortBySorts(Itself, names);
    assert |all| == |multiset(all)| == |multiset(names)| == |names|;
    var hints := Cut(all);
    rest := all[|hints|..];
    assert all == hints + rest;
    forall a, b | a in hints && b in rest ensures AtMost(a, b) {
      var i :| 0 <= i < |hints| && hints[i] == a;
      var j :| 0 <= j < |rest| && rest[j] == b;
      assert AtMost(Itself(all[i]), Itself(all[|hints| + j]));
    }
  }

  /** The order in which the directory is read does not show. */
  lemma {:induction false} ReadOrderDoesNotShow(a: seq<string>, b: seq<string>)
    requires multiset(a) == multiset(b)
    ensures Cut(SortBy(Itself, a)) == Cut(SortBy(Itself, b))
  {
    SortBySorts(Itself, a);
    SortBySorts(Itself, b);
    SortedIsUnique(SortBy(Itself, a), SortBy(Itself, b));
  }
}
