/** Stable sorting by a text key, as a function to refine. */
module Sorting {
  import opened Text

  ghost predicate Sorted<T(!new)>(key: T -> string, s: seq<T>)
  {
    forall i, j | 0 <= i < j < |s| :: AtMost(key(s[i]), key(s[j]))
  }

  /** Inserts after every element whose key is not greater. */
  function Insert<T>(key: T -> string, s: seq<T>, x: T): seq<T>
  {
    if s == [] || Less(key(x), key(s[0])) then [x] + s else [s[0]] + Insert(key, s[1..], x)
  }

  function SortBy<T>(key: T -> string, s: seq<T>): seq<T>
  {
    if s == [] then [] else Insert(key, SortBy(key, s[..|s| - 1]), s[|s| - 1])
  }

  lemma {:induction false} InsertPermutes<T>(key: T -> string, s: seq<T>, x: T)
    ensures multiset(Insert(key, s, x)) == multiset(s) + multiset{x}
  {
    if s != [] && !Less(key(x), key(s[0])) {
      InsertPermutes(key, s[1..], x);
      assert s == [s[0]] + s[1..];
    }
  }

  lemma {:induction false} InsertSorts<T(!new)>(key: T -> string, s: seq<T>, x: T)
    requires Sorted(key, s)
    ensures Sorted(key, Insert(key, s, x))
  {
    if s != [] {
      LessTotal(key(x), key(s[0]));
      if Less(key(x), key(s[0])) {
        forall j | 0 <= j < |s| ensures AtMost(key(x), key(s[j])) {
          AtMostTransitive(key(x), key(s[0]), key(s[j]));
        }
      } else {
        var rest := Insert(key, s[1..], x);
        InsertSorts(key, s[1..], x);
        InsertPermutes(key, s[1..], x);
        forall j | 0 <= j < |rest| ensures AtMost(key(s[0]), key(rest[j])) {
          assert rest[j] in multiset(rest);
          if rest[j] != x {
            assert rest[j] in s[1..];
          }
        }
      }
    }
  }

  lemma {:induction false} SortBySorts<T(!new)>(key: T -> string, s: seq<T>)
    ensures Sorted(key, SortBy(key, s))
    ensures multiset(SortBy(key, s)) == multiset(s)
  {
    if s != [] {
      hide Sorted, Insert;
      var n := |s| - 1;
      SortBySorts(key, s[..n]);
      InsertSorts(key, SortBy(key, s[..n]), s[n]);
      InsertPermutes(key, SortBy(key, s[..n]), s[n]);
      assert s == s[..n] + [s[n]];
    }
  }

  // ----- texts sorted by themselves

  function Itself(s: string): string { s }

  lemma {:induction false} SameHead(a: seq<string>, b: seq<string>)
    requires Sorted(Itself, a) && Sorted(Itself, b) && a != [] && b != []
    requires a[0] in b && b[0] in a
    ensures a[0] == b[0]
  {
    var i :| 0 <= i < |b| && b[i] == a[0];
    var j :| 0 <= j < |a| && a[j] == b[0];
    if i != 0 && j != 0 {
      assert AtMost(Itself(b[0]), Itself(b[i])) && AtMost(Itself(a[0]), Itself(a[j]));
      AtMostAntisymmetric(a[0], b[0]);
    }
  }

  lemma {:induction false} SortedTail(s: seq<string>)
    requires Sorted(Itself, s) && s != []
    ensures Sorted(Itself, s[1..]) && multiset(s[1..]) == multiset(s) - multiset{s[0]}
  {
    assert s == [s[0]] + s[1..];
  }

  /** A list of texts has one sorted order. */
  lemma {:induction false} SortedIsUnique(a: seq<string>, b: seq<string>)
    requires Sorted(Itself, a) && Sorted(Itself, b) && multiset(a) == multiset(b)
    ensures a == b
  {
    if a == [] || b == [] {
      assert |a| == |multiset(a)| == |multiset(b)| == |b|;
    } else {
      assert a[0] in multiset(b) && b[0] in multiset(a);
      SameHead(a, b);
      SortedTail(a);
      SortedTail(b);
      hide Sorted;
      SortedIsUnique(a[1..], b[1..]);
      assert a == [a[0]] + a[1..] && b == [b[0]] + b[1..];
    }
  }
}
