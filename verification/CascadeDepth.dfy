/**
 When the cascade walk hits its depth limit: on tree-shaped calls to stored
 requests, exactly when that many open calls follow each other.
 */
module CascadeDepth {
  import opened Prelude
  import opened CascadeWalk
  import opened CascadeExact

  /** `x` is called from a request in `seen`. */
  ghost predicate CalledFrom(snap: Snapshot, seen: set<Id>, x: Id)
  {
    exists hop: Hop :: hop.parent in seen && Points(snap, hop, x)
  }

  ghost predicate Points(snap: Snapshot, hop: Hop, x: Id)
  {
    hop.call in Calls(snap, hop.parent) && Child(hop.call) == Some(x)
  }

  /** Whatever has been seen, other than the root, is called from something seen. */
  ghost predicate Rooted(snap: Snapshot, root: Id, seen: set<Id>)
  {
    forall x | x in seen && x != root :: CalledFrom(snap, seen, x)
  }

  /** On a tree two hops to one request are the same. */
  lemma {:induction false} OneHop(snap: Snapshot, root: Id, a: Hop, b: Hop, x: Id)
    requires TreeShaped(snap, root) && Points(snap, a, x) && Points(snap, b, x)
    ensures a == b && x != root
  {
  }

  lemma {:induction false} FoundKeepsRooted(snap: Snapshot, t: bool, root: Id, parent: Id, seen: set<Id>, rows: seq<Row>, all: set<Id>)
    requires Rooted(snap, root, seen) && parent in seen && Found(snap, t, parent, seen, rows, all)
    ensures Rooted(snap, root, all)
  {
    forall x | x in all && x != root ensures CalledFrom(snap, all, x) {
      if x in seen {
        assert CalledFrom(snap, seen, x);
        var hop: Hop :| hop.parent in seen && Points(snap, hop, x);
        assert hop.parent in all;
      } else {
        var i :| 0 <= i < |rows| && rows[i].id == x;
        var hop := RowHop(snap, t, parent, rows, i);
        assert hop.parent in seen + Ids(rows);
      }
    }
  }

  /** The hop a row was read off; it starts at `parent` or at another row. */
  lemma {:induction false} RowHop(snap: Snapshot, t: bool, parent: Id, rows: seq<Row>, i: nat) returns (hop: Hop)
    requires i < |rows| && FromCall(snap, rows[i]) && Parented(t, parent, rows, i)
    ensures Points(snap, hop, rows[i].id) && (hop.parent == parent || hop.parent in Ids(rows))
    ensures hop.parent == rows[i].parent
  {
    var row := rows[i];
    var call :| call in Calls(snap, row.parent) && Child(call) == Some(row.id);
    hop := Hop(row.parent, call);
    if row.parent != parent {
      var j :| 0 <= j < i && rows[j].id == row.parent;
      IdIn(rows, j);
    }
  }

  /** The call that brings `x` into sight. */
  lemma {:induction false} CallThatSees(snap: Snapshot, t: bool, parent: Id, n: nat, depth: nat, p: Progress, x: Id) returns (m: nat)
    requires depth < MAX_CASCADE_DEPTH && n <= |Calls(snap, parent)| && x !in p.seen
    requires ExpandCalls(snap, t, parent, Calls(snap, parent)[..n], depth, p).Ok?
    requires x in ExpandCalls(snap, t, parent, Calls(snap, parent)[..n], depth, p).value.seen
    ensures m < n && ExpandCalls(snap, t, parent, Calls(snap, parent)[..m], depth, p).Ok?
    ensures var q := ExpandCalls(snap, t, parent, Calls(snap, parent)[..m], depth, p).value;
            var r := ExpandCall(snap, t, parent, Calls(snap, parent)[m], depth, q);
            x !in q.seen && r.Ok? && x in r.value.seen
  {
    var calls := Calls(snap, parent);
    hide ExpandCall;
    assert n > 0;
    assert calls[..n][..n - 1] == calls[..n - 1] && calls[..n][n - 1] == calls[n - 1];
    var front := ExpandCalls(snap, t, parent, calls[..n - 1], depth, p);
    if x in front.value.seen {
      m := CallThatSees(snap, t, parent, n - 1, depth, p, x);
    } else {
      m := n - 1;
    }
  }

  /** On a tree the call that brings a child of `parent` into sight is the one that points at it. */
  lemma {:induction false} SeenByOwnCall(snap: Snapshot, t: bool, root: Id, parent: Id, call: ToolCall, depth: nat, q: Progress, hop: Hop, x: Id)
    requires depth < MAX_CASCADE_DEPTH && call in Calls(snap, parent) && TreeShaped(snap, root)
    requires parent in q.seen && hop.parent == parent && Points(snap, hop, x) && x !in q.seen
    requires ExpandCall(snap, t, parent, call, depth, q).Ok? && x in ExpandCall(snap, t, parent, call, depth, q).value.seen
    ensures call == hop.call
  {
    hide ExpandCall, TreeShaped;
    if Child(call) != Some(x) {
      var child, below := FoundByCall(snap, t, parent, call, depth, q, x);
      var i :| 0 <= i < |below| && below[i].id == x;
      var other := RowHop(snap, t, child, below, i);
      OneHop(snap, root, hop, other, x);
    } else {
      OneHop(snap, root, hop, Hop(parent, call), x);
    }
  }

  /** What one call brings into sight besides its own child. */
  lemma {:induction false} FoundByCall(snap: Snapshot, t: bool, parent: Id, call: ToolCall, depth: nat, q: Progress, x: Id)
    returns (child: Id, below: seq<Row>)
    requires depth < MAX_CASCADE_DEPTH && call in Calls(snap, parent) && Child(call) != Some(x) && x !in q.seen && parent in q.seen
    requires ExpandCall(snap, t, parent, call, depth, q).Ok? && x in ExpandCall(snap, t, parent, call, depth, q).value.seen
    ensures x in Ids(below) && child != parent && parent !in Ids(below)
    ensures forall i | 0 <= i < |below| :: FromCall(snap, below[i]) && Parented(t, child, below, i)
  {
    child := Child(call).value;
    var row := MakeRow(parent, call, child, snap.requests[child]);
    var q' := Progress(q.seen + {child}, q.rows + [row]);
    assert Descends(row.classification, t);
    below := ExpandFinds(snap, t, child, depth + 1, q');
    hide ExpandCall, FromCall, Parented;
    forall i | 0 <= i < |below| ensures below[i].id != parent {
      assert below[i].id !in q'.seen;
    }
  }

  /** Too many open calls in a row fail the expansion. */
  lemma {:induction false} DeepLineFails(snap: Snapshot, t: bool, root: Id, parent: Id, depth: nat, p: Progress, line: seq<Hop>)
    requires depth < MAX_CASCADE_DEPTH && TreeShaped(snap, root) && Rooted(snap, root, p.seen) && parent in p.seen
    requires Line(snap, t, parent, line) && |line| == MAX_CASCADE_DEPTH - depth && Opens(snap, t, line[|line| - 1])
    requires Child(line[0].call).value !in p.seen
    ensures Expand(snap, t, parent, depth, p).Err?
    decreases MAX_CASCADE_DEPTH - depth
  {
    hide Line, Opens, TreeShaped, Rooted, ExpandCall, ExpandCalls;
    LineHead(snap, t, parent, line);
    if Expand(snap, t, parent, depth, p).Ok? {
      var q, x := OwnCall(snap, t, root, parent, depth, p, line[0]);
      var q' := OpenCallExpands(snap, t, line[0], depth, q, x);
      if depth + 1 < MAX_CASCADE_DEPTH {
        LineTail(snap, t, parent, line);
        StillUnseen(snap, root, parent, q.seen, line[0], line[1], x);
        StillRooted(snap, root, q.seen, line[0], x);
        DeepLineFails(snap, t, root, x, depth + 1, q', line[1..]);
      }
    }
  }

  lemma {:induction false} LineHead(snap: Snapshot, t: bool, parent: Id, line: seq<Hop>)
    requires Line(snap, t, parent, line) && Opens(snap, t, line[|line| - 1])
    ensures line[0].parent == parent && Stored(snap, line[0]) && Opens(snap, t, line[0])
    ensures |line| > 1 ==> Stored(snap, line[1])
  {
  }

  /** An open call to a request not seen yet is expanded in turn. */
  lemma {:induction false} OpenCallExpands(snap: Snapshot, t: bool, hop: Hop, depth: nat, q: Progress, x: Id) returns (q': Progress)
    requires depth < MAX_CASCADE_DEPTH && Stored(snap, hop) && Opens(snap, t, hop) && Child(hop.call) == Some(x) && x !in q.seen
    requires ExpandCall(snap, t, hop.parent, hop.call, depth, q).Ok?
    ensures q'.seen == q.seen + {x} && Expand(snap, t, x, depth + 1, q').Ok?
  {
    var row := MakeRow(hop.parent, hop.call, x, snap.requests[x]);
    assert ReadBy(snap, hop, row);
    DescendsIsOpens(snap, t, hop, row);
    q' := Progress(q.seen + {x}, q.rows + [row]);
  }

  /** The point of a successful expansion where the hop's own call is taken. */
  lemma {:induction false} OwnCall(snap: Snapshot, t: bool, root: Id, parent: Id, depth: nat, p: Progress, hop: Hop) returns (q: Progress, x: Id)
    requires depth < MAX_CASCADE_DEPTH && TreeShaped(snap, root) && Rooted(snap, root, p.seen) && parent in p.seen
    requires hop.parent == parent && Stored(snap, hop) && Child(hop.call).value !in p.seen
    requires Expand(snap, t, parent, depth, p).Ok?
    ensures Child(hop.call) == Some(x) && x !in q.seen && parent in q.seen && Rooted(snap, root, q.seen)
    ensures ExpandCall(snap, t, parent, hop.call, depth, q).Ok?
  {
    x := Child(hop.call).value;
    var calls := Calls(snap, parent);
    assert calls[..|calls|] == calls;
    var rows := ExpandFinds(snap, t, parent, depth, p);
    var m := CallThatSees(snap, t, parent, |calls|, depth, p, x);
    q := ExpandCalls(snap, t, parent, calls[..m], depth, p).value;
    var before := ExpandCallsFinds(snap, t, parent, calls, m, depth, p);
    FoundKeepsRooted(snap, t, root, parent, p.seen, before, q.seen);
    SeenByOwnCall(snap, t, root, parent, calls[m], depth, q, hop, x);
  }

  lemma {:induction false} LineTail(snap: Snapshot, t: bool, parent: Id, line: seq<Hop>)
    requires Line(snap, t, parent, line) && |line| > 1
    ensures Line(snap, t, Child(line[0].call).value, line[1..]) && line[1].parent == Child(line[0].call).value
  {
    hide Opens;
    var rest := line[1..];
    assert line[0 + 1].parent == Child(line[0].call).value by { assert Opens(snap, t, line[0]); }
    forall k | 0 <= k < |rest| - 1 ensures Opens(snap, t, rest[k]) && rest[k + 1].parent == Child(rest[k].call).value {
      assert rest[k] == line[k + 1] && rest[k + 1] == line[k + 1 + 1];
      assert Opens(snap, t, line[k + 1]);
    }
  }

  /** The child of a request not seen yet has not been seen yet either. */
  lemma {:induction false} StillUnseen(snap: Snapshot, root: Id, parent: Id, seen: set<Id>, hop: Hop, next: Hop, x: Id)
    requires TreeShaped(snap, root) && Rooted(snap, root, seen) && parent in seen && x !in seen
    requires hop.parent == parent && Points(snap, hop, x) && next.parent == x && Stored(snap, next)
    ensures Child(next.call).value !in seen + {x}
  {
    var y := Child(next.call).value;
    OneHop(snap, root, next, next, y);
    if y in seen {
      CallerIsSeen(snap, root, seen, next, y);
    } else if y == x {
      OneHop(snap, root, next, hop, x);
    }
  }

  lemma {:induction false} CallerIsSeen(snap: Snapshot, root: Id, seen: set<Id>, hop: Hop, y: Id)
    requires TreeShaped(snap, root) && Rooted(snap, root, seen) && y in seen && Points(snap, hop, y)
    ensures hop.parent in seen
  {
    OneHop(snap, root, hop, hop, y);
    hide TreeShaped, Points;
    var other: Hop :| other.parent in seen && Points(snap, other, y);
    OneHop(snap, root, hop, other, y);
  }

  lemma {:induction false} StillRooted(snap: Snapshot, root: Id, seen: set<Id>, hop: Hop, x: Id)
    requires Rooted(snap, root, seen) && hop.parent in seen && Points(snap, hop, x)
    ensures Rooted(snap, root, seen + {x})
  {
    forall y | y in seen + {x} && y != root ensures CalledFrom(snap, seen + {x}, y) {
      if y in seen {
        assert CalledFrom(snap, seen, y);
        var other: Hop :| other.parent in seen && Points(snap, other, y);
        assert other.parent in seen + {x};
      } else {
        assert hop.parent in seen + {x};
      }
    }
  }

  /** Eight open calls in a row. */
  ghost predicate DeepLine(snap: Snapshot, t: bool, root: Id, line: seq<Hop>)
  {
    Line(snap, t, root, line) && |line| == 8 && Opens(snap, t, line[|line| - 1])
  }

  /** Every child that is called is stored. */
  ghost predicate ChildrenStored(snap: Snapshot)
  {
    forall p, call | call in Calls(snap, p) && Child(call).Some? :: Child(call).value in snap.requests
  }

  /** On a tree of stored requests the walk fails exactly when eight open calls
      follow each other, even if the last of them leads to a leaf. */
  lemma {:induction false} DepthErrorExactly(snap: Snapshot, root: Id, agentDid: Option<string>, t: bool)
    requires TreeShaped(snap, root) && ChildrenStored(snap) && Visible(snap, root, agentDid)
    ensures Walk(snap, root, agentDid, t).Err? <==> exists line :: DeepLine(snap, t, root, line)
  {
    if line: seq<Hop> :| DeepLine(snap, t, root, line) {
      OneHop(snap, root, line[0], line[0], Child(line[0].call).value);
      DeepLineFails(snap, t, root, root, 0, Progress({root}, []), line);
    }
    if Walk(snap, root, agentDid, t).Err? {
      var e := Walk(snap, root, agentDid, t).error;
      NeverMissing(snap, t, root, 0, Progress({root}, []), e);
      var line := DepthErrorHasWitness(snap, root, agentDid, t, e.at);
      assert DeepLine(snap, t, root, line);
    }
  }

  /** With every child stored, only the depth can fail. */
  lemma {:induction false} NeverMissing(snap: Snapshot, t: bool, parent: Id, depth: nat, p: Progress, e: WalkError)
    requires depth <= MAX_CASCADE_DEPTH && ChildrenStored(snap) && Expand(snap, t, parent, depth, p) == Err(e)
    ensures e.DepthExceeded?
    decreases MAX_CASCADE_DEPTH - depth
  {
    if depth < MAX_CASCADE_DEPTH {
      var call, q := FailingCall(snap, t, parent, Calls(snap, parent), depth, p, e);
      assert call in Calls(snap, parent) && Child(call).Some?;
      var child := Child(call).value;
      var row := MakeRow(parent, call, child, snap.requests[child]);
      NeverMissing(snap, t, child, depth + 1, Progress(q.seen + {child}, q.rows + [row]), e);
    }
  }
}
