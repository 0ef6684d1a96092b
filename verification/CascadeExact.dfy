/**
 What a successful cascade walk returns: exactly the requests reachable through
 expanded rows, and on tree-shaped calls exactly the requests an operator would
 expect to be interrupted.
 */
module CascadeExact {
  import opened Prelude
  import opened CascadeWalk
  import RL = RequestLifecycle
  import Text

  /** One tool call taken on the way down. */
  datatype Hop = Hop(parent: Id, call: ToolCall)

  /** The hop is a stored call to a stored request. */
  ghost predicate Stored(snap: Snapshot, hop: Hop)
  {
    && hop.call in Calls(snap, hop.parent)
    && Child(hop.call).Some? && Child(hop.call).value in snap.requests
  }

  ghost predicate TerminalBelow(snap: Snapshot, hop: Hop)
    requires Stored(snap, hop)
  {
    Terminal(snap.requests[Child(hop.call).value].state)
  }

  predicate CascadePolicy(hop: Hop)
  {
    StringField(hop.call.cancelPolicy) == Some("cascade")
  }

  /** The walk goes on below this hop. */
  ghost predicate Opens(snap: Snapshot, includeTerminal: bool, hop: Hop)
    requires Stored(snap, hop)
  {
    if TerminalBelow(snap, hop) then includeTerminal else CascadePolicy(hop)
  }

  /** A way down from `root` whose every hop but the last is open. */
  ghost predicate Line(snap: Snapshot, t: bool, root: Id, line: seq<Hop>)
  {
    && line != [] && line[0].parent == root
    && (forall k | 0 <= k < |line| :: Stored(snap, line[k]))
    && (forall k | 0 <= k < |line| - 1 :: Opens(snap, t, line[k]) && line[k + 1].parent == Child(line[k].call).value)
  }

  function End(line: seq<Hop>): Option<Id>
    requires line != []
  {
    Child(line[|line| - 1].call)
  }

  lemma {:induction false} LineOn(snap: Snapshot, t: bool, root: Id, line: seq<Hop>, hop: Hop)
    requires Line(snap, t, root, line) && Opens(snap, t, line[|line| - 1])
    requires Stored(snap, hop) && End(line) == Some(hop.parent)
    ensures Line(snap, t, root, line + [hop])
  {
  }

  lemma {:induction false} LineBack(snap: Snapshot, t: bool, root: Id, line: seq<Hop>)
    requires Line(snap, t, root, line) && |line| > 1
    ensures Line(snap, t, root, line[..|line| - 1])
    ensures End(line[..|line| - 1]) == Some(line[|line| - 1].parent) && Opens(snap, t, line[|line| - 2])
  {
    var k := |line| - 2;
    assert Opens(snap, t, line[k]) && line[k + 1].parent == Child(line[k].call).value;
  }

  /** `row` is the row its last hop reads off. */
  ghost predicate ReadBy(snap: Snapshot, hop: Hop, row: Row)
  {
    && Stored(snap, hop) && Child(hop.call) == Some(row.id)
    && row == MakeRow(hop.parent, hop.call, row.id, snap.requests[row.id])
  }

  lemma {:induction false} DescendsIsOpens(snap: Snapshot, t: bool, hop: Hop, row: Row)
    requires ReadBy(snap, hop, row)
    ensures Descends(row.classification, t) <==> Opens(snap, t, hop)
    ensures row.classification.WillInterrupt? <==> !TerminalBelow(snap, hop) && CascadePolicy(hop)
  {
  }

  /** The rows of a successful walk. */
  ghost predicate Exact(snap: Snapshot, t: bool, root: Id, rows: seq<Row>)
  {
    && root !in Ids(rows)
    && (forall i, j | 0 <= i < j < |rows| :: rows[i].id != rows[j].id)
    && (forall i | 0 <= i < |rows| :: FromCall(snap, rows[i]) && Parented(t, root, rows, i))
    && ChildrenIn(snap, root, Calls(snap, root), {root} + Ids(rows))
    && (forall i | 0 <= i < |rows| :: Descends(rows[i].classification, t) ==>
          ChildrenIn(snap, rows[i].id, Calls(snap, rows[i].id), {root} + Ids(rows)))
  }

  /** Exact walk.  On any graph of calls, cyclic or shared, the rows are distinct
      and exclude the root, each is read off a call of the root or of an earlier
      expanded row, and every child of the root or of an expanded row is the root
      or a row: no descendant is lost to the depth limit. */
  lemma {:induction false} WalkIsExact(snap: Snapshot, root: Id, agentDid: Option<string>, t: bool)
    requires Walk(snap, root, agentDid, t).Ok?
    ensures Exact(snap, t, root, Walk(snap, root, agentDid, t).value.rows)
  {
    var rows := ExpandFinds(snap, t, root, 0, Progress({root}, []));
    var q := Expand(snap, t, root, 0, Progress({root}, [])).value;
    assert q.rows == [] + rows == rows;
    forall i | 0 <= i < |rows| ensures rows[i].id != root {}
  }

  /** Each row is reached by a line whose intermediate requests are expanded rows. */
  lemma {:induction false} RowHasLine(snap: Snapshot, t: bool, root: Id, rows: seq<Row>, i: nat) returns (line: seq<Hop>)
    requires Exact(snap, t, root, rows) && i < |rows|
    ensures Line(snap, t, root, line) && ReadBy(snap, line[|line| - 1], rows[i])
    ensures forall k | 0 <= k < |line| - 1 ::
              exists j :: 0 <= j < i && ReadBy(snap, line[k], rows[j]) && Descends(rows[j].classification, t)
    decreases i
  {
    var row := rows[i];
    assert FromCall(snap, row) && Parented(t, root, rows, i);
    var call :| && call in Calls(snap, row.parent) && Child(call) == Some(row.id) && row.id in snap.requests
                && row == MakeRow(row.parent, call, row.id, snap.requests[row.id]);
    var hop := Hop(row.parent, call);
    if row.parent == root {
      line := [hop];
    } else {
      var j :| 0 <= j < i && rows[j].id == row.parent && Descends(rows[j].classification, t);
      var front := RowHasLine(snap, t, root, rows, j);
      DescendsIsOpens(snap, t, front[|front| - 1], rows[j]);
      LineOn(snap, t, root, front, hop);
      line := front + [hop];
      forall k | 0 <= k < |line| - 1
        ensures exists j :: 0 <= j < i && ReadBy(snap, line[k], rows[j]) && Descends(rows[j].classification, t)
      {
        if k == |front| - 1 {
          assert ReadBy(snap, line[k], rows[j]);
        } else {
          var j' :| 0 <= j' < j && ReadBy(snap, front[k], rows[j']) && Descends(rows[j'].classification, t);
          assert ReadBy(snap, line[k], rows[j']);
        }
      }
    }
  }

  // ----- tree-shaped calls

  /** Every child request has one call pointing at it, and nothing points at the root. */
  ghost predicate TreeShaped(snap: Snapshot, root: Id)
  {
    && (forall p, q, a, b | a in Calls(snap, p) && b in Calls(snap, q) ::
          Child(a).Some? && Child(a) == Child(b) ==> p == q && a == b)
    && (forall p, a | a in Calls(snap, p) :: Child(a) != Some(root))
  }

  lemma {:induction false} TreeReadsOneWay(snap: Snapshot, root: Id, hop: Hop, row: Row)
    requires TreeShaped(snap, root) && Stored(snap, hop) && Child(hop.call) == Some(row.id) && FromCall(snap, row)
    ensures ReadBy(snap, hop, row)
  {
  }

  /** A child of the root, or of an expanded row, is a row. */
  lemma {:induction false} ChildIsRow(snap: Snapshot, t: bool, root: Id, rows: seq<Row>, hop: Hop, parent: Option<nat>) returns (i: nat)
    requires Exact(snap, t, root, rows) && TreeShaped(snap, root) && Stored(snap, hop)
    requires match parent
             case None => hop.parent == root
             case Some(j) => j < |rows| && rows[j].id == hop.parent && Descends(rows[j].classification, t)
    ensures i < |rows| && ReadBy(snap, hop, rows[i])
  {
    var x := Child(hop.call).value;
    assert ChildrenIn(snap, hop.parent, Calls(snap, hop.parent), {root} + Ids(rows));
    assert x in Ids(rows);
    i :| 0 <= i < |rows| && rows[i].id == x;
    TreeReadsOneWay(snap, root, hop, rows[i]);
  }

  /** On a tree every line leads to the row its last hop reads off. */
  lemma {:induction false} LineIsRow(snap: Snapshot, t: bool, root: Id, rows: seq<Row>, line: seq<Hop>) returns (i: nat)
    requires Exact(snap, t, root, rows) && TreeShaped(snap, root) && Line(snap, t, root, line)
    ensures i < |rows| && ReadBy(snap, line[|line| - 1], rows[i])
    decreases |line|
  {
    var hop := line[|line| - 1];
    assert Stored(snap, hop);
    hide Exact, TreeShaped;
    if |line| == 1 {
      i := ChildIsRow(snap, t, root, rows, hop, None);
    } else {
      LineBack(snap, t, root, line);
      var j := LineIsRow(snap, t, root, rows, line[..|line| - 1]);
      DescendsIsOpens(snap, t, line[|line| - 2], rows[j]);
      i := ChildIsRow(snap, t, root, rows, hop, Some(j));
    }
  }

  ghost predicate Marked(rows: seq<Row>, x: Id)
  {
    exists i :: 0 <= i < |rows| && rows[i].id == x && rows[i].classification.WillInterrupt?
  }

  /** The last hop of the line calls for an interrupt of its request. */
  ghost predicate CallsForInterrupt(snap: Snapshot, t: bool, root: Id, line: seq<Hop>, x: Id)
  {
    && Line(snap, t, root, line) && End(line) == Some(x)
    && !TerminalBelow(snap, line[|line| - 1]) && CascadePolicy(line[|line| - 1])
  }

  lemma {:induction false} MarkedHasLine(snap: Snapshot, t: bool, root: Id, rows: seq<Row>, x: Id) returns (line: seq<Hop>)
    requires Exact(snap, t, root, rows) && Marked(rows, x)
    ensures CallsForInterrupt(snap, t, root, line, x)
  {
    hide Exact;
    var i :| 0 <= i < |rows| && rows[i].id == x && rows[i].classification.WillInterrupt?;
    line := RowHasLine(snap, t, root, rows, i);
    DescendsIsOpens(snap, t, line[|line| - 1], rows[i]);
  }

  /** Who gets interrupted.  On tree-shaped calls a successful walk marks exactly
      the non-terminal requests with a cascade call whose proper ancestors below
      the root are each non-terminal with a cascade call, or (when terminal
      subtrees are included) terminal. */
  lemma {:induction false} WhoIsInterrupted(snap: Snapshot, root: Id, agentDid: Option<string>, t: bool, x: Id)
    requires Walk(snap, root, agentDid, t).Ok? && TreeShaped(snap, root)
    ensures Marked(Walk(snap, root, agentDid, t).value.rows, x)
       <==> exists line :: CallsForInterrupt(snap, t, root, line, x)
  {
    hide Walk, Exact, TreeShaped, TerminalBelow, CascadePolicy;
    var rows := Walk(snap, root, agentDid, t).value.rows;
    WalkIsExact(snap, root, agentDid, t);
    if Marked(rows, x) {
      var line := MarkedHasLine(snap, t, root, rows, x);
    }
    if line :| CallsForInterrupt(snap, t, root, line, x) {
      var i := LineIsRow(snap, t, root, rows, line);
      DescendsIsOpens(snap, t, line[|line| - 1], rows[i]);
    }
  }

  /** The class an operator expects of the request a hop leads to. */
  predicate Expected(state: Option<RL.State>, call: ToolCall, c: Classification)
  {
    var policy := StringField(call.cancelPolicy);
    var ended := state.Some? && state.value in {RL.Completed, RL.Failed, RL.Superseded, RL.Dead, RL.Interrupted};
    match c
    case AlreadyTerminal => ended
    case WillInterrupt => !ended && policy == Some("cascade")
    case WillDetach => !ended && policy == Some("detach")
    case UnknownPolicy => !ended && policy != Some("cascade") && policy != Some("detach")
  }

  ghost predicate ClassedAs(rows: seq<Row>, x: Id, c: Classification)
  {
    exists i :: 0 <= i < |rows| && rows[i].id == x && rows[i].classification == c
  }

  ghost predicate LeadsTo(snap: Snapshot, t: bool, root: Id, line: seq<Hop>, x: Id, c: Classification)
  {
    && Line(snap, t, root, line) && End(line) == Some(x) && x in snap.requests
    && Expected(snap.requests[x].state, line[|line| - 1].call, c)
  }

  /** Every class, exactly.  On tree-shaped calls a successful walk lists a request in
      a class exactly when a line of calls through open requests leads to it and its
      own state and the policy of its own call put it there. */
  lemma {:induction false} WhoIsWhere(snap: Snapshot, root: Id, agentDid: Option<string>, t: bool, x: Id, c: Classification)
    requires Walk(snap, root, agentDid, t).Ok? && TreeShaped(snap, root)
    ensures ClassedAs(Walk(snap, root, agentDid, t).value.rows, x, c) <==> exists line :: LeadsTo(snap, t, root, line, x, c)
  {
    hide Walk, Exact, TreeShaped, Expected;
    var rows := Walk(snap, root, agentDid, t).value.rows;
    WalkIsExact(snap, root, agentDid, t);
    if i :| 0 <= i < |rows| && rows[i].id == x && rows[i].classification == c {
      var line := RowHasLine(snap, t, root, rows, i);
      ReadAsExpected(snap, line[|line| - 1], rows[i], c);
      assert LeadsTo(snap, t, root, line, x, c);
    }
    if line :| LeadsTo(snap, t, root, line, x, c) {
      var i := LineIsRow(snap, t, root, rows, line);
      ReadAsExpected(snap, line[|line| - 1], rows[i], c);
    }
  }

  lemma {:induction false} ReadAsExpected(snap: Snapshot, hop: Hop, row: Row, c: Classification)
    requires ReadBy(snap, hop, row)
    ensures row.classification == c <==> Expected(snap.requests[row.id].state, hop.call, c)
  {
  }

  /** Where each column of a row comes from: the request it is about, and the call
      that leads to it, trimmed and absent when blank. */
  lemma {:induction false} RowColumns(snap: Snapshot, root: Id, agentDid: Option<string>, t: bool, i: nat) returns (call: ToolCall)
    requires Walk(snap, root, agentDid, t).Ok? && i < |Walk(snap, root, agentDid, t).value.rows|
    ensures var row := Walk(snap, root, agentDid, t).value.rows[i];
            && call in Calls(snap, row.parent) && StringField(call.childRequest) == Some(row.id) && row.id in snap.requests
            && row.session == snap.requests[row.id].session && row.behavior == snap.requests[row.id].behavior
            && row.state == snap.requests[row.id].state
            && row.parentCall == StringField(call.callId) && row.toolName == StringField(call.toolName)
            && row.awaitMode == StringField(call.awaitMode) && row.cancelPolicy == StringField(call.cancelPolicy)
  {
    WalkIsExact(snap, root, agentDid, t);
    var row := Walk(snap, root, agentDid, t).value.rows[i];
    hide Walk;
    assert FromCall(snap, row);
    call :| && call in Calls(snap, row.parent) && Child(call) == Some(row.id)
            && row == MakeRow(row.parent, call, row.id, snap.requests[row.id]);
  }

  /** A column is read trimmed, and as absent when it is blank. */
  lemma {:induction false} ColumnsAreTrimmed(column: string)
    ensures StringField(None) == None
    ensures StringField(Some(column)) == None <==> Text.AllWhitespace(column)
    ensures StringField(Some(column)).Some? ==>
              var t := StringField(Some(column)).value;
              && t == Text.Trim(column) != "" && !Text.IsWhitespace(t[0]) && !Text.IsWhitespace(t[|t| - 1])
  {
    Text.TrimIsSolid(column);
  }

  /** A walk starts only from a stored root of the operator, and reports that root. */
  lemma {:induction false} WalkStarts(snap: Snapshot, root: Id, agentDid: Option<string>, t: bool)
    ensures var mine := root in snap.requests && (agentDid.Some? ==> snap.requests[root].agentDid == agentDid);
            var r := Walk(snap, root, agentDid, t);
            && (!mine ==> r == Err(RequestNotFound(root)))
            && (r.Ok? ==> && mine && r.value.rootState == snap.requests[root].state
                          && r.value.rootInterruptRequestedAt == snap.requests[root].interruptRequestedAt)
  {
  }

  // ----- when the depth limit is hit

  /** A depth error is never spurious: it names a request that `MAX_CASCADE_DEPTH`
      open hops lead to. */
  lemma {:induction false} DepthErrorHasWitness(snap: Snapshot, root: Id, agentDid: Option<string>, t: bool, at: Id) returns (line: seq<Hop>)
    requires Walk(snap, root, agentDid, t) == Err(DepthExceeded(at))
    ensures Line(snap, t, root, line) && |line| == MAX_CASCADE_DEPTH
    ensures End(line) == Some(at) && Opens(snap, t, line[|line| - 1])
  {
    line := DepthWitness(snap, t, root, 0, Progress({root}, []), at);
  }

  lemma {:induction false} LineFrom(snap: Snapshot, t: bool, hop: Hop, rest: seq<Hop>)
    requires Stored(snap, hop) && Opens(snap, t, hop) && Line(snap, t, Child(hop.call).value, rest)
    ensures Line(snap, t, hop.parent, [hop] + rest)
  {
    hide Opens;
    var line := [hop] + rest;
    forall k | 0 <= k < |line| ensures Stored(snap, line[k]) {
      if k > 0 {
        assert line[k] == rest[k - 1];
      }
    }
    forall k | 0 <= k < |line| - 1
      ensures Opens(snap, t, line[k]) && line[k + 1].parent == Child(line[k].call).value
    {
      if k > 0 {
        assert line[k] == rest[k - 1] && line[k + 1] == rest[k];
      }
    }
  }

  lemma {:induction false} DepthWitness(snap: Snapshot, t: bool, parent: Id, depth: nat, p: Progress, at: Id)
    returns (line: seq<Hop>)
    requires depth < MAX_CASCADE_DEPTH && Expand(snap, t, parent, depth, p) == Err(DepthExceeded(at))
    ensures Line(snap, t, parent, line) && |line| == MAX_CASCADE_DEPTH - depth
    ensures End(line) == Some(at) && Opens(snap, t, line[|line| - 1])
    decreases MAX_CASCADE_DEPTH - depth
  {
    var call, q := FailingCall(snap, t, parent, Calls(snap, parent), depth, p, DepthExceeded(at));
    var hop := Hop(parent, call);
    var child := Child(call).value;
    var row := MakeRow(parent, call, child, snap.requests[child]);
    assert ReadBy(snap, hop, row);
    DescendsIsOpens(snap, t, hop, row);
    if depth + 1 == MAX_CASCADE_DEPTH {
      line := [hop];
    } else {
      var rest := DepthWitness(snap, t, child, depth + 1, Progress(q.seen + {child}, q.rows + [row]), at);
      line := [hop] + rest;
      LineFrom(snap, t, hop, rest);
    }
  }

  /** The call whose own expansion failed. */
  lemma {:induction false} FailingCall(snap: Snapshot, t: bool, parent: Id, calls: seq<ToolCall>, depth: nat, p: Progress,
                                       e: WalkError) returns (call: ToolCall, q: Progress)
    requires depth < MAX_CASCADE_DEPTH && ExpandCalls(snap, t, parent, calls, depth, p) == Err(e)
    ensures call in calls && ExpandCall(snap, t, parent, call, depth, q) == Err(e)
    decreases |calls|
  {
    var front := ExpandCalls(snap, t, parent, calls[..|calls| - 1], depth, p);
    if front.Err? {
      call, q := FailingCall(snap, t, parent, calls[..|calls| - 1], depth, p, e);
    } else {
      call, q := calls[|calls| - 1], front.value;
    }
  }
}
