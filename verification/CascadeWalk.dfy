/**
 The cascade walk: a depth-bounded, depth-first preorder descent over the tool
 calls that point at child requests, on one snapshot of the store.
 */
module CascadeWalk {
  import opened Prelude
  import Text
  import RL = RequestLifecycle

  type Id = string

  /** A tool call row as stored; `StringField` is how the walk reads its columns. */
  datatype ToolCall = ToolCall(
    callId: Option<string>,
    toolName: Option<string>,
    awaitMode: Option<string>,
    cancelPolicy: Option<string>,
    childRequest: Option<string>)

  datatype Request = Request(
    agentDid: Option<string>,
    session: Option<string>,
    behavior: Option<string>,
    state: Option<RL.State>,
    interruptRequestedAt: Option<string>)

  /** Tool calls of a request come in query order: message sequence, then call id. */
  datatype Snapshot = Snapshot(requests: map<Id, Request>, calls: map<Id, seq<ToolCall>>)

  datatype Classification = WillInterrupt | WillDetach | AlreadyTerminal | UnknownPolicy

  datatype Row = Row(
    id: Id,
    session: Option<string>,
    behavior: Option<string>,
    state: Option<RL.State>,
    parent: Id,
    parentCall: Option<string>,
    toolName: Option<string>,
    awaitMode: Option<string>,
    cancelPolicy: Option<string>,
    classification: Classification)

  datatype WalkError = DepthExceeded(at: Id) | RequestNotFound(id: Id)

  const MAX_CASCADE_DEPTH: nat := 8

  /** A column counts when it holds text that is not blank; it is trimmed. */
  function StringField(column: Option<string>): Option<string>
  {
    if column.Some? && Text.Trim(column.value) != "" then Some(Text.Trim(column.value)) else None
  }

  function Calls(snap: Snapshot, parent: Id): seq<ToolCall>
  {
    if parent in snap.calls then snap.calls[parent] else []
  }

  function Child(call: ToolCall): Option<Id>
  {
    StringField(call.childRequest)
  }

  predicate Terminal(state: Option<RL.State>)
  {
    state.Some? && RL.IsTerminal(state.value)
  }

  function Classify(state: Option<RL.State>, policy: Option<string>): Classification
  {
    if Terminal(state) then AlreadyTerminal
    else if policy == Some("cascade") then WillInterrupt
    else if policy == Some("detach") then WillDetach
    else UnknownPolicy
  }

  predicate Descends(c: Classification, includeTerminal: bool)
  {
    c.WillInterrupt? || (c.AlreadyTerminal? && includeTerminal)
  }

  function MakeRow(parent: Id, call: ToolCall, child: Id, request: Request): Row
  {
    var policy := StringField(call.cancelPolicy);
    Row(child, request.session, request.behavior, request.state, parent, StringField(call.callId),
        StringField(call.toolName), StringField(call.awaitMode), policy, Classify(request.state, policy))
  }

  datatype Progress = Progress(seen: set<Id>, rows: seq<Row>)

  function Expand(snap: Snapshot, includeTerminal: bool, parent: Id, depth: nat, p: Progress)
    : Result<Progress, WalkError>
    requires depth <= MAX_CASCADE_DEPTH
    decreases MAX_CASCADE_DEPTH - depth, 1, 0
  {
    if depth == MAX_CASCADE_DEPTH then Err(DepthExceeded(parent))
    else ExpandCalls(snap, includeTerminal, parent, Calls(snap, parent), depth, p)
  }

  function ExpandCalls(snap: Snapshot, includeTerminal: bool, parent: Id, calls: seq<ToolCall>, depth: nat, p: Progress)
    : Result<Progress, WalkError>
    requires depth < MAX_CASCADE_DEPTH
    decreases MAX_CASCADE_DEPTH - depth, 0, |calls|
  {
    if calls == [] then Ok(p)
    else
      match ExpandCalls(snap, includeTerminal, parent, calls[..|calls| - 1], depth, p)
      case Err(e) => Err(e)
      case Ok(q) => ExpandCall(snap, includeTerminal, parent, calls[|calls| - 1], depth, q)
  }

  function ExpandCall(snap: Snapshot, includeTerminal: bool, parent: Id, call: ToolCall, depth: nat, q: Progress)
    : Result<Progress, WalkError>
    requires depth < MAX_CASCADE_DEPTH
    decreases MAX_CASCADE_DEPTH - depth, 0, 0
  {
    var child := Child(call);
    if child.None? || child.value in q.seen then Ok(q)
    else if child.value !in snap.requests then Err(RequestNotFound(child.value))
    else
      var row := MakeRow(parent, call, child.value, snap.requests[child.value]);
      var q' := Progress(q.seen + {child.value}, q.rows + [row]);
      if Descends(row.classification, includeTerminal)
      then Expand(snap, includeTerminal, child.value, depth + 1, q')
      else Ok(q')
  }

  /** The state the descent shares: what it has seen, and the rows so far. */
  class Walker {
    const snap: Snapshot
    const includeTerminal: bool
    var seen: set<Id>
    var rows: seq<Row>

    constructor (snap: Snapshot, includeTerminal: bool, root: Id)
      ensures this.snap == snap && this.includeTerminal == includeTerminal
      ensures seen == {root} && rows == []
    {
      this.snap, this.includeTerminal := snap, includeTerminal;
      seen, rows := {root}, [];
    }

    method Descend(parent: Id, depth: nat) returns (r: Result<(), WalkError>)
      requires depth <= MAX_CASCADE_DEPTH
      modifies this
      ensures match Expand(snap, includeTerminal, parent, depth, Progress(old(seen), old(rows)))
              case Ok(p) => r == Ok(()) && Progress(seen, rows) == p
              case Err(e) => r == Err(e)
      decreases MAX_CASCADE_DEPTH - depth
    {
      if depth >= MAX_CASCADE_DEPTH {
        return Err(DepthExceeded(parent));
      }
      var calls := Calls(snap, parent);
      ghost var start := Progress(seen, rows);
      for i := 0 to |calls|
        invariant ExpandCalls(snap, includeTerminal, parent, calls[..i], depth, start) == Ok(Progress(seen, rows))
      {
        assert calls[..i + 1][..i] == calls[..i];
        var child := Child(calls[i]);
        if child.Some? && child.value !in seen {
          seen := seen + {child.value};
          if child.value !in snap.requests {
            ErrorStays(snap, includeTerminal, parent, calls, i + 1, depth, start);
            return Err(RequestNotFound(child.value));
          }
          var row := MakeRow(parent, calls[i], child.value, snap.requests[child.value]);
          rows := rows + [row];
          if Descends(row.classification, includeTerminal) {
            r := Descend(child.value, depth + 1);
            if r.Err? {
              ErrorStays(snap, includeTerminal, parent, calls, i + 1, depth, start);
              return;
            }
          }
        }
      }
      assert calls[..|calls|] == calls;
      return Ok(());
    }
  }

  lemma {:induction false} ErrorStays(snap: Snapshot, includeTerminal: bool, parent: Id, calls: seq<ToolCall>, n: nat,
                                      depth: nat, p: Progress)
    requires depth < MAX_CASCADE_DEPTH && n <= |calls|
    requires ExpandCalls(snap, includeTerminal, parent, calls[..n], depth, p).Err?
    ensures ExpandCalls(snap, includeTerminal, parent, calls, depth, p)
         == ExpandCalls(snap, includeTerminal, parent, calls[..n], depth, p)
    decreases |calls|
  {
    if n == |calls| {
      assert calls[..n] == calls;
    } else {
      assert calls[..|calls| - 1][..n] == calls[..n];
      ErrorStays(snap, includeTerminal, parent, calls[..|calls| - 1], n, depth, p);
    }
  }

  datatype WalkResult = WalkResult(rootState: Option<RL.State>, rootInterruptRequestedAt: Option<string>, rows: seq<Row>)

  /** Only the root lookup is scoped to the operator's own documents. */
  predicate Visible(snap: Snapshot, root: Id, agentDid: Option<string>)
  {
    root in snap.requests && (agentDid.None? || snap.requests[root].agentDid == agentDid)
  }

  function Walk(snap: Snapshot, root: Id, agentDid: Option<string>, includeTerminal: bool): Result<WalkResult, WalkError>
  {
    if !Visible(snap, root, agentDid) then Err(RequestNotFound(root))
    else
      match Expand(snap, includeTerminal, root, 0, Progress({root}, []))
      case Err(e) => Err(e)
      case Ok(p) => Ok(WalkResult(snap.requests[root].state, snap.requests[root].interruptRequestedAt, p.rows))
  }

  method RunWalk(snap: Snapshot, root: Id, agentDid: Option<string>, includeTerminal: bool)
    returns (r: Result<WalkResult, WalkError>)
    ensures r == Walk(snap, root, agentDid, includeTerminal)
  {
    if !Visible(snap, root, agentDid) {
      return Err(RequestNotFound(root));
    }
    var walker := new Walker(snap, includeTerminal, root);
    var done := walker.Descend(root, 0);
    if done.Err? {
      return Err(done.error);
    }
    return Ok(WalkResult(snap.requests[root].state, snap.requests[root].interruptRequestedAt, walker.rows));
  }

  // ----- the rows are exact

  /** `row` was read off a tool call of its parent. */
  ghost predicate FromCall(snap: Snapshot, row: Row)
  {
    exists call ::
      && call in Calls(snap, row.parent) && Child(call) == Some(row.id) && row.id in snap.requests
      && row == MakeRow(row.parent, call, row.id, snap.requests[row.id])
  }

  ghost predicate ChildrenIn(snap: Snapshot, parent: Id, calls: seq<ToolCall>, ids: set<Id>)
  {
    forall call | call in calls && Child(call).Some? :: Child(call).value in ids
  }

  /** The parent of row `i` is `parent`, or an earlier row that was expanded. */
  ghost predicate Parented(includeTerminal: bool, parent: Id, rows: seq<Row>, i: nat)
    requires i < |rows|
  {
    || rows[i].parent == parent
    || exists j :: 0 <= j < i && rows[j].id == rows[i].parent && Descends(rows[j].classification, includeTerminal)
  }

  function Ids(rows: seq<Row>): set<Id>
  {
    set i | 0 <= i < |rows| :: rows[i].id
  }

  /** `rows` is what a descent below `parent` may add when it has `seen` before and `all` afterwards. */
  ghost predicate Found(snap: Snapshot, t: bool, parent: Id, seen: set<Id>, rows: seq<Row>, all: set<Id>)
  {
    && all == seen + Ids(rows)
    && (forall i | 0 <= i < |rows| :: rows[i].id !in seen && FromCall(snap, rows[i]))
    && (forall i, j | 0 <= i < j < |rows| :: rows[i].id != rows[j].id)
    && (forall i | 0 <= i < |rows| :: Parented(t, parent, rows, i))
    && (forall i | 0 <= i < |rows| :: Descends(rows[i].classification, t) ==>
          ChildrenIn(snap, rows[i].id, Calls(snap, rows[i].id), all))
  }

  lemma {:induction false} FoundMore(snap: Snapshot, t: bool, parent: Id, seen: set<Id>, a: seq<Row>, mid: set<Id>, b: seq<Row>, all: set<Id>)
    requires Found(snap, t, parent, seen, a, mid) && Found(snap, t, parent, mid, b, all)
    ensures Found(snap, t, parent, seen, a + b, all)
  {
    hide Parented, FromCall, Ids, Calls;
    var rows := a + b;
    IdsOfBoth(a, b);
    forall i | 0 <= i < |rows| ensures Parented(t, parent, rows, i) {
      ParentedMore(t, parent, a, b, i);
    }
    forall i | 0 <= i < |rows|
      ensures rows[i].id !in seen && FromCall(snap, rows[i])
      ensures Descends(rows[i].classification, t) ==> ChildrenIn(snap, rows[i].id, Calls(snap, rows[i].id), all)
    {
      assert rows[i] == if i < |a| then a[i] else b[i - |a|];
    }
    forall i, j | 0 <= i < j < |rows| ensures rows[i].id != rows[j].id {
      assert rows[i] == if i < |a| then a[i] else b[i - |a|];
      assert rows[j] == if j < |a| then a[j] else b[j - |a|];
      if i < |a| <= j {
        IdIn(a, i);
      }
    }
  }

  lemma {:induction false} IdIn(rows: seq<Row>, i: nat)
    requires i < |rows|
    ensures rows[i].id in Ids(rows)
  {
  }

  lemma {:induction false} ParentedMore(t: bool, parent: Id, a: seq<Row>, b: seq<Row>, i: nat)
    requires i < |a + b|
    requires forall k | 0 <= k < |a| :: Parented(t, parent, a, k)
    requires forall k | 0 <= k < |b| :: Parented(t, parent, b, k)
    ensures Parented(t, parent, a + b, i)
  {
    if i < |a| {
      assert Parented(t, parent, a, i);
      if a[i].parent != parent {
        var j :| 0 <= j < i && a[j].id == a[i].parent && Descends(a[j].classification, t);
        assert (a + b)[j] == a[j];
      }
    } else {
      assert Parented(t, parent, b, i - |a|);
      if b[i - |a|].parent != parent {
        var j :| 0 <= j < i - |a| && b[j].id == b[i - |a|].parent && Descends(b[j].classification, t);
        assert (a + b)[j + |a|] == b[j];
      }
    }
  }

  lemma {:induction false} IdsOfBoth(a: seq<Row>, b: seq<Row>)
    ensures Ids(a + b) == Ids(a) + Ids(b)
  {
    forall id | id in Ids(a) + Ids(b) ensures id in Ids(a + b) {
      if id in Ids(a) {
        var i :| 0 <= i < |a| && a[i].id == id;
        assert (a + b)[i].id == id;
      } else {
        var i :| 0 <= i < |b| && b[i].id == id;
        assert (a + b)[i + |a|].id == id;
      }
    }
  }

  lemma {:induction false} ParentedBelow(t: bool, parent: Id, row: Row, below: seq<Row>, i: nat)
    requires i < |below| && Parented(t, row.id, below, i) && Descends(row.classification, t)
    ensures Parented(t, parent, [row] + below, i + 1)
  {
    var rows := [row] + below;
    if below[i].parent == row.id {
      assert rows[0].id == rows[i + 1].parent;
    } else {
      var j :| 0 <= j < i && below[j].id == below[i].parent && Descends(below[j].classification, t);
      assert rows[j + 1] == below[j];
    }
  }

  /** A new row of `parent`, with what its own descent finds. */
  lemma {:induction false} FoundBelow(snap: Snapshot, t: bool, parent: Id, seen: set<Id>, row: Row, below: seq<Row>, all: set<Id>)
    requires row.id !in seen && row.parent == parent && FromCall(snap, row)
    requires Found(snap, t, row.id, seen + {row.id}, below, all)
    requires Descends(row.classification, t) ==> ChildrenIn(snap, row.id, Calls(snap, row.id), all)
    requires !Descends(row.classification, t) ==> below == []
    ensures Found(snap, t, parent, seen, [row] + below, all)
  {
    var rows := [row] + below;
    IdsOfBoth([row], below);
    assert Ids([row]) == {row.id} by {
      assert [row][0].id == row.id;
    }
    assert Parented(t, parent, rows, 0);
    hide Parented, Ids, Descends, ChildrenIn, FromCall, Calls;
    forall i | 0 <= i < |rows| ensures Parented(t, parent, rows, i) {
      if i > 0 {
        ParentedBelow(t, parent, row, below, i - 1);
      }
    }
    forall i | 0 <= i < |rows| && Descends(rows[i].classification, t)
      ensures ChildrenIn(snap, rows[i].id, Calls(snap, rows[i].id), all)
    {
      if i > 0 {
        assert rows[i] == below[i - 1];
      }
    }
    forall i | 0 <= i < |rows| ensures rows[i].id !in seen && FromCall(snap, rows[i]) {
      if i > 0 {
        assert rows[i] == below[i - 1];
      }
    }
  }

  lemma {:induction false} ExpandFinds(snap: Snapshot, t: bool, parent: Id, depth: nat, p: Progress) returns (rows: seq<Row>)
    requires depth <= MAX_CASCADE_DEPTH && Expand(snap, t, parent, depth, p).Ok?
    ensures var q := Expand(snap, t, parent, depth, p).value;
            && q.rows == p.rows + rows && Found(snap, t, parent, p.seen, rows, q.seen)
            && ChildrenIn(snap, parent, Calls(snap, parent), q.seen)
    decreases MAX_CASCADE_DEPTH - depth, 1, 0
  {
    var calls := Calls(snap, parent);
    assert calls[..|calls|] == calls;
    rows := ExpandCallsFinds(snap, t, parent, calls, |calls|, depth, p);
  }

  lemma {:induction false} ExpandCallsFinds(snap: Snapshot, t: bool, parent: Id, calls: seq<ToolCall>, n: nat,
                                            depth: nat, p: Progress) returns (rows: seq<Row>)
    requires depth < MAX_CASCADE_DEPTH && calls == Calls(snap, parent) && n <= |calls|
    requires ExpandCalls(snap, t, parent, calls[..n], depth, p).Ok?
    ensures var q := ExpandCalls(snap, t, parent, calls[..n], depth, p).value;
            && q.rows == p.rows + rows && Found(snap, t, parent, p.seen, rows, q.seen)
            && ChildrenIn(snap, parent, calls[..n], q.seen)
    decreases MAX_CASCADE_DEPTH - depth, 0, n
  {
    hide Found, ExpandCall;
    if n == 0 {
      rows := [];
      FoundNothing(snap, t, parent, p.seen);
    } else {
      assert calls[..n][..n - 1] == calls[..n - 1] && calls[..n] == calls[..n - 1] + [calls[n - 1]];
      var before := ExpandCallsFinds(snap, t, parent, calls, n - 1, depth, p);
      var q := ExpandCalls(snap, t, parent, calls[..n - 1], depth, p).value;
      var r := ExpandCall(snap, t, parent, calls[n - 1], depth, q).value;
      var more := ExpandCallFinds(snap, t, parent, calls[n - 1], depth, q);
      FoundMore(snap, t, parent, p.seen, before, q.seen, more, r.seen);
      rows := before + more;
      assert p.rows + (before + more) == (p.rows + before) + more;
    }
  }

  lemma {:induction false} ExpandCallFinds(snap: Snapshot, t: bool, parent: Id, call: ToolCall, depth: nat, q: Progress)
    returns (rows: seq<Row>)
    requires depth < MAX_CASCADE_DEPTH && call in Calls(snap, parent)
    requires ExpandCall(snap, t, parent, call, depth, q).Ok?
    ensures var r := ExpandCall(snap, t, parent, call, depth, q).value;
            && r.rows == q.rows + rows && Found(snap, t, parent, q.seen, rows, r.seen)
            && q.seen <= r.seen && (Child(call).Some? ==> Child(call).value in r.seen)
    decreases MAX_CASCADE_DEPTH - depth, 0, 0
  {
    hide FromCall, Parented;
    var child := Child(call);
    if child.None? || child.value in q.seen {
      rows := [];
      FoundNothing(snap, t, parent, q.seen);
    } else {
      var row := MakeRow(parent, call, child.value, snap.requests[child.value]);
      ReadsOffCall(snap, parent, call, row);
      var q' := Progress(q.seen + {child.value}, q.rows + [row]);
      var r := ExpandCall(snap, t, parent, call, depth, q).value;
      var below := [];
      if Descends(row.classification, t) {
        below := ExpandFinds(snap, t, child.value, depth + 1, q');
      } else {
        FoundNothing(snap, t, row.id, q'.seen);
      }
      FoundBelow(snap, t, parent, q.seen, row, below, r.seen);
      rows := [row] + below;
      assert q.rows + ([row] + below) == (q.rows + [row]) + below;
    }
  }

  lemma {:induction false} FoundNothing(snap: Snapshot, t: bool, parent: Id, seen: set<Id>)
    ensures Found(snap, t, parent, seen, [], seen)
  {
  }

  lemma {:induction false} ReadsOffCall(snap: Snapshot, parent: Id, call: ToolCall, row: Row)
    requires call in Calls(snap, parent) && Child(call).Some? && Child(call).value in snap.requests
    requires row == MakeRow(parent, call, Child(call).value, snap.requests[Child(call).value])
    ensures FromCall(snap, row)
  {
  }
}
