/** The lifecycle of an agent request: one column, one enumeration. */
module RequestLifecycle {
  import opened Prelude

  datatype State =
    | WorkspaceBindingPending
    | Pending
    | Claimed
    | Processing
    | InputRequired
    | Completed
    | Failed
    | Superseded
    | Dead
    | Interrupted

  predicate IsTerminal(s: State)
  {
    s.Completed? || s.Failed? || s.Superseded? || s.Dead? || s.Interrupted?
  }

  predicate IsActiveRuntime(s: State)
  {
    s.Pending? || s.Claimed? || s.Processing?
  }

  function AsStr(s: State): string
  {
    match s
    case WorkspaceBindingPending => "workspaceBindingPending"
    case Pending => "pending"
    case Claimed => "claimed"
    case Processing => "processing"
    case InputRequired => "inputRequired"
    case Completed => "completed"
    case Failed => "failed"
    case Superseded => "superseded"
    case Dead => "dead"
    case Interrupted => "interrupted"
  }

  function Parse(value: string): Option<State>
  {
    if value == "workspaceBindingPending" then Some(WorkspaceBindingPending)
    else if value == "pending" then Some(Pending)
    else if value == "claimed" then Some(Claimed)
    else if value == "processing" then Some(Processing)
    else if value == "inputRequired" then Some(InputRequired)
    else if value == "completed" then Some(Completed)
    else if value == "failed" then Some(Failed)
    else if value == "superseded" then Some(Superseded)
    else if value == "dead" then Some(Dead)
    else if value == "interrupted" then Some(Interrupted)
    else None
  }

  /** Which states end a request, and which ones run it. */
  lemma {:induction false} ClassesOf(s: State)
    ensures IsTerminal(s) <==> AsStr(s) in {"completed", "failed", "superseded", "dead", "interrupted"}
    ensures IsActiveRuntime(s) <==> AsStr(s) in {"pending", "claimed", "processing"}
    ensures !IsTerminal(s) && !IsActiveRuntime(s) <==> AsStr(s) in {"workspaceBindingPending", "inputRequired"}
  {
    ParseInvertsAsStr(AsStr(s), s);
    forall t: State ensures AsStr(t) == AsStr(s) <==> t == s {
      ParseInvertsAsStr(AsStr(s), t);
    }
    hide Parse;
    assert AsStr(Completed) == "completed" && AsStr(Failed) == "failed" && AsStr(Superseded) == "superseded";
    assert AsStr(Dead) == "dead" && AsStr(Interrupted) == "interrupted" && AsStr(Pending) == "pending";
    assert AsStr(Claimed) == "claimed" && AsStr(Processing) == "processing";
    assert AsStr(WorkspaceBindingPending) == "workspaceBindingPending" && AsStr(InputRequired) == "inputRequired";
  }

  /** Parsing inverts printing, in both directions. */
  lemma {:induction false} ParseInvertsAsStr(value: string, s: State)
    ensures Parse(value) == Some(s) <==> value == AsStr(s)
  {
    assert Parse(AsStr(s)) == Some(s) by {
      var t := AsStr(s);
      assert |t| >= 4;
      assert t[0] == 'w' || t[0] == 'p' || t[0] == 'c' || t[0] == 'i' || t[0] == 'f' || t[0] == 's' || t[0] == 'd';
    }
  }
}
