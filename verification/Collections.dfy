/** The desired-state collections and the order in which they are written. */
module Collections {
  datatype Collection =
    | AgentPrincipal
    | AgentBehavior
    | Skill
    | DatastoreToolSurface
    | ChainKeyBinding
    | EthTool
    | WorkspaceRoot
    | ToolSelection
    | InferenceBackend
    | InferenceProfile
    | ToolServiceRegistry
    | ProjectionAcpBinding
    | Task
    | Schedule
    | EventTrigger

  const APPLY_ORDER: seq<Collection> := [
    InferenceBackend, InferenceProfile, ToolServiceRegistry, DatastoreToolSurface, ChainKeyBinding, EthTool,
    ToolSelection, Skill, AgentBehavior, ProjectionAcpBinding, Task, Schedule, EventTrigger, AgentPrincipal
  ]

  function UniqueField(c: Collection): string
  {
    match c
    case AgentPrincipal => "agent_did"
    case AgentBehavior => "behavior_id"
    case Skill => "skill_id"
    case DatastoreToolSurface => "surface_id"
    case ChainKeyBinding => "binding_id"
    case EthTool => "tool_id"
    case WorkspaceRoot => "root_path"
    case ToolSelection => "selection_id"
    case InferenceBackend => "backend_id"
    case InferenceProfile => "profile_id"
    case ToolServiceRegistry => "service_id"
    case ProjectionAcpBinding => "binding_id"
    case Task => "task_id"
    case Schedule => "schedule_id"
    case EventTrigger => "trigger_id"
  }

  /** No two collections share the name of their id field, but the two kinds of binding. */
  lemma {:induction false} IdFieldsTell(c: Collection, d: Collection)
    ensures UniqueField(c) == UniqueField(d) <==>
            c == d || (c in {ChainKeyBinding, ProjectionAcpBinding} && d in {ChainKeyBinding, ProjectionAcpBinding})
    ensures UniqueField(AgentPrincipal) == "agent_did" && UniqueField(AgentBehavior) == "behavior_id"
    ensures UniqueField(Skill) == "skill_id" && UniqueField(DatastoreToolSurface) == "surface_id"
    ensures UniqueField(ChainKeyBinding) == "binding_id" && UniqueField(EthTool) == "tool_id"
    ensures UniqueField(ToolSelection) == "selection_id" && UniqueField(InferenceBackend) == "backend_id"
    ensures UniqueField(InferenceProfile) == "profile_id" && UniqueField(ToolServiceRegistry) == "service_id"
    ensures UniqueField(Task) == "task_id" && UniqueField(Schedule) == "schedule_id" && UniqueField(EventTrigger) == "trigger_id"
  {
    var f, g := UniqueField(c), UniqueField(d);
    assert |f| >= 7 && |g| >= 7;
    assert f == g ==> f[0] == g[0] && f[1] == g[1] && f[2] == g[2];
  }

  /** The position of a collection in the apply order; workspace roots have none. */
  function Rank(c: Collection): nat
  {
    match c
    case InferenceBackend => 0
    case InferenceProfile => 1
    case ToolServiceRegistry => 2
    case DatastoreToolSurface => 3
    case ChainKeyBinding => 4
    case EthTool => 5
    case ToolSelection => 6
    case Skill => 7
    case AgentBehavior => 8
    case ProjectionAcpBinding => 9
    case Task => 10
    case Schedule => 11
    case EventTrigger => 12
    case AgentPrincipal => 13
    case WorkspaceRoot => 14
  }

  lemma {:induction false} OrderIsRanked(i: nat)
    requires i < |APPLY_ORDER|
    ensures Rank(APPLY_ORDER[i]) == i && APPLY_ORDER[i] != WorkspaceRoot
  {
  }

  /** The dependency rank: what is referred to ranks below what refers to it. */
  function DependencyRank(c: Collection): nat
  {
    match c
    case AgentBehavior => 1
    case ProjectionAcpBinding => 2
    case Task => 2
    case Schedule => 2
    case AgentPrincipal => 3
    case EventTrigger => 3
    case _ => 0
  }

  /** The apply order refines the dependency rank, and lists every collection but
      workspace roots exactly once. */
  lemma {:induction false} OrderRefinesRank(i: nat, j: nat, c: Collection)
    requires i < j < |APPLY_ORDER|
    ensures DependencyRank(APPLY_ORDER[i]) <= DependencyRank(APPLY_ORDER[j]) && APPLY_ORDER[i] != APPLY_ORDER[j]
    ensures c in APPLY_ORDER <==> c != WorkspaceRoot
  {
    OrderIsRanked(i);
    OrderIsRanked(j);
    if c != WorkspaceRoot {
      assert APPLY_ORDER[Rank(c)] == c;
    } else if c in APPLY_ORDER {
      var k :| 0 <= k < |APPLY_ORDER| && APPLY_ORDER[k] == c;
      OrderIsRanked(k);
    }
  }
}
