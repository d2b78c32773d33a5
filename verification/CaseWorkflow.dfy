/** The order of investigation statuses (investigation.workflow.ts). */
module CaseWorkflow {
  import opened Common

  datatype Status = Open | Investigating | Review | Completed | Archived

  function WorkflowStatuses(): seq<Status> {
    [Open, Investigating, Review, Completed, Archived]
  }

  function WorkflowIndex(s: Status): nat {
    match s
    case Open => 0
    case Investigating => 1
    case Review => 2
    case Completed => 3
    case Archived => 4
  }

  predicate IsStatusChangeLocked(s: Status) {
    s.Archived?
  }

  /** What a user may pick: the current status and, unless locked, the one after it. */
  function SelectableWorkflowStatuses(current: Status): seq<Status> {
    if IsStatusChangeLocked(current) then [current]
    else
      var next := WorkflowIndex(current) + 1;
      [current] + if next < |WorkflowStatuses()| then [WorkflowStatuses()[next]] else []
  }

  predicate CanTransitionStatus(from: Status, to: Status) {
    from == to || (!IsStatusChangeLocked(from) && to in SelectableWorkflowStatuses(from))
  }

  /** The index is the position in the list, so statuses are compared by it. */
  lemma IndexIsPosition(s: Status)
    ensures WorkflowStatuses()[WorkflowIndex(s)] == s
    ensures forall i | 0 <= i < |WorkflowStatuses()| :: WorkflowIndex(WorkflowStatuses()[i]) == i
  {
  }

  /** A status may stay or move exactly one step forward; nothing else. */
  lemma TransitionIsOneStep(from: Status, to: Status)
    ensures CanTransitionStatus(from, to) <==>
      WorkflowIndex(to) == WorkflowIndex(from) || WorkflowIndex(to) == WorkflowIndex(from) + 1
    ensures CanTransitionStatus(from, to) <==> to in SelectableWorkflowStatuses(from)
  {
    IndexIsPosition(from);
    IndexIsPosition(to);
  }
}
