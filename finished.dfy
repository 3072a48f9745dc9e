/** The answers of the Finished status object (src/domain/Finished.java). The
    status layer in TaskStatus dispatches to these for a finished task. */
module FinishedStatus {
  import opened Outcomes
  import opened Timespans
  import opened Tasks

  /** A finished task takes no alternative. */
  function SetAlternativeTask(): Outcome {
    Fail(IllegalState)
  }

  /** There is nothing to re-derive: the task keeps its fields. */
  function Update(n: Node): Node {
    n
  }

  function IsFulfilled(): bool {
    true
  }

  /** Fulfilled before `span` exactly when the task's own span ends no later
      than `span` starts; a task without a span raises IllegalState. */
  function IsFulfilledBefore(n: Node, span: Timespan): (r: Result<bool>)
    ensures r.Err? <==> n.timeSpan.None?
    ensures r.Err? ==> r.error == IllegalState
    ensures r.Ok? ==> (r.value <==> n.timeSpan.value.end <= span.start)
  {
    EndsBefore(n, span)
  }

  function CanBeFulfilled(): bool {
    true
  }

  function EstimatedWorkTimeNeeded(): Duration {
    0
  }
}
