/** The status-dependent queries of a task (src/domain/Task.java:313-316,
    441-453, 511-568): the status re-derived on every read, fulfilment, the
    estimated work still needed and the time spent. Each recursion follows a
    prerequisite or alternative edge and so lowers the rank. */
module TaskStatus {
  import opened Outcomes
  import opened Timespans
  import opened Tasks
  import FinishedStatus

  /** Only a failed task carries an alternative: setAlternativeTask succeeds
      only in the Failed status, which no transition leaves. */
  ghost predicate AlternativesOnFailed(g: Graph) {
    forall x :: x in g && g[x].alternative.Some? ==> g[x].status == Failed
  }

  /** Task.isFulfilled, dispatched on the status: a finished task is
      fulfilled, a failed one when its alternative is. */
  function IsFulfilled(g: Graph, ghost rank: map<TaskId, nat>, x: TaskId): bool
    requires RankedBy(g, rank) && x in g
    decreases rank[x]
  {
    match g[x].status
    case Finished => FinishedStatus.IsFulfilled()
    case Failed => g[x].alternative.Some? && IsFulfilled(g, rank, g[x].alternative.value)
    case _ => false
  }

  function PrerequisitesFulfilled(g: Graph, ghost rank: map<TaskId, nat>, x: TaskId): bool
    requires RankedBy(g, rank) && x in g
  {
    forall p :: p in g[x].prerequisites ==> IsFulfilled(g, rank, p)
  }

  /** Task.getStatus: the Available and Unavailable status objects re-derive
      themselves from the prerequisites on every read; Finished and Failed
      are final. */
  function GetStatus(g: Graph, ghost rank: map<TaskId, nat>, x: TaskId): Status
    requires RankedBy(g, rank) && x in g
  {
    match g[x].status
    case Finished => FinishedStatus.Update(g[x]).status
    case Failed => Failed
    case _ => if PrerequisitesFulfilled(g, rank, x) then Available else Unavailable
  }

  /** Task.canBeFulfilled: finished and available tasks can; a failed task
      through its alternative; an unavailable one when all prerequisites can. */
  function CanBeFulfilled(g: Graph, ghost rank: map<TaskId, nat>, x: TaskId): bool
    requires RankedBy(g, rank) && x in g
    decreases rank[x]
  {
    match GetStatus(g, rank, x)
    case Finished => FinishedStatus.CanBeFulfilled()
    case Available => true
    case Failed => g[x].alternative.Some? && CanBeFulfilled(g, rank, g[x].alternative.value)
    case Unavailable => forall p :: p in g[x].prerequisites ==> CanBeFulfilled(g, rank, p)
  }

  /** Task.estimatedWorkTimeNeeded as documented: nothing for finished or
      failed tasks, the own estimate for an available one, and for an
      unavailable one the own estimate plus, per prerequisite, its work still
      needed and the estimate of its alternative. */
  function EstimatedWorkTimeNeeded(g: Graph, ghost rank: map<TaskId, nat>, x: TaskId): Duration
    requires RankedBy(g, rank) && x in g
    decreases rank[x], 1
  {
    match GetStatus(g, rank, x)
    case Finished => FinishedStatus.EstimatedWorkTimeNeeded()
    case Failed => 0
    case Available => g[x].estimatedDuration
    case Unavailable => g[x].estimatedDuration + PrerequisiteWork(g, rank, x, g[x].prerequisites)
  }

  function PrerequisiteWork(g: Graph, ghost rank: map<TaskId, nat>, x: TaskId, ps: seq<TaskId>): Duration
    requires RankedBy(g, rank) && x in g
    requires forall p :: p in ps ==> p in g[x].prerequisites
    decreases rank[x], 0, |ps|
  {
    if ps == [] then 0
    else
      var p := ps[0];
      assert p in Successors(g[x]);
      var alt := g[p].alternative;
      EstimatedWorkTimeNeeded(g, rank, p) + (if alt.Some? then g[alt.value].estimatedDuration else 0)
        + PrerequisiteWork(g, rank, x, ps[1..])
  }

  /** Task.getTimeSpent: zero without a time span; otherwise the span's
      working length, plus the largest time spent on a prerequisite, plus the
      time spent on the alternative. */
  function TimeSpent(g: Graph, ghost rank: map<TaskId, nat>, x: TaskId, work: WorkTime): Duration
    requires RankedBy(g, rank) && x in g
    decreases rank[x], 1
  {
    if g[x].timeSpan.None? then 0
    else
      var alt := g[x].alternative;
      g[x].timeSpan.value.GetDuration(work) + MaxTimeSpent(g, rank, x, g[x].prerequisites, work)
        + (if alt.Some? then TimeSpent(g, rank, alt.value, work) else 0)
  }

  /** The running maximum of getTimeSpent's loop over `ps`, in list order. */
  function MaxTimeSpent(g: Graph, ghost rank: map<TaskId, nat>, x: TaskId, ps: seq<TaskId>, work: WorkTime): Duration
    requires RankedBy(g, rank) && x in g
    requires forall p :: p in ps ==> p in g[x].prerequisites
    decreases rank[x], 0, |ps|
  {
    if ps == [] then 0
    else
      var p := ps[|ps| - 1];
      assert p in Successors(g[x]);
      var m := MaxTimeSpent(g, rank, x, ps[..|ps| - 1], work);
      var t := TimeSpent(g, rank, p, work);
      if t > m then t else m
  }

  /** The table of permitted transitions the status tests pin down: Finished
      and Failed accept none, Available may finish or fail, Unavailable may
      only fail. */
  function CanUpdateStatus(current: Status, target: Status): bool {
    match current
    case Available => target == Finished || target == Failed
    case Unavailable => target == Failed
    case _ => false
  }

  /** The graphs agree except on task `z`, whose edges are unchanged. */
  ghost predicate AgreeExcept(g: Graph, h: Graph, z: TaskId) {
    g.Keys == h.Keys && z in g &&
    Successors(h[z]) == Successors(g[z]) && h[z].prerequisites == g[z].prerequisites &&
    h[z].alternative == g[z].alternative &&
    forall y :: y in g && y != z ==> h[y] == g[y]
  }

  /** Changing one task's fields but not its edges keeps a ranking. */
  lemma SameEdgesSameRanking(g: Graph, h: Graph, rank: map<TaskId, nat>, z: TaskId)
    requires RankedBy(g, rank) && AgreeExcept(g, h, z)
    ensures RankedBy(h, rank)
  {
    forall x | x in h
      ensures Successors(h[x]) == Successors(g[x])
    {
    }
  }

  /** If a change at `z` leaves `z` unfulfilled before and after, no task's
      fulfilment changes. This covers re-deriving a status between Available
      and Unavailable and failing a task that has no alternative. */
  lemma {:induction false} UnfulfilledChangeKeepsFulfilment(g: Graph, h: Graph, rank: map<TaskId, nat>, z: TaskId, y: TaskId)
    requires RankedBy(g, rank) && RankedBy(h, rank) && AgreeExcept(g, h, z) && y in g
    requires !IsFulfilled(g, rank, z) && !IsFulfilled(h, rank, z)
    ensures IsFulfilled(h, rank, y) == IsFulfilled(g, rank, y)
    decreases rank[y]
  {
    if y != z && g[y].status == Failed && g[y].alternative.Some? {
      assert g[y].alternative.value in Successors(g[y]);
      UnfulfilledChangeKeepsFulfilment(g, h, rank, z, g[y].alternative.value);
    }
  }

  /** If a change at `z` makes `z` fulfilled, every fulfilled task stays
      fulfilled. */
  lemma {:induction false} FulfillingKeepsFulfilment(g: Graph, h: Graph, rank: map<TaskId, nat>, z: TaskId, y: TaskId)
    requires RankedBy(g, rank) && RankedBy(h, rank) && AgreeExcept(g, h, z) && y in g
    requires IsFulfilled(h, rank, z)
    requires IsFulfilled(g, rank, y)
    ensures IsFulfilled(h, rank, y)
    decreases rank[y]
  {
    if y != z && g[y].status == Failed {
      assert g[y].alternative.value in Successors(g[y]);
      FulfillingKeepsFulfilment(g, h, rank, z, g[y].alternative.value);
    }
  }

  /** Writing the derived status back (getStatus calls setStatus) changes
      neither that task's status nor any other task's: re-deriving is
      idempotent. */
  lemma RederivedStatusIsStable(g: Graph, rank: map<TaskId, nat>, z: TaskId, y: TaskId)
    requires RankedBy(g, rank) && z in g && y in g
    ensures var h := g[z := g[z].(status := GetStatus(g, rank, z))];
      RankedBy(h, rank) && GetStatus(h, rank, y) == GetStatus(g, rank, y)
  {
    var h := g[z := g[z].(status := GetStatus(g, rank, z))];
    SameEdgesSameRanking(g, h, rank, z);
    forall w | w in g
      ensures IsFulfilled(h, rank, w) == IsFulfilled(g, rank, w)
    {
      UnfulfilledOrFinal(g, h, rank, z, w);
    }
    assert PrerequisitesFulfilled(h, rank, y) == PrerequisitesFulfilled(g, rank, y);
  }

  lemma UnfulfilledOrFinal(g: Graph, h: Graph, rank: map<TaskId, nat>, z: TaskId, w: TaskId)
    requires RankedBy(g, rank) && RankedBy(h, rank) && z in g && w in g
    requires h == g[z := g[z].(status := GetStatus(g, rank, z))]
    ensures IsFulfilled(h, rank, w) == IsFulfilled(g, rank, w)
  {
    if g[z].status == Finished || g[z].status == Failed {
      assert h == g;
    } else {
      UnfulfilledChangeKeepsFulfilment(g, h, rank, z, w);
    }
  }

  /** The statuses of the other tasks after task `z` fails: nothing changes,
      because an unfinished task without an alternative was not fulfilled. */
  lemma FailingKeepsOtherStatuses(g: Graph, rank: map<TaskId, nat>, z: TaskId, span: Timespan, y: TaskId)
    requires RankedBy(g, rank) && z in g && y in g && y != z
    requires g[z].status == Available || g[z].status == Unavailable
    requires g[z].alternative.None?
    ensures var h := g[z := g[z].(status := Failed, timeSpan := Some(span))];
      RankedBy(h, rank) && GetStatus(h, rank, y) == GetStatus(g, rank, y)
  {
    var h := g[z := g[z].(status := Failed, timeSpan := Some(span))];
    SameEdgesSameRanking(g, h, rank, z);
    forall w | w in g
      ensures IsFulfilled(h, rank, w) == IsFulfilled(g, rank, w)
    {
      UnfulfilledChangeKeepsFulfilment(g, h, rank, z, w);
    }
    assert PrerequisitesFulfilled(h, rank, y) == PrerequisitesFulfilled(g, rank, y);
  }

  /** After task `z` finishes, every available task stays available and
      every fulfilled task stays fulfilled; `z` itself is fulfilled. */
  lemma FinishingKeepsAvailable(g: Graph, rank: map<TaskId, nat>, z: TaskId, span: Timespan, y: TaskId)
    requires RankedBy(g, rank) && z in g && y in g && y != z
    ensures var h := g[z := g[z].(status := Finished, timeSpan := Some(span))];
      RankedBy(h, rank) && IsFulfilled(h, rank, z) &&
      (IsFulfilled(g, rank, y) ==> IsFulfilled(h, rank, y)) &&
      (GetStatus(g, rank, y) == Available ==> GetStatus(h, rank, y) == Available)
  {
    var h := g[z := g[z].(status := Finished, timeSpan := Some(span))];
    SameEdgesSameRanking(g, h, rank, z);
    forall w | w in g && IsFulfilled(g, rank, w)
      ensures IsFulfilled(h, rank, w)
    {
      FulfillingKeepsFulfilment(g, h, rank, z, w);
    }
  }

  /** The three tasks of the status test: t7 (id 0) failed with alternative
      t7alternative (id 1), which is available, and t8 (id 2) has t7 as its
      only prerequisite. */
  function StatusScenario(): (g: Graph)
    ensures g.Keys == {0, 1, 2}
  {
    var n := Node("t", 10, 0, None, None, [], Available);
    map[0 := n.(status := Failed, alternative := Some(1)), 1 := n, 2 := n.(prerequisites := [0])]
  }

  ghost function ScenarioRank(): map<TaskId, nat> {
    map[0 := 1, 1 := 0, 2 := 2]
  }

  lemma ScenarioRanked(span: Timespan)
    ensures RankedBy(StatusScenario(), ScenarioRank())
    ensures RankedBy(StatusScenario()[1 := StatusScenario()[1].(status := Finished, timeSpan := Some(span))], ScenarioRank())
  {
    var g := StatusScenario();
    var rank := ScenarioRank();
    forall x, t | x in g && t in Successors(g[x])
      ensures t in g && rank[t] < rank[x]
    {
      assert (x == 0 && t == 1) || (x == 2 && t == 0);
    }
    SameEdgesSameRanking(g, g[1 := g[1].(status := Finished, timeSpan := Some(span))], rank, 1);
  }

  /** t8 is unavailable until t7alternative finishes; then it reads as
      available and t7 as fulfilled, with no call on t8 or t7. */
  lemma FinishingAlternativeReleasesDependent(span: Timespan)
    ensures RankedBy(StatusScenario(), ScenarioRank())
    ensures GetStatus(StatusScenario(), ScenarioRank(), 2) == Unavailable
    ensures !IsFulfilled(StatusScenario(), ScenarioRank(), 0)
    ensures var h := StatusScenario()[1 := StatusScenario()[1].(status := Finished, timeSpan := Some(span))];
      RankedBy(h, ScenarioRank()) && GetStatus(h, ScenarioRank(), 2) == Available &&
      GetStatus(h, ScenarioRank(), 0) == Failed && IsFulfilled(h, ScenarioRank(), 0)
  {
    var g := StatusScenario();
    var rank := ScenarioRank();
    ScenarioRanked(span);
    var h := g[1 := g[1].(status := Finished, timeSpan := Some(span))];
    assert !IsFulfilled(g, rank, 0) by {
      assert !IsFulfilled(g, rank, 1);
    }
    assert !PrerequisitesFulfilled(g, rank, 2) by {
      assert 0 in g[2].prerequisites;
    }
    assert IsFulfilled(h, rank, 0) by {
      assert IsFulfilled(h, rank, 1);
    }
    assert PrerequisitesFulfilled(h, rank, 2) by {
      assert h[2].prerequisites == [0];
    }
  }

  /** A fulfilled task can be fulfilled. */
  lemma {:induction false} FulfilledCanBeFulfilled(g: Graph, rank: map<TaskId, nat>, x: TaskId)
    requires RankedBy(g, rank) && x in g
    requires IsFulfilled(g, rank, x)
    ensures CanBeFulfilled(g, rank, x)
    decreases rank[x]
  {
    if g[x].status == Failed {
      assert g[x].alternative.value in Successors(g[x]);
      FulfilledCanBeFulfilled(g, rank, g[x].alternative.value);
    }
  }

  /** isFulfilled agrees with its documentation: finished, or an alternative
      that is fulfilled. */
  lemma IsFulfilledAsDocumented(g: Graph, rank: map<TaskId, nat>, x: TaskId)
    requires RankedBy(g, rank) && x in g && AlternativesOnFailed(g)
    ensures IsFulfilled(g, rank, x) <==>
      g[x].status == Finished ||
      (g[x].alternative.Some? && IsFulfilled(g, rank, g[x].alternative.value))
  {
    if g[x].alternative.Some? {
      assert g[x].alternative.value in Successors(g[x]);
    }
  }

  /** A finished task answers as Finished.java does, whatever the rest of
      the graph: it stays Finished, is fulfilled, can be fulfilled and needs
      no more work. */
  lemma FinishedAnswers(g: Graph, rank: map<TaskId, nat>, x: TaskId)
    requires RankedBy(g, rank) && x in g && g[x].status == Finished
    ensures GetStatus(g, rank, x) == Finished
    ensures IsFulfilled(g, rank, x) && CanBeFulfilled(g, rank, x)
    ensures EstimatedWorkTimeNeeded(g, rank, x) == 0
  {
  }

  /** The work still needed by an unavailable task covers its own estimate
      and the work still needed by each prerequisite. */
  lemma UnavailableWorkCoversPrerequisites(g: Graph, rank: map<TaskId, nat>, x: TaskId)
    requires RankedBy(g, rank) && x in g
    requires GetStatus(g, rank, x) == Unavailable
    ensures forall p :: p in g[x].prerequisites ==>
      EstimatedWorkTimeNeeded(g, rank, x) >= g[x].estimatedDuration + EstimatedWorkTimeNeeded(g, rank, p)
  {
    forall p | p in g[x].prerequisites
      ensures PrerequisiteWork(g, rank, x, g[x].prerequisites) >= EstimatedWorkTimeNeeded(g, rank, p)
    {
      PrerequisiteWorkCovers(g, rank, x, g[x].prerequisites, p);
    }
  }

  lemma {:induction false} PrerequisiteWorkCovers(g: Graph, rank: map<TaskId, nat>, x: TaskId, ps: seq<TaskId>, p: TaskId)
    requires RankedBy(g, rank) && x in g
    requires forall q :: q in ps ==> q in g[x].prerequisites
    requires p in ps
    ensures p in g && PrerequisiteWork(g, rank, x, ps) >= EstimatedWorkTimeNeeded(g, rank, p)
    decreases |ps|
  {
    assert ps[0] in Successors(g[x]);
    if ps[0] != p {
      PrerequisiteWorkCovers(g, rank, x, ps[1..], p);
    }
  }

  /** Task.estimatedWorkTimeNeeded never asks less than the own estimate of
      a task still to be done, and nothing of a task that is done. */
  lemma WorkNeededBounds(g: Graph, rank: map<TaskId, nat>, x: TaskId)
    requires RankedBy(g, rank) && x in g
    ensures GetStatus(g, rank, x) == Finished || GetStatus(g, rank, x) == Failed
      ==> EstimatedWorkTimeNeeded(g, rank, x) == 0
    ensures GetStatus(g, rank, x) == Available || GetStatus(g, rank, x) == Unavailable
      ==> EstimatedWorkTimeNeeded(g, rank, x) >= g[x].estimatedDuration
  {
  }

  /** The loop's maximum bounds every prerequisite's time spent and is
      either zero or attained by one of them. */
  lemma {:induction false} MaxTimeSpentIsMaximum(g: Graph, rank: map<TaskId, nat>, x: TaskId, ps: seq<TaskId>, work: WorkTime)
    requires RankedBy(g, rank) && x in g
    requires forall p :: p in ps ==> p in g[x].prerequisites
    ensures forall p :: p in ps ==> p in g && TimeSpent(g, rank, p, work) <= MaxTimeSpent(g, rank, x, ps, work)
    ensures MaxTimeSpent(g, rank, x, ps, work) == 0 ||
      exists p :: p in ps && p in g && MaxTimeSpent(g, rank, x, ps, work) == TimeSpent(g, rank, p, work)
    decreases |ps|
  {
    if ps != [] {
      var init := ps[..|ps| - 1];
      var last := ps[|ps| - 1];
      assert last in Successors(g[x]);
      assert forall p :: p in init ==> p in ps;
      MaxTimeSpentIsMaximum(g, rank, x, init, work);
      assert forall p :: p in ps ==> p in init || p == last;
    }
  }

  /** getTimeSpent of a task with a time span covers the span's length plus
      the time spent on any one prerequisite, and plus that of the
      alternative. */
  lemma TimeSpentBounds(g: Graph, rank: map<TaskId, nat>, x: TaskId, work: WorkTime)
    requires RankedBy(g, rank) && x in g
    ensures g[x].timeSpan.None? ==> TimeSpent(g, rank, x, work) == 0
    ensures g[x].timeSpan.Some? ==> forall p :: p in g[x].prerequisites ==>
      p in g && TimeSpent(g, rank, x, work) >= g[x].timeSpan.value.GetDuration(work) + TimeSpent(g, rank, p, work)
    ensures g[x].timeSpan.Some? && g[x].alternative.Some? ==>
      g[x].alternative.value in g &&
      TimeSpent(g, rank, x, work) >= g[x].timeSpan.value.GetDuration(work) + TimeSpent(g, rank, g[x].alternative.value, work)
  {
    MaxTimeSpentIsMaximum(g, rank, x, g[x].prerequisites, work);
    if g[x].alternative.Some? {
      assert g[x].alternative.value in Successors(g[x]);
    }
  }
}
