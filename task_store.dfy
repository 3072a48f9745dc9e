/** The mutable side of src/domain/Task.java: the static id counter and the
    Task objects, whose fields the constructor, update and setAlternativeTask
    overwrite. The store keeps every task ever created, keyed by id, and a
    ghost rank proving the combined prerequisite/alternative graph acyclic. */
module TaskStores {
  import opened Outcomes
  import opened Timespans
  import opened Tasks
  import opened TaskStatus
  import FinishedStatus

  /** The ids of a list whose entries are all present. */
  function Ids(ps: seq<Option<TaskId>>): (r: seq<TaskId>)
    requires forall i :: 0 <= i < |ps| ==> ps[i].Some?
    ensures |r| == |ps| && forall i :: 0 <= i < |ps| ==> r[i] == ps[i].value
  {
    seq(|ps|, i requires 0 <= i < |ps| => ps[i].value)
  }

  /** A rank strictly above that of every listed task. */
  ghost function Above(rank: map<TaskId, nat>, ps: seq<TaskId>): (r: nat)
    requires forall p :: p in ps ==> p in rank
    ensures forall p :: p in ps ==> rank[p] < r
  {
    if ps == [] then 0
    else
      var rest := Above(rank, ps[1..]);
      assert forall p :: p in ps ==> p == ps[0] || p in ps[1..];
      if rank[ps[0]] < rest then rest else rank[ps[0]] + 1
  }

  class TaskStore {
    /** Task.nextId: the id the next constructed task receives. */
    var nextId: nat
    var tasks: Graph
    ghost var rank: map<TaskId, nat>

    ghost predicate Valid()
      reads this
    {
      RankedBy(tasks, rank) && AlternativesOnFailed(tasks) &&
      forall x :: x in tasks ==> x < nextId
    }

    constructor Init()
      ensures Valid() && nextId == 0 && tasks == map[]
    {
      nextId := 0;
      tasks := map[];
      rank := map[];
    }

    /** Task.generateId: hands out the counter and increments it. */
    method GenerateId() returns (id: TaskId)
      requires Valid()
      modifies this
      ensures Valid()
      ensures id == old(nextId) && nextId == old(nextId) + 1
      ensures id !in tasks
      ensures tasks == old(tasks) && rank == old(rank)
    {
      id := nextId;
      nextId := nextId + 1;
    }

    /** The Task constructor: the id is drawn first, so a refused task still
        consumes one; then the description, the deviation and the
        prerequisite list are checked (a null list means no prerequisites).
        The initial status is Available, re-derived on every read. */
    method CreateTask(description: Option<string>, duration: Duration, accDev: int,
                      prereq: Option<seq<Option<TaskId>>>) returns (r: Result<TaskId>)
      requires Valid()
      requires prereq.Some? ==> forall i :: 0 <= i < |prereq.value| && prereq.value[i].Some? ==> prereq.value[i].value in tasks
      modifies this
      ensures Valid()
      ensures nextId == old(nextId) + 1
      ensures r.Err? <==> (!CanHaveAsDescription(description) || !CanHaveAsAcceptableDeviation(accDev) ||
        (prereq.Some? && exists i :: 0 <= i < |prereq.value| && prereq.value[i].None?))
      ensures r.Err? ==> r.error == IllegalArgument && tasks == old(tasks)
      ensures r.Ok? ==> (r.value == old(nextId) && r.value !in old(tasks) &&
        tasks == old(tasks)[r.value := Node(description.value, duration, accDev, None, None,
          if prereq.None? then [] else Ids(prereq.value), Available)])
    {
      var id := GenerateId();
      if !CanHaveAsDescription(description) || !CanHaveAsAcceptableDeviation(accDev) {
        return Err(IllegalArgument);
      }
      var ps: seq<Option<TaskId>> := if prereq.None? then [] else prereq.value;
      var okList := CanHaveAsPrerequisiteTasks(tasks, rank, id, Some(ps));
      forall i | 0 <= i < |ps| && ps[i].Some?
        ensures ps[i].value != id && !DependsByPath(tasks, ps[i].value, id)
      {
        NothingDependsOnAbsent(tasks, rank, ps[i].value, id);
        DependsOnIffPath(tasks, rank, ps[i].value, id);
      }
      if !okList {
        return Err(IllegalArgument);
      }
      var ids := Ids(ps);
      var n := Node(description.value, duration, accDev, None, None, ids, Available);
      var newRank := rank[id := Above(rank, ids)];
      NewTaskKeepsRanking(tasks, rank, id, n, Above(rank, ids));
      tasks := tasks[id := n];
      rank := newRank;
      r := Ok(id);
    }

    /** Task.fail: allowed from a derived Available or Unavailable status. */
    method FailTask(x: TaskId, span: Timespan) returns (o: Outcome)
      requires Valid() && x in tasks
      modifies this
      ensures Valid() && nextId == old(nextId) && rank == old(rank)
      ensures o.Pass? <==> CanUpdateStatus(old(GetStatus(tasks, rank, x)), Failed)
      ensures o.Fail? ==> o.error == IllegalState && tasks == old(tasks)
      ensures o.Pass? ==> tasks == old(tasks)[x := old(tasks)[x].(status := Failed, timeSpan := Some(span))]
    {
      var s := GetStatus(tasks, rank, x);
      if !CanUpdateStatus(s, Failed) {
        return Fail(IllegalState);
      }
      var h := tasks[x := tasks[x].(status := Failed, timeSpan := Some(span))];
      SameEdgesSameRanking(tasks, h, rank, x);
      tasks := h;
      o := Pass;
    }

    /** Task.finish: allowed only from a derived Available status. */
    method FinishTask(x: TaskId, span: Timespan) returns (o: Outcome)
      requires Valid() && x in tasks
      modifies this
      ensures Valid() && nextId == old(nextId) && rank == old(rank)
      ensures o.Pass? <==> CanUpdateStatus(old(GetStatus(tasks, rank, x)), Finished)
      ensures o.Fail? ==> o.error == IllegalState && tasks == old(tasks)
      ensures o.Pass? ==> tasks == old(tasks)[x := old(tasks)[x].(status := Finished, timeSpan := Some(span))]
    {
      var s := GetStatus(tasks, rank, x);
      if !CanUpdateStatus(s, Finished) {
        return Fail(IllegalState);
      }
      var h := tasks[x := tasks[x].(status := Finished, timeSpan := Some(span))];
      SameEdgesSameRanking(tasks, h, rank, x);
      tasks := h;
      o := Pass;
    }

    /** Task.update: the guards in source order (missing times, a project
        without the task, a start before the project's creation, a start not
        before the end, a target other than Failed or Finished) each raise
        IllegalArgument; then the status object decides the transition. */
    method Update(x: TaskId, start: Option<Time>, end: Option<Time>, target: Status,
                  projectTasks: set<TaskId>, creationTime: Time) returns (o: Outcome)
      requires Valid() && x in tasks
      modifies this
      ensures Valid() && nextId == old(nextId)
      ensures (start.None? || end.None? || x !in projectTasks || creationTime > start.value ||
        start.value >= end.value || (target != Failed && target != Finished))
        ==> o == Fail(IllegalArgument) && tasks == old(tasks)
      ensures o.Fail? ==> tasks == old(tasks)
      ensures o.Pass? ==> (start.Some? && end.Some? && x in projectTasks && creationTime <= start.value < end.value &&
        CanUpdateStatus(old(GetStatus(tasks, rank, x)), target) &&
        tasks == old(tasks)[x := old(tasks)[x].(status := target, timeSpan := Some(Span(start.value, end.value)))])
      ensures o == Fail(IllegalState) <==> (
        start.Some? && end.Some? && x in projectTasks && creationTime <= start.value < end.value &&
        (target == Failed || target == Finished) && !CanUpdateStatus(old(GetStatus(tasks, rank, x)), target))
    {
      if start.None? || end.None? {
        return Fail(IllegalArgument);
      }
      if x !in projectTasks {
        return Fail(IllegalArgument);
      }
      if creationTime > start.value {
        return Fail(IllegalArgument);
      }
      var span := New(start, end);
      if span.Err? {
        return Fail(span.error);
      }
      if target == Failed {
        o := FailTask(x, span.value);
      } else if target == Finished {
        o := FinishTask(x, span.value);
      } else {
        o := Fail(IllegalArgument);
      }
    }

    /** Task.setAlternativeTask, dispatched on the derived status: only a
        failed task without an alternative may take one, and only one the
        check accepts (the corrected check; see CanHaveAsAlternativeTask). */
    method SetAlternativeTask(x: TaskId, alt: Option<TaskId>, project: set<TaskId>) returns (o: Outcome)
      requires Valid() && x in tasks
      requires alt.Some? ==> alt.value in tasks
      modifies this
      ensures Valid() && nextId == old(nextId)
      ensures old(GetStatus(tasks, rank, x)) == Finished ==> o == FinishedStatus.SetAlternativeTask()
      ensures old(GetStatus(tasks, rank, x)) != Failed ==> o == Fail(IllegalState)
      ensures old(GetStatus(tasks, rank, x)) == Failed && old(tasks[x].alternative.Some?) ==> o == Fail(IllegalState)
      ensures o == Fail(IllegalArgument) <==> (
        old(GetStatus(tasks, rank, x)) == Failed && old(tasks[x].alternative.None?) &&
        !old(CanHaveAsAlternativeTask(tasks, rank, x, alt, project)))
      ensures o.Fail? ==> tasks == old(tasks)
      ensures o.Pass? ==> alt.Some? && tasks == WithAlternative(old(tasks), x, alt.value)
    {
      var s := GetStatus(tasks, rank, x);
      if s == Finished {
        return FinishedStatus.SetAlternativeTask();
      }
      if s != Failed || tasks[x].alternative.Some? {
        return Fail(IllegalState);
      }
      if !CanHaveAsAlternativeTask(tasks, rank, x, alt, project) {
        return Fail(IllegalArgument);
      }
      LinkAlternative(x, alt.value);
      o := Pass;
    }

    /** Task.setAlternativeTaskRaw, for a failed task and a target that does
        not reach it. */
    method LinkAlternative(x: TaskId, a: TaskId)
      requires Valid() && x in tasks && a in tasks && tasks[x].status == Failed
      requires a != x && !Reaches(tasks, rank, a, x)
      modifies this
      ensures Valid() && nextId == old(nextId)
      ensures tasks == WithAlternative(old(tasks), x, a)
    {
      AlternativeKeepsRanking(tasks, rank, x, a);
      var newRank := Lifted(tasks, rank, x, a);
      tasks := WithAlternative(tasks, x, a);
      rank := newRank;
    }

    /** Task.getTimeSpent: the loop keeps the largest time spent on a
        prerequisite; the recursion follows prerequisite and alternative
        edges. */
    method GetTimeSpent(x: TaskId, work: WorkTime) returns (d: Duration)
      requires Valid() && x in tasks
      ensures d == TimeSpent(tasks, rank, x, work)
      decreases rank[x]
    {
      if tasks[x].timeSpan.None? {
        return 0;
      }
      var ps := tasks[x].prerequisites;
      var max: Duration := 0;
      var i := 0;
      while i < |ps|
        invariant 0 <= i <= |ps|
        invariant max == MaxTimeSpent(tasks, rank, x, ps[..i], work)
      {
        assert ps[i] in Successors(tasks[x]);
        var temp := GetTimeSpent(ps[i], work);
        assert ps[..i + 1][..i] == ps[..i];
        if temp > max {
          max := temp;
        }
        i := i + 1;
      }
      assert ps[..i] == ps;
      d := tasks[x].timeSpan.value.GetDuration(work) + max;
      if tasks[x].alternative.Some? {
        assert tasks[x].alternative.value in Successors(tasks[x]);
        var a := GetTimeSpent(tasks[x].alternative.value, work);
        d := d + a;
      }
    }
  }

  /** A new task whose prerequisites are ranked below it keeps the graph
      acyclic: nothing in the arena points at the new id. */
  lemma NewTaskKeepsRanking(g: Graph, rank: map<TaskId, nat>, id: TaskId, n: Node, top: nat)
    requires RankedBy(g, rank) && id !in g
    requires n.alternative.None? && forall p :: p in n.prerequisites ==> p in g
    requires forall p :: p in n.prerequisites ==> rank[p] < top
    ensures RankedBy(g[id := n], rank[id := top])
  {
    var h := g[id := n];
    var newRank := rank[id := top];
    forall x, s | x in h && s in Successors(h[x])
      ensures s in h && newRank[s] < newRank[x]
    {
      if x != id {
        assert s in Successors(g[x]);
      }
    }
  }
}
