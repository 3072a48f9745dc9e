/** Project.java and the Task memento are not part of this model. This module
    is the small stand-in that ProjectContainer and CreateTaskCommand need: a
    task object whose state can be saved and restored, and a project holding
    a list of task objects whose memento is that list. */
module Projects {
  import opened Outcomes
  import opened Timespans
  import opened Tasks

  /** A Task object seen from outside: its id and its fields. */
  class TaskObject {
    const id: TaskId
    var node: Node

    constructor Init(id: TaskId, node: Node)
      ensures this.id == id && this.node == node
    {
      this.id := id;
      this.node := node;
    }

    /** Task.createMemento: a snapshot of the fields. */
    function CreateMemento(): Node
      reads this
    {
      node
    }

    /** Task.setMemento: restores the fields. */
    method SetMemento(m: Node)
      modifies this
      ensures node == m
    {
      node := m;
    }
  }

  class Project {
    const id: int
    const creationTime: Time
    /** Project.isFinished, decided by code outside this model. */
    var finished: bool
    var tasks: seq<TaskObject>
    /** The ids the stand-in hands to new tasks. */
    var nextTaskId: TaskId

    constructor Init(id: int, creationTime: Time)
      ensures this.id == id && this.creationTime == creationTime
      ensures !finished && tasks == [] && nextTaskId == 0
    {
      this.id := id;
      this.creationTime := creationTime;
      finished := false;
      tasks := [];
      nextTaskId := 0;
    }

    function HasTask(tid: int): (r: bool)
      reads this, tasks
      ensures r <==> exists i :: 0 <= i < |tasks| && tasks[i].id == tid
    {
      exists t :: t in tasks && t.id == tid
    }

    /** The first task with the given id. */
    function GetTask(tid: int): (t: TaskObject)
      requires HasTask(tid)
      reads this, tasks
      ensures t in tasks && t.id == tid
    {
      FirstWithId(tasks, tid)
    }

    /** Project.createMemento: the list of task objects (not their fields). */
    function CreateMemento(): seq<TaskObject>
      reads this
    {
      tasks
    }

    method SetMemento(m: seq<TaskObject>)
      modifies this
      ensures tasks == m && finished == old(finished) && nextTaskId == old(nextTaskId)
    {
      tasks := m;
    }

    /** Project.createTask as the command uses it: the description and the
        deviation are validated, a new task object is appended, and a task of
        this project with id `altFor` takes the new task as its alternative. */
    method CreateTask(description: Option<string>, duration: Duration, accDev: int, altFor: int,
                      prereq: seq<TaskId>) returns (r: Result<TaskObject>)
      modifies this, if HasTask(altFor) then {GetTask(altFor)} else {}
      ensures finished == old(finished)
      ensures r.Err? <==> !CanHaveAsDescription(description) || !CanHaveAsAcceptableDeviation(accDev)
      ensures r.Err? ==> r.error == IllegalArgument && tasks == old(tasks) && nextTaskId == old(nextTaskId)
      ensures r.Err? ==> forall t :: t in old(tasks) ==> t.node == old(t.node)
      ensures r.Ok? ==> (fresh(r.value) && tasks == old(tasks) + [r.value] &&
        r.value.node == Node(description.value, duration, accDev, None, None, prereq, Available))
      ensures r.Ok? && old(HasTask(altFor)) ==>
        old(GetTask(altFor)).node == old(GetTask(altFor).node).(alternative := Some(r.value.id))
      ensures r.Ok? ==> forall t :: t in old(tasks) && t != old(if HasTask(altFor) then GetTask(altFor) else null) ==>
        t.node == old(t.node)
    {
      if !CanHaveAsDescription(description) || !CanHaveAsAcceptableDeviation(accDev) {
        return Err(IllegalArgument);
      }
      var n := Node(description.value, duration, accDev, None, None, prereq, Available);
      var created := new TaskObject.Init(nextTaskId, n);
      nextTaskId := nextTaskId + 1;
      if HasTask(altFor) {
        var alt := GetTask(altFor);
        alt.node := alt.node.(alternative := Some(created.id));
      }
      tasks := tasks + [created];
      r := Ok(created);
    }
  }

  function FirstWithId(ts: seq<TaskObject>, tid: int): (t: TaskObject)
    requires exists t :: t in ts && t.id == tid
    reads ts
    ensures t in ts && t.id == tid
  {
    if ts[0].id == tid then ts[0] else FirstWithId(ts[1..], tid)
  }
}
