/** The undoable "create task" command of
    src/domain/command/CreateTaskCommand.java: execute saves the project's
    state (and that of the task the new one is an alternative for) before
    creating the task, and revert puts the saved state back. */
module CreateTaskCommands {
  import opened Outcomes
  import opened Timespans
  import opened Tasks
  import opened Projects

  class CreateTaskCommand {
    const project: Project?
    const description: Option<string>
    const estdur: Duration
    /** Never assigned by the constructor, so it keeps Java's default 0. */
    const accDev: int := 0
    const altfor: int
    const prereq: seq<TaskId>

    var projectMemento: Option<seq<TaskObject>>
    var altforTask: TaskObject?
    var altforTaskMemento: Option<Node>
    var createdTask: TaskObject?

    /** The constructor stores its arguments (the list by copy) but drops
        `accdev`. */
    constructor Init(project: Project?, descr: Option<string>, estdur: Duration, accdev: int,
                     altFor: int, prereqs: seq<TaskId>)
      ensures this.project == project && description == descr && this.estdur == estdur
      ensures altfor == altFor && prereq == prereqs
      ensures accDev == 0
      ensures projectMemento.None? && altforTask == null && altforTaskMemento.None? && createdTask == null
    {
      this.project := project;
      description := descr;
      this.estdur := estdur;
      altfor := altFor;
      prereq := prereqs;
      projectMemento := None;
      altforTask := null;
      altforTaskMemento := None;
      createdTask := null;
    }

    /** CreateTaskCommand.getCreatedTask: null until an execute succeeds. */
    function GetCreatedTask(): TaskObject?
      reads this
    {
      createdTask
    }

    /** The task object that creating a task may change besides the project. */
    function AltforTarget(): set<object>
      requires project != null
      reads this, project, project.tasks
    {
      if project.HasTask(altfor) then {project.GetTask(altfor)} else {}
    }

    /** CreateTaskCommand.execute: the mementos are taken before the task is
        created; the task gets acceptable deviation 0. */
    method Execute() returns (o: Outcome)
      requires project != null
      modifies this, project, AltforTarget()
      ensures projectMemento == Some(old(project.tasks))
      ensures old(project.HasTask(altfor)) ==>
        altforTask == old(project.GetTask(altfor)) && altforTaskMemento == Some(old(project.GetTask(altfor).node))
      ensures !old(project.HasTask(altfor)) ==> altforTask == null && altforTaskMemento.None?
      ensures o.Pass? <==> CanHaveAsDescription(description)
      ensures o.Pass? ==> (GetCreatedTask() != null && fresh(GetCreatedTask()) &&
        GetCreatedTask().node.acceptableDeviation == 0 && project.tasks == old(project.tasks) + [GetCreatedTask()])
      ensures o.Fail? ==> GetCreatedTask() == old(GetCreatedTask()) && project.tasks == old(project.tasks)
      ensures forall t :: t in old(project.tasks) && t != altforTask ==> t.node == old(t.node)
    {
      projectMemento := Some(project.CreateMemento());
      if project.HasTask(altfor) {
        altforTask := project.GetTask(altfor);
        altforTaskMemento := Some(project.GetTask(altfor).CreateMemento());
      } else {
        altforTask := null;
        altforTaskMemento := None;
      }
      var r := project.CreateTask(description, estdur, accDev, altfor, prereq);
      if r.Err? {
        return Fail(r.error);
      }
      createdTask := r.value;
      o := Pass;
    }

    /** CreateTaskCommand.revert: each memento is restored only when it was
        taken, so a revert before any execute changes nothing. */
    method Revert()
      modifies project, altforTask
      ensures project != null && projectMemento.Some? ==> project.tasks == projectMemento.value
      ensures project != null && projectMemento.None? ==> project.tasks == old(project.tasks)
      ensures altforTask != null && altforTaskMemento.Some? ==> altforTask.node == altforTaskMemento.value
      ensures altforTask != null && altforTaskMemento.None? ==> altforTask.node == old(altforTask.node)
    {
      if project != null && projectMemento.Some? {
        project.SetMemento(projectMemento.value);
      }
      if altforTask != null && altforTaskMemento.Some? {
        altforTask.SetMemento(altforTaskMemento.value);
      }
    }

    /** Execute followed by revert leaves the project's task list and the
        fields of every task in it as they were. */
    method ExecuteThenRevert() returns (o: Outcome)
      requires project != null
      modifies this, project, AltforTarget()
      ensures project.tasks == old(project.tasks)
      ensures forall t :: t in old(project.tasks) ==> t.node == old(t.node)
    {
      o := Execute();
      Revert();
    }
  }
}
