/** The container of all projects, src/domain/ProjectContainer.java: a map
    from project id to project, with a memento that copies the map. */
module ProjectContainers {
  import opened Outcomes
  import opened Timespans
  import opened Projects

  /** ProjectContainer.Memento: a copy of the map (with its iteration order). */
  datatype Memento = Memento(projects: map<int, Project>, order: seq<int>)

  class ProjectContainer {
    var projects: map<int, Project>
    /** The keys of `projects` in the order the map iterates over them. */
    var order: seq<int>

    /** `order` lists every key exactly once, and every project is stored
        under its own id, as addProject does. */
    ghost predicate Valid()
      reads this, projects.Values
    {
      (forall k :: k in projects ==> k in order) &&
      (forall i :: 0 <= i < |order| ==> order[i] in projects) &&
      (forall i, j :: 0 <= i < j < |order| ==> order[i] != order[j]) &&
      (forall k :: k in projects ==> projects[k].id == k)
    }

    constructor Init()
      ensures projects == map[] && order == [] && Valid()
    {
      projects := map[];
      order := [];
    }

    /** ProjectContainer.getProject: ObjectNotFound for an unknown id. */
    function GetProject(pid: int): (r: Result<Project>)
      reads this
      ensures r.Ok? <==> pid in projects
      ensures r.Ok? ==> r.value == projects[pid]
      ensures r.Err? ==> r.error == ObjectNotFound(pid)
    {
      if pid !in projects then Err(ObjectNotFound(pid)) else Ok(projects[pid])
    }

    /** ProjectContainer.getNbProjects: the number of entries of the map. */
    function GetNbProjects(): nat
      reads this
    {
      |projects|
    }

    /** ProjectContainer.createProject: the new project is put under its own
        id (supplied by the Project constructor, which is not part of this
        model). The count grows by one exactly when the id is new; an
        existing entry with that id is replaced. */
    method CreateProject(id: int, creationTime: Time) returns (p: Project)
      modifies this
      ensures fresh(p) && p.id == id && p.creationTime == creationTime && !p.finished && p.tasks == []
      ensures projects == old(projects)[id := p]
      ensures GetNbProjects() == old(GetNbProjects()) + (if id in old(projects) then 0 else 1)
      ensures forall k :: k in old(projects) && k != id ==> GetProject(k) == old(GetProject(k))
      ensures old(Valid()) ==> Valid()
    {
      p := new Project.Init(id, creationTime);
      if p.id !in projects {
        order := order + [p.id];
      }
      projects := projects[p.id := p];
    }

    /** ProjectContainer.getUnfinishedProjects: one entry per stored project
        that is not finished, in iteration order (`ks` records the keys). */
    method GetUnfinishedProjects() returns (r: seq<Project>, ghost ks: seq<int>)
      requires Valid()
      ensures |r| == |ks|
      ensures forall i :: 0 <= i < |ks| ==> ks[i] in projects && r[i] == projects[ks[i]]
      ensures forall k :: k in ks <==> k in projects && !projects[k].finished
      ensures forall i, j :: 0 <= i < j < |ks| ==> ks[i] != ks[j]
      ensures forall p :: p in r ==> p in projects.Values && !p.finished
      ensures forall k :: k in projects && !projects[k].finished ==> projects[k] in r
    {
      r, ks := [], [];
      for n := 0 to |order|
        invariant |r| == |ks|
        invariant forall i :: 0 <= i < |ks| ==> ks[i] in projects && r[i] == projects[ks[i]]
        invariant forall k :: k in ks <==> k in order[..n] && !projects[k].finished
        invariant forall i, j :: 0 <= i < j < |ks| ==> ks[i] != ks[j]
      {
        var k := order[n];
        assert k !in order[..n];
        if !projects[k].finished {
          r, ks := r + [projects[k]], ks + [k];
        }
      }
      assert order[..|order|] == order;
      forall k | k in projects && !projects[k].finished
        ensures projects[k] in r
      {
        var i :| 0 <= i < |ks| && ks[i] == k;
        assert r[i] == projects[k];
      }
    }

    /** The task lists of the projects stored under `ks`, one after the
        other. */
    ghost function TasksOf(ks: seq<int>): seq<TaskObject>
      reads this, projects.Values
      requires forall i :: 0 <= i < |ks| ==> ks[i] in projects
      decreases |ks|
    {
      if ks == [] then [] else TasksOf(ks[..|ks| - 1]) + projects[ks[|ks| - 1]].tasks
    }

    /** ProjectContainer.getAllTasks: the task lists of all stored projects,
        one after the other. */
    method GetAllTasks() returns (r: seq<TaskObject>)
      requires Valid()
      ensures r == TasksOf(order)
      ensures forall t :: t in r <==> exists k :: k in projects && t in projects[k].tasks
    {
      r := [];
      for n := 0 to |order|
        invariant r == TasksOf(order[..n])
        invariant forall t :: t in r ==> exists k :: k in projects && t in projects[k].tasks
        invariant forall i, t :: 0 <= i < n && t in projects[order[i]].tasks ==> t in r
      {
        var k := order[n];
        var ts := projects[k].tasks;
        assert order[..n + 1][..n] == order[..n];
        assert forall t :: t in r + ts <==> t in r || t in ts;
        assert forall t :: t in ts ==> k in projects && t in projects[k].tasks;
        r := r + ts;
      }
      assert order[..|order|] == order;
      forall t, k | k in projects && t in projects[k].tasks
        ensures t in r
      {
        assert k in order;
        var i :| 0 <= i < |order| && order[i] == k;
      }
    }

    /** ProjectContainer.containsTask: whether some stored project has the
        task object. */
    method ContainsTask(t: TaskObject) returns (b: bool)
      requires Valid()
      ensures b <==> exists k :: k in projects && t in projects[k].tasks
    {
      var all := GetAllTasks();
      b := t in all;
    }

    /** ProjectContainer.createMemento: a copy of the map. */
    function CreateMemento(): Memento
      reads this
    {
      Memento(projects, order)
    }

    /** ProjectContainer.setMemento: the map becomes exactly the saved one,
        so restoring a memento just taken changes nothing. */
    method SetMemento(m: Memento)
      modifies this
      ensures projects == m.projects && order == m.order
      ensures m == old(CreateMemento()) ==> projects == old(projects) && order == old(order)
    {
      projects := m.projects;
      order := m.order;
    }
  }
}
