/** The task graph of src/domain/Task.java: tasks live in an arena keyed by
    their id, and the object references between them (prerequisites and the
    alternative task) are ids. A ghost `rank` that strictly decreases along
    every prerequisite and alternative edge witnesses that the combined graph
    has no cycle; every recursive query over the graph decreases it. */
module Tasks {
  import opened Outcomes
  import opened Timespans

  type TaskId = nat

  /** The status objects of a task. Executing is not part of this model. */
  datatype Status = Available | Unavailable | Finished | Failed

  /** The fields of one Task object; `status` is the stored status object,
      which the status classes re-derive on every read. */
  datatype Node = Node(
    description: string,
    estimatedDuration: Duration,
    acceptableDeviation: int,
    timeSpan: Option<Timespan>,
    alternative: Option<TaskId>,
    prerequisites: seq<TaskId>,
    status: Status)

  type Graph = map<TaskId, Node>

  /** The tasks a task refers to: its prerequisites and its alternative. */
  function Successors(n: Node): (r: set<TaskId>)
    ensures forall p :: p in n.prerequisites ==> p in r
    ensures n.alternative.Some? ==> n.alternative.value in r
    ensures forall s :: s in r ==> s in n.prerequisites || n.alternative == Some(s)
  {
    (set p | p in n.prerequisites) + (if n.alternative.Some? then {n.alternative.value} else {})
  }

  /** Every reference names a task of the arena. */
  ghost predicate Closed(g: Graph) {
    forall x :: x in g ==> Successors(g[x]) <= g.Keys
  }

  /** `rank` strictly decreases along every edge, so the combined graph of
      prerequisite and alternative edges is acyclic. */
  ghost predicate RankedBy(g: Graph, rank: map<TaskId, nat>) {
    Closed(g) && g.Keys <= rank.Keys &&
    forall x, s :: x in g && s in Successors(g[x]) ==> rank[s] < rank[x]
  }

  /** Task.dependsOn: the alternative of this task is `t`, or a prerequisite
      is `t` or depends on it. The alternative edge is followed one step only. */
  function DependsOn(g: Graph, ghost rank: map<TaskId, nat>, x: TaskId, t: TaskId): bool
    requires RankedBy(g, rank) && x in g
    decreases rank[x]
  {
    g[x].alternative == Some(t) ||
    exists p :: p in g[x].prerequisites && (p == t || DependsOn(g, rank, p, t))
  }

  /** Reachability along one or more prerequisite or alternative edges. */
  function Reaches(g: Graph, ghost rank: map<TaskId, nat>, y: TaskId, x: TaskId): bool
    requires RankedBy(g, rank) && y in g
    decreases rank[y]
  {
    exists s :: s in Successors(g[y]) && (s == x || Reaches(g, rank, s, x))
  }

  /** A non-empty walk along prerequisite edges. */
  ghost predicate PrereqChain(g: Graph, path: seq<TaskId>) {
    |path| >= 1 &&
    (forall i :: 0 <= i < |path| ==> path[i] in g) &&
    (forall i :: 0 <= i < |path| - 1 ==> path[i + 1] in g[path[i]].prerequisites)
  }

  /** The reading of dependsOn as paths: `t` ends a chain of one or more
      prerequisite edges from `x`, or is the alternative of a task at the end
      of such a chain (possibly `x` itself). */
  ghost predicate DependsByPath(g: Graph, x: TaskId, t: TaskId) {
    exists path :: PrereqChain(g, path) && path[0] == x &&
      ((|path| >= 2 && path[|path| - 1] == t) || g[path[|path| - 1]].alternative == Some(t))
  }

  /** Prepending a task to a chain that starts at one of its prerequisites. */
  lemma PrependChain(g: Graph, x: TaskId, path: seq<TaskId>)
    requires x in g && PrereqChain(g, path) && path[0] in g[x].prerequisites
    ensures PrereqChain(g, [x] + path)
    ensures ([x] + path)[0] == x && |[x] + path| >= 2
    ensures ([x] + path)[|[x] + path| - 1] == path[|path| - 1]
  {
    var longer := [x] + path;
    forall i | 0 <= i < |longer| - 1
      ensures longer[i + 1] in g[longer[i]].prerequisites
    {
      if i > 0 {
        assert longer[i] == path[i - 1] && longer[i + 1] == path[i];
      }
    }
  }

  lemma {:induction false} DependsOnHasPath(g: Graph, rank: map<TaskId, nat>, x: TaskId, t: TaskId)
    requires RankedBy(g, rank) && x in g
    requires DependsOn(g, rank, x, t)
    ensures DependsByPath(g, x, t)
    decreases rank[x]
  {
    if g[x].alternative == Some(t) {
      assert PrereqChain(g, [x]);
    } else {
      var p :| p in g[x].prerequisites && (p == t || DependsOn(g, rank, p, t));
      assert p in Successors(g[x]);
      if p == t {
        assert PrereqChain(g, [x, p]);
      } else {
        DependsOnHasPath(g, rank, p, t);
        var path :| PrereqChain(g, path) && path[0] == p &&
          ((|path| >= 2 && path[|path| - 1] == t) || g[path[|path| - 1]].alternative == Some(t));
        PrependChain(g, x, path);
      }
    }
  }

  lemma {:induction false} PathGivesDependsOn(g: Graph, rank: map<TaskId, nat>, path: seq<TaskId>, t: TaskId)
    requires RankedBy(g, rank) && PrereqChain(g, path)
    requires (|path| >= 2 && path[|path| - 1] == t) || g[path[|path| - 1]].alternative == Some(t)
    ensures DependsOn(g, rank, path[0], t)
    decreases |path|
  {
    if |path| >= 2 {
      var p := path[1];
      assert p in g[path[0]].prerequisites;
      assert p in Successors(g[path[0]]);
      var rest := path[1..];
      assert PrereqChain(g, rest);
      assert rest[|rest| - 1] == path[|path| - 1];
      if |rest| == 1 && g[p].alternative != Some(t) {
        assert p == t;
      } else {
        PathGivesDependsOn(g, rank, rest, t);
      }
    }
  }

  /** dependsOn holds exactly when such a path exists. */
  lemma DependsOnIffPath(g: Graph, rank: map<TaskId, nat>, x: TaskId, t: TaskId)
    requires RankedBy(g, rank) && x in g
    ensures DependsOn(g, rank, x, t) <==> DependsByPath(g, x, t)
  {
    if DependsOn(g, rank, x, t) {
      DependsOnHasPath(g, rank, x, t);
    }
    if DependsByPath(g, x, t) {
      var path :| PrereqChain(g, path) && path[0] == x &&
        ((|path| >= 2 && path[|path| - 1] == t) || g[path[|path| - 1]].alternative == Some(t));
      PathGivesDependsOn(g, rank, path, t);
    }
  }

  /** Everything dependsOn finds is reachable in the combined graph. */
  lemma {:induction false} DependsOnImpliesReaches(g: Graph, rank: map<TaskId, nat>, x: TaskId, t: TaskId)
    requires RankedBy(g, rank) && x in g
    ensures DependsOn(g, rank, x, t) ==> Reaches(g, rank, x, t)
    decreases rank[x]
  {
    if g[x].alternative == Some(t) {
      assert t in Successors(g[x]);
    } else if DependsOn(g, rank, x, t) {
      var p :| p in g[x].prerequisites && (p == t || DependsOn(g, rank, p, t));
      assert p in Successors(g[x]);
      if p != t {
        DependsOnImpliesReaches(g, rank, p, t);
      }
    }
  }

  /** In a ranked graph no task reaches itself. */
  lemma {:induction false} ReachesLowersRank(g: Graph, rank: map<TaskId, nat>, y: TaskId, x: TaskId)
    requires RankedBy(g, rank) && y in g
    requires Reaches(g, rank, y, x)
    ensures x in g && rank[x] < rank[y]
    decreases rank[y]
  {
    var s :| s in Successors(g[y]) && (s == x || Reaches(g, rank, s, x));
    if s != x {
      ReachesLowersRank(g, rank, s, x);
    }
  }

  /** Task.canHaveAsDescription: present and not empty. */
  function CanHaveAsDescription(description: Option<string>): (r: bool)
    ensures r <==> description.Some? && description.value != ""
  {
    description.Some? && |description.value| > 0
  }

  /** Task.canHaveAsAcceptableDeviation: a percentage from 0 to 100. */
  function CanHaveAsAcceptableDeviation(accDev: int): (r: bool)
    ensures r <==> 0 <= accDev <= 100
  {
    0 <= accDev && accDev <= 100
  }

  /** Task.canHaveAsPrerequisiteTasks for task `x`: a list is refused when it
      is null, holds null, holds `x` or holds a task that depends on `x`. */
  function CanHaveAsPrerequisiteTasks(g: Graph, ghost rank: map<TaskId, nat>, x: TaskId,
                                      prereq: Option<seq<Option<TaskId>>>): (r: bool)
    requires RankedBy(g, rank)
    requires prereq.Some? ==> forall i :: 0 <= i < |prereq.value| && prereq.value[i].Some? ==> prereq.value[i].value in g
    ensures r ==> prereq.Some? && forall i :: 0 <= i < |prereq.value| ==>
      (prereq.value[i].Some? && prereq.value[i].value != x && !DependsByPath(g, prereq.value[i].value, x))
    ensures !r && prereq.Some? ==> exists i :: (0 <= i < |prereq.value| &&
      (prereq.value[i].None? || prereq.value[i].value == x || DependsByPath(g, prereq.value[i].value, x)))
  {
    var ok := prereq.Some? && forall i :: 0 <= i < |prereq.value| ==>
      (prereq.value[i].Some? && prereq.value[i].value != x && !DependsOn(g, rank, prereq.value[i].value, x));
    if prereq.Some? then
      PrereqListByPath(g, rank, x, prereq.value);
      ok
    else
      ok
  }

  lemma PrereqListByPath(g: Graph, rank: map<TaskId, nat>, x: TaskId, ps: seq<Option<TaskId>>)
    requires RankedBy(g, rank)
    requires forall i :: 0 <= i < |ps| && ps[i].Some? ==> ps[i].value in g
    ensures forall i :: 0 <= i < |ps| && ps[i].Some? ==>
      (DependsOn(g, rank, ps[i].value, x) <==> DependsByPath(g, ps[i].value, x))
  {
    forall i | 0 <= i < |ps| && ps[i].Some? {
      DependsOnIffPath(g, rank, ps[i].value, x);
    }
  }

  /** A task absent from the arena is depended on by nobody. */
  lemma {:induction false} NothingDependsOnAbsent(g: Graph, rank: map<TaskId, nat>, y: TaskId, x: TaskId)
    requires RankedBy(g, rank) && y in g && x !in g
    ensures !DependsOn(g, rank, y, x)
    decreases rank[y]
  {
    assert g[y].alternative != Some(x) by {
      assert Successors(g[y]) <= g.Keys;
    }
    forall p | p in g[y].prerequisites
      ensures p != x && !DependsOn(g, rank, p, x)
    {
      assert p in Successors(g[y]);
      NothingDependsOnAbsent(g, rank, p, x);
    }
  }

  /** The arena after task `x` takes `alt` as its alternative. */
  function WithAlternative(g: Graph, x: TaskId, alt: TaskId): (h: Graph)
    requires x in g
    ensures h.Keys == g.Keys && h[x].alternative == Some(alt)
    ensures h[x].prerequisites == g[x].prerequisites && h[x].status == g[x].status
    ensures forall y :: y in g && y != x ==> h[y] == g[y]
  {
    g[x := g[x].(alternative := Some(alt))]
  }

  /** Task.canHaveAsAlternativeTask as written: refused for null, for the
      task itself, for a task that depends on this one, and when either task
      is missing from the project. */
  function CanHaveAsAlternativeTaskAsWritten(g: Graph, ghost rank: map<TaskId, nat>, x: TaskId,
                                             alt: Option<TaskId>, project: set<TaskId>): (r: bool)
    requires RankedBy(g, rank) && x in g
    requires alt.Some? ==> alt.value in g
    ensures r <==> alt.Some? && alt.value != x && !DependsByPath(g, alt.value, x) &&
                   x in project && alt.value in project
  {
    if alt.None? then false
    else
      DependsOnIffPath(g, rank, alt.value, x);
      alt.value != x && !DependsOn(g, rank, alt.value, x) && x in project && alt.value in project
  }

  /** The check with dependsOn replaced by reachability over both kinds of
      edge: it accepts exactly the alternatives that keep the graph acyclic
      (see AlternativeKeepsRanking and AlternativeCycleHasNoRanking). */
  function CanHaveAsAlternativeTask(g: Graph, ghost rank: map<TaskId, nat>, x: TaskId,
                                    alt: Option<TaskId>, project: set<TaskId>): (r: bool)
    requires RankedBy(g, rank) && x in g
    requires alt.Some? ==> alt.value in g
    ensures r <==> (alt.Some? && CanHaveAsAlternativeTaskAsWritten(g, rank, x, alt, project) &&
                    !Reaches(g, rank, alt.value, x))
  {
    if alt.None? then false
    else
      DependsOnImpliesReaches(g, rank, alt.value, x);
      alt.value != x && !Reaches(g, rank, alt.value, x) && x in project && alt.value in project
  }

  /** The rank after adding the edge x -> a: every task that is `x` or
      reaches it is lifted above `a`. */
  ghost function Lifted(g: Graph, rank: map<TaskId, nat>, x: TaskId, a: TaskId): (r: map<TaskId, nat>)
    requires RankedBy(g, rank) && x in g && a in g
    ensures r.Keys == rank.Keys
  {
    map y | y in rank :: if y in g && (y == x || Reaches(g, rank, y, x)) then rank[y] + rank[a] + 1 else rank[y]
  }

  /** An accepted alternative keeps the combined graph acyclic. */
  lemma AlternativeKeepsRanking(g: Graph, rank: map<TaskId, nat>, x: TaskId, a: TaskId)
    requires RankedBy(g, rank) && x in g && a in g
    requires a != x && !Reaches(g, rank, a, x)
    ensures RankedBy(WithAlternative(g, x, a), Lifted(g, rank, x, a))
  {
    var h := WithAlternative(g, x, a);
    var r := Lifted(g, rank, x, a);
    forall y, s | y in h && s in Successors(h[y])
      ensures r[s] < r[y]
    {
      if y != x || s != a {
        assert s in Successors(g[y]);
        assert (s == x || Reaches(g, rank, s, x)) ==> Reaches(g, rank, y, x);
      }
    }
  }

  lemma {:induction false} ReachesSurvives(g: Graph, rank: map<TaskId, nat>, h: Graph, r: map<TaskId, nat>,
                                          y: TaskId, x: TaskId)
    requires RankedBy(g, rank) && RankedBy(h, r) && y in g && y != x
    requires g.Keys == h.Keys && forall z :: z in g && z != x ==> h[z] == g[z]
    requires Reaches(g, rank, y, x)
    ensures x in r && r[x] < r[y]
    decreases rank[y]
  {
    var s :| s in Successors(g[y]) && (s == x || Reaches(g, rank, s, x));
    assert s in Successors(h[y]);
    if s != x {
      ReachesSurvives(g, rank, h, r, s, x);
    }
  }

  /** An alternative that is the task itself or reaches it closes a cycle:
      no rank exists for the resulting graph. */
  lemma AlternativeCycleHasNoRanking(g: Graph, rank: map<TaskId, nat>, x: TaskId, a: TaskId, r: map<TaskId, nat>)
    requires RankedBy(g, rank) && x in g && a in g
    requires a == x || Reaches(g, rank, a, x)
    ensures !RankedBy(WithAlternative(g, x, a), r)
  {
    var h := WithAlternative(g, x, a);
    if RankedBy(h, r) {
      assert a in Successors(h[x]);
      if a != x {
        ReachesSurvives(g, rank, h, r, a, x);
      }
    }
  }

  /** Three failed tasks x, a, c with alternatives x -> a and a -> c. */
  function ChainOfThree(): (g: Graph)
    ensures g.Keys == {0, 1, 2}
  {
    var n := Node("t", 10, 0, None, None, [], Failed);
    map[0 := n.(alternative := Some(1)), 1 := n.(alternative := Some(2)), 2 := n]
  }

  /** The check as written lets task 2 take task 0 as its alternative: task 0
      depends on task 1 only, because dependsOn follows one alternative edge.
      The graph then holds the cycle 0 -> 1 -> 2 -> 0 and admits no rank, so
      isFulfilled on any of the three recurses forever. The corrected check
      refuses the same edge. */
  lemma AlternativeCycleAccepted()
    ensures exists rank :: (RankedBy(ChainOfThree(), rank) &&
      CanHaveAsAlternativeTaskAsWritten(ChainOfThree(), rank, 2, Some(0), {0, 1, 2}) &&
      !CanHaveAsAlternativeTask(ChainOfThree(), rank, 2, Some(0), {0, 1, 2}))
    ensures forall r :: !RankedBy(WithAlternative(ChainOfThree(), 2, 0), r)
  {
    var g := ChainOfThree();
    var rank := map[0 := 2, 1 := 1, 2 := 0];
    assert Successors(g[0]) == {1};
    assert Successors(g[1]) == {2};
    assert Successors(g[2]) == {};
    assert RankedBy(g, rank);
    assert !DependsOn(g, rank, 0, 2);
    assert Reaches(g, rank, 0, 2) by {
      assert 1 in Successors(g[0]);
      assert Reaches(g, rank, 1, 2) by {
        assert 2 in Successors(g[1]);
      }
    }
    forall r | true
      ensures !RankedBy(WithAlternative(g, 2, 0), r)
    {
      AlternativeCycleHasNoRanking(g, rank, 2, 0, r);
    }
  }

  /** Task.getDelay: zero without a time span, otherwise how far the span's
      working length exceeds the maximum duration. The maximum duration is
      computed in floating point by calculateMaxDuration, and is a parameter. */
  function GetDelay(n: Node, work: WorkTime, maxDuration: Duration): (r: Duration)
    ensures n.timeSpan.None? ==> r == 0
    ensures n.timeSpan.Some? ==> (r == 0 <==> n.timeSpan.value.GetDuration(work) <= maxDuration)
    ensures n.timeSpan.Some? && r > 0 ==> r + maxDuration == n.timeSpan.value.GetDuration(work)
  {
    if n.timeSpan.None? then 0 else n.timeSpan.value.GetExcess(work, maxDuration)
  }

  /** Task.endsBefore: IllegalStateException without a time span. */
  function EndsBefore(n: Node, span: Timespan): (r: Result<bool>)
    ensures r.Err? <==> n.timeSpan.None?
    ensures r.Err? ==> r.error == IllegalState
    ensures r.Ok? ==> (r.value <==> n.timeSpan.value.end <= span.start)
    ensures r.Ok? && r.value ==> !n.timeSpan.value.OverlapsWith(span)
  {
    if n.timeSpan.None? then Err(IllegalState) else Ok(n.timeSpan.value.EndsBefore(span))
  }
}
