# Planning engine core: time spans, resources, tasks and their containers

This project models the domain core of a small project-planning system (a
Java code base). Tasks with prerequisites and alternatives are planned on
resources that can be reserved for a time span.

The model covers:

- **Time spans** (`timespan.dfy`). Minute-granular intervals with strict
  `start < end`. It models their overlap, ordering and excess tests.
- **Resources** (`resource.dfy`). A resource keeps a live set of reservations
  and an archive. The model covers availability and conflicts, the free spans
  from an instant, reserving, clearing, updating and the memento.
- **Resource types** (`resource_type.dfy`). A pool of resources. The model
  covers construction checks, availability queries, reserving across the
  members, the merged free spans, the combination check and the clearing
  fan-out.
- **Tasks** (`task.dfy`, `task_status.dfy`, `task_store.dfy`, `finished.dfy`).
  Tasks live in an arena keyed by id. Prerequisite and alternative references
  are ids. A ghost rank that decreases along every edge proves the graph
  acyclic, which makes every recursive query total. The model covers:
  - the validators (description, deviation, prerequisite list, alternative);
  - `dependsOn`, delay and `endsBefore`;
  - statuses re-derived on every read, fulfilment, the work still needed and
    the time spent;
  - the stateful side: the id counter, construction, fail, finish, update and
    setting an alternative;
  - the answers of the Finished status object.
- **Small state holders.** The monotone `Clock` (`clock.dfy`), the role →
  permissions `Acl` (`acl.dfy`), the id → project `ProjectContainer`
  (`project_container.dfy`) and the undoable `CreateTaskCommand`
  (`create_task_command.dfy`).

`Project.java` and the Task memento are not part of this model.
`project.dfy` is a small stand-in for them: a task object whose fields can be
saved and restored, and a project whose memento is its list of task objects.
The container and the command need nothing more.

Modelling choices:

- **Time.** A time is an integer count of minutes since 1970-01-01, bounded
  by LocalDateTime.MIN and MAX. Both bounds are truncated to the minute, so
  MAX_TIME is +999999999-12-31T23:59 and doubles as the end of an infinite
  span (see Left out).
- **Durations.** `Duration.java` is not part of this model. The
  business-calendar length of a span is a function parameter
  `work: (Time, Time) -> nat`, so every statement that uses it holds for any
  calendar.
- **Reservations.** `Reservation.java` is not part of this model. A
  reservation is a (task id, span) pair that conflicts with a span when the
  two overlap. Two further assumptions about it: `expiredBefore(t)` holds
  when the span ends at or before `t`, and `timespanComparator` orders
  reservations by their spans' compareTo order.
- **Errors.** Exceptions are `Result`/`Outcome` values. The error kinds are
  IllegalArgument, IllegalState, Conflict (with the conflicting tasks),
  ObjectNotFound and DateTimeOutOfRange.

Where the documentation and the code disagree, the model follows the code:

- `Clock.isAfter` (src/domain/Clock.java:85-93) is documented as "the given
  time is later than the clock". The code tests whether the clock's time is
  after the given time.
- `Clock.isBefore` (src/domain/Clock.java:95-104) is documented as "the given
  time is earlier than the clock". The code tests whether the clock's time is
  before the given time.
- `Timespan.compareTo` (src/domain/time/Timespan.java:179-197) is documented
  as negative when the other span starts or ends before this one. The code is
  negative when this span starts first, or when both start together and this
  one ends first.
- `ProjectContainer.createProject` (src/domain/ProjectContainer.java:77-101)
  is documented to use the project count as the id. The code stores the
  project under its own `getId()`.
- `ResourceType.nextAvailableTimespans` (src/domain/ResourceType.java:244-261)
  is documented to return one infinite span per resource. The TreeSet
  collapses identical spans.

## Model

| member | source | states |
|---|---|---|
| Timespans.New | src/domain/time/Timespan.java:23-34 | construction succeeds exactly when both times are present and start < end, with exactly those ends; otherwise IllegalArgument |
| Timespans.Infinite | src/domain/time/Timespan.java:41-43 | the one-argument span ends at MAX and is refused only when it would start at MAX |
| Timespans.OfDuration | src/domain/time/Timespan.java:51-53 | the span ends `duration` minutes after its start; past MAX it is DateTimeOutOfRange, and a zero duration is refused |
| Timespans.OverlapsSymmetric | src/domain/time/Timespan.java:88-91 | overlapsWith is symmetric |
| Timespans.OverlapsReflexive | src/domain/time/Timespan.java:88-91 | every span overlaps itself |
| Timespans.TouchingDoNotOverlap | src/domain/time/Timespan.java:88-91 | spans that only touch do not overlap; the first ends before the second, not the reverse |
| Timespans.OverlapsIffSharedMinute | src/domain/time/Timespan.java:88-91 | two spans overlap exactly when some minute lies in both |
| Timespans.EndsBeforeExcludesOverlap | src/domain/time/Timespan.java:147-149 | endsBefore excludes overlap and never holds of a span against itself |
| Timespans.Span.GetExcess | src/domain/time/Timespan.java:114-120 | the excess is zero exactly when the working length is within the duration, and otherwise makes up the difference |
| Timespans.Span.CompareToTime | src/domain/time/Timespan.java:169-177 | 0 exactly when start <= t <= end, -1 exactly when t is past the end, 1 exactly when t is before the start |
| Timespans.Span.CompareTo | src/domain/time/Timespan.java:189-197 | 0 exactly for equal spans; negative exactly when lexicographically smaller by (start, end) |
| Timespans.CompareToIsTotalOrder | src/domain/time/Timespan.java:189-197 | compareTo is antisymmetric, transitive and total |
| Resources.Resource.Create | src/domain/Resource.java:32-46 | a missing or empty name raises IllegalArgument; otherwise a resource with no reservations |
| Resources.Resource.IsAvailable | src/domain/Resource.java:107-113 | true exactly when no live reservation conflicts with the span; the archive is ignored |
| Resources.Resource.GetConflictingReservations | src/domain/Resource.java:123-129 | exactly the live reservations that conflict with the span |
| Resources.Resource.FindConflictingTasks | src/domain/Resource.java:139-145 | exactly the tasks of the conflicting reservations |
| Resources.FreeIffNoConflictingTasks | src/domain/Resource.java:107-145 | a span is available exactly when findConflictingTasks is empty |
| Resources.Resource.GetReservation | src/domain/Resource.java:154-159 | the live reservation of the task, and None exactly when the task holds none |
| Resources.Resource.GetReservationsFrom | src/domain/Resource.java:168-175 | the reservations not yet expired at `from`, each once, in strictly increasing span order |
| Resources.InsertSorted | src/domain/Resource.java:168-175 | adding to the ordered set keeps it strictly sorted and adds the element unless its span is present |
| Resources.Resource.NextAvailableTimespans | src/domain/Resource.java:185-207 | the result is the free-span function of the live reservations |
| Resources.Resource.SpansAround | src/domain/Resource.java:185-207 | the loop over the running reservations yields exactly the opening span, the gaps and the final infinite span |
| Resources.Resource.SpansBetween | src/domain/Resource.java:193-204 | before the infinite span, the loop collects the opening span and one gap per consecutive pair, and throws IllegalArgument exactly when two consecutive reservations touch |
| Resources.FreeSpansWhenNothingRuns | src/domain/Resource.java:185-207 | with nothing running at `from` the only free span is [from, MAX) |
| Resources.FreeSpansEndInfinite | src/domain/Resource.java:185-207 | otherwise the last free span is infinite and starts where the last running reservation ends |
| Resources.FreeSpansAreFree | src/domain/Resource.java:185-207 | no returned span overlaps a running reservation or starts before `from` |
| Resources.FreeSpansCoverFree | src/domain/Resource.java:185-207 | conversely, every minute from `from` up to MAX that no running reservation covers lies in some returned span |
| Resources.FreeSpansSorted | src/domain/Resource.java:185-207 | the returned spans are strictly increasing under compareTo |
| Resources.FreeSpansFailIff | src/domain/Resource.java:185-207 | the Timespan constructor throws exactly when two running reservations touch, one is infinite, or nothing runs and `from` is MAX |
| Resources.Resource.MakeReservation | src/domain/Resource.java:223-233 | a task already holding a reservation gets IllegalArgument; a busy span gets Conflict with findConflictingTasks; otherwise exactly (task, span) is added and the archive is kept |
| Resources.Resource.ClearFutureReservations | src/domain/Resource.java:242-261 | as written: the live set is unchanged; the archive gains the consumed part of a running reservation; a reservation starting at `currentTime` throws |
| Resources.Resource.ClearFutureReservationsCorrected | src/domain/Resource.java:242-261 | the task's reservations not ended by `currentTime` leave the live set, and the consumed part of a started one is archived |
| Resources.Resource.ArchiveReservation | src/domain/Resource.java:263-266 | the archive gains exactly the reservation |
| Resources.Resource.Update | src/domain/Resource.java:272-283 | as written: every started reservation is archived but stays live |
| Resources.Resource.UpdateCorrected | src/domain/Resource.java:272-283 | started reservations move from the live set to the archive |
| Resources.Resource.RemoveReservation | src/domain/Resource.java:291-294 | as written: reports whether the reservation is live and removes nothing |
| Resources.Resource.RemoveReservationCorrected | src/domain/Resource.java:291-294 | the reservation leaves the live set; the result says whether it was there |
| Resources.Resource.CreateMemento | src/domain/Resource.java:312-315 | the memento holds both sets as values |
| Resources.Resource.SetMemento | src/domain/Resource.java:322-329 | both sets become the memento's, so restoring a fresh memento changes nothing |
| Resources.ClearedReservationStillBlocks | src/domain/Resource.java:242-261 | after clearing task 1's future reservation [10, 20) at 5, the span is still unavailable |
| Resources.ClearAtStartThrows | src/domain/Resource.java:253-257 | clearing at the instant a reservation starts raises IllegalArgument |
| Resources.CorrectedClearFrees | src/domain/Resource.java:242-261 | the corrected clear frees the span in the same situation |
| ResourceTypes.ResourceType.CheckConstruction | src/domain/ResourceType.java:36-50 | construction passes exactly for a non-empty name, present lists and a finite availability; otherwise IllegalArgument |
| ResourceTypes.ResourceType.Create | src/domain/ResourceType.java:36-50 | the constructor fails exactly when the checks fail, and otherwise gives a type without members |
| ResourceTypes.ResourceType.AddResource | src/domain/ResourceType.java:167-172 | a null resource raises IllegalArgument; otherwise the member set gains exactly it |
| ResourceTypes.ResourceType.GetAvailableResources | src/domain/ResourceType.java:184-192 | exactly the members available during the span |
| ResourceTypes.ResourceType.HasAvailableResources | src/domain/ResourceType.java:194-196 | true exactly when at least `quantity` members are available |
| ResourceTypes.ResourceType.FindConflictingTasks | src/domain/ResourceType.java:204-211 | the union over all members of their conflicting tasks |
| ResourceTypes.TasksBlockingAdd | src/domain/ResourceType.java:204-211 | the union grows by exactly the new member's conflicting tasks |
| ResourceTypes.ResourceType.MakeReservation | src/domain/ResourceType.java:227-242 | as written: a quantity of zero or less reserves nothing and returns an empty set; too few free members gives Conflict with the union of conflicting tasks and reserves nothing; otherwise every free member is reserved, or the loop throws midway |
| ResourceTypes.ResourceType.ReserveWhileShort | src/domain/ResourceType.java:233-241 | with enough free members, a non-positive quantity reserves nothing; otherwise every free member is reserved exactly when none already holds a reservation of the task, and the failure is IllegalArgument with part of them reserved |
| ResourceTypes.ResourceType.ReserveEach | src/domain/ResourceType.java:234-241 | every chosen member gains (task, span), unless one already holds a reservation of the task, which throws with part of the members reserved |
| ResourceTypes.ResourceType.MakeReservationCorrected | src/domain/ResourceType.java:227-242 | a quantity of zero or less reserves nothing; otherwise exactly `quantity` free members are reserved; failures only as in the source, and an IllegalArgument thrown midway leaves the members reserved so far holding the task |
| ResourceTypes.ReservingOneTakesAll | src/domain/ResourceType.java:234-241 | asking for one member of a type with two free members reserves two |
| ResourceTypes.CorrectedReservingOneTakesOne | src/domain/ResourceType.java:227-242 | the corrected reservation reserves one in the same situation |
| ResourceTypes.ResourceType.NextAvailableTimespans | src/domain/ResourceType.java:253-261 | the set union of the members' free spans, failing exactly when a member's fails |
| ResourceTypes.ResourceType.CanHaveAsCombination | src/domain/ResourceType.java:272-292 | true exactly when every selected conflicting type is this type selected once, and every required type is selected |
| ResourceTypes.ResourceType.ClearFutureReservations | src/domain/ResourceType.java:294-300 | as written: every member clears its own reservations; it throws exactly when some member holds a reservation of the task starting at `currentTime` |
| ResourceTypes.ResourceType.ClearFutureReservationsCorrected | src/domain/ResourceType.java:294-300 | every member drops the task's unfinished reservations and archives the consumed parts |
| Tasks.DependsOnIffPath | src/domain/Task.java:490-504 | dependsOn holds exactly when `t` ends a prerequisite chain from `x` or is the alternative at the end of one |
| Tasks.DependsOnHasPath | src/domain/Task.java:490-504 | the recursion's answer is witnessed by such a chain |
| Tasks.PathGivesDependsOn | src/domain/Task.java:490-504 | every such chain makes dependsOn hold |
| Tasks.DependsOnImpliesReaches | src/domain/Task.java:490-504 | what dependsOn finds is reachable along prerequisite and alternative edges |
| Tasks.NothingDependsOnAbsent | src/domain/Task.java:490-504 | no task depends on a task outside the arena |
| Tasks.CanHaveAsDescription | src/domain/Task.java:131-133 | valid exactly when present and non-empty |
| Tasks.CanHaveAsAcceptableDeviation | src/domain/Task.java:195-197 | valid exactly when 0 <= d <= 100 |
| Tasks.CanHaveAsPrerequisiteTasks | src/domain/Task.java:296-307 | an accepted list is present and holds no null, not the task and no task depending on it; a refused present list holds such an element |
| Tasks.WithAlternative | src/domain/Task.java:227-229 | only the alternative of the one task changes |
| Tasks.CanHaveAsAlternativeTaskAsWritten | src/domain/Task.java:244-259 | as written: accepted exactly when present, not the task itself, not depending on the task, and both in the project |
| Tasks.CanHaveAsAlternativeTask | src/domain/Task.java:244-259 | the corrected check accepts exactly what the written one accepts, less any alternative from which the task is reachable along prerequisite or alternative edges |
| Tasks.AlternativeKeepsRanking | src/domain/Task.java:244-259 | an alternative accepted by the corrected check keeps the graph acyclic |
| Tasks.AlternativeCycleHasNoRanking | src/domain/Task.java:244-259 | an alternative that reaches the task leaves no acyclicity rank |
| Tasks.AlternativeCycleAccepted | src/domain/Task.java:244-259 | the written check accepts the alternative 2 -> 0 after 0 -> 1 -> 2, which leaves no rank; the corrected check refuses it |
| Tasks.GetDelay | src/domain/Task.java:341-347 | zero without a span; otherwise zero exactly when the working length is within the maximum, and otherwise the excess |
| Tasks.EndsBefore | src/domain/Task.java:463-469 | IllegalState exactly without a span; otherwise true exactly when the task's span ends by the other's start |
| FinishedStatus.IsFulfilledBefore | src/domain/Finished.java:52-54 | the answer is the task's endsBefore, including its IllegalState |
| TaskStatus.FinishedAnswers | src/domain/Finished.java:39-73 | a finished task stays Finished, is fulfilled, can be fulfilled and needs no work |
| TaskStatus.IsFulfilledAsDocumented | src/domain/Task.java:445-453 | fulfilled exactly when finished, or failed with a fulfilled alternative |
| TaskStatus.FulfilledCanBeFulfilled | src/domain/Task.java:530-541 | a fulfilled task can be fulfilled |
| TaskStatus.WorkNeededBounds | src/domain/Task.java:515-528 | a finished or failed task needs no work; an available or unavailable one at least its own estimate |
| TaskStatus.UnavailableWorkCoversPrerequisites | src/domain/Task.java:515-528 | an unavailable task's work covers the work each prerequisite still needs |
| TaskStatus.PrerequisiteWorkCovers | src/domain/Task.java:515-528 | the prerequisite sum covers each summand's work |
| TaskStatus.MaxTimeSpentIsMaximum | src/domain/Task.java:552-568 | the loop's maximum bounds every prerequisite's time spent and is zero or attained |
| TaskStatus.TimeSpentBounds | src/domain/Task.java:552-568 | zero without a span; otherwise at least the span's length plus any prerequisite's time, plus the alternative's |
| TaskStatus.UnfulfilledChangeKeepsFulfilment | src/domain/Task.java:313-316 | changing an unfulfilled task into another unfulfilled state changes no task's fulfilment |
| TaskStatus.FulfillingKeepsFulfilment | src/domain/Task.java:313-316 | making a task fulfilled keeps every fulfilled task fulfilled |
| TaskStatus.RederivedStatusIsStable | src/domain/Task.java:313-316 | storing the derived status back changes no task's status |
| TaskStatus.FailingKeepsOtherStatuses | src/domain/Task.java:413-416 | failing a task without an alternative changes no other task's status |
| TaskStatus.FinishingKeepsAvailable | src/domain/Task.java:424-427 | after a finish, available tasks stay available and fulfilled ones fulfilled |
| TaskStatus.FinishingAlternativeReleasesDependent | test/domain/TaskTest.java:223-240 | t8 is unavailable while t7 failed; once t7's alternative finishes, t8 reads as available and t7 as fulfilled |
| TaskStores.TaskStore.GenerateId | src/domain/Task.java:88-90 | hands out the counter, which grows by one, and the id is unused |
| TaskStores.TaskStore.CreateTask | src/domain/Task.java:44-63 | the id is consumed even on failure; IllegalArgument exactly for a bad description, a bad deviation or a bad prerequisite list; otherwise a new Available task with the given fields |
| TaskStores.NewTaskKeepsRanking | src/domain/Task.java:44-63 | a new task over existing prerequisites keeps the graph acyclic |
| TaskStores.TaskStore.FailTask | src/domain/Task.java:413-416 | allowed exactly from derived Available or Unavailable; then the status is Failed with the span, otherwise IllegalState and nothing changes |
| TaskStores.TaskStore.FinishTask | src/domain/Task.java:424-427 | allowed exactly from derived Available; otherwise IllegalState and nothing changes |
| TaskStores.TaskStore.Update | src/domain/Task.java:384-406 | the IllegalArgument guards in source order, then the transition table |
| TaskStores.TaskStore.SetAlternativeTask | src/domain/Task.java:217-219 | Finished and other non-failed statuses raise IllegalState; so does an alternative already set; a refused target raises IllegalArgument; otherwise only the alternative is set |
| TaskStores.TaskStore.LinkAlternative | src/domain/Task.java:227-229 | the raw setter sets the alternative and keeps the store acyclic |
| TaskStores.TaskStore.GetTimeSpent | src/domain/Task.java:552-568 | the loop and recursion compute the time-spent function |
| Clocks.Clock.Default | src/domain/Clock.java:33-35 | a new clock starts at INCEPTION |
| Clocks.Clock.Copy | src/domain/Clock.java:43-45 | a copied clock starts at the other's time |
| Clocks.Advanced | src/domain/Clock.java:76-82 | the time after a call is never earlier, and is the requested time when that is not earlier |
| Clocks.ReplayIsLatest | src/domain/Clock.java:76-82 | after any series of calls the clock shows the latest of its start and the requested times |
| Clocks.Clock.AdvanceTime | src/domain/Clock.java:76-82 | IllegalArgument exactly for a time before the current one; the time never decreases |
| Clocks.Clock.IsAfter | src/domain/Clock.java:91-93 | true exactly when the clock's time is after `t`, and then not before it |
| Clocks.Clock.IsBefore | src/domain/Clock.java:102-104 | true exactly when the clock's time is before `t` |
| Clocks.Clock.Equals | src/domain/Clock.java:114-119 | two clocks are equal exactly when neither time is before the other |
| Acls.Acl.HasPermission | src/domain/user/Acl.java:33-39 | false for a role without an entry; otherwise whether the list holds the permission |
| Acls.Acl.GetPermissions | src/domain/user/Acl.java:47-59 | None exactly for an unknown role; otherwise a list granting exactly the role's permissions |
| Acls.AddPermissionGrants | src/domain/user/Acl.java:67-72 | afterwards the permission is granted, earlier grants stay and other roles are untouched |
| Acls.Acl.AddPermission | src/domain/user/Acl.java:67-72 | the table gains the permission for the role |
| Acls.AddEntryReplaces | src/domain/user/Acl.java:82-87 | the role's permissions become exactly the list, or none for null; other roles are untouched |
| Acls.Acl.AddEntry | src/domain/user/Acl.java:82-87 | the role's entry is replaced by a copy of the list |
| ProjectContainers.ProjectContainer.GetProject | src/domain/ProjectContainer.java:62-68 | the stored project, or ObjectNotFound exactly for an unknown id |
| ProjectContainers.ProjectContainer.CreateProject | src/domain/ProjectContainer.java:88-101 | the project goes under its own id, the count grows exactly when the id is new, and other entries are kept |
| ProjectContainers.ProjectContainer.GetUnfinishedProjects | src/domain/ProjectContainer.java:42-52 | exactly one entry per stored unfinished project |
| ProjectContainers.ProjectContainer.GetAllTasks | src/domain/ProjectContainer.java:144-152 | the task lists of the stored projects concatenated in the container's iteration order, so exactly the tasks of the stored projects |
| ProjectContainers.ProjectContainer.ContainsTask | src/domain/ProjectContainer.java:134-136 | true exactly when some stored project has the task |
| ProjectContainers.ProjectContainer.SetMemento | src/domain/ProjectContainer.java:179-193 | the map becomes the saved one; restoring a fresh memento changes nothing |
| CreateTaskCommands.CreateTaskCommand.Init | src/domain/command/CreateTaskCommand.java:70-77 | the arguments are stored but the deviation is dropped (it stays 0); nothing is saved yet |
| CreateTaskCommands.CreateTaskCommand.Execute | src/domain/command/CreateTaskCommand.java:39-56 | the project memento is taken first; the alternative-for task's memento only when the project has it; the new task gets deviation 0 |
| CreateTaskCommands.CreateTaskCommand.Revert | src/domain/command/CreateTaskCommand.java:80-85 | each saved memento is restored; without one (revert before execute) nothing changes |
| CreateTaskCommands.CreateTaskCommand.ExecuteThenRevert | src/domain/command/CreateTaskCommand.java:39-85 | execute then revert leaves the project's task list and every task's fields as they were |

## Left out

- The Executing status and `Task.execute` (src/domain/Task.java:594-596). The Executing, Available, Unavailable and Failed status classes are not part of this model. The Available and Unavailable answers are re-derived from the prerequisites. The transition table follows the status tests.
- FailTask and FinishTask: a transition the status refuses is modelled as IllegalState. The status classes that raise it are not part of this model.
- TaskStatus.EstimatedWorkTimeNeeded follows the doc comment at src/domain/Task.java:515-525. The code delegates to status classes that are not part of this model.
- Task.plan (src/domain/Task.java:616-622) and Task.clearFutureReservations (src/domain/Task.java:429-435) are left out. They do not compile as written.
- Task.getRequiredResources, and the required-resources map that the command copies and passes on, are left out. Project.createTask, which consumes the map, is not part of this model. With the map goes the isValidCombination check of the Task constructor (src/domain/Task.java:45-46), which throws before an id is drawn; TaskStores.TaskStore.CreateTask therefore never fails that way and always consumes an id.
- Task.calculateMaxDuration multiplies in floating point (src/domain/Task.java:363-365). GetDelay takes the maximum duration as a parameter.
- Business-calendar arithmetic (`Duration.java`) is left out. Span lengths come from the uninterpreted `work` parameter.
- Java `int` overflow of the task and resource id counters is not modelled. Ids are unbounded naturals.
- Resource ids come from a static counter (src/domain/Resource.java:57-59). The model takes the id as a constructor argument.
- Attaching a resource to the clock as an observer (src/domain/Resource.java:41) is left out. `update` is an ordinary method.
- The `makeReservation(Reservation)` overload (src/domain/Resource.java:303-305) only delegates to makeReservation(task, span) and has no member of its own.
- Timespan.equals, hashCode and toString are left out. Spans compare structurally.
- Timespans.Infinite: times are whole minutes, so LocalDateTime.MAX is truncated to 23:59 and the infinite end coincides with the last minute. A one-argument span starting at that minute is refused, where the source builds one up to 23:59:59.999999999; and a reservation ending at that minute counts as infinite (Resources.FreeSpansOf refuses it), where the source would not.
- ProjectContainer.getProjects, getAllAvailableTasks and getUnplannedTasks are left out. They rely on Project queries that are not part of this model.
- HashMap iteration order is modelled as an explicit key sequence in ProjectContainer.
- CreateTaskCommands.CreateTaskCommand.Execute returns a failed outcome where Project.createTask would throw. The mementos already taken stay in place, as in the source.
- Projects: the Project and Task-memento behaviour is a stand-in, because Project.java is not part of this model. Its createTask validates only the description and the deviation.
- TaskStores.TaskStore.SetAlternativeTask uses the corrected alternative check (see Findings). In the Failed case it tests "alternative already set" (IllegalState) before the target check, because the Failed class that orders them is not part of this model.

## Findings

| source | as written | input that shows it | evidently intended | confidence | as-written member | corrected member |
|---|---|---|---|---|---|---|
| src/domain/Resource.java:242-261 | clearFutureReservations removes through an iterator over the copy returned by getReservations(), so the live set keeps the cleared reservations | task 1 holds [10, 20); clear at 5; [10, 20) is still unavailable | the task's future reservations leave the live set | high (not executed) | Resources.ClearedReservationStillBlocks | Resources.Resource.ClearFutureReservationsCorrected |
| src/domain/Resource.java:272-283 | update archives started reservations but removes them only from a copy | any started reservation stays live after update | started reservations move to the archive | high (not executed) | Resources.Resource.Update | Resources.Resource.UpdateCorrected |
| src/domain/Resource.java:291-294 | removeReservation removes from a copy | a live reservation is still live afterwards | the reservation leaves the live set | high (not executed) | Resources.Resource.RemoveReservation | Resources.Resource.RemoveReservationCorrected |
| src/domain/Resource.java:253-257 | a reservation starting exactly at currentTime builds Timespan(start, start), which throws | task 1 holds [10, 20); clear at 10 | the reservation is dropped with nothing consumed | high (not executed) | Resources.ClearAtStartThrows | Resources.CorrectedClearFrees |
| src/domain/ResourceType.java:234-241 | the inner loop reserves every available member whatever the quantity | two free members, quantity 1: both are reserved | exactly `quantity` members are reserved | high (not executed) | ResourceTypes.ReservingOneTakesAll | ResourceTypes.CorrectedReservingOneTakesOne |
| src/domain/Task.java:244-259 | the alternative check uses dependsOn, which follows alternative edges one step only, so a cycle of alternatives is accepted | failed tasks 0, 1, 2 with alternatives 0 -> 1, 1 -> 2; setting 2 -> 0 passes, and isFulfilled then recurses forever | refuse any alternative that reaches the task | medium (not executed) | Tasks.AlternativeCycleAccepted | Tasks.CanHaveAsAlternativeTask |
