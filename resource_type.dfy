/** Resource types of src/domain/ResourceType.java: a named pool of resources
    with the types it requires and the types it conflicts with. */
module ResourceTypes {
  import opened Outcomes
  import opened Timespans
  import opened Resources

  class ResourceType {
    const name: string
    /** The requirement and conflict lists are kept by reference, as the
        source keeps the caller's lists, so they can be filled in after
        construction (a type may list itself as a conflict). */
    var requirements: seq<ResourceType>
    var conflicts: seq<ResourceType>
    /** The daily availability; None for an always-available type. */
    const availability: Option<Timespan>
    var resources: set<Resource>

    ghost predicate Valid()
      reads this, resources
    {
      forall m :: m in resources ==> m.Valid()
    }

    static predicate CanHaveAsName(name: Option<string>) {
      name.Some? && |name.value| > 0
    }

    /** Only a finite span can be a daily availability. */
    static predicate CanHaveAsAvailability(availability: Option<Timespan>) {
      availability.None? || !availability.value.IsInfinite()
    }

    /** The constructor's checks, in the order it makes them; a missing list
        is null. */
    static function CheckConstruction(name: Option<string>, requirements: Option<seq<ResourceType>>,
                                      conflicts: Option<seq<ResourceType>>, availability: Option<Timespan>): (o: Outcome)
      ensures o == Pass <==>
        (CanHaveAsName(name) && requirements.Some? && conflicts.Some? && CanHaveAsAvailability(availability))
      ensures o.Fail? ==> o.error == IllegalArgument
    {
      if !CanHaveAsName(name) then Fail(IllegalArgument)
      else if requirements.None? then Fail(IllegalArgument)
      else if conflicts.None? then Fail(IllegalArgument)
      else if !CanHaveAsAvailability(availability) then Fail(IllegalArgument)
      else Pass
    }

    constructor Init(name: string, requirements: seq<ResourceType>, conflicts: seq<ResourceType>,
                     availability: Option<Timespan>)
      ensures Valid()
      ensures this.name == name && this.requirements == requirements && this.conflicts == conflicts
      ensures this.availability == availability && resources == {}
    {
      this.name := name;
      this.requirements := requirements;
      this.conflicts := conflicts;
      this.availability := availability;
      resources := {};
    }

    static method Create(name: Option<string>, requirements: Option<seq<ResourceType>>,
                         conflicts: Option<seq<ResourceType>>, availability: Option<Timespan>)
      returns (r: Result<ResourceType>)
      ensures r.Err? <==> CheckConstruction(name, requirements, conflicts, availability).Fail?
      ensures r.Err? ==> r.error == IllegalArgument
      ensures r.Ok? ==> (fresh(r.value) && r.value.Valid() && r.value.resources == {}
        && r.value.name == name.value && r.value.requirements == requirements.value
        && r.value.conflicts == conflicts.value && r.value.availability == availability)
    {
      var check := CheckConstruction(name, requirements, conflicts, availability);
      if check.Fail? {
        return Err(check.error);
      }
      var t := new ResourceType.Init(name.value, requirements.value, conflicts.value, availability);
      r := Ok(t);
    }

    /** A missing resource (null) is refused. */
    method AddResource(resource: Option<Resource>) returns (o: Outcome)
      requires Valid()
      requires resource.Some? ==> resource.value.Valid()
      modifies this
      ensures Valid()
      ensures o.Fail? <==> resource.None?
      ensures o.Fail? ==> o.error == IllegalArgument && resources == old(resources)
      ensures o.Pass? ==> resources == old(resources) + {resource.value}
    {
      if resource.None? {
        return Fail(IllegalArgument);
      }
      resources := resources + {resource.value};
      o := Pass;
    }

    /** The members free during `span`. */
    function Available(span: Span): set<Resource>
      reads this, resources
    {
      set m | m in resources && FreeDuring(m.reservations, span)
    }

    /** The tasks that hold a reservation of some member during `span`. */
    function ConflictingTasks(span: Span): set<TaskId>
      reads this, resources
    {
      TasksBlocking(resources, span)
    }

    method GetAvailableResources(span: Span) returns (result: set<Resource>)
      ensures result == Available(span)
    {
      result := {};
      var rest := resources;
      while rest != {}
        invariant rest <= resources
        invariant result <= resources - rest
        invariant forall m :: m in resources - rest ==> (m in result <==> FreeDuring(m.reservations, span))
        decreases rest
      {
        var m :| m in rest;
        var free := m.IsAvailable(span);
        if free {
          result := result + {m};
        }
        rest := rest - {m};
      }
      assert result == Available(span);
    }

    method HasAvailableResources(span: Span, quantity: int) returns (b: bool)
      ensures b <==> |Available(span)| >= quantity
    {
      var available := GetAvailableResources(span);
      b := |available| >= quantity;
    }

    method FindConflictingTasks(span: Span) returns (result: set<TaskId>)
      ensures result == ConflictingTasks(span)
    {
      result := {};
      var rest := resources;
      while rest != {}
        invariant rest <= resources
        invariant result == TasksBlocking(resources - rest, span)
        decreases rest
      {
        var m :| m in rest;
        var tasks := m.FindConflictingTasks(span);
        TasksBlockingAdd(resources - rest, m, span);
        assert resources - (rest - {m}) == (resources - rest) + {m};
        result := result + tasks;
        rest := rest - {m};
      }
    }

    /** As written: when enough members are free, the inner loop reserves
        every free member, however small `quantity` is, and a non-positive
        quantity reserves nothing. A member on which the task already holds a
        reservation makes the loop throw midway, leaving the reservations
        already made in place. */
    method MakeReservation(task: TaskId, span: Timespan, quantity: int) returns (r: Result<set<Resource>>)
      requires Valid()
      modifies resources
      ensures Valid()
      ensures |old(Available(span))| < quantity ==>
        r == Err(Conflict(task, old(ConflictingTasks(span)))) && ReservedOn(resources, {}, task, span)
      ensures 0 < quantity <= |old(Available(span))| ==>
        (r.Ok? <==> forall m :: m in old(Available(span)) ==> !old(HoldsFor(m.reservations, task)))
      ensures r.Ok? ==> r.value == (if quantity <= 0 then {} else old(Available(span)))
      ensures r.Ok? ==> ReservedOn(resources, r.value, task, span)
      ensures r.Err? && quantity <= |old(Available(span))| ==>
        r.error == IllegalArgument && PartlyReservedOn(resources, old(Available(span)), task, span)
      ensures quantity <= 0 ==> r == Ok({}) && ReservedOn(resources, {}, task, span)
    {
      var available := GetAvailableResources(span);
      assert available == old(Available(span));
      if |available| < quantity {
        var confl := FindConflictingTasks(span);
        return Err(Conflict(task, confl));
      }
      r := ReserveWhileShort(available, task, span, quantity);
    }

    /** The outer loop of makeReservation: while fewer than `quantity`
        members are reserved, reserve every member of `available`. */
    method ReserveWhileShort(available: set<Resource>, task: TaskId, span: Timespan, quantity: int)
      returns (r: Result<set<Resource>>)
      requires Valid() && available <= resources && quantity <= |available|
      requires forall m :: m in available ==> FreeDuring(m.reservations, span)
      modifies available
      ensures Valid()
      ensures 0 < quantity ==> (r.Ok? <==> forall m :: m in available ==> !old(HoldsFor(m.reservations, task)))
      ensures r.Ok? ==> r.value == (if quantity <= 0 then {} else available)
      ensures r.Ok? ==> ReservedOn(resources, r.value, task, span)
      ensures r.Err? ==> r.error == IllegalArgument && PartlyReservedOn(resources, available, task, span)
      ensures quantity <= 0 ==> r == Ok({})
    {
      var result: set<Resource> := {};
      while |result| < quantity
        invariant result == {} || result == available
        invariant quantity > 0 || result == {}
        invariant Valid()
        invariant ReservedOn(resources, result, task, span)
        invariant result == available ==> forall m :: m in available ==> !old(HoldsFor(m.reservations, task))
        decreases quantity - |result|
      {
        assert result == {};
        var each := ReserveEach(available, task, span);
        if each.Fail? {
          return Err(each.error);
        }
        result := available;
      }
      r := Ok(result);
    }

    /** The inner loop of makeReservation: reserve every member of `chosen`. */
    method ReserveEach(chosen: set<Resource>, task: TaskId, span: Timespan) returns (o: Outcome)
      requires Valid() && chosen <= resources
      requires forall m :: m in chosen ==> FreeDuring(m.reservations, span)
      modifies chosen
      ensures Valid()
      ensures o.Pass? <==> forall m :: m in chosen ==> !old(HoldsFor(m.reservations, task))
      ensures o.Pass? ==> ReservedOn(chosen, chosen, task, span)
      ensures o.Fail? ==> o.error == IllegalArgument && PartlyReservedOn(chosen, chosen, task, span)
    {
      var rest := chosen;
      while rest != {}
        invariant rest <= chosen
        invariant Valid()
        invariant ReservedOn(chosen, chosen - rest, task, span)
        invariant forall m :: m in chosen - rest ==> !old(HoldsFor(m.reservations, task))
        decreases rest
      {
        var m :| m in rest;
        var made := m.MakeReservation(task, span);
        if made.Err? {
          return Fail(made.error);
        }
        rest := rest - {m};
      }
      o := Pass;
    }

    /** Corrected makeReservation: exactly `quantity` free members are
        reserved (none for a non-positive quantity). */
    method MakeReservationCorrected(task: TaskId, span: Timespan, quantity: int) returns (r: Result<set<Resource>>)
      requires Valid()
      modifies resources
      ensures Valid()
      ensures |old(Available(span))| < quantity ==>
        r == Err(Conflict(task, old(ConflictingTasks(span)))) && ReservedOn(resources, {}, task, span)
      ensures r.Ok? ==> r.value <= old(Available(span)) && |r.value| == (if quantity <= 0 then 0 else quantity)
      ensures r.Ok? ==> ReservedOn(resources, r.value, task, span)
      ensures r.Err? && quantity <= |old(Available(span))| ==> r.error == IllegalArgument
      ensures r.Err? && quantity <= |old(Available(span))| ==>
        exists m :: m in old(Available(span)) && old(HoldsFor(m.reservations, task))
      ensures r.Err? && quantity <= |old(Available(span))| ==>
        PartlyReservedOn(resources, old(Available(span)), task, span)
      ensures quantity <= 0 ==> r == Ok({}) && ReservedOn(resources, {}, task, span)
    {
      var available := GetAvailableResources(span);
      assert available == old(Available(span));
      if |available| < quantity {
        var confl := FindConflictingTasks(span);
        return Err(Conflict(task, confl));
      }
      var chosen := Take(available, if quantity <= 0 then 0 else quantity);
      var each := ReserveEach(chosen, task, span);
      if each.Fail? {
        forall m | m in resources
          ensures m.previousReservations == old(m.previousReservations)
          ensures m.reservations == old(m.reservations)
            || (m in available && m.reservations == old(m.reservations) + {Reservation(task, span)})
        {
        }
        return Err(each.error);
      }
      r := Ok(chosen);
    }

    /** The free spans of the members, merged into one sorted set: identical
        spans of different members collapse into one. */
    method NextAvailableTimespans(from: Time) returns (r: Result<set<Timespan>>)
      requires Valid()
      ensures r.Err? <==> exists m :: m in resources && FreeSpans(m.reservations, from).Err?
      ensures r.Err? ==> r.error == IllegalArgument
      ensures r.Ok? ==> forall s :: s in r.value <==>
        exists m :: m in resources && s in FreeSpans(m.reservations, from).value
    {
      var result: set<Timespan> := {};
      var rest := resources;
      while rest != {}
        invariant rest <= resources
        invariant forall m :: m in resources - rest ==> FreeSpans(m.reservations, from).Ok?
        invariant forall s :: s in result <==>
          exists m :: m in resources - rest && s in FreeSpans(m.reservations, from).value
        decreases rest
      {
        var m :| m in rest;
        var spans := m.NextAvailableTimespans(from);
        if spans.Err? {
          FreeSpansErrIsIllegalArgument(m.reservations, from);
          return Err(spans.error);
        }
        result := result + (set s | s in spans.value);
        rest := rest - {m};
      }
      r := Ok(result);
    }

    /** The predicate canHaveAsCombination decides: a selected type this type
        conflicts with is allowed only when it is this type itself, selected
        once, and every required type is selected. */
    predicate CombinationAllowed(selection: map<ResourceType, int>)
      reads this
    {
      (forall k :: k in selection && k in conflicts ==> k == this && selection[k] == 1)
      && (forall q :: q in requirements ==> q in selection)
    }

    method CanHaveAsCombination(selection: map<ResourceType, int>) returns (b: bool)
      ensures b <==> CombinationAllowed(selection)
    {
      var keys := selection.Keys;
      while keys != {}
        invariant keys <= selection.Keys
        invariant forall k :: k in selection && k !in keys && k in conflicts ==> k == this && selection[k] == 1
        decreases keys
      {
        var k :| k in keys;
        if k in conflicts {
          if k == this && selection[k] > 1 {
            return false;
          } else if k == this && selection[k] == 1 {
          } else {
            return false;
          }
        }
        keys := keys - {k};
      }
      for i := 0 to |requirements|
        invariant forall j :: 0 <= j < i ==> requirements[j] in selection
      {
        if requirements[i] !in selection {
          return false;
        }
      }
      return true;
    }

    /** As written: each member clears its own reservations, which (as
        written in Resource) only archives the consumed parts; the first member
        holding a reservation of the task that starts at `currentTime` throws,
        and the members visited before it keep their archive entries. */
    method ClearFutureReservations(currentTime: Time, task: TaskId) returns (o: Outcome)
      requires Valid()
      modifies resources
      ensures Valid()
      ensures forall m :: m in resources ==> m.reservations == old(m.reservations)
      ensures o.Fail? <==>
        (exists m, x :: m in resources && x in old(m.reservations) && x.task == task && x.span.start == currentTime)
      ensures o.Pass? ==> forall m :: m in resources ==>
        m.previousReservations == old(m.previousReservations) + Consumed(old(m.reservations), task, currentTime)
      ensures forall m :: m in resources ==>
        m.previousReservations == old(m.previousReservations)
        || m.previousReservations == old(m.previousReservations) + Consumed(old(m.reservations), task, currentTime)
    {
      var rest := resources;
      while rest != {}
        invariant rest <= resources
        invariant forall m :: m in resources ==> m.Valid() && m.reservations == old(m.reservations)
        invariant forall m :: m in rest ==> m.previousReservations == old(m.previousReservations)
        invariant forall m :: m in resources - rest ==>
          m.previousReservations == old(m.previousReservations) + Consumed(old(m.reservations), task, currentTime)
        invariant forall m, x :: m in resources - rest && x in m.reservations && x.task == task ==> x.span.start != currentTime
        decreases rest
      {
        var m :| m in rest;
        var cleared := m.ClearFutureReservations(currentTime, task);
        if cleared.Fail? {
          return cleared;
        }
        rest := rest - {m};
      }
      o := Pass;
    }

    /** Fan-out over members with the corrected Resource operation. */
    method ClearFutureReservationsCorrected(currentTime: Time, task: TaskId)
      requires Valid()
      modifies resources
      ensures Valid()
      ensures forall m :: m in resources ==>
        m.reservations == old(m.reservations) - (set x | x in old(m.reservations) && x.task == task && currentTime <= x.span.end)
        && m.previousReservations == old(m.previousReservations) + Consumed(old(m.reservations), task, currentTime)
    {
      var rest := resources;
      while rest != {}
        invariant rest <= resources
        invariant forall m :: m in resources ==> m.Valid()
        invariant forall m :: m in rest ==>
          m.reservations == old(m.reservations) && m.previousReservations == old(m.previousReservations)
        invariant forall m :: m in resources - rest ==>
          m.reservations == old(m.reservations) - (set x | x in old(m.reservations) && x.task == task && currentTime <= x.span.end)
          && m.previousReservations == old(m.previousReservations) + Consumed(old(m.reservations), task, currentTime)
        decreases rest
      {
        var m :| m in rest;
        m.ClearFutureReservationsCorrected(currentTime, task);
        rest := rest - {m};
      }
    }
  }

  /** Every listed resource gained the reservation (task, span) exactly when
      it is in `chosen`, and kept its archive. */
  twostate predicate ReservedOn(ms: set<Resource>, chosen: set<Resource>, task: TaskId, span: Timespan)
    reads ms
  {
    forall m :: m in ms ==>
      m.previousReservations == old(m.previousReservations)
      && m.reservations == old(m.reservations) + (if m in chosen then {Reservation(task, span)} else {})
  }

  /** Every listed resource kept its archive and either kept its reservations
      or, when in `candidates`, gained the reservation (task, span). */
  twostate predicate PartlyReservedOn(ms: set<Resource>, candidates: set<Resource>, task: TaskId, span: Timespan)
    reads ms
  {
    forall m :: m in ms ==>
      m.previousReservations == old(m.previousReservations)
      && (m.reservations == old(m.reservations)
          || (m in candidates && m.reservations == old(m.reservations) + {Reservation(task, span)}))
  }

  /** The tasks holding a reservation of some member of `ms` during `span`. */
  function TasksBlocking(ms: set<Resource>, span: Span): set<TaskId>
    reads ms
  {
    set m, t | m in ms && t in TasksOf(Conflicting(m.reservations, span)) :: t
  }

  lemma TasksBlockingAdd(ms: set<Resource>, m: Resource, span: Span)
    ensures TasksBlocking(ms + {m}, span) == TasksBlocking(ms, span) + TasksOf(Conflicting(m.reservations, span))
  {
  }

  /** Some `n` elements of `s`. */
  method Take<T>(s: set<T>, n: nat) returns (t: set<T>)
    requires n <= |s|
    ensures t <= s && |t| == n
  {
    t := {};
    while |t| < n
      invariant t <= s && |t| <= n
      decreases n - |t|
    {
      SubsetSize(t, s);
      var x :| x in s - t;
      t := t + {x};
    }
  }

  lemma SubsetSize<T>(a: set<T>, b: set<T>)
    requires a <= b
    ensures |b - a| == |b| - |a|
  {
    assert b == (b - a) + a;
  }

  lemma FreeSpansErrIsIllegalArgument(rs: set<Reservation>, from: Time)
    requires PairwiseDisjoint(rs)
    ensures FreeSpans(rs, from).Err? ==> FreeSpans(rs, from).error == IllegalArgument
  {
  }

  /** A type with two fresh members. */
  method TwoMembers() returns (t: ResourceType, a: Resource, b: Resource)
    ensures fresh(t) && fresh(a) && fresh(b) && t.Valid()
    ensures t.resources == {a, b} && a != b
    ensures a.reservations == {} && b.reservations == {}
  {
    t := new ResourceType.Init("room", [], [], None);
    a := new Resource.Init(0, "room 1");
    b := new Resource.Init(1, "room 2");
    var added := t.AddResource(Some(a));
    added := t.AddResource(Some(b));
  }

  /** Asking makeReservation for one member of a type with two free members
      reserves both of them. */
  method ReservingOneTakesAll() returns (taken: nat)
    ensures taken == 2
  {
    var t, a, b := TwoMembers();
    assert t.Available(Span(10, 20)) == {a, b};
    assert forall m :: m in t.Available(Span(10, 20)) ==> !HoldsFor(m.reservations, 7);
    var r := t.MakeReservation(7, Span(10, 20), 1);
    assert r.Ok?;
    taken := |r.value|;
  }

  /** The corrected reservation takes exactly the quantity asked for. */
  method CorrectedReservingOneTakesOne() returns (taken: nat)
    ensures taken == 1
  {
    var t, a, b := TwoMembers();
    assert t.Available(Span(10, 20)) == {a, b};
    var r := t.MakeReservationCorrected(7, Span(10, 20), 1);
    assert r.Ok?;
    taken := |r.value|;
  }
}
