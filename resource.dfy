/** The per-resource reservation ledger of src/domain/Resource.java.

    A Resource holds a set of live reservations and a set of archived ones.
    Reservation.java is not part of this model: a reservation is a (task id,
    timespan) pair that conflicts with a span when the two overlap, and that
    has expired before an instant when its span ends at or before it. */
module Resources {
  import opened Outcomes
  import opened Timespans

  type TaskId = int

  datatype Reservation = Reservation(task: TaskId, span: Timespan) {
    predicate ConflictsWith(other: Span) {
      span.OverlapsWith(other)
    }

    predicate ExpiredBefore(t: Time) {
      span.end <= t
    }
  }

  /** Reservation.timespanComparator: order by span. */
  predicate Before(a: Reservation, b: Reservation) {
    a.span.CompareTo(b.span) < 0
  }

  /* ---------- Specification functions over reservation sets ---------- */

  function Elems(s: seq<Reservation>): set<Reservation> {
    set r | r in s
  }

  predicate FreeDuring(rs: set<Reservation>, span: Span) {
    forall r :: r in rs ==> !r.ConflictsWith(span)
  }

  function Conflicting(rs: set<Reservation>, span: Span): set<Reservation> {
    set r | r in rs && r.ConflictsWith(span)
  }

  function TasksOf(rs: set<Reservation>): set<TaskId> {
    set r | r in rs :: r.task
  }

  function Running(rs: set<Reservation>, from: Time): set<Reservation> {
    set r | r in rs && !r.ExpiredBefore(from)
  }

  predicate HoldsFor(rs: set<Reservation>, task: TaskId) {
    exists r :: r in rs && r.task == task
  }

  ghost predicate PairwiseDisjoint(rs: set<Reservation>) {
    forall a, b :: a in rs && b in rs && a != b ==> !a.span.OverlapsWith(b.span)
  }

  ghost predicate OnePerTask(rs: set<Reservation>) {
    forall a, b :: a in rs && b in rs && a.task == b.task ==> a == b
  }

  /** What makeReservation guarantees of the live set. */
  ghost predicate Ledger(rs: set<Reservation>) {
    PairwiseDisjoint(rs) && OnePerTask(rs)
  }

  ghost predicate DistinctSpans(rs: set<Reservation>) {
    forall a, b :: a in rs && b in rs && a.span == b.span ==> a == b
  }

  /** A span is free exactly when no reservation of the ledger blocks a task on it. */
  lemma FreeIffNoConflictingTasks(rs: set<Reservation>, span: Span)
    ensures FreeDuring(rs, span) <==> TasksOf(Conflicting(rs, span)) == {}
  {
    if !FreeDuring(rs, span) {
      var r :| r in rs && r.ConflictsWith(span);
      assert r.task in TasksOf(Conflicting(rs, span));
    }
  }

  lemma DisjointHasDistinctSpans(rs: set<Reservation>)
    requires PairwiseDisjoint(rs)
    ensures DistinctSpans(rs)
  {
    forall a, b | a in rs && b in rs && a.span == b.span
      ensures a == b
    {
      OverlapsReflexive(a.span);
    }
  }

  /* ---------- Sorted sequences: the TreeSet of getReservations(from) ---------- */

  predicate StrictlySorted(s: seq<Reservation>) {
    forall i, j :: 0 <= i < j < |s| ==> Before(s[i], s[j])
  }

  predicate HasSpan(s: seq<Reservation>, span: Span) {
    exists x :: x in s && x.span == span
  }

  lemma PrependSorted(x: Reservation, t: seq<Reservation>)
    requires StrictlySorted(t)
    requires forall y :: y in t ==> Before(x, y)
    ensures StrictlySorted([x] + t)
  {
    forall i, j | 0 <= i < j < |[x] + t|
      ensures Before(([x] + t)[i], ([x] + t)[j])
    {
      if i == 0 {
        assert ([x] + t)[j] == t[j - 1];
      }
    }
  }

  /** TreeSet.add under timespanComparator: an element whose span is already
      present is not added. */
  function Insert(s: seq<Reservation>, r: Reservation): seq<Reservation> {
    if s == [] then [r]
    else if Before(r, s[0]) then [r] + s
    else if r.span == s[0].span then s
    else [s[0]] + Insert(s[1..], r)
  }

  /** Everything in a sorted sequence comes after an element placed before its head. */
  lemma BeforeHead(s: seq<Reservation>, r: Reservation)
    requires StrictlySorted(s) && s != [] && Before(r, s[0])
    ensures forall y :: y in s ==> Before(r, y) && y.span != r.span
  {
    forall y | y in s ensures Before(r, y) && y.span != r.span {
      var k :| 0 <= k < |s| && s[k] == y;
      if k > 0 {
        assert Before(s[0], s[k]);
      }
    }
  }

  lemma {:induction false} InsertElems(s: seq<Reservation>, r: Reservation)
    requires StrictlySorted(s)
    ensures HasSpan(s, r.span) ==> Insert(s, r) == s
    ensures !HasSpan(s, r.span) ==> Elems(Insert(s, r)) == Elems(s) + {r}
    ensures Elems(Insert(s, r)) <= Elems(s) + {r}
  {
    if s == [] {
    } else if Before(r, s[0]) {
      BeforeHead(s, r);
    } else if r.span == s[0].span {
    } else {
      InsertElems(s[1..], r);
      assert Elems(s) == {s[0]} + Elems(s[1..]);
      assert HasSpan(s, r.span) <==> HasSpan(s[1..], r.span);
    }
  }

  lemma {:induction false} InsertSorted(s: seq<Reservation>, r: Reservation)
    requires StrictlySorted(s)
    ensures StrictlySorted(Insert(s, r))
    ensures HasSpan(s, r.span) ==> Insert(s, r) == s
    ensures !HasSpan(s, r.span) ==> Elems(Insert(s, r)) == Elems(s) + {r}
  {
    InsertElems(s, r);
    if s == [] {
    } else if Before(r, s[0]) {
      BeforeHead(s, r);
      PrependSorted(r, s);
    } else if r.span == s[0].span {
    } else {
      var rest := Insert(s[1..], r);
      InsertSorted(s[1..], r);
      InsertElems(s[1..], r);
      assert forall y :: y in rest ==> y in Elems(s[1..]) || y == r;
      PrependSorted(s[0], rest);
    }
  }

  lemma SortedExists(rs: set<Reservation>)
    requires DistinctSpans(rs)
    ensures exists s :: StrictlySorted(s) && Elems(s) == rs
    decreases rs
  {
    if rs == {} {
      assert StrictlySorted([]) && Elems([]) == rs;
    } else {
      var r :| r in rs;
      SortedExists(rs - {r});
      var s :| StrictlySorted(s) && Elems(s) == rs - {r};
      var t := Insert(s, r);
      InsertSorted(s, r);
      assert !HasSpan(s, r.span);
      assert Elems(t) == rs;
    }
  }

  lemma EmptyElems(s: seq<Reservation>)
    ensures Elems(s) == {} <==> s == []
  {
    if s != [] {
      assert s[0] in Elems(s);
    }
  }

  lemma TailElems(s: seq<Reservation>)
    requires StrictlySorted(s) && s != []
    ensures Elems(s[1..]) == Elems(s) - {s[0]}
  {
    forall x | x in s[1..] ensures x != s[0] {
      var k :| 1 <= k < |s| && s[k] == x;
      assert Before(s[0], s[k]);
    }
  }

  /** A strictly sorted enumeration of a set is unique. */
  lemma {:induction false} SortedUnique(s: seq<Reservation>, t: seq<Reservation>)
    requires StrictlySorted(s) && StrictlySorted(t) && Elems(s) == Elems(t)
    ensures s == t
    decreases |s|
  {
    EmptyElems(s);
    EmptyElems(t);
    if s != [] {
      assert s[0] in Elems(t) && t[0] in Elems(s);
      var i :| 0 <= i < |t| && t[i] == s[0];
      var j :| 0 <= j < |s| && s[j] == t[0];
      assert s[0] == t[0];
      TailElems(s);
      TailElems(t);
      SortedUnique(s[1..], t[1..]);
    }
  }

  /** The reservations of `rs` in start order (spans are distinct in a ledger). */
  ghost function Sorted(rs: set<Reservation>): (s: seq<Reservation>)
    requires DistinctSpans(rs)
    ensures StrictlySorted(s) && Elems(s) == rs
  {
    SortedExists(rs);
    var s :| StrictlySorted(s) && Elems(s) == rs; s
  }

  /* ---------- Free time between sorted reservations ---------- */

  /** Every earlier reservation ends at or before every later one starts. */
  predicate Chained(s: seq<Reservation>) {
    forall k, l :: 0 <= k < l < |s| ==> s[k].span.end <= s[l].span.start
  }

  /** Some consecutive pair among the first n touches: the earlier ends where
      the later starts. */
  predicate TouchingBelow(s: seq<Reservation>, n: int) {
    exists i :: 0 <= i < n - 1 && i + 1 < |s| && s[i].span.end == s[i + 1].span.start
  }

  predicate Touching(s: seq<Reservation>) {
    TouchingBelow(s, |s|)
  }

  lemma SortedDisjointIsChained(s: seq<Reservation>)
    requires StrictlySorted(s) && PairwiseDisjoint(Elems(s))
    ensures Chained(s)
  {
    forall k, l | 0 <= k < l < |s|
      ensures s[k].span.end <= s[l].span.start
    {
      assert Before(s[k], s[l]);
      assert s[k] != s[l];
      assert s[k] in Elems(s) && s[l] in Elems(s);
    }
  }

  /** The spans [end of s[i], start of s[i+1]) between consecutive
      reservations among the first n. */
  function GapsUpTo(s: seq<Reservation>, n: nat): seq<Timespan>
    requires n <= |s| && Chained(s) && !TouchingBelow(s, n)
  {
    if n < 2 then []
    else
      assert s[n - 2].span.end <= s[n - 1].span.start;
      GapsUpTo(s, n - 1) + [Span(s[n - 2].span.end, s[n - 1].span.start)]
  }

  function Gaps(s: seq<Reservation>): seq<Timespan>
    requires Chained(s) && !Touching(s)
  {
    GapsUpTo(s, |s|)
  }

  function Head(from: Time, s: seq<Reservation>): seq<Timespan>
    requires s != [] && from < s[0].span.end
  {
    if s[0].span.StartsAfter(from) then [Span(from, s[0].span.start)] else []
  }

  predicate AllRunning(s: seq<Reservation>, from: Time) {
    forall i :: 0 <= i < |s| ==> !s[i].ExpiredBefore(from)
  }

  /** nextAvailableTimespans over the running reservations in start order:
      an opening span up to the first reservation, the gaps between
      consecutive ones, and an infinite span after the last. A gap of zero
      length, or an infinite span starting at MAX, makes the Timespan
      constructor throw. */
  function FreeSpansOf(from: Time, s: seq<Reservation>): Result<seq<Timespan>>
    requires Chained(s) && AllRunning(s, from)
  {
    if s == [] then
      (if from < MAX_TIME then Ok([Span(from, MAX_TIME)]) else Err(IllegalArgument))
    else if Touching(s) || s[|s| - 1].span.end == MAX_TIME then Err(IllegalArgument)
    else Ok(Head(from, s) + Gaps(s) + [Span(s[|s| - 1].span.end, MAX_TIME)])
  }

  /** The free spans of a ledger from `from`. */
  ghost function FreeSpans(rs: set<Reservation>, from: Time): Result<seq<Timespan>>
    requires PairwiseDisjoint(rs)
  {
    DisjointHasDistinctSpans(Running(rs, from));
    var s := Sorted(Running(rs, from));
    SortedDisjointIsChained(s);
    FreeSpansOf(from, s)
  }

  predicate SpansSorted(v: seq<Timespan>) {
    forall i, j :: 0 <= i < j < |v| ==> v[i].CompareTo(v[j]) < 0
  }

  lemma {:induction false} GapsShape(s: seq<Reservation>, n: nat)
    requires n <= |s| && Chained(s) && !TouchingBelow(s, n)
    ensures |GapsUpTo(s, n)| == if n < 2 then 0 else n - 1
    ensures forall i :: 0 <= i < |GapsUpTo(s, n)| ==>
      GapsUpTo(s, n)[i] == Span(s[i].span.end, s[i + 1].span.start)
    decreases n
  {
    if n >= 2 {
      GapsShape(s, n - 1);
    }
  }

  /** One more consecutive pair that does not touch adds its gap. */
  lemma GapsStep(s: seq<Reservation>, i: nat)
    requires 1 <= i < |s| && Chained(s) && !TouchingBelow(s, i)
    requires s[i - 1].span.end < s[i].span.start
    ensures !TouchingBelow(s, i + 1)
    ensures GapsUpTo(s, i + 1) == GapsUpTo(s, i) + [Span(s[i - 1].span.end, s[i].span.start)]
  {
  }

  /** A consecutive pair that touches makes the whole sequence touch. */
  lemma TouchingAt(s: seq<Reservation>, i: nat)
    requires 1 <= i < |s| && s[i - 1].span.end == s[i].span.start
    ensures Touching(s)
  {
    assert 0 <= i - 1 < |s| - 1;
  }

  /** With nothing running at `from`, the single free span is [from, MAX). */
  lemma FreeSpansWhenNothingRuns(rs: set<Reservation>, from: Time)
    requires PairwiseDisjoint(rs) && Running(rs, from) == {} && from < MAX_TIME
    ensures FreeSpans(rs, from) == Ok([Span(from, MAX_TIME)])
  {
    DisjointHasDistinctSpans(Running(rs, from));
    var s := Sorted(Running(rs, from));
    EmptyElems(s);
  }

  /** Otherwise the last free span is infinite and starts where the last
      running reservation (in start order) ends. */
  lemma FreeSpansEndInfinite(from: Time, s: seq<Reservation>)
    requires Chained(s) && AllRunning(s, from) && s != []
    requires FreeSpansOf(from, s).Ok?
    ensures var v := FreeSpansOf(from, s).value;
      |v| > 0 && v[|v| - 1] == Span(s[|s| - 1].span.end, MAX_TIME)
  {
  }

  /** Every returned span is free: no running reservation overlaps it, and
      none of them starts before `from`. */
  lemma FreeSpansAreFree(from: Time, s: seq<Reservation>)
    requires Chained(s) && AllRunning(s, from)
    requires FreeSpansOf(from, s).Ok?
    ensures forall j, r :: 0 <= j < |FreeSpansOf(from, s).value| && r in s ==>
      !r.ConflictsWith(FreeSpansOf(from, s).value[j]) && from <= FreeSpansOf(from, s).value[j].start
  {
    var v := FreeSpansOf(from, s).value;
    if s != [] {
      GapsShape(s, |s|);
      var h := Head(from, s);
      var g := Gaps(s);
      assert v == h + g + [Span(s[|s| - 1].span.end, MAX_TIME)];
      forall j, r | 0 <= j < |v| && r in s
        ensures !r.ConflictsWith(v[j]) && from <= v[j].start
      {
        var k :| 0 <= k < |s| && s[k] == r;
        if j < |h| {
          assert v[j] == Span(from, s[0].span.start);
          if k > 0 { assert s[0].span.end <= s[k].span.start; }
        } else if j < |h| + |g| {
          var i := j - |h|;
          assert v[j] == Span(s[i].span.end, s[i + 1].span.start);
          if k < i { assert s[k].span.end <= s[i].span.start; }
          if k > i + 1 { assert s[i + 1].span.end <= s[k].span.start; }
          if i > 0 { assert s[0].span.end <= s[i].span.start; }
        } else {
          assert v[j] == Span(s[|s| - 1].span.end, MAX_TIME);
          if k < |s| - 1 { assert s[k].span.end <= s[|s| - 1].span.start; }
        }
      }
    }
  }

  /** Conversely, every minute from `from` on that no running reservation
      covers lies in one of the returned spans. */
  lemma FreeSpansCoverFree(from: Time, s: seq<Reservation>, t: Time)
    requires Chained(s) && AllRunning(s, from)
    requires FreeSpansOf(from, s).Ok?
    requires from <= t < MAX_TIME
    requires forall r :: r in s ==> !r.span.Covers(t)
    ensures exists j :: 0 <= j < |FreeSpansOf(from, s).value| && FreeSpansOf(from, s).value[j].Covers(t)
  {
    var v := FreeSpansOf(from, s).value;
    if s == [] {
      assert v[0].Covers(t);
    } else {
      var last := |s| - 1;
      GapsShape(s, |s|);
      var h := Head(from, s);
      var g := Gaps(s);
      assert v == h + g + [Span(s[last].span.end, MAX_TIME)];
      if s[last].span.end <= t {
        assert v[|v| - 1].Covers(t);
      } else if t < s[0].span.start {
        assert h == [Span(from, s[0].span.start)];
        assert v[0].Covers(t);
      } else {
        assert !s[last].span.Covers(t);
        var i := 0;
        while s[i + 1].span.start <= t
          invariant 0 <= i < last && s[i].span.start <= t
          decreases last - i
        {
          i := i + 1;
          assert !s[i].span.Covers(t);
        }
        assert !s[i].span.Covers(t);
        assert g[i] == Span(s[i].span.end, s[i + 1].span.start);
        assert v[|h| + i] == g[i];
        assert v[|h| + i].Covers(t);
      }
    }
  }

  /** The returned spans come out in increasing compareTo order, so listing
      them is the iteration order of the source's TreeSet. */
  lemma FreeSpansSorted(from: Time, s: seq<Reservation>)
    requires Chained(s) && AllRunning(s, from)
    requires FreeSpansOf(from, s).Ok?
    ensures SpansSorted(FreeSpansOf(from, s).value)
  {
    var v := FreeSpansOf(from, s).value;
    if s != [] {
      GapsShape(s, |s|);
      var h := Head(from, s);
      var g := Gaps(s);
      assert v == h + g + [Span(s[|s| - 1].span.end, MAX_TIME)];
      assert |g| == |s| - 1 && |h| <= 1;
      forall i, j | 0 <= i < j < |v| ensures v[i].CompareTo(v[j]) < 0 {
        var k := j - |h|;
        if k < |g| {
          assert 0 <= k;
          assert g[k] == Span(s[k].span.end, s[k + 1].span.start);
          assert v[j] == g[k];
        } else {
          assert k == |s| - 1;
          assert v[j] == Span(s[|s| - 1].span.end, MAX_TIME);
        }
        assert v[j].start == s[k].span.end;
        if i < |h| {
          assert v[i] == Span(from, s[0].span.start);
          assert from < s[0].span.start;
          assert s[0].span.start < s[k].span.end;
        } else {
          var m := i - |h|;
          assert g[m] == Span(s[m].span.end, s[m + 1].span.start);
          assert v[i] == g[m];
          assert s[m].span.end <= s[k].span.start < s[k].span.end;
        }
      }
    }
  }

  /** In a chained sequence only neighbours can touch. */
  lemma ChainedTouchIsAdjacent(s: seq<Reservation>)
    requires Chained(s)
    ensures forall i, j :: 0 <= i < |s| && 0 <= j < |s| && s[i].span.end == s[j].span.start ==> j == i + 1
  {
    forall i, j | 0 <= i < |s| && 0 <= j < |s| && s[i].span.end == s[j].span.start
      ensures j == i + 1
    {
      if i + 1 < |s| {
        assert s[i].span.end <= s[i + 1].span.start;
      }
    }
  }

  /** In a chained sequence the last element ends latest. */
  lemma ChainedLastEndsLatest(s: seq<Reservation>)
    requires Chained(s) && s != []
    ensures forall i :: 0 <= i < |s| ==> s[i].span.end <= s[|s| - 1].span.end
  {
    forall i | 0 <= i < |s| ensures s[i].span.end <= s[|s| - 1].span.end {
      if i < |s| - 1 {
        assert s[i].span.end <= s[|s| - 1].span.start;
      }
    }
  }

  lemma TouchingGivesPair(s: seq<Reservation>)
    requires Touching(s)
    ensures exists a, b :: a in s && b in s && a.span.end == b.span.start
  {
    var i :| 0 <= i < |s| - 1 && s[i].span.end == s[i + 1].span.start;
    assert s[i] in s && s[i + 1] in s;
  }

  lemma PairGivesTouching(s: seq<Reservation>, a: Reservation, b: Reservation)
    requires Chained(s) && a in s && b in s && a.span.end == b.span.start
    ensures Touching(s)
  {
    var i :| 0 <= i < |s| && s[i] == a;
    var j :| 0 <= j < |s| && s[j] == b;
    ChainedTouchIsAdjacent(s);
    assert j == i + 1;
  }

  lemma TouchingIffSomePairTouches(s: seq<Reservation>)
    requires Chained(s)
    ensures Touching(s) <==> exists a, b :: a in s && b in s && a.span.end == b.span.start
  {
    if Touching(s) {
      TouchingGivesPair(s);
    }
    if exists a, b :: a in s && b in s && a.span.end == b.span.start {
      var a, b :| a in s && b in s && a.span.end == b.span.start;
      PairGivesTouching(s, a, b);
    }
  }

  lemma InfiniteIffLastInfinite(s: seq<Reservation>)
    requires Chained(s)
    ensures (exists a :: a in s && a.span.IsInfinite()) <==> s != [] && s[|s| - 1].span.end == MAX_TIME
  {
    if exists a :: a in s && a.span.IsInfinite() {
      var a :| a in s && a.span.IsInfinite();
      var i :| 0 <= i < |s| && s[i] == a;
      ChainedLastEndsLatest(s);
    }
    if s != [] && s[|s| - 1].span.end == MAX_TIME {
      assert s[|s| - 1] in s;
    }
  }

  /** The failure cases, restated over the set of running reservations: two of
      them touch, one of them is infinite, or nothing runs and `from` is MAX. */
  lemma FreeSpansFailIff(from: Time, s: seq<Reservation>)
    requires StrictlySorted(s) && PairwiseDisjoint(Elems(s)) && AllRunning(s, from)
    ensures Chained(s)
    ensures FreeSpansOf(from, s).Err? <==>
      (s == [] && from == MAX_TIME)
      || (exists a, b :: a in s && b in s && a.span.end == b.span.start)
      || (exists a :: a in s && a.span.IsInfinite())
  {
    SortedDisjointIsChained(s);
    TouchingIffSomePairTouches(s);
    InfiniteIffLastInfinite(s);
  }

  /* ---------- Memento ---------- */

  datatype MementoData = MementoData(reservations: set<Reservation>, previousReservations: set<Reservation>)

  /** Mementos are only made from a resource, so they hold a ledger. */
  type Memento = m: MementoData | Ledger(m.reservations) witness MementoData({}, {})

  /** The part of a reservation of `task` consumed before `now`, for every
      reservation that has started but not ended by `now`. */
  function Consumed(rs: set<Reservation>, task: TaskId, now: Time): set<Reservation> {
    set r | r in rs && r.task == task && r.span.start < now <= r.span.end ::
      Reservation(task, Span(r.span.start, now))
  }

  function Started(rs: set<Reservation>, now: Time): set<Reservation> {
    set r | r in rs && r.span.start <= now
  }

  /* ---------- The resource ---------- */

  class Resource {
    const id: int
    const name: string
    var reservations: set<Reservation>
    var previousReservations: set<Reservation>

    ghost predicate Valid()
      reads this
    {
      Ledger(reservations)
    }

    static predicate CanHaveAsName(name: Option<string>) {
      name.Some? && |name.value| > 0
    }

    constructor Init(id: int, name: string)
      requires CanHaveAsName(Some(name))
      ensures Valid()
      ensures this.id == id && this.name == name
      ensures reservations == {} && previousReservations == {}
    {
      this.id := id;
      this.name := name;
      reservations := {};
      previousReservations := {};
    }

    /** Resource(name): a missing or empty name throws. */
    static method Create(id: int, name: Option<string>) returns (r: Result<Resource>)
      ensures r.Err? <==> !CanHaveAsName(name)
      ensures r.Err? ==> r.error == IllegalArgument
      ensures r.Ok? ==> fresh(r.value) && r.value.Valid() && r.value.id == id && r.value.name == name.value
      ensures r.Ok? ==> r.value.reservations == {} && r.value.previousReservations == {}
    {
      if !CanHaveAsName(name) {
        return Err(IllegalArgument);
      }
      var res := new Resource.Init(id, name.value);
      r := Ok(res);
    }

    /** True iff no live reservation conflicts with `span`; the archive is ignored. */
    method IsAvailable(span: Span) returns (b: bool)
      ensures b <==> FreeDuring(reservations, span)
    {
      var rest := reservations;
      while rest != {}
        invariant rest <= reservations
        invariant FreeDuring(reservations - rest, span)
        decreases rest
      {
        var r :| r in rest;
        if r.ConflictsWith(span) {
          return false;
        }
        rest := rest - {r};
      }
      return true;
    }

    method GetConflictingReservations(span: Span) returns (result: set<Reservation>)
      ensures result == Conflicting(reservations, span)
    {
      result := {};
      var rest := reservations;
      while rest != {}
        invariant rest <= reservations
        invariant result == Conflicting(reservations - rest, span)
        decreases rest
      {
        var r :| r in rest;
        if r.ConflictsWith(span) {
          result := result + {r};
        }
        rest := rest - {r};
      }
    }

    method FindConflictingTasks(span: Span) returns (result: set<TaskId>)
      ensures result == TasksOf(Conflicting(reservations, span))
    {
      var temp := GetConflictingReservations(span);
      result := {};
      var rest := temp;
      while rest != {}
        invariant rest <= temp
        invariant result == TasksOf(temp - rest)
        decreases rest
      {
        var r :| r in rest;
        result := result + {r.task};
        rest := rest - {r};
      }
    }

    /** The live reservation of `t`, or None (the source's null). */
    method GetReservation(t: TaskId) returns (r: Option<Reservation>)
      ensures r.Some? ==> r.value in reservations && r.value.task == t
      ensures r.None? <==> !HoldsFor(reservations, t)
    {
      var rest := reservations;
      while rest != {}
        invariant rest <= reservations
        invariant !HoldsFor(reservations - rest, t)
        decreases rest
      {
        var x :| x in rest;
        if x.task == t {
          return Some(x);
        }
        rest := rest - {x};
      }
      return None;
    }

    /** getReservations(from): the reservations not yet expired at `from`, in
        start order. */
    method GetReservationsFrom(from: Time) returns (s: seq<Reservation>)
      requires Valid()
      ensures StrictlySorted(s) && Elems(s) == Running(reservations, from)
    {
      DisjointHasDistinctSpans(reservations);
      s := [];
      var rest := reservations;
      while rest != {}
        invariant rest <= reservations
        invariant StrictlySorted(s)
        invariant Elems(s) == Running(reservations - rest, from)
        decreases rest
      {
        var r :| r in rest;
        if !r.ExpiredBefore(from) {
          InsertSorted(s, r);
          forall x | x in s ensures x.span != r.span {
            assert x in Elems(s);
          }
          s := Insert(s, r);
        }
        rest := rest - {r};
      }
    }

    /** The free spans from `from`, in TreeSet order; the last one is infinite. */
    method NextAvailableTimespans(from: Time) returns (r: Result<seq<Timespan>>)
      requires Valid()
      ensures r == FreeSpans(reservations, from)
    {
      var rs := GetReservationsFrom(from);
      DisjointHasDistinctSpans(Running(reservations, from));
      SortedUnique(rs, Sorted(Running(reservations, from)));
      SortedDisjointIsChained(rs);
      assert AllRunning(rs, from) by {
        forall i | 0 <= i < |rs| ensures !rs[i].ExpiredBefore(from) {
          assert rs[i] in Elems(rs);
        }
      }
      r := SpansAround(from, rs);
    }

    /** The loop of nextAvailableTimespans over the running reservations in
        start order. */
    static method SpansAround(from: Time, rs: seq<Reservation>) returns (r: Result<seq<Timespan>>)
      requires Chained(rs) && AllRunning(rs, from)
      ensures r == FreeSpansOf(from, rs)
    {
      if |rs| == 0 {
        var only := Infinite(Some(from));
        if only.Err? {
          return Err(only.error);
        }
        return Ok([only.value]);
      }
      var result := SpansBetween(from, rs);
      if result.Err? {
        return Err(result.error);
      }
      var last := Infinite(Some(rs[|rs| - 1].span.end));
      if last.Err? {
        return Err(last.error);
      }
      r := Ok(result.value + [last.value]);
    }

    /** The opening span and the gaps that the loop of nextAvailableTimespans
        collects before it adds the infinite span; a gap of zero length throws. */
    static method SpansBetween(from: Time, rs: seq<Reservation>) returns (r: Result<seq<Timespan>>)
      requires Chained(rs) && AllRunning(rs, from) && rs != []
      ensures Touching(rs) ==> r == Err(IllegalArgument)
      ensures !Touching(rs) ==> r == Ok(Head(from, rs) + Gaps(rs))
    {
      var result: seq<Timespan> := [];
      var r2 := rs[0];
      if r2.span.StartsAfter(from) {
        result := [Span(from, r2.span.start)];
      }
      var i := 1;
      while i < |rs|
        invariant 1 <= i <= |rs|
        invariant r2 == rs[i - 1]
        invariant !TouchingBelow(rs, i)
        invariant result == Head(from, rs) + GapsUpTo(rs, i)
      {
        var r1 := r2;
        r2 := rs[i];
        assert r1.span.end <= r2.span.start;
        if !r1.ConflictsWith(r2.span) {
          var gap := New(Some(r1.span.end), Some(r2.span.start));
          if gap.Err? {
            TouchingAt(rs, i);
            return Err(gap.error);
          }
          GapsStep(rs, i);
          result := result + [gap.value];
        }
        i := i + 1;
      }
      r := Ok(result);
    }

    /** Reserve this resource for `task` over `span`. */
    method MakeReservation(task: TaskId, span: Timespan) returns (r: Result<Reservation>)
      requires Valid()
      modifies this
      ensures Valid()
      ensures previousReservations == old(previousReservations)
      ensures old(HoldsFor(reservations, task)) ==>
        r == Err(IllegalArgument) && reservations == old(reservations)
      ensures !old(HoldsFor(reservations, task)) && !old(FreeDuring(reservations, span)) ==>
        r == Err(Conflict(task, TasksOf(Conflicting(old(reservations), span))))
        && reservations == old(reservations)
      ensures !old(HoldsFor(reservations, task)) && old(FreeDuring(reservations, span)) ==>
        r == Ok(Reservation(task, span))
        && reservations == old(reservations) + {Reservation(task, span)}
    {
      var existing := GetReservation(task);
      if existing.Some? {
        return Err(IllegalArgument);
      }
      var available := IsAvailable(span);
      if !available {
        var confl := FindConflictingTasks(span);
        return Err(Conflict(task, confl));
      }
      var res := Reservation(task, span);
      reservations := reservations + {res};
      r := Ok(res);
    }

    /** As written: the loop removes from the copy returned by getReservations(),
        so the live set keeps the task's reservations; only the archive grows,
        by the consumed part of a reservation running at `currentTime`. A
        reservation that starts exactly at `currentTime` makes the Timespan
        constructor throw. */
    method ClearFutureReservations(currentTime: Time, task: TaskId) returns (o: Outcome)
      requires Valid()
      modifies this
      ensures Valid()
      ensures reservations == old(reservations)
      ensures o.Fail? <==> exists r :: r in old(reservations) && r.task == task && r.span.start == currentTime
      ensures o.Fail? ==> o.error == IllegalArgument && previousReservations == old(previousReservations)
      ensures o.Pass? ==>
        previousReservations == old(previousReservations) + Consumed(old(reservations), task, currentTime)
    {
      var rest := reservations;
      while rest != {}
        invariant rest <= reservations
        invariant reservations == old(reservations)
        invariant forall r :: r in reservations - rest && r.task == task ==> r.span.start != currentTime
        invariant previousReservations == old(previousReservations) + Consumed(reservations - rest, task, currentTime)
        decreases rest
      {
        var reservation :| reservation in rest;
        if reservation.task == task {
          if reservation.span.StartsAfter(currentTime) {
            // iterator.remove() on the copy: no effect on this resource
          } else if reservation.span.OverlapsWithTime(currentTime) {
            var truncated := New(Some(reservation.span.start), Some(currentTime));
            if truncated.Err? {
              // The task holds only this reservation, so nothing was archived yet.
              assert Consumed(reservations - rest, task, currentTime) == {};
              return Fail(truncated.error);
            }
            ArchiveReservation(Reservation(reservation.task, truncated.value));
          }
        }
        rest := rest - {reservation};
      }
      o := Pass;
    }

    /** Corrected clearFutureReservations: the task's reservations that have not
        ended by `currentTime` leave the live set, and the consumed part of one
        that has started is archived. */
    method ClearFutureReservationsCorrected(currentTime: Time, task: TaskId)
      requires Valid()
      modifies this
      ensures Valid()
      ensures reservations == old(reservations) - (set r | r in old(reservations) && r.task == task && currentTime <= r.span.end)
      ensures previousReservations == old(previousReservations) + Consumed(old(reservations), task, currentTime)
    {
      var rest := reservations;
      ghost var removed: set<Reservation> := {};
      while rest != {}
        invariant rest <= old(reservations)
        invariant removed == set r | r in old(reservations) - rest && r.task == task && currentTime <= r.span.end
        invariant reservations == old(reservations) - removed
        invariant previousReservations == old(previousReservations) + Consumed(old(reservations) - rest, task, currentTime)
        decreases rest
      {
        var reservation :| reservation in rest;
        if reservation.task == task {
          if reservation.span.start >= currentTime {
            reservations := reservations - {reservation};
            removed := removed + {reservation};
          } else if reservation.span.OverlapsWithTime(currentTime) {
            reservations := reservations - {reservation};
            removed := removed + {reservation};
            ArchiveReservation(Reservation(reservation.task, Span(reservation.span.start, currentTime)));
          }
        }
        rest := rest - {reservation};
      }
    }

    method ArchiveReservation(r: Reservation)
      modifies this
      ensures reservations == old(reservations)
      ensures previousReservations == old(previousReservations) + {r}
    {
      previousReservations := previousReservations + {r};
    }

    /** As written: every reservation that has started by `currentTime`
        (compareTo(currentTime) <= 0) is archived, but the removal again hits
        a copy, so it also stays live. */
    method Update(currentTime: Time)
      modifies this
      ensures reservations == old(reservations)
      ensures previousReservations == old(previousReservations) + Started(old(reservations), currentTime)
    {
      var rest := reservations;
      while rest != {}
        invariant rest <= reservations
        invariant reservations == old(reservations)
        invariant previousReservations == old(previousReservations) + Started(reservations - rest, currentTime)
        decreases rest
      {
        var reservation :| reservation in rest;
        if reservation.span.CompareToTime(currentTime) <= 0 {
          ArchiveReservation(reservation);
        }
        rest := rest - {reservation};
      }
    }

    /** Corrected update: the started reservations move from the live set to the archive. */
    method UpdateCorrected(currentTime: Time)
      requires Valid()
      modifies this
      ensures Valid()
      ensures reservations == old(reservations) - Started(old(reservations), currentTime)
      ensures previousReservations == old(previousReservations) + Started(old(reservations), currentTime)
    {
      var rest := reservations;
      while rest != {}
        invariant rest <= old(reservations)
        invariant reservations == old(reservations) - Started(old(reservations) - rest, currentTime)
        invariant previousReservations == old(previousReservations) + Started(old(reservations) - rest, currentTime)
        decreases rest
      {
        var reservation :| reservation in rest;
        if reservation.span.CompareToTime(currentTime) <= 0 {
          reservations := reservations - {reservation};
          ArchiveReservation(reservation);
        }
        rest := rest - {reservation};
      }
    }

    /** As written: reports whether the reservation is live, and removes it
        only from a copy. */
    method RemoveReservation(reservation: Reservation) returns (b: bool)
      ensures b <==> reservation in reservations
    {
      var copy := reservations;
      b := reservation in copy;
    }

    /** Corrected removeReservation: the reservation leaves the live set. */
    method RemoveReservationCorrected(reservation: Reservation) returns (b: bool)
      requires Valid()
      modifies this
      ensures Valid()
      ensures b <==> reservation in old(reservations)
      ensures reservations == old(reservations) - {reservation}
      ensures previousReservations == old(previousReservations)
    {
      b := reservation in reservations;
      reservations := reservations - {reservation};
    }

    /** A snapshot of both sets. It is a value, so later changes to the
        resource do not reach it. */
    function CreateMemento(): (m: Memento)
      reads this
      requires Valid()
      ensures m.reservations == reservations && m.previousReservations == previousReservations
    {
      MementoData(reservations, previousReservations)
    }

    /** Restore both sets; setMemento(createMemento()) changes nothing. */
    method SetMemento(m: Memento)
      modifies this
      ensures Valid()
      ensures reservations == m.reservations && previousReservations == m.previousReservations
    {
      reservations := m.reservations;
      previousReservations := m.previousReservations;
    }
  }

  /* ---------- Witnesses of the source's behaviour ---------- */

  /** Clearing a task's future reservation leaves the resource blocked: the
      reservation [10, 20) of task 1 still conflicts after clearing at 5. */
  method ClearedReservationStillBlocks() returns (stillBlocked: bool)
    ensures stillBlocked
  {
    var res := new Resource.Init(0, "room");
    var span: Timespan := Span(10, 20);
    var made := res.MakeReservation(1, span);
    var cleared := res.ClearFutureReservations(5, 1);
    var free := res.IsAvailable(span);
    stillBlocked := !free;
  }

  /** Clearing at the very instant a reservation starts throws
      IllegalArgumentException instead of dropping it. */
  method ClearAtStartThrows() returns (o: Outcome)
    ensures o == Fail(IllegalArgument)
  {
    var res := new Resource.Init(0, "room");
    var made := res.MakeReservation(1, Span(10, 20));
    o := res.ClearFutureReservations(10, 1);
  }

  /** The corrected clear frees the span in both cases. */
  method CorrectedClearFrees() returns (free: bool)
    ensures free
  {
    var res := new Resource.Init(0, "room");
    var made := res.MakeReservation(1, Span(10, 20));
    res.ClearFutureReservationsCorrected(10, 1);
    free := res.IsAvailable(Span(10, 20));
  }
}
