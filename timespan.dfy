/** The interval algebra of src/domain/time/Timespan.java.

    Times are whole minutes since 1970-01-01T00:00, bounded by
    LocalDateTime.MIN and LocalDateTime.MAX truncated to the minute. A
    Timespan is an immutable interval whose start lies strictly before its
    end; an "infinite" span ends at MAX_TIME. */
module Timespans {
  import opened Outcomes

  /** LocalDateTime.MIN (-999999999-01-01T00:00) in minutes. */
  const MIN_TIME: int := -525950235593280
  /** LocalDateTime.MAX (+999999999-12-31T23:59) in minutes. */
  const MAX_TIME: int := 525948163879679

  type Time = t: int | MIN_TIME <= t <= MAX_TIME

  /** A count of working minutes (the source's Duration). */
  type Duration = nat

  /** The business-calendar length of [start, end): Duration.java is not part
      of this model, so every statement that uses it holds for any calendar. */
  type WorkTime = (Time, Time) -> Duration

  /** Sign of a comparison, as LocalDateTime.compareTo reports it. */
  function Compare(a: int, b: int): (r: int)
    ensures r == 0 <==> a == b
    ensures r < 0 <==> a < b
    ensures r > 0 <==> a > b
  {
    if a < b then -1 else if a == b then 0 else 1
  }

  datatype Span = Span(start: Time, end: Time) {

    /** Half-open overlap: the spans share at least one minute. */
    predicate OverlapsWith(other: Span) {
      other.start < end && start < other.end
    }

    /** Inclusive containment of an instant, both ends included. */
    predicate OverlapsWithTime(t: Time) {
      start <= t <= end
    }

    /** The instants of the half-open interval [start, end). */
    predicate Covers(t: int) {
      start <= t < end
    }

    predicate EndsBefore(other: Span) {
      end <= other.start
    }

    predicate EndsAfter(t: Time) {
      end > t
    }

    predicate StartsAfter(t: Time) {
      start > t
    }

    predicate StartsBefore(t: Time) {
      start < t
    }

    predicate IsInfinite() {
      end == MAX_TIME
    }

    /** 0 when the instant lies in the span (both ends included), -1 when it
        lies past the end, 1 when it lies before the start. */
    function CompareToTime(t: Time): (r: int)
      requires start < end
      ensures r == 0 <==> OverlapsWithTime(t)
      ensures r == -1 <==> end < t
      ensures r == 1 <==> t < start
    {
      if OverlapsWithTime(t) then 0
      else if StartsBefore(t) then -1
      else 1
    }

    /** Order by start, then by end. */
    function CompareTo(other: Span): (r: int)
      ensures r == 0 <==> this == other
      ensures r < 0 <==> start < other.start || (start == other.start && end < other.end)
    {
      var res := Compare(start, other.start);
      if res == 0 then Compare(end, other.end) else res
    }

    function GetDuration(work: WorkTime): Duration {
      work(start, end)
    }

    /** How far the span's working length exceeds `duration`, never negative. */
    function GetExcess(work: WorkTime, duration: Duration): (r: Duration)
      ensures r + duration >= GetDuration(work)
      ensures r > 0 ==> r + duration == GetDuration(work)
      ensures r == 0 <==> GetDuration(work) <= duration
    {
      if GetDuration(work) < duration then 0 else GetDuration(work) - duration
    }
  }

  /** The source's invariant: start strictly before end. */
  type Timespan = s: Span | s.start < s.end witness Span(0, 1)

  /** Timespan(start, end): a missing time or a start not strictly before the
      end throws IllegalArgumentException. */
  function New(start: Option<Time>, end: Option<Time>): (r: Result<Timespan>)
    ensures r.Ok? <==> start.Some? && end.Some? && start.value < end.value
    ensures r.Ok? ==> r.value.start == start.value && r.value.end == end.value
    ensures r.Err? ==> r.error == IllegalArgument
  {
    if start.None? || end.None? then Err(IllegalArgument)
    else if !(start.value < end.value) then Err(IllegalArgument)
    else Ok(Span(start.value, end.value))
  }

  /** Timespan(start): the infinite span from `start`. */
  function Infinite(start: Option<Time>): (r: Result<Timespan>)
    ensures r.Ok? <==> start.Some? && start.value < MAX_TIME
    ensures r.Ok? ==> r.value.start == start.value && r.value.IsInfinite()
  {
    New(start, Some(MAX_TIME))
  }

  /** Timespan(start, duration): ends `duration` wall-clock minutes after
      `start`; plusMinutes past LocalDateTime.MAX throws. */
  function OfDuration(start: Time, duration: Duration): (r: Result<Timespan>)
    ensures r.Ok? <==> 0 < duration && start + duration <= MAX_TIME
    ensures r.Ok? ==> r.value.start == start && r.value.end == start + duration
    ensures r == Err(DateTimeOutOfRange) <==> start + duration > MAX_TIME
  {
    if start + duration > MAX_TIME then Err(DateTimeOutOfRange)
    else New(Some(start), Some(start + duration))
  }

  lemma OverlapsSymmetric(a: Timespan, b: Timespan)
    ensures a.OverlapsWith(b) <==> b.OverlapsWith(a)
  {
  }

  lemma OverlapsReflexive(a: Timespan)
    ensures a.OverlapsWith(a)
  {
  }

  /** Spans that only touch do not overlap, and the first ends before the second. */
  lemma TouchingDoNotOverlap(a: Timespan, b: Timespan)
    requires a.end == b.start
    ensures !a.OverlapsWith(b) && !b.OverlapsWith(a)
    ensures a.EndsBefore(b) && !b.EndsBefore(a)
  {
  }

  /** overlapsWith agrees with the set reading of half-open intervals: two
      spans overlap exactly when some minute lies in both. */
  lemma OverlapsIffSharedMinute(a: Timespan, b: Timespan)
    ensures a.OverlapsWith(b) <==> exists t: int :: a.Covers(t) && b.Covers(t)
  {
    if a.OverlapsWith(b) {
      var t := if a.start < b.start then b.start else a.start;
      assert a.Covers(t) && b.Covers(t);
    }
  }

  /** endsBefore is strictly stronger than "does not overlap" and never holds
      of a span against itself. */
  lemma EndsBeforeExcludesOverlap(a: Timespan, b: Timespan)
    ensures a.EndsBefore(b) ==> !a.OverlapsWith(b)
    ensures !a.EndsBefore(a)
  {
  }

  /** compareTo is a strict total order on spans. */
  lemma CompareToIsTotalOrder(a: Timespan, b: Timespan, c: Timespan)
    ensures a.CompareTo(b) < 0 <==> b.CompareTo(a) > 0
    ensures a.CompareTo(b) < 0 && b.CompareTo(c) < 0 ==> a.CompareTo(c) < 0
    ensures a.CompareTo(b) == 0 || a.CompareTo(b) < 0 || b.CompareTo(a) < 0
  {
  }
}
