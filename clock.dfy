/** The system clock of src/domain/Clock.java: one time field that only
    moves forward. */
module Clocks {
  import opened Outcomes
  import opened Timespans

  /** Clock.INCEPTION, 2000-01-01T00:00, in minutes since 1970-01-01. */
  const INCEPTION: Time := 15778080

  /** The time after advanceTime(t) from `time`: t when t is not before it,
      otherwise unchanged (the call throws). */
  function Advanced(time: Time, t: Time): (r: Time)
    ensures r >= time && (r == time || r == t)
    ensures t >= time ==> r == t
  {
    if t < time then time else t
  }

  /** The time after a series of advanceTime calls, refused ones included. */
  function Replay(time: Time, ts: seq<Time>): Time
    decreases |ts|
  {
    if ts == [] then time else Replay(Advanced(time, ts[0]), ts[1..])
  }

  /** Whatever the series of calls, the clock ends at the latest of its
      starting time and every requested time: it never moves back. */
  lemma {:induction false} ReplayIsLatest(time: Time, ts: seq<Time>)
    ensures Replay(time, ts) >= time
    ensures forall i :: 0 <= i < |ts| ==> Replay(time, ts) >= ts[i]
    ensures Replay(time, ts) == time || exists i :: 0 <= i < |ts| && Replay(time, ts) == ts[i]
    decreases |ts|
  {
    if ts != [] {
      var next := Advanced(time, ts[0]);
      ReplayIsLatest(next, ts[1..]);
      assert forall i :: 1 <= i < |ts| ==> ts[i] == ts[1..][i - 1];
      if Replay(next, ts[1..]) != next {
        var j :| 0 <= j < |ts[1..]| && Replay(next, ts[1..]) == ts[1..][j];
        assert Replay(time, ts) == ts[j + 1];
      }
    }
  }

  class Clock {
    var time: Time

    constructor Init(time: Time)
      ensures this.time == time
    {
      this.time := time;
    }

    /** Clock(): starts at INCEPTION. */
    constructor Default()
      ensures time == INCEPTION
    {
      time := INCEPTION;
    }

    /** Clock(Clock c): starts at the copied clock's time. */
    constructor Copy(c: Clock)
      ensures time == c.time
    {
      time := c.time;
    }

    function GetTime(): Time
      reads this
    {
      time
    }

    /** Clock.advanceTime: a time strictly before the current one raises
        IllegalArgument and leaves the clock alone. */
    method AdvanceTime(t: Time) returns (o: Outcome)
      modifies this
      ensures o.Fail? <==> t < old(time)
      ensures o.Fail? ==> o.error == IllegalArgument
      ensures time == Advanced(old(time), t)
    {
      if t < time {
        return Fail(IllegalArgument);
      }
      time := t;
      o := Pass;
    }

    /** Clock.isAfter: the clock's time lies strictly after `t`. */
    function IsAfter(t: Time): (r: bool)
      reads this
      ensures r <==> t < time
      ensures r ==> !IsBefore(t)
    {
      time > t
    }

    /** Clock.isBefore: the clock's time lies strictly before `t`. */
    function IsBefore(t: Time): (r: bool)
      reads this
      ensures r <==> time < t
    {
      time < t
    }

    /** Clock.equals: clocks with the same time are equal. */
    function Equals(other: Clock): (r: bool)
      reads this, other
      ensures r <==> (!IsAfter(other.time) && !IsBefore(other.time))
    {
      time == other.time
    }
  }
}
