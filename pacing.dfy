/** Frame pacing of the main loop: after every update the next deadline moves on by a fixed
    interval and the loop sleeps for whatever is left until it. The millisecond clock is a
    parameter. */
module Pacing {

  /** Milliseconds between two game ticks. */
  const TickInterval := 16

  const Modulus32 := 0x1_0000_0000

  /** An unsigned 32-bit millisecond count, as SDL keeps them. */
  type Uint32 = x: int | 0 <= x < Modulus32

  /** time_left: the milliseconds until the deadline, or 0 once it has passed or is now. */
  function TimeLeft(nextTick: Uint32, now: Uint32): (r: Uint32)
    ensures r > 0 <==> nextTick > now
    ensures nextTick > now ==> now + r == nextTick
    ensures r <= nextTick
  {
    if nextTick > now then nextTick - now else 0
  }

  /** Where the deadline stands after n frames, each adding one interval with the unsigned
      wrap-around; until it wraps, that is exactly n intervals. */
  function DeadlineAfter(n: nat): (d: Uint32)
    ensures TickInterval * n < Modulus32 ==> d == TickInterval * n
  {
    if n == 0 then 0 else (DeadlineAfter(n - 1) + TickInterval) % Modulus32
  }

  /** The deadline of the next tick, kept across loop iterations. */
  class FrameClock {
    var nextGameTick: Uint32

    /** The deadline starts at 0, before the first frame. */
    constructor ()
      ensures nextGameTick == 0 == DeadlineAfter(0)
    {
      nextGameTick := 0;
    }

    /** The end of one loop iteration: the deadline moves on by one interval, with the
        unsigned wrap-around, and the loop is to sleep for the time left at `now`. */
    method EndFrame(now: Uint32) returns (sleepTime: Uint32)
      modifies this
      ensures nextGameTick == (old(nextGameTick) + TickInterval) % Modulus32
      ensures sleepTime == TimeLeft(nextGameTick, now)
      ensures sleepTime > 0 ==> now + sleepTime == nextGameTick
      ensures forall n: nat :: old(nextGameTick) == DeadlineAfter(n) ==> nextGameTick == DeadlineAfter(n + 1)
    {
      nextGameTick := (nextGameTick + TickInterval) % Modulus32;
      sleepTime := TimeLeft(nextGameTick, now);
    }
  }

  // ---------------------------------------------------------------- many frames

  /** The work of the first n frames, in milliseconds. */
  function TotalWork(work: seq<nat>, n: nat): nat
    requires n <= |work|
  {
    if n == 0 then 0 else TotalWork(work, n - 1) + work[n - 1]
  }

  /** When frame n starts, the loop having started at t0 with a deadline of 0, frame k taking
      work[k] milliseconds of polling, updating and drawing, and every frame ending with the
      sleep of EndFrame. Times are taken before the clock wraps. */
  function FrameStart(t0: nat, work: seq<nat>, n: nat): (r: nat)
    requires n <= |work|
    ensures r >= t0
    decreases n
  {
    if n == 0 then t0
    else
      var now := FrameStart(t0, work, n - 1) + work[n - 1];
      if TickInterval * n > now then TickInterval * n else now
  }

  /** The sleep makes frame n start no earlier than its deadline, 16 n milliseconds, and no
      frame starts before all the work before it is done. */
  lemma {:induction false} FramesNeverEarly(t0: nat, work: seq<nat>, n: nat)
    requires n <= |work|
    ensures FrameStart(t0, work, n) >= TickInterval * n
    ensures FrameStart(t0, work, n) >= t0 + TotalWork(work, n)
    decreases n
  {
    if n > 0 {
      FramesNeverEarly(t0, work, n - 1);
    }
  }

  /** When no frame takes longer than the interval, the loop falls no further behind than
      where it started: frame n starts at most 16 n milliseconds after t0. */
  lemma {:induction false} FramesKeepPace(t0: nat, work: seq<nat>, n: nat)
    requires n <= |work|
    requires forall k :: 0 <= k < |work| ==> work[k] <= TickInterval
    ensures FrameStart(t0, work, n) <= t0 + TickInterval * n
    decreases n
  {
    if n > 0 {
      FramesKeepPace(t0, work, n - 1);
    }
  }

  /** Starting at time 0 with frames no longer than the interval, frame n starts exactly on its
      deadline. */
  lemma FixedRate(work: seq<nat>, n: nat)
    requires n <= |work|
    requires forall k :: 0 <= k < |work| ==> work[k] <= TickInterval
    ensures FrameStart(0, work, n) == TickInterval * n
  {
    FramesNeverEarly(0, work, n);
    FramesKeepPace(0, work, n);
  }

  /** One step of the schedule agrees with the clock: frame n starts at the time frame n - 1
      ended plus the sleep `time_left` gives there against the clock's deadline after n frames. */
  lemma ScheduleMatchesClock(t0: nat, work: seq<nat>, n: nat)
    requires 0 < n <= |work|
    requires FrameStart(t0, work, n - 1) + work[n - 1] < Modulus32 && TickInterval * n < Modulus32
    ensures var now := FrameStart(t0, work, n - 1) + work[n - 1];
      FrameStart(t0, work, n) == now + TimeLeft(DeadlineAfter(n), now)
  {
  }
}
