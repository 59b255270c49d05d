/** The poll countdown: one-second ticks, the expiry callback and the colour thresholds. */
module Timer {

  /** The interval callback's update of the seconds: one second less, never below zero. */
  function TickValue(prev: int): (r: int)
    ensures r >= 0
    ensures r == 0 <==> prev <= 1
    ensures r > 0 ==> r == prev - 1
  {
    if prev <= 1 then 0 else prev - 1
  }

  /** The seconds after `n` ticks from `start`: at least one tick leaves a count that is
      not negative and, from a positive start, lower than the start. */
  function AfterTicks(start: int, n: nat): (r: int)
    ensures n == 0 ==> r == start
    ensures n > 0 ==> 0 <= r && (start > 0 ==> r < start)
  {
    if n == 0 then start else TickValue(AfterTicks(start, n - 1))
  }

  /** Each tick takes one second off until zero, where the count stays: after `n >= 1`
      ticks the display reads `max(0, start - n)`, never a negative number. */
  lemma {:induction false} AfterTicksClosedForm(start: int, n: nat)
    ensures n > 0 ==> AfterTicks(start, n) == if start - n <= 0 then 0 else start - n
    ensures AfterTicks(start, n) >= 0 || (n == 0 && start < 0)
  {
    if n > 0 {
      AfterTicksClosedForm(start, n - 1);
    }
  }

  datatype Tone = Normal | Warning | Critical

  /** The colour classes: red at 30 seconds or less, yellow at 60 or less, blue otherwise;
      the critical test is made first. */
  function ToneOf(seconds: int): (t: Tone)
    ensures t == Critical <==> seconds <= 30
    ensures t == Warning <==> 30 < seconds <= 60
    ensures t == Normal <==> seconds > 60
  {
    var isWarning := seconds <= 60;
    var isCritical := seconds <= 30;
    if isCritical then Critical else if isWarning then Warning else Normal
  }

  /** The component's state: the prop, the displayed seconds, whether an interval is
      scheduled, and how many times `onExpire` has been called. */
  class TimerState {
    var initialSeconds: int
    var seconds: int
    var ticking: bool
    var expireCalls: nat

    /** An interval is scheduled exactly while the seconds are positive. */
    ghost predicate Valid()
      reads this
    {
      ticking <==> seconds > 0
    }

    /** The effect keyed on `seconds`: at zero or below it calls `onExpire` and schedules
        nothing; otherwise it replaces the interval with a fresh one. */
    method SecondsEffect()
      modifies this
      ensures Valid()
      ensures seconds == old(seconds) && initialSeconds == old(initialSeconds)
      ensures expireCalls == old(expireCalls) + (if seconds <= 0 then 1 else 0)
    {
      if seconds <= 0 {
        expireCalls := expireCalls + 1;
        ticking := false;
      } else {
        ticking := true;
      }
    }

    /** Mounting with the prop `initial`. */
    constructor (initial: int)
      ensures Valid()
      ensures initialSeconds == initial && seconds == initial
      ensures expireCalls == (if initial <= 0 then 1 else 0)
    {
      initialSeconds, seconds, ticking, expireCalls := initial, initial, false, 0;
      new;
      SecondsEffect();
    }

    /** A new `remainingSeconds` prop. A changed prop resets the seconds to it; the
        seconds effect runs again only when that changes the seconds. */
    method PropChange(initial: int)
      requires Valid()
      modifies this
      ensures Valid()
      ensures initialSeconds == initial
      ensures seconds == if initial != old(initialSeconds) then initial else old(seconds)
      ensures expireCalls == old(expireCalls) + (if initial != old(initialSeconds) && initial != old(seconds) && initial <= 0 then 1 else 0)
    {
      if initial != initialSeconds {
        initialSeconds := initial;
        if initial != seconds {
          seconds := initial;
          SecondsEffect();
        }
      }
    }

    /** One interval callback. Above one second it counts down by one; at one it clears
        the interval, calls `onExpire` and sets zero, and the seconds effect, which reruns
        on the new value, calls `onExpire` a second time. */
    method Tick()
      requires Valid() && ticking
      modifies this
      ensures Valid()
      ensures seconds == TickValue(old(seconds)) && seconds >= 0
      ensures initialSeconds == old(initialSeconds)
      ensures old(seconds) > 1 ==> seconds == old(seconds) - 1 && ticking && expireCalls == old(expireCalls)
      ensures old(seconds) <= 1 ==> seconds == 0 && !ticking && expireCalls == old(expireCalls) + 2
    {
      var prev := seconds;
      if prev <= 1 {
        ticking := false;
        expireCalls := expireCalls + 1;
        seconds := 0;
      } else {
        seconds := prev - 1;
      }
      if seconds != prev {
        SecondsEffect();
      }
    }
  }
}
