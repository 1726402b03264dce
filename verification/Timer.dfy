/** The tick-driven timer the ARQ protocol uses for retransmission and for delayed acknowledgement. */
module Timers {

  datatype TimerState = TimerState(enabled: bool, value: int, timeout: bool, max: int) {

    /** A live timer is counting down or has expired and not been handled. */
    predicate Live() {
      enabled || timeout
    }

    /** What every operation keeps: a running timer never has more to count than its limit. */
    predicate Bounded() {
      enabled ==> value <= max
    }

    function WithLimit(t: int): TimerState {
      this.(value := if value > t then t else value, max := t)
    }

    function Started(): TimerState {
      this.(value := max, enabled := true)
    }

    function Continued(): TimerState {
      if enabled then this else Started()
    }

    function Stopped(): TimerState {
      this.(timeout := false, enabled := false)
    }

    function Acked(): TimerState {
      this.(timeout := false)
    }

    function Ticked(): TimerState {
      if !enabled then this
      else if value == 0 then Stopped().(timeout := true)
      else this.(value := value - 1)
    }
  }

  function AfterTicks(t: TimerState, k: nat): TimerState
    decreases k
  {
    if k == 0 then t else AfterTicks(t.Ticked(), k - 1)
  }

  /** The state after any number of ticks, without recursion. A negative count never expires. */
  lemma {:induction false} TicksClosedForm(t: TimerState, k: nat)
    ensures AfterTicks(t, k) ==
            if !t.enabled then t
            else if 0 <= t.value < k then t.(enabled := false, timeout := true, value := 0)
            else t.(value := t.value - k)
    decreases k
  {
    if k > 0 {
      TicksClosedForm(t.Ticked(), k - 1);
    }
  }

  /** A freshly started timer is expired after k ticks exactly when k exceeds its limit. */
  lemma ExpiresExactly(t: TimerState, k: nat)
    requires t.max >= 0
    ensures AfterTicks(t.Stopped().Started(), k).timeout <==> k >= t.max + 1
    ensures AfterTicks(t.Stopped().Started(), k).Live()
  {
    TicksClosedForm(t.Stopped().Started(), k);
  }

  /** A timer with a negative limit runs for ever without expiring. */
  lemma NegativeLimitNeverExpires(t: TimerState, k: nat)
    requires t.max < 0
    ensures !AfterTicks(t.Stopped().Started(), k).timeout
  {
    TicksClosedForm(t.Stopped().Started(), k);
  }

  /** Starting a timer, running or not, makes it expire after exactly its limit and one tick. */
  lemma StartedExpires(t: TimerState, k: nat)
    requires t.max >= 0 && !t.timeout
    ensures AfterTicks(t.Started(), k).timeout <==> k >= t.max + 1
  {
    TicksClosedForm(t.Started(), k);
  }

  /** A timeout not handled yet is held through a new start. */
  lemma StartHoldsTimeout(t: TimerState, k: nat)
    requires t.timeout
    ensures AfterTicks(t.Started(), k).timeout
  {
    TicksClosedForm(t.Started(), k);
  }

  /** Continuing a running timer does not disturb its count; continuing a stopped one starts it. */
  lemma ContinuedKeepsCount(t: TimerState, k: nat)
    ensures AfterTicks(t.Continued(), k) == AfterTicks(if t.enabled then t else t.Started(), k)
  {
    TicksClosedForm(t.Continued(), k);
  }

  /** A new limit cuts a running count down to it, never extends it, and is what the next start counts from. */
  lemma LimitCuts(t: TimerState, l: nat, k: nat)
    requires !t.timeout
    ensures t.enabled && t.value >= 0 ==>
              (AfterTicks(t.WithLimit(l), k).timeout <==> k > if t.value < l then t.value else l)
    ensures AfterTicks(t.WithLimit(l).Started(), k).timeout <==> k >= l + 1
  {
    TicksClosedForm(t.WithLimit(l), k);
    TicksClosedForm(t.WithLimit(l).Started(), k);
  }

  /** A stopped timer shows no timeout until it is started again. */
  lemma StoppedNeverExpires(t: TimerState, k: nat)
    ensures !AfterTicks(t.Stopped(), k).Live()
  {
    TicksClosedForm(t.Stopped(), k);
  }

  /** Acknowledging a timeout leaves a count that has been started since. */
  lemma AckedKeepsCount(t: TimerState, k: nat)
    ensures AfterTicks(t.Acked(), k).timeout <==> t.enabled && 0 <= t.value < k
  {
    TicksClosedForm(t.Acked(), k);
  }

  class Timer {
    var enabled: bool
    var value: int
    var timeout: bool
    var max: int

    ghost function State(): TimerState
      reads this
    {
      TimerState(enabled, value, timeout, max)
    }

    /** The constructor leaves `value` unset; the first Start sets it. */
    constructor (m: int)
      ensures !enabled && !timeout && max == m
    {
      enabled := false;
      timeout := false;
      max := m;
    }

    method SetTimeoutVal(t: int)
      modifies this
      ensures State() == old(State()).WithLimit(t)
      ensures old(State().Bounded()) ==> State().Bounded()
    {
      if value > t {
        value := t;
      }
      max := t;
    }

    method Start()
      modifies this
      ensures State() == old(State()).Started()
      ensures State().Bounded()
    {
      value := max;
      enabled := true;
    }

    method Continue()
      modifies this
      ensures State() == old(State()).Continued()
      ensures old(State().Bounded()) ==> State().Bounded()
    {
      if !enabled {
        Start();
      }
    }

    method Stop()
      modifies this
      ensures State() == old(State()).Stopped()
      ensures State().Bounded()
    {
      timeout := false;
      enabled := false;
    }

    method SetTimeout()
      modifies this
      ensures State() == old(State()).(timeout := true)
    {
      timeout := true;
    }

    predicate Timeout()
      reads this
    {
      timeout
    }

    method Ack()
      modifies this
      ensures State() == old(State()).Acked()
      ensures old(State().Bounded()) ==> State().Bounded()
    {
      timeout := false;
    }

    method Tick()
      modifies this
      ensures State() == old(State()).Ticked()
      ensures old(State().Bounded()) ==> State().Bounded()
    {
      if enabled {
        if value == 0 {
          Stop();
          SetTimeout();
        } else {
          value := value - 1;
        }
      }
    }
  }
}
