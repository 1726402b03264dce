/** How soon an endpoint that owes its peer a packet reports that it has something to send. */
module Timed {
  import opened Timers
  import opened ArqSpec
  import opened Steps
  import opened Network

  function TicksAtA<P>(steps: seq<Step<P>>): nat
    decreases |steps|
  {
    if |steps| == 0 then 0
    else
      var last := steps[|steps| - 1];
      TicksAtA(steps[..|steps| - 1]) + if last.atA && last.op.Tick? then 1 else 0
  }

  /** End a transmits nothing meanwhile, and no timeout is set below zero. */
  predicate SilentAtA<P>(steps: seq<Step<P>>) {
    forall i :: 0 <= i < |steps| && steps[i].atA ==>
      && !steps[i].op.Transmit?
      && (steps[i].op.SetTimeouts? ==> steps[i].op.tx >= 0 && steps[i].op.rx >= 0)
  }

  /** A timer that has expired, or will after `left` more ticks. */
  predicate Due(t: TimerState, left: int) {
    t.timeout || (t.enabled && 0 <= t.value <= left)
  }

  lemma SilentStepKeepsDue<P>(c: Config, s: System<P>, op: Op<P>, left: int)
    requires Ready(c, s) && Due(s.a.ep.recvTimer, left) && !op.Transmit?
    requires op.SetTimeouts? ==> op.rx >= 0
    ensures Due(Act(c, s, op).a.ep.recvTimer, if op.Tick? then left - 1 else left)
  {
  }

  lemma OtherEndUntouched<P>(c: Config, s: System<P>, op: Op<P>)
    requires Ready(c, s)
    ensures Act(c, s, op).b.ep == s.b.ep
  {
  }

  lemma {:induction false} RecvTimerFires<P>(c: Config, s: System<P>, steps: seq<Step<P>>, left: int)
    requires Ready(c, s) && Due(s.a.ep.recvTimer, left) && SilentAtA(steps)
    ensures Due(Run(c, s, steps).a.ep.recvTimer, left - TicksAtA(steps))
    decreases |steps|
  {
    if |steps| > 0 {
      var init, last := steps[..|steps| - 1], steps[|steps| - 1];
      RecvTimerFires(c, s, init, left);
      var m := Run(c, s, init);
      if last.atA {
        SilentStepKeepsDue(c, m, last.op, left - TicksAtA(init));
      } else {
        OtherEndUntouched(c, m.Flip(), last.op);
      }
    }
  }

  /** Accepting a packet arms the delayed acknowledgement. From then on, however the run continues, once
      the configured timeout and one tick have passed without a transmission there is data to send. */
  lemma AckDueInTime<P>(c: Config, s: System<P>, p: Packet<P>, steps: seq<Step<P>>)
    requires Ready(c, s) && Inv(c, s.a.ep) && s.a.ep.recvTimer.max >= 0
    requires s.a.ep.recvTimer.enabled ==> s.a.ep.recvTimer.value >= 0
    requires ReceiveData(c, s.a.ep, p) != s.a.ep
    requires SilentAtA(steps) && TicksAtA(steps) > s.a.ep.recvTimer.max
    ensures var r := s.(a := s.a.(ep := Receive(c, s.a.ep, p)));
            HasSendData(c, Run(c, r, steps).a.ep)
  {
    var r := s.(a := s.a.(ep := Receive(c, s.a.ep, p)));
    assert Due(r.a.ep.recvTimer, s.a.ep.recvTimer.max);
    RecvTimerFires(c, r, steps, s.a.ep.recvTimer.max);
  }

  /** No acknowledgement moves a's window during the run. */
  ghost predicate WindowStays<P>(c: Config, s: System<P>, steps: seq<Step<P>>)
    requires Ready(c, s)
  {
    forall k :: 0 <= k <= |steps| ==> Run(c, s, steps[..k]).a.ep.wndpos == s.a.ep.wndpos
  }

  lemma SilentStepKeepsSendDue<P>(c: Config, s: System<P>, op: Op<P>, left: int)
    requires Ready(c, s) && Due(s.a.ep.sendTimer, left) && !op.Transmit?
    requires op.SetTimeouts? ==> op.tx >= 0
    requires Act(c, s, op).a.ep.wndpos == s.a.ep.wndpos
    ensures Due(Act(c, s, op).a.ep.sendTimer, if op.Tick? then left - 1 else left)
  {
    if (op.Deliver? || op.DeliverCopy?) && |s.b.out| > 0 {
      var d := ReceiveData(c, s.a.ep, s.b.out[0]);
      assert ReceiveAck(c, d, s.b.out[0]) == d;
    }
  }

  lemma WindowStaysPrefix<P>(c: Config, s: System<P>, steps: seq<Step<P>>, n: nat)
    requires Ready(c, s) && n <= |steps| && WindowStays(c, s, steps)
    ensures WindowStays(c, s, steps[..n])
  {
    forall k | 0 <= k <= n
      ensures Run(c, s, steps[..n][..k]).a.ep.wndpos == s.a.ep.wndpos
    {
      assert steps[..n][..k] == steps[..k];
    }
  }

  lemma WindowStaysAt<P>(c: Config, s: System<P>, steps: seq<Step<P>>)
    requires Ready(c, s) && WindowStays(c, s, steps)
    ensures Run(c, s, steps).a.ep.wndpos == s.a.ep.wndpos
  {
    assert steps[..|steps|] == steps;
  }

  lemma {:induction false} SendTimerFires<P>(c: Config, s: System<P>, steps: seq<Step<P>>, left: int)
    requires Ready(c, s) && Due(s.a.ep.sendTimer, left) && SilentAtA(steps) && WindowStays(c, s, steps)
    ensures Due(Run(c, s, steps).a.ep.sendTimer, left - TicksAtA(steps))
    decreases |steps|
  {
    if |steps| > 0 {
      var init, last := steps[..|steps| - 1], steps[|steps| - 1];
      WindowStaysPrefix(c, s, steps, |steps| - 1);
      WindowStaysAt(c, s, init);
      WindowStaysAt(c, s, steps);
      SendTimerFires(c, s, init, left);
      var m := Run(c, s, init);
      if last.atA {
        SilentStepKeepsSendDue(c, m, last.op, left - TicksAtA(init));
      } else {
        OtherEndUntouched(c, m.Flip(), last.op);
      }
    }
  }

  /** An outstanding packet is due for retransmission once the configured timeout and one tick have passed
      without a transmission or an acknowledgement that moves the window. */
  lemma RetransmitDueInTime<P>(c: Config, s: System<P>, steps: seq<Step<P>>)
    requires Ready(c, s) && Inv(c, s.a.ep) && s.a.ep.wndpos != s.a.ep.sendpos
    requires s.a.ep.sendTimer.enabled ==> s.a.ep.sendTimer.value >= 0
    requires SilentAtA(steps) && WindowStays(c, s, steps) && TicksAtA(steps) > s.a.ep.sendTimer.max >= 0
    ensures HasSendData(c, Run(c, s, steps).a.ep)
  {
    SendTimerFires(c, s, steps, s.a.ep.sendTimer.max);
  }

  // ---------------------------------------------------------------- never early

  /** End a's user sets no timeouts meanwhile. */
  predicate SteadyAtA<P>(steps: seq<Step<P>>) {
    forall i :: 0 <= i < |steps| && steps[i].atA ==> !steps[i].op.SetTimeouts?
  }

  /** A timer that has counted down n ticks. */
  function Counted(t: TimerState, n: int): TimerState {
    t.(value := t.value - n)
  }

  lemma StepCountsSendTimer<P>(c: Config, s: System<P>, op: Op<P>)
    requires Ready(c, s) && s.a.ep.sendTimer.enabled && !s.a.ep.sendTimer.timeout && !op.SetTimeouts?
    requires Act(c, s, op).a.ep.wndpos == s.a.ep.wndpos && (op.Tick? ==> s.a.ep.sendTimer.value > 0)
    ensures Act(c, s, op).a.ep.sendTimer == Counted(s.a.ep.sendTimer, if op.Tick? then 1 else 0)
  {
    if (op.Deliver? || op.DeliverCopy?) && |s.b.out| > 0 {
      var d := ReceiveData(c, s.a.ep, s.b.out[0]);
      assert ReceiveAck(c, d, s.b.out[0]) == d;
    }
  }

  /** While the window stays and no timeouts are set, whatever is sent and received, a running retransmission timer
      counts a's ticks and nothing else. */
  lemma {:induction false} SendTimerCounts<P>(c: Config, s: System<P>, steps: seq<Step<P>>)
    requires Ready(c, s) && s.a.ep.sendTimer.enabled && !s.a.ep.sendTimer.timeout
    requires SteadyAtA(steps) && WindowStays(c, s, steps) && TicksAtA(steps) <= s.a.ep.sendTimer.value
    ensures Run(c, s, steps).a.ep.sendTimer == Counted(s.a.ep.sendTimer, TicksAtA(steps))
    decreases |steps|
  {
    if |steps| > 0 {
      var init, last := steps[..|steps| - 1], steps[|steps| - 1];
      WindowStaysPrefix(c, s, steps, |steps| - 1);
      WindowStaysAt(c, s, init);
      WindowStaysAt(c, s, steps);
      SendTimerCounts(c, s, init);
      var m := Run(c, s, init);
      if last.atA {
        StepCountsSendTimer(c, m, last.op);
      } else {
        OtherEndUntouched(c, m.Flip(), last.op);
      }
    }
  }

  lemma StepCountsRecvTimer<P>(c: Config, s: System<P>, op: Op<P>)
    requires Ready(c, s) && s.a.ep.recvTimer.enabled && !s.a.ep.recvTimer.timeout && !op.SetTimeouts? && !op.Transmit?
    requires op.Tick? ==> s.a.ep.recvTimer.value > 0
    ensures Act(c, s, op).a.ep.recvTimer == Counted(s.a.ep.recvTimer, if op.Tick? then 1 else 0)
  {
  }

  /** While a transmits nothing and no timeouts are set, a running delayed-ack timer counts a's ticks and nothing
      else. */
  lemma {:induction false} RecvTimerCounts<P>(c: Config, s: System<P>, steps: seq<Step<P>>)
    requires Ready(c, s) && s.a.ep.recvTimer.enabled && !s.a.ep.recvTimer.timeout
    requires SteadyAtA(steps) && SilentAtA(steps) && TicksAtA(steps) <= s.a.ep.recvTimer.value
    ensures Run(c, s, steps).a.ep.recvTimer == Counted(s.a.ep.recvTimer, TicksAtA(steps))
    decreases |steps|
  {
    if |steps| > 0 {
      var init, last := steps[..|steps| - 1], steps[|steps| - 1];
      RecvTimerCounts(c, s, init);
      var m := Run(c, s, init);
      if last.atA {
        StepCountsRecvTimer(c, m, last.op);
      } else {
        OtherEndUntouched(c, m.Flip(), last.op);
      }
    }
  }

  /** A retransmission timer with `left` ticks to go shows no timeout within them, whatever a transmits; and if a
      transmits nothing it shows one exactly after one tick more. */
  lemma SendTimerExactly<P>(c: Config, s: System<P>, steps: seq<Step<P>>, left: nat)
    requires Ready(c, s) && s.a.ep.sendTimer.enabled && !s.a.ep.sendTimer.timeout && s.a.ep.sendTimer.value == left
    requires SteadyAtA(steps) && WindowStays(c, s, steps)
    ensures TicksAtA(steps) <= left ==> !Run(c, s, steps).a.ep.sendTimer.timeout
    ensures SilentAtA(steps) ==> (Run(c, s, steps).a.ep.sendTimer.timeout <==> TicksAtA(steps) >= left + 1)
  {
    if TicksAtA(steps) <= left {
      SendTimerCounts(c, s, steps);
    } else if SilentAtA(steps) {
      SendTimerFires(c, s, steps, left);
    }
  }

  /** After an acknowledgement that moves the window and leaves packets outstanding, the retransmission timer shows
      no timeout until exactly the configured timeout and one tick have passed, in every continuation that moves the
      window no further and sets no timeouts. */
  lemma RetransmitExactly<P>(c: Config, s: System<P>, p: Packet<P>, steps: seq<Step<P>>)
    requires Ready(c, s) && s.a.ep.sendTimer.max >= 0 && !s.a.ep.sendTimer.timeout
    requires var e := Receive(c, s.a.ep, p); e.wndpos != s.a.ep.wndpos && e.wndpos != e.sendpos
    requires SteadyAtA(steps) && WindowStays(c, s.(a := s.a.(ep := Receive(c, s.a.ep, p))), steps)
    ensures var r, max := s.(a := s.a.(ep := Receive(c, s.a.ep, p))), s.a.ep.sendTimer.max;
            && (TicksAtA(steps) <= max ==> !Run(c, r, steps).a.ep.sendTimer.timeout)
            && (SilentAtA(steps) ==> (Run(c, r, steps).a.ep.sendTimer.timeout <==> TicksAtA(steps) >= max + 1))
  {
    var r := s.(a := s.a.(ep := Receive(c, s.a.ep, p)));
    assert r.a.ep.sendTimer.enabled && r.a.ep.sendTimer.value == s.a.ep.sendTimer.max;
    SendTimerExactly(c, r, steps, s.a.ep.sendTimer.max);
  }

  /** The same after the first packet put in flight by an end that had none outstanding. */
  lemma FirstTransmitExactly<P>(c: Config, s: System<P>, steps: seq<Step<P>>)
    requires Ready(c, s) && Inv(c, s.a.ep) && s.a.ep.sendTimer.max >= 0
    requires s.a.ep.wndpos == s.a.ep.sendpos && s.a.ep.sendpos != s.a.ep.seqpos
    requires SteadyAtA(steps) && WindowStays(c, Act(c, s, Transmit), steps)
    ensures var r, max := Act(c, s, Transmit), s.a.ep.sendTimer.max;
            && (TicksAtA(steps) <= max ==> !Run(c, r, steps).a.ep.sendTimer.timeout)
            && (SilentAtA(steps) ==> (Run(c, r, steps).a.ep.sendTimer.timeout <==> TicksAtA(steps) >= max + 1))
  {
    var r := Act(c, s, Transmit);
    assert r.a.ep.sendTimer.enabled && r.a.ep.sendTimer.value == s.a.ep.sendTimer.max;
    SendTimerExactly(c, r, steps, s.a.ep.sendTimer.max);
  }

  /** After a packet is accepted, the delayed acknowledgement is due after exactly what is left of a count that was
      running, or the configured timeout, and one tick. */
  lemma AckExactly<P>(c: Config, s: System<P>, p: Packet<P>, steps: seq<Step<P>>, left: nat)
    requires Ready(c, s) && ReceiveData(c, s.a.ep, p) != s.a.ep && !s.a.ep.recvTimer.timeout
    requires left == if s.a.ep.recvTimer.enabled then s.a.ep.recvTimer.value else s.a.ep.recvTimer.max
    requires SteadyAtA(steps) && SilentAtA(steps)
    ensures var r := s.(a := s.a.(ep := Receive(c, s.a.ep, p)));
            Run(c, r, steps).a.ep.recvTimer.timeout <==> TicksAtA(steps) >= left + 1
  {
    var r := s.(a := s.a.(ep := Receive(c, s.a.ep, p)));
    assert r.a.ep.recvTimer.enabled && !r.a.ep.recvTimer.timeout && r.a.ep.recvTimer.value == left;
    if TicksAtA(steps) <= left {
      RecvTimerCounts(c, r, steps);
    } else {
      RecvTimerFires(c, r, steps, left);
    }
  }
}
