/** Two ARQ endpoints joined by two channels, and everything that can happen to them. */
module Network {
  import opened ArqSpec
  import opened Steps
  import opened Wrappers

  /** One end: its ARQ object, the packets it put in flight, and two observers: the payloads its Send
      accepted and the payloads its Read returned. */
  datatype Side<P> = Side(ep: Endpoint<P>, out: seq<Packet<P>>, sent: seq<P>, read: seq<P>)

  datatype System<P> = System(a: Side<P>, b: Side<P>) {
    function Flip(): System<P> {
      System(b, a)
    }
  }

  predicate Ready<P>(c: Config, s: System<P>) {
    Shape(c, s.a.ep) && Shape(c, s.b.ep)
  }

  /** One operation at end a. */
  function Act<P>(c: Config, s: System<P>, op: Op<P>): (s': System<P>)
    requires Ready(c, s)
    ensures Ready(c, s')
  {
    var e := s.a.ep;
    match op
    case Send(p) =>
      s.(a := s.a.(ep := ArqSpec.Send(c, e, p), sent := if CanSend(c, e) then s.a.sent + [p] else s.a.sent))
    case Transmit =>
      var (e', p) := GetSendData(c, e);
      s.(a := s.a.(ep := e', out := if p.Some? then s.a.out + [p.value] else s.a.out))
    case Deliver =>
      if |s.b.out| == 0 then s
      else System(s.a.(ep := Receive(c, e, s.b.out[0])), s.b.(out := s.b.out[1..]))
    case DeliverCopy =>
      if |s.b.out| == 0 then s else s.(a := s.a.(ep := Receive(c, e, s.b.out[0])))
    case Lose(i) =>
      if i < |s.b.out| then s.(b := s.b.(out := Without(s.b.out, i))) else s
    case Read =>
      if HasReadData(c, e) then
        s.(a := s.a.(ep := ArqSpec.Read(c, e).0, read := s.a.read + [ArqSpec.Read(c, e).1]))
      else s
    case Tick => s.(a := s.a.(ep := ArqSpec.Tick(e)))
    case SetTimeouts(tx, rx) => s.(a := s.a.(ep := ArqSpec.SetTimeouts(e, tx, rx)))
  }

  function Apply<P>(c: Config, s: System<P>, step: Step<P>): (s': System<P>)
    requires Ready(c, s)
    ensures Ready(c, s')
  {
    if step.atA then Act(c, s, step.op) else Act(c, s.Flip(), step.op).Flip()
  }

  function Run<P>(c: Config, s: System<P>, steps: seq<Step<P>>): (s': System<P>)
    requires Ready(c, s)
    ensures Ready(c, s')
    decreases |steps|
  {
    if |steps| == 0 then s
    else Apply(c, Run(c, s, steps[..|steps| - 1]), steps[|steps| - 1])
  }

  /** Two freshly reset endpoints and empty channels; timers and buffer contents are arbitrary. */
  ghost predicate IsInit<P>(c: Config, s: System<P>) {
    && Ready(c, s)
    && s.a.ep == Cleared(c, s.a.ep) && s.b.ep == Cleared(c, s.b.ep)
    && s.a.out == s.b.out == [] && s.a.sent == s.b.sent == [] && s.a.read == s.b.read == []
  }

  lemma RunSnoc<P>(c: Config, s: System<P>, steps: seq<Step<P>>, step: Step<P>)
    requires Ready(c, s)
    ensures Run(c, s, steps + [step]) == Apply(c, Run(c, s, steps), step)
  {
    assert (steps + [step])[..|steps|] == steps;
  }

  /** Both endpoints keep their own invariant in every run, under any usable configuration. */
  lemma {:induction false} EndpointsKeepInv<P>(c: Config, s: System<P>, steps: seq<Step<P>>)
    requires IsInit(c, s)
    ensures Inv(c, Run(c, s, steps).a.ep) && Inv(c, Run(c, s, steps).b.ep)
    decreases |steps|
  {
    if steps == [] {
      ClearedKeepsInv(c, s.a.ep);
      ClearedKeepsInv(c, s.b.ep);
    } else {
      var last := steps[|steps| - 1];
      EndpointsKeepInv(c, s, steps[..|steps| - 1]);
      var m := Run(c, s, steps[..|steps| - 1]);
      ActKeepsInv(c, if last.atA then m else m.Flip(), last.op);
    }
  }

  lemma ActKeepsInv<P>(c: Config, s: System<P>, op: Op<P>)
    requires Inv(c, s.a.ep) && Inv(c, s.b.ep)
    ensures Inv(c, Act(c, s, op).a.ep) && Inv(c, Act(c, s, op).b.ep)
  {
    match op
    case Send(p) => SendKeepsInv(c, s.a.ep, p);
    case Transmit => GetSendDataKeepsInv(c, s.a.ep);
    case Deliver => if |s.b.out| > 0 { ReceiveKeepsInv(c, s.a.ep, s.b.out[0]); }
    case DeliverCopy => if |s.b.out| > 0 { ReceiveKeepsInv(c, s.a.ep, s.b.out[0]); }
    case Lose(i) =>
    case Read => if HasReadData(c, s.a.ep) { ReadKeepsInv(c, s.a.ep); }
    case Tick => TimersKeepInv(c, s.a.ep, 0, 0);
    case SetTimeouts(tx, rx) => TimersKeepInv(c, s.a.ep, tx, rx);
  }

  // ---------------------------------------------------------------- the two ends are alike

  function FlipSteps<P>(steps: seq<Step<P>>): (r: seq<Step<P>>)
    ensures |r| == |steps|
  {
    seq(|steps|, i requires 0 <= i < |steps| => steps[i].(atA := !steps[i].atA))
  }

  /** A run with the ends exchanged is the run of the exchanged system, so whatever holds of one end in every run
      holds of the other. */
  lemma {:induction false} RunFlipped<P>(c: Config, s: System<P>, steps: seq<Step<P>>)
    requires Ready(c, s)
    ensures Run(c, s.Flip(), FlipSteps(steps)) == Run(c, s, steps).Flip()
    ensures IsInit(c, s) ==> IsInit(c, s.Flip())
    decreases |steps|
  {
    if |steps| > 0 {
      var init := steps[..|steps| - 1];
      RunFlipped(c, s, init);
      assert FlipSteps(steps)[..|steps| - 1] == FlipSteps(init);
      assert Run(c, s, init).Flip().Flip() == Run(c, s, init);
    }
  }

  // ---------------------------------------------------------------- when a packet was sent

  lemma CarriesAckPosition<P>(c: Config, e: Endpoint<P>)
    requires Shape(c, e)
    ensures GetSendData(c, e).1.Some? ==> GetSendData(c, e).1.value.ackno == e.recackpos
  {
  }

  /** A step leaves the packets from b alone, takes one away, or adds the one b transmits. */
  lemma InFlightBefore<P>(c: Config, m: System<P>, step: Step<P>, i: nat)
    requires Ready(c, m) && i < |Apply(c, m, step).b.out|
    ensures var p := Apply(c, m, step).b.out[i];
            || (step == Step(false, Transmit) && GetSendData(c, m.b.ep).1 == Some(p))
            || (i < |m.b.out| && m.b.out[i] == p) || (i + 1 < |m.b.out| && m.b.out[i + 1] == p)
  {
  }

  /** Every packet in flight from b was transmitted at some step of the run. */
  lemma {:induction false} SentWhen<P>(c: Config, s: System<P>, steps: seq<Step<P>>, i: nat) returns (k: nat)
    requires Ready(c, s) && s.b.out == [] && i < |Run(c, s, steps).b.out|
    ensures k < |steps| && steps[k] == Step(false, Transmit)
    ensures GetSendData(c, Run(c, s, steps[..k]).b.ep).1 == Some(Run(c, s, steps).b.out[i])
    decreases |steps|
  {
    var n := |steps| - 1;
    var m := Run(c, s, steps[..n]);
    InFlightBefore(c, m, steps[n], i);
    var p := Run(c, s, steps).b.out[i];
    if steps[n] == Step(false, Transmit) && GetSendData(c, m.b.ep).1 == Some(p) {
      k := n;
    } else {
      k := SentWhen(c, s, steps[..n], if i < |m.b.out| && m.b.out[i] == p then i else i + 1);
      assert steps[..n][..k] == steps[..k];
    }
  }
}
