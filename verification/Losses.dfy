/** Runs in which losses leave something undelivered for good, and the window sizes that admit them. */
module Losses {
  import opened Timers
  import opened ArqSpec
  import opened Steps
  import opened Wrappers
  import opened Network
  import opened UnboundedLink
  import opened Refinement
  import opened Stranded
  import opened Completion

  predicate Patient<P>(steps: seq<Step<P>>) {
    forall i :: 0 <= i < |steps| && steps[i].op.SetTimeouts? ==> steps[i].op.tx >= 0 && steps[i].op.rx >= 0
  }

  /** v is what a run without negative timeouts makes of u. */
  ghost predicate At<P>(w: nat, u: USystem<P>, steps: seq<Step<P>>, v: USystem<P>) {
    UReady(w, u) && Patient(steps) && URun(w, u, steps) == v
  }

  lemma Go<P>(w: nat, u: USystem<P>, steps: seq<Step<P>>, v: USystem<P>, step: Step<P>) returns (longer: seq<Step<P>>)
    requires At(w, u, steps, v) && (step.op.SetTimeouts? ==> step.op.tx >= 0 && step.op.rx >= 0)
    ensures At(w, u, longer, UApply(w, v, step))
  {
    longer := steps + [step];
    URunSnoc(w, u, steps, step);
  }

  // ---------------------------------------------------------------- packets and acknowledgements

  /** b has accepted and read none of the first k packets, all that a has sent; a knows of none of this; both ends
      are quiet, and b acknowledges at once what it accepts. */
  ghost predicate Heard<P>(v: USystem<P>, k: nat) {
    && v.a.out == [] && |v.a.ep.log| == v.a.ep.sent == k && v.a.ep.wnd == 0 && !v.a.ep.sendTimer.timeout
    && v.b.ep.acc == k && v.b.ep.read == [] && (forall n: nat :: n in v.b.ep.got <==> n < k)
    && v.b.ep.log == [] && v.b.ep.wnd == v.b.ep.sent == 0
    && !v.b.ep.sendTimer.Live() && !v.b.ep.recvTimer.Live() && v.b.ep.recvTimer.max == 0
  }

  /** a has one more packet in flight. */
  ghost predicate Pending<P>(v: USystem<P>, r: USystem<P>, k: nat, y: P) {
    && r.b == v.b && r.a.out == [Data(k, r.a.ep.acc, y)]
    && |r.a.ep.log| == r.a.ep.sent == k + 1 && r.a.ep.wnd == 0 && !r.a.ep.sendTimer.timeout
  }

  lemma Launched<P>(w: nat, v: USystem<P>, k: nat, y: P)
    requires UReady(w, v) && Heard(v, k) && k < w
    ensures Pending(v, UApply(w, UApply(w, v, Step(true, Op.Send(y))), Step(true, Transmit)), k, y)
  {
  }

  lemma LaunchNext<P>(w: nat, u: USystem<P>, steps: seq<Step<P>>, v: USystem<P>, k: nat, y: P)
    returns (longer: seq<Step<P>>, r: USystem<P>)
    requires At(w, u, steps, v) && Heard(v, k) && k < w
    ensures At(w, u, longer, r) && Pending(v, r, k, y)
  {
    Launched(w, v, k, y);
    longer := Go(w, u, steps, v, Step(true, Op.Send(y)));
    r := UApply(w, v, Step(true, Op.Send(y)));
    longer := Go(w, u, longer, r, Step(true, Transmit));
    r := UApply(w, r, Step(true, Transmit));
  }

  /** What b makes of the next packet. */
  lemma Accepted<P>(w: nat, v: USystem<P>, e: UEndpoint<P>, k: nat, p: UPacket<P>)
    requires UReady(w, v) && Heard(v, k) && k < w && e == v.b.ep && p.Data? && p.n == k
    ensures UReceive(w, e, p) ==
            e.(got := e.got[k := p.data], acc := k + 1, recvTimer := e.recvTimer.Started())
  {
    var got := e.got[k := p.data];
    assert k + 1 !in got;
    assert UAdvance(got, k, w) == k + 1;
  }

  /** A timer without delay is due at the next tick, and the acknowledgement goes out. */
  lemma Acknowledged<P>(w: nat, e: UEndpoint<P>)
    requires Ordered(e) && !e.sendTimer.Live() && |e.log| == e.sent
    requires e.recvTimer == TimerState(true, 0, false, 0)
    ensures UTransmit(e.(sendTimer := e.sendTimer.Ticked(), recvTimer := e.recvTimer.Ticked())) ==
            (e.(recvTimer := TimerState(false, 0, false, 0)), Some(AckOnly(e.acc)))
  {
  }

  lemma HeardAndAnswered<P>(w: nat, v: USystem<P>, r: USystem<P>, k: nat, y: P)
    requires UReady(w, v) && UReady(w, r) && Heard(v, k) && Pending(v, r, k, y) && k < w
    ensures var d := UApply(w, r, Step(false, Deliver));
            var x := UApply(w, UApply(w, d, Step(false, Op.Tick)), Step(false, Transmit));
            Heard(x, k + 1) && x.b.out == v.b.out + [AckOnly(k + 1)]
  {
    var e, d := UReceive(w, v.b.ep, r.a.out[0]), UApply(w, r, Step(false, Deliver));
    Accepted(w, v, v.b.ep, k, r.a.out[0]);
    Acknowledged(w, e);
    assert d == USystem(r.a.(out := []), v.b.(ep := e));
    var t := UApply(w, d, Step(false, Op.Tick));
    assert t == USystem(d.a, d.b.(ep := e.(sendTimer := e.sendTimer.Ticked(), recvTimer := e.recvTimer.Ticked())));
  }

  /** The packet in flight is accepted and acknowledged. */
  lemma HearNext<P>(w: nat, u: USystem<P>, steps: seq<Step<P>>, v: USystem<P>, k: nat, y: P)
    returns (longer: seq<Step<P>>, r: USystem<P>)
    requires At(w, u, steps, v) && Heard(v, k) && k < w
    ensures At(w, u, longer, r) && Heard(r, k + 1) && r.b.out == v.b.out + [AckOnly(k + 1)]
  {
    longer, r := LaunchNext(w, u, steps, v, k, y);
    HeardAndAnswered(w, v, r, k, y);
    longer := Go(w, u, longer, r, Step(false, Deliver));
    r := UApply(w, r, Step(false, Deliver));
    longer := Go(w, u, longer, r, Step(false, Op.Tick));
    r := UApply(w, r, Step(false, Op.Tick));
    longer := Go(w, u, longer, r, Step(false, Transmit));
    r := UApply(w, r, Step(false, Transmit));
  }

  /** The packet in flight is lost. */
  lemma LoseNext<P>(w: nat, u: USystem<P>, steps: seq<Step<P>>, v: USystem<P>, k: nat, y: P)
    returns (longer: seq<Step<P>>, r: USystem<P>)
    requires At(w, u, steps, v) && Heard(v, k) && k < w
    ensures At(w, u, longer, r) && r.b == v.b
    ensures r.a.out == [] && |r.a.ep.log| == r.a.ep.sent == k + 1 && r.a.ep.wnd == 0
  {
    longer, r := LaunchNext(w, u, steps, v, k, y);
    longer := Go(w, u, longer, r, Step(false, Lose(0)));
    r := UApply(w, r, Step(false, Lose(0)));
  }

  /** An acknowledgement in flight is lost. */
  lemma LoseAck<P>(w: nat, u: USystem<P>, steps: seq<Step<P>>, v: USystem<P>, k: nat, i: nat)
    returns (longer: seq<Step<P>>, r: USystem<P>)
    requires At(w, u, steps, v) && Heard(v, k) && i < |v.b.out|
    ensures At(w, u, longer, r) && Heard(r, k) && r.b.out == Without(v.b.out, i)
  {
    longer := Go(w, u, steps, v, Step(true, Lose(i)));
    r := UApply(w, v, Step(true, Lose(i)));
  }

  lemma Ready0<P>(w: nat, c: Config, s: System<P>) returns (steps: seq<Step<P>>, v: USystem<P>)
    requires IsInit(c, s) && w == c.wndS
    ensures At(w, Unbounded(s), steps, v) && Heard(v, 0) && v.b.out == []
  {
    InitRefines(c, s);
    var u := Unbounded(s);
    assert URun(w, u, []) == u;
    steps := Go(w, u, [], u, Step(false, Op.SetTimeouts(0, 0)));
    v := UApply(w, u, Step(false, Op.SetTimeouts(0, 0)));
  }

  // ---------------------------------------------------------------- data lost for good

  lemma PatientRun<P>(s: System<P>, steps: seq<Step<P>>)
    requires Patient(steps) && NoNegativeTimeout(s, [])
    ensures NoNegativeTimeout(s, steps)
  {
  }

  /** With two slots or more: the acknowledgement of one packet and the packet after it are lost, and the second is
      never resent without a Send. */
  lemma DataLost<P(!new)>(c: Config, s: System<P>, y: P) returns (steps: seq<Step<P>>)
    requires IsInit(c, s) && c.Aligned() && c.wndS >= 2
    ensures Patient(steps) && NeverCompletes(c, s, steps)
  {
    var w, u := c.wndS, Unbounded(s);
    var v: USystem<P>;
    steps, v := Ready0(w, c, s);
    steps, v := HearNext(w, u, steps, v, 0, y);
    steps, v := LoseAck(w, u, steps, v, 1, 0);
    assert v.b.out == [];
    steps, v := LoseNext(w, u, steps, v, 1, y);
    CutOff(c, s, steps, v);
  }

  lemma CutOff<P(!new)>(c: Config, s: System<P>, steps: seq<Step<P>>, v: USystem<P>)
    requires IsInit(c, s) && c.Aligned() && At(c.wndS, Unbounded(s), steps, v)
    requires UCut(v.a, v.b) && v.b.ep.acc < |v.a.ep.log|
    ensures Cut(c, Run(c, s, steps).a, Run(c, s, steps).b) && NeverCompletes(c, s, steps)
  {
    RunRefines(c, s, steps);
    CutOfRel(c, Run(c, s, steps), v);
    CutNeverCompletes(c, s, steps);
  }

  /** With three slots or more, being told something is not being told enough: with the acknowledgement of the first
      of two accepted packets in flight and that of the second lost, a can still learn of more, and yet a third
      packet that was lost is never resent without a Send. */
  lemma ToldTooLittle<P(!new)>(c: Config, s: System<P>, y: P) returns (steps: seq<Step<P>>)
    requires IsInit(c, s) && c.Aligned() && c.wndS >= 3 && NoNegativeTimeout(s, [])
    ensures Patient(steps) && Informable(c, s, steps) && NeverCompletes(c, s, steps)
  {
    var w, u := c.wndS, Unbounded(s);
    var v: USystem<P>;
    steps, v := Ready0(w, c, s);
    steps, v := HearNext(w, u, steps, v, 0, y);
    steps, v := HearNext(w, u, steps, v, 1, y);
    steps, v := LoseAck(w, u, steps, v, 2, 1);
    assert v.b.out == [AckOnly(1)];
    steps, v := LoseNext(w, u, steps, v, 2, y);
    assert v.b.out[0].acked == 1;
    CutOff(c, s, steps, v);
    NotMute(c, s, steps, v);
  }

  lemma NotMute<P(!new)>(c: Config, s: System<P>, steps: seq<Step<P>>, v: USystem<P>)
    requires IsInit(c, s) && c.Aligned() && At(c.wndS, Unbounded(s), steps, v) && NoNegativeTimeout(s, [])
    requires UCut(v.a, v.b) && !UMute(v.a, v.b)
    ensures Informable(c, s, steps)
  {
    RunRefines(c, s, steps);
    AcksOfRel(c, Run(c, s, steps), v);
    MuteOfRel(c, Run(c, s, steps), v);
    PatientRun(s, steps);
    InformableUnlessMute(c, s, steps);
  }

  // ---------------------------------------------------------------- which windows admit it

  /** Cut off with something left to accept: a has sent it, and knows of less than b has accepted. */
  lemma CutNeedsRoom<P>(c: Config, s: System<P>, steps: seq<Step<P>>)
    requires IsInit(c, s) && c.Aligned()
    requires var r := Run(c, s, steps); Cut(c, r.a, r.b) && !AllAccepted(c, r.a, r.b)
    ensures c.wndS >= 2
    ensures !Mute(c, Run(c, s, steps).a, Run(c, s, steps).b) ==> c.wndS >= 3
  {
    RunRefines(c, s, steps);
    var r, v := Run(c, s, steps), URun(c.wndS, Unbounded(s), steps);
    CutOfRel(c, r, v);
    MuteOfRel(c, r, v);
  }

  /** Some run loses data for good if and only if there is more than one slot. */
  lemma LosesDataExactly<P(!new)>(c: Config, s: System<P>, y: P)
    requires IsInit(c, s) && c.Aligned() && NoNegativeTimeout(s, [])
    ensures (exists steps :: NoNegativeTimeout(s, steps) && NeverCompletes(c, s, steps)) <==> c.wndS >= 2
  {
    if c.wndS >= 2 {
      var steps := DataLost(c, s, y);
      PatientRun(s, steps);
    } else {
      forall steps | NoNegativeTimeout(s, steps)
        ensures !NeverCompletes(c, s, steps)
      {
        NeedsRoom(c, s, steps);
      }
    }
  }

  lemma NeedsRoom<P(!new)>(c: Config, s: System<P>, steps: seq<Step<P>>)
    requires IsInit(c, s) && c.Aligned() && NoNegativeTimeout(s, steps)
    ensures NeverCompletes(c, s, steps) ==> c.wndS >= 2
    ensures NeverCompletes(c, s, steps) && Informable(c, s, steps) ==> c.wndS >= 3
  {
    CompletableExactly(c, s, steps);
    if NeverCompletes(c, s, steps) {
      CutNeedsRoom(c, s, steps);
      InformableExactly(c, s, steps);
    }
  }

  /** Some run leaves a able to learn of more but never enough if and only if there are more than two slots. */
  lemma ToldTooLittleExactly<P(!new)>(c: Config, s: System<P>, y: P)
    requires IsInit(c, s) && c.Aligned() && NoNegativeTimeout(s, [])
    ensures (exists steps :: NoNegativeTimeout(s, steps) && NeverCompletes(c, s, steps) && Informable(c, s, steps))
        <==> c.wndS >= 3
  {
    if c.wndS >= 3 {
      var steps := ToldTooLittle(c, s, y);
      PatientRun(s, steps);
    } else {
      forall steps | NoNegativeTimeout(s, steps)
        ensures !(NeverCompletes(c, s, steps) && Informable(c, s, steps))
      {
        NeedsRoom(c, s, steps);
      }
    }
  }
}
