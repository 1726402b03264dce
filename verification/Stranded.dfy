/** A lost acknowledgement may never be repeated: dropped duplicates do not start the delayed-ack timer.
    Exactly when can a sender still learn, without new traffic from either user, of a packet its peer has
    accepted? */
module Stranded {
  import opened Modular
  import opened Timers
  import opened ArqSpec
  import opened Steps
  import opened Network
  import opened UnboundedLink
  import opened Refinement

  /** y has nothing to send and no delayed ack pending, and every packet that can still reach it is one it will
      drop as a duplicate. */
  ghost predicate USilent<P>(x: USide<P>, y: USide<P>) {
    && !y.ep.recvTimer.Live() && y.ep.wnd == |y.ep.log|
    && x.ep.sent == |x.ep.log|
    && (forall i :: 0 <= i < |x.out| ==> !Wanted(y.ep, x.out[i]))
  }

  /** Everything y could still tell x it has told already: y has accepted more than x knows, but no ack in
      flight says so, and y is silent. */
  ghost predicate UMute<P>(x: USide<P>, y: USide<P>) {
    && x.ep.wnd < y.ep.acc
    && (forall i :: 0 <= i < |y.out| ==> y.out[i].acked == x.ep.wnd)
    && USilent(x, y)
  }

  /** A data packet not accepted yet. */
  predicate Wanted<P>(e: UEndpoint<P>, p: UPacket<P>) {
    p.Data? && p.n >= e.acc && p.n !in e.got
  }

  predicate SendFree<P>(steps: seq<Step<P>>) {
    forall i :: 0 <= i < |steps| ==> !steps[i].op.Send?
  }

  // ---------------------------------------------------------------- once mute, mute for ever

  lemma MuteSender<P>(w: nat, u: USystem<P>, op: Op<P>)
    requires w > 0 && UReady(w, u) && UInv(w, u) && UMute(u.a, u.b) && !op.Send?
    ensures var u' := UAct(w, u, op); UMute(u'.a, u'.b) && u'.a.ep.wnd == u.a.ep.wnd
  {
  }

  lemma MuteReceiver<P>(w: nat, u: USystem<P>, op: Op<P>)
    requires w > 0 && UReady(w, u) && UInv(w, u) && UMute(u.b, u.a) && !op.Send?
    ensures var u' := UAct(w, u, op); UMute(u'.b, u'.a) && u'.b.ep.wnd == u.b.ep.wnd
  {
    if (op.Deliver? || op.DeliverCopy?) && u.b.out != [] {
      assert !Wanted(u.a.ep, u.b.out[0]);
      assert UReceiveData(w, u.a.ep, u.b.out[0]) == u.a.ep;
    }
  }

  lemma {:induction false} MuteForever<P>(w: nat, u: USystem<P>, steps: seq<Step<P>>)
    requires w > 0 && UReady(w, u) && UInv(w, u) && UMute(u.a, u.b) && SendFree(steps)
    ensures var r := URun(w, u, steps); UMute(r.a, r.b) && r.a.ep.wnd == u.a.ep.wnd
    decreases |steps|
  {
    if |steps| > 0 {
      var init, last := steps[..|steps| - 1], steps[|steps| - 1];
      MuteForever(w, u, init);
      URunKeepsInv(w, u, init);
      var v := URun(w, u, init);
      if last.atA {
        MuteSender(w, v, last.op);
      } else {
        MuteReceiver(w, v.Flip(), last.op);
      }
    }
  }

  // ---------------------------------------------------------------- otherwise the news can get through

  /** What the link does by itself: packets move or get lost, time passes, and users read. */
  predicate PlainOp<P>(op: Op<P>) {
    op.Transmit? || op.Deliver? || op.Lose? || op.Read? || op.Tick?
  }

  predicate Plain<P>(steps: seq<Step<P>>) {
    forall i :: 0 <= i < |steps| ==> PlainOp(steps[i].op)
  }

  ghost predicate Leads<P(!new)>(w: nat, u: USystem<P>, v: USystem<P>)
    requires UReady(w, u)
  {
    exists steps: seq<Step<P>> :: Plain(steps) && URun(w, u, steps) == v
  }

  /** The timer will expire if it is let run. */
  predicate Armable(t: TimerState) {
    t.max >= 0 && (t.enabled ==> t.value >= 0)
  }

  predicate EndArmable<P>(e: UEndpoint<P>) {
    Armable(e.sendTimer) && Armable(e.recvTimer)
  }

  /** A state the link can get to from u by itself. */
  ghost predicate OnTheWay<P(!new)>(w: nat, u: USystem<P>, v: USystem<P>) {
    && w > 0 && UReady(w, u) && UReady(w, v) && UInv(w, v) && Leads(w, u, v)
    && EndArmable(v.a.ep) && EndArmable(v.b.ep)
  }

  lemma LeadStep<P(!new)>(w: nat, u: USystem<P>, v: USystem<P>, step: Step<P>)
    requires UReady(w, u) && UReady(w, v) && Leads(w, u, v) && PlainOp(step.op)
    ensures Leads(w, u, UApply(w, v, step))
  {
    var steps: seq<Step<P>> :| Plain(steps) && URun(w, u, steps) == v;
    URunSnoc(w, u, steps, step);
    assert Plain(steps + [step]);
  }

  lemma ActKeepsArmable<P>(w: nat, v: USystem<P>, op: Op<P>)
    requires UReady(w, v) && EndArmable(v.a.ep)
    requires op.SetTimeouts? ==> op.tx >= 0 && op.rx >= 0
    ensures EndArmable(UAct(w, v, op).a.ep) && UAct(w, v, op).b.ep == v.b.ep
  {
  }

  /** Any plain step leads on; at the end named by it, and only there, it does what UAct says. */
  lemma Onward<P(!new)>(w: nat, u: USystem<P>, v: USystem<P>, step: Step<P>)
    requires OnTheWay(w, u, v) && PlainOp(step.op)
    ensures OnTheWay(w, u, UApply(w, v, step))
  {
    LeadStep(w, u, v, step);
    UApplyKeepsInv(w, v, step);
    ActKeepsArmable(w, if step.atA then v else v.Flip(), step.op);
  }

  /** Delivering the first packets of a channel towards a, up to packet i, leaves a's window at the count
      that packet carries. */
  lemma {:induction false} DeliverAcks<P(!new)>(w: nat, u: USystem<P>, v: USystem<P>, i: nat) returns (r: USystem<P>)
    requires OnTheWay(w, u, v) && i < |v.b.out|
    ensures OnTheWay(w, u, r) && r.b.ep == v.b.ep
    ensures r.a.ep.log == v.a.ep.log && r.a.ep.wnd == v.b.out[i].acked
    decreases i
  {
    Onward(w, u, v, Step(true, Deliver));
    r := UApply(w, v, Step(true, Deliver));
    assert UReceive(w, v.a.ep, v.b.out[0]).wnd == v.b.out[0].acked;
    if i > 0 {
      r := DeliverAcks(w, u, r, i - 1);
    }
  }

  /** Whatever b transmits carries its accepted count; once delivered, a knows it. */
  lemma Speak<P(!new)>(w: nat, u: USystem<P>, v: USystem<P>) returns (r: USystem<P>)
    requires OnTheWay(w, u, v)
    requires v.b.ep.sendTimer.timeout || |v.b.ep.log| > v.b.ep.sent || v.b.ep.recvTimer.timeout
    ensures OnTheWay(w, u, r) && r.b.ep.acc == v.b.ep.acc
    ensures r.a.ep.log == v.a.ep.log && r.a.ep.wnd == v.b.ep.acc
  {
    Onward(w, u, v, Step(false, Transmit));
    r := UApply(w, v, Step(false, Transmit));
    assert v.b.ep.sendTimer.timeout ==> v.b.ep.wnd < |v.b.ep.log|;
    assert |r.b.out| == |v.b.out| + 1 && r.b.out[|v.b.out|].acked == v.b.ep.acc;
    r := DeliverAcks(w, u, r, |v.b.out|);
  }

  /** A timer of b that is expired, or will be after some more ticks, makes b speak. */
  lemma {:induction false} TickUntilHeard<P(!new)>(w: nat, u: USystem<P>, v: USystem<P>, left: nat)
    returns (r: USystem<P>)
    requires OnTheWay(w, u, v)
    requires v.b.ep.sendTimer.timeout || v.b.ep.recvTimer.timeout
          || (v.b.ep.sendTimer.enabled && v.b.ep.sendTimer.value <= left)
          || (v.b.ep.recvTimer.enabled && v.b.ep.recvTimer.value <= left)
    ensures OnTheWay(w, u, r) && r.b.ep.acc == v.b.ep.acc
    ensures r.a.ep.log == v.a.ep.log && r.a.ep.wnd == v.b.ep.acc
    decreases left
  {
    if v.b.ep.sendTimer.timeout || v.b.ep.recvTimer.timeout {
      r := Speak(w, u, v);
    } else {
      Onward(w, u, v, Step(false, Op.Tick));
      r := UApply(w, v, Step(false, Op.Tick));
      if r.b.ep.sendTimer.timeout || r.b.ep.recvTimer.timeout {
        r := Speak(w, u, r);
      } else {
        r := TickUntilHeard(w, u, r, left - 1);
      }
    }
  }

  /** A live timer at b, or anything b has not had acknowledged, makes b speak. */
  lemma WakeUp<P(!new)>(w: nat, u: USystem<P>, v: USystem<P>) returns (r: USystem<P>)
    requires OnTheWay(w, u, v)
    requires v.b.ep.recvTimer.Live() || v.b.ep.wnd < |v.b.ep.log|
    ensures OnTheWay(w, u, r) && r.b.ep.acc == v.b.ep.acc
    ensures r.a.ep.log == v.a.ep.log && r.a.ep.wnd == v.b.ep.acc
  {
    if v.b.ep.sendTimer.timeout || |v.b.ep.log| > v.b.ep.sent || v.b.ep.recvTimer.timeout {
      r := Speak(w, u, v);
    } else if v.b.ep.recvTimer.enabled {
      r := TickUntilHeard(w, u, v, v.b.ep.recvTimer.value);
    } else {
      assert v.b.ep.sendTimer.Live();
      r := TickUntilHeard(w, u, v, v.b.ep.sendTimer.value);
    }
  }

  /** b reads everything it has accepted in order; its window then starts at its accepted count. */
  lemma {:induction false} ReadAll<P(!new)>(w: nat, u: USystem<P>, v: USystem<P>) returns (r: USystem<P>)
    requires OnTheWay(w, u, v)
    ensures OnTheWay(w, u, r) && r.a == v.a && r.b.ep.acc == v.b.ep.acc == |r.b.ep.read|
    ensures forall n :: n in r.b.ep.got ==> n in v.b.ep.got
    decreases v.b.ep.acc - |v.b.ep.read|
  {
    if |v.b.ep.read| == v.b.ep.acc {
      r := v;
    } else {
      assert |v.b.ep.read| in v.b.ep.got;
      Onward(w, u, v, Step(false, Op.Read));
      r := UApply(w, v, Step(false, Op.Read));
      r := ReadAll(w, u, r);
    }
  }

  /** One packet delivered to b: nothing it had is lost, and if it keeps anything new its delayed-ack timer
      is live. */
  lemma DeliverOne<P(!new)>(w: nat, u: USystem<P>, v: USystem<P>) returns (r: USystem<P>)
    requires OnTheWay(w, u, v) && v.a.out != []
    ensures OnTheWay(w, u, r) && r.a == v.a.(out := v.a.out[1..])
    ensures r.b.ep.read == v.b.ep.read && r.b.ep.acc >= v.b.ep.acc
    ensures r.b.ep.recvTimer.Live() || (r.b.ep.got == v.b.ep.got && !v.b.ep.recvTimer.Live())
    ensures forall n :: n in v.b.ep.got ==> n in r.b.ep.got
    ensures var p := v.a.out[0]; p.Data? && |v.b.ep.read| <= p.n < |v.b.ep.read| + w ==> p.n in r.b.ep.got
  {
    Onward(w, u, v, Step(false, Deliver));
    r := UApply(w, v, Step(false, Deliver));
  }

  /** Everything up to packet i delivered to b: that packet is there if it lies in b's window. */
  lemma {:induction false} DeliverData<P(!new)>(w: nat, u: USystem<P>, v: USystem<P>, i: nat) returns (r: USystem<P>)
    requires OnTheWay(w, u, v) && i < |v.a.out|
    requires v.a.out[i].Data? && |v.b.ep.read| <= v.a.out[i].n < |v.b.ep.read| + w
    requires v.b.ep.recvTimer.Live() || v.a.out[i].n !in v.b.ep.got
    ensures OnTheWay(w, u, r) && r.a.ep == v.a.ep && r.b.ep.acc >= v.b.ep.acc
    ensures v.a.out[i].n in r.b.ep.got && r.b.ep.recvTimer.Live()
    decreases i
  {
    r := DeliverOne(w, u, v);
    if i > 0 {
      r := DeliverData(w, u, r, i - 1);
    } else {
      KeepsDelivered(w, v, r);
    }
  }

  lemma KeepsDelivered<P>(w: nat, v: USystem<P>, r: USystem<P>)
    requires v.a.out != [] && v.a.out[0].Data? && v.a.out[0].n in r.b.ep.got
    requires v.b.ep.recvTimer.Live() || v.a.out[0].n !in v.b.ep.got
    requires r.b.ep.recvTimer.Live() || (r.b.ep.got == v.b.ep.got && !v.b.ep.recvTimer.Live())
    ensures r.b.ep.recvTimer.Live()
  {
  }

  /** a knows as much as b has accepted. */
  ghost predicate InStep<P>(v: USystem<P>) {
    v.a.ep.wnd == v.b.ep.acc
  }

  /** A packet b has not accepted, somewhere in the channel towards it, starts b's delayed-ack timer. */
  lemma Wake<P(!new)>(w: nat, u: USystem<P>, v: USystem<P>, i: nat) returns (r: USystem<P>)
    requires OnTheWay(w, u, v) && i < |v.a.out| && Wanted(v.b.ep, v.a.out[i])
    ensures OnTheWay(w, u, r) && InStep(r) && r.b.ep.acc >= v.b.ep.acc && r.a.ep.log == v.a.ep.log
  {
    r := ReadAll(w, u, v);
    assert InFlight(w, v.a.ep, v.b.ep, v.a.out[i]);
    r := DeliverData(w, u, r, i);
    r := WakeUp(w, u, r);
  }

  /** Packets a has not transmitted yet are news to b. */
  lemma TransmitNew<P(!new)>(w: nat, u: USystem<P>, v: USystem<P>) returns (r: USystem<P>)
    requires OnTheWay(w, u, v) && v.a.ep.sent < |v.a.ep.log| && !v.a.ep.sendTimer.timeout
    ensures OnTheWay(w, u, r) && InStep(r) && r.b.ep.acc >= v.b.ep.acc && r.a.ep.log == v.a.ep.log
  {
    Onward(w, u, v, Step(true, Transmit));
    r := UApply(w, v, Step(true, Transmit));
    assert Wanted(r.b.ep, r.a.out[|v.a.out|]);
    r := Wake(w, u, r, |v.a.out|);
  }

  lemma TransmitWaiting<P(!new)>(w: nat, u: USystem<P>, v: USystem<P>) returns (r: USystem<P>)
    requires OnTheWay(w, u, v) && v.a.ep.sent < |v.a.ep.log|
    ensures OnTheWay(w, u, r) && InStep(r) && r.b.ep.acc >= v.b.ep.acc && r.a.ep.log == v.a.ep.log
  {
    r := v;
    if v.a.ep.sendTimer.timeout {
      Onward(w, u, v, Step(true, Transmit));
      r := UApply(w, v, Step(true, Transmit));
    }
    r := TransmitNew(w, u, r);
  }

  /** b can never again say how much it has accepted: no ack in flight says so, and b is silent. */
  ghost predicate UCut<P>(x: USide<P>, y: USide<P>) {
    && x.ep.wnd < y.ep.acc
    && (forall i :: 0 <= i < |y.out| ==> y.out[i].acked < y.ep.acc)
    && USilent(x, y)
  }

  /** Otherwise a can be brought into step with b. */
  lemma IntoStep<P(!new)>(w: nat, u: USystem<P>, v: USystem<P>) returns (r: USystem<P>)
    requires OnTheWay(w, u, v) && !UCut(v.a, v.b)
    ensures OnTheWay(w, u, r) && InStep(r) && r.b.ep.acc >= v.b.ep.acc && r.a.ep.log == v.a.ep.log
  {
    if InStep(v) {
      r := v;
    } else if i :| 0 <= i < |v.b.out| && v.b.out[i].acked == v.b.ep.acc {
      r := DeliverAcks(w, u, v, i);
    } else if v.b.ep.recvTimer.Live() || v.b.ep.wnd < |v.b.ep.log| {
      r := WakeUp(w, u, v);
    } else if v.a.ep.sent < |v.a.ep.log| {
      r := TransmitWaiting(w, u, v);
    } else {
      var i :| 0 <= i < |v.a.out| && Wanted(v.b.ep, v.a.out[i]);
      r := Wake(w, u, v, i);
    }
  }

  ghost predicate Informed<P(!new)>(w: nat, u: USystem<P>)
    requires UReady(w, u)
  {
    exists v :: Leads(w, u, v) && v.a.ep.wnd > u.a.ep.wnd
  }

  lemma StartsOnTheWay<P(!new)>(w: nat, u: USystem<P>)
    requires w > 0 && UReady(w, u) && UInv(w, u) && EndArmable(u.a.ep) && EndArmable(u.b.ep)
    ensures OnTheWay(w, u, u)
  {
    assert URun(w, u, []) == u;
  }

  lemma PlainIsSendFree<P>(steps: seq<Step<P>>)
    requires Plain(steps)
    ensures SendFree(steps)
  {
  }

  /** In the unbounded link: a can still be told of more exactly when b is not mute. */
  lemma UInformableExactly<P(!new)>(w: nat, u: USystem<P>)
    requires w > 0 && UReady(w, u) && UInv(w, u) && u.a.ep.wnd < u.b.ep.acc
    requires EndArmable(u.a.ep) && EndArmable(u.b.ep)
    ensures Informed(w, u) <==> !UMute(u.a, u.b)
  {
    if UMute(u.a, u.b) {
      forall v | Leads(w, u, v)
        ensures v.a.ep.wnd == u.a.ep.wnd
      {
        var steps: seq<Step<P>> :| Plain(steps) && URun(w, u, steps) == v;
        PlainIsSendFree(steps);
        MuteForever(w, u, steps);
      }
    } else {
      StartsOnTheWay(w, u);
      if UCut(u.a, u.b) {
        var i :| 0 <= i < |u.b.out| && u.b.out[i].acked != u.a.ep.wnd;
        var r := DeliverAcks(w, u, u, i);
      } else {
        var r := IntoStep(w, u, u);
      }
    }
  }

  // ---------------------------------------------------------------- the link as implemented

  /** The same conditions in terms of the fields of the two endpoints and the packets in flight. */
  ghost predicate Silent<P>(c: Config, x: Side<P>, y: Side<P>)
    requires Shape(c, x.ep) && Shape(c, y.ep)
  {
    && !y.ep.recvTimer.Live() && SendDone(c, y.ep)
    && x.ep.sendpos == x.ep.seqpos
    && (forall i :: 0 <= i < |x.out| ==> !WantedPacket(c, y.ep, x.out[i]))
  }

  /** y has accepted more than x knows, every ack in flight says what x knows already, and y is silent. */
  ghost predicate Mute<P>(c: Config, x: Side<P>, y: Side<P>)
    requires Shape(c, x.ep) && Shape(c, y.ep)
  {
    && x.ep.wndpos != Plus(c.seqS, y.ep.recackpos, 1)
    && (forall i :: 0 <= i < |y.out| ==> Plus(c.seqS, y.out[i].ackno, 1) == x.ep.wndpos)
    && Silent(c, x, y)
  }

  /** A data packet at or after the ack position whose slot in the receive window is not filled. */
  predicate WantedPacket<P>(c: Config, e: Endpoint<P>, p: Packet<P>)
    requires Shape(c, e)
  {
    && p.seqvalid && Dist(c.seqS, p.seqno, Plus(c.seqS, e.recackpos, 1)) < c.wndS
    && !(Dist(c.seqS, p.seqno, e.recwndpos) < c.wndS && e.recvalids[Slot(c.wndS, p.seqno)])
  }

  lemma WantedOfRel<P>(c: Config, e: Endpoint<P>, u: UEndpoint<P>, x: UEndpoint<P>, p: Packet<P>, q: UPacket<P>)
    requires Shape(c, e) && c.Aligned() && RelRecv(c, e, u) && RelPacket(c, p, q)
    requires Counters(c.wndS, x, u) && Stored(c.wndS, x, u) && InFlight(c.wndS, x, u, q)
    ensures WantedPacket(c, e, p) <==> Wanted(u, q)
  {
    if q.Data? {
      AlignedTwoWindows(c);
      AckFieldAhead(c, u.acc);
      WindowDecision(c, u.acc, q.n);
      WindowDecision(c, |u.read|, q.n);
      SlotOfCounter(c.seqS, c.wndS, q.n);
    }
  }

  lemma SilentOfRel<P>(c: Config, r: System<P>, u: USystem<P>)
    requires c.Usable() && c.Aligned() && Rel(c, r, u) && UInv(c.wndS, u)
    ensures Silent(c, r.a, r.b) <==> USilent(u.a, u.b)
  {
    SameCounter(c, |u.a.ep.log|, u.a.ep.sent);
    DistOfCounters(c.seqS, |u.b.ep.log|, u.b.ep.wnd);
    forall i: nat | i < |u.a.out|
      ensures WantedPacket(c, r.b.ep, r.a.out[i]) <==> Wanted(u.b.ep, u.a.out[i])
    {
      assert RelPacket(c, r.a.out[i], u.a.out[i]);
      WantedOfRel(c, r.b.ep, u.b.ep, u.a.ep, r.a.out[i], u.a.out[i]);
    }
  }

  /** Positions and ack fields compare as the counts they stand for. */
  lemma AcksOfRel<P>(c: Config, r: System<P>, u: USystem<P>)
    requires c.Usable() && c.Aligned() && Rel(c, r, u) && UInv(c.wndS, u)
    ensures r.a.ep.wndpos != Plus(c.seqS, r.b.ep.recackpos, 1) <==> u.a.ep.wnd < u.b.ep.acc
    ensures forall i :: 0 <= i < |u.b.out| ==>
              (Plus(c.seqS, r.b.out[i].ackno, 1) == r.a.ep.wndpos <==> u.b.out[i].acked == u.a.ep.wnd)
    ensures forall i :: 0 <= i < |u.b.out| ==>
              (r.b.out[i].ackno == r.b.ep.recackpos <==> u.b.out[i].acked == u.b.ep.acc)
  {
    AckFieldAhead(c, u.b.ep.acc);
    SameCounter(c, u.b.ep.acc, u.a.ep.wnd);
    forall i: nat | i < |u.b.out|
      ensures Plus(c.seqS, r.b.out[i].ackno, 1) == r.a.ep.wndpos <==> u.b.out[i].acked == u.a.ep.wnd
      ensures r.b.out[i].ackno == r.b.ep.recackpos <==> u.b.out[i].acked == u.b.ep.acc
    {
      assert RelPacket(c, r.b.out[i], u.b.out[i]);
      AckFieldAhead(c, u.b.out[i].acked);
      SameCounter(c, u.b.out[i].acked, u.a.ep.wnd);
      SameCounter(c, u.b.ep.acc, u.b.out[i].acked);
    }
  }

  lemma MuteOfRel<P>(c: Config, r: System<P>, u: USystem<P>)
    requires c.Usable() && c.Aligned() && Rel(c, r, u) && UInv(c.wndS, u)
    ensures Mute(c, r.a, r.b) <==> UMute(u.a, u.b)
  {
    SilentOfRel(c, r, u);
    AcksOfRel(c, r, u);
  }

  lemma {:induction false} LogFixed<P>(w: nat, u: USystem<P>, steps: seq<Step<P>>)
    requires UReady(w, u) && SendFree(steps)
    ensures URun(w, u, steps).a.ep.log == u.a.ep.log && URun(w, u, steps).b.ep.log == u.b.ep.log
    decreases |steps|
  {
    if |steps| > 0 {
      var init := steps[..|steps| - 1];
      LogFixed(w, u, init);
      var v := URun(w, u, init);
      UActKeepsLogs(w, v, steps[|steps| - 1].op);
      UActKeepsLogs(w, v.Flip(), steps[|steps| - 1].op);
    }
  }

  lemma UActKeepsLogs<P>(w: nat, v: USystem<P>, op: Op<P>)
    requires UReady(w, v) && !op.Send?
    ensures UAct(w, v, op).a.ep.log == v.a.ep.log && UAct(w, v, op).b.ep == v.b.ep
  {
  }

  /** A continuation of a run moves a's window. */
  predicate Moves<P>(c: Config, s: System<P>, steps: seq<Step<P>>, more: seq<Step<P>>)
    requires Ready(c, s)
  {
    Run(c, s, steps + more).a.ep.wndpos != Run(c, s, steps).a.ep.wndpos
  }

  /** A run continued without Sends moves a's window start exactly when it moves the unbounded count. */
  lemma MovesExactly<P>(c: Config, s: System<P>, steps: seq<Step<P>>, more: seq<Step<P>>)
    requires IsInit(c, s) && c.Aligned() && SendFree(more)
    ensures UReady(c.wndS, Unbounded(s))
    ensures var v := URun(c.wndS, Unbounded(s), steps);
            Moves(c, s, steps, more) <==> URun(c.wndS, v, more).a.ep.wnd > v.a.ep.wnd
  {
    RunRefines(c, s, steps);
    RunRefines(c, s, steps + more);
    var v := URun(c.wndS, Unbounded(s), steps);
    URunConcat(c.wndS, Unbounded(s), steps, more);
    var r := URun(c.wndS, v, more);
    LogFixed(c.wndS, v, more);
    WindowMonotone(c.wndS, v, more);
    assert r.a.ep.wnd <= |v.a.ep.log| <= v.a.ep.wnd + c.wndS;
    SameCounter(c, r.a.ep.wnd, v.a.ep.wnd);
  }

  lemma {:induction false} WindowMonotone<P>(w: nat, u: USystem<P>, steps: seq<Step<P>>)
    requires UReady(w, u)
    ensures URun(w, u, steps).a.ep.wnd >= u.a.ep.wnd
    decreases |steps|
  {
    if |steps| > 0 {
      var init := steps[..|steps| - 1];
      WindowMonotone(w, u, init);
      WindowMonotoneStep(w, URun(w, u, init), steps[|steps| - 1]);
    }
  }

  lemma WindowMonotoneStep<P>(w: nat, v: USystem<P>, step: Step<P>)
    requires UReady(w, v)
    ensures UApply(w, v, step).a.ep.wnd >= v.a.ep.wnd
  {
  }

  /** No timeout is negative, at the start or later. */
  predicate NoNegativeTimeout<P>(s: System<P>, steps: seq<Step<P>>) {
    && s.a.ep.sendTimer.max >= 0 && s.a.ep.recvTimer.max >= 0
    && s.b.ep.sendTimer.max >= 0 && s.b.ep.recvTimer.max >= 0
    && forall i :: 0 <= i < |steps| && steps[i].op.SetTimeouts? ==> steps[i].op.tx >= 0 && steps[i].op.rx >= 0
  }

  /** Then every running timer will expire if it is let run. */
  lemma {:induction false} TimersArmable<P>(w: nat, u: USystem<P>, steps: seq<Step<P>>)
    requires UReady(w, u) && EndArmable(u.a.ep) && EndArmable(u.b.ep)
    requires forall i :: 0 <= i < |steps| && steps[i].op.SetTimeouts? ==> steps[i].op.tx >= 0 && steps[i].op.rx >= 0
    ensures EndArmable(URun(w, u, steps).a.ep) && EndArmable(URun(w, u, steps).b.ep)
    decreases |steps|
  {
    if |steps| > 0 {
      var init, last := steps[..|steps| - 1], steps[|steps| - 1];
      TimersArmable(w, u, init);
      var v := URun(w, u, init);
      ActKeepsArmable(w, if last.atA then v else v.Flip(), last.op);
    }
  }

  /** Some continuation by the link alone does. */
  ghost predicate Informable<P(!new)>(c: Config, s: System<P>, steps: seq<Step<P>>)
    requires Ready(c, s)
  {
    exists more :: Plain(more) && Moves(c, s, steps, more)
  }

  /** No continuation without a Send does. */
  ghost predicate NeverInformed<P(!new)>(c: Config, s: System<P>, steps: seq<Step<P>>)
    requires Ready(c, s)
  {
    forall more :: SendFree(more) ==> !Moves(c, s, steps, more)
  }

  /** In every state of every run without negative timeouts in which b has accepted more than a knows: the
      link by itself can still move a's window if and only if b is not mute. If b is mute, not even new timeouts
      or repeated deliveries help; only a user's Send can. */
  lemma InformableExactly<P(!new)>(c: Config, s: System<P>, steps: seq<Step<P>>)
    requires IsInit(c, s) && c.Aligned() && NoNegativeTimeout(s, steps)
    requires Run(c, s, steps).a.ep.wndpos != Plus(c.seqS, Run(c, s, steps).b.ep.recackpos, 1)
    ensures Informable(c, s, steps) <==> !Mute(c, Run(c, s, steps).a, Run(c, s, steps).b)
    ensures Mute(c, Run(c, s, steps).a, Run(c, s, steps).b) ==> NeverInformed(c, s, steps)
  {
    if Mute(c, Run(c, s, steps).a, Run(c, s, steps).b) {
      MuteUnmoved(c, s, steps);
    } else {
      InformableUnlessMute(c, s, steps);
    }
  }

  lemma InformableUnlessMute<P(!new)>(c: Config, s: System<P>, steps: seq<Step<P>>)
    requires IsInit(c, s) && c.Aligned() && NoNegativeTimeout(s, steps)
    requires Run(c, s, steps).a.ep.wndpos != Plus(c.seqS, Run(c, s, steps).b.ep.recackpos, 1)
    requires !Mute(c, Run(c, s, steps).a, Run(c, s, steps).b)
    ensures Informable(c, s, steps)
  {
    RunRefines(c, s, steps);
    var v := URun(c.wndS, Unbounded(s), steps);
    MuteOfRel(c, Run(c, s, steps), v);
    AcksOfRel(c, Run(c, s, steps), v);
    TimersArmable(c.wndS, Unbounded(s), steps);
    UInformableExactly(c.wndS, v);
    var t :| Leads(c.wndS, v, t) && t.a.ep.wnd > v.a.ep.wnd;
    var more: seq<Step<P>> :| Plain(more) && URun(c.wndS, v, more) == t;
    PlainIsSendFree(more);
    MovesExactly(c, s, steps, more);
  }

  lemma MuteUnmoved<P(!new)>(c: Config, s: System<P>, steps: seq<Step<P>>)
    requires IsInit(c, s) && c.Aligned() && Mute(c, Run(c, s, steps).a, Run(c, s, steps).b)
    ensures NeverInformed(c, s, steps) && !Informable(c, s, steps)
  {
    RunRefines(c, s, steps);
    var v := URun(c.wndS, Unbounded(s), steps);
    MuteOfRel(c, Run(c, s, steps), v);
    forall more | SendFree(more)
      ensures !Moves(c, s, steps, more)
    {
      MovesExactly(c, s, steps, more);
      MuteForever(c.wndS, v, more);
    }
    forall more: seq<Step<P>> | Plain(more)
      ensures SendFree(more)
    {
      PlainIsSendFree(more);
    }
  }

  /** There is no unconditional progress: from every initial state, one packet accepted at b whose
      stand-alone acknowledgement is lost leaves a waiting for ever, through any number of
      retransmissions, unless one of the users sends again. */
  lemma LostAckStrandsSender<P>(c: Config, s: System<P>, y: P) returns (steps: seq<Step<P>>)
    requires IsInit(c, s) && c.Aligned()
    ensures Mute(c, Run(c, s, steps).a, Run(c, s, steps).b)
    ensures forall more :: SendFree(more) ==> !SendDone(c, Run(c, s, steps + more).a.ep)
  {
    InitRefines(c, s);
    var u := Unbounded(s);
    steps := LoseOneAck(c.wndS, u, y);
    RunRefines(c, s, steps);
    var v := URun(c.wndS, u, steps);
    MuteOfRel(c, Run(c, s, steps), v);
    forall more | SendFree(more)
      ensures !SendDone(c, Run(c, s, steps + more).a.ep)
    {
      RunRefines(c, s, steps + more);
      URunConcat(c.wndS, u, steps, more);
      MuteForever(c.wndS, v, more);
      var t := URun(c.wndS, v, more).a.ep;
      DistOfCounters(c.seqS, |t.log|, t.wnd);
    }
  }

  lemma Extend<P>(w: nat, u: USystem<P>, steps: seq<Step<P>>, v: USystem<P>, step: Step<P>)
    returns (longer: seq<Step<P>>)
    requires UReady(w, u) && v == URun(w, u, steps)
    ensures URun(w, u, longer) == UApply(w, v, step)
  {
    longer := steps + [step];
    URunSnoc(w, u, steps, step);
  }

  lemma LoseOneAck<P>(w: nat, u: USystem<P>, y: P) returns (steps: seq<Step<P>>)
    requires w > 0 && UReady(w, u) && u.a.out == u.b.out == []
    requires u.a.ep == UEndpoint([], 0, 0, u.a.ep.sendTimer, map[], [], 0, u.a.ep.recvTimer)
    requires u.b.ep == UEndpoint([], 0, 0, u.b.ep.sendTimer, map[], [], 0, u.b.ep.recvTimer)
    requires !u.a.ep.sendTimer.Live() && !u.a.ep.recvTimer.Live()
    requires !u.b.ep.sendTimer.Live() && !u.b.ep.recvTimer.Live()
    ensures UMute(URun(w, u, steps).a, URun(w, u, steps).b)
  {
    var prompt, send, tx: Step<P> := Step(false, Op.SetTimeouts(0, 0)), Step(true, Op.Send(y)), Step(true, Transmit);
    var rx, tick: Step<P> := Step(false, Deliver), Step(false, Op.Tick);
    var ack, lose: Step<P> := Step(false, Transmit), Step(true, Lose(0));
    steps := Extend(w, u, [], u, prompt);
    var v1 := UApply(w, u, prompt);
    steps := Extend(w, u, steps, v1, send);
    var v2 := UApply(w, v1, send);
    steps := Extend(w, u, steps, v2, tx);
    var v3 := UApply(w, v2, tx);
    assert v3.a.out == [Data(0, 0, y)];
    steps := Extend(w, u, steps, v3, rx);
    var v4 := UApply(w, v3, rx);
    var got: map<nat, P> := map[0 := y];
    assert UAdvance(got, 0, w) == 1;
    assert v4.b.ep == v3.b.ep.(got := got, acc := 1, recvTimer := v3.b.ep.recvTimer.Started());
    steps := Extend(w, u, steps, v4, tick);
    var v5 := UApply(w, v4, tick);
    steps := Extend(w, u, steps, v5, ack);
    var v6 := UApply(w, v5, ack);
    assert v6.b.out == [AckOnly(1)];
    steps := Extend(w, u, steps, v6, lose);
  }
}
