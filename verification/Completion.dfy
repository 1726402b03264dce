/** Can everything one user has sent still reach the other? A retransmission repeats the oldest packet only, so
    a sender that can never learn how far its peer has got can never resend what comes after. */
module Completion {
  import opened Modular
  import opened ArqSpec
  import opened Steps
  import opened Network
  import opened UnboundedLink
  import opened Refinement
  import opened Progress
  import opened Stranded

  // ---------------------------------------------------------------- once cut off, cut off for ever

  lemma CutSender<P>(w: nat, u: USystem<P>, op: Op<P>)
    requires w > 0 && UReady(w, u) && UInv(w, u) && UCut(u.a, u.b) && !op.Send?
    ensures var u' := UAct(w, u, op); UCut(u'.a, u'.b) && u'.b.ep.acc == u.b.ep.acc
  {
  }

  lemma CutReceiver<P>(w: nat, u: USystem<P>, op: Op<P>)
    requires w > 0 && UReady(w, u) && UInv(w, u) && UCut(u.b, u.a) && !op.Send?
    ensures var u' := UAct(w, u, op); UCut(u'.b, u'.a) && u'.a.ep.acc == u.a.ep.acc
  {
    if (op.Deliver? || op.DeliverCopy?) && u.b.out != [] {
      assert !Wanted(u.a.ep, u.b.out[0]);
      assert UReceiveData(w, u.a.ep, u.b.out[0]) == u.a.ep;
    }
  }

  lemma {:induction false} CutForever<P>(w: nat, u: USystem<P>, steps: seq<Step<P>>)
    requires w > 0 && UReady(w, u) && UInv(w, u) && UCut(u.a, u.b) && SendFree(steps)
    ensures var r := URun(w, u, steps); UCut(r.a, r.b) && r.b.ep.acc == u.b.ep.acc
    decreases |steps|
  {
    if |steps| > 0 {
      var init, last := steps[..|steps| - 1], steps[|steps| - 1];
      CutForever(w, u, init);
      URunKeepsInv(w, u, init);
      var v := URun(w, u, init);
      if last.atA {
        CutSender(w, v, last.op);
      } else {
        CutReceiver(w, v.Flip(), last.op);
      }
    }
  }

  // ---------------------------------------------------------------- otherwise everything can get through

  /** The timer of an outstanding packet is let run until it expires. */
  lemma {:induction false} TickUntilDue<P(!new)>(w: nat, u: USystem<P>, v: USystem<P>, left: nat)
    returns (r: USystem<P>)
    requires OnTheWay(w, u, v)
    requires v.a.ep.sendTimer.timeout || (v.a.ep.sendTimer.enabled && v.a.ep.sendTimer.value <= left)
    ensures OnTheWay(w, u, r) && r.b == v.b && r.a.out == v.a.out && r.a.ep.sendTimer.timeout
    ensures r.a.ep.log == v.a.ep.log && r.a.ep.wnd == v.a.ep.wnd && r.a.ep.sent == v.a.ep.sent
    decreases left
  {
    r := v;
    if !v.a.ep.sendTimer.timeout {
      Onward(w, u, v, Step(true, Op.Tick));
      r := UApply(w, v, Step(true, Op.Tick));
      if !r.a.ep.sendTimer.timeout {
        r := TickUntilDue(w, u, r, left - 1);
      }
    }
  }

  /** a puts the packet at its window start in flight, for the first time or again. */
  lemma LaunchOldest<P(!new)>(w: nat, u: USystem<P>, v: USystem<P>) returns (r: USystem<P>)
    requires OnTheWay(w, u, v) && v.a.ep.wnd < |v.a.ep.log|
    ensures OnTheWay(w, u, r) && r.b == v.b && r.a.ep.log == v.a.ep.log
    ensures |r.a.out| == |v.a.out| + 1 && r.a.out[|v.a.out|].Data? && r.a.out[|v.a.out|].n == v.a.ep.wnd
  {
    r := v;
    if v.a.ep.wnd < v.a.ep.sent && !v.a.ep.sendTimer.timeout {
      r := TickUntilDue(w, u, v, v.a.ep.sendTimer.value);
    }
    Onward(w, u, r, Step(true, Transmit));
    r := UApply(w, r, Step(true, Transmit));
  }

  lemma FirstMissing<P>(w: nat, v: USystem<P>)
    requires UInv(w, v)
    ensures v.b.ep.acc !in v.b.ep.got
  {
  }

  /** The packet b waits for, delivered after everything before it, moves b's accepted count. */
  lemma DeliverAwaited<P(!new)>(w: nat, u: USystem<P>, v: USystem<P>, i: nat) returns (r: USystem<P>)
    requires OnTheWay(w, u, v) && |v.b.ep.read| == v.b.ep.acc
    requires i < |v.a.out| && v.a.out[i].Data? && v.a.out[i].n == v.b.ep.acc
    ensures OnTheWay(w, u, r) && r.a.ep == v.a.ep
    ensures r.b.ep.acc > v.b.ep.acc && r.b.ep.recvTimer.Live()
  {
    FirstMissing(w, v);
    r := DeliverData(w, u, v, i);
    FirstMissing(w, r);
  }

  /** In step, one more packet gets through; b then has an acknowledgement to send. */
  lemma OneMore<P(!new)>(w: nat, u: USystem<P>, v: USystem<P>) returns (r: USystem<P>)
    requires OnTheWay(w, u, v) && InStep(v) && v.b.ep.acc < |v.a.ep.log|
    ensures OnTheWay(w, u, r) && r.a.ep.log == v.a.ep.log
    ensures r.b.ep.acc > v.b.ep.acc && r.b.ep.recvTimer.Live()
  {
    r := ReadAll(w, u, v);
    r := LaunchOldest(w, u, r);
    r := DeliverAwaited(w, u, r, |v.a.out|);
  }

  /** Unless b is cut off, all the rest can be delivered and read. */
  lemma {:induction false} DeliverRest<P(!new)>(w: nat, u: USystem<P>, v: USystem<P>) returns (r: USystem<P>)
    requires OnTheWay(w, u, v) && (v.b.ep.acc == |v.a.ep.log| || !UCut(v.a, v.b))
    ensures OnTheWay(w, u, r) && r.a.ep.log == v.a.ep.log && r.b.ep.read == r.a.ep.log
    decreases |v.a.ep.log| - v.b.ep.acc
  {
    if v.b.ep.acc == |v.a.ep.log| {
      r := ReadAll(w, u, v);
    } else {
      r := IntoStep(w, u, v);
      if r.b.ep.acc < |v.a.ep.log| {
        r := OneMore(w, u, r);
      }
      r := DeliverRest(w, u, r);
    }
  }

  ghost predicate Completable<P(!new)>(w: nat, u: USystem<P>)
    requires UReady(w, u)
  {
    exists v :: Leads(w, u, v) && v.b.ep.read == v.a.ep.log
  }

  lemma UCompletableExactly<P(!new)>(w: nat, u: USystem<P>)
    requires w > 0 && UReady(w, u) && UInv(w, u) && EndArmable(u.a.ep) && EndArmable(u.b.ep)
    ensures Completable(w, u) <==> u.b.ep.acc == |u.a.ep.log| || !UCut(u.a, u.b)
  {
    if u.b.ep.acc == |u.a.ep.log| || !UCut(u.a, u.b) {
      StartsOnTheWay(w, u);
      var r := DeliverRest(w, u, u);
    } else {
      forall v | Leads(w, u, v)
        ensures v.b.ep.read != v.a.ep.log
      {
        var steps: seq<Step<P>> :| Plain(steps) && URun(w, u, steps) == v;
        PlainIsSendFree(steps);
        NeverComplete(w, u, steps);
      }
    }
  }

  lemma NeverComplete<P>(w: nat, u: USystem<P>, steps: seq<Step<P>>)
    requires w > 0 && UReady(w, u) && UInv(w, u) && UCut(u.a, u.b) && u.b.ep.acc < |u.a.ep.log| && SendFree(steps)
    ensures var r := URun(w, u, steps); |r.b.ep.read| < |r.a.ep.log|
  {
    CutForever(w, u, steps);
    URunKeepsInv(w, u, steps);
    LogFixed(w, u, steps);
  }

  // ---------------------------------------------------------------- the link as implemented

  /** y has accepted more than x knows, no ack in flight says how much, and y is silent. */
  ghost predicate Cut<P>(c: Config, x: Side<P>, y: Side<P>)
    requires Shape(c, x.ep) && Shape(c, y.ep)
  {
    && x.ep.wndpos != Plus(c.seqS, y.ep.recackpos, 1)
    && (forall i :: 0 <= i < |y.out| ==> y.out[i].ackno != y.ep.recackpos)
    && Silent(c, x, y)
  }

  /** y has accepted in order everything x holds. */
  predicate AllAccepted<P>(c: Config, x: Side<P>, y: Side<P>)
    requires c.Usable()
  {
    x.ep.seqpos == Plus(c.seqS, y.ep.recackpos, 1)
  }

  lemma CutOfRel<P>(c: Config, r: System<P>, u: USystem<P>)
    requires c.Usable() && c.Aligned() && Rel(c, r, u) && UInv(c.wndS, u)
    ensures Cut(c, r.a, r.b) <==> UCut(u.a, u.b)
    ensures AllAccepted(c, r.a, r.b) <==> u.b.ep.acc == |u.a.ep.log|
  {
    SilentOfRel(c, r, u);
    AcksOfRel(c, r, u);
    AckFieldAhead(c, u.b.ep.acc);
    SameCounter(c, |u.a.ep.log|, u.b.ep.acc);
  }

  /** After a continuation, b's user has read all that a's Send ever accepted. */
  predicate Completes<P(==)>(c: Config, s: System<P>, steps: seq<Step<P>>, more: seq<Step<P>>)
    requires Ready(c, s)
  {
    Run(c, s, steps + more).b.read == Run(c, s, steps + more).a.sent
  }

  ghost predicate CanComplete<P(!new)>(c: Config, s: System<P>, steps: seq<Step<P>>)
    requires Ready(c, s)
  {
    exists more :: Plain(more) && Completes(c, s, steps, more)
  }

  ghost predicate NeverCompletes<P(!new)>(c: Config, s: System<P>, steps: seq<Step<P>>)
    requires Ready(c, s)
  {
    forall more :: SendFree(more) ==> !Completes(c, s, steps, more)
  }

  lemma CompletesOfRel<P>(c: Config, s: System<P>, steps: seq<Step<P>>, more: seq<Step<P>>)
    requires IsInit(c, s) && c.Aligned()
    ensures UReady(c.wndS, Unbounded(s))
    ensures var r := URun(c.wndS, URun(c.wndS, Unbounded(s), steps), more);
            Completes(c, s, steps, more) <==> r.b.ep.read == r.a.ep.log
  {
    RunRefines(c, s, steps + more);
    InitRefines(c, s);
    URunConcat(c.wndS, Unbounded(s), steps, more);
  }

  /** In every state of every run without negative timeouts: the link by itself can still bring the second user
      everything the first one sent if and only if b has accepted it all already, or b is not cut off. If it
      cannot, not even new timeouts or repeated deliveries help. */
  lemma CompletableExactly<P(!new)>(c: Config, s: System<P>, steps: seq<Step<P>>)
    requires IsInit(c, s) && c.Aligned() && NoNegativeTimeout(s, steps)
    ensures var r := Run(c, s, steps);
            var open := AllAccepted(c, r.a, r.b) || !Cut(c, r.a, r.b);
            (CanComplete(c, s, steps) <==> open) && (NeverCompletes(c, s, steps) <==> !open)
  {
    var r := Run(c, s, steps);
    if AllAccepted(c, r.a, r.b) || !Cut(c, r.a, r.b) {
      CompletableUnlessCut(c, s, steps);
    } else {
      CutNeverCompletes(c, s, steps);
    }
  }

  lemma CompletableUnlessCut<P(!new)>(c: Config, s: System<P>, steps: seq<Step<P>>)
    requires IsInit(c, s) && c.Aligned() && NoNegativeTimeout(s, steps)
    requires var r := Run(c, s, steps); AllAccepted(c, r.a, r.b) || !Cut(c, r.a, r.b)
    ensures CanComplete(c, s, steps) && !NeverCompletes(c, s, steps)
  {
    RunRefines(c, s, steps);
    var v := URun(c.wndS, Unbounded(s), steps);
    CutOfRel(c, Run(c, s, steps), v);
    TimersArmable(c.wndS, Unbounded(s), steps);
    UCompletableExactly(c.wndS, v);
    var t :| Leads(c.wndS, v, t) && t.b.ep.read == t.a.ep.log;
    var more: seq<Step<P>> :| Plain(more) && URun(c.wndS, v, more) == t;
    PlainIsSendFree(more);
    CompletesOfRel(c, s, steps, more);
  }

  lemma CutNeverCompletes<P(!new)>(c: Config, s: System<P>, steps: seq<Step<P>>)
    requires IsInit(c, s) && c.Aligned()
    requires var r := Run(c, s, steps); !AllAccepted(c, r.a, r.b) && Cut(c, r.a, r.b)
    ensures NeverCompletes(c, s, steps) && !CanComplete(c, s, steps)
  {
    RunRefines(c, s, steps);
    var v := URun(c.wndS, Unbounded(s), steps);
    CutOfRel(c, Run(c, s, steps), v);
    forall more | SendFree(more)
      ensures !Completes(c, s, steps, more)
    {
      CompletesOfRel(c, s, steps, more);
      NeverComplete(c.wndS, v, more);
    }
    forall more: seq<Step<P>> | Plain(more)
      ensures SendFree(more)
    {
      PlainIsSendFree(more);
    }
  }

  /** The delivery guarantee: as long as no packet towards a is lost, however many packets towards b are, the link
      by itself can always still bring the second user everything the first one sent. */
  lemma AlwaysCompletable<P(!new)>(c: Config, s: System<P>, steps: seq<Step<P>>)
    requires IsInit(c, s) && c.Aligned() && NoNegativeTimeout(s, steps) && KeepsPacketsToA(steps)
    ensures CanComplete(c, s, steps)
  {
    AcksAlwaysComing(c, s, steps);
    CompletableUnlessCut(c, s, steps);
  }
}
