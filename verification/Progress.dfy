/** When does a sender learn that its packets have arrived? If no acknowledgement is lost, news of every
    accepted packet is always on its way. */
module Progress {
  import opened Modular
  import opened ArqSpec
  import opened Steps
  import opened Network
  import opened UnboundedLink
  import opened Refinement

  /** x knows what y has accepted, or the newest packet from y says so, or y is about to. */
  ghost predicate UReported<P>(x: USide<P>, y: USide<P>) {
    || x.ep.wnd == y.ep.acc
    || (y.out != [] && y.out[|y.out| - 1].acked == y.ep.acc)
    || y.ep.recvTimer.Live()
  }

  ghost predicate Reported<P>(c: Config, x: Side<P>, y: Side<P>)
    requires c.Usable()
  {
    || x.ep.wndpos == Plus(c.seqS, y.ep.recackpos, 1)
    || (exists i :: 0 <= i < |y.out| && y.out[i].ackno == y.ep.recackpos)
    || y.ep.recvTimer.Live()
  }

  predicate KeepsPacketsToA<P>(steps: seq<Step<P>>) {
    forall i :: 0 <= i < |steps| ==> !(steps[i].atA && steps[i].op.Lose?)
  }

  lemma SenderKeepsReported<P>(w: nat, u: USystem<P>, op: Op<P>)
    requires w > 0 && UReady(w, u) && UInv(w, u) && UReported(u.a, u.b) && !op.Lose?
    ensures var u' := UAct(w, u, op); UReported(u'.a, u'.b)
  {
    if (op.Deliver? || op.DeliverCopy?) && u.b.out != [] {
      var p := u.b.out[0];
      assert u.a.ep.wnd <= p.acked <= u.b.ep.acc;
      assert UReceive(w, u.a.ep, p).wnd == p.acked;
    }
  }

  lemma ReceiverKeepsReported<P>(w: nat, u: USystem<P>, op: Op<P>)
    requires w > 0 && UReady(w, u) && UReported(u.b, u.a)
    ensures var u' := UAct(w, u, op); UReported(u'.b, u'.a)
  {
  }

  lemma {:induction false} RunKeepsReported<P>(w: nat, u: USystem<P>, steps: seq<Step<P>>)
    requires w > 0 && UReady(w, u) && UInv(w, u) && UReported(u.a, u.b) && KeepsPacketsToA(steps)
    ensures UReported(URun(w, u, steps).a, URun(w, u, steps).b)
    decreases |steps|
  {
    if |steps| > 0 {
      var init, last := steps[..|steps| - 1], steps[|steps| - 1];
      RunKeepsReported(w, u, init);
      URunKeepsInv(w, u, init);
      var v := URun(w, u, init);
      if last.atA {
        SenderKeepsReported(w, v, last.op);
      } else {
        ReceiverKeepsReported(w, v.Flip(), last.op);
      }
    }
  }

  /** Conditional progress: as long as no packet towards a is lost (packets towards b may be), in every
      state either a knows everything b has accepted in order, or a packet carrying b's current ack
      position is in flight, or b's delayed-ack timer is running or expired. */
  lemma AcksAlwaysComing<P>(c: Config, s: System<P>, steps: seq<Step<P>>)
    requires IsInit(c, s) && c.Aligned() && KeepsPacketsToA(steps)
    ensures Reported(c, Run(c, s, steps).a, Run(c, s, steps).b)
  {
    RunRefines(c, s, steps);
    InitRefines(c, s);
    RunKeepsReported(c.wndS, Unbounded(s), steps);
    var r, u := Run(c, s, steps), URun(c.wndS, Unbounded(s), steps);
    AckFieldAhead(c, u.b.ep.acc);
    if u.b.out != [] {
      var i := |u.b.out| - 1;
      assert RelPacket(c, r.b.out[i], u.b.out[i]);
    }
  }
}
