/** The link that counts modulo SEQ_S and keeps packets in WND_S slots behaves exactly like the link
    with unbounded numbers, provided the slots divide the sequence numbers. */
module Refinement {
  import opened Modular
  import opened Timers
  import opened ArqSpec
  import opened Steps
  import opened Network
  import opened UnboundedLink

  function SlotOf(c: Config, k: nat): (r: nat)
    requires c.wndS > 0
    ensures r < c.wndS
  {
    k % c.wndS
  }

  /** The number a receiver that has accepted `count` packets puts in its ack field. */
  function AckField(c: Config, count: nat): (r: nat)
    requires c.seqS > 0
    ensures r < c.seqS
  {
    (count + c.seqS - 1) % c.seqS
  }

  ghost predicate RelSend<P>(c: Config, e: Endpoint<P>, u: UEndpoint<P>)
    requires Shape(c, e)
  {
    && Ordered(u) && |u.log| <= u.wnd + c.wndS
    && e.seqpos == |u.log| % c.seqS && e.wndpos == u.wnd % c.seqS && e.sendpos == u.sent % c.seqS
    && e.sendTimer == u.sendTimer
    && forall k :: u.wnd <= k < |u.log| ==> e.sendbuf[SlotOf(c, k)] == u.log[k]
  }

  ghost predicate RelRecv<P>(c: Config, e: Endpoint<P>, u: UEndpoint<P>)
    requires Shape(c, e)
  {
    && |u.read| <= u.acc <= |u.read| + c.wndS
    && e.recwndpos == |u.read| % c.seqS && e.recackpos == AckField(c, u.acc)
    && e.recvTimer == u.recvTimer
    && (forall k :: |u.read| <= k < |u.read| + c.wndS ==> (k in u.got <==> e.recvalids[SlotOf(c, k)]))
    && (forall k :: k in u.got ==> |u.read| <= k < |u.read| + c.wndS && e.recbuf[SlotOf(c, k)] == u.got[k])
  }

  ghost predicate RelPacket<P>(c: Config, p: Packet<P>, q: UPacket<P>)
    requires c.seqS > 0
  {
    && p.seqvalid == q.Data?
    && (q.Data? ==> p.seqno == q.n % c.seqS && p.data == q.data)
    && p.ackno == AckField(c, q.acked)
  }

  ghost predicate RelSide<P>(c: Config, s: Side<P>, u: USide<P>)
    requires Shape(c, s.ep)
  {
    && RelSend(c, s.ep, u.ep) && RelRecv(c, s.ep, u.ep)
    && s.sent == u.ep.log && s.read == u.ep.read
    && |s.out| == |u.out|
    && forall i :: 0 <= i < |s.out| ==> RelPacket(c, s.out[i], u.out[i])
  }

  ghost predicate Rel<P>(c: Config, s: System<P>, u: USystem<P>) {
    Ready(c, s) && RelSide(c, s.a, u.a) && RelSide(c, s.b, u.b)
  }

  // ---------------------------------------------------------------- arithmetic of the encoding

  lemma SameCounter(c: Config, x: nat, y: nat)
    requires c.Usable() && y <= x < y + c.seqS
    ensures x % c.seqS == y % c.seqS <==> x == y
  {
    DistOfCounters(c.seqS, x, y);
  }

  lemma AckFieldAhead(c: Config, count: nat)
    requires c.Usable()
    ensures AckField(c, count) == if count % c.seqS == 0 then c.seqS - 1 else count % c.seqS - 1
    ensures Plus(c.seqS, AckField(c, count), 1) == count % c.seqS
  {
    AddOfCounter(c.seqS, count, c.seqS - 1);
    var r := count % c.seqS;
    if r == 0 {
      ModUnique(c.seqS, r + c.seqS - 1, 0, c.seqS - 1);
    } else {
      ModUnique(c.seqS, r + c.seqS - 1, 1, r - 1);
    }
  }

  /** An ack for a count inside the send window is told apart exactly: a repeat lies at distance
      SEQ_S - 1, anything newer at one less than the number of packets it acknowledges. */
  lemma AckDecision(c: Config, wnd: nat, count: nat)
    requires c.Usable() && wnd <= count <= wnd + c.wndS
    ensures Dist(c.seqS, AckField(c, count), wnd % c.seqS) ==
            if count == wnd then c.seqS - 1 else count - wnd - 1
  {
    AckFieldAhead(c, count);
    DistOfCounters(c.seqS, count, wnd);
  }

  /** Three windows around the read position are told apart modulo SEQ_S: old packets and packets beyond
      the window both land outside it. */
  lemma WindowDecision(c: Config, read: nat, n: nat)
    requires c.Usable() && 2 * c.wndS <= c.seqS
    requires read <= n + c.wndS && n < read + 2 * c.wndS
    ensures Dist(c.seqS, n % c.seqS, read % c.seqS) < c.wndS <==> read <= n < read + c.wndS
  {
    DistOfCounters(c.seqS, n, read);
  }

  lemma AlignedTwoWindows(c: Config)
    requires c.Usable() && c.Aligned()
    ensures 2 * c.wndS <= c.seqS
  {
    var k := c.seqS / c.wndS;
    assert c.seqS == c.wndS * k;
    assert c.wndS * (k - 1) == c.seqS - c.wndS;
    NoMultipleBetween(c.wndS, k - 1);
  }

  // ---------------------------------------------------------------- one operation

  lemma SendRefines<P>(c: Config, e: Endpoint<P>, u: UEndpoint<P>, p: P)
    requires Shape(c, e) && c.Aligned() && RelSend(c, e, u)
    ensures RelSend(c, ArqSpec.Send(c, e, p), USend(c.wndS, u, p))
    ensures CanSend(c, e) <==> |u.log| - u.wnd < c.wndS
  {
    DistOfCounters(c.seqS, |u.log|, u.wnd);
    SlotOfCounter(c.seqS, c.wndS, |u.log|);
    AddOfCounter(c.seqS, |u.log|, 1);
    forall k: nat | u.wnd <= k < |u.log| && |u.log| - u.wnd < c.wndS
      ensures SlotOf(c, k) != SlotOf(c, |u.log|)
    {
      SlotsDistinct(c.wndS, k, |u.log|);
    }
  }

  /** There is something new to transmit on both sides or on neither, and likewise something held. */
  lemma SameBacklog<P>(c: Config, e: Endpoint<P>, u: UEndpoint<P>)
    requires Shape(c, e) && RelSend(c, e, u)
    ensures Dist(c.seqS, e.seqpos, e.sendpos) > 0 <==> |u.log| > u.sent
    ensures e.seqpos == e.wndpos <==> |u.log| == u.wnd
  {
    DistOfCounters(c.seqS, |u.log|, u.sent);
    SameCounter(c, |u.log|, u.wnd);
  }

  lemma SamePayload<P>(c: Config, e: Endpoint<P>, u: UEndpoint<P>, k: nat)
    requires Shape(c, e) && c.Aligned() && RelSend(c, e, u) && u.wnd <= k < |u.log|
    ensures e.sendbuf[Slot(c.wndS, k % c.seqS)] == u.log[k]
  {
    SlotOfCounter(c.seqS, c.wndS, k);
    assert e.sendbuf[SlotOf(c, k)] == u.log[k];
  }

  lemma TransmitRefines<P>(c: Config, e: Endpoint<P>, u: UEndpoint<P>)
    requires Shape(c, e) && c.Aligned() && RelSend(c, e, u) && RelRecv(c, e, u)
    requires u.sendTimer.timeout ==> u.wnd < |u.log|
    ensures RelSend(c, GetSendData(c, e).0, UTransmit(u).0)
    ensures RelRecv(c, GetSendData(c, e).0, UTransmit(u).0)
    ensures GetSendData(c, e).1.Some? <==> UTransmit(u).1.Some?
    ensures GetSendData(c, e).1.Some? ==> RelPacket(c, GetSendData(c, e).1.value, UTransmit(u).1.value)
  {
    SameBacklog(c, e, u);
    AddOfCounter(c.seqS, u.sent, 1);
    if u.wnd < |u.log| {
      SamePayload(c, e, u, u.wnd);
    }
    if u.sent < |u.log| {
      SamePayload(c, e, u, u.sent);
    }
  }

  lemma AckRefines<P>(c: Config, e: Endpoint<P>, u: UEndpoint<P>, p: Packet<P>, q: UPacket<P>)
    requires Shape(c, e) && c.Aligned() && RelSend(c, e, u) && RelRecv(c, e, u) && RelPacket(c, p, q)
    requires u.wnd <= q.acked <= u.sent
    ensures RelSend(c, ReceiveAck(c, e, p), UReceiveAck(u, q))
    ensures RelRecv(c, ReceiveAck(c, e, p), UReceiveAck(u, q))
  {
    AckDecision(c, u.wnd, q.acked);
    DistOfCounters(c.seqS, u.sent, u.wnd);
    if u.wnd < q.acked {
      AddOfCounter(c.seqS, u.wnd, q.acked - u.wnd);
      SameCounter(c, u.sent, q.acked);
    }
  }

  /** What the ack loop looks at when `acc` packets are accepted: the slot of the next one, and how far that lies
      in the window. */
  lemma LoopStep(c: Config, read: nat, acc: nat)
    requires c.Usable() && c.Aligned() && read <= acc <= read + c.wndS
    ensures Slot(c.wndS, Plus(c.seqS, AckField(c, acc), 1)) == SlotOf(c, acc)
    ensures Dist(c.seqS, AckField(c, acc) + 1, read % c.seqS) == acc - read
    ensures Plus(c.seqS, AckField(c, acc), 1) == AckField(c, acc + 1)
  {
    AckFieldAhead(c, acc);
    SlotOfCounter(c.seqS, c.wndS, acc);
    LoopDistance(c, read, acc);
    ModPeriod(c.seqS, acc);
    assert acc + 1 + c.seqS - 1 == acc + c.seqS;
  }

  lemma LoopDistance(c: Config, read: nat, acc: nat)
    requires c.Usable() && read <= acc <= read + c.wndS
    ensures Dist(c.seqS, AckField(c, acc) + 1, read % c.seqS) == acc - read
  {
    AckFieldAhead(c, acc);
    DistOfCounters(c.seqS, acc, read);
  }

  /** The loop over slots stops where the loop over numbers does. */
  lemma {:induction false} AdvanceRefines<P>(c: Config, valids: seq<bool>, got: map<nat, P>, read: nat, acc: nat)
    requires c.Usable() && c.Aligned() && |valids| == c.wndS && read <= acc <= read + c.wndS
    requires forall k :: read <= k < read + c.wndS ==> (k in got <==> valids[SlotOf(c, k)])
    ensures Advance(c, valids, read % c.seqS, AckField(c, acc))
         == AckField(c, UAdvance(got, acc, read + c.wndS))
    decreases read + c.wndS - acc
  {
    LoopStep(c, read, acc);
    if acc < read + c.wndS && acc in got {
      AdvanceRefines(c, valids, got, read, acc + 1);
    }
  }

  lemma WindowSlots(c: Config, read: nat, n: nat, k: nat)
    requires c.Usable() && read <= n < read + c.wndS && read <= k < read + c.wndS
    ensures SlotOf(c, k) == SlotOf(c, n) <==> k == n
  {
    if k < n {
      SlotsDistinct(c.wndS, k, n);
    } else if n < k {
      SlotsDistinct(c.wndS, n, k);
    }
  }

  /** A packet accepted into its slot is the packet accepted under its number. */
  lemma AcceptRefines<P>(c: Config, e: Endpoint<P>, u: UEndpoint<P>, n: nat, data: P)
    requires Shape(c, e) && c.Aligned() && RelRecv(c, e, u)
    requires |u.read| <= n < |u.read| + c.wndS && n !in u.got
    ensures var got, valids := u.got[n := data], e.recvalids[SlotOf(c, n) := true];
            RelRecv(c, e.(recbuf := e.recbuf[SlotOf(c, n) := data], recvalids := valids,
                          recackpos := Advance(c, valids, e.recwndpos, e.recackpos),
                          recvTimer := e.recvTimer.Continued()),
                    u.(got := got, acc := UAdvance(got, u.acc, |u.read| + c.wndS),
                       recvTimer := u.recvTimer.Continued()))
  {
    var got, valids := u.got[n := data], e.recvalids[SlotOf(c, n) := true];
    forall k: nat | |u.read| <= k < |u.read| + c.wndS
      ensures SlotOf(c, k) == SlotOf(c, n) <==> k == n
    {
      WindowSlots(c, |u.read|, n, k);
    }
    AdvanceRefines(c, valids, got, |u.read|, u.acc);
  }

  /** Out of window, already received, or accepted: the decision on slots and reduced numbers is the
      decision on absolute ones for every packet within three windows of the read position. */
  lemma DataRefines<P>(c: Config, e: Endpoint<P>, u: UEndpoint<P>, p: Packet<P>, q: UPacket<P>)
    requires Shape(c, e) && c.Aligned() && RelRecv(c, e, u) && RelPacket(c, p, q)
    requires q.Data? ==> |u.read| <= q.n + c.wndS && q.n < |u.read| + 2 * c.wndS
    ensures RelRecv(c, ReceiveData(c, e, p), UReceiveData(c.wndS, u, q))
    ensures ReceiveData(c, e, p) == e <==> UReceiveData(c.wndS, u, q) == u
  {
    if q.Data? {
      AlignedTwoWindows(c);
      WindowDecision(c, |u.read|, q.n);
      SlotOfCounter(c.seqS, c.wndS, q.n);
      if |u.read| <= q.n < |u.read| + c.wndS && q.n !in u.got {
        AcceptRefines(c, e, u, q.n, q.data);
        assert ReceiveData(c, e, p).recvalids[SlotOf(c, q.n)] && !e.recvalids[SlotOf(c, q.n)];
        assert q.n in UReceiveData(c.wndS, u, q).got;
      }
    }
  }

  lemma ReadRefines<P>(c: Config, e: Endpoint<P>, u: UEndpoint<P>)
    requires Shape(c, e) && c.Aligned() && RelRecv(c, e, u)
    requires |u.read| in u.got ==> |u.read| < u.acc
    ensures HasReadData(c, e) <==> |u.read| in u.got
    ensures HasReadData(c, e) ==> RelRecv(c, ArqSpec.Read(c, e).0, URead(u))
    ensures HasReadData(c, e) ==> ArqSpec.Read(c, e).1 == u.got[|u.read|]
  {
    var r := |u.read|;
    SlotOfCounter(c.seqS, c.wndS, r);
    AddOfCounter(c.seqS, r, 1);
    if r in u.got {
      ModPeriod(c.wndS, r);
      assert SlotOf(c, r + c.wndS) == SlotOf(c, r);
      forall k: nat | r < k < r + c.wndS
        ensures SlotOf(c, k) != SlotOf(c, r)
      {
        SlotsDistinct(c.wndS, r, k);
      }
    }
  }

  // ---------------------------------------------------------------- the whole system

  lemma DeliverRefines<P>(c: Config, x: Side<P>, y: Side<P>, ux: USide<P>, uy: USide<P>)
    requires Shape(c, x.ep) && Shape(c, y.ep) && c.Aligned()
    requires RelSide(c, x, ux) && RelSide(c, y, uy) && Half(c.wndS, ux, uy) && Half(c.wndS, uy, ux)
    requires |y.out| > 0
    ensures RelSide(c, x.(ep := Receive(c, x.ep, y.out[0])), ux.(ep := UReceive(c.wndS, ux.ep, uy.out[0])))
  {
    var p, q := y.out[0], uy.out[0];
    if q.Data? {
      InFlightRange(c.wndS, uy, ux, 0);
    }
    DataRefines(c, x.ep, ux.ep, p, q);
    AckRefines(c, ReceiveData(c, x.ep, p), UReceiveData(c.wndS, ux.ep, q), p, q);
  }

  lemma PopRefines<P>(c: Config, y: Side<P>, uy: USide<P>, i: nat)
    requires Shape(c, y.ep) && RelSide(c, y, uy) && i < |y.out|
    ensures RelSide(c, y.(out := y.out[1..]), uy.(out := uy.out[1..]))
    ensures RelSide(c, y.(out := Without(y.out, i)), uy.(out := Without(uy.out, i)))
  {
  }

  lemma TransmitActRefines<P>(c: Config, x: Side<P>, ux: USide<P>)
    requires Shape(c, x.ep) && c.Aligned() && RelSide(c, x, ux)
    requires ux.ep.sendTimer.timeout ==> ux.ep.wnd < |ux.ep.log|
    ensures var (e, p) := GetSendData(c, x.ep);
            var (e', q) := UTransmit(ux.ep);
            RelSide(c, x.(ep := e, out := if p.Some? then x.out + [p.value] else x.out),
                    USide(e', if q.Some? then ux.out + [q.value] else ux.out))
  {
    TransmitRefines(c, x.ep, ux.ep);
    var q := UTransmit(ux.ep);
    assert q.0.log == ux.ep.log && q.0.read == ux.ep.read;
  }

  lemma SendActRefines<P>(c: Config, x: Side<P>, ux: USide<P>, p: P)
    requires Shape(c, x.ep) && c.Aligned() && RelSide(c, x, ux)
    ensures RelSide(c, x.(ep := ArqSpec.Send(c, x.ep, p), sent := if CanSend(c, x.ep) then x.sent + [p] else x.sent),
                    ux.(ep := USend(c.wndS, ux.ep, p)))
  {
    SendRefines(c, x.ep, ux.ep, p);
  }

  lemma ReadActRefines<P>(c: Config, x: Side<P>, ux: USide<P>)
    requires Shape(c, x.ep) && c.Aligned() && RelSide(c, x, ux)
    requires |ux.ep.read| in ux.ep.got ==> |ux.ep.read| < ux.ep.acc
    ensures HasReadData(c, x.ep) <==> |ux.ep.read| in ux.ep.got
    ensures HasReadData(c, x.ep) ==>
              var (e, p) := ArqSpec.Read(c, x.ep);
              RelSide(c, x.(ep := e, read := x.read + [p]), ux.(ep := URead(ux.ep)))
  {
    ReadRefines(c, x.ep, ux.ep);
  }

  /** Timers are the same on both sides. */
  lemma TimersRefine<P>(c: Config, x: Side<P>, ux: USide<P>, st: TimerState, rt: TimerState)
    requires Shape(c, x.ep) && RelSide(c, x, ux)
    ensures RelSide(c, x.(ep := x.ep.(sendTimer := st, recvTimer := rt)),
                    ux.(ep := ux.ep.(sendTimer := st, recvTimer := rt)))
  {
  }

  lemma LocalActRefines<P>(c: Config, s: System<P>, u: USystem<P>, op: Op<P>)
    requires c.Usable() && c.Aligned() && Rel(c, s, u) && UReady(c.wndS, u) && UInv(c.wndS, u)
    requires op.Send? || op.Transmit? || op.Read? || op.Tick? || op.SetTimeouts?
    ensures Rel(c, Act(c, s, op), UAct(c.wndS, u, op))
  {
    var e := s.a.ep;
    match op
    case Send(p) => SendActRefines(c, s.a, u.a, p);
    case Transmit => TransmitActRefines(c, s.a, u.a);
    case Read => ReadActRefines(c, s.a, u.a);
    case Tick => TimersRefine(c, s.a, u.a, e.sendTimer.Ticked(), e.recvTimer.Ticked());
    case SetTimeouts(tx, rx) => TimersRefine(c, s.a, u.a, e.sendTimer.WithLimit(tx), e.recvTimer.WithLimit(rx));
  }

  lemma ActRefines<P>(c: Config, s: System<P>, u: USystem<P>, op: Op<P>)
    requires c.Usable() && c.Aligned() && Rel(c, s, u) && UReady(c.wndS, u) && UInv(c.wndS, u)
    ensures Rel(c, Act(c, s, op), UAct(c.wndS, u, op))
  {
    if op.Deliver? || op.DeliverCopy? {
      if |s.b.out| > 0 {
        DeliverRefines(c, s.a, s.b, u.a, u.b);
        PopRefines(c, s.b, u.b, 0);
      }
    } else if op.Lose? {
      if op.index < |s.b.out| {
        PopRefines(c, s.b, u.b, op.index);
      }
    } else {
      LocalActRefines(c, s, u, op);
    }
  }

  function Fresh<P>(e: Endpoint<P>): USide<P> {
    USide(UEndpoint([], 0, 0, e.sendTimer, map[], [], 0, e.recvTimer), [])
  }

  function Unbounded<P>(s: System<P>): USystem<P> {
    USystem(Fresh(s.a.ep), Fresh(s.b.ep))
  }

  lemma InitRefines<P>(c: Config, s: System<P>)
    requires IsInit(c, s)
    ensures UReady(c.wndS, Unbounded(s)) && UInv(c.wndS, Unbounded(s)) && Rel(c, s, Unbounded(s))
  {
    AckFieldAhead(c, 0);
  }

  /** In every run, the link modulo SEQ_S is the image of the unbounded link doing the same. */
  lemma {:induction false} RunRefines<P>(c: Config, s: System<P>, steps: seq<Step<P>>)
    requires IsInit(c, s) && c.Aligned()
    ensures UReady(c.wndS, Unbounded(s))
    ensures UInv(c.wndS, URun(c.wndS, Unbounded(s), steps))
    ensures Rel(c, Run(c, s, steps), URun(c.wndS, Unbounded(s), steps))
    decreases |steps|
  {
    InitRefines(c, s);
    URunKeepsInv(c.wndS, Unbounded(s), steps);
    if |steps| > 0 {
      var init, last := steps[..|steps| - 1], steps[|steps| - 1];
      RunRefines(c, s, init);
      var m, v := Run(c, s, init), URun(c.wndS, Unbounded(s), init);
      if last.atA {
        ActRefines(c, m, v, last.op);
      } else {
        ActRefines(c, m.Flip(), v.Flip(), last.op);
      }
    }
  }
}
