/** What the two users of a link can rely on, in every run of the link as implemented. */
module Delivery {
  import opened Modular
  import opened ArqSpec
  import opened Steps
  import opened Wrappers
  import opened Network
  import opened UnboundedLink
  import opened Refinement

  /** The accepted, unread packets up to the first gap, in order. */
  function InOrder<P>(c: Config, e: Endpoint<P>): (r: seq<P>)
    requires Shape(c, e)
    ensures |r| == RunLength(c, e)
  {
    seq(RunLength(c, e), k requires 0 <= k < RunLength(c, e) && Shape(c, e) =>
      e.recbuf[Slot(c.wndS, Plus(c.seqS, e.recwndpos, k))])
  }

  /** The packets from the send window to the last one accepted by Send, in order. */
  function Held<P>(c: Config, e: Endpoint<P>): (r: seq<P>)
    requires Shape(c, e)
    ensures |r| == Buffered(c, e)
  {
    seq(Buffered(c, e), k requires 0 <= k < Buffered(c, e) && Shape(c, e) =>
      e.sendbuf[Slot(c.wndS, Plus(c.seqS, e.wndpos, k))])
  }

  /** How many packets end y has accepted in order that end x does not know of yet. */
  function Unacknowledged<P>(c: Config, x: Endpoint<P>, y: Endpoint<P>): nat
    requires c.Usable()
  {
    Dist(c.seqS, y.recackpos + 1, x.wndpos)
  }

  lemma InOrderIsPrefix<P>(c: Config, e: Endpoint<P>, u: UEndpoint<P>, log: seq<P>)
    requires Shape(c, e) && c.Aligned() && RelRecv(c, e, u)
    requires u.acc <= |log| && forall k :: |u.read| <= k < u.acc ==> k in u.got && u.got[k] == log[k]
    ensures InOrder(c, e) == log[|u.read|..u.acc]
  {
    AckFieldAhead(c, u.acc);
    DistOfCounters(c.seqS, u.acc, |u.read|);
    assert RunLength(c, e) == u.acc - |u.read|;
    forall k: nat | k < RunLength(c, e)
      ensures InOrder(c, e)[k] == log[|u.read| + k]
    {
      AddOfCounter(c.seqS, |u.read|, k);
      SlotOfCounter(c.seqS, c.wndS, |u.read| + k);
      assert |u.read| + k in u.got;
    }
  }

  /** Every slot of the send window still holds the payload originally stored for its position. */
  lemma HeldIsSuffix<P>(c: Config, e: Endpoint<P>, u: UEndpoint<P>)
    requires Shape(c, e) && c.Aligned() && RelSend(c, e, u)
    ensures Held(c, e) == u.log[u.wnd..]
  {
    DistOfCounters(c.seqS, |u.log|, u.wnd);
    forall k: nat | k < Buffered(c, e)
      ensures Held(c, e)[k] == u.log[u.wnd + k]
    {
      AddOfCounter(c.seqS, u.wnd, k);
      SlotOfCounter(c.seqS, c.wndS, u.wnd + k);
      assert e.sendbuf[SlotOf(c, u.wnd + k)] == u.log[u.wnd + k];
    }
  }

  /** What one direction of a link guarantees in every state: x sends, y receives. */
  ghost predicate Conserved<P>(c: Config, x: Side<P>, y: Side<P>)
    requires Shape(c, x.ep) && Shape(c, y.ep)
  {
    && Unacknowledged(c, x.ep, y.ep) <= Buffered(c, x.ep)
    && x.sent == y.read + InOrder(c, y.ep) + Held(c, x.ep)[Unacknowledged(c, x.ep, y.ep)..]
  }

  lemma SplitAt<T>(log: seq<T>, i: nat, j: nat, k: nat)
    requires i <= j <= |log| && k <= j
    ensures log == log[..i] + log[i..j] + log[k..][j - k..]
  {
  }

  lemma UnacknowledgedCount<P>(c: Config, x: Endpoint<P>, y: Endpoint<P>, u: UEndpoint<P>, v: UEndpoint<P>)
    requires Shape(c, x) && Shape(c, y) && RelSend(c, x, u) && RelRecv(c, y, v) && Counters(c.wndS, u, v)
    ensures Unacknowledged(c, x, y) == v.acc - u.wnd
    ensures Unacknowledged(c, x, y) <= Buffered(c, x)
  {
    AckFieldAhead(c, v.acc);
    DistOfCounters(c.seqS, v.acc, u.wnd);
    DistOfCounters(c.seqS, |u.log|, u.wnd);
  }

  lemma ConservedHalf<P>(c: Config, x: Side<P>, y: Side<P>, ux: USide<P>, uy: USide<P>)
    requires Shape(c, x.ep) && Shape(c, y.ep) && c.Aligned()
    requires RelSide(c, x, ux) && RelSide(c, y, uy) && Half(c.wndS, ux, uy)
    ensures Conserved(c, x, y)
    ensures Prefix(y.read, x.sent)
  {
    var u, v := ux.ep, uy.ep;
    InOrderIsPrefix(c, y.ep, v, u.log);
    HeldIsSuffix(c, x.ep, u);
    UnacknowledgedCount(c, x.ep, y.ep, u, v);
    SplitAt(u.log, |v.read|, v.acc, u.wnd);
  }

  /** Conservation: in every state of every run, what one user's Send accepted is what the other user
      has read, then what is buffered in order, then the rest of the sender's own buffer. */
  lemma NothingLost<P>(c: Config, s: System<P>, steps: seq<Step<P>>)
    requires IsInit(c, s) && c.Aligned()
    ensures var r := Run(c, s, steps); Conserved(c, r.a, r.b) && Conserved(c, r.b, r.a)
  {
    RunRefines(c, s, steps);
    var r, u := Run(c, s, steps), URun(c.wndS, Unbounded(s), steps);
    ConservedHalf(c, r.a, r.b, u.a, u.b);
    ConservedHalf(c, r.b, r.a, u.b, u.a);
  }

  /** Safety of the link in one state: nothing read was lost, repeated, reordered or altered. */
  ghost predicate Faithful<P>(s: System<P>) {
    Prefix(s.b.read, s.a.sent) && Prefix(s.a.read, s.b.sent)
  }

  lemma DeliversFaithfully<P>(c: Config, s: System<P>, steps: seq<Step<P>>)
    requires IsInit(c, s) && c.Aligned()
    ensures Faithful(Run(c, s, steps))
  {
    RunRefines(c, s, steps);
    var r, u := Run(c, s, steps), URun(c.wndS, Unbounded(s), steps);
    ConservedHalf(c, r.a, r.b, u.a, u.b);
    ConservedHalf(c, r.b, r.a, u.b, u.a);
  }

  /** When a sender reports SendDone, everything it ever accepted has been read or can be read, in order. */
  lemma DoneMeansDelivered<P>(c: Config, s: System<P>, steps: seq<Step<P>>)
    requires IsInit(c, s) && c.Aligned()
    ensures var r := Run(c, s, steps);
            SendDone(c, r.a.ep) ==> r.a.sent == r.b.read + InOrder(c, r.b.ep)
  {
    NothingLost(c, s, steps);
  }

  /** Every data packet in flight carries the payload accepted under its number, first transmission or
      retransmission, however often the positions have wrapped round. */
  lemma InFlightGenuine<P>(c: Config, s: System<P>, steps: seq<Step<P>>, i: nat) returns (n: nat)
    requires IsInit(c, s) && c.Aligned()
    requires i < |Run(c, s, steps).a.out| && Run(c, s, steps).a.out[i].seqvalid
    ensures var r := Run(c, s, steps);
            && n < |r.a.sent| && r.a.out[i].seqno == n % c.seqS && r.a.out[i].data == r.a.sent[n]
            && |r.b.read| <= n + c.wndS && n < |r.b.read| + 2 * c.wndS
  {
    RunRefines(c, s, steps);
    var r, u := Run(c, s, steps), URun(c.wndS, Unbounded(s), steps);
    assert RelPacket(c, r.a.out[i], u.a.out[i]);
    InFlightRange(c.wndS, u.a, u.b, i);
    assert InFlight(c.wndS, u.a.ep, u.b.ep, u.a.out[i]);
    n := u.a.out[i].n;
  }

  /** The send buffer, from the window start to the last accepted packet, is the tail of what was sent. */
  ghost predicate SlotsIntact<P>(c: Config, x: Side<P>)
    requires Shape(c, x.ep)
  {
    Buffered(c, x.ep) <= |x.sent| && Held(c, x.ep) == x.sent[|x.sent| - Buffered(c, x.ep)..]
  }

  lemma SlotsIntactOfRel<P>(c: Config, x: Side<P>, ux: USide<P>)
    requires Shape(c, x.ep) && c.Aligned() && RelSide(c, x, ux)
    ensures SlotsIntact(c, x)
  {
    HeldIsSuffix(c, x.ep, ux.ep);
  }

  /** Slots are stable: every unacknowledged position still holds the payload first stored there, so every
      retransmission carries the original data. */
  lemma SendSlotsStable<P>(c: Config, s: System<P>, steps: seq<Step<P>>)
    requires IsInit(c, s) && c.Aligned()
    ensures SlotsIntact(c, Run(c, s, steps).a) && SlotsIntact(c, Run(c, s, steps).b)
  {
    RunRefines(c, s, steps);
    SlotsIntactOfRel(c, Run(c, s, steps).a, URun(c.wndS, Unbounded(s), steps).a);
    SlotsIntactOfRel(c, Run(c, s, steps).b, URun(c.wndS, Unbounded(s), steps).b);
  }

  /** An acknowledgement is news, and moves the window just past the position it names, or it names the
      position just before the window and changes nothing. */
  ghost predicate AckOutcome<P>(c: Config, e: Endpoint<P>, p: Packet<P>)
    requires Shape(c, e)
  {
    var e' := ReceiveAck(c, e, p);
    if Dist(c.seqS, p.ackno, e.wndpos) < Dist(c.seqS, e.sendpos, e.wndpos) then
      e'.wndpos == Plus(c.seqS, p.ackno, 1)
    else
      p.ackno == Plus(c.seqS, e.wndpos, c.seqS - 1) && e' == e
  }

  lemma AckOutcomeOfCounts<P>(c: Config, e: Endpoint<P>, u: UEndpoint<P>, p: Packet<P>, q: UPacket<P>)
    requires Shape(c, e) && c.Aligned() && RelSend(c, e, u) && RelPacket(c, p, q) && u.wnd <= q.acked <= u.sent
    ensures AckOutcome(c, e, p)
    ensures ReceiveAck(c, e, p).wndpos == q.acked % c.seqS
  {
    AckDecision(c, u.wnd, q.acked);
    AckFieldAhead(c, q.acked);
    AckFieldAhead(c, u.wnd);
    DistOfCounters(c.seqS, u.sent, u.wnd);
    if u.wnd < q.acked {
      AddOfCounter(c.seqS, u.wnd, q.acked - u.wnd);
    }
  }

  /** Acks are sound and exact over whole runs: when the oldest packet in flight towards a is handled, its ack is
      news or changes nothing, and a's window then starts just after the ack position b had when it transmitted
      that packet, at step k of the run. */
  lemma AcksExact<P>(c: Config, s: System<P>, steps: seq<Step<P>>) returns (k: nat)
    requires IsInit(c, s) && c.Aligned() && |Run(c, s, steps).b.out| > 0
    ensures k < |steps| && steps[k] == Step(false, Transmit)
    ensures GetSendData(c, Run(c, s, steps[..k]).b.ep).1 == Some(Run(c, s, steps).b.out[0])
    ensures var r := Run(c, s, steps);
            var e := ReceiveData(c, r.a.ep, r.b.out[0]);
            && AckOutcome(c, e, r.b.out[0])
            && ReceiveAck(c, e, r.b.out[0]).wndpos == Plus(c.seqS, Run(c, s, steps[..k]).b.ep.recackpos, 1)
  {
    k := SentWhen(c, s, steps, 0);
    CarriesAckPosition(c, Run(c, s, steps[..k]).b.ep);
    RunRefines(c, s, steps);
    var r, u := Run(c, s, steps), URun(c.wndS, Unbounded(s), steps);
    AckHandled(c, r, u);
  }

  lemma AckHandled<P>(c: Config, r: System<P>, u: USystem<P>)
    requires c.Usable() && c.Aligned() && Rel(c, r, u) && UInv(c.wndS, u) && |r.b.out| > 0
    ensures var e := ReceiveData(c, r.a.ep, r.b.out[0]);
            && AckOutcome(c, e, r.b.out[0])
            && ReceiveAck(c, e, r.b.out[0]).wndpos == Plus(c.seqS, r.b.out[0].ackno, 1)
  {
    var p, q := r.b.out[0], u.b.out[0];
    assert RelPacket(c, p, q);
    assert RelSend(c, ReceiveData(c, r.a.ep, p), u.a.ep);
    AckOutcomeOfCounts(c, ReceiveData(c, r.a.ep, p), u.a.ep, p, q);
    AckFieldAhead(c, q.acked);
  }
}
