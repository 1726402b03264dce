/** The exact condition on the configuration. The comment beside SEQ_S asks for at least two windows of
    sequence numbers; what the slot index `seq % WND_S` needs is that WND_S divides SEQ_S. */
module Alignment {
  import opened Modular
  import opened Timers
  import opened ArqSpec
  import opened Steps
  import opened Wrappers
  import opened Network
  import opened Delivery

  ghost predicate Reachable<P(!new)>(c: Config, s0: System<P>, s: System<P>)
    requires Ready(c, s0)
  {
    exists steps: seq<Step<P>> :: Run(c, s0, steps) == s
  }

  lemma ReachStep<P(!new)>(c: Config, s0: System<P>, s: System<P>, step: Step<P>)
    requires Ready(c, s0) && Ready(c, s) && Reachable(c, s0, s)
    ensures Reachable(c, s0, Apply(c, s, step))
  {
    var steps: seq<Step<P>> :| Run(c, s0, steps) == s;
    RunSnoc(c, s0, steps, step);
  }

  ghost predicate Off(t: TimerState) {
    !t.enabled && !t.timeout
  }

  /** Both ends idle after n packets from a to b, all read and acknowledged; b acks without delay. */
  ghost predicate Quiet<P>(c: Config, s: System<P>, n: nat) {
    && Ready(c, s) && n < c.seqS
    && s.a.ep.seqpos == s.a.ep.wndpos == s.a.ep.sendpos == n
    && Off(s.a.ep.sendTimer) && Off(s.a.ep.recvTimer)
    && s.a.ep.recwndpos == 0 && s.a.ep.recackpos == c.seqS - 1
    && s.b.ep.seqpos == s.b.ep.wndpos == s.b.ep.sendpos == 0
    && Off(s.b.ep.sendTimer) && Off(s.b.ep.recvTimer) && s.b.ep.recvTimer.max == 0
    && s.b.ep.recwndpos == n && s.b.ep.recackpos == (if n == 0 then c.seqS - 1 else n - 1)
    && (forall k :: 0 <= k < c.wndS ==> !s.b.ep.recvalids[k])
    && s.a.out == s.b.out == []
    && |s.a.sent| == n && s.b.read == s.a.sent
  }

  lemma ReachTwo<P(!new)>(c: Config, s0: System<P>, s: System<P>, step1: Step<P>, step2: Step<P>)
    requires Ready(c, s0) && Ready(c, s) && Reachable(c, s0, s)
    ensures Reachable(c, s0, Apply(c, Apply(c, s, step1), step2))
  {
    ReachStep(c, s0, s, step1);
    ReachStep(c, s0, Apply(c, s, step1), step2);
  }

  // ---------------------------------------------------------------- what single calls do

  /** An end with nothing buffered accepts a payload into the slot of its next position. */
  lemma Accepted<P>(c: Config, e: Endpoint<P>, y: P)
    requires Shape(c, e) && e.seqpos == e.wndpos
    ensures CanSend(c, e) && Plus(c.seqS, e.seqpos, 1) != e.seqpos
    ensures ArqSpec.Send(c, e, y) ==
            e.(sendbuf := e.sendbuf[Slot(c.wndS, e.seqpos) := y], seqpos := Plus(c.seqS, e.seqpos, 1))
  {
  }

  /** With nothing outstanding, the next packet is put in flight and the timer started. */
  lemma Launched<P>(c: Config, e: Endpoint<P>)
    requires Shape(c, e) && Off(e.sendTimer) && e.seqpos != e.sendpos
    ensures GetSendData(c, e) ==
            (e.(sendpos := Plus(c.seqS, e.sendpos, 1), sendTimer := e.sendTimer.Started(),
                recvTimer := e.recvTimer.Stopped()),
             Some(Packet(true, e.sendpos, e.recackpos, e.sendbuf[Slot(c.wndS, e.sendpos)])))
  {
  }

  lemma AdvanceByOne(c: Config, valids: seq<bool>, pos: nat, ack: nat)
    requires c.Usable() && |valids| == c.wndS && pos < c.seqS - 1
    requires ack == if pos == 0 then c.seqS - 1 else pos - 1
    requires valids[Slot(c.wndS, pos)] && !valids[Slot(c.wndS, pos + 1)]
    ensures Advance(c, valids, pos, ack) == pos
  {
    assert Plus(c.seqS, ack, 1) == pos && Dist(c.seqS, ack + 1, pos) == 0;
    assert Plus(c.seqS, pos, 1) == pos + 1;
  }

  /** An idle receiver stores the packet it waits for and moves its ack position by one. */
  lemma StoreFirst<P>(c: Config, e: Endpoint<P>, p: Packet<P>)
    requires Shape(c, e) && c.wndS >= 2 && p.seqvalid && p.seqno == e.recwndpos < c.seqS - 1
    requires e.recackpos == (if e.recwndpos == 0 then c.seqS - 1 else e.recwndpos - 1)
    requires forall k :: 0 <= k < c.wndS ==> !e.recvalids[k]
    ensures ReceiveData(c, e, p) ==
            e.(recbuf := e.recbuf[Slot(c.wndS, e.recwndpos) := p.data],
               recvalids := e.recvalids[Slot(c.wndS, e.recwndpos) := true],
               recackpos := e.recwndpos, recvTimer := e.recvTimer.Continued())
  {
    var valids := e.recvalids[Slot(c.wndS, p.seqno) := true];
    NeighbourSlots(c.wndS, e.recwndpos);
    AdvanceByOne(c, valids, e.recwndpos, e.recackpos);
  }

  /** With nothing outstanding, an ack field has no effect. */
  lemma AckIgnored<P>(c: Config, e: Endpoint<P>, p: Packet<P>)
    requires Shape(c, e) && e.wndpos == e.sendpos
    ensures ReceiveAck(c, e, p) == e
  {
  }

  /** The packet an idle receiver waits for, received and read. */
  lemma ReceivedAndRead<P>(c: Config, e: Endpoint<P>, p: Packet<P>) returns (buf: seq<P>)
    requires Shape(c, e) && c.wndS >= 2 && p.seqvalid && p.seqno == e.recwndpos < c.seqS - 1
    requires e.recackpos == (if e.recwndpos == 0 then c.seqS - 1 else e.recwndpos - 1)
    requires e.wndpos == e.sendpos && Off(e.recvTimer)
    requires forall k :: 0 <= k < c.wndS ==> !e.recvalids[k]
    ensures |buf| == c.wndS && HasReadData(c, Receive(c, e, p))
    ensures ArqSpec.Read(c, Receive(c, e, p)) ==
            (e.(recbuf := buf, recwndpos := e.recwndpos + 1, recackpos := e.recwndpos,
                recvTimer := e.recvTimer.Started()), p.data)
  {
    StoreFirst(c, e, p);
    AckIgnored(c, ReceiveData(c, e, p), p);
    var slot := Slot(c.wndS, e.recwndpos);
    buf := e.recbuf[slot := p.data];
    assert e.recvalids[slot := true][slot := false] == e.recvalids;
  }

  /** The delayed-ack timer of an idle end fires at its next tick, and an acknowledgement is sent. */
  lemma TickedAndSent<P>(c: Config, e: Endpoint<P>)
    requires Shape(c, e) && e.seqpos == e.sendpos && Off(e.sendTimer)
    requires e.recvTimer.enabled && e.recvTimer.value == 0
    ensures GetSendData(c, ArqSpec.Tick(e)) ==
            (e.(recvTimer := e.recvTimer.Stopped()), Some(Packet(false, 0, e.recackpos, e.sendbuf[0])))
  {
  }

  /** The acknowledgement of the one outstanding packet. */
  lemma AckTaken<P>(c: Config, e: Endpoint<P>, p: Packet<P>)
    requires Shape(c, e) && !p.seqvalid && p.ackno == e.wndpos && e.sendpos == e.wndpos + 1
    ensures Receive(c, e, p) == e.(wndpos := e.wndpos + 1, sendTimer := e.sendTimer.Stopped())
  {
  }

  // ---------------------------------------------------------------- one packet across

  /** End a accepts one payload and puts it in flight. */
  function Launch<P>(c: Config, s: System<P>, y: P): (r: System<P>)
    requires Ready(c, s)
    ensures Ready(c, r)
  {
    Apply(c, Apply(c, s, Step(true, Op.Send(y))), Step(true, Transmit))
  }

  lemma LaunchEffect<P>(c: Config, s: System<P>, n: nat, y: P) returns (buf: seq<P>)
    requires Ready(c, s) && n < c.seqS - 1 && s.a.out == []
    requires Off(s.a.ep.sendTimer) && s.a.ep.seqpos == s.a.ep.wndpos == s.a.ep.sendpos == n
    ensures |buf| == c.wndS
    ensures Launch(c, s, y) ==
            s.(a := Side(s.a.ep.(sendbuf := buf, seqpos := n + 1, sendpos := n + 1,
                                 sendTimer := s.a.ep.sendTimer.Started(), recvTimer := s.a.ep.recvTimer.Stopped()),
                         [Packet(true, n, s.a.ep.recackpos, y)], s.a.sent + [y], s.a.read))
  {
    var e := ArqSpec.Send(c, s.a.ep, y);
    Accepted(c, s.a.ep, y);
    Launched(c, e);
    buf := e.sendbuf;
    assert Apply(c, s, Step(true, Op.Send(y))) == s.(a := s.a.(ep := e, sent := s.a.sent + [y]));
  }

  /** End b receives the packet in flight and reads it. */
  function Take<P>(c: Config, s: System<P>): (r: System<P>)
    requires Ready(c, s)
    ensures Ready(c, r)
  {
    Apply(c, Apply(c, s, Step(false, Deliver)), Step(false, Op.Read))
  }

  lemma TakeEffect<P>(c: Config, s: System<P>, n: nat, p: Packet<P>) returns (buf: seq<P>)
    requires Ready(c, s) && c.wndS >= 2 && n < c.seqS - 1 && s.a.out == [p] && p.seqvalid && p.seqno == n
    requires s.b.ep.recwndpos == n && s.b.ep.recackpos == (if n == 0 then c.seqS - 1 else n - 1)
    requires s.b.ep.wndpos == s.b.ep.sendpos && Off(s.b.ep.recvTimer)
    requires forall k :: 0 <= k < c.wndS ==> !s.b.ep.recvalids[k]
    ensures |buf| == c.wndS
    ensures Take(c, s) ==
            System(s.a.(out := []),
                   s.b.(ep := s.b.ep.(recbuf := buf, recwndpos := n + 1, recackpos := n,
                                      recvTimer := s.b.ep.recvTimer.Started()), read := s.b.read + [p.data]))
  {
    buf := ReceivedAndRead(c, s.b.ep, p);
    assert Apply(c, s, Step(false, Deliver)) == System(s.a.(out := []), s.b.(ep := Receive(c, s.b.ep, p)));
  }

  /** The delayed-ack timer of b runs out and its acknowledgement reaches a. */
  function Acknowledge<P>(c: Config, s: System<P>): (r: System<P>)
    requires Ready(c, s)
    ensures Ready(c, r)
  {
    Apply(c, Apply(c, Apply(c, s, Step(false, Op.Tick)), Step(false, Transmit)), Step(true, Deliver))
  }

  lemma AcknowledgeEffect<P>(c: Config, s: System<P>, n: nat)
    requires Ready(c, s) && n < c.seqS - 1 && s.b.out == []
    requires s.a.ep.wndpos == n && s.a.ep.sendpos == n + 1
    requires s.b.ep.seqpos == s.b.ep.sendpos && Off(s.b.ep.sendTimer) && s.b.ep.recackpos == n
    requires s.b.ep.recvTimer.enabled && s.b.ep.recvTimer.value == 0
    ensures Acknowledge(c, s) ==
            System(s.a.(ep := s.a.ep.(wndpos := n + 1, sendTimer := s.a.ep.sendTimer.Stopped())),
                   s.b.(ep := s.b.ep.(recvTimer := s.b.ep.recvTimer.Stopped())))
  {
    var p := Packet(false, 0, n, s.b.ep.sendbuf[0]);
    var b := s.b.ep.(recvTimer := s.b.ep.recvTimer.Stopped());
    TickedAndSent(c, s.b.ep);
    var s1 := Apply(c, s, Step(false, Op.Tick));
    assert s1 == s.(b := s.b.(ep := ArqSpec.Tick(s.b.ep)));
    assert Apply(c, s1, Step(false, Transmit)) == s.(b := s.b.(ep := b, out := [p]));
    AckTaken(c, s.a.ep, p);
  }

  /** The whole exchange for one packet. */
  function Exchange<P>(c: Config, s: System<P>, y: P): (r: System<P>)
    requires Ready(c, s)
    ensures Ready(c, r)
  {
    Acknowledge(c, Take(c, Launch(c, s, y)))
  }

  lemma ReachExchange<P(!new)>(c: Config, s0: System<P>, s: System<P>, y: P)
    requires Ready(c, s0) && Ready(c, s) && Reachable(c, s0, s)
    ensures Reachable(c, s0, Exchange(c, s, y))
  {
    ReachTwo(c, s0, s, Step(true, Op.Send(y)), Step(true, Transmit));
    var t := Launch(c, s, y);
    ReachTwo(c, s0, t, Step(false, Deliver), Step(false, Op.Read));
    ReachTwo(c, s0, Take(c, t), Step(false, Op.Tick), Step(false, Transmit));
    var u := Apply(c, Apply(c, Take(c, t), Step(false, Op.Tick)), Step(false, Transmit));
    ReachStep(c, s0, u, Step(true, Deliver));
  }

  /** Afterwards both ends are idle again, one packet further on. */
  lemma ExchangeKeepsQuiet<P>(c: Config, s: System<P>, n: nat, y: P)
    requires Quiet(c, s, n) && c.wndS >= 2 && n < c.seqS - 1
    ensures Quiet(c, Exchange(c, s, y), n + 1)
  {
    var sendbuf := LaunchEffect(c, s, n, y);
    var t := Launch(c, s, y);
    var recbuf := TakeEffect(c, t, n, t.a.out[0]);
    AcknowledgeEffect(c, Take(c, t), n);
  }

  lemma Start<P(!new)>(c: Config, s0: System<P>) returns (r: System<P>)
    requires IsInit(c, s0)
    ensures Reachable(c, s0, r) && Quiet(c, r, 0)
  {
    assert Run(c, s0, []) == s0;
    r := Apply(c, s0, Step(false, Op.SetTimeouts(0, 0)));
    ReachStep(c, s0, s0, Step(false, Op.SetTimeouts(0, 0)));
  }

  lemma {:induction false} Rounds<P(!new)>(c: Config, s0: System<P>, n: nat, y: P) returns (r: System<P>)
    requires IsInit(c, s0) && c.wndS >= 2 && n < c.seqS
    ensures Reachable(c, s0, r) && Quiet(c, r, n)
    decreases n
  {
    if n == 0 {
      r := Start(c, s0);
    } else {
      r := Rounds(c, s0, n - 1, y);
      ReachExchange(c, s0, r, y);
      ExchangeKeepsQuiet(c, r, n - 1, y);
      r := Exchange(c, r, y);
    }
  }

  /** Filling the send buffer with k copies of z, up to the end of the sequence numbers. */
  lemma {:induction false} Fill<P(!new)>(c: Config, s0: System<P>, s: System<P>, z: P, k: nat) returns (r: System<P>)
    requires Ready(c, s0) && Ready(c, s) && Reachable(c, s0, s)
    requires s.a.ep.wndpos <= s.a.ep.seqpos && s.a.ep.seqpos + k <= c.seqS
    requires s.a.ep.seqpos + k - s.a.ep.wndpos < c.wndS
    ensures Reachable(c, s0, r) && Ready(c, r)
    ensures r == s.(a := s.a.(ep := r.a.ep, sent := r.a.sent))
    ensures r.a.ep == s.a.ep.(seqpos := Plus(c.seqS, s.a.ep.seqpos, k), sendbuf := r.a.ep.sendbuf)
    ensures |r.a.sent| == |s.a.sent| + k && forall j :: |s.a.sent| <= j < |r.a.sent| ==> r.a.sent[j] == z
    decreases k
  {
    if k == 0 {
      r := s;
    } else {
      r := Fill(c, s0, s, z, k - 1);
      ReachStep(c, s0, r, Step(true, Op.Send(z)));
      r := Apply(c, r, Step(true, Op.Send(z)));
    }
  }

  /** The last position before the wrap that shares slot 0 with position 0. */
  lemma SharedSlot(c: Config) returns (base: nat)
    requires c.Usable() && !c.Aligned()
    ensures base < c.seqS < base + c.wndS && Slot(c.wndS, base) == 0 && c.wndS >= 2
  {
    base := c.seqS - c.seqS % c.wndS;
    assert base == c.wndS * (c.seqS / c.wndS);
    ModUnique(c.wndS, base, c.seqS / c.wndS, 0);
    ModOne(c);
  }

  /** Sending on from an idle state past the wrap overwrites the payload waiting in slot 0. */
  lemma Collide<P(!new)>(c: Config, s0: System<P>, s: System<P>, base: nat, y: P, z: P) returns (r: System<P>)
    requires Ready(c, s0) && Reachable(c, s0, s) && Quiet(c, s, base)
    requires c.seqS < base + c.wndS
    ensures Reachable(c, s0, r) && Ready(c, r) && r.b == s.b && r.a.out == []
    ensures r.a.ep == s.a.ep.(sendbuf := r.a.ep.sendbuf, seqpos := Plus(c.seqS, 0, 1)) && r.a.ep.sendbuf[0] == z
    ensures base < |r.a.sent| && r.a.sent[base] == y
  {
    var f := Fill(c, s0, s, y, c.seqS - base);
    ModUnique(c.wndS, 0, 0, 0);
    assert f.a.ep.seqpos == 0 && Slot(c.wndS, 0) == 0 && Buffered(c, f.a.ep) < c.wndS;
    ReachStep(c, s0, f, Step(true, Op.Send(z)));
    r := f.(a := f.a.(ep := ArqSpec.Send(c, f.a.ep, z), sent := f.a.sent + [z]));
  }

  /** The payload in a's slot is sent, accepted at b in the slot it waits for, and read. */
  lemma ForwardEffect<P>(c: Config, s: System<P>)
    requires Ready(c, s) && s.a.out == [] && Off(s.a.ep.sendTimer) && s.a.ep.seqpos != s.a.ep.sendpos
    requires s.b.ep.recwndpos == s.a.ep.sendpos && !s.b.ep.recvalids[Slot(c.wndS, s.a.ep.sendpos)]
    ensures var r := Take(c, Apply(c, s, Step(true, Transmit)));
            && r.a.sent == s.a.sent
            && r.b.read == s.b.read + [s.a.ep.sendbuf[Slot(c.wndS, s.a.ep.sendpos)]]
  {
    var e, slot := s.a.ep, Slot(c.wndS, s.a.ep.sendpos);
    var p := Packet(true, e.sendpos, e.recackpos, e.sendbuf[slot]);
    Launched(c, e);
    var t := Apply(c, s, Step(true, Transmit));
    assert t.a.out == [p] && t.a.sent == s.a.sent && t.b == s.b;
    StoredInSlot(c, s.b.ep, p);
    assert Apply(c, t, Step(false, Deliver)) == System(t.a.(out := []), s.b.(ep := Receive(c, s.b.ep, p)));
  }

  /** The packet a receiver waits for is stored in its slot, whatever its ack field says. */
  lemma StoredInSlot<P>(c: Config, e: Endpoint<P>, p: Packet<P>)
    requires Shape(c, e) && p.seqvalid && p.seqno == e.recwndpos && !e.recvalids[Slot(c.wndS, e.recwndpos)]
    ensures HasReadData(c, Receive(c, e, p)) && ArqSpec.Read(c, Receive(c, e, p)).1 == p.data
  {
  }

  /** Where the sequence numbers end in the middle of the slots, some run delivers, under the number of a payload
      that was sent, another one. */
  lemma Overwritten<P(!new)>(c: Config, s0: System<P>, y: P, z: P) returns (r: System<P>, base: nat)
    requires IsInit(c, s0) && !c.Aligned() && y != z
    ensures Reachable(c, s0, r) && !Faithful(r)
    ensures base < |r.a.sent| && base < |r.b.read| && r.a.sent[base] == y && r.b.read[base] == z
  {
    base := SharedSlot(c);
    var s := Rounds(c, s0, base, y);
    var t := Collide(c, s0, s, base, y, z);
    ForwardEffect(c, t);
    var u := Apply(c, t, Step(true, Transmit));
    ReachStep(c, s0, t, Step(true, Transmit));
    ReachTwo(c, s0, u, Step(false, Deliver), Step(false, Op.Read));
    r := Take(c, u);
    assert r.b.read[base] == z && r.a.sent[base] == y;
  }

  lemma ModOne(c: Config)
    requires c.Usable() && !c.Aligned()
    ensures c.wndS >= 2
  {
    if c.wndS == 1 {
      ModUnique(1, c.seqS, c.seqS, 0);
    }
  }

  /** The link delivers faithfully in every run exactly when the slots divide the sequence numbers,
      whatever state the timers and buffers start in and however many sequence numbers there are. */
  lemma FaithfulExactlyWhenAligned<P(!new)>(c: Config, s0: System<P>, y: P, z: P)
    requires IsInit(c, s0) && y != z
    ensures (forall steps :: Faithful(Run(c, s0, steps))) <==> c.Aligned()
  {
    if c.Aligned() {
      forall steps
        ensures Faithful(Run(c, s0, steps))
      {
        DeliversFaithfully(c, s0, steps);
      }
    } else {
      var r, _ := Overwritten(c, s0, y, z);
      var steps: seq<Step<P>> :| Run(c, s0, steps) == r;
      assert !Faithful(Run(c, s0, steps));
    }
  }
}
