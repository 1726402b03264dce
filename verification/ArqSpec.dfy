/** The ARQ endpoint as a value and its operations as functions of the state. The fields and branches
    are those of the class; positions are reduced modulo the sequence size exactly as it does. */
module ArqSpec {
  import opened Modular
  import opened Timers
  import opened Wrappers

  /** The C `int` fields of a packet; any value may arrive from below. */
  type int32 = x: int | -0x8000_0000 <= x < 0x8000_0000

  datatype Config = Config(seqS: nat, wndS: nat) {

    /** What the code needs to run at all: a slot, more sequence numbers than slots (or the loop that
        advances the ack position need not stop), and positions that fit an `int`. */
    predicate Usable() {
      1 <= wndS < seqS <= MAX_SIZE
    }

    /** The slots divide the sequence numbers evenly. */
    predicate Aligned()
      requires wndS > 0
    {
      seqS % wndS == 0
    }
  }

  datatype Packet<P> = Packet(seqvalid: bool, seqno: int32, ackno: int32, data: P)

  datatype Endpoint<P> = Endpoint(
    sendbuf: seq<P>, seqpos: int, wndpos: int, sendpos: int, sendTimer: TimerState,
    recbuf: seq<P>, recvalids: seq<bool>, recwndpos: int, recackpos: int, recvTimer: TimerState)

  predicate Shape<P>(c: Config, e: Endpoint<P>) {
    && c.Usable()
    && |e.sendbuf| == |e.recbuf| == |e.recvalids| == c.wndS
    && 0 <= e.seqpos < c.seqS && 0 <= e.wndpos < c.seqS && 0 <= e.sendpos < c.seqS
    && 0 <= e.recwndpos < c.seqS && 0 <= e.recackpos < c.seqS
  }

  // ---------------------------------------------------------------- operations

  function Cleared<P>(c: Config, e: Endpoint<P>): Endpoint<P> {
    e.(seqpos := 0, wndpos := 0, sendpos := 0, sendTimer := e.sendTimer.Stopped(),
       recwndpos := 0, recackpos := c.seqS - 1, recvTimer := e.recvTimer.Stopped(),
       recvalids := seq(c.wndS, _ => false))
  }

  function Buffered<P>(c: Config, e: Endpoint<P>): nat
    requires c.Usable()
  {
    Dist(c.seqS, e.seqpos, e.wndpos)
  }

  predicate CanSend<P>(c: Config, e: Endpoint<P>)
    requires c.Usable()
  {
    Buffered(c, e) < c.wndS
  }

  predicate SendDone<P>(c: Config, e: Endpoint<P>)
    requires c.Usable()
  {
    Buffered(c, e) == 0
  }

  function Send<P>(c: Config, e: Endpoint<P>, p: P): (e': Endpoint<P>)
    requires Shape(c, e)
    ensures Shape(c, e')
  {
    if Buffered(c, e) == c.wndS then e
    else e.(sendbuf := e.sendbuf[Slot(c.wndS, e.seqpos) := p], seqpos := Plus(c.seqS, e.seqpos, 1))
  }

  predicate HasSendData<P>(c: Config, e: Endpoint<P>)
    requires c.Usable()
  {
    e.sendTimer.timeout || e.recvTimer.timeout || Dist(c.seqS, e.seqpos, e.sendpos) > 0
  }

  /** The new state and, when the source returns 1, the packet handed to the lower layer. */
  function GetSendData<P>(c: Config, e: Endpoint<P>): (r: (Endpoint<P>, Option<Packet<P>>))
    requires Shape(c, e)
    ensures Shape(c, r.0)
  {
    if e.sendTimer.timeout then
      if e.seqpos == e.wndpos then (e.(sendTimer := e.sendTimer.Acked()), None)
      else
        (e.(sendTimer := e.sendTimer.Acked().Continued(), recvTimer := e.recvTimer.Stopped()),
         Some(Packet(true, e.wndpos, e.recackpos, e.sendbuf[Slot(c.wndS, e.wndpos)])))
    else if Dist(c.seqS, e.seqpos, e.sendpos) > 0 then
      (e.(sendpos := Plus(c.seqS, e.sendpos, 1), sendTimer := e.sendTimer.Continued(),
          recvTimer := e.recvTimer.Stopped()),
       Some(Packet(true, e.sendpos, e.recackpos, e.sendbuf[Slot(c.wndS, e.sendpos)])))
    else if e.recvTimer.timeout then
      (e.(recvTimer := e.recvTimer.Acked().Stopped()), Some(Packet(false, 0, e.recackpos, e.sendbuf[0])))
    else (e, None)
  }

  predicate CanReceive<P>(e: Endpoint<P>) {
    exists s :: 0 <= s < |e.recvalids| && !e.recvalids[s]
  }

  /** The ack position after the loop that steps over valid slots inside the receive window. */
  function Advance(c: Config, valids: seq<bool>, wnd: int, ack: int): (r: int)
    requires c.Usable() && |valids| == c.wndS && 0 <= wnd < c.seqS && 0 <= ack < c.seqS
    ensures 0 <= r < c.seqS
    decreases c.wndS - Dist(c.seqS, ack + 1, wnd)
  {
    if valids[Slot(c.wndS, Plus(c.seqS, ack, 1))] && Dist(c.seqS, ack + 1, wnd) < c.wndS then
      Advance(c, valids, wnd, Plus(c.seqS, ack, 1))
    else ack
  }

  function ReceiveData<P>(c: Config, e: Endpoint<P>, p: Packet<P>): (e': Endpoint<P>)
    requires Shape(c, e)
    ensures Shape(c, e')
  {
    if !p.seqvalid || Dist(c.seqS, p.seqno, e.recwndpos) >= c.wndS || e.recvalids[Slot(c.wndS, p.seqno)] then e
    else
      var valids := e.recvalids[Slot(c.wndS, p.seqno) := true];
      e.(recbuf := e.recbuf[Slot(c.wndS, p.seqno) := p.data], recvalids := valids,
         recackpos := Advance(c, valids, e.recwndpos, e.recackpos), recvTimer := e.recvTimer.Continued())
  }

  function ReceiveAck<P>(c: Config, e: Endpoint<P>, p: Packet<P>): (e': Endpoint<P>)
    requires Shape(c, e)
    ensures Shape(c, e')
  {
    var ackofs := Dist(c.seqS, p.ackno, e.wndpos);
    if ackofs < Dist(c.seqS, e.sendpos, e.wndpos) then
      var wnd := Plus(c.seqS, e.wndpos, ackofs + 1);
      e.(wndpos := wnd, sendTimer := if wnd == e.sendpos then e.sendTimer.Stopped() else e.sendTimer.Started())
    else e
  }

  function Receive<P>(c: Config, e: Endpoint<P>, p: Packet<P>): (e': Endpoint<P>)
    requires Shape(c, e)
    ensures Shape(c, e')
  {
    ReceiveAck(c, ReceiveData(c, e, p), p)
  }

  predicate HasReadData<P>(c: Config, e: Endpoint<P>)
    requires Shape(c, e)
  {
    e.recvalids[Slot(c.wndS, e.recwndpos)]
  }

  function Read<P>(c: Config, e: Endpoint<P>): (r: (Endpoint<P>, P))
    requires Shape(c, e)
    ensures Shape(c, r.0)
  {
    var slot := Slot(c.wndS, e.recwndpos);
    (e.(recvalids := e.recvalids[slot := false], recwndpos := Plus(c.seqS, e.recwndpos, 1)), e.recbuf[slot])
  }

  function Tick<P>(e: Endpoint<P>): Endpoint<P> {
    e.(sendTimer := e.sendTimer.Ticked(), recvTimer := e.recvTimer.Ticked())
  }

  function SetTimeouts<P>(e: Endpoint<P>, tx: int, rx: int): Endpoint<P> {
    e.(sendTimer := e.sendTimer.WithLimit(tx), recvTimer := e.recvTimer.WithLimit(rx))
  }

  // ---------------------------------------------------------------- what every operation keeps

  /** The three send positions are in cyclic order within one window, and the retransmission timer is
      running or expired exactly while a packet is outstanding. */
  predicate SendInv<P>(c: Config, e: Endpoint<P>)
    requires c.Usable()
  {
    && Dist(c.seqS, e.sendpos, e.wndpos) <= Dist(c.seqS, e.seqpos, e.wndpos) <= c.wndS
    && (e.sendTimer.Live() <==> e.wndpos != e.sendpos)
    && e.sendTimer.Bounded() && e.recvTimer.Bounded()
  }

  predicate ValidAt<P>(c: Config, e: Endpoint<P>, k: nat)
    requires Shape(c, e)
  {
    e.recvalids[Slot(c.wndS, Plus(c.seqS, e.recwndpos, k))]
  }

  /** Number of packets accepted in order and not yet read. */
  function RunLength<P>(c: Config, e: Endpoint<P>): nat
    requires c.Usable()
  {
    Dist(c.seqS, e.recackpos + 1, e.recwndpos)
  }

  /** The ack position is one before the first gap: behind it, back to the window start, every slot is
      valid, and the slot after it is not (unless the whole window is). */
  predicate RecvInv<P>(c: Config, e: Endpoint<P>)
    requires Shape(c, e)
  {
    && RunLength(c, e) <= c.wndS
    && (forall k :: 0 <= k < RunLength(c, e) ==> ValidAt(c, e, k))
    && (RunLength(c, e) < c.wndS ==> !ValidAt(c, e, RunLength(c, e)))
  }

  predicate Inv<P>(c: Config, e: Endpoint<P>) {
    Shape(c, e) && SendInv(c, e) && (c.Aligned() ==> RecvInv(c, e))
  }

  lemma SlotOfStep(c: Config, pos: int, k: nat)
    requires c.Usable() && c.Aligned() && 0 <= pos < c.seqS && k <= c.wndS
    ensures Slot(c.wndS, Plus(c.seqS, pos, k)) == (pos + k) % c.wndS
  {
    SlotOfCounter(c.seqS, c.wndS, pos + k);
  }

  /** Walking the window from its start visits every slot exactly once. */
  lemma WindowSlotsDistinct(c: Config, pos: int, j: nat, k: nat)
    requires c.Usable() && c.Aligned() && 0 <= pos < c.seqS && j < k <= c.wndS
    ensures Slot(c.wndS, Plus(c.seqS, pos, j)) == Slot(c.wndS, Plus(c.seqS, pos, k)) <==> k == j + c.wndS
  {
    SlotOfStep(c, pos, j);
    SlotOfStep(c, pos, k);
    if k < j + c.wndS {
      SlotsDistinct(c.wndS, pos + j, pos + k);
    } else {
      ModPeriod(c.wndS, pos + j);
    }
  }

  /** The receive invariant looks at three fields only. */
  lemma RecvInvFrame<P>(c: Config, e: Endpoint<P>, e': Endpoint<P>)
    requires Shape(c, e) && Shape(c, e') && RecvInv(c, e)
    requires e'.recvalids == e.recvalids && e'.recwndpos == e.recwndpos && e'.recackpos == e.recackpos
    ensures RecvInv(c, e')
  {
    assert forall k: nat | k <= c.wndS :: ValidAt(c, e', k) == ValidAt(c, e, k);
  }

  lemma ClearedKeepsInv<P>(c: Config, e: Endpoint<P>)
    requires c.Usable() && |e.sendbuf| == |e.recbuf| == c.wndS
    ensures Inv(c, Cleared(c, e))
    ensures SendDone(c, Cleared(c, e)) && !HasSendData(c, Cleared(c, e)) && !HasReadData(c, Cleared(c, e))
  {
  }

  lemma SendKeepsInv<P>(c: Config, e: Endpoint<P>, p: P)
    requires Inv(c, e)
    ensures Inv(c, Send(c, e, p))
    ensures CanSend(c, e) <==> Send(c, e, p).seqpos != e.seqpos
  {
    if c.Aligned() {
      RecvInvFrame(c, e, Send(c, e, p));
    }
  }

  lemma GetSendDataKeepsInv<P>(c: Config, e: Endpoint<P>)
    requires Inv(c, e)
    ensures Inv(c, GetSendData(c, e).0)
  {
    if c.Aligned() {
      RecvInvFrame(c, e, GetSendData(c, e).0);
    }
  }

  /** The timeout branch that ignores an already sent packet is unreachable; a retransmission resends
      a packet sent before; and there is something to send exactly when a packet is produced. */
  lemma TransmitExact<P>(c: Config, e: Endpoint<P>)
    requires Inv(c, e)
    ensures HasSendData(c, e) <==> GetSendData(c, e).1.Some?
    ensures e.sendTimer.timeout ==> e.seqpos != e.wndpos && e.sendpos != e.wndpos
    ensures e.sendTimer.timeout ==>
              GetSendData(c, e).1.value.seqno == e.wndpos && GetSendData(c, e).0.sendpos == e.sendpos
    ensures GetSendData(c, e).1.Some? ==>
              GetSendData(c, e).1.value.ackno == e.recackpos && !GetSendData(c, e).0.recvTimer.Live()
  {
  }

  /** Transmitting never postpones a retransmission that is due; only a data packet sent while no timer runs
      starts one. A stand-alone acknowledgement carries no number, and the contents of slot 0. A timeout with nothing
      held is only noted. */
  lemma TransmitTimer<P>(c: Config, e: Endpoint<P>)
    requires Shape(c, e)
    ensures var (e', p) := GetSendData(c, e);
            && !e'.sendTimer.timeout && e'.sendTimer.max == e.sendTimer.max
            && (e.sendTimer.enabled ==> e'.sendTimer.enabled && e'.sendTimer.value == e.sendTimer.value)
            && (!e.sendTimer.enabled ==> (e'.sendTimer.enabled <==> p.Some? && p.value.seqvalid))
            && (e'.sendTimer.enabled && !e.sendTimer.enabled ==> e'.sendTimer.value == e.sendTimer.max)
            && (p.Some? && !p.value.seqvalid ==> p.value.seqno == 0 && p.value.data == e.sendbuf[0])
            && (e.sendTimer.timeout && e.seqpos == e.wndpos ==> p == None && e' == e.(sendTimer := e'.sendTimer))
  {
  }

  /** What goes first: a packet due again, then the oldest one never sent, and an acknowledgement alone only when
      there is neither. */
  lemma TransmitOrder<P>(c: Config, e: Endpoint<P>)
    requires Inv(c, e)
    ensures var (e', p) := GetSendData(c, e);
            && (!e.sendTimer.timeout && e.sendpos != e.seqpos ==>
                  && p.Some? && p.value.seqvalid && p.value.seqno == e.sendpos
                  && e'.sendpos == if e.sendpos + 1 == c.seqS then 0 else e.sendpos + 1)
            && (p.Some? && !p.value.seqvalid ==>
                  && !e.sendTimer.timeout && e.sendpos == e.seqpos && e.recvTimer.timeout
                  && e' == e.(recvTimer := e'.recvTimer))
  {
  }

  /** Done means that the window start has caught up with the last payload accepted, and nothing else. */
  lemma DoneByPositions<P>(c: Config, e: Endpoint<P>)
    requires Inv(c, e)
    ensures SendDone(c, e) <==> e.wndpos == e.seqpos
  {
  }

  /** New timeouts take effect at the next start, each on its own timer. */
  lemma TimeoutsTakeEffect<P>(e: Endpoint<P>, tx: nat, rx: nat, k: nat)
    requires !e.sendTimer.timeout && !e.recvTimer.timeout
    ensures AfterTicks(SetTimeouts(e, tx, rx).sendTimer.Started(), k).timeout <==> k >= tx + 1
    ensures AfterTicks(SetTimeouts(e, tx, rx).recvTimer.Started(), k).timeout <==> k >= rx + 1
  {
    LimitCuts(e.sendTimer, tx, k);
    LimitCuts(e.recvTimer, rx, k);
  }

  // ---------------------------------------------------------------- which configurations the code can run

  /** All distances on the ring come out right. */
  ghost predicate DistancesRight(size: nat)
    requires size > 0
  {
    forall a: nat, b: nat :: a < size && b < size ==> Dist(size, a, b) == if a >= b then a - b else size + a - b
  }

  /** With every slot valid, the loop that advances the ack position stops somewhere. */
  ghost predicate LoopStops(c: Config, wnd: nat)
    requires c.seqS > 0
  {
    exists next: nat :: 1 <= next <= c.seqS && Dist(c.seqS, next, wnd) >= c.wndS
  }

  lemma DistancesExactly(size: nat)
    requires 0 < size < 0x1_0000_0000
    ensures DistancesRight(size) <==> size <= 0x8000_0000
  {
    if size > 0x8000_0000 {
      ModUnique(0x1_0000_0000, size + (size - 1) - 0, 1, 2 * size - 1 - 0x1_0000_0000);
      ModUnique(size, 2 * size - 1 - 0x1_0000_0000, 0, 2 * size - 1 - 0x1_0000_0000);
      assert Dist(size, size - 1, 0) != size - 1;
    }
  }

  lemma LoopStopsExactly(c: Config, wnd: nat)
    requires 0 < c.seqS <= 0x8000_0000 && wnd < c.seqS
    ensures LoopStops(c, wnd) <==> c.wndS < c.seqS
  {
    if c.wndS < c.seqS {
      var next := if wnd >= 2 then wnd - 1 else if wnd == 1 || c.seqS == 1 then c.seqS else c.seqS - 1;
      assert Dist(c.seqS, next, wnd) == c.seqS - 1;
    }
  }

  /** The usable configurations are exactly those with a slot, right distances, and a loop that stops. */
  lemma UsableExactly(c: Config)
    requires 0 < c.seqS < 0x1_0000_0000
    ensures c.Usable() <==> c.wndS >= 1 && DistancesRight(c.seqS) && LoopStops(c, 0)
  {
    DistancesExactly(c.seqS);
    if c.seqS <= 0x8000_0000 {
      LoopStopsExactly(c, 0);
    }
  }

  /** The loop stops at the first gap, however far the ack position had to move. */
  lemma {:induction false} AdvanceToGap<P>(c: Config, e: Endpoint<P>)
    requires Shape(c, e) && c.Aligned()
    requires RunLength(c, e) <= c.wndS
    requires forall k :: 0 <= k < RunLength(c, e) ==> ValidAt(c, e, k)
    ensures RecvInv(c, e.(recackpos := Advance(c, e.recvalids, e.recwndpos, e.recackpos)))
    decreases c.wndS - RunLength(c, e)
  {
    var run := RunLength(c, e);
    assert Plus(c.seqS, e.recackpos, 1) == Plus(c.seqS, e.recwndpos, run);
    if ValidAt(c, e, run) && run < c.wndS {
      var e' := e.(recackpos := Plus(c.seqS, e.recackpos, 1));
      assert forall k: nat | k <= c.wndS :: ValidAt(c, e', k) == ValidAt(c, e, k);
      AdvanceToGap(c, e');
      var r := Advance(c, e.recvalids, e.recwndpos, e.recackpos);
      assert r == Advance(c, e'.recvalids, e'.recwndpos, e'.recackpos);
    } else {
      assert Advance(c, e.recvalids, e.recwndpos, e.recackpos) == e.recackpos;
    }
  }

  lemma ReceiveDataKeepsInv<P>(c: Config, e: Endpoint<P>, p: Packet<P>)
    requires Inv(c, e)
    ensures Inv(c, ReceiveData(c, e, p))
  {
    var d := ReceiveData(c, e, p);
    if c.Aligned() && d != e {
      var m := e.(recbuf := d.recbuf, recvalids := d.recvalids, recvTimer := d.recvTimer);
      forall k: nat | k < RunLength(c, m)
        ensures ValidAt(c, m, k)
      {
        assert ValidAt(c, e, k);
      }
      AdvanceToGap(c, m);
      assert d == m.(recackpos := Advance(c, m.recvalids, m.recwndpos, m.recackpos));
    }
  }

  lemma ReceiveAckKeepsInv<P>(c: Config, e: Endpoint<P>, p: Packet<P>)
    requires Inv(c, e)
    ensures Inv(c, ReceiveAck(c, e, p))
  {
    if c.Aligned() {
      RecvInvFrame(c, e, ReceiveAck(c, e, p));
    }
  }

  /** Whatever packet arrives, well formed or not, the endpoint stays consistent. */
  lemma ReceiveKeepsInv<P>(c: Config, e: Endpoint<P>, p: Packet<P>)
    requires Inv(c, e)
    ensures Inv(c, Receive(c, e, p))
  {
    ReceiveDataKeepsInv(c, e, p);
    ReceiveAckKeepsInv(c, ReceiveData(c, e, p), p);
  }

  /** After a Read the window is the old one without its first slot, which comes back empty at the end. */
  lemma ReadShifts<P>(c: Config, e: Endpoint<P>, k: nat)
    requires Shape(c, e) && c.Aligned() && k < c.wndS
    ensures ValidAt(c, Read(c, e).0, k) <==> k + 1 < c.wndS && ValidAt(c, e, k + 1)
  {
    assert Plus(c.seqS, e.recwndpos, 0) == e.recwndpos;
    assert Plus(c.seqS, Read(c, e).0.recwndpos, k) == Plus(c.seqS, e.recwndpos, k + 1);
    WindowSlotsDistinct(c, e.recwndpos, 0, k + 1);
  }

  lemma ReadKeepsInv<P>(c: Config, e: Endpoint<P>)
    requires Inv(c, e) && HasReadData(c, e)
    ensures Inv(c, Read(c, e).0)
    ensures c.Aligned() ==> RunLength(c, Read(c, e).0) == RunLength(c, e) - 1
  {
    var e' := Read(c, e).0;
    if c.Aligned() {
      assert Plus(c.seqS, e.recwndpos, 0) == e.recwndpos;
      assert ValidAt(c, e, 0);
      assert RunLength(c, e) > 0 && RunLength(c, e') == RunLength(c, e) - 1;
      forall k: nat | k < c.wndS
        ensures ValidAt(c, e', k) <==> k + 1 < c.wndS && ValidAt(c, e, k + 1)
      {
        ReadShifts(c, e, k);
      }
    }
  }

  lemma TimersKeepInv<P>(c: Config, e: Endpoint<P>, tx: int, rx: int)
    requires Inv(c, e)
    ensures Inv(c, Tick(e)) && Inv(c, SetTimeouts(e, tx, rx))
  {
    if c.Aligned() {
      RecvInvFrame(c, e, Tick(e));
      RecvInvFrame(c, e, SetTimeouts(e, tx, rx));
    }
  }

  /** A packet field outside the ring counts as the position it is congruent to: always if it is not negative, and
      if the ring divides the 32-bit range also if it is. */
  lemma ForeignFields<P>(c: Config, e: Endpoint<P>, p: Packet<P>)
    requires Shape(c, e) && c.Aligned()
    requires (p.seqno >= 0 && p.ackno >= 0) || U32_SIZE % c.seqS == 0
    ensures var q := p.(seqno := p.seqno % c.seqS, ackno := p.ackno % c.seqS);
            ReceiveData(c, e, p) == ReceiveData(c, e, q) && ReceiveAck(c, e, p) == ReceiveAck(c, e, q)
  {
    ForeignPosition(c, p.seqno, e.recwndpos);
    ForeignPosition(c, p.ackno, e.wndpos);
  }

  lemma ForeignPosition(c: Config, n: int32, pos: nat)
    requires c.Usable() && c.Aligned() && pos < c.seqS && (n >= 0 || U32_SIZE % c.seqS == 0)
    ensures Dist(c.seqS, n, pos) == Dist(c.seqS, n % c.seqS, pos)
    ensures Slot(c.wndS, n) == Slot(c.wndS, n % c.seqS)
  {
    ForeignDistance(c.seqS, n, pos);
    SlotOfCounter(c.seqS, c.wndS, n % c.seqS);
    Residue(c.seqS, n % c.seqS);
    if n >= 0 {
      SlotOfCounter(c.seqS, c.wndS, n);
      Residue(U32_SIZE, n);
    } else {
      SlotOfCounter(c.seqS, c.wndS, n + U32_SIZE);
      Residue(U32_SIZE, n + U32_SIZE);
      WrapsAround(U32_SIZE, n);
      WrapsAround(c.seqS, n);
    }
  }

  lemma ForeignDistance(size: nat, n: int32, pos: nat)
    requires pos < size <= MAX_SIZE && (n >= 0 || U32_SIZE % size == 0)
    ensures Dist(size, n, pos) == Dist(size, n % size, pos)
  {
    var d := size + n - pos;
    assert n == size * (n / size) + n % size;
    ModShift(size, size + n % size - pos, n / size);
    assert d % size == (size + n % size - pos) % size;
    Residue(U32_SIZE, size + n % size - pos);
    if d >= 0 {
      Residue(U32_SIZE, d);
    } else {
      Residue(U32_SIZE, d + U32_SIZE);
      WrapsAround(U32_SIZE, d);
      WrapsAround(size, d);
    }
  }

  lemma Residue(m: nat, x: nat)
    requires x < m
    ensures x % m == x
  {
    ModUnique(m, x, 0, x);
  }

  /** Adding 2^32 keeps the residue when the ring divides it. */
  lemma WrapsAround(size: nat, x: int)
    requires size > 0 && U32_SIZE % size == 0
    ensures (x + U32_SIZE) % size == x % size
  {
    ModShift(size, x, U32_SIZE / size);
    assert size * (U32_SIZE / size) == U32_SIZE;
  }

  /** Every slot belongs to some position of the window. */
  lemma SlotInWindow(c: Config, pos: int, s: nat) returns (k: nat)
    requires c.Usable() && c.Aligned() && 0 <= pos < c.seqS && s < c.wndS
    ensures k < c.wndS && Slot(c.wndS, Plus(c.seqS, pos, k)) == s
  {
    k := StepsTo(c.wndS, pos, s);
    SlotOfStep(c, pos, k);
  }

  /** Something can be read exactly when the in-order run is not empty; nothing more can be received exactly when it
      fills the window. */
  lemma ReadableExact<P>(c: Config, e: Endpoint<P>)
    requires Inv(c, e) && c.Aligned()
    ensures HasReadData(c, e) <==> RunLength(c, e) > 0
    ensures CanReceive(e) <==> RunLength(c, e) < c.wndS
  {
    if RunLength(c, e) == c.wndS {
      forall s | 0 <= s < c.wndS
        ensures e.recvalids[s]
      {
        var k := SlotInWindow(c, e.recwndpos, s);
        assert ValidAt(c, e, k);
      }
    }
    assert Plus(c.seqS, e.recwndpos, 0) == e.recwndpos;
    assert ValidAt(c, e, 0) == HasReadData(c, e);
  }
}
