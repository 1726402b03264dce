/** The link with unbounded packet numbers: no modulus, no slots, no reuse. Packets carry their absolute
    number and the absolute count of packets their sender has accepted. */
module UnboundedLink {
  import opened Timers
  import opened Wrappers
  import opened Steps

  datatype UPacket<P> =
    | Data(n: nat, acked: nat, data: P)
    | AckOnly(acked: nat)

  /** `log` is everything accepted from the upper layer; `wnd`, `sent` count acknowledged and transmitted
      packets; `got` holds accepted, unread packets by number; `read` is everything handed upwards. */
  datatype UEndpoint<P> = UEndpoint(
    log: seq<P>, wnd: nat, sent: nat, sendTimer: TimerState,
    got: map<nat, P>, read: seq<P>, acc: nat, recvTimer: TimerState)

  predicate Ordered<P>(e: UEndpoint<P>) {
    e.wnd <= e.sent <= |e.log|
  }

  function USend<P>(w: nat, e: UEndpoint<P>, p: P): (e': UEndpoint<P>)
    requires Ordered(e)
    ensures Ordered(e')
  {
    if |e.log| - e.wnd == w then e else e.(log := e.log + [p])
  }

  function UTransmit<P>(e: UEndpoint<P>): (r: (UEndpoint<P>, Option<UPacket<P>>))
    requires Ordered(e)
    ensures Ordered(r.0)
  {
    if e.sendTimer.timeout then
      if |e.log| == e.wnd then (e.(sendTimer := e.sendTimer.Acked()), None)
      else
        (e.(sendTimer := e.sendTimer.Acked().Continued(), recvTimer := e.recvTimer.Stopped()),
         Some(Data(e.wnd, e.acc, e.log[e.wnd])))
    else if |e.log| > e.sent then
      (e.(sent := e.sent + 1, sendTimer := e.sendTimer.Continued(), recvTimer := e.recvTimer.Stopped()),
       Some(Data(e.sent, e.acc, e.log[e.sent])))
    else if e.recvTimer.timeout then
      (e.(recvTimer := e.recvTimer.Acked().Stopped()), Some(AckOnly(e.acc)))
    else (e, None)
  }

  /** The first number from acc up to limit that has not been accepted. */
  function UAdvance<P>(got: map<nat, P>, acc: nat, limit: nat): (r: nat)
    requires acc <= limit
    ensures acc <= r <= limit
    ensures forall k :: acc <= k < r ==> k in got
    ensures r < limit ==> r !in got
    decreases limit - acc
  {
    if acc < limit && acc in got then UAdvance(got, acc + 1, limit) else acc
  }

  /** Accept what lies in the window after the last packet read and is not there yet. */
  function UReceiveData<P>(w: nat, e: UEndpoint<P>, p: UPacket<P>): UEndpoint<P>
    requires e.acc <= |e.read| + w
  {
    if p.AckOnly? || p.n < |e.read| || p.n >= |e.read| + w || p.n in e.got then e
    else
      var got := e.got[p.n := p.data];
      e.(got := got, acc := UAdvance(got, e.acc, |e.read| + w), recvTimer := e.recvTimer.Continued())
  }

  function UReceiveAck<P>(e: UEndpoint<P>, p: UPacket<P>): (e': UEndpoint<P>)
    requires Ordered(e)
    ensures Ordered(e')
  {
    if e.wnd < p.acked <= e.sent then
      e.(wnd := p.acked,
         sendTimer := if p.acked == e.sent then e.sendTimer.Stopped() else e.sendTimer.Started())
    else e
  }

  function URead<P>(e: UEndpoint<P>): UEndpoint<P>
    requires |e.read| in e.got
  {
    e.(read := e.read + [e.got[|e.read|]], got := e.got - {|e.read|})
  }

  // ---------------------------------------------------------------- the system

  datatype USide<P> = USide(ep: UEndpoint<P>, out: seq<UPacket<P>>)

  datatype USystem<P> = USystem(a: USide<P>, b: USide<P>) {
    function Flip(): USystem<P> {
      USystem(b, a)
    }
  }

  predicate UReady<P>(w: nat, u: USystem<P>) {
    && Ordered(u.a.ep) && Ordered(u.b.ep)
    && u.a.ep.acc <= |u.a.ep.read| + w && u.b.ep.acc <= |u.b.ep.read| + w
  }

  function UReceive<P>(w: nat, e: UEndpoint<P>, p: UPacket<P>): UEndpoint<P>
    requires Ordered(e) && e.acc <= |e.read| + w
  {
    UReceiveAck(UReceiveData(w, e, p), p)
  }

  function UAct<P>(w: nat, u: USystem<P>, op: Op<P>): (u': USystem<P>)
    requires UReady(w, u)
    ensures UReady(w, u')
  {
    var e := u.a.ep;
    match op
    case Send(p) => u.(a := u.a.(ep := USend(w, e, p)))
    case Transmit =>
      var (e', p) := UTransmit(e);
      u.(a := USide(e', if p.Some? then u.a.out + [p.value] else u.a.out))
    case Deliver =>
      if u.b.out == [] then u
      else USystem(u.a.(ep := UReceive(w, e, u.b.out[0])), u.b.(out := u.b.out[1..]))
    case DeliverCopy =>
      if u.b.out == [] then u else u.(a := u.a.(ep := UReceive(w, e, u.b.out[0])))
    case Lose(i) =>
      if i < |u.b.out| then u.(b := u.b.(out := Without(u.b.out, i))) else u
    case Read =>
      if |e.read| in e.got then u.(a := u.a.(ep := URead(e))) else u
    case Tick =>
      u.(a := u.a.(ep := e.(sendTimer := e.sendTimer.Ticked(), recvTimer := e.recvTimer.Ticked())))
    case SetTimeouts(tx, rx) =>
      u.(a := u.a.(ep := e.(sendTimer := e.sendTimer.WithLimit(tx), recvTimer := e.recvTimer.WithLimit(rx))))
  }

  function UApply<P>(w: nat, u: USystem<P>, step: Step<P>): (u': USystem<P>)
    requires UReady(w, u)
    ensures UReady(w, u')
  {
    if step.atA then UAct(w, u, step.op) else UAct(w, u.Flip(), step.op).Flip()
  }

  // ---------------------------------------------------------------- the invariant of one direction

  /** Sender x, receiver y: what is acknowledged has been accepted, what is accepted has been sent. */
  ghost predicate Counters<P>(w: nat, x: UEndpoint<P>, y: UEndpoint<P>) {
    && x.wnd <= y.acc <= x.sent <= |x.log| <= x.wnd + w
    && |y.read| <= y.acc <= |y.read| + w
    && (x.sendTimer.Live() <==> x.wnd != x.sent)
  }

  /** Everything accepted is what was sent under that number; acc is the first number missing. */
  ghost predicate Stored<P>(w: nat, x: UEndpoint<P>, y: UEndpoint<P>) {
    && y.read == x.log[..if |y.read| <= |x.log| then |y.read| else 0]
    && (forall n :: n in y.got ==> |y.read| <= n < |y.read| + w && n < x.sent <= |x.log| && y.got[n] == x.log[n])
    && (forall n :: |y.read| <= n < y.acc ==> n in y.got)
    && y.acc !in y.got
  }

  /** A data packet in flight is genuine, and nothing a window or more above it can have overtaken it. */
  ghost predicate InFlight<P>(w: nat, x: UEndpoint<P>, y: UEndpoint<P>, p: UPacket<P>) {
    p.Data? ==>
      && p.n < x.sent <= |x.log| && p.data == x.log[p.n]
      && y.acc <= p.n + w
      && forall m :: m in y.got ==> m < p.n + w
  }

  ghost predicate DataChannel<P>(w: nat, x: UEndpoint<P>, y: UEndpoint<P>, out: seq<UPacket<P>>) {
    && (forall i :: 0 <= i < |out| ==> InFlight(w, x, y, out[i]))
    && (forall i, j :: 0 <= i < j < |out| && out[i].Data? && out[j].Data? ==> out[i].n < out[j].n + w)
  }

  /** Acknowledgements in flight never go back behind the sender's window, nor behind one another. */
  ghost predicate AckChannel<P>(x: UEndpoint<P>, y: UEndpoint<P>, out: seq<UPacket<P>>) {
    && (forall i :: 0 <= i < |out| ==> x.wnd <= out[i].acked <= y.acc)
    && (forall i, j :: 0 <= i < j < |out| ==> out[i].acked <= out[j].acked)
  }

  ghost predicate Half<P>(w: nat, x: USide<P>, y: USide<P>) {
    && Counters(w, x.ep, y.ep)
    && Stored(w, x.ep, y.ep)
    && DataChannel(w, x.ep, y.ep, x.out)
    && AckChannel(x.ep, y.ep, y.out)
  }

  ghost predicate UInv<P>(w: nat, u: USystem<P>) {
    Half(w, u.a, u.b) && Half(w, u.b, u.a)
  }

  // ---------------------------------------------------------------- preservation

  lemma SendSteps<P>(w: nat, x: USide<P>, y: USide<P>, p: P)
    requires w > 0 && Half(w, x, y)
    ensures Half(w, x.(ep := USend(w, x.ep, p)), y)
  {
  }

  lemma TransmitAsSender<P>(w: nat, x: USide<P>, y: USide<P>)
    requires w > 0 && Half(w, x, y)
    ensures var (e, p) := UTransmit(x.ep);
            Half(w, USide(e, if p.Some? then x.out + [p.value] else x.out), y)
  {
  }

  lemma TransmitAsReceiver<P>(w: nat, x: USide<P>, y: USide<P>)
    requires w > 0 && Half(w, x, y) && Ordered(y.ep)
    ensures var (e, p) := UTransmit(y.ep);
            Half(w, x, USide(e, if p.Some? then y.out + [p.value] else y.out))
  {
  }

  lemma ReceiveAsSender<P>(w: nat, x: USide<P>, y: USide<P>)
    requires w > 0 && Half(w, x, y) && y.out != []
    ensures Half(w, x.(ep := UReceiveAck(x.ep, y.out[0])), y)
    ensures Half(w, x.(ep := UReceiveAck(x.ep, y.out[0])), y.(out := y.out[1..]))
  {
  }

  lemma ReceiveAsReceiver<P>(w: nat, x: USide<P>, y: USide<P>)
    requires w > 0 && Half(w, x, y) && x.out != []
    ensures Half(w, x, y.(ep := UReceiveData(w, y.ep, x.out[0])))
    ensures Half(w, x.(out := x.out[1..]), y.(ep := UReceiveData(w, y.ep, x.out[0])))
  {
    var e, p := UReceiveData(w, y.ep, x.out[0]), x.out[0];
    if e != y.ep {
      assert forall m :: m in e.got <==> m in y.ep.got || m == p.n;
      assert e.acc > y.ep.acc ==> e.acc - 1 in e.got;
      forall i | 0 <= i < |x.out|
        ensures InFlight(w, x.ep, e, x.out[i])
      {
        assert InFlight(w, x.ep, y.ep, x.out[i]);
        if x.out[i].Data? {
          assert p.n < x.out[i].n + w;
        }
      }
    }
  }

  lemma ReadSteps<P>(w: nat, x: USide<P>, y: USide<P>)
    requires w > 0 && Half(w, x, y) && |y.ep.read| in y.ep.got
    ensures Half(w, x, y.(ep := URead(y.ep)))
  {
  }

  lemma LoseSteps<P>(w: nat, x: USide<P>, y: USide<P>, i: nat)
    requires Half(w, x, y)
    ensures i < |x.out| ==> Half(w, x.(out := Without(x.out, i)), y)
    ensures i < |y.out| ==> Half(w, x, y.(out := Without(y.out, i)))
  {
  }

  /** A direction depends on the sending part of x and the receiving part of y only. */
  lemma HalfFrame<P>(w: nat, x: USide<P>, y: USide<P>, x': USide<P>, y': USide<P>)
    requires Half(w, x, y) && x'.out == x.out && y'.out == y.out
    requires x'.ep.log == x.ep.log && x'.ep.wnd == x.ep.wnd && x'.ep.sent == x.ep.sent
    requires x'.ep.sendTimer.Live() == x.ep.sendTimer.Live()
    requires y'.ep.got == y.ep.got && y'.ep.read == y.ep.read && y'.ep.acc == y.ep.acc
    ensures Half(w, x', y')
  {
  }

  lemma ReceiveInbound<P>(w: nat, x: USide<P>, y: USide<P>)
    requires w > 0 && Half(w, x, y) && x.out != [] && Ordered(y.ep)
    ensures Half(w, x, y.(ep := UReceive(w, y.ep, x.out[0])))
    ensures Half(w, x.(out := x.out[1..]), y.(ep := UReceive(w, y.ep, x.out[0])))
  {
    var d := y.(ep := UReceiveData(w, y.ep, x.out[0]));
    var r := y.(ep := UReceive(w, y.ep, x.out[0]));
    ReceiveAsReceiver(w, x, y);
    HalfFrame(w, x, d, x, r);
    HalfFrame(w, x.(out := x.out[1..]), d, x.(out := x.out[1..]), r);
  }

  lemma ReceiveOutbound<P>(w: nat, x: USide<P>, y: USide<P>)
    requires w > 0 && Half(w, x, y) && y.out != [] && x.ep.acc <= |x.ep.read| + w
    ensures Half(w, x.(ep := UReceive(w, x.ep, y.out[0])), y)
    ensures Half(w, x.(ep := UReceive(w, x.ep, y.out[0])), y.(out := y.out[1..]))
  {
    var k := x.(ep := UReceiveAck(x.ep, y.out[0]));
    var r := x.(ep := UReceive(w, x.ep, y.out[0]));
    ReceiveAsSender(w, x, y);
    HalfFrame(w, k, y, r, y);
    HalfFrame(w, k, y.(out := y.out[1..]), r, y.(out := y.out[1..]));
  }

  /** Every operation keeps both directions sound. */
  lemma UActKeepsInv<P>(w: nat, u: USystem<P>, op: Op<P>)
    requires w > 0 && UReady(w, u) && UInv(w, u)
    ensures UInv(w, UAct(w, u, op))
  {
    var u' := UAct(w, u, op);
    match op
    case Send(p) =>
      SendSteps(w, u.a, u.b, p);
      HalfFrame(w, u.b, u.a, u'.b, u'.a);
    case Transmit =>
      TransmitAsSender(w, u.a, u.b);
      TransmitAsReceiver(w, u.b, u.a);
    case Deliver =>
      if u.b.out != [] {
        ReceiveInbound(w, u.b, u.a);
        ReceiveOutbound(w, u.a, u.b);
      }
    case DeliverCopy =>
      if u.b.out != [] {
        ReceiveInbound(w, u.b, u.a);
        ReceiveOutbound(w, u.a, u.b);
      }
    case Lose(i) =>
      LoseSteps(w, u.a, u.b, i);
      LoseSteps(w, u.b, u.a, i);
    case Read =>
      if |u.a.ep.read| in u.a.ep.got {
        ReadSteps(w, u.b, u.a);
        HalfFrame(w, u.a, u.b, u'.a, u'.b);
      }
    case Tick =>
      HalfFrame(w, u.a, u.b, u'.a, u'.b);
      HalfFrame(w, u.b, u.a, u'.b, u'.a);
    case SetTimeouts(tx, rx) =>
      HalfFrame(w, u.a, u.b, u'.a, u'.b);
      HalfFrame(w, u.b, u.a, u'.b, u'.a);
  }

  lemma UApplyKeepsInv<P>(w: nat, u: USystem<P>, step: Step<P>)
    requires w > 0 && UReady(w, u) && UInv(w, u)
    ensures UInv(w, UApply(w, u, step))
  {
    if step.atA {
      UActKeepsInv(w, u, step.op);
    } else {
      UActKeepsInv(w, u.Flip(), step.op);
    }
  }

  function URun<P>(w: nat, u: USystem<P>, steps: seq<Step<P>>): (u': USystem<P>)
    requires UReady(w, u)
    ensures UReady(w, u')
    decreases |steps|
  {
    if |steps| == 0 then u
    else UApply(w, URun(w, u, steps[..|steps| - 1]), steps[|steps| - 1])
  }

  lemma URunSnoc<P>(w: nat, u: USystem<P>, steps: seq<Step<P>>, step: Step<P>)
    requires UReady(w, u)
    ensures URun(w, u, steps + [step]) == UApply(w, URun(w, u, steps), step)
  {
    assert (steps + [step])[..|steps|] == steps;
  }

  /** UApply on every state, for the general lemma about folds. */
  function TotalStep<P>(w: nat): (USystem<P>, Step<P>) -> USystem<P> {
    (u: USystem<P>, step: Step<P>) => if UReady(w, u) then UApply(w, u, step) else u
  }

  lemma {:induction false} URunIsFold<P>(w: nat, u: USystem<P>, steps: seq<Step<P>>)
    requires UReady(w, u)
    ensures URun(w, u, steps) == Fold(TotalStep(w), u, steps)
    decreases |steps|
  {
    if |steps| > 0 {
      URunIsFold(w, u, steps[..|steps| - 1]);
    }
  }

  lemma URunConcat<P>(w: nat, u: USystem<P>, before: seq<Step<P>>, after: seq<Step<P>>)
    requires UReady(w, u)
    ensures URun(w, u, before + after) == URun(w, URun(w, u, before), after)
  {
    var v := URun(w, u, before);
    URunIsFold(w, u, before);
    URunIsFold(w, u, before + after);
    URunIsFold(w, v, after);
    FoldConcat(TotalStep(w), u, before, after);
  }

  lemma {:induction false} URunKeepsInv<P>(w: nat, u: USystem<P>, steps: seq<Step<P>>)
    requires w > 0 && UReady(w, u) && UInv(w, u)
    ensures UInv(w, URun(w, u, steps))
    decreases |steps|
  {
    if |steps| > 0 {
      var init := steps[..|steps| - 1];
      URunKeepsInv(w, u, init);
      UApplyKeepsInv(w, URun(w, u, init), steps[|steps| - 1]);
    }
  }

  /** A data packet in flight is at most one window behind what its receiver has read and less than two
      windows ahead of it. */
  lemma InFlightRange<P>(w: nat, x: USide<P>, y: USide<P>, i: nat)
    requires Half(w, x, y) && i < |x.out| && x.out[i].Data?
    ensures |y.ep.read| <= x.out[i].n + w && x.out[i].n < |y.ep.read| + 2 * w
  {
    assert InFlight(w, x.ep, y.ep, x.out[i]);
  }
}
