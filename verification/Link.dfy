/** Two ARQ objects and the packets in flight between them: the methods of the objects, called in any
    order, take the system through the very states the theorems about runs speak of. */
module LinkObject {
  import opened ArqSpec
  import opened ArqObject
  import opened Steps
  import opened Network

  /** One ARQ object with the packets it put in flight and what its user handed in and took out. */
  class End<P(0)> {
    const arq: ARQ<P>
    var out: seq<Packet<P>>
    var sent: seq<P>
    var read: seq<P>

    ghost function Repr(): set<object> {
      {this} + arq.Repr()
    }

    ghost predicate Valid()
      reads Repr()
    {
      this !in arq.Repr() && arq.Valid()
    }

    ghost function State(): Side<P>
      reads Repr()
    {
      Side(arq.State(), out, sent, read)
    }

    constructor (seqS: nat, wndS: nat, sendTimeout: int, recvTimeout: int)
      requires Config(seqS, wndS).Usable()
      ensures Valid() && fresh(Repr()) && arq.Cfg() == Config(seqS, wndS)
      ensures State() == Side(Cleared(arq.Cfg(), arq.State()), [], [], [])
    {
      arq := new ARQ<P>(seqS, wndS, sendTimeout, recvTimeout);
      out, sent, read := [], [], [];
    }

    /** What the user and the clock do to this end. */
    method Local(op: Op<P>)
      requires Valid() && (op.Send? || op.Read? || op.Tick? || op.SetTimeouts?)
      modifies Repr()
      ensures Valid()
      ensures forall y: Side<P> {:trigger System(State(), y)} | Shape(arq.Cfg(), y.ep) ::
                System(State(), y) == Act(arq.Cfg(), System(old(State()), y), op)
    {
      match op {
        case Send(p) =>
          var r := arq.Send(p);
          if r == 1 {
            sent := sent + [p];
          }
        case Read =>
          var ready := arq.HasReadData();
          if ready {
            var _, p := arq.Read();
            read := read + [p];
          }
        case Tick =>
          arq.Tick();
        case SetTimeouts(tx, rx) =>
          arq.SetTimeouts(tx, rx);
      }
    }

    method Transmit()
      requires Valid()
      modifies Repr()
      ensures Valid()
      ensures State() == old(State()).(ep := old(GetSendData(arq.Cfg(), arq.State()).0), out := out)
      ensures var p := old(GetSendData(arq.Cfg(), arq.State()).1);
              out == if p.Some? then old(out) + [p.value] else old(out)
    {
      var _, p := arq.GetSendData();
      if p.Some? {
        out := out + [p.value];
      }
    }

    method Receive(p: Packet<P>)
      requires Valid()
      modifies Repr()
      ensures Valid()
      ensures State() == old(State()).(ep := old(ArqSpec.Receive(arq.Cfg(), arq.State(), p)))
    {
      var _ := arq.Receive(p);
    }
  }

  class Link<P(0)> {
    const a: End<P>
    const b: End<P>

    ghost function Cfg(): Config {
      a.arq.Cfg()
    }

    ghost function Repr(): set<object> {
      a.Repr() + b.Repr()
    }

    ghost predicate Valid()
      reads Repr()
    {
      a.Repr() !! b.Repr() && a.Valid() && b.Valid() && b.arq.Cfg() == a.arq.Cfg()
    }

    ghost function State(): System<P>
      reads Repr()
    {
      System(a.State(), b.State())
    }

    constructor (seqS: nat, wndS: nat, sendTimeout: int, recvTimeout: int)
      requires Config(seqS, wndS).Usable()
      ensures Valid() && fresh(Repr()) && Cfg() == Config(seqS, wndS)
      ensures IsInit(Cfg(), State())
    {
      a := new End<P>(seqS, wndS, sendTimeout, recvTimeout);
      b := new End<P>(seqS, wndS, sendTimeout, recvTimeout);
    }

    static method At(x: End<P>, y: End<P>, op: Op<P>)
      requires x.Repr() !! y.Repr() && x.Valid() && y.Valid() && y.arq.Cfg() == x.arq.Cfg()
      modifies x.Repr(), y.Repr()
      ensures x.Valid() && y.Valid()
      ensures System(x.State(), y.State()) == Act(x.arq.Cfg(), old(System(x.State(), y.State())), op)
    {
      if op.Transmit? {
        x.Transmit();
      } else if op.Deliver? || op.DeliverCopy? {
        if |y.out| > 0 {
          x.Receive(y.out[0]);
          if op.Deliver? {
            y.out := y.out[1..];
          }
        }
      } else if op.Lose? {
        if op.index < |y.out| {
          y.out := Without(y.out, op.index);
        }
      } else {
        x.Local(op);
      }
    }

    method Do(step: Step<P>)
      requires Valid()
      modifies Repr()
      ensures Valid()
      ensures State() == Apply(Cfg(), old(State()), step)
    {
      if step.atA {
        At(a, b, step.op);
      } else {
        At(b, a, step.op);
      }
    }
  }
}
