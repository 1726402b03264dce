/** The ARQ protocol object: the fields, buffers, timers and loops of the source, each method proved
    against the state functions of ArqSpec. */
module ArqObject {
  import opened Modular
  import opened Timers
  import opened ArqSpec
  import opened Wrappers

  class ARQ<P(0)> {
    const SEQ_S: nat
    const WND_S: nat

    // Send packets
    const sendbuf: array<P>
    var seqpos: int
    var wndpos: int
    var sendpos: int
    const SendTimer: Timer

    // Receive packets
    const recbuf: array<P>
    const recvalids: array<bool>
    var recwndpos: int
    var recackpos: int
    const RecvTimer: Timer

    function Cfg(): Config {
      Config(SEQ_S, WND_S)
    }

    ghost function Repr(): set<object> {
      {this, sendbuf, recbuf, recvalids, SendTimer, RecvTimer}
    }

    ghost function State(): Endpoint<P>
      reads Repr()
    {
      Endpoint(sendbuf[..], seqpos, wndpos, sendpos, SendTimer.State(),
               recbuf[..], recvalids[..], recwndpos, recackpos, RecvTimer.State())
    }

    ghost predicate Separate() {
      && SendTimer != RecvTimer && sendbuf != recbuf
      && recvalids as object != sendbuf && recvalids as object != recbuf
    }

    ghost predicate Valid()
      reads Repr()
    {
      Separate() && Inv(Cfg(), State())
    }

    constructor (seqS: nat, wndS: nat, sendTimeout: int, recvTimeout: int)
      requires Config(seqS, wndS).Usable()
      ensures Valid() && fresh(Repr()) && Cfg() == Config(seqS, wndS)
      ensures State() == Cleared(Cfg(), State())
      ensures State().sendTimer.max == sendTimeout && State().recvTimer.max == recvTimeout
    {
      SEQ_S := seqS;
      WND_S := wndS;
      sendbuf := new P[wndS];
      SendTimer := new Timer(sendTimeout);
      recbuf := new P[wndS];
      recvalids := new bool[wndS];
      RecvTimer := new Timer(recvTimeout);
      new;
      Reset();
    }

    method Reset()
      requires Separate() && Cfg().Usable() && sendbuf.Length == recbuf.Length == recvalids.Length == WND_S
      modifies Repr()
      ensures Valid()
      ensures State() == Cleared(Cfg(), old(State()))
    {
      SendTimer.Stop();
      RecvTimer.Stop();
      seqpos := 0;
      wndpos := 0;
      sendpos := 0;
      recwndpos := 0;
      recackpos := SEQ_S - 1;
      for i := 0 to WND_S
        invariant forall k :: 0 <= k < i ==> !recvalids[k]
        modifies recvalids
      {
        recvalids[i] := false;
      }
      assert recvalids[..] == seq(WND_S, _ => false);
      ClearedKeepsInv(Cfg(), old(State()));
    }

    method SetTimeouts(txtimeout: int, rxtimeout: int)
      requires Valid()
      modifies SendTimer, RecvTimer
      ensures Valid()
      ensures State() == ArqSpec.SetTimeouts(old(State()), txtimeout, rxtimeout)
    {
      SendTimer.SetTimeoutVal(txtimeout);
      RecvTimer.SetTimeoutVal(rxtimeout);
      TimersKeepInv(Cfg(), old(State()), txtimeout, rxtimeout);
    }

    method CanSend() returns (r: bool)
      requires Valid()
      ensures r <==> ArqSpec.CanSend(Cfg(), State())
    {
      r := Dist(SEQ_S, seqpos, wndpos) < WND_S;
    }

    /** Stores the payload unless the buffer is full; the result tells which. */
    method Send(p: P) returns (r: int)
      requires Valid()
      modifies this`seqpos, sendbuf
      ensures Valid()
      ensures State() == ArqSpec.Send(Cfg(), old(State()), p)
      ensures r == if ArqSpec.CanSend(Cfg(), old(State())) then 1 else 0
    {
      SendKeepsInv(Cfg(), State(), p);
      if Dist(SEQ_S, seqpos, wndpos) == WND_S {
        return 0;
      }
      sendbuf[Slot(WND_S, seqpos)] := p;
      assert sendbuf[..] == old(sendbuf[..])[Slot(WND_S, seqpos) := p];
      seqpos := Plus(SEQ_S, seqpos, 1);
      return 1;
    }

    method SendDone() returns (r: bool)
      requires Valid()
      ensures r <==> ArqSpec.SendDone(Cfg(), State())
    {
      r := Dist(SEQ_S, seqpos, wndpos) == 0;
    }

    method HasSendData() returns (r: bool)
      requires Valid()
      ensures r <==> ArqSpec.HasSendData(Cfg(), State())
      ensures r <==> ArqSpec.GetSendData(Cfg(), State()).1.Some?
    {
      TransmitExact(Cfg(), State());
      r := SendTimer.Timeout() || RecvTimer.Timeout() || Dist(SEQ_S, seqpos, sendpos) > 0;
    }

    method GetSendData() returns (r: int, p: Option<Packet<P>>)
      requires Valid()
      modifies this`sendpos, SendTimer, RecvTimer
      ensures Valid()
      ensures (State(), p) == ArqSpec.GetSendData(Cfg(), old(State()))
      ensures r == if old(ArqSpec.HasSendData(Cfg(), State())) then 1 else 0
    {
      TransmitExact(Cfg(), State());
      GetSendDataKeepsInv(Cfg(), State());
      if SendTimer.Timeout() {
        SendTimer.Ack();
        if seqpos == wndpos {
          return 0, None;
        }
        p := Some(Packet(true, wndpos, recackpos, sendbuf[Slot(WND_S, wndpos)]));
        SendTimer.Continue();
      } else if Dist(SEQ_S, seqpos, sendpos) > 0 {
        p := Some(Packet(true, sendpos, recackpos, sendbuf[Slot(WND_S, sendpos)]));
        sendpos := Plus(SEQ_S, sendpos, 1);
        SendTimer.Continue();
      } else if RecvTimer.Timeout() {
        p := Some(Packet(false, 0, recackpos, sendbuf[0]));
        RecvTimer.Ack();
      } else {
        return 0, None;
      }
      RecvTimer.Stop();
      r := 1;
    }

    method CanReceive() returns (r: bool)
      requires Valid()
      ensures r <==> exists s :: 0 <= s < recvalids.Length && !recvalids[s]
      ensures !r && Cfg().Aligned() ==> ArqSpec.HasReadData(Cfg(), State())
    {
      for s := 0 to WND_S
        invariant forall k :: 0 <= k < s ==> recvalids[k]
      {
        if !recvalids[s] {
          return true;
        }
      }
      if Cfg().Aligned() {
        ReadableExact(Cfg(), State());
      }
      return false;
    }

    /** Increments the ack position over valid slots, within the receive window. */
    method AdvanceAck()
      requires Separate() && Shape(Cfg(), State())
      modifies this`recackpos
      ensures recackpos == Advance(Cfg(), recvalids[..], recwndpos, old(recackpos))
    {
      while recvalids[Slot(WND_S, Plus(SEQ_S, recackpos, 1))] && Dist(SEQ_S, recackpos + 1, recwndpos) < WND_S
        invariant 0 <= recackpos < SEQ_S
        invariant Advance(Cfg(), recvalids[..], recwndpos, recackpos)
               == Advance(Cfg(), recvalids[..], recwndpos, old(recackpos))
        decreases WND_S - Dist(SEQ_S, recackpos + 1, recwndpos)
      {
        recackpos := Plus(SEQ_S, recackpos, 1);
      }
    }

    method ReceiveData(p: Packet<P>)
      requires Valid()
      modifies this`recackpos, recbuf, recvalids, RecvTimer
      ensures Valid()
      ensures State() == ArqSpec.ReceiveData(Cfg(), old(State()), p)
    {
      ReceiveDataKeepsInv(Cfg(), State(), p);
      if p.seqvalid {
        var seqofs := Dist(SEQ_S, p.seqno, recwndpos);
        if seqofs >= WND_S {
          // dropping packet out of window
        } else if recvalids[Slot(WND_S, p.seqno)] {
          // dropping packet already received
        } else {
          recbuf[Slot(WND_S, p.seqno)] := p.data;
          recvalids[Slot(WND_S, p.seqno)] := true;
          assert recbuf[..] == old(recbuf[..])[Slot(WND_S, p.seqno) := p.data];
          assert recvalids[..] == old(recvalids[..])[Slot(WND_S, p.seqno) := true];
          AdvanceAck();
          RecvTimer.Continue();
        }
      }
    }

    method ReceiveAck(p: Packet<P>)
      requires Valid()
      modifies this`wndpos, SendTimer
      ensures Valid()
      ensures State() == ArqSpec.ReceiveAck(Cfg(), old(State()), p)
    {
      ReceiveAckKeepsInv(Cfg(), State(), p);
      var ackofs := Dist(SEQ_S, p.ackno, wndpos);
      var ackleft := Dist(SEQ_S, sendpos, wndpos);
      if ackofs < ackleft {
        wndpos := Plus(SEQ_S, wndpos, ackofs + 1);
        if wndpos == sendpos {
          SendTimer.Stop();
        } else {
          SendTimer.Start();
        }
      }
    }

    /** Takes any packet, in or out of the sequence range. */
    method Receive(p: Packet<P>) returns (r: int)
      requires Valid()
      modifies this`recackpos, recbuf, recvalids, RecvTimer, this`wndpos, SendTimer
      ensures Valid()
      ensures State() == ArqSpec.Receive(Cfg(), old(State()), p)
      ensures r == 0
    {
      ReceiveData(p);
      ReceiveAck(p);
      return 0;
    }

    method HasReadData() returns (r: bool)
      requires Valid()
      ensures r <==> ArqSpec.HasReadData(Cfg(), State())
      ensures Cfg().Aligned() ==> (r <==> RunLength(Cfg(), State()) > 0)
    {
      if Cfg().Aligned() {
        ReadableExact(Cfg(), State());
      }
      r := recvalids[Slot(WND_S, recwndpos)];
    }

    /** The source waits for data; here the caller has made sure there is some. */
    method Read() returns (r: int, p: P)
      requires Valid() && ArqSpec.HasReadData(Cfg(), State())
      modifies this`recwndpos, recvalids
      ensures Valid()
      ensures (State(), p) == ArqSpec.Read(Cfg(), old(State()))
      ensures r == 1
    {
      ReadKeepsInv(Cfg(), State());
      p := recbuf[Slot(WND_S, recwndpos)];
      recvalids[Slot(WND_S, recwndpos)] := false;
      assert recvalids[..] == old(recvalids[..])[Slot(WND_S, recwndpos) := false];
      recwndpos := Plus(SEQ_S, recwndpos, 1);
      r := 1;
    }

    method Tick()
      requires Valid()
      modifies SendTimer, RecvTimer
      ensures Valid()
      ensures State() == ArqSpec.Tick(old(State()))
    {
      TimersKeepInv(Cfg(), State(), 0, 0);
      SendTimer.Tick();
      RecvTimer.Tick();
    }
  }
}
