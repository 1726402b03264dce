/** What SendDone means over whole runs: everything accepted has been acknowledged, no more and no less. */
module Acknowledged {
  import opened Modular
  import opened ArqSpec
  import opened Steps
  import opened Network
  import opened UnboundedLink
  import opened Refinement
  import opened Delivery

  /** The packets acknowledged to end a in a run: how far its window has moved, step by step. */
  function AckedCount<P>(c: Config, s: System<P>, steps: seq<Step<P>>): nat
    requires Ready(c, s)
    decreases |steps|
  {
    if |steps| == 0 then 0
    else
      var init := steps[..|steps| - 1];
      AckedCount(c, s, init) + Dist(c.seqS, Run(c, s, steps).a.ep.wndpos, Run(c, s, init).a.ep.wndpos)
  }

  /** A step moves the window by no more than what is held, and only while nothing new is accepted. */
  lemma WindowStep<P>(w: nat, v: USystem<P>, step: Step<P>)
    requires UReady(w, v)
    ensures var r := UApply(w, v, step);
            v.a.ep.wnd <= r.a.ep.wnd && (r.a.ep.wnd == v.a.ep.wnd || r.a.ep.wnd <= |v.a.ep.log|)
  {
  }

  lemma {:induction false} AckedIsWindow<P>(c: Config, s: System<P>, steps: seq<Step<P>>)
    requires IsInit(c, s) && c.Aligned()
    ensures UReady(c.wndS, Unbounded(s))
    ensures AckedCount(c, s, steps) == URun(c.wndS, Unbounded(s), steps).a.ep.wnd
    decreases |steps|
  {
    InitRefines(c, s);
    if |steps| > 0 {
      var init, last := steps[..|steps| - 1], steps[|steps| - 1];
      AckedIsWindow(c, s, init);
      RunRefines(c, s, init);
      RunRefines(c, s, steps);
      var v, r := URun(c.wndS, Unbounded(s), init), URun(c.wndS, Unbounded(s), steps);
      WindowStep(c.wndS, v, last);
      DistOfCounters(c.seqS, r.a.ep.wnd, v.a.ep.wnd);
    }
  }

  /** In every state of every run, a's SendDone holds if and only if as many packets have been acknowledged to a as
      its Send has accepted payloads; and what is acknowledged b has accepted in order, never more. */
  lemma DoneExactly<P>(c: Config, s: System<P>, steps: seq<Step<P>>)
    requires IsInit(c, s) && c.Aligned()
    ensures var r := Run(c, s, steps);
            && (SendDone(c, r.a.ep) <==> AckedCount(c, s, steps) == |r.a.sent|)
            && AckedCount(c, s, steps) <= |r.b.read| + |InOrder(c, r.b.ep)| <= |r.a.sent|
  {
    AckedIsWindow(c, s, steps);
    RunRefines(c, s, steps);
    var r, v := Run(c, s, steps), URun(c.wndS, Unbounded(s), steps);
    DoneOfRel(c, r.a.ep, v.a.ep);
    InOrderIsPrefix(c, r.b.ep, v.b.ep, v.a.ep.log);
  }

  lemma DoneOfRel<P>(c: Config, e: Endpoint<P>, u: UEndpoint<P>)
    requires Shape(c, e) && RelSend(c, e, u)
    ensures SendDone(c, e) <==> u.wnd == |u.log|
  {
    DistOfCounters(c.seqS, |u.log|, u.wnd);
  }
}
