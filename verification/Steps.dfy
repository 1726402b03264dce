/** What can happen to one end of a link. Channels keep their order but may drop any packet in flight
    and may hand over the oldest one more than once. */
module Steps {

  datatype Op<P> =
    | Send(payload: P)
    | Transmit
    | Deliver
    | DeliverCopy
    | Lose(index: nat)
    | Read
    | Tick
    | SetTimeouts(tx: int, rx: int)

  /** An operation at end A (or at end B); Deliver, DeliverCopy and Lose act on the channel towards it. */
  datatype Step<P> = Step(atA: bool, op: Op<P>)

  function Without<T>(s: seq<T>, i: nat): (r: seq<T>)
    requires i < |s|
    ensures |r| == |s| - 1
    ensures forall k :: 0 <= k < |r| ==> r[k] == s[if k < i then k else k + 1]
  {
    s[..i] + s[i + 1..]
  }

  ghost predicate Prefix<T>(s: seq<T>, t: seq<T>) {
    |s| <= |t| && s == t[..|s|]
  }

  function Fold<S, T>(f: (S, T) -> S, s: S, ts: seq<T>): S
    decreases |ts|
  {
    if |ts| == 0 then s else f(Fold(f, s, ts[..|ts| - 1]), ts[|ts| - 1])
  }

  lemma {:induction false} FoldConcat<S, T>(f: (S, T) -> S, s: S, before: seq<T>, after: seq<T>)
    ensures Fold(f, s, before + after) == Fold(f, Fold(f, s, before), after)
    decreases |after|
  {
    if after == [] {
      assert before + after == before;
    } else {
      var n := |after| - 1;
      assert (before + after)[..|before| + n] == before + after[..n];
      FoldConcat(f, s, before, after[..n]);
    }
  }
}
