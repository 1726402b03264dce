/** Scheduling pulses for the playback FIFO: greedy release times at least two clock cycles apart, sent as
    differences. Cycle numbers are integers; the source rounds floating-point times to them first. */
module Playback {
  import opened Modular
  import opened Bits
  import opened TraceCodec

  /** A pulse to play: its neuron and the clock cycle it should be released in. */
  datatype Wish = Wish(id: nat, ideal: int)

  /** A pulse kept: its index in the list, its ideal cycle, and the cycle it will be released in. */
  datatype Kept = Kept(index: nat, ideal: int, release: int)

  /** The pulses kept so far and the release cycle of the last one (0 before the first). */
  datatype Plan = Plan(kept: seq<Kept>, prev: int)

  /** One pulse: take its ideal cycle; if that is too close after the last release, the next cycle that is
      not, unless that is past the delay within which the pulse must reach its chip. */
  function Place(plan: Plan, k: nat, ideal: int, tstamp: int): Plan {
    if plan.prev + 2 > ideal && k > 0 then
      if plan.prev + 2 > tstamp then plan
      else Plan(plan.kept + [Kept(k, ideal, plan.prev + 2)], plan.prev + 2)
    else Plan(plan.kept + [Kept(k, ideal, ideal)], ideal)
  }

  /** The plan for the first n pulses. */
  function Schedule(wishes: seq<Wish>, n: nat, tstamp: int): Plan
    requires n <= |wishes|
  {
    if n == 0 then Plan([], 0)
    else Place(Schedule(wishes, n - 1, tstamp), n - 1, wishes[n - 1].ideal, tstamp)
  }

  // ---------------------------------------------------------------- the schedule

  /** The kept pulses are some of the first n pulses, in order, with their ideal cycles. */
  predicate Selection(wishes: seq<Wish>, n: nat, kept: seq<Kept>)
    requires n <= |wishes|
  {
    && (forall j :: 0 <= j < |kept| ==> kept[j].index < n && kept[j].ideal == wishes[kept[j].index].ideal)
    && (forall i, j :: 0 <= i < j < |kept| ==> kept[i].index < kept[j].index)
  }

  /** Release cycles t for the kept pulses that respect every ideal cycle and the minimum distance. */
  predicate Feasible(kept: seq<Kept>, t: seq<int>) {
    && |t| == |kept|
    && (forall j :: 0 <= j < |t| ==> t[j] >= kept[j].ideal)
    && (forall j :: 0 < j < |t| ==> t[j] >= t[j - 1] + 2)
  }

  function Releases(kept: seq<Kept>): (r: seq<int>)
    ensures |r| == |kept|
  {
    seq(|kept|, j requires 0 <= j < |kept| => kept[j].release)
  }

  function Last(kept: seq<Kept>): int {
    if kept == [] then 0 else kept[|kept| - 1].release
  }

  /** The schedule keeps some of the pulses, in order, always including the first. */
  lemma {:induction false} ScheduleSelects(wishes: seq<Wish>, n: nat, tstamp: int)
    requires n <= |wishes|
    ensures Selection(wishes, n, Schedule(wishes, n, tstamp).kept)
    ensures n > 0 <==> Schedule(wishes, n, tstamp).kept != []
    ensures n > 0 ==> Schedule(wishes, n, tstamp).kept[0].index == 0
  {
    if n > 0 {
      ScheduleSelects(wishes, n - 1, tstamp);
    }
  }

  lemma {:induction false} PrevIsLast(wishes: seq<Wish>, n: nat, tstamp: int)
    requires n <= |wishes|
    ensures Schedule(wishes, n, tstamp).prev == Last(Schedule(wishes, n, tstamp).kept)
  {
    if n > 0 {
      PrevIsLast(wishes, n - 1, tstamp);
    }
  }

  /** The first cycle a pulse can be released in after the pulses already kept. */
  function Earliest(before: Plan, ideal: int): int {
    if before.kept != [] && before.prev + 2 > ideal then before.prev + 2 else ideal
  }

  /** One more pulse leaves the plan alone or appends the earliest cycle possible for it. */
  lemma Grows(wishes: seq<Wish>, n: nat, tstamp: int)
    requires n < |wishes|
    ensures var before, plan := Schedule(wishes, n, tstamp), Schedule(wishes, n + 1, tstamp);
            if n > 0 && before.prev + 2 > wishes[n].ideal && before.prev + 2 > tstamp then plan == before
            else plan.kept == before.kept + [Kept(n, wishes[n].ideal, Earliest(before, wishes[n].ideal))]
  {
    ScheduleSelects(wishes, n, tstamp);
  }

  /** Feasibility of a longer plan is feasibility of the shorter one and of the last release. */
  lemma FeasibleSnoc(kept: seq<Kept>, k: Kept, t: seq<int>)
    requires |t| == |kept| + 1
    ensures var m := |kept|;
            Feasible(kept + [k], t) <==>
            Feasible(kept, t[..m]) && t[m] >= k.ideal && (m > 0 ==> t[m] >= t[m - 1] + 2)
  {
    var m, all := |kept|, kept + [k];
    if Feasible(all, t) {
      assert t[m] >= all[m].ideal;
      assert forall j :: 0 <= j < m ==> t[j] >= all[j].ideal;
    }
  }

  /** Releases are never early and at least two cycles apart. */
  lemma {:induction false} ScheduleFeasible(wishes: seq<Wish>, n: nat, tstamp: int)
    requires n <= |wishes|
    ensures Feasible(Schedule(wishes, n, tstamp).kept, Releases(Schedule(wishes, n, tstamp).kept))
  {
    if n > 0 {
      var before, plan := Schedule(wishes, n - 1, tstamp), Schedule(wishes, n, tstamp);
      ScheduleFeasible(wishes, n - 1, tstamp);
      PrevIsLast(wishes, n - 1, tstamp);
      Grows(wishes, n - 1, tstamp);
      if plan != before {
        var t := Releases(plan.kept);
        assert t[..|before.kept|] == Releases(before.kept);
        FeasibleSnoc(before.kept, plan.kept[|before.kept|], t);
      }
    }
  }

  /** No feasible schedule of the same pulses releases any of them earlier. */
  lemma {:induction false} ScheduleEarliest(wishes: seq<Wish>, n: nat, tstamp: int, t: seq<int>, j: nat)
    requires n <= |wishes| && Feasible(Schedule(wishes, n, tstamp).kept, t) && j < |t|
    ensures Schedule(wishes, n, tstamp).kept[j].release <= t[j]
    decreases n
  {
    var before, plan := Schedule(wishes, n - 1, tstamp), Schedule(wishes, n, tstamp);
    var m := |before.kept|;
    PrevIsLast(wishes, n - 1, tstamp);
    Grows(wishes, n - 1, tstamp);
    if plan == before {
      ScheduleEarliest(wishes, n - 1, tstamp, t, j);
    } else {
      FeasibleSnoc(before.kept, plan.kept[m], t);
      if j < m {
        ScheduleEarliest(wishes, n - 1, tstamp, t[..m], j);
      } else if m > 0 {
        ScheduleEarliest(wishes, n - 1, tstamp, t[..m], m - 1);
      }
    }
  }

  /** The cycle that kept pulse i demands for kept pulse j. */
  function Demand(kept: seq<Kept>, i: nat, j: nat): int
    requires i < |kept|
  {
    kept[i].ideal + 2 * (j - i)
  }

  /** Pulse `from` is the one that determines the release of pulse j: the latest of all demands. */
  predicate Determines(kept: seq<Kept>, from: nat, j: nat)
    requires from <= j < |kept|
  {
    kept[j].release == Demand(kept, from, j) && forall i :: 0 <= i <= j ==> Demand(kept, i, j) <= kept[j].release
  }

  lemma DeterminesLonger(kept: seq<Kept>, more: seq<Kept>, from: nat, j: nat)
    requires kept <= more && from <= j < |kept| && Determines(kept, from, j)
    ensures Determines(more, from, j)
  {
    assert forall i :: 0 <= i <= j ==> Demand(more, i, j) == Demand(kept, i, j);
  }

  lemma DeterminesNext(kept: seq<Kept>, k: Kept, from: nat)
    requires kept != [] && from < |kept| && Determines(kept, from, |kept| - 1)
    requires k.release == if Last(kept) + 2 > k.ideal then Last(kept) + 2 else k.ideal
    ensures Determines(kept + [k], if k.release == k.ideal then |kept| else from, |kept|)
  {
    var m, all := |kept|, kept + [k];
    assert forall i :: 0 <= i < m ==> Demand(all, i, m) == Demand(kept, i, m - 1) + 2;
  }

  /** The closed form: pulse j is released in the latest cycle any kept pulse up to it demands, counting two
      cycles for every pulse in between. */
  lemma {:induction false} ScheduleClosedForm(wishes: seq<Wish>, n: nat, tstamp: int, j: nat) returns (from: nat)
    requires n <= |wishes| && j < |Schedule(wishes, n, tstamp).kept|
    ensures from <= j && Determines(Schedule(wishes, n, tstamp).kept, from, j)
    decreases n
  {
    var before, plan := Schedule(wishes, n - 1, tstamp), Schedule(wishes, n, tstamp);
    var m := |before.kept|;
    PrevIsLast(wishes, n - 1, tstamp);
    Grows(wishes, n - 1, tstamp);
    if j < m {
      from := ScheduleClosedForm(wishes, n - 1, tstamp, j);
      DeterminesLonger(before.kept, plan.kept, from, j);
    } else if m > 0 {
      from := ScheduleClosedForm(wishes, n - 1, tstamp, m - 1);
      DeterminesNext(before.kept, plan.kept[m], from);
      from := if plan.kept[m].release == plan.kept[m].ideal then m else from;
    } else {
      from := 0;
    }
  }

  /** After any feasible schedule of the pulses kept so far, the next release is past both cycles given. */
  ghost predicate Hopeless(kept: seq<Kept>, ideal: int, tstamp: int) {
    forall t :: Feasible(kept, t) && t != [] ==> t[|t| - 1] + 2 > ideal && t[|t| - 1] + 2 > tstamp
  }

  /** A pulse other than the first is dropped exactly when no schedule of the pulses kept before it could
      release it by its ideal cycle or by the deadline. */
  lemma DroppedExactly(wishes: seq<Wish>, n: nat, tstamp: int)
    requires 0 < n < |wishes|
    ensures var before := Schedule(wishes, n, tstamp);
            Schedule(wishes, n + 1, tstamp) == before <==> Hopeless(before.kept, wishes[n].ideal, tstamp)
  {
    var before := Schedule(wishes, n, tstamp);
    ScheduleSelects(wishes, n, tstamp);
    PrevIsLast(wishes, n, tstamp);
    ScheduleFeasible(wishes, n, tstamp);
    Grows(wishes, n, tstamp);
    forall t | Feasible(before.kept, t) && t != []
      ensures t[|t| - 1] >= before.prev
    {
      ScheduleEarliest(wishes, n, tstamp, t, |t| - 1);
    }
    assert Feasible(before.kept, Releases(before.kept));
  }

  // ---------------------------------------------------------------- differences in the FIFO

  /** What the FIFO holds of one pulse: 15 bits of doubled delay and 27 bits of pulse data. */
  datatype FifoEntry = FifoEntry(delay: nat, data: nat)

  /** The differences between successive releases, the first one counted from cycle 0. */
  function Delta(kept: seq<Kept>, j: nat): int
    requires j < |kept|
  {
    kept[j].release - if j == 0 then 0 else kept[j - 1].release
  }

  /** Each entry's delay is twice the difference, less the bits the FIFO does not keep. */
  predicate Carries(fifo: seq<FifoEntry>, kept: seq<Kept>) {
    |fifo| == |kept| && forall j :: 0 <= j < |kept| ==> fifo[j].delay == 2 * (Delta(kept, j) % 0x4000)
  }

  /** The cycle the FIFO plays entry j in: each entry waits its delay after the one before. */
  function Played(fifo: seq<FifoEntry>, j: nat): nat
    requires j < |fifo|
  {
    fifo[j].delay / 2 + if j == 0 then 0 else Played(fifo, j - 1)
  }

  predicate PlayedAsScheduled(fifo: seq<FifoEntry>, kept: seq<Kept>, n: nat)
    requires |fifo| == |kept| && n <= |kept|
  {
    forall j :: 0 <= j < n ==> Played(fifo, j) == kept[j].release
  }

  predicate FitsField(kept: seq<Kept>, n: nat)
    requires n <= |kept|
  {
    forall j :: 0 <= j < n ==> 0 <= Delta(kept, j) < 0x4000
  }

  lemma PlayedNext(fifo: seq<FifoEntry>, kept: seq<Kept>, j: nat)
    requires Carries(fifo, kept) && j < |kept|
    requires j > 0 ==> Played(fifo, j - 1) == kept[j - 1].release
    ensures Played(fifo, j) == kept[j].release <==> 0 <= Delta(kept, j) < 0x4000
  {
    var d := Delta(kept, j);
    assert Played(fifo, j) == kept[j].release - d + d % 0x4000;
  }

  /** Adding up the delays gives back the schedule, pulse for pulse, exactly as long as every difference
      fits the 14 bits of cycles the FIFO keeps of it. */
  lemma {:induction false} PlayedExactly(fifo: seq<FifoEntry>, kept: seq<Kept>, n: nat)
    requires Carries(fifo, kept) && n <= |kept|
    ensures PlayedAsScheduled(fifo, kept, n) <==> FitsField(kept, n)
    decreases n
  {
    if n > 0 {
      PlayedExactly(fifo, kept, n - 1);
      if PlayedAsScheduled(fifo, kept, n - 1) {
        PlayedNext(fifo, kept, n - 1);
        assert PlayedAsScheduled(fifo, kept, n) <==> Played(fifo, n - 1) == kept[n - 1].release;
        assert FitsField(kept, n) <==> 0 <= Delta(kept, n - 1) < 0x4000;
      }
    }
  }

  /** Every difference but the first is at least the minimum distance, so only large gaps fail to fit. */
  lemma GapsOnlyTooLarge(wishes: seq<Wish>, n: nat, tstamp: int, j: nat)
    requires n <= |wishes| && 0 < j < |Schedule(wishes, n, tstamp).kept|
    ensures Delta(Schedule(wishes, n, tstamp).kept, j) >= 2
  {
    ScheduleFeasible(wishes, n, tstamp);
    var kept := Schedule(wishes, n, tstamp).kept;
    assert Releases(kept)[j] >= Releases(kept)[j - 1] + 2;
  }

  // ---------------------------------------------------------------- which pulses fit

  /** A kept pulse is released in its ideal cycle or two cycles after the one before, whichever is later. */
  lemma {:induction false} ReleaseRule(wishes: seq<Wish>, n: nat, tstamp: int, j: nat)
    requires n <= |wishes| && j < |Schedule(wishes, n, tstamp).kept|
    ensures var kept := Schedule(wishes, n, tstamp).kept;
            kept[j].release ==
            if j > 0 && kept[j - 1].release + 2 > kept[j].ideal then kept[j - 1].release + 2 else kept[j].ideal
    decreases n
  {
    PrevIsLast(wishes, n - 1, tstamp);
    Grows(wishes, n - 1, tstamp);
    if j < |Schedule(wishes, n - 1, tstamp).kept| {
      ReleaseRule(wishes, n - 1, tstamp, j);
    }
  }

  /** Kept pulse j comes soon enough after one of the pulses kept before it. */
  predicate Follows(kept: seq<Kept>, j: nat)
    requires 0 < j < |kept|
  {
    exists i :: 0 <= i < j && kept[j].ideal < kept[i].ideal + 2 * (j - 1 - i) + 0x4000
  }

  /** The ideal cycles leave no gap that 14 bits cannot hold. */
  predicate Close(kept: seq<Kept>) {
    kept != [] ==> 0 <= kept[0].ideal < 0x4000 && forall j :: 0 < j < |kept| ==> Follows(kept, j)
  }

  lemma DeltaFits(wishes: seq<Wish>, n: nat, tstamp: int, j: nat)
    requires n <= |wishes| && 0 < j < |Schedule(wishes, n, tstamp).kept|
    ensures var kept := Schedule(wishes, n, tstamp).kept;
            0 <= Delta(kept, j) < 0x4000 <==> Follows(kept, j)
  {
    var kept := Schedule(wishes, n, tstamp).kept;
    ReleaseRule(wishes, n, tstamp, j);
    var from := ScheduleClosedForm(wishes, n, tstamp, j - 1);
    assert kept[j - 1].release == Demand(kept, from, j - 1);
    assert forall i :: 0 <= i < j ==> Demand(kept, i, j - 1) == kept[i].ideal + 2 * (j - 1 - i);
  }

  /** The differences fit exactly when the ideal cycles of the kept pulses are close enough. */
  lemma FitsExactly(wishes: seq<Wish>, n: nat, tstamp: int)
    requires n <= |wishes|
    ensures var kept := Schedule(wishes, n, tstamp).kept; FitsField(kept, |kept|) <==> Close(kept)
  {
    var kept := Schedule(wishes, n, tstamp).kept;
    if kept != [] {
      ReleaseRule(wishes, n, tstamp, 0);
      forall j | 0 < j < |kept|
        ensures 0 <= Delta(kept, j) < 0x4000 <==> Follows(kept, j)
      {
        DeltaFits(wishes, n, tstamp, j);
      }
      assert kept[0].release == kept[0].ideal == Delta(kept, 0);
    }
  }

  /** Pulse n can wait for those before it: they leave it its ideal cycle, or at least time until the deadline. */
  predicate InTime(wishes: seq<Wish>, n: nat, tstamp: int)
    requires n < |wishes|
  {
    || (forall i :: 0 <= i < n ==> wishes[i].ideal + 2 * (n - i) <= wishes[n].ideal)
    || (forall i :: 0 <= i < n ==> wishes[i].ideal + 2 * (n - i) <= tstamp)
  }

  /** So far nothing is dropped: the plan holds the first n pulses. */
  predicate AllKept(wishes: seq<Wish>, n: nat, kept: seq<Kept>)
    requires n <= |wishes|
  {
    |kept| == n && forall j :: 0 <= j < n ==> kept[j].index == j && kept[j].ideal == wishes[j].ideal
  }

  lemma KeptAtMost(wishes: seq<Wish>, n: nat, tstamp: int)
    requires n <= |wishes|
    ensures |Schedule(wishes, n, tstamp).kept| <= n
  {
    if n > 0 {
      KeptAtMost(wishes, n - 1, tstamp);
      Grows(wishes, n - 1, tstamp);
    }
  }

  /** If nothing was dropped before, a pulse is kept exactly when it is in time. */
  lemma KeptInTime(wishes: seq<Wish>, n: nat, tstamp: int)
    requires n < |wishes| && AllKept(wishes, n, Schedule(wishes, n, tstamp).kept)
    ensures AllKept(wishes, n + 1, Schedule(wishes, n + 1, tstamp).kept) <==> InTime(wishes, n, tstamp)
  {
    var kept := Schedule(wishes, n, tstamp).kept;
    PrevIsLast(wishes, n, tstamp);
    Grows(wishes, n, tstamp);
    if n > 0 {
      var from := ScheduleClosedForm(wishes, n, tstamp, n - 1);
      assert Last(kept) + 2 == wishes[from].ideal + 2 * (n - from);
      assert forall i :: 0 <= i < n ==> Demand(kept, i, n - 1) + 2 == wishes[i].ideal + 2 * (n - i);
    }
  }

  /** Nothing is dropped if and only if every pulse is in time. */
  lemma {:induction false} NothingDroppedExactly(wishes: seq<Wish>, n: nat, tstamp: int)
    requires n <= |wishes|
    ensures AllKept(wishes, n, Schedule(wishes, n, tstamp).kept) <==>
            forall m :: 0 <= m < n ==> InTime(wishes, m, tstamp)
    ensures AllKept(wishes, n, Schedule(wishes, n, tstamp).kept) <==> |Schedule(wishes, n, tstamp).kept| == n
  {
    if n > 0 {
      NothingDroppedExactly(wishes, n - 1, tstamp);
      KeptAtMost(wishes, n - 1, tstamp);
      Grows(wishes, n - 1, tstamp);
      if |Schedule(wishes, n - 1, tstamp).kept| == n - 1 {
        KeptInTime(wishes, n - 1, tstamp);
      }
    }
  }

  /** The same condition on the list of pulses itself. */
  predicate ListClose(wishes: seq<Wish>) {
    wishes != [] ==>
      && 0 <= wishes[0].ideal < 0x4000
      && forall j :: 0 < j < |wishes| ==>
           exists i :: 0 <= i < j && wishes[j].ideal < wishes[i].ideal + 2 * (j - 1 - i) + 0x4000
  }

  lemma CloseOfList(wishes: seq<Wish>, kept: seq<Kept>)
    requires AllKept(wishes, |wishes|, kept)
    ensures Close(kept) <==> ListClose(wishes)
  {
    forall j | 0 < j < |wishes|
      ensures Follows(kept, j) <==>
              exists i :: 0 <= i < j && wishes[j].ideal < wishes[i].ideal + 2 * (j - 1 - i) + 0x4000
    {
      assert forall i :: 0 <= i < j ==> kept[i].ideal == wishes[i].ideal;
    }
  }

  /** What the list of pulses says about playing it: the kept pulses come out as scheduled exactly when their
      ideal cycles are close; and if every pulse is in time, none is dropped and the list alone decides. */
  predicate PlaysAsAsked(wishes: seq<Wish>, tstamp: int, sent: seq<FifoEntry>)
    requires |sent| == |Schedule(wishes, |wishes|, tstamp).kept|
  {
    var kept := Schedule(wishes, |wishes|, tstamp).kept;
    && (PlayedAsScheduled(sent, kept, |kept|) <==> Close(kept))
    && ((forall n :: 0 <= n < |wishes| ==> InTime(wishes, n, tstamp)) ==>
          |sent| == |wishes| && (PlayedAsScheduled(sent, kept, |kept|) <==> ListClose(wishes)))
  }

  lemma PlaysExactly(wishes: seq<Wish>, tstamp: int, sent: seq<FifoEntry>)
    requires Carries(sent, Schedule(wishes, |wishes|, tstamp).kept)
    ensures PlaysAsAsked(wishes, tstamp, sent)
  {
    var kept := Schedule(wishes, |wishes|, tstamp).kept;
    PlayedExactly(sent, kept, |kept|);
    FitsExactly(wishes, |wishes|, tstamp);
    NothingDroppedExactly(wishes, |wishes|, tstamp);
    if AllKept(wishes, |wishes|, kept) {
      CloseOfList(wishes, kept);
    }
  }

  /** Two pulses: they come out as scheduled exactly if the second is wanted less than 2^14 cycles after the
      first. */
  lemma GapLimit(gap: int, tstamp: int, sent: seq<FifoEntry>)
    requires Carries(sent, Schedule([Wish(0, 0), Wish(0, gap)], 2, tstamp).kept)
    ensures PlayedAsScheduled(sent, Schedule([Wish(0, 0), Wish(0, gap)], 2, tstamp).kept, |sent|) <==> gap < 0x4000
  {
    var wishes := [Wish(0, 0), Wish(0, gap)];
    PlaysExactly(wishes, tstamp, sent);
    var kept := Schedule(wishes, 2, tstamp).kept;
    ScheduleSelects(wishes, 2, tstamp);
    Grows(wishes, 1, tstamp);
    assert kept[0].ideal == 0;
    if |kept| == 2 {
      assert kept[1].ideal == gap;
      assert Follows(kept, 1) <==> kept[1].ideal < kept[0].ideal + 2 * 0 + 0x4000;
    }
  }

  // ---------------------------------------------------------------- the pulse data

  /** The data word that names neuron `id` on the given chip, with its arrival time. */
  function Word(dnc: nat, id: nat, tstamp: int): nat {
    dnc % 8 * 0x100_0000 + id % 0x200 * 0x8000 + tstamp % 0x8000
  }

  /** Every entry names the neuron of the pulse it was kept for. */
  predicate Names(fifo: seq<FifoEntry>, kept: seq<Kept>, wishes: seq<Wish>, dnc: nat, tstamp: int) {
    |fifo| == |kept| &&
    forall j :: 0 <= j < |kept| ==>
      kept[j].index < |wishes| && fifo[j].data == Word(dnc, wishes[kept[j].index].id, tstamp)
  }

  lemma LowBits(x: int)
    ensures U32(x) % 0x8000 == x % 0x8000 && x % 0x1_0000 % 0x8000 == x % 0x8000
  {
    ModUnique(0x8000, x, 0x2_0000 * (x / 0x1_0000_0000) + U32(x) / 0x8000, U32(x) % 0x8000);
    ModUnique(0x8000, x, 2 * (x / 0x1_0000) + x % 0x1_0000 / 0x8000, x % 0x1_0000 % 0x8000);
  }

  /** The FIFO keeps 15 bits of a 16-bit delay. */
  function DelayBits(delay: int): (r: nat)
    ensures r == delay % 0x8000
  {
    LowBits(delay);
    Low15(delay % 0x1_0000)
  }

  /** Chip in bits 24 to 26, neuron in bits 15 to 23, arrival time in the low 15 bits. */
  function PulseData(dnc: nat, neuronId: nat, tstamp: int): nat {
    Low3(dnc) * 0x100_0000 + Low9(neuronId) * 0x8000 + Low15(U32(tstamp))
  }

  lemma DelayKept(delta: int)
    ensures DelayBits(2 * delta) == 2 * (delta % 0x4000)
  {
    ModUnique(0x8000, 2 * delta, delta / 0x4000, 2 * (delta % 0x4000));
  }

  lemma Small(x: nat, m: nat)
    requires x < m
    ensures x % m == x
  {
    ModUnique(m, x, 0, x);
  }

  lemma PulseDataIs(dnc: nat, id: nat, tstamp: int)
    ensures Low27(PulseData(dnc, Low9(id), tstamp)) == Word(dnc, id, tstamp)
  {
    LowBits(tstamp);
    Small(Low9(id), 0x200);
    Small(Word(dnc, id, tstamp), 0x800_0000);
  }

  lemma WordParts(dnc: nat, id: nat, tstamp: int)
    ensures var w := Word(dnc, id, tstamp);
            w / 0x8000 == dnc % 8 * 0x200 + id % 0x200 && w % 0x8000 == tstamp % 0x8000
  {
    ModUnique(0x8000, Word(dnc, id, tstamp), dnc % 8 * 0x200 + id % 0x200, tstamp % 0x8000);
  }

  /** A played word is the trace event of its neuron: channel and number are the two parts of the neuron's id. */
  lemma WordIsEvent(dnc: nat, id: nat, tstamp: int)
    ensures Word(dnc, id, tstamp) == GenSpl1(dnc, id / 64, id % 64, tstamp % 0x8000)
  {
    var t := tstamp % 0x8000;
    GenSpl1Fields(dnc, id / 64, id % 64, t);
    Small(t, 0x8000);
    IdParts(id);
  }

  lemma IdParts(id: nat)
    ensures id % 0x200 == id / 64 % 8 * 64 + id % 64 % 64
  {
  }

  /** The read-out of trace entries finds in a played word the neuron and the time put into it. */
  lemma WordReadsBack(d: Decoder, dnc: nat, id: nat, tstamp: int)
    ensures var read := TakePulse(d, Word(dnc, id, tstamp));
            read.prev == tstamp % 0x8000 && read.events[|d.events|].id == id % 0x200
  {
    var w := Word(dnc, id, tstamp);
    WordParts(dnc, id, tstamp);
    ModUnique(0x200, w / 0x8000, dnc % 8, id % 0x200);
    assert Low9(w / 0x8000) == id % 0x200;
    assert Low15(w) == tstamp % 0x8000;
  }

  lemma CarriesSnoc(fifo: seq<FifoEntry>, kept: seq<Kept>, e: FifoEntry, k: Kept)
    requires Carries(fifo, kept) && e.delay == 2 * ((k.release - Last(kept)) % 0x4000)
    ensures Carries(fifo + [e], kept + [k])
  {
    var m, longer := |kept|, kept + [k];
    assert forall j :: 0 <= j < m ==> Delta(longer, j) == Delta(kept, j);
    assert Delta(longer, m) == k.release - Last(kept);
  }

  /** What the FIFO got for the first n pulses is their schedule, with the right neurons. */
  predicate Sends(sent: seq<FifoEntry>, wishes: seq<Wish>, n: nat, dnc: nat, tstamp: int)
    requires n <= |wishes|
  {
    && Carries(sent, Schedule(wishes, n, tstamp).kept)
    && Names(sent, Schedule(wishes, n, tstamp).kept, wishes, dnc, tstamp)
  }

  lemma SendsSnoc(sent: seq<FifoEntry>, wishes: seq<Wish>, n: nat, dnc: nat, tstamp: int, k: Kept, e: FifoEntry)
    requires n < |wishes| && Sends(sent, wishes, n, dnc, tstamp) && k.index == n
    requires Schedule(wishes, n + 1, tstamp).kept == Schedule(wishes, n, tstamp).kept + [k]
    requires e.delay == 2 * ((k.release - Schedule(wishes, n, tstamp).prev) % 0x4000)
    requires e.data == Word(dnc, wishes[n].id, tstamp)
    ensures Sends(sent + [e], wishes, n + 1, dnc, tstamp)
  {
    PrevIsLast(wishes, n, tstamp);
    CarriesSnoc(sent, Schedule(wishes, n, tstamp).kept, e, k);
  }

  /** The entry written for a pulse that is kept continues the schedule. */
  lemma SendsKept(sent: seq<FifoEntry>, wishes: seq<Wish>, n: nat, dnc: nat, tstamp: int, cycle: int)
    requires n < |wishes| && Sends(sent, wishes, n, dnc, tstamp)
    requires var plan := Schedule(wishes, n, tstamp);
             if plan.prev + 2 > wishes[n].ideal && n > 0 then cycle == plan.prev + 2 <= tstamp
             else cycle == wishes[n].ideal
    ensures var delta := cycle - Schedule(wishes, n, tstamp).prev;
            var e := FifoEntry(DelayBits(2 * delta), Low27(PulseData(dnc, Low9(wishes[n].id), tstamp)));
            Sends(sent + [e], wishes, n + 1, dnc, tstamp)
    ensures Schedule(wishes, n + 1, tstamp).prev == cycle
  {
    var delta := cycle - Schedule(wishes, n, tstamp).prev;
    var e := FifoEntry(DelayBits(2 * delta), Low27(PulseData(dnc, Low9(wishes[n].id), tstamp)));
    PulseDataIs(dnc, wishes[n].id, tstamp);
    DelayKept(delta);
    SendsSnoc(sent, wishes, n, dnc, tstamp, Kept(n, wishes[n].ideal, cycle), e);
  }

  lemma SendsDropped(sent: seq<FifoEntry>, wishes: seq<Wish>, n: nat, dnc: nat, tstamp: int)
    requires n < |wishes| && Sends(sent, wishes, n, dnc, tstamp)
    requires var prev := Schedule(wishes, n, tstamp).prev;
             prev + 2 > wishes[n].ideal && n > 0 && prev + 2 > tstamp
    ensures Sends(sent, wishes, n + 1, dnc, tstamp)
    ensures Schedule(wishes, n + 1, tstamp).prev == Schedule(wishes, n, tstamp).prev
  {
  }

  // ---------------------------------------------------------------- the code

  class PlaybackSender {
    const tstamp: int
    const dnc: nat
    var fifo: seq<FifoEntry>

    method FillPlaybackFifo(delay: int, data: nat)
      modifies this`fifo
      ensures fifo == old(fifo) + [FifoEntry(DelayBits(delay), Low27(data))]
    {
      fifo := fifo + [FifoEntry(DelayBits(delay), Low27(data))];
    }

    /** One turn of the loop: the pulse is dropped, or written as a delay after the last one sent. */
    method SendPulse(pulselist: seq<Wish>, npulse: nat, prevReltime: int, ghost sent: seq<FifoEntry>)
      returns (kept: bool, currCycle: int)
      requires npulse < |pulselist| && Sends(sent, pulselist, npulse, dnc, tstamp)
      requires prevReltime == Schedule(pulselist, npulse, tstamp).prev
      modifies this`fifo
      ensures kept ==> fifo != []
      ensures fifo == old(fifo) + if kept then [fifo[|fifo| - 1]] else []
      ensures Sends(if kept then sent + [fifo[|fifo| - 1]] else sent, pulselist, npulse + 1, dnc, tstamp)
      ensures Schedule(pulselist, npulse + 1, tstamp).prev == if kept then currCycle else prevReltime
    {
      currCycle := pulselist[npulse].ideal;
      if prevReltime + 2 > currCycle && npulse > 0 {
        currCycle := prevReltime + 2;
        if currCycle > tstamp {
          SendsDropped(sent, pulselist, npulse, dnc, tstamp);
          return false, currCycle;
        }
      }
      SendsKept(sent, pulselist, npulse, dnc, tstamp, currCycle);
      var neuronId := Low9(pulselist[npulse].id);
      FillPlaybackFifo(2 * (currCycle - prevReltime), PulseData(dnc, neuronId, tstamp));
      kept := true;
    }

    /** Sends every pulse it keeps, as a delay after the one before, and counts those it drops. */
    method SendPlaybackPulses(pulselist: seq<Wish>) returns (discarded: nat)
      modifies this`fifo
      ensures old(fifo) <= fifo
      ensures Sends(fifo[|old(fifo)|..], pulselist, |pulselist|, dnc, tstamp)
      ensures discarded + |fifo| - |old(fifo)| == |pulselist|
      ensures PlaysAsAsked(pulselist, tstamp, fifo[|old(fifo)|..])
    {
      discarded := 0;
      if |pulselist| > 0 {
        var prevReltime := 0;
        ghost var sent: seq<FifoEntry> := [];
        for npulse := 0 to |pulselist|
          invariant prevReltime == Schedule(pulselist, npulse, tstamp).prev
          invariant fifo == old(fifo) + sent && discarded + |sent| == npulse
          invariant Sends(sent, pulselist, npulse, dnc, tstamp)
        {
          var kept, currCycle := SendPulse(pulselist, npulse, prevReltime, sent);
          if !kept {
            discarded := discarded + 1;
            continue;
          }
          sent := sent + [fifo[|fifo| - 1]];
          prevReltime := currCycle;
        }
        assert fifo[|old(fifo)|..] == sent;
      }
      PlaysExactly(pulselist, tstamp, fifo[|old(fifo)|..]);
    }
  }
}
