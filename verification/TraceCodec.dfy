/** Pulse events packed into 64-bit trace entries, and the read-out that unwraps their 15-bit timestamps
    into a running time. */
module TraceCodec {
  import opened Modular
  import opened Bits

  const LAP: nat := 0x8000
  const SLACK: nat := 0x2000

  /** Laps of a 32-bit clock. */
  const LAPS: nat := 0x2_0000

  type uint64 = x: nat | x < 0x1_0000_0000_0000_0000

  // ---------------------------------------------------------------- packing

  datatype Pulse = Pulse(hicann: nat, channel: nat, number: nat, time: nat)

  /** A trace entry holds one pulse, or two with the top bit set. */
  datatype Entry = Single(p: Pulse) | Pair(first: Pulse, second: Pulse)

  /** An event: chip in bits 24 to 26, channel in 21 to 23, number in 15 to 20, time in the low 15 bits. */
  function GenSpl1(hicann: nat, channel: nat, number: nat, time: nat): (r: nat) {
    Or(Or(Or(Low3(hicann) * 0x100_0000, Low3(channel) * 0x20_0000), Low6(number) * 0x8000), Low15(time))
  }

  /** Two events: one in the low half, one in the high half, and the top bit as the mark. */
  function GenFpga(event1: nat, event2: nat): nat {
    Or(Or(0x8000_0000_0000_0000, event2 * 0x1_0000_0000 % 0x1_0000_0000_0000_0000), event1)
  }

  lemma GenSpl1Fields(h: nat, c: nat, n: nat, t: nat)
    ensures GenSpl1(h, c, n, t) == h % 8 * 0x100_0000 + c % 8 * 0x20_0000 + n % 64 * 0x8000 + t % 0x8000
    ensures GenSpl1(h, c, n, t) < 0x800_0000
  {
    JoinFields(h % 8, c % 8, n % 64, t % 0x8000);
  }

  lemma Join15(hi: nat, lo: nat)
    requires lo < 0x8000
    ensures Or(hi * 0x8000, lo) == hi * 0x8000 + lo
  {
    PowersUsed();
    OrDisjoint(hi, 15, lo);
  }

  lemma Join21(hi: nat, lo: nat)
    requires lo < 0x20_0000
    ensures Or(hi * 0x20_0000, lo) == hi * 0x20_0000 + lo
  {
    PowersUsed();
    OrDisjoint(hi, 21, lo);
  }

  lemma Join24(hi: nat, lo: nat)
    requires lo < 0x100_0000
    ensures Or(hi * 0x100_0000, lo) == hi * 0x100_0000 + lo
  {
    PowersUsed();
    OrDisjoint(hi, 24, lo);
  }

  lemma JoinFields(h: nat, c: nat, n: nat, t: nat)
    requires c < 8 && n < 64 && t < 0x8000
    ensures Or(Or(Or(h * 0x100_0000, c * 0x20_0000), n * 0x8000), t)
         == h * 0x100_0000 + c * 0x20_0000 + n * 0x8000 + t
  {
    Join24(h, c * 0x20_0000);
    Join21(h * 8 + c, n * 0x8000);
    Join15((h * 8 + c) * 64 + n, t);
  }

  /** Events of up to 32 and 31 bits do not touch each other or the mark. */
  lemma GenFpgaFields(event1: nat, event2: nat)
    requires event1 < 0x1_0000_0000 && event2 < 0x8000_0000
    ensures GenFpga(event1, event2) == 0x8000_0000_0000_0000 + event2 * 0x1_0000_0000 + event1
  {
    PowersUsed();
    ModUnique(0x1_0000_0000_0000_0000, event2 * 0x1_0000_0000, 0, event2 * 0x1_0000_0000);
    OrDisjoint(1, 63, event2 * 0x1_0000_0000);
    OrDisjoint(0x8000_0000 + event2, 32, event1);
  }

  function Spl1(p: Pulse): nat {
    GenSpl1(p.hicann, p.channel, p.number, p.time)
  }

  function Pack(e: Entry): (r: uint64)
  {
    match e
    case Single(p) => GenSpl1Fields(p.hicann, p.channel, p.number, p.time); Spl1(p)
    case Pair(p, q) =>
      GenSpl1Fields(p.hicann, p.channel, p.number, p.time);
      GenSpl1Fields(q.hicann, q.channel, q.number, q.time);
      GenFpgaFields(Spl1(p), Spl1(q));
      GenFpga(Spl1(p), Spl1(q))
  }

  // ---------------------------------------------------------------- read-out

  /** One decoded pulse; `ticks` counts from the lap of the first pulse. */
  datatype Event = Event(chan: nat, id: nat, ticks: nat)

  /** The counter of pulses seen (32 bits wide), the laps counted, the last timestamp, and the output. */
  datatype Decoder = Decoder(count: nat, cycles: nat, prev: nat, events: seq<Event>)

  const START := Decoder(0, 0, 0, [])

  /** A timestamp more than a quarter lap below its predecessor has wrapped. */
  predicate Wrapped(count: nat, prev: nat, tstamp: nat) {
    count > 0 && prev > tstamp + SLACK
  }

  function TakePulse(d: Decoder, data: nat): Decoder {
    var id, chan, tstamp := Low9(data / 0x8000), Low3(data / 0x20_0000), Low15(data);
    var cycles := if Wrapped(d.count, d.prev, tstamp) then d.cycles + 1 else d.cycles;
    Decoder(U32(d.count + 1), cycles, tstamp, d.events + [Event(chan, id, tstamp + cycles * LAP)])
  }

  function TakeEntry(d: Decoder, rdata: uint64): Decoder {
    var one := TakePulse(d, rdata);
    if rdata / 0x8000_0000_0000_0000 != 0 then TakePulse(one, rdata / 0x1_0000_0000) else one
  }

  function Decode(fifo: seq<uint64>): Decoder {
    if fifo == [] then START else TakeEntry(Decode(fifo[..|fifo| - 1]), fifo[|fifo| - 1])
  }

  // ---------------------------------------------------------------- fields survive

  function Pulses(entries: seq<Entry>): seq<Pulse> {
    if entries == [] then []
    else
      var e := entries[|entries| - 1];
      Pulses(entries[..|entries| - 1]) + if e.Single? then [e.p] else [e.first, e.second]
  }

  function PackAll(entries: seq<Entry>): (r: seq<uint64>)
    ensures |r| == |entries|
  {
    seq(|entries|, i requires 0 <= i < |entries| => Pack(entries[i]))
  }

  /** The decoder's step for one pulse, from the pulse itself. */
  function See(d: Decoder, p: Pulse): Decoder {
    var tstamp := p.time % LAP;
    var cycles := if Wrapped(d.count, d.prev, tstamp) then d.cycles + 1 else d.cycles;
    Decoder(U32(d.count + 1), cycles, tstamp,
            d.events + [Event(p.channel % 8, p.channel % 8 * 64 + p.number % 64, tstamp + cycles * LAP)])
  }

  function SeeAll(ps: seq<Pulse>): Decoder {
    if ps == [] then START else See(SeeAll(ps[..|ps| - 1]), ps[|ps| - 1])
  }

  /** Cutting fields out of a word by division, whatever is above its 27 bits. */
  lemma CutFields(high: nat, h: nat, c: nat, n: nat, t: nat, data: nat)
    requires h < 8 && c < 8 && n < 64 && t < 0x8000
    requires data == high * 0x800_0000 + (h * 0x100_0000 + c * 0x20_0000 + n * 0x8000 + t)
    ensures Low9(data / 0x8000) == c * 64 + n && Low3(data / 0x20_0000) == c && Low15(data) == t
  {
    ModUnique(0x8000, data, (high * 0x40 + h * 8 + c) * 64 + n, t);
    ModUnique(0x20_0000, data, high * 0x40 + h * 8 + c, n * 0x8000 + t);
    ModUnique(0x8, high * 0x40 + h * 8 + c, high * 0x8 + h, c);
    ModUnique(0x200, (high * 0x40 + h * 8 + c) * 64 + n, high * 0x8 + h, c * 64 + n);
  }

  lemma LowFields(p: Pulse, high: nat, data: nat)
    requires data == high * 0x800_0000 + Spl1(p)
    ensures Low9(data / 0x8000) == p.channel % 8 * 64 + p.number % 64
    ensures Low3(data / 0x20_0000) == p.channel % 8 && Low15(data) == p.time % 0x8000
  {
    GenSpl1Fields(p.hicann, p.channel, p.number, p.time);
    CutFields(high, p.hicann % 8, p.channel % 8, p.number % 64, p.time % 0x8000, data);
  }

  lemma TakeIsSee(d: Decoder, p: Pulse, high: nat, data: nat)
    requires data == high * 0x800_0000 + Spl1(p)
    ensures TakePulse(d, data) == See(d, p)
  {
    LowFields(p, high, data);
  }

  /** The halves of an entry with two pulses: below the second one, and with the top bit above it. */
  lemma PairHalves(event1: nat, event2: nat, rdata: nat)
    requires event1 < 0x800_0000 && event2 < 0x800_0000
    requires rdata == 0x8000_0000_0000_0000 + event2 * 0x1_0000_0000 + event1
    ensures rdata / 0x8000_0000_0000_0000 == 1
    ensures rdata / 0x1_0000_0000 == 16 * 0x800_0000 + event2
    ensures rdata == (0x10_0000_0000 + event2 * 32) * 0x800_0000 + event1
  {
    ModUnique(0x8000_0000_0000_0000, rdata, 1, event2 * 0x1_0000_0000 + event1);
    ModUnique(0x1_0000_0000, rdata, 16 * 0x800_0000 + event2, event1);
  }

  lemma SingleUnpacks(d: Decoder, p: Pulse, rdata: uint64)
    requires rdata == Spl1(p) < 0x800_0000
    ensures TakeEntry(d, rdata) == See(d, p)
  {
    TakeIsSee(d, p, 0, rdata);
    ModUnique(0x8000_0000_0000_0000, rdata, 0, rdata);
  }

  lemma PairUnpacks(d: Decoder, p: Pulse, q: Pulse, rdata: uint64)
    requires Spl1(p) < 0x800_0000 && Spl1(q) < 0x800_0000
    requires rdata == 0x8000_0000_0000_0000 + Spl1(q) * 0x1_0000_0000 + Spl1(p)
    ensures TakeEntry(d, rdata) == See(See(d, p), q)
  {
    PairHalves(Spl1(p), Spl1(q), rdata);
    TakeIsSee(d, p, 0x10_0000_0000 + Spl1(q) * 32, rdata);
    TakeIsSee(See(d, p), q, 16, rdata / 0x1_0000_0000);
  }

  /** Reading back one entry sees exactly the pulses packed into it, in order. */
  lemma EntryUnpacks(d: Decoder, e: Entry)
    ensures TakeEntry(d, Pack(e)) ==
            if e.Single? then See(d, e.p) else See(See(d, e.first), e.second)
  {
    match e
    case Single(p) =>
      GenSpl1Fields(p.hicann, p.channel, p.number, p.time);
      SingleUnpacks(d, p, Pack(e));
    case Pair(p, q) =>
      GenSpl1Fields(p.hicann, p.channel, p.number, p.time);
      GenSpl1Fields(q.hicann, q.channel, q.number, q.time);
      GenFpgaFields(Spl1(p), Spl1(q));
      PairUnpacks(d, p, q, Pack(e));
  }

  lemma {:induction false} StreamUnpacks(entries: seq<Entry>)
    ensures Decode(PackAll(entries)) == SeeAll(Pulses(entries))
  {
    if entries != [] {
      var n := |entries| - 1;
      var e, before := entries[n], Pulses(entries[..n]);
      assert PackAll(entries)[..n] == PackAll(entries[..n]);
      StreamUnpacks(entries[..n]);
      EntryUnpacks(SeeAll(before), e);
      if e.Single? {
        SeeAllSnoc(before, e.p);
      } else {
        SeeAllSnoc(before, e.first);
        SeeAllSnoc(before + [e.first], e.second);
        assert before + [e.first, e.second] == before + [e.first] + [e.second];
      }
    }
  }

  lemma SeeAllSnoc(ps: seq<Pulse>, p: Pulse)
    ensures SeeAll(ps + [p]) == See(SeeAll(ps), p)
  {
    assert (ps + [p])[..|ps|] == ps;
  }

  // ---------------------------------------------------------------- spike trains by neuron

  type Key = (nat, nat)

  function Appended(trains: map<Key, seq<nat>>, key: Key, time: nat): map<Key, seq<nat>> {
    trains[key := (if key in trains then trains[key] else []) + [time]]
  }

  /** Times are kept in 32 bits. */
  function Append(trains: map<Key, seq<nat>>, e: Event): map<Key, seq<nat>> {
    Appended(trains, (e.chan, e.id), U32(e.ticks))
  }

  function Trains(events: seq<Event>): map<Key, seq<nat>> {
    if events == [] then map[] else Append(Trains(events[..|events| - 1]), events[|events| - 1])
  }

  lemma TrainsSnoc(events: seq<Event>, e: Event)
    ensures Trains(events + [e]) == Append(Trains(events), e)
  {
    assert (events + [e])[..|events|] == events;
  }

  /** The values that stand at the places of one key, in order. */
  function Sift(keys: seq<Key>, values: seq<int>, key: Key): seq<int>
    requires |keys| == |values|
  {
    if keys == [] then []
    else
      var n := |keys| - 1;
      var before := Sift(keys[..n], values[..n], key);
      if keys[n] == key then before + [values[n]] else before
  }

  function EventKeys(events: seq<Event>): (r: seq<Key>)
    ensures |r| == |events|
  {
    seq(|events|, i requires 0 <= i < |events| => (events[i].chan, events[i].id))
  }

  function StoredTimes(events: seq<Event>): (r: seq<int>)
    ensures |r| == |events|
  {
    seq(|events|, i requires 0 <= i < |events| => U32(events[i].ticks))
  }

  /** Every neuron that fired has its own train, with exactly its own times in order. */
  lemma {:induction false} TrainsByKey(events: seq<Event>, key: Key)
    ensures key in Trains(events) <==> Sift(EventKeys(events), StoredTimes(events), key) != []
    ensures key in Trains(events) ==> Trains(events)[key] == Sift(EventKeys(events), StoredTimes(events), key)
  {
    if events != [] {
      var n := |events| - 1;
      TrainsByKey(events[..n], key);
      assert EventKeys(events)[..n] == EventKeys(events[..n]);
      assert StoredTimes(events)[..n] == StoredTimes(events[..n]);
    }
  }

  lemma {:induction false} SiftCounts(keys: seq<Key>, v: seq<int>, w: seq<int>, key: Key)
    requires |keys| == |v| == |w|
    ensures |Sift(keys, v, key)| == |Sift(keys, w, key)|
  {
    if keys != [] {
      var n := |keys| - 1;
      SiftCounts(keys[..n], v[..n], w[..n], key);
    }
  }

  lemma AppendedEqual(s: seq<int>, t: seq<int>, x: int, y: int)
    requires |s| == |t|
    ensures s + [x] == t + [y] <==> s == t && x == y
  {
    if s + [x] == t + [y] {
      assert s == (s + [x])[..|s|] && t == (t + [y])[..|t|];
      assert x == (s + [x])[|s|] && y == (t + [y])[|t|];
    }
  }

  lemma SiftLast(keys: seq<Key>, v: seq<int>, w: seq<int>, key: Key)
    requires |keys| == |v| == |w| > 0
    ensures var n := |keys| - 1;
            Sift(keys, v, key) == Sift(keys, w, key) <==>
            Sift(keys[..n], v[..n], key) == Sift(keys[..n], w[..n], key) && (keys[n] == key ==> v[n] == w[n])
  {
    var n := |keys| - 1;
    SiftCounts(keys[..n], v[..n], w[..n], key);
    AppendedEqual(Sift(keys[..n], v[..n], key), Sift(keys[..n], w[..n], key), v[n], w[n]);
  }

  ghost predicate SiftEqual(keys: seq<Key>, v: seq<int>, w: seq<int>)
    requires |keys| == |v| == |w|
  {
    forall key :: Sift(keys, v, key) == Sift(keys, w, key)
  }

  /** Sorting values by key loses nothing: two lists agree for every key exactly when they agree. */
  lemma {:induction false} SiftExact(keys: seq<Key>, v: seq<int>, w: seq<int>)
    requires |keys| == |v| == |w|
    ensures SiftEqual(keys, v, w) <==> v == w
  {
    if SiftEqual(keys, v, w) && keys != [] {
      var n := |keys| - 1;
      forall key
        ensures Sift(keys[..n], v[..n], key) == Sift(keys[..n], w[..n], key) && (keys[n] == key ==> v[n] == w[n])
      {
        SiftLast(keys, v, w, key);
        assert Sift(keys, v, key) == Sift(keys, w, key);
      }
      assert Sift(keys[..n], v[..n], keys[n]) == Sift(keys[..n], w[..n], keys[n]);
      assert SiftEqual(keys[..n], v[..n], w[..n]);
      SiftExact(keys[..n], v[..n], w[..n]);
      assert v == v[..n] + [v[n]] && w == w[..n] + [w[n]];
    }
  }

  // ---------------------------------------------------------------- times survive

  /** Times are counted from the lap in which the first pulse lies. */
  function Origin(ps: seq<Pulse>): nat {
    if ps == [] then 0 else ps[0].time / LAP * LAP
  }

  /** Every pulse is stored at its own time. */
  predicate TimesExact(ps: seq<Pulse>, events: seq<Event>) {
    |events| == |ps| && forall i :: 0 <= i < |ps| ==> U32(events[i].ticks) == ps[i].time - Origin(ps)
  }

  /** Two successive times the unwrapping tells apart correctly: in the same lap, at most a quarter lap out
      of order; or in the next lap, less than three quarters of a lap later. */
  predicate Smooth(t1: nat, t2: nat) {
    || (t2 / LAP == t1 / LAP && t1 <= t2 + 0x2000)
    || (t2 / LAP == t1 / LAP + 1 && t2 < t1 + 0x6000)
  }

  /** The step to the pulse with index i, on a clock of 32 bits. When the 32-bit pulse counter stands at zero
      no wrap is recognised. */
  predicate StepOk(i: nat, t1: nat, t2: nat) {
    if U32(i) == 0 then t2 / LAP == t1 / LAP else Smooth(t1, t2) || Smooth(t1, t2 + U32_SIZE)
  }

  predicate StepsOk(ps: seq<Pulse>) {
    forall i :: 0 < i < |ps| ==> StepOk(i, ps[i - 1].time, ps[i].time)
  }

  /** No time lies before the first pulse's lap or 2^32 ticks or more after its start. */
  predicate InSpan(ps: seq<Pulse>) {
    forall i :: 0 <= i < |ps| ==> Origin(ps) <= ps[i].time < Origin(ps) + U32_SIZE
  }

  /** Channel, and channel and neuron number together, as packed: three and six bits. */
  function KeyOf(p: Pulse): Key {
    (p.channel % 8, p.channel % 8 * 64 + p.number % 64)
  }

  function PulseKeys(ps: seq<Pulse>): (r: seq<Key>)
    ensures |r| == |ps|
  {
    seq(|ps|, i requires 0 <= i < |ps| => KeyOf(ps[i]))
  }

  predicate SameKeys(ps: seq<Pulse>, events: seq<Event>) {
    EventKeys(events) == PulseKeys(ps)
  }

  lemma {:induction false} SeeAllShape(ps: seq<Pulse>)
    ensures var d := SeeAll(ps);
            && SameKeys(ps, d.events) && d.count == U32(|ps|)
            && (ps != [] ==> d.prev == ps[|ps| - 1].time % LAP && d.events[|ps| - 1].ticks == d.prev + d.cycles * LAP)
  {
    if ps != [] {
      var n := |ps| - 1;
      SeeAllShape(ps[..n]);
      AddOfCounter(U32_SIZE, n, 1);
      assert PulseKeys(ps) == PulseKeys(ps[..n]) + [KeyOf(ps[n])];
      assert EventKeys(SeeAll(ps).events) == EventKeys(SeeAll(ps[..n]).events) + [KeyOf(ps[n])];
    }
  }

  /** Of the laps counted, 17 bits reach the stored time. */
  lemma StoredTicks(tstamp: nat, cycles: nat)
    requires tstamp < LAP
    ensures U32(tstamp + cycles * LAP) == tstamp + cycles % LAPS * LAP
  {
    ModUnique(U32_SIZE, tstamp + cycles * LAP, cycles / LAPS, tstamp + cycles % LAPS * LAP);
  }

  lemma NextTurn(t: nat)
    ensures (t + U32_SIZE) / LAP == t / LAP + LAPS
  {
    ModUnique(LAP, t + U32_SIZE, t / LAP + LAPS, t % LAP);
  }

  /** If laps are counted correctly so far, a step keeps them so exactly when it is a good one to a lap within
      reach. */
  lemma StepExact(i: nat, first: nat, cycles: nat, t1: nat, t2: nat)
    requires cycles % LAPS == t1 / LAP - first
    ensures (cycles + if Wrapped(U32(i), t1 % LAP, t2 % LAP) then 1 else 0) % LAPS == t2 / LAP - first
        <==> first <= t2 / LAP < first + LAPS && StepOk(i, t1, t2)
  {
    var q := cycles / LAPS;
    assert t1 == LAP * (t1 / LAP) + t1 % LAP && t2 == LAP * (t2 / LAP) + t2 % LAP;
    assert cycles == LAPS * q + (t1 / LAP - first);
    NextTurn(t2);
  }

  lemma LapOfTicks(t: nat, first: nat, cycles: nat)
    ensures U32(t % LAP + cycles * LAP) == t - first * LAP <==> cycles % LAPS == t / LAP - first
    ensures first <= t / LAP < first + LAPS <==> first * LAP <= t < first * LAP + U32_SIZE
  {
    StoredTicks(t % LAP, cycles);
    assert t == LAP * (t / LAP) + t % LAP;
  }

  lemma PrefixTimes(ps: seq<Pulse>, events: seq<Event>)
    requires |ps| > 1 && |events| == |ps|
    ensures var n := |ps| - 1;
            && Origin(ps[..n]) == Origin(ps)
            && (TimesExact(ps, events) <==>
                TimesExact(ps[..n], events[..n]) && U32(events[n].ticks) == ps[n].time - Origin(ps))
            && (StepsOk(ps) <==> StepsOk(ps[..n]) && StepOk(n, ps[n - 1].time, ps[n].time))
            && (InSpan(ps) <==> InSpan(ps[..n]) && Origin(ps) <= ps[n].time < Origin(ps) + U32_SIZE)
  {
  }

  /** Every pulse is stored at its own time, counted from the lap of the first one, if and only if no time is
      out of reach of 32 bits and every step is a good one. */
  lemma {:induction false} TimesExactly(ps: seq<Pulse>)
    ensures TimesExact(ps, SeeAll(ps).events) <==> InSpan(ps) && StepsOk(ps)
  {
    SeeAllShape(ps);
    if |ps| == 1 {
      LapOfTicks(ps[0].time, ps[0].time / LAP, 0);
    } else if |ps| > 1 {
      var n := |ps| - 1;
      var init, d := SeeAll(ps[..n]), SeeAll(ps);
      SeeAllShape(ps[..n]);
      TimesExactly(ps[..n]);
      assert d.events[..n] == init.events;
      PrefixTimes(ps, d.events);
      if TimesExact(ps[..n], init.events) {
        NextTimeExactly(ps, init, d);
      }
    }
  }

  lemma NextTimeExactly(ps: seq<Pulse>, init: Decoder, d: Decoder)
    requires |ps| > 1
    requires var n := |ps| - 1;
             && init == SeeAll(ps[..n]) && d == See(init, ps[n])
             && |init.events| == n && init.events[n - 1].ticks == init.prev + init.cycles * LAP
             && init.count == U32(n) && init.prev == ps[n - 1].time % LAP
             && U32(init.events[n - 1].ticks) == ps[n - 1].time - Origin(ps)
    ensures var n := |ps| - 1;
            U32(d.events[n].ticks) == ps[n].time - Origin(ps) <==>
            Origin(ps) <= ps[n].time < Origin(ps) + U32_SIZE && StepOk(n, ps[n - 1].time, ps[n].time)
  {
    var n, first := |ps| - 1, ps[0].time / LAP;
    LapOfTicks(ps[n - 1].time, first, init.cycles);
    LapOfTicks(ps[n].time, first, d.cycles);
    StepExact(n, first, init.cycles, ps[n - 1].time, ps[n].time);
  }

  // ---------------------------------------------------------------- the round trip

  /** The times at which the pulses were sent, counted from the lap of the first. */
  function SentTimes(ps: seq<Pulse>): (r: seq<int>)
    ensures |r| == |ps|
  {
    seq(|ps|, i requires 0 <= i < |ps| => ps[i].time - Origin(ps))
  }

  /** The times one neuron's pulses were sent at, in order. */
  function SentBy(ps: seq<Pulse>, key: Key): seq<int> {
    Sift(PulseKeys(ps), SentTimes(ps), key)
  }

  /** The trains hold exactly the neurons that were sent, each with the times of its own pulses in order. */
  ghost predicate TrainsExact(ps: seq<Pulse>, trains: map<Key, seq<nat>>) {
    forall key :: (key in trains <==> SentBy(ps, key) != []) && (key in trains ==> trains[key] == SentBy(ps, key))
  }

  lemma TimesAsLists(ps: seq<Pulse>, events: seq<Event>)
    requires |events| == |ps|
    ensures TimesExact(ps, events) <==> StoredTimes(events) == SentTimes(ps)
  {
    if StoredTimes(events) == SentTimes(ps) {
      forall i | 0 <= i < |ps|
        ensures U32(events[i].ticks) == ps[i].time - Origin(ps)
      {
        assert StoredTimes(events)[i] == SentTimes(ps)[i];
      }
    }
  }

  lemma TrainsAreTimes(ps: seq<Pulse>, events: seq<Event>)
    requires SameKeys(ps, events)
    ensures TrainsExact(ps, Trains(events)) <==> TimesExact(ps, events)
  {
    var keys, stored := PulseKeys(ps), StoredTimes(events);
    forall key
      ensures key in Trains(events) <==> Sift(keys, stored, key) != []
      ensures key in Trains(events) ==> Trains(events)[key] == Sift(keys, stored, key)
      ensures |Sift(keys, stored, key)| == |SentBy(ps, key)|
    {
      TrainsByKey(events, key);
      SiftCounts(keys, stored, SentTimes(ps), key);
    }
    SiftExact(keys, stored, SentTimes(ps));
    if TrainsExact(ps, Trains(events)) {
      forall key
        ensures Sift(keys, stored, key) == Sift(keys, SentTimes(ps), key)
      {
        assert key in Trains(events) <==> SentBy(ps, key) != [];
      }
    }
    TimesAsLists(ps, events);
  }

  /** Whatever their times, all pulses come back in order with their channels and neuron numbers. */
  lemma KeysSurvive(entries: seq<Entry>)
    ensures SameKeys(Pulses(entries), Decode(PackAll(entries)).events)
  {
    StreamUnpacks(entries);
    SeeAllShape(Pulses(entries));
  }

  /** The pulses packed are told right by the trains exactly when their times allow it. */
  ghost predicate ComesBack(entries: seq<Entry>, trains: map<Key, seq<nat>>) {
    TrainsExact(Pulses(entries), trains) <==> InSpan(Pulses(entries)) && StepsOk(Pulses(entries))
  }

  /** The whole round trip, for every arrangement of pulses in entries: the trains read back are those that were
      sent, neuron by neuron and pulse by pulse, if and only if the times stay in reach and every step between
      successive pulses is a good one. */
  lemma RoundTrip(entries: seq<Entry>)
    ensures ComesBack(entries, Trains(Decode(PackAll(entries)).events))
  {
    StreamUnpacks(entries);
    KeysSurvive(entries);
    TrainsAreTimes(Pulses(entries), Decode(PackAll(entries)).events);
    TimesExactly(Pulses(entries));
  }

  /** Whatever was packed into the FIFO. */
  ghost predicate AllComeBack(fifo: seq<uint64>, trains: map<Key, seq<nat>>) {
    forall entries :: PackAll(entries) == fifo ==> ComesBack(entries, trains)
  }

  lemma DecodedComeBack(fifo: seq<uint64>)
    ensures AllComeBack(fifo, Trains(Decode(fifo).events))
  {
    forall entries | PackAll(entries) == fifo
      ensures ComesBack(entries, Trains(Decode(fifo).events))
    {
      RoundTrip(entries);
    }
  }

  /** Times that never decrease and never jump by three quarters of a lap or more. */
  predicate Ordered(ps: seq<Pulse>) {
    forall i :: 0 < i < |ps| ==> ps[i - 1].time <= ps[i].time < ps[i - 1].time + 0x6000
  }

  lemma GapIsSmooth(t1: nat, t2: nat)
    requires t1 <= t2 < t1 + 0x6000
    ensures Smooth(t1, t2)
  {
    assert t1 == LAP * (t1 / LAP) + t1 % LAP && t2 == LAP * (t2 / LAP) + t2 % LAP;
  }

  /** Where the 32-bit pulse counter comes round to zero, the pulse lies in the lap of the one before. */
  predicate SameLapAtZero(ps: seq<Pulse>) {
    forall i :: 0 < i < |ps| && U32(i) == 0 ==> ps[i].time / LAP == ps[i - 1].time / LAP
  }

  lemma OrderedStepsOk(ps: seq<Pulse>)
    requires Ordered(ps)
    ensures StepsOk(ps) <==> SameLapAtZero(ps)
  {
    forall i | 0 < i < |ps|
      ensures Smooth(ps[i - 1].time, ps[i].time)
    {
      GapIsSmooth(ps[i - 1].time, ps[i].time);
    }
  }

  lemma {:induction false} OrderedInSpan(ps: seq<Pulse>, i: nat)
    requires Ordered(ps) && i < |ps|
    ensures Origin(ps) <= ps[i].time <= ps[|ps| - 1].time
    decreases |ps|
  {
    var n := |ps| - 1;
    if n > 0 {
      OrderedInSpan(ps[..n], if i < n then i else n - 1);
    } else {
      assert ps[0].time == LAP * (ps[0].time / LAP) + ps[0].time % LAP;
    }
  }

  /** In particular all such times survive as long as the last one is within reach, and, for lists longer than
      2^32 pulses, no wrap falls where the pulse counter stands at zero. */
  lemma OrderedTimesSurvive(entries: seq<Entry>)
    requires Pulses(entries) != [] && Ordered(Pulses(entries))
    ensures var ps := Pulses(entries);
            TrainsExact(ps, Trains(Decode(PackAll(entries)).events)) <==>
            ps[|ps| - 1].time < Origin(ps) + U32_SIZE && SameLapAtZero(ps)
  {
    var ps := Pulses(entries);
    OrderedStepsOk(ps);
    forall i | 0 <= i < |ps|
      ensures Origin(ps) <= ps[i].time <= ps[|ps| - 1].time
    {
      OrderedInSpan(ps, i);
    }
    RoundTrip(entries);
  }

  /** One pulse in every entry, all of one neuron, the given number of ticks apart. */
  function Regular(n: nat, gap: nat): (r: seq<Entry>)
    ensures |r| == n
  {
    seq(n, i requires 0 <= i < n => Single(Pulse(0, 0, 0, i * gap)))
  }

  lemma {:induction false} RegularPulses(n: nat, gap: nat)
    ensures |Pulses(Regular(n, gap))| == n
    ensures forall i :: 0 <= i < n ==> Pulses(Regular(n, gap))[i] == Pulse(0, 0, 0, i * gap)
  {
    if n > 0 {
      assert Regular(n, gap)[..n - 1] == Regular(n - 1, gap);
      RegularPulses(n - 1, gap);
    }
  }

  /** Half a lap apart, every step is a good one, and 2^18 pulses come back; one more has its time wrapped
      round to zero. */
  lemma ReachIsTight(n: nat)
    ensures TrainsExact(Pulses(Regular(n, 0x4000)), Trains(Decode(PackAll(Regular(n, 0x4000))).events))
        <==> n <= 0x4_0000
  {
    RegularPulses(n, 0x4000);
    if n == 0 {
      RoundTrip(Regular(n, 0x4000));
    } else {
      OrderedTimesSurvive(Regular(n, 0x4000));
      if n <= 0x4_0000 {
        CountsNotWrapped(Pulses(Regular(n, 0x4000)));
      }
    }
  }

  lemma CountsNotWrapped(ps: seq<Pulse>)
    requires |ps| <= U32_SIZE
    ensures SameLapAtZero(ps)
  {
  }

  /** Three pulses come back if and only if they are less than three quarters of a lap apart. */
  lemma GapIsTight(gap: nat)
    ensures TrainsExact(Pulses(Regular(3, gap)), Trains(Decode(PackAll(Regular(3, gap))).events)) <==> gap < 0x6000
  {
    var ps := Pulses(Regular(3, gap));
    RegularPulses(3, gap);
    assert ps[0].time == 0 && ps[1].time == gap && ps[2].time == 2 * gap;
    if gap < 0x6000 {
      NarrowSteps(ps, gap);
      OrderedTimesSurvive(Regular(3, gap));
    } else {
      RoundTrip(Regular(3, gap));
      WideStepFails(gap);
      assert !StepOk(1, ps[0].time, ps[1].time) || !StepOk(2, ps[1].time, ps[2].time);
    }
  }

  lemma NarrowSteps(ps: seq<Pulse>, gap: nat)
    requires |ps| == 3 && ps[0].time == 0 && ps[1].time == gap && ps[2].time == 2 * gap && gap < 0x6000
    ensures Ordered(ps) && Origin(ps) == 0 && SameLapAtZero(ps)
  {
  }

  lemma WideStepFails(gap: nat)
    requires gap >= 0x6000
    ensures !StepOk(1, 0, gap) || !StepOk(2, gap, 2 * gap)
  {
    if gap >= 0x8000 {
      assert gap / LAP >= 1;
    } else {
      ModUnique(LAP, 2 * gap, 1, 2 * gap - LAP);
    }
  }

  lemma {:induction false} SinglePulses(entries: seq<Entry>)
    requires forall i :: 0 <= i < |entries| ==> entries[i].Single?
    ensures |Pulses(entries)| == |entries| && forall i :: 0 <= i < |entries| ==> Pulses(entries)[i] == entries[i].p
  {
    if entries != [] {
      SinglePulses(entries[..|entries| - 1]);
    }
  }

  /** Two pulses out of order come back if and only if they are at most a quarter of a lap out of order. */
  lemma DisorderIsTight(back: nat)
    requires back <= 0x7fff
    ensures var entries := [Single(Pulse(0, 0, 0, 0x7fff)), Single(Pulse(0, 0, 0, 0x7fff - back))];
            TrainsExact(Pulses(entries), Trains(Decode(PackAll(entries)).events)) <==> back <= 0x2000
  {
    var p, q := Pulse(0, 0, 0, 0x7fff), Pulse(0, 0, 0, 0x7fff - back);
    var entries := [Single(p), Single(q)];
    SinglePulses(entries);
    RoundTrip(entries);
    assert StepsOk(Pulses(entries)) <==> StepOk(1, p.time, q.time);
  }

  /** Any number of pulses at the end of the first lap, and one at the start of the second. */
  function AcrossLap(n: nat): (r: seq<Entry>)
    ensures |r| == n + 1
  {
    seq(n + 1, i requires 0 <= i < n + 1 => Single(Pulse(0, 0, 0, if i < n then 0x7fff else 0x8000)))
  }

  /** The step across the lap is recognised unless the pulse counter has come round to zero: after 2^32 pulses,
      or a multiple of that. */
  lemma CounterWrapIsMissed(n: nat)
    requires n > 0
    ensures TrainsExact(Pulses(AcrossLap(n)), Trains(Decode(PackAll(AcrossLap(n))).events)) <==> n % 0x1_0000_0000 != 0
  {
    var ps := Pulses(AcrossLap(n));
    SinglePulses(AcrossLap(n));
    AcrossLapSteps(ps, n);
    OrderedTimesSurvive(AcrossLap(n));
  }

  lemma AcrossLapSteps(ps: seq<Pulse>, n: nat)
    requires n > 0 && |ps| == n + 1
    requires forall i :: 0 <= i <= n ==> ps[i].time == if i < n then 0x7fff else 0x8000
    ensures Ordered(ps) && Origin(ps) == 0
    ensures SameLapAtZero(ps) <==> n % 0x1_0000_0000 != 0
  {
    assert ps[n - 1].time / LAP == 0 && ps[n].time / LAP == 1;
    forall i | 0 < i < n
      ensures ps[i].time / LAP == ps[i - 1].time / LAP
    {
    }
  }

  class TraceReader {
    var fifo: seq<uint64>
    var spiketrains: map<Key, seq<nat>>
    var spkCount: nat
    var cycleCount: nat
    var prevTstamp: nat

    /** The state of the read-out agrees with the decoder's. */
    ghost predicate At(d: Decoder)
      reads this
    {
      spiketrains == Trains(d.events) && spkCount == d.count && cycleCount == U32(d.cycles) && prevTstamp == d.prev
    }

    /** Empties the trace FIFO into the spike trains, with 32-bit counters. */
    method ReadTracePulses()
      modifies this
      ensures fifo == []
      ensures spiketrains == Trains(Decode(old(fifo)).events)
      ensures AllComeBack(old(fifo), spiketrains)
    {
      spiketrains := map[];
      spkCount, cycleCount, prevTstamp := 0, 0, 0;
      ghost var taken: seq<uint64> := [];
      while fifo != []
        invariant old(fifo) == taken + fifo
        invariant At(Decode(taken))
        decreases |fifo|
      {
        ghost var rdata := fifo[0];
        Moved(taken, fifo);
        ReadEntry(taken);
        taken := taken + [rdata];
      }
      assert taken == old(fifo);
      DecodedComeBack(taken);
    }

    method ReadEntry(ghost taken: seq<uint64>)
      requires fifo != [] && At(Decode(taken))
      modifies this
      ensures fifo == old(fifo[1..]) && At(Decode(taken + [old(fifo[0])]))
    {
      var rdata := fifo[0];
      fifo := fifo[1..];
      DecodeSnoc(taken, rdata);
      StoreEntry(rdata, Decode(taken));
    }

    method StoreEntry(rdata: uint64, ghost d: Decoder)
      requires At(d)
      modifies this`spiketrains, this`spkCount, this`cycleCount, this`prevTstamp
      ensures At(TakeEntry(d, rdata))
    {
      StorePulse(rdata, d);
      if rdata / 0x8000_0000_0000_0000 != 0 {
        StorePulse(rdata / 0x1_0000_0000, TakePulse(d, rdata));
      }
    }

    method StorePulse(data: nat, ghost d: Decoder)
      requires At(d)
      modifies this`spiketrains, this`spkCount, this`cycleCount, this`prevTstamp
      ensures At(TakePulse(d, data))
    {
      var currId, currChan, currTstamp := Low9(data / 0x8000), Low3(data / 0x20_0000), Low15(data);
      if spkCount > 0 && prevTstamp > currTstamp + SLACK {
        cycleCount := U32(cycleCount + 1);
      }
      StoresAs(d, data, cycleCount);
      var currTime := U32(currTstamp + cycleCount * LAP);
      spiketrains := Appended(spiketrains, (currChan, currId), currTime);
      prevTstamp, spkCount := currTstamp, U32(spkCount + 1);
    }
  }

  /** One pulse taken, with 32-bit counters. */
  lemma StoresAs(d: Decoder, data: nat, cycleCount: nat)
    requires cycleCount == if Wrapped(d.count, d.prev, Low15(data)) then U32(U32(d.cycles) + 1) else U32(d.cycles)
    ensures cycleCount == U32(TakePulse(d, data).cycles)
    ensures Trains(TakePulse(d, data).events) ==
            Appended(Trains(d.events), (Low3(data / 0x20_0000), Low9(data / 0x8000)),
                     U32(Low15(data) + cycleCount * LAP))
  {
    var t := TakePulse(d, data);
    WideTime(d.cycles, t.cycles, Low15(data));
    TrainsSnoc(d.events, Event(Low3(data / 0x20_0000), Low9(data / 0x8000), Low15(data) + t.cycles * LAP));
  }

  lemma Moved<T>(front: seq<T>, back: seq<T>)
    requires back != []
    ensures front + [back[0]] + back[1..] == front + back
  {
  }

  lemma DecodeSnoc(taken: seq<uint64>, rdata: uint64)
    ensures Decode(taken + [rdata]) == TakeEntry(Decode(taken), rdata)
  {
    assert (taken + [rdata])[..|taken|] == taken;
  }

  /** Counting laps in 32 bits changes no 32-bit time. */
  lemma WideTime(before: nat, after: nat, tstamp: nat)
    requires after == before || after == before + 1
    ensures after == before + 1 ==> U32(U32(before) + 1) == U32(after)
    ensures U32(tstamp + U32(after) * LAP) == U32(tstamp + after * LAP)
  {
    AddOfCounter(U32_SIZE, before, 1);
    var q := after / U32_SIZE;
    assert after == U32_SIZE * q + U32(after);
    ModShift(U32_SIZE, tstamp + U32(after) * LAP, q * LAP);
  }
}
