/** Cyclic positions: the arithmetic behind `(SEQ_S + a - b) % SEQ_S` and `pos % WND_S`.
    The source mixes `int` and `uint` operands, so every such expression is evaluated modulo 2^32
    before the final `%`. */
module Modular {

  const U32_SIZE := 0x1_0000_0000

  /** Positions are held in `int` fields, so a ring has at most 2^31 numbers. */
  const MAX_SIZE := 0x8000_0000

  /** Conversion of an integer to a 32-bit unsigned value. */
  function U32(x: int): (r: nat) {
    x % U32_SIZE
  }

  /** How far position a lies after position b on a ring of `size` sequence numbers. */
  function Dist(size: nat, a: int, b: int): (r: nat)
    requires size > 0
    ensures r < size
    ensures 0 <= a <= size <= MAX_SIZE && 0 <= b < size ==>
              r == if a < b then size + a - b else if a - b == size then 0 else a - b
  {
    DistInRing(size, a, b);
    U32(size + a - b) % size
  }

  /** The position d steps after pos. */
  function Plus(size: nat, pos: int, d: int): (r: nat)
    requires size > 0
    ensures r < size
    ensures 0 <= pos < size && 0 <= d <= size ==>
              r == if pos + d < size then pos + d else pos + d - size
  {
    PlusInRing(size, pos, d);
    (pos + d) % size
  }

  /** The buffer slot of a position. */
  function Slot(slots: nat, pos: int): (r: nat)
    requires slots > 0
    ensures r < slots
  {
    U32(pos) % slots
  }

  lemma {:induction false} ModShift(m: int, r: int, k: int)
    requires m > 0
    ensures (m * k + r) % m == r % m
    decreases if k < 0 then -k else k
  {
    if k > 0 {
      ModShift(m, r, k - 1);
      ModPeriod(m, m * (k - 1) + r);
      assert m * k + r == m * (k - 1) + r + m;
    } else if k < 0 {
      ModShift(m, r, k + 1);
      ModPeriod(m, m * k + r);
      assert m * (k + 1) + r == m * k + r + m;
    }
  }

  lemma ModPeriod(m: int, x: int)
    requires m > 0
    ensures (x + m) % m == x % m
  {
    var q, r := x / m, x % m;
    assert x == m * q + r;
    assert x + m == m * (q + 1) + r;
    ModUnique(m, x + m, q + 1, r);
  }

  lemma MulAtLeast(m: int, k: int)
    requires m >= 0 && k >= 1
    ensures m * k >= m
  {
    var j := k - 1;
    assert m * j >= 0;
    assert m * k == m * j + m;
  }

  lemma ModUnique(m: int, x: int, q: int, r: int)
    requires m > 0 && x == m * q + r && 0 <= r < m
    ensures x / m == q && x % m == r
  {
    var q', r' := x / m, x % m;
    assert x == m * q' + r';
    if q' > q {
      assert m * (q' - q) == m * q' - m * q;
      MulAtLeast(m, q' - q);
      assert false;
    } else if q' < q {
      assert m * (q - q') == m * q - m * q';
      MulAtLeast(m, q - q');
      assert false;
    }
  }

  lemma DistInRing(size: nat, a: int, b: int)
    requires size > 0
    ensures 0 <= a <= size <= MAX_SIZE && 0 <= b < size ==>
              U32(size + a - b) % size == if a < b then size + a - b else if a - b == size then 0 else a - b
  {
    if 0 <= a <= size <= MAX_SIZE && 0 <= b < size {
      var d := U32(size + a - b);
      if d < size {
        ModUnique(size, d, 0, d);
      } else if d < 2 * size {
        ModUnique(size, d, 1, d - size);
      } else {
        ModUnique(size, d, 2, 0);
      }
    }
  }

  lemma PlusInRing(size: nat, pos: int, d: int)
    requires size > 0
    ensures 0 <= pos < size && 0 <= d <= size ==>
              (pos + d) % size == if pos + d < size then pos + d else pos + d - size
  {
    if 0 <= pos < size && 0 <= d <= size {
      if pos + d < size {
        ModUnique(size, pos + d, 0, pos + d);
      } else {
        ModUnique(size, pos + d, 1, pos + d - size);
      }
    }
  }

  /** Distances between reduced counters are distances between the counters themselves. */
  lemma DistOfCounters(size: nat, x: nat, y: nat)
    requires 0 < size <= MAX_SIZE
    requires x - y < size && y - x <= size
    ensures Dist(size, x % size, y % size) == if x >= y then x - y else size + x - y
  {
    var d := size + x % size - y % size;
    assert 0 < d < 2 * size;
    assert U32(d) == d;
    var k := x / size - y / size;
    assert x == size * (x / size) + x % size;
    assert y == size * (y / size) + y % size;
    assert size * k == size * (x / size) - size * (y / size);
    assert d == size * (1 - k) + (x - y);
    ModShift(size, x - y, 1 - k);
    if x >= y {
      ModUnique(size, x - y, 0, x - y);
    } else {
      ModUnique(size, x - y, -1, size + x - y);
    }
  }

  /** When the slots divide the ring, a counter's slot survives the reduction. */
  lemma SlotOfCounter(size: nat, slots: nat, x: nat)
    requires 0 < size <= U32_SIZE && 0 < slots && size % slots == 0
    ensures Slot(slots, x % size) == x % slots
  {
    var q, r, k := x / size, x % size, size / slots;
    assert size == slots * k;
    assert x == size * q + r;
    assert slots * k * q == slots * (k * q);
    ModShift(slots, r, k * q);
    assert x == slots * (k * q) + r;
  }

  lemma NoMultipleBetween(m: int, k: int)
    requires m > 0
    ensures m * k <= 0 || m * k >= m
  {
    if k >= 1 {
      MulAtLeast(m, k);
    }
  }

  /** Fewer than `slots` consecutive positions never share a slot. */
  lemma SlotsDistinct(slots: nat, x: nat, y: nat)
    requires x < y < x + slots
    ensures x % slots != y % slots
  {
    var k := y / slots - x / slots;
    assert x == slots * (x / slots) + x % slots;
    assert y == slots * (y / slots) + y % slots;
    assert slots * k == slots * (y / slots) - slots * (x / slots);
    NoMultipleBetween(slots, k);
  }

  /** How far it is from a position to the next one in a given slot. */
  lemma StepsTo(slots: nat, pos: nat, s: nat) returns (k: nat)
    requires s < slots
    ensures k < slots && (pos + k) % slots == s
  {
    var r := pos % slots;
    k := if s >= r then s - r else slots + s - r;
    assert pos == slots * (pos / slots) + r;
    if s >= r {
      ModUnique(slots, pos + k, pos / slots, s);
    } else {
      assert slots * (pos / slots + 1) == slots * (pos / slots) + slots;
      ModUnique(slots, pos + k, pos / slots + 1, s);
    }
  }

  lemma NeighbourSlots(slots: nat, pos: nat)
    requires slots >= 2 && pos < MAX_SIZE
    ensures Slot(slots, pos) != Slot(slots, pos + 1)
  {
    assert U32(pos) == pos && U32(pos + 1) == pos + 1;
    SlotsDistinct(slots, pos, pos + 1);
  }

  /** Adding to a reduced counter is reducing the sum. */
  lemma AddOfCounter(size: nat, x: nat, d: nat)
    requires size > 0
    ensures (x % size + d) % size == (x + d) % size
  {
    assert x == size * (x / size) + x % size;
    ModShift(size, x % size + d, x / size);
    assert x + d == size * (x / size) + (x % size + d);
  }
}
