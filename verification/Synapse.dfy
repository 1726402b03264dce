/** Programming the synapse array: rows of 4-bit values packed eight to a word, and the mapping between synapse
    rows and the drivers that feed them. */
module Synapse {
  import opened Bits
  import opened Modular
  import opened Wrappers

  const ROWS: nat := 224
  const ROW_WORDS: nat := 32

  // ---------------------------------------------------------------- nibbles

  /** The j-th 4-bit chunk of a word, counting from the least significant. */
  function Nibble(w: nat, j: nat): (r: nat)
    ensures r < 16
  {
    if j == 0 then w % 16 else Nibble(w / 16, j - 1)
  }

  function Unpack(words: seq<nat>): (r: seq<nat>)
    ensures |r| == 8 * |words|
  {
    seq(8 * |words|, i requires 0 <= i < 8 * |words| => Nibble(words[i / 8], i % 8))
  }

  /** The low nibbles of the columns that fill whole words. */
  function LowNibbles(values: seq<nat>): (r: seq<nat>)
    ensures |r| == 8 * (|values| / 8)
  {
    seq(8 * (|values| / 8), i requires 0 <= i < 8 * (|values| / 8) => values[i] % 16)
  }

  /** The number whose hexadecimal digits are the low nibbles, least significant first. */
  function Digits(values: seq<nat>): nat {
    if values == [] then 0 else values[0] % 16 + 16 * Digits(values[1..])
  }

  lemma {:induction false} NibbleOfDigits(values: seq<nat>, j: nat)
    requires j < |values|
    ensures Nibble(Digits(values), j) == values[j] % 16
    decreases j
  {
    var rest := Digits(values[1..]);
    assert Digits(values) % 16 == values[0] % 16 && Digits(values) / 16 == rest;
    if j > 0 {
      NibbleOfDigits(values[1..], j - 1);
    }
  }

  lemma {:induction false} DigitsBound(values: seq<nat>)
    ensures Digits(values) < Pow2(4 * |values|)
  {
    if values != [] {
      DigitsBound(values[1..]);
      FourMore(|values| - 1);
    }
  }

  lemma FourMore(k: nat)
    ensures Pow2(4 * (k + 1)) == 16 * Pow2(4 * k)
  {
    assert Pow2(4 * k + 4) == 2 * Pow2(4 * k + 3) == 4 * Pow2(4 * k + 2) == 8 * Pow2(4 * k + 1);
  }

  lemma {:induction false} DigitsSnoc(values: seq<nat>, v: nat)
    ensures Digits(values + [v]) == Digits(values) + v % 16 * Pow2(4 * |values|)
  {
    if values == [] {
      assert ([v])[1..] == [];
    } else {
      assert (values + [v])[1..] == values[1..] + [v];
      DigitsSnoc(values[1..], v);
      FourMore(|values| - 1);
      Scale(v % 16, Pow2(4 * (|values| - 1)));
    }
  }

  lemma Scale(a: nat, b: nat)
    ensures 16 * (a * b) == a * (16 * b)
  {
  }

  lemma {:induction false} OrCommutes(a: nat, b: nat)
    ensures Or(a, b) == Or(b, a)
    decreases a + b
  {
    if a == 0 {
      OrZero(b);
    } else if b == 0 {
      OrZero(a);
    } else {
      OrCommutes(a / 2, b / 2);
    }
  }

  lemma OrAbove(lo: nat, x: nat, k: nat)
    requires lo < Pow2(k)
    ensures Or(lo, x * Pow2(k)) == lo + x * Pow2(k)
  {
    OrDisjoint(x, k, lo);
    OrCommutes(lo, x * Pow2(k));
  }

  /** Or-ing a nibble in above the digits so far appends it. */
  lemma OrAppends(values: seq<nat>, v: nat)
    ensures Or(Digits(values), v % 16 * Pow2(4 * |values|)) == Digits(values + [v])
  {
    DigitsBound(values);
    OrAbove(Digits(values), v % 16, 4 * |values|);
    DigitsSnoc(values, v);
  }

  /** A word is determined by its eight nibbles. */
  lemma {:induction false} NibblesDetermine(a: nat, b: nat, n: nat)
    requires a < Pow2(4 * n) && b < Pow2(4 * n)
    requires forall j :: 0 <= j < n ==> Nibble(a, j) == Nibble(b, j)
    ensures a == b
  {
    if n > 0 {
      FourMore(n - 1);
      forall j | 0 <= j < n - 1
        ensures Nibble(a / 16, j) == Nibble(b / 16, j)
      {
        assert Nibble(a, j + 1) == Nibble(b, j + 1);
      }
      NibblesDetermine(a / 16, b / 16, n - 1);
      assert Nibble(a, 0) == Nibble(b, 0);
    }
  }

  predicate WordsOnly(words: seq<nat>) {
    forall k :: 0 <= k < |words| ==> words[k] < 0x1_0000_0000
  }

  /** The packed row is the only sequence of 32-bit words that unpacks to these values. */
  lemma PackedUnique(words: seq<nat>, words': seq<nat>)
    requires WordsOnly(words) && WordsOnly(words') && Unpack(words) == Unpack(words')
    ensures words == words'
  {
    PowersUsed();
    assert |words| == |words'|;
    forall k | 0 <= k < |words|
      ensures words[k] == words'[k]
    {
      forall j | 0 <= j < 8
        ensures Nibble(words[k], j) == Nibble(words'[k], j)
      {
        assert Unpack(words)[8 * k + j] == Unpack(words')[8 * k + j];
      }
      NibblesDetermine(words[k], words'[k], 8);
    }
  }

  /** The eight columns that go into word k. */
  function Group(values: seq<nat>, k: nat): seq<nat>
    requires 8 * k + 8 <= |values|
  {
    values[8 * k..8 * k + 8]
  }

  /** The columns read into the word under construction. */
  function Pending(values: seq<nat>, col: nat): (r: seq<nat>)
    requires col <= |values|
    ensures |r| == col % 8
  {
    values[8 * (col / 8)..col]
  }

  lemma NextColumn(values: seq<nat>, col: nat)
    requires col < |values|
    ensures var group := Pending(values, col) + [values[col]];
            if col % 8 == 7 then
              (col + 1) / 8 == col / 8 + 1 && group == Group(values, col / 8) && Pending(values, col + 1) == []
            else (col + 1) / 8 == col / 8 && Pending(values, col + 1) == group
  {
  }

  /** The first n words are done. */
  predicate Filled(values: seq<nat>, words: seq<nat>, n: nat)
    requires n <= |words| == |values| / 8
  {
    forall k :: 0 <= k < n ==> words[k] == Digits(Group(values, k))
  }

  /** One more column goes into the word under construction, which closes it or extends it. */
  lemma ColumnRead(values: seq<nat>, words: seq<nat>, col: nat, eight: nat)
    requires col < |values| && |words| == |values| / 8
    requires eight == Digits(Pending(values, col)) && Filled(values, words, col / 8)
    ensures var next := Or(eight, values[col] % 16 * Pow2(4 * (col % 8)));
            if col % 8 == 7 then
              && col / 8 < |words| && Filled(values, words[col / 8 := next], (col + 1) / 8)
              && Digits(Pending(values, col + 1)) == 0
            else Filled(values, words, (col + 1) / 8) && next == Digits(Pending(values, col + 1))
  {
    OrAppends(Pending(values, col), values[col]);
    NextColumn(values, col);
  }

  lemma GroupsUnpack(values: seq<nat>, words: seq<nat>)
    requires |words| == |values| / 8 && Filled(values, words, |words|)
    ensures Unpack(words) == LowNibbles(values) && WordsOnly(words)
  {
    PowersUsed();
    forall k | 0 <= k < |words|
      ensures words[k] < 0x1_0000_0000
    {
      DigitsBound(Group(values, k));
    }
    forall i | 0 <= i < 8 * |words|
      ensures Nibble(words[i / 8], i % 8) == values[i] % 16
    {
      NibbleOfDigits(Group(values, i / 8), i % 8);
    }
  }

  // ---------------------------------------------------------------- rows and drivers

  /** Settings of one of the two rows a driver feeds. */
  datatype RowCfg = RowCfg(senx: bool, seni: bool)

  datatype DriverCfg = DriverCfg(top: RowCfg, bottom: RowCfg, enable: bool, locin: bool, topin: bool)

  /** One block of the array: its drivers on the two sides and its rows. */
  datatype BlockCfg = BlockCfg(left: seq<DriverCfg>, right: seq<DriverCfg>,
                               weights: seq<seq<nat>>, decoders: seq<seq<nat>>)

  /** A row has a driver in the configuration. */
  predicate HasDriver(b: BlockCfg, row: nat) {
    if row % 4 < 2 then row / 4 < |b.left| else row / 4 < |b.right|
  }

  /** The code's test whether to write a row. */
  predicate RowEnabled(b: BlockCfg, row: nat)
    requires HasDriver(b, row)
  {
    (row % 4 < 2 && b.left[row / 4].enable) || (row % 4 >= 2 && b.right[row / 4].enable)
  }

  /** The driver with a given address: left drivers count 0, 4, 8, ..., right ones 2, 6, 10, ... */
  function DriverAt(b: BlockCfg, address: nat): Option<DriverCfg> {
    if address % 4 == 0 && address / 4 < |b.left| then Some(b.left[address / 4])
    else if address % 4 == 2 && address / 4 < |b.right| then Some(b.right[address / 4])
    else None
  }

  predicate Enabled(b: BlockCfg, address: nat) {
    DriverAt(b, address).Some? && DriverAt(b, address).value.enable
  }

  /** The address of the driver that feeds a row: the number of the lower row of its pair. */
  function Address(row: nat): (r: nat)
    ensures r / 4 == row / 4 && r % 4 == if row % 4 < 2 then 0 else 2
  {
    AddressArithmetic(row);
    2 * (row / 2)
  }

  lemma AddressArithmetic(row: nat)
    ensures 2 * (row / 2) / 4 == row / 4 && 2 * (row / 2) % 4 == if row % 4 < 2 then 0 else 2
  {
    var q, m := row / 4, row % 4;
    ModUnique(2, row, 2 * q + m / 2, m % 2);
    ModUnique(4, 2 * (row / 2), q, 2 * (m / 2));
  }

  /** A row is written exactly when the driver with the address of its row pair is enabled. */
  lemma RowFollowsDriver(b: BlockCfg, row: nat)
    requires HasDriver(b, row)
    ensures RowEnabled(b, row) <==> Enabled(b, Address(row))
  {
    assert row % 4 < 2 || row % 4 >= 2;
  }

  lemma PairNumbers(row: nat)
    requires row % 2 == 0
    ensures Address(row + 1) == Address(row) && (row + 1) / 4 == row / 4 && (row % 4 < 2 <==> (row + 1) % 4 < 2)
  {
    var h, q, m := row / 2, row / 4, row % 4;
    assert m == 2 * (h - 2 * q);
    ModUnique(4, row + 1, q, m + 1);
    ModUnique(2, row + 1, h, 1);
  }

  function EnabledRows(b: BlockCfg, n: nat): nat
    requires forall row :: 0 <= row < n ==> HasDriver(b, row)
  {
    if n == 0 then 0 else EnabledRows(b, n - 1) + if RowEnabled(b, n - 1) then 1 else 0
  }

  function EnabledDrivers(drivers: seq<DriverCfg>, n: nat): nat
    requires n <= |drivers|
  {
    if n == 0 then 0 else EnabledDrivers(drivers, n - 1) + if drivers[n - 1].enable then 1 else 0
  }

  /** The four rows of a pair of drivers: two on the left, two on the right. */
  lemma RowOfDrivers(b: BlockCfg, k: nat, row: nat)
    requires k < |b.left| && k < |b.right| && 4 * k <= row < 4 * k + 4
    ensures HasDriver(b, row)
    ensures RowEnabled(b, row) == if row < 4 * k + 2 then b.left[k].enable else b.right[k].enable
  {
    ModUnique(4, row, k, row - 4 * k);
  }

  lemma {:induction false} AllHaveDrivers(b: BlockCfg, n: nat)
    requires n <= |b.left| && n <= |b.right|
    ensures forall row :: 0 <= row < 4 * n ==> HasDriver(b, row)
  {
    if n > 0 {
      AllHaveDrivers(b, n - 1);
      forall row | 4 * (n - 1) <= row < 4 * n
        ensures HasDriver(b, row)
      {
        RowOfDrivers(b, n - 1, row);
      }
    }
  }

  /** Two rows alike count for two or for none. */
  lemma TwoRowsCounted(b: BlockCfg, row: nat, on: bool)
    requires forall r :: 0 <= r < row + 2 ==> HasDriver(b, r)
    requires RowEnabled(b, row) == on && RowEnabled(b, row + 1) == on
    ensures EnabledRows(b, row + 2) == EnabledRows(b, row) + if on then 2 else 0
  {
  }

  /** The two rows of one driver. */
  lemma DriverRowsCounted(b: BlockCfg, k: nat, row: nat, on: bool)
    requires k < |b.left| && k < |b.right| && forall r :: 0 <= r < row + 2 ==> HasDriver(b, r)
    requires (row == 4 * k && on == b.left[k].enable) || (row == 4 * k + 2 && on == b.right[k].enable)
    ensures EnabledRows(b, row + 2) == EnabledRows(b, row) + if on then 2 else 0
  {
    RowOfDrivers(b, k, row);
    RowOfDrivers(b, k, row + 1);
    TwoRowsCounted(b, row, on);
  }

  /** The rows of a left and a right driver. */
  lemma FourRowsCounted(b: BlockCfg, k: nat, row: nat)
    requires k < |b.left| && k < |b.right| && row == 4 * k && forall r :: 0 <= r < row + 4 ==> HasDriver(b, r)
    ensures EnabledRows(b, row + 4)
         == EnabledRows(b, row) + (if b.left[k].enable then 2 else 0) + if b.right[k].enable then 2 else 0
  {
    DriverRowsCounted(b, k, row, b.left[k].enable);
    DriverRowsCounted(b, k, row + 2, b.right[k].enable);
  }

  /** Every enabled driver accounts for exactly two of the rows written. */
  lemma {:induction false} TwoRowsPerDriver(b: BlockCfg, n: nat)
    requires n <= |b.left| && n <= |b.right|
    ensures forall row :: 0 <= row < 4 * n ==> HasDriver(b, row)
    ensures EnabledRows(b, 4 * n) == 2 * (EnabledDrivers(b.left, n) + EnabledDrivers(b.right, n))
  {
    AllHaveDrivers(b, n);
    if n > 0 {
      TwoRowsPerDriver(b, n - 1);
      FourRowsCounted(b, n - 1, 4 * (n - 1));
    }
  }

  /** The words hold the low nibbles of the columns, eight to a word. */
  predicate Packed(words: seq<nat>, values: seq<nat>) {
    WordsOnly(words) && Unpack(words) == LowNibbles(values)
  }

  /** Row memory holds a configured row. */
  predicate Stores(words: seq<nat>, values: seq<nat>) {
    |words| == ROW_WORDS && Packed(words, values)
  }

  // ---------------------------------------------------------------- the code

  /** The contents of a block: its two row memories and its driver settings by address. */
  datatype Block = Block(weights: seq<seq<nat>>, decoders: seq<seq<nat>>, drivers: map<nat, DriverCfg>)

  /** One synapse block as its controller presents it. */
  class SynapseControl {
    var weights: seq<seq<nat>>
    var decoders: seq<seq<nat>>
    var drivers: map<nat, DriverCfg>

    ghost predicate Valid()
      reads this
    {
      |weights| == ROWS && |decoders| == ROWS
    }

    function State(): Block
      reads this
    {
      Block(weights, decoders, drivers)
    }

    method WriteWeight(row: nat, data: seq<nat>)
      requires Valid()
      modifies this`weights
      ensures Valid()
      ensures weights == if |data| == ROW_WORDS then PutRow(old(weights), row, data) else old(weights)
    {
      if |data| == ROW_WORDS && row < ROWS {
        weights := weights[row := data];
      }
    }

    method WriteDecoder(bottomRow: nat, bottom: seq<nat>, top: seq<nat>)
      requires Valid()
      modifies this`decoders
      ensures Valid()
      ensures decoders == if |bottom| == ROW_WORDS && |top| == ROW_WORDS && bottomRow <= ROWS - 2
                          then PutRow(PutRow(old(decoders), bottomRow, bottom), bottomRow + 1, top)
                          else old(decoders)
    {
      if |bottom| == ROW_WORDS && |top| == ROW_WORDS && bottomRow <= ROWS - 2 {
        decoders := decoders[bottomRow := bottom][bottomRow + 1 := top];
      }
    }

    method DrvConfig(driver: nat, topEx: bool, topIn: bool, botEx: bool, botIn: bool,
                     enable: bool, locInput: bool, topInput: bool)
      modifies this`drivers
      ensures drivers == old(drivers)[driver :=
                           DriverCfg(RowCfg(topEx, topIn), RowCfg(botEx, botIn), enable, locInput, topInput)]
    {
      drivers := drivers[driver :=
                   DriverCfg(RowCfg(topEx, topIn), RowCfg(botEx, botIn), enable, locInput, topInput)];
    }
  }

  /** The rows of a block can be programmed: every row has a driver, and rows to be written have the length
      the code asserts. */
  predicate Programmable(b: BlockCfg, rows: seq<seq<nat>>) {
    && (forall r :: 0 <= r < |rows| ==> HasDriver(b, r))
    && (forall r :: 0 <= r < |rows| && RowEnabled(b, r) ==> |rows[r]| / 8 == ROW_WORDS)
  }

  /** Rows are written in pairs, so an enabled bottom row must have its top row. */
  predicate Paired(b: BlockCfg, rows: seq<seq<nat>>)
    requires Programmable(b, rows)
  {
    forall r :: 0 <= r < |rows| && r % 2 == 0 && RowEnabled(b, r) ==> r + 1 < |rows|
  }

  /** What becomes of one row of a block: written if its driver is enabled, else as before. */
  predicate RowDone(b: BlockCfg, rows: seq<seq<nat>>, n: nat, row: nat, before: seq<nat>, now: seq<nat>)
    requires n <= |rows|
  {
    if row < n && Enabled(b, Address(row)) then Stores(now, rows[row]) else now == before
  }

  predicate RowsDone(b: BlockCfg, rows: seq<seq<nat>>, n: nat, before: seq<seq<nat>>, now: seq<seq<nat>>)
    requires n <= |rows|
  {
    |now| == |before| && forall row :: 0 <= row < |before| ==> RowDone(b, rows, n, row, before[row], now[row])
  }

  function PutRow(rows: seq<seq<nat>>, r: nat, data: seq<nat>): (now: seq<seq<nat>>)
    ensures |now| == |rows|
  {
    if r < |rows| then rows[r := data] else rows
  }

  lemma RowWritten(b: BlockCfg, rows: seq<seq<nat>>, n: nat, before: seq<seq<nat>>, now: seq<seq<nat>>, data: seq<nat>)
    requires n < |rows| && RowsDone(b, rows, n, before, now)
    requires Enabled(b, Address(n)) && Stores(data, rows[n])
    ensures RowsDone(b, rows, n + 1, before, PutRow(now, n, data))
  {
    forall row | 0 <= row < |before|
      ensures RowDone(b, rows, n + 1, row, before[row], PutRow(now, n, data)[row])
    {
      assert RowDone(b, rows, n, row, before[row], now[row]);
    }
  }

  lemma RowSkipped(b: BlockCfg, rows: seq<seq<nat>>, n: nat, before: seq<seq<nat>>, now: seq<seq<nat>>)
    requires n < |rows| && RowsDone(b, rows, n, before, now) && !Enabled(b, Address(n))
    ensures RowsDone(b, rows, n + 1, before, now)
  {
    forall row | 0 <= row < |before|
      ensures RowDone(b, rows, n + 1, row, before[row], now[row])
    {
      assert RowDone(b, rows, n, row, before[row], now[row]);
    }
  }

  lemma EvenPastLast(n: nat)
    requires n % 2 == 0 && n > ROWS - 2
    ensures n >= ROWS
  {
    assert n == 2 * (n / 2);
  }

  /** Two rows written as a pair; a pair past the last row of the array is ignored. */
  lemma PairWritten(b: BlockCfg, rows: seq<seq<nat>>, n: nat, before: seq<seq<nat>>, now: seq<seq<nat>>,
                    bottom: seq<nat>, top: seq<nat>)
    requires n % 2 == 0 && n + 1 < |rows| && |before| == ROWS && RowsDone(b, rows, n, before, now)
    requires Enabled(b, Address(n)) && Stores(bottom, rows[n]) && Stores(top, rows[n + 1])
    ensures RowsDone(b, rows, n + 2, before,
                     if n <= ROWS - 2 then PutRow(PutRow(now, n, bottom), n + 1, top) else now)
  {
    PairNumbers(n);
    RowWritten(b, rows, n, before, now, bottom);
    RowWritten(b, rows, n + 1, before, PutRow(now, n, bottom), top);
    if n > ROWS - 2 {
      EvenPastLast(n);
    }
  }

  lemma PairSkipped(b: BlockCfg, rows: seq<seq<nat>>, n: nat, before: seq<seq<nat>>, now: seq<seq<nat>>)
    requires n % 2 == 0 && n < |rows| && RowsDone(b, rows, n, before, now) && !Enabled(b, Address(n))
    ensures RowsDone(b, rows, Least(n + 2, |rows|), before, now)
  {
    PairNumbers(n);
    RowSkipped(b, rows, n, before, now);
    if n + 1 < |rows| {
      RowSkipped(b, rows, n + 1, before, now);
    }
  }

  lemma PairCounted(b: BlockCfg, rows: seq<seq<nat>>, n: nat)
    requires n % 2 == 0 && n < |rows| && Programmable(b, rows) && Paired(b, rows)
    ensures EnabledRows(b, Least(n + 2, |rows|)) == EnabledRows(b, n) + if RowEnabled(b, n) then 2 else 0
  {
    PairAgrees(b, n);
  }

  /** The first nl left and nr right drivers that are enabled are configured as asked, all others left alone. */
  predicate DriverDone(b: BlockCfg, nl: nat, nr: nat, a: nat, before: map<nat, DriverCfg>, now: map<nat, DriverCfg>) {
    if Enabled(b, a) && a / 4 < if a % 4 == 0 then nl else nr
    then a in now && now[a] == DriverAt(b, a).value
    else if a in before then a in now && now[a] == before[a]
    else a !in now
  }

  ghost predicate DriversDone(b: BlockCfg, nl: nat, nr: nat, before: map<nat, DriverCfg>, now: map<nat, DriverCfg>) {
    forall a: nat :: DriverDone(b, nl, nr, a, before, now)
  }

  lemma LeftDone(b: BlockCfg, n: nat, before: map<nat, DriverCfg>, now: map<nat, DriverCfg>)
    requires n < |b.left| && DriversDone(b, n, 0, before, now)
    ensures DriversDone(b, n + 1, 0, before, if b.left[n].enable then now[4 * n := b.left[n]] else now)
  {
    ModUnique(4, 4 * n, n, 0);
    var m, next := n + 1, if b.left[n].enable then now[4 * n := b.left[n]] else now;
    forall a: nat
      ensures DriverDone(b, m, 0, a, before, next)
    {
      assert DriverDone(b, n, 0, a, before, now);
      assert a % 4 == 0 && a / 4 == n ==> a == 4 * n;
    }
  }

  lemma RightDone(b: BlockCfg, n: nat, before: map<nat, DriverCfg>, now: map<nat, DriverCfg>)
    requires n < |b.right| && DriversDone(b, |b.left|, n, before, now)
    ensures DriversDone(b, |b.left|, n + 1, before, if b.right[n].enable then now[4 * n + 2 := b.right[n]] else now)
  {
    ModUnique(4, 4 * n + 2, n, 2);
    var m, next := n + 1, if b.right[n].enable then now[4 * n + 2 := b.right[n]] else now;
    forall a: nat
      ensures DriverDone(b, |b.left|, m, a, before, next)
    {
      assert DriverDone(b, |b.left|, n, a, before, now);
      assert a % 4 == 2 && a / 4 == n ==> a == 4 * n + 2;
    }
  }

  predicate Accepted(b: BlockCfg) {
    Programmable(b, b.weights) && Programmable(b, b.decoders) && Paired(b, b.decoders)
  }

  /** What programming a block does to it. */
  ghost predicate Programmed(b: BlockCfg, before: Block, now: Block) {
    && RowsDone(b, b.weights, |b.weights|, before.weights, now.weights)
    && RowsDone(b, b.decoders, |b.decoders|, before.decoders, now.decoders)
    && DriversDone(b, |b.left|, |b.right|, before.drivers, now.drivers)
  }

  /** A corollary, row by row: a row ends up with its configured weights exactly under a driver that ends up with
      its own configured settings; every other row and driver is as before. */
  lemma RowAndDriverTogether(b: BlockCfg, before: Block, now: Block, row: nat)
    requires Accepted(b) && Programmed(b, before, now)
    requires row < |before.weights| && row < |b.weights|
    ensures var a := Address(row);
            if Enabled(b, a) then
              Stores(now.weights[row], b.weights[row]) && a in now.drivers && now.drivers[a] == DriverAt(b, a).value
            else
              && now.weights[row] == before.weights[row]
              && (a in now.drivers <==> a in before.drivers)
              && (a in now.drivers ==> now.drivers[a] == before.drivers[a])
  {
    assert RowDone(b, b.weights, |b.weights|, row, before.weights[row], now.weights[row]);
    assert DriverDone(b, |b.left|, |b.right|, Address(row), before.drivers, now.drivers);
  }

  /** Programming leaves one possible content of every row it writes. */
  lemma ProgrammedUnique(b: BlockCfg, before: Block, now: Block, now': Block)
    requires Programmed(b, before, now) && Programmed(b, before, now')
    ensures now == now'
  {
    RowsUnique(b, b.weights, before.weights, now.weights, now'.weights);
    RowsUnique(b, b.decoders, before.decoders, now.decoders, now'.decoders);
    forall a: nat
      ensures a in now.drivers <==> a in now'.drivers
      ensures a in now.drivers ==> now.drivers[a] == now'.drivers[a]
    {
      assert DriverDone(b, |b.left|, |b.right|, a, before.drivers, now.drivers);
      assert DriverDone(b, |b.left|, |b.right|, a, before.drivers, now'.drivers);
    }
  }

  lemma RowsUnique(b: BlockCfg, rows: seq<seq<nat>>, before: seq<seq<nat>>, now: seq<seq<nat>>, now': seq<seq<nat>>)
    requires RowsDone(b, rows, |rows|, before, now) && RowsDone(b, rows, |rows|, before, now')
    ensures now == now'
  {
    forall row | 0 <= row < |before|
      ensures now[row] == now'[row]
    {
      assert RowDone(b, rows, |rows|, row, before[row], now[row]);
      assert RowDone(b, rows, |rows|, row, before[row], now'[row]);
      if now[row] != now'[row] {
        PackedUnique(now[row], now'[row]);
      }
    }
  }

  /** The configuration of a whole block: 56 drivers a side, 224 rows of 256 columns. */
  predicate Full(b: BlockCfg) {
    && |b.left| == |b.right| == 56 && |b.weights| == |b.decoders| == 224
    && (forall r :: 0 <= r < 224 ==> |b.weights[r]| == 256 && |b.decoders[r]| == 256)
  }

  /** It meets all the code asks of it. */
  lemma FullAccepted(b: BlockCfg)
    requires Full(b)
    ensures Accepted(b)
  {
    AllHaveDrivers(b, 56);
  }

  /** Row memory holds all the low nibbles of 256 columns, column 0 in the lowest bits of word 0. */
  predicate HoldsRow(words: seq<nat>, values: seq<nat>) {
    && |words| == 32 && |values| == 256
    && forall k :: 0 <= k < 32 ==> words[k] == EightNibbles(values[8 * k..8 * k + 8])
  }

  /** The word that holds eight columns. */
  function EightNibbles(v: seq<nat>): nat
    requires |v| == 8
  {
    v[0] % 16 + v[1] % 16 * 0x10 + v[2] % 16 * 0x100 + v[3] % 16 * 0x1000
    + v[4] % 16 * 0x1_0000 + v[5] % 16 * 0x10_0000 + v[6] % 16 * 0x100_0000 + v[7] % 16 * 0x1000_0000
  }

  /** Every row of a whole block whose driver is enabled is stored, weights and decoder addresses alike, whatever
      its number. */
  predicate Complete(b: BlockCfg, now: Block)
    requires Full(b)
  {
    forall row :: 0 <= row < 224 && Enabled(b, Address(row)) ==>
      && row < |now.weights| && HoldsRow(now.weights[row], b.weights[row])
      && row < |now.decoders| && HoldsRow(now.decoders[row], b.decoders[row])
  }

  lemma DigitsOfEight(v: seq<nat>)
    requires |v| == 8
    ensures Digits(v) == EightNibbles(v)
  {
    var d4 := v[4..];
    assert v[1..][1..][1..][1..] == d4;
    assert Digits(v) == v[0] % 16 + 16 * Digits(v[1..]);
    assert Digits(v[1..]) == v[1] % 16 + 16 * Digits(v[2..]) by { assert v[1..][1..] == v[2..]; }
    assert Digits(v[2..]) == v[2] % 16 + 16 * Digits(v[3..]) by { assert v[2..][1..] == v[3..]; }
    assert Digits(v[3..]) == v[3] % 16 + 16 * Digits(v[4..]) by { assert v[3..][1..] == v[4..]; }
    assert Digits(v[4..]) == v[4] % 16 + 16 * Digits(v[5..]) by { assert v[4..][1..] == v[5..]; }
    assert Digits(v[5..]) == v[5] % 16 + 16 * Digits(v[6..]) by { assert v[5..][1..] == v[6..]; }
    assert Digits(v[6..]) == v[6] % 16 + 16 * Digits(v[7..]) by { assert v[6..][1..] == v[7..]; }
    assert Digits(v[7..]) == v[7] % 16 by { assert v[7..][1..] == []; }
  }

  /** A packed row is the row of words with eight columns each, as written out. */
  lemma PackedWords(words: seq<nat>, values: seq<nat>)
    requires |words| == |values| / 8 && Packed(words, values)
    ensures forall k :: 0 <= k < |words| ==> words[k] == EightNibbles(Group(values, k))
  {
    var ideal := seq(|words|, k requires 0 <= k < |words| => Digits(Group(values, k)));
    GroupsUnpack(values, ideal);
    PackedUnique(words, ideal);
    forall k | 0 <= k < |words|
      ensures words[k] == EightNibbles(Group(values, k))
    {
      assert words[k] == ideal[k];
      DigitsOfEight(Group(values, k));
    }
  }

  lemma StoredRow(words: seq<nat>, values: seq<nat>)
    requires Stores(words, values) && |values| == 256
    ensures HoldsRow(words, values)
  {
    PackedWords(words, values);
  }

  lemma FullComplete(b: BlockCfg, before: Block, now: Block)
    requires Full(b) && Programmed(b, before, now) && |before.weights| == |before.decoders| == ROWS
    ensures Complete(b, now)
  {
    forall row | 0 <= row < 224 && Enabled(b, Address(row))
      ensures row < |now.weights| && HoldsRow(now.weights[row], b.weights[row])
      ensures row < |now.decoders| && HoldsRow(now.decoders[row], b.decoders[row])
    {
      assert RowDone(b, b.weights, 224, row, before.weights[row], now.weights[row]);
      assert RowDone(b, b.decoders, 224, row, before.decoders[row], now.decoders[row]);
      StoredRow(now.weights[row], b.weights[row]);
      StoredRow(now.decoders[row], b.decoders[row]);
    }
  }

  /** Left driver k has the address 4k and feeds rows 4k and 4k + 1; right driver k has 4k + 2 and feeds the next
      two. */
  lemma DriverAndRows(b: BlockCfg, k: nat)
    requires k < |b.left| && k < |b.right|
    ensures DriverAt(b, 4 * k) == Some(b.left[k]) && DriverAt(b, 4 * k + 2) == Some(b.right[k])
    ensures Address(4 * k) == Address(4 * k + 1) == 4 * k
    ensures Address(4 * k + 2) == Address(4 * k + 3) == 4 * k + 2
  {
    ModUnique(4, 4 * k, k, 0);
    ModUnique(4, 4 * k + 2, k, 2);
    AddressesOfFour(k);
  }

  lemma AddressesOfFour(k: nat)
    ensures Address(4 * k) == Address(4 * k + 1) == 4 * k
    ensures Address(4 * k + 2) == Address(4 * k + 3) == 4 * k + 2
  {
  }

  function Least(a: nat, b: nat): nat {
    if a < b then a else b
  }

  lemma PairAgrees(b: BlockCfg, row: nat)
    requires row % 2 == 0 && HasDriver(b, row)
    ensures HasDriver(b, row + 1) && RowEnabled(b, row) == RowEnabled(b, row + 1)
  {
    PairNumbers(row);
  }

  class MappingMaster {
    const top: SynapseControl
    const bottom: SynapseControl

    constructor (top: SynapseControl, bottom: SynapseControl)
      ensures this.top == top && this.bottom == bottom
    {
      this.top, this.bottom := top, bottom;
    }

    /** Packs eight columns into each word; a last group of fewer than eight is not written. */
    static method CompressSynapseRowValues(values: seq<nat>) returns (compressed: seq<nat>)
      ensures |compressed| == |values| / 8 && Packed(compressed, values)
    {
      compressed := seq(|values| / 8, i => 0);
      var eightValues: nat := 0;
      for col := 0 to |values|
        invariant |compressed| == |values| / 8
        invariant eightValues == Digits(Pending(values, col))
        invariant Filled(values, compressed, col / 8)
      {
        ColumnRead(values, compressed, col, eightValues);
        var mod := col % 8;
        var val := values[col] % 16 * Pow2(4 * mod);
        eightValues := Or(eightValues, val);
        if mod == 7 {
          compressed := compressed[col / 8 := eightValues];
          eightValues := 0;
        }
      }
      GroupsUnpack(values, compressed);
    }

    /** Writes the weights of the rows whose driver is enabled and counts them. */
    static method WriteWeights(c: SynapseControl, b: BlockCfg) returns (numRowsWritten: nat)
      requires c.Valid() && Programmable(b, b.weights)
      modifies c`weights
      ensures c.Valid() && RowsDone(b, b.weights, |b.weights|, old(c.weights), c.weights)
      ensures numRowsWritten == EnabledRows(b, |b.weights|)
    {
      numRowsWritten := 0;
      for row := 0 to |b.weights|
        invariant c.Valid() && RowsDone(b, b.weights, row, old(c.weights), c.weights)
        invariant numRowsWritten == EnabledRows(b, row)
      {
        RowFollowsDriver(b, row);
        if RowEnabled(b, row) {
          var valuesToWrite := CompressSynapseRowValues(b.weights[row]);
          RowWritten(b, b.weights, row, old(c.weights), c.weights, valuesToWrite);
          c.WriteWeight(row, valuesToWrite);
          numRowsWritten := numRowsWritten + 1;
        } else {
          RowSkipped(b, b.weights, row, old(c.weights), c.weights);
        }
      }
    }

    /** One turn of the decoder loop: a pair of rows is written if its driver is enabled. */
    static method WriteDecoderPair(c: SynapseControl, b: BlockCfg, bottomRow: nat, ghost before: seq<seq<nat>>)
      returns (written: nat)
      requires c.Valid() && Programmable(b, b.decoders) && Paired(b, b.decoders)
      requires bottomRow % 2 == 0 && bottomRow < |b.decoders| && |before| == ROWS
      requires RowsDone(b, b.decoders, bottomRow, before, c.decoders)
      modifies c`decoders
      ensures c.Valid() && RowsDone(b, b.decoders, Least(bottomRow + 2, |b.decoders|), before, c.decoders)
      ensures written == if RowEnabled(b, bottomRow) then 2 else 0
    {
      RowFollowsDriver(b, bottomRow);
      ghost var now := c.decoders;
      if RowEnabled(b, bottomRow) {
        PairAgrees(b, bottomRow);
        var bottomValues := CompressSynapseRowValues(b.decoders[bottomRow]);
        var topValues := CompressSynapseRowValues(b.decoders[bottomRow + 1]);
        PairWritten(b, b.decoders, bottomRow, before, now, bottomValues, topValues);
        c.WriteDecoder(bottomRow, bottomValues, topValues);
        written := 2;
      } else {
        PairSkipped(b, b.decoders, bottomRow, before, now);
        written := 0;
      }
    }

    /** Writes the decoder addresses of the row pairs whose driver is enabled. */
    static method WriteDecoders(c: SynapseControl, b: BlockCfg) returns (numRowsWritten: nat)
      requires c.Valid() && Programmable(b, b.decoders) && Paired(b, b.decoders)
      modifies c`decoders
      ensures c.Valid() && RowsDone(b, b.decoders, |b.decoders|, old(c.decoders), c.decoders)
      ensures numRowsWritten == EnabledRows(b, |b.decoders|)
    {
      numRowsWritten := 0;
      var bottomRow := 0;
      while bottomRow < |b.decoders|
        invariant bottomRow % 2 == 0
        invariant c.Valid()
        invariant RowsDone(b, b.decoders, Least(bottomRow, |b.decoders|), old(c.decoders), c.decoders)
        invariant numRowsWritten == EnabledRows(b, Least(bottomRow, |b.decoders|))
      {
        PairCounted(b, b.decoders, bottomRow);
        ModShift(2, bottomRow, 1);
        var written := WriteDecoderPair(c, b, bottomRow, old(c.decoders));
        numRowsWritten := numRowsWritten + written;
        bottomRow := bottomRow + 2;
      }
    }

    static method ConfigureSynapseDriver(c: SynapseControl, driver: nat, cfg: DriverCfg)
      modifies c`drivers
      ensures c.drivers == old(c.drivers)[driver := cfg]
    {
      c.DrvConfig(driver, cfg.top.senx, cfg.top.seni, cfg.bottom.senx, cfg.bottom.seni,
                  cfg.enable, cfg.locin, cfg.topin);
    }

    /** Configures the enabled drivers of both sides at their addresses. */
    static method ProgramDrivers(c: SynapseControl, b: BlockCfg)
      modifies c`drivers
      ensures DriversDone(b, |b.left|, |b.right|, old(c.drivers), c.drivers)
    {
      for n := 0 to |b.left|
        invariant DriversDone(b, n, 0, old(c.drivers), c.drivers)
      {
        LeftDone(b, n, old(c.drivers), c.drivers);
        if b.left[n].enable {
          ConfigureSynapseDriver(c, n * 4, b.left[n]);
        }
      }
      for n := 0 to |b.right|
        invariant DriversDone(b, |b.left|, n, old(c.drivers), c.drivers)
      {
        RightDone(b, n, old(c.drivers), c.drivers);
        if b.right[n].enable {
          ConfigureSynapseDriver(c, n * 4 + 2, b.right[n]);
        }
      }
    }

    /** Programs both blocks: weights, then decoder addresses, then drivers. */
    method ProgramSynapseControl(topCfg: BlockCfg, bottomCfg: BlockCfg)
      requires top != bottom && top.Valid() && bottom.Valid()
      requires Accepted(topCfg) && Accepted(bottomCfg)
      modifies top, bottom
      ensures top.Valid() && Programmed(topCfg, old(top.State()), top.State())
      ensures bottom.Valid() && Programmed(bottomCfg, old(bottom.State()), bottom.State())
      ensures Full(topCfg) ==> Complete(topCfg, top.State())
      ensures Full(bottomCfg) ==> Complete(bottomCfg, bottom.State())
    {
      var num := WriteWeights(top, topCfg);
      num := WriteWeights(bottom, bottomCfg);
      num := WriteDecoders(top, topCfg);
      num := WriteDecoders(bottom, bottomCfg);
      ProgramDrivers(top, topCfg);
      ProgramDrivers(bottom, bottomCfg);
      if Full(topCfg) {
        FullComplete(topCfg, old(top.State()), top.State());
      }
      if Full(bottomCfg) {
        FullComplete(bottomCfg, old(bottom.State()), bottom.State());
      }
    }
  }
}
