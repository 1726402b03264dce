/** The 16-bit one's complement checksum of RFC 1071, as computed with a 32-bit accumulator and exactly
    two folds. */
module Checksum {
  import opened Modular

  type word = x: nat | x < 0x1_0000
  type uint32 = x: nat | x < 0x1_0000_0000

  // ---------------------------------------------------------------- the reference definition

  /** One's complement addition: a carry out of the top bit comes back in at the bottom. */
  function OnesAdd(a: word, b: word): word {
    if a + b > 0xffff then a + b - 0xffff else a + b
  }

  function OnesSum(ws: seq<word>): word {
    if ws == [] then 0 else OnesAdd(OnesSum(ws[..|ws| - 1]), ws[|ws| - 1])
  }

  /** A receiver sums everything including the checksum and expects all ones. */
  predicate Verifies(ws: seq<word>) {
    OnesSum(ws) == 0xffff
  }

  // ---------------------------------------------------------------- sums as integers

  function Total(ws: seq<word>): nat {
    if ws == [] then 0 else Total(ws[..|ws| - 1]) + ws[|ws| - 1]
  }

  /** The representative of x modulo 2^16 - 1 that end-around carry arithmetic yields: zero only for zero. */
  function Canon(x: nat): word {
    if x == 0 then 0 else (x - 1) % 0xffff + 1
  }

  lemma CanonUnique(x: nat, k: nat, r: word)
    requires x == 0xffff * k + r && (r == 0 ==> x == 0)
    ensures Canon(x) == r
  {
    if x > 0 {
      assert x - 1 == 0xffff * k + (r - 1);
    }
  }

  lemma CanonAdd(x: nat, y: nat)
    ensures OnesAdd(Canon(x), Canon(y)) == Canon(x + y)
  {
    if x > 0 && y > 0 {
      var kx, ky := (x - 1) / 0xffff, (y - 1) / 0xffff;
      assert x == 0xffff * kx + Canon(x) && y == 0xffff * ky + Canon(y);
      var r := OnesAdd(Canon(x), Canon(y));
      CanonUnique(x + y, if Canon(x) + Canon(y) > 0xffff then kx + ky + 1 else kx + ky, r);
    }
  }

  /** End-around carry at every addition, or one reduction of the integer sum: the same result. */
  lemma {:induction false} OnesSumIsCanon(ws: seq<word>)
    ensures OnesSum(ws) == Canon(Total(ws))
  {
    if ws != [] {
      var init, last := ws[..|ws| - 1], ws[|ws| - 1];
      OnesSumIsCanon(init);
      assert Canon(last) == last;
      CanonAdd(Total(init), last);
    }
  }

  lemma {:induction false} TotalConcat(a: seq<word>, b: seq<word>)
    ensures Total(a + b) == Total(a) + Total(b)
    decreases |b|
  {
    if b == [] {
      assert a + b == a;
    } else {
      assert (a + b)[..|a + b| - 1] == a + b[..|b| - 1];
      TotalConcat(a, b[..|b| - 1]);
    }
  }

  lemma {:induction false} TotalBound(ws: seq<word>)
    ensures Total(ws) <= |ws| * 0xffff
  {
    if ws != [] {
      TotalBound(ws[..|ws| - 1]);
    }
  }

  lemma TotalUpdate(ws: seq<word>, i: nat, v: word)
    requires i < |ws|
    ensures Total(ws[i := v]) == Total(ws) - ws[i] + v
  {
    var l, r := ws[..i], ws[i + 1..];
    assert ws == l + [ws[i]] + r && ws[i := v] == l + [v] + r;
    TotalConcat(l + [ws[i]], r);
    TotalConcat(l, [ws[i]]);
    TotalConcat(l + [v], r);
    TotalConcat(l, [v]);
    assert Total([ws[i]]) == ws[i] && Total([v]) == v;
  }

  // ---------------------------------------------------------------- the code

  /** A 32-bit accumulator holds the sum modulo 2^32, however the additions are grouped. */
  lemma U32Accumulates(t: nat, x: nat)
    ensures U32(U32(t) + x) == U32(t + x)
  {
    AddOfCounter(U32_SIZE, t, x);
  }

  /** Two folds and a complement, in 32-bit arithmetic. */
  function WrapSum(sum: uint32): (r: word)
    ensures r == 0xffff - Canon(sum)
  {
    var once := U32(sum / 0x1_0000 + sum % 0x1_0000);
    var twice := U32(once + once / 0x1_0000);
    FoldTwice(sum);
    Complement(twice);
    (0xffff_ffff - twice) % 0x1_0000
  }

  lemma Complement(x: uint32)
    ensures (0xffff_ffff - x) % 0x1_0000 == 0xffff - x % 0x1_0000
  {
    var hi, lo := x / 0x1_0000, x % 0x1_0000;
    assert x == 0x1_0000 * hi + lo;
    assert 0xffff_ffff - x == 0x1_0000 * (0xffff - hi) + (0xffff - lo);
  }

  /** After two folds nothing is left above the low 16 bits that matters, for every 32-bit value. */
  lemma FoldTwice(sum: uint32)
    ensures var once := U32(sum / 0x1_0000 + sum % 0x1_0000);
            U32(once + once / 0x1_0000) % 0x1_0000 == Canon(sum)
  {
    var hi, lo := sum / 0x1_0000, sum % 0x1_0000;
    var once := hi + lo;
    assert U32(once) == once;
    if once > 0xffff {
      assert once / 0x1_0000 == 1;
      assert U32(once + 1) == once + 1 && (once + 1) % 0x1_0000 == once - 0xffff;
      CanonUnique(sum, hi + 1, once - 0xffff);
    } else {
      assert once / 0x1_0000 == 0 && once % 0x1_0000 == once;
      CanonUnique(sum, hi, once);
    }
  }

  // ---------------------------------------------------------------- properties

  /** 65537 words never overflow the accumulator; one more can. */
  lemma WordLimit(ws: seq<word>)
    requires |ws| <= 65537
    ensures Total(ws) < U32_SIZE && U32(Total(ws)) == Total(ws)
  {
    TotalBound(ws);
  }

  lemma {:induction false} TotalOfOnes(n: nat)
    ensures Total(seq(n, _ => 0xffff)) == n * 0xffff
  {
    if n > 0 {
      assert seq(n, _ => 0xffff)[..n - 1] == seq(n - 1, _ => 0xffff);
      TotalOfOnes(n - 1);
    }
  }

  lemma WordLimitIsTight()
    ensures Total(seq(65538, _ => 0xffff)) >= U32_SIZE
  {
    TotalOfOnes(65538);
  }

  /** Exactly when the accumulator's wraps go unnoticed: when there were none, or, unless what is left is
      zero, when their number is a multiple of 2^16 - 1 (which takes over 2^32 words, more than an `int` counts). */
  lemma ExactlyWithoutWrap(ws: seq<word>)
    ensures var wraps := Total(ws) / U32_SIZE;
            WrapSum(U32(Total(ws))) == 0xffff - OnesSum(ws) <==>
            wraps == 0 || (U32(Total(ws)) != 0 && wraps % 0xffff == 0)
  {
    OnesSumIsCanon(ws);
    var t := Total(ws);
    var k, r := t / U32_SIZE, t % U32_SIZE;
    CanonShift(r, k);
    if k > 0 && r > 0 {
      CanonPeriod(r + k % 0xffff, k / 0xffff);
      assert k == 0xffff * (k / 0xffff) + k % 0xffff;
      if k % 0xffff > 0 {
        CanonMoves(r, k % 0xffff);
      }
    }
  }

  lemma CanonPeriod(r: nat, k: nat)
    requires r > 0
    ensures Canon(r + 0xffff * k) == Canon(r)
  {
    var q := (r - 1) / 0xffff;
    assert r == 0xffff * q + Canon(r);
    CanonUnique(r + 0xffff * k, q + k, Canon(r));
  }

  /** 2^32 is 1 modulo 2^16 - 1, so each wrap loses one. */
  lemma CanonShift(r: nat, k: nat)
    ensures Canon(r + k * U32_SIZE) == Canon(r + k)
  {
    if r + k > 0 {
      var q := (r + k - 1) / 0xffff;
      assert r + k == 0xffff * q + Canon(r + k);
      CanonUnique(r + k * U32_SIZE, q + k * 65537, Canon(r + k));
    }
  }

  lemma CanonMoves(r: nat, k: nat)
    requires 0 < r && 0 < k < 0xffff
    ensures Canon(r + k) != Canon(r)
  {
    var q := (r - 1) / 0xffff;
    var c := Canon(r);
    assert r == 0xffff * q + c;
    if c + k > 0xffff {
      CanonUnique(r + k, q + 1, c + k - 0xffff);
    } else {
      CanonUnique(r + k, q, c + k);
    }
  }

  /** The checksum completes a sum to all ones. */
  lemma Completes(t: nat)
    ensures Canon(t + (0xffff - Canon(t))) == 0xffff
  {
    if t == 0 {
      CanonUnique(0xffff, 0, 0xffff);
    } else {
      var k := (t - 1) / 0xffff;
      assert t == 0xffff * k + Canon(t);
      CanonUnique(t + (0xffff - Canon(t)), k, 0xffff);
    }
  }

  lemma VerifiedCheckIsZero(ws: seq<word>)
    requires Verifies(ws) && |ws| <= 65537
    ensures WrapSum(U32(Total(ws))) == 0
  {
    WordLimit(ws);
    OnesSumIsCanon(ws);
  }

  lemma TotalOfFilled(ws: seq<word>, i: nat)
    requires i < |ws| && ws[i] == 0
    ensures Total(ws[i := 0xffff - OnesSum(ws)]) == Total(ws) + (0xffff - Canon(Total(ws)))
  {
    TotalUpdate(ws, i, 0xffff - OnesSum(ws));
    OnesSumIsCanon(ws);
  }

  lemma FilledSum(ws: seq<word>, i: nat)
    requires i < |ws| && ws[i] == 0
    ensures OnesSum(ws[i := 0xffff - OnesSum(ws)]) == 0xffff
  {
    TotalOfFilled(ws, i);
    OnesSumIsCanon(ws[i := 0xffff - OnesSum(ws)]);
    Completes(Total(ws));
  }

  /** Filling the zeroed checksum word makes the whole array verify, and, within the word limit, makes the
      checksum computed over it zero. */
  lemma FilledVerifies(ws: seq<word>, i: nat)
    requires i < |ws| && ws[i] == 0
    ensures Verifies(ws[i := 0xffff - OnesSum(ws)])
    ensures |ws| <= 65537 ==> WrapSum(U32(Total(ws[i := 0xffff - OnesSum(ws)]))) == 0
  {
    FilledSum(ws, i);
    if |ws| <= 65537 {
      VerifiedCheckIsZero(ws[i := 0xffff - OnesSum(ws)]);
    }
  }

  // ---------------------------------------------------------------- byte order

  function Swap(w: word): word {
    w % 0x100 * 0x100 + w / 0x100
  }

  function Swapped(ws: seq<word>): (r: seq<word>)
    ensures |r| == |ws|
  {
    seq(|ws|, i requires 0 <= i < |ws| => Swap(ws[i]))
  }

  /** Swapping the bytes of a word multiplies it by 256 modulo 2^16 - 1. */
  lemma SwapIsShift(w: word, k: nat)
    ensures Canon(0xffff * k + 0x100 * w) == Swap(w) || (w == 0 && k > 0)
  {
    var h, l := w / 0x100, w % 0x100;
    assert w == 0x100 * h + l;
    if w > 0 || k == 0 {
      CanonUnique(0xffff * k + 0x100 * w, k + h, Swap(w));
    }
  }

  lemma SwapAdd(a: word, b: word)
    ensures Swap(OnesAdd(a, b)) == OnesAdd(Swap(a), Swap(b))
  {
    SwapIsShift(a, 0);
    SwapIsShift(b, 0);
    CanonAdd(0x100 * a, 0x100 * b);
    SwapIsShift(OnesAdd(a, b), if a + b > 0xffff then 0x100 else 0);
    assert 0x100 * a + 0x100 * b == 0x100 * (a + b);
  }

  lemma SwapOnes(w: word)
    ensures Swap(w) == 0xffff <==> w == 0xffff
  {
    var h, l := w / 0x100, w % 0x100;
    assert w == 0x100 * h + l && Swap(w) == 0x100 * l + h && h < 0x100;
  }

  /** Summing byte-swapped words gives the byte-swapped sum (RFC 1071, section 2(B)). */
  lemma {:induction false} ByteOrderIndependent(ws: seq<word>)
    ensures OnesSum(Swapped(ws)) == Swap(OnesSum(ws))
  {
    if ws != [] {
      var n := |ws| - 1;
      assert Swapped(ws)[..n] == Swapped(ws[..n]);
      ByteOrderIndependent(ws[..n]);
      SwapAdd(OnesSum(ws[..n]), ws[n]);
    }
  }

  /** So a frame verifies in one byte order exactly when it verifies in the other. */
  lemma VerifiesEitherWay(ws: seq<word>)
    ensures Verifies(Swapped(ws)) <==> Verifies(ws)
  {
    ByteOrderIndependent(ws);
    SwapOnes(OnesSum(ws));
  }
}
