/** Ring and bucket sizes: nextPowerOfTwo, and the masks made from its results. Bit operations are
    written on naturals; the 64-bit wrap-around is explicit. */
module PowerOfTwo {

  const WORD: nat := 0x1_0000_0000_0000_0000

  function Pow2(k: nat): (r: nat)
    ensures r >= 1
  {
    if k == 0 then 1 else 2 * Pow2(k - 1)
  }

  function Or(a: nat, b: nat): nat {
    if a == 0 then b
    else (if a % 2 == 1 || b % 2 == 1 then 1 else 0) + 2 * Or(a / 2, b / 2)
  }

  function And(a: nat, b: nat): nat {
    if a == 0 then 0
    else (if a % 2 == 1 && b % 2 == 1 then 1 else 0) + 2 * And(a / 2, b / 2)
  }

  function ShiftRight(a: nat, k: nat): nat {
    if k == 0 then a else ShiftRight(a / 2, k - 1)
  }

  function Smear(m: nat): nat {
    var a := Or(m, ShiftRight(m, 1));
    var b := Or(a, ShiftRight(a, 2));
    var c := Or(b, ShiftRight(b, 4));
    var d := Or(c, ShiftRight(c, 8));
    var e := Or(d, ShiftRight(d, 16));
    Or(e, ShiftRight(e, 32))
  }

  /** storage/lockfree.go: decrement, smear and increment, each modulo 2^64 */
  function NextPowerOfTwo64(n: nat): nat {
    (Smear((n + WORD - 1) % WORD) + 1) % WORD
  }

  /** scheduler/queues.go answers 1 for 0 */
  function NextPowerOfTwo(n: nat): nat {
    if n == 0 then 1 else NextPowerOfTwo64(n)
  }

  // ---------------------------------------------------------------- bits

  predicate Bit(a: nat, i: nat) {
    if i == 0 then a % 2 == 1 else Bit(a / 2, i - 1)
  }

  lemma {:induction false} ZeroBits(i: nat)
    ensures !Bit(0, i)
  {
    if i > 0 { ZeroBits(i - 1); }
  }

  lemma {:induction false} OrBits(a: nat, b: nat, i: nat)
    ensures Bit(Or(a, b), i) <==> Bit(a, i) || Bit(b, i)
  {
    if a == 0 {
      ZeroBits(i);
    } else if i > 0 {
      OrBits(a / 2, b / 2, i - 1);
    }
  }

  lemma {:induction false} ShiftBits(a: nat, k: nat, i: nat)
    ensures Bit(ShiftRight(a, k), i) <==> Bit(a, k + i)
  {
    if k > 0 { ShiftBits(a / 2, k - 1, i); }
  }

  /** Naturals with the same bits are equal. */
  lemma {:induction false} SameBits(a: nat, b: nat)
    requires forall i: nat :: Bit(a, i) <==> Bit(b, i)
    ensures a == b
    decreases a + b
  {
    if a + b > 0 {
      assert Bit(a, 0) <==> Bit(b, 0);
      forall i: nat ensures Bit(a / 2, i) <==> Bit(b / 2, i) {
        assert Bit(a, i + 1) <==> Bit(b, i + 1);
      }
      SameBits(a / 2, b / 2);
    }
  }

  lemma {:induction false} OnesBits(k: nat, i: nat)
    ensures Bit(Pow2(k) - 1, i) <==> i < k
  {
    if k == 0 {
      ZeroBits(i);
    } else {
      OnesBits(k - 1, if i > 0 then i - 1 else 0);
      assert (Pow2(k) - 1) / 2 == Pow2(k - 1) - 1;
    }
  }

  /** `m` has `length` bits: its top bit is at length - 1. */
  lemma {:induction false} BitLength(m: nat) returns (length: nat)
    ensures m < Pow2(length) && (length > 0 ==> Pow2(length - 1) <= m && Bit(m, length - 1))
    ensures forall i | i >= length :: !Bit(m, i)
  {
    if m == 0 {
      length := 0;
      forall i: nat ensures !Bit(m, i) { ZeroBits(i); }
    } else {
      var l := BitLength(m / 2);
      length := l + 1;
      forall i | i >= length ensures !Bit(m, i) { assert !Bit(m / 2, i - 1); }
      assert l == 0 ==> m == 1;
    }
  }

  lemma {:induction false} Pow2Monotone(j: nat, k: nat)
    requires j <= k
    ensures Pow2(j) <= Pow2(k)
  {
    if j < k { Pow2Monotone(j, k - 1); }
  }

  // ---------------------------------------------------------------- smearing

  ghost predicate AnyBit(m: nat, from: nat, to: nat) {
    exists j :: from <= j < to && Bit(m, j)
  }

  /** Bit i of `x` is set when one of the `w` bits of `m` from i upwards is. */
  ghost predicate Spread(x: nat, m: nat, w: nat) {
    forall i: nat :: Bit(x, i) <==> AnyBit(m, i, i + w)
  }

  lemma SpreadTwice(x: nat, m: nat, w: nat)
    requires Spread(x, m, w)
    ensures Spread(Or(x, ShiftRight(x, w)), m, 2 * w)
  {
    forall i: nat ensures Bit(Or(x, ShiftRight(x, w)), i) <==> AnyBit(m, i, i + 2 * w) {
      OrBits(x, ShiftRight(x, w), i);
      ShiftBits(x, w, i);
      assert Bit(x, w + i) <==> AnyBit(m, w + i, w + i + w);
      if AnyBit(m, i, i + 2 * w) {
        var j :| i <= j < i + 2 * w && Bit(m, j);
        assert if j < i + w then AnyBit(m, i, i + w) else AnyBit(m, w + i, w + i + w);
      }
    }
  }

  lemma SpreadOnce(m: nat)
    ensures Spread(m, m, 1)
  {
    forall i: nat ensures Bit(m, i) <==> AnyBit(m, i, i + 1) {
      if Bit(m, i) { assert AnyBit(m, i, i + 1); }
    }
  }

  lemma WordSizes()
    ensures Pow2(64) == WORD && Pow2(63) == WORD / 2
  {
    assert Pow2(2) == 4;
    Pow2Add(2, 2);
    Pow2Add(4, 4);
    Pow2Add(8, 8);
    Pow2Add(16, 16);
    Pow2Add(32, 32);
    assert Pow2(32) == 0x1_0000_0000 && Pow2(64) == 2 * Pow2(63);
  }

  lemma {:induction false} Pow2Add(j: nat, k: nat)
    ensures Pow2(j + k) == Pow2(j) * Pow2(k)
  {
    if k > 0 {
      Pow2Add(j, k - 1);
      assert Pow2(j) * (2 * Pow2(k - 1)) == 2 * (Pow2(j) * Pow2(k - 1));
    }
  }

  lemma SmearSpreads(m: nat)
    ensures Spread(Smear(m), m, 64)
  {
    var a := Or(m, ShiftRight(m, 1));
    var b := Or(a, ShiftRight(a, 2));
    var c := Or(b, ShiftRight(b, 4));
    var d := Or(c, ShiftRight(c, 8));
    var e := Or(d, ShiftRight(d, 16));
    SpreadOnce(m);
    SpreadTwice(m, m, 1);
    SpreadTwice(a, m, 2);
    SpreadTwice(b, m, 4);
    SpreadTwice(c, m, 8);
    SpreadTwice(d, m, 16);
    SpreadTwice(e, m, 32);
  }

  /** Smearing sets every bit below the top one. */
  lemma SmearFills(m: nat) returns (length: nat)
    requires m < WORD
    ensures length <= 64 && Smear(m) == Pow2(length) - 1
    ensures m < Pow2(length) && (length > 0 ==> Pow2(length - 1) <= m)
  {
    length := BitLength(m);
    WordSizes();
    if length > 64 { Pow2Monotone(64, length - 1); }
    SmearSpreads(m);
    OnesBits(length, 0);
    forall i: nat ensures Bit(Smear(m), i) <==> Bit(Pow2(length) - 1, i) {
      OnesBits(length, i);
      if i < length { assert Bit(m, length - 1) && AnyBit(m, i, i + 64); }
    }
    SameBits(Smear(m), Pow2(length) - 1);
  }

  /** The least power of two at or above n, for 1 <= n <= 2^63. */
  lemma LeastPowerOfTwo(n: nat) returns (k: nat)
    requires 1 <= n <= WORD / 2
    ensures NextPowerOfTwo(n) == NextPowerOfTwo64(n) == Pow2(k) && n <= Pow2(k)
    ensures forall j: nat :: n <= Pow2(j) ==> Pow2(k) <= Pow2(j)
  {
    hide Smear, Pow2;
    k := SmearFills(n - 1);
    WordSizes();
    if k > 63 { Pow2Monotone(63, k - 1); }
    Pow2Monotone(k, 63);
    forall j: nat | n <= Pow2(j) ensures Pow2(k) <= Pow2(j) {
      if j < k { Pow2Monotone(j, k - 1); } else { Pow2Monotone(k, j); }
    }
  }

  /** Above 2^63 the increment wraps to 0, as it does for 0 in the storage version. */
  lemma WrapsToZero(n: nat)
    requires WORD / 2 < n < WORD || n == 0
    ensures NextPowerOfTwo64(n) == 0
  {
    hide Smear, Pow2;
    var k := SmearFills((n + WORD - 1) % WORD);
    WordSizes();
    if k < 64 { Pow2Monotone(k, 63); }
  }

  /** index & (size - 1) is index mod size. */
  lemma {:induction false} MaskIsRemainder(i: nat, k: nat)
    ensures And(i, Pow2(k) - 1) == i % Pow2(k)
  {
    if k == 0 {
      AndZero(i);
    } else {
      MaskIsRemainder(i / 2, k - 1);
      var p := Pow2(k - 1);
      assert (2 * p - 1) / 2 == p - 1 && (2 * p - 1) % 2 == 1;
      HalfRemainder(i, p);
    }
  }

  lemma {:induction false} AndZero(a: nat)
    ensures And(a, 0) == 0
  {
    if a > 0 { AndZero(a / 2); }
  }

  lemma HalfRemainder(i: nat, p: nat)
    requires p >= 1
    ensures i % (2 * p) == i % 2 + 2 * (i / 2 % p)
  {
    var h := i / 2;
    var q, r := h / p, h % p;
    assert h == p * q + r;
    assert i == (2 * p) * q + (i % 2 + 2 * r);
    QuotientUnique(i, 2 * p, q, i % 2 + 2 * r);
  }

  lemma QuotientUnique(i: nat, n: nat, q: nat, r: nat)
    requires r < n && i == n * q + r
    ensures i % n == r
  {
    NoMultipleBetween(n, q - i / n);
    NoMultipleBetween(n, i / n - q);
    assert n * (q - i / n) == n * q - n * (i / n) && n * (i / n - q) == n * (i / n) - n * q;
    assert i == n * (i / n) + i % n;
  }

  lemma NoMultipleBetween(n: nat, q: int)
    ensures n * q <= 0 || n * q >= n
  {
    if q >= 1 { assert n * q >= n * 1; } else { assert n * q <= n * 0; }
  }

  lemma {:induction false} AndSame(a: nat)
    ensures And(a, a) == a
  {
    if a > 0 { AndSame(a / 2); }
  }

  lemma OddTest(n: nat)
    requires n % 2 == 1
    ensures And(n, n - 1) == n - 1
  {
    assert (n - 1) / 2 == n / 2;
    AndSame(n / 2);
    if n == 1 { AndZero(1); }
  }

  /** The test size & (size - 1) == 0 recognises the powers of two. */
  lemma {:induction false} PowerTest(n: nat) returns (k: nat)
    requires n >= 1 && And(n, n - 1) == 0
    ensures n == Pow2(k)
  {
    if n % 2 == 1 {
      OddTest(n);
      k := 0;
    } else {
      assert (n - 1) / 2 == n / 2 - 1;
      k := PowerTest(n / 2);
      k := k + 1;
    }
  }

  /** What both constructors do with the requested size. */
  function RoundUp(size: nat): nat {
    if size == 0 || And(size, size - 1) == 0 then size else NextPowerOfTwo(size)
  }

  lemma RoundedIsPower(size: nat) returns (k: nat)
    requires 1 <= size <= WORD / 2
    ensures RoundUp(size) == Pow2(k) >= size
  {
    if And(size, size - 1) == 0 { k := PowerTest(size); } else { k := LeastPowerOfTwo(size); }
  }

  /** Distinct indices less than a full ring apart never share a slot. */
  lemma DistinctSlots(i: int, j: int, n: int)
    requires 0 <= i < j < i + n
    ensures i % n != j % n
  {
    NoMultipleBetween(n, j / n - i / n);
    assert i == n * (i / n) + i % n && j == n * (j / n) + j % n;
    assert n * (j / n - i / n) == n * (j / n) - n * (i / n);
  }
}
