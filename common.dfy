/**
 * Shared vocabulary of the hgrnic model: the Linux errno values the driver
 * returns (negated), an Option type standing in for NULL pointers, and the
 * power-of-two arithmetic that every table size in the driver relies on.
 */
module Common {

  // Linux errno numbers; the driver returns them negated (-EINVAL, ...).
  const EPERM: int := 1
  const EIO: int := 5
  const ENXIO: int := 6
  const EBADF: int := 9
  const EAGAIN: int := 11
  const ENOMEM: int := 12
  const EFAULT: int := 14
  const EBUSY: int := 16
  const ENODEV: int := 19
  const EINVAL: int := 22
  const EBADMSG: int := 74

  /** 2^32: unsigned 32-bit arithmetic in C wraps modulo this value. */
  const U32: nat := 0x1_0000_0000
  /** 2^64: unsigned 64-bit arithmetic wraps modulo this value. */
  const U64: nat := 0x1_0000_0000_0000_0000
  /** The u32 value written as -1 in C (all ones). */
  const U32_ALL_ONES: nat := 0xFFFF_FFFF

  /** The kernel page size and its shift (PAGE_SIZE, PAGE_SHIFT on x86_64). */
  const PAGE_SHIFT: nat := 12
  const PAGE_SIZE: nat := 4096

  /** A possibly-NULL pointer. */
  datatype Option<T> = None | Some(value: T)

  /** A value, or the negative errno returned instead of it. */
  datatype Result<T> = Ok(value: T) | Err(code: int)

  function Pow2(n: nat): (r: nat)
    ensures r >= 1
  {
    if n == 0 then 1 else 2 * Pow2(n - 1)
  }

  predicate IsPow2(x: nat)
    decreases x
  {
    x == 1 || (x > 1 && x % 2 == 0 && IsPow2(x / 2))
  }

  lemma {:induction false} Pow2IsPow2(n: nat)
    ensures IsPow2(Pow2(n))
  {
    if n > 0 {
      Pow2IsPow2(n - 1);
    }
  }

  lemma {:induction false} Pow2Monotone(a: nat, b: nat)
    requires a <= b
    ensures Pow2(a) <= Pow2(b)
  {
    if a < b {
      Pow2Monotone(a, b - 1);
    }
  }

  lemma {:induction false} Pow2Add(a: nat, b: nat)
    ensures Pow2(a + b) == Pow2(a) * Pow2(b)
  {
    if b > 0 {
      Pow2Add(a, b - 1);
    }
  }

  /** The exponent of a power of two. */
  function Log2(x: nat): (k: nat)
    requires IsPow2(x)
    ensures Pow2(k) == x
    decreases x
  {
    if x == 1 then 0 else 1 + Log2(x / 2)
  }

  /**
   * The smallest k with 2^k >= x: the order the driver computes whenever it
   * rounds a size up to a power of two.
   */
  function CeilLog2(x: nat): (k: nat)
    decreases x
  {
    if x <= 1 then 0 else 1 + CeilLog2((x + 1) / 2)
  }

  lemma {:induction false} CeilLog2Covers(x: nat)
    ensures Pow2(CeilLog2(x)) >= x
    decreases x
  {
    if x > 1 {
      CeilLog2Covers((x + 1) / 2);
    }
  }

  lemma {:induction false} CeilLog2Least(x: nat, k: nat)
    requires Pow2(k) >= x
    ensures CeilLog2(x) <= k
    decreases x
  {
    if x > 1 {
      assert k > 0;
      assert Pow2(k - 1) >= (x + 1) / 2;
      CeilLog2Least((x + 1) / 2, k - 1);
    }
  }

  lemma CeilLog2Tight(x: nat)
    requires x >= 1
    ensures Pow2(CeilLog2(x)) < 2 * x
  {
    if CeilLog2(x) > 0 && Pow2(CeilLog2(x) - 1) >= x {
      CeilLog2Least(x, CeilLog2(x) - 1);
    }
  }

  /** roundup_pow_of_two: the smallest power of two that is >= x. */
  function RoundUpPow2(x: nat): (r: nat)
    ensures IsPow2(r) && r >= x
    ensures x >= 1 ==> r < 2 * x
  {
    CeilLog2Covers(x);
    Pow2IsPow2(CeilLog2(x));
    if x >= 1 then CeilLog2Tight(x); Pow2(CeilLog2(x)) else Pow2(CeilLog2(x))
  }

  /** RoundUpPow2 is the least power of two covering x. */
  lemma RoundUpPow2Least(x: nat, k: nat)
    requires Pow2(k) >= x
    ensures RoundUpPow2(x) <= Pow2(k)
  {
    CeilLog2Least(x, k);
    Pow2Monotone(CeilLog2(x), k);
  }

  /** A value above 2^k and at most 2^(k+1) rounds up to 2^(k+1). */
  lemma RoundUpPow2Above(x: nat, k: nat)
    requires Pow2(k) < x <= 2 * Pow2(k)
    ensures RoundUpPow2(x) == 2 * Pow2(k)
  {
    CeilLog2Least(x, k + 1);
    CeilLog2Covers(x);
    if CeilLog2(x) <= k {
      Pow2Monotone(CeilLog2(x), k);
    }
    assert CeilLog2(x) == k + 1;
  }

  lemma Pow2Of32()
    ensures Pow2(32) == U32
  {
    assert Pow2(8) == 256;
    Pow2Add(8, 8);
    Pow2Add(16, 16);
  }

  lemma Pow2Sixteen()
    ensures Pow2(16) == 0x1_0000
  {
    assert Pow2(8) == 256;
    Pow2Add(8, 8);
  }

  /** x >> n on an unsigned value. */
  function Shr(x: nat, n: nat): nat
  {
    DivBounds(x, Pow2(n));
    x / Pow2(n)
  }

  /** x << n on an unbounded value (callers truncate where the C type is narrower). */
  function Shl(x: nat, n: nat): nat
  {
    x * Pow2(n)
  }

  /** Unsigned 32-bit subtraction (a - b in u32 arithmetic). */
  function Sub32(a: nat, b: nat): (r: nat)
    requires a < U32 && b < U32
    ensures r < U32
    ensures (b + r) % U32 == a
  {
    (a - b) % U32
  }

  /** Unsigned 32-bit addition. */
  function Add32(a: nat, b: nat): (r: nat)
    ensures r < U32
    ensures a + b < U32 ==> r == a + b
  {
    (a + b) % U32
  }

  /** The values of a 32-bit C int. */
  predicate IsInt32(x: int)
  {
    -0x8000_0000 <= x < 0x8000_0000
  }

  /** A u32 read back, or stored, as a C int: values from 2^31 on are negative. */
  function Signed32(u: nat): (v: int)
    requires u < U32
    ensures v % U32 == u && IsInt32(v)
  {
    if u < 0x8000_0000 then u
    else
      DivModUnique(u - U32, U32, -1, u);
      u - U32
  }

  /**
   * 1 << n on a 32-bit C int as the processor's shift instruction computes
   * it: the count is taken modulo 32, and 1 << 31 sets the sign bit.  C
   * itself leaves a count of 32 or more undefined.
   */
  function IntShl1(n: nat): (v: int)
    ensures IsInt32(v)
    ensures n % 32 <= 30 ==> v == Pow2(n % 32)
    ensures n % 32 == 31 ==> v == -0x8000_0000
  {
    Pow2Of32();
    Pow2Add(30, 1);
    Pow2Add(31, 1);
    Pow2Monotone(n % 32, 31);
    if n % 32 <= 30 then Pow2Monotone(n % 32, 30); Signed32(Pow2(n % 32))
    else Signed32(Pow2(n % 32))
  }

  // Bitwise operators of C on unsigned values, defined bit by bit.

  function BitAnd(a: nat, b: nat): nat
    decreases a
  {
    if a == 0 || b == 0 then 0
    else 2 * BitAnd(a / 2, b / 2) + (if a % 2 == 1 && b % 2 == 1 then 1 else 0)
  }

  function BitOr(a: nat, b: nat): nat
    decreases a + b
  {
    if a == 0 then b
    else if b == 0 then a
    else 2 * BitOr(a / 2, b / 2) + (if a % 2 == 1 || b % 2 == 1 then 1 else 0)
  }

  function BitXor(a: nat, b: nat): nat
    decreases a + b
  {
    if a == 0 then b
    else if b == 0 then a
    else 2 * BitXor(a / 2, b / 2) + (if a % 2 != b % 2 then 1 else 0)
  }

  // Small steps of non-linear arithmetic, kept apart so each proof stays cheap.

  lemma MulAtLeast(a: int, d: int)
    requires a >= 1 && d > 0
    ensures a * d >= d
  {
  }

  lemma MulSubDistrib(a: int, b: int, d: int)
    ensures a * d - b * d == (a - b) * d
  {
  }

  lemma MulPred(k: int, d: int)
    ensures k * d == (k - 1) * d + d
  {
  }

  lemma MulTwoAssoc(q: int, p: int)
    ensures 2 * (q * p) == q * (2 * p)
  {
  }

  lemma MulMonotone(c: int, e: int, d: int)
    requires c >= e && d > 0
    ensures c * d >= e * d
  {
    MulSubDistrib(c, e, d);
    if c > e {
      MulAtLeast(c - e, d);
    }
  }

  /** Dividing a natural number by a positive one gives a natural number no larger. */
  lemma DivBounds(x: nat, d: nat)
    requires d >= 1
    ensures 0 <= x / d <= x
  {
    var q := x / d;
    assert x == q * d + x % d;
    if q >= 1 {
      MulAtLeast(q, d);
    }
  }

  /** A number below m * d has a quotient by d below m. */
  lemma DivBelow(x: nat, d: nat, m: nat)
    requires d >= 1 && x < m * d
    ensures x / d < m
  {
    var q := x / d;
    assert q * d <= x;
    MulSubDistrib(q, m, d);
    assert (q - m) * d < 0;
  }

  /** A number of at least d has a quotient by d of at least 1. */
  lemma DivAtLeastOne(x: nat, d: nat)
    requires d >= 1 && x >= d
    ensures x / d >= 1
  {
    var q := x / d;
    assert x == q * d + x % d;
    assert x % d < d;
    assert q * d > 0;
  }

  /** Quotient and remainder are unique. */
  lemma DivModUnique(x: int, d: int, q: int, r: int)
    requires d > 0 && 0 <= r < d && x == q * d + r
    ensures x / d == q && x % d == r
  {
    var q' := x / d;
    var r' := x % d;
    assert x == q' * d + r';
    MulSubDistrib(q, q', d);
    if q > q' {
      MulAtLeast(q - q', d);
    } else if q < q' {
      MulSubDistrib(q', q, d);
      MulAtLeast(q' - q, d);
    }
  }

  lemma DivModPow2(x: nat, k: nat)
    requires k > 0
    ensures x % Pow2(k) == 2 * ((x / 2) % Pow2(k - 1)) + x % 2
  {
    var p := Pow2(k - 1);
    var q := (x / 2) / p;
    var r := (x / 2) % p;
    assert x / 2 == q * p + r;
    MulTwoAssoc(q, p);
    DivModUnique(x, 2 * p, q, 2 * r + x % 2);
  }

  /** x & (2^k - 1) keeps the low k bits: it is x mod 2^k. */
  lemma {:induction false} AndLowMask(x: nat, k: nat)
    ensures BitAnd(x, Pow2(k) - 1) == x % Pow2(k)
    decreases k
  {
    if k > 0 && x > 0 {
      var p := Pow2(k - 1);
      var m := Pow2(k) - 1;
      assert m == 2 * (p - 1) + 1;
      DivModUnique(m, 2, p - 1, 1);
      assert x % 2 == (if x % 2 == 1 && m % 2 == 1 then 1 else 0);
      assert BitAnd(x, m) == 2 * BitAnd(x / 2, p - 1) + x % 2;
      AndLowMask(x / 2, k - 1);
      DivModPow2(x, k);
    } else if k == 0 {
      DivModUnique(x, 1, x, 0);
    } else {
      DivModUnique(0, Pow2(k), 0, 0);
    }
  }

  /** a & b never exceeds b, whatever b is. */
  lemma {:induction false} BitAndAtMost(a: nat, b: nat)
    ensures BitAnd(a, b) <= b
    decreases a
  {
    if a != 0 && b != 0 {
      BitAndAtMost(a / 2, b / 2);
    }
  }

  /** x & x is x. */
  lemma {:induction false} BitAndSelf(x: nat)
    ensures BitAnd(x, x) == x
    decreases x
  {
    if x != 0 {
      BitAndSelf(x / 2);
    }
  }

  /** m & (m - 1) clears the lowest set bit, so it is 0 only for a power of two. */
  lemma {:induction false} AndPredNonZero(m: nat)
    requires m > 0 && !IsPow2(m)
    ensures BitAnd(m, m - 1) != 0
    decreases m
  {
    assert m > 1;
    assert BitAnd(m, m - 1) == 2 * BitAnd(m / 2, (m - 1) / 2) + (if m % 2 == 1 && (m - 1) % 2 == 1 then 1 else 0);
    if m % 2 == 1 {
      assert (m - 1) / 2 == m / 2 > 0;
      BitAndSelf(m / 2);
    } else {
      assert (m - 1) / 2 == m / 2 - 1;
      AndPredNonZero(m / 2);
    }
  }

  /** n + top modulo max is n when top is a multiple of max and n is below it. */
  lemma ModOfOffset(n: nat, top: nat, max: nat)
    requires max > 0 && top % max == 0 && n < max
    ensures (n + top) % max == n
  {
    var c := top / max;
    assert top == c * max;
    DivModUnique(n + top, max, c, n);
  }

  /** OR-ing a value below 2^k into one whose low k bits are clear is addition. */
  lemma {:induction false} OrDisjointAdd(lo: nat, hi: nat, k: nat)
    requires lo < Pow2(k) && hi % Pow2(k) == 0
    ensures BitOr(lo, hi) == lo + hi
    decreases k
  {
    if lo != 0 && hi != 0 {
      assert k > 0;
      var p := Pow2(k - 1);
      var c := hi / Pow2(k);
      assert hi == c * (2 * p);
      MulTwoAssoc(c, p);
      assert hi == (c * p) * 2;
      DivModUnique(hi, 2, c * p, 0);
      DivModUnique(c * p, p, c, 0);
      OrDisjointAdd(lo / 2, hi / 2, k - 1);
    }
  }

  /** seg ^ 1: the buddy of a block, the other half of the same parent. */
  lemma XorOne(seg: nat)
    ensures BitXor(seg, 1) == if seg % 2 == 0 then seg + 1 else seg - 1
  {
    if seg > 0 {
      assert BitXor(seg / 2, 0) == seg / 2;
    }
  }

  /** Between two distinct multiples of d there is a gap of at least d. */
  lemma MultipleGap(a: nat, b: nat, d: nat)
    requires d > 0 && a % d == 0 && b % d == 0 && a < b
    ensures a + d <= b
  {
    var c := a / d;
    var e := b / d;
    assert a == c * d && b == e * d;
    if c >= e {
      MulMonotone(c, e, d);
    }
    MulSubDistrib(e, c, d);
    MulAtLeast(e - c, d);
  }

  /** A power of two below 2^n has an exponent below n. */
  lemma Log2Below(x: nat, n: nat)
    requires IsPow2(x) && x < Pow2(n)
    ensures Log2(x) < n
  {
    if Log2(x) >= n {
      Pow2Monotone(n, Log2(x));
    }
  }

  /** Every power of two below 2^32 divides 2^32. */
  lemma Pow2DividesU32(x: nat)
    requires IsPow2(x) && x < U32
    ensures U32 % x == 0
  {
    Pow2Of32();
    Log2Below(x, 32);
    Pow2Divides(Log2(x), 32);
  }

  /** Of two powers of two the smaller divides the larger. */
  lemma {:induction false} Pow2Divides(a: nat, b: nat)
    requires a <= b
    ensures Pow2(b) % Pow2(a) == 0
  {
    Pow2Add(b - a, a);
    DivModUnique(Pow2(b), Pow2(a), Pow2(b - a), 0);
  }

  /** Bit n of x. */
  predicate TestBit(x: nat, n: nat)
    decreases n
  {
    if n == 0 then x % 2 == 1 else TestBit(x / 2, n - 1)
  }

  lemma {:induction false} BitOrTest(a: nat, b: nat, n: nat)
    ensures TestBit(BitOr(a, b), n) <==> TestBit(a, n) || TestBit(b, n)
    decreases n
  {
    if a != 0 && b != 0 {
      var c := BitOr(a / 2, b / 2);
      var d := if a % 2 == 1 || b % 2 == 1 then 1 else 0;
      DivModUnique(2 * c + d, 2, c, d);
      if n > 0 {
        BitOrTest(a / 2, b / 2, n - 1);
      }
    } else {
      ZeroTest(n);
    }
  }

  lemma {:induction false} BitAndTest(a: nat, b: nat, n: nat)
    ensures TestBit(BitAnd(a, b), n) <==> TestBit(a, n) && TestBit(b, n)
    decreases n
  {
    if a != 0 && b != 0 {
      var c := BitAnd(a / 2, b / 2);
      var d := if a % 2 == 1 && b % 2 == 1 then 1 else 0;
      DivModUnique(2 * c + d, 2, c, d);
      if n > 0 {
        BitAndTest(a / 2, b / 2, n - 1);
      }
    } else {
      ZeroTest(n);
    }
  }

  lemma {:induction false} ZeroTest(n: nat)
    ensures !TestBit(0, n)
  {
    if n > 0 {
      ZeroTest(n - 1);
    }
  }

  /** Bit n of 2^k is set exactly when n == k. */
  lemma {:induction false} Pow2Test(k: nat, n: nat)
    ensures TestBit(Pow2(k), n) <==> n == k
    decreases n
  {
    if n == 0 {
      if k > 0 {
        DivModUnique(Pow2(k), 2, Pow2(k - 1), 0);
      }
    } else if k == 0 {
      ZeroTest(n - 1);
    } else {
      DivModUnique(Pow2(k), 2, Pow2(k - 1), 0);
      Pow2Test(k - 1, n - 1);
    }
  }

  /** Shifting left by k moves bit n - k to bit n. */
  lemma {:induction false} ShlTest(x: nat, k: nat, n: nat)
    ensures TestBit(Shl(x, k), n) <==> n >= k && TestBit(x, n - k)
    decreases k
  {
    if k > 0 {
      var y := Shl(x, k - 1);
      assert Shl(x, k) == 2 * y;
      DivModUnique(2 * y, 2, y, 0);
      if n > 0 {
        ShlTest(x, k - 1, n - 1);
      }
    }
  }

  /** 0xf has exactly bits 0 to 3 set. */
  lemma NibbleTest(n: nat)
    ensures TestBit(15, n) <==> n < 4
  {
    if n >= 4 {
      assert TestBit(15, n) == TestBit(7, n - 1);
      assert TestBit(7, n - 1) == TestBit(3, n - 2);
      assert TestBit(3, n - 2) == TestBit(1, n - 3);
      assert TestBit(1, n - 3) == TestBit(0, n - 4);
      ZeroTest(n - 4);
    }
  }

  /** The number of low zero bits of x > 0. */
  function TrailingZeros(x: nat): nat
    requires x > 0
    decreases x
  {
    if x % 2 == 1 then 0 else TrailingZeros(x / 2) + 1
  }

  /** x is an odd multiple of 2^TrailingZeros(x). */
  lemma {:induction false} TrailingZerosSplit(x: nat)
    requires x > 0
    ensures x % Pow2(TrailingZeros(x)) == 0 && (x / Pow2(TrailingZeros(x))) % 2 == 1
    decreases x
  {
    if x % 2 == 0 {
      TrailingZerosSplit(x / 2);
      TrailingZerosStep(x, TrailingZeros(x / 2));
    }
  }

  lemma TrailingZerosStep(x: nat, k: nat)
    requires x > 0 && x % 2 == 0 && (x / 2) % Pow2(k) == 0 && ((x / 2) / Pow2(k)) % 2 == 1
    ensures x % Pow2(k + 1) == 0 && (x / Pow2(k + 1)) % 2 == 1
  {
    var p := Pow2(k);
    var q := (x / 2) / p;
    assert x / 2 == q * p;
    assert x == q * (2 * p) by {
      MulTwoAssoc(q, p);
    }
    DivModUnique(x, 2 * p, q, 0);
  }

  /** OR of two multiples of 2^k is a multiple of 2^k. */
  lemma {:induction false} OrLowZero(a: nat, b: nat, k: nat)
    requires a % Pow2(k) == 0 && b % Pow2(k) == 0
    ensures BitOr(a, b) % Pow2(k) == 0
    decreases k
  {
    if k > 0 && a != 0 && b != 0 {
      DivModPow2(a, k);
      DivModPow2(b, k);
      OrLowZero(a / 2, b / 2, k - 1);
      var c := BitOr(a / 2, b / 2);
      assert BitOr(a, b) == 2 * c;
      DivModUnique(2 * c, 2, c, 0);
      DivModPow2(BitOr(a, b), k);
    }
  }

  /** A multiple of 2^k with bit k set has exactly k trailing zeros. */
  lemma {:induction false} TrailingZerosAt(x: nat, k: nat)
    requires x % Pow2(k) == 0 && TestBit(x, k)
    ensures x > 0 && TrailingZeros(x) == k
    decreases k
  {
    if k > 0 {
      DivModPow2(x, k);
      TrailingZerosAt(x / 2, k - 1);
    }
  }

  /** OR does not depend on the order of its operands. */
  lemma {:induction false} BitOrComm(a: nat, b: nat)
    ensures BitOr(a, b) == BitOr(b, a)
    decreases a + b
  {
    if a != 0 && b != 0 {
      BitOrComm(a / 2, b / 2);
    }
  }

  // enum ib_qp_state: the queue-pair states of section 10.3.1 of the
  // InfiniBand Architecture Specification Vol. 1, in the verbs numbering.
  const IB_QPS_RESET: nat := 0
  const IB_QPS_INIT: nat := 1
  const IB_QPS_RTR: nat := 2
  const IB_QPS_RTS: nat := 3
  const IB_QPS_SQD: nat := 4
  const IB_QPS_SQE: nat := 5
  const IB_QPS_ERR: nat := 6
}
