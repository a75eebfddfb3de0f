/**
 * Helpers of the user-space library header (hgrnic.h): the align macro on
 * 64-bit unsigned longs, and the split of the QP table into 256 sub-tables.
 */
module LibHgrnic {
  import opened Common

  /** HGRNIC_QP_TABLE_BITS, _SIZE (1 << BITS) and _MASK (SIZE - 1). */
  const QP_TABLE_BITS: nat := 8
  const QP_TABLE_SIZE: nat := 256
  const QP_TABLE_MASK: nat := 255

  /** The three QP table constants agree: SIZE is 2^BITS and MASK keeps the low BITS bits. */
  lemma QpTableConstants()
    ensures QP_TABLE_SIZE == Pow2(QP_TABLE_BITS) && QP_TABLE_MASK == QP_TABLE_SIZE - 1
    ensures forall x: nat {:trigger BitAnd(x, QP_TABLE_MASK)} :: BitAnd(x, QP_TABLE_MASK) == x % QP_TABLE_SIZE
  {
    assert Pow2(8) == 256;
    forall x: nat
      ensures BitAnd(x, QP_TABLE_MASK) == x % QP_TABLE_SIZE
    {
      AndLowMask(x, 8);
    }
  }

  /**
   * align(val, a) = (val + a - 1) & ~(a - 1), all in unsigned long: the sum
   * wraps at 2^64 and ~(a - 1) is 2^64 - a.
   */
  function Align(val: nat, a: nat): nat
    requires val < U64 && 1 <= a < U64
  {
    BitAnd((val + a - 1) % U64, U64 - a)
  }

  /** x & (2^n - 2^k) clears the low k bits of an n-bit x: it is x - x mod 2^k. */
  lemma {:induction false} AndHighMask(x: nat, n: nat, k: nat)
    requires k <= n && x < Pow2(n) && Pow2(k) <= Pow2(n)
    ensures BitAnd(x, Pow2(n) - Pow2(k)) == x - x % Pow2(k)
    decreases k
  {
    if k == 0 {
      AndLowMask(x, n);
      DivModUnique(x, Pow2(n), 0, x);
    } else if k == n {
      DivModUnique(x, Pow2(n), 0, x);
    } else if x == 0 {
      DivModUnique(0, Pow2(k), 0, 0);
    } else {
      Pow2Monotone(k - 1, n - 1);
      AndHighMask(x / 2, n - 1, k - 1);
      AndHighMaskStep(x, n, k);
    }
  }

  /** The mask for n bits and k cleared is twice the mask for n - 1 and k - 1: one bit more on each side. */
  lemma AndHighMaskStep(x: nat, n: nat, k: nat)
    requires 0 < k < n && x > 0 && Pow2(k - 1) <= Pow2(n - 1)
    requires BitAnd(x / 2, Pow2(n - 1) - Pow2(k - 1)) == x / 2 - (x / 2) % Pow2(k - 1)
    ensures BitAnd(x, Pow2(n) - Pow2(k)) == x - x % Pow2(k)
  {
    var h := Pow2(n - 1) - Pow2(k - 1);
    assert Pow2(n) - Pow2(k) == 2 * h;
    var y := x / 2;
    var r := y % Pow2(k - 1);
    AndEvenMask(x, h);
    DivModPow2(x, k);
    assert x % Pow2(k) == 2 * r + x % 2 && x == 2 * y + x % 2;
  }

  /** An even mask 2h drops the low bit and keeps x / 2 & h, shifted back. */
  lemma AndEvenMask(x: nat, h: nat)
    requires x > 0
    ensures BitAnd(x, 2 * h) == 2 * BitAnd(x / 2, h)
  {
    var m := 2 * h;
    if h > 0 {
      DivModUnique(m, 2, h, 0);
      assert BitAnd(x, m) == 2 * BitAnd(x / 2, m / 2) + (if x % 2 == 1 && m % 2 == 1 then 1 else 0);
    }
  }

  lemma Pow2Of64()
    ensures Pow2(64) == U64
  {
    Pow2Of32();
    Pow2Add(32, 32);
  }

  /** A power of two below 2^64 is a legal alignment. */
  lemma SmallAlignment(k: nat)
    requires k < 64
    ensures Pow2(k) < Pow2(k + 1) <= U64
  {
    Pow2Of64();
    Pow2Monotone(k + 1, 64);
  }

  /** The mask 2^64 - 2^k keeps all but the low k bits of a 64-bit value. */
  lemma AndHighMask64(x: nat, k: nat)
    requires x < U64 && k < 64
    ensures Pow2(k) < U64 && U64 % Pow2(k) == 0
    ensures BitAnd(x, U64 - Pow2(k)) == x - x % Pow2(k)
  {
    Pow2Of64();
    SmallAlignment(k);
    Pow2Divides(k, 64);
    AndHighMask(x, 64, k);
  }

  /** With a = 2^k the mask ~(a - 1) clears the low k bits of the 64-bit sum. */
  lemma AlignClears(val: nat, k: nat)
    requires val < U64 && k < 64
    ensures Pow2(k) < U64 && U64 % Pow2(k) == 0
    ensures var s := (val + Pow2(k) - 1) % U64;
      Align(val, Pow2(k)) == s - s % Pow2(k)
  {
    var s := (val + Pow2(k) - 1) % U64;
    AndHighMask64(s, k);
    assert Align(val, Pow2(k)) == BitAnd(s, U64 - Pow2(k));
  }

  /** s rounded down to a multiple of a: a multiple of a, within a of s. */
  lemma RoundDown(s: nat, a: nat)
    requires a > 0
    ensures (s - s % a) % a == 0 && s - a < s - s % a <= s
  {
    var q := s / a;
    DivModUnique(q * a, a, q, 0);
  }

  /** A multiple of a is its own round-up: r + a - 1 rounds down to r. */
  lemma RoundUpMultiple(r: nat, a: nat)
    requires a > 0 && r % a == 0
    ensures (r + a - 1) - (r + a - 1) % a == r
  {
    var q := r / a;
    assert r == q * a;
    DivModUnique(r + a - 1, a, q, a - 1);
  }

  /**
   * For a power of two a whose addition does not wrap, align(val, a) is the
   * multiple of a that rounds val up: at least val, below val + a.
   */
  lemma AlignRoundsUp(val: nat, k: nat)
    requires k < 64 && val + Pow2(k) <= U64
    ensures Pow2(k) < U64
    ensures var r := Align(val, Pow2(k));
      r % Pow2(k) == 0 && val <= r < val + Pow2(k)
  {
    AlignClears(val, k);
    var a := Pow2(k);
    var s := val + a - 1;
    DivModUnique(s, U64, 0, s);
    RoundDown(s, a);
  }

  /** align always yields a multiple of a, and a divides 2^64, so it is at least a below 2^64. */
  lemma AlignIsMultiple(val: nat, k: nat)
    requires val < U64 && k < 64
    ensures Pow2(k) < U64
    ensures Align(val, Pow2(k)) % Pow2(k) == 0 && Align(val, Pow2(k)) + Pow2(k) <= U64
  {
    AlignClears(val, k);
    var a := Pow2(k);
    var s := (val + a - 1) % U64;
    RoundDown(s, a);
    MultipleGap(s - s % a, U64, a);
  }

  /** A multiple of a with room below 2^64 is already aligned. */
  lemma AlignOfMultiple(r: nat, k: nat)
    requires k < 64 && r % Pow2(k) == 0 && r + Pow2(k) <= U64
    ensures Pow2(k) < U64 && Align(r, Pow2(k)) == r
  {
    AlignClears(r, k);
    var t := r + Pow2(k) - 1;
    DivModUnique(t, U64, 0, t);
    RoundUpMultiple(r, Pow2(k));
  }

  /** align is idempotent for every 64-bit val and power of two a, even when the sum wraps. */
  lemma AlignIdempotent(val: nat, k: nat)
    requires val < U64 && k < 64
    ensures Pow2(k) < U64 && Align(val, Pow2(k)) < U64
    ensures Align(Align(val, Pow2(k)), Pow2(k)) == Align(val, Pow2(k))
  {
    AlignIsMultiple(val, k);
    AlignOfMultiple(Align(val, Pow2(k)), k);
  }
}
