/**
 * Small computations of the user-space verbs (verbs.c): the split of the
 * firmware version reported by QUERY_DEVICE, and the loops that round a
 * requested CQ or work-queue size up to a power of two.
 */
module UserVerbs {
  import opened Common
  import Device

  /** The 16-bit field mask of the version split. */
  const MASK16: nat := 0xffff

  /**
   * hgrnic_query_device: major, minor and sub-minor are bits 47:32, 31:16
   * and 15:0 of the raw 64-bit firmware version.
   */
  function FwSplit(raw: nat): (r: (nat, nat, nat))
    ensures r.0 < 0x1_0000 && r.1 < 0x1_0000 && r.2 < 0x1_0000
  {
    Mask16IsLow();
    AndLowMask(Shr(raw, 32), 16);
    AndLowMask(Shr(raw, 16), 16);
    AndLowMask(raw, 16);
    (BitAnd(Shr(raw, 32), MASK16), BitAnd(Shr(raw, 16), MASK16), BitAnd(raw, MASK16))
  }

  lemma Mask16IsLow()
    ensures Pow2(16) == 0x1_0000 && MASK16 == Pow2(16) - 1
  {
    Pow2Sixteen();
  }

  /**
   * The split inverts the driver's HANGU_FW_VER packing: for 16-bit parts
   * the three fields read back are the parts packed.
   */
  lemma FwSplitInvertsFwVer(major: nat, minor: nat, subminor: nat)
    requires major < 0x1_0000 && minor < 0x1_0000 && subminor < 0x1_0000
    ensures FwSplit(Device.FwVer(major, minor, subminor)) == (major, minor, subminor)
  {
    Device.FwVerSum(major, minor, subminor);
    var v := Device.FwVer(major, minor, subminor);
    Mask16IsLow();
    Pow2Of32();
    var low := minor * 0x1_0000 + subminor;
    MulMonotone(0xFFFF, minor, 0x1_0000);
    DivModUnique(v, U32, major, low);
    var mid := major * 0x1_0000 + minor;
    assert v == mid * 0x1_0000 + subminor;
    DivModUnique(v, 0x1_0000, mid, subminor);
    AndLowMask(major, 16);
    DivModUnique(major, 0x1_0000, 0, major);
    AndLowMask(mid, 16);
    DivModUnique(mid, 0x1_0000, major, minor);
    AndLowMask(v, 16);
  }

  /**
   * The other way round: packing the three fields read from any raw version
   * gives back its low 48 bits; bits 63:48 are not reported.
   */
  lemma FwVerOfSplit(raw: nat)
    ensures var r := FwSplit(raw);
      Device.FwVer(r.0, r.1, r.2) == raw % 0x1_0000_0000_0000
  {
    var r := FwSplit(raw);
    Mask16IsLow();
    Pow2Of32();
    AndLowMask(Shr(raw, 32), 16);
    AndLowMask(Shr(raw, 16), 16);
    AndLowMask(raw, 16);
    Device.FwVerSum(r.0, r.1, r.2);
    var p := 0x1_0000;
    var q16 := raw / p;
    assert raw == q16 * p + r.2;
    DivOfDiv(raw, p, p);
    assert raw / U32 == q16 / p;
    assert q16 == (q16 / p) * p + r.1;
    assert q16 / p == ((q16 / p) / p) * p + r.0;
    var top := (q16 / p) / p;
    assert raw == ((top * p + r.0) * p + r.1) * p + r.2;
    assert raw == top * 0x1_0000_0000_0000 + (r.0 * U32 + r.1 * p + r.2);
    Device.FwVerFits(r.0, r.1, r.2);
    DivModUnique(raw, 0x1_0000_0000_0000, top, r.0 * U32 + r.1 * p + r.2);
  }

  /** Dividing by a and then by b is dividing by a * b. */
  lemma DivOfDiv(x: nat, a: nat, b: nat)
    requires a > 0 && b > 0
    ensures x / (a * b) == (x / a) / b
  {
    var q := (x / a) / b;
    var r1 := x % a;
    var r2 := (x / a) % b;
    assert x == (q * b + r2) * a + r1;
    assert x == q * (a * b) + (r2 * a + r1);
    MulMonotone(b - 1, r2, a);
    DivModUnique(x, a * b, q, r2 * a + r1);
  }

  // ---------------------------------------------------------------------
  // Rounding sizes up

  /** The smallest power of two of at least x is 2^k once 2^k covers x and 2^(k-1) does not. */
  lemma RoundUpPow2Is(x: nat, k: nat)
    requires x >= 1 && Pow2(k) >= x && (k == 0 || Pow2(k - 1) < x)
    ensures RoundUpPow2(x) == Pow2(k)
  {
    CeilLog2Least(x, k);
    CeilLog2Covers(x);
    if CeilLog2(x) < k {
      Pow2Monotone(CeilLog2(x), k - 1);
    }
  }

  /** What align_cq_size returns: the smallest power of two of at least cqe, and at least 1. */
  function CqSize(cqe: int): (n: nat)
    ensures IsPow2(n) && n >= cqe && n >= 1
    ensures n == 1 || n < 2 * cqe
  {
    RoundUpPow2(if cqe < 1 then 1 else cqe)
  }

  /**
   * align_cq_size: nent doubles from 1 until it reaches cqe.  Callers pass
   * at most 0x20000; the int nent would overflow past 2^30.
   */
  method AlignCqSize(cqe: int) returns (nent: nat)
    requires cqe <= 0x4000_0000
    ensures nent == CqSize(cqe)
  {
    nent := 1;
    ghost var k: nat := 0;
    while nent < cqe
      invariant nent == Pow2(k) && (k == 0 || Pow2(k - 1) < cqe)
      decreases cqe - nent
    {
      nent := nent * 2;
      k := k + 1;
    }
    RoundUpPow2Is(if cqe < 1 then 1 else cqe, k);
  }

  /**
   * What align_queue_size returns: 0 for a zero-sized queue, otherwise the
   * smallest power of two of at least size + spare (at least 1).
   */
  function QueueSize(size: int, spare: int): (n: nat)
    ensures size == 0 <==> n == 0
    ensures size != 0 ==> IsPow2(n) && n >= size + spare && (n == 1 || n < 2 * (size + spare))
  {
    if size == 0 then 0 else CqSize(size + spare)
  }

  /** align_queue_size: 0 stays 0; otherwise ret doubles from 1 until it reaches size + spare. */
  method AlignQueueSize(size: int, spare: int) returns (ret: nat)
    requires size + spare <= 0x4000_0000
    ensures ret == QueueSize(size, spare)
  {
    if size == 0 {
      return 0;
    }
    ret := 1;
    ghost var k: nat := 0;
    while ret < size + spare
      invariant ret == Pow2(k) && (k == 0 || Pow2(k - 1) < size + spare)
      decreases size + spare - ret
    {
      ret := ret * 2;
      k := k + 1;
    }
    RoundUpPow2Is(if size + spare < 1 then 1 else size + spare, k);
  }
}
