/**
 * Device bring-up arithmetic of the kernel driver (hgrnic_main.c): the
 * checks on the module's resource-count parameters, the limits derived from
 * QUERY_DEV_LIM, the firmware-version word and the order in which the
 * context tables are mapped into ICM and unmapped again.
 */
module Device {
  import opened Common
  import opened CmdSpec
  import Profile
  import opened Trace

  /** HGRNIC_MAX_PORTS (hgrnic_dev.h). */
  const MAX_PORTS: nat := 1

  /** The defaults of the four profile parameters. */
  const DEFAULT_NUM_QP: nat := 0x1_0000
  const DEFAULT_NUM_CQ: nat := 0x1_0000
  const DEFAULT_NUM_MPT: nat := 0x2_0000
  const DEFAULT_NUM_MTT: nat := 0x10_0000

  /** The four resource counts of struct hgrnic_profile, C ints set from the module parameters. */
  datatype Params = Params(numQp: int, numCq: int, numMpt: int, numMtt: int)

  /** The largest value whose rounding up to a power of two still fits a C int. */
  const MAX_EXACT_PROFILE_VAL: nat := 0x4000_0000

  /**
   * __hgrnic_check_profile_val: a value that is not positive is replaced by
   * the default, any other is rounded up to a power of two and the unsigned
   * long result is stored back into the int parameter.
   */
  function CheckProfileVal(val: int, dflt: nat): (r: int)
    requires IsInt32(val)
  {
    if val <= 0 then dflt
    else
      Pow2Add(31, 1);
      Pow2Of32();
      RoundUpPow2Least(val, 31);
      Signed32(RoundUpPow2(val))
  }

  /**
   * The corrected value is the default for a non-positive value; for a
   * positive value up to 2^30 it is the least power of two at or above the
   * value, and a value that is already a power of two is kept; a value
   * above 2^30 rounds up to 2^31, which the int stores as INT_MIN.
   */
  lemma CheckProfileValSpec(val: int, dflt: nat)
    requires IsInt32(val)
    ensures val <= 0 ==> CheckProfileVal(val, dflt) == dflt
    ensures 0 < val <= MAX_EXACT_PROFILE_VAL ==> var r := CheckProfileVal(val, dflt);
      r > 0 && IsPow2(r) && val <= r < 2 * val && (forall k: nat :: Pow2(k) >= val ==> r <= Pow2(k))
    ensures 0 < val && IsPow2(val) ==> CheckProfileVal(val, dflt) == val
    ensures val > MAX_EXACT_PROFILE_VAL ==> CheckProfileVal(val, dflt) == -0x8000_0000
  {
    Pow2Add(30, 1);
    Pow2Add(31, 1);
    Pow2Of32();
    if val > 0 {
      forall k: nat | Pow2(k) >= val
        ensures RoundUpPow2(val) <= Pow2(k)
      {
        RoundUpPow2Least(val, k);
      }
      if val <= MAX_EXACT_PROFILE_VAL {
        RoundUpPow2Least(val, 30);
      } else {
        RoundUpPow2Above(val, 30);
      }
      if IsPow2(val) {
        RoundUpPow2Least(val, Log2(val));
      }
    }
  }

  /**
   * hgrnic_validate_profile: the four counts of the profile after their
   * check, each against its own default.
   */
  function ValidateProfile(p: Params): (r: Params)
    requires IsInt32(p.numQp) && IsInt32(p.numCq) && IsInt32(p.numMpt) && IsInt32(p.numMtt)
  {
    Params(CheckProfileVal(p.numQp, DEFAULT_NUM_QP), CheckProfileVal(p.numCq, DEFAULT_NUM_CQ),
      CheckProfileVal(p.numMpt, DEFAULT_NUM_MPT), CheckProfileVal(p.numMtt, DEFAULT_NUM_MTT))
  }

  /** A count that the check leaves a positive power of two. */
  predicate PositivePow2(x: int)
  {
    x > 0 && IsPow2(x)
  }

  /**
   * After validation every count whose parameter was at most 2^30 is a
   * positive power of two, every other count is INT_MIN, and the compiled-in
   * profile is left as it is.
   */
  lemma ValidatedIsPow2(p: Params)
    requires IsInt32(p.numQp) && IsInt32(p.numCq) && IsInt32(p.numMpt) && IsInt32(p.numMtt)
    ensures var r := ValidateProfile(p);
      (p.numQp <= MAX_EXACT_PROFILE_VAL <==> PositivePow2(r.numQp))
      && (p.numCq <= MAX_EXACT_PROFILE_VAL <==> PositivePow2(r.numCq))
      && (p.numMpt <= MAX_EXACT_PROFILE_VAL <==> PositivePow2(r.numMpt))
      && (p.numMtt <= MAX_EXACT_PROFILE_VAL <==> PositivePow2(r.numMtt))
    ensures ValidateProfile(Params(0, 0, 0, 0)) == DefaultProfile()
    ensures ValidateProfile(DefaultProfile()) == DefaultProfile()
  {
    DefaultsArePow2();
    CheckProfileValSpec(p.numQp, DEFAULT_NUM_QP);
    CheckProfileValSpec(p.numCq, DEFAULT_NUM_CQ);
    CheckProfileValSpec(p.numMpt, DEFAULT_NUM_MPT);
    CheckProfileValSpec(p.numMtt, DEFAULT_NUM_MTT);
    CheckProfileValSpec(DEFAULT_NUM_QP, DEFAULT_NUM_QP);
    CheckProfileValSpec(DEFAULT_NUM_MPT, DEFAULT_NUM_MPT);
    CheckProfileValSpec(DEFAULT_NUM_MTT, DEFAULT_NUM_MTT);
  }

  /** The profile the module starts with, before any parameter is given. */
  function DefaultProfile(): Params
  {
    Params(DEFAULT_NUM_QP, DEFAULT_NUM_CQ, DEFAULT_NUM_MPT, DEFAULT_NUM_MTT)
  }

  lemma DefaultsArePow2()
    ensures IsPow2(DEFAULT_NUM_QP) && IsPow2(DEFAULT_NUM_CQ) && IsPow2(DEFAULT_NUM_MPT) && IsPow2(DEFAULT_NUM_MTT)
  {
    assert Pow2(8) == 256;
    Pow2Add(8, 8);
    Pow2Add(16, 1);
    Pow2Add(16, 4);
    Pow2IsPow2(16);
    Pow2IsPow2(17);
    Pow2IsPow2(20);
  }

  /** struct hgrnic_limits, the fields the driver fills or reads. */
  datatype Limits = Limits(
    numPorts: nat, vlCap: nat, mtuCap: nat, gidTableLen: nat, pkeyTableLen: nat,
    localCaAckDelay: nat, numUars: nat, maxSg: nat,
    numQps: nat, maxWqes: nat, maxDescSz: nat, reservedQps: nat,
    numCqs: nat, maxCqes: int, reservedCqs: nat, numEqs: nat, reservedEqs: nat,
    numMpts: nat, numMttSegs: nat, mttSegSize: nat, reservedMtts: nat, reservedMrws: nat,
    numPds: nat, reservedPds: nat, pageSizeCap: nat, portWidthCap: nat)

  /** ~(u32) (min_page_sz - 1): the page sizes the device supports as a u32 mask. */
  function PageSizeCap(minPageSz: nat): (cap: nat)
    ensures cap < U32
  {
    U32_ALL_ONES - ((minPageSz as int - 1) % U32)
  }

  /**
   * For a power-of-two minimum page size the mask has every bit from that
   * size's bit upwards: it is a multiple of the size and adds up with it to
   * 2^32.
   */
  lemma PageSizeCapSpec(m: nat)
    requires IsPow2(m) && m < U32
    ensures PageSizeCap(m) == U32 - m
    ensures PageSizeCap(m) % m == 0
  {
    Pow2DividesU32(m);
    var q := U32 / m;
    assert U32 == q * m;
    MulSubDistrib(q, 1, m);
    DivModUnique(U32 - m, m, q - 1, 0);
  }

  /**
   * hgrnic_dev_lim: the MTT segment size is set to 8 first; a failed
   * QUERY_DEV_LIM is passed on, a minimum page size above the kernel's or
   * more ports than supported give -ENODEV, and otherwise the limits are
   * taken from the answer (one CQE less than the device allows, 16
   * scatter entries, 0x1000 UARs, no reserved memory windows).  The counts
   * that come from the profile are left alone.
   */
  function DevLim(l: Limits, queryErr: int, d: DevLimits): (r: (int, Limits))
  {
    var l1 := l.(mttSegSize := 8);
    if queryErr != 0 then (queryErr, l1)
    else if d.minPageSz > PAGE_SIZE then (-ENODEV, l1)
    else if d.numPorts > MAX_PORTS then (-ENODEV, l1)
    else
      (0, l1.(reservedQps := d.reservedQps, reservedCqs := d.reservedCqs, reservedEqs := d.reservedEqs,
              reservedMtts := d.reservedMtts, reservedMrws := 0, reservedPds := d.reservedPds,
              maxWqes := d.maxQpSz, maxCqes := d.maxCqSz as int - 1,
              numPorts := d.numPorts, vlCap := d.maxVl, mtuCap := d.maxMtu,
              gidTableLen := d.maxGids, pkeyTableLen := d.maxPkeys, localCaAckDelay := d.localCaAckDelay,
              maxSg := 16, maxDescSz := d.maxDescSz, portWidthCap := d.maxPortWidth,
              pageSizeCap := PageSizeCap(d.minPageSz), numUars := 0x1000))
  }

  /**
   * dev_lim succeeds exactly when the query did and the device's page size
   * and port count are acceptable.  Success leaves one spare CQE, and every
   * count the profile set (QPs, CQs, EQs, MPTs, MTT segments, PDs) is the
   * same as before.
   */
  lemma DevLimSpec(l: Limits, queryErr: int, d: DevLimits)
    ensures var (err, l2) := DevLim(l, queryErr, d);
      (queryErr != 0 ==> err == queryErr)
      && (queryErr == 0 ==> (err == 0 <==> d.minPageSz <= PAGE_SIZE && d.numPorts <= MAX_PORTS))
      && (queryErr == 0 && err != 0 ==> err == -ENODEV)
      && l2.mttSegSize == 8
      && l2.numQps == l.numQps && l2.numCqs == l.numCqs && l2.numEqs == l.numEqs
      && l2.numMpts == l.numMpts && l2.numMttSegs == l.numMttSegs && l2.numPds == l.numPds
      && (err == 0 ==>
            l2.maxCqes + 1 == d.maxCqSz && l2.maxWqes == d.maxQpSz && l2.maxSg == 16
            && l2.numUars == 0x1000 && l2.reservedMrws == 0 && l2.numPorts <= MAX_PORTS
            && (IsPow2(d.minPageSz) ==> l2.pageSizeCap + d.minPageSz == U32 && l2.pageSizeCap % d.minPageSz == 0))
  {
    if queryErr == 0 && d.minPageSz <= PAGE_SIZE && IsPow2(d.minPageSz) {
      PageSizeCapSpec(d.minPageSz);
    }
  }

  /**
   * HANGU_FW_VER: major in bits 32 and up, minor from bit 16, subminor in
   * the low bits of a u64.
   */
  function FwVer(major: nat, minor: nat, subminor: nat): (v: nat)
    ensures v < U64
  {
    BitOr(BitOr(Shl(major, 32), Shl(minor, 16)), subminor) % U64
  }

  /** With 16-bit parts the bit fields do not overlap: the version is their weighted sum. */
  lemma FwVerSum(major: nat, minor: nat, subminor: nat)
    requires major < 0x1_0000 && minor < 0x1_0000 && subminor < 0x1_0000
    ensures FwVer(major, minor, subminor) == major * U32 + minor * 0x1_0000 + subminor
  {
    HighParts(major, minor);
    var hi := major * U32 + minor * 0x1_0000;
    assert hi == (major * 0x1_0000 + minor) * 0x1_0000;
    LowPart(hi, major * 0x1_0000 + minor, subminor);
    var v := BitOr(BitOr(Shl(major, 32), Shl(minor, 16)), subminor);
    assert v == hi + subminor;
    FwVerFits(major, minor, subminor);
    SmallMod(v, U64);
  }

  lemma SmallMod(v: nat, m: nat)
    requires v < m
    ensures v % m == v
  {
  }

  lemma HighParts(major: nat, minor: nat)
    requires minor < 0x1_0000
    ensures BitOr(Shl(major, 32), Shl(minor, 16)) == major * U32 + minor * 0x1_0000
  {
    Pow2Of32();
    Pow2Sixteen();
    assert Shl(minor, 16) < Pow2(32) by {
      MulMonotone(0x1_0000, minor + 1, 0x1_0000);
    }
    assert Shl(major, 32) % Pow2(32) == 0 by {
      DivModUnique(Shl(major, 32), Pow2(32), major, 0);
    }
    OrDisjointAdd(Shl(minor, 16), Shl(major, 32), 32);
    BitOrComm(Shl(major, 32), Shl(minor, 16));
  }

  lemma LowPart(hi: nat, q: nat, subminor: nat)
    requires hi == q * 0x1_0000 && subminor < 0x1_0000
    ensures BitOr(hi, subminor) == hi + subminor
  {
    Pow2Sixteen();
    DivModUnique(hi, 0x1_0000, q, 0);
    OrDisjointAdd(subminor, hi, 16);
    BitOrComm(hi, subminor);
  }

  lemma FwVerFits(major: nat, minor: nat, subminor: nat)
    requires major < 0x1_0000 && minor < 0x1_0000 && subminor < 0x1_0000
    ensures major * U32 + minor * 0x1_0000 + subminor < U64
  {
    MulMonotone(0xFFFF, major, U32);
    MulMonotone(0xFFFF, minor, 0x1_0000);
  }

  /** The context tables hgrnic_init_icm maps, in its order. */
  datatype IcmRegion = EqRegion | QpRegion | CqRegion | MttRegion | MptRegion

  /** The tables that are mapped, in order: the EQ first, then QP, CQ, MTT and MPT contexts. */
  const ICM_ORDER: seq<IcmRegion> := [EqRegion, QpRegion, CqRegion, MttRegion, MptRegion]

  /**
   * hgrnic_init_icm: the EQ context first (its error passed on), then the
   * QP, CQ, MTT and MPT context tables, a table that cannot be made giving
   * -ENOMEM after the tables already mapped are unmapped in the reverse
   * order.  The result is the error and the steps taken.
   */
  function InitIcm(eqErr: int, qpOk: bool, cqOk: bool, mttOk: bool, mptOk: bool): (r: (int, seq<Step<IcmRegion>>))
  {
    if eqErr != 0 then (eqErr, [])
    else if !qpOk then (-ENOMEM, AcquireFirst(ICM_ORDER, 1) + ReleaseFirst(ICM_ORDER, 1))
    else if !cqOk then (-ENOMEM, AcquireFirst(ICM_ORDER, 2) + ReleaseFirst(ICM_ORDER, 2))
    else if !mttOk then (-ENOMEM, AcquireFirst(ICM_ORDER, 3) + ReleaseFirst(ICM_ORDER, 3))
    else if !mptOk then (-ENOMEM, AcquireFirst(ICM_ORDER, 4) + ReleaseFirst(ICM_ORDER, 4))
    else (0, AcquireFirst(ICM_ORDER, 5))
  }

  /** hgrnic_free_icms: MPT, MTT, CQ and QP tables, then the EQ context. */
  function FreeIcms(): (r: seq<Step<IcmRegion>>)
  {
    ReleaseFirst(ICM_ORDER, 5)
  }

  /**
   * Every failure of init_icm leaves no table mapped, each unmap undoing the
   * most recent map still held; success leaves all five mapped in order, and
   * free_icms then unmaps them all in the same stack discipline.
   */
  lemma InitIcmBalanced(eqErr: int, qpOk: bool, cqOk: bool, mttOk: bool, mptOk: bool)
    ensures var (err, steps) := InitIcm(eqErr, qpOk, cqOk, mttOk, mptOk);
      (err == 0 <==> eqErr == 0 && qpOk && cqOk && mttOk && mptOk)
      && (err != 0 ==> Held(steps) == Some([]))
      && (err == 0 ==> Held(steps) == Some(ICM_ORDER) && Held(steps + FreeIcms()) == Some([]))
      && (eqErr == 0 && err != 0 ==> err == -ENOMEM)
  {
    if eqErr == 0 {
      var n := if !qpOk then 1 else if !cqOk then 2 else if !mttOk then 3 else if !mptOk then 4 else 5;
      Unwinds(ICM_ORDER, n);
      assert ICM_ORDER[..5] == ICM_ORDER;
    }
  }
}
