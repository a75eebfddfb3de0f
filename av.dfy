/**
 * Address vectors of the user-space library (ah.c): the record the adapter
 * reads to address a UD destination, filled from the verbs address-handle
 * attributes.  Every C narrowing (an int stored into a u8 or u32 field) is
 * written out as a remainder.
 */
module AddressVector {
  import opened Common

  /** struct ibv_global_route: the GRH fields the encoder reads. */
  datatype GlobalRoute = GlobalRoute(
    dgid: seq<nat>,       // the 16 raw GID bytes, as four host-order 32-bit words
    flowLabel: nat,
    sgidIndex: nat,
    hopLimit: nat,
    trafficClass: nat)

  /** struct ibv_ah_attr: the fields the encoder reads. */
  datatype AhAttr = AhAttr(
    grh: GlobalRoute,
    dlid: nat,
    sl: nat,
    srcPathBits: nat,
    staticRate: nat,
    isGlobal: bool,
    portNum: nat)

  /** The C widths of the inputs: a 32-bit PD number and the verbs field types. */
  predicate WellTyped(pdn: nat, attr: AhAttr)
  {
    pdn < U32 && attr.dlid < 0x1_0000
    && attr.sl < 256 && attr.srcPathBits < 256 && attr.staticRate < 256 && attr.portNum < 256
    && |attr.grh.dgid| == 4 && (forall i :: 0 <= i < 4 ==> attr.grh.dgid[i] < U32)
    && attr.grh.flowLabel < U32 && attr.grh.sgidIndex < 256
    && attr.grh.hopLimit < 256 && attr.grh.trafficClass < 256
  }

  /** struct hgrnic_av (the reserved bytes are always zero and are not kept). */
  datatype Av = Av(
    portPd: nat,
    gSlid: nat,
    dlid: nat,
    gidIndex: nat,
    msgSr: nat,
    hopLimit: nat,
    slTclassFlowlabel: nat,
    dgid: seq<nat>)

  /** The g_slid bit that marks a global route. */
  const GRH_FLAG: nat := 0x80

  /** The source line's (3 << 4) | static_rate: a 2 KiB message size and the rate. */
  function MsgSr(staticRate: nat): nat
  {
    BitOr(Shl(3, 4), staticRate) % 256
  }

  /** g_slid: the source path bits, with bit 7 (0x80) set for a global route. */
  function GSlid(srcPathBits: nat, isGlobal: bool): nat
  {
    if isGlobal then BitOr(srcPathBits, GRH_FLAG) % 256 else srcPathBits
  }

  /** (port_num - 1) * 32 + sgid_index, computed in int and stored in a u8. */
  function GidIndex(port: nat, sgidIndex: nat): nat
  {
    ((port - 1) * 32 + sgidIndex) % 256
  }

  /** port_pd: the PD number with the port in bits 31:24, stored in a u32. */
  function PortPd(pdn: nat, port: nat): nat
  {
    BitOr(pdn, Shl(port, 24)) % U32
  }

  /** attr->sl << 28, computed in int and stored in a u32. */
  function SlBits(sl: nat): nat
  {
    Shl(sl, 28) % U32
  }

  /** The global route's traffic class and flow label, OR-ed into the SL word. */
  function GrhBits(slBits: nat, grh: GlobalRoute): nat
  {
    BitOr(slBits, BitOr(Shl(grh.trafficClass, 20), grh.flowLabel)) % U32
  }

  /**
   * hgrnic_alloc_av: -1 and no record when the allocation fails.  Otherwise
   * a zeroed record gets the PD and port, source path bits, DLID, rate and
   * SL; a global route adds the GRH flag, GID index, hop limit, traffic
   * class, flow label and destination GID, and a local route sets only the
   * fourth GID word to 2.
   */
  function AllocAv(mallocOk: bool, pdn: nat, attr: AhAttr): (r: (int, Option<Av>))
    requires WellTyped(pdn, attr)
    ensures r.0 == 0 || r.0 == -1
    ensures r.0 == 0 <==> mallocOk
    ensures r.1.Some? <==> r.0 == 0
    ensures r.1.Some? ==>
      r.1.value.dlid == attr.dlid && |r.1.value.dgid| == 4
      && r.1.value.portPd < U32 && r.1.value.gSlid < 256 && r.1.value.gidIndex < 256 && r.1.value.msgSr < 256
    ensures r.1.Some? && attr.isGlobal ==>
      r.1.value.dgid == attr.grh.dgid && r.1.value.hopLimit == attr.grh.hopLimit
    ensures r.1.Some? && !attr.isGlobal ==>
      r.1.value.dgid == [0, 0, 0, 2] && r.1.value.hopLimit == 0 && r.1.value.gidIndex == 0
      && r.1.value.slTclassFlowlabel == SlBits(attr.sl)
  {
    if !mallocOk then (-1, None)
    else
      var portPd := PortPd(pdn, attr.portNum);
      var slBits := SlBits(attr.sl);
      if attr.isGlobal then
        (0, Some(Av(portPd, GSlid(attr.srcPathBits, true), attr.dlid,
                    GidIndex(attr.portNum, attr.grh.sgidIndex), MsgSr(attr.staticRate),
                    attr.grh.hopLimit, GrhBits(slBits, attr.grh), attr.grh.dgid)))
      else
        (0, Some(Av(portPd, GSlid(attr.srcPathBits, false), attr.dlid, 0, MsgSr(attr.staticRate),
                    0, slBits, [0, 0, 0, 2])))
  }

  /**
   * Packing a k-bit value below an n-bit one with OR and a shift is
   * addition, and the result splits back into the two at bit k.
   */
  lemma PackSplits(lo: nat, hi: nat, k: nat, n: nat)
    requires lo < Pow2(k) && hi < Pow2(n)
    ensures BitOr(lo, Shl(hi, k)) == lo + Shl(hi, k) < Pow2(k + n)
    ensures (lo + Shl(hi, k)) % Pow2(k) == lo && (lo + Shl(hi, k)) / Pow2(k) == hi
  {
    var p := Pow2(k);
    DivModUnique(hi * p, p, hi, 0);
    OrDisjointAdd(lo, hi * p, k);
    Pow2Add(k, n);
    MulMonotone(Pow2(n) - 1, hi, p);
    MulSubDistrib(Pow2(n), 1, p);
    DivModUnique(lo + hi * p, p, hi, lo);
  }

  /**
   * For a PD number below 2^24 the port/PD word splits back into the PD
   * number (low 24 bits) and the port (high 8 bits).
   */
  lemma PortPdSplits(pdn: nat, port: nat)
    requires pdn < Pow2(24) && port < Pow2(8)
    ensures var w := PortPd(pdn, port);
      w % Pow2(24) == pdn && w / Pow2(24) == port
  {
    PackSplits(pdn, port, 24, 8);
    Pow2Of32();
    var w := pdn + Shl(port, 24);
    DivModUnique(w, U32, 0, w);
  }

  /** A rate below 16 fills the low nibble of msg_sr; the high nibble is 3. */
  lemma MsgSrSplits(staticRate: nat)
    requires staticRate < 16
    ensures MsgSr(staticRate) / 16 == 3 && MsgSr(staticRate) % 16 == staticRate
  {
    assert Pow2(4) == 16 && Pow2(8) == 256;
    BitOrComm(Shl(3, 4), staticRate);
    PackSplits(staticRate, 3, 4, 4);
    var w := staticRate + Shl(3, 4);
    DivModUnique(w, 256, 0, w);
  }

  /** A service level below 16 lands in bits 31:28 and nowhere else. */
  lemma SlBitsPlaced(sl: nat)
    requires sl < Pow2(4)
    ensures SlBits(sl) == Shl(sl, 28) && SlBits(sl) % Pow2(28) == 0 && SlBits(sl) / Pow2(28) == sl
  {
    PackSplits(0, sl, 28, 4);
    Pow2Of32();
    DivModUnique(Shl(sl, 28), U32, 0, Shl(sl, 28));
  }

  /**
   * For SL, traffic class and flow label within their IB widths the global
   * SL word decodes back into all three: SL in bits 31:28, traffic class in
   * 27:20, flow label in 19:0.
   */
  lemma GrhBitsSplit(sl: nat, grh: GlobalRoute)
    requires sl < Pow2(4) && grh.trafficClass < Pow2(8) && grh.flowLabel < Pow2(20)
    ensures var w := GrhBits(SlBits(sl), grh);
      w / Pow2(28) == sl && (w % Pow2(28)) / Pow2(20) == grh.trafficClass
      && (w % Pow2(28)) % Pow2(20) == grh.flowLabel
  {
    var t := grh.trafficClass;
    var f := grh.flowLabel;
    BitOrComm(Shl(t, 20), f);
    PackSplits(f, t, 20, 8);
    var low := f + Shl(t, 20);
    SlBitsPlaced(sl);
    BitOrComm(Shl(sl, 28), low);
    PackSplits(low, sl, 28, 4);
    var w := low + Shl(sl, 28);
    Pow2Of32();
    DivModUnique(w, U32, 0, w);
  }

  lemma SmallPowers()
    ensures Pow2(4) == 16 && Pow2(7) == 128 && Pow2(8) == 256
  {
  }

  /**
   * Bit 7 of g_slid is the GRH flag and the low seven bits are the source
   * path bits, for source path bits below 128.
   */
  lemma GlobalFlagBit(srcPathBits: nat, isGlobal: bool)
    requires srcPathBits < 128
    ensures var g := GSlid(srcPathBits, isGlobal);
      g / 128 == (if isGlobal then 1 else 0) && g % 128 == srcPathBits
  {
    SmallPowers();
    if isGlobal {
      PackSplits(srcPathBits, 1, 7, 1);
      var g := srcPathBits + Shl(1, 7);
      DivModUnique(g, 256, 0, g);
    } else {
      DivModUnique(srcPathBits, 128, 0, srcPathBits);
    }
  }

  /**
   * The GID index is the port's block of 32 GIDs plus the source GID index:
   * for ports 1 to 8 and source indices below 32 it decodes back into both.
   */
  lemma GidIndexSplits(port: nat, sgidIndex: nat)
    requires 1 <= port <= 8 && sgidIndex < 32
    ensures var g := GidIndex(port, sgidIndex);
      g / 32 == port - 1 && g % 32 == sgidIndex
  {
    var g := (port - 1) * 32 + sgidIndex;
    MulMonotone(7, port - 1, 32);
    DivModUnique(g, 256, 0, g);
    DivModUnique(g, 32, port - 1, sgidIndex);
  }

  /**
   * The encoded record read back: for attributes within their IB widths
   * each field the adapter reads yields the attribute it was built from.
   */
  lemma AllocAvDecodes(pdn: nat, attr: AhAttr)
    requires WellTyped(pdn, attr) && pdn < Pow2(24) && attr.sl < 16 && attr.staticRate < 16
    requires attr.srcPathBits < 128 && attr.grh.flowLabel < Pow2(20)
    ensures var av := AllocAv(true, pdn, attr).1.value;
      av.portPd % Pow2(24) == pdn && av.portPd / Pow2(24) == attr.portNum
      && av.msgSr / 16 == 3 && av.msgSr % 16 == attr.staticRate
      && av.gSlid / 128 == (if attr.isGlobal then 1 else 0) && av.gSlid % 128 == attr.srcPathBits
      && av.slTclassFlowlabel / Pow2(28) == attr.sl
      && (attr.isGlobal ==>
            (av.slTclassFlowlabel % Pow2(28)) / Pow2(20) == attr.grh.trafficClass
            && (av.slTclassFlowlabel % Pow2(28)) % Pow2(20) == attr.grh.flowLabel)
  {
    SmallPowers();
    PortPdSplits(pdn, attr.portNum);
    MsgSrSplits(attr.staticRate);
    GlobalFlagBit(attr.srcPathBits, attr.isGlobal);
    if attr.isGlobal {
      GrhBitsSplit(attr.sl, attr.grh);
    } else {
      SlBitsPlaced(attr.sl);
    }
  }
}
