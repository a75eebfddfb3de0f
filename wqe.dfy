/**
 * The work-queue element units of hgrnic_wqe.h and the send doorbell.  A
 * descriptor is a next unit followed by optional units (remote address, UD
 * address, atomic) and data units; every unit is a multiple of 16 bytes, so
 * descriptor sizes are counted in 16-byte units.  The setters are modelled
 * as functions that return the values the unit's fields receive, each
 * already cut to the width of its C field.
 */
module Wqe {
  import opened Common
  import opened Bytes

  // The flag bits of a next unit's ee_nds word.
  const NEXT_DBD: nat := 0x80
  const NEXT_FENCE: nat := 0x40
  const NEXT_CQ_UPDATE: nat := 0x08
  const NEXT_EVENT_GEN: nat := 0x04
  const NEXT_SOLICIT: nat := 0x02

  /** The lkey that marks the end of a scatter list. */
  const INVAL_LKEY: nat := 0x100
  /** The most descriptors one send doorbell announces. */
  const MAX_WQES_PER_SEND_DB: nat := 255

  // Unit sizes in bytes.
  const NEXT_UNIT_SIZE: nat := 16
  const UD_UNIT_SIZE: nat := 48
  const RADDR_UNIT_SIZE: nat := 16
  const ATOMIC_UNIT_SIZE: nat := 16
  const INLINE_UNIT_SIZE: nat := 4
  const DATA_UNIT_SIZE: nat := 16

  /** A remote-address unit: the 64-bit address, the 32-bit rkey and a reserved word. */
  datatype RaddrUnit = RaddrUnit(raddr: nat, rkey: nat, reserved: nat)

  /** set_raddr_unit. */
  function SetRaddrUnit(remoteAddr: nat, rkey: nat): (u: RaddrUnit)
    ensures u.reserved == 0
  {
    RaddrUnit(remoteAddr % U64, rkey % U32, 0)
  }

  /**
   * An atomic unit.  Its two fields are declared little-endian but written
   * with cpu_to_be64, so what lands in memory is the big-endian image of
   * each value; the fields are modelled as those eight-byte images.
   */
  datatype AtomicUnit = AtomicUnit(swapAdd: seq<Byte>, compare: seq<Byte>)

  /** The verbs opcode of an atomic compare-and-swap (IB_WR_ATOMIC_CMP_AND_SWP). */
  const IB_WR_ATOMIC_CMP_AND_SWP: nat := 5

  /**
   * set_atomic_seg: a compare-and-swap stores the swap value and the
   * compare value; any other atomic stores the add value and a zero compare.
   */
  function SetAtomicSeg(opcode: nat, swap: nat, compareAdd: nat): AtomicUnit
  {
    if opcode == IB_WR_ATOMIC_CMP_AND_SWP then AtomicUnit(BE(swap, 8), BE(compareAdd, 8))
    else AtomicUnit(BE(compareAdd, 8), BE(0, 8))
  }

  /**
   * Reading the atomic unit back as big-endian values gives the operands:
   * (swap, compare) for compare-and-swap, (add value, 0) for fetch-and-add.
   */
  lemma AtomicSegReads(opcode: nat, swap: nat, compareAdd: nat)
    requires swap < U64 && compareAdd < U64
    ensures var u := SetAtomicSeg(opcode, swap, compareAdd);
      |u.swapAdd| == 8 && |u.compare| == 8
      && Value(u.swapAdd) == (if opcode == IB_WR_ATOMIC_CMP_AND_SWP then swap else compareAdd)
      && Value(u.compare) == (if opcode == IB_WR_ATOMIC_CMP_AND_SWP then compareAdd else 0)
  {
    ImageReads(swap);
    ImageReads(compareAdd);
    ImageReads(0);
  }

  /** The eight-byte big-endian image of a 64-bit value reads back as that value. */
  lemma ImageReads(v: nat)
    requires v < U64
    ensures Value(BE(v, 8)) == v
  {
    assert Radix(8) == U64;
    ValueOfBE(v, 8);
  }

  /** The UD address unit: the port and each LID split into a 16-bit LID and 32 MAC-high bits. */
  datatype UdUnit = UdUnit(port: nat, slid: nat, dlid: nat, smacH: nat, dmacH: nat)

  /** The 16-bit LID part of a 64-bit address-handle LID (lid & 0xffff). */
  function LidLow(lid: nat): nat
  {
    lid % 0x1_0000
  }

  /** The 32 bits above the LID part ((lid >> 16) & 0xffffffff). */
  function LidHigh(lid: nat): nat
  {
    Shr(lid, 16) % U32
  }

  /** set_ud_unit, from the address handle's port, slid and dlid. */
  function SetUdUnit(port: nat, slid: nat, dlid: nat): (u: UdUnit)
    ensures u.slid < 0x1_0000 && u.dlid < 0x1_0000 && u.smacH < U32 && u.dmacH < U32
  {
    UdUnit(port % U32, LidLow(slid), LidLow(dlid), LidHigh(slid), LidHigh(dlid))
  }

  /**
   * The split loses nothing below bit 48: the LID part and the MAC-high
   * part put back together give the low 48 bits of the original value.
   */
  lemma LidSplit(lid: nat)
    ensures LidLow(lid) + LidHigh(lid) * 0x1_0000 == lid % 0x1_0000_0000_0000
  {
    assert Pow2(8) == 256;
    Pow2Add(8, 8);
    var q := lid / 0x1_0000;
    var hi := q % U32;
    var m := 0x1_0000_0000_0000;
    assert U32 * 0x1_0000 == m;
    assert q == (q / U32) * U32 + hi;
    assert lid == q * 0x1_0000 + lid % 0x1_0000;
    assert lid == (q / U32) * m + (hi * 0x1_0000 + lid % 0x1_0000) by {
      MulTwoSplit(q / U32, hi, lid % 0x1_0000);
    }
    MulMonotone(U32 - 1, hi, 0x1_0000);
    DivModUnique(lid, m, q / U32, hi * 0x1_0000 + lid % 0x1_0000);
  }

  lemma MulTwoSplit(a: nat, b: nat, c: nat)
    ensures (a * U32 + b) * 0x1_0000 + c == a * 0x1_0000_0000_0000 + (b * 0x1_0000 + c)
  {
  }

  /** The UD unit carries both LIDs whole when they fit in 48 bits. */
  lemma UdUnitKeepsLids(port: nat, slid: nat, dlid: nat)
    requires slid < 0x1_0000_0000_0000 && dlid < 0x1_0000_0000_0000
    ensures var u := SetUdUnit(port, slid, dlid);
      u.slid + u.smacH * 0x1_0000 == slid && u.dlid + u.dmacH * 0x1_0000 == dlid
  {
    LidSplit(slid);
    LidSplit(dlid);
  }

  /** A data unit: the byte count, the lkey and the address of one scatter/gather entry. */
  datatype DataUnit = DataUnit(byteCount: nat, lkey: nat, addr: nat)

  /** struct ib_sge. */
  datatype Sge = Sge(addr: nat, length: nat, lkey: nat)

  /** hgrnic_set_data_unit. */
  function SetDataUnit(sg: Sge): DataUnit
  {
    DataUnit(sg.length % U32, sg.lkey % U32, sg.addr % U64)
  }

  /** hgrnic_set_data_unit_inval: the unit that ends a shorter scatter list. */
  function DataUnitInval(): (u: DataUnit)
    ensures u.lkey == INVAL_LKEY
  {
    DataUnit(0, INVAL_LKEY, 0)
  }

  /**
   * The end marker is the data unit of an empty entry at address 0 whose
   * lkey is INVAL_LKEY, and a data unit whose entry names another lkey (or
   * a non-empty buffer) is never taken for it.
   */
  lemma InvalIsEmptyEntry(sg: Sge)
    requires sg.length < U32 && sg.lkey < U32 && sg.addr < U64
    ensures DataUnitInval() == SetDataUnit(Sge(0, 0, INVAL_LKEY))
    ensures SetDataUnit(sg) == DataUnitInval() <==> sg == Sge(0, 0, INVAL_LKEY)
  {
  }

  /**
   * The length word of an inline unit: bit 31 flags inline data, the low
   * bits hold the length ((1 << 31) | length on a u32).
   */
  function InlineLength(length: nat): nat
  {
    BitOr(Pow2(31), length % U32) % U32
  }

  /** A length below 2^31 is kept whole beside the inline flag. */
  lemma InlineLengthSpec(length: nat)
    requires length < Pow2(31)
    ensures InlineLength(length) == Pow2(31) + length
    ensures TestBit(InlineLength(length), 31)
    ensures InlineLength(length) % Pow2(31) == length
  {
    var p := Pow2(31);
    Pow2Of32();
    Pow2Add(31, 1);
    assert Pow2(1) == 2;
    assert p == 0x8000_0000;
    ZeroMod(p);
    OrDisjointAdd(length, p, 31);
    BitOrComm(length, p);
    assert BitOr(p, length) == p + length;
    assert length % U32 == length;
    assert InlineLength(length) == p + length;
    DivModUnique(p + length, p, 1, length);
    Pow2Test(31, 31);
    BitOrTest(p, length, 31);
  }

  lemma ZeroMod(d: nat)
    requires d > 0
    ensures d % d == 0
  {
    DivModUnique(d, d, 1, 0);
  }

  /** The doorbell a send posts: a high and a low 32-bit word. */
  datatype Doorbell = Doorbell(hi: nat, lo: nat)

  /**
   * hgrnic_send_dbell: the high word is the QP number over the first
   * descriptor's size, the low word the send queue's head (16 bits) over
   * the fence flag and opcode of the first descriptor.  The head the word
   * holds is the one before the doorbell's own advance.
   */
  function SendDoorbell(qpn: nat, head: nat, size0: nat, f0: nat, op0: nat): Doorbell
  {
    Doorbell(BitOr(Shl(qpn, 8), size0) % U32,
             BitOr(BitOr(Shl(BitAnd(head, 0xffff), 8), f0), op0) % U32)
  }

  /**
   * With a 24-bit QP number, a size below 256, a fence flag of 0 or 1 << 5
   * and a 5-bit opcode, each word decodes back into its parts: hi is
   * qpn * 256 + size0, and lo is (head mod 2^16) * 256 + f0 + op0.
   */
  lemma SendDoorbellFields(qpn: nat, head: nat, size0: nat, f0: nat, op0: nat)
    requires qpn < 0x100_0000 && size0 < 256 && (f0 == 0 || f0 == 0x20) && op0 < 0x20
    ensures var d := SendDoorbell(qpn, head, size0, f0, op0);
      d.hi == qpn * 256 + size0 && d.hi / 256 == qpn && d.hi % 256 == size0
      && d.lo == (head % 0x1_0000) * 256 + f0 + op0
      && d.lo / 256 == head % 0x1_0000 && d.lo % 256 == f0 + op0
  {
    HiWord(qpn, size0);
    Pow2Sixteen();
    AndLowMask(head, 16);
    LoWord(head % 0x1_0000, f0, op0);
  }

  /** The high doorbell word: qpn above an 8-bit size. */
  lemma HiWord(qpn: nat, size0: nat)
    requires qpn < 0x100_0000 && size0 < 256
    ensures var hi := BitOr(Shl(qpn, 8), size0) % U32;
      hi == qpn * 256 + size0 && hi / 256 == qpn && hi % 256 == size0
  {
    ByteOverShift(qpn, size0);
    WordSplit(qpn, size0);
  }

  /** The low doorbell word: a head of up to 24 bits above the fence bit and a 5-bit opcode. */
  lemma LoWord(h: nat, f0: nat, op0: nat)
    requires h < 0x100_0000 && (f0 == 0 || f0 == 0x20) && op0 < 0x20
    ensures var lo := BitOr(BitOr(Shl(h, 8), f0), op0) % U32;
      lo == h * 256 + f0 + op0 && lo / 256 == h && lo % 256 == f0 + op0
  {
    var v := BitOr(BitOr(Shl(h, 8), f0), op0);
    var b := f0 + op0;
    var w := h * 256 + b;
    LoBits(h, f0, op0);
    assert v == w;
    WordSplit(h, b);
    assert w % U32 == w && w / 256 == h && w % 256 == b;
  }

  /** Shifting h over the fence bit and the opcode only adds them in. */
  lemma LoBits(h: nat, f0: nat, op0: nat)
    requires (f0 == 0 || f0 == 0x20) && op0 < 0x20
    ensures BitOr(BitOr(Shl(h, 8), f0), op0) == h * 256 + (f0 + op0)
  {
    var x := h * 256 + f0;
    ByteOverShift(h, f0);
    LowFiveClear(h, f0);
    Pow2Five();
    OrDisjointAdd(op0, x, 5);
    BitOrComm(op0, x);
  }

  /** A byte OR-ed under a value shifted left by 8 is added to it. */
  lemma ByteOverShift(h: nat, b: nat)
    requires b < 256
    ensures BitOr(Shl(h, 8), b) == h * 256 + b
  {
    assert Pow2(8) == 256;
    var y := h * 256;
    assert Shl(h, 8) == y;
    MulMod(h, 256);
    OrDisjointAdd(b, y, 8);
    BitOrComm(b, y);
  }

  lemma Pow2Five()
    ensures Pow2(5) == 32
  {
  }

  /** h * 256 + f0 has its five low bits clear when f0 is 0 or 1 << 5. */
  lemma LowFiveClear(h: nat, f0: nat)
    requires f0 == 0 || f0 == 0x20
    ensures (h * 256 + f0) % 32 == 0
  {
    assert h * 256 + f0 == (h * 8 + f0 / 32) * 32;
    DivModUnique(h * 256 + f0, 32, h * 8 + f0 / 32, 0);
  }

  /** A 24-bit value h over a byte b fits in 32 bits and splits back into h and b. */
  lemma WordSplit(h: nat, b: nat)
    requires h < 0x100_0000 && b < 256
    ensures (h * 256 + b) % U32 == h * 256 + b && (h * 256 + b) / 256 == h && (h * 256 + b) % 256 == b
  {
    MulMonotone(0xFF_FFFF, h, 256);
    DivModUnique(h * 256 + b, U32, 0, h * 256 + b);
    DivModUnique(h * 256 + b, 256, h, b);
  }

  lemma MulMod(a: nat, d: nat)
    requires d > 0
    ensures (a * d) % d == 0
  {
    DivModUnique(a * d, d, a, 0);
  }
}
