/**
 * The user-space library's device and context set-up (hgrnic.c) and its
 * table of queue pairs (hgrnic_find_qp, hgrnic_store_qp, hgrnic_clear_qp in
 * qp.c).  The table of a context is split into 256 sub-tables; the sub-table
 * of a QP number is picked by its high bits below num_qps, and a sub-table
 * is allocated on first use and freed when its last queue pair leaves.
 */
module UserContext {
  import opened Common
  import opened Wq
  import opened LibHgrnic

  /** PCI_VENDOR_ID_ICT and PCI_DEVICE_ID_ICT_HANGU_RNIC. */
  const VENDOR_ICT: nat := 0x10EE
  const DEVICE_HANGU_RNIC: nat := 0x7028

  /** 2^31: num_qps is an int. */
  const INT_LIMIT: nat := 0x8000_0000

  /** HGRNIC_UVERBS_ABI_VERSION (hgrnic-abi.h). */
  const UVERBS_ABI_VERSION: int := 1

  /** hca_table: the (vendor, device) pairs the library drives. */
  const HCA_TABLE: seq<(nat, nat)> := [(VENDOR_ICT, DEVICE_HANGU_RNIC)]

  // ---------------------------------------------------------------------
  // Finding the device

  /**
   * ibv_read_sysfs_file once the file is read: -1 when it cannot be
   * opened; otherwise read's result len, and when the text read ends in a
   * newline that newline becomes a NUL and the length drops by one.  The
   * file's contents, as left in the caller's buffer, are a parameter.
   */
  function ReadSysfsFile(openOk: bool, len: int, buf: seq<char>): (r: (int, seq<char>))
    requires len <= |buf|
    ensures !openOk ==> r.0 == -1 && r.1 == buf
    ensures openOk ==> (r.0 == len - 1 <==> len > 0 && buf[len - 1] == '\n')
    ensures openOk ==> r.0 == len || r.0 == len - 1
    ensures |r.1| == |buf| && (r.0 >= 0 ==> r.1[..r.0] == buf[..r.0])
    ensures forall i :: 0 <= i < |buf| && r.1[i] != buf[i] ==> i == r.0 && buf[i] == '\n' && r.1[i] == '\0'
  {
    if !openOk then (-1, buf)
    else if len > 0 && buf[len - 1] == '\n' then (len - 1, buf[len - 1 := '\0'])
    else (len, buf)
  }

  /**
   * Only one newline goes: text that ends in two newlines keeps the first,
   * and a result that still ends in a newline came from one that ended in
   * two.
   */
  lemma ReadSysfsStripsOne(len: int, buf: seq<char>)
    requires len <= |buf|
    ensures var r := ReadSysfsFile(true, len, buf);
      (len >= 2 && buf[len - 2] == '\n' && buf[len - 1] == '\n' ==> r.0 == len - 1 && r.1[r.0 - 1] == '\n')
      && (r.0 > 0 && r.1[r.0 - 1] == '\n' ==> r.0 == len - 1 && buf[len - 2] == '\n')
  {
    var r := ReadSysfsFile(true, len, buf);
    if r.0 > 0 && r.0 < len {
      assert r.1[r.0 - 1] == buf[r.0 - 1];
    }
  }

  /** The search of hca_table from entry i on, comparing vendor and device. */
  function MatchFrom(vendor: nat, device: nat, i: nat): (found: bool)
    requires i <= |HCA_TABLE|
    ensures found <==> exists j :: i <= j < |HCA_TABLE| && HCA_TABLE[j].0 == vendor && HCA_TABLE[j].1 == device
    decreases |HCA_TABLE| - i
  {
    if i == |HCA_TABLE| then false
    else if vendor == HCA_TABLE[i].0 && device == HCA_TABLE[i].1 then true
    else MatchFrom(vendor, device, i + 1)
  }

  /**
   * hgrnic_driver_init: the two sysfs reads (their results and the numbers
   * parsed from them are parameters) must succeed, the pair must be in
   * hca_table, the ABI version must not be newer than the library's, and
   * the device record must be allocated.  The device carries the system's
   * page size.
   */
  function DriverInit(vendorRead: int, vendor: nat, deviceRead: int, device: nat,
                      abiVersion: int, mallocOk: bool, pageSize: nat): (dev: Option<nat>)
    ensures dev.Some? <==>
      vendorRead >= 0 && deviceRead >= 0 && vendor == VENDOR_ICT && device == DEVICE_HANGU_RNIC
      && abiVersion <= UVERBS_ABI_VERSION && mallocOk
    ensures dev.Some? ==> dev.value == pageSize
  {
    if vendorRead < 0 || deviceRead < 0 then None
    else if !MatchFrom(vendor, device, 0) then None
    else if abiVersion > UVERBS_ABI_VERSION then None
    else if !mallocOk then None
    else Some(pageSize)
  }

  // ---------------------------------------------------------------------
  // Geometry of the QP table

  /** ffs(num_qps) - 1 - HGRNIC_QP_TABLE_BITS, the shift as alloc_context computes it. */
  function QpTableShift(numQps: nat): int
    requires numQps > 0
  {
    TrailingZeros(numQps) - QP_TABLE_BITS
  }

  /** For a power of two, ffs - 1 is its logarithm. */
  lemma {:induction false} TrailingZerosOfPow2(x: nat)
    requires IsPow2(x)
    ensures TrailingZeros(x) == Log2(x)
    decreases x
  {
    if x > 1 {
      TrailingZerosOfPow2(x / 2);
    }
  }

  /**
   * As written, the shift is negative exactly when the kernel reports fewer
   * than 256 queue pairs; 128 gives -1, and the mask (1 << -1) - 1 is then
   * a shift by a negative count, which C leaves undefined.
   */
  lemma NegativeShiftBelowTable(numQps: nat)
    requires IsPow2(numQps)
    ensures QpTableShift(numQps) < 0 <==> numQps < QP_TABLE_SIZE
    ensures QpTableShift(128) == -1
  {
    TrailingZerosOfPow2(numQps);
    TableBitsPowers();
    var k := Log2(numQps);
    if k < QP_TABLE_BITS {
      Pow2Monotone(k, 7);
    } else {
      Pow2Monotone(8, k);
    }
    Pow2IsPow2(7);
    TrailingZerosOfPow2(128);
  }

  /**
   * The shift the table evidently means: ffs(num_qps) - 1 - 8 where that is
   * not negative, and 0 below 256 queue pairs, so that each of the first
   * num_qps sub-tables holds one slot.
   */
  function TableShift(numQps: nat): (shift: nat)
    requires numQps > 0
    ensures shift as int >= QpTableShift(numQps) && (QpTableShift(numQps) >= 0 ==> shift as int == QpTableShift(numQps))
  {
    if QpTableShift(numQps) < 0 then 0 else QpTableShift(numQps) as nat
  }

  /**
   * The table of a context with num_qps queue pairs: num_qps a power of two
   * that fits an int, the shift TableShift(num_qps) and the mask
   * (1 << shift) - 1.
   */
  ghost predicate Geometry(numQps: nat, shift: nat, mask: nat)
  {
    IsPow2(numQps) && numQps < INT_LIMIT && shift == TableShift(numQps) && mask == Pow2(shift) - 1
  }

  /**
   * For every power-of-two num_qps the sub-tables of 2^shift slots divide
   * num_qps, and at most 256 of them are needed; from 256 queue pairs on the
   * shift is alloc_context's own and the 256 sub-tables cover num_qps
   * exactly, below 256 the shift is 0.
   */
  lemma GeometryOf(numQps: nat)
    requires IsPow2(numQps) && numQps < INT_LIMIT
    ensures var shift := TableShift(numQps);
      Geometry(numQps, shift, Pow2(shift) - 1)
      && numQps % Pow2(shift) == 0 && numQps <= Pow2(shift) * QP_TABLE_SIZE
      && (QP_TABLE_SIZE <= numQps ==> shift as int == QpTableShift(numQps) && Pow2(shift) * QP_TABLE_SIZE == numQps)
      && (numQps < QP_TABLE_SIZE ==> shift == 0)
  {
    NegativeShiftBelowTable(numQps);
    TrailingZerosOfPow2(numQps);
    TableBitsPowers();
    var k := Log2(numQps);
    var shift := TableShift(numQps);
    if QP_TABLE_SIZE <= numQps {
      assert shift == k - 8;
      Pow2Add(k - 8, 8);
      Pow2Divides(k - 8, k);
    } else {
      assert shift == 0;
    }
  }

  lemma TableBitsPowers()
    ensures Pow2(7) == 128 && Pow2(8) == QP_TABLE_SIZE
  {
  }

  /** (qpn & (num_qps - 1)) >> shift: the sub-table of qpn, one of the 256. */
  function TableIndex(qpn: nat, numQps: nat, shift: nat): (t: nat)
    requires Geometry(numQps, shift, Pow2(shift) - 1)
    ensures t < QP_TABLE_SIZE
  {
    GeometryOf(numQps);
    AndLowMask(qpn, Log2(numQps));
    var x := qpn % numQps;
    assert x < QP_TABLE_SIZE * Pow2(shift);
    DivBelow(x, Pow2(shift), QP_TABLE_SIZE);
    Shr(BitAnd(qpn, numQps - 1), shift)
  }

  /** qpn & qp_table_mask: the slot of qpn in its sub-table. */
  function Slot(qpn: nat, mask: nat): nat
  {
    BitAnd(qpn, mask)
  }

  /**
   * The sub-table and the slot are the high and the low part of qpn modulo
   * num_qps: sub-table below 256, slot below 2^shift, and
   * sub-table * 2^shift + slot == qpn mod num_qps.
   */
  lemma {:induction false} IndexSplit(qpn: nat, numQps: nat, shift: nat, mask: nat)
    requires Geometry(numQps, shift, mask)
    ensures var t := TableIndex(qpn, numQps, shift);
      var s := Slot(qpn, mask);
      t < QP_TABLE_SIZE && s < Pow2(shift) && t * Pow2(shift) + s == qpn % numQps
  {
    GeometryOf(numQps);
    var p := Pow2(shift);
    AndLowMask(qpn, Log2(numQps));
    AndLowMask(qpn, shift);
    var x := qpn % numQps;
    assert x < QP_TABLE_SIZE * p;
    DivBelow(x, p, QP_TABLE_SIZE);
    ModOfMultiple(qpn, numQps, p);
    assert TableIndex(qpn, numQps, shift) == x / p;
    assert Slot(qpn, mask) == qpn % p;
  }

  /** For m a multiple of p, y mod m splits into its quotient by p and y mod p. */
  lemma ModOfMultiple(y: nat, m: nat, p: nat)
    requires p > 0 && m > 0 && m % p == 0
    ensures y % m == (y % m) / p * p + y % p
  {
    var n := m / p;
    assert p * n == m by {
      assert m == n * p + m % p;
    }
    ModOfPart(y, p, n);
  }

  /** The residue modulo p * n, taken again modulo p, is the residue modulo p. */
  lemma ModOfPart(y: nat, p: nat, n: nat)
    requires p > 0 && n > 0
    ensures (y % (p * n)) % p == y % p && (y % (p * n)) == (y % (p * n)) / p * p + y % p
  {
    var m := p * n;
    var q, x := y / m, y % m;
    assert y == q * m + x;
    assert x == (x / p) * p + x % p;
    assert y == (q * n + x / p) * p + x % p by {
      assert q * m == (q * n) * p;
    }
    DivModUnique(y, p, q * n + x / p, x % p);
  }

  /**
   * Two QP numbers share a slot of the table exactly when they agree modulo
   * num_qps: the table tells apart the numbers below num_qps and nothing
   * more.
   */
  lemma SameEntry(a: nat, b: nat, numQps: nat, shift: nat, mask: nat)
    requires Geometry(numQps, shift, mask)
    ensures TableIndex(a, numQps, shift) == TableIndex(b, numQps, shift) && Slot(a, mask) == Slot(b, mask)
        <==> a % numQps == b % numQps
  {
    IndexSplit(a, numQps, shift, mask);
    IndexSplit(b, numQps, shift, mask);
    var p := Pow2(shift);
    var x, y := a % numQps, b % numQps;
    DivModUnique(x, p, TableIndex(a, numQps, shift), Slot(a, mask));
    DivModUnique(y, p, TableIndex(b, numQps, shift), Slot(b, mask));
  }

  // ---------------------------------------------------------------------
  // The context and its QP table

  /**
   * struct hgrnic_context: num_qps, the shift and mask of the QP table, and
   * the 256 sub-tables, each a reference count and a table of queue-pair
   * pointers (the calloc'd table; its contents are meaningful only while
   * the count is not zero).
   */
  class Context {
    const numQps: nat
    const shift: nat
    const mask: nat
    const refcnt: array<int>
    const tables: array<seq<Qp?>>

    ghost predicate Valid()
      reads this, refcnt, tables
    {
      Geometry(numQps, shift, mask)
      && refcnt.Length == QP_TABLE_SIZE && tables.Length == QP_TABLE_SIZE
      && forall t :: 0 <= t < QP_TABLE_SIZE ==> refcnt[t] >= 0 && (refcnt[t] > 0 ==> |tables[t]| == mask + 1)
    }

    /**
     * The context alloc_context sets up from the kernel's answer num_qps:
     * the shift ffs(num_qps) - 1 - 8, its mask, and all 256 reference
     * counts set to 0 by the initialisation loop, so no queue pair is found.
     */
    constructor (qpTabSize: nat)
      requires IsPow2(qpTabSize) && qpTabSize < INT_LIMIT
      ensures Valid() && fresh(refcnt) && fresh(tables)
      ensures numQps == qpTabSize && shift == TableShift(qpTabSize) && mask == Pow2(shift) - 1
      ensures QP_TABLE_SIZE <= qpTabSize ==> shift as int == QpTableShift(qpTabSize)
      ensures forall t :: 0 <= t < QP_TABLE_SIZE ==> refcnt[t] == 0
      ensures forall qpn: nat :: Find(qpn) == null
    {
      GeometryOf(qpTabSize);
      numQps := qpTabSize;
      shift := TableShift(qpTabSize);
      mask := Pow2(TableShift(qpTabSize)) - 1;
      refcnt := new int[QP_TABLE_SIZE];
      tables := new seq<Qp?>[QP_TABLE_SIZE](_ => []);
      new;
      var i := 0;
      while i < QP_TABLE_SIZE
        invariant 0 <= i <= QP_TABLE_SIZE
        invariant forall t :: 0 <= t < i ==> refcnt[t] == 0
      {
        refcnt[i] := 0;
        i := i + 1;
      }
      forall qpn: nat
        ensures Find(qpn) == null
      {
        IndexSplit(qpn, numQps, shift, mask);
      }
    }

    /** The queue pairs the table currently holds. */
    ghost function Members(): set<Qp>
      reads this, refcnt, tables
      requires Valid()
    {
      set t, i | 0 <= t < QP_TABLE_SIZE && refcnt[t] > 0 && 0 <= i < |tables[t]| && tables[t][i] != null
        :: tables[t][i]
    }

    /**
     * hgrnic_find_qp: the slot of qpn in its sub-table, or NULL whenever
     * that sub-table's reference count is 0.
     */
    function Find(qpn: nat): (qp: Qp?)
      reads this, refcnt, tables
      requires Valid()
      ensures refcnt[TableIndex(qpn, numQps, shift)] == 0 ==> qp == null
      ensures qp != null ==> qp in Members()
    {
      IndexSplit(qpn, numQps, shift, mask);
      var t := TableIndex(qpn, numQps, shift);
      if refcnt[t] != 0 then tables[t][Slot(qpn, mask)] else null
    }

    /**
     * hgrnic_store_qp: a sub-table without references gets a zeroed table
     * (-1 when calloc fails, and nothing changes); the count goes up and the
     * slot of qpn holds qp.  Afterwards find_qp(qpn) is qp, and the answer
     * for every number that does not share qpn's slot is unchanged.
     */
    method Store(qpn: nat, qp: Qp, callocOk: bool) returns (err: int)
      requires Valid()
      modifies refcnt, tables
      ensures Valid()
      ensures var t := TableIndex(qpn, numQps, shift);
        err == (if old(refcnt[t]) == 0 && !callocOk then -1 else 0)
        && (err == 0 ==> refcnt[t] == old(refcnt[t]) + 1)
        && (forall u :: 0 <= u < QP_TABLE_SIZE && u != t ==> refcnt[u] == old(refcnt[u]) && tables[u] == old(tables[u]))
      ensures err != 0 ==> refcnt[..] == old(refcnt[..]) && tables[..] == old(tables[..])
      ensures err == 0 ==> Find(qpn) == qp
      ensures err == 0 ==> forall q: nat :: q % numQps != qpn % numQps ==> Find(q) == old(Find(q))
    {
      IndexSplit(qpn, numQps, shift, mask);
      var t := TableIndex(qpn, numQps, shift);
      if refcnt[t] == 0 {
        if !callocOk {
          return -1;
        }
        tables[t] := seq(mask + 1, _ => null);
      }
      refcnt[t] := refcnt[t] + 1;
      tables[t] := tables[t][Slot(qpn, mask) := qp];
      err := 0;
      forall q: nat | q % numQps != qpn % numQps
        ensures Find(q) == old(Find(q))
      {
        SameEntry(q, qpn, numQps, shift, mask);
        IndexSplit(q, numQps, shift, mask);
      }
    }

    /**
     * hgrnic_clear_qp, for a number whose sub-table is in use: the count
     * goes down; at 0 the sub-table is freed (its pointer stays, unused),
     * otherwise qpn's slot is cleared.  Afterwards find_qp(qpn) is NULL, and
     * so is every number of a freed sub-table; numbers of other sub-tables,
     * and of a sub-table still in use outside qpn's slot, are unaffected.
     */
    method Clear(qpn: nat)
      requires Valid() && refcnt[TableIndex(qpn, numQps, shift)] > 0
      modifies refcnt, tables
      ensures Valid()
      ensures var t := TableIndex(qpn, numQps, shift);
        refcnt[t] == old(refcnt[t]) - 1
        && (forall u :: 0 <= u < QP_TABLE_SIZE && u != t ==> refcnt[u] == old(refcnt[u]) && tables[u] == old(tables[u]))
      ensures Find(qpn) == null
      ensures var t := TableIndex(qpn, numQps, shift);
        forall q: nat :: (TableIndex(q, numQps, shift) == t ==> (refcnt[t] == 0 ==> Find(q) == null))
          && ((TableIndex(q, numQps, shift) != t || (refcnt[t] > 0 && q % numQps != qpn % numQps))
                ==> Find(q) == old(Find(q)))
    {
      IndexSplit(qpn, numQps, shift, mask);
      var t := TableIndex(qpn, numQps, shift);
      refcnt[t] := refcnt[t] - 1;
      if refcnt[t] != 0 {
        tables[t] := tables[t][Slot(qpn, mask) := null];
      }
      forall q: nat
        ensures TableIndex(q, numQps, shift) == t ==> (refcnt[t] == 0 ==> Find(q) == null)
        ensures TableIndex(q, numQps, shift) != t || (refcnt[t] > 0 && q % numQps != qpn % numQps)
                ==> Find(q) == old(Find(q))
      {
        SameEntry(q, qpn, numQps, shift, mask);
        IndexSplit(q, numQps, shift, mask);
      }
    }
  }

  /**
   * hgrnic_alloc_context: the context allocation, the GET_CONTEXT command,
   * the UAR mapping and the context's protection domain must each succeed;
   * otherwise there is no context.  A new context's table is empty.
   */
  method AllocContext(callocOk: bool, cmdOk: bool, qpTabSize: nat, mmapOk: bool, pdOk: bool)
      returns (ctx: Context?)
    requires IsPow2(qpTabSize) && qpTabSize < INT_LIMIT
    ensures ctx != null <==> callocOk && cmdOk && mmapOk && pdOk
    ensures ctx != null ==> (fresh(ctx) && ctx.Valid() && ctx.numQps == qpTabSize
      && forall qpn: nat :: ctx.Find(qpn) == null)
  {
    if !callocOk || !cmdOk {
      return null;
    }
    ctx := new Context(qpTabSize);
    if !mmapOk || !pdOk {
      ctx := null;
    }
  }
}
