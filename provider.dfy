/**
 * The verbs entry points of the kernel driver that carry logic of their own
 * (hgrnic_provider.c, hgrnic_provider.h): the memory-region access flags,
 * the device attributes, CQ creation and resizing with its second buffer,
 * and the batching of MTT writes when a user memory region is registered.
 */
module Provider {
  import opened Common
  import opened CqSpec
  import opened CqRing
  import opened Cq
  import opened Allocator
  import opened Device

  // ---------------------------------------------------------------------
  // convert_access

  /** enum ib_access_flags of the Linux RDMA core. */
  const IB_ACCESS_LOCAL_WRITE: nat := 1
  const IB_ACCESS_REMOTE_WRITE: nat := 2
  const IB_ACCESS_REMOTE_READ: nat := 4
  const IB_ACCESS_REMOTE_ATOMIC: nat := 8

  /** The MPT access flags (HGRNIC_MPT_FLAG_*). */
  const MPT_FLAG_LOCAL_WRITE: nat := 1
  const MPT_FLAG_REMOTE_WRITE: nat := 2
  const MPT_FLAG_REMOTE_READ: nat := 4
  const MPT_FLAG_ATOMIC: nat := 8
  const MPT_FLAG_LOCAL_READ: nat := 0x80

  /**
   * convert_access: each verbs access flag that is present contributes its
   * MPT flag, and local read is always granted.
   */
  function ConvertAccess(acc: nat): nat
  {
    BitOr(BitOr(BitOr(BitOr(
      if BitAnd(acc, IB_ACCESS_REMOTE_ATOMIC) != 0 then MPT_FLAG_ATOMIC else 0,
      if BitAnd(acc, IB_ACCESS_REMOTE_WRITE) != 0 then MPT_FLAG_REMOTE_WRITE else 0),
      if BitAnd(acc, IB_ACCESS_REMOTE_READ) != 0 then MPT_FLAG_REMOTE_READ else 0),
      if BitAnd(acc, IB_ACCESS_LOCAL_WRITE) != 0 then MPT_FLAG_LOCAL_WRITE else 0),
      MPT_FLAG_LOCAL_READ)
  }

  /** x & (1 << k) is 1 << k when bit k of x is set and 0 otherwise. */
  lemma {:induction false} AndPow2(x: nat, k: nat)
    ensures BitAnd(x, Pow2(k)) == if TestBit(x, k) then Pow2(k) else 0
    decreases k
  {
    if k > 0 {
      if x == 0 {
        ZeroTest(k);
      } else {
        AndPow2(x / 2, k - 1);
      }
    }
  }

  /** Bit n of the flag contributed for access bit k (both 1 << k). */
  lemma FlagTest(acc: nat, k: nat, n: nat)
    ensures TestBit(if BitAnd(acc, Pow2(k)) != 0 then Pow2(k) else 0, n) <==> n == k && TestBit(acc, k)
  {
    AndPow2(acc, k);
    Pow2Test(k, n);
    ZeroTest(n);
  }

  /**
   * The MPT flags have local read (bit 7) set, the four bits 0..3 copied
   * one for one from the access bits (local write, remote write, remote
   * read, remote atomic), and no other bit.
   */
  lemma ConvertAccessBits(acc: nat, n: nat)
    ensures TestBit(ConvertAccess(acc), n) <==> n == 7 || (n < 4 && TestBit(acc, n))
  {
    assert Pow2(0) == 1 && Pow2(1) == 2 && Pow2(2) == 4 && Pow2(3) == 8;
    assert Pow2(7) == 0x80;
    var a := if BitAnd(acc, 8) != 0 then 8 else 0;
    var w := if BitAnd(acc, 2) != 0 then 2 else 0;
    var r := if BitAnd(acc, 4) != 0 then 4 else 0;
    var l := if BitAnd(acc, 1) != 0 then 1 else 0;
    FlagTest(acc, 3, n);
    FlagTest(acc, 1, n);
    FlagTest(acc, 2, n);
    FlagTest(acc, 0, n);
    BitOrTest(a, w, n);
    BitOrTest(BitOr(a, w), r, n);
    BitOrTest(BitOr(BitOr(a, w), r), l, n);
    BitOrTest(BitOr(BitOr(BitOr(a, w), r), l), 0x80, n);
    Pow2Test(7, n);
  }

  // ---------------------------------------------------------------------
  // query_device

  /** The struct ib_device_attr fields query_device sets from the limits. */
  datatype DeviceAttr = DeviceAttr(
    maxMrSize: nat, pageSizeCap: nat, maxQp: int, maxQpWr: nat, maxSendSge: nat, maxRecvSge: nat,
    maxCq: int, maxCqe: int, maxMr: int, maxPd: int, localCaAckDelay: nat, maxPkeys: nat)

  /** max_mr_size, ~0ull. */
  const MAX_MR_SIZE: nat := 0xFFFF_FFFF_FFFF_FFFF

  /**
   * hgrnic_query_device: -EINVAL when the caller passes any user data;
   * otherwise each count is the device's count less what it reserves.
   */
  function QueryDevice(l: Limits, inlen: nat, outlen: nat): (r: Result<DeviceAttr>)
  {
    if inlen != 0 || outlen != 0 then Err(-EINVAL)
    else Ok(DeviceAttr(MAX_MR_SIZE, l.pageSizeCap, l.numQps - l.reservedQps, l.maxWqes, l.maxSg, l.maxSg,
      l.numCqs - l.reservedCqs, l.maxCqes, l.numMpts - l.reservedMrws, l.numPds - l.reservedPds,
      l.localCaAckDelay, l.pkeyTableLen))
  }

  /**
   * query_device fails exactly for non-empty user data.  After a successful
   * dev_lim it reports every QP, CQ and PD the device does not reserve,
   * all memory regions, one CQE less than the device's CQ size, 16 scatter
   * entries for sends and receives, and the page-size mask.
   */
  lemma QueryDeviceSpec(l: Limits, queryErr: int, d: CmdSpec.DevLimits, inlen: nat, outlen: nat)
    ensures QueryDevice(l, inlen, outlen).Err? <==> inlen != 0 || outlen != 0
    ensures QueryDevice(l, inlen, outlen).Err? ==> QueryDevice(l, inlen, outlen).code == -EINVAL
    ensures var (err, l2) := DevLim(l, queryErr, d);
      err == 0 && inlen == 0 && outlen == 0 ==>
        var a := QueryDevice(l2, 0, 0).value;
        a.maxQp + d.reservedQps == l.numQps && a.maxCq + d.reservedCqs == l.numCqs
        && a.maxPd + d.reservedPds == l.numPds && a.maxMr == l.numMpts
        && a.maxCqe + 1 == d.maxCqSz && a.maxSendSge == 16 && a.maxRecvSge == 16
        && a.maxQpWr == d.maxQpSz && a.pageSizeCap == PageSizeCap(d.minPageSz)
  {
    DevLimSpec(l, queryErr, d);
  }

  // ---------------------------------------------------------------------
  // create_cq

  /**
   * The validation of hgrnic_create_cq and the ring size it asks for: no
   * flags, between 1 and max_cqes entries, and then the power of two at or
   * above entries + 1 (None stands for -EINVAL).
   */
  function CqRingSize(flags: int, entries: int, maxCqes: int): (r: Option<nat>)
  {
    if flags != 0 then None
    else if entries < 1 || entries > maxCqes then None
    else Some(RoundUpPow2(entries + 1))
  }

  /**
   * A ring is refused exactly for flags or a size out of range; an accepted
   * one is the least power of two with room for the entries asked for plus
   * the spare one the hardware needs.
   */
  lemma CqRingSizeSpec(flags: int, entries: int, maxCqes: int)
    ensures CqRingSize(flags, entries, maxCqes).Some? <==> flags == 0 && 1 <= entries <= maxCqes
    ensures CqRingSize(flags, entries, maxCqes).Some? ==>
      var n := CqRingSize(flags, entries, maxCqes).value;
      IsPow2(n) && entries < n <= 2 * entries
      && forall k: nat :: Pow2(k) > entries ==> n <= Pow2(k)
  {
    if flags == 0 && 1 <= entries <= maxCqes {
      forall k: nat | Pow2(k) > entries
        ensures RoundUpPow2(entries + 1) <= Pow2(k)
      {
        RoundUpPow2Least(entries + 1, k);
      }
      PowerOfTwoAbove(RoundUpPow2(entries + 1), entries);
    }
  }

  /** A power of two below 2 * (e + 1) and above e is at most 2 * e, for e >= 1. */
  lemma PowerOfTwoAbove(n: nat, e: nat)
    requires IsPow2(n) && e >= 1 && e < n < 2 * (e + 1)
    ensures n <= 2 * e
  {
    assert n % 2 == 0;
  }

  /**
   * With a power-of-two device CQ size, every request create_cq accepts
   * under the limits dev_lim derived (max_cqes = max_cq_sz - 1) gets a ring
   * the device can hold.
   */
  lemma CqRingFitsDevice(l: Limits, queryErr: int, d: CmdSpec.DevLimits, entries: int)
    requires IsPow2(d.maxCqSz)
    ensures var (err, l2) := DevLim(l, queryErr, d);
      err == 0 && CqRingSize(0, entries, l2.maxCqes).Some? ==> CqRingSize(0, entries, l2.maxCqes).value <= d.maxCqSz
  {
    DevLimSpec(l, queryErr, d);
    var (err, l2) := DevLim(l, queryErr, d);
    if err == 0 && 1 <= entries <= l2.maxCqes {
      RoundUpPow2Least(entries + 1, Log2(d.maxCqSz));
    }
  }

  /**
   * hgrnic_create_cq: the request is checked, a user queue's command is
   * copied in (inOk), the queue is made by init_cq with the ring size
   * above, and a user queue that cannot be told its number (outOk) is freed
   * again with -EFAULT.  The remaining parameters are init_cq's step
   * outcomes.
   */
  method CreateCq(alloc: NumAllocator, table: LookupArray<Cq>, flags: int, entries: int, maxCqes: int,
                  kernel: bool, inOk: bool, outOk: bool,
                  regOk: bool, bufErr: int, mailboxOk: bool, cmdErr: int, pageOk: bool)
      returns (err: int, cq: Cq?)
    requires alloc.Valid() && table.Valid() && alloc.max <= table.Capacity()
    modifies alloc, alloc.table, table.pages, table.used
    ensures alloc.Valid() && table.Valid() && alloc.max == old(alloc.max)
    ensures CqRingSize(flags, entries, maxCqes).None? ==>
      err == -EINVAL && alloc.Bits() == old(alloc.Bits()) && table.pages[..] == old(table.pages[..])
    ensures CqRingSize(flags, entries, maxCqes).Some? && !kernel && !inOk ==>
      err == -EFAULT && alloc.Bits() == old(alloc.Bits()) && table.pages[..] == old(table.pages[..])
    ensures err == 0 <==> cq != null
    ensures CqRingSize(flags, entries, maxCqes).Some? && (kernel || inOk) ==>
      var k := ChosenBit(old(alloc.Bits()), old(alloc.last));
      var obj := AllocStep(old(alloc.Bits()), old(alloc.last), old(alloc.top), old(alloc.mask)).obj;
      if k == alloc.max then
        err == -ENOMEM && alloc.Bits() == old(alloc.Bits()) && table.pages[..] == old(table.pages[..])
      else if obj == U32_ALL_ONES then
        err == -ENOMEM && alloc.Bits() == old(alloc.Bits())[k := true] && table.pages[..] == old(table.pages[..])
      else
        var initErr := InitCqErr(InitSteps(regOk, bufErr, mailboxOk, cmdErr,
                                           old(table.pages[k / ARRAY_SLOTS]).Some? || pageOk), kernel);
        k < alloc.max && k < table.Capacity()
        && (initErr != 0 ==>
              err == initErr && alloc.Bits() == old(alloc.Bits()) && table.pages[..] == old(table.pages[..]))
        && (initErr == 0 && !kernel && !outOk ==>
              err == -EFAULT && alloc.Bits() == old(alloc.Bits()) && LookupIn(table.pages[..], k) == None
              && forall j :: 0 <= j < table.Capacity() && j != k ==>
                   LookupIn(table.pages[..], j) == LookupIn(old(table.pages[..]), j))
        && (initErr == 0 && (kernel || outOk) ==>
              err == 0 && cq.cqn == obj && k == BitAnd(cq.cqn, alloc.max - 1)
              && fresh(cq) && cq.Initial(cq.cqn, CqRingSize(flags, entries, maxCqes).value, kernel)
              && alloc.Bits() == old(alloc.Bits())[k := true]
              && table.pages[..] == StoreIn<Cq>(old(table.pages[..]), k, cq))
  {
    cq := null;
    var nent := CqRingSize(flags, entries, maxCqes);
    if nent.None? {
      return -EINVAL, null;
    }
    if !kernel && !inOk {
      return -EFAULT, null;
    }
    ghost var bits0, pages0, used0 := alloc.Bits(), table.pages[..], table.used[..];
    ghost var k := ChosenBit(bits0, alloc.last);
    ChosenBitIsFree(bits0, alloc.last);
    var c;
    err, c := InitCq(alloc, table, nent.value, kernel, regOk, bufErr, mailboxOk, cmdErr, pageOk);
    if err != 0 {
      return err, null;
    }
    assert k < alloc.max && c.cqn % alloc.max == k;
    assert alloc.Bits() == bits0[k := true];
    assert table.pages[..] == StoreIn<Cq>(pages0, k, c);
    assert table.used[..] == used0[k / ARRAY_SLOTS := used0[k / ARRAY_SLOTS] + 1];
    if !kernel && !outOk {
      DropNewCq(c, alloc, table, k, bits0, pages0, used0);
      return -EFAULT, null;
    }
    AndLowMask(c.cqn, Log2(alloc.max));
    cq := c;
  }

  /**
   * The -EFAULT path of create_cq: the queue init_cq has just made is freed
   * again, which gives its number back and empties its slot; the table
   * reads as before everywhere else.
   */
  method DropNewCq(c: Cq, alloc: NumAllocator, table: LookupArray<Cq>,
                   ghost k: nat, ghost bits0: seq<bool>, ghost pages0: seq<Page<Cq>>, ghost used0: seq<int>)
    requires alloc.Valid() && table.Valid() && alloc.max <= table.Capacity() && c.cqn < U32
    requires k < alloc.max == |bits0| && c.cqn % alloc.max == k && !bits0[k] && alloc.Bits() == bits0[k := true]
    requires PagesOk(pages0) && |pages0| == |used0| == table.pages.Length
    requires forall p :: 0 <= p < |pages0| ==> (pages0[p].Some? <==> used0[p] > 0)
    requires table.pages[..] == StoreIn(pages0, k, c)
    requires table.used[..] == used0[k / ARRAY_SLOTS := used0[k / ARRAY_SLOTS] + 1]
    modifies c, alloc, alloc.table, table.pages, table.used
    ensures alloc.Valid() && table.Valid() && alloc.max == old(alloc.max) && alloc.mask == old(alloc.mask)
    ensures alloc.Bits() == bits0 && LookupIn(table.pages[..], k) == None
    ensures forall j :: 0 <= j < table.Capacity() && j != k ==> LookupIn(table.pages[..], j) == LookupIn(pages0, j)
  {
    PageHeld(table, k);
    var freed := FreeCq(c, alloc, table);
    assert alloc.Bits() == bits0;
    StoreThenClear(pages0, used0, k, c);
  }

  /** A page that holds a stored value is in use. */
  lemma PageHeld<V>(table: LookupArray<V>, index: nat)
    requires table.Valid() && index < table.Capacity()
    requires table.pages[index / ARRAY_SLOTS].Some?
    ensures table.used[index / ARRAY_SLOTS] > 0
  {
    PageBound(index, table.pages.Length);
  }

  // ---------------------------------------------------------------------
  // CQ resize

  /**
   * hgrnic_alloc_resize_buf: -EBUSY while another resize is pending, and
   * -ENOMEM when the resize record cannot be had.  The record starts in
   * state ALLOC; when its ring cannot be allocated it is dropped again and
   * the ring's error returned, otherwise it holds a ring of `entries`
   * hardware-owned entries with mask entries - 1 and moves to READY.
   */
  method AllocResizeBuf(cq: Cq, entries: nat, kmallocOk: bool, bufErr: int) returns (ret: int)
    requires cq.Valid() && IsPow2(entries)
    modifies cq
    ensures cq.Valid() && cq.buf == old(cq.buf) && cq.cqe == old(cq.cqe) && cq.consIndex == old(cq.consIndex)
    ensures old(cq.resize) != null ==> ret == -EBUSY && cq.resize == old(cq.resize)
    ensures old(cq.resize) == null && !kmallocOk ==> ret == -ENOMEM && cq.resize == null
    ensures old(cq.resize) == null && kmallocOk ==> ret == bufErr
    ensures ret == 0 <==> old(cq.resize) == null && kmallocOk && bufErr == 0
    ensures old(cq.resize) == null && ret != 0 ==> cq.resize == null
    ensures ret == 0 ==>
      cq.resize != null && fresh(cq.resize) && fresh(cq.resize.buf) && cq.resize.state == ResizeReady
      && cq.resize.buf.Length == entries && cq.resize.cqe == entries - 1
      && forall j :: 0 <= j < entries ==> !SwOwned(cq.resize.buf[j])
  {
    if cq.resize != null {
      return -EBUSY;
    }
    if !kmallocOk {
      return -ENOMEM;
    }
    var none := new Cqe[0];
    var r := new CqResize(none, 0, ResizeAlloc);
    cq.resize := r;
    var ring;
    ret, ring := AllocCqBuf(entries, bufErr);
    if ret != 0 {
      cq.resize := null;
      return ret;
    }
    r.buf, r.cqe := ring, entries - 1;
    r.state := ResizeReady;
  }

  /**
   * The first half of hgrnic_resize_cq, up to and including the RESIZE_CQ
   * command.  A size out of range gives -EINVAL and one whose ring is the
   * current size gives 0, both changing nothing.  A kernel queue then gets a
   * resize buffer (AllocResizeBuf), a user queue's command is copied in
   * (udataOk, else -EFAULT); a failing command (cmdErr) drops the resize
   * buffer.  On success a kernel queue is left with a READY resize buffer,
   * which ResizeCqFinish installs; a user queue takes its new size at once.
   */
  method ResizeCqStart(cq: Cq, entries: int, maxCqes: int, kmallocOk: bool, bufErr: int,
                       udataOk: bool, cmdErr: int) returns (ret: int)
    requires cq.Valid()
    modifies cq
    ensures cq.Valid() && cq.consIndex == old(cq.consIndex)
    ensures entries < 1 || entries > maxCqes ==>
      (ret == -EINVAL && cq.resize == old(cq.resize) && cq.buf == old(cq.buf) && cq.cqe == old(cq.cqe))
    ensures 1 <= entries <= maxCqes && RoundUpPow2(entries + 1) == old(cq.cqe) + 1 ==>
      ret == 0 && cq.resize == old(cq.resize) && cq.buf == old(cq.buf) && cq.cqe == old(cq.cqe)
    ensures cq.isKernel ==> cq.buf == old(cq.buf) && cq.cqe == old(cq.cqe)
    ensures (cq.isKernel && old(cq.resize) != null && 1 <= entries <= maxCqes
             && RoundUpPow2(entries + 1) != old(cq.cqe) + 1) ==>
      (ret == -EBUSY && cq.resize == old(cq.resize))
    ensures (1 <= entries <= maxCqes && RoundUpPow2(entries + 1) != old(cq.cqe) + 1
             && (!cq.isKernel || old(cq.resize) == null)) ==>
      var ok := if cq.isKernel then kmallocOk && bufErr == 0 else udataOk;
      (ok ==> ret == cmdErr)
      && (ret == 0 <==> ok && cmdErr == 0)
      && (ret != 0 && ok ==> cq.resize == null)
      && (!ok ==> ret == (if cq.isKernel then (if kmallocOk then bufErr else -ENOMEM) else -EFAULT)
                  && cq.resize == old(cq.resize))
      && (ret == 0 && cq.isKernel ==>
            cq.resize != null && fresh(cq.resize) && cq.resize.state == ResizeReady
            && cq.resize.buf.Length == RoundUpPow2(entries + 1)
            && forall j :: 0 <= j < cq.resize.buf.Length ==> !SwOwned(cq.resize.buf[j]))
      && (ret == 0 && !cq.isKernel ==> cq.cqe == RoundUpPow2(entries + 1) - 1 && cq.resize == old(cq.resize))
  {
    if entries < 1 || entries > maxCqes {
      return -EINVAL;
    }
    var nent := RoundUpPow2(entries + 1);
    if nent == cq.cqe + 1 {
      return 0;
    }
    if cq.isKernel {
      ret := AllocResizeBuf(cq, nent, kmallocOk, bufErr);
      if ret != 0 {
        return;
      }
    } else if !udataOk {
      return -EFAULT;
    }
    if cmdErr != 0 {
      if cq.resize != null {
        cq.resize := null;
      }
      return cmdErr;
    }
    if !cq.isKernel {
      // the new ring lives in user memory; an empty stand-in of its size
      cq.buf := new Cqe[nent](_ => Cqe(0, 0, 0, 0, 0, 0, 0, 0, 0, 0, OWNER_HW));
      cq.cqe := nent - 1;
    }
    ret := 0;
  }

  /**
   * The second half of hgrnic_resize_cq on a kernel queue, once the device
   * uses the new ring.  When poll_cq has not yet moved to it (READY), the
   * software-owned entries from cons_index on are copied to the new ring at
   * the same indices and the new ring becomes the queue's; when it has
   * (SWAPPED) the queue already polls the new ring and the old one, now in
   * the resize record, is dropped.  Either way no resize is pending after.
   * The copy stops at the first hardware-owned entry, which the caller must
   * guarantee exists in the old ring (else the copy would never end).
   */
  method ResizeCqFinish(cq: Cq)
    requires cq.Valid() && cq.resize != null && cq.resize.state != ResizeAlloc
    requires cq.resize.state == ResizeReady ==>
      exists k :: 0 <= k < cq.buf.Length && !SwOwned(At(cq.buf[..], cq.consIndex, k))
    modifies cq, cq.resize.buf
    ensures cq.Valid() && cq.resize == null && cq.consIndex == old(cq.consIndex)
    ensures old(cq.resize.state) == ResizeSwapped ==>
      cq.buf == old(cq.buf) && cq.cqe == old(cq.cqe) && cq.buf[..] == old(cq.buf[..])
    ensures old(cq.resize.state) == ResizeReady ==>
      cq.buf == old(cq.resize.buf) && cq.cqe == old(cq.resize.cqe)
      && var n := Produced(old(cq.buf[..]), cq.consIndex, 0, old(cq.buf.Length) - 1);
      cq.buf[..] == CopyInto(old(cq.resize.buf[..]), old(cq.buf[..]), cq.consIndex, n)
      && !SwOwned(At(old(cq.buf[..]), cq.consIndex, n))
  {
    var rs := cq.resize;
    if rs.state == ResizeReady {
      var copied := CopyCqes(cq.buf, rs.buf, cq.consIndex);
      cq.buf, cq.cqe := rs.buf, rs.cqe;
    }
    cq.resize := null;
  }

  // ---------------------------------------------------------------------
  // reg_user_mr: MTT writes in batches

  /** write_mtt_size: min(hgrnic_write_mtt_size, PAGE_SIZE / sizeof(u64)), both 512. */
  const WRITE_MTT_SIZE: nat := 512

  /** One hgrnic_write_mtt call: MTT index start, count entries. */
  datatype Batch = Batch(start: nat, count: nat)

  /** The number of write_mtt calls for npages pages. */
  function NumBatches(npages: nat): nat
  {
    (npages + WRITE_MTT_SIZE - 1) / WRITE_MTT_SIZE
  }

  /** The k-th write_mtt call: a full batch, or what is left for the last one. */
  function BatchAt(first: nat, npages: nat, k: nat): (b: Batch)
    requires k < NumBatches(npages)
  {
    var done := k * WRITE_MTT_SIZE;
    Batch(first + done, if npages - done < WRITE_MTT_SIZE then npages - done else WRITE_MTT_SIZE)
  }

  /**
   * The batches cover the region's pages exactly and in order: each holds
   * between 1 and write_mtt_size entries, each starts where the previous one
   * ended, the first at the region's first MTT index and the last ending
   * npages after it, and page p is written by batch p / write_mtt_size.
   */
  lemma BatchesCover(first: nat, npages: nat)
    ensures NumBatches(npages) == 0 <==> npages == 0
    ensures forall k :: 0 <= k < NumBatches(npages) ==> 1 <= BatchAt(first, npages, k).count <= WRITE_MTT_SIZE
    ensures NumBatches(npages) > 0 ==> BatchAt(first, npages, 0).start == first
    ensures forall k :: 0 <= k < NumBatches(npages) - 1 ==>
      BatchAt(first, npages, k + 1).start == BatchAt(first, npages, k).start + BatchAt(first, npages, k).count
    ensures NumBatches(npages) > 0 ==>
      var b := BatchAt(first, npages, NumBatches(npages) - 1); b.start + b.count == first + npages
    ensures forall p :: 0 <= p < npages ==>
      p / WRITE_MTT_SIZE < NumBatches(npages)
      && var b := BatchAt(first, npages, p / WRITE_MTT_SIZE); b.start <= first + p < b.start + b.count
  {
    var nb := NumBatches(npages);
    forall k | 0 <= k < nb
      ensures k * WRITE_MTT_SIZE < npages
    {
      BatchStartInside(npages, k);
    }
    if nb > 0 {
      LastBatchEnds(npages);
    }
    forall p | 0 <= p < npages
      ensures p / WRITE_MTT_SIZE < nb
      ensures p / WRITE_MTT_SIZE * WRITE_MTT_SIZE <= p < p / WRITE_MTT_SIZE * WRITE_MTT_SIZE + WRITE_MTT_SIZE
    {
      PageBatch(npages, p);
    }
  }

  lemma BatchStartInside(npages: nat, k: nat)
    requires k < NumBatches(npages)
    ensures k * WRITE_MTT_SIZE < npages
  {
    var q := (npages + WRITE_MTT_SIZE - 1) / WRITE_MTT_SIZE;
    assert (k + 1) * WRITE_MTT_SIZE <= q * WRITE_MTT_SIZE by {
      MulMonotone(q, k + 1, WRITE_MTT_SIZE);
    }
  }

  lemma LastBatchEnds(npages: nat)
    requires NumBatches(npages) > 0
    ensures npages - (NumBatches(npages) - 1) * WRITE_MTT_SIZE <= WRITE_MTT_SIZE
  {
  }

  lemma PageBatch(npages: nat, p: nat)
    requires p < npages
    ensures p / WRITE_MTT_SIZE < NumBatches(npages)
    ensures p / WRITE_MTT_SIZE * WRITE_MTT_SIZE <= p < p / WRITE_MTT_SIZE * WRITE_MTT_SIZE + WRITE_MTT_SIZE
  {
  }

  /**
   * The page loop of hgrnic_reg_user_mr: pages are gathered one at a time
   * and handed to write_mtt whenever write_mtt_size of them are pending,
   * the start index moving on by the batch written; what remains at the
   * end goes in one last call.  writeErr(k) is the outcome of the k-th
   * call; the first failure ends the loop.  The calls made are exactly the
   * first batches of BatchAt, all of them when every call succeeds.
   */
  method WriteMttBatches(first: nat, npages: nat, writeErr: nat -> int) returns (err: int, written: seq<Batch>)
    ensures |written| <= NumBatches(npages)
    ensures forall k :: 0 <= k < |written| ==> written[k] == BatchAt(first, npages, k)
    ensures forall k :: 0 <= k < |written| - 1 ==> writeErr(k) == 0
    ensures err == 0 ==> |written| == NumBatches(npages) && forall k :: 0 <= k < |written| ==> writeErr(k) == 0
    ensures err != 0 ==> |written| > 0 && err == writeErr(|written| - 1)
  {
    written := [];
    var n := first;
    var i := 0;
    var j := 0;
    while j < npages
      invariant 0 <= i < WRITE_MTT_SIZE && j <= npages
      invariant j == |written| * WRITE_MTT_SIZE + i && n + i == first + j
      invariant |written| <= NumBatches(npages) && written == BatchesUpTo(first, npages, |written|)
      invariant forall k :: 0 <= k < |written| ==> writeErr(k) == 0
    {
      i, j := i + 1, j + 1;
      if i == WRITE_MTT_SIZE {
        var e := writeErr(|written|);
        assert |written| < NumBatches(npages) && Batch(n, i) == BatchAt(first, npages, |written|) by {
          FullBatch(npages, |written|, j);
        }
        written := written + [Batch(n, i)];
        if e != 0 {
          BatchesUpToAt(first, npages, |written|);
          return e, written;
        }
        n, i := n + i, 0;
      }
    }
    if i != 0 {
      assert |written| < NumBatches(npages) && Batch(n, i) == BatchAt(first, npages, |written|) by {
        RestBatch(npages, |written|, i);
      }
      written := written + [Batch(n, i)];
      err := writeErr(|written| - 1);
    } else {
      assert |written| == NumBatches(npages) by {
        ExactBatches(npages, |written|);
      }
      err := 0;
    }
    BatchesUpToAt(first, npages, |written|);
  }

  /** The first n write_mtt calls, in order. */
  function BatchesUpTo(first: nat, npages: nat, n: nat): (bs: seq<Batch>)
    requires n <= NumBatches(npages)
    ensures |bs| == n
  {
    if n == 0 then [] else BatchesUpTo(first, npages, n - 1) + [BatchAt(first, npages, n - 1)]
  }

  lemma {:induction false} BatchesUpToAt(first: nat, npages: nat, n: nat)
    requires n <= NumBatches(npages)
    ensures forall k :: 0 <= k < n ==> BatchesUpTo(first, npages, n)[k] == BatchAt(first, npages, k)
  {
    if n > 0 {
      BatchesUpToAt(first, npages, n - 1);
    }
  }

  lemma FullBatch(npages: nat, b: nat, j: nat)
    requires j == b * WRITE_MTT_SIZE + WRITE_MTT_SIZE && j <= npages
    ensures b < NumBatches(npages) && npages - b * WRITE_MTT_SIZE >= WRITE_MTT_SIZE
  {
    DivModUnique(j, WRITE_MTT_SIZE, b + 1, 0);
    assert b + 1 <= NumBatches(npages) by {
      DivMonotone(j, npages + WRITE_MTT_SIZE - 1, WRITE_MTT_SIZE);
    }
  }

  lemma RestBatch(npages: nat, b: nat, i: nat)
    requires 0 < i < WRITE_MTT_SIZE && npages == b * WRITE_MTT_SIZE + i
    ensures b < NumBatches(npages) && npages - b * WRITE_MTT_SIZE == i
  {
    DivModUnique(npages + WRITE_MTT_SIZE - 1, WRITE_MTT_SIZE, b + 1, i - 1);
  }

  lemma ExactBatches(npages: nat, b: nat)
    requires npages == b * WRITE_MTT_SIZE
    ensures NumBatches(npages) == b
  {
    if npages > 0 {
      DivModUnique(npages + WRITE_MTT_SIZE - 1, WRITE_MTT_SIZE, b, WRITE_MTT_SIZE - 1);
    }
  }

  lemma DivMonotone(x: nat, y: nat, d: nat)
    requires x <= y && d > 0
    ensures x / d <= y / d
  {
    if x / d > y / d {
      MulMonotone(x / d, y / d + 1, d);
    }
  }
}
