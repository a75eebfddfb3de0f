/**
 * The life of a kernel queue pair (hgrnic_qp.c): the QP table made at
 * start-up, creation with the rollback of its allocations, the state
 * changes of modify_qp, and destruction.  The descriptor work of posting
 * is in QueuePair; the ring indices are Wq.Qp, which is also what the
 * completion path looks up in the QP table.
 */
module QpLife {
  import opened Common
  import opened Trace
  import opened Wq
  import opened CqSpec
  import opened Allocator
  import opened QpSpec
  import QueuePair
  import Cq
  import Device

  // The bits of enum ib_qp_attr_mask (rdma/ib_verbs.h) that modify_qp reads.
  const IB_QP_STATE: nat := 0x1
  const IB_QP_CUR_STATE: nat := 0x2
  const IB_QP_PORT: nat := 0x20
  const IB_QP_PATH_MTU: nat := 0x100
  const IB_QP_RQ_PSN: nat := 0x1000
  const IB_QP_MIN_RNR_TIMER: nat := 0x8000
  const IB_QP_SQ_PSN: nat := 0x1_0000
  const IB_QP_DEST_QPN: nat := 0x10_0000

  // enum ib_mtu: the path MTUs from 256 to 4096 bytes are 1 to 5.
  const IB_MTU_256: int := 1
  const IB_MTU_4096: int := 5

  // enum ib_qp_type: the QP types alloc_qp accepts.
  const IB_QPT_RC: int := 2
  const IB_QPT_UC: int := 3
  const IB_QPT_UD: int := 4

  /** attr_mask & bit. */
  predicate Has(mask: nat, bit: nat)
  {
    BitAnd(mask, bit) != 0
  }

  /** The fields of struct ib_qp_attr that modify_qp reads; port_num and min_rnr_timer are u8. */
  datatype QpAttr = QpAttr(qpState: int, curQpState: int, pathMtu: int, destQpNum: nat,
                           portNum: nat, sqPsn: nat, minRnrTimer: nat, rqPsn: nat)

  // ---------------------------------------------------------------------
  // The context words modify_qp composes

  /** (mtu << 5) | msgmax: the u8 mtu_msgmax, a path MTU over a five-bit message-size log. */
  function MtuMsgmax(mtu: nat, msgmax: nat): nat
    requires msgmax < 32
  {
    BitOr(Shl(mtu, 5), msgmax)
  }

  /** The two fields of mtu_msgmax read back, and every valid MTU fits the u8. */
  lemma MtuMsgmaxFields(mtu: nat, msgmax: nat)
    requires msgmax < 32
    ensures MtuMsgmax(mtu, msgmax) == mtu * 32 + msgmax
    ensures MtuMsgmax(mtu, msgmax) / 32 == mtu && MtuMsgmax(mtu, msgmax) % 32 == msgmax
    ensures mtu < 8 ==> MtuMsgmax(mtu, msgmax) < 256
  {
    assert Pow2(5) == 32;
    OrDisjointAdd(msgmax, Shl(mtu, 5), 5);
    BitOrComm(msgmax, Shl(mtu, 5));
    DivModUnique(mtu * 32 + msgmax, 32, mtu, msgmax);
  }

  /**
   * The rnr_nextrecvpsn word of the QP context: the cached min_rnr_timer
   * OR-ed with the expected receive PSN.
   */
  function RnrWord(minRnrTimer: nat, epsn: nat): nat
  {
    BitOr(minRnrTimer, epsn)
  }

  /**
   * min_rnr_timer as __hgrnic_modify_qp caches it: attr.min_rnr_timer << 24
   * stored into the u8 min_rnr_timer of struct hgrnic_qp, which keeps only
   * the low eight bits.
   */
  function MinRnrTimerAsWritten(t: nat): nat
  {
    Shl(t, 24) % 256
  }

  /** The evidently intended cache: the shifted timer kept whole, a u32 like port_num. */
  function MinRnrTimer(t: nat): nat
    requires t < 256
  {
    Shl(t, 24)
  }

  lemma Pow2TwentyFour()
    ensures Pow2(24) == 0x100_0000
  {
    Pow2Sixteen();
    assert Pow2(8) == 256;
    Pow2Add(16, 8);
  }

  /**
   * As written the timer never reaches the device: whatever timer is asked
   * for, the cached value is 0 and the context word is the PSN alone.
   */
  lemma RnrTimerLost(t: nat, epsn: nat)
    ensures MinRnrTimerAsWritten(t) == 0
    ensures RnrWord(MinRnrTimerAsWritten(t), epsn) == epsn
  {
    Pow2TwentyFour();
    DivModUnique(t * 0x100_0000, 256, t * 0x1_0000, 0);
  }

  /**
   * With the timer kept, the context word carries it in bits 31:24 above a
   * 24-bit PSN, and both read back.
   */
  lemma RnrWordFields(t: nat, epsn: nat)
    requires t < 256 && epsn < 0x100_0000
    ensures RnrWord(MinRnrTimer(t), epsn) == t * 0x100_0000 + epsn < U32
    ensures RnrWord(MinRnrTimer(t), epsn) / 0x100_0000 == t
    ensures RnrWord(MinRnrTimer(t), epsn) % 0x100_0000 == epsn
  {
    Pow2TwentyFour();
    DivModUnique(t * 0x100_0000, 0x100_0000, t, 0);
    OrDisjointAdd(epsn, Shl(t, 24), 24);
    BitOrComm(epsn, Shl(t, 24));
    DivModUnique(t * 0x100_0000 + epsn, 0x100_0000, t, epsn);
  }

  // ---------------------------------------------------------------------
  // modify_qp

  /** The attributes struct hgrnic_qp keeps between modify_qp calls and copies into every context. */
  datatype QpCache = QpCache(mtuMsgmax: nat, remoteQpn: nat, portNum: nat, psn: nat, minRnrTimer: nat, epsn: nat)

  /**
   * The path-MTU check of __hgrnic_modify_qp: a QP other than UD that sets
   * IB_QP_PATH_MTU must ask for 256 to 4096 bytes.
   */
  predicate MtuRejected(t: Transport, attr: QpAttr, mask: nat)
  {
    t != UD && Has(mask, IB_QP_PATH_MTU) && !(IB_MTU_256 <= attr.pathMtu <= IB_MTU_4096)
  }

  /**
   * The cached attributes after __hgrnic_modify_qp got past its checks: a UD
   * QP always takes MTU 4096 with message log 11, another one the path MTU
   * asked for with log 31; every other attribute whose bit is set replaces
   * the cached one (the port and the RNR timer shifted to bits 31:24).
   */
  function Cache(c: QpCache, t: Transport, attr: QpAttr, mask: nat): QpCache
    requires !MtuRejected(t, attr, mask) && attr.minRnrTimer < 256
  {
    c.(mtuMsgmax := if t == UD then MtuMsgmax(IB_MTU_4096, 11)
                    else if Has(mask, IB_QP_PATH_MTU) then MtuMsgmax(attr.pathMtu, 31)
                    else c.mtuMsgmax,
       remoteQpn := if Has(mask, IB_QP_DEST_QPN) then attr.destQpNum else c.remoteQpn,
       portNum := if Has(mask, IB_QP_PORT) then Shl(attr.portNum, 24) else c.portNum,
       psn := if Has(mask, IB_QP_SQ_PSN) then attr.sqPsn else c.psn,
       minRnrTimer := if Has(mask, IB_QP_MIN_RNR_TIMER) then MinRnrTimer(attr.minRnrTimer) else c.minRnrTimer,
       epsn := if Has(mask, IB_QP_RQ_PSN) then attr.rqPsn else c.epsn)
  }

  /**
   * What the cache then holds, field by field: the MTU word reads back as
   * 4096/11 for UD and as the requested MTU with log 31 otherwise, the
   * port and the timer read back from bits 31:24, and an attribute whose
   * bit is clear keeps its cached value.
   */
  lemma CacheFields(c: QpCache, t: Transport, attr: QpAttr, mask: nat)
    requires !MtuRejected(t, attr, mask) && attr.minRnrTimer < 256 && attr.portNum < 256
    ensures var r := Cache(c, t, attr, mask);
      (t == UD ==> r.mtuMsgmax / 32 == IB_MTU_4096 && r.mtuMsgmax % 32 == 11)
      && (t != UD && Has(mask, IB_QP_PATH_MTU) ==>
            r.mtuMsgmax / 32 == attr.pathMtu && r.mtuMsgmax % 32 == 31 && r.mtuMsgmax < 256)
      && (t != UD && !Has(mask, IB_QP_PATH_MTU) ==> r.mtuMsgmax == c.mtuMsgmax)
      && (Has(mask, IB_QP_PORT) ==> r.portNum / 0x100_0000 == attr.portNum && r.portNum < U32)
      && (Has(mask, IB_QP_MIN_RNR_TIMER) ==> r.minRnrTimer / 0x100_0000 == attr.minRnrTimer)
      && r.remoteQpn == (if Has(mask, IB_QP_DEST_QPN) then attr.destQpNum else c.remoteQpn)
      && r.psn == (if Has(mask, IB_QP_SQ_PSN) then attr.sqPsn else c.psn)
      && r.epsn == (if Has(mask, IB_QP_RQ_PSN) then attr.rqPsn else c.epsn)
  {
    if t == UD {
      MtuMsgmaxFields(IB_MTU_4096, 11);
    } else if Has(mask, IB_QP_PATH_MTU) {
      MtuMsgmaxFields(attr.pathMtu, 31);
    }
    RnrWordFields(attr.portNum, 0);
    RnrWordFields(attr.minRnrTimer, 0);
    BitOrZero(Shl(attr.portNum, 24));
    BitOrZero(Shl(attr.minRnrTimer, 24));
  }

  lemma BitOrZero(x: nat)
    ensures BitOr(x, 0) == x
  {
  }

  /** The states a modify_qp call moves between. */
  function CurState(state: int, attr: QpAttr, mask: nat): int
  {
    if Has(mask, IB_QP_CUR_STATE) then attr.curQpState else state
  }

  function NewState(cur: int, attr: QpAttr, mask: nat): int
  {
    if Has(mask, IB_QP_STATE) then attr.qpState else cur
  }

  /** A port attribute outside 1 .. num_ports. */
  predicate BadPort(attr: QpAttr, mask: nat, numPorts: nat)
  {
    Has(mask, IB_QP_PORT) && (attr.portNum == 0 || attr.portNum > numPorts)
  }

  /** The outcome of hgrnic_modify_qp's checks. */
  datatype Precheck = Reject | Unchanged | Proceed(cur: int, next: int)

  /**
   * The checks of hgrnic_modify_qp: the current state is the attribute's
   * when IB_QP_CUR_STATE is set and the QP's otherwise, the new state the
   * attribute's when IB_QP_STATE is set and the current one otherwise.
   * A transition ib_modify_qp_is_ok refuses (`transitionOk`) or a bad port
   * is rejected; RESET to RESET needs no command.
   */
  function ModifyPrecheck(state: int, attr: QpAttr, mask: nat, numPorts: nat,
                          transitionOk: (int, int) -> bool): Precheck
  {
    var cur := CurState(state, attr, mask);
    var next := NewState(cur, attr, mask);
    if !transitionOk(cur, next) || BadPort(attr, mask, numPorts) then Reject
    else if cur == next && cur == IB_QPS_RESET then Unchanged
    else Proceed(cur, next)
  }

  /**
   * The three outcomes in terms of the request: rejected exactly when the
   * transition is refused or the port is out of range; nothing to do
   * exactly for an accepted RESET to RESET; otherwise the command runs for
   * the two states, and a request that names neither state keeps the QP's.
   */
  lemma ModifyPrecheckCases(state: int, attr: QpAttr, mask: nat, numPorts: nat, transitionOk: (int, int) -> bool)
    ensures var cur := CurState(state, attr, mask);
      var next := NewState(cur, attr, mask);
      var p := ModifyPrecheck(state, attr, mask, numPorts, transitionOk);
      (p.Reject? <==> !transitionOk(cur, next) || BadPort(attr, mask, numPorts))
      && (p.Unchanged? <==> transitionOk(cur, next) && !BadPort(attr, mask, numPorts)
                            && cur == IB_QPS_RESET && next == IB_QPS_RESET)
      && (p.Proceed? ==> p.cur == cur && p.next == next && !(cur == IB_QPS_RESET && next == IB_QPS_RESET))
      && (!Has(mask, IB_QP_STATE) && !Has(mask, IB_QP_CUR_STATE) ==> cur == state && next == state)
  {
  }

  /**
   * The value __hgrnic_modify_qp returns: -ENOMEM without a mailbox, -EINVAL
   * for a bad path MTU, otherwise MODIFY_QP's status.
   */
  function ModifyErr(t: Transport, attr: QpAttr, mask: nat, mailboxOk: bool, cmdErr: int): int
  {
    if !mailboxOk then -ENOMEM
    else if MtuRejected(t, attr, mask) then -EINVAL
    else cmdErr
  }

  /**
   * The value hgrnic_modify_qp returns: -EINVAL when the checks reject the
   * request, 0 for RESET to RESET, otherwise __hgrnic_modify_qp's.
   */
  function ModifyQpErr(state: int, attr: QpAttr, mask: nat, numPorts: nat, transitionOk: (int, int) -> bool,
                       t: Transport, mailboxOk: bool, cmdErr: int): int
  {
    match ModifyPrecheck(state, attr, mask, numPorts, transitionOk)
    case Reject => -EINVAL
    case Unchanged => 0
    case Proceed(_, _) => ModifyErr(t, attr, mask, mailboxOk, cmdErr)
  }

  /**
   * modify_qp succeeds exactly for RESET to RESET or when the checks, the
   * mailbox, the path MTU and the command all pass; every check of the
   * driver's own fails with -EINVAL and a missing mailbox with -ENOMEM.
   */
  lemma ModifyQpOutcome(state: int, attr: QpAttr, mask: nat, numPorts: nat, transitionOk: (int, int) -> bool,
                        t: Transport, mailboxOk: bool, cmdErr: int)
    ensures var p := ModifyPrecheck(state, attr, mask, numPorts, transitionOk);
      var err := ModifyQpErr(state, attr, mask, numPorts, transitionOk, t, mailboxOk, cmdErr);
      (err == 0 <==> p.Unchanged? || (p.Proceed? && mailboxOk && !MtuRejected(t, attr, mask) && cmdErr == 0))
      && (p.Reject? || (p.Proceed? && mailboxOk && MtuRejected(t, attr, mask)) ==> err == -EINVAL)
      && (p.Proceed? && !mailboxOk ==> err == -ENOMEM)
  {
    ModifyPrecheckCases(state, attr, mask, numPorts, transitionOk);
  }

  // ---------------------------------------------------------------------
  // The kernel QP

  /**
   * struct hgrnic_qp as creation, modify_qp and destruction see it: its
   * ring indices (queues, the part the CQ poll path looks up), transport,
   * whether it belongs to the kernel, its two CQs, reference count, state,
   * port, and the cached attributes.
   */
  class KernelQp {
    const queues: Qp
    const transport: Transport
    const isKernel: bool
    const sendCq: Cq.Cq
    const recvCq: Cq.Cq
    var refcount: int
    var state: int
    var port: nat
    var cache: QpCache

    /** Both CQs are well formed; two different CQs have different rings. */
    ghost predicate Valid()
      reads this, sendCq, recvCq, sendCq.resize, recvCq.resize
    {
      sendCq.Valid() && recvCq.Valid() && (sendCq != recvCq ==> sendCq.buf != recvCq.buf)
    }

    /** The QP alloc_qp fills in: one reference, RESET, no port, nothing cached (kzalloc). */
    constructor (q: Qp, t: Transport, kernel: bool, scq: Cq.Cq, rcq: Cq.Cq)
      ensures queues == q && transport == t && isKernel == kernel && sendCq == scq && recvCq == rcq
      ensures refcount == 1 && state == IB_QPS_RESET && port == 0 && cache == QpCache(0, 0, 0, 0, 0, 0)
    {
      queues, transport, isKernel, sendCq, recvCq := q, t, kernel, scq, rcq;
      refcount, state, port, cache := 1, IB_QPS_RESET, 0, QpCache(0, 0, 0, 0, 0, 0);
    }

    /**
     * The completions of this QP are removed from its receive CQ and, when
     * the send CQ is another one, from that too (hgrnic_cq_clean twice).
     */
    method CleanCqs()
      requires Valid()
      modifies recvCq, recvCq.buf, sendCq, sendCq.buf
      ensures Valid() && recvCq.buf == old(recvCq.buf) && sendCq.buf == old(sendCq.buf)
      ensures Cleans(old(recvCq.buf[..]), old(recvCq.consIndex), recvCq.buf[..], recvCq.consIndex, queues.qpn)
      ensures sendCq != recvCq ==>
        Cleans(old(sendCq.buf[..]), old(sendCq.consIndex), sendCq.buf[..], sendCq.consIndex, queues.qpn)
    {
      recvCq.CleanQp(queues.qpn);
      if sendCq != recvCq {
        sendCq.CleanQp(queues.qpn);
      }
    }

    /**
     * What __hgrnic_modify_qp does to a QP moving to `next`.  Without a
     * mailbox or with a bad path MTU nothing changes.  Otherwise the
     * attributes are cached before MODIFY_QP runs, so they stay changed when
     * it fails; only its success moves the state and, with IB_QP_PORT, the
     * port; and a kernel QP moved to RESET loses its completions and has
     * both queues reset.
     */
    twostate predicate Modified(attr: QpAttr, mask: nat, next: int, mailboxOk: bool, cmdErr: int, err: int)
      requires attr.minRnrTimer < 256
      reads this, queues, recvCq, recvCq.buf, sendCq, sendCq.buf
    {
      var reached := mailboxOk && !MtuRejected(transport, attr, mask);
      var moved := reached && cmdErr == 0;
      err == ModifyErr(transport, attr, mask, mailboxOk, cmdErr)
      && refcount == old(refcount)
      && cache == (if reached then Cache(old(cache), transport, attr, mask) else old(cache))
      && state == (if moved then next else old(state))
      && port == (if moved && Has(mask, IB_QP_PORT) then attr.portNum else old(port))
      && if moved && next == IB_QPS_RESET && isKernel then
           queues.sq == Reset(old(queues.sq)) && queues.rq == Reset(old(queues.rq))
           && queues.maxInline == old(queues.maxInline)
           && Cleans(old(recvCq.buf[..]), old(recvCq.consIndex), recvCq.buf[..], recvCq.consIndex, queues.qpn)
           && (sendCq != recvCq ==>
                 Cleans(old(sendCq.buf[..]), old(sendCq.consIndex), sendCq.buf[..], sendCq.consIndex, queues.qpn))
         else
           unchanged(queues, recvCq, sendCq) && unchanged(recvCq.buf, sendCq.buf)
    }

    /**
     * __hgrnic_modify_qp for a move to `next`; MODIFY_QP's status is cmdErr.
     * The path-MTU test, which the source makes while it fills in the MTU
     * word, comes before any field is written, so it is made first here.
     */
    method DoModifyQp(attr: QpAttr, mask: nat, next: int, mailboxOk: bool, cmdErr: int) returns (err: int)
      requires Valid() && attr.minRnrTimer < 256
      modifies this, queues, recvCq, recvCq.buf, sendCq, sendCq.buf
      ensures Valid() && Modified(attr, mask, next, mailboxOk, cmdErr, err)
    {
      if !mailboxOk {
        return -ENOMEM;
      }
      if MtuRejected(transport, attr, mask) {
        return -EINVAL;
      }
      cache := Cache(cache, transport, attr, mask);
      if cmdErr != 0 {
        return cmdErr;
      }
      Commit(attr, mask, next);
      err := 0;
    }

    /**
     * The end of __hgrnic_modify_qp once MODIFY_QP succeeded: the new state,
     * the port when IB_QP_PORT is set, and for a kernel QP moved to RESET
     * the removal of its completions and the reset of both queues.
     */
    method Commit(attr: QpAttr, mask: nat, next: int)
      requires Valid()
      modifies this, queues, recvCq, recvCq.buf, sendCq, sendCq.buf
      ensures Valid() && refcount == old(refcount) && cache == old(cache)
      ensures state == next && port == (if Has(mask, IB_QP_PORT) then attr.portNum else old(port))
      ensures next == IB_QPS_RESET && isKernel ==>
        queues.sq == Reset(old(queues.sq)) && queues.rq == Reset(old(queues.rq))
        && queues.maxInline == old(queues.maxInline)
        && Cleans(old(recvCq.buf[..]), old(recvCq.consIndex), recvCq.buf[..], recvCq.consIndex, queues.qpn)
        && (sendCq != recvCq ==>
              Cleans(old(sendCq.buf[..]), old(sendCq.consIndex), sendCq.buf[..], sendCq.consIndex, queues.qpn))
      ensures !(next == IB_QPS_RESET && isKernel) ==>
        unchanged(queues, recvCq, sendCq) && unchanged(recvCq.buf, sendCq.buf)
    {
      state := next;
      if Has(mask, IB_QP_PORT) {
        port := attr.portNum;
      }
      if next == IB_QPS_RESET && isKernel {
        Reinit();
      }
    }

    /**
     * A kernel QP moved to RESET: its completions are removed from its CQs
     * and both queues are reset.
     */
    method Reinit()
      requires Valid()
      modifies queues, recvCq, recvCq.buf, sendCq, sendCq.buf
      ensures Valid()
      ensures queues.sq == Reset(old(queues.sq)) && queues.rq == Reset(old(queues.rq))
      ensures queues.maxInline == old(queues.maxInline)
      ensures Cleans(old(recvCq.buf[..]), old(recvCq.consIndex), recvCq.buf[..], recvCq.consIndex, queues.qpn)
      ensures sendCq != recvCq ==>
        Cleans(old(sendCq.buf[..]), old(sendCq.consIndex), sendCq.buf[..], sendCq.consIndex, queues.qpn)
    {
      CleanCqs();
      queues.sq := Reset(queues.sq);
      queues.rq := Reset(queues.rq);
    }

    /**
     * hgrnic_modify_qp: the checks of ModifyPrecheck; a rejected request
     * gives -EINVAL and RESET to RESET gives 0, neither changing anything;
     * otherwise DoModifyQp runs for the new state.
     */
    method ModifyQp(attr: QpAttr, mask: nat, numPorts: nat, transitionOk: (int, int) -> bool,
                    mailboxOk: bool, cmdErr: int) returns (err: int)
      requires Valid() && attr.minRnrTimer < 256
      modifies this, queues, recvCq, recvCq.buf, sendCq, sendCq.buf
      ensures Valid()
      ensures err == ModifyQpErr(old(state), attr, mask, numPorts, transitionOk, transport, mailboxOk, cmdErr)
      ensures var p := ModifyPrecheck(old(state), attr, mask, numPorts, transitionOk);
        (!p.Proceed? ==> unchanged(this, queues, recvCq, sendCq) && unchanged(recvCq.buf, sendCq.buf))
        && (p.Proceed? ==> Modified(attr, mask, p.next, mailboxOk, cmdErr, err))
    {
      var cur := CurState(state, attr, mask);
      var next := NewState(cur, attr, mask);
      if !transitionOk(cur, next) || BadPort(attr, mask, numPorts) {
        return -EINVAL;
      }
      if cur == next && cur == IB_QPS_RESET {
        return 0;
      }
      err := DoModifyQp(attr, mask, next, mailboxOk, cmdErr);
    }
  }

  // ---------------------------------------------------------------------
  // Creation and destruction

  /** The type switch of alloc_qp: RC, UC and UD QPs only. */
  function TransportOf(qpType: int): (t: Option<Transport>)
    ensures t.Some? <==> IB_QPT_RC <= qpType <= IB_QPT_UD
    ensures t.Some? ==> t.value != RD && t.value != RSV
  {
    if qpType == IB_QPT_RC then Some(RC)
    else if qpType == IB_QPT_UC then Some(UC)
    else if qpType == IB_QPT_UD then Some(UD)
    else None
  }

  /** What alloc_qp takes and alloc_qp_buf / free_qp give back. */
  datatype QpResource = QpContext | SqWrId | SqBuf | RqWrId | RqBuf

  /**
   * The order alloc_qp_buf takes them in: the QP context's ICM, then for
   * the send queue and then the receive queue the wr_id array and the
   * queue buffer.
   */
  const QP_ORDER: seq<QpResource> := [QpContext, SqWrId, SqBuf, RqWrId, RqBuf]

  /**
   * The outcomes of alloc_qp_buf's allocations: reg_icm (which reports only
   * -ENOMEM), and per queue the wr_id array and hgrnic_buf_alloc's status.
   */
  datatype BufOutcomes = BufOutcomes(regOk: bool, sqWrIdOk: bool, sqBufErr: int, rqWrIdOk: bool, rqBufErr: int)

  /** Every allocation of a kernel QP's queues succeeds. */
  predicate BuffersOk(o: BufOutcomes)
  {
    o.sqWrIdOk && o.sqBufErr == 0 && o.rqWrIdOk && o.rqBufErr == 0
  }

  /** Taking the first n resources and giving them back, last first. */
  function Unwound(n: nat): seq<Step<QpResource>>
    requires n <= |QP_ORDER|
  {
    AcquireFirst(QP_ORDER, n) + ReleaseFirst(QP_ORDER, n)
  }

  /**
   * hgrnic_alloc_qp_buf's status and the steps it takes.  A user QP stops
   * after the context's ICM.  A failed allocation gives back what was
   * taken, last first: alloc_wqe_buf frees its own wr_id array, and the
   * caller frees the send queue's buffers and unregisters the ICM.
   */
  function AllocQpBuf(kernel: bool, o: BufOutcomes): (int, seq<Step<QpResource>>)
  {
    if !o.regOk then (-ENOMEM, [])
    else if !kernel then (0, AcquireFirst(QP_ORDER, 1))
    else if !o.sqWrIdOk then (-ENOMEM, Unwound(1))
    else if o.sqBufErr != 0 then (o.sqBufErr, Unwound(2))
    else if !o.rqWrIdOk then (-ENOMEM, Unwound(3))
    else if o.rqBufErr != 0 then (o.rqBufErr, Unwound(4))
    else (0, AcquireFirst(QP_ORDER, 5))
  }

  /**
   * What hgrnic_free_qp gives back: for a kernel QP the send queue's buffer
   * and wr_id array, then the receive queue's, then for every QP the
   * context's ICM.
   */
  function FreeQpSteps(kernel: bool): seq<Step<QpResource>>
  {
    if kernel then [Release(SqBuf), Release(SqWrId), Release(RqBuf), Release(RqWrId), Release(QpContext)]
    else [Release(QpContext)]
  }

  /**
   * alloc_qp_buf succeeds exactly when every allocation it makes does; a
   * failure holds nothing afterwards, each release giving back the most
   * recent resource still held; a success holds the context's ICM (and a
   * kernel QP's four buffers), and free_qp later gives back every one of
   * them (not in the reverse order: the send queue's go first).
   */
  lemma AllocQpBufUnwinds(kernel: bool, o: BufOutcomes)
    ensures var (err, steps) := AllocQpBuf(kernel, o);
      (err == 0 <==> o.regOk && (!kernel || BuffersOk(o)))
      && (err != 0 ==> Held(steps) == Some([]))
      && (err == 0 ==> Held(steps) == Some(QP_ORDER[..if kernel then 5 else 1])
                       && Balanced(steps + FreeQpSteps(kernel)))
  {
    var (err, steps) := AllocQpBuf(kernel, o);
    if !o.regOk {
    } else if !kernel {
      Unwinds(QP_ORDER, 1);
      UnwindBalanced(QP_ORDER, 1);
      assert FreeQpSteps(false) == ReleaseFirst(QP_ORDER, 1);
    } else if !BuffersOk(o) {
      var n := if !o.sqWrIdOk then 1 else if o.sqBufErr != 0 then 2 else if !o.rqWrIdOk then 3 else 4;
      Unwinds(QP_ORDER, n);
    } else {
      Unwinds(QP_ORDER, 5);
      UnwindBalanced(QP_ORDER, 5);
      FreeReordersUnwind();
      BalancedReordered(AcquireFirst(QP_ORDER, 5), ReleaseFirst(QP_ORDER, 5), FreeQpSteps(true));
    }
  }

  /** free_qp's releases are those of unwinding all five, in another order. */
  lemma FreeReordersUnwind()
    ensures multiset(ReleaseFirst(QP_ORDER, 5)) == multiset(FreeQpSteps(true))
  {
    var r := ReleaseFirst(QP_ORDER, 5);
    assert r == [r[0], r[1], r[2], r[3], r[4]];
  }

  /** Reordering the releases after a balanced run keeps it balanced. */
  lemma BalancedReordered<R(!new)>(a: seq<Step<R>>, r: seq<Step<R>>, f: seq<Step<R>>)
    requires Balanced(a + r) && multiset(r) == multiset(f)
    ensures Balanced(a + f)
  {
    assert multiset(a + f) == multiset(a) + multiset(f);
    assert multiset(a + r) == multiset(a) + multiset(r);
  }

  /** The queue set_qp_size sizes and alloc_qp_buf resets (wq_reset): nothing posted. */
  function NewQueue(max: nat, maxGs: nat, log: nat): (w: WorkQueue)
    ensures w.max == max && w.maxGs == maxGs && w.entrySzLog == log
    ensures w.head == 0 && w.tail == 0 && w.nextInd == 0
  {
    Reset(WorkQueue(max, 0, 0, 0, 0, maxGs, log, seq(max, _ => 0)))
  }

  /** set_qp_size accepts the capabilities for the transport. */
  predicate Admitted(lim: Device.Limits, t: Transport, cap: QueuePair.QpCap)
  {
    QueuePair.CapWithin(lim, t, cap)
    && QueuePair.RecvDescSize(cap.maxRecvSge) <= lim.maxDescSz
    && QueuePair.SendDescSize(t, cap.maxSendSge) <= lim.maxDescSz
  }

  /**
   * The QP alloc_qp creates: number qpn, the transport and CQs given, one
   * reference, RESET, no port, and two empty queues with the requested
   * depths, scatter/gather counts and descriptor-size logs.
   */
  ghost predicate Created(qp: KernelQp, qpn: nat, t: Transport, cap: QueuePair.QpCap, kernel: bool,
                          sendCq: Cq.Cq, recvCq: Cq.Cq)
    reads qp, qp.queues
  {
    qp.queues.qpn == qpn && qp.transport == t && qp.isKernel == kernel
    && qp.sendCq == sendCq && qp.recvCq == recvCq
    && qp.refcount == 1 && qp.state == IB_QPS_RESET && qp.port == 0
    && qp.queues.maxInline == cap.maxInlineData
    && qp.queues.sq.max == cap.maxSendWr && qp.queues.sq.maxGs == cap.maxSendSge
    && qp.queues.rq.max == cap.maxRecvWr && qp.queues.rq.maxGs == cap.maxRecvSge
    && qp.queues.sq.head == 0 && qp.queues.sq.tail == 0 && qp.queues.rq.head == 0 && qp.queues.rq.tail == 0
    && QueuePair.EntryLogFits(qp.queues.sq.entrySzLog, QueuePair.SendDescSize(t, cap.maxSendSge))
    && QueuePair.EntryLogFits(qp.queues.rq.entrySzLog, QueuePair.RecvDescSize(cap.maxRecvSge))
  }

  /** The sizes set_qp_size gives for the capabilities: the requested depths and counts, and the entry-size logs. */
  ghost predicate SizedFor(s: QueuePair.QpSizes, t: Transport, cap: QueuePair.QpCap)
  {
    s.sqMax == cap.maxSendWr && s.rqMax == cap.maxRecvWr
    && s.sqMaxGs == cap.maxSendSge && s.rqMaxGs == cap.maxRecvSge && s.maxInline == cap.maxInlineData
    && QueuePair.EntryLogFits(s.sqLog, QueuePair.SendDescSize(t, cap.maxSendSge))
    && QueuePair.EntryLogFits(s.rqLog, QueuePair.RecvDescSize(cap.maxRecvSge))
  }

  /**
   * hgrnic_alloc_qp: the QP type picks the transport (-EINVAL for any other
   * type), set_qp_size checks the capabilities (-EINVAL), and the rest is
   * AllocNumbered.
   */
  method AllocQp(alloc: NumAllocator, table: LookupArray<Qp>, lim: Device.Limits, qpType: int,
                 cap: QueuePair.QpCap, kernel: bool, sendCq: Cq.Cq, recvCq: Cq.Cq, o: BufOutcomes, pageOk: bool)
      returns (err: int, qp: KernelQp?, steps: seq<Step<QpResource>>)
    requires alloc.Valid() && table.Valid() && alloc.max <= table.Capacity()
    modifies alloc, alloc.table, table.pages, table.used
    ensures alloc.Valid() && table.Valid() && alloc.table == old(alloc.table)
    ensures alloc.max == old(alloc.max) && alloc.mask == old(alloc.mask)
    ensures err == 0 <==> qp != null
    ensures TransportOf(qpType).None? || !Admitted(lim, TransportOf(qpType).value, cap) ==>
      err == -EINVAL && steps == [] && alloc.Bits() == old(alloc.Bits()) && table.pages[..] == old(table.pages[..])
    ensures TransportOf(qpType).Some? && Admitted(lim, TransportOf(qpType).value, cap) ==>
      Numbered(alloc, table, TransportOf(qpType).value, cap, kernel, sendCq, recvCq, o, pageOk, err, qp, steps)
  {
    var t := TransportOf(qpType);
    if t.None? {
      return -EINVAL, null, [];
    }
    var sizes := QueuePair.SetQpSize(lim, t.value, cap);
    if sizes.Err? {
      return sizes.code, null, [];
    }
    err, qp, steps := AllocNumbered(alloc, table, t.value, cap, sizes.value, kernel, sendCq, recvCq, o, pageOk);
  }

  /**
   * The outcome of alloc_qp once the capabilities passed: no free number
   * gives -ENOMEM; a number of all ones (which only an allocator with a
   * 32-bit mask can hand out) gives -ENOMEM with its bit left set, as in
   * the source; otherwise the status and steps are alloc_qp_buf's, a
   * failure freeing the number again and a success creating the QP under
   * that number and entering it in the table unless the table's page
   * could not be had.
   */
  twostate predicate Numbered(alloc: NumAllocator, table: LookupArray<Qp>, t: Transport, cap: QueuePair.QpCap,
                              kernel: bool, sendCq: Cq.Cq, recvCq: Cq.Cq, o: BufOutcomes, pageOk: bool,
                              err: int, new qp: KernelQp?, new steps: seq<Step<QpResource>>)
    requires old(alloc.Valid()) && old(table.Valid()) && old(alloc.max) <= old(table.Capacity())
    requires alloc.max == old(alloc.max) && alloc.mask == old(alloc.mask)
    reads alloc, alloc.table, table, table.pages, qp, if qp == null then {} else {qp.queues}
  {
    var k := ChosenBit(old(alloc.Bits()), old(alloc.last));
    var obj := AllocStep(old(alloc.Bits()), old(alloc.last), old(alloc.top), alloc.mask).obj;
    if k == alloc.max then
      err == -ENOMEM && steps == [] && alloc.Bits() == old(alloc.Bits()) && table.pages[..] == old(table.pages[..])
    else if obj == U32_ALL_ONES then
      err == -ENOMEM && steps == [] && alloc.Bits() == old(alloc.Bits())[k := true]
      && table.pages[..] == old(table.pages[..])
    else
      (err, steps) == AllocQpBuf(kernel, o)
      && (err == 0 ==>
            qp != null && fresh(qp) && fresh(qp.queues) && Created(qp, obj, t, cap, kernel, sendCq, recvCq)
            && alloc.Bits() == old(alloc.Bits())[k := true] && obj % alloc.max == k
            && table.pages[..] == (if old(table.pages[k / ARRAY_SLOTS]).Some? || pageOk
                                   then StoreIn<Qp>(old(table.pages[..]), k, qp.queues)
                                   else old(table.pages[..])))
      && (err != 0 ==> alloc.Bits() == old(alloc.Bits()) && table.pages[..] == old(table.pages[..]))
  }

  /**
   * The part of alloc_qp after set_qp_size: a QP number is taken, then
   * alloc_qp_buf runs, and when it fails the number is freed again;
   * otherwise PublishQp.
   */
  method AllocNumbered(alloc: NumAllocator, table: LookupArray<Qp>, t: Transport, cap: QueuePair.QpCap,
                       s: QueuePair.QpSizes, kernel: bool, sendCq: Cq.Cq, recvCq: Cq.Cq, o: BufOutcomes, pageOk: bool)
      returns (err: int, qp: KernelQp?, steps: seq<Step<QpResource>>)
    requires alloc.Valid() && table.Valid() && alloc.max <= table.Capacity() && SizedFor(s, t, cap)
    modifies alloc, alloc.table, table.pages, table.used
    ensures alloc.Valid() && table.Valid() && alloc.table == old(alloc.table)
    ensures alloc.max == old(alloc.max) && alloc.mask == old(alloc.mask)
    ensures err == 0 <==> qp != null
    ensures Numbered(alloc, table, t, cap, kernel, sendCq, recvCq, o, pageOk, err, qp, steps)
  {
    ghost var bits0 := alloc.Bits();
    ghost var last0 := alloc.last;
    AllocStepFacts(bits0, last0, alloc.top, alloc.mask);
    ChosenBitIsFree(bits0, last0);
    var qpn := alloc.Alloc();
    ghost var k := ChosenBit(bits0, last0);
    if qpn == U32_ALL_ONES {
      assert alloc.Bits() == if k == alloc.max then bits0 else bits0[k := true];
      return -ENOMEM, null, [];
    }
    assert k < alloc.max && alloc.Bits() == bits0[k := true] && qpn % alloc.max == k;
    var r := AllocQpBuf(kernel, o);
    err, steps := r.0, r.1;
    if err != 0 {
      Unnumber(alloc, qpn, bits0);
      return err, null, steps;
    }
    qp := PublishQp(qpn, alloc.max, table, t, cap, s, kernel, sendCq, recvCq, pageOk);
  }

  /** alloc_qp's error path after alloc_qp_buf failed: the number just taken is freed again. */
  method Unnumber(alloc: NumAllocator, qpn: nat, ghost before: seq<bool>)
    requires alloc.Valid() && qpn < U32 && |before| == alloc.max && !before[qpn % alloc.max]
    requires alloc.Bits() == before[qpn % alloc.max := true]
    modifies alloc, alloc.table
    ensures alloc.Valid() && alloc.table == old(alloc.table) && alloc.max == old(alloc.max)
    ensures alloc.mask == old(alloc.mask) && alloc.Bits() == before
  {
    alloc.Free(qpn);
    assert alloc.Bits() == before;
  }

  /**
   * The end of alloc_qp: the new QP with its sized and reset queues, entered
   * in the table at qpn & (num_qps - 1).  hgrnic_array_set's result is not
   * checked: when the table's page cannot be had the QP is returned all the
   * same, absent from the table.
   */
  method PublishQp(qpn: nat, numQps: nat, table: LookupArray<Qp>, t: Transport, cap: QueuePair.QpCap,
                   s: QueuePair.QpSizes, kernel: bool, sendCq: Cq.Cq, recvCq: Cq.Cq, pageOk: bool)
      returns (qp: KernelQp)
    requires table.Valid() && IsPow2(numQps) && numQps <= table.Capacity() && SizedFor(s, t, cap)
    modifies table.pages, table.used
    ensures table.Valid() && fresh(qp) && fresh(qp.queues) && Created(qp, qpn, t, cap, kernel, sendCq, recvCq)
    ensures var k := qpn % numQps;
      table.pages[..] == (if old(table.pages[k / ARRAY_SLOTS]).Some? || pageOk
                          then StoreIn<Qp>(old(table.pages[..]), k, qp.queues)
                          else old(table.pages[..]))
  {
    var q := new Qp(qpn, NewQueue(s.sqMax, s.sqMaxGs, s.sqLog), NewQueue(s.rqMax, s.rqMaxGs, s.rqLog), s.maxInline);
    qp := new KernelQp(q, t, kernel, sendCq, recvCq);
    AndLowMask(qpn, Log2(numQps));
    var index := BitAnd(qpn, numQps - 1);
    var ignored := table.Set(index, q, pageOk);
  }

  /**
   * hgrnic_free_qp: the table slot is cleared and the reference dropped; a
   * QP not in RESET is moved there by MODIFY_QP (whose result is not
   * looked at, and the cached state is left as it was); a kernel QP's
   * completions are removed from its CQs and its queue buffers freed; then
   * the context's ICM is unregistered and the QP number freed.
   */
  method FreeQp(qp: KernelQp, alloc: NumAllocator, table: LookupArray<Qp>)
      returns (resetIssued: bool, steps: seq<Step<QpResource>>)
    requires qp.Valid() && alloc.Valid() && table.Valid() && qp.queues.qpn < U32 && alloc.max <= table.Capacity()
    requires table.used[(qp.queues.qpn % alloc.max) / ARRAY_SLOTS] > 0
    modifies qp, alloc, alloc.table, table.pages, table.used, qp.recvCq, qp.recvCq.buf, qp.sendCq, qp.sendCq.buf
    ensures qp.Valid() && alloc.Valid() && table.Valid() && alloc.max == old(alloc.max)
    ensures qp.refcount == old(qp.refcount) - 1 && qp.state == old(qp.state) && qp.port == old(qp.port)
    ensures qp.cache == old(qp.cache)
    ensures resetIssued <==> old(qp.state) != IB_QPS_RESET
    ensures steps == FreeQpSteps(qp.isKernel)
    ensures alloc.Bits() == old(alloc.Bits())[qp.queues.qpn % alloc.max := false] && alloc.last == old(alloc.last)
    ensures var k := qp.queues.qpn % alloc.max;
      table.pages[..] == ClearIn(old(table.pages[..]), k, old(table.used[k / ARRAY_SLOTS]) == 1)
    ensures qp.isKernel ==>
      Cleans(old(qp.recvCq.buf[..]), old(qp.recvCq.consIndex), qp.recvCq.buf[..], qp.recvCq.consIndex, qp.queues.qpn)
      && (qp.sendCq != qp.recvCq ==>
            Cleans(old(qp.sendCq.buf[..]), old(qp.sendCq.consIndex), qp.sendCq.buf[..], qp.sendCq.consIndex,
                   qp.queues.qpn))
    ensures !qp.isKernel ==> unchanged(qp.recvCq, qp.sendCq) && unchanged(qp.recvCq.buf, qp.sendCq.buf)
  {
    Unlist(qp, alloc.max, table);
    resetIssued := qp.state != IB_QPS_RESET;
    steps := ReleaseQp(qp, alloc);
  }

  /**
   * The rest of free_qp: a kernel QP's completions leave its CQs and its
   * buffers are released; the context page is unregistered and the QPN freed.
   */
  method ReleaseQp(qp: KernelQp, alloc: NumAllocator) returns (steps: seq<Step<QpResource>>)
    requires qp.Valid() && alloc.Valid() && qp.queues.qpn < U32
    modifies alloc, alloc.table, qp.recvCq, qp.recvCq.buf, qp.sendCq, qp.sendCq.buf
    ensures qp.Valid() && alloc.Valid() && alloc.max == old(alloc.max)
    ensures steps == FreeQpSteps(qp.isKernel)
    ensures alloc.Bits() == old(alloc.Bits())[qp.queues.qpn % alloc.max := false] && alloc.last == old(alloc.last)
    ensures qp.isKernel ==>
      Cleans(old(qp.recvCq.buf[..]), old(qp.recvCq.consIndex), qp.recvCq.buf[..], qp.recvCq.consIndex, qp.queues.qpn)
      && (qp.sendCq != qp.recvCq ==>
            Cleans(old(qp.sendCq.buf[..]), old(qp.sendCq.consIndex), qp.sendCq.buf[..], qp.sendCq.consIndex,
                   qp.queues.qpn))
    ensures !qp.isKernel ==> unchanged(qp.recvCq, qp.sendCq) && unchanged(qp.recvCq.buf, qp.sendCq.buf)
  {
    if qp.isKernel {
      qp.CleanCqs();
    }
    steps := FreeQpSteps(qp.isKernel);
    alloc.Free(qp.queues.qpn);
  }

  /** The first step of free_qp: the table slot at qpn & (num_qps - 1) is cleared and the reference dropped. */
  method Unlist(qp: KernelQp, numQps: nat, table: LookupArray<Qp>)
    requires table.Valid() && IsPow2(numQps) && numQps <= table.Capacity()
    requires table.used[(qp.queues.qpn % numQps) / ARRAY_SLOTS] > 0
    modifies qp, table.pages, table.used
    ensures table.Valid() && qp.refcount == old(qp.refcount) - 1
    ensures qp.state == old(qp.state) && qp.port == old(qp.port) && qp.cache == old(qp.cache)
    ensures var k := qp.queues.qpn % numQps;
      table.pages[..] == ClearIn(old(table.pages[..]), k, old(table.used[k / ARRAY_SLOTS]) == 1)
  {
    AndLowMask(qp.queues.qpn, Log2(numQps));
    var index := BitAnd(qp.queues.qpn, numQps - 1);
    table.Clear(index);
    qp.refcount := qp.refcount - 1;
  }

  /**
   * (reserved_qps + 1) & ~1UL: where the special QPs start, the first even
   * number not below the count of reserved QPs.
   */
  function SqpStart(reservedQps: nat): (s: nat)
    requires reservedQps + 1 < U64
    ensures s % 2 == 0 && reservedQps <= s <= reservedQps + 1
  {
    EvenMask(reservedQps + 1);
    BitAnd(reservedQps + 1, U64 - 2)
  }

  /** x & ~1 on a u64 clears bit 0. */
  lemma EvenMask(x: nat)
    requires x < U64
    ensures BitAnd(x, U64 - 2) == x - x % 2
  {
    Pow2Of32();
    Pow2Add(32, 32);
    assert Pow2(64) == 2 * Pow2(63);
    var m := U64 - 2;
    DivModUnique(m, 2, Pow2(63) - 1, 0);
    if x > 0 {
      assert BitAnd(x, m) == 2 * BitAnd(x / 2, Pow2(63) - 1);
      AndLowMask(x / 2, 63);
      DivModUnique(x / 2, Pow2(63), 0, x / 2);
    }
  }

  /**
   * hgrnic_init_qp_table: the start of the special QPs, a QP-number
   * allocator of num_qps numbers under a 24-bit mask, then the lookup
   * table; when the table cannot be made the allocator is dropped again.
   * kmallocOk and tableOk are the outcomes of the two allocations.
   */
  method InitQpTable(numQps: nat, reservedQps: nat, kmallocOk: bool, tableOk: bool)
      returns (err: int, sqpStart: nat, alloc: NumAllocator?, table: LookupArray?<Qp>)
    requires numQps < U32 && reservedQps + 1 < U64
    ensures sqpStart == SqpStart(reservedQps)
    ensures err == 0 <==> alloc != null && table != null
    ensures err == -EINVAL <==> !IsPow2(numQps)
    ensures err == -ENOMEM <==> IsPow2(numQps) && (!kmallocOk || !tableOk)
    ensures err != 0 ==> alloc == null && table == null
    ensures alloc != null ==> (alloc.Valid() && alloc.max == numQps && alloc.mask == 0xff_ffff
      && alloc.Bits() == seq(numQps, _ => false))
    ensures table != null ==> (table.Valid() && table.Capacity() >= numQps
      && forall i :: 0 <= i < table.Capacity() ==> table.Lookup(i) == None)
  {
    sqpStart := SqpStart(reservedQps);
    assert LowMask(0xff_ffff) by { Cq.CqnMask(); }
    err, alloc := AllocInit(numQps, 0xff_ffff, kmallocOk);
    table := null;
    if err != 0 {
      return;
    }
    err, table := ArrayInit<Qp>(numQps, tableOk);
    if err != 0 {
      alloc := null;
    }
  }
}
