/**
 * The queue pairs of the kernel driver (hgrnic_qp.c): the state and
 * service-type encodings, descriptor sizing, the capability checks of QP
 * creation and the post loops that fill ring slots and advance head.  The
 * QP table, creation, modify_qp and destruction are in QpLife.
 */
module QueuePair {
  import opened Common
  import opened Trace
  import opened Wq
  import opened Wqe
  import opened Allocator
  import opened QpSpec
  import Device

  // ---------------------------------------------------------------------
  // State and service-type encodings

  // The QP states as the device numbers them (HGRNIC_QP_STATE_*).
  const QP_STATE_RST: int := 0
  const QP_STATE_INIT: int := 1
  const QP_STATE_RTR: int := 2
  const QP_STATE_RTS: int := 3
  const QP_STATE_SQE: int := 4
  const QP_STATE_SQD: int := 5
  const QP_STATE_ERR: int := 6
  const QP_STATE_DRAINING: int := 7

  /** to_hgrnic_state: a verbs QP state in the device's numbering, -1 for anything else. */
  function ToHgrnicState(ib: int): int
  {
    if ib == IB_QPS_RESET then QP_STATE_RST
    else if ib == IB_QPS_INIT then QP_STATE_INIT
    else if ib == IB_QPS_RTR then QP_STATE_RTR
    else if ib == IB_QPS_RTS then QP_STATE_RTS
    else if ib == IB_QPS_SQD then QP_STATE_SQD
    else if ib == IB_QPS_SQE then QP_STATE_SQE
    else if ib == IB_QPS_ERR then QP_STATE_ERR
    else -1
  }

  /** to_ib_qp_state: a device QP state as a verbs state; DRAINING reads as SQD, unknown values as -1. */
  function ToIbQpState(hg: int): int
  {
    if hg == QP_STATE_RST then IB_QPS_RESET
    else if hg == QP_STATE_INIT then IB_QPS_INIT
    else if hg == QP_STATE_RTR then IB_QPS_RTR
    else if hg == QP_STATE_RTS then IB_QPS_RTS
    else if hg == QP_STATE_DRAINING || hg == QP_STATE_SQD then IB_QPS_SQD
    else if hg == QP_STATE_SQE then IB_QPS_SQE
    else if hg == QP_STATE_ERR then IB_QPS_ERR
    else -1
  }

  /**
   * The two encodings are inverse on the seven verbs states and the seven
   * device states other than DRAINING; DRAINING decodes to SQD, and exactly
   * the values outside the encodings give -1.
   */
  lemma StateRoundTrip(ib: int, hg: int)
    ensures 0 <= ib <= 6 ==> 0 <= ToHgrnicState(ib) <= 6 && ToIbQpState(ToHgrnicState(ib)) == ib
    ensures ToHgrnicState(ib) == -1 <==> !(0 <= ib <= 6)
    ensures 0 <= hg <= 6 ==> ToHgrnicState(ToIbQpState(hg)) == hg
    ensures ToIbQpState(hg) == -1 <==> !(0 <= hg <= 7)
    ensures ToIbQpState(QP_STATE_DRAINING) == IB_QPS_SQD
  {
  }

  /** The position of a transport in that enum. */
  function TransportCode(t: Transport): nat
  {
    match t
    case RC => 0
    case UC => 1
    case UD => 2
    case RD => 3
    case RSV => 4
  }

  // The service types of the QP context (HGRNIC_QP_ST_*).
  const QP_ST_RC: int := 0
  const QP_ST_UC: int := 1
  const QP_ST_RD: int := 2
  const QP_ST_UD: int := 3
  const QP_ST_RSV: int := 7

  /** to_hgrnic_st: the context's service type for a transport code, -1 for anything else. */
  function ToHgrnicSt(transport: int): int
  {
    if transport == 0 then QP_ST_RC
    else if transport == 1 then QP_ST_UC
    else if transport == 2 then QP_ST_UD
    else if transport == 3 then QP_ST_RD
    else if transport == 4 then QP_ST_RSV
    else -1
  }

  /**
   * Every transport gets its own 3-bit service type (UD and RD swap places
   * between the two numberings); any other code is refused with -1.
   */
  lemma ServiceTypes(t1: Transport, t2: Transport, code: int)
    ensures 0 <= ToHgrnicSt(TransportCode(t1)) < 8
    ensures ToHgrnicSt(TransportCode(t1)) == ToHgrnicSt(TransportCode(t2)) ==> t1 == t2
    ensures ToHgrnicSt(code) == -1 <==> !(0 <= code <= 4)
  {
  }

  // ---------------------------------------------------------------------
  // Descriptor sizes

  /** hgrnic_max_data_size: the room for data units once the next unit and the address unit are taken. */
  function MaxDataSize(t: Transport, descSz: int): (r: int)
    ensures r == descSz - NEXT_UNIT_SIZE - (if t == UD then UD_UNIT_SIZE else RADDR_UNIT_SIZE)
  {
    var s := descSz - NEXT_UNIT_SIZE;
    match t
    case UD => s - UD_UNIT_SIZE
    case _ => s - RADDR_UNIT_SIZE
  }

  /** The bytes of a receive descriptor: the next unit and max_gs data units. */
  function RecvDescSize(maxGs: nat): nat
  {
    NEXT_UNIT_SIZE + maxGs * DATA_UNIT_SIZE
  }

  /**
   * The bytes of a send descriptor: max_gs data units, the address unit of
   * the transport (for RC at least room for an atomic unit, an address unit
   * and one data unit), and the next unit.
   */
  function SendDescSize(t: Transport, maxGs: nat): nat
  {
    var data := maxGs * DATA_UNIT_SIZE;
    var body := match t
      case UD => data + UD_UNIT_SIZE
      case UC => data + RADDR_UNIT_SIZE
      case RC =>
        var s := data + RADDR_UNIT_SIZE;
        var atomic := ATOMIC_UNIT_SIZE + RADDR_UNIT_SIZE + DATA_UNIT_SIZE;
        if s >= atomic then s else atomic
      case _ => data;
    body + NEXT_UNIT_SIZE
  }

  /**
   * A send descriptor holds every unit its transport can carry: the data
   * units, the address unit, and for RC an atomic operation (atomic,
   * address and one data unit, 48 bytes) before the 16-byte next unit.
   */
  lemma SendDescHolds(t: Transport, maxGs: nat)
    ensures SendDescSize(t, maxGs) >= NEXT_UNIT_SIZE + maxGs * DATA_UNIT_SIZE
    ensures t == UD ==> SendDescSize(t, maxGs) == NEXT_UNIT_SIZE + UD_UNIT_SIZE + maxGs * DATA_UNIT_SIZE
    ensures t == UC ==> SendDescSize(t, maxGs) == NEXT_UNIT_SIZE + RADDR_UNIT_SIZE + maxGs * DATA_UNIT_SIZE
    ensures t == RC ==> SendDescSize(t, maxGs) - NEXT_UNIT_SIZE >= ATOMIC_UNIT_SIZE + RADDR_UNIT_SIZE + DATA_UNIT_SIZE
    ensures t == RC ==> SendDescSize(t, maxGs) >= NEXT_UNIT_SIZE + RADDR_UNIT_SIZE + maxGs * DATA_UNIT_SIZE
  {
  }

  /**
   * The entry-size search of hgrnic_set_qp_entry_sz: starting from 7, the
   * log grows until 2^log covers the descriptor, so 2^log is the smallest
   * power of two of at least 128 bytes that holds it.
   */
  method EntrySizeLog(size: nat) returns (log: nat)
    ensures log >= 7 && Pow2(log) >= size
    ensures forall k :: 7 <= k < log ==> Pow2(k) < size
    ensures log == if size <= 128 then 7 else CeilLog2(size)
  {
    log := 7;
    while Pow2(log) < size
      invariant log >= 7
      invariant forall k :: 7 <= k < log ==> Pow2(k) < size
      decreases size - Pow2(log)
    {
      Pow2Monotone(log, log + 1);
      log := log + 1;
    }
    assert Pow2(7) == 128;
    if size > 128 {
      CeilLog2Covers(size);
      CeilLog2Least(size, log);
    }
  }

  /** The sizes of a QP's two queues as creation sets them. */
  datatype QpSizes = QpSizes(
    sqMax: nat, rqMax: nat, sqMaxGs: nat, rqMaxGs: nat, maxInline: nat,
    sqLog: nat, rqLog: nat, sqQueSize: nat, rqQueSize: nat)

  /**
   * hgrnic_set_qp_entry_sz: the receive descriptor and then the send
   * descriptor must fit in max_desc_sz (-EINVAL otherwise); each queue gets
   * its entry-size log and a queue size of max << log.
   */
  method SetQpEntrySz(maxDescSz: int, t: Transport, sqMax: nat, rqMax: nat, sqMaxGs: nat, rqMaxGs: nat)
      returns (err: int, sqLog: nat, rqLog: nat)
    ensures err == 0 || err == -EINVAL
    ensures err == 0 <==> RecvDescSize(rqMaxGs) <= maxDescSz && SendDescSize(t, sqMaxGs) <= maxDescSz
    ensures err == 0 ==> EntryLogFits(rqLog, RecvDescSize(rqMaxGs)) && EntryLogFits(sqLog, SendDescSize(t, sqMaxGs))
  {
    sqLog, rqLog := 0, 0;
    if RecvDescSize(rqMaxGs) > maxDescSz {
      return -EINVAL, sqLog, rqLog;
    }
    rqLog := EntrySizeLog(RecvDescSize(rqMaxGs));
    if SendDescSize(t, sqMaxGs) > maxDescSz {
      return -EINVAL, sqLog, rqLog;
    }
    sqLog := EntrySizeLog(SendDescSize(t, sqMaxGs));
    err := 0;
  }

  /** log is the entry-size log for a descriptor of size bytes: the least log >= 7 with 2^log >= size. */
  ghost predicate EntryLogFits(log: nat, size: nat)
  {
    log >= 7 && Pow2(log) >= size && forall k :: 7 <= k < log ==> Pow2(k) < size
  }

  /** The capabilities a QP is created with (struct ib_qp_cap). */
  datatype QpCap = QpCap(maxSendWr: nat, maxRecvWr: nat, maxSendSge: nat, maxRecvSge: nat, maxInlineData: nat)

  /**
   * The sanity check of hgrnic_set_qp_size.  The inline limit is compared
   * with max_data_size - 4 computed as a size_t, so a negative room wraps
   * to a huge bound.
   */
  predicate CapWithin(lim: Device.Limits, t: Transport, cap: QpCap)
  {
    cap.maxSendWr <= lim.maxWqes && cap.maxRecvWr <= lim.maxWqes
    && cap.maxSendSge <= lim.maxSg && cap.maxRecvSge <= lim.maxSg
    && cap.maxInlineData <= (MaxDataSize(t, lim.maxDescSz) - INLINE_UNIT_SIZE) % U64
  }

  /**
   * hgrnic_set_qp_size: capabilities above the device limits give -EINVAL;
   * otherwise the queues take the requested depths and scatter/gather
   * counts, and the entry sizes follow (or their -EINVAL).
   */
  method SetQpSize(lim: Device.Limits, t: Transport, cap: QpCap) returns (r: Result<QpSizes>)
    ensures r.Err? ==> r.code == -EINVAL
    ensures r.Ok? <==> (CapWithin(lim, t, cap)
      && RecvDescSize(cap.maxRecvSge) <= lim.maxDescSz && SendDescSize(t, cap.maxSendSge) <= lim.maxDescSz)
    ensures r.Ok? ==> var s := r.value;
      s.sqMax == cap.maxSendWr && s.rqMax == cap.maxRecvWr
      && s.sqMaxGs == cap.maxSendSge && s.rqMaxGs == cap.maxRecvSge && s.maxInline == cap.maxInlineData
      && EntryLogFits(s.rqLog, RecvDescSize(s.rqMaxGs)) && EntryLogFits(s.sqLog, SendDescSize(t, s.sqMaxGs))
      && s.rqQueSize == s.rqMax * Pow2(s.rqLog) && s.sqQueSize == s.sqMax * Pow2(s.sqLog)
  {
    if !CapWithin(lim, t, cap) {
      return Err(-EINVAL);
    }
    var err, sqLog, rqLog := SetQpEntrySz(lim.maxDescSz, t, cap.maxSendWr, cap.maxRecvWr, cap.maxSendSge, cap.maxRecvSge);
    if err != 0 {
      return Err(err);
    }
    r := Ok(QpSizes(cap.maxSendWr, cap.maxRecvWr, cap.maxSendSge, cap.maxRecvSge, cap.maxInlineData,
                    sqLog, rqLog, Shl(cap.maxSendWr, sqLog), Shl(cap.maxRecvWr, rqLog)));
  }

  // ---------------------------------------------------------------------
  // post_receive

  /** A receive work request: its id and the number of scatter entries. */
  datatype RecvWr = RecvWr(wrId: nat, numSge: nat)

  function RecvIds(wrs: seq<RecvWr>): (ids: seq<nat>)
    ensures |ids| == |wrs| && forall i :: 0 <= i < |wrs| ==> ids[i] == wrs[i].wrId
  {
    seq(|wrs|, i requires 0 <= i < |wrs| => wrs[i].wrId)
  }

  /**
   * The check of the i-th receive request: -ENOMEM when the queue cannot
   * take i more, -EINVAL when it has more scatter entries than max_gs, 0
   * when it is accepted.  head does not move during the loop.
   */
  function RecvError(w: WorkQueue, wr: RecvWr, i: nat): int
    requires w.head < U32 && w.tail < U32
  {
    if Overflow(w, i) then -ENOMEM
    else if wr.numSge > w.maxGs then -EINVAL
    else 0
  }

  /**
   * hgrnic_post_receive: from slot head & (max - 1), each request is checked,
   * its id stored and the slot moved on (wrapping); the first rejected one
   * stops the loop and is reported as bad_wr (its index).  head then grows
   * by the number accepted.
   */
  method PostReceive(qp: Qp, wrs: seq<RecvWr>) returns (err: int, bad: nat)
    requires Postable(qp.rq)
    modifies qp
    ensures bad <= |wrs| && (err == 0 <==> bad == |wrs|)
    ensures forall i :: 0 <= i < bad ==> RecvError(old(qp.rq), wrs[i], i) == 0
    ensures bad < |wrs| ==> err == RecvError(old(qp.rq), wrs[bad], bad) != 0
    ensures qp.rq == old(qp.rq).(head := Add32(old(qp.rq.head), bad),
                                 wrId := Placed(old(qp.rq.wrId), StartSlot(old(qp.rq)), RecvIds(wrs), bad))
    ensures qp.sq == old(qp.sq) && qp.maxInline == old(qp.maxInline)
  {
    var wrId;
    err, bad, wrId := RecvIndices(qp.rq, wrs);
    qp.rq := qp.rq.(head := Add32(qp.rq.head, bad), wrId := wrId);
  }

  /** The index work of hgrnic_post_recv on a receive queue value (see PostReceive). */
  method RecvIndices(rq: WorkQueue, wrs: seq<RecvWr>) returns (err: int, bad: nat, wrId: seq<nat>)
    requires Postable(rq)
    ensures bad <= |wrs| && (err == 0 <==> bad == |wrs|)
    ensures forall i :: 0 <= i < bad ==> RecvError(rq, wrs[i], i) == 0
    ensures bad < |wrs| ==> err == RecvError(rq, wrs[bad], bad) != 0
    ensures wrId == Placed(rq.wrId, StartSlot(rq), RecvIds(wrs), bad)
  {
    var ind := StartSlot(rq);
    wrId := rq.wrId;
    ghost var ids := RecvIds(wrs);
    if rq.max > 0 {
      DivModUnique(ind, rq.max, 0, ind);
    }
    err := 0;
    var nreq := 0;
    while nreq < |wrs| && err == 0
      invariant nreq <= |wrs|
      invariant forall i :: 0 <= i < nreq ==> RecvError(rq, wrs[i], i) == 0
      invariant err != 0 ==> nreq < |wrs| && err == RecvError(rq, wrs[nreq], nreq)
      invariant wrId == Placed(rq.wrId, StartSlot(rq), ids, nreq)
      invariant rq.max > 0 ==> ind == (StartSlot(rq) + nreq) % rq.max
      decreases |wrs| - nreq + (if err == 0 then 1 else 0)
    {
      if Overflow(rq, nreq) {
        err := -ENOMEM;
      } else if wrs[nreq].numSge > rq.maxGs {
        err := -EINVAL;
      } else {
        assert rq.max > 0;
        SlotStep(rq, ids, nreq, ind, wrId);
        wrId := wrId[ind := wrs[nreq].wrId];
        ind := ind + 1;
        if ind >= rq.max {
          ind := ind - rq.max;
        }
        nreq := nreq + 1;
      }
    }
    bad := nreq;
  }

  /** Storing the id of request n in its slot and moving to the next slot, wrapping at max. */
  lemma SlotStep(w: WorkQueue, ids: seq<nat>, n: nat, ind: nat, wrId: seq<nat>)
    requires Postable(w) && w.max > 0 && n < |ids|
    requires wrId == Placed(w.wrId, StartSlot(w), ids, n) && ind == (StartSlot(w) + n) % w.max
    ensures wrId[ind := ids[n]] == Placed(w.wrId, StartSlot(w), ids, n + 1)
    ensures (if ind + 1 >= w.max then ind + 1 - w.max else ind + 1) == (StartSlot(w) + n + 1) % w.max
  {
    NextSlot(StartSlot(w), n, w.max);
  }

  /**
   * The requests a post accepts all fit: if none of the first n checks
   * overflowed, the queue then holds its earlier requests plus the n new
   * ones, and no more than max.
   */
  lemma AcceptedFit(w: WorkQueue, n: nat)
    requires w.head < U32 && w.tail < U32 && w.max < U32
    requires forall i :: 0 <= i < n ==> !Overflow(w, i)
    requires n > 0
    ensures Outstanding(w) + n <= w.max
  {
    var out := Outstanding(w);
    assert !Overflow(w, 0);
    if out + n > w.max {
      var j := w.max - out;
      assert Add32(out, j) == w.max;
      assert Overflow(w, j);
    }
  }

  /**
   * What post_receive promises the completion path: after it, the queue
   * holds the requests it held before plus the ones accepted, never more
   * than max, and every accepted request's id sits in its own slot, the
   * i-th one in slot (start + i) mod max, which on a power-of-two ring is
   * (head + i) mod max.
   */
  lemma PostReceiveKeepsRoom(w: WorkQueue, wrs: seq<RecvWr>, bad: nat)
    requires Postable(w) && bad <= |wrs| && bad > 0
    requires forall i :: 0 <= i < bad ==> RecvError(w, wrs[i], i) == 0
    ensures var w' := w.(head := Add32(w.head, bad), wrId := Placed(w.wrId, StartSlot(w), RecvIds(wrs), bad));
      Outstanding(w') == Outstanding(w) + bad <= w.max
      && (forall i :: 0 <= i < bad ==> w'.wrId[(StartSlot(w) + i) % w.max] == wrs[i].wrId)
      && (IsPow2(w.max) ==> forall i :: 0 <= i < bad ==> w'.wrId[(w.head + i) % w.max] == wrs[i].wrId)
  {
    assert forall i :: 0 <= i < bad ==> !Overflow(w, i) by {
      forall i | 0 <= i < bad
        ensures !Overflow(w, i)
      {
        assert RecvError(w, wrs[i], i) == 0;
      }
    }
    AcceptedFit(w, bad);
    RoomAfter(w, bad);
    SlotsAfter(w, RecvIds(wrs), bad);
  }

  /** Advancing head by n requests that fit leaves exactly n more outstanding. */
  lemma RoomAfter(w: WorkQueue, n: nat)
    requires w.head < U32 && w.tail < U32 && w.max < U32
    requires Outstanding(w) + n <= w.max
    ensures Outstanding(w.(head := Add32(w.head, n))) == Outstanding(w) + n
  {
    var out := Outstanding(w);
    var w' := w.(head := Add32(w.head, n));
    AddModShift(w.tail, out, n);
    SameResidue(w.tail, Outstanding(w'), out + n, U32);
  }

  /**
   * Storing n <= max ids from the start slot puts the i-th in slot
   * (start + i) mod max; on a power-of-two ring that is (head + i) mod max.
   */
  lemma SlotsAfter(w: WorkQueue, ids: seq<nat>, n: nat)
    requires Postable(w) && 0 < n <= |ids| && n <= w.max
    ensures forall i :: 0 <= i < n ==> Placed(w.wrId, StartSlot(w), ids, n)[(StartSlot(w) + i) % w.max] == ids[i]
    ensures IsPow2(w.max) ==> forall i :: 0 <= i < n ==> Placed(w.wrId, StartSlot(w), ids, n)[(w.head + i) % w.max] == ids[i]
  {
    var r := Placed(w.wrId, StartSlot(w), ids, n);
    PlacedSlots(w.wrId, StartSlot(w), ids, n);
    if IsPow2(w.max) {
      forall i | 0 <= i < n
        ensures r[(w.head + i) % w.max] == ids[i]
      {
        ModAddLeft(w.head, i, w.max);
      }
    }
  }

  /**
   * What a depth that is not a power of two does to the receive posts:
   * set_qp_size accepts max_recv_wr 3 and copies it, a first post of one
   * request fills slot 0 and moves head to 1, and a second post starts
   * again from 1 & 2 = 0, so the first request's id is overwritten while
   * both requests are outstanding.  The queues are those PostReceive
   * leaves.
   */
  lemma UnroundedDepthReusesSlot()
    ensures var w0 := WorkQueue(3, 0, 2, 0, 0, 1, 7, [0, 0, 0]);
      var first, second := [RecvWr(1, 0)], [RecvWr(2, 0)];
      var w1 := w0.(head := Add32(w0.head, 1), wrId := Placed(w0.wrId, StartSlot(w0), RecvIds(first), 1));
      var w2 := w1.(head := Add32(w1.head, 1), wrId := Placed(w1.wrId, StartSlot(w1), RecvIds(second), 1));
      RecvError(w0, first[0], 0) == 0 && RecvError(w1, second[0], 0) == 0
      && StartSlot(w0) == StartSlot(w1) == 0 && w1.head % w1.max == 1
      && Outstanding(w2) == 2 && w2.wrId == [2, 0, 0]
  {
    var w0 := WorkQueue(3, 0, 2, 0, 0, 1, 7, [0, 0, 0]);
    var w1 := w0.(head := 1, wrId := [1, 0, 0]);
    assert BitAnd(1, 2) == 0;
    assert Placed(w1.wrId, 0, [2], 1) == [2, 0, 0];
  }

  /**
   * hgrnic_post_send, on its indices: from slot head & (max - 1) each
   * request is checked, its wr_id stored and the slot moved on; every 255
   * requests a doorbell is rung and head moved by 255 twice; the first
   * rejected request stops the loop and is reported as bad_wr, and a last
   * doorbell covers the requests accepted since the last one.  The result
   * lists the arguments of every hgrnic_send_dbell call in order.
   */
  method PostSend(qp: Qp, t: Transport, wrs: seq<SendWr>) returns (err: int, bad: nat, bells: seq<BellCall>)
    requires Postable(qp.sq)
    modifies qp
    ensures bad <= |wrs| && (err == 0 <==> bad == |wrs|)
    ensures forall i :: 0 <= i < bad ==> SendError(old(qp.sq), wrs[i], i) == 0
    ensures bad < |wrs| ==> err == SendError(old(qp.sq), wrs[bad], bad) != 0
    ensures bells == BatchCalls(t, old(qp.sq.head), wrs, (bad + 254) / 255)
    ensures qp.sq.head == SentHead(old(qp.sq), wrs, bad) && qp.sq.wrId == SentIds(old(qp.sq), wrs, bad)
    ensures qp.sq == old(qp.sq).(head := qp.sq.head, wrId := qp.sq.wrId)
    ensures qp.rq == old(qp.rq) && qp.maxInline == old(qp.maxInline)
  {
    var sq;
    err, bad, bells, sq := SendIndices(t, qp.sq, wrs);
    qp.sq := sq;
  }

  /** The send queue's head after post_send stopped at request bad: the requests accepted plus 255 per batch boundary. */
  function SentHead(w0: WorkQueue, wrs: seq<SendWr>, bad: nat): (h: nat)
    ensures h < U32
  {
    Add32(w0.head, bad + 255 * BoundaryRings(bad, |wrs|))
  }

  /**
   * The wr_id table after post_send stopped at request bad: the ids stored
   * from head's slot, including that of a request rejected only for its
   * opcode.
   */
  function SentIds(w0: WorkQueue, wrs: seq<SendWr>, bad: nat): (ids: seq<nat>)
    requires Postable(w0) && bad <= |wrs|
    ensures |ids| == w0.max
  {
    Placed(w0.wrId, StartSlot(w0), SendIds(wrs), bad + if bad < |wrs| && IdStored(w0, wrs[bad], bad) then 1 else 0)
  }

  /** The index work of hgrnic_post_send on a send queue value (see PostSend). */
  method SendIndices(t: Transport, sq: WorkQueue, wrs: seq<SendWr>)
      returns (err: int, bad: nat, bells: seq<BellCall>, sq': WorkQueue)
    requires Postable(sq)
    ensures bad <= |wrs| && (err == 0 <==> bad == |wrs|)
    ensures forall i :: 0 <= i < bad ==> SendError(sq, wrs[i], i) == 0
    ensures bad < |wrs| ==> err == SendError(sq, wrs[bad], bad) != 0
    ensures bells == BatchCalls(t, sq.head, wrs, (bad + 254) / 255)
    ensures sq'.head == SentHead(sq, wrs, bad) && sq'.wrId == SentIds(sq, wrs, bad)
    ensures sq' == sq.(head := sq'.head, wrId := sq'.wrId)
  {
    var j, nreq, head, wrId, size0, f0, op0;
    ghost var r;
    err, j, nreq, head, wrId, bells, size0, f0, op0, r := SendLoop(t, sq, wrs);
    ghost var bells0, head0 := bells, head;
    if nreq > 0 {
      bells := bells + [BellCall(head, size0, f0, op0)];
      head := Add32(head, nreq);
    }
    SendFinished(t, sq, wrs, err, j, nreq, r, head0, bells0, size0, f0, op0, bells, head);
    bad := j;
    sq' := sq.(head := head, wrId := wrId);
  }

  /** What the loop and the last doorbell of post_send leave: the counts, checks, doorbells and head of SendIndices. */
  lemma SendFinished(t: Transport, sq: WorkQueue, wrs: seq<SendWr>, err: int, j: nat, nreq: nat, r: nat,
                     head: nat, bells: seq<BellCall>, size0: nat, f0: nat, op0: nat,
                     bells': seq<BellCall>, head': nat)
    requires sq.tail < U32
    requires Batched(sq, t, wrs, j, nreq, r, head, bells, size0, f0, op0)
    requires err == 0 ==> j == |wrs| && (j > 0 ==> nreq >= 1)
    requires err != 0 ==> j < |wrs| && nreq < 255 && err == SendError(sq, wrs[j], j) != 0
    requires bells' == if nreq > 0 then bells + [BellCall(head, size0, f0, op0)] else bells
    requires head' == if nreq > 0 then Add32(head, nreq) else head
    ensures j <= |wrs| && (err == 0 <==> j == |wrs|)
    ensures forall i :: 0 <= i < j ==> SendError(sq, wrs[i], i) == 0
    ensures bells' == BatchCalls(t, sq.head, wrs, (j + 254) / 255)
    ensures head' == SentHead(sq, wrs, j)
  {
    FinishSend(sq, t, wrs, j, nreq, r, head, bells, size0, f0, op0, err != 0);
  }

  /**
   * The loop of hgrnic_post_send, up to the request it stops at: j
   * requests accepted, the doorbells rung at batch boundaries, nreq
   * requests pending, and the wr_id table with every id stored so far
   * (including a request rejected only for its opcode).
   */
  method SendLoop(t: Transport, sq: WorkQueue, wrs: seq<SendWr>)
      returns (err: int, j: nat, nreq: nat, head: nat, wrId: seq<nat>, bells: seq<BellCall>,
               size0: nat, f0: nat, op0: nat, ghost r: nat)
    requires Postable(sq)
    ensures Batched(sq, t, wrs, j, nreq, r, head, bells, size0, f0, op0)
    ensures err == 0 ==> j == |wrs| && (j > 0 ==> nreq >= 1)
    ensures err != 0 ==> j < |wrs| && nreq < 255 && err == SendError(sq, wrs[j], j) != 0
    ensures wrId == Placed(sq.wrId, StartSlot(sq), SendIds(wrs), j + if j < |wrs| && IdStored(sq, wrs[j], j) then 1 else 0)
  {
    head := sq.head;
    var ind := StartSlot(sq);
    wrId := sq.wrId;
    size0, f0, op0 := 0, 0, 0;
    if sq.max > 0 {
      DivModUnique(ind, sq.max, 0, ind);
    }
    bells := [];
    err := 0;
    j := 0;
    nreq := 0;
    r := 0;
    while j < |wrs|
      invariant Sending(sq, t, wrs, j, nreq, r, head, ind, wrId, bells, size0, f0, op0)
      invariant err == 0 && (j > 0 ==> nreq >= 1)
    {
      err, j, nreq, r, head, ind, wrId, bells, size0, f0, op0 := SendOne(t, sq, wrs, j, nreq, r, head, ind, wrId, bells, size0, f0, op0);
      if err != 0 {
        return;
      }
    }
    assert wrId == Placed(sq.wrId, StartSlot(sq), SendIds(wrs), j);
  }

  /**
   * One pass of the post_send loop, for request j: the batch-boundary
   * doorbell, the ring-full and gather checks, the wr_id store, the opcode
   * check, and the move to the next slot.  A rejected request leaves the
   * batch state as the checks saw it.
   */
  method SendOne(t: Transport, sq: WorkQueue, wrs: seq<SendWr>, j: nat, nreq: nat, ghost r: nat,
                 head: nat, ind: nat, wrId: seq<nat>, bells: seq<BellCall>, size0: nat, f0: nat, op0: nat)
      returns (err: int, j': nat, nreq': nat, ghost r': nat, head': nat, ind': nat, wrId': seq<nat>, bells': seq<BellCall>,
               size0': nat, f0': nat, op0': nat)
    requires Postable(sq) && j < |wrs| && (j > 0 ==> nreq >= 1)
    requires Sending(sq, t, wrs, j, nreq, r, head, ind, wrId, bells, size0, f0, op0)
    ensures j' == (if err == 0 then j + 1 else j)
    ensures err == 0 ==> Sending(sq, t, wrs, j', nreq', r', head', ind', wrId', bells', size0', f0', op0') && nreq' >= 1
    ensures err != 0 ==> Batched(sq, t, wrs, j', nreq', r', head', bells', size0', f0', op0')
    ensures err != 0 ==> j' < |wrs| && nreq' < 255 && err == SendError(sq, wrs[j'], j') != 0
    ensures err != 0 ==> wrId' == Placed(sq.wrId, StartSlot(sq), SendIds(wrs), j' + if j' < |wrs| && IdStored(sq, wrs[j'], j') then 1 else 0)
  {
    err, j', ind', wrId', size0', f0', op0' := 0, j, ind, wrId, size0, f0, op0;
    head', nreq', bells', r' := BatchBoundary(t, sq, wrs, j, nreq, r, head, ind, wrId, bells, size0, f0, op0);
    CheckView(sq, t, wrs, j, nreq', r', head', ind, wrId, bells', size0, f0, op0);
    var stored;
    err, stored := SendChecks(sq, head', nreq', wrs[j], j);
    if stored {
      wrId' := wrId[ind := wrs[j].wrId];
    }
    if err != 0 {
      return;
    }
    if nreq' == 0 {
      size0', f0', op0' := WqeUnits(t, wrs[j]), FenceBits(wrs[j]), DeviceOpcode(wrs[j]);
    }
    ind' := ind + 1;
    if ind' >= sq.max {
      ind' := ind' - sq.max;
    }
    AcceptStep(sq, t, wrs, j, nreq', r', head', ind, wrId, bells', size0, f0, op0, ind', wrId', size0', f0', op0');
    nreq' := nreq' + 1;
    j' := j + 1;
  }

  /**
   * The checks of request j against the queue as the loop sees it (head
   * moved on at each boundary, nreq pending): ring room (-ENOMEM), then the
   * gather count (-EINVAL), which together decide whether its wr_id is
   * stored, then the opcode (-EINVAL).
   */
  method SendChecks(sq: WorkQueue, head: nat, nreq: nat, wr: SendWr, ghost j: nat) returns (err: int, stored: bool)
    requires sq.tail < U32 && BatchQueue(sq, j) == sq.(head := head) && j % 255 == nreq
    ensures err == SendError(sq, wr, j) && (stored <==> IdStored(sq, wr, j))
  {
    if Overflow(sq.(head := head), nreq) {
      return -ENOMEM, false;
    }
    if wr.numSge > sq.maxGs {
      return -EINVAL, false;
    }
    stored := true;
    err := if wr.opcode >= |OPCODES| then -EINVAL else 0;
  }

  /**
   * The batch-boundary test at the head of the post_send loop: with 255
   * requests pending, their doorbell is rung (hgrnic_send_dbell, which
   * moves head by 255), nreq restarts at 0 and head moves by 255 again.
   */
  method BatchBoundary(t: Transport, sq: WorkQueue, wrs: seq<SendWr>, j: nat, nreq: nat, ghost r: nat,
                       head: nat, ind: nat, ghost tbl: seq<nat>, bells: seq<BellCall>, size0: nat, f0: nat, op0: nat)
      returns (head': nat, nreq': nat, bells': seq<BellCall>, ghost r': nat)
    requires Postable(sq)
    requires Sending(sq, t, wrs, j, nreq, r, head, ind, tbl, bells, size0, f0, op0)
    ensures Sending(sq, t, wrs, j, nreq', r', head', ind, tbl, bells', size0, f0, op0)
    ensures nreq' == if nreq == 255 then 0 else nreq
    ensures nreq < 255 ==> head' == head && bells' == bells && r' == r
  {
    head', nreq', bells', r' := head, nreq, bells, r;
    if nreq == 255 {
      RingStep(sq, t, wrs, j, r, head, ind, tbl, bells, size0, f0, op0);
      bells' := bells + [BellCall(head, size0, f0, op0)];
      head' := Add32(head, nreq);
      nreq' := 0;
      head' := Add32(head', 255);
      r' := r + 1;
    }
  }
}
