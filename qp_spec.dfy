/**
 * The specification side of the queue-pair post loops: the transports,
 * the ring slots a post fills, and the checks, doorbells and head
 * arithmetic of hgrnic_post_send (hgrnic_qp.c), as functions of the queue
 * a post starts from.
 */
module QpSpec {
  import opened Common
  import opened Wq
  import opened Wqe

  /** The transports of a QP, in the driver's enum order (RC, UC, UD, RD, RSV). */
  datatype Transport = RC | UC | UD | RD | RSV

  // ---------------------------------------------------------------------
  // Ring slots

  /**
   * A queue the post loops can work on: u32 counters and a wr_id table of
   * max slots.  max is the depth set_qp_size copied from the request, which
   * nothing rounds to a power of two.
   */
  predicate Postable(w: WorkQueue)
  {
    w.head < U32 && w.tail < U32 && w.max < U32 && |w.wrId| == w.max
  }

  /**
   * The first slot a post fills: head & (max - 1).  It is always a slot of
   * the ring, and it is head mod max exactly when max is a power of two
   * (StartSlotIsMod).  An empty ring is never
   * indexed, since every request overflows it.
   */
  function StartSlot(w: WorkQueue): (s: nat)
    requires Postable(w)
    ensures w.max > 0 ==> s < w.max
    ensures w.max > 0 && IsPow2(w.max) ==> s == w.head % w.max
  {
    if w.max == 0 then 0
    else if IsPow2(w.max) then
      AndLowMask(w.head, Log2(w.max));
      BitAnd(w.head, w.max - 1)
    else
      BitAndAtMost(w.head, w.max - 1);
      BitAnd(w.head, w.max - 1)
  }

  /**
   * The mask head & (max - 1) the post loops start from is head mod max
   * for every u32 head exactly when max is a power of two: for any other
   * depth, head = max already gives max & (max - 1), which is not 0.
   */
  lemma StartSlotIsMod(max: nat)
    requires 0 < max < U32
    ensures (forall head: nat :: head < U32 ==> BitAnd(head, max - 1) == head % max) <==> IsPow2(max)
  {
    if IsPow2(max) {
      forall head: nat | head < U32
        ensures BitAnd(head, max - 1) == head % max
      {
        AndLowMask(head, Log2(max));
      }
    } else {
      AndPredNonZero(max);
      assert max % max == 0;
    }
  }

  /** The wr_id table after the first n ids are stored in consecutive slots from start, wrapping. */
  function Placed(tbl: seq<nat>, start: nat, ids: seq<nat>, n: nat): (r: seq<nat>)
    requires n <= |ids|
    ensures |r| == |tbl|
  {
    if n == 0 || |tbl| == 0 then tbl
    else Placed(tbl, start, ids, n - 1)[(start + n - 1) % |tbl| := ids[n - 1]]
  }

  /** The distance from start forward to slot s on a ring of m slots. */
  function Ahead(start: nat, s: nat, m: nat): nat
    requires m > 0
  {
    (s - start) % m
  }

  lemma AheadOfSlot(start: nat, i: nat, m: nat)
    requires m > 0 && i < m
    ensures Ahead(start, (start + i) % m, m) == i
  {
    var q := (start + i) / m;
    assert (start + i) % m - start == i - q * m;
    DivModUnique(i - q * m, m, -q, i);
  }

  /**
   * When no more ids are stored than the ring has slots, the i-th id sits
   * in slot (start + i) mod m and every slot further than n ahead of start
   * keeps its old value.
   */
  lemma {:induction false} PlacedSlots(tbl: seq<nat>, start: nat, ids: seq<nat>, n: nat)
    requires n <= |ids| && 0 < n <= |tbl|
    ensures var r := Placed(tbl, start, ids, n);
      (forall i :: 0 <= i < n ==> r[(start + i) % |tbl|] == ids[i])
      && (forall s :: 0 <= s < |tbl| && Ahead(start, s, |tbl|) >= n ==> r[s] == tbl[s])
  {
    var m := |tbl|;
    var r := Placed(tbl, start, ids, n);
    var p := (start + n - 1) % m;
    AheadOfSlot(start, n - 1, m);
    if n > 1 {
      PlacedSlots(tbl, start, ids, n - 1);
      forall i | 0 <= i < n - 1
        ensures r[(start + i) % m] == ids[i]
      {
        AheadOfSlot(start, i, m);
      }
    }
  }


  /** Moving one slot on from (start + n) mod m lands on (start + n + 1) mod m. */
  lemma NextSlot(start: nat, n: nat, m: nat)
    requires m > 0
    ensures var ind := (start + n) % m;
      (if ind + 1 >= m then ind + 1 - m else ind + 1) == (start + n + 1) % m
  {
    var q := (start + n) / m;
    var ind := (start + n) % m;
    if ind + 1 >= m {
      DivModUnique(start + n + 1, m, q + 1, 0);
    } else {
      DivModUnique(start + n + 1, m, q, ind + 1);
    }
  }


  /** ((t + a) mod U32 + b) mod U32 == (t + a + b) mod U32, as Add32 builds it. */
  lemma AddModShift(t: nat, a: nat, b: nat)
    ensures Add32((t + a) % U32, b) == (t + a + b) % U32
  {
    var q := (t + a) / U32;
    var x := (t + a) % U32;
    DivModUnique(t + a + b - q * U32, U32, (x + b) / U32, (x + b) % U32);
    ModShiftBy(t + a + b, q, U32);
  }

  lemma ModShiftBy(x: nat, q: nat, m: nat)
    requires m > 0 && x >= q * m
    ensures (x - q * m) % m == x % m
  {
    var r := (x - q * m) % m;
    var p := (x - q * m) / m;
    assert x == (p + q) * m + r;
    DivModUnique(x, m, p + q, r);
  }

  /** (x mod m + i) mod m == (x + i) mod m. */
  lemma ModAddLeft(x: nat, i: nat, m: nat)
    requires m > 0
    ensures (x % m + i) % m == (x + i) % m
  {
    ModShiftBy(x + i, x / m, m);
  }


  // ---------------------------------------------------------------------
  // post_send

  /**
   * The device opcode of each verbs send opcode (hgrnic_opcode), indexed
   * by IB_WR_RDMA_WRITE (0), RDMA_WRITE_WITH_IMM, SEND, SEND_WITH_IMM,
   * RDMA_READ, ATOMIC_CMP_AND_SWP and ATOMIC_FETCH_AND_ADD (6).
   */
  const OPCODES: seq<nat> := [0x08, 0x09, 0x0a, 0x0b, 0x10, 0x11, 0x12]

  const IB_WR_RDMA_WRITE: nat := 0
  const IB_WR_RDMA_WRITE_WITH_IMM: nat := 1
  const IB_WR_RDMA_READ: nat := 4

  /** The fence flag of the send doorbell (HGRNIC_SEND_DOORBELL_FENCE). */
  const SEND_DOORBELL_FENCE: nat := 0x20

  /** A send work request: its id, verbs opcode, gather count and fence flag. */
  datatype SendWr = SendWr(wrId: nat, opcode: nat, numSge: nat, fence: bool)

  function SendIds(wrs: seq<SendWr>): (ids: seq<nat>)
    ensures |ids| == |wrs| && forall i :: 0 <= i < |wrs| ==> ids[i] == wrs[i].wrId
  {
    seq(|wrs|, i requires 0 <= i < |wrs| => wrs[i].wrId)
  }

  /**
   * The size of a send descriptor in 16-byte units: the next unit, an
   * address unit for RDMA on RC (read, write, write with immediate) and UC
   * (write, write with immediate), the UD unit (three units) on UD, and
   * one unit per gather entry.
   */
  function WqeUnits(t: Transport, wr: SendWr): nat
  {
    HeaderUnits(t, wr.opcode) + wr.numSge
  }

  /** The units before the data: the next unit and the address or UD unit of the transport and opcode. */
  function HeaderUnits(t: Transport, opcode: nat): nat
  {
    var rdma := opcode == IB_WR_RDMA_WRITE || opcode == IB_WR_RDMA_WRITE_WITH_IMM;
    var addr := match t
      case RC => if rdma || opcode == IB_WR_RDMA_READ then RADDR_UNIT_SIZE / 16 else 0
      case UC => if rdma then RADDR_UNIT_SIZE / 16 else 0
      case UD => UD_UNIT_SIZE / 16
      case _ => 0;
    NEXT_UNIT_SIZE / 16 + addr
  }

  /** The device opcode of a request (0 for an opcode outside the table). */
  function DeviceOpcode(wr: SendWr): nat
  {
    OpcodeOf(wr.opcode)
  }

  /** The device opcode of a verbs opcode (0 outside the table). */
  function OpcodeOf(opcode: nat): nat
  {
    if opcode < |OPCODES| then OPCODES[opcode] else 0
  }

  /** The doorbell's fence bits for a request. */
  function FenceBits(wr: SendWr): nat
  {
    Fence(wr.fence)
  }

  /** The doorbell's fence bits for a fence flag. */
  function Fence(fence: bool): nat
  {
    if fence then SEND_DOORBELL_FENCE else 0
  }

  /**
   * The queue as the i-th request sees it (255 is HGRNIC_MAX_WQES_PER_SEND_DB,
   * Wqe.MAX_WQES_PER_SEND_DB): every full batch of 255 before
   * it has moved head on by 510 (255 in hgrnic_send_dbell and 255 more in
   * the loop).
   */
  function BatchQueue(w0: WorkQueue, i: nat): (w: WorkQueue)
    ensures w.head < U32 && w.tail == w0.tail
  {
    w0.(head := Add32(w0.head, 510 * (i / 255)))
  }

  /** The check of the i-th request leaves its wr_id written: room in the ring and few enough gathers. */
  predicate IdStored(w0: WorkQueue, wr: SendWr, i: nat)
    requires w0.tail < U32
  {
    !Overflow(BatchQueue(w0, i), i % 255) && wr.numSge <= w0.maxGs
  }

  /**
   * The outcome of the i-th request's checks: -ENOMEM when the ring is
   * full (counting the i mod 255 requests of the current batch), -EINVAL
   * for too many gathers, -EINVAL for an opcode outside the table (after
   * its wr_id is stored), 0 when it is accepted.
   */
  function SendError(w0: WorkQueue, wr: SendWr, i: nat): (e: int)
    requires w0.tail < U32
    ensures e == 0 <==> IdStored(w0, wr, i) && wr.opcode < |OPCODES|
  {
    if Overflow(BatchQueue(w0, i), i % 255) then -ENOMEM
    else if wr.numSge > w0.maxGs then -EINVAL
    else if wr.opcode >= |OPCODES| then -EINVAL
    else 0
  }

  /**
   * A doorbell as post_send rings it: the arguments of hgrnic_send_dbell
   * other than the QP (head before the ring, size0, f0 and op0), whose
   * two words Wqe.SendDoorbell computes.
   */
  datatype BellCall = BellCall(head: nat, size0: nat, f0: nat, op0: nat)

  /**
   * The doorbell of the k-th batch: the head it sees (h0 + 510k) and the
   * size, fence and opcode of the batch's first request.
   */
  function BatchCall(t: Transport, h0: nat, wrs: seq<SendWr>, k: nat): BellCall
  {
    var i := 255 * k;
    if i < |wrs| then BellCall(Add32(h0, 510 * k), WqeUnits(t, wrs[i]), FenceBits(wrs[i]), DeviceOpcode(wrs[i]))
    else BellCall(0, 0, 0, 0)
  }

  /** The doorbells of the first n batches, in order. */
  function BatchCalls(t: Transport, h0: nat, wrs: seq<SendWr>, n: nat): (calls: seq<BellCall>)
    ensures |calls| == n
  {
    seq(n, k requires 0 <= k < n => BatchCall(t, h0, wrs, k))
  }

  /** The first j requests all pass their checks. */
  ghost predicate Accepted(w0: WorkQueue, wrs: seq<SendWr>, j: nat)
    requires j <= |wrs| && w0.tail < U32
  {
    j == 0 || (Accepted(w0, wrs, j - 1) && SendError(w0, wrs[j - 1], j - 1) == 0)
  }

  lemma {:induction false} AcceptedAll(w0: WorkQueue, wrs: seq<SendWr>, j: nat)
    requires j <= |wrs| && w0.tail < U32 && Accepted(w0, wrs, j)
    ensures forall i :: 0 <= i < j ==> SendError(w0, wrs[i], i) == 0
  {
    if j > 0 {
      AcceptedAll(w0, wrs, j - 1);
    }
  }

  /**
   * The doorbells rung at a batch boundary: the loop reaches request i with
   * 255 pending for every positive multiple i of 255 up to the request it
   * stops at (the failing one, or the last one).
   */
  function BoundaryRings(bad: nat, n: nat): nat
  {
    if bad < n then bad / 255
    else if n == 0 then 0
    else (n - 1) / 255
  }


  /** Two u32 additions in a row are one addition of the sum. */
  lemma AddAdd32(h: nat, a: nat, b: nat)
    ensures Add32(Add32(h, a), b) == Add32(h, a + b)
  {
    AddModShift(h, a, b);
  }

  /**
   * The batch arithmetic of post_send: with j requests passed, r boundary
   * doorbells and nreq pending, r is the number of boundaries crossed and
   * r plus the final doorbell is one doorbell per started batch.
   */
  lemma RingCount(j: nat, r: nat, nreq: nat, failed: bool)
    requires j == 255 * r + nreq && nreq <= 255
    requires !failed && j > 0 ==> nreq >= 1
    requires failed ==> nreq < 255
    ensures r == (if failed then j / 255 else if j == 0 then 0 else (j - 1) / 255)
    ensures r + (if nreq > 0 then 1 else 0) == (j + 254) / 255
  {
    if failed {
      DivModUnique(j, 255, r, nreq);
      if nreq > 0 {
        DivModUnique(j + 254, 255, r + 1, nreq - 1);
      } else {
        DivModUnique(j + 254, 255, r, 254);
      }
    } else if j > 0 {
      DivModUnique(j - 1, 255, r, nreq - 1);
      DivModUnique(j + 254, 255, r + 1, nreq - 1);
    }
  }

  /**
   * The batch arithmetic of the post_send loop before request j, with no
   * request rejected yet: r doorbells rung at batch boundaries, nreq
   * requests pending since the last one (head moved on by 510 per
   * boundary), every request before j accepted, and (size0, f0, op0) taken
   * from the first request of the pending batch.
   */
  ghost predicate Batched(w0: WorkQueue, t: Transport, wrs: seq<SendWr>, j: nat, nreq: nat, r: nat,
                          head: nat, calls: seq<BellCall>, size0: nat, f0: nat, op0: nat)
    requires w0.tail < U32
  {
    j <= |wrs| && nreq <= 255 && j == 255 * r + nreq
    && head == Add32(w0.head, 510 * r)
    && Accepted(w0, wrs, j)
    && calls == BatchCalls(t, w0.head, wrs, r)
    && (nreq > 0 ==> BellCall(head, size0, f0, op0) == BatchCall(t, w0.head, wrs, r))
  }

  /**
   * The state of the post_send loop before request j: the batch arithmetic
   * of Batched, every id before j stored, and ind the slot of request j.
   */
  ghost predicate Sending(w0: WorkQueue, t: Transport, wrs: seq<SendWr>, j: nat, nreq: nat, r: nat,
                          head: nat, ind: nat, wrId: seq<nat>, calls: seq<BellCall>, size0: nat, f0: nat, op0: nat)
    requires Postable(w0)
  {
    Batched(w0, t, wrs, j, nreq, r, head, calls, size0, f0, op0)
    && wrId == Placed(w0.wrId, StartSlot(w0), SendIds(wrs), j)
    && (w0.max > 0 ==> ind == (StartSlot(w0) + j) % w0.max)
  }

  /**
   * A batch boundary: the doorbell rung for the 255 pending requests is the
   * batch's own, and head moves on by 255 in hgrnic_send_dbell and 255 in
   * the loop.
   */
  lemma RingStep(w0: WorkQueue, t: Transport, wrs: seq<SendWr>, j: nat, r: nat,
                 head: nat, ind: nat, wrId: seq<nat>, calls: seq<BellCall>, size0: nat, f0: nat, op0: nat)
    requires Postable(w0)
    requires Sending(w0, t, wrs, j, 255, r, head, ind, wrId, calls, size0, f0, op0)
    ensures Sending(w0, t, wrs, j, 0, r + 1, Add32(Add32(head, 255), 255), ind, wrId,
                    calls + [BellCall(head, size0, f0, op0)], size0, f0, op0)
  {
    AddAdd32(w0.head, 510 * r, 255);
    AddAdd32(w0.head, 510 * r + 255, 255);
    assert BatchCalls(t, w0.head, wrs, r + 1) == calls + [BatchCall(t, w0.head, wrs, r)];
  }

  /**
   * The checks of request j look at the queue BatchQueue(w0, j) with j mod
   * 255 pending: that is the loop's head and nreq.
   */
  lemma CheckView(w0: WorkQueue, t: Transport, wrs: seq<SendWr>, j: nat, nreq: nat, r: nat,
                  head: nat, ind: nat, wrId: seq<nat>, calls: seq<BellCall>, size0: nat, f0: nat, op0: nat)
    requires Postable(w0) && j < |wrs| && nreq < 255
    requires Sending(w0, t, wrs, j, nreq, r, head, ind, wrId, calls, size0, f0, op0)
    ensures BatchQueue(w0, j) == w0.(head := head) && j % 255 == nreq
    ensures IdStored(w0, wrs[j], j) <==> !Overflow(w0.(head := head), nreq) && wrs[j].numSge <= w0.maxGs
    ensures IdStored(w0, wrs[j], j) ==> (w0.max > 0 && ind < |wrId|
      && wrId[ind := wrs[j].wrId] == Placed(w0.wrId, StartSlot(w0), SendIds(wrs), j + 1))
  {
    DivModUnique(j, 255, r, nreq);
    if IdStored(w0, wrs[j], j) {
      assert Add32(Outstanding(BatchQueue(w0, j)), nreq) < w0.max;
    }
  }

  /**
   * An accepted request: its id is stored, the slot moves on (wrapping) and
   * it joins the pending batch, whose doorbell fields it sets when it is
   * the batch's first.
   */
  lemma AcceptStep(w0: WorkQueue, t: Transport, wrs: seq<SendWr>, j: nat, nreq: nat, r: nat,
                   head: nat, ind: nat, wrId: seq<nat>, calls: seq<BellCall>, size0: nat, f0: nat, op0: nat,
                   ind': nat, wrId': seq<nat>, size0': nat, f0': nat, op0': nat)
    requires Postable(w0) && j < |wrs| && nreq < 255
    requires Sending(w0, t, wrs, j, nreq, r, head, ind, wrId, calls, size0, f0, op0)
    requires SendError(w0, wrs[j], j) == 0
    requires ind' == if ind + 1 >= w0.max then ind + 1 - w0.max else ind + 1
    requires wrId' == wrId[ind := wrs[j].wrId]
    requires nreq == 0 ==> size0' == WqeUnits(t, wrs[j]) && f0' == FenceBits(wrs[j]) && op0' == DeviceOpcode(wrs[j])
    requires nreq > 0 ==> size0' == size0 && f0' == f0 && op0' == op0
    ensures Sending(w0, t, wrs, j + 1, nreq + 1, r, head, ind', wrId', calls, size0', f0', op0')
  {
    CheckView(w0, t, wrs, j, nreq, r, head, ind, wrId, calls, size0, f0, op0);
    NextSlot(StartSlot(w0), j, w0.max);
    AcceptBatched(w0, t, wrs, j, nreq, r, head, calls, size0, f0, op0, size0', f0', op0');
  }

  /** An accepted request joins the pending batch, and sets its doorbell fields when it is the first. */
  lemma AcceptBatched(w0: WorkQueue, t: Transport, wrs: seq<SendWr>, j: nat, nreq: nat, r: nat,
                      head: nat, calls: seq<BellCall>, size0: nat, f0: nat, op0: nat,
                      size0': nat, f0': nat, op0': nat)
    requires w0.tail < U32 && j < |wrs| && nreq < 255
    requires Batched(w0, t, wrs, j, nreq, r, head, calls, size0, f0, op0)
    requires SendError(w0, wrs[j], j) == 0
    requires nreq == 0 ==> size0' == WqeUnits(t, wrs[j]) && f0' == FenceBits(wrs[j]) && op0' == DeviceOpcode(wrs[j])
    requires nreq > 0 ==> size0' == size0 && f0' == f0 && op0' == op0
    ensures Batched(w0, t, wrs, j + 1, nreq + 1, r, head, calls, size0', f0', op0')
  {
    assert Accepted(w0, wrs, j + 1);
  }

  /**
   * The end of post_send: with the loop stopped at request j (rejected when
   * failed) and a last doorbell for the nreq pending requests, head has
   * moved by j plus 255 per boundary, and one doorbell was rung per batch.
   */
  lemma FinishSend(w0: WorkQueue, t: Transport, wrs: seq<SendWr>, j: nat, nreq: nat, r: nat,
                   head: nat, calls: seq<BellCall>, size0: nat, f0: nat, op0: nat, failed: bool)
    requires w0.tail < U32
    requires Batched(w0, t, wrs, j, nreq, r, head, calls, size0, f0, op0)
    requires !failed ==> j == |wrs| && (j > 0 ==> nreq >= 1)
    requires failed ==> j < |wrs| && nreq < 255
    ensures var calls' := if nreq > 0 then calls + [BellCall(head, size0, f0, op0)] else calls;
      var head' := if nreq > 0 then Add32(head, nreq) else head;
      head' == Add32(w0.head, j + 255 * BoundaryRings(j, |wrs|))
      && calls' == BatchCalls(t, w0.head, wrs, (j + 254) / 255)
    ensures forall i :: 0 <= i < j ==> SendError(w0, wrs[i], i) == 0
  {
    RingCount(j, r, nreq, failed);
    AcceptedAll(w0, wrs, j);
    FinishHead(w0.head, j, r, nreq, BoundaryRings(j, |wrs|));
    FinishCalls(t, w0.head, wrs, j, nreq, r, calls, BellCall(head, size0, f0, op0), failed);
  }

  /** The doorbells after the last one: one per started batch, in order. */
  lemma FinishCalls(t: Transport, h0: nat, wrs: seq<SendWr>, j: nat, nreq: nat, r: nat,
                    calls: seq<BellCall>, bell: BellCall, failed: bool)
    requires j == 255 * r + nreq && nreq <= 255
    requires !failed && j > 0 ==> nreq >= 1
    requires failed ==> nreq < 255
    requires calls == BatchCalls(t, h0, wrs, r)
    requires nreq > 0 ==> bell == BatchCall(t, h0, wrs, r)
    ensures (if nreq > 0 then calls + [bell] else calls) == BatchCalls(t, h0, wrs, (j + 254) / 255)
  {
    RingCount(j, r, nreq, failed);
    assert BatchCalls(t, h0, wrs, r + 1) == calls + [BatchCall(t, h0, wrs, r)];
  }

  /** The head after the last doorbell: 510 per boundary plus the pending requests is j plus 255 per boundary. */
  lemma FinishHead(h0: nat, j: nat, r: nat, nreq: nat, rings: nat)
    requires j == 255 * r + nreq && rings == r
    ensures (if nreq > 0 then Add32(Add32(h0, 510 * r), nreq) else Add32(h0, 510 * r)) == Add32(h0, j + 255 * rings)
  {
    if nreq > 0 {
      AddAdd32(h0, 510 * r, nreq);
    }
  }
}
