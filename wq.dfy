/**
 * A work queue's ring indices (struct hgrnic_wq in the kernel driver,
 * struct hgrnic_wq in the user-space library) and the queue pair that owns a
 * send and a receive queue.  head counts posted work requests and tail
 * retired ones, both as 32-bit unsigned counters that only go up (modulo
 * 2^32); last_cpl is the slot of the last completed request.
 */
module Wq {
  import opened Common
  import opened CqSpec

  datatype WorkQueue = WorkQueue(
    max: nat,          // number of slots (a power of two in the library, as copied in the kernel)
    nextInd: nat,
    lastCpl: nat,      // last completed slot (unsigned)
    head: nat,         // u32
    tail: nat,         // u32
    maxGs: nat,
    entrySzLog: nat,   // log2 of the descriptor size
    wrId: seq<nat>)    // the work-request id of every slot

  /**
   * The indices of a queue whose u32 counters are well formed and whose
   * tail is in step with the last completed slot (the invariant poll_one
   * keeps, CqSpec.TailSynced).
   */
  ghost predicate Synced(w: WorkQueue)
  {
    IsPow2(w.max) && w.max < U32 && w.head < U32 && w.tail < U32
    && TailSynced(w.tail, w.lastCpl, w.max)
  }

  /**
   * hgrnic_wq_reset (and the user-space hgrnic_init_qp_indices for one
   * queue): nothing posted and nothing retired, next_ind 0, and last_cpl the
   * slot before slot 0 (max - 1 as an unsigned value, all ones for max 0).
   */
  function Reset(w: WorkQueue): (r: WorkQueue)
    ensures r.max == w.max && r.maxGs == w.maxGs && r.entrySzLog == w.entrySzLog && r.wrId == w.wrId
    ensures r.head == 0 && r.tail == 0 && Outstanding(r) == 0 && r.nextInd == 0
    ensures IsPow2(w.max) && w.max < U32 ==> Synced(r)
  {
    var r := w.(nextInd := 0, lastCpl := if w.max > 0 then w.max - 1 else U32_ALL_ONES, head := 0, tail := 0);
    if w.max > 0 then TailSyncedAtReset(w.max); r else r
  }

  /** The number of posted but unretired requests: head - tail in u32 arithmetic. */
  function Outstanding(w: WorkQueue): (n: nat)
    requires w.head < U32 && w.tail < U32
    ensures n < U32 && (w.tail + n) % U32 == w.head
  {
    Sub32(w.head, w.tail)
  }

  /**
   * hgrnic_wq_overflow (and the library's wq_overflow): nreq more requests
   * do not fit when (head - tail) + nreq, in u32 arithmetic, reaches max.
   */
  predicate Overflow(w: WorkQueue, nreq: nat)
    requires w.head < U32 && w.tail < U32
  {
    Add32(Outstanding(w), nreq) >= w.max
  }

  /**
   * With k <= max requests outstanding (head = tail + k modulo 2^32) and a
   * batch small enough not to wrap, the test says exactly "k + nreq does
   * not fit in max slots", whatever the counters have wrapped to.
   */
  lemma OverflowExact(w: WorkQueue, k: nat, nreq: nat)
    requires w.head < U32 && w.tail < U32 && w.max < U32
    requires k <= w.max && w.head == (w.tail + k) % U32
    requires w.max + nreq < U32
    ensures Overflow(w, nreq) <==> k + nreq >= w.max
  {
    SameResidue(w.tail, Outstanding(w), k, U32);
  }

  /** Two offsets below m that leave the same residue from x are equal. */
  lemma SameResidue(x: nat, a: nat, b: nat, m: nat)
    requires m > 0 && a < m && b < m && (x + a) % m == (x + b) % m
    ensures a == b
  {
    var r := (x + a) % m;
    var q1, q2 := (x + a) / m, (x + b) / m;
    assert x + a == q1 * m + r && x + b == q2 * m + r;
    MulSubDistrib(q1, q2, m);
    if q1 > q2 {
      MulAtLeast(q1 - q2, m);
    } else if q2 > q1 {
      MulSubDistrib(q2, q1, m);
      MulAtLeast(q2 - q1, m);
    }
  }

  /** The index of the descriptor at byte offset wqe: wqe >> entry_sz_log. */
  function WqeIndex(w: WorkQueue, wqe: nat): (idx: nat)
    ensures idx * Pow2(w.entrySzLog) <= wqe < (idx + 1) * Pow2(w.entrySzLog)
  {
    DivBounds(wqe, Pow2(w.entrySzLog));
    Shr(wqe, w.entrySzLog)
  }

  /** wr_id[idx], or None when idx is past the table (an out-of-bounds read in C). */
  function WrIdAt(w: WorkQueue, idx: nat): (r: Option<nat>)
    ensures r.Some? <==> idx < |w.wrId|
    ensures r.Some? ==> r.value == w.wrId[idx]
  {
    if idx < |w.wrId| then Some(w.wrId[idx]) else None
  }

  /**
   * The work-queue accounting of poll_one for a completion at slot idx: the
   * tail moves on by the requests retired and idx becomes the last
   * completed slot.
   */
  function Complete(w: WorkQueue, idx: nat): (r: WorkQueue)
    ensures r.tail < U32
    ensures r == w.(tail := r.tail, lastCpl := idx)
  {
    w.(tail := TailStep(w.tail, w.lastCpl, idx, w.max), lastCpl := idx)
  }

  /**
   * w is w0 with only the completion bookkeeping moved on: tail and
   * last_cpl may differ, every other field (head, sizes, the wr_id table)
   * is as it was.
   */
  predicate Progressed(w0: WorkQueue, w: WorkQueue)
  {
    w.max == w0.max && w.nextInd == w0.nextInd && w.head == w0.head
    && w.maxGs == w0.maxGs && w.entrySzLog == w0.entrySzLog && w.wrId == w0.wrId
  }

  /** Completions one after the other only ever move tail and last_cpl. */
  lemma ProgressedTrans(w0: WorkQueue, w1: WorkQueue, w2: WorkQueue)
    requires Progressed(w0, w1) && Progressed(w1, w2)
    ensures Progressed(w0, w2)
  {
  }

  /**
   * A completion at a slot inside the queue retires between 1 and max
   * requests and keeps the queue Synced; head is untouched.
   */
  lemma CompleteKeepsSynced(w: WorkQueue, idx: nat)
    requires Synced(w) && idx < w.max
    ensures var r := Complete(w, idx);
      var d := (idx - w.lastCpl - 1) % w.max + 1;
      Synced(r) && 1 <= d <= w.max && r.tail == (w.tail + d) % U32 && r.head == w.head
  {
    TailStepAdvances(w.tail, w.lastCpl, idx, w.max);
  }

  /**
   * A queue pair as the completion and post paths see it: its number, its
   * two work queues, which poll_one and the post paths update in place,
   * and max_inline_data, the bound the user-space post_send checks inline
   * payloads against.
   */
  class Qp {
    const qpn: nat
    var sq: WorkQueue
    var rq: WorkQueue
    var maxInline: nat

    constructor (n: nat, s: WorkQueue, r: WorkQueue, inl: nat)
      ensures qpn == n && sq == s && rq == r && maxInline == inl
    {
      qpn, sq, rq, maxInline := n, s, r, inl;
    }
  }
}
