/**
 * The kernel driver's completion queues (hgrnic_cq.c): consuming entries by
 * their owner bit, the work-queue accounting of each completion, polling
 * across a pending resize, and setting a queue up and tearing it down.
 */
module Cq {
  import opened Common
  import opened CqSpec
  import opened CqRing
  import opened Wq
  import opened Allocator
  import opened Trace

  /** The states of a pending resize (enum in hgrnic_provider.h). */
  datatype ResizeState = ResizeAlloc | ResizeReady | ResizeSwapped

  /** struct hgrnic_cq_resize: the second buffer and its mask. */
  class CqResize {
    var buf: array<Cqe>
    var cqe: nat
    var state: ResizeState

    constructor (b: array<Cqe>, c: nat, s: ResizeState)
      ensures buf == b && cqe == c && state == s
    {
      buf, cqe, state := b, c, s;
    }
  }

  /**
   * struct hgrnic_cq.  cqe is the ring size minus one and serves as the
   * mask of the consumer index; cons_index only goes up.
   */
  class Cq {
    const cqn: nat
    const isKernel: bool
    var buf: array<Cqe>
    var cqe: nat
    var consIndex: nat
    var refcount: int
    var resize: CqResize?

    /**
     * The ring is a power of two in size with cqe one less, and a resize
     * buffer, once it exists, is a different ring of the same kind.
     */
    ghost predicate Valid()
      reads this, resize
    {
      IsPow2(buf.Length) && buf.Length == cqe + 1
      && (resize != null ==>
            resize.buf != buf
            && (resize.state != ResizeAlloc ==> IsPow2(resize.buf.Length) && resize.buf.Length == resize.cqe + 1))
    }

    /**
     * The queue init_cq sets up for number n with a ring of nent entries:
     * nothing consumed, one reference, no resize, and a kernel ring owned
     * entirely by hardware.
     */
    ghost predicate Initial(n: nat, nent: nat, kernel: bool)
      reads this, buf, resize
    {
      Valid() && cqn == n && isKernel == kernel && buf.Length == nent
      && consIndex == 0 && refcount == 1 && resize == null
      && (kernel ==> forall j :: 0 <= j < nent ==> !SwOwned(buf[j]))
    }

    /** The state init_cq leaves a queue in: empty consumer index, one reference, no resize. */
    constructor (n: nat, kernel: bool, b: array<Cqe>)
      requires IsPow2(b.Length)
      ensures Valid() && cqn == n && isKernel == kernel && buf == b
      ensures cqe == b.Length - 1 && consIndex == 0 && refcount == 1 && resize == null
    {
      cqn, isKernel, buf, cqe := n, kernel, b, b.Length - 1;
      consIndex, refcount, resize := 0, 1, null;
    }

    /**
     * hgrnic_cq_clean: the completions of queue pair qpn among the
     * software-owned entries from cons_index on are removed, the others keep
     * their order and move up, and cons_index moves past the slots handed
     * back to hardware (CqRing.Clean).
     */
    method CleanQp(qpn: nat)
      requires Valid()
      modifies this, buf
      ensures Valid() && buf == old(buf) && cqe == old(cqe) && resize == old(resize) && refcount == old(refcount)
      ensures Cleans(old(buf[..]), old(consIndex), buf[..], consIndex, qpn)
    {
      consIndex := Clean(buf, consIndex, qpn);
    }

    /**
     * hgrnic_poll_one.  The entry at cons_index & cqe is examined; when it is
     * owned by hardware the queue is empty (-EAGAIN) and nothing changes.
     * Otherwise the queue pair is the cached one if its number matches, else
     * the table's entry at qpn & (num_qps - 1); without one the result is
     * -EINVAL.  The work-request id is read from the send queue's table for
     * receive completions too, at the index computed with the receive
     * queue's entry size.  Whatever happened, a consumed entry is handed back
     * to hardware and the consumer index moves on by one.
     */
    method PollOne(qps: map<nat, Qp>, numQps: nat, cur: Qp?) returns (err: int, wc: Option<Wc>, qp: Qp?)
      requires Valid() && numQps > 0
      requires cur == null || cur in qps.Values
      modifies this, buf, qps.Values
      ensures Valid() && buf == old(buf) && cqe == old(cqe) && resize == old(resize) && refcount == old(refcount)
      ensures qp == null || qp in qps.Values
      ensures var slot := old(consIndex) % buf.Length;
        var e := old(buf[slot]);
        if !SwOwned(e) then
          err == -EAGAIN && wc.None? && qp == cur
          && consIndex == old(consIndex) && buf[..] == old(buf[..])
          && States(qps.Values) == old(States(qps.Values))
        else
          consIndex == old(consIndex) + 1 && buf[..] == old(buf[..])[slot := ToHw(e)]
          && qp == FindQp(cur, qps, numQps, e.qpn)
          && (qp == null ==>
                err == -EINVAL && wc.None? && States(qps.Values) == old(States(qps.Values)))
          && (qp != null ==>
                var idx := WqeIndex(if IsSend(e) then old(qp.sq) else old(qp.rq), e.wqe);
                err == 0
                && wc == Some(Completion(e, KernelWrId(old(qp.sq), old(qp.rq), e), qp.qpn, true))
                && qp.sq == (if IsSend(e) then Complete(old(qp.sq), idx) else old(qp.sq))
                && qp.rq == (if IsSend(e) then old(qp.rq) else Complete(old(qp.rq), idx))
                && Advanced(old(States(qps.Values)), States(qps.Values), [qp]))
    {
      var slot := consIndex % buf.Length;
      var e := buf[slot];
      if !SwOwned(e) {
        return -EAGAIN, None, cur;
      }
      qp := cur;
      if qp == null || e.qpn != qp.qpn {
        var key := BitAnd(e.qpn, numQps - 1);
        qp := if key in qps then qps[key] else null;
      }
      if qp == null {
        err, wc := -EINVAL, None;
      } else {
        var c := AccountCqe(qp, e, qps.Values);
        err, wc := 0, Some(c);
      }
      Release(slot);
    }

    /** set_cqe_hw and ++cons_index: the entry at slot is handed back to hardware. */
    method Release(slot: nat)
      requires slot < buf.Length
      modifies this, buf
      ensures buf == old(buf) && cqe == old(cqe) && resize == old(resize) && refcount == old(refcount)
      ensures buf[..] == old(buf[..])[slot := ToHw(old(buf[slot]))] && consIndex == old(consIndex) + 1
    {
      buf[slot] := ToHw(buf[slot]);
      consIndex := consIndex + 1;
    }

    /**
     * The swap of hgrnic_poll_cq: the resize buffer's ring and mask become
     * the queue's, the old ones go to the resize buffer, which is SWAPPED.
     */
    method SwapRings()
      requires Valid() && resize != null && resize.state == ResizeReady
      modifies this, resize
      ensures Valid() && resize == old(resize) && refcount == old(refcount) && consIndex == old(consIndex)
      ensures buf == old(resize.buf) && cqe == old(resize.cqe) && resize.buf == old(buf) && resize.cqe == old(cqe)
      ensures resize.state == ResizeSwapped
    {
      var tbuf, tcqe := buf, cqe;
      buf, cqe := resize.buf, resize.cqe;
      resize.buf, resize.cqe, resize.state := tbuf, tcqe, ResizeSwapped;
    }

    /** PollState of this CQ's consumer index and ring and the queue pairs' current state. */
    ghost predicate Polling(qps: map<nat, Qp>, numQps: nat, cur: Qp?, s0: map<Qp, QpState>,
                            done: seq<Qp>, ci0: nat, v: seq<Cqe>, wcs: seq<Wc>, qs: seq<Qp>, n: nat)
      reads this, buf, qps.Values
      requires numQps > 0
    {
      PollState(qps, numQps, cur, s0, done, ci0, v, wcs, qs, n, consIndex, buf[..], States(qps.Values))
    }

    /**
     * One turn of the polling loop of hgrnic_poll_cq: poll_one, with the
     * completion, when there is one, appended to wcs and its queue pair to
     * qs.  -EAGAIN consumes nothing; -EINVAL consumes the entry without a
     * completion.
     */
    method PollStep(qps: map<nat, Qp>, numQps: nat, cur: Qp?, qp: Qp?, ghost s0: map<Qp, QpState>,
                    ghost done: seq<Qp>, ghost ci0: nat, ghost v: seq<Cqe>, wcs: seq<Wc>, ghost qs: seq<Qp>)
        returns (err: int, wcs': seq<Wc>, qp': Qp?, ghost qs': seq<Qp>)
      requires Valid() && numQps > 0
      requires cur == null || cur in qps.Values
      requires Polling(qps, numQps, cur, s0, done, ci0, v, wcs, qs, |wcs|) && qp == Last(cur, qs)
      modifies this, buf, qps.Values
      ensures Valid() && buf == old(buf) && cqe == old(cqe) && resize == old(resize) && refcount == old(refcount)
      ensures err == 0 || err == -EAGAIN || err == -EINVAL
      ensures qp' == null || qp' in qps.Values
      ensures err == 0 ==> |wcs'| == |wcs| + 1 && qp' == Last(cur, qs')
      ensures err != 0 ==> wcs' == wcs && qs' == qs
      ensures err == -EAGAIN ==> qp' == qp && !SwOwned(buf[consIndex % buf.Length])
      ensures Polling(qps, numQps, cur, s0, done, ci0, v, wcs', qs', if err == -EAGAIN then |wcs| else |wcs| + 1)
    {
      ghost var s := buf[..];
      ghost var st := States(qps.Values);
      ghost var ci := consIndex;
      LastServed(qps, numQps, cur, v, wcs, qs);
      var wc;
      err, wc, qp' := PollOne(qps, numQps, qp);
      wcs', qs' := wcs, qs;
      if err == -EAGAIN {
        PollStateIdle(qps, numQps, cur, s0, done, ci0, v, wcs, qs, ci, s, st);
        return;
      }
      if err == -EINVAL {
        PollStateSkip(qps, numQps, cur, s0, done, ci0, v, wcs, qs, ci, s, st);
        return;
      }
      var q: Qp := qp';
      PollStateHit(qps, numQps, cur, s0, done, ci0, v, wcs, qs, ci, s, st, States(qps.Values), wc.value, q);
      wcs', qs' := wcs + [wc.value], qs + [q];
    }

    /**
     * The polling loop of hgrnic_poll_cq: at most budget entries, stopping at
     * the first error.  The entries consumed are the software-owned ones
     * from cons_index on, in ring order, each handed back to hardware; the
     * k-th completion returned decodes the k-th of them, and an entry of an
     * unknown queue pair is consumed without one (-EINVAL).  -EAGAIN means
     * the next entry is owned by hardware.  The k-th completion went to
     * queue pair qs[k], the one FindQp picks after the one before (Served),
     * and carries the id KernelWrId reads from that queue pair's tables as
     * they were on entry (IdsRead); only the tails and last_cpl of the
     * queue pairs in qs move, every other field of every queue pair stays
     * (Advanced).
     */
    method PollLoop(qps: map<nat, Qp>, numQps: nat, cur: Qp?, budget: nat,
                    ghost s0: map<Qp, QpState>, ghost done: seq<Qp>)
        returns (err: int, wcs: seq<Wc>, qp: Qp?, ghost qs: seq<Qp>)
      requires Valid() && numQps > 0
      requires cur == null || cur in qps.Values
      requires Advanced(s0, States(qps.Values), done)
      modifies this, buf, qps.Values
      ensures Valid() && buf == old(buf) && cqe == old(cqe) && resize == old(resize) && refcount == old(refcount)
      ensures qp == null || qp in qps.Values
      ensures err == 0 || err == -EAGAIN || err == -EINVAL
      ensures err == 0 ==> |wcs| == budget
      ensures err != 0 ==> |wcs| < budget
      ensures err == -EAGAIN ==> !SwOwned(buf[consIndex % buf.Length])
      ensures consIndex == old(consIndex) + |wcs| + (if err == -EINVAL then 1 else 0)
      ensures PollState(qps, numQps, cur, s0, done, old(consIndex),
                        Window(old(buf[..]), old(consIndex), buf.Length), wcs, qs,
                        consIndex - old(consIndex), consIndex, buf[..], States(qps.Values))
      ensures err != -EINVAL ==> qp == Last(cur, qs)
    {
      ghost var ci0 := consIndex;
      ghost var v := Window(buf[..], ci0, buf.Length);
      ConsumedNone(buf[..], ci0);
      assert done + [] == done;
      err, wcs, qp, qs := 0, [], cur, [];
      while |wcs| < budget
        invariant Valid() && buf == old(buf) && cqe == old(cqe) && resize == old(resize) && refcount == old(refcount)
        invariant |wcs| <= budget && err == 0
        invariant Polling(qps, numQps, cur, s0, done, ci0, v, wcs, qs, |wcs|) && qp == Last(cur, qs)
        invariant qp == null || qp in qps.Values
        decreases budget - |wcs|
      {
        err, wcs, qp, qs := PollStep(qps, numQps, cur, qp, s0, done, ci0, v, wcs, qs);
        if err != 0 {
          return;
        }
      }
    }

    /**
     * hgrnic_poll_cq.  The first ring is polled for up to num entries,
     * giving the completions wcs1 of queue pairs qs1 and ending with e1, the
     * queue pairs then in state mid.  Exactly when it ran empty (-EAGAIN)
     * while a resize buffer is READY and that buffer's entry at the consumer
     * index is owned by software, the two rings (and masks) are exchanged,
     * the resize becomes SWAPPED and polling goes on in the new ring for the
     * rest of the budget, giving wcs2 and qs2.  Each ring's poll is
     * described by PollState: its entries consumed in order and handed back,
     * its completions decoding them, served to the queue pairs FindQp
     * chains from no cached one on, with the ids read from the queue pairs'
     * state on entry; only the tails and last_cpl of the queue pairs served
     * move.  The result is the number of completions unless the last poll
     * met an unknown queue pair (-EINVAL); a count below num means both
     * rings were found empty.
     */
    method PollCq(qps: map<nat, Qp>, numQps: nat, num: int)
        returns (r: int, wcs: seq<Wc>, ghost wcs1: seq<Wc>, ghost wcs2: seq<Wc>, ghost e1: int,
                 ghost qs1: seq<Qp>, ghost qs2: seq<Qp>, ghost mid: map<Qp, QpState>)
      requires Valid() && numQps > 0
      modifies this, buf, qps.Values, if resize == null then {} else {resize, resize.buf}
      ensures Valid() && resize == old(resize) && refcount == old(refcount)
      ensures r >= 0 ==> r == |wcs| && (num <= 0 ==> r == 0) && (num > 0 ==> r <= num)
      ensures r < 0 ==> r == -EINVAL
      ensures 0 <= r < num ==>
        !SwOwned(buf[consIndex % buf.Length])
        && (resize != null && resize.state == ResizeReady ==> !SwOwned(resize.buf[consIndex % resize.buf.Length]))
      ensures e1 == 0 || e1 == -EAGAIN || e1 == -EINVAL
      ensures wcs == wcs1 + wcs2 && (e1 == 0 <==> |wcs1| == (if num > 0 then num else 0))
      ensures resize != null ==>
        resize.state == old(resize.state) || (old(resize.state) == ResizeReady && resize.state == ResizeSwapped)
      ensures var swapped := resize != null && resize.state != old(resize.state);
        var ring1 := if swapped then resize.buf else buf;
        var c1 := old(consIndex) + |wcs1| + (if e1 == -EINVAL then 1 else 0);
        var v1 := Window(old(buf[..]), old(consIndex), old(buf.Length));
        ring1 == old(buf)
        && PollState(qps, numQps, null, old(States(qps.Values)), [], old(consIndex), v1, wcs1, qs1,
                     c1 - old(consIndex), c1, ring1[..], mid)
        && (e1 == -EAGAIN ==> !SwOwned(ring1[c1 % ring1.Length]))
        && (swapped <==> e1 == -EAGAIN && old(resize) != null && old(resize.state) == ResizeReady
                         && SwOwned(old(resize.buf[c1 % resize.buf.Length])))
        && (!swapped ==>
              wcs2 == [] && qs2 == [] && consIndex == c1 && cqe == old(cqe) && mid == States(qps.Values)
              && (r < 0 <==> e1 == -EINVAL))
        && (swapped ==>
              var v2 := Window(old(resize.buf[..]), c1, buf.Length);
              buf == old(resize.buf) && cqe == old(resize.cqe) && resize.cqe == old(cqe)
              && consIndex == c1 + |wcs2| + (if r < 0 then 1 else 0)
              && PollState(qps, numQps, Last(null, qs1), old(States(qps.Values)), qs1, c1, v2, wcs2, qs2,
                           consIndex - c1, consIndex, buf[..], States(qps.Values)))
      ensures Advanced(old(States(qps.Values)), States(qps.Values), qs1 + qs2)
    {
      var budget: nat := if num > 0 then num else 0;
      var err, qp;
      AdvancedRefl(States(qps.Values));
      err, wcs, qp, qs1 := PollLoop(qps, numQps, null, budget, States(qps.Values), []);
      assert [] + qs1 == qs1 + [] == qs1;
      wcs1, wcs2, qs2, e1, mid := wcs, [], [], err, States(qps.Values);
      ghost var ring1 := buf[..];
      if err == -EAGAIN && resize != null && resize.state == ResizeReady
        && SwOwned(resize.buf[consIndex % resize.buf.Length])
      {
        SwapRings();
        assert States(qps.Values) == mid;
        assert buf[..] == old(resize.buf[..]);
        var more;
        err, more, qp, qs2 := PollLoop(qps, numQps, qp, budget - |wcs|, old(States(qps.Values)), qs1);
        assert resize.buf[..] == ring1;
        wcs, wcs2 := wcs + more, more;
      }
      r := if err == 0 || err == -EAGAIN then |wcs| else err;
    }
  }

  /**
   * The work-queue side of a completion in hgrnic_poll_one: the wr_id is
   * read (KernelWrId) and the queue the entry names retires the request at
   * its descriptor index; of the queue pairs in qset only qp moves, and
   * only its tail and last_cpl.
   */
  method AccountCqe(qp: Qp, e: Cqe, ghost qset: set<Qp>) returns (wc: Wc)
    requires qp in qset
    modifies qp
    ensures var idx := WqeIndex(if IsSend(e) then old(qp.sq) else old(qp.rq), e.wqe);
      wc == Completion(e, KernelWrId(old(qp.sq), old(qp.rq), e), qp.qpn, true)
      && qp.sq == (if IsSend(e) then Complete(old(qp.sq), idx) else old(qp.sq))
      && qp.rq == (if IsSend(e) then old(qp.rq) else Complete(old(qp.rq), idx))
      && qp.maxInline == old(qp.maxInline)
    ensures Advanced(old(States(qset)), States(qset), [qp])
  {
    var wrId := KernelWrId(qp.sq, qp.rq, e);
    if IsSend(e) {
      qp.sq := Complete(qp.sq, WqeIndex(qp.sq, e.wqe));
    } else {
      qp.rq := Complete(qp.rq, WqeIndex(qp.rq, e.wqe));
    }
    wc := Completion(e, wrId, qp.qpn, true);
  }

  /**
   * The queue pair a completion for qpn goes to: the cached one when its
   * number matches, otherwise the table's entry at qpn & (num_qps - 1).
   */
  function FindQp(cur: Qp?, qps: map<nat, Qp>, numQps: nat, qpn: nat): (q: Qp?)
    requires numQps > 0
    ensures q == null || q == cur || q in qps.Values
    ensures cur != null && cur.qpn == qpn ==> q == cur
    ensures (cur == null || cur.qpn != qpn) ==>
      (q != null <==> BitAnd(qpn, numQps - 1) in qps)
  {
    if cur != null && cur.qpn == qpn then cur
    else
      var key := BitAnd(qpn, numQps - 1);
      if key in qps then qps[key] else null
  }

  /**
   * The work-request id the kernel's poll_one reports for entry e of a queue
   * pair with send queue sq and receive queue rq: the slot index comes from
   * the queue the entry belongs to, the id from the send queue's table.
   */
  function KernelWrId(sq: WorkQueue, rq: WorkQueue, e: Cqe): Option<nat>
  {
    WrIdAt(sq, WqeIndex(if IsSend(e) then sq else rq, e.wqe))
  }

  /** The id the user-space library's poll_one reports: from the entry's own queue. */
  function UserWrId(sq: WorkQueue, rq: WorkQueue, e: Cqe): Option<nat>
  {
    var wq := if IsSend(e) then sq else rq;
    WrIdAt(wq, WqeIndex(wq, e.wqe))
  }

  /** Moving tails on does not change which id either poll_one reads for an entry. */
  lemma WrIdsKept(sq0: WorkQueue, rq0: WorkQueue, sq: WorkQueue, rq: WorkQueue, e: Cqe)
    requires Progressed(sq0, sq) && Progressed(rq0, rq)
    ensures KernelWrId(sq0, rq0, e) == KernelWrId(sq, rq, e) && UserWrId(sq0, rq0, e) == UserWrId(sq, rq, e)
  {
  }

  /** The queue pair a poll loop ends up caching: the last one served, cur if none. */
  function Last(cur: Qp?, qs: seq<Qp>): (q: Qp?)
    ensures |qs| > 0 ==> q == qs[|qs| - 1]
    ensures |qs| == 0 ==> q == cur
  {
    if |qs| == 0 then cur else qs[|qs| - 1]
  }

  /** The fields of a queue pair a poll loop reads or moves on. */
  datatype QpState = QpState(sq: WorkQueue, rq: WorkQueue, maxInline: nat)

  /** A snapshot of the queue pairs in s. */
  ghost function States(s: set<Qp>): (m: map<Qp, QpState>)
    reads s
  {
    map o | o in s :: QpState(o.sq, o.rq, o.maxInline)
  }

  /**
   * From snapshot s0 to s1 the same queue pairs only had completions
   * retired: each one's queues moved on no more than their tail and
   * last_cpl (Progressed), its max_inline kept, and a queue pair not in qs
   * did not change at all.
   */
  ghost predicate Advanced(s0: map<Qp, QpState>, s1: map<Qp, QpState>, qs: seq<Qp>)
  {
    s1.Keys == s0.Keys
    && forall o :: o in s1 ==>
         Progressed(s0[o].sq, s1[o].sq) && Progressed(s0[o].rq, s1[o].rq)
         && s1[o].maxInline == s0[o].maxInline && (o !in qs ==> s1[o] == s0[o])
  }

  lemma AdvancedRefl(s: map<Qp, QpState>)
    ensures Advanced(s, s, [])
  {
  }

  /** Two rounds of retiring completions are one round for the queue pairs of both. */
  lemma AdvancedTrans(s0: map<Qp, QpState>, s1: map<Qp, QpState>, s2: map<Qp, QpState>, qs1: seq<Qp>, qs2: seq<Qp>)
    requires Advanced(s0, s1, qs1) && Advanced(s1, s2, qs2)
    ensures Advanced(s0, s2, qs1 + qs2)
  {
    forall o | o in s2
      ensures Progressed(s0[o].sq, s2[o].sq) && Progressed(s0[o].rq, s2[o].rq)
    {
      ProgressedTrans(s0[o].sq, s1[o].sq, s2[o].sq);
      ProgressedTrans(s0[o].rq, s1[o].rq, s2[o].rq);
    }
  }

  /** The id poll_one reports for entry e of a queue pair in state st: the kernel's or the library's. */
  function IdFor(st: QpState, e: Cqe, kernel: bool): Option<nat>
  {
    if kernel then KernelWrId(st.sq, st.rq, e) else UserWrId(st.sq, st.rq, e)
  }

  /**
   * The k-th completion, decoded from entry v[k], went to queue pair qs[k]:
   * it carries that queue pair's number and the id read from its tables as
   * they were in snapshot s0.
   */
  ghost predicate IdsRead(wcs: seq<Wc>, qs: seq<Qp>, v: seq<Cqe>, s0: map<Qp, QpState>, kernel: bool)
  {
    |qs| == |wcs| <= |v|
    && forall k {:trigger wcs[k]} :: 0 <= k < |qs| ==>
         qs[k] in s0 && wcs[k].qpn == qs[k].qpn && wcs[k].wrId == IdFor(s0[qs[k]], v[k], kernel)
  }

  lemma IdsReadStep(wcs: seq<Wc>, qs: seq<Qp>, v: seq<Cqe>, s0: map<Qp, QpState>, kernel: bool, wc: Wc, qp: Qp)
    requires IdsRead(wcs, qs, v, s0, kernel) && |wcs| < |v|
    requires qp in s0 && wc.qpn == qp.qpn && wc.wrId == IdFor(s0[qp], v[|wcs|], kernel)
    ensures IdsRead(wcs + [wc], qs + [qp], v, s0, kernel)
  {
  }

  /**
   * The state of a poll loop that started at consumer index ci0 with
   * window v, the queue pairs then in state s0, now at consumer index ci on
   * ring s with the queue pairs in state st: n entries consumed and handed
   * back, the completions wcs decoding the first of them and served to the
   * queue pairs qs (Served, IdsRead), and the queue pairs moved on from s0
   * only by completions of those in qs (Advanced).
   */
  ghost predicate PollState(qps: map<nat, Qp>, numQps: nat, cur: Qp?, s0: map<Qp, QpState>, done: seq<Qp>, ci0: nat,
                            v: seq<Cqe>, wcs: seq<Wc>, qs: seq<Qp>, n: nat, ci: nat, s: seq<Cqe>,
                            st: map<Qp, QpState>)
    requires numQps > 0
  {
    ci == ci0 + n && Consumed(s, ci0, v, n) && Decoded(wcs, v, true)
    && Served(qps, numQps, cur, v, wcs, qs) && IdsRead(wcs, qs, v, s0, true)
    && Advanced(s0, st, done + qs)
  }

  /** A hardware-owned entry at the consumer index ends the loop with nothing changed. */
  lemma PollStateIdle(qps: map<nat, Qp>, numQps: nat, cur: Qp?, s0: map<Qp, QpState>, done: seq<Qp>, ci0: nat,
                      v: seq<Cqe>, wcs: seq<Wc>, qs: seq<Qp>, ci: nat, s: seq<Cqe>, st: map<Qp, QpState>)
    requires numQps > 0 && PollState(qps, numQps, cur, s0, done, ci0, v, wcs, qs, |wcs|, ci, s, st)
    ensures |s| > 0 && (SwOwned(s[ci % |s|]) ==> |wcs| < |v| && s[ci % |s|] == v[|wcs|])
  {
    NextEntry(s, ci0, v, |wcs|);
  }

  /**
   * A software-owned entry of an unknown queue pair is consumed without a
   * completion.
   */
  lemma PollStateSkip(qps: map<nat, Qp>, numQps: nat, cur: Qp?, s0: map<Qp, QpState>, done: seq<Qp>, ci0: nat,
                      v: seq<Cqe>, wcs: seq<Wc>, qs: seq<Qp>, ci: nat, s: seq<Cqe>, st: map<Qp, QpState>)
    requires numQps > 0 && PollState(qps, numQps, cur, s0, done, ci0, v, wcs, qs, |wcs|, ci, s, st)
    requires SwOwned(s[ci % |s|])
    ensures PollState(qps, numQps, cur, s0, done, ci0, v, wcs, qs, |wcs| + 1, ci + 1,
                      s[ci % |s| := ToHw(s[ci % |s|])], st)
  {
    ConsumeStep(s, ci0, v, |wcs|);
  }

  /**
   * A software-owned entry of a known queue pair q, the one FindQp picks
   * after the last one served, is consumed and decoded with the id read
   * from q's state before the retirement, which only moves q on.
   */
  lemma PollStateHit(qps: map<nat, Qp>, numQps: nat, cur: Qp?, s0: map<Qp, QpState>, done: seq<Qp>, ci0: nat,
                     v: seq<Cqe>, wcs: seq<Wc>, qs: seq<Qp>, ci: nat, s: seq<Cqe>,
                     st: map<Qp, QpState>, st': map<Qp, QpState>, wc: Wc, q: Qp)
    requires numQps > 0 && PollState(qps, numQps, cur, s0, done, ci0, v, wcs, qs, |wcs|, ci, s, st)
    requires |s| > 0 && SwOwned(s[ci % |s|])
    requires q in qps.Values && q in st && q == FindQp(Last(cur, qs), qps, numQps, s[ci % |s|].qpn)
    requires wc == Completion(s[ci % |s|], KernelWrId(st[q].sq, st[q].rq, s[ci % |s|]), q.qpn, true)
    requires Advanced(st, st', [q])
    ensures PollState(qps, numQps, cur, s0, done, ci0, v, wcs + [wc], qs + [q], |wcs| + 1, ci + 1,
                      s[ci % |s| := ToHw(s[ci % |s|])], st')
  {
    var n := |wcs|;
    ConsumeStep(s, ci0, v, n);
    CompletionFacts(s[ci % |s|], KernelWrId(st[q].sq, st[q].rq, s[ci % |s|]), q.qpn, true);
    WrIdsKept(s0[q].sq, s0[q].rq, st[q].sq, st[q].rq, v[n]);
    DecodedStep(wcs, v, wc, true);
    ServedStep(qps, numQps, cur, v, wcs, qs, wc, q);
    IdsReadStep(wcs, qs, v, s0, true, wc, q);
    AdvancedTrans(s0, st, st', done + qs, [q]);
    assert done + qs + [q] == done + (qs + [q]);
  }

  /**
   * The queue pairs a poll loop served: the k-th completion, decoded from
   * entry v[k], went to qs[k], the queue pair FindQp picks for that entry's
   * number given the one before (cur for the first).
   */
  ghost predicate Served(qps: map<nat, Qp>, numQps: nat, cur: Qp?, v: seq<Cqe>, wcs: seq<Wc>, qs: seq<Qp>)
    requires numQps > 0
  {
    |qs| == |wcs| <= |v|
    && forall k {:trigger wcs[k]} :: 0 <= k < |wcs| ==>
         qs[k] in qps.Values && qs[k] == FindQp(if k == 0 then cur else qs[k - 1], qps, numQps, v[k].qpn)
  }

  lemma ServedStep(qps: map<nat, Qp>, numQps: nat, cur: Qp?, v: seq<Cqe>, wcs: seq<Wc>, qs: seq<Qp>, wc: Wc, qp: Qp)
    requires numQps > 0 && Served(qps, numQps, cur, v, wcs, qs) && |wcs| < |v|
    requires qp in qps.Values && qp == FindQp(Last(cur, qs), qps, numQps, v[|wcs|].qpn)
    ensures Served(qps, numQps, cur, v, wcs + [wc], qs + [qp])
  {
    var wcs', qs' := wcs + [wc], qs + [qp];
    forall k | 0 <= k < |wcs'|
      ensures qs'[k] in qps.Values && qs'[k] == FindQp(if k == 0 then cur else qs'[k - 1], qps, numQps, v[k].qpn)
    {
      if k < |wcs| {
        assert wcs[k] == wcs'[k];
        assert qs[k] == FindQp(if k == 0 then cur else qs[k - 1], qps, numQps, v[k].qpn);
        assert qs'[k] == qs[k];
      } else {
        assert k == |qs|;
        assert qs'[k] == qp;
        assert Last(cur, qs) == if k == 0 then cur else qs'[k - 1];
      }
    }
    assert Served(qps, numQps, cur, v, wcs', qs');
  }

  /** The queue pair a poll loop ends up caching is cur or one it served. */
  lemma LastServed(qps: map<nat, Qp>, numQps: nat, cur: Qp?, v: seq<Cqe>, wcs: seq<Wc>, qs: seq<Qp>)
    requires numQps > 0 && Served(qps, numQps, cur, v, wcs, qs)
    ensures |qs| > 0 ==> Last(cur, qs) in qps.Values
  {
    if |wcs| > 0 {
      assert wcs[|wcs| - 1] in wcs;
    }
  }

  /**
   * The two poll_one implementations agree on send completions; on a receive
   * completion the kernel's id is the send queue's entry at the receive
   * slot, so the two agree exactly when both tables hold the same id there.
   */
  lemma WrIdSides(sq: WorkQueue, rq: WorkQueue, e: Cqe)
    ensures IsSend(e) ==> KernelWrId(sq, rq, e) == UserWrId(sq, rq, e)
    ensures !IsSend(e) ==> var idx := WqeIndex(rq, e.wqe);
      KernelWrId(sq, rq, e) == WrIdAt(sq, idx)
      && (KernelWrId(sq, rq, e) == UserWrId(sq, rq, e) <==> WrIdAt(sq, idx) == WrIdAt(rq, idx))
  {
  }

  /**
   * A receive completion for slot 0 of a queue pair whose send queue holds
   * id 1 and receive queue id 2 in slot 0 is reported with id 1 by the
   * kernel and 2 by the library.
   */
  lemma KernelRecvWrIdFromSendQueue()
    ensures var sq := WorkQueue(1, 0, 0, 0, 0, 1, 7, [1]);
      var rq := WorkQueue(1, 0, 0, 0, 0, 1, 7, [2]);
      var e := Cqe(0, 0, 0, 0, 0, 0, OP_SEND, 0, 0, 0, 0);
      KernelWrId(sq, rq, e) == Some(1) && UserWrId(sq, rq, e) == Some(2)
  {
    var rq := WorkQueue(1, 0, 0, 0, 0, 1, 7, [2]);
    assert WqeIndex(rq, 0) == 0;
  }

  /**
   * alloc_cq_buf: the buffer allocation's outcome is `bufErr` (0 when it
   * succeeds); a new ring of nent entries is handed entirely to hardware.
   */
  method AllocCqBuf(nent: nat, bufErr: int) returns (err: int, buf: array?<Cqe>)
    ensures err == bufErr
    ensures err == 0 <==> buf != null
    ensures buf != null ==> (fresh(buf) && buf.Length == nent
      && forall k :: 0 <= k < nent ==> !SwOwned(buf[k]))
  {
    if bufErr != 0 {
      return bufErr, null;
    }
    buf := new Cqe[nent](_ => Cqe(0, 0, 0, 0, 0, 0, 0, 0, 0, 0, 0));
    MarkAllHw(buf);
    err := 0;
  }

  /**
   * The step outcomes of init_cq that can fail once a CQ number is held:
   * reg_icm (which only reports -ENOMEM), the kernel ring, the mailbox,
   * SW2HW_CQ and the table slot.
   */
  datatype InitSteps = InitSteps(regOk: bool, bufErr: int, mailboxOk: bool, cmdErr: int, setOk: bool)

  /** Every step of init_cq succeeded (the ring only matters for a kernel queue). */
  predicate InitSucceeds(s: InitSteps, kernel: bool)
  {
    s.regOk && (!kernel || s.bufErr == 0) && s.mailboxOk && s.cmdErr == 0 && s.setOk
  }

  /**
   * The value init_cq returns as written, following its err variable: a
   * mailbox failure and a table-slot failure jump to the teardown with err
   * still 0 from the step before.
   */
  function InitCqErrAsWritten(s: InitSteps, kernel: bool): int
  {
    if !s.regOk then -ENOMEM
    else if kernel && s.bufErr != 0 then s.bufErr
    else if !s.mailboxOk then 0
    else if s.cmdErr != 0 then s.cmdErr
    else 0
  }

  /** The value init_cq evidently means to return: -ENOMEM for those two failures. */
  function InitCqErr(s: InitSteps, kernel: bool): (err: int)
  {
    if !s.regOk then -ENOMEM
    else if kernel && s.bufErr != 0 then s.bufErr
    else if !s.mailboxOk then -ENOMEM
    else if s.cmdErr != 0 then s.cmdErr
    else if !s.setOk then -ENOMEM
    else 0
  }

  /**
   * As written, init_cq can report success for a queue it has torn down:
   * exactly when the mailbox or the table slot could not be had and every
   * other step succeeded.
   */
  lemma InitCqReportsTornDown(s: InitSteps, kernel: bool)
    requires s.bufErr <= 0 && s.cmdErr <= 0
    ensures InitCqErrAsWritten(s, kernel) == 0 && !InitSucceeds(s, kernel) <==>
      s.regOk && (!kernel || s.bufErr == 0) && (!s.mailboxOk || (s.cmdErr == 0 && !s.setOk))
    ensures InitCqErrAsWritten(InitSteps(true, 0, false, 0, true), true) == 0
    ensures !InitSucceeds(InitSteps(true, 0, false, 0, true), true)
  {
  }

  /** With the corrected value, 0 means the queue exists and any failure is a negative errno. */
  lemma InitCqErrReports(s: InitSteps, kernel: bool)
    requires s.bufErr <= 0 && s.cmdErr <= 0
    ensures InitCqErr(s, kernel) == 0 <==> InitSucceeds(s, kernel)
    ensures InitCqErr(s, kernel) <= 0
  {
  }

  /**
   * hgrnic_init_cq, returning the corrected error.  A CQ number is taken
   * from the allocator (-ENOMEM when it is full, or when the number handed
   * out is all ones, which only an allocator with a 32-bit mask can do; its
   * bit then stays set as in the source); the remaining steps are
   * InitCqSteps, and when one of them fails the number is freed again.
   */
  method InitCq(alloc: NumAllocator, table: LookupArray<Cq>, nent: nat, kernel: bool,
                regOk: bool, bufErr: int, mailboxOk: bool, cmdErr: int, pageOk: bool)
      returns (err: int, cq: Cq?)
    requires alloc.Valid() && table.Valid() && alloc.max <= table.Capacity()
    requires IsPow2(nent)
    modifies alloc, alloc.table, table.pages, table.used
    ensures alloc.Valid() && table.Valid() && alloc.table == old(alloc.table)
    ensures alloc.max == old(alloc.max) && alloc.mask == old(alloc.mask)
    ensures var k := ChosenBit(old(alloc.Bits()), old(alloc.last));
      var obj := AllocStep(old(alloc.Bits()), old(alloc.last), old(alloc.top), alloc.mask).obj;
      if k == alloc.max then
        err == -ENOMEM && cq == null && alloc.Bits() == old(alloc.Bits()) && table.pages[..] == old(table.pages[..])
      else if obj == U32_ALL_ONES then
        err == -ENOMEM && cq == null && alloc.Bits() == old(alloc.Bits())[k := true]
        && table.pages[..] == old(table.pages[..])
      else
        k < alloc.max
        && var steps := InitSteps(regOk, bufErr, mailboxOk, cmdErr, old(table.pages[k / ARRAY_SLOTS]).Some? || pageOk);
        err == InitCqErr(steps, kernel)
        && (err == 0 ==>
              cq != null && fresh(cq) && fresh(cq.buf) && cq.Initial(cq.cqn, nent, kernel)
              && cq.cqn == obj && cq.cqn < U32 && cq.cqn % alloc.max == k
              && alloc.Bits() == old(alloc.Bits())[k := true]
              && table.pages[..] == StoreIn<Cq>(old(table.pages[..]), k, cq)
              && table.used[..] == old(table.used[..])[k / ARRAY_SLOTS := old(table.used[k / ARRAY_SLOTS]) + 1])
        && (err != 0 ==> cq == null && alloc.Bits() == old(alloc.Bits()) && table.pages[..] == old(table.pages[..]))
  {
    ghost var bits0 := alloc.Bits();
    ghost var last0 := alloc.last;
    AllocStepFacts(bits0, last0, alloc.top, alloc.mask);
    ChosenBitIsFree(bits0, last0);
    var cqn := alloc.Alloc();
    if cqn == U32_ALL_ONES {
      return -ENOMEM, null;
    }
    ghost var k := ChosenBit(bits0, last0);
    assert cqn % alloc.max == k;
    err, cq := InitCqSteps(cqn, alloc.max, table, nent, kernel, regOk, bufErr, mailboxOk, cmdErr, pageOk);
    if err != 0 {
      ghost var top1 := alloc.top;
      alloc.Free(cqn);
      AllocFreeRestores(bits0, last0, top1);
    }
  }

  /**
   * The steps of init_cq once a CQ number is held: the context's ICM is
   * registered, a kernel queue gets its ring, the context is passed to the
   * device and the queue is entered in the table at cqn & (num_cqs - 1).
   * The first failure ends the sequence, the steps already done being
   * undone (the ring freed, the ICM unregistered); on success the new queue
   * has consumer index 0 and one reference.
   */
  method InitCqSteps(cqn: nat, numCqs: nat, table: LookupArray<Cq>, nent: nat, kernel: bool,
                     regOk: bool, bufErr: int, mailboxOk: bool, cmdErr: int, pageOk: bool)
      returns (err: int, cq: Cq?)
    requires table.Valid() && IsPow2(numCqs) && numCqs <= table.Capacity() && IsPow2(nent)
    modifies table.pages, table.used
    ensures table.Valid()
    ensures var k := cqn % numCqs;
      var steps := InitSteps(regOk, bufErr, mailboxOk, cmdErr, old(table.pages[k / ARRAY_SLOTS]).Some? || pageOk);
      err == InitCqErr(steps, kernel)
      && (err == 0 ==>
            cq != null && fresh(cq) && fresh(cq.buf) && cq.Initial(cqn, nent, kernel)
            && table.pages[..] == StoreIn<Cq>(old(table.pages[..]), k, cq)
            && table.used[..] == old(table.used[..])[k / ARRAY_SLOTS := old(table.used[k / ARRAY_SLOTS]) + 1])
      && (err != 0 ==> cq == null && table.pages[..] == old(table.pages[..]))
  {
    cq := null;
    if !regOk {
      return -ENOMEM, null;
    }
    var ring: array?<Cqe> := null;
    if kernel {
      err, ring := AllocCqBuf(nent, bufErr);
      if err != 0 {
        return err, null;
      }
    } else {
      // a user queue's ring lives in user memory; an empty stand-in
      ring := new Cqe[nent](_ => Cqe(0, 0, 0, 0, 0, 0, 0, 0, 0, 0, OWNER_HW));
    }
    err, cq := PublishCq(cqn, numCqs, table, kernel, ring, mailboxOk, cmdErr, pageOk);
  }

  /**
   * The end of init_cq, once the ring exists: the mailbox, the SW2HW_CQ
   * command, and the entry of the new queue in the table at
   * cqn & (num_cqs - 1); the first failure ends it.
   */
  method PublishCq(cqn: nat, numCqs: nat, table: LookupArray<Cq>, kernel: bool, ring: array<Cqe>,
                   mailboxOk: bool, cmdErr: int, pageOk: bool)
      returns (err: int, cq: Cq?)
    requires table.Valid() && IsPow2(numCqs) && numCqs <= table.Capacity() && IsPow2(ring.Length)
    requires kernel ==> forall j :: 0 <= j < ring.Length ==> !SwOwned(ring[j])
    modifies table.pages, table.used
    ensures table.Valid()
    ensures var k := cqn % numCqs;
      err == (if !mailboxOk then -ENOMEM else if cmdErr != 0 then cmdErr
              else if old(table.pages[k / ARRAY_SLOTS]).None? && !pageOk then -ENOMEM else 0)
      && (err == 0 ==>
            cq != null && fresh(cq) && cq.buf == ring && cq.Initial(cqn, ring.Length, kernel)
            && table.pages[..] == StoreIn<Cq>(old(table.pages[..]), k, cq)
            && table.used[..] == old(table.used[..])[k / ARRAY_SLOTS := old(table.used[k / ARRAY_SLOTS]) + 1])
      && (err != 0 ==> cq == null && table.pages[..] == old(table.pages[..]))
  {
    if !mailboxOk {
      return -ENOMEM, null;
    }
    if cmdErr != 0 {
      return cmdErr, null;
    }
    var c := new Cq(cqn, kernel, ring);
    AndLowMask(cqn, Log2(numCqs));
    var index := BitAnd(cqn, numCqs - 1);
    var setErr := table.Set(index, c, pageOk);
    if setErr != 0 {
      return -ENOMEM, null;
    }
    return 0, c;
  }

  /**
   * What a completion queue holds while it exists: its number, the ICM of
   * its context, a kernel queue's ring, the context as the device owns it
   * after SW2HW_CQ, and its slot in the CQ table.
   */
  datatype CqResource = CqNumber | CqIcm | CqRing | CqContext | CqSlot

  /** The resources in the order init_cq takes them; only a kernel queue has a ring of its own. */
  function CqOrder(kernel: bool): (o: seq<CqResource>)
    ensures |o| == if kernel then 5 else 4
  {
    [CqNumber, CqIcm] + (if kernel then [CqRing] else []) + [CqContext, CqSlot]
  }

  /** A successful init_cq: every resource taken, in order. */
  function InitCqTrace(kernel: bool): seq<Step<CqResource>>
  {
    AcquireFirst(CqOrder(kernel), |CqOrder(kernel)|)
  }

  /**
   * free_cq: HW2SW_CQ first, so that the device stops writing before the
   * slot is cleared; then the ring of a kernel queue, the ICM and the
   * number, the last taken first.
   */
  function FreeCqTrace(kernel: bool): seq<Step<CqResource>>
  {
    [Release(CqContext), Release(CqSlot)] + (if kernel then [Release(CqRing)] else []) + [Release(CqIcm), Release(CqNumber)]
  }

  /**
   * free_cq starts with the context and then the slot; with those two
   * swapped it is init_cq's order reversed.
   */
  lemma FreeCqAsUnwind(kernel: bool)
    ensures var o := CqOrder(kernel); var rest := FreeCqTrace(kernel)[2..];
      FreeCqTrace(kernel) == [Release(CqContext), Release(CqSlot)] + rest
      && ReleaseFirst(o, |o|) == [Release(CqSlot), Release(CqContext)] + rest
  {
    var o := CqOrder(kernel);
    var rest := FreeCqTrace(kernel)[2..];
    if kernel {
      assert o == [CqNumber, CqIcm, CqRing, CqContext, CqSlot];
      assert rest == [Release(CqRing), Release(CqIcm), Release(CqNumber)];
    } else {
      assert o == [CqNumber, CqIcm, CqContext, CqSlot];
      assert rest == [Release(CqIcm), Release(CqNumber)];
    }
  }

  /** free_cq gives back everything init_cq took and nothing else. */
  lemma FreeCqBalanced(kernel: bool)
    ensures Balanced(InitCqTrace(kernel) + FreeCqTrace(kernel))
  {
    var o := CqOrder(kernel);
    UnwindBalanced(o, |o|);
    FreeCqAsUnwind(kernel);
    BalancedSwap(InitCqTrace(kernel), Release(CqSlot), Release(CqContext), FreeCqTrace(kernel)[2..]);
  }

  /**
   * free_cq is the reverse of init_cq except for its first two steps: the
   * context is taken from the device while the slot, entered after it, is
   * still held.  With those two swapped the teardown unwinds the set-up
   * exactly.
   */
  lemma FreeCqUndoesInit(kernel: bool)
    ensures Held(InitCqTrace(kernel)) == Some(CqOrder(kernel))
    ensures Held(InitCqTrace(kernel) + FreeCqTrace(kernel)[..1]) == None
    ensures Held(InitCqTrace(kernel) + ([Release(CqSlot), Release(CqContext)] + FreeCqTrace(kernel)[2..])) == Some([])
  {
    var o := CqOrder(kernel);
    Unwinds(o, |o|);
    assert o[..|o|] == o;
    FreeCqAsUnwind(kernel);
    var pre := InitCqTrace(kernel) + FreeCqTrace(kernel)[..1];
    assert pre[..|pre| - 1] == InitCqTrace(kernel);
  }

  /**
   * hgrnic_free_cq: the device gives the context back (a failure is only
   * logged), the table slot is cleared and the reference dropped, then a
   * kernel queue's ring is freed, the context's ICM is unregistered and the
   * CQ number freed.  The steps are returned in the order taken.
   */
  method FreeCq(cq: Cq, alloc: NumAllocator, table: LookupArray<Cq>) returns (steps: seq<Step<CqResource>>)
    requires alloc.Valid() && table.Valid() && cq.cqn < U32 && alloc.max <= table.Capacity()
    requires table.used[(cq.cqn % alloc.max) / ARRAY_SLOTS] > 0
    modifies cq, alloc, alloc.table, table.pages, table.used
    ensures alloc.Valid() && table.Valid() && alloc.max == old(alloc.max) && alloc.mask == old(alloc.mask)
    ensures steps == FreeCqTrace(cq.isKernel)
    ensures cq.refcount == old(cq.refcount) - 1
    ensures alloc.Bits() == old(alloc.Bits())[cq.cqn % alloc.max := false] && alloc.last == old(alloc.last)
    ensures var p := (cq.cqn % alloc.max) / ARRAY_SLOTS;
      table.pages[..] == ClearIn(old(table.pages[..]), cq.cqn % alloc.max, old(table.used[p]) == 1)
  {
    steps := [Release(CqContext)];
    AndLowMask(cq.cqn, Log2(alloc.max));
    var index := BitAnd(cq.cqn, alloc.max - 1);
    table.Clear(index);
    cq.refcount := cq.refcount - 1;
    steps := steps + [Release(CqSlot)];
    if cq.isKernel {
      steps := steps + [Release(CqRing)];
    }
    steps := steps + [Release(CqIcm)];
    alloc.Free(cq.cqn);
    steps := steps + [Release(CqNumber)];
  }

  /**
   * hgrnic_init_cq_table: a CQ-number allocator of num_cqs numbers under a
   * 24-bit mask, then the lookup table; when the table cannot be made the
   * allocator is dropped again.  kmallocOk and tableOk are the outcomes of
   * the two allocations.
   */
  method InitCqTable(numCqs: nat, kmallocOk: bool, tableOk: bool)
      returns (err: int, alloc: NumAllocator?, table: LookupArray?<Cq>)
    requires numCqs < U32
    ensures err == 0 <==> alloc != null && table != null
    ensures err == -EINVAL <==> !IsPow2(numCqs)
    ensures err == -ENOMEM <==> IsPow2(numCqs) && (!kmallocOk || !tableOk)
    ensures err != 0 ==> alloc == null && table == null
    ensures alloc != null ==> (alloc.Valid() && alloc.max == numCqs && alloc.mask == 0xff_ffff
      && alloc.Bits() == seq(numCqs, _ => false))
    ensures table != null ==> (table.Valid() && table.Capacity() >= numCqs
      && forall i :: 0 <= i < table.Capacity() ==> table.Lookup(i) == None)
  {
    assert LowMask(0xff_ffff) by { CqnMask(); }
    err, alloc := AllocInit(numCqs, 0xff_ffff, kmallocOk);
    table := null;
    if err != 0 {
      return;
    }
    err, table := ArrayInit<Cq>(numCqs, tableOk);
    if err != 0 {
      alloc := null;
    }
  }

  /** (1 << 24) - 1 is a mask of low bits. */
  lemma CqnMask()
    ensures LowMask(0xff_ffff)
  {
    assert Pow2(8) == 256;
    Pow2Add(8, 8);
    Pow2Add(16, 8);
    Pow2IsPow2(24);
  }
}
