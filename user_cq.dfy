/**
 * Completion queues of the user-space library (cq.c and the CQ verbs of
 * verbs.c): polling entries by their owner bit against the context's QP
 * table, removing a queue pair's entries, creating a queue and resizing its
 * ring.  The ring algorithms are those of CqRing, shared with the kernel.
 */
module UserCq {
  import opened Common
  import opened CqSpec
  import opened CqRing
  import opened Wq
  import opened UserContext
  import opened UserVerbs
  import opened Trace
  import Cq

  /** The results of poll_one. */
  const CQ_OK: int := 0
  const CQ_EMPTY: int := -1
  const CQ_POLL_ERR: int := -2

  /** The largest size create_cq and resize_cq accept. */
  const MAX_CQE: int := 0x20000

  /** The mask 2^k - 1 of a power-of-two ring picks the slot ci modulo the ring size. */
  lemma MaskedSlot(ci: nat, n: nat)
    requires IsPow2(n)
    ensures BitAnd(ci, n - 1) == ci % n
  {
    AndLowMask(ci, Log2(n));
  }

  /**
   * struct hgrnic_cq.  cqeMask (cq->cqe_mask) selects the slot poll_one
   * reads; ibCqe (ibv_cq.cqe) is the ring size minus one as the kernel
   * reported it and is the mask of cq_clean and of the resize copy.  Both
   * must be the ring size minus one.
   */
  class UserCq {
    const cqn: nat
    var buf: array<Cqe>
    var consIndex: nat
    var cqeMask: nat
    var ibCqe: nat

    ghost predicate Valid()
      reads this
    {
      IsPow2(buf.Length) && ibCqe == buf.Length - 1 && cqeMask == ibCqe
    }

    /** A queue create_cq hands out: nothing consumed, both masks one less than the ring. */
    constructor (n: nat, b: array<Cqe>)
      requires IsPow2(b.Length)
      ensures Valid() && cqn == n && buf == b && consIndex == 0
    {
      cqn, buf, consIndex := n, b, 0;
      cqeMask, ibCqe := b.Length - 1, b.Length - 1;
    }

    /**
     * hgrnic_poll_one.  The entry at cons_index & cqe_mask is examined; when
     * hardware owns it the queue is empty and nothing changes.  Otherwise
     * the queue pair is the cached one if its number matches, else
     * find_qp's; without one the result is CQ_POLL_ERR.  The work-request
     * id comes from the table of the queue the entry belongs to, that
     * queue's tail moves on, and a receive clears the next unit at the
     * entry's offset in the receive queue (zeroed).  An error entry also
     * yields 0 and a completion carrying its status.  Whatever happened, a
     * consumed entry goes back to hardware and cons_index moves on by one.
     */
    method PollOne(ctx: Context, cur: Qp?, ghost qset: set<Qp>) returns (err: int, wc: Option<Wc>, qp: Qp?, zeroed: Option<nat>)
      requires Valid() && ctx.Valid() && qset == ctx.Members()
      requires cur == null || cur in qset
      modifies this, buf, qset
      ensures Valid() && buf == old(buf) && cqeMask == old(cqeMask) && ibCqe == old(ibCqe)
      ensures qp == null || qp in qset
      ensures err == CQ_OK || err == CQ_EMPTY || err == CQ_POLL_ERR
      ensures var slot := old(consIndex) % buf.Length;
        var e := old(buf[slot]);
        (err == CQ_EMPTY <==> !SwOwned(e))
        && (err == CQ_EMPTY ==> qp == cur && consIndex == old(consIndex) && buf[..] == old(buf[..]))
        && (err != CQ_EMPTY ==>
              consIndex == old(consIndex) + 1 && buf[..] == old(buf[..])[slot := ToHw(e)]
              && qp == Pick(Lookups(ctx), cur, e.qpn)
              && (err == CQ_POLL_ERR <==> qp == null))
      ensures err != CQ_OK ==> wc.None? && zeroed.None? && unchanged(qset)
      ensures err == CQ_OK ==> qp != null && unchanged(qset - {qp})
      ensures err == CQ_OK ==>
        var e := old(buf[consIndex % buf.Length]);
        var idx := WqeIndex(if IsSend(e) then old(qp.sq) else old(qp.rq), e.wqe);
        wc == Some(Completion(e, Cq.UserWrId(old(qp.sq), old(qp.rq), e), qp.qpn, false))
        && zeroed == (if IsSend(e) then None else Some(e.wqe))
        && qp.sq == (if IsSend(e) then Complete(old(qp.sq), idx) else old(qp.sq))
        && qp.rq == (if IsSend(e) then old(qp.rq) else Complete(old(qp.rq), idx))
      ensures err == CQ_OK ==> Cq.Advanced(old(Cq.States(qset)), Cq.States(qset), [qp])
    {
      MaskedSlot(consIndex, buf.Length);
      var slot := BitAnd(consIndex, cqeMask);
      var e := buf[slot];
      if !SwOwned(e) {
        return CQ_EMPTY, None, cur, None;
      }
      qp := cur;
      if qp == null || e.qpn != qp.qpn {
        qp := ctx.Find(e.qpn);
      }
      assert qp == Pick(Lookups(ctx), cur, e.qpn);
      if qp == null {
        err, wc, zeroed := CQ_POLL_ERR, None, None;
        Release(slot, qset);
      } else {
        var w;
        w, zeroed := Serve(slot, qp, qset);
        err, wc := CQ_OK, Some(w);
      }
    }

    /**
     * The rest of poll_one for an entry at slot whose queue pair qp is
     * known: qp retires the entry (Retire) and the entry goes back to
     * hardware (Release).
     */
    method Serve(slot: nat, qp: Qp, ghost qset: set<Qp>) returns (wc: Wc, zeroed: Option<nat>)
      requires slot < buf.Length && qp in qset
      modifies this, buf, qp
      ensures buf == old(buf) && cqeMask == old(cqeMask) && ibCqe == old(ibCqe)
      ensures buf[..] == old(buf[..])[slot := ToHw(old(buf[slot]))] && consIndex == old(consIndex) + 1
      ensures var e := old(buf[slot]);
        var idx := WqeIndex(if IsSend(e) then old(qp.sq) else old(qp.rq), e.wqe);
        wc == Completion(e, Cq.UserWrId(old(qp.sq), old(qp.rq), e), qp.qpn, false)
        && zeroed == (if IsSend(e) then None else Some(e.wqe))
        && qp.sq == (if IsSend(e) then Complete(old(qp.sq), idx) else old(qp.sq))
        && qp.rq == (if IsSend(e) then old(qp.rq) else Complete(old(qp.rq), idx))
      ensures Cq.Advanced(old(Cq.States(qset)), Cq.States(qset), [qp])
    {
      wc, zeroed := Retire(qp, buf[slot], qset);
      Release(slot, qset);
    }

    /**
     * set_cqe_hw and ++cons_index: the entry at slot is handed back to
     * hardware; no queue pair of qset changes.
     */
    method Release(slot: nat, ghost qset: set<Qp>)
      requires slot < buf.Length
      modifies this, buf
      ensures buf == old(buf) && cqeMask == old(cqeMask) && ibCqe == old(ibCqe)
      ensures Cq.States(qset) == old(Cq.States(qset))
      ensures buf[..] == old(buf[..])[slot := ToHw(old(buf[slot]))] && consIndex == old(consIndex) + 1
    {
      buf[slot] := ToHw(buf[slot]);
      consIndex := consIndex + 1;
    }

    /**
     * hgrnic_poll_cq: poll_one up to ne times, stopping at the first result
     * other than CQ_OK; CQ_POLL_ERR is returned as such, otherwise the count
     * polled.  The entries consumed are the software-owned ones from
     * cons_index on, in ring order, and each is handed back to hardware; the
     * k-th completion returned decodes the k-th entry consumed.  A count
     * below ne means the next entry is owned by hardware.  The k-th
     * completion went to queue pair qs[k], the one poll_one picks after
     * the one before (UserServed), and carries the id UserWrId reads from
     * that queue pair's tables as they were on entry (IdsRead); only the
     * tails and last_cpl of the queue pairs in qs move (Advanced).
     */
    method PollCq(ctx: Context, ne: int) returns (r: int, wcs: seq<Wc>, ghost qs: seq<Qp>)
      requires Valid() && ctx.Valid()
      modifies this, buf, ctx.Members()
      ensures Valid() && buf == old(buf) && cqeMask == old(cqeMask) && ibCqe == old(ibCqe)
      ensures r == CQ_POLL_ERR || r == |wcs|
      ensures ne <= 0 ==> r == 0 && consIndex == old(consIndex)
      ensures ne >= 0 ==> |wcs| <= ne
      ensures 0 <= r < ne ==> !SwOwned(buf[consIndex % buf.Length])
      ensures consIndex == old(consIndex) + |wcs| + (if r == CQ_POLL_ERR then 1 else 0)
      ensures PollState(Lookups(ctx), old(consIndex), Window(old(buf[..]), old(consIndex), buf.Length),
                        old(Cq.States(ctx.Members())), wcs, qs, consIndex - old(consIndex), consIndex, buf[..],
                        Cq.States(ctx.Members()))
    {
      ghost var ci0 := consIndex;
      ghost var v := Window(buf[..], ci0, buf.Length);
      ghost var qset := ctx.Members();
      ghost var s0 := Cq.States(qset);
      ConsumedNone(buf[..], ci0);
      Cq.AdvancedRefl(s0);
      wcs, qs := [], [];
      var err := CQ_OK;
      var qp: Qp? := null;
      while |wcs| < ne
        invariant Valid() && buf == old(buf) && cqeMask == old(cqeMask) && ibCqe == old(ibCqe)
        invariant ctx.Members() == qset && (qp == null || qp in qset)
        invariant err == CQ_OK && |wcs| <= (if ne > 0 then ne else 0)
        invariant Polling(ctx, qset, ci0, v, s0, wcs, qs, |wcs|) && qp == Cq.Last(null, qs)
        decreases ne - |wcs|
      {
        err, wcs, qp, qs := PollStep(ctx, qset, qp, ci0, v, s0, wcs, qs);
        if err != CQ_OK {
          break;
        }
      }
      r := if err == CQ_POLL_ERR then err else |wcs|;
    }

    /** PollState of this CQ's consumer index and ring and the queue pairs' current state. */
    ghost predicate Polling(ctx: Context, qset: set<Qp>, ci0: nat, v: seq<Cqe>, s0: map<Qp, Cq.QpState>,
                            wcs: seq<Wc>, qs: seq<Qp>, n: nat)
      reads this, buf, ctx, ctx.refcnt, ctx.tables, qset
      requires ctx.Valid()
    {
      PollState(Lookups(ctx), ci0, v, s0, wcs, qs, n, consIndex, buf[..], Cq.States(qset))
    }

    /**
     * One turn of the loop of hgrnic_poll_cq: poll_one, with the completion,
     * when there is one, appended to wcs and its queue pair to qs.
     * CQ_EMPTY consumes nothing; CQ_POLL_ERR consumes the entry without a
     * completion.
     */
    method PollStep(ctx: Context, ghost qset: set<Qp>, qp: Qp?, ghost ci0: nat, ghost v: seq<Cqe>,
                    ghost s0: map<Qp, Cq.QpState>, wcs: seq<Wc>, ghost qs: seq<Qp>)
        returns (err: int, wcs': seq<Wc>, qp': Qp?, ghost qs': seq<Qp>)
      requires Valid() && ctx.Valid() && qset == ctx.Members() && (qp == null || qp in qset)
      requires Polling(ctx, qset, ci0, v, s0, wcs, qs, |wcs|) && qp == Cq.Last(null, qs)
      modifies this, buf, qset
      ensures Valid() && buf == old(buf) && cqeMask == old(cqeMask) && ibCqe == old(ibCqe)
      ensures qp' == null || qp' in qset
      ensures err == CQ_OK || err == CQ_EMPTY || err == CQ_POLL_ERR
      ensures err == CQ_OK ==> |wcs'| == |wcs| + 1 && qp' == Cq.Last(null, qs')
      ensures err != CQ_OK ==> wcs' == wcs && qs' == qs
      ensures err == CQ_EMPTY ==> !SwOwned(buf[consIndex % buf.Length])
      ensures Polling(ctx, qset, ci0, v, s0, wcs', qs', if err == CQ_EMPTY then |wcs| else |wcs| + 1)
    {
      ghost var s := buf[..];
      ghost var st := Cq.States(qset);
      ghost var ci := consIndex;
      ghost var find := Lookups(ctx);
      var wc, zeroed;
      err, wc, qp', zeroed := PollOne(ctx, qp, qset);
      assert Lookups(ctx) == find;
      wcs', qs' := wcs, qs;
      if err == CQ_EMPTY {
        return;
      }
      if err == CQ_POLL_ERR {
        PollStateSkip(find, ci0, v, s0, wcs, qs, ci, s, st);
        return;
      }
      var q: Qp := qp';
      PollStateHit(find, ci0, v, s0, wcs, qs, ci, s, st, Cq.States(qset), wc.value, q);
      wcs', qs' := wcs + [wc.value], qs + [q];
      assert qs'[|qs|] == q;
    }

    /**
     * __hgrnic_cq_clean, with ibv_cq.cqe as the mask: the entries of queue
     * pair qpn among the software-owned ones from cons_index on are removed,
     * the others keep their order and move up, and cons_index moves past
     * the slots freed (CqRing.Clean).
     */
    method CleanQp(qpn: nat)
      requires Valid()
      modifies this, buf
      ensures Valid() && buf == old(buf) && cqeMask == old(cqeMask) && ibCqe == old(ibCqe)
      ensures Cleans(old(buf[..]), old(consIndex), buf[..], consIndex, qpn)
    {
      consIndex := Clean(buf, consIndex, qpn);
    }

    /**
     * The steps of hgrnic_resize_cq after the size check, for a ring of
     * nent entries other than the current one: the new ring (-1 when it
     * cannot be had), its memory region (ENOMEM), the RESIZE_CQ command
     * (its error); on success the software-owned entries from cons_index on
     * are copied to the same indices of the new ring, which becomes the
     * queue's with both masks nent - 1 (ibv_cq.cqe as the kernel reports
     * it).  On failure the ring and ibv_cq.cqe are unchanged.
     */
    method Reallocate(nent: nat, bufOk: bool, mrOk: bool, cmdErr: int) returns (ret: int)
      requires IsPow2(buf.Length) && ibCqe == buf.Length - 1
      requires IsPow2(nent) && nent != buf.Length
      requires bufOk && mrOk && cmdErr == 0 ==>
        HasHwEntry(buf[..], consIndex)
      modifies this
      ensures consIndex == old(consIndex)
      ensures ret == (if !bufOk then -1 else if !mrOk then ENOMEM else cmdErr)
      ensures ret != 0 ==> buf == old(buf) && ibCqe == old(ibCqe) && cqeMask == old(cqeMask)
      ensures ret == 0 ==>
        Valid() && fresh(buf) && buf.Length == nent && Resized(old(buf[..]), buf[..], consIndex)
    {
      var err, nbuf := Cq.AllocCqBuf(nent, if bufOk then 0 else -1);
      if err != 0 {
        return -1;
      }
      if !mrOk {
        return ENOMEM;
      }
      if cmdErr != 0 {
        return cmdErr;
      }
      assert HasHwEntry(buf[..], consIndex);
      ghost var d0 := nbuf[..];
      var copied := CopyCqes(buf, nbuf, consIndex);
      ResizedFromCopy(d0, old(buf[..]), consIndex, copied);
      buf := nbuf;
      ibCqe, cqeMask := nent - 1, nent - 1;
      ret := 0;
    }

    /**
     * hgrnic_resize_cq as written: EINVAL above 0x20000; otherwise
     * cqe_mask is set to the new size minus one at once, before the size is
     * compared with the current ring and before any step that can fail.
     * A failure therefore leaves the old ring polled under the new mask.
     */
    method ResizeCqAsWritten(cqe: int, bufOk: bool, mrOk: bool, cmdErr: int) returns (ret: int)
      requires Valid()
      requires cqe <= MAX_CQE && CqSize(cqe) != buf.Length && bufOk && mrOk && cmdErr == 0 ==>
        HasHwEntry(buf[..], consIndex)
      modifies this
      ensures consIndex == old(consIndex)
      ensures ret == (if cqe > MAX_CQE then EINVAL
                      else if CqSize(cqe) == old(buf.Length) then 0
                      else if !bufOk then -1 else if !mrOk then ENOMEM else cmdErr)
      ensures cqe > MAX_CQE ==> buf == old(buf) && cqeMask == old(cqeMask) && ibCqe == old(ibCqe)
      ensures cqe <= MAX_CQE ==> cqeMask == CqSize(cqe) - 1
      ensures ret != 0 ==> buf == old(buf) && ibCqe == old(ibCqe)
      ensures ret == 0 ==> Valid()
    {
      if cqe > MAX_CQE {
        return EINVAL;
      }
      var nent := AlignCqSize(cqe);
      cqeMask := nent - 1;
      if nent == ibCqe + 1 {
        return 0;
      }
      ret := Reallocate(nent, bufOk, mrOk, cmdErr);
    }

    /**
     * hgrnic_resize_cq with cqe_mask changed only together with the ring:
     * the same results, and the queue stays Valid whatever happens.  A
     * resize to another size that succeeds leaves a fresh ring of
     * CqSize(cqe) entries holding, from cons_index on, the completions not
     * yet polled, in order, and then entries owned by hardware.
     */
    method ResizeCq(cqe: int, bufOk: bool, mrOk: bool, cmdErr: int) returns (ret: int)
      requires Valid()
      requires cqe <= MAX_CQE && CqSize(cqe) != buf.Length && bufOk && mrOk && cmdErr == 0 ==>
        HasHwEntry(buf[..], consIndex)
      modifies this
      ensures Valid() && consIndex == old(consIndex)
      ensures ret == (if cqe > MAX_CQE then EINVAL
                      else if CqSize(cqe) == old(buf.Length) then 0
                      else if !bufOk then -1 else if !mrOk then ENOMEM else cmdErr)
      ensures (cqe > MAX_CQE || CqSize(cqe) == old(buf.Length) || ret != 0) ==>
        buf == old(buf) && cqeMask == old(cqeMask) && ibCqe == old(ibCqe)
      ensures cqe <= MAX_CQE && CqSize(cqe) != old(buf.Length) && ret == 0 ==>
        fresh(buf) && buf.Length == CqSize(cqe) && Resized(old(buf[..]), buf[..], consIndex)
    {
      if cqe > MAX_CQE {
        return EINVAL;
      }
      var nent := AlignCqSize(cqe);
      if nent == ibCqe + 1 {
        return 0;
      }
      ret := Reallocate(nent, bufOk, mrOk, cmdErr);
    }
  }

  /**
   * The queue pair poll_one uses for an entry of queue pair number qpn when
   * prev is cached: prev if the numbers match, else find_qp's (find).
   */
  ghost function Pick(find: imap<nat, Qp?>, prev: Qp?, qpn: nat): Qp?
  {
    if prev != null && prev.qpn == qpn then prev else if qpn in find then find[qpn] else null
  }

  /** find_qp's answer for every queue pair number, as the context's tables give it. */
  ghost function Lookups(ctx: Context): imap<nat, Qp?>
    reads ctx, ctx.refcnt, ctx.tables
    requires ctx.Valid()
  {
    imap qpn: nat :: ctx.Find(qpn)
  }

  /**
   * The queue pairs a poll_cq served: the k-th completion, decoded from
   * entry v[k], went to qs[k], the queue pair Pick gives for that entry
   * after the one before (none cached for the first).
   */
  ghost predicate UserServed(find: imap<nat, Qp?>, v: seq<Cqe>, wcs: seq<Wc>, qs: seq<Qp>)
  {
    |qs| == |wcs| <= |v|
    && forall k {:trigger wcs[k]} :: 0 <= k < |wcs| ==> qs[k] == Pick(find, if k == 0 then null else qs[k - 1], v[k].qpn)
  }

  /**
   * The state of a poll_cq loop that started at consumer index ci0 with
   * window v, the queue pairs then in state s0, now at consumer index ci on
   * ring s with the queue pairs in state st: n entries consumed and handed
   * back, the completions wcs decoding the first of them and served to the
   * queue pairs qs (UserServed, IdsRead), and the queue pairs moved on from
   * s0 only by completions of those in qs (Advanced).
   */
  ghost predicate PollState(find: imap<nat, Qp?>, ci0: nat, v: seq<Cqe>, s0: map<Qp, Cq.QpState>, wcs: seq<Wc>,
                            qs: seq<Qp>, n: nat, ci: nat, s: seq<Cqe>, st: map<Qp, Cq.QpState>)
  {
    ci == ci0 + n && Consumed(s, ci0, v, n) && Decoded(wcs, v, false)
    && UserServed(find, v, wcs, qs) && Cq.IdsRead(wcs, qs, v, s0, false) && Cq.Advanced(s0, st, qs)
  }

  /** A software-owned entry of an unknown queue pair is consumed without a completion. */
  lemma PollStateSkip(find: imap<nat, Qp?>, ci0: nat, v: seq<Cqe>, s0: map<Qp, Cq.QpState>, wcs: seq<Wc>,
                      qs: seq<Qp>, ci: nat, s: seq<Cqe>, st: map<Qp, Cq.QpState>)
    requires PollState(find, ci0, v, s0, wcs, qs, |wcs|, ci, s, st)
    requires SwOwned(s[ci % |s|])
    ensures PollState(find, ci0, v, s0, wcs, qs, |wcs| + 1, ci + 1, s[ci % |s| := ToHw(s[ci % |s|])], st)
  {
    ConsumeStep(s, ci0, v, |wcs|);
  }

  /**
   * A software-owned entry of the queue pair q that Pick gives after the
   * last one served is consumed and decoded with the id read from q's
   * state before the retirement, which only moves q on.
   */
  lemma PollStateHit(find: imap<nat, Qp?>, ci0: nat, v: seq<Cqe>, s0: map<Qp, Cq.QpState>, wcs: seq<Wc>,
                     qs: seq<Qp>, ci: nat, s: seq<Cqe>, st: map<Qp, Cq.QpState>, st': map<Qp, Cq.QpState>,
                     wc: Wc, q: Qp)
    requires PollState(find, ci0, v, s0, wcs, qs, |wcs|, ci, s, st)
    requires |s| > 0 && SwOwned(s[ci % |s|])
    requires q in st && q == Pick(find, Cq.Last(null, qs), s[ci % |s|].qpn)
    requires wc == Completion(s[ci % |s|], Cq.UserWrId(st[q].sq, st[q].rq, s[ci % |s|]), q.qpn, false)
    requires Cq.Advanced(st, st', [q])
    ensures PollState(find, ci0, v, s0, wcs + [wc], qs + [q], |wcs| + 1, ci + 1,
                      s[ci % |s| := ToHw(s[ci % |s|])], st')
  {
    var n := |wcs|;
    ConsumeStep(s, ci0, v, n);
    CompletionFacts(v[n], Cq.UserWrId(st[q].sq, st[q].rq, v[n]), q.qpn, false);
    Cq.WrIdsKept(s0[q].sq, s0[q].rq, st[q].sq, st[q].rq, v[n]);
    DecodedStep(wcs, v, wc, false);
    Cq.IdsReadStep(wcs, qs, v, s0, false, wc, q);
    Cq.AdvancedTrans(s0, st, st', qs, [q]);
    var wcs', qs' := wcs + [wc], qs + [q];
    forall k | 0 <= k < |wcs'|
      ensures qs'[k] == Pick(find, if k == 0 then null else qs'[k - 1], v[k].qpn)
    {
      if k < n {
        assert wcs[k] == wcs'[k];
      }
    }
  }

  /**
   * The part of poll_one once the queue pair of entry e is known: the
   * work-request id from the table of the entry's own queue, the tail of
   * that queue moved on to the entry's slot, and for a receive the next
   * unit at the entry's offset cleared (zeroed).
   */
  method Retire(qp: Qp, e: Cqe, ghost qset: set<Qp>) returns (wc: Wc, zeroed: Option<nat>)
    requires qp in qset
    modifies qp
    ensures var idx := WqeIndex(if IsSend(e) then old(qp.sq) else old(qp.rq), e.wqe);
      wc == Completion(e, Cq.UserWrId(old(qp.sq), old(qp.rq), e), qp.qpn, false)
      && zeroed == (if IsSend(e) then None else Some(e.wqe))
      && qp.sq == (if IsSend(e) then Complete(old(qp.sq), idx) else old(qp.sq))
      && qp.rq == (if IsSend(e) then old(qp.rq) else Complete(old(qp.rq), idx))
      && qp.maxInline == old(qp.maxInline)
    ensures Cq.Advanced(old(Cq.States(qset)), Cq.States(qset), [qp])
  {
    var wrId := Cq.UserWrId(qp.sq, qp.rq, e);
    zeroed := None;
    if IsSend(e) {
      qp.sq := Complete(qp.sq, WqeIndex(qp.sq, e.wqe));
    } else {
      zeroed := Some(e.wqe);
      qp.rq := Complete(qp.rq, WqeIndex(qp.rq, e.wqe));
    }
    wc := Completion(e, wrId, qp.qpn, false);
  }

  /**
   * Hardware owns some entry of ring s: the copy loop of a resize, which
   * stops only at such an entry, then ends.
   */
  ghost predicate HasHwEntry(s: seq<Cqe>, ci: nat)
    requires |s| > 0
  {
    exists k :: 0 <= k < |s| && !SwOwned(At(s, ci, k))
  }

  /**
   * What a resize leaves in the new ring t, seen from cons_index ci: the n
   * entries of the old ring s from ci on that software owned, in order,
   * when they fit, and hardware-owned entries after them.
   */
  ghost predicate Resized(s: seq<Cqe>, t: seq<Cqe>, ci: nat)
    requires |s| > 0 && |t| > 0
  {
    var n := Produced(s, ci, 0, |s| - 1);
    (forall k :: 0 <= k < n ==> SwOwned(At(s, ci, k))) && !SwOwned(At(s, ci, n))
    && (n <= |t| ==>
          Window(t, ci, n) == Window(s, ci, n)
          && forall k :: n <= k < |t| ==> !SwOwned(At(t, ci, k)))
  }

  /** A copy of the software-owned entries into a ring owned by hardware gives a Resized ring. */
  lemma ResizedFromCopy(d0: seq<Cqe>, s: seq<Cqe>, ci: nat, n: nat)
    requires |d0| > 0 && |s| > 0 && (forall j :: 0 <= j < |d0| ==> !SwOwned(d0[j]))
    requires n == Produced(s, ci, 0, |s| - 1)
    requires (forall k :: 0 <= k < n ==> SwOwned(At(s, ci, k))) && !SwOwned(At(s, ci, n))
    ensures Resized(s, CopyInto(d0, s, ci, n), ci)
  {
    if n <= |d0| {
      CopyKeepsOrder(d0, s, ci, n);
    }
  }

  /**
   * Copying the n entries of s from ci on into d0 at the same indices: read
   * from ci the copy shows them in order, and after them what d0 held.
   */
  lemma CopyKeepsOrder(d0: seq<Cqe>, s: seq<Cqe>, ci: nat, n: nat)
    requires |d0| > 0 && |s| > 0 && n <= |d0|
    ensures var t := CopyInto(d0, s, ci, n);
      Window(t, ci, n) == Window(s, ci, n)
      && forall k :: n <= k < |d0| ==> At(t, ci, k) == At(d0, ci, k)
  {
    var t := CopyInto(d0, s, ci, n);
    var l := |d0|;
    CopyIntoWindow(d0, s, ci, n);
    var w := Window(t, ci, l);
    var x := Window(d0, ci, l);
    assert w == Window(s, ci, n) + x[n..];
    forall k | 0 <= k < n
      ensures Window(t, ci, n)[k] == Window(s, ci, n)[k]
    {
      assert w[k] == At(t, ci, k);
    }
    forall k | n <= k < l
      ensures At(t, ci, k) == At(d0, ci, k)
    {
      assert w[k] == At(t, ci, k);
      assert w[k] == x[k];
    }
  }

  /**
   * With the old ring of len entries polled under the larger mask nent - 1
   * that a failed resize leaves, cons_index len, reached after one lap,
   * selects slot len, one past the end of the ring.
   */
  lemma StaleMaskOverruns(len: nat, nent: nat)
    requires IsPow2(len) && IsPow2(nent) && len < nent
    ensures BitAnd(len, nent - 1) == len && BitAnd(len, nent - 1) >= len
  {
    MaskedSlot(len, nent);
    DivModUnique(len, nent, 0, len);
  }

  /**
   * A concrete failing resize: a 128-entry queue asked for 200 entries
   * rounds up to 256, the new ring cannot be had (-1), and cqe_mask is left
   * at 255 with the 128-entry ring in place; at cons_index 128 poll_one
   * reads slot 128.
   */
  lemma ResizeFailureExample()
    ensures CqSize(200) == 256 && CqSize(200) != 128
    ensures BitAnd(128, CqSize(200) - 1) == 128
  {
    assert Pow2(8) == 256 && Pow2(7) == 128;
    RoundUpPow2Is(200, 8);
    Pow2IsPow2(7);
    Pow2IsPow2(8);
    StaleMaskOverruns(128, 256);
  }

  // ---------------------------------------------------------------------
  // Creation and destruction

  /** What create_cq takes, in order: the record, the ring, its memory region. */
  datatype CqResource = CqRecord | CqBuf | CqMr

  const CQ_ORDER: seq<CqResource> := [CqRecord, CqBuf, CqMr]

  /**
   * hgrnic_create_cq: NULL above 0x20000 or when the record cannot be had;
   * a failing spinlock, ring, memory region or CREATE_CQ command gives back
   * what was taken, last first, and yields NULL.  Otherwise the queue has
   * the number the kernel answered (respCqn), a ring of CqSize(cqe)
   * entries all owned by hardware, and keeps all three resources.
   */
  method CreateCq(cqe: int, mallocOk: bool, spinOk: bool, bufOk: bool, mrOk: bool, cmdErr: int, respCqn: nat)
      returns (cq: UserCq?, steps: seq<Step<CqResource>>)
    ensures cq != null <==> cqe <= MAX_CQE && mallocOk && spinOk && bufOk && mrOk && cmdErr == 0
    ensures cq == null ==> Held(steps) == Some([])
    ensures cq != null ==>
      Held(steps) == Some(CQ_ORDER)
      && fresh(cq) && fresh(cq.buf) && cq.Valid() && cq.cqn == respCqn && cq.consIndex == 0
      && cq.buf.Length == CqSize(cqe) && (forall j :: 0 <= j < cq.buf.Length ==> !SwOwned(cq.buf[j]))
  {
    if cqe > MAX_CQE || !mallocOk {
      return null, [];
    }
    var taken := 0;
    var nent := 0;
    var ring: array?<Cqe> := null;
    if spinOk {
      nent := AlignCqSize(cqe);
      var err;
      err, ring := Cq.AllocCqBuf(nent, if bufOk then 0 else -1);
      taken := if err != 0 then 1 else if !mrOk then 2 else if cmdErr != 0 then 3 else 4;
    } else {
      taken := 1;
    }
    if taken < 4 {
      Unwinds(CQ_ORDER, taken);
      return null, AcquireFirst(CQ_ORDER, taken) + ReleaseFirst(CQ_ORDER, taken);
    }
    cq := new UserCq(respCqn, ring);
    steps := AcquireFirst(CQ_ORDER, 3);
    Unwinds(CQ_ORDER, 3);
    assert CQ_ORDER[..3] == CQ_ORDER;
  }

  /**
   * hgrnic_destroy_cq: a failing DESTROY_CQ command is returned and nothing
   * is given back; otherwise the memory region, the ring and the record.
   */
  function DestroyCq(cmdErr: int): (r: (int, seq<Step<CqResource>>))
    ensures r.0 == cmdErr
  {
    if cmdErr != 0 then (cmdErr, []) else (0, ReleaseFirst(CQ_ORDER, 3))
  }

  /** A queue created and then destroyed holds nothing; a failed destroy keeps all three. */
  lemma CreateDestroyBalanced(cmdErr: int)
    ensures var steps := AcquireFirst(CQ_ORDER, 3) + DestroyCq(cmdErr).1;
      Held(steps) == (if cmdErr == 0 then Some([]) else Some(CQ_ORDER))
  {
    Unwinds(CQ_ORDER, 3);
    assert CQ_ORDER[..3] == CQ_ORDER;
    assert AcquireFirst(CQ_ORDER, 3) + [] == AcquireFirst(CQ_ORDER, 3);
  }
}
