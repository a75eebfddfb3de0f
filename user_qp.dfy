/**
 * Queue pairs of the user-space library (qp.c and the QP verbs of
 * verbs.c): resetting a QP's indices, the ring-full test, the send
 * doorbell, the index accounting of post_send and post_recv with the
 * inline-data check, the sizing of a QP's buffers, QP creation with its
 * unwinding, and the reset path of modify_qp.  Descriptor contents are not
 * modelled; a post is followed through the slots it fills, the wr_id
 * table, head and the doorbells it rings.
 */
module UserQp {
  import opened Common
  import opened Wq
  import opened Wqe
  import opened QpSpec
  import opened Trace
  import QueuePair
  import LibHgrnic
  import UserVerbs
  import UserContext
  import UserCq
  import CqSpec

  /** The limits of hgrnic_create_qp: work requests, gather entries and inline bytes. */
  const MAX_QP_WR: nat := 65536
  const MAX_QP_SGE: nat := 64
  const MAX_QP_INLINE: nat := 1024

  /** IBV_QP_STATE, the attribute-mask bit of a state change, and IBV_QPS_RESET. */
  const IBV_QP_STATE: nat := 1
  const IBV_QPS_RESET: int := 0

  /** HGRNIC_INLINE_UNIT, the flag of an inline unit's byte count. */
  const INLINE_UNIT_FLAG: nat := 0x8000_0000

  // ---------------------------------------------------------------------
  // Indices, the ring-full test and the doorbell

  /**
   * hgrnic_init_qp_indices: both queues back to nothing posted, nothing
   * retired, next_ind 0 and last_comp max - 1 (as an unsigned value).
   */
  method InitQpIndices(qp: Qp)
    modifies qp
    ensures qp.sq == Reset(old(qp.sq)) && qp.rq == Reset(old(qp.rq))
    ensures qp.maxInline == old(qp.maxInline)
  {
    qp.sq := Reset(qp.sq);
    qp.rq := Reset(qp.rq);
  }

  /**
   * wq_overflow: head - tail + nreq, in u32 arithmetic, is compared with
   * max once without a lock and, when it does not fit, once more under the
   * CQ lock (the same values here, as every operation is atomic).
   */
  method WqOverflow(w: WorkQueue, nreq: nat) returns (full: bool)
    requires w.head < U32 && w.tail < U32
    ensures full == Overflow(w, nreq)
  {
    var cur := Sub32(w.head, w.tail);
    if Add32(cur, nreq) < w.max {
      return false;
    }
    cur := Sub32(w.head, w.tail);
    full := Add32(cur, nreq) >= w.max;
  }

  /**
   * post_send tests request i against a head already moved on by the
   * doorbells rung before it: with head advanced by a and b requests
   * pending, the test is the one for a + b requests from the starting
   * queue, so each request is checked against everything posted before it.
   */
  lemma OverflowAfterRings(w: WorkQueue, a: nat, b: nat)
    requires w.head < U32 && w.tail < U32
    ensures Overflow(w.(head := Add32(w.head, a)), b) == Overflow(w, a + b)
  {
    var h, t := w.head, w.tail;
    var sum := (h + a) % U32;
    var x := (sum - t) % U32;
    var y := (h - t) % U32;
    var q1, q2, q3 := (h + a) / U32, (sum - t) / U32, (h - t) / U32;
    assert x + b == (y + a + b) + (q3 - q1 - q2) * U32;
    SameMod(x + b, y + a + b, q3 - q1 - q2);
  }

  /** Values that differ by a multiple of 2^32 leave the same remainder. */
  lemma SameMod(p: int, q: int, k: int)
    requires p == q + k * U32
    ensures p % U32 == q % U32
  {
    DivModUnique(p, U32, q / U32 + k, q % U32);
  }

  /**
   * The two words hgrnic_send_db writes: db[1] = (qp_num << 8) | size0 and
   * db[0] = ((head << (wqe_shift - 4)) << 8) | f0 | op0, each on a u32, so
   * the head's descriptor offset in 16-byte units keeps 24 bits.
   */
  function UserSendDoorbell(qpn: nat, head: nat, shift: nat, size0: nat, f0: nat, op0: nat): Doorbell
    requires shift >= 4
  {
    Doorbell(BitOr(Shl(qpn, 8) % U32, size0) % U32,
             BitOr(BitOr(Shl(Shl(head, shift - 4) % U32, 8) % U32, f0), op0) % U32)
  }

  /**
   * With a 24-bit QP number, a size below 256, a fence flag of 0 or 1 << 5
   * and a 5-bit opcode, the high word is qpn over size0, and the low word
   * is head * 2^(wqe_shift - 4) modulo 2^24 over f0 + op0.
   */
  lemma UserSendDoorbellFields(qpn: nat, head: nat, shift: nat, size0: nat, f0: nat, op0: nat)
    requires qpn < 0x100_0000 && size0 < 256 && (f0 == 0 || f0 == 0x20) && op0 < 0x20 && shift >= 4
    ensures var d := UserSendDoorbell(qpn, head, shift, size0, f0, op0);
      var h := Shl(head, shift - 4) % 0x100_0000;
      d.hi == qpn * 256 + size0 && d.hi / 256 == qpn && d.hi % 256 == size0
      && d.lo == h * 256 + f0 + op0 && d.lo / 256 == h && d.lo % 256 == f0 + op0
  {
    assert Pow2(8) == 256;
    MulMonotone(0xFF_FFFF, qpn, 256);
    DivModUnique(Shl(qpn, 8), U32, 0, Shl(qpn, 8));
    HiWord(qpn, size0);
    ShiftByteMod(Shl(head, shift - 4));
    LoWord(Shl(head, shift - 4) % 0x100_0000, f0, op0);
  }

  /** A u32 shifted left by 8 on a u32 keeps the low 24 bits of the value, shifted. */
  lemma ShiftByteMod(v: nat)
    ensures Shl(v % U32, 8) % U32 == Shl(v % 0x100_0000, 8)
  {
    assert Pow2(8) == 256;
    var q, r := v / 0x100_0000, v % 0x100_0000;
    DivModUnique(v, U32, q / 256, (q % 256) * 0x100_0000 + r);
    DivModUnique(((q % 256) * 0x100_0000 + r) * 256, U32, q % 256, r * 256);
  }

  /**
   * hgrnic_send_db on a send queue value: the doorbell words from the
   * head before the ring, then head moves on by nreq (modulo 2^32).
   */
  method SendDb(qpn: nat, sq: WorkQueue, nreq: nat, size0: nat, f0: nat, op0: nat)
      returns (db: Doorbell, sq': WorkQueue)
    requires sq.entrySzLog >= 4
    ensures db == UserSendDoorbell(qpn, sq.head, sq.entrySzLog, size0, f0, op0)
    ensures sq' == sq.(head := Add32(sq.head, nreq))
  {
    db := UserSendDoorbell(qpn, sq.head, sq.entrySzLog, size0, f0, op0);
    sq' := sq.(head := Add32(sq.head, nreq));
  }

  // ---------------------------------------------------------------------
  // Inline data

  /** The sum of the gather lengths. */
  function Total(lens: seq<nat>): nat
  {
    if lens == [] then 0 else Total(lens[..|lens| - 1]) + lens[|lens| - 1]
  }

  /** A prefix of the gather list carries no more bytes than the whole list. */
  lemma {:induction false} TotalPrefix(lens: seq<nat>, k: nat)
    requires k <= |lens|
    ensures Total(lens[..k]) <= Total(lens)
    decreases |lens|
  {
    if k < |lens| {
      assert lens[..|lens| - 1][..k] == lens[..k];
      TotalPrefix(lens[..|lens| - 1], k);
    } else {
      assert lens[..k] == lens;
    }
  }

  /**
   * The inline loop of post_send with the running total kept exact: each
   * length is added and a total above max_inline_data rejects the request.
   * The request is accepted exactly when its whole payload fits, and the
   * total is then the payload's size.
   */
  method InlineTotal(lens: seq<nat>, maxInline: nat) returns (ok: bool, s: nat)
    ensures ok <==> Total(lens) <= maxInline
    ensures ok ==> s == Total(lens)
  {
    s := 0;
    var i := 0;
    while i < |lens|
      invariant i <= |lens| && s == Total(lens[..i]) && s <= maxInline
    {
      assert lens[..i + 1][..i] == lens[..i];
      s := s + lens[i];
      if s > maxInline {
        TotalPrefix(lens, i + 1);
        return false, s;
      }
      i := i + 1;
    }
    assert lens[..i] == lens;
    ok := true;
  }

  /**
   * The inline check of post_send as written: the total s is an int and
   * each u32 length is added in unsigned arithmetic, so s is the total
   * modulo 2^32 read as an int.  Every running total must be at most
   * max_inline_data.
   */
  predicate InlineAcceptedAsWritten(lens: seq<nat>, maxInline: int)
  {
    forall k :: 1 <= k <= |lens| ==> Signed32(Total(lens[..k]) % U32) <= maxInline
  }

  /** The inline loop of post_send as written, with the int total wrapping (see InlineAcceptedAsWritten). */
  method InlineTotalAsWritten(lens: seq<nat>, maxInline: int) returns (ok: bool, s: int)
    ensures ok <==> InlineAcceptedAsWritten(lens, maxInline)
    ensures ok ==> s == Signed32(Total(lens) % U32)
  {
    s := 0;
    var i := 0;
    while i < |lens|
      invariant i <= |lens| && s == Signed32(Total(lens[..i]) % U32)
      invariant forall k :: 1 <= k <= i ==> Signed32(Total(lens[..k]) % U32) <= maxInline
    {
      assert lens[..i + 1][..i] == lens[..i];
      ModAddLeft(Total(lens[..i]), lens[i], U32);
      s := Signed32((s % U32 + lens[i]) % U32);
      if s > maxInline {
        return false, s;
      }
      i := i + 1;
    }
    assert lens[..i] == lens;
    ok := true;
  }

  /**
   * The check as written lets through payloads far above the limit: with
   * max_inline_data 1024, two entries of 1024 and 2^32 - 1024 bytes sum to
   * 0 in the int, and one entry of 2^31 bytes sums to a negative int; both
   * pass, while their payloads exceed 1024.
   */
  lemma InlineWrapAccepted()
    ensures InlineAcceptedAsWritten([1024, 0xFFFF_FC00], 1024) && Total([1024, 0xFFFF_FC00]) > 1024
    ensures Signed32(Total([1024, 0xFFFF_FC00]) % U32) == 0
    ensures InlineAcceptedAsWritten([0x8000_0000], 1024) && Total([0x8000_0000]) > 1024
  {
    var a: seq<nat> := [1024, 0xFFFF_FC00];
    assert a[..1] == [1024] && a[..2] == a;
    assert Total([1024]) == 1024;
    assert Total(a) == U32;
    DivModUnique(U32, U32, 1, 0);
    var b: seq<nat> := [0x8000_0000];
    assert b[..1] == b;
    assert Total(b) == 0x8000_0000;
  }

  /**
   * The 16-byte units of an inline unit (4 bytes) and s bytes of payload:
   * the fewest units that hold them.
   */
  function InlineUnits(s: nat): (u: nat)
    ensures 16 * u >= s + INLINE_UNIT_SIZE && 16 * (u - 1) < s + INLINE_UNIT_SIZE
  {
    (s + INLINE_UNIT_SIZE + 15) / 16
  }

  /** align(s + 4, 16) / 16, as post_send and alloc_qp_buf compute it, is InlineUnits(s). */
  lemma AlignInlineUnits(s: nat)
    requires s + INLINE_UNIT_SIZE + 16 <= U64
    ensures LibHgrnic.Align(s + INLINE_UNIT_SIZE, 16) / 16 == InlineUnits(s)
  {
    assert Pow2(4) == 16;
    LibHgrnic.AlignRoundsUp(s + INLINE_UNIT_SIZE, 4);
    var r := LibHgrnic.Align(s + INLINE_UNIT_SIZE, 16);
    DivModUnique(r, 16, InlineUnits(s), 0);
  }

  // ---------------------------------------------------------------------
  // post_send

  /**
   * A send work request as post_send reads it: its id, verbs opcode, the
   * fence and inline flags, and the lengths of its gather entries.
   */
  datatype UserSendWr = UserSendWr(wrId: nat, opcode: nat, fence: bool, inline: bool, lens: seq<nat>)

  function UserSendIds(wrs: seq<UserSendWr>): (ids: seq<nat>)
    ensures |ids| == |wrs| && forall i :: 0 <= i < |wrs| ==> ids[i] == wrs[i].wrId
  {
    seq(|wrs|, i requires 0 <= i < |wrs| => wrs[i].wrId)
  }

  /**
   * The size of a send descriptor in 16-byte units: the next unit and the
   * transport's address or UD unit, then either one data unit per gather
   * entry or, for inline data with at least one entry, the inline unit and
   * payload rounded up to whole units.
   */
  function SendUnits(t: Transport, wr: UserSendWr): nat
  {
    HeaderUnits(t, wr.opcode)
    + if !wr.inline then |wr.lens|
      else if |wr.lens| == 0 then 0
      else InlineUnits(Total(wr.lens))
  }

  /**
   * The checks of the i-th request up to its wr_id store: room in the ring
   * for it beside everything posted before it, no more gather entries than
   * max_gs, and an inline payload within max_inline_data.
   */
  predicate IdWritten(w0: WorkQueue, maxInline: nat, wr: UserSendWr, i: nat)
    requires w0.head < U32 && w0.tail < U32
  {
    !Overflow(w0, i) && |wr.lens| <= w0.maxGs && (wr.inline ==> Total(wr.lens) <= maxInline)
  }

  /** The i-th request is accepted: the checks above and an opcode inside the table. */
  predicate SendAccepted(w0: WorkQueue, maxInline: nat, wr: UserSendWr, i: nat)
    requires w0.head < U32 && w0.tail < U32
  {
    IdWritten(w0, maxInline, wr, i) && wr.opcode < |OPCODES|
  }

  /** The first n requests are all accepted (SendAccepted), stated request by request. */
  predicate AllAccepted(w0: WorkQueue, maxInline: nat, wrs: seq<UserSendWr>, n: nat)
    requires w0.head < U32 && w0.tail < U32 && n <= |wrs|
  {
    n == 0 || (AllAccepted(w0, maxInline, wrs, n - 1) && SendAccepted(w0, maxInline, wrs[n - 1], n - 1))
  }

  /** AllAccepted says of each of the first n requests that it is accepted. */
  lemma {:induction false} AllAcceptedEach(w0: WorkQueue, maxInline: nat, wrs: seq<UserSendWr>, n: nat)
    requires w0.head < U32 && w0.tail < U32 && n <= |wrs|
    requires AllAccepted(w0, maxInline, wrs, n)
    ensures forall i :: 0 <= i < n ==> SendAccepted(w0, maxInline, wrs[i], i)
  {
    if n > 0 {
      AllAcceptedEach(w0, maxInline, wrs, n - 1);
    }
  }

  /** A send queue post_send can work on: Postable, and wqe_shift - 4 a legal shift. */
  predicate UserPostable(w: WorkQueue)
  {
    Postable(w) && w.entrySzLog >= 4
  }

  /**
   * The doorbell of the k-th batch of 255: head moved on by the 255k
   * requests of the batches before it, and the size, fence and opcode of
   * the batch's first request.
   */
  function BatchBell(qpn: nat, t: Transport, w0: WorkQueue, wrs: seq<UserSendWr>, k: nat): Doorbell
    requires w0.entrySzLog >= 4
  {
    var i := MAX_WQES_PER_SEND_DB * k;
    if i < |wrs| then
      var a := FirstArgs(t, wrs[i]);
      UserSendDoorbell(qpn, Add32(w0.head, MAX_WQES_PER_SEND_DB * k), w0.entrySzLog, a.size0, a.f0, a.op0)
    else Doorbell(0, 0)
  }

  /** The doorbell fields taken from a batch's first request: its size, fence bits and device opcode. */
  datatype BellArgs = BellArgs(size0: nat, f0: nat, op0: nat)

  function FirstArgs(t: Transport, wr: UserSendWr): BellArgs
  {
    BellArgs(SendUnits(t, wr), Fence(wr.fence), OpcodeOf(wr.opcode))
  }

  /** The doorbells of the first n batches, in order. */
  function Bells(qpn: nat, t: Transport, w0: WorkQueue, wrs: seq<UserSendWr>, n: nat): (r: seq<Doorbell>)
    requires w0.entrySzLog >= 4
    ensures |r| == n
  {
    seq(n, k requires 0 <= k < n => BatchBell(qpn, t, w0, wrs, k))
  }

  /**
   * The send queue after post_send stopped at request bad: head moved on
   * by the bad requests accepted, and their ids in the slots from head's,
   * with that of a request rejected only for its opcode after them.
   */
  function SentQueue(w0: WorkQueue, maxInline: nat, wrs: seq<UserSendWr>, bad: nat): (w: WorkQueue)
    requires Postable(w0) && bad <= |wrs|
    ensures w == w0.(head := w.head, wrId := w.wrId) && w.head == Add32(w0.head, bad)
  {
    var stored := if bad < |wrs| && IdWritten(w0, maxInline, wrs[bad], bad) then 1 else 0;
    w0.(head := Add32(w0.head, bad), wrId := Placed(w0.wrId, StartSlot(w0), UserSendIds(wrs), bad + stored))
  }

  /**
   * The checks post_send makes on request i against the queue as it
   * stands (head moved on by the i - nreq requests already rung, nreq
   * pending): ring room, gather count and inline size decide whether its
   * wr_id is stored; the opcode then decides whether it is accepted, with
   * its descriptor size.
   */
  method CheckSend(t: Transport, w0: WorkQueue, head: nat, nreq: nat, maxInline: nat, wr: UserSendWr, ghost i: nat)
      returns (stored: bool, ok: bool, units: nat)
    requires w0.head < U32 && w0.tail < U32 && maxInline < UserContext.INT_LIMIT
    requires nreq <= i && head == Add32(w0.head, i - nreq)
    ensures stored <==> IdWritten(w0, maxInline, wr, i)
    ensures ok <==> SendAccepted(w0, maxInline, wr, i)
    ensures ok ==> units == SendUnits(t, wr)
  {
    var w := w0.(head := head);
    OverflowAfterRings(w0, i - nreq, nreq);
    var full := WqOverflow(w, nreq);
    if full {
      return false, false, 0;
    }
    units := HeaderUnits(t, wr.opcode);
    if |wr.lens| > w.maxGs {
      return false, false, 0;
    }
    if wr.inline {
      if |wr.lens| > 0 {
        var fits, s := InlineTotal(wr.lens, maxInline);
        if !fits {
          return false, false, 0;
        }
        AlignInlineUnits(s);
        units := units + LibHgrnic.Align(s + INLINE_UNIT_SIZE, 16) / 16;
      }
    } else {
      units := units + |wr.lens|;
    }
    stored := true;
    ok := wr.opcode < |OPCODES|;
  }

  /** What the steps of post_send's loop need of the send queue. */
  predicate Ready(w: WorkQueue)
  {
    w.head < U32 && w.tail < U32 && w.max < U32 && |w.wrId| == w.max && w.entrySzLog >= 4
  }

  /**
   * The variables of post_send's loop: the result so far, the requests
   * taken (bad), those pending since the last doorbell (nreq), the
   * doorbells rung (batches of 255) with their words, head, the first
   * pending request's size0, f0 and op0, the wr_id table and the slot
   * index.
   */
  datatype SendState = SendState(ret: int, bad: nat, nreq: nat, batches: nat, head: nat, dbs: seq<Doorbell>,
                                 first: BellArgs, wrId: seq<nat>, ind: nat)

  /** What holds of SendState at the top of post_send's loop. */
  ghost predicate SendInv(qpn: nat, t: Transport, w0: WorkQueue, maxInline: nat, wrs: seq<UserSendWr>, start: nat, s: SendState)
    requires Ready(w0)
  {
    s.bad <= |wrs| && s.bad == 255 * s.batches + s.nreq && s.nreq <= 255
    && (s.ret == 0 ==> (s.bad > 0 ==> s.nreq >= 1))
    && (s.ret != 0 ==> s.ret == -1 && s.bad < |wrs| && s.nreq < 255 && !SendAccepted(w0, maxInline, wrs[s.bad], s.bad))
    && s.head == Add32(w0.head, 255 * s.batches)
    && s.dbs == Bells(qpn, t, w0, wrs, s.batches)
    && (s.nreq > 0 ==> s.first == FirstArgs(t, wrs[255 * s.batches]))
    && AllAccepted(w0, maxInline, wrs, s.bad)
    && s.wrId == Placed(w0.wrId, start, UserSendIds(wrs),
                        s.bad + if s.ret != 0 && IdWritten(w0, maxInline, wrs[s.bad], s.bad) then 1 else 0)
    && (s.ret == 0 && w0.max > 0 ==> s.ind == (start + s.bad) % w0.max)
  }

  /**
   * What holds when request u.bad is about to be checked: nothing
   * rejected, fewer than 255 pending, and the facts of SendInv.
   */
  ghost predicate Batched(qpn: nat, t: Transport, w0: WorkQueue, maxInline: nat, wrs: seq<UserSendWr>, start: nat, u: SendState)
    requires Ready(w0)
  {
    u.ret == 0 && u.bad < |wrs| && u.bad == 255 * u.batches + u.nreq && u.nreq < 255
    && u.head == Add32(w0.head, 255 * u.batches) && u.dbs == Bells(qpn, t, w0, wrs, u.batches)
    && (u.nreq > 0 ==> u.first == FirstArgs(t, wrs[255 * u.batches]))
    && AllAccepted(w0, maxInline, wrs, u.bad)
    && u.wrId == Placed(w0.wrId, start, UserSendIds(wrs), u.bad)
    && (w0.max > 0 ==> u.ind == (start + u.bad) % w0.max)
  }

  /**
   * The doorbell rung before a request that finds 255 pending: head moves
   * on by 255 and a new batch starts, with nothing pending.
   */
  method RingBatch(qpn: nat, t: Transport, w0: WorkQueue, maxInline: nat, wrs: seq<UserSendWr>, ghost start: nat, s: SendState)
      returns (s': SendState)
    requires Ready(w0) && SendInv(qpn, t, w0, maxInline, wrs, start, s) && s.ret == 0 && s.bad < |wrs|
    ensures Batched(qpn, t, w0, maxInline, wrs, start, s') && s'.bad == s.bad
  {
    if s.nreq < MAX_WQES_PER_SEND_DB {
      return s;
    }
    var db, q := SendDb(qpn, w0.(head := s.head), s.nreq, s.first.size0, s.first.f0, s.first.op0);
    AddAdd32(w0.head, 255 * s.batches, 255);
    assert Bells(qpn, t, w0, wrs, s.batches + 1) == s.dbs + [BatchBell(qpn, t, w0, wrs, s.batches)];
    s' := s.(nreq := 0, batches := s.batches + 1, head := q.head, dbs := s.dbs + [db]);
  }

  /**
   * One turn of post_send's loop on request bad: the doorbell when 255 are
   * pending, then the checks, the wr_id store when they pass, and the
   * slot and counts moved on when the opcode is known too.
   */
  method SendStep(qpn: nat, t: Transport, w0: WorkQueue, maxInline: nat, wrs: seq<UserSendWr>, ghost start: nat, s: SendState)
      returns (s': SendState)
    requires Ready(w0) && maxInline < UserContext.INT_LIMIT
    requires SendInv(qpn, t, w0, maxInline, wrs, start, s) && s.ret == 0 && s.bad < |wrs|
    ensures SendInv(qpn, t, w0, maxInline, wrs, start, s')
    ensures s'.bad > s.bad || (s'.bad == s.bad && s'.ret != 0)
  {
    var u := RingBatch(qpn, t, w0, maxInline, wrs, start, s);
    var stored, ok, units := CheckSend(t, w0, u.head, u.nreq, maxInline, wrs[u.bad], u.bad);
    if !ok {
      s' := RejectSend(qpn, t, w0, maxInline, wrs, start, u, stored);
    } else {
      s' := AcceptSend(qpn, t, w0, maxInline, wrs, start, u, units);
    }
  }

  /** Request u.bad is rejected: its wr_id is stored if the checks before the opcode passed, and the loop stops with -1. */
  method RejectSend(qpn: nat, t: Transport, w0: WorkQueue, maxInline: nat, wrs: seq<UserSendWr>, ghost start: nat, u: SendState, stored: bool)
      returns (s': SendState)
    requires Ready(w0) && Batched(qpn, t, w0, maxInline, wrs, start, u)
    requires !SendAccepted(w0, maxInline, wrs[u.bad], u.bad) && (stored <==> IdWritten(w0, maxInline, wrs[u.bad], u.bad))
    ensures SendInv(qpn, t, w0, maxInline, wrs, start, s') && s'.bad == u.bad && s'.ret != 0
  {
    var wrId := u.wrId;
    if stored {
      NextSlot(start, u.bad, w0.max);
      wrId := wrId[u.ind := wrs[u.bad].wrId];
    }
    s' := u.(ret := -1, wrId := wrId);
  }

  /**
   * Request u.bad is accepted: its wr_id is stored, it joins the pending
   * batch (starting it when nothing is pending) and the slot moves on.
   */
  method AcceptSend(qpn: nat, t: Transport, w0: WorkQueue, maxInline: nat, wrs: seq<UserSendWr>, ghost start: nat, u: SendState, units: nat)
      returns (s': SendState)
    requires Ready(w0) && Batched(qpn, t, w0, maxInline, wrs, start, u)
    requires SendAccepted(w0, maxInline, wrs[u.bad], u.bad) && units == SendUnits(t, wrs[u.bad])
    ensures SendInv(qpn, t, w0, maxInline, wrs, start, s') && s'.bad == u.bad + 1
  {
    var i := u.bad;
    assert w0.max > 0;
    NextSlot(start, i, w0.max);
    var wrId := u.wrId[u.ind := wrs[i].wrId];
    assert wrId == Placed(w0.wrId, start, UserSendIds(wrs), i + 1);
    var first := u.first;
    if u.nreq == 0 {
      first := BellArgs(units, Fence(wrs[i].fence), OPCODES[wrs[i].opcode]);
      assert first == FirstArgs(t, wrs[i]);
    }
    var ind := if u.ind + 1 >= w0.max then u.ind + 1 - w0.max else u.ind + 1;
    assert AllAccepted(w0, maxInline, wrs, i + 1);
    s' := SendState(0, i + 1, u.nreq + 1, u.batches, u.head, u.dbs, first, wrId, ind);
  }

  /**
   * The doorbell rung at the out label for the requests pending, if any:
   * every started batch of 255 then has its doorbell and head has moved
   * on by every request taken.
   */
  method FlushBatch(qpn: nat, t: Transport, w0: WorkQueue, maxInline: nat, wrs: seq<UserSendWr>, ghost start: nat, s: SendState)
      returns (dbs: seq<Doorbell>, head: nat)
    requires Ready(w0) && SendInv(qpn, t, w0, maxInline, wrs, start, s)
    ensures dbs == Bells(qpn, t, w0, wrs, (s.bad + 254) / 255) && head == Add32(w0.head, s.bad)
  {
    dbs, head := s.dbs, s.head;
    if s.nreq > 0 {
      var db, q := SendDb(qpn, w0.(head := head), s.nreq, s.first.size0, s.first.f0, s.first.op0);
      AddAdd32(w0.head, 255 * s.batches, s.nreq);
      assert Bells(qpn, t, w0, wrs, s.batches + 1) == s.dbs + [BatchBell(qpn, t, w0, wrs, s.batches)];
      DivModUnique(s.bad + 254, 255, s.batches + 1, s.nreq - 1);
      dbs, head := dbs + [db], q.head;
    } else {
      DivModUnique(s.bad + 254, 255, s.batches, 254);
    }
  }

  /** post_send's loop starts with nothing taken, from slot head & (max - 1). */
  lemma SendStart(qpn: nat, t: Transport, w0: WorkQueue, maxInline: nat, wrs: seq<UserSendWr>)
    requires UserPostable(w0)
    ensures var start := StartSlot(w0);
      SendInv(qpn, t, w0, maxInline, wrs, start, SendState(0, 0, 0, 0, w0.head, [], BellArgs(0, 0, 0), w0.wrId, start))
  {
    var start := StartSlot(w0);
    if w0.max > 0 {
      DivModUnique(start, w0.max, 0, start);
    }
    DivModUnique(w0.head, U32, 0, w0.head);
  }

  /**
   * When post_send's loop stops, every request before bad was accepted,
   * request bad (if any) was not, and the wr_id table is SentQueue's.
   */
  lemma SendDone(qpn: nat, t: Transport, w0: WorkQueue, maxInline: nat, wrs: seq<UserSendWr>, s: SendState)
    requires UserPostable(w0) && SendInv(qpn, t, w0, maxInline, wrs, StartSlot(w0), s)
    requires s.bad >= |wrs| || s.ret != 0
    ensures (s.ret == 0 || s.ret == -1) && s.bad <= |wrs| && (s.ret == 0 <==> s.bad == |wrs|)
    ensures forall i :: 0 <= i < s.bad ==> SendAccepted(w0, maxInline, wrs[i], i)
    ensures s.bad < |wrs| ==> !SendAccepted(w0, maxInline, wrs[s.bad], s.bad)
    ensures SentQueue(w0, maxInline, wrs, s.bad) == w0.(head := Add32(w0.head, s.bad), wrId := s.wrId)
  {
    AllAcceptedEach(w0, maxInline, wrs, s.bad);
  }

  /**
   * hgrnic_post_send on its indices: from slot head & (max - 1) each
   * request is checked, its wr_id stored and the slot moved on; before a
   * request that finds 255 pending, their doorbell is rung (moving head by
   * 255); the first rejected request stops the loop with -1 and is
   * reported as bad_wr, and a last doorbell covers the requests accepted
   * since the last one.  head grows by exactly the number accepted, and
   * there is one doorbell per started batch of 255.
   */
  method SendIndices(qpn: nat, t: Transport, w0: WorkQueue, maxInline: nat, wrs: seq<UserSendWr>)
      returns (ret: int, bad: nat, dbs: seq<Doorbell>, w: WorkQueue)
    requires UserPostable(w0) && maxInline < UserContext.INT_LIMIT
    ensures (ret == 0 || ret == -1) && bad <= |wrs| && (ret == 0 <==> bad == |wrs|)
    ensures forall i :: 0 <= i < bad ==> SendAccepted(w0, maxInline, wrs[i], i)
    ensures bad < |wrs| ==> !SendAccepted(w0, maxInline, wrs[bad], bad)
    ensures dbs == Bells(qpn, t, w0, wrs, (bad + 254) / 255)
    ensures w == SentQueue(w0, maxInline, wrs, bad)
  {
    var start := StartSlot(w0);
    var s := SendState(0, 0, 0, 0, w0.head, [], BellArgs(0, 0, 0), w0.wrId, start);
    SendStart(qpn, t, w0, maxInline, wrs);
    while s.bad < |wrs| && s.ret == 0
      invariant SendInv(qpn, t, w0, maxInline, wrs, start, s)
      decreases |wrs| - s.bad, if s.ret == 0 then 1 else 0
    {
      s := SendStep(qpn, t, w0, maxInline, wrs, start, s);
    }
    SendDone(qpn, t, w0, maxInline, wrs, s);
    var head;
    dbs, head := FlushBatch(qpn, t, w0, maxInline, wrs, start, s);
    ret, bad := s.ret, s.bad;
    w := w0.(head := head, wrId := s.wrId);
  }

  /**
   * hgrnic_post_send on a queue pair: SendIndices on its send queue and
   * its max_inline_data, with the doorbell words it writes.
   */
  method PostSend(qp: Qp, t: Transport, wrs: seq<UserSendWr>) returns (ret: int, bad: nat, dbs: seq<Doorbell>)
    requires UserPostable(qp.sq) && qp.maxInline < UserContext.INT_LIMIT
    modifies qp
    ensures (ret == 0 || ret == -1) && bad <= |wrs| && (ret == 0 <==> bad == |wrs|)
    ensures forall i :: 0 <= i < bad ==> SendAccepted(old(qp.sq), qp.maxInline, wrs[i], i)
    ensures bad < |wrs| ==> !SendAccepted(old(qp.sq), qp.maxInline, wrs[bad], bad)
    ensures dbs == Bells(qp.qpn, t, old(qp.sq), wrs, (bad + 254) / 255)
    ensures qp.sq == SentQueue(old(qp.sq), qp.maxInline, wrs, bad)
    ensures qp.rq == old(qp.rq) && qp.maxInline == old(qp.maxInline)
  {
    var sq;
    ret, bad, dbs, sq := SendIndices(qp.qpn, t, qp.sq, qp.maxInline, wrs);
    qp.sq := sq;
  }

  /**
   * What post_send promises the completion path: the queue then holds the
   * requests it held before plus the ones accepted, never more than max,
   * and the i-th accepted request's id sits in slot (start + i) mod max,
   * which on the power-of-two rings the library creates is (head + i) mod
   * max.
   */
  lemma PostSendKeepsRoom(w0: WorkQueue, maxInline: nat, wrs: seq<UserSendWr>, bad: nat)
    requires Postable(w0) && 0 < bad <= |wrs|
    requires forall i :: 0 <= i < bad ==> SendAccepted(w0, maxInline, wrs[i], i)
    ensures var w := SentQueue(w0, maxInline, wrs, bad);
      Outstanding(w) == Outstanding(w0) + bad <= w0.max
      && (forall i :: 0 <= i < bad ==> w.wrId[(StartSlot(w0) + i) % w0.max] == wrs[i].wrId)
      && (IsPow2(w0.max) ==> forall i :: 0 <= i < bad ==> w.wrId[(w0.head + i) % w0.max] == wrs[i].wrId)
  {
    var stored := bad < |wrs| && IdWritten(w0, maxInline, wrs[bad], bad);
    var n := bad + if stored then 1 else 0;
    assert forall i :: 0 <= i < n ==> !Overflow(w0, i) by {
      forall i | 0 <= i < n
        ensures !Overflow(w0, i)
      {
        if i < bad {
          assert SendAccepted(w0, maxInline, wrs[i], i);
        }
      }
    }
    QueuePair.AcceptedFit(w0, n);
    QueuePair.RoomAfter(w0, bad);
    QueuePair.SlotsAfter(w0, UserSendIds(wrs), n);
  }

  // ---------------------------------------------------------------------
  // post_recv

  /**
   * hgrnic_post_recv: the index work is that of the kernel's receive post
   * (QueuePair.RecvIndices: ring room, then the gather count, then the
   * wr_id store), each rejection reported as -1; head then grows by the
   * number accepted.
   */
  method PostRecv(qp: Qp, wrs: seq<QueuePair.RecvWr>) returns (ret: int, bad: nat)
    requires Postable(qp.rq)
    modifies qp
    ensures (ret == 0 || ret == -1) && bad <= |wrs| && (ret == 0 <==> bad == |wrs|)
    ensures forall i :: 0 <= i < bad ==> QueuePair.RecvError(old(qp.rq), wrs[i], i) == 0
    ensures bad < |wrs| ==> QueuePair.RecvError(old(qp.rq), wrs[bad], bad) != 0
    ensures qp.rq == old(qp.rq).(head := Add32(old(qp.rq.head), bad),
                                 wrId := Placed(old(qp.rq.wrId), StartSlot(old(qp.rq)), QueuePair.RecvIds(wrs), bad))
    ensures qp.sq == old(qp.sq) && qp.maxInline == old(qp.maxInline)
  {
    var err, wrId;
    err, bad, wrId := QueuePair.RecvIndices(qp.rq, wrs);
    ret := if err != 0 then -1 else 0;
    qp.rq := qp.rq.(head := Add32(qp.rq.head, bad), wrId := wrId);
  }

  // ---------------------------------------------------------------------
  // Buffers

  /**
   * The data units a send descriptor is sized for: enough for the largest
   * inline payload with its inline unit, and at least max_send_sge.
   */
  function MaxSqSge(cap: QueuePair.QpCap): (n: nat)
    ensures n >= cap.maxSendSge && 16 * n >= cap.maxInlineData + INLINE_UNIT_SIZE
    ensures n == cap.maxSendSge || n == InlineUnits(cap.maxInlineData)
  {
    var u := InlineUnits(cap.maxInlineData);
    if u < cap.maxSendSge then cap.maxSendSge else u
  }

  /** The resources of alloc_qp_buf: the two wr_id tables and the two rings. */
  datatype BufResource = SqWrid | RqWrid | SqBuf | RqBuf

  const BUF_ORDER: seq<BufResource> := [SqWrid, RqWrid, SqBuf, RqBuf]

  /** The two queues alloc_qp_buf sets up, with their buffer sizes. */
  datatype QpBufs = QpBufs(sq: WorkQueue, rq: WorkQueue, sqBufSize: nat, rqBufSize: nat)

  /**
   * A queue as alloc_qp_buf leaves it: max slots and max_gs gather
   * entries, the least entry-size log of at least 7 that holds a
   * descriptor of desc bytes, a buffer of max << log bytes, a wr_id table
   * of max entries, and indices as init_qp_indices sets them.
   */
  ghost predicate Sized(w: WorkQueue, bufSize: nat, max: nat, maxGs: nat, desc: nat)
  {
    w.max == max && w.maxGs == maxGs && QueuePair.EntryLogFits(w.entrySzLog, desc)
    && bufSize == max * Pow2(w.entrySzLog) && |w.wrId| == max && w == Reset(w)
  }

  /**
   * hgrnic_alloc_qp_buf for queues of sqMax and rqMax slots: max_gs from
   * the capabilities; the receive descriptor holds the next unit and
   * max_recv_sge data units, the send descriptor the units of
   * SendDescSize for MaxSqSge; each entry-size log is searched from 7.
   * The wr_id tables, then the send ring, then (when the receive queue
   * has slots) the receive ring are allocated; a failure frees what was
   * taken and returns -1.  On success the indices are reset.
   */
  method AllocQpBuf(t: Transport, cap: QueuePair.QpCap, sqMax: nat, rqMax: nat,
                    sqWridOk: bool, rqWridOk: bool, sqBufOk: bool, rqBufOk: bool)
      returns (ret: int, bufs: QpBufs, steps: seq<Step<BufResource>>)
    requires cap.maxInlineData < U32
    ensures ret == 0 || ret == -1
    ensures ret == 0 <==> sqWridOk && rqWridOk && sqBufOk && (rqMax == 0 || rqBufOk)
    ensures Sized(bufs.sq, bufs.sqBufSize, sqMax, cap.maxSendSge, QueuePair.SendDescSize(t, MaxSqSge(cap)))
    ensures Sized(bufs.rq, bufs.rqBufSize, rqMax, cap.maxRecvSge, QueuePair.RecvDescSize(cap.maxRecvSge))
    ensures bufs.rqBufSize == 0 <==> rqMax == 0
    ensures ret == 0 ==> Held(steps) == Some(if rqMax == 0 then BUF_ORDER[..3] else BUF_ORDER)
    ensures ret != 0 ==> steps == BufUnwind(FailedAlloc(sqWridOk, rqWridOk, sqBufOk))
  {
    var maxSqSge := SqMaxGs(cap);
    var rq, rqBufSize := SizeQueue(rqMax, cap.maxRecvSge, QueuePair.RecvDescSize(cap.maxRecvSge));
    var sq, sqBufSize := SizeQueue(sqMax, cap.maxSendSge, QueuePair.SendDescSize(t, maxSqSge));
    bufs := QpBufs(sq, rq, sqBufSize, rqBufSize);
    ret, steps := TakeBuffers(rqBufSize != 0, sqWridOk, rqWridOk, sqBufOk, rqBufOk);
  }

  /**
   * The allocations of alloc_qp_buf in order, the receive ring only when
   * its size is not 0, and the frees of the err_ labels on a failure.
   * (The sizes computed between the wr_id tables and the rings depend on
   * nothing allocated, so SizeQueue runs them beforehand.)
   */
  method TakeBuffers(hasRq: bool, sqWridOk: bool, rqWridOk: bool, sqBufOk: bool, rqBufOk: bool)
      returns (ret: int, steps: seq<Step<BufResource>>)
    ensures ret == 0 || ret == -1
    ensures ret == 0 <==> sqWridOk && rqWridOk && sqBufOk && (!hasRq || rqBufOk)
    ensures ret == 0 ==> Held(steps) == Some(if hasRq then BUF_ORDER else BUF_ORDER[..3])
    ensures ret != 0 ==> steps == BufUnwind(FailedAlloc(sqWridOk, rqWridOk, sqBufOk))
  {
    if sqWridOk && rqWridOk && sqBufOk && (!hasRq || rqBufOk) {
      var n := if hasRq then 4 else 3;
      steps := AcquireFirst(BUF_ORDER, n);
      HeldAcquireFirst(BUF_ORDER, n);
      assert BUF_ORDER[..4] == BUF_ORDER;
      ret := 0;
    } else {
      ret, steps := -1, BufUnwind(FailedAlloc(sqWridOk, rqWridOk, sqBufOk));
    }
  }

  /** The computation of max_sq_sge in alloc_qp_buf: align(max_inline_data + 4, 16) / 16, raised to max_send_sge. */
  method SqMaxGs(cap: QueuePair.QpCap) returns (n: nat)
    requires cap.maxInlineData < U32
    ensures n == MaxSqSge(cap)
  {
    assert Pow2(4) == 16;
    AlignInlineUnits(cap.maxInlineData);
    n := LibHgrnic.Align(cap.maxInlineData + INLINE_UNIT_SIZE, 16) / 16;
    if n < cap.maxSendSge {
      n := cap.maxSendSge;
    }
  }

  /**
   * One queue's share of alloc_qp_buf: the entry-size log searched from 7
   * for a descriptor of desc bytes, the buffer size max << log, a wr_id
   * table of max entries, and the indices reset.
   */
  method SizeQueue(max: nat, maxGs: nat, desc: nat) returns (w: WorkQueue, bufSize: nat)
    ensures Sized(w, bufSize, max, maxGs, desc)
    ensures bufSize == 0 <==> max == 0
  {
    var log := QueuePair.EntrySizeLog(desc);
    bufSize := Shl(max, log);
    if max > 0 {
      MulMonotone(max, 1, Pow2(log));
    }
    w := Reset(WorkQueue(max, 0, 0, 0, 0, maxGs, log, seq(max, _ => 0)));
  }

  /** Which allocation of alloc_qp_buf failed first, numbered as in BufUnwind. */
  function FailedAlloc(sqWridOk: bool, rqWridOk: bool, sqBufOk: bool): (k: nat)
    ensures k <= 3
  {
    if !sqWridOk then 0 else if !rqWridOk then 1 else if !sqBufOk then 2 else 3
  }

  /**
   * The steps of alloc_qp_buf when its allocation k fails (0: the send
   * wr_id table, 1: the receive one, 2: the send ring, 3: the receive
   * ring): what was taken, then the frees of the err_ labels.
   */
  function BufUnwind(k: nat): (s: seq<Step<BufResource>>)
    requires k <= 3
    ensures Balanced(s)
  {
    if k == 2 then
      SqBufFailureFreesInTakenOrder();
      [Acquire(SqWrid), Acquire(RqWrid), Release(SqWrid), Release(RqWrid)]
    else
      UnwindBalanced(BUF_ORDER, k);
      AcquireFirst(BUF_ORDER, k) + ReleaseFirst(BUF_ORDER, k)
  }

  /**
   * The failure of the send ring frees the two wr_id tables in the order
   * they were taken, not the reverse: nothing leaks, but the frees do not
   * follow the stack discipline of the other paths.
   */
  lemma SqBufFailureFreesInTakenOrder()
    ensures var s := [Acquire(SqWrid), Acquire(RqWrid), Release(SqWrid), Release(RqWrid)];
      Balanced(s) && Held(s).None?
  {
    var s := [Acquire(SqWrid), Acquire(RqWrid), Release(SqWrid), Release(RqWrid)];
    assert s[..3][..2] == [Acquire(SqWrid), Acquire(RqWrid)];
    assert s[..3][..2][..1] == [Acquire(SqWrid)];
    assert s[..3][..2][..1][..0] == [];
  }

  /**
   * Under create_qp's limits the buffer sizes alloc_qp_buf computes in an
   * int cannot overflow: a descriptor is at most 1104 bytes, so the entry
   * is at most 2^11 bytes, and a queue has at most 2^16 slots.
   */
  lemma BufSizesFitInt(t: Transport, cap: QueuePair.QpCap, sqLog: nat, rqLog: nat)
    requires CapOk(cap)
    requires QueuePair.EntryLogFits(sqLog, QueuePair.SendDescSize(t, MaxSqSge(cap)))
    requires QueuePair.EntryLogFits(rqLog, QueuePair.RecvDescSize(cap.maxRecvSge))
    ensures UserVerbs.QueueSize(cap.maxSendWr, 0) * Pow2(sqLog) < UserContext.INT_LIMIT
    ensures UserVerbs.QueueSize(cap.maxRecvWr, 0) * Pow2(rqLog) < UserContext.INT_LIMIT
  {
    assert Pow2(11) == 2048 by {
      assert Pow2(8) == 256;
      Pow2Add(8, 3);
    }
    LogAtMost11(sqLog, QueuePair.SendDescSize(t, MaxSqSge(cap)));
    LogAtMost11(rqLog, QueuePair.RecvDescSize(cap.maxRecvSge));
    SizeTimesEntry(UserVerbs.QueueSize(cap.maxSendWr, 0), Pow2(sqLog));
    SizeTimesEntry(UserVerbs.QueueSize(cap.maxRecvWr, 0), Pow2(rqLog));
  }

  /** The least entry log for a descriptor of at most 2^11 bytes is at most 11. */
  lemma LogAtMost11(log: nat, size: nat)
    requires QueuePair.EntryLogFits(log, size) && size <= 2048 && Pow2(11) == 2048
    ensures Pow2(log) <= 2048
  {
    assert log <= 11 || 2048 < size;
    Pow2Monotone(log, 11);
  }

  /** A queue of fewer than 2^17 slots of at most 2^11 bytes stays below 2^31 bytes. */
  lemma SizeTimesEntry(n: nat, e: nat)
    requires n < 131072 && e <= 2048
    ensures n * e < UserContext.INT_LIMIT
  {
    if n > 0 {
      MulMonotone(2048, e, n);
      MulMonotone(131071, n, 2048);
    }
  }

  // ---------------------------------------------------------------------
  // create_qp

  /** The sanity check of hgrnic_create_qp. */
  predicate CapOk(cap: QueuePair.QpCap)
  {
    cap.maxSendWr <= MAX_QP_WR && cap.maxRecvWr <= MAX_QP_WR
    && cap.maxSendSge <= MAX_QP_SGE && cap.maxRecvSge <= MAX_QP_SGE
    && cap.maxInlineData <= MAX_QP_INLINE
  }

  /** What happens after the receive queue's memory region is registered. */
  datatype MrCheck = Registered | Unwind | NullDeref

  /**
   * The test after registering the receive queue's region, as written: it
   * tests the send queue's region, so a failed receive registration goes
   * on to write through the NULL rq.mr.
   */
  function RqMrCheckAsWritten(sqMrNull: bool, rqMrNull: bool): (c: MrCheck)
    ensures c == Unwind <==> sqMrNull
    ensures c == NullDeref <==> !sqMrNull && rqMrNull
  {
    if sqMrNull then Unwind else if rqMrNull then NullDeref else Registered
  }

  /**
   * The send region is registered by the time the test runs (its own
   * failure has already left), so as written a failed receive
   * registration always dereferences NULL and never unwinds.
   */
  lemma RqMrFailureDereferencesNull(rqMrNull: bool)
    ensures RqMrCheckAsWritten(false, rqMrNull) != Unwind
    ensures rqMrNull ==> RqMrCheckAsWritten(false, rqMrNull) == NullDeref
  {
  }

  /** The test as intended: a failed receive registration unwinds. */
  function RqMrCheck(rqMrNull: bool): (c: MrCheck)
    ensures c != NullDeref
    ensures c == Unwind <==> rqMrNull
  {
    if rqMrNull then Unwind else Registered
  }

  /**
   * The outcomes create_qp depends on: memory for the QP, the four
   * allocations of alloc_qp_buf, the spinlock initialisation, the two
   * region registrations, the CREATE_QP command (its error and the number
   * it hands back) and the sub-table calloc of store_qp.
   */
  datatype QpEnv = QpEnv(malloc: bool, sqWrid: bool, rqWrid: bool, sqBuf: bool, rqBuf: bool, spin: bool,
                         sqMr: bool, rqMr: bool, cmdErr: int, qpn: nat, calloc: bool)

  /** The resources of create_qp, alloc_qp_buf's taken as one. */
  datatype QpResource = QpMem | QpBuffers | SqRegion | RqRegion | HwQp | TableSlot

  /** The order create_qp takes them in; a QP without a receive ring registers no receive region. */
  function QpOrder(hasRq: bool): (o: seq<QpResource>)
    ensures |o| == if hasRq then 6 else 5
  {
    [QpMem, QpBuffers, SqRegion] + (if hasRq then [RqRegion] else []) + [HwQp, TableSlot]
  }

  /** Everything create_qp needs succeeds (the table slot given the sub-table's count before). */
  predicate CreateSucceeds(cap: QueuePair.QpCap, env: QpEnv, refcnt: int)
  {
    var hasRq := cap.maxRecvWr != 0;
    CapOk(cap) && env.malloc && env.sqWrid && env.rqWrid && env.sqBuf && (!hasRq || env.rqBuf)
    && env.spin && env.sqMr && (!hasRq || env.rqMr) && env.cmdErr == 0 && (refcnt != 0 || env.calloc)
  }

  /**
   * How far create_qp gets before store_qp, as the number of resources of
   * QpOrder(hasRq) then held: 1 when alloc_qp_buf fails (the QP's memory),
   * 2 when a spinlock or the send region fails (err_free), 3 when the
   * receive region fails (err_sq_mr_unreg), all but the table slot when
   * CREATE_QP fails (err_rq_mr_unreg), and all but the table slot, with
   * the hardware QP, when everything succeeded; the slot is then taken
   * by store_qp.
   */
  function Progress(hasRq: bool, bufsOk: bool, env: QpEnv): (n: nat)
    ensures 1 <= n <= |QpOrder(hasRq)| - 1
    ensures n == |QpOrder(hasRq)| - 1 <==>
      bufsOk && env.spin && env.sqMr && (!hasRq || env.rqMr) && env.cmdErr == 0
  {
    if !bufsOk then 1
    else if !env.spin || !env.sqMr then 2
    else if hasRq && RqMrCheck(!env.rqMr) == Unwind then 3
    else if env.cmdErr != 0 then |QpOrder(hasRq)| - 2
    else |QpOrder(hasRq)| - 1
  }

  /**
   * hgrnic_create_qp with the intended receive-region test: the limits,
   * the queue sizes align_queue_size gives, alloc_qp_buf, the spinlocks,
   * the send and (with a receive ring) receive regions, CREATE_QP and
   * store_qp.  A failure gives back what was taken, last first, and leaves
   * the table alone; a success stores the new QP under its number, with
   * its queues sized for the capabilities and max_inline_data recorded.
   */
  method CreateQp(ctx: UserContext.Context, t: Transport, cap: QueuePair.QpCap, env: QpEnv)
      returns (qp: Qp?, steps: seq<Step<QpResource>>)
    requires ctx.Valid()
    modifies ctx.refcnt, ctx.tables
    ensures ctx.Valid()
    ensures qp != null <==>
      CreateSucceeds(cap, env, old(ctx.refcnt[UserContext.TableIndex(env.qpn, ctx.numQps, ctx.shift)]))
    ensures qp == null ==> ctx.refcnt[..] == old(ctx.refcnt[..]) && ctx.tables[..] == old(ctx.tables[..])
    ensures qp == null ==> Held(steps) == Some([])
    ensures qp != null ==>
      fresh(qp) && qp.qpn == env.qpn && ctx.Find(env.qpn) == qp
      && qp.maxInline == cap.maxInlineData && Held(steps) == Some(QpOrder(cap.maxRecvWr != 0))
    ensures qp != null ==>
      Sized(qp.sq, Shl(qp.sq.max, qp.sq.entrySzLog), UserVerbs.QueueSize(cap.maxSendWr, 0), cap.maxSendSge,
            QueuePair.SendDescSize(t, MaxSqSge(cap)))
      && Sized(qp.rq, Shl(qp.rq.max, qp.rq.entrySzLog), UserVerbs.QueueSize(cap.maxRecvWr, 0), cap.maxRecvSge,
               QueuePair.RecvDescSize(cap.maxRecvSge))
    ensures qp != null ==> forall q: nat :: q % ctx.numQps != env.qpn % ctx.numQps ==> ctx.Find(q) == old(ctx.Find(q))
  {
    if !CapOk(cap) || !env.malloc {
      return null, [];
    }
    var sqMax := UserVerbs.AlignQueueSize(cap.maxSendWr, 0);
    var rqMax := UserVerbs.AlignQueueSize(cap.maxRecvWr, 0);
    var ret, bufs, _ := AllocQpBuf(t, cap, sqMax, rqMax, env.sqWrid, env.rqWrid, env.sqBuf, env.rqBuf);
    var hasRq := bufs.rqBufSize != 0;
    var order := QpOrder(hasRq);
    var taken := Progress(hasRq, ret == 0, env);
    if taken < |order| - 1 {
      Unwinds(order, taken);
      return null, AcquireFirst(order, taken) + ReleaseFirst(order, taken);
    }
    qp, steps := StoreQp(ctx, env.qpn, bufs.sq, bufs.rq, cap.maxInlineData, env.calloc, order);
  }

  /**
   * The end of create_qp once the hardware QP exists: the new QP is stored
   * under its number (store_qp); when that fails everything taken before
   * the table slot is given back, last first.
   */
  method StoreQp(ctx: UserContext.Context, qpn: nat, sq: WorkQueue, rq: WorkQueue, maxInline: nat, callocOk: bool,
                 order: seq<QpResource>)
      returns (qp: Qp?, steps: seq<Step<QpResource>>)
    requires ctx.Valid() && |order| > 0
    modifies ctx.refcnt, ctx.tables
    ensures ctx.Valid()
    ensures qp != null <==> old(ctx.refcnt[UserContext.TableIndex(qpn, ctx.numQps, ctx.shift)]) != 0 || callocOk
    ensures qp == null ==> ctx.refcnt[..] == old(ctx.refcnt[..]) && ctx.tables[..] == old(ctx.tables[..])
    ensures qp == null ==> Held(steps) == Some([])
    ensures qp != null ==>
      fresh(qp) && qp.qpn == qpn && qp.sq == sq && qp.rq == rq && qp.maxInline == maxInline
      && ctx.Find(qpn) == qp && Held(steps) == Some(order)
    ensures qp != null ==> forall q: nat :: q % ctx.numQps != qpn % ctx.numQps ==> ctx.Find(q) == old(ctx.Find(q))
  {
    var q := new Qp(qpn, sq, rq, maxInline);
    var err := ctx.Store(qpn, q, callocOk);
    if err != 0 {
      Unwinds(order, |order| - 1);
      return null, AcquireFirst(order, |order| - 1) + ReleaseFirst(order, |order| - 1);
    }
    HeldAcquireFirst(order, |order|);
    assert order[..|order|] == order;
    steps := AcquireFirst(order, |order|);
    qp := q;
  }

  // ---------------------------------------------------------------------
  // modify_qp

  /** The change modify_qp follows up locally: a successful command that moves the QP to RESET. */
  predicate ResetsQp(cmdRet: int, attrMask: nat, state: int)
  {
    cmdRet == 0 && BitAnd(attrMask, IBV_QP_STATE) != 0 && state == IBV_QPS_RESET
  }

  /**
   * hgrnic_modify_qp after the MODIFY_QP command returned cmdRet: when it
   * moved the QP to RESET, the QP's completions are removed from its
   * receive CQ and, if that is another CQ, from its send CQ, and both
   * queues' indices are reset; otherwise nothing changes.  The command's
   * result is returned either way.
   */
  method ModifyQp(qp: Qp, sendCq: UserCq.UserCq, recvCq: UserCq.UserCq, attrMask: nat, state: int, cmdRet: int)
      returns (ret: int)
    requires sendCq.Valid() && recvCq.Valid()
    requires sendCq != recvCq ==> sendCq.buf != recvCq.buf
    modifies qp, sendCq, sendCq.buf, recvCq, recvCq.buf
    ensures ret == cmdRet
    ensures sendCq.Valid() && recvCq.Valid() && sendCq.buf == old(sendCq.buf) && recvCq.buf == old(recvCq.buf)
    ensures ResetsQp(cmdRet, attrMask, state) ==>
      qp.sq == Reset(old(qp.sq)) && qp.rq == Reset(old(qp.rq)) && qp.maxInline == old(qp.maxInline)
      && CqSpec.Cleans(old(recvCq.buf[..]), old(recvCq.consIndex), recvCq.buf[..], recvCq.consIndex, qp.qpn)
      && (sendCq != recvCq ==>
            CqSpec.Cleans(old(sendCq.buf[..]), old(sendCq.consIndex), sendCq.buf[..], sendCq.consIndex, qp.qpn))
    ensures !ResetsQp(cmdRet, attrMask, state) ==>
      unchanged(qp, sendCq, recvCq) && unchanged(sendCq.buf, recvCq.buf)
  {
    ret := cmdRet;
    if ResetsQp(cmdRet, attrMask, state) {
      recvCq.CleanQp(qp.qpn);
      if sendCq != recvCq {
        sendCq.CleanQp(qp.qpn);
      }
      InitQpIndices(qp);
    }
  }
}
