/**
 * The firmware command layer of hgrnic_cmd.c, stated on values: the words
 * of the host command register (HCR), the firmware status table, the
 * outcomes of a polled command, the mailbox layout of MAP_ICM, the
 * QUERY_DEV_LIM decoder, the INIT_HCA parameter block and the MODIFY_QP
 * opcode table. The methods that build mailboxes step by step are in Cmd.
 */
module CmdSpec {
  import opened Common
  import opened Bytes
  import IcmSpec
  import Profile

  // Command opcodes (the CMD_* enumeration of hgrnic_cmd.c).
  const CMD_QUERY_DEV_LIM: nat := 0x3
  const CMD_INIT_HCA: nat := 0x7
  const CMD_RST2INIT_QPEE: nat := 0x19
  const CMD_INIT2RTR_QPEE: nat := 0x1a
  const CMD_RTR2RTS_QPEE: nat := 0x1b
  const CMD_RTS2RTS_QPEE: nat := 0x1c
  const CMD_SQERR2RTS_QPEE: nat := 0x1d
  const CMD_2ERR_QPEE: nat := 0x1e
  const CMD_RTS2SQD_QPEE: nat := 0x1f
  const CMD_SQD2RTS_QPEE: nat := 0x20
  const CMD_ERR2RST_QPEE: nat := 0x21
  const CMD_INIT2INIT_QPEE: nat := 0x2d
  const CMD_SQD2SQD_QPEE: nat := 0x38
  const CMD_UNMAP_ICM: nat := 0xff9
  const CMD_MAP_ICM: nat := 0xffa

  const HCR_OPMOD_SHIFT: nat := 12
  /** The go bit of the control word, 1 << 23. */
  const HCR_GO: nat := 0x80_0000
  const CMD_POLL_TOKEN: nat := 0xffff

  lemma Pow2Small()
    ensures Pow2(12) == 0x1000 && Pow2(16) == 0x1_0000 && Pow2(20) == 0x10_0000
  {
    assert Pow2(8) == 256;
    assert Pow2(4) == 16;
    Pow2Add(8, 4);
    Pow2Add(8, 8);
    Pow2Add(12, 8);
  }

  // ------------------------------------------------------------ HCR words

  /**
   * hgrnic_cmd_post_hcr: the seven 32-bit words written to the HCR, in
   * order: in_param high and low, in_modifier, out_param high and low, the
   * token in the upper half of word 5, and last the control word with the
   * go bit (23), the op modifier from bit 12 and the opcode.
   */
  function HcrWords(inParam: nat, outParam: nat, inMod: nat, opMod: nat, op: nat, token: nat): (ws: seq<nat>)
    ensures |ws| == 7
  {
    [inParam / U32, inParam % U32, inMod, outParam / U32, outParam % U32, Shl(token, 16),
     BitOr(BitOr(HCR_GO, Shl(opMod, HCR_OPMOD_SHIFT)), op)]
  }

  /** The fields of the control word do not overlap for the opcodes the driver uses (all below 0x1000). */
  lemma ControlWord(opMod: nat, op: nat)
    requires opMod < 256 && op < 0x1000
    ensures BitOr(BitOr(HCR_GO, Shl(opMod, HCR_OPMOD_SHIFT)), op) == 0x80_0000 + opMod * 0x1000 + op
  {
    Pow2Small();
    var hi := Shl(opMod, HCR_OPMOD_SHIFT);
    assert hi == opMod * 0x1000;
    BitOrComm(HCR_GO, hi);
    OrDisjointAdd(hi, HCR_GO, 20);
    var mid := 0x80_0000 + opMod * 0x1000;
    BitOrComm(mid, op);
    DivModUnique(mid, 0x1000, 0x800 + opMod, 0);
    OrDisjointAdd(op, mid, 12);
  }

  /**
   * The firmware's view of the HCR: every word fits 32 bits, the 64-bit
   * parameters are recovered from their halves, and the token, op modifier,
   * opcode and go bit are read back from their bit fields.
   */
  lemma HcrDecodes(inParam: nat, outParam: nat, inMod: nat, opMod: nat, op: nat, token: nat)
    requires inParam < U64 && outParam < U64 && inMod < U32 && opMod < 256 && op < 0x1000 && token < 0x1_0000
    ensures var ws := HcrWords(inParam, outParam, inMod, opMod, op, token);
      (forall k :: 0 <= k < 7 ==> ws[k] < U32)
      && ws[0] * U32 + ws[1] == inParam && ws[2] == inMod && ws[3] * U32 + ws[4] == outParam
      && ws[5] / 0x1_0000 == token && ws[5] % 0x1_0000 == 0
      && ws[6] % 0x1000 == op && (ws[6] / 0x1000) % 0x100 == opMod && ws[6] / 0x80_0000 == 1
  {
    var ws := HcrWords(inParam, outParam, inMod, opMod, op, token);
    Pow2Small();
    ControlWord(opMod, op);
    DivBounds(inParam, U32);
    DivBounds(outParam, U32);
    DivBelow(inParam, U32, U32);
    DivBelow(outParam, U32, U32);
    assert ws[5] == token * 0x1_0000;
    DivModUnique(ws[5], 0x1_0000, token, 0);
    var w := ws[6];
    DivModUnique(w, 0x1000, 0x800 + opMod, op);
    DivModUnique(0x800 + opMod, 0x100, 8, opMod);
    DivModUnique(w, 0x80_0000, 1, opMod * 0x1000 + op);
  }

  // ------------------------------------------------------------ status codes

  /** trans_table of hgrnic_status_to_errno: the errno of each listed status, 0 for unlisted slots. */
  function TransTable(status: nat): int
  {
    if status == 0x01 then -EIO
    else if status == 0x02 then -EPERM
    else if status == 0x03 then -EINVAL
    else if status == 0x04 then -ENXIO
    else if status == 0x05 then -EBADF
    else if status == 0x06 then -EBUSY
    else if status == 0x07 then -ENOMEM
    else if status == 0x08 then -ENOMEM
    else if status == 0x09 then -EBADF
    else if status == 0x0a then -EBADF
    else if status == 0x0b then -EFAULT
    else if status == 0x10 then -EINVAL
    else if status == 0x20 then -EFAULT
    else if status == 0x21 then -EBUSY
    else if status == 0x22 then -EAGAIN
    else if status == 0x30 then -EBADMSG
    else if status == 0x40 then -ENOMEM
    else 0
  }

  /** ARRAY_SIZE(trans_table): the table ends at HGRNIC_CMD_STAT_BAD_SIZE (0x40). */
  const TRANS_TABLE_SIZE: nat := 0x41

  /**
   * hgrnic_status_to_errno: a status past the table, or a nonzero status
   * without an entry, is -EINVAL; status 0 (OK) maps to 0.
   */
  function StatusToErrno(status: nat): (r: int)
    ensures r == 0 <==> status == 0
    ensures r < 0 <==> status != 0
    ensures status >= TRANS_TABLE_SIZE ==> r == -EINVAL
  {
    if status >= TRANS_TABLE_SIZE || (status != 0 && TransTable(status) == 0) then -EINVAL
    else TransTable(status)
  }

  /** Which firmware statuses the driver reports as which error. */
  lemma StatusClasses(status: nat)
    ensures StatusToErrno(status) == -ENOMEM <==> status == 0x07 || status == 0x08 || status == 0x40
    ensures StatusToErrno(status) == -EBUSY <==> status == 0x06 || status == 0x21
    ensures StatusToErrno(status) == -EAGAIN <==> status == 0x22
    ensures StatusToErrno(status) == -EBADF <==> status == 0x05 || status == 0x09 || status == 0x0a
    ensures StatusToErrno(status) == -EINVAL <==>
      status == 0x03 || status == 0x10 || (status != 0 && TransTable(status) == 0) || status >= TRANS_TABLE_SIZE
  {
  }

  // ------------------------------------------------------------ polled commands

  /** The outcome of hgrnic_cmd_poll: its return value and, for an immediate command, the output parameter. */
  datatype Poll = Poll(err: int, out: Option<nat>)

  /**
   * hgrnic_cmd_poll with the register reads as inputs: `busy` is the go bit
   * seen by post_hcr, `done` whether the go bit cleared before the timeout,
   * (outHi, outLo) the output-parameter words and `statusWord` the status
   * word of the HCR, whose top byte is the firmware status.
   */
  function CmdPoll(busy: bool, done: bool, outIsImm: bool, hasOut: bool, outHi: nat, outLo: nat, statusWord: nat): (r: Poll)
  {
    if busy then Poll(-EAGAIN, None)
    else if !done then Poll(-EBUSY, None)
    else if outIsImm && !hasOut then Poll(-EINVAL, None)
    else
      var out := if outIsImm then Some(Shl(outHi, 32) + outLo) else None;
      var status := Shr(statusWord, 24);
      Poll(if status != 0 then StatusToErrno(status) else 0, out)
  }

  /**
   * A polled command succeeds exactly when the HCR was free, the go bit
   * cleared, an immediate output had somewhere to go and the status byte
   * is 0; the output parameter is delivered exactly when it was asked for
   * and the command ran to completion.
   */
  lemma CmdPollOutcomes(busy: bool, done: bool, outIsImm: bool, hasOut: bool, outHi: nat, outLo: nat, statusWord: nat)
    requires outLo < U32
    ensures var r := CmdPoll(busy, done, outIsImm, hasOut, outHi, outLo, statusWord);
      (r.err == 0 <==> !busy && done && (!outIsImm || hasOut) && statusWord < 0x100_0000)
      && (busy ==> r.err == -EAGAIN)
      && (!busy && !done ==> r.err == -EBUSY)
      && (!busy && done && outIsImm && !hasOut ==> r.err == -EINVAL)
      && (r.out.Some? <==> !busy && done && outIsImm && hasOut)
      && (r.out.Some? ==> r.out.value / U32 == outHi && r.out.value % U32 == outLo)
      && r.err <= 0
  {
    Pow2Of32();
    Pow2Small();
    Pow2Add(20, 4);
    assert Pow2(4) == 16;
    assert Pow2(24) == 0x100_0000;
    if statusWord < 0x100_0000 {
      DivModUnique(statusWord, 0x100_0000, 0, statusWord);
    } else {
      DivAtLeastOne(statusWord, 0x100_0000);
    }
    DivModUnique(Shl(outHi, 32) + outLo, U32, outHi, outLo);
  }

  // ------------------------------------------------------------ MAP_ICM

  /** One MAP_ICM entry: a device-virtual address and the physical address tagged with the page-size flag. */
  datatype MapEntry = MapEntry(virt: nat, phys: nat)

  /** One MAP_ICM command as sent: its entry count (the in_modifier) and the mailbox words at that moment. */
  datatype MapCmd = MapCmd(count: nat, words: seq<nat>)

  /** HGRNIC_MAILBOX_SIZE / 16: the entries (pairs of 64-bit words) in one mailbox. */
  const MAILBOX_ENTRIES: nat := 256
  const MAILBOX_WORDS: nat := 512
  /** MAP_ICM_MAX_PAGE_NUM_LOG + HGRNIC_ICM_PAGE_SHIFT: the largest page log MAP_ICM uses. */
  const MAX_PAGE_LOG: nat := 20

  /** ffs(addr | size) - 1 for one scatter entry: the log of its natural alignment, -1 when both are 0. */
  function EntryLog(e: IcmSpec.SgEntry): int
  {
    var x := BitOr(e.addr, e.len);
    if x == 0 then -1 else TrailingZeros(x)
  }

  /** The page log MAP_ICM uses for an entry aligned to at least 4 KiB: its alignment, clamped to 20. */
  function PageLog(e: IcmSpec.SgEntry): (lg: nat)
    requires EntryLog(e) >= PAGE_SHIFT
    ensures PAGE_SHIFT <= lg <= MAX_PAGE_LOG
  {
    if EntryLog(e) > MAX_PAGE_LOG then MAX_PAGE_LOG else EntryLog(e)
  }

  /** The entries for one scatter entry mapped at virt, one per 2^lg bytes, each flagged with its page count 2^(lg-12). */
  function Pages(e: IcmSpec.SgEntry, lg: nat, virt: nat): (r: seq<MapEntry>)
    requires lg >= PAGE_SHIFT
    ensures |r| == Shr(e.len, lg)
  {
    seq(Shr(e.len, lg), i requires 0 <= i => MapEntry(virt + i * Pow2(lg), BitOr(e.addr + Shl(i, lg), Pow2(lg - PAGE_SHIFT))))
  }

  /** The entries MAP_ICM produces for a scatter list, whether every entry was aligned, and the next virtual address. */
  datatype Expansion = Expansion(entries: seq<MapEntry>, ok: bool, virt: nat)

  /** The expansion of a scatter list starting at virt; it stops at the first entry aligned below 4 KiB. */
  function Expand(sg: seq<IcmSpec.SgEntry>, virt: nat): Expansion
  {
    if sg == [] then Expansion([], true, virt) else Extend(Expand(sg[..|sg| - 1], virt), sg[|sg| - 1])
  }

  /** One more scatter entry: its pages when everything so far was aligned and it is too. */
  function Extend(p: Expansion, e: IcmSpec.SgEntry): Expansion
  {
    if !p.ok || EntryLog(e) < PAGE_SHIFT then p.(ok := false)
    else
      var lg := PageLog(e);
      Expansion(p.entries + Pages(e, lg, p.virt), true, p.virt + Shl(Shr(e.len, lg), lg))
  }

  /** The mailbox slot of the e-th entry since the last flush: e XOR 1 (1, 0, 3, 2, ...). */
  function Slot(e: nat): nat
  {
    if e % 2 == 0 then e + 1 else e - 1
  }

  lemma SlotIsXor(e: nat)
    ensures Slot(e) == BitXor(e, 1)
  {
    XorOne(e);
  }

  /** The first c entries a mailbox holds, read back through the slot order. */
  function Unpack(ws: seq<nat>, c: nat): (r: seq<MapEntry>)
    requires |ws| == MAILBOX_WORDS && c <= MAILBOX_ENTRIES
    ensures |r| == c
  {
    seq(c, e requires 0 <= e < c => MapEntry(ws[2 * Slot(e)], ws[2 * Slot(e) + 1]))
  }

  /** The k-th batch of entries: 256 of them, fewer for the last. */
  function Batch(es: seq<MapEntry>, k: nat): seq<MapEntry>
    requires MAILBOX_ENTRIES * k <= |es|
  {
    var lo := MAILBOX_ENTRIES * k;
    if lo + MAILBOX_ENTRIES <= |es| then es[lo..lo + MAILBOX_ENTRIES] else es[lo..]
  }

  /** The number of MAP_ICM commands for n entries: one per full mailbox, and one for a remainder when the list was valid. */
  function Planned(n: nat, ok: bool): nat
  {
    n / MAILBOX_ENTRIES + (if ok && n % MAILBOX_ENTRIES != 0 then 1 else 0)
  }

  /** The index of the first failing command among the first n, or n when none fails. */
  function FirstFailure(cmdErr: nat -> int, n: nat): (f: nat)
    ensures f <= n
    ensures forall k :: 0 <= k < f ==> cmdErr(k) == 0
    ensures f < n ==> cmdErr(f) != 0
  {
    if n == 0 then 0
    else
      var f := FirstFailure(cmdErr, n - 1);
      if f < n - 1 then f else if cmdErr(n - 1) != 0 then n - 1 else n
  }

  /** A command delivers the k-th batch: its count is the batch's length and its slots hold the batch in order. */
  predicate Delivers(c: MapCmd, es: seq<MapEntry>, k: nat)
  {
    MAILBOX_ENTRIES * k <= |es| && |c.words| == MAILBOX_WORDS && c.count == |Batch(es, k)|
    && c.count <= MAILBOX_ENTRIES && Unpack(c.words, c.count) == Batch(es, k)
  }

  /**
   * What hgrnic_MAP_ICM sends for a scatter list with the k-th command
   * answering cmdErr(k): the planned batches in order, up to and including
   * the first one that fails.
   */
  predicate MapIcmSends(sg: seq<IcmSpec.SgEntry>, virt: nat, cmdErr: nat -> int, err: int, sent: seq<MapCmd>)
  {
    var x := Expand(sg, virt);
    var n := Planned(|x.entries|, x.ok);
    var f := FirstFailure(cmdErr, n);
    |sent| == (if f < n then f + 1 else n)
    && err == (if f < n then cmdErr(f) else if x.ok then 0 else -EINVAL)
    && forall k :: 0 <= k < |sent| ==> Delivers(sent[k], x.entries, k)
  }

  /** Slots are distinct, so writing one entry keeps the others. */
  lemma SlotInjective(a: nat, b: nat)
    requires Slot(a) == Slot(b)
    ensures a == b
  {
  }

  /** The slot after the c-th is reached by nent += 3 from an even slot and --nent from an odd one. */
  lemma SlotNext(c: nat)
    ensures Slot(c + 1) == if Slot(c) % 2 == 0 then Slot(c) + 3 else Slot(c) - 1
    ensures c < MAILBOX_ENTRIES ==> (Slot(c + 1) >= MAILBOX_ENTRIES <==> c + 1 == MAILBOX_ENTRIES)
    ensures c < MAILBOX_ENTRIES ==> Slot(c) < MAILBOX_ENTRIES
  {
  }

  /** The final `nent = nent even ? nent + 1 : nent - 1` turns the next slot back into the entry count. */
  lemma SlotBack(c: nat)
    ensures (if Slot(c) % 2 == 0 then Slot(c) + 1 else Slot(c) - 1) == c
  {
  }

  /** Writing the c-th entry into its slot extends what the mailbox holds. */
  lemma WriteSlot(ws: seq<nat>, c: nat, m: MapEntry)
    requires |ws| == MAILBOX_WORDS && c < MAILBOX_ENTRIES
    ensures Unpack(ws[2 * Slot(c) := m.virt][2 * Slot(c) + 1 := m.phys], c + 1) == Unpack(ws, c) + [m]
  {
    var ws' := ws[2 * Slot(c) := m.virt][2 * Slot(c) + 1 := m.phys];
    forall e | 0 <= e < c
      ensures Unpack(ws', c + 1)[e] == Unpack(ws, c)[e]
    {
      if Slot(e) == Slot(c) {
        SlotInjective(e, c);
      }
    }
  }

  // The state of the MAP_ICM loop, and the steps that keep it.

  /**
   * The mailbox holds the c entries of es since the last flush, in their
   * slots; every earlier command succeeded and delivered its full batch.
   */
  ghost predicate Holds(ws: seq<nat>, c: nat, es: seq<MapEntry>, sent: seq<MapCmd>, cmdErr: nat -> int)
  {
    |ws| == MAILBOX_WORDS && c <= MAILBOX_ENTRIES && |es| == MAILBOX_ENTRIES * |sent| + c
    && Unpack(ws, c) == es[MAILBOX_ENTRIES * |sent|..]
    && forall k :: 0 <= k < |sent| ==> cmdErr(k) == 0 && Delivers(sent[k], es, k)
  }

  predicate IsPrefix<T(==)>(a: seq<T>, b: seq<T>)
  {
    |a| <= |b| && b[..|a|] == a
  }

  /** A full batch stays delivered when more entries follow. */
  lemma DeliversPrefix(c: MapCmd, es: seq<MapEntry>, es': seq<MapEntry>, k: nat)
    requires Delivers(c, es, k) && MAILBOX_ENTRIES * k + MAILBOX_ENTRIES <= |es| && IsPrefix(es, es')
    ensures Delivers(c, es', k)
  {
    var lo := MAILBOX_ENTRIES * k;
    assert es'[lo..lo + MAILBOX_ENTRIES] == es[lo..lo + MAILBOX_ENTRIES];
  }

  /** Writing the next entry into its slot. */
  lemma HoldsWrite(ws: seq<nat>, c: nat, es: seq<MapEntry>, sent: seq<MapCmd>, cmdErr: nat -> int, m: MapEntry)
    requires Holds(ws, c, es, sent, cmdErr) && c < MAILBOX_ENTRIES
    ensures Holds(ws[2 * Slot(c) := m.virt][2 * Slot(c) + 1 := m.phys], c + 1, es + [m], sent, cmdErr)
  {
    var ws' := ws[2 * Slot(c) := m.virt][2 * Slot(c) + 1 := m.phys];
    var lo := MAILBOX_ENTRIES * |sent|;
    WriteSlot(ws, c, m);
    assert (es + [m])[lo..] == es[lo..] + [m];
    forall k | 0 <= k < |sent|
      ensures Delivers(sent[k], es + [m], k)
    {
      MulMonotone(|sent|, k + 1, MAILBOX_ENTRIES);
      DeliversPrefix(sent[k], es, es + [m], k);
    }
  }

  /** A full mailbox is sent as the next batch; if the command succeeds the mailbox starts over. */
  lemma HoldsFlush(ws: seq<nat>, es: seq<MapEntry>, sent: seq<MapCmd>, cmdErr: nat -> int)
    requires Holds(ws, MAILBOX_ENTRIES, es, sent, cmdErr)
    ensures Delivers(MapCmd(MAILBOX_ENTRIES, ws), es, |sent|)
    ensures cmdErr(|sent|) == 0 ==> Holds(ws, 0, es, sent + [MapCmd(MAILBOX_ENTRIES, ws)], cmdErr)
  {
    var lo := MAILBOX_ENTRIES * |sent|;
    assert es[lo..] == es[lo..lo + MAILBOX_ENTRIES];
    if cmdErr(|sent|) == 0 {
      var sent' := sent + [MapCmd(MAILBOX_ENTRIES, ws)];
      assert forall k :: 0 <= k < |sent| ==> sent'[k] == sent[k];
    }
  }

  /** Entries of a prefix of the scatter list come first in the whole expansion; once invalid it stays so. */
  lemma {:induction false} ExpandPrefix(sg: seq<IcmSpec.SgEntry>, j: nat, virt: nat)
    requires j <= |sg|
    ensures IsPrefix(Expand(sg[..j], virt).entries, Expand(sg, virt).entries)
    ensures !Expand(sg[..j], virt).ok ==> Expand(sg, virt) == Expand(sg[..j], virt)
    decreases |sg| - j
  {
    if j == |sg| {
      assert sg[..j] == sg;
    } else {
      var init := sg[..|sg| - 1];
      assert init[..j] == sg[..j];
      ExpandPrefix(init, j, virt);
    }
  }

  /** One step of the scatter list. */
  lemma ExpandStep(sg: seq<IcmSpec.SgEntry>, j: nat, virt: nat)
    requires j < |sg|
    ensures Expand(sg[..j + 1], virt) == Extend(Expand(sg[..j], virt), sg[j])
  {
    assert sg[..j + 1][..j] == sg[..j];
  }

  /** With all earlier commands successful, nothing has failed among them. */
  lemma NoFailureYet(cmdErr: nat -> int, n: nat)
    requires forall k :: 0 <= k < n ==> cmdErr(k) == 0
    ensures FirstFailure(cmdErr, n) == n
  {
  }

  /** The mailbox empties exactly when the entries fill whole batches. */
  lemma PlannedAt(total: nat, ok: bool, s: nat, c: nat)
    requires total == MAILBOX_ENTRIES * s + c && c < MAILBOX_ENTRIES
    ensures Planned(total, ok) == s + (if ok && c != 0 then 1 else 0)
  {
    DivModUnique(total, MAILBOX_ENTRIES, s, c);
  }

  /** A mailbox that is empty at the end sends no closing command. */
  lemma MapIcmFinishEmpty(sg: seq<IcmSpec.SgEntry>, virt: nat, cmdErr: nat -> int, ws: seq<nat>, sent: seq<MapCmd>)
    requires Expand(sg, virt).ok && Holds(ws, 0, Expand(sg, virt).entries, sent, cmdErr)
    ensures MapIcmSends(sg, virt, cmdErr, 0, sent)
  {
    PlannedAt(|Expand(sg, virt).entries|, true, |sent|, 0);
    NoFailureYet(cmdErr, |sent|);
  }

  /** The rest of the current mailbox is delivered by the closing command. */
  lemma MapIcmFinish(sg: seq<IcmSpec.SgEntry>, virt: nat, cmdErr: nat -> int, ws: seq<nat>, c: nat, sent: seq<MapCmd>)
    requires Expand(sg, virt).ok && 0 < c < MAILBOX_ENTRIES && Holds(ws, c, Expand(sg, virt).entries, sent, cmdErr)
    ensures MapIcmSends(sg, virt, cmdErr, cmdErr(|sent|), sent + [MapCmd(c, ws)])
  {
    var es := Expand(sg, virt).entries;
    var s := |sent|;
    PlannedAt(|es|, true, s, c);
    NoFailureYet(cmdErr, s);
    assert FirstFailure(cmdErr, s + 1) == (if cmdErr(s) != 0 then s else s + 1);
    var sent' := sent + [MapCmd(c, ws)];
    assert Batch(es, s) == es[MAILBOX_ENTRIES * s..];
    assert Delivers(sent'[s], es, s);
    assert forall k :: 0 <= k < s ==> sent'[k] == sent[k];
  }

  /** An entry aligned below 4 KiB ends MAP_ICM with -EINVAL after the batches already sent. */
  lemma MapIcmRejects(sg: seq<IcmSpec.SgEntry>, j: nat, virt: nat, cmdErr: nat -> int,
                      ws: seq<nat>, c: nat, es: seq<MapEntry>, v: nat, sent: seq<MapCmd>)
    requires j < |sg| && Expand(sg[..j], virt) == Expansion(es, true, v) && EntryLog(sg[j]) < PAGE_SHIFT
    requires c < MAILBOX_ENTRIES && Holds(ws, c, es, sent, cmdErr)
    ensures MapIcmSends(sg, virt, cmdErr, -EINVAL, sent)
  {
    ExpandStep(sg, j, virt);
    ExpandPrefix(sg, j + 1, virt);
    PlannedAt(|es|, false, |sent|, c);
    NoFailureYet(cmdErr, |sent|);
  }

  /** A failing full-mailbox command ends MAP_ICM with its error. */
  lemma MapIcmFails(sg: seq<IcmSpec.SgEntry>, virt: nat, cmdErr: nat -> int,
                    ws: seq<nat>, es: seq<MapEntry>, sent: seq<MapCmd>, err: int, sent': seq<MapCmd>)
    requires Holds(ws, MAILBOX_ENTRIES, es, sent, cmdErr) && IsPrefix(es, Expand(sg, virt).entries)
    requires err == cmdErr(|sent|) != 0 && sent' == sent + [MapCmd(MAILBOX_ENTRIES, ws)]
    ensures MapIcmSends(sg, virt, cmdErr, err, sent')
  {
    var all := Expand(sg, virt).entries;
    HoldsFlush(ws, es, sent, cmdErr);
    var n := Planned(|all|, Expand(sg, virt).ok);
    assert |all| / MAILBOX_ENTRIES >= |sent| + 1 by {
      DivBounds(|all|, MAILBOX_ENTRIES);
      var q := |all| / MAILBOX_ENTRIES;
      assert |all| == MAILBOX_ENTRIES * q + |all| % MAILBOX_ENTRIES;
      if q < |sent| + 1 {
        MulMonotone(|sent|, q, MAILBOX_ENTRIES);
      }
    }
    NoFailureYet(cmdErr, |sent|);
    FirstFailureFound(cmdErr, |sent|, n);
    DeliversAppended(sent, MapCmd(MAILBOX_ENTRIES, ws), es, all);
  }

  /** Full batches delivered from a prefix, and one more, stay delivered from the whole list. */
  lemma DeliversAppended(sent: seq<MapCmd>, c: MapCmd, es: seq<MapEntry>, all: seq<MapEntry>)
    requires |es| == MAILBOX_ENTRIES * |sent| + MAILBOX_ENTRIES && IsPrefix(es, all)
    requires forall k :: 0 <= k < |sent| ==> Delivers(sent[k], es, k)
    requires Delivers(c, es, |sent|)
    ensures forall k :: 0 <= k < |sent| + 1 ==> Delivers((sent + [c])[k], all, k)
  {
    forall k | 0 <= k < |sent| + 1
      ensures Delivers((sent + [c])[k], all, k)
    {
      var d := if k < |sent| then sent[k] else c;
      assert (sent + [c])[k] == d;
      DeliversPrefix(d, es, all, k);
    }
  }

  /** The first failure is the first nonzero answer, however many commands are planned beyond it. */
  lemma {:induction false} FirstFailureFound(cmdErr: nat -> int, f: nat, n: nat)
    requires f < n && FirstFailure(cmdErr, f) == f && cmdErr(f) != 0
    ensures FirstFailure(cmdErr, n) == f
    decreases n
  {
    if n > f + 1 {
      FirstFailureFound(cmdErr, f, n - 1);
    }
  }

  /** The entries of a scatter entry part-way through its pages still come first in the whole expansion. */
  lemma InProgressPrefix(sg: seq<IcmSpec.SgEntry>, j: nat, virt: nat, es: seq<MapEntry>, v: nat, i: nat)
    requires j < |sg| && Expand(sg[..j], virt) == Expansion(es, true, v) && EntryLog(sg[j]) >= PAGE_SHIFT
    requires i <= Shr(sg[j].len, PageLog(sg[j]))
    ensures IsPrefix(es + Pages(sg[j], PageLog(sg[j]), v)[..i], Expand(sg, virt).entries)
  {
    var ps := Pages(sg[j], PageLog(sg[j]), v);
    ExpandStep(sg, j, virt);
    ExpandPrefix(sg, j + 1, virt);
    var all := Expand(sg, virt).entries;
    assert all[..|es + ps|] == es + ps;
    assert all[..|es| + i] == (es + ps)[..|es| + i] == es + ps[..i];
  }

  /** The state between two pages: the mailbox is not full and nent is the next free slot. */
  ghost predicate Filling(ws: seq<nat>, c: nat, es: seq<MapEntry>, sent: seq<MapCmd>, cmdErr: nat -> int, nent: int)
  {
    Holds(ws, c, es, sent, cmdErr) && c < MAILBOX_ENTRIES && nent == Slot(c) && 0 <= nent < MAILBOX_ENTRIES
  }

  /**
   * Writing entry m into slot nent and stepping nent: either the mailbox is
   * still not full, or it holds a whole batch and next - 1 is 256.
   */
  lemma FillStep(ws: seq<nat>, ws': seq<nat>, c: nat, es: seq<MapEntry>, sent: seq<MapCmd>, cmdErr: nat -> int,
                 nent: int, next: int, m: MapEntry)
    requires Filling(ws, c, es, sent, cmdErr, nent)
    requires ws' == ws[2 * nent := m.virt][2 * nent + 1 := m.phys]
    requires next == if nent % 2 == 0 then nent + 3 else nent - 1
    ensures next < MAILBOX_ENTRIES ==> Filling(ws', c + 1, es + [m], sent, cmdErr, next)
    ensures next >= MAILBOX_ENTRIES ==> next - 1 == MAILBOX_ENTRIES && Holds(ws', MAILBOX_ENTRIES, es + [m], sent, cmdErr)
  {
    SlotNext(c);
    SlotNext(c + 1);
    HoldsWrite(ws, c, es, sent, cmdErr, m);
  }

  /** A flushed mailbox starts filling again at slot 1. */
  lemma FillAgain(ws: seq<nat>, es: seq<MapEntry>, sent: seq<MapCmd>, cmdErr: nat -> int)
    requires Holds(ws, MAILBOX_ENTRIES, es, sent, cmdErr) && cmdErr(|sent|) == 0
    ensures Filling(ws, 0, es, sent + [MapCmd(MAILBOX_ENTRIES, ws)], cmdErr, 1)
  {
    HoldsFlush(ws, es, sent, cmdErr);
  }

  /** The i-th page of a scatter entry. */
  lemma PageAt(e: IcmSpec.SgEntry, lg: nat, virt: nat, i: nat)
    requires lg >= PAGE_SHIFT && i < Shr(e.len, lg)
    ensures Pages(e, lg, virt)[i] == MapEntry(virt + i * Pow2(lg), BitOr(e.addr + Shl(i, lg), Pow2(lg - PAGE_SHIFT)))
  {
  }

  /**
   * Part-way through scatter entry j: entries es0 and address v0 came from
   * the entries before it, and its first i pages followed.
   */
  ghost predicate Paging(sg: seq<IcmSpec.SgEntry>, j: nat, virt: nat, es0: seq<MapEntry>, v0: nat,
                         i: nat, es: seq<MapEntry>, v: nat)
  {
    j < |sg| && Expand(sg[..j], virt) == Expansion(es0, true, v0) && EntryLog(sg[j]) >= PAGE_SHIFT
    && i <= Shr(sg[j].len, PageLog(sg[j]))
    && es == es0 + Pages(sg[j], PageLog(sg[j]), v0)[..i] && v == v0 + i * Pow2(PageLog(sg[j]))
  }

  /** The next page of the entry. */
  lemma PagingStep(sg: seq<IcmSpec.SgEntry>, j: nat, virt: nat, es0: seq<MapEntry>, v0: nat, i: nat, es: seq<MapEntry>, v: nat)
    requires Paging(sg, j, virt, es0, v0, i, es, v) && i < Shr(sg[j].len, PageLog(sg[j]))
    ensures var ps := Pages(sg[j], PageLog(sg[j]), v0);
            Paging(sg, j, virt, es0, v0, i + 1, es + [ps[i]], v + Pow2(PageLog(sg[j])))
  {
    var e, lg := sg[j], PageLog(sg[j]);
    AppendStep(es0, Pages(e, lg, v0), i, es, v0, v, Pow2(lg));
  }

  /** One more element taken from ps after es0, and one more stride p past v0. */
  lemma AppendStep<T>(es0: seq<T>, ps: seq<T>, i: nat, es: seq<T>, v0: nat, v: nat, p: nat)
    requires i < |ps| && es == es0 + ps[..i] && v == v0 + i * p
    ensures es + [ps[i]] == es0 + ps[..i + 1] && v + p == v0 + (i + 1) * p
  {
    assert ps[..i + 1] == ps[..i] + [ps[i]];
    MulPred(i + 1, p);
  }

  /** What MAP_ICM has produced part-way through an entry comes first in the whole expansion. */
  lemma PagingPrefix(sg: seq<IcmSpec.SgEntry>, j: nat, virt: nat, es0: seq<MapEntry>, v0: nat, i: nat, es: seq<MapEntry>, v: nat)
    requires Paging(sg, j, virt, es0, v0, i, es, v)
    ensures IsPrefix(es, Expand(sg, virt).entries)
  {
    InProgressPrefix(sg, j, virt, es0, v0, i);
  }

  /** After the last page of entry j, the expansion of the first j + 1 entries. */
  lemma PagingDone(sg: seq<IcmSpec.SgEntry>, j: nat, virt: nat, es0: seq<MapEntry>, v0: nat, i: nat, es: seq<MapEntry>, v: nat)
    requires Paging(sg, j, virt, es0, v0, i, es, v) && i == Shr(sg[j].len, PageLog(sg[j]))
    ensures Expand(sg[..j + 1], virt) == Expansion(es, true, v)
  {
    var ps := Pages(sg[j], PageLog(sg[j]), v0);
    assert ps[..i] == ps;
    ExpandStep(sg, j, virt);
  }

  // ------------------------------------------------------------ QUERY_DEV_LIM

  /** The bytes of the QUERY_DEV_LIM reply that the decoder reads. */
  const QUERY_DEV_LIM_OUT_SIZE: nat := 0x40

  /** struct hgrnic_dev_lim as QUERY_DEV_LIM fills it. */
  datatype DevLimits = DevLimits(
    reservedQps: nat, reservedCqs: nat, reservedEqs: nat, reservedMtts: nat, reservedPds: nat, reservedLkey: nat,
    maxQpSz: nat, maxCqSz: nat,
    maxQps: int, maxCqs: int, maxEqs: nat, maxMpts: int, maxPds: int, maxGids: nat, maxPkeys: nat,
    maxMttSeg: nat,
    qpcEntrySz: nat, cqcEntrySz: nat, eqcEntrySz: nat, mptEntrySz: nat,
    localCaAckDelay: nat, maxMtu: nat, maxPortWidth: nat, maxVl: nat, numPorts: nat,
    minPageSz: nat, maxSg: nat, maxDescSz: nat, maxIcmSz: nat)

  function Min(a: nat, b: nat): nat
  {
    if a < b then a else b
  }

  /**
   * The field-by-field decoding of the QUERY_DEV_LIM reply: one-byte
   * fields are read as is, two-byte and eight-byte fields big-endian; the
   * reserved and maximum counts are powers of two of a masked exponent; the
   * send and receive queue limits are combined by taking the smaller.
   */
  function DecodeDevLim(out: seq<Byte>): DevLimits
    requires |out| >= QUERY_DEV_LIM_OUT_SIZE
  {
    DevLimits(
      Pow2(BitAnd(out[0x00], 0xf)), Pow2(BitAnd(out[0x01], 0xf)), Pow2(BitAnd(out[0x02], 0xf)),
      Pow2(BitAnd(out[0x03], 0xf)), Pow2(BitAnd(out[0x05], 0xf)), Pow2(BitAnd(out[0x07], 0xf)),
      Pow2(Get(out, 0x08, 2)), Pow2(Get(out, 0x0a, 2)),
      IntShl1(BitAnd(out[0x0c], 0x1f)), IntShl1(BitAnd(out[0x0d], 0x1f)), Pow2(BitAnd(out[0x0e], 0x7)),
      IntShl1(BitAnd(out[0x0f], 0x3f)), IntShl1(BitAnd(out[0x10], 0x3f)), Pow2(BitAnd(out[0x12], 0xf)),
      Pow2(BitAnd(out[0x13], 0xf)),
      out[0x15],
      Get(out, 0x18, 2), Get(out, 0x1a, 2), Get(out, 0x1c, 2), Get(out, 0x1e, 2),
      BitAnd(out[0x20], 0xf), Shr(out[0x21], 4), BitAnd(out[0x21], 0xf), Shr(out[0x23], 4), BitAnd(out[0x23], 0xf),
      Pow2(out[0x25]), Min(out[0x2d], out[0x29]), Min(Get(out, 0x2e, 2), Get(out, 0x2a, 2)),
      Get(out, 0x30, 8))
  }

  /**
   * hgrnic_QUERY_DEV_LIM: -ENOMEM when no mailbox can be had, the
   * command's error with the limits left untouched when it fails, and the
   * decoded reply otherwise.
   */
  function QueryDevLim(mailboxOk: bool, cmdErr: int, out: seq<Byte>): (r: (int, Option<DevLimits>))
    requires |out| >= QUERY_DEV_LIM_OUT_SIZE
    ensures r.1.Some? <==> mailboxOk && cmdErr == 0
    ensures r.0 == (if !mailboxOk then -ENOMEM else cmdErr)
    ensures r.1.Some? ==> r.1.value == DecodeDevLim(out)
  {
    if !mailboxOk then (-ENOMEM, None)
    else if cmdErr != 0 then (cmdErr, None)
    else (0, Some(DecodeDevLim(out)))
  }

  /** x & (2^k - 1) for the masks the decoder uses. */
  lemma Masks(x: nat)
    ensures BitAnd(x, 0x7) == x % 8 && BitAnd(x, 0xf) == x % 16
    ensures BitAnd(x, 0x1f) == x % 32 && BitAnd(x, 0x3f) == x % 64
  {
    assert Pow2(3) == 8 && Pow2(4) == 16 && Pow2(5) == 32 && Pow2(6) == 64;
    AndLowMask(x, 3);
    AndLowMask(x, 4);
    AndLowMask(x, 5);
    AndLowMask(x, 6);
  }

  /** A count 1 << (b & 0xf): a power of two set by the low nibble of b, so at most 2^15. */
  lemma NibbleCount(b: nat)
    ensures Pow2(BitAnd(b, 0xf)) == Pow2(b % 16) <= 0x8000
  {
    Masks(b);
    Pow2Monotone(b % 16, 15);
    assert Pow2(15) == 0x8000;
  }

  /** The reserved counts are powers of two set by the low nibble of their byte, so at most 2^15. */
  lemma DevLimReserved(out: seq<Byte>)
    requires |out| >= QUERY_DEV_LIM_OUT_SIZE
    ensures var d := DecodeDevLim(out);
      d.reservedQps == Pow2(out[0x00] % 16) <= 0x8000 && d.reservedCqs == Pow2(out[0x01] % 16) <= 0x8000
      && d.reservedEqs == Pow2(out[0x02] % 16) <= 0x8000 && d.reservedMtts == Pow2(out[0x03] % 16) <= 0x8000
      && d.reservedPds == Pow2(out[0x05] % 16) <= 0x8000 && d.reservedLkey == Pow2(out[0x07] % 16) <= 0x8000
  {
    NibbleCount(out[0x00]);
    NibbleCount(out[0x01]);
    NibbleCount(out[0x02]);
    NibbleCount(out[0x03]);
    NibbleCount(out[0x05]);
    NibbleCount(out[0x07]);
  }

  /**
   * A maximum 1 << e held in a C int: 2^e for an exponent up to 30, INT_MIN
   * for 31, and for a larger exponent what the shift instruction makes of
   * it; it is positive, and then a power of two, exactly when e mod 32 is
   * not 31.
   */
  predicate IntMaximum(v: int, e: nat)
  {
    (e <= 30 ==> v == Pow2(e)) && (e == 31 ==> v == -0x8000_0000)
    && (v > 0 <==> e % 32 != 31) && (v > 0 ==> IsPow2(v))
  }

  lemma IntShl1Maximum(e: nat)
    ensures IntMaximum(IntShl1(e), e)
  {
    var r := e % 32;
    assert r < 32;
    assert e <= 31 ==> r == e;
    if r != 31 {
      Pow2IsPow2(r);
    }
  }

  /**
   * The QP and CQ maxima are 1 << (b & 0x1f) and the MPT and PD maxima
   * 1 << (b & 0x3f), stored in C ints: exact powers of two up to an
   * exponent of 30, INT_MIN at 31.  The EQ maximum, 1 << (b & 7), is a
   * power of two of at most 2^7, and the GID and P_Key table sizes powers
   * of two set by a nibble.
   */
  lemma DevLimMaxima(out: seq<Byte>)
    requires |out| >= QUERY_DEV_LIM_OUT_SIZE
    ensures var d := DecodeDevLim(out);
      IntMaximum(d.maxQps, out[0x0c] % 32) && IntMaximum(d.maxCqs, out[0x0d] % 32)
      && d.maxEqs == Pow2(out[0x0e] % 8) <= 0x80
      && IntMaximum(d.maxMpts, out[0x0f] % 64) && IntMaximum(d.maxPds, out[0x10] % 64)
      && d.maxGids == Pow2(out[0x12] % 16) && d.maxPkeys == Pow2(out[0x13] % 16)
  {
    Masks(out[0x0c]);
    Masks(out[0x0d]);
    Masks(out[0x0e]);
    Masks(out[0x0f]);
    Masks(out[0x10]);
    Masks(out[0x12]);
    Masks(out[0x13]);
    IntShl1Maximum(out[0x0c] % 32);
    IntShl1Maximum(out[0x0d] % 32);
    IntShl1Maximum(out[0x0f] % 64);
    IntShl1Maximum(out[0x10] % 64);
    Pow2Monotone(out[0x0e] % 8, 7);
    assert Pow2(7) == 0x80;
  }

  /** The two nibbles of the MTU/width and VL/ports bytes are split apart and recombine to the byte. */
  lemma DevLimNibbles(out: seq<Byte>)
    requires |out| >= QUERY_DEV_LIM_OUT_SIZE
    ensures var d := DecodeDevLim(out);
      d.maxMtu < 16 && d.maxPortWidth < 16 && d.maxMtu * 16 + d.maxPortWidth == out[0x21]
      && d.maxVl < 16 && d.numPorts < 16 && d.maxVl * 16 + d.numPorts == out[0x23]
      && d.localCaAckDelay < 16
  {
    Masks(out[0x20]);
    Masks(out[0x21]);
    Masks(out[0x23]);
    assert Pow2(4) == 16;
  }

  /** The scatter and descriptor limits are the smaller of the send and receive values. */
  lemma DevLimMins(out: seq<Byte>)
    requires |out| >= QUERY_DEV_LIM_OUT_SIZE
    ensures var d := DecodeDevLim(out);
      d.maxSg <= out[0x29] && d.maxSg <= out[0x2d] && (d.maxSg == out[0x29] || d.maxSg == out[0x2d])
      && d.maxDescSz <= Get(out, 0x2a, 2) && d.maxDescSz <= Get(out, 0x2e, 2)
      && (d.maxDescSz == Get(out, 0x2a, 2) || d.maxDescSz == Get(out, 0x2e, 2))
      && d.maxDescSz < 0x1_0000 && d.maxIcmSz < U64
  {
    ValueBound(out[0x2a..0x2c]);
    ValueBound(out[0x30..0x38]);
    assert Radix(2) == 0x1_0000 && Radix(8) == U64;
  }

  // ------------------------------------------------------------ commands without a mailbox layout

  /** The arguments of one hgrnic_cmd call that has no output parameter. */
  datatype Command = Command(inParam: nat, inMod: nat, opMod: nat, op: nat)

  /** The HCR words of a polled command without output. */
  function Words(c: Command): (ws: seq<nat>)
    ensures |ws| == 7
  {
    HcrWords(c.inParam, 0, c.inMod, c.opMod, c.op, CMD_POLL_TOKEN)
  }

  /** hgrnic_UNMAP_ICM: virt as the input parameter, the page count as modifier, type_sel as op modifier. */
  function UnmapIcm(virt: nat, pageCount: nat, typeSel: nat): Command
  {
    Command(virt, pageCount, typeSel, CMD_UNMAP_ICM)
  }

  /** The firmware reads back the area, the page count and the region selector of an UNMAP_ICM. */
  lemma UnmapIcmDecodes(virt: nat, pageCount: nat, typeSel: nat)
    requires virt < U64 && pageCount < U32 && typeSel < 256
    ensures var ws := Words(UnmapIcm(virt, pageCount, typeSel));
      ws[0] * U32 + ws[1] == virt && ws[2] == pageCount && ws[3] == 0 && ws[4] == 0
      && ws[6] % 0x1000 == CMD_UNMAP_ICM && (ws[6] / 0x1000) % 0x100 == typeSel
      && ws[5] / 0x1_0000 == CMD_POLL_TOKEN
  {
    HcrDecodes(virt, 0, pageCount, typeSel, CMD_UNMAP_ICM, CMD_POLL_TOKEN);
  }

  // ------------------------------------------------------------ MAP_ICM_page

  /**
   * hgrnic_MAP_ICM_page: one entry in slot 1 (words 2 and 3) flagged as a
   * single 4 KiB page, slot 0 zeroed, and a count of 1. The rest of the
   * mailbox is whatever it held before (junk). No command is sent when the
   * mailbox cannot be allocated.
   */
  function MapIcmPage(mailboxOk: bool, err: int, virt: nat, dma: nat, junk: seq<nat>): (r: (int, seq<MapCmd>))
    requires |junk| == MAILBOX_WORDS - 4
    ensures !mailboxOk ==> r == (-ENOMEM, [])
    ensures mailboxOk ==> r.0 == err && |r.1| == 1 && r.1[0].count == 1 && |r.1[0].words| == MAILBOX_WORDS
  {
    if !mailboxOk then (-ENOMEM, [])
    else (err, [MapCmd(1, [0, 0, virt, BitOr(dma, 1)] + junk)])
  }

  /**
   * For a 4 KiB-aligned page, MAP_ICM_page sends exactly what MAP_ICM sends
   * for the one-entry scatter list of that page, whatever the command answers.
   */
  lemma MapIcmPageIsMapIcm(virt: nat, dma: nat, junk: seq<nat>, cmdErr: nat -> int)
    requires dma % PAGE_SIZE == 0 && |junk| == MAILBOX_WORDS - 4
    ensures var r := MapIcmPage(true, cmdErr(0), virt, dma, junk);
      MapIcmSends([IcmSpec.SgEntry(dma, PAGE_SIZE)], virt, cmdErr, r.0, r.1)
  {
    var e := IcmSpec.SgEntry(dma, PAGE_SIZE);
    Pow2Small();
    var x := BitOr(dma, PAGE_SIZE);
    OrLowZero(dma, PAGE_SIZE, PAGE_SHIFT);
    BitOrTest(dma, PAGE_SIZE, PAGE_SHIFT);
    Pow2Test(PAGE_SHIFT, PAGE_SHIFT);
    TrailingZerosAt(x, PAGE_SHIFT);
    assert EntryLog(e) == PAGE_SHIFT;
    assert Shr(PAGE_SIZE, PAGE_SHIFT) == 1;
    assert Pow2(0) == 1;
    var es := Pages(e, PAGE_SHIFT, virt);
    assert es == [MapEntry(virt, BitOr(dma, 1))];
    assert Expand([e], virt).entries == es by {
      assert [e][..0] == [];
    }
    var ws := [0, 0, virt, BitOr(dma, 1)] + junk;
    assert Unpack(ws, 1) == es;
    assert Batch(es, 0) == es;
    assert Planned(1, true) == 1;
  }

  // ------------------------------------------------------------ INIT_HCA

  const INIT_HCA_IN_SIZE: nat := 0x40
  /** HGRNIC_MAILBOX_SIZE: the bytes of one mailbox. */
  const MAILBOX_SIZE: nat := 4096

  /** The memset that clears the parameter block first. */
  function Zeros(n: nat): (r: seq<Byte>)
    ensures |r| == n && forall k :: 0 <= k < n ==> r[k] == 0
  {
    seq(n, _ => 0)
  }

  /** A 64-bit base PUT at off followed by a one-byte log PUT at off + 7, over its last byte. */
  function BaseAndLog(buf: seq<Byte>, off: nat, base: nat, lg: nat): (r: seq<Byte>)
    requires off + 8 <= |buf|
    ensures |r| == |buf|
  {
    Splice(Splice(buf, off, BE(base, 8)), off + 7, BE(lg, 1))
  }

  /** A PUT into the head of a buffer leaves its tail alone. */
  lemma SpliceHead(x: seq<Byte>, rest: seq<Byte>, off: nat, bs: seq<Byte>)
    requires off + |bs| <= |x|
    ensures Splice(x + rest, off, bs) == Splice(x, off, bs) + rest
  {
    assert (x + rest)[..off] == x[..off];
    assert (x + rest)[off + |bs|..] == x[off + |bs|..] + rest;
  }

  lemma BaseAndLogHead(x: seq<Byte>, rest: seq<Byte>, off: nat, base: nat, lg: nat)
    requires off + 8 <= |x|
    ensures BaseAndLog(x + rest, off, base, lg) == BaseAndLog(x, off, base, lg) + rest
  {
    SpliceHead(x, rest, off, BE(base, 8));
    SpliceHead(Splice(x, off, BE(base, 8)), rest, off + 7, BE(lg, 1));
  }

  /** The INIT_HCA parameter block, PUT after PUT in the order of hgrnic_INIT_HCA. */
  function HcaImage(p: Profile.HcaProfile): (img: seq<Byte>)
    ensures |img| == INIT_HCA_IN_SIZE
  {
    var qp := BaseAndLog(Zeros(INIT_HCA_IN_SIZE), 0x08, p.qpcBase, p.logNumQps);
    var cq := BaseAndLog(qp, 0x10, p.cqcBase, p.logNumCqs);
    var eq := BaseAndLog(cq, 0x18, p.eqcBase, p.logNumEqs);
    var mpt := BaseAndLog(eq, 0x30, p.mptBase, p.logMptSz);
    Splice(mpt, 0x38, BE(p.mttBase, 8))
  }

  /** The 64-bit word the firmware reads for a base and its log: the base modulo 2^64 with its low byte replaced by the log. */
  function Packed(base: nat, lg: nat): nat
  {
    base % U64 - base % 256 + lg % 256
  }

  /** After the two PUTs, the 8-byte field reads as the packed word. */
  lemma BaseAndLogField(buf: seq<Byte>, off: nat, base: nat, lg: nat)
    requires off + 8 <= |buf|
    ensures Get(BaseAndLog(buf, off, base, lg), off, 8) == Packed(base, lg)
  {
    var s := BaseAndLog(buf, off, base, lg);
    var hi := BE(base / 256, 7);
    assert BE(base, 8) == hi + [base % 256];
    assert BE(lg, 1) == [lg % 256];
    var f := s[off..off + 8];
    assert f == hi + [lg % 256];
    assert f[..7] == hi;
    assert Value(f) == Value(hi) * 256 + lg % 256;
    ValueOfBE(base / 256, 7);
    ModRadixStep(base, Radix(7));
    assert 256 * Radix(7) == U64;
  }

  /** The two PUTs leave every field outside the eight bytes at off as it was. */
  lemma BaseAndLogFrame(buf: seq<Byte>, off: nat, base: nat, lg: nat, off': nat, w: nat)
    requires off + 8 <= |buf| && off' + w <= |buf|
    requires off' + w <= off || off + 8 <= off'
    ensures Get(BaseAndLog(buf, off, base, lg), off', w) == Get(buf, off', w)
  {
    GetFrame(buf, off, BE(base, 8), off', w);
    GetFrame(Splice(buf, off, BE(base, 8)), off + 7, BE(lg, 1), off', w);
  }

  /** The two PUTs leave every byte outside the eight at off as it was. */
  lemma BaseAndLogByte(buf: seq<Byte>, off: nat, base: nat, lg: nat, k: nat)
    requires off + 8 <= |buf| && k < |buf| && (k < off || off + 8 <= k)
    ensures BaseAndLog(buf, off, base, lg)[k] == buf[k]
  {
    PutFrame(buf, off, BE(base, 8), k);
    PutFrame(Splice(buf, off, BE(base, 8)), off + 7, BE(lg, 1), k);
  }

  /**
   * The layout the firmware reads: each context base at 0x08, 0x10, 0x18
   * and the MPT base at 0x30 carries its log in its low byte, and the MTT
   * base at 0x38 is whole.
   */
  lemma HcaLayout(p: Profile.HcaProfile)
    ensures var img := HcaImage(p);
      Get(img, 0x08, 8) == Packed(p.qpcBase, p.logNumQps)
      && Get(img, 0x10, 8) == Packed(p.cqcBase, p.logNumCqs)
      && Get(img, 0x18, 8) == Packed(p.eqcBase, p.logNumEqs)
      && Get(img, 0x30, 8) == Packed(p.mptBase, p.logMptSz)
      && Get(img, 0x38, 8) == p.mttBase % U64
  {
    var qp := BaseAndLog(Zeros(INIT_HCA_IN_SIZE), 0x08, p.qpcBase, p.logNumQps);
    var cq := BaseAndLog(qp, 0x10, p.cqcBase, p.logNumCqs);
    var eq := BaseAndLog(cq, 0x18, p.eqcBase, p.logNumEqs);
    var mpt := BaseAndLog(eq, 0x30, p.mptBase, p.logMptSz);
    var img := Splice(mpt, 0x38, BE(p.mttBase, 8));
    assert Get(img, 0x08, 8) == Packed(p.qpcBase, p.logNumQps) by {
      BaseAndLogField(Zeros(INIT_HCA_IN_SIZE), 0x08, p.qpcBase, p.logNumQps);
      BaseAndLogFrame(qp, 0x10, p.cqcBase, p.logNumCqs, 0x08, 8);
      BaseAndLogFrame(cq, 0x18, p.eqcBase, p.logNumEqs, 0x08, 8);
      BaseAndLogFrame(eq, 0x30, p.mptBase, p.logMptSz, 0x08, 8);
      GetFrame(mpt, 0x38, BE(p.mttBase, 8), 0x08, 8);
    }
    assert Get(img, 0x10, 8) == Packed(p.cqcBase, p.logNumCqs) by {
      BaseAndLogField(qp, 0x10, p.cqcBase, p.logNumCqs);
      BaseAndLogFrame(cq, 0x18, p.eqcBase, p.logNumEqs, 0x10, 8);
      BaseAndLogFrame(eq, 0x30, p.mptBase, p.logMptSz, 0x10, 8);
      GetFrame(mpt, 0x38, BE(p.mttBase, 8), 0x10, 8);
    }
    assert Get(img, 0x18, 8) == Packed(p.eqcBase, p.logNumEqs) by {
      BaseAndLogField(cq, 0x18, p.eqcBase, p.logNumEqs);
      BaseAndLogFrame(eq, 0x30, p.mptBase, p.logMptSz, 0x18, 8);
      GetFrame(mpt, 0x38, BE(p.mttBase, 8), 0x18, 8);
    }
    assert Get(img, 0x30, 8) == Packed(p.mptBase, p.logMptSz) by {
      BaseAndLogField(eq, 0x30, p.mptBase, p.logMptSz);
      GetFrame(mpt, 0x38, BE(p.mttBase, 8), 0x30, 8);
    }
    assert Get(img, 0x38, 8) == p.mttBase % U64 by {
      GetAfterPut(mpt, 0x38, 8, p.mttBase);
      assert Radix(8) == U64;
    }
  }

  /** No PUT of INIT_HCA touches bytes 0x00-0x07 or 0x20-0x2f: they keep the memset's zeros. */
  lemma HcaReservedZero(p: Profile.HcaProfile, k: nat)
    requires k < 0x08 || 0x20 <= k < 0x30
    ensures HcaImage(p)[k] == 0
  {
    var z := Zeros(INIT_HCA_IN_SIZE);
    var qp := BaseAndLog(z, 0x08, p.qpcBase, p.logNumQps);
    var cq := BaseAndLog(qp, 0x10, p.cqcBase, p.logNumCqs);
    var eq := BaseAndLog(cq, 0x18, p.eqcBase, p.logNumEqs);
    var mpt := BaseAndLog(eq, 0x30, p.mptBase, p.logMptSz);
    BaseAndLogByte(z, 0x08, p.qpcBase, p.logNumQps, k);
    BaseAndLogByte(qp, 0x10, p.cqcBase, p.logNumCqs, k);
    BaseAndLogByte(cq, 0x18, p.eqcBase, p.logNumEqs, k);
    BaseAndLogByte(eq, 0x30, p.mptBase, p.logMptSz, k);
    PutFrame(mpt, 0x38, BE(p.mttBase, 8), k);
  }

  /**
   * When the bases are 256-byte aligned 64-bit addresses and the logs fit
   * a byte, the firmware reads every base back with its log added in the
   * low byte, and the MTT base unchanged.
   */
  lemma HcaDecodes(p: Profile.HcaProfile)
    requires p.qpcBase < U64 && p.cqcBase < U64 && p.eqcBase < U64 && p.mptBase < U64 && p.mttBase < U64
    requires p.qpcBase % 256 == 0 && p.cqcBase % 256 == 0 && p.eqcBase % 256 == 0 && p.mptBase % 256 == 0
    requires p.logNumQps < 256 && p.logNumCqs < 256 && p.logNumEqs < 256 && p.logMptSz < 256
    ensures var img := HcaImage(p);
      Get(img, 0x08, 8) == p.qpcBase + p.logNumQps && Get(img, 0x10, 8) == p.cqcBase + p.logNumCqs
      && Get(img, 0x18, 8) == p.eqcBase + p.logNumEqs && Get(img, 0x30, 8) == p.mptBase + p.logMptSz
      && Get(img, 0x38, 8) == p.mttBase
  {
    HcaLayout(p);
    PackedAligned(p.qpcBase, p.logNumQps);
    PackedAligned(p.cqcBase, p.logNumCqs);
    PackedAligned(p.eqcBase, p.logNumEqs);
    PackedAligned(p.mptBase, p.logMptSz);
    DivModUnique(p.mttBase, U64, 0, p.mttBase);
  }

  /** An aligned base keeps all its bits and takes the log in its free low byte. */
  lemma PackedAligned(base: nat, lg: nat)
    requires base < U64 && base % 256 == 0 && lg < 256
    ensures Packed(base, lg) == base + lg
  {
    DivModUnique(base, U64, 0, base);
    DivModUnique(lg, 256, 0, lg);
  }

  /** An unaligned base loses its low byte: the word read back is not base + log. */
  lemma PackedClobbers(base: nat, lg: nat)
    requires base < U64 && lg < 256 && base % 256 != 0
    ensures Packed(base, lg) != base + lg
  {
  }

  // ------------------------------------------------------------ MODIFY_QP

  /** op[cur][next] of hgrnic_MODIFY_QP: the transition command, 0 where the table has no entry. */
  function ModifyQpOp(cur: nat, next: nat): (op: nat)
    requires cur <= IB_QPS_ERR && next <= IB_QPS_ERR
  {
    if next == IB_QPS_RESET then CMD_ERR2RST_QPEE
    else if next == IB_QPS_ERR then CMD_2ERR_QPEE
    else if cur == IB_QPS_RESET && next == IB_QPS_INIT then CMD_RST2INIT_QPEE
    else if cur == IB_QPS_INIT && next == IB_QPS_INIT then CMD_INIT2INIT_QPEE
    else if cur == IB_QPS_INIT && next == IB_QPS_RTR then CMD_INIT2RTR_QPEE
    else if cur == IB_QPS_RTR && next == IB_QPS_RTS then CMD_RTR2RTS_QPEE
    else if cur == IB_QPS_RTS && next == IB_QPS_RTS then CMD_RTS2RTS_QPEE
    else if cur == IB_QPS_RTS && next == IB_QPS_SQD then CMD_RTS2SQD_QPEE
    else if cur == IB_QPS_SQD && next == IB_QPS_RTS then CMD_SQD2RTS_QPEE
    else if cur == IB_QPS_SQD && next == IB_QPS_SQD then CMD_SQD2SQD_QPEE
    else if cur == IB_QPS_SQE && next == IB_QPS_RTS then CMD_SQERR2RTS_QPEE
    else 0
  }

  /**
   * The queue-pair transitions with a firmware command, after the state
   * diagram of section 10.3.1 of the InfiniBand Architecture Specification
   * Vol. 1: any state to Reset or Error, and the forward edges Reset-Init,
   * Init-Init, Init-RTR, RTR-RTS, RTS-RTS, RTS-SQD, SQD-RTS, SQD-SQD and
   * SQE-RTS.
   */
  predicate Transition(cur: nat, next: nat)
  {
    next == IB_QPS_RESET || next == IB_QPS_ERR
    || (cur, next) in {(IB_QPS_RESET, IB_QPS_INIT), (IB_QPS_INIT, IB_QPS_INIT), (IB_QPS_INIT, IB_QPS_RTR),
                       (IB_QPS_RTR, IB_QPS_RTS), (IB_QPS_RTS, IB_QPS_RTS), (IB_QPS_RTS, IB_QPS_SQD),
                       (IB_QPS_SQD, IB_QPS_RTS), (IB_QPS_SQD, IB_QPS_SQD), (IB_QPS_SQE, IB_QPS_RTS)}
  }

  /** The table has a command exactly for the transitions, and every command fits the 12-bit opcode field. */
  lemma ModifyQpTable(cur: nat, next: nat)
    requires cur <= IB_QPS_ERR && next <= IB_QPS_ERR
    ensures ModifyQpOp(cur, next) != 0 <==> Transition(cur, next)
    ensures ModifyQpOp(cur, next) < 0x1000
  {
  }

  /** Every state goes to Reset by ERR2RST and to Error by 2ERR. */
  lemma ModifyQpToResetOrError(cur: nat)
    requires cur <= IB_QPS_ERR
    ensures ModifyQpOp(cur, IB_QPS_RESET) == CMD_ERR2RST_QPEE && ModifyQpOp(cur, IB_QPS_ERR) == CMD_2ERR_QPEE
  {
  }

  /** Apart from the moves to Reset and Error, the command names the transition: different edges, different opcodes. */
  lemma ModifyQpDistinct(c1: nat, n1: nat, c2: nat, n2: nat)
    requires c1 <= IB_QPS_ERR && n1 <= IB_QPS_ERR && c2 <= IB_QPS_ERR && n2 <= IB_QPS_ERR
    requires n1 != IB_QPS_RESET && n1 != IB_QPS_ERR && n2 != IB_QPS_RESET && n2 != IB_QPS_ERR
    requires ModifyQpOp(c1, n1) != 0 && ModifyQpOp(c1, n1) == ModifyQpOp(c2, n2)
    ensures c1 == c2 && n1 == n2
  {
  }

  /** hgrnic_MODIFY_QP: the QP context mailbox as input, the QP number as modifier, op modifier 0. */
  function ModifyQp(cur: nat, next: nat, num: nat, dma: nat): Command
    requires cur <= IB_QPS_ERR && next <= IB_QPS_ERR
  {
    Command(dma, num, 0, ModifyQpOp(cur, next))
  }

  /** The firmware reads the mailbox address, the QP number and the transition back from the HCR. */
  lemma ModifyQpDecodes(cur: nat, next: nat, num: nat, dma: nat)
    requires cur <= IB_QPS_ERR && next <= IB_QPS_ERR && num < U32 && dma < U64
    ensures var ws := Words(ModifyQp(cur, next, num, dma));
      ws[0] * U32 + ws[1] == dma && ws[2] == num
      && ws[6] % 0x1000 == ModifyQpOp(cur, next) && (ws[6] / 0x1000) % 0x100 == 0
  {
    ModifyQpTable(cur, next);
    HcrDecodes(dma, 0, num, 0, ModifyQpOp(cur, next), CMD_POLL_TOKEN);
  }
}
