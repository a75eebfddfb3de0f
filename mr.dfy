/**
 * Memory regions (hgrnic_mr.c): MTT ranges taken from the buddy allocator
 * and registered in the MTT ICM table, the MTT mailbox of WRITE_MTT, and
 * the MPT key allocation with its rollback chain.
 *
 * ICM registration, mailbox allocation and firmware commands are outcomes
 * passed in by the caller; the ICM table itself is modelled in module Icm.
 */
module Mr {
  import opened Common
  import opened Allocator
  import opened BuddySpec
  import opened Buddy

  /** struct hgrnic_mtt: the first MTT segment of a range and its order. */
  datatype Mtt = Mtt(firstIndex: nat, order: nat)

  lemma ShrShl(x: nat, n: nat)
    ensures Shr(Shl(x, n), n) == x
  {
    DivModUnique(x * Pow2(n), Pow2(n), x, 0);
  }

  /**
   * The order loop of __hgrnic_alloc_mtt: `for (i = 1; i < size; i <<= 1)
   * ++order`, the smallest order whose block holds `size` entries.
   */
  method MttOrder(size: nat) returns (order: nat)
    ensures order == CeilLog2(size)
    ensures Pow2(order) >= size && (order == 0 || Pow2(order - 1) < size)
  {
    var i: nat := 1;
    order := 0;
    while i < size
      invariant i == Pow2(order)
      invariant order == 0 || Pow2(order - 1) < size
    {
      i := i * 2;
      order := order + 1;
    }
    CeilLog2Least(size, order);
    CeilLog2Covers(size);
    if CeilLog2(size) < order {
      Pow2Monotone(CeilLog2(size), order - 1);
    }
  }

  /**
   * hgrnic_alloc_mtt_range: a buddy block of `order`; when registering its
   * MTT entries in ICM fails (`regOk` false) the block is given back and -1
   * returned, the allocator being exactly as before.
   */
  method AllocMttRange(buddy: BuddyAllocator, order: nat, regOk: bool) returns (seg: nat)
    requires buddy.Valid()
    modifies buddy
    ensures buddy.Valid() && buddy.maxOrder == old(buddy.maxOrder)
    ensures var o := FindOrder(old(buddy.bits), old(buddy.numFree), order);
      if o == |old(buddy.bits)| || !regOk then
        seg == U32_ALL_ONES && buddy.bits == old(buddy.bits) && buddy.numFree == old(buddy.numFree)
      else
        var s := FirstSet(old(buddy.bits)[o], 0);
        var r := SplitDown(SetBit(old(buddy.bits), o, s, false), o, s, order);
        buddy.bits == r.0 && seg == Shl(r.1, order) && Vacant(buddy.bits, order, r.1)
    ensures seg == U32_ALL_ONES <==> FindOrder(old(buddy.bits), old(buddy.numFree), order) == |old(buddy.bits)| || !regOk
    ensures seg != U32_ALL_ONES ==> (order <= buddy.maxOrder && seg % Pow2(order) == 0
      && Shr(seg, order) < |buddy.bits[order]| && Vacant(buddy.bits, order, Shr(seg, order)))
  {
    ghost var b0, nf0 := buddy.bits, buddy.numFree;
    seg := buddy.Alloc(order);
    if seg == U32_ALL_ONES {
      return;
    }
    if !regOk {
      buddy.Free(seg, order);
      MttAllocFreeRestores(b0, nf0, order);
      CountsDetermined(buddy.bits, buddy.numFree, nf0);
      seg := U32_ALL_ONES;
    }
  }

  /** num_free is determined by the bitmaps. */
  lemma CountsDetermined(b: seq<seq<bool>>, nf: seq<int>, nf': seq<int>)
    requires Counted(b, nf) && Counted(b, nf')
    ensures nf == nf'
  {
  }

  /**
   * __hgrnic_alloc_mtt: -EINVAL for a size that is not positive, -ENOMEM
   * when the descriptor cannot be allocated (`memOk` false) or no range is
   * obtained; otherwise the range of the smallest order covering `size`.
   */
  method AllocMtt(buddy: BuddyAllocator, size: int, memOk: bool, regOk: bool) returns (r: Result<Mtt>)
    requires buddy.Valid()
    modifies buddy
    ensures buddy.Valid() && buddy.maxOrder == old(buddy.maxOrder)
    ensures size <= 0 ==> r == Err(-EINVAL)
    ensures size > 0 && !memOk ==> r == Err(-ENOMEM)
    ensures r.Err? ==> r.code == -EINVAL || r.code == -ENOMEM
    ensures r.Err? ==> buddy.bits == old(buddy.bits) && buddy.numFree == old(buddy.numFree)
    ensures r.Ok? ==> (size > 0 && memOk && regOk
      && r.value.order == CeilLog2(size) && Pow2(r.value.order) >= size
      && r.value.order <= buddy.maxOrder && r.value.firstIndex % Pow2(r.value.order) == 0
      && Shr(r.value.firstIndex, r.value.order) < |buddy.bits[r.value.order]|
      && Vacant(buddy.bits, r.value.order, Shr(r.value.firstIndex, r.value.order)))
    ensures size > 0 && memOk && regOk && FindOrder(old(buddy.bits), old(buddy.numFree), CeilLog2(size)) < |old(buddy.bits)| ==> r.Ok?
  {
    if size <= 0 {
      return Err(-EINVAL);
    }
    if !memOk {
      return Err(-ENOMEM);
    }
    var order := MttOrder(size);
    var first := AllocMttRange(buddy, order, regOk);
    if first == U32_ALL_ONES {
      return Err(-ENOMEM);
    }
    r := Ok(Mtt(first, order));
  }

  /**
   * hgrnic_free_mtt: nothing for NULL; otherwise the range goes back to the
   * buddy allocator (its ICM entries are unregistered, which is outside
   * this model).
   */
  method FreeMtt(buddy: BuddyAllocator, mtt: Option<Mtt>)
    requires buddy.Valid()
    requires mtt.Some? ==> (mtt.value.order <= buddy.maxOrder
      && Shr(mtt.value.firstIndex, mtt.value.order) < |buddy.bits[mtt.value.order]|
      && Vacant(buddy.bits, mtt.value.order, Shr(mtt.value.firstIndex, mtt.value.order)))
    modifies buddy
    ensures buddy.Valid() && buddy.maxOrder == old(buddy.maxOrder)
    ensures mtt.None? ==> buddy.bits == old(buddy.bits) && buddy.numFree == old(buddy.numFree)
    ensures mtt.Some? ==> buddy.bits == MergeUp(old(buddy.bits), mtt.value.order, Shr(mtt.value.firstIndex, mtt.value.order))
  {
    if mtt.None? {
      return;
    }
    buddy.Free(mtt.value.firstIndex, mtt.value.order);
  }

  /**
   * Allocating an MTT range and freeing it again leaves the buddy bitmaps
   * exactly as they were.
   */
  lemma MttAllocFreeRestores(b: seq<seq<bool>>, nf: seq<int>, order: nat)
    requires WellFormed(b) && Counted(b, nf) && FindOrder(b, nf, order) < |b|
    ensures var o := FindOrder(b, nf, order);
      var s := FirstSet(b[o], 0);
      var r := SplitDown(SetBit(b, o, s, false), o, s, order);
      Shaped(r.0) && Shr(Shl(r.1, order), order) == r.1 && MergeUp(r.0, order, Shr(Shl(r.1, order), order)) == b
  {
    var o := FindOrder(b, nf, order);
    var s := FirstSet(b[o], 0);
    var r := SplitDown(SetBit(b, o, s, false), o, s, order);
    AllocThenFreeRestores(b, nf, order);
    ShrShl(r.1, order);
  }

  // ---------------------------------------------------------------------
  // The WRITE_MTT mailbox of __hgrnic_write_mtt.

  /** HGRNIC_MAILBOX_SIZE / 8: the mailbox holds 512 64-bit words. */
  const MAILBOX_WORDS: nat := 512
  /** Words 0-3 are the header, so one mailbox carries at most 508 entries. */
  const MTT_PER_MAILBOX: nat := 508

  /** The entry stored in entry slot j (mailbox word 4 + j): groups of four are reversed. */
  function SlotEntry(j: nat): (e: nat)
    ensures e / 4 == j / 4 && e % 4 == 3 - j % 4
  {
    var e := 4 * (j / 4) + 3 - j % 4;
    DivModUnique(e, 4, j / 4, 3 - j % 4);
    e
  }

  /** Value of entry slot j for the entries `list`: zero past the end of the list. */
  function SlotValue(list: seq<nat>, j: nat): nat
  {
    var e := SlotEntry(j);
    if e < |list| then list[e] else 0
  }

  /**
   * The mailbox words once the header and the first `upto` entry slots are
   * written: words 0-2 zero, word 3 the start index, the rest as before.
   */
  function Filled(prev: seq<nat>, start: nat, list: seq<nat>, upto: nat): (w: seq<nat>)
    requires |prev| == MAILBOX_WORDS
    ensures |w| == MAILBOX_WORDS
  {
    seq(MAILBOX_WORDS, k requires 0 <= k < MAILBOX_WORDS =>
      if k < 3 then 0
      else if k == 3 then start
      else if k - 4 < upto then SlotValue(list, k - 4)
      else prev[k])
  }

  /** Slots the inner loop fills for `len` remaining entries: whole groups of four, at most 508. */
  function Stride(len: nat): (i: nat)
    ensures i % 4 == 0 && i <= MTT_PER_MAILBOX
    ensures len <= MTT_PER_MAILBOX ==> len <= i < len + 4
    ensures len > MTT_PER_MAILBOX ==> i == MTT_PER_MAILBOX
  {
    if len >= MTT_PER_MAILBOX then MTT_PER_MAILBOX else ((len + 3) / 4) * 4
  }

  /** Another group of four fits below the stride while entries and room remain. */
  lemma StrideStep(len: nat, i: nat)
    requires i % 4 == 0 && i < len && i < MTT_PER_MAILBOX
    ensures i + 4 <= Stride(len) && (i + 4) % 4 == 0
  {
    var q := i / 4;
    DivModUnique(i + 4, 4, q + 1, 0);
    if len < MTT_PER_MAILBOX {
      var s := Stride(len);
      DivModUnique(s, 4, s / 4, 0);
    }
  }

  /** One WRITE_MTT command: its in_modifier (the entry count) and the mailbox it carries. */
  datatype MttCommand = MttCommand(count: nat, words: seq<nat>)

  function Tail(results: seq<int>): seq<int>
  {
    if |results| > 0 then results[1..] else []
  }

  function Drop(results: seq<int>, k: nat): seq<int>
  {
    if k <= |results| then results[k..] else []
  }

  function Head(results: seq<int>): int
  {
    if |results| > 0 then results[0] else 0
  }

  /**
   * What __hgrnic_write_mtt sends for `list` starting at MTT index `start`
   * with mailbox contents `prev`, the k-th command completing with
   * results[k] (0 past the end): the error returned, the commands issued
   * and the final mailbox. Each command's count is the number of entries
   * its mailbox holds (MailboxCount); the source passes `list_len`, the
   * number still to write, instead (CountsAsWritten).
   */
  function WriteMttSpec(prev: seq<nat>, start: nat, list: seq<nat>, results: seq<int>): (r: (int, seq<MttCommand>, seq<nat>))
    requires |prev| == MAILBOX_WORDS
    ensures |r.2| == MAILBOX_WORDS
    ensures forall c :: c in r.1 ==> |c.words| == MAILBOX_WORDS && c.count <= MTT_PER_MAILBOX
    decreases |list|
  {
    if |list| == 0 then (0, [], prev)
    else
      var i := Stride(|list|);
      var w := Filled(prev, start, list, i);
      var c := MttCommand(MailboxCount(|list|), w);
      if Head(results) != 0 then (Head(results), [c], w)
      else if i >= |list| then (0, [c], w)
      else
        var rest := WriteMttSpec(w, start + i, list[i..], Tail(results));
        (rest.0, [c] + rest.1, rest.2)
  }

  /** Writing one group of four entry slots extends the filled prefix by four. */
  lemma FilledStep(prev: seq<nat>, start: nat, l: seq<nat>, i: nat)
    requires |prev| == MAILBOX_WORDS && i % 4 == 0 && i < MTT_PER_MAILBOX && i < |l|
    ensures Filled(prev, start, l, i + 4) == Filled(prev, start, l, i)
      [i + 4 := if i + 3 < |l| then l[i + 3] else 0]
      [i + 5 := if i + 2 < |l| then l[i + 2] else 0]
      [i + 6 := if i + 1 < |l| then l[i + 1] else 0]
      [i + 7 := l[i]]
  {
    var q := i / 4;
    assert i == 4 * q;
    DivModUnique(i, 4, q, 0);
    DivModUnique(i + 1, 4, q, 1);
    DivModUnique(i + 2, 4, q, 2);
    DivModUnique(i + 3, 4, q, 3);
  }

  /**
   * One pass of the loop body of __hgrnic_write_mtt: the header words and
   * the entries list[off..] in reversed groups of four, as far as the
   * mailbox holds them. Returns the final `i`.
   */
  method FillMailbox(mbox: array<nat>, startIndex: nat, list: seq<nat>, off: nat) returns (i: nat)
    requires mbox.Length == MAILBOX_WORDS && off < |list|
    modifies mbox
    ensures i == Stride(|list| - off)
    ensures mbox[..] == Filled(old(mbox[..]), startIndex, list[off..], i)
  {
    ghost var prev := mbox[..];
    ghost var l := list[off..];
    var listLen := |list| - off;
    mbox[0] := 0;
    mbox[1] := 0;
    mbox[2] := 0;
    mbox[3] := startIndex;
    i := 0;
    while i < listLen && i < MTT_PER_MAILBOX
      invariant i <= Stride(|l|) && i % 4 == 0
      invariant mbox[..] == Filled(prev, startIndex, l, i)
    {
      ghost var before := mbox[..];
      var a := if i + 3 < listLen then list[off + i + 3] else 0;
      var b := if i + 2 < listLen then list[off + i + 2] else 0;
      var c := if i + 1 < listLen then list[off + i + 1] else 0;
      mbox[i + 4] := a;
      mbox[i + 5] := b;
      mbox[i + 6] := c;
      mbox[i + 7] := list[off + i];
      assert mbox[..] == before[i + 4 := a][i + 5 := b][i + 6 := c][i + 7 := l[i]];
      FilledStep(prev, startIndex, l, i);
      StrideStep(|l|, i);
      i := i + 4;
    }
  }

  /**
   * __hgrnic_write_mtt on the mailbox `mbox`; `mailboxOk` false stands for
   * a failed hgrnic_alloc_mailbox, which is returned with nothing sent.
   */
  method WriteMtt(mbox: array<nat>, mailboxOk: bool, start: nat, list: seq<nat>, results: seq<int>)
      returns (err: int, sent: seq<MttCommand>)
    requires mbox.Length == MAILBOX_WORDS
    modifies mbox
    ensures !mailboxOk ==> err == -ENOMEM && sent == [] && mbox[..] == old(mbox[..])
    ensures mailboxOk ==> (err, sent, mbox[..]) == WriteMttSpec(old(mbox[..]), start, list, results)
  {
    if !mailboxOk {
      return -ENOMEM, [];
    }
    ghost var spec := WriteMttSpec(mbox[..], start, list, results);
    var listLen: int := |list|;
    var off: nat := 0;
    var startIndex: nat := start;
    var k: nat := 0;
    err, sent := 0, [];
    assert list[0..] == list;
    assert Drop(results, 0) == results;
    assert [] + spec.1 == spec.1;
    while listLen > 0
      invariant listLen > 0 ==> off + listLen == |list|
      invariant listLen > 0 ==> (var rest := WriteMttSpec(mbox[..], startIndex, list[off..], Drop(results, k));
        spec == (rest.0, sent + rest.1, rest.2))
      invariant listLen <= 0 ==> spec == (0, sent, mbox[..])
      decreases listLen
    {
      ghost var l := list[off..];
      ghost var prev := mbox[..];
      ghost var rest0 := WriteMttSpec(prev, startIndex, l, Drop(results, k));
      var i := FillMailbox(mbox, startIndex, list, off);
      var c := MttCommand(MailboxCount(listLen), mbox[..]);
      var r := if k < |results| then results[k] else 0;
      assert r == Head(Drop(results, k));
      assert Tail(Drop(results, k)) == Drop(results, k + 1);
      SpecStep(prev, startIndex, l, Drop(results, k), i, c);
      ghost var before := sent;
      sent := sent + [c];
      if r != 0 {
        return r, sent;
      }
      if i < listLen {
        assert l[i..] == list[off + i..];
        ghost var rest1 := WriteMttSpec(mbox[..], startIndex + i, l[i..], Drop(results, k + 1));
        assert before + ([c] + rest1.1) == sent + rest1.1;
      }
      listLen := listLen - i;
      startIndex := startIndex + i;
      off := off + i;
      k := k + 1;
    }
  }

  /**
   * One command of WriteMttSpec: the mailbox filled from the list's head,
   * then the command's result decides whether the rest of the list follows.
   */
  lemma SpecStep(prev: seq<nat>, start: nat, l: seq<nat>, results: seq<int>, i: nat, c: MttCommand)
    requires |prev| == MAILBOX_WORDS && |l| > 0 && i == Stride(|l|)
    requires c == MttCommand(MailboxCount(|l|), Filled(prev, start, l, i))
    ensures Head(results) != 0 ==> WriteMttSpec(prev, start, l, results) == (Head(results), [c], c.words)
    ensures Head(results) == 0 && i >= |l| ==> WriteMttSpec(prev, start, l, results) == (0, [c], c.words)
    ensures Head(results) == 0 && i < |l| ==>
      var rest := WriteMttSpec(c.words, start + i, l[i..], Tail(results));
      WriteMttSpec(prev, start, l, results) == (rest.0, [c] + rest.1, rest.2)
  {
  }

  /** Reversing a group of four twice gives the identity. */
  lemma SlotEntryInvolution(e: nat)
    ensures SlotEntry(SlotEntry(e)) == e
  {
    var j := SlotEntry(e);
    var e' := SlotEntry(j);
    assert e == 4 * (e / 4) + e % 4 && e' == 4 * (e' / 4) + e' % 4;
  }

  /**
   * The first n entries read back from a mailbox the way the layout stores
   * them: entry e sits in word 4 + (its slot), the slots of a group of four
   * in reverse order.
   */
  function Unpack(words: seq<nat>, n: nat): (r: seq<nat>)
    requires |words| == MAILBOX_WORDS && n <= MTT_PER_MAILBOX
    ensures |r| == n
  {
    seq(n, e requires 0 <= e < n => words[4 + SlotEntry(e)])
  }

  /** The entries one mailbox holds when n are still to write: n, capped at 508. */
  function MailboxCount(n: nat): nat
  {
    if n < MTT_PER_MAILBOX then n else MTT_PER_MAILBOX
  }

  /**
   * The mailbox layout: header words 0, 0, 0, start; reading the entries
   * back gives the first min(|l|, 508) entries of the list; the slots of a
   * last partial group are zero; words past the filled groups keep their
   * earlier contents.
   */
  lemma MailboxLayout(prev: seq<nat>, start: nat, l: seq<nat>)
    requires |prev| == MAILBOX_WORDS && |l| > 0
    ensures var w := Filled(prev, start, l, Stride(|l|));
      var n := if |l| < MTT_PER_MAILBOX then |l| else MTT_PER_MAILBOX;
      w[..4] == [0, 0, 0, start]
      && Unpack(w, n) == l[..n]
      && (forall j :: 0 <= j < Stride(|l|) && SlotEntry(j) >= |l| ==> w[4 + j] == 0)
      && (forall k :: 4 + Stride(|l|) <= k < MAILBOX_WORDS ==> w[k] == prev[k])
  {
    var w := Filled(prev, start, l, Stride(|l|));
    var n := if |l| < MTT_PER_MAILBOX then |l| else MTT_PER_MAILBOX;
    forall e | 0 <= e < n
      ensures Unpack(w, n)[e] == l[e]
    {
      var j := SlotEntry(e);
      SlotEntryInvolution(e);
      SlotInStride(e, |l|);
    }
  }

  /** The slot of an entry below min(len, 508) is among the slots filled for len. */
  lemma SlotInStride(e: nat, len: nat)
    requires e < len && e < MTT_PER_MAILBOX
    ensures SlotEntry(e) < Stride(len)
  {
    var j := SlotEntry(e);
    var q := e / 4;
    assert j <= 4 * q + 3;
    if len < MTT_PER_MAILBOX {
      var t := (len + 3) / 4;
      assert Stride(len) == t * 4;
      assert q < t by {
        if q >= t {
          MulMonotone(q, t, 4);
        }
      }
      MulMonotone(t, q + 1, 4);
    } else {
      assert q <= 126;
    }
  }

  /** The entries all commands carry, in order, each command contributing what its mailbox holds. */
  function Delivered(cmds: seq<MttCommand>): seq<nat>
    requires forall c :: c in cmds ==> |c.words| == MAILBOX_WORDS && c.count <= MTT_PER_MAILBOX
  {
    if |cmds| == 0 then []
    else Unpack(cmds[0].words, cmds[0].count) + Delivered(cmds[1..])
  }

  function CountSum(cmds: seq<MttCommand>): nat
  {
    if |cmds| == 0 then 0 else cmds[0].count + CountSum(cmds[1..])
  }


  /**
   * When every WRITE_MTT succeeds, the entries the mailboxes hold, read
   * back in command order, are exactly the list, and their numbers add up
   * to its length.
   */
  lemma {:induction false} WriteMttDelivers(prev: seq<nat>, start: nat, list: seq<nat>)
    requires |prev| == MAILBOX_WORDS
    ensures var r := WriteMttSpec(prev, start, list, []);
      r.0 == 0 && Delivered(r.1) == list && CountSum(r.1) == |list|
    decreases |list|
  {
    if |list| > 0 {
      var i := Stride(|list|);
      var w := Filled(prev, start, list, i);
      MailboxLayout(prev, start, list);
      if i < |list| {
        WriteMttDelivers(w, start + i, list[i..]);
        var r := WriteMttSpec(prev, start, list, []);
        assert r.1[1..] == WriteMttSpec(w, start + i, list[i..], []).1;
        assert list == list[..i] + list[i..];
      } else {
        assert list[..|list|] == list;
      }
    }
  }

  /**
   * The counts __hgrnic_write_mtt passes as written: list_len, the number of
   * entries still to write, for each command, n being the list's length and
   * cmds the commands with the entries each mailbox holds.
   */
  function CountsAsWritten(n: nat, cmds: seq<MttCommand>): (counts: seq<nat>)
    ensures |counts| == |cmds|
  {
    if |cmds| == 0 then []
    else [n] + CountsAsWritten(if cmds[0].count <= n then n - cmds[0].count else 0, cmds[1..])
  }

  function Sum(xs: seq<nat>): nat
  {
    if |xs| == 0 then 0 else xs[0] + Sum(xs[1..])
  }

  /**
   * As written, the count of each WRITE_MTT is the number of entries still
   * to write, not the number in the mailbox: for a list longer than 508
   * entries the first command announces more entries than its mailbox
   * holds, and the counts add up to more than the list. A 512-entry list
   * (one page of addresses, as hgrnic_reg_user_mr passes it) gives
   * commands of 512 and 4 where the mailboxes hold 508 and 4.
   */
  lemma WriteMttOvercounts(prev: seq<nat>, start: nat, list: seq<nat>)
    requires |prev| == MAILBOX_WORDS && |list| > MTT_PER_MAILBOX
    ensures var r := WriteMttSpec(prev, start, list, []);
      var a := CountsAsWritten(|list|, r.1);
      |r.1| >= 2 && a[0] == |list| > r.1[0].count && Sum(a) > |list|
    ensures |list| == 512 ==> (var r := WriteMttSpec(prev, start, list, []);
      CountsAsWritten(512, r.1) == [512, 4] && r.1[0].count == 508 && r.1[1].count == 4)
  {
    var r := WriteMttSpec(prev, start, list, []);
    var w := Filled(prev, start, list, MTT_PER_MAILBOX);
    var r2 := WriteMttSpec(w, start + MTT_PER_MAILBOX, list[MTT_PER_MAILBOX..], []);
    assert r.1 == [MttCommand(MTT_PER_MAILBOX, w)] + r2.1;
    assert |r2.1| >= 1;
    var a := CountsAsWritten(|list|, r.1);
    assert a == [|list|] + CountsAsWritten(|list| - MTT_PER_MAILBOX, r2.1);
    if |list| == 512 {
      assert r2.1 == [MttCommand(4, Filled(w, start + MTT_PER_MAILBOX, list[MTT_PER_MAILBOX..], 4))];
    }
  }

  // ---------------------------------------------------------------------
  // MPT keys: hgrnic_mr_alloc, hgrnic_free_mr, hgrnic_init_mr_table.

  /** HGRNIC_MPT_FLAG_SW_OWNS | HGRNIC_MPT_FLAG_MIO | HGRNIC_MPT_FLAG_REGION. */
  const MPT_FIXED_FLAGS: nat := BitOr(BitOr(Shl(15, 28), Shl(1, 17)), Shl(1, 8))

  /** The fixed flags OR-ed with the access bits. */
  function MptFlags(access: nat): nat
  {
    BitOr(MPT_FIXED_FLAGS, access)
  }

  lemma SwOwnsMioTest(n: nat)
    ensures TestBit(BitOr(Shl(15, 28), Shl(1, 17)), n) <==> (28 <= n < 32 || n == 17)
  {
    BitOrTest(Shl(15, 28), Shl(1, 17), n);
    ShlTest(15, 28, n);
    ShlTest(1, 17, n);
    if n >= 28 {
      NibbleTest(n - 28);
    }
    if n >= 17 {
      Pow2Test(0, n - 17);
    }
  }

  lemma FixedFlagsTest(n: nat)
    ensures TestBit(MPT_FIXED_FLAGS, n) <==> (28 <= n < 32 || n == 17 || n == 8)
  {
    BitOrTest(BitOr(Shl(15, 28), Shl(1, 17)), Shl(1, 8), n);
    SwOwnsMioTest(n);
    ShlTest(1, 8, n);
    if n >= 8 {
      Pow2Test(0, n - 8);
    }
  }

  /** The MPT flags word: bits 28-31, 17 and 8 set, plus exactly the access bits. */
  lemma MptFlagsTest(access: nat, n: nat)
    ensures TestBit(MptFlags(access), n) <==> (28 <= n < 32 || n == 17 || n == 8 || TestBit(access, n))
  {
    BitOrTest(MPT_FIXED_FLAGS, access, n);
    FixedFlagsTest(n);
  }

  /** struct hgrnic_mpt_entry as hgrnic_mr_alloc fills it (byte order aside). */
  datatype MptEntry = MptEntry(
    flags: nat, pageSize: nat, key: nat, pd: nat, start: nat, length: nat,
    lkey: nat, windowCount: nat, windowCountLimit: nat, mttSeg: nat, mttSz: nat)

  /**
   * The entry written to the mailbox: flags, page size 1 << shift (a u32),
   * key, pd, start and length; everything from lkey on zeroed, then mtt_seg
   * set to the first MTT index when the region has an MTT.
   */
  function MptFor(key: nat, pd: nat, shift: nat, iova: nat, total: nat, access: nat, mtt: Option<Mtt>): MptEntry
  {
    MptEntry(MptFlags(access), Pow2(shift) % U32, key, pd, iova, total, 0, 0, 0,
      if mtt.Some? then mtt.value.firstIndex else 0, 0)
  }

  /** What the MPT entry says: the fixed flags and the access bits, 2^shift pages, the MTT start or 0. */
  lemma MptForFacts(key: nat, pd: nat, shift: nat, iova: nat, total: nat, access: nat, mtt: Option<Mtt>)
    ensures var e := MptFor(key, pd, shift, iova, total, access, mtt);
      e.key == key && e.pd == pd && e.start == iova && e.length == total
      && e.lkey == 0 && e.windowCount == 0 && e.windowCountLimit == 0 && e.mttSz == 0
      && e.mttSeg == (if mtt.Some? then mtt.value.firstIndex else 0)
      && (forall n: nat :: TestBit(e.flags, n) <==> (28 <= n < 32 || n == 17 || n == 8 || TestBit(access, n)))
      && (shift < 32 ==> e.pageSize == Pow2(shift))
  {
    forall n: nat
      ensures TestBit(MptFlags(access), n) <==> (28 <= n < 32 || n == 17 || n == 8 || TestBit(access, n))
    {
      MptFlagsTest(access, n);
    }
    if shift < 32 {
      PageSizeFits(shift);
    }
  }

  lemma PageSizeFits(shift: nat)
    requires shift < 32
    ensures Pow2(shift) % U32 == Pow2(shift)
  {
    Pow2Of32();
    Pow2Monotone(shift + 1, 32);
  }

  /**
   * hgrnic_mr_alloc. Outcomes of the steps that can fail are parameters:
   * `regOk` for hgrnic_reg_icm (which reports every failure as -ENOMEM),
   * `mailboxOk` for hgrnic_alloc_mailbox and `cmdErr` for SW2HW_MPT.
   * Returns the error, the key, the MPT entry sent, and whether the key's
   * ICM entry is still registered. A key equal to -1 is taken as "no key",
   * even when the allocator did set a bit for it.
   */
  method MrAlloc(mpt: NumAllocator, pd: nat, shift: nat, iova: nat, total: nat, access: nat,
                 mtt: Option<Mtt>, regOk: bool, mailboxOk: bool, cmdErr: int)
      returns (err: int, key: nat, entry: Option<MptEntry>, icmHeld: bool)
    requires mpt.Valid()
    modifies mpt, mpt.table
    ensures mpt.Valid() && mpt.table == old(mpt.table) && mpt.max == old(mpt.max) && mpt.mask == old(mpt.mask)
    ensures var k := ChosenBit(old(mpt.Bits()), old(mpt.last));
      if k == mpt.max then
        err == -ENOMEM && key == U32_ALL_ONES && mpt.Bits() == old(mpt.Bits()) && !icmHeld && entry.None?
      else if key == U32_ALL_ONES then
        err == -ENOMEM && mpt.Bits() == old(mpt.Bits())[k := true] && !icmHeld && entry.None?
      else if !regOk || !mailboxOk || cmdErr != 0 then
        err == (if regOk && mailboxOk then cmdErr else -ENOMEM)
        && mpt.Bits() == old(mpt.Bits()) && !icmHeld && entry.None?
        && mpt.last == (if k + 1 == mpt.max then 0 else k + 1)
      else
        err == 0 && icmHeld && key % mpt.max == k && mpt.Bits() == old(mpt.Bits())[k := true]
        && entry == Some(MptFor(key, pd, shift, iova, total, access, mtt))
  {
    ghost var bits0 := mpt.Bits();
    ghost var last0 := mpt.last;
    AllocStepFacts(bits0, last0, mpt.top, mpt.mask);
    key := mpt.Alloc();
    entry, icmHeld := None, false;
    if key == U32_ALL_ONES {
      return -ENOMEM, key, None, false;
    }
    if !regOk {
      err := -ENOMEM;
    } else if !mailboxOk {
      err := -ENOMEM;
    } else if cmdErr != 0 {
      err := cmdErr;
    } else {
      return 0, key, Some(MptFor(key, pd, shift, iova, total, access, mtt)), true;
    }
    ghost var top1 := mpt.top;
    ghost var k := ChosenBit(bits0, last0);
    mpt.Free(key);
    AllocFreeRestores(bits0, last0, top1);
  }

  /**
   * hgrnic_free_mr: HW2SW_MPT (its failure is only logged), the key's ICM
   * entry unregistered and the key freed, then the MTT range freed.
   */
  method FreeMr(mpt: NumAllocator, buddy: BuddyAllocator, lkey: nat, mtt: Option<Mtt>)
    requires mpt.Valid() && buddy.Valid() && lkey < U32
    requires mtt.Some? ==> (mtt.value.order <= buddy.maxOrder
      && Shr(mtt.value.firstIndex, mtt.value.order) < |buddy.bits[mtt.value.order]|
      && Vacant(buddy.bits, mtt.value.order, Shr(mtt.value.firstIndex, mtt.value.order)))
    modifies mpt, mpt.table, buddy
    ensures mpt.Valid() && buddy.Valid() && mpt.max == old(mpt.max) && mpt.mask == old(mpt.mask)
    ensures mpt.Bits() == old(mpt.Bits())[lkey % mpt.max := false] && mpt.last == old(mpt.last)
    ensures mpt.top == NextTop(old(mpt.top), mpt.max, mpt.mask)
    ensures mtt.None? ==> buddy.bits == old(buddy.bits)
    ensures mtt.Some? ==> buddy.bits == MergeUp(old(buddy.bits), mtt.value.order, Shr(mtt.value.firstIndex, mtt.value.order))
  {
    mpt.Free(lkey);
    FreeMtt(buddy, mtt);
  }

  /** fls: the position of the highest set bit, counting from 1; 0 for 0. */
  function Fls(x: nat): nat
  {
    if x == 0 then 0 else 1 + Fls(x / 2)
  }

  /** fls(n - 1) is the order of the smallest power of two holding n. */
  lemma {:induction false} FlsIsCeilLog2(n: nat)
    requires n >= 1
    ensures Fls(n - 1) == CeilLog2(n)
    decreases n
  {
    if n >= 2 {
      FlsIsCeilLog2((n + 1) / 2);
      assert (n - 1) / 2 == (n + 1) / 2 - 1;
    }
  }

  /**
   * hgrnic_init_mr_table: the MPT key allocator over num_mpts keys with
   * mask ~0, then the MTT buddy allocator of order fls(num_mtt_segs - 1);
   * when the buddy cannot be built, the key allocator is dropped again and
   * the buddy's error returned.
   */
  method InitMrTable(numMpts: nat, numMttSegs: nat, allocOk: bool, tablesOk: bool, levelOk: seq<bool>)
      returns (err: int, mpt: NumAllocator?, buddy: BuddyAllocator?)
    requires numMpts < U32 && 1 <= numMttSegs <= Pow2(30)
    requires |levelOk| == CeilLog2(numMttSegs) + 1
    ensures err == 0 <==> mpt != null && buddy != null
    ensures err != 0 ==> mpt == null && buddy == null
    ensures !IsPow2(numMpts) ==> err == -EINVAL
    ensures IsPow2(numMpts) && !allocOk ==> err == -ENOMEM
    ensures err == 0 ==> (fresh(mpt) && mpt.Valid() && mpt.max == numMpts && mpt.mask == U32_ALL_ONES
      && fresh(buddy) && buddy.Valid() && buddy.maxOrder == CeilLog2(numMttSegs) && Pow2(buddy.maxOrder) >= numMttSegs
      && buddy.bits == InitialBits(buddy.maxOrder))
    ensures err == 0 <==> IsPow2(numMpts) && allocOk && tablesOk && forall i :: 0 <= i < |levelOk| ==> levelOk[i]
  {
    Pow2Of32();
    Pow2IsPow2(32);
    err, mpt := AllocInit(numMpts, U32_ALL_ONES, allocOk);
    if err != 0 {
      return err, null, null;
    }
    FlsIsCeilLog2(numMttSegs);
    CeilLog2Least(numMttSegs, 30);
    CeilLog2Covers(numMttSegs);
    err, buddy := BuddyInit(Fls(numMttSegs - 1), tablesOk, levelOk);
    if err != 0 {
      mpt := null;
    }
  }
}
