/**
 * The firmware command layer (hgrnic_cmd.c) where it works step by step:
 * filling the MAP_ICM mailbox and sending it whenever it is full. What
 * each command answers is the parameter cmdErr: the k-th command sent
 * returns cmdErr(k).
 */
module Cmd {
  import opened Common
  import IcmSpec
  import opened CmdSpec
  import opened Bytes
  import Profile

  /**
   * hgrnic_MAP_ICM: map the scatter list of an ICM area at device-virtual
   * address virt, 256 entries per command. mailboxOk says whether the
   * mailbox could be allocated.
   */
  method MapIcm(sg: seq<IcmSpec.SgEntry>, virt: nat, mailboxOk: bool, cmdErr: nat -> int)
    returns (err: int, sent: seq<MapCmd>)
    ensures !mailboxOk ==> err == -ENOMEM && sent == []
    ensures mailboxOk ==> MapIcmSends(sg, virt, cmdErr, err, sent)
  {
    sent := [];
    if !mailboxOk {
      return -ENOMEM, [];
    }
    var pages := new nat[MAILBOX_WORDS](_ => 0);
    var nent: nat := 1;
    var v: nat := virt;
    ghost var es: seq<MapEntry> := [];
    ghost var c: nat := 0;
    var j := 0;
    while j < |sg|
      invariant j <= |sg| && pages.Length == MAILBOX_WORDS
      invariant Expand(sg[..j], virt) == Expansion(es, true, v)
      invariant Filling(pages[..], c, es, sent, cmdErr, nent)
    {
      var e := sg[j];
      var x := BitOr(e.addr, e.len);
      var lg: int := if x == 0 then -1 else TrailingZeros(x);
      if lg < PAGE_SHIFT {
        MapIcmRejects(sg, j, virt, cmdErr, pages[..], c, es, v, sent);
        return -EINVAL, sent;
      }
      if lg > MAX_PAGE_LOG {
        lg := MAX_PAGE_LOG;
      }
      assert Paging(sg, j, virt, es, v, 0, es, v);
      err, nent, v, sent, es, c := MapPages(pages, sg, j, virt, lg, nent, v, sent, cmdErr, es, c);
      if err != 0 {
        return;
      }
      j := j + 1;
    }
    assert sg[..j] == sg;
    SlotBack(c);
    nent := if nent % 2 == 0 then nent + 1 else nent - 1;
    if nent != 0 {
      MapIcmFinish(sg, virt, cmdErr, pages[..], c, sent);
      err := cmdErr(|sent|);
      sent := sent + [MapCmd(nent, pages[..])];
    } else {
      MapIcmFinishEmpty(sg, virt, cmdErr, pages[..], sent);
      err := 0;
    }
  }

  /**
   * The inner loop of hgrnic_MAP_ICM over the pages of scatter entry j,
   * of size 2^lg each: each page goes into the next slot, and a full
   * mailbox is sent at once. A failing command ends MAP_ICM with its error.
   */
  method MapPages(pages: array<nat>, sg: seq<IcmSpec.SgEntry>, j: nat, virt: nat, lg: nat,
                  nent0: nat, v0: nat, sent0: seq<MapCmd>, cmdErr: nat -> int, ghost es0: seq<MapEntry>, ghost c0: nat)
    returns (err: int, nent: nat, v: nat, sent: seq<MapCmd>, ghost es: seq<MapEntry>, ghost c: nat)
    requires Paging(sg, j, virt, es0, v0, 0, es0, v0) && lg == PageLog(sg[j])
    requires pages.Length == MAILBOX_WORDS
    requires Filling(pages[..], c0, es0, sent0, cmdErr, nent0)
    modifies pages
    ensures err != 0 ==> MapIcmSends(sg, virt, cmdErr, err, sent)
    ensures err == 0 ==> Expand(sg[..j + 1], virt) == Expansion(es, true, v)
    ensures err == 0 ==> Filling(pages[..], c, es, sent, cmdErr, nent)
  {
    var e := sg[j];
    nent, v, sent, es, c := nent0, v0, sent0, es0, c0;
    var i := 0;
    while i < Shr(e.len, lg)
      invariant Paging(sg, j, virt, es0, v0, i, es, v)
      invariant Filling(pages[..], c, es, sent, cmdErr, nent)
    {
      PagingStep(sg, j, virt, es0, v0, i, es, v);
      var phys := PagePhys(e, lg, i, v0, v);
      var sent';
      err, nent, sent', es, c := AddPage(pages, nent, v, phys, sent, cmdErr, es, c);
      v := v + Pow2(lg);
      i := i + 1;
      if err != 0 {
        PagingPrefix(sg, j, virt, es0, v0, i, es, v);
        MapIcmFails(sg, virt, cmdErr, pages[..], es, sent, err, sent');
        return err, nent, v, sent', es, c;
      }
      sent := sent';
    }
    PagingDone(sg, j, virt, es0, v0, i, es, v);
    err := 0;
  }

  /**
   * The physical word of page i of a scatter entry: its address plus i
   * pages of 2^lg bytes, OR-ed with the page count 2^(lg - 12).
   */
  method PagePhys(e: IcmSpec.SgEntry, lg: nat, i: nat, v0: nat, v: nat) returns (phys: nat)
    requires lg >= PAGE_SHIFT && i < Shr(e.len, lg) && v == v0 + i * Pow2(lg)
    ensures Pages(e, lg, v0)[i] == MapEntry(v, phys)
  {
    phys := BitOr(e.addr + Shl(i, lg), Pow2(lg - PAGE_SHIFT));
    PageAt(e, lg, v0, i);
  }

  /**
   * One page of the inner loop of hgrnic_MAP_ICM: write it into slot nent,
   * step nent, and send the mailbox when it is full.
   */
  method AddPage(pages: array<nat>, nent0: nat, virt: nat, phys: nat, sent0: seq<MapCmd>, cmdErr: nat -> int,
                 ghost es0: seq<MapEntry>, ghost c0: nat)
    returns (err: int, nent: nat, sent: seq<MapCmd>, ghost es: seq<MapEntry>, ghost c: nat)
    requires pages.Length == MAILBOX_WORDS && Filling(pages[..], c0, es0, sent0, cmdErr, nent0)
    modifies pages
    ensures es == es0 + [MapEntry(virt, phys)]
    ensures err == 0 ==> Filling(pages[..], c, es, sent, cmdErr, nent)
    ensures err != 0 ==> err == cmdErr(|sent0|) && Holds(pages[..], MAILBOX_ENTRIES, es, sent0, cmdErr)
                         && sent == sent0 + [MapCmd(MAILBOX_ENTRIES, pages[..])]
  {
    ghost var m := MapEntry(virt, phys);
    ghost var ws: seq<nat> := pages[..];
    pages[nent0 * 2] := virt;
    pages[nent0 * 2 + 1] := phys;
    assert pages[..] == ws[2 * nent0 := m.virt][2 * nent0 + 1 := m.phys];
    nent := if nent0 % 2 == 0 then nent0 + 3 else nent0 - 1;
    FillStep(ws, pages[..], c0, es0, sent0, cmdErr, nent0, nent, m);
    es, c, sent, err := es0 + [m], c0 + 1, sent0, 0;
    if nent >= MAILBOX_ENTRIES {
      err := cmdErr(|sent0|);
      sent := sent0 + [MapCmd(nent - 1, pages[..])];
      if err == 0 {
        FillAgain(pages[..], es, sent0, cmdErr);
        nent, c := 1, 0;
      }
    }
  }

  /**
   * hgrnic_INIT_HCA on the mailbox buffer: clear its first 0x40 bytes, PUT
   * the bases and logs in the source's order and send the block; bytes past
   * 0x40 keep whatever the buffer held. Without a mailbox nothing is
   * written and the command is not sent.
   */
  method InitHca(p: Profile.HcaProfile, mailboxOk: bool, cmdErr: int, mailbox: array<Byte>) returns (err: int)
    requires mailbox.Length == MAILBOX_SIZE
    modifies mailbox
    ensures !mailboxOk ==> err == -ENOMEM && mailbox[..] == old(mailbox[..])
    ensures mailboxOk ==> err == cmdErr && mailbox[..] == HcaImage(p) + old(mailbox[INIT_HCA_IN_SIZE..])
  {
    if !mailboxOk {
      return -ENOMEM;
    }
    ghost var rest := mailbox[INIT_HCA_IN_SIZE..];
    forall k | 0 <= k < INIT_HCA_IN_SIZE {
      mailbox[k] := 0;
    }
    ghost var z := Zeros(INIT_HCA_IN_SIZE);
    assert mailbox[..] == z + rest;
    Put(mailbox, 0x08, 8, p.qpcBase);
    Put(mailbox, 0x0f, 1, p.logNumQps);
    ghost var qp := BaseAndLog(z, 0x08, p.qpcBase, p.logNumQps);
    assert mailbox[..] == qp + rest by {
      BaseAndLogHead(z, rest, 0x08, p.qpcBase, p.logNumQps);
    }
    Put(mailbox, 0x10, 8, p.cqcBase);
    Put(mailbox, 0x17, 1, p.logNumCqs);
    ghost var cq := BaseAndLog(qp, 0x10, p.cqcBase, p.logNumCqs);
    assert mailbox[..] == cq + rest by {
      BaseAndLogHead(qp, rest, 0x10, p.cqcBase, p.logNumCqs);
    }
    Put(mailbox, 0x18, 8, p.eqcBase);
    Put(mailbox, 0x1f, 1, p.logNumEqs);
    ghost var eq := BaseAndLog(cq, 0x18, p.eqcBase, p.logNumEqs);
    assert mailbox[..] == eq + rest by {
      BaseAndLogHead(cq, rest, 0x18, p.eqcBase, p.logNumEqs);
    }
    Put(mailbox, 0x30, 8, p.mptBase);
    Put(mailbox, 0x37, 1, p.logMptSz);
    ghost var mpt := BaseAndLog(eq, 0x30, p.mptBase, p.logMptSz);
    assert mailbox[..] == mpt + rest by {
      BaseAndLogHead(eq, rest, 0x30, p.mptBase, p.logMptSz);
    }
    Put(mailbox, 0x38, 8, p.mttBase);
    assert mailbox[..] == HcaImage(p) + rest by {
      SpliceHead(mpt, rest, 0x38, BE(p.mttBase, 8));
    }
    err := cmdErr;
  }

  /**
   * The host command register as the driver sees it: the seven words last
   * written, and whether the go bit reads as set. The firmware clears the
   * go bit when it has taken a command; that happens outside this model.
   */
  class Hcr {
    var words: seq<nat>
    var goBit: bool

    constructor ()
      ensures words == [0, 0, 0, 0, 0, 0, 0] && !goBit
    {
      words := [0, 0, 0, 0, 0, 0, 0];
      goBit := false;
    }

    /**
     * hgrnic_cmd_post_hcr: refuse with -EAGAIN while the firmware still owns
     * the register, otherwise write the command's words, the go bit last.
     */
    method Post(inParam: nat, outParam: nat, inMod: nat, opMod: nat, op: nat, token: nat) returns (err: int)
      modifies this
      ensures old(goBit) ==> err == -EAGAIN && words == old(words) && goBit
      ensures !old(goBit) ==> err == 0 && words == HcrWords(inParam, outParam, inMod, opMod, op, token) && goBit
    {
      if goBit {
        return -EAGAIN;
      }
      words := HcrWords(inParam, outParam, inMod, opMod, op, token);
      goBit := true;
      err := 0;
    }
  }
}
