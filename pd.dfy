/**
 * Protection domains (hgrnic_pd.c).  A PD number comes from the PD table's
 * NumAllocator, created with the 24-bit mask of PD numbers, and goes back to
 * it when the PD is freed.
 */
module Pd {
  import opened Common
  import opened Allocator

  /** (1 << 24) - 1: the mask of the PD table's generation prefix. */
  const PD_MASK: nat := 0xFF_FFFF

  /** struct hgrnic_pd: the number handed out and the privileged flag. */
  datatype ProtDomain = ProtDomain(pdNum: nat, privileged: bool)

  /**
   * hgrnic_pd_alloc: the flag is recorded, the number is the allocator's,
   * and an allocator answer of -1 (all ones as a u32) gives -ENOMEM.
   */
  method PdAlloc(alloc: NumAllocator, privileged: bool) returns (err: int, pd: ProtDomain)
    requires alloc.Valid()
    modifies alloc, alloc.table
    ensures alloc.Valid() && alloc.table == old(alloc.table) && alloc.max == old(alloc.max) && alloc.mask == old(alloc.mask)
    ensures AllocState(pd.pdNum, alloc.Bits(), alloc.last, alloc.top)
      == AllocStep(old(alloc.Bits()), old(alloc.last), old(alloc.top), alloc.mask)
    ensures pd.privileged == privileged
    ensures err == (if pd.pdNum == U32_ALL_ONES then -ENOMEM else 0)
  {
    var n := alloc.Alloc();
    pd := ProtDomain(n, privileged);
    err := if n == U32_ALL_ONES then -ENOMEM else 0;
  }

  /** hgrnic_pd_free: the PD's own number goes back to the allocator. */
  method PdFree(alloc: NumAllocator, pd: ProtDomain)
    requires alloc.Valid() && pd.pdNum < U32
    modifies alloc, alloc.table
    ensures alloc.Valid() && alloc.table == old(alloc.table) && alloc.max == old(alloc.max) && alloc.mask == old(alloc.mask)
    ensures alloc.last == old(alloc.last) && alloc.top == NextTop(old(alloc.top), alloc.max, alloc.mask)
    ensures alloc.Bits() == old(alloc.Bits())[pd.pdNum % alloc.max := false]
  {
    alloc.Free(pd.pdNum);
  }

  /** hgrnic_init_pd_table: an allocator of num_pds numbers under the 24-bit mask. */
  method InitPdTable(numPds: nat, kmallocOk: bool) returns (err: int, alloc: NumAllocator?)
    requires numPds < U32
    ensures err == 0 || err == -EINVAL || err == -ENOMEM
    ensures err == -EINVAL <==> !IsPow2(numPds)
    ensures err == -ENOMEM <==> IsPow2(numPds) && !kmallocOk
    ensures err == 0 <==> alloc != null
    ensures alloc != null ==> (fresh(alloc) && alloc.Valid() && alloc.max == numPds && alloc.mask == PD_MASK
      && alloc.last == 0 && alloc.top == 0 && alloc.Bits() == seq(numPds, _ => false))
  {
    PdMaskIsLow();
    err, alloc := AllocInit(numPds, PD_MASK, kmallocOk);
  }

  lemma PdMaskIsLow()
    ensures LowMask(PD_MASK) && Pow2(24) == PD_MASK + 1
  {
    assert Pow2(8) == 256;
    Pow2Add(8, 8);
    Pow2Add(16, 8);
    Pow2IsPow2(24);
  }

  /**
   * With at most 2^24 PDs, every number pd_alloc hands out fits the mask, so
   * pd_alloc fails with -ENOMEM exactly when every PD number is in use.
   * Otherwise the number's low bits name the bit it took.
   */
  lemma PdAllocFailsOnlyWhenFull(s: seq<bool>, last: nat, top: nat)
    requires AllocOk(|s|, last, top, PD_MASK) && |s| <= PD_MASK + 1
    ensures var r := AllocStep(s, last, top, PD_MASK);
      (r.obj == U32_ALL_ONES <==> forall j :: 0 <= j < |s| ==> s[j])
      && (r.obj != U32_ALL_ONES ==> r.obj <= PD_MASK && r.obj % |s| == ChosenBit(s, last))
  {
    PdMaskIsLow();
    AllocStepFacts(s, last, top, PD_MASK);
    var r := AllocStep(s, last, top, PD_MASK);
    var k := ChosenBit(s, last);
    if k < |s| {
      Log2Below(|s|, 25) by {
        Pow2Add(24, 1);
      }
      Pow2Divides(Log2(|s|), 24);
      if r.top < PD_MASK + 1 {
        MultipleGap(r.top, PD_MASK + 1, |s|);
      }
    }
  }
}
