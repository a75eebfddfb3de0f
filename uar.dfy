/**
 * User access regions (hgrnic_uar.c): doorbell pages of the device's BAR 2.
 * A UAR index comes from the UAR table's NumAllocator, whose mask is
 * num_uars - 1, and the page frame is the BAR's first frame plus the index.
 */
module Uar {
  import opened Common
  import opened Allocator

  /** struct hgrnic_uar: the page frame number and the index. */
  datatype UarPage = UarPage(pfn: nat, index: nat)

  /**
   * hgrnic_uar_alloc: the index is the allocator's, -1 gives -ENOMEM, and
   * the page frame is (start of BAR 2 >> PAGE_SHIFT) + index.  The BAR's
   * start address is a parameter.
   */
  method UarAlloc(alloc: NumAllocator, bar2Start: nat) returns (err: int, uar: UarPage)
    requires alloc.Valid()
    modifies alloc, alloc.table
    ensures alloc.Valid() && alloc.table == old(alloc.table) && alloc.max == old(alloc.max) && alloc.mask == old(alloc.mask)
    ensures AllocState(uar.index, alloc.Bits(), alloc.last, alloc.top)
      == AllocStep(old(alloc.Bits()), old(alloc.last), old(alloc.top), alloc.mask)
    ensures err == (if uar.index == U32_ALL_ONES then -ENOMEM else 0)
    ensures err == 0 ==> uar.pfn == Shr(bar2Start, PAGE_SHIFT) + uar.index
  {
    var n := alloc.Alloc();
    if n == U32_ALL_ONES {
      return -ENOMEM, UarPage(0, n);
    }
    uar := UarPage(Shr(bar2Start, PAGE_SHIFT) + n, n);
    err := 0;
  }

  /** hgrnic_uar_free: the UAR's own index goes back to the allocator. */
  method UarFree(alloc: NumAllocator, uar: UarPage)
    requires alloc.Valid() && uar.index < U32
    modifies alloc, alloc.table
    ensures alloc.Valid() && alloc.table == old(alloc.table) && alloc.max == old(alloc.max) && alloc.mask == old(alloc.mask)
    ensures alloc.last == old(alloc.last) && alloc.top == NextTop(old(alloc.top), alloc.max, alloc.mask)
    ensures alloc.Bits() == old(alloc.Bits())[uar.index % alloc.max := false]
  {
    alloc.Free(uar.index);
  }

  /**
   * hgrnic_init_uar_table: an allocator of num_uars indices under the mask
   * num_uars - 1.  A count that is not a power of two is refused (-EINVAL)
   * before the mask matters.
   */
  method InitUarTable(numUars: nat, kmallocOk: bool) returns (err: int, alloc: NumAllocator?)
    requires numUars < U32
    ensures err == 0 || err == -EINVAL || err == -ENOMEM
    ensures err == -EINVAL <==> !IsPow2(numUars)
    ensures err == -ENOMEM <==> IsPow2(numUars) && !kmallocOk
    ensures err == 0 <==> alloc != null
    ensures alloc != null ==> (fresh(alloc) && alloc.Valid() && alloc.max == numUars && alloc.mask == numUars - 1
      && alloc.last == 0 && alloc.top == 0 && alloc.Bits() == seq(numUars, _ => false))
  {
    if !IsPow2(numUars) {
      err := InitCheck(numUars);
      return err, null;
    }
    err, alloc := AllocInit(numUars, numUars - 1, kmallocOk);
  }

  /**
   * Under the mask num_uars - 1 the generation prefix is always 0: the
   * prefix stays 0 across an allocation and a free, and the index handed
   * out is the bit taken itself, below num_uars.
   */
  lemma UarPrefixStaysZero(s: seq<bool>, last: nat, top: nat)
    requires |s| > 0 && AllocOk(|s|, last, top, |s| - 1)
    ensures top == 0 && NextTop(top, |s|, |s| - 1) == 0
    ensures var r := AllocStep(s, last, top, |s| - 1);
      r.top == 0 && (ChosenBit(s, last) < |s| ==> r.obj == ChosenBit(s, last) < |s|)
  {
    var m := |s|;
    DivModUnique(top, m, 0, top);
    DivModUnique(m, m, 1, 0);
    AllocStepFacts(s, last, top, m - 1);
  }
}
