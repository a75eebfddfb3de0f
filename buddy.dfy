/**
 * The MTT buddy allocator object of hgrnic_mr.c: struct hgrnic_buddy with
 * its bitmaps and free counts, and the operations that update it in place.
 * The bitmap functions and invariants it is proved against are in BuddySpec.
 */
module Buddy {
  import opened Common
  import opened BuddySpec

  /** struct hgrnic_buddy: one bitmap and one free count per order. */
  class BuddyAllocator {
    var maxOrder: nat
    var bits: seq<seq<bool>>
    var numFree: seq<int>

    ghost predicate Valid()
      reads this
    {
      BuddyOk(maxOrder, bits, numFree)
    }

    /**
     * hgrnic_buddy_init once every array exists: each level zeroed, then
     * block 0 of the top level marked free with num_free 1.
     */
    constructor (order: nat)
      requires order <= 30
      ensures Valid() && maxOrder == order
      ensures bits == InitialBits(order) && numFree == InitialCounts(order)
    {
      var b: seq<seq<bool>> := [];
      var nf: seq<int> := [];
      var i := 0;
      while i <= order
        invariant 0 <= i <= order + 1 && |b| == i && |nf| == i
        invariant forall o :: 0 <= o < i ==> b[o] == seq(Pow2(order - o), _ => false) && nf[o] == 0
      {
        b := b + [seq(Pow2(order - i), _ => false)];
        nf := nf + [0];
        i := i + 1;
      }
      assert |b[order]| == 1;
      b := b[order := b[order][0 := true]];
      nf := nf[order := 1];
      maxOrder, bits, numFree := order, b, nf;
      forall o | 0 <= o < |b| ensures nf[o] == Count(b[o])
      {
        CountZero(b[o]);
        if o == order {
          assert b[o] == [true];
          assert b[o][..0] == [];
        }
      }
      assert b[order] == [true];
      forall o: nat, j: nat | FreeAt(b, o, j)
        ensures !AncestorFree(b, o, j)
      {
        assert o == order;
      }
    }

    /**
     * The search loop of hgrnic_buddy_alloc: from `order` up, the first
     * order with a nonzero count and a set bit among its 2^(max_order - o)
     * bits, and that bit.
     */
    method Search(order: nat) returns (o: nat, s: nat)
      requires Valid()
      ensures if o <= maxOrder then o == FindOrder(bits, numFree, order) else FindOrder(bits, numFree, order) == |bits|
      ensures o <= maxOrder ==> s == FirstSet(bits[o], 0) && s < |bits[o]|
    {
      o := order;
      s := 0;
      while o <= maxOrder
        invariant order <= o
        invariant FindOrder(bits, numFree, o) == FindOrder(bits, numFree, order)
        decreases maxOrder + 1 - o
      {
        if numFree[o] != 0 {
          var m := Pow2(maxOrder - o);
          s := FirstSet(bits[o], 0);
          assert |bits[o]| == m;
          if s < m {
            return;
          }
        }
        o := o + 1;
      }
    }

    /**
     * The split loop of hgrnic_buddy_alloc: the allocated block s of order
     * o is halved down to `order`, each upper half becoming free.
     */
    method SplitFrom(o: nat, s: nat, order: nat) returns (s': nat)
      requires Valid() && order <= o <= maxOrder && s < |bits[o]| && Vacant(bits, o, s)
      modifies this
      ensures Valid() && maxOrder == old(maxOrder)
      ensures (bits, s') == SplitDown(old(bits), o, s, order)
      ensures s' < |bits[order]| && Vacant(bits, order, s')
    {
      var b, nf := bits, numFree;
      ghost var b0, m := bits, maxOrder;
      var k := o;
      s' := s;
      while k > order
        invariant |b| == m + 1 && order <= k && Holding(b, nf, k, s')
        invariant SplitDown(b, k, s', order) == SplitDown(b0, o, s, order)
        modifies {}
        decreases k
      {
        SplitIteration(b, nf, k, s', order);
        b := SetBit(b, k - 1, BuddyOf(2 * s'), true);
        nf := nf[k - 1 := nf[k - 1] + 1];
        k := k - 1;
        s' := 2 * s';
      }
      assert BuddyOk(m, b, nf);
      bits, numFree := b, nf;
    }

    /**
     * hgrnic_buddy_alloc: -1 and no change when no order from `order` up has
     * a free block; otherwise the first free block of the lowest such order
     * is taken, split down to `order` (the upper halves becoming free) and
     * its first segment returned.
     */
    method Alloc(order: nat) returns (seg: nat)
      requires Valid()
      modifies this
      ensures Valid() && maxOrder == old(maxOrder)
      ensures var o := FindOrder(old(bits), old(numFree), order);
        if o == |old(bits)| then
          seg == U32_ALL_ONES && bits == old(bits) && numFree == old(numFree)
        else
          var s := FirstSet(old(bits)[o], 0);
          var r := SplitDown(SetBit(old(bits), o, s, false), o, s, order);
          bits == r.0 && seg == Shl(r.1, order) && Vacant(bits, order, r.1)
      ensures seg == U32_ALL_ONES <==> FindOrder(old(bits), old(numFree), order) == |old(bits)|
      ensures seg != U32_ALL_ONES ==> (order <= maxOrder && seg % Pow2(order) == 0 && seg + Pow2(order) <= Pow2(maxOrder)
        && Shr(seg, order) < |bits[order]| && Vacant(bits, order, Shr(seg, order)))
    {
      var o, s := Search(order);
      if o > maxOrder {
        return U32_ALL_ONES;
      }
      seg := TakeAndSplit(o, s, order);
    }

    /** The `found:` part of hgrnic_buddy_alloc: block s of order o is taken and split down to `order`. */
    method TakeAndSplit(o: nat, s: nat, order: nat) returns (seg: nat)
      requires Valid() && order <= o <= maxOrder && s < |bits[o]| && bits[o][s]
      modifies this
      ensures Valid() && maxOrder == old(maxOrder)
      ensures var r := SplitDown(SetBit(old(bits), o, s, false), o, s, order);
        bits == r.0 && seg == Shl(r.1, order) && Vacant(bits, order, r.1)
      ensures seg != U32_ALL_ONES && seg % Pow2(order) == 0 && seg + Pow2(order) <= Pow2(maxOrder)
      ensures Shr(seg, order) < |bits[order]| && Vacant(bits, order, Shr(seg, order))
    {
      TakeStep(bits, numFree, o, s);
      bits := SetBit(bits, o, s, false);
      numFree := numFree[o := numFree[o] - 1];
      var s' := SplitFrom(o, s, order);
      seg := Shl(s', order);
      BlockSegment(maxOrder, bits, numFree, order, s');
    }

    /**
     * hgrnic_buddy_free: the block seg >> order, which must be allocated,
     * is merged with its buddy while the buddy is free, moving one order up
     * each time, and the block reached is marked free.
     */
    method Free(seg: nat, order: nat)
      requires Valid() && order <= maxOrder
      requires Shr(seg, order) < |bits[order]| && Vacant(bits, order, Shr(seg, order))
      modifies this
      ensures Valid() && maxOrder == old(maxOrder)
      ensures bits == MergeUp(old(bits), order, Shr(seg, order))
    {
      var b, nf := bits, numFree;
      var s: nat := Shr(seg, order);
      var o: nat := order;
      while BuddyOf(s) < |b[o]| && b[o][BuddyOf(s)]
        invariant maxOrder == old(maxOrder) && |b| == maxOrder + 1 && Holding(b, nf, o, s)
        invariant MergeUp(b, o, s) == MergeUp(old(bits), order, Shr(seg, order))
        decreases maxOrder - o
      {
        MergeIteration(b, nf, o, s);
        b := SetBit(b, o, BuddyOf(s), false);
        nf := nf[o := nf[o] - 1];
        s := s / 2;
        o := o + 1;
      }
      MarkFree(b, nf, o, s);
      bits := SetBit(b, o, s, true);
      numFree := nf[o := nf[o] + 1];
      assert BuddyOk(maxOrder, bits, numFree);
    }
  }

  /**
   * hgrnic_buddy_init with its allocations as outcomes: `tablesOk` for the
   * two kcalloc calls, levelOk[i] for the bitmap of level i. Any failure
   * frees what exists and returns -ENOMEM.
   */
  method BuddyInit(maxOrder: nat, tablesOk: bool, levelOk: seq<bool>) returns (err: int, buddy: BuddyAllocator?)
    requires maxOrder <= 30 && |levelOk| == maxOrder + 1
    ensures err == 0 <==> tablesOk && forall i :: 0 <= i < |levelOk| ==> levelOk[i]
    ensures err != 0 ==> err == -ENOMEM && buddy == null
    ensures err == 0 ==> (buddy != null && fresh(buddy) && buddy.Valid() && buddy.maxOrder == maxOrder
      && buddy.bits == InitialBits(maxOrder) && buddy.numFree == InitialCounts(maxOrder))
  {
    if !tablesOk {
      return -ENOMEM, null;
    }
    var i := 0;
    while i <= maxOrder
      invariant i <= maxOrder + 1
      invariant forall k :: 0 <= k < i ==> levelOk[k]
    {
      if !levelOk[i] {
        return -ENOMEM, null;
      }
      i := i + 1;
    }
    buddy := new BuddyAllocator(maxOrder);
    err := 0;
  }
}
