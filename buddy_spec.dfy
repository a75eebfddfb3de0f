/**
 * The MTT buddy allocator of hgrnic_mr.c.
 *
 * Level o holds one bit per block of 2^o MTT segments; a set bit means the
 * block is free. Allocation takes the first free block of the smallest
 * order that has one, splitting it down and freeing the upper halves on
 * the way; freeing merges a block with its buddy (seg ^ 1) for as long as
 * the buddy is free.
 *
 * The bitmaps are modelled as `seq<seq<bool>>`, level o having
 * 2^(max_order - o) bits. The structural invariants the allocator relies
 * on (a free block never lies inside another free block, two buddies are
 * never both free) are stated with recursive predicates over the parent
 * index i / 2, and every bit write is shown to respect them.
 */
module BuddySpec {
  import opened Common

  /** Number of set bits: what num_free[o] counts for bits[o]. */
  function Count(s: seq<bool>): nat
  {
    if |s| == 0 then 0 else Count(s[..|s| - 1]) + (if s[|s| - 1] then 1 else 0)
  }

  lemma {:induction false} CountUpdate(s: seq<bool>, i: nat, b: bool)
    requires i < |s|
    ensures Count(s[i := b]) == Count(s) - (if s[i] then 1 else 0) + (if b then 1 else 0)
    decreases |s|
  {
    var t := s[i := b];
    if i < |s| - 1 {
      assert t[..|t| - 1] == s[..|s| - 1][i := b];
      CountUpdate(s[..|s| - 1], i, b);
    } else {
      assert t[..|t| - 1] == s[..|s| - 1];
    }
  }

  lemma {:induction false} CountZero(s: seq<bool>)
    ensures Count(s) == 0 <==> forall k :: 0 <= k < |s| ==> !s[k]
    decreases |s|
  {
    if |s| > 0 {
      CountZero(s[..|s| - 1]);
      assert forall k :: 0 <= k < |s| - 1 ==> s[..|s| - 1][k] == s[k];
    }
  }

  /** find_first_bit: the first set bit, or |s| when there is none. */
  function FirstSet(s: seq<bool>, from: nat): (r: nat)
    ensures r <= |s|
    ensures r < |s| ==> from <= r && s[r]
    ensures forall k :: from <= k < r ==> !s[k]
    decreases |s| - from
  {
    if from >= |s| then |s| else if s[from] then from else FirstSet(s, from + 1)
  }

  /** The bitmaps after writing v into bit x of level o. */
  function SetBit(b: seq<seq<bool>>, o: nat, x: nat, v: bool): (r: seq<seq<bool>>)
    requires o < |b| && x < |b[o]|
    ensures |r| == |b| && (forall k :: 0 <= k < |b| ==> |r[k]| == |b[k]|)
  {
    b[o := b[o][x := v]]
  }

  /** Level o has 2^(top - o) bits, top being the highest level. */
  ghost predicate Shaped(b: seq<seq<bool>>)
  {
    |b| > 0 && forall o :: 0 <= o < |b| ==> |b[o]| == Pow2(|b| - 1 - o)
  }

  /** Block i of level o is free. */
  ghost predicate FreeAt(b: seq<seq<bool>>, o: nat, i: nat)
  {
    o < |b| && i < |b[o]| && b[o][i]
  }

  /** Some block strictly containing block i of level o is free. */
  ghost predicate AncestorFree(b: seq<seq<bool>>, o: nat, i: nat)
    decreases |b| - o
  {
    o + 1 < |b| && (FreeAt(b, o + 1, i / 2) || AncestorFree(b, o + 1, i / 2))
  }

  /** Some block strictly inside block i of level o is free. */
  ghost predicate DescendantFree(b: seq<seq<bool>>, o: nat, i: nat)
    decreases o
  {
    o > 0 && (FreeAt(b, o - 1, 2 * i) || FreeAt(b, o - 1, 2 * i + 1)
              || DescendantFree(b, o - 1, 2 * i) || DescendantFree(b, o - 1, 2 * i + 1))
  }

  /** No free block lies inside another free block. */
  ghost predicate Disjoint(b: seq<seq<bool>>)
  {
    forall o: nat, i: nat :: FreeAt(b, o, i) ==> !AncestorFree(b, o, i)
  }

  /** Two buddies are never both free: they would have been merged. */
  ghost predicate NoFreePair(b: seq<seq<bool>>)
  {
    forall o: nat, i: nat :: FreeAt(b, o, 2 * i) ==> !FreeAt(b, o, 2 * i + 1)
  }

  /** The bitmaps of a consistent buddy allocator. */
  ghost predicate WellFormed(b: seq<seq<bool>>)
  {
    Shaped(b) && Disjoint(b) && NoFreePair(b)
  }

  /** Block i of level o is allocated: neither it, nor a block around it, nor one inside it is free. */
  ghost predicate Vacant(b: seq<seq<bool>>, o: nat, i: nat)
  {
    !FreeAt(b, o, i) && !AncestorFree(b, o, i) && !DescendantFree(b, o, i)
  }

  // Frame lemmas: a write at level o does not affect what lies strictly above or below it.

  lemma {:induction false} AncestorFreeFrame(b: seq<seq<bool>>, o: nat, x: nat, v: bool, o2: nat, j: nat)
    requires o < |b| && x < |b[o]| && o <= o2
    ensures AncestorFree(SetBit(b, o, x, v), o2, j) == AncestorFree(b, o2, j)
    decreases |b| - o2
  {
    if o2 + 1 < |b| {
      AncestorFreeFrame(b, o, x, v, o2 + 1, j / 2);
    }
  }

  lemma {:induction false} DescendantFreeFrame(b: seq<seq<bool>>, o: nat, x: nat, v: bool, o2: nat, j: nat)
    requires o < |b| && x < |b[o]| && o2 <= o
    ensures DescendantFree(SetBit(b, o, x, v), o2, j) == DescendantFree(b, o2, j)
    decreases o2
  {
    if o2 > 0 {
      DescendantFreeFrame(b, o, x, v, o2 - 1, 2 * j);
      DescendantFreeFrame(b, o, x, v, o2 - 1, 2 * j + 1);
    }
  }

  /** A free block, or a block inside a free block, has no free block inside it when b is Disjoint. */
  lemma {:induction false} CoveredHasNoFreeInside(b: seq<seq<bool>>, o: nat, i: nat)
    requires Disjoint(b) && (FreeAt(b, o, i) || AncestorFree(b, o, i))
    ensures !DescendantFree(b, o, i)
    decreases o
  {
    if o > 0 {
      var c0, c1 := 2 * i, 2 * i + 1;
      assert c0 / 2 == i && c1 / 2 == i;
      assert AncestorFree(b, o - 1, c0) && AncestorFree(b, o - 1, c1);
      CoveredHasNoFreeInside(b, o - 1, c0);
      CoveredHasNoFreeInside(b, o - 1, c1);
    }
  }

  /** Clearing a bit keeps both structural invariants. */
  lemma ClearKeeps(b: seq<seq<bool>>, o: nat, x: nat)
    requires o < |b| && x < |b[o]| && Disjoint(b) && NoFreePair(b)
    ensures Disjoint(SetBit(b, o, x, false)) && NoFreePair(SetBit(b, o, x, false))
  {
    var b' := SetBit(b, o, x, false);
    forall o2: nat, j: nat | FreeAt(b', o2, j)
      ensures !AncestorFree(b', o2, j)
    {
      AncestorClearMonotone(b, o, x, o2, j);
    }
    forall o2: nat, i: nat | FreeAt(b', o2, 2 * i)
      ensures !FreeAt(b', o2, 2 * i + 1)
    {
      assert FreeAt(b, o2, 2 * i);
    }
  }

  lemma {:induction false} AncestorClearMonotone(b: seq<seq<bool>>, o: nat, x: nat, o2: nat, j: nat)
    requires o < |b| && x < |b[o]|
    ensures AncestorFree(SetBit(b, o, x, false), o2, j) ==> AncestorFree(b, o2, j)
    decreases |b| - o2
  {
    if o2 + 1 < |b| {
      AncestorClearMonotone(b, o, x, o2 + 1, j / 2);
    }
  }

  /** j at level o2 lies inside (or is) block x of level o. */
  ghost predicate Inside(o2: nat, j: nat, o: nat, x: nat)
    decreases o - o2
  {
    (o2 == o && j == x) || (o2 < o && Inside(o2 + 1, j / 2, o, x))
  }

  /** A free block inside block x of level o makes DescendantFree(b, o, x) true. */
  lemma {:induction false} InsideFree(b: seq<seq<bool>>, o2: nat, j: nat, o: nat, x: nat)
    requires Inside(o2, j, o, x) && o2 < o && (FreeAt(b, o2, j) || DescendantFree(b, o2, j))
    ensures DescendantFree(b, o, x)
    decreases o - o2
  {
    var p := j / 2;
    assert j == 2 * p || j == 2 * p + 1;
    assert DescendantFree(b, o2 + 1, p);
    if o2 + 1 < o {
      InsideFree(b, o2 + 1, p, o, x);
    }
  }

  /** Setting bit x of level o can only give a block a free ancestor if the block lies inside x. */
  lemma {:induction false} AncestorSetSource(b: seq<seq<bool>>, o: nat, x: nat, o2: nat, j: nat)
    requires o < |b| && x < |b[o]|
    requires AncestorFree(SetBit(b, o, x, true), o2, j) && !AncestorFree(b, o2, j)
    ensures o2 < o && Inside(o2, j, o, x)
    decreases |b| - o2
  {
    var b' := SetBit(b, o, x, true);
    if !FreeAt(b', o2 + 1, j / 2) || FreeAt(b, o2 + 1, j / 2) {
      AncestorSetSource(b, o, x, o2 + 1, j / 2);
    }
  }

  /** Freeing an allocated block keeps the blocks disjoint. */
  lemma SetVacantKeepsDisjoint(b: seq<seq<bool>>, o: nat, x: nat)
    requires o < |b| && x < |b[o]| && Disjoint(b) && Vacant(b, o, x)
    ensures Disjoint(SetBit(b, o, x, true))
  {
    var b' := SetBit(b, o, x, true);
    forall o2: nat, j: nat | FreeAt(b', o2, j)
      ensures !AncestorFree(b', o2, j)
    {
      if o2 == o && j == x {
        AncestorFreeFrame(b, o, x, true, o2, j);
      } else if AncestorFree(b', o2, j) {
        assert FreeAt(b, o2, j);
        AncestorSetSource(b, o, x, o2, j);
        InsideFree(b, o2, j, o, x);
      }
    }
  }

  /** The other half of the same parent: seg ^ 1. */
  function BuddyOf(i: nat): (r: nat)
    ensures r == if i % 2 == 0 then i + 1 else i - 1
  {
    XorOne(i);
    BitXor(i, 1)
  }

  /** Freeing an allocated block whose buddy is not free keeps buddies apart. */
  lemma SetKeepsNoFreePair(b: seq<seq<bool>>, o: nat, x: nat)
    requires o < |b| && x < |b[o]| && NoFreePair(b) && !FreeAt(b, o, BuddyOf(x))
    ensures NoFreePair(SetBit(b, o, x, true))
  {
    var b' := SetBit(b, o, x, true);
    forall o2: nat, i: nat | FreeAt(b', o2, 2 * i)
      ensures !FreeAt(b', o2, 2 * i + 1)
    {
      if o2 == o && 2 * i == x {
        assert BuddyOf(x) == 2 * i + 1;
      } else if o2 == o && 2 * i + 1 == x {
        assert false;
      } else {
        assert FreeAt(b, o2, 2 * i);
      }
    }
  }

  /** The children of an allocated block are allocated. */
  lemma VacantChildren(b: seq<seq<bool>>, o: nat, i: nat)
    requires o > 0 && Vacant(b, o, i)
    ensures Vacant(b, o - 1, 2 * i) && Vacant(b, o - 1, 2 * i + 1)
  {
    assert (2 * i) / 2 == i && (2 * i + 1) / 2 == i;
  }

  /** Halving an index of level o gives an index of level o + 1. */
  lemma ParentInRange(b: seq<seq<bool>>, o: nat, i: nat)
    requires Shaped(b) && o + 1 < |b| && i < |b[o]|
    ensures i / 2 < |b[o + 1]|
  {
    assert |b[o]| == 2 * |b[o + 1]|;
  }

  lemma ChildrenInRange(b: seq<seq<bool>>, o: nat, i: nat)
    requires Shaped(b) && 0 < o < |b| && i < |b[o]|
    ensures 2 * i + 1 < |b[o - 1]|
  {
    assert |b[o - 1]| == 2 * |b[o]|;
  }

  lemma SetBitShaped(b: seq<seq<bool>>, o: nat, x: nat, v: bool)
    requires Shaped(b) && o < |b| && x < |b[o]|
    ensures Shaped(SetBit(b, o, x, v))
  {
  }

  /**
   * The split loop of hgrnic_buddy_alloc, from block s of level o down to
   * `order`: each step moves to the lower half (seg <<= 1) and frees its
   * buddy (seg ^ 1). Returns the bitmaps and the block index at `order`.
   */
  function SplitDown(b: seq<seq<bool>>, o: nat, s: nat, order: nat): (r: (seq<seq<bool>>, nat))
    requires Shaped(b) && order <= o < |b| && s < |b[o]|
    ensures |r.0| == |b| && r.1 < |r.0[order]|
    decreases o
  {
    if o == order then (b, s)
    else
      ChildrenInRange(b, o, s);
      SetBitShaped(b, o - 1, BuddyOf(2 * s), true);
      SplitDown(SetBit(b, o - 1, BuddyOf(2 * s), true), o - 1, 2 * s, order)
  }

  lemma {:induction false} SplitDownShaped(b: seq<seq<bool>>, o: nat, s: nat, order: nat)
    requires Shaped(b) && order <= o < |b| && s < |b[o]|
    ensures Shaped(SplitDown(b, o, s, order).0)
    decreases o
  {
    if o > order {
      ChildrenInRange(b, o, s);
      SetBitShaped(b, o - 1, BuddyOf(2 * s), true);
      SplitDownShaped(SetBit(b, o - 1, BuddyOf(2 * s), true), o - 1, 2 * s, order);
    }
  }

  /**
   * The merge loop of hgrnic_buddy_free, from block s of level o: while the
   * buddy is free it is taken out and the walk moves to the parent; the
   * block reached is marked free. A buddy index beyond the meaningful width
   * of the top level reads as clear, as the zeroed bitmap word does.
   */
  function MergeUp(b: seq<seq<bool>>, o: nat, s: nat): (r: seq<seq<bool>>)
    requires Shaped(b) && o < |b| && s < |b[o]|
    decreases |b| - o
  {
    var t := BuddyOf(s);
    if t < |b[o]| && b[o][t] then
      assert o + 1 < |b|;
      ParentInRange(b, o, s);
      SetBitShaped(b, o, t, false);
      MergeUp(SetBit(b, o, t, false), o + 1, s / 2)
    else
      SetBitShaped(b, o, s, true);
      SetBit(b, o, s, true)
  }

  /**
   * The search loop of hgrnic_buddy_alloc: the first order from o up whose
   * num_free is nonzero and whose bitmap has a set bit; |b| when there is none.
   */
  function FindOrder(b: seq<seq<bool>>, nf: seq<int>, o: nat): (r: nat)
    requires |nf| == |b|
    ensures r == |b| || (o <= r < |b| && nf[r] != 0 && FirstSet(b[r], 0) < |b[r]|)
    ensures forall k :: o <= k < r && k < |b| ==> nf[k] == 0 || FirstSet(b[k], 0) == |b[k]|
    decreases |b| - o
  {
    if o >= |b| then |b|
    else if nf[o] != 0 && FirstSet(b[o], 0) < |b[o]| then o
    else FindOrder(b, nf, o + 1)
  }

  /** num_free[o] is the number of set bits of bits[o], for every order. */
  ghost predicate Counted(b: seq<seq<bool>>, nf: seq<int>)
  {
    |nf| == |b| && forall o :: 0 <= o < |b| ==> nf[o] == Count(b[o])
  }

  /** With consistent counts, the search fails exactly when no block of order >= o is free. */
  lemma FindOrderNone(b: seq<seq<bool>>, nf: seq<int>, o: nat)
    requires Counted(b, nf)
    ensures FindOrder(b, nf, o) == |b| <==> (forall k, i :: o <= k < |b| && 0 <= i < |b[k]| ==> !b[k][i])
  {
    var r := FindOrder(b, nf, o);
    if r == |b| {
      forall k, i | o <= k < |b| && 0 <= i < |b[k]|
        ensures !b[k][i]
      {
        CountZero(b[k]);
      }
    } else {
      assert b[r][FirstSet(b[r], 0)];
    }
  }

  /** Taking a free block out leaves it allocated. */
  lemma ClearFreeVacant(b: seq<seq<bool>>, o: nat, s: nat)
    requires Disjoint(b) && FreeAt(b, o, s)
    ensures Vacant(SetBit(b, o, s, false), o, s)
  {
    AncestorFreeFrame(b, o, s, false, o, s);
    DescendantFreeFrame(b, o, s, false, o, s);
    CoveredHasNoFreeInside(b, o, s);
  }

  /**
   * One split step from an allocated block: the upper child becomes free,
   * the invariants hold, and the lower child is allocated.
   */
  lemma SplitStep(b: seq<seq<bool>>, o: nat, s: nat)
    requires WellFormed(b) && 0 < o < |b| && s < |b[o]| && Vacant(b, o, s)
    ensures 2 * s + 1 < |b[o - 1]|
    ensures var b' := SetBit(b, o - 1, 2 * s + 1, true);
      WellFormed(b') && Vacant(b', o - 1, 2 * s) && !b[o - 1][2 * s + 1]
  {
    ChildrenInRange(b, o, s);
    VacantChildren(b, o, s);
    SetVacantKeepsDisjoint(b, o - 1, 2 * s + 1);
    SetKeepsNoFreePair(b, o - 1, 2 * s + 1);
    SetBitShaped(b, o - 1, 2 * s + 1, true);
    AncestorFreeFrame(b, o - 1, 2 * s + 1, true, o - 1, 2 * s);
    DescendantFreeFrame(b, o - 1, 2 * s + 1, true, o - 1, 2 * s);
  }

  /**
   * One merge step from an allocated block whose buddy is free: the buddy
   * is taken out, the invariants hold, and the parent is allocated.
   */
  lemma MergeStep(b: seq<seq<bool>>, o: nat, s: nat)
    requires WellFormed(b) && o < |b| && s < |b[o]| && Vacant(b, o, s)
    requires BuddyOf(s) < |b[o]| && b[o][BuddyOf(s)]
    ensures o + 1 < |b| && s / 2 < |b[o + 1]|
    ensures var b' := SetBit(b, o, BuddyOf(s), false);
      WellFormed(b') && Vacant(b', o + 1, s / 2)
  {
    var t := BuddyOf(s);
    ParentInRange(b, o, s);
    var b' := SetBit(b, o, t, false);
    ClearKeeps(b, o, t);
    SetBitShaped(b, o, t, false);
    assert t / 2 == s / 2;
    assert FreeAt(b, o, t);
    AncestorFreeFrame(b, o, t, false, o + 1, s / 2);
    DescendantFreeFrame(b, o, t, false, o, s);
    DescendantFreeFrame(b, o, t, false, o, t);
    CoveredHasNoFreeInside(b, o, t);
    var p := s / 2;
    assert (2 * p == s && 2 * p + 1 == t) || (2 * p == t && 2 * p + 1 == s);
  }

  /** The buddy of a free block is not free. */
  lemma BuddyNotFree(b: seq<seq<bool>>, o: nat, s: nat)
    requires NoFreePair(b) && FreeAt(b, o, s)
    ensures !FreeAt(b, o, BuddyOf(s))
  {
    var i := s / 2;
    ghost var lower := FreeAt(b, o, 2 * i);
  }

  /** Splitting an allocated block and merging back from the bottom gives what merging from the top gives. */
  lemma {:induction false} SplitThenMerge(c: seq<seq<bool>>, o: nat, s: nat, order: nat)
    requires WellFormed(c) && order <= o < |c| && s < |c[o]| && Vacant(c, o, s)
    ensures var r := SplitDown(c, o, s, order); Shaped(r.0) && MergeUp(r.0, order, r.1) == MergeUp(c, o, s)
    decreases o
  {
    if o > order {
      SplitStep(c, o, s);
      var c1 := SetBit(c, o - 1, 2 * s + 1, true);
      SplitThenMerge(c1, o - 1, 2 * s, order);
      assert BuddyOf(2 * s) == 2 * s + 1;
      assert SplitDown(c, o, s, order) == SplitDown(c1, o - 1, 2 * s, order);
      MergeSplitChild(c, o, s);
    }
  }

  /** Merging from the left child of a split block, its buddy marked free, undoes the split. */
  lemma MergeSplitChild(c: seq<seq<bool>>, o: nat, s: nat)
    requires Shaped(c) && 0 < o < |c| && s < |c[o]| && 2 * s + 1 < |c[o - 1]| && !c[o - 1][2 * s + 1]
    ensures var c1 := SetBit(c, o - 1, 2 * s + 1, true);
      Shaped(c1) && MergeUp(c1, o - 1, 2 * s) == MergeUp(c, o, s)
  {
    var c1 := SetBit(c, o - 1, 2 * s + 1, true);
    SetBitShaped(c, o - 1, 2 * s + 1, true);
    assert BuddyOf(2 * s) == 2 * s + 1;
    assert SetBit(c1, o - 1, 2 * s + 1, false) == c by {
      assert c1[o - 1][2 * s + 1 := false] == c[o - 1];
    }
    assert (2 * s) / 2 == s;
  }

  /**
   * Freeing the block an allocation returned, at the same order, gives back
   * exactly the bitmaps before the allocation.
   */
  lemma AllocThenFreeRestores(b: seq<seq<bool>>, nf: seq<int>, order: nat)
    requires WellFormed(b) && Counted(b, nf) && FindOrder(b, nf, order) < |b|
    ensures var o := FindOrder(b, nf, order);
      var s := FirstSet(b[o], 0);
      var r := SplitDown(SetBit(b, o, s, false), o, s, order);
      Shaped(r.0) && MergeUp(r.0, order, r.1) == b
  {
    var o := FindOrder(b, nf, order);
    var s := FirstSet(b[o], 0);
    var c := SetBit(b, o, s, false);
    ClearFreeVacant(b, o, s);
    ClearKeeps(b, o, s);
    SetBitShaped(b, o, s, false);
    SplitThenMerge(c, o, s, order);
    BuddyNotFree(b, o, s);
    assert SetBit(c, o, s, true) == b by {
      assert c[o][s := true] == b[o];
    }
  }

  /** The allocated block is inside the managed range: seg + 2^order <= 2^max_order. */
  lemma {:induction false} BlockInRange(s: nat, order: nat, maxOrder: nat)
    requires order <= maxOrder && s < Pow2(maxOrder - order)
    ensures s * Pow2(order) + Pow2(order) <= Pow2(maxOrder)
  {
    MulMonotone(Pow2(maxOrder - order), s + 1, Pow2(order));
    Pow2Add(maxOrder - order, order);
    assert (s + 1) * Pow2(order) == s * Pow2(order) + Pow2(order);
  }

  /** Writing one bit and adjusting that order's count by the change keeps the counts right. */
  lemma CountedUpdate(b: seq<seq<bool>>, nf: seq<int>, o: nat, x: nat, v: bool)
    requires Counted(b, nf) && o < |b| && x < |b[o]|
    ensures Counted(SetBit(b, o, x, v), nf[o := nf[o] - (if b[o][x] then 1 else 0) + (if v then 1 else 0)])
  {
    CountUpdate(b[o], x, v);
  }

  /** The first step of a successful allocation: the found block is taken out. */
  lemma TakeStep(b: seq<seq<bool>>, nf: seq<int>, o: nat, s: nat)
    requires WellFormed(b) && Counted(b, nf) && o < |b| && s < |b[o]| && b[o][s]
    ensures var b' := SetBit(b, o, s, false);
      WellFormed(b') && Counted(b', nf[o := nf[o] - 1]) && Vacant(b', o, s)
  {
    ClearFreeVacant(b, o, s);
    ClearKeeps(b, o, s);
    SetBitShaped(b, o, s, false);
    CountedUpdate(b, nf, o, s, false);
  }

  /** What struct hgrnic_buddy keeps: at most 31 levels, consistent bitmaps and counts. */
  ghost predicate BuddyOk(maxOrder: nat, b: seq<seq<bool>>, nf: seq<int>)
  {
    maxOrder <= 30 && |b| == maxOrder + 1 && WellFormed(b) && Counted(b, nf)
  }

  /** Level o of a consistent allocator has 2^(max_order - o) bits. */
  lemma LevelWidth(maxOrder: nat, b: seq<seq<bool>>, nf: seq<int>, o: nat)
    requires BuddyOk(maxOrder, b, nf) && o <= maxOrder
    ensures |b[o]| == Pow2(maxOrder - o)
  {
  }

  /** Consistent bitmaps and counts in which block s of level o is allocated: the state of the split and merge loops. */
  ghost predicate Holding(b: seq<seq<bool>>, nf: seq<int>, o: nat, s: nat)
  {
    WellFormed(b) && Counted(b, nf) && o < |b| && s < |b[o]| && Vacant(b, o, s)
  }

  /** One iteration of the split loop, on bitmaps and counts together. */
  lemma SplitIteration(b: seq<seq<bool>>, nf: seq<int>, o: nat, s: nat, order: nat)
    requires Holding(b, nf, o, s) && order < o
    ensures var b' := SetBit(b, o - 1, BuddyOf(2 * s), true);
      Holding(b', nf[o - 1 := nf[o - 1] + 1], o - 1, 2 * s) && |b'| == |b|
      && SplitDown(b', o - 1, 2 * s, order) == SplitDown(b, o, s, order)
  {
    SplitStep(b, o, s);
    CountedUpdate(b, nf, o - 1, 2 * s + 1, true);
    assert BuddyOf(2 * s) == 2 * s + 1;
  }

  /** One iteration of the merge loop, on bitmaps and counts together. */
  lemma MergeIteration(b: seq<seq<bool>>, nf: seq<int>, o: nat, s: nat)
    requires Holding(b, nf, o, s)
    requires BuddyOf(s) < |b[o]| && b[o][BuddyOf(s)]
    ensures var b' := SetBit(b, o, BuddyOf(s), false);
      Holding(b', nf[o := nf[o] - 1], o + 1, s / 2) && |b'| == |b|
      && MergeUp(b', o + 1, s / 2) == MergeUp(b, o, s)
  {
    MergeStep(b, o, s);
    CountedUpdate(b, nf, o, BuddyOf(s), false);
  }

  /** The last step of a free: the block reached is marked free. */
  lemma MarkFree(b: seq<seq<bool>>, nf: seq<int>, o: nat, s: nat)
    requires Holding(b, nf, o, s)
    requires !(BuddyOf(s) < |b[o]| && b[o][BuddyOf(s)])
    ensures var b' := SetBit(b, o, s, true);
      WellFormed(b') && Counted(b', nf[o := nf[o] + 1]) && |b'| == |b| && b' == MergeUp(b, o, s)
  {
    SetVacantKeepsDisjoint(b, o, s);
    SetKeepsNoFreePair(b, o, s);
    SetBitShaped(b, o, s, true);
    CountedUpdate(b, nf, o, s, true);
  }

  /** The bitmaps hgrnic_buddy_init leaves: all clear except block 0 of the top level. */
  function InitialBits(order: nat): (r: seq<seq<bool>>)
    ensures |r| == order + 1 && r[order] == [true]
    ensures forall o :: 0 <= o < order ==> |r[o]| == Pow2(order - o) && forall j :: 0 <= j < |r[o]| ==> !r[o][j]
  {
    seq(order + 1, o requires 0 <= o <= order => if o == order then [true] else seq(Pow2(order - o), _ => false))
  }

  /** The counts hgrnic_buddy_init leaves: 1 at the top order, 0 below. */
  function InitialCounts(order: nat): (r: seq<int>)
    ensures |r| == order + 1 && r[order] == 1
    ensures forall o :: 0 <= o < order ==> r[o] == 0
  {
    seq(order + 1, o => if o == order then 1 else 0)
  }

  /** A fresh allocator with any free block finds it at the top order, block 0. */
  lemma InitialSearch(order: nat, k: nat)
    requires k <= order
    ensures FindOrder(InitialBits(order), InitialCounts(order), k) == order
    ensures FirstSet(InitialBits(order)[order], 0) == 0
    decreases order - k
  {
    if k < order {
      assert InitialCounts(order)[k] == 0;
      InitialSearch(order, k + 1);
    }
  }

  /**
   * The worked example kept with struct hgrnic_buddy: with max_order 2, one
   * order-0 allocation from the initial state returns segment 0 and leaves
   * bits[0] = 0 1 0 0, bits[1] = 0 1, bits[2] = 0.
   */
  lemma DocumentedExample()
    ensures var b := InitialBits(2);
      FindOrder(b, InitialCounts(2), 0) == 2 && FirstSet(b[2], 0) == 0
      && Shaped(SetBit(b, 2, 0, false))
      && SplitDown(SetBit(b, 2, 0, false), 2, 0, 0) == ([[false, true, false, false], [false, true], [false]], 0)
  {
    InitialSearch(2, 0);
    ExampleInitial();
    var c := SetBit(InitialBits(2), 2, 0, false);
    assert [true][0 := false] == [false];
    assert c == [[false, false, false, false], [false, false], [false]];
    ExampleSplit();
  }

  lemma ExampleInitial()
    ensures InitialBits(2) == [[false, false, false, false], [false, false], [true]]
  {
    var b := InitialBits(2);
    assert Pow2(2) == 4 && Pow2(1) == 2;
    assert b[0] == [false, false, false, false];
    assert b[1] == [false, false];
  }

  lemma ExampleSplit()
    ensures var c := [[false, false, false, false], [false, false], [false]];
      Shaped(c) && SplitDown(c, 2, 0, 0) == ([[false, true, false, false], [false, true], [false]], 0)
  {
    var c := [[false, false, false, false], [false, false], [false]];
    assert Pow2(2) == 4 && Pow2(1) == 2 && Pow2(0) == 1;
    XorOne(0);
    var c1 := SetBit(c, 1, 1, true);
    assert c[1][1 := true] == [false, true];
    assert c1 == [[false, false, false, false], [false, true], [false]];
    assert SplitDown(c, 2, 0, 0) == SplitDown(c1, 1, 0, 0);
    var c2 := SetBit(c1, 0, 1, true);
    assert c1[0][1 := true] == [false, true, false, false];
    assert c2 == [[false, true, false, false], [false, true], [false]];
    assert SplitDown(c1, 1, 0, 0) == SplitDown(c2, 0, 0, 0);
  }

  /** The segment of a block of a consistent allocator: aligned, inside the range, and shifted back to the block. */
  lemma BlockSegment(maxOrder: nat, b: seq<seq<bool>>, nf: seq<int>, order: nat, s: nat)
    requires BuddyOk(maxOrder, b, nf) && order <= maxOrder && s < |b[order]|
    ensures Shl(s, order) % Pow2(order) == 0 && Shr(Shl(s, order), order) == s
    ensures Shl(s, order) + Pow2(order) <= Pow2(maxOrder) && Shl(s, order) != U32_ALL_ONES
  {
    LevelWidth(maxOrder, b, nf, order);
    SegmentFacts(s, order, maxOrder);
  }

  /**
   * The segment returned for block s of `order` is a multiple of 2^order,
   * lies inside the managed range, and cannot be mistaken for -1.
   */
  lemma SegmentFacts(s: nat, order: nat, maxOrder: nat)
    requires order <= maxOrder <= 30 && s < Pow2(maxOrder - order)
    ensures Shl(s, order) % Pow2(order) == 0 && Shr(Shl(s, order), order) == s
    ensures Shl(s, order) + Pow2(order) <= Pow2(maxOrder) && Shl(s, order) != U32_ALL_ONES
  {
    DivModUnique(s * Pow2(order), Pow2(order), s, 0);
    BlockInRange(s, order, maxOrder);
    Pow2Monotone(maxOrder, 30);
    Pow2Add(30, 2);
    Pow2Of32();
  }
}
