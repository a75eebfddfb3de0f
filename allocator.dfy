/**
 * The resource-number allocator and the sparse lookup array of
 * hgrnic_allocator.c.
 *
 * A NumAllocator hands out resource numbers (PD, UAR, MPT key, CQN, QPN)
 * from a power-of-two bitmap. The bit index is OR-ed with a generation
 * prefix `top` that moves on by `max` (under `mask`) whenever the scan
 * wraps and on every free, so a number that is freed and handed out again
 * usually comes back with different high bits.
 *
 * A LookupArray maps a resource number to its driver object through pages of
 * 512 slots that are created on the first store and freed when their use
 * count drops back to zero.
 */
module Allocator {
  import opened Common

  /**
   * find_next_zero_bit over the bitmap s: the first clear bit at or after
   * `from`, or |s| when there is none.
   */
  function FirstZeroFrom(s: seq<bool>, from: nat): (r: nat)
    ensures r <= |s|
    ensures r < |s| ==> from <= r && !s[r]
    ensures forall k :: from <= k < r ==> s[k]
    decreases |s| - from
  {
    if from >= |s| then |s|
    else if !s[from] then from
    else FirstZeroFrom(s, from + 1)
  }

  /**
   * The bit hgrnic_alloc takes: the first clear bit at or after `last`,
   * otherwise the lowest clear bit, otherwise |s| (the bitmap is full).
   */
  function ChosenBit(s: seq<bool>, last: nat): nat
  {
    var k := FirstZeroFrom(s, last);
    if k < |s| then k else FirstZeroFrom(s, 0)
  }

  /** The allocator hands out a clear bit, and reports "full" exactly when every bit is set. */
  lemma ChosenBitIsFree(s: seq<bool>, last: nat)
    ensures ChosenBit(s, last) <= |s|
    ensures ChosenBit(s, last) < |s| ==> !s[ChosenBit(s, last)]
    ensures ChosenBit(s, last) == |s| <==> (forall k :: 0 <= k < |s| ==> s[k])
    ensures ChosenBit(s, last) < |s| && FirstZeroFrom(s, last) < |s| ==> last <= ChosenBit(s, last)
  {
    var k := FirstZeroFrom(s, last);
    if k == |s| {
      var k0 := FirstZeroFrom(s, 0);
      if k0 < |s| {
        assert !s[k0];
      }
    }
  }

  /** Multiples of d stay multiples of d under reduction modulo a multiple m of d. */
  lemma ModKeepsMultiple(x: nat, d: nat, m: nat)
    requires d > 0 && m > 0 && x % d == 0 && m % d == 0
    ensures (x % m) % d == 0
  {
    var c := x / d;
    var e := m / d;
    var q := x / m;
    assert x == c * d && m == e * d;
    assert q * m == (q * e) * d;
    MulSubDistrib(c, q * e, d);
    assert x % m == (c - q * e) * d;
    DivModUnique(x % m, d, c - q * e, 0);
  }

  /** A multiple of b is a multiple of every divisor of b. */
  lemma MultipleTrans(x: nat, a: nat, b: nat)
    requires a > 0 && b > 0 && x % b == 0 && b % a == 0
    ensures x % a == 0
  {
    var c := x / b;
    var e := b / a;
    assert x == c * b && b == e * a;
    assert x == (c * e) * a;
    DivModUnique(x, a, c * e, 0);
  }

  /** Adding d to a multiple of d gives a multiple of d. */
  lemma AddMultiple(x: nat, d: nat)
    requires d > 0 && x % d == 0
    ensures (x + d) % d == 0
  {
    assert x == (x / d) * d;
    DivModUnique(x + d, d, x / d + 1, 0);
  }

  /**
   * The allocators of the driver are created with masks of the form
   * 2^m - 1: (1 << 24) - 1, num_uars - 1 and ~0.
   */
  predicate LowMask(mask: nat)
  {
    mask < U32 && IsPow2(mask + 1)
  }

  /**
   * The generation prefix after one advance: (top + max) in u32
   * arithmetic, masked.
   */
  function NextTop(top: nat, max: nat, mask: nat): (r: nat)
    requires LowMask(mask)
    ensures r <= mask
    ensures r == ((top + max) % U32) % (mask + 1)
  {
    AndLowMask(Add32(top, max), Log2(mask + 1));
    BitAnd(Add32(top, max), mask)
  }

  /** Advancing the prefix keeps its low bits (those of the bit index) clear. */
  lemma NextTopAligned(top: nat, max: nat, mask: nat)
    requires LowMask(mask) && IsPow2(max) && max < U32 && top % max == 0
    ensures NextTop(top, max, mask) % max == 0
  {
    var y := (top + max) % U32;
    var r := NextTop(top, max, mask);
    assert r == y % (mask + 1);
    AddMultiple(top, max);
    Pow2DividesU32(max);
    ModKeepsMultiple(top + max, max, U32);
    assert y % max == 0;
    var lm := Log2(mask + 1);
    var lx := Log2(max);
    if lx <= lm {
      Pow2Divides(lx, lm);
      ModKeepsMultiple(y, max, mask + 1);
    } else {
      Pow2Divides(lm, lx);
      MultipleTrans(y, mask + 1, max);
      DivModUnique(0, max, 0, 0);
    }
  }

  /** A prefix below 2^32 that is a multiple of max leaves room for every bit index. */
  lemma PrefixRoom(top: nat, max: nat)
    requires IsPow2(max) && max < U32 && top < U32 && top % max == 0
    ensures top + max <= U32
  {
    Pow2DividesU32(max);
    MultipleGap(top, U32, max);
  }

  /**
   * The number handed out for bit n under prefix top: the OR is the sum,
   * it fits in a u32 and reducing it modulo max gives the bit back.
   */
  lemma AllocNumber(n: nat, top: nat, max: nat)
    requires IsPow2(max) && max < U32 && top < U32 && top % max == 0 && n < max
    ensures BitOr(n, top) == n + top && n + top < U32 && (n + top) % max == n
  {
    OrDisjointAdd(n, top, Log2(max));
    PrefixRoom(top, max);
    ModOfOffset(n, top, max);
  }

  /** What hgrnic_alloc returns and leaves behind: the number, the bitmap, last and top. */
  datatype AllocState = AllocState(obj: nat, bits: seq<bool>, last: nat, top: nat)

  /** The conditions struct hgrnic_alloc keeps: a power-of-two bitmap, a low mask, an aligned prefix. */
  predicate AllocOk(max: nat, last: nat, top: nat, mask: nat)
  {
    IsPow2(max) && max < U32 && LowMask(mask) && last < max && top <= mask && top % max == 0
  }

  /**
   * One hgrnic_alloc on bitmap s: when no clear bit lies at or after
   * `last` the prefix advances and the scan restarts at 0; the chosen bit
   * is set, `last` moves past it (wrapping to 0), and the number is the bit
   * OR-ed with the prefix. A full bitmap gives -1 with the bitmap and
   * `last` unchanged.
   */
  function AllocStep(s: seq<bool>, last: nat, top: nat, mask: nat): AllocState
    requires LowMask(mask)
  {
    var top' := if FirstZeroFrom(s, last) < |s| then top else NextTop(top, |s|, mask);
    var k := ChosenBit(s, last);
    if k < |s| then AllocState(BitOr(k, top'), s[k := true], if k + 1 == |s| then 0 else k + 1, top')
    else AllocState(U32_ALL_ONES, s, last, top')
  }

  /**
   * The allocation takes a clear bit k and hands out k + top, a u32 whose
   * residue modulo the size is k, or -1 exactly when every bit is set; the
   * allocator's conditions still hold afterwards.
   */
  lemma AllocStepFacts(s: seq<bool>, last: nat, top: nat, mask: nat)
    requires AllocOk(|s|, last, top, mask)
    ensures var r := AllocStep(s, last, top, mask); var k := ChosenBit(s, last);
      |r.bits| == |s| && AllocOk(|s|, r.last, r.top, mask) && r.obj < U32
      && (FirstZeroFrom(s, last) < |s| ==> r.top == top)
      && (FirstZeroFrom(s, last) == |s| ==> r.top == NextTop(top, |s|, mask))
      && (k == |s| <==> forall j :: 0 <= j < |s| ==> s[j])
      && if k < |s| then
           !s[k] && r.bits == s[k := true] && r.obj == k + r.top && r.obj % |s| == k
           && r.last == (if k + 1 == |s| then 0 else k + 1)
         else
           r.bits == s && r.obj == U32_ALL_ONES && r.last == last
  {
    ChosenBitIsFree(s, last);
    var r := AllocStep(s, last, top, mask);
    var k := ChosenBit(s, last);
    if FirstZeroFrom(s, last) == |s| {
      NextTopAligned(top, |s|, mask);
    }
    if k < |s| {
      AllocNumber(k, r.top, |s|);
    }
  }

  /** struct hgrnic_alloc: scan cursor, generation prefix, size, mask and bitmap. */
  class NumAllocator {
    var last: nat
    var top: nat
    var max: nat
    var mask: nat
    var table: array<bool>

    ghost predicate Valid()
      reads this
    {
      table.Length == max && AllocOk(max, last, top, mask)
    }

    /** The bitmap as a sequence of bits. */
    ghost function Bits(): seq<bool>
      reads this, table
    {
      table[..]
    }

    /** The part of hgrnic_alloc_init that runs once the size check passed and the bitmap exists. */
    constructor (num: nat, m: nat)
      requires IsPow2(num) && num < U32 && LowMask(m)
      ensures Valid() && fresh(table)
      ensures max == num && mask == m && last == 0 && top == 0
      ensures Bits() == seq(num, _ => false)
    {
      last, top, max, mask := 0, 0, num, m;
      table := new bool[num](_ => false);
    }

    /**
     * hgrnic_alloc: the chosen bit is set and returned OR-ed with the
     * prefix; a full bitmap gives -1. A scan that runs off the end advances
     * the prefix. AllocStepFacts says what the result is.
     */
    method Alloc() returns (obj: nat)
      requires Valid()
      modifies this, table
      ensures Valid() && table == old(table) && max == old(max) && mask == old(mask)
      ensures AllocState(obj, Bits(), last, top) == AllocStep(old(Bits()), old(last), old(top), mask)
    {
      AllocStepFacts(table[..], last, top, mask);
      var n := FirstZeroFrom(table[..], last);
      if n >= max {
        top := NextTop(top, max, mask);
        n := FirstZeroFrom(table[..], 0);
      }
      if n < max {
        last := n + 1;
        if last == max {
          last := 0;
        }
        table[n] := true;
        obj := BitOr(n, top);
      } else {
        obj := U32_ALL_ONES;
      }
    }

    /** hgrnic_free: clears bit obj & (max - 1), advances the prefix and leaves `last` alone. */
    method Free(obj: nat)
      requires Valid() && obj < U32
      modifies this, table
      ensures Valid() && table == old(table) && max == old(max) && mask == old(mask)
      ensures last == old(last)
      ensures top == NextTop(old(top), max, mask)
      ensures Bits() == old(Bits())[obj % max := false]
    {
      AndLowMask(obj, Log2(max));
      var k := BitAnd(obj, max - 1);
      table[k] := false;
      NextTopAligned(top, max, mask);
      top := NextTop(top, max, mask);
    }
  }

  /**
   * Freeing the number an allocation returned clears exactly the bit that
   * allocation set: the bitmap is as before the allocation.
   */
  lemma AllocFreeRestores(s: seq<bool>, last: nat, top: nat)
    requires ChosenBit(s, last) < |s| && top % |s| == 0
    ensures var k := ChosenBit(s, last);
      s[k := true][(k + top) % |s| := false] == s
  {
    ChosenBitIsFree(s, last);
    var k := ChosenBit(s, last);
    assert top == (top / |s|) * |s|;
    DivModUnique(k + top, |s|, top / |s|, k);
  }

  /**
   * hgrnic_alloc_init's check `num != 1 << (ffs(num) - 1)`: 1 << (ffs(num)-1)
   * is the lowest set bit of num, so the check accepts exactly the powers of
   * two. A zero num makes the C shift undefined; it is treated as rejected.
   */
  function InitCheck(num: nat): (err: int)
    ensures err == 0 <==> IsPow2(num)
    ensures err == 0 || err == -EINVAL
  {
    if num == 0 || num != LowestSetBit(num) then -EINVAL else 0
  }

  /** 1 << (ffs(x) - 1) for x > 0: the lowest set bit of x. */
  function LowestSetBit(x: nat): (r: nat)
    requires x > 0
    ensures IsPow2(r) && x % r == 0 && r <= x
    ensures r == x <==> IsPow2(x)
    decreases x
  {
    if x % 2 == 1 then 1
    else
      var h := LowestSetBit(x / 2);
      LowestSetBitStep(x, h);
      2 * h
  }

  lemma LowestSetBitStep(x: nat, h: nat)
    requires x > 0 && x % 2 == 0 && h >= 1
    requires IsPow2(h) && (x / 2) % h == 0 && h <= x / 2 && (h == x / 2 <==> IsPow2(x / 2))
    ensures IsPow2(2 * h) && x % (2 * h) == 0 && 2 * h <= x && (2 * h == x <==> IsPow2(x))
  {
    EvenMultiple(x, h);
    assert (2 * h) / 2 == h;
    assert IsPow2(x) <==> IsPow2(x / 2);
  }

  /** If x is even and h divides x / 2, then 2h divides x. */
  lemma EvenMultiple(x: nat, h: nat)
    requires x % 2 == 0 && h >= 1 && (x / 2) % h == 0
    ensures x % (2 * h) == 0
  {
    var y := x / 2;
    var q := y / h;
    assert y == q * h + y % h;
    MulTwoAssoc(q, h);
    DivModUnique(x, 2 * h, q, 0);
  }

  /**
   * hgrnic_alloc_init: -EINVAL for a size that is not a power of two,
   * -ENOMEM when the bitmap cannot be allocated (`kmallocOk` false),
   * otherwise an allocator with every bit clear and last = top = 0.
   */
  method AllocInit(num: nat, mask: nat, kmallocOk: bool) returns (err: int, a: NumAllocator?)
    requires num < U32 && LowMask(mask)
    ensures err == 0 || err == -EINVAL || err == -ENOMEM
    ensures err == -EINVAL <==> !IsPow2(num)
    ensures err == -ENOMEM <==> IsPow2(num) && !kmallocOk
    ensures err == 0 <==> a != null
    ensures a != null ==> (fresh(a) && fresh(a.table) && a.Valid() && a.max == num && a.mask == mask
      && a.last == 0 && a.top == 0 && a.Bits() == seq(num, _ => false))
  {
    err := InitCheck(num);
    if err != 0 {
      return err, null;
    }
    if !kmallocOk {
      return -ENOMEM, null;
    }
    a := new NumAllocator(num, mask);
  }

  /** A freshly initialised allocator hands out bit 0 first. */
  lemma FirstAllocIsZero(num: nat)
    requires num > 0
    ensures ChosenBit(seq(num, _ => false), 0) == 0
  {
  }

  /** HGRNIC_ARRAY_MASK + 1: a page of pointers holds 4096 / 8 = 512 slots. */
  const ARRAY_SLOTS: nat := 512
  const ARRAY_MASK: nat := ARRAY_SLOTS - 1

  /** A page of slots, or NULL. */
  type Page<V> = Option<seq<Option<V>>>

  /** Every present page has ARRAY_SLOTS slots. */
  ghost predicate PagesOk<V>(ps: seq<Page<V>>)
  {
    forall p :: 0 <= p < |ps| && ps[p].Some? ==> |ps[p].value| == ARRAY_SLOTS
  }

  /**
   * The page and slot of an index: (index * sizeof(void *)) >> PAGE_SHIFT
   * and index & HGRNIC_ARRAY_MASK.
   */
  function PageOf(index: nat): (p: nat)
    ensures p == index / ARRAY_SLOTS
  {
    PageShift(index);
    Shr(index * 8, PAGE_SHIFT)
  }

  lemma PageShift(index: nat)
    ensures Shr(index * 8, PAGE_SHIFT) == index / ARRAY_SLOTS
  {
    var r := index % ARRAY_SLOTS;
    assert index == (index / ARRAY_SLOTS) * ARRAY_SLOTS + r;
    assert Pow2(PAGE_SHIFT) == PAGE_SIZE;
    DivModUnique(index * 8, PAGE_SIZE, index / ARRAY_SLOTS, r * 8);
  }

  /** DIV_ROUND_UP(nent * sizeof(void *), PAGE_SIZE) pages hold nent slots. */
  lemma PagesCover(nent: nat)
    ensures ARRAY_SLOTS * ((nent * 8 + PAGE_SIZE - 1) / PAGE_SIZE) >= nent
  {
    var q := (nent * 8 + PAGE_SIZE - 1) / PAGE_SIZE;
    var r := (nent * 8 + PAGE_SIZE - 1) % PAGE_SIZE;
    assert nent * 8 + PAGE_SIZE - 1 == q * PAGE_SIZE + r;
    assert q * PAGE_SIZE == 8 * (ARRAY_SLOTS * q);
  }

  function SlotOf(index: nat): (s: nat)
    ensures s == index % ARRAY_SLOTS && s < ARRAY_SLOTS
  {
    AndLowMask(index, 9);
    BitAnd(index, ARRAY_MASK)
  }

  /** What hgrnic_array_get returns for an index: NULL when its page is absent. */
  function LookupIn<V>(ps: seq<Page<V>>, index: nat): Option<V>
    requires PagesOk(ps) && index < ARRAY_SLOTS * |ps|
  {
    var p := index / ARRAY_SLOTS;
    if ps[p].None? then None else ps[p].value[index % ARRAY_SLOTS]
  }

  /** The pages after storing v at index, the page being created zeroed if absent. */
  function StoreIn<V>(ps: seq<Page<V>>, index: nat, v: V): (r: seq<Page<V>>)
    requires PagesOk(ps) && index < ARRAY_SLOTS * |ps|
    ensures PagesOk(r) && |r| == |ps|
  {
    var p := index / ARRAY_SLOTS;
    var page := if ps[p].None? then seq(ARRAY_SLOTS, _ => None) else ps[p].value;
    ps[p := Some(page[index % ARRAY_SLOTS := Some(v)])]
  }

  /** The pages after clearing index: the page goes when `release` says its last use went. */
  function ClearIn<V>(ps: seq<Page<V>>, index: nat, release: bool): (r: seq<Page<V>>)
    requires PagesOk(ps) && index < ARRAY_SLOTS * |ps| && ps[index / ARRAY_SLOTS].Some?
    ensures PagesOk(r) && |r| == |ps|
  {
    var p := index / ARRAY_SLOTS;
    if release then ps[p := None] else ps[p := Some(ps[p].value[index % ARRAY_SLOTS := None])]
  }

  lemma PageBound(index: nat, n: nat)
    requires index < ARRAY_SLOTS * n
    ensures index / ARRAY_SLOTS < n
  {
  }

  /** Pages all absent, DIV_ROUND_UP(nent * 8, PAGE_SIZE) of them: every index below nent fits and reads NULL. */
  lemma EmptyPages<V>(ps: seq<Page<V>>, nent: nat)
    requires |ps| == (nent * 8 + PAGE_SIZE - 1) / PAGE_SIZE
    requires forall p :: 0 <= p < |ps| ==> ps[p].None?
    ensures PagesOk(ps) && ARRAY_SLOTS * |ps| >= nent
    ensures forall i :: 0 <= i < ARRAY_SLOTS * |ps| ==> LookupIn(ps, i) == None
  {
    PagesCover(nent);
    forall i | 0 <= i < ARRAY_SLOTS * |ps|
      ensures LookupIn(ps, i) == None
    {
      PageBound(i, |ps|);
    }
  }

  /** A store is seen at its own index and nowhere else. */
  lemma LookupAfterStore<V>(ps: seq<Page<V>>, index: nat, v: V, j: nat)
    requires PagesOk(ps) && index < ARRAY_SLOTS * |ps| && j < ARRAY_SLOTS * |ps|
    ensures LookupIn(StoreIn(ps, index, v), j) == if j == index then Some(v) else LookupIn(ps, j)
  {
    PageBound(index, |ps|);
    PageBound(j, |ps|);
    var p, q := index / ARRAY_SLOTS, j / ARRAY_SLOTS;
    var r := StoreIn(ps, index, v);
    if q != p {
      assert r[q] == ps[q];
    } else if j != index {
      SameIndex(j, index);
    }
  }

  /**
   * Clearing an index empties it; other indices keep their values unless
   * the page was released, which takes the whole page with it.
   */
  lemma LookupAfterClear<V>(ps: seq<Page<V>>, index: nat, release: bool, j: nat)
    requires PagesOk(ps) && index < ARRAY_SLOTS * |ps| && ps[index / ARRAY_SLOTS].Some?
    requires j < ARRAY_SLOTS * |ps|
    ensures j == index ==> LookupIn(ClearIn(ps, index, release), j) == None
    ensures j / ARRAY_SLOTS != index / ARRAY_SLOTS ==> LookupIn(ClearIn(ps, index, release), j) == LookupIn(ps, j)
    ensures !release && j != index ==> LookupIn(ClearIn(ps, index, release), j) == LookupIn(ps, j)
    ensures release && j / ARRAY_SLOTS == index / ARRAY_SLOTS ==> LookupIn(ClearIn(ps, index, release), j) == None
  {
    PageBound(index, |ps|);
    PageBound(j, |ps|);
    var p, q := index / ARRAY_SLOTS, j / ARRAY_SLOTS;
    var r := ClearIn(ps, index, release);
    if q != p {
      assert r[q] == ps[q];
    } else if !release && j != index {
      SameIndex(j, index);
      assert r[q].value[j % ARRAY_SLOTS] == ps[q].value[j % ARRAY_SLOTS];
    }
  }

  /**
   * Storing at an index and clearing it again, the page going when the
   * store had created it, leaves that index empty and every other index as
   * it was.
   */
  lemma StoreThenClear<V>(ps: seq<Page<V>>, used: seq<int>, index: nat, v: V)
    requires PagesOk(ps) && index < ARRAY_SLOTS * |ps| && |used| == |ps|
    requires forall p :: 0 <= p < |ps| ==> (ps[p].Some? <==> used[p] > 0)
    ensures var r := ClearIn(StoreIn(ps, index, v), index, used[index / ARRAY_SLOTS] == 0);
      LookupIn(r, index) == None
      && forall j :: 0 <= j < ARRAY_SLOTS * |ps| && j != index ==> LookupIn(r, j) == LookupIn(ps, j)
  {
    PageBound(index, |ps|);
    var p := index / ARRAY_SLOTS;
    var release := used[p] == 0;
    var st := StoreIn(ps, index, v);
    LookupAfterClear(st, index, release, index);
    forall j | 0 <= j < ARRAY_SLOTS * |ps| && j != index
      ensures LookupIn(ClearIn(st, index, release), j) == LookupIn(ps, j)
    {
      LookupAfterStore(ps, index, v, j);
      LookupAfterClear(st, index, release, j);
      PageBound(j, |ps|);
    }
  }

  /** Distinct indices on the same page sit in distinct slots. */
  lemma SameIndex(a: nat, b: nat)
    requires a / ARRAY_SLOTS == b / ARRAY_SLOTS && a != b
    ensures a % ARRAY_SLOTS != b % ARRAY_SLOTS
  {
    assert a == (a / ARRAY_SLOTS) * ARRAY_SLOTS + a % ARRAY_SLOTS;
    assert b == (b / ARRAY_SLOTS) * ARRAY_SLOTS + b % ARRAY_SLOTS;
  }

  /** struct hgrnic_array: lazily created pages of slots, each with a use count. */
  class LookupArray<V> {
    var pages: array<Page<V>>
    var used: array<int>

    ghost predicate Valid()
      reads this, pages, used
    {
      pages != used as object && pages.Length == used.Length
      && PagesOk(pages[..])
      && (forall p :: 0 <= p < pages.Length ==> used[p] >= 0 && (pages[p].Some? <==> used[p] > 0))
    }

    /** Number of indices the array can hold. */
    ghost function Capacity(): nat
      reads this
    {
      ARRAY_SLOTS * pages.Length
    }

    /** The value stored at index, as hgrnic_array_get sees it. */
    ghost function Lookup(index: nat): Option<V>
      reads this, pages, used
      requires Valid() && index < Capacity()
    {
      LookupIn(pages[..], index)
    }

    /** hgrnic_array_init once the page list exists: every page absent with no uses. */
    constructor (nent: nat)
      ensures Valid() && fresh(pages) && fresh(used)
      ensures pages.Length == (nent * 8 + PAGE_SIZE - 1) / PAGE_SIZE
      ensures Capacity() >= nent
      ensures forall i :: 0 <= i < Capacity() ==> Lookup(i) == None
    {
      var npage := (nent * 8 + PAGE_SIZE - 1) / PAGE_SIZE;
      var ps := new Page<V>[npage];
      var us := new int[npage];
      var i := 0;
      while i < npage
        invariant 0 <= i <= npage
        invariant forall p :: 0 <= p < i ==> ps[p].None? && us[p] == 0
      {
        ps[i] := None;
        us[i] := 0;
        i := i + 1;
      }
      EmptyPages(ps[..], nent);
      pages, used := ps, us;
    }

    /** hgrnic_array_get. */
    method Get(index: nat) returns (r: Option<V>)
      requires Valid() && index < Capacity()
      ensures r == Lookup(index)
    {
      var p := PageOf(index);
      PageBound(index, pages.Length);
      if pages[p].Some? {
        r := pages[p].value[SlotOf(index)];
      } else {
        r := None;
      }
    }

    /**
     * hgrnic_array_set: creates the page on first use (`pageOk` says whether
     * the zeroed page could be allocated), stores the value and counts the use.
     */
    method Set(index: nat, value: V, pageOk: bool) returns (err: int)
      requires Valid() && index < Capacity()
      modifies pages, used
      ensures Valid()
      ensures var p := index / ARRAY_SLOTS;
        if old(pages[p]).None? && !pageOk then
          err == -ENOMEM && pages[..] == old(pages[..]) && used[..] == old(used[..])
        else
          err == 0 && pages[..] == StoreIn(old(pages[..]), index, value)
          && used[..] == old(used[..])[p := old(used[p]) + 1]
    {
      var p := PageOf(index);
      PageBound(index, pages.Length);
      var page := pages[p];
      if page.None? && pageOk {
        page := Some(seq(ARRAY_SLOTS, _ => None));
      }
      if page.None? {
        return -ENOMEM;
      }
      pages[p] := Some(page.value[SlotOf(index) := Some(value)]);
      used[p] := used[p] + 1;
      err := 0;
    }

    /**
     * hgrnic_array_clear: drops one use of the index's page; the last use
     * frees the page, otherwise only the slot is cleared. The page must be
     * present: the source writes through it otherwise.
     */
    method Clear(index: nat)
      requires Valid() && index < Capacity() && used[index / ARRAY_SLOTS] > 0
      modifies pages, used
      ensures Valid()
      ensures var p := index / ARRAY_SLOTS;
        used[..] == old(used[..])[p := old(used[p]) - 1]
        && pages[..] == ClearIn(old(pages[..]), index, old(used[p]) == 1)
    {
      var p := PageOf(index);
      PageBound(index, pages.Length);
      used[p] := used[p] - 1;
      if used[p] == 0 {
        pages[p] := None;
      } else {
        pages[p] := Some(pages[p].value[SlotOf(index) := None]);
      }
    }
  }

  /** hgrnic_array_init: -ENOMEM when the page list cannot be allocated (`kmallocOk` false). */
  method ArrayInit<V>(nent: nat, kmallocOk: bool) returns (err: int, a: LookupArray?<V>)
    ensures err == 0 || err == -ENOMEM
    ensures err == -ENOMEM <==> !kmallocOk
    ensures err == 0 <==> a != null
    ensures a != null ==> (fresh(a) && a.Valid() && a.Capacity() >= nent
      && forall i :: 0 <= i < a.Capacity() ==> a.Lookup(i) == None)
  {
    if !kmallocOk {
      return -ENOMEM, null;
    }
    err := 0;
    a := new LookupArray(nent);
  }
}
