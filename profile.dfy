/**
 * hgrnic_make_profile (hgrnic_icm.c): the packer that lays the five ICM
 * context regions (QP, CQ, EQ, MPT and MTT contexts) out in the device's
 * context memory. Each region is as large as its entries, but at least a
 * page; the regions are bubble-sorted by decreasing size, placed one after
 * the other from address 0, and the layout is refused with -ENOMEM once it
 * outgrows the memory the device offers. The bases are then handed out by
 * region type to the device limits and to the INIT_HCA parameters.
 */
module Profile {
  import opened Common

  // The region types, in the order of the HGRNIC_RES_* enumeration.
  const RES_QP: nat := 0
  const RES_CQ: nat := 1
  const RES_EQ: nat := 2
  const RES_MPT: nat := 3
  const RES_MTT: nat := 4
  const RES_NUM: nat := 5

  /** HGRNIC_NUM_EQS and HGRNIC_NUM_PDS. */
  const NUM_EQS: nat := 32
  const NUM_PDS: nat := 0x8000

  /** struct hgrnic_profile: the requested numbers of QPs, CQs, MPTs and MTT segments. */
  datatype Request = Request(numQp: nat, numCq: nat, numMpt: nat, numMtt: nat)

  /** The fields of struct hgrnic_dev_lim that the packer reads: context entry sizes in bytes and the context memory size. */
  datatype DevLim = DevLim(qpcEntrySz: nat, cqcEntrySz: nat, eqcEntrySz: nat, mptEntrySz: nat,
                           maxMttSeg: nat, maxIcmSz: nat)

  /** One element of the packer's profile array (struct hgrnic_resource). */
  datatype Resource = Resource(size: nat, start: nat, rtype: nat, num: nat, logNum: nat)

  /** What the packer writes into the device: dev->limits counts and the two dev->mr_table bases. */
  datatype DevProfile = DevProfile(numQps: nat, numCqs: nat, numEqs: nat, numMpts: nat, numMttSegs: nat,
                                   numPds: nat, mptBase: nat, mttBase: nat)

  /** What the packer writes into struct hgrnic_init_hca_param. */
  datatype HcaProfile = HcaProfile(qpcBase: nat, logNumQps: nat, cqcBase: nat, logNumCqs: nat,
                                   eqcBase: nat, logNumEqs: nat, mptBase: nat, logMptSz: nat, mttBase: nat)

  // ------------------------------------------------------------ region sizes

  /** max(ffs(num) - 1, 0): the exponent of the lowest set bit of num, 0 for 0. */
  function LogNum(num: nat): (r: nat)
  {
    if num == 0 then 0 else TrailingZeros(num)
  }

  /** For a power-of-two count, the log field is its exponent. */
  lemma LogNumOfPow2(num: nat)
    requires IsPow2(num)
    ensures Pow2(LogNum(num)) == num
  {
    TrailingZerosSplit(num);
    var k := LogNum(num);
    var p := Pow2(k);
    var q := num / p;
    assert num == q * p;
    assert q % 2 == 1;
    Pow2IsPow2(k);
    OddPow2Multiple(num, k, q);
  }

  /** An odd multiple of 2^k that is a power of two is 2^k itself. */
  lemma {:induction false} OddPow2Multiple(num: nat, k: nat, q: nat)
    requires IsPow2(num) && num == q * Pow2(k) && q % 2 == 1
    ensures num == Pow2(k)
    decreases k
  {
    if k == 0 {
      assert num == q;
      OddPow2(num);
    } else {
      var h := Pow2(k - 1);
      assert num == 2 * (q * h);
      assert num > 1;
      DivModUnique(num, 2, q * h, 0);
      OddPow2Multiple(num / 2, k - 1, q);
    }
  }

  lemma OddPow2(x: nat)
    requires IsPow2(x) && x % 2 == 1
    ensures x == 1
  {
  }

  /** The entry size of region type t. */
  function EntrySize(lim: DevLim, t: nat): nat
  {
    if t == RES_QP then lim.qpcEntrySz
    else if t == RES_CQ then lim.cqcEntrySz
    else if t == RES_EQ then lim.eqcEntrySz
    else if t == RES_MPT then lim.mptEntrySz
    else lim.maxMttSeg
  }

  /** The number of entries of region type t: the request's, and HGRNIC_NUM_EQS for the EQ region. */
  function EntryCount(req: Request, t: nat): nat
  {
    if t == RES_QP then req.numQp
    else if t == RES_CQ then req.numCq
    else if t == RES_EQ then NUM_EQS
    else if t == RES_MPT then req.numMpt
    else req.numMtt
  }

  /** The size of region type t: its entries, but never less than a page. */
  function RegionSize(req: Request, lim: DevLim, t: nat): (r: nat)
    ensures r >= PAGE_SIZE
  {
    var bytes := EntrySize(lim, t) * EntryCount(req, t);
    if bytes > PAGE_SIZE then bytes else PAGE_SIZE
  }

  /** The profile array entry for region type t as the first loop of hgrnic_make_profile leaves it. */
  function InitialRegion(req: Request, lim: DevLim, t: nat): Resource
  {
    Resource(RegionSize(req, lim, t), 0, t, EntryCount(req, t), LogNum(EntryCount(req, t)))
  }

  /** The profile array after the first loop of hgrnic_make_profile: one region per type, in type order. */
  function Initial(req: Request, lim: DevLim): (s: seq<Resource>)
    ensures |s| == RES_NUM && forall t :: 0 <= t < RES_NUM ==> s[t] == InitialRegion(req, lim, t)
  {
    [InitialRegion(req, lim, 0), InitialRegion(req, lim, 1), InitialRegion(req, lim, 2),
     InitialRegion(req, lim, 3), InitialRegion(req, lim, 4)]
  }

  // ------------------------------------------------------------ sorting

  /** The sizes do not increase along s. */
  ghost predicate Descending(s: seq<Resource>)
  {
    forall k, m :: 0 <= k < m < |s| ==> s[k].size >= s[m].size
  }

  /** The state of the bubble sort with i elements left to sort: s[i..] is in place and no bigger than anything before it. */
  ghost predicate SettledFrom(s: seq<Resource>, i: nat)
  {
    (forall k, m :: i <= k < m < |s| ==> s[k].size >= s[m].size)
    && (forall k, m :: 0 <= k < i <= m < |s| ==> s[k].size >= s[m].size)
  }

  /** The inner loop of the sort at j: the smallest of s[..j] is at j - 1, and s[i..] is settled. */
  ghost predicate Sinking(s: seq<Resource>, i: nat, j: nat)
  {
    1 <= j <= i <= |s| && SettledFrom(s, i) && forall k :: 0 <= k < j ==> s[k].size >= s[j - 1].size
  }

  /** One pass of the inner loop of the sort: the smallest of a[..i] sinks to a[i - 1]. */
  method SinkSmallest(a: array<Resource>, i: nat)
    requires 1 <= i <= a.Length && SettledFrom(a[..], i)
    modifies a
    ensures SettledFrom(a[..], i - 1) && multiset(a[..]) == multiset(old(a[..]))
  {
    ghost var s0 := a[..];
    var j := 1;
    while j < i
      invariant Sinking(a[..], i, j) && multiset(a[..]) == multiset(s0)
    {
      Compare(a[..], i, j);
      CompareSwap(a, j);
      j := j + 1;
    }
    SinkDone(a[..], i);
  }

  /** The body of the inner loop: a[j - 1] and a[j] swap when a[j] is the larger. */
  method CompareSwap(a: array<Resource>, j: nat)
    requires 1 <= j < a.Length
    modifies a
    ensures a[..] == Compared(old(a[..]), j)
  {
    if a[j].size > a[j - 1].size {
      a[j], a[j - 1] := a[j - 1], a[j];
    }
  }

  /** s after the comparison of elements j - 1 and j: the larger one first. */
  function Compared(s: seq<Resource>, j: nat): (r: seq<Resource>)
    requires 1 <= j < |s|
    ensures |r| == |s| && r[j - 1].size >= r[j].size
    ensures forall k :: 0 <= k < |s| && k != j && k != j - 1 ==> r[k] == s[k]
    ensures (r[j - 1] == s[j - 1] && r[j] == s[j]) || (r[j - 1] == s[j] && r[j] == s[j - 1])
  {
    if s[j].size > s[j - 1].size then s[j := s[j - 1]][j - 1 := s[j]] else s
  }

  /** One comparison of the inner loop keeps the smallest-so-far last, the settled tail and the regions. */
  lemma Compare(s: seq<Resource>, i: nat, j: nat)
    requires Sinking(s, i, j) && j < i
    ensures Sinking(Compared(s, j), i, j + 1) && multiset(Compared(s, j)) == multiset(s)
  {
    CompareSinks(s, i, j);
    ComparePermutes(s, j);
  }

  /** The comparison at j keeps the settled tail and moves the smallest of s[..j + 1] to j. */
  lemma CompareSinks(s: seq<Resource>, i: nat, j: nat)
    requires Sinking(s, i, j) && j < i
    ensures Sinking(Compared(s, j), i, j + 1)
  {
    var r := Compared(s, j);
    assert forall k :: 0 <= k < j - 1 ==> r[k] == s[k];
  }

  /** The comparison at j swaps two elements or none: the same regions. */
  lemma ComparePermutes(s: seq<Resource>, j: nat)
    requires 1 <= j < |s|
    ensures multiset(Compared(s, j)) == multiset(s)
  {
    var r := Compared(s, j);
    if r != s {
      assert s == s[..j - 1] + [s[j - 1], s[j]] + s[j + 1..];
      assert r == s[..j - 1] + [s[j], s[j - 1]] + s[j + 1..];
    }
  }

  /** At the end of the inner loop one more element is settled. */
  lemma SinkDone(s: seq<Resource>, i: nat)
    requires Sinking(s, i, i)
    ensures SettledFrom(s, i - 1)
  {
  }

  /** The bubble sort of hgrnic_make_profile: decreasing sizes, same regions. */
  method SortBySize(a: array<Resource>)
    modifies a
    ensures Descending(a[..]) && multiset(a[..]) == multiset(old(a[..]))
  {
    var i := a.Length;
    while i > 0
      invariant 0 <= i <= a.Length
      invariant SettledFrom(a[..], i) && multiset(a[..]) == multiset(old(a[..]))
    {
      SinkSmallest(a, i);
      i := i - 1;
    }
  }

  // ------------------------------------------------------------ placing

  /** The total size of the regions of s. */
  function SizeSum(s: seq<Resource>): nat
  {
    if s == [] then 0 else SizeSum(s[..|s| - 1]) + s[|s| - 1].size
  }

  /** Region i after placing: at the running total of the sizes before it, when it has a size at all. */
  function Placed(s: seq<Resource>, i: nat): Resource
    requires i < |s|
  {
    if s[i].size != 0 then s[i].(start := SizeSum(s[..i])) else s[i]
  }

  /** Placing a region changes only its start. */
  lemma PlacedKeeps(s: seq<Resource>, i: nat)
    requires i < |s|
    ensures Placed(s, i).rtype == s[i].rtype && Placed(s, i).size == s[i].size
  {
  }

  /**
   * The placing loop of hgrnic_make_profile: each region starts where the
   * ones before it end; -ENOMEM exactly when all of them together need more
   * than avail bytes.
   */
  method PlaceRegions(a: array<Resource>, avail: nat) returns (total: int)
    modifies a
    ensures total == -ENOMEM <==> SizeSum(old(a[..])) > avail
    ensures total != -ENOMEM ==>
      total == SizeSum(old(a[..])) && a.Length == |old(a[..])| && forall i :: 0 <= i < a.Length ==> a[i] == Placed(old(a[..]), i)
  {
    ghost var s := a[..];
    total := 0;
    var i := 0;
    while i < a.Length
      invariant 0 <= i <= a.Length && total == SizeSum(s[..i]) <= avail
      invariant forall k :: 0 <= k < i ==> a[k] == Placed(s, k)
      invariant forall k :: i <= k < a.Length ==> a[k] == s[k]
    {
      assert s[..i + 1][..i] == s[..i];
      if a[i].size != 0 {
        a[i] := a[i].(start := total);
        total := total + a[i].size;
      }
      if total > avail {
        SizeSumMonotone(s, i + 1);
        total := -ENOMEM;
        return;
      }
      i := i + 1;
    }
    assert s[..i] == s;
  }

  /** A prefix's total is no more than the whole. */
  lemma {:induction false} SizeSumMonotone(s: seq<Resource>, i: nat)
    requires i <= |s|
    ensures SizeSum(s[..i]) <= SizeSum(s)
    decreases |s| - i
  {
    if i < |s| {
      SizeSumMonotone(s, i + 1);
      assert s[..i + 1][..i] == s[..i];
    } else {
      assert s[..i] == s;
    }
  }

  /** Regions placed earlier end before later ones start. */
  lemma {:induction false} PlacedBefore(s: seq<Resource>, i: nat, j: nat)
    requires i < j <= |s|
    ensures SizeSum(s[..i]) + s[i].size <= SizeSum(s[..j])
    decreases j - i
  {
    assert s[..i + 1][..i] == s[..i];
    if j > i + 1 {
      PlacedBefore(s, i, j - 1);
      assert s[..j][..j - 1] == s[..j - 1];
    }
  }

  /**
   * Why the sort comes first: in a descending sequence of power-of-two sizes
   * every region starts at a multiple of its own size.
   */
  lemma {:induction false} PlacedAligned(s: seq<Resource>, i: nat)
    requires i < |s| && Descending(s) && forall k :: 0 <= k < |s| ==> IsPow2(s[k].size)
    ensures s[i].size > 0 && SizeSum(s[..i]) % s[i].size == 0
  {
    assert IsPow2(s[i].size);
    SumOfMultiples(s, i, s[i].size);
  }

  lemma {:induction false} SumOfMultiples(s: seq<Resource>, i: nat, d: nat)
    requires i <= |s| && d >= 1 && IsPow2(d)
    requires forall k :: 0 <= k < i ==> IsPow2(s[k].size) && s[k].size >= d
    ensures SizeSum(s[..i]) % d == 0
    decreases i
  {
    if i > 0 {
      assert s[..i][..i - 1] == s[..i - 1];
      SumOfMultiples(s, i - 1, d);
      Pow2Multiple(s[i - 1].size, d);
      var x, y := SizeSum(s[..i - 1]), s[i - 1].size;
      assert SizeSum(s[..i]) == x + y;
      AddMultiples(x, y, d);
    } else {
      DivModUnique(0, d, 0, 0);
    }
  }

  lemma AddMultiples(x: nat, y: nat, d: nat)
    requires d >= 1 && x % d == 0 && y % d == 0
    ensures (x + y) % d == 0
  {
    var a, b := x / d, y / d;
    assert x == a * d && y == b * d;
    assert x + y == (a + b) * d;
    DivModUnique(x + y, d, a + b, 0);
  }

  /** Of two powers of two, the larger is a multiple of the smaller. */
  lemma Pow2Multiple(x: nat, d: nat)
    requires IsPow2(x) && IsPow2(d) && x >= d
    ensures x % d == 0
  {
    var kx, kd := Log2(x), Log2(d);
    if kx < kd {
      Pow2Monotone(kx + 1, kd);
      assert false;
    }
    Pow2Divides(kd, kx);
  }

  // ------------------------------------------------------------ distribution

  /** The index of the last region of type t in s, or -1. */
  function LastOfType(s: seq<Resource>, t: nat): (r: int)
    ensures -1 <= r < |s|
    ensures r >= 0 ==> s[r].rtype == t && forall k :: r < k < |s| ==> s[k].rtype != t
    ensures r == -1 ==> forall k :: 0 <= k < |s| ==> s[k].rtype != t
  {
    if s == [] then -1
    else if s[|s| - 1].rtype == t then |s| - 1
    else LastOfType(s[..|s| - 1], t)
  }

  /** The device and INIT_HCA fields that belong to region type t hold r's number, base and log. */
  ghost predicate Holds(d: DevProfile, h: HcaProfile, t: nat, r: Resource)
  {
    if t == RES_QP then d.numQps == r.num && h.qpcBase == r.start && h.logNumQps == r.logNum
    else if t == RES_CQ then d.numCqs == r.num && h.cqcBase == r.start && h.logNumCqs == r.logNum
    else if t == RES_EQ then d.numEqs == r.num && h.eqcBase == r.start && h.logNumEqs == r.logNum
    else if t == RES_MPT then d.numMpts == r.num && d.mptBase == r.start && h.mptBase == r.start && h.logMptSz == r.logNum
    else if t == RES_MTT then d.numMttSegs == r.num && d.mttBase == r.start && h.mttBase == r.start
    else true
  }

  /** The fields of region type t are as in (d0, h0). */
  ghost predicate Same(d: DevProfile, h: HcaProfile, d0: DevProfile, h0: HcaProfile, t: nat)
  {
    if t == RES_QP then d.numQps == d0.numQps && h.qpcBase == h0.qpcBase && h.logNumQps == h0.logNumQps
    else if t == RES_CQ then d.numCqs == d0.numCqs && h.cqcBase == h0.cqcBase && h.logNumCqs == h0.logNumCqs
    else if t == RES_EQ then d.numEqs == d0.numEqs && h.eqcBase == h0.eqcBase && h.logNumEqs == h0.logNumEqs
    else if t == RES_MPT then d.numMpts == d0.numMpts && d.mptBase == d0.mptBase && h.mptBase == h0.mptBase && h.logMptSz == h0.logMptSz
    else if t == RES_MTT then d.numMttSegs == d0.numMttSegs && d.mttBase == d0.mttBase && h.mttBase == h0.mttBase
    else true
  }

  /** One case of the switch of hgrnic_make_profile: region r's type gets r's fields, nothing else changes. */
  function Assign(d: DevProfile, h: HcaProfile, r: Resource): (p: (DevProfile, HcaProfile))
    ensures Holds(p.0, p.1, r.rtype, r)
    ensures forall t :: t != r.rtype ==> Same(p.0, p.1, d, h, t)
    ensures p.0.numPds == d.numPds
  {
    match r.rtype
    case 0 => (d.(numQps := r.num), h.(qpcBase := r.start, logNumQps := r.logNum))
    case 1 => (d.(numCqs := r.num), h.(cqcBase := r.start, logNumCqs := r.logNum))
    case 2 => (d.(numEqs := r.num), h.(eqcBase := r.start, logNumEqs := r.logNum))
    case 3 => (d.(numMpts := r.num, mptBase := r.start), h.(mptBase := r.start, logMptSz := r.logNum))
    case 4 => (d.(numMttSegs := r.num, mttBase := r.start), h.(mttBase := r.start))
    case _ => (d, h)
  }

  /** For each type, the fields hold the last region of that type seen in s, or are untouched when there is none. */
  ghost predicate Reflects(d: DevProfile, h: HcaProfile, d0: DevProfile, h0: HcaProfile, s: seq<Resource>)
  {
    forall t :: 0 <= t < RES_NUM ==>
      var k := LastOfType(s, t);
      if k >= 0 then Holds(d, h, t, s[k]) else Same(d, h, d0, h0, t)
  }

  /** The distribution loop of hgrnic_make_profile over the sorted, placed regions. */
  method Distribute(a: array<Resource>, d0: DevProfile, h0: HcaProfile) returns (d: DevProfile, h: HcaProfile)
    ensures Reflects(d, h, d0, h0, a[..]) && d.numPds == d0.numPds
  {
    d, h := d0, h0;
    var i := 0;
    while i < a.Length
      invariant 0 <= i <= a.Length && Reflects(d, h, d0, h0, a[..i]) && d.numPds == d0.numPds
    {
      ReflectsStep(d, h, d0, h0, a[..i], a[i]);
      assert a[..i + 1] == a[..i] + [a[i]];
      d, h := Assign(d, h, a[i]).0, Assign(d, h, a[i]).1;
      i := i + 1;
    }
    assert a[..i] == a[..];
  }

  lemma ReflectsStep(d: DevProfile, h: HcaProfile, d0: DevProfile, h0: HcaProfile, s: seq<Resource>, r: Resource)
    requires Reflects(d, h, d0, h0, s)
    ensures Reflects(Assign(d, h, r).0, Assign(d, h, r).1, d0, h0, s + [r])
  {
    var s' := s + [r];
    assert s'[..|s'| - 1] == s;
    var p := Assign(d, h, r);
    forall t | 0 <= t < RES_NUM
      ensures var k := LastOfType(s', t);
        if k >= 0 then Holds(p.0, p.1, t, s'[k]) else Same(p.0, p.1, d0, h0, t)
    {
      if t != r.rtype {
        SameKeeps(p.0, p.1, d, h, d0, h0, t, s);
      }
    }
  }

  /** Untouched fields keep whatever they held. */
  lemma SameKeeps(d': DevProfile, h': HcaProfile, d: DevProfile, h: HcaProfile, d0: DevProfile, h0: HcaProfile,
                  t: nat, s: seq<Resource>)
    requires Same(d', h', d, h, t)
    ensures var k := LastOfType(s, t);
      k >= 0 ==> Holds(d, h, t, s[k]) ==> Holds(d', h', t, s[k])
    ensures Same(d, h, d0, h0, t) ==> Same(d', h', d0, h0, t)
  {
  }

  // ------------------------------------------------------------ the packer

  /** The base hgrnic_make_profile hands out for region type t. */
  function BaseOf(h: HcaProfile, t: nat): nat
  {
    if t == RES_QP then h.qpcBase
    else if t == RES_CQ then h.cqcBase
    else if t == RES_EQ then h.eqcBase
    else if t == RES_MPT then h.mptBase
    else h.mttBase
  }

  /** The total context memory the regions of a request need. */
  function TotalSize(req: Request, lim: DevLim): nat
  {
    SizeSum(Initial(req, lim))
  }

  /**
   * A successful layout of the request's regions in total bytes: every
   * region of its own size inside [0, total), no two overlapping, each
   * aligned to its size when all sizes are powers of two, and the counts,
   * bases and logs handed to the device and to INIT_HCA.
   */
  ghost predicate Packs(req: Request, lim: DevLim, total: nat, d: DevProfile, h: HcaProfile)
  {
    (forall t :: 0 <= t < RES_NUM ==> BaseOf(h, t) + RegionSize(req, lim, t) <= total)
    && (forall t, u :: 0 <= t < u < RES_NUM ==>
         BaseOf(h, t) + RegionSize(req, lim, t) <= BaseOf(h, u) || BaseOf(h, u) + RegionSize(req, lim, u) <= BaseOf(h, t))
    && ((forall t :: 0 <= t < RES_NUM ==> IsPow2(RegionSize(req, lim, t))) ==>
         forall t :: 0 <= t < RES_NUM ==> BaseOf(h, t) % RegionSize(req, lim, t) == 0)
    && d.numQps == req.numQp && d.numCqs == req.numCq && d.numEqs == NUM_EQS && d.numMpts == req.numMpt
    && d.numMttSegs == req.numMtt && d.numPds == NUM_PDS && d.mptBase == h.mptBase && d.mttBase == h.mttBase
    && h.logNumQps == LogNum(req.numQp) && h.logNumCqs == LogNum(req.numCq) && h.logNumEqs == LogNum(NUM_EQS)
    && h.logMptSz == LogNum(req.numMpt)
  }

  /** The first loop of hgrnic_make_profile: one region per type, sized and counted. */
  method NewProfile(req: Request, lim: DevLim) returns (a: array<Resource>)
    ensures fresh(a) && a[..] == Initial(req, lim)
  {
    a := new Resource[RES_NUM];
    var i := 0;
    while i < RES_NUM
      invariant 0 <= i <= RES_NUM && forall k :: 0 <= k < i ==> a[k] == InitialRegion(req, lim, k)
    {
      var num := EntryCount(req, i);
      a[i] := Resource(RegionSize(req, lim, i), 0, i, num, LogNum(num));
      i := i + 1;
    }
  }

  /**
   * hgrnic_make_profile. `callocOk` is the outcome of the profile array's
   * allocation. -ENOMEM with nothing written when that fails or when the
   * regions need more than the device's context memory; otherwise their
   * total size, laid out as Packs says.
   */
  method MakeProfile(req: Request, lim: DevLim, d0: DevProfile, h0: HcaProfile, callocOk: bool)
    returns (total: int, d: DevProfile, h: HcaProfile)
    ensures total == -ENOMEM <==> !callocOk || TotalSize(req, lim) > lim.maxIcmSz
    ensures total == -ENOMEM ==> d == d0 && h == h0
    ensures total != -ENOMEM ==> total == TotalSize(req, lim) && Packs(req, lim, total, d, h)
  {
    d, h := d0, h0;
    if !callocOk {
      return -ENOMEM, d, h;
    }
    var a := NewProfile(req, lim);
    ghost var s0 := a[..];
    SortBySize(a);
    ghost var s1 := a[..];
    SizeSumPermutation(s1, s0);
    total := PlaceRegions(a, lim.maxIcmSz);
    if total == -ENOMEM {
      return;
    }
    ghost var s2 := a[..];
    d, h := Distribute(a, d0, h0);
    d := d.(numPds := NUM_PDS);
    Packed(req, lim, s1, s2, d, h, d0, h0);
  }

  /** What the placed and distributed regions guarantee, from the three loops' results. */
  lemma Packed(req: Request, lim: DevLim, s1: seq<Resource>, s2: seq<Resource>,
               d: DevProfile, h: HcaProfile, d0: DevProfile, h0: HcaProfile)
    requires multiset(s1) == multiset(Initial(req, lim)) && Descending(s1)
    requires |s2| == |s1| && forall i :: 0 <= i < |s2| ==> s2[i] == Placed(s1, i)
    requires Reflects(d.(numPds := d0.numPds), h, d0, h0, s2) && d.numPds == NUM_PDS
    ensures Packs(req, lim, SizeSum(s1), d, h)
  {
    var d' := d.(numPds := d0.numPds);
    Locate(req, lim, s1, s2, d', h, d0, h0);
    var pos := Positions(s2);
    Within(req, lim, s1, d', h, pos);
    Disjoint(req, lim, s1, d', h, pos);
    if forall t :: 0 <= t < RES_NUM ==> IsPow2(RegionSize(req, lim, t)) {
      SortedSizes(req, lim, s1);
      Aligned(req, lim, s1, d', h, pos);
    }
    Counts(req, lim, s1, d', h, pos);
  }


  /** The regions of two permutations add up to the same total. */
  lemma {:induction false} SizeSumPermutation(s: seq<Resource>, t: seq<Resource>)
    requires multiset(s) == multiset(t)
    ensures SizeSum(s) == SizeSum(t)
    decreases |s|
  {
    if s != [] {
      var x := s[|s| - 1];
      assert x in multiset(t);
      var k :| 0 <= k < |t| && t[k] == x;
      var p, q := t[..k], t[k + 1..];
      assert t == p + [x] + q;
      assert s == s[..|s| - 1] + [x];
      assert multiset(s) == multiset(s[..|s| - 1]) + multiset{x};
      assert multiset(t) == multiset(p) + multiset{x} + multiset(q);
      assert multiset(p + q) == multiset(p) + multiset(q);
      var A, B := multiset(s[..|s| - 1]), multiset(p + q);
      assert A + multiset{x} == B + multiset{x};
      forall z
        ensures A[z] == B[z]
      {
        assert (A + multiset{x})[z] == (B + multiset{x})[z];
      }
      assert A == B;
      SizeSumPermutation(s[..|s| - 1], p + q);
      SizeSumMoved(p, x, q);
      assert SizeSum(s) == SizeSum(s[..|s| - 1]) + x.size;
      assert SizeSum(t) == SizeSum(p + q) + x.size;
      assert SizeSum(s) == SizeSum(t);
    } else {
      assert |t| == |multiset(t)| == 0;
      assert t == [] && s == [];
    }
  }

  /** Moving one region to the end does not change the total. */
  lemma {:induction false} SizeSumMoved(p: seq<Resource>, x: Resource, q: seq<Resource>)
    ensures SizeSum(p + [x] + q) == SizeSum(p + q) + x.size
    decreases |q|
  {
    if q == [] {
      assert p + [x] + q == p + [x];
      assert (p + [x])[..|p|] == p;
      assert p + q == p;
    } else {
      var q' := q[..|q| - 1];
      var y := q[|q| - 1];
      SizeSumMoved(p, x, q');
      assert p + [x] + q == (p + [x] + q') + [y];
      assert (p + [x] + q' + [y])[..|p + [x] + q'|] == p + [x] + q';
      assert p + q == (p + q') + [y];
      assert (p + q' + [y])[..|p + q'|] == p + q';
    }
  }

  /** Every region of a permutation of the initial array is the initial region of its own type, and every type is there. */
  lemma OneOfEach(req: Request, lim: DevLim, s0: seq<Resource>, s1: seq<Resource>)
    requires s0 == Initial(req, lim) && multiset(s1) == multiset(s0)
    ensures |s1| == RES_NUM
    ensures forall i :: 0 <= i < |s1| ==> s1[i].rtype < RES_NUM && s1[i] == s0[s1[i].rtype]
    ensures forall t :: 0 <= t < RES_NUM ==> LastOfType(s1, t) >= 0
  {
    assert |s1| == |multiset(s1)| == |multiset(s0)| == |s0|;
    forall i | 0 <= i < |s1|
      ensures s1[i].rtype < RES_NUM && s1[i] == s0[s1[i].rtype]
    {
      assert s1[i] in multiset(s0);
      var k :| 0 <= k < |s0| && s0[k] == s1[i];
    }
    forall t | 0 <= t < RES_NUM
      ensures LastOfType(s1, t) >= 0
    {
      assert s0[t] in multiset(s1);
      var i :| 0 <= i < |s1| && s1[i] == s0[t];
    }
  }

  /**
   * Region type t sits at position pos[t] of the sorted regions: there it
   * has its own size, number and log, its base is the total of the regions
   * before it, and the fields of its type hold it.
   */
  ghost predicate At(req: Request, lim: DevLim, s1: seq<Resource>, d: DevProfile, h: HcaProfile, pos: seq<nat>)
  {
    |pos| == RES_NUM
    && forall t :: 0 <= t < RES_NUM ==>
      pos[t] < |s1| && s1[pos[t]] == InitialRegion(req, lim, t) && BaseOf(h, t) == SizeSum(s1[..pos[t]])
      && Holds(d, h, t, InitialRegion(req, lim, t).(start := BaseOf(h, t)))
  }

  /** Where each type ended up after sorting. */
  function Positions(s2: seq<Resource>): (pos: seq<nat>)
    ensures |pos| == RES_NUM
  {
    seq(RES_NUM, t requires 0 <= t => if LastOfType(s2, t) >= 0 then LastOfType(s2, t) else 0)
  }

  /** The base field of a type holds the start of the region it was given. */
  lemma HoldsBase(d: DevProfile, h: HcaProfile, t: nat, r: Resource)
    requires t < RES_NUM && Holds(d, h, t, r)
    ensures BaseOf(h, t) == r.start
  {
  }

  /** One type's place in the sorted, placed and distributed regions. */
  lemma Located(req: Request, lim: DevLim, s1: seq<Resource>, s2: seq<Resource>, d: DevProfile, h: HcaProfile, t: nat)
    requires t < RES_NUM && LastOfType(s1, t) >= 0
    requires forall i :: 0 <= i < |s1| ==> s1[i] == InitialRegion(req, lim, s1[i].rtype)
    requires |s2| == |s1| && forall i :: 0 <= i < |s2| ==> s2[i] == Placed(s1, i)
    requires LastOfType(s2, t) >= 0 ==> Holds(d, h, t, s2[LastOfType(s2, t)])
    ensures var k := LastOfType(s2, t);
      0 <= k < |s1| && s1[k] == InitialRegion(req, lim, t) && BaseOf(h, t) == SizeSum(s1[..k])
      && Holds(d, h, t, InitialRegion(req, lim, t).(start := BaseOf(h, t)))
  {
    var i := LastOfType(s1, t);
    PlacedKeeps(s1, i);
    assert s2[i].rtype == t;
    var k := LastOfType(s2, t);
    PlacedKeeps(s1, k);
    assert s1[k].rtype == t;
    assert s1[k] == InitialRegion(req, lim, t);
    assert s1[k].size == RegionSize(req, lim, t) > 0;
    assert s2[k] == Placed(s1, k) == s1[k].(start := SizeSum(s1[..k]));
    HoldsBase(d, h, t, s2[k]);
  }

  /** After the packer's three loops every type has its place. */
  lemma Locate(req: Request, lim: DevLim, s1: seq<Resource>, s2: seq<Resource>,
               d: DevProfile, h: HcaProfile, d0: DevProfile, h0: HcaProfile)
    requires multiset(s1) == multiset(Initial(req, lim))
    requires |s2| == |s1| && forall i :: 0 <= i < |s2| ==> s2[i] == Placed(s1, i)
    requires Reflects(d, h, d0, h0, s2)
    ensures At(req, lim, s1, d, h, Positions(s2))
  {
    OneOfEach(req, lim, Initial(req, lim), s1);
    var pos := Positions(s2);
    forall t | 0 <= t < RES_NUM
      ensures pos[t] < |s1| && s1[pos[t]] == InitialRegion(req, lim, t) && BaseOf(h, t) == SizeSum(s1[..pos[t]])
        && Holds(d, h, t, InitialRegion(req, lim, t).(start := BaseOf(h, t)))
    {
      Located(req, lim, s1, s2, d, h, t);
    }
  }

  /** Every region ends within the total. */
  lemma Within(req: Request, lim: DevLim, s1: seq<Resource>, d: DevProfile, h: HcaProfile, pos: seq<nat>)
    requires At(req, lim, s1, d, h, pos)
    ensures forall t :: 0 <= t < RES_NUM ==> BaseOf(h, t) + RegionSize(req, lim, t) <= SizeSum(s1)
  {
    forall t | 0 <= t < RES_NUM
      ensures BaseOf(h, t) + RegionSize(req, lim, t) <= SizeSum(s1)
    {
      PlacedBefore(s1, pos[t], |s1|);
      assert s1[..|s1|] == s1;
    }
  }

  /** No two regions overlap. */
  lemma Disjoint(req: Request, lim: DevLim, s1: seq<Resource>, d: DevProfile, h: HcaProfile, pos: seq<nat>)
    requires At(req, lim, s1, d, h, pos)
    ensures forall t, u :: 0 <= t < u < RES_NUM ==>
      BaseOf(h, t) + RegionSize(req, lim, t) <= BaseOf(h, u) || BaseOf(h, u) + RegionSize(req, lim, u) <= BaseOf(h, t)
  {
    forall t, u | 0 <= t < u < RES_NUM
      ensures BaseOf(h, t) + RegionSize(req, lim, t) <= BaseOf(h, u) || BaseOf(h, u) + RegionSize(req, lim, u) <= BaseOf(h, t)
    {
      var k, l := pos[t], pos[u];
      assert s1[k].rtype == t && s1[l].rtype == u;
      if k < l {
        PlacedBefore(s1, k, l);
      } else {
        PlacedBefore(s1, l, k);
      }
    }
  }

  /** With power-of-two sizes every region is aligned to its size. */
  lemma Aligned(req: Request, lim: DevLim, s1: seq<Resource>, d: DevProfile, h: HcaProfile, pos: seq<nat>)
    requires At(req, lim, s1, d, h, pos) && Descending(s1)
    requires forall i :: 0 <= i < |s1| ==> IsPow2(s1[i].size)
    ensures forall t :: 0 <= t < RES_NUM ==> BaseOf(h, t) % RegionSize(req, lim, t) == 0
  {
    forall t | 0 <= t < RES_NUM
      ensures BaseOf(h, t) % RegionSize(req, lim, t) == 0
    {
      PlacedAligned(s1, pos[t]);
    }
  }

  /** The sizes of the sorted regions are those of the types. */
  lemma SortedSizes(req: Request, lim: DevLim, s1: seq<Resource>)
    requires multiset(s1) == multiset(Initial(req, lim))
    requires forall t :: 0 <= t < RES_NUM ==> IsPow2(RegionSize(req, lim, t))
    ensures forall i :: 0 <= i < |s1| ==> IsPow2(s1[i].size)
  {
    OneOfEach(req, lim, Initial(req, lim), s1);
  }

  /** The counts and logs handed out are those of the request. */
  lemma Counts(req: Request, lim: DevLim, s1: seq<Resource>, d: DevProfile, h: HcaProfile, pos: seq<nat>)
    requires At(req, lim, s1, d, h, pos)
    ensures d.numQps == req.numQp && d.numCqs == req.numCq && d.numEqs == NUM_EQS && d.numMpts == req.numMpt
      && d.numMttSegs == req.numMtt && d.mptBase == h.mptBase && d.mttBase == h.mttBase
      && h.logNumQps == LogNum(req.numQp) && h.logNumCqs == LogNum(req.numCq) && h.logNumEqs == LogNum(NUM_EQS)
      && h.logMptSz == LogNum(req.numMpt)
  {
    assert Holds(d, h, RES_QP, InitialRegion(req, lim, RES_QP).(start := BaseOf(h, RES_QP)));
    assert Holds(d, h, RES_CQ, InitialRegion(req, lim, RES_CQ).(start := BaseOf(h, RES_CQ)));
    assert Holds(d, h, RES_EQ, InitialRegion(req, lim, RES_EQ).(start := BaseOf(h, RES_EQ)));
    assert Holds(d, h, RES_MPT, InitialRegion(req, lim, RES_MPT).(start := BaseOf(h, RES_MPT)));
    assert Holds(d, h, RES_MTT, InitialRegion(req, lim, RES_MTT).(start := BaseOf(h, RES_MTT)));
  }
}
