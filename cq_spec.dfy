/**
 * Completion queues as seen by software: the entries of the ring, which of
 * them software owns, the compaction done when a queue pair is destroyed,
 * the copy done when the ring is resized, the work-queue tail update and the
 * decoding of one completion entry into a work completion.  Shared by the
 * kernel driver and the user-space library, which run the same algorithms.
 */
module CqSpec {
  import opened Common
  import opened Bytes

  /** HGRNIC_CQ_ENTRY_OWNER_HW: bit 7 of the owner byte. */
  const OWNER_HW: Byte := 0x80

  /**
   * One completion entry (struct hgrnic_cqe).  The error view of the same
   * 32 bytes (struct hgrnic_err_cqe) places syndrome and vendor_err where the
   * normal view has imm; both views are kept as separate fields.
   */
  datatype Cqe = Cqe(qpn: nat, rqpn: nat, rlid: nat, imm: nat, byteCnt: nat, wqe: nat,
                     opcode: Byte, isSend: Byte, syndrome: Byte, vendorErr: Byte,
                     owner: Byte)

  /** cqe_sw: software owns an entry whose owner bit 7 is clear. */
  predicate SwOwned(e: Cqe)
  {
    e.owner < OWNER_HW
  }

  /** set_cqe_hw: hand an entry back to hardware; nothing else changes. */
  function ToHw(e: Cqe): (r: Cqe)
    ensures !SwOwned(r)
    ensures r.owner == OWNER_HW
    ensures r.(owner := e.owner) == e
  {
    e.(owner := OWNER_HW)
  }

  /** Every entry of w handed back to hardware. */
  function HwAll(w: seq<Cqe>): (r: seq<Cqe>)
    ensures |r| == |w|
    ensures forall k :: 0 <= k < |w| ==> r[k] == ToHw(w[k])
  {
    seq(|w|, k requires 0 <= k < |w| => ToHw(w[k]))
  }

  /** The entry k places after position ci of ring s, wrapping around. */
  function At(s: seq<Cqe>, ci: nat, k: nat): Cqe
    requires |s| > 0
  {
    s[(ci + k) % |s|]
  }

  /** s with its first i entries handed back to hardware. */
  function HwPrefix(s: seq<Cqe>, i: nat): (r: seq<Cqe>)
    ensures |r| == |s|
  {
    seq(|s|, k requires 0 <= k < |s| => if k < i then ToHw(s[k]) else s[k])
  }

  /** Handing back one more entry extends the prefix; a prefix is HwAll of it followed by the rest. */
  lemma HwPrefixStep(s: seq<Cqe>, i: nat)
    requires i < |s|
    ensures HwPrefix(s, i)[i := ToHw(s[i])] == HwPrefix(s, i + 1)
  {
  }

  lemma HwPrefixSplit(s: seq<Cqe>, i: nat)
    requires i <= |s|
    ensures HwPrefix(s, i) == HwAll(s[..i]) + s[i..]
    ensures HwPrefix(s, 0) == s
  {
  }

  /**
   * The n entries of ring s from position ci onwards, wrapping around; index
   * cons_index & cqe of the source is (ci + k) % |s| here, the ring size
   * being a power of two.
   */
  function Window(s: seq<Cqe>, ci: nat, n: nat): (w: seq<Cqe>)
    requires |s| > 0
    ensures |w| == n
    ensures forall k :: 0 <= k < n ==> w[k] == At(s, ci, k)
  {
    seq(n, k requires 0 <= k < n => At(s, ci, k))
  }

  /** Two different offsets below the ring size name two different slots. */
  lemma SlotsDistinct(ci: nat, a: nat, b: nat, size: nat)
    requires a < size && b < size && a != b
    ensures (ci + a) % size != (ci + b) % size
  {
    var qa, qb := (ci + a) / size, (ci + b) / size;
    var ra, rb := (ci + a) % size, (ci + b) % size;
    if ra == rb {
      assert a - b == (qa - qb) * size by { MulSubDistrib(qa, qb, size); }
      if qa > qb {
        MulAtLeast(qa - qb, size);
      } else if qa < qb {
        MulAtLeast(qb - qa, size);
        MulSubDistrib(qb, qa, size);
      }
    }
  }

  /** Writing one slot of the ring changes exactly one element of the whole window. */
  lemma WindowUpdate(s: seq<Cqe>, ci: nat, t: nat, x: Cqe)
    requires 0 <= t < |s|
    ensures Window(s[(ci + t) % |s| := x], ci, |s|) == Window(s, ci, |s|)[t := x]
  {
    var l := |s|;
    var w1 := Window(s[(ci + t) % l := x], ci, l);
    var w2 := Window(s, ci, l)[t := x];
    forall k | 0 <= k < l
      ensures w1[k] == w2[k]
    {
      if k != t {
        SlotsDistinct(ci, k, t, l);
      }
    }
  }

  /** Handing the slot i places after ci back to hardware extends the handed-back prefix of the window. */
  lemma ReturnStep(s: seq<Cqe>, ci: nat, v0: seq<Cqe>, i: nat)
    requires i < |s| && |v0| == |s| && Window(s, ci, |s|) == HwPrefix(v0, i)
    ensures Window(s[(ci + i) % |s| := ToHw(s[(ci + i) % |s|])], ci, |s|) == HwPrefix(v0, i + 1)
  {
    assert s[(ci + i) % |s|] == v0[i] by {
      assert Window(s, ci, |s|)[i] == At(s, ci, i);
      assert HwPrefix(v0, i)[i] == v0[i];
    }
    WindowUpdate(s, ci, i, ToHw(v0[i]));
    HwPrefixStep(v0, i);
  }

  /** A window that starts r entries later is a slice of the whole window. */
  lemma WindowShift(s: seq<Cqe>, ci: nat, r: nat, m: nat)
    requires |s| > 0 && r + m <= |s|
    ensures Window(s, ci + r, m) == Window(s, ci, |s|)[r..r + m]
  {
  }

  // ---------------------------------------------------------------------
  // Compaction of a queue pair's completions (cq_clean).

  /** The producer search: offset from ci of the first hardware-owned entry, at most cap. */
  function Produced(s: seq<Cqe>, ci: nat, k: nat, cap: nat): (n: nat)
    requires |s| > 0 && k <= cap
    ensures k <= n <= cap
    decreases cap - k
  {
    if !SwOwned(At(s, ci, k)) || k == cap then k else Produced(s, ci, k + 1, cap)
  }

  /**
   * The producer search stops at the first hardware-owned entry: every entry
   * before it is software-owned, and when it stops short of cap the entry it
   * stops at is hardware-owned.
   */
  lemma {:induction false} ProducedSpec(s: seq<Cqe>, ci: nat, k: nat, cap: nat)
    requires |s| > 0 && k <= cap
    ensures var n := Produced(s, ci, k, cap);
      (forall j :: k <= j < n ==> SwOwned(At(s, ci, j)))
      && (n < cap ==> !SwOwned(At(s, ci, n)))
    decreases cap - k
  {
    if SwOwned(At(s, ci, k)) && k < cap {
      ProducedSpec(s, ci, k + 1, cap);
    }
  }

  /** A hardware-owned entry at offset j, k <= j <= cap, stops the search at or before j. */
  lemma {:induction false} ProducedStopsAt(s: seq<Cqe>, ci: nat, k: nat, cap: nat, j: nat)
    requires |s| > 0 && k <= j <= cap && !SwOwned(At(s, ci, j))
    ensures Produced(s, ci, k, cap) <= j
    ensures !SwOwned(At(s, ci, Produced(s, ci, k, cap)))
    decreases cap - k
  {
    if SwOwned(At(s, ci, k)) && k < cap {
      ProducedStopsAt(s, ci, k + 1, cap, j);
    }
  }

  /** The entries of w not belonging to queue pair qpn, in their order. */
  function Keep(w: seq<Cqe>, qpn: nat): (r: seq<Cqe>)
    ensures |r| <= |w|
  {
    if w == [] then [] else (if w[0].qpn == qpn then [] else [w[0]]) + Keep(w[1..], qpn)
  }

  /** The number of entries of w that belong to queue pair qpn. */
  function Removed(w: seq<Cqe>, qpn: nat): (r: nat)
    ensures r <= |w|
  {
    if w == [] then 0 else (if w[0].qpn == qpn then 1 else 0) + Removed(w[1..], qpn)
  }

  /**
   * Compaction loses nothing but the entries of qpn: the kept entries and the
   * removed ones add up to the input, none of the kept ones belongs to qpn,
   * every entry of another queue pair is kept as often as it occurs, and a
   * window without entries of qpn is left as it is.
   */
  lemma {:induction false} KeepFacts(w: seq<Cqe>, qpn: nat)
    ensures |Keep(w, qpn)| + Removed(w, qpn) == |w|
    ensures forall e: Cqe :: e in Keep(w, qpn) ==> e.qpn != qpn
    ensures forall e: Cqe :: e.qpn != qpn ==> multiset(Keep(w, qpn))[e] == multiset(w)[e]
    ensures (forall e: Cqe :: e in w ==> e.qpn != qpn) ==> Keep(w, qpn) == w
  {
    KeepCount(w, qpn);
    KeepOthers(w, qpn);
    KeepMultiset(w, qpn);
    KeepUntouched(w, qpn);
  }

  /** Kept and removed entries add up to the window. */
  lemma {:induction false} KeepCount(w: seq<Cqe>, qpn: nat)
    ensures |Keep(w, qpn)| + Removed(w, qpn) == |w|
  {
    if w != [] {
      KeepCount(w[1..], qpn);
    }
  }

  /** No kept entry belongs to qpn. */
  lemma {:induction false} KeepOthers(w: seq<Cqe>, qpn: nat)
    ensures forall e: Cqe :: e in Keep(w, qpn) ==> e.qpn != qpn
  {
    if w != [] {
      KeepOthers(w[1..], qpn);
    }
  }

  /** Every entry of another queue pair is kept as often as it occurs. */
  lemma {:induction false} KeepMultiset(w: seq<Cqe>, qpn: nat)
    ensures forall e: Cqe :: e.qpn != qpn ==> multiset(Keep(w, qpn))[e] == multiset(w)[e]
  {
    if w != [] {
      KeepMultiset(w[1..], qpn);
      assert w == [w[0]] + w[1..];
    }
  }

  /** A window without entries of qpn is kept whole. */
  lemma {:induction false} KeepUntouched(w: seq<Cqe>, qpn: nat)
    ensures (forall e: Cqe :: e in w ==> e.qpn != qpn) ==> Keep(w, qpn) == w
  {
    if w != [] {
      KeepUntouched(w[1..], qpn);
      assert w == [w[0]] + w[1..];
    }
  }

  /** Keep and Removed taken one entry further to the front. */
  lemma KeepCons(w: seq<Cqe>, j: nat, n: nat, qpn: nat)
    requires 0 < j <= n <= |w|
    ensures Keep(w[j - 1..n], qpn) == (if w[j - 1].qpn == qpn then [] else [w[j - 1]]) + Keep(w[j..n], qpn)
    ensures Removed(w[j - 1..n], qpn) == (if w[j - 1].qpn == qpn then 1 else 0) + Removed(w[j..n], qpn)
  {
    assert w[j - 1..n][1..] == w[j..n];
  }

  /**
   * The state of the backward sweep of cq_clean over the window v0 with the
   * producer at offset n: entries j .. n-1 have been examined, nfreed of them
   * belonged to qpn, and the kept ones have been moved up against n.
   */
  ghost predicate Sweeping(w: seq<Cqe>, v0: seq<Cqe>, j: nat, n: nat, nfreed: nat, qpn: nat)
  {
    j <= n <= |v0| && nfreed == Removed(v0[j..n], qpn) && j + nfreed <= n
    && w == v0[..j + nfreed] + Keep(v0[j..n], qpn) + v0[n..]
  }

  lemma SweepStart(v0: seq<Cqe>, n: nat, qpn: nat)
    requires n <= |v0|
    ensures Sweeping(v0, v0, n, n, 0, qpn)
  {
    assert v0[n..n] == [];
  }

  /** The entry about to be examined has not been overwritten yet. */
  lemma SweepRead(w: seq<Cqe>, v0: seq<Cqe>, j: nat, n: nat, nfreed: nat, qpn: nat)
    requires Sweeping(w, v0, j, n, nfreed, qpn) && j > 0
    ensures w[j - 1] == v0[j - 1]
  {
  }

  /** An entry of qpn is dropped: one more slot is freed. */
  lemma SweepDrop(w: seq<Cqe>, v0: seq<Cqe>, j: nat, n: nat, nfreed: nat, qpn: nat)
    requires Sweeping(w, v0, j, n, nfreed, qpn) && j > 0 && v0[j - 1].qpn == qpn
    ensures Sweeping(w, v0, j - 1, n, nfreed + 1, qpn)
  {
    KeepCons(v0, j, n, qpn);
  }

  /** An entry of another queue pair is moved nfreed slots towards the producer. */
  lemma SweepMove(w: seq<Cqe>, v0: seq<Cqe>, j: nat, n: nat, nfreed: nat, qpn: nat)
    requires Sweeping(w, v0, j, n, nfreed, qpn) && j > 0 && v0[j - 1].qpn != qpn
    ensures j - 1 + nfreed < |w|
    ensures Sweeping(w[j - 1 + nfreed := v0[j - 1]], v0, j - 1, n, nfreed, qpn)
  {
    KeepCons(v0, j, n, qpn);
    var t := j - 1 + nfreed;
    var w' := w[t := v0[j - 1]];
    var want := v0[..j - 1 + nfreed] + ([v0[j - 1]] + Keep(v0[j..n], qpn)) + v0[n..];
    assert |w'| == |want|;
    forall k | 0 <= k < |w'| ensures w'[k] == want[k]
    {
      if k < t {
      } else if k == t {
      } else if k < j + nfreed {
        assert false;
      }
    }
  }

  /** The whole window after the sweep, with the first r = Removed entries handed back. */
  function Cleaned(v: seq<Cqe>, n: nat, qpn: nat): (r: seq<Cqe>)
    requires n <= |v|
    ensures |r| == |v|
  {
    KeepFacts(v[..n], qpn);
    HwAll(v[..Removed(v[..n], qpn)]) + Keep(v[..n], qpn) + v[n..]
  }

  /**
   * The compacted window: the first r = Removed slots are handed back to
   * hardware, then come exactly the entries of the other queue pairs in their
   * order, none of qpn's, and from the producer on nothing has changed.
   */
  lemma CleanedFacts(v: seq<Cqe>, n: nat, qpn: nat)
    requires n <= |v|
    ensures var c := Cleaned(v, n, qpn); var r := Removed(v[..n], qpn);
      r <= n
      && c[r..n] == Keep(v[..n], qpn)
      && (forall e :: e in c[r..n] ==> e.qpn != qpn)
      && c[n..] == v[n..]
      && (forall k :: 0 <= k < r ==> c[k] == ToHw(v[k]))
  {
    KeepFacts(v[..n], qpn);
    var r := Removed(v[..n], qpn);
    var h := HwAll(v[..r]);
    var c := Cleaned(v, n, qpn);
    assert c == h + Keep(v[..n], qpn) + v[n..];
    assert c[r..n] == Keep(v[..n], qpn);
    assert c[n..] == v[n..];
  }

  /**
   * Read from the ring after compaction, the window from the new consumer
   * index ci + r up to the producer is the kept entries, and the window from
   * the producer on is what it was.
   */
  lemma CleanedWindow(s: seq<Cqe>, ci: nat, n: nat, qpn: nat, s': seq<Cqe>)
    requires |s| > 0 && n <= |s| && |s'| == |s|
    requires Window(s', ci, |s|) == Cleaned(Window(s, ci, |s|), n, qpn)
    ensures var r := Removed(Window(s, ci, |s|)[..n], qpn);
      r <= n
      && Window(s', ci + r, n - r) == Keep(Window(s, ci, |s|)[..n], qpn)
      && Window(s', ci + n, |s| - n) == Window(s, ci + n, |s| - n)
  {
    var v := Window(s, ci, |s|);
    var v' := Window(s', ci, |s|);
    var r := Removed(v[..n], qpn);
    assert v'[r..n] == Keep(v[..n], qpn) && v'[n..] == v[n..] by { CleanedFacts(v, n, qpn); }
    assert Window(s', ci + r, n - r) == v'[r..n] by { WindowShift(s', ci, r, n - r); }
    assert Window(s', ci + n, |s| - n) == v'[n..] by { WindowShift(s', ci, n, |s| - n); }
    assert Window(s, ci + n, |s| - n) == v[n..] by { WindowShift(s, ci, n, |s| - n); }
  }

  /** The sweep followed by handing back the freed slots yields the compacted window. */
  lemma CleanCompose(v: seq<Cqe>, w: seq<Cqe>, n: nat, nfreed: nat, qpn: nat)
    requires Sweeping(w, v, 0, n, nfreed, qpn)
    ensures nfreed == Removed(v[..n], qpn)
    ensures HwPrefix(w, nfreed) == Cleaned(v, n, qpn)
  {
    assert v[0..n] == v[..n];
    HwPrefixSplit(w, nfreed);
    assert w[..nfreed] == v[..nfreed];
    assert w[nfreed..] == Keep(v[..n], qpn) + v[n..];
  }

  /**
   * Ring s with consumer index ci is ring s0 read from ci0 after the
   * entries of queue pair qpn were removed (CqRing.Clean): of the
   * software-owned entries the others keep their order and move up, and
   * the consumer index moves past the slots freed.
   */
  ghost predicate Cleans(s0: seq<Cqe>, ci0: nat, s: seq<Cqe>, ci: nat, qpn: nat)
  {
    |s0| > 0 && |s| == |s0|
    && var v := Window(s0, ci0, |s0|);
       var n := Produced(s0, ci0, 0, |s0| - 1);
       ci == ci0 + Removed(v[..n], qpn) && Window(s, ci0, |s|) == Cleaned(v, n, qpn)
  }

  // ---------------------------------------------------------------------
  // Copy of the software-owned entries into a resized ring (resize_copy_cqes).

  /** dst after the first n entries from ci on have been copied from src, slot by slot. */
  function CopyInto(dst: seq<Cqe>, src: seq<Cqe>, ci: nat, n: nat): (r: seq<Cqe>)
    requires |dst| > 0 && |src| > 0
    ensures |r| == |dst|
  {
    if n == 0 then dst
    else CopyInto(dst, src, ci, n - 1)[(ci + n - 1) % |dst| := At(src, ci, n - 1)]
  }

  /**
   * When the copied entries fit the new ring, the new ring read from ci holds
   * the copied entries in their order, followed by what it held before.
   */
  lemma {:induction false} CopyIntoWindow(dst: seq<Cqe>, src: seq<Cqe>, ci: nat, n: nat)
    requires |dst| > 0 && |src| > 0 && n <= |dst|
    ensures Window(CopyInto(dst, src, ci, n), ci, |dst|)
      == Window(src, ci, n) + Window(dst, ci, |dst|)[n..]
  {
    if n > 0 {
      CopyIntoWindow(dst, src, ci, n - 1);
      WindowUpdate(CopyInto(dst, src, ci, n - 1), ci, n - 1, At(src, ci, n - 1));
    }
  }


  // ---------------------------------------------------------------------
  // The work-queue tail update of poll_one.

  /** Reducing modulo a multiple n of m does not change the remainder modulo m. */
  lemma ModOfMultiple(x: int, n: nat, m: nat)
    requires m > 0 && n > 0 && n % m == 0
    ensures (x % n) % m == x % m
  {
    var c := n / m;
    var q, r := x / n, x % n;
    assert n == c * m;
    assert q * n == (q * c) * m;
    assert r == (r / m) * m + r % m;
    assert x == (q * c + r / m) * m + r % m by {
      assert x == q * n + r;
      MulSubDistrib(q * c + r / m, q * c, m);
    }
    DivModUnique(x, m, q * c + r / m, r % m);
  }

  /**
   * The tail update of poll_one on 32-bit unsigned counters: tail advances by
   * the distance from the last completed index to the newly completed one,
   * going round the queue of max entries when the index did not grow.
   */
  function TailStep(tail: nat, lastCpl: nat, wqeIndex: nat, max: nat): (t: nat)
    ensures t < U32
  {
    if lastCpl < wqeIndex then (tail + (wqeIndex - lastCpl)) % U32
    else (tail + wqeIndex + max - lastCpl) % U32
  }

  /**
   * The invariant the tail keeps with last_cpl: tail, taken modulo the queue
   * size, is the slot after the last completed one.  wq_reset establishes it
   * with tail 0 and last_cpl max - 1.
   */
  ghost predicate TailSynced(tail: nat, lastCpl: nat, max: nat)
  {
    max > 0 && lastCpl < max && tail % max == (lastCpl + 1) % max
  }

  lemma TailSyncedAtReset(max: nat)
    requires max > 0
    ensures TailSynced(0, max - 1, max)
  {
  }

  /**
   * A completion at index wqeIndex retires (wqeIndex - lastCpl - 1) mod max + 1
   * work requests, between 1 and max, and keeps the tail in step with the new
   * last completed index, when the queue size is a power of two no larger
   * than 2^31.
   */
  lemma TailStepAdvances(tail: nat, lastCpl: nat, wqeIndex: nat, max: nat)
    requires IsPow2(max) && max < U32 && wqeIndex < max && tail < U32
    requires TailSynced(tail, lastCpl, max)
    ensures var t := TailStep(tail, lastCpl, wqeIndex, max);
      var d := (wqeIndex - lastCpl - 1) % max + 1;
      1 <= d <= max && t == (tail + d) % U32 && TailSynced(t, wqeIndex, max)
  {
    var d := (wqeIndex - lastCpl - 1) % max + 1;
    TailDelta(lastCpl, wqeIndex, max);
    var t := TailStep(tail, lastCpl, wqeIndex, max);
    assert t == (tail + d) % U32;
    assert t % max == (tail + d) % max by {
      Pow2DividesU32(max);
      ModOfMultiple(tail + d, U32, max);
    }
    TailResidue(tail, lastCpl, wqeIndex, max, d);
  }

  /** The distance from lastCpl to wqeIndex, going round a queue of max entries. */
  lemma TailDelta(lastCpl: nat, wqeIndex: nat, max: nat)
    requires lastCpl < max && wqeIndex < max
    ensures var d := (wqeIndex - lastCpl - 1) % max + 1;
      1 <= d <= max && d == (if lastCpl < wqeIndex then wqeIndex - lastCpl else wqeIndex + max - lastCpl)
  {
    if lastCpl < wqeIndex {
      DivModUnique(wqeIndex - lastCpl - 1, max, 0, wqeIndex - lastCpl - 1);
    } else {
      DivModUnique(wqeIndex - lastCpl - 1, max, -1, wqeIndex - lastCpl - 1 + max);
    }
  }

  lemma TailResidue(tail: nat, lastCpl: nat, wqeIndex: nat, max: nat, d: nat)
    requires max > 0 && lastCpl < max && wqeIndex < max
    requires tail % max == (lastCpl + 1) % max
    requires d == (if lastCpl < wqeIndex then wqeIndex - lastCpl else wqeIndex + max - lastCpl)
    ensures (tail + d) % max == (wqeIndex + 1) % max
  {
    var r := if lastCpl + 1 == max then 0 else lastCpl + 1;
    assert (lastCpl + 1) % max == r by {
      DivModUnique(lastCpl + 1, max, if lastCpl + 1 == max then 1 else 0, r);
    }
    var a := tail / max;
    assert tail == a * max + r;
    var k := if r + d == wqeIndex + 1 then 0 else 1;
    assert r + d == wqeIndex + 1 + k * max;
    assert tail + d == (a + k) * max + (wqeIndex + 1) by { MulSubDistrib(a + k, a, max); }
    ModAddMultiple(a + k, max, wqeIndex + 1);
  }

  lemma ModAddMultiple(c: int, m: nat, x: int)
    requires m > 0
    ensures (c * m + x) % m == x % m
  {
    assert x == (x / m) * m + x % m;
    assert c * m + x == (c + x / m) * m + x % m by { MulSubDistrib(c + x / m, c, m); }
    DivModUnique(c * m + x, m, c + x / m, x % m);
  }


  // ---------------------------------------------------------------------
  // Decoding one entry into a work completion (poll_one).

  /** Completion opcodes written by the device (enum in hgrnic_dev.h). */
  const OP_NOP: Byte := 0x00
  const OP_RDMA_WRITE: Byte := 0x08
  const OP_RDMA_WRITE_IMM: Byte := 0x09
  const OP_SEND: Byte := 0x0a
  const OP_SEND_IMM: Byte := 0x0b
  const OP_RDMA_READ: Byte := 0x10
  const OP_ATOMIC_CS: Byte := 0x11
  const OP_ATOMIC_FA: Byte := 0x12
  const OP_BIND_MW: Byte := 0x18
  const OP_RECV_ERR: Byte := 0xfe
  const OP_SEND_ERR: Byte := 0xff

  /** HGRNIC_ATOMIC_BYTE_LEN. */
  const ATOMIC_BYTE_LEN: nat := 8

  /** Work-completion status codes (enum ib_wc_status; ibv_wc_status has the same values). */
  const WC_SUCCESS: nat := 0
  const WC_LOC_LEN_ERR: nat := 1
  const WC_INV_EEC_STATE_ERR: nat := 18
  const WC_GENERAL_ERR: nat := 21

  /** Work-completion opcodes (enum ib_wc_opcode / ibv_wc_opcode). */
  const WC_SEND: nat := 0
  const WC_RDMA_WRITE: nat := 1
  const WC_RDMA_READ: nat := 2
  const WC_COMP_SWAP: nat := 3
  const WC_FETCH_ADD: nat := 4
  const WC_BIND_MW: nat := 5
  const WC_RECV: nat := 0x80
  const WC_RECV_RDMA_WITH_IMM: nat := 0x81

  /** IB_WC_WITH_IMM / IBV_WC_WITH_IMM. */
  const WC_WITH_IMM: nat := 2

  /** The low five bits of a receive opcode that carry immediate data (InfiniBand base transport opcodes). */
  const BTH_SEND_LAST_WITH_IMM: nat := 0x03
  const BTH_SEND_ONLY_WITH_IMM: nat := 0x05
  const BTH_RDMA_WRITE_LAST_WITH_IMM: nat := 0x09
  const BTH_RDMA_WRITE_ONLY_WITH_IMM: nat := 0x0b

  /** An error completion has opcode 0xfe (receive) or 0xff (send). */
  predicate IsError(e: Cqe)
  {
    e.opcode == OP_SEND_ERR || e.opcode == OP_RECV_ERR
  }

  /** Whether the completion belongs to the send queue. */
  predicate IsSend(e: Cqe)
  {
    if IsError(e) then e.opcode == OP_SEND_ERR else e.isSend != 0
  }

  /** The switch of handle_error_cqe: the status reported for an error syndrome. */
  function ErrorStatus(syndrome: Byte): (status: nat)
    ensures status != WC_SUCCESS
    ensures WC_LOC_LEN_ERR <= status <= WC_INV_EEC_STATE_ERR || status == WC_GENERAL_ERR
  {
    if 0x01 <= syndrome <= 0x06 then syndrome
    else if 0x10 <= syndrome <= 0x16 then syndrome - 0x10 + 7
    else if 0x20 <= syndrome <= 0x24 then syndrome - 0x20 + 14
    else WC_GENERAL_ERR
  }

  /** The syndrome the device uses for each specific error status (enum in hgrnic_cq.c). */
  function SyndromeOf(status: nat): (syndrome: Byte)
    requires WC_LOC_LEN_ERR <= status <= WC_INV_EEC_STATE_ERR
  {
    if status <= 6 then status
    else if status <= 13 then status - 7 + 0x10
    else status - 14 + 0x20
  }

  /**
   * The syndrome table is one to one: every specific status is reported for
   * exactly one syndrome, and any other syndrome is reported as a general
   * error.
   */
  lemma ErrorStatusTable(syndrome: Byte, status: nat)
    requires WC_LOC_LEN_ERR <= status <= WC_INV_EEC_STATE_ERR
    ensures ErrorStatus(SyndromeOf(status)) == status
    ensures ErrorStatus(syndrome) == status <==> syndrome == SyndromeOf(status)
    ensures ErrorStatus(syndrome) == WC_GENERAL_ERR <==>
      !(0x01 <= syndrome <= 0x06 || 0x10 <= syndrome <= 0x16 || 0x20 <= syndrome <= 0x24)
  {
  }

  /** opcode, flags and byte length reported for a successful send completion. */
  datatype SendInfo = SendInfo(opcode: nat, flags: nat, byteLen: Option<nat>)

  /** The send-opcode switch of the kernel's poll_one. */
  function KernelSend(op: Byte, byteCnt: nat): (r: SendInfo)
    ensures r.flags == WC_WITH_IMM <==> op == OP_RDMA_WRITE_IMM || op == OP_SEND_IMM
    ensures r.flags != WC_WITH_IMM ==> r.flags == 0
  {
    if op == OP_RDMA_WRITE then SendInfo(WC_RDMA_WRITE, 0, None)
    else if op == OP_RDMA_WRITE_IMM then SendInfo(WC_RDMA_WRITE, WC_WITH_IMM, None)
    else if op == OP_SEND then SendInfo(WC_SEND, 0, None)
    else if op == OP_SEND_IMM then SendInfo(WC_SEND, WC_WITH_IMM, None)
    else if op == OP_RDMA_READ then SendInfo(WC_RDMA_READ, 0, Some(byteCnt))
    else if op == OP_ATOMIC_CS then SendInfo(WC_COMP_SWAP, 0, Some(ATOMIC_BYTE_LEN))
    else if op == OP_ATOMIC_FA then SendInfo(WC_FETCH_ADD, 0, Some(ATOMIC_BYTE_LEN))
    else SendInfo(OP_NOP, 0, None)
  }

  /** The send-opcode switch of the user-space library's poll_one. */
  function UserSend(op: Byte, byteCnt: nat): (r: SendInfo)
    ensures r.flags == WC_WITH_IMM <==> op == OP_RDMA_WRITE_IMM || op == OP_SEND_IMM
    ensures r.flags != WC_WITH_IMM ==> r.flags == 0
  {
    if op == OP_RDMA_WRITE then SendInfo(WC_RDMA_WRITE, 0, None)
    else if op == OP_RDMA_WRITE_IMM then SendInfo(WC_RDMA_WRITE, WC_WITH_IMM, None)
    else if op == OP_SEND then SendInfo(WC_SEND, 0, None)
    else if op == OP_SEND_IMM then SendInfo(WC_SEND, WC_WITH_IMM, None)
    else if op == OP_RDMA_READ then SendInfo(WC_RDMA_READ, 0, Some(byteCnt))
    else if op == OP_ATOMIC_CS then SendInfo(WC_COMP_SWAP, 0, Some(byteCnt))
    else if op == OP_ATOMIC_FA then SendInfo(WC_FETCH_ADD, 0, Some(byteCnt))
    else if op == OP_BIND_MW then SendInfo(WC_BIND_MW, 0, None)
    else SendInfo(WC_SEND, 0, None)
  }

  /**
   * The kernel and the library report the same send completion except for
   * atomics, whose byte length the kernel fixes at 8 and the library takes
   * from the entry, and memory-window binds, which only the library names;
   * an unknown opcode is a plain send in both (HGRNIC_OPCODE_NOP and
   * IB_WC_SEND are both 0).  Only reads and atomics report a byte length.
   */
  lemma SendSidesAgree(op: Byte, byteCnt: nat)
    ensures op != OP_ATOMIC_CS && op != OP_ATOMIC_FA && op != OP_BIND_MW ==>
      KernelSend(op, byteCnt) == UserSend(op, byteCnt)
    ensures op == OP_ATOMIC_CS || op == OP_ATOMIC_FA ==>
      KernelSend(op, byteCnt) == UserSend(op, byteCnt).(byteLen := Some(ATOMIC_BYTE_LEN))
    ensures KernelSend(op, byteCnt).byteLen.Some? <==> op == OP_RDMA_READ || op == OP_ATOMIC_CS || op == OP_ATOMIC_FA
  {
  }

  /** opcode and immediate flag of a successful receive completion, from opcode & 0x1f. */
  function RecvOpcode(op: Byte): (r: (nat, bool))
  {
    var low := BitAnd(op, 0x1f);
    if low == BTH_SEND_LAST_WITH_IMM || low == BTH_SEND_ONLY_WITH_IMM then (WC_RECV, true)
    else if low == BTH_RDMA_WRITE_LAST_WITH_IMM || low == BTH_RDMA_WRITE_ONLY_WITH_IMM then (WC_RECV_RDMA_WITH_IMM, true)
    else (WC_RECV, false)
  }

  /**
   * A receive completion carries immediate data exactly when the low five
   * bits of its opcode name a SEND or RDMA WRITE with immediate, and it is
   * reported as an RDMA write with immediate exactly for the latter.
   */
  lemma RecvOpcodeClasses(op: Byte)
    ensures RecvOpcode(op).1 <==> op % 32 in {3, 5, 9, 11}
    ensures RecvOpcode(op).0 == WC_RECV_RDMA_WITH_IMM <==> op % 32 in {9, 11}
    ensures RecvOpcode(op).0 == WC_RECV || RecvOpcode(op).0 == WC_RECV_RDMA_WITH_IMM
  {
    AndLowMask(op, 5);
  }

  /** The work completion poll_one fills in (fields it leaves untouched are None). */
  datatype Wc = Wc(wrId: Option<nat>, qpn: nat, status: nat, opcode: Option<nat>,
                   flags: Option<nat>, byteLen: Option<nat>, imm: Option<nat>,
                   slid: Option<nat>, srcQp: Option<nat>, vendorErr: Option<nat>)

  /**
   * The work completion for entry e of queue pair qpn, whose work-request id
   * was looked up as wrId: an error entry sets only the id, the status from
   * its syndrome and the vendor error; a send entry its opcode, flags and,
   * for some opcodes, the byte length; a receive entry also the length, the
   * immediate data, the source LID and the 24-bit source QP.  kernel selects
   * the kernel's send switch, otherwise the library's.
   */
  function Completion(e: Cqe, wrId: Option<nat>, qpn: nat, kernel: bool): (wc: Wc)
  {
    if IsError(e) then
      Wc(wrId, qpn, ErrorStatus(e.syndrome), None, None, None, None, None, None, Some(e.vendorErr))
    else if IsSend(e) then
      var info := if kernel then KernelSend(e.opcode, e.byteCnt) else UserSend(e.opcode, e.byteCnt);
      Wc(wrId, qpn, WC_SUCCESS, Some(info.opcode), Some(info.flags), info.byteLen, None, None, None, None)
    else
      var (opcode, withImm) := RecvOpcode(e.opcode);
      Wc(wrId, qpn, WC_SUCCESS, Some(opcode), Some(if withImm then WC_WITH_IMM else 0),
         Some(e.byteCnt), if withImm then Some(e.imm) else None, Some(e.rlid),
         Some(BitAnd(e.rqpn, 0xff_ffff)), None)
  }

  /**
   * What a work completion promises its consumer: success exactly for a
   * non-error entry; an error carries the vendor code and no opcode; the
   * immediate data is present exactly when the immediate flag is set, and
   * only on receives; the source QP fits 24 bits.
   */
  lemma CompletionFacts(e: Cqe, wrId: Option<nat>, qpn: nat, kernel: bool)
    ensures var wc := Completion(e, wrId, qpn, kernel);
      wc.wrId == wrId && wc.qpn == qpn
      && (wc.status == WC_SUCCESS <==> !IsError(e))
      && (IsError(e) ==> wc.opcode.None? && wc.vendorErr == Some(e.vendorErr))
      && (!IsError(e) ==> wc.flags.Some? && (wc.imm.Some? <==> wc.flags.value == WC_WITH_IMM && !IsSend(e)))
      && (wc.imm.Some? ==> wc.imm.value == e.imm)
      && (wc.srcQp.Some? ==> wc.srcQp.value == e.rqpn % 0x100_0000)
  {
    Mask24(e.rqpn);
  }

  /** x & 0xffffff keeps the low 24 bits. */
  lemma Mask24(x: nat)
    ensures BitAnd(x, 0xff_ffff) == x % 0x100_0000
  {
    assert Pow2(8) == 256;
    Pow2Add(8, 8);
    Pow2Add(16, 8);
    AndLowMask(x, 24);
  }

  // ---------------------------------------------------------------------
  // What a poll loop has consumed and decoded (both poll_cq implementations)

  /**
   * Ring s, whose window from ci0 was v, after n entries were consumed:
   * those n were software-owned and are now handed back to hardware, the
   * rest of the window is as it was.
   */
  ghost predicate Consumed(s: seq<Cqe>, ci0: nat, v: seq<Cqe>, n: nat)
  {
    |s| > 0 && |v| == |s| && n <= |s|
    && Window(s, ci0, |s|) == HwPrefix(v, n)
    && forall k :: 0 <= k < n ==> SwOwned(v[k])
  }

  /**
   * The k-th completion decodes the k-th entry of window v, as the kernel's
   * poll_one (kernel) or the library's decodes it.
   */
  ghost predicate Decoded(wcs: seq<Wc>, v: seq<Cqe>, kernel: bool)
  {
    |wcs| <= |v| && forall k :: 0 <= k < |wcs| ==> wcs[k] == Completion(v[k], wcs[k].wrId, wcs[k].qpn, kernel)
  }

  lemma ConsumedNone(s: seq<Cqe>, ci0: nat)
    requires |s| > 0
    ensures Consumed(s, ci0, Window(s, ci0, |s|), 0)
  {
    HwPrefixSplit(Window(s, ci0, |s|), 0);
  }

  /**
   * The entry poll_one examines after n consumed entries: the n-th of v
   * while n is below the ring size, a handed-back one once it is not.
   */
  lemma NextEntry(s: seq<Cqe>, ci0: nat, v: seq<Cqe>, n: nat)
    requires Consumed(s, ci0, v, n)
    ensures n < |s| ==> s[(ci0 + n) % |s|] == v[n]
    ensures n == |s| ==> !SwOwned(s[(ci0 + n) % |s|])
  {
    var l := |s|;
    if n < l {
      assert Window(s, ci0, l)[n] == s[(ci0 + n) % l];
    } else {
      DivModUnique(ci0 + l, l, ci0 / l + 1, ci0 % l);
      assert Window(s, ci0, l)[0] == s[ci0 % l];
    }
  }

  /** Consuming the next entry, a software-owned one, extends the consumed prefix. */
  lemma ConsumeStep(s: seq<Cqe>, ci0: nat, v: seq<Cqe>, n: nat)
    requires Consumed(s, ci0, v, n) && SwOwned(s[(ci0 + n) % |s|])
    ensures n < |s| && s[(ci0 + n) % |s|] == v[n]
    ensures Consumed(s[(ci0 + n) % |s| := ToHw(s[(ci0 + n) % |s|])], ci0, v, n + 1)
  {
    NextEntry(s, ci0, v, n);
    ReturnStep(s, ci0, v, n);
  }

  lemma DecodedStep(wcs: seq<Wc>, v: seq<Cqe>, wc: Wc, kernel: bool)
    requires Decoded(wcs, v, kernel) && |wcs| < |v|
    requires wc == Completion(v[|wcs|], wc.wrId, wc.qpn, kernel)
    ensures Decoded(wcs + [wc], v, kernel)
  {
  }
}
