/**
 * The ring algorithms that the kernel driver (hgrnic_cq.c) and the user-space
 * library (cq.c) both run on a completion-queue buffer: handing every entry
 * to hardware after allocation, removing a queue pair's entries, and copying
 * the software-owned entries into a resized buffer.  A slot is chosen by
 * index & cqe in the source, which is index modulo the ring size here (the
 * ring size is a power of two, cqe = size - 1, see Common.AndLowMask).
 */
module CqRing {
  import opened CqSpec

  /** The initialisation loop of alloc_cq_buf: every entry is owned by hardware. */
  method MarkAllHw(buf: array<Cqe>)
    modifies buf
    ensures buf[..] == HwPrefix(old(buf[..]), buf.Length)
    ensures forall k :: 0 <= k < buf.Length ==> !SwOwned(buf[k])
  {
    ghost var s0 := buf[..];
    HwPrefixSplit(s0, 0);
    var i := 0;
    while i < buf.Length
      invariant 0 <= i <= buf.Length
      invariant buf[..] == HwPrefix(s0, i)
    {
      HwPrefixStep(s0, i);
      buf[i] := ToHw(buf[i]);
      i := i + 1;
    }
  }

  /**
   * The producer search of cq_clean: from the consumer index ci, the index of
   * the first hardware-owned entry, but at most ci + cqe.
   */
  method FindProducer(buf: array<Cqe>, ci: nat) returns (prod: nat)
    requires buf.Length > 0
    ensures prod == ci + Produced(buf[..], ci, 0, buf.Length - 1)
  {
    prod := ci;
    while SwOwned(buf[prod % buf.Length])
      invariant ci <= prod <= ci + buf.Length - 1
      invariant Produced(buf[..], ci, prod - ci, buf.Length - 1) == Produced(buf[..], ci, 0, buf.Length - 1)
      decreases ci + buf.Length - 1 - prod
    {
      if prod == ci + buf.Length - 1 {
        break;
      }
      prod := prod + 1;
    }
  }

  /**
   * The backward sweep of cq_clean: entries ci .. prod-1 are visited from the
   * producer down; entries of qpn are counted, every other entry is moved up
   * by the count so far.  The window from ci ends up as the original window
   * with the kept entries packed against the producer.
   */
  method Sweep(buf: array<Cqe>, ci: nat, prod: nat, qpn: nat) returns (nfreed: nat)
    requires ci <= prod < ci + buf.Length
    modifies buf
    ensures var v := Window(old(buf[..]), ci, buf.Length);
      Sweeping(Window(buf[..], ci, buf.Length), v, 0, prod - ci, nfreed, qpn)
  {
    ghost var v0 := Window(buf[..], ci, buf.Length);
    ghost var n := prod - ci;
    SweepStart(v0, n, qpn);
    var p := prod;
    nfreed := 0;
    while p > ci
      invariant ci <= p <= prod
      invariant Sweeping(Window(buf[..], ci, buf.Length), v0, p - ci, n, nfreed, qpn)
    {
      p := p - 1;
      ghost var w := Window(buf[..], ci, buf.Length);
      ghost var j := p - ci + 1;
      var e := buf[p % buf.Length];
      assert e == v0[j - 1] by {
        assert e == w[j - 1];
        SweepRead(w, v0, j, n, nfreed, qpn);
      }
      if e.qpn == qpn {
        SweepDrop(w, v0, j, n, nfreed, qpn);
        nfreed := nfreed + 1;
      } else if nfreed > 0 {
        SweepMove(w, v0, j, n, nfreed, qpn);
        WindowUpdate(buf[..], ci, j - 1 + nfreed, e);
        assert (ci + (j - 1 + nfreed)) % buf.Length == (p + nfreed) % buf.Length;
        buf[(p + nfreed) % buf.Length] := e;
      } else {
        SweepMove(w, v0, j, n, nfreed, qpn);
        assert w[j - 1 + nfreed := v0[j - 1]] == w;
      }
    }
  }

  /** The entries ci .. ci+count-1 are handed back to hardware. */
  method ReturnToHw(buf: array<Cqe>, ci: nat, count: nat)
    requires 0 < buf.Length && count <= buf.Length
    modifies buf
    ensures Window(buf[..], ci, buf.Length) == HwPrefix(Window(old(buf[..]), ci, buf.Length), count)
  {
    ghost var v0 := Window(buf[..], ci, buf.Length);
    HwPrefixSplit(v0, 0);
    var i := 0;
    while i < count
      invariant 0 <= i <= count
      invariant Window(buf[..], ci, buf.Length) == HwPrefix(v0, i)
    {
      var slot := (ci + i) % buf.Length;
      ReturnStep(buf[..], ci, v0, i);
      buf[slot] := ToHw(buf[slot]);
      i := i + 1;
    }
  }

  /**
   * cq_clean: remove the completions of queue pair qpn between the consumer
   * index ci and the producer, returning the new consumer index.  The window
   * from ci becomes Cleaned(...): the slots given up are owned by hardware,
   * the other queue pairs' entries follow in their order, and nothing from
   * the producer on changes (CleanedFacts, CleanedWindow).
   */
  method Clean(buf: array<Cqe>, ci: nat, qpn: nat) returns (newCi: nat)
    requires buf.Length > 0
    modifies buf
    ensures var v := Window(old(buf[..]), ci, buf.Length);
      var n := Produced(old(buf[..]), ci, 0, buf.Length - 1);
      newCi == ci + Removed(v[..n], qpn)
      && Window(buf[..], ci, buf.Length) == Cleaned(v, n, qpn)
  {
    ghost var v := Window(buf[..], ci, buf.Length);
    var prod := FindProducer(buf, ci);
    var nfreed := Sweep(buf, ci, prod, qpn);
    ghost var w := Window(buf[..], ci, buf.Length);
    CleanCompose(v, w, prod - ci, nfreed, qpn);
    if nfreed > 0 {
      ReturnToHw(buf, ci, nfreed);
    } else {
      HwPrefixSplit(w, 0);
    }
    newCi := ci + nfreed;
  }

  /**
   * The copy of resize_copy_cqes: from the consumer index ci, every entry of
   * src up to the first hardware-owned one is copied to the same index of
   * dst.  Returns how many were copied.  The loop of the source stops only at
   * a hardware-owned entry, so one is required to exist.
   */
  method CopyCqes(src: array<Cqe>, dst: array<Cqe>, ci: nat) returns (copied: nat)
    requires src != dst && src.Length > 0 && dst.Length > 0
    requires exists k :: 0 <= k < src.Length && !SwOwned(At(src[..], ci, k))
    modifies dst
    ensures copied == Produced(src[..], ci, 0, src.Length - 1)
    ensures !SwOwned(At(src[..], ci, copied))
    ensures forall k :: 0 <= k < copied ==> SwOwned(At(src[..], ci, k))
    ensures dst[..] == CopyInto(old(dst[..]), src[..], ci, copied)
  {
    ghost var n0 := Produced(src[..], ci, 0, src.Length - 1);
    ghost var hw :| 0 <= hw < src.Length && !SwOwned(At(src[..], ci, hw));
    ProducedStopsAt(src[..], ci, 0, src.Length - 1, hw);
    ProducedSpec(src[..], ci, 0, src.Length - 1);
    ghost var d0 := dst[..];
    var i := ci;
    while SwOwned(src[i % src.Length])
      invariant ci <= i <= ci + n0
      invariant dst[..] == CopyInto(d0, src[..], ci, i - ci)
      decreases ci + n0 - i
    {
      assert i - ci < n0;
      dst[i % dst.Length] := src[i % src.Length];
      i := i + 1;
      assert dst[..] == CopyInto(d0, src[..], ci, i - ci) by {
        assert At(src[..], ci, i - ci - 1) == src[(i - 1) % src.Length];
      }
    }
    assert At(src[..], ci, i - ci) == src[i % src.Length];
    copied := i - ci;
  }
}
