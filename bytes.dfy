/**
 * HGRNIC_GET and HGRNIC_PUT (hgrnic_dev.h): the big-endian field helpers
 * through which the driver reads firmware replies out of, and writes
 * command parameters into, a mailbox. The width of a field is the size of
 * the C variable involved: 1, 2, 4 or 8 bytes.
 */
module Bytes {
  import opened Common

  /** One byte of a mailbox. */
  type Byte = x: nat | x < 256

  /** A field width that the two macros accept. */
  predicate Width(w: nat)
  {
    w == 1 || w == 2 || w == 4 || w == 8
  }

  /** 256^w: the number of values a w-byte field can hold. */
  function Radix(w: nat): (r: nat)
    ensures r >= 1
  {
    if w == 0 then 1 else 256 * Radix(w - 1)
  }

  /** The w bytes of v modulo 256^w, most significant first (cpu_to_be16/32/64). */
  function BE(v: nat, w: nat): (r: seq<Byte>)
    ensures |r| == w
  {
    if w == 0 then [] else BE(v / 256, w - 1) + [v % 256]
  }

  /** The number that a run of bytes encodes, most significant first (be16/32/64_to_cpup). */
  function Value(bs: seq<Byte>): nat
  {
    if bs == [] then 0 else Value(bs[..|bs| - 1]) * 256 + bs[|bs| - 1]
  }

  /** HGRNIC_GET: the w-byte big-endian field at offset off. */
  function Get(buf: seq<Byte>, off: nat, w: nat): nat
    requires off + w <= |buf|
  {
    Value(buf[off..off + w])
  }

  /** buf with the bytes at offset off replaced by bs. */
  function Splice(buf: seq<Byte>, off: nat, bs: seq<Byte>): (r: seq<Byte>)
    requires off + |bs| <= |buf|
    ensures |r| == |buf|
  {
    buf[..off] + bs + buf[off + |bs|..]
  }

  /** HGRNIC_PUT: store v as a w-byte big-endian field at offset off, in place. */
  method Put(buf: array<Byte>, off: nat, w: nat, v: nat)
    requires Width(w) && off + w <= buf.Length
    modifies buf
    ensures buf[..] == Splice(old(buf[..]), off, BE(v, w))
  {
    var bytes := BE(v, w);
    ghost var before := buf[..];
    forall k | off <= k < off + w {
      buf[k] := bytes[k - off];
    }
    assert buf[..] == Splice(before, off, bytes) by {
      forall k | 0 <= k < buf.Length
        ensures buf[k] == Splice(before, off, bytes)[k]
      {
        if k < off {
          assert Splice(before, off, bytes)[k] == before[k];
        } else if k < off + w {
          assert Splice(before, off, bytes)[k] == bytes[k - off];
        } else {
          assert Splice(before, off, bytes)[k] == before[k];
        }
      }
    }
  }

  // ------------------------------------------------------------ properties

  /** Euclidean division by 256 undone: q * 256 + r with r < 256. */
  lemma DivMod256(q: nat, r: nat)
    requires r < 256
    ensures (q * 256 + r) / 256 == q && (q * 256 + r) % 256 == r
  {
  }

  /** Reducing the quotient modulo R and the whole modulo 256 R agree. */
  lemma ModRadixStep(v: nat, rw: nat)
    requires rw >= 1
    ensures ((v / 256) % rw) * 256 + v % 256 == v % (256 * rw)
  {
    var q := v / 256;
    var t := q / rw;
    var s := q % rw;
    assert q == t * rw + s;
    assert v == q * 256 + v % 256;
    assert v == t * (256 * rw) + (s * 256 + v % 256) by {
      assert q * 256 == (t * rw) * 256 + s * 256;
      assert (t * rw) * 256 == t * (256 * rw);
    }
    assert s * 256 + v % 256 < 256 * rw by {
      assert s <= rw - 1;
      assert s * 256 <= (rw - 1) * 256;
    }
    assert (v / (256 * rw)) == t && v % (256 * rw) == s * 256 + v % 256 by {
      var d := 256 * rw;
      var m := s * 256 + v % 256;
      assert v == t * d + m && 0 <= m < d;
      DivModUnique(v, d, t, m);
    }
  }

  /** GET of what PUT wrote: the value modulo 256^w. */
  lemma {:induction false} ValueOfBE(v: nat, w: nat)
    ensures Value(BE(v, w)) == v % Radix(w)
  {
    if w > 0 {
      var bs := BE(v, w);
      assert bs[..|bs| - 1] == BE(v / 256, w - 1);
      ValueOfBE(v / 256, w - 1);
      ModRadixStep(v, Radix(w - 1));
    }
  }

  /** A run of n bytes encodes a number below 256^n. */
  lemma {:induction false} ValueBound(bs: seq<Byte>)
    ensures Value(bs) < Radix(|bs|)
  {
    if bs != [] {
      var init := bs[..|bs| - 1];
      ValueBound(init);
      assert Value(init) <= Radix(|bs| - 1) - 1;
      assert Value(init) * 256 <= (Radix(|bs| - 1) - 1) * 256;
    }
  }

  /** PUT of what GET read gives the same bytes back. */
  lemma {:induction false} BEOfValue(bs: seq<Byte>)
    ensures BE(Value(bs), |bs|) == bs
  {
    if bs != [] {
      var init := bs[..|bs| - 1];
      var last := bs[|bs| - 1];
      DivMod256(Value(init), last);
      BEOfValue(init);
      assert bs == init + [last];
    }
  }

  /** GET after PUT at the same offset and width returns the value (reduced to the field's width). */
  lemma GetAfterPut(buf: seq<Byte>, off: nat, w: nat, v: nat)
    requires off + w <= |buf|
    ensures Get(Splice(buf, off, BE(v, w)), off, w) == v % Radix(w)
  {
    var s := Splice(buf, off, BE(v, w));
    assert s[off..off + w] == BE(v, w);
    ValueOfBE(v, w);
  }

  /** PUT leaves every byte outside its field as it was. */
  lemma PutFrame(buf: seq<Byte>, off: nat, bs: seq<Byte>, k: nat)
    requires off + |bs| <= |buf| && k < |buf| && (k < off || off + |bs| <= k)
    ensures Splice(buf, off, bs)[k] == buf[k]
  {
  }

  /** A field that PUT did not touch reads as before. */
  lemma GetFrame(buf: seq<Byte>, off: nat, bs: seq<Byte>, off': nat, w: nat)
    requires off + |bs| <= |buf| && off' + w <= |buf|
    requires off' + w <= off || off + |bs| <= off'
    ensures Get(Splice(buf, off, bs), off', w) == Get(buf, off', w)
  {
    assert Splice(buf, off, bs)[off'..off' + w] == buf[off'..off' + w];
  }

  /** For one-byte fields both macros copy the byte unchanged. */
  lemma OneByte(buf: seq<Byte>, off: nat, v: Byte)
    requires off < |buf|
    ensures BE(v, 1) == [v]
    ensures Get(buf, off, 1) == buf[off]
  {
    var one := buf[off..off + 1];
    assert one == [buf[off]];
    assert one[..0] == [];
    assert Value(one) == Value([]) * 256 + buf[off];
  }
}
