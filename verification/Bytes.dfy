/** Bytes, sectors, and the two ways the drivers place bytes: overwriting a range and concatenating disks. */
module Bytes {

  type Byte = b: int | 0 <= b < 256

  const SECTOR_SIZE: nat := 512
  const U32: nat := 0x1_0000_0000
  const U64: nat := 0x1_0000_0000_0000_0000

  /** `d` with the bytes from `at` on replaced by `p`: what one memcpy into a buffer leaves behind. */
  function Splice(d: seq<Byte>, at: nat, p: seq<Byte>): (r: seq<Byte>)
    requires at + |p| <= |d|
    ensures |r| == |d|
  {
    d[..at] + p + d[at + |p|..]
  }

  function Slice(d: seq<Byte>, at: nat, n: nat): seq<Byte>
    requires at + n <= |d|
  {
    d[at..at + n]
  }

  lemma SpliceAt(d: seq<Byte>, at: nat, p: seq<Byte>, x: nat)
    requires at + |p| <= |d| && x < |d|
    ensures Splice(d, at, p)[x] == if at <= x < at + |p| then p[x - at] else d[x]
  {
  }

  lemma SpliceReadBack(d: seq<Byte>, at: nat, p: seq<Byte>)
    requires at + |p| <= |d|
    ensures Splice(d, at, p)[at..at + |p|] == p
  {
  }

  lemma SpliceAdjacent(d: seq<Byte>, at: nat, p: seq<Byte>, q: seq<Byte>)
    requires at + |p| + |q| <= |d|
    ensures Splice(Splice(d, at, p), at + |p|, q) == Splice(d, at, p + q)
  {
  }

  /** Copying `s[from..k]` and then `s[k..to]` right behind it is copying `s[from..to]`. */
  lemma SpliceSlices(d: seq<Byte>, at: nat, s: seq<Byte>, from: nat, k: nat, to: nat)
    requires from <= k <= to <= |s| && at + (to - from) <= |d|
    ensures Splice(Splice(d, at, s[from..k]), at + (k - from), s[k..to]) == Splice(d, at, s[from..to])
  {
  }

  /** A write over a concatenation, cut where the two parts meet. */
  lemma SpliceAcross(a: seq<Byte>, b: seq<Byte>, at: nat, p: seq<Byte>, q: seq<Byte>)
    requires at + |p| == |a| && |q| <= |b|
    ensures Splice(a + b, at, p + q) == Splice(a, at, p) + Splice(b, 0, q)
  {
  }

  lemma SpliceLeft(a: seq<Byte>, b: seq<Byte>, at: nat, p: seq<Byte>)
    requires at + |p| <= |a|
    ensures Splice(a + b, at, p) == Splice(a, at, p) + b
  {
  }

  lemma SpliceRight(a: seq<Byte>, b: seq<Byte>, at: nat, p: seq<Byte>)
    requires |a| <= at && at + |p| <= |a| + |b|
    ensures Splice(a + b, at, p) == a + Splice(b, at - |a|, p)
  {
  }

  /** The bytes of a list of disks, laid end to end. */
  function Concat(disks: seq<seq<Byte>>): seq<Byte> {
    if disks == [] then [] else disks[0] + Concat(disks[1..])
  }

  function Sum(ns: seq<nat>): nat {
    if ns == [] then 0 else ns[0] + Sum(ns[1..])
  }

  lemma {:induction false} SumAppend(ns: seq<nat>, n: nat)
    ensures Sum(ns + [n]) == Sum(ns) + n
  {
    if ns == [] {
    } else {
      assert (ns + [n])[1..] == ns[1..] + [n];
      SumAppend(ns[1..], n);
    }
  }
}
