/** The RAM disk (ramdisk.c): one request copies scatter/gather segments to or from a byte array in place. */
module RamDisk {
  import opened Bytes

  /** One segment of a bio: `len` bytes of a page from `off` on. */
  datatype BioVec = BioVec(page: array<Byte>, off: nat, len: nat)

  predicate Fit(vecs: seq<BioVec>) {
    forall i :: 0 <= i < |vecs| ==> vecs[i].off + vecs[i].len <= vecs[i].page.Length
  }

  function Lengths(vecs: seq<BioVec>): (lens: seq<nat>) {
    if vecs == [] then [] else [vecs[0].len] + Lengths(vecs[1..])
  }

  function Total(vecs: seq<BioVec>): nat {
    Sum(Lengths(vecs))
  }

  /** Segment number and offset in it of byte `k` of the segments laid end to end. */
  function Locate(vecs: seq<BioVec>, k: nat): (p: (nat, nat))
    requires k < Total(vecs)
    ensures p.0 < |vecs| && p.1 < vecs[p.0].len
    decreases |vecs|
  {
    if k < vecs[0].len then (0, k)
    else var p := Locate(vecs[1..], k - vecs[0].len); (p.0 + 1, p.1)
  }

  function Page(vecs: seq<BioVec>, k: nat): array<Byte>
    requires k < Total(vecs)
  {
    vecs[Locate(vecs, k).0].page
  }

  /** Where in its page byte `k` lies. */
  function Pos(vecs: seq<BioVec>, k: nat): (x: nat)
    requires Fit(vecs) && k < Total(vecs)
    ensures x < Page(vecs, k).Length
  {
    var p := Locate(vecs, k); vecs[p.0].off + p.1
  }

  /** The next bytes of the same segment lie next to byte `k`. */
  lemma {:induction false} LocateRun(vecs: seq<BioVec>, k: nat, j: nat)
    requires k < Total(vecs) && Locate(vecs, k).1 + j < vecs[Locate(vecs, k).0].len
    ensures k + j < Total(vecs) && Locate(vecs, k + j) == (Locate(vecs, k).0, Locate(vecs, k).1 + j)
    decreases |vecs|
  {
    if k < vecs[0].len {
    } else {
      LocateRun(vecs[1..], k - vecs[0].len, j);
    }
  }

  predicate Apart(vecs: seq<BioVec>, a: nat, b: nat)
    requires Fit(vecs) && a < Total(vecs) && b < Total(vecs)
  {
    Page(vecs, a) != Page(vecs, b) || Pos(vecs, a) != Pos(vecs, b)
  }

  /** No byte of a page is named twice, so that a read does not overwrite what it has delivered. */
  ghost predicate Disjoint(vecs: seq<BioVec>)
    requires Fit(vecs)
  {
    forall a, b :: 0 <= a < Total(vecs) && 0 <= b < Total(vecs) && a != b ==> Apart(vecs, a, b)
  }

  function Pages(vecs: seq<BioVec>): set<array<Byte>> {
    set v | v in vecs :: v.page
  }

  /** The bytes of the segments laid end to end. */
  ghost function Stream(vecs: seq<BioVec>): (s: seq<Byte>)
    requires Fit(vecs)
    reads Pages(vecs)
    ensures |s| == Total(vecs)
    decreases |vecs|
  {
    if vecs == [] then []
    else vecs[0].page[vecs[0].off..vecs[0].off + vecs[0].len] + Stream(vecs[1..])
  }

  lemma {:induction false} StreamAt(vecs: seq<BioVec>, k: nat)
    requires Fit(vecs) && k < Total(vecs)
    ensures Page(vecs, k) in Pages(vecs)
    ensures Stream(vecs)[k] == Page(vecs, k)[Pos(vecs, k)]
    decreases |vecs|
  {
    if k < vecs[0].len {
      assert vecs[0] in vecs;
    } else {
      StreamAt(vecs[1..], k - vecs[0].len);
    }
  }

  lemma StreamRunAt(vecs: seq<BioVec>, k: nat, j: nat)
    requires Fit(vecs) && k < Total(vecs)
    requires Locate(vecs, k).1 + j < vecs[Locate(vecs, k).0].len
    ensures k + j < Total(vecs) && Page(vecs, k) in Pages(vecs)
    ensures Stream(vecs)[k + j] == Page(vecs, k)[Pos(vecs, k) + j]
  {
    LocateRun(vecs, k, j);
    StreamAt(vecs, k + j);
  }

  /** The part of one segment from byte `k` on is contiguous both in its page and in the stream. */
  lemma StreamRun(vecs: seq<BioVec>, k: nat, n: nat)
    requires Fit(vecs) && k < Total(vecs) && 0 < n
    requires Locate(vecs, k).1 + n <= vecs[Locate(vecs, k).0].len
    ensures k + n <= Total(vecs) && Page(vecs, k) in Pages(vecs)
    ensures Stream(vecs)[k..k + n] == Page(vecs, k)[Pos(vecs, k)..Pos(vecs, k) + n]
  {
    StreamRunAt(vecs, k, n - 1);
    var s, p := Stream(vecs)[k..k + n], Page(vecs, k)[Pos(vecs, k)..Pos(vecs, k) + n];
    forall j | 0 <= j < n ensures s[j] == p[j] {
      StreamRunAt(vecs, k, j);
    }
  }

  // ----- what a read leaves in the pages -----

  predicate Names(vecs: seq<BioVec>, k: nat, page: array<Byte>, x: nat)
    requires Fit(vecs) && k < Total(vecs)
  {
    Page(vecs, k) == page && Pos(vecs, k) == x
  }

  /** The last of the bytes [from, end) that lies at `x` of `page`, or -1. */
  function LastNaming(vecs: seq<BioVec>, from: nat, end: nat, page: array<Byte>, x: nat): (k: int)
    requires Fit(vecs) && end <= Total(vecs)
    ensures -1 <= k < end || k == -1
    ensures 0 <= k ==> from <= k && Names(vecs, k, page, x)
    ensures forall j :: from <= j < end && k < j ==> !Names(vecs, j, page, x)
    decreases end
  {
    if end <= from then -1
    else if Names(vecs, end - 1, page, x) then end - 1
    else LastNaming(vecs, from, end - 1, page, x)
  }

  /** A page that held `was`, once the bytes [from, end) of the segments have received `bytes` in order: each of its
      bytes holds what was delivered to it last, and those no segment names there hold what they held. */
  function PageAfter(vecs: seq<BioVec>, from: nat, end: nat, bytes: seq<Byte>, page: array<Byte>, was: seq<Byte>)
    : (now: seq<Byte>)
    requires Fit(vecs) && from <= end <= Total(vecs) && end - from <= |bytes|
    ensures |now| == |was|
  {
    seq(|was|, x requires 0 <= x < |was| =>
      var k := LastNaming(vecs, from, end, page, x); if k < 0 then was[x] else bytes[k - from])
  }

  /** The next byte of the same segment lies at the next place of the same page. */
  lemma PosRun(vecs: seq<BioVec>, k: nat, j: nat)
    requires Fit(vecs) && k < Total(vecs) && Locate(vecs, k).1 + j < vecs[Locate(vecs, k).0].len
    ensures k + j < Total(vecs) && Page(vecs, k + j) == Page(vecs, k) && Pos(vecs, k + j) == Pos(vecs, k) + j
  {
    LocateRun(vecs, k, j);
  }

  lemma {:induction false} LastNamingRun(vecs: seq<BioVec>, from: nat, k: nat, n: nat, page: array<Byte>, x: nat)
    requires Fit(vecs) && from <= k < Total(vecs) && Locate(vecs, k).1 + n <= vecs[Locate(vecs, k).0].len
    ensures k + n <= Total(vecs)
    ensures LastNaming(vecs, from, k + n, page, x)
            == if page == Page(vecs, k) && Pos(vecs, k) <= x < Pos(vecs, k) + n then k + (x - Pos(vecs, k))
               else LastNaming(vecs, from, k, page, x)
    decreases n
  {
    hide Fit, Locate, Page, Pos, Total;
    if n > 0 {
      LastNamingRun(vecs, from, k, n - 1, page, x);
      PosRun(vecs, k, n - 1);
    }
  }

  /** A page after the next `n` bytes have been delivered to their segment: one splice of that segment's page. */
  function PageSpliced(vecs: seq<BioVec>, from: nat, k: nat, n: nat, bytes: seq<Byte>, page: array<Byte>,
                       was: seq<Byte>): (now: seq<Byte>)
    requires Fit(vecs) && from <= k < Total(vecs) && Locate(vecs, k).1 + n <= vecs[Locate(vecs, k).0].len
    requires k + n - from <= |bytes| && |was| == page.Length
    ensures |now| == |was| && Pos(vecs, k) + n <= Page(vecs, k).Length
  {
    var before := PageAfter(vecs, from, k, bytes, page, was);
    if page == Page(vecs, k) then Splice(before, Pos(vecs, k), bytes[k - from..k + n - from]) else before
  }

  lemma PageAfterRunAt(vecs: seq<BioVec>, from: nat, k: nat, n: nat, bytes: seq<Byte>, page: array<Byte>,
                       was: seq<Byte>, x: nat)
    requires Fit(vecs) && from <= k < Total(vecs) && Locate(vecs, k).1 + n <= vecs[Locate(vecs, k).0].len
    requires k + n - from <= |bytes| && x < |was| == page.Length
    ensures k + n <= Total(vecs)
    ensures PageAfter(vecs, from, k + n, bytes, page, was)[x] == PageSpliced(vecs, from, k, n, bytes, page, was)[x]
  {
    hide Fit, Total, Locate, LastNaming, Page, Pos, Splice;
    LastNamingRun(vecs, from, k, n, page, x);
    var now := PageSpliced(vecs, from, k, n, bytes, page, was);
    if page == Page(vecs, k) {
      SpliceAt(PageAfter(vecs, from, k, bytes, page, was), Pos(vecs, k), bytes[k - from..k + n - from], x);
    }
  }

  lemma RunInside(vecs: seq<BioVec>, k: nat, n: nat)
    requires Fit(vecs) && k < Total(vecs) && Locate(vecs, k).1 + n <= vecs[Locate(vecs, k).0].len
    ensures k + n <= Total(vecs)
  {
    if n > 0 {
      LocateRun(vecs, k, n - 1);
    }
  }

  lemma PageAfterRun(vecs: seq<BioVec>, from: nat, k: nat, n: nat, bytes: seq<Byte>, page: array<Byte>, was: seq<Byte>)
    requires Fit(vecs) && from <= k < Total(vecs) && Locate(vecs, k).1 + n <= vecs[Locate(vecs, k).0].len
    requires k + n - from <= |bytes| && |was| == page.Length
    ensures k + n <= Total(vecs)
    ensures PageAfter(vecs, from, k + n, bytes, page, was) == PageSpliced(vecs, from, k, n, bytes, page, was)
  {
    hide Fit, Total, Locate, LastNaming, Page, Pos, PageAfter, PageSpliced;
    RunInside(vecs, k, n);
    forall x | 0 <= x < |was|
      ensures PageAfter(vecs, from, k + n, bytes, page, was)[x] == PageSpliced(vecs, from, k, n, bytes, page, was)[x]
    {
      PageAfterRunAt(vecs, from, k, n, bytes, page, was, x);
    }
  }

  /** With segments that do not overlap, a byte inside the range is the last one at its place, and the place of a byte
      outside it is named by no byte inside. */
  lemma DisjointNaming(vecs: seq<BioVec>, from: nat, end: nat, m: nat)
    requires Fit(vecs) && Disjoint(vecs) && from <= end <= Total(vecs) && m < Total(vecs)
    ensures LastNaming(vecs, from, end, Page(vecs, m), Pos(vecs, m)) == if from <= m < end then m else -1
  {
    var k := LastNaming(vecs, from, end, Page(vecs, m), Pos(vecs, m));
    assert Names(vecs, m, Page(vecs, m), Pos(vecs, m));
    assert k < 0 || k == m || Apart(vecs, k, m);
  }

  /** What the pages hold. */
  ghost function PagesOf(vecs: seq<BioVec>): (was: map<array<Byte>, seq<Byte>>)
    reads Pages(vecs)
    ensures was.Keys == Pages(vecs) && forall page <- Pages(vecs) :: was[page] == page[..]
  {
    map page | page in Pages(vecs) :: page[..]
  }

  /** The pages, which held `was`, have received the bytes [from, end) of the segments, and nothing else. */
  ghost predicate Delivered(vecs: seq<BioVec>, from: nat, end: nat, bytes: seq<Byte>, was: map<array<Byte>, seq<Byte>>)
    requires Fit(vecs) && from <= end <= Total(vecs) && end - from <= |bytes|
    reads Pages(vecs)
  {
    forall page <- Pages(vecs) ::
      page in was && |was[page]| == page.Length && page[..] == PageAfter(vecs, from, end, bytes, page, was[page])
  }

  /** How a request ends; `Astray` is one whose end wraps 64 bits, slips through the bounds check and would be copied
      outside the disk. */
  datatype Answer = Completed | IoError | Astray

  /** A bio: its segments, and the iterator over them (next sector, bytes consumed, bytes left). */
  datatype Bio = Bio(write: bool, vecs: seq<BioVec>, sector: nat, done: nat, size: nat) {

    ghost predicate Valid() {
      Fit(vecs) && done + size <= Total(vecs)
    }

    /** The bytes the iterator still covers. */
    ghost function Window(): (w: seq<Byte>)
      requires Valid()
      reads Pages(vecs)
      ensures |w| == size
    {
      Stream(vecs)[done..done + size]
    }

    /** Where the request starts on the disk, in 64-bit arithmetic. */
    function At(): nat {
      (sector * SECTOR_SIZE) % U64
    }

    /** The bounds check of a disk of `n` bytes, in 64-bit arithmetic. */
    function AnswerOn(n: nat): Answer {
      if (At() + size) % U64 > n then IoError
      else if U64 <= At() + size then Astray
      else Completed
    }

    /** The first `n` sectors; Linux bio_split returns them as a new bio. */
    function Front(n: nat): Bio {
      this.(size := n * SECTOR_SIZE)
    }

    /** What bio_split leaves in its argument. */
    function Rest(n: nat): Bio
      requires n * SECTOR_SIZE <= size
    {
      this.(sector := sector + n, done := done + n * SECTOR_SIZE, size := size - n * SECTOR_SIZE)
    }
  }

  /** Without wrap-around the check is exact: a request completes when it lies on the disk and fails otherwise. */
  lemma CheckIsExact(bio: Bio, n: nat)
    requires bio.sector * SECTOR_SIZE + bio.size < U64
    ensures bio.At() == bio.sector * SECTOR_SIZE
    ensures bio.AnswerOn(n) == if bio.At() + bio.size <= n then Completed else IoError
  {
    assert (bio.sector * SECTOR_SIZE) % U64 == bio.sector * SECTOR_SIZE;
    assert (bio.At() + bio.size) % U64 == bio.At() + bio.size;
  }

  /** With wrap-around: sectors count modulo 2^55, a request that ends on the disk completes, one that ends up to `n`
      bytes past 2^64 slips through, and every other one fails. */
  lemma CheckWithWrap(bio: Bio, n: nat)
    requires bio.size < U64 && n < U64
    ensures bio.At() == bio.sector % 0x80_0000_0000_0000 * 512
    ensures bio.AnswerOn(n).Completed? <==> bio.At() + bio.size <= n
    ensures bio.AnswerOn(n).Astray? <==> U64 <= bio.At() + bio.size <= U64 + n
  {
    var q, m := bio.sector / 0x80_0000_0000_0000, bio.sector % 0x80_0000_0000_0000;
    assert bio.sector * SECTOR_SIZE == q * U64 + m * 512;
    Residue(q, m * 512);
    assert bio.At() == m * 512;
    hide Bio.At;
    var end := bio.At() + bio.size;
    if U64 <= end {
      Residue(1, end - U64);
    } else {
      Residue(0, end);
    }
  }

  lemma Residue(q: nat, r: nat)
    requires r < U64
    ensures (q * U64 + r) % U64 == r
  {
  }

  /** A request completes on the disk it lies on. */
  lemma InsideCompletes(bio: Bio, n: nat)
    requires bio.At() + bio.size <= n < U64
    ensures bio.AnswerOn(n).Completed?
  {
    hide Bio.At;
    assert (bio.At() + bio.size) % U64 == bio.At() + bio.size;
  }

  /** Sector 2^55 is sector 0 to the disk, and a request that ends past 2^64 may be copied outside it. */
  lemma WrappedRequest(n: nat)
    requires SECTOR_SIZE <= n
    ensures Bio(false, [], 0x80_0000_0000_0000, 0, SECTOR_SIZE).At() == 0
    ensures Bio(false, [], 0x80_0000_0000_0000, 0, SECTOR_SIZE).AnswerOn(n).Completed?
    ensures Bio(false, [], 0x7f_ffff_ffff_ffff, 0, 2 * SECTOR_SIZE).AnswerOn(n).Astray?
  {
  }

  method Memcpy(dst: array<Byte>, d: nat, src: array<Byte>, s: nat, n: nat)
    requires dst != src && d + n <= dst.Length && s + n <= src.Length
    modifies dst
    ensures dst[..] == Splice(old(dst[..]), d, src[s..s + n])
  {
    forall i | 0 <= i < n {
      dst[d + i] := src[s + i];
    }
  }

  class Disk {
    const data: array<Byte>

    /** vrd_init: a disk of `megabytes` MiB; vmalloc leaves the contents open. */
    constructor (megabytes: nat)
      ensures data.Length == megabytes * 1024 * 1024 && data.Length % SECTOR_SIZE == 0 && fresh(data)
    {
      data := new Byte[megabytes * 1024 * 1024];
    }

    /** vrd_make_request. Beyond the end it fails and changes nothing. Otherwise a write puts the window's bytes at
        the request's place on the disk. A read delivers that part of the disk to the window in order and leaves all
        other bytes of the pages alone; if no segments overlap, the window then holds it. The iterator is a copy, so
        the bio itself stays as it was. */
    method MakeRequest(bio: Bio) returns (answer: Answer)
      requires bio.Valid() && data !in Pages(bio.vecs)
      modifies data, if bio.write then {} else Pages(bio.vecs)
      ensures answer == bio.AnswerOn(data.Length)
      ensures answer.Completed? ==> bio.At() + bio.size <= data.Length
      ensures answer.Completed? && bio.write ==>
                data[..] == Splice(old(data[..]), bio.At(), old(bio.Window()))
      ensures answer.Completed? && !bio.write ==>
                && data[..] == old(data[..])
                && var bytes := data[bio.At()..bio.At() + bio.size];
                   && Delivered(bio.vecs, bio.done, bio.done + bio.size, bytes, old(PagesOf(bio.vecs)))
                   && (Disjoint(bio.vecs) ==>
                         Stream(bio.vecs) == Splice(old(Stream(bio.vecs)), bio.done, bytes))
      ensures !answer.Completed? ==> data[..] == old(data[..]) && PagesOf(bio.vecs) == old(PagesOf(bio.vecs))
      ensures !answer.Completed? ==> Stream(bio.vecs) == old(Stream(bio.vecs))
    {
      hide Stream, Disjoint, Total, Splice, Delivered, PagesOf, PageAfter, LastNaming;
      if ((bio.sector * SECTOR_SIZE) % U64 + bio.size) % U64 > data.Length {
        return IoError;
      }
      var base := (bio.sector * SECTOR_SIZE) % U64;
      if U64 <= base + bio.size {
        return Astray;
      }
      assert (base + bio.size) % U64 == base + bio.size;
      if bio.write {
        CopyIn(bio, base);
      } else {
        CopyOut(bio, base);
      }
      return Completed;
    }

    method CopyIn(bio: Bio, base: nat)
      requires bio.Valid() && data !in Pages(bio.vecs) && base + bio.size <= data.Length
      modifies data
      ensures data[..] == Splice(old(data[..]), base, old(bio.Window()))
    {
      assert Splice(data[..], base, Stream(bio.vecs)[bio.done..bio.done]) == data[..];
      hide Stream, Disjoint, Total, Splice, Fit, Locate;
      var from, end := bio.done, bio.done + bio.size;
      var k := from;
      while k < end
        invariant from <= k <= end
        invariant Stream(bio.vecs) == old(Stream(bio.vecs))
        invariant data[..] == Splice(old(data[..]), base, Stream(bio.vecs)[from..k])
      {
        k := CollectNext(bio.vecs, from, k, end, base, old(data[..]));
      }
    }

    /** The loop body of a write; `start` is the disk before the loop. */
    method CollectNext(vecs: seq<BioVec>, from: nat, k: nat, end: nat, base: nat, ghost start: seq<Byte>)
      returns (next: nat)
      requires Fit(vecs) && data !in Pages(vecs) && from <= k < end <= Total(vecs)
      requires base + (end - from) <= |start| == data.Length
      requires data[..] == Splice(start, base, Stream(vecs)[from..k])
      modifies data
      ensures k < next <= end && Stream(vecs) == old(Stream(vecs))
      ensures data[..] == Splice(start, base, Stream(vecs)[from..next])
    {
      hide Stream, Disjoint, Total;
      var n := Step(vecs, k, end);
      next := k + n;
      CollectSegment(vecs, k, base + (k - from), n);
      SpliceSlices(start, base, Stream(vecs), from, k, next);
    }

    /** The length of the segment at byte `k`, clipped to the iterator: bio_iter_iovec. */
    static function Step(vecs: seq<BioVec>, k: nat, end: nat): (n: nat)
      requires Fit(vecs) && k < end <= Total(vecs)
      ensures 0 < n && k + n <= end && Locate(vecs, k).1 + n <= vecs[Locate(vecs, k).0].len
    {
      var (i, o) := Locate(vecs, k);
      if vecs[i].len - o < end - k then vecs[i].len - o else end - k
    }

    /** One memcpy of a write: `n` bytes of the segment that holds byte `k` onto the disk. */
    method CollectSegment(vecs: seq<BioVec>, k: nat, at: nat, n: nat)
      requires Fit(vecs) && data !in Pages(vecs) && k < Total(vecs) && 0 < n && at + n <= data.Length
      requires Locate(vecs, k).1 + n <= vecs[Locate(vecs, k).0].len
      modifies data
      ensures k + n <= Total(vecs) && Stream(vecs) == old(Stream(vecs))
      ensures data[..] == Splice(old(data[..]), at, old(Stream(vecs))[k..k + n])
    {
      hide Disjoint, Locate, Splice;
      StreamRun(vecs, k, n);
      Memcpy(data, at, Page(vecs, k), Pos(vecs, k), n);
    }

    method CopyOut(bio: Bio, base: nat)
      requires bio.Valid() && !bio.write && data !in Pages(bio.vecs) && base + bio.size <= data.Length
      modifies Pages(bio.vecs)
      ensures Delivered(bio.vecs, bio.done, bio.done + bio.size, data[base..base + bio.size], old(PagesOf(bio.vecs)))
      ensures Disjoint(bio.vecs) ==>
                Stream(bio.vecs) == Splice(old(Stream(bio.vecs)), bio.done, data[base..base + bio.size])
    {
      hide Stream, Disjoint, Total, Splice, LastNaming, PageAfter, Fit, Page, Pos, Locate, Pages, Delivered, PagesOf,
           Snapshot;
      var from, end := bio.done, bio.done + bio.size;
      ghost var bytes := data[base..base + bio.size];
      ghost var was, stream := PagesOf(bio.vecs), Stream(bio.vecs);
      TakeSnapshot(bio.vecs);
      DeliveredNothing(bio.vecs, from, bytes);
      DeliverAll(bio.vecs, from, end, base, bytes, was);
      assert data[base..base + bio.size] == data[..][base..base + bio.size] == bytes;
      if Disjoint(bio.vecs) {
        StreamDelivered(bio.vecs, from, end, bytes, was, stream);
      }
    }

    /** The loop over the segments of a read. */
    method DeliverAll(vecs: seq<BioVec>, from: nat, end: nat, base: nat, ghost bytes: seq<Byte>,
                      ghost was: map<array<Byte>, seq<Byte>>)
      requires Fit(vecs) && data !in Pages(vecs) && from <= end <= Total(vecs)
      requires base + (end - from) <= data.Length && bytes == data[base..base + (end - from)]
      requires Delivered(vecs, from, from, bytes, was)
      modifies Pages(vecs)
      ensures data[..] == old(data[..]) && Delivered(vecs, from, end, bytes, was)
    {
      hide Stream, Disjoint, Total, Splice, LastNaming, PageAfter, Delivered, Fit, Pages;
      var k := from;
      while k < end
        invariant from <= k <= end && data[..] == old(data[..])
        invariant Delivered(vecs, from, k, bytes, was)
      {
        assert data[base..base + (end - from)] == data[..][base..base + (end - from)];
        k := DeliverNext(vecs, from, k, end, base, bytes, was);
      }
    }

    /** The loop body of a read: one memcpy of `n` bytes of the disk into the segment that holds byte `k`. */
    method DeliverNext(vecs: seq<BioVec>, from: nat, k: nat, end: nat, base: nat, ghost bytes: seq<Byte>,
                       ghost was: map<array<Byte>, seq<Byte>>)
      returns (next: nat)
      requires Fit(vecs) && data !in Pages(vecs) && from <= k < end <= Total(vecs)
      requires base + (end - from) <= data.Length && bytes == data[base..base + (end - from)]
      requires Delivered(vecs, from, k, bytes, was)
      modifies Pages(vecs)
      ensures k < next <= end && data[..] == old(data[..])
      ensures Delivered(vecs, from, next, bytes, was)
    {
      hide Stream, Disjoint, Total, Splice, LastNaming, PageAfter, Pages;
      var n := Step(vecs, k, end);
      next := k + n;
      var at := base + (k - from);
      StreamRun(vecs, k, n);
      var target := Page(vecs, k);
      Memcpy(target, Pos(vecs, k), data, at, n);
      assert data[at..at + n] == bytes[k - from..next - from];
      forall page | page in Pages(vecs) ensures page[..] == PageAfter(vecs, from, next, bytes, page, was[page]) {
        PageAfterRun(vecs, from, k, n, bytes, page, was[page]);
      }
    }
  }

  /** Every byte of the stream, read in its page. */
  lemma ReadStream(vecs: seq<BioVec>)
    requires Fit(vecs)
    ensures forall m :: 0 <= m < Total(vecs) ==>
              Page(vecs, m) in Pages(vecs) && Stream(vecs)[m] == Page(vecs, m)[..][Pos(vecs, m)]
  {
    forall m | 0 <= m < Total(vecs)
      ensures Page(vecs, m) in Pages(vecs) && Stream(vecs)[m] == Page(vecs, m)[..][Pos(vecs, m)]
    {
      StreamAt(vecs, m);
    }
  }

  /** `stream` is what the segments hold when their pages hold `was`. */
  ghost predicate Snapshot(vecs: seq<BioVec>, stream: seq<Byte>, was: map<array<Byte>, seq<Byte>>)
    requires Fit(vecs)
  {
    |stream| == Total(vecs) &&
    forall m :: 0 <= m < Total(vecs) ==>
      var page := Page(vecs, m);
      page in was && page.Length == |was[page]| && stream[m] == was[page][Pos(vecs, m)]
  }

  lemma TakeSnapshot(vecs: seq<BioVec>)
    requires Fit(vecs)
    ensures Snapshot(vecs, Stream(vecs), PagesOf(vecs))
  {
    ReadStream(vecs);
  }

  /** Pages that hold what they held make the same stream. */
  lemma SamePages(vecs: seq<BioVec>, stream: seq<Byte>)
    requires Fit(vecs) && Snapshot(vecs, stream, PagesOf(vecs))
    ensures Stream(vecs) == stream
  {
    ReadStream(vecs);
  }

  lemma NothingDelivered(vecs: seq<BioVec>, from: nat, bytes: seq<Byte>, was: map<array<Byte>, seq<Byte>>)
    requires Fit(vecs) && from <= Total(vecs) && Delivered(vecs, from, from, bytes, was) && was.Keys == Pages(vecs)
    ensures PagesOf(vecs) == was
  {
    forall page | page in Pages(vecs) ensures PagesOf(vecs)[page] == was[page] {
      assert PageAfter(vecs, from, from, bytes, page, was[page]) == was[page];
    }
  }

  lemma DeliveredNothing(vecs: seq<BioVec>, from: nat, bytes: seq<Byte>)
    requires Fit(vecs) && from <= Total(vecs)
    ensures Delivered(vecs, from, from, bytes, PagesOf(vecs))
  {
  }

  lemma StreamDelivered(vecs: seq<BioVec>, from: nat, end: nat, bytes: seq<Byte>, was: map<array<Byte>, seq<Byte>>,
                        stream: seq<Byte>)
    requires Fit(vecs) && Disjoint(vecs) && from <= end <= Total(vecs) && end - from == |bytes|
    requires Delivered(vecs, from, end, bytes, was) && Snapshot(vecs, stream, was)
    ensures Stream(vecs) == Splice(stream, from, bytes)
  {
    hide Disjoint, Fit, Locate, Page, Pos, Splice;
    ReadStream(vecs);
    hide Stream, Total;
    forall m | 0 <= m < Total(vecs) ensures Stream(vecs)[m] == Splice(stream, from, bytes)[m] {
      DisjointNaming(vecs, from, end, m);
      SpliceAt(stream, from, bytes, m);
    }
  }

  /** Two deliveries, one behind the other, are one. */
  lemma {:induction false} LastNamingJoin(vecs: seq<BioVec>, from: nat, k: nat, end: nat, page: array<Byte>, x: nat)
    requires Fit(vecs) && from <= k <= end <= Total(vecs)
    ensures LastNaming(vecs, from, end, page, x)
            == var late := LastNaming(vecs, k, end, page, x);
               if 0 <= late then late else LastNaming(vecs, from, k, page, x)
    decreases end
  {
    if k < end {
      LastNamingJoin(vecs, from, k, end - 1, page, x);
    }
  }

  lemma PageAfterJoin(vecs: seq<BioVec>, from: nat, k: nat, end: nat, a: seq<Byte>, b: seq<Byte>, page: array<Byte>,
                      was: seq<Byte>)
    requires Fit(vecs) && from <= k <= end <= Total(vecs) && |a| == k - from && |b| == end - k
    ensures PageAfter(vecs, k, end, b, page, PageAfter(vecs, from, k, a, page, was))
            == PageAfter(vecs, from, end, a + b, page, was)
  {
    hide Fit, Total, LastNaming;
    forall x | 0 <= x < |was|
      ensures PageAfter(vecs, k, end, b, page, PageAfter(vecs, from, k, a, page, was))[x]
           == PageAfter(vecs, from, end, a + b, page, was)[x]
    {
      LastNamingJoin(vecs, from, k, end, page, x);
    }
  }

  /** What the pages held between two deliveries does not matter. */
  lemma DeliveredJoin(vecs: seq<BioVec>, from: nat, k: nat, end: nat, a: seq<Byte>, b: seq<Byte>,
                      was: map<array<Byte>, seq<Byte>>, between: map<array<Byte>, seq<Byte>>)
    requires Fit(vecs) && from <= k <= end <= Total(vecs) && |a| == k - from && |b| == end - k
    requires AfterDelivery(vecs, from, k, a, was, between) && Delivered(vecs, k, end, b, between)
    ensures Delivered(vecs, from, end, a + b, was)
  {
    hide PageAfter;
    forall page | page in Pages(vecs)
      ensures page in was && |was[page]| == page.Length
              && page[..] == PageAfter(vecs, from, end, a + b, page, was[page])
    {
      PageAfterJoin(vecs, from, k, end, a, b, page, was[page]);
    }
  }

  /** Delivered, on what the pages held then. */
  ghost predicate AfterDelivery(vecs: seq<BioVec>, from: nat, end: nat, bytes: seq<Byte>,
                                was: map<array<Byte>, seq<Byte>>, now: map<array<Byte>, seq<Byte>>)
    requires Fit(vecs) && from <= end <= Total(vecs) && end - from <= |bytes|
  {
    forall page <- Pages(vecs) ::
      page in was && page in now && |was[page]| == page.Length &&
      now[page] == PageAfter(vecs, from, end, bytes, page, was[page])
  }

  lemma RememberDelivery(vecs: seq<BioVec>, from: nat, end: nat, bytes: seq<Byte>, was: map<array<Byte>, seq<Byte>>)
    requires Fit(vecs) && from <= end <= Total(vecs) && end - from <= |bytes| && Delivered(vecs, from, end, bytes, was)
    ensures AfterDelivery(vecs, from, end, bytes, was, PagesOf(vecs))
  {
  }

  /** A write that lies on the disk: its range holds the window's bytes, and no other byte has moved. */
  method WriteOnly(disk: Disk, w: Bio)
    requires w.Valid() && w.write && disk.data !in Pages(w.vecs) && w.At() + w.size <= disk.data.Length < U64
    modifies disk.data
    ensures disk.data[w.At()..w.At() + w.size] == old(w.Window())
    ensures forall x :: 0 <= x < disk.data.Length && !(w.At() <= x < w.At() + w.size) ==>
              disk.data[x] == old(disk.data[x])
  {
    InsideCompletes(w, disk.data.Length);
    hide Stream, Disjoint, Total, Splice, Delivered, PagesOf, Fit, Bio.At, Bio.AnswerOn, Bio.Window;
    ghost var before, bytes := disk.data[..], w.Window();
    var answer := disk.MakeRequest(w);
    SpliceReadBack(before, w.At(), bytes);
    OutsideStays(before, w.At(), bytes);
    assert forall x :: 0 <= x < disk.data.Length ==> disk.data[x] == disk.data[..][x];
    assert disk.data[w.At()..w.At() + w.size] == disk.data[..][w.At()..w.At() + w.size];
  }

  /** A read that lies on the disk, into segments that do not overlap: the window holds its range. */
  method ReadOnly(disk: Disk, r: Bio)
    requires r.Valid() && !r.write && Disjoint(r.vecs) && disk.data !in Pages(r.vecs)
    requires r.At() + r.size <= disk.data.Length < U64
    modifies disk.data, Pages(r.vecs)
    ensures disk.data[..] == old(disk.data[..])
    ensures r.Valid() && r.Window() == disk.data[r.At()..r.At() + r.size]
  {
    InsideCompletes(r, disk.data.Length);
    hide Disjoint, Total, Splice, Delivered, PagesOf, Fit, Stream, Bio.At, Bio.AnswerOn;
    ghost var stream, bytes := Stream(r.vecs), disk.data[r.At()..r.At() + r.size];
    var answer := disk.MakeRequest(r);
    SpliceReadBack(stream, r.done, bytes);
  }

  /** What is written under one segmentation is read back under any other, and no byte outside the range moves. */
  method WriteThenRead(disk: Disk, w: Bio, r: Bio)
    requires w.Valid() && w.write && r.Valid() && !r.write && Disjoint(r.vecs)
    requires w.sector == r.sector && w.size == r.size
    requires disk.data !in Pages(w.vecs) && disk.data !in Pages(r.vecs)
    requires w.At() + w.size <= disk.data.Length < U64
    modifies disk.data, Pages(r.vecs)
    ensures r.Valid() && r.Window() == old(w.Window())
    ensures forall x :: 0 <= x < disk.data.Length && !(w.At() <= x < w.At() + w.size) ==>
              disk.data[x] == old(disk.data[x])
  {
    assert r.At() == w.At();
    hide Stream, Disjoint, Total, Fit, Bio.At, Bio.Window;
    WriteOnly(disk, w);
    ghost var after := disk.data[..];
    ReadOnly(disk, r);
    assert forall x :: 0 <= x < disk.data.Length ==> disk.data[x] == disk.data[..][x] == after[x];
  }

  lemma OutsideStays(d: seq<Byte>, at: nat, p: seq<Byte>)
    requires at + |p| <= |d|
    ensures forall x :: 0 <= x < |d| && !(at <= x < at + |p|) ==> Splice(d, at, p)[x] == d[x]
  {
  }
}
