/** The linear volume as the driver keeps it: a list of RAM disks updated in place. */
module VolumeDevice {
  import opened Bytes
  import opened LinearVolume
  import opened RamDisk

  datatype Status = Done | Failed | Pending

  function DataOf(disks: seq<Disk>): set<array<Byte>> {
    set d | d in disks :: d.data
  }

  ghost function Contents(disks: seq<Disk>): (cs: seq<seq<Byte>>)
    reads DataOf(disks)
    ensures |cs| == |disks| && forall i :: 0 <= i < |cs| ==> cs[i] == disks[i].data[..]
  {
    seq(|disks|, i requires 0 <= i < |disks| reads DataOf(disks) => disks[i].data[..])
  }

  // ----- one walk on the values held in the children and in the bio's pages -----

  /** What the children hold, and what the bio's segments hold laid end to end. */
  datatype Memory = Memory(disks: seq<seq<Byte>>, stream: seq<Byte>)

  /** The iterator of `bio` covers whole sectors of the stream. */
  predicate Covers(m: Memory, bio: Bio) {
    bio.done + bio.size <= |m.stream| && bio.size % SECTOR_SIZE == 0
  }

  /** The request a bio stands for. */
  function RequestOf(m: Memory, bio: Bio): (r: Request)
    requires Covers(m, bio)
    ensures r.Aligned()
  {
    Request(bio.write, bio.sector, bio.size / SECTOR_SIZE,
            if bio.write then Slice(m.stream, bio.done, bio.size) else [])
  }

  /** Child `i` serves `n` bytes at its byte `at`: from the stream for a write, into the stream for a read. */
  function Move(m: Memory, i: nat, write: bool, at: nat, done: nat, n: nat): Memory
    requires i < |m.disks| && at + n <= |m.disks[i]| && done + n <= |m.stream|
  {
    if write then m.(disks := m.disks[i := Splice(m.disks[i], at, Slice(m.stream, done, n))])
    else m.(stream := Splice(m.stream, done, Slice(m.disks[i], at, n)))
  }

  /** Where the walk that started on `m0` and ends in `o` stands before child `i`: the children from `i` on are
      untouched, those before it and the bytes `got` so far resume `o`, and a read has delivered exactly `got`. */
  predicate Underway(m0: Memory, from: nat, o: Outcome, m: Memory, bio: Bio, i: nat, before: nat, got: seq<Byte>) {
    && i <= |m.disks| == |m0.disks| && Covers(m, bio) && WholeSectors(m0.disks) && before <= bio.sector
    && m.disks[i..] == m0.disks[i..]
    && Resumes(o, m.disks[..i], got, Walk(AtBoundary, m0.disks[i..], before, RequestOf(m, bio)))
    && if bio.write then got == [] && m.stream == m0.stream
       else from + |got| == bio.done <= |m0.stream| && m.stream == Splice(m0.stream, from, got)
  }

  lemma Heads(m0: Memory, m: Memory, i: nat)
    requires i < |m.disks| == |m0.disks| && m.disks[i..] == m0.disks[i..]
    ensures m.disks[i] == m0.disks[i] == m0.disks[i..][0]
    ensures m.disks[i + 1..] == m0.disks[i + 1..] == m0.disks[i..][1..]
    ensures m.disks[..i + 1] == m.disks[..i] + [m0.disks[i]]
  {
    assert m.disks[i] == m.disks[i..][0];
    assert m.disks[i + 1..] == m.disks[i..][1..] && m0.disks[i + 1..] == m0.disks[i..][1..];
  }

  /** The child ends before the request starts. */
  lemma UnderwayPast(m0: Memory, from: nat, o: Outcome, m: Memory, bio: Bio, i: nat, before: nat, got: seq<Byte>)
    requires Underway(m0, from, o, m, bio, i, before, got)
    requires i < |m.disks| && before + Capacity(m0.disks[i]) <= bio.sector
    ensures Underway(m0, from, o, m, bio, i + 1, before + Capacity(m0.disks[i]), got)
  {
    hide Walk;
    Heads(m0, m, i);
    ResumePast(o, m.disks[..i], got, m0.disks[i..], before, RequestOf(m, bio));
  }

  /** What a served piece does to the memory is what Serve does to the child and to the bytes delivered. */
  lemma MoveServes(m0: Memory, from: nat, m: Memory, bio: Bio, i: nat, at: nat, n: nat, got: seq<Byte>)
    returns (e: Effect)
    requires i < |m.disks| && Covers(m, bio) && at + n * SECTOR_SIZE <= |m.disks[i]| && n * SECTOR_SIZE <= bio.size
    requires if bio.write then got == [] && m.stream == m0.stream
             else from + |got| == bio.done <= |m0.stream| && m.stream == Splice(m0.stream, from, got)
    ensures e == Serve(m.disks[i], at, RequestOf(m, bio).Front(n))
    ensures var m' := Move(m, i, bio.write, at, bio.done, n * SECTOR_SIZE);
            && m'.disks == m.disks[i := e.disk] && Covers(m', bio.Rest(n))
            && RequestOf(m', bio.Rest(n)) == RequestOf(m, bio).Rest(n)
            && if bio.write then got + e.bytes == [] && m'.stream == m0.stream
               else from + |got + e.bytes| == bio.done + n * SECTOR_SIZE
                    && m'.stream == Splice(m0.stream, from, got + e.bytes)
  {
    FrontOf(m, bio, n);
    e := Serve(m.disks[i], at, RequestOf(m, bio).Front(n));
    RestOf(m, i, at, bio, n);
    hide Splice, RequestOf;
    if !bio.write {
      SpliceAdjacent(m0.stream, from, got, e.bytes);
    }
  }

  lemma FrontOf(m: Memory, bio: Bio, n: nat)
    requires Covers(m, bio) && n * SECTOR_SIZE <= bio.size
    ensures RequestOf(m, bio).Front(n)
            == Request(bio.write, bio.sector, n, if bio.write then Slice(m.stream, bio.done, n * SECTOR_SIZE) else [])
  {
  }

  /** What remains of the bio asks for what remains of the request. */
  lemma RestOf(m: Memory, i: nat, at: nat, bio: Bio, n: nat)
    requires i < |m.disks| && Covers(m, bio) && at + n * SECTOR_SIZE <= |m.disks[i]| && n * SECTOR_SIZE <= bio.size
    ensures var m' := Move(m, i, bio.write, at, bio.done, n * SECTOR_SIZE);
            Covers(m', bio.Rest(n)) && RequestOf(m', bio.Rest(n)) == RequestOf(m, bio).Rest(n)
  {
    if bio.write {
      assert Slice(m.stream, bio.done, bio.size)[n * SECTOR_SIZE..]
          == Slice(m.stream, bio.done + n * SECTOR_SIZE, bio.size - n * SECTOR_SIZE);
    }
  }

  lemma Replaced(m0: Memory, m: Memory, i: nat, d: seq<Byte>)
    requires i < |m.disks| == |m0.disks| && m.disks[i..] == m0.disks[i..]
    ensures m.disks[i := d][..i + 1] == m.disks[..i] + [d]
    ensures m.disks[i := d][i + 1..] == m0.disks[i..][1..]
    ensures m.disks[i := d] == m.disks[..i] + [d] + m0.disks[i..][1..]
  {
    Heads(m0, m, i);
  }

  /** The child takes the front of the request and the rest stays in hand. */
  lemma UnderwayAcross(m0: Memory, from: nat, o: Outcome, m: Memory, bio: Bio, i: nat, before: nat, got: seq<Byte>,
                       n: nat)
    returns (got': seq<Byte>)
    requires Underway(m0, from, o, m, bio, i, before, got)
    requires i < |m.disks| && bio.sector + n == before + Capacity(m0.disks[i])
    requires 0 < n && n * SECTOR_SIZE < bio.size
    ensures (bio.sector - before + n) * SECTOR_SIZE <= |m.disks[i]|
    ensures Underway(m0, from, o, Move(m, i, bio.write, (bio.sector - before) * SECTOR_SIZE, bio.done, n * SECTOR_SIZE),
                     bio.Rest(n), i + 1, bio.sector + n, got')
  {
    hide Walk;
    Heads(m0, m, i);
    var r, at := RequestOf(m, bio), (bio.sector - before) * SECTOR_SIZE;
    ResumeAcross(o, m.disks[..i], got, m0.disks[i..], before, r, n);
    var e := MoveServes(m0, from, m, bio, i, at, n, got);
    got' := got + e.bytes;
    Replaced(m0, m, i, e.disk);
  }

  /** The child takes the whole request, which completes the walk. */
  lemma UnderwayWithin(m0: Memory, from: nat, o: Outcome, m: Memory, bio: Bio, i: nat, before: nat, got: seq<Byte>)
    requires Underway(m0, from, o, m, bio, i, before, got)
    requires i < |m.disks| && bio.sector < before + Capacity(m0.disks[i])
    requires bio.sector + bio.size / SECTOR_SIZE <= before + Capacity(m0.disks[i])
    ensures (bio.sector - before) * SECTOR_SIZE + bio.size <= |m.disks[i]|
    ensures var m' := Move(m, i, bio.write, (bio.sector - before) * SECTOR_SIZE, bio.done, bio.size);
            && o.Served? && m'.disks == o.disks
            && if bio.write then m'.stream == m0.stream
               else from + |o.bytes| == bio.done + bio.size && m'.stream == Splice(m0.stream, from, o.bytes)
  {
    hide Walk;
    Heads(m0, m, i);
    var r, at := RequestOf(m, bio), (bio.sector - before) * SECTOR_SIZE;
    ResumeWithin(o, m.disks[..i], got, m0.disks[i..], before, r);
    var e := MoveServes(m0, from, m, bio, i, at, r.count, got);
    assert r.Front(r.count) == r;
    Replaced(m0, m, i, e.disk);
  }

  /** No child holds the request's first sector. */
  predicate Beyond(m: Memory, bio: Bio) {
    |Concat(m.disks)| <= bio.sector * SECTOR_SIZE
  }

  /** The final memory and status are the volume's answer to the request. */
  predicate Answers(m: Memory, m': Memory, bio: Bio, status: Status, answer: (seq<seq<Byte>>, Reply)) {
    && m'.disks == answer.0
    && match answer.1
       case Completed(bytes) =>
         status.Done? &&
         if bio.write then m'.stream == m.stream
         else |bytes| == bio.size && bio.done + |bytes| <= |m.stream|
              && m'.stream == Splice(m.stream, bio.done, bytes)
       case IoError => status.Failed? && m'.stream == m.stream
       case NeverCompleted => status.Pending? && m'.stream == m.stream
  }

  /** What is left of the volume from child `i` on, and whether the walk can still complete. */
  predicate Ahead(m0: Memory, request: Bio, o: Outcome, m: Memory, i: nat, before: nat) {
    && i <= |m0.disks|
    && before * SECTOR_SIZE + |Concat(m0.disks[i..])| == |Concat(m0.disks)|
    && if Beyond(m0, request) then m == m0 else o.Served?
  }

  lemma AheadNext(m0: Memory, request: Bio, o: Outcome, m: Memory, i: nat, before: nat)
    requires Ahead(m0, request, o, m, i, before) && i < |m0.disks| && WholeSectors(m0.disks)
    ensures Ahead(m0, request, o, m, i + 1, before + Capacity(m0.disks[i]))
    ensures Beyond(m0, request) ==> before + Capacity(m0.disks[i]) <= request.sector
  {
    CapacityInBytes(m0.disks[i..]);
    assert m0.disks[i..][1..] == m0.disks[i + 1..];
  }

  /** The memory a completed walk leaves. */
  predicate Finished(m0: Memory, request: Bio, o: Outcome, m: Memory) {
    && o.Served? && m.disks == o.disks
    && if request.write then m.stream == m0.stream
       else |o.bytes| == request.size && request.done + |o.bytes| <= |m0.stream|
            && m.stream == Splice(m0.stream, request.done, o.bytes)
  }

  /** The bounds check on the bio is that on its request. */
  lemma CheckAdmits(m: Memory, bio: Bio)
    requires Covers(m, bio)
    ensures Admits(TotalSize(m.disks), RequestOf(m, bio)) <==>
            ((bio.sector * SECTOR_SIZE) % U64 + bio.size) % U64 <= TotalSize(m.disks)
  {
    assert RequestOf(m, bio).Size() == bio.size;
  }

  lemma StartWalk(m: Memory, bio: Bio, o: Outcome)
    requires Covers(m, bio) && Addressable(m.disks) && bio.sector < U64 && bio.size < U32
    requires Admits(TotalSize(m.disks), RequestOf(m, bio)) && o == Walk(AtBoundary, m.disks, 0, RequestOf(m, bio))
    ensures InHand(m, bio, o, m, bio, 0, 0, [], [])
  {
    var r := RequestOf(m, bio);
    assert m.disks[0..] == m.disks && m.disks[..0] == [];
    assert Capacities(m.disks)[0..] == Capacities(m.disks);
    if o.Served? {
      assert [] + o.disks == o.disks && [] + o.bytes == o.bytes;
    }
    AdmittedInRangeIff(m.disks, r);
    if !Beyond(m, bio) {
      WalkRefinesFlat(m.disks, 0, r);
    }
  }

  /** The pieces so far and the route still ahead make up the route of the request. */
  predicate Routed(caps: seq<nat>, i: nat, before: nat, bio: Bio, pieces: seq<Piece>, request: Bio) {
    && i <= |caps| && before <= bio.sector
    && Route(caps, 0, 0, request.sector, request.size / SECTOR_SIZE)
       == pieces + Route(caps[i..], i, before, bio.sector, bio.size / SECTOR_SIZE)
  }

  lemma RoutedPast(caps: seq<nat>, i: nat, before: nat, bio: Bio, pieces: seq<Piece>, request: Bio)
    requires Routed(caps, i, before, bio, pieces, request) && i < |caps| && before + caps[i] <= bio.sector
    ensures Routed(caps, i + 1, before + caps[i], bio, pieces, request)
  {
    assert caps[i..][1..] == caps[i + 1..];
  }

  lemma RoutedAcross(caps: seq<nat>, i: nat, before: nat, bio: Bio, pieces: seq<Piece>, request: Bio)
    returns (pieces': seq<Piece>)
    requires Routed(caps, i, before, bio, pieces, request) && i < |caps| && bio.size % SECTOR_SIZE == 0
    requires bio.sector < before + caps[i] < bio.sector + bio.size / SECTOR_SIZE
    ensures var n := before + caps[i] - bio.sector;
            && n * SECTOR_SIZE < bio.size
            && pieces' == pieces + [Piece(i, bio.sector - before, n)]
            && Routed(caps, i + 1, before + caps[i], bio.Rest(n), pieces', request)
  {
    assert caps[i..][1..] == caps[i + 1..];
    var n := before + caps[i] - bio.sector;
    pieces' := pieces + [Piece(i, bio.sector - before, n)];
    RouteCrossing(caps[i..], i, before, bio.sector, bio.size / SECTOR_SIZE);
    var rest := Route(caps[i + 1..], i + 1, before + caps[i], before + caps[i], bio.size / SECTOR_SIZE - n);
    assert pieces + ([Piece(i, bio.sector - before, n)] + rest) == pieces' + rest;
  }

  lemma RoutedWithin(caps: seq<nat>, i: nat, before: nat, bio: Bio, pieces: seq<Piece>, request: Bio)
    returns (pieces': seq<Piece>)
    requires Routed(caps, i, before, bio, pieces, request) && i < |caps|
    requires bio.sector < before + caps[i] && bio.sector + bio.size / SECTOR_SIZE <= before + caps[i]
    ensures pieces' == pieces + [Piece(i, bio.sector - before, bio.size / SECTOR_SIZE)]
    ensures pieces' == Route(caps, 0, 0, request.sector, request.size / SECTOR_SIZE)
  {
    pieces' := pieces + [Piece(i, bio.sector - before, bio.size / SECTOR_SIZE)];
  }

  /** The loop invariant of device_make_request on values. */
  predicate InHand(m0: Memory, request: Bio, o: Outcome, m: Memory, bio: Bio, i: nat, before: nat, got: seq<Byte>,
                   pieces: seq<Piece>)
  {
    && bio.write == request.write && bio.vecs == request.vecs
    && request.done <= bio.done && bio.done + bio.size == request.done + request.size
    && Underway(m0, request.done, o, m, bio, i, before, got)
    && Ahead(m0, request, o, m, i, before)
    && (Beyond(m0, request) ==> bio == request && pieces == [])
    && Routed(Capacities(m0.disks), i, before, bio, pieces, request)
  }

  lemma InHandFacts(m0: Memory, request: Bio, o: Outcome, m: Memory, bio: Bio, i: nat, before: nat, got: seq<Byte>,
                    pieces: seq<Piece>)
    requires InHand(m0, request, o, m, bio, i, before, got, pieces) && i < |m.disks|
    ensures bio.write == request.write && bio.vecs == request.vecs && before <= bio.sector && Covers(m, bio)
    ensures bio.done + bio.size == request.done + request.size && request.done <= bio.done
    ensures i < |m0.disks| && m.disks[i] == m0.disks[i]
  {
    Heads(m0, m, i);
  }

  lemma InHandWhole(m0: Memory, request: Bio, o: Outcome, m: Memory, bio: Bio, i: nat, before: nat, got: seq<Byte>,
                    pieces: seq<Piece>)
    requires InHand(m0, request, o, m, bio, i, before, got, pieces)
    ensures WholeSectors(m0.disks) && |m.disks| == |m0.disks|
  {
  }

  lemma CapacitiesAt(disks: seq<seq<Byte>>, i: nat)
    requires i < |disks|
    ensures Capacities(disks)[i] == Capacity(disks[i])
  {
  }

  lemma InHandPast(m0: Memory, request: Bio, o: Outcome, m: Memory, bio: Bio, i: nat, before: nat, got: seq<Byte>,
                   pieces: seq<Piece>)
    requires InHand(m0, request, o, m, bio, i, before, got, pieces)
    requires i < |m.disks| && before + Capacity(m0.disks[i]) <= bio.sector
    ensures InHand(m0, request, o, m, bio, i + 1, before + Capacity(m0.disks[i]), got, pieces)
  {
    AheadNext(m0, request, o, m, i, before);
    UnderwayPast(m0, request.done, o, m, bio, i, before, got);
    RoutedPast(Capacities(m0.disks), i, before, bio, pieces, request);
  }

  lemma InHandAcross(m0: Memory, request: Bio, o: Outcome, m: Memory, bio: Bio, i: nat, before: nat, got: seq<Byte>,
                     pieces: seq<Piece>, n: nat)
    returns (got': seq<Byte>, pieces': seq<Piece>)
    requires InHand(m0, request, o, m, bio, i, before, got, pieces) && i < |m.disks|
    requires bio.sector + n == before + Capacity(m0.disks[i]) && 0 < n < bio.size / SECTOR_SIZE
    ensures (bio.sector - before + n) * SECTOR_SIZE <= |m.disks[i]| && n * SECTOR_SIZE < bio.size
    ensures InHand(m0, request, o,
                   Move(m, i, bio.write, (bio.sector - before) * SECTOR_SIZE, bio.done, n * SECTOR_SIZE),
                   bio.Rest(n), i + 1, bio.sector + n, got', pieces')
    ensures pieces' == pieces + [Piece(i, bio.sector - before, n)]
  {
    InHandFacts(m0, request, o, m, bio, i, before, got, pieces);
    hide Walk, Route, Underway, Ahead, Routed, Concat, Splice, Slice, Capacities;
    CapacitiesAt(m0.disks, i);
    assert WholeSectors(m0.disks) by {
      InHandWhole(m0, request, o, m, bio, i, before, got, pieces);
    }
    AheadNext(m0, request, o, m, i, before);
    got' := UnderwayAcross(m0, request.done, o, m, bio, i, before, got, n);
    pieces' := RoutedAcross(Capacities(m0.disks), i, before, bio, pieces, request);
  }

  lemma InHandWithin(m0: Memory, request: Bio, o: Outcome, m: Memory, bio: Bio, i: nat, before: nat, got: seq<Byte>,
                     pieces: seq<Piece>)
    returns (pieces': seq<Piece>)
    requires InHand(m0, request, o, m, bio, i, before, got, pieces) && i < |m.disks|
    requires bio.sector < before + Capacity(m0.disks[i])
    requires bio.sector + bio.size / SECTOR_SIZE <= before + Capacity(m0.disks[i])
    ensures (bio.sector - before) * SECTOR_SIZE + bio.size <= |m.disks[i]|
    ensures Finished(m0, request, o,
                     Move(m, i, bio.write, (bio.sector - before) * SECTOR_SIZE, bio.done, bio.size))
    ensures pieces' == pieces + [Piece(i, bio.sector - before, bio.size / SECTOR_SIZE)]
    ensures pieces' == Route(Capacities(m0.disks), 0, 0, request.sector, request.size / SECTOR_SIZE)
  {
    UnderwayWithin(m0, request.done, o, m, bio, i, before, got);
    pieces' := RoutedWithin(Capacities(m0.disks), i, before, bio, pieces, request);
  }

  /** A walk that runs out of children has touched nothing. */
  lemma EndWalk(m0: Memory, request: Bio, o: Outcome, m: Memory, bio: Bio, before: nat, got: seq<Byte>,
                pieces: seq<Piece>)
    requires InHand(m0, request, o, m, bio, |m0.disks|, before, got, pieces)
    ensures o.Lost? && m == m0 && pieces == [] && bio == request
  {
    assert m0.disks[|m0.disks|..] == [];
  }

  /** How a walk's end, or the refusal before it, answers the request. */
  lemma AnswerOf(m0: Memory, request: Bio, o: Outcome, m: Memory, status: Status)
    requires Covers(m0, request) && o == Walk(AtBoundary, m0.disks, 0, RequestOf(m0, request))
    requires match status
             case Failed => !Admits(TotalSize(m0.disks), RequestOf(m0, request)) && m == m0
             case Done => Admits(TotalSize(m0.disks), RequestOf(m0, request)) && Finished(m0, request, o, m)
             case Pending => Admits(TotalSize(m0.disks), RequestOf(m0, request)) && o.Lost? && m == m0
    ensures Answers(m0, m, request, status, VolumeStep(m0.disks, RequestOf(m0, request)))
  {
    hide Walk;
  }

  /** What the answer to a non-empty request means for the flat array the children make up: it completes exactly when
      the check lets it through and it lies inside the array; then a write replaces its range by the bytes of the bio
      and a read delivers its range to the bio, and nothing else changes. */
  lemma AnswersLikeFlat(m: Memory, m': Memory, bio: Bio, status: Status)
    requires Covers(m, bio) && Addressable(m.disks) && bio.sector < U64 && 0 < bio.size < U32
    requires Answers(m, m', bio, status, VolumeStep(m.disks, RequestOf(m, bio)))
    ensures SameSizes(m'.disks, m.disks)
    ensures var at, flat := bio.sector * SECTOR_SIZE, Concat(m.disks);
            && (status.Failed? <==> !Admits(TotalSize(m.disks), RequestOf(m, bio)))
            && (status.Done? <==> !status.Failed? && at + bio.size <= |flat|)
            && Concat(m'.disks) == (if status.Done? && bio.write
                                    then Splice(flat, at, Slice(m.stream, bio.done, bio.size)) else flat)
            && m'.stream == (if status.Done? && !bio.write
                             then Splice(m.stream, bio.done, Slice(flat, at, bio.size)) else m.stream)
  {
    hide Walk, Concat, Splice;
    StepRefinesFlat(m.disks, RequestOf(m, bio));
  }

  /** A completed non-empty request went out as a partition of itself: the pieces submitted are non-empty, in order,
      adjacent and disjoint, each inside its child, and together they are the sectors asked for. */
  lemma CompletedInPieces(m: Memory, m': Memory, bio: Bio, status: Status, pieces: seq<Piece>)
    requires Covers(m, bio) && Addressable(m.disks) && bio.sector < U64 && 0 < bio.size < U32
    requires Answers(m, m', bio, status, VolumeStep(m.disks, RequestOf(m, bio)))
    requires pieces == Route(Capacities(m.disks), 0, 0, bio.sector, bio.size / SECTOR_SIZE)
    ensures status.Done? ==>
              Tiles(pieces, Capacities(m.disks), 0, bio.sector, bio.sector + bio.size / SECTOR_SIZE)
  {
    hide Route, Tiles, Capacities, Concat, Splice, Slice, VolumeStep, Answers, TotalSize;
    AnswersLikeFlat(m, m', bio, status);
    if status.Done? {
      AdmittedInRangeIff(m.disks, RequestOf(m, bio));
      PiecesPartitionRequest(m.disks, RequestOf(m, bio));
    }
  }

  /** What the block layer hands to the driver: whole sectors. */
  ghost predicate Whole(bio: Bio) {
    bio.Valid() && bio.size % SECTOR_SIZE == 0
  }

  /** The request a bio stands for while its pages hold what they hold. */
  ghost function Asked(bio: Bio): (r: Request)
    requires Whole(bio)
    reads Pages(bio.vecs)
    ensures r.Aligned()
  {
    Request(bio.write, bio.sector, bio.size / SECTOR_SIZE, if bio.write then bio.Window() else [])
  }

  /** The window has received the bytes in order, and no other byte of the pages, which held `was`, has changed. */
  ghost predicate Received(bio: Bio, bytes: seq<Byte>, was: map<array<Byte>, seq<Byte>>)
    reads Pages(bio.vecs)
  {
    bio.Valid() && |bytes| == bio.size && Delivered(bio.vecs, bio.done, bio.done + bio.size, bytes, was)
  }

  /** The reply as the owner of the bio sees it: a read that completed has delivered the bytes to the pages, which held
      `was`, in order and changed no other byte of them; in every other case the pages are as they were. */
  ghost predicate Replied(bio: Bio, status: Status, reply: Reply, was: map<array<Byte>, seq<Byte>>)
    requires bio.Valid()
    reads Pages(bio.vecs)
  {
    match reply
    case Completed(bytes) =>
      && status.Done?
      && if bio.write then PagesOf(bio.vecs) == was
         else Received(bio, bytes, was)
    case IoError => status.Failed? && PagesOf(bio.vecs) == was
    case NeverCompleted => status.Pending? && PagesOf(bio.vecs) == was
  }

  /** No two bios share a page. */
  ghost predicate OwnPages(requests: seq<Bio>) {
    forall i, j :: 0 <= i < j < |requests| ==> Pages(requests[i].vecs) !! Pages(requests[j].vecs)
  }

  function AllPages(requests: seq<Bio>): set<array<Byte>> {
    set bio, page | bio in requests && page in Pages(bio.vecs) :: page
  }

  ghost function AllAsked(requests: seq<Bio>): (rs: seq<Request>)
    requires forall i :: 0 <= i < |requests| ==> Whole(requests[i])
    reads AllPages(requests)
    ensures |rs| == |requests| && forall i :: 0 <= i < |rs| ==> rs[i] == Asked(requests[i]) && rs[i].Aligned()
  {
    if requests == [] then []
    else
      assert requests == requests[..|requests| - 1] + [requests[|requests| - 1]];
      AllAsked(requests[..|requests| - 1]) + [Asked(requests[|requests| - 1])]
  }

  /** From `now` to `next` child `i` took the bytes in at its byte `at`, and no other child moved. */
  predicate Took(now: seq<seq<Byte>>, next: seq<seq<Byte>>, i: nat, at: nat, bytes: seq<Byte>) {
    i < |now| == |next| && Overwritten(now[i], next[i], at, bytes) && next == now[i := next[i]]
  }

  predicate Overwritten(now: seq<Byte>, next: seq<Byte>, at: nat, bytes: seq<Byte>) {
    at + |bytes| <= |now| && next == Splice(now, at, bytes)
  }

  /** `submitted` records every piece handed to a child, in order. */
  class Volume {
    const children: seq<Disk>
    const totalSize: nat
    ghost var submitted: seq<Piece>

    ghost predicate Valid()
      reads DataOf(children)
    {
      && (forall i, j :: 0 <= i < j < |children| ==> children[i].data != children[j].data)
      && Addressable(Contents(children))
      && totalSize == TotalSize(Contents(children))
    }

    /** device_init: adds the children's sizes up in an unsigned int. */
    constructor (children: seq<Disk>)
      requires forall i, j :: 0 <= i < j < |children| ==> children[i].data != children[j].data
      requires Addressable(Contents(children))
      ensures this.children == children && Valid() && submitted == []
    {
      ghost var sizes := Contents(children);
      var total, i := 0, 0;
      while i < |children|
        invariant 0 <= i <= |children|
        invariant total == |Concat(sizes[..i])| % U32
      {
        var capacity := children[i].data.Length / SECTOR_SIZE;
        ConcatPrefix(sizes, i);
        WrappedAddition(|Concat(sizes[..i])|, capacity);
        total := ((total + (capacity * SECTOR_SIZE) % U64) % U64) % U32;
        i := i + 1;
      }
      assert sizes[..|children|] == sizes;
      this.children, totalSize, submitted := children, total, [];
      new;
      assert Contents(this.children) == sizes;
    }

    ghost function MemoryOf(vecs: seq<BioVec>): Memory
      requires Fit(vecs)
      reads DataOf(children), Pages(vecs)
    {
      Memory(Contents(children), Stream(vecs))
    }

    /** Children keep their bytes in arrays of their own, apart from the pages of the bio. */
    ghost predicate Separate(bio: Bio) {
      && (forall i, j :: 0 <= i < j < |children| ==> children[i].data != children[j].data)
      && DataOf(children) !! Pages(bio.vecs)
    }

    /** Where the driver stands in `request` when the bytes up to `done` of its segments are dealt with: `m` is what
        the children hold and, for a write, what the pages hold; for a read, what they would hold if no segments
        overlapped, of which they have received the part up to `done`. */
    ghost predicate Tracks(request: Bio, done: nat, m: Memory, was: map<array<Byte>, seq<Byte>>)
      requires request.Valid()
      reads DataOf(children), Pages(request.vecs)
    {
      && Contents(children) == m.disks && |m.stream| == Total(request.vecs)
      && if request.write then m.stream == Stream(request.vecs) && PagesOf(request.vecs) == was
         else request.done <= done <= |m.stream|
              && Delivered(request.vecs, request.done, done, m.stream[request.done..done], was)
    }

    /** generic_make_request on child `i`, for a piece already in the child's own sectors. */
    method Submit(piece: Bio, i: nat)
      requires i < |children| && Whole(piece) && Separate(piece)
      requires piece.sector * SECTOR_SIZE + piece.size <= children[i].data.Length < U64
      modifies this`submitted, children[i].data, if piece.write then {} else Pages(piece.vecs)
      ensures submitted == old(submitted) + [Piece(i, piece.sector, piece.size / SECTOR_SIZE)]
      ensures piece.write ==>
                && PagesOf(piece.vecs) == old(PagesOf(piece.vecs)) && Stream(piece.vecs) == old(Stream(piece.vecs))
                && Took(old(Contents(children)), Contents(children), i, piece.sector * SECTOR_SIZE, old(piece.Window()))
      ensures !piece.write ==>
                && Contents(children) == old(Contents(children))
                && var at := piece.sector * SECTOR_SIZE;
                   Received(piece, children[i].data[at..at + piece.size], old(PagesOf(piece.vecs)))
    {
      assert piece.Valid();
      hide Stream, Disjoint, Splice, Fit, Total, Delivered, PagesOf, PageAfter, Bio.Window, Bio.Valid, Bio.At,
           Bio.AnswerOn, Whole, Separate, Took, Received;
      CheckIsExact(piece, children[i].data.Length);
      submitted := submitted + [Piece(i, piece.sector, piece.size / SECTOR_SIZE)];
      assert Contents(children) == old(Contents(children)) && PagesOf(piece.vecs) == old(PagesOf(piece.vecs));
      assert Stream(piece.vecs) == old(Stream(piece.vecs)) && piece.Window() == old(piece.Window());
      HandTo(i, piece, piece.sector * SECTOR_SIZE);
    }

    /** Handing a piece to one child leaves the others alone. */
    method HandTo(i: nat, piece: Bio, ghost at: nat)
      requires i < |children| && piece.Valid() && Separate(piece) && at == piece.At()
      requires at + piece.size <= children[i].data.Length < U64
      modifies children[i].data, if piece.write then {} else Pages(piece.vecs)
      ensures piece.write ==>
                && PagesOf(piece.vecs) == old(PagesOf(piece.vecs)) && Stream(piece.vecs) == old(Stream(piece.vecs))
                && Took(old(Contents(children)), Contents(children), i, at, old(piece.Window()))
      ensures !piece.write ==>
                && Contents(children) == old(Contents(children))
                && Received(piece, children[i].data[at..at + piece.size], old(PagesOf(piece.vecs)))
    {
      hide Stream, Disjoint, Splice, Fit, Total, Delivered, PagesOf, PageAfter, Bio.Window, Bio.AnswerOn, Bio.At;
      ghost var now := Contents(children);
      Hand(children[i], piece, at);
      forall j | 0 <= j < |children| && j != i ensures children[j].data[..] == now[j] {
        if j < i { assert children[j].data != children[i].data; } else { assert children[i].data != children[j].data; }
      }
      OneChild(now, i);
      assert now[i := now[i]] == now;
    }

    /** The child's make_request function, on a piece it holds from byte `at` on. */
    static method Hand(child: Disk, piece: Bio, ghost at: nat)
      requires piece.Valid() && child.data !in Pages(piece.vecs) && at == piece.At()
      requires at + piece.size <= child.data.Length < U64
      modifies child.data, if piece.write then {} else Pages(piece.vecs)
      ensures piece.write ==>
                && PagesOf(piece.vecs) == old(PagesOf(piece.vecs)) && Stream(piece.vecs) == old(Stream(piece.vecs))
                && Overwritten(old(child.data[..]), child.data[..], at, old(piece.Window()))
      ensures !piece.write ==>
                && child.data[..] == old(child.data[..])
                && Received(piece, child.data[at..at + piece.size], old(PagesOf(piece.vecs)))
    {
      hide Stream, Disjoint, Splice, Fit, Total, Delivered, PagesOf, PageAfter, Bio.At, Bio.AnswerOn, Bio.Window;
      InsideCompletes(piece, child.data.Length);
      var answer := child.MakeRequest(piece);
    }

    lemma OneChild(now: seq<seq<Byte>>, i: nat)
      requires i < |children| == |now|
      requires forall j :: 0 <= j < |children| && j != i ==> children[j].data[..] == now[j]
      ensures Contents(children) == now[i := children[i].data[..]]
    {
    }

    /** Submit in the course of a request: what it does to the memory the driver keeps track of. */
    method Dispatch(request: Bio, piece: Bio, i: nat, ghost m: Memory, ghost was: map<array<Byte>, seq<Byte>>)
      requires i < |children| && Whole(piece) && Separate(piece) && request.Valid()
      requires piece.write == request.write && piece.vecs == request.vecs && request.done <= piece.done
      requires piece.sector * SECTOR_SIZE + piece.size <= children[i].data.Length < U64
      requires Tracks(request, piece.done, m, was)
      modifies this`submitted, children[i].data, if piece.write then {} else Pages(piece.vecs)
      ensures submitted == old(submitted) + [Piece(i, piece.sector, piece.size / SECTOR_SIZE)]
      ensures Tracks(request, piece.done + piece.size,
                     Move(m, i, piece.write, piece.sector * SECTOR_SIZE, piece.done, piece.size), was)
    {
      hide Stream, Disjoint, Splice, Fit, Total, Delivered, PagesOf, PageAfter;
      ghost var between := PagesOf(piece.vecs);
      ghost var from, k, end := request.done, piece.done, piece.done + piece.size;
      if !piece.write {
        RememberDelivery(piece.vecs, from, k, m.stream[from..k], was);
      }
      assert piece.write ==> piece.Window() == Slice(m.stream, piece.done, piece.size);
      Submit(piece, i);
      if !piece.write {
        ghost var at := piece.sector * SECTOR_SIZE;
        ghost var bytes := Slice(m.disks[i], at, piece.size);
        assert children[i].data[at..at + piece.size] == Contents(children)[i][at..at + piece.size] == bytes;
        DeliveredJoin(piece.vecs, from, k, end, m.stream[from..k], bytes, was, between);
        SpliceExtends(m.stream, from, k, bytes);
      }
    }

    /** device_make_request: the bounds check, then the walk over the children, cutting at every boundary. The
        children, the pages and the status end up as VolumeStep says, and what was submitted is the route. */
    method DeviceMakeRequest(request: Bio) returns (status: Status)
      requires Valid() && Whole(request) && Separate(request)
      requires request.sector < U64 && request.size < U32
      modifies this`submitted, DataOf(children), if request.write then {} else Pages(request.vecs)
      ensures Valid()
      ensures var (disks, reply) := VolumeStep(old(Contents(children)), old(Asked(request)));
              Contents(children) == disks && Replied(request, status, reply, old(PagesOf(request.vecs)))
      ensures request.write || Disjoint(request.vecs) ==>
                var m := old(MemoryOf(request.vecs));
                Answers(m, MemoryOf(request.vecs), request, status, VolumeStep(m.disks, RequestOf(m, request)))
      ensures submitted ==
                old(submitted) +
                if status.Done?
                then Route(old(Capacities(Contents(children))), 0, 0, request.sector, request.size / SECTOR_SIZE)
                else []
    {
      TakeSnapshot(request.vecs);
      ghost var m, was;
      status, m, was := Serve(request);
      assert SameSizes(Contents(children), old(Contents(children)));
      StaysValid(old(Contents(children)));
      assert old(RequestOf(MemoryOf(request.vecs), request)) == old(Asked(request));
      hide Stream, Disjoint, Delivered, PagesOf, Snapshot, Fit, Splice, Slice, Total, VolumeStep, Answers, Replied,
           Tracks, Route, Concat, Capacities, Addressable, TotalSize, SameSizes, RequestOf, Asked;
      Conclude(request, status, old(MemoryOf(request.vecs)), m, was, old(Asked(request)));
    }

    /** The same, in terms of the memory the driver keeps track of. */
    method Serve(request: Bio) returns (status: Status, ghost m: Memory, ghost was: map<array<Byte>, seq<Byte>>)
      requires Valid() && Whole(request) && Separate(request)
      requires request.sector < U64 && request.size < U32
      modifies this`submitted, DataOf(children), if request.write then {} else Pages(request.vecs)
      ensures was == old(PagesOf(request.vecs))
      ensures Tracks(request, if status.Done? then request.done + request.size else request.done, m, was)
      ensures var m0 := old(MemoryOf(request.vecs));
              Answers(m0, m, request, status, VolumeStep(m0.disks, RequestOf(m0, request)))
      ensures submitted ==
                old(submitted) +
                if status.Done?
                then Route(old(Capacities(Contents(children))), 0, 0, request.sector, request.size / SECTOR_SIZE)
                else []
    {
      ghost var m0 := MemoryOf(request.vecs);
      StartTracking(request, m0);
      CheckAdmits(m0, request);
      hide Walk, InHand, Finished, Route, Stream, Disjoint, Answers, VolumeStep, Splice, Slice, Fit, Total, Concat,
           Tracks, PagesOf, Pages, Snapshot, Capacities, Addressable, Covers, TotalSize, Admits, RequestOf;
      ghost var o := Walk(AtBoundary, m0.disks, 0, RequestOf(m0, request));
      m, was := m0, PagesOf(request.vecs);
      if ((request.sector * SECTOR_SIZE) % U64 + request.size) % U64 > totalSize {
        AnswerOf(m0, request, o, m0, Failed);
        return Failed, m, was;
      }
      StartWalk(m0, request, o);
      var finished;
      finished, m := WalkChildren(request, m0, was, o);
      status := if finished then Done else Pending;
      AnswerOf(m0, request, o, m, status);
    }

    /** The walk over the children; it ends early once the whole request is handed out. */
    method WalkChildren(request: Bio, ghost m0: Memory, ghost was: map<array<Byte>, seq<Byte>>, ghost o: Outcome)
      returns (finished: bool, ghost m: Memory)
      requires Whole(request) && Separate(request) && Addressable(m0.disks)
      requires InHand(m0, request, o, m0, request, 0, 0, [], []) && Tracks(request, request.done, m0, was)
      modifies this`submitted, DataOf(children), if request.write then {} else Pages(request.vecs)
      ensures if finished
              then && Finished(m0, request, o, m) && Tracks(request, request.done + request.size, m, was)
                   && submitted == old(submitted) +
                                   Route(Capacities(m0.disks), 0, 0, request.sector, request.size / SECTOR_SIZE)
              else o.Lost? && m == m0 && Tracks(request, request.done, m0, was) && submitted == old(submitted)
    {
      hide Walk, InHand, Finished, Route, Stream, Disjoint, Splice, Slice, Fit, Total, Concat, PagesOf, Pages,
           Snapshot, Capacities, Addressable, Covers, Delivered;
      assert |m0.disks| == |children|;
      ghost var got, pieces, log := [], [], submitted;
      m := m0;
      var bio := request;
      var before: nat, i: nat := 0, 0;
      while i < |children|
        invariant i <= |children| && submitted == log + pieces
        invariant Tracks(request, bio.done, m, was)
        invariant InHand(m0, request, o, m, bio, i, before, got, pieces)
      {
        finished, bio, m, got, pieces := Visit(request, bio, i, before, m0, m, was, o, got, pieces, log);
        if finished {
          return true, m;
        }
        before := before + children[i].data.Length / SECTOR_SIZE;
        i := i + 1;
      }
      EndWalk(m0, request, o, m, bio, before, got, pieces);
      return false, m;
    }

    /** The loop body: skip child `i`, cut at its end, or hand it the whole remainder. */
    method Visit(request: Bio, bio: Bio, i: nat, before: nat, ghost m0: Memory, ghost m: Memory,
                 ghost was: map<array<Byte>, seq<Byte>>, ghost o: Outcome, ghost got: seq<Byte>,
                 ghost pieces: seq<Piece>, ghost log: seq<Piece>)
      returns (finished: bool, bio': Bio, ghost m': Memory, ghost got': seq<Byte>, ghost pieces': seq<Piece>)
      requires i < |children| && Whole(request) && Separate(request) && submitted == log + pieces
      requires Addressable(m0.disks)
      requires InHand(m0, request, o, m, bio, i, before, got, pieces) && Tracks(request, bio.done, m, was)
      modifies this`submitted, DataOf(children), if request.write then {} else Pages(request.vecs)
      ensures submitted == log + pieces'
      ensures if finished
              then && Finished(m0, request, o, m') && Tracks(request, request.done + request.size, m', was)
                   && pieces' == Route(Capacities(m0.disks), 0, 0, request.sector, request.size / SECTOR_SIZE)
              else && InHand(m0, request, o, m', bio', i + 1, before + children[i].data.Length / SECTOR_SIZE, got',
                             pieces')
                   && Tracks(request, bio'.done, m', was)
    {
      hide Walk, InHand, Finished, Route, Stream, Disjoint, Splice, Slice, Total, Concat, Capacities, Fit, Delivered,
           PagesOf;
      InHandFacts(m0, request, o, m, bio, i, before, got, pieces);
      ChildFits(m0.disks, i);
      assert |m.disks[i]| == children[i].data.Length;
      var boundary := before + children[i].data.Length / SECTOR_SIZE;
      finished, bio', m', got', pieces' := false, bio, m, got, pieces;
      if bio.sector >= boundary {
        InHandPast(m0, request, o, m, bio, i, before, got, pieces);
      } else if bio.sector + bio.size / SECTOR_SIZE > boundary {
        var n := boundary - bio.sector;
        got', pieces' := InHandAcross(m0, request, o, m, bio, i, before, got, pieces, n);
        bio' := bio.Rest(n);
        var piece := bio.Front(n).(sector := bio.sector - before);
        m' := Move(m, i, bio.write, piece.sector * SECTOR_SIZE, bio.done, piece.size);
        Dispatch(request, piece, i, m, was);
        assert log + pieces + [Piece(i, bio.sector - before, n)] == log + pieces';
      } else {
        pieces' := InHandWithin(m0, request, o, m, bio, i, before, got, pieces);
        finished := true;
        var piece := bio.(sector := bio.sector - before);
        m' := Move(m, i, bio.write, piece.sector * SECTOR_SIZE, bio.done, piece.size);
        Dispatch(request, piece, i, m, was);
        assert log + pieces + [Piece(i, bio.sector - before, bio.size / SECTOR_SIZE)] == log + pieces';
      }
    }

    /** Requests one after the other, each with pages of its own. The volume answers like one flat array with the same
        admission check, whatever the bios' segments, and ends in its bytes. */
    method ServeRun(requests: seq<Bio>) returns (statuses: seq<Status>)
      requires Valid() && OwnPages(requests)
      requires forall i :: 0 <= i < |requests| ==> Whole(requests[i]) && Separate(requests[i])
      requires forall i :: 0 <= i < |requests| ==> requests[i].sector < U64 && 0 < requests[i].size < U32
      modifies this`submitted, DataOf(children), AllPages(requests)
      ensures Valid() && |statuses| == |requests|
      ensures var (flat, replies) := RunFlat(totalSize, old(Concat(Contents(children))), old(AllAsked(requests)));
              && Concat(Contents(children)) == flat && |replies| == |requests|
              && forall i :: 0 <= i < |requests| ==>
                   Replied(requests[i], statuses[i], replies[i], old(PagesOf(requests[i].vecs)))
    {
      hide RunFlat, FlatStep, Replied, PagesOf, Stream, Fit, Addressable, TotalSize, Concat, Asked,
           OwnPages, AllPages, Valid, Slice, Total, Bio.Valid;
      ghost var rs, flat0 := AllAsked(requests), Concat(Contents(children));
      ghost var replies: seq<Reply> := [];
      RunFlatNothing(totalSize, flat0);
      assert rs[..0] == [];
      statuses := [];
      var i := 0;
      while i < |requests|
        invariant 0 <= i <= |requests| && |statuses| == |replies| == i && Valid()
        invariant RunFlat(totalSize, flat0, rs[..i]) == (Concat(Contents(children)), replies)
        invariant forall j :: 0 <= j < i ==>
                    Replied(requests[j], statuses[j], replies[j], old(PagesOf(requests[j].vecs)))
        invariant forall j :: i <= j < |requests| ==>
                    PagesOf(requests[j].vecs) == old(PagesOf(requests[j].vecs)) && Asked(requests[j]) == rs[j]
      {
        Aside(requests, i);
        var status, reply := ServeNext(requests, i);
        assert rs[..i + 1] == rs[..i] + [rs[i]];
        RunFlatAppend(totalSize, flat0, rs[..i], rs[i]);
        statuses, replies := statuses + [status], replies + [reply];
        i := i + 1;
      }
      assert rs[..i] == rs;
    }

    lemma Aside(requests: seq<Bio>, i: nat)
      requires i < |requests| && OwnPages(requests)
      requires forall i :: 0 <= i < |requests| ==> Separate(requests[i])
      ensures Pages(requests[i].vecs) <= AllPages(requests)
      ensures forall j :: 0 <= j < |requests| && j != i ==>
                Pages(requests[j].vecs) !! Pages(requests[i].vecs) && DataOf(children) !! Pages(requests[j].vecs)
    {
      hide Pages;
    }

    /** One request of the run: it is answered like the flat array's next step, and no other request's pages move. */
    method ServeNext(requests: seq<Bio>, i: nat) returns (status: Status, ghost reply: Reply)
      requires Valid() && i < |requests| && Whole(requests[i]) && Separate(requests[i])
      requires requests[i].sector < U64 && 0 < requests[i].size < U32
      modifies this`submitted, DataOf(children), Pages(requests[i].vecs)
      ensures Valid()
      ensures (Concat(Contents(children)), reply)
              == FlatStep(totalSize, old(Concat(Contents(children))), old(Asked(requests[i])))
      ensures Replied(requests[i], status, reply, old(PagesOf(requests[i].vecs)))
    {
      ghost var before, r := Contents(children), Asked(requests[i]);
      status := DeviceMakeRequest(requests[i]);
      StepRefinesFlat(before, r);
      reply := VolumeStep(before, r).1;
    }

    lemma StartTracking(request: Bio, m0: Memory)
      requires request.Valid() && m0 == MemoryOf(request.vecs)
      ensures Tracks(request, request.done, m0, PagesOf(request.vecs))
    {
      DeliveredNothing(request.vecs, request.done, []);
    }

    /** The children's sizes never change. */
    lemma StaysValid(before: seq<seq<Byte>>)
      requires forall i, j :: 0 <= i < j < |children| ==> children[i].data != children[j].data
      requires SameSizes(Contents(children), before)
      requires Addressable(before) && totalSize == TotalSize(before)
      ensures Valid()
    {
      AddressableNext(before, Contents(children));
    }

    /** From the memory kept track of to the pages and the reply. */
    lemma Conclude(request: Bio, status: Status, m0: Memory, m: Memory, was: map<array<Byte>, seq<Byte>>, r: Request)
      requires Whole(request) && Covers(m0, request) && r == RequestOf(m0, request)
      requires Tracks(request, if status.Done? then request.done + request.size else request.done, m, was)
      requires Answers(m0, m, request, status, VolumeStep(m0.disks, r))
      requires Snapshot(request.vecs, m0.stream, was) && was.Keys == Pages(request.vecs)
      ensures var (disks, reply) := VolumeStep(m0.disks, r);
              Contents(children) == disks && Replied(request, status, reply, was)
      ensures request.write || Disjoint(request.vecs) ==>
                Answers(m0, MemoryOf(request.vecs), request, status, VolumeStep(m0.disks, r))
    {
      hide VolumeStep, Stream, Disjoint, Delivered, PagesOf, Snapshot, Fit, Splice, Total, Pages;
      if !request.write {
        if status.Done? {
          ConcludeDone(request, m0, m, was, VolumeStep(m0.disks, r).1.bytes);
        } else {
          NothingDelivered(request.vecs, request.done, m.stream[request.done..request.done], was);
          SamePages(request.vecs, m0.stream);
        }
      }
    }

    lemma ConcludeDone(request: Bio, m0: Memory, m: Memory, was: map<array<Byte>, seq<Byte>>, bytes: seq<Byte>)
      requires request.Valid() && !request.write && Tracks(request, request.done + request.size, m, was)
      requires Snapshot(request.vecs, m0.stream, was) && |bytes| == request.size
      requires request.done + |bytes| <= |m0.stream| && m.stream == Splice(m0.stream, request.done, bytes)
      ensures Delivered(request.vecs, request.done, request.done + request.size, bytes, was)
      ensures Disjoint(request.vecs) ==> Stream(request.vecs) == m.stream
    {
      hide Stream, Disjoint, Delivered, PagesOf, Snapshot, Fit, Splice, Total, Pages;
      SpliceMiddle(m0.stream, request.done, bytes);
      if Disjoint(request.vecs) {
        StreamDelivered(request.vecs, request.done, request.done + request.size, bytes, was, m0.stream);
      }
    }
  }

  lemma RunFlatNothing(total: nat, flat: seq<Byte>)
    ensures RunFlat(total, flat, []) == (flat, [])
  {
  }

  lemma ChildFits(disks: seq<seq<Byte>>, i: nat)
    requires Addressable(disks) && i < |disks|
    ensures |disks[i]| < U64 && |disks[i]| % SECTOR_SIZE == 0
  {
    ConcatPrefix(disks, i);
    PrefixFits(disks, i + 1);
  }

  lemma {:induction false} PrefixFits(disks: seq<seq<Byte>>, i: nat)
    requires i <= |disks|
    ensures |Concat(disks[..i])| <= |Concat(disks)|
    decreases |disks| - i
  {
    if i == |disks| {
      assert disks[..i] == disks;
    } else {
      ConcatPrefix(disks, i);
      PrefixFits(disks, i + 1);
    }
  }

  lemma SpliceMiddle(s: seq<Byte>, k: nat, p: seq<Byte>)
    requires k + |p| <= |s|
    ensures Splice(s, k, p)[k..k + |p|] == p
  {
  }

  lemma SpliceExtends(s: seq<Byte>, from: nat, k: nat, p: seq<Byte>)
    requires from <= k && k + |p| <= |s|
    ensures Splice(s, k, p)[from..k + |p|] == s[from..k] + p
  {
  }

  lemma {:induction false} ConcatPrefix(disks: seq<seq<Byte>>, i: nat)
    requires i < |disks|
    ensures Concat(disks[..i + 1]) == Concat(disks[..i]) + disks[i]
  {
    var p, q := disks[..i], disks[..i + 1];
    if i == 0 {
      assert q[1..] == [];
    } else {
      assert p[1..] == disks[1..][..i - 1] && q[1..] == disks[1..][..i];
      ConcatPrefix(disks[1..], i - 1);
    }
  }

  lemma MultipleMod(k: nat, v: nat)
    ensures (k * U32 + v) % U32 == v % U32
  {
    var w := v / U32;
    assert k * U32 + v == (k + w) * U32 + v % U32;
  }

  /** Unsigned int plus unsigned long, stored back in the unsigned int, keeps the exact sum modulo 2^32. */
  lemma WrappedAddition(sum: nat, capacity: nat)
    ensures ((sum % U32 + (capacity * SECTOR_SIZE) % U64) % U64) % U32 == (sum + capacity * SECTOR_SIZE) % U32
  {
    var bytes := capacity * SECTOR_SIZE;
    var p, s, q, t := sum / U32, sum % U32, bytes / U64, bytes % U64;
    var u, v := (s + t) / U64, (s + t) % U64;
    MultipleMod(p + q * U32 + u * U32, v);
    assert sum + bytes == (p + q * U32 + u * U32) * U32 + v;
  }
}
