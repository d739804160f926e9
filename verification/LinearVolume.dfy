/** The linear volume (vrd_2018_04_18.c) on values: admission, routing, splitting, and the flat array it stands for. */
module LinearVolume {
  import opened Bytes

  /** A block-layer request for `count` whole sectors from `sector` on; a write brings its bytes along. */
  datatype Request = Request(write: bool, sector: nat, count: nat, payload: seq<Byte>) {
    predicate Aligned() {
      |payload| == if write then Size() else 0
    }

    function Size(): nat {
      count * SECTOR_SIZE
    }

    function EndSector(): nat {
      sector + count
    }

    /** The first `n` sectors of the request; bio_split returns this part. */
    function Front(n: nat): (r: Request)
      requires Aligned() && n <= count
      ensures r.Aligned()
    {
      Request(write, sector, n, if write then payload[..n * SECTOR_SIZE] else [])
    }

    /** What remains after the first `n` sectors; bio_split leaves this part in its argument. */
    function Rest(n: nat): (r: Request)
      requires Aligned() && n <= count
      ensures r.Aligned()
    {
      Request(write, sector + n, count - n, if write then payload[n * SECTOR_SIZE..] else [])
    }
  }

  // ----- what one disk does with a request -----

  datatype Effect = Effect(disk: seq<Byte>, bytes: seq<Byte>)

  /** Serving a request whose first byte lies at offset `at` of `disk`. */
  function Serve(disk: seq<Byte>, at: nat, r: Request): (e: Effect)
    requires r.Aligned() && at + r.Size() <= |disk|
  {
    if r.write then Effect(Splice(disk, at, r.payload), []) else Effect(disk, Slice(disk, at, r.Size()))
  }

  // ----- routing -----

  /** How a request that outgrows its child is cut. `AsWritten` is the call at line 60: bio_split is asked for
      as many sectors as the boundary's absolute number, the remainder goes to the current child and the front
      is carried on. `AtBoundary` is the evident intent: the front up to the boundary goes to the current child. */
  datatype SplitRule = AsWritten | AtBoundary

  datatype Outcome =
    | Served(disks: seq<seq<Byte>>, bytes: seq<Byte>)
    | Lost  // a child refused a piece, bio_split trapped, or the walk ended with a remainder in hand

  datatype Cut = Parts(toChild: Request, carry: Request) | Trap

  function Split(rule: SplitRule, boundary: nat, r: Request): Cut
    requires r.Aligned() && r.sector < boundary < r.EndSector()
  {
    match rule
    case AtBoundary => Parts(r.Front(boundary - r.sector), r.Rest(boundary - r.sector))
    case AsWritten =>
      // bio_split insists on a length below that of the request
      if boundary >= r.count then Trap else Parts(r.Rest(boundary), r.Front(boundary))
  }

  predicate WholeSectors(disks: seq<seq<Byte>>) {
    forall i :: 0 <= i < |disks| ==> |disks[i]| % SECTOR_SIZE == 0
  }

  function Capacity(disk: seq<Byte>): nat {
    |disk| / SECTOR_SIZE
  }

  /** Submits `r`, rebased by `before`, to a child, and puts its effect in front of what the rest of the walk did. */
  function Dispatch(disk: seq<Byte>, before: nat, r: Request, rest: Outcome): Outcome
    requires r.Aligned()
  {
    if r.sector < before || (r.sector - before) * SECTOR_SIZE + r.Size() > |disk| || rest.Lost? then Lost
    else
      var e := Serve(disk, (r.sector - before) * SECTOR_SIZE, r);
      Served([e.disk] + rest.disks, e.bytes + rest.bytes)
  }

  /** The list walk of device_make_request over `disks`, the first of which starts at sector `before`. */
  function Walk(rule: SplitRule, disks: seq<seq<Byte>>, before: nat, r: Request): Outcome
    requires r.Aligned()
    decreases |disks|
  {
    if disks == [] then Lost
    else
      var boundary := before + Capacity(disks[0]);
      if r.sector >= boundary then
        var rest := Walk(rule, disks[1..], boundary, r);
        if rest.Lost? then Lost else Served([disks[0]] + rest.disks, rest.bytes)
      else if r.EndSector() > boundary then
        match Split(rule, boundary, r)
        case Trap => Lost
        case Parts(toChild, carry) => Dispatch(disks[0], before, toChild, Walk(rule, disks[1..], boundary, carry))
      else
        Dispatch(disks[0], before, r, Served(disks[1..], []))
  }

  lemma WalkCrossing(disks: seq<seq<Byte>>, before: nat, r: Request, boundary: nat)
    requires r.Aligned() && disks != [] && before <= r.sector < boundary < r.EndSector()
    requires boundary == before + Capacity(disks[0])
    ensures Walk(AtBoundary, disks, before, r)
            == Dispatch(disks[0], before, r.Front(boundary - r.sector),
                        Walk(AtBoundary, disks[1..], boundary, r.Rest(boundary - r.sector)))
  {
  }

  lemma CapacityInBytes(disks: seq<seq<Byte>>)
    requires WholeSectors(disks) && disks != []
    ensures Capacity(disks[0]) * SECTOR_SIZE == |disks[0]|
    ensures WholeSectors(disks[1..])
    ensures Concat(disks) == disks[0] + Concat(disks[1..])
  {
  }

  /** `o` is what a walk ends in that has so far produced `done` and `got` and has the walk `rest` ahead of it. */
  predicate Resumes(o: Outcome, done: seq<seq<Byte>>, got: seq<Byte>, rest: Outcome) {
    o == if rest.Lost? then Lost else Served(done + rest.disks, got + rest.bytes)
  }

  lemma ResumePast(o: Outcome, done: seq<seq<Byte>>, got: seq<Byte>, disks: seq<seq<Byte>>, before: nat, r: Request)
    requires r.Aligned() && disks != [] && before + Capacity(disks[0]) <= r.sector
    requires Resumes(o, done, got, Walk(AtBoundary, disks, before, r))
    ensures Resumes(o, done + [disks[0]], got, Walk(AtBoundary, disks[1..], before + Capacity(disks[0]), r))
  {
    var rest := Walk(AtBoundary, disks[1..], before + Capacity(disks[0]), r);
    if rest.Served? {
      assert done + ([disks[0]] + rest.disks) == done + [disks[0]] + rest.disks;
    }
  }

  lemma ResumeDispatch(o: Outcome, done: seq<seq<Byte>>, got: seq<Byte>, disk: seq<Byte>, before: nat, r: Request,
                       rest: Outcome)
    requires r.Aligned() && before <= r.sector && (r.sector - before) * SECTOR_SIZE + r.Size() <= |disk|
    requires Resumes(o, done, got, Dispatch(disk, before, r, rest))
    ensures var e := Serve(disk, (r.sector - before) * SECTOR_SIZE, r);
            Resumes(o, done + [e.disk], got + e.bytes, rest)
  {
    var e := Serve(disk, (r.sector - before) * SECTOR_SIZE, r);
    if rest.Served? {
      assert done + ([e.disk] + rest.disks) == done + [e.disk] + rest.disks;
      assert got + (e.bytes + rest.bytes) == got + e.bytes + rest.bytes;
    }
  }

  lemma ResumeAcross(o: Outcome, done: seq<seq<Byte>>, got: seq<Byte>, disks: seq<seq<Byte>>, before: nat, r: Request,
                     n: nat)
    requires r.Aligned() && WholeSectors(disks) && disks != [] && before <= r.sector
    requires r.sector + n == before + Capacity(disks[0]) && 0 < n < r.count
    requires Resumes(o, done, got, Walk(AtBoundary, disks, before, r))
    ensures (r.sector - before + n) * SECTOR_SIZE == |disks[0]|
    ensures var e := Serve(disks[0], (r.sector - before) * SECTOR_SIZE, r.Front(n));
            Resumes(o, done + [e.disk], got + e.bytes, Walk(AtBoundary, disks[1..], r.sector + n, r.Rest(n)))
  {
    CapacityInBytes(disks);
    WalkCrossing(disks, before, r, r.sector + n);
    ResumeDispatch(o, done, got, disks[0], before, r.Front(n), Walk(AtBoundary, disks[1..], r.sector + n, r.Rest(n)));
  }

  lemma ResumeWithin(o: Outcome, done: seq<seq<Byte>>, got: seq<Byte>, disks: seq<seq<Byte>>, before: nat, r: Request)
    requires r.Aligned() && WholeSectors(disks) && disks != []
    requires before <= r.sector < before + Capacity(disks[0]) && r.EndSector() <= before + Capacity(disks[0])
    requires Resumes(o, done, got, Walk(AtBoundary, disks, before, r))
    ensures (r.sector - before + r.count) * SECTOR_SIZE <= |disks[0]|
    ensures var e := Serve(disks[0], (r.sector - before) * SECTOR_SIZE, r);
            o == Served(done + [e.disk] + disks[1..], got + e.bytes)
  {
    CapacityInBytes(disks);
    ResumeDispatch(o, done, got, disks[0], before, r, Served(disks[1..], []));
    var e := Serve(disks[0], (r.sector - before) * SECTOR_SIZE, r);
    assert got + e.bytes + [] == got + e.bytes;
  }

  // ----- refinement of the flat array -----

  predicate SameSizes(a: seq<seq<Byte>>, b: seq<seq<Byte>>) {
    |a| == |b| && forall i :: 0 <= i < |a| ==> |a[i]| == |b[i]|
  }

  /** The outcome is that of serving the request on the one array `disks` concatenate to. */
  predicate LikeFlat(o: Outcome, disks: seq<seq<Byte>>, at: nat, r: Request)
    requires r.Aligned() && at + r.Size() <= |Concat(disks)|
  {
    o.Served? && SameSizes(o.disks, disks) &&
    Effect(Concat(o.disks), o.bytes) == Serve(Concat(disks), at, r)
  }

  /** Putting an unchanged or rewritten first disk in front keeps the sizes and the concatenation in step. */
  lemma ConsDisk(d: seq<Byte>, rest: seq<seq<Byte>>, disks: seq<seq<Byte>>)
    requires disks != [] && |d| == |disks[0]| && SameSizes(rest, disks[1..])
    ensures SameSizes([d] + rest, disks)
    ensures Concat([d] + rest) == d + Concat(rest)
  {
    var all := [d] + rest;
    assert all[1..] == rest;
    forall i | 0 <= i < |all| ensures |all[i]| == |disks[i]| {
      if i > 0 {
        assert all[i] == rest[i - 1] && disks[i] == disks[1..][i - 1];
      }
    }
  }

  /** Serving a request that lies right of `a` in `a + b`. */
  lemma ServeRight(a: seq<Byte>, b: seq<Byte>, at: nat, r: Request)
    requires r.Aligned() && |a| <= at && at + r.Size() <= |a| + |b|
    ensures var e := Serve(b, at - |a|, r); Serve(a + b, at, r) == Effect(a + e.disk, e.bytes)
  {
    if r.write {
      SpliceRight(a, b, at, r.payload);
    }
  }

  lemma ServeLeft(a: seq<Byte>, b: seq<Byte>, at: nat, r: Request)
    requires r.Aligned() && at + r.Size() <= |a|
    ensures var e := Serve(a, at, r); Serve(a + b, at, r) == Effect(e.disk + b, e.bytes)
  {
    if r.write {
      SpliceLeft(a, b, at, r.payload);
    }
  }

  /** Serving a request across the seam of `a + b` is serving its front on `a` and its rest at the start of `b`. */
  lemma ServeAcross(a: seq<Byte>, b: seq<Byte>, at: nat, r: Request, n: nat)
    requires r.Aligned() && n <= r.count && at + n * SECTOR_SIZE == |a| && at + r.Size() <= |a| + |b|
    ensures var e, f := Serve(a, at, r.Front(n)), Serve(b, 0, r.Rest(n));
            Serve(a + b, at, r) == Effect(e.disk + f.disk, e.bytes + f.bytes)
  {
    if r.write {
      assert r.payload == r.Front(n).payload + r.Rest(n).payload;
      SpliceAcross(a, b, at, r.Front(n).payload, r.Rest(n).payload);
    } else {
      assert (a + b)[at..at + r.Size()] == a[at..] + b[..r.Size() - n * SECTOR_SIZE];
    }
  }

  /** Routed, split and served child by child, a request has exactly the effect it has on the flat array. An empty
      request just past the last sector is the one in-range request the walk loses. */
  lemma {:induction false} WalkRefinesFlat(disks: seq<seq<Byte>>, before: nat, r: Request)
    requires WholeSectors(disks) && r.Aligned() && before <= r.sector
    requires (r.sector - before) * SECTOR_SIZE + r.Size() <= |Concat(disks)|
    ensures var o := Walk(AtBoundary, disks, before, r);
            if (r.sector - before) * SECTOR_SIZE == |Concat(disks)| then o.Lost?
            else LikeFlat(o, disks, (r.sector - before) * SECTOR_SIZE, r)
    decreases |disks|, 1
  {
    if disks == [] {
    } else {
      var boundary := before + Capacity(disks[0]);
      CapacityInBytes(disks);
      if r.sector >= boundary {
        WalkPast(disks, before, r);
      } else if r.EndSector() > boundary {
        WalkAcross(disks, before, r);
      } else {
        WalkWithin(disks, before, r);
      }
    }
  }

  lemma {:induction false} WalkPast(disks: seq<seq<Byte>>, before: nat, r: Request)
    requires WholeSectors(disks) && r.Aligned() && disks != []
    requires before + Capacity(disks[0]) <= r.sector
    requires (r.sector - before) * SECTOR_SIZE + r.Size() <= |Concat(disks)|
    ensures var o := Walk(AtBoundary, disks, before, r);
            if (r.sector - before) * SECTOR_SIZE == |Concat(disks)| then o.Lost?
            else LikeFlat(o, disks, (r.sector - before) * SECTOR_SIZE, r)
    decreases |disks|, 0
  {
    CapacityInBytes(disks);
    var boundary := before + Capacity(disks[0]);
    var at := (r.sector - before) * SECTOR_SIZE;
    var o := Walk(AtBoundary, disks[1..], boundary, r);
    WalkRefinesFlat(disks[1..], boundary, r);
    if at != |Concat(disks)| {
      ConsDisk(disks[0], o.disks, disks);
      ServeRight(disks[0], Concat(disks[1..]), at, r);
    }
  }

  /** A front served on the first disk and a rest served like the flat array from the next disk's start on. */
  lemma DispatchAcross(disks: seq<seq<Byte>>, before: nat, r: Request, n: nat, rest: Outcome)
    requires WholeSectors(disks) && r.Aligned() && disks != [] && before <= r.sector && n <= r.count
    requires (r.sector - before + n) * SECTOR_SIZE == |disks[0]|
    requires (r.count - n) * SECTOR_SIZE <= |Concat(disks[1..])| && LikeFlat(rest, disks[1..], 0, r.Rest(n))
    ensures LikeFlat(Dispatch(disks[0], before, r.Front(n), rest), disks, (r.sector - before) * SECTOR_SIZE, r)
  {
    var at := (r.sector - before) * SECTOR_SIZE;
    ServeAcross(disks[0], Concat(disks[1..]), at, r, n);
    ConsDisk(Serve(disks[0], at, r.Front(n)).disk, rest.disks, disks);
  }

  lemma {:induction false} WalkAcross(disks: seq<seq<Byte>>, before: nat, r: Request)
    requires WholeSectors(disks) && r.Aligned() && disks != []
    requires before <= r.sector < before + Capacity(disks[0]) < r.EndSector()
    requires (r.sector - before) * SECTOR_SIZE + r.Size() <= |Concat(disks)|
    ensures LikeFlat(Walk(AtBoundary, disks, before, r), disks, (r.sector - before) * SECTOR_SIZE, r)
    decreases |disks|, 0
  {
    CapacityInBytes(disks);
    var boundary := before + Capacity(disks[0]);
    var carry := r.Rest(boundary - r.sector);
    WalkCrossing(disks, before, r, boundary);
    WalkRefinesFlat(disks[1..], boundary, carry);
    DispatchAcross(disks, before, r, boundary - r.sector, Walk(AtBoundary, disks[1..], boundary, carry));
  }

  lemma WalkWithin(disks: seq<seq<Byte>>, before: nat, r: Request)
    requires WholeSectors(disks) && r.Aligned() && disks != []
    requires before <= r.sector < before + Capacity(disks[0]) && r.EndSector() <= before + Capacity(disks[0])
    requires (r.sector - before) * SECTOR_SIZE + r.Size() <= |Concat(disks)|
    ensures LikeFlat(Walk(AtBoundary, disks, before, r), disks, (r.sector - before) * SECTOR_SIZE, r)
  {
    CapacityInBytes(disks);
    var at := (r.sector - before) * SECTOR_SIZE;
    ServeLeft(disks[0], Concat(disks[1..]), at, r);
    ConsDisk(Serve(disks[0], at, r).disk, disks[1..], disks);
  }

  // ----- the pieces partition the request -----

  function Capacities(disks: seq<seq<Byte>>): (caps: seq<nat>)
    ensures |caps| == |disks|
  {
    seq(|disks|, i requires 0 <= i < |disks| => Capacity(disks[i]))
  }

  /** One request handed to a child, in that child's own sectors. */
  datatype Piece = Piece(child: nat, sector: nat, count: nat)

  /** Where the sectors [sector, sector + count) go when cut at every child boundary. */
  function Route(caps: seq<nat>, child: nat, before: nat, sector: nat, count: nat): seq<Piece>
    requires before <= sector
    decreases |caps|
  {
    if caps == [] then []
    else
      var boundary := before + caps[0];
      if sector >= boundary then Route(caps[1..], child + 1, boundary, sector, count)
      else if sector + count > boundary then
        [Piece(child, sector - before, boundary - sector)]
        + Route(caps[1..], child + 1, boundary, boundary, sector + count - boundary)
      else [Piece(child, sector - before, count)]
  }

  /** The pieces are non-empty, each inside its child, on ever later children from `child` on, and end to end they
      tile the sectors [from, to) of the volume. */
  ghost predicate Tiles(pieces: seq<Piece>, caps: seq<nat>, child: nat, from: nat, to: nat) {
    if pieces == [] then from == to
    else
      var p := pieces[0];
      && child <= p.child < |caps|
      && 0 < p.count && p.sector + p.count <= caps[p.child]
      && Sum(caps[..p.child]) + p.sector == from
      && Tiles(pieces[1..], caps, p.child + 1, from + p.count, to)
  }

  lemma SumUpTo(caps: seq<nat>, i: nat)
    requires i < |caps|
    ensures Sum(caps[..i + 1]) == Sum(caps[..i]) + caps[i]
  {
    assert caps[..i + 1] == caps[..i] + [caps[i]];
    SumAppend(caps[..i], caps[i]);
  }

  lemma TilesCons(p: Piece, tail: seq<Piece>, caps: seq<nat>, from: nat, to: nat)
    requires p.child < |caps| && 0 < p.count && p.sector + p.count <= caps[p.child]
    requires Sum(caps[..p.child]) + p.sector == from && Tiles(tail, caps, p.child + 1, from + p.count, to)
    ensures Tiles([p] + tail, caps, p.child, from, to)
  {
    assert ([p] + tail)[1..] == tail;
  }

  lemma RouteCrossing(rest: seq<nat>, child: nat, before: nat, sector: nat, count: nat)
    requires rest != [] && before <= sector < before + rest[0] < sector + count
    ensures var boundary := before + rest[0];
            Route(rest, child, before, sector, count)
            == [Piece(child, sector - before, boundary - sector)]
               + Route(rest[1..], child + 1, boundary, boundary, sector + count - boundary)
  {
  }

  /** From child number `child` on, which starts at sector `before`, the route tiles what is asked for. */
  lemma {:induction false} RouteTiles(caps: seq<nat>, child: nat, before: nat, sector: nat, count: nat)
    requires 0 < count && child <= |caps|
    requires before == Sum(caps[..child]) <= sector && sector + count <= Sum(caps)
    ensures Tiles(Route(caps[child..], child, before, sector, count), caps, child, sector, sector + count)
    decreases |caps| - child, 1
  {
    assert caps[..|caps|] == caps;
    if child < |caps| {
      SumUpTo(caps, child);
      assert caps[child..][0] == caps[child] && caps[child..][1..] == caps[child + 1..];
      if sector >= before + caps[child] {
        RouteTiles(caps, child + 1, before + caps[child], sector, count);
      } else if sector + count > before + caps[child] {
        CrossingTiles(caps, child, before, sector, count);
      } else {
        TilesCons(Piece(child, sector - before, count), [], caps, sector, sector + count);
      }
    }
  }

  lemma {:induction false} CrossingTiles(caps: seq<nat>, child: nat, before: nat, sector: nat, count: nat)
    requires child < |caps| && sector + count <= Sum(caps)
    requires before == Sum(caps[..child]) <= sector < before + caps[child] < sector + count
    ensures Tiles(Route(caps[child..], child, before, sector, count), caps, child, sector, sector + count)
    decreases |caps| - child, 0
  {
    SumUpTo(caps, child);
    var rest, boundary := caps[child..], before + caps[child];
    assert rest[0] == caps[child] && rest[1..] == caps[child + 1..];
    var n := sector + count - boundary;
    RouteTiles(caps, child + 1, boundary, boundary, n);
    RouteCrossing(rest, child, before, sector, count);
    TilesCons(Piece(child, sector - before, boundary - sector),
              Route(caps[child + 1..], child + 1, boundary, boundary, n), caps, sector, sector + count);
  }

  /** Every admitted request without wrap-around is dispatched as a partition of itself. */
  lemma PiecesPartitionRequest(disks: seq<seq<Byte>>, r: Request)
    requires Addressable(disks) && Representable(r) && 0 < r.count
    requires Admits(TotalSize(disks), r) && NoWrap(r)
    ensures Tiles(Route(Capacities(disks), 0, 0, r.sector, r.count), Capacities(disks), 0, r.sector, r.EndSector())
  {
    AdmittedInRangeIff(disks, r);
    ConcatWholeSectors(disks);
    var caps := Capacities(disks);
    assert caps[0..] == caps && caps[..0] == [];
    RouteTiles(caps, 0, 0, r.sector, r.count);
  }

  /** Serves the front of the request at the first piece, the next part at the second, and so on. */
  function ServePieces(disks: seq<seq<Byte>>, pieces: seq<Piece>, r: Request): Outcome
    requires r.Aligned()
    decreases |pieces|
  {
    if pieces == [] then if r.count == 0 then Served(disks, []) else Lost
    else
      var p := pieces[0];
      if p.child >= |disks| || p.count > r.count || (p.sector + p.count) * SECTOR_SIZE > |disks[p.child]| then Lost
      else
        var e := Serve(disks[p.child], p.sector * SECTOR_SIZE, r.Front(p.count));
        var o := ServePieces(disks[p.child := e.disk], pieces[1..], r.Rest(p.count));
        if o.Lost? then Lost else Served(o.disks, e.bytes + o.bytes)
  }

  lemma ServeFirst(disks: seq<seq<Byte>>, p: Piece, tail: seq<Piece>, r: Request)
    requires r.Aligned() && p.child < |disks| && p.count <= r.count
    requires (p.sector + p.count) * SECTOR_SIZE <= |disks[p.child]|
    ensures var e := Serve(disks[p.child], p.sector * SECTOR_SIZE, r.Front(p.count));
            var o := ServePieces(disks[p.child := e.disk], tail, r.Rest(p.count));
            ServePieces(disks, [p] + tail, r) == if o.Lost? then Lost else Served(o.disks, e.bytes + o.bytes)
  {
    assert ([p] + tail)[1..] == tail;
  }

  /** `whole` is what is left of the volume when the children from number `i` on end up as in `o`. */
  predicate Behind(whole: Outcome, done: seq<seq<Byte>>, o: Outcome) {
    whole == if o.Lost? then Lost else Served(done + o.disks, o.bytes)
  }

  /** The walk serves the pieces of the route, each once and in order, and nothing else: on every non-empty request, in
      range or not. */
  lemma {:induction false} WalkServesRoute(disks: seq<seq<Byte>>, i: nat, before: nat, r: Request)
    requires WholeSectors(disks) && r.Aligned() && 0 < r.count && i <= |disks| && before <= r.sector
    ensures Behind(ServePieces(disks, Route(Capacities(disks[i..]), i, before, r.sector, r.count), r),
                   disks[..i], Walk(AtBoundary, disks[i..], before, r))
    decreases |disks| - i, 1
  {
    if i < |disks| {
      if r.sector >= before + Capacity(disks[i]) {
        PastServesRoute(disks, i, before, r);
      } else if r.EndSector() > before + Capacity(disks[i]) {
        CutServesRoute(disks, i, before, r);
      } else {
        LastServesRoute(disks, i, before, r);
      }
    }
  }

  /** The children from number `i` on are child `i` and those after it. */
  lemma FromChild(disks: seq<seq<Byte>>, i: nat)
    requires i < |disks|
    ensures disks[i..] != [] && disks[i..][0] == disks[i] && disks[i..][1..] == disks[i + 1..]
    ensures disks[..i + 1] == disks[..i] + [disks[i]]
    ensures var caps := Capacities(disks[i..]);
            caps != [] && caps[0] == Capacity(disks[i]) && caps[1..] == Capacities(disks[i + 1..])
    ensures WholeSectors(disks) ==> WholeSectors(disks[i..])
  {
    assert Capacities(disks[i..])[1..] == Capacities(disks[i..][1..]);
  }

  lemma Rewritten(disks: seq<seq<Byte>>, i: nat, d: seq<Byte>)
    requires WholeSectors(disks) && i < |disks| && |d| == |disks[i]|
    ensures WholeSectors(disks[i := d])
    ensures disks[i := d][i + 1..] == disks[i + 1..] && disks[i := d][..i + 1] == disks[..i] + [d]
  {
  }

  lemma BehindPast(disk: seq<Byte>, done: seq<seq<Byte>>, whole: Outcome, o: Outcome)
    requires Behind(whole, done + [disk], o)
    ensures Behind(whole, done, if o.Lost? then Lost else Served([disk] + o.disks, o.bytes))
  {
    if o.Served? {
      assert done + ([disk] + o.disks) == done + [disk] + o.disks;
    }
  }

  lemma RoutePastOnce(caps: seq<nat>, i: nat, before: nat, r: Request)
    requires caps != [] && before + caps[0] <= r.sector
    ensures Route(caps, i, before, r.sector, r.count) == Route(caps[1..], i + 1, before + caps[0], r.sector, r.count)
  {
  }

  lemma WalkPastOnce(disks: seq<seq<Byte>>, before: nat, r: Request)
    requires r.Aligned() && disks != [] && before + Capacity(disks[0]) <= r.sector
    ensures var o := Walk(AtBoundary, disks[1..], before + Capacity(disks[0]), r);
            Walk(AtBoundary, disks, before, r) == if o.Lost? then Lost else Served([disks[0]] + o.disks, o.bytes)
  {
  }

  lemma {:induction false} PastServesRoute(disks: seq<seq<Byte>>, i: nat, before: nat, r: Request)
    requires WholeSectors(disks) && r.Aligned() && 0 < r.count && i < |disks|
    requires before + Capacity(disks[i]) <= r.sector
    ensures Behind(ServePieces(disks, Route(Capacities(disks[i..]), i, before, r.sector, r.count), r),
                   disks[..i], Walk(AtBoundary, disks[i..], before, r))
    decreases |disks| - i, 0
  {
    hide ServePieces, Capacities, WholeSectors, Capacity, Behind, Walk, Route, Request.Aligned;
    FromChild(disks, i);
    var next := before + Capacity(disks[i]);
    RoutePastOnce(Capacities(disks[i..]), i, before, r);
    WalkPastOnce(disks[i..], before, r);
    WalkServesRoute(disks, i + 1, next, r);
    BehindPast(disks[i], disks[..i],
               ServePieces(disks, Route(Capacities(disks[i + 1..]), i + 1, next, r.sector, r.count), r),
               Walk(AtBoundary, disks[i + 1..], next, r));
  }

  /** A served piece in front of what the rest does. */
  function InFront(e: Effect, o: Outcome): Outcome {
    if o.Lost? then Lost else Served([e.disk] + o.disks, e.bytes + o.bytes)
  }

  lemma InFrontBehind(e: Effect, done: seq<seq<Byte>>, whole: Outcome, o: Outcome)
    requires Behind(whole, done + [e.disk], o)
    ensures Behind(if whole.Lost? then Lost else Served(whole.disks, e.bytes + whole.bytes), done, InFront(e, o))
  {
    if o.Served? {
      assert done + ([e.disk] + o.disks) == done + [e.disk] + o.disks;
    }
  }

  /** One step of the walk at a boundary. */
  lemma WalkCutOnce(disks: seq<seq<Byte>>, before: nat, r: Request, n: nat)
    requires WholeSectors(disks) && r.Aligned() && disks != [] && before <= r.sector
    requires r.sector + n == before + Capacity(disks[0]) && 0 < n < r.count
    ensures (r.sector - before + n) * SECTOR_SIZE == |disks[0]|
    ensures Walk(AtBoundary, disks, before, r)
            == InFront(Serve(disks[0], (r.sector - before) * SECTOR_SIZE, r.Front(n)),
                       Walk(AtBoundary, disks[1..], r.sector + n, r.Rest(n)))
  {
    CapacityInBytes(disks);
    WalkCrossing(disks, before, r, r.sector + n);
    hide Walk, WholeSectors, Concat, Serve, Capacity;
    assert r.sector + n - r.sector == n;
    assert (r.sector - before) * SECTOR_SIZE + r.Front(n).Size() == |disks[0]|;
  }

  /** One step of the route at a boundary. */
  lemma RouteCutOnce(disks: seq<seq<Byte>>, i: nat, before: nat, r: Request, n: nat)
    requires i < |disks| && before <= r.sector && r.sector + n == before + Capacity(disks[i]) && 0 < n < r.count
    ensures Route(Capacities(disks[i..]), i, before, r.sector, r.count)
            == [Piece(i, r.sector - before, n)]
               + Route(Capacities(disks[i + 1..]), i + 1, r.sector + n, r.sector + n, r.count - n)
  {
    FromChild(disks, i);
    hide Capacities;
    RouteCrossing(Capacities(disks[i..]), i, before, r.sector, r.count);
  }

  lemma {:induction false} CutServesRoute(disks: seq<seq<Byte>>, i: nat, before: nat, r: Request)
    requires WholeSectors(disks) && r.Aligned() && i < |disks|
    requires before <= r.sector < before + Capacity(disks[i]) < r.EndSector()
    ensures Behind(ServePieces(disks, Route(Capacities(disks[i..]), i, before, r.sector, r.count), r),
                   disks[..i], Walk(AtBoundary, disks[i..], before, r))
    decreases |disks| - i, 0
  {
    var n := before + Capacity(disks[i]) - r.sector;
    var p := Piece(i, r.sector - before, n);
    FromChild(disks, i);
    RouteCutOnce(disks, i, before, r, n);
    hide Capacities;
    WalkCutOnce(disks[i..], before, r, n);
    hide Walk, ServePieces, Route, Capacities, Capacity, Serve, InFront, Behind;
    var e := Serve(disks[i], p.sector * SECTOR_SIZE, r.Front(n));
    ServeKeepsSize(disks[i], p.sector * SECTOR_SIZE, r.Front(n));
    var now := disks[i := e.disk];
    Rewritten(disks, i, e.disk);
    hide WholeSectors;
    WalkServesRoute(now, i + 1, r.sector + n, r.Rest(n));
    var tail := Route(Capacities(disks[i + 1..]), i + 1, r.sector + n, r.sector + n, r.count - n);
    ServeFirst(disks, p, tail, r);
    InFrontBehind(e, disks[..i], ServePieces(now, tail, r.Rest(n)),
                  Walk(AtBoundary, disks[i + 1..], r.sector + n, r.Rest(n)));
  }

  lemma ServeKeepsSize(disk: seq<Byte>, at: nat, r: Request)
    requires r.Aligned() && at + r.Size() <= |disk|
    ensures |Serve(disk, at, r).disk| == |disk|
  {
  }

  lemma LastServesRoute(disks: seq<seq<Byte>>, i: nat, before: nat, r: Request)
    requires WholeSectors(disks) && r.Aligned() && i < |disks|
    requires before <= r.sector < r.EndSector() <= before + Capacity(disks[i])
    ensures Behind(ServePieces(disks, Route(Capacities(disks[i..]), i, before, r.sector, r.count), r),
                   disks[..i], Walk(AtBoundary, disks[i..], before, r))
  {
    var rest := disks[i..];
    FromChild(disks, i);
    CapacityInBytes(rest);
    hide Capacities;
    assert r.Front(r.count) == r;
    var e := Serve(disks[i], (r.sector - before) * SECTOR_SIZE, r);
    assert disks[..i] + ([e.disk] + disks[i + 1..]) == disks[i := e.disk];
    var p := Piece(i, r.sector - before, r.count);
    assert Route(Capacities(rest), i, before, r.sector, r.count) == [p] == [p] + [];
    ServeFirst(disks, p, [], r);
  }

  /** The whole volume: the walk is the fold of serving the route's pieces. */
  lemma VolumeServesRoute(disks: seq<seq<Byte>>, r: Request)
    requires WholeSectors(disks) && r.Aligned() && 0 < r.count
    ensures Walk(AtBoundary, disks, 0, r) == ServePieces(disks, Route(Capacities(disks), 0, 0, r.sector, r.count), r)
  {
    WalkServesRoute(disks, 0, 0, r);
    assert disks[0..] == disks && disks[..0] == [];
    var o := Walk(AtBoundary, disks, 0, r);
    assert o.Served? ==> [] + o.disks == o.disks;
  }

  // ----- the split call as written -----

  /** The end, in the volume's numbering, of the child that holds `sector`. */
  function HolderEnd(disks: seq<seq<Byte>>, before: nat, sector: nat): nat {
    if disks == [] then before
    else if sector < before + Capacity(disks[0]) then before + Capacity(disks[0])
    else HolderEnd(disks[1..], before + Capacity(disks[0]), sector)
  }

  /** With the split length taken from line 60, a request is served exactly when it stays within the child that holds
      its first sector, and then as intended; every request that crosses a boundary is lost. */
  lemma {:induction false} AsWrittenServesIffNotCrossing(disks: seq<seq<Byte>>, before: nat, r: Request)
    requires WholeSectors(disks) && r.Aligned() && before <= r.sector && 0 < r.count
    requires (r.sector - before) * SECTOR_SIZE + r.Size() <= |Concat(disks)|
    ensures var o := Walk(AsWritten, disks, before, r);
            o.Served? <==> r.EndSector() <= HolderEnd(disks, before, r.sector)
    ensures r.EndSector() <= HolderEnd(disks, before, r.sector) ==>
              Walk(AsWritten, disks, before, r) == Walk(AtBoundary, disks, before, r)
    decreases |disks|
  {
    if disks == [] {
    } else {
      CapacityInBytes(disks);
      var boundary := before + Capacity(disks[0]);
      if r.sector >= boundary {
        AsWrittenServesIffNotCrossing(disks[1..], boundary, r);
      } else if r.EndSector() > boundary && boundary < r.count {
      }
    }
  }

  /** Two one-sector disks and a two-sector read at sector 0: inside the volume, yet lost. */
  lemma AsWrittenLosesARead(a: seq<Byte>, b: seq<Byte>)
    requires |a| == |b| == SECTOR_SIZE
    ensures var r := Request(false, 0, 2, []);
            InRange([a, b], r) && Walk(AsWritten, [a, b], 0, r).Lost?
  {
    var disks, r := [a, b], Request(false, 0, 2, []);
    assert disks[1..] == [b] && [b][1..] == [];
    assert Concat([b]) == b + Concat([]) == b;
    assert Concat(disks) == a + b;
    assert HolderEnd(disks, 0, 0) == 1;
    AsWrittenServesIffNotCrossing(disks, 0, r);
  }

  // ----- 32-bit capacity and 64-bit admission -----

  /** root_device.total_size once device_init has added up the children in an unsigned int. */
  function TotalSize(disks: seq<seq<Byte>>): (t: nat)
    ensures t < U32
  {
    |Concat(disks)| % U32
  }

  /** The bounds check at line 45: sector_t arithmetic is 64-bit, the limit is the 32-bit total. */
  predicate Admits(total: nat, r: Request) {
    ((r.sector * SECTOR_SIZE) % U64 + r.Size()) % U64 <= total
  }

  predicate InRange(disks: seq<seq<Byte>>, r: Request) {
    r.sector * SECTOR_SIZE + r.Size() <= |Concat(disks)|
  }

  /** The byte after the request still has a 64-bit number. */
  predicate NoWrap(r: Request) {
    r.sector * SECTOR_SIZE + r.Size() < U64
  }

  /** What the types of bi_sector and bi_size allow. */
  predicate Representable(r: Request) {
    r.Aligned() && r.sector < U64 && r.Size() < U32
  }

  /** Block device sizes fit a signed 64-bit byte count. */
  predicate Addressable(disks: seq<seq<Byte>>) {
    WholeSectors(disks) && |Concat(disks)| < 0x8000_0000_0000_0000
  }

  /** An admitted request lies inside the real concatenation, whether or not the total wrapped, exactly when its own
      end does not wrap 64 bits. */
  lemma AdmittedInRangeIff(disks: seq<seq<Byte>>, r: Request)
    requires Addressable(disks) && Representable(r) && Admits(TotalSize(disks), r)
    ensures InRange(disks, r) <==> NoWrap(r)
    ensures !InRange(disks, r) ==> r.sector * SECTOR_SIZE > |Concat(disks)|
  {
    if NoWrap(r) {
      assert (r.sector * SECTOR_SIZE) % U64 == r.sector * SECTOR_SIZE;
      assert (r.sector * SECTOR_SIZE + r.Size()) % U64 == r.sector * SECTOR_SIZE + r.Size();
    }
  }

  /** Sector 2^55 wraps to byte 0, so the check lets it through although no disk of this size has such a sector. */
  lemma WrappedSectorIsAdmitted(disks: seq<seq<Byte>>)
    requires Addressable(disks) && TotalSize(disks) >= SECTOR_SIZE
    ensures var r := Request(false, 0x80_0000_0000_0000, 1, []);
            Representable(r) && Admits(TotalSize(disks), r) && !InRange(disks, r)
  {
  }

  lemma AdmissionExact(disks: seq<seq<Byte>>, r: Request)
    requires |Concat(disks)| < U32 && NoWrap(r)
    ensures Admits(TotalSize(disks), r) <==> InRange(disks, r)
  {
    assert (r.sector * SECTOR_SIZE) % U64 == r.sector * SECTOR_SIZE;
    assert (r.sector * SECTOR_SIZE + r.Size()) % U64 == r.sector * SECTOR_SIZE + r.Size();
  }

  /** Once the total has wrapped, the volume's own last sector is refused. */
  lemma LastSectorRefused(disks: seq<seq<Byte>>) returns (last: Request)
    requires Addressable(disks) && U32 <= |Concat(disks)|
    ensures Representable(last) && NoWrap(last) && InRange(disks, last) && !Admits(TotalSize(disks), last)
  {
    ConcatWholeSectors(disks);
    last := Request(false, Sum(Capacities(disks)) - 1, 1, []);
    assert last.sector * SECTOR_SIZE + last.Size() == |Concat(disks)|;
    assert (last.sector * SECTOR_SIZE) % U64 == last.sector * SECTOR_SIZE;
  }

  /** The check is exact for every request without wrap-around if and only if the volume is smaller than 4 GiB. */
  lemma AdmissionExactIff(disks: seq<seq<Byte>>)
    requires Addressable(disks)
    ensures |Concat(disks)| < U32 <==>
            forall r :: Representable(r) && NoWrap(r) ==> (Admits(TotalSize(disks), r) <==> InRange(disks, r))
  {
    if |Concat(disks)| < U32 {
      forall r | Representable(r) && NoWrap(r) ensures Admits(TotalSize(disks), r) <==> InRange(disks, r) {
        AdmissionExact(disks, r);
      }
    } else {
      var last := LastSectorRefused(disks);
    }
  }

  lemma {:induction false} ConcatWholeSectors(disks: seq<seq<Byte>>)
    requires WholeSectors(disks)
    ensures |Concat(disks)| == Sum(Capacities(disks)) * SECTOR_SIZE
  {
    if disks == [] {
    } else {
      CapacityInBytes(disks);
      assert Capacities(disks)[1..] == Capacities(disks[1..]);
      ConcatWholeSectors(disks[1..]);
    }
  }

  /** The published capacity is the children's total number of sectors modulo 2^23. */
  lemma PublishedCapacity(disks: seq<seq<Byte>>)
    requires WholeSectors(disks)
    ensures TotalSize(disks) / SECTOR_SIZE == Sum(Capacities(disks)) % 0x80_0000
    ensures TotalSize(disks) / SECTOR_SIZE == Sum(Capacities(disks)) <==> |Concat(disks)| < U32
  {
    ConcatWholeSectors(disks);
    var n := Sum(Capacities(disks));
    var q, m := n / 0x80_0000, n % 0x80_0000;
    assert n * SECTOR_SIZE == q * U32 + m * SECTOR_SIZE;
    assert (n * SECTOR_SIZE) % U32 == m * SECTOR_SIZE;
  }

  // ----- whole requests and whole runs -----

  datatype Reply = Completed(bytes: seq<Byte>) | IoError | NeverCompleted

  /** device_make_request: the bounds check, then the walk. */
  function StepBy(rule: SplitRule, disks: seq<seq<Byte>>, r: Request): (seq<seq<Byte>>, Reply)
    requires r.Aligned()
  {
    if !Admits(TotalSize(disks), r) then (disks, IoError)
    else
      match Walk(rule, disks, 0, r)
      case Served(disks', bytes) => (disks', Completed(bytes))
      case Lost => (disks, NeverCompleted)
  }

  function VolumeStep(disks: seq<seq<Byte>>, r: Request): (seq<seq<Byte>>, Reply)
    requires r.Aligned()
  {
    StepBy(AtBoundary, disks, r)
  }

  /** The same request against one array with the same admission check. */
  function FlatStep(total: nat, flat: seq<Byte>, r: Request): (seq<Byte>, Reply)
    requires r.Aligned()
  {
    if !Admits(total, r) then (flat, IoError)
    else if r.sector * SECTOR_SIZE + r.Size() > |flat| then (flat, NeverCompleted)
    else var e := Serve(flat, r.sector * SECTOR_SIZE, r); (e.disk, Completed(e.bytes))
  }

  lemma {:induction false} WalkBeyondEnd(disks: seq<seq<Byte>>, before: nat, r: Request)
    requires WholeSectors(disks) && r.Aligned() && before * SECTOR_SIZE + |Concat(disks)| <= r.sector * SECTOR_SIZE
    ensures Walk(AtBoundary, disks, before, r).Lost?
    decreases |disks|
  {
    if disks == [] {
    } else {
      CapacityInBytes(disks);
      WalkBeyondEnd(disks[1..], before + Capacity(disks[0]), r);
    }
  }

  lemma {:induction false} SameSizesConcat(a: seq<seq<Byte>>, b: seq<seq<Byte>>)
    requires SameSizes(a, b)
    ensures |Concat(a)| == |Concat(b)|
  {
    if a == [] {
    } else {
      SameSizesConcat(a[1..], b[1..]);
    }
  }

  lemma StepRefinesFlat(disks: seq<seq<Byte>>, r: Request)
    requires Addressable(disks) && Representable(r) && 0 < r.count
    ensures var (disks', reply) := VolumeStep(disks, r);
            SameSizes(disks', disks) && (Concat(disks'), reply) == FlatStep(TotalSize(disks), Concat(disks), r)
  {
    if Admits(TotalSize(disks), r) {
      AdmittedInRangeIff(disks, r);
      if InRange(disks, r) {
        WalkRefinesFlat(disks, 0, r);
      } else {
        WalkBeyondEnd(disks, 0, r);
      }
    }
  }

  function RunVolume(disks: seq<seq<Byte>>, rs: seq<Request>): (seq<seq<Byte>>, seq<Reply>)
    requires forall i :: 0 <= i < |rs| ==> rs[i].Aligned()
    decreases |rs|
  {
    if rs == [] then (disks, [])
    else
      var (disks', reply) := VolumeStep(disks, rs[0]);
      var (disks'', replies) := RunVolume(disks', rs[1..]);
      (disks'', [reply] + replies)
  }

  function RunFlat(total: nat, flat: seq<Byte>, rs: seq<Request>): (seq<Byte>, seq<Reply>)
    requires forall i :: 0 <= i < |rs| ==> rs[i].Aligned()
    decreases |rs|
  {
    if rs == [] then (flat, [])
    else
      var (flat', reply) := FlatStep(total, flat, rs[0]);
      var (flat'', replies) := RunFlat(total, flat', rs[1..]);
      (flat'', [reply] + replies)
  }

  /** One more request at the end of a run. */
  lemma {:induction false} RunFlatAppend(total: nat, flat: seq<Byte>, rs: seq<Request>, r: Request)
    requires r.Aligned() && forall i :: 0 <= i < |rs| ==> rs[i].Aligned()
    ensures var (flat', replies) := RunFlat(total, flat, rs);
            var (flat'', reply) := FlatStep(total, flat', r);
            RunFlat(total, flat, rs + [r]) == (flat'', replies + [reply])
    decreases |rs|
  {
    hide FlatStep;
    if rs == [] {
      var reply := FlatStep(total, flat, r).1;
      assert rs + [r] == [r] && [r][1..] == [] && [] + [reply] == [reply] + [];
    } else {
      assert (rs + [r])[1..] == rs[1..] + [r];
      var (next, first) := FlatStep(total, flat, rs[0]);
      RunFlatAppend(total, next, rs[1..], r);
      var (flat', replies) := RunFlat(total, next, rs[1..]);
      var last := FlatStep(total, flat', r).1;
      assert [first] + (replies + [last]) == [first] + replies + [last];
    }
  }

  /** Over any run of non-empty requests the volume answers like one flat array and leaves the same bytes behind. */
  lemma {:induction false} RunRefinesFlat(disks: seq<seq<Byte>>, rs: seq<Request>)
    requires Addressable(disks)
    requires forall i :: 0 <= i < |rs| ==> rs[i].Aligned() && Representable(rs[i]) && 0 < rs[i].count
    ensures var (disks', replies) := RunVolume(disks, rs);
            SameSizes(disks', disks) &&
            (Concat(disks'), replies) == RunFlat(TotalSize(disks), Concat(disks), rs)
    decreases |rs|
  {
    if rs == [] {
    } else {
      StepRefinesFlat(disks, rs[0]);
      var disks' := VolumeStep(disks, rs[0]).0;
      SameSizesConcat(disks', disks);
      RunRefinesFlat(disks', rs[1..]);
    }
  }

  // ----- runs with the split call as written -----

  function RunBy(rule: SplitRule, disks: seq<seq<Byte>>, rs: seq<Request>): (seq<seq<Byte>>, seq<Reply>)
    requires forall i :: 0 <= i < |rs| ==> rs[i].Aligned()
    decreases |rs|
  {
    if rs == [] then (disks, [])
    else
      var (disks', reply) := StepBy(rule, disks, rs[0]);
      var (disks'', replies) := RunBy(rule, disks', rs[1..]);
      (disks'', [reply] + replies)
  }

  /** The request, if it is admitted and in range, ends within the child that holds its first sector. */
  predicate StaysInside(disks: seq<seq<Byte>>, r: Request) {
    Admits(TotalSize(disks), r) && InRange(disks, r) ==> r.EndSector() <= HolderEnd(disks, 0, r.sector)
  }

  lemma {:induction false} SameHolderEnd(a: seq<seq<Byte>>, b: seq<seq<Byte>>, before: nat, sector: nat)
    requires SameSizes(a, b)
    ensures HolderEnd(a, before, sector) == HolderEnd(b, before, sector)
    decreases |a|
  {
    if a == [] {
    } else {
      SameHolderEnd(a[1..], b[1..], before + Capacity(a[0]), sector);
    }
  }

  lemma SameStaysInside(a: seq<seq<Byte>>, b: seq<seq<Byte>>, r: Request)
    requires SameSizes(a, b)
    ensures StaysInside(a, r) <==> StaysInside(b, r)
  {
    SameSizesConcat(a, b);
    SameHolderEnd(a, b, 0, r.sector);
  }

  /** One request: the as-written volume does what the intended one does if the request stays inside, and otherwise
      never completes what the intended one completes. */
  lemma AsWrittenStep(disks: seq<seq<Byte>>, r: Request)
    requires Addressable(disks) && Representable(r) && 0 < r.count
    ensures StaysInside(disks, r) ==> StepBy(AsWritten, disks, r) == VolumeStep(disks, r)
    ensures !StaysInside(disks, r) ==> StepBy(AsWritten, disks, r).1 != VolumeStep(disks, r).1
  {
    if Admits(TotalSize(disks), r) {
      if InRange(disks, r) {
        AsWrittenServesIffNotCrossing(disks, 0, r);
        WalkRefinesFlat(disks, 0, r);
      } else {
        AdmittedInRangeIff(disks, r);
        WalkBeyondEnd(disks, 0, r);
        AsWrittenBeyondEnd(disks, 0, r);
      }
    }
  }

  lemma {:induction false} AsWrittenBeyondEnd(disks: seq<seq<Byte>>, before: nat, r: Request)
    requires WholeSectors(disks) && r.Aligned() && before * SECTOR_SIZE + |Concat(disks)| <= r.sector * SECTOR_SIZE
    ensures Walk(AsWritten, disks, before, r).Lost?
    decreases |disks|
  {
    if disks == [] {
    } else {
      CapacityInBytes(disks);
      AsWrittenBeyondEnd(disks[1..], before + Capacity(disks[0]), r);
    }
  }

  predicate AllStayInside(disks: seq<seq<Byte>>, rs: seq<Request>) {
    forall i :: 0 <= i < |rs| ==> StaysInside(disks, rs[i])
  }

  lemma FirstStaysInside(disks: seq<seq<Byte>>, next: seq<seq<Byte>>, rs: seq<Request>)
    requires rs != [] && SameSizes(next, disks)
    ensures AllStayInside(disks, rs) <==> StaysInside(disks, rs[0]) && AllStayInside(next, rs[1..])
  {
    hide StaysInside;
    var rest := rs[1..];
    forall i | 0 < i < |rs|
      ensures rs[i] == rest[i - 1] && (StaysInside(next, rest[i - 1]) <==> StaysInside(disks, rs[i]))
    {
      SameStaysInside(next, disks, rs[i]);
    }
    if AllStayInside(disks, rs) {
      forall i | 0 <= i < |rest| ensures StaysInside(next, rest[i]) {
        assert StaysInside(disks, rs[i + 1]);
      }
    }
  }

  lemma FirstReply(a: Reply, b: Reply, x: seq<Reply>, y: seq<Reply>)
    ensures [a] + x == [b] + y <==> a == b && x == y
  {
    if [a] + x == [b] + y {
      assert ([a] + x)[0] == ([b] + y)[0] && ([a] + x)[1..] == ([b] + y)[1..];
    }
  }

  /** With the split call as written, a run of non-empty requests gets the replies of the flat array and ends in its
      bytes if and only if every admitted in-range request stays within the child that holds its first sector. */
  lemma {:induction false} AsWrittenRunIff(disks: seq<seq<Byte>>, rs: seq<Request>)
    requires Addressable(disks)
    requires forall i :: 0 <= i < |rs| ==> rs[i].Aligned() && Representable(rs[i]) && 0 < rs[i].count
    ensures var (disks', replies) := RunBy(AsWritten, disks, rs);
            (Concat(disks'), replies) == RunFlat(TotalSize(disks), Concat(disks), rs) <==> AllStayInside(disks, rs)
    decreases |rs|
  {
    if rs == [] {
    } else {
      var r, rest := rs[0], rs[1..];
      AsWrittenStep(disks, r);
      StepRefinesFlat(disks, r);
      var (next, reply) := VolumeStep(disks, r);
      SameSizesConcat(next, disks);
      FirstStaysInside(disks, next, rs);
      AddressableNext(disks, next);
      hide StepBy, VolumeStep, FlatStep, StaysInside, AllStayInside, Addressable, Representable, TotalSize, Concat;
      var (asWritten, got) := StepBy(AsWritten, disks, r);
      var flat := RunFlat(TotalSize(disks), Concat(next), rest);
      FirstReply(got, reply, RunBy(AsWritten, asWritten, rest).1, flat.1);
      if StaysInside(disks, r) {
        AsWrittenRunIff(next, rest);
      }
    }
  }

  lemma AddressableNext(disks: seq<seq<Byte>>, next: seq<seq<Byte>>)
    requires Addressable(disks) && SameSizes(next, disks)
    ensures Addressable(next) && TotalSize(next) == TotalSize(disks)
  {
    SameSizesConcat(next, disks);
  }

  // ----- a plain array -----

  /** A run against an array that checks nothing. */
  function RunPlain(flat: seq<Byte>, rs: seq<Request>): (seq<Byte>, seq<seq<Byte>>)
    requires forall i :: 0 <= i < |rs| ==> rs[i].Aligned() && rs[i].sector * SECTOR_SIZE + rs[i].Size() <= |flat|
    decreases |rs|
  {
    if rs == [] then (flat, [])
    else
      var e := Serve(flat, rs[0].sector * SECTOR_SIZE, rs[0]);
      var (flat', answers) := RunPlain(e.disk, rs[1..]);
      (flat', [e.bytes] + answers)
  }

  /** Below 4 GiB, a run of in-range requests completes, request by request, with the answers of a plain array. */
  lemma {:induction false} RunIsPlain(disks: seq<seq<Byte>>, rs: seq<Request>)
    requires WholeSectors(disks) && |Concat(disks)| < U32
    requires forall i :: 0 <= i < |rs| ==> rs[i].Aligned() && 0 < rs[i].count
    requires forall i :: 0 <= i < |rs| ==> rs[i].sector * SECTOR_SIZE + rs[i].Size() <= |Concat(disks)|
    ensures var (disks', replies) := RunVolume(disks, rs);
            var (flat', answers) := RunPlain(Concat(disks), rs);
            && SameSizes(disks', disks) && Concat(disks') == flat' && |replies| == |answers| == |rs|
            && forall i :: 0 <= i < |rs| ==> replies[i] == Completed(answers[i])
    decreases |rs|
  {
    if rs == [] {
    } else {
      var r, disks' := rs[0], VolumeStep(disks, rs[0]).0;
      AdmissionExact(disks, r);
      StepRefinesFlat(disks, r);
      SameSizesConcat(disks', disks);
      RunIsPlain(disks', rs[1..]);
    }
  }
}
