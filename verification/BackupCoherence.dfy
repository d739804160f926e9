/** Where the RAM disk and its backup may differ, in every reachable state of the backup machine. */
module BackupCoherence {
  import opened Bytes
  import opened BackupMachine
  import opened BackupProtocol

  // ----- well-formed states -----

  /** The entry's segments address exactly its range of the RAM disk. */
  ghost predicate Good(e: Entry, n: nat) {
    && Length(e.segs) == e.size && e.base + e.size <= n
    && forall k :: 0 <= k < e.size ==> AddrAt(e.segs, k) == e.base + k
  }

  ghost predicate AllGood(es: seq<Entry>, n: nat) {
    forall i :: 0 <= i < |es| ==> Good(es[i], n)
  }

  predicate AllAccepted(ps: seq<Producer>, ram: seq<Byte>) {
    forall p :: 0 <= p < |ps| && !ps[p].Outside? ==>
      Accepted(ps[p].w, ram) && (ps[p].Returning? ==> ps[p].done <= ps[p].Size())
  }

  ghost predicate WellFormed(s: State) {
    && |s.ram| <= |s.bak| && (s.closed ==> s.consumer.Exited?)
    && AllGood(s.queue, |s.ram|) && AllAccepted(s.producers, s.ram)
    && (s.consumer.Taken? || s.consumer.Copying? ==> Good(s.consumer.e, |s.ram|))
    && (s.consumer.Copying? ==> |s.consumer.got| <= s.consumer.e.size)
  }

  lemma CloneIsGood(w: Write, ram: seq<Byte>)
    requires Accepted(w, ram)
    ensures Good(EntryOf(w), |ram|)
  {
    CloneLength(w.base, w.lens);
    forall k | 0 <= k < |w.payload| ensures AddrAt(CloneSegs(w.base, w.lens), k) == w.base + k {
      CloneIsContiguous(w.base, w.lens, k);
    }
  }

  /** A writer moves on with an accepted write, and the RAM disk keeps its size. */
  lemma AcceptedMoves(ps: seq<Producer>, p: nat, x: Producer, ram: seq<Byte>, ram': seq<Byte>)
    requires AllAccepted(ps, ram) && |ram| == |ram'| && p < |ps|
    requires x.Outside? || Accepted(x.w, ram) || (!ps[p].Outside? && x.w == ps[p].w)
    requires x.Returning? ==> x.done <= x.Size()
    ensures AllAccepted(ps[p := x], ram')
  {
  }

  lemma StepKeepsWellFormed(mode: CopyPoint, s: State, ev: Event)
    requires WellFormed(s) && Enabled(s, ev)
    ensures WellFormed(Step(mode, s, ev)) && |Step(mode, s, ev).ram| == |s.ram|
  {
    hide Good, Copied, PutByte, ByteFor, EntryOf, Splice;
    var t := Step(mode, s, ev);
    if ev.Link? {
      assert Accepted(s.producers[ev.p].w, s.ram);
      CloneIsGood(s.producers[ev.p].w, s.ram);
    }
    hide Accepted;
    if ByWriter(ev) {
      AcceptedMoves(s.producers, ev.p, t.producers[ev.p], s.ram, t.ram);
    }
    hide AllAccepted;
    assert |t.ram| == |s.ram| && |t.bak| == |s.bak|;
  }

  // ----- the classes of a byte -----

  predicate Covers(e: Entry, x: nat) {
    e.base <= x < e.base + e.size
  }

  ghost predicate Listed(es: seq<Entry>, x: nat) {
    exists i :: 0 <= i < |es| && Covers(es[i], x)
  }

  /** Byte `x` belongs to the entry the consumer took and has not been copied out of the RAM disk yet. */
  predicate Uncopied(s: State, x: nat) {
    || (s.consumer.Taken? && Covers(s.consumer.e, x))
    || (s.consumer.Copying? && Covers(s.consumer.e, x) && s.consumer.e.base + |s.consumer.got| <= x)
  }

  predicate Carried(s: State, x: nat) {
    s.consumer.Copying? && s.consumer.e.base <= x < s.consumer.e.base + |s.consumer.got|
  }

  /** What the backup holds at `x` once the entry in flight has been stored. */
  function Settles(s: State, x: nat): Byte
    requires x < |s.bak|
  {
    if Carried(s, x) then s.consumer.got[x - s.consumer.e.base] else s.bak[x]
  }

  /** Byte `x` will still be copied, or was thrown away when the queue was cleared. What is linked after that goes to a
      list nobody reads, and covers nothing. */
  ghost predicate Covered(s: State, x: nat) {
    (!s.closed && Listed(s.queue, x)) || Uncopied(s, x) || Listed(s.discarded, x)
  }

  ghost predicate CoherentAt(s: State, x: nat)
    requires x < |s.ram| <= |s.bak|
  {
    Covered(s, x) || Settles(s, x) == s.ram[x]
  }

  ghost predicate Coherent(s: State)
    requires |s.ram| <= |s.bak|
  {
    forall x :: 0 <= x < |s.ram| ==> CoherentAt(s, x)
  }

  /** Spelled out: a byte that differs is queued, taken but not copied, in flight with the RAM disk's value, or was
      thrown away; and a byte in flight that has gone stale is covered by an entry still queued or thrown away. */
  lemma CoherentMeans(s: State, x: nat)
    requires WellFormed(s) && x < |s.ram|
    ensures CoherentAt(s, x) <==>
            && (s.ram[x] != s.bak[x] ==>
                  Covered(s, x) || (Carried(s, x) && s.consumer.got[x - s.consumer.e.base] == s.ram[x]))
            && (Carried(s, x) && s.consumer.got[x - s.consumer.e.base] != s.ram[x] ==>
                  (!s.closed && Listed(s.queue, x)) || Listed(s.discarded, x))
  {
  }

  // ----- what each step does to one byte -----

  /** The step links an entry that covers the byte while the queue is still served. */
  predicate Links(s: State, ev: Event, x: nat)
    requires Enabled(s, ev)
  {
    ev.Link? && !s.closed && Covers(EntryOf(s.producers[ev.p].w), x)
  }

  /** The step writes the byte to the RAM disk without linking an entry for it that anyone will serve. */
  predicate Overwrites(mode: CopyPoint, s: State, ev: Event, x: nat)
    requires Enabled(s, ev)
  {
    || (ev.Put? && s.producers[ev.p].w.base + s.producers[ev.p].done == x)
    || (ev.Link? && s.closed && mode.WithLink? && Covers(EntryOf(s.producers[ev.p].w), x))
  }

  /** The value it writes. */
  function Incoming(mode: CopyPoint, s: State, ev: Event, x: nat): Byte
    requires Enabled(s, ev) && Overwrites(mode, s, ev, x)
  {
    s.producers[ev.p].w.payload[x - s.producers[ev.p].w.base]
  }

  predicate Touches(mode: CopyPoint, s: State, ev: Event, x: nat)
    requires Enabled(s, ev)
  {
    Links(s, ev, x) || Overwrites(mode, s, ev, x)
  }

  /** The byte is written when no entry is left that will carry it, and the backup is not bound to hold its value. */
  ghost predicate Late(mode: CopyPoint, s: State, ev: Event, x: nat)
    requires Enabled(s, ev) && x < |s.bak|
  {
    Overwrites(mode, s, ev, x) && !Covered(s, x) && Incoming(mode, s, ev, x) != Settles(s, x)
  }

  /** What the step makes of byte `x`: a link that covers it makes it coherent, overwriting it does unless it is late,
      and no other step changes its standing. */
  ghost predicate ByteAfter(mode: CopyPoint, s: State, ev: Event, x: nat)
    requires Enabled(s, ev) && x < |s.ram| <= |s.bak|
  {
    var t := Step(mode, s, ev);
    && |t.ram| == |s.ram| && |t.bak| == |s.bak|
    && (CoherentAt(t, x) <==> if Touches(mode, s, ev, x) then !Late(mode, s, ev, x) else CoherentAt(s, x))
  }

  lemma ListedAppend(a: seq<Entry>, b: seq<Entry>, x: nat)
    ensures Listed(a + b, x) <==> Listed(a, x) || Listed(b, x)
  {
    if Listed(a, x) {
      var i :| 0 <= i < |a| && Covers(a[i], x);
      assert Covers((a + b)[i], x);
    }
    if Listed(b, x) {
      var i :| 0 <= i < |b| && Covers(b[i], x);
      assert Covers((a + b)[|a| + i], x);
    }
  }

  lemma ListedOne(e: Entry, x: nat)
    ensures Listed([e], x) <==> Covers(e, x)
  {
    assert [e][0] == e;
  }

  lemma LinkByte(mode: CopyPoint, s: State, p: nat, x: nat)
    requires WellFormed(s) && Enabled(s, Link(p)) && x < |s.ram|
    ensures ByteAfter(mode, s, Link(p), x)
  {
    hide Good, AllGood, CloneSegs, ByteFor, Listed;
    var w := s.producers[p].w;
    ListedAppend(s.queue, [EntryOf(w)], x);
    ListedOne(EntryOf(w), x);
    SpliceAt(s.ram, w.base, w.payload, x);
  }

  lemma TestByte(mode: CopyPoint, s: State, x: nat)
    requires WellFormed(s) && Enabled(s, Test) && x < |s.ram|
    ensures ByteAfter(mode, s, Test, x)
  {
    hide Listed;
    if s.queue != [] {
      assert s.queue == [s.queue[0]] + s.queue[1..];
      ListedAppend([s.queue[0]], s.queue[1..], x);
      ListedOne(s.queue[0], x);
    }
  }

  lemma LoadByte(mode: CopyPoint, s: State, x: nat)
    requires WellFormed(s) && Enabled(s, Load) && x < |s.ram|
    ensures ByteAfter(mode, s, Load, x)
  {
    hide Listed;
    var e, k := s.consumer.e, |s.consumer.got|;
    assert AddrAt(e.segs, k) == e.base + k;
  }

  lemma StoreByte(mode: CopyPoint, s: State, x: nat)
    requires WellFormed(s) && Enabled(s, Store) && x < |s.ram|
    ensures ByteAfter(mode, s, Store, x)
  {
    hide Listed;
    SpliceAt(s.bak, s.consumer.e.base, s.consumer.got, x);
  }

  lemma DiscardByte(mode: CopyPoint, s: State, x: nat)
    requires WellFormed(s) && Enabled(s, Discard) && x < |s.ram|
    ensures ByteAfter(mode, s, Discard, x)
  {
    ListedAppend(s.discarded, s.queue, x);
    hide Listed;
    ListedNone(x);
  }

  lemma ListedNone(x: nat)
    ensures !Listed([], x)
  {
  }

  lemma PutAt(mode: CopyPoint, s: State, p: nat, x: nat)
    requires WellFormed(s) && Enabled(s, Put(p)) && x < |s.ram|
    ensures ByteAfter(mode, s, Put(p), x)
  {
    hide Listed;
    var t := Step(mode, s, Put(p));
    assert Covered(t, x) == Covered(s, x) && Settles(t, x) == Settles(s, x);
  }

  predicate Quiet(ev: Event) {
    !ev.Link? && !ev.Test? && !ev.Load? && !ev.Store? && !ev.Discard? && !ev.Put?
  }

  /** The steps that move no bytes and no entries. */
  predicate QuietMove(s: State, t: State) {
    && t.queue == s.queue && t.discarded == s.discarded && t.bak == s.bak && t.ram == s.ram && t.closed == s.closed
    && (t.consumer == s.consumer || (InFlight(s.consumer) == [] && InFlight(t.consumer) == [])
        || (s.consumer.Taken? && t.consumer == Copying(s.consumer.e, [])))
  }

  lemma QuietWriter(mode: CopyPoint, s: State, ev: Event)
    requires Enabled(s, ev) && Quiet(ev) && ByWriter(ev)
    ensures QuietMove(s, Step(mode, s, ev))
  {
    hide Copied, PutByte, ByteFor, EntryOf, Accepted, Back, Splice;
    var t := Step(mode, s, ev);
    assert t.consumer == s.consumer || (s.consumer.Asleep? && t.consumer == Asleep(true));
  }

  lemma QuietConsumer(mode: CopyPoint, s: State, ev: Event)
    requires Enabled(s, ev) && Quiet(ev) && !ByWriter(ev)
    ensures QuietMove(s, Step(mode, s, ev))
  {
    hide Copied, PutByte, ByteFor, EntryOf, Accepted, Back, Splice;
  }

  lemma QuietByte(mode: CopyPoint, s: State, ev: Event, x: nat)
    requires WellFormed(s) && Enabled(s, ev) && x < |s.ram| && Quiet(ev)
    ensures ByteAfter(mode, s, ev, x)
  {
    if ByWriter(ev) {
      QuietWriter(mode, s, ev);
    } else {
      QuietConsumer(mode, s, ev);
    }
    hide Step, Listed, Good, AllGood, AllAccepted, Accepted;
    var t := Step(mode, s, ev);
    assert Uncopied(t, x) == Uncopied(s, x) && Carried(t, x) == Carried(s, x);
  }

  lemma StepByte(mode: CopyPoint, s: State, ev: Event, x: nat)
    requires WellFormed(s) && Enabled(s, ev) && x < |s.ram|
    ensures ByteAfter(mode, s, ev, x)
  {
    hide ByteAfter, Step;
    match ev
    case Link(p) => LinkByte(mode, s, p, x);
    case Test => TestByte(mode, s, x);
    case Load => LoadByte(mode, s, x);
    case Store => StoreByte(mode, s, x);
    case Discard => DiscardByte(mode, s, x);
    case Put(p) => PutAt(mode, s, p, x);
    case _ => QuietByte(mode, s, ev, x);
  }

  // ----- the guard of a late write -----

  /** Whatever the step overwrites is already there, or some entry will still carry it. */
  ghost predicate Guarded(mode: CopyPoint, s: State, ev: Event)
    requires Enabled(s, ev)
  {
    forall x :: 0 <= x < |s.ram| && Overwrites(mode, s, ev, x) && s.ram[x] != Incoming(mode, s, ev, x) ==> Covered(s, x)
  }

  lemma StepCoherentIffGuarded(mode: CopyPoint, s: State, ev: Event)
    requires WellFormed(s) && Coherent(s) && Enabled(s, ev)
    ensures WellFormed(Step(mode, s, ev))
    ensures Coherent(Step(mode, s, ev)) <==> Guarded(mode, s, ev)
  {
    StepKeepsWellFormed(mode, s, ev);
    var t := Step(mode, s, ev);
    hide Step, WellFormed, Covered, Settles, Overwrites, Incoming, Links;
    forall x | 0 <= x < |s.ram| ensures ByteAfter(mode, s, ev, x) && CoherentAt(s, x) {
      StepByte(mode, s, ev, x);
    }
    if Guarded(mode, s, ev) {
      forall x | 0 <= x < |t.ram| ensures CoherentAt(t, x) {
        assert ByteAfter(mode, s, ev, x) && CoherentAt(s, x);
      }
    } else {
      var x :| 0 <= x < |s.ram| && Overwrites(mode, s, ev, x) && s.ram[x] != Incoming(mode, s, ev, x) && !Covered(s, x);
      assert ByteAfter(mode, s, ev, x) && CoherentAt(s, x);
      assert !CoherentAt(t, x);
    }
  }

  /** Only a copy made after its hook, or one that links to a cleared queue, can break coherence. */
  lemma StepKeepsCoherent(mode: CopyPoint, s: State, ev: Event)
    requires WellFormed(s) && Coherent(s) && Enabled(s, ev)
    requires !ev.Put? && !(ev.Link? && s.closed && mode.WithLink?)
    ensures WellFormed(Step(mode, s, ev)) && Coherent(Step(mode, s, ev))
  {
    StepCoherentIffGuarded(mode, s, ev);
  }

  /** All states along a run are coherent. */
  ghost predicate CoherentThroughout(mode: CopyPoint, s: State, evs: seq<Event>)
    requires |s.ram| <= |s.bak| && ValidRun(mode, s, evs)
    decreases |evs|
  {
    Coherent(s) &&
    (evs == [] ||
     (var t := Step(mode, s, evs[0]); |t.ram| <= |t.bak| && CoherentThroughout(mode, t, evs[1..])))
  }

  /** All steps along a run are guarded. */
  ghost predicate GuardedThroughout(mode: CopyPoint, s: State, evs: seq<Event>)
    requires ValidRun(mode, s, evs)
    decreases |evs|
  {
    evs == [] || (Guarded(mode, s, evs[0]) && GuardedThroughout(mode, Step(mode, s, evs[0]), evs[1..]))
  }

  /** A run stays coherent exactly when no writer changes a byte that no entry still to be served covers. */
  lemma {:induction false} CoherentIffGuarded(mode: CopyPoint, s: State, evs: seq<Event>)
    requires WellFormed(s) && Coherent(s) && ValidRun(mode, s, evs)
    ensures CoherentThroughout(mode, s, evs) <==> GuardedThroughout(mode, s, evs)
    decreases |evs|
  {
    hide WellFormed, Coherent, Guarded, Step;
    if evs == [] {
    } else {
      var t := Step(mode, s, evs[0]);
      StepCoherentIffGuarded(mode, s, evs[0]);
      WellFormedSizes(t);
      if Coherent(t) {
        CoherentIffGuarded(mode, t, evs[1..]);
      } else {
        assert !CoherentThroughout(mode, t, evs[1..]);
      }
    }
  }

  lemma WellFormedSizes(s: State)
    requires WellFormed(s)
    ensures |s.ram| <= |s.bak|
  {
  }

  lemma {:induction false} EndCoherent(mode: CopyPoint, s: State, evs: seq<Event>)
    requires |s.ram| <= |s.bak| && ValidRun(mode, s, evs) && CoherentThroughout(mode, s, evs)
    ensures var t := Run(mode, s, evs); |t.ram| <= |t.bak| && Coherent(t)
    decreases |evs|
  {
    hide Step, Coherent;
    if evs == [] {
    } else {
      EndCoherent(mode, Step(mode, s, evs[0]), evs[1..]);
    }
  }

  // ----- every reachable state -----

  ghost predicate Invariant(s: State) {
    WellFormed(s) && Mutex(s) && WakeUp(s) && InOrder(s) && ClosedLast(s)
  }

  lemma InitHolds(s: State)
    requires Init(s)
    ensures Invariant(s) && Coherent(s)
  {
    forall x | 0 <= x < |s.ram| ensures CoherentAt(s, x) {
      assert s.bak[..|s.ram|][x] == s.ram[x];
    }
  }

  lemma StepKeepsInvariant(mode: CopyPoint, s: State, ev: Event)
    requires Invariant(s) && Enabled(s, ev)
    ensures Invariant(Step(mode, s, ev)) && |Step(mode, s, ev).ram| == |s.ram|
  {
    hide Step, WellFormed, Mutex, WakeUp, InOrder, ClosedLast;
    StepKeepsWellFormed(mode, s, ev);
    StepKeepsMutex(mode, s, ev);
    StepKeepsWakeUp(mode, s, ev);
    StepKeepsInOrder(mode, s, ev);
    StepKeepsClosedLast(mode, s, ev);
  }

  lemma {:induction false} RunKeepsInvariant(mode: CopyPoint, s: State, evs: seq<Event>)
    requires Invariant(s) && ValidRun(mode, s, evs)
    ensures Invariant(Run(mode, s, evs)) && |Run(mode, s, evs).ram| == |s.ram|
    decreases |evs|
  {
    hide Step, Invariant;
    if evs == [] {
    } else {
      StepKeepsInvariant(mode, s, evs[0]);
      RunKeepsInvariant(mode, Step(mode, s, evs[0]), evs[1..]);
    }
  }

  /** Mutual exclusion, wake-ups and the order of entries hold in every reachable state, wherever the copy is made. */
  lemma EveryReachableState(mode: CopyPoint, s: State, evs: seq<Event>)
    requires Init(s) && ValidRun(mode, s, evs)
    ensures Invariant(Run(mode, s, evs))
  {
    InitHolds(s);
    RunKeepsInvariant(mode, s, evs);
  }

  /** No wake-up is lost: in every reachable state with an entry queued, a consumer about to wait finds the bit set or
      a writer that will set it, a sleeping one has been woken or some writer will still wake it, and as long as the
      thread lives someone can move without a timeout and without a new write. */
  lemma NoLostWakeUp(mode: CopyPoint, s: State, evs: seq<Event>)
    requires Init(s) && ValidRun(mode, s, evs)
    ensures var t := Run(mode, s, evs); t.queue != [] ==>
              && (t.consumer.Waiting? ==> t.bit || SomeAnnouncing(t.producers))
              && (t.consumer.Asleep? ==> t.consumer.woken || SomeAnnouncing(t.producers) || SomeWaking(t.producers))
              && (!t.consumer.Exited? ==> exists ev :: Finishing(ev) && Enabled(t, ev))
  {
    EveryReachableState(mode, s, evs);
    var t := Run(mode, s, evs);
    if t.queue != [] && !t.consumer.Exited? {
      var ev := PendingWorkCanMove(t);
    }
  }

  /** No entry is lost, duplicated or reordered, in every reachable state. */
  lemma NothingLostOrReordered(mode: CopyPoint, s: State, evs: seq<Event>)
    requires Init(s) && ValidRun(mode, s, evs)
    ensures var t := Run(mode, s, evs);
            t.enqueued == t.stored + InFlight(t.consumer) + t.discarded + t.queue
  {
    EveryReachableState(mode, s, evs);
  }
}
