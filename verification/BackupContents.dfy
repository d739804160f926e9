/** What the disks hold after a run of the backup, read off the run's events alone. */
module BackupContents {
  import opened Bytes
  import opened BackupMachine
  import opened BackupProtocol
  import opened BackupCoherence
  import opened BackupOutcome

  // ----- what the events say -----

  datatype Option<T> = None | Some(value: T)

  /** The request that writer `p` last brought into the hook. */
  function Brought(evs: seq<Event>, p: nat): Option<Write> {
    if evs == [] then None
    else
      var last := evs[|evs| - 1];
      if last.Down? && last.p == p then Some(last.w) else Brought(evs[..|evs| - 1], p)
  }

  /** How often `ev` happened since writer `p` brought its request. */
  function Since(evs: seq<Event>, p: nat, ev: Event): nat {
    if evs == [] then 0
    else
      var last := evs[|evs| - 1];
      if last.Down? && last.p == p then 0
      else Since(evs[..|evs| - 1], p, ev) + if last == ev then 1 else 0
  }

  /** Some writer set the bit and the consumer has not cleared it since. */
  predicate BitSet(evs: seq<Event>) {
    evs != [] && (evs[|evs| - 1].SetBit? || (!evs[|evs| - 1].Clear? && BitSet(evs[..|evs| - 1])))
  }

  /** The bit was clear when writer `p` last set it. */
  predicate FoundClear(evs: seq<Event>, p: nat) {
    evs != [] &&
    var before := evs[..|evs| - 1];
    if evs[|evs| - 1] == SetBit(p) then !BitSet(before) else FoundClear(before, p)
  }

  /** The byte the event brings to place `x` of the RAM disk: hook and copy in one step bring the whole payload with
      the link, the copy after the hook brings it byte by byte. */
  function Arriving(mode: CopyPoint, before: seq<Event>, ev: Event, x: nat): Option<Byte> {
    if mode.WithLink? && ev.Link? then
      match Brought(before, ev.p)
      case None => None
      case Some(w) => if w.base <= x < w.base + |w.payload| then Some(w.payload[x - w.base]) else None
    else if mode.AfterHook? && ev.Put? then
      match Brought(before, ev.p)
      case None => None
      case Some(w) =>
        var k := Since(before, ev.p, Put(ev.p));
        if w.base + k == x && k < |w.payload| then Some(w.payload[k]) else None
    else None
  }

  /** The byte the events last brought to place `x`, or the initial one. */
  function LastWritten(mode: CopyPoint, evs: seq<Event>, x: nat, initial: Byte): Byte {
    if evs == [] then initial
    else
      var before := evs[..|evs| - 1];
      match Arriving(mode, before, evs[|evs| - 1], x)
      case Some(b) => b
      case None => LastWritten(mode, before, x, initial)
  }

  /** The requests whose entries were linked, in order. */
  function LinkedWrites(evs: seq<Event>): seq<Write> {
    if evs == [] then []
    else
      var before, last := evs[..|evs| - 1], evs[|evs| - 1];
      LinkedWrites(before) +
      if last.Link? && Brought(before, last.p).Some? then [Brought(before, last.p).value] else []
  }

  // ----- the machine agrees -----

  /** A run is a run and one more step. */
  lemma {:induction false} RunLast(mode: CopyPoint, s: State, evs: seq<Event>)
    requires evs != [] && ValidRun(mode, s, evs)
    ensures var before, last := evs[..|evs| - 1], evs[|evs| - 1];
            && ValidRun(mode, s, before) && Enabled(Run(mode, s, before), last)
            && Run(mode, s, evs) == Step(mode, Run(mode, s, before), last)
    decreases |evs|
  {
    hide Step, Enabled;
    if |evs| == 1 {
      assert evs[..0] == [] && evs[1..] == [];
    } else {
      var rest := evs[1..];
      RunLast(mode, Step(mode, s, evs[0]), rest);
      assert evs[..|evs| - 1][1..] == rest[..|rest| - 1] && rest[|rest| - 1] == evs[|evs| - 1];
    }
  }

  /** A writer past down() works on the request it last brought, and since then has made the steps of the hook up to
      its place in it, waking the consumer if and only if it found the bit clear, and then its puts. */
  predicate Follows(mode: CopyPoint, x: Producer, evs: seq<Event>, p: nat) {
    !x.Outside? ==>
      && Brought(evs, p) == Some(x.w)
      && Since(evs, p, Link(p)) == (if x.Holding? then 0 else 1)
      && Since(evs, p, Up(p)) == (if x.Holding? || x.Linked? then 0 else 1)
      && Since(evs, p, SetBit(p)) == (if x.Waking? || x.Returning? then 1 else 0)
      && Since(evs, p, Wake(p)) == (if x.Returning? && FoundClear(evs, p) then 1 else 0)
      && (x.Waking? ==> FoundClear(evs, p))
      && Since(evs, p, Put(p)) == (if x.Returning? && mode.AfterHook? then x.done else 0)
      && (x.Returning? ==> x.done <= x.Size() && (mode.WithLink? ==> x.done == x.Size()))
  }

  lemma WriterFollows(mode: CopyPoint, s: State, ev: Event, before: seq<Event>, evs: seq<Event>, p: nat)
    requires Enabled(s, ev) && p < |s.producers| && Follows(mode, s.producers[p], before, p) && s.bit == BitSet(before)
    requires evs == before + [ev]
    ensures p < |Step(mode, s, ev).producers| && Follows(mode, Step(mode, s, ev).producers[p], evs, p)
  {
    assert evs[..|evs| - 1] == before;
    if ByWriter(ev) && ev.p == p {
      MoverFollows(mode, s, ev, before, evs);
    } else {
      OtherStays(mode, s, ev, p);
      hide Step, BitSet;
    }
  }

  lemma MoverFollows(mode: CopyPoint, s: State, ev: Event, before: seq<Event>, evs: seq<Event>)
    requires Enabled(s, ev) && ByWriter(ev) && Follows(mode, s.producers[ev.p], before, ev.p) && s.bit == BitSet(before)
    requires evs != [] && evs[..|evs| - 1] == before && evs[|evs| - 1] == ev
    ensures Follows(mode, Step(mode, s, ev).producers[ev.p], evs, ev.p)
  {
    hide Copied, PutByte, ByteFor, EntryOf, Accepted, BitSet;
  }

  lemma OtherStays(mode: CopyPoint, s: State, ev: Event, p: nat)
    requires Enabled(s, ev) && p < |s.producers| && !(ByWriter(ev) && ev.p == p)
    ensures var t := Step(mode, s, ev); |t.producers| == |s.producers| && t.producers[p] == s.producers[p]
  {
    hide Copied, PutByte, ByteFor, EntryOf, Accepted, Back;
    assert !ByWriter(ev) ==> Step(mode, s, ev).producers == s.producers;
  }

  lemma BitFollows(mode: CopyPoint, s: State, ev: Event, before: seq<Event>, evs: seq<Event>)
    requires Enabled(s, ev) && s.bit == BitSet(before) && evs == before + [ev]
    ensures Step(mode, s, ev).bit == BitSet(evs)
  {
    hide Copied, PutByte, ByteFor, EntryOf, Accepted, Back;
    assert evs[..|evs| - 1] == before;
  }

  lemma {:induction false} RunBit(mode: CopyPoint, s: State, evs: seq<Event>)
    requires Init(s) && ValidRun(mode, s, evs)
    ensures Run(mode, s, evs).bit == BitSet(evs)
    decreases |evs|
  {
    if evs == [] {
    } else {
      var before, last := evs[..|evs| - 1], evs[|evs| - 1];
      RunLast(mode, s, evs);
      RunBit(mode, s, before);
      assert evs == before + [last];
      hide Step, Init;
      BitFollows(mode, Run(mode, s, before), last, before, evs);
    }
  }

  lemma {:induction false} RunFollows(mode: CopyPoint, s: State, evs: seq<Event>, p: nat)
    requires Init(s) && ValidRun(mode, s, evs) && p < |s.producers|
    ensures var t := Run(mode, s, evs); p < |t.producers| && Follows(mode, t.producers[p], evs, p)
    decreases |evs|
  {
    if evs == [] {
    } else {
      var before, last := evs[..|evs| - 1], evs[|evs| - 1];
      RunLast(mode, s, evs);
      RunFollows(mode, s, before, p);
      RunBit(mode, s, before);
      assert evs == before + [last];
      hide Step, Follows, Init;
      WriterFollows(mode, Run(mode, s, before), last, before, evs, p);
    }
  }

  /** In every run, a writer leaves only after all of the hook and all of its copy: since it brought its request it has
      linked it once, released the semaphore once, set the bit once, woken the consumer if and only if the bit was
      clear, and, where the copy follows the hook, put each byte once. */
  lemma LeavesComplete(mode: CopyPoint, s: State, evs: seq<Event>, i: nat)
    requires Init(s) && ValidRun(mode, s, evs) && i < |evs| && evs[i].Return?
    ensures var before, p := evs[..i], evs[i].p;
            && Brought(before, p).Some?
            && Since(before, p, Link(p)) == Since(before, p, Up(p)) == Since(before, p, SetBit(p)) == 1
            && Since(before, p, Wake(p)) == (if FoundClear(before, p) then 1 else 0)
            && Since(before, p, Put(p)) == if mode.AfterHook? then |Brought(before, p).value.payload| else 0
  {
    var upto := evs[..i + 1];
    RunPrefix(mode, s, evs, i + 1);
    RunLast(mode, s, upto);
    assert upto[..|upto| - 1] == evs[..i] && upto[|upto| - 1] == evs[i];
    RunKeepsWriters(mode, s, evs[..i]);
    RunFollows(mode, s, evs[..i], evs[i].p);
  }

  lemma {:induction false} RunPrefix(mode: CopyPoint, s: State, evs: seq<Event>, n: nat)
    requires ValidRun(mode, s, evs) && n <= |evs|
    ensures ValidRun(mode, s, evs[..n])
    decreases n
  {
    hide Step, Enabled;
    if n > 0 {
      RunPrefix(mode, Step(mode, s, evs[0]), evs[1..], n - 1);
      assert evs[..n][1..] == evs[1..][..n - 1];
    }
  }

  lemma {:induction false} RunKeepsWriters(mode: CopyPoint, s: State, evs: seq<Event>)
    requires ValidRun(mode, s, evs)
    ensures |Run(mode, s, evs).producers| == |s.producers|
    decreases |evs|
  {
    if evs == [] {
    } else {
      StepKeepsWriters(mode, s, evs[0]);
      hide Step;
      RunKeepsWriters(mode, Step(mode, s, evs[0]), evs[1..]);
    }
  }

  lemma StepKeepsWriters(mode: CopyPoint, s: State, ev: Event)
    requires Enabled(s, ev)
    ensures |Step(mode, s, ev).producers| == |s.producers|
  {
    hide Copied, PutByte, ByteFor, EntryOf, Accepted, Back, Splice;
    assert !ByWriter(ev) ==> Step(mode, s, ev).producers == s.producers;
  }

  /** What one step leaves at place `x` of the RAM disk: the byte it brings there, or what was there. */
  lemma StepBrings(mode: CopyPoint, s: State, ev: Event, before: seq<Event>, x: nat)
    requires WellFormed(s) && Enabled(s, ev) && x < |s.ram|
    requires ByWriter(ev) ==> Follows(mode, s.producers[ev.p], before, ev.p)
    ensures |Step(mode, s, ev).ram| == |s.ram|
    ensures Step(mode, s, ev).ram[x] == match Arriving(mode, before, ev, x) case Some(b) => b case None => s.ram[x]
  {
    hide ByteFor, EntryOf, Back, AllGood, Splice, Brought, Since, FoundClear;
    if ev.Link? {
      var w := s.producers[ev.p].w;
      SpliceAt(s.ram, w.base, w.payload, x);
    }
  }

  /** In every reachable state, either side of the hook, each byte of the RAM disk is the one last written to its place
      by the run's events: by the last linked request that covers it, or by the last put there. */
  lemma {:induction false} RamHoldsLastWritten(mode: CopyPoint, s: State, evs: seq<Event>, x: nat)
    requires Init(s) && ValidRun(mode, s, evs) && x < |s.ram|
    ensures |Run(mode, s, evs).ram| == |s.ram|
    ensures Run(mode, s, evs).ram[x] == LastWritten(mode, evs, x, s.ram[x])
    decreases |evs|
  {
    if evs == [] {
    } else {
      var before, last := evs[..|evs| - 1], evs[|evs| - 1];
      RunLast(mode, s, evs);
      RamHoldsLastWritten(mode, s, before, x);
      EveryReachableState(mode, s, before);
      var t := Run(mode, s, before);
      RunKeepsWriters(mode, s, before);
      if ByWriter(last) {
        RunFollows(mode, s, before, last.p);
      }
      hide Step, Arriving, Follows, WellFormed, Mutex, WakeUp, InOrder, ClosedLast;
      StepBrings(mode, t, last, before, x);
    }
  }

  /** Drained, in step or guarded: the backup, too, holds at every place the byte last written there. */
  lemma DrainedHoldsLastWritten(mode: CopyPoint, s: State, evs: seq<Event>, x: nat)
    requires Init(s) && ValidRun(mode, s, evs) && x < |s.ram|
    requires mode.WithLink? || GuardedThroughout(mode, s, evs)
    requires var t := Run(mode, s, evs); t.queue == [] && InFlight(t.consumer) == [] && t.discarded == []
    ensures var t := Run(mode, s, evs); |t.ram| == |s.ram| <= |t.bak|
    ensures Run(mode, s, evs).bak[x] == LastWritten(mode, evs, x, s.ram[x])
  {
    RamHoldsLastWritten(mode, s, evs, x);
    if mode.WithLink? {
      BackupIsFaithful(s, evs);
    } else {
      GuardedIsFaithful(mode, s, evs);
    }
    var t := Run(mode, s, evs);
    assert t.bak[..|t.ram|][x] == t.ram[x];
  }

  /** Shut down: so it does at every place that no entry thrown away, or linked too late, covers. */
  lemma ExitHoldsLastWritten(mode: CopyPoint, s: State, evs: seq<Event>, x: nat)
    requires Init(s) && ValidRun(mode, s, evs) && x < |s.ram| && Run(mode, s, evs).closed
    requires mode.WithLink? || GuardedThroughout(mode, s, evs)
    requires var t := Run(mode, s, evs); !Listed(t.discarded, x) && (mode.WithLink? ==> !Listed(t.queue, x))
    ensures var t := Run(mode, s, evs); |t.ram| == |s.ram| <= |t.bak|
    ensures Run(mode, s, evs).bak[x] == LastWritten(mode, evs, x, s.ram[x])
  {
    RamHoldsLastWritten(mode, s, evs, x);
    if mode.WithLink? {
      BackupIsFaithful(s, evs);
    } else {
      GuardedIsFaithful(mode, s, evs);
    }
  }

  // ----- the entries -----

  /** The entry has the request's range, and its segments address just that range. */
  ghost predicate EntryFor(e: Entry, w: Write, n: nat) {
    e.base == w.base && e.size == |w.payload| && Good(e, n)
  }

  lemma LinkAppends(mode: CopyPoint, s: State, ev: Event)
    requires Enabled(s, ev) && WellFormed(s)
    ensures var t := Step(mode, s, ev);
            if ev.Link? then |t.enqueued| == |s.enqueued| + 1 && t.enqueued[..|s.enqueued|] == s.enqueued
                             && EntryFor(t.enqueued[|s.enqueued|], s.producers[ev.p].w, |s.ram|)
            else t.enqueued == s.enqueued
  {
    hide Copied, PutByte, ByteFor, Back;
    if ev.Link? {
      CloneIsGood(s.producers[ev.p].w, s.ram);
    }
    hide CloneSegs, Good;
  }

  /** The entries ever linked are, one for one and in order, those of the requests whose writers linked, each
      addressing the range of its own request. */
  lemma {:induction false} EnqueuedAreLinked(mode: CopyPoint, s: State, evs: seq<Event>)
    requires Init(s) && ValidRun(mode, s, evs)
    ensures var t, ws := Run(mode, s, evs), LinkedWrites(evs);
            |t.ram| == |s.ram| && |t.enqueued| == |ws|
            && forall i :: 0 <= i < |ws| ==> EntryFor(t.enqueued[i], ws[i], |s.ram|)
    decreases |evs|
  {
    if evs == [] {
    } else {
      var before, last := evs[..|evs| - 1], evs[|evs| - 1];
      RunLast(mode, s, evs);
      EnqueuedAreLinked(mode, s, before);
      EveryReachableState(mode, s, before);
      var t := Run(mode, s, before);
      RunKeepsWriters(mode, s, before);
      if last.Link? {
        RunFollows(mode, s, before, last.p);
      }
      LinkAppends(mode, t, last);
      StepKeepsWellFormed(mode, t, last);
      hide Step, Init, WellFormed, Mutex, WakeUp, InOrder, ClosedLast, EntryFor;
      var ws, es := LinkedWrites(evs), Run(mode, s, evs).enqueued;
      forall i | 0 <= i < |ws| ensures EntryFor(es[i], ws[i], |s.ram|) {
        if i < |t.enqueued| {
          assert es[i] == t.enqueued[i] && ws[i] == LinkedWrites(before)[i];
        }
      }
    }
  }

  // ----- an entry thrown away -----

  /** Told to stop, the thread has not moved yet, and a writer has linked its entry. */
  function StopQueued(): State {
    StopAsleep().(permits := 0, producers := [Linked(LATE, 0)], queue := [EntryOf(LATE)], enqueued := [EntryOf(LATE)],
                  ram := [1])
  }

  function ThrownAway(): State {
    StopQueued().(queue := [], discarded := [EntryOf(LATE)], consumer := Exited, closed := true, tested := false)
  }

  lemma StopLinks(rest: seq<Event>) returns (evs: seq<Event>)
    requires ValidRun(WithLink, StopQueued(), rest)
    ensures ValidRun(WithLink, StopAsleep(), evs)
    ensures Run(WithLink, StopAsleep(), evs) == Run(WithLink, StopQueued(), rest)
  {
    hide ValidRun, Run, EntryOf;
    var s1 := StopAsleep().(permits := 0, producers := [Holding(LATE)]);
    assert Copied([0], LATE) == [1];
    assert [] + [EntryOf(LATE)] == [EntryOf(LATE)];
    hide Copied;
    assert Step(WithLink, s1, Link(0)) == StopQueued();
    assert Step(WithLink, StopAsleep(), Down(0, LATE)) == s1;
    hide Step;
    evs := PrependStep(WithLink, s1, Link(0), rest);
    evs := PrependStep(WithLink, StopAsleep(), Down(0, LATE), evs);
  }

  lemma StopThrows() returns (evs: seq<Event>)
    ensures ValidRun(WithLink, StopQueued(), evs) && Run(WithLink, StopQueued(), evs) == ThrownAway()
  {
    hide EntryOf;
    var s1 := StopQueued().(consumer := Awake);
    var s2 := s1.(consumer := Checking, tested := false);
    var s3 := s2.(consumer := Exited);
    assert [] + [EntryOf(LATE)] == [EntryOf(LATE)];
    assert Step(WithLink, s3, Discard) == ThrownAway();
    assert Step(WithLink, s2, Check) == s3;
    assert Step(WithLink, s1, Clear) == s2;
    assert Step(WithLink, StopQueued(), Timeout) == s1;
    evs := [];
    assert Run(WithLink, ThrownAway(), evs) == ThrownAway();
    hide Step, ThrownAway, Run, ValidRun;
    evs := PrependStep(WithLink, s3, Discard, evs);
    evs := PrependStep(WithLink, s2, Check, evs);
    evs := PrependStep(WithLink, s1, Clear, evs);
    evs := PrependStep(WithLink, StopQueued(), Timeout, evs);
  }

  /** The thread does not serve what is queued before it exits: a write linked in time, before the queue is cleared, is
      thrown away, and the disks differ for good. */
  lemma ExitThrowsAway() returns (evs: seq<Event>)
    ensures Init(LateStart()) && ValidRun(WithLink, LateStart(), evs) && CleanExit(evs)
    ensures var t := Run(WithLink, LateStart(), evs);
            t.closed && t.stored == [] && t.discarded == [EntryOf(LATE)] && t.ram == [1] && t.bak == [0]
  {
    hide Step, ValidRun, Run;
    evs := StopThrows();
    evs := StopLinks(evs);
    evs := ExitFirst(evs);
    CleanFrom(WithLink, LateStart(), evs);
  }
}
