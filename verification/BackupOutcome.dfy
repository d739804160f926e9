/** What a run of the backup leaves behind: drained machines, shutdowns, and the bytes that end stale. */
module BackupOutcome {
  import opened BackupMachine
  import opened BackupProtocol
  import opened BackupCoherence

  // ----- hook and copy as one step -----

  /** Every writer back from its hook has all its bytes on the RAM disk. */
  predicate AllPut(ps: seq<Producer>) {
    forall p :: 0 <= p < |ps| && ps[p].Returning? ==> ps[p].done == ps[p].Size()
  }

  lemma StepKeepsAllPut(s: State, ev: Event)
    requires AllPut(s.producers) && Enabled(s, ev)
    ensures !ev.Put? && AllPut(Step(WithLink, s, ev).producers)
  {
    hide Copied, ByteFor, EntryOf;
  }

  // ----- shutdown -----

  predicate NoLink(evs: seq<Event>) {
    forall j :: 0 <= j < |evs| ==> !evs[j].Link?
  }

  /** No writer links an entry once the queue has been cleared. */
  predicate CleanExit(evs: seq<Event>) {
    forall i, j :: 0 <= i < j < |evs| && evs[i].Discard? ==> !evs[j].Link?
  }

  lemma {:induction false} ClosedQueue(mode: CopyPoint, s: State, evs: seq<Event>)
    requires s.closed && ClosedLast(s) && ValidRun(mode, s, evs)
    ensures Run(mode, s, evs).queue == [] <==> s.queue == [] && NoLink(evs)
    decreases |evs|
  {
    if evs == [] {
    } else {
      var ev, rest := evs[0], evs[1..];
      StepKeepsClosedLast(mode, s, ev);
      ClosedQueueStep(mode, s, ev);
      hide Step;
      NoLinkCons(evs);
      ClosedQueue(mode, Step(mode, s, ev), rest);
    }
  }

  lemma NoLinkCons(evs: seq<Event>)
    requires evs != []
    ensures NoLink(evs) <==> !evs[0].Link? && NoLink(evs[1..])
  {
    var rest := evs[1..];
    assert forall j :: 0 < j < |evs| ==> evs[j] == rest[j - 1];
    if NoLink(evs) {
      forall j | 0 <= j < |rest| ensures !rest[j].Link? {
        assert !evs[j + 1].Link?;
      }
    }
  }

  lemma ClosedQueueStep(mode: CopyPoint, s: State, ev: Event)
    requires s.closed && ClosedLast(s) && Enabled(s, ev)
    ensures Step(mode, s, ev).closed && (Step(mode, s, ev).queue == [] <==> s.queue == [] && !ev.Link?)
  {
    hide Copied, PutByte, ByteFor, EntryOf;
  }

  lemma OpenStep(mode: CopyPoint, s: State, ev: Event)
    requires !s.closed && Enabled(s, ev)
    ensures var t := Step(mode, s, ev); (t.closed <==> ev.Discard?) && (ev.Discard? ==> t.queue == [])
  {
    hide Copied, PutByte, ByteFor, EntryOf;
  }

  lemma {:induction false} CleanFrom(mode: CopyPoint, s: State, evs: seq<Event>)
    requires !s.closed && ClosedLast(s) && ValidRun(mode, s, evs) && Run(mode, s, evs).closed
    ensures Run(mode, s, evs).queue == [] <==> CleanExit(evs)
    decreases |evs|
  {
    var ev, rest := evs[0], evs[1..];
    StepKeepsClosedLast(mode, s, ev);
    OpenStep(mode, s, ev);
    hide Step, ClosedLast;
    CleanCons(evs);
    if ev.Discard? {
      ClosedQueue(mode, Step(mode, s, ev), rest);
    } else {
      CleanFrom(mode, Step(mode, s, ev), rest);
    }
  }

  lemma CleanCons(evs: seq<Event>)
    requires evs != []
    ensures CleanExit(evs) <==> CleanExit(evs[1..]) && (evs[0].Discard? ==> NoLink(evs[1..]))
    ensures NoLink(evs[1..]) ==> CleanExit(evs[1..])
  {
    var rest := evs[1..];
    assert forall j :: 0 < j < |evs| ==> evs[j] == rest[j - 1];
    if CleanExit(evs) {
      forall i, j | 0 <= i < j < |rest| && rest[i].Discard? ensures !rest[j].Link? {
        assert evs[i + 1].Discard?;
        assert !evs[j + 1].Link?;
      }
      if evs[0].Discard? {
        forall j | 0 <= j < |rest| ensures !rest[j].Link? {
          assert !evs[j + 1].Link?;
        }
      }
    }
  }

  lemma EmptyTail(a: seq<Entry>, b: seq<Entry>, c: seq<Entry>)
    ensures a + [] + b + c == a + b <==> c == []
  {
    assert c == [] ==> a + [] + b + c == a + b;
  }

  /** In every run that has shut down, each entry ever linked was stored or thrown away if and only if no writer linked
      one after the queue was cleared. */
  lemma ExitIsCleanIff(mode: CopyPoint, s: State, evs: seq<Event>)
    requires Init(s) && ValidRun(mode, s, evs) && Run(mode, s, evs).closed
    ensures var t := Run(mode, s, evs); t.enqueued == t.stored + t.discarded <==> CleanExit(evs)
  {
    EveryReachableState(mode, s, evs);
    CleanFrom(mode, s, evs);
    hide WellFormed, Mutex, WakeUp, Run, ValidRun, Init, CleanExit;
    var t := Run(mode, s, evs);
    EmptyTail(t.stored, t.discarded, t.queue);
  }

  /** What the condition of a clean exit still asks of the rest of a run. */
  predicate CleanSoFar(s: State, evs: seq<Event>) {
    CleanExit(evs) && (s.closed ==> s.queue == [] && NoLink(evs))
  }

  lemma CleanStep(mode: CopyPoint, s: State, evs: seq<Event>)
    requires evs != [] && Enabled(s, evs[0]) && ClosedLast(s) && CleanSoFar(s, evs)
    ensures CleanSoFar(Step(mode, s, evs[0]), evs[1..]) && (evs[0].Link? ==> !s.closed)
  {
    CleanCons(evs);
    NoLinkCons(evs);
    if s.closed {
      ClosedQueueStep(mode, s, evs[0]);
    } else {
      OpenStep(mode, s, evs[0]);
    }
    hide Step;
  }

  /** A run that has not shut down cannot have linked too late. */
  lemma {:induction false} OpenIsClean(mode: CopyPoint, s: State, evs: seq<Event>)
    requires ClosedLast(s) && ValidRun(mode, s, evs) && !Run(mode, s, evs).closed
    ensures CleanExit(evs)
    decreases |evs|
  {
    if evs == [] {
    } else {
      StepKeepsClosedLast(mode, s, evs[0]);
      CleanCons(evs);
      OpenBefore(mode, s, evs);
      hide Step;
      OpenIsClean(mode, Step(mode, s, evs[0]), evs[1..]);
    }
  }

  lemma OpenBefore(mode: CopyPoint, s: State, evs: seq<Event>)
    requires evs != [] && ClosedLast(s) && ValidRun(mode, s, evs) && !Run(mode, s, evs).closed
    ensures !evs[0].Discard?
  {
    if evs[0].Discard? {
      OpenStepDiscard(mode, s);
      StaysClosed(mode, Step(mode, s, Discard), evs[1..]);
    }
  }

  lemma OpenStepDiscard(mode: CopyPoint, s: State)
    requires Enabled(s, Discard)
    ensures Step(mode, s, Discard).closed
  {
  }

  lemma {:induction false} StaysClosed(mode: CopyPoint, s: State, evs: seq<Event>)
    requires s.closed && ValidRun(mode, s, evs)
    ensures Run(mode, s, evs).closed
    decreases |evs|
  {
    if evs == [] {
    } else {
      ClosedStep(mode, s, evs[0]);
      hide Step;
      StaysClosed(mode, Step(mode, s, evs[0]), evs[1..]);
    }
  }

  lemma ClosedStep(mode: CopyPoint, s: State, ev: Event)
    requires s.closed && Enabled(s, ev)
    ensures Step(mode, s, ev).closed
  {
    hide Copied, PutByte, ByteFor, EntryOf;
  }

  // ----- hook and copy as one step: clean runs are guarded -----

  lemma {:induction false} CleanIsGuarded(s: State, evs: seq<Event>)
    requires ClosedLast(s) && AllPut(s.producers) && ValidRun(WithLink, s, evs) && CleanSoFar(s, evs)
    ensures GuardedThroughout(WithLink, s, evs)
    decreases |evs|
  {
    if evs == [] {
    } else {
      StepKeepsAllPut(s, evs[0]);
      StepKeepsClosedLast(WithLink, s, evs[0]);
      CleanStep(WithLink, s, evs);
      hide Step, ClosedLast, AllPut, CleanSoFar;
      assert Guarded(WithLink, s, evs[0]);
      CleanIsGuarded(Step(WithLink, s, evs[0]), evs[1..]);
    }
  }

  /** With hook and copy as one step, every state reached without a late link is coherent. */
  lemma EveryReachableStateCoherent(s: State, evs: seq<Event>)
    requires Init(s) && ValidRun(WithLink, s, evs) && CleanExit(evs)
    ensures CoherentThroughout(WithLink, s, evs)
    ensures WellFormed(Run(WithLink, s, evs)) && Coherent(Run(WithLink, s, evs))
  {
    InitHolds(s);
    CleanIsGuarded(s, evs);
    CoherentIffGuarded(WithLink, s, evs);
    EndCoherent(WithLink, s, evs);
    EveryReachableState(WithLink, s, evs);
  }

  /** Either side of the hook, a run with guarded writes that has drained leaves equal disks, even with writers still in
      their copy loop, and one that was shut down differs only where entries were thrown away. */
  lemma GuardedIsFaithful(mode: CopyPoint, s: State, evs: seq<Event>)
    requires Init(s) && ValidRun(mode, s, evs) && GuardedThroughout(mode, s, evs)
    ensures var t := Run(mode, s, evs);
            && |t.ram| <= |t.bak|
            && (t.queue == [] && InFlight(t.consumer) == [] && t.discarded == [] ==> t.bak[..|t.ram|] == t.ram)
            && (t.closed ==> forall x :: 0 <= x < |t.ram| && t.bak[x] != t.ram[x] ==> Listed(t.discarded, x))
  {
    InitHolds(s);
    CoherentIffGuarded(mode, s, evs);
    EndCoherent(mode, s, evs);
    EveryReachableState(mode, s, evs);
    var t := Run(mode, s, evs);
    if t.queue == [] && InFlight(t.consumer) == [] && t.discarded == [] {
      DrainedIsEqual(t);
    }
    if t.closed {
      AfterExit(t);
    }
  }

  /** Once nothing is queued, in flight or thrown away, the backup equals the RAM disk. */
  lemma DrainedIsEqual(s: State)
    requires WellFormed(s) && Coherent(s)
    requires s.queue == [] && InFlight(s.consumer) == [] && s.discarded == []
    ensures s.bak[..|s.ram|] == s.ram
  {
    forall x | 0 <= x < |s.ram| ensures s.bak[x] == s.ram[x] {
      assert CoherentAt(s, x);
    }
  }

  lemma AfterExit(s: State)
    requires Invariant(s) && Coherent(s) && s.closed
    ensures forall x :: 0 <= x < |s.ram| && s.bak[x] != s.ram[x] ==> Listed(s.discarded, x)
    ensures s.enqueued == s.stored + s.discarded + s.queue
  {
    forall x | 0 <= x < |s.ram| && s.bak[x] != s.ram[x] ensures Listed(s.discarded, x) {
      assert CoherentAt(s, x);
    }
    assert s.stored + [] == s.stored;
  }

  /** Coherent, or covered by an entry linked too late. */
  ghost predicate Accounted(s: State, x: nat)
    requires x < |s.ram| <= |s.bak|
  {
    CoherentAt(s, x) || (s.closed && Listed(s.queue, x))
  }

  lemma StepKeepsAccounted(s: State, ev: Event, x: nat)
    requires WellFormed(s) && ClosedLast(s) && AllPut(s.producers) && Enabled(s, ev) && x < |s.ram| && Accounted(s, x)
    ensures var t := Step(WithLink, s, ev); x < |t.ram| <= |t.bak| && Accounted(t, x)
  {
    StepKeepsAllPut(s, ev);
    StepByte(WithLink, s, ev, x);
    if s.closed {
      QueueAfterClose(s, ev, x);
    }
    hide Step, WellFormed, CoherentAt, Listed;
  }

  lemma QueueAfterClose(s: State, ev: Event, x: nat)
    requires s.closed && ClosedLast(s) && Enabled(s, ev)
    ensures var t := Step(WithLink, s, ev);
            && t.closed
            && (Listed(s.queue, x) ==> Listed(t.queue, x))
            && (ev.Link? && Covers(EntryOf(s.producers[ev.p].w), x) ==> Listed(t.queue, x))
  {
    if ev.Link? {
      ListedAppend(s.queue, [EntryOf(s.producers[ev.p].w)], x);
      ListedOne(EntryOf(s.producers[ev.p].w), x);
    }
    hide Listed, Copied, PutByte, ByteFor, EntryOf;
  }

  lemma {:induction false} RunKeepsAccounted(s: State, evs: seq<Event>, x: nat)
    requires WellFormed(s) && ClosedLast(s) && AllPut(s.producers) && ValidRun(WithLink, s, evs)
    requires x < |s.ram| && Accounted(s, x)
    ensures var t := Run(WithLink, s, evs); x < |t.ram| <= |t.bak| && Accounted(t, x)
    decreases |evs|
  {
    if evs == [] {
    } else {
      StepKeepsAccounted(s, evs[0], x);
      StepKeepsWellFormed(WithLink, s, evs[0]);
      StepKeepsClosedLast(WithLink, s, evs[0]);
      StepKeepsAllPut(s, evs[0]);
      hide Step, WellFormed, ClosedLast, AllPut, Accounted;
      RunKeepsAccounted(Step(WithLink, s, evs[0]), evs[1..], x);
    }
  }

  /** In every run with hook and copy as one step: a drained machine has equal disks; one that was shut down differs
      only where entries were thrown away or were linked too late, and without late links only where entries were
      thrown away. */
  lemma BackupIsFaithful(s: State, evs: seq<Event>)
    requires Init(s) && ValidRun(WithLink, s, evs)
    ensures var t := Run(WithLink, s, evs);
            && |t.ram| <= |t.bak|
            && (t.queue == [] && InFlight(t.consumer) == [] && t.discarded == [] ==> t.bak[..|t.ram|] == t.ram)
            && (t.closed ==>
                  forall x :: 0 <= x < |t.ram| && t.bak[x] != t.ram[x] ==> Listed(t.discarded, x) || Listed(t.queue, x))
            && (t.closed && CleanExit(evs) ==>
                  forall x :: 0 <= x < |t.ram| && t.bak[x] != t.ram[x] ==> Listed(t.discarded, x))
  {
    InitHolds(s);
    EveryReachableState(WithLink, s, evs);
    RunKeepsInvariant(WithLink, s, evs);
    var t := Run(WithLink, s, evs);
    forall x | 0 <= x < |t.ram| ensures Accounted(t, x) {
      assert CoherentAt(s, x);
      RunKeepsAccounted(s, evs, x);
    }
    if t.closed && CleanExit(evs) {
      CleanIsGuarded(s, evs);
      GuardedIsFaithful(WithLink, s, evs);
    }
    hide Run, ValidRun, Init;
    FaithfulEnd(t);
  }

  lemma FaithfulEnd(t: State)
    requires Invariant(t) && forall x :: 0 <= x < |t.ram| ==> Accounted(t, x)
    ensures t.queue == [] && InFlight(t.consumer) == [] && t.discarded == [] ==> t.bak[..|t.ram|] == t.ram
    ensures t.closed ==>
              forall x :: 0 <= x < |t.ram| && t.bak[x] != t.ram[x] ==> Listed(t.discarded, x) || Listed(t.queue, x)
  {
    hide AllGood, AllAccepted, Mutex, WakeUp, InOrder;
    forall x | 0 <= x < |t.ram|
      ensures (t.queue == [] && InFlight(t.consumer) == [] && t.discarded == []) ==> t.bak[x] == t.ram[x]
      ensures t.closed && t.bak[x] != t.ram[x] ==> Listed(t.discarded, x) || Listed(t.queue, x)
    {
      assert Accounted(t, x);
    }
  }

  // ----- the bytes a run leaves stale, either side of the hook -----

  ghost predicate Untouched(mode: CopyPoint, s: State, evs: seq<Event>, x: nat)
    requires ValidRun(mode, s, evs)
    decreases |evs|
  {
    evs == [] || (!Touches(mode, s, evs[0], x) && Untouched(mode, Step(mode, s, evs[0]), evs[1..], x))
  }

  /** The last event that touches byte `x` is a late write. */
  ghost predicate EndsLate(mode: CopyPoint, s: State, evs: seq<Event>, x: nat)
    requires WellFormed(s) && x < |s.ram| && ValidRun(mode, s, evs)
    decreases |evs|
  {
    evs != [] &&
    (StepKeepsWellFormed(mode, s, evs[0]);
     var t := Step(mode, s, evs[0]);
     EndsLate(mode, t, evs[1..], x) || (Late(mode, s, evs[0], x) && Untouched(mode, t, evs[1..], x)))
  }

  lemma {:induction false} StaleFrom(mode: CopyPoint, s: State, evs: seq<Event>, x: nat)
    requires WellFormed(s) && x < |s.ram| && ValidRun(mode, s, evs)
    ensures var t := Run(mode, s, evs);
            && x < |t.ram| <= |t.bak|
            && (!CoherentAt(t, x) <==>
                  EndsLate(mode, s, evs, x) || (!CoherentAt(s, x) && Untouched(mode, s, evs, x)))
    decreases |evs|
  {
    hide WellFormed, CoherentAt, Touches;
    WellFormedSizes(s);
    if evs == [] {
    } else {
      StepKeepsWellFormed(mode, s, evs[0]);
      StepByte(mode, s, evs[0], x);
      LateTouches(mode, s, evs[0], x);
      hide Step, Late;
      StaleFrom(mode, Step(mode, s, evs[0]), evs[1..], x);
    }
  }

  lemma LateTouches(mode: CopyPoint, s: State, ev: Event, x: nat)
    requires Enabled(s, ev) && x < |s.bak|
    ensures Late(mode, s, ev, x) ==> Touches(mode, s, ev, x)
  {
  }

  /** In every run from equal disks that has nothing left to do for byte `x`, the disks differ there if and only if the
      last event that touched it was a write that came too late: no entry still to be served covered it, and its value
      was not the one the backup was bound to hold. */
  lemma SettledStaleIff(mode: CopyPoint, s: State, evs: seq<Event>, x: nat)
    requires Init(s) && ValidRun(mode, s, evs) && x < |s.ram|
    requires var t := Run(mode, s, evs); !Covered(t, x) && !Carried(t, x)
    ensures var t := Run(mode, s, evs);
            x < |t.ram| <= |t.bak| && (t.bak[x] != t.ram[x] <==> EndsLate(mode, s, evs, x))
  {
    InitHolds(s);
    assert CoherentAt(s, x);
    StaleFrom(mode, s, evs, x);
  }

  /** A drained run: for every byte no discarded entry covers. */
  lemma DrainedStaleIff(mode: CopyPoint, s: State, evs: seq<Event>, x: nat)
    requires Init(s) && ValidRun(mode, s, evs) && x < |s.ram|
    requires var t := Run(mode, s, evs);
             t.queue == [] && InFlight(t.consumer) == [] && !Listed(t.discarded, x)
    ensures var t := Run(mode, s, evs);
            x < |t.ram| <= |t.bak| && (t.bak[x] != t.ram[x] <==> EndsLate(mode, s, evs, x))
  {
    ListedNone(x);
    SettledStaleIff(mode, s, evs, x);
  }

  /** A run that has shut down: for every byte no discarded entry covers, with late links or without. */
  lemma ExitStaleIff(mode: CopyPoint, s: State, evs: seq<Event>, x: nat)
    requires Init(s) && ValidRun(mode, s, evs) && x < |s.ram|
    requires var t := Run(mode, s, evs); t.closed && !Listed(t.discarded, x)
    ensures var t := Run(mode, s, evs);
            x < |t.ram| <= |t.bak| && (t.bak[x] != t.ram[x] <==> EndsLate(mode, s, evs, x))
  {
    EveryReachableState(mode, s, evs);
    SettledStaleIff(mode, s, evs, x);
  }

  // ----- a write after shutdown -----

  lemma PrependStep(mode: CopyPoint, s: State, ev: Event, rest: seq<Event>) returns (evs: seq<Event>)
    requires Enabled(s, ev) && ValidRun(mode, Step(mode, s, ev), rest)
    ensures ValidRun(mode, s, evs)
    ensures Run(mode, s, evs) == Run(mode, Step(mode, s, ev), rest)
  {
    evs := [ev] + rest;
    assert evs[1..] == rest;
  }

  // A one-byte write on one-byte disks.

  const LATE: Write := Write(0, [1], [1])

  function LateStart(): State {
    State([0], [0], [], 1, false, [Outside], Top, false, false, [], [], [], false)
  }

  /** The thread has exited and the queue is cleared; nothing has been written yet. */
  function ExitedEmpty(): State {
    LateStart().(consumer := Exited, stop := true, closed := true)
  }

  /** The thread sleeps on the empty queue and is told to stop. */
  function StopAsleep(): State {
    LateStart().(consumer := Asleep(true), stop := true, tested := true)
  }

  lemma ExitSecond(rest: seq<Event>) returns (evs: seq<Event>)
    requires ValidRun(WithLink, ExitedEmpty(), rest)
    ensures ValidRun(WithLink, StopAsleep(), evs)
    ensures Run(WithLink, StopAsleep(), evs) == Run(WithLink, ExitedEmpty(), rest)
  {
    hide ValidRun, Run;
    var s6 := StopAsleep().(consumer := Awake);
    var s7 := s6.(consumer := Checking, tested := false);
    var s8 := s7.(consumer := Exited);
    assert Step(WithLink, s8, Discard) == ExitedEmpty();
    evs := PrependStep(WithLink, s8, Discard, rest);
    evs := PrependStep(WithLink, s7, Check, evs);
    evs := PrependStep(WithLink, s6, Clear, evs);
    evs := PrependStep(WithLink, StopAsleep(), Timeout, evs);
  }

  lemma ExitFirst(rest: seq<Event>) returns (evs: seq<Event>)
    requires ValidRun(WithLink, StopAsleep(), rest)
    ensures ValidRun(WithLink, LateStart(), evs)
    ensures Run(WithLink, LateStart(), evs) == Run(WithLink, StopAsleep(), rest)
  {
    hide ValidRun, Run;
    var s1 := LateStart().(permits := 0, consumer := Testing);
    var s2 := s1.(consumer := FoundEmpty, tested := true);
    var s3 := s2.(permits := 1, consumer := Waiting);
    var s4 := s3.(consumer := Asleep(false));
    evs := PrependStep(WithLink, s4, Stop, rest);
    evs := PrependStep(WithLink, s3, Wait, evs);
    evs := PrependStep(WithLink, s2, Release, evs);
    evs := PrependStep(WithLink, s1, Test, evs);
    evs := PrependStep(WithLink, LateStart(), ConsumerDown, evs);
  }

  lemma WriteAfterExit() returns (evs: seq<Event>)
    ensures ValidRun(WithLink, ExitedEmpty(), evs)
    ensures var t := Run(WithLink, ExitedEmpty(), evs);
            t.closed && t.queue != [] && t.discarded == [] && t.stored == [] && t.ram == [1] && t.bak == [0]
  {
    var s1 := ExitedEmpty().(permits := 0, producers := [Holding(LATE)]);
    assert ExitedEmpty().producers[0 := Holding(LATE)] == [Holding(LATE)];
    assert Step(WithLink, ExitedEmpty(), Down(0, LATE)) == s1;
    assert Copied([0], LATE) == [1];
    hide EntryOf, Copied;
    evs := PrependStep(WithLink, s1, Link(0), []);
    evs := PrependStep(WithLink, ExitedEmpty(), Down(0, LATE), evs);
  }

  /** The hook stays installed: after the queue is cleared a write still reaches the RAM disk, and nothing accounts for
      the difference. */
  lemma LateWriteAfterExit() returns (evs: seq<Event>)
    ensures Init(LateStart()) && ValidRun(WithLink, LateStart(), evs) && !CleanExit(evs)
    ensures var t := Run(WithLink, LateStart(), evs);
            t.closed && t.discarded == [] && t.stored == [] && t.ram == [1] && t.bak == [0]
  {
    hide Step, ValidRun, Run;
    evs := WriteAfterExit();
    evs := ExitSecond(evs);
    evs := ExitFirst(evs);
    CleanFrom(WithLink, LateStart(), evs);
  }
}
