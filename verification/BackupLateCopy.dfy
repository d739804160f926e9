/** The order of ramdisk.c: a writer's bytes reach the RAM disk after its hook, one by one, while the consumer copies.
    A schedule that keeps the backup coherent, and runs that leave it stale. */
module BackupLateCopy {
  import opened Bytes
  import opened BackupMachine
  import opened BackupProtocol
  import opened BackupCoherence
  import opened BackupOutcome

  // ----- a schedule that is always coherent -----

  predicate HasTicket(p: Producer) {
    p.Linked? || p.Unlocked? || p.Waking? || p.Returning?
  }

  /** How many of its bytes a writer has put. */
  function Progress(p: Producer): nat {
    if p.Returning? then p.done else 0
  }

  /** The consumer copies a byte only when the writer whose entry it is copying has put it, or has returned. */
  predicate InStep(s: State, ev: Event) {
    ev.Load? && s.consumer.Copying? ==>
      forall p :: 0 <= p < |s.producers| && HasTicket(s.producers[p]) && s.producers[p].ticket == |s.stored| ==>
        |s.consumer.got| < Progress(s.producers[p])
  }

  ghost predicate InStepThroughout(s: State, evs: seq<Event>)
    requires ValidRun(AfterHook, s, evs)
    decreases |evs|
  {
    evs == [] || (InStep(s, evs[0]) && InStepThroughout(Step(AfterHook, s, evs[0]), evs[1..]))
  }

  /** The writer holds the ticket of its own entry; unless it has put everything the entry is not stored yet, and the
      consumer, if it is copying this entry, is not ahead of it. */
  predicate Ahead(s: State, x: Producer) {
    HasTicket(x) ==>
      && x.ticket < |s.enqueued| && s.enqueued[x.ticket] == EntryOf(x.w) && Progress(x) <= x.Size()
      && (x.ticket < |s.stored| ==> Progress(x) == x.Size())
      && (x.ticket == |s.stored| && s.consumer.Copying? ==> |s.consumer.got| <= Progress(x))
  }

  ghost predicate AllAhead(s: State) {
    forall p :: 0 <= p < |s.producers| ==> Ahead(s, s.producers[p])
  }

  /** What is not stored yet is in flight, thrown away or queued. */
  lemma TicketIsListed(s: State, i: nat, x: nat)
    requires InOrder(s) && |s.stored| <= i < |s.enqueued| && Covers(s.enqueued[i], x)
    ensures (i == |s.stored| && InFlight(s.consumer) == [s.enqueued[i]]) || Listed(s.discarded, x) || Listed(s.queue, x)
  {
    var moving := InFlight(s.consumer);
    var a, b := |s.stored| + |moving|, |s.stored| + |moving| + |s.discarded|;
    if i < a {
      assert s.enqueued[i] == moving[i - |s.stored|];
    } else if i < b {
      assert s.enqueued[i] == s.discarded[i - a];
    } else {
      assert s.enqueued[i] == s.queue[i - b];
    }
  }

  /** A put by a writer that is ahead is guarded, as long as the queue is served or empty. */
  lemma AheadIsGuarded(s: State, p: nat)
    requires WellFormed(s) && InOrder(s) && Enabled(s, Put(p)) && Ahead(s, s.producers[p])
    requires s.closed ==> s.queue == []
    ensures Guarded(AfterHook, s, Put(p))
  {
    var x := s.producers[p];
    hide WellFormed, InOrder, Listed;
    assert Covers(EntryOf(x.w), x.w.base + x.done);
    TicketIsListed(s, x.ticket, x.w.base + x.done);
    ListedNone(x.w.base + x.done);
  }

  lemma OrderBounds(s: State)
    requires InOrder(s)
    ensures |s.enqueued| == |s.stored| + |InFlight(s.consumer)| + |s.discarded| + |s.queue|
    ensures InFlight(s.consumer) != [] ==> s.enqueued[|s.stored|] == s.consumer.e
  {
    if InFlight(s.consumer) != [] {
      assert s.enqueued[|s.stored|] == InFlight(s.consumer)[0];
    }
  }

  /** Between two states, what a step does to the records of entries and to the consumer's copy. */
  predicate RecordsMove(s: State, t: State, ev: Event) {
    && s.enqueued <= t.enqueued
    && (if ev.Store? then |t.stored| == |s.stored| + 1 && !t.consumer.Copying? else t.stored == s.stored)
    && (t.consumer.Copying? ==>
          || (s.consumer.Copying? && t.consumer.got == s.consumer.got)
          || t.consumer.got == []
          || (ev.Load? && s.consumer.Copying? && |t.consumer.got| == |s.consumer.got| + 1))
  }

  lemma WriterRecords(s: State, ev: Event)
    requires Enabled(s, ev) && ByWriter(ev)
    ensures RecordsMove(s, Step(AfterHook, s, ev), ev)
  {
    hide Copied, PutByte, ByteFor, EntryOf, Accepted, Back, Splice;
    var t := Step(AfterHook, s, ev);
    assert t.stored == s.stored && (t.consumer == s.consumer || t.consumer == Asleep(true));
  }

  lemma ConsumerRecords(s: State, ev: Event)
    requires Enabled(s, ev) && !ByWriter(ev)
    ensures RecordsMove(s, Step(AfterHook, s, ev), ev)
  {
    hide Copied, PutByte, ByteFor, EntryOf, Accepted, Back, Splice;
    assert Step(AfterHook, s, ev).enqueued == s.enqueued;
  }

  /** A writer that does not move stays ahead, whatever moves. */
  lemma OtherStaysAhead(s: State, ev: Event, x: Producer)
    requires InOrder(s) && Enabled(s, ev) && Ahead(s, x)
    requires ev.Load? && HasTicket(x) && x.ticket == |s.stored| ==> |s.consumer.got| < Progress(x)
    ensures Ahead(Step(AfterHook, s, ev), x)
  {
    if ByWriter(ev) {
      WriterRecords(s, ev);
    } else {
      ConsumerRecords(s, ev);
    }
    if ev.Store? && HasTicket(x) && x.ticket == |s.stored| {
      StoredWhole(s, x);
    }
    hide Step, InOrder, EntryOf;
  }

  lemma StoredWhole(s: State, x: Producer)
    requires InOrder(s) && Enabled(s, Store) && Ahead(s, x) && HasTicket(x) && x.ticket == |s.stored|
    ensures Progress(x) == x.Size()
  {
    OrderBounds(s);
  }

  /** A writer that moves keeps its ticket and puts no less than before, or gets the next ticket. */
  lemma MovedWriter(s: State, ev: Event)
    requires Enabled(s, ev) && ByWriter(ev)
    ensures var x, y, t := s.producers[ev.p], Step(AfterHook, s, ev).producers[ev.p], Step(AfterHook, s, ev);
            HasTicket(y) ==>
              if ev.Link? then
                y.w == x.w && y.ticket == |s.enqueued| && Progress(y) == 0 && t.enqueued == s.enqueued + [EntryOf(x.w)]
              else
                HasTicket(x) && y.w == x.w && y.ticket == x.ticket
                && (Progress(y) == Progress(x) || Progress(x) < Progress(y) <= y.Size())
  {
    hide Copied, PutByte, ByteFor, EntryOf, Accepted, Splice;
  }

  lemma MoverStaysAhead(s: State, ev: Event)
    requires InOrder(s) && Enabled(s, ev) && ByWriter(ev) && Ahead(s, s.producers[ev.p])
    ensures Ahead(Step(AfterHook, s, ev), Step(AfterHook, s, ev).producers[ev.p])
  {
    OrderBounds(s);
    MovedWriter(s, ev);
    WriterRecords(s, ev);
    WriterLeavesCopy(s, ev);
    hide Step, InOrder, EntryOf;
  }

  lemma WriterLeavesCopy(s: State, ev: Event)
    requires Enabled(s, ev) && ByWriter(ev)
    ensures var t := Step(AfterHook, s, ev); t.consumer.Copying? ==> t.consumer == s.consumer
  {
    hide Copied, PutByte, ByteFor, EntryOf, Accepted, Splice, Back;
  }

  lemma StepKeepsAhead(s: State, ev: Event)
    requires WellFormed(s) && InOrder(s) && Enabled(s, ev) && AllAhead(s) && InStep(s, ev)
    ensures AllAhead(Step(AfterHook, s, ev))
  {
    var t := Step(AfterHook, s, ev);
    OthersUnmoved(AfterHook, s, ev);
    if ByWriter(ev) {
      MoverStaysAhead(s, ev);
    }
    hide WellFormed, InOrder, Step, Ahead;
    forall q | 0 <= q < |t.producers| ensures Ahead(t, t.producers[q]) {
      if !(ByWriter(ev) && ev.p == q) {
        OtherStaysAhead(s, ev, s.producers[q]);
      }
    }
  }

  lemma OthersUnmoved(mode: CopyPoint, s: State, ev: Event)
    requires Enabled(s, ev)
    ensures var t := Step(mode, s, ev);
            && |t.producers| == |s.producers|
            && forall q :: 0 <= q < |s.producers| && !(ByWriter(ev) && ev.p == q) ==> t.producers[q] == s.producers[q]
  {
    hide Copied, PutByte, ByteFor, EntryOf, Accepted, Back;
    if !ByWriter(ev) {
      assert Step(mode, s, ev).producers == s.producers;
    }
  }

  lemma {:induction false} InStepIsGuarded(s: State, evs: seq<Event>)
    requires Invariant(s) && AllAhead(s) && ValidRun(AfterHook, s, evs) && InStepThroughout(s, evs)
    requires CleanSoFar(s, evs)
    ensures GuardedThroughout(AfterHook, s, evs)
    decreases |evs|
  {
    if evs == [] {
    } else {
      if evs[0].Put? {
        AheadIsGuarded(s, evs[0].p);
      } else {
        OnlyPutsOverwrite(s, evs[0]);
      }
      StepKeepsAhead(s, evs[0]);
      StepKeepsInvariant(AfterHook, s, evs[0]);
      CleanStep(AfterHook, s, evs);
      hide Step, AllAhead, Invariant, Guarded, InStep, CleanSoFar;
      InStepIsGuarded(Step(AfterHook, s, evs[0]), evs[1..]);
    }
  }

  lemma OnlyPutsOverwrite(s: State, ev: Event)
    requires Enabled(s, ev) && !ev.Put?
    ensures Guarded(AfterHook, s, ev)
  {
  }

  /** If the consumer never copies a byte of an entry before the entry's own writer has put it, and nobody links to a
      cleared queue, the run is coherent throughout, whatever else overlaps. */
  lemma InStepIsCoherent(s: State, evs: seq<Event>)
    requires Init(s) && ValidRun(AfterHook, s, evs) && InStepThroughout(s, evs) && CleanExit(evs)
    ensures GuardedThroughout(AfterHook, s, evs) && CoherentThroughout(AfterHook, s, evs)
  {
    InitHolds(s);
    assert AllAhead(s);
    InStepIsGuarded(s, evs);
    CoherentIffGuarded(AfterHook, s, evs);
  }

  // ----- a run that loses a write -----

  /** The hook is done and its writer is about to copy; the consumer has not moved. */
  function LateHooked(): State {
    LateStart().(queue := [EntryOf(LATE)], enqueued := [EntryOf(LATE)], bit := true,
                 producers := [Returning(LATE, 0, 0)])
  }

  /** The consumer has fetched the entry. */
  function LateFetched(): State {
    LateHooked().(queue := [], consumer := Copying(EntryOf(LATE), []), tested := true)
  }

  /** The consumer has copied the entry's one byte. */
  function LateLoaded(): State {
    LateFetched().(consumer := Copying(EntryOf(LATE), [0]))
  }

  /** The consumer has stored the entry. */
  function LateStored(): State {
    LateFetched().(stored := [EntryOf(LATE)], consumer := Checking)
  }

  lemma LateHook(rest: seq<Event>) returns (evs: seq<Event>)
    requires ValidRun(AfterHook, LateHooked(), rest)
    ensures ValidRun(AfterHook, LateStart(), evs)
    ensures Run(AfterHook, LateStart(), evs) == Run(AfterHook, LateHooked(), rest)
  {
    hide ValidRun, Run, EntryOf;
    var s1 := LateStart().(permits := 0, producers := [Holding(LATE)]);
    var s2 := s1.(queue := [EntryOf(LATE)], enqueued := [EntryOf(LATE)], producers := [Linked(LATE, 0)]);
    var s3 := s2.(permits := 1, producers := [Unlocked(LATE, 0)]);
    var s4 := s3.(bit := true, producers := [Waking(LATE, 0)]);
    assert Step(AfterHook, s4, Wake(0)) == LateHooked();
    assert Step(AfterHook, s3, SetBit(0)) == s4;
    assert Step(AfterHook, s2, Up(0)) == s3;
    assert Step(AfterHook, s1, Link(0)) == s2;
    assert Step(AfterHook, LateStart(), Down(0, LATE)) == s1;
    hide Step;
    evs := PrependStep(AfterHook, s4, Wake(0), rest);
    evs := PrependStep(AfterHook, s3, SetBit(0), evs);
    evs := PrependStep(AfterHook, s2, Up(0), evs);
    evs := PrependStep(AfterHook, s1, Link(0), evs);
    evs := PrependStep(AfterHook, LateStart(), Down(0, LATE), evs);
  }

  lemma LateFetch(rest: seq<Event>) returns (evs: seq<Event>)
    requires ValidRun(AfterHook, LateFetched(), rest)
    ensures ValidRun(AfterHook, LateHooked(), evs)
    ensures Run(AfterHook, LateHooked(), evs) == Run(AfterHook, LateFetched(), rest)
  {
    hide ValidRun, Run, EntryOf;
    var s1 := LateHooked().(permits := 0, consumer := Testing);
    var s2 := s1.(queue := [], consumer := Taken(EntryOf(LATE)), tested := true);
    assert Step(AfterHook, s2, Release) == LateFetched();
    assert Step(AfterHook, s1, Test) == s2;
    assert Step(AfterHook, LateHooked(), ConsumerDown) == s1;
    hide Step;
    evs := PrependStep(AfterHook, s2, Release, rest);
    evs := PrependStep(AfterHook, s1, Test, evs);
    evs := PrependStep(AfterHook, LateHooked(), ConsumerDown, evs);
  }

  lemma LateLoad()
    ensures EntryOf(LATE).base == 0 && EntryOf(LATE).size == 1
    ensures Enabled(LateFetched(), Load) && Step(AfterHook, LateFetched(), Load) == LateLoaded()
  {
    CloneIsContiguous(0, [1], 0);
    var e := EntryOf(LATE);
    assert ByteFor([0], e, 0) == 0;
    hide ByteFor, EntryOf, CloneSegs, AddrAt, Length;
    assert [] + [ByteFor([0], e, 0)] == [0];
  }

  lemma LateArrives()
    requires EntryOf(LATE).base == 0 && EntryOf(LATE).size == 1
    ensures Enabled(LateLoaded(), Store) && Step(AfterHook, LateLoaded(), Store) == LateStored()
  {
    hide EntryOf;
    assert Splice([0], 0, [0]) == [0];
  }

  lemma LateStore(rest: seq<Event>) returns (evs: seq<Event>)
    requires ValidRun(AfterHook, LateStored(), rest)
    ensures ValidRun(AfterHook, LateFetched(), evs)
    ensures Run(AfterHook, LateFetched(), evs) == Run(AfterHook, LateStored(), rest)
  {
    hide ValidRun, Run, Step, Enabled, LateFetched, LateLoaded, LateStored;
    LateLoad();
    LateArrives();
    evs := PrependStep(AfterHook, LateLoaded(), Store, rest);
    evs := PrependStep(AfterHook, LateFetched(), Load, evs);
  }

  /** The write's one byte is on the RAM disk, its writer gone, its entry stored without it. */
  function LateDone(): State {
    LateStored().(ram := [1], producers := [Outside])
  }

  lemma LateCopy(rest: seq<Event>) returns (evs: seq<Event>)
    requires ValidRun(AfterHook, LateDone(), rest)
    ensures ValidRun(AfterHook, LateStored(), evs)
    ensures Run(AfterHook, LateStored(), evs) == Run(AfterHook, LateDone(), rest)
  {
    hide ValidRun, Run, EntryOf;
    var s1 := LateStored().(ram := [1], producers := [Returning(LATE, 0, 1)]);
    assert [0][0 := 1] == [1];
    assert Step(AfterHook, LateStored(), Put(0)) == s1;
    assert Step(AfterHook, s1, Return(0)) == LateDone();
    hide Step;
    evs := PrependStep(AfterHook, s1, Return(0), rest);
    evs := PrependStep(AfterHook, LateStored(), Put(0), evs);
  }

  /** The entry is fetched, copied and stored between its hook and its own copy. */
  lemma LateAll(rest: seq<Event>) returns (evs: seq<Event>)
    requires ValidRun(AfterHook, LateDone(), rest)
    ensures ValidRun(AfterHook, LateStart(), evs)
    ensures Run(AfterHook, LateStart(), evs) == Run(AfterHook, LateDone(), rest)
  {
    hide Step, ValidRun, Run;
    evs := LateCopy(rest);
    evs := LateStore(evs);
    evs := LateFetch(evs);
    evs := LateHook(evs);
  }

  /** The machine comes to rest with nothing queued, every writer outside, and the backup stale. */
  lemma LateCopyLosesAWrite() returns (evs: seq<Event>)
    ensures Init(LateStart()) && ValidRun(AfterHook, LateStart(), evs)
    ensures var t := Run(AfterHook, LateStart(), evs);
            && t.queue == [] && InFlight(t.consumer) == [] && t.discarded == [] && t.producers == [Outside]
            && t.ram == [1] && t.bak == [0]
  {
    evs := LateAll([]);
  }

  lemma ExitAfterLoss() returns (evs: seq<Event>)
    ensures ValidRun(AfterHook, LateDone(), evs)
    ensures Run(AfterHook, LateDone(), evs) == LateDone().(consumer := Exited, stop := true, closed := true)
  {
    hide ValidRun, EntryOf;
    var s1 := LateDone().(stop := true);
    var s2 := s1.(consumer := Exited);
    var s3 := s2.(closed := true);
    assert Step(AfterHook, s2, Discard) == s3;
    evs := PrependStep(AfterHook, s2, Discard, []);
    evs := PrependStep(AfterHook, s1, Check, evs);
    evs := PrependStep(AfterHook, LateDone(), Stop, evs);
  }

  /** It then shuts down cleanly: every entry ever linked was stored, nothing was thrown away, nobody links any more,
      and the disks differ. */
  lemma CleanExitKeepsTheLoss() returns (evs: seq<Event>)
    ensures Init(LateStart()) && ValidRun(AfterHook, LateStart(), evs) && CleanExit(evs)
    ensures var t := Run(AfterHook, LateStart(), evs);
            && t.closed && t.enqueued == t.stored + t.discarded && t.queue == [] && t.discarded == []
            && t.ram == [1] && t.bak == [0]
  {
    hide Step, ValidRun, Run;
    evs := ExitAfterLoss();
    evs := LateAll(evs);
    CleanFrom(AfterHook, LateStart(), evs);
    assert [EntryOf(LATE)] + [] == [EntryOf(LATE)];
  }
}
