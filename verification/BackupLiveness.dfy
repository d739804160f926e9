/** The backup catches up: work already begun ends, and once it has, every queued entry is on the backup; and a
    shutdown ends. */
module BackupLiveness {
  import opened BackupMachine
  import opened BackupProtocol
  import opened BackupCoherence
  import opened BackupOutcome
  import opened BackupLateCopy

  // ----- how much is left to do -----

  /** Steps a writer may still cause: its own, those of the consumer it wakes, and those its entry needs. */
  function OfWriter(x: Producer): nat {
    match x
    case Outside => 0
    case Holding(w) => 2 * |w.payload| + 26
    case Linked(w, _) => |w.payload| + 19
    case Unlocked(w, _) => |w.payload| + 18
    case Waking(w, _) => |w.payload| + 10
    case Returning(w, _, done) => if done <= |w.payload| then |w.payload| - done + 1 else 1
  }

  function OfWriters(ps: seq<Producer>): nat {
    if ps == [] then 0 else OfWriters(ps[..|ps| - 1]) + OfWriter(ps[|ps| - 1])
  }

  function OfQueue(es: seq<Entry>): nat {
    if es == [] then 0 else OfQueue(es[..|es| - 1]) + 6 + es[|es| - 1].size
  }

  /** Steps to the consumer's next sleep, once around more when the bit is set. */
  function OfConsumer(c: Consumer, bit: bool): nat {
    var b := if bit then 6 else 0;
    match c
    case Exited => 0
    case Asleep(woken) => if woken then 1 + b else 0
    case Waiting => 1 + b
    case FoundEmpty => 2 + b
    case Testing => 3 + b
    case Top => 4 + b
    case Checking => 5 + b
    case Awake => 6
    case Copying(e, got) => 6 + b + if |got| <= e.size then e.size - |got| else 0
    case Taken(e) => 7 + b + e.size
  }

  function Left(s: State): nat {
    OfWriters(s.producers) + OfQueue(s.queue) + OfConsumer(s.consumer, s.bit)
  }

  lemma {:induction false} WriterMoved(ps: seq<Producer>, p: nat, x: Producer)
    requires p < |ps|
    ensures OfWriters(ps[p := x]) + OfWriter(ps[p]) == OfWriters(ps) + OfWriter(x)
    decreases |ps|
  {
    var n := |ps| - 1;
    if p == n {
      assert ps[p := x][..n] == ps[..n];
    } else {
      assert ps[p := x][..n] == ps[..n][p := x];
      WriterMoved(ps[..n], p, x);
    }
  }

  lemma QueueLinked(es: seq<Entry>, e: Entry)
    ensures OfQueue(es + [e]) == OfQueue(es) + 6 + e.size
  {
    assert (es + [e])[..|es|] == es;
  }

  lemma {:induction false} QueueTaken(es: seq<Entry>)
    requires es != []
    ensures OfQueue(es) == OfQueue(es[1..]) + 6 + es[0].size
    decreases |es|
  {
    var n := |es| - 1;
    if n == 0 {
      assert es[..0] == [] && es[1..] == [];
    } else {
      assert es[..n][1..] == es[1..][..n - 1];
      QueueTaken(es[..n]);
    }
  }

  // ----- every finishing step leaves less -----

  lemma WriterStepLeavesLess(mode: CopyPoint, s: State, ev: Event)
    requires Enabled(s, ev) && Finishing(ev) && ByWriter(ev)
    ensures Left(Step(mode, s, ev)) < Left(s)
  {
    var t := Step(mode, s, ev);
    WriterMoved(s.producers, ev.p, t.producers[ev.p]);
    assert t.producers == s.producers[ev.p := t.producers[ev.p]];
    if ev.Link? {
      QueueLinked(s.queue, EntryOf(s.producers[ev.p].w));
    }
    hide OfWriters, OfQueue, Copied, PutByte, ByteFor, CloneSegs;
  }

  lemma ConsumerStepLeavesLess(mode: CopyPoint, s: State, ev: Event)
    requires Enabled(s, ev) && Finishing(ev) && !ByWriter(ev)
    ensures Left(Step(mode, s, ev)) < Left(s)
  {
    if ev.Test? && s.queue != [] {
      QueueTaken(s.queue);
    }
    hide OfWriters, OfQueue, Copied, PutByte, ByteFor, EntryOf;
  }

  lemma StepLeavesLess(mode: CopyPoint, s: State, ev: Event)
    requires Enabled(s, ev) && Finishing(ev)
    ensures Left(Step(mode, s, ev)) < Left(s) && Step(mode, s, ev).stop == s.stop
  {
    if ByWriter(ev) {
      WriterStepLeavesLess(mode, s, ev);
    } else {
      ConsumerStepLeavesLess(mode, s, ev);
    }
    hide Left, Copied, PutByte, ByteFor, EntryOf, Accepted;
  }

  predicate AllFinishing(evs: seq<Event>) {
    forall i :: 0 <= i < |evs| ==> Finishing(evs[i])
  }

  /** Work already begun ends: without new writes, timeouts and a shutdown no run goes on for more than Left steps. */
  lemma {:induction false} FinishingRunsEnd(mode: CopyPoint, s: State, evs: seq<Event>)
    requires ValidRun(mode, s, evs) && AllFinishing(evs)
    ensures |evs| <= Left(s)
    decreases |evs|
  {
    hide Left, Step;
    if evs == [] {
    } else {
      assert Finishing(evs[0]);
      StepLeavesLess(mode, s, evs[0]);
      assert AllFinishing(evs[1..]);
      FinishingRunsEnd(mode, Step(mode, s, evs[0]), evs[1..]);
    }
  }

  /** A run of finishing steps can only end with queue and in-flight slot empty, or with the thread exited. */
  lemma EndsDrained(s: State)
    requires Invariant(s) && !s.stop && forall ev :: Finishing(ev) ==> !Enabled(s, ev)
    ensures s.queue == [] && InFlight(s.consumer) == []
  {
    if s.queue != [] || InFlight(s.consumer) != [] {
      var ev := PendingWorkCanMove(s);
    }
  }

  lemma {:induction false} Drain(mode: CopyPoint, s: State) returns (evs: seq<Event>)
    requires Invariant(s) && !s.stop
    ensures ValidRun(mode, s, evs) && AllFinishing(evs)
    ensures var t := Run(mode, s, evs); t.queue == [] && InFlight(t.consumer) == [] && !t.stop && Invariant(t)
    decreases Left(s)
  {
    if s.queue == [] && InFlight(s.consumer) == [] {
      evs := [];
    } else {
      var ev := PendingWorkCanMove(s);
      StepLeavesLess(mode, s, ev);
      StepKeepsInvariant(mode, s, ev);
      hide Left, Step, Invariant;
      var rest := Drain(mode, Step(mode, s, ev));
      evs := [ev] + rest;
      assert evs[1..] == rest;
    }
  }

  lemma {:induction false} RunJoin(mode: CopyPoint, s: State, a: seq<Event>, b: seq<Event>)
    requires ValidRun(mode, s, a) && ValidRun(mode, Run(mode, s, a), b)
    ensures ValidRun(mode, s, a + b) && Run(mode, s, a + b) == Run(mode, Run(mode, s, a), b)
    decreases |a|
  {
    hide Step, Enabled;
    if a == [] {
      assert a + b == b;
    } else {
      assert (a + b)[1..] == a[1..] + b;
      RunJoin(mode, Step(mode, s, a[0]), a[1..], b);
    }
  }

  /** From every reachable state in which the thread has not been told to stop, some run of finishing steps alone
      empties queue and in-flight slot; with hook and copy as one step it ends with the backup equal to the RAM disk. */
  lemma CatchesUp(mode: CopyPoint, s: State, evs: seq<Event>) returns (more: seq<Event>)
    requires Init(s) && ValidRun(mode, s, evs) && !Run(mode, s, evs).stop
    ensures AllFinishing(more) && ValidRun(mode, Run(mode, s, evs), more)
    ensures var t := Run(mode, Run(mode, s, evs), more);
            && t.queue == [] && InFlight(t.consumer) == []
            && (mode.WithLink? ==> |t.ram| <= |t.bak| && t.bak[..|t.ram|] == t.ram)
  {
    EveryReachableState(mode, s, evs);
    more := Drain(mode, Run(mode, s, evs));
    RunJoin(mode, s, evs, more);
    if mode.WithLink? {
      BackupIsFaithful(s, evs + more);
    }
  }

  // ----- the order of the source: writers first, then the consumer -----

  predicate AllOutside(ps: seq<Producer>) {
    forall p :: 0 <= p < |ps| ==> ps[p].Outside?
  }

  /** A writer past down() can always move. */
  lemma WriterCanMove(s: State, p: nat) returns (ev: Event)
    requires WellFormed(s) && p < |s.producers| && !s.producers[p].Outside?
    ensures Enabled(s, ev) && Finishing(ev) && ByWriter(ev)
  {
    match s.producers[p]
    case Holding(_) => ev := Link(p);
    case Linked(_, _) => ev := Up(p);
    case Unlocked(_, _) => ev := SetBit(p);
    case Waking(_, _) => ev := Wake(p);
    case Returning(w, _, done) => ev := if done < |w.payload| then Put(p) else Return(p);
  }

  lemma {:induction false} InStepJoin(s: State, a: seq<Event>, b: seq<Event>)
    requires ValidRun(AfterHook, s, a) && ValidRun(AfterHook, Run(AfterHook, s, a), b)
    requires InStepThroughout(s, a) && InStepThroughout(Run(AfterHook, s, a), b)
    ensures ValidRun(AfterHook, s, a + b) && InStepThroughout(s, a + b)
    decreases |a|
  {
    hide Step, Enabled, InStep;
    if a == [] {
      assert a + b == b;
    } else {
      assert (a + b)[1..] == a[1..] + b;
      InStepJoin(Step(AfterHook, s, a[0]), a[1..], b);
    }
  }

  /** The run that starts with `ev` and goes on with `rest`, all in step. */
  lemma InStepCons(s: State, ev: Event, rest: seq<Event>) returns (evs: seq<Event>)
    requires Enabled(s, ev) && Finishing(ev) && InStep(s, ev)
    requires ValidRun(AfterHook, Step(AfterHook, s, ev), rest) && AllFinishing(rest)
    requires InStepThroughout(Step(AfterHook, s, ev), rest)
    ensures ValidRun(AfterHook, s, evs) && AllFinishing(evs) && InStepThroughout(s, evs)
    ensures Run(AfterHook, s, evs) == Run(AfterHook, Step(AfterHook, s, ev), rest)
  {
    hide Step;
    evs := [ev] + rest;
    assert evs[1..] == rest;
  }

  lemma {:induction false} WritersFinish(s: State) returns (evs: seq<Event>)
    requires Invariant(s)
    ensures ValidRun(AfterHook, s, evs) && AllFinishing(evs) && InStepThroughout(s, evs)
    ensures var t := Run(AfterHook, s, evs); Invariant(t) && t.stop == s.stop && AllOutside(t.producers)
    decreases Left(s)
  {
    if AllOutside(s.producers) {
      evs := [];
    } else {
      var p :| 0 <= p < |s.producers| && !s.producers[p].Outside?;
      var ev := WriterCanMove(s, p);
      StepLeavesLess(AfterHook, s, ev);
      StepKeepsInvariant(AfterHook, s, ev);
      hide Left, Step, Invariant;
      var rest := WritersFinish(Step(AfterHook, s, ev));
      evs := InStepCons(s, ev, rest);
    }
  }

  lemma OutsideCannotMove(s: State, ev: Event)
    requires Enabled(s, ev) && Finishing(ev) && AllOutside(s.producers)
    ensures !ByWriter(ev) && InStep(s, ev) && Step(AfterHook, s, ev).producers == s.producers
  {
    OthersUnmoved(AfterHook, s, ev);
    hide Copied, PutByte, ByteFor, EntryOf, Back;
  }

  lemma {:induction false} ConsumerFinishes(s: State) returns (evs: seq<Event>)
    requires Invariant(s) && !s.stop && AllOutside(s.producers)
    ensures ValidRun(AfterHook, s, evs) && AllFinishing(evs) && InStepThroughout(s, evs)
    ensures var t := Run(AfterHook, s, evs);
            Invariant(t) && !t.stop && AllOutside(t.producers) && t.queue == [] && InFlight(t.consumer) == []
    decreases Left(s)
  {
    if s.queue == [] && InFlight(s.consumer) == [] {
      evs := [];
    } else {
      var ev := PendingWorkCanMove(s);
      OutsideCannotMove(s, ev);
      StepLeavesLess(AfterHook, s, ev);
      StepKeepsInvariant(AfterHook, s, ev);
      hide Left, Step, Invariant, AllOutside;
      var rest := ConsumerFinishes(Step(AfterHook, s, ev));
      evs := InStepCons(s, ev, rest);
    }
  }

  /** In the order of the source, from every state reached in step and before a shutdown, letting the writers finish and
      then the consumer is in step, ends, and leaves the backup equal to the RAM disk. */
  lemma CatchesUpInStep(s: State, evs: seq<Event>) returns (more: seq<Event>)
    requires Init(s) && ValidRun(AfterHook, s, evs) && InStepThroughout(s, evs) && !Run(AfterHook, s, evs).stop
    ensures AllFinishing(more) && ValidRun(AfterHook, s, evs + more) && InStepThroughout(s, evs + more)
    ensures var t := Run(AfterHook, s, evs + more);
            && AllOutside(t.producers) && t.queue == [] && InFlight(t.consumer) == []
            && |t.ram| <= |t.bak| && t.bak[..|t.ram|] == t.ram
  {
    EveryReachableState(AfterHook, s, evs);
    var m := Run(AfterHook, s, evs);
    var first := WritersFinish(m);
    var second := ConsumerFinishes(Run(AfterHook, m, first));
    more := first + second;
    RunJoin(AfterHook, m, first, second);
    InStepJoin(m, first, second);
    RunJoin(AfterHook, s, evs, more);
    InStepJoin(s, evs, more);
    EveryReachableState(AfterHook, s, evs + more);
    InitHolds(s);
    OpenIsClean(AfterHook, s, evs + more);
    InStepIsCoherent(s, evs + more);
    GuardedIsFaithful(AfterHook, s, evs + more);
  }

  // ----- shutdown -----

  predicate NoNewWrite(evs: seq<Event>) {
    forall i :: 0 <= i < |evs| ==> !evs[i].Down?
  }

  /** Unless the consumer sleeps undisturbed or has exited, some thread can move. */
  lemma SomeoneCanMove(s: State) returns (ev: Event)
    requires Invariant(s) && !s.consumer.Exited? && s.consumer != Asleep(false)
    ensures Finishing(ev) && Enabled(s, ev)
  {
    match s.consumer
    case Top =>
      if s.permits > 0 {
        ev := ConsumerDown;
      } else {
        var p :| 0 <= p < |s.producers| && Inside(s.producers[p]);
        ev := if s.producers[p].Holding? then Link(p) else Up(p);
      }
    case Testing => ev := Test;
    case FoundEmpty => ev := Release;
    case Waiting => ev := Wait;
    case Asleep(woken) => ev := Resume;
    case Awake => ev := Clear;
    case Taken(_) => ev := Release;
    case Copying(e, got) => ev := if |got| < e.size then Load else Store;
    case Checking => ev := Check;
  }

  lemma FirstThen(mode: CopyPoint, s: State, ev: Event, rest: seq<Event>) returns (evs: seq<Event>)
    requires Enabled(s, ev) && !ev.Down? && ValidRun(mode, Step(mode, s, ev), rest) && NoNewWrite(rest)
    ensures ValidRun(mode, s, evs) && NoNewWrite(evs)
    ensures Run(mode, s, evs) == Run(mode, Step(mode, s, ev), rest)
  {
    hide Step;
    evs := [ev] + rest;
    assert evs[1..] == rest;
  }

  lemma CloseExited(mode: CopyPoint, s: State) returns (evs: seq<Event>)
    requires s.consumer.Exited? && !s.closed
    ensures ValidRun(mode, s, evs) && NoNewWrite(evs) && Run(mode, s, evs).closed
  {
    evs := FirstThen(mode, s, Discard, []);
  }

  lemma CloseAsleep(mode: CopyPoint, s: State) returns (evs: seq<Event>)
    requires s.consumer.Asleep? && s.stop && !s.closed
    ensures ValidRun(mode, s, evs) && NoNewWrite(evs) && Run(mode, s, evs).closed
  {
    var s1 := Step(mode, s, Timeout);
    var s2 := Step(mode, s1, Clear);
    var s3 := Step(mode, s2, Check);
    evs := CloseExited(mode, s3);
    hide Step;
    evs := FirstThen(mode, s2, Check, evs);
    evs := FirstThen(mode, s1, Clear, evs);
    evs := FirstThen(mode, s, Timeout, evs);
  }

  lemma FinishingKeepsOpen(mode: CopyPoint, s: State, ev: Event)
    requires Enabled(s, ev) && Finishing(ev)
    ensures Step(mode, s, ev).closed == s.closed
  {
    hide Copied, PutByte, ByteFor, EntryOf, Accepted, Back;
  }

  lemma {:induction false} Close(mode: CopyPoint, s: State) returns (evs: seq<Event>)
    requires Invariant(s) && s.stop && !s.closed
    ensures ValidRun(mode, s, evs) && NoNewWrite(evs) && Run(mode, s, evs).closed
    decreases Left(s)
  {
    if s.consumer.Exited? {
      evs := CloseExited(mode, s);
    } else if s.consumer == Asleep(false) {
      evs := CloseAsleep(mode, s);
    } else {
      var ev := SomeoneCanMove(s);
      StepLeavesLess(mode, s, ev);
      StepKeepsInvariant(mode, s, ev);
      FinishingKeepsOpen(mode, s, ev);
      hide Left, Step, Invariant;
      evs := Close(mode, Step(mode, s, ev));
      evs := FirstThen(mode, s, ev, evs);
    }
  }

  /** A shutdown ends: from every reachable state in which the thread has been told to stop, the thread can exit and the
      queue be cleared without any new write, at the latest when its wait times out. */
  lemma ShutdownEnds(mode: CopyPoint, s: State, evs: seq<Event>) returns (more: seq<Event>)
    requires Init(s) && ValidRun(mode, s, evs) && Run(mode, s, evs).stop
    ensures ValidRun(mode, Run(mode, s, evs), more) && NoNewWrite(more)
    ensures Run(mode, Run(mode, s, evs), more).closed
  {
    EveryReachableState(mode, s, evs);
    var t := Run(mode, s, evs);
    if t.closed {
      more := [];
    } else {
      more := Close(mode, t);
    }
  }
}
