/** What every step of the backup machine keeps: mutual exclusion, wake-ups, and the order of entries. */
module BackupProtocol {
  import opened Bytes
  import opened BackupMachine

  // ----- the semaphore -----

  predicate Inside(p: Producer) {
    p.Holding? || p.Linked?
  }

  predicate ConsumerInside(c: Consumer) {
    c.Testing? || c.FoundEmpty? || c.Taken?
  }

  /** Nobody is inside when the semaphore is free, and exactly one thread is when it is not. */
  ghost predicate Mutex(s: State) {
    && s.permits <= 1
    && (s.permits == 1 ==> !ConsumerInside(s.consumer))
    && (forall p :: 0 <= p < |s.producers| && Inside(s.producers[p]) ==> s.permits == 0 && !ConsumerInside(s.consumer))
    && (forall p, q :: 0 <= p < q < |s.producers| ==> !(Inside(s.producers[p]) && Inside(s.producers[q])))
    && (s.permits == 0 ==> ConsumerInside(s.consumer) || exists p :: 0 <= p < |s.producers| && Inside(s.producers[p]))
  }

  lemma StepKeepsMutex(mode: CopyPoint, s: State, ev: Event)
    requires Mutex(s) && Enabled(s, ev)
    ensures Mutex(Step(mode, s, ev))
  {
    if ByWriter(ev) {
      WriterKeepsMutex(mode, s, ev);
    } else {
      var t := Step(mode, s, ev);
      assert t.producers == s.producers;
      if ConsumerInside(s.consumer) && !ConsumerInside(t.consumer) {
        assert t.permits == 1;
      }
    }
  }

  lemma WriterKeepsMutex(mode: CopyPoint, s: State, ev: Event)
    requires Mutex(s) && Enabled(s, ev) && ByWriter(ev)
    ensures Mutex(Step(mode, s, ev))
  {
    var t := Step(mode, s, ev);
    assert ConsumerInside(t.consumer) == ConsumerInside(s.consumer);
    assert t.permits == if ev.Down? then 0 else if ev.Up? then 1 else s.permits by {
      if ev.Up? {
        assert Inside(s.producers[ev.p]);
      }
    }
    assert forall q :: 0 <= q < |s.producers| ==>
             Inside(t.producers[q]) == if q == ev.p then ev.Down? || ev.Link? else Inside(s.producers[q]);
    if t.permits == 0 && !ConsumerInside(t.consumer) {
      if ev.Down? || ev.Link? {
        assert Inside(t.producers[ev.p]);
      } else {
        var p :| 0 <= p < |s.producers| && Inside(s.producers[p]);
        assert Inside(t.producers[p]);
      }
    }
  }

  // ----- the condition bit -----

  /** The writer has linked its entry and not yet set the bit. */
  predicate Announcing(p: Producer) {
    p.Linked? || p.Unlocked?
  }

  ghost predicate SomeAnnouncing(ps: seq<Producer>) {
    exists p :: 0 <= p < |ps| && Announcing(ps[p])
  }

  ghost predicate SomeWaking(ps: seq<Producer>) {
    exists p :: 0 <= p < |ps| && ps[p].Waking?
  }

  /** With work queued, a consumer about to wait or asleep has the bit set or a writer about to set it; a sleeper
      with the bit set has been woken or is about to be; and nobody waits without a test of the list since the last
      clear. */
  ghost predicate WakeUp(s: State) {
    && (s.consumer.FoundEmpty? ==> s.queue == [])
    && (s.consumer.Waiting? || s.consumer.Asleep? ==> s.queue == [] || s.bit || SomeAnnouncing(s.producers))
    && (s.consumer == Asleep(false) ==> !s.bit || SomeWaking(s.producers))
    && (s.consumer.FoundEmpty? || s.consumer.Waiting? || s.consumer.Asleep? || s.consumer.Awake? ==> s.tested)
  }

  /** One writer moves on: it may itself announce or wake, and the others still do if they did. */
  lemma WriterMoves(ps: seq<Producer>, p: nat, x: Producer)
    requires p < |ps|
    ensures Announcing(x) || (SomeAnnouncing(ps) && !Announcing(ps[p])) ==> SomeAnnouncing(ps[p := x])
    ensures x.Waking? || (SomeWaking(ps) && !ps[p].Waking?) ==> SomeWaking(ps[p := x])
  {
    var qs := ps[p := x];
    assert qs[p] == x;
    if SomeAnnouncing(ps) && !Announcing(ps[p]) {
      var q :| 0 <= q < |ps| && Announcing(ps[q]);
      assert qs[q] == ps[q];
    }
    if SomeWaking(ps) && !ps[p].Waking? {
      var q :| 0 <= q < |ps| && ps[q].Waking?;
      assert qs[q] == ps[q];
    }
  }

  lemma StepKeepsWakeUp(mode: CopyPoint, s: State, ev: Event)
    requires Mutex(s) && WakeUp(s) && Enabled(s, ev)
    ensures WakeUp(Step(mode, s, ev))
  {
    hide SomeAnnouncing, SomeWaking, Copied, ByteFor, EntryOf, Splice;
    if ByWriter(ev) {
      WriterMoves(s.producers, ev.p, Step(mode, s, ev).producers[ev.p]);
    }
  }

  /** Threads other than new writers, and no clock and no shutdown: the steps that finish work already begun. */
  predicate Finishing(ev: Event) {
    !ev.Down? && !ev.Timeout? && !ev.Stop? && !ev.Discard?
  }

  /** While an entry is queued or in flight and the consumer lives, some thread can move without waiting for a timeout
      or for a new write. */
  lemma PendingWorkCanMove(s: State) returns (ev: Event)
    requires Mutex(s) && WakeUp(s) && (s.queue != [] || InFlight(s.consumer) != []) && !s.consumer.Exited?
    requires s.consumer.Copying? ==> |s.consumer.got| <= s.consumer.e.size
    ensures Finishing(ev) && Enabled(s, ev)
  {
    match s.consumer
    case Testing => ev := Test;
    case FoundEmpty => ev := Release;
    case Taken(_) => ev := Release;
    case Waiting => ev := Wait;
    case Awake => ev := Clear;
    case Copying(e, got) => ev := if |got| < e.size then Load else Store;
    case Checking => ev := Check;
    case Top =>
      if s.permits > 0 {
        ev := ConsumerDown;
      } else {
        var p :| 0 <= p < |s.producers| && Inside(s.producers[p]);
        ev := if s.producers[p].Holding? then Link(p) else Up(p);
      }
    case Asleep(woken) =>
      if woken {
        ev := Resume;
      } else if SomeWaking(s.producers) {
        var p :| 0 <= p < |s.producers| && s.producers[p].Waking?;
        ev := Wake(p);
      } else {
        var p :| 0 <= p < |s.producers| && Announcing(s.producers[p]);
        ev := if s.producers[p].Linked? then Up(p) else SetBit(p);
      }
  }

  // ----- order -----

  function InFlight(c: Consumer): seq<Entry> {
    if c.Taken? || c.Copying? then [c.e] else []
  }

  function Ledger(stored: seq<Entry>, moving: seq<Entry>, discarded: seq<Entry>, queue: seq<Entry>): seq<Entry> {
    stored + moving + discarded + queue
  }

  /** What was linked is, in this order, what was stored, what is being stored, what was thrown away at exit, and what
      is still queued. */
  predicate InOrder(s: State) {
    s.enqueued == Ledger(s.stored, InFlight(s.consumer), s.discarded, s.queue)
  }

  /** Entries are thrown away only once the consumer has exited, which it does only when told to stop. */
  predicate ClosedLast(s: State) {
    (s.discarded != [] ==> s.closed) && (s.closed ==> s.consumer.Exited?) && (s.consumer.Exited? ==> s.stop)
  }

  lemma StepKeepsClosedLast(mode: CopyPoint, s: State, ev: Event)
    requires ClosedLast(s) && Enabled(s, ev)
    ensures ClosedLast(Step(mode, s, ev))
  {
  }

  lemma LedgerLink(a: seq<Entry>, b: seq<Entry>, c: seq<Entry>, d: seq<Entry>, e: Entry)
    ensures Ledger(a, b, c, d + [e]) == Ledger(a, b, c, d) + [e]
  {
  }

  lemma LedgerTake(a: seq<Entry>, d: seq<Entry>)
    requires d != []
    ensures Ledger(a, [d[0]], [], d[1..]) == Ledger(a, [], [], d)
  {
  }

  lemma LedgerStore(a: seq<Entry>, b: seq<Entry>, c: seq<Entry>, d: seq<Entry>)
    ensures Ledger(a + b, [], c, d) == Ledger(a, b, c, d)
  {
    assert a + b + [] == a + b;
  }

  lemma LedgerDiscard(a: seq<Entry>, b: seq<Entry>, c: seq<Entry>, d: seq<Entry>)
    ensures Ledger(a, b, c + d, []) == Ledger(a, b, c, d)
  {
  }

  lemma StepKeepsInOrder(mode: CopyPoint, s: State, ev: Event)
    requires InOrder(s) && ClosedLast(s) && Enabled(s, ev)
    ensures InOrder(Step(mode, s, ev))
  {
    hide Ledger, Copied, ByteFor, EntryOf, Splice;
    var moving := InFlight(s.consumer);
    match ev
    case Link(p) => LedgerLink(s.stored, moving, s.discarded, s.queue, EntryOf(s.producers[p].w));
    case Test =>
      if s.queue != [] {
        LedgerTake(s.stored, s.queue);
      }
    case Store => LedgerStore(s.stored, moving, s.discarded, s.queue);
    case Discard => LedgerDiscard(s.stored, moving, s.discarded, s.queue);
    case _ =>
  }
}
