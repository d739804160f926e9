/** The asynchronous backup (bestio/main.c) as a step machine: any number of writers, one consumer thread, a
    semaphore, a condition bit and a wait queue. Every shared access of the source is one step. */
module BackupMachine {
  import opened Bytes

  // ----- queue entries: clones that point into the RAM disk -----

  datatype Seg = Seg(addr: nat, len: nat)

  /** A write request: where it goes, its segment lengths, and the bytes it brings. */
  datatype Write = Write(base: nat, lens: seq<nat>, payload: seq<Byte>)

  /** A clone in the queue: the range on both disks, and segments holding RAM addresses instead of pages. */
  datatype Entry = Entry(base: nat, size: nat, segs: seq<Seg>)

  /** bio_for_each_segment with bio_address advancing: each segment starts where the one before it ended. */
  function CloneSegs(addr: nat, lens: seq<nat>): seq<Seg>
    decreases |lens|
  {
    if lens == [] then [] else [Seg(addr, lens[0])] + CloneSegs(addr + lens[0], lens[1..])
  }

  function EntryOf(w: Write): Entry {
    Entry(w.base, |w.payload|, CloneSegs(w.base, w.lens))
  }

  function Length(segs: seq<Seg>): nat {
    if segs == [] then 0 else segs[0].len + Length(segs[1..])
  }

  /** The RAM address that byte `k` of a clone is copied from. */
  function AddrAt(segs: seq<Seg>, k: nat): nat
    requires k < Length(segs)
    decreases |segs|
  {
    if k < segs[0].len then segs[0].addr + k else AddrAt(segs[1..], k - segs[0].len)
  }

  lemma {:induction false} CloneLength(addr: nat, lens: seq<nat>)
    ensures Length(CloneSegs(addr, lens)) == Sum(lens)
    decreases |lens|
  {
    if lens == [] {
    } else {
      CloneLength(addr + lens[0], lens[1..]);
    }
  }

  /** Read through its segments, a clone covers its range byte by byte. */
  lemma {:induction false} CloneIsContiguous(addr: nat, lens: seq<nat>, k: nat)
    requires k < Sum(lens)
    ensures Length(CloneSegs(addr, lens)) == Sum(lens)
    ensures AddrAt(CloneSegs(addr, lens), k) == addr + k
    decreases |lens|
  {
    CloneLength(addr, lens);
    if lens == [] {
    } else if k >= lens[0] {
      CloneIsContiguous(addr + lens[0], lens[1..], k - lens[0]);
    }
  }

  // ----- states -----

  /** A writer's place in the hook (lines 62-103) and in the copy loop behind it. `ticket` is the number its entry has
      among all entries ever linked, `done` how many of its bytes have reached the RAM disk. */
  datatype Producer =
    | Outside
    | Holding(w: Write)                              // has the semaphore, about to list_add_tail
    | Linked(w: Write, ticket: nat)                  // about to up()
    | Unlocked(w: Write, ticket: nat)                // about to test_and_set_bit
    | Waking(w: Write, ticket: nat)                  // found the bit clear, about to wake_up
    | Returning(w: Write, ticket: nat, done: nat)    // back from the hook, in the copy loop
  {
    function Size(): nat {
      if Outside? then 0 else |w.payload|
    }
  }

  /** The consumer thread's place in its loop (lines 164-187). */
  datatype Consumer =
    | Top                              // about to down()
    | Testing                          // has the semaphore, about to test list_empty
    | FoundEmpty                       // about to up() on the empty branch
    | Waiting                          // about to evaluate the wait condition
    | Asleep(woken: bool)              // in the wait queue
    | Awake                            // about to clear_bit
    | Taken(e: Entry)                  // entry unlinked, about to up()
    | Copying(e: Entry, got: seq<Byte>) // in bestio_q_bio, `got` copied so far
    | Checking                         // about to test kthread_should_stop
    | Exited

  /** When a writer's bytes reach the RAM disk. `WithLink` makes hook and copy one step against the consumer;
      `AfterHook` is the order of ramdisk.c, where the copy loop follows the hook call, byte by byte. */
  datatype CopyPoint = WithLink | AfterHook

  /** `enqueued`, `stored` and `discarded` record entries in the order they were linked, written to the backup, and
      thrown away; `tested` says that the list was tested for emptiness since the bit was last cleared. */
  datatype State = State(
    ram: seq<Byte>, bak: seq<Byte>, queue: seq<Entry>,
    permits: nat, bit: bool, producers: seq<Producer>, consumer: Consumer, stop: bool, closed: bool,
    enqueued: seq<Entry>, stored: seq<Entry>, discarded: seq<Entry>, tested: bool)

  datatype Event =
    | Down(p: nat, w: Write) | Link(p: nat) | Up(p: nat) | SetBit(p: nat) | Wake(p: nat) | Put(p: nat)
    | Return(p: nat)
    | ConsumerDown | Test | Release | Wait | Resume | Timeout | Clear | Load | Store | Check
    | Stop | Discard

  /** The steps of the writers; the others belong to the consumer thread and to the module's exit. */
  predicate ByWriter(ev: Event) {
    ev.Down? || ev.Link? || ev.Up? || ev.SetBit? || ev.Wake? || ev.Put? || ev.Return?
  }

  // ----- steps -----

  /** A request that passed the bounds check of ramdisk.c, with bi_idx 0. */
  predicate Accepted(w: Write, ram: seq<Byte>) {
    Sum(w.lens) == |w.payload| && w.base + |w.payload| <= |ram|
  }

  predicate Enabled(s: State, ev: Event) {
    match ev
    case Down(p, w) =>
      p < |s.producers| && s.producers[p].Outside? && 0 < s.permits && Accepted(w, s.ram)
    case Link(p) => p < |s.producers| && s.producers[p].Holding?
    case Up(p) => p < |s.producers| && s.producers[p].Linked?
    case SetBit(p) => p < |s.producers| && s.producers[p].Unlocked?
    case Wake(p) => p < |s.producers| && s.producers[p].Waking?
    case Put(p) => p < |s.producers| && s.producers[p].Returning? && s.producers[p].done < s.producers[p].Size()
    case Return(p) => p < |s.producers| && s.producers[p].Returning? && s.producers[p].done == s.producers[p].Size()
    case ConsumerDown => s.consumer.Top? && 0 < s.permits
    case Test => s.consumer.Testing?
    case Release => s.consumer.FoundEmpty? || s.consumer.Taken?
    case Wait => s.consumer.Waiting?
    case Resume => s.consumer == Asleep(true)
    case Timeout => s.consumer.Asleep?
    case Clear => s.consumer.Awake?
    case Load => s.consumer.Copying? && |s.consumer.got| < s.consumer.e.size
    case Store => s.consumer.Copying? && |s.consumer.got| == s.consumer.e.size
    case Check => s.consumer.Checking?
    case Stop => true
    case Discard => s.consumer.Exited? && !s.closed
  }

  /** memcpy of a write into the RAM disk. */
  function Copied(ram: seq<Byte>, w: Write): (r: seq<Byte>)
    ensures |r| == |ram|
  {
    if w.base + |w.payload| <= |ram| then Splice(ram, w.base, w.payload) else ram
  }

  /** One byte of that memcpy. */
  function PutByte(ram: seq<Byte>, w: Write, k: nat): (r: seq<Byte>)
    requires k < |w.payload|
    ensures |r| == |ram|
  {
    if w.base + k < |ram| then ram[w.base + k := w.payload[k]] else ram
  }

  /** Back from the hook: how much of the write is already on the RAM disk. */
  function Back(mode: CopyPoint, w: Write, ticket: nat): Producer {
    Returning(w, ticket, if mode.WithLink? then |w.payload| else 0)
  }

  function Step(mode: CopyPoint, s: State, ev: Event): State
    requires Enabled(s, ev)
  {
    match ev
    case Down(p, w) => s.(permits := s.permits - 1, producers := s.producers[p := Holding(w)])
    case Link(p) =>
      var w := s.producers[p].w;
      s.(producers := s.producers[p := Linked(w, |s.enqueued|)],
         queue := s.queue + [EntryOf(w)], enqueued := s.enqueued + [EntryOf(w)],
         ram := if mode.WithLink? then Copied(s.ram, w) else s.ram)
    case Up(p) =>
      var from := s.producers[p];
      s.(permits := s.permits + 1, producers := s.producers[p := Unlocked(from.w, from.ticket)])
    case SetBit(p) =>
      var from := s.producers[p];
      s.(bit := true,
         producers := s.producers[p := if s.bit then Back(mode, from.w, from.ticket) else Waking(from.w, from.ticket)])
    case Wake(p) =>
      var from := s.producers[p];
      s.(producers := s.producers[p := Back(mode, from.w, from.ticket)],
         consumer := if s.consumer.Asleep? then Asleep(true) else s.consumer)
    case Put(p) =>
      var from := s.producers[p];
      s.(producers := s.producers[p := from.(done := from.done + 1)], ram := PutByte(s.ram, from.w, from.done))
    case Return(p) => s.(producers := s.producers[p := Outside])
    case ConsumerDown => s.(permits := s.permits - 1, consumer := Testing)
    case Test =>
      if s.queue == [] then s.(consumer := FoundEmpty, tested := true)
      else s.(consumer := Taken(s.queue[0]), queue := s.queue[1..], tested := true)
    case Release =>
      s.(permits := s.permits + 1, consumer := if s.consumer.Taken? then Copying(s.consumer.e, []) else Waiting)
    case Wait => s.(consumer := if s.bit then Awake else Asleep(false))
    case Resume => s.(consumer := if s.bit then Awake else Asleep(false))
    case Timeout => s.(consumer := Awake)
    case Clear => s.(bit := false, consumer := Checking, tested := false)
    case Load =>
      var (e, got) := (s.consumer.e, s.consumer.got);
      s.(consumer := Copying(e, got + [ByteFor(s.ram, e, |got|)]))
    case Store =>
      var (e, got) := (s.consumer.e, s.consumer.got);
      s.(bak := if e.base + |got| <= |s.bak| then Splice(s.bak, e.base, got) else s.bak,
         stored := s.stored + [e], consumer := Checking)
    case Check => s.(consumer := if s.stop then Exited else Top)
    case Stop => s.(stop := true, consumer := if s.consumer.Asleep? then Asleep(true) else s.consumer)
    case Discard => s.(discarded := s.discarded + s.queue, queue := [], closed := true)
  }

  /** The byte memcpy reads for byte `k` of a clone; every address a clone holds lies on the RAM disk. */
  function ByteFor(ram: seq<Byte>, e: Entry, k: nat): Byte {
    if k < Length(e.segs) && AddrAt(e.segs, k) < |ram| then ram[AddrAt(e.segs, k)] else 0
  }

  /** After backup_init: the disks agree, nothing is queued, every writer is outside. */
  predicate Init(s: State) {
    && |s.ram| <= |s.bak| && s.bak[..|s.ram|] == s.ram
    && s.queue == [] && s.permits == 1 && !s.bit && s.consumer == Top && !s.stop && !s.closed
    && (forall p :: 0 <= p < |s.producers| ==> s.producers[p] == Outside)
    && s.enqueued == [] && s.stored == [] && s.discarded == [] && !s.tested
  }

  predicate ValidRun(mode: CopyPoint, s: State, evs: seq<Event>)
    decreases |evs|
  {
    evs == [] || (Enabled(s, evs[0]) && ValidRun(mode, Step(mode, s, evs[0]), evs[1..]))
  }

  function Run(mode: CopyPoint, s: State, evs: seq<Event>): State
    requires ValidRun(mode, s, evs)
    decreases |evs|
  {
    if evs == [] then s else Run(mode, Step(mode, s, evs[0]), evs[1..])
  }
}
