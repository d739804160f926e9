/** The backup's producer hook, its copy routine and its queue (bestio/main.c) as they update memory in place. */
module BackupDevice {
  import opened Bytes
  import opened BackupMachine
  import opened BackupCoherence
  import opened BackupOutcome

  /** bv_page of a clone: first an address in the RAM disk, later a page holding the copied bytes. */
  datatype Slot = Null | Address(addr: nat) | Copy(bytes: seq<Byte>)

  datatype Vec = Vec(slot: Slot, len: nat)

  /** The segments of a clone whose slots still hold addresses. */
  function SegsOf(vecs: seq<Vec>): seq<Seg>
    requires forall i :: 0 <= i < |vecs| ==> vecs[i].slot.Address?
  {
    if vecs == [] then [] else [Seg(vecs[0].slot.addr, vecs[0].len)] + SegsOf(vecs[1..])
  }

  /** The bytes of the pages, laid end to end: what submit_bio sends. */
  function Payload(vecs: seq<Vec>): seq<Byte>
    requires forall i :: 0 <= i < |vecs| ==> vecs[i].slot.Copy?
  {
    if vecs == [] then [] else vecs[0].slot.bytes + Payload(vecs[1..])
  }

  lemma {:induction false} CloneSegsAppend(addr: nat, lens: seq<nat>, n: nat)
    ensures CloneSegs(addr, lens + [n]) == CloneSegs(addr, lens) + [Seg(addr + Sum(lens), n)]
    decreases |lens|
  {
    if lens == [] {
      assert (lens + [n])[1..] == [];
    } else {
      assert (lens + [n])[1..] == lens[1..] + [n];
      CloneSegsAppend(addr + lens[0], lens[1..], n);
    }
  }

  lemma {:induction false} SegsOfAppend(vecs: seq<Vec>, v: Vec)
    requires v.slot.Address? && forall i :: 0 <= i < |vecs| ==> vecs[i].slot.Address?
    ensures SegsOf(vecs + [v]) == SegsOf(vecs) + [Seg(v.slot.addr, v.len)]
  {
    if vecs == [] {
      assert (vecs + [v])[1..] == [];
    } else {
      assert (vecs + [v])[1..] == vecs[1..] + [v];
      SegsOfAppend(vecs[1..], v);
    }
  }

  lemma {:induction false} PayloadAppend(vecs: seq<Vec>, v: Vec)
    requires v.slot.Copy? && forall i :: 0 <= i < |vecs| ==> vecs[i].slot.Copy?
    ensures Payload(vecs + [v]) == Payload(vecs) + v.slot.bytes
  {
    if vecs == [] {
      assert (vecs + [v])[1..] == [];
    } else {
      assert (vecs + [v])[1..] == vecs[1..] + [v];
      PayloadAppend(vecs[1..], v);
    }
  }

  /** Not yet copied, and if not null then an address on a RAM disk of `n` bytes. */
  predicate Mapped(v: Vec, n: nat) {
    v.slot.Null? || (v.slot.Address? && v.slot.addr + v.len <= n)
  }

  /** A cloned bio: its place on the backup device and its bi_io_vec. */
  class Clone {
    const base: nat
    const size: nat
    const vecs: array<Vec>

    constructor (base: nat, size: nat, count: nat)
      ensures this.base == base && this.size == size && vecs.Length == count && fresh(vecs)
      ensures forall i :: 0 <= i < count ==> vecs[i].slot.Null?
    {
      this.base, this.size := base, size;
      vecs := new Vec[count](_ => Vec(Null, 0));
    }

    ghost predicate Addressed()
      reads vecs
    {
      forall i :: 0 <= i < vecs.Length ==> vecs[i].slot.Address?
    }

    /** What the hook makes of the write `w`: the slots it filled address the write's range, the others are null. */
    ghost predicate Of(w: Write)
      reads vecs
    {
      && base == w.base && size == |w.payload| && |w.lens| <= vecs.Length
      && (forall i :: 0 <= i < |w.lens| ==> vecs[i].slot.Address?)
      && (forall i :: |w.lens| <= i < vecs.Length ==> vecs[i].slot.Null?)
      && SegsOf(vecs[..|w.lens|]) == CloneSegs(w.base, w.lens)
    }

    /** The queue entry this clone is. */
    ghost function Entry(): Entry
      requires Addressed()
      reads vecs
    {
      BackupMachine.Entry(base, size, SegsOf(vecs[..]))
    }
  }

  class Backup {
    const bak: array<Byte>
    var queue: seq<Clone>
    var bit: bool

    constructor (bak: array<Byte>)
      ensures this.bak == bak && queue == [] && !bit
    {
      this.bak, queue, bit := bak, [], false;
    }

    /** bestio_backup_bio: a write is cloned segment by segment and queued; the result says whether the consumer had to
        be woken. A read leaves everything alone. The clone gets as many slots as the bio has segments, `count`, and
        the segments the iterator still visits, from number `idx` on, fill slots from 0 on: the clone is the entry of
        the write exactly when the iterator visits all segments. */
    method BackupBio(write: bool, base: nat, count: nat, idx: nat, lens: seq<nat>, ghost payload: seq<Byte>)
      returns (woke: bool)
      requires |payload| == Sum(lens) && idx + |lens| <= count
      modifies this`queue, this`bit
      ensures !write ==> queue == old(queue) && bit == old(bit) && !woke
      ensures write ==>
                && |queue| == |old(queue)| + 1 && queue[..|old(queue)|] == old(queue)
                && fresh(queue[|old(queue)|]) && fresh(queue[|old(queue)|].vecs)
                && bit && woke == !old(bit)
                && var clone, w := queue[|old(queue)|], Write(base, lens, payload);
                   && clone.Of(w) && clone.vecs.Length == count
                   && (clone.Addressed() <==> idx == 0 && |lens| == count)
                   && (clone.Addressed() ==> clone.Entry() == EntryOf(w))
    {
      woke := false;
      if write {
        var size := Total(lens);
        var clone := new Clone(base, size, count);
        var address, i := base, 0;
        while i < |lens|
          modifies clone.vecs
          invariant 0 <= i <= |lens| && address == base + Sum(lens[..i])
          invariant forall k :: 0 <= k < i ==> clone.vecs[k].slot.Address?
          invariant forall k :: i <= k < count ==> clone.vecs[k].slot.Null?
          invariant SegsOf(clone.vecs[..i]) == CloneSegs(base, lens[..i])
        {
          ghost var before := clone.vecs[..i];
          clone.vecs[i] := Vec(Address(address), lens[i]);
          assert clone.vecs[..i + 1] == before + [Vec(Address(address), lens[i])];
          assert lens[..i + 1] == lens[..i] + [lens[i]];
          SegsOfAppend(before, Vec(Address(address), lens[i]));
          CloneSegsAppend(base, lens[..i], lens[i]);
          SumAppend(lens[..i], lens[i]);
          address := address + lens[i];
          i := i + 1;
        }
        assert lens[..i] == lens;
        assert |lens| < count ==> clone.vecs[|lens|].slot.Null?;
        assert |lens| == count ==> clone.vecs[..|lens|] == clone.vecs[..];
        queue := queue + [clone];
        woke := !bit;
        bit := true;
      }
    }

    /** bi_size of the request. */
    static method Total(lens: seq<nat>) returns (n: nat)
      ensures n == Sum(lens)
    {
      n := 0;
      for i := 0 to |lens|
        invariant n == Sum(lens[..i])
      {
        assert lens[..i + 1] == lens[..i] + [lens[i]];
        SumAppend(lens[..i], lens[i]);
        n := n + lens[i];
      }
      assert lens[..|lens|] == lens;
    }

    /** bestio_q_bio: every address is replaced by a page with the bytes now found there, then the pages are written
        to the backup. A null address stops it with code 1 before anything reaches the backup. */
    method QBio(ram: array<Byte>, clone: Clone) returns (code: int)
      requires ram != bak && clone.base + clone.size <= bak.Length
      requires forall i :: 0 <= i < clone.vecs.Length ==> Mapped(clone.vecs[i], ram.Length)
      requires clone.Addressed() ==> Length(SegsOf(clone.vecs[..])) == clone.size
      modifies clone.vecs, bak
      ensures code == 0 <==> old(clone.Addressed())
      ensures code != 0 ==> code == 1 && bak[..] == old(bak[..])
      ensures code == 0 ==>
                bak[..] == old(Splice(bak[..], clone.base, Fetched(ram[..], SegsOf(clone.vecs[..]))))
    {
      hide SegsOf, Length, Fetched, Payload;
      code := CopyPages(ram, clone.vecs);
      if code == 0 {
        Submit(Payload(clone.vecs[..]), clone.base);
      }
    }

    /** The loop of bestio_q_bio. */
    static method CopyPages(ram: array<Byte>, vecs: array<Vec>) returns (code: int)
      requires forall i :: 0 <= i < vecs.Length ==> Mapped(vecs[i], ram.Length)
      modifies vecs
      ensures code == if exists i :: 0 <= i < vecs.Length && old(vecs[i]).slot.Null? then 1 else 0
      ensures code == 0 ==>
                && (forall i :: 0 <= i < vecs.Length ==> old(vecs[i]).slot.Address? && vecs[i].slot.Copy?)
                && Payload(vecs[..]) == Fetched(ram[..], SegsOf(old(vecs[..])))
    {
      ghost var was := vecs[..];
      var i := 0;
      while i < vecs.Length
        invariant 0 <= i <= vecs.Length
        invariant vecs[i..] == was[i..]
        invariant forall k :: 0 <= k < i ==> was[k].slot.Address? && vecs[k].slot.Copy?
        invariant Payload(vecs[..i]) == Fetched(ram[..], SegsOf(was[..i]))
      {
        if vecs[i].slot.Null? {
          assert was[i] == vecs[i];
          return 1;
        }
        CopyPage(ram, vecs, i, was);
        i := i + 1;
      }
      assert vecs[..i] == vecs[..] && was[..i] == was;
      return 0;
    }

    static method CopyPage(ram: array<Byte>, vecs: array<Vec>, i: nat, ghost was: seq<Vec>)
      requires i < vecs.Length == |was| && vecs[i..] == was[i..]
      requires Mapped(vecs[i], ram.Length) && !vecs[i].slot.Null?
      requires forall k :: 0 <= k < i ==> was[k].slot.Address? && vecs[k].slot.Copy?
      requires Payload(vecs[..i]) == Fetched(ram[..], SegsOf(was[..i]))
      modifies vecs
      ensures vecs[i + 1..] == was[i + 1..] && was[i].slot.Address?
      ensures forall k :: 0 <= k <= i ==> vecs[k].slot.Copy?
      ensures Payload(vecs[..i + 1]) == Fetched(ram[..], SegsOf(was[..i + 1]))
    {
      hide SegsOf, Fetched, Payload;
      ghost var before := vecs[..i];
      var v := vecs[i];
      assert v == was[i..][0] == was[i];
      var page := Vec(Copy(ram[v.slot.addr..v.slot.addr + v.len]), v.len);
      vecs[i] := page;
      assert vecs[..i + 1] == before + [page] && was[..i + 1] == was[..i] + [v];
      PayloadAppend(before, page);
      SegsOfAppend(was[..i], v);
      FetchedAppend(ram[..], SegsOf(was[..i]), Seg(v.slot.addr, v.len));
      assert ram[..][v.slot.addr..v.slot.addr + v.len] == page.slot.bytes;
      assert vecs[i + 1..] == was[i..][1..];
    }

    /** submit_bio and the wait for its completion. */
    method Submit(payload: seq<Byte>, base: nat)
      requires base + |payload| <= bak.Length
      modifies bak
      ensures bak[..] == Splice(old(bak[..]), base, payload)
    {
      forall k | 0 <= k < |payload| {
        bak[base + k] := payload[k];
      }
    }

    /** The loop body of bestio_backup_thread, run without interruption: with an empty queue there is nothing to do,
        otherwise the head leaves the queue. Its range of the RAM disk, as it is now, reaches the backup exactly when
        the hook filled every slot; otherwise the copy stops at the first null slot and the write is dropped. */
    method ServeHead(ram: array<Byte>, ghost w: Write) returns (served: bool)
      requires ram != bak && ram.Length <= bak.Length
      requires queue != [] ==> Accepted(w, ram[..]) && queue[0].Of(w)
      modifies this`queue, bak, if queue == [] then {} else {queue[0].vecs}
      ensures served <==> old(queue) != []
      ensures !served ==> queue == old(queue) && bak[..] == old(bak[..])
      ensures served ==>
                && queue == old(queue)[1..]
                && bak[..] == if |w.lens| == old(queue)[0].vecs.Length
                              then Splice(old(bak[..]), w.base, Slice(ram[..], w.base, |w.payload|))
                              else old(bak[..])
    {
      if queue == [] {
        return false;
      }
      var head := queue[0];
      queue := queue[1..];
      ghost var filled := head.vecs[..|w.lens|];
      CloneLength(w.base, w.lens);
      AddressesInside(filled, w.base, w.lens, ram.Length);
      FetchedClone(ram[..], w.base, w.lens);
      assert forall i :: 0 <= i < |w.lens| ==> head.vecs[i] == filled[i];
      assert |w.lens| < head.vecs.Length ==> head.vecs[|w.lens|].slot.Null?;
      assert |w.lens| == head.vecs.Length ==> head.vecs[..] == filled;
      hide SegsOf, Length, Fetched, CloneSegs, Splice;
      var code := QBio(ram, head);
      return true;
    }
  }

  /** Every address of a clone of an accepted write lies on the RAM disk. */
  lemma {:induction false} AddressesInside(vecs: seq<Vec>, addr: nat, lens: seq<nat>, n: nat)
    requires forall i :: 0 <= i < |vecs| ==> vecs[i].slot.Address?
    requires SegsOf(vecs) == CloneSegs(addr, lens) && addr + Sum(lens) <= n
    ensures forall i :: 0 <= i < |vecs| ==> vecs[i].slot.addr + vecs[i].len <= n
    decreases |vecs|
  {
    if vecs != [] {
      assert SegsOf(vecs)[0] == CloneSegs(addr, lens)[0] && SegsOf(vecs)[1..] == CloneSegs(addr, lens)[1..];
      AddressesInside(vecs[1..], addr + lens[0], lens[1..], n);
      forall i | 0 <= i < |vecs| ensures vecs[i].slot.addr + vecs[i].len <= n {
        if i > 0 {
          assert vecs[i] == vecs[1..][i - 1];
        }
      }
    }
  }

  /** The bytes found at a clone's addresses. */
  function Fetched(ram: seq<Byte>, segs: seq<Seg>): (bytes: seq<Byte>)
    ensures |bytes| == Length(segs)
  {
    if segs == [] then [] else FetchedAt(ram, segs[0].addr, segs[0].len) + Fetched(ram, segs[1..])
  }

  function FetchedAt(ram: seq<Byte>, addr: nat, n: nat): (bytes: seq<Byte>)
    ensures |bytes| == n
  {
    if addr + n <= |ram| then ram[addr..addr + n] else seq(n, _ => 0)
  }

  lemma {:induction false} FetchedAppend(ram: seq<Byte>, segs: seq<Seg>, v: Seg)
    ensures Fetched(ram, segs + [v]) == Fetched(ram, segs) + FetchedAt(ram, v.addr, v.len)
  {
    if segs == [] {
      assert (segs + [v])[1..] == [];
    } else {
      assert (segs + [v])[1..] == segs[1..] + [v];
      FetchedAppend(ram, segs[1..], v);
    }
  }

  /** Gathering a clone's segments yields the one contiguous range of the RAM disk the request names. */
  lemma {:induction false} FetchedClone(ram: seq<Byte>, addr: nat, lens: seq<nat>)
    requires addr + Sum(lens) <= |ram|
    ensures Fetched(ram, CloneSegs(addr, lens)) == Slice(ram, addr, Sum(lens))
    decreases |lens|
  {
    if lens == [] {
    } else {
      FetchedClone(ram, addr + lens[0], lens[1..]);
      var segs := CloneSegs(addr, lens);
      assert segs[0] == Seg(addr, lens[0]) && segs[1..] == CloneSegs(addr + lens[0], lens[1..]);
      assert ram[addr..addr + lens[0]] + ram[addr + lens[0]..addr + Sum(lens)] == ram[addr..addr + Sum(lens)];
    }
  }

  /** The state in which the consumer has copied `n` more bytes of its entry's range. */
  function Loaded(s: State, n: nat): State
    requires s.consumer.Copying? && s.consumer.e.base + |s.consumer.got| + n <= |s.ram|
  {
    s.(consumer := Copying(s.consumer.e,
                           s.consumer.got + Slice(s.ram, s.consumer.e.base + |s.consumer.got|, n)))
  }

  lemma LoadedNext(s: State, n: nat)
    requires WellFormed(s) && s.consumer.Copying? && 0 < n && |s.consumer.got| + n <= s.consumer.e.size
    ensures Enabled(s, Load)
    ensures var t := Step(AfterHook, s, Load);
            && WellFormed(t) && t.consumer.Copying? && t.consumer.e == s.consumer.e && t.ram == s.ram
            && |t.consumer.got| == |s.consumer.got| + 1
            && Loaded(t, n - 1) == Loaded(s, n)
  {
    StepKeepsWellFormed(AfterHook, s, Load);
    var e, got := s.consumer.e, s.consumer.got;
    var at := e.base + |got|;
    assert AddrAt(e.segs, |got|) == at;
    assert Slice(s.ram, at, n) == [s.ram[at]] + Slice(s.ram, at + 1, n - 1);
    assert got + [s.ram[at]] + Slice(s.ram, at + 1, n - 1) == got + ([s.ram[at]] + Slice(s.ram, at + 1, n - 1));
  }

  /** The machine's byte-wise copy, when nothing interferes, is the same: `n` loads fetch the next `n` bytes of the
      entry's range. */
  lemma {:induction false} LoadsFetchRange(s: State, n: nat) returns (evs: seq<Event>)
    requires WellFormed(s) && s.consumer.Copying? && |s.consumer.got| + n <= s.consumer.e.size
    ensures s.consumer.e.base + |s.consumer.got| + n <= |s.ram|
    ensures ValidRun(AfterHook, s, evs) && Run(AfterHook, s, evs) == Loaded(s, n)
    decreases n
  {
    assert s.consumer.e.base + s.consumer.e.size <= |s.ram|;
    if n == 0 {
      evs := [];
      assert s.consumer.got + [] == s.consumer.got;
    } else {
      hide Step, Run, ValidRun, Enabled, Loaded, WellFormed;
      LoadedNext(s, n);
      evs := LoadsFetchRange(Step(AfterHook, s, Load), n - 1);
      evs := PrependStep(AfterHook, s, Load, evs);
    }
  }
}
