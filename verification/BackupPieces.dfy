/** The hook on the pieces the linear volume hands to a RAM disk: which of them the backup gets. */
module BackupPieces {
  import opened Bytes
  import opened RamDisk
  import Machine = BackupMachine
  import Device = BackupDevice

  /** No segment is empty. */
  predicate Solid(vecs: seq<BioVec>) {
    forall i :: 0 <= i < |vecs| ==> 0 < vecs[i].len
  }

  /** The lengths bio_for_each_segment goes through for the bytes [k, end) of the segments. */
  function Visited(vecs: seq<BioVec>, k: nat, end: nat): (lens: seq<nat>)
    requires Fit(vecs) && k <= end <= Total(vecs)
    ensures Sum(lens) == end - k
    decreases end - k
  {
    if k == end then [] else var n := Disk.Step(vecs, k, end); [n] + Visited(vecs, k + n, end)
  }

  /** Behind the last byte of a segment comes the first of the next. */
  lemma {:induction false} LocateNext(vecs: seq<BioVec>, k: nat)
    requires Solid(vecs) && k < Total(vecs)
    requires k + (vecs[Locate(vecs, k).0].len - Locate(vecs, k).1) < Total(vecs)
    ensures var (i, o) := Locate(vecs, k); Locate(vecs, k + (vecs[i].len - o)) == (i + 1, 0)
    decreases |vecs|
  {
    assert vecs == [vecs[0]] + vecs[1..];
    if k < vecs[0].len {
      assert Total(vecs) == vecs[0].len + Total(vecs[1..]);
      assert Locate(vecs[1..], 0) == (0, 0);
    } else {
      LocateNext(vecs[1..], k - vecs[0].len);
    }
  }

  /** Either the segment of byte `k` ends before `end` and the next one follows, or it holds the last byte. */
  lemma VisitedStep(vecs: seq<BioVec>, k: nat, end: nat)
    requires Fit(vecs) && Solid(vecs) && k < end <= Total(vecs)
    ensures var n := Disk.Step(vecs, k, end);
            && Visited(vecs, k, end) == [n] + Visited(vecs, k + n, end)
            && if k + n < end then Locate(vecs, k + n).0 == Locate(vecs, k).0 + 1
               else Locate(vecs, end - 1).0 == Locate(vecs, k).0
  {
    var n := Disk.Step(vecs, k, end);
    if k + n < end {
      LocateNext(vecs, k);
    } else {
      LocateRun(vecs, k, n - 1);
    }
  }

  /** The hook fills one slot for each segment from that of the first byte to that of the last. */
  lemma {:induction false} VisitedCount(vecs: seq<BioVec>, k: nat, end: nat)
    requires Fit(vecs) && Solid(vecs) && k < end <= Total(vecs)
    ensures |Visited(vecs, k, end)| == Locate(vecs, end - 1).0 - Locate(vecs, k).0 + 1
    decreases end - k
  {
    var n := Disk.Step(vecs, k, end);
    VisitedStep(vecs, k, end);
    if k + n < end {
      hide Fit, Solid, Total, Locate, Visited;
      VisitedCount(vecs, k + n, end);
    }
  }

  lemma {:induction false} LocateLast(vecs: seq<BioVec>, k: nat)
    requires Solid(vecs) && k < Total(vecs)
    ensures vecs[|vecs| - 1].len <= Total(vecs)
    ensures Locate(vecs, k).0 == |vecs| - 1 <==> Total(vecs) - vecs[|vecs| - 1].len <= k
    decreases |vecs|
  {
    if |vecs| == 1 {
      assert Total(vecs[1..]) == 0;
    } else {
      var rest := vecs[1..];
      assert rest[|rest| - 1] == vecs[|vecs| - 1];
      assert Total(vecs) == vecs[0].len + Total(rest);
      TotalHasLast(rest);
      if k >= vecs[0].len {
        LocateLast(rest, k - vecs[0].len);
      }
    }
  }

  lemma {:induction false} TotalHasLast(vecs: seq<BioVec>)
    requires vecs != []
    ensures vecs[|vecs| - 1].len <= Total(vecs)
    ensures 1 < |vecs| ==> vecs[0].len + vecs[|vecs| - 1].len <= Total(vecs)
    decreases |vecs|
  {
    if 1 < |vecs| {
      TotalHasLast(vecs[1..]);
    }
  }

  /** The bytes [done, done + size) start in the first segment and end in the last. */
  predicate SpansAll(vecs: seq<BioVec>, done: nat, size: nat) {
    vecs != [] && done < vecs[0].len && Total(vecs) - vecs[|vecs| - 1].len < done + size
  }

  /** The hook on a piece: its clone is the piece's entry, and so will reach the backup, if and only if the piece starts
      in the first segment of its bio and ends in the last. */
  method BackupPiece(backup: Device.Backup, piece: Bio) returns (woke: bool)
    requires piece.Valid() && Solid(piece.vecs) && 0 < piece.size && piece.write
    modifies backup`queue, backup`bit
    ensures |backup.queue| == |old(backup.queue)| + 1 && backup.queue[..|old(backup.queue)|] == old(backup.queue)
    ensures var clone := backup.queue[|old(backup.queue)|];
            && (clone.Addressed() <==> SpansAll(piece.vecs, piece.done, piece.size))
            && (clone.Addressed() ==> Machine.Length(clone.Entry().segs) == piece.size)
            && clone.Of(Machine.Write(piece.sector * SECTOR_SIZE,
                                      Visited(piece.vecs, piece.done, piece.done + piece.size), old(piece.Window())))
  {
    var end := piece.done + piece.size;
    SlotsFilled(piece.vecs, piece.done, end);
    hide Fit, Total, Locate, Stream, SpansAll, Solid, Visited;
    var base, idx := piece.sector * SECTOR_SIZE, Locate(piece.vecs, piece.done).0;
    var lens := Visited(piece.vecs, piece.done, end);
    Machine.CloneLength(base, lens);
    hide Machine.CloneSegs, Sum, Machine.Length;
    woke := backup.BackupBio(true, base, |piece.vecs|, idx, lens, piece.Window());
  }

  lemma SlotsFilled(vecs: seq<BioVec>, k: nat, end: nat)
    requires Fit(vecs) && Solid(vecs) && k < end <= Total(vecs)
    ensures Locate(vecs, k).0 + |Visited(vecs, k, end)| <= |vecs|
    ensures Locate(vecs, k).0 == 0 && |Visited(vecs, k, end)| == |vecs| <==> SpansAll(vecs, k, end - k)
  {
    VisitedCount(vecs, k, end);
    LocateLast(vecs, end - 1);
    LocateOrder(vecs, k, end - 1);
    hide Total, Visited, Solid, Fit;
  }

  lemma {:induction false} LocateOrder(vecs: seq<BioVec>, k: nat, m: nat)
    requires k <= m < Total(vecs)
    ensures Locate(vecs, k).0 <= Locate(vecs, m).0
    decreases |vecs|
  {
    if k >= vecs[0].len {
      LocateOrder(vecs[1..], k - vecs[0].len, m - vecs[0].len);
    }
  }

  /** A request cut in two at byte `n`: the front reaches the backup if and only if the cut falls in the last segment,
      the rest if and only if it falls in the first; both do only if there is a single segment. */
  lemma CutPieces(vecs: seq<BioVec>, n: nat)
    requires Solid(vecs) && vecs != [] && 0 < n < Total(vecs)
    ensures SpansAll(vecs, 0, n) <==> Total(vecs) - vecs[|vecs| - 1].len < n
    ensures SpansAll(vecs, n, Total(vecs) - n) <==> n < vecs[0].len
    ensures SpansAll(vecs, 0, n) && SpansAll(vecs, n, Total(vecs) - n) <==> |vecs| == 1
  {
    TotalHasLast(vecs);
    if |vecs| == 1 {
      assert Total(vecs[1..]) == 0;
    }
  }

  /** A bio of two segments of which one byte is left to write: the clone has a null slot, and serving it writes
      nothing. The RAM disk has the byte, the backup does not, and the queue is empty. */
  method AdvancedWriteIsDropped() returns (ram: array<Byte>, backup: Device.Backup)
    ensures backup.queue == [] && ram[..] == [0, 1] && backup.bak[..] == [0, 0]
  {
    ram := new Byte[2](_ => 0);
    var bak := new Byte[2](_ => 0);
    backup := new Device.Backup(bak);
    ghost var w := Machine.Write(1, [1], [1]);
    assert Sum([1]) == 1 + Sum([]);
    var woke := backup.BackupBio(true, 1, 2, 1, [1], [1]);
    ram[1] := 1;
    assert ram[..] == [0, 1] && bak[..] == [0, 0];
    var served := backup.ServeHead(ram, w);
  }
}
