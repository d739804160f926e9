/** Runs on the linear volume, told by requests and replies alone: which complete, and what each read returns. */
module VolumeHistory {
  import opened Bytes
  import opened LinearVolume

  predicate AllAligned(rs: seq<Request>) {
    forall i :: 0 <= i < |rs| ==> rs[i].Aligned()
  }

  /** Byte `x` of the volume after the requests: that of the last completed write that covers it, or the initial one. */
  function Latest(rs: seq<Request>, replies: seq<Reply>, x: nat, initial: Byte): Byte
    requires |rs| == |replies| && AllAligned(rs)
    decreases |rs|
  {
    if rs == [] then initial
    else
      var n := |rs| - 1;
      var at := rs[n].sector * 512;
      if rs[n].write && replies[n].Completed? && at <= x < at + |rs[n].payload| then rs[n].payload[x - at]
      else Latest(rs[..n], replies[..n], x, initial)
  }

  /** The `i`-th reply: the request completes if its last byte lies below both the total and the array's end, and a read
      that does returns for each byte the one last written there before, a write nothing. */
  ghost predicate RepliesRight(total: nat, flat: seq<Byte>, rs: seq<Request>, replies: seq<Reply>, i: nat)
    requires |rs| == |replies| && AllAligned(rs) && i < |rs|
  {
    var r, at := rs[i], rs[i].sector * 512;
    && (replies[i].IoError? <==> !Admits(total, r))
    && (replies[i].Completed? <==> Admits(total, r) && at + r.count * 512 <= |flat|)
    && (replies[i].Completed? ==>
          && |replies[i].bytes| == (if r.write then 0 else r.count * 512)
          && forall k :: 0 <= k < |replies[i].bytes| ==>
               replies[i].bytes[k] == Latest(rs[..i], replies[..i], at + k, flat[at + k]))
  }

  /** One request on one array. */
  lemma FlatStepIs(total: nat, flat: seq<Byte>, r: Request)
    requires r.Aligned()
    ensures var (flat', reply) := FlatStep(total, flat, r); var at := r.sector * 512;
            && |flat'| == |flat|
            && (reply.IoError? <==> !Admits(total, r))
            && (reply.Completed? <==> Admits(total, r) && at + r.count * 512 <= |flat|)
            && (reply.Completed? ==> reply.bytes == if r.write then [] else flat[at..at + r.count * 512])
            && forall x :: 0 <= x < |flat| ==>
                 flat'[x] ==
                 if r.write && reply.Completed? && at <= x < at + |r.payload| then r.payload[x - at] else flat[x]
  {
    hide Admits;
    var at := r.sector * SECTOR_SIZE;
    if r.write && at + r.Size() <= |flat| {
      forall x | 0 <= x < |flat|
        ensures Splice(flat, at, r.payload)[x] == if at <= x < at + |r.payload| then r.payload[x - at] else flat[x]
      {
        SpliceAt(flat, at, r.payload, x);
      }
    }
  }

  lemma RightLater(total: nat, flat: seq<Byte>, rs: seq<Request>, replies: seq<Reply>, i: nat, n: nat)
    requires |rs| == |replies| && AllAligned(rs) && i < n <= |rs|
    requires RepliesRight(total, flat, rs[..n], replies[..n], i)
    ensures RepliesRight(total, flat, rs, replies, i)
  {
    assert rs[..n][..i] == rs[..i] && replies[..n][..i] == replies[..i];
  }

  /** A run on one array holds what its completed writes say, and its replies are right. */
  lemma {:induction false} FlatRunHolds(total: nat, flat: seq<Byte>, rs: seq<Request>)
    requires AllAligned(rs)
    ensures var (flat', replies) := RunFlat(total, flat, rs);
            && |replies| == |rs| && |flat'| == |flat|
            && (forall x :: 0 <= x < |flat| ==> flat'[x] == Latest(rs, replies, x, flat[x]))
            && forall i :: 0 <= i < |rs| ==> RepliesRight(total, flat, rs, replies, i)
    decreases |rs|
  {
    if rs == [] {
    } else {
      var n := |rs| - 1;
      var before, r := rs[..n], rs[n];
      assert rs == before + [r];
      FlatRunHolds(total, flat, before);
      var (mid, earlier) := RunFlat(total, flat, before);
      RunFlatAppend(total, flat, before, r);
      var (flat', reply) := FlatStep(total, mid, r);
      FlatStepIs(total, mid, r);
      hide FlatStep, RunFlat, Admits;
      var replies := earlier + [reply];
      assert replies[..n] == earlier;
      forall i | 0 <= i < |rs| ensures RepliesRight(total, flat, rs, replies, i) {
        if i < n {
          RightLater(total, flat, rs, replies, i, n);
        }
      }
    }
  }

  /** In the volume's own numbers: a request completes if and only if it ends within the children's total modulo 2^32
      bytes. */
  lemma CompletesIff(disks: seq<seq<Byte>>, r: Request)
    requires Addressable(disks) && Representable(r)
    ensures Admits(TotalSize(disks), r) && r.sector * 512 + r.count * 512 <= |Concat(disks)| <==>
            r.sector * 512 + r.count * 512 <= |Concat(disks)| % 0x1_0000_0000
  {
    var end := r.sector * SECTOR_SIZE + r.Size();
    if end < U64 {
      assert (r.sector * SECTOR_SIZE) % U64 == r.sector * SECTOR_SIZE && end % U64 == end;
    }
    assert |Concat(disks)| % U32 <= |Concat(disks)|;
  }

  /** The `i`-th reply in the volume's own numbers. */
  ghost predicate Reads(volume: seq<Byte>, rs: seq<Request>, replies: seq<Reply>, i: nat)
    requires |rs| == |replies| && AllAligned(rs) && i < |rs|
  {
    var at, size := rs[i].sector * 512, rs[i].count * 512;
    && (replies[i].Completed? <==> at + size <= |volume| % 0x1_0000_0000)
    && (replies[i].Completed? && !rs[i].write ==>
          && |replies[i].bytes| == size <= |volume| - at
          && forall k :: 0 <= k < size ==>
               replies[i].bytes[k] == Latest(rs[..i], replies[..i], at + k, volume[at + k]))
  }

  lemma RightReads(disks: seq<seq<Byte>>, rs: seq<Request>, replies: seq<Reply>, i: nat)
    requires |rs| == |replies| && AllAligned(rs) && i < |rs| && Addressable(disks) && Representable(rs[i])
    requires RepliesRight(TotalSize(disks), Concat(disks), rs, replies, i)
    ensures Reads(Concat(disks), rs, replies, i)
  {
    CompletesIff(disks, rs[i]);
    hide Admits, Latest, Concat, TotalSize;
  }

  /** Any run of non-empty requests on the volume. A request completes exactly when it ends within the children's total
      modulo 2^32 bytes; a read that completes returns, byte for byte, what the last completed write before it put
      there, and the initial byte where there is none; and the children, laid end to end, hold the same afterwards. */
  lemma {:induction false} RunReadsLatest(disks: seq<seq<Byte>>, rs: seq<Request>)
    requires Addressable(disks)
    requires forall i :: 0 <= i < |rs| ==> rs[i].Aligned() && Representable(rs[i]) && 0 < rs[i].count
    ensures var (disks', replies) := RunVolume(disks, rs);
            && |replies| == |rs| && SameSizes(disks', disks) && |Concat(disks')| == |Concat(disks)|
            && (forall x :: 0 <= x < |Concat(disks)| ==>
                  Concat(disks')[x] == Latest(rs, replies, x, Concat(disks)[x]))
            && forall i :: 0 <= i < |rs| ==> Reads(Concat(disks), rs, replies, i)
  {
    RunRefinesFlat(disks, rs);
    FlatRunHolds(TotalSize(disks), Concat(disks), rs);
    var (disks', replies) := RunVolume(disks, rs);
    hide RunVolume, RunFlat, Concat, SameSizes, RepliesRight, Reads, Latest, TotalSize, Addressable;
    forall i | 0 <= i < |rs| ensures Reads(Concat(disks), rs, replies, i) {
      RightReads(disks, rs, replies, i);
    }
  }
}
