/** The heartbeat failure detector (dmbd_hb.c): per-peer flags, the persisted state map, and the notices sent. */
module Heartbeat {

  const CONNECT: int := 0
  const DISCONNECT: int := 1

  /** A server_node, as far as heartbeats go. The flag is a C int from malloc, so its first value is arbitrary. */
  datatype Node = Node(ip: string, hbTime: int, disconnect: int)

  /** The strings "connect" and "disconnect" of the hb_state file. */
  datatype Link = Connected | Disconnected

  /** The HB_DOWN ioctl, and the silent return of an entry to "connect". */
  datatype Notice = HbDown(ip: string) | Restored(ip: string)

  /** Nodes, the hb_state file, and all notices so far. */
  datatype Monitor = Monitor(nodes: seq<Node>, file: map<string, Link>, log: seq<Notice>)

  /** What one pass reads: the clock before it, the datagram's text ("" when none came), the clock on receipt, and
      the gateway ping each node's timeout would see. */
  datatype Input = Input(hbC: int, sender: string, now: int, ping: nat -> int)

  // ----- the timeout test -----

  function Truncated(x: int, d: nat): int
    requires 0 < d
  {
    if x >= 0 then x / d else -(-x / d)
  }

  function Abs(x: int): nat {
    if x < 0 then -x else x
  }

  /** Line 368: the quotient is a double, but abs takes an int, so it is truncated before it is compared with 10. */
  predicate TimedOut(hbC: int, hbTime: int) {
    Abs(Truncated(hbC - hbTime, 1000)) > 10
  }

  lemma TimedOutIff(hbC: int, hbTime: int)
    ensures TimedOut(hbC, hbTime) <==> Abs(hbC - hbTime) >= 11000
  {
  }

  // ----- one pass -----

  /** The first loop: the sender's own entry gets a fresh time stamp. */
  function Received(nodes: seq<Node>, my: string, sender: string, now: int): (r: seq<Node>)
    ensures |r| == |nodes|
  {
    seq(|nodes|, k requires 0 <= k < |nodes| =>
      if nodes[k].ip != my && nodes[k].ip == sender then nodes[k].(hbTime := now) else nodes[k])
  }

  /** A missed heartbeat that the gateway ping does not confirm ends the pass. */
  predicate Vetoes(n: Node, my: string, hbC: int, ping: int) {
    n.ip != my && TimedOut(hbC, n.hbTime) && ping < 0
  }

  /** The second loop's body for node `k`, when it does not end the pass. */
  function Visit(m: Monitor, k: nat, my: string, hbC: int): Monitor
    requires k < |m.nodes|
  {
    var n := m.nodes[k];
    if n.ip == my then m
    else if TimedOut(hbC, n.hbTime) then
      var m' := m.(nodes := m.nodes[k := n.(disconnect := DISCONNECT)]);
      if n.ip in m.file && m.file[n.ip].Connected? then
        m'.(file := m.file[n.ip := Disconnected], log := m.log + [HbDown(n.ip)])
      else m'
    else if n.disconnect == DISCONNECT then
      var m' := m.(nodes := m.nodes[k := n.(disconnect := CONNECT)]);
      if n.ip in m.file && m.file[n.ip].Disconnected? then
        m'.(file := m.file[n.ip := Connected], log := m.log + [Restored(n.ip)])
      else m'
    else m
  }

  function Sweep(m: Monitor, k: nat, my: string, hbC: int, ping: nat -> int): Monitor
    decreases |m.nodes| - k
  {
    if k >= |m.nodes| || Vetoes(m.nodes[k], my, hbC, ping(k)) then m
    else Sweep(Visit(m, k, my, hbC), k + 1, my, hbC, ping)
  }

  /** hb_receive. */
  function Pass(m: Monitor, my: string, i: Input): Monitor {
    Sweep(m.(nodes := Received(m.nodes, my, i.sender, i.now)), 0, my, i.hbC, i.ping)
  }

  function Run(m: Monitor, my: string, inputs: seq<Input>): Monitor
    decreases |inputs|
  {
    if inputs == [] then m else Run(Pass(m, my, inputs[0]), my, inputs[1..])
  }

  // ----- what a pass does to each peer -----

  predicate Distinct(nodes: seq<Node>) {
    forall j, k :: 0 <= j < k < |nodes| ==> nodes[j].ip != nodes[k].ip
  }

  /** Peers have addresses of their own, and the file has an entry for each. */
  predicate Listed(m: Monitor) {
    Distinct(m.nodes) && forall k :: 0 <= k < |m.nodes| ==> m.nodes[k].ip in m.file
  }

  /** The node at which the pass ends: the first one that vetoes, or the number of nodes. */
  function EndOf(nodes: seq<Node>, k: nat, my: string, hbC: int, ping: nat -> int): (e: nat)
    requires k <= |nodes|
    ensures k <= e <= |nodes|
    ensures forall j :: k <= j < e ==> !Vetoes(nodes[j], my, hbC, ping(j))
    ensures e < |nodes| ==> Vetoes(nodes[e], my, hbC, ping(e))
    decreases |nodes| - k
  {
    if k == |nodes| || Vetoes(nodes[k], my, hbC, ping(k)) then k else EndOf(nodes, k + 1, my, hbC, ping)
  }

  /** The flag a visited peer ends up with. */
  function FlagAfter(n: Node, hbC: int): int {
    if TimedOut(hbC, n.hbTime) then DISCONNECT else if n.disconnect == DISCONNECT then CONNECT else n.disconnect
  }

  /** The file entry a visited peer ends up with. */
  function LinkAfter(n: Node, link: Link, hbC: int): Link {
    if TimedOut(hbC, n.hbTime) then Disconnected else if n.disconnect == DISCONNECT then Connected else link
  }

  predicate Visited(m: Monitor, k: nat, from: nat, end: nat, my: string) {
    from <= k < end && k < |m.nodes| && m.nodes[k].ip != my
  }

  lemma VisitOne(m: Monitor, k: nat, my: string, hbC: int)
    requires Listed(m) && k < |m.nodes|
    ensures var m' := Visit(m, k, my, hbC); var n := m.nodes[k];
            && Listed(m') && m'.file.Keys == m.file.Keys
            && m'.nodes == m.nodes[k := if n.ip == my then n else n.(disconnect := FlagAfter(n, hbC))]
            && m'.file == m.file[n.ip := if n.ip == my then m.file[n.ip] else LinkAfter(n, m.file[n.ip], hbC)]
  {
  }

  /** From `m` to `m'` peer `j` got the flag and the file entry its time stamp demands, or, if it was not visited, kept
      what it had. */
  predicate PeerOutcome(m: Monitor, m': Monitor, j: nat, visited: bool, hbC: int)
    requires Listed(m) && j < |m.nodes|
  {
    var n := m.nodes[j];
    && Listed(m') && m'.file.Keys == m.file.Keys && |m'.nodes| == |m.nodes|
    && m'.nodes[j] == (if visited then n.(disconnect := FlagAfter(n, hbC)) else n)
    && m'.file[n.ip] == (if visited then LinkAfter(n, m.file[n.ip], hbC) else m.file[n.ip])
  }

  lemma VisitPeer(m: Monitor, k: nat, my: string, hbC: int, j: nat)
    requires Listed(m) && k < |m.nodes| && j < |m.nodes|
    ensures PeerOutcome(m, Visit(m, k, my, hbC), j, j == k && m.nodes[j].ip != my, hbC)
  {
    hide Visit, FlagAfter, LinkAfter;
    VisitOne(m, k, my, hbC);
  }

  lemma NotVisited(m: Monitor, j: nat, hbC: int)
    requires Listed(m) && j < |m.nodes|
    ensures PeerOutcome(m, m, j, false, hbC)
  {
  }

  lemma OutcomesCompose(m: Monitor, m1: Monitor, m2: Monitor, j: nat, first: bool, second: bool, hbC: int)
    requires Listed(m) && j < |m.nodes| && PeerOutcome(m, m1, j, first, hbC)
    requires PeerOutcome(m1, m2, j, second, hbC) && !(first && second)
    ensures PeerOutcome(m, m2, j, first || second, hbC) && m1.nodes[j].ip == m.nodes[j].ip
  {
    hide FlagAfter, LinkAfter;
  }

  /** Peer by peer: up to the end of the pass every peer gets the flag and the file entry its time stamp demands;
      from there on, and for the local node, nothing changes. */
  lemma {:induction false} SweepPerPeer(m: Monitor, from: nat, my: string, hbC: int, ping: nat -> int, j: nat)
    requires Listed(m) && from <= |m.nodes| && j < |m.nodes|
    ensures PeerOutcome(m, Sweep(m, from, my, hbC, ping), j,
                        Visited(m, j, from, EndOf(m.nodes, from, my, hbC, ping), my), hbC)
    decreases |m.nodes| - from
  {
    hide Visit, PeerOutcome;
    if from < |m.nodes| && !Vetoes(m.nodes[from], my, hbC, ping(from)) {
      var m1 := Visit(m, from, my, hbC);
      VisitPeer(m, from, my, hbC, j);
      VisitKeepsListed(m, from, my, hbC);
      OthersUnmoved(m, from, my, hbC);
      hide Listed;
      SweepPerPeer(m1, from + 1, my, hbC, ping, j);
      EndUnmoved(m.nodes, m1.nodes, from + 1, my, hbC, ping);
      OutcomesCompose(m, m1, Sweep(m1, from + 1, my, hbC, ping), j, j == from && m.nodes[j].ip != my,
                      Visited(m1, j, from + 1, EndOf(m1.nodes, from + 1, my, hbC, ping), my), hbC);
    } else {
      NotVisited(m, j, hbC);
    }
  }

  lemma VisitKeepsListed(m: Monitor, k: nat, my: string, hbC: int)
    requires Listed(m) && k < |m.nodes|
    ensures Listed(Visit(m, k, my, hbC)) && |Visit(m, k, my, hbC).nodes| == |m.nodes|
  {
    VisitOne(m, k, my, hbC);
  }

  lemma OthersUnmoved(m: Monitor, k: nat, my: string, hbC: int)
    requires k < |m.nodes|
    ensures var nodes := Visit(m, k, my, hbC).nodes;
            |nodes| == |m.nodes| && forall j :: 0 <= j < |nodes| && j != k ==> nodes[j] == m.nodes[j]
  {
  }

  lemma {:induction false} EndUnmoved(a: seq<Node>, b: seq<Node>, k: nat, my: string, hbC: int, ping: nat -> int)
    requires |a| == |b| && k <= |a| && forall j :: k <= j < |a| ==> a[j] == b[j]
    ensures EndOf(a, k, my, hbC, ping) == EndOf(b, k, my, hbC, ping)
    decreases |a| - k
  {
    if k < |a| {
      EndUnmoved(a, b, k + 1, my, hbC, ping);
    }
  }

  /** The node after the first loop, whose time stamp the second loop judges. */
  function Stamped(m: Monitor, my: string, i: Input, k: nat): Node
    requires k < |m.nodes|
  {
    Received(m.nodes, my, i.sender, i.now)[k]
  }

  function EndOfPass(m: Monitor, my: string, i: Input): nat {
    EndOf(Received(m.nodes, my, i.sender, i.now), 0, my, i.hbC, i.ping)
  }

  lemma PassPerPeer(m: Monitor, my: string, i: Input, k: nat)
    requires Listed(m) && k < |m.nodes|
    ensures var m' := Pass(m, my, i); var n := Stamped(m, my, i, k);
            && Listed(m') && m'.file.Keys == m.file.Keys && |m'.nodes| == |m.nodes|
            && var visited := k < EndOfPass(m, my, i) && n.ip != my;
               && m'.nodes[k] == (if visited then n.(disconnect := FlagAfter(n, i.hbC)) else n)
               && m'.file[n.ip] == (if visited then LinkAfter(n, m.file[n.ip], i.hbC) else m.file[n.ip])
  {
    SweepPerPeer(m.(nodes := Received(m.nodes, my, i.sender, i.now)), 0, my, i.hbC, i.ping, k);
  }

  /** Entries of addresses that are no peer's, the local node's above all, are never touched. */
  lemma {:induction false} SweepLeavesOthers(m: Monitor, from: nat, my: string, hbC: int, ping: nat -> int, x: string)
    requires Listed(m) && x in m.file && forall k :: 0 <= k < |m.nodes| ==> m.nodes[k].ip != x || x == my
    ensures var m' := Sweep(m, from, my, hbC, ping); x in m'.file && m'.file[x] == m.file[x]
    decreases |m.nodes| - from
  {
    if from < |m.nodes| && !Vetoes(m.nodes[from], my, hbC, ping(from)) {
      VisitOne(m, from, my, hbC);
      SweepLeavesOthers(Visit(m, from, my, hbC), from + 1, my, hbC, ping, x);
    }
  }

  // ----- agreement of flags and file -----

  predicate PeerAgrees(m: Monitor, my: string, k: nat)
    requires Listed(m) && k < |m.nodes|
  {
    var n := m.nodes[k];
    n.ip != my ==> (n.disconnect == DISCONNECT <==> m.file[n.ip].Disconnected?)
  }

  ghost predicate Agrees(m: Monitor, my: string) {
    Listed(m) && forall k :: 0 <= k < |m.nodes| ==> PeerAgrees(m, my, k)
  }

  lemma PassKeepsListed(m: Monitor, my: string, i: Input)
    requires Listed(m)
    ensures Listed(Pass(m, my, i)) && Pass(m, my, i).file.Keys == m.file.Keys && |Pass(m, my, i).nodes| == |m.nodes|
  {
    if m.nodes != [] {
      PassPerPeer(m, my, i, 0);
    }
  }

  lemma PassKeepsAgreement(m: Monitor, my: string, i: Input)
    requires Agrees(m, my)
    ensures Agrees(Pass(m, my, i), my)
  {
    PassKeepsListed(m, my, i);
    forall k | 0 <= k < |m.nodes| ensures PeerAgrees(Pass(m, my, i), my, k) {
      PassPerPeer(m, my, i, k);
      assert PeerAgrees(m, my, k);
    }
  }

  /** After every pass of every run each peer's flag is DISCONNECT exactly when the file says "disconnect"; the
      file's keys stay the same, and so does the local node's entry. */
  lemma {:induction false} RunKeepsAgreement(m: Monitor, my: string, inputs: seq<Input>)
    requires Agrees(m, my)
    ensures Agrees(Run(m, my, inputs), my) && Run(m, my, inputs).file.Keys == m.file.Keys
    ensures my in m.file ==> Run(m, my, inputs).file[my] == m.file[my]
    decreases |inputs|
  {
    if inputs == [] {
    } else {
      PassKeepsListed(m, my, inputs[0]);
      PassKeepsAgreement(m, my, inputs[0]);
      if my in m.file {
        var i := inputs[0];
        SweepLeavesOthers(m.(nodes := Received(m.nodes, my, i.sender, i.now)), 0, my, i.hbC, i.ping, my);
      }
      RunKeepsAgreement(Pass(m, my, inputs[0]), my, inputs[1..]);
    }
  }

  /** After hb_start: every node is listed as connected, whatever the flags hold, and nothing has been sent. */
  predicate Started(m: Monitor) {
    Listed(m) && m.log == [] && forall ip <- m.file :: m.file[ip].Connected?
  }

  /** Some peer's flag happens to start as DISCONNECT: the pass that a gateway failure ends at once leaves it so. */
  lemma StrayFlagSurvives(m: Monitor, my: string, k: nat) returns (i: Input)
    requires Started(m) && k < |m.nodes| && m.nodes[k].ip != my && m.nodes[k].disconnect == DISCONNECT
    ensures !Agrees(Pass(m, my, i), my)
  {
    var f := 0;
    while m.nodes[f].ip == my
      invariant f <= k && forall j :: 0 <= j < f ==> m.nodes[j].ip == my
      decreases k - f
    {
      f := f + 1;
    }
    i := Input(m.nodes[f].hbTime + 11000, my, 0, _ => -1);
    var nodes := Received(m.nodes, my, i.sender, i.now);
    assert nodes[f] == m.nodes[f];
    assert Vetoes(nodes[f], my, i.hbC, i.ping(f));
    assert EndOfPass(m, my, i) <= f;
    PassPerPeer(m, my, i, k);
    assert !PeerAgrees(Pass(m, my, i), my, k);
  }

  ghost predicate AgreesAfterEveryPass(m: Monitor, my: string) {
    forall inputs: seq<Input> :: inputs != [] ==> Agrees(Run(m, my, inputs), my)
  }

  /** No peer's flag holds DISCONNECT. */
  predicate NoStrayFlag(m: Monitor, my: string) {
    forall k :: 0 <= k < |m.nodes| && m.nodes[k].ip != my ==> m.nodes[k].disconnect != DISCONNECT
  }

  /** Agreement holds after every pass of every run from hb_start if and only if no peer's flag starts as DISCONNECT. */
  lemma AgreementIffNoStrayFlag(m: Monitor, my: string)
    requires Started(m)
    ensures AgreesAfterEveryPass(m, my) <==> NoStrayFlag(m, my)
  {
    if NoStrayFlag(m, my) {
      forall k | 0 <= k < |m.nodes| ensures PeerAgrees(m, my, k) {
        assert m.nodes[k].ip in m.file;
      }
      forall inputs: seq<Input> | inputs != [] ensures Agrees(Run(m, my, inputs), my) {
        RunKeepsAgreement(m, my, inputs);
      }
    } else {
      var k :| 0 <= k < |m.nodes| && m.nodes[k].ip != my && m.nodes[k].disconnect == DISCONNECT;
      var i := StrayFlagSurvives(m, my, k);
      var once := [i];
      assert once[1..] == [] && once[0] == i;
      assert Run(m, my, once) == Run(Pass(m, my, i), my, []) == Pass(m, my, i);
      assert once != [] && !Agrees(Run(m, my, once), my);
    }
  }

  // ----- notices -----

  /** The state of `ip` that the notices tell: that of its latest notice, and connected before any. */
  function LinkOf(log: seq<Notice>, ip: string): Link {
    if log == [] then Connected
    else if log[|log| - 1] == HbDown(ip) then Disconnected
    else if log[|log| - 1] == Restored(ip) then Connected
    else LinkOf(log[..|log| - 1], ip)
  }

  /** Every notice about `ip` changes the state the earlier ones tell. */
  predicate Alternates(log: seq<Notice>, ip: string) {
    log == [] ||
    (var before, last := log[..|log| - 1], log[|log| - 1];
     Alternates(before, ip) && (last.ip == ip ==> LinkOf(before, ip).Connected? == last.HbDown?))
  }

  /** Between two HB_DOWNs for a peer it was restored, and between two restorations it was down. */
  lemma {:induction false} AlternatesMeans(log: seq<Notice>, ip: string, i: nat, j: nat) returns (r: nat)
    requires Alternates(log, ip) && i < j < |log| && log[i] == log[j] && log[i].ip == ip
    ensures i < r < j && log[r] == if log[i].HbDown? then Restored(ip) else HbDown(ip)
    decreases |log|
  {
    if j + 1 < |log| {
      r := AlternatesMeans(log[..|log| - 1], ip, i, j);
    } else {
      r := LatestFlip(log[..j], ip, i);
    }
  }

  lemma {:induction false} LatestFlip(log: seq<Notice>, ip: string, i: nat) returns (r: nat)
    requires i < |log| && log[i].ip == ip && LinkOf(log, ip).Connected? == log[i].HbDown?
    ensures i < r < |log| && log[r] == if log[i].HbDown? then Restored(ip) else HbDown(ip)
    decreases |log|
  {
    var last := log[|log| - 1];
    if last.ip == ip {
      r := |log| - 1;
    } else {
      r := LatestFlip(log[..|log| - 1], ip, i);
    }
  }

  /** The file tells what the notices tell, and the notices about each address alternate. */
  ghost predicate Chronicle(m: Monitor) {
    && (forall i :: 0 <= i < |m.log| ==> m.log[i].ip in m.file)
    && forall ip <- m.file :: Alternates(m.log, ip) && LinkOf(m.log, ip) == m.file[ip]
  }

  lemma LogOne(log: seq<Notice>, n: Notice, ip: string)
    requires Alternates(log, ip) && (n.ip == ip ==> LinkOf(log, ip).Connected? == n.HbDown?)
    ensures Alternates(log + [n], ip)
    ensures LinkOf(log + [n], ip) == if n == HbDown(ip) then Disconnected else if n == Restored(ip) then Connected
                                     else LinkOf(log, ip)
  {
    assert (log + [n])[..|log|] == log;
  }

  lemma VisitKeepsChronicle(m: Monitor, k: nat, my: string, hbC: int)
    requires Listed(m) && Chronicle(m) && k < |m.nodes|
    ensures Chronicle(Visit(m, k, my, hbC))
  {
    hide Alternates, LinkOf, TimedOut, Distinct;
    var m' := Visit(m, k, my, hbC);
    if m'.log != m.log {
      var n := m'.log[|m.log|];
      assert m'.log == m.log + [n];
      forall ip <- m'.file ensures Alternates(m'.log, ip) && LinkOf(m'.log, ip) == m'.file[ip] {
        LogOne(m.log, n, ip);
      }
    }
  }

  lemma {:induction false} SweepKeepsChronicle(m: Monitor, from: nat, my: string, hbC: int, ping: nat -> int)
    requires Listed(m) && Chronicle(m)
    ensures Chronicle(Sweep(m, from, my, hbC, ping))
    decreases |m.nodes| - from
  {
    if from < |m.nodes| && !Vetoes(m.nodes[from], my, hbC, ping(from)) {
      VisitOne(m, from, my, hbC);
      VisitKeepsChronicle(m, from, my, hbC);
      SweepKeepsChronicle(Visit(m, from, my, hbC), from + 1, my, hbC, ping);
    }
  }

  lemma {:induction false} RunKeepsChronicle(m: Monitor, my: string, inputs: seq<Input>)
    requires Listed(m) && Chronicle(m)
    ensures Listed(Run(m, my, inputs)) && Chronicle(Run(m, my, inputs))
    decreases |inputs|
  {
    if inputs == [] {
    } else {
      var i := inputs[0];
      PassKeepsListed(m, my, i);
      SweepKeepsChronicle(m.(nodes := Received(m.nodes, my, i.sender, i.now)), 0, my, i.hbC, i.ping);
      RunKeepsChronicle(Pass(m, my, i), my, inputs[1..]);
    }
  }

  /** In every run from hb_start, whatever the flags held, the file always tells the latest notice, and between two
      equal notices lies one to the contrary: HB_DOWNs and restorations of a peer alternate. */
  lemma NoticesAlternate(m: Monitor, my: string, inputs: seq<Input>, i: nat, j: nat) returns (r: nat)
    requires Started(m) && i < j < |Run(m, my, inputs).log|
    requires Run(m, my, inputs).log[i] == Run(m, my, inputs).log[j]
    ensures var log := Run(m, my, inputs).log;
            i < r < j && log[r] == if log[i].HbDown? then Restored(log[i].ip) else HbDown(log[i].ip)
    ensures var t := Run(m, my, inputs); forall ip <- t.file :: t.file[ip] == LinkOf(t.log, ip)
  {
    RunKeepsChronicle(m, my, inputs);
    var log := Run(m, my, inputs).log;
    r := AlternatesMeans(log, log[i].ip, i, j);
  }

  /** What justifies a notice: an HB_DOWN needs a gap of at least 11000 ticks and a gateway that answered, a
      restoration a smaller gap; both come from a peer before the end of the pass. */
  predicate Justified(nodes: seq<Node>, k: nat, from: nat, my: string, hbC: int, ping: nat -> int, n: Notice) {
    && from <= k < |nodes| && nodes[k].ip == n.ip != my
    && k < EndOf(nodes, from, my, hbC, ping)
    && if n.HbDown? then Abs(hbC - nodes[k].hbTime) >= 11000 && ping(k) >= 0
       else Abs(hbC - nodes[k].hbTime) < 11000
  }

  /** A visit sends at most one notice, about its own peer and on the strength of its time stamp. */
  lemma VisitNotice(m: Monitor, k: nat, my: string, hbC: int)
    requires Listed(m) && k < |m.nodes|
    ensures var log, n := Visit(m, k, my, hbC).log, m.nodes[k];
            || log == m.log
            || (n.ip != my && TimedOut(hbC, n.hbTime) && log == m.log + [HbDown(n.ip)])
            || (n.ip != my && !TimedOut(hbC, n.hbTime) && log == m.log + [Restored(n.ip)])
  {
  }

  lemma {:induction false} SweepJustifies(m: Monitor, from: nat, my: string, hbC: int, ping: nat -> int, j: nat)
    returns (k: nat)
    requires Listed(m) && from <= |m.nodes| && |m.log| <= j < |Sweep(m, from, my, hbC, ping).log|
    ensures Justified(m.nodes, k, from, my, hbC, ping, Sweep(m, from, my, hbC, ping).log[j])
    decreases |m.nodes| - from
  {
    var m1 := Visit(m, from, my, hbC);
    VisitOne(m, from, my, hbC);
    if j < |m1.log| {
      k := from;
      VisitJustifies(m, from, my, hbC, ping, j);
    } else {
      hide Visit, Listed;
      k := SweepJustifies(m1, from + 1, my, hbC, ping, j);
      JustifiedEarlier(m.nodes, m1.nodes, k, from, my, hbC, ping, Sweep(m, from, my, hbC, ping).log[j]);
    }
  }

  lemma VisitJustifies(m: Monitor, k: nat, my: string, hbC: int, ping: nat -> int, j: nat)
    requires Listed(m) && k < |m.nodes| && !Vetoes(m.nodes[k], my, hbC, ping(k))
    requires |m.log| <= j < |Visit(m, k, my, hbC).log|
    ensures j < |Sweep(m, k, my, hbC, ping).log|
    ensures Justified(m.nodes, k, k, my, hbC, ping, Sweep(m, k, my, hbC, ping).log[j])
  {
    VisitNotice(m, k, my, hbC);
    TimedOutIff(hbC, m.nodes[k].hbTime);
    SweepLogGrows(Visit(m, k, my, hbC), k + 1, my, hbC, ping);
    assert Visit(m, k, my, hbC).log[j] == Sweep(m, k, my, hbC, ping).log[j];
  }

  lemma JustifiedEarlier(a: seq<Node>, b: seq<Node>, k: nat, from: nat, my: string, hbC: int, ping: nat -> int,
                         n: Notice)
    requires from < |a| == |b| && (forall j :: from < j < |a| ==> a[j] == b[j])
    requires !Vetoes(a[from], my, hbC, ping(from)) && Justified(b, k, from + 1, my, hbC, ping, n)
    ensures Justified(a, k, from, my, hbC, ping, n)
  {
    EndUnmoved(a, b, from + 1, my, hbC, ping);
  }

  lemma {:induction false} SweepLogGrows(m: Monitor, from: nat, my: string, hbC: int, ping: nat -> int)
    ensures m.log <= Sweep(m, from, my, hbC, ping).log
    decreases |m.nodes| - from
  {
    if from < |m.nodes| && !Vetoes(m.nodes[from], my, hbC, ping(from)) {
      SweepLogGrows(Visit(m, from, my, hbC), from + 1, my, hbC, ping);
    }
  }

  /** Every notice of a pass is justified by the time stamps after its first loop; with the gateway unreachable no
      HB_DOWN is sent at all. */
  lemma PassJustifies(m: Monitor, my: string, i: Input, j: nat) returns (k: nat)
    requires Listed(m) && |m.log| <= j < |Pass(m, my, i).log|
    ensures Justified(Received(m.nodes, my, i.sender, i.now), k, 0, my, i.hbC, i.ping, Pass(m, my, i).log[j])
    ensures (forall k :: i.ping(k) < 0) ==> Pass(m, my, i).log[j].Restored?
  {
    k := SweepJustifies(m.(nodes := Received(m.nodes, my, i.sender, i.now)), 0, my, i.hbC, i.ping, j);
  }

  // ----- the detector's memory -----

  class Detector {
    const my: string
    const con: array<Node>
    var file: map<string, Link>
    var log: seq<Notice>

    constructor (my: string, con: array<Node>)
      ensures this.my == my && this.con == con && log == []
    {
      this.my, this.con, file, log := my, con, map[], [];
    }

    ghost function State(): Monitor
      reads this, con
    {
      Monitor(con[..], file, log)
    }

    /** hb_start: rewrites the file entry by entry until every configured node is "connect". The flags are left as
        they are. */
    method HbStart()
      requires Distinct(con[..]) && log == []
      modifies this`file
      ensures con.Length == 0 ==> file == old(file)
      ensures 0 < con.Length ==>
                && Started(State())
                && forall ip :: ip in file <==> exists k :: 0 <= k < con.Length && con[k].ip == ip
    {
      var entries: map<string, Link> := map[];
      var k := 0;
      while k < con.Length
        invariant 0 <= k <= con.Length && log == [] && file == if k == 0 then old(file) else entries
        invariant forall ip <- entries :: entries[ip].Connected?
        invariant forall ip :: ip in entries <==> exists j :: 0 <= j < k && con[j].ip == ip
      {
        entries := entries[con[k].ip := Connected];
        file := entries;
        k := k + 1;
      }
    }

    /** hb_receive: the first loop stamps the sender, the second judges every peer and may be cut short. */
    method HbReceive(i: Input)
      modifies this`file, this`log, con
      ensures State() == Pass(old(State()), my, i)
    {
      StampSender(i);
      ghost var start := State();
      var k := 0;
      while k < con.Length
        invariant 0 <= k <= con.Length
        invariant Sweep(start, 0, my, i.hbC, i.ping) == Sweep(State(), k, my, i.hbC, i.ping)
      {
        var n := con[k];
        if n.ip != my && TimedOut(i.hbC, n.hbTime) && i.ping(k) < 0 {
          break;
        }
        JudgePeer(k, i.hbC);
        k := k + 1;
      }
    }

    /** The first loop: the datagram's sender, if it is not the local node, gets the time stamp. */
    method StampSender(i: Input)
      modifies con
      ensures con[..] == Received(old(con[..]), my, i.sender, i.now)
      ensures forall k :: 0 <= k < con.Length ==>
                && con[k].ip == old(con[k].ip) && con[k].disconnect == old(con[k].disconnect)
                && con[k].hbTime == if old(con[k].ip) == i.sender && i.sender != my then i.now else old(con[k].hbTime)
    {
      var k := 0;
      while k < con.Length
        invariant 0 <= k <= con.Length
        invariant con[k..] == old(con[..])[k..]
        invariant con[..k] == Received(old(con[..]), my, i.sender, i.now)[..k]
      {
        assert con[k] == con[k..][0] == old(con[..])[k];
        if con[k].ip != my && con[k].ip == i.sender {
          con[k] := con[k].(hbTime := i.now);
        }
        assert con[..k + 1] == con[..k] + [con[k]];
        k := k + 1;
      }
      assert con[..k] == con[..];
    }

    /** The body of the second loop for a peer that does not end it. */
    method JudgePeer(k: nat, hbC: int)
      requires k < con.Length
      modifies this`file, this`log, con
      ensures State() == Visit(old(State()), k, my, hbC)
    {
      var n := con[k];
      if n.ip != my {
        if TimedOut(hbC, n.hbTime) {
          con[k] := n.(disconnect := DISCONNECT);
          if n.ip in file && file[n.ip].Connected? {
            file := file[n.ip := Disconnected];
            log := log + [HbDown(n.ip)];
          }
        } else if n.disconnect == DISCONNECT {
          con[k] := n.(disconnect := CONNECT);
          if n.ip in file && file[n.ip].Disconnected? {
            file := file[n.ip := Connected];
            log := log + [Restored(n.ip)];
          }
        }
      }
    }
  }
}
