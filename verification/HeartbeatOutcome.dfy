/** What one pass of the failure detector does, in terms of clocks, pings and the peers before: who gets a time stamp,
    who is reported down, who is restored, and who keeps what it had. */
module HeartbeatOutcome {
  import opened Heartbeat

  // ----- what the pass goes by -----

  /** The node's time stamp once the datagram has been read. */
  function StampOf(m: Monitor, my: string, i: Input, k: nat): int
    requires k < |m.nodes|
  {
    if m.nodes[k].ip == i.sender && m.nodes[k].ip != my then i.now else m.nodes[k].hbTime
  }

  /** Node `k` is a peer, and the clock and its time stamp are at least 11000 ticks apart. */
  predicate Missed(m: Monitor, my: string, i: Input, k: nat)
    requires k < |m.nodes|
  {
    && m.nodes[k].ip != my
    && (i.hbC - StampOf(m, my, i, k) >= 11000 || StampOf(m, my, i, k) - i.hbC >= 11000)
  }

  /** The gateway answered the ping of every peer up to node `k` that missed its heartbeat. */
  predicate GatewayAnswers(m: Monitor, my: string, i: Input, k: nat)
    requires k < |m.nodes|
  {
    forall j :: 0 <= j <= k && Missed(m, my, i, j) ==> i.ping(j) >= 0
  }

  /** The notices about one address. */
  function About(log: seq<Notice>, ip: string): seq<Notice> {
    if log == [] then []
    else About(log[..|log| - 1], ip) + if log[|log| - 1].ip == ip then [log[|log| - 1]] else []
  }

  // ----- the state -----

  lemma StampIs(m: Monitor, my: string, i: Input, k: nat)
    requires k < |m.nodes|
    ensures Stamped(m, my, i, k) == m.nodes[k].(hbTime := StampOf(m, my, i, k))
    ensures m.nodes[k].ip != my ==> (TimedOut(i.hbC, Stamped(m, my, i, k).hbTime) <==> Missed(m, my, i, k))
  {
    TimedOutIff(i.hbC, StampOf(m, my, i, k));
  }

  /** The pass gets past node `k` exactly when the gateway answers so far. */
  lemma PassedIff(m: Monitor, my: string, i: Input, k: nat)
    requires k < |m.nodes|
    ensures k < EndOfPass(m, my, i) <==> GatewayAnswers(m, my, i, k)
  {
    var nodes, e := Received(m.nodes, my, i.sender, i.now), EndOfPass(m, my, i);
    forall j | 0 <= j < |nodes|
      ensures Vetoes(nodes[j], my, i.hbC, i.ping(j)) <==> Missed(m, my, i, j) && i.ping(j) < 0
    {
      StampIs(m, my, i, j);
    }
    hide Received, TimedOut, Missed;
    if e <= k {
      assert Vetoes(nodes[e], my, i.hbC, i.ping(e));
    }
  }

  // ----- the notices -----

  /** The notice a visited peer gives rise to. */
  function Tells(n: Node, link: Link, hbC: int): seq<Notice> {
    if TimedOut(hbC, n.hbTime) then if link.Connected? then [HbDown(n.ip)] else []
    else if n.disconnect == DISCONNECT && link.Disconnected? then [Restored(n.ip)] else []
  }

  lemma AboutAppend(log: seq<Notice>, n: Notice, ip: string)
    ensures About(log + [n], ip) == About(log, ip) + if n.ip == ip then [n] else []
  {
    assert (log + [n])[..|log|] == log;
  }

  /** From `m` to `m'` the notice peer `j` gives rise to was sent, or, if it was not visited, none about it. */
  predicate Told(m: Monitor, m': Monitor, j: nat, visited: bool, hbC: int)
    requires Listed(m) && j < |m.nodes|
  {
    var n := m.nodes[j];
    About(m'.log, n.ip) == About(m.log, n.ip) + if visited then Tells(n, m.file[n.ip], hbC) else []
  }

  lemma VisitTells(m: Monitor, k: nat, my: string, hbC: int, j: nat)
    requires Listed(m) && k < |m.nodes| && j < |m.nodes|
    ensures Told(m, Visit(m, k, my, hbC), j, j == k && m.nodes[j].ip != my, hbC)
  {
    hide About, TimedOut;
    var log := Visit(m, k, my, hbC).log;
    assert j != k ==> m.nodes[j].ip != m.nodes[k].ip;
    if log != m.log {
      assert log == m.log + [log[|m.log|]];
      AboutAppend(m.log, log[|m.log|], m.nodes[j].ip);
    }
  }

  lemma ToldTwice(m: Monitor, m1: Monitor, m2: Monitor, j: nat, first: bool, second: bool, hbC: int)
    requires Listed(m) && j < |m.nodes| && PeerOutcome(m, m1, j, first, hbC)
    requires Told(m, m1, j, first, hbC) && Told(m1, m2, j, second, hbC) && !(first && second)
    ensures Told(m, m2, j, first || second, hbC)
  {
    hide About, Tells, FlagAfter, LinkAfter;
  }

  /** A node that does not end the pass is visited, and the pass ends where it would from the next one on. */
  lemma PastOne(m: Monitor, from: nat, my: string, hbC: int, ping: nat -> int)
    requires from < |m.nodes| && !Vetoes(m.nodes[from], my, hbC, ping(from))
    ensures var m1 := Visit(m, from, my, hbC);
            && |m1.nodes| == |m.nodes|
            && Sweep(m, from, my, hbC, ping) == Sweep(m1, from + 1, my, hbC, ping)
            && from < EndOf(m.nodes, from, my, hbC, ping) == EndOf(m1.nodes, from + 1, my, hbC, ping)
  {
    OthersUnmoved(m, from, my, hbC);
    hide Visit, Vetoes;
    EndUnmoved(m.nodes, Visit(m, from, my, hbC).nodes, from + 1, my, hbC, ping);
  }

  lemma {:induction false} SweepTells(m: Monitor, from: nat, my: string, hbC: int, ping: nat -> int, j: nat)
    requires Listed(m) && from <= |m.nodes| && j < |m.nodes|
    ensures Told(m, Sweep(m, from, my, hbC, ping), j, Visited(m, j, from, EndOf(m.nodes, from, my, hbC, ping), my), hbC)
    decreases |m.nodes| - from
  {
    hide Visit, PeerOutcome, About, Tells;
    if from < |m.nodes| && !Vetoes(m.nodes[from], my, hbC, ping(from)) {
      var m1 := Visit(m, from, my, hbC);
      VisitTells(m, from, my, hbC, j);
      VisitPeer(m, from, my, hbC, j);
      VisitKeepsListed(m, from, my, hbC);
      IpKept(m, m1, j, j == from && m.nodes[j].ip != my, hbC);
      PastOne(m, from, my, hbC, ping);
      hide Listed, Told, Sweep, EndOf, Vetoes;
      SweepTells(m1, from + 1, my, hbC, ping, j);
      ToldTwice(m, m1, Sweep(m1, from + 1, my, hbC, ping), j, j == from && m.nodes[j].ip != my,
                Visited(m1, j, from + 1, EndOf(m1.nodes, from + 1, my, hbC, ping), my), hbC);
    }
  }

  lemma IpKept(m: Monitor, m1: Monitor, j: nat, visited: bool, hbC: int)
    requires Listed(m) && j < |m.nodes| && PeerOutcome(m, m1, j, visited, hbC)
    ensures j < |m1.nodes| && m1.nodes[j].ip == m.nodes[j].ip
  {
  }

  // ----- the outcome -----

  /** What a pass makes of one peer, spelled out. A missed heartbeat is reported exactly when the gateway answers, for
      this peer and every one before it: the flag is DISCONNECT, the entry "disconnect", and one HB_DOWN is sent if the
      entry said "connect". A peer in time whose flag was DISCONNECT is restored under the same condition on those
      before it. Everyone else keeps flag and entry, and nothing is sent about them. */
  lemma PassOutcome(m: Monitor, my: string, i: Input, k: nat)
    requires Listed(m) && k < |m.nodes| && m.nodes[k].ip != my
    ensures var m', n := Pass(m, my, i), m.nodes[k];
            && |m'.nodes| == |m.nodes| && n.ip in m'.file && m.log <= m'.log
            && m'.nodes[k].ip == n.ip && m'.nodes[k].hbTime == StampOf(m, my, i, k)
            && if Missed(m, my, i, k) && GatewayAnswers(m, my, i, k) then
                 && m'.nodes[k].disconnect == DISCONNECT && m'.file[n.ip] == Disconnected
                 && About(m'.log, n.ip) == About(m.log, n.ip) + if m.file[n.ip].Connected? then [HbDown(n.ip)] else []
               else if !Missed(m, my, i, k) && GatewayAnswers(m, my, i, k) && n.disconnect == DISCONNECT then
                 && m'.nodes[k].disconnect == CONNECT && m'.file[n.ip] == Connected
                 && About(m'.log, n.ip) == About(m.log, n.ip) + if m.file[n.ip].Connected? then [] else [Restored(n.ip)]
               else
                 && m'.nodes[k].disconnect == n.disconnect && m'.file[n.ip] == m.file[n.ip]
                 && About(m'.log, n.ip) == About(m.log, n.ip)
  {
    PassPerPeer(m, my, i, k);
    PassedIff(m, my, i, k);
    StampIs(m, my, i, k);
    var m1 := m.(nodes := Received(m.nodes, my, i.sender, i.now));
    SweepLogGrows(m1, 0, my, i.hbC, i.ping);
    SweepTells(m1, 0, my, i.hbC, i.ping, k);
    hide Sweep, TimedOut, Missed, GatewayAnswers, About, EndOf, Received, Distinct;
    assert m1.nodes[k] == Stamped(m, my, i, k);
    assert EndOf(m1.nodes, 0, my, i.hbC, i.ping) == EndOfPass(m, my, i);
  }

  /** A connected peer is reported down by a pass if and only if it missed its heartbeat and the gateway answered for it
      and for every peer before it that missed one. */
  lemma ReportedIff(m: Monitor, my: string, i: Input, k: nat)
    requires Listed(m) && k < |m.nodes| && m.nodes[k].ip != my && m.file[m.nodes[k].ip].Connected?
    ensures var m', ip := Pass(m, my, i), m.nodes[k].ip;
            About(m'.log, ip) == About(m.log, ip) + [HbDown(ip)] <==>
            Missed(m, my, i, k) && i.ping(k) >= 0 && forall j :: 0 <= j < k && Missed(m, my, i, j) ==> i.ping(j) >= 0
  {
    PassOutcome(m, my, i, k);
    hide Pass, Missed, About;
    assert GatewayAnswers(m, my, i, k) ==> forall j :: 0 <= j < k && Missed(m, my, i, j) ==> i.ping(j) >= 0;
    var ip, log := m.nodes[k].ip, About(m.log, m.nodes[k].ip);
    assert log + [] == log != log + [HbDown(ip)];
    assert |log + [Restored(ip)]| == |log| + 1 && (log + [Restored(ip)])[|log|] != HbDown(ip);
  }
}
