/** Bring-up of the cluster (jcm_controller.c): the coordinator's two counters and the gates they open. */
module BringUp {

  const SET_ON: string := "CONTROL_SET_ON"
  const SUCCESS: string := "success"
  const LOAD_REPLY: string := "NBD_CLIENT_LOAD"

  /** The cluster: number of configured nodes, the coordinator's own index, and how a send treats its socket.
      `Shared` is the source: one socket for all peers, and connect() on a connected stream socket fails. */
  datatype Sockets = Shared | PerPeer
  datatype Cluster = Cluster(n: nat, me: nat, sockets: Sockets) {
    /** At least two nodes, and the coordinator is one of them. */
    predicate Valid() {
      2 <= n && me < n
    }

    predicate Peer(k: nat) {
      k < n && k != me
    }
  }

  /** How a read() in msg_send ends: with the peer's message, with no data, or with -1. */
  datatype Reading = Message | Closed | Failed

  /** What a peer makes of CONTROLLER_SET_CONFIG. It acknowledges; given the configuration it runs insmod, which fails
      when the module is already loaded, and answers "success" only if insmod worked. */
  datatype Choice = Refused | Met(first: Reading, insmodOk: bool, second: Reading)

  /** What a peer makes of NBD_SET_ON; `Silent` is a read() that brings no data. */
  datatype NbdChoice = NbdRefused | Silent | Replied(text: string)

  /** A reply counted for `peer`; `sent` says that it is this peer's own. */
  datatype Credit = Credit(peer: nat, sent: bool)

  /** One attempt to load the volume module, with the replies counted by then. */
  datatype Load = Load(ok: bool, credited: seq<Credit>)

  /** The counters, the peers' modules and the volume module, and the history: replies counted by msg_send and by
      nbd_msg_send, load attempts, and the NBD replies behind each "success" written to the client. */
  datatype Control = Control(count: nat, nbdCount: nat, loaded: set<nat>, volume: bool, credited: seq<Credit>,
                             nbdCredits: seq<Credit>, loads: seq<Load>, successes: seq<seq<Credit>>)

  /** One command from select(), with everything the outside world decides while it is handled. The two garbage texts
      are what the buffers of msg_send and nbd_msg_send, which nothing initialises, happen to hold. */
  datatype Command = Command(setConfig: bool, choices: nat -> Choice, garbage: string,
                             vrdOk: bool, nbdChoices: nat -> NbdChoice, nbdGarbage: string)

  // ----- msg_send -----

  /** The buffer after a read of msg_send: the terminator goes behind the data, and before the buffer when the read
      failed, which leaves the text as it was. */
  function Read(buffer: string, r: Reading, message: string): string {
    match r case Message => message case Closed => "" case Failed => buffer
  }

  /** The peer gets the configuration, and its module loads. */
  predicate Loads(buffer: string, choice: Choice, already: bool)
    requires choice.Met?
  {
    Read(buffer, choice.first, SET_ON) == SET_ON && choice.insmodOk && !already
  }

  /** The buffer after the exchange with one peer. */
  function Exchanged(buffer: string, choice: Choice, already: bool): string
    requires choice.Met?
  {
    Read(Read(buffer, choice.first, SET_ON), choice.second, if Loads(buffer, choice, already) then SUCCESS else "")
  }

  function Contacted(c: Control, k: nat, buffer: string, choice: Choice): Control
    requires choice.Met?
  {
    var loads := Loads(buffer, choice, k in c.loaded);
    var d := c.(loaded := if loads then c.loaded + {k} else c.loaded);
    if Exchanged(buffer, choice, k in c.loaded) == SUCCESS then
      d.(count := c.count + 1, credited := c.credited + [Credit(k, loads && choice.second.Message?)])
    else d
  }

  /** The loop of msg_send from node `k` on; `used` says that the socket has been connected before. */
  function Send(cl: Cluster, c: Control, k: nat, used: bool, buffer: string, choices: nat -> Choice): Control
    decreases cl.n - k
  {
    if k >= cl.n then c
    else if k == cl.me then Send(cl, c, k + 1, used, buffer, choices)
    else if choices(k).Refused? || (cl.sockets.Shared? && used) then c
    else
      var buffer' := Exchanged(buffer, choices(k), k in c.loaded);
      Send(cl, Contacted(c, k, buffer, choices(k)), k + 1, true, buffer', choices)
  }

  // ----- nbd_msg_send -----

  /** The buffer after a read: without data it keeps what it held. */
  function Buffered(buffer: string, choice: NbdChoice): string {
    if choice.Replied? then choice.text else buffer
  }

  function NbdContacted(c: Control, k: nat, buffer: string, choice: NbdChoice): Control {
    if buffer == LOAD_REPLY then
      c.(nbdCount := c.nbdCount + 1, nbdCredits := c.nbdCredits + [Credit(k, choice == Replied(LOAD_REPLY))])
    else c
  }

  function NbdSend(cl: Cluster, c: Control, k: nat, used: bool, buffer: string, choices: nat -> NbdChoice): Control
    decreases cl.n - k
  {
    if k >= cl.n then c
    else if k == cl.me then NbdSend(cl, c, k + 1, used, buffer, choices)
    else if choices(k).NbdRefused? || (cl.sockets.Shared? && used) then c
    else
      var buffer' := Buffered(buffer, choices(k));
      NbdSend(cl, NbdContacted(c, k, buffer', choices(k)), k + 1, true, buffer', choices)
  }

  // ----- the gates -----

  /** insmod of the volume module works at most once. */
  function LoadGate(cl: Cluster, c: Control, cmd: Command): Control {
    if c.count == cl.n - 1 then
      var ok := cmd.vrdOk && !c.volume;
      var c1 := c.(volume := c.volume || ok, loads := c.loads + [Load(ok, c.credited)]);
      var c2 := if ok && c.count != 0 then NbdSend(cl, c1, 0, false, cmd.nbdGarbage, cmd.nbdChoices) else c1;
      c2.(count := 0)
    else c
  }

  function SuccessGate(cl: Cluster, c: Control): Control {
    if c.nbdCount == cl.n - 1 then c.(nbdCount := 0, successes := c.successes + [c.nbdCredits]) else c
  }

  /** What the command sends, before the gates are looked at. */
  function Configured(cl: Cluster, c: Control, cmd: Command): Control {
    if cmd.setConfig && cl.n > 1 then Send(cl, c, 0, false, cmd.garbage, cmd.choices) else c
  }

  function Handle(cl: Cluster, c: Control, cmd: Command): Control {
    SuccessGate(cl, LoadGate(cl, Configured(cl, c, cmd), cmd))
  }

  const START: Control := Control(0, 0, {}, false, [], [], [], [])

  function Run(cl: Cluster, c: Control, cmds: seq<Command>): Control
    decreases |cmds|
  {
    if cmds == [] then c else Run(cl, Handle(cl, c, cmds[0]), cmds[1..])
  }

  // ----- distinct peers -----

  predicate NoRepeats(s: seq<nat>) {
    forall i, j :: 0 <= i < j < |s| ==> s[i] != s[j]
  }

  /** Each peer exactly once. */
  ghost predicate AllPeersOnce(cl: Cluster, s: seq<nat>) {
    NoRepeats(s) && forall k: nat :: k in s <==> cl.Peer(k)
  }

  function Below(n: nat): (s: set<nat>)
    ensures |s| == n && forall k: nat :: k in s <==> k < n
  {
    if n == 0 then {} else Below(n - 1) + {n - 1}
  }

  function Members(s: seq<nat>): set<nat> {
    set k | k in s
  }

  lemma {:induction false} CountDistinct(s: seq<nat>)
    requires NoRepeats(s)
    ensures |Members(s)| == |s|
  {
    if s == [] {
      assert Members(s) == {};
    } else {
      var t, last := s[..|s| - 1], s[|s| - 1];
      CountDistinct(t);
      assert s == t + [last];
      assert Members(s) == Members(t) + {last};
      assert last !in t;
    }
  }

  function PeersOf(credits: seq<Credit>): (peers: seq<nat>)
    ensures |peers| == |credits| && forall i :: 0 <= i < |credits| ==> peers[i] == credits[i].peer
  {
    seq(|credits|, i requires 0 <= i < |credits| => credits[i].peer)
  }

  /** n-1 different peers are all the peers there are. */
  lemma DistinctPeersAreAll(cl: Cluster, s: seq<nat>)
    requires cl.Valid() && NoRepeats(s) && forall k :: k in s ==> cl.Peer(k)
    ensures |s| <= cl.n - 1
    ensures |s| == cl.n - 1 ==> AllPeersOnce(cl, s)
  {
    CountDistinct(s);
    var all := Below(cl.n) - {cl.me};
    assert |all| == cl.n - 1;
    assert Members(s) <= all;
    Subset(Members(s), all);
    if |s| == cl.n - 1 {
      forall k: nat ensures k in s <==> cl.Peer(k) {
        assert k in Members(s) <==> k in all;
      }
    }
  }

  lemma Subset(a: set<nat>, b: set<nat>)
    requires a <= b
    ensures |a| <= |b| && (|a| == |b| ==> a == b)
  {
    assert |b - a| + |a| == |b| by {
      assert b == (b - a) + a;
    }
  }

  // ----- what every send keeps -----

  predicate AllSent(credits: seq<Credit>) {
    forall i :: 0 <= i < |credits| ==> credits[i].sent
  }

  /** Replies are counted for peers; the genuine ones come from different peers, each of which has loaded its module
      for good. */
  predicate Credible(cl: Cluster, c: Control) {
    && (forall i :: 0 <= i < |c.credited| ==>
          cl.Peer(c.credited[i].peer) && (c.credited[i].sent ==> c.credited[i].peer in c.loaded))
    && (forall i, j :: 0 <= i < j < |c.credited| && c.credited[i].sent && c.credited[j].sent ==>
          c.credited[i].peer != c.credited[j].peer)
  }

  /** What msg_send leaves alone, and that its counter counts the replies it credits. */
  predicate SendStep(c: Control, d: Control) {
    && c.credited <= d.credited && d.count + |c.credited| == c.count + |d.credited|
    && d == c.(count := d.count, credited := d.credited, loaded := d.loaded)
  }

  lemma ContactedKeepsCredible(cl: Cluster, c: Control, k: nat, buffer: string, choice: Choice)
    requires Credible(cl, c) && cl.Peer(k) && choice.Met?
    ensures var d := Contacted(c, k, buffer, choice); Credible(cl, d) && SendStep(c, d)
  {
  }

  lemma {:induction false} SendKeepsCredible(cl: Cluster, c: Control, k: nat, used: bool, buffer: string,
                                             choices: nat -> Choice)
    requires Credible(cl, c)
    ensures var d := Send(cl, c, k, used, buffer, choices); Credible(cl, d) && SendStep(c, d)
    decreases cl.n - k
  {
    hide Contacted, Credible;
    if k < cl.n {
      if k == cl.me {
        SendKeepsCredible(cl, c, k + 1, used, buffer, choices);
      } else if !(choices(k).Refused? || (cl.sockets.Shared? && used)) {
        ContactedKeepsCredible(cl, c, k, buffer, choices(k));
        SendKeepsCredible(cl, Contacted(c, k, buffer, choices(k)), k + 1, true,
                          Exchanged(buffer, choices(k), k in c.loaded), choices);
      }
    }
  }

  /** NBD replies are counted for ever later peers, one per peer at most. */
  ghost predicate NbdInOrder(cl: Cluster, credits: seq<Credit>) {
    && (forall i :: 0 <= i < |credits| ==> cl.Peer(credits[i].peer))
    && (forall i, j :: 0 <= i < j < |credits| ==> credits[i].peer < credits[j].peer)
  }

  lemma {:induction false} NbdSendKeepsOrder(cl: Cluster, c: Control, k: nat, used: bool, buffer: string,
                                             choices: nat -> NbdChoice)
    requires NbdInOrder(cl, c.nbdCredits) && forall i :: 0 <= i < |c.nbdCredits| ==> c.nbdCredits[i].peer < k
    requires c.nbdCount == |c.nbdCredits|
    ensures var d := NbdSend(cl, c, k, used, buffer, choices);
            && NbdInOrder(cl, d.nbdCredits) && d.nbdCount == |d.nbdCredits|
            && d == c.(nbdCount := d.nbdCount, nbdCredits := d.nbdCredits)
    decreases cl.n - k
  {
    if k < cl.n {
      if k == cl.me {
        NbdSendKeepsOrder(cl, c, k + 1, used, buffer, choices);
      } else if !(choices(k).NbdRefused? || (cl.sockets.Shared? && used)) {
        var buffer' := Buffered(buffer, choices(k));
        NbdSendKeepsOrder(cl, NbdContacted(c, k, buffer', choices(k)), k + 1, true, buffer', choices);
      }
    }
  }

  lemma NbdPeersDistinct(cl: Cluster, credits: seq<Credit>)
    requires cl.Valid() && NbdInOrder(cl, credits)
    ensures |credits| <= cl.n - 1
    ensures |credits| == cl.n - 1 ==> AllPeersOnce(cl, PeersOf(credits))
  {
    DistinctPeersAreAll(cl, PeersOf(credits));
  }

  // ----- every run: success -----

  /** Before the volume is loaded no NBD reply is counted; afterwards "success" is written once, when every peer's is,
      and the counter can never fill up again. */
  ghost predicate Sound(cl: Cluster, c: Control) {
    && Credible(cl, c) && NbdInOrder(cl, c.nbdCredits)
    && (c.volume <==> exists i :: 0 <= i < |c.loads| && c.loads[i].ok)
    && if !c.volume then c.nbdCount == 0 && c.nbdCredits == [] && c.successes == []
       else if c.successes == [] then c.nbdCount == |c.nbdCredits| < cl.n - 1
       else c.nbdCount == 0 && c.successes == [c.nbdCredits] && |c.nbdCredits| == cl.n - 1
  }

  lemma LoadedIff(c: Control, c1: Control, ok: bool)
    requires c.volume <==> exists i :: 0 <= i < |c.loads| && c.loads[i].ok
    requires c1.loads == c.loads + [Load(ok, c.credited)] && c1.volume == (c.volume || ok)
    ensures c1.volume <==> exists i :: 0 <= i < |c1.loads| && c1.loads[i].ok
  {
    if c.volume {
      var i :| 0 <= i < |c.loads| && c.loads[i].ok;
      assert c1.loads[i].ok;
    }
    assert c1.loads[|c.loads|].ok == ok;
  }

  lemma HandleKeepsSound(cl: Cluster, c: Control, cmd: Command)
    requires cl.Valid() && Sound(cl, c)
    ensures Sound(cl, Handle(cl, c, cmd))
  {
    SendKeepsCredible(cl, c, 0, false, cmd.garbage, cmd.choices);
    var c1 := Configured(cl, c, cmd);
    if c1.count == cl.n - 1 {
      var ok := cmd.vrdOk && !c1.volume;
      var c2 := c1.(volume := c1.volume || ok, loads := c1.loads + [Load(ok, c1.credited)]);
      LoadedIff(c1, c2, ok);
      if ok {
        NbdSendKeepsOrder(cl, c2, 0, false, cmd.nbdGarbage, cmd.nbdChoices);
        NbdPeersDistinct(cl, NbdSend(cl, c2, 0, false, cmd.nbdGarbage, cmd.nbdChoices).nbdCredits);
      }
    }
  }

  lemma {:induction false} RunKeepsSound(cl: Cluster, c: Control, cmds: seq<Command>)
    requires cl.Valid() && Sound(cl, c)
    ensures Sound(cl, Run(cl, c, cmds))
    decreases |cmds|
  {
    if cmds == [] {
    } else {
      HandleKeepsSound(cl, c, cmds[0]);
      RunKeepsSound(cl, Handle(cl, c, cmds[0]), cmds[1..]);
    }
  }

  /** In every run "success" is written to the client at most once, after a load that worked and one counted NBD reply
      for each peer. */
  lemma SuccessIsSafe(cl: Cluster, cmds: seq<Command>)
    requires cl.Valid()
    ensures var c := Run(cl, START, cmds);
            |c.successes| <= 1 &&
            (c.successes != [] ==>
               && (exists i :: 0 <= i < |c.loads| && c.loads[i].ok)
               && |c.successes[0]| == cl.n - 1 && AllPeersOnce(cl, PeersOf(c.successes[0])))
  {
    RunKeepsSound(cl, START, cmds);
    NbdPeersDistinct(cl, Run(cl, START, cmds).nbdCredits);
  }

  // ----- stale replies in msg_send -----

  function FirstPeer(cl: Cluster): nat {
    if cl.me == 0 then 1 else 0
  }

  /** Node `k` is reached: nobody up to it refuses the connection, and a shared socket reaches the first peer only. */
  predicate Reached(cl: Cluster, k: nat, choices: nat -> Choice) {
    && cl.Peer(k)
    && (forall j :: 0 <= j <= k && j != cl.me ==> choices(j).Met?)
    && (cl.sockets.Shared? ==> k == FirstPeer(cl))
  }

  /** The buffer holds CONTROL_SET_ON when msg_send turns to node `k`: it was there from the start, or the first read
      from an earlier node left it and no read since then changed it. */
  predicate SetOnBefore(cl: Cluster, k: nat, garbage: string, choices: nat -> Choice)
    decreases k, 0
  {
    if k == 0 then garbage == "CONTROL_SET_ON"
    else if k - 1 == cl.me then SetOnBefore(cl, k - 1, garbage, choices)
    else choices(k - 1).Met? && choices(k - 1).second.Failed? && SetOnAt(cl, k - 1, garbage, choices)
  }

  /** It holds it once the first read from node `k` has returned: the peer acknowledged, or the read failed and the
      text is old. */
  predicate SetOnAt(cl: Cluster, k: nat, garbage: string, choices: nat -> Choice)
    decreases k, 1
  {
    choices(k).Met? &&
    (choices(k).first.Message? || (choices(k).first.Failed? && SetOnBefore(cl, k, garbage, choices)))
  }

  /** Node `k` gets the configuration, and its insmod works. */
  predicate Configures(cl: Cluster, k: nat, garbage: string, choices: nat -> Choice) {
    choices(k).Met? && choices(k).insmodOk && SetOnAt(cl, k, garbage, choices)
  }

  /** The buffer holds "success" when msg_send turns to node `k`: it was there from the start, or an earlier node sent
      it, and every read since then failed. */
  predicate SuccessBefore(cl: Cluster, k: nat, garbage: string, choices: nat -> Choice, loaded: set<nat>) {
    if k == 0 then garbage == "success"
    else
      var j := k - 1;
      if j == cl.me then SuccessBefore(cl, j, garbage, choices, loaded)
      else
        choices(j).Met? &&
        match choices(j).second
        case Message => Configures(cl, j, garbage, choices) && j !in loaded
        case Closed => false
        case Failed => choices(j).first.Failed? && SuccessBefore(cl, j, garbage, choices, loaded)
  }

  /** Both reads from a reached peer fail while the buffer still holds "success". */
  predicate StaleAt(cl: Cluster, k: nat, garbage: string, choices: nat -> Choice, loaded: set<nat>) {
    && Reached(cl, k, choices) && choices(k).first.Failed? && choices(k).second.Failed?
    && SuccessBefore(cl, k, garbage, choices, loaded)
  }

  lemma ContactedSent(c: Control, k: nat, buffer: string, choice: Choice)
    requires choice.Met?
    ensures var stale := choice.first.Failed? && choice.second.Failed? && buffer == SUCCESS;
            AllSent(Contacted(c, k, buffer, choice).credited) <==> AllSent(c.credited) && !stale
  {
    var d := Contacted(c, k, buffer, choice);
    if d.credited != c.credited {
      assert d.credited[|c.credited|] == Credit(k, Loads(buffer, choice, k in c.loaded) && choice.second.Message?);
      assert forall i :: 0 <= i < |c.credited| ==> d.credited[i] == c.credited[i];
    }
  }

  ghost predicate NoneStaleFrom(cl: Cluster, k: nat, garbage: string, choices: nat -> Choice, loaded: set<nat>) {
    forall j :: k <= j ==> !StaleAt(cl, j, garbage, choices, loaded)
  }

  /** What the text in the buffer says about the reads so far, when msg_send turns to node `k`. */
  predicate TextTells(cl: Cluster, k: nat, buffer: string, garbage: string, choices: nat -> Choice, loaded: set<nat>) {
    && (buffer == SET_ON <==> SetOnBefore(cl, k, garbage, choices))
    && (buffer == SUCCESS <==> SuccessBefore(cl, k, garbage, choices, loaded))
  }

  lemma NextText(cl: Cluster, k: nat, buffer: string, garbage: string, choices: nat -> Choice, loaded: set<nat>)
    requires TextTells(cl, k, buffer, garbage, choices, loaded)
    ensures k == cl.me ==> TextTells(cl, k + 1, buffer, garbage, choices, loaded)
    ensures k != cl.me && choices(k).Met? ==>
              && (Loads(buffer, choices(k), k in loaded) <==> Configures(cl, k, garbage, choices) && k !in loaded)
              && TextTells(cl, k + 1, Exchanged(buffer, choices(k), k in loaded), garbage, choices, loaded)
  {
    assert SetOnAt(cl, k, garbage, choices) <==>
           choices(k).Met? && Read(buffer, choices(k).first, SET_ON) == SET_ON;
  }

  lemma {:induction false} SendSentFrom(cl: Cluster, c: Control, k: nat, used: bool, buffer: string,
                                        garbage: string, choices: nat -> Choice, loaded: set<nat>)
    requires TextTells(cl, k, buffer, garbage, choices, loaded) && used == (FirstPeer(cl) < k)
    requires forall j :: 0 <= j < k && j != cl.me ==> choices(j).Met?
    requires forall j :: k <= j ==> (j in c.loaded <==> j in loaded)
    ensures AllSent(Send(cl, c, k, used, buffer, choices).credited) <==>
            AllSent(c.credited) && NoneStaleFrom(cl, k, garbage, choices, loaded)
    decreases cl.n - k
  {
    hide AllSent, SetOnBefore, SetOnAt, SuccessBefore, Configures, Exchanged;
    if k < cl.n {
      assert NoneStaleFrom(cl, k, garbage, choices, loaded) <==>
             !StaleAt(cl, k, garbage, choices, loaded) && NoneStaleFrom(cl, k + 1, garbage, choices, loaded);
      NextText(cl, k, buffer, garbage, choices, loaded);
      if k == cl.me {
        SendSentFrom(cl, c, k + 1, used, buffer, garbage, choices, loaded);
      } else if !(choices(k).Refused? || (cl.sockets.Shared? && used)) {
        ContactedSent(c, k, buffer, choices(k));
        SendSentFrom(cl, Contacted(c, k, buffer, choices(k)), k + 1, true, Exchanged(buffer, choices(k), k in c.loaded),
                     garbage, choices, loaded);
      }
    }
  }

  /** The command's msg_send, if it makes one, meets no such peer. */
  ghost predicate NoneStale(cl: Cluster, c: Control, cmd: Command) {
    cmd.setConfig && cl.n > 1 ==> NoneStaleFrom(cl, 0, cmd.garbage, cmd.choices, c.loaded)
  }

  ghost predicate NoneStaleRun(cl: Cluster, c: Control, cmds: seq<Command>)
    decreases |cmds|
  {
    cmds == [] || (NoneStale(cl, c, cmds[0]) && NoneStaleRun(cl, Handle(cl, c, cmds[0]), cmds[1..]))
  }

  lemma ConfiguredSentIff(cl: Cluster, c: Control, cmd: Command)
    ensures AllSent(Configured(cl, c, cmd).credited) <==> AllSent(c.credited) && NoneStale(cl, c, cmd)
  {
    SendSentFrom(cl, c, 0, false, cmd.garbage, cmd.garbage, cmd.choices, c.loaded);
  }

  lemma {:induction false} NbdSendOnlyNbd(cl: Cluster, c: Control, k: nat, used: bool, buffer: string,
                                          choices: nat -> NbdChoice)
    ensures var d := NbdSend(cl, c, k, used, buffer, choices);
            d == c.(nbdCount := d.nbdCount, nbdCredits := d.nbdCredits)
    decreases cl.n - k
  {
    if k < cl.n {
      if k == cl.me {
        NbdSendOnlyNbd(cl, c, k + 1, used, buffer, choices);
      } else if !(choices(k).NbdRefused? || (cl.sockets.Shared? && used)) {
        var buffer' := Buffered(buffer, choices(k));
        NbdSendOnlyNbd(cl, NbdContacted(c, k, buffer', choices(k)), k + 1, true, buffer', choices);
      }
    }
  }

  lemma GatesKeepCredited(cl: Cluster, c: Control, cmd: Command)
    ensures Handle(cl, c, cmd).credited == Configured(cl, c, cmd).credited
  {
    var c1 := Configured(cl, c, cmd);
    var ok := cmd.vrdOk && !c1.volume;
    var c2 := c1.(volume := c1.volume || ok, loads := c1.loads + [Load(ok, c1.credited)]);
    NbdSendOnlyNbd(cl, c2, 0, false, cmd.nbdGarbage, cmd.nbdChoices);
  }

  lemma {:induction false} RepliesSentFrom(cl: Cluster, c: Control, cmds: seq<Command>)
    ensures AllSent(Run(cl, c, cmds).credited) <==> AllSent(c.credited) && NoneStaleRun(cl, c, cmds)
    decreases |cmds|
  {
    if cmds == [] {
    } else {
      ConfiguredSentIff(cl, c, cmds[0]);
      GatesKeepCredited(cl, c, cmds[0]);
      RepliesSentFrom(cl, Handle(cl, c, cmds[0]), cmds[1..]);
    }
  }

  /** In every run each "success" msg_send counted was the peer's own if and only if no reached peer ever failed both
      reads while the buffer still held an earlier one. */
  lemma RepliesSentIff(cl: Cluster, cmds: seq<Command>)
    ensures AllSent(Run(cl, START, cmds).credited) <==> NoneStaleRun(cl, START, cmds)
  {
    RepliesSentFrom(cl, START, cmds);
  }

  // ----- the load gate -----

  /** Genuine replies only. Before the load the counter is the number of peers counted; the load happens once, when all
      are; afterwards the counter can never fill up again. */
  ghost predicate Phase(cl: Cluster, c: Control) {
    && Credible(cl, c) && AllSent(c.credited)
    && if c.loads == [] then c.count == |c.credited| < cl.n - 1
       else |c.loads| == 1 && c.loads[0].credited == c.credited && |c.credited| == cl.n - 1 && c.count == 0
  }

  lemma SentPeersDistinct(cl: Cluster, c: Control)
    requires cl.Valid() && Credible(cl, c) && AllSent(c.credited)
    ensures |c.credited| <= cl.n - 1
    ensures |c.credited| == cl.n - 1 ==> AllPeersOnce(cl, PeersOf(c.credited))
  {
    var peers := PeersOf(c.credited);
    forall k | k in peers ensures cl.Peer(k) {
      var i :| 0 <= i < |peers| && peers[i] == k;
      assert c.credited[i].peer == k;
    }
    DistinctPeersAreAll(cl, peers);
  }

  lemma HandleKeepsPhase(cl: Cluster, c: Control, cmd: Command)
    requires cl.Valid() && Phase(cl, c) && NoneStale(cl, c, cmd)
    ensures Phase(cl, Handle(cl, c, cmd))
  {
    SendKeepsCredible(cl, c, 0, false, cmd.garbage, cmd.choices);
    ConfiguredSentIff(cl, c, cmd);
    hide Credible, AllSent, Send, NoneStaleFrom;
    var c1 := Configured(cl, c, cmd);
    SentPeersDistinct(cl, c1);
    assert |c.credited| == cl.n - 1 ==> c1.credited == c.credited;
    var ok := cmd.vrdOk && !c1.volume;
    var c2 := c1.(volume := c1.volume || ok, loads := c1.loads + [Load(ok, c1.credited)]);
    NbdSendOnlyNbd(cl, c2, 0, false, cmd.nbdGarbage, cmd.nbdChoices);
    CredibleAfterGates(cl, c1, Handle(cl, c, cmd));
  }

  lemma CredibleAfterGates(cl: Cluster, c: Control, d: Control)
    requires Credible(cl, c) && d.credited == c.credited && d.loaded == c.loaded
    ensures Credible(cl, d)
  {
  }

  lemma {:induction false} RunKeepsPhase(cl: Cluster, c: Control, cmds: seq<Command>)
    requires cl.Valid() && Phase(cl, c) && NoneStaleRun(cl, c, cmds)
    ensures Phase(cl, Run(cl, c, cmds))
    decreases |cmds|
  {
    if cmds == [] {
    } else {
      HandleKeepsPhase(cl, c, cmds[0]);
      RunKeepsPhase(cl, Handle(cl, c, cmds[0]), cmds[1..]);
    }
  }

  /** In every run without stale replies the volume is loaded at most once, and by then each peer has loaded its module
      and its own "success" has been counted exactly once. */
  lemma BringUpIsSafe(cl: Cluster, cmds: seq<Command>)
    requires cl.Valid() && NoneStaleRun(cl, START, cmds)
    ensures var c := Run(cl, START, cmds);
            |c.loads| <= 1 &&
            (c.loads != [] ==>
               && AllPeersOnce(cl, PeersOf(c.loads[0].credited)) && AllSent(c.loads[0].credited)
               && forall k: nat :: cl.Peer(k) ==> k in c.loaded)
  {
    RunKeepsPhase(cl, START, cmds);
    var c := Run(cl, START, cmds);
    SentPeersDistinct(cl, c);
    if c.loads != [] {
      var peers := PeersOf(c.credited);
      forall k: nat | cl.Peer(k) ensures k in c.loaded {
        assert k in peers;
        var i :| 0 <= i < |peers| && peers[i] == k;
        assert c.credited[i].peer == k;
      }
    }
  }

  /** Whenever a run first tries to load the volume, the replies counted by then are one genuine "success" of each peer
      if and only if the run so far met no stale reply. */
  lemma FirstLoadIsSafeIff(cl: Cluster, cmds: seq<Command>, cmd: Command)
    requires cl.Valid() && Run(cl, START, cmds).loads == [] && Run(cl, START, cmds + [cmd]).loads != []
    ensures var credited := Run(cl, START, cmds + [cmd]).loads[0].credited;
            AllSent(credited) && AllPeersOnce(cl, PeersOf(credited)) <==> NoneStaleRun(cl, START, cmds + [cmd])
  {
    var c := Run(cl, START, cmds);
    RunAppend(cl, START, cmds, cmd);
    var d := Handle(cl, c, cmd);
    FirstLoadCredits(cl, c, cmd);
    RepliesSentIff(cl, cmds + [cmd]);
    if NoneStaleRun(cl, START, cmds + [cmd]) {
      BringUpIsSafe(cl, cmds + [cmd]);
    }
  }

  lemma FirstLoadCredits(cl: Cluster, c: Control, cmd: Command)
    requires c.loads == [] && Handle(cl, c, cmd).loads != []
    ensures var d := Handle(cl, c, cmd); d.loads[0].credited == d.credited
  {
    GatesKeepCredited(cl, c, cmd);
    SendLeavesLoads(cl, c, 0, false, cmd.garbage, cmd.choices);
    var c1 := Configured(cl, c, cmd);
    var ok := cmd.vrdOk && !c1.volume;
    var c2 := c1.(volume := c1.volume || ok, loads := c1.loads + [Load(ok, c1.credited)]);
    NbdSendOnlyNbd(cl, c2, 0, false, cmd.nbdGarbage, cmd.nbdChoices);
  }

  lemma {:induction false} SendLeavesLoads(cl: Cluster, c: Control, k: nat, used: bool, buffer: string,
                                           choices: nat -> Choice)
    ensures Send(cl, c, k, used, buffer, choices).loads == c.loads
    decreases cl.n - k
  {
    if k < cl.n {
      if k == cl.me {
        SendLeavesLoads(cl, c, k + 1, used, buffer, choices);
      } else if !(choices(k).Refused? || (cl.sockets.Shared? && used)) {
        SendLeavesLoads(cl, Contacted(c, k, buffer, choices(k)), k + 1, true,
                        Exchanged(buffer, choices(k), k in c.loaded), choices);
      }
    }
  }

  lemma {:induction false} RunAppend(cl: Cluster, c: Control, cmds: seq<Command>, cmd: Command)
    ensures Run(cl, c, cmds + [cmd]) == Handle(cl, Run(cl, c, cmds), cmd)
    decreases |cmds|
  {
    var all := cmds + [cmd];
    if cmds == [] {
      assert all[1..] == [];
    } else {
      assert all[1..] == cmds[1..] + [cmd];
      RunAppend(cl, Handle(cl, c, cmds[0]), cmds[1..], cmd);
    }
  }

  /** Three nodes, one "success" and one connection that breaks before either read: the count is two and the volume is
      loaded, with one peer ready. */
  lemma LoadOnOneReady() returns (cmd: Command)
    ensures var c := Handle(Cluster(3, 0, PerPeer), START, cmd);
            c.loads == [Load(true, [Credit(1, true), Credit(2, false)])] && c.loaded == {1}
  {
    var cl := Cluster(3, 0, PerPeer);
    cmd := Command(true, k => if k == 1 then Met(Message, true, Message) else Met(Failed, true, Failed), "",
                   true, _ => NbdRefused, "");
    var c1 := Contacted(START, 1, "", cmd.choices(1));
    var c2 := Contacted(c1, 2, SUCCESS, cmd.choices(2));
    assert Exchanged("", cmd.choices(1), 1 in START.loaded) == SUCCESS;
    assert Exchanged(SUCCESS, cmd.choices(2), 2 in c1.loaded) == SUCCESS;
    assert Send(cl, START, 0, false, "", cmd.choices) == Send(cl, START, 1, false, "", cmd.choices)
        == Send(cl, c1, 2, true, SUCCESS, cmd.choices) == Send(cl, c2, 3, true, SUCCESS, cmd.choices) == c2;
    assert c1.loaded == c2.loaded == {1} && c2.credited == [Credit(1, true), Credit(2, false)];
    var l := c2.(volume := true, loads := [Load(true, c2.credited)]);
    assert c2.loads + [Load(true, c2.credited)] == l.loads;
    assert NbdSend(cl, l, 0, false, "", cmd.nbdChoices) == NbdSend(cl, l, 1, false, "", cmd.nbdChoices) == l;
  }

  // ----- stale replies in nbd_msg_send -----

  /** The text in the buffer when node `k`'s read returns: the last one received, or what the stack held. */
  function TextAt(cl: Cluster, k: nat, garbage: string, choices: nat -> NbdChoice): string {
    if k < cl.n && k != cl.me && choices(k).Replied? then choices(k).text
    else if k == 0 then garbage
    else TextAt(cl, k - 1, garbage, choices)
  }

  /** Node `k` is reached by nbd_msg_send. */
  predicate NbdReached(cl: Cluster, k: nat, choices: nat -> NbdChoice) {
    && cl.Peer(k)
    && (forall j :: 0 <= j <= k && j != cl.me ==> !choices(j).NbdRefused?)
    && (cl.sockets.Shared? ==> k == FirstPeer(cl))
  }

  /** From node `k` on, replies are counted for nodes from `k` on. */
  lemma {:induction false} NbdSendAdds(cl: Cluster, c: Control, k: nat, used: bool, buffer: string,
                                       choices: nat -> NbdChoice, x: Credit)
    requires x.peer < k
    ensures x in NbdSend(cl, c, k, used, buffer, choices).nbdCredits <==> x in c.nbdCredits
    decreases cl.n - k
  {
    if k < cl.n {
      if k == cl.me {
        NbdSendAdds(cl, c, k + 1, used, buffer, choices, x);
      } else if !(choices(k).NbdRefused? || (cl.sockets.Shared? && used)) {
        var buffer' := Buffered(buffer, choices(k));
        NbdSendAdds(cl, NbdContacted(c, k, buffer', choices(k)), k + 1, true, buffer', choices, x);
      }
    }
  }

  lemma {:induction false} NbdCountedFrom(cl: Cluster, c: Control, k: nat, used: bool, buffer: string, garbage: string,
                                          choices: nat -> NbdChoice, x: Credit)
    requires buffer == (if k == 0 then garbage else TextAt(cl, k - 1, garbage, choices))
    requires used == (FirstPeer(cl) < k)
    requires k <= x.peer && x !in c.nbdCredits
    requires forall j :: 0 <= j < k && j != cl.me ==> !choices(j).NbdRefused?
    ensures x in NbdSend(cl, c, k, used, buffer, choices).nbdCredits <==>
              && NbdReached(cl, x.peer, choices) && TextAt(cl, x.peer, garbage, choices) == LOAD_REPLY
              && x.sent == choices(x.peer).Replied?
    decreases cl.n - k
  {
    if k < cl.n {
      if k == cl.me {
        if x.peer == k {
          NbdSendAdds(cl, c, k + 1, used, buffer, choices, x);
        } else {
          NbdCountedFrom(cl, c, k + 1, used, buffer, garbage, choices, x);
        }
      } else if !(choices(k).NbdRefused? || (cl.sockets.Shared? && used)) {
        var buffer' := Buffered(buffer, choices(k));
        var d := NbdContacted(c, k, buffer', choices(k));
        if x.peer == k {
          NbdSendAdds(cl, d, k + 1, true, buffer', choices, x);
        } else {
          NbdCountedFrom(cl, d, k + 1, true, buffer', garbage, choices, x);
        }
      }
    }
  }

  /** nbd_msg_send counts a reply for a peer exactly when it is reached and the buffer then holds NBD_CLIENT_LOAD, be it
      fresh or left over from an earlier peer; the peer has sent it only in the first case. */
  lemma NbdCountedIff(cl: Cluster, c: Control, garbage: string, choices: nat -> NbdChoice, x: Credit)
    requires c.nbdCredits == []
    ensures x in NbdSend(cl, c, 0, false, garbage, choices).nbdCredits <==>
              && NbdReached(cl, x.peer, choices) && TextAt(cl, x.peer, garbage, choices) == "NBD_CLIENT_LOAD"
              && x.sent == choices(x.peer).Replied?
  {
    NbdCountedFrom(cl, c, 0, false, garbage, garbage, choices, x);
  }

  /** A reached peer stays silent while the buffer still holds an earlier NBD_CLIENT_LOAD. */
  predicate NbdStaleAt(cl: Cluster, k: nat, garbage: string, choices: nat -> NbdChoice) {
    NbdReached(cl, k, choices) && choices(k).Silent? && TextAt(cl, k, garbage, choices) == "NBD_CLIENT_LOAD"
  }

  /** Every counted reply was really sent if and only if there is no such peer. */
  lemma RepliesGenuineIff(cl: Cluster, c: Control, garbage: string, choices: nat -> NbdChoice)
    requires c.nbdCredits == []
    ensures AllSent(NbdSend(cl, c, 0, false, garbage, choices).nbdCredits) <==>
            forall k: nat :: !NbdStaleAt(cl, k, garbage, choices)
  {
    var credits := NbdSend(cl, c, 0, false, garbage, choices).nbdCredits;
    forall k: nat | NbdStaleAt(cl, k, garbage, choices) ensures Credit(k, false) in credits {
      NbdCountedIff(cl, c, garbage, choices, Credit(k, false));
    }
    forall x <- credits
      ensures NbdReached(cl, x.peer, choices) && TextAt(cl, x.peer, garbage, choices) == "NBD_CLIENT_LOAD"
              && x.sent == choices(x.peer).Replied?
    {
      NbdCountedIff(cl, c, garbage, choices, x);
    }
    if forall k: nat :: !NbdStaleAt(cl, k, garbage, choices) {
      forall i | 0 <= i < |credits| ensures credits[i].sent {
        var x := credits[i];
        assert x in credits && !NbdStaleAt(cl, x.peer, garbage, choices);
      }
    }
  }

  /** The command's nbd_msg_send, if the load gate makes one, meets no such peer. */
  ghost predicate NbdNoneStale(cl: Cluster, c: Control, cmd: Command) {
    var c1 := Configured(cl, c, cmd);
    c1.count == cl.n - 1 && cmd.vrdOk && !c1.volume ==>
      forall k: nat :: !NbdStaleAt(cl, k, cmd.nbdGarbage, cmd.nbdChoices)
  }

  ghost predicate NbdNoneStaleRun(cl: Cluster, c: Control, cmds: seq<Command>)
    decreases |cmds|
  {
    cmds == [] || (NbdNoneStale(cl, c, cmds[0]) && NbdNoneStaleRun(cl, Handle(cl, c, cmds[0]), cmds[1..]))
  }

  lemma HandleSentIff(cl: Cluster, c: Control, cmd: Command)
    requires cl.Valid() && Sound(cl, c)
    ensures AllSent(Handle(cl, c, cmd).nbdCredits) <==> AllSent(c.nbdCredits) && NbdNoneStale(cl, c, cmd)
  {
    SendKeepsCredible(cl, c, 0, false, cmd.garbage, cmd.choices);
    var c1 := Configured(cl, c, cmd);
    var ok := cmd.vrdOk && !c1.volume;
    var c2 := c1.(volume := c1.volume || ok, loads := c1.loads + [Load(ok, c1.credited)]);
    hide Send, Credible, NbdInOrder, AllSent, NbdSend;
    if ok {
      assert AllSent([]) by {
        SentNothing();
      }
      RepliesGenuineIff(cl, c2, cmd.nbdGarbage, cmd.nbdChoices);
    }
  }

  lemma SentNothing()
    ensures AllSent([])
  {
  }

  lemma {:induction false} NbdRepliesSentFrom(cl: Cluster, c: Control, cmds: seq<Command>)
    requires cl.Valid() && Sound(cl, c)
    ensures AllSent(Run(cl, c, cmds).nbdCredits) <==> AllSent(c.nbdCredits) && NbdNoneStaleRun(cl, c, cmds)
    decreases |cmds|
  {
    if cmds == [] {
    } else {
      HandleSentIff(cl, c, cmds[0]);
      HandleKeepsSound(cl, c, cmds[0]);
      NbdRepliesSentFrom(cl, Handle(cl, c, cmds[0]), cmds[1..]);
    }
  }

  /** In every run that has written "success", the NBD replies behind it were all sent if and only if no silent peer
      met a stale buffer. */
  lemma SuccessIsGenuineIff(cl: Cluster, cmds: seq<Command>)
    requires cl.Valid() && Run(cl, START, cmds).successes != []
    ensures AllSent(Run(cl, START, cmds).successes[0]) <==> NbdNoneStaleRun(cl, START, cmds)
  {
    RunKeepsSound(cl, START, cmds);
    NbdRepliesSentFrom(cl, START, cmds);
  }

  /** Three nodes, one answer: the second peer's empty read is counted too, and success is written to the client. */
  lemma SuccessOnOneReply() returns (cmd: Command)
    ensures var c := Handle(Cluster(3, 0, PerPeer), START, cmd);
            c.successes == [[Credit(1, true), Credit(2, false)]] && AllSent(c.credited)
  {
    var cl := Cluster(3, 0, PerPeer);
    cmd := Command(true, _ => Met(Message, true, Message), "", true,
                   k => if k == 1 then Replied(LOAD_REPLY) else Silent, "");
    var s1 := Contacted(START, 1, "", cmd.choices(1));
    var s2 := Contacted(s1, 2, SUCCESS, cmd.choices(2));
    assert Exchanged("", cmd.choices(1), 1 in START.loaded) == SUCCESS;
    assert Exchanged(SUCCESS, cmd.choices(2), 2 in s1.loaded) == SUCCESS;
    assert Send(cl, START, 0, false, "", cmd.choices) == Send(cl, START, 1, false, "", cmd.choices)
        == Send(cl, s1, 2, true, SUCCESS, cmd.choices) == Send(cl, s2, 3, true, SUCCESS, cmd.choices) == s2;
    var l := s2.(volume := true, loads := [Load(true, s2.credited)]);
    assert s2.loads + [Load(true, s2.credited)] == l.loads;
    var n1 := NbdContacted(l, 1, LOAD_REPLY, Replied(LOAD_REPLY));
    var n2 := NbdContacted(n1, 2, LOAD_REPLY, Silent);
    assert NbdSend(cl, l, 0, false, "", cmd.nbdChoices) == NbdSend(cl, l, 1, false, "", cmd.nbdChoices)
        == NbdSend(cl, n1, 2, true, LOAD_REPLY, cmd.nbdChoices)
        == NbdSend(cl, n2, 3, true, LOAD_REPLY, cmd.nbdChoices) == n2;
    assert n2.nbdCredits == [Credit(1, true), Credit(2, false)];
  }

  // ----- one socket for all peers -----

  predicate AllOf(credits: seq<Credit>, k: nat) {
    forall i :: 0 <= i < |credits| ==> credits[i].peer == k
  }

  lemma {:induction false} SharedSendReachesFirst(cl: Cluster, c: Control, k: nat, used: bool, buffer: string,
                                                  choices: nat -> Choice)
    requires cl.sockets.Shared? && used == (FirstPeer(cl) < k) && AllOf(c.credited, FirstPeer(cl))
    ensures AllOf(Send(cl, c, k, used, buffer, choices).credited, FirstPeer(cl))
    decreases cl.n - k
  {
    if k < cl.n {
      if k == cl.me {
        SharedSendReachesFirst(cl, c, k + 1, used, buffer, choices);
      } else if !(choices(k).Refused? || used) {
        SharedSendReachesFirst(cl, Contacted(c, k, buffer, choices(k)), k + 1, true,
                               Exchanged(buffer, choices(k), k in c.loaded), choices);
      }
    }
  }

  lemma NoRepeatsOfOne(s: seq<nat>, v: nat)
    ensures (forall i :: 0 <= i < |s| ==> s[i] == v) && NoRepeats(s) ==> |s| <= 1
  {
    if (forall i :: 0 <= i < |s| ==> s[i] == v) && 1 < |s| {
      assert s[0] == s[1];
    }
  }

  lemma SharedHandle(cl: Cluster, c: Control, cmd: Command)
    requires cl.Valid() && cl.sockets.Shared? && 2 < cl.n && Phase(cl, c) && c.loads == []
    requires AllOf(c.credited, FirstPeer(cl)) && NoneStale(cl, c, cmd)
    ensures var d := Handle(cl, c, cmd); d.loads == [] && AllOf(d.credited, FirstPeer(cl))
  {
    SendKeepsCredible(cl, c, 0, false, cmd.garbage, cmd.choices);
    SharedSendReachesFirst(cl, c, 0, false, cmd.garbage, cmd.choices);
    ConfiguredSentIff(cl, c, cmd);
    NoRepeatsOfOne(PeersOf(Configured(cl, c, cmd).credited), FirstPeer(cl));
  }

  lemma {:induction false} SharedRun(cl: Cluster, c: Control, cmds: seq<Command>)
    requires cl.Valid() && cl.sockets.Shared? && 2 < cl.n && Phase(cl, c) && c.loads == []
    requires AllOf(c.credited, FirstPeer(cl)) && NoneStaleRun(cl, c, cmds)
    ensures Run(cl, c, cmds).loads == []
    decreases |cmds|
  {
    if cmds == [] {
    } else {
      SharedHandle(cl, c, cmds[0]);
      HandleKeepsPhase(cl, c, cmds[0]);
      SharedRun(cl, Handle(cl, c, cmds[0]), cmds[1..]);
    }
  }

  /** Some run without stale replies loads the volume. */
  ghost predicate CanLoad(cl: Cluster) {
    exists cmds :: NoneStaleRun(cl, START, cmds) && Run(cl, START, cmds).loads != []
  }

  /** With the one socket of the source, genuine replies can load the volume in a cluster of two and in no larger
      one. */
  lemma SharedSocketLoadsIffTwoNodes(cl: Cluster)
    requires cl.Valid() && cl.sockets.Shared?
    ensures CanLoad(cl) <==> cl.n == 2
  {
    if cl.n == 2 {
      var cmd := Command(true, _ => Met(Message, true, Message), "", false, _ => Silent, "");
      var p := FirstPeer(cl);
      var s := Contacted(START, p, "", cmd.choices(p));
      assert Exchanged("", cmd.choices(p), p in START.loaded) == SUCCESS;
      assert Send(cl, START, 0, false, "", cmd.choices) == Send(cl, START, p, false, "", cmd.choices)
          == Send(cl, s, p + 1, true, SUCCESS, cmd.choices) == s;
      var cmds := [cmd];
      assert cmds[1..] == [];
      assert Run(cl, START, cmds) == Handle(cl, START, cmd);
      assert NoneStale(cl, START, cmd);
      assert NoneStaleRun(cl, START, cmds);
    } else {
      forall cmds | NoneStaleRun(cl, START, cmds) ensures Run(cl, START, cmds).loads == [] {
        SharedRun(cl, START, cmds);
      }
    }
  }

  /** One command with a buffer that happens to hold "success" and a first peer that fails both reads. */
  lemma GarbageCounts(cl: Cluster, c: Control, cmd: Command)
    requires cl.Valid() && cl.sockets.Shared?
    requires cmd.setConfig && cmd.garbage == SUCCESS && cmd.choices(FirstPeer(cl)) == Met(Failed, false, Failed)
    ensures Configured(cl, c, cmd).count == c.count + 1 && Configured(cl, c, cmd).loads == c.loads
    ensures Configured(cl, c, cmd).nbdCount == c.nbdCount
  {
    var p := FirstPeer(cl);
    var d := Contacted(c, p, SUCCESS, cmd.choices(p));
    assert Exchanged(SUCCESS, cmd.choices(p), p in c.loaded) == SUCCESS;
    assert Send(cl, c, 0, false, SUCCESS, cmd.choices) == Send(cl, c, p, false, SUCCESS, cmd.choices)
        == Send(cl, d, p + 1, true, SUCCESS, cmd.choices);
    assert Send(cl, d, p + 1, true, SUCCESS, cmd.choices) == d;
  }

  /** Stale text alone can load the volume in a cluster of any size: nobody has to answer. */
  lemma {:induction false} GarbageLoads(cl: Cluster, c: Control) returns (cmds: seq<Command>)
    requires cl.Valid() && cl.sockets.Shared? && c.loads == [] && c.count < cl.n - 1 && c.nbdCount == 0
    ensures Run(cl, c, cmds).loads != []
    decreases cl.n - c.count
  {
    var cmd := Command(true, _ => Met(Failed, false, Failed), SUCCESS, false, _ => Silent, "");
    GarbageCounts(cl, c, cmd);
    if c.count + 1 == cl.n - 1 {
      cmds := [cmd];
      assert cmds[1..] == [];
      assert Run(cl, c, cmds) == Handle(cl, c, cmd);
    } else {
      var rest := GarbageLoads(cl, Handle(cl, c, cmd));
      cmds := [cmd] + rest;
      assert cmds[1..] == rest;
    }
  }

  // ----- the controller's variables -----

  /** The coordinator's globals, the modules its peers have loaded, and the history. */
  class Controller {
    const cl: Cluster
    var count: nat
    var nbdCount: nat
    var successFlag: bool
    var loaded: set<nat>
    var volume: bool
    ghost var credited: seq<Credit>
    ghost var nbdCredits: seq<Credit>
    ghost var loads: seq<Load>
    ghost var successes: seq<seq<Credit>>

    constructor (cl: Cluster)
      ensures this.cl == cl && State() == START && !successFlag
    {
      this.cl, count, nbdCount, successFlag, loaded, volume := cl, 0, 0, false, {}, false;
      credited, nbdCredits, loads, successes := [], [], [], [];
    }

    ghost function State(): Control
      reads this
    {
      Control(count, nbdCount, loaded, volume, credited, nbdCredits, loads, successes)
    }

    /** msg_send: stops at the first failed connect and counts whenever the buffer ends up holding "success". */
    method MsgSend(garbage: string, choices: nat -> Choice)
      modifies this`count, this`loaded, this`credited
      ensures State() == Send(cl, old(State()), 0, false, garbage, choices)
    {
      var buffer := garbage;
      var k, used := 0, false;
      while k < cl.n
        invariant Send(cl, old(State()), 0, false, garbage, choices) == Send(cl, State(), k, used, buffer, choices)
      {
        if k != cl.me {
          if choices(k).Refused? || (cl.sockets.Shared? && used) {
            return;
          }
          used := true;
          buffer := Read(buffer, choices(k).first, SET_ON);
          var answers := buffer == SET_ON && choices(k).insmodOk && k !in loaded;
          if answers {
            loaded := loaded + {k};
          }
          buffer := Read(buffer, choices(k).second, if answers then SUCCESS else "");
          if buffer == SUCCESS {
            count := count + 1;
            credited := credited + [Credit(k, answers && choices(k).second.Message?)];
          }
        }
        k := k + 1;
      }
    }

    /** nbd_msg_send: the buffer is compared after every read, whether or not the read brought anything. */
    method NbdMsgSend(garbage: string, choices: nat -> NbdChoice)
      modifies this`nbdCount, this`nbdCredits
      ensures State() == NbdSend(cl, old(State()), 0, false, garbage, choices)
    {
      var buffer := garbage;
      var k, used := 0, false;
      while k < cl.n
        invariant NbdSend(cl, old(State()), 0, false, garbage, choices)
               == NbdSend(cl, State(), k, used, buffer, choices)
      {
        if k != cl.me {
          if choices(k).NbdRefused? || (cl.sockets.Shared? && used) {
            return;
          }
          used := true;
          if choices(k).Replied? {
            buffer := choices(k).text;
          }
          if buffer == LOAD_REPLY {
            nbdCount := nbdCount + 1;
            nbdCredits := nbdCredits + [Credit(k, choices(k) == Replied(LOAD_REPLY))];
          }
        }
        k := k + 1;
      }
    }

    /** One command in main: what it sends, then the two gates. */
    method HandleCommand(cmd: Command)
      modifies this
      ensures State() == Handle(cl, old(State()), cmd)
      ensures successFlag == (old(successFlag) || successes != old(successes))
    {
      if cmd.setConfig && cl.n > 1 {
        MsgSend(cmd.garbage, cmd.choices);
      }
      if count == cl.n - 1 {
        var ok := cmd.vrdOk && !volume;
        volume := volume || ok;
        loads := loads + [Load(ok, credited)];
        if ok && count != 0 {
          NbdMsgSend(cmd.nbdGarbage, cmd.nbdChoices);
        }
        count := 0;
      }
      if nbdCount == cl.n - 1 {
        successFlag := true;
        successes := successes + [nbdCredits];
        nbdCount := 0;
      }
    }
  }
}
