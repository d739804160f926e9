/** Bring-up told by the commands alone: which peers load their modules, whose replies are counted, and when the load
    gate opens. */
module BringUpReplies {
  import opened BringUp

  // ----- one msg_send -----

  /** What `d` has counted beyond `c`. */
  function Newly(c: Control, d: Control): seq<Credit> {
    if |c.credited| <= |d.credited| then d.credited[|c.credited|..] else []
  }

  /** A reply counted for a node: its own when it got the configuration, its insmod worked and the message came; a stale
      one when both reads failed while the buffer held "success". */
  predicate Counts(cl: Cluster, x: Credit, garbage: string, choices: nat -> Choice, loaded: set<nat>) {
    var k := x.peer;
    if x.sent then Reached(cl, k, choices) && Configures(cl, k, garbage, choices) && k !in loaded
                   && choices(k).second.Message?
    else StaleAt(cl, k, garbage, choices, loaded)
  }

  /** For nodes from `k` on, in ascending order. */
  predicate Upward(credits: seq<Credit>, k: nat) {
    && (forall i :: 0 <= i < |credits| ==> k <= credits[i].peer)
    && (forall i, j :: 0 <= i < j < |credits| ==> credits[i].peer < credits[j].peer)
  }

  lemma UpwardJoin(a: seq<Credit>, b: seq<Credit>, k: nat)
    requires |a| <= 1 && (a != [] ==> a[0].peer == k) && Upward(b, k + 1)
    ensures Upward(a + b, k)
  {
  }

  lemma ContactedOnce(c: Control, k: nat, buffer: string, choice: Choice)
    requires choice.Met?
    ensures var c1 := Contacted(c, k, buffer, choice);
            && c.credited <= c1.credited && |Newly(c, c1)| <= 1
            && (Newly(c, c1) != [] ==> Newly(c, c1)[0].peer == k)
  {
    hide Loads, Exchanged;
  }

  /** New replies are counted upward. */
  lemma {:induction false} SendCountsUpward(cl: Cluster, c: Control, k: nat, used: bool, buffer: string,
                                            choices: nat -> Choice)
    ensures var d := Send(cl, c, k, used, buffer, choices); c.credited <= d.credited && Upward(Newly(c, d), k)
    decreases cl.n - k
  {
    hide Contacted, Exchanged;
    if k < cl.n {
      if k == cl.me {
        SendCountsUpward(cl, c, k + 1, used, buffer, choices);
      } else if !(choices(k).Refused? || (cl.sockets.Shared? && used)) {
        var c1, buffer' := Contacted(c, k, buffer, choices(k)), Exchanged(buffer, choices(k), k in c.loaded);
        ContactedOnce(c, k, buffer, choices(k));
        SendCountsUpward(cl, c1, k + 1, true, buffer', choices);
        var d := Send(cl, c1, k + 1, true, buffer', choices);
        NewlyJoin(c, c1, d);
        UpwardJoin(Newly(c, c1), Newly(c1, d), k);
      }
    }
  }

  lemma NewlyJoin(c: Control, c1: Control, d: Control)
    requires c.credited <= c1.credited <= d.credited
    ensures c.credited <= d.credited && Newly(c, d) == Newly(c, c1) + Newly(c1, d)
  {
  }

  /** One exchange: what it counts and what it loads. */
  lemma ExchangeCounts(cl: Cluster, c: Control, k: nat, buffer: string, garbage: string, choices: nat -> Choice,
                       loaded: set<nat>, sent: bool)
    requires TextTells(cl, k, buffer, garbage, choices, loaded) && Reached(cl, k, choices)
    requires k in c.loaded <==> k in loaded
    ensures var c1 := Contacted(c, k, buffer, choices(k));
            && c.credited <= c1.credited
            && (forall x :: x in Newly(c, c1) ==> x.peer == k)
            && (Credit(k, sent) in Newly(c, c1) <==> Counts(cl, Credit(k, sent), garbage, choices, loaded))
            && c1.loaded == if Configures(cl, k, garbage, choices) then c.loaded + {k} else c.loaded
  {
    hide SetOnBefore, SetOnAt, SuccessBefore;
    NextText(cl, k, buffer, garbage, choices, loaded);
    hide Configures;
    var c1 := Contacted(c, k, buffer, choices(k));
    assert k in c.loaded ==> c.loaded + {k} == c.loaded;
    if Exchanged(buffer, choices(k), k in c.loaded) == SUCCESS {
      var y := Credit(k, Loads(buffer, choices(k), k in c.loaded) && choices(k).second.Message?);
      assert c1.credited == c.credited + [y] && Newly(c, c1) == [y];
    } else {
      assert Newly(c, c1) == [];
    }
  }

  /** A node that refuses, or a socket in use, ends the send: no node from there on is reached. */
  lemma NoneReached(cl: Cluster, k: nat, used: bool, garbage: string, choices: nat -> Choice, loaded: set<nat>,
                    x: Credit)
    requires used == (FirstPeer(cl) < k) && k <= x.peer
    requires cl.n <= k || (k != cl.me && (choices(k).Refused? || (cl.sockets.Shared? && used)))
    ensures !Reached(cl, x.peer, choices) && !Counts(cl, x, garbage, choices, loaded)
  {
  }

  lemma InJoined(a: seq<Credit>, b: seq<Credit>, x: Credit, k: nat)
    requires (forall y :: y in a ==> y.peer == k) && Upward(b, k + 1)
    ensures x in a + b <==> if x.peer == k then x in a else x in b
  {
  }

  lemma {:induction false} SendCountedFrom(cl: Cluster, c: Control, k: nat, used: bool, buffer: string, garbage: string,
                                           choices: nat -> Choice, loaded: set<nat>, x: Credit)
    requires TextTells(cl, k, buffer, garbage, choices, loaded) && used == (FirstPeer(cl) < k) && k <= x.peer
    requires forall j :: 0 <= j < k && j != cl.me ==> choices(j).Met?
    requires forall j :: k <= j ==> (j in c.loaded <==> j in loaded)
    ensures x in Newly(c, Send(cl, c, k, used, buffer, choices)) <==> Counts(cl, x, garbage, choices, loaded)
    decreases cl.n - k
  {
    hide SetOnBefore, SetOnAt, SuccessBefore, Configures, Exchanged, Contacted, TextTells;
    if cl.n <= k || (k != cl.me && (choices(k).Refused? || (cl.sockets.Shared? && used))) {
      NoneReached(cl, k, used, garbage, choices, loaded, x);
    } else {
      NextText(cl, k, buffer, garbage, choices, loaded);
      if k == cl.me {
        SendCountsUpward(cl, c, k + 1, used, buffer, choices);
        if x.peer != k {
          SendCountedFrom(cl, c, k + 1, used, buffer, garbage, choices, loaded, x);
        }
      } else {
        assert Reached(cl, k, choices);
        var c1, buffer' := Contacted(c, k, buffer, choices(k)), Exchanged(buffer, choices(k), k in c.loaded);
        ExchangeCounts(cl, c, k, buffer, garbage, choices, loaded, x.sent);
        hide Counts, Reached;
        SendCountsUpward(cl, c1, k + 1, true, buffer', choices);
        var d := Send(cl, c1, k + 1, true, buffer', choices);
        NewlyJoin(c, c1, d);
        InJoined(Newly(c, c1), Newly(c1, d), x, k);
        hide Newly;
        if x.peer == k {
          assert x == Credit(k, x.sent);
        } else {
          SendCountedFrom(cl, c1, k + 1, true, buffer', garbage, choices, loaded, x);
        }
      }
    }
  }

  /** One msg_send newly counts a peer's own "success" exactly when the peer is reached, the text after its first read
      is CONTROL_SET_ON, its insmod works, it had not loaded its module before, and the second read brings the message;
      it newly counts one the peer has not sent exactly when both reads fail on a buffer that holds "success". Each peer
      is counted once at most. */
  lemma SendCountsIff(cl: Cluster, c: Control, garbage: string, choices: nat -> Choice, k: nat)
    ensures var new' := Newly(c, Send(cl, c, 0, false, garbage, choices));
            && (Credit(k, true) in new' <==>
                  && Reached(cl, k, choices) && SetOnAt(cl, k, garbage, choices) && choices(k).insmodOk
                  && k !in c.loaded && choices(k).second.Message?)
            && (Credit(k, false) in new' <==> StaleAt(cl, k, garbage, choices, c.loaded))
            && forall i, j :: 0 <= i < j < |new'| ==> new'[i].peer < new'[j].peer
  {
    SendCountsUpward(cl, c, 0, false, garbage, choices);
    SendCountedFrom(cl, c, 0, false, garbage, garbage, choices, c.loaded, Credit(k, true));
    SendCountedFrom(cl, c, 0, false, garbage, garbage, choices, c.loaded, Credit(k, false));
  }

  lemma {:induction false} SendLoadsUpward(cl: Cluster, c: Control, k: nat, used: bool, buffer: string,
                                           choices: nat -> Choice, j: nat)
    requires j < k
    ensures j in Send(cl, c, k, used, buffer, choices).loaded <==> j in c.loaded
    decreases cl.n - k
  {
    hide Exchanged;
    if k < cl.n {
      if k == cl.me {
        SendLoadsUpward(cl, c, k + 1, used, buffer, choices, j);
      } else if !(choices(k).Refused? || (cl.sockets.Shared? && used)) {
        SendLoadsUpward(cl, Contacted(c, k, buffer, choices(k)), k + 1, true,
                        Exchanged(buffer, choices(k), k in c.loaded), choices, j);
      }
    }
  }

  lemma {:induction false} SendLoadedFrom(cl: Cluster, c: Control, k: nat, used: bool, buffer: string, garbage: string,
                                          choices: nat -> Choice, loaded: set<nat>, j: nat)
    requires TextTells(cl, k, buffer, garbage, choices, loaded) && used == (FirstPeer(cl) < k) && k <= j
    requires forall i :: 0 <= i < k && i != cl.me ==> choices(i).Met?
    requires forall i :: k <= i ==> (i in c.loaded <==> i in loaded)
    ensures j in Send(cl, c, k, used, buffer, choices).loaded <==>
            j in loaded || (Reached(cl, j, choices) && Configures(cl, j, garbage, choices))
    decreases cl.n - k
  {
    hide SetOnBefore, SetOnAt, SuccessBefore, Configures, Exchanged, Contacted;
    if k < cl.n {
      NextText(cl, k, buffer, garbage, choices, loaded);
      if k == cl.me {
        if j == k {
          SendLoadsUpward(cl, c, k + 1, used, buffer, choices, j);
        } else {
          SendLoadedFrom(cl, c, k + 1, used, buffer, garbage, choices, loaded, j);
        }
      } else if !(choices(k).Refused? || (cl.sockets.Shared? && used)) {
        assert Reached(cl, k, choices);
        var c1, buffer' := Contacted(c, k, buffer, choices(k)), Exchanged(buffer, choices(k), k in c.loaded);
        ExchangeCounts(cl, c, k, buffer, garbage, choices, loaded, true);
        if j == k {
          SendLoadsUpward(cl, c1, k + 1, true, buffer', choices, j);
        } else {
          SendLoadedFrom(cl, c1, k + 1, true, buffer', garbage, choices, loaded, j);
        }
      }
    }
  }

  /** A peer's module is loaded after one msg_send exactly when it was before, or the peer is reached, finds
      CONTROL_SET_ON answered and its insmod works. */
  lemma SendLoadsIff(cl: Cluster, c: Control, garbage: string, choices: nat -> Choice, k: nat)
    ensures k in Send(cl, c, 0, false, garbage, choices).loaded <==>
            || k in c.loaded
            || (Reached(cl, k, choices) && SetOnAt(cl, k, garbage, choices) && choices(k).insmodOk)
  {
    SendLoadedFrom(cl, c, 0, false, garbage, garbage, choices, c.loaded, k);
  }

  // ----- every run -----

  /** The command makes node `k` load its module, unless it has it already. */
  predicate Provides(cl: Cluster, cmd: Command, k: nat) {
    && cmd.setConfig && Reached(cl, k, cmd.choices)
    && SetOnAt(cl, k, cmd.garbage, cmd.choices) && cmd.choices(k).Met? && cmd.choices(k).insmodOk
  }

  ghost predicate SomeProvides(cl: Cluster, cmds: seq<Command>, k: nat) {
    exists i :: 0 <= i < |cmds| && Provides(cl, cmds[i], k)
  }

  /** The first command that does so also brings the node's message. */
  ghost predicate Answers(cl: Cluster, cmds: seq<Command>, k: nat) {
    exists i :: 0 <= i < |cmds| && Provides(cl, cmds[i], k) && cmds[i].choices(k).second.Message?
                && !SomeProvides(cl, cmds[..i], k)
  }

  lemma ProvidesAppend(cl: Cluster, cmds: seq<Command>, cmd: Command, k: nat)
    ensures SomeProvides(cl, cmds + [cmd], k) <==> SomeProvides(cl, cmds, k) || Provides(cl, cmd, k)
  {
    hide Provides;
    var all := cmds + [cmd];
    if SomeProvides(cl, cmds, k) {
      var i :| 0 <= i < |cmds| && Provides(cl, cmds[i], k);
      assert Provides(cl, all[i], k);
    }
    if Provides(cl, cmd, k) {
      assert Provides(cl, all[|cmds|], k);
    }
  }

  lemma AnswersAppend(cl: Cluster, cmds: seq<Command>, cmd: Command, k: nat)
    ensures Answers(cl, cmds + [cmd], k) <==>
            || Answers(cl, cmds, k)
            || (Provides(cl, cmd, k) && cmd.choices(k).second.Message? && !SomeProvides(cl, cmds, k))
  {
    hide SomeProvides, Reached, SetOnAt;
    var all := cmds + [cmd];
    assert all[..|cmds|] == cmds;
    assert forall i :: 0 <= i < |cmds| ==> all[..i] == cmds[..i];
    if Answers(cl, cmds, k) {
      var i :| 0 <= i < |cmds| && Provides(cl, cmds[i], k) && cmds[i].choices(k).second.Message?
               && !SomeProvides(cl, cmds[..i], k);
      assert all[i] == cmds[i] && all[..i] == cmds[..i];
    }
    if Provides(cl, cmd, k) && cmd.choices(k).second.Message? && !SomeProvides(cl, cmds, k) {
      assert all[|cmds|] == cmd;
    }
  }

  lemma GatesKeepLoaded(cl: Cluster, c: Control, cmd: Command)
    ensures Handle(cl, c, cmd).loaded == Configured(cl, c, cmd).loaded
  {
    var c1 := Configured(cl, c, cmd);
    var ok := cmd.vrdOk && !c1.volume;
    var c2 := c1.(volume := c1.volume || ok, loads := c1.loads + [Load(ok, c1.credited)]);
    NbdSendOnlyNbd(cl, c2, 0, false, cmd.nbdGarbage, cmd.nbdChoices);
  }

  /** In every run a peer's module is loaded exactly when some command reached the peer, found CONTROL_SET_ON answered,
      and its insmod worked. */
  lemma {:induction false} RunLoadsIff(cl: Cluster, cmds: seq<Command>, k: nat)
    requires cl.Valid()
    ensures k in Run(cl, START, cmds).loaded <==> SomeProvides(cl, cmds, k)
    decreases |cmds|
  {
    if cmds == [] {
    } else {
      var before, cmd := cmds[..|cmds| - 1], cmds[|cmds| - 1];
      assert cmds == before + [cmd];
      RunLoadsIff(cl, before, k);
      RunAppend(cl, START, before, cmd);
      var c := Run(cl, START, before);
      GatesKeepLoaded(cl, c, cmd);
      SendLoadsIff(cl, c, cmd.garbage, cmd.choices, k);
      ProvidesAppend(cl, before, cmd, k);
      hide Send, Run, Handle, SomeProvides;
    }
  }

  /** In every run a peer's own "success" is counted exactly when the first command that made it load its module also
      brought the message. */
  lemma {:induction false} RunCountsIff(cl: Cluster, cmds: seq<Command>, k: nat)
    requires cl.Valid()
    ensures Credit(k, true) in Run(cl, START, cmds).credited <==> Answers(cl, cmds, k)
    decreases |cmds|
  {
    if cmds == [] {
    } else {
      var before, cmd := cmds[..|cmds| - 1], cmds[|cmds| - 1];
      assert cmds == before + [cmd];
      RunCountsIff(cl, before, k);
      RunLoadsIff(cl, before, k);
      RunAppend(cl, START, before, cmd);
      var c := Run(cl, START, before);
      GatesKeepCredited(cl, c, cmd);
      SendCountsIff(cl, c, cmd.garbage, cmd.choices, k);
      SendCountsUpward(cl, c, 0, false, cmd.garbage, cmd.choices);
      AnswersAppend(cl, before, cmd, k);
      hide Send, Run, Handle, SomeProvides, Answers;
      var d := Configured(cl, c, cmd);
      assert d.credited == c.credited + Newly(c, d);
    }
  }

  /** What every load attempt found counted is still counted. */
  ghost predicate Remembers(c: Control) {
    forall i :: 0 <= i < |c.loads| ==> c.loads[i].credited <= c.credited
  }

  lemma HandleRemembers(cl: Cluster, c: Control, cmd: Command)
    requires Remembers(c)
    ensures Remembers(Handle(cl, c, cmd))
  {
    GatesKeepCredited(cl, c, cmd);
    SendLeavesLoads(cl, c, 0, false, cmd.garbage, cmd.choices);
    SendCountsUpward(cl, c, 0, false, cmd.garbage, cmd.choices);
    var c1 := Configured(cl, c, cmd);
    var ok := cmd.vrdOk && !c1.volume;
    var c2 := c1.(volume := c1.volume || ok, loads := c1.loads + [Load(ok, c1.credited)]);
    NbdSendOnlyNbd(cl, c2, 0, false, cmd.nbdGarbage, cmd.nbdChoices);
    hide Send, NbdSend;
  }

  lemma {:induction false} RunRemembers(cl: Cluster, c: Control, cmds: seq<Command>)
    requires Remembers(c)
    ensures Remembers(Run(cl, c, cmds))
    decreases |cmds|
  {
    if cmds == [] {
    } else {
      HandleRemembers(cl, c, cmds[0]);
      hide Handle;
      RunRemembers(cl, Handle(cl, c, cmds[0]), cmds[1..]);
    }
  }

  /** In every run, with stale replies or without: behind each genuine reply that any attempt to load the volume found
      counted there is a command by which that peer's insmod worked and its message came. */
  lemma LoadStandsOnInsmods(cl: Cluster, cmds: seq<Command>, i: nat, k: nat)
    requires cl.Valid() && i < |Run(cl, START, cmds).loads|
    requires Credit(k, true) in Run(cl, START, cmds).loads[i].credited
    ensures Answers(cl, cmds, k)
  {
    RunRemembers(cl, START, cmds);
    RunCountsIff(cl, cmds, k);
  }

  /** In every run without stale replies the load gate opens if and only if each peer's insmod worked and its message
      came with it. */
  lemma LoadsIffAllAnswer(cl: Cluster, cmds: seq<Command>)
    requires cl.Valid() && NoneStaleRun(cl, START, cmds)
    ensures Run(cl, START, cmds).loads != [] <==> forall k: nat :: cl.Peer(k) ==> Answers(cl, cmds, k)
  {
    RunKeepsPhase(cl, START, cmds);
    hide Answers;
    var c := Run(cl, START, cmds);
    forall k: nat ensures Credit(k, true) in c.credited <==> Answers(cl, cmds, k) {
      RunCountsIff(cl, cmds, k);
    }
    SentPeersDistinct(cl, c);
    hide Run;
    if c.loads != [] {
      forall k: nat | cl.Peer(k) ensures Answers(cl, cmds, k) {
        assert k in PeersOf(c.credited);
        var i :| 0 <= i < |c.credited| && PeersOf(c.credited)[i] == k;
        assert c.credited[i] == Credit(k, true);
      }
    } else if forall k: nat :: cl.Peer(k) ==> Answers(cl, cmds, k) {
      forall k: nat | cl.Peer(k) ensures k in PeersOf(c.credited) {
        CountedPeer(c.credited, Credit(k, true));
      }
      EveryPeerCounted(cl, c.credited);
    }
  }

  /** With a reply counted for every peer, the counter is full. */
  lemma EveryPeerCounted(cl: Cluster, credits: seq<Credit>)
    requires cl.Valid() && forall k: nat :: cl.Peer(k) ==> k in PeersOf(credits)
    ensures |credits| >= cl.n - 1
  {
    var peers := PeersOf(credits);
    var all := Below(cl.n) - {cl.me};
    forall k | k in all ensures k in Members(peers) {
      assert cl.Peer(k);
    }
    Subset(all, Members(peers));
    MembersAtMost(peers);
  }

  lemma {:induction false} MembersAtMost(s: seq<nat>)
    ensures |Members(s)| <= |s|
  {
    if s == [] {
      assert Members(s) == {};
    } else {
      var t, last := s[..|s| - 1], s[|s| - 1];
      MembersAtMost(t);
      assert s == t + [last];
      assert Members(s) == Members(t) + {last};
    }
  }

  lemma CountedPeer(credits: seq<Credit>, x: Credit)
    requires x in credits
    ensures x.peer in PeersOf(credits)
  {
    var i :| 0 <= i < |credits| && credits[i] == x;
    assert PeersOf(credits)[i] == x.peer;
  }

  // ----- success -----

  /** The command that loads the volume writes "success" if and only if nbd_msg_send reaches every peer and finds
      NBD_CLIENT_LOAD in its buffer there. */
  lemma SuccessIffAllReply(cl: Cluster, c: Control, cmd: Command)
    requires cl.Valid() && Sound(cl, c) && !c.volume
    requires Configured(cl, c, cmd).count == cl.n - 1 && cmd.vrdOk
    ensures Handle(cl, c, cmd).successes != [] <==>
            forall k: nat :: cl.Peer(k) ==>
              NbdReached(cl, k, cmd.nbdChoices) && TextAt(cl, k, cmd.nbdGarbage, cmd.nbdChoices) == "NBD_CLIENT_LOAD"
  {
    var d := Handle(cl, c, cmd);
    HandleKeepsSound(cl, c, cmd);
    SendKeepsCredible(cl, c, 0, false, cmd.garbage, cmd.choices);
    var c1 := Configured(cl, c, cmd);
    var c2 := c1.(volume := true, loads := c1.loads + [Load(true, c1.credited)]);
    var credits := NbdSend(cl, c2, 0, false, cmd.nbdGarbage, cmd.nbdChoices).nbdCredits;
    assert d.nbdCredits == credits && d.volume by {
      NbdSendOnlyNbd(cl, c2, 0, false, cmd.nbdGarbage, cmd.nbdChoices);
      hide Send, NbdSend, Credible, NbdInOrder;
    }
    hide Handle, Send, NbdSend, Credible;
    forall x: Credit
      ensures x in credits <==>
              && NbdReached(cl, x.peer, cmd.nbdChoices)
              && TextAt(cl, x.peer, cmd.nbdGarbage, cmd.nbdChoices) == "NBD_CLIENT_LOAD"
              && x.sent == cmd.nbdChoices(x.peer).Replied?
    {
      NbdCountedIff(cl, c2, cmd.nbdGarbage, cmd.nbdChoices, x);
    }
    if d.successes != [] {
      NbdPeersDistinct(cl, credits);
      forall k: nat | cl.Peer(k)
        ensures NbdReached(cl, k, cmd.nbdChoices)
                && TextAt(cl, k, cmd.nbdGarbage, cmd.nbdChoices) == "NBD_CLIENT_LOAD"
      {
        assert k in PeersOf(credits);
        var i :| 0 <= i < |credits| && PeersOf(credits)[i] == k;
        assert credits[i] in credits && credits[i].peer == k;
      }
    } else if forall k: nat :: cl.Peer(k) ==>
                NbdReached(cl, k, cmd.nbdChoices)
                && TextAt(cl, k, cmd.nbdGarbage, cmd.nbdChoices) == "NBD_CLIENT_LOAD" {
      forall k: nat | cl.Peer(k) ensures k in PeersOf(credits) {
        CountedPeer(credits, Credit(k, cmd.nbdChoices(k).Replied?));
      }
      EveryPeerCounted(cl, credits);
    }
  }
}
