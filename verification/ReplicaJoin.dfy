/** ReadNBDReplication (json_file.c): the replica table of one node, completed from the other nodes' configurations. */
module ReplicaJoin {

  /** An entry of "replica_info" in the configuration. */
  datatype Offer = Offer(ip: string, dev: string, nbdExport: string, nbdPort: string)

  /** An entry of "set_info". */
  datatype SetInfo = SetInfo(nodeIp: string, infos: seq<Offer>)

  /** An entry of "replica". */
  datatype NodeConfig = NodeConfig(localIp: string, sets: seq<SetInfo>)

  /** DMBD_INFORMATION: a cell of the table that is filled in. */
  datatype Cell = Cell(ip: string, dev: string, nbdExport: string, nbdPort: string)

  /** strstr(dev, "nbd") finds something. */
  predicate IsNbd(dev: string) {
    |dev| >= 3 && (dev[..3] == "nbd" || IsNbd(dev[1..]))
  }

  /** "nbd" stands somewhere in the name. */
  ghost predicate NamesNbd(dev: string) {
    exists i, j :: 0 <= i <= j <= |dev| && dev[i..j] == "nbd"
  }

  lemma {:induction false} IsNbdIff(dev: string)
    ensures IsNbd(dev) <==> NamesNbd(dev)
  {
    if |dev| < 3 {
      assert forall i, j :: 0 <= i <= j <= |dev| ==> |dev[i..j]| < 3;
    } else {
      var rest := dev[1..];
      IsNbdIff(rest);
      if IsNbd(dev) {
        if dev[..3] == "nbd" {
          assert dev[0..3] == "nbd";
        } else {
          var i, j :| 0 <= i <= j <= |rest| && rest[i..j] == "nbd";
          assert dev[i + 1..j + 1] == rest[i..j];
        }
      }
      if NamesNbd(dev) {
        var i, j :| 0 <= i <= j <= |dev| && dev[i..j] == "nbd";
        if i == 0 {
          assert j == 3;
        } else {
          assert rest[i - 1..j - 1] == dev[i..j];
        }
      }
    }
  }

  predicate Fits(o: Offer, ip: string) {
    o.ip == ip && !IsNbd(o.dev)
  }

  function Take(c: Cell, o: Offer): Cell {
    if Fits(o, c.ip) then c.(nbdExport := o.nbdExport, nbdPort := o.nbdPort) else c
  }

  // ----- the loops on one cell -----

  function OverInfos(infos: seq<Offer>, c: Cell): Cell {
    if infos == [] then c else Take(OverInfos(infos[..|infos| - 1], c), infos[|infos| - 1])
  }

  function OverSets(sets: seq<SetInfo>, row: string, c: Cell): Cell {
    if sets == [] then c
    else
      var before, last := OverSets(sets[..|sets| - 1], row, c), sets[|sets| - 1];
      if last.nodeIp == row then OverInfos(last.infos, before) else before
  }

  function OverNodes(nodes: seq<NodeConfig>, my: string, row: string, c: Cell): Cell {
    if nodes == [] then c
    else
      var before, last := OverNodes(nodes[..|nodes| - 1], my, row, c), nodes[|nodes| - 1];
      if last.localIp != my then OverSets(last.sets, row, before) else before
  }

  // ----- reference: the last matching offer -----

  /** Place of an offer in the configuration: node, set, entry. */
  datatype Place = Place(i: nat, k: nat, j: nat)

  predicate Before(a: Place, b: Place) {
    a.i < b.i || (a.i == b.i && (a.k < b.k || (a.k == b.k && a.j < b.j)))
  }

  /** The place names an offer of another node, in a set for this row, for this address, on a device without "nbd" in
      its name. */
  ghost predicate Matches(nodes: seq<NodeConfig>, my: string, row: string, ip: string, p: Place) {
    && p.i < |nodes| && nodes[p.i].localIp != my
    && p.k < |nodes[p.i].sets| && nodes[p.i].sets[p.k].nodeIp == row
    && p.j < |nodes[p.i].sets[p.k].infos|
    && var o := nodes[p.i].sets[p.k].infos[p.j]; o.ip == ip && !NamesNbd(o.dev)
  }

  function OfferAt(nodes: seq<NodeConfig>, p: Place): Offer
    requires p.i < |nodes| && p.k < |nodes[p.i].sets| && p.j < |nodes[p.i].sets[p.k].infos|
  {
    nodes[p.i].sets[p.k].infos[p.j]
  }

  datatype Found = Nothing | Last(p: Place)

  /** `f` is the latest match in the configuration, or says that there is none. */
  ghost predicate IsLast(nodes: seq<NodeConfig>, my: string, row: string, ip: string, f: Found) {
    match f
    case Nothing => forall p :: !Matches(nodes, my, row, ip, p)
    case Last(q) => Matches(nodes, my, row, ip, q) && forall p :: Matches(nodes, my, row, ip, p) ==> !Before(q, p)
  }

  lemma {:induction false} LastInfo(infos: seq<Offer>, c: Cell) returns (last: int)
    ensures -1 <= last < |infos| && forall j :: last < j < |infos| ==> !Fits(infos[j], c.ip)
    ensures 0 <= last ==> Fits(infos[last], c.ip)
    ensures OverInfos(infos, c) ==
            if last < 0 then c else c.(nbdExport := infos[last].nbdExport, nbdPort := infos[last].nbdPort)
  {
    if infos == [] {
      last := -1;
    } else {
      last := LastInfo(infos[..|infos| - 1], c);
      if Fits(infos[|infos| - 1], c.ip) {
        last := |infos| - 1;
      }
    }
  }

  lemma {:induction false} LastSet(sets: seq<SetInfo>, row: string, c: Cell) returns (k: int, j: int)
    ensures -1 <= k < |sets|
    ensures forall k' :: k < k' < |sets| && sets[k'].nodeIp == row ==>
              forall j' :: 0 <= j' < |sets[k'].infos| ==> !Fits(sets[k'].infos[j'], c.ip)
    ensures 0 <= k ==>
              && sets[k].nodeIp == row && 0 <= j < |sets[k].infos| && Fits(sets[k].infos[j], c.ip)
              && forall j' :: j < j' < |sets[k].infos| ==> !Fits(sets[k].infos[j'], c.ip)
    ensures OverSets(sets, row, c) ==
            if k < 0 then c else c.(nbdExport := sets[k].infos[j].nbdExport, nbdPort := sets[k].infos[j].nbdPort)
  {
    if sets == [] {
      k, j := -1, 0;
    } else {
      var before, last := sets[..|sets| - 1], sets[|sets| - 1];
      k, j := LastSet(before, row, c);
      if last.nodeIp == row {
        var l := LastInfo(last.infos, OverSets(before, row, c));
        if 0 <= l {
          k, j := |sets| - 1, l;
        }
      }
    }
  }

  /** The loops leave in a cell the export and port of the last matching offer, and all of it as it was if none
      matches. */
  lemma {:induction false} JoinTakesLastMatch(nodes: seq<NodeConfig>, my: string, row: string, c: Cell)
    returns (f: Found)
    ensures IsLast(nodes, my, row, c.ip, f)
    ensures OverNodes(nodes, my, row, c) ==
            match f
            case Nothing => c
            case Last(p) => c.(nbdExport := OfferAt(nodes, p).nbdExport, nbdPort := OfferAt(nodes, p).nbdPort)
  {
    forall o: Offer ensures Fits(o, c.ip) <==> o.ip == c.ip && !NamesNbd(o.dev) {
      IsNbdIff(o.dev);
    }
    hide Fits, OverSets, NamesNbd;
    if nodes == [] {
      f := Nothing;
    } else {
      var before, last := nodes[..|nodes| - 1], nodes[|nodes| - 1];
      f := JoinTakesLastMatch(before, my, row, c);
      var was := OverNodes(before, my, row, c);
      assert forall p: Place :: p.i < |before| ==>
               Matches(nodes, my, row, c.ip, p) == Matches(before, my, row, c.ip, p);
      if last.localIp != my {
        var k, j := LastSet(last.sets, row, was);
        if 0 <= k {
          f := Last(Place(|nodes| - 1, k, j));
        }
      }
    }
  }

  /** Two latest matches are the same offer, so the reference determines the cell. */
  lemma LastIsUnique(nodes: seq<NodeConfig>, my: string, row: string, ip: string, f: Found, g: Found)
    requires IsLast(nodes, my, row, ip, f) && IsLast(nodes, my, row, ip, g)
    ensures f == g
  {
    if f.Last? && g.Last? {
      assert !Before(f.p, g.p) && !Before(g.p, f.p);
    }
  }

  /** Joining the completed table again changes nothing, and addresses and device names are never touched. */
  lemma JoinIsIdempotent(nodes: seq<NodeConfig>, my: string, row: string, c: Cell)
    ensures var d := OverNodes(nodes, my, row, c);
            OverNodes(nodes, my, row, d) == d && d.ip == c.ip && d.dev == c.dev
  {
    var f := JoinTakesLastMatch(nodes, my, row, c);
    var d := OverNodes(nodes, my, row, c);
    var g := JoinTakesLastMatch(nodes, my, row, d);
    LastIsUnique(nodes, my, row, c.ip, f, g);
  }

  // ----- the table -----

  /** The five nested loops; `rows` are the node_ip fields of the replicas, and every replica has as many cells as
      replica_info_len says. */
  method ReadNBDReplication(nodes: seq<NodeConfig>, my: string, rows: seq<string>, table: array2<Cell>)
    requires table.Length0 == |rows|
    modifies table
    ensures forall t, m :: 0 <= t < table.Length0 && 0 <= m < table.Length1 ==>
              table[t, m] == OverNodes(nodes, my, rows[t], old(table[t, m]))
  {
    var i := 0;
    while i < |nodes|
      invariant 0 <= i <= |nodes|
      invariant forall t, m :: 0 <= t < table.Length0 && 0 <= m < table.Length1 ==>
                  table[t, m] == OverNodes(nodes[..i], my, rows[t], old(table[t, m]))
    {
      assert nodes[..i + 1][..i] == nodes[..i];
      if nodes[i].localIp != my {
        JoinRows(nodes[i].sets, rows, table);
      }
      i := i + 1;
    }
    assert nodes[..i] == nodes;
  }

  /** Lines 177-234: every row meets one other node's sets. */
  method JoinRows(sets: seq<SetInfo>, rows: seq<string>, table: array2<Cell>)
    requires table.Length0 == |rows|
    modifies table
    ensures forall t, m :: 0 <= t < table.Length0 && 0 <= m < table.Length1 ==>
              table[t, m] == OverSets(sets, rows[t], old(table[t, m]))
  {
    var t := 0;
    while t < |rows|
      invariant 0 <= t <= |rows|
      invariant forall t', m :: 0 <= t' < table.Length0 && 0 <= m < table.Length1 ==>
                  table[t', m] == if t' < t then OverSets(sets, rows[t'], old(table[t', m])) else old(table[t', m])
    {
      JoinRow(sets, rows[t], table, t);
      t := t + 1;
    }
  }

  /** Lines 182-233: one row meets the sets, in order. */
  method JoinRow(sets: seq<SetInfo>, row: string, table: array2<Cell>, t: nat)
    requires t < table.Length0
    modifies table
    ensures forall t', m :: 0 <= t' < table.Length0 && 0 <= m < table.Length1 ==>
              table[t', m] == if t' == t then OverSets(sets, row, old(table[t', m])) else old(table[t', m])
  {
    var k := 0;
    while k < |sets|
      invariant 0 <= k <= |sets|
      invariant forall t', m :: 0 <= t' < table.Length0 && 0 <= m < table.Length1 ==>
                  table[t', m] == if t' == t then OverSets(sets[..k], row, old(table[t', m])) else old(table[t', m])
    {
      assert sets[..k + 1][..k] == sets[..k];
      if row == sets[k].nodeIp {
        JoinSet(sets[k].infos, table, t);
      }
      k := k + 1;
    }
    assert sets[..k] == sets;
  }

  /** Lines 193-230: every cell of the row meets one set's offers. */
  method JoinSet(infos: seq<Offer>, table: array2<Cell>, t: nat)
    requires t < table.Length0
    modifies table
    ensures forall t', m :: 0 <= t' < table.Length0 && 0 <= m < table.Length1 ==>
              table[t', m] == if t' == t then OverInfos(infos, old(table[t', m])) else old(table[t', m])
  {
    var m := 0;
    while m < table.Length1
      invariant 0 <= m <= table.Length1
      invariant forall t', m' :: 0 <= t' < table.Length0 && 0 <= m' < table.Length1 ==>
                  table[t', m'] ==
                  if t' == t && m' < m then OverInfos(infos, old(table[t', m'])) else old(table[t', m'])
    {
      JoinCell(infos, table, t, m);
      m := m + 1;
    }
  }

  /** Lines 199-228: one cell meets the offers, in order. */
  method JoinCell(infos: seq<Offer>, table: array2<Cell>, t: nat, m: nat)
    requires t < table.Length0 && m < table.Length1
    modifies table
    ensures forall t', m' :: 0 <= t' < table.Length0 && 0 <= m' < table.Length1 ==>
              table[t', m'] ==
              if t' == t && m' == m then OverInfos(infos, old(table[t', m'])) else old(table[t', m'])
  {
    var j := 0;
    while j < |infos|
      invariant 0 <= j <= |infos|
      invariant forall t', m' :: 0 <= t' < table.Length0 && 0 <= m' < table.Length1 ==>
                  table[t', m'] ==
                  if t' == t && m' == m then OverInfos(infos[..j], old(table[t', m'])) else old(table[t', m'])
    {
      assert infos[..j + 1][..j] == infos[..j];
      if infos[j].ip == table[t, m].ip && !IsNbd(infos[j].dev) {
        table[t, m] := table[t, m].(nbdExport := infos[j].nbdExport, nbdPort := infos[j].nbdPort);
      }
      j := j + 1;
    }
    assert infos[..j] == infos;
  }
}
