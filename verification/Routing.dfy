/** The simulator's routing state and the procedures that compute and repair it. */
module Routing {
  import opened Collections
  import opened Network
  import opened Bfs
  import opened RouteTables

  class Simulator {
    const order: seq<Node>      // the order of node-keyed maps
    const switches: set<Node>
    const payload: nat
    const nodes: seq<Node>      // the node container, in index order
    var nbr2if: map<Node, map<Node, Interface>>
    var nextHop: map<Pair, seq<Node>>
    var pairDelay: map<Pair, nat>
    var pairTxDelay: map<Pair, nat>
    var pairBw: map<Pair, nat>
    var table: map<Pair, seq<nat>>

    ghost function Net(): Graph
      reads this
    {
      Graph(order, switches, payload, nbr2if)
    }

    ghost predicate Valid()
      reads this
    {
      WellFormed(Net()) && NoDup(nodes) && Elems(order) <= Elems(nodes)
    }

    /**
     Next hops and tables are what the present live links call for, computed from nothing, and the
     recorded figures of the pairs that are connected now are those of a fresh search.
     */
    ghost predicate Installed()
      requires Valid()
      reads this
    {
      && nextHop == AllHops(Net(), nodes, |nodes|, map[])
      && table == Install(nextHop, nbr2if, map[])
      && FiguresCurrent(Net(), nodes, pairDelay, Delay)
      && FiguresCurrent(Net(), nodes, pairTxDelay, TxDelay)
      && FiguresCurrent(Net(), nodes, pairBw, Bandwidth)
    }

    /** The topology as read from the input: every declared link, each way, nothing routed yet. */
    constructor (order: seq<Node>, switches: set<Node>, payload: nat, nodes: seq<Node>,
                 links: map<Node, map<Node, Interface>>)
      requires WellFormed(Graph(order, switches, payload, links))
      requires NoDup(nodes) && Elems(order) <= Elems(nodes)
      ensures Valid() && Net() == Graph(order, switches, payload, links) && this.nodes == nodes
      ensures nextHop == map[] && table == map[]
      ensures pairDelay == map[] && pairTxDelay == map[] && pairBw == map[]
    {
      this.order, this.switches, this.payload, this.nodes := order, switches, payload, nodes;
      nbr2if, nextHop, table := links, map[], map[];
      pairDelay, pairTxDelay, pairBw := map[], map[], map[];
    }

    /** What the simulation does once the topology is read. */
    method SetUpRouting()
      requires Valid() && nextHop == map[] && table == map[]
      modifies this`nextHop, this`pairDelay, this`pairTxDelay, this`pairBw, this`table
      ensures Installed()
    {
      hide AllHops, AllPairs, Install, FiguresCurrent, WellFormed, NoDup;
      AllPairsCurrent(Net(), nodes, pairDelay, Delay);
      AllPairsCurrent(Net(), nodes, pairTxDelay, TxDelay);
      AllPairsCurrent(Net(), nodes, pairBw, Bandwidth);
      CalculateRoutes();
      SetRoutingEntries();
    }

    method CalculateRoute(host: Node)
      requires Valid()
      modifies this`nextHop, this`pairDelay, this`pairTxDelay, this`pairBw
      ensures nextHop == AddHops(old(nextHop), host, Final(Net(), host).hops)
      ensures pairDelay == Overlay(old(pairDelay), host, Final(Net(), host).delay)
      ensures pairTxDelay == Overlay(old(pairTxDelay), host, Final(Net(), host).txDelay)
      ensures pairBw == Overlay(old(pairBw), host, Final(Net(), host).bw)
    {
      hide Inv, AddHops, After, Scan, Final, Overlay;
      var q := [host];
      var dis: map<Node, nat> := map[host := 0];
      var delay: map<Node, nat> := map[host := 0];
      var txDelay: map<Node, nat> := map[host := 0];
      var bw: map<Node, nat> := map[host := U64 - 1];
      ghost var hops: map<Node, seq<Node>> := map[];
      ghost var g := Net();
      AddNothing(nextHop, host);
      NothingVisited(g, host);
      var i := 0;
      while i < |q|
        invariant i <= |q| && Net() == g
        invariant Search(q, dis, delay, txDelay, bw, hops) == After(g, host, i)
        invariant nextHop == AddHops(old(nextHop), host, hops)
        invariant pairDelay == old(pairDelay) && pairTxDelay == old(pairTxDelay) && pairBw == old(pairBw)
        decreases |order| + 1 - i
      {
        EntryInQueue(g, host, i);
        q, dis, delay, txDelay, bw, hops := VisitNode(host, q, i, dis, delay, txDelay, bw, old(nextHop), hops);
        i := i + 1;
      }
      QueueDrained(g, host, i);
      pairDelay := Record(pairDelay, host, delay);
      pairTxDelay := Record(pairTxDelay, host, txDelay);
      pairBw := Record(pairBw, host, bw);
    }

    /** Each of the loops that copy one figure of the search into a pair table. */
    static method Record(pairs: map<Pair, nat>, host: Node, column: map<Node, nat>) returns (after: map<Pair, nat>)
      ensures after == Overlay(pairs, host, column)
    {
      hide Overlay, Part, NoDup;
      var keys := KeysInSomeOrder(column);
      after := pairs;
      OverlayParts(pairs, host, column);
      assert Elems(keys[..0]) == {};
      for n := 0 to |keys|
        invariant after == Overlay(pairs, host, Part(column, Elems(keys[..n])))
      {
        ElemsUpTo(keys, n);
        OverlayMore(pairs, host, column, Elems(keys[..n]), keys[n]);
        after := after[(keys[n], host) := column[keys[n]]];
      }
      assert keys[..|keys|] == keys;
    }

    /** The body of the search loop: every live link out of the queue entry at i. */
    method VisitNode(
        host: Node, q0: seq<Node>, i: nat, dis0: map<Node, nat>, delay0: map<Node, nat>,
        txDelay0: map<Node, nat>, bw0: map<Node, nat>, ghost start: map<Pair, seq<Node>>,
        ghost hops0: map<Node, seq<Node>>)
      returns (q: seq<Node>, dis: map<Node, nat>, delay: map<Node, nat>, txDelay: map<Node, nat>,
               bw: map<Node, nat>, ghost hops: map<Node, seq<Node>>)
      requires Valid() && i < |q0| && q0[i] in dis0
      requires nextHop == AddHops(start, host, hops0)
      modifies this`nextHop
      ensures nextHop == AddHops(start, host, hops)
      ensures Search(q, dis, delay, txDelay, bw, hops)
           == Scan(Net(), Search(q0, dis0, delay0, txDelay0, bw0, hops0), q0[i], |order|)
      ensures q0 <= q
    {
      hide AddHops, Add64, Min, TxTime, NoDup;
      q, dis, delay, txDelay, bw, hops := q0, dis0, delay0, txDelay0, bw0, hops0;
      var now := q[i];
      var d := dis[now];
      var ifs := Neighbours(nbr2if, now);
      for k := 0 to |order|
        invariant nextHop == AddHops(start, host, hops) && q0 <= q
        invariant now in dis && dis[now] == d
        invariant Search(q, dis, delay, txDelay, bw, hops)
               == Scan(Net(), Search(q0, dis0, delay0, txDelay0, bw0, hops0), now, k)
      {
        var next := order[k];
        if next in ifs && ifs[next].up {
          var link := ifs[next];
          assert Up(Net(), now, next) && link == Link(Net(), now, next);
          if next !in dis {
            dis := dis[next := d + 1];
            delay := delay[next := Add64(Entry(delay, now), link.delay)];
            txDelay := txDelay[next := Add64(Entry(txDelay, now), TxTime(payload, link.bw))];
            bw := bw[next := Min(Entry(bw, now), link.bw)];
            if next in switches {
              q := q + [next];
            }
          }
          if d + 1 == dis[next] {
            AddHopsPush(start, host, hops, next, now);
            nextHop := nextHop[(next, host) := SeqAt(nextHop, (next, host)) + [now]];
            hops := hops[next := HopsOf(hops, next) + [now]];
          }
        }
      }
    }

    method CalculateRoutes()
      requires Valid()
      modifies this`nextHop, this`pairDelay, this`pairTxDelay, this`pairBw
      ensures nextHop == AllHops(Net(), nodes, |nodes|, old(nextHop))
      ensures pairDelay == AllPairs(Net(), nodes, |nodes|, old(pairDelay), Delay)
      ensures pairTxDelay == AllPairs(Net(), nodes, |nodes|, old(pairTxDelay), TxDelay)
      ensures pairBw == AllPairs(Net(), nodes, |nodes|, old(pairBw), Bandwidth)
    {
      hide AddHops, Overlay, Final;
      for i := 0 to |nodes|
        invariant nextHop == AllHops(Net(), nodes, i, old(nextHop))
        invariant pairDelay == AllPairs(Net(), nodes, i, old(pairDelay), Delay)
        invariant pairTxDelay == AllPairs(Net(), nodes, i, old(pairTxDelay), TxDelay)
        invariant pairBw == AllPairs(Net(), nodes, i, old(pairBw), Bandwidth)
      {
        if nodes[i] !in switches {
          CalculateRoute(nodes[i]);
        }
      }
    }

    method SetRoutingEntries()
      requires Valid()
      modifies this`table
      ensures table == Install(nextHop, nbr2if, old(table))
    {
      hide WellFormed, Interfaces;
      var keys := KeysInSomeOrder(nextHop);
      for n := 0 to |keys|
        invariant table == InstallSome(Elems(keys[..n]), nextHop, nbr2if, old(table))
      {
        ghost var before := table;
        ElemsUpTo(keys, n);
        AddEntries(keys[n], nextHop[keys[n]]);
        InstallOneMore(Elems(keys[..n]), keys[n], nextHop, nbr2if, old(table), before, table);
      }
      assert keys[..|keys|] == keys;
    }

    /** The inner loop: one table entry for each next hop towards a destination. */
    method AddEntries(key: Pair, nexts: seq<Node>)
      modifies this`table
      ensures table == if nexts == [] then old(table)
                       else old(table)[key := SeqAt(old(table), key) + Interfaces(nbr2if, key.0, nexts)]
    {
      ghost var start := SeqAt(table, key);
      for k := 0 to |nexts|
        invariant SeqAt(table, key) == start + Interfaces(nbr2if, key.0, nexts[..k])
        invariant table == if k == 0 then old(table) else old(table)[key := SeqAt(table, key)]
      {
        var interface := IdxOf(nbr2if, key.0, nexts[k]);
        assert Interfaces(nbr2if, key.0, nexts[..k + 1]) == Interfaces(nbr2if, key.0, nexts[..k]) + [interface];
        table := table[key := SeqAt(table, key) + [interface]];
        assert table == old(table)[key := SeqAt(table, key)];
      }
      assert nexts[..|nexts|] == nexts;
    }

    /** Takes the link between a and b down, if it is up, and redoes the routing. */
    method TakeDownLink(a: Node, b: Node)
      requires Valid() && Installed()
      modifies this`nbr2if, this`nextHop, this`pairDelay, this`pairTxDelay, this`pairBw, this`table
      ensures Net() == TakenDown(old(Net()), a, b)
      ensures Valid() && Installed()
      ensures !Up(old(Net()), a, b) ==> nextHop == old(nextHop) && table == old(table)
      ensures pairDelay == Refreshed(old(Net()), a, b, nodes, old(pairDelay), Delay)
      ensures pairTxDelay == Refreshed(old(Net()), a, b, nodes, old(pairTxDelay), TxDelay)
      ensures pairBw == Refreshed(old(Net()), a, b, nodes, old(pairBw), Bandwidth)
    {
      hide AllHops, AllPairs, Install, SetDown, FiguresCurrent;
      ghost var before := Net();
      TakenDownLinks(before, a, b);
      var ifs := Neighbours(nbr2if, a);
      if !(b in ifs && ifs[b].up) {
        if b !in ifs {
          nbr2if := SetDown(nbr2if, a, b);
        }
        AllHopsSame(before, Net(), nodes, |nodes|);
        InstallSame(nextHop, before.nbr2if, nbr2if);
        FiguresSame(before, Net(), nodes, pairDelay, Delay);
        FiguresSame(before, Net(), nodes, pairTxDelay, TxDelay);
        FiguresSame(before, Net(), nodes, pairBw, Bandwidth);
        return;
      }
      nbr2if := SetDown(SetDown(nbr2if, a, b), b, a);
      assert Net() == TakenDown(before, a, b);
      TablesOfNodes(before, nodes);
      AllPairsCurrent(Net(), nodes, pairDelay, Delay);
      AllPairsCurrent(Net(), nodes, pairTxDelay, TxDelay);
      AllPairsCurrent(Net(), nodes, pairBw, Bandwidth);
      nextHop := map[];
      CalculateRoutes();
      ClearTables();
      SetRoutingEntries();
    }

    /** Empties the routing table of every node. */
    method ClearTables()
      requires forall k :: k in table ==> k.0 in nodes
      modifies this`table
      ensures table == map[]
    {
      for i := 0 to |nodes|
        invariant forall k :: k in table ==> k.0 in nodes[i..]
      {
        table := map k | k in table && k.0 != nodes[i] :: table[k];
      }
    }
  }
}
