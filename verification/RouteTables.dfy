/** What the routing state of the whole network should be, host by host, and how links go down. */
module RouteTables {
  import opened Collections
  import opened Network
  import opened Bfs
  import opened Forwarding

  /** Entries keyed by (node, destination host). */
  type Pair = (Node, Node)

  function SeqAt<V>(m: map<Pair, seq<V>>, k: Pair): seq<V> {
    if k in m then m[k] else []
  }

  /** nextHop once the hops found for one host are appended. */
  function AddHops(nextHop: map<Pair, seq<Node>>, host: Node, hops: map<Node, seq<Node>>): map<Pair, seq<Node>> {
    nextHop + map x | x in hops :: (x, host) := SeqAt(nextHop, (x, host)) + hops[x]
  }

  /** A pair table once one host's column is overwritten where the search has a figure. */
  function Overlay(pairs: map<Pair, nat>, host: Node, column: map<Node, nat>): map<Pair, nat> {
    pairs + map x | x in column :: (x, host) := column[x]
  }

  lemma AddHopsEntry(nextHop: map<Pair, seq<Node>>, host: Node, hops: map<Node, seq<Node>>, k: Pair)
    ensures SeqAt<Node>(map[], k) == []
    ensures k in AddHops(nextHop, host, hops) <==> k in nextHop || (k.1 == host && k.0 in hops)
    ensures SeqAt(AddHops(nextHop, host, hops), k)
         == SeqAt(nextHop, k) + if k.1 == host then HopsOf(hops, k.0) else []
  {
  }

  lemma AddNothing(nextHop: map<Pair, seq<Node>>, host: Node)
    ensures AddHops(nextHop, host, map[]) == nextHop
  {
  }

  lemma AddHopsPush(nextHop: map<Pair, seq<Node>>, host: Node, hops: map<Node, seq<Node>>, x: Node, y: Node)
    ensures AddHops(nextHop, host, hops[x := HopsOf(hops, x) + [y]])
         == AddHops(nextHop, host, hops)[(x, host) := SeqAt(AddHops(nextHop, host, hops), (x, host)) + [y]]
  {
    hide AddHops;
    var more, now := hops[x := HopsOf(hops, x) + [y]], AddHops(nextHop, host, hops);
    var left, right := AddHops(nextHop, host, more), now[(x, host) := SeqAt(now, (x, host)) + [y]];
    forall k: Pair ensures (k in left <==> k in right) && SeqAt(left, k) == SeqAt(right, k) {
      AddHopsEntry(nextHop, host, hops, k);
      AddHopsEntry(nextHop, host, more, k);
    }
  }

  /** The part of a column for the nodes in seen. */
  function Part(column: map<Node, nat>, seen: set<Node>): map<Node, nat> {
    map y | y in seen && y in column :: column[y]
  }

  lemma OverlayParts(pairs: map<Pair, nat>, host: Node, column: map<Node, nat>)
    ensures Overlay(pairs, host, Part(column, {})) == pairs
    ensures Overlay(pairs, host, Part(column, column.Keys)) == Overlay(pairs, host, column)
  {
    assert Part(column, column.Keys) == column;
  }

  lemma OverlayMore(pairs: map<Pair, nat>, host: Node, column: map<Node, nat>, seen: set<Node>, x: Node)
    requires x in column
    ensures Overlay(pairs, host, Part(column, seen))[(x, host) := column[x]]
         == Overlay(pairs, host, Part(column, seen + {x}))
  {
    hide Overlay;
    var before, after := Overlay(pairs, host, Part(column, seen)), Overlay(pairs, host, Part(column, seen + {x}));
    var pushed := before[(x, host) := column[x]];
    forall k: Pair ensures (k in pushed <==> k in after) && (k in pushed ==> pushed[k] == after[k]) {
      OverlayPlain(pairs, host, Part(column, seen), k);
      OverlayPlain(pairs, host, Part(column, seen + {x}), k);
    }
  }

  // ----- all hosts

  /** nextHop once the first i nodes have been visited. */
  function AllHops(g: Graph, nodes: seq<Node>, i: nat, start: map<Pair, seq<Node>>): map<Pair, seq<Node>>
    requires i <= |nodes|
    requires forall a, b :: Up(g, a, b) ==> 0 < Link(g, a, b).bw
  {
    if i == 0 then start
    else
      var before, node := AllHops(g, nodes, i - 1, start), nodes[i - 1];
      if node in g.switches then before else AddHops(before, node, Final(g, node).hops)
  }

  /** Which figure of a finished search a pair table records. */
  datatype Figure = Delay | TxDelay | Bandwidth

  function Column(s: Search, figure: Figure): map<Node, nat> {
    match figure
    case Delay => s.delay
    case TxDelay => s.txDelay
    case Bandwidth => s.bw
  }

  function AllPairs(g: Graph, nodes: seq<Node>, i: nat, start: map<Pair, nat>, figure: Figure): map<Pair, nat>
    requires i <= |nodes|
    requires forall a, b :: Up(g, a, b) ==> 0 < Link(g, a, b).bw
  {
    if i == 0 then start
    else
      var before, node := AllPairs(g, nodes, i - 1, start, figure), nodes[i - 1];
      if node in g.switches then before else Overlay(before, node, Column(Final(g, node), figure))
  }

  /** From empty: the next hops of (x, host) are just those the search from that host found. */
  lemma {:induction false} FreshHops(g: Graph, nodes: seq<Node>, i: nat, x: Node, host: Node)
    requires WellFormed(g) && NoDup(nodes) && i <= |nodes|
    ensures SeqAt(AllHops(g, nodes, i, map[]), (x, host))
         == if host in nodes[..i] && host !in g.switches then HopsOf(Final(g, host).hops, x) else []
  {
    hide Final, AddHops, HopsOf, SeqAt;
    if i == 0 {
      AddHopsEntry(map[], host, map[], (x, host));
    } else {
      FreshHops(g, nodes, i - 1, x, host);
      AddHopsEntry(AllHops(g, nodes, i - 1, map[]), nodes[i - 1], Final(g, nodes[i - 1]).hops, (x, host));
      assert nodes[..i] == nodes[..i - 1] + [nodes[i - 1]];
      assert host == nodes[i - 1] ==> host !in nodes[..i - 1];
    }
  }

  /** Over all pairs: the installed next hops are the forwarding neighbours on a least-hop route. */
  lemma FreshHopsExact(g: Graph, nodes: seq<Node>, x: Node, host: Node, y: Node)
    requires WellFormed(g) && NoDup(nodes)
    ensures y in SeqAt(AllHops(g, nodes, |nodes|, map[]), (x, host)) <==>
      && host in nodes && host !in g.switches
      && Up(g, x, y) && Transit(g, host, y)
      && exists d: nat :: MinHops(g, host, y, d) && MinHops(g, host, x, d + 1)
    ensures NoDup(SeqAt(AllHops(g, nodes, |nodes|, map[]), (x, host)))
  {
    hide AllHops, Final, MinHops, Transit;
    assert Up(g, x, y) <==> Up(g, y, x);
    FreshHops(g, nodes, |nodes|, x, host);
    assert nodes[..|nodes|] == nodes;
    NextHopExact(g, host, x, y);
    DistanceExact(g, host, x);
    DistanceExact(g, host, y);
    forall d: nat | MinHops(g, host, y, d) && MinHops(g, host, x, d + 1)
      ensures x in Final(g, host).dis && y in Final(g, host).dis && Final(g, host).dis[y] + 1 == Final(g, host).dis[x]
    {
      LeastIsDistance(g, host, y, d);
      LeastIsDistance(g, host, x, d + 1);
    }
  }

  /** A pair still connected gets its fresh figure; a disconnected pair keeps the entry it had. */
  lemma {:induction false} RefreshedPair(
      g: Graph, nodes: seq<Node>, i: nat, start: map<Pair, nat>, figure: Figure, x: Node, host: Node)
    requires WellFormed(g) && NoDup(nodes) && i <= |nodes|
    ensures var after, connected :=
              AllPairs(g, nodes, i, start, figure), host in nodes[..i] && host !in g.switches && Reachable(g, host, x);
            && (connected ==> HasFigure(g, after, figure, x, host))
            && (!connected ==> SameEntry(after, start, (x, host)))
  {
    hide Reachable, MinHops, Overlay, Final;
    if 0 < i {
      RefreshedPair(g, nodes, i - 1, start, figure, x, host);
      ElemsUpTo(nodes, i - 1);
      assert host in nodes[..i] <==> host in Elems(nodes[..i]);
      assert host in nodes[..i - 1] <==> host in Elems(nodes[..i - 1]);
      ColumnKeys(g, host, figure);
      DistanceExact(g, host, x);
      OverlayPlain(AllPairs(g, nodes, i - 1, start, figure), nodes[i - 1],
                   Column(Final(g, nodes[i - 1]), figure), (x, host));
    }
  }

  lemma OverlayPlain(pairs: map<Pair, nat>, host: Node, column: map<Node, nat>, k: Pair)
    ensures var after := Overlay(pairs, host, column);
            && (k in after <==> k in pairs || (k.1 == host && k.0 in column))
            && (k in after ==> after[k] == if k.1 == host && k.0 in column then column[k.0] else pairs[k])
  {
  }

  lemma ColumnKeys(g: Graph, host: Node, figure: Figure)
    requires WellFormed(g)
    ensures Column(Final(g, host), figure).Keys == Final(g, host).dis.Keys
  {
    FinalInv(g, host);
  }

  /** The table entries of a node towards a destination: the interface of each next hop, in order. */
  function Interfaces(nbr2if: map<Node, map<Node, Interface>>, node: Node, nexts: seq<Node>): seq<nat> {
    seq(|nexts|, k requires 0 <= k < |nexts| => IdxOf(nbr2if, node, nexts[k]))
  }

  function IdxOf(nbr2if: map<Node, map<Node, Interface>>, a: Node, b: Node): nat {
    if b in Neighbours(nbr2if, a) then Neighbours(nbr2if, a)[b].idx else 0
  }

  /** The tables once the next hops of the given pairs are entered; a pair without next hops enters nothing. */
  function InstallSome(
      keys: set<Pair>, nextHop: map<Pair, seq<Node>>, nbr2if: map<Node, map<Node, Interface>>,
      table: map<Pair, seq<nat>>)
    : map<Pair, seq<nat>>
  {
    table + map k | k in keys && k in nextHop && nextHop[k] != [] ::
              k := SeqAt(table, k) + Interfaces(nbr2if, k.0, nextHop[k])
  }

  function Install(
      nextHop: map<Pair, seq<Node>>, nbr2if: map<Node, map<Node, Interface>>, table: map<Pair, seq<nat>>)
    : map<Pair, seq<nat>>
  {
    InstallSome(nextHop.Keys, nextHop, nbr2if, table)
  }

  lemma InstallOneMore(
      keys: set<Pair>, key: Pair, nextHop: map<Pair, seq<Node>>, nbr2if: map<Node, map<Node, Interface>>,
      table: map<Pair, seq<nat>>, before: map<Pair, seq<nat>>, after: map<Pair, seq<nat>>)
    requires key in nextHop && key !in keys
    requires before == InstallSome(keys, nextHop, nbr2if, table)
    requires after == if nextHop[key] == [] then before
                      else before[key := SeqAt(before, key) + Interfaces(nbr2if, key.0, nextHop[key])]
    ensures after == InstallSome(keys + {key}, nextHop, nbr2if, table)
  {
    hide InstallSome, Interfaces;
    var both := InstallSome(keys + {key}, nextHop, nbr2if, table);
    forall k: Pair ensures (k in after <==> k in both) && SeqAt(after, k) == SeqAt(both, k) {
      InstallEntry(keys, nextHop, nbr2if, table, k);
      InstallEntry(keys + {key}, nextHop, nbr2if, table, k);
    }
  }

  lemma InstallEntry(
      keys: set<Pair>, nextHop: map<Pair, seq<Node>>, nbr2if: map<Node, map<Node, Interface>>,
      table: map<Pair, seq<nat>>, k: Pair)
    ensures var after := InstallSome(keys, nextHop, nbr2if, table);
            && (k in after <==> k in table || (k in keys && SeqAt(nextHop, k) != []))
            && SeqAt(after, k) == if k in keys && SeqAt(nextHop, k) != []
                                  then SeqAt(table, k) + Interfaces(nbr2if, k.0, SeqAt(nextHop, k))
                                  else SeqAt(table, k)
  {
  }

  /**
   Over all pairs: a node's table towards a host holds, hop by hop, the number of the interface at its own
   end of the link to that hop, in the order in which the search visits the hops; without a next hop the pair
   has no entry.
   */
  lemma TableEntries(g: Graph, nodes: seq<Node>, x: Node, host: Node)
    requires WellFormed(g) && NoDup(nodes)
    ensures var hops := SeqAt(AllHops(g, nodes, |nodes|, map[]), (x, host));
            var table := Install(AllHops(g, nodes, |nodes|, map[]), g.nbr2if, map[]);
            && ((x, host) in table <==> hops != [])
            && |SeqAt(table, (x, host))| == |hops|
            && (forall k :: 0 <= k < |hops| ==>
                  Up(g, x, hops[k]) && SeqAt(table, (x, host))[k] == Link(g, x, hops[k]).idx)
            && forall k, l :: 0 <= k < l < |hops| ==> ComesBefore(Final(g, host).q, hops[k], hops[l])
  {
    hide AllHops, NoDup, InstallSome, ComesBefore, After;
    FreshHops(g, nodes, |nodes|, x, host);
    SearchOrder(g, host, |g.order| + 1);
    var all := AllHops(g, nodes, |nodes|, map[]);
    var hops := SeqAt(all, (x, host));
    InstallEntry(all.Keys, all, g.nbr2if, map[], (x, host));
    forall k | 0 <= k < |hops| ensures Up(g, x, hops[k]) {
      FreshHopsExact(g, nodes, x, host, hops[k]);
    }
  }

  // ----- links going down

  function SetDown(nbr2if: map<Node, map<Node, Interface>>, a: Node, b: Node): map<Node, map<Node, Interface>> {
    var ifs := Neighbours(nbr2if, a);
    var link := if b in ifs then ifs[b].(up := false) else Interface(0, false, 0, 0);
    nbr2if[a := ifs[b := link]]
  }

  /** The network after the link between a and b was taken down; an unknown link is entered as down. */
  function TakenDown(g: Graph, a: Node, b: Node): Graph {
    if Up(g, a, b) then g.(nbr2if := SetDown(SetDown(g.nbr2if, a, b), b, a))
    else if b in Neighbours(g.nbr2if, a) then g
    else g.(nbr2if := SetDown(g.nbr2if, a, b))
  }

  function AllTakenDown(g: Graph, links: seq<(Node, Node)>): Graph {
    if links == [] then g
    else
      var link := links[|links| - 1];
      TakenDown(AllTakenDown(g, links[..|links| - 1]), link.0, link.1)
  }

  /** Exactly the two directions of the named link lose their liveness. */
  lemma TakenDownLink(g: Graph, a: Node, b: Node, x: Node, y: Node)
    requires WellFormed(g)
    ensures var h := TakenDown(g, a, b);
            && (Up(h, x, y) <==> Up(g, x, y) && (x, y) != (a, b) && (x, y) != (b, a))
            && (Up(h, x, y) ==> Link(h, x, y) == Link(g, x, y))
            && IdxOf(h.nbr2if, x, y) == IdxOf(g.nbr2if, x, y)
  {
  }

  lemma TakenDownLinks(g: Graph, a: Node, b: Node)
    requires WellFormed(g)
    ensures var h := TakenDown(g, a, b);
            && WellFormed(h) && h.order == g.order && h.switches == g.switches && h.payload == g.payload
            && (forall x: Node, y: Node :: Up(h, x, y) <==> Up(g, x, y) && (x, y) != (a, b) && (x, y) != (b, a))
            && (forall x: Node, y: Node :: Up(h, x, y) ==> Link(h, x, y) == Link(g, x, y))
            && (forall x: Node, y: Node :: IdxOf(h.nbr2if, x, y) == IdxOf(g.nbr2if, x, y))
  {
    hide Up, SetDown, IdxOf;
    forall x: Node, y: Node
      ensures Up(TakenDown(g, a, b), x, y) <==> Up(g, x, y) && (x, y) != (a, b) && (x, y) != (b, a)
      ensures Up(TakenDown(g, a, b), x, y) ==> Link(TakenDown(g, a, b), x, y) == Link(g, x, y)
      ensures IdxOf(TakenDown(g, a, b).nbr2if, x, y) == IdxOf(g.nbr2if, x, y)
    {
      TakenDownLink(g, a, b, x, y);
    }
  }

  /** After any calls, the live links are those never named, and routing data is otherwise as before. */
  lemma {:induction false} AllTakenDownLinks(g: Graph, links: seq<(Node, Node)>)
    requires WellFormed(g)
    ensures var h := AllTakenDown(g, links);
            && WellFormed(h) && h.order == g.order && h.switches == g.switches && h.payload == g.payload
            && (forall x: Node, y: Node :: Up(h, x, y) <==> Up(g, x, y) && (x, y) !in links && (y, x) !in links)
            && (forall x: Node, y: Node :: Up(h, x, y) ==> Link(h, x, y) == Link(g, x, y))
            && (forall x: Node, y: Node :: IdxOf(h.nbr2if, x, y) == IdxOf(g.nbr2if, x, y))
  {
    hide Up, TakenDown, IdxOf;
    if links != [] {
      var front, last := links[..|links| - 1], links[|links| - 1];
      AllTakenDownLinks(g, front);
      TakenDownLinks(AllTakenDown(g, front), last.0, last.1);
      assert links == front + [last];
      forall x: Node, y: Node ensures (x, y) in links <==> (x, y) in front || (x, y) == (last.0, last.1) {
      }
    }
  }

  /** Same live links, same searches. */
  ghost predicate SameLinks(g: Graph, h: Graph) {
    && g.order == h.order && g.switches == h.switches && g.payload == h.payload
    && (forall x: Node, y: Node :: Up(g, x, y) <==> Up(h, x, y))
    && (forall x: Node, y: Node :: Up(g, x, y) ==> Link(g, x, y) == Link(h, x, y))
  }

  lemma {:induction false} ScanSame(g: Graph, h: Graph, s: Search, now: Node, k: nat)
    requires WellFormed(g) && WellFormed(h) && SameLinks(g, h) && k <= |g.order|
    ensures Scan(g, s, now, k) == Scan(h, s, now, k)
  {
    if 0 < k {
      ScanSame(g, h, s, now, k - 1);
    }
  }

  lemma {:induction false} AfterSame(g: Graph, h: Graph, host: Node, i: nat)
    requires WellFormed(g) && WellFormed(h) && SameLinks(g, h)
    ensures After(g, host, i) == After(h, host, i)
  {
    if 0 < i {
      AfterSame(g, h, host, i - 1);
      var s := After(g, host, i - 1);
      if i - 1 < |s.q| {
        ScanSame(g, h, s, s.q[i - 1], |g.order|);
      }
    }
  }

  lemma {:induction false} AllHopsSame(g: Graph, h: Graph, nodes: seq<Node>, i: nat)
    requires WellFormed(g) && WellFormed(h) && SameLinks(g, h) && i <= |nodes|
    ensures AllHops(g, nodes, i, map[]) == AllHops(h, nodes, i, map[])
  {
    hide Final, AddHops, Link, Up;
    if 0 < i {
      AllHopsSame(g, h, nodes, i - 1);
      FinalSame(g, h, nodes[i - 1], nodes[i - 1]);
    }
  }

  /** The pair has the figure that a fresh search finds for it. */
  ghost predicate HasFigure(g: Graph, pairs: map<Pair, nat>, figure: Figure, x: Node, host: Node)
    requires WellFormed(g)
  {
    x in Column(Final(g, host), figure) && (x, host) in pairs && pairs[(x, host)] == Column(Final(g, host), figure)[x]
  }

  ghost predicate SameEntry(after: map<Pair, nat>, before: map<Pair, nat>, k: Pair) {
    (k in after <==> k in before) && (k in before ==> after[k] == before[k])
  }

  /** Every connected pair has the figure that a fresh search finds for it. */
  ghost predicate FiguresCurrent(g: Graph, nodes: seq<Node>, pairs: map<Pair, nat>, figure: Figure)
    requires WellFormed(g)
  {
    forall x: Node, host: Node :: host in nodes && host !in g.switches && Reachable(g, host, x) ==>
      HasFigure(g, pairs, figure, x, host)
  }

  lemma AllPairsCurrent(g: Graph, nodes: seq<Node>, start: map<Pair, nat>, figure: Figure)
    requires WellFormed(g) && NoDup(nodes)
    ensures FiguresCurrent(g, nodes, AllPairs(g, nodes, |nodes|, start, figure), figure)
  {
    hide AllPairs, Final, Reachable, NoDup;
    assert nodes[..|nodes|] == nodes;
    forall x: Node, host: Node | host in nodes && host !in g.switches && Reachable(g, host, x)
      ensures HasFigure(g, AllPairs(g, nodes, |nodes|, start, figure), figure, x, host)
    {
      RefreshedPair(g, nodes, |nodes|, start, figure, x, host);
    }
  }

  lemma FinalSame(g: Graph, h: Graph, host: Node, x: Node)
    requires WellFormed(g) && WellFormed(h) && SameLinks(g, h)
    ensures Final(g, host) == Final(h, host) && (Reachable(g, host, x) <==> Reachable(h, host, x))
  {
    hide Reachable, After, MinHops;
    AfterSame(g, h, host, |g.order| + 1);
    DistanceExact(g, host, x);
    DistanceExact(h, host, x);
  }

  lemma FiguresSame(g: Graph, h: Graph, nodes: seq<Node>, pairs: map<Pair, nat>, figure: Figure)
    requires WellFormed(g) && WellFormed(h) && SameLinks(g, h)
    requires FiguresCurrent(g, nodes, pairs, figure)
    ensures FiguresCurrent(h, nodes, pairs, figure)
  {
    hide Reachable, Final;
    forall x: Node, host: Node | host in nodes && host !in h.switches && Reachable(h, host, x)
      ensures HasFigure(h, pairs, figure, x, host)
    {
      FinalSame(g, h, host, x);
      assert HasFigure(g, pairs, figure, x, host);
    }
  }

  /** Losing links never shortens a distance and never connects anything. */
  lemma FewerLinks(g: Graph, h: Graph, host: Node, x: Node)
    requires WellFormed(g) && WellFormed(h) && h.switches == g.switches
    requires forall a, b :: Up(h, a, b) ==> Up(g, a, b)
    ensures x in Final(h, host).dis ==>
      x in Final(g, host).dis && Final(g, host).dis[x] <= Final(h, host).dis[x]
  {
    DistanceExact(g, host, x);
    DistanceExact(h, host, x);
    if x in Final(h, host).dis {
      var p :| IsRoute(h, host, x, p) && |p| == Final(h, host).dis[x] + 1;
      assert IsRoute(g, host, x, p);
    }
  }

  /** However many links go down, and in whatever order, no distance shrinks. */
  lemma DistancesNeverShrink(g: Graph, links: seq<(Node, Node)>, host: Node, x: Node)
    requires WellFormed(g)
    ensures WellFormed(AllTakenDown(g, links))
    ensures var h := AllTakenDown(g, links);
            x in Final(h, host).dis ==> x in Final(g, host).dis && Final(g, host).dis[x] <= Final(h, host).dis[x]
  {
    hide AllTakenDown, Up, Final;
    AllTakenDownLinks(g, links);
    FewerLinks(g, AllTakenDown(g, links), host, x);
  }

  /** Both lists name the same links, from either end, in any order and any number of times. */
  ghost predicate SameNamed(links: seq<(Node, Node)>, others: seq<(Node, Node)>) {
    forall x: Node, y: Node :: (x, y) in links || (y, x) in links <==> (x, y) in others || (y, x) in others
  }

  /** The routes after any calls depend only on which links were named. */
  lemma OnlyNamedLinksMatter(g: Graph, links: seq<(Node, Node)>, others: seq<(Node, Node)>, nodes: seq<Node>)
    requires WellFormed(g) && SameNamed(links, others)
    ensures WellFormed(AllTakenDown(g, links)) && WellFormed(AllTakenDown(g, others))
    ensures var h, k := AllTakenDown(g, links), AllTakenDown(g, others);
            var hops := AllHops(h, nodes, |nodes|, map[]);
            AllHops(k, nodes, |nodes|, map[]) == hops
            && Install(hops, k.nbr2if, map[]) == Install(hops, h.nbr2if, map[])
  {
    hide AllTakenDown, Up, AllHops, Install, IdxOf;
    AllTakenDownLinks(g, links);
    AllTakenDownLinks(g, others);
    var h, k := AllTakenDown(g, links), AllTakenDown(g, others);
    AllHopsSame(h, k, nodes, |nodes|);
    InstallSame(AllHops(h, nodes, |nodes|, map[]), h.nbr2if, k.nbr2if);
  }

  /** What one call makes of a pair table: refreshed on the links left, or untouched if the link was not up. */
  function Refreshed(
      g: Graph, a: Node, b: Node, nodes: seq<Node>, pairs: map<Pair, nat>, figure: Figure): map<Pair, nat>
    requires WellFormed(g)
  {
    if Up(g, a, b) then
      TakenDownLinks(g, a, b);
      AllPairs(TakenDown(g, a, b), nodes, |nodes|, pairs, figure)
    else pairs
  }

  /** A pair table after any sequence of calls. */
  function RefreshedAll(
      g: Graph, links: seq<(Node, Node)>, nodes: seq<Node>, pairs: map<Pair, nat>, figure: Figure): map<Pair, nat>
    requires WellFormed(g)
  {
    if links == [] then pairs
    else
      var front, last := links[..|links| - 1], links[|links| - 1];
      AllTakenDownLinks(g, front);
      Refreshed(AllTakenDown(g, front), last.0, last.1, nodes, RefreshedAll(g, front, nodes, pairs, figure), figure)
  }

  /** One call: a pair connected afterwards has its figure in the new network, any other the entry it had. */
  lemma RefreshedOne(
      g: Graph, a: Node, b: Node, nodes: seq<Node>, pairs: map<Pair, nat>, figure: Figure, x: Node, host: Node)
    requires WellFormed(g) && WellFormed(TakenDown(g, a, b)) && NoDup(nodes) && host in nodes && host !in g.switches
    requires Reachable(g, host, x) ==> HasFigure(g, pairs, figure, x, host)
    ensures var after := Refreshed(g, a, b, nodes, pairs, figure);
            if Reachable(TakenDown(g, a, b), host, x) then HasFigure(TakenDown(g, a, b), after, figure, x, host)
                                                      else SameEntry(after, pairs, (x, host))
  {
    hide AllPairs, Reachable, Up, Final, TakenDown;
    var h := TakenDown(g, a, b);
    TakenDownLinks(g, a, b);
    if Up(g, a, b) {
      assert nodes[..|nodes|] == nodes;
      RefreshedPair(h, nodes, |nodes|, pairs, figure, x, host);
    } else {
      assert !Up(g, b, a);
      FinalSame(g, h, host, x);
    }
  }

  /** The networks that a sequence of calls goes through. */
  ghost function NetworkAfter(g: Graph, links: seq<(Node, Node)>, k: nat): (h: Graph)
    requires WellFormed(g) && k <= |links|
    ensures WellFormed(h) && h.switches == g.switches
  {
    AllTakenDownLinks(g, links[..k]);
    AllTakenDown(g, links[..k])
  }

  /**
   After any sequence of calls on a network whose figures are current, a pair has its figure in the last
   network of the sequence that connected it.
   */
  lemma {:induction false} LastFigure(
      g: Graph, links: seq<(Node, Node)>, nodes: seq<Node>, start: map<Pair, nat>, figure: Figure,
      x: Node, host: Node, k: nat)
    requires WellFormed(g) && FiguresCurrent(g, nodes, start, figure)
    requires NoDup(nodes) && host in nodes && host !in g.switches && k <= |links|
    requires Reachable(NetworkAfter(g, links, k), host, x)
    requires forall n :: k < n <= |links| ==> !Reachable(NetworkAfter(g, links, n), host, x)
    ensures HasFigure(NetworkAfter(g, links, k), RefreshedAll(g, links, nodes, start, figure), figure, x, host)
    decreases |links|
  {
    hide Refreshed, Reachable, TakenDown, WellFormed, Up, HasFigure, SameEntry;
    assert links[..|links|] == links;
    if links == [] {
    } else {
      var front, last := links[..|links| - 1], links[|links| - 1];
      forall n | 0 <= n <= |front| ensures NetworkAfter(g, front, n) == NetworkAfter(g, links, n) {
        assert front[..n] == links[..n];
      }
      assert front[..|front|] == front;
      assert NetworkAfter(g, links, |links|) == TakenDown(AllTakenDown(g, front), last.0, last.1);
      var before, pairs := AllTakenDown(g, front), RefreshedAll(g, front, nodes, start, figure);
      AllTakenDownLinks(g, front);
      TakenDownLinks(before, last.0, last.1);
      if Reachable(before, host, x) {
        LastFigure(g, front, nodes, start, figure, x, host, |front|);
      }
      RefreshedOne(before, last.0, last.1, nodes, pairs, figure, x, host);
      if k < |links| {
        LastFigure(g, front, nodes, start, figure, x, host, k);
        SameFigure(NetworkAfter(g, links, k), pairs, RefreshedAll(g, links, nodes, start, figure), figure, x, host);
      }
    }
  }

  /** A pair that was never connected still has what it had, whatever that was. */
  lemma {:induction false} NeverConnected(
      g: Graph, links: seq<(Node, Node)>, nodes: seq<Node>, start: map<Pair, nat>, figure: Figure,
      x: Node, host: Node)
    requires WellFormed(g) && NoDup(nodes) && host in nodes && host !in g.switches && !Reachable(g, host, x)
    ensures !Reachable(AllTakenDown(g, links), host, x)
    ensures SameEntry(RefreshedAll(g, links, nodes, start, figure), start, (x, host))
    decreases |links|
  {
    hide Refreshed, Reachable, TakenDown, WellFormed, Up, HasFigure;
    if links != [] {
      var front, last := links[..|links| - 1], links[|links| - 1];
      AllTakenDownLinks(g, front);
      var before := AllTakenDown(g, front);
      TakenDownLinks(before, last.0, last.1);
      NeverConnected(g, front, nodes, start, figure, x, host);
      FewerLinks(before, TakenDown(before, last.0, last.1), host, x);
      DistanceExact(before, host, x);
      DistanceExact(TakenDown(before, last.0, last.1), host, x);
      RefreshedOne(before, last.0, last.1, nodes, RefreshedAll(g, front, nodes, start, figure), figure, x, host);
    }
  }

  lemma SameFigure(
      g: Graph, pairs: map<Pair, nat>, after: map<Pair, nat>, figure: Figure, x: Node, host: Node)
    requires WellFormed(g) && HasFigure(g, pairs, figure, x, host)
    requires SameEntry(after, pairs, (x, host))
    ensures HasFigure(g, after, figure, x, host)
  {
  }

  /** Interfaces of the same indices install the same tables. */
  lemma InstallSame(
      nextHop: map<Pair, seq<Node>>, nbr2if: map<Node, map<Node, Interface>>, other: map<Node, map<Node, Interface>>)
    requires forall x: Node, y: Node :: IdxOf(nbr2if, x, y) == IdxOf(other, x, y)
    ensures Install(nextHop, nbr2if, map[]) == Install(nextHop, other, map[])
  {
    hide IdxOf;
    forall k | k in nextHop ensures Interfaces(nbr2if, k.0, nextHop[k]) == Interfaces(other, k.0, nextHop[k]) {
    }
  }

  /** Only nodes of the container have tables. */
  lemma TablesOfNodes(g: Graph, nodes: seq<Node>)
    requires WellFormed(g) && NoDup(nodes) && Elems(g.order) <= Elems(nodes)
    ensures forall k :: k in Install(AllHops(g, nodes, |nodes|, map[]), g.nbr2if, map[]) ==> k.0 in nodes
  {
    hide AllHops, NoDup, Final;
    var hops := AllHops(g, nodes, |nodes|, map[]);
    assert nodes[..|nodes|] == nodes;
    forall k | k in Install(hops, g.nbr2if, map[]) ensures k.0 in nodes {
      FreshHops(g, nodes, |nodes|, k.0, k.1);
      assert SeqAt(hops, k) != [];
      ReachedWithHops(g, k.1, k.0);
      assert k.0 in Elems(g.order);
    }
  }

  lemma ReachedWithHops(g: Graph, host: Node, x: Node)
    requires WellFormed(g) && HopsOf(Final(g, host).hops, x) != []
    ensures x in g.order
  {
    FinalInv(g, host);
    var s := Final(g, host);
    var y := HopsOf(s.hops, x)[0];
    assert y in HopsOf(s.hops, x);
    assert IsHop(g, s.dis, Elems(s.q), host, {}, y, x);
  }
}
