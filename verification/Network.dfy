/** Nodes, links and the paths a packet may take towards a host. */
module Network {
  import opened Collections

  type Node = nat

  const U64: nat := 0x1_0000_0000_0000_0000

  /** One direction of a link, as the node at its near end sees it. */
  datatype Interface = Interface(idx: nat, up: bool, delay: nat, bw: nat)

  /**
   order is the order in which an ordered map keyed by node visits its keys; payload is the
   packet payload size, in bytes, that transmit times are computed for.
   */
  datatype Graph = Graph(
    order: seq<Node>, switches: set<Node>, payload: nat, nbr2if: map<Node, map<Node, Interface>>)

  function Neighbours(nbr2if: map<Node, map<Node, Interface>>, a: Node): map<Node, Interface> {
    if a in nbr2if then nbr2if[a] else map[]
  }

  predicate Up(g: Graph, a: Node, b: Node) {
    var ifs := Neighbours(g.nbr2if, a);
    b in ifs && ifs[b].up
  }

  function Link(g: Graph, a: Node, b: Node): Interface
    requires Up(g, a, b)
  {
    g.nbr2if[a][b]
  }

  /** Every node has its place in the order, links are two-way, live links have a bandwidth. */
  ghost predicate WellFormed(g: Graph) {
    && NoDup(g.order)
    && (forall a, b :: Up(g, a, b) ==> a in g.order && b in g.order && Up(g, b, a))
    && (forall a, b :: Up(g, a, b) ==> 0 < Link(g, a, b).bw < U64)
  }

  /** A path of live links from host to x that passes only through switches in between. */
  ghost predicate IsRoute(g: Graph, host: Node, x: Node, p: seq<Node>) {
    && p != [] && p[0] == host && p[|p| - 1] == x
    && AllUp(g, p)
    && (forall i :: 0 < i < |p| - 1 ==> p[i] in g.switches)
  }

  ghost predicate Reachable(g: Graph, host: Node, x: Node) {
    exists p :: IsRoute(g, host, x, p)
  }

  /** d is the least number of hops of any route from host to x. */
  ghost predicate MinHops(g: Graph, host: Node, x: Node, d: nat) {
    && (exists p :: IsRoute(g, host, x, p) && |p| == d + 1)
    && (forall p :: IsRoute(g, host, x, p) ==> d + 1 <= |p|)
  }

  // ----- metrics of a route

  function Min(a: nat, b: nat): nat {
    if b < a then b else a
  }

  /** Unsigned 64-bit addition. */
  function Add64(a: nat, b: nat): nat {
    (a + b) % U64
  }

  /** What one link adds to the transmit time; the products are taken in 64 bits. */
  function TxTime(payload: nat, bw: nat): nat
    requires 0 < bw
  {
    (payload * 1000000000 % U64) * 8 % U64 / bw
  }

  function LinkTxTime(g: Graph, a: Node, b: Node): nat
    requires Up(g, a, b) && 0 < Link(g, a, b).bw
  {
    TxTime(g.payload, Link(g, a, b).bw)
  }

  ghost predicate AllUp(g: Graph, p: seq<Node>) {
    forall i, j :: 0 <= i && j == i + 1 && j < |p| ==> Up(g, p[i], p[j])
  }

  /** The sum of the delays along p. */
  ghost function RouteDelay(g: Graph, p: seq<Node>): nat
    requires AllUp(g, p)
  {
    if |p| < 2 then 0
    else RouteDelay(g, p[..|p| - 1]) + Link(g, p[|p| - 2], p[|p| - 1]).delay
  }

  /** The sum of the transmit times along p. */
  ghost function RouteTxDelay(g: Graph, p: seq<Node>): nat
    requires WellFormed(g) && AllUp(g, p)
  {
    if |p| < 2 then 0
    else RouteTxDelay(g, p[..|p| - 1]) + LinkTxTime(g, p[|p| - 2], p[|p| - 1])
  }

  /** The whole nanoseconds that a link needs for the payload: eight bits a byte, 10^9 ns a second, in 64 bits. */
  ghost predicate IsTxTime(time: nat, payload: nat, bw: nat) {
    var work := payload * 8000000000 % 0x1_0000_0000_0000_0000;
    time * bw <= work < (time + 1) * bw
  }

  lemma TxTimeExact(payload: nat, bw: nat)
    requires 0 < bw
    ensures IsTxTime(TxTime(payload, bw), payload, bw)
  {
    var work, t := payload * 8000000000 % U64, TxTime(payload, bw);
    ScaledModulo(payload * 1000000000);
    assert work == bw * t + work % bw;
  }

  lemma ScaledModulo(a: nat)
    ensures (a % U64) * 8 % U64 == a * 8 % U64
  {
    assert a * 8 == (a % U64) * 8 + U64 * (a / U64 * 8);
  }

  ghost function Sum(s: seq<nat>): nat {
    if s == [] then 0 else Sum(s[..|s| - 1]) + s[|s| - 1]
  }

  /** The delay of each link of p, and its transmit time. */
  ghost predicate LinkFigures(g: Graph, p: seq<Node>, delays: seq<nat>, times: seq<nat>) {
    && AllUp(g, p) && |delays| == |times| && |times| + 1 == |p|
    && forall i, j :: 0 <= i && j == i + 1 && j < |p| ==>
         var link := Link(g, p[i], p[j]);
         delays[i] == link.delay && IsTxTime(times[i], g.payload, link.bw)
  }

  lemma LinkFiguresPush(g: Graph, p: seq<Node>, delays: seq<nat>, times: seq<nat>, next: Node, time: nat)
    requires p != [] && LinkFigures(g, p, delays, times) && Up(g, p[|p| - 1], next)
    requires IsTxTime(time, g.payload, Link(g, p[|p| - 1], next).bw)
    ensures LinkFigures(g, p + [next], delays + [Link(g, p[|p| - 1], next).delay], times + [time])
  {
    hide Up, IsTxTime, Link;
  }

  /** The sums of a route are those of the figures of its links. */
  lemma {:induction false} SumsOfLinks(g: Graph, p: seq<Node>) returns (delays: seq<nat>, times: seq<nat>)
    requires WellFormed(g) && p != [] && AllUp(g, p)
    ensures LinkFigures(g, p, delays, times)
    ensures Sum(delays) == RouteDelay(g, p) && Sum(times) == RouteTxDelay(g, p)
  {
    hide TxTime, IsTxTime, LinkFigures;
    if |p| == 1 {
      delays, times := [], [];
      NoLinks(g, p);
    } else {
      var front, next := p[..|p| - 1], p[|p| - 1];
      var link := Link(g, p[|p| - 2], next);
      var fewer, shorter := SumsOfLinks(g, front);
      delays, times := fewer + [link.delay], shorter + [TxTime(g.payload, link.bw)];
      assert delays[..|delays| - 1] == fewer && times[..|times| - 1] == shorter && front + [next] == p;
      TxTimeExact(g.payload, link.bw);
      LinkFiguresPush(g, front, fewer, shorter, next, TxTime(g.payload, link.bw));
    }
  }

  lemma NoLinks(g: Graph, p: seq<Node>)
    requires |p| == 1
    ensures LinkFigures(g, p, [], [])
  {
  }

  /** delay and txDelay are the route's sums as far as 64 bits can tell. */
  ghost predicate SumsOf(g: Graph, p: seq<Node>, delay: nat, txDelay: nat)
    requires WellFormed(g) && AllUp(g, p)
  {
    delay == RouteDelay(g, p) % U64 && txDelay == RouteTxDelay(g, p) % U64
  }

  lemma AddModulo(a: nat, b: nat)
    ensures Add64(a % U64, b) == (a + b) % U64
  {
  }

  lemma SumsExtend(g: Graph, p: seq<Node>, now: Node, next: Node, delay: nat, txDelay: nat)
    requires WellFormed(g) && p != [] && p[|p| - 1] == now && Up(g, now, next)
    requires AllUp(g, p) && SumsOf(g, p, delay, txDelay)
    ensures AllUp(g, p + [next])
    ensures SumsOf(g, p + [next], Add64(delay, Link(g, now, next).delay), Add64(txDelay, LinkTxTime(g, now, next)))
  {
    assert (p + [next])[..|p|] == p;
    AddModulo(RouteDelay(g, p), Link(g, now, next).delay);
    AddModulo(RouteTxDelay(g, p), LinkTxTime(g, now, next));
  }

  /** bw is the least bandwidth of the links of p, or the largest 64-bit number if p has none. */
  ghost predicate NarrowestLink(g: Graph, p: seq<Node>, bw: nat) {
    && (forall i, j :: 0 <= i && j == i + 1 && j < |p| && Up(g, p[i], p[j]) ==> bw <= Link(g, p[i], p[j]).bw)
    && (|p| < 2 ==> bw == U64 - 1)
    && (2 <= |p| ==>
        exists i, j :: 0 <= i && j == i + 1 && j < |p| && Up(g, p[i], p[j]) && Link(g, p[i], p[j]).bw == bw)
  }

  lemma NarrowestExtend(g: Graph, p: seq<Node>, next: Node, bw: nat)
    requires p != [] && NarrowestLink(g, p, bw)
    requires Up(g, p[|p| - 1], next) && Link(g, p[|p| - 1], next).bw < U64
    ensures NarrowestLink(g, p + [next], Min(bw, Link(g, p[|p| - 1], next).bw))
  {
    hide Up;
    var q, last := p + [next], Link(g, p[|p| - 1], next).bw;
    assert q[|p| - 1] == p[|p| - 1] && q[|p|] == next;
    if 2 <= |p| {
      var i, j :| 0 <= i && j == i + 1 && j < |p| && Up(g, p[i], p[j]) && Link(g, p[i], p[j]).bw == bw;
      assert q[i] == p[i] && q[j] == p[j];
    }
    forall i, j | 0 <= i && j == i + 1 && j < |q| && Up(g, q[i], q[j])
      ensures Min(bw, last) <= Link(g, q[i], q[j]).bw
    {
      assert j < |p| ==> q[i] == p[i] && q[j] == p[j];
    }
  }

  lemma RouteExtend(g: Graph, host: Node, now: Node, p: seq<Node>, next: Node)
    requires IsRoute(g, host, now, p) && Up(g, now, next)
    requires |p| == 1 || now in g.switches
    ensures IsRoute(g, host, next, p + [next])
  {
  }
}
