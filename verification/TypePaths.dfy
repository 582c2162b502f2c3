/** The graph of configuration paths between types, its simple paths, and their depth-first listing. */
module TypePaths {
  import opened Collections

  type TypeId = nat

  datatype Attribute =
    | PointerTo(name: string, pointee: TypeId)
    | ContainerOf(name: string, item: TypeId)
    | Plain(name: string)

  /**
   The registered types, in registration order; childOf holds (descendant, ancestor) pairs;
   objectType is the root type, whose pointers are not followed.
   */
  datatype Registry = Registry(
    types: seq<TypeId>, name: TypeId -> string, attributes: TypeId -> seq<Attribute>,
    childOf: set<(TypeId, TypeId)>, aggregates: seq<(TypeId, TypeId)>, objectType: TypeId)

  datatype Edge = Edge(name: string, target: TypeId)

  function AttributeEdges(reg: Registry, attributes: seq<Attribute>): seq<Edge> {
    if attributes == [] then []
    else
      AttributeEdges(reg, attributes[..|attributes| - 1]) +
      match attributes[|attributes| - 1]
      case PointerTo(name, pointee) => if pointee == reg.objectType then [] else [Edge(name, pointee)]
      case ContainerOf(name, item) => [Edge(name + "/[i]", item)]
      case Plain(_) => []
  }

  function ChildEdges(reg: Registry, tid: TypeId, types: seq<TypeId>): seq<Edge> {
    if types == [] then []
    else
      var child := types[|types| - 1];
      ChildEdges(reg, tid, types[..|types| - 1]) +
      if (child, tid) in reg.childOf then [Edge("$" + reg.name(child), child)] else []
  }

  function AggregateEdges(reg: Registry, tid: TypeId, aggregates: seq<(TypeId, TypeId)>): seq<Edge> {
    if aggregates == [] then []
    else
      var item := aggregates[|aggregates| - 1];
      AggregateEdges(reg, tid, aggregates[..|aggregates| - 1]) +
      if item.1 == tid then [Edge("$" + reg.name(item.0), item.0)]
      else if item.0 == tid then [Edge("$" + reg.name(item.1), item.1)]
      else []
  }

  /** The edges out of a type, in the order they are followed. */
  function Edges(reg: Registry, tid: TypeId): seq<Edge> {
    AttributeEdges(reg, reg.attributes(tid)) + ChildEdges(reg, tid, reg.types)
      + AggregateEdges(reg, tid, reg.aggregates)
  }

  /** Every type an edge leads to is registered. */
  ghost predicate Closed(reg: Registry) {
    forall tid, i :: tid in reg.types && 0 <= i < |Edges(reg, tid)| ==> Edges(reg, tid)[i].target in reg.types
  }

  // ----- paths, given by the edge taken at each type

  ghost predicate IsTrail(reg: Registry, tid: TypeId, trail: seq<nat>)
    decreases |trail|
  {
    trail != [] ==>
      && trail[0] < |Edges(reg, tid)|
      && IsTrail(reg, Edges(reg, tid)[trail[0]].target, trail[1..])
  }

  /** The types along a trail, its start included. */
  ghost function Visited(reg: Registry, tid: TypeId, trail: seq<nat>): seq<TypeId>
    requires IsTrail(reg, tid, trail)
    decreases |trail|
  {
    if trail == [] then [tid]
    else [tid] + Visited(reg, Edges(reg, tid)[trail[0]].target, trail[1..])
  }

  ghost function Labels(reg: Registry, tid: TypeId, trail: seq<nat>): seq<string>
    requires IsTrail(reg, tid, trail)
    decreases |trail|
  {
    if trail == [] then []
    else [Edges(reg, tid)[trail[0]].name] + Labels(reg, Edges(reg, tid)[trail[0]].target, trail[1..])
  }

  ghost function End(reg: Registry, tid: TypeId, trail: seq<nat>): TypeId
    requires IsTrail(reg, tid, trail)
    decreases |trail|
  {
    if trail == [] then tid
    else End(reg, Edges(reg, tid)[trail[0]].target, trail[1..])
  }

  /** A trail that meets no type twice and none that is blocked. */
  ghost predicate IsSimpleTrail(reg: Registry, tid: TypeId, blocked: seq<TypeId>, trail: seq<nat>) {
    && IsTrail(reg, tid, trail)
    && NoDup(Visited(reg, tid, trail))
    && Elems(Visited(reg, tid, trail)) !! Elems(blocked)
  }

  // ----- the depth-first listing

  ghost function Prefixed(i: nat, trails: seq<seq<nat>>): seq<seq<nat>> {
    seq(|trails|, k requires 0 <= k < |trails| => [i] + trails[k])
  }

  ghost function Room(reg: Registry, blocked: seq<TypeId>): nat {
    |Elems(reg.types) - Elems(blocked)|
  }

  /** The trails from tid in the order the walk comes upon them. */
  ghost function Trails(reg: Registry, tid: TypeId, blocked: seq<TypeId>): seq<seq<nat>>
    requires Closed(reg) && tid in reg.types
    decreases Room(reg, blocked), 0
  {
    if tid in blocked then []
    else
      LessRoom(reg, tid, blocked);
      [[]] + TrailsVia(reg, tid, blocked, |Edges(reg, tid)|)
  }

  /** Those that start with one of the first n edges. */
  ghost function TrailsVia(reg: Registry, tid: TypeId, blocked: seq<TypeId>, n: nat): seq<seq<nat>>
    requires Closed(reg) && tid in reg.types && tid !in blocked && n <= |Edges(reg, tid)|
    decreases Room(reg, blocked + [tid]), 1, n
  {
    if n == 0 then []
    else
      TrailsVia(reg, tid, blocked, n - 1)
        + Prefixed(n - 1, Trails(reg, Edges(reg, tid)[n - 1].target, blocked + [tid]))
  }

  lemma LessRoom(reg: Registry, tid: TypeId, blocked: seq<TypeId>)
    requires tid in reg.types && tid !in blocked
    ensures Room(reg, blocked + [tid]) < Room(reg, blocked)
  {
    assert Elems(reg.types) - Elems(blocked + [tid]) == Elems(reg.types) - Elems(blocked) - {tid};
    assert tid in Elems(reg.types) - Elems(blocked);
  }

  /** Taking an edge first: the rest must also avoid where it came from. */
  lemma SimpleStep(reg: Registry, tid: TypeId, blocked: seq<TypeId>, trail: seq<nat>)
    requires trail != []
    ensures IsSimpleTrail(reg, tid, blocked, trail) <==>
      && tid !in blocked && trail[0] < |Edges(reg, tid)|
      && IsSimpleTrail(reg, Edges(reg, tid)[trail[0]].target, blocked + [tid], trail[1..])
  {
    if trail[0] < |Edges(reg, tid)| && IsTrail(reg, Edges(reg, tid)[trail[0]].target, trail[1..]) {
      var rest := Visited(reg, Edges(reg, tid)[trail[0]].target, trail[1..]);
      assert Visited(reg, tid, trail) == [tid] + rest;
      NoDupAppend([tid], rest);
      ElemsAppend([tid], rest);
      ElemsAppend(blocked, [tid]);
      assert Elems([tid]) == {tid};
    }
  }

  /** Exactly the simple trails are listed. */
  lemma {:induction false} TrailsExact(reg: Registry, tid: TypeId, blocked: seq<TypeId>, trail: seq<nat>)
    requires Closed(reg) && tid in reg.types
    ensures trail in Trails(reg, tid, blocked) <==> IsSimpleTrail(reg, tid, blocked, trail)
    decreases Room(reg, blocked), 0
  {
    if tid in blocked {
      if IsTrail(reg, tid, trail) {
        assert tid in Elems(Visited(reg, tid, trail)) && tid in Elems(blocked);
      }
    } else if trail == [] {
      assert Visited(reg, tid, trail) == [tid];
    } else {
      LessRoom(reg, tid, blocked);
      TrailsViaExact(reg, tid, blocked, |Edges(reg, tid)|, trail);
    }
  }

  lemma {:induction false} TrailsViaExact(
      reg: Registry, tid: TypeId, blocked: seq<TypeId>, n: nat, trail: seq<nat>)
    requires Closed(reg) && tid in reg.types && tid !in blocked && n <= |Edges(reg, tid)|
    ensures trail in TrailsVia(reg, tid, blocked, n) <==>
      trail != [] && trail[0] < n && IsSimpleTrail(reg, tid, blocked, trail)
    decreases Room(reg, blocked + [tid]), 1, n
  {
    hide Edges, Closed, IsSimpleTrail, Prefixed, Trails, Room;
    if 0 < n {
      LessRoom(reg, tid, blocked);
      EdgeKnown(reg, tid, n - 1);
      TrailsViaExact(reg, tid, blocked, n - 1, trail);
      var below := Trails(reg, Edges(reg, tid)[n - 1].target, blocked + [tid]);
      InPrefixed(n - 1, below, trail);
      if trail != [] {
        SimpleStep(reg, tid, blocked, trail);
        TrailsExact(reg, Edges(reg, tid)[n - 1].target, blocked + [tid], trail[1..]);
      }
    }
  }

  /** The types that edges lead to are registered. */
  lemma EdgeKnown(reg: Registry, tid: TypeId, i: nat)
    requires Closed(reg) && tid in reg.types && i < |Edges(reg, tid)|
    ensures Edges(reg, tid)[i].target in reg.types
  {
    hide Edges;
  }

  lemma InPrefixed(i: nat, trails: seq<seq<nat>>, trail: seq<nat>)
    ensures trail in Prefixed(i, trails) <==> trail != [] && trail[0] == i && trail[1..] in trails
  {
    if trail != [] && trail[0] == i && trail[1..] in trails {
      var k :| 0 <= k < |trails| && trails[k] == trail[1..];
      assert Prefixed(i, trails)[k] == trail;
    }
  }

  /** No trail is listed twice. */
  lemma {:induction false} TrailsNoDup(reg: Registry, tid: TypeId, blocked: seq<TypeId>)
    requires Closed(reg) && tid in reg.types
    ensures NoDup(Trails(reg, tid, blocked))
    decreases Room(reg, blocked), 0
  {
    if tid !in blocked {
      LessRoom(reg, tid, blocked);
      var via := TrailsVia(reg, tid, blocked, |Edges(reg, tid)|);
      TrailsViaNoDup(reg, tid, blocked, |Edges(reg, tid)|);
      TrailsViaExact(reg, tid, blocked, |Edges(reg, tid)|, []);
      NoDupAppend([[]], via);
    }
  }

  lemma {:induction false} TrailsViaNoDup(reg: Registry, tid: TypeId, blocked: seq<TypeId>, n: nat)
    requires Closed(reg) && tid in reg.types && tid !in blocked && n <= |Edges(reg, tid)|
    ensures NoDup(TrailsVia(reg, tid, blocked, n))
    decreases Room(reg, blocked + [tid]), 1, n
  {
    hide Edges, Closed, IsSimpleTrail, Prefixed, Trails, Room;
    if 0 < n {
      LessRoom(reg, tid, blocked);
      EdgeKnown(reg, tid, n - 1);
      var before := TrailsVia(reg, tid, blocked, n - 1);
      var below := Trails(reg, Edges(reg, tid)[n - 1].target, blocked + [tid]);
      TrailsViaNoDup(reg, tid, blocked, n - 1);
      TrailsNoDup(reg, Edges(reg, tid)[n - 1].target, blocked + [tid]);
      PrefixedNoDup(n - 1, below);
      forall trail | trail in before ensures trail !in Prefixed(n - 1, below) {
        TrailsViaExact(reg, tid, blocked, n - 1, trail);
        InPrefixed(n - 1, below, trail);
      }
      NoDupAppend(before, Prefixed(n - 1, below));
    }
  }

  lemma PrefixedNoDup(i: nat, trails: seq<seq<nat>>)
    requires NoDup(trails)
    ensures NoDup(Prefixed(i, trails))
  {
    forall j, k | 0 <= j < k < |trails| ensures Prefixed(i, trails)[j] != Prefixed(i, trails)[k] {
      assert Prefixed(i, trails)[j][1..] == trails[j] && Prefixed(i, trails)[k][1..] == trails[k];
    }
  }

  /** A trail comes before those that go on from it, and else before those that part from it by a later edge. */
  ghost predicate ComesFirst(u: seq<nat>, v: seq<nat>) {
    v != [] && (u == [] || u[0] < v[0] || (u[0] == v[0] && ComesFirst(u[1..], v[1..])))
  }

  ghost predicate DepthFirst(trails: seq<seq<nat>>) {
    forall m, n :: 0 <= m < n < |trails| ==> ComesFirst(trails[m], trails[n])
  }

  /** The listing is in depth-first order, edges in their order. */
  lemma {:induction false} TrailsDepthFirst(reg: Registry, tid: TypeId, blocked: seq<TypeId>)
    requires Closed(reg) && tid in reg.types
    ensures DepthFirst(Trails(reg, tid, blocked))
    decreases Room(reg, blocked), 0
  {
    hide Edges, Closed, IsSimpleTrail, ComesFirst;
    if tid !in blocked {
      LessRoom(reg, tid, blocked);
      var via := TrailsVia(reg, tid, blocked, |Edges(reg, tid)|);
      TrailsViaDepthFirst(reg, tid, blocked, |Edges(reg, tid)|);
      forall k | 0 <= k < |via| ensures ComesFirst([], via[k]) {
        TrailsViaExact(reg, tid, blocked, |Edges(reg, tid)|, via[k]);
        FirstOfAll(via[k]);
      }
      assert Trails(reg, tid, blocked) == [[]] + via;
    }
  }

  lemma FirstOfAll(v: seq<nat>)
    requires v != []
    ensures ComesFirst([], v)
  {
  }

  lemma {:induction false} TrailsViaDepthFirst(reg: Registry, tid: TypeId, blocked: seq<TypeId>, n: nat)
    requires Closed(reg) && tid in reg.types && tid !in blocked && n <= |Edges(reg, tid)|
    ensures DepthFirst(TrailsVia(reg, tid, blocked, n))
    decreases Room(reg, blocked + [tid]), 1, n
  {
    hide Edges, Closed, IsSimpleTrail, Prefixed, Trails, Room, DepthFirst;
    if 0 < n {
      LessRoom(reg, tid, blocked);
      EdgeKnown(reg, tid, n - 1);
      var before := TrailsVia(reg, tid, blocked, n - 1);
      var below := Trails(reg, Edges(reg, tid)[n - 1].target, blocked + [tid]);
      TrailsViaDepthFirst(reg, tid, blocked, n - 1);
      TrailsDepthFirst(reg, Edges(reg, tid)[n - 1].target, blocked + [tid]);
      forall k | 0 <= k < |before| ensures before[k] != [] && before[k][0] < n - 1 {
        TrailsViaExact(reg, tid, blocked, n - 1, before[k]);
      }
      NextEdgeDepthFirst(before, n - 1, below);
    } else {
      NothingDepthFirst();
    }
  }

  lemma NothingDepthFirst()
    ensures DepthFirst([])
  {
  }

  lemma NextEdgeDepthFirst(before: seq<seq<nat>>, i: nat, below: seq<seq<nat>>)
    requires DepthFirst(before) && DepthFirst(below)
    requires forall k :: 0 <= k < |before| ==> before[k] != [] && before[k][0] < i
    ensures DepthFirst(before + Prefixed(i, below))
  {
    forall m, n | 0 <= m < n < |below| ensures ComesFirst([i] + below[m], [i] + below[n]) {
      assert ([i] + below[m])[1..] == below[m] && ([i] + below[n])[1..] == below[n];
    }
  }

  // ----- what is recorded for a trail

  /** A configuration path: each item after a slash. */
  function PathString(path: seq<string>): string {
    if path == [] then "" else PathString(path[..|path| - 1]) + "/" + path[|path| - 1]
  }

  type Record = (TypeId, string)

  /** The record of one trail from tid, when path led to tid. */
  ghost function RecordOf(reg: Registry, tid: TypeId, path: seq<string>, trail: seq<nat>): Record {
    if IsTrail(reg, tid, trail)
    then (End(reg, tid, trail), PathString(path + Labels(reg, tid, trail)))
    else (tid, "")
  }

  ghost function RecordsOf(reg: Registry, tid: TypeId, path: seq<string>, trails: seq<seq<nat>>): seq<Record> {
    seq(|trails|, k requires 0 <= k < |trails| => RecordOf(reg, tid, path, trails[k]))
  }

  lemma RecordsJoin(
      reg: Registry, tid: TypeId, path: seq<string>, trails: seq<seq<nat>>, more: seq<seq<nat>>)
    ensures RecordsOf(reg, tid, path, trails + more)
         == RecordsOf(reg, tid, path, trails) + RecordsOf(reg, tid, path, more)
  {
  }

  /** Records made below an edge are the records of the trails through it. */
  lemma RecordsThrough(reg: Registry, tid: TypeId, path: seq<string>, i: nat, trails: seq<seq<nat>>)
    requires i < |Edges(reg, tid)|
    requires forall k :: 0 <= k < |trails| ==> IsTrail(reg, Edges(reg, tid)[i].target, trails[k])
    ensures RecordsOf(reg, Edges(reg, tid)[i].target, path + [Edges(reg, tid)[i].name], trails)
         == RecordsOf(reg, tid, path, Prefixed(i, trails))
  {
    var edge := Edges(reg, tid)[i];
    forall k | 0 <= k < |trails|
      ensures RecordOf(reg, edge.target, path + [edge.name], trails[k]) == RecordOf(reg, tid, path, [i] + trails[k])
    {
      assert ([i] + trails[k])[1..] == trails[k];
      assert path + [edge.name] + Labels(reg, edge.target, trails[k])
          == path + ([edge.name] + Labels(reg, edge.target, trails[k]));
    }
  }

  lemma TrailsAreTrails(reg: Registry, tid: TypeId, blocked: seq<TypeId>, k: nat)
    requires Closed(reg) && tid in reg.types && k < |Trails(reg, tid, blocked)|
    ensures IsTrail(reg, tid, Trails(reg, tid, blocked)[k])
  {
    TrailsExact(reg, tid, blocked, Trails(reg, tid, blocked)[k]);
  }

  // ----- where each edge stands among the edges of its type

  lemma AttributeEdgeAt(reg: Registry, tid: TypeId, i: nat)
    requires i < |reg.attributes(tid)|
    ensures var attributes := reg.attributes(tid);
            var now, next := AttributeEdges(reg, attributes[..i]), AttributeEdges(reg, attributes[..i + 1]);
            next <= Edges(reg, tid)
            && next == now + match attributes[i]
                             case PointerTo(name, pointee) =>
                               if pointee == reg.objectType then [] else [Edge(name, pointee)]
                             case ContainerOf(name, item) => [Edge(name + "/[i]", item)]
                             case Plain(_) => []
  {
    var attributes := reg.attributes(tid);
    assert attributes[..i + 1][..i] == attributes[..i];
    AttributePrefix(reg, attributes, i + 1);
  }

  lemma {:induction false} AttributePrefix(reg: Registry, attributes: seq<Attribute>, i: nat)
    requires i <= |attributes|
    ensures AttributeEdges(reg, attributes[..i]) <= AttributeEdges(reg, attributes)
  {
    if i < |attributes| {
      AttributePrefix(reg, attributes[..|attributes| - 1], i);
      assert attributes[..|attributes| - 1][..i] == attributes[..i];
    } else {
      assert attributes[..i] == attributes;
    }
  }

  lemma ChildEdgeAt(reg: Registry, tid: TypeId, i: nat)
    requires i < |reg.types|
    ensures var first := AttributeEdges(reg, reg.attributes(tid));
            var now, next := ChildEdges(reg, tid, reg.types[..i]), ChildEdges(reg, tid, reg.types[..i + 1]);
            first + next <= Edges(reg, tid)
            && next == now + if (reg.types[i], tid) in reg.childOf
                             then [Edge("$" + reg.name(reg.types[i]), reg.types[i])] else []
  {
    assert reg.types[..i + 1][..i] == reg.types[..i];
    ChildPrefix(reg, tid, reg.types, i + 1);
  }

  lemma {:induction false} ChildPrefix(reg: Registry, tid: TypeId, types: seq<TypeId>, i: nat)
    requires i <= |types|
    ensures ChildEdges(reg, tid, types[..i]) <= ChildEdges(reg, tid, types)
  {
    if i < |types| {
      ChildPrefix(reg, tid, types[..|types| - 1], i);
      assert types[..|types| - 1][..i] == types[..i];
    } else {
      assert types[..i] == types;
    }
  }

  lemma AggregateEdgeAt(reg: Registry, tid: TypeId, i: nat)
    requires i < |reg.aggregates|
    ensures var first := AttributeEdges(reg, reg.attributes(tid)) + ChildEdges(reg, tid, reg.types);
            var now := AggregateEdges(reg, tid, reg.aggregates[..i]);
            var next := AggregateEdges(reg, tid, reg.aggregates[..i + 1]);
            var item := reg.aggregates[i];
            first + next <= Edges(reg, tid)
            && next == now + if item.1 == tid then [Edge("$" + reg.name(item.0), item.0)]
                             else if item.0 == tid then [Edge("$" + reg.name(item.1), item.1)]
                             else []
  {
    assert reg.aggregates[..i + 1][..i] == reg.aggregates[..i];
    AggregatePrefix(reg, tid, reg.aggregates, i + 1);
  }

  lemma {:induction false} AggregatePrefix(
      reg: Registry, tid: TypeId, aggregates: seq<(TypeId, TypeId)>, i: nat)
    requires i <= |aggregates|
    ensures AggregateEdges(reg, tid, aggregates[..i]) <= AggregateEdges(reg, tid, aggregates)
  {
    if i < |aggregates| {
      AggregatePrefix(reg, tid, aggregates[..|aggregates| - 1], i);
      assert aggregates[..|aggregates| - 1][..i] == aggregates[..i];
    } else {
      assert aggregates[..i] == aggregates;
    }
  }
}
