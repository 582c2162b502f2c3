/** Exactly when the walk records something twice. */
module TypeTwins {
  import opened Collections
  import opened TypePaths

  /** The first name is the second, or the second up to a slash in it. */
  predicate AgreeToSlash(a: string, b: string) {
    a + "/" <= b + "/"
  }

  /** Edges of one type whose names agree up to a slash are equal edges. */
  ghost predicate NamesGiveEdges(reg: Registry) {
    forall tid, e, f :: tid in reg.types && e in Edges(reg, tid) && f in Edges(reg, tid) ==>
      AgreeToSlash(e.name, f.name) ==> e == f
  }

  /** A simple trail goes on, and stays simple, by either of two equal edges. */
  ghost predicate Twins(reg: Registry, tid: TypeId, blocked: seq<TypeId>, trail: seq<nat>, i: nat, j: nat) {
    && i != j && IsTrail(reg, tid, trail)
    && i < |Edges(reg, End(reg, tid, trail))| && j < |Edges(reg, End(reg, tid, trail))|
    && Edges(reg, End(reg, tid, trail))[i] == Edges(reg, End(reg, tid, trail))[j]
    && IsSimpleTrail(reg, tid, blocked, trail + [i]) && IsSimpleTrail(reg, tid, blocked, trail + [j])
  }

  ghost predicate HasTwins(reg: Registry, tid: TypeId, blocked: seq<TypeId>) {
    exists trail, i: nat, j: nat :: Twins(reg, tid, blocked, trail, i, j)
  }

  lemma {:induction false} PathStringFirst(first: string, rest: seq<string>)
    ensures PathString([first] + rest) == "/" + first + PathString(rest)
  {
    var path := [first] + rest;
    if rest == [] {
      assert path[..0] == [];
    } else {
      assert path[..|path| - 1] == [first] + rest[..|rest| - 1];
      PathStringFirst(first, rest[..|rest| - 1]);
    }
  }

  lemma PathStringStart(path: seq<string>)
    ensures PathString(path) == "" || PathString(path)[0] == '/'
    ensures path == [] <==> PathString(path) == ""
  {
    if path != [] {
      assert path == [path[0]] + path[1..];
      PathStringFirst(path[0], path[1..]);
    }
  }

  lemma NamesApart(a: string, x: string, b: string, y: string)
    requires !AgreeToSlash(a, b) && !AgreeToSlash(b, a)
    requires (x == "" || x[0] == '/') && (y == "" || y[0] == '/')
    ensures "/" + a + x != "/" + b + y
  {
    if "/" + a + x == "/" + b + y {
      assert ("/" + a + x)[1..] == a + x && ("/" + b + y)[1..] == b + y;
      if |a| <= |b| {
        PrefixUpToSlash(a, x, b, y);
      } else {
        PrefixUpToSlash(b, y, a, x);
      }
    }
  }

  lemma PrefixUpToSlash(a: string, x: string, b: string, y: string)
    requires a + x == b + y && |a| <= |b| && (x == "" || x[0] == '/')
    ensures AgreeToSlash(a, b)
  {
    var whole := a + x;
    assert a == whole[..|a|] && b == whole[..|b|];
    assert |a| < |b| ==> b[|a|] == whole[|a|] == x[0];
  }

  /** One more edge at the end of a trail. */
  lemma {:induction false} TrailPush(reg: Registry, tid: TypeId, trail: seq<nat>, i: nat)
    requires IsTrail(reg, tid, trail) && i < |Edges(reg, End(reg, tid, trail))|
    ensures var edge := Edges(reg, End(reg, tid, trail))[i];
            && IsTrail(reg, tid, trail + [i])
            && End(reg, tid, trail + [i]) == edge.target
            && Labels(reg, tid, trail + [i]) == Labels(reg, tid, trail) + [edge.name]
    decreases |trail|
  {
    hide Edges;
    if trail == [] {
      assert [i][1..] == [] && trail + [i] == [i];
    } else {
      assert (trail + [i])[1..] == trail[1..] + [i];
      TrailPush(reg, Edges(reg, tid)[trail[0]].target, trail[1..], i);
    }
  }

  /** Twins lead to the same record. */
  lemma TwinRecords(reg: Registry, tid: TypeId, trail: seq<nat>, i: nat, j: nat)
    requires Closed(reg) && tid in reg.types && Twins(reg, tid, [], trail, i, j)
    ensures !NoDup(RecordsOf(reg, tid, [], Trails(reg, tid, [])))
  {
    hide Edges, Trails, PathString, IsSimpleTrail;
    TrailPush(reg, tid, trail, i);
    TrailPush(reg, tid, trail, j);
    TrailsExact(reg, tid, [], trail + [i]);
    TrailsExact(reg, tid, [], trail + [j]);
    var trails := Trails(reg, tid, []);
    var m :| 0 <= m < |trails| && trails[m] == trail + [i];
    var n :| 0 <= n < |trails| && trails[n] == trail + [j];
    assert (trail + [i])[|trail|] != (trail + [j])[|trail|];
    var records := RecordsOf(reg, tid, [], trails);
    assert records[m] == records[n] && m != n;
  }

  /** Two simple trails that are spelt the same part at twins. */
  lemma {:induction false} SameSpelling(reg: Registry, tid: TypeId, blocked: seq<TypeId>, u: seq<nat>, v: seq<nat>)
    returns (trail: seq<nat>, i: nat, j: nat)
    requires Closed(reg) && NamesGiveEdges(reg) && tid in reg.types && u != v
    requires IsSimpleTrail(reg, tid, blocked, u) && IsSimpleTrail(reg, tid, blocked, v)
    requires PathString(Labels(reg, tid, u)) == PathString(Labels(reg, tid, v))
    ensures Twins(reg, tid, blocked, trail, i, j)
    decreases |u|
  {
    hide Edges, PathString, NamesGiveEdges, Closed, NoDup, Visited, AgreeToSlash;
    BothGoOn(reg, tid, u, v);
    SimpleStep(reg, tid, blocked, u);
    SimpleStep(reg, tid, blocked, v);
    var edge, other := Edges(reg, tid)[u[0]], Edges(reg, tid)[v[0]];
    if u[0] == v[0] {
      assert u == [u[0]] + u[1..] && v == [v[0]] + v[1..];
      SpellingRest(reg, tid, u, v);
      EdgeKnown(reg, tid, u[0]);
      trail, i, j := SameSpelling(reg, edge.target, blocked + [tid], u[1..], v[1..]);
      TwinsBehind(reg, tid, blocked, u[0], trail, i, j);
      trail := [u[0]] + trail;
    } else {
      SpellingEdges(reg, tid, u, v);
      FirstIsSimple(reg, tid, blocked, u);
      FirstIsSimple(reg, tid, blocked, v);
      trail, i, j := [], u[0], v[0];
      assert [] + [i] == [i] && [] + [j] == [j];
    }
  }

  lemma BothGoOn(reg: Registry, tid: TypeId, u: seq<nat>, v: seq<nat>)
    requires IsTrail(reg, tid, u) && IsTrail(reg, tid, v) && u != v
    requires PathString(Labels(reg, tid, u)) == PathString(Labels(reg, tid, v))
    ensures u != [] && v != []
  {
    hide Edges, PathString;
    PathStringStart(Labels(reg, tid, u));
    PathStringStart(Labels(reg, tid, v));
    assert (Labels(reg, tid, u) == [] <==> u == []) && (Labels(reg, tid, v) == [] <==> v == []);
  }

  /** Behind the same first edge the spelling is still the same. */
  lemma SpellingRest(reg: Registry, tid: TypeId, u: seq<nat>, v: seq<nat>)
    requires u != [] && v != [] && u[0] == v[0] && IsTrail(reg, tid, u) && IsTrail(reg, tid, v)
    requires PathString(Labels(reg, tid, u)) == PathString(Labels(reg, tid, v))
    ensures var target := Edges(reg, tid)[u[0]].target;
            PathString(Labels(reg, target, u[1..])) == PathString(Labels(reg, target, v[1..]))
  {
    hide Edges, PathString;
    var edge := Edges(reg, tid)[u[0]];
    var x, y := Labels(reg, edge.target, u[1..]), Labels(reg, edge.target, v[1..]);
    PathStringFirst(edge.name, x);
    PathStringFirst(edge.name, y);
    assert ("/" + edge.name + PathString(x))[|edge.name| + 1..] == PathString(x);
    assert ("/" + edge.name + PathString(y))[|edge.name| + 1..] == PathString(y);
  }

  /** Different first edges that begin the same spelling are equal edges. */
  lemma SpellingEdges(reg: Registry, tid: TypeId, u: seq<nat>, v: seq<nat>)
    requires NamesGiveEdges(reg) && tid in reg.types
    requires u != [] && v != [] && IsTrail(reg, tid, u) && IsTrail(reg, tid, v)
    requires PathString(Labels(reg, tid, u)) == PathString(Labels(reg, tid, v))
    ensures Edges(reg, tid)[u[0]] == Edges(reg, tid)[v[0]]
  {
    hide Edges, PathString, AgreeToSlash;
    var edge, other := Edges(reg, tid)[u[0]], Edges(reg, tid)[v[0]];
    var x, y := Labels(reg, edge.target, u[1..]), Labels(reg, other.target, v[1..]);
    PathStringFirst(edge.name, x);
    PathStringFirst(other.name, y);
    PathStringStart(x);
    PathStringStart(y);
    if !AgreeToSlash(edge.name, other.name) && !AgreeToSlash(other.name, edge.name) {
      NamesApart(edge.name, PathString(x), other.name, PathString(y));
    }
  }

  lemma FirstIsSimple(reg: Registry, tid: TypeId, blocked: seq<TypeId>, u: seq<nat>)
    requires u != [] && IsSimpleTrail(reg, tid, blocked, u)
    ensures IsSimpleTrail(reg, tid, blocked, [u[0]])
  {
    hide Edges;
    var target := Edges(reg, tid)[u[0]].target;
    SimpleStep(reg, tid, blocked, u);
    SimpleStep(reg, tid, blocked, [u[0]]);
    assert target in Elems(Visited(reg, target, u[1..]));
    assert [u[0]][1..] == [] && Visited(reg, target, []) == [target] && Elems([target]) == {target};
  }

  lemma TwinsBehind(
      reg: Registry, tid: TypeId, blocked: seq<TypeId>, first: nat, trail: seq<nat>, i: nat, j: nat)
    requires tid !in blocked && first < |Edges(reg, tid)|
    requires Twins(reg, Edges(reg, tid)[first].target, blocked + [tid], trail, i, j)
    ensures Twins(reg, tid, blocked, [first] + trail, i, j)
  {
    hide Edges, IsSimpleTrail;
    var whole := [first] + trail;
    assert whole[1..] == trail;
    assert (whole + [i])[1..] == trail + [i] && (whole + [j])[1..] == trail + [j];
    SimpleStep(reg, tid, blocked, whole + [i]);
    SimpleStep(reg, tid, blocked, whole + [j]);
  }

  /** Nothing is deduplicated, so the records are distinct exactly if no twins are met on the way. */
  lemma RecordsNoDup(reg: Registry, tid: TypeId)
    requires Closed(reg) && NamesGiveEdges(reg) && tid in reg.types
    ensures NoDup(RecordsOf(reg, tid, [], Trails(reg, tid, []))) <==> !HasTwins(reg, tid, [])
  {
    hide Trails, Closed, NamesGiveEdges, PathString, IsSimpleTrail, Twins, Labels, End;
    var trails := Trails(reg, tid, []);
    var records := RecordsOf(reg, tid, [], trails);
    if HasTwins(reg, tid, []) {
      var trail, i: nat, j: nat :| Twins(reg, tid, [], trail, i, j);
      TwinRecords(reg, tid, trail, i, j);
    } else {
      TrailsNoDup(reg, tid, []);
      forall m, n | 0 <= m < n < |trails| ensures records[m] != records[n] {
        if records[m] == records[n] {
          SameRecord(reg, tid, trails[m], trails[n]);
        }
      }
    }
  }

  lemma SameRecord(reg: Registry, tid: TypeId, u: seq<nat>, v: seq<nat>)
    requires Closed(reg) && NamesGiveEdges(reg) && tid in reg.types && u != v
    requires u in Trails(reg, tid, []) && v in Trails(reg, tid, [])
    requires RecordOf(reg, tid, [], u) == RecordOf(reg, tid, [], v)
    ensures HasTwins(reg, tid, [])
  {
    hide Trails, Closed, NamesGiveEdges, PathString, Twins, Labels, End;
    TrailsExact(reg, tid, [], u);
    TrailsExact(reg, tid, [], v);
    assert [] + Labels(reg, tid, u) == Labels(reg, tid, u) && [] + Labels(reg, tid, v) == Labels(reg, tid, v);
    var trail, i, j := SameSpelling(reg, tid, [], u, v);
  }

  // ----- names as the type registry gives them

  /**
   Types have different names, and so have the attributes of a type; no name has a slash in it, and no
   attribute's name starts with a dollar sign.
   */
  ghost predicate ProperNames(reg: Registry) {
    && (forall t, u :: t in reg.types && u in reg.types && reg.name(t) == reg.name(u) ==> t == u)
    && (forall t :: t in reg.types ==> '/' !in reg.name(t))
    && (forall t :: t in reg.types ==> ProperAttributes(reg.attributes(t)))
  }

  ghost predicate ProperAttributes(attributes: seq<Attribute>) {
    && (forall a, b :: a in attributes && b in attributes && a.name == b.name ==> a == b)
    && (forall a :: a in attributes ==> '/' !in a.name && (a.name != "" ==> a.name[0] != '$'))
  }

  /** The edge an attribute makes, if it makes one. */
  ghost predicate IsEdgeOf(reg: Registry, a: Attribute, e: Edge) {
    match a
    case PointerTo(name, pointee) => pointee != reg.objectType && e == Edge(name, pointee)
    case ContainerOf(name, item) => e == Edge(name + "/[i]", item)
    case Plain(_) => false
  }

  lemma {:induction false} AttributeOrigin(reg: Registry, attributes: seq<Attribute>, e: Edge)
    ensures e in AttributeEdges(reg, attributes) <==> exists a :: a in attributes && IsEdgeOf(reg, a, e)
  {
    if attributes != [] {
      var front, last := attributes[..|attributes| - 1], attributes[|attributes| - 1];
      AttributeOrigin(reg, front, e);
      assert e in AttributeEdges(reg, attributes) <==> e in AttributeEdges(reg, front) || IsEdgeOf(reg, last, e);
      assert forall a :: a in attributes <==> a in front || a == last;
    }
  }

  lemma {:induction false} ChildOrigin(reg: Registry, tid: TypeId, types: seq<TypeId>, e: Edge)
    ensures e in ChildEdges(reg, tid, types) <==>
      e.target in types && (e.target, tid) in reg.childOf && e.name == "$" + reg.name(e.target)
  {
    if types != [] {
      var front, last := types[..|types| - 1], types[|types| - 1];
      ChildOrigin(reg, tid, front, e);
      assert types == front + [last];
    }
  }

  lemma {:induction false} AggregateOrigin(reg: Registry, tid: TypeId, aggregates: seq<(TypeId, TypeId)>, e: Edge)
    ensures e in AggregateEdges(reg, tid, aggregates) <==>
      ((e.target, tid) in aggregates || (tid, e.target) in aggregates) && e.name == "$" + reg.name(e.target)
  {
    if aggregates != [] {
      var front, last := aggregates[..|aggregates| - 1], aggregates[|aggregates| - 1];
      AggregateOrigin(reg, tid, front, e);
      assert aggregates == front + [last];
    }
  }

  /** The edges out of a type: one for each attribute that leads on, for each child, and for each aggregated type. */
  lemma EdgeOrigin(reg: Registry, tid: TypeId, e: Edge)
    ensures e in Edges(reg, tid) <==>
      || (exists a :: a in reg.attributes(tid) && IsEdgeOf(reg, a, e))
      || (e.name == "$" + reg.name(e.target)
          && ((e.target in reg.types && (e.target, tid) in reg.childOf)
              || (e.target, tid) in reg.aggregates || (tid, e.target) in reg.aggregates))
  {
    hide IsEdgeOf, AttributeEdges, ChildEdges, AggregateEdges;
    AttributeOrigin(reg, reg.attributes(tid), e);
    ChildOrigin(reg, tid, reg.types, e);
    AggregateOrigin(reg, tid, reg.aggregates, e);
  }

  /** base is the part of an edge's name before any slash. */
  ghost predicate Base(name: string, base: string) {
    '/' !in base && (name == base || name == base + "/[i]")
  }

  lemma SameBase(x: string, a: string, y: string, b: string)
    requires Base(x, a) && Base(y, b) && AgreeToSlash(x, y)
    ensures a == b
  {
    var u, v := x + "/", y + "/";
    assert a <= u && b <= v && u[|a|] == '/' && v[|b|] == '/';
    assert v[|a|] == '/' && (|b| < |u| ==> u[|b|] == '/');
    if |b| < |u| {
    }
    assert a == v[..|a|] && b == v[..|b|];
  }

  lemma EdgeBase(reg: Registry, tid: TypeId, e: Edge) returns (base: string)
    requires Closed(reg) && ProperNames(reg) && tid in reg.types && e in Edges(reg, tid)
    ensures Base(e.name, base)
    ensures if "$" <= base then base == e.name == "$" + reg.name(e.target) && e.target in reg.types
            else exists a :: a in reg.attributes(tid) && a.name == base && IsEdgeOf(reg, a, e)
  {
    hide Edges;
    EdgeOrigin(reg, tid, e);
    var k :| 0 <= k < |Edges(reg, tid)| && Edges(reg, tid)[k] == e;
    assert e.target in reg.types;
    if a :| a in reg.attributes(tid) && IsEdgeOf(reg, a, e) {
      base := a.name;
    } else {
      base := e.name;
    }
  }

  /** Proper names give the edges of a type. */
  lemma ProperNamesGiveEdges(reg: Registry)
    requires Closed(reg) && ProperNames(reg)
    ensures NamesGiveEdges(reg)
  {
    hide Edges, AgreeToSlash, Base;
    forall tid, e, f | tid in reg.types && e in Edges(reg, tid) && f in Edges(reg, tid) && AgreeToSlash(e.name, f.name)
      ensures e == f
    {
      var x := EdgeBase(reg, tid, e);
      var y := EdgeBase(reg, tid, f);
      SameBase(e.name, x, f.name, y);
      if "$" <= x {
        assert ("$" + reg.name(e.target))[1..] == reg.name(e.target);
        assert ("$" + reg.name(f.target))[1..] == reg.name(f.target);
      } else {
        var a :| a in reg.attributes(tid) && a.name == x && IsEdgeOf(reg, a, e);
        var b :| b in reg.attributes(tid) && b.name == y && IsEdgeOf(reg, b, f);
        assert a == b;
      }
    }
  }

  // ----- aggregations recorded twice

  /** The edge that the n-th aggregation gives its first type, and where it stands. */
  lemma AggregateEdge(reg: Registry, tid: TypeId, other: TypeId, n: nat) returns (i: nat)
    requires n < |reg.aggregates| && reg.aggregates[n] == (tid, other) && tid != other
    ensures i < |Edges(reg, tid)| && Edges(reg, tid)[i] == Edge("$" + reg.name(other), other)
    ensures i == |AttributeEdges(reg, reg.attributes(tid))| + |ChildEdges(reg, tid, reg.types)|
              + |AggregateEdges(reg, tid, reg.aggregates[..n])|
  {
    hide Edges;
    AggregateEdgeAt(reg, tid, n);
    var first := AttributeEdges(reg, reg.attributes(tid)) + ChildEdges(reg, tid, reg.types);
    var now, next := AggregateEdges(reg, tid, reg.aggregates[..n]), AggregateEdges(reg, tid, reg.aggregates[..n + 1]);
    i := |first| + |now|;
    assert (first + next)[i] == Edge("$" + reg.name(other), other);
  }

  lemma {:induction false} LaterEdges(reg: Registry, tid: TypeId, m: nat, n: nat)
    requires m <= n <= |reg.aggregates|
    ensures |AggregateEdges(reg, tid, reg.aggregates[..m])| <= |AggregateEdges(reg, tid, reg.aggregates[..n])|
  {
    if m < n {
      LaterEdges(reg, tid, m, n - 1);
      assert reg.aggregates[..n][..n - 1] == reg.aggregates[..n - 1];
    }
  }

  /**
   An aggregation recorded twice makes a record twice as soon as the walk comes to its first type by a
   simple trail that has not met the second.
   */
  lemma AggregatedTwice(reg: Registry, tid: TypeId, trail: seq<nat>, other: TypeId, m: nat, n: nat)
    requires Closed(reg) && tid in reg.types && IsSimpleTrail(reg, tid, [], trail)
    requires other != End(reg, tid, trail) && other !in Visited(reg, tid, trail) && m < n < |reg.aggregates|
    requires reg.aggregates[m] == reg.aggregates[n] == (End(reg, tid, trail), other)
    ensures !NoDup(RecordsOf(reg, tid, [], Trails(reg, tid, [])))
  {
    hide Edges, AttributeEdges, ChildEdges, AggregateEdges, Trails;
    var end := End(reg, tid, trail);
    var i := AggregateEdge(reg, end, other, m);
    var j := AggregateEdge(reg, end, other, n);
    AggregateEdgeAt(reg, end, m);
    LaterEdges(reg, end, m + 1, n);
    SimplePush(reg, tid, trail, i);
    SimplePush(reg, tid, trail, j);
    TwinRecords(reg, tid, trail, i, j);
  }

  lemma {:induction false} VisitedPush(reg: Registry, tid: TypeId, trail: seq<nat>, i: nat)
    requires IsTrail(reg, tid, trail) && i < |Edges(reg, End(reg, tid, trail))|
    ensures IsTrail(reg, tid, trail + [i])
    ensures Visited(reg, tid, trail + [i])
         == Visited(reg, tid, trail) + [Edges(reg, End(reg, tid, trail))[i].target]
    decreases |trail|
  {
    hide Edges;
    if trail == [] {
      assert [i][1..] == [] && trail + [i] == [i];
    } else {
      assert (trail + [i])[1..] == trail[1..] + [i];
      VisitedPush(reg, Edges(reg, tid)[trail[0]].target, trail[1..], i);
    }
  }

  lemma SimplePush(reg: Registry, tid: TypeId, trail: seq<nat>, i: nat)
    requires IsSimpleTrail(reg, tid, [], trail) && i < |Edges(reg, End(reg, tid, trail))|
    requires Edges(reg, End(reg, tid, trail))[i].target !in Visited(reg, tid, trail)
    ensures IsSimpleTrail(reg, tid, [], trail + [i])
  {
    hide Edges, Visited;
    VisitedPush(reg, tid, trail, i);
    NoDupPush(Visited(reg, tid, trail), Edges(reg, End(reg, tid, trail))[i].target);
  }

  // ----- the aggregations of this program

  const NODE_LIST: TypeId := 0
  const NODE: TypeId := 1
  const ICMP: TypeId := 2

  function ProgramName(t: TypeId): string {
    if t == NODE_LIST then "ns3::NodeListPriv" else if t == NODE then "ns3::Node" else "ns3::Icmpv4L4Protocol"
  }

  /** The part of the registry that matters: nodes hang on their list, and one of their aggregations is listed twice. */
  function Program(): Registry {
    Registry([NODE_LIST, NODE, ICMP], ProgramName, t => if t == NODE_LIST then [ContainerOf("NodeList", NODE)] else [],
             {}, [(NODE, ICMP), (NODE, ICMP)], 3)
  }

  lemma {:induction false} NoChildren(reg: Registry, tid: TypeId, types: seq<TypeId>)
    requires reg.childOf == {}
    ensures ChildEdges(reg, tid, types) == []
  {
    if types != [] {
      NoChildren(reg, tid, types[..|types| - 1]);
    }
  }

  /** The edges for one aggregation recorded twice. */
  lemma TwoAggregates(reg: Registry, tid: TypeId, item: (TypeId, TypeId))
    ensures var edges := AggregateEdges(reg, tid, [item, item]);
            var first, second := Edge("$" + reg.name(item.0), item.0), Edge("$" + reg.name(item.1), item.1);
            edges == if item.1 == tid then [first, first] else if item.0 == tid then [second, second] else []
  {
    assert [item, item][..1] == [item] && [item][..0] == [];
    assert AggregateEdges(reg, tid, []) == [];
    var once := AggregateEdges(reg, tid, [item]);
    assert AggregateEdges(reg, tid, [item, item]) == once + once;
  }

  lemma ProgramEdges()
    ensures Edges(Program(), NODE_LIST) == [Edge("NodeList" + "/[i]", NODE)]
    ensures Edges(Program(), NODE) == [Edge("$" + ProgramName(ICMP), ICMP), Edge("$" + ProgramName(ICMP), ICMP)]
    ensures Edges(Program(), ICMP) == [Edge("$" + ProgramName(NODE), NODE), Edge("$" + ProgramName(NODE), NODE)]
  {
    hide ProgramName, ChildEdges, AggregateEdges;
    var reg := Program();
    forall tid ensures ChildEdges(reg, tid, reg.types) == [] {
      NoChildren(reg, tid, reg.types);
    }
    TwoAggregates(reg, NODE_LIST, (NODE, ICMP));
    TwoAggregates(reg, NODE, (NODE, ICMP));
    TwoAggregates(reg, ICMP, (NODE, ICMP));
    assert AttributeEdges(reg, []) == [];
    var list := ContainerOf("NodeList", NODE);
    assert [list][..0] == [];
    assert AttributeEdges(reg, [list]) == [] + [Edge("NodeList" + "/[i]", NODE)];
  }

  lemma PlainName(t: TypeId)
    ensures |ProgramName(t)| == if t == NODE_LIST then 17 else if t == NODE then 9 else 21
    ensures '/' !in ProgramName(t)
  {
  }

  lemma ProgramNames()
    ensures ProperNames(Program())
  {
    hide ProgramName;
    forall t: TypeId
      ensures |ProgramName(t)| == if t == NODE_LIST then 17 else if t == NODE then 9 else 21
      ensures '/' !in ProgramName(t)
    {
      PlainName(t);
    }
    assert forall t :: t in Program().types ==> ProperAttributes(Program().attributes(t));
  }

  /** From the list of nodes, the record of the protocol behind a node is made twice. */
  lemma ProgramRecordsTwice()
    ensures Closed(Program()) && ProperNames(Program())
    ensures !NoDup(RecordsOf(Program(), NODE_LIST, [], Trails(Program(), NODE_LIST, [])))
  {
    hide Edges, ProperNames, ProgramName, Trails;
    var reg := Program();
    ProgramNames();
    ProgramEdges();
    assert Closed(reg);
    assert [0][1..] == [];
    assert IsTrail(reg, NODE, []) && Visited(reg, NODE, []) == [NODE] && End(reg, NODE, []) == NODE;
    assert IsTrail(reg, NODE_LIST, [0]) && End(reg, NODE_LIST, [0]) == NODE;
    assert Visited(reg, NODE_LIST, [0]) == [NODE_LIST] + [NODE];
    AggregatedTwice(reg, NODE_LIST, [0], ICMP, 0, 1);
  }
}
