/** The recursive walk that records every configuration path. */
module TypeGather {
  import opened TypePaths

  class StaticInformation {
    const reg: Registry
    var output: seq<Record>
    var currentPath: seq<string>
    var alreadyProcessed: seq<TypeId>

    constructor (reg: Registry)
      ensures this.reg == reg && output == [] && currentPath == [] && alreadyProcessed == []
    {
      this.reg, output, currentPath, alreadyProcessed := reg, [], [], [];
    }

    method GetCurrentPath() returns (path: string)
      ensures path == PathString(currentPath)
    {
      path := "";
      for i := 0 to |currentPath|
        invariant path == PathString(currentPath[..i])
      {
        path := path + "/" + currentPath[i];
        assert currentPath[..i + 1][..i] == currentPath[..i];
      }
      assert currentPath[..|currentPath|] == currentPath;
    }

    method RecordOutput(tid: TypeId)
      modifies this`output
      ensures output == old(output) + [(tid, PathString(currentPath))]
    {
      var path := GetCurrentPath();
      output := output + [(tid, path)];
    }

    method HasAlreadyBeenProcessed(tid: TypeId) returns (found: bool)
      ensures found <==> tid in alreadyProcessed
    {
      for i := 0 to |alreadyProcessed|
        invariant tid !in alreadyProcessed[..i]
      {
        if alreadyProcessed[i] == tid {
          return true;
        }
      }
      found := false;
    }

    /** Sorting and deduplicating happen on a copy, so the recorded output stays as gathered. */
    method Gather(tid: TypeId)
      requires Closed(reg) && tid in reg.types
      requires currentPath == [] && alreadyProcessed == []
      modifies this
      ensures currentPath == [] && alreadyProcessed == []
      ensures output == old(output) + RecordsOf(reg, tid, [], Trails(reg, tid, []))
    {
      DoGather(tid);
    }

    /** The walk stands at tid and has recorded tid and all that lies behind its first n edges. */
    ghost predicate AtEdge(tid: TypeId, path: seq<string>, blocked: seq<TypeId>, start: seq<Record>, n: nat)
      reads this
    {
      && Closed(reg) && tid in reg.types && tid !in blocked && n <= |Edges(reg, tid)|
      && currentPath == path && alreadyProcessed == blocked
      && output == start + RecordsOf(reg, tid, path, [[]] + TrailsVia(reg, tid, blocked, n))
    }

    method DoGather(tid: TypeId)
      requires Closed(reg) && tid in reg.types
      modifies this
      ensures currentPath == old(currentPath) && alreadyProcessed == old(alreadyProcessed)
      ensures output == old(output) + RecordsOf(reg, tid, currentPath, Trails(reg, tid, alreadyProcessed))
      decreases Room(reg, alreadyProcessed), 2
    {
      var processed := HasAlreadyBeenProcessed(tid);
      if processed {
        return;
      }
      RecordOutput(tid);
      ghost var path, blocked := currentPath, alreadyProcessed;
      assert path + Labels(reg, tid, []) == path;
      FollowAttributes(tid, path, blocked, old(output));
      FollowChildren(tid, path, blocked, old(output));
      FollowAggregates(tid, path, blocked, old(output));
    }

    method FollowAttributes(
        tid: TypeId, ghost path: seq<string>, ghost blocked: seq<TypeId>, ghost start: seq<Record>)
      requires AtEdge(tid, path, blocked, start, 0)
      modifies this
      ensures AtEdge(tid, path, blocked, start, |AttributeEdges(reg, reg.attributes(tid))|)
      decreases Room(reg, blocked), 1
    {
      hide AtEdge, Edges;
      var attributes := reg.attributes(tid);
      for i := 0 to |attributes|
        invariant AtEdge(tid, path, blocked, start, |AttributeEdges(reg, attributes[..i])|)
      {
        ghost var n := |AttributeEdges(reg, attributes[..i])|;
        AttributeEdgeAt(reg, tid, i);
        match attributes[i] {
          case PointerTo(name, pointee) =>
            if pointee != reg.objectType {
              Follow(tid, n, name, pointee, path, blocked, start);
            }
          case ContainerOf(name, item) =>
            Follow(tid, n, name + "/[i]", item, path, blocked, start);
          case Plain(_) =>
        }
      }
      assert attributes[..|attributes|] == attributes;
    }

    method FollowChildren(
        tid: TypeId, ghost path: seq<string>, ghost blocked: seq<TypeId>, ghost start: seq<Record>)
      requires AtEdge(tid, path, blocked, start, |AttributeEdges(reg, reg.attributes(tid))|)
      modifies this
      ensures AtEdge(tid, path, blocked, start,
                     |AttributeEdges(reg, reg.attributes(tid))| + |ChildEdges(reg, tid, reg.types)|)
      decreases Room(reg, blocked), 1
    {
      hide AtEdge, Edges;
      ghost var first := |AttributeEdges(reg, reg.attributes(tid))|;
      for j := 0 to |reg.types|
        invariant AtEdge(tid, path, blocked, start, first + |ChildEdges(reg, tid, reg.types[..j])|)
      {
        ghost var n := first + |ChildEdges(reg, tid, reg.types[..j])|;
        ChildEdgeAt(reg, tid, j);
        var child := reg.types[j];
        if (child, tid) in reg.childOf {
          Follow(tid, n, "$" + reg.name(child), child, path, blocked, start);
        }
      }
      assert reg.types[..|reg.types|] == reg.types;
    }

    method FollowAggregates(
        tid: TypeId, ghost path: seq<string>, ghost blocked: seq<TypeId>, ghost start: seq<Record>)
      requires AtEdge(tid, path, blocked, start,
                      |AttributeEdges(reg, reg.attributes(tid))| + |ChildEdges(reg, tid, reg.types)|)
      modifies this
      ensures AtEdge(tid, path, blocked, start,
                     |AttributeEdges(reg, reg.attributes(tid))| + |ChildEdges(reg, tid, reg.types)|
                     + |AggregateEdges(reg, tid, reg.aggregates)|)
      decreases Room(reg, blocked), 1
    {
      hide AtEdge, Edges;
      ghost var first := |AttributeEdges(reg, reg.attributes(tid))| + |ChildEdges(reg, tid, reg.types)|;
      for k := 0 to |reg.aggregates|
        invariant AtEdge(tid, path, blocked, start, first + |AggregateEdges(reg, tid, reg.aggregates[..k])|)
      {
        ghost var n := first + |AggregateEdges(reg, tid, reg.aggregates[..k])|;
        AggregateEdgeAt(reg, tid, k);
        var item := reg.aggregates[k];
        if item.0 == tid || item.1 == tid {
          var other := item.1;
          if item.1 == tid {
            other := item.0;
          }
          Follow(tid, n, "$" + reg.name(other), other, path, blocked, start);
        }
      }
      assert reg.aggregates[..|reg.aggregates|] == reg.aggregates;
    }

    /** Push, recurse, pop: what each of the loops does with one edge. */
    method Follow(tid: TypeId, ghost n: nat, name: string, target: TypeId,
                  ghost path: seq<string>, ghost blocked: seq<TypeId>, ghost start: seq<Record>)
      requires AtEdge(tid, path, blocked, start, n)
      requires n < |Edges(reg, tid)| && Edges(reg, tid)[n] == Edge(name, target)
      modifies this
      ensures AtEdge(tid, path, blocked, start, n + 1)
      decreases Room(reg, blocked), 0
    {
      hide Edges, RecordsOf, Trails, TrailsVia, Room;
      LessRoom(reg, tid, alreadyProcessed);
      currentPath := currentPath + [name];
      alreadyProcessed := alreadyProcessed + [tid];
      DoGather(target);
      alreadyProcessed := alreadyProcessed[..|alreadyProcessed| - 1];
      currentPath := currentPath[..|currentPath| - 1];
      RecordsBehindEdge(reg, tid, path, blocked, n);
    }
  }

  /** The records behind edge n complete those behind the first n edges. */
  lemma RecordsBehindEdge(reg: Registry, tid: TypeId, path: seq<string>, blocked: seq<TypeId>, n: nat)
    requires Closed(reg) && tid in reg.types && tid !in blocked && n < |Edges(reg, tid)|
    ensures var edge := Edges(reg, tid)[n];
            RecordsOf(reg, tid, path, [[]] + TrailsVia(reg, tid, blocked, n))
              + RecordsOf(reg, edge.target, path + [edge.name], Trails(reg, edge.target, blocked + [tid]))
            == RecordsOf(reg, tid, path, [[]] + TrailsVia(reg, tid, blocked, n + 1))
  {
    var edge := Edges(reg, tid)[n];
    var below := Trails(reg, edge.target, blocked + [tid]);
    forall k | 0 <= k < |below| ensures IsTrail(reg, edge.target, below[k]) {
      TrailsAreTrails(reg, edge.target, blocked + [tid], k);
    }
    RecordsThrough(reg, tid, path, n, below);
    var before := [[]] + TrailsVia(reg, tid, blocked, n);
    RecordsJoin(reg, tid, path, before, Prefixed(n, below));
    assert before + Prefixed(n, below) == [[]] + TrailsVia(reg, tid, blocked, n + 1);
  }
}
