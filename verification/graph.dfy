/**
 * `Graph`: a vertex collection plus the traversals run over it. The graph keeps one
 * mutable flag of its own, `acyclic`, which depth-first searches can only clear.
 */
module Graphs {
  import opened Options
  import opened KeyedLists
  import opened Decorations
  import opened Digraphs
  import opened NodeLists
  import opened Transposition
  import opened BfsSpec
  import opened DfsSpec

  class Graph {
    /** The vertex collection handed to the constructor. */
    const nodes: NodeList
    /** Cleared by a depth-first search that meets a back edge; nothing sets it again. */
    var acyclic: bool

    ghost predicate Valid()
      reads this, nodes
    {
      nodes.Valid()
    }

    constructor (list: NodeList)
      requires list.Valid()
      ensures Valid() && nodes == list && acyclic
    {
      nodes := list;
      acyclic := true;
    }

    /** Adds a vertex; fails (the dictionary throws) when its identifier is taken. */
    method AddVertex(v: Vertex) returns (ok: bool)
      requires Valid() && Distinct(v.edges)
      modifies nodes
      ensures Valid()
      ensures ok <==> v.id !in old(nodes.keys)
      ensures ok ==> nodes.keys == old(nodes.keys) + [v.id] && GetVertex(v.id) == Some(v)
      ensures ok ==> nodes.edges == old(nodes.edges)[v.id := v.edges] && nodes.deco == old(nodes.deco)[v.id := v.decoration]
      ensures !ok ==> nodes.keys == old(nodes.keys) && nodes.edges == old(nodes.edges) && nodes.deco == old(nodes.deco)
    {
      ok := nodes.Add(v);
    }

    /** Removes vertex `id`, handing it back with its edge list cleared. */
    method RemoveVertex(id: int) returns (r: Option<Vertex>)
      requires Valid()
      modifies nodes
      ensures Valid()
      ensures r.Some? <==> id in old(nodes.keys)
      ensures r.Some? ==> r.value == Vertex(id, [], old(nodes.deco)[id])
      ensures GetVertex(id).None? && nodes.keys == Delete(old(nodes.keys), id)
      ensures nodes.edges == old(nodes.edges) - {id} && nodes.deco == old(nodes.deco) - {id}
      ensures r.None? ==> nodes.keys == old(nodes.keys) && nodes.edges == old(nodes.edges) && nodes.deco == old(nodes.deco)
    {
      r := nodes.RemoveNode(id);
    }

    /** Removes the first vertex, in enumeration order, that satisfies `p`. */
    method RemoveVertexWhere(p: Vertex -> bool) returns (r: Option<Vertex>)
      requires Valid()
      modifies nodes
      ensures Valid()
      ensures var m := FirstMatch(old(nodes.keys), old(nodes.edges), old(nodes.deco), p);
        && (m.None? ==> r.None? && nodes.keys == old(nodes.keys) && nodes.edges == old(nodes.edges)
                        && nodes.deco == old(nodes.deco))
        && (m.Some? ==> r == Some(Vertex(m.value, [], old(nodes.deco)[m.value]))
                        && nodes.keys == Delete(old(nodes.keys), m.value)
                        && nodes.edges == old(nodes.edges) - {m.value}
                        && nodes.deco == old(nodes.deco) - {m.value})
    {
      r := nodes.RemoveNodeWhere(p);
    }

    /** The vertex with identifier `id`, if the graph has one. */
    function GetVertex(id: int): (r: Option<Vertex>)
      reads this, nodes
      requires Valid()
      ensures r.None? <==> id !in nodes.keys
      ensures r.Some? ==> r.value == Vertex(id, nodes.edges[id], nodes.deco[id])
    {
      nodes.GetNode(id)
    }

    /**
     * `GetVertex(predicate)` as evidently intended: the first vertex, in enumeration
     * order, that satisfies `p`, or None (null) when no vertex does.
     */
    method GetVertexWhere(p: Vertex -> bool) returns (r: Option<Vertex>)
      requires Valid()
      ensures var m := FirstMatch(nodes.keys, nodes.edges, nodes.deco, p);
        && (m.None? ==> r.None?)
        && (m.Some? ==> r == GetVertex(m.value))
    {
      var keys := nodes.keys;
      var i := 0;
      while i < |keys|
        invariant 0 <= i <= |keys|
        invariant FirstMatch(keys, nodes.edges, nodes.deco, p) == FirstMatch(keys[i..], nodes.edges, nodes.deco, p)
      {
        var item := nodes.Item(keys[i]);
        if p(item) {
          return Some(item);
        }
        assert keys[i..][1..] == keys[i + 1..];
        i := i + 1;
      }
      return None;
    }

    /** Puts every vertex's decoration back to the reset values. */
    method Reset()
      requires Valid()
      modifies nodes
      ensures Valid() && nodes.keys == old(nodes.keys) && nodes.edges == old(nodes.edges)
      ensures nodes.deco.Keys == old(nodes.deco).Keys
      ensures forall x :: x in nodes.deco ==> nodes.deco[x] == Cleared
    {
      var i := 0;
      while i < |nodes.keys|
        invariant 0 <= i <= |nodes.keys|
        invariant nodes.Valid() && nodes.keys == old(nodes.keys) && nodes.edges == old(nodes.edges)
        invariant nodes.deco.Keys == old(nodes.deco).Keys
        invariant forall j :: 0 <= j < i ==> nodes.deco[nodes.keys[j]] == Cleared
      {
        nodes.deco := nodes.deco[nodes.keys[i] := Cleared];
        i := i + 1;
      }
      forall x | x in nodes.deco ensures nodes.deco[x] == Cleared {
        var j :| 0 <= j < |nodes.keys| && nodes.keys[j] == x;
      }
    }

    /**
     * `BFS`: explores everything reachable from `start`, then rebuilds the path to `end`
     * from the ancestors, listed from `end` back to `start`. None (null) when `end` was
     * given no ancestor: when it is unreachable, and also when it is `start` itself.
     */
    method BFS(start: int, end: int) returns (path: Option<seq<int>>)
      requires Valid() && EdgesInGraph(nodes.edges) && start in nodes.edges
      modifies nodes
      ensures Valid() && nodes.keys == old(nodes.keys) && nodes.edges == old(nodes.edges)
      ensures path.None? <==> end == start || !Reachable(nodes.edges, start, end)
      ensures path.Some? ==> ShortestBackWalk(nodes.edges, start, end, path.value)
      ensures forall x :: x in nodes.deco ==> (nodes.deco[x].state == Closed <==> Reachable(nodes.edges, start, x))
      ensures forall x :: x in nodes.deco && !Reachable(nodes.edges, start, x) ==> nodes.deco[x] == Cleared
      ensures forall x :: x in nodes.deco && Reachable(nodes.edges, start, x) ==> nodes.deco[x].distance == 0
      ensures forall x :: x in nodes.deco && Reachable(nodes.edges, start, x) && x != start ==>
        nodes.deco[x].ancestor.Some? && Edge(nodes.edges, nodes.deco[x].ancestor.value, x)
      ensures nodes.deco[start].ancestor == None
      ensures path.Some? ==> forall i :: 0 <= i < |path.value| - 1 ==> nodes.deco[path.value[i]].ancestor == Some(path.value[i + 1])
      ensures path.Some? ==> var forward := Reverse(path.value);
        IsPath(nodes.edges, forward) && forward[0] == start && forward[|forward| - 1] == end
      ensures forall x :: x in nodes.deco ==> nodes.deco[x].discovered == 0 && nodes.deco[x].closed == 0
    {
      var ancestors;
      ghost var level;
      ancestors, level := Explore(start, end, false);
      path := Rebuild(nodes.edges, start, end, ancestors, level);
      if path.Some? {
        BackWalkReversed(nodes.edges, start, end, path.value);
        ChainDecorated(nodes.edges, nodes.deco, start, ancestors, level, path.value);
      }
    }

    /**
     * `ShortPathBFS`: as `BFS`, but the queue loop also stops once the flag set on each
     * discovery (whether the vertex discovered last was `end`) holds after a scan. The
     * path it returns is the same; only part of the graph may end up decorated.
     */
    method ShortPathBFS(start: int, end: int) returns (path: Option<seq<int>>)
      requires Valid() && EdgesInGraph(nodes.edges) && start in nodes.edges
      modifies nodes
      ensures Valid() && nodes.keys == old(nodes.keys) && nodes.edges == old(nodes.edges)
      ensures path.None? <==> end == start || !Reachable(nodes.edges, start, end)
      ensures path.Some? ==> ShortestBackWalk(nodes.edges, start, end, path.value)
      ensures forall x :: x in nodes.deco ==>
        nodes.deco[x] == Cleared || (Reachable(nodes.edges, start, x) && nodes.deco[x].distance == 0)
      ensures nodes.deco[start].state != Unvisited && nodes.deco[start].ancestor == None
      ensures forall x :: x in nodes.deco && nodes.deco[x].state != Unvisited && x != start ==>
        nodes.deco[x].ancestor.Some? && Edge(nodes.edges, nodes.deco[x].ancestor.value, x)
      ensures path.Some? ==> forall i :: 0 <= i < |path.value| - 1 ==> nodes.deco[path.value[i]].ancestor == Some(path.value[i + 1])
      ensures path.Some? ==> var forward := Reverse(path.value);
        IsPath(nodes.edges, forward) && forward[0] == start && forward[|forward| - 1] == end
      ensures forall x :: x in nodes.deco ==> nodes.deco[x].discovered == 0 && nodes.deco[x].closed == 0
    {
      var ancestors;
      ghost var level;
      ancestors, level := Explore(start, end, true);
      path := Rebuild(nodes.edges, start, end, ancestors, level);
      DiscoveredTree(nodes.edges, nodes.deco, start, ancestors, level);
      if path.Some? {
        BackWalkReversed(nodes.edges, start, end, path.value);
        ChainDecorated(nodes.edges, nodes.deco, start, ancestors, level, path.value);
      }
    }

    /**
     * The exploration shared by `BFS` and `ShortPathBFS`: resets the decorations, then
     * runs the queue loop from `start`. The ghost `level` gives the hop count at which
     * each vertex was discovered.
     */
    method Explore(start: int, end: int, stopAtEnd: bool) returns (ancestors: map<int, int>, ghost level: map<int, nat>)
      requires Valid() && EdgesInGraph(nodes.edges) && start in nodes.edges
      modifies nodes
      ensures Valid() && nodes.keys == old(nodes.keys) && nodes.edges == old(nodes.edges)
      ensures nodes.deco.Keys == nodes.edges.Keys
      ensures BfsTree(nodes.edges, start, ancestors, level)
      ensures LevelsMinimal(nodes.edges, start, level)
      ensures Discovery(nodes.deco, start, ancestors, level)
      ensures !stopAtEnd ==> ReachClosed(nodes.edges, start, level)
      ensures !stopAtEnd ==> forall x :: x in level ==> nodes.deco[x].state == Closed
      ensures stopAtEnd ==> end in level || ReachClosed(nodes.edges, start, level)
    {
      Reset();
      var deco;
      deco, ancestors, level := Search(start, end, stopAtEnd, nodes.deco);
      nodes.deco := deco;
    }

    /**
     * The queue loop, over reset decorations `deco0`: explores from `start`, recording
     * each discovered vertex's ancestor. With `stopAtEnd` the loop also stops once the
     * flag set on each discovery holds, the flag being whether the vertex discovered
     * last was `end`.
     */
    method Search(start: int, end: int, stopAtEnd: bool, deco0: map<int, Decoration>)
      returns (deco: map<int, Decoration>, ancestors: map<int, int>, ghost level: map<int, nat>)
      requires EdgesInGraph(nodes.edges) && start in nodes.edges
      requires deco0.Keys == nodes.edges.Keys && forall x :: x in deco0 ==> deco0[x] == Cleared
      ensures deco.Keys == nodes.edges.Keys
      ensures BfsTree(nodes.edges, start, ancestors, level)
      ensures LevelsMinimal(nodes.edges, start, level)
      ensures Discovery(deco, start, ancestors, level)
      ensures !stopAtEnd ==> ReachClosed(nodes.edges, start, level)
      ensures !stopAtEnd ==> forall x :: x in level ==> deco[x].state == Closed
      ensures stopAtEnd ==> end in level || ReachClosed(nodes.edges, start, level)
    {
      StartExploring(nodes.edges, deco0, start);
      deco := deco0[start := deco0[start].(state := Visited, distance := 0, ancestor := None)];
      ancestors := map[];
      level := map[start := 0];
      var queue := [start];
      var found := false;
      while |queue| > 0 && !found
        invariant Exploring(nodes.edges, deco, start, ancestors, level, queue)
        invariant found ==> end in level
        invariant !stopAtEnd ==> !found
        decreases nodes.edges.Keys - level.Keys, |queue|
      {
        OpenScan(nodes.edges, deco, start, ancestors, level, queue);
        var u := queue[0];
        ghost var level0, n0 := level, |queue|;
        ghost var first;
        deco, ancestors, level, queue, found, first := ScanEdges(start, u, end, stopAtEnd, deco, ancestors, level, queue[1..]);
        CloseScan(nodes.edges, deco, start, ancestors, level, queue, u);
        deco := deco[u := deco[u].(state := Closed)];
        MeasureDrops(nodes.edges.Keys, level0.Keys, level.Keys, first, n0, |queue|);
      }
      FrontierMinimal(nodes.edges, deco, level, queue, start);
      if queue == [] {
        DrainedReachClosed(nodes.edges, deco, level, start);
      }
    }

    /**
     * The inner loop of the exploration: looks at the edge targets of the dequeued
     * vertex `u` in order, and discovers and enqueues each one still undiscovered.
     */
    method ScanEdges(ghost start: int, u: int, end: int, stopAtEnd: bool, deco0: map<int, Decoration>,
                     ancestors0: map<int, int>, ghost level0: map<int, nat>, queue0: seq<int>)
      returns (deco: map<int, Decoration>, ancestors: map<int, int>, ghost level: map<int, nat>, queue: seq<int>, found: bool,
               ghost first: Option<int>)
      requires u in nodes.edges && forall j :: 0 <= j < |nodes.edges[u]| ==> nodes.edges[u][j] in nodes.edges
      requires Scanning(nodes.edges, deco0, start, ancestors0, level0, queue0, u, 0)
      ensures Scanning(nodes.edges, deco, start, ancestors, level, queue, u, |nodes.edges[u]|)
      ensures found ==> end in level
      ensures !stopAtEnd ==> !found
      ensures level0.Keys <= level.Keys
      ensures first == None ==> level == level0 && queue == queue0
      ensures first != None ==> first.value in level && first.value !in level0
    {
      deco, ancestors, level, queue, found, first := deco0, ancestors0, level0, queue0, false, None;
      var targets := nodes.edges[u];
      var i := 0;
      while i < |targets|
        invariant 0 <= i <= |targets|
        invariant Scanning(nodes.edges, deco, start, ancestors, level, queue, u, i)
        invariant found ==> end in level
        invariant !stopAtEnd ==> !found
        invariant level0.Keys <= level.Keys
        invariant first == None ==> level == level0 && queue == queue0
        invariant first != None ==> first.value in level && first.value !in level0
      {
        var v := targets[i];
        if deco[v].state == Unvisited {
          ScanDiscover(nodes.edges, deco, start, ancestors, level, queue, u, i, v,
                       deco[v := deco[v].(state := Visited, distance := deco[u].distance, ancestor := Some(u))],
                       ancestors[v := u], level[v := level[u] + 1], queue + [v]);
          deco := deco[v := deco[v].(state := Visited, distance := deco[u].distance, ancestor := Some(u))];
          ancestors := ancestors[v := u];
          level := level[v := level[u] + 1];
          queue := queue + [v];
          if first == None {
            first := Some(v);
          }
          if stopAtEnd {
            found := v == end;
          }
        } else {
          ScanSeen(nodes.edges, deco, start, ancestors, level, queue, u, i);
        }
        i := i + 1;
      }
    }

    /**
     * `DFS`: resets the decorations and visits, in enumeration order, every vertex still
     * white, each such vertex becoming the root of a tree of the search. Every vertex
     * ends closed with a discovery stamp below its closing stamp, ancestors name tree
     * edges, and the flag is cleared exactly when the graph has a cycle, or stays clear.
     */
    method DFS() returns (ghost roots: seq<int>)
      requires Valid() && EdgesInGraph(nodes.edges)
      modifies this, nodes
      ensures Valid() && nodes.keys == old(nodes.keys) && nodes.edges == old(nodes.edges)
      ensures acyclic == (old(acyclic) && !HasCycle(nodes.edges))
      ensures Searched(nodes.edges, nodes.deco, nodes.keys)
      ensures forall x :: x in nodes.deco ==> (nodes.deco[x].ancestor == None <==> x in roots)
    {
      Reset();
      var deco, flag;
      deco, flag, roots := DFSForest(nodes.deco, acyclic);
      acyclic := flag;
      nodes.SetDecorations(deco);
      RootsDone(nodes.edges, nodes.deco, roots, nodes.keys);
    }

    /**
     * The loop of `DFS` over reset decorations `deco0`: visits each vertex still white,
     * in enumeration order, counting stamps from 0. The ghost `roots` lists the vertices
     * the loop visited, the roots of the search's trees.
     */
    method DFSForest(deco0: map<int, Decoration>, acyclic0: bool)
      returns (deco: map<int, Decoration>, acyclic: bool, ghost roots: seq<int>)
      requires nodes.Valid() && EdgesInGraph(nodes.edges)
      requires deco0.Keys == nodes.edges.Keys && forall x :: x in deco0 ==> deco0[x] == Cleared
      ensures deco.Keys == nodes.edges.Keys
      ensures acyclic == (acyclic0 && !HasCycle(nodes.edges))
      ensures forall x :: x in deco ==>
        && deco[x].state == Closed && deco[x].distance == MaxDistance
        && 1 <= deco[x].discovered < deco[x].closed <= 2 * |nodes.keys|
      ensures DistinctStamps(deco) && Nested(deco) && StampList(deco, nodes.keys) == UpTo(2 * |nodes.keys|)
      ensures forall x :: x in deco ==> (deco[x].ancestor == None <==> x in roots)
      ensures RootsSoFar(nodes.edges, deco, roots, nodes.keys, |nodes.keys|)
      ensures TreeEdges(nodes.edges, deco)
      ensures |nodes.keys| > 0 ==> deco[nodes.keys[0]].ancestor == None
      ensures forall x :: x in deco && x != nodes.keys[0] && deco[x].ancestor == None ==>
        !Reachable(nodes.edges, nodes.keys[0], x)
      ensures |nodes.keys| > 0 && (forall x :: x in deco && x != nodes.keys[0] ==> deco[x].ancestor.Some?) ==>
        forall x :: x in deco ==> Reachable(nodes.edges, nodes.keys[0], x)
    {
      ghost var E := nodes.edges;
      var keys := nodes.keys;
      deco, acyclic, roots := deco0, acyclic0, [];
      var time: nat := 0;
      ghost var clean := true;
      StartSettled(E, deco, keys);
      var i := 0;
      while i < |keys|
        invariant Forested(E, deco, time, clean, roots, keys, i)
        invariant acyclic == (acyclic0 && clean)
      {
        var item := keys[i];
        if deco[item].state == Unvisited {
          deco, time, acyclic, clean := VisitRoot(i, deco, time, acyclic, acyclic0, clean, roots);
          roots := roots + [item];
        } else {
          SkipSettled(E, deco, roots, keys, i);
        }
        i := i + 1;
      }
      ForestDone(E, deco, time, clean, roots, keys);
    }

    /** One pass of the forest loop that finds `nodes.keys[i]` still white: visits it and adds its tree. */
    method VisitRoot(i: nat, deco0: map<int, Decoration>, time0: nat, acyclic0: bool,
                     ghost flag: bool, ghost clean0: bool, ghost roots: seq<int>)
      returns (deco: map<int, Decoration>, time: nat, acyclic: bool, ghost clean: bool)
      requires EdgesInGraph(nodes.edges)
      requires Forested(nodes.edges, deco0, time0, clean0, roots, nodes.keys, i) && i < |nodes.keys|
      requires nodes.keys[i] in deco0 && deco0[nodes.keys[i]].state == Unvisited
      requires acyclic0 == (flag && clean0)
      ensures Forested(nodes.edges, deco, time, clean, roots + [nodes.keys[i]], nodes.keys, i + 1)
      ensures acyclic == (flag && clean)
    {
      deco, time, acyclic, clean := DFSVisit(nodes.keys[i], deco0, time0, acyclic0, flag, clean0, []);
      GrowForested(nodes.edges, deco0, time0, clean0, roots, nodes.keys, i, deco);
    }

    /**
     * `DFSVisit`: stamps `current` discovered and gray, visits each white edge target,
     * clears the flag on an edge to a gray vertex, and finally stamps `current` closed.
     * The ghost `stack` lists the gray vertices the visit was called under, `clean`
     * whether no back edge has been met so far, and `flag` the graph's flag when the
     * search began.
     */
    method DFSVisit(current: int, deco0: map<int, Decoration>, time0: nat, acyclic0: bool,
                    ghost flag: bool, ghost clean0: bool, ghost stack: seq<int>)
      returns (deco: map<int, Decoration>, time: nat, acyclic: bool, ghost clean: bool)
      requires EdgesInGraph(nodes.edges)
      requires Entry(nodes.edges, deco0, time0, stack, clean0, current)
      requires acyclic0 == (flag && clean0)
      ensures Walk(nodes.edges, deco, time, stack, clean)
      ensures current in deco && deco[current].state == Closed
      ensures Extends(nodes.edges, deco0, deco, current)
      ensures acyclic == (flag && clean) && (clean ==> clean0)
      ensures time > time0
      ensures deco[current].discovered == time0 + 1 && deco[current].closed == time
      ensures StampedAfter(deco0, deco, time0, current)
      decreases Whites(deco0), 1
    {
      ghost var E := nodes.edges;
      time := time0 + 1;
      deco := deco0[current := deco0[current].(state := Visited, discovered := time)];
      Discover(E, deco0, time0, stack, clean0, current, deco, time);
      acyclic, clean := acyclic0, clean0;
      var targets := nodes.edges[current];
      var i := 0;
      while i < |targets|
        invariant 0 <= i <= |targets| && targets == E[current]
        invariant Visiting(E, deco, time, stack, clean, current, i)
        invariant Extends(E, deco0, deco, current)
        invariant acyclic == (flag && clean) && (clean ==> clean0)
        invariant time > time0
        invariant deco[current].discovered == time0 + 1
        invariant StampedAfter(deco0, deco, time0 + 1, current)
      {
        deco, time, acyclic, clean := ScanTarget(current, i, deco, time, acyclic, flag, clean, stack, deco0, time0, clean0);
        i := i + 1;
      }
      ghost var deco1, time1 := deco, time;
      time := time + 1;
      deco := deco[current := deco[current].(state := Closed, closed := time)];
      Finish(E, deco1, time1, stack, clean, current, deco, time);
      FinishExtends(E, deco0, deco1, current, deco, time);
      StampedAfterFinish(deco0, deco1, time0, current, deco, time);
    }

    /**
     * One pass of the scan loop of `DFSVisit`, over the `seen`-th edge target of the gray
     * `current`: a white target is visited, a gray one clears the flag, a closed one is
     * passed over.
     */
    method ScanTarget(current: int, seen: nat, deco: map<int, Decoration>, time: nat, acyclic: bool,
                      ghost flag: bool, ghost clean: bool, ghost stack: seq<int>,
                      ghost deco0: map<int, Decoration>, ghost time0: nat, ghost clean0: bool)
      returns (deco2: map<int, Decoration>, time2: nat, acyclic2: bool, ghost clean2: bool)
      requires EdgesInGraph(nodes.edges)
      requires Visiting(nodes.edges, deco, time, stack, clean, current, seen) && seen < |nodes.edges[current]|
      requires Extends(nodes.edges, deco0, deco, current) && current in deco0 && deco0[current].state == Unvisited
      requires acyclic == (flag && clean) && (clean ==> clean0)
      requires time > time0 && deco[current].discovered == time0 + 1 && StampedAfter(deco0, deco, time0 + 1, current)
      ensures Visiting(nodes.edges, deco2, time2, stack, clean2, current, seen + 1)
      ensures Extends(nodes.edges, deco0, deco2, current)
      ensures acyclic2 == (flag && clean2) && (clean2 ==> clean0)
      ensures time2 > time0 && deco2[current].discovered == time0 + 1 && StampedAfter(deco0, deco2, time0 + 1, current)
      decreases Whites(deco0), 0
    {
      ghost var E := nodes.edges;
      var v := nodes.edges[current][seen];
      deco2, time2, acyclic2, clean2 := deco, time, acyclic, clean;
      if deco[v].state == Unvisited {
        WhitesShrink(deco0, deco, current);
        deco2, time2, acyclic2, clean2 := VisitTarget(current, seen, deco, time, acyclic, flag, clean, stack, deco0);
        StampedAfterGrows(deco0, deco, deco2, time0 + 1, time, current);
      } else if deco[v].state == Visited {
        SeeGray(E, deco, time, stack, clean, current, seen);
        acyclic2, clean2 := false, false;
      } else {
        SeeClosed(E, deco, time, stack, clean, current, seen);
      }
    }

    /**
     * The branch of `DFSVisit` for a white edge target, the `seen`-th of `current`:
     * names `current` its ancestor and visits it.
     */
    method VisitTarget(current: int, seen: nat, deco: map<int, Decoration>, time: nat, acyclic: bool,
                       ghost flag: bool, ghost clean: bool, ghost stack: seq<int>, ghost deco0: map<int, Decoration>)
      returns (deco2: map<int, Decoration>, time2: nat, acyclic2: bool, ghost clean2: bool)
      requires EdgesInGraph(nodes.edges)
      requires Visiting(nodes.edges, deco, time, stack, clean, current, seen) && seen < |nodes.edges[current]|
      requires nodes.edges[current][seen] in deco && deco[nodes.edges[current][seen]].state == Unvisited
      requires Extends(nodes.edges, deco0, deco, current) && current in deco0
      requires acyclic == (flag && clean)
      ensures Visiting(nodes.edges, deco2, time2, stack, clean2, current, seen + 1)
      ensures Extends(nodes.edges, deco0, deco2, current)
      ensures acyclic2 == (flag && clean2) && (clean2 ==> clean)
      ensures time2 > time
      ensures forall x :: x in deco && deco[x].state != Unvisited ==> deco2[x] == deco[x]
      ensures StampedAfter(deco, deco2, time, current)
      decreases Whites(deco), 2
    {
      ghost var E := nodes.edges;
      var v := nodes.edges[current][seen];
      Descend(E, deco, time, stack, clean, current, seen);
      var deco1 := deco[v := deco[v].(ancestor := Some(current))];
      WhitesKeep(deco, v, Some(current));
      deco2, time2, acyclic2, clean2 := DFSVisit(v, deco1, time, acyclic, flag, clean, stack + [current]);
      Return(E, deco, time, stack, clean, current, seen, deco2, time2, clean2);
      ReturnExtends(E, deco0, deco, deco2, current, v);
      StampedAfterReturn(E, deco, v, Some(current), deco2, time, current);
    }

    /** `IsAcyclic`: runs `DFS` and reports the flag, which a cycle met now or earlier has cleared. */
    method IsAcyclic() returns (r: bool)
      requires Valid() && EdgesInGraph(nodes.edges)
      modifies this, nodes
      ensures Valid() && nodes.keys == old(nodes.keys) && nodes.edges == old(nodes.edges)
      ensures r == acyclic
      ensures r <==> old(acyclic) && !HasCycle(nodes.edges)
      ensures Searched(nodes.edges, nodes.deco, nodes.keys)
    {
      ghost var roots := DFS();
      r := acyclic;
    }

    /**
     * `IsConnected`: true for an empty graph; otherwise runs `DFS` and counts, in
     * enumeration order, the vertices left without an ancestor, failing as soon as a
     * second one turns up. Those are the roots of the search's trees, so the answer is
     * whether every vertex is reachable from the first vertex enumerated.
     */
    method IsConnected() returns (r: bool)
      requires Valid() && EdgesInGraph(nodes.edges)
      modifies this, nodes
      ensures Valid() && nodes.keys == old(nodes.keys) && nodes.edges == old(nodes.edges)
      ensures r <==> |nodes.keys| == 0 || forall x :: x in nodes.edges ==> Reachable(nodes.edges, nodes.keys[0], x)
      ensures |nodes.keys| == 0 ==> nodes.deco == old(nodes.deco) && acyclic == old(acyclic)
      ensures |nodes.keys| > 0 ==> acyclic == (old(acyclic) && !HasCycle(nodes.edges))
      ensures |nodes.keys| > 0 ==> Searched(nodes.edges, nodes.deco, nodes.keys)
    {
      if nodes.Count() > 0 {
        ghost var roots := DFS();
        r := OnlyFirstRoot();
        ConnectedRoots(nodes.edges, nodes.deco, nodes.keys);
        return;
      }
      return true;
    }

    /**
     * The counting loop of `IsConnected`, over a search whose first vertex is a root: the
     * count of vertices without an ancestor goes past one exactly when a later vertex
     * has none either.
     */
    method OnlyFirstRoot() returns (r: bool)
      requires Valid()
      requires |nodes.keys| > 0 ==> nodes.deco[nodes.keys[0]].ancestor == None
      ensures r <==> forall j :: 1 <= j < |nodes.keys| ==> nodes.deco[nodes.keys[j]].ancestor.Some?
    {
      var keys := nodes.keys;
      var nullCount := 0;
      var i := 0;
      while i < |keys|
        invariant 0 <= i <= |keys|
        invariant nullCount == (if i == 0 then 0 else 1)
        invariant forall j :: 1 <= j < i ==> nodes.deco[keys[j]].ancestor.Some?
      {
        if nodes.deco[keys[i]].ancestor == None {
          nullCount := nullCount + 1;
        }
        if nullCount > 1 {
          return false;
        }
        i := i + 1;
      }
      return true;
    }

    /**
     * `Traspose`: a new graph holding a new vertex for each identifier, in the same
     * enumeration order, and an edge v -> u for each edge u -> v, added source by source
     * in enumeration order.
     */
    method Traspose() returns (t: Graph)
      requires Valid() && EdgesInGraph(nodes.edges)
      ensures fresh(t) && fresh(t.nodes) && t.Valid() && t.acyclic
      ensures t.nodes.keys == nodes.keys
      ensures t.nodes.edges == Transposed(nodes.keys, nodes.edges)
      ensures forall x :: x in t.nodes.deco ==> t.nodes.deco[x] == Fresh
    {
      var list := new NodeList();
      t := new Graph(list);
      AddVertices(t);
      AddAllSources(t);
      DoneAll(nodes.keys, nodes.edges);
    }

    /** The second loop of `Traspose`: reverses the edges of each source in enumeration order. */
    method AddAllSources(t: Graph)
      requires Valid() && EdgesInGraph(nodes.edges)
      requires t.Valid() && t.nodes != nodes && t.nodes.keys == nodes.keys
      requires t.nodes.edges == Done(nodes.keys, nodes.edges, 0)
      modifies t.nodes
      ensures t.Valid() && t.nodes.keys == nodes.keys && t.nodes.deco == old(t.nodes.deco)
      ensures t.nodes.edges == Done(nodes.keys, nodes.edges, |nodes.keys|)
    {
      var i := 0;
      while i < |nodes.keys|
        invariant 0 <= i <= |nodes.keys|
        invariant t.Valid() && t.nodes.keys == nodes.keys && t.nodes.deco == old(t.nodes.deco)
        invariant t.nodes.edges == Done(nodes.keys, nodes.edges, i)
      {
        AddSources(t, i);
        i := i + 1;
      }
    }

    /** The first loop of `Traspose`: gives the empty graph `t` a new vertex for each identifier. */
    method AddVertices(t: Graph)
      requires Valid() && t.Valid() && t.nodes != nodes && t.nodes.keys == [] && t.nodes.edges == map[]
      modifies t.nodes
      ensures t.Valid() && t.nodes.keys == nodes.keys
      ensures t.nodes.edges == Done(nodes.keys, nodes.edges, 0)
      ensures forall x :: x in t.nodes.deco ==> t.nodes.deco[x] == Fresh
    {
      var keys := nodes.keys;
      var i := 0;
      while i < |keys|
        invariant 0 <= i <= |keys|
        invariant t.Valid() && t.nodes.keys == keys[..i]
        invariant t.nodes.edges == map x | x in keys[..i] :: []
        invariant forall x :: x in t.nodes.deco ==> t.nodes.deco[x] == Fresh
      {
        assert keys[i] !in keys[..i];
        var ok := t.AddVertex(Vertex(keys[i], [], Fresh));
        assert keys[..i + 1] == keys[..i] + [keys[i]];
        i := i + 1;
      }
      assert keys[..i] == keys;
      DoneNone(keys, nodes.edges);
    }

    /** The inner loop of `Traspose`: adds an edge v -> keys[i] for each edge keys[i] -> v. */
    method AddSources(t: Graph, i: nat)
      requires Valid() && EdgesInGraph(nodes.edges) && i < |nodes.keys|
      requires t.Valid() && t.nodes != nodes && t.nodes.keys == nodes.keys
      requires t.nodes.edges == Done(nodes.keys, nodes.edges, i)
      modifies t.nodes
      ensures t.Valid() && t.nodes.keys == nodes.keys && t.nodes.deco == old(t.nodes.deco)
      ensures t.nodes.edges == Done(nodes.keys, nodes.edges, i + 1)
    {
      var u := nodes.keys[i];
      var targets := nodes.edges[u];
      DoingStart(nodes.keys, nodes.edges, i);
      var j := 0;
      while j < |targets|
        invariant 0 <= j <= |targets|
        invariant t.Valid() && t.nodes.keys == nodes.keys && t.nodes.deco == old(t.nodes.deco)
        invariant t.nodes.edges == Doing(nodes.keys, nodes.edges, i, j)
      {
        ReverseEdge(t, i, j);
        j := j + 1;
      }
      DoingEnd(nodes.keys, nodes.edges, i);
    }

    /** One step of `AddSources`: adds the edge v -> keys[i] for the `j`-th edge keys[i] -> v. */
    method ReverseEdge(t: Graph, i: nat, j: nat)
      requires Valid() && EdgesInGraph(nodes.edges) && i < |nodes.keys| && j < |nodes.edges[nodes.keys[i]]|
      requires t.Valid() && t.nodes != nodes && t.nodes.keys == nodes.keys
      requires t.nodes.edges == Doing(nodes.keys, nodes.edges, i, j)
      modifies t.nodes
      ensures t.Valid() && t.nodes.keys == nodes.keys && t.nodes.deco == old(t.nodes.deco)
      ensures t.nodes.edges == Doing(nodes.keys, nodes.edges, i, j + 1)
    {
      var u := nodes.keys[i];
      var v := nodes.edges[u][j];
      assert v in nodes.edges;
      DoingStep(nodes.keys, nodes.edges, i, j, t.nodes.edges, u, v);
      var ok := t.nodes.AddEdge(v, u);
    }
  }

  /**
   * After a depth-first search whose first root is `keys[0]`, the later vertices all
   * have an ancestor exactly when every vertex is reachable from `keys[0]`.
   */
  lemma ConnectedRoots(E: map<int, seq<int>>, W: map<int, Decoration>, keys: seq<int>)
    requires Distinct(keys) && |keys| > 0 && (forall x :: x in keys <==> x in E) && W.Keys == E.Keys
    requires forall x :: x in W && x != keys[0] && W[x].ancestor == None ==> !Reachable(E, keys[0], x)
    requires (forall x :: x in W && x != keys[0] ==> W[x].ancestor.Some?) ==>
      forall x :: x in W ==> Reachable(E, keys[0], x)
    ensures (forall j :: 1 <= j < |keys| ==> W[keys[j]].ancestor.Some?) <==>
      forall x :: x in E ==> Reachable(E, keys[0], x)
  {
    if forall j :: 1 <= j < |keys| ==> W[keys[j]].ancestor.Some? {
      forall x | x in W && x != keys[0] ensures W[x].ancestor.Some? {
        var j :| 0 <= j < |keys| && keys[j] == x;
      }
    } else {
      var j :| 1 <= j < |keys| && W[keys[j]].ancestor == None;
      assert keys[j] != keys[0];
    }
  }

  /**
   * The path rebuild that ends `BFS` and `ShortPathBFS`: None (null) when `end` has no
   * ancestor; otherwise walks the ancestors from `end` back to `start`, listing each
   * vertex on the way, `end` first and `start` last.
   */
  method Rebuild(ghost E: map<int, seq<int>>, start: int, end: int, ancestors: map<int, int>, ghost level: map<int, nat>)
    returns (path: Option<seq<int>>)
    requires BfsTree(E, start, ancestors, level) && LevelsMinimal(E, start, level)
    ensures path.None? <==> end !in ancestors
    ensures path.Some? ==> ShortestBackWalk(E, start, end, path.value) && |path.value| == level[end] + 1
    ensures path.Some? ==> AncestorChain(ancestors, path.value)
  {
    if end !in ancestors {
      return None;
    }
    var result := [];
    var current := end;
    ReachableInGraph(E, start, end);
    while current != start
      invariant current in level
      invariant BackWalk(E, current, end, result + [current])
      invariant forall i :: 0 <= i < |result| + 1 ==>
        (result + [current])[i] in level && level[(result + [current])[i]] + i == level[end]
      invariant AncestorChain(ancestors, result + [current])
      decreases level[current]
    {
      var next := ancestors[current];
      ReachableInGraph(E, start, next);
      ghost var walk := result + [current];
      assert (walk + [next])[|walk|] == next;
      ChainGrows(ancestors, walk, next);
      result, current := result + [current], next;
      assert result + [current] == walk + [next];
    }
    var p := result + [start];
    assert p == result + [current];
    assert Distinct(p) by {
      forall i, j | 0 <= i < j < |p| ensures p[i] != p[j] {
        assert level[p[i]] + i == level[p[j]] + j;
      }
    }
    assert |p| == level[end] + 1 by {
      assert level[p[|p| - 1]] + (|p| - 1) == level[end];
    }
    path := Some(p);
  }
}
