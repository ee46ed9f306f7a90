/**
 Backward search for root causes: the two separately written path enumerators (causal/dag_traversal.py and
 causal/two_layer_graph.py) over the insertion log of a graph.
 */
module FaultPaths {
  import opened Options
  import opened Filtering
  import opened LayeredGraph
  import opened Orders

  function OnLayer(layer: string): LayerEdge -> Option<LayerEdge> {
    (e: LayerEdge) => if e.layer == layer then Some(e) else None
  }

  /** Edges toward root causes: dependencies are followed forwards, causal edges backwards. */
  function Upstream(log: seq<LayerEdge>, node: string): seq<LayerEdge> {
    FilterMap(Outgoing(log, node), OnLayer("1")) + FilterMap(Incoming(log, node), OnLayer("2"))
  }

  function Neighbor(e: LayerEdge): string {
    if e.layer == "1" then e.target else e.source
  }

  /** The sort key of the traversal: neighbor, layer, edge type, source. */
  predicate HopLe(a: LayerEdge, b: LayerEdge) {
    KeyLe([Neighbor(a), a.layer, a.edgeType, a.source], [Neighbor(b), b.layer, b.edgeType, b.source])
  }

  /** The sort key of the graph's own enumerator: source, target, layer. */
  predicate EdgeLe(a: LayerEdge, b: LayerEdge) {
    KeyLe([a.source, a.target, a.layer], [b.source, b.target, b.layer])
  }

  function Elements(nodes: seq<string>): set<string> {
    set n | n in nodes
  }

  function Room(depth: int, length: nat): nat {
    if length > depth then 0 else depth + 1 - length
  }

  datatype RawPath = RawPath(nodes: seq<string>, edges: seq<LayerEdge>)

  /** The traversal from the last node of `nodes`. */
  function Walk(log: seq<LayerEdge>, depth: int, nodes: seq<string>, edges: seq<LayerEdge>,
                visited: set<string>): seq<RawPath>
    requires nodes != []
    decreases Room(depth, |nodes|), 1, 0
  {
    if |nodes| > depth then []
    else
      var upstream := Sort(Upstream(log, nodes[|nodes| - 1]), HopLe);
      if upstream == [] then [RawPath(nodes, edges)] else WalkAll(log, depth, upstream, nodes, edges, visited)
  }

  function WalkAll(log: seq<LayerEdge>, depth: int, hops: seq<LayerEdge>, nodes: seq<string>, edges: seq<LayerEdge>,
                   visited: set<string>): seq<RawPath>
    requires nodes != [] && |nodes| <= depth
    decreases Room(depth, |nodes|), 0, |hops|
  {
    if hops == [] then []
    else
      var e, last := hops[|hops| - 1], Neighbor(hops[|hops| - 1]);
      WalkAll(log, depth, hops[..|hops| - 1], nodes, edges, visited)
      + (if last in visited then [] else Walk(log, depth, nodes + [last], edges + [e], visited + {last}))
  }

  /** The graph's own enumerator: node paths, root first. */
  function FaultWalk(log: seq<LayerEdge>, depth: int, trail: seq<string>, visited: set<string>): seq<seq<string>>
    requires trail != []
    decreases Room(depth, |trail|), 1, 0
  {
    if |trail| > depth then []
    else
      var upstream := Upstream(log, trail[|trail| - 1]);
      if upstream == [] then [Reversed(trail)] else FaultAll(log, depth, Sort(upstream, EdgeLe), trail, visited)
  }

  function FaultAll(log: seq<LayerEdge>, depth: int, hops: seq<LayerEdge>, trail: seq<string>,
                    visited: set<string>): seq<seq<string>>
    requires trail != [] && |trail| <= depth
    decreases Room(depth, |trail|), 0, |hops|
  {
    if hops == [] then []
    else
      var last := Neighbor(hops[|hops| - 1]);
      FaultAll(log, depth, hops[..|hops| - 1], trail, visited)
      + (if last in visited then [] else FaultWalk(log, depth, trail + [last], visited + {last}))
  }

  // ---------------------------------------------------------------- what a fault path is

  /** Consecutive nodes are joined by upstream edges and no node repeats. */
  ghost predicate IsTrail(log: seq<LayerEdge>, p: RawPath) {
    && |p.nodes| == |p.edges| + 1
    && (forall i | 0 <= i < |p.edges| ::
          p.edges[i] in Upstream(log, p.nodes[i]) && p.nodes[i + 1] == Neighbor(p.edges[i]))
    && Distinct(p.nodes)
  }

  /** A trail of at most `depth` nodes that ends where nothing lies further upstream. */
  ghost predicate IsRooted(log: seq<LayerEdge>, depth: int, p: RawPath) {
    IsTrail(log, p) && |p.nodes| <= depth && Upstream(log, p.nodes[|p.nodes| - 1]) == []
  }

  ghost predicate Extends(p: RawPath, nodes: seq<string>, edges: seq<LayerEdge>) {
    nodes <= p.nodes && edges <= p.edges
  }

  lemma {:induction false} WalkExact(log: seq<LayerEdge>, depth: int, nodes: seq<string>, edges: seq<LayerEdge>,
                                     visited: set<string>, p: RawPath)
    requires nodes != [] && IsTrail(log, RawPath(nodes, edges)) && visited == Elements(nodes)
    ensures p in Walk(log, depth, nodes, edges, visited) <==> IsRooted(log, depth, p) && Extends(p, nodes, edges)
    decreases Room(depth, |nodes|), 1, 0
  {
    if |nodes| <= depth {
      var raw := Upstream(log, nodes[|nodes| - 1]);
      var upstream := Sort(raw, HopLe);
      SortPermutes(raw, HopLe);
      if upstream == [] {
        LeafExact(log, depth, nodes, edges, p);
      } else {
        WalkAllExact(log, depth, upstream, nodes, edges, visited, p);
        BranchExact(log, depth, upstream, nodes, edges, p);
      }
    }
  }

  lemma LeafExact(log: seq<LayerEdge>, depth: int, nodes: seq<string>, edges: seq<LayerEdge>, p: RawPath)
    requires nodes != [] && IsTrail(log, RawPath(nodes, edges)) && |nodes| <= depth
    requires Upstream(log, nodes[|nodes| - 1]) == []
    ensures IsRooted(log, depth, p) && Extends(p, nodes, edges) <==> p == RawPath(nodes, edges)
  {
    hide Upstream;
    if IsRooted(log, depth, p) && Extends(p, nodes, edges) {
      assert p.nodes == nodes && p.edges == edges;
    }
  }

  lemma BranchExact(log: seq<LayerEdge>, depth: int, hops: seq<LayerEdge>, nodes: seq<string>, edges: seq<LayerEdge>,
                    p: RawPath)
    requires nodes != [] && IsTrail(log, RawPath(nodes, edges)) && Upstream(log, nodes[|nodes| - 1]) != []
    requires forall e :: e in hops <==> e in Upstream(log, nodes[|nodes| - 1])
    ensures IsRooted(log, depth, p) && Extends(p, nodes, edges)
       <==> exists i :: 0 <= i < |hops| && Neighbor(hops[i]) !in Elements(nodes)
              && IsRooted(log, depth, p) && Extends(p, nodes + [Neighbor(hops[i])], edges + [hops[i]])
  {
    hide Upstream;
    if IsRooted(log, depth, p) && Extends(p, nodes, edges) {
      NextHop(log, nodes, edges, p);
      assert p.edges[|edges|] in hops;
      var i :| 0 <= i < |hops| && hops[i] == p.edges[|edges|];
    }
    if i :| 0 <= i < |hops| && Neighbor(hops[i]) !in Elements(nodes)
              && IsRooted(log, depth, p) && Extends(p, nodes + [Neighbor(hops[i])], edges + [hops[i]]) {
      assert nodes <= nodes + [Neighbor(hops[i])] && edges <= edges + [hops[i]];
    }
  }

  /** A rooted path that extends a non-root one takes one of its upstream edges next. */
  lemma NextHop(log: seq<LayerEdge>, nodes: seq<string>, edges: seq<LayerEdge>, p: RawPath)
    requires nodes != [] && |nodes| == |edges| + 1 && IsTrail(log, p) && Extends(p, nodes, edges)
    requires Upstream(log, nodes[|nodes| - 1]) != [] && Upstream(log, p.nodes[|p.nodes| - 1]) == []
    ensures |p.nodes| > |nodes|
    ensures p.edges[|edges|] in Upstream(log, nodes[|nodes| - 1])
    ensures Neighbor(p.edges[|edges|]) !in Elements(nodes)
    ensures Extends(p, nodes + [Neighbor(p.edges[|edges|])], edges + [p.edges[|edges|]])
  {
    assert p.nodes[|nodes| - 1] == nodes[|nodes| - 1];
    assert p.nodes[|edges|] == nodes[|nodes| - 1];
    assert p.nodes[|nodes|] == Neighbor(p.edges[|edges|]);
  }

  lemma {:induction false} WalkAllExact(log: seq<LayerEdge>, depth: int, hops: seq<LayerEdge>, nodes: seq<string>,
                                        edges: seq<LayerEdge>, visited: set<string>, p: RawPath)
    requires nodes != [] && |nodes| <= depth && IsTrail(log, RawPath(nodes, edges)) && visited == Elements(nodes)
    requires forall e | e in hops :: e in Upstream(log, nodes[|nodes| - 1])
    ensures p in WalkAll(log, depth, hops, nodes, edges, visited)
       <==> exists i :: 0 <= i < |hops| && Neighbor(hops[i]) !in visited
              && IsRooted(log, depth, p) && Extends(p, nodes + [Neighbor(hops[i])], edges + [hops[i]])
    decreases Room(depth, |nodes|), 0, |hops|
  {
    hide Upstream, Neighbor, IsTrail, IsRooted;
    if hops != [] {
      var front, e := hops[..|hops| - 1], hops[|hops| - 1];
      assert hops == front + [e] && e in hops;
      assert forall x | x in front :: x in hops;
      WalkAllExact(log, depth, front, nodes, edges, visited, p);
      var last := Neighbor(e);
      if last !in visited {
        ExtendTrail(log, nodes, edges, e);
        WalkExact(log, depth, nodes + [last], edges + [e], visited + {last}, p);
      }
      SplitExists(front, e,
        i => Neighbor(i) !in visited && IsRooted(log, depth, p) && Extends(p, nodes + [Neighbor(i)], edges + [i]));
    }
  }

  lemma ExtendTrail(log: seq<LayerEdge>, nodes: seq<string>, edges: seq<LayerEdge>, e: LayerEdge)
    requires nodes != [] && IsTrail(log, RawPath(nodes, edges))
    requires e in Upstream(log, nodes[|nodes| - 1]) && Neighbor(e) !in Elements(nodes)
    ensures IsTrail(log, RawPath(nodes + [Neighbor(e)], edges + [e]))
    ensures Elements(nodes + [Neighbor(e)]) == Elements(nodes) + {Neighbor(e)}
  {
    hide Upstream;
  }

  lemma SplitExists(front: seq<LayerEdge>, e: LayerEdge, P: LayerEdge -> bool)
    ensures var s := front + [e];
            (exists i :: 0 <= i < |s| && P(s[i])) <==> (exists i :: 0 <= i < |front| && P(front[i])) || P(e)
  {
    var s := front + [e];
    if i :| 0 <= i < |front| && P(front[i]) {
      assert P(s[i]);
    }
    if P(e) {
      assert P(s[|front|]);
    }
  }

  /** Everything the traversal collects from a symptom. */
  function RawPaths(log: seq<LayerEdge>, depth: int, symptom: string): seq<RawPath> {
    Walk(log, depth, [symptom], [], {symptom})
  }

  /**
   Soundness and completeness: the collected paths are exactly the bounded simple paths from the symptom to a root.
   */
  lemma EnumerationExact(log: seq<LayerEdge>, depth: int, symptom: string, p: RawPath)
    ensures p in RawPaths(log, depth, symptom)
       <==> IsRooted(log, depth, p) && p.nodes[0] == symptom
  {
    WalkExact(log, depth, [symptom], [], {symptom}, p);
    if IsRooted(log, depth, p) {
      assert p.nodes[0] == symptom <==> [symptom] <= p.nodes;
    }
  }

  /** `e` leads from a node one step towards a cause: it depends on the other node, or is caused by it. */
  ghost predicate IsHop(log: seq<LayerEdge>, e: LayerEdge, from: string, to: string) {
    e in log && ((e.layer == "1" && e.source == from && e.target == to)
                 || (e.layer == "2" && e.target == from && e.source == to))
  }

  /** Nothing lies further upstream. */
  ghost predicate IsRootNode(log: seq<LayerEdge>, node: string) {
    forall e | e in log :: !(e.layer == "1" && e.source == node) && !(e.layer == "2" && e.target == node)
  }

  /** A fault path of the symptom, in terms of the edges of the graph. */
  ghost predicate IsFaultPath(log: seq<LayerEdge>, depth: int, symptom: string, p: RawPath) {
    && |p.nodes| == |p.edges| + 1 && |p.nodes| <= depth && p.nodes[0] == symptom
    && (forall i | 0 <= i < |p.edges| :: IsHop(log, p.edges[i], p.nodes[i], p.nodes[i + 1]))
    && (forall i, j | 0 <= i < j < |p.nodes| :: p.nodes[i] != p.nodes[j])
    && IsRootNode(log, p.nodes[|p.nodes| - 1])
  }

  lemma {:induction false} HopExactly(log: seq<LayerEdge>, e: LayerEdge, from: string, to: string)
    ensures e in Upstream(log, from) && to == Neighbor(e) <==> IsHop(log, e, from, to)
  {
    UpstreamMember(log, from, e);
    hide Upstream;
    assert "1"[0] != "2"[0];
  }

  lemma {:induction false} RootExactly(log: seq<LayerEdge>, node: string)
    ensures Upstream(log, node) == [] <==> IsRootNode(log, node)
  {
    forall e
      ensures e in Upstream(log, node) <==>
              e in log && ((e.layer == "1" && e.source == node) || (e.layer == "2" && e.target == node))
    {
      UpstreamMember(log, node, e);
    }
    hide Upstream;
    if Upstream(log, node) != [] {
      assert Upstream(log, node)[0] in Upstream(log, node);
    }
  }

  /** The rooted paths of the symptom are its fault paths. */
  lemma {:induction false} RootedExactly(log: seq<LayerEdge>, depth: int, symptom: string, p: RawPath)
    ensures IsRooted(log, depth, p) && p.nodes[0] == symptom <==> IsFaultPath(log, depth, symptom, p)
  {
    hide Upstream, Neighbor, IsHop, IsRootNode;
    if |p.nodes| == |p.edges| + 1 {
      RootExactly(log, p.nodes[|p.nodes| - 1]);
      if IsRooted(log, depth, p) && p.nodes[0] == symptom {
        forall i | 0 <= i < |p.edges|
          ensures IsHop(log, p.edges[i], p.nodes[i], p.nodes[i + 1])
        {
          HopExactly(log, p.edges[i], p.nodes[i], p.nodes[i + 1]);
        }
      }
      if IsFaultPath(log, depth, symptom, p) {
        forall i | 0 <= i < |p.edges|
          ensures p.edges[i] in Upstream(log, p.nodes[i]) && p.nodes[i + 1] == Neighbor(p.edges[i])
        {
          HopExactly(log, p.edges[i], p.nodes[i], p.nodes[i + 1]);
        }
        assert IsRooted(log, depth, p);
      }
    }
  }

  // ---------------------------------------------------------------- what a loaded topology means

  /** Some entry of the causal adjacency lists `effect` under `cause`. */
  ghost predicate Causes(adjacency: seq<(string, seq<string>)>, cause: string, effect: string) {
    exists i :: 0 <= i < |adjacency| && adjacency[i].0 == cause && effect in adjacency[i].1
  }

  /** Some relationship runs from the dependent to the dependency. */
  ghost predicate Depends(rels: seq<(string, string, string)>, dependent: string, dependency: string) {
    exists i :: 0 <= i < |rels| && rels[i].0 == dependent && rels[i].1 == dependency
  }

  lemma {:induction false} CausalEdgesExactly(adjacency: seq<(string, seq<string>)>, e: LayerEdge)
    ensures e in CausalEdges(adjacency) <==>
            e.layer == "2" && e.edgeType == "CAUSAL" && Causes(adjacency, e.source, e.target)
  {
    if adjacency != [] {
      var front, last := adjacency[..|adjacency| - 1], adjacency[|adjacency| - 1];
      CausalEdgesExactly(front, e);
      Layer2EdgesExactly(last.0, last.1, e);
      if Causes(front, e.source, e.target) {
        var i :| 0 <= i < |front| && front[i].0 == e.source && e.target in front[i].1;
        assert adjacency[i] == front[i];
      }
      if Causes(adjacency, e.source, e.target) {
        var i :| 0 <= i < |adjacency| && adjacency[i].0 == e.source && e.target in adjacency[i].1;
        if i < |front| {
          assert front[i] == adjacency[i];
        }
      }
    }
  }

  lemma {:induction false} Layer2EdgesExactly(source: string, targets: seq<string>, e: LayerEdge)
    ensures e in Layer2Edges(source, targets) <==>
            e.layer == "2" && e.edgeType == "CAUSAL" && e.source == source && e.target in targets
  {
    var edges := Layer2Edges(source, targets);
    if e.layer == "2" && e.edgeType == "CAUSAL" && e.source == source && e.target in targets {
      var i :| 0 <= i < |targets| && targets[i] == e.target;
      assert edges[i] == e;
    }
  }

  lemma {:induction false} Layer1EdgesExactly(rels: seq<(string, string, string)>, e: LayerEdge)
    ensures e in Layer1Edges(rels) <==>
            e.layer == "1" && exists i :: 0 <= i < |rels| && rels[i] == (e.source, e.target, e.edgeType)
  {
    var edges := Layer1Edges(rels);
    if i :| 0 <= i < |edges| && edges[i] == e {
      assert rels[i] == (e.source, e.target, e.edgeType);
    }
    if e.layer == "1" {
      if i :| 0 <= i < |rels| && rels[i] == (e.source, e.target, e.edgeType) {
        assert edges[i] == e;
      }
    }
  }

  /**
   Where a search goes in a topology that has been loaded and merged: from an effect to its causes, and from a dependent
   to its dependencies unless causality is known between the two, whichever way.
   */
  lemma {:induction false} TopologyExactly(rels: seq<(string, string, string)>, adjacency: seq<(string, seq<string>)>,
                                           from: string, to: string)
    ensures (exists e :: IsHop(MergedLog(Layer1Edges(rels) + CausalEdges(adjacency)), e, from, to)) <==>
            || Causes(adjacency, to, from)
            || (Depends(rels, from, to) && !Causes(adjacency, from, to) && !Causes(adjacency, to, from))
  {
    var log := Layer1Edges(rels) + CausalEdges(adjacency);
    var merged := MergedLog(log);
    assert "1"[0] != "2"[0];
    forall e
      ensures e in log <==> e in Layer1Edges(rels) || e in CausalEdges(adjacency)
    {
    }
    JoinedExactly(rels, adjacency, from, to);
    hide MergedLog, Causes, Joined, Layer1Edges, CausalEdges;
    if Causes(adjacency, to, from) {
      var e := LayerEdge(to, from, "CAUSAL", "2");
      CausalEdgesExactly(adjacency, e);
      MergedExactly(log, e);
      assert IsHop(merged, e, from, to);
    } else if Depends(rels, from, to) && !Causes(adjacency, from, to) {
      var i :| 0 <= i < |rels| && rels[i].0 == from && rels[i].1 == to;
      var e := LayerEdge(from, to, rels[i].2, "1");
      Layer1EdgesExactly(rels, e);
      MergedExactly(log, e);
      assert e.(layer := "1") == e && e in log;
      assert IsHop(merged, e, from, to);
    }
    if e :| IsHop(merged, e, from, to) {
      MergedExactly(log, e);
      CausalEdgesExactly(adjacency, e);
      if e.layer == "1" {
        var f :| f in log && f.layer != "2" && f.(layer := "1") == e;
        Layer1EdgesExactly(rels, f);
        CausalEdgesExactly(adjacency, f);
      } else {
        Layer1EdgesExactly(rels, e);
      }
    }
  }

  lemma {:induction false} JoinedExactly(rels: seq<(string, string, string)>, adjacency: seq<(string, seq<string>)>,
                                         a: string, b: string)
    ensures Joined(Layer1Edges(rels) + CausalEdges(adjacency), a, b)
       <==> Causes(adjacency, a, b) || Causes(adjacency, b, a)
  {
    var log := Layer1Edges(rels) + CausalEdges(adjacency);
    assert "1"[0] != "2"[0];
    if f :| f in log && f.layer == "2" && ((f.source == a && f.target == b) || (f.source == b && f.target == a)) {
      CausalEdgesExactly(adjacency, f);
      Layer1EdgesExactly(rels, f);
    }
    CausalEdgesExactly(adjacency, LayerEdge(a, b, "CAUSAL", "2"));
    CausalEdgesExactly(adjacency, LayerEdge(b, a, "CAUSAL", "2"));
    hide Causes, Layer1Edges, CausalEdges;
    if Causes(adjacency, a, b) {
      assert LayerEdge(a, b, "CAUSAL", "2") in log;
    }
    if Causes(adjacency, b, a) {
      assert LayerEdge(b, a, "CAUSAL", "2") in log;
    }
  }

  // ---------------------------------------------------------------- the two enumerators agree

  /** The node paths of the traversal, turned root first. */
  function NodePaths(raw: seq<RawPath>): seq<seq<string>> {
    if raw == [] then [] else NodePaths(raw[..|raw| - 1]) + [Reversed(raw[|raw| - 1].nodes)]
  }

  lemma {:induction false} NodePathsConcat(a: seq<RawPath>, b: seq<RawPath>)
    ensures NodePaths(a + b) == NodePaths(a) + NodePaths(b)
  {
    if b == [] {
      assert a + b == a;
    } else {
      assert (a + b)[..|a + b| - 1] == a + b[..|b| - 1];
      NodePathsConcat(a, b[..|b| - 1]);
    }
  }

  lemma {:induction false} FaultAllConcat(log: seq<LayerEdge>, depth: int, a: seq<LayerEdge>, b: seq<LayerEdge>,
                                          trail: seq<string>, visited: set<string>)
    requires trail != [] && |trail| <= depth
    ensures FaultAll(log, depth, a + b, trail, visited)
         == FaultAll(log, depth, a, trail, visited) + FaultAll(log, depth, b, trail, visited)
  {
    hide FaultWalk;
    if b == [] {
      assert a + b == a;
    } else {
      assert (a + b)[..|a + b| - 1] == a + b[..|b| - 1];
      FaultAllConcat(log, depth, a, b[..|b| - 1], trail, visited);
    }
  }

  lemma {:induction false} FaultAllPermutes(log: seq<LayerEdge>, depth: int, a: seq<LayerEdge>, b: seq<LayerEdge>,
                                            trail: seq<string>, visited: set<string>)
    requires trail != [] && |trail| <= depth && multiset(a) == multiset(b)
    ensures multiset(FaultAll(log, depth, a, trail, visited)) == multiset(FaultAll(log, depth, b, trail, visited))
    decreases |a|
  {
    assert |a| == |multiset(a)| == |multiset(b)| == |b|;
    if a != [] {
      var i := Locate(a, b);
      var x, left, right := [a[0]], b[..i], b[i + 1..];
      assert a == x + a[1..];
      FaultAllPermutes(log, depth, a[1..], left + right, trail, visited);
      FaultAllConcat(log, depth, x, a[1..], trail, visited);
      FaultAllConcat(log, depth, left + x, right, trail, visited);
      FaultAllConcat(log, depth, left, x, trail, visited);
      FaultAllConcat(log, depth, left, right, trail, visited);
    }
  }

  lemma {:induction false} WalksAgree(log: seq<LayerEdge>, depth: int, nodes: seq<string>, edges: seq<LayerEdge>,
                                      visited: set<string>)
    requires nodes != []
    ensures multiset(NodePaths(Walk(log, depth, nodes, edges, visited)))
         == multiset(FaultWalk(log, depth, nodes, visited))
    decreases Room(depth, |nodes|), 1, 0
  {
    if |nodes| <= depth {
      var raw := Upstream(log, nodes[|nodes| - 1]);
      SortPermutes(raw, HopLe);
      SortPermutes(raw, EdgeLe);
      if raw != [] {
        WalkAllAgrees(log, depth, Sort(raw, HopLe), nodes, edges, visited);
        FaultAllPermutes(log, depth, Sort(raw, HopLe), Sort(raw, EdgeLe), nodes, visited);
      }
    }
  }

  lemma {:induction false} WalkAllAgrees(log: seq<LayerEdge>, depth: int, hops: seq<LayerEdge>, nodes: seq<string>,
                                         edges: seq<LayerEdge>, visited: set<string>)
    requires nodes != [] && |nodes| <= depth
    ensures multiset(NodePaths(WalkAll(log, depth, hops, nodes, edges, visited)))
         == multiset(FaultAll(log, depth, hops, nodes, visited))
    decreases Room(depth, |nodes|), 0, |hops|
  {
    hide Walk, FaultWalk, NodePaths;
    NodePathsEmpty();
    if hops != [] {
      var front, e := hops[..|hops| - 1], hops[|hops| - 1];
      var last := Neighbor(e);
      WalkAllAgrees(log, depth, front, nodes, edges, visited);
      var raw, fault := WalkAll(log, depth, front, nodes, edges, visited), FaultAll(log, depth, front, nodes, visited);
      if last in visited {
        AgreeConcat(raw, [], fault, []);
      } else {
        WalksAgree(log, depth, nodes + [last], edges + [e], visited + {last});
        AgreeConcat(raw, Walk(log, depth, nodes + [last], edges + [e], visited + {last}),
                    fault, FaultWalk(log, depth, nodes + [last], visited + {last}));
      }
    }
  }

  lemma NodePathsEmpty()
    ensures NodePaths([]) == []
  {
  }

  lemma AgreeConcat(a: seq<RawPath>, b: seq<RawPath>, c: seq<seq<string>>, d: seq<seq<string>>)
    requires multiset(NodePaths(a)) == multiset(c) && multiset(NodePaths(b)) == multiset(d)
    ensures multiset(NodePaths(a + b)) == multiset(c + d)
  {
    NodePathsConcat(a, b);
  }

  // ---------------------------------------------------------------- insertion order does not matter

  lemma HopLeTotal()
    ensures TotalPreorder(HopLe)
  {
    forall a, b
      ensures HopLe(a, b) || HopLe(b, a)
    {
      KeyLeTotal([Neighbor(a), a.layer, a.edgeType, a.source], [Neighbor(b), b.layer, b.edgeType, b.source]);
    }
    forall a, b, c | HopLe(a, b) && HopLe(b, c)
      ensures HopLe(a, c)
    {
      KeyLeTransitive([Neighbor(a), a.layer, a.edgeType, a.source], [Neighbor(b), b.layer, b.edgeType, b.source],
                      [Neighbor(c), c.layer, c.edgeType, c.source]);
    }
  }

  lemma UpstreamMember(log: seq<LayerEdge>, node: string, e: LayerEdge)
    ensures e in Upstream(log, node)
       <==> e in log && ((e.layer == "1" && e.source == node) || (e.layer == "2" && e.target == node))
  {
    FilterMapMembers(Outgoing(log, node), OnLayer("1"), e);
    FilterMapMembers(Incoming(log, node), OnLayer("2"), e);
    FilterMapMembers(log, SourceIs(node), e);
    FilterMapMembers(log, TargetIs(node), e);
    if e in log {
      var i :| 0 <= i < |log| && log[i] == e;
      if e.source == node {
        assert SourceIs(node)(log[i]) == Some(e);
        var j :| 0 <= j < |Outgoing(log, node)| && Outgoing(log, node)[j] == e;
        assert e.layer == "1" ==> OnLayer("1")(Outgoing(log, node)[j]) == Some(e);
      }
      if e.target == node {
        assert TargetIs(node)(log[i]) == Some(e);
        var j :| 0 <= j < |Incoming(log, node)| && Incoming(log, node)[j] == e;
        assert e.layer == "2" ==> OnLayer("2")(Incoming(log, node)[j]) == Some(e);
      }
    }
  }

  /** Among the upstream edges of one node the traversal's sort key leaves no ties. */
  lemma UpstreamKeysInjective(log: seq<LayerEdge>, node: string, a: LayerEdge, b: LayerEdge)
    requires a in Upstream(log, node) && b in Upstream(log, node) && HopLe(a, b) && HopLe(b, a)
    ensures a == b
  {
    UpstreamMember(log, node, a);
    UpstreamMember(log, node, b);
    var x, y := [Neighbor(a), a.layer, a.edgeType, a.source], [Neighbor(b), b.layer, b.edgeType, b.source];
    KeyLeAntisymmetric(x, y);
    assert x[0] == y[0] && x[1] == y[1] && x[2] == y[2] && x[3] == y[3];
  }

  lemma UpstreamPermutes(log: seq<LayerEdge>, other: seq<LayerEdge>, node: string)
    requires multiset(log) == multiset(other)
    ensures multiset(Upstream(log, node)) == multiset(Upstream(other, node))
  {
    FilterMapPermutes(log, other, SourceIs(node));
    FilterMapPermutes(Outgoing(log, node), Outgoing(other, node), OnLayer("1"));
    FilterMapPermutes(log, other, TargetIs(node));
    FilterMapPermutes(Incoming(log, node), Incoming(other, node), OnLayer("2"));
  }

  lemma SameUpstream(log: seq<LayerEdge>, other: seq<LayerEdge>, node: string)
    requires multiset(log) == multiset(other)
    ensures Sort(Upstream(log, node), HopLe) == Sort(Upstream(other, node), HopLe)
  {
    UpstreamPermutes(log, other, node);
    forall a, b | a in Upstream(log, node) && b in Upstream(log, node) && HopLe(a, b) && HopLe(b, a)
      ensures a == b
    {
      UpstreamKeysInjective(log, node, a, b);
    }
    HopLeTotal();
    SortIsCanonical(Upstream(log, node), Upstream(other, node), HopLe);
  }

  lemma {:induction false} WalkIgnoresOrder(log: seq<LayerEdge>, other: seq<LayerEdge>, depth: int, nodes: seq<string>,
                                            edges: seq<LayerEdge>, visited: set<string>)
    requires nodes != [] && multiset(log) == multiset(other)
    ensures Walk(log, depth, nodes, edges, visited) == Walk(other, depth, nodes, edges, visited)
    decreases Room(depth, |nodes|), 1, 0
  {
    if |nodes| <= depth {
      SameUpstream(log, other, nodes[|nodes| - 1]);
      WalkAllIgnoresOrder(log, other, depth, Sort(Upstream(log, nodes[|nodes| - 1]), HopLe), nodes, edges, visited);
    }
  }

  lemma {:induction false} WalkAllIgnoresOrder(log: seq<LayerEdge>, other: seq<LayerEdge>, depth: int,
                                               hops: seq<LayerEdge>, nodes: seq<string>, edges: seq<LayerEdge>,
                                               visited: set<string>)
    requires nodes != [] && |nodes| <= depth && multiset(log) == multiset(other)
    ensures WalkAll(log, depth, hops, nodes, edges, visited) == WalkAll(other, depth, hops, nodes, edges, visited)
    decreases Room(depth, |nodes|), 0, |hops|
  {
    if hops != [] {
      var last := Neighbor(hops[|hops| - 1]);
      WalkAllIgnoresOrder(log, other, depth, hops[..|hops| - 1], nodes, edges, visited);
      WalkIgnoresOrder(log, other, depth, nodes + [last], edges + [hops[|hops| - 1]], visited + {last});
    }
  }

  // The other enumerator's key leaves ties, but only between edges that lead to the same neighbor.

  /** The edge without its type, which that key leaves out. */
  function Untyped(): LayerEdge -> Option<LayerEdge> {
    (e: LayerEdge) => Some(e.(edgeType := ""))
  }

  lemma {:induction false} UntypedAt(s: seq<LayerEdge>)
    ensures |FilterMap(s, Untyped())| == |s|
    ensures forall i | 0 <= i < |s| :: FilterMap(s, Untyped())[i] == s[i].(edgeType := "")
  {
    if s != [] {
      UntypedAt(s[..|s| - 1]);
    }
  }

  lemma EdgeLeTotal()
    ensures TotalPreorder(EdgeLe)
  {
    forall a, b
      ensures EdgeLe(a, b) || EdgeLe(b, a)
    {
      KeyLeTotal([a.source, a.target, a.layer], [b.source, b.target, b.layer]);
    }
    forall a, b, c | EdgeLe(a, b) && EdgeLe(b, c)
      ensures EdgeLe(a, c)
    {
      KeyLeTransitive([a.source, a.target, a.layer], [b.source, b.target, b.layer], [c.source, c.target, c.layer]);
    }
  }

  lemma UntypedKeysInjective(a: LayerEdge, b: LayerEdge)
    requires EdgeLe(a, b) && EdgeLe(b, a) && a.edgeType == b.edgeType
    ensures a == b
  {
    var x, y := [a.source, a.target, a.layer], [b.source, b.target, b.layer];
    KeyLeAntisymmetric(x, y);
    assert x[0] == y[0] && x[1] == y[1] && x[2] == y[2];
  }

  lemma SortedUntyped(s: seq<LayerEdge>)
    ensures SortedBy(FilterMap(Sort(s, EdgeLe), Untyped()), EdgeLe)
    ensures forall e | e in FilterMap(Sort(s, EdgeLe), Untyped()) :: e.edgeType == ""
  {
    EdgeLeTotal();
    SortSorts(s, EdgeLe);
    UntypedAt(Sort(s, EdgeLe));
  }

  /** Two lists of hops lead to the same neighbors in the same order. */
  ghost predicate SameNeighbors(hops: seq<LayerEdge>, other: seq<LayerEdge>) {
    |hops| == |other| && forall i | 0 <= i < |hops| :: Neighbor(hops[i]) == Neighbor(other[i])
  }

  lemma SortedNeighbors(a: seq<LayerEdge>, b: seq<LayerEdge>)
    requires multiset(a) == multiset(b)
    ensures SameNeighbors(Sort(a, EdgeLe), Sort(b, EdgeLe))
  {
    hide EdgeLe;
    var s, t := Sort(a, EdgeLe), Sort(b, EdgeLe);
    SortPermutes(a, EdgeLe);
    SortPermutes(b, EdgeLe);
    FilterMapPermutes(s, t, Untyped());
    SortedUntyped(a);
    SortedUntyped(b);
    var x := FilterMap(s, Untyped());
    forall e, f | e in x && f in x && EdgeLe(e, f) && EdgeLe(f, e)
      ensures e == f
    {
      UntypedKeysInjective(e, f);
    }
    SortedUnique(x, FilterMap(t, Untyped()), EdgeLe);
    UntypedAt(s);
    UntypedAt(t);
    hide Sort, FilterMap;
    forall i | 0 <= i < |s|
      ensures Neighbor(s[i]) == Neighbor(t[i])
    {
      assert s[i].(edgeType := "") == t[i].(edgeType := "");
    }
  }

  lemma {:induction false} FaultWalkIgnoresOrder(log: seq<LayerEdge>, other: seq<LayerEdge>, depth: int,
                                                 trail: seq<string>, visited: set<string>)
    requires trail != [] && multiset(log) == multiset(other)
    ensures FaultWalk(log, depth, trail, visited) == FaultWalk(other, depth, trail, visited)
    decreases Room(depth, |trail|), 1, 0
  {
    if |trail| <= depth {
      var a, b := Upstream(log, trail[|trail| - 1]), Upstream(other, trail[|trail| - 1]);
      UpstreamPermutes(log, other, trail[|trail| - 1]);
      assert |a| == |multiset(a)| == |multiset(b)| == |b|;
      SortPermutes(a, EdgeLe);
      SortPermutes(b, EdgeLe);
      SortedNeighbors(a, b);
      FaultAllIgnoresOrder(log, other, depth, Sort(a, EdgeLe), Sort(b, EdgeLe), trail, visited);
    }
  }

  lemma {:induction false} FaultAllIgnoresOrder(log: seq<LayerEdge>, other: seq<LayerEdge>, depth: int,
                                                hops: seq<LayerEdge>, hops': seq<LayerEdge>,
                                                trail: seq<string>, visited: set<string>)
    requires trail != [] && |trail| <= depth && multiset(log) == multiset(other) && SameNeighbors(hops, hops')
    ensures FaultAll(log, depth, hops, trail, visited) == FaultAll(other, depth, hops', trail, visited)
    decreases Room(depth, |trail|), 0, |hops|
  {
    if hops != [] {
      var last := Neighbor(hops[|hops| - 1]);
      FaultAllIgnoresOrder(log, other, depth, hops[..|hops| - 1], hops'[..|hops'| - 1], trail, visited);
      FaultWalkIgnoresOrder(log, other, depth, trail + [last], visited + {last});
    }
  }

  // ---------------------------------------------------------------- each node path once

  function KeyOf(e: LayerEdge): (string, string, bool) {
    (e.source, e.target, e.layer == "2")
  }

  /** No two edges share source, target and layer. */
  ghost predicate Unparallel(s: seq<LayerEdge>) {
    forall i, j | 0 <= i < j < |s| :: KeyOf(s[i]) != KeyOf(s[j])
  }

  lemma {:induction false} UnparallelFilter(s: seq<LayerEdge>, f: LayerEdge -> Option<LayerEdge>)
    requires Unparallel(s)
    requires forall e | f(e).Some? :: KeyOf(f(e).value) == KeyOf(e)
    ensures Unparallel(FilterMap(s, f))
  {
    if s != [] {
      var front, last := s[..|s| - 1], s[|s| - 1];
      UnparallelFilter(front, f);
      if f(last).Some? {
        forall i | 0 <= i < |FilterMap(front, f)|
          ensures KeyOf(FilterMap(front, f)[i]) != KeyOf(f(last).value)
        {
          FilterMapMembers(front, f, FilterMap(front, f)[i]);
          var k :| 0 <= k < |front| && f(front[k]) == Some(FilterMap(front, f)[i]);
          assert KeyOf(s[k]) != KeyOf(s[|s| - 1]);
        }
      }
    }
  }

  lemma TwoPlaces(s: seq<LayerEdge>, i: nat, j: nat) returns (rest: multiset<LayerEdge>)
    requires i < j < |s|
    ensures multiset(s) == multiset{s[i], s[j]} + rest
  {
    rest := multiset(s[..i] + s[i + 1..j] + s[j + 1..]);
    assert s == s[..i] + [s[i]] + s[i + 1..j] + [s[j]] + s[j + 1..];
  }

  lemma FindOne(s: seq<LayerEdge>, x: LayerEdge, rest: multiset<LayerEdge>) returns (k: nat)
    requires multiset(s) == multiset{x} + rest
    ensures k < |s| && s[k] == x && multiset(s[..k] + s[k + 1..]) == rest
  {
    assert x in s;
    k :| 0 <= k < |s| && s[k] == x;
    RemoveAt(s, k);
  }

  lemma FindBoth(s: seq<LayerEdge>, x: LayerEdge, y: LayerEdge, rest: multiset<LayerEdge>) returns (k: nat, m: nat)
    requires multiset(s) == multiset{x, y} + rest
    ensures k < |s| && m < |s| && k != m && s[k] == x && s[m] == y
  {
    k := FindOne(s, x, multiset{y} + rest);
    var others := s[..k] + s[k + 1..];
    var i := FindOne(others, y, rest);
    m := if i < k then i else i + 1;
  }

  lemma UnparallelPermutes(s: seq<LayerEdge>, t: seq<LayerEdge>)
    requires Unparallel(s) && multiset(s) == multiset(t)
    ensures Unparallel(t)
  {
    forall i, j | 0 <= i < j < |t|
      ensures KeyOf(t[i]) != KeyOf(t[j])
    {
      var rest := TwoPlaces(t, i, j);
      var k, m := FindBoth(s, t[i], t[j], rest);
      assert KeyOf(s[k]) != KeyOf(s[m]);
    }
  }

  /** The upstream edges of a node lead to different neighbors. */
  ghost predicate Unambiguous(hops: seq<LayerEdge>) {
    forall i, j | 0 <= i < j < |hops| :: Neighbor(hops[i]) != Neighbor(hops[j])
  }

  lemma MergedUnparallel(log: seq<LayerEdge>)
    requires Unparallel(log)
    ensures Unparallel(MergedLog(log))
  {
    UnparallelFilter(log, MergeRule(log));
    MergedContents(log);
    UnparallelPermutes(FilterMap(log, MergeRule(log)), MergedLog(log));
  }

  lemma UpstreamUnparallel(log: seq<LayerEdge>, node: string)
    requires Unparallel(log)
    ensures Unparallel(Upstream(log, node))
  {
    var forward, backward := FilterMap(Outgoing(log, node), OnLayer("1")), FilterMap(Incoming(log, node), OnLayer("2"));
    UnparallelFilter(log, SourceIs(node));
    UnparallelFilter(Outgoing(log, node), OnLayer("1"));
    UnparallelFilter(log, TargetIs(node));
    UnparallelFilter(Incoming(log, node), OnLayer("2"));
    forall e | e in forward
      ensures !KeyOf(e).2
    {
      FilterMapMembers(Outgoing(log, node), OnLayer("1"), e);
    }
    forall e | e in backward
      ensures KeyOf(e).2
    {
      FilterMapMembers(Incoming(log, node), OnLayer("2"), e);
    }
    UnparallelConcat(forward, backward);
  }

  lemma UnparallelConcat(a: seq<LayerEdge>, b: seq<LayerEdge>)
    requires Unparallel(a) && Unparallel(b)
    requires forall e | e in a :: !KeyOf(e).2
    requires forall e | e in b :: KeyOf(e).2
    ensures Unparallel(a + b)
  {
    var s := a + b;
    forall i, j | 0 <= i < j < |s|
      ensures KeyOf(s[i]) != KeyOf(s[j])
    {
      if i < |a| <= j {
        assert s[i] in a && s[j] in b;
      }
    }
  }

  /** In a merged graph without parallel edges no two upstream edges of a node lead to the same neighbor. */
  lemma MergedUpstreamUnambiguous(log: seq<LayerEdge>, node: string)
    requires Unparallel(log)
    ensures Unambiguous(Sort(Upstream(MergedLog(log), node), HopLe))
  {
    hide MergedLog, Upstream, KeyOf, Neighbor;
    var merged := MergedLog(log);
    MergedUnparallel(log);
    MergedLayers(log);
    var up := Upstream(merged, node);
    UpstreamUnparallel(merged, node);
    SortPermutes(up, HopLe);
    var hops := Sort(up, HopLe);
    UnparallelPermutes(up, hops);
    forall i, j | 0 <= i < j < |hops|
      ensures Neighbor(hops[i]) != Neighbor(hops[j])
    {
      assert hops[i] in up && hops[j] in up;
      UpstreamMember(merged, node, hops[i]);
      UpstreamMember(merged, node, hops[j]);
      if Neighbor(hops[i]) == Neighbor(hops[j]) {
        SameNeighbor(merged, node, hops[i], hops[j]);
      }
    }
  }

  lemma SameNeighbor(merged: seq<LayerEdge>, node: string, a: LayerEdge, b: LayerEdge)
    requires forall e | e in merged :: e.layer == "2" || (e.layer == "1" && !Causal(merged, e.source, e.target))
    requires a in merged && ((a.layer == "1" && a.source == node) || (a.layer == "2" && a.target == node))
    requires b in merged && ((b.layer == "1" && b.source == node) || (b.layer == "2" && b.target == node))
    requires Neighbor(a) == Neighbor(b)
    ensures KeyOf(a) == KeyOf(b)
  {
    if a.layer == "2" && b.layer == "1" {
      assert {a.source, a.target} == {b.source, b.target};
      CausalMember(merged, a, b.source, b.target);
    }
    if a.layer == "1" && b.layer == "2" {
      assert {a.source, a.target} == {b.source, b.target};
      CausalMember(merged, b, a.source, a.target);
    }
  }

  ghost predicate NodesDistinct(raw: seq<RawPath>) {
    forall i, j | 0 <= i < j < |raw| :: raw[i].nodes != raw[j].nodes
  }

  lemma {:induction false} WalkDistinct(log: seq<LayerEdge>, depth: int, nodes: seq<string>, edges: seq<LayerEdge>,
                                        visited: set<string>)
    requires nodes != []
    requires forall n :: Unambiguous(Sort(Upstream(log, n), HopLe))
    ensures NodesDistinct(Walk(log, depth, nodes, edges, visited))
    ensures forall p | p in Walk(log, depth, nodes, edges, visited) :: nodes <= p.nodes
    decreases Room(depth, |nodes|), 1, 0
  {
    if |nodes| <= depth {
      WalkAllDistinct(log, depth, Sort(Upstream(log, nodes[|nodes| - 1]), HopLe), nodes, edges, visited);
    }
  }

  lemma {:induction false} WalkAllDistinct(log: seq<LayerEdge>, depth: int, hops: seq<LayerEdge>, nodes: seq<string>,
                                           edges: seq<LayerEdge>, visited: set<string>)
    requires nodes != [] && |nodes| <= depth && Unambiguous(hops)
    requires forall n :: Unambiguous(Sort(Upstream(log, n), HopLe))
    ensures NodesDistinct(WalkAll(log, depth, hops, nodes, edges, visited))
    ensures forall p | p in WalkAll(log, depth, hops, nodes, edges, visited) ::
              |p.nodes| > |nodes| && nodes <= p.nodes
              && exists i :: 0 <= i < |hops| && p.nodes[|nodes|] == Neighbor(hops[i])
    decreases Room(depth, |nodes|), 0, |hops|
  {
    hide Walk;
    if hops != [] {
      var front, e := hops[..|hops| - 1], hops[|hops| - 1];
      var last := Neighbor(e);
      WalkAllDistinct(log, depth, front, nodes, edges, visited);
      var before := WalkAll(log, depth, front, nodes, edges, visited);
      forall p | p in before
        ensures exists i :: 0 <= i < |hops| && p.nodes[|nodes|] == Neighbor(hops[i])
        ensures p.nodes[|nodes|] != last
      {
        var i :| 0 <= i < |front| && p.nodes[|nodes|] == Neighbor(front[i]);
        assert hops[i] == front[i] && hops[|hops| - 1] == e;
      }
      if last !in visited {
        var here := Walk(log, depth, nodes + [last], edges + [e], visited + {last});
        WalkDistinct(log, depth, nodes + [last], edges + [e], visited + {last});
        forall p | p in here
          ensures |p.nodes| > |nodes| && nodes <= p.nodes && p.nodes[|nodes|] == Neighbor(hops[|hops| - 1])
        {
          assert (nodes + [last])[|nodes|] == last && nodes <= nodes + [last];
        }
        DistinctConcat(before, here);
      }
    }
  }

  lemma DistinctConcat(a: seq<RawPath>, b: seq<RawPath>)
    requires NodesDistinct(a) && NodesDistinct(b)
    requires forall p, q | p in a && q in b :: p.nodes != q.nodes
    ensures NodesDistinct(a + b)
  {
  }

  /** Without parallel edges the merged graph yields each node path once. */
  lemma NodePathsUnique(log: seq<LayerEdge>, depth: int, symptom: string)
    requires Unparallel(log)
    ensures NodesDistinct(RawPaths(MergedLog(log), depth, symptom))
  {
    forall n
      ensures Unambiguous(Sort(Upstream(MergedLog(log), n), HopLe))
    {
      MergedUpstreamUnambiguous(log, n);
    }
    WalkDistinct(MergedLog(log), depth, [symptom], [], {symptom});
  }

  // ---------------------------------------------------------------- how often each node path is collected

  function To(node: string): LayerEdge -> Option<LayerEdge> {
    (e: LayerEdge) => if Neighbor(e) == node then Some(e) else None
  }

  /** The number of hops of a list that lead to a node, identical ones counted by position. */
  function Hops(hops: seq<LayerEdge>, node: string): nat {
    |FilterMap(hops, To(node))|
  }

  function Product(a: nat, b: nat): nat {
    a * b
  }

  /** In how many ways the node path can be walked from position i on: the product of the hops between its nodes. */
  function Ways(log: seq<LayerEdge>, path: seq<string>, i: nat): nat
    decreases |path| - i
  {
    if i + 1 >= |path| then 1 else Product(Hops(Upstream(log, path[i]), path[i + 1]), Ways(log, path, i + 1))
  }

  /** How many raw paths have these nodes. */
  function Copies(raw: seq<RawPath>, path: seq<string>): nat {
    if raw == [] then 0 else Copies(raw[..|raw| - 1], path) + if raw[|raw| - 1].nodes == path then 1 else 0
  }

  /** A node path that extends `nodes`, repeats nothing, is short enough and ends at a root. */
  ghost predicate Fits(log: seq<LayerEdge>, depth: int, nodes: seq<string>, path: seq<string>) {
    nodes <= path && path != [] && |path| <= depth && Distinct(path) && Upstream(log, path[|path| - 1]) == []
  }

  lemma {:induction false} CopiesConcat(a: seq<RawPath>, b: seq<RawPath>, path: seq<string>)
    ensures Copies(a + b, path) == Copies(a, path) + Copies(b, path)
  {
    if b == [] {
      assert a + b == a;
    } else {
      assert (a + b)[..|a + b| - 1] == a + b[..|b| - 1];
      CopiesConcat(a, b[..|b| - 1], path);
    }
  }

  lemma {:induction false} HopsSorted(hops: seq<LayerEdge>, node: string)
    ensures Hops(Sort(hops, HopLe), node) == Hops(hops, node)
  {
    SortPermutes(hops, HopLe);
    FilterMapPermutes(Sort(hops, HopLe), hops, To(node));
    var a, b := FilterMap(Sort(hops, HopLe), To(node)), FilterMap(hops, To(node));
    assert |a| == |multiset(a)| == |multiset(b)| == |b|;
  }

  /** What the traversal owes a node path from `nodes` on, and what a list of hops contributes to it. */
  ghost function Owed(log: seq<LayerEdge>, depth: int, nodes: seq<string>, path: seq<string>): nat
    requires nodes != []
  {
    if Fits(log, depth, nodes, path) then Ways(log, path, |nodes| - 1) else 0
  }

  ghost function Share(log: seq<LayerEdge>, depth: int, hops: seq<LayerEdge>, nodes: seq<string>,
                       path: seq<string>): nat
    requires nodes != []
  {
    if Fits(log, depth, nodes, path) && |path| > |nodes|
    then Product(Hops(hops, path[|nodes|]), Ways(log, path, |nodes|)) else 0
  }

  lemma {:induction false} WalkCopies(log: seq<LayerEdge>, depth: int, nodes: seq<string>, edges: seq<LayerEdge>,
                                      visited: set<string>, path: seq<string>)
    requires nodes != [] && Distinct(nodes) && visited == Elements(nodes)
    ensures Copies(Walk(log, depth, nodes, edges, visited), path) == Owed(log, depth, nodes, path)
    decreases Room(depth, |nodes|), 1, 0
  {
    hide Upstream, Share, Ways, Hops, Neighbor;
    if |nodes| <= depth {
      var raw := Upstream(log, nodes[|nodes| - 1]);
      var upstream := Sort(raw, HopLe);
      SortPermutes(raw, HopLe);
      if upstream == [] {
        LeafCopies(log, depth, nodes, edges, path);
      } else {
        WalkAllCopies(log, depth, upstream, nodes, edges, visited, path);
        WholeShare(log, depth, nodes, path);
      }
    }
  }

  lemma {:induction false} LeafCopies(log: seq<LayerEdge>, depth: int, nodes: seq<string>, edges: seq<LayerEdge>,
                                      path: seq<string>)
    requires nodes != [] && Distinct(nodes) && |nodes| <= depth && Upstream(log, nodes[|nodes| - 1]) == []
    ensures Copies([RawPath(nodes, edges)], path) == Owed(log, depth, nodes, path)
  {
    hide Upstream;
    assert [RawPath(nodes, edges)][..0] == [];
    assert Copies([RawPath(nodes, edges)], path) == if path == nodes then 1 else 0;
    if Fits(log, depth, nodes, path) && path != nodes {
      assert path[|nodes| - 1] == nodes[|nodes| - 1];
      assert Hops([], path[|nodes|]) == 0;
    }
  }

  lemma {:induction false} WholeShare(log: seq<LayerEdge>, depth: int, nodes: seq<string>, path: seq<string>)
    requires nodes != [] && Upstream(log, nodes[|nodes| - 1]) != []
    ensures Share(log, depth, Sort(Upstream(log, nodes[|nodes| - 1]), HopLe), nodes, path)
         == Owed(log, depth, nodes, path)
  {
    hide Upstream, Hops, Sort;
    if Fits(log, depth, nodes, path) {
      assert path[|nodes| - 1] == nodes[|nodes| - 1];
      assert |path| > |nodes|;
      HopsSorted(Upstream(log, nodes[|nodes| - 1]), path[|nodes|]);
    }
  }

  lemma {:induction false} WalkAllCopies(log: seq<LayerEdge>, depth: int, hops: seq<LayerEdge>, nodes: seq<string>,
                                         edges: seq<LayerEdge>, visited: set<string>, path: seq<string>)
    requires nodes != [] && Distinct(nodes) && |nodes| <= depth && visited == Elements(nodes)
    ensures Copies(WalkAll(log, depth, hops, nodes, edges, visited), path) == Share(log, depth, hops, nodes, path)
    decreases Room(depth, |nodes|), 0, |hops|
  {
    hide Upstream, Share, Owed, Walk, Neighbor;
    if hops == [] {
      NoShare(log, depth, nodes, path);
    } else {
      var front, e := hops[..|hops| - 1], hops[|hops| - 1];
      var last := Neighbor(e);
      assert hops == front + [e];
      WalkAllCopies(log, depth, front, nodes, edges, visited, path);
      OneMoreHop(log, depth, front, e, nodes, path);
      var before := WalkAll(log, depth, front, nodes, edges, visited);
      if last in visited {
        assert before + [] == before;
      } else {
        assert Elements(nodes + [last]) == visited + {last};
        WalkCopies(log, depth, nodes + [last], edges + [e], visited + {last}, path);
        CopiesConcat(before, Walk(log, depth, nodes + [last], edges + [e], visited + {last}), path);
      }
    }
  }

  lemma {:induction false} NoShare(log: seq<LayerEdge>, depth: int, nodes: seq<string>, path: seq<string>)
    requires nodes != []
    ensures Share(log, depth, [], nodes, path) == 0
  {
  }

  /** One more hop adds what is owed beyond it, unless it leads back to a node of the path. */
  lemma {:induction false} OneMoreHop(log: seq<LayerEdge>, depth: int, front: seq<LayerEdge>, e: LayerEdge,
                                      nodes: seq<string>, path: seq<string>)
    requires nodes != []
    ensures Share(log, depth, front + [e], nodes, path)
         == Share(log, depth, front, nodes, path)
            + if Neighbor(e) in Elements(nodes) then 0 else Owed(log, depth, nodes + [Neighbor(e)], path)
  {
    hide Upstream, Ways, Product, FilterMap, Neighbor;
    var last := Neighbor(e);
    FitsLonger(log, depth, nodes, path, last);
    if Fits(log, depth, nodes, path) && |path| > |nodes| {
      FilterMapAppend(front, e, To(path[|nodes|]));
      Distribute(Hops(front, path[|nodes|]), Ways(log, path, |nodes|));
      if last in Elements(nodes) {
        VisitedHop(log, depth, nodes, path, last);
      }
    }
  }

  lemma Distribute(h: nat, w: nat)
    ensures Product(h + 1, w) == Product(h, w) + w
  {
  }

  lemma {:induction false} VisitedHop(log: seq<LayerEdge>, depth: int, nodes: seq<string>, path: seq<string>,
                                      last: string)
    requires last in Elements(nodes) && Fits(log, depth, nodes, path) && |path| > |nodes|
    ensures path[|nodes|] != last
  {
    var i :| 0 <= i < |nodes| && nodes[i] == last;
    assert path[i] == last;
  }

  lemma {:induction false} FitsLonger(log: seq<LayerEdge>, depth: int, nodes: seq<string>, path: seq<string>,
                                      last: string)
    ensures Fits(log, depth, nodes + [last], path)
       <==> Fits(log, depth, nodes, path) && |path| > |nodes| && path[|nodes|] == last
  {
    hide Upstream;
    if Fits(log, depth, nodes + [last], path) {
      assert nodes <= nodes + [last] <= path;
    }
  }

  // ---------------------------------------------------------------- when node paths repeat

  /** Every node path is collected exactly as often as it can be walked, and nothing else is collected. */
  lemma {:induction false} CopiesExactly(log: seq<LayerEdge>, depth: int, symptom: string, path: seq<string>)
    ensures Copies(RawPaths(log, depth, symptom), path)
         == if Fits(log, depth, [symptom], path) then Ways(log, path, 0) else 0
  {
    WalkCopies(log, depth, [symptom], [], {symptom}, path);
  }

  lemma {:induction false} CopyExists(raw: seq<RawPath>, i: nat)
    requires i < |raw|
    ensures Copies(raw, raw[i].nodes) >= 1
  {
    if i < |raw| - 1 {
      CopyExists(raw[..|raw| - 1], i);
    }
  }

  lemma {:induction false} CopyFound(raw: seq<RawPath>, path: seq<string>) returns (i: nat)
    requires Copies(raw, path) >= 1
    ensures i < |raw| && raw[i].nodes == path
  {
    if raw[|raw| - 1].nodes == path {
      i := |raw| - 1;
    } else {
      i := CopyFound(raw[..|raw| - 1], path);
    }
  }

  lemma {:induction false} DistinctCopies(raw: seq<RawPath>, path: seq<string>)
    requires NodesDistinct(raw)
    ensures Copies(raw, path) <= 1
  {
    if raw != [] {
      var front := raw[..|raw| - 1];
      DistinctCopies(front, path);
      if Copies(front, path) >= 1 {
        var i := CopyFound(front, path);
        assert raw[i].nodes != raw[|raw| - 1].nodes;
      }
    }
  }

  lemma {:induction false} RepeatedCopies(raw: seq<RawPath>, i: nat, j: nat)
    requires i < j < |raw| && raw[i].nodes == raw[j].nodes
    ensures Copies(raw, raw[i].nodes) >= 2
  {
    var front := raw[..|raw| - 1];
    if j < |front| {
      RepeatedCopies(front, i, j);
    } else {
      CopyExists(front, i);
    }
  }

  /** Each hop of each rooted path from the symptom is the only one between its two nodes. */
  ghost predicate HopsAreSingle(log: seq<LayerEdge>, depth: int, symptom: string) {
    forall p, i | IsRooted(log, depth, p) && p.nodes[0] == symptom && 0 <= i < |p.edges| ::
      Hops(Upstream(log, p.nodes[i]), p.nodes[i + 1]) == 1
  }

  lemma {:induction false} HopExists(hops: seq<LayerEdge>, e: LayerEdge)
    requires e in hops
    ensures Hops(hops, Neighbor(e)) >= 1
  {
    FilterMapMembers(hops, To(Neighbor(e)), e);
    var i :| 0 <= i < |hops| && hops[i] == e;
    assert To(Neighbor(e))(hops[i]) == Some(e);
  }

  lemma ProductFacts(a: nat, b: nat)
    ensures a >= 1 && b >= 1 ==> Product(a, b) >= a && Product(a, b) >= b
    ensures a == 1 ==> Product(a, b) == b
  {
  }

  /** A rooted path can be walked, and in one way only exactly if each of its hops is the only one between its nodes. */
  lemma {:induction false} WaysOfTrail(log: seq<LayerEdge>, p: RawPath, i: nat)
    requires IsTrail(log, p) && i < |p.nodes|
    ensures Ways(log, p.nodes, i) >= 1
    ensures Ways(log, p.nodes, i) == 1 <==>
            forall j | i <= j < |p.edges| :: Hops(Upstream(log, p.nodes[j]), p.nodes[j + 1]) == 1
    decreases |p.nodes| - i
  {
    hide Upstream, Hops, Product, Neighbor;
    if i < |p.edges| {
      WaysOfTrail(log, p, i + 1);
      assert p.edges[i] in Upstream(log, p.nodes[i]);
      HopExists(Upstream(log, p.nodes[i]), p.edges[i]);
      ProductFacts(Hops(Upstream(log, p.nodes[i]), p.nodes[i + 1]), Ways(log, p.nodes, i + 1));
    }
  }

  /** The traversal collects each node path once if and only if the hops of the paths it finds are single. */
  lemma {:induction false} NodePathsUniqueExactly(log: seq<LayerEdge>, depth: int, symptom: string)
    ensures NodesDistinct(RawPaths(log, depth, symptom)) <==> HopsAreSingle(log, depth, symptom)
  {
    if NodesDistinct(RawPaths(log, depth, symptom)) {
      DistinctSingle(log, depth, symptom);
    }
    if HopsAreSingle(log, depth, symptom) {
      SingleDistinct(log, depth, symptom);
    }
  }

  lemma {:induction false} DistinctSingle(log: seq<LayerEdge>, depth: int, symptom: string)
    requires NodesDistinct(RawPaths(log, depth, symptom))
    ensures HopsAreSingle(log, depth, symptom)
  {
    hide RawPaths, NodesDistinct, Upstream, Ways, Hops, Copies;
    forall p, i | IsRooted(log, depth, p) && p.nodes[0] == symptom && 0 <= i < |p.edges|
      ensures Hops(Upstream(log, p.nodes[i]), p.nodes[i + 1]) == 1
    {
      DistinctCopies(RawPaths(log, depth, symptom), p.nodes);
      RootedFits(log, depth, symptom, p);
      CopiesExactly(log, depth, symptom, p.nodes);
      WaysOfTrail(log, p, 0);
    }
  }

  lemma {:induction false} SingleDistinct(log: seq<LayerEdge>, depth: int, symptom: string)
    requires HopsAreSingle(log, depth, symptom)
    ensures NodesDistinct(RawPaths(log, depth, symptom))
  {
    var raw := RawPaths(log, depth, symptom);
    hide RawPaths, Upstream, Ways, Hops, Copies;
    forall i, j | 0 <= i < j < |raw|
      ensures raw[i].nodes != raw[j].nodes
    {
      EnumerationExact(log, depth, symptom, raw[i]);
      CopiesExactly(log, depth, symptom, raw[i].nodes);
      WaysOfTrail(log, raw[i], 0);
      if raw[i].nodes == raw[j].nodes {
        RepeatedCopies(raw, i, j);
      }
    }
  }

  lemma {:induction false} RootedFits(log: seq<LayerEdge>, depth: int, symptom: string, p: RawPath)
    requires IsRooted(log, depth, p) && p.nodes[0] == symptom
    ensures Fits(log, depth, [symptom], p.nodes)
  {
    hide Upstream;
  }

  lemma TwoEdges(x: LayerEdge, y: LayerEdge, f: LayerEdge -> Option<LayerEdge>)
    ensures FilterMap([x, y], f)
         == (if f(x).Some? then [f(x).value] else []) + (if f(y).Some? then [f(y).value] else [])
  {
    assert [x] + [y] == [x, y];
    FilterMapOne(x, f);
    FilterMapAppend([x], y, f);
  }

  lemma {:induction false} ParallelMerged(x: LayerEdge, y: LayerEdge)
    requires x.source == y.source && x.layer == y.layer == "1"
    ensures MergedLog([x, y]) == [x, y]
  {
    var log, a := [x, y], x.source;
    assert log[..1] == [x] && [x][..0] == [];
    assert Sources([x]) == [] + [a];
    assert Sources(log) == [a];
    TwoEdges(x, y, SourceIs(a));
    TwoEdges(x, y, MergeRule(log));
    assert [a][..0] == [] && Gather(log, []) == [];
    assert !Causal(log, a, x.target) && !Causal(log, a, y.target);
  }

  lemma {:induction false} ParallelUpstream(x: LayerEdge, y: LayerEdge)
    requires x.source == y.source && x.target == y.target && x.source != x.target && x.layer == y.layer == "1"
    ensures Upstream([x, y], x.source) == [x, y] && Upstream([x, y], x.target) == []
    ensures Hops([x, y], x.target) == 2
  {
    TwoEdges(x, y, SourceIs(x.source));
    TwoEdges(x, y, SourceIs(x.target));
    TwoEdges(x, y, TargetIs(x.source));
    TwoEdges(x, y, TargetIs(x.target));
    TwoEdges(x, y, OnLayer("1"));
    TwoEdges(x, y, OnLayer("2"));
    TwoEdges(x, y, To(x.target));
    assert "1"[0] != "2"[0];
    assert FilterMap([], OnLayer("1")) == [] && FilterMap([], OnLayer("2")) == [];
    hide FilterMap;
    assert Outgoing([x, y], x.source) == [x, y] && Incoming([x, y], x.source) == [];
    assert Outgoing([x, y], x.target) == [] && Incoming([x, y], x.target) == [x, y];
    assert FilterMap([x, y], OnLayer("1")) == [x, y] && FilterMap([x, y], OnLayer("2")) == [];
  }

  lemma {:induction false} TwoWays(log: seq<LayerEdge>, a: string, b: string, depth: int)
    requires a != b && depth >= 2 && Hops(Upstream(log, a), b) == 2 && Upstream(log, b) == []
    ensures Copies(RawPaths(log, depth, a), [a, b]) == 2
  {
    hide Upstream, Hops, RawPaths, Copies;
    CopiesExactly(log, depth, a, [a, b]);
    assert Ways(log, [a, b], 1) == 1 && Product(2, 1) == 2;
    assert [a] <= [a, b];
  }

  /** Two relationships of different types between the same two nodes: their node path is collected twice. */
  lemma {:induction false} ParallelEdgesRepeat(a: string, b: string, kind: string, other: string, depth: int)
    requires a != b && kind != other && depth >= 2
    ensures var log := Layer1Edges([(a, b, kind), (a, b, other)]);
            && MergedLog(log) == log && Copies(RawPaths(log, depth, a), [a, b]) == 2
            && !NodesDistinct(RawPaths(log, depth, a))
  {
    var x, y := LayerEdge(a, b, kind, "1"), LayerEdge(a, b, other, "1");
    var log := Layer1Edges([(a, b, kind), (a, b, other)]);
    assert log == [x, y];
    hide MergedLog, Upstream, Hops, RawPaths, NodesDistinct, Copies, Layer1Edges;
    ParallelMerged(x, y);
    ParallelUpstream(x, y);
    TwoWays(log, a, b, depth);
    if NodesDistinct(RawPaths(log, depth, a)) {
      DistinctCopies(RawPaths(log, depth, a), [a, b]);
    }
  }

  lemma {:induction false} NodePathCopies(raw: seq<RawPath>, path: seq<string>)
    ensures multiset(NodePaths(raw))[Reversed(path)] == Copies(raw, path)
  {
    if raw != [] {
      var front, last := raw[..|raw| - 1], raw[|raw| - 1].nodes;
      NodePathCopies(front, path);
      if Reversed(last) == Reversed(path) {
        ReversedTwice(last);
        ReversedTwice(path);
      }
    }
  }
}
