/**
 The two-layer graph (causal/two_layer_graph.py): dual edge indexes over one insertion log, and the layer-overriding
 merge.
 */
module LayeredGraph {
  import opened Options
  import opened Filtering

  /** Edge and node properties play no part in the traversal and are left out. */
  datatype LayerEdge = LayerEdge(source: string, target: string, edgeType: string, layer: string)

  function SourceIs(node: string): LayerEdge -> Option<LayerEdge> {
    (e: LayerEdge) => if e.source == node then Some(e) else None
  }

  function TargetIs(node: string): LayerEdge -> Option<LayerEdge> {
    (e: LayerEdge) => if e.target == node then Some(e) else None
  }

  function SourceIn(keys: seq<string>): LayerEdge -> Option<LayerEdge> {
    (e: LayerEdge) => if e.source in keys then Some(e) else None
  }

  /** The edges leaving and entering a node, in insertion order. */
  function Outgoing(log: seq<LayerEdge>, node: string): seq<LayerEdge> {
    FilterMap(log, SourceIs(node))
  }

  function Incoming(log: seq<LayerEdge>, node: string): seq<LayerEdge> {
    FilterMap(log, TargetIs(node))
  }

  /** Source nodes in order of their first edge. */
  function Sources(log: seq<LayerEdge>): seq<string> {
    if log == [] then []
    else
      var front := Sources(log[..|log| - 1]);
      if log[|log| - 1].source in front then front else front + [log[|log| - 1].source]
  }

  // ---------------------------------------------------------------- merge

  /** Some Layer-2 edge joins the two nodes, in either direction. */
  predicate Causal(log: seq<LayerEdge>, a: string, b: string) {
    exists i :: 0 <= i < |log| && log[i].layer == "2" && {log[i].source, log[i].target} == {a, b}
  }

  /** A Layer-2 edge stays; any other edge stays as Layer 1 unless a Layer-2 edge joins its ends. */
  function MergeRule(log: seq<LayerEdge>): LayerEdge -> Option<LayerEdge> {
    (e: LayerEdge) => if e.layer == "2" then Some(e)
         else if !Causal(log, e.source, e.target) then Some(e.(layer := "1"))
         else None
  }

  /** The kept edges of the listed sources, source by source. */
  function Gather(log: seq<LayerEdge>, keys: seq<string>): seq<LayerEdge> {
    if keys == [] then []
    else Gather(log, keys[..|keys| - 1]) + FilterMap(Outgoing(log, keys[|keys| - 1]), MergeRule(log))
  }

  /** The insertion log of the merged graph. */
  function MergedLog(log: seq<LayerEdge>): seq<LayerEdge> {
    Gather(log, Sources(log))
  }

  ghost predicate Distinct<T>(s: seq<T>) {
    forall i, j | 0 <= i < j < |s| :: s[i] != s[j]
  }

  lemma {:induction false} SourcesFacts(log: seq<LayerEdge>)
    ensures Distinct(Sources(log))
    ensures forall k :: k in Sources(log) <==> exists i :: 0 <= i < |log| && log[i].source == k
  {
    if log != [] {
      var front, last := log[..|log| - 1], log[|log| - 1];
      SourcesFacts(front);
      forall k | k in Sources(log)
        ensures exists i :: 0 <= i < |log| && log[i].source == k
      {
        if k == last.source {
          assert log[|log| - 1].source == k;
        } else {
          var i :| 0 <= i < |front| && front[i].source == k;
          assert log[i].source == k;
        }
      }
      forall i | 0 <= i < |log|
        ensures log[i].source in Sources(log)
      {
        if i < |front| {
          assert front[i] == log[i];
        }
      }
    }
  }

  lemma {:induction false} SourceInSplit(log: seq<LayerEdge>, keys: seq<string>, k: string)
    requires k !in keys
    ensures multiset(FilterMap(log, SourceIn(keys + [k])))
         == multiset(FilterMap(log, SourceIn(keys))) + multiset(Outgoing(log, k))
  {
    if log != [] {
      var front, last := log[..|log| - 1], log[|log| - 1];
      SourceInSplit(front, keys, k);
      assert SourceIn(keys + [k])(last).Some? <==> SourceIn(keys)(last).Some? || last.source == k;
    }
  }

  lemma {:induction false} GatherPermutes(log: seq<LayerEdge>, keys: seq<string>)
    requires Distinct(keys)
    ensures multiset(Gather(log, keys)) == multiset(FilterMap(FilterMap(log, SourceIn(keys)), MergeRule(log)))
  {
    var rule := MergeRule(log);
    if keys == [] {
      NoSource(log);
    } else {
      var front, k := keys[..|keys| - 1], keys[|keys| - 1];
      assert front + [k] == keys;
      GatherPermutes(log, front);
      var before, here, after := FilterMap(log, SourceIn(front)), Outgoing(log, k), FilterMap(log, SourceIn(keys));
      SourceInSplit(log, front, k);
      assert multiset(before + here) == multiset(after);
      FilterMapPermutes(before + here, after, rule);
      FilterMapConcat(before, here, rule);
    }
  }

  lemma {:induction false} NoSource(log: seq<LayerEdge>)
    ensures FilterMap(log, SourceIn([])) == []
  {
    if log != [] {
      NoSource(log[..|log| - 1]);
    }
  }

  /** Merging keeps exactly the edges the rule keeps, with their multiplicities; only their order may change. */
  lemma MergedContents(log: seq<LayerEdge>)
    ensures multiset(MergedLog(log)) == multiset(FilterMap(log, MergeRule(log)))
  {
    SourcesFacts(log);
    GatherPermutes(log, Sources(log));
    FilterMapIdentity(log, SourceIn(Sources(log)));
  }

  lemma MergedMembers(log: seq<LayerEdge>, e: LayerEdge)
    ensures e in MergedLog(log) <==> exists i :: 0 <= i < |log| && MergeRule(log)(log[i]) == Some(e)
  {
    MergedContents(log);
    FilterMapMembers(log, MergeRule(log), e);
    assert e in MergedLog(log) <==> e in multiset(MergedLog(log));
    assert e in FilterMap(log, MergeRule(log)) <==> e in multiset(FilterMap(log, MergeRule(log)));
  }

  /** Some Layer-2 edge runs between the two nodes, one way or the other. */
  ghost predicate Joined(log: seq<LayerEdge>, a: string, b: string) {
    exists f | f in log :: f.layer == "2" && ((f.source == a && f.target == b) || (f.source == b && f.target == a))
  }

  /**
   What is in a merged graph: the Layer-2 edges, and every other edge, now as Layer 1, unless a Layer-2 edge joins its
   ends.
   */
  lemma {:induction false} MergedExactly(log: seq<LayerEdge>, e: LayerEdge)
    ensures e in MergedLog(log) <==>
            || (e.layer == "2" && e in log)
            || (e.layer == "1" && !Joined(log, e.source, e.target)
                && exists f | f in log :: f.layer != "2" && f.(layer := "1") == e)
  {
    MergedMembers(log, e);
    JoinedIsCausal(log, e.source, e.target);
    if i :| 0 <= i < |log| && MergeRule(log)(log[i]) == Some(e) {
      assert log[i] in log;
    }
    if e.layer == "2" && e in log {
      var i :| 0 <= i < |log| && log[i] == e;
      assert MergeRule(log)(log[i]) == Some(e);
    }
    if e.layer == "1" && !Joined(log, e.source, e.target) {
      if f :| f in log && f.layer != "2" && f.(layer := "1") == e {
        var i :| 0 <= i < |log| && log[i] == f;
        assert MergeRule(log)(log[i]) == Some(e);
      }
    }
  }

  lemma {:induction false} JoinedIsCausal(log: seq<LayerEdge>, a: string, b: string)
    ensures Joined(log, a, b) <==> Causal(log, a, b)
  {
    if f :| f in log && f.layer == "2" && ((f.source == a && f.target == b) || (f.source == b && f.target == a)) {
      CausalMember(log, f, a, b);
    }
    if i :| 0 <= i < |log| && log[i].layer == "2" && {log[i].source, log[i].target} == {a, b} {
      SamePair(log[i].source, log[i].target, a, b);
      assert log[i] in log;
    }
  }

  lemma SamePair(x: string, y: string, a: string, b: string)
    requires {x, y} == {a, b}
    ensures (x == a && y == b) || (x == b && y == a)
  {
    assert x in {a, b} && y in {a, b} && a in {x, y} && b in {x, y};
  }

  lemma CausalMember(log: seq<LayerEdge>, e: LayerEdge, a: string, b: string)
    requires e in log && e.layer == "2" && {e.source, e.target} == {a, b}
    ensures Causal(log, a, b)
  {
    var i :| 0 <= i < |log| && log[i] == e;
  }

  /** The causal pairs survive the merge. */
  lemma MergedCausal(log: seq<LayerEdge>, a: string, b: string)
    ensures Causal(MergedLog(log), a, b) <==> Causal(log, a, b)
  {
    var merged := MergedLog(log);
    if Causal(log, a, b) {
      var i :| 0 <= i < |log| && log[i].layer == "2" && {log[i].source, log[i].target} == {a, b};
      MergedMembers(log, log[i]);
      assert MergeRule(log)(log[i]) == Some(log[i]);
      CausalMember(merged, log[i], a, b);
    }
    if Causal(merged, a, b) {
      var i :| 0 <= i < |merged| && merged[i].layer == "2" && {merged[i].source, merged[i].target} == {a, b};
      MergedMembers(log, merged[i]);
      var j :| 0 <= j < |log| && MergeRule(log)(log[j]) == Some(merged[i]);
      CausalMember(log, log[j], a, b);
    }
  }

  /** A merged graph has only the two layers, and never both of them on one unordered pair of nodes. */
  lemma MergedLayers(log: seq<LayerEdge>)
    ensures forall e | e in MergedLog(log) ::
              e.layer == "2" || (e.layer == "1" && !Causal(MergedLog(log), e.source, e.target))
  {
    forall e | e in MergedLog(log)
      ensures e.layer == "2" || (e.layer == "1" && !Causal(MergedLog(log), e.source, e.target))
    {
      MergedMembers(log, e);
      MergedCausal(log, e.source, e.target);
    }
  }

  /** Merging a merged graph changes nothing but the order in which edges are listed. */
  lemma MergeIdempotent(log: seq<LayerEdge>)
    ensures multiset(MergedLog(MergedLog(log))) == multiset(MergedLog(log))
  {
    var merged := MergedLog(log);
    MergedContents(merged);
    MergedLayers(log);
    forall i | 0 <= i < |merged|
      ensures MergeRule(merged)(merged[i]) == Some(merged[i])
    {
      assert merged[i] in merged;
    }
    FilterMapIdentity(merged, MergeRule(merged));
  }

  lemma SameCausal(log: seq<LayerEdge>, other: seq<LayerEdge>)
    requires multiset(log) == multiset(other)
    ensures forall a, b :: Causal(log, a, b) <==> Causal(other, a, b)
  {
    assert forall e :: e in log <==> e in multiset(log);
    assert forall e :: e in other <==> e in multiset(other);
    forall a, b
      ensures Causal(log, a, b) <==> Causal(other, a, b)
    {
      if Causal(log, a, b) {
        var i :| 0 <= i < |log| && log[i].layer == "2" && {log[i].source, log[i].target} == {a, b};
        CausalMember(other, log[i], a, b);
      }
      if Causal(other, a, b) {
        var i :| 0 <= i < |other| && other[i].layer == "2" && {other[i].source, other[i].target} == {a, b};
        CausalMember(log, other[i], a, b);
      }
    }
  }

  lemma {:induction false} SameFilter(s: seq<LayerEdge>, f: LayerEdge -> Option<LayerEdge>,
                                      g: LayerEdge -> Option<LayerEdge>)
    requires forall e :: f(e) == g(e)
    ensures FilterMap(s, f) == FilterMap(s, g)
  {
    if s != [] {
      SameFilter(s[..|s| - 1], f, g);
    }
  }

  /** The merge does not depend on the order in which the edges were inserted. */
  lemma MergePermutes(log: seq<LayerEdge>, other: seq<LayerEdge>)
    requires multiset(log) == multiset(other)
    ensures multiset(MergedLog(log)) == multiset(MergedLog(other))
  {
    MergedContents(log);
    MergedContents(other);
    SameCausal(log, other);
    SameFilter(log, MergeRule(log), MergeRule(other));
    FilterMapPermutes(log, other, MergeRule(other));
  }

  // ---------------------------------------------------------------- the mutable graph

  type Types = map<string, string>

  /** `setdefault`: the first type given to a node stays. */
  function WithType(types: Types, node: string, kind: string): Types {
    if node in types then types else types[node := kind]
  }

  function WithEnds(types: Types, source: string, target: string): Types {
    WithType(WithType(types, source, "UNKNOWN"), target, "UNKNOWN")
  }

  /** Types after registering the ends of every edge of a list. */
  function WithAllEnds(types: Types, edges: seq<LayerEdge>): Types {
    if edges == [] then types
    else WithEnds(WithAllEnds(types, edges[..|edges| - 1]), edges[|edges| - 1].source, edges[|edges| - 1].target)
  }

  function WithNodes(types: Types, nodes: seq<(string, string)>): Types {
    if nodes == [] then types
    else WithType(WithNodes(types, nodes[..|nodes| - 1]), nodes[|nodes| - 1].0, nodes[|nodes| - 1].1)
  }

  /** One relationship of the dependency topology: source, target and type. */
  function Layer1Edges(rels: seq<(string, string, string)>): seq<LayerEdge> {
    seq(|rels|, i requires 0 <= i < |rels| => LayerEdge(rels[i].0, rels[i].1, rels[i].2, "1"))
  }

  function Layer2Edges(source: string, targets: seq<string>): seq<LayerEdge> {
    seq(|targets|, i requires 0 <= i < |targets| => LayerEdge(source, targets[i], "CAUSAL", "2"))
  }

  function CausalEdges(adjacency: seq<(string, seq<string>)>): seq<LayerEdge> {
    if adjacency == [] then []
    else
      var last := adjacency[|adjacency| - 1];
      CausalEdges(adjacency[..|adjacency| - 1]) + Layer2Edges(last.0, last.1)
  }

  function WithAdjacency(types: Types, adjacency: seq<(string, seq<string>)>): Types {
    if adjacency == [] then types
    else
      var last := adjacency[|adjacency| - 1];
      WithAllEnds(WithType(WithAdjacency(types, adjacency[..|adjacency| - 1]), last.0, "UNKNOWN"),
                  Layer2Edges(last.0, last.1))
  }

  /** Some edge starts or ends at the node. */
  ghost predicate Touches(edges: seq<LayerEdge>, node: string) {
    exists i :: 0 <= i < |edges| && (edges[i].source == node || edges[i].target == node)
  }

  /** Registering the ends of edges adds the missing ones as unknown and changes no type. */
  lemma {:induction false} EndsExactly(types: Types, edges: seq<LayerEdge>, node: string)
    ensures node in WithAllEnds(types, edges) <==> node in types || Touches(edges, node)
    ensures node in WithAllEnds(types, edges) ==>
            WithAllEnds(types, edges)[node] == if node in types then types[node] else "UNKNOWN"
  {
    if edges != [] {
      var front, last := edges[..|edges| - 1], edges[|edges| - 1];
      EndsExactly(types, front, node);
      TouchesMore(front, last, node);
      assert edges == front + [last];
    }
  }

  lemma {:induction false} TouchesMore(front: seq<LayerEdge>, last: LayerEdge, node: string)
    ensures Touches(front + [last], node) <==> Touches(front, node) || last.source == node || last.target == node
  {
    var edges := front + [last];
    if i :| 0 <= i < |front| && (front[i].source == node || front[i].target == node) {
      assert edges[i] == front[i];
    }
    assert edges[|front|] == last;
  }

  /** A node keeps the type of its first entry in the node list. */
  lemma {:induction false} NodesExactly(types: Types, nodes: seq<(string, string)>, i: nat)
    requires i < |nodes| && nodes[i].0 !in types && forall j | 0 <= j < i :: nodes[j].0 != nodes[i].0
    ensures nodes[i].0 in WithNodes(types, nodes) && WithNodes(types, nodes)[nodes[i].0] == nodes[i].1
  {
    var n := |nodes| - 1;
    if i < n {
      NodesExactly(types, nodes[..n], i);
    } else {
      OtherNodes(types, nodes[..n], nodes[i].0);
    }
  }

  lemma {:induction false} OtherNodes(types: Types, nodes: seq<(string, string)>, node: string)
    requires forall j | 0 <= j < |nodes| :: nodes[j].0 != node
    ensures node in WithNodes(types, nodes) <==> node in types
  {
    if nodes != [] {
      OtherNodes(types, nodes[..|nodes| - 1], node);
    }
  }

  /** The causal graph adds its nodes as unknown and changes no type. */
  lemma {:induction false} AdjacencyExactly(types: Types, adjacency: seq<(string, seq<string>)>, node: string)
    ensures node in WithAdjacency(types, adjacency) <==>
            || node in types
            || exists i :: 0 <= i < |adjacency| && (adjacency[i].0 == node || node in adjacency[i].1)
    ensures node in WithAdjacency(types, adjacency) ==>
            WithAdjacency(types, adjacency)[node] == if node in types then types[node] else "UNKNOWN"
  {
    if adjacency != [] {
      var n, last := |adjacency| - 1, adjacency[|adjacency| - 1];
      AdjacencyExactly(types, adjacency[..n], node);
      var before := WithType(WithAdjacency(types, adjacency[..n]), last.0, "UNKNOWN");
      EndsExactly(before, Layer2Edges(last.0, last.1), node);
      TargetsTouched(last.0, last.1, node);
      if i :| 0 <= i < n && (adjacency[..n][i].0 == node || node in adjacency[..n][i].1) {
        assert adjacency[i] == adjacency[..n][i];
      }
      if i :| 0 <= i < |adjacency| && (adjacency[i].0 == node || node in adjacency[i].1) {
        if i < n {
          assert adjacency[..n][i] == adjacency[i];
        }
      }
    }
  }

  lemma {:induction false} TargetsTouched(source: string, targets: seq<string>, node: string)
    ensures Touches(Layer2Edges(source, targets), node) <==> targets != [] && (source == node || node in targets)
  {
    var edges := Layer2Edges(source, targets);
    if targets != [] && source == node {
      assert edges[0].source == node;
    }
    if node in targets {
      var i :| 0 <= i < |targets| && targets[i] == node;
      assert edges[i].target == node;
    }
  }

  /**
   The node types of a loaded topology: the first one listed, and unknown for a node that is only mentioned by edges.
   */
  lemma {:induction false} TypesExactly(nodes: seq<(string, string)>, rels: seq<(string, string, string)>,
                                        adjacency: seq<(string, seq<string>)>, node: string, i: nat)
    requires i <= |nodes| && (forall j | 0 <= j < i :: nodes[j].0 != node) && (i < |nodes| ==> nodes[i].0 == node)
    ensures var types := WithAdjacency(WithAllEnds(WithNodes(map[], nodes), Layer1Edges(rels)), adjacency);
            && (node in types <==>
                  || i < |nodes|
                  || (exists k :: 0 <= k < |rels| && (rels[k].0 == node || rels[k].1 == node))
                  || exists k :: 0 <= k < |adjacency| && (adjacency[k].0 == node || node in adjacency[k].1))
            && (node in types ==> types[node] == if i < |nodes| then nodes[i].1 else "UNKNOWN")
  {
    if i < |nodes| {
      NodesExactly(map[], nodes, i);
    } else {
      OtherNodes(map[], nodes, node);
    }
    EndsExactly(WithNodes(map[], nodes), Layer1Edges(rels), node);
    RelsTouched(rels, node);
    AdjacencyExactly(WithAllEnds(WithNodes(map[], nodes), Layer1Edges(rels)), adjacency, node);
    hide WithNodes, WithAllEnds, WithAdjacency, Touches, Layer1Edges;
  }

  lemma {:induction false} RelsTouched(rels: seq<(string, string, string)>, node: string)
    ensures Touches(Layer1Edges(rels), node) <==>
            exists k :: 0 <= k < |rels| && (rels[k].0 == node || rels[k].1 == node)
  {
    var edges := Layer1Edges(rels);
    if k :| 0 <= k < |rels| && (rels[k].0 == node || rels[k].1 == node) {
      assert edges[k].source == node || edges[k].target == node;
    }
    if k :| 0 <= k < |edges| && (edges[k].source == node || edges[k].target == node) {
      assert rels[k].0 == node || rels[k].1 == node;
    }
  }

  lemma AppendToLog(log: seq<LayerEdge>, e: LayerEdge)
    ensures forall k {:trigger Outgoing(log + [e], k)} ::
              Outgoing(log + [e], k) == if e.source == k then Outgoing(log, k) + [e] else Outgoing(log, k)
    ensures forall k {:trigger Incoming(log + [e], k)} ::
              Incoming(log + [e], k) == if e.target == k then Incoming(log, k) + [e] else Incoming(log, k)
    ensures Sources(log + [e]) == if e.source in Sources(log) then Sources(log) else Sources(log) + [e.source]
  {
    assert (log + [e])[..|log|] == log;
  }

  type Index = map<string, seq<LayerEdge>>

  function At(index: Index, node: string): seq<LayerEdge> {
    if node in index then index[node] else []
  }

  /** Both indexes are projections of one and the same log, so each is the exact flip of the other. */
  ghost predicate IndexesLog(log: seq<LayerEdge>, outKeys: seq<string>, outEdges: Index, inEdges: Index) {
    && (forall k :: At(outEdges, k) == Outgoing(log, k))
    && (forall k :: At(inEdges, k) == Incoming(log, k))
    && outKeys == Sources(log)
    && (forall k :: k in outEdges <==> k in outKeys)
  }

  ghost predicate EndsKnown(log: seq<LayerEdge>, types: Types) {
    forall e | e in log :: e.source in types && e.target in types
  }

  lemma IndexAppend(log: seq<LayerEdge>, outKeys: seq<string>, outEdges: Index, inEdges: Index, e: LayerEdge)
    requires IndexesLog(log, outKeys, outEdges, inEdges)
    ensures IndexesLog(log + [e], if e.source in outEdges then outKeys else outKeys + [e.source],
                       outEdges[e.source := At(outEdges, e.source) + [e]],
                       inEdges[e.target := At(inEdges, e.target) + [e]])
  {
    hide Outgoing, Incoming, Sources;
    AppendToLog(log, e);
    var longer := log + [e];
    var outAfter := outEdges[e.source := At(outEdges, e.source) + [e]];
    var inAfter := inEdges[e.target := At(inEdges, e.target) + [e]];
    forall k
      ensures At(outAfter, k) == Outgoing(longer, k) && At(inAfter, k) == Incoming(longer, k)
    {
      assert At(outEdges, k) == Outgoing(log, k) && At(inEdges, k) == Incoming(log, k);
    }
  }

  class TwoLayerGraph {
    var types: Types                            // one entry per node
    var outKeys: seq<string>                    // keys of the out-index in insertion order
    var outEdges: Index
    var inEdges: Index
    const maxDepth: int
    const symptomFirst: bool                    // path_order is "symptom_to_root"
    ghost var log: seq<LayerEdge>               // every edge ever added

    ghost predicate Valid()
      reads this
    {
      IndexesLog(log, outKeys, outEdges, inEdges) && EndsKnown(log, types)
    }

    function OutgoingEdges(node: string): seq<LayerEdge>
      reads this
    {
      At(outEdges, node)
    }

    function IncomingEdges(node: string): seq<LayerEdge>
      reads this
    {
      At(inEdges, node)
    }

    predicate HasNode(node: string)
      reads this
    {
      node in types
    }

    function EntityType(node: string): string
      reads this
    {
      if node in types then types[node] else "UNKNOWN"
    }

    constructor (maxDepth: int, symptomFirst: bool)
      ensures Valid() && log == [] && types == map[]
      ensures this.maxDepth == maxDepth && this.symptomFirst == symptomFirst
    {
      this.maxDepth, this.symptomFirst := maxDepth, symptomFirst;
      types, outKeys, outEdges, inEdges := map[], [], map[], map[];
      log := [];
    }

    method AddNode(node: string, kind: string)
      requires Valid()
      modifies this`types
      ensures Valid() && types == WithType(old(types), node, kind)
      ensures types == if node in old(types) then old(types) else old(types)[node := kind]
    {
      if node !in types {
        types := types[node := kind];
      }
    }

    method AddEdge(source: string, target: string, edgeType: string, layer: string)
      requires Valid()
      modifies this
      ensures Valid() && log == old(log) + [LayerEdge(source, target, edgeType, layer)]
      ensures types == WithEnds(old(types), source, target)
    {
      hide IndexesLog;
      AddNode(source, "UNKNOWN");
      AddNode(target, "UNKNOWN");
      var edge := LayerEdge(source, target, edgeType, layer);
      IndexAppend(log, outKeys, outEdges, inEdges, edge);
      if source !in outEdges {
        outKeys := outKeys + [source];
      }
      outEdges := outEdges[source := At(outEdges, source) + [edge]];
      inEdges := inEdges[target := At(inEdges, target) + [edge]];
      log := log + [edge];
    }

    /** Load the dependency topology; returns the number of edges. */
    method LoadLayer1(nodes: seq<(string, string)>, rels: seq<(string, string, string)>) returns (count: nat)
      requires Valid()
      modifies this
      ensures Valid() && count == |rels|
      ensures log == old(log) + Layer1Edges(rels)
      ensures types == WithAllEnds(WithNodes(old(types), nodes), Layer1Edges(rels))
    {
      hide IndexesLog, EndsKnown;
      for i := 0 to |nodes|
        invariant Valid() && log == old(log)
        invariant types == WithNodes(old(types), nodes[..i])
      {
        assert nodes[..i + 1][..i] == nodes[..i];
        AddNode(nodes[i].0, nodes[i].1);
      }
      assert nodes[..|nodes|] == nodes;
      ghost var edges := Layer1Edges(rels);
      count := 0;
      for i := 0 to |rels|
        invariant Valid() && count == i
        invariant log == old(log) + edges[..i]
        invariant types == WithAllEnds(WithNodes(old(types), nodes), edges[..i])
      {
        assert edges[..i + 1] == edges[..i] + [edges[i]];
        AddEdge(rels[i].0, rels[i].1, rels[i].2, "1");
        count := count + 1;
      }
      assert edges[..|rels|] == edges;
    }

    /** Load the causal graph, given as each source's effects; returns the number of edges. */
    method SetLayer2(adjacency: seq<(string, seq<string>)>) returns (count: nat)
      requires Valid()
      modifies this
      ensures Valid() && count == |CausalEdges(adjacency)|
      ensures log == old(log) + CausalEdges(adjacency) && types == WithAdjacency(old(types), adjacency)
    {
      hide IndexesLog, EndsKnown, WithAllEnds;
      count := 0;
      for i := 0 to |adjacency|
        invariant Valid() && count == |CausalEdges(adjacency[..i])|
        invariant log == old(log) + CausalEdges(adjacency[..i]) && types == WithAdjacency(old(types), adjacency[..i])
      {
        var added := AddEffects(adjacency[i].0, adjacency[i].1);
        count := count + added;
        assert adjacency[..i + 1][..i] == adjacency[..i];
      }
      assert adjacency[..|adjacency|] == adjacency;
    }

    method AddEffects(source: string, targets: seq<string>) returns (count: nat)
      requires Valid()
      modifies this
      ensures Valid() && count == |targets|
      ensures log == old(log) + Layer2Edges(source, targets)
      ensures types == WithAllEnds(WithType(old(types), source, "UNKNOWN"), Layer2Edges(source, targets))
    {
      hide IndexesLog, EndsKnown;
      AddNode(source, "UNKNOWN");
      ghost var edges, start := Layer2Edges(source, targets), types;
      count := 0;
      for j := 0 to |targets|
        invariant Valid() && count == j
        invariant log == old(log) + edges[..j]
        invariant source in types && types == WithAllEnds(start, edges[..j])
      {
        assert edges[..j + 1] == edges[..j] + [edges[j]];
        AddNode(targets[j], "UNKNOWN");
        AddEdge(source, targets[j], "CAUSAL", "2");
        count := count + 1;
      }
      assert edges[..|targets|] == edges;
    }

    /** A fresh graph in which learned causality overrides the dependency topology. */
    method Merge() returns (merged: TwoLayerGraph)
      requires Valid()
      ensures fresh(merged) && merged.Valid() && merged.log == MergedLog(log) && merged.types == types
      ensures merged.maxDepth == maxDepth && merged.symptomFirst == symptomFirst
    {
      hide MergeRule, IndexesLog, EndsKnown, Gather, Outgoing, Causal;
      merged := new TwoLayerGraph(maxDepth, symptomFirst);
      merged.types := types;
      assert merged.Valid() && Gather(log, []) == [] && outKeys[..0] == [] by {
        NothingGathered(log, types);
      }
      var causal := set k, e | k in outEdges && e in outEdges[k] && e.layer == "2" :: {e.source, e.target};
      CausalSet(causal);
      for i := 0 to |outKeys|
        invariant fresh(merged) && merged.Valid() && merged.types == types
        invariant merged.log == Gather(log, outKeys[..i])
      {
        GatherOne(i);
        merged.CopyKept(outEdges[outKeys[i]], causal, log);
      }
      assert outKeys[..|outKeys|] == outKeys;
      assert MergedLog(log) == Gather(log, outKeys) by {
        KeysAreSources();
      }
    }

    lemma {:induction false} KeysAreSources()
      requires Valid()
      ensures outKeys == Sources(log)
    {
    }

    /** The edges of one more source. */
    lemma {:induction false} GatherOne(i: nat)
      requires Valid() && i < |outKeys|
      ensures outKeys[i] in outEdges && EndsKnown(outEdges[outKeys[i]], types)
      ensures Gather(log, outKeys[..i + 1])
           == Gather(log, outKeys[..i]) + FilterMap(outEdges[outKeys[i]], MergeRule(log))
    {
      assert outKeys[i] in outEdges;
      assert outEdges[outKeys[i]] == At(outEdges, outKeys[i]) == Outgoing(log, outKeys[i]);
      OutgoingEnds(log, outKeys[i], types);
      assert outKeys[..i + 1][..i] == outKeys[..i];
    }

    /** Add the edges of another graph that survive its merge. */
    method CopyKept(edges: seq<LayerEdge>, causal: set<set<string>>, ghost from: seq<LayerEdge>)
      requires Valid() && EndsKnown(edges, types)
      requires forall a, b :: {a, b} in causal <==> Causal(from, a, b)
      modifies this
      ensures Valid() && types == old(types)
      ensures log == old(log) + FilterMap(edges, MergeRule(from))
    {
      hide IndexesLog, Causal, FilterMap;
      assert FilterMap(edges[..0], MergeRule(from)) == [] by {
        NothingKept(edges[..0], MergeRule(from));
      }
      for j := 0 to |edges|
        invariant Valid() && types == old(types)
        invariant log == old(log) + FilterMap(edges[..j], MergeRule(from))
      {
        FilterMapAppend(edges[..j], edges[j], MergeRule(from));
        assert edges[j] in edges && edges[..j + 1] == edges[..j] + [edges[j]];
        CopyEdge(edges[j], causal, from);
      }
      assert edges[..|edges|] == edges;
    }

    method CopyEdge(edge: LayerEdge, causal: set<set<string>>, ghost from: seq<LayerEdge>)
      requires Valid() && edge.source in types && edge.target in types
      requires forall a, b :: {a, b} in causal <==> Causal(from, a, b)
      modifies this
      ensures Valid() && types == old(types)
      ensures log == old(log) + match MergeRule(from)(edge) case None => [] case Some(kept) => [kept]
    {
      hide IndexesLog, EndsKnown, Causal;
      if edge.layer == "2" {
        AddEdge(edge.source, edge.target, edge.edgeType, "2");
      } else if {edge.source, edge.target} !in causal {
        AddEdge(edge.source, edge.target, edge.edgeType, "1");
      }
    }

    lemma CausalSet(causal: set<set<string>>)
      requires Valid()
      requires causal == set k, e | k in outEdges && e in outEdges[k] && e.layer == "2" :: {e.source, e.target}
      ensures forall a, b :: {a, b} in causal <==> Causal(log, a, b)
    {
      forall a, b
        ensures {a, b} in causal <==> Causal(log, a, b)
      {
        if {a, b} in causal {
          var k, e :| k in outEdges && e in outEdges[k] && e.layer == "2" && {e.source, e.target} == {a, b};
          assert At(outEdges, k) == Outgoing(log, k);
          EdgeOfIndex(log, k, e);
          CausalMember(log, e, a, b);
        }
        if Causal(log, a, b) {
          var i :| 0 <= i < |log| && log[i].layer == "2" && {log[i].source, log[i].target} == {a, b};
          var e := log[i];
          FilterMapMembers(log, SourceIs(e.source), e);
          assert SourceIs(e.source)(log[i]) == Some(e);
          assert At(outEdges, e.source) == Outgoing(log, e.source) && e in At(outEdges, e.source);
        }
      }
    }
  }

  lemma {:induction false} NothingKept(edges: seq<LayerEdge>, f: LayerEdge -> Option<LayerEdge>)
    requires edges == []
    ensures FilterMap(edges, f) == []
  {
  }

  /** The empty graph on any nodes. */
  lemma {:induction false} NothingGathered(log: seq<LayerEdge>, types: Types)
    ensures Gather(log, []) == [] && EndsKnown([], types)
  {
  }

  lemma EdgeOfIndex(log: seq<LayerEdge>, key: string, e: LayerEdge)
    requires e in Outgoing(log, key)
    ensures e in log && e.source == key
  {
    FilterMapMembers(log, SourceIs(key), e);
  }

  lemma OutgoingEnds(log: seq<LayerEdge>, key: string, types: Types)
    requires EndsKnown(log, types)
    ensures EndsKnown(Outgoing(log, key), types)
  {
    forall e | e in Outgoing(log, key)
      ensures e in log
    {
      EdgeOfIndex(log, key, e);
    }
  }

  /** The factory of the causal engine: both layers loaded, then merged. */
  method LoadFromTopology(nodes: seq<(string, string)>, rels: seq<(string, string, string)>,
                          adjacency: seq<(string, seq<string>)>, maxDepth: int, symptomFirst: bool)
    returns (graph: TwoLayerGraph)
    ensures fresh(graph) && graph.Valid()
    ensures graph.log == MergedLog(Layer1Edges(rels) + CausalEdges(adjacency))
    ensures graph.types == WithAdjacency(WithAllEnds(WithNodes(map[], nodes), Layer1Edges(rels)), adjacency)
    ensures graph.maxDepth == maxDepth && graph.symptomFirst == symptomFirst
  {
    hide IndexesLog, EndsKnown, MergedLog, CausalEdges, WithAdjacency, WithAllEnds, WithNodes;
    var raw := new TwoLayerGraph(maxDepth, symptomFirst);
    var _ := raw.LoadLayer1(nodes, rels);
    var _ := raw.SetLayer2(adjacency);
    assert raw.log == Layer1Edges(rels) + CausalEdges(adjacency);
    graph := raw.Merge();
  }
}
