/**
 Ranked root causes (causal/dag_traversal.py) and the graph's own fault paths (causal/two_layer_graph.py), as their
 callers see them.
 */
module RootCauses {
  import opened Options
  import opened Filtering
  import opened LayeredGraph
  import opened Orders
  import opened FaultPaths

  // ---------------------------------------------------------------- confidence

  /** Rounding to three decimals; no value below lies half-way between two. */
  function Round3(x: real): real {
    (x * 1000.0 + 0.5).Floor as real / 1000.0
  }

  /** Confidence of a path with the given number of edges, `causal` if any of them is a Layer-2 edge. */
  function Score(hops: nat, causal: bool): real {
    if hops == 0 then 0.20
    else
      var anchor := if causal then 0.85 else 0.55;
      var raw := 1.0 - 0.12 * (hops - 1) as real;
      var penalty := if raw > 0.0 then raw else 0.0;
      var confidence := anchor * (0.6 + 0.4 * penalty);
      Round3(if confidence > 1.0 then 1.0 else if confidence < 0.0 then 0.0 else confidence)
  }

  predicate HasCausal(edges: seq<LayerEdge>) {
    exists i :: 0 <= i < |edges| && edges[i].layer == "2"
  }

  lemma RoundMonotone(x: real, y: real)
    requires x <= y
    ensures Round3(x) <= Round3(y)
  {
    var a, b := x * 1000.0 + 0.5, y * 1000.0 + 0.5;
    assert a.Floor as real <= a <= b;
    assert a.Floor <= b.Floor;
  }

  /** A longer path of the same kind never scores higher. */
  lemma ScoreAntitone(n: nat, m: nat, causal: bool)
    requires 1 <= n <= m
    ensures Score(m, causal) <= Score(n, causal)
  {
    var anchor := if causal then 0.85 else 0.55;
    var p := if 1.0 - 0.12 * (n - 1) as real > 0.0 then 1.0 - 0.12 * (n - 1) as real else 0.0;
    var q := if 1.0 - 0.12 * (m - 1) as real > 0.0 then 1.0 - 0.12 * (m - 1) as real else 0.0;
    assert 0.0 <= q <= p <= 1.0;
    RoundMonotone(anchor * (0.6 + 0.4 * q), anchor * (0.6 + 0.4 * p));
  }

  /** Every path with an edge scores between 0.33 and 0.85, the symptom alone 0.20. */
  lemma ScoreRange(hops: nat, causal: bool)
    ensures hops == 0 ==> Score(hops, causal) == 0.2
    ensures hops > 0 ==> 0.33 <= Score(hops, causal) <= 0.85
  {
    if hops > 0 {
      ScoreAntitone(1, hops, causal);
      LongScores(hops, causal);
    }
  }

  lemma LongScores(hops: nat, causal: bool)
    requires hops > 0
    ensures Score(hops, causal) >= if causal then 0.51 else 0.33
    ensures hops >= 10 ==> Score(hops, causal) == if causal then 0.51 else 0.33
  {
    if hops < 10 {
      ScoreAntitone(hops, 10, causal);
    }
  }

  /**
   Causal evidence outranks a dependency-only path of m edges exactly if the causal path has at most 8 edges or m is at
   least 3; in particular always at equal length, but not at every length.
   */
  lemma CausalOutranksExactly(n: nat, m: nat)
    requires n >= 1 && m >= 1
    ensures Score(n, true) > Score(m, false) <==> n <= 8 || m >= 3
  {
    assert Score(8, true) == 0.564 && Score(9, true) == 0.524;
    assert Score(1, false) == 0.55 && Score(2, false) == 0.524 && Score(3, false) == 0.497;
    LongScores(n, true);
    if n <= 8 {
      ScoreAntitone(n, 8, true);
    } else {
      ScoreAntitone(9, n, true);
    }
    if m >= 3 {
      ScoreAntitone(3, m, false);
    } else {
      ScoreAntitone(m, 2, false);
    }
    ScoreAntitone(1, m, false);
  }

  /** The confidence of a path by its number of edges, without and with a causal edge. */
  const DEPENDENCY_SCORES := [0.2, 0.55, 0.524, 0.497, 0.471, 0.444, 0.418, 0.392, 0.365, 0.339, 0.33]
  const CAUSAL_SCORES := [0.2, 0.85, 0.809, 0.768, 0.728, 0.687, 0.646, 0.605, 0.564, 0.524, 0.51]

  /** All scores there are; from ten edges on they no longer change. */
  lemma {:induction false} ScoreExactly(hops: nat, causal: bool)
    ensures Score(hops, causal)
         == (if causal then CAUSAL_SCORES else DEPENDENCY_SCORES)[if hops < 10 then hops else 10]
  {
    if hops >= 10 {
      LongScores(hops, causal);
    } else {
      match hops
      case 0 =>
      case 1 =>
      case 2 =>
      case 3 =>
      case 4 =>
      case 5 =>
      case 6 =>
      case 7 =>
      case 8 =>
      case 9 =>
    }
  }

  // ---------------------------------------------------------------- candidates

  datatype RootCandidate = RootCandidate(rootCause: string, entityType: string, confidence: real,
                                         faultPath: seq<string>, pathEdges: seq<LayerEdge>,
                                         impactedServices: seq<string>)

  function TypeOf(types: Types, node: string): string {
    if node in types then types[node] else "UNKNOWN"
  }

  function PathScore(p: RawPath): real {
    Score(|p.edges|, HasCausal(p.edges))
  }

  function CandidateOf(p: RawPath, types: Types, symptomFirst: bool): RootCandidate
    requires p.nodes != []
  {
    var root := p.nodes[|p.nodes| - 1];
    RootCandidate(root, TypeOf(types, root), PathScore(p), if symptomFirst then p.nodes else Reversed(p.nodes), p.edges,
                  Sort(p.nodes, StrLe))
  }

  /** The confidence gate. */
  function Gate(types: Types, symptomFirst: bool, minConfidence: real): RawPath -> Option<RootCandidate> {
    (p: RawPath) =>
      if p.nodes == [] || PathScore(p) < minConfidence then None else Some(CandidateOf(p, types, symptomFirst))
  }

  predicate RanksBefore(a: RootCandidate, b: RootCandidate) {
    a.confidence > b.confidence || (a.confidence == b.confidence && StrLe(a.rootCause, b.rootCause))
  }

  function Ranking(raw: seq<RawPath>, types: Types, symptomFirst: bool, minConfidence: real): seq<RootCandidate> {
    Sort(FilterMap(raw, Gate(types, symptomFirst, minConfidence)), RanksBefore)
  }

  /** The whole answer for a symptom, from the log of a merged graph. */
  function RootCausesOf(log: seq<LayerEdge>, types: Types, depth: int, symptomFirst: bool, minConfidence: real,
                        symptom: string): seq<RootCandidate>
  {
    if symptom in types then Ranking(RawPaths(log, depth, symptom), types, symptomFirst, minConfidence) else []
  }

  lemma RanksBeforeTotal()
    ensures TotalPreorder(RanksBefore)
  {
    forall a, b
      ensures RanksBefore(a, b) || RanksBefore(b, a)
    {
      StrLeTotal(a.rootCause, b.rootCause);
    }
    forall a, b, c | RanksBefore(a, b) && RanksBefore(b, c)
      ensures RanksBefore(a, c)
    {
      if a.confidence == b.confidence == c.confidence {
        StrLeTransitive(a.rootCause, b.rootCause, c.rootCause);
      }
    }
  }

  /** The answer is ordered by confidence, highest first, and then by root. */
  lemma AnswerIsRanked(log: seq<LayerEdge>, types: Types, depth: int, symptomFirst: bool, minConfidence: real,
                       symptom: string)
    ensures SortedBy(RootCausesOf(log, types, depth, symptomFirst, minConfidence, symptom), RanksBefore)
  {
    RanksBeforeTotal();
    SortSorts(FilterMap(RawPaths(log, depth, symptom), Gate(types, symptomFirst, minConfidence)), RanksBefore);
  }

  /**
   The answer holds a candidate exactly for each bounded simple path from the symptom to a root that passes the gate.
   */
  lemma AnswerExact(log: seq<LayerEdge>, types: Types, depth: int, symptomFirst: bool, minConfidence: real,
                    symptom: string,
                    c: RootCandidate)
    requires symptom in types
    ensures c in RootCausesOf(log, types, depth, symptomFirst, minConfidence, symptom)
       <==> exists p :: IsRooted(log, depth, p) && p.nodes[0] == symptom
              && PathScore(p) >= minConfidence && c == CandidateOf(p, types, symptomFirst)
  {
    hide Upstream, Walk, Score;
    var raw, gate := RawPaths(log, depth, symptom), Gate(types, symptomFirst, minConfidence);
    SortPermutes(FilterMap(raw, gate), RanksBefore);
    FilterMapMembers(raw, gate, c);
    if i :| 0 <= i < |raw| && gate(raw[i]) == Some(c) {
      EnumerationExact(log, depth, symptom, raw[i]);
    }
    if p :| IsRooted(log, depth, p) && p.nodes[0] == symptom && PathScore(p) >= minConfidence
            && c == CandidateOf(p, types, symptomFirst) {
      EnumerationExact(log, depth, symptom, p);
      var i :| 0 <= i < |raw| && raw[i] == p;
      assert gate(raw[i]) == Some(c);
    }
  }

  ghost function ListedScore(edges: seq<LayerEdge>): real {
    var n := if |edges| < 10 then |edges| else 10;
    if exists i :: 0 <= i < |edges| && edges[i].layer == "2" then CAUSAL_SCORES[n] else DEPENDENCY_SCORES[n]
  }

  /**
   What a candidate says: it names the root its fault path ends at and that node's type, shows the path with its edges
   in the configured direction, lists the path's nodes in order, and carries the score of the path, which passes the
   gate.
   */
  ghost predicate Explains(log: seq<LayerEdge>, types: Types, depth: int, symptomFirst: bool, minConfidence: real,
                           symptom: string, p: RawPath, c: RootCandidate)
  {
    && IsFaultPath(log, depth, symptom, p)
    && c.pathEdges == p.edges
    && c.rootCause == p.nodes[|p.nodes| - 1]
    && c.entityType == (if c.rootCause in types then types[c.rootCause] else "UNKNOWN")
    && |c.faultPath| == |p.nodes|
    && (forall i | 0 <= i < |p.nodes| :: c.faultPath[i] == p.nodes[if symptomFirst then i else |p.nodes| - 1 - i])
    && multiset(c.impactedServices) == multiset(p.nodes)
    && (forall i, j | 0 <= i < j < |c.impactedServices| :: Precedes(c.impactedServices[i], c.impactedServices[j]))
    && c.confidence == ListedScore(p.edges) && c.confidence >= minConfidence
  }

  lemma {:induction false} StrLeOrder()
    ensures TotalPreorder(StrLe)
    ensures forall a, b | StrLe(a, b) && StrLe(b, a) :: a == b
  {
    forall a, b
      ensures StrLe(a, b) || StrLe(b, a)
    {
      StrLeTotal(a, b);
    }
    forall a, b, c | StrLe(a, b) && StrLe(b, c)
      ensures StrLe(a, c)
    {
      StrLeTransitive(a, b, c);
    }
    forall a, b | StrLe(a, b) && StrLe(b, a)
      ensures a == b
    {
      StrLeAntisymmetric(a, b);
    }
  }

  lemma {:induction false} SortedNames(nodes: seq<string>, names: seq<string>)
    ensures names == Sort(nodes, StrLe) <==>
            && multiset(names) == multiset(nodes)
            && forall i, j | 0 <= i < j < |names| :: Precedes(names[i], names[j])
  {
    StrLeOrder();
    SortPermutes(nodes, StrLe);
    SortSorts(nodes, StrLe);
    forall a, b
      ensures StrLe(a, b) <==> Precedes(a, b)
    {
      StrLeExactly(a, b);
    }
    hide Precedes, Sort;
    if multiset(names) == multiset(nodes) && forall i, j | 0 <= i < j < |names| :: Precedes(names[i], names[j]) {
      SortedUnique(names, Sort(nodes, StrLe), StrLe);
    }
  }

  /** A candidate says this and nothing else. */
  lemma {:induction false} CandidateExplains(log: seq<LayerEdge>, types: Types, depth: int, symptomFirst: bool,
                                             minConfidence: real, symptom: string, p: RawPath, c: RootCandidate)
    requires IsFaultPath(log, depth, symptom, p)
    ensures Gate(types, symptomFirst, minConfidence)(p) == Some(c)
       <==> Explains(log, types, depth, symptomFirst, minConfidence, symptom, p, c)
  {
    assert p.nodes != [];
    hide IsFaultPath, Explains, FieldsOf, Gate;
    FieldsExplain(log, types, depth, symptomFirst, minConfidence, symptom, p, c);
    GateFields(types, symptomFirst, minConfidence, p, c);
  }

  /** The fields of a candidate, as they are computed. */
  ghost predicate FieldsOf(p: RawPath, types: Types, symptomFirst: bool, c: RootCandidate)
    requires p.nodes != []
  {
    && c.rootCause == p.nodes[|p.nodes| - 1] && c.entityType == TypeOf(types, c.rootCause)
    && c.confidence == PathScore(p) && c.pathEdges == p.edges
    && c.faultPath == (if symptomFirst then p.nodes else Reversed(p.nodes))
    && c.impactedServices == Sort(p.nodes, StrLe)
  }

  lemma {:induction false} GateFields(types: Types, symptomFirst: bool, minConfidence: real, p: RawPath,
                                      c: RootCandidate)
    requires p.nodes != []
    ensures Gate(types, symptomFirst, minConfidence)(p) == Some(c)
       <==> FieldsOf(p, types, symptomFirst, c) && c.confidence >= minConfidence
  {
    hide Sort, PathScore, Reversed;
  }

  lemma {:induction false} FieldsExplain(log: seq<LayerEdge>, types: Types, depth: int, symptomFirst: bool,
                                         minConfidence: real, symptom: string, p: RawPath, c: RootCandidate)
    requires IsFaultPath(log, depth, symptom, p)
    ensures Explains(log, types, depth, symptomFirst, minConfidence, symptom, p, c)
       <==> FieldsOf(p, types, symptomFirst, c) && c.confidence >= minConfidence
  {
    SortedNames(p.nodes, c.impactedServices);
    Oriented(p.nodes, symptomFirst, c.faultPath);
    ListedScoreIs(p);
    hide Sort, PathScore, ListedScore, Precedes, Reversed, IsHop, IsRootNode;
  }

  lemma {:induction false} ListedScoreIs(p: RawPath)
    ensures ListedScore(p.edges) == PathScore(p)
  {
    ScoreExactly(|p.edges|, HasCausal(p.edges));
    hide Score;
  }

  /** Read from the symptom or from the root. */
  lemma {:induction false} Oriented(nodes: seq<string>, symptomFirst: bool, path: seq<string>)
    ensures path == (if symptomFirst then nodes else Reversed(nodes)) <==>
            && |path| == |nodes|
            && forall i | 0 <= i < |nodes| :: path[i] == nodes[if symptomFirst then i else |nodes| - 1 - i]
  {
    forall i | 0 <= i < |nodes|
      ensures Reversed(nodes)[i] == nodes[|nodes| - 1 - i]
    {
      ReversedAt(nodes, i);
    }
  }

  /** The answer for a known symptom holds exactly the candidates that explain one of its fault paths. */
  lemma {:induction false} AnswerExplains(log: seq<LayerEdge>, types: Types, depth: int, symptomFirst: bool,
                                          minConfidence: real, symptom: string, c: RootCandidate)
    requires symptom in types
    ensures c in RootCausesOf(log, types, depth, symptomFirst, minConfidence, symptom)
       <==> exists p :: Explains(log, types, depth, symptomFirst, minConfidence, symptom, p, c)
  {
    var raw, gate := RawPaths(log, depth, symptom), Gate(types, symptomFirst, minConfidence);
    SortPermutes(FilterMap(raw, gate), RanksBefore);
    FilterMapMembers(raw, gate, c);
    hide Sort, FilterMap, RawPaths, Explains, Gate;
    if i :| 0 <= i < |raw| && gate(raw[i]) == Some(c) {
      EnumerationExact(log, depth, symptom, raw[i]);
      RootedExactly(log, depth, symptom, raw[i]);
      CandidateExplains(log, types, depth, symptomFirst, minConfidence, symptom, raw[i], c);
    }
    if p :| Explains(log, types, depth, symptomFirst, minConfidence, symptom, p, c) {
      ExplainsFaultPath(log, types, depth, symptomFirst, minConfidence, symptom, p, c);
      EnumerationExact(log, depth, symptom, p);
      RootedExactly(log, depth, symptom, p);
      CandidateExplains(log, types, depth, symptomFirst, minConfidence, symptom, p, c);
      var i :| 0 <= i < |raw| && raw[i] == p;
    }
  }

  lemma {:induction false} ExplainsFaultPath(log: seq<LayerEdge>, types: Types, depth: int, symptomFirst: bool,
                                             minConfidence: real, symptom: string, p: RawPath, c: RootCandidate)
    requires Explains(log, types, depth, symptomFirst, minConfidence, symptom, p, c)
    ensures IsFaultPath(log, depth, symptom, p)
  {
  }

  /** A candidate explains one path only. */
  lemma {:induction false} ExplainsOne(log: seq<LayerEdge>, types: Types, depth: int, symptomFirst: bool,
                                       minConfidence: real, symptom: string, p: RawPath, q: RawPath, c: RootCandidate)
    requires Explains(log, types, depth, symptomFirst, minConfidence, symptom, p, c)
    requires Explains(log, types, depth, symptomFirst, minConfidence, symptom, q, c)
    ensures p == q
  {
    hide IsFaultPath, Precedes, CAUSAL_SCORES, DEPENDENCY_SCORES;
    forall i | 0 <= i < |p.nodes|
      ensures p.nodes[i] == q.nodes[i]
    {
      assert c.faultPath[if symptomFirst then i else |p.nodes| - 1 - i] == p.nodes[i];
    }
    assert p.nodes == q.nodes;
  }

  /** Each path of the traversal gives one candidate. */
  lemma {:induction false} AnswerCounts(log: seq<LayerEdge>, types: Types, depth: int, symptomFirst: bool,
                                        minConfidence: real, symptom: string, p: RawPath, c: RootCandidate)
    requires symptom in types && Explains(log, types, depth, symptomFirst, minConfidence, symptom, p, c)
    ensures multiset(RootCausesOf(log, types, depth, symptomFirst, minConfidence, symptom))[c]
         == multiset(RawPaths(log, depth, symptom))[p]
  {
    var raw, gate := RawPaths(log, depth, symptom), Gate(types, symptomFirst, minConfidence);
    SortPermutes(FilterMap(raw, gate), RanksBefore);
    hide Sort, FilterMap, RawPaths, Explains, Gate;
    ExplainsFaultPath(log, types, depth, symptomFirst, minConfidence, symptom, p, c);
    CandidateExplains(log, types, depth, symptomFirst, minConfidence, symptom, p, c);
    forall q | q in raw
      ensures gate(q) == Some(c) <==> q == p
    {
      EnumerationExact(log, depth, symptom, q);
      RootedExactly(log, depth, symptom, q);
      CandidateExplains(log, types, depth, symptomFirst, minConfidence, symptom, q, c);
      if gate(q) == Some(c) {
        ExplainsOne(log, types, depth, symptomFirst, minConfidence, symptom, p, q, c);
      }
    }
    FilterMapCount(raw, gate, p, c);
  }

  /** The candidates of a known symptom: all explanations, their number and their order. */
  ghost predicate IsAnswer(g: TwoLayerGraph, depth: int, minConfidence: real, symptom: string,
                           answer: seq<RootCandidate>)
    reads g
  {
    && (forall c :: c in answer <==>
          exists p :: Explains(g.log, g.types, depth, g.symptomFirst, minConfidence, symptom, p, c))
    && (forall c, p | Explains(g.log, g.types, depth, g.symptomFirst, minConfidence, symptom, p, c) ::
          multiset(answer)[c] == multiset(RawPaths(g.log, depth, symptom))[p])
    && (forall i, j | 0 <= i < j < |answer| ::
          || answer[i].confidence > answer[j].confidence
          || (answer[i].confidence == answer[j].confidence && Precedes(answer[i].rootCause, answer[j].rootCause)))
  }

  lemma {:induction false} AnswerIsAnswer(g: TwoLayerGraph, depth: int, minConfidence: real, symptom: string)
    ensures symptom in g.types ==>
      IsAnswer(g, depth, minConfidence, symptom,
               RootCausesOf(g.log, g.types, depth, g.symptomFirst, minConfidence, symptom))
  {
    if symptom in g.types {
      var answer := RootCausesOf(g.log, g.types, depth, g.symptomFirst, minConfidence, symptom);
      hide RootCausesOf, Explains, RawPaths;
      forall c
        ensures c in answer <==>
                exists p :: Explains(g.log, g.types, depth, g.symptomFirst, minConfidence, symptom, p, c)
      {
        AnswerExplains(g.log, g.types, depth, g.symptomFirst, minConfidence, symptom, c);
      }
      forall c, p | Explains(g.log, g.types, depth, g.symptomFirst, minConfidence, symptom, p, c)
        ensures multiset(answer)[c] == multiset(RawPaths(g.log, depth, symptom))[p]
      {
        AnswerCounts(g.log, g.types, depth, g.symptomFirst, minConfidence, symptom, p, c);
      }
      AnswerIsRanked(g.log, g.types, depth, g.symptomFirst, minConfidence, symptom);
      forall i, j | 0 <= i < j < |answer|
        ensures || answer[i].confidence > answer[j].confidence
                || (answer[i].confidence == answer[j].confidence
                    && Precedes(answer[i].rootCause, answer[j].rootCause))
      {
        assert RanksBefore(answer[i], answer[j]);
        StrLeExactly(answer[i].rootCause, answer[j].rootCause);
      }
    }
  }

  /** The first candidate is a best explanation: no admissible path scores higher. */
  lemma FirstIsBest(log: seq<LayerEdge>, types: Types, depth: int, symptomFirst: bool, minConfidence: real,
                    symptom: string, p: RawPath)
    requires symptom in types && IsRooted(log, depth, p) && p.nodes[0] == symptom && PathScore(p) >= minConfidence
    ensures var answer := RootCausesOf(log, types, depth, symptomFirst, minConfidence, symptom);
            answer != [] && answer[0].confidence >= PathScore(p)
  {
    var answer := RootCausesOf(log, types, depth, symptomFirst, minConfidence, symptom);
    var c := CandidateOf(p, types, symptomFirst);
    AnswerExact(log, types, depth, symptomFirst, minConfidence, symptom, c);
    AnswerIsRanked(log, types, depth, symptomFirst, minConfidence, symptom);
    var i :| 0 <= i < |answer| && answer[i] == c;
    assert i > 0 ==> RanksBefore(answer[0], answer[i]);
  }

  /** Inserting the same edges in another order leaves the whole answer, order and paths included, unchanged. */
  lemma AnswerIgnoresInsertionOrder(log: seq<LayerEdge>, other: seq<LayerEdge>, types: Types, depth: int,
                                    symptomFirst: bool,
                                    minConfidence: real, symptom: string)
    requires multiset(log) == multiset(other)
    ensures RootCausesOf(MergedLog(log), types, depth, symptomFirst, minConfidence, symptom)
         == RootCausesOf(MergedLog(other), types, depth, symptomFirst, minConfidence, symptom)
  {
    MergePermutes(log, other);
    WalkIgnoresOrder(MergedLog(log), MergedLog(other), depth, [symptom], [], {symptom});
  }

  lemma RawPathsNonEmpty(log: seq<LayerEdge>, depth: int, symptom: string)
    ensures forall p | p in RawPaths(log, depth, symptom) :: p.nodes != []
  {
    forall p | p in RawPaths(log, depth, symptom)
      ensures p.nodes != []
    {
      EnumerationExact(log, depth, symptom, p);
    }
  }

  // ---------------------------------------------------------------- the traversal object

  datatype Analysis = Analysis(symptom: string, symptomFirst: bool, minConfidence: real, root: Option<string>,
                               confidence: real, faultPath: seq<string>, impactedServices: seq<string>,
                               candidates: seq<RootCandidate>)

  /** There is a finding exactly if some fault path passes the gate, and it is then about one that scores highest. */
  ghost predicate Summarizes(g: TwoLayerGraph, depth: int, minConfidence: real, symptom: string, r: Analysis)
    reads g
  {
    && (r.root.Some? <==> symptom in g.types && exists p, c ::
          Explains(g.log, g.types, depth, g.symptomFirst, minConfidence, symptom, p, c))
    && (r.root.Some? ==> exists p, c ::
          && Explains(g.log, g.types, depth, g.symptomFirst, minConfidence, symptom, p, c)
          && r.root == Some(p.nodes[|p.nodes| - 1]) && r.confidence == ListedScore(p.edges)
          && r.faultPath == c.faultPath && r.impactedServices == c.impactedServices)
    && (symptom in g.types ==> forall p, c |
          Explains(g.log, g.types, depth, g.symptomFirst, minConfidence, symptom, p, c) ::
          ListedScore(p.edges) <= r.confidence)
  }

  lemma {:induction false} BestSummarizes(g: TwoLayerGraph, depth: int, minConfidence: real, symptom: string,
                                          r: Analysis)
    requires if symptom in g.types then IsAnswer(g, depth, minConfidence, symptom, r.candidates) else r.candidates == []
    requires r.candidates == [] ==> r.root == None
    requires r.candidates != [] ==>
               var best := r.candidates[0];
               && r.root == Some(best.rootCause) && r.confidence == best.confidence
               && r.faultPath == best.faultPath && r.impactedServices == best.impactedServices
    ensures Summarizes(g, depth, minConfidence, symptom, r)
  {
    if symptom in g.types {
      hide IsFaultPath, ListedScore, Precedes;
      forall p, c | Explains(g.log, g.types, depth, g.symptomFirst, minConfidence, symptom, p, c)
        ensures r.candidates != [] && ListedScore(p.edges) <= r.confidence
      {
        assert c in r.candidates;
        var i :| 0 <= i < |r.candidates| && r.candidates[i] == c;
        assert i > 0 ==> r.candidates[0].confidence >= r.candidates[i].confidence;
      }
      if r.candidates != [] {
        assert r.candidates[0] in r.candidates;
        var p :| Explains(g.log, g.types, depth, g.symptomFirst, minConfidence, symptom, p, r.candidates[0]);
        ExplainsFaultPath(g.log, g.types, depth, g.symptomFirst, minConfidence, symptom, p, r.candidates[0]);
      }
    }
  }

  class DagTraversal {
    const graph: TwoLayerGraph
    const maxDepth: int
    const minConfidence: real

    ghost predicate Valid()
      reads this, graph
    {
      graph.Valid()
    }

    /**
     The graph is merged on construction; a missing depth falls back to the graph's own. A missing confidence falls back
     to the one of the rules file, given as `configured` when the file can be read and sets it, and then to 0.3.
     */
    constructor (g: TwoLayerGraph, minConfidence: Option<real>, configured: Option<real>, maxDepth: Option<int>)
      requires g.Valid()
      ensures Valid() && fresh(graph) && graph.log == MergedLog(g.log) && graph.types == g.types
      ensures graph.symptomFirst == g.symptomFirst
      ensures this.minConfidence == if minConfidence.Some? then minConfidence.value
                                    else if configured.Some? then configured.value else 0.3
      ensures this.maxDepth == if maxDepth.Some? then maxDepth.value else g.maxDepth
    {
      var merged := g.Merge();
      graph := merged;
      this.maxDepth := if maxDepth.Some? then maxDepth.value else g.maxDepth;
      this.minConfidence := if minConfidence.Some? then minConfidence.value
                            else if configured.Some? then configured.value else 0.3;
    }

    method UpstreamEdges(node: string) returns (upstream: seq<LayerEdge>)
      requires Valid()
      ensures upstream == Upstream(graph.log, node)
    {
      upstream := FilterMap(graph.OutgoingEdges(node), OnLayer("1"))
                + FilterMap(graph.IncomingEdges(node), OnLayer("2"));
    }

    method CollectFrom(nodes: seq<string>, edges: seq<LayerEdge>, visited: set<string>) returns (raw: seq<RawPath>)
      requires Valid() && nodes != []
      ensures raw == Walk(graph.log, maxDepth, nodes, edges, visited)
      decreases Room(maxDepth, |nodes|)
    {
      hide Sort, Upstream, Neighbor;
      raw := [];
      if |nodes| > maxDepth {
        return;
      }
      var unsorted := UpstreamEdges(nodes[|nodes| - 1]);
      var upstream := Sort(unsorted, HopLe);
      if upstream == [] {
        return [RawPath(nodes, edges)];
      }
      for i := 0 to |upstream|
        invariant raw == WalkAll(graph.log, maxDepth, upstream[..i], nodes, edges, visited)
      {
        assert upstream[..i + 1][..i] == upstream[..i];
        var neighbor := Neighbor(upstream[i]);
        if neighbor !in visited {
          var more := CollectFrom(nodes + [neighbor], edges + [upstream[i]], visited + {neighbor});
          raw := raw + more;
        }
      }
      assert upstream[..|upstream|] == upstream;
    }

    /** A raw path as a candidate, unless its confidence fails the gate. */
    method Judge(path: RawPath) returns (c: Option<RootCandidate>)
      requires Valid() && path.nodes != []
      ensures c == Gate(graph.types, graph.symptomFirst, minConfidence)(path)
    {
      hide Score, Sort, HasCausal;
      var root := path.nodes[|path.nodes| - 1];
      var confidence := Score(|path.edges|, HasCausal(path.edges));
      if confidence < minConfidence {
        return None;
      }
      var faultPath := if graph.symptomFirst then path.nodes else Reversed(path.nodes);
      c := Some(RootCandidate(root, graph.EntityType(root), confidence, faultPath, path.edges,
                              Sort(path.nodes, StrLe)));
    }

    /**
     Every fault path of the symptom that passes the gate, each with what it says, as often as the traversal finds it,
     the most confident first and equally confident ones by root.
     */
    method FindRootCauses(symptom: string) returns (answer: seq<RootCandidate>)
      requires Valid()
      ensures answer == RootCausesOf(graph.log, graph.types, maxDepth, graph.symptomFirst, minConfidence, symptom)
      ensures symptom !in graph.types ==> answer == []
      ensures symptom in graph.types ==> IsAnswer(graph, maxDepth, minConfidence, symptom, answer)
    {
      AnswerIsAnswer(graph, maxDepth, minConfidence, symptom);
      hide IsAnswer;
      hide Walk, Gate, Sort;
      if !graph.HasNode(symptom) {
        return [];
      }
      var raw := CollectFrom([symptom], [], {symptom});
      RawPathsNonEmpty(graph.log, maxDepth, symptom);
      var candidates: seq<RootCandidate> := [];
      ghost var gate := Gate(graph.types, graph.symptomFirst, minConfidence);
      for i := 0 to |raw|
        invariant candidates == FilterMap(raw[..i], gate)
      {
        FilterMapAppend(raw[..i], raw[i], gate);
        assert raw[..i + 1] == raw[..i] + [raw[i]];
        var c := Judge(raw[i]);
        if c.Some? {
          candidates := candidates + [c.value];
        }
      }
      assert raw[..|raw|] == raw;
      answer := Sort(candidates, RanksBefore);
    }

    /** The payload for the incident builder: the best candidate's findings, or none of them. */
    method Analyze(symptom: string) returns (r: Analysis)
      requires Valid()
      ensures r.candidates == RootCausesOf(graph.log, graph.types, maxDepth, graph.symptomFirst, minConfidence, symptom)
      ensures symptom !in graph.types ==> r.candidates == []
      ensures symptom in graph.types ==> IsAnswer(graph, maxDepth, minConfidence, symptom, r.candidates)
      ensures Summarizes(graph, maxDepth, minConfidence, symptom, r)
      ensures r.symptom == symptom && r.symptomFirst == graph.symptomFirst && r.minConfidence == minConfidence
      ensures r.candidates == [] ==>
                r.root == None && r.confidence == 0.0 && r.faultPath == [] && r.impactedServices == []
      ensures r.candidates != [] ==>
                var best := r.candidates[0];
                && r.root == Some(best.rootCause) && r.confidence == best.confidence
                && r.faultPath == best.faultPath && r.impactedServices == best.impactedServices
    {
      var candidates := FindRootCauses(symptom);
      hide IsAnswer, Summarizes, RootCausesOf;
      if candidates == [] {
        r := Analysis(symptom, graph.symptomFirst, minConfidence, None, 0.0, [], [], []);
      } else {
        var best := candidates[0];
        r := Analysis(symptom, graph.symptomFirst, minConfidence, Some(best.rootCause), best.confidence,
                      best.faultPath, best.impactedServices, candidates);
      }
      BestSummarizes(graph, maxDepth, minConfidence, symptom, r);
    }
  }

  // ---------------------------------------------------------------- the graph's own enumerator

  /** Sort key of the finished paths: first node, then length. */
  predicate PathLe(a: seq<string>, b: seq<string>) {
    var x, y := if a != [] then a[0] else "", if b != [] then b[0] else "";
    if x == y then |a| <= |b| else StrLe(x, y)
  }

  function AllReversed(paths: seq<seq<string>>): seq<seq<string>> {
    seq(|paths|, i requires 0 <= i < |paths| => Reversed(paths[i]))
  }

  method UpstreamNeighbors(g: TwoLayerGraph, node: string) returns (upstream: seq<LayerEdge>)
    requires g.Valid()
    ensures upstream == Upstream(g.log, node)
  {
    upstream := FilterMap(g.OutgoingEdges(node), OnLayer("1")) + FilterMap(g.IncomingEdges(node), OnLayer("2"));
  }

  method FaultPathsFrom(merged: TwoLayerGraph, depth: int, trail: seq<string>, visited: set<string>)
    returns (paths: seq<seq<string>>)
    requires merged.Valid() && trail != []
    ensures paths == FaultWalk(merged.log, depth, trail, visited)
    decreases Room(depth, |trail|)
  {
    hide IndexesLog, EndsKnown, Upstream, Sort;
    paths := [];
    if |trail| > depth {
      return;
    }
    var upstream := UpstreamNeighbors(merged, trail[|trail| - 1]);
    if upstream == [] {
      return [Reversed(trail)];
    }
    var hops := Sort(upstream, EdgeLe);
    for i := 0 to |hops|
      invariant paths == FaultAll(merged.log, depth, hops[..i], trail, visited)
    {
      assert hops[..i + 1][..i] == hops[..i];
      var neighbor := Neighbor(hops[i]);
      if neighbor !in visited {
        var more := FaultPathsFrom(merged, depth, trail + [neighbor], visited + {neighbor});
        paths := paths + more;
      }
    }
    assert hops[..|hops|] == hops;
  }

  /** The fault paths of a symptom, from the log of a merged graph. */
  function FaultPathsOf(log: seq<LayerEdge>, types: Types, depth: int, symptomFirst: bool,
                        symptom: string): seq<seq<string>> {
    var found := if symptom in types then FaultWalk(log, depth, [symptom], {symptom}) else [];
    if symptomFirst then AllReversed(Sort(found, PathLe)) else Sort(found, PathLe)
  }

  /**
   The output is deterministic: inserting the same edges in another order leaves the whole list of paths unchanged.
   */
  lemma FaultPathsIgnoreInsertionOrder(log: seq<LayerEdge>, other: seq<LayerEdge>, types: Types, depth: int,
                                       symptomFirst: bool, symptom: string)
    requires multiset(log) == multiset(other)
    ensures FaultPathsOf(MergedLog(log), types, depth, symptomFirst, symptom)
         == FaultPathsOf(MergedLog(other), types, depth, symptomFirst, symptom)
  {
    MergePermutes(log, other);
    FaultWalkIgnoresOrder(MergedLog(log), MergedLog(other), depth, [symptom], {symptom});
  }

  /** How often a node path, in the configured direction, is among the fault paths of a symptom. */
  ghost function TimesListed(g: TwoLayerGraph, depth: int, symptom: string, path: seq<string>): nat
    reads g
  {
    var nodes := if g.symptomFirst then path else Reversed(path);
    if symptom in g.types && Fits(MergedLog(g.log), depth, [symptom], nodes) then Ways(MergedLog(g.log), nodes, 0)
    else 0
  }

  /** A node path of a symptom, in the configured direction. */
  ghost predicate IsListed(g: TwoLayerGraph, depth: int, symptom: string, path: seq<string>)
    reads g
  {
    symptom in g.types && exists p :: IsFaultPath(MergedLog(g.log), depth, symptom, p) && Shows(path, p, g.symptomFirst)
  }

  ghost predicate Shows(path: seq<string>, p: RawPath, symptomFirst: bool) {
    |path| == |p.nodes| && forall i | 0 <= i < |path| :: path[i] == p.nodes[if symptomFirst then i else |path| - 1 - i]
  }

  function RootOf(path: seq<string>, symptomFirst: bool): string
    requires path != []
  {
    if symptomFirst then path[|path| - 1] else path[0]
  }

  /** The fault paths of a symptom: which, how often, and in which order. */
  ghost predicate IsPathList(g: TwoLayerGraph, depth: int, symptom: string, paths: seq<seq<string>>)
    reads g
  {
    && (forall path :: path in paths <==> IsListed(g, depth, symptom, path))
    && (forall path :: multiset(paths)[path] == TimesListed(g, depth, symptom, path))
    && (forall i, j | 0 <= i < j < |paths| :: ListedBefore(paths[i], paths[j], g.symptomFirst))
  }

  lemma {:induction false} PathLeOrder()
    ensures TotalPreorder(PathLe)
  {
    StrLeOrder();
    hide StrLe;
  }

  lemma {:induction false} AllReversedCount(paths: seq<seq<string>>, path: seq<string>)
    ensures multiset(AllReversed(paths))[path] == multiset(paths)[Reversed(path)]
  {
    if paths != [] {
      var front, last := paths[..|paths| - 1], paths[|paths| - 1];
      AllReversedCount(front, path);
      assert paths == front + [last] && AllReversed(paths) == AllReversed(front) + [Reversed(last)];
      ReversedTwice(last);
      ReversedTwice(path);
    }
  }

  lemma {:induction false} FaultPathsCount(g: TwoLayerGraph, depth: int, symptom: string, path: seq<string>)
    ensures multiset(FaultPathsOf(MergedLog(g.log), g.types, depth, g.symptomFirst, symptom))[path]
         == TimesListed(g, depth, symptom, path)
  {
    var log := MergedLog(g.log);
    var found := if symptom in g.types then FaultWalk(log, depth, [symptom], {symptom}) else [];
    SortPermutes(found, PathLe);
    AllReversedCount(Sort(found, PathLe), path);
    ReversedTwice(path);
    var nodes := if g.symptomFirst then path else Reversed(path);
    hide MergedLog, FaultWalk, Sort, AllReversed, Reversed, Ways, Fits;
    assert multiset(FaultPathsOf(log, g.types, depth, g.symptomFirst, symptom))[path]
        == multiset(found)[Reversed(nodes)];
    if symptom in g.types {
      WalksAgree(log, depth, [symptom], [], {symptom});
      NodePathCopies(RawPaths(log, depth, symptom), nodes);
      CopiesExactly(log, depth, symptom, nodes);
    }
  }

  lemma {:induction false} ShowsExactly(path: seq<string>, p: RawPath, symptomFirst: bool)
    ensures Shows(path, p, symptomFirst) <==> (if symptomFirst then path else Reversed(path)) == p.nodes
  {
    Oriented(p.nodes, symptomFirst, path);
    ReversedTwice(path);
    ReversedTwice(p.nodes);
  }

  lemma {:induction false} CountedIsListed(g: TwoLayerGraph, depth: int, symptom: string, path: seq<string>)
    requires TimesListed(g, depth, symptom, path) > 0
    ensures IsListed(g, depth, symptom, path)
  {
    var log, nodes := MergedLog(g.log), if g.symptomFirst then path else Reversed(path);
    CopiesExactly(log, depth, symptom, nodes);
    hide MergedLog, Ways, Fits, Reversed, RawPaths, Shows, IsFaultPath, IsRooted, Copies;
    var k := CopyFound(RawPaths(log, depth, symptom), nodes);
    var p := RawPaths(log, depth, symptom)[k];
    EnumerationExact(log, depth, symptom, p);
    RootedExactly(log, depth, symptom, p);
    ShowsExactly(path, p, g.symptomFirst);
  }

  lemma {:induction false} ListedIsCounted(g: TwoLayerGraph, depth: int, symptom: string, path: seq<string>)
    requires IsListed(g, depth, symptom, path)
    ensures TimesListed(g, depth, symptom, path) > 0
  {
    var log, nodes := MergedLog(g.log), if g.symptomFirst then path else Reversed(path);
    CopiesExactly(log, depth, symptom, nodes);
    hide MergedLog, Ways, Fits, Reversed, RawPaths, Shows, IsRooted, Copies, IsHop, IsRootNode;
    var p :| IsFaultPath(log, depth, symptom, p) && Shows(path, p, g.symptomFirst);
    ShowsExactly(path, p, g.symptomFirst);
    EnumerationExact(log, depth, symptom, p);
    RootedExactly(log, depth, symptom, p);
    var raw := RawPaths(log, depth, symptom);
    var k :| 0 <= k < |raw| && raw[k] == p;
    CopyExists(raw, k);
  }

  /** One finished path before another. */
  ghost predicate ListedBefore(a: seq<string>, b: seq<string>, symptomFirst: bool) {
    a != [] && b != [] ==>
      var x, y := RootOf(a, symptomFirst), RootOf(b, symptomFirst);
      Precedes(x, y) && (x == y ==> |a| <= |b|)
  }

  lemma {:induction false} PathLeMeans(a: seq<string>, b: seq<string>)
    requires PathLe(a, b)
    ensures ListedBefore(a, b, false) && ListedBefore(Reversed(a), Reversed(b), true)
  {
    if a != [] && b != [] {
      StrLeExactly(a[0], b[0]);
      StrLeTotal(a[0], a[0]);
      ReversedAt(a, |a| - 1);
      ReversedAt(b, |b| - 1);
    }
  }

  lemma {:induction false} FaultPathsOrdered(g: TwoLayerGraph, depth: int, symptom: string)
    ensures var paths := FaultPathsOf(MergedLog(g.log), g.types, depth, g.symptomFirst, symptom);
            forall i, j | 0 <= i < j < |paths| :: ListedBefore(paths[i], paths[j], g.symptomFirst)
  {
    var log := MergedLog(g.log);
    var found := if symptom in g.types then FaultWalk(log, depth, [symptom], {symptom}) else [];
    var sorted := Sort(found, PathLe);
    PathLeOrder();
    SortSorts(found, PathLe);
    hide MergedLog, FaultWalk, Sort, PathLe, ListedBefore, Reversed;
    var paths := FaultPathsOf(log, g.types, depth, g.symptomFirst, symptom);
    forall i, j | 0 <= i < j < |paths|
      ensures ListedBefore(paths[i], paths[j], g.symptomFirst)
    {
      PathLeMeans(sorted[i], sorted[j]);
    }
  }

  lemma {:induction false} FaultPathsAreListed(g: TwoLayerGraph, depth: int, symptom: string)
    ensures IsPathList(g, depth, symptom,
                       FaultPathsOf(MergedLog(g.log), g.types, depth, g.symptomFirst, symptom))
  {
    var paths := FaultPathsOf(MergedLog(g.log), g.types, depth, g.symptomFirst, symptom);
    FaultPathsOrdered(g, depth, symptom);
    hide FaultPathsOf, MergedLog, TimesListed, ListedBefore, IsListed;
    forall path
      ensures multiset(paths)[path] == TimesListed(g, depth, symptom, path)
      ensures path in paths <==> IsListed(g, depth, symptom, path)
    {
      FaultPathsCount(g, depth, symptom, path);
      if TimesListed(g, depth, symptom, path) > 0 {
        CountedIsListed(g, depth, symptom, path);
      }
      if IsListed(g, depth, symptom, path) {
        ListedIsCounted(g, depth, symptom, path);
      }
      assert path in paths <==> multiset(paths)[path] > 0;
    }
  }

  /**
   All fault paths of the symptom in the merged graph, each as often as it can be walked, by root and then by length.
   */
  method GetFaultPaths(g: TwoLayerGraph, symptom: string, maxDepth: Option<int>) returns (paths: seq<seq<string>>)
    requires g.Valid()
    ensures IsPathList(g, if maxDepth.Some? then maxDepth.value else g.maxDepth, symptom, paths)
    ensures var depth := if maxDepth.Some? then maxDepth.value else g.maxDepth;
            paths == FaultPathsOf(MergedLog(g.log), g.types, depth, g.symptomFirst, symptom)
  {
    var depth := if maxDepth.Some? then maxDepth.value else g.maxDepth;
    FaultPathsAreListed(g, depth, symptom);
    hide IsPathList;
    var merged := g.Merge();
    var found: seq<seq<string>> := [];
    if g.HasNode(symptom) {
      found := FaultPathsFrom(merged, depth, [symptom], {symptom});
    }
    paths := Sort(found, PathLe);
    if g.symptomFirst {
      paths := AllReversed(paths);
    }
  }

  /**
   The two enumerators agree: on the same graph and depth the traversal's raw paths, read root first, are the fault
   paths with the same multiplicities, although the two sort edges and paths by different keys.
   */
  lemma EnumeratorsAgree(log: seq<LayerEdge>, depth: int, symptom: string)
    ensures multiset(NodePaths(RawPaths(MergedLog(log), depth, symptom)))
         == multiset(Sort(FaultWalk(MergedLog(log), depth, [symptom], {symptom}), PathLe))
  {
    WalksAgree(MergedLog(log), depth, [symptom], [], {symptom});
    SortPermutes(FaultWalk(MergedLog(log), depth, [symptom], {symptom}), PathLe);
  }

  /** Traversing an already merged graph, which merges it again, collects the same paths in the same order. */
  lemma TwiceMergedSamePaths(log: seq<LayerEdge>, depth: int, symptom: string)
    ensures RawPaths(MergedLog(MergedLog(log)), depth, symptom) == RawPaths(MergedLog(log), depth, symptom)
  {
    MergeIdempotent(log);
    WalkIgnoresOrder(MergedLog(MergedLog(log)), MergedLog(log), depth, [symptom], [], {symptom});
  }
}
