/**
 The decision graph: signals influence decisions, decisions result in outcomes; and the expansion
 of a single node.
*/
module Graph {
  import opened Wrappers
  import opened DecisionStore
  import DecisionEngine
  import Decimal
  import Ids

  // ----- nodes and edges

  datatype NodeType = Signal | Decision | Outcome

  datatype Node = Node(
    id: string,
    entityId: int,
    nodeType: NodeType,
    title: string,
    confidence: Option<real>,
    status: Option<string>,
    url: Option<string>)

  datatype EdgeType = Influenced | ResultedIn

  datatype Edge = Edge(source: string, target: string, edgeType: EdgeType)

  datatype Graph = Graph(nodes: seq<Node>, edges: seq<Edge>)

  function DecisionNode(d: Row): Node {
    Node(Ids.DecisionId(d.id), d.id, Decision, d.title, Some(d.confidence), Some(d.status),
         Some("/intelligence/decisions/" + Decimal.Display(d.id)))
  }

  function SignalNode(sid: int): Node {
    Node(Ids.SignalId(sid), sid, Signal, "Signal #" + Decimal.Display(sid), None, None,
         Some("/intelligence/signals/" + Decimal.Display(sid)))
  }

  function OutcomeNode(o: OutcomeFact): Node {
    Node(Ids.OutcomeId(o.id), o.id, Outcome, o.outcomeType, None, Some(o.observation), None)
  }

  function SignalEdge(d: Row): Edge
    requires d.signalThreadId.Some?
  {
    Edge(Ids.SignalId(d.signalThreadId.value), Ids.DecisionId(d.id), Influenced)
  }

  function OutcomeEdge(decisionId: int, o: OutcomeFact): Edge {
    Edge(Ids.DecisionId(decisionId), Ids.OutcomeId(o.id), ResultedIn)
  }

  // ----- the graph as a whole

  function Join(g: Graph, h: Graph): Graph {
    Graph(g.nodes + h.nodes, g.edges + h.edges)
  }

  lemma JoinIsAssociative(f: Graph, g: Graph, h: Graph)
    ensures Join(Join(f, g), h) == Join(f, Join(g, h)) && Join(f, EMPTY) == f
  {}

  const EMPTY := Graph([], [])

  /** A decision with its signal. */
  function DecisionPart(d: Row): Graph {
    if d.signalThreadId.Some? then Graph([DecisionNode(d), SignalNode(d.signalThreadId.value)], [SignalEdge(d)])
    else Graph([DecisionNode(d)], [])
  }

  function DecisionParts(decisions: seq<Row>): Graph {
    if decisions == [] then EMPTY
    else Join(DecisionParts(decisions[..|decisions| - 1]), DecisionPart(decisions[|decisions| - 1]))
  }

  /** The outcomes of a decision. */
  function OutcomePart(decisionId: int, outcomes: seq<OutcomeFact>): Graph {
    if outcomes == [] then EMPTY
    else
      var o := outcomes[|outcomes| - 1];
      Join(OutcomePart(decisionId, outcomes[..|outcomes| - 1]), Graph([OutcomeNode(o)], [OutcomeEdge(decisionId, o)]))
  }

  type OutcomeMap = map<int, seq<OutcomeFact>>

  function OutcomesFor(outcomes: OutcomeMap, decisionId: int): seq<OutcomeFact> {
    if decisionId in outcomes then outcomes[decisionId] else []
  }

  function OutcomeParts(decisions: seq<Row>, outcomes: OutcomeMap): Graph {
    if decisions == [] then EMPTY
    else
      var d := decisions[|decisions| - 1];
      Join(OutcomeParts(decisions[..|decisions| - 1], outcomes), OutcomePart(d.id, OutcomesFor(outcomes, d.id)))
  }

  function GraphOf(decisions: seq<Row>, outcomes: OutcomeMap): Graph {
    Join(DecisionParts(decisions), OutcomeParts(decisions, outcomes))
  }

  function Expansion(d: Row, outcomes: seq<OutcomeFact>): Graph {
    Join(Join(Graph([DecisionNode(d)], []), OutcomePart(d.id, outcomes)),
         Graph([], if d.signalThreadId.Some? then [SignalEdge(d)] else []))
  }

  /** The entity id in a node id: the text between the first dash and the next; 0 when there is none. */
  function EntityId(nodeId: string): int {
    var rest := AfterDash(nodeId);
    if rest.None? then 0
    else
      var n := Decimal.ParseI64(BeforeDash(rest.value));
      if n.Some? then n.value else 0
  }

  function BeforeDash(s: string): string {
    if s == "" || s[0] == '-' then "" else [s[0]] + BeforeDash(s[1..])
  }

  function AfterDash(s: string): Option<string> {
    if s == "" then None else if s[0] == '-' then Some(s[1..]) else AfterDash(s[1..])
  }

  /** A build: the newest decisions, and the outcomes of those whose query succeeded. */
  ghost predicate IsBuild(
    g: Graph, decisions: seq<Row>, outcomes: OutcomeMap, rows: Rows, facts: seq<OutcomeFact>, limit: nat)
  {
    && IsNewest(decisions, rows, limit)
    && (forall id :: id in outcomes ==> Listed(outcomes[id], facts, id))
    && g == GraphOf(decisions, outcomes)
  }

  predicate AllLoaded(decisions: seq<Row>, outcomes: OutcomeMap) {
    forall j :: 0 <= j < |decisions| ==> decisions[j].id in outcomes
  }

  /** How many of the decisions have no outcomes loaded. */
  function NotLoaded(decisions: seq<Row>, outcomes: OutcomeMap): nat {
    if decisions == [] then 0
    else NotLoaded(decisions[..|decisions| - 1], outcomes)
         + if decisions[|decisions| - 1].id in outcomes then 0 else 1
  }

  lemma {:induction false} NoneMissingIff(decisions: seq<Row>, outcomes: OutcomeMap)
    ensures NotLoaded(decisions, outcomes) == 0 <==> AllLoaded(decisions, outcomes)
  {
    if decisions != [] {
      NoneMissingIff(decisions[..|decisions| - 1], outcomes);
    }
  }

  lemma {:induction false} LoadingMoreMissesLess(decisions: seq<Row>, outcomes: OutcomeMap, id: int, outs: seq<OutcomeFact>)
    ensures NotLoaded(decisions, outcomes[id := outs]) <= NotLoaded(decisions, outcomes)
  {
    if decisions != [] {
      LoadingMoreMissesLess(decisions[..|decisions| - 1], outcomes, id, outs);
    }
  }

  // ----- the projection service

  class GraphProjectionService {
    const store: D1Store

    constructor (store: D1Store)
      ensures this.store == store
    {
      this.store := store;
    }

    /** The outcomes of the listed decisions; a decision whose query fails is left out. */
    method LoadOutcomes(decisions: seq<Row>) returns (outcomes: OutcomeMap)
      requires store.Valid()
      modifies store`failures
      ensures forall id :: id in outcomes ==> Listed(outcomes[id], store.outcomes, id) && exists d :: d in decisions && d.id == id
      ensures NotLoaded(decisions, outcomes) <= store.failures - old(store.failures)
      ensures store.failures == old(store.failures) ==> AllLoaded(decisions, outcomes)
    {
      outcomes := map[];
      for i := 0 to |decisions|
        invariant forall id :: id in outcomes ==> Listed(outcomes[id], store.outcomes, id)
        invariant forall id :: id in outcomes ==> exists d :: d in decisions && d.id == id
        invariant NotLoaded(decisions[..i], outcomes) <= store.failures - old(store.failures)
      {
        assert decisions[..i + 1][..i] == decisions[..i];
        var outs := store.ListOutcomes(decisions[i].id);
        if outs.Success? {
          assert decisions[i] in decisions;
          LoadingMoreMissesLess(decisions[..i], outcomes, decisions[i].id, outs.value);
          outcomes := outcomes[decisions[i].id := outs.value];
        }
      }
      assert decisions[..|decisions|] == decisions;
      NoneMissingIff(decisions, outcomes);
    }

    /** The graph of the newest decisions and of their outcomes: of all of them when no store call failed. */
    method BuildDecisionGraph(limit: nat) returns (r: Result<Graph, DecisionEngine.Error>)
      requires store.Valid()
      modifies store`failures
      ensures r.Failure? ==> store.failures > old(store.failures)
      ensures r.Success? ==> exists decisions, outcomes ::
                && IsBuild(r.value, decisions, outcomes, store.decisions, store.outcomes, limit)
                && NotLoaded(decisions, outcomes) <= store.failures - old(store.failures)
                && (store.failures == old(store.failures) ==> AllLoaded(decisions, outcomes))
    {
      var listed := store.ListDecisions(limit);
      if listed.Failure? {
        return Failure(listed.error);
      }
      if |listed.value| == 0 {
        assert IsBuild(EMPTY, [], map[], store.decisions, store.outcomes, limit);
        return Success(EMPTY);
      }
      var outcomeMap := LoadOutcomes(listed.value);
      var nodes, edges := AddDecisions(listed.value);
      nodes, edges := AddOutcomes(listed.value, outcomeMap, nodes, edges);
      r := Success(Graph(nodes, edges));
      assert IsBuild(r.value, listed.value, outcomeMap, store.decisions, store.outcomes, limit);
    }

    method AddDecisions(decisions: seq<Row>) returns (nodes: seq<Node>, edges: seq<Edge>)
      ensures Graph(nodes, edges) == DecisionParts(decisions)
    {
      nodes, edges := [], [];
      for i := 0 to |decisions|
        invariant Graph(nodes, edges) == DecisionParts(decisions[..i])
      {
        assert decisions[..i + 1][..i] == decisions[..i];
        var d := decisions[i];
        nodes := nodes + [DecisionNode(d)];
        if d.signalThreadId.Some? {
          nodes := nodes + [SignalNode(d.signalThreadId.value)];
          edges := edges + [SignalEdge(d)];
        }
      }
      assert decisions[..|decisions|] == decisions;
    }

    method AddOutcomes(decisions: seq<Row>, outcomes: OutcomeMap, nodes0: seq<Node>, edges0: seq<Edge>)
      returns (nodes: seq<Node>, edges: seq<Edge>)
      ensures Graph(nodes, edges) == Join(Graph(nodes0, edges0), OutcomeParts(decisions, outcomes))
    {
      nodes, edges := nodes0, edges0;
      for i := 0 to |decisions|
        invariant Graph(nodes, edges) == Join(Graph(nodes0, edges0), OutcomeParts(decisions[..i], outcomes))
      {
        assert decisions[..i + 1][..i] == decisions[..i];
        var g0, before := Graph(nodes0, edges0), OutcomeParts(decisions[..i], outcomes);
        JoinIsAssociative(g0, before, OutcomePart(decisions[i].id, OutcomesFor(outcomes, decisions[i].id)));
        if decisions[i].id in outcomes {
          nodes, edges := AddOutcomesOf(decisions[i].id, outcomes[decisions[i].id], nodes, edges);
        }
      }
      assert decisions[..|decisions|] == decisions;
    }

    method AddOutcomesOf(decisionId: int, outs: seq<OutcomeFact>, nodes0: seq<Node>, edges0: seq<Edge>)
      returns (nodes: seq<Node>, edges: seq<Edge>)
      ensures Graph(nodes, edges) == Join(Graph(nodes0, edges0), OutcomePart(decisionId, outs))
    {
      nodes, edges := nodes0, edges0;
      for i := 0 to |outs|
        invariant Graph(nodes, edges) == Join(Graph(nodes0, edges0), OutcomePart(decisionId, outs[..i]))
      {
        assert outs[..i + 1][..i] == outs[..i];
        nodes := nodes + [OutcomeNode(outs[i])];
        edges := edges + [OutcomeEdge(decisionId, outs[i])];
      }
      assert outs[..|outs|] == outs;
    }

    /**
     A decision node with its outcomes and its signal edge; anything else expands to nothing, and
     so does a decision whose query fails.
    */
    method Expand(nodeId: string) returns (g: Graph, ghost found: bool)
      requires store.Valid()
      modifies store`failures
      ensures !found ==> store.failures > old(store.failures)
      ensures
        var id := EntityId(nodeId);
        if id != 0 && BeforeDash(nodeId) == "DEC" && found && id in store.decisions then
          exists outs ::
            && (Listed(outs, store.outcomes, id) || (outs == [] && store.failures > old(store.failures)))
            && g == Expansion(store.decisions[id], outs)
        else g == EMPTY
    {
      g, found := EMPTY, true;
      var entityId := EntityId(nodeId);
      if entityId == 0 {
        return;
      }
      if BeforeDash(nodeId) == "DEC" {
        var row := store.FindDecision(entityId);
        found := row.Success?;
        if row.Success? && row.value.Some? {
          var decision := row.value.value;
          var nodes, edges := [DecisionNode(decision)], [];
          var facts := store.ListOutcomes(entityId);
          ghost var outs: seq<OutcomeFact> := if facts.Success? then facts.value else [];
          if facts.Success? {
            nodes, edges := AddOutcomesOf(decision.id, facts.value, nodes, edges);
          }
          if decision.signalThreadId.Some? {
            edges := edges + [SignalEdge(decision)];
          }
          g := Graph(nodes, edges);
          assert g == Expansion(decision, outs);
        }
      }
    }
  }

  // ----- closure

  ghost predicate HasNode(g: Graph, id: string) {
    exists n :: n in g.nodes && n.id == id
  }

  /** Both ends of every edge are nodes. */
  ghost predicate IsClosed(g: Graph) {
    forall e :: e in g.edges ==> HasNode(g, e.source) && HasNode(g, e.target)
  }

  lemma JoinKeepsNodes(g: Graph, h: Graph)
    ensures forall id :: HasNode(g, id) || HasNode(h, id) <==> HasNode(Join(g, h), id)
  {
    forall id | HasNode(Join(g, h), id) ensures HasNode(g, id) || HasNode(h, id) {
      var n :| n in Join(g, h).nodes && n.id == id;
      assert n in g.nodes || n in h.nodes;
    }
    forall id | HasNode(g, id) || HasNode(h, id) ensures HasNode(Join(g, h), id) {
      var n :| (n in g.nodes || n in h.nodes) && n.id == id;
      assert n in Join(g, h).nodes;
    }
  }

  lemma JoinIsClosed(g: Graph, h: Graph)
    requires IsClosed(g) && IsClosed(h)
    ensures IsClosed(Join(g, h))
  {
    JoinKeepsNodes(g, h);
  }

  lemma {:induction false} DecisionPartsAreClosed(decisions: seq<Row>)
    ensures IsClosed(DecisionParts(decisions))
  {
    if decisions != [] {
      var k := |decisions| - 1;
      DecisionPartsAreClosed(decisions[..k]);
      DecisionPartIsClosed(decisions[k]);
      JoinIsClosed(DecisionParts(decisions[..k]), DecisionPart(decisions[k]));
    }
  }

  lemma {:induction false} DecisionPartsHave(decisions: seq<Row>, d: Row)
    requires d in decisions
    ensures HasNode(DecisionParts(decisions), Ids.DecisionId(d.id))
  {
    var k := |decisions| - 1;
    if d in decisions[..k] {
      DecisionPartsHave(decisions[..k], d);
    } else {
      assert d == decisions[k];
      DecisionPartIsClosed(d);
    }
    JoinHasNode(DecisionParts(decisions[..k]), DecisionPart(decisions[k]), Ids.DecisionId(d.id));
  }

  lemma JoinHasNode(g: Graph, h: Graph, id: string)
    requires HasNode(g, id) || HasNode(h, id)
    ensures HasNode(Join(g, h), id)
  {
    JoinKeepsNodes(g, h);
  }

  lemma DecisionPartIsClosed(d: Row)
    ensures IsClosed(DecisionPart(d)) && HasNode(DecisionPart(d), Ids.DecisionId(d.id))
  {
    assert DecisionNode(d) in DecisionPart(d).nodes;
    if d.signalThreadId.Some? {
      assert SignalNode(d.signalThreadId.value) in DecisionPart(d).nodes;
    }
  }

  /** The outcome edges of a decision lead from its node to nodes of their own. */
  lemma {:induction false} OutcomePartEnds(decisionId: int, outs: seq<OutcomeFact>)
    ensures forall e :: e in OutcomePart(decisionId, outs).edges ==>
              e.source == Ids.DecisionId(decisionId) && HasNode(OutcomePart(decisionId, outs), e.target)
  {
    if outs != [] {
      var k := |outs| - 1;
      var before, last := OutcomePart(decisionId, outs[..k]), Graph([OutcomeNode(outs[k])], [OutcomeEdge(decisionId, outs[k])]);
      OutcomePartEnds(decisionId, outs[..k]);
      JoinKeepsNodes(before, last);
      assert OutcomeNode(outs[k]) in last.nodes;
    }
  }

  lemma {:induction false} OutcomePartsEnds(decisions: seq<Row>, outcomes: OutcomeMap)
    ensures forall e :: e in OutcomeParts(decisions, outcomes).edges ==>
              && HasNode(OutcomeParts(decisions, outcomes), e.target)
              && exists d :: d in decisions && e.source == Ids.DecisionId(d.id)
  {
    if decisions != [] {
      var k := |decisions| - 1;
      var d := decisions[k];
      var before, last := OutcomeParts(decisions[..k], outcomes), OutcomePart(d.id, OutcomesFor(outcomes, d.id));
      OutcomePartsEnds(decisions[..k], outcomes);
      OutcomePartEnds(d.id, OutcomesFor(outcomes, d.id));
      JoinKeepsNodes(before, last);
      assert d in decisions && decisions == decisions[..k] + [d];
    }
  }

  /** Every edge of the graph joins two of its nodes. */
  lemma GraphIsClosed(decisions: seq<Row>, outcomes: OutcomeMap)
    ensures IsClosed(GraphOf(decisions, outcomes))
  {
    DecisionPartsAreClosed(decisions);
    OutcomePartsEnds(decisions, outcomes);
    forall d | d in decisions ensures HasNode(DecisionParts(decisions), Ids.DecisionId(d.id)) {
      DecisionPartsHave(decisions, d);
    }
    JoinKeepsNodes(DecisionParts(decisions), OutcomeParts(decisions, outcomes));
  }

  // ----- direction

  /** Signals, then decisions, then outcomes. */
  function Layer(id: string): nat {
    if "SIG-" <= id then 0 else if "DEC-" <= id then 1 else 2
  }

  predicate PointsDown(e: Edge) {
    && Layer(e.target) == Layer(e.source) + 1
    && e.edgeType == (if Layer(e.source) == 0 then Influenced else ResultedIn)
  }

  lemma IdLayers(n: int)
    ensures Layer(Ids.SignalId(n)) == 0 && Layer(Ids.DecisionId(n)) == 1 && Layer(Ids.OutcomeId(n)) == 2
  {
    assert Ids.SignalId(n)[0] == 'S' && Ids.DecisionId(n)[0] == 'D' && Ids.OutcomeId(n)[0] == 'O';
  }

  lemma {:induction false} OutcomePartPointsDown(decisionId: int, outs: seq<OutcomeFact>)
    ensures forall e :: e in OutcomePart(decisionId, outs).edges ==> PointsDown(e)
  {
    if outs != [] {
      OutcomePartPointsDown(decisionId, outs[..|outs| - 1]);
      IdLayers(decisionId);
      IdLayers(outs[|outs| - 1].id);
    }
  }

  lemma DecisionPartPointsDown(d: Row)
    ensures forall e :: e in DecisionPart(d).edges ==> PointsDown(e)
  {
    IdLayers(d.id);
    if d.signalThreadId.Some? {
      IdLayers(d.signalThreadId.value);
    }
  }

  /** Edges go from signals to decisions and from decisions to outcomes only. */
  lemma {:induction false} GraphPointsDown(decisions: seq<Row>, outcomes: OutcomeMap)
    ensures forall e :: e in GraphOf(decisions, outcomes).edges ==> PointsDown(e)
  {
    if decisions != [] {
      var k := |decisions| - 1;
      GraphPointsDown(decisions[..k], outcomes);
      DecisionPartPointsDown(decisions[k]);
      OutcomePartPointsDown(decisions[k].id, OutcomesFor(outcomes, decisions[k].id));
      forall e | e in GraphOf(decisions, outcomes).edges ensures PointsDown(e) {
        assert e in GraphOf(decisions[..k], outcomes).edges
            || e in DecisionPart(decisions[k]).edges
            || e in OutcomePart(decisions[k].id, OutcomesFor(outcomes, decisions[k].id)).edges;
      }
    }
  }

  /** A walk along edges. */
  predicate IsWalk(g: Graph, walk: seq<Edge>) {
    && (forall i :: 0 <= i < |walk| ==> walk[i] in g.edges)
    && (forall i :: 0 <= i < |walk| - 1 ==> walk[i].target == walk[i + 1].source)
  }

  lemma {:induction false} WalksDescend(g: Graph, walk: seq<Edge>)
    requires (forall e :: e in g.edges ==> PointsDown(e)) && IsWalk(g, walk) && walk != []
    ensures Layer(walk[|walk| - 1].target) == Layer(walk[0].source) + |walk|
  {
    if |walk| > 1 {
      var front := walk[..|walk| - 1];
      assert forall i :: 0 <= i < |front| ==> front[i] == walk[i];
      WalksDescend(g, front);
      assert front[|front| - 1].target == walk[|walk| - 1].source;
    }
    assert PointsDown(walk[|walk| - 1]);
  }

  /** No walk in the graph is longer than two edges, and none comes back to where it began. */
  lemma GraphIsAcyclic(decisions: seq<Row>, outcomes: OutcomeMap, walk: seq<Edge>)
    requires IsWalk(GraphOf(decisions, outcomes), walk) && walk != []
    ensures |walk| <= 2 && walk[|walk| - 1].target != walk[0].source
  {
    GraphPointsDown(decisions, outcomes);
    WalksDescend(GraphOf(decisions, outcomes), walk);
  }

  // ----- counts

  function CountLinked(decisions: seq<Row>): nat {
    if decisions == [] then 0
    else CountLinked(decisions[..|decisions| - 1]) + (if decisions[|decisions| - 1].signalThreadId.Some? then 1 else 0)
  }

  function CountOutcomes(decisions: seq<Row>, outcomes: OutcomeMap): nat {
    if decisions == [] then 0
    else CountOutcomes(decisions[..|decisions| - 1], outcomes) + |OutcomesFor(outcomes, decisions[|decisions| - 1].id)|
  }

  lemma {:induction false} OutcomePartCounts(decisionId: int, outs: seq<OutcomeFact>)
    ensures |OutcomePart(decisionId, outs).nodes| == |outs| == |OutcomePart(decisionId, outs).edges|
  {
    if outs != [] {
      OutcomePartCounts(decisionId, outs[..|outs| - 1]);
    }
  }

  /** One edge a linked decision and one an outcome; the nodes are those and the decisions. */
  lemma {:induction false} GraphCounts(decisions: seq<Row>, outcomes: OutcomeMap)
    ensures |GraphOf(decisions, outcomes).edges| == CountLinked(decisions) + CountOutcomes(decisions, outcomes)
    ensures |GraphOf(decisions, outcomes).nodes|
         == |decisions| + CountLinked(decisions) + CountOutcomes(decisions, outcomes)
  {
    if decisions != [] {
      var k := |decisions| - 1;
      GraphCounts(decisions[..k], outcomes);
      OutcomePartCounts(decisions[k].id, OutcomesFor(outcomes, decisions[k].id));
    }
  }

  // ----- what nodes and edges say

  // ----- where everything stands

  predicate ShowsDecision(n: Node, d: Row) {
    && n.id == Ids.DecisionId(d.id) && n.entityId == d.id && n.nodeType == Decision && n.title == d.title
    && n.confidence == Some(d.confidence) && n.status == Some(d.status)
    && n.url == Some("/intelligence/decisions/" + Decimal.Display(d.id))
  }

  predicate ShowsSignal(n: Node, sid: int) {
    && n.id == Ids.SignalId(sid) && n.entityId == sid && n.nodeType == Signal
    && n.title == "Signal #" + Decimal.Display(sid) && n.confidence.None? && n.status.None?
    && n.url == Some("/intelligence/signals/" + Decimal.Display(sid))
  }

  predicate ShowsOutcome(n: Node, o: OutcomeFact) {
    && n.id == Ids.OutcomeId(o.id) && n.entityId == o.id && n.nodeType == Outcome && n.title == o.outcomeType
    && n.confidence.None? && n.status == Some(o.observation) && n.url.None?
  }

  /** The decision is node `n`, and its signal, if it has one, the next one, with edge `e`. */
  predicate DecisionIsAt(g: Graph, d: Row, n: nat, e: nat) {
    && n < |g.nodes| && ShowsDecision(g.nodes[n], d)
    && (d.signalThreadId.Some? ==>
          && n + 1 < |g.nodes| && ShowsSignal(g.nodes[n + 1], d.signalThreadId.value)
          && e < |g.edges| && g.edges[e] == Edge(Ids.SignalId(d.signalThreadId.value), Ids.DecisionId(d.id), Influenced))
  }

  /** The outcome is node `n`, and edge `e` leads to it from its decision. */
  predicate OutcomeIsAt(g: Graph, decisionId: int, o: OutcomeFact, n: nat, e: nat) {
    && n < |g.nodes| && ShowsOutcome(g.nodes[n], o)
    && e < |g.edges| && g.edges[e] == Edge(Ids.DecisionId(decisionId), Ids.OutcomeId(o.id), ResultedIn)
  }

  lemma JoinKeepsDecision(g: Graph, h: Graph, d: Row, n: nat, e: nat)
    requires DecisionIsAt(g, d, n, e)
    ensures DecisionIsAt(Join(g, h), d, n, e)
  {}

  lemma JoinedDecision(g: Graph, d: Row)
    ensures DecisionIsAt(Join(g, DecisionPart(d)), d, |g.nodes|, |g.edges|)
  {}

  lemma JoinKeepsOutcome(g: Graph, h: Graph, id: int, o: OutcomeFact, n: nat, e: nat)
    requires OutcomeIsAt(g, id, o, n, e)
    ensures OutcomeIsAt(Join(g, h), id, o, n, e)
  {}

  lemma JoinShiftsOutcome(g: Graph, h: Graph, id: int, o: OutcomeFact, n: nat, e: nat, n': nat, e': nat)
    requires OutcomeIsAt(h, id, o, n, e) && n' == |g.nodes| + n && e' == |g.edges| + e
    ensures OutcomeIsAt(Join(g, h), id, o, n', e')
  {}

  lemma {:induction false} DecisionPartsCount(decisions: seq<Row>)
    ensures |DecisionParts(decisions).nodes| == |decisions| + CountLinked(decisions)
    ensures |DecisionParts(decisions).edges| == CountLinked(decisions)
  {
    if decisions != [] {
      DecisionPartsCount(decisions[..|decisions| - 1]);
    }
  }

  lemma {:induction false} PartsOfConcat(a: seq<Row>, b: seq<Row>, outcomes: OutcomeMap)
    ensures DecisionParts(a + b) == Join(DecisionParts(a), DecisionParts(b))
    ensures OutcomeParts(a + b, outcomes) == Join(OutcomeParts(a, outcomes), OutcomeParts(b, outcomes))
  {
    if b == [] {
      assert a + b == a;
      JoinIsAssociative(DecisionParts(a), EMPTY, EMPTY);
      JoinIsAssociative(OutcomeParts(a, outcomes), EMPTY, EMPTY);
    } else {
      var k := |b| - 1;
      var d := b[k];
      assert (a + b)[..|a + b| - 1] == a + b[..k] && (a + b)[|a + b| - 1] == d;
      PartsOfConcat(a, b[..k], outcomes);
      JoinIsAssociative(DecisionParts(a), DecisionParts(b[..k]), DecisionPart(d));
      JoinIsAssociative(OutcomeParts(a, outcomes), OutcomeParts(b[..k], outcomes), OutcomePart(d.id, OutcomesFor(outcomes, d.id)));
    }
  }

  /** The parts of the decisions before, the part of this one, and the rest. */
  lemma PartsAround(decisions: seq<Row>, i: nat, outcomes: OutcomeMap)
    requires i < |decisions|
    ensures DecisionParts(decisions)
         == Join(Join(DecisionParts(decisions[..i]), DecisionPart(decisions[i])), DecisionParts(decisions[i + 1..]))
    ensures OutcomeParts(decisions, outcomes)
         == Join(Join(OutcomeParts(decisions[..i], outcomes), OutcomePart(decisions[i].id, OutcomesFor(outcomes, decisions[i].id))),
                 OutcomeParts(decisions[i + 1..], outcomes))
  {
    assert decisions == decisions[..i + 1] + decisions[i + 1..];
    assert decisions[..i + 1][..i] == decisions[..i];
    PartsOfConcat(decisions[..i + 1], decisions[i + 1..], outcomes);
  }

  /** Each decision stands behind those before it and their signals. */
  lemma {:induction false} DecisionStandsAt(decisions: seq<Row>, i: nat)
    requires i < |decisions|
    ensures DecisionIsAt(DecisionParts(decisions), decisions[i], i + CountLinked(decisions[..i]), CountLinked(decisions[..i]))
  {
    var front := DecisionParts(decisions[..i]);
    PartsAround(decisions, i, map[]);
    DecisionPartsCount(decisions[..i]);
    JoinedDecision(front, decisions[i]);
    JoinKeepsDecision(Join(front, DecisionPart(decisions[i])), DecisionParts(decisions[i + 1..]), decisions[i],
                      |front.nodes|, |front.edges|);
  }

  lemma {:induction false} OutcomeOfPartStandsAt(decisionId: int, outs: seq<OutcomeFact>, k: nat)
    requires k < |outs|
    ensures OutcomeIsAt(OutcomePart(decisionId, outs), decisionId, outs[k], k, k)
  {
    var last := |outs| - 1;
    OutcomePartCounts(decisionId, outs[..last]);
    if k < last {
      OutcomeOfPartStandsAt(decisionId, outs[..last], k);
      JoinKeepsOutcome(OutcomePart(decisionId, outs[..last]),
                       Graph([OutcomeNode(outs[last])], [OutcomeEdge(decisionId, outs[last])]), decisionId, outs[k], k, k);
    }
  }

  lemma {:induction false} OutcomePartsCount(decisions: seq<Row>, outcomes: OutcomeMap)
    ensures |OutcomeParts(decisions, outcomes).nodes| == CountOutcomes(decisions, outcomes)
    ensures |OutcomeParts(decisions, outcomes).edges| == CountOutcomes(decisions, outcomes)
  {
    if decisions != [] {
      var k := |decisions| - 1;
      OutcomePartsCount(decisions[..k], outcomes);
      OutcomePartCounts(decisions[k].id, OutcomesFor(outcomes, decisions[k].id));
    }
  }

  /** The outcomes stand decision by decision, each list in its order, and so do their edges. */
  lemma {:induction false} OutcomeStandsAt(decisions: seq<Row>, outcomes: OutcomeMap, i: nat, k: nat)
    requires i < |decisions| && decisions[i].id in outcomes && k < |outcomes[decisions[i].id]|
    ensures var at := CountOutcomes(decisions[..i], outcomes) + k;
            OutcomeIsAt(OutcomeParts(decisions, outcomes), decisions[i].id, outcomes[decisions[i].id][k], at, at)
  {
    var id, outs := decisions[i].id, outcomes[decisions[i].id];
    var front, part := OutcomeParts(decisions[..i], outcomes), OutcomePart(id, outs);
    PartsAround(decisions, i, outcomes);
    OutcomePartsCount(decisions[..i], outcomes);
    OutcomeOfPartStandsAt(id, outs, k);
    var at := CountOutcomes(decisions[..i], outcomes) + k;
    JoinShiftsOutcome(front, part, id, outs[k], k, k, at, at);
    JoinKeepsOutcome(Join(front, part), OutcomeParts(decisions[i + 1..], outcomes), id, outs[k], at, at);
  }

  /**
   The whole graph by position: decisions in their order, each followed by its signal, and then
   the outcomes; so with the edges of the signals and those of the outcomes. With `GraphCounts`
   nothing else is there.
  */
  lemma {:induction false} DecisionStandsInGraph(decisions: seq<Row>, outcomes: OutcomeMap, i: nat)
    requires i < |decisions|
    ensures DecisionIsAt(GraphOf(decisions, outcomes), decisions[i], i + CountLinked(decisions[..i]), CountLinked(decisions[..i]))
  {
    var linked := CountLinked(decisions[..i]);
    DecisionStandsAt(decisions, i);
    JoinKeepsDecision(DecisionParts(decisions), OutcomeParts(decisions, outcomes), decisions[i], i + linked, linked);
  }

  /** Decision by decision, each list in its order: behind `at` signals and outcomes, and all decisions. */
  lemma {:induction false} OutcomeStandsInGraph(decisions: seq<Row>, outcomes: OutcomeMap, i: nat, k: nat, at: nat)
    requires i < |decisions| && decisions[i].id in outcomes && k < |outcomes[decisions[i].id]|
    requires at == CountLinked(decisions) + CountOutcomes(decisions[..i], outcomes) + k
    ensures OutcomeIsAt(GraphOf(decisions, outcomes), decisions[i].id, outcomes[decisions[i].id][k], |decisions| + at, at)
  {
    DecisionPartsCount(decisions);
    OutcomeStandsAt(decisions, outcomes, i, k);
    OutcomeBehind(DecisionParts(decisions), OutcomeParts(decisions, outcomes), decisions[i].id,
                  outcomes[decisions[i].id][k], CountLinked(decisions), at, |decisions| + at);
  }

  lemma OutcomeBehind(front: Graph, part: Graph, id: int, o: OutcomeFact, linked: nat, e: nat, n: nat)
    requires linked <= e <= n && |front.nodes| == n - e + linked && |front.edges| == linked
    requires OutcomeIsAt(part, id, o, e - linked, e - linked)
    ensures OutcomeIsAt(Join(front, part), id, o, n, e)
  {}

  /** An expansion by position: the decision, its outcomes in order, their edges, and the edge of the signal. */
  lemma ExpansionStands(d: Row, outs: seq<OutcomeFact>, k: nat)
    ensures var g, linked := Expansion(d, outs), if d.signalThreadId.Some? then 1 else 0;
            && |g.nodes| == 1 + |outs| && |g.edges| == |outs| + linked && ShowsDecision(g.nodes[0], d)
            && (d.signalThreadId.Some? ==>
                  g.edges[|outs|] == Edge(Ids.SignalId(d.signalThreadId.value), Ids.DecisionId(d.id), Influenced))
    ensures k < |outs| ==> OutcomeIsAt(Expansion(d, outs), d.id, outs[k], 1 + k, k)
  {
    var head, tail := Graph([DecisionNode(d)], []), Graph([], if d.signalThreadId.Some? then [SignalEdge(d)] else []);
    OutcomePartCounts(d.id, outs);
    if k < |outs| {
      OutcomeOfPartStandsAt(d.id, outs, k);
      JoinShiftsOutcome(head, OutcomePart(d.id, outs), d.id, outs[k], k, k, 1 + k, k);
      JoinKeepsOutcome(Join(head, OutcomePart(d.id, outs)), tail, d.id, outs[k], 1 + k, k);
    }
  }

  // ----- expansion

  lemma {:induction false} BeforeDashOf(a: string, b: string)
    requires forall i :: 0 <= i < |a| ==> a[i] != '-'
    ensures BeforeDash(a) == a && BeforeDash(a + "-" + b) == a && AfterDash(a + "-" + b) == Some(b)
  {
    if a == "" {
      assert a + "-" + b == "-" + b && ("-" + b)[1..] == b;
    } else {
      BeforeDashOf(a[1..], b);
      assert (a + "-" + b)[1..] == a[1..] + "-" + b;
    }
  }

  /** What stands between the first dash and the next is the number; without a dash or a number it is 0. */
  lemma EntityIdIs(kind: string, number: string, rest: string)
    requires (forall i :: 0 <= i < |kind| ==> kind[i] != '-') && (forall i :: 0 <= i < |number| ==> number[i] != '-')
    ensures EntityId(kind) == 0
    ensures var n := if Decimal.ParseI64(number).Some? then Decimal.ParseI64(number).value else 0;
            EntityId(kind + "-" + number) == n && EntityId(kind + "-" + (number + "-" + rest)) == n
  {
    NoDash(kind);
    BeforeDashOf(kind, number);
    BeforeDashOf(kind, number + "-" + rest);
    BeforeDashOf(number, rest);
  }

  lemma {:induction false} NoDash(s: string)
    requires forall i :: 0 <= i < |s| ==> s[i] != '-'
    ensures AfterDash(s).None?
  {
    if s != "" {
      NoDash(s[1..]);
    }
  }

  /** A decision node id leads back to its decision exactly when the id is positive. */
  lemma EntityIdOfDecision(id: int)
    requires Decimal.IsI64(id)
    ensures BeforeDash(Ids.DecisionId(id)) == "DEC"
    ensures EntityId(Ids.DecisionId(id)) == if id > 0 then id else 0
  {
    var text := Decimal.Padded(id, Ids.WIDTH);
    BeforeDashOf("DEC", text);
    assert Ids.DecisionId(id) == "DEC" + "-" + text;
    Decimal.ParsePadded(id, Ids.WIDTH);
    if id >= 0 {
      Decimal.PaddedIsDigits(id, Ids.WIDTH);
      BeforeDashOf(text, "");
    } else {
      assert text[0] == '-';
      assert BeforeDash(text) == "";
    }
  }

  /** An expansion is closed exactly when the decision has no signal: its edge comes without the node. */
  lemma ExpansionIsClosedIff(d: Row, outs: seq<OutcomeFact>)
    ensures IsClosed(Expansion(d, outs)) <==> d.signalThreadId.None?
  {
    var g := Expansion(d, outs);
    OutcomePartEnds(d.id, outs);
    ExpansionNodes(d, outs);
    assert DecisionNode(d) in g.nodes;
    forall e | e in OutcomePart(d.id, outs).edges ensures HasNode(g, e.source) && HasNode(g, e.target) {
      var n :| n in OutcomePart(d.id, outs).nodes && n.id == e.target;
      assert n in g.nodes;
    }
    if d.signalThreadId.Some? {
      assert SignalEdge(d) in g.edges;
      IdLayers(d.signalThreadId.value);
      assert !HasNode(g, SignalEdge(d).source);
    }
  }

  lemma {:induction false} OutcomeNodesOnly(decisionId: int, outs: seq<OutcomeFact>)
    ensures forall n :: n in OutcomePart(decisionId, outs).nodes ==> Layer(n.id) == 2
  {
    if outs != [] {
      OutcomeNodesOnly(decisionId, outs[..|outs| - 1]);
      IdLayers(outs[|outs| - 1].id);
    }
  }

  lemma ExpansionNodes(d: Row, outs: seq<OutcomeFact>)
    ensures forall n :: n in Expansion(d, outs).nodes ==> Layer(n.id) >= 1
  {
    OutcomeNodesOnly(d.id, outs);
    IdLayers(d.id);
    forall n | n in Expansion(d, outs).nodes ensures Layer(n.id) >= 1 {
      assert n == DecisionNode(d) || n in OutcomePart(d.id, outs).nodes;
    }
  }

  predicate IsSubgraph(g: Graph, h: Graph) {
    (forall n :: n in g.nodes ==> n in h.nodes) && (forall e :: e in g.edges ==> e in h.edges)
  }

  lemma {:induction false} OutcomePartMembers(decisionId: int, outs: seq<OutcomeFact>)
    ensures forall n :: n in OutcomePart(decisionId, outs).nodes <==> exists o :: o in outs && n == OutcomeNode(o)
    ensures forall e :: e in OutcomePart(decisionId, outs).edges <==> exists o :: o in outs && e == OutcomeEdge(decisionId, o)
  {
    if outs != [] {
      OutcomePartMembers(decisionId, outs[..|outs| - 1]);
      assert outs == outs[..|outs| - 1] + [outs[|outs| - 1]];
    }
  }

  lemma SameFactsSamePart(decisionId: int, a: seq<OutcomeFact>, b: seq<OutcomeFact>)
    requires forall o :: o in a ==> o in b
    ensures IsSubgraph(OutcomePart(decisionId, a), OutcomePart(decisionId, b))
  {
    OutcomePartMembers(decisionId, a);
    OutcomePartMembers(decisionId, b);
  }

  lemma {:induction false} PartsOfAListedDecision(decisions: seq<Row>, outcomes: OutcomeMap, d: Row)
    requires d in decisions
    ensures IsSubgraph(DecisionPart(d), GraphOf(decisions, outcomes))
    ensures IsSubgraph(OutcomePart(d.id, OutcomesFor(outcomes, d.id)), GraphOf(decisions, outcomes))
  {
    var k := |decisions| - 1;
    if d != decisions[k] {
      assert decisions == decisions[..k] + [decisions[k]];
      PartsOfAListedDecision(decisions[..k], outcomes, d);
    }
  }

  /**
   On one store state, expanding a listed decision adds nothing to the graph: every node and edge
   of the expansion is there already, when the build could load the outcomes of the decision.
  */
  lemma ExpansionIsInTheGraph(
    decisions: seq<Row>, outcomes: OutcomeMap, facts: seq<OutcomeFact>, d: Row, outs: seq<OutcomeFact>)
    requires d in decisions
    requires outs == [] || (Listed(outs, facts, d.id) && d.id in outcomes && Listed(outcomes[d.id], facts, d.id))
    ensures IsSubgraph(Expansion(d, outs), GraphOf(decisions, outcomes))
  {
    PartsOfAListedDecision(decisions, outcomes, d);
    forall o | o in outs ensures o in OutcomesFor(outcomes, d.id) {
      assert o in multiset(outs);
      assert o in multiset(outcomes[d.id]);
    }
    SameFactsSamePart(d.id, outs, OutcomesFor(outcomes, d.id));
    assert DecisionNode(d) in DecisionPart(d).nodes;
  }
}
