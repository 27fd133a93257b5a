/**
 The prerequisite graph of a harness source: depth-first search with one shared visited set, and
 the producers of terminal-required artifacts that the terminal node depends on.
 */
module Prerequisites {
  import opened Basics

  /** The prerequisite ids of each node id; an id may be mentioned without being listed. */
  type Graph = map<string, seq<string>>

  predicate Edge(g: Graph, a: string, b: string) {
    a in g && b in g[a]
  }

  /** The ids of `p` follow one another along edges. */
  ghost predicate Path(g: Graph, p: seq<string>) {
    forall i :: 0 <= i < |p| - 1 ==> Edge(g, p[i], p[i + 1])
  }

  /** `p` leads from `a` to `b` by at least one edge. */
  ghost predicate Leads(g: Graph, p: seq<string>, a: string, b: string) {
    |p| >= 2 && p[0] == a && p[|p| - 1] == b && Path(g, p)
  }

  ghost predicate Reaches(g: Graph, a: string, b: string) {
    exists p :: Leads(g, p, a, b)
  }

  lemma EdgeReaches(g: Graph, a: string, b: string)
    requires Edge(g, a, b)
    ensures Reaches(g, a, b)
  {
    assert Leads(g, [a, b], a, b);
  }

  lemma ReachesThen(g: Graph, a: string, b: string, c: string)
    requires Edge(g, a, b) && Reaches(g, b, c)
    ensures Reaches(g, a, c)
  {
    var p :| Leads(g, p, b, c);
    var q := [a] + p;
    forall i | 0 <= i < |q| - 1 ensures Edge(g, q[i], q[i + 1]) {
      if i > 0 { assert q[i] == p[i - 1] && q[i + 1] == p[i]; }
    }
    assert Leads(g, q, a, c);
  }

  /** All successors of `a` are in `s`. */
  ghost predicate Covered(g: Graph, a: string, s: set<string>) {
    forall b :: Edge(g, a, b) ==> b in s
  }

  /** A set that covers the start and each of its own members holds everything reachable. */
  lemma {:induction false} ClosedHoldsReachable(g: Graph, s: set<string>, p: seq<string>, a: string, b: string)
    requires Leads(g, p, a, b) && Covered(g, a, s) && forall x :: x in s ==> Covered(g, x, s)
    ensures b in s
    decreases |p|
  {
    assert Edge(g, p[0], p[1]);
    if |p| > 2 {
      var q := p[1..];
      forall i | 0 <= i < |q| - 1 ensures Edge(g, q[i], q[i + 1]) {
        assert q[i] == p[i + 1] && q[i + 1] == p[i + 2];
      }
      ClosedHoldsReachable(g, s, q, p[1], b);
    }
  }

  /** Every id that some node names as a prerequisite. */
  function Mentioned(g: Graph): (s: set<string>)
    ensures forall a, b :: Edge(g, a, b) ==> b in s
  {
    set a, b | a in g && b in g[a] :: b
  }

  /** Everything newly visited since `before` was reached from `a`. */
  ghost predicate FoundFrom(g: Graph, a: string, before: set<string>, after: set<string>) {
    before <= after && forall x :: x in after && x !in before ==> Reaches(g, a, x)
  }

  /** Everything newly visited since `before` is listed and has its successors visited too. */
  ghost predicate Explored(g: Graph, before: set<string>, after: set<string>) {
    forall x :: x in after && x !in before ==> x in g && Covered(g, x, after)
  }

  /** A node that the search can look up, yet is not listed. */
  ghost predicate MissingFrom(g: Graph, a: string) {
    a !in g || exists x :: Reaches(g, a, x) && x !in g
  }

  lemma FoundThrough(g: Graph, a: string, b: string, before: set<string>, middle: set<string>, after: set<string>)
    requires FoundFrom(g, a, before, middle) && Edge(g, a, b) && FoundFrom(g, b, middle + {b}, after)
    ensures FoundFrom(g, a, before, after)
  {
    EdgeReaches(g, a, b);
    forall x | x in after && x !in before ensures Reaches(g, a, x) {
      if x !in middle + {b} { ReachesThen(g, a, b, x); }
    }
  }

  lemma ExploredThrough(g: Graph, b: string, before: set<string>, middle: set<string>, after: set<string>)
    requires Explored(g, before, middle) && middle + {b} <= after && Explored(g, middle + {b}, after)
    requires b in g && Covered(g, b, after)
    ensures Explored(g, before, after)
  {
    forall x | x in after && x !in before ensures x in g && Covered(g, x, after) {
      if x in middle { assert Covered(g, x, middle); }
    }
  }

  lemma MissingThrough(g: Graph, a: string, b: string)
    requires Edge(g, a, b) && MissingFrom(g, b)
    ensures MissingFrom(g, a)
  {
    EdgeReaches(g, a, b);
    if b in g {
      var x :| Reaches(g, b, x) && x !in g;
      ReachesThen(g, a, b, x);
    }
  }

  /** The search of `_transitive_prerequisite_ids`: `visit` adds to one shared set in place. */
  class Search {
    const graph: Graph
    var visited: set<string>

    ghost predicate Valid() reads this { visited <= Mentioned(graph) }

    constructor (graph: Graph)
      ensures Valid() && visited == {} && this.graph == graph
    {
      this.graph := graph;
      this.visited := {};
    }

    /** `visit`; false stands for the `KeyError` of an id that no node has. */
    method Visit(id: string) returns (ok: bool)
      requires Valid()
      modifies this
      ensures Valid() && FoundFrom(graph, id, old(visited), visited)
      ensures ok ==> id in graph && Covered(graph, id, visited) && Explored(graph, old(visited), visited)
      ensures !ok ==> MissingFrom(graph, id)
      decreases |Mentioned(graph) - visited|
    {
      if id !in graph {
        return false;
      }
      var prerequisites := graph[id];
      for i := 0 to |prerequisites|
        invariant Valid() && FoundFrom(graph, id, old(visited), visited)
        invariant forall j :: 0 <= j < i ==> prerequisites[j] in visited
        invariant Explored(graph, old(visited), visited)
      {
        var next := prerequisites[i];
        if next in visited {
          continue;
        }
        ghost var middle := visited;
        assert Edge(graph, id, next);
        visited := visited + {next};
        SmallerRest(Mentioned(graph), old(visited), middle, next);
        var found := Visit(next);
        FoundThrough(graph, id, next, old(visited), middle, visited);
        if !found {
          MissingThrough(graph, id, next);
          return false;
        }
        ExploredThrough(graph, next, old(visited), middle, visited);
      }
      return true;
    }
  }

  lemma SmallerRest(all: set<string>, before: set<string>, middle: set<string>, x: string)
    requires before <= middle && x in all && x !in middle
    ensures |all - (middle + {x})| < |all - before|
  {
    var rest := all - (middle + {x});
    assert rest <= all - before - {x};
    SubsetSize(rest, all - before - {x});
  }

  lemma {:induction false} SubsetSize(a: set<string>, b: set<string>)
    requires a <= b
    ensures |a| <= |b|
    decreases |a|
  {
    if a != {} {
      var x :| x in a;
      SubsetSize(a - {x}, b - {x});
    }
  }

  /**
   `_transitive_prerequisite_ids`: exactly the ids reachable by one or more edges, on cyclic graphs
   too; it raises exactly when the start or some reachable id is not listed.
   */
  method TransitivePrerequisites(graph: Graph, start: string) returns (r: Option<set<string>>)
    ensures r.None? <==> MissingFrom(graph, start)
    ensures r.Some? ==> ReachableSet(graph, start, r.value)
  {
    var search := new Search(graph);
    var ok := search.Visit(start);
    if !ok {
      return None;
    }
    var visited := search.visited;
    forall x | Reaches(graph, start, x) ensures x in visited {
      var p :| Leads(graph, p, start, x);
      ClosedHoldsReachable(graph, visited, p, start, x);
    }
    return Some(visited);
  }

  // ----- Gated producers -----

  datatype Node = Node(id: string, prerequisites: seq<string>, produces: seq<string>, terminalResult: Option<string>)

  datatype Requirement = Requirement(terminalResult: string, artifactIds: seq<string>)

  /** The graph of a list of nodes; of nodes with one id the last listed counts. */
  function GraphOf(nodes: seq<Node>): (g: Graph)
    ensures forall n :: n in nodes ==> n.id in g
  {
    if nodes == [] then map[]
    else
      var last := nodes[|nodes| - 1];
      assert nodes == nodes[..|nodes| - 1] + [last];
      GraphOf(nodes[..|nodes| - 1])[last.id := last.prerequisites]
  }

  /** The last listed node that produces the artifact. */
  function Producer(nodes: seq<Node>, artifact: string): Option<string> {
    if nodes == [] then None
    else if artifact in nodes[|nodes| - 1].produces then Some(nodes[|nodes| - 1].id)
    else Producer(nodes[..|nodes| - 1], artifact)
  }

  /** A nonempty terminal result. */
  predicate EndsWith(node: Node, result: string) {
    node.terminalResult == Some(result) && result != ""
  }

  /** The id of the last listed node that ends with the terminal result. */
  function TerminalNode(nodes: seq<Node>, result: string): (r: Option<string>)
    ensures r.Some? ==> exists n :: n in nodes && n.id == r.value
  {
    if nodes == [] then None
    else if EndsWith(nodes[|nodes| - 1], result) then Some(nodes[|nodes| - 1].id)
    else TerminalNode(nodes[..|nodes| - 1], result)
  }

  method ProducersByArtifact(nodes: seq<Node>) returns (producers: map<string, string>)
    ensures forall a :: (a in producers <==> Producer(nodes, a).Some?) &&
                        (a in producers ==> Some(producers[a]) == Producer(nodes, a))
  {
    producers := map[];
    for i := 0 to |nodes|
      invariant forall a :: (a in producers <==> Producer(nodes[..i], a).Some?) &&
                            (a in producers ==> Some(producers[a]) == Producer(nodes[..i], a))
    {
      assert nodes[..i + 1][..i] == nodes[..i] && nodes[..i + 1][i] == nodes[i];
      ghost var before := producers;
      for j := 0 to |nodes[i].produces|
        invariant forall a :: a in producers <==> a in before || a in nodes[i].produces[..j]
        invariant forall a :: a in producers ==>
                    producers[a] == if a in nodes[i].produces[..j] then nodes[i].id else before[a]
      {
        assert nodes[i].produces[..j + 1] == nodes[i].produces[..j] + [nodes[i].produces[j]];
        producers := producers[nodes[i].produces[j] := nodes[i].id];
      }
      assert nodes[i].produces[..|nodes[i].produces|] == nodes[i].produces;
    }
    assert nodes[..|nodes|] == nodes;
  }

  method TerminalNodes(nodes: seq<Node>) returns (terminals: map<string, string>)
    ensures forall t :: (t in terminals <==> TerminalNode(nodes, t).Some?) &&
                        (t in terminals ==> Some(terminals[t]) == TerminalNode(nodes, t))
  {
    terminals := map[];
    for i := 0 to |nodes|
      invariant forall t :: (t in terminals <==> TerminalNode(nodes[..i], t).Some?) &&
                            (t in terminals ==> Some(terminals[t]) == TerminalNode(nodes[..i], t))
    {
      assert nodes[..i + 1][..i] == nodes[..i] && nodes[..i + 1][i] == nodes[i];
      if nodes[i].terminalResult.Some? && nodes[i].terminalResult.value != "" {
        terminals := terminals[nodes[i].terminalResult.value := nodes[i].id];
      }
    }
    assert nodes[..|nodes|] == nodes;
  }

  /** The producers kept for one requirement, in the order its artifacts are listed. */
  function Gated(artifactIds: seq<string>, nodes: seq<Node>, reachable: set<string>): (r: seq<string>)
    ensures |r| <= |artifactIds|
  {
    if artifactIds == [] then []
    else
      var front, last := artifactIds[..|artifactIds| - 1], artifactIds[|artifactIds| - 1];
      var producer := Producer(nodes, last);
      Gated(front, nodes, reachable) + if producer.Some? && producer.value in reachable then [producer.value] else []
  }

  predicate ProducedIn(nodes: seq<Node>, artifact: string, reachable: set<string>) {
    Producer(nodes, artifact).Some? && Producer(nodes, artifact).value in reachable
  }

  /** The set of ids reachable from `a` by one or more edges. */
  ghost predicate ReachableSet(g: Graph, a: string, s: set<string>) {
    forall x :: x in s <==> Reaches(g, a, x)
  }

  /** The loop over one requirement's artifacts. */
  method GatedProducers(artifactIds: seq<string>, nodes: seq<Node>, producers: map<string, string>,
                        reachable: set<string>)
    returns (gated: seq<string>)
    requires forall a :: (a in producers <==> Producer(nodes, a).Some?) &&
                         (a in producers ==> Some(producers[a]) == Producer(nodes, a))
    ensures gated == Gated(artifactIds, nodes, reachable)
  {
    gated := [];
    for i := 0 to |artifactIds|
      invariant gated == Gated(artifactIds[..i], nodes, reachable)
    {
      assert artifactIds[..i + 1][..i] == artifactIds[..i];
      if artifactIds[i] in producers && producers[artifactIds[i]] in reachable {
        gated := gated + [producers[artifactIds[i]]];
      }
    }
    assert artifactIds[..|artifactIds|] == artifactIds;
  }

  // ----- The nodes, by position -----

  /** Of the nodes with this id, the last listed. */
  ghost predicate LastWithId(nodes: seq<Node>, i: nat, id: string) {
    i < |nodes| && nodes[i].id == id && forall j :: i < j < |nodes| ==> nodes[j].id != id
  }

  /** Of the nodes that produce the artifact, the last listed. */
  ghost predicate LastProducer(nodes: seq<Node>, i: nat, artifact: string) {
    i < |nodes| && artifact in nodes[i].produces && forall j :: i < j < |nodes| ==> artifact !in nodes[j].produces
  }

  /** Of the nodes that end with the nonempty terminal result, the last listed. */
  ghost predicate LastTerminal(nodes: seq<Node>, i: nat, result: string) {
    && i < |nodes| && result != "" && nodes[i].terminalResult == Some(result)
    && forall j :: i < j < |nodes| ==> nodes[j].terminalResult != Some(result)
  }

  /** The node that counts for `a` names `b` as a prerequisite. */
  ghost predicate Prerequisite(nodes: seq<Node>, a: string, b: string) {
    exists i: nat :: LastWithId(nodes, i, a) && b in nodes[i].prerequisites
  }

  /** Every id of `p` is a prerequisite of the one before it. */
  ghost predicate Chain(nodes: seq<Node>, p: seq<string>) {
    forall i :: 0 <= i < |p| - 1 ==> Prerequisite(nodes, p[i], p[i + 1])
  }

  ghost predicate ChainFrom(nodes: seq<Node>, p: seq<string>, a: string, b: string) {
    |p| >= 2 && p[0] == a && p[|p| - 1] == b && Chain(nodes, p)
  }

  /** `b` is a prerequisite of `a`, direct or indirect. */
  ghost predicate DependsOn(nodes: seq<Node>, a: string, b: string) {
    exists p :: ChainFrom(nodes, p, a, b)
  }

  ghost predicate Listed(nodes: seq<Node>, id: string) {
    exists n :: n in nodes && n.id == id
  }

  lemma {:induction false} GraphPosition(nodes: seq<Node>, id: string)
    ensures id in GraphOf(nodes) <==> Listed(nodes, id)
    ensures id in GraphOf(nodes) ==>
              exists i: nat :: LastWithId(nodes, i, id) && GraphOf(nodes)[id] == nodes[i].prerequisites
  {
    if nodes != [] {
      var front, last := nodes[..|nodes| - 1], nodes[|nodes| - 1];
      assert nodes == front + [last];
      GraphPosition(front, id);
      if last.id == id {
        assert last in nodes && LastWithId(nodes, |front|, id);
      } else if id in GraphOf(front) {
        var i: nat :| LastWithId(front, i, id) && GraphOf(front)[id] == front[i].prerequisites;
        assert LastWithId(nodes, i, id);
      }
    }
  }

  /** The edges of the graph are those of the last listed node of each id. */
  lemma GraphEdges(nodes: seq<Node>, a: string, b: string)
    ensures Edge(GraphOf(nodes), a, b) <==> Prerequisite(nodes, a, b)
  {
    GraphPosition(nodes, a);
    if Prerequisite(nodes, a, b) {
      var k: nat :| LastWithId(nodes, k, a) && b in nodes[k].prerequisites;
      assert nodes[k] in nodes;
      var i: nat :| LastWithId(nodes, i, a) && GraphOf(nodes)[a] == nodes[i].prerequisites;
      assert i == k;
    }
  }

  lemma GraphPaths(nodes: seq<Node>, a: string, b: string)
    ensures Reaches(GraphOf(nodes), a, b) <==> DependsOn(nodes, a, b)
  {
    forall x, y ensures Edge(GraphOf(nodes), x, y) <==> Prerequisite(nodes, x, y) { GraphEdges(nodes, x, y); }
    forall p ensures Leads(GraphOf(nodes), p, a, b) <==> ChainFrom(nodes, p, a, b) {
    }
  }

  lemma {:induction false} ProducerPosition(nodes: seq<Node>, artifact: string)
    ensures Producer(nodes, artifact).Some? ==>
              exists i: nat :: LastProducer(nodes, i, artifact) && nodes[i].id == Producer(nodes, artifact).value
    ensures Producer(nodes, artifact).None? ==> forall n :: n in nodes ==> artifact !in n.produces
  {
    if nodes != [] {
      var front, last := nodes[..|nodes| - 1], nodes[|nodes| - 1];
      assert nodes == front + [last];
      if artifact in last.produces {
        assert LastProducer(nodes, |front|, artifact);
      } else {
        ProducerPosition(front, artifact);
        if Producer(front, artifact).Some? {
          var i: nat :| LastProducer(front, i, artifact) && front[i].id == Producer(front, artifact).value;
          assert LastProducer(nodes, i, artifact);
        }
      }
    }
  }

  /** The producer that counts is the last listed one. */
  lemma ProducerIsLast(nodes: seq<Node>, artifact: string, i: nat)
    ensures LastProducer(nodes, i, artifact) ==> Producer(nodes, artifact) == Some(nodes[i].id)
  {
    ProducerPosition(nodes, artifact);
    if LastProducer(nodes, i, artifact) {
      assert nodes[i] in nodes;
      var k: nat :| LastProducer(nodes, k, artifact) && nodes[k].id == Producer(nodes, artifact).value;
      assert k == i;
    }
  }

  lemma {:induction false} TerminalPosition(nodes: seq<Node>, result: string)
    ensures TerminalNode(nodes, result).Some? ==>
              exists i: nat :: LastTerminal(nodes, i, result) && nodes[i].id == TerminalNode(nodes, result).value
    ensures TerminalNode(nodes, result).None? ==> forall n :: n in nodes ==> !EndsWith(n, result)
  {
    if nodes != [] {
      var front, last := nodes[..|nodes| - 1], nodes[|nodes| - 1];
      assert nodes == front + [last];
      if EndsWith(last, result) {
        assert LastTerminal(nodes, |front|, result);
      } else {
        TerminalPosition(front, result);
        if TerminalNode(front, result).Some? {
          var i: nat :| LastTerminal(front, i, result) && front[i].id == TerminalNode(front, result).value;
          assert LastTerminal(nodes, i, result);
        }
      }
    }
  }

  lemma TerminalIsLast(nodes: seq<Node>, result: string, i: nat)
    ensures LastTerminal(nodes, i, result) ==> TerminalNode(nodes, result) == Some(nodes[i].id)
  {
    TerminalPosition(nodes, result);
    if LastTerminal(nodes, i, result) {
      assert nodes[i] in nodes && EndsWith(nodes[i], result);
      var k: nat :| LastTerminal(nodes, k, result) && nodes[k].id == TerminalNode(nodes, result).value;
      assert k == i;
    }
  }

  // ----- The evidence -----

  /** The last listed producer of the artifact is a prerequisite, direct or indirect, of the terminal node. */
  ghost predicate Gates(nodes: seq<Node>, t: nat, i: nat, result: string, artifact: string) {
    LastTerminal(nodes, t, result) && LastProducer(nodes, i, artifact) && DependsOn(nodes, nodes[t].id, nodes[i].id)
  }

  ghost predicate GatedBy(nodes: seq<Node>, result: string, artifact: string, producer: string) {
    exists t: nat, i: nat :: Gates(nodes, t, i, result, artifact) && nodes[i].id == producer
  }

  /** The artifact is produced before the terminal result can be. */
  ghost predicate IsGated(nodes: seq<Node>, result: string, artifact: string) {
    exists producer :: GatedBy(nodes, result, artifact, producer)
  }

  /** Every artifact the requirement lists is gated by its terminal node. */
  ghost predicate AllGated(nodes: seq<Node>, requirement: Requirement) {
    forall a :: a in requirement.artifactIds ==> IsGated(nodes, requirement.terminalResult, a)
  }

  /** The evidence names the producers of exactly the gated artifacts, at `picks`, in the order they are listed. */
  ghost predicate Picked(nodes: seq<Node>, result: string, artifactIds: seq<string>, picks: seq<nat>,
                         gated: seq<string>)
  {
    && |picks| == |gated| && (forall m, n :: 0 <= m < n < |picks| ==> picks[m] < picks[n])
    && (forall m :: 0 <= m < |picks| ==>
          picks[m] < |artifactIds| && GatedBy(nodes, result, artifactIds[picks[m]], gated[m]))
    && (forall k: nat :: k < |artifactIds| && IsGated(nodes, result, artifactIds[k]) ==> k in picks)
  }

  /** What the evidence holds for one requirement. */
  ghost predicate EvidenceFor(nodes: seq<Node>, requirement: Requirement, gated: seq<string>) {
    exists picks :: Picked(nodes, requirement.terminalResult, requirement.artifactIds, picks, gated)
  }

  ghost predicate Recorded(nodes: seq<Node>, q: Requirement, evidence: map<string, seq<string>>) {
    q.terminalResult in evidence && EvidenceFor(nodes, q, evidence[q.terminalResult])
  }

  /** With the terminal node and what it depends on at hand, gating is a look-up. */
  lemma GatedByLookup(nodes: seq<Node>, result: string, artifact: string, reachable: set<string>, producer: string)
    requires TerminalNode(nodes, result).Some?
    requires ReachableSet(GraphOf(nodes), TerminalNode(nodes, result).value, reachable)
    ensures GatedBy(nodes, result, artifact, producer) <==>
            Producer(nodes, artifact) == Some(producer) && producer in reachable
  {
    TerminalPosition(nodes, result);
    ProducerPosition(nodes, artifact);
    GraphPaths(nodes, TerminalNode(nodes, result).value, producer);
    if GatedBy(nodes, result, artifact, producer) {
      var t: nat, i: nat :| Gates(nodes, t, i, result, artifact) && nodes[i].id == producer;
      TerminalIsLast(nodes, result, t);
      ProducerIsLast(nodes, artifact, i);
    }
    if Producer(nodes, artifact) == Some(producer) && producer in reachable {
      var t: nat :| LastTerminal(nodes, t, result) && nodes[t].id == TerminalNode(nodes, result).value;
      var i: nat :| LastProducer(nodes, i, artifact) && nodes[i].id == producer;
      assert Gates(nodes, t, i, result, artifact);
    }
  }

  lemma IsGatedLookup(nodes: seq<Node>, result: string, artifact: string, reachable: set<string>)
    requires TerminalNode(nodes, result).Some?
    requires ReachableSet(GraphOf(nodes), TerminalNode(nodes, result).value, reachable)
    ensures IsGated(nodes, result, artifact) <==> ProducedIn(nodes, artifact, reachable)
    ensures IsGated(nodes, result, artifact) ==> GatedBy(nodes, result, artifact, Producer(nodes, artifact).value)
  {
    forall producer ensures GatedBy(nodes, result, artifact, producer) <==>
                            Producer(nodes, artifact) == Some(producer) && producer in reachable
    {
      GatedByLookup(nodes, result, artifact, reachable, producer);
    }
  }

  lemma {:induction false} GatedPicks(nodes: seq<Node>, result: string, artifactIds: seq<string>,
                                      reachable: set<string>)
    returns (picks: seq<nat>)
    requires TerminalNode(nodes, result).Some?
    requires ReachableSet(GraphOf(nodes), TerminalNode(nodes, result).value, reachable)
    ensures Picked(nodes, result, artifactIds, picks, Gated(artifactIds, nodes, reachable))
  {
    picks := [];
    if artifactIds != [] {
      var front, last := artifactIds[..|artifactIds| - 1], artifactIds[|artifactIds| - 1];
      var before := GatedPicks(nodes, result, front, reachable);
      IsGatedLookup(nodes, result, last, reachable);
      if ProducedIn(nodes, last, reachable) {
        picks := before + [|front|];
        PickMore(nodes, result, front, last, before, Gated(front, nodes, reachable), Producer(nodes, last).value);
      } else {
        picks := before;
        PickSame(nodes, result, front, last, before, Gated(front, nodes, reachable));
      }
      assert artifactIds == front + [last];
    }
  }

  lemma PickMore(nodes: seq<Node>, result: string, front: seq<string>, last: string, picks: seq<nat>,
                 gated: seq<string>, producer: string)
    requires Picked(nodes, result, front, picks, gated) && GatedBy(nodes, result, last, producer)
    ensures Picked(nodes, result, front + [last], picks + [|front|], gated + [producer])
  {
    var all, more := front + [last], picks + [|front|];
    forall k: nat | k < |all| && IsGated(nodes, result, all[k]) ensures k in more {
      if k < |front| {
        assert all[k] == front[k] && k in picks;
      } else {
        assert more[|picks|] == k;
      }
    }
  }

  lemma PickSame(nodes: seq<Node>, result: string, front: seq<string>, last: string, picks: seq<nat>,
                 gated: seq<string>)
    requires Picked(nodes, result, front, picks, gated) && !IsGated(nodes, result, last)
    ensures Picked(nodes, result, front + [last], picks, gated)
  {
    var all := front + [last];
    forall k: nat | k < |all| && IsGated(nodes, result, all[k]) ensures k in picks {
      assert k < |front| && all[k] == front[k];
    }
  }

  /** Without a terminal node nothing is gated. */
  lemma NothingGated(nodes: seq<Node>, requirement: Requirement)
    requires TerminalNode(nodes, requirement.terminalResult).None?
    ensures EvidenceFor(nodes, requirement, [])
  {
    var result, ids := requirement.terminalResult, requirement.artifactIds;
    TerminalPosition(nodes, result);
    forall t: nat ensures !LastTerminal(nodes, t, result) {
      if LastTerminal(nodes, t, result) { assert nodes[t] in nodes && EndsWith(nodes[t], result); }
    }
    assert Picked(nodes, result, ids, [], []);
  }

  lemma SomethingGated(nodes: seq<Node>, requirement: Requirement, reachable: set<string>)
    requires TerminalNode(nodes, requirement.terminalResult).Some?
    requires ReachableSet(GraphOf(nodes), TerminalNode(nodes, requirement.terminalResult).value, reachable)
    ensures EvidenceFor(nodes, requirement, Gated(requirement.artifactIds, nodes, reachable))
  {
    var picks := GatedPicks(nodes, requirement.terminalResult, requirement.artifactIds, reachable);
  }

  /** Terminal results are not repeated among the requirements. */
  ghost predicate DistinctTerminals(requirements: seq<Requirement>) {
    forall i, j :: 0 <= i < j < |requirements| ==> requirements[i].terminalResult != requirements[j].terminalResult
  }

  /** The terminal node of the result depends on an id that no node has. */
  ghost predicate DependsOnUnlisted(nodes: seq<Node>, result: string) {
    exists t: nat, x :: LastTerminal(nodes, t, result) && DependsOn(nodes, nodes[t].id, x) && !Listed(nodes, x)
  }

  /** Some requirement's terminal node depends on an id that no node has. */
  ghost predicate Dangling(nodes: seq<Node>, requirements: seq<Requirement>) {
    exists q :: q in requirements && DependsOnUnlisted(nodes, q.terminalResult)
  }

  lemma DanglingLookup(nodes: seq<Node>, result: string)
    ensures DependsOnUnlisted(nodes, result) <==>
            TerminalNode(nodes, result).Some? && MissingFrom(GraphOf(nodes), TerminalNode(nodes, result).value)
  {
    TerminalPosition(nodes, result);
    forall x ensures x in GraphOf(nodes) <==> Listed(nodes, x) { GraphPosition(nodes, x); }
    if DependsOnUnlisted(nodes, result) {
      var t: nat, x :| LastTerminal(nodes, t, result) && DependsOn(nodes, nodes[t].id, x) && !Listed(nodes, x);
      TerminalIsLast(nodes, result, t);
      GraphPaths(nodes, nodes[t].id, x);
    }
    if TerminalNode(nodes, result).Some? && MissingFrom(GraphOf(nodes), TerminalNode(nodes, result).value) {
      var t: nat :| LastTerminal(nodes, t, result) && nodes[t].id == TerminalNode(nodes, result).value;
      assert nodes[t] in nodes && Listed(nodes, nodes[t].id);
      var x :| Reaches(GraphOf(nodes), nodes[t].id, x) && x !in GraphOf(nodes);
      GraphPaths(nodes, nodes[t].id, x);
    }
  }

  /** `_terminal_gated_artifact_producers`; none stands for a `KeyError`. */
  method TerminalGatedArtifactProducers(nodes: seq<Node>, requirements: seq<Requirement>)
    returns (r: Option<map<string, seq<string>>>)
    requires DistinctTerminals(requirements)
    ensures r.None? <==> Dangling(nodes, requirements)
    ensures r.Some? ==> forall q :: q in requirements ==> Recorded(nodes, q, r.value)
  {
    var graph := GraphOf(nodes);
    var producers := ProducersByArtifact(nodes);
    var terminals := TerminalNodes(nodes);
    var evidence: map<string, seq<string>> := map[];
    for i := 0 to |requirements|
      invariant forall j :: 0 <= j < i ==> Recorded(nodes, requirements[j], evidence)
      invariant !Dangling(nodes, requirements[..i])
    {
      var q := requirements[i];
      assert requirements[..i + 1] == requirements[..i] + [q];
      DanglingLookup(nodes, q.terminalResult);
      if q.terminalResult !in terminals {
        NothingGated(nodes, q);
        evidence := evidence[q.terminalResult := []];
        continue;
      }
      var reachable := TransitivePrerequisites(graph, terminals[q.terminalResult]);
      if reachable.None? {
        assert q in requirements;
        return None;
      }
      var gated := GatedProducers(q.artifactIds, nodes, producers, reachable.value);
      SomethingGated(nodes, q, reachable.value);
      evidence := evidence[q.terminalResult := gated];
    }
    assert requirements[..|requirements|] == requirements;
    return Some(evidence);
  }

  lemma {:induction false} IncreasingBound(picks: seq<nat>, bound: nat)
    requires forall m, n :: 0 <= m < n < |picks| ==> picks[m] < picks[n]
    requires forall m :: 0 <= m < |picks| ==> picks[m] < bound
    ensures |picks| <= bound
    ensures |picks| == bound ==> forall m :: 0 <= m < bound ==> picks[m] == m
  {
    if picks != [] {
      var n := |picks| - 1;
      IncreasingBound(picks[..n], picks[n]);
    }
  }

  lemma {:induction false} FullPicks(picks: seq<nat>, bound: nat)
    requires forall m, n :: 0 <= m < n < |picks| ==> picks[m] < picks[n]
    requires forall k: nat :: k < bound ==> k in picks
    ensures |picks| >= bound
  {
    if bound > 0 {
      assert bound - 1 in picks;
      var n :| 0 <= n < |picks| && picks[n] == bound - 1;
      forall k: nat | k < bound - 1 ensures k in picks[..n] {
        assert k in picks;
        var m :| 0 <= m < |picks| && picks[m] == k;
        assert m < n;
        assert picks[..n][m] == k;
      }
      FullPicks(picks[..n], bound - 1);
    }
  }

  /** The readiness check on lengths passes exactly when every required artifact is gated. */
  lemma LengthCheckExact(nodes: seq<Node>, requirement: Requirement, gated: seq<string>)
    requires EvidenceFor(nodes, requirement, gated)
    ensures |gated| == |requirement.artifactIds| <==> AllGated(nodes, requirement)
  {
    var ids, result := requirement.artifactIds, requirement.terminalResult;
    var picks: seq<nat> :| Picked(nodes, result, ids, picks, gated);
    IncreasingBound(picks, |ids|);
    if AllGated(nodes, requirement) {
      forall k: nat | k < |ids| ensures k in picks { assert ids[k] in ids; }
      FullPicks(picks, |ids|);
    }
    if |gated| == |ids| {
      forall a | a in ids ensures IsGated(nodes, result, a) {
        var k :| 0 <= k < |ids| && ids[k] == a;
        assert picks[k] == k;
      }
    }
  }
}
