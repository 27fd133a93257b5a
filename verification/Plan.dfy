/** Cross-field well-formedness of a compiled plan. */
module Plan {
  import opened Basics

  datatype Binding = Binding(toolId: string, toolVersion: string)

  datatype Node = Node(
    id: string,
    toolName: string,
    binding: Binding,
    prerequisites: seq<string>,
    required: bool,
    terminalResult: Option<string>,
    capabilities: seq<string>,
    produces: seq<string>)

  datatype Requirement = Requirement(terminalResult: string, artifactIds: seq<string>)

  datatype Plan = Plan(
    nodes: seq<Node>,
    capabilities: seq<string>,
    terminalResultMap: map<string, string>,
    declaredArtifacts: seq<string>,
    requiredByTerminal: seq<Requirement>)

  datatype Violation =
    | DuplicateNodeId
    | DuplicateToolName
    | DuplicateBinding
    | NoTerminalNode
    | RequiredTerminal(node: string)
    | UnknownPrerequisite(node: string, prerequisite: string)
    | SelfPrerequisite(node: string)
    | UndeclaredCapability(node: string, capability: string)
    | UndeclaredArtifact(node: string, artifact: string)
    | TerminalKeys
    | TerminalValue(node: string)
    | UnknownTerminalResult(result: string)
    | RequiredUndeclared(artifact: string)
    | RequiredUnproduced(artifact: string)

  function Ids(nodes: seq<Node>): (r: seq<string>)
    ensures |r| == |nodes| && forall i :: 0 <= i < |r| ==> r[i] == nodes[i].id
  {
    seq(|nodes|, i requires 0 <= i < |nodes| => nodes[i].id)
  }

  function ToolNames(nodes: seq<Node>): (r: seq<string>)
    ensures |r| == |nodes| && forall i :: 0 <= i < |r| ==> r[i] == nodes[i].toolName
  {
    seq(|nodes|, i requires 0 <= i < |nodes| => nodes[i].toolName)
  }

  function Bindings(nodes: seq<Node>): (r: seq<Binding>)
    ensures |r| == |nodes| && forall i :: 0 <= i < |r| ==> r[i] == nodes[i].binding
  {
    seq(|nodes|, i requires 0 <= i < |nodes| => nodes[i].binding)
  }

  predicate Terminal(node: Node) {
    node.terminalResult.Some? && node.terminalResult.value != ""
  }

  /** The terminal node of an id: of nodes with one id the last listed counts. */
  function TerminalOf(nodes: seq<Node>, id: string): (r: Option<Node>)
    ensures r.Some? ==> r.value in nodes && r.value.id == id && Terminal(r.value)
    ensures r.None? ==> forall n :: n in nodes && n.id == id ==> !Terminal(n)
  {
    if nodes == [] then None
    else
      var last := nodes[|nodes| - 1];
      assert nodes == nodes[..|nodes| - 1] + [last];
      if last.id == id && Terminal(last) then Some(last) else TerminalOf(nodes[..|nodes| - 1], id)
  }

  ghost predicate ProducedBy(nodes: seq<Node>, artifact: string) {
    exists n :: n in nodes && artifact in n.produces
  }

  ghost predicate ResultOf(nodes: seq<Node>, result: string) {
    exists n :: n in nodes && n.terminalResult == Some(result)
  }

  // ----- What a violation reports -----

  /** What a violation about one node says of that node. */
  /** The terminal node of an id that counts is the last listed one. */
  lemma {:induction false} TerminalIsLast(nodes: seq<Node>, id: string, i: int)
    requires 0 <= i < |nodes| && nodes[i].id == id && Terminal(nodes[i])
    requires forall j :: i < j < |nodes| ==> !(nodes[j].id == id && Terminal(nodes[j]))
    ensures TerminalOf(nodes, id) == Some(nodes[i])
    decreases |nodes|
  {
    if i < |nodes| - 1 { TerminalIsLast(nodes[..|nodes| - 1], id, i); }
  }

  predicate NodeViolates(plan: Plan, node: Node, v: Violation) {
    match v
    case RequiredTerminal(id) => id == node.id && node.terminalResult.Some? && node.required
    case UnknownPrerequisite(id, p) => id == node.id && p in node.prerequisites && p !in Ids(plan.nodes)
    case SelfPrerequisite(id) => id == node.id && id in node.prerequisites
    case UndeclaredCapability(id, c) => id == node.id && c in node.capabilities && c !in plan.capabilities
    case UndeclaredArtifact(id, a) => id == node.id && a in node.produces && a !in plan.declaredArtifacts
    case _ => false
  }

  ghost predicate RequirementViolates(plan: Plan, q: Requirement, v: Violation) {
    match v
    case UnknownTerminalResult(t) => t == q.terminalResult && !ResultOf(plan.nodes, t)
    case RequiredUndeclared(a) => a in q.artifactIds && a !in plan.declaredArtifacts
    case RequiredUnproduced(a) => a in q.artifactIds && !ProducedBy(plan.nodes, a)
    case _ => false
  }

  ghost predicate PlanViolates(plan: Plan, v: Violation) {
    match v
    case DuplicateNodeId => !Distinct(Ids(plan.nodes))
    case DuplicateToolName => !Distinct(ToolNames(plan.nodes))
    case DuplicateBinding => !Distinct(Bindings(plan.nodes))
    case NoTerminalNode => forall n :: n in plan.nodes ==> !Terminal(n)
    case TerminalKeys => !(forall id :: id in plan.terminalResultMap <==> TerminalOf(plan.nodes, id).Some?)
    case TerminalValue(id) =>
      id in plan.terminalResultMap && TerminalOf(plan.nodes, id).Some? &&
      TerminalOf(plan.nodes, id).value.terminalResult != Some(plan.terminalResultMap[id])
    case _ => false
  }

  /** The violation really is one. */
  ghost predicate Violates(plan: Plan, v: Violation) {
    || PlanViolates(plan, v)
    || (exists n :: n in plan.nodes && NodeViolates(plan, n, v))
    || (exists q :: q in plan.requiredByTerminal && RequirementViolates(plan, q, v))
  }

  // ----- The checker -----

  function TerminalIds(nodes: seq<Node>): set<string> {
    set n | n in nodes && Terminal(n) :: n.id
  }

  lemma TerminalIdsExact(nodes: seq<Node>, id: string)
    ensures id in TerminalIds(nodes) <==> TerminalOf(nodes, id).Some?
  {
    if TerminalOf(nodes, id).Some? { assert TerminalOf(nodes, id).value in nodes; }
    if id in TerminalIds(nodes) { var n :| n in nodes && Terminal(n) && n.id == id; }
  }

  /** `len(set(xs)) != len(xs)`. */
  method HasDuplicate<T(==, !new)>(xs: seq<T>) returns (duplicate: bool)
    ensures duplicate <==> !Distinct(xs)
  {
    DistinctSize(xs);
    duplicate := |set x | x in xs| != |xs|;
  }

  method HasTerminal(nodes: seq<Node>) returns (found: bool)
    ensures found <==> exists n :: n in nodes && Terminal(n)
  {
    var terminals := set n | n in nodes && Terminal(n);
    found := terminals != {};
    if found {
      assert exists n :: n in terminals;
    } else {
      forall n | n in nodes ensures !Terminal(n) {
        assert n !in terminals;
      }
    }
  }

  /** The checks on the node list as a whole. */
  method CheckNodeList(plan: Plan) returns (vs: seq<Violation>)
    ensures forall v :: v in vs <==>
              PlanViolates(plan, v) && (v.DuplicateNodeId? || v.DuplicateToolName? || v.DuplicateBinding? ||
                                        v.NoTerminalNode?)
  {
    vs := [];
    var ids := HasDuplicate(Ids(plan.nodes));
    if ids {
      vs := vs + [DuplicateNodeId];
    }
    var names := HasDuplicate(ToolNames(plan.nodes));
    if names {
      vs := vs + [DuplicateToolName];
    }
    var bindings := HasDuplicate(Bindings(plan.nodes));
    if bindings {
      vs := vs + [DuplicateBinding];
    }
    var terminal := HasTerminal(plan.nodes);
    if !terminal {
      vs := vs + [NoTerminalNode];
    }
  }

  method CheckPrerequisites(plan: Plan, node: Node) returns (vs: seq<Violation>)
    ensures forall v :: v in vs <==> NodeViolates(plan, node, v) && (v.UnknownPrerequisite? || v.SelfPrerequisite?)
  {
    vs := [];
    for i := 0 to |node.prerequisites|
      invariant forall v :: v in vs <==>
                  (|| (v.UnknownPrerequisite? && v.node == node.id && v.prerequisite in node.prerequisites[..i] &&
                       v.prerequisite !in Ids(plan.nodes))
                   || (v.SelfPrerequisite? && v.node == node.id && node.id in node.prerequisites[..i]))
    {
      var p := node.prerequisites[i];
      assert node.prerequisites[..i + 1] == node.prerequisites[..i] + [p];
      if p !in Ids(plan.nodes) {
        vs := vs + [UnknownPrerequisite(node.id, p)];
      }
      if p == node.id {
        vs := vs + [SelfPrerequisite(node.id)];
      }
    }
    assert node.prerequisites[..|node.prerequisites|] == node.prerequisites;
  }

  method CheckCapabilities(plan: Plan, node: Node) returns (vs: seq<Violation>)
    ensures forall v :: v in vs <==> NodeViolates(plan, node, v) && v.UndeclaredCapability?
  {
    vs := [];
    for i := 0 to |node.capabilities|
      invariant forall v :: v in vs <==>
                  (v.UndeclaredCapability? && v.node == node.id && v.capability in node.capabilities[..i] &&
                   v.capability !in plan.capabilities)
    {
      var c := node.capabilities[i];
      assert node.capabilities[..i + 1] == node.capabilities[..i] + [c];
      if c !in plan.capabilities {
        vs := vs + [UndeclaredCapability(node.id, c)];
      }
    }
    assert node.capabilities[..|node.capabilities|] == node.capabilities;
  }

  method CheckProduced(plan: Plan, node: Node) returns (vs: seq<Violation>)
    ensures forall v :: v in vs <==> NodeViolates(plan, node, v) && v.UndeclaredArtifact?
  {
    vs := [];
    for i := 0 to |node.produces|
      invariant forall v :: v in vs <==>
                  (v.UndeclaredArtifact? && v.node == node.id && v.artifact in node.produces[..i] &&
                   v.artifact !in plan.declaredArtifacts)
    {
      var a := node.produces[i];
      assert node.produces[..i + 1] == node.produces[..i] + [a];
      if a !in plan.declaredArtifacts {
        vs := vs + [UndeclaredArtifact(node.id, a)];
      }
    }
    assert node.produces[..|node.produces|] == node.produces;
  }

  /** The body of the loop over the nodes. */
  method CheckNode(plan: Plan, node: Node) returns (vs: seq<Violation>)
    ensures forall v :: v in vs <==> NodeViolates(plan, node, v)
  {
    vs := [];
    if node.terminalResult.Some? && node.required {
      vs := [RequiredTerminal(node.id)];
    }
    var prerequisites := CheckPrerequisites(plan, node);
    var capabilities := CheckCapabilities(plan, node);
    var produced := CheckProduced(plan, node);
    vs := vs + prerequisites + capabilities + produced;
  }

  /** The checks on the map from terminal nodes to terminal results. */
  method CheckTerminalMap(plan: Plan) returns (vs: seq<Violation>)
    ensures forall v :: v in vs <==> PlanViolates(plan, v) && (v.TerminalKeys? || v.TerminalValue?)
  {
    vs := [];
    forall id ensures id in TerminalIds(plan.nodes) <==> TerminalOf(plan.nodes, id).Some? {
      TerminalIdsExact(plan.nodes, id);
    }
    if plan.terminalResultMap.Keys != TerminalIds(plan.nodes) {
      vs := [TerminalKeys];
    }
    ghost var all := plan.terminalResultMap.Keys;
    var rest := plan.terminalResultMap.Keys;
    while rest != {}
      invariant rest <= all
      invariant forall v :: v in vs <==>
                PlanViolates(plan, v) && (v.TerminalKeys? || (v.TerminalValue? && v.node in all - rest))
      decreases |rest|
    {
      var id :| id in rest;
      var terminal := TerminalOf(plan.nodes, id);
      if terminal.Some? && terminal.value.terminalResult != Some(plan.terminalResultMap[id]) {
        vs := vs + [TerminalValue(id)];
      }
      rest := rest - {id};
    }
  }

  /** The body of the loop over the terminal requirements. */
  method CheckRequirement(plan: Plan, q: Requirement, results: set<string>, produced: set<string>)
    returns (vs: seq<Violation>)
    requires forall t :: t in results <==> ResultOf(plan.nodes, t)
    requires forall a :: a in produced <==> ProducedBy(plan.nodes, a)
    ensures forall v :: v in vs <==> RequirementViolates(plan, q, v)
  {
    vs := [];
    if q.terminalResult !in results {
      vs := [UnknownTerminalResult(q.terminalResult)];
    }
    for i := 0 to |q.artifactIds|
      invariant forall v :: v in vs <==>
                  (|| (v.UnknownTerminalResult? && RequirementViolates(plan, q, v))
                   || (v.RequiredUndeclared? && v.artifact in q.artifactIds[..i] &&
                       v.artifact !in plan.declaredArtifacts)
                   || (v.RequiredUnproduced? && v.artifact in q.artifactIds[..i] && v.artifact !in produced))
    {
      var a := q.artifactIds[i];
      assert q.artifactIds[..i + 1] == q.artifactIds[..i] + [a];
      if a !in plan.declaredArtifacts {
        vs := vs + [RequiredUndeclared(a)];
      }
      if a !in produced {
        vs := vs + [RequiredUnproduced(a)];
      }
    }
    assert q.artifactIds[..|q.artifactIds|] == q.artifactIds;
  }

  /** `validate_plan_invariants`: lists exactly the violations of the plan. */
  method ValidatePlanInvariants(plan: Plan) returns (violations: seq<Violation>)
    ensures forall v :: v in violations <==> Violates(plan, v)
  {
    violations := CheckNodeList(plan);
    ghost var listed := violations;
    for i := 0 to |plan.nodes|
      invariant forall v :: v in violations <==>
                v in listed || exists n :: n in plan.nodes[..i] && NodeViolates(plan, n, v)
    {
      assert plan.nodes[..i + 1] == plan.nodes[..i] + [plan.nodes[i]];
      var found := CheckNode(plan, plan.nodes[i]);
      violations := violations + found;
    }
    assert plan.nodes[..|plan.nodes|] == plan.nodes;
    var mapped := CheckTerminalMap(plan);
    violations := violations + mapped;
    ghost var before := violations;
    var results := set n | n in plan.nodes && n.terminalResult.Some? :: n.terminalResult.value;
    var produced := set n, a | n in plan.nodes && a in n.produces :: a;
    for i := 0 to |plan.requiredByTerminal|
      invariant forall v :: v in violations <==>
                  v in before || exists q :: q in plan.requiredByTerminal[..i] && RequirementViolates(plan, q, v)
    {
      var q := plan.requiredByTerminal[i];
      assert plan.requiredByTerminal[..i + 1] == plan.requiredByTerminal[..i] + [q];
      var found := CheckRequirement(plan, q, results, produced);
      violations := violations + found;
    }
    assert plan.requiredByTerminal[..|plan.requiredByTerminal|] == plan.requiredByTerminal;
  }

  // ----- What an empty list means -----

  ghost predicate NodeWellFormed(plan: Plan, node: Node) {
    && (node.terminalResult.Some? ==> !node.required)
    && (forall p :: p in node.prerequisites ==> p != node.id && exists n :: n in plan.nodes && n.id == p)
    && (forall c :: c in node.capabilities ==> c in plan.capabilities)
    && (forall a :: a in node.produces ==> a in plan.declaredArtifacts)
  }

  ghost predicate RequirementWellFormed(plan: Plan, q: Requirement) {
    && ResultOf(plan.nodes, q.terminalResult)
    && (forall a :: a in q.artifactIds ==> a in plan.declaredArtifacts && ProducedBy(plan.nodes, a))
  }

  /** The terminal map names exactly the terminal nodes, with their results. */
  ghost predicate MapWellFormed(plan: Plan) {
    && (forall n :: n in plan.nodes && Terminal(n) ==>
        n.id in plan.terminalResultMap && n.terminalResult == Some(plan.terminalResultMap[n.id]))
    && (forall id :: id in plan.terminalResultMap ==> exists n :: n in plan.nodes && Terminal(n) && n.id == id)
  }

  ghost predicate WellFormed(plan: Plan) {
    && Distinct(Ids(plan.nodes)) && Distinct(ToolNames(plan.nodes)) && Distinct(Bindings(plan.nodes))
    && (exists n :: n in plan.nodes && Terminal(n))
    && (forall n :: n in plan.nodes ==> NodeWellFormed(plan, n))
    && MapWellFormed(plan)
    && (forall q :: q in plan.requiredByTerminal ==> RequirementWellFormed(plan, q))
  }

  lemma TerminalUnique(nodes: seq<Node>, n: Node)
    requires Distinct(Ids(nodes)) && n in nodes && Terminal(n)
    ensures TerminalOf(nodes, n.id) == Some(n)
  {
    var m := TerminalOf(nodes, n.id).value;
    var i :| 0 <= i < |nodes| && nodes[i] == n;
    var j :| 0 <= j < |nodes| && nodes[j] == m;
    assert Ids(nodes)[i] == Ids(nodes)[j];
    assert i == j;
  }

  lemma KnownId(nodes: seq<Node>, id: string)
    ensures id in Ids(nodes) <==> exists n :: n in nodes && n.id == id
  {
    if id in Ids(nodes) {
      var i :| 0 <= i < |nodes| && Ids(nodes)[i] == id;
      assert nodes[i] in nodes;
    }
    if exists n :: n in nodes && n.id == id {
      var n :| n in nodes && n.id == id;
      var i :| 0 <= i < |nodes| && nodes[i] == n;
      assert Ids(nodes)[i] == id;
    }
  }

  lemma NodeExact(plan: Plan, node: Node)
    ensures (forall v :: !NodeViolates(plan, node, v)) <==> NodeWellFormed(plan, node)
  {
    forall p ensures p in Ids(plan.nodes) <==> exists n :: n in plan.nodes && n.id == p { KnownId(plan.nodes, p); }
    if forall v :: !NodeViolates(plan, node, v) {
      assert !NodeViolates(plan, node, RequiredTerminal(node.id)) &&
          !NodeViolates(plan, node, SelfPrerequisite(node.id));
      forall p | p in node.prerequisites ensures p != node.id && p in Ids(plan.nodes) {
        assert !NodeViolates(plan, node, UnknownPrerequisite(node.id, p));
      }
      forall c | c in node.capabilities ensures c in plan.capabilities {
        assert !NodeViolates(plan, node, UndeclaredCapability(node.id, c));
      }
      forall a | a in node.produces ensures a in plan.declaredArtifacts {
        assert !NodeViolates(plan, node, UndeclaredArtifact(node.id, a));
      }
    }
  }

  lemma RequirementExact(plan: Plan, q: Requirement)
    ensures (forall v :: !RequirementViolates(plan, q, v)) <==> RequirementWellFormed(plan, q)
  {
    if forall v :: !RequirementViolates(plan, q, v) {
      assert !RequirementViolates(plan, q, UnknownTerminalResult(q.terminalResult));
      forall a | a in q.artifactIds ensures a in plan.declaredArtifacts && ProducedBy(plan.nodes, a) {
        assert !RequirementViolates(plan, q, RequiredUndeclared(a)) &&
            !RequirementViolates(plan, q, RequiredUnproduced(a));
      }
    }
  }

  /** No violation of the terminal map, entry by entry. */
  ghost predicate MapClean(plan: Plan) {
    && (forall id :: id in plan.terminalResultMap <==> TerminalOf(plan.nodes, id).Some?)
    && (forall id :: id in plan.terminalResultMap && TerminalOf(plan.nodes, id).Some? ==>
          TerminalOf(plan.nodes, id).value.terminalResult == Some(plan.terminalResultMap[id]))
  }

  lemma MapCleanMeans(plan: Plan)
    ensures !PlanViolates(plan, TerminalKeys) && (forall id :: !PlanViolates(plan, TerminalValue(id))) <==>
            MapClean(plan)
  {
    if forall id :: !PlanViolates(plan, TerminalValue(id)) {
      forall id | id in plan.terminalResultMap && TerminalOf(plan.nodes, id).Some?
        ensures TerminalOf(plan.nodes, id).value.terminalResult == Some(plan.terminalResultMap[id])
      {
        assert !PlanViolates(plan, TerminalValue(id));
      }
    }
  }

  lemma MapCleanForward(plan: Plan)
    requires Distinct(Ids(plan.nodes)) && MapClean(plan)
    ensures MapWellFormed(plan)
  {
    forall n | n in plan.nodes && Terminal(n)
      ensures n.id in plan.terminalResultMap && n.terminalResult == Some(plan.terminalResultMap[n.id])
    {
      TerminalUnique(plan.nodes, n);
    }
    forall id | id in plan.terminalResultMap ensures exists n :: n in plan.nodes && Terminal(n) && n.id == id {
      assert TerminalOf(plan.nodes, id).value in plan.nodes;
    }
  }

  lemma MapCleanBack(plan: Plan)
    requires MapWellFormed(plan)
    ensures MapClean(plan)
  {
    forall id ensures id in plan.terminalResultMap <==> TerminalOf(plan.nodes, id).Some? {
      if TerminalOf(plan.nodes, id).Some? { assert TerminalOf(plan.nodes, id).value in plan.nodes; }
    }
  }

  lemma MapExact(plan: Plan)
    requires Distinct(Ids(plan.nodes))
    ensures !PlanViolates(plan, TerminalKeys) && (forall id :: !PlanViolates(plan, TerminalValue(id))) <==>
            MapWellFormed(plan)
  {
    MapCleanMeans(plan);
    if MapClean(plan) { MapCleanForward(plan); }
    if MapWellFormed(plan) { MapCleanBack(plan); }
  }

  /** No violation can be reported exactly when the plan is well formed. */
  lemma NoViolationsExact(plan: Plan)
    ensures (forall v :: !Violates(plan, v)) <==> WellFormed(plan)
  {
    forall n | n in plan.nodes ensures (forall v :: !NodeViolates(plan, n, v)) <==> NodeWellFormed(plan, n) {
      NodeExact(plan, n);
    }
    forall q | q in plan.requiredByTerminal
      ensures (forall v :: !RequirementViolates(plan, q, v)) <==> RequirementWellFormed(plan, q)
    {
      RequirementExact(plan, q);
    }
    if Distinct(Ids(plan.nodes)) { MapExact(plan); }
    if forall v :: !Violates(plan, v) {
      assert !Violates(plan, DuplicateNodeId) && !Violates(plan, DuplicateToolName) &&
          !Violates(plan, DuplicateBinding);
      assert !Violates(plan, NoTerminalNode) && !Violates(plan, TerminalKeys);
      forall id ensures !PlanViolates(plan, TerminalValue(id)) { assert !Violates(plan, TerminalValue(id)); }
      forall n, v | n in plan.nodes ensures !NodeViolates(plan, n, v) { assert !Violates(plan, v); }
      forall q, v | q in plan.requiredByTerminal ensures !RequirementViolates(plan, q, v) { assert !Violates(plan, v); }
    }
    if WellFormed(plan) {
      forall v ensures !PlanViolates(plan, v) {
        if v.TerminalValue? { assert !PlanViolates(plan, TerminalValue(v.node)); }
      }
    }
  }

  /** Every terminal result given is nonempty, and no two entries of the map have one value. */
  ghost predicate FieldsValid(plan: Plan) {
    && (forall n :: n in plan.nodes && n.terminalResult.Some? ==> n.terminalResult.value != "")
    && (forall a, b :: a in plan.terminalResultMap && b in plan.terminalResultMap && a != b ==>
          plan.terminalResultMap[a] != plan.terminalResultMap[b])
  }

  /**
   On a plan without violations the terminal map is a bijection between the terminal nodes and
   their results: every terminal result belongs to exactly one node, the one the map names.
   */
  lemma TerminalMapBijective(plan: Plan)
    requires WellFormed(plan) && FieldsValid(plan)
    ensures forall n, m ::
              n in plan.nodes && m in plan.nodes && n.terminalResult.Some? && n.terminalResult == m.terminalResult ==>
                n == m
    ensures forall id, t :: id in plan.terminalResultMap && plan.terminalResultMap[id] == t <==>
                            exists n :: n in plan.nodes && n.id == id && n.terminalResult == Some(t)
    ensures forall q :: q in plan.requiredByTerminal ==>
              exists id :: id in plan.terminalResultMap && plan.terminalResultMap[id] == q.terminalResult
  {
    forall n, m | n in plan.nodes && m in plan.nodes && n.terminalResult.Some? && n.terminalResult == m.terminalResult
      ensures n == m
    {
      assert Terminal(n) && Terminal(m);
      assert n.id == m.id;
      TerminalUnique(plan.nodes, n);
      TerminalUnique(plan.nodes, m);
    }
    forall q | q in plan.requiredByTerminal
      ensures exists id :: id in plan.terminalResultMap && plan.terminalResultMap[id] == q.terminalResult
    {
      assert RequirementWellFormed(plan, q);
      var n :| n in plan.nodes && n.terminalResult == Some(q.terminalResult);
      assert Terminal(n);
      assert n.id in plan.terminalResultMap;
    }
    forall id, t | exists n :: n in plan.nodes && n.id == id && n.terminalResult == Some(t)
      ensures id in plan.terminalResultMap && plan.terminalResultMap[id] == t
    {
      var n :| n in plan.nodes && n.id == id && n.terminalResult == Some(t);
      assert Terminal(n);
    }
  }
}
