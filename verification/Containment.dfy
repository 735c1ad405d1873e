/** Deny-arm containment: which values can reach the circuit's output without a later decision. */
module Containment {
  import opened Ast

  datatype Part = Part(instance: string, component: string)

  /** A component's contract: `arms[0]` is the allow-role arm. */
  datatype Contract = Contract(decision: bool, arms: seq<string>)

  datatype Edge = Edge(fromNode: string, fromPort: string, toNode: string)

  const OUT := "OUT"

  type Registry = map<string, Contract>

  predicate Decides(registry: Registry, component: string) {
    component in registry && registry[component].decision && registry[component].arms != []
  }

  /** The decision parts; a repeated instance keeps its last declaration's arms. */
  function NonAllowArms(parts: seq<Part>, registry: Registry): map<string, seq<string>> {
    if parts == [] then map[]
    else
      var before := NonAllowArms(parts[..|parts| - 1], registry);
      var part := parts[|parts| - 1];
      if Decides(registry, part.component) then before[part.instance := registry[part.component].arms[1..]] else before
  }

  /** One step of a walk: an edge of the graph that leaves a declared node. */
  predicate Linked(nodes: seq<string>, edges: seq<Edge>, a: string, b: string) {
    a in nodes && exists e :: e in edges && e.fromNode == a && e.toNode == b
  }

  /** A walk that enters no decision part before its last node. */
  ghost predicate OpenWalk(nodes: seq<string>, edges: seq<Edge>, barriers: set<string>, walk: seq<string>) {
    && walk != []
    && forall i :: 0 <= i < |walk| - 1 ==> walk[i] !in barriers && Linked(nodes, edges, walk[i], walk[i + 1])
  }

  ghost predicate Reaches(nodes: seq<string>, edges: seq<Edge>, barriers: set<string>, a: string, b: string) {
    exists walk :: OpenWalk(nodes, edges, barriers, walk) && walk[0] == a && walk[|walk| - 1] == b
  }

  /** The edge leaves a decision on a non-allow arm. */
  predicate LeavesDenied(arms: map<string, seq<string>>, e: Edge) {
    e.fromNode in arms && e.fromPort in arms[e.fromNode]
  }

  /** The edge carries a denied value that some walk takes to the output undecided. */
  ghost predicate Leaks(nodes: seq<string>, edges: seq<Edge>, arms: map<string, seq<string>>, e: Edge) {
    LeavesDenied(arms, e) && Reaches(nodes, edges, arms.Keys, e.toNode, OUT)
  }

  // ----- Walks -----

  lemma WalkHere(nodes: seq<string>, edges: seq<Edge>, barriers: set<string>, a: string)
    ensures Reaches(nodes, edges, barriers, a, a)
  {
    assert OpenWalk(nodes, edges, barriers, [a]);
  }

  lemma WalkOn(nodes: seq<string>, edges: seq<Edge>, barriers: set<string>, a: string, b: string, c: string)
    requires Reaches(nodes, edges, barriers, a, b) && b !in barriers && Linked(nodes, edges, b, c)
    ensures Reaches(nodes, edges, barriers, a, c)
  {
    hide Linked;
    var walk :| OpenWalk(nodes, edges, barriers, walk) && walk[0] == a && walk[|walk| - 1] == b;
    assert OpenWalk(nodes, edges, barriers, walk + [c]);
  }

  /** A set that every open step stays in holds everything a walk from inside it reaches. */
  ghost predicate ClosedUnder(nodes: seq<string>, edges: seq<Edge>, barriers: set<string>, seen: set<string>) {
    forall b, c :: b in seen && b !in barriers && Linked(nodes, edges, b, c) ==> c in seen
  }

  lemma {:induction false} WalkStaysIn(nodes: seq<string>, edges: seq<Edge>, barriers: set<string>, seen: set<string>,
        walk: seq<string>)
    requires ClosedUnder(nodes, edges, barriers, seen)
    requires OpenWalk(nodes, edges, barriers, walk) && walk[0] in seen
    ensures walk[|walk| - 1] in seen
    decreases |walk|
  {
    hide Linked;
    if |walk| > 1 {
      assert walk[0] !in barriers && Linked(nodes, edges, walk[0], walk[1]);
      WalkStaysIn(nodes, edges, barriers, seen, walk[1..]);
    }
  }

  // ----- The checker -----

  /** Adjacency lists, one for every declared node. */
  ghost predicate IsAdjacency(nodes: seq<string>, edges: seq<Edge>, successors: map<string, seq<string>>) {
    && (forall n :: n in successors <==> n in nodes)
    && forall a, b :: a in successors && b in successors[a] <==> Linked(nodes, edges, a, b)
  }

  method BuildSuccessors(nodes: seq<string>, edges: seq<Edge>) returns (successors: map<string, seq<string>>)
    ensures IsAdjacency(nodes, edges, successors)
  {
    successors := map[];
    for i := 0 to |nodes|
      invariant forall n :: n in successors <==> n in nodes[..i]
      invariant forall n :: n in successors ==> successors[n] == []
    {
      successors := successors[nodes[i] := []];
    }
    assert nodes[..|nodes|] == nodes;
    for i := 0 to |edges|
      invariant IsAdjacency(nodes, edges[..i], successors)
    {
      var e := edges[i];
      assert edges[..i + 1] == edges[..i] + [e];
      if e.fromNode in successors {
        successors := successors[e.fromNode := successors[e.fromNode] + [e.toNode]];
      }
    }
    assert edges[..|edges|] == edges;
  }

  method CollectDecisions(parts: seq<Part>, registry: Registry) returns (arms: map<string, seq<string>>)
    ensures arms == NonAllowArms(parts, registry)
  {
    arms := map[];
    for i := 0 to |parts|
      invariant arms == NonAllowArms(parts[..i], registry)
    {
      assert parts[..i + 1][..i] == parts[..i];
      if Decides(registry, parts[i].component) {
        arms := arms[parts[i].instance := registry[parts[i].component].arms[1..]];
      }
    }
    assert parts[..|parts|] == parts;
  }

  /** Nodes a walk may visit. */
  function Targets(start: string, edges: seq<Edge>): set<string> {
    {start} + set e | e in edges :: e.toNode
  }

  /** What the breadth-first walk knows between two nodes: `queue` holds the nodes seen but not yet expanded. */
  ghost predicate Walking(nodes: seq<string>, edges: seq<Edge>, barriers: set<string>, start: string,
        seen: set<string>, queue: seq<string>) {
    && start in seen && seen <= Targets(start, edges)
    && (forall n :: n in seen ==> Reaches(nodes, edges, barriers, start, n))
    && (forall n :: n in queue ==> n in seen && n !in barriers)
    && (forall b, c :: b in seen && b !in barriers && b !in queue && Linked(nodes, edges, b, c) ==> c in seen)
  }

  /** As `Walking`, while the links of `node` are being followed. */
  ghost predicate Expanding(nodes: seq<string>, edges: seq<Edge>, barriers: set<string>, start: string,
        seen: set<string>, queue: seq<string>, node: string) {
    && start in seen && seen <= Targets(start, edges) && node in seen && node !in barriers
    && (forall n :: n in seen ==> Reaches(nodes, edges, barriers, start, n))
    && (forall n :: n in queue ==> n in seen && n !in barriers)
    && (forall b, c :: b in seen && b !in barriers && b !in queue && b != node && Linked(nodes, edges, b, c) ==> c in seen)
  }

  lemma Follow(nodes: seq<string>, edges: seq<Edge>, barriers: set<string>, start: string, seen: set<string>,
        queue: seq<string>, node: string, next: string)
    requires Expanding(nodes, edges, barriers, start, seen, queue, node) && Linked(nodes, edges, node, next)
    ensures Expanding(nodes, edges, barriers, start, seen + {next}, if next in barriers then queue else queue + [next], node)
  {
    LinkedTarget(nodes, edges, start, node, next);
    hide Linked, Reaches, Targets;
    WalkOn(nodes, edges, barriers, start, node, next);
  }

  lemma LinkedTarget(nodes: seq<string>, edges: seq<Edge>, start: string, a: string, b: string)
    requires Linked(nodes, edges, a, b)
    ensures b in Targets(start, edges)
  {
  }

  lemma Expanded(nodes: seq<string>, edges: seq<Edge>, barriers: set<string>, start: string, seen: set<string>,
        queue: seq<string>, node: string)
    requires Expanding(nodes, edges, barriers, start, seen, queue, node)
    requires forall c :: Linked(nodes, edges, node, c) ==> c in seen
    ensures Walking(nodes, edges, barriers, start, seen, queue)
  {
    hide Linked, Reaches, Targets;
  }

  method Expand(nodes: seq<string>, edges: seq<Edge>, barriers: set<string>, start: string, seen: set<string>,
        queue: seq<string>, links: seq<string>)
    returns (seen': set<string>, queue': seq<string>)
    requires queue != [] && Walking(nodes, edges, barriers, start, seen, queue)
    requires forall c :: c in links <==> Linked(nodes, edges, queue[0], c)
    ensures Walking(nodes, edges, barriers, start, seen', queue')
    ensures seen <= seen' && (seen' == seen ==> |queue'| < |queue|)
  {
    hide Linked, Reaches, Targets;
    var node := queue[0];
    seen', queue' := seen, queue[1..];
    for k := 0 to |links|
      invariant Expanding(nodes, edges, barriers, start, seen', queue', node)
      invariant seen <= seen' && (seen' == seen ==> queue' == queue[1..])
      invariant forall j :: 0 <= j < k ==> links[j] in seen'
    {
      var next := links[k];
      if next in seen' { continue; }
      assert next in links;
      Follow(nodes, edges, barriers, start, seen', queue', node, next);
      seen' := seen' + {next};
      if next !in barriers { queue' := queue' + [next]; }
    }
    Expanded(nodes, edges, barriers, start, seen', queue', node);
  }

  /** Everything an open walk from `start` reaches. */
  method Walk(nodes: seq<string>, edges: seq<Edge>, successors: map<string, seq<string>>, barriers: set<string>,
        start: string)
    returns (seen: set<string>)
    requires IsAdjacency(nodes, edges, successors)
    ensures forall n :: n in seen <==> Reaches(nodes, edges, barriers, start, n)
  {
    hide Linked, Reaches;
    WalkHere(nodes, edges, barriers, start);
    seen := {start};
    var queue := if start in barriers then [] else [start];
    while queue != []
      invariant Walking(nodes, edges, barriers, start, seen, queue)
      decreases Targets(start, edges) - seen, |queue|
    {
      var node := queue[0];
      var links := if node in successors then successors[node] else [];
      LinksOf(nodes, edges, successors, node);
      seen, queue := Expand(nodes, edges, barriers, start, seen, queue, links);
    }
    Complete(nodes, edges, barriers, start, seen);
  }

  lemma LinksOf(nodes: seq<string>, edges: seq<Edge>, successors: map<string, seq<string>>, node: string)
    requires IsAdjacency(nodes, edges, successors)
    ensures forall c :: c in (if node in successors then successors[node] else []) <==> Linked(nodes, edges, node, c)
  {
  }

  lemma Complete(nodes: seq<string>, edges: seq<Edge>, barriers: set<string>, start: string, seen: set<string>)
    requires Walking(nodes, edges, barriers, start, seen, [])
    ensures forall n :: n in seen <==> Reaches(nodes, edges, barriers, start, n)
  {
    hide Linked;
    forall n | Reaches(nodes, edges, barriers, start, n) ensures n in seen {
      var walk :| OpenWalk(nodes, edges, barriers, walk) && walk[0] == start && walk[|walk| - 1] == n;
      WalkStaysIn(nodes, edges, barriers, seen, walk);
    }
  }

  // ----- The rule, from the parts and the registry -----

  /** The `p`-th part is an instance, of that name, of a component that decides and has arms. */
  predicate DecisionAt(parts: seq<Part>, registry: Registry, p: nat, instance: string) {
    && p < |parts| && parts[p].instance == instance && parts[p].component in registry
    && registry[parts[p].component].decision && registry[parts[p].component].arms != []
  }

  ghost predicate IsDecision(parts: seq<Part>, registry: Registry, node: string) {
    exists p: nat :: DecisionAt(parts, registry, p, node)
  }

  /** The last decision part of that name gives the node its arms. */
  predicate LastDecision(parts: seq<Part>, registry: Registry, p: nat, node: string) {
    DecisionAt(parts, registry, p, node) && forall q :: p < q < |parts| ==> !DecisionAt(parts, registry, q, node)
  }

  /** The edge leaves a decision on one of its arms other than the first. */
  ghost predicate Denied(parts: seq<Part>, registry: Registry, e: Edge) {
    exists p: nat, i :: LastDecision(parts, registry, p, e.fromNode) && 0 < i < |registry[parts[p].component].arms|
                     && registry[parts[p].component].arms[i] == e.fromPort
  }

  /** A walk along links of the graph, decisions or not. */
  ghost predicate AnyWalk(nodes: seq<string>, edges: seq<Edge>, walk: seq<string>) {
    walk != [] && forall i :: 0 <= i < |walk| - 1 ==> Linked(nodes, edges, walk[i], walk[i + 1])
  }

  /** The walk passes a decision before its last node. */
  ghost predicate Redecided(parts: seq<Part>, registry: Registry, walk: seq<string>) {
    exists i :: 0 <= i < |walk| - 1 && IsDecision(parts, registry, walk[i])
  }

  /** A walk from the head of the edge to the output. */
  ghost predicate ToOutput(nodes: seq<string>, edges: seq<Edge>, e: Edge, walk: seq<string>) {
    AnyWalk(nodes, edges, walk) && walk[0] == e.toNode && walk[|walk| - 1] == OUT
  }

  /** The edge carries a denied value that some walk takes to the output with no later decision. */
  ghost predicate Leaking(parts: seq<Part>, registry: Registry, nodes: seq<string>, edges: seq<Edge>, e: Edge) {
    Denied(parts, registry, e) && exists walk :: ToOutput(nodes, edges, e, walk) && !Redecided(parts, registry, walk)
  }

  lemma {:induction false} ArmsIff(parts: seq<Part>, registry: Registry, node: string)
    ensures node in NonAllowArms(parts, registry) <==> IsDecision(parts, registry, node)
    ensures forall p: nat :: LastDecision(parts, registry, p, node) && node in NonAllowArms(parts, registry) ==>
              NonAllowArms(parts, registry)[node] == registry[parts[p].component].arms[1..]
    ensures IsDecision(parts, registry, node) ==> exists p: nat :: LastDecision(parts, registry, p, node)
  {
    if parts != [] {
      var n := |parts| - 1;
      var before := parts[..n];
      ArmsIff(before, registry, node);
      assert forall p: nat :: p < n ==> (DecisionAt(parts, registry, p, node)
          <==> DecisionAt(before, registry, p, node));
      if DecisionAt(parts, registry, n, node) {
        assert LastDecision(parts, registry, n, node);
      } else {
        assert forall p: nat :: LastDecision(parts, registry, p, node) <==> LastDecision(before, registry, p, node);
      }
    }
  }

  lemma LeavesIff(parts: seq<Part>, registry: Registry, e: Edge)
    ensures LeavesDenied(NonAllowArms(parts, registry), e) <==> Denied(parts, registry, e)
  {
    hide NonAllowArms, LastDecision;
    ArmsIff(parts, registry, e.fromNode);
    var arms := NonAllowArms(parts, registry);
    forall p: nat | LastDecision(parts, registry, p, e.fromNode)
      ensures p < |parts| && parts[p].component in registry && IsDecision(parts, registry, e.fromNode)
    {
      LastIsDecision(parts, registry, p, e.fromNode);
    }
    if LeavesDenied(arms, e) {
      var p: nat :| LastDecision(parts, registry, p, e.fromNode);
      var list := registry[parts[p].component].arms;
      var k :| 0 <= k < |list[1..]| && list[1..][k] == e.fromPort;
      assert list[k + 1] == e.fromPort;
    }
    if p: nat, i :| LastDecision(parts, registry, p, e.fromNode) && 0 < i < |registry[parts[p].component].arms|
                    && registry[parts[p].component].arms[i] == e.fromPort {
      assert arms[e.fromNode][i - 1] == e.fromPort;
    }
  }

  lemma LastIsDecision(parts: seq<Part>, registry: Registry, p: nat, node: string)
    requires LastDecision(parts, registry, p, node)
    ensures p < |parts| && parts[p].component in registry && IsDecision(parts, registry, node)
  {
  }

  lemma LeaksIff(parts: seq<Part>, registry: Registry, nodes: seq<string>, edges: seq<Edge>, e: Edge)
    ensures Leaks(nodes, edges, NonAllowArms(parts, registry), e) <==> Leaking(parts, registry, nodes, edges, e)
  {
    hide NonAllowArms, Linked, Denied, LeavesDenied, IsDecision;
    LeavesIff(parts, registry, e);
    var barriers := NonAllowArms(parts, registry).Keys;
    forall node ensures node in barriers <==> IsDecision(parts, registry, node) { ArmsIff(parts, registry, node); }
    forall walk
      ensures OpenWalk(nodes, edges, barriers, walk) && walk[0] == e.toNode && walk[|walk| - 1] == OUT
         <==> ToOutput(nodes, edges, e, walk) && !Redecided(parts, registry, walk)
    {
    }
  }

  /** The edges of `edges` that leak, in order. */
  ghost function LeakingEdges(parts: seq<Part>, registry: Registry, nodes: seq<string>, all: seq<Edge>,
        edges: seq<Edge>): seq<Edge> {
    if edges == [] then []
    else
      var e := edges[|edges| - 1];
      LeakingEdges(parts, registry, nodes, all, edges[..|edges| - 1])
          + if Leaking(parts, registry, nodes, all, e) then [e] else []
  }

  /** One diagnostic for every leaking edge, in the order of the edges: each edge that leaves the last decision part of
      its name on an arm other than the first, from whose head some walk reaches the output undecided. */
  method VerifyDenyArmContainment(parts: seq<Part>, nodes: seq<string>, edges: seq<Edge>, registry: Registry)
    returns (reported: seq<Edge>)
    ensures reported == LeakingEdges(parts, registry, nodes, edges, edges)
    ensures forall e :: e in reported <==> e in edges && Leaking(parts, registry, nodes, edges, e)
  {
    hide Reaches, Leaking, NonAllowArms, LeavesDenied;
    forall e ensures e in LeakingEdges(parts, registry, nodes, edges, edges)
        <==> e in edges && Leaking(parts, registry, nodes, edges, e) {
      ReportedIff(parts, registry, nodes, edges, edges, e);
    }
    var arms := CollectDecisions(parts, registry);
    if |arms| == 0 {
      NothingLeaks(parts, registry, nodes, edges, edges);
      return [];
    }
    var successors := BuildSuccessors(nodes, edges);
    reported := [];
    for i := 0 to |edges|
      invariant reported == LeakingEdges(parts, registry, nodes, edges, edges[..i])
    {
      var e := edges[i];
      assert edges[..i + 1][..i] == edges[..i];
      LeaksIff(parts, registry, nodes, edges, e);
      if !LeavesDenied(arms, e) { continue; }
      var seen := Walk(nodes, edges, successors, arms.Keys, e.toNode);
      if OUT !in seen { continue; }
      reported := reported + [e];
    }
    assert edges[..|edges|] == edges;
  }

  lemma {:induction false} NothingLeaks(parts: seq<Part>, registry: Registry, nodes: seq<string>, all: seq<Edge>,
        edges: seq<Edge>)
    requires |NonAllowArms(parts, registry)| == 0
    ensures LeakingEdges(parts, registry, nodes, all, edges) == []
  {
    hide NonAllowArms, Reaches, Leaking;
    if edges != [] {
      var e := edges[|edges| - 1];
      assert e.fromNode !in NonAllowArms(parts, registry);
      LeaksIff(parts, registry, nodes, all, e);
      NothingLeaks(parts, registry, nodes, all, edges[..|edges| - 1]);
    }
  }

  // ----- What acceptance means -----

  lemma {:induction false} ReportedIff(parts: seq<Part>, registry: Registry, nodes: seq<string>, all: seq<Edge>,
        edges: seq<Edge>, e: Edge)
    ensures e in LeakingEdges(parts, registry, nodes, all, edges)
        <==> e in edges && Leaking(parts, registry, nodes, all, e)
  {
    hide Leaking;
    if edges != [] {
      var n := |edges| - 1;
      ReportedIff(parts, registry, nodes, all, edges[..n], e);
      assert edges == edges[..n] + [edges[n]];
    }
  }

  /** Nothing is reported exactly when every walk that takes a denied value to the output passes a later decision. */
  lemma AcceptedIffEveryWalkRedecided(parts: seq<Part>, registry: Registry, nodes: seq<string>, edges: seq<Edge>)
    ensures LeakingEdges(parts, registry, nodes, edges, edges) == []
       <==> forall e, walk :: e in edges && Denied(parts, registry, e) && ToOutput(nodes, edges, e, walk) ==>
              Redecided(parts, registry, walk)
  {
    hide LeakingEdges, Denied, ToOutput, Redecided;
    var leaks := LeakingEdges(parts, registry, nodes, edges, edges);
    forall e ensures e in leaks <==> e in edges && Leaking(parts, registry, nodes, edges, e) {
      ReportedIff(parts, registry, nodes, edges, edges, e);
    }
    if leaks != [] { assert leaks[0] in leaks; }
  }
}
