/** Cycle detection and topological order on the call graph: the three-colour search, Kahn's queue over
    in-degrees, and what each says about cycles. */
module CallOrder {
  import opened Sequences

  /** Nodes in insertion order; the callees of a flow come from a set, so none repeats. */
  datatype CallGraph = CallGraph(nodes: seq<string>, callees: map<string, seq<string>>) {
    ghost predicate Valid() {
      && Distinct(nodes)
      && (forall n :: n in callees <==> n in nodes)
      && (forall n :: n in callees ==> Distinct(callees[n]))
      && (forall n, m :: n in callees && m in callees[n] ==> m in nodes)
    }
  }

  predicate Calls(g: CallGraph, a: string, b: string) {
    a in g.callees && b in g.callees[a]
  }

  ghost predicate IsWalk(g: CallGraph, p: seq<string>) {
    forall i :: 0 <= i < |p| - 1 ==> Calls(g, p[i], p[i + 1])
  }

  ghost predicate IsCycle(g: CallGraph, p: seq<string>) {
    |p| >= 2 && IsWalk(g, p) && p[0] == p[|p| - 1]
  }

  ghost predicate Cyclic(g: CallGraph) {
    exists p :: IsCycle(g, p)
  }

  /** Everything a flow calls stands before it. */
  ghost predicate CalleesFirst(g: CallGraph, order: seq<string>) {
    forall i, m :: 0 <= i < |order| && Calls(g, order[i], m) ==> m in order[..i]
  }

  /** Everything that calls a flow stands before it. */
  ghost predicate CallersFirst(g: CallGraph, order: seq<string>) {
    forall i, m :: 0 <= i < |order| && Calls(g, m, order[i]) ==> m in order[..i]
  }

  // ----- Cycle detection: three colours -----

  datatype Colour = White | Gray | Black

  type Colours = map<string, Colour>

  /** `stack` holds the grey nodes, each calling the next; `done` the black ones, in the order they were finished. */
  ghost predicate Searching(g: CallGraph, colour: Colours, stack: seq<string>, done: seq<string>) {
    && g.Valid() && (forall n :: n in colour <==> n in g.nodes)
    && IsWalk(g, stack) && CalleesFirst(g, done)
    && (forall n :: n in stack <==> n in colour && colour[n] == Gray)
    && (forall n :: n in done <==> n in colour && colour[n] == Black)
  }

  ghost function Whites(colour: Colours): set<string> {
    set n | n in colour && colour[n] == White
  }

  class CycleDetector {
    const graph: CallGraph
    var colour: Colours
    ghost var done: seq<string>

    constructor (graph: CallGraph)
      requires graph.Valid()
      ensures this.graph == graph && Searching(graph, colour, [], done)
    {
      this.graph := graph;
      colour := map n | n in graph.nodes :: White;
      done := [];
    }

    method Dfs(id: string, ghost stack: seq<string>) returns (found: bool)
      requires Searching(graph, colour, stack, done) && id in Whites(colour)
      requires stack != [] ==> Calls(graph, stack[|stack| - 1], id)
      modifies this
      ensures found ==> Cyclic(graph)
      ensures !found ==> Searching(graph, colour, stack, done) && old(done) <= done && id in done
      ensures !found ==> Whites(colour) < old(Whites(colour))
      decreases Whites(colour)
    {
      hide Searching, Cyclic, Whites;
      ghost var inner := stack + [id];
      Entered(graph, colour, stack, done, id);
      colour := colour[id := Gray];
      var edges := graph.callees[id];
      for k := 0 to |edges|
        invariant Searching(graph, colour, inner, done) && old(done) <= done
        invariant Whites(colour) < old(Whites(colour))
        invariant forall j :: 0 <= j < k ==> edges[j] in done
      {
        var to := edges[k];
        Looked(graph, colour, inner, done, to);
        if colour[to] == Gray { return true; }
        if colour[to] == White {
          var result := Dfs(to, inner);
          if result { return true; }
        }
      }
      Left(graph, colour, stack, done, id);
      colour := colour[id := Black];
      done := done + [id];
      found := false;
    }

    /** A cycle is reported exactly when the graph has one. */
    method DetectCycle() returns (hasCycle: bool)
      requires Searching(graph, colour, [], done)
      modifies this
      ensures hasCycle <==> Cyclic(graph)
    {
      hide Searching, Cyclic, Whites;
      for i := 0 to |graph.nodes|
        invariant Searching(graph, colour, [], done)
        invariant forall j :: 0 <= j < i ==> graph.nodes[j] in done
      {
        var n := graph.nodes[i];
        Settled(graph, colour, done, n);
        if colour[n] == White {
          var cycle := Dfs(n, []);
          if cycle { return true; }
        }
      }
      AllDone(graph, colour, done);
      hasCycle := false;
    }
  }

  lemma Entered(g: CallGraph, colour: Colours, stack: seq<string>, done: seq<string>, id: string)
    requires Searching(g, colour, stack, done) && id in Whites(colour)
    requires stack != [] ==> Calls(g, stack[|stack| - 1], id)
    ensures Searching(g, colour[id := Gray], stack + [id], done) && id in g.callees && id !in stack
    ensures Whites(colour[id := Gray]) < Whites(colour)
  {
    hide CalleesFirst;
    assert id !in Whites(colour[id := Gray]);
    assert Whites(colour[id := Gray]) <= Whites(colour);
  }

  /** The three ways of looking along an edge of the node on top of the stack. */
  lemma Looked(g: CallGraph, colour: Colours, stack: seq<string>, done: seq<string>, to: string)
    requires Searching(g, colour, stack, done) && stack != [] && Calls(g, stack[|stack| - 1], to)
    ensures to in colour
    ensures colour[to] == Gray ==> Cyclic(g)
    ensures colour[to] == White ==> to in Whites(colour)
    ensures colour[to] == Black ==> to in done
  {
    hide CalleesFirst, Cyclic;
    assert to in g.nodes;
    if colour[to] == Gray { BackEdge(g, stack, to); }
  }

  lemma Left(g: CallGraph, colour: Colours, stack: seq<string>, done: seq<string>, id: string)
    requires Searching(g, colour, stack + [id], done) && id in g.callees && id !in stack
    requires forall j :: 0 <= j < |g.callees[id]| ==> g.callees[id][j] in done
    ensures Searching(g, colour[id := Black], stack, done + [id])
    ensures Whites(colour[id := Black]) == Whites(colour)
  {
    hide CalleesFirst, IsWalk;
    Popped(g, stack, id);
    Finished(g, done, id);
    assert (stack + [id])[|stack|] == id;
    forall n ensures n in stack <==> n in colour[id := Black] && colour[id := Black][n] == Gray {
      if n in stack { var i :| 0 <= i < |stack| && stack[i] == n; assert (stack + [id])[i] == n; }
    }
  }

  lemma Settled(g: CallGraph, colour: Colours, done: seq<string>, n: string)
    requires Searching(g, colour, [], done) && n in g.nodes
    ensures n in colour && (colour[n] == White ==> n in Whites(colour)) && (colour[n] != White ==> n in done)
  {
    hide CalleesFirst;
  }

  lemma AllDone(g: CallGraph, colour: Colours, done: seq<string>)
    requires Searching(g, colour, [], done) && forall n :: n in g.nodes ==> n in done
    ensures !Cyclic(g)
  {
    forall p | |p| >= 2 && IsWalk(g, p) ensures !IsCycle(g, p) {
      assert Calls(g, p[0], p[1]);
      OrderedWalkIsOpen(g, done, p);
    }
  }

  /** Along a walk of calls, positions in a callees-first order only go down. */
  lemma {:induction false} WalkGoesDown(g: CallGraph, order: seq<string>, p: seq<string>, i: nat)
    requires CalleesFirst(g, order) && IsWalk(g, p) && p != [] && i < |order| && order[i] == p[0]
    ensures |p| > 1 ==> p[|p| - 1] in order[..i]
    decreases |p|
  {
    hide Calls;
    if |p| > 1 {
      assert Calls(g, p[0], p[1]);
      var j :| 0 <= j < i && order[j] == p[1];
      WalkGoesDown(g, order, p[1..], j);
      assert order[..j] <= order[..i];
    }
  }

  lemma OrderedWalkIsOpen(g: CallGraph, order: seq<string>, p: seq<string>)
    requires CalleesFirst(g, order) && IsWalk(g, p) && |p| > 1 && p[0] in order
    ensures p[|p| - 1] != p[0]
  {
    First(order, p[0]);
    var i :| 0 <= i < |order| && order[i] == p[0] && forall j :: 0 <= j < i ==> order[j] != p[0];
    WalkGoesDown(g, order, p, i);
  }

  lemma {:induction false} First(order: seq<string>, x: string)
    requires x in order
    ensures exists i :: 0 <= i < |order| && order[i] == x && forall j :: 0 <= j < i ==> order[j] != x
  {
    var n := |order| - 1;
    if x in order[..n] {
      First(order[..n], x);
      var i :| 0 <= i < n && order[..n][i] == x && forall j :: 0 <= j < i ==> order[..n][j] != x;
      assert order[i] == x && forall j :: 0 <= j < i ==> order[j] == order[..n][j];
    } else {
      assert order[n] == x by { assert order == order[..n] + [order[n]]; }
      assert forall j :: 0 <= j < n ==> order[j] == order[..n][j];
    }
  }

  lemma Popped(g: CallGraph, stack: seq<string>, id: string)
    requires IsWalk(g, stack + [id])
    ensures IsWalk(g, stack)
  {
    forall i | 0 <= i < |stack| - 1 ensures Calls(g, stack[i], stack[i + 1]) {
      assert Calls(g, (stack + [id])[i], (stack + [id])[i + 1]);
    }
  }

  /** An edge back to a node of the walk closes a cycle. */
  lemma BackEdge(g: CallGraph, walk: seq<string>, to: string)
    requires IsWalk(g, walk) && to in walk && Calls(g, walk[|walk| - 1], to)
    ensures Cyclic(g)
  {
    var i :| 0 <= i < |walk| && walk[i] == to;
    var p := walk[i..] + [to];
    forall k | 0 <= k < |p| - 1 ensures Calls(g, p[k], p[k + 1]) {
      if k < |p| - 2 { assert Calls(g, walk[i + k], walk[i + k + 1]); }
    }
    assert IsCycle(g, p);
  }

  lemma Finished(g: CallGraph, done: seq<string>, id: string)
    requires CalleesFirst(g, done) && id in g.callees
    requires forall j :: 0 <= j < |g.callees[id]| ==> g.callees[id][j] in done
    ensures CalleesFirst(g, done + [id])
  {
    var order := done + [id];
    forall i, m | 0 <= i < |order| && Calls(g, order[i], m) ensures m in order[..i] {
      if i < |done| {
        assert order[..i] == done[..i];
      } else {
        assert order[..i] == done;
      }
    }
  }

  // ----- Topological order: counting callers -----

  /** The callers of `n` that are not in `done`. */
  ghost function Pending(g: CallGraph, done: seq<string>, n: string): set<string> {
    set m | m in g.nodes && m !in done && Calls(g, m, n)
  }

  /** The callers of `n` among the first `i` nodes. */
  ghost function Counted(g: CallGraph, i: nat, n: string): set<string>
    requires i <= |g.nodes|
  {
    set m | m in g.nodes[..i] && Calls(g, m, n)
  }

  method CountCallers(g: CallGraph) returns (inDegree: map<string, int>)
    requires g.Valid()
    ensures forall n :: n in inDegree <==> n in g.nodes
    ensures forall n :: n in inDegree ==> inDegree[n] == |Pending(g, [], n)|
  {
    hide Calls, Counted, Pending, CallGraph.Valid;
    inDegree := map n | n in g.nodes :: 0;
    NoneCounted(g);
    for i := 0 to |g.nodes|
      invariant forall n :: n in inDegree <==> n in g.nodes
      invariant forall n :: n in inDegree ==> inDegree[n] == |Counted(g, i, n)|
    {
      inDegree := CountCallees(g, i, inDegree);
    }
    AllCounted(g);
  }

  lemma NoneCounted(g: CallGraph)
    ensures forall n :: Counted(g, 0, n) == {}
  {
    hide Calls;
  }

  lemma AllCounted(g: CallGraph)
    ensures forall n :: Counted(g, |g.nodes|, n) == Pending(g, [], n)
  {
    hide Calls;
    assert g.nodes[..|g.nodes|] == g.nodes;
  }

  method CountCallees(g: CallGraph, i: nat, before: map<string, int>) returns (inDegree: map<string, int>)
    requires g.Valid() && i < |g.nodes|
    requires forall n :: n in before <==> n in g.nodes
    requires forall n :: n in before ==> before[n] == |Counted(g, i, n)|
    ensures forall n :: n in inDegree <==> n in g.nodes
    ensures forall n :: n in inDegree ==> inDegree[n] == |Counted(g, i + 1, n)|
  {
    hide Counted, CallGraph.Valid;
    inDegree := before;
    CalleesAreNew(g, i);
    var callees := g.callees[g.nodes[i]];
    for k := 0 to |callees|
      invariant forall n :: n in inDegree <==> n in g.nodes
      invariant forall n :: n in inDegree ==> inDegree[n] == before[n] + if n in callees[..k] then 1 else 0
    {
      assert callees[..k + 1] == callees[..k] + [callees[k]];
      inDegree := inDegree[callees[k] := inDegree[callees[k]] + 1];
    }
    assert callees[..|callees|] == callees;
    forall n | n in inDegree ensures inDegree[n] == |Counted(g, i + 1, n)| { CountedNext(g, i, n); }
  }

  lemma CalleesAreNew(g: CallGraph, i: nat)
    requires g.Valid() && i < |g.nodes|
    ensures g.nodes[i] in g.callees
    ensures var callees := g.callees[g.nodes[i]];
      forall k :: 0 <= k < |callees| ==> callees[k] !in callees[..k] && callees[k] in g.nodes
  {
    var callees := g.callees[g.nodes[i]];
    forall k | 0 <= k < |callees| ensures callees[k] in g.nodes { assert callees[k] in callees; }
  }

  lemma CountedNext(g: CallGraph, i: nat, n: string)
    requires g.Valid() && i < |g.nodes|
    ensures |Counted(g, i + 1, n)| == |Counted(g, i, n)| + if n in g.callees[g.nodes[i]] then 1 else 0
  {
    var m := g.nodes[i];
    assert g.nodes[..i + 1] == g.nodes[..i] + [m] && m !in g.nodes[..i];
    if n in g.callees[m] {
      assert Counted(g, i + 1, n) == Counted(g, i, n) + {m};
    } else {
      assert Counted(g, i + 1, n) == Counted(g, i, n);
    }
  }

  /** Between two nodes: degrees count the callers not yet ordered, and the queue holds the free nodes. */
  ghost predicate Sorting(g: CallGraph, inDegree: map<string, int>, queue: seq<string>, order: seq<string>) {
    && g.Valid() && (forall n :: n in inDegree <==> n in g.nodes)
    && Distinct(order + queue) && (forall n :: n in order || n in queue ==> n in g.nodes)
    && (forall n :: n in inDegree ==> inDegree[n] == |Pending(g, order, n)|)
    && (forall n :: n in inDegree ==> (inDegree[n] == 0 <==> n in order || n in queue))
    && CallersFirst(g, order)
  }

  /** As `Sorting`, while the callees of `current`, the last node ordered, are being released: those in `freed` are. */
  ghost predicate Releasing(g: CallGraph, inDegree: map<string, int>, queue: seq<string>, order: seq<string>,
        current: string, freed: seq<string>) {
    && g.Valid() && (forall n :: n in inDegree <==> n in g.nodes)
    && Distinct(order + [current] + queue) && (forall n :: n in order || n == current || n in queue ==> n in g.nodes)
    && (forall n :: n in inDegree ==> inDegree[n] == |Pending(g, if n in freed then order + [current] else order, n)|)
    && (forall n :: n in inDegree ==> (inDegree[n] == 0 <==> n in order || n == current || n in queue))
    && CallersFirst(g, order + [current])
  }

  lemma PendingLess(g: CallGraph, order: seq<string>, current: string, n: string)
    requires current in g.nodes && current !in order
    ensures Calls(g, current, n) ==> |Pending(g, order + [current], n)| == |Pending(g, order, n)| - 1
    ensures !Calls(g, current, n) ==> Pending(g, order + [current], n) == Pending(g, order, n)
  {
    hide Calls;
    if Calls(g, current, n) {
      assert Pending(g, order + [current], n) == Pending(g, order, n) - {current};
    } else {
      assert Pending(g, order + [current], n) == Pending(g, order, n);
    }
  }

  lemma CallersAreOrdered(g: CallGraph, order: seq<string>, n: string)
    requires g.Valid() && CallersFirst(g, order) && |Pending(g, order, n)| == 0
    ensures CallersFirst(g, order + [n])
  {
    var longer := order + [n];
    forall i, m | 0 <= i < |longer| && Calls(g, m, longer[i]) ensures m in longer[..i] {
      if i < |order| {
        assert longer[..i] == order[..i];
      } else {
        assert longer[..i] == order;
        assert m !in Pending(g, order, n);
      }
    }
  }

  lemma Taken(g: CallGraph, inDegree: map<string, int>, queue: seq<string>, order: seq<string>)
    requires queue != [] && Sorting(g, inDegree, queue, order)
    ensures Releasing(g, inDegree, queue[1..], order, queue[0], []) && queue[0] in g.callees
  {
    hide CallersFirst, Pending, Calls;
    assert queue == [queue[0]] + queue[1..];
    assert order + queue == order + [queue[0]] + queue[1..];
    CallersAreOrdered(g, order, queue[0]);
  }

  /** The last caller of `to` has been ordered, or one of several. */
  lemma Released(g: CallGraph, inDegree: map<string, int>, queue: seq<string>, order: seq<string>, current: string,
        freed: seq<string>, to: string)
    requires Releasing(g, inDegree, queue, order, current, freed) && Calls(g, current, to) && to !in freed
    ensures to in inDegree
    ensures var less := inDegree[to] - 1;
      Releasing(g, inDegree[to := less], if less == 0 then queue + [to] else queue, order, current, freed + [to])
  {
    hide CallersFirst, Pending, Calls;
    CalleeIsNode(g, current, to);
    CurrentIsNew(order, current, queue);
    PendingLess(g, order, current, to);
    var longer := order + [current] + queue;
    NewInLine(g, order, current, to);
    if inDegree[to] == 1 { assert order + [current] + (queue + [to]) == longer + [to]; }
  }

  lemma CalleeIsNode(g: CallGraph, a: string, b: string)
    requires g.Valid() && Calls(g, a, b)
    ensures a in g.nodes && b in g.nodes
  {
  }

  lemma CurrentIsNew(order: seq<string>, current: string, queue: seq<string>)
    requires Distinct(order + [current] + queue)
    ensures current !in order
  {
    var all := order + [current] + queue;
    assert all[|order|] == current;
    assert forall i :: 0 <= i < |order| ==> all[i] == order[i];
  }

  lemma NewInLine(g: CallGraph, order: seq<string>, current: string, to: string)
    requires g.Valid() && Calls(g, current, to) && current in g.nodes && current !in order
    ensures |Pending(g, order, to)| > 0
  {
    assert current in Pending(g, order, to);
  }

  lemma AllReleased(g: CallGraph, inDegree: map<string, int>, queue: seq<string>, order: seq<string>, current: string)
    requires current in g.callees && Releasing(g, inDegree, queue, order, current, g.callees[current])
    ensures Sorting(g, inDegree, queue, order + [current])
  {
    hide CallersFirst, Pending;
    CurrentIsNew(order, current, queue);
    forall n | n in inDegree ensures inDegree[n] == |Pending(g, order + [current], n)| {
      PendingLess(g, order, current, n);
    }
  }

  method Release(g: CallGraph, degrees: map<string, int>, ready: seq<string>, ghost order: seq<string>, current: string)
    returns (inDegree: map<string, int>, queue: seq<string>)
    requires current in g.callees && Releasing(g, degrees, ready, order, current, [])
    ensures Sorting(g, inDegree, queue, order + [current])
  {
    hide Releasing, Sorting;
    inDegree, queue := degrees, ready;
    var callees := g.callees[current];
    CalleesDiffer(g, degrees, ready, order, current);
    for k := 0 to |callees|
      invariant Releasing(g, inDegree, queue, order, current, callees[..k])
    {
      var to := callees[k];
      Released(g, inDegree, queue, order, current, callees[..k], to);
      var newDeg := inDegree[to] - 1;
      inDegree := inDegree[to := newDeg];
      if newDeg == 0 { queue := queue + [to]; }
      assert callees[..k + 1] == callees[..k] + [to];
    }
    assert callees[..|callees|] == callees;
    AllReleased(g, inDegree, queue, order, current);
  }

  lemma CalleesDiffer(g: CallGraph, inDegree: map<string, int>, queue: seq<string>, order: seq<string>, current: string)
    requires current in g.callees && Releasing(g, inDegree, queue, order, current, [])
    ensures forall k :: 0 <= k < |g.callees[current]| ==> g.callees[current][k] !in g.callees[current][..k]
  {
  }

  method Seed(g: CallGraph, inDegree: map<string, int>) returns (queue: seq<string>)
    requires g.Valid() && forall n :: n in inDegree <==> n in g.nodes
    requires forall n :: n in inDegree ==> inDegree[n] == |Pending(g, [], n)|
    ensures Sorting(g, inDegree, queue, [])
  {
    hide Pending, Calls;
    queue := [];
    for i := 0 to |g.nodes|
      invariant Distinct(queue)
      invariant forall n :: n in queue <==> n in g.nodes[..i] && inDegree[n] == 0
    {
      assert g.nodes[i] !in g.nodes[..i];
      if inDegree[g.nodes[i]] == 0 { queue := queue + [g.nodes[i]]; }
    }
    assert g.nodes[..|g.nodes|] == g.nodes && [] + queue == queue;
  }

  /** The order lists each caller before its callees, and misses exactly the nodes that some cycle reaches. */
  method TopoSort(g: CallGraph) returns (order: seq<string>, leftover: seq<string>)
    requires g.Valid()
    ensures Distinct(order) && CallersFirst(g, order) && forall n :: n in order ==> n in g.nodes
    ensures forall n :: n in g.nodes ==> (n in order <==> !BelowCycle(g, n))
    ensures forall n :: n in leftover <==> n in g.nodes && BelowCycle(g, n)
  {
    hide Sorting, Releasing, BelowCycle, CallersFirst, CallGraph.Valid, Pending, Distinct;
    var inDegree := CountCallers(g);
    var queue := Seed(g, inDegree);
    order := [];
    while queue != []
      invariant Sorting(g, inDegree, queue, order)
      decreases |g.nodes| - |order|
    {
      var current := queue[0];
      Taken(g, inDegree, queue, order);
      OrderIsShort(g, inDegree, queue, order);
      inDegree, queue := Release(g, inDegree, queue[1..], order, current);
      order := order + [current];
    }
    Sorted(g, inDegree, order);
    leftover := Remaining(g.nodes, inDegree);
  }

  method Remaining(nodes: seq<string>, inDegree: map<string, int>) returns (leftover: seq<string>)
    requires forall n :: n in nodes ==> n in inDegree
    ensures forall n :: n in leftover <==> n in nodes && inDegree[n] > 0
  {
    leftover := [];
    for i := 0 to |nodes|
      invariant forall n :: n in leftover <==> n in nodes[..i] && inDegree[n] > 0
    {
      if inDegree[nodes[i]] > 0 { leftover := leftover + [nodes[i]]; }
    }
    assert nodes[..|nodes|] == nodes;
  }

  /** Some walk to `n` visits a node twice. */
  ghost predicate BelowCycle(g: CallGraph, n: string) {
    exists p :: p != [] && IsWalk(g, p) && p[|p| - 1] == n && !Distinct(p)
  }

  lemma {:induction false} NodesAreMany(s: seq<string>)
    requires Distinct(s)
    ensures |set n | n in s| == |s|
  {
    if s != [] {
      var n := |s| - 1;
      NodesAreMany(s[..n]);
      assert (set x | x in s) == (set x | x in s[..n]) + {s[n]};
    }
  }

  lemma OrderIsShort(g: CallGraph, inDegree: map<string, int>, queue: seq<string>, order: seq<string>)
    requires Sorting(g, inDegree, queue, order) && queue != []
    ensures |order| < |g.nodes|
  {
    DistinctIsShort(order + queue, set n | n in g.nodes);
    NodesAreMany(g.nodes);
  }

  lemma PrefixHasCallersFirst(g: CallGraph, order: seq<string>, i: nat)
    requires CallersFirst(g, order) && i <= |order|
    ensures CallersFirst(g, order[..i])
  {
    hide Calls;
    forall j, m | 0 <= j < i && Calls(g, m, order[..i][j]) ensures m in order[..i][..j] {
      assert order[..i][..j] == order[..j];
    }
  }

  lemma NewAtEnd(p: seq<string>, earlier: seq<string>)
    requires p != [] && Distinct(p[..|p| - 1]) && (forall x :: x in p[..|p| - 1] ==> x in earlier) && p[|p| - 1] !in earlier
    ensures Distinct(p)
  {
    var n := |p| - 1;
    forall k | 0 <= k < n ensures p[k] != p[n] { assert p[..n][k] in earlier; }
    forall i, j | 0 <= i < j < n ensures p[i] != p[j] { assert p[..n][i] != p[..n][j]; }
  }

  /** A walk that ends in the order lies in the order, and never returns. */
  lemma {:induction false} WalkIsDistinct(g: CallGraph, order: seq<string>, p: seq<string>)
    requires CallersFirst(g, order) && IsWalk(g, p) && p != [] && p[|p| - 1] in order
    ensures Distinct(p) && forall x :: x in p ==> x in order
    decreases |p|
  {
    hide Calls, Distinct, CallersFirst, IsWalk;
    var n := |p| - 1;
    First(order, p[n]);
    var i :| 0 <= i < |order| && order[i] == p[n] && forall j :: 0 <= j < i ==> order[j] != p[n];
    assert p == p[..n] + [p[n]];
    if n > 0 {
      WalkFront(g, p);
      CallerBefore(g, order, i, p[n - 1]);
      PrefixHasCallersFirst(g, order, i);
      WalkIsDistinct(g, order[..i], p[..n]);
    } else {
      NothingRepeats(p[..n]);
    }
    NewAtEnd(p, order[..i]);
    assert order == order[..i] + order[i..];
  }

  lemma WalkFront(g: CallGraph, p: seq<string>)
    requires IsWalk(g, p) && |p| > 1
    ensures IsWalk(g, p[..|p| - 1]) && Calls(g, p[|p| - 2], p[|p| - 1])
  {
    hide Calls;
    assert Calls(g, p[|p| - 2], p[|p| - 2 + 1]);
  }

  lemma CallerBefore(g: CallGraph, order: seq<string>, i: nat, m: string)
    requires CallersFirst(g, order) && i < |order| && Calls(g, m, order[i])
    ensures m in order[..i]
  {
    hide Calls;
  }

  lemma NothingRepeats(p: seq<string>)
    requires p == []
    ensures Distinct(p)
  {
  }

  lemma HasCaller(g: CallGraph, inDegree: map<string, int>, order: seq<string>, n: string) returns (m: string)
    requires Sorting(g, inDegree, [], order) && n in g.nodes && n !in order
    ensures m in g.nodes && m !in order && Calls(g, m, n)
  {
    hide Calls, CallersFirst;
    assert inDegree[n] != 0;
    assert Pending(g, order, n) != {};
    m :| m in Pending(g, order, n);
  }

  /** A node left with callers has walks of every length behind it. */
  lemma {:induction false} LongWalk(g: CallGraph, inDegree: map<string, int>, order: seq<string>, n: string, k: nat)
    returns (p: seq<string>)
    requires Sorting(g, inDegree, [], order) && n in g.nodes && n !in order
    ensures |p| == k + 1 && IsWalk(g, p) && p[k] == n && forall x :: x in p ==> x in g.nodes
    decreases k
  {
    hide Sorting, Calls;
    if k == 0 {
      p := [n];
    } else {
      var m := HasCaller(g, inDegree, order, n);
      var q := LongWalk(g, inDegree, order, m, k - 1);
      p := q + [n];
      Pushed(g, q, n);
    }
  }

  lemma Pushed(g: CallGraph, walk: seq<string>, n: string)
    requires IsWalk(g, walk) && (walk != [] ==> Calls(g, walk[|walk| - 1], n))
    ensures IsWalk(g, walk + [n])
  {
    hide Calls;
  }

  lemma Sorted(g: CallGraph, inDegree: map<string, int>, order: seq<string>)
    requires Sorting(g, inDegree, [], order)
    ensures Distinct(order) && CallersFirst(g, order) && forall n :: n in order ==> n in g.nodes
    ensures forall n :: n in inDegree <==> n in g.nodes
    ensures forall n :: n in g.nodes ==> (n in order <==> !BelowCycle(g, n)) && (inDegree[n] > 0 <==> BelowCycle(g, n))
  {
    SortingFacts(g, inDegree, order);
    hide CallersFirst, BelowCycle, Distinct, Sorting;
    forall n | n in g.nodes ensures n in order <==> !BelowCycle(g, n) {
      if n in order { OrderedAboveCycles(g, order, n); } else { LeftBelowCycle(g, inDegree, order, n); }
    }
  }

  lemma SortingFacts(g: CallGraph, inDegree: map<string, int>, order: seq<string>)
    requires Sorting(g, inDegree, [], order)
    ensures Distinct(order) && CallersFirst(g, order) && (forall n :: n in order ==> n in g.nodes) && Distinct(g.nodes)
    ensures forall n :: n in inDegree <==> n in g.nodes
    ensures forall n :: n in inDegree ==> inDegree[n] >= 0 && (inDegree[n] == 0 <==> n in order)
  {
    hide CallersFirst, Calls;
    assert order + [] == order;
  }

  lemma OrderedAboveCycles(g: CallGraph, order: seq<string>, n: string)
    requires CallersFirst(g, order) && n in order
    ensures !BelowCycle(g, n)
  {
    hide CallersFirst, IsWalk, Distinct;
    forall p | p != [] && IsWalk(g, p) && p[|p| - 1] == n ensures Distinct(p) { WalkIsDistinct(g, order, p); }
  }

  lemma LeftBelowCycle(g: CallGraph, inDegree: map<string, int>, order: seq<string>, n: string)
    requires Sorting(g, inDegree, [], order) && n in g.nodes && n !in order
    ensures BelowCycle(g, n)
  {
    NodesDiffer(g, inDegree, order);
    hide Sorting, IsWalk, Distinct, CallersFirst, BelowCycle;
    var p := LongWalk(g, inDegree, order, n, |g.nodes|);
    TooLong(p, g.nodes);
    WalkBelow(g, p, n);
  }

  lemma NodesDiffer(g: CallGraph, inDegree: map<string, int>, order: seq<string>)
    requires Sorting(g, inDegree, [], order)
    ensures Distinct(g.nodes)
  {
    hide CallersFirst;
  }

  lemma WalkBelow(g: CallGraph, p: seq<string>, n: string)
    requires p != [] && IsWalk(g, p) && p[|p| - 1] == n && !Distinct(p)
    ensures BelowCycle(g, n)
  {
    hide IsWalk, Distinct;
  }

  lemma TooLong(p: seq<string>, nodes: seq<string>)
    requires Distinct(nodes) && |p| > |nodes| && forall x :: x in p ==> x in nodes
    ensures !Distinct(p)
  {
    hide Distinct;
    if Distinct(p) {
      DistinctIsShort(p, set n | n in nodes);
      NodesAreMany(nodes);
    }
  }

  lemma PartOfWalk(g: CallGraph, p: seq<string>, i: nat, j: nat)
    requires IsWalk(g, p) && i < j < |p|
    ensures IsWalk(g, p[i..j + 1])
  {
    hide Calls;
    var part := p[i..j + 1];
    forall k | 0 <= k < |part| - 1 ensures Calls(g, part[k], part[k + 1]) {
      assert Calls(g, p[i + k], p[i + k + 1]);
    }
  }

  /** Without cycles every flow is ordered. */
  lemma AcyclicHasNoneBelow(g: CallGraph, n: string)
    requires !Cyclic(g)
    ensures !BelowCycle(g, n)
  {
    hide Calls;
    forall p | p != [] && IsWalk(g, p) && p[|p| - 1] == n ensures Distinct(p) {
      forall i, j | 0 <= i < j < |p| ensures p[i] != p[j] {
        PartOfWalk(g, p, i, j);
        assert !IsCycle(g, p[i..j + 1]);
      }
    }
  }
}
