/** The effect closure of a whole program: cycle detection, topological order and the sweeps together. */
module ClosureOrder {
  import opened CallOrder
  import opened Sequences
  import Closure

  function Reversed(s: seq<string>): (r: seq<string>)
    ensures |r| == |s| && forall i :: 0 <= i < |s| ==> r[i] == s[|s| - 1 - i]
  {
    if s == [] then [] else [s[|s| - 1]] + Reversed(s[..|s| - 1])
  }

  lemma ReversedElements(s: seq<string>)
    ensures forall n :: n in Reversed(s) <==> n in s
    ensures Distinct(s) ==> Distinct(Reversed(s))
  {
    var r := Reversed(s);
    assert forall i :: 0 <= i < |s| ==> s[i] == r[|s| - 1 - i];
  }

  /** In a complete order with callers first, the reverse has callees first. */
  lemma ReverseIsCalleesFirst(g: Closure.Graph, c: CallGraph, order: seq<string>)
    requires c.callees == g.callees && CallersFirst(c, order) && Distinct(order)
    requires forall v, w :: Calls(c, v, w) ==> w in order
    ensures Closure.CalleesFirst(g, Reversed(order))
  {
    var r := Reversed(order);
    forall i, w | 0 <= i < |r| && Closure.Edge(g, r[i], w) ensures w in r[..i] {
      var at := |order| - 1 - i;
      assert Calls(c, order[at], w);
      var j :| 0 <= j < |order| && order[j] == w;
      assert order[at] in order[..j];
      var k :| 0 <= k < j && order[k] == order[at];
      assert r[|order| - 1 - j] == w;
    }
  }

  /** Callees first, then the flows the sort could not place, in insertion order. */
  method OrderNames(c: CallGraph, order: seq<string>) returns (names: seq<string>)
    requires c.Valid() && Distinct(order) && forall n :: n in order ==> n in c.nodes
    ensures Distinct(names) && forall n :: n in names <==> n in c.nodes
    ensures (forall n :: n in c.nodes ==> n in order) ==> names == Reversed(order)
  {
    hide CallGraph.Valid;
    ReversedElements(order);
    names := Reversed(order);
    ghost var start := names;
    NodesDiffer(c);
    for i := 0 to |c.nodes|
      invariant Distinct(names) && start <= names
      invariant forall n :: n in names <==> n in order || n in c.nodes[..i]
      invariant (forall n :: n in c.nodes ==> n in order) ==> names == start
    {
      var n := c.nodes[i];
      assert n !in c.nodes[..i];
      if n !in order { names := names + [n]; }
    }
    assert c.nodes[..|c.nodes|] == c.nodes;
  }

  lemma NodesDiffer(c: CallGraph)
    requires c.Valid()
    ensures forall i :: 0 <= i < |c.nodes| ==> c.nodes[i] !in c.nodes[..i]
  {
  }

  lemma CallsAreKnown(g: Closure.Graph, names: seq<string>)
    requires g.Valid() && Distinct(names) && (forall n :: n in names <==> n in g.direct)
    requires forall n :: n in g.callees ==> Distinct(g.callees[n])
    ensures CallGraph(names, g.callees).Valid()
  {
  }

  lemma CalleesFirst(g: Closure.Graph, c: CallGraph, order: seq<string>)
    requires c.Valid() && c.callees == g.callees && CallersFirst(c, order) && Distinct(order)
    requires forall n :: n in c.nodes ==> n in order
    ensures Closure.CalleesFirst(g, Reversed(order))
  {
    hide Distinct, CallersFirst, Closure.CalleesFirst;
    ReverseIsCalleesFirst(g, c, order);
  }

  /** Every summary is exact, whatever the call graph: no assumption on the order or on cycles is left. */
  method CloseProgram(g: Closure.Graph, names: seq<string>) returns (s: Closure.Summaries, settled: bool)
    requires g.Valid() && Distinct(names) && (forall n :: n in names <==> n in g.direct)
    requires forall n :: n in g.callees ==> Distinct(g.callees[n])
    ensures settled
    ensures s.Keys == g.direct.Keys && forall v :: v in s ==> Closure.Exact(g, v, s[v])
  {
    hide Closure.Exact, Closure.Graph.Valid, Cyclic, BelowCycle, CallersFirst, CallGraph.Valid, Distinct, Calls;
    var c := CallGraph(names, g.callees);
    CallsAreKnown(g, names);
    var detector := new CycleDetector(c);
    var hasCycle := detector.DetectCycle();
    var order, leftover := TopoSort(c);
    var ordered := OrderNames(c, order);
    if !hasCycle {
      forall n | n in names ensures n in order { AcyclicHasNoneBelow(c, n); }
      CalleesFirst(g, c, order);
    }
    s, settled := Closure.Close(g, ordered, hasCycle);
  }
}
