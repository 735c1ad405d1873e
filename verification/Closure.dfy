/** Transitive effect summaries by sweeping the call graph in place. */
module Closure {
  import opened Sequences

  /** Effects a flow may have, and whether everything it calls is known. */
  datatype Summary = Summary(effects: set<string>, complete: bool)

  /** `b` says at least what `a` does: more effects, and incomplete wherever `a` is. */
  predicate Leq(a: Summary, b: Summary) {
    a.effects <= b.effects && (b.complete ==> a.complete)
  }

  function Join(a: Summary, b: Summary): Summary {
    Summary(a.effects + b.effects, a.complete && b.complete)
  }

  /** The strict call graph: every callee is itself a flow of the program. */
  datatype Graph = Graph(direct: map<string, Summary>, callees: map<string, seq<string>>) {
    predicate Valid() {
      && callees.Keys == direct.Keys
      && forall v, w :: v in callees && w in callees[v] ==> w in direct
    }
  }

  type Summaries = map<string, Summary>

  ghost predicate Edge(g: Graph, v: string, w: string) {
    v in g.callees && w in g.callees[v]
  }

  ghost predicate IsPath(g: Graph, p: seq<string>) {
    p != [] && p[0] in g.direct && forall i :: 0 <= i < |p| - 1 ==> Edge(g, p[i], p[i + 1])
  }

  ghost predicate PathTo(g: Graph, v: string, u: string, p: seq<string>) {
    IsPath(g, p) && p[0] == v && p[|p| - 1] == u
  }

  /** `u` is `v` or is reached from it by calls. */
  ghost predicate Reaches(g: Graph, v: string, u: string) {
    exists p :: PathTo(g, v, u, p)
  }

  /** Nothing in `s` that some reachable flow does not account for. */
  ghost predicate Accounted(g: Graph, v: string, s: Summary) {
    && (forall e :: e in s.effects ==> exists u :: Reaches(g, v, u) && u in g.direct && e in g.direct[u].effects)
    && (!s.complete ==> exists u :: Reaches(g, v, u) && u in g.direct && !g.direct[u].complete)
  }

  /** Exactly the effects of all reachable flows; complete exactly when all of them are. */
  ghost predicate Exact(g: Graph, v: string, s: Summary) {
    && (forall e :: e in s.effects <==> exists u :: Reaches(g, v, u) && u in g.direct && e in g.direct[u].effects)
    && (s.complete <==> forall u :: Reaches(g, v, u) && u in g.direct ==> g.direct[u].complete)
  }

  ghost predicate Sound(g: Graph, s: Summaries) {
    s.Keys == g.direct.Keys && forall v :: v in s ==> Leq(g.direct[v], s[v]) && Accounted(g, v, s[v])
  }

  ghost predicate Closed(g: Graph, s: Summaries)
    requires s.Keys == g.direct.Keys && g.Valid()
  {
    forall v, w :: Edge(g, v, w) ==> Leq(s[w], s[v])
  }

  /** The direct summaries of flows at most `k` calls away are included. */
  ghost predicate Covers(g: Graph, s: Summaries, k: nat)
    requires s.Keys == g.direct.Keys && g.Valid()
  {
    forall p :: IsPath(g, p) && |p| <= k + 1 ==> p[|p| - 1] in g.direct && Leq(g.direct[p[|p| - 1]], s[p[0]])
  }

  lemma PathNodes(g: Graph, p: seq<string>)
    requires g.Valid() && IsPath(g, p)
    ensures forall i :: 0 <= i < |p| ==> p[i] in g.direct
  {
    forall i | 0 <= i < |p|
      ensures p[i] in g.direct
    {
      if i > 0 {
        assert Edge(g, p[i - 1], p[i]);
      }
    }
  }

  lemma PathTail(g: Graph, p: seq<string>)
    requires g.Valid() && IsPath(g, p) && |p| > 1
    ensures Edge(g, p[0], p[1]) && IsPath(g, p[1..]) && p[1..][|p| - 2] == p[|p| - 1]
  {
    PathNodes(g, p);
    forall i | 0 <= i < |p[1..]| - 1
      ensures Edge(g, p[1..][i], p[1..][i + 1])
    {
      assert Edge(g, p[i + 1], p[i + 2]);
    }
  }

  lemma AccountedByCallee(g: Graph, v: string, w: string, s: Summary)
    requires g.Valid() && Edge(g, v, w) && Accounted(g, w, s)
    ensures Accounted(g, v, s)
  {
    forall u | Reaches(g, w, u)
      ensures Reaches(g, v, u)
    {
      var p :| PathTo(g, w, u, p);
      var q := [v] + p;
      forall i | 0 <= i < |q| - 1
        ensures Edge(g, q[i], q[i + 1])
      {
        if i > 0 {
          assert Edge(g, p[i - 1], p[i]);
        }
      }
      assert PathTo(g, v, u, q);
    }
  }

  lemma AccountedDirect(g: Graph, v: string)
    requires v in g.direct
    ensures Accounted(g, v, g.direct[v])
  {
    assert PathTo(g, v, v, [v]);
  }

  lemma JoinAccounted(g: Graph, v: string, a: Summary, b: Summary)
    requires Accounted(g, v, a) && Accounted(g, v, b)
    ensures Accounted(g, v, Join(a, b))
  {
    hide Reaches;
  }

  // ----- One sweep -----

  /** Edges whose caller does not yet include its callee. */
  ghost predicate Unsettled(g: Graph, s: Summaries)
    requires s.Keys == g.direct.Keys && g.Valid()
  {
    exists v, w :: Edge(g, v, w) && !Leq(s[w], s[v])
  }

  /** Callers come after everything they call. */
  ghost predicate CalleesFirst(g: Graph, order: seq<string>) {
    forall i, w :: 0 <= i < |order| && Edge(g, order[i], w) ==> w in order[..i]
  }

  ghost predicate Listing(g: Graph, order: seq<string>) {
    (forall v :: v in g.direct <==> v in order) && Distinct(order)
  }

  /** Fold the callees of one flow into its summary. */
  method Absorb(g: Graph, v: string, s0: Summaries) returns (s: Summaries, changed: bool)
    requires g.Valid() && Sound(g, s0) && v in s0
    ensures Sound(g, s) && s == s0[v := s[v]] && Leq(s0[v], s[v])
    ensures forall w :: Edge(g, v, w) ==> Leq(s0[w], s[v]) && Leq(s[w], s[v])
    ensures !changed ==> s == s0
    ensures changed ==> Unsettled(g, s0)
  {
    hide Accounted;
    s, changed := s0, false;
    var targets := g.callees[v];
    for i := 0 to |targets|
      invariant Sound(g, s) && s == s0[v := s[v]] && Leq(s0[v], s[v])
      invariant forall k :: 0 <= k < i ==> Leq(s0[targets[k]], s[v])
      invariant !changed ==> s == s0
      invariant changed ==> Unsettled(g, s0)
    {
      var w := targets[i];
      assert Edge(g, v, w);
      if !Leq(s[w], s[v]) {
        AccountedByCallee(g, v, w, s[w]);
        JoinAccounted(g, v, s[v], s[w]);
        s := s[v := Join(s[v], s[w])];
        changed := true;
      }
    }
  }

  ghost predicate Grew(s0: Summaries, s: Summaries) {
    s0.Keys == s.Keys && forall v :: v in s0 ==> Leq(s0[v], s[v])
  }

  /** The first `i` flows of the order include their callees' summaries as of `from`. */
  ghost predicate Absorbed(g: Graph, order: seq<string>, i: nat, from: Summaries, s: Summaries)
    requires i <= |order| && g.Valid() && from.Keys == s.Keys == g.direct.Keys
  {
    forall k, w :: 0 <= k < i && Edge(g, order[k], w) ==> Leq(from[w], s[order[k]])
  }

  lemma AbsorbedNext(g: Graph, order: seq<string>, i: nat, s0: Summaries, before: Summaries, s: Summaries)
    requires i < |order| && g.Valid() && s0.Keys == before.Keys == s.Keys == g.direct.Keys && order[i] in s
    requires Grew(s0, before) && s == before[order[i] := s[order[i]]] && Leq(before[order[i]], s[order[i]])
    requires forall w :: Edge(g, order[i], w) ==> Leq(before[w], s[order[i]]) && Leq(s[w], s[order[i]])
    requires Absorbed(g, order, i, s0, before)
    ensures Grew(s0, s) && Absorbed(g, order, i + 1, s0, s)
    ensures Listing(g, order) && CalleesFirst(g, order) && Absorbed(g, order, i, before, before) ==>
              Absorbed(g, order, i + 1, s, s)
  {
    if Listing(g, order) && CalleesFirst(g, order) && Absorbed(g, order, i, before, before) {
      forall k, w | 0 <= k < i + 1 && Edge(g, order[k], w)
        ensures Leq(s[w], s[order[k]])
      {
        if k < i {
          var j :| 0 <= j < k && order[j] == w;
        }
      }
    }
  }

  method Sweep(g: Graph, order: seq<string>, s0: Summaries) returns (s: Summaries, changed: bool)
    requires g.Valid() && Sound(g, s0) && Listing(g, order)
    ensures Sound(g, s) && Grew(s0, s)
    ensures forall v, w :: Edge(g, v, w) ==> Leq(s0[w], s[v])
    ensures !changed ==> s == s0
    ensures changed ==> Unsettled(g, s0)
    ensures CalleesFirst(g, order) ==> Closed(g, s)
  {
    hide Sound, Leq, CalleesFirst, Unsettled, Edge;
    SoundKeys(g, s0);
    GrewSelf(s0);
    s, changed := s0, false;
    for i := 0 to |order|
      invariant Sound(g, s) && Grew(s0, s)
      invariant Absorbed(g, order, i, s0, s)
      invariant !changed ==> s == s0
      invariant changed ==> Unsettled(g, s0)
      invariant CalleesFirst(g, order) ==> Absorbed(g, order, i, s, s)
    {
      ghost var before := s;
      var more;
      s, more := Absorb(g, order[i], s);
      AbsorbedNext(g, order, i, s0, before, s);
      changed := changed || more;
    }
    EdgesListed(g, order);
  }

  lemma GrewSelf(s: Summaries)
    ensures Grew(s, s)
  {
  }

  lemma EdgesListed(g: Graph, order: seq<string>)
    requires g.Valid() && Listing(g, order)
    ensures forall v, w :: Edge(g, v, w) ==> exists k :: 0 <= k < |order| && order[k] == v
  {
  }

  lemma SoundKeys(g: Graph, s: Summaries)
    requires Sound(g, s)
    ensures s.Keys == g.direct.Keys
  {
  }

  // ----- How many sweeps suffice -----

  lemma OneSweepFurther(g: Graph, s0: Summaries, s: Summaries, k: nat)
    requires g.Valid() && s0.Keys == s.Keys == g.direct.Keys && Covers(g, s0, k)
    requires Grew(s0, s)
    requires forall v, w :: Edge(g, v, w) ==> Leq(s0[w], s[v])
    ensures Covers(g, s, k + 1)
  {
    forall p | IsPath(g, p) && |p| <= k + 2
      ensures p[|p| - 1] in g.direct && Leq(g.direct[p[|p| - 1]], s[p[0]])
    {
      PathNodes(g, p);
      if |p| > 1 {
        PathTail(g, p);
        assert Leq(g.direct[p[|p| - 1]], s0[p[1]]);
      } else {
        assert Leq(g.direct[p[0]], s0[p[0]]);
      }
    }
  }

  /** Cutting the detour between two visits of one flow leaves a shorter path. */
  lemma {:induction false} Shorten(g: Graph, p: seq<string>) returns (q: seq<string>)
    requires g.Valid() && IsPath(g, p)
    ensures IsPath(g, q) && q[0] == p[0] && q[|q| - 1] == p[|p| - 1] && |q| <= |g.direct|
    decreases |p|
  {
    PathNodes(g, p);
    if Distinct(p) {
      DistinctIsShort(p, g.direct.Keys);
      q := p;
    } else {
      var i, j :| 0 <= i < j < |p| && p[i] == p[j];
      var cut := p[..i] + p[j..];
      forall k | 0 <= k < |cut| - 1
        ensures Edge(g, cut[k], cut[k + 1])
      {
        if k < i {
          assert Edge(g, p[k], p[k + 1]);
        } else {
          assert Edge(g, p[k + (j - i)], p[k + (j - i) + 1]);
        }
      }
      q := Shorten(g, cut);
    }
  }

  lemma CoversAll(g: Graph, s: Summaries, k: nat, v: string, u: string)
    requires g.Valid() && s.Keys == g.direct.Keys && Covers(g, s, k) && k + 1 >= |g.direct| && Reaches(g, v, u)
    ensures v in s && u in g.direct && Leq(g.direct[u], s[v])
  {
    var p :| PathTo(g, v, u, p);
    var q := Shorten(g, p);
    assert IsPath(g, q) && |q| <= k + 1;
  }

  lemma {:induction false} ClosedAlong(g: Graph, s: Summaries, p: seq<string>)
    requires g.Valid() && Sound(g, s) && Closed(g, s) && IsPath(g, p)
    ensures p[|p| - 1] in g.direct && Leq(g.direct[p[|p| - 1]], s[p[0]])
    decreases |p|
  {
    PathNodes(g, p);
    if |p| > 1 {
      PathTail(g, p);
      ClosedAlong(g, s, p[1..]);
    }
  }

  /** A settled sweep result is exact. */
  lemma ClosedIsExact(g: Graph, s: Summaries, v: string)
    requires g.Valid() && Sound(g, s) && Closed(g, s) && v in s
    ensures Exact(g, v, s[v])
  {
    forall u | Reaches(g, v, u)
      ensures u in g.direct && Leq(g.direct[u], s[v])
    {
      var p :| PathTo(g, v, u, p);
      ClosedAlong(g, s, p);
    }
  }

  /** Once everything reachable is included, no edge is unsettled. */
  lemma CoveredIsClosed(g: Graph, s: Summaries, k: nat)
    requires g.Valid() && Sound(g, s) && Covers(g, s, k) && k + 1 >= |g.direct|
    ensures !Unsettled(g, s)
  {
    forall v, w | Edge(g, v, w)
      ensures Leq(s[w], s[v])
    {
      EdgeIncluded(g, s, k, v, w);
    }
  }

  lemma EdgeIncluded(g: Graph, s: Summaries, k: nat, v: string, w: string)
    requires g.Valid() && Sound(g, s) && Covers(g, s, k) && k + 1 >= |g.direct| && Edge(g, v, w)
    ensures Leq(s[w], s[v])
  {
    AccountedByCallee(g, v, w, s[w]);
    forall u | Reaches(g, v, u)
      ensures u in g.direct && Leq(g.direct[u], s[v])
    {
      CoversAll(g, s, k, v, u);
    }
  }

  /** The closure loop. On a cyclic graph it sweeps until nothing changes, at most once more than
      there are flows, and that is always enough; on an acyclic one a single callees-first sweep
      does. Either way the answer is the least fixed point. */
  method Close(g: Graph, order: seq<string>, hasCycle: bool) returns (s: Summaries, settled: bool)
    requires g.Valid() && Listing(g, order)
    requires !hasCycle ==> CalleesFirst(g, order)
    ensures settled
    ensures s.Keys == g.direct.Keys && forall v :: v in s ==> Exact(g, v, s[v])
  {
    hide Sound, Exact, Covers;
    s, settled := g.direct, false;
    StartSound(g);
    var maxPasses := if hasCycle then |g.direct| + 1 else 1;
    var pass := 0;
    while pass < maxPasses
      invariant Sound(g, s) && s.Keys == g.direct.Keys && Covers(g, s, pass)
      invariant if hasCycle then pass <= |g.direct| else pass == 0
    {
      ghost var before := s;
      if pass + 1 >= |g.direct| {
        CoveredIsClosed(g, s, pass);
      }
      var changed;
      s, changed := Sweep(g, order, s);
      SoundKeys(g, s);
      OneSweepFurther(g, before, s, pass);
      if !changed || !hasCycle {
        settled := true;
        break;
      }
      pass := pass + 1;
    }
    forall v | v in s
      ensures Exact(g, v, s[v])
    {
      ClosedIsExact(g, s, v);
    }
  }

  lemma StartSound(g: Graph)
    requires g.Valid()
    ensures Sound(g, g.direct) && Covers(g, g.direct, 0)
  {
    forall v | v in g.direct
      ensures Accounted(g, v, g.direct[v])
    {
      AccountedDirect(g, v);
    }
  }
}
