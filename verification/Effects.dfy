/** The effect checker: what each flow must declare, judged from its own calls and from the flows it
    reaches. */
module Effects {
  import opened Ast

  datatype Qualifier = PlainFlow | Secure | Guarded | Pure

  /** A flow as the checker sees it: declared effects, effects observed in its body and in its
      nested `fn` helpers, and the flow names it calls. */
  datatype Flow = Flow(name: string, qualifier: Qualifier, declared: seq<string>, observed: seq<string>,
                       helpers: seq<string>, calls: seq<string>)

  predicate PureForbidden(effect: string) {
    effect in {"database.read", "database.write", "cache.read", "cache.write", "network.outbound", "network.external",
               "network.inbound", "network.internal", "secret.read", "secret.write", "audit.write", "storage.write",
               "storage.read", "ledger.mutate", "desktop.user.read", "native.call", "shell.execute", "payment.charge",
               "ai.inference", "pii.read", "pii.write", "phi.read", "phi.write", "process.spawn", "state.read",
               "state.write", "message.publish", "ai.train", "telemetry.read"}
  }

  /** Effects that no call shape reveals, so declaring one is never called superfluous. */
  predicate NotCallObserved(effect: string) {
    effect in {"ledger.mutate", "network.inbound", "network.external", "network.internal", "secret.write",
               "crypto.sign.ed25519", "crypto.sign.mldsa65", "crypto.sign.slhdsa", "crypto.sign.hybrid", "compute.cpu",
               "compute.gpu", "compute.npu", "worker.spawn", "event.schedule", "shell.execute", "telemetry.read",
               "pii.read", "phi.read", "phi.write", "vault.read", "vault.write"}
  }

  /** The first flow of that name. */
  function Find(flows: seq<Flow>, name: string): (r: Option<Flow>)
    ensures r.Some? ==> r.value in flows && r.value.name == name
    ensures r.None? <==> forall f :: f in flows ==> f.name != name
  {
    if flows == [] then None else if flows[0].name == name then Some(flows[0]) else Find(flows[1..], name)
  }

  function Names(flows: seq<Flow>): set<string> {
    set f | f in flows :: f.name
  }

  /** The call graph: a flow's callees, in call order; unknown names have none. */
  function Callees(flows: seq<Flow>, name: string): seq<string> {
    match Find(flows, name)
    case None => []
    case Some(f) => f.calls
  }

  /** Known flow `g` is called directly by `f`. */
  predicate Edge(flows: seq<Flow>, f: string, g: string) {
    g in Callees(flows, f) && Find(flows, g).Some?
  }

  predicate Declares(flows: seq<Flow>, g: string, effect: string) {
    Find(flows, g).Some? && effect in Find(flows, g).value.declared
  }

  predicate IsPath(flows: seq<Flow>, p: seq<string>) {
    forall i :: 0 <= i < |p| - 1 ==> Edge(flows, p[i], p[i + 1])
  }

  ghost predicate PathBetween(flows: seq<Flow>, f: string, g: string, p: seq<string>) {
    |p| >= 2 && p[0] == f && p[|p| - 1] == g && IsPath(flows, p)
  }

  /** `g` is reached from `f` by one or more calls. */
  ghost predicate Calls(flows: seq<Flow>, f: string, g: string) {
    exists p :: PathBetween(flows, f, g, p)
  }

  lemma OneCall(flows: seq<Flow>, f: string, g: string)
    requires Edge(flows, f, g)
    ensures Calls(flows, f, g)
  {
    assert PathBetween(flows, f, g, [f, g]);
  }

  lemma CallThen(flows: seq<Flow>, f: string, c: string, g: string)
    requires Edge(flows, f, c) && Calls(flows, c, g)
    ensures Calls(flows, f, g)
  {
    var p :| PathBetween(flows, c, g, p);
    var q := [f] + p;
    forall i | 0 <= i < |q| - 1
      ensures Edge(flows, q[i], q[i + 1])
    {
      if i > 0 {
        assert q[i] == p[i - 1] && q[i + 1] == p[i];
      }
    }
    assert PathBetween(flows, f, g, q);
  }

  // ----- Transitive effects: a depth-first walk that shares one visited set -----

  /** Known callee `c` has been visited and its declared effects collected. */
  ghost predicate Covered(flows: seq<Flow>, c: string, seen: set<string>, effects: map<string, string>) {
    Find(flows, c).Some? ==> c in seen && forall e :: Declares(flows, c, e) ==> e in effects
  }

  ghost predicate Explored(flows: seq<Flow>, x: string, seen: set<string>, effects: map<string, string>) {
    forall i :: 0 <= i < |Callees(flows, x)| ==> Covered(flows, Callees(flows, x)[i], seen, effects)
  }

  ghost predicate AllExplored(flows: seq<Flow>, xs: set<string>, seen: set<string>, effects: map<string, string>) {
    forall x :: x in xs ==> Explored(flows, x, seen, effects)
  }

  /** Effects named after a flow that declares them and that `f` reaches. */
  ghost predicate Justified(flows: seq<Flow>, f: string, effects: map<string, string>) {
    forall e :: e in effects ==> Calls(flows, f, effects[e]) && Declares(flows, effects[e], e)
  }

  lemma ExploredGrows(flows: seq<Flow>, xs: set<string>, seen: set<string>, effects: map<string, string>,
                      seen': set<string>, effects': map<string, string>)
    requires AllExplored(flows, xs, seen, effects) && seen <= seen' && effects.Keys <= effects'.Keys
    ensures AllExplored(flows, xs, seen', effects')
  {
    hide Declares, Callees, Find;
  }

  lemma CoveredGrows(flows: seq<Flow>, cs: seq<string>, i: nat, seen: set<string>, effects: map<string, string>,
                     seen': set<string>, effects': map<string, string>)
    requires i <= |cs| && (forall k :: 0 <= k < i ==> Covered(flows, cs[k], seen, effects))
    requires seen <= seen' && effects.Keys <= effects'.Keys
    ensures forall k :: 0 <= k < i ==> Covered(flows, cs[k], seen', effects')
  {
    hide Declares, Find;
  }

  lemma JustifiedMerge(flows: seq<Flow>, f: string, a: map<string, string>, b: map<string, string>)
    requires Justified(flows, f, a) && Justified(flows, f, b)
    ensures Justified(flows, f, b + a)
  {
    hide Calls, Declares;
  }

  lemma JustifiedByCallee(flows: seq<Flow>, f: string, c: string, effects: map<string, string>)
    requires Edge(flows, f, c) && Justified(flows, c, effects)
    ensures Justified(flows, f, effects)
  {
    forall e | e in effects
      ensures Calls(flows, f, effects[e])
    {
      CallThen(flows, f, c, effects[e]);
    }
  }

  lemma NothingYet(flows: seq<Flow>, f: string, seen: set<string>)
    ensures Justified(flows, f, map[]) && AllExplored(flows, {}, seen, map[])
  {
  }

  lemma OwnEffects(flows: seq<Flow>, f: string, c: string, own: map<string, string>)
    requires Edge(flows, f, c)
    requires forall e :: e in own ==> own[e] == c && e in Find(flows, c).value.declared
    ensures Justified(flows, f, own)
  {
    OneCall(flows, f, c);
  }

  lemma NowCovered(flows: seq<Flow>, c: string, seen: set<string>, effects: map<string, string>)
    requires Find(flows, c).Some? ==> c in seen && forall e :: e in Find(flows, c).value.declared ==> e in effects
    ensures Covered(flows, c, seen, effects)
  {
  }

  lemma ExploredUnion(flows: seq<Flow>, xs: set<string>, ys: set<string>, seen: set<string>,
        effects: map<string, string>)
    requires AllExplored(flows, xs, seen, effects) && AllExplored(flows, ys, seen, effects)
    ensures AllExplored(flows, xs + ys, seen, effects)
  {
  }

  lemma ExploredSelf(flows: seq<Flow>, x: string, seen: set<string>, effects: map<string, string>)
    requires forall i :: 0 <= i < |Callees(flows, x)| ==> Covered(flows, Callees(flows, x)[i], seen, effects)
    ensures AllExplored(flows, {x}, seen, effects)
  {
  }

  /** Each effect required of `name` by the flows it calls, with the flow that introduced it. The
      visited set is shared by the whole walk, so an inner call may return only part of what its
      own flow reaches. */
  method CollectTransitive(flows: seq<Flow>, name: string, seen0: set<string>)
    returns (effects: map<string, string>, seen: set<string>)
    requires name in seen0
    ensures seen0 <= seen && seen <= seen0 + Names(flows)
    ensures Justified(flows, name, effects)
    ensures AllExplored(flows, seen - seen0 + {name}, seen, effects)
    decreases Names(flows) - seen0
  {
    hide Calls, Declares, Justified, AllExplored, Covered;
    effects, seen := map[], seen0;
    var calls := Callees(flows, name);
    NothingYet(flows, name, seen);
    assert seen - seen0 == {};
    for i := 0 to |calls|
      invariant seen0 <= seen && seen <= seen0 + Names(flows)
      invariant Justified(flows, name, effects)
      invariant AllExplored(flows, seen - seen0, seen, effects)
      invariant forall k :: 0 <= k < i ==> Covered(flows, calls[k], seen, effects)
    {
      var c := calls[i];
      ghost var seenBefore, effectsBefore := seen, effects;
      var meta := Find(flows, c);
      if meta.Some? {
        var own := map e | e in meta.value.declared :: c;
        OwnEffects(flows, name, c, own);
        JustifiedMerge(flows, name, effects, own);
        effects := own + effects;
        if c !in seen {
          assert c in Names(flows);
          var more;
          more, seen := CollectTransitive(flows, c, seen + {c});
          JustifiedByCallee(flows, name, c, more);
          JustifiedMerge(flows, name, effects, more);
          ExploredGrows(flows, seen - (seenBefore + {c}) + {c}, seen, more, seen, more + effects);
          effects := more + effects;
          ExploredGrows(flows, seenBefore - seen0, seenBefore, effectsBefore, seen, effects);
          ExploredUnion(flows, seenBefore - seen0, seen - (seenBefore + {c}) + {c}, seen, effects);
          assert seenBefore - seen0 + (seen - (seenBefore + {c}) + {c}) == seen - seen0;
        } else {
          ExploredGrows(flows, seenBefore - seen0, seenBefore, effectsBefore, seen, effects);
        }
      }
      CoveredGrows(flows, calls, i, seenBefore, effectsBefore, seen, effects);
      NowCovered(flows, c, seen, effects);
    }
    ExploredSelf(flows, name, seen, effects);
    ExploredUnion(flows, seen - seen0, {name}, seen, effects);
  }

  /** The walk's answer is exact, cycles and shared visits included. */
  method RequiredEffects(flows: seq<Flow>, name: string) returns (effects: map<string, string>)
    ensures forall e :: e in effects <==> Introduced(flows, name, e)
    ensures Justified(flows, name, effects)
  {
    var seen;
    effects, seen := CollectTransitive(flows, name, {name});
    assert seen - {name} + {name} == seen;
    forall g, e | Calls(flows, name, g) && Declares(flows, g, e)
      ensures e in effects
    {
      var p :| PathBetween(flows, name, g, p);
      PathExplored(flows, p, seen, effects, |p| - 1);
    }
  }

  lemma {:induction false} PathExplored(flows: seq<Flow>, p: seq<string>, seen: set<string>,
        effects: map<string, string>, i: nat)
    requires 1 <= i < |p| && IsPath(flows, p) && p[0] in seen
    requires AllExplored(flows, seen, seen, effects)
    ensures p[i] in seen && forall e :: Declares(flows, p[i], e) ==> e in effects
  {
    hide Find, Declares;
    if i > 1 {
      PathExplored(flows, p, seen, effects, i - 1);
    }
    assert Edge(flows, p[i - 1], p[i]);
    var cs := Callees(flows, p[i - 1]);
    var k :| 0 <= k < |cs| && cs[k] == p[i];
    assert Explored(flows, p[i - 1], seen, effects);
    assert Covered(flows, cs[k], seen, effects);
  }

  // ----- Is one declared effect introduced by some callee? -----

  /** Known callee `c` has been visited and does not declare the effect. */
  ghost predicate Excluded(flows: seq<Flow>, c: string, effect: string, seen: set<string>) {
    Find(flows, c).Some? ==> c in seen && !Declares(flows, c, effect)
  }

  ghost predicate Searched(flows: seq<Flow>, xs: set<string>, effect: string, seen: set<string>) {
    forall x, i :: x in xs && 0 <= i < |Callees(flows, x)| ==> Excluded(flows, Callees(flows, x)[i], effect, seen)
  }

  ghost predicate Introduced(flows: seq<Flow>, f: string, effect: string) {
    exists g :: Calls(flows, f, g) && Declares(flows, g, effect)
  }

  lemma SearchedGrows(flows: seq<Flow>, xs: set<string>, effect: string, seen: set<string>, seen': set<string>)
    requires Searched(flows, xs, effect, seen) && seen <= seen'
    ensures Searched(flows, xs, effect, seen')
  {
    hide Declares, Callees, Find;
    forall x, i | x in xs && 0 <= i < |Callees(flows, x)|
      ensures Excluded(flows, Callees(flows, x)[i], effect, seen')
    {
      assert Excluded(flows, Callees(flows, x)[i], effect, seen);
    }
  }

  lemma SearchedUnion(flows: seq<Flow>, xs: set<string>, ys: set<string>, effect: string, seen: set<string>)
    requires Searched(flows, xs, effect, seen) && Searched(flows, ys, effect, seen)
    ensures Searched(flows, xs + ys, effect, seen)
  {
    hide Callees, Excluded;
  }

  lemma SearchedSelf(flows: seq<Flow>, x: string, effect: string, seen: set<string>)
    requires forall i :: 0 <= i < |Callees(flows, x)| ==> Excluded(flows, Callees(flows, x)[i], effect, seen)
    ensures Searched(flows, {x}, effect, seen)
  {
  }

  lemma IntroducedByCallee(flows: seq<Flow>, f: string, c: string, effect: string)
    requires Edge(flows, f, c) && (Declares(flows, c, effect) || Introduced(flows, c, effect))
    ensures Introduced(flows, f, effect)
  {
    if Declares(flows, c, effect) {
      OneCall(flows, f, c);
    } else {
      var g :| Calls(flows, c, g) && Declares(flows, g, effect);
      CallThen(flows, f, c, g);
    }
  }

  method SearchEffect(flows: seq<Flow>, name: string, effect: string, seen0: set<string>)
    returns (found: bool, seen: set<string>)
    requires Find(flows, name).Some?
    ensures seen0 <= seen && name in seen && seen <= seen0 + Names(flows)
    ensures found ==> Introduced(flows, name, effect)
    ensures !found ==> Searched(flows, seen - seen0, effect, seen)
    decreases Names(flows) - seen0
  {
    hide Searched, Introduced, Excluded;
    assert name in Names(flows);
    if name in seen0 {
      NothingSearched(flows, effect, seen0);
      assert seen0 - seen0 == {};
      return false, seen0;
    }
    seen := seen0 + {name};
    NothingSearched(flows, effect, seen);
    assert seen - seen0 - {name} == {};
    var calls := Callees(flows, name);
    for i := 0 to |calls|
      invariant seen0 + {name} <= seen && seen <= seen0 + Names(flows)
      invariant Searched(flows, seen - seen0 - {name}, effect, seen)
      invariant forall k :: 0 <= k < i ==> Excluded(flows, calls[k], effect, seen)
    {
      var c := calls[i];
      ghost var before := seen;
      var meta := Find(flows, c);
      if meta.Some? {
        if effect in meta.value.declared {
          IntroducedByCallee(flows, name, c, effect);
          return true, seen;
        }
        var inner;
        inner, seen := SearchEffect(flows, c, effect, seen);
        if inner {
          IntroducedByCallee(flows, name, c, effect);
          return true, seen;
        }
        SearchedGrows(flows, before - seen0 - {name}, effect, before, seen);
        SearchedUnion(flows, before - seen0 - {name}, seen - before, effect, seen);
        assert before - seen0 - {name} + (seen - before) == seen - seen0 - {name};
      }
      ExcludedGrows(flows, calls, i, effect, before, seen);
      NowExcluded(flows, c, effect, seen);
    }
    SearchedSelf(flows, name, effect, seen);
    SearchedUnion(flows, seen - seen0 - {name}, {name}, effect, seen);
    assert seen - seen0 - {name} + {name} == seen - seen0;
    return false, seen;
  }

  lemma ExcludedGrows(flows: seq<Flow>, cs: seq<string>, i: nat, effect: string, seen: set<string>, seen': set<string>)
    requires i <= |cs| && (forall k :: 0 <= k < i ==> Excluded(flows, cs[k], effect, seen)) && seen <= seen'
    ensures forall k :: 0 <= k < i ==> Excluded(flows, cs[k], effect, seen')
  {
  }

  lemma NowExcluded(flows: seq<Flow>, c: string, effect: string, seen: set<string>)
    requires Find(flows, c).Some? ==> c in seen && effect !in Find(flows, c).value.declared
    ensures Excluded(flows, c, effect, seen)
  {
  }

  lemma NothingSearched(flows: seq<Flow>, effect: string, seen: set<string>)
    ensures Searched(flows, {}, effect, seen)
  {
  }

  method HasTransitiveEffect(flows: seq<Flow>, name: string, effect: string) returns (found: bool)
    requires Find(flows, name).Some?
    ensures found <==> Introduced(flows, name, effect)
  {
    var seen;
    found, seen := SearchEffect(flows, name, effect, {});
    assert seen - {} == seen;
    if !found {
      forall g | Calls(flows, name, g)
        ensures !Declares(flows, g, effect)
      {
        var p :| PathBetween(flows, name, g, p);
        PathSearched(flows, p, effect, seen, |p| - 1);
      }
    }
  }

  lemma {:induction false} PathSearched(flows: seq<Flow>, p: seq<string>, effect: string, seen: set<string>, i: nat)
    requires 1 <= i < |p| && IsPath(flows, p) && p[0] in seen
    requires Searched(flows, seen, effect, seen)
    ensures p[i] in seen && !Declares(flows, p[i], effect)
  {
    if i > 1 {
      PathSearched(flows, p, effect, seen, i - 1);
    }
    assert Edge(flows, p[i - 1], p[i]);
    var cs := Callees(flows, p[i - 1]);
    var k :| 0 <= k < |cs| && cs[k] == p[i];
    assert Excluded(flows, cs[k], effect, seen);
  }
}
