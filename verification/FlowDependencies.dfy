/** USES, USEDBY and IMPACT of every flow of a program: the call edges read forwards and backwards, the walk
    over callers, and what becomes of a name that is declared twice. */
module FlowDependencies {
  import opened Ast

  // ----- Declarations and calls -----

  function IndexOfChar(s: string, c: char): (r: Option<nat>)
    ensures r.Some? ==> r.value < |s|
  {
    if s == "" then None
    else if s[0] == c then Some(0)
    else match IndexOfChar(s[1..], c) case None => None case Some(i) => Some(i + 1)
  }

  const GOVERNED := "governed:"

  /** The name inside `governed:<floor>:<name>`. */
  function GovernedName(value: string): Option<string> {
    if GOVERNED <= value then
      var rest := value[|GOVERNED|..];
      match IndexOfChar(rest, ':')
      case None => None
      case Some(i) => if i > 0 && i + 1 < |rest| then Some(rest[i + 1..]) else None
    else None
  }

  /** `value` is `governed:`, a floor without colons, a colon and the name. */
  predicate GovernedText(value: string, floor: string, name: string) {
    value == "governed:" + floor + ":" + name && floor != "" && ':' !in floor && name != ""
  }

  lemma {:induction false} FirstColon(s: string, floor: string, name: string)
    requires s == floor + ":" + name && ':' !in floor
    ensures IndexOfChar(s, ':') == Some(|floor|)
  {
    if floor != "" {
      assert s[1..] == floor[1..] + ":" + name && s[0] == floor[0];
      FirstColon(s[1..], floor[1..], name);
    }
  }

  lemma {:induction false} ColonIs(s: string)
    ensures match IndexOfChar(s, ':') case None => ':' !in s case Some(i) => s[i] == ':' && ':' !in s[..i]
  {
    if s != "" && s[0] != ':' {
      ColonIs(s[1..]);
      if IndexOfChar(s, ':').Some? {
        var i := IndexOfChar(s, ':').value;
        assert s[..i] == [s[0]] + s[1..][..i - 1];
      } else {
        assert s == [s[0]] + s[1..];
      }
    }
  }

  /** A governed flow is declared under the name after its floor. */
  lemma GovernedNameIff(value: string, name: string)
    ensures GovernedName(value) == Some(name) <==> exists floor :: GovernedText(value, floor, name)
  {
    if GOVERNED <= value {
      var rest := value[|GOVERNED|..];
      ColonIs(rest);
      if GovernedName(value) == Some(name) {
        var i := IndexOfChar(rest, ':').value;
        Reassemble(value, rest, i);
        assert GovernedText(value, rest[..i], name);
      }
    }
    if floor :| GovernedText(value, floor, name) {
      var rest := value[|GOVERNED|..];
      Disassemble(value, floor, name);
      FirstColon(rest, floor, name);
    }
  }

  lemma Reassemble(value: string, rest: string, i: nat)
    requires GOVERNED <= value && rest == value[|GOVERNED|..] && i < |rest| && rest[i] == ':'
    ensures value == "governed:" + rest[..i] + ":" + rest[i + 1..]
  {
    assert rest == rest[..i] + [rest[i]] + rest[i + 1..];
    assert value == GOVERNED + rest;
  }

  lemma Disassemble(value: string, floor: string, name: string)
    requires value == "governed:" + floor + ":" + name
    ensures GOVERNED <= value && value[|GOVERNED|..] == floor + ":" + name
        && (floor + ":" + name)[|floor| + 1..] == name
  {
    assert value == GOVERNED + (floor + ":" + name);
  }

  function DeclaredName(node: Node): Option<string> {
    if node.kind == OtherKind("governedFlowDecl") then GovernedName(node.value)
    else if node.kind in {FlowDecl, SecureFlowDecl, PureFlowDecl, GuardedFlowDecl} && node.value != "" then Some(node.value)
    else None
  }

  /** The call names anywhere under a node. */
  function CallNames(node: Node): set<string>
    decreases node
  {
    (if node.kind == CallExpr then {node.value} else {}) +
    set i, name | 0 <= i < |node.children| && name in CallNames(node.children[i]) :: name
  }

  /** At the end of this path stands a call of that name. */
  predicate CallAt(node: Node, path: seq<nat>, name: string) {
    NodeAt(node, path).Some? && NodeAt(node, path).value.kind.CallExpr? && NodeAt(node, path).value.value == name
  }

  /** The call names of a node are those of the calls anywhere under it. */
  lemma {:induction false} CallNamesIff(node: Node, name: string)
    ensures name in CallNames(node) <==> exists path :: CallAt(node, path, name)
    decreases node
  {
    forall path | CallAt(node, path, name) ensures name in CallNames(node) {
      if path != [] {
        assert CallAt(node.children[path[0]], path[1..], name);
        CallNamesIff(node.children[path[0]], name);
      }
    }
    if node.kind == CallExpr && node.value == name {
      assert CallAt(node, [], name);
    } else if name in CallNames(node) {
      var i: nat :| i < |node.children| && name in CallNames(node.children[i]);
      CallNamesIff(node.children[i], name);
      var path :| CallAt(node.children[i], path, name);
      var longer: seq<nat> := [i] + path;
      assert longer[1..] == path;
      assert CallAt(node, longer, name);
    }
  }

  type Flows = map<string, Node>

  /** The flows of a program; of two with one name the later stays. */
  function Index(children: seq<Node>): Flows {
    if children == [] then map[]
    else
      var child := children[|children| - 1];
      var before := Index(children[..|children| - 1]);
      if DeclaredName(child).Some? then before[DeclaredName(child).value := child] else before
  }

  // ----- The dependency relation -----

  function Callees(flows: Flows, name: string, node: Node): set<string> {
    set callee | callee in CallNames(node) && callee != "" && callee != name && callee in flows
  }

  function Uses(flows: Flows, name: string): set<string>
    requires name in flows
  {
    Callees(flows, name, flows[name])
  }

  function UsedBy(flows: Flows, name: string): set<string> {
    set caller | caller in flows && name in Uses(flows, caller)
  }

  predicate Calls(flows: Flows, a: string, b: string) {
    a in flows && b in Uses(flows, a)
  }

  ghost predicate CallPath(flows: Flows, path: seq<string>) {
    |path| >= 2 && forall i :: 0 <= i < |path| - 1 ==> Calls(flows, path[i], path[i + 1])
  }

  /** `a` reaches `b` through one or more calls. */
  ghost predicate DependsOn(flows: Flows, a: string, b: string) {
    exists path :: CallPath(flows, path) && path[0] == a && path[|path| - 1] == b
  }

  /** The other flows that reach `name`. */
  ghost function Dependants(flows: Flows, name: string): set<string> {
    set a | a in flows && a != name && DependsOn(flows, a, name)
  }

  datatype Deps = Deps(uses: set<string>, usedBy: set<string>, impact: nat)

  // ----- The analysis -----

  method IndexFlows(children: seq<Node>) returns (flows: Flows, names: seq<string>)
    ensures flows == Index(children)
    ensures forall n :: n in names <==> n in flows
  {
    flows, names := map[], [];
    for i := 0 to |children|
      invariant flows == Index(children[..i])
      invariant forall n :: n in names <==> n in flows
    {
      assert children[..i + 1][..i] == children[..i];
      var name := DeclaredName(children[i]);
      if name.Some? {
        if name.value !in flows { names := names + [name.value]; }
        flows := flows[name.value := children[i]];
      }
    }
    assert children[..|children|] == children;
  }

  /** Both edge maps hold exactly `edges`, read forwards and backwards. */
  ghost predicate EdgesOf(flows: Flows, edges: set<(string, string)>, uses: map<string, set<string>>,
        usedBy: map<string, set<string>>) {
    && uses.Keys == flows.Keys && usedBy.Keys == flows.Keys
    && (forall f, g :: f in flows ==> (g in uses[f] <==> (f, g) in edges))
    && (forall f, g :: g in flows ==> (f in usedBy[g] <==> (f, g) in edges))
  }

  /** The edges leaving `name` towards `callees`. */
  function EdgesFrom(name: string, callees: set<string>): set<(string, string)> {
    set g | g in callees :: (name, g)
  }

  function AllEdges(flows: Flows, from: set<string>): set<(string, string)> {
    set f, g | f in from && f in flows && g in Uses(flows, f) :: (f, g)
  }

  method BuildEdges(flows: Flows, names: seq<string>)
    returns (uses: map<string, set<string>>, usedBy: map<string, set<string>>)
    requires forall n :: n in names <==> n in flows
    ensures EdgesOf(flows, AllEdges(flows, flows.Keys), uses, usedBy)
  {
    hide Uses, EdgesOf, AllEdges;
    uses := map n | n in flows :: {};
    usedBy := map n | n in flows :: {};
    ghost var done: set<string> := {};
    NoEdges(flows, uses, usedBy);
    for i := 0 to |names|
      invariant done == set j | 0 <= j < i :: names[j]
      invariant EdgesOf(flows, AllEdges(flows, done), uses, usedBy)
    {
      uses, usedBy := AddCalls(flows, names[i], uses, usedBy, AllEdges(flows, done));
      MoreEdges(flows, done, names[i]);
      done := done + {names[i]};
    }
    assert done == flows.Keys;
  }

  lemma NoEdges(flows: Flows, uses: map<string, set<string>>, usedBy: map<string, set<string>>)
    requires uses.Keys == flows.Keys && usedBy.Keys == flows.Keys
    requires forall n :: n in flows ==> uses[n] == {} && usedBy[n] == {}
    ensures EdgesOf(flows, AllEdges(flows, {}), uses, usedBy)
  {
  }

  lemma MoreEdges(flows: Flows, done: set<string>, name: string)
    requires name in flows
    ensures AllEdges(flows, done + {name}) == AllEdges(flows, done) + EdgesFrom(name, Uses(flows, name))
  {
    hide Uses;
  }

  lemma EdgeAdded(flows: Flows, edges: set<(string, string)>, uses: map<string, set<string>>,
        usedBy: map<string, set<string>>, f: string, g: string)
    requires EdgesOf(flows, edges, uses, usedBy) && f in flows && g in flows
    ensures EdgesOf(flows, edges + {(f, g)}, uses[f := uses[f] + {g}], usedBy[g := usedBy[g] + {f}])
  {
  }

  method AddCalls(flows: Flows, name: string, uses: map<string, set<string>>, usedBy: map<string, set<string>>,
        ghost edges: set<(string, string)>)
    returns (uses': map<string, set<string>>, usedBy': map<string, set<string>>)
    requires name in flows && EdgesOf(flows, edges, uses, usedBy)
    ensures EdgesOf(flows, edges + EdgesFrom(name, Uses(flows, name)), uses', usedBy')
  {
    hide CallNames, EdgesOf;
    uses', usedBy' := uses, usedBy;
    var calls := CallNames(flows[name]);
    ghost var added: set<string> := {};
    assert edges + EdgesFrom(name, {}) == edges;
    while calls != {}
      invariant calls <= CallNames(flows[name]) && added == Uses(flows, name) - calls
      invariant EdgesOf(flows, edges + EdgesFrom(name, added), uses', usedBy')
      decreases |calls|
    {
      var callee :| callee in calls;
      calls := calls - {callee};
      if callee != "" && callee != name && callee in flows {
        EdgeAdded(flows, edges + EdgesFrom(name, added), uses', usedBy', name, callee);
        assert edges + EdgesFrom(name, added + {callee}) == edges + EdgesFrom(name, added) + {(name, callee)};
        KeysOf(flows, edges + EdgesFrom(name, added), uses', usedBy');
        uses' := uses'[name := uses'[name] + {callee}];
        usedBy' := usedBy'[callee := usedBy'[callee] + {name}];
        added := added + {callee};
      }
    }
    assert added == Uses(flows, name);
  }

  lemma KeysOf(flows: Flows, edges: set<(string, string)>, uses: map<string, set<string>>,
        usedBy: map<string, set<string>>)
    requires EdgesOf(flows, edges, uses, usedBy)
    ensures uses.Keys == flows.Keys && usedBy.Keys == flows.Keys
  {
  }

  /** Every dependant of `name` is in `seen` or is reached through a flow still on the stack. */
  ghost predicate Walking(flows: Flows, name: string, seen: set<string>, stack: seq<string>) {
    && seen <= Dependants(flows, name)
    && (forall n :: n in stack ==> n == name || n in Dependants(flows, name))
    && (forall a :: Calls(flows, a, name) && a != name ==> a in seen || a in stack)
    && (forall a, b :: b in seen && Calls(flows, a, b) && a != name ==> a in seen || a in stack)
  }

  lemma CallerDepends(flows: Flows, a: string, b: string)
    requires Calls(flows, a, b)
    ensures DependsOn(flows, a, b)
  {
    assert CallPath(flows, [a, b]);
  }

  lemma DependsFurther(flows: Flows, a: string, b: string, c: string)
    requires Calls(flows, a, b) && DependsOn(flows, b, c)
    ensures DependsOn(flows, a, c)
  {
    hide Calls;
    var path :| CallPath(flows, path) && path[0] == b && path[|path| - 1] == c;
    assert CallPath(flows, [a] + path);
  }

  lemma Begin(flows: Flows, name: string, stack: seq<string>)
    requires name in flows && forall n :: n in stack <==> n in UsedBy(flows, name)
    ensures Walking(flows, name, {}, stack)
  {
    hide DependsOn;
    forall n | n in stack ensures n in Dependants(flows, name) { CallerDepends(flows, n, name); }
  }

  lemma Popped(flows: Flows, name: string, seen: set<string>, stack: seq<string>)
    requires stack != [] && Walking(flows, name, seen, stack)
    requires stack[|stack| - 1] == name || stack[|stack| - 1] in seen
    ensures Walking(flows, name, seen, stack[..|stack| - 1])
  {
    hide DependsOn, Calls, Dependants;
    assert stack == stack[..|stack| - 1] + [stack[|stack| - 1]];
  }

  lemma DependantIsFlow(flows: Flows, name: string, a: string)
    requires a in Dependants(flows, name)
    ensures a in flows && a != name && DependsOn(flows, a, name)
  {
    hide DependsOn;
  }

  lemma FlowIsDependant(flows: Flows, name: string, a: string)
    requires a in flows && a != name && DependsOn(flows, a, name)
    ensures a in Dependants(flows, name)
  {
    hide DependsOn;
  }

  lemma CallersAreFlows(flows: Flows, a: string, b: string)
    ensures Calls(flows, a, b) ==> a in flows && b in flows && a != b && a in UsedBy(flows, b)
    ensures a in UsedBy(flows, b) ==> Calls(flows, a, b)
  {
  }

  /** After a flow is counted, its callers are on the stack. */
  lemma Visited(flows: Flows, name: string, seen: set<string>, before: seq<string>, cur: string, callers: seq<string>,
        stack: seq<string>)
    requires before != [] && cur == before[|before| - 1] && Walking(flows, name, seen, before)
    requires cur in Dependants(flows, name) && forall n :: n in callers <==> n in UsedBy(flows, cur)
    requires before[..|before| - 1] <= stack
    requires forall n :: n in stack ==> n in before || n in callers
    requires forall n :: n in callers ==> n == name || n in seen + {cur} || n in stack
    ensures Walking(flows, name, seen + {cur}, stack)
  {
    hide DependsOn, Calls, UsedBy, Dependants;
    forall n | n in stack ensures n == name || n in Dependants(flows, name) {
      if n !in before && n != name {
        CallersAreFlows(flows, n, cur);
        DependantIsFlow(flows, name, cur);
        DependsFurther(flows, n, cur, name);
        FlowIsDependant(flows, name, n);
      }
    }
    assert before == before[..|before| - 1] + [cur];
    assert forall n :: n in before ==> n == cur || n in stack;
    forall a | Calls(flows, a, cur) && a != name ensures a in seen + {cur} || a in stack {
      CallersAreFlows(flows, a, cur);
    }
  }

  lemma {:induction false} PathIsSeen(flows: Flows, name: string, seen: set<string>, path: seq<string>)
    requires Walking(flows, name, seen, [])
    requires CallPath(flows, path) && path[|path| - 1] == name && path[0] != name
    ensures path[0] in seen
    decreases |path|
  {
    hide Calls, Dependants;
    assert Calls(flows, path[0], path[1]);
    if path[1] != name {
      assert CallPath(flows, path[1..]);
      PathIsSeen(flows, name, seen, path[1..]);
    }
  }

  lemma Complete(flows: Flows, name: string, seen: set<string>)
    requires Walking(flows, name, seen, [])
    ensures seen == Dependants(flows, name)
  {
    hide Calls;
    forall a | a in Dependants(flows, name) ensures a in seen {
      var path :| CallPath(flows, path) && path[0] == a && path[|path| - 1] == name;
      PathIsSeen(flows, name, seen, path);
    }
  }

  /** The elements of a set, in some order. */
  method Spread(s: set<string>) returns (r: seq<string>)
    ensures forall x :: x in r <==> x in s
  {
    r := [];
    var rest := s;
    while rest != {}
      invariant rest <= s
      invariant forall x :: x in r <==> x in s - rest
    {
      var x :| x in rest;
      r, rest := r + [x], rest - {x};
    }
  }

  method ImpactOf(flows: Flows, usedBy: map<string, set<string>>, name: string) returns (seen: set<string>)
    requires name in flows
    requires usedBy.Keys == flows.Keys && forall g :: g in flows ==> usedBy[g] == UsedBy(flows, g)
    ensures seen == Dependants(flows, name)
  {
    hide Uses, DependsOn, Dependants;
    seen := {};
    var stack := Spread(usedBy[name]);
    Begin(flows, name, stack);
    while stack != []
      invariant Walking(flows, name, seen, stack)
      decreases flows.Keys - seen, |stack|
    {
      var cur := stack[|stack| - 1];
      ghost var before := stack;
      stack := stack[..|stack| - 1];
      if cur == name || cur in seen {
        Popped(flows, name, seen, before);
        continue;
      }
      ghost var old_ := seen;
      seen := seen + {cur};
      DependantIsFlow(flows, name, cur);
      assert cur in before;
      var callers := Spread(usedBy[cur]);
      var k := 0;
      while k < |callers|
        invariant 0 <= k <= |callers|
        invariant before[..|before| - 1] <= stack
        invariant forall n :: n in stack ==> n in before || n in callers[..k]
        invariant forall j :: 0 <= j < k ==> callers[j] == name || callers[j] in seen || callers[j] in stack
      {
        var up := callers[k];
        if up != name && up !in seen { stack := stack + [up]; }
        k := k + 1;
      }
      Visited(flows, name, old_, before, cur, callers, stack);
    }
    Complete(flows, name, seen);
  }

  method AnalyzeFlowDependencies(children: seq<Node>) returns (out: map<string, Deps>)
    ensures var flows := Index(children);
      && out.Keys == flows.Keys
      && forall n :: n in flows ==> out[n] == Deps(Uses(flows, n), UsedBy(flows, n), |Dependants(flows, n)|)
  {
    hide Uses, UsedBy, Dependants, Index, EdgesOf, AllEdges;
    var flows, names := IndexFlows(children);
    var uses, usedBy := BuildEdges(flows, names);
    EdgesAreConverse(flows, uses, usedBy);
    out := map[];
    for i := 0 to |names|
      invariant forall n :: n in out <==> n in names[..i]
      invariant forall n :: n in out ==> n in flows && out[n] == Deps(Uses(flows, n), UsedBy(flows, n), |Dependants(flows, n)|)
    {
      var seen := ImpactOf(flows, usedBy, names[i]);
      out := out[names[i] := Deps(uses[names[i]], usedBy[names[i]], |seen|)];
    }
    assert names[..|names|] == names;
  }

  lemma EdgesAreConverse(flows: Flows, uses: map<string, set<string>>, usedBy: map<string, set<string>>)
    requires EdgesOf(flows, AllEdges(flows, flows.Keys), uses, usedBy)
    ensures uses.Keys == flows.Keys && usedBy.Keys == flows.Keys
    ensures forall n :: n in flows ==> uses[n] == Uses(flows, n) && usedBy[n] == UsedBy(flows, n)
  {
    hide Uses;
  }

  // ----- What the numbers mean -----

  lemma LastCall(flows: Flows, path: seq<string>)
    requires CallPath(flows, path)
    ensures path[|path| - 2] in UsedBy(flows, path[|path| - 1])
  {
    hide Calls, UsedBy;
    var k := |path| - 2;
    assert Calls(flows, path[k], path[k + 1]);
    CallersAreFlows(flows, path[k], path[k + 1]);
  }

  /** IMPACT is 0 exactly when no flow calls this one. */
  lemma ZeroImpactIffUncalled(flows: Flows, name: string)
    requires name in flows
    ensures |Dependants(flows, name)| == 0 <==> UsedBy(flows, name) == {}
  {
    hide Calls, UsedBy;
    if Dependants(flows, name) != {} {
      var a :| a in Dependants(flows, name);
      var path :| CallPath(flows, path) && path[0] == a && path[|path| - 1] == name;
      LastCall(flows, path);
    } else if UsedBy(flows, name) != {} {
      CallerCounts(flows, name);
    }
  }

  lemma CallerCounts(flows: Flows, name: string)
    requires UsedBy(flows, name) != {}
    ensures Dependants(flows, name) != {}
  {
    hide Calls, DependsOn;
    var a :| a in UsedBy(flows, name);
    CallersAreFlows(flows, a, name);
    CallerDepends(flows, a, name);
    FlowIsDependant(flows, name, a);
  }

  /** The flows some declaration of `name` calls: what a union over repeated names would give. */
  function UnionUses(children: seq<Node>, name: string): set<string> {
    set i, callee | 0 <= i < |children| && DeclaredName(children[i]) == Some(name) &&
      callee in Callees(Index(children), name, children[i]) :: callee
  }

  lemma {:induction false} IndexHolds(children: seq<Node>, name: string)
    ensures name in Index(children) <==> exists i :: 0 <= i < |children| && DeclaredName(children[i]) == Some(name)
    ensures name in Index(children) ==>
      exists i :: 0 <= i < |children| && DeclaredName(children[i]) == Some(name) && children[i] == Index(children)[name]
  {
    hide DeclaredName;
    if children != [] {
      var n := |children| - 1;
      var before := children[..n];
      IndexHolds(before, name);
      assert forall i :: 0 <= i < n ==> before[i] == children[i];
      assert DeclaredName(children[n]) == Some(name) ==> children[n] == Index(children)[name];
    }
  }

  /** No declaration that a later one of the same name replaced calls a flow the later one does not. */
  predicate NothingShadowed(children: seq<Node>) {
    forall i :: 0 <= i < |children| && DeclaredName(children[i]).Some? ==>
      var name := DeclaredName(children[i]).value;
      name in Index(children) && Callees(Index(children), name, children[i]) <= Uses(Index(children), name)
  }

  /** The analysis agrees with the union over repeated names exactly when no replaced declaration's call is lost. */
  lemma UnionIffNothingShadowed(children: seq<Node>)
    ensures (forall name :: name in Index(children) ==> UnionUses(children, name) == Uses(Index(children), name))
       <==> NothingShadowed(children)
  {
    hide Callees, DeclaredName, Index;
    var flows := Index(children);
    if NothingShadowed(children) {
      forall name | name in flows ensures UnionUses(children, name) == Uses(flows, name) {
        IndexHolds(children, name);
      }
    } else {
      var i :| 0 <= i < |children| && DeclaredName(children[i]).Some? &&
        (DeclaredName(children[i]).value !in flows ||
         !(Callees(flows, DeclaredName(children[i]).value, children[i]) <= Uses(flows, DeclaredName(children[i]).value)));
      var name := DeclaredName(children[i]).value;
      IndexHolds(children, name);
      assert Callees(flows, name, children[i]) <= UnionUses(children, name);
    }
  }

  // ----- What a union over repeated names would report -----

  /** Some declaration of `a` calls `b`. */
  predicate UnionCalls(children: seq<Node>, a: string, b: string) {
    a in Index(children) && b in UnionUses(children, a)
  }

  ghost predicate UnionPath(children: seq<Node>, path: seq<string>) {
    |path| >= 2 && forall i :: 0 <= i < |path| - 1 ==> UnionCalls(children, path[i], path[i + 1])
  }

  ghost predicate UnionDependsOn(children: seq<Node>, a: string, b: string) {
    exists path :: UnionPath(children, path) && path[0] == a && path[|path| - 1] == b
  }

  /** The other flows that reach `name` when every declaration counts. */
  ghost function UnionDependants(children: seq<Node>, name: string): set<string> {
    set a | a in Index(children) && a != name && UnionDependsOn(children, a, name)
  }

  lemma UnionCallsAreFlows(children: seq<Node>, a: string, b: string)
    requires UnionCalls(children, a, b)
    ensures a in Index(children) && b in Index(children) && a != b
  {
    hide DeclaredName, Index, CallNames;
  }

  /** The declaration the index keeps is one of the declarations. */
  lemma CallsCount(children: seq<Node>, a: string, b: string)
    requires Calls(Index(children), a, b)
    ensures UnionCalls(children, a, b)
  {
    hide DeclaredName, Index, Callees;
    IndexHolds(children, a);
  }

  lemma UnionDependant(children: seq<Node>, name: string, a: string)
    requires a in Index(children) && a != name && UnionDependsOn(children, a, name)
    ensures a in UnionDependants(children, name)
  {
    hide UnionDependsOn, Index;
  }

  lemma UnionCallerDepends(children: seq<Node>, a: string, b: string)
    requires UnionCalls(children, a, b)
    ensures a in UnionDependants(children, b)
  {
    hide UnionCalls, Index;
    UnionCallsAreFlows(children, a, b);
    assert UnionPath(children, [a, b]);
    UnionDependant(children, b, a);
  }

  /** Counting every declaration never loses a dependant. */
  lemma DependantsCount(children: seq<Node>, name: string)
    ensures Dependants(Index(children), name) <= UnionDependants(children, name)
  {
    hide Index, Calls, UnionCalls;
    var flows := Index(children);
    forall a | a in Dependants(flows, name) ensures a in UnionDependants(children, name) {
      var path :| CallPath(flows, path) && path[0] == a && path[|path| - 1] == name;
      forall i | 0 <= i < |path| - 1 ensures UnionCalls(children, path[i], path[i + 1]) {
        CallsCount(children, path[i], path[i + 1]);
      }
      assert UnionPath(children, path);
      UnionDependant(children, name, a);
    }
  }

  /** Every flow with a declaration that calls `name` or a dependant of it is itself counted. */
  ghost predicate CallersCounted(children: seq<Node>, name: string) {
    var counted := Dependants(Index(children), name);
    forall a, b :: UnionCalls(children, a, b) && (b == name || b in counted) ==> a == name || a in counted
  }

  lemma {:induction false} UnionPathCounted(children: seq<Node>, name: string, path: seq<string>)
    requires CallersCounted(children, name)
    requires UnionPath(children, path) && path[|path| - 1] == name
    ensures path[0] == name || path[0] in Dependants(Index(children), name)
    decreases |path|
  {
    hide UnionCalls, Dependants, Index;
    assert UnionCalls(children, path[0], path[1]);
    if |path| > 2 {
      assert UnionPath(children, path[1..]);
      UnionPathCounted(children, name, path[1..]);
    }
  }

  lemma UnionFurther(children: seq<Node>, a: string, b: string, name: string)
    requires UnionCalls(children, a, b) && b in UnionDependants(children, name) && a != name
    ensures a in UnionDependants(children, name)
  {
    hide UnionCalls, Index;
    UnionCallsAreFlows(children, a, b);
    var path :| UnionPath(children, path) && path[0] == b && path[|path| - 1] == name;
    assert UnionPath(children, [a] + path);
    UnionDependant(children, name, a);
  }

  /** IMPACT of a flow misses no dependant exactly when every lost call towards it comes from a flow that is
      counted all the same. */
  lemma ImpactCompleteIff(children: seq<Node>, name: string)
    ensures Dependants(Index(children), name) == UnionDependants(children, name) <==> CallersCounted(children, name)
    ensures |Dependants(Index(children), name)| < |UnionDependants(children, name)| <==> !CallersCounted(children, name)
  {
    hide Index, UnionCalls, Dependants, UnionDependants;
    var counted, all := Dependants(Index(children), name), UnionDependants(children, name);
    DependantsCount(children, name);
    if CallersCounted(children, name) {
      forall a | a in all ensures a in counted { UnionDependantCounted(children, name, a); }
      assert counted == all;
    } else {
      var a, b :| UnionCalls(children, a, b) && (b == name || b in counted) && a != name && a !in counted;
      if b == name { UnionCallerDepends(children, a, b); } else { UnionFurther(children, a, b, name); }
      Smaller(counted, all, a);
    }
  }

  lemma UnionDependantCounted(children: seq<Node>, name: string, a: string)
    requires CallersCounted(children, name) && a in UnionDependants(children, name)
    ensures a in Dependants(Index(children), name)
  {
    hide Index, UnionCalls, Dependants, CallersCounted;
    var path :| UnionPath(children, path) && path[0] == a && path[|path| - 1] == name;
    UnionPathCounted(children, name, path);
  }

  lemma Smaller(s: set<string>, t: set<string>, x: string)
    requires s <= t && x in t && x !in s
    ensures |s| < |t|
  {
    assert t == s + (t - s) && x in t - s;
  }

  lemma DependsTransitively(flows: Flows, a: string, b: string, c: string)
    requires DependsOn(flows, a, b) && DependsOn(flows, b, c)
    ensures DependsOn(flows, a, c)
  {
    hide Calls;
    var p :| CallPath(flows, p) && p[0] == a && p[|p| - 1] == b;
    var q :| CallPath(flows, q) && q[0] == b && q[|q| - 1] == c;
    assert CallPath(flows, p + q[1..]);
  }

  /** USES, USEDBY and IMPACT miss no dependant of any flow exactly when each call of a replaced declaration is
      still a dependency of the index, through whatever other flows. */
  lemma NothingMissedIff(children: seq<Node>)
    ensures (forall name :: name in Index(children) ==> Dependants(Index(children), name) == UnionDependants(children, name))
       <==> (forall a, b :: UnionCalls(children, a, b) ==> DependsOn(Index(children), a, b))
  {
    hide Index, UnionCalls, DependsOn, Dependants, UnionDependants, CallersCounted;
    var flows := Index(children);
    if forall name :: name in flows ==> Dependants(flows, name) == UnionDependants(children, name) {
      forall a, b | UnionCalls(children, a, b) ensures DependsOn(flows, a, b) {
        UnionCallsAreFlows(children, a, b);
        UnionCallerDepends(children, a, b);
        DependantIsFlow(flows, b, a);
      }
    }
    if forall a, b :: UnionCalls(children, a, b) ==> DependsOn(flows, a, b) {
      forall name ensures Dependants(flows, name) == UnionDependants(children, name) {
        AllCallersCounted(children, name);
        ImpactCompleteIff(children, name);
      }
    }
  }

  lemma AllCallersCounted(children: seq<Node>, name: string)
    requires forall a, b :: UnionCalls(children, a, b) ==> DependsOn(Index(children), a, b)
    ensures CallersCounted(children, name)
  {
    hide Index, UnionCalls, DependsOn, Dependants;
    var flows := Index(children);
    forall a, b | UnionCalls(children, a, b) && (b == name || b in Dependants(flows, name)) && a != name
      ensures a in Dependants(flows, name)
    {
      UnionCallsAreFlows(children, a, b);
      if b != name {
        DependantIsFlow(flows, name, b);
        DependsTransitively(flows, a, b, name);
      }
      FlowIsDependant(flows, name, a);
    }
  }

  /** IMPACT answers 0, safe to delete, for a flow that some declaration reaches exactly when some declaration calls
      the flow and no declaration that the index keeps does. */
  lemma FalseSafeToDeleteIff(children: seq<Node>, name: string)
    requires name in Index(children)
    ensures (|Dependants(Index(children), name)| == 0 && UnionDependants(children, name) != {})
       <==> ((exists a :: UnionCalls(children, a, name)) && forall a :: !Calls(Index(children), a, name))
  {
    hide Index, UnionCalls, Dependants, UnionDependants, UsedBy, Calls;
    var flows := Index(children);
    ZeroImpactIffUncalled(flows, name);
    assert UsedBy(flows, name) == {} <==> forall a :: !Calls(flows, a, name) by {
      forall a ensures Calls(flows, a, name) <==> a in UsedBy(flows, name) { CallersAreFlows(flows, a, name); }
    }
    if UnionDependants(children, name) != {} {
      var a :| a in UnionDependants(children, name);
      LastUnionCall(children, name, a);
    }
    if a :| UnionCalls(children, a, name) { UnionCallerDepends(children, a, name); }
  }

  lemma LastUnionCall(children: seq<Node>, name: string, a: string)
    requires a in UnionDependants(children, name)
    ensures exists b :: UnionCalls(children, b, name)
  {
    hide Index, UnionCalls;
    var path :| UnionPath(children, path) && path[0] == a && path[|path| - 1] == name;
    var k := |path| - 2;
    assert UnionCalls(children, path[k], path[k + 1]);
  }

  function FlowNode(name: string, callees: seq<string>): Node {
    Node(FlowDecl, name, seq(|callees|, i requires 0 <= i < |callees| => Node(CallExpr, callees[i], [])))
  }

  /** Two files declare `helper`; only the first calls `target`, which is then reported safe to delete. */
  lemma ShadowedCallerIsLost()
    ensures var children := [FlowNode("target", []), FlowNode("helper", ["target"]), FlowNode("helper", [])];
      && "target" in Index(children) && "target" in UnionUses(children, "helper")
      && |Dependants(Index(children), "target")| == 0 && "helper" in UnionDependants(children, "target")
  {
    var first, last := FlowNode("helper", ["target"]), FlowNode("helper", []);
    var children := [FlowNode("target", []), first, last];
    var flows := map["target" := children[0], "helper" := last];
    assert children[..2] == [children[0], first] && children[..2][..1] == [children[0]] && [children[0]][..0] == [];
    assert Index([children[0]]) == map["target" := children[0]];
    assert Index(children[..2]) == map["target" := children[0], "helper" := first];
    assert Index(children) == flows;
    assert first.children == [Node(CallExpr, "target", [])];
    assert CallNames(first.children[0]) == {"target"};
    assert "target" in CallNames(first);
    assert "target" in Callees(flows, "helper", first);
    assert DeclaredName(children[1]) == Some("helper");
    assert Uses(flows, "helper") == {} && Uses(flows, "target") == {};
    ZeroImpactIffUncalled(flows, "target");
    UnionCallerDepends(children, "helper", "target");
  }
}
