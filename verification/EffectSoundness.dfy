/** The checker's verdict on a program, and what an accepted program can do when it runs. */
module EffectSoundness {
  import opened Ast
  import opened Effects

  datatype Code =
    | Effect001            // observed but not declared
    | Effect002            // required by a called flow, or by a nested helper, but not declared
    | Effect003            // a pure flow declares, performs or calls into effects
    | Effect007            // declared but never observed: a warning
    | Pii001 | Phi001      // Effect001 for personal and health data
    | Audit001             // audit evidence declared but never produced

  /** A finding: its code and the effect, or the callee, it is about. */
  datatype Diagnostic = Diagnostic(code: Code, about: string)

  predicate IsError(d: Diagnostic) { !d.code.Effect007? }

  function UndeclaredCode(effect: string): Code {
    if effect == "pii.read" then Pii001
    else if effect == "phi.read" || effect == "phi.write" then Phi001
    else Effect001
  }

  function OverdeclaredCode(effect: string): Code {
    if effect == "audit.write" then Audit001 else Effect007
  }

  /** Flows that declare effects and are not pure. */
  predicate Effectful(flows: seq<Flow>, name: string) {
    exists i :: 0 <= i < |flows| && flows[i].name == name && !flows[i].qualifier.Pure? && flows[i].declared != []
  }

  /** A pure flow declares nothing, performs nothing governed and calls no effectful flow. */
  ghost predicate PureFinding(flows: seq<Flow>, f: Flow, d: Diagnostic) {
    && d.code == Effect003 && f.qualifier.Pure?
    && (|| (f.declared != [] && d.about == "")
        || (d.about in f.observed && PureForbidden(d.about))
        || (d.about in f.calls && Effectful(flows, d.about)))
  }

  ghost predicate UndeclaredFinding(f: Flow, d: Diagnostic) {
    d.about !in f.declared && d.code == UndeclaredCode(d.about)
  }

  ghost predicate OverdeclaredFinding(flows: seq<Flow>, f: Flow, d: Diagnostic) {
    && d.about !in f.observed && d.about !in f.helpers && !NotCallObserved(d.about)
    && !Introduced(flows, f.name, d.about) && d.code == OverdeclaredCode(d.about)
  }

  /** Declared against observed, for every flow that is not pure. */
  ghost predicate DeclarationFinding(flows: seq<Flow>, f: Flow, d: Diagnostic) {
    && !f.qualifier.Pure?
    && (|| (d.about in f.observed && UndeclaredFinding(f, d))
        || (d.about in f.declared && OverdeclaredFinding(flows, f, d)))
  }

  /** What called flows and nested helpers require. Helpers of a pure flow are not looked at. */
  ghost predicate PropagationFinding(flows: seq<Flow>, f: Flow, d: Diagnostic) {
    && d.code == Effect002 && d.about !in f.declared
    && (Introduced(flows, f.name, d.about) || (!f.qualifier.Pure? && d.about in f.helpers))
  }

  /** Exactly the findings a flow deserves. */
  ghost predicate Deserved(flows: seq<Flow>, f: Flow, d: Diagnostic) {
    PureFinding(flows, f, d) || DeclarationFinding(flows, f, d) || PropagationFinding(flows, f, d)
  }

  method CheckFlow(flows: seq<Flow>, f: Flow) returns (diagnostics: seq<Diagnostic>)
    requires Find(flows, f.name).Some?
    ensures forall d :: d in diagnostics <==> Deserved(flows, f, d)
  {
    hide PureFinding, DeclarationFinding, PropagationFinding;
    var pureOnes := CheckPure(flows, f);
    var ownOnes := CheckDeclarations(flows, f);
    var required := CheckPropagation(flows, f);
    diagnostics := pureOnes + ownOnes + required;
  }

  method CheckPure(flows: seq<Flow>, f: Flow) returns (ds: seq<Diagnostic>)
    ensures forall d :: d in ds <==> PureFinding(flows, f, d)
  {
    hide PureForbidden, Effectful;
    ds := [];
    if !f.qualifier.Pure? {
      return;
    }
    if f.declared != [] {
      ds := [Diagnostic(Effect003, "")];
    }
    for i := 0 to |f.observed|
      invariant forall d :: d in ds <==>
                  d.code == Effect003 && ((f.declared != [] && d.about == "")
                    || (d.about in f.observed[..i] && PureForbidden(d.about)))
    {
      if PureForbidden(f.observed[i]) {
        ds := ds + [Diagnostic(Effect003, f.observed[i])];
      }
    }
    assert f.observed[..|f.observed|] == f.observed;
    for i := 0 to |f.calls|
      invariant forall d :: d in ds <==>
                  d.code == Effect003 && ((f.declared != [] && d.about == "")
                    || (d.about in f.observed && PureForbidden(d.about))
                    || (d.about in f.calls[..i] && Effectful(flows, d.about)))
    {
      if Effectful(flows, f.calls[i]) && f.calls[i] !in f.calls[..i] {
        ds := ds + [Diagnostic(Effect003, f.calls[i])];
      }
    }
    assert f.calls[..|f.calls|] == f.calls;
  }

  method CheckDeclarations(flows: seq<Flow>, f: Flow) returns (ds: seq<Diagnostic>)
    requires Find(flows, f.name).Some?
    ensures forall d :: d in ds <==> DeclarationFinding(flows, f, d)
  {
    hide NotCallObserved, Introduced, UndeclaredCode, OverdeclaredCode;
    ds := [];
    if f.qualifier.Pure? {
      return;
    }
    for i := 0 to |f.observed|
      invariant forall d :: d in ds <==> d.about in f.observed[..i] && UndeclaredFinding(f, d)
    {
      var e := f.observed[i];
      if e !in f.declared {
        ds := ds + [Diagnostic(UndeclaredCode(e), e)];
      }
    }
    assert f.observed[..|f.observed|] == f.observed;
    ghost var undeclared := ds;
    for i := 0 to |f.declared|
      invariant forall d :: d in ds <==>
                  d in undeclared || (d.about in f.declared[..i] && OverdeclaredFinding(flows, f, d))
    {
      var e := f.declared[i];
      if e !in f.observed && e !in f.helpers && !NotCallObserved(e) {
        var introduced := HasTransitiveEffect(flows, f.name, e);
        if !introduced {
          ds := ds + [Diagnostic(OverdeclaredCode(e), e)];
        }
      }
    }
    assert f.declared[..|f.declared|] == f.declared;
  }

  method CheckPropagation(flows: seq<Flow>, f: Flow) returns (ds: seq<Diagnostic>)
    ensures forall d :: d in ds <==> PropagationFinding(flows, f, d)
  {
    hide Introduced, Justified;
    var required := RequiredEffects(flows, f.name);
    ds := [];
    var left := required.Keys;
    while left != {}
      invariant left <= required.Keys
      invariant forall d :: d in ds <==>
                  d.code == Effect002 && d.about !in f.declared && d.about in required && d.about !in left
      decreases left
    {
      var e :| e in left;
      left := left - {e};
      if e !in f.declared {
        ds := ds + [Diagnostic(Effect002, e)];
      }
    }
    if f.qualifier.Pure? {
      return;
    }
    ghost var fromCalls := ds;
    for i := 0 to |f.helpers|
      invariant forall d :: d in ds <==>
                  d in fromCalls || (d.code == Effect002 && d.about !in f.declared && d.about in f.helpers[..i])
    {
      if f.helpers[i] !in f.declared {
        ds := ds + [Diagnostic(Effect002, f.helpers[i])];
      }
    }
    assert f.helpers[..|f.helpers|] == f.helpers;
  }

  /** No flow has an error finding. */
  ghost predicate Accepted(flows: seq<Flow>) {
    forall f, d :: f in flows && Deserved(flows, f, d) ==> !IsError(d)
  }

  method CheckEffects(flows: seq<Flow>) returns (results: seq<seq<Diagnostic>>)
    ensures |results| == |flows|
    ensures forall k, d :: 0 <= k < |flows| ==> (d in results[k] <==> Deserved(flows, flows[k], d))
    ensures Accepted(flows) <==> forall i, d :: 0 <= i < |flows| && d in results[i] ==> !IsError(d)
  {
    hide Deserved;
    results := [];
    for i := 0 to |flows|
      invariant |results| == i
      invariant forall k, d :: 0 <= k < i ==> (d in results[k] <==> Deserved(flows, flows[k], d))
    {
      var ds := CheckFlow(flows, flows[i]);
      results := results + [ds];
    }
  }

  // ----- Runs -----

  /** One observable step: the running flow calls another, returns, or performs an effect. */
  datatype Event = Call(callee: string) | Return | Perform(effect: string)

  /** A flow performs the effects its own body and its nested helpers show. */
  predicate CanPerform(flows: seq<Flow>, name: string, effect: string) {
    Find(flows, name).Some? && (effect in Find(flows, name).value.observed || effect in Find(flows, name).value.helpers)
  }

  /** The call stack after one event, innermost flow last; `None` when the event is not possible. */
  function Next(flows: seq<Flow>, stack: seq<string>, e: Event): Option<seq<string>> {
    if stack == [] then None
    else
      var top := stack[|stack| - 1];
      match e
      case Call(g) => if Edge(flows, top, g) then Some(stack + [g]) else None
      case Return => Some(stack[..|stack| - 1])
      case Perform(effect) => if CanPerform(flows, top, effect) then Some(stack) else None
  }

  function After(flows: seq<Flow>, stack: seq<string>, events: seq<Event>): Option<seq<string>>
    decreases events
  {
    if events == [] then Some(stack)
    else
      match Next(flows, stack, events[0])
      case None => None
      case Some(s) => After(flows, s, events[1..])
  }

  /** Whenever a run performs a governed effect, every flow on the call stack declares it. */
  ghost predicate EffectsAreDeclared(flows: seq<Flow>) {
    forall entry, events, effect, i ::
      Find(flows, entry).Some? && After(flows, [entry], events).Some? ==>
        var stack := After(flows, [entry], events).value;
        stack != [] && CanPerform(flows, stack[|stack| - 1], effect) && PureForbidden(effect) && 0 <= i < |stack| ==>
          Declares(flows, stack[i], effect)
  }

  /** The one thing the checker does not look at: effects in a pure flow's nested helpers. */
  ghost predicate PureHelpersAreClean(flows: seq<Flow>) {
    forall f, e :: f in flows && f.qualifier.Pure? && e in f.helpers ==> !PureForbidden(e)
  }

  predicate DistinctNames(flows: seq<Flow>) {
    forall i, j :: 0 <= i < j < |flows| ==> flows[i].name != flows[j].name
  }

  lemma FindSelf(flows: seq<Flow>, f: Flow)
    requires DistinctNames(flows) && f in flows
    ensures Find(flows, f.name) == Some(f)
  {
    var i :| 0 <= i < |flows| && flows[i] == f;
    if i > 0 {
      assert flows[1..][i - 1] == f;
      FindSelf(flows[1..], f);
    }
  }

  /** Each flow on the stack is known and called directly by the one below it. */
  ghost predicate WellStacked(flows: seq<Flow>, stack: seq<string>) {
    (forall i :: 0 <= i < |stack| ==> Find(flows, stack[i]).Some?) && IsPath(flows, stack)
  }

  lemma {:induction false} StaysStacked(flows: seq<Flow>, stack: seq<string>, events: seq<Event>)
    requires WellStacked(flows, stack) && After(flows, stack, events).Some?
    ensures WellStacked(flows, After(flows, stack, events).value)
    decreases events
  {
    hide WellStacked, Next;
    if events != [] {
      NextStacked(flows, stack, events[0]);
      StaysStacked(flows, Next(flows, stack, events[0]).value, events[1..]);
    }
  }

  lemma NextStacked(flows: seq<Flow>, stack: seq<string>, e: Event)
    requires WellStacked(flows, stack) && Next(flows, stack, e).Some?
    ensures WellStacked(flows, Next(flows, stack, e).value)
  {
    hide Find, CanPerform;
  }

  lemma NoFinding(flows: seq<Flow>, f: Flow, d: Diagnostic)
    requires Accepted(flows) && f in flows && IsError(d)
    ensures !Deserved(flows, f, d)
  {
    hide Deserved;
  }

  /** An accepted flow declares what it performs, unless it is a pure flow's helper effect. */
  lemma PerformedIsDeclared(flows: seq<Flow>, name: string, effect: string)
    requires Accepted(flows) && PureHelpersAreClean(flows)
    requires CanPerform(flows, name, effect) && PureForbidden(effect)
    ensures Declares(flows, name, effect)
  {
    hide PureForbidden, NotCallObserved, Introduced, Effectful;
    var f := Find(flows, name).value;
    NoFinding(flows, f, Diagnostic(Effect003, effect));
    NoFinding(flows, f, Diagnostic(UndeclaredCode(effect), effect));
    NoFinding(flows, f, Diagnostic(Effect002, effect));
  }

  /** Callers declare what the flows they reach declare. */
  lemma RequiredIsDeclared(flows: seq<Flow>, caller: string, callee: string, effect: string)
    requires Accepted(flows) && Find(flows, caller).Some?
    requires Calls(flows, caller, callee) && Declares(flows, callee, effect)
    ensures Declares(flows, caller, effect)
  {
    hide PureForbidden, NotCallObserved, Effectful, Calls;
    var f := Find(flows, caller).value;
    assert Introduced(flows, f.name, effect);
    NoFinding(flows, f, Diagnostic(Effect002, effect));
  }

  /** Whole-run soundness, with its exact condition: an accepted program never performs a governed
      effect under a flow that does not declare it if and only if no pure flow hides one in a
      nested helper. */
  lemma AcceptedRunsAreDeclared(flows: seq<Flow>)
    requires DistinctNames(flows) && Accepted(flows)
    ensures EffectsAreDeclared(flows) <==> PureHelpersAreClean(flows)
  {
    if PureHelpersAreClean(flows) {
      forall entry, events, effect, i |
        && Find(flows, entry).Some? && After(flows, [entry], events).Some?
        && After(flows, [entry], events).value != []
        && CanPerform(flows, After(flows, [entry], events).value[|After(flows, [entry], events).value| - 1], effect)
        && PureForbidden(effect) && 0 <= i < |After(flows, [entry], events).value|
        ensures Declares(flows, After(flows, [entry], events).value[i], effect)
      {
        StackDeclares(flows, entry, events, effect, i);
      }
    } else {
      HiddenHelperRuns(flows);
    }
  }

  lemma StackDeclares(flows: seq<Flow>, entry: string, events: seq<Event>, effect: string, i: int)
    requires Accepted(flows) && PureHelpersAreClean(flows)
    requires Find(flows, entry).Some? && After(flows, [entry], events).Some? && PureForbidden(effect)
    requires var stack := After(flows, [entry], events).value;
             stack != [] && CanPerform(flows, stack[|stack| - 1], effect) && 0 <= i < |stack|
    ensures Declares(flows, After(flows, [entry], events).value[i], effect)
  {
    hide Accepted, PureForbidden, PureHelpersAreClean, After, Declares, CanPerform, Edge, Calls, Find;
    var stack := After(flows, [entry], events).value;
    StaysStacked(flows, [entry], events);
    var top := stack[|stack| - 1];
    PerformedIsDeclared(flows, top, effect);
    if i < |stack| - 1 {
      StackedCalls(flows, stack, i);
      RequiredIsDeclared(flows, stack[i], top, effect);
    }
  }

  lemma StackedCalls(flows: seq<Flow>, stack: seq<string>, i: nat)
    requires WellStacked(flows, stack) && i < |stack| - 1
    ensures Find(flows, stack[i]).Some? && Calls(flows, stack[i], stack[|stack| - 1])
  {
    hide Edge, Find;
    assert PathBetween(flows, stack[i], stack[|stack| - 1], stack[i..]);
  }

  lemma HiddenHelperRuns(flows: seq<Flow>)
    requires DistinctNames(flows) && Accepted(flows) && !PureHelpersAreClean(flows)
    ensures !EffectsAreDeclared(flows)
  {
    hide PureForbidden;
    var f, e :| f in flows && f.qualifier.Pure? && e in f.helpers && PureForbidden(e);
    FindSelf(flows, f);
    NoFinding(flows, f, Diagnostic(Effect003, ""));
    assert After(flows, [f.name], []) == Some([f.name]);
    assert !Declares(flows, [f.name][0], e);
  }
}
