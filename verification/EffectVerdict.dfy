/** The checker's verdict, read off what the flows declare, perform and call: what is rejected as well as what is
    accepted. */
module EffectVerdict {
  import opened Ast
  import opened Effects
  import opened EffectSoundness

  /** Some flow that `name` reaches by calls declares the effect. */
  ghost predicate Reached(flows: seq<Flow>, name: string, effect: string) {
    exists g :: Calls(flows, name, g) && Declares(flows, g, effect)
  }

  /** A flow that is not pure declares all it performs and all that the flows it reaches declare, and audit evidence
      that it declares is really produced, by itself or by a flow it reaches. */
  ghost predicate DeclaresEnough(flows: seq<Flow>, name: string) {
    && (forall e :: CanPerform(flows, name, e) || Reached(flows, name, e) ==> Declares(flows, name, e))
    && (Declares(flows, name, "audit.write")
        ==> CanPerform(flows, name, "audit.write") || Reached(flows, name, "audit.write"))
  }

  /** A pure flow declares nothing, performs nothing governed in its own body, and reaches no flow that declares
      anything. */
  ghost predicate StaysPure(flows: seq<Flow>, f: Flow) {
    forall e :: !Declares(flows, f.name, e) && !Reached(flows, f.name, e) && (e in f.observed ==> !PureForbidden(e))
  }

  /** The verdict in both directions: a program is accepted exactly when every flow keeps the rule of its kind. */
  lemma AcceptedIff(flows: seq<Flow>)
    requires DistinctNames(flows)
    ensures Accepted(flows) <==> forall f :: f in flows ==> if f.qualifier.Pure? then StaysPure(flows, f) else DeclaresEnough(flows, f.name)
  {
    hide StaysPure, DeclaresEnough, Deserved;
    forall f | f in flows
      ensures (forall d :: Deserved(flows, f, d) ==> !IsError(d))
         <==> if f.qualifier.Pure? then StaysPure(flows, f) else DeclaresEnough(flows, f.name)
    {
      if f.qualifier.Pure? { PureIff(flows, f); } else { OtherIff(flows, f); }
    }
  }

  lemma Introduces(flows: seq<Flow>, name: string, effect: string)
    ensures Introduced(flows, name, effect) <==> Reached(flows, name, effect)
  {
    hide Calls, Declares;
  }

  lemma EffectfulIff(flows: seq<Flow>, f: Flow, callee: string)
    requires DistinctNames(flows) && f in flows
    ensures callee in f.calls && Effectful(flows, callee)
       <==> Edge(flows, f.name, callee) && !Find(flows, callee).value.qualifier.Pure? && exists e :: Declares(flows, callee, e)
  {
    FindSelf(flows, f);
    if Effectful(flows, callee) {
      var i :| 0 <= i < |flows| && flows[i].name == callee && !flows[i].qualifier.Pure? && flows[i].declared != [];
      FindSelf(flows, flows[i]);
      assert Declares(flows, callee, flows[i].declared[0]);
    }
    if e :| Edge(flows, f.name, callee) && !Find(flows, callee).value.qualifier.Pure? && Declares(flows, callee, e) {
      var g := Find(flows, callee).value;
      var i :| 0 <= i < |flows| && flows[i] == g;
      assert Effectful(flows, callee);
    }
  }

  lemma PureIff(flows: seq<Flow>, f: Flow)
    requires DistinctNames(flows) && f in flows && f.qualifier.Pure?
    ensures (forall d :: Deserved(flows, f, d) ==> !IsError(d)) <==> StaysPure(flows, f)
  {
    FindSelf(flows, f);
    hide PureForbidden, NotCallObserved, Effectful, Calls, Introduced, Reached;
    forall e ensures Introduced(flows, f.name, e) <==> Reached(flows, f.name, e) { Introduces(flows, f.name, e); }
    if StaysPure(flows, f) {
      forall d ensures !Deserved(flows, f, d) {
        DeclaresSome(flows, f);
        if d.about in f.calls && Effectful(flows, d.about) {
          EffectfulIff(flows, f, d.about);
          var e :| Declares(flows, d.about, e);
          OneCall(flows, f.name, d.about);
          ReachedBy(flows, f.name, d.about, e);
        }
      }
    } else {
      var e :| !(!Declares(flows, f.name, e) && !Reached(flows, f.name, e) && (e in f.observed ==> !PureForbidden(e)));
      assert Declares(flows, f.name, e) ==> PureFinding(flows, f, Diagnostic(Effect003, ""));
      assert e in f.observed && PureForbidden(e) ==> PureFinding(flows, f, Diagnostic(Effect003, e));
      assert Reached(flows, f.name, e) && f.declared == [] ==> PropagationFinding(flows, f, Diagnostic(Effect002, e));
      assert f.declared != [] ==> PureFinding(flows, f, Diagnostic(Effect003, ""));
      assert IsError(Diagnostic(Effect003, "")) && IsError(Diagnostic(Effect003, e))
          && IsError(Diagnostic(Effect002, e));
    }
  }

  lemma ReachedBy(flows: seq<Flow>, name: string, g: string, effect: string)
    requires Calls(flows, name, g) && Declares(flows, g, effect)
    ensures Reached(flows, name, effect)
  {
  }

  lemma OtherIff(flows: seq<Flow>, f: Flow)
    requires DistinctNames(flows) && f in flows && !f.qualifier.Pure?
    ensures (forall d :: Deserved(flows, f, d) ==> !IsError(d)) <==> DeclaresEnough(flows, f.name)
  {
    FindSelf(flows, f);
    hide PureForbidden, Effectful, Calls, Introduced, Reached;
    forall e ensures Introduced(flows, f.name, e) <==> Reached(flows, f.name, e) { Introduces(flows, f.name, e); }
    if DeclaresEnough(flows, f.name) {
      forall d | Deserved(flows, f, d) ensures !IsError(d) {
        hide NotCallObserved;
        assert d.about in f.observed || d.about in f.helpers ==> CanPerform(flows, f.name, d.about);
      }
    } else {
      assert !NotCallObserved("audit.write");
      hide NotCallObserved;
      if e :| (CanPerform(flows, f.name, e) || Reached(flows, f.name, e)) && !Declares(flows, f.name, e) {
        assert e in f.observed ==> DeclarationFinding(flows, f, Diagnostic(UndeclaredCode(e), e));
        assert e !in f.observed ==> PropagationFinding(flows, f, Diagnostic(Effect002, e));
        assert IsError(Diagnostic(UndeclaredCode(e), e)) && IsError(Diagnostic(Effect002, e));
      } else {
        assert DeclarationFinding(flows, f, Diagnostic(Audit001, "audit.write"));
        assert IsError(Diagnostic(Audit001, "audit.write"));
      }
    }
  }

  /** Which findings a flow gets, code by code: undeclared effects of its own body. */
  lemma UndeclaredIff(flows: seq<Flow>, f: Flow, about: string)
    requires DistinctNames(flows) && f in flows
    ensures Deserved(flows, f, Diagnostic(Effect001, about))
       <==> !f.qualifier.Pure? && about in f.observed && !Declares(flows, f.name, about) && about !in {"pii.read", "phi.read", "phi.write"}
    ensures Deserved(flows, f, Diagnostic(Pii001, about))
       <==> !f.qualifier.Pure? && about in f.observed && !Declares(flows, f.name, about) && about == "pii.read"
    ensures Deserved(flows, f, Diagnostic(Phi001, about))
       <==> !f.qualifier.Pure? && about in f.observed && !Declares(flows, f.name, about) && about in {"phi.read", "phi.write"}
  {
    FindSelf(flows, f);
    hide PureForbidden, NotCallObserved, Effectful, Calls, Introduced;
  }

  /** What called flows and helpers require, and what a pure flow may not do. */
  lemma RequiredIff(flows: seq<Flow>, f: Flow, about: string)
    requires DistinctNames(flows) && f in flows
    ensures Deserved(flows, f, Diagnostic(Effect002, about))
       <==> !Declares(flows, f.name, about) && (Reached(flows, f.name, about) || (!f.qualifier.Pure? && about in f.helpers))
    ensures Deserved(flows, f, Diagnostic(Effect003, about))
       <==> f.qualifier.Pure?
            && (|| (about == "" && exists e :: Declares(flows, f.name, e))
                || (about in f.observed && PureForbidden(about))
                || (Edge(flows, f.name, about) && !Find(flows, about).value.qualifier.Pure?
                    && exists e :: Declares(flows, about, e)))
  {
    FindSelf(flows, f);
    Introduces(flows, f.name, about);
    EffectfulIff(flows, f, about);
    DeclaresSome(flows, f);
    hide PureForbidden, NotCallObserved, Effectful, Calls, Introduced, Reached, Edge;
  }

  /** Declared effects that nothing produces: an error for audit evidence, a warning for the rest. */
  lemma OverdeclaredIff(flows: seq<Flow>, f: Flow, about: string)
    requires DistinctNames(flows) && f in flows
    ensures Deserved(flows, f, Diagnostic(Effect007, about)) || Deserved(flows, f, Diagnostic(Audit001, about))
       <==> !f.qualifier.Pure? && Declares(flows, f.name, about) && !NotCallObserved(about)
            && !CanPerform(flows, f.name, about) && !Reached(flows, f.name, about)
    ensures Deserved(flows, f, Diagnostic(Audit001, about)) ==> about == "audit.write"
    ensures Deserved(flows, f, Diagnostic(Effect007, about)) ==> about != "audit.write"
  {
    FindSelf(flows, f);
    Introduces(flows, f.name, about);
    hide PureForbidden, NotCallObserved, Effectful, Calls, Introduced, Reached, Edge;
  }

  lemma DeclaresSome(flows: seq<Flow>, f: Flow)
    requires Find(flows, f.name) == Some(f)
    ensures f.declared != [] <==> exists e :: Declares(flows, f.name, e)
  {
    if f.declared != [] { assert Declares(flows, f.name, f.declared[0]); }
  }
}
