/** Which checked snapshots are emitted: exactly those whose trace consists of parameters and numeric constants, ends
    its blocks in returns, and returns what it has bound. */
module GirAccepts {
  import opened Ast
  import opened Gir
  import opened GirProof
  import opened GirMeaning

  /** A fact that is emitted, a parameter of the snapshot or a constant with a number, or passed over as a terminator.
      */
  ghost predicate Carried(s: Snapshot, fact: Fact) {
    || fact.operation in {BranchFact, ReturnFact}
    || (fact.operation == ParameterFact && exists d :: d in s.declarations && d.kind == Parameter && d.id == fact.declarationId)
    || (fact.operation == ConstantFact && exists c :: c in s.constants && Some(c.id) == fact.constantId && c.number.Some?)
  }

  ghost predicate AllCarried(s: Snapshot, facts: seq<Fact>) {
    forall i :: 0 <= i < |facts| ==> Carried(s, facts[i])
  }

  // ----- Types -----

  lemma {:induction false} TypeKnown(types: seq<ResolvedType>, id: nat)
    requires exists t :: t in types && t.id == id
    ensures FindType(types, id).Ok?
  {
    var t :| t in types && t.id == id;
    if types[0].id != id {
      assert t in types[1..];
      TypeKnown(types[1..], id);
    }
  }

  lemma TypeListed(s: Snapshot, id: nat)
    requires id in TypeIds(s)
    ensures FindType(s.types, id).Ok?
  {
    var i :| 0 <= i < |TypeIds(s)| && TypeIds(s)[i] == id;
    assert s.types[i] in s.types && s.types[i].id == id;
    TypeKnown(s.types, id);
  }

  lemma DeclarationTyped(s: Snapshot, d: Declaration)
    requires Checked(s) && d in s.declarations
    ensures FindType(s.types, d.typeId).Ok?
  {
    hide CheckedFact, FindType;
    var i :| 0 <= i < |s.declarations| && s.declarations[i] == d;
    TypeListed(s, d.typeId);
  }

  lemma ConstantTyped(s: Snapshot, c: Constant)
    requires Checked(s) && c in s.constants
    ensures FindType(s.types, c.typeId).Ok?
  {
    hide CheckedFact, FindType;
    var i :| 0 <= i < |s.constants| && s.constants[i] == c;
    TypeListed(s, c.typeId);
  }

  lemma {:induction false} ParametersTyped(s: Snapshot, parameters: seq<Declaration>)
    requires Checked(s) && forall d :: d in parameters ==> d in s.declarations
    ensures ParameterTypes(s, parameters).Ok?
  {
    hide Checked, FindType;
    if parameters != [] {
      ParametersTyped(s, parameters[..|parameters| - 1]);
      DeclarationTyped(s, parameters[|parameters| - 1]);
    }
  }

  // ----- Instructions -----

  lemma ParameterIff(s: Snapshot, fact: Fact, resultId: nat)
    requires Checked(s) && fact.operation == ParameterFact
    ensures EmitInstruction(s, fact, resultId).Ok? <==> Carried(s, fact)
  {
    CheckedIsDistinct(s);
    hide Checked, FindType, SortedParameters;
    ParametersAreOrdered(s.declarations);
    var sorted := SortedParameters(s.declarations);
    if EmitInstruction(s, fact, resultId).Ok? {
      var d := sorted[IndexOfParameter(sorted, fact.declarationId).value];
      assert d in sorted;
    }
    if d :| d in s.declarations && d.kind == Parameter && d.id == fact.declarationId {
      assert d in sorted;
      DeclarationTyped(s, FindDeclaration(s.declarations, fact.declarationId).value);
    }
  }

  lemma {:induction false} ConstantKnown(constants: seq<Constant>, id: nat)
    requires exists c :: c in constants && c.id == id
    ensures FindConstant(constants, id).Some?
  {
    var c :| c in constants && c.id == id;
    if constants[0].id != id {
      assert c in constants[1..];
      ConstantKnown(constants[1..], id);
    }
  }

  lemma ConstantIff(s: Snapshot, fact: Fact, resultId: nat)
    requires Checked(s) && fact.operation == ConstantFact
    ensures EmitInstruction(s, fact, resultId).Ok? <==> Carried(s, fact)
  {
    CheckedIsDistinct(s);
    hide Checked, FindType, FindConstant, DistinctIds, DistinctFacts;
    if fact.constantId.Some? {
      var id := fact.constantId.value;
      FoundConstant(s.constants, id);
      if FindConstant(s.constants, id).Some? { ConstantTyped(s, FindConstant(s.constants, id).value); }
      if c :| c in s.constants && c.id == id && c.number.Some? {
        ConstantKnown(s.constants, id);
        SameConstant(s.constants, c, FindConstant(s.constants, id).value);
      }
    }
  }

  lemma SameConstant(constants: seq<Constant>, c: Constant, d: Constant)
    requires DistinctConstants(constants) && c in constants && d in constants && c.id == d.id
    ensures c == d
  {
    var i :| 0 <= i < |constants| && constants[i] == c;
    var j :| 0 <= j < |constants| && constants[j] == d;
    assert i == j;
  }

  /** A run of facts is emitted exactly when each of them can be. */
  lemma {:induction false} EmitIff(s: Snapshot, facts: seq<Fact>, results: Results)
    requires Checked(s)
    ensures Emit(s, facts, results).Emitted? <==> AllCarried(s, facts)
  {
    hide Checked, EmitInstruction, Bind;
    if facts != [] {
      var n := |facts| - 1;
      var fact := facts[n];
      EmitIff(s, facts[..n], results);
      assert AllCarried(s, facts) <==> AllCarried(s, facts[..n]) && Carried(s, fact) by {
        assert forall i :: 0 <= i < n ==> facts[..n][i] == facts[i];
        hide Carried;
      }
      if Emit(s, facts[..n], results).Emitted? && !Skipped(fact) {
        var next := Emit(s, facts[..n], results).results.next;
        if fact.operation == ParameterFact { ParameterIff(s, fact, next); }
        else if fact.operation == ConstantFact { ConstantIff(s, fact, next); }
      }
    }
  }

  // ----- Blocks -----

  lemma ReturningIff(s: Snapshot, id: nat, facts: seq<Fact>, results: Results)
    requires Checked(s) && facts != [] && Below(results)
    ensures var body, key := facts[..|facts| - 1], ReturnKey(facts[|facts| - 1]);
            EmitReturning(s, id, facts, results).Ok? <==> AllCarried(s, body) && (BoundIn(body, key) || ResultOf(results, key).Some?)
  {
    hide Checked, Emit, ResultOf, Below, AllCarried, Binds;
    var body, key := facts[..|facts| - 1], ReturnKey(facts[|facts| - 1]);
    EmitIff(s, body, results);
    if Emit(s, body, results).Emitted? { ResultAfter(s, body, results, key); }
  }

  lemma FunctionIff(s: Snapshot)
    requires Checked(s)
    ensures EmitFunction(s).Ok? <==> EmitBlocks(s).Ok?
  {
    CheckedIsDistinct(s);
    ParametersAreOrdered(s.declarations);
    ParametersTyped(s, SortedParameters(s.declarations));
    hide EmitBlocks, ParameterTypes, SortedParameters, FindType, CheckedFact;
    DeclarationTyped(s, FindDeclaration(s.declarations, s.entryFlowId).value);
  }

  lemma {:induction false} NoBranch(facts: seq<Fact>)
    requires forall k :: 0 <= k < |facts| ==> facts[k].operation != BranchFact
    ensures FindBranch(facts) == None
  {
    if facts != [] { NoBranch(facts[1..]); }
  }

  /** Straight code is emitted exactly when it ends in a return of something that it binds and can be carried. */
  lemma StraightEmittedIff(s: Snapshot)
    requires Checked(s) && forall k :: 0 <= k < |s.facts| ==> s.facts[k].operation != BranchFact
    ensures EmitFunction(s).Ok?
       <==> s.facts != []
            && var n := |s.facts| - 1;
               && s.facts[n].operation == ReturnFact && AllCarried(s, s.facts[..n])
                   && BoundIn(s.facts[..n], ReturnKey(s.facts[n]))
  {
    hide Checked, EmitFunction, EmitReturning, AllCarried, BoundIn;
    FunctionIff(s);
    NoBranch(s.facts);
    if s.facts != [] {
      NothingIsBelow();
      NothingBound(ReturnKey(s.facts[|s.facts| - 1]));
      ReturningIff(s, 0, s.facts, NOTHING);
    }
  }

  /** What a branching trace needs: both branches return something bound in the entry, in the first branch, or (for the
      second) in its own facts. */
  ghost predicate Branches(s: Snapshot, at: nat, first: nat, second: nat) {
    && BranchStands(s.facts, at, first, second) && at < first < second && |s.facts[at].operands| == 1
    && var last := |s.facts| - 1;
       && s.facts[second - 1].operation == ReturnFact && s.facts[last].operation == ReturnFact
       && AllCarried(s, s.facts[..at]) && AllCarried(s, s.facts[first..second - 1])
           && AllCarried(s, s.facts[second..last])
       && BoundIn(s.facts[..at], DeclarationKey(s.facts[at].operands[0]))
       && (BoundIn(s.facts[..at], ReturnKey(s.facts[second - 1]))
           || BoundIn(s.facts[first..second - 1], ReturnKey(s.facts[second - 1])))
       && (|| BoundIn(s.facts[..at], ReturnKey(s.facts[last]))
           || BoundIn(s.facts[first..second - 1], ReturnKey(s.facts[last]))
           || BoundIn(s.facts[second..last], ReturnKey(s.facts[last])))
  }

  /** A trace with a branch is emitted exactly when it branches so. */
  lemma BranchEmittedIff(s: Snapshot, at: nat)
    requires Checked(s) && at < |s.facts| && s.facts[at].operation == BranchFact
    requires forall k :: 0 <= k < at ==> s.facts[k].operation != BranchFact
    ensures EmitFunction(s).Ok? <==> exists first: nat, second: nat :: Branches(s, at, first, second)
  {
    hide Checked, EmitFunction, EmitBranching, Targets, FindBranch, Branches, BranchStands, DistinctIds,
        DistinctConstants;
    FunctionIff(s);
    FirstBranch(s.facts, at);
    CheckedIsDistinct(s);
    if Targets(s.facts, at).Ok? {
      var (first, second) := Targets(s.facts, at).value;
      TargetsStand(s, at);
      BranchingIff(s, at, first, second);
    }
    if EmitBranching(s, at).Ok? { NeedsTargets(s, at); }
    forall first: nat, second: nat | Branches(s, at, first, second) ensures EmitBranching(s, at).Ok? {
      BranchesStands(s, at, first, second);
      BranchFound(s.facts, at, first, second);
      StandingTargets(s, at, first, second);
      BranchingIff(s, at, first, second);
    }
  }

  lemma BranchesStands(s: Snapshot, at: nat, first: nat, second: nat)
    requires Branches(s, at, first, second)
    ensures BranchStands(s.facts, at, first, second) && at < first < second && |s.facts[at].operands| == 1
  {
    hide AllCarried, BoundIn;
  }

  lemma NeedsTargets(s: Snapshot, at: nat)
    requires at < |s.facts| && EmitBranching(s, at).Ok?
    ensures Targets(s.facts, at).Ok?
  {
    hide Targets, Emit, EmitReturning;
  }

  lemma TargetsStand(s: Snapshot, at: nat)
    requires at < |s.facts| && s.facts[at].operation == BranchFact && Targets(s.facts, at).Ok?
    requires forall k :: 0 <= k < at ==> s.facts[k].operation != BranchFact
    ensures var (first, second) := Targets(s.facts, at).value; BranchStands(s.facts, at, first, second)
  {
    hide FindFact;
  }

  lemma StandingTargets(s: Snapshot, at: nat, first: nat, second: nat)
    requires BranchStands(s.facts, at, first, second) && DistinctFacts(s.facts) && at < first < second
        && |s.facts[at].operands| == 1
    ensures Targets(s.facts, at) == Ok((first, second))
  {
    FactFound(s.facts, first);
    FactFound(s.facts, second);
    hide FindFact;
  }

  lemma BranchingIff(s: Snapshot, at: nat, first: nat, second: nat)
    requires Checked(s) && at < |s.facts| && BranchStands(s.facts, at, first, second)
        && Targets(s.facts, at) == Ok((first, second))
    ensures EmitBranching(s, at).Ok? <==> Branches(s, at, first, second)
  {
    hide Checked, Emit, EmitReturning, Targets, ResultOf, Below, AllCarried, Binds, BranchStands;
    var last := |s.facts| - 1;
    var condition := DeclarationKey(s.facts[at].operands[0]);
    var k1, k2 := ReturnKey(s.facts[second - 1]), ReturnKey(s.facts[last]);
    NothingIsBelow();
    EmitIff(s, s.facts[..at], NOTHING);
    SliceEnds(s.facts, first, second);
    Bodies(s.facts, first, second);
    LastOfSlice(s.facts, first, second);
    if Emit(s, s.facts[..at], NOTHING).Emitted? {
      var results := Emit(s, s.facts[..at], NOTHING).results;
      EmitIsDense(s, s.facts[..at], NOTHING);
      KeyAfter(s, at, condition);
      KeyAfter(s, at, k1);
      KeyAfter(s, at, k2);
      ReturningIff(s, 1, s.facts[first..second], results);
      if EmitReturning(s, 1, s.facts[first..second], results).Ok? {
        BlockIsDense(s, 1, s.facts[first..second], results);
        ReturnOperandIs(s, 1, s.facts[first..second], results);
        ResultAfter(s, s.facts[first..second - 1], results, k2);
        ReturningIff(s, 2, s.facts[second..], EmitReturning(s, 1, s.facts[first..second], results).value.1);
      }
    }
    hide BoundIn, ReturnKey;
  }

  lemma KeyAfter(s: Snapshot, at: nat, key: Key)
    requires at <= |s.facts| && Emit(s, s.facts[..at], NOTHING).Emitted?
    ensures ResultOf(Emit(s, s.facts[..at], NOTHING).results, key).Some? <==> BoundIn(s.facts[..at], key)
  {
    hide Emit, ResultOf, Below, Binds;
    NothingIsBelow();
    NothingBound(key);
    ResultAfter(s, s.facts[..at], NOTHING, key);
  }
}
