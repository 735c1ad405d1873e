/** Emitted functions: dense results, operands defined before they are used, which branch an operand comes
    from, and bytes that determine the function. */
module GirProof {
  import opened Ast
  import opened Gir
  import Cbor

  // ----- Results are numbered densely -----

  /** The results are numbered one after another from `from`. */
  predicate Dense(instructions: seq<Instruction>, from: nat) {
    forall i :: 0 <= i < |instructions| ==> instructions[i].resultId == from + i
  }

  /** Every bound result was numbered below `next`. */
  predicate Below(results: Results) {
    && (forall k :: k in results.declarations ==> results.declarations[k] < results.next)
    && (forall k :: k in results.constants ==> results.constants[k] < results.next)
  }

  lemma {:induction false} EmitIsDense(s: Snapshot, facts: seq<Fact>, results: Results)
    requires Below(results) && Emit(s, facts, results).Emitted?
    ensures var e := Emit(s, facts, results);
      Dense(e.instructions, results.next) && e.results.next == results.next + |e.instructions| && Below(e.results)
  {
    hide EmitInstruction;
    if facts != [] { EmitIsDense(s, facts[..|facts| - 1], results); }
  }

  lemma OperandIsBelow(results: Results, key: Key)
    requires Below(results) && ResultOf(results, key).Some?
    ensures ResultOf(results, key).value < results.next
  {
  }

  lemma BlockIsDense(s: Snapshot, id: nat, facts: seq<Fact>, results: Results)
    requires facts != [] && Below(results) && EmitReturning(s, id, facts, results).Ok?
    ensures var (block, after) := EmitReturning(s, id, facts, results).value;
      && Dense(block.instructions, results.next) && after.next == results.next + |block.instructions| && Below(after)
      && block.end.Return? && block.end.operand < after.next && block.id == id
  {
    hide Emit;
    EmitIsDense(s, facts[..|facts| - 1], results);
    var after := Emit(s, facts[..|facts| - 1], results).results;
    OperandIsBelow(after, ReturnKey(facts[|facts| - 1]));
  }

  function Operand(end: Terminator): nat {
    match end
    case Return(operand) => operand
    case Branch(condition) => condition
  }

  /** The results emitted in the first `k` blocks. */
  function EmittedBefore(blocks: seq<BasicBlock>, k: nat): nat
    requires k <= |blocks|
  {
    if k == 0 then 0 else EmittedBefore(blocks, k - 1) + |blocks[k - 1].instructions|
  }

  /** Blocks are numbered in order, results densely across them, and every terminator names a result emitted before
      it. */
  predicate WellNumbered(blocks: seq<BasicBlock>) {
    forall k :: 0 <= k < |blocks| ==>
      && blocks[k].id == k && Dense(blocks[k].instructions, EmittedBefore(blocks, k))
      && Operand(blocks[k].end) < EmittedBefore(blocks, k + 1)
  }

  lemma BranchingIsWellNumbered(s: Snapshot, at: nat)
    requires at < |s.facts| && EmitBranching(s, at).Ok?
    ensures WellNumbered(EmitBranching(s, at).value)
  {
    hide Emit, EmitReturning, Targets, EndsInReturn, ResultOf, Below, Dense;
    var (first, second) := Targets(s.facts, at).value;
    NothingIsBelow();
    EmitIsDense(s, s.facts[..at], NOTHING);
    var entry := Emit(s, s.facts[..at], NOTHING);
    OperandIsBelow(entry.results, DeclarationKey(s.facts[at].operands[0]));
    SliceEnds(s.facts, first, second);
    BlockIsDense(s, 1, s.facts[first..second], entry.results);
    var after := EmitReturning(s, 1, s.facts[first..second], entry.results).value.1;
    BlockIsDense(s, 2, s.facts[second..], after);
    Three(EmitBranching(s, at).value);
  }

  lemma NothingIsBelow()
    ensures Below(NOTHING)
  {
  }

  lemma SliceEnds(facts: seq<Fact>, first: nat, second: nat)
    requires first < second < |facts|
    ensures facts[first..second] != [] && facts[second..] != []
  {
  }

  lemma Three(blocks: seq<BasicBlock>)
    requires |blocks| == 3
    ensures EmittedBefore(blocks, 0) == 0 && EmittedBefore(blocks, 1) == |blocks[0].instructions|
    ensures EmittedBefore(blocks, 2) == |blocks[0].instructions| + |blocks[1].instructions|
    ensures EmittedBefore(blocks, 3) == |blocks[0].instructions| + |blocks[1].instructions| + |blocks[2].instructions|
  {
  }

  /** In every emitted function results are dense and every terminator operand was emitted earlier. */
  lemma EmittedIsWellNumbered(s: Snapshot)
    requires EmitBlocks(s).Ok?
    ensures WellNumbered(EmitBlocks(s).value)
  {
    hide EmitReturning, EmitBranching, EndsInReturn, Below, Dense;
    match FindBranch(s.facts)
    case Some(at) => BranchingIsWellNumbered(s, at);
    case None =>
      NothingIsBelow();
      BlockIsDense(s, 0, s.facts, NOTHING);
  }

  // ----- Which block an operand comes from -----

  predicate Binds(fact: Fact, key: Key) {
    match key
    case ConstantKey(id) => fact.operation == ConstantFact && fact.constantId == Some(id)
    case DeclarationKey(id) => fact.operation == ParameterFact && fact.declarationId == id
    case NoKey => false
  }

  predicate BoundIn(facts: seq<Fact>, key: Key) {
    exists i :: 0 <= i < |facts| && Binds(facts[i], key)
  }

  lemma BindResult(before: Results, fact: Fact, key: Key)
    ensures ResultOf(Bind(before, fact), key) == if Binds(fact, key) then Some(before.next) else ResultOf(before, key)
  {
  }

  /** After emitting `facts`, a key they bind has a new result and any other key the result it had. */
  lemma {:induction false} ResultAfter(s: Snapshot, facts: seq<Fact>, results: Results, key: Key)
    requires Below(results) && Emit(s, facts, results).Emitted?
    ensures var after := Emit(s, facts, results).results;
      if BoundIn(facts, key) then ResultOf(after, key).Some? && results.next <= ResultOf(after, key).value < after.next
      else ResultOf(after, key) == ResultOf(results, key)
  {
    hide EmitInstruction, Bind, Below, Binds, ResultOf;
    if facts != [] {
      var before, fact := facts[..|facts| - 1], facts[|facts| - 1];
      ResultAfter(s, before, results, key);
      EmitIsDense(s, before, results);
      SkippedBindNothing(fact, key);
      BindResult(Emit(s, before, results).results, fact, key);
      BoundLast(facts, key);
      NextAfterBind(Emit(s, before, results).results, fact);
    }
  }

  lemma NextAfterBind(before: Results, fact: Fact)
    ensures Bind(before, fact).next == before.next + 1
  {
  }

  lemma SkippedBindNothing(fact: Fact, key: Key)
    ensures Skipped(fact) ==> !Binds(fact, key)
  {
  }

  lemma BoundLast(facts: seq<Fact>, key: Key)
    requires facts != []
    ensures BoundIn(facts, key) <==> BoundIn(facts[..|facts| - 1], key) || Binds(facts[|facts| - 1], key)
  {
    hide Binds;
    var n := |facts| - 1;
    assert facts[..n] + [facts[n]] == facts;
    if BoundIn(facts[..n], key) {
      var i :| 0 <= i < n && Binds(facts[..n][i], key);
      assert Binds(facts[i], key);
    }
    if BoundIn(facts, key) {
      var i :| 0 <= i < |facts| && Binds(facts[i], key);
      assert i < n ==> Binds(facts[..n][i], key);
    }
  }

  /** The second branch's answer was computed in the first branch's block, which did not run. */
  predicate AnswersFromSibling(blocks: seq<BasicBlock>) {
    |blocks| == 3 && EmittedBefore(blocks, 1) <= Operand(blocks[2].end) < EmittedBefore(blocks, 2)
  }

  lemma ReturnOperandIs(s: Snapshot, id: nat, facts: seq<Fact>, results: Results)
    requires facts != [] && EmitReturning(s, id, facts, results).Ok?
    ensures var (block, after) := EmitReturning(s, id, facts, results).value;
      && Emit(s, facts[..|facts| - 1], results) == Emitted(block.instructions, after)
      && block.end.Return? && ResultOf(after, ReturnKey(facts[|facts| - 1])) == Some(block.end.operand)
  {
    hide Emit, ResultOf;
  }

  /** Results are shared across the two branches: the second returns one of the first's results exactly when its answer
      is bound in the first branch and not in its own. */
  lemma SiblingAnswerIff(s: Snapshot, at: nat)
    requires at < |s.facts| && EmitBranching(s, at).Ok?
    ensures |EmitBranching(s, at).value| == 3 && Targets(s.facts, at).Ok?
    ensures var (first, second) := Targets(s.facts, at).value;
      var key := ReturnKey(s.facts[|s.facts| - 1]);
      AnswersFromSibling(EmitBranching(s, at).value)
      <==> BoundIn(s.facts[first..second - 1], key) && !BoundIn(s.facts[second..|s.facts| - 1], key)
  {
    hide Emit, EmitReturning, Targets, EndsInReturn, ResultOf, Below, Dense, BoundIn, EmittedBefore;
    var n := |s.facts| - 1;
    var (first, second) := Targets(s.facts, at).value;
    var key := ReturnKey(s.facts[n]);
    var blocks := EmitBranching(s, at).value;
    NothingIsBelow();
    EmitIsDense(s, s.facts[..at], NOTHING);
    var results := Emit(s, s.facts[..at], NOTHING).results;
    SliceEnds(s.facts, first, second);
    Bodies(s.facts, first, second);
    BlockIsDense(s, 1, s.facts[first..second], results);
    ReturnOperandIs(s, 1, s.facts[first..second], results);
    var after := EmitReturning(s, 1, s.facts[first..second], results).value.1;
    BlockIsDense(s, 2, s.facts[second..], after);
    ReturnOperandIs(s, 2, s.facts[second..], after);
    ResultAfter(s, s.facts[first..second - 1], results, key);
    ResultAfter(s, s.facts[second..n], after, key);
    if ResultOf(results, key).Some? { OperandIsBelow(results, key); }
    Three(blocks);
  }

  /** A trace whose second branch returns a constant that only the first branch materialises. */
  function SiblingTrace(): seq<Fact> {
    [Fact(1, ParameterFact, 2, None, [], []), Fact(2, BranchFact, 1, None, [2], [3, 5]),
     Fact(3, ConstantFact, 1, Some(7), [], []), Fact(4, ReturnFact, 1, Some(7), [], []),
     Fact(5, ReturnFact, 1, Some(7), [], [])]
  }

  function SiblingSnapshot(): Snapshot {
    Snapshot(1, [Declaration(1, Function, 1), Declaration(2, Parameter, 2)],
      [ResolvedType(1, Int), ResolvedType(2, Bool)], [Constant(7, 1, Some(42))], SiblingTrace())
  }

  lemma SiblingEntry()
    ensures var s := SiblingSnapshot();
      Emit(s, s.facts[..1], NOTHING) == Emitted([Instruction(0, PARAM, 2, 0)], Results(map[2 := 0], map[], 1))
  {
    var s := SiblingSnapshot();
    var d, p := s.declarations[0], s.declarations[1];
    assert s.facts[..1] == [s.facts[0]] && [s.facts[0]][..0] == [];
    assert s.declarations[..1] == [d] && [d][..0] == [];
    assert SortedParameters([d]) == [];
    assert SortedParameters(s.declarations) == [p];
    assert s.declarations[1..] == [p] && s.types[1..] == [s.types[1]];
    assert FindDeclaration([p], 2) == Some(p) && FindDeclaration(s.declarations, 2) == Some(p);
    assert EmitInstruction(s, s.facts[0], 0) == Ok(Instruction(0, PARAM, 2, 0));
  }

  lemma SiblingThen()
    ensures var s := SiblingSnapshot();
      EmitReturning(s, 1, s.facts[2..4], Results(map[2 := 0], map[], 1))
      == Ok((BasicBlock(1, [Instruction(1, CONST, 1, 42)], Return(1)), Results(map[2 := 0], map[7 := 1], 2)))
  {
    var s := SiblingSnapshot();
    var body, results := [s.facts[2]], Results(map[2 := 0], map[], 1);
    assert s.facts[2..4] == [s.facts[2], s.facts[3]] && s.facts[2..4][..1] == body && body[..0] == [];
    assert Emit(s, body[..0], results) == Emitted([], results);
    assert EmitInstruction(s, s.facts[2], 1) == Ok(Instruction(1, CONST, 1, 42));
    assert Emit(s, body, results) == Emitted([Instruction(1, CONST, 1, 42)], Results(map[2 := 0], map[7 := 1], 2));
  }

  lemma SiblingElse()
    ensures var s := SiblingSnapshot(); var after := Results(map[2 := 0], map[7 := 1], 2);
      EmitReturning(s, 2, s.facts[4..], after) == Ok((BasicBlock(2, [], Return(1)), after))
  {
    var s := SiblingSnapshot();
    assert s.facts[4..] == [s.facts[4]] && s.facts[4..][..0] == [];
  }

  lemma SiblingTargets()
    ensures Targets(SiblingTrace(), 1) == Ok((2, 4))
  {
    var t := SiblingTrace();
    assert t[1..] == [t[1], t[2], t[3], t[4]] && t[1..][1..] == t[2..] && t[2..][1..] == t[3..] && t[3..][1..] == t[4..];
    assert FindFact(t[4..], 5) == Some(0) && FindFact(t[3..], 5) == Some(1) && FindFact(t[2..], 5) == Some(2);
    assert FindFact(t[1..], 5) == Some(3) && FindFact(t[2..], 3) == Some(0) && FindFact(t[1..], 3) == Some(1);
  }

  const MAX_ITEMS: nat := 16384

  /** Identifiers from 1 up, strictly increasing. */
  predicate SortedIds(ids: seq<nat>) {
    && |ids| <= MAX_ITEMS && (forall i :: 0 <= i < |ids| ==> 1 <= ids[i] <= MAX_ITEMS)
    && forall i, j :: 0 <= i < j < |ids| ==> ids[i] < ids[j]
  }

  function DeclarationIds(s: Snapshot): seq<nat> { seq(|s.declarations|, i requires 0 <= i < |s.declarations| => s.declarations[i].id) }

  function TypeIds(s: Snapshot): seq<nat> { seq(|s.types|, i requires 0 <= i < |s.types| => s.types[i].id) }

  function ConstantIds(s: Snapshot): seq<nat> { seq(|s.constants|, i requires 0 <= i < |s.constants| => s.constants[i].id) }

  function FactIds(s: Snapshot): seq<nat> { seq(|s.facts|, i requires 0 <= i < |s.facts| => s.facts[i].id) }

  predicate CheckedFact(s: Snapshot, fact: Fact) {
    && fact.declarationId in DeclarationIds(s) && |fact.operands| <= MAX_ITEMS && |fact.targets| <= MAX_ITEMS
    && (forall i :: 0 <= i < |fact.operands| ==> fact.operands[i] in DeclarationIds(s))
    && (fact.constantId.Some? ==> fact.constantId.value in ConstantIds(s))
    && forall i :: 0 <= i < |fact.targets| ==> fact.targets[i] in FactIds(s)
  }

  /** What the snapshot's own validation asks of its declarations, types, constants, trace and entry. */
  predicate Checked(s: Snapshot) {
    && SortedIds(DeclarationIds(s)) && SortedIds(TypeIds(s)) && SortedIds(ConstantIds(s)) && SortedIds(FactIds(s))
    && (forall i :: 0 <= i < |s.declarations| ==> s.declarations[i].typeId in TypeIds(s))
    && (forall i :: 0 <= i < |s.constants| ==> s.constants[i].typeId in TypeIds(s))
    && (forall i :: 0 <= i < |s.facts| ==> CheckedFact(s, s.facts[i]))
    && FindDeclaration(s.declarations, s.entryFlowId).Some? && FindDeclaration(s.declarations, s.entryFlowId).value.kind == Function
  }

  lemma SiblingIsChecked()
    ensures Checked(SiblingSnapshot())
  {
    hide DeclarationIds, TypeIds, ConstantIds, FactIds, CheckedFact;
    SiblingIds();
    SiblingFacts();
  }

  lemma SiblingIds()
    ensures var s := SiblingSnapshot();
      DeclarationIds(s) == [1, 2] && TypeIds(s) == [1, 2] && ConstantIds(s) == [7] && FactIds(s) == [1, 2, 3, 4, 5]
  {
  }

  lemma SiblingFacts()
    ensures var s := SiblingSnapshot(); forall i :: 0 <= i < |s.facts| ==> CheckedFact(s, s.facts[i])
  {
    hide DeclarationIds, TypeIds, ConstantIds, FactIds;
    SiblingIds();
  }

  /** Such a trace passes the snapshot's own checks and is emitted, and its last block answers with a result that its
      run never computes. */
  lemma SiblingAnswerIsEmitted()
    ensures Checked(SiblingSnapshot())
    ensures EmitBlocks(SiblingSnapshot()) == EmitBranching(SiblingSnapshot(), 1)
    ensures EmitBranching(SiblingSnapshot(), 1).Ok? && AnswersFromSibling(EmitBranching(SiblingSnapshot(), 1).value)
  {
    var s := SiblingSnapshot();
    assert s.facts[1..][0] == s.facts[1];
    assert FindBranch(s.facts) == Some(1);
    SiblingIsChecked();
    hide Emit, EmitReturning, Targets, EmitBranching, Checked, FindBranch;
    SiblingBlocks();
  }

  lemma SiblingBlocks()
    ensures EmitBranching(SiblingSnapshot(), 1).Ok? && AnswersFromSibling(EmitBranching(SiblingSnapshot(), 1).value)
  {
    hide Emit, EmitReturning, Targets;
    var s := SiblingSnapshot();
    SiblingTargets();
    SiblingEntry();
    SiblingThen();
    SiblingElse();
    Three(EmitBranching(s, 1).value);
  }

  lemma Bodies(facts: seq<Fact>, first: nat, second: nat)
    requires first < second < |facts|
    ensures facts[first..second][..|facts[first..second]| - 1] == facts[first..second - 1]
    ensures facts[second..][..|facts[second..]| - 1] == facts[second..|facts| - 1]
    ensures facts[second..][|facts[second..]| - 1] == facts[|facts| - 1]
  {
  }

  // ----- Parameters -----

  predicate DistinctIds(declarations: seq<Declaration>) {
    forall i, j :: 0 <= i < j < |declarations| ==> declarations[i].id != declarations[j].id
  }

  predicate Increasing(sorted: seq<Declaration>) {
    forall i, j :: 0 <= i < j < |sorted| ==> sorted[i].id < sorted[j].id
  }

  lemma {:induction false} InsertKeepsOrder(d: Declaration, sorted: seq<Declaration>)
    requires Increasing(sorted) && forall e :: e in sorted ==> e.id != d.id
    ensures Increasing(InsertById(d, sorted))
    ensures forall e :: e in InsertById(d, sorted) <==> e == d || e in sorted
  {
    if sorted != [] && d.id >= sorted[0].id {
      assert sorted == [sorted[0]] + sorted[1..];
      assert forall e :: e in sorted[1..] ==> sorted[0].id < e.id;
      InsertKeepsOrder(d, sorted[1..]);
      InsertBehind(sorted[0], InsertById(d, sorted[1..]));
    } else {
      InsertBehind(d, sorted);
    }
  }

  lemma InsertBehind(d: Declaration, rest: seq<Declaration>)
    requires Increasing(rest) && forall e :: e in rest ==> d.id <= e.id && e.id != d.id
    ensures Increasing([d] + rest)
  {
    forall j | 0 <= j < |rest| ensures d.id < rest[j].id { assert rest[j] in rest; }
  }

  /** The parameters in strictly increasing order of identifier, none missing and none added. */
  lemma {:induction false} ParametersAreOrdered(declarations: seq<Declaration>)
    requires DistinctIds(declarations)
    ensures Increasing(SortedParameters(declarations))
    ensures forall d :: d in SortedParameters(declarations) <==> d in declarations && d.kind == Parameter
  {
    if declarations != [] {
      var n := |declarations| - 1;
      var before, last := declarations[..n], declarations[n];
      ParametersAreOrdered(before);
      assert declarations == before + [last];
      forall e | e in SortedParameters(before) ensures e.id != last.id {
        var i :| 0 <= i < n && declarations[i] == e;
      }
      if last.kind == Parameter { InsertKeepsOrder(last, SortedParameters(before)); }
    }
  }

  lemma {:induction false} ParameterTypeAt(s: Snapshot, parameters: seq<Declaration>, i: nat)
    requires ParameterTypes(s, parameters).Ok? && i < |parameters|
    ensures FindType(s.types, parameters[i].typeId) == Ok(ParameterTypes(s, parameters).value[i])
  {
    hide FindType;
    if i < |parameters| - 1 { ParameterTypeAt(s, parameters[..|parameters| - 1], i); }
  }

  /** A parameter instruction names a position of the function's parameter list that has the instruction's own type. */
  lemma ParameterTypesAgree(s: Snapshot, fact: Fact, resultId: nat)
    requires DistinctIds(s.declarations) && ParameterTypes(s, SortedParameters(s.declarations)).Ok?
    requires fact.operation == ParameterFact && EmitInstruction(s, fact, resultId).Ok?
    ensures var types := ParameterTypes(s, SortedParameters(s.declarations)).value;
      var i := EmitInstruction(s, fact, resultId).value;
      0 <= i.immediate < |types| && types[i.immediate] == i.typeId
  {
    hide FindType, ParameterTypes, SortedParameters, DistinctIds;
    var parameters := SortedParameters(s.declarations);
    ParametersAreOrdered(s.declarations);
    var index := IndexOfParameter(parameters, fact.declarationId).value;
    ParameterTypeAt(s, parameters, index);
    assert parameters[index] in s.declarations;
    OneDeclaration(s.declarations, parameters[index], FindDeclaration(s.declarations, fact.declarationId).value);
  }

  /** The identifier the document gives to a type of the snapshot. */
  ghost predicate HasType(s: Snapshot, typeId: nat, documentId: nat) {
    exists t :: t in s.types && t.id == typeId && TypeNumber(t.primitive, documentId)
  }

  predicate TypeNumber(p: Primitive, documentId: nat) {
    (p == Int && documentId == 1) || (p == Bool && documentId == 2) || (p == Trit && documentId == 3)
        || (p == Verdict && documentId == 4)
  }

  lemma {:induction false} FoundType(s: Snapshot, types: seq<ResolvedType>, id: nat)
    requires FindType(types, id).Ok? && forall t :: t in types ==> t in s.types
    ensures HasType(s, id, FindType(types, id).value)
  {
    if types[0].id == id { assert types[0] in s.types; } else { FoundType(s, types[1..], id); }
  }

  lemma {:induction false} FoundIn(constants: seq<Constant>, id: nat)
    requires FindConstant(constants, id).Some?
    ensures FindConstant(constants, id).value in constants && FindConstant(constants, id).value.id == id
  {
    if constants[0].id != id { FoundIn(constants[1..], id); }
  }

  /** The function has the type of its entry declaration, and a constant instruction the type and number of its
      constant. */
  lemma TypesAreDeclared(s: Snapshot, fact: Fact, resultId: nat)
    ensures EmitFunction(s).Ok? ==>
              exists d :: d in s.declarations && d.id == s.entryFlowId
                  && HasType(s, d.typeId, EmitFunction(s).value.resultType)
    ensures fact.operation == ConstantFact && EmitInstruction(s, fact, resultId).Ok? ==>
              exists c :: c in s.constants && Some(c.id) == fact.constantId
                  && c.number == Some(EmitInstruction(s, fact, resultId).value.immediate)
                       && HasType(s, c.typeId, EmitInstruction(s, fact, resultId).value.typeId)
  {
    hide FindType, EmitBlocks, HasType, ParameterTypes, FindConstant;
    if EmitFunction(s).Ok? { FoundType(s, s.types, FindDeclaration(s.declarations, s.entryFlowId).value.typeId); }
    if fact.operation == ConstantFact && EmitInstruction(s, fact, resultId).Ok? {
      FoundIn(s.constants, fact.constantId.value);
      FoundType(s, s.types, FindConstant(s.constants, fact.constantId.value).value.typeId);
    }
  }

  lemma OneDeclaration(declarations: seq<Declaration>, d: Declaration, e: Declaration)
    requires DistinctIds(declarations) && d in declarations && e in declarations && d.id == e.id
    ensures d == e
  {
    var i :| 0 <= i < |declarations| && declarations[i] == d;
    var j :| 0 <= j < |declarations| && declarations[j] == e;
    assert i == j;
  }

  // ----- Bytes -----

  function InstructionItem(i: Instruction): Cbor.Item {
    Cbor.Array([Cbor.Int(i.resultId), Cbor.Int(i.opcode), Cbor.Int(i.typeId), Cbor.Array([]), Cbor.Int(i.immediate)])
  }

  function InstructionItems(instructions: seq<Instruction>): (r: seq<Cbor.Item>)
    ensures |r| == |instructions| && forall i :: 0 <= i < |r| ==> r[i] == InstructionItem(instructions[i])
  {
    seq(|instructions|, i requires 0 <= i < |instructions| => InstructionItem(instructions[i]))
  }

  function EdgeItem(target: nat): Cbor.Item { Cbor.Array([Cbor.Int(target), Cbor.Array([])]) }

  function EndItem(end: Terminator): Cbor.Item {
    match end
    case Return(operand) => Cbor.Array([Cbor.Int(4), Cbor.Array([Cbor.Int(operand)]), Cbor.Array([])])
    case Branch(condition) =>
      Cbor.Array([Cbor.Int(2), Cbor.Array([Cbor.Int(condition)]), Cbor.Array([EdgeItem(1), EdgeItem(2)])])
  }

  function BlockItem(b: BasicBlock): Cbor.Item {
    Cbor.Array([Cbor.Int(b.id), Cbor.Array([]), Cbor.Array(InstructionItems(b.instructions)), EndItem(b.end)])
  }

  function BlockItems(blocks: seq<BasicBlock>): (r: seq<Cbor.Item>)
    ensures |r| == |blocks| && forall i :: 0 <= i < |r| ==> r[i] == BlockItem(blocks[i])
  {
    seq(|blocks|, i requires 0 <= i < |blocks| => BlockItem(blocks[i]))
  }

  function IntItems(ns: seq<nat>): (r: seq<Cbor.Item>)
    ensures |r| == |ns| && forall i :: 0 <= i < |r| ==> r[i] == Cbor.Int(ns[i])
  {
    seq(|ns|, i requires 0 <= i < |ns| => Cbor.Int(ns[i]))
  }

  function FunctionItem(f: FunctionValue): Cbor.Item {
    Cbor.Array([
      Cbor.Int(1), Cbor.Int(1), Cbor.Array(IntItems(f.parameterTypes)), Cbor.Int(f.resultType), Cbor.Array([]), Cbor.Array([]),
      Cbor.Int(0), Cbor.Array(BlockItems(f.blocks)), Cbor.Int(1)])
  }

  lemma InstructionItemDetermines(a: Instruction, b: Instruction)
    requires InstructionItem(a) == InstructionItem(b)
    ensures a == b
  {
    var x, y := InstructionItem(a).items, InstructionItem(b).items;
    assert x[0] == y[0] && x[1] == y[1] && x[2] == y[2] && x[4] == y[4];
  }

  lemma InstructionItemsDetermine(a: seq<Instruction>, b: seq<Instruction>)
    requires InstructionItems(a) == InstructionItems(b)
    ensures a == b
  {
    hide InstructionItem;
    forall i | 0 <= i < |a| ensures a[i] == b[i] {
      assert InstructionItems(a)[i] == InstructionItems(b)[i];
      InstructionItemDetermines(a[i], b[i]);
    }
  }

  lemma EndItemDetermines(a: Terminator, b: Terminator)
    requires EndItem(a) == EndItem(b)
    ensures a == b
  {
    var x, y := EndItem(a).items, EndItem(b).items;
    assert x[0] == y[0] && x[1] == y[1];
    assert x[1].items[0] == y[1].items[0];
  }

  lemma BlockItemDetermines(a: BasicBlock, b: BasicBlock)
    requires BlockItem(a) == BlockItem(b)
    ensures a == b
  {
    hide EndItem, InstructionItems;
    var x, y := BlockItem(a).items, BlockItem(b).items;
    assert x[0] == y[0] && x[2] == y[2] && x[3] == y[3];
    InstructionItemsDetermine(a.instructions, b.instructions);
    EndItemDetermines(a.end, b.end);
  }

  lemma BlockItemsDetermine(a: seq<BasicBlock>, b: seq<BasicBlock>)
    requires BlockItems(a) == BlockItems(b)
    ensures a == b
  {
    hide BlockItem;
    forall i | 0 <= i < |a| ensures a[i] == b[i] {
      assert BlockItems(a)[i] == BlockItems(b)[i];
      BlockItemDetermines(a[i], b[i]);
    }
  }

  lemma IntItemsDetermine(a: seq<nat>, b: seq<nat>)
    requires IntItems(a) == IntItems(b)
    ensures a == b
  {
    forall i | 0 <= i < |a| ensures a[i] == b[i] { assert IntItems(a)[i] == IntItems(b)[i]; }
  }

  lemma FunctionItemDetermines(a: FunctionValue, b: FunctionValue)
    requires FunctionItem(a) == FunctionItem(b)
    ensures a == b
  {
    hide BlockItems, IntItems;
    var x, y := FunctionItem(a).items, FunctionItem(b).items;
    assert x[2] == y[2] && x[3] == y[3] && x[7] == y[7];
    IntItemsDetermine(a.parameterTypes, b.parameterTypes);
    BlockItemsDetermine(a.blocks, b.blocks);
  }

  /** Numbers and lists of them: no text and no map. */
  predicate OnlyNumbers(item: Cbor.Item)
    decreases item
  {
    match item
    case Int(_) => true
    case Array(items) => forall i :: 0 <= i < |items| ==> OnlyNumbers(items[i])
    case _ => false
  }

  lemma {:induction false} NumbersAreSafe(item: Cbor.Item)
    requires OnlyNumbers(item)
    ensures Cbor.PairedText(item) && Cbor.Deterministic(item)
    decreases item
  {
    if item.Array? {
      forall i | 0 <= i < |item.items| ensures Cbor.PairedText(item.items[i]) && Cbor.Deterministic(item.items[i]) {
        NumbersAreSafe(item.items[i]);
      }
    }
  }

  lemma ArrayIsNumbers(items: seq<Cbor.Item>)
    requires forall i :: 0 <= i < |items| ==> OnlyNumbers(items[i])
    ensures OnlyNumbers(Cbor.Array(items))
  {
  }

  lemma IntsAreNumbers(ns: seq<nat>)
    ensures OnlyNumbers(Cbor.Array(IntItems(ns)))
  {
    ArrayIsNumbers(IntItems(ns));
  }

  lemma NumberIsNumbers(n: int)
    ensures OnlyNumbers(Cbor.Int(n)) && OnlyNumbers(Cbor.Array([])) && OnlyNumbers(Cbor.Array([Cbor.Int(n)]))
  {
    ArrayIsNumbers([Cbor.Int(n)]);
  }

  lemma InstructionIsNumbers(i: Instruction)
    ensures OnlyNumbers(InstructionItem(i))
  {
    ArrayIsNumbers(InstructionItem(i).items);
  }

  lemma EdgesAreNumbers()
    ensures OnlyNumbers(Cbor.Array([EdgeItem(1), EdgeItem(2)]))
  {
    NumberIsNumbers(1);
    ArrayIsNumbers(EdgeItem(1).items);
    ArrayIsNumbers(EdgeItem(2).items);
    ArrayIsNumbers([EdgeItem(1), EdgeItem(2)]);
  }

  lemma EndIsNumbers(end: Terminator)
    ensures OnlyNumbers(EndItem(end))
  {
    hide OnlyNumbers;
    NumberIsNumbers(Operand(end));
    NumberIsNumbers(4);
    NumberIsNumbers(2);
    EdgesAreNumbers();
    ArrayIsNumbers(EndItem(end).items);
  }

  lemma BlockIsNumbers(b: BasicBlock)
    ensures OnlyNumbers(BlockItem(b))
  {
    hide OnlyNumbers;
    NumberIsNumbers(b.id);
    forall i | 0 <= i < |b.instructions| ensures OnlyNumbers(InstructionItem(b.instructions[i])) {
      InstructionIsNumbers(b.instructions[i]);
    }
    ArrayIsNumbers(InstructionItems(b.instructions));
    EndIsNumbers(b.end);
    ArrayIsNumbers(BlockItem(b).items);
  }

  lemma FunctionItemIsNumbers(f: FunctionValue)
    ensures OnlyNumbers(FunctionItem(f))
  {
    hide OnlyNumbers, BlockItem;
    NumberIsNumbers(0);
    NumberIsNumbers(1);
    NumberIsNumbers(f.resultType);
    IntsAreNumbers(f.parameterTypes);
    forall i | 0 <= i < |f.blocks| ensures OnlyNumbers(BlockItem(f.blocks[i])) { BlockIsNumbers(f.blocks[i]); }
    ArrayIsNumbers(BlockItems(f.blocks));
    ArrayIsNumbers(FunctionItem(f).items);
  }

  /** The bytes of a function determine it: equal bytes, or one a prefix of the other, come from one function. */
  lemma BytesDetermineFunction(a: FunctionValue, b: FunctionValue)
    requires Cbor.EncodeItem(FunctionItem(a)).Some? && Cbor.EncodeItem(FunctionItem(b)).Some?
    requires Cbor.EncodeItem(FunctionItem(a)).value <= Cbor.EncodeItem(FunctionItem(b)).value
    ensures a == b
  {
    hide Cbor.EncodeItem, FunctionItem, Cbor.PairedText, Cbor.Deterministic;
    FunctionItemIsNumbers(a);
    FunctionItemIsNumbers(b);
    NumbersAreSafe(FunctionItem(a));
    NumbersAreSafe(FunctionItem(b));
    Cbor.EncodingsArePrefixFree(FunctionItem(a), FunctionItem(b));
    FunctionItemDetermines(a, b);
  }
}
