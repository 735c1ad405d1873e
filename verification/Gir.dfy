/** Lowering a checked snapshot's trace to one function of the intermediate representation. */
module Gir {
  import opened Ast
  import Cbor

  // ----- Snapshots -----

  datatype Operation = ParameterFact | ConstantFact | BinaryFact | CallFact | BranchFact | ReturnFact

  datatype Fact = Fact(
    id: nat, operation: Operation, declarationId: nat, constantId: Option<nat>, operands: seq<nat>, targets: seq<nat>)

  datatype Primitive = Int | Bool | Trit | Verdict

  datatype DeclarationKind = Function | Parameter | OtherDeclaration

  datatype Declaration = Declaration(id: nat, kind: DeclarationKind, typeId: nat)

  datatype ResolvedType = ResolvedType(id: nat, primitive: Primitive)

  /** `number` is absent when the constant is not a safe integer. */
  datatype Constant = Constant(id: nat, typeId: nat, number: Option<int>)

  datatype Snapshot = Snapshot(
    entryFlowId: nat, declarations: seq<Declaration>, types: seq<ResolvedType>, constants: seq<Constant>, facts: seq<Fact>)

  datatype Refusal =
    | TypeId | DeclarationId | EntryFlow | TraceEmpty | ReturnMissing | ReturnOperand | BranchShape | BranchTargetOrder
    | BranchCondition | BranchReturns | ParameterIndex | ConstantId | ConstantSemantic | UnsupportedSemantic

  datatype Result<T> = Ok(value: T) | Refused(why: Refusal)

  // ----- Functions -----

  datatype Instruction = Instruction(resultId: nat, opcode: nat, typeId: nat, immediate: int)

  datatype Terminator = Return(operand: nat) | Branch(condition: nat)

  datatype BasicBlock = BasicBlock(id: nat, instructions: seq<Instruction>, end: Terminator)

  datatype FunctionValue = FunctionValue(parameterTypes: seq<nat>, resultType: nat, blocks: seq<BasicBlock>)

  const PARAM: nat := 1
  const CONST: nat := 2

  // ----- Lookups -----

  function PrimitiveId(p: Primitive): nat {
    match p
    case Int => 1
    case Bool => 2
    case Trit => 3
    case Verdict => 4
  }

  function FindType(types: seq<ResolvedType>, id: nat): Result<nat> {
    if types == [] then Refused(TypeId)
    else if types[0].id == id then Ok(PrimitiveId(types[0].primitive))
    else FindType(types[1..], id)
  }

  function FindDeclaration(declarations: seq<Declaration>, id: nat): (r: Option<Declaration>)
    ensures r.Some? ==> r.value in declarations && r.value.id == id
    ensures r.None? ==> forall d :: d in declarations ==> d.id != id
  {
    if declarations == [] then None
    else if declarations[0].id == id then Some(declarations[0])
    else FindDeclaration(declarations[1..], id)
  }

  function FindConstant(constants: seq<Constant>, id: nat): Option<Constant> {
    if constants == [] then None
    else if constants[0].id == id then Some(constants[0])
    else FindConstant(constants[1..], id)
  }

  function DeclarationType(s: Snapshot, id: nat): Result<nat> {
    match FindDeclaration(s.declarations, id)
    case None => Refused(DeclarationId)
    case Some(d) => FindType(s.types, d.typeId)
  }

  /** Index of the first branch. */
  function FindBranch(facts: seq<Fact>): (r: Option<nat>)
    ensures r.Some? ==> r.value < |facts| && facts[r.value].operation == BranchFact
  {
    if facts == [] then None
    else if facts[0].operation == BranchFact then Some(0)
    else match FindBranch(facts[1..]) case None => None case Some(i) => Some(i + 1)
  }

  /** Index of the first fact with this identifier. */
  function FindFact(facts: seq<Fact>, id: nat): (r: Option<nat>)
    ensures r.Some? ==> r.value < |facts| && facts[r.value].id == id
  {
    if facts == [] then None
    else if facts[0].id == id then Some(0)
    else match FindFact(facts[1..], id) case None => None case Some(i) => Some(i + 1)
  }

  // ----- Parameters, by identifier -----

  function InsertById(d: Declaration, sorted: seq<Declaration>): seq<Declaration> {
    if sorted == [] || d.id < sorted[0].id then [d] + sorted else [sorted[0]] + InsertById(d, sorted[1..])
  }

  /** The parameter declarations in increasing order of identifier. */
  function SortedParameters(declarations: seq<Declaration>): seq<Declaration> {
    if declarations == [] then []
    else
      var before := SortedParameters(declarations[..|declarations| - 1]);
      var last := declarations[|declarations| - 1];
      if last.kind == Parameter then InsertById(last, before) else before
  }

  function IndexOfParameter(parameters: seq<Declaration>, id: nat): (r: Option<nat>)
    ensures r.Some? ==> r.value < |parameters| && parameters[r.value].id == id
    ensures r.None? ==> forall d :: d in parameters ==> d.id != id
  {
    if parameters == [] then None
    else if parameters[|parameters| - 1].id == id then Some(|parameters| - 1)
    else IndexOfParameter(parameters[..|parameters| - 1], id)
  }

  function ParameterTypes(s: Snapshot, parameters: seq<Declaration>): (r: Result<seq<nat>>)
    ensures r.Ok? ==> |r.value| == |parameters|
  {
    if parameters == [] then Ok([])
    else
      match ParameterTypes(s, parameters[..|parameters| - 1])
      case Refused(why) => Refused(why)
      case Ok(types) =>
        match FindType(s.types, parameters[|parameters| - 1].typeId)
        case Refused(why) => Refused(why)
        case Ok(t) => Ok(types + [t])
  }

  // ----- Emission -----

  /** Results by declaration and by constant, and the next free result. */
  datatype Results = Results(declarations: map<nat, nat>, constants: map<nat, nat>, next: nat)

  function EmitInstruction(s: Snapshot, fact: Fact, resultId: nat): (r: Result<Instruction>)
    ensures r.Ok? ==> r.value.resultId == resultId && fact.operation in {ParameterFact, ConstantFact}
  {
    match fact.operation
    case ParameterFact =>
      (match IndexOfParameter(SortedParameters(s.declarations), fact.declarationId)
       case None => Refused(ParameterIndex)
       case Some(index) =>
         match DeclarationType(s, fact.declarationId)
         case Refused(why) => Refused(why)
         case Ok(t) => Ok(Instruction(resultId, PARAM, t, index)))
    case ConstantFact =>
      (match fact.constantId
       case None => Refused(ConstantId)
       case Some(id) =>
         match FindConstant(s.constants, id)
         case None => Refused(ConstantSemantic)
         case Some(constant) =>
           if constant.number.None? then Refused(ConstantSemantic)
           else
             match FindType(s.types, constant.typeId)
             case Refused(why) => Refused(why)
             case Ok(t) => Ok(Instruction(resultId, CONST, t, constant.number.value)))
    case _ => Refused(UnsupportedSemantic)
  }

  /** The results after `fact` was given the next one. */
  function Bind(results: Results, fact: Fact): Results {
    Results(
      if fact.operation == ParameterFact then results.declarations[fact.declarationId := results.next]
      else results.declarations,
      if fact.operation == ConstantFact && fact.constantId.Some? then results.constants[fact.constantId.value := results.next]
      else results.constants,
      results.next + 1)
  }

  datatype Emitted = Emitted(instructions: seq<Instruction>, results: Results) | NotEmitted(why: Refusal)

  /** Terminator facts are skipped wherever they stand. */
  predicate Skipped(fact: Fact) { fact.operation in {BranchFact, ReturnFact} }

  function Emit(s: Snapshot, facts: seq<Fact>, results: Results): Emitted {
    if facts == [] then Emitted([], results)
    else
      var fact := facts[|facts| - 1];
      match Emit(s, facts[..|facts| - 1], results)
      case NotEmitted(why) => NotEmitted(why)
      case Emitted(instructions, before) =>
        if Skipped(fact) then Emitted(instructions, before)
        else
          match EmitInstruction(s, fact, before.next)
          case Refused(why) => NotEmitted(why)
          case Ok(instruction) => Emitted(instructions + [instruction], Bind(before, fact))
  }

  /** What a return answers with: its constant, or else its first operand. */
  datatype Key = ConstantKey(id: nat) | DeclarationKey(id: nat) | NoKey

  function ReturnKey(fact: Fact): Key {
    if fact.constantId.Some? then ConstantKey(fact.constantId.value)
    else if fact.operands == [] then NoKey
    else DeclarationKey(fact.operands[0])
  }

  function ResultOf(results: Results, key: Key): Option<nat> {
    match key
    case ConstantKey(id) => if id in results.constants then Some(results.constants[id]) else None
    case DeclarationKey(id) => if id in results.declarations then Some(results.declarations[id]) else None
    case NoKey => None
  }

  function EmitReturn(results: Results, fact: Fact): Result<Terminator> {
    match ResultOf(results, ReturnKey(fact))
    case None => Refused(ReturnOperand)
    case Some(operand) => Ok(Return(operand))
  }

  /** A block that ends in the return that is the last of its facts. */
  function EmitReturning(s: Snapshot, id: nat, facts: seq<Fact>, results: Results): (r: Result<(BasicBlock, Results)>)
    requires facts != []
  {
    match Emit(s, facts[..|facts| - 1], results)
    case NotEmitted(why) => Refused(why)
    case Emitted(instructions, after) =>
      match EmitReturn(after, facts[|facts| - 1])
      case Refused(why) => Refused(why)
      case Ok(end) => Ok((BasicBlock(id, instructions, end), after))
  }

  const NOTHING := Results(map[], map[], 0)

  predicate EndsInReturn(facts: seq<Fact>) { facts != [] && facts[|facts| - 1].operation == ReturnFact }

  function EmitStraight(s: Snapshot): Result<seq<BasicBlock>>
    requires s.facts != []
  {
    if !EndsInReturn(s.facts) then Refused(ReturnMissing)
    else
      match EmitReturning(s, 0, s.facts, NOTHING)
      case Refused(why) => Refused(why)
      case Ok((block, _)) => Ok([block])
  }

  /** Where the two targets of a branch start. */
  function Targets(facts: seq<Fact>, at: nat): (r: Result<(nat, nat)>)
    requires at < |facts|
    ensures r.Ok? ==> at < r.value.0 < r.value.1 < |facts| && |facts[at].operands| == 1
  {
    var branch := facts[at];
    if |branch.targets| != 2 || |branch.operands| != 1 then Refused(BranchShape)
    else
      var first := FindFact(facts, branch.targets[0]);
      var second := FindFact(facts, branch.targets[1]);
      if first.None? || second.None? || first.value <= at || second.value <= first.value then Refused(BranchTargetOrder)
      else Ok((first.value, second.value))
  }

  function EmitBranching(s: Snapshot, at: nat): Result<seq<BasicBlock>>
    requires at < |s.facts|
  {
    match Targets(s.facts, at)
    case Refused(why) => Refused(why)
    case Ok((first, second)) =>
      match Emit(s, s.facts[..at], NOTHING)
      case NotEmitted(why) => Refused(why)
      case Emitted(entry, results) =>
        match ResultOf(results, DeclarationKey(s.facts[at].operands[0]))
        case None => Refused(BranchCondition)
        case Some(condition) =>
          if !EndsInReturn(s.facts[first..second]) || !EndsInReturn(s.facts[second..]) then Refused(BranchReturns)
          else
            match EmitReturning(s, 1, s.facts[first..second], results)
            case Refused(why) => Refused(why)
            case Ok((thenBlock, after)) =>
              match EmitReturning(s, 2, s.facts[second..], after)
              case Refused(why) => Refused(why)
              case Ok((elseBlock, _)) => Ok([BasicBlock(0, entry, Branch(condition)), thenBlock, elseBlock])
  }

  function EmitBlocks(s: Snapshot): Result<seq<BasicBlock>> {
    if s.facts == [] then Refused(TraceEmpty)
    else
      match FindBranch(s.facts)
      case None => EmitStraight(s)
      case Some(at) => EmitBranching(s, at)
  }

  function EmitFunction(s: Snapshot): Result<FunctionValue> {
    var entry := FindDeclaration(s.declarations, s.entryFlowId);
    if entry.None? || entry.value.kind != Function then Refused(EntryFlow)
    else
      match ParameterTypes(s, SortedParameters(s.declarations))
      case Refused(why) => Refused(why)
      case Ok(types) =>
        match EmitBlocks(s)
        case Refused(why) => Refused(why)
        case Ok(blocks) =>
          match FindType(s.types, entry.value.typeId)
          case Refused(why) => Refused(why)
          case Ok(resultType) => Ok(FunctionValue(types, resultType, blocks))
  }

  // ----- The emitter -----

  class GirEmitter {
    const snapshot: Snapshot
    var declarationToResult: map<nat, nat>
    var constantToResult: map<nat, nat>
    var nextResultId: nat

    constructor (snapshot: Snapshot)
      ensures this.snapshot == snapshot && State() == NOTHING
    {
      this.snapshot := snapshot;
      declarationToResult, constantToResult, nextResultId := map[], map[], 0;
    }

    function State(): Results
      reads this
    {
      Results(declarationToResult, constantToResult, nextResultId)
    }

    method EmitInstructions(items: seq<Fact>) returns (r: Result<seq<Instruction>>)
      modifies this
      ensures match Emit(snapshot, items, old(State()))
        case NotEmitted(why) => r == Refused(why)
        case Emitted(instructions, after) => r == Ok(instructions) && State() == after
    {
      hide EmitInstruction;
      var output: seq<Instruction> := [];
      ghost var start := State();
      for i := 0 to |items|
        invariant Emit(snapshot, items[..i], start) == Emitted(output, State())
      {
        var fact := items[i];
        EmitNext(snapshot, items, i, start);
        if Skipped(fact) { continue; }
        var resultId := nextResultId;
        nextResultId := nextResultId + 1;
        var encoded := EmitInstruction(snapshot, fact, resultId);
        if encoded.Refused? {
          RefusalStays(snapshot, items, i + 1, start, encoded.why);
          return Refused(encoded.why);
        }
        output := output + [encoded.value];
        if fact.operation == ParameterFact {
          declarationToResult := declarationToResult[fact.declarationId := resultId];
        }
        if fact.operation == ConstantFact && fact.constantId.Some? {
          constantToResult := constantToResult[fact.constantId.value := resultId];
        }
      }
      assert items[..|items|] == items;
      r := Ok(output);
    }

    method EmitReturningBlock(id: nat, facts: seq<Fact>) returns (r: Result<BasicBlock>)
      requires facts != []
      modifies this
      ensures match EmitReturning(snapshot, id, facts, old(State()))
        case Refused(why) => r == Refused(why)
        case Ok((block, after)) => r == Ok(block) && State() == after
    {
      hide Emit;
      var instructions := EmitInstructions(facts[..|facts| - 1]);
      if instructions.Refused? { return Refused(instructions.why); }
      var end := EmitReturn(State(), facts[|facts| - 1]);
      if end.Refused? { return Refused(end.why); }
      r := Ok(BasicBlock(id, instructions.value, end.value));
    }

    method EmitAllBlocks() returns (r: Result<seq<BasicBlock>>)
      requires State() == NOTHING
      modifies this
      ensures r == EmitBlocks(snapshot)
    {
      hide Emit, EmitReturning, FindBranch, Targets;
      var facts := snapshot.facts;
      if facts == [] { return Refused(TraceEmpty); }
      var at := FindBranch(facts);
      if at.None? {
        if !EndsInReturn(facts) { return Refused(ReturnMissing); }
        var only := EmitReturningBlock(0, facts);
        return if only.Refused? then Refused(only.why) else Ok([only.value]);
      }
      r := EmitBranchBlocks(at.value);
    }

    method EmitWholeFunction() returns (r: Result<FunctionValue>)
      requires State() == NOTHING
      modifies this
      ensures r == EmitFunction(snapshot)
    {
      hide EmitBlocks, ParameterTypes, SortedParameters, FindDeclaration, FindType;
      var entry := FindDeclaration(snapshot.declarations, snapshot.entryFlowId);
      if entry.None? || entry.value.kind != Function { return Refused(EntryFlow); }
      var types := ParameterTypes(snapshot, SortedParameters(snapshot.declarations));
      if types.Refused? { return Refused(types.why); }
      var blocks := EmitAllBlocks();
      if blocks.Refused? { return Refused(blocks.why); }
      var resultType := FindType(snapshot.types, entry.value.typeId);
      if resultType.Refused? { return Refused(resultType.why); }
      r := Ok(FunctionValue(types.value, resultType.value, blocks.value));
    }

    method EmitBranchBlocks(at: nat) returns (r: Result<seq<BasicBlock>>)
      requires State() == NOTHING && at < |snapshot.facts|
      modifies this
      ensures r == EmitBranching(snapshot, at)
    {
      hide Emit, EmitReturning, Targets;
      var facts := snapshot.facts;
      var targets := Targets(facts, at);
      if targets.Refused? { return Refused(targets.why); }
      var (first, second) := targets.value;
      var entry := EmitInstructions(facts[..at]);
      if entry.Refused? { return Refused(entry.why); }
      var condition := ResultOf(State(), DeclarationKey(facts[at].operands[0]));
      if condition.None? { return Refused(BranchCondition); }
      if !EndsInReturn(facts[first..second]) || !EndsInReturn(facts[second..]) { return Refused(BranchReturns); }
      var thenBlock := EmitReturningBlock(1, facts[first..second]);
      if thenBlock.Refused? { return Refused(thenBlock.why); }
      var elseBlock := EmitReturningBlock(2, facts[second..]);
      if elseBlock.Refused? { return Refused(elseBlock.why); }
      r := Ok([BasicBlock(0, entry.value, Branch(condition.value)), thenBlock.value, elseBlock.value]);
    }
  }

  lemma EmitNext(s: Snapshot, facts: seq<Fact>, i: nat, results: Results)
    requires i < |facts|
    ensures match Emit(s, facts[..i], results)
      case NotEmitted(why) => Emit(s, facts[..i + 1], results) == NotEmitted(why)
      case Emitted(instructions, before) =>
        if Skipped(facts[i]) then Emit(s, facts[..i + 1], results) == Emitted(instructions, before)
        else match EmitInstruction(s, facts[i], before.next)
          case Refused(why) => Emit(s, facts[..i + 1], results) == NotEmitted(why)
          case Ok(instruction) =>
            Emit(s, facts[..i + 1], results) == Emitted(instructions + [instruction], Bind(before, facts[i]))
  {
    hide EmitInstruction, Bind;
    assert facts[..i + 1][..i] == facts[..i];
  }

  lemma {:induction false} RefusalStays(s: Snapshot, facts: seq<Fact>, i: nat, results: Results, why: Refusal)
    requires i <= |facts| && Emit(s, facts[..i], results) == NotEmitted(why)
    ensures Emit(s, facts, results) == NotEmitted(why)
    decreases |facts| - i
  {
    hide EmitInstruction, Bind;
    if i == |facts| {
      assert facts[..i] == facts;
    } else {
      EmitNext(s, facts, i, results);
      RefusalStays(s, facts, i + 1, results, why);
    }
  }
}
