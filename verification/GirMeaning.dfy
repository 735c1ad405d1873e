/** What an emitted function answers when it is run from its document item, against what its trace says. */
module GirMeaning {
  import opened Ast
  import opened Gir
  import opened GirProof
  import Cbor

  // ----- Running the document item -----

  /** The `k`-th part of an array item. */
  function Part(item: Cbor.Item, k: nat): Cbor.Item {
    if item.Array? && k < |item.items| then item.items[k] else Cbor.Int(0)
  }

  function Number(item: Cbor.Item): int { if item.Int? then item.n else 0 }

  function Parts(item: Cbor.Item): seq<Cbor.Item> { if item.Array? then item.items else [] }

  /** Opcode 1 takes an argument, opcode 2 a number; the result gets it. */
  function Step(instruction: Cbor.Item, args: seq<int>, results: map<int, int>): map<int, int> {
    var id, opcode, immediate := Number(Part(instruction, 0)), Number(Part(instruction, 1)),
        Number(Part(instruction, 4));
    if opcode == 1 && 0 <= immediate < |args| then results[id := args[immediate]]
    else if opcode == 2 then results[id := immediate]
    else results
  }

  function Steps(instructions: seq<Cbor.Item>, args: seq<int>, results: map<int, int>): map<int, int> {
    if instructions == [] then results
    else Step(instructions[|instructions| - 1], args, Steps(instructions[..|instructions| - 1], args, results))
  }

  /** Terminator 4 answers with a result, terminator 2 goes on along its first edge when its condition is not 0 and
      along its second when it is; a result that was never computed has no value. */
  function RunBlock(blocks: Cbor.Item, at: nat, args: seq<int>, results: map<int, int>, fuel: nat): Option<int>
    decreases fuel
  {
    var b := Part(blocks, at);
    var after, end := Steps(Parts(Part(b, 2)), args, results), Part(b, 3);
    var opcode, operand := Number(Part(end, 0)), Number(Part(Part(end, 1), 0));
    if operand !in after then None
    else if opcode == 4 then Some(after[operand])
    else if opcode == 2 && fuel > 0 then
      var target := Number(Part(Part(Part(end, 2), if after[operand] != 0 then 0 else 1), 0));
      if target < 0 then None else RunBlock(blocks, target, args, after, fuel - 1)
    else None
  }

  /** The answer of a function: its blocks are the item's eighth part, and the first one is the entry. */
  function Answer(f: Cbor.Item, args: seq<int>): Option<int> {
    RunBlock(Part(f, 7), 0, args, map[], |Parts(Part(f, 7))|)
  }

  // ----- What the trace says -----

  datatype Values = Values(declarations: map<nat, int>, constants: map<nat, int>)

  /** The parameter declarations with a smaller identifier: a parameter's place in the argument list. */
  function Place(declarations: seq<Declaration>, id: nat): nat {
    |set d | d in declarations && d.kind == Parameter && d.id < id|
  }

  function Argument(args: seq<int>, place: nat): int { if place < |args| then args[place] else 0 }

  /** The number of the constant with that identifier. */
  ghost function NumberOf(constants: seq<Constant>, id: nat): int {
    if exists c :: c in constants && c.id == id && c.number.Some? then
      var c :| c in constants && c.id == id && c.number.Some?; c.number.value
    else 0
  }

  /** A parameter fact gives its declaration the argument, a constant fact its constant the number. */
  ghost function Follow(s: Snapshot, args: seq<int>, facts: seq<Fact>, values: Values): Values {
    if facts == [] then values
    else
      var before, fact := Follow(s, args, facts[..|facts| - 1], values), facts[|facts| - 1];
      if fact.operation == ParameterFact then
        var given := Argument(args, Place(s.declarations, fact.declarationId));
        before.(declarations := before.declarations[fact.declarationId := given])
      else if fact.operation == ConstantFact && fact.constantId.Some? then
        before.(constants := before.constants[fact.constantId.value := NumberOf(s.constants, fact.constantId.value)])
      else before
  }

  const UNKNOWN := Values(map[], map[])

  function Declared(values: Values, id: nat): Option<int> {
    if id in values.declarations then Some(values.declarations[id]) else None
  }

  /** A return answers with its constant if it names one, and else with its first operand. */
  function Returned(values: Values, fact: Fact): Option<int> {
    if fact.constantId.Some? then
      if fact.constantId.value in values.constants then Some(values.constants[fact.constantId.value]) else None
    else if fact.operands == [] then None
    else Declared(values, fact.operands[0])
  }

  function ValueOf(values: Values, key: Key): Option<int> {
    match key
    case ConstantKey(id) => if id in values.constants then Some(values.constants[id]) else None
    case DeclarationKey(id) => Declared(values, id)
    case NoKey => None
  }

  lemma ReturnedIs(values: Values, fact: Fact)
    ensures Returned(values, fact) == ValueOf(values, ReturnKey(fact))
  {
  }

  // ----- Places of parameters -----

  predicate ManyArguments(s: Snapshot, args: seq<int>) { |args| == |SortedParameters(s.declarations)| }

  function Elements(ds: seq<Declaration>): set<Declaration> { set d | d in ds }

  lemma {:induction false} CountAll(sorted: seq<Declaration>)
    requires Increasing(sorted)
    ensures |Elements(sorted)| == |sorted|
  {
    if sorted != [] {
      var n := |sorted| - 1;
      CountAll(sorted[..n]);
      assert sorted == sorted[..n] + [sorted[n]];
      assert Elements(sorted) == Elements(sorted[..n]) + {sorted[n]};
      assert sorted[n] !in sorted[..n];
    }
  }

  lemma PlaceIs(declarations: seq<Declaration>, k: nat)
    requires DistinctIds(declarations) && k < |SortedParameters(declarations)|
    ensures Place(declarations, SortedParameters(declarations)[k].id) == k
  {
    var sorted := SortedParameters(declarations);
    ParametersAreOrdered(declarations);
    CountAll(sorted[..k]);
    hide SortedParameters;
    assert (set d | d in declarations && d.kind == Parameter && d.id < sorted[k].id) == Elements(sorted[..k]) by {
      forall d | d in declarations && d.kind == Parameter && d.id < sorted[k].id ensures d in sorted[..k] {
        var j :| 0 <= j < |sorted| && sorted[j] == d;
        assert j < k && sorted[..k][j] == d;
      }
    }
  }

  // ----- One instruction -----

  lemma InstructionParts(i: Instruction)
    ensures var item := InstructionItem(i);
            Number(Part(item, 0)) == i.resultId && Number(Part(item, 1)) == i.opcode
                && Number(Part(item, 4)) == i.immediate
  {
  }

  predicate DistinctConstants(constants: seq<Constant>) {
    forall i, j :: 0 <= i < j < |constants| ==> constants[i].id != constants[j].id
  }

  lemma {:induction false} FoundConstant(constants: seq<Constant>, id: nat)
    ensures FindConstant(constants, id).Some?
        ==> FindConstant(constants, id).value in constants && FindConstant(constants, id).value.id == id
  {
    if constants != [] { FoundConstant(constants[1..], id); }
  }

  lemma NumberIs(constants: seq<Constant>, c: Constant)
    requires DistinctConstants(constants) && c in constants && c.number.Some?
    ensures NumberOf(constants, c.id) == c.number.value
  {
    forall d | d in constants && d.id == c.id ensures d == c {
      var i :| 0 <= i < |constants| && constants[i] == c;
      var j :| 0 <= j < |constants| && constants[j] == d;
      assert i == j;
    }
  }

  /** What a fact gives its key. */
  ghost function Given(s: Snapshot, args: seq<int>, fact: Fact): int {
    if fact.operation == ParameterFact then Argument(args, Place(s.declarations, fact.declarationId))
    else if fact.constantId.Some? then NumberOf(s.constants, fact.constantId.value) else 0
  }

  lemma InstructionMeans(s: Snapshot, fact: Fact, resultId: nat, args: seq<int>, results: map<int, int>)
    requires DistinctIds(s.declarations) && DistinctConstants(s.constants) && ManyArguments(s, args)
    requires EmitInstruction(s, fact, resultId).Ok?
    ensures Step(InstructionItem(EmitInstruction(s, fact, resultId).value), args, results)
        == results[resultId := Given(s, args, fact)]
  {
    var i := EmitInstruction(s, fact, resultId).value;
    InstructionParts(i);
    hide InstructionItem, Part, Number, SortedParameters, FindType, Place, NumberOf;
    if fact.operation == ParameterFact {
      var sorted := SortedParameters(s.declarations);
      PlaceIs(s.declarations, IndexOfParameter(sorted, fact.declarationId).value);
    } else {
      FoundConstant(s.constants, fact.constantId.value);
      NumberIs(s.constants, FindConstant(s.constants, fact.constantId.value).value);
    }
  }

  // ----- A run of instructions -----

  /** Exactly the results from `next` up to `end` are new, and the others are as they were. */
  ghost predicate Extended(results: map<int, int>, after: map<int, int>, next: nat, end: nat) {
    && (forall r :: r in after <==> r in results || next <= r < end)
    && forall r :: r in results && !(next <= r < end) ==> after[r] == results[r]
  }

  /** What emitted instructions do to one key: bound by these facts, its result holds what the trace gives it. */
  lemma {:induction false} KeyRuns(s: Snapshot, facts: seq<Fact>, results: Results, values: Values, known: map<int,
        int>, args: seq<int>, key: Key)
    requires DistinctIds(s.declarations) && DistinctConstants(s.constants) && ManyArguments(s, args)
    requires Below(results) && Emit(s, facts, results).Emitted?
    ensures var e := Emit(s, facts, results);
            var after, later := Steps(InstructionItems(e.instructions), args, known), Follow(s, args, facts, values);
            && Extended(known, after, results.next, e.results.next)
            && if BoundIn(facts, key) then
                 && ResultOf(e.results, key).Some? && ResultOf(e.results, key).value in after
                 && ValueOf(later, key) == Some(after[ResultOf(e.results, key).value])
               else ValueOf(later, key) == ValueOf(values, key)
  {
    hide EmitInstruction, Bind, Below, Binds, ResultOf, InstructionItem, Step, Given, ValueOf;
    if facts != [] {
      var n := |facts| - 1;
      var fact, before := facts[n], Emit(s, facts[..n], results);
      KeyRuns(s, facts[..n], results, values, known, args, key);
      EmitIsDense(s, facts[..n], results);
      BoundLast(facts, key);
      SkippedBindNothing(fact, key);
      ResultAfter(s, facts[..n], results, key);
      FollowStep(s, args, facts, values, key);
      if !Skipped(fact) {
        var i := EmitInstruction(s, fact, before.results.next).value;
        InstructionMeans(s, fact, before.results.next, args, Steps(InstructionItems(before.instructions), args, known));
        OneMoreStep(before.instructions, i, args, known);
        BindResult(before.results, fact, key);
        NextAfterBind(before.results, fact);
      }
    }
  }

  lemma OneMoreStep(instructions: seq<Instruction>, i: Instruction, args: seq<int>, known: map<int, int>)
    ensures Steps(InstructionItems(instructions + [i]), args, known)
         == Step(InstructionItem(i), args, Steps(InstructionItems(instructions), args, known))
  {
    hide InstructionItem, Step;
    var items := InstructionItems(instructions + [i]);
    assert items[..|items| - 1] == InstructionItems(instructions);
  }

  lemma FollowStep(s: Snapshot, args: seq<int>, facts: seq<Fact>, values: Values, key: Key)
    requires facts != []
    ensures var n := |facts| - 1;
            ValueOf(Follow(s, args, facts, values), key)
            == if Binds(facts[n], key) then Some(Given(s, args, facts[n]))
               else ValueOf(Follow(s, args, facts[..n], values), key)
  {
    hide Place, NumberOf;
  }

  // ----- The function -----

  lemma BlockParts(b: BasicBlock)
    ensures var item := BlockItem(b);
            Parts(Part(item, 2)) == InstructionItems(b.instructions) && Part(item, 3) == EndItem(b.end)
  {
    hide InstructionItems;
  }

  lemma EndParts(end: Terminator)
    ensures var item := EndItem(end);
            && Number(Part(item, 0)) == (if end.Return? then 4 else 2) && Number(Part(Part(item, 1), 0)) == Operand(end)
            && (end.Branch? ==> Number(Part(Part(Part(item, 2), 0), 0)) == 1 && Number(Part(Part(Part(item, 2), 1), 0)) == 2)
  {
  }

  lemma FunctionParts(f: FunctionValue)
    ensures Part(FunctionItem(f), 7) == Cbor.Array(BlockItems(f.blocks))
        && Parts(Part(FunctionItem(f), 7)) == BlockItems(f.blocks)
  {
    hide BlockItems;
  }

  /** A block that returns answers with its operand's result. */
  lemma ReturnRuns(blocks: seq<BasicBlock>, k: nat, args: seq<int>, results: map<int, int>, fuel: nat)
    requires k < |blocks| && blocks[k].end.Return?
    ensures var after := Steps(InstructionItems(blocks[k].instructions), args, results);
            RunBlock(Cbor.Array(BlockItems(blocks)), k, args, results, fuel)
            == if blocks[k].end.operand in after then Some(after[blocks[k].end.operand]) else None
  {
    hide Steps, InstructionItems, BlockItem, EndItem, Number;
    assert Part(Cbor.Array(BlockItems(blocks)), k) == BlockItem(blocks[k]);
    BlockParts(blocks[k]);
    EndParts(blocks[k].end);
  }

  /** A block that branches goes on to block 1 when its condition is not 0, and to block 2 when it is. */
  lemma BranchRuns(blocks: seq<BasicBlock>, args: seq<int>, results: map<int, int>, fuel: nat)
    requires |blocks| == 3 && blocks[0].end.Branch? && fuel > 0
    requires blocks[0].end.condition in Steps(InstructionItems(blocks[0].instructions), args, results)
    ensures var after := Steps(InstructionItems(blocks[0].instructions), args, results);
            var next := if after[blocks[0].end.condition] != 0 then 1 else 2;
            RunBlock(Cbor.Array(BlockItems(blocks)), 0, args, results, fuel)
            == RunBlock(Cbor.Array(BlockItems(blocks)), next, args, after, fuel - 1)
  {
    hide Steps, InstructionItems, BlockItem, EndItem, Number;
    assert Part(Cbor.Array(BlockItems(blocks)), 0) == BlockItem(blocks[0]);
    BlockParts(blocks[0]);
    EndParts(blocks[0].end);
  }

  /** A block emitted for facts that end in a return, run where `known` results are there: the key of the return. */
  lemma ReturningRuns(s: Snapshot, id: nat, facts: seq<Fact>, results: Results, values: Values, known: map<int, int>,
        args: seq<int>)
    requires DistinctIds(s.declarations) && DistinctConstants(s.constants) && ManyArguments(s, args)
    requires facts != [] && Below(results) && EmitReturning(s, id, facts, results).Ok?
    ensures var (block, end) := EmitReturning(s, id, facts, results).value;
            var body, key := facts[..|facts| - 1], ReturnKey(facts[|facts| - 1]);
            var after := Steps(InstructionItems(block.instructions), args, known);
            && block.end.Return? && Extended(known, after, results.next, end.next)
            && if BoundIn(body, key) then
                 block.end.operand in after && Returned(Follow(s, args, body, values), facts[|facts| - 1])
                     == Some(after[block.end.operand])
               else
                 && ResultOf(results, key) == Some(block.end.operand) && block.end.operand < results.next
                 && Returned(Follow(s, args, body, values), facts[|facts| - 1]) == ValueOf(values, key)
  {
    hide Emit, Steps, Follow, InstructionItems, Binds, ResultOf, Returned, ValueOf, Extended;
    var body, key := facts[..|facts| - 1], ReturnKey(facts[|facts| - 1]);
    ReturnOperandIs(s, id, facts, results);
    KeyRuns(s, body, results, values, known, args, key);
    ResultAfter(s, body, results, key);
    ReturnedIs(Follow(s, args, body, values), facts[|facts| - 1]);
    if !BoundIn(body, key) { OperandIsBelow(results, key); }
  }

  /** Straight code answers what its trace does, for every argument list of its length. */
  lemma StraightAnswers(s: Snapshot, args: seq<int>)
    requires DistinctIds(s.declarations) && DistinctConstants(s.constants)
    requires EmitFunction(s).Ok? && |args| == |EmitFunction(s).value.parameterTypes|
    requires forall k :: 0 <= k < |s.facts| ==> s.facts[k].operation != BranchFact
    ensures s.facts != []
    ensures var n := |s.facts| - 1; var answer := Answer(FunctionItem(EmitFunction(s).value), args);
            answer.Some? && answer == Returned(Follow(s, args, s.facts[..n], UNKNOWN), s.facts[n])
  {
    hide Emit, EmitReturning, Steps, Follow, InstructionItems, FunctionItem, ParameterTypes, SortedParameters,
        Returned, ValueOf, RunBlock;
    var f := EmitFunction(s).value;
    NothingIsBelow();
    ReturningRuns(s, 0, s.facts, NOTHING, UNKNOWN, map[], args);
    FunctionParts(f);
    ReturnRuns(f.blocks, 0, args, map[], 1);
  }

  // ----- A branch -----

  predicate DistinctFacts(facts: seq<Fact>) {
    forall i, j :: 0 <= i < j < |facts| ==> facts[i].id != facts[j].id
  }

  lemma {:induction false} FirstBranch(facts: seq<Fact>, at: nat)
    requires at < |facts| && facts[at].operation == BranchFact && forall k :: 0 <= k < at ==> facts[k].operation != BranchFact
    ensures FindBranch(facts) == Some(at)
  {
    if at > 0 {
      assert facts[1..][at - 1] == facts[at];
      assert forall k :: 0 <= k < at - 1 ==> facts[1..][k] == facts[k + 1];
      FirstBranch(facts[1..], at - 1);
    }
  }

  lemma {:induction false} FactFound(facts: seq<Fact>, at: nat)
    requires at < |facts| && DistinctFacts(facts)
    ensures FindFact(facts, facts[at].id) == Some(at)
  {
    if at > 0 {
      assert facts[0].id != facts[at].id && facts[1..][at - 1] == facts[at];
      assert forall k :: 0 <= k < |facts| - 1 ==> facts[1..][k] == facts[k + 1];
      FactFound(facts[1..], at - 1);
    }
  }

  /** The branch stands at `at`, and its two targets at `first` and `second`. */
  predicate BranchStands(facts: seq<Fact>, at: nat, first: nat, second: nat) {
    && at < |facts| && first < |facts| && second < |facts| && facts[at].operation == BranchFact
    && (forall k :: 0 <= k < at ==> facts[k].operation != BranchFact)
    && |facts[at].targets| == 2 && facts[first].id == facts[at].targets[0] && facts[second].id == facts[at].targets[1]
  }

  lemma BranchFound(facts: seq<Fact>, at: nat, first: nat, second: nat)
    requires BranchStands(facts, at, first, second) && DistinctFacts(facts)
    ensures FindBranch(facts) == Some(at)
    ensures Targets(facts, at).Ok? ==> Targets(facts, at) == Ok((first, second))
  {
    FirstBranch(facts, at);
    FactFound(facts, first);
    FactFound(facts, second);
  }

  /** A snapshot whose declarations, constants and facts have distinct identifiers, as its own checks ensure. */
  predicate Distinct(s: Snapshot) {
    DistinctIds(s.declarations) && DistinctConstants(s.constants) && DistinctFacts(s.facts)
  }

  lemma CheckedIsDistinct(s: Snapshot)
    requires Checked(s)
    ensures Distinct(s)
  {
    hide CheckedFact;
    forall i, j | 0 <= i < j < |s.declarations| ensures s.declarations[i].id != s.declarations[j].id {
      assert DeclarationIds(s)[i] < DeclarationIds(s)[j];
    }
    forall i, j | 0 <= i < j < |s.constants| ensures s.constants[i].id != s.constants[j].id {
      assert ConstantIds(s)[i] < ConstantIds(s)[j];
    }
    forall i, j | 0 <= i < j < |s.facts| ensures s.facts[i].id != s.facts[j].id {
      assert FactIds(s)[i] < FactIds(s)[j];
    }
  }

  /** The entry block: the condition's value is the one the trace gives its declaration. */
  lemma EntryRuns(s: Snapshot, args: seq<int>, at: nat)
    requires Distinct(s) && ManyArguments(s, args) && at < |s.facts| && EmitBranching(s, at).Ok?
    ensures Targets(s.facts, at).Ok? && Emit(s, s.facts[..at], NOTHING).Emitted?
    ensures var e := Emit(s, s.facts[..at], NOTHING); var blocks := EmitBranching(s, at).value;
            var known := Steps(InstructionItems(e.instructions), args, map[]);
            && |blocks| == 3 && blocks[0].instructions == e.instructions && blocks[0].end.Branch?
                && blocks[0].end.condition in known
            && Declared(Follow(s, args, s.facts[..at], UNKNOWN), s.facts[at].operands[0])
                == Some(known[blocks[0].end.condition])
            && Below(e.results) && forall r :: r in known <==> 0 <= r < e.results.next
  {
    hide Emit, EmitReturning, Steps, Follow, InstructionItems, ResultOf, Below, EndsInReturn, Binds, Targets;
    var key := DeclarationKey(s.facts[at].operands[0]);
    NothingIsBelow();
    EmitIsDense(s, s.facts[..at], NOTHING);
    ResultAfter(s, s.facts[..at], NOTHING, key);
    KeyRuns(s, s.facts[..at], NOTHING, UNKNOWN, map[], args, key);
    NothingBound(key);
    ValueIsDeclared(Follow(s, args, s.facts[..at], UNKNOWN), s.facts[at].operands[0]);
  }

  lemma NothingBound(key: Key)
    ensures ResultOf(NOTHING, key) == None && ValueOf(UNKNOWN, key) == None
  {
  }

  lemma ValueIsDeclared(values: Values, id: nat)
    ensures ValueOf(values, DeclarationKey(id)) == Declared(values, id)
  {
  }

  /** A key that the entry gave a result has the trace's value there, and a key it did not has none. */
  lemma EntryKey(s: Snapshot, args: seq<int>, at: nat, key: Key)
    requires Distinct(s) && ManyArguments(s, args) && at <= |s.facts| && Emit(s, s.facts[..at], NOTHING).Emitted?
    ensures var e := Emit(s, s.facts[..at], NOTHING); var known := Steps(InstructionItems(e.instructions), args, map[]);
            var r := ResultOf(e.results, key);
            && (r.Some? ==> r.value in known && ValueOf(Follow(s, args, s.facts[..at], UNKNOWN), key) == Some(known[r.value]))
            && (r.Some? <==> BoundIn(s.facts[..at], key))
  {
    hide Emit, Steps, Follow, InstructionItems, ResultOf, Below, Binds, ValueOf;
    NothingIsBelow();
    NothingBound(key);
    ResultAfter(s, s.facts[..at], NOTHING, key);
    KeyRuns(s, s.facts[..at], NOTHING, UNKNOWN, map[], args, key);
  }

  /** What the trace says when the condition is not 0, and when it is: only the facts of the branch taken are
      followed. */
  ghost function FirstSays(s: Snapshot, args: seq<int>, at: nat, first: nat, second: nat): Option<int>
    requires at <= first < second <= |s.facts|
  {
    Returned(Follow(s, args, s.facts[first..second - 1], Follow(s, args, s.facts[..at], UNKNOWN)), s.facts[second - 1])
  }

  /** The second branch returns a key that only the first one binds after the entry. */
  ghost predicate BoundBySibling(s: Snapshot, first: nat, second: nat)
    requires first < second < |s.facts|
  {
    var last := |s.facts| - 1;
    && BoundIn(s.facts[first..second - 1], ReturnKey(s.facts[last]))
    && !BoundIn(s.facts[second..last], ReturnKey(s.facts[last]))
  }

  lemma FirstAnswers(s: Snapshot, args: seq<int>, at: nat, first: nat, second: nat)
    requires Distinct(s) && ManyArguments(s, args) && at < first < second < |s.facts|
    requires EmitBranching(s, at).Ok? && Targets(s.facts, at) == Ok((first, second))
    ensures |EmitBranching(s, at).value| == 3 && Emit(s, s.facts[..at], NOTHING).Emitted?
    ensures var blocks := EmitBranching(s, at).value;
            var known := Steps(InstructionItems(Emit(s, s.facts[..at], NOTHING).instructions), args, map[]);
            var answer := RunBlock(Cbor.Array(BlockItems(blocks)), 1, args, known, 2);
            answer.Some? && answer == FirstSays(s, args, at, first, second)
  {
    hide Emit, EmitReturning, Steps, Follow, InstructionItems, BlockItems, ResultOf, Below, Binds, Returned, ValueOf,
        RunBlock, EndsInReturn;
    EntryRuns(s, args, at);
    var e := Emit(s, s.facts[..at], NOTHING);
    var known := Steps(InstructionItems(e.instructions), args, map[]);
    var values := Follow(s, args, s.facts[..at], UNKNOWN);
    SliceEnds(s.facts, first, second);
    Bodies(s.facts, first, second);
    LastOfSlice(s.facts, first, second);
    ReturningRuns(s, 1, s.facts[first..second], e.results, values, known, args);
    EntryKey(s, args, at, ReturnKey(s.facts[second - 1]));
    ReturnRuns(EmitBranching(s, at).value, 1, args, known, 2);
  }

  lemma LastOfSlice(facts: seq<Fact>, first: nat, second: nat)
    requires first < second <= |facts|
    ensures facts[first..second][|facts[first..second]| - 1] == facts[second - 1]
  {
  }

  lemma SecondAnswers(s: Snapshot, args: seq<int>, at: nat, first: nat, second: nat)
    requires Distinct(s) && ManyArguments(s, args) && at < first < second < |s.facts|
    requires EmitBranching(s, at).Ok? && Targets(s.facts, at) == Ok((first, second))
    ensures |EmitBranching(s, at).value| == 3 && Emit(s, s.facts[..at], NOTHING).Emitted?
    ensures var blocks := EmitBranching(s, at).value;
            var known := Steps(InstructionItems(Emit(s, s.facts[..at], NOTHING).instructions), args, map[]);
            var answer := RunBlock(Cbor.Array(BlockItems(blocks)), 2, args, known, 2);
            if BoundBySibling(s, first, second) then answer == None
            else answer.Some? && answer == SecondSays(s, args, at, second)
  {
    hide Emit, EmitReturning, Steps, Follow, InstructionItems, BlockItems, ResultOf, Below, Binds, Returned, ValueOf,
        RunBlock, EndsInReturn;
    EntryRuns(s, args, at);
    var e := Emit(s, s.facts[..at], NOTHING);
    var known := Steps(InstructionItems(e.instructions), args, map[]);
    var values := Follow(s, args, s.facts[..at], UNKNOWN);
    var key := ReturnKey(s.facts[|s.facts| - 1]);
    SliceEnds(s.facts, first, second);
    Bodies(s.facts, first, second);
    BlockIsDense(s, 1, s.facts[first..second], e.results);
    ReturnOperandIs(s, 1, s.facts[first..second], e.results);
    var after := EmitReturning(s, 1, s.facts[first..second], e.results).value.1;
    ResultAfter(s, s.facts[first..second - 1], e.results, key);
    ReturningRuns(s, 2, s.facts[second..], after, values, known, args);
    EntryKey(s, args, at, key);
    ReturnRuns(EmitBranching(s, at).value, 2, args, known, 2);
  }

  ghost function SecondSays(s: Snapshot, args: seq<int>, at: nat, second: nat): Option<int>
    requires at <= second < |s.facts|
  {
    var last := |s.facts| - 1;
    Returned(Follow(s, args, s.facts[second..last], Follow(s, args, s.facts[..at], UNKNOWN)), s.facts[last])
  }

  /** A branching function answers what its trace does for every argument list: the first branch when the condition is
      not 0 and the second when it is. Only a second branch that returns what the first one bound has no answer. */
  lemma BranchAnswers(s: Snapshot, args: seq<int>, at: nat, first: nat, second: nat)
    requires Distinct(s) && BranchStands(s.facts, at, first, second)
    requires EmitFunction(s).Ok? && |args| == |EmitFunction(s).value.parameterTypes|
    ensures at < first < second && |s.facts[at].operands| == 1
    ensures var condition := Declared(Follow(s, args, s.facts[..at], UNKNOWN), s.facts[at].operands[0]);
            var answer := Answer(FunctionItem(EmitFunction(s).value), args);
            && condition.Some?
            && if condition.value != 0 then answer.Some? && answer == FirstSays(s, args, at, first, second)
               else if BoundBySibling(s, first, second) then answer == None
               else answer.Some? && answer == SecondSays(s, args, at, second)
  {
    hide EmitBranching, Targets, FindBranch, Emit, Steps, Follow, FunctionItem, BlockItems, RunBlock, FirstSays,
        SecondSays, BoundBySibling;
    hide ParameterTypes, SortedParameters, InstructionItems;
    BranchFound(s.facts, at, first, second);
    var f := EmitFunction(s).value;
    EntryRuns(s, args, at);
    FirstAnswers(s, args, at, first, second);
    SecondAnswers(s, args, at, first, second);
    FunctionParts(f);
    BranchRuns(f.blocks, args, map[], 3);
  }
}
