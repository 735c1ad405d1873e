/** The bytecode machine: a flat opcode array run on a fixed 256-cell stack. */
module Vm {
  import opened Ast
  import opened I32

  const LOAD_CONST := 1
  const LOAD_LOCAL := 2
  const STORE_LOCAL := 3
  const ADD := 10
  const SUB := 11
  const MUL := 12
  const DIV := 13
  const MOD := 14
  const LT := 20
  const LE := 21
  const GT := 22
  const GE := 23
  const EQ := 24
  const NE := 25
  const AND := 30
  const OR := 31
  const NOT := 32
  const NEG := 33
  const JUMP := 40
  const JUMP_IF_FALSE := 41
  const RETURN := 60
  const HALT := 99

  const STACK_SIZE: nat := 256

  predicate IsBinary(op: int) {
    ADD <= op <= MOD || LT <= op <= NE || op == AND || op == OR
  }

  /** What a run yields: a number (`undefined` is `None`) or a thrown trap. */
  datatype Outcome = Value(v: Option<i32>) | Trapped(kind: TrapKind)

  /** The machine between two dispatches. `sp` and `pc` are plain JavaScript numbers, so corrupt
      code can push them out of range; reads there give `undefined` and writes are dropped. */
  datatype State = State(pc: int, sp: int, stack: seq<i32>, locals: seq<i32>, backEdges: nat)

  datatype StepResult = Continue(st: State) | Halt(outcome: Outcome)

  /** Typed-array read: `undefined` outside the bounds. */
  function Get(a: seq<i32>, i: int): Option<i32> {
    if 0 <= i < |a| then Some(a[i]) else None
  }

  /** Typed-array write: dropped outside the bounds, `undefined` stored as 0. */
  function Put(a: seq<i32>, i: int, v: Option<i32>): (r: seq<i32>)
    ensures |r| == |a|
  {
    if 0 <= i < |a| then a[i := if v.Some? then v.value else 0] else a
  }

  function Bit(b: bool): i32 { if b then 1 else 0 }

  /** The binary opcodes on two numbers. */
  function Alu(op: int, a: i32, b: i32): I32Result
    requires IsBinary(op)
  {
    if op == ADD then AddChecked(a, b)
    else if op == SUB then SubChecked(a, b)
    else if op == MUL then MulChecked(a, b)
    else if op == DIV then DivChecked(a, b)
    else if op == MOD then ModChecked(a, b)
    else if op == LT then Ok(Bit(a < b))
    else if op == LE then Ok(Bit(a <= b))
    else if op == GT then Ok(Bit(a > b))
    else if op == GE then Ok(Bit(a >= b))
    else if op == EQ then Ok(Bit(a == b))
    else if op == NE then Ok(Bit(a != b))
    else if op == AND then Ok(if a <= b then a else b)
    else Ok(if a >= b then a else b)
  }

  /** The same opcodes when a stack read fell outside the array: `undefined` turns sums, minima
      and quotients into NaN (stored as 0), compares false, and cannot become a BigInt. */
  function AluUndefined(op: int, a: Option<i32>, b: Option<i32>): I32Result
    requires IsBinary(op) && (a.None? || b.None?)
  {
    if op == MUL then Trap(TypeError)
    else if (op == DIV || op == MOD) && b == Some(0) then Trap(DivisionByZero)
    else if op == EQ then Ok(Bit(a == b))
    else if op == NE then Ok(Bit(a != b))
    else Ok(0)
  }

  function Operate(op: int, a: Option<i32>, b: Option<i32>): I32Result
    requires IsBinary(op)
  {
    if a.Some? && b.Some? then Alu(op, a.value, b.value) else AluUndefined(op, a, b)
  }

  function Negate(a: Option<i32>): I32Result {
    if a.Some? then NegChecked(a.value) else Ok(0)
  }

  /** Value of a loop that ran past the end of the code. */
  function FallOff(sp: int, stack: seq<i32>): Outcome {
    Value(if sp > 0 then Get(stack, sp - 1) else Some(0))
  }

  /** One dispatch of the opcode at `st.pc`. */
  function Step(code: seq<i32>, st: State, maxIterations: nat): StepResult
    requires st.pc < |code|
  {
    var State(pc, sp, stack, locals, edges) := st;
    if pc < 0 then Halt(Trapped(UnknownOpcode))
    else
      var op := code[pc];
      if op == LOAD_CONST then
        Continue(State(pc + 2, sp + 1, Put(stack, sp, Get(code, pc + 1)), locals, edges))
      else if op == LOAD_LOCAL then
        var slot := Get(code, pc + 1);
        var v := if slot.Some? then Get(locals, slot.value) else None;
        Continue(State(pc + 2, sp + 1, Put(stack, sp, v), locals, edges))
      else if op == STORE_LOCAL then
        var slot := Get(code, pc + 1);
        var v := Get(stack, sp - 1);
        Continue(State(pc + 2, sp - 1, stack, if slot.Some? then Put(locals, slot.value, v) else locals, edges))
      else if IsBinary(op) then
        (match Operate(op, Get(stack, sp - 2), Get(stack, sp - 1))
         case Ok(v) => Continue(State(pc + 1, sp - 1, Put(stack, sp - 2, Some(v)), locals, edges))
         case Trap(k) => Halt(Trapped(k)))
      else if op == NOT then
        Continue(State(pc + 1, sp, Put(stack, sp - 1, Some(Bit(Get(stack, sp - 1) == Some(0)))), locals, edges))
      else if op == NEG then
        (match Negate(Get(stack, sp - 1))
         case Ok(v) => Continue(State(pc + 1, sp, Put(stack, sp - 1, Some(v)), locals, edges))
         case Trap(k) => Halt(Trapped(k)))
      else if op == JUMP then
        (match Get(code, pc + 1)
         case None => Halt(FallOff(sp, stack))
         case Some(t) => Branch(st, t, pc + 1, sp, maxIterations))
      else if op == JUMP_IF_FALSE then
        if Get(stack, sp - 1) != Some(0) then Continue(State(pc + 2, sp - 1, stack, locals, edges))
        else
          (match Get(code, pc + 1)
           case None => Halt(FallOff(sp - 1, stack))
           case Some(t) => Branch(st, t, pc + 2, sp - 1, maxIterations))
      else if op == RETURN then Halt(Value(Get(stack, sp - 1)))
      else if op == HALT then Halt(FallOff(sp, stack))
      else Halt(Trapped(UnknownOpcode))
  }

  /** Take a jump to `t` from `pc`: a backward one spends a back-edge and traps past the cap. */
  function Branch(st: State, t: int, pc: int, sp: int, maxIterations: nat): StepResult {
    if t < pc then
      if st.backEdges + 1 > maxIterations then Halt(Trapped(LoopExceeded))
      else Continue(State(t, sp, st.stack, st.locals, st.backEdges + 1))
    else Continue(State(t, sp, st.stack, st.locals, st.backEdges))
  }

  /** The whole run from `st`. It terminates on every code array: a dispatch either moves `pc`
      forward or spends one of finitely many back-edges. */
  function Run(code: seq<i32>, st: State, maxIterations: nat): Outcome
    requires st.backEdges <= maxIterations
    decreases maxIterations - st.backEdges, |code| - st.pc
  {
    if st.pc >= |code| then FallOff(st.sp, st.stack)
    else
      match Step(code, st, maxIterations)
      case Halt(o) => o
      case Continue(next) => Run(code, next, maxIterations)
  }

  /** Number of opcodes dispatched by that run. */
  function Dispatches(code: seq<i32>, st: State, maxIterations: nat): nat
    requires st.backEdges <= maxIterations
    decreases maxIterations - st.backEdges, |code| - st.pc
  {
    if st.pc >= |code| then 0
    else
      match Step(code, st, maxIterations)
      case Halt(_) => 1
      case Continue(next) => 1 + Dispatches(code, next, maxIterations)
  }

  function Zeros(n: nat): seq<i32> { seq(n, _ => 0) }

  /** Arguments fill the leading slots, truncated to 32 bits; surplus arguments are dropped only
      past the last slot. */
  function InitialLocals(localCount: nat, args: seq<int>): (r: seq<i32>)
    ensures |r| == localCount
  {
    seq(localCount, i => if 0 <= i < |args| then ToInt32(args[i]) else 0)
  }

  function InitialState(localCount: nat, args: seq<int>): State {
    State(0, 0, Zeros(STACK_SIZE), InitialLocals(localCount, args), 0)
  }

  datatype BytecodeProgram = BytecodeProgram(code: seq<i32>, localCount: nat, paramNames: seq<string>, flowName: string)

  function RunProgram(p: BytecodeProgram, args: seq<int>, maxIterations: nat): Outcome {
    Run(p.code, InitialState(p.localCount, args), maxIterations)
  }

  /** Every dispatch that does not halt moves forward or spends a back-edge. */
  lemma StepProgress(code: seq<i32>, st: State, maxIterations: nat)
    requires st.backEdges <= maxIterations && st.pc < |code|
    ensures Step(code, st, maxIterations).Continue? ==>
              var next := Step(code, st, maxIterations).st;
              && st.pc >= 0
              && |next.stack| == |st.stack| && |next.locals| == |st.locals|
              && (if next.pc > st.pc then next.backEdges <= st.backEdges + 1 else next.backEdges == st.backEdges + 1)
              && st.backEdges <= next.backEdges <= maxIterations
  {
  }

  /** Every code array, compiled or corrupt, halts within (maxIterations + 1) * |code| dispatches. */
  lemma HaltingBound(p: BytecodeProgram, args: seq<int>, maxIterations: nat)
    ensures Dispatches(p.code, InitialState(p.localCount, args), maxIterations) <= (maxIterations + 1) * |p.code|
  {
    DispatchBound(p.code, InitialState(p.localCount, args), maxIterations);
  }

  lemma {:induction false} DispatchBound(code: seq<i32>, st: State, maxIterations: nat)
    requires st.backEdges <= maxIterations
    ensures Dispatches(code, st, maxIterations) <= (maxIterations - st.backEdges) * |code| + Ahead(code, st.pc)
    decreases maxIterations - st.backEdges, |code| - st.pc
  {
    hide Step;
    if st.pc < |code| && Step(code, st, maxIterations).Continue? {
      var next := Step(code, st, maxIterations).st;
      StepProgress(code, st, maxIterations);
      DispatchBound(code, next, maxIterations);
      hide Dispatches;
      OneFewer(code, st.pc, next.pc, maxIterations - st.backEdges, maxIterations - next.backEdges);
      OneDispatch(code, st, maxIterations);
    }
  }

  lemma OneDispatch(code: seq<i32>, st: State, maxIterations: nat)
    requires st.backEdges <= maxIterations && st.pc < |code| && Step(code, st, maxIterations).Continue?
    ensures Dispatches(code, st, maxIterations) == 1 + Dispatches(code, Step(code, st, maxIterations).st, maxIterations)
  {
    hide Step;
    StepProgress(code, st, maxIterations);
  }

  /** A dispatch that moves ahead or spends a back-edge leaves at least one dispatch fewer. */
  lemma OneFewer(code: seq<i32>, pc: int, next: int, left: nat, leftNext: nat)
    requires 0 <= pc < |code| && left - 1 <= leftNext <= left && (next <= pc ==> leftNext == left - 1)
    ensures leftNext * |code| + Ahead(code, next) + 1 <= left * |code| + Ahead(code, pc)
  {
    if leftNext < left { OneMore(leftNext, |code|); }
  }

  lemma OneMore(k: nat, n: nat)
    ensures (k + 1) * n == k * n + n
  {
  }

  /** Dispatches possible before the next back-edge: an out-of-range `pc` traps at once. */
  function Ahead(code: seq<i32>, pc: int): nat {
    if pc >= |code| then 0 else if pc < 0 then 1 else |code| - pc
  }

  /** Typed-array read and write on the machine's own buffers. */
  function At(a: array<i32>, i: int): (r: Option<i32>)
    reads a
    ensures r == Get(a[..], i)
  {
    if 0 <= i < a.Length then Some(a[i]) else None
  }

  method Store(a: array<i32>, i: int, v: Option<i32>)
    modifies a
    ensures a[..] == Put(old(a[..]), i, v)
  {
    if 0 <= i < a.Length {
      a[i] := if v.Some? then v.value else 0;
    }
  }

  method LoadArguments(localCount: nat, args: seq<int>) returns (locals: array<i32>)
    ensures fresh(locals) && locals[..] == InitialLocals(localCount, args)
  {
    locals := new i32[localCount](i => 0);
    for i := 0 to if |args| < localCount then |args| else localCount
      invariant locals[..] == InitialLocals(localCount, args[..i])
    {
      locals[i] := ToInt32(args[i]);
    }
  }

  /** The interpreter loop. It allocates two buffers once and updates them in place. */
  method RunBytecode(p: BytecodeProgram, args: seq<int>, maxIterations: nat) returns (o: Outcome)
    ensures o == RunProgram(p, args, maxIterations)
  {
    hide Step;
    var locals := LoadArguments(p.localCount, args);
    var stack := new i32[STACK_SIZE](i => 0);
    var sp, pc, backEdges := 0, 0, 0;
    ghost var start := InitialState(p.localCount, args);
    assert stack[..] == start.stack;
    while pc < |p.code|
      invariant backEdges <= maxIterations
      invariant Run(p.code, State(pc, sp, stack[..], locals[..], backEdges), maxIterations)
             == Run(p.code, start, maxIterations)
      decreases maxIterations - backEdges, |p.code| - pc
    {
      StepProgress(p.code, State(pc, sp, stack[..], locals[..], backEdges), maxIterations);
      var halted;
      halted, pc, sp, backEdges := Dispatch(p.code, pc, sp, backEdges, stack, locals, maxIterations);
      if halted.Some? {
        return halted.value;
      }
    }
    return FallOff(sp, stack[..]);
  }

  /** One turn of the loop: fetch, decode, and update the buffers in place. */
  method Dispatch(code: seq<i32>, pc0: int, sp0: int, backEdges0: nat, stack: array<i32>, locals: array<i32>,
                  maxIterations: nat)
    returns (halted: Option<Outcome>, pc: int, sp: int, backEdges: nat)
    requires pc0 < |code| && stack != locals
    modifies stack, locals
    ensures var step := Step(code, State(pc0, sp0, old(stack[..]), old(locals[..]), backEdges0), maxIterations);
            if halted.Some? then step == Halt(halted.value)
            else step == Continue(State(pc, sp, stack[..], locals[..], backEdges))
  {
    hide Operate, Negate, FallOff, Bit;
    halted, pc, sp, backEdges := None, pc0, sp0, backEdges0;
    if pc < 0 {
      halted := Some(Trapped(UnknownOpcode));
      return;
    }
    var op := code[pc];
    pc := pc + 1;
    if op == LOAD_CONST {
      Store(stack, sp, Get(code, pc));
      sp, pc := sp + 1, pc + 1;
    } else if op == LOAD_LOCAL {
      var slot := Get(code, pc);
      Store(stack, sp, if slot.Some? then At(locals, slot.value) else None);
      sp, pc := sp + 1, pc + 1;
    } else if op == STORE_LOCAL {
      var slot := Get(code, pc);
      sp, pc := sp - 1, pc + 1;
      if slot.Some? {
        var v := At(stack, sp);
        Store(locals, slot.value, v);
      }
    } else if IsBinary(op) {
      sp := sp - 1;
      match Operate(op, At(stack, sp - 1), At(stack, sp)) {
        case Ok(v) => Store(stack, sp - 1, Some(v));
        case Trap(k) => halted := Some(Trapped(k));
      }
    } else if op == NOT {
      Store(stack, sp - 1, Some(Bit(At(stack, sp - 1) == Some(0))));
    } else if op == NEG {
      match Negate(At(stack, sp - 1)) {
        case Ok(v) => Store(stack, sp - 1, Some(v));
        case Trap(k) => halted := Some(Trapped(k));
      }
    } else if op == JUMP {
      var target := Get(code, pc);
      if target.None? {
        halted := Some(FallOff(sp, stack[..]));
        return;
      }
      halted, pc, backEdges := TakeJump(target.value, pc, backEdges, maxIterations);
    } else if op == JUMP_IF_FALSE {
      var target := Get(code, pc);
      sp, pc := sp - 1, pc + 1;
      if At(stack, sp) == Some(0) {
        if target.None? {
          halted := Some(FallOff(sp, stack[..]));
          return;
        }
        halted, pc, backEdges := TakeJump(target.value, pc, backEdges, maxIterations);
      }
    } else if op == RETURN {
      halted := Some(Value(At(stack, sp - 1)));
    } else if op == HALT {
      halted := Some(FallOff(sp, stack[..]));
    } else {
      halted := Some(Trapped(UnknownOpcode));
    }
  }

  /** Count a backward jump against the cap, then go. */
  method TakeJump(target: int, pc0: int, backEdges0: nat, maxIterations: nat)
    returns (halted: Option<Outcome>, pc: int, backEdges: nat)
    ensures halted.Some? <==> target < pc0 && backEdges0 + 1 > maxIterations
    ensures halted.Some? ==> halted.value == Trapped(LoopExceeded)
    ensures pc == target && backEdges == if target < pc0 then backEdges0 + 1 else backEdges0
  {
    halted, pc, backEdges := None, target, backEdges0;
    if target < pc0 {
      backEdges := backEdges + 1;
      if backEdges > maxIterations {
        halted := Some(Trapped(LoopExceeded));
      }
    }
  }
}
