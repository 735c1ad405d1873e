/** Running the compiled code gives what the source means: first one instruction at a time, then by
    expressions, statements and blocks, each ending where its code ends with the variables it should. */
module CompilerProof {
  import opened Ast
  import opened I32
  import opened Vm
  import opened Source
  import opened Compiler

  // ----- Stack need -----

  function Max(a: nat, b: nat): nat { if a < b then b else a }

  /** Stack cells an expression needs; the right operand runs above the left one's value. */
  function NeedExpr(e: Node): nat
    decreases e
  {
    if e.kind.BinaryExpr? && |e.children| >= 2 then Max(NeedExpr(e.children[0]), 1 + NeedExpr(e.children[1]))
    else if e.kind.UnaryExpr? && |e.children| >= 1 then NeedExpr(e.children[0])
    else 1
  }

  /** Stack need of a node taken as a statement: the worst of the expressions it evaluates. */
  function NeedStmt(n: Node): nat
    decreases n
  {
    match n.kind
    case LetDecl | MutDecl | AssignStmt | ReturnStmt => if n.children == [] then 1 else NeedExpr(n.children[0])
    case IfStmt | WhileStmt =>
      if n.children == [] then 0
      else
        Max(NeedExpr(n.children[0]),
            Max(if |n.children| > 1 then NeedStmt(n.children[1]) else 0,
                if |n.children| > 2 then NeedStmt(n.children[2]) else 0))
    case Block => NeedBlock(n.children)
    case _ => 0
  }

  function NeedBlock(ss: seq<Node>): nat
    decreases ss
  {
    if ss == [] then 0 else Max(NeedStmt(ss[0]), NeedBlock(ss[1..]))
  }

  // ----- Code placement -----

  /** `frag` sits in `code` at address `at`. */
  ghost predicate CodeAt(code: seq<int>, at: int, frag: seq<int>) {
    && 0 <= at && at + |frag| <= |code|
    && forall i :: 0 <= i < |frag| ==> code[at + i] == frag[i]
  }

  lemma Cell(code: seq<int>, at: int, frag: seq<int>, i: nat)
    requires CodeAt(code, at, frag) && i < |frag|
    ensures code[at + i] == frag[i]
  {
    assert frag[i] == frag[i];
  }

  lemma Split(code: seq<int>, at: int, a: seq<int>, b: seq<int>)
    requires CodeAt(code, at, a + b)
    ensures CodeAt(code, at, a) && CodeAt(code, at + |a|, b)
  {
    forall i | 0 <= i < |a|
      ensures code[at + i] == a[i]
    {
      assert (a + b)[i] == a[i];
    }
    forall i | 0 <= i < |b|
      ensures code[at + |a| + i] == b[i]
    {
      assert (a + b)[|a| + i] == b[i];
    }
  }

  // ----- One instruction at a time -----

  lemma RunConst(code: seq<i32>, st: State, n: int, cap: nat)
    requires CodeAt(code, st.pc, [LOAD_CONST, n]) && 0 <= st.sp < |st.stack| && st.backEdges <= cap
    ensures I32_MIN <= n <= I32_MAX
    ensures Run(code, st, cap) == Run(code, Pushed(st, 2, n), cap)
  {
    Cell(code, st.pc, [LOAD_CONST, n], 0);
    Cell(code, st.pc, [LOAD_CONST, n], 1);
  }

  function Pushed(st: State, width: nat, v: i32): State
    requires 0 <= st.sp < |st.stack|
  {
    State(st.pc + width, st.sp + 1, st.stack[st.sp := v], st.locals, st.backEdges)
  }

  lemma RunLocal(code: seq<i32>, st: State, slot: nat, cap: nat)
    requires CodeAt(code, st.pc, [LOAD_LOCAL, slot]) && 0 <= st.sp < |st.stack| && st.backEdges <= cap
    requires slot < |st.locals|
    ensures Run(code, st, cap) == Run(code, Pushed(st, 2, st.locals[slot]), cap)
  {
    Cell(code, st.pc, [LOAD_LOCAL, slot], 0);
    Cell(code, st.pc, [LOAD_LOCAL, slot], 1);
  }

  lemma RunStore(code: seq<i32>, st: State, slot: nat, cap: nat)
    requires CodeAt(code, st.pc, [STORE_LOCAL, slot]) && 0 < st.sp <= |st.stack| && st.backEdges <= cap
    requires slot < |st.locals|
    ensures Run(code, st, cap)
         == Run(code, State(st.pc + 2, st.sp - 1, st.stack, st.locals[slot := st.stack[st.sp - 1]], st.backEdges), cap)
  {
    Cell(code, st.pc, [STORE_LOCAL, slot], 0);
    Cell(code, st.pc, [STORE_LOCAL, slot], 1);
  }

  lemma RunBinary(code: seq<i32>, st: State, op: int, cap: nat)
    requires CodeAt(code, st.pc, [op]) && IsBinary(op) && 2 <= st.sp <= |st.stack| && st.backEdges <= cap
    ensures Run(code, st, cap)
         == match Alu(op, st.stack[st.sp - 2], st.stack[st.sp - 1])
            case Ok(v) => Run(code, State(st.pc + 1, st.sp - 1, st.stack[st.sp - 2 := v], st.locals, st.backEdges), cap)
            case Trap(k) => Outcome.Trapped(k)
  {
    hide Alu;
    Cell(code, st.pc, [op], 0);
  }

  /** NEG or NOT on a number. */
  function Unary(op: int, a: i32): I32Result {
    if op == NEG then NegChecked(a) else Ok(Bit(a == 0))
  }

  lemma RunUnary(code: seq<i32>, st: State, op: int, cap: nat)
    requires CodeAt(code, st.pc, [op]) && (op == NEG || op == NOT)
    requires 1 <= st.sp <= |st.stack| && st.backEdges <= cap
    ensures Run(code, st, cap)
         == match Unary(op, st.stack[st.sp - 1])
            case Ok(v) => Run(code, State(st.pc + 1, st.sp, st.stack[st.sp - 1 := v], st.locals, st.backEdges), cap)
            case Trap(k) => Outcome.Trapped(k)
  {
    Cell(code, st.pc, [op], 0);
  }

  lemma RunReturn(code: seq<i32>, st: State, cap: nat)
    requires CodeAt(code, st.pc, [RETURN]) && 1 <= st.sp <= |st.stack| && st.backEdges <= cap
    ensures Run(code, st, cap) == Value(Some(st.stack[st.sp - 1]))
  {
    Cell(code, st.pc, [RETURN], 0);
  }

  lemma RunJump(code: seq<i32>, st: State, target: int, cap: nat)
    requires CodeAt(code, st.pc, [JUMP, target]) && st.backEdges <= cap
    ensures target > st.pc ==>
              Run(code, st, cap) == Run(code, State(target, st.sp, st.stack, st.locals, st.backEdges), cap)
    ensures target <= st.pc && st.backEdges == cap ==> Run(code, st, cap) == Outcome.Trapped(LoopExceeded)
    ensures target <= st.pc && st.backEdges < cap ==>
              Run(code, st, cap) == Run(code, State(target, st.sp, st.stack, st.locals, st.backEdges + 1), cap)
  {
    Cell(code, st.pc, [JUMP, target], 0);
    Cell(code, st.pc, [JUMP, target], 1);
  }

  lemma RunBranch(code: seq<i32>, st: State, target: int, cap: nat)
    requires CodeAt(code, st.pc, [JUMP_IF_FALSE, target]) && 1 <= st.sp <= |st.stack| && st.backEdges <= cap
    requires target >= st.pc + 2
    ensures Run(code, st, cap)
         == Run(code, State(if st.stack[st.sp - 1] == 0 then target else st.pc + 2,
                            st.sp - 1, st.stack, st.locals, st.backEdges), cap)
  {
    Cell(code, st.pc, [JUMP_IF_FALSE, target], 0);
    Cell(code, st.pc, [JUMP_IF_FALSE, target], 1);
  }

  // ----- Expressions -----

  /** Locals agree with the environment on every variable that has a slot. */
  ghost predicate Agree(slots: Slots, env: Env, locals: seq<i32>) {
    forall x :: x in slots ==> slots[x] < |locals| && locals[slots[x]] == Lookup(env, x)
  }

  ghost predicate Extends(small: Slots, big: Slots) {
    forall x :: x in small ==> x in big && big[x] == small[x]
  }

  /** `after` is `before` moved past `width` cells with `v` on top and nothing below changed. */
  ghost predicate Produced(before: State, after: State, width: nat, v: i32) {
    && after.pc == before.pc + width && after.sp == before.sp + 1
    && after.locals == before.locals && after.backEdges == before.backEdges
    && |after.stack| == |before.stack| && 0 <= before.sp < |before.stack|
    && (forall i :: 0 <= i < before.sp ==> after.stack[i] == before.stack[i])
    && after.stack[before.sp] == v
  }

  /** Operator text, opcode and arithmetic agree. */
  lemma OperatorsAgree(op: string, a: i32, b: i32)
    ensures BinaryOpcode(op).Some? <==> ApplyBinary(op, a, b).Some?
    ensures BinaryOpcode(op).Some? ==>
              IsBinary(BinaryOpcode(op).value) && ApplyBinary(op, a, b).value == Alu(BinaryOpcode(op).value, a, b)
    ensures UnaryOpcode(op).Some? <==> ApplyUnary(op, a).Some?
    ensures UnaryOpcode(op).Some? ==>
              UnaryOpcode(op).value in {NEG, NOT} && ApplyUnary(op, a).value == Unary(UnaryOpcode(op).value, a)
  {
  }

  lemma {:induction false} ExprCorrect(code: seq<i32>, e: Node, slots: Slots, env: Env, st: State, cap: nat)
    returns (after: State)
    requires GenExpr(e, slots).Some? && CodeAt(code, st.pc, GenExpr(e, slots).value)
    requires Agree(slots, env, st.locals)
    requires 0 <= st.sp && st.sp + NeedExpr(e) <= |st.stack| && st.backEdges <= cap
    ensures EvalExpr(e, env).Ok? ==>
              && Produced(st, after, |GenExpr(e, slots).value|, EvalExpr(e, env).value)
              && Run(code, st, cap) == Run(code, after, cap)
    ensures EvalExpr(e, env).Trap? ==> Run(code, st, cap) == Outcome.Trapped(EvalExpr(e, env).kind)
    decreases e
  {
    hide Run, Alu, ApplyBinary, ApplyUnary, BinaryOpcode, UnaryOpcode, LiteralValue, Unary;
    after := st;
    match e.kind {
      case NumberLiteral =>
        RunConst(code, st, LiteralValue(e.value).value, cap);
        after := Pushed(st, 2, LiteralValue(e.value).value);
      case BoolLiteral =>
        RunConst(code, st, Truth(e.value == "true"), cap);
        after := Pushed(st, 2, Truth(e.value == "true"));
      case Identifier =>
        if e.value == "true" || e.value == "false" {
          RunConst(code, st, Truth(e.value == "true"), cap);
          after := Pushed(st, 2, Truth(e.value == "true"));
        } else {
          RunLocal(code, st, slots[e.value], cap);
          after := Pushed(st, 2, st.locals[slots[e.value]]);
        }
      case BinaryExpr => after := BinaryCorrect(code, e, slots, env, st, cap);
      case UnaryExpr =>
        var c := GenExpr(e.children[0], slots).value;
        var op := UnaryOpcode(e.value).value;
        Split(code, st.pc, c, [op]);
        var mid := ExprCorrect(code, e.children[0], slots, env, st, cap);
        OperatorsAgree(e.value, 0, 0);
        if EvalExpr(e.children[0], env).Ok? {
          OperatorsAgree(e.value, EvalExpr(e.children[0], env).value, 0);
          RunUnary(code, mid, op, cap);
          if EvalExpr(e, env).Ok? {
            after := State(mid.pc + 1, mid.sp, mid.stack[mid.sp - 1 := EvalExpr(e, env).value], mid.locals, mid.backEdges);
          }
        }
      case _ =>
    }
  }

  lemma {:induction false} BinaryCorrect(code: seq<i32>, e: Node, slots: Slots, env: Env, st: State, cap: nat)
    returns (after: State)
    requires e.kind.BinaryExpr?
    requires GenExpr(e, slots).Some? && CodeAt(code, st.pc, GenExpr(e, slots).value)
    requires Agree(slots, env, st.locals)
    requires 0 <= st.sp && st.sp + NeedExpr(e) <= |st.stack| && st.backEdges <= cap
    ensures EvalExpr(e, env).Ok? ==>
              && Produced(st, after, |GenExpr(e, slots).value|, EvalExpr(e, env).value)
              && Run(code, st, cap) == Run(code, after, cap)
    ensures EvalExpr(e, env).Trap? ==> Run(code, st, cap) == Outcome.Trapped(EvalExpr(e, env).kind)
    decreases e, 0
  {
    hide Run, Alu, ApplyBinary, ApplyUnary, BinaryOpcode, UnaryOpcode, Unary;
    after := st;
    var l, r := GenExpr(e.children[0], slots).value, GenExpr(e.children[1], slots).value;
    var op := BinaryOpcode(e.value).value;
    Split(code, st.pc, l + r, [op]);
    Split(code, st.pc, l, r);
    var mid := ExprCorrect(code, e.children[0], slots, env, st, cap);
    if EvalExpr(e.children[0], env).Ok? {
      var top := ExprCorrect(code, e.children[1], slots, env, mid, cap);
      if EvalExpr(e.children[1], env).Ok? {
        OperatorsAgree(e.value, EvalExpr(e.children[0], env).value, EvalExpr(e.children[1], env).value);
        RunBinary(code, top, op, cap);
        if EvalExpr(e, env).Ok? {
          after := State(top.pc + 1, top.sp - 1, top.stack[top.sp - 2 := EvalExpr(e, env).value], top.locals, top.backEdges);
        }
      }
    }
  }

  lemma FirstCorrect(code: seq<i32>, children: seq<Node>, slots: Slots, env: Env, st: State, cap: nat)
    returns (after: State)
    requires GenFirst(children, slots).Some? && CodeAt(code, st.pc, GenFirst(children, slots).value)
    requires Agree(slots, env, st.locals)
    requires st.sp == 0 && 1 <= |st.stack| && st.backEdges <= cap
    requires children != [] ==> NeedExpr(children[0]) <= |st.stack|
    ensures EvalFirst(children, env).Ok? ==>
              && Produced(st, after, |GenFirst(children, slots).value|, EvalFirst(children, env).value)
              && Run(code, st, cap) == Run(code, after, cap)
    ensures EvalFirst(children, env).Trap? ==> Run(code, st, cap) == Outcome.Trapped(EvalFirst(children, env).kind)
  {
    hide Run;
    if children == [] {
      RunConst(code, st, 0, cap);
      after := Pushed(st, 2, 0);
    } else {
      after := ExprCorrect(code, children[0], slots, env, st, cap);
    }
  }

  // ----- Slots only grow -----

  lemma SlotForGrows(slots: Slots, name: string)
    requires Dense(slots)
    ensures Dense(SlotFor(slots, name)) && Extends(slots, SlotFor(slots, name)) && name in SlotFor(slots, name)
  {
    assert name !in slots ==> SlotFor(slots, name).Keys == slots.Keys + {name};
  }

  lemma {:induction false} StmtSlots(n: Node, base: nat, slots: Slots)
    requires Dense(slots) && GenStmt(n, base, slots).Some?
    ensures Dense(GenStmt(n, base, slots).value.slots) && Extends(slots, GenStmt(n, base, slots).value.slots)
    decreases n
  {
    hide GenExpr;
    match n.kind {
      case LetDecl | MutDecl => SlotForGrows(slots, BindingName(n.value));
      case AssignStmt => SlotForGrows(slots, Trim(n.value));
      case IfStmt => IfSlots(n, base, slots);
      case WhileStmt =>
        SecondSlots(n.children, base + |GenExpr(n.children[0], slots).value| + 2, slots);
      case Block => BlockSlots(n.children, base, slots);
      case _ =>
    }
  }

  lemma IfSlots(n: Node, base: nat, slots: Slots)
    requires Dense(slots) && GenIf(n, base, slots).Some?
    ensures Dense(GenIf(n, base, slots).value.slots) && Extends(slots, GenIf(n, base, slots).value.slots)
    decreases n, 0
  {
    hide GenExpr, GenSecond, GenStmt;
    var thenBase := base + |GenExpr(n.children[0], slots).value| + 2;
    SecondSlots(n.children, thenBase, slots);
    if |n.children| > 2 {
      var t := GenSecond(n.children, thenBase, slots).value;
      StmtSlots(n.children[2], thenBase + |t.code| + 2, t.slots);
    }
  }

  lemma SecondSlots(children: seq<Node>, base: nat, slots: Slots)
    requires Dense(slots) && GenSecond(children, base, slots).Some?
    ensures Dense(GenSecond(children, base, slots).value.slots) && Extends(slots, GenSecond(children, base, slots).value.slots)
    decreases children, 0
  {
    if |children| > 1 {
      StmtSlots(children[1], base, slots);
    }
  }

  lemma {:induction false} BlockSlots(ss: seq<Node>, base: nat, slots: Slots)
    requires Dense(slots) && GenBlock(ss, base, slots).Some?
    ensures Dense(GenBlock(ss, base, slots).value.slots) && Extends(slots, GenBlock(ss, base, slots).value.slots)
    decreases ss
  {
    if ss != [] {
      var f := GenStmt(ss[0], base, slots).value;
      StmtSlots(ss[0], base, slots);
      BlockSlots(ss[1..], base + |f.code|, f.slots);
    }
  }

  // ----- Statements -----

  /** The machine between two statements: empty stack, locals in step with the environment.
      `full` is the whole flow's slot table, of which the compiler has seen `slots` so far. */
  ghost predicate Ready(full: Slots, env: Env, st: State, need: nat, cap: nat) {
    && st.sp == 0 && 1 <= |st.stack| && need <= |st.stack|
    && Dense(full) && |st.locals| == |full| && Agree(full, env, st.locals)
    && st.backEdges <= cap
  }

  /** The run from `st` matches outcome `r`; when the statement ends normally it is at `after`. */
  ghost predicate Matches(code: seq<i32>, st: State, after: State, width: int, full: Slots, r: Exec, cap: nat) {
    && st.backEdges <= cap
    && match r
       case Next(env, spent) =>
         && after.pc == st.pc + width && after.backEdges == spent && |after.stack| == |st.stack|
         && Ready(full, env, after, 0, cap)
         && Run(code, st, cap) == Run(code, after, cap)
       case Returned(v) => Run(code, st, cap) == Value(Some(v))
       case Failed(k) => Run(code, st, cap) == Outcome.Trapped(k)
  }

  /** Where a run that ended normally stands, and what it is ready for. */
  lemma Arrive(code: seq<i32>, st: State, mid: State, width: int, full: Slots, env: Env, spent: nat, need: nat,
        cap: nat)
    requires Matches(code, st, mid, width, full, Next(env, spent), cap) && need <= |st.stack|
    ensures mid.pc == st.pc + width && mid.backEdges == spent && |mid.stack| == |st.stack|
    ensures Ready(full, env, mid, need, cap)
  {
  }

  lemma Chain(code: seq<i32>, st: State, mid: State, after: State, w1: int, w2: int, full: Slots, env: Env, spent: nat,
              r: Exec, cap: nat)
    requires Matches(code, st, mid, w1, full, Next(env, spent), cap)
    requires Matches(code, mid, after, w2, full, r, cap)
    ensures Matches(code, st, after, w1 + w2, full, r, cap)
  {
    hide Run, Agree, Dense;
  }

  lemma ExtendsTrans(a: Slots, b: Slots, c: Slots)
    requires Extends(a, b) && Extends(b, c)
    ensures Extends(a, c)
  {
  }

  function StoreResult(name: string, v: I32Result, env: Env, spent: nat): Exec {
    match v
    case Ok(n) => Next(env[name := n], spent)
    case Trap(k) => Failed(k)
  }

  lemma StoreCorrect(code: seq<i32>, children: seq<Node>, name: string, slots: Slots, full: Slots, env: Env, st: State,
                     cap: nat)
    returns (after: State)
    requires Dense(slots) && GenStore(children, name, slots).Some?
    requires CodeAt(code, st.pc, GenStore(children, name, slots).value.code)
    requires Extends(GenStore(children, name, slots).value.slots, full)
    requires Ready(full, env, st, if children == [] then 1 else NeedExpr(children[0]), cap)
    ensures Matches(code, st, after, |GenStore(children, name, slots).value.code|, full,
                    StoreResult(name, EvalFirst(children, env), env, st.backEdges), cap)
  {
    StorePieces(code, st.pc, children, name, slots, full);
    hide Run, GenFirst, EvalFirst, GenStore, CodeAt, Extends, Agree, Dense, NeedExpr, Produced, Matches, Ready;
    var c := GenFirst(children, slots).value;
    var need := if children == [] then 1 else NeedExpr(children[0]);
    ReadyHas(full, env, st, need, cap);
    AgreeFewer(slots, full, env, st.locals);
    after := FirstCorrect(code, children, slots, env, st, cap);
    match EvalFirst(children, env)
    case Ok(v) =>
      ReadyForOne(full, env, st, need, cap);
      after := StoreLands(code, st, after, |c|, full, env, name, v, cap);
    case Trap(k) => TrapMatches(code, st, after, |c| + 2, full, k, cap);
  }

  lemma ReadyHas(full: Slots, env: Env, st: State, need: nat, cap: nat)
    requires Ready(full, env, st, need, cap)
    ensures st.sp == 0 && 1 <= |st.stack| && need <= |st.stack| && Agree(full, env, st.locals) && st.backEdges <= cap
  {
  }

  lemma ReadyForOne(full: Slots, env: Env, st: State, need: nat, cap: nat)
    requires Ready(full, env, st, need, cap)
    ensures Ready(full, env, st, 1, cap)
  {
  }

  lemma StorePieces(code: seq<i32>, pc: int, children: seq<Node>, name: string, slots: Slots, full: Slots)
    requires Dense(slots) && GenStore(children, name, slots).Some?
    requires CodeAt(code, pc, GenStore(children, name, slots).value.code)
    requires Extends(GenStore(children, name, slots).value.slots, full)
    ensures GenFirst(children, slots).Some? && name in full && Extends(slots, full)
    ensures var c := GenFirst(children, slots).value;
      && CodeAt(code, pc, c) && CodeAt(code, pc + |c|, [STORE_LOCAL, full[name]])
      && |GenStore(children, name, slots).value.code| == |c| + 2
  {
    hide GenFirst, CodeAt, Dense;
    SlotForGrows(slots, name);
    Split(code, pc, GenFirst(children, slots).value, [STORE_LOCAL, full[name]]);
  }

  lemma AgreeFewer(slots: Slots, full: Slots, env: Env, locals: seq<i32>)
    requires Extends(slots, full) && Agree(full, env, locals)
    ensures Agree(slots, env, locals)
  {
  }

  /** The store instruction after the value on the stack. */
  lemma StoreLands(code: seq<i32>, st: State, mid: State, width: nat, full: Slots, env: Env, name: string, v: i32,
        cap: nat)
    returns (after: State)
    requires Ready(full, env, st, 1, cap) && name in full && Produced(st, mid, width, v)
    requires CodeAt(code, mid.pc, [STORE_LOCAL, full[name]])
    requires Run(code, st, cap) == Run(code, mid, cap)
    ensures Matches(code, st, after, width + 2, full, Next(env[name := v], st.backEdges), cap)
  {
    hide Run, CodeAt, Agree;
    assert Dense(full);
    var s := full[name];
    AgreeStore(full, env, st.locals, name, v);
    RunStore(code, mid, s, cap);
    after := State(mid.pc + 2, 0, mid.stack, mid.locals[s := v], mid.backEdges);
  }

  lemma AgreeStore(full: Slots, env: Env, locals: seq<i32>, name: string, v: i32)
    requires Dense(full) && |locals| == |full| && name in full && Agree(full, env, locals)
    ensures Agree(full, env[name := v], locals[full[name] := v])
  {
  }

  lemma {:induction false} StmtCorrect(code: seq<i32>, n: Node, slots: Slots, full: Slots, env: Env, st: State,
        cap: nat)
    returns (after: State)
    requires st.pc >= 0 && Dense(slots) && GenStmt(n, st.pc, slots).Some?
    requires CodeAt(code, st.pc, GenStmt(n, st.pc, slots).value.code)
    requires Extends(GenStmt(n, st.pc, slots).value.slots, full)
    requires Ready(full, env, st, NeedStmt(n), cap)
    ensures Matches(code, st, after, |GenStmt(n, st.pc, slots).value.code|, full,
                    EvalStmt(n, env, st.backEdges, cap), cap)
    decreases cap - st.backEdges, n, 2
  {
    hide Run, GenFirst, EvalFirst, GenStore, GenIf, GenWhile;
    after := st;
    match n.kind {
      case LetDecl | MutDecl => after := StoreCorrect(code, n.children, BindingName(n.value), slots, full, env, st, cap);
      case AssignStmt => after := StoreCorrect(code, n.children, Trim(n.value), slots, full, env, st, cap);
      case ReturnStmt =>
        Split(code, st.pc, GenFirst(n.children, slots).value, [RETURN]);
        after := FirstCorrect(code, n.children, slots, env, st, cap);
        if EvalFirst(n.children, env).Ok? {
          RunReturn(code, after, cap);
        }
      case IfStmt => after := IfCorrect(code, n, slots, full, env, st, cap);
      case WhileStmt => after := WhileCorrect(code, n, slots, full, env, st, cap);
      case Block => after := BlockCorrect(code, n.children, slots, full, env, st, cap);
      case _ =>
    }
  }

  lemma {:induction false} BlockCorrect(code: seq<i32>, ss: seq<Node>, slots: Slots, full: Slots, env: Env, st: State,
        cap: nat)
    returns (after: State)
    requires st.pc >= 0 && Dense(slots) && GenBlock(ss, st.pc, slots).Some?
    requires CodeAt(code, st.pc, GenBlock(ss, st.pc, slots).value.code)
    requires Extends(GenBlock(ss, st.pc, slots).value.slots, full)
    requires Ready(full, env, st, NeedBlock(ss), cap)
    ensures Matches(code, st, after, |GenBlock(ss, st.pc, slots).value.code|, full,
                    EvalBlock(ss, env, st.backEdges, cap), cap)
    decreases cap - st.backEdges, ss, 1
  {
    hide Run, GenStmt, EvalStmt, NeedStmt, Matches, Agree, Dense, Extends, CodeAt;
    after := st;
    if ss == [] {
      StandStill(code, st, full, env, cap);
    } else {
      var f := GenStmt(ss[0], st.pc, slots).value;
      var rest := GenBlock(ss[1..], st.pc + |f.code|, f.slots).value;
      StmtSlots(ss[0], st.pc, slots);
      BlockSlots(ss[1..], st.pc + |f.code|, f.slots);
      ExtendsTrans(f.slots, rest.slots, full);
      Split(code, st.pc, f.code, rest.code);
      var mid := StmtCorrect(code, ss[0], slots, full, env, st, cap);
      after := mid;
      var r := EvalStmt(ss[0], env, st.backEdges, cap);
      if r.Next? {
        Arrive(code, st, mid, |f.code|, full, r.env, r.spent, NeedBlock(ss[1..]), cap);
        after := BlockCorrect(code, ss[1..], f.slots, full, r.env, mid, cap);
        Chain(code, st, mid, after, |f.code|, |rest.code|, full, r.env, r.spent, EvalBlock(ss[1..], r.env, r.spent, cap), cap);
      } else {
        StopsEarly(code, st, mid, |f.code|, |f.code + rest.code|, full, r, cap);
      }
    }
  }

  lemma StandStill(code: seq<i32>, st: State, full: Slots, env: Env, cap: nat)
    requires Ready(full, env, st, 0, cap)
    ensures Matches(code, st, st, 0, full, Next(env, st.backEdges), cap)
  {
  }

  /** A run that returned or trapped matches whatever follows. */
  lemma StopsEarly(code: seq<i32>, st: State, mid: State, w1: int, w2: int, full: Slots, r: Exec, cap: nat)
    requires !r.Next? && Matches(code, st, mid, w1, full, r, cap)
    ensures Matches(code, st, mid, w2, full, r, cap)
  {
  }

  /** The condition and its conditional jump, shared by `if` and `while`. */
  lemma ConditionCorrect(code: seq<i32>, e: Node, target: int, slots: Slots, full: Slots, env: Env, st: State, cap: nat)
    returns (after: State)
    requires GenExpr(e, slots).Some? && CodeAt(code, st.pc, GenExpr(e, slots).value)
    requires CodeAt(code, st.pc + |GenExpr(e, slots).value|, [JUMP_IF_FALSE, target])
    requires target >= st.pc + |GenExpr(e, slots).value| + 2
    requires Extends(slots, full) && Ready(full, env, st, NeedExpr(e), cap)
    ensures match EvalExpr(e, env)
            case Trap(k) => Run(code, st, cap) == Outcome.Trapped(k)
            case Ok(v) =>
              Matches(code, st, after, if v == 0 then target - st.pc else |GenExpr(e, slots).value| + 2, full,
                      Next(env, st.backEdges), cap)
  {
    hide Run, GenExpr, EvalExpr, NeedExpr;
    after := ExprCorrect(code, e, slots, env, st, cap);
    if EvalExpr(e, env).Ok? {
      RunBranch(code, after, target, cap);
      var v := EvalExpr(e, env).value;
      after := State(if v == 0 then target else after.pc + 2, 0, after.stack, after.locals, after.backEdges);
    }
  }

  lemma {:induction false} SecondCorrect(code: seq<i32>, children: seq<Node>, slots: Slots, full: Slots, env: Env,
        st: State,
                                         cap: nat)
    returns (after: State)
    requires st.pc >= 0 && Dense(slots) && GenSecond(children, st.pc, slots).Some?
    requires CodeAt(code, st.pc, GenSecond(children, st.pc, slots).value.code)
    requires Extends(GenSecond(children, st.pc, slots).value.slots, full)
    requires Ready(full, env, st, if |children| > 1 then NeedStmt(children[1]) else 0, cap)
    ensures Matches(code, st, after, |GenSecond(children, st.pc, slots).value.code|, full,
                    EvalSecond(children, env, st.backEdges, cap), cap)
    decreases cap - st.backEdges, children, 0
  {
    hide Run, GenStmt, EvalStmt, NeedStmt;
    after := st;
    if |children| > 1 {
      after := StmtCorrect(code, children[1], slots, full, env, st, cap);
    }
  }

  function EvalSecond(children: seq<Node>, env: Env, spent: nat, cap: nat): (r: Exec)
    requires spent <= cap
    ensures r.Next? ==> spent <= r.spent <= cap
  {
    if |children| > 1 then EvalStmt(children[1], env, spent, cap) else Next(env, spent)
  }

  lemma JumpCorrect(code: seq<i32>, target: int, full: Slots, env: Env, st: State, cap: nat) returns (after: State)
    requires CodeAt(code, st.pc, [JUMP, target]) && Ready(full, env, st, 0, cap)
    ensures target > st.pc ==> Matches(code, st, after, target - st.pc, full, Next(env, st.backEdges), cap)
    ensures target <= st.pc ==>
              Matches(code, st, after, target - st.pc, full,
                      if st.backEdges == cap then Failed(LoopExceeded) else Next(env, st.backEdges + 1), cap)
  {
    hide Run, Agree, Dense;
    RunJump(code, st, target, cap);
    after := State(target, 0, st.stack, st.locals, if target <= st.pc then st.backEdges + 1 else st.backEdges);
  }

  lemma {:induction false} IfCorrect(code: seq<i32>, n: Node, slots: Slots, full: Slots, env: Env, st: State, cap: nat)
    returns (after: State)
    requires n.kind.IfStmt? && st.pc >= 0 && Dense(slots) && GenIf(n, st.pc, slots).Some?
    requires CodeAt(code, st.pc, GenIf(n, st.pc, slots).value.code)
    requires Extends(GenIf(n, st.pc, slots).value.slots, full)
    requires Ready(full, env, st, NeedStmt(n), cap)
    ensures Matches(code, st, after, |GenIf(n, st.pc, slots).value.code|, full,
                    EvalStmt(n, env, st.backEdges, cap), cap)
    decreases cap - st.backEdges, n, 1
  {
    hide Run, GenStmt, GenSecond, GenExpr, EvalExpr, NeedExpr, GenBlock, EvalBlock, Agree, Dense, Extends, CodeAt, Matches;
    if |n.children| > 2 {
      after := IfElseCorrect(code, n, slots, full, env, st, cap);
      return;
    }
    var c := GenExpr(n.children[0], slots).value;
    var t := GenSecond(n.children, st.pc + |c| + 2, slots).value;
    var end := st.pc + |c| + 2 + |t.code|;
    SecondSlots(n.children, st.pc + |c| + 2, slots);
    ExtendsTrans(slots, t.slots, full);
    Split(code, st.pc, c + [JUMP_IF_FALSE] + [end], t.code);
    assert c + [JUMP_IF_FALSE] + [end] == c + [JUMP_IF_FALSE, end];
    Split(code, st.pc, c, [JUMP_IF_FALSE, end]);
    var mid := ConditionCorrect(code, n.children[0], end, slots, full, env, st, cap);
    after := mid;
    match EvalExpr(n.children[0], env)
    case Trap(k) => TrapMatches(code, st, mid, end - st.pc, full, k, cap);
    case Ok(v) =>
      if v != 0 {
        Arrive(code, st, mid, |c| + 2, full, env, st.backEdges, if |n.children| > 1 then NeedStmt(n.children[1]) else 0, cap);
        after := SecondCorrect(code, n.children, slots, full, env, mid, cap);
        Chain(code, st, mid, after, |c| + 2, |t.code|, full, env, st.backEdges,
              EvalSecond(n.children, env, st.backEdges, cap), cap);
      }
  }

  lemma {:induction false} IfElseCorrect(code: seq<i32>, n: Node, slots: Slots, full: Slots, env: Env, st: State,
        cap: nat)
    returns (after: State)
    requires n.kind.IfStmt? && |n.children| > 2 && st.pc >= 0 && Dense(slots) && GenIf(n, st.pc, slots).Some?
    requires CodeAt(code, st.pc, GenIf(n, st.pc, slots).value.code)
    requires Extends(GenIf(n, st.pc, slots).value.slots, full)
    requires Ready(full, env, st, NeedStmt(n), cap)
    ensures Matches(code, st, after, |GenIf(n, st.pc, slots).value.code|, full,
                    EvalStmt(n, env, st.backEdges, cap), cap)
    decreases cap - st.backEdges, n, 0
  {
    hide Run, GenStmt, GenSecond, GenExpr, EvalExpr, NeedExpr, GenBlock, EvalBlock, Agree, Dense, Extends, CodeAt, Matches;
    var c := GenExpr(n.children[0], slots).value;
    var t := GenSecond(n.children, st.pc + |c| + 2, slots).value;
    var elseBase := st.pc + |c| + 2 + |t.code| + 2;
    var e := GenStmt(n.children[2], elseBase, t.slots).value;
    var end := elseBase + |e.code|;
    SecondSlots(n.children, st.pc + |c| + 2, slots);
    StmtSlots(n.children[2], elseBase, t.slots);
    ExtendsTrans(t.slots, e.slots, full);
    ExtendsTrans(slots, t.slots, full);
    Split(code, st.pc, c + [JUMP_IF_FALSE] + [elseBase] + t.code + [JUMP, end], e.code);
    Split(code, st.pc, c + [JUMP_IF_FALSE] + [elseBase] + t.code, [JUMP, end]);
    Split(code, st.pc, c + [JUMP_IF_FALSE] + [elseBase], t.code);
    assert c + [JUMP_IF_FALSE] + [elseBase] == c + [JUMP_IF_FALSE, elseBase];
    Split(code, st.pc, c, [JUMP_IF_FALSE, elseBase]);
    var mid := ConditionCorrect(code, n.children[0], elseBase, slots, full, env, st, cap);
    after := mid;
    match EvalExpr(n.children[0], env)
    case Trap(k) => TrapMatches(code, st, mid, end - st.pc, full, k, cap);
    case Ok(v) =>
      if v == 0 {
        Arrive(code, st, mid, elseBase - st.pc, full, env, st.backEdges, NeedStmt(n.children[2]), cap);
        after := StmtCorrect(code, n.children[2], t.slots, full, env, mid, cap);
        Chain(code, st, mid, after, elseBase - st.pc, |e.code|, full, env, st.backEdges,
              EvalStmt(n.children[2], env, st.backEdges, cap), cap);
      } else {
        var r := EvalSecond(n.children, env, st.backEdges, cap);
        Arrive(code, st, mid, |c| + 2, full, env, st.backEdges, NeedStmt(n.children[1]), cap);
        var done := SecondCorrect(code, n.children, slots, full, env, mid, cap);
        Chain(code, st, mid, done, |c| + 2, |t.code|, full, env, st.backEdges, r, cap);
        if r.Next? {
          Arrive(code, st, done, |c| + 2 + |t.code|, full, r.env, r.spent, 0, cap);
          after := JumpCorrect(code, end, full, r.env, done, cap);
          Chain(code, st, done, after, |c| + 2 + |t.code|, 2 + |e.code|, full, r.env, r.spent, r, cap);
        } else {
          after := done;
          StopsEarly(code, st, done, |c| + 2 + |t.code|, end - st.pc, full, r, cap);
        }
      }
  }

  lemma TrapMatches(code: seq<i32>, st: State, after: State, width: int, full: Slots, k: TrapKind, cap: nat)
    requires st.backEdges <= cap && Run(code, st, cap) == Outcome.Trapped(k)
    ensures Matches(code, st, after, width, full, Failed(k), cap)
  {
  }

  lemma {:induction false} WhileCorrect(code: seq<i32>, n: Node, slots: Slots, full: Slots, env: Env, st: State,
        cap: nat)
    returns (after: State)
    requires n.kind.WhileStmt? && st.pc >= 0 && Dense(slots) && GenWhile(n, st.pc, slots).Some?
    requires CodeAt(code, st.pc, GenWhile(n, st.pc, slots).value.code)
    requires Extends(GenWhile(n, st.pc, slots).value.slots, full)
    requires Ready(full, env, st, NeedStmt(n), cap)
    ensures Matches(code, st, after, |GenWhile(n, st.pc, slots).value.code|, full,
                    EvalStmt(n, env, st.backEdges, cap), cap)
    decreases cap - st.backEdges, n, 0
  {
    hide Run, GenStmt, GenSecond, GenExpr, EvalExpr, NeedExpr, GenBlock, EvalBlock, Agree, Dense, Extends, CodeAt, Matches;
    var c := GenExpr(n.children[0], slots).value;
    var b := GenSecond(n.children, st.pc + |c| + 2, slots).value;
    var width := |c| + 2 + |b.code| + 2;
    SecondSlots(n.children, st.pc + |c| + 2, slots);
    ExtendsTrans(slots, b.slots, full);
    Split(code, st.pc, c + [JUMP_IF_FALSE] + [st.pc + width], b.code + [JUMP, st.pc]);
    Split(code, st.pc + |c| + 2, b.code, [JUMP, st.pc]);
    assert c + [JUMP_IF_FALSE] + [st.pc + width] == c + [JUMP_IF_FALSE, st.pc + width];
    Split(code, st.pc, c, [JUMP_IF_FALSE, st.pc + width]);
    var mid := ConditionCorrect(code, n.children[0], st.pc + width, slots, full, env, st, cap);
    after := mid;
    match EvalExpr(n.children[0], env)
    case Trap(k) => TrapMatches(code, st, mid, width, full, k, cap);
    case Ok(v) =>
      if v != 0 {
        var r := EvalSecond(n.children, env, st.backEdges, cap);
        Arrive(code, st, mid, |c| + 2, full, env, st.backEdges, if |n.children| > 1 then NeedStmt(n.children[1]) else 0, cap);
        var done := SecondCorrect(code, n.children, slots, full, env, mid, cap);
        Chain(code, st, mid, done, |c| + 2, |b.code|, full, env, st.backEdges, r, cap);
        after := done;
        if r.Next? {
          after := LoopBack(code, n, slots, full, r, st, done, width, cap);
        } else {
          StopsEarly(code, st, done, |c| + 2 + |b.code|, width, full, r, cap);
        }
      }
  }

  /** After the body: spend a back-edge, or trap, and go round again. */
  lemma {:induction false} LoopBack(code: seq<i32>, n: Node, slots: Slots, full: Slots, r: Exec, st: State, done: State,
                                    width: int, cap: nat)
    returns (after: State)
    requires n.kind.WhileStmt? && n.children != [] && st.pc >= 0 && Dense(slots) && GenWhile(n, st.pc, slots).Some?
    requires CodeAt(code, st.pc, GenWhile(n, st.pc, slots).value.code)
    requires Extends(GenWhile(n, st.pc, slots).value.slots, full)
    requires width == |GenWhile(n, st.pc, slots).value.code| && CodeAt(code, st.pc + width - 2, [JUMP, st.pc])
    requires width >= 2 && NeedStmt(n) <= |st.stack|
    requires r.Next? && st.backEdges <= r.spent <= cap
    requires Matches(code, st, done, width - 2, full, r, cap)
    ensures Matches(code, st, after, width, full,
                    if r.spent == cap then Failed(LoopExceeded) else EvalStmt(n, r.env, r.spent + 1, cap), cap)
    decreases cap - st.backEdges, n, 0, 0
  {
    hide Run, GenStmt, GenWhile, EvalStmt, NeedStmt, Agree, Dense, Extends, CodeAt, Matches;
    Arrive(code, st, done, width - 2, full, r.env, r.spent, 0, cap);
    var again := JumpCorrect(code, st.pc, full, r.env, done, cap);
    var jumped := if r.spent == cap then Failed(LoopExceeded) else Next(r.env, r.spent + 1);
    Chain(code, st, done, again, width - 2, 2 - width, full, r.env, r.spent, jumped, cap);
    if r.spent == cap {
      after := again;
      StopsEarly(code, st, again, 0, width, full, jumped, cap);
    } else {
      Arrive(code, st, again, 0, full, r.env, r.spent + 1, NeedStmt(n), cap);
      after := WhileCorrect(code, n, slots, full, r.env, again, cap);
      Chain(code, st, again, after, 0, width, full, r.env, r.spent + 1, EvalStmt(n, r.env, r.spent + 1, cap), cap);
    }
  }
}
