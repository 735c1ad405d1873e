/** What a pure integer flow means, read off its syntax tree without reference to the bytecode. */
module Source {
  // One variable scope for the whole flow, unset variables 0, both operands of `and`/`or` always
  // evaluated, and one budget of loop iterations for the whole run.

  import opened Ast
  import opened I32

  type Env = map<string, i32>

  function Lookup(env: Env, x: string): i32 { if x in env then env[x] else 0 }

  function Truth(b: bool): i32 { if b then 1 else 0 }

  /** The operators on the fragment's integers; `None` for an operator outside it. */
  function ApplyBinary(op: string, a: i32, b: i32): Option<I32Result> {
    if op == "+" then Some(AddChecked(a, b))
    else if op == "-" then Some(SubChecked(a, b))
    else if op == "*" then Some(MulChecked(a, b))
    else if op == "/" then Some(DivChecked(a, b))
    else if op == "%" then Some(ModChecked(a, b))
    else if op == "<" then Some(Ok(Truth(a < b)))
    else if op == "<=" then Some(Ok(Truth(a <= b)))
    else if op == ">" then Some(Ok(Truth(a > b)))
    else if op == ">=" then Some(Ok(Truth(a >= b)))
    else if op == "==" then Some(Ok(Truth(a == b)))
    else if op == "!=" then Some(Ok(Truth(a != b)))
    else if op == "&&" || op == "and" then Some(Ok(if a < b then a else b))
    else if op == "||" || op == "or" then Some(Ok(if a < b then b else a))
    else None
  }

  function ApplyUnary(op: string, a: i32): Option<I32Result> {
    if op == "-" then Some(NegChecked(a))
    else if op == "!" then Some(Ok(Truth(a == 0)))
    else None
  }

  /** Decimal digits of `s` up to the first other character, as `parseInt` reads them. */
  function DigitsValue(s: string, acc: nat): nat {
    if s == [] || !('0' <= s[0] <= '9') then acc
    else DigitsValue(s[1..], acc * 10 + (s[0] as int - '0' as int))
  }

  function StripUnderscores(s: string): string {
    if s == [] then []
    else if s[0] == '_' then StripUnderscores(s[1..])
    else [s[0]] + StripUnderscores(s[1..])
  }

  /** Value of a number literal: `None` for a float, a non-number, or one outside 32 bits. */
  function LiteralValue(text: string): Option<i32> {
    var raw := StripUnderscores(text);
    if '.' in raw then None
    else
      var s := TrimLeft(raw);
      var negative := s != [] && s[0] == '-';
      var digits := if s != [] && s[0] in {'-', '+'} then s[1..] else s;
      if digits == [] || !('0' <= digits[0] <= '9') then None
      else
        var magnitude: int := DigitsValue(digits, 0);
        var n := if negative then -magnitude else magnitude;
        if I32_MIN <= n <= I32_MAX then Some(n) else None
  }

  /** Value of an expression. A node outside the compilable fragment evaluates to 0; no flow that the
      compiler accepts has one (`Fragment.CompiledIff`). */
  function EvalExpr(e: Node, env: Env): I32Result
    decreases e
  {
    match e.kind
    case NumberLiteral => (match LiteralValue(e.value) case Some(n) => Ok(n) case None => Ok(0))
    case BoolLiteral => Ok(Truth(e.value == "true"))
    case Identifier =>
      if e.value == "true" then Ok(1) else if e.value == "false" then Ok(0) else Ok(Lookup(env, e.value))
    case BinaryExpr =>
      if |e.children| < 2 then Ok(0)
      else
        var l := EvalExpr(e.children[0], env);
        if l.Trap? then l
        else
          var r := EvalExpr(e.children[1], env);
          if r.Trap? then r
          else (match ApplyBinary(e.value, l.value, r.value) case Some(v) => v case None => Ok(0))
    case UnaryExpr =>
      if |e.children| < 1 then Ok(0)
      else
        var a := EvalExpr(e.children[0], env);
        if a.Trap? then a
        else (match ApplyUnary(e.value, a.value) case Some(v) => v case None => Ok(0))
    case _ => Ok(0)
  }

  /** Value of an optional operand: an absent one is 0. */
  function EvalFirst(children: seq<Node>, env: Env): I32Result
    decreases children
  {
    if children == [] then Ok(0) else EvalExpr(children[0], env)
  }

  /** How a statement ends: normally, by `return`, or by a trap. `spent` counts loop iterations
      completed so far in the whole flow. */
  datatype Exec = Next(env: Env, spent: nat) | Returned(v: i32) | Failed(kind: TrapKind)

  function EvalStmt(n: Node, env: Env, spent: nat, cap: nat): (r: Exec)
    requires spent <= cap
    ensures r.Next? ==> spent <= r.spent <= cap
    decreases cap - spent, n
  {
    match n.kind
    case LetDecl | MutDecl =>
      (match EvalFirst(n.children, env)
       case Ok(v) => Next(env[BindingName(n.value) := v], spent)
       case Trap(k) => Failed(k))
    case AssignStmt =>
      (match EvalFirst(n.children, env)
       case Ok(v) => Next(env[Trim(n.value) := v], spent)
       case Trap(k) => Failed(k))
    case ReturnStmt =>
      (match EvalFirst(n.children, env)
       case Ok(v) => Returned(v)
       case Trap(k) => Failed(k))
    case IfStmt =>
      if n.children == [] then Next(env, spent)
      else
        (match EvalExpr(n.children[0], env)
         case Trap(k) => Failed(k)
         case Ok(c) =>
           if c != 0 then
             if |n.children| > 1 then EvalStmt(n.children[1], env, spent, cap) else Next(env, spent)
           else
             if |n.children| > 2 then EvalStmt(n.children[2], env, spent, cap) else Next(env, spent))
    case WhileStmt =>
      if n.children == [] then Next(env, spent)
      else
        (match EvalExpr(n.children[0], env)
         case Trap(k) => Failed(k)
         case Ok(c) =>
           if c == 0 then Next(env, spent)
           else
             var body := if |n.children| > 1 then EvalStmt(n.children[1], env, spent, cap) else Next(env, spent);
             if !body.Next? then body
             else if body.spent == cap then Failed(LoopExceeded)
             else EvalStmt(n, body.env, body.spent + 1, cap))
    case Block => EvalBlock(n.children, env, spent, cap)
    case _ => Next(env, spent)
  }

  function EvalBlock(ss: seq<Node>, env: Env, spent: nat, cap: nat): (r: Exec)
    requires spent <= cap
    ensures r.Next? ==> spent <= r.spent <= cap
    decreases cap - spent, ss
  {
    if ss == [] then Next(env, spent)
    else
      var r := EvalStmt(ss[0], env, spent, cap);
      if !r.Next? then r else EvalBlock(ss[1..], r.env, r.spent, cap)
  }

  /** Names of a flow's parameters, in order. */
  function ParamNames(children: seq<Node>): seq<string> {
    if children == [] then []
    else if children[0].kind.ParamDecl? then [BindingName(children[0].value)] + ParamNames(children[1..])
    else ParamNames(children[1..])
  }

  /** The flow's body: its first block. */
  function Body(children: seq<Node>): Option<Node> {
    if children == [] then None
    else if children[0].kind.Block? then Some(children[0])
    else Body(children[1..])
  }

  /** Each parameter gets its positional argument; a missing argument is 0. */
  function BindParams(names: seq<string>, args: seq<int>): Env {
    if names == [] then map[]
    else
      BindParams(names[..|names| - 1], args)
        [names[|names| - 1] := if |names| <= |args| then ToInt32(args[|names| - 1]) else 0]
  }

  datatype FlowResult = Answer(v: i32) | Trapped(kind: TrapKind)

  /** How a flow's body ends when it starts in `env`; without `return` it answers 0. */
  function EvalFrom(body: seq<Node>, env: Env, cap: nat): FlowResult {
    match EvalBlock(body, env, 0, cap)
    case Next(_, _) => Answer(0)
    case Returned(v) => Answer(v)
    case Failed(k) => Trapped(k)
  }

  function EvalFlow(flow: Node, args: seq<int>, cap: nat): FlowResult {
    match Body(flow.children)
    case None => Answer(0)
    case Some(body) => EvalFrom(body.children, BindParams(ParamNames(flow.children), args), cap)
  }
}
