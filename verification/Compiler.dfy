/** From a flow's syntax tree to flat bytecode with backpatched jumps. */
module Compiler {
  import opened Ast
  import opened I32
  import opened Vm
  import opened Source

  type Slots = map<string, nat>

  /** Slots are handed out densely, one per name, in order of first use. */
  ghost predicate Dense(slots: Slots) {
    && (forall x :: x in slots ==> slots[x] < |slots|)
    && (forall x, y :: x in slots && y in slots && slots[x] == slots[y] ==> x == y)
  }

  function SlotFor(slots: Slots, name: string): Slots {
    if name in slots then slots else slots[name := |slots|]
  }

  /** Opcode of a binary operator. */
  function BinaryOpcode(op: string): Option<int> {
    if op == "+" then Some(ADD)
    else if op == "-" then Some(SUB)
    else if op == "*" then Some(MUL)
    else if op == "/" then Some(DIV)
    else if op == "%" then Some(MOD)
    else if op == "<" then Some(LT)
    else if op == "<=" then Some(LE)
    else if op == ">" then Some(GT)
    else if op == ">=" then Some(GE)
    else if op == "==" then Some(EQ)
    else if op == "!=" then Some(NE)
    else if op == "&&" || op == "and" then Some(AND)
    else if op == "||" || op == "or" then Some(OR)
    else None
  }

  function UnaryOpcode(op: string): Option<int> {
    if op == "-" then Some(NEG) else if op == "!" then Some(NOT) else None
  }

  /** The code emitted for an expression, given the slots known so far; `None` where the compiler
      declines the flow. */
  function GenExpr(e: Node, slots: Slots): Option<seq<int>>
    decreases e
  {
    match e.kind
    case NumberLiteral =>
      (match LiteralValue(e.value) case Some(n) => Some([LOAD_CONST, n]) case None => None)
    case BoolLiteral => Some([LOAD_CONST, if e.value == "true" then 1 else 0])
    case Identifier =>
      if e.value == "true" then Some([LOAD_CONST, 1])
      else if e.value == "false" then Some([LOAD_CONST, 0])
      else if e.value in slots then Some([LOAD_LOCAL, slots[e.value]])
      else None
    case BinaryExpr =>
      if BinaryOpcode(e.value).None? || |e.children| < 2 then None
      else
        var l, r := GenExpr(e.children[0], slots), GenExpr(e.children[1], slots);
        if l.None? || r.None? then None
        else Some(l.value + r.value + [BinaryOpcode(e.value).value])
    case UnaryExpr =>
      if |e.children| < 1 || UnaryOpcode(e.value).None? then None
      else
        var a := GenExpr(e.children[0], slots);
        if a.None? then None else Some(a.value + [UnaryOpcode(e.value).value])
    case _ => None
  }

  function GenFirst(children: seq<Node>, slots: Slots): Option<seq<int>>
    decreases children
  {
    if children == [] then Some([LOAD_CONST, 0]) else GenExpr(children[0], slots)
  }

  datatype Fragment = Fragment(code: seq<int>, slots: Slots)

  /** `x := <operand>`: the operand is compiled before the name is given a slot. */
  function GenStore(children: seq<Node>, name: string, slots: Slots): Option<Fragment> {
    match GenFirst(children, slots)
    case None => None
    case Some(c) => Some(Fragment(c + [STORE_LOCAL, SlotFor(slots, name)[name]], SlotFor(slots, name)))
  }

  /** The code of a statement placed at address `base`, and the slots known after it. */
  function GenStmt(n: Node, base: nat, slots: Slots): Option<Fragment>
    decreases n
  {
    match n.kind
    case LetDecl | MutDecl => GenStore(n.children, BindingName(n.value), slots)
    case AssignStmt => GenStore(n.children, Trim(n.value), slots)
    case ReturnStmt =>
      (match GenFirst(n.children, slots)
       case None => None
       case Some(c) => Some(Fragment(c + [RETURN], slots)))
    case IfStmt => GenIf(n, base, slots)
    case WhileStmt => GenWhile(n, base, slots)
    case Block => GenBlock(n.children, base, slots)
    case _ => None
  }

  /** cond; JUMP_IF_FALSE else; then; JUMP end; else: ...; end: */
  function GenIf(n: Node, base: nat, slots: Slots): Option<Fragment>
    decreases n, 0
  {
    if n.children == [] || GenExpr(n.children[0], slots).None? then None
    else
      var c := GenExpr(n.children[0], slots).value;
      match GenSecond(n.children, base + |c| + 2, slots)
      case None => None
      case Some(t) =>
        var elseBase := base + |c| + 2 + |t.code|;
        if |n.children| <= 2 then Some(Fragment(c + [JUMP_IF_FALSE] + [elseBase] + t.code, t.slots))
        else
          match GenStmt(n.children[2], elseBase + 2, t.slots)
          case None => None
          case Some(e) =>
            Some(Fragment(c + [JUMP_IF_FALSE] + [elseBase + 2] + t.code
                            + [JUMP, elseBase + 2 + |e.code|] + e.code, e.slots))
  }

  /** start: cond; JUMP_IF_FALSE end; body; JUMP start; end: */
  function GenWhile(n: Node, base: nat, slots: Slots): Option<Fragment>
    decreases n, 0
  {
    if n.children == [] || GenExpr(n.children[0], slots).None? then None
    else
      var c := GenExpr(n.children[0], slots).value;
      match GenSecond(n.children, base + |c| + 2, slots)
      case None => None
      case Some(b) =>
        Some(Fragment(c + [JUMP_IF_FALSE] + [base + |c| + 2 + |b.code| + 2] + (b.code + [JUMP, base]), b.slots))
  }

  /** The then-branch or loop body: the second child, or nothing when it is absent. */
  function GenSecond(children: seq<Node>, base: nat, slots: Slots): Option<Fragment>
    decreases children, 0
  {
    if |children| > 1 then GenStmt(children[1], base, slots) else Some(Fragment([], slots))
  }

  function GenBlock(ss: seq<Node>, base: nat, slots: Slots): Option<Fragment>
    decreases ss
  {
    if ss == [] then Some(Fragment([], slots))
    else
      match GenStmt(ss[0], base, slots)
      case None => None
      case Some(f) =>
        match GenBlock(ss[1..], base + |f.code|, f.slots)
        case None => None
        case Some(rest) => Some(Fragment(f.code + rest.code, rest.slots))
  }

  /** Declared parameter type: the text between the first and second colon, `Int` when absent. */
  function ParamType(value: string): string {
    var i := IndexOf(value, ':');
    if i == |value| then "Int"
    else var rest := value[i + 1..]; Trim(rest[..IndexOf(rest, ':')])
  }

  predicate IntegerParams(children: seq<Node>) {
    forall i :: 0 <= i < |children| && children[i].kind.ParamDecl? ==>
      ParamType(children[i].value) in {"Int", "Int8", "Int16", "Int32", "Bool", "Byte"}
  }

  function SlotsFor(names: seq<string>): Slots {
    if names == [] then map[] else SlotFor(SlotsFor(names[..|names| - 1]), names[|names| - 1])
  }

  function Truncate(cells: seq<int>): (r: seq<i32>)
    ensures |r| == |cells|
  {
    seq(|cells|, i requires 0 <= i < |cells| => ToInt32(cells[i]))
  }

  /** The emitted cells of a whole flow, and its slots. `declares64` answers whether the flow
      declares a scalar the 32-bit tier cannot hold. */
  function GenFlow(flow: Node, declares64: bool): Option<Fragment> {
    if declares64 || !IntegerParams(flow.children) || Body(flow.children).None? then None
    else
      match GenBlock(Body(flow.children).value.children, 0, SlotsFor(ParamNames(flow.children)))
      case None => None
      case Some(f) => Some(Fragment(f.code + [LOAD_CONST, 0, RETURN], f.slots))
  }

  function CompileFlow(flow: Node, flowName: string, declares64: bool): Option<BytecodeProgram> {
    match GenFlow(flow, declares64)
    case None => None
    case Some(f) => Some(BytecodeProgram(Truncate(f.code), |f.slots|, ParamNames(flow.children), flowName))
  }

  /** The compiler object: emitted cells grow in place and jump targets are patched once known. A
      method answers false where the source throws `BytecodeUnsupported`. */
  class BytecodeCompiler {
    var code: seq<int>
    var slots: Slots
    var nextSlot: nat
    const flowName: string

    ghost predicate Valid()
      reads this
    {
      nextSlot == |slots|
    }

    constructor (name: string)
      ensures Valid() && code == [] && slots == map[] && flowName == name
    {
      code, slots, nextSlot, flowName := [], map[], 0, name;
    }

    method SlotOf(name: string) returns (s: nat)
      requires Valid()
      modifies this`slots, this`nextSlot
      ensures Valid()
      ensures slots == SlotFor(old(slots), name) && s == slots[name]
    {
      if name !in slots {
        slots := slots[name := nextSlot];
        nextSlot := nextSlot + 1;
      }
      s := slots[name];
    }

    method Compile(flow: Node, declares64: bool) returns (r: Option<BytecodeProgram>)
      requires Valid() && code == [] && slots == map[]
      modifies this
      ensures r == CompileFlow(flow, flowName, declares64)
    {
      if declares64 {
        return None;
      }
      var names: seq<string> := [];
      for i := 0 to |flow.children|
        invariant Valid() && code == []
        invariant IntegerParams(flow.children[..i])
        invariant names == ParamNames(flow.children[..i]) && slots == SlotsFor(names)
      {
        var p := flow.children[i];
        PrefixStep(flow.children, i);
        if p.kind.ParamDecl? {
          if ParamType(p.value) !in {"Int", "Int8", "Int16", "Int32", "Bool", "Byte"} {
            return None;
          }
          var _ := SlotOf(BindingName(p.value));
          names := names + [BindingName(p.value)];
        }
      }
      assert flow.children[..|flow.children|] == flow.children;
      var body := Body(flow.children);
      if body.None? {
        return None;
      }
      var ok := CompileBlock(body.value.children);
      if !ok {
        return None;
      }
      ghost var f := GenBlock(body.value.children, 0, SlotsFor(names)).value;
      assert code == f.code && slots == f.slots;
      code := code + [LOAD_CONST, 0, RETURN];
      assert GenFlow(flow, declares64) == Some(Fragment(code, slots));
      return Some(BytecodeProgram(Truncate(code), nextSlot, names, flowName));
    }

    method CompileBlock(ss: seq<Node>) returns (ok: bool)
      requires Valid()
      modifies this
      ensures Valid()
      ensures ok == GenBlock(ss, |old(code)|, old(slots)).Some?
      ensures ok ==> var f := GenBlock(ss, |old(code)|, old(slots)).value;
                     code == old(code) + f.code && slots == f.slots
      decreases ss
    {
      for i := 0 to |ss|
        invariant Valid() && old(code) <= code
        invariant Emitted(ss, i, old(code), old(slots), code, slots)
      {
        ghost var before, known := code, slots;
        var ok1 := CompileStmt(ss[i]);
        EmitOne(ss, i, old(code), old(slots), before, known);
        if !ok1 {
          return false;
        }
      }
      return true;
    }

    method CompileStmt(n: Node) returns (ok: bool)
      requires Valid()
      modifies this
      ensures Valid()
      ensures ok == GenStmt(n, |old(code)|, old(slots)).Some?
      ensures ok ==> var f := GenStmt(n, |old(code)|, old(slots)).value;
                     code == old(code) + f.code && slots == f.slots
      decreases n, 1
    {
      match n.kind {
        case LetDecl | MutDecl => ok := CompileStore(n.children, BindingName(n.value));
        case AssignStmt => ok := CompileStore(n.children, Trim(n.value));
        case ReturnStmt =>
          ok := CompileFirst(n.children);
          code := code + [RETURN];
        case IfStmt => ok := CompileIf(n);
        case WhileStmt => ok := CompileWhile(n);
        case Block => ok := CompileBlock(n.children);
        case _ => ok := false;
      }
    }

    method CompileStore(children: seq<Node>, name: string) returns (ok: bool)
      requires Valid()
      modifies this
      ensures Valid()
      ensures ok == GenStore(children, name, old(slots)).Some?
      ensures ok ==> var f := GenStore(children, name, old(slots)).value;
                     code == old(code) + f.code && slots == f.slots
    {
      ok := CompileFirst(children);
      var s := SlotOf(name);
      code := code + [STORE_LOCAL, s];
    }

    method CompileFirst(children: seq<Node>) returns (ok: bool)
      modifies this`code
      ensures ok == GenFirst(children, slots).Some?
      ensures ok ==> code == old(code) + GenFirst(children, slots).value
    {
      if children != [] {
        ok := CompileExpr(children[0]);
      } else {
        code := code + [LOAD_CONST, 0];
        ok := true;
      }
    }

    method CompileIf(n: Node) returns (ok: bool)
      requires Valid()
      modifies this
      ensures Valid()
      ensures ok == GenIf(n, |old(code)|, old(slots)).Some?
      ensures ok ==> var f := GenIf(n, |old(code)|, old(slots)).value;
                     code == old(code) + f.code && slots == f.slots
      decreases n, 0
    {
      hide GenStmt, GenExpr, GenSecond;
      if n.children == [] {
        return false;
      }
      ok := CompileExpr(n.children[0]);
      if !ok {
        return false;
      }
      ghost var head := code + [JUMP_IF_FALSE];
      code := code + [JUMP_IF_FALSE];
      var elseJumpAddr := |code|;
      code := code + [0];
      ok := CompileSecond(n.children);
      if !ok {
        return false;
      }
      hide GenFirst;
      ghost var c := GenExpr(n.children[0], old(slots)).value;
      ghost var t := GenSecond(n.children, |head| + 1, old(slots)).value;
      ghost var elseBase := |code|;
      Patch(head, t.code, elseBase + 2);
      Patch(head, t.code, elseBase);
      Grouped(old(code), c, JUMP_IF_FALSE, elseBase, t.code);
      Grouped(old(code), c, JUMP_IF_FALSE, elseBase + 2, t.code);
      if |n.children| > 2 {
        ok := CompileElse(n.children[2], elseJumpAddr);
        if ok {
          ghost var e := GenStmt(n.children[2], elseBase + 2, t.slots).value;
          GroupedElse(old(code), c + [JUMP_IF_FALSE] + [elseBase + 2] + t.code, [JUMP, elseBase + 2 + |e.code|], e.code);
        }
      } else {
        code := code[elseJumpAddr := |code|];
      }
    }

    /** Close the then-branch with a jump, point the condition's jump here, compile the branch. */
    method CompileElse(n: Node, elseJumpAddr: nat) returns (ok: bool)
      requires Valid() && elseJumpAddr < |code|
      modifies this
      ensures Valid()
      ensures ok == GenStmt(n, |old(code)| + 2, old(slots)).Some?
      ensures ok ==> var e := GenStmt(n, |old(code)| + 2, old(slots)).value;
                     && code == old(code)[elseJumpAddr := |old(code)| + 2]
                                + [JUMP, |old(code)| + 2 + |e.code|] + e.code
                     && slots == e.slots
      decreases n, 2
    {
      hide GenStmt;
      code := code + [JUMP];
      var endJumpAddr := |code|;
      code := code + [0];
      code := code[elseJumpAddr := |code|];
      ghost var head := old(code)[elseJumpAddr := |old(code)| + 2] + [JUMP];
      assert code == head + [0];
      ok := CompileStmt(n);
      if ok {
        ghost var e := GenStmt(n, |head| + 1, old(slots)).value;
        Patch(head, e.code, |code|);
        code := code[endJumpAddr := |code|];
      }
    }

    method CompileWhile(n: Node) returns (ok: bool)
      requires Valid()
      modifies this
      ensures Valid()
      ensures ok == GenWhile(n, |old(code)|, old(slots)).Some?
      ensures ok ==> var f := GenWhile(n, |old(code)|, old(slots)).value;
                     code == old(code) + f.code && slots == f.slots
      decreases n, 0
    {
      hide GenStmt, GenExpr, GenSecond;
      if n.children == [] {
        return false;
      }
      var loopStart := |code|;
      ok := CompileExpr(n.children[0]);
      if !ok {
        return false;
      }
      ghost var head := code + [JUMP_IF_FALSE];
      code := code + [JUMP_IF_FALSE];
      var endJumpAddr := |code|;
      code := code + [0];
      ok := CompileSecond(n.children);
      if !ok {
        return false;
      }
      ghost var b := GenSecond(n.children, |head| + 1, old(slots)).value;
      code := code + [JUMP, loopStart];
      assert code == head + [0] + (b.code + [JUMP, loopStart]);
      Patch(head, b.code + [JUMP, loopStart], |code|);
      code := code[endJumpAddr := |code|];
    }

    method CompileSecond(children: seq<Node>) returns (ok: bool)
      requires Valid()
      modifies this
      ensures Valid()
      ensures ok == GenSecond(children, |old(code)|, old(slots)).Some?
      ensures ok ==> var f := GenSecond(children, |old(code)|, old(slots)).value;
                     code == old(code) + f.code && slots == f.slots
      decreases children, 0
    {
      ok := true;
      if |children| > 1 {
        ok := CompileStmt(children[1]);
      }
    }

    method CompileExpr(e: Node) returns (ok: bool)
      modifies this`code
      ensures ok == GenExpr(e, slots).Some?
      ensures ok ==> code == old(code) + GenExpr(e, slots).value
      decreases e
    {
      match e.kind {
        case NumberLiteral =>
          var n := LiteralValue(e.value);
          if n.None? {
            return false;
          }
          code := code + [LOAD_CONST, n.value];
        case BoolLiteral =>
          code := code + [LOAD_CONST, if e.value == "true" then 1 else 0];
        case Identifier =>
          if e.value == "true" {
            code := code + [LOAD_CONST, 1];
          } else if e.value == "false" {
            code := code + [LOAD_CONST, 0];
          } else if e.value in slots {
            code := code + [LOAD_LOCAL, slots[e.value]];
          } else {
            return false;
          }
        case BinaryExpr =>
          var op := BinaryOpcode(e.value);
          if op.None? || |e.children| < 2 {
            return false;
          }
          ok := CompileExpr(e.children[0]);
          if !ok {
            return false;
          }
          ok := CompileExpr(e.children[1]);
          if !ok {
            return false;
          }
          code := code + [op.value];
        case UnaryExpr =>
          if |e.children| < 1 {
            return false;
          }
          ok := CompileExpr(e.children[0]);
          if !ok {
            return false;
          }
          var op := UnaryOpcode(e.value);
          if op.None? {
            return false;
          }
          code := code + [op.value];
        case _ => return false;
      }
      return true;
    }
  }

  lemma Grouped(before: seq<int>, c: seq<int>, op: int, target: int, t: seq<int>)
    ensures before + c + [op] + [target] + t == before + (c + [op] + [target] + t)
  {
  }

  lemma GroupedElse(before: seq<int>, c: seq<int>, jump: seq<int>, e: seq<int>)
    ensures before + c + jump + e == before + (c + jump + e)
  {
  }

  lemma Patch(head: seq<int>, tail: seq<int>, target: int)
    ensures (head + [0] + tail)[|head| := target] == head + [target] + tail
  {
  }

  lemma PrefixStep(children: seq<Node>, i: nat)
    requires i < |children|
    ensures children[..i + 1] == children[..i] + [children[i]]
    ensures ParamNames(children[..i + 1])
         == ParamNames(children[..i]) + if children[i].kind.ParamDecl? then [BindingName(children[i].value)] else []
  {
    ParamNamesAppend(children[..i], children[i]);
  }

  lemma {:induction false} ParamNamesAppend(children: seq<Node>, n: Node)
    ensures ParamNames(children + [n])
         == ParamNames(children) + if n.kind.ParamDecl? then [BindingName(n.value)] else []
  {
    if children != [] {
      assert (children + [n])[1..] == children[1..] + [n];
      ParamNamesAppend(children[1..], n);
    }
  }

  /** Invariant of the block loop: compiling what is left from here finishes the whole block. */
  ghost predicate Emitted(ss: seq<Node>, i: nat, code0: seq<int>, slots0: Slots, code: seq<int>, slots: Slots)
    requires i <= |ss| && code0 <= code
  {
    var whole, rest := GenBlock(ss, |code0|, slots0), GenBlock(ss[i..], |code|, slots);
    && whole.Some? == rest.Some?
    && (whole.Some? ==> whole.value.code == code[|code0|..] + rest.value.code && whole.value.slots == rest.value.slots)
  }

  lemma EmitOne(ss: seq<Node>, i: nat, code0: seq<int>, slots0: Slots, code: seq<int>, slots: Slots)
    requires i < |ss| && code0 <= code
    requires Emitted(ss, i, code0, slots0, code, slots)
    ensures GenStmt(ss[i], |code|, slots).None? ==> GenBlock(ss, |code0|, slots0).None?
    ensures GenStmt(ss[i], |code|, slots).Some? ==>
              var f := GenStmt(ss[i], |code|, slots).value;
              Emitted(ss, i + 1, code0, slots0, code + f.code, f.slots)
  {
    hide GenStmt;
    assert ss[i..][0] == ss[i] && ss[i..][1..] == ss[i + 1..];
    var f := GenStmt(ss[i], |code|, slots);
    if f.Some? && GenBlock(ss[i + 1..], |code| + |f.value.code|, f.value.slots).Some? {
      Emission(code0, code, f.value.code, GenBlock(ss[i + 1..], |code| + |f.value.code|, f.value.slots).value.code);
    }
  }

  lemma Emission(code0: seq<int>, code: seq<int>, more: seq<int>, rest: seq<int>)
    requires code0 <= code
    ensures code[|code0|..] + (more + rest) == (code + more)[|code0|..] + rest
  {
  }
}
