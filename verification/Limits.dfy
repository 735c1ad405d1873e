/** What happens at the edges of the correctness theorem: deep expressions and repeated names. */
module Limits {
  import opened Ast
  import opened I32
  import opened Vm
  import opened Source
  import opened Compiler
  import opened CompilerProof
  import opened Layout
  import opened Correctness
  import opened Sequences

  // ----- Expressions deeper than the stack -----

  const ONE := Node(NumberLiteral, "1", [])

  /** 1 + (1 + (... + 1)), with `k` additions: it needs `k + 1` stack cells. */
  function RightSum(k: nat): Node {
    if k == 0 then ONE else Node(BinaryExpr, "+", [ONE, RightSum(k - 1)])
  }

  function SumCode(k: nat): (c: seq<int>)
    ensures |c| == 3 * k + 2
  {
    if k == 0 then [LOAD_CONST, 1] else [LOAD_CONST, 1] + SumCode(k - 1) + [ADD]
  }

  function SumFlow(k: nat): Node {
    Node(PureFlowDecl, "sum", [Node(Block, "", [Node(ReturnStmt, "", [RightSum(k)])])])
  }

  lemma LiteralOne()
    ensures LiteralValue("1") == Some(1)
  {
    assert StripUnderscores("1") == ['1'] + StripUnderscores("1"[1..]);
    assert TrimLeft("1") == "1";
    assert DigitsValue("1", 0) == DigitsValue("1"[1..], 1);
  }

  lemma {:induction false} SumGen(k: nat, slots: Slots)
    ensures GenExpr(RightSum(k), slots) == Some(SumCode(k))
  {
    hide LiteralValue;
    LiteralOne();
    if k > 0 {
      SumGen(k - 1, slots);
      assert RightSum(k).children[1] == RightSum(k - 1);
    }
  }

  lemma {:induction false} SumNeed(k: nat)
    ensures NeedExpr(RightSum(k)) == k + 1
  {
    if k > 0 {
      SumNeed(k - 1);
      assert RightSum(k).children[1] == RightSum(k - 1);
    }
  }

  lemma {:induction false} SumValue(k: nat, env: Env)
    requires k < I32_MAX
    ensures EvalExpr(RightSum(k), env) == Ok(k + 1)
  {
    hide LiteralValue;
    LiteralOne();
    if k > 0 {
      SumValue(k - 1, env);
      assert EvalExpr(ONE, env) == Ok(1);
      assert RightSum(k).children[1] == RightSum(k - 1);
    }
  }

  /** Cell `s` after the sum of `k + 1` ones was evaluated from depth `s`: pushes past the last
      cell are dropped and read back as `undefined`, which adds up to 0. */
  function Wrong(s: nat, k: nat): int {
    if s + k < STACK_SIZE then k + 1 else STACK_SIZE - 1 - s
  }

  lemma {:induction false} SumRun(code: seq<i32>, k: nat, st: State, cap: nat) returns (after: State)
    requires CodeAt(code, st.pc, SumCode(k)) && 0 <= st.sp && |st.stack| == STACK_SIZE && st.backEdges <= cap
    ensures after.pc == st.pc + |SumCode(k)| && after.sp == st.sp + 1 && |after.stack| == STACK_SIZE
    ensures after.locals == st.locals && after.backEdges == st.backEdges
    ensures Run(code, st, cap) == Run(code, after, cap)
    ensures forall i :: 0 <= i < STACK_SIZE && i < st.sp ==> after.stack[i] == st.stack[i]
    ensures st.sp < STACK_SIZE ==> after.stack[st.sp] == Wrong(st.sp, k)
  {
    var one := State(st.pc + 2, st.sp + 1, Put(st.stack, st.sp, Some(1)), st.locals, st.backEdges);
    if k == 0 {
      PushOne(code, st, cap);
      after := one;
    } else {
      hide Run;
      Split(code, st.pc, [LOAD_CONST, 1] + SumCode(k - 1), [ADD]);
      Split(code, st.pc, [LOAD_CONST, 1], SumCode(k - 1));
      PushOne(code, st, cap);
      var top := SumRun(code, k - 1, one, cap);
      after := AddTop(code, top, cap);
    }
  }

  lemma PushOne(code: seq<i32>, st: State, cap: nat)
    requires CodeAt(code, st.pc, [LOAD_CONST, 1]) && 0 <= st.sp && st.backEdges <= cap
    ensures Run(code, st, cap)
         == Run(code, State(st.pc + 2, st.sp + 1, Put(st.stack, st.sp, Some(1)), st.locals, st.backEdges), cap)
  {
    Cell(code, st.pc, [LOAD_CONST, 1], 0);
    Cell(code, st.pc, [LOAD_CONST, 1], 1);
  }

  /** An addition whose operands may lie past the last stack cell. */
  lemma AddTop(code: seq<i32>, st: State, cap: nat) returns (after: State)
    requires CodeAt(code, st.pc, [ADD]) && 2 <= st.sp && |st.stack| == STACK_SIZE && st.backEdges <= cap
    requires st.sp <= STACK_SIZE ==> I32_MIN <= st.stack[st.sp - 2] + st.stack[st.sp - 1] <= I32_MAX
    ensures after.pc == st.pc + 1 && after.sp == st.sp - 1 && |after.stack| == STACK_SIZE
    ensures after.locals == st.locals && after.backEdges == st.backEdges
    ensures Run(code, st, cap) == Run(code, after, cap)
    ensures forall i :: 0 <= i < STACK_SIZE && i < st.sp - 2 ==> after.stack[i] == st.stack[i]
    ensures st.sp <= STACK_SIZE ==> after.stack[st.sp - 2] == st.stack[st.sp - 2] + st.stack[st.sp - 1]
    ensures st.sp == STACK_SIZE + 1 ==> after.stack[st.sp - 2] == 0
  {
    Cell(code, st.pc, [ADD], 0);
    var v := if st.sp <= STACK_SIZE then st.stack[st.sp - 2] + st.stack[st.sp - 1] else 0;
    after := State(st.pc + 1, st.sp - 1, Put(st.stack, st.sp - 2, Some(v)), st.locals, st.backEdges);
  }

  /** The compiler does not check stack depth. On this family the machine answers correctly exactly
      when the static need fits the stack; past it, it answers 255 and does not trap. */
  lemma DeepSumsAnswer255(k: nat, cap: nat)
    requires 3 * k + 10 <= I32_MAX
    ensures CompileFlow(SumFlow(k), "sum", false).Some?
    ensures var p := CompileFlow(SumFlow(k), "sum", false).value;
            && EvalFlow(SumFlow(k), [], cap) == Answer(k + 1)
            && NeedBlock(Body(SumFlow(k).children).value.children) == k + 1
            && RunProgram(p, [], cap) == Value(Some(if k + 1 <= STACK_SIZE then k + 1 else STACK_SIZE - 1))
            && (RunProgram(p, [], cap) == AsOutcome(EvalFlow(SumFlow(k), [], cap)) <==> k + 1 <= STACK_SIZE)
  {
    hide Run, GenExpr, EvalExpr, NeedExpr;
    var flow := SumFlow(k);
    var ret := Node(ReturnStmt, "", [RightSum(k)]);
    var ss := [ret];
    SumGen(k, map[]);
    SumNeed(k);
    SumValue(k, map[]);
    assert ss[1..] == [];
    assert GenStmt(ret, 0, map[]) == Some(Fragment(SumCode(k) + [RETURN], map[]));
    assert GenBlock(ss, 0, map[]) == Some(Fragment(SumCode(k) + [RETURN], map[])) by {
      assert SumCode(k) + [RETURN] + [] == SumCode(k) + [RETURN];
    }
    assert EvalStmt(ret, map[], 0, cap) == Returned(k + 1);
    assert NeedStmt(ret) == k + 1;
    assert flow.children[0].kind.Block? && Body(flow.children) == Some(flow.children[0]);
    assert ParamNames(flow.children) == ParamNames(flow.children[1..]) == [];
    var f := GenFlow(flow, false).value;
    assert f.code == SumCode(k) + [RETURN] + [LOAD_CONST, 0, RETURN];
    TruncateIsExact(flow, false);
    var p := CompileFlow(flow, "sum", false).value;
    var st := InitialState(p.localCount, []);
    Whole(p.code, f.code);
    Split(p.code, 0, SumCode(k) + [RETURN], [LOAD_CONST, 0, RETURN]);
    Split(p.code, 0, SumCode(k), [RETURN]);
    var after := SumRun(p.code, k, st, cap);
    RunReturn(p.code, after, cap);
  }

  // ----- Repeated parameter names -----

  /** Every parameter starts with its own positional argument, whatever the arguments. */
  ghost predicate ArgumentsLand(names: seq<string>) {
    forall args: seq<int> :: |args| <= |names| ==>
      Agree(SlotsFor(names), BindParams(names, args), InitialLocals(|SlotsFor(names)|, args))
  }

  /** A repeated name shares one slot, which shifts the arguments after it: arguments land where
      they belong exactly when the names are distinct. */
  lemma ArgumentsLandIffDistinct(names: seq<string>)
    ensures ArgumentsLand(names) <==> Distinct(names)
  {
    if Distinct(names) {
      SlotsForDense(names);
      forall args: seq<int> | |args| <= |names|
        ensures Agree(SlotsFor(names), BindParams(names, args), InitialLocals(|SlotsFor(names)|, args))
      {
        InitialAgree(names, SlotsFor(names), args);
      }
    } else {
      var i, j :| 0 <= i < j < |names| && names[i] == names[j];
      RepeatedNameMisplaced(names, i, j);
    }
  }

  lemma RepeatedNameMisplaced(names: seq<string>, i: nat, j: nat)
    requires i < j < |names| && names[i] == names[j]
    ensures !ArgumentsLand(names)
  {
    var last := LastIndex(names, names[j], j);
    var args := seq(|names|, t => if t == last then 1 else 0);
    SlotsForDense(names);
    EarlySlot(names, i);
    LastWins(names, args, last);
    assert !Agree(SlotsFor(names), BindParams(names, args), InitialLocals(|SlotsFor(names)|, args));
  }

  lemma {:induction false} LastIndex(names: seq<string>, x: string, j: nat) returns (last: nat)
    requires j < |names| && names[j] == x
    ensures j <= last < |names| && names[last] == x
    ensures forall t :: last < t < |names| ==> names[t] != x
  {
    last := |names| - 1;
    while names[last] != x
      invariant j <= last < |names|
      invariant forall t :: last < t < |names| ==> names[t] != x
      decreases last
    {
      last := last - 1;
    }
  }

  lemma {:induction false} EarlySlot(names: seq<string>, i: nat)
    requires i < |names|
    ensures names[i] in SlotsFor(names) && SlotsFor(names)[names[i]] <= i
  {
    SlotsForDense(names[..|names| - 1]);
    if i < |names| - 1 {
      EarlySlot(names[..|names| - 1], i);
    } else {
      SlotCount(names[..|names| - 1]);
    }
  }

  lemma {:induction false} SlotCount(names: seq<string>)
    ensures |SlotsFor(names)| <= |names|
  {
    if names != [] {
      SlotCount(names[..|names| - 1]);
    }
  }

  lemma {:induction false} LastWins(names: seq<string>, args: seq<int>, last: nat)
    requires last < |names| && |args| >= |names|
    requires forall t :: last < t < |names| ==> names[t] != names[last]
    ensures Lookup(BindParams(names, args), names[last]) == ToInt32(args[last])
  {
    if last < |names| - 1 {
      LastWins(names[..|names| - 1], args, last);
    }
  }

  // ----- More arguments than parameters -----

  function WithBody(params: seq<Node>, ss: seq<Node>): Node {
    Node(PureFlowDecl, "f", params + [Node(Block, "", ss)])
  }

  /** With these parameters and this body the compiler accepts the flow, within the limits of the machine. */
  predicate Runs(params: seq<Node>, ss: seq<Node>) {
    var flow := WithBody(params, ss);
    && CompileFlow(flow, "f", false).Some? && Fits(GenFlow(flow, false).value)
    && Body(flow.children).Some? && NeedBlock(Body(flow.children).value.children) <= STACK_SIZE
  }

  predicate Answers(params: seq<Node>, ss: seq<Node>, args: seq<int>, cap: nat)
    requires Runs(params, ss)
  {
    var flow := WithBody(params, ss);
    RunProgram(CompileFlow(flow, "f", false).value, args, cap) == AsOutcome(EvalFlow(flow, args, cap))
  }

  predicate AllParams(params: seq<Node>) {
    forall i :: 0 <= i < |params| ==> params[i].kind.ParamDecl?
  }

  lemma {:induction false} BodyAfterParams(params: seq<Node>, body: Node)
    requires AllParams(params) && body.kind.Block?
    ensures Body(params + [body]) == Some(body) && ParamNames(params + [body]) == ParamNames(params)
  {
    if params != [] {
      assert (params + [body])[1..] == params[1..] + [body];
      BodyAfterParams(params[1..], body);
    } else {
      assert [] + [body] == [body] && [body][1..] == [];
    }
  }

  /** The name made of `n` letters. */
  function Letters(n: nat): (s: string)
    ensures |s| == n && forall i :: 0 <= i < n ==> s[i] == 'x'
  {
    seq(n, i => 'x')
  }

  lemma LettersStay(n: nat)
    ensures Trim(Letters(n)) == Letters(n)
  {
    assert TrimLeft(Letters(n)) == Letters(n) && TrimRight(Letters(n)) == Letters(n);
  }

  /** A length no name reaches. */
  function Longest(names: seq<string>): (n: nat)
    ensures n > 0 && forall i :: 0 <= i < |names| ==> |names[i]| < n
  {
    if names == [] then 1
    else
      var n, last := Longest(names[..|names| - 1]), |names[|names| - 1]|;
      if last < n then n else last + 1
  }

  /** Names of `from`, `from + 1`, ... letters. */
  function LaterNames(from: nat, m: nat): (r: seq<string>)
    ensures |r| == m && forall i :: 0 <= i < m ==> r[i] == Letters(from + i)
  {
    seq(m, i requires 0 <= i < m => Letters(from + i))
  }

  /** `x := 0` for each of these names, written without the operand. */
  function Assigns(from: nat, m: nat): seq<Node>
    decreases m
  {
    if m == 0 then [] else [Node(AssignStmt, Letters(from), [])] + Assigns(from + 1, m - 1)
  }

  lemma SlotsNext(names: seq<string>, name: string)
    ensures SlotsFor(names + [name]) == SlotFor(SlotsFor(names), name)
  {
    hide SlotFor;
    assert (names + [name])[..|names|] == names;
  }

  lemma {:induction false} AssignsGen(from: nat, m: nat, base: nat, names: seq<string>)
    ensures var g := GenBlock(Assigns(from, m), base, SlotsFor(names));
      g.Some? && |g.value.code| == 4 * m && g.value.slots == SlotsFor(names + LaterNames(from, m))
    decreases m
  {
    hide SlotsFor, GenBlock, GenStmt, LaterNames;
    if m == 0 {
      NoMoreNames(names, from, base);
    } else {
      var first, rest := Node(AssignStmt, Letters(from), []), Assigns(from + 1, m - 1);
      OneAssign(from, base, names);
      AssignsGen(from + 1, m - 1, base + 4, names + [Letters(from)]);
      BlockGen(first, rest, base, SlotsFor(names));
      MoreNames(names, from, m);
    }
  }

  lemma NoMoreNames(names: seq<string>, from: nat, base: nat)
    ensures names + LaterNames(from, 0) == names && GenBlock([], base, SlotsFor(names)) == Some(Fragment([], SlotsFor(names)))
  {
  }

  lemma MoreNames(names: seq<string>, from: nat, m: nat)
    requires m > 0
    ensures names + [Letters(from)] + LaterNames(from + 1, m - 1) == names + LaterNames(from, m)
  {
    hide Letters;
  }

  lemma BlockGen(first: Node, rest: seq<Node>, base: nat, slots: Slots)
    requires GenStmt(first, base, slots).Some?
    requires var f := GenStmt(first, base, slots).value; GenBlock(rest, base + |f.code|, f.slots).Some?
    ensures var f := GenStmt(first, base, slots).value;
      var g := GenBlock(rest, base + |f.code|, f.slots).value;
      GenBlock([first] + rest, base, slots) == Some(Fragment(f.code + g.code, g.slots))
  {
    hide GenStmt;
    assert ([first] + rest)[1..] == rest;
  }

  lemma OneAssign(n: nat, base: nat, names: seq<string>)
    ensures var g := GenStmt(Node(AssignStmt, Letters(n), []), base, SlotsFor(names));
      g.Some? && |g.value.code| == 4 && g.value.slots == SlotsFor(names + [Letters(n)])
  {
    hide SlotsFor, Trim, Letters;
    LettersStay(n);
    SlotsNext(names, Letters(n));
  }

  /** `if false { x1 := 0; ...; xm := 0 }; return xm`: no name is ever assigned, each has its slot. */
  function ReadsUnassigned(from: nat, m: nat): seq<Node>
    requires m > 0
  {
    [Node(IfStmt, "", [Node(BoolLiteral, "false", []), Node(Block, "", Assigns(from, m))]),
     Node(ReturnStmt, "", [Node(Identifier, Letters(from + m - 1), [])])]
  }

  lemma LetterName(n: nat)
    requires n > 0
    ensures Letters(n) != "true" && Letters(n) != "false"
  {
    assert Letters(n)[0] == 'x';
  }

  lemma LettersDiffer(names: seq<string>, m: nat)
    requires Distinct(names)
    ensures Distinct(names + LaterNames(Longest(names), m))
  {
    var all := names + LaterNames(Longest(names), m);
    forall i, j | 0 <= i < j < |all| ensures |all[i]| != |all[j]| || all[i] != all[j] {
      if j >= |names| { assert |all[j]| == Longest(names) + (j - |names|); }
    }
  }

  lemma TwoGen(a: Node, b: Node, base: nat, slots: Slots)
    requires GenStmt(a, base, slots).Some?
    requires GenStmt(b, base + |GenStmt(a, base, slots).value.code|, GenStmt(a, base, slots).value.slots).Some?
    ensures var f := GenStmt(a, base, slots).value;
      var g := GenStmt(b, base + |f.code|, f.slots).value;
      GenBlock([a, b], base, slots) == Some(Fragment(f.code + g.code, g.slots))
  {
    var f := GenStmt(a, base, slots).value;
    var g := GenStmt(b, base + |f.code|, f.slots).value;
    assert GenBlock([], base + |f.code| + |g.code|, g.slots) == Some(Fragment([], g.slots));
    hide GenStmt, GenBlock;
    BlockGen(b, [], base + |f.code|, f.slots);
    assert [b] + [] == [b] && [a] + [b] == [a, b] && g.code + [] == g.code;
    BlockGen(a, [b], base, slots);
  }

  lemma FalseIfGen(n: Node, bs: seq<Node>, slots: Slots)
    requires n == Node(IfStmt, "", [Node(BoolLiteral, "false", []), Node(Block, "", bs)]) && GenBlock(bs, 4, slots).Some?
    ensures var g := GenStmt(n, 0, slots);
      g.Some? && |g.value.code| == 4 + |GenBlock(bs, 4, slots).value.code| && g.value.slots == GenBlock(bs, 4, slots).value.slots
  {
    hide GenBlock;
    var c, t := [LOAD_CONST, 0], GenBlock(bs, 4, slots).value;
    assert GenExpr(n.children[0], slots) == Some(c) by { assert "false"[0] != "true"[0]; }
    assert GenStmt(n.children[1], 4, slots) == Some(t);
    assert GenSecond(n.children, 4, slots) == Some(t);
    assert GenIf(n, 0, slots) == Some(Fragment(c + [JUMP_IF_FALSE] + [4 + |t.code|] + t.code, t.slots));
  }

  lemma SkippedGen(from: nat, m: nat, names: seq<string>)
    requires m > 0
    ensures var g := GenStmt(ReadsUnassigned(from, m)[0], 0, SlotsFor(names));
      g.Some? && |g.value.code| == 4 * m + 4 && g.value.slots == SlotsFor(names + LaterNames(from, m))
  {
    hide SlotsFor, Assigns, Letters, LaterNames, GenBlock, GenStmt;
    AssignsGen(from, m, 4, names);
    FalseIfGen(ReadsUnassigned(from, m)[0], Assigns(from, m), SlotsFor(names));
  }

  lemma ReturnGen(x: string, at: nat, slots: Slots)
    requires x in slots && x != "true" && x != "false"
    ensures var g := GenStmt(Node(ReturnStmt, "", [Node(Identifier, x, [])]), at, slots);
      g.Some? && |g.value.code| == 3 && g.value.slots == slots
  {
  }

  lemma ReadsGen(names: seq<string>, m: nat)
    requires m > 0 && Distinct(names)
    ensures var from := Longest(names);
      var all := names + LaterNames(from, m);
      var g := GenBlock(ReadsUnassigned(from, m), 0, SlotsFor(names));
      && g.Some? && g.value.slots == SlotsFor(all) && |g.value.code| == 4 * m + 7 && |SlotsFor(all)| == |names| + m
      && Letters(from + m - 1) in SlotsFor(all) && SlotsFor(all)[Letters(from + m - 1)] == |names| + m - 1
  {
    hide SlotsFor, Letters, LaterNames, GenStmt, GenBlock;
    var from := Longest(names);
    var all := names + LaterNames(from, m);
    var ss := ReadsUnassigned(from, m);
    SkippedGen(from, m, names);
    LettersDiffer(names, m);
    DistinctSlots(all);
    assert all[|names| + m - 1] == Letters(from + m - 1);
    LetterName(from + m - 1);
    ReturnGen(Letters(from + m - 1), 4 * m + 4, SlotsFor(all));
    TwoGen(ss[0], ss[1], 0, SlotsFor(names));
  }

  lemma TwoNeed(a: Node, b: Node)
    ensures NeedBlock([a, b]) == Max(NeedStmt(a), Max(NeedStmt(b), 0))
  {
    hide NeedStmt;
    assert [a, b][1..] == [b] && [b][1..] == [];
    assert NeedBlock([b]) == Max(NeedStmt(b), 0);
  }

  lemma ReadsNeed(from: nat, m: nat)
    requires m > 0
    ensures NeedBlock(ReadsUnassigned(from, m)) <= STACK_SIZE
  {
    hide NeedBlock, Letters;
    AssignsNeed(from, m);
    var ss := ReadsUnassigned(from, m);
    TwoNeed(ss[0], ss[1]);
    assert NeedStmt(ss[0].children[1]) <= 1;
  }

  lemma {:induction false} AssignsNeed(from: nat, m: nat)
    ensures NeedBlock(Assigns(from, m)) <= 1
    decreases m
  {
    if m > 0 {
      AssignsNeed(from + 1, m - 1);
      assert Assigns(from, m)[1..] == Assigns(from + 1, m - 1);
    }
  }

  lemma ReadsValue(from: nat, m: nat, env: Env, cap: nat)
    requires from + m > 1 && m > 0
    ensures EvalFrom(ReadsUnassigned(from, m), env, cap) == Answer(Lookup(env, Letters(from + m - 1)))
  {
    hide Assigns, Letters, EvalStmt, EvalExpr;
    var ss := ReadsUnassigned(from, m);
    FalseSkips(ss[0], env, cap);
    LetterName(from + m - 1);
    ReadsName(Letters(from + m - 1), env, cap);
    assert ss == [ss[0], ss[1]];
    TwoEval(ss[0], ss[1], env, Lookup(env, Letters(from + m - 1)), cap);
  }

  lemma TwoEval(a: Node, b: Node, env: Env, v: i32, cap: nat)
    requires EvalStmt(a, env, 0, cap) == Next(env, 0) && EvalStmt(b, env, 0, cap) == Returned(v)
    ensures EvalBlock([a, b], env, 0, cap) == Returned(v)
  {
    hide EvalStmt;
    assert [a, b][1..] == [b];
    assert EvalBlock([b], env, 0, cap) == Returned(v);
  }

  lemma FalseSkips(n: Node, env: Env, cap: nat)
    requires n.kind.IfStmt? && |n.children| == 2 && n.children[0] == Node(BoolLiteral, "false", [])
    ensures EvalStmt(n, env, 0, cap) == Next(env, 0)
  {
    assert EvalExpr(n.children[0], env) == Ok(0) by { assert "false"[0] != "true"[0]; }
  }

  lemma ReadsName(x: string, env: Env, cap: nat)
    requires x != "true" && x != "false"
    ensures EvalStmt(Node(ReturnStmt, "", [Node(Identifier, x, [])]), env, 0, cap) == Returned(Lookup(env, x))
  {
  }

  /** The environment that the first locals give. */
  function FirstEnv(slots: Slots, args: seq<int>): Env {
    map x | x in slots :: if slots[x] < |slots| then InitialLocals(|slots|, args)[slots[x]] else 0
  }

  lemma FirstEnvAgrees(names: seq<string>, args: seq<int>)
    ensures Dense(SlotsFor(names)) && Agree(SlotsFor(names), FirstEnv(SlotsFor(names), args), InitialLocals(|SlotsFor(names)|, args))
  {
    hide SlotsFor;
    SlotsForDense(names);
  }

  lemma Reading(params: seq<Node>, m: nat)
    requires m > 0 && AllParams(params) && IntegerParams(params) && Distinct(ParamNames(params))
    requires |ParamNames(params)| + 4 * m + 10 <= I32_MAX
    ensures var names := ParamNames(params);
      var ss := ReadsUnassigned(Longest(names), m);
      Runs(params, ss) && GenFlow(WithBody(params, ss), false).value.slots == SlotsFor(names + LaterNames(Longest(names), m))
  {
    hide GenBlock, SlotsFor, NeedBlock, Longest, ReadsUnassigned, LaterNames, ParamType;
    var names := ParamNames(params);
    var ss := ReadsUnassigned(Longest(names), m);
    BodyAfterParams(params, Node(Block, "", ss));
    ReadsGen(names, m);
    ReadsNeed(Longest(names), m);
    var flow := WithBody(params, ss);
    assert forall i :: 0 <= i < |flow.children| && flow.children[i].kind.ParamDecl? ==> flow.children[i] == params[i];
  }

  /** A surplus argument that is not 0 is read by the body whose unassigned name has its slot. */
  lemma SurplusIsRead(params: seq<Node>, args: seq<int>, cap: nat, i: nat)
    requires AllParams(params) && IntegerParams(params) && Distinct(ParamNames(params))
    requires |ParamNames(params)| <= i < |args| && ToInt32(args[i]) != 0 && 5 * |args| + 10 <= I32_MAX
    ensures var ss := ReadsUnassigned(Longest(ParamNames(params)), i + 1 - |ParamNames(params)|);
      Runs(params, ss) && !Answers(params, ss, args, cap)
  {
    hide GenBlock, SlotsFor, NeedBlock, Longest, ReadsUnassigned, LaterNames, Runs, Run, EvalFrom, BindParams, Letters, Agree, Dense,
      FirstEnv, GenFlow, CompileFlow, RunProgram;
    var names := ParamNames(params);
    var m := i + 1 - |names|;
    var from := Longest(names);
    var ss := ReadsUnassigned(from, m);
    var all := names + LaterNames(from, m);
    Reading(params, m);
    BodyAfterParams(params, Node(Block, "", ss));
    ReadsGen(names, m);
    FirstEnvAgrees(all, args);
    RunsFrom(params, ss, args, FirstEnv(SlotsFor(all), args), cap);
    ReadsValue(from, m, FirstEnv(SlotsFor(all), args), cap);
    ReadsValue(from, m, BindParams(names, args), cap);
    OnlyParams(names, args);
    NotAParam(names, m);
    SurplusValue(all, args, Letters(from + m - 1), i);
  }

  lemma NotAParam(names: seq<string>, m: nat)
    requires m > 0
    ensures Letters(Longest(names) + m - 1) !in names
  {
  }

  lemma SurplusValue(all: seq<string>, args: seq<int>, x: string, i: nat)
    requires x in SlotsFor(all) && SlotsFor(all)[x] == i < |args| && Dense(SlotsFor(all))
    ensures Lookup(FirstEnv(SlotsFor(all), args), x) == ToInt32(args[i])
  {
    hide SlotsFor;
  }

  lemma RunsFrom(params: seq<Node>, ss: seq<Node>, args: seq<int>, env: Env, cap: nat)
    requires Runs(params, ss) && Body(WithBody(params, ss).children) == Some(Node(Block, "", ss))
    requires var slots := GenFlow(WithBody(params, ss), false).value.slots; Agree(slots, env, InitialLocals(|slots|, args))
    ensures RunProgram(CompileFlow(WithBody(params, ss), "f", false).value, args, cap) == AsOutcome(EvalFrom(ss, env, cap))
  {
    hide GenFlow, NeedBlock, Agree, RunProgram, EvalFrom;
    CompiledFrom(WithBody(params, ss), "f", false, args, env, cap);
  }

  /** More arguments than parameters: the machine answers as the source does for every body it accepts exactly when
      every surplus argument is 0 once truncated. */
  lemma SurplusIgnoredIff(params: seq<Node>, args: seq<int>, cap: nat)
    requires AllParams(params) && IntegerParams(params) && Distinct(ParamNames(params)) && 5 * |args| + 10 <= I32_MAX
    ensures (forall ss :: Runs(params, ss) ==> Answers(params, ss, args, cap))
       <==> forall i :: |ParamNames(params)| <= i < |args| ==> ToInt32(args[i]) == 0
  {
    hide Runs, Answers, ParamNames, ReadsUnassigned, IntegerParams, ToInt32;
    if forall i :: |ParamNames(params)| <= i < |args| ==> ToInt32(args[i]) == 0 {
      forall ss | Runs(params, ss) ensures Answers(params, ss, args, cap) { NoSurplusAnswers(params, ss, args, cap); }
    } else {
      var i: nat :| |ParamNames(params)| <= i < |args| && ToInt32(args[i]) != 0;
      SurplusIsRead(params, args, cap, i);
    }
  }

  lemma NoSurplusAnswers(params: seq<Node>, ss: seq<Node>, args: seq<int>, cap: nat)
    requires AllParams(params) && Distinct(ParamNames(params)) && Runs(params, ss)
    requires forall i :: |ParamNames(params)| <= i < |args| ==> ToInt32(args[i]) == 0
    ensures Answers(params, ss, args, cap)
  {
    hide GenFlow, NeedBlock, RunProgram, EvalFlow;
    BodyAfterParams(params, Node(Block, "", ss));
    CompilerCorrect(WithBody(params, ss), "f", false, args, cap);
  }
}
