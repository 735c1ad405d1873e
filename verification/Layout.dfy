/** Every compiled program is well laid out, whichever path reaches an opcode. */
module Layout {
  // Each cell is an opcode or the operand of one, each jump lands on an opcode inside the code, and the
  // stack depth at an opcode is the same on every path to it.

  import opened Ast
  import opened I32
  import opened Vm
  import opened Source
  import opened Compiler
  import opened CompilerProof

  /** Stack depth before each opcode; -1 marks an operand cell. */
  type Depths = seq<int>

  predicate Wide(op: int) {
    op == LOAD_CONST || op == LOAD_LOCAL || op == STORE_LOCAL || op == JUMP || op == JUMP_IF_FALSE
  }

  /** Control can pass to cell `q` with `d` values on the stack. */
  predicate Flows(depths: Depths, q: int, d: int) {
    0 <= q < |depths| && depths[q] == d && d >= 0
  }

  /** The opcode at `p` has what it pops, and what follows it expects what it leaves. */
  predicate OpcodeOk(code: seq<int>, depths: Depths, locals: nat, p: int)
    requires |depths| == |code| && 0 <= p < |code|
  {
    var op, d := code[p], depths[p];
    && d >= 0
    && (Wide(op) ==> p + 1 < |code| && depths[p + 1] == -1)
    && if op == LOAD_CONST then I32_MIN <= code[p + 1] <= I32_MAX && Flows(depths, p + 2, d + 1)
       else if op == LOAD_LOCAL then 0 <= code[p + 1] < locals && Flows(depths, p + 2, d + 1)
       else if op == STORE_LOCAL then 0 <= code[p + 1] < locals && Flows(depths, p + 2, d - 1)
       else if IsBinary(op) then d >= 2 && Flows(depths, p + 1, d - 1)
       else if op == NOT || op == NEG then d >= 1 && Flows(depths, p + 1, d)
       else if op == JUMP then Flows(depths, code[p + 1], d)
       else if op == JUMP_IF_FALSE then
         code[p + 1] >= p + 2 && Flows(depths, code[p + 1], d - 1) && Flows(depths, p + 2, d - 1)
       else op == RETURN && d >= 1
  }

  predicate CellOk(code: seq<int>, depths: Depths, locals: nat, p: int)
    requires |depths| == |code| && 0 <= p < |code|
  {
    if depths[p] == -1 then p > 0 && depths[p - 1] >= 0 && Wide(code[p - 1])
    else OpcodeOk(code, depths, locals, p)
  }

  ghost predicate CellsOk(code: seq<int>, depths: Depths, locals: nat, lo: int, hi: int) {
    |depths| == |code| && 0 <= lo <= hi <= |code| && forall p :: lo <= p < hi ==> CellOk(code, depths, locals, p)
  }

  // ----- The depths of compiled code -----

  function DepthExpr(e: Node, d: int): Depths
    decreases e
  {
    if e.kind.BinaryExpr? && |e.children| >= 2 then
      DepthExpr(e.children[0], d) + DepthExpr(e.children[1], d + 1) + [d + 2]
    else if e.kind.UnaryExpr? && |e.children| >= 1 then DepthExpr(e.children[0], d) + [d + 1]
    else [d, -1]
  }

  function DepthFirst(children: seq<Node>): Depths {
    if children == [] then [0, -1] else DepthExpr(children[0], 0)
  }

  function DepthStmt(n: Node): Depths
    decreases n
  {
    match n.kind
    case LetDecl | MutDecl | AssignStmt => DepthFirst(n.children) + [1, -1]
    case ReturnStmt => DepthFirst(n.children) + [1]
    case IfStmt =>
      if n.children == [] then []
      else if |n.children| <= 2 then DepthExpr(n.children[0], 0) + [1, -1] + DepthSecond(n.children)
      else DepthExpr(n.children[0], 0) + [1, -1] + DepthSecond(n.children) + [0, -1] + DepthStmt(n.children[2])
    case WhileStmt =>
      if n.children == [] then [] else DepthExpr(n.children[0], 0) + [1, -1] + (DepthSecond(n.children) + [0, -1])
    case Block => DepthBlock(n.children)
    case _ => []
  }

  function DepthSecond(children: seq<Node>): Depths
    decreases children, 0
  {
    if |children| > 1 then DepthStmt(children[1]) else []
  }

  function DepthBlock(ss: seq<Node>): Depths
    decreases ss
  {
    if ss == [] then [] else DepthStmt(ss[0]) + DepthBlock(ss[1..])
  }

  function DepthFlow(flow: Node): Depths
    requires Body(flow.children).Some?
  {
    DepthBlock(Body(flow.children).value.children) + [0, -1, 1]
  }

  lemma {:induction false} DepthExprShape(e: Node, slots: Slots, d: int)
    requires GenExpr(e, slots).Some?
    ensures |DepthExpr(e, d)| == |GenExpr(e, slots).value| && |DepthExpr(e, d)| > 0 && DepthExpr(e, d)[0] == d
    decreases e
  {
    hide BinaryOpcode, UnaryOpcode, LiteralValue;
    if e.kind.BinaryExpr? {
      DepthExprShape(e.children[0], slots, d);
      DepthExprShape(e.children[1], slots, d + 1);
    } else if e.kind.UnaryExpr? {
      DepthExprShape(e.children[0], slots, d);
    }
  }

  lemma FirstShape(children: seq<Node>, slots: Slots)
    requires GenFirst(children, slots).Some?
    ensures |DepthFirst(children)| == |GenFirst(children, slots).value| && |DepthFirst(children)| > 0
    ensures DepthFirst(children)[0] == 0
  {
    if children != [] {
      DepthExprShape(children[0], slots, 0);
    }
  }

  lemma {:induction false} StmtShape(n: Node, at: nat, slots: Slots)
    requires GenStmt(n, at, slots).Some?
    ensures |DepthStmt(n)| == |GenStmt(n, at, slots).value.code|
    ensures DepthStmt(n) != [] ==> DepthStmt(n)[0] == 0
    decreases n
  {
    hide GenExpr, DepthExpr, GenFirst, DepthFirst;
    match n.kind {
      case LetDecl | MutDecl | AssignStmt | ReturnStmt => FirstShape(n.children, slots);
      case IfStmt => IfShape(n, at, slots);
      case WhileStmt => WhileShape(n, at, slots);
      case Block => BlockShape(n.children, at, slots);
      case _ =>
    }
  }

  lemma {:induction false} IfShape(n: Node, at: nat, slots: Slots)
    requires n.kind.IfStmt? && GenIf(n, at, slots).Some?
    ensures |DepthStmt(n)| == |GenIf(n, at, slots).value.code| && DepthStmt(n) != [] && DepthStmt(n)[0] == 0
    decreases n, 0
  {
    hide GenExpr, DepthExpr, GenSecond, DepthSecond, GenStmt;
    DepthExprShape(n.children[0], slots, 0);
    var thenBase := at + |GenExpr(n.children[0], slots).value| + 2;
    SecondShape(n.children, thenBase, slots);
    if |n.children| > 2 {
      var t := GenSecond(n.children, thenBase, slots).value;
      StmtShape(n.children[2], thenBase + |t.code| + 2, t.slots);
    }
  }

  lemma {:induction false} WhileShape(n: Node, at: nat, slots: Slots)
    requires n.kind.WhileStmt? && GenWhile(n, at, slots).Some?
    ensures |DepthStmt(n)| == |GenWhile(n, at, slots).value.code| && DepthStmt(n) != [] && DepthStmt(n)[0] == 0
    decreases n, 0
  {
    hide GenExpr, DepthExpr, GenSecond, DepthSecond;
    DepthExprShape(n.children[0], slots, 0);
    SecondShape(n.children, at + |GenExpr(n.children[0], slots).value| + 2, slots);
  }

  lemma SecondShape(children: seq<Node>, at: nat, slots: Slots)
    requires GenSecond(children, at, slots).Some?
    ensures |DepthSecond(children)| == |GenSecond(children, at, slots).value.code|
    ensures DepthSecond(children) != [] ==> DepthSecond(children)[0] == 0
    decreases children, 0
  {
    if |children| > 1 {
      StmtShape(children[1], at, slots);
    }
  }

  lemma {:induction false} BlockShape(ss: seq<Node>, at: nat, slots: Slots)
    requires GenBlock(ss, at, slots).Some?
    ensures |DepthBlock(ss)| == |GenBlock(ss, at, slots).value.code|
    ensures DepthBlock(ss) != [] ==> DepthBlock(ss)[0] == 0
    decreases ss
  {
    if ss != [] {
      var f := GenStmt(ss[0], at, slots).value;
      StmtShape(ss[0], at, slots);
      BlockShape(ss[1..], at + |f.code|, f.slots);
    }
  }

  // ----- No depth exceeds the static need -----

  ghost predicate Bounded(depths: Depths, most: int) {
    forall i :: 0 <= i < |depths| ==> -1 <= depths[i] <= most
  }

  lemma Both(a: Depths, b: Depths, most: int)
    requires Bounded(a, most) && Bounded(b, most)
    ensures Bounded(a + b, most)
  {
  }

  lemma NeedPositive(e: Node)
    ensures NeedExpr(e) >= 1
    decreases e
  {
    if e.kind.UnaryExpr? && |e.children| >= 1 {
      NeedPositive(e.children[0]);
    }
  }

  lemma {:induction false} ExprBounded(e: Node, d: nat, most: int)
    requires d + NeedExpr(e) <= most
    ensures Bounded(DepthExpr(e, d), most)
    decreases e
  {
    hide Bounded;
    if e.kind.BinaryExpr? && |e.children| >= 2 {
      var l, r := DepthExpr(e.children[0], d), DepthExpr(e.children[1], d + 1);
      ExprBounded(e.children[0], d, most);
      ExprBounded(e.children[1], d + 1, most);
      NeedPositive(e.children[1]);
      Singleton(d + 2, most);
      Both(l, r, most);
      Both(l + r, [d + 2], most);
    } else if e.kind.UnaryExpr? && |e.children| >= 1 {
      ExprBounded(e.children[0], d, most);
      NeedPositive(e.children[0]);
      Singleton(d + 1, most);
      Both(DepthExpr(e.children[0], d), [d + 1], most);
    } else {
      Singleton(d, most);
      Singleton(-1, most);
      var opcode: Depths, operand: Depths := [d], [-1];
      Both(opcode, operand, most);
      assert opcode + operand == DepthExpr(e, d);
    }
  }

  lemma Singleton(d: int, most: int)
    requires -1 <= d <= most
    ensures Bounded([d], most)
  {
  }

  lemma {:induction false} StmtBounded(n: Node, most: int)
    requires NeedStmt(n) <= most && 1 <= most
    ensures Bounded(DepthStmt(n), most)
    decreases n, 1
  {
    hide Bounded, DepthExpr, NeedExpr, DepthBlock, NeedBlock;
    Singletons(most);
    match n.kind {
      case LetDecl | MutDecl | AssignStmt | ReturnStmt =>
        FirstBounded(n.children, most);
        Both(DepthFirst(n.children), [1, -1], most);
        Both(DepthFirst(n.children), [1], most);
      case IfStmt | WhileStmt =>
        if n.children != [] {
          BranchBounded(n, most);
        }
      case Block => BlockBounded(n.children, most);
      case _ =>
    }
  }

  lemma Singletons(most: int)
    requires 1 <= most
    ensures Bounded([], most) && Bounded([1], most) && Bounded([1, -1], most) && Bounded([0, -1], most)
  {
  }

  lemma FirstBounded(children: seq<Node>, most: int)
    requires 1 <= most && (children != [] ==> NeedExpr(children[0]) <= most)
    ensures Bounded(DepthFirst(children), most)
  {
    if children != [] {
      ExprBounded(children[0], 0, most);
    }
  }

  lemma {:induction false} BranchBounded(n: Node, most: int)
    requires (n.kind.IfStmt? || n.kind.WhileStmt?) && n.children != [] && NeedStmt(n) <= most && 1 <= most
    ensures Bounded(DepthStmt(n), most)
    decreases n, 0
  {
    hide Bounded, DepthExpr, NeedExpr, DepthBlock, NeedBlock;
    var c := DepthExpr(n.children[0], 0);
    Singletons(most);
    ExprBounded(n.children[0], 0, most);
    if |n.children| > 1 {
      StmtBounded(n.children[1], most);
    }
    var s := DepthSecond(n.children);
    Both(c, [1, -1], most);
    Both(c + [1, -1], s, most);
    Both(s, [0, -1], most);
    Both(c + [1, -1], s + [0, -1], most);
    if n.kind.IfStmt? && |n.children| > 2 {
      StmtBounded(n.children[2], most);
      Both(c + [1, -1] + s, [0, -1], most);
      Both(c + [1, -1] + s + [0, -1], DepthStmt(n.children[2]), most);
    }
  }

  lemma {:induction false} BlockBounded(ss: seq<Node>, most: int)
    requires NeedBlock(ss) <= most && 1 <= most
    ensures Bounded(DepthBlock(ss), most)
    decreases ss
  {
    if ss != [] {
      StmtBounded(ss[0], most);
      BlockBounded(ss[1..], most);
      Both(DepthStmt(ss[0]), DepthBlock(ss[1..]), most);
    }
  }

  // ----- Every cell checks -----

  ghost predicate Fit(slots: Slots, locals: nat) {
    forall x :: x in slots ==> slots[x] < locals
  }

  lemma FitSmaller(small: Slots, big: Slots, locals: nat)
    requires Extends(small, big) && Fit(big, locals)
    ensures Fit(small, locals)
  {
  }

  /** A two-cell instruction checks when its opcode does. */
  lemma WideCells(code: seq<int>, depths: Depths, locals: nat, p: int, op: int, arg: int, d: int)
    requires |depths| == |code| && CodeAt(code, p, [op, arg]) && CodeAt(depths, p, [d, -1]) && Wide(op) && d >= 0
    requires match op
             case 1 => I32_MIN <= arg <= I32_MAX && Flows(depths, p + 2, d + 1)
             case 2 => 0 <= arg < locals && Flows(depths, p + 2, d + 1)
             case 3 => 0 <= arg < locals && Flows(depths, p + 2, d - 1)
             case 40 => Flows(depths, arg, d)
             case _ => arg >= p + 2 && Flows(depths, arg, d - 1) && Flows(depths, p + 2, d - 1)
    ensures CellsOk(code, depths, locals, p, p + 2)
  {
    Cell(code, p, [op, arg], 0);
    Cell(code, p, [op, arg], 1);
    Cell(depths, p, [d, -1], 0);
    Cell(depths, p, [d, -1], 1);
  }

  lemma {:induction false} ExprCells(code: seq<int>, depths: Depths, locals: nat, e: Node, slots: Slots, at: int,
        d: int)
    requires |depths| == |code| && GenExpr(e, slots).Some? && Fit(slots, locals) && d >= 0
    requires CodeAt(code, at, GenExpr(e, slots).value) && CodeAt(depths, at, DepthExpr(e, d))
    requires Flows(depths, at + |GenExpr(e, slots).value|, d + 1)
    ensures CellsOk(code, depths, locals, at, at + |GenExpr(e, slots).value|)
    decreases e
  {
    hide BinaryOpcode, UnaryOpcode, LiteralValue, OpcodeOk, CellOk, CodeAt;
    match e.kind {
      case NumberLiteral => WideCells(code, depths, locals, at, LOAD_CONST, LiteralValue(e.value).value, d);
      case BoolLiteral => WideCells(code, depths, locals, at, LOAD_CONST, Truth(e.value == "true"), d);
      case Identifier =>
        if e.value == "true" || e.value == "false" {
          WideCells(code, depths, locals, at, LOAD_CONST, Truth(e.value == "true"), d);
        } else {
          WideCells(code, depths, locals, at, LOAD_LOCAL, slots[e.value], d);
        }
      case BinaryExpr => BinaryCells(code, depths, locals, e, slots, at, d);
      case UnaryExpr =>
        var c := GenExpr(e.children[0], slots).value;
        var op := UnaryOpcode(e.value).value;
        DepthExprShape(e.children[0], slots, d);
        Split(code, at, c, [op]);
        Split(depths, at, DepthExpr(e.children[0], d), [d + 1]);
        Cell(depths, at + |c|, [d + 1], 0);
        ExprCells(code, depths, locals, e.children[0], slots, at, d);
        OperatorsAgree(e.value, 0, 0);
        OperatorCell(code, depths, locals, at + |c|, op, d + 1);
      case _ =>
    }
  }

  lemma {:induction false} BinaryCells(code: seq<int>, depths: Depths, locals: nat, e: Node, slots: Slots, at: int,
        d: int)
    requires e.kind.BinaryExpr?
    requires |depths| == |code| && GenExpr(e, slots).Some? && Fit(slots, locals) && d >= 0
    requires CodeAt(code, at, GenExpr(e, slots).value) && CodeAt(depths, at, DepthExpr(e, d))
    requires Flows(depths, at + |GenExpr(e, slots).value|, d + 1)
    ensures CellsOk(code, depths, locals, at, at + |GenExpr(e, slots).value|)
    decreases e, 0
  {
    hide BinaryOpcode, OpcodeOk, CellOk, CodeAt;
    var l, r := GenExpr(e.children[0], slots).value, GenExpr(e.children[1], slots).value;
    var dl, dr := DepthExpr(e.children[0], d), DepthExpr(e.children[1], d + 1);
    var op := BinaryOpcode(e.value).value;
    DepthExprShape(e.children[0], slots, d);
    DepthExprShape(e.children[1], slots, d + 1);
    Split(code, at, l + r, [op]);
    Split(code, at, l, r);
    Split(depths, at, dl + dr, [d + 2]);
    Split(depths, at, dl, dr);
    Cell(depths, at + |l|, dr, 0);
    Cell(depths, at + |l| + |r|, [d + 2], 0);
    ExprCells(code, depths, locals, e.children[0], slots, at, d);
    ExprCells(code, depths, locals, e.children[1], slots, at + |l|, d + 1);
    OperatorsAgree(e.value, 0, 0);
    OperatorCell(code, depths, locals, at + |l| + |r|, op, d + 2);
  }

  lemma OperatorCell(code: seq<int>, depths: Depths, locals: nat, p: int, op: int, d: int)
    requires |depths| == |code| && CodeAt(code, p, [op]) && CodeAt(depths, p, [d])
    requires || (IsBinary(op) && d >= 2 && Flows(depths, p + 1, d - 1))
             || (op in {NEG, NOT} && d >= 1 && Flows(depths, p + 1, d))
             || (op == RETURN && d >= 1)
    ensures CellsOk(code, depths, locals, p, p + 1)
  {
    Cell(code, p, [op], 0);
    Cell(depths, p, [d], 0);
  }

  lemma FirstCells(code: seq<int>, depths: Depths, locals: nat, children: seq<Node>, slots: Slots, at: int)
    requires |depths| == |code| && GenFirst(children, slots).Some? && Fit(slots, locals)
    requires CodeAt(code, at, GenFirst(children, slots).value) && CodeAt(depths, at, DepthFirst(children))
    requires Flows(depths, at + |GenFirst(children, slots).value|, 1)
    ensures CellsOk(code, depths, locals, at, at + |GenFirst(children, slots).value|)
  {
    if children == [] {
      WideCells(code, depths, locals, at, LOAD_CONST, 0, 0);
    } else {
      ExprCells(code, depths, locals, children[0], slots, at, 0);
    }
  }

  lemma StoreCells(code: seq<int>, depths: Depths, locals: nat, children: seq<Node>, name: string, slots: Slots,
        at: int)
    requires |depths| == |code| && GenStore(children, name, slots).Some? && Dense(slots)
    requires Fit(GenStore(children, name, slots).value.slots, locals)
    requires CodeAt(code, at, GenStore(children, name, slots).value.code)
    requires CodeAt(depths, at, DepthFirst(children) + [1, -1])
    requires Flows(depths, at + |GenStore(children, name, slots).value.code|, 0)
    ensures CellsOk(code, depths, locals, at, at + |GenStore(children, name, slots).value.code|)
  {
    hide OpcodeOk, CellOk, GenFirst, DepthFirst;
    var c := GenFirst(children, slots).value;
    var s := SlotFor(slots, name)[name];
    SlotForGrows(slots, name);
    FirstShape(children, slots);
    Split(code, at, c, [STORE_LOCAL, s]);
    Split(depths, at, DepthFirst(children), [1, -1]);
    Cell(depths, at + |c|, [1, -1], 0);
    FirstCells(code, depths, locals, children, slots, at);
    WideCells(code, depths, locals, at + |c|, STORE_LOCAL, s, 1);
  }

  /** What a fragment needs of its surroundings for its cells to check. */
  ghost predicate Placed(code: seq<int>, depths: Depths, locals: nat, at: nat, f: Fragment, fd: Depths) {
    && |depths| == |code| && CodeAt(code, at, f.code) && CodeAt(depths, at, fd)
    && |fd| == |f.code| && (fd != [] ==> fd[0] == 0)
    && Flows(depths, at + |f.code|, 0) && Fit(f.slots, locals)
  }

  lemma Entry(code: seq<int>, depths: Depths, locals: nat, at: nat, f: Fragment, fd: Depths)
    requires Placed(code, depths, locals, at, f, fd)
    ensures Flows(depths, at, 0)
  {
    if fd != [] {
      Cell(depths, at, fd, 0);
    }
  }

  lemma {:induction false} StmtCells(code: seq<int>, depths: Depths, locals: nat, n: Node, slots: Slots, at: nat)
    requires Dense(slots) && GenStmt(n, at, slots).Some?
    requires Placed(code, depths, locals, at, GenStmt(n, at, slots).value, DepthStmt(n))
    ensures CellsOk(code, depths, locals, at, at + |GenStmt(n, at, slots).value.code|)
    decreases n, 2
  {
    hide OpcodeOk, CellOk, GenFirst, DepthFirst, GenIf, GenWhile;
    match n.kind {
      case LetDecl | MutDecl => StoreCells(code, depths, locals, n.children, BindingName(n.value), slots, at);
      case AssignStmt => StoreCells(code, depths, locals, n.children, Trim(n.value), slots, at);
      case ReturnStmt =>
        var c := GenFirst(n.children, slots).value;
        FirstShape(n.children, slots);
        Split(code, at, c, [RETURN]);
        Split(depths, at, DepthFirst(n.children), [1]);
        Cell(depths, at + |c|, [1], 0);
        FirstCells(code, depths, locals, n.children, slots, at);
        OperatorCell(code, depths, locals, at + |c|, RETURN, 1);
      case IfStmt => IfCells(code, depths, locals, n, slots, at);
      case WhileStmt => WhileCells(code, depths, locals, n, slots, at);
      case Block => BlockCells(code, depths, locals, n.children, slots, at);
      case _ =>
    }
  }

  lemma {:induction false} BlockCells(code: seq<int>, depths: Depths, locals: nat, ss: seq<Node>, slots: Slots, at: nat)
    requires Dense(slots) && GenBlock(ss, at, slots).Some?
    requires Placed(code, depths, locals, at, GenBlock(ss, at, slots).value, DepthBlock(ss))
    ensures CellsOk(code, depths, locals, at, at + |GenBlock(ss, at, slots).value.code|)
    decreases ss
  {
    hide GenStmt, DepthStmt, Dense, Extends, Placed, CellsOk;
    if ss == [] {
      NoCells(code, depths, locals, at, GenBlock(ss, at, slots).value);
    } else {
      var f := GenStmt(ss[0], at, slots).value;
      var rest := GenBlock(ss[1..], at + |f.code|, f.slots).value;
      StmtSlots(ss[0], at, slots);
      BlockSlots(ss[1..], at + |f.code|, f.slots);
      StmtShape(ss[0], at, slots);
      BlockShape(ss[1..], at + |f.code|, f.slots);
      Halves(code, depths, locals, at, f, rest, DepthStmt(ss[0]), DepthBlock(ss[1..]));
      StmtCells(code, depths, locals, ss[0], slots, at);
      BlockCells(code, depths, locals, ss[1..], f.slots, at + |f.code|);
      Join(code, depths, locals, at, at + |f.code|, at + |f.code| + |rest.code|);
    }
  }

  lemma NoCells(code: seq<int>, depths: Depths, locals: nat, at: nat, f: Fragment)
    requires f.code == [] && Placed(code, depths, locals, at, f, [])
    ensures CellsOk(code, depths, locals, at, at)
  {
  }

  lemma Join(code: seq<int>, depths: Depths, locals: nat, lo: int, mid: int, hi: int)
    requires CellsOk(code, depths, locals, lo, mid) && CellsOk(code, depths, locals, mid, hi)
    ensures CellsOk(code, depths, locals, lo, hi)
  {
  }

  /** Two consecutive fragments are each placed when their concatenation is. */
  lemma Halves(code: seq<int>, depths: Depths, locals: nat, at: nat, f: Fragment, g: Fragment, fd: Depths, gd: Depths)
    requires Placed(code, depths, locals, at, Fragment(f.code + g.code, g.slots), fd + gd)
    requires |fd| == |f.code| && |gd| == |g.code| && (fd != [] ==> fd[0] == 0) && (gd != [] ==> gd[0] == 0)
    requires Extends(f.slots, g.slots)
    ensures Placed(code, depths, locals, at, f, fd) && Placed(code, depths, locals, at + |f.code|, g, gd)
  {
    hide CodeAt, Fit;
    FitSmaller(f.slots, g.slots, locals);
    Split(code, at, f.code, g.code);
    Split(depths, at, fd, gd);
    Entry(code, depths, locals, at + |f.code|, g, gd);
  }

  lemma {:induction false} SecondCells(code: seq<int>, depths: Depths, locals: nat, children: seq<Node>, slots: Slots,
        at: nat)
    requires Dense(slots) && GenSecond(children, at, slots).Some?
    requires Placed(code, depths, locals, at, GenSecond(children, at, slots).value, DepthSecond(children))
    ensures CellsOk(code, depths, locals, at, at + |GenSecond(children, at, slots).value.code|)
    decreases children, 0
  {
    if |children| > 1 {
      StmtCells(code, depths, locals, children[1], slots, at);
    }
  }

  /** The condition and its conditional jump, shared by `if` and `while`. */
  lemma ConditionCells(code: seq<int>, depths: Depths, locals: nat, e: Node, target: int, slots: Slots, at: int)
    requires |depths| == |code| && GenExpr(e, slots).Some? && Fit(slots, locals)
    requires CodeAt(code, at, GenExpr(e, slots).value + [JUMP_IF_FALSE, target])
    requires CodeAt(depths, at, DepthExpr(e, 0) + [1, -1])
    requires target >= at + |GenExpr(e, slots).value| + 2 && Flows(depths, target, 0)
    requires Flows(depths, at + |GenExpr(e, slots).value| + 2, 0)
    ensures CellsOk(code, depths, locals, at, at + |GenExpr(e, slots).value| + 2)
  {
    hide OpcodeOk, CellOk, GenExpr, DepthExpr;
    var c := GenExpr(e, slots).value;
    DepthExprShape(e, slots, 0);
    Split(code, at, c, [JUMP_IF_FALSE, target]);
    Split(depths, at, DepthExpr(e, 0), [1, -1]);
    Cell(depths, at + |c|, [1, -1], 0);
    ExprCells(code, depths, locals, e, slots, at, 0);
    WideCells(code, depths, locals, at + |c|, JUMP_IF_FALSE, target, 1);
  }

  lemma {:induction false} IfCells(code: seq<int>, depths: Depths, locals: nat, n: Node, slots: Slots, at: nat)
    requires n.kind.IfStmt? && Dense(slots) && GenIf(n, at, slots).Some?
    requires Placed(code, depths, locals, at, GenIf(n, at, slots).value, DepthStmt(n))
    ensures CellsOk(code, depths, locals, at, at + |GenIf(n, at, slots).value.code|)
    decreases n, 1
  {
    hide OpcodeOk, CellOk, GenExpr, DepthExpr, GenSecond, DepthSecond, GenStmt, DepthBlock, CodeAt, Dense;
    var cond := n.children[0];
    var c, dc := GenExpr(cond, slots).value, DepthExpr(cond, 0);
    var thenAt := at + |c| + 2;
    var t, dt := GenSecond(n.children, thenAt, slots).value, DepthSecond(n.children);
    DepthExprShape(cond, slots, 0);
    SecondSlots(n.children, thenAt, slots);
    SecondShape(n.children, thenAt, slots);
    if |n.children| <= 2 {
      var target := thenAt + |t.code|;
      assert c + [JUMP_IF_FALSE] + [target] == c + [JUMP_IF_FALSE, target];
      Split(code, at, c + [JUMP_IF_FALSE, target], t.code);
      Split(depths, at, dc + [1, -1], dt);
      Entry(code, depths, locals, thenAt, t, dt);
      ConditionCells(code, depths, locals, cond, target, slots, at);
      SecondCells(code, depths, locals, n.children, slots, thenAt);
    } else {
      IfElseCells(code, depths, locals, n, slots, at);
    }
  }

  lemma {:induction false} IfElseCells(code: seq<int>, depths: Depths, locals: nat, n: Node, slots: Slots, at: nat)
    requires n.kind.IfStmt? && |n.children| > 2 && Dense(slots) && GenIf(n, at, slots).Some?
    requires Placed(code, depths, locals, at, GenIf(n, at, slots).value, DepthStmt(n))
    ensures CellsOk(code, depths, locals, at, at + |GenIf(n, at, slots).value.code|)
    decreases n, 0
  {
    hide OpcodeOk, CellOk, GenExpr, DepthExpr, GenSecond, DepthSecond, GenStmt, DepthBlock, CodeAt, Dense, CellsOk;
    var cond := n.children[0];
    var c, dc := GenExpr(cond, slots).value, DepthExpr(cond, 0);
    var thenAt := at + |c| + 2;
    var t, dt := GenSecond(n.children, thenAt, slots).value, DepthSecond(n.children);
    DepthExprShape(cond, slots, 0);
    SecondSlots(n.children, thenAt, slots);
    SecondShape(n.children, thenAt, slots);
    var elseAt := thenAt + |t.code| + 2;
    var e, de := GenStmt(n.children[2], elseAt, t.slots).value, DepthStmt(n.children[2]);
    var end := elseAt + |e.code|;
    StmtSlots(n.children[2], elseAt, t.slots);
    StmtShape(n.children[2], elseAt, t.slots);
    assert c + [JUMP_IF_FALSE] + [elseAt] == c + [JUMP_IF_FALSE, elseAt];
    ElsePieces(code, at, c, JUMP_IF_FALSE, elseAt, t.code, JUMP, end, e.code);
    ElsePieces(depths, at, dc, 1, -1, dt, 0, -1, de);
    Cell(depths, elseAt - 2, [0, -1], 0);
    Entry(code, depths, locals, elseAt, e, de);
    Entry(code, depths, locals, thenAt, t, dt);
    ConditionCells(code, depths, locals, cond, elseAt, slots, at);
    SecondCells(code, depths, locals, n.children, slots, thenAt);
    WideCells(code, depths, locals, elseAt - 2, JUMP, end, 0);
    StmtCells(code, depths, locals, n.children[2], t.slots, elseAt);
    Join(code, depths, locals, at, thenAt, elseAt - 2);
    Join(code, depths, locals, at, elseAt - 2, elseAt);
    Join(code, depths, locals, at, elseAt, end);
  }

  /** Cells before the then-branch, the branch, the cells after it, and the else-branch. */
  lemma ElsePieces(code: seq<int>, at: int, c: seq<int>, a: int, b: int, t: seq<int>, x: int, y: int, e: seq<int>)
    requires CodeAt(code, at, c + [a, b] + t + [x, y] + e)
    ensures CodeAt(code, at, c + [a, b]) && CodeAt(code, at + |c| + 2, t) && CodeAt(code, at + |c| + |t| + 2, [x, y])
    ensures CodeAt(code, at + |c| + |t| + 4, e)
  {
    hide CodeAt;
    Split(code, at, c + [a, b] + t + [x, y], e);
    Split(code, at, c + [a, b] + t, [x, y]);
    Split(code, at, c + [a, b], t);
  }

  lemma {:induction false} WhileCells(code: seq<int>, depths: Depths, locals: nat, n: Node, slots: Slots, at: nat)
    requires n.kind.WhileStmt? && Dense(slots) && GenWhile(n, at, slots).Some?
    requires Placed(code, depths, locals, at, GenWhile(n, at, slots).value, DepthStmt(n))
    ensures CellsOk(code, depths, locals, at, at + |GenWhile(n, at, slots).value.code|)
    decreases n, 0
  {
    hide OpcodeOk, CellOk, GenExpr, DepthExpr, GenSecond, DepthSecond, DepthBlock, CodeAt;
    var cond := n.children[0];
    var c, dc := GenExpr(cond, slots).value, DepthExpr(cond, 0);
    var bodyAt := at + |c| + 2;
    var b, db := GenSecond(n.children, bodyAt, slots).value, DepthSecond(n.children);
    var end := bodyAt + |b.code| + 2;
    DepthExprShape(cond, slots, 0);
    SecondSlots(n.children, bodyAt, slots);
    SecondShape(n.children, bodyAt, slots);
    Entry(code, depths, locals, at, GenWhile(n, at, slots).value, DepthStmt(n));
    assert c + [JUMP_IF_FALSE] + [end] == c + [JUMP_IF_FALSE, end];
    Split(code, at, c + [JUMP_IF_FALSE, end], b.code + [JUMP, at]);
    Split(code, bodyAt, b.code, [JUMP, at]);
    Split(depths, at, dc + [1, -1], db + [0, -1]);
    Split(depths, bodyAt, db, [0, -1]);
    Cell(depths, end - 2, [0, -1], 0);
    Entry(code, depths, locals, bodyAt, b, db);
    ConditionCells(code, depths, locals, cond, end, slots, at);
    SecondCells(code, depths, locals, n.children, slots, bodyAt);
    WideCells(code, depths, locals, end - 2, JUMP, at, 0);
  }

  // ----- Whole flows -----

  lemma {:induction false} SlotsForDense(names: seq<string>)
    ensures Dense(SlotsFor(names))
  {
    if names != [] {
      SlotsForDense(names[..|names| - 1]);
      SlotForGrows(SlotsFor(names[..|names| - 1]), names[|names| - 1]);
    }
  }

  /** Every compiled flow is well laid out from its first cell to its last. */
  lemma FlowLayout(flow: Node, declares64: bool)
    requires GenFlow(flow, declares64).Some?
    ensures var f, depths := GenFlow(flow, declares64).value, DepthFlow(flow);
            && Flows(depths, 0, 0)
            && CellsOk(f.code, depths, |f.slots|, 0, |f.code|)
  {
    hide OpcodeOk, CellOk, GenBlock, DepthBlock, CodeAt, CellsOk, SlotsFor;
    var ss := Body(flow.children).value.children;
    var start := SlotsFor(ParamNames(flow.children));
    var b, db := GenBlock(ss, 0, start).value, DepthBlock(ss);
    var f, depths := GenFlow(flow, declares64).value, DepthFlow(flow);
    SlotsForDense(ParamNames(flow.children));
    BlockSlots(ss, 0, start);
    BlockShape(ss, 0, start);
    var tail: seq<int>, dtail: Depths := [LOAD_CONST, 0] + [RETURN], [0, -1] + [1];
    assert f.code == b.code + tail && depths == db + dtail;
    TailPieces(f.code, b.code, tail, [LOAD_CONST, 0], [RETURN]);
    TailPieces(depths, db, dtail, [0, -1], [1]);
    Cell(depths, |b.code|, [0, -1], 0);
    Cell(depths, |b.code| + 2, [1], 0);
    WideCells(f.code, depths, |f.slots|, |b.code|, LOAD_CONST, 0, 0);
    OperatorCell(f.code, depths, |f.slots|, |b.code| + 2, RETURN, 1);
    Entry(f.code, depths, |f.slots|, 0, b, db);
    BlockCells(f.code, depths, |f.slots|, ss, start, 0);
    Join(f.code, depths, |f.slots|, 0, |b.code|, |b.code| + 2);
    Join(f.code, depths, |f.slots|, 0, |b.code| + 2, |b.code| + 3);
  }

  lemma TailPieces(code: seq<int>, b: seq<int>, tail: seq<int>, x: seq<int>, y: seq<int>)
    requires code == b + tail && tail == x + y
    ensures CodeAt(code, 0, b) && CodeAt(code, |b|, x) && CodeAt(code, |b| + |x|, y)
  {
    Split(code, 0, b, tail);
    Split(code, |b|, x, y);
  }

  /** The flow's addresses and slots fit the 32-bit cells they are stored in. */
  predicate Fits(f: Fragment) {
    |f.code| <= I32_MAX && |f.slots| <= I32_MAX
  }

  /** Storing the emitted cells in an `Int32Array` changes none of them. */
  lemma TruncateIsExact(flow: Node, declares64: bool)
    requires GenFlow(flow, declares64).Some? && Fits(GenFlow(flow, declares64).value)
    ensures Truncate(GenFlow(flow, declares64).value.code) == GenFlow(flow, declares64).value.code
  {
    var f, depths := GenFlow(flow, declares64).value, DepthFlow(flow);
    FlowLayout(flow, declares64);
    forall p | 0 <= p < |f.code|
      ensures ToInt32(f.code[p]) == f.code[p]
    {
      assert CellOk(f.code, depths, |f.slots|, p);
      if depths[p] == -1 {
        assert CellOk(f.code, depths, |f.slots|, p - 1);
      }
    }
  }

  // ----- Runs of laid-out code -----

  /** The machine is at an opcode whose recorded depth is its actual one. */
  ghost predicate OnTrack(depths: Depths, st: State) {
    Flows(depths, st.pc, st.sp)
  }

  ghost predicate LaidOut(code: seq<i32>, depths: Depths, locals: nat) {
    CellsOk(code, depths, locals, 0, |code|)
  }

  lemma TrapKinds(op: int, a: Option<i32>, b: Option<i32>)
    requires IsBinary(op)
    ensures Operate(op, a, b).Trap? ==> Operate(op, a, b).kind != UnknownOpcode
  {
  }

  /** When the dispatch at `st` ends the run, it is a RETURN with a value on the stack, or a trap
      of arithmetic or of the loop cap. */
  ghost predicate EndsWell(code: seq<i32>, st: State, cap: nat)
    requires 0 <= st.pc < |code|
  {
    match Step(code, st, cap)
    case Continue(_) => true
    case Halt(o) => if o.Value? then code[st.pc] == RETURN && st.sp >= 1 else o.kind != UnknownOpcode
  }

  lemma StepOnTrack(code: seq<i32>, depths: Depths, st: State, cap: nat)
    requires LaidOut(code, depths, |st.locals|) && OnTrack(depths, st)
    ensures EndsWell(code, st, cap)
    ensures match Step(code, st, cap)
            case Continue(next) => OnTrack(depths, next) && |next.locals| == |st.locals|
            case Halt(_) => true
  {
    hide Operate;
    assert CellOk(code, depths, |st.locals|, st.pc);
    if IsBinary(code[st.pc]) {
      TrapKinds(code[st.pc], Get(st.stack, st.sp - 2), Get(st.stack, st.sp - 1));
    }
  }

  /** The machine after `k` dispatches. */
  function Nth(code: seq<i32>, st: State, cap: nat, k: nat): StepResult {
    if k == 0 then Continue(st)
    else
      match Nth(code, st, cap, k - 1)
      case Halt(o) => Halt(o)
      case Continue(s) => if s.pc >= |code| then Halt(FallOff(s.sp, s.stack)) else Step(code, s, cap)
  }

  /** A run of laid-out code, at every dispatch, is at an opcode inside the code with exactly the
      recorded stack depth: it never underflows, never meets an operand or an unknown opcode, and
      never runs off the end. */
  lemma {:induction false} RunsOnTrack(code: seq<i32>, depths: Depths, st: State, cap: nat, k: nat)
    requires LaidOut(code, depths, |st.locals|) && OnTrack(depths, st)
    ensures match Nth(code, st, cap, k)
            case Continue(s) => OnTrack(depths, s) && EndsWell(code, s, cap) && |s.locals| == |st.locals|
            case Halt(_) => true
  {
    hide Step, EndsWell;
    if k == 0 {
      StepOnTrack(code, depths, st, cap);
    } else {
      RunsOnTrack(code, depths, st, cap, k - 1);
      var before := Nth(code, st, cap, k - 1);
      if before.Continue? {
        StepOnTrack(code, depths, before.st, cap);
        var now := Nth(code, st, cap, k);
        if now.Continue? {
          StepOnTrack(code, depths, now.st, cap);
        }
      }
    }
  }

  /** The layout theorem for compiled flows: one depth table serves every run of the program. */
  lemma CompiledRunsOnTrack(flow: Node, flowName: string, declares64: bool, args: seq<int>, cap: nat, k: nat)
    requires CompileFlow(flow, flowName, declares64).Some? && Fits(GenFlow(flow, declares64).value)
    ensures var p := CompileFlow(flow, flowName, declares64).value;
            && LaidOut(p.code, DepthFlow(flow), p.localCount)
            && Bounded(DepthFlow(flow), Max(1, NeedBlock(Body(flow.children).value.children)))
            && match Nth(p.code, InitialState(p.localCount, args), cap, k)
               case Continue(s) => OnTrack(DepthFlow(flow), s) && EndsWell(p.code, s, cap)
               case Halt(_) => true
  {
    hide CellsOk, Step, EndsWell;
    var p := CompileFlow(flow, flowName, declares64).value;
    FlowLayout(flow, declares64);
    TruncateIsExact(flow, declares64);
    var ss := Body(flow.children).value.children;
    var most := Max(1, NeedBlock(ss));
    BlockBounded(ss, most);
    Both(DepthBlock(ss), [0, -1, 1], most);
    RunsOnTrack(p.code, DepthFlow(flow), InitialState(p.localCount, args), cap, k);
  }
}
