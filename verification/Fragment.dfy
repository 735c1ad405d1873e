/** Which flows the bytecode compiler accepts, read off the tree and its texts: everything else is declined, so that no
    node the machine has no code for is ever compiled to a constant. */
module Fragment {
  import opened Ast
  import opened I32
  import opened Source
  import opened Compiler

  // ----- Number literals -----

  predicate Digit(c: char) { '0' <= c <= '9' }

  predicate AllDigits(s: string) { s != "" && forall i :: 0 <= i < |s| ==> Digit(s[i]) }

  predicate Blank(s: string) { forall i :: 0 <= i < |s| ==> s[i] in {' ', '\t', '\n', '\r'} }

  /** The number written in decimal, last digit first. */
  function Decimal(s: string): int {
    if s == "" then 0 else 10 * Decimal(s[..|s| - 1]) + (s[|s| - 1] as int - '0' as int)
  }

  /** The text without its underscores. */
  function Plain(s: string): string {
    if s == "" then "" else Plain(s[..|s| - 1]) + if s[|s| - 1] == '_' then "" else [s[|s| - 1]]
  }

  /** `raw` reads: white space, at most one sign, the decimal digits of a number, and then no further digit. */
  predicate Reads(raw: string, space: string, sign: string, digits: string, rest: string) {
    && raw == space + sign + digits + rest && Blank(space) && sign in {"", "+", "-"} && AllDigits(digits)
    && (rest != "" ==> !Digit(rest[0]))
  }

  /** An integer literal: no point anywhere, and a number of at most 32 bits where a number is read. */
  ghost predicate IntegerText(text: string, n: int) {
    && '.' !in Plain(text) && I32_MIN <= n <= I32_MAX
    && exists space, sign, digits, rest ::
         Reads(Plain(text), space, sign, digits, rest) && n == if sign == "-" then -Decimal(digits) else Decimal(digits)
  }

  lemma {:induction false} StripConcat(a: string, b: string)
    ensures StripUnderscores(a + b) == StripUnderscores(a) + StripUnderscores(b)
  {
    if a == "" {
      assert a + b == b;
    } else {
      assert (a + b)[1..] == a[1..] + b;
      StripConcat(a[1..], b);
    }
  }

  lemma {:induction false} StripIsPlain(s: string)
    ensures StripUnderscores(s) == Plain(s)
  {
    if s != "" {
      var n := |s| - 1;
      assert s == s[..n] + [s[n]];
      StripConcat(s[..n], [s[n]]);
      StripIsPlain(s[..n]);
      assert [s[n]][1..] == "";
    }
  }

  lemma {:induction false} Shifted(s: string, acc: nat, more: string)
    requires AllDigits(s) && (more != "" ==> !Digit(more[0]))
    ensures DigitsValue(s + more, acc) == acc * Power(|s|) + Decimal(s)
    decreases |s|
  {
    var n := |s| - 1;
    var d: int := s[n] as int - '0' as int;
    if n == 0 {
      OneDigit(s);
      assert (s + more)[1..] == more && (s + more)[0] == s[0];
      assert DigitsValue(more, acc * 10 + d) == acc * 10 + d;
    } else {
      FirstDigits(s, acc, more);
    }
  }

  lemma OneDigit(s: string)
    requires |s| == 1
    ensures Decimal(s) == s[0] as int - '0' as int && Power(1) == 10
  {
    assert s[..0] == "" && Decimal(s[..0]) == 0;
    assert Power(0) == 1;
  }

  function Power(n: nat): nat { if n == 0 then 1 else 10 * Power(n - 1) }

  lemma {:induction false} FirstDigits(s: string, acc: nat, more: string)
    requires AllDigits(s) && |s| > 1 && (more != "" ==> !Digit(more[0]))
    ensures DigitsValue(s + more, acc) == acc * Power(|s|) + Decimal(s)
    decreases |s|, 0
  {
    var d: int := s[0] as int - '0' as int;
    assert (s + more)[1..] == s[1..] + more && (s + more)[0] == s[0];
    Shifted(s[1..], acc * 10 + d, more);
    DecimalFront(s);
    Spread(acc, d, Power(|s| - 1));
  }

  lemma Spread(acc: int, d: int, p: int)
    ensures (acc * 10 + d) * p == acc * (10 * p) + d * p
  {
  }

  lemma {:induction false} DecimalFront(s: string)
    requires AllDigits(s)
    ensures Decimal(s) == (s[0] as int - '0' as int) * Power(|s| - 1) + Decimal(s[1..])
  {
    var n := |s| - 1;
    var d: int := s[0] as int - '0' as int;
    var last: int := s[n] as int - '0' as int;
    if n == 0 {
      assert s[..0] == "" && s[1..] == "";
    } else {
      DecimalFront(s[..n]);
      assert s[..n][1..] == s[1..][..n - 1] && s[1..][n - 1] == s[n];
      assert Decimal(s[1..]) == 10 * Decimal(s[1..][..n - 1]) + last;
      Regroup(d, Power(n - 1), Decimal(s[..n][1..]), last);
    }
  }

  lemma Regroup(d: int, p: int, middle: int, last: int)
    ensures 10 * (d * p + middle) + last == d * (10 * p) + (10 * middle + last)
  {
  }

  lemma {:induction false} SkipBlank(space: string, rest: string)
    requires Blank(space) && (rest != "" ==> rest[0] !in {' ', '\t', '\n', '\r'})
    ensures TrimLeft(space + rest) == rest
  {
    if space == "" {
      assert space + rest == rest;
    } else {
      assert (space + rest)[1..] == space[1..] + rest;
      SkipBlank(space[1..], rest);
    }
  }

  lemma {:induction false} BlankFront(s: string) returns (space: string)
    ensures Blank(space) && s == space + TrimLeft(s)
    ensures TrimLeft(s) != "" ==> TrimLeft(s)[0] !in {' ', '\t', '\n', '\r'}
  {
    if s != "" && s[0] in {' ', '\t', '\n', '\r'} {
      var more := BlankFront(s[1..]);
      space := [s[0]] + more;
    } else {
      space := "";
    }
  }

  lemma {:induction false} DigitRun(s: string) returns (digits: string, rest: string)
    requires s != "" && Digit(s[0])
    ensures s == digits + rest && AllDigits(digits) && (rest != "" ==> !Digit(rest[0]))
  {
    if |s| > 1 && Digit(s[1]) {
      digits, rest := DigitRun(s[1..]);
      digits := [s[0]] + digits;
    } else {
      digits, rest := s[..1], s[1..];
    }
  }

  /** The value that the text after the white space reads as. */
  function Signed(s: string): int {
    var digits := if s != "" && s[0] in {'-', '+'} then s[1..] else s;
    var v: int := DigitsValue(digits, 0);
    if s != "" && s[0] == '-' then -v else v
  }

  lemma ReadsValue(raw: string, space: string, sign: string, digits: string, rest: string)
    requires Reads(raw, space, sign, digits, rest)
    ensures var s := TrimLeft(raw);
      var after := if s != "" && s[0] in {'-', '+'} then s[1..] else s;
      && after != "" && Digit(after[0]) && Signed(s) == if sign == "-" then -Decimal(digits) else Decimal(digits)
  {
    var s := sign + digits + rest;
    assert raw == space + s && s[0] == (sign + digits)[0];
    SkipBlank(space, s);
    assert s[|sign|..] == digits + rest;
    Shifted(digits, 0, rest);
    assert sign == "" ==> s == digits + rest && s[0] == digits[0];
    assert sign != "" ==> s[0] == sign[0] && s[1..] == digits + rest;
  }

  lemma ReadsSome(raw: string)
    requires var s := TrimLeft(raw); var after := if s != "" && s[0] in {'-', '+'} then s[1..] else s; after != "" && Digit(after[0])
    ensures exists space, sign, digits, rest :: Reads(raw, space, sign, digits, rest)
  {
    var space := BlankFront(raw);
    var s := TrimLeft(raw);
    var sign := if s[0] == '-' then "-" else if s[0] == '+' then "+" else "";
    assert s == sign + s[|sign|..];
    hide TrimLeft, Reads;
    var digits, rest := DigitRun(s[|sign|..]);
    Joined(raw, space, sign, digits, rest, s);
  }

  lemma Joined(raw: string, space: string, sign: string, digits: string, rest: string, s: string)
    requires raw == space + s && s == sign + (digits + rest)
    requires Blank(space) && sign in {"", "+", "-"} && AllDigits(digits) && (rest != "" ==> !Digit(rest[0]))
    ensures Reads(raw, space, sign, digits, rest)
  {
    hide Blank, AllDigits;
    assert raw == space + sign + digits + rest;
  }

  /** A number literal has a value exactly when its text is an integer of at most 32 bits. */
  lemma LiteralIff(text: string, n: i32)
    ensures LiteralValue(text) == Some(n) <==> IntegerText(text, n)
  {
    StripIsPlain(text);
    var raw := Plain(text);
    hide Plain, StripUnderscores, Reads, Decimal, DigitsValue, TrimLeft;
    if LiteralValue(text) == Some(n) {
      ReadsSome(raw);
      var space, sign, digits, rest :| Reads(raw, space, sign, digits, rest);
      ReadsValue(raw, space, sign, digits, rest);
    }
    if IntegerText(text, n) {
      var space, sign, digits, rest :|
        Reads(raw, space, sign, digits, rest) && n == if sign == "-" then -Decimal(digits) else Decimal(digits);
      ReadsValue(raw, space, sign, digits, rest);
    }
  }

  // ----- Names -----

  predicate Space(c: char) { c in {' ', '\t', '\n', '\r'} }

  /** `name` is `text` without the white space around it. */
  ghost predicate Trimmed(text: string, name: string) {
    && (name != "" ==> !Space(name[0]) && !Space(name[|name| - 1]))
    && exists before, after :: Blank(before) && Blank(after) && text == before + name + after
  }

  /** The text before the first colon, or all of it, without the white space around it. */
  ghost predicate Names(value: string, name: string) {
    exists i :: 0 <= i <= |value| && ':' !in value[..i] && (i < |value| ==> value[i] == ':')
        && Trimmed(value[..i], name)
  }

  lemma {:induction false} BlankBack(s: string) returns (space: string)
    ensures Blank(space) && s == TrimRight(s) + space
    ensures TrimRight(s) != "" ==> !Space(TrimRight(s)[|TrimRight(s)| - 1])
  {
    if s != "" && Space(s[|s| - 1]) {
      var more := BlankBack(s[..|s| - 1]);
      space := more + [s[|s| - 1]];
    } else {
      space := "";
    }
  }

  lemma {:induction false} SkipBack(rest: string, space: string)
    requires Blank(space) && (rest != "" ==> !Space(rest[|rest| - 1]))
    ensures TrimRight(rest + space) == rest
  {
    var n := |space|;
    if n == 0 {
      assert rest + space == rest;
    } else {
      var s := rest + space;
      assert s[..|s| - 1] == rest + space[..n - 1] && s[|s| - 1] == space[n - 1];
      SkipBack(rest, space[..n - 1]);
    }
  }

  lemma {:induction false} AllBlank(s: string)
    requires Blank(s)
    ensures TrimLeft(s) == "" && TrimRight("") == ""
  {
    assert s + "" == s;
    SkipBlank(s, "");
  }

  /** A name is its text without the white space at either end. */
  lemma TrimIff(text: string, name: string)
    ensures Trim(text) == name <==> Trimmed(text, name)
  {
    hide TrimLeft, TrimRight, Blank;
    var before := BlankFront(text);
    var left := TrimLeft(text);
    var after := BlankBack(left);
    TrimParts(text, before, left, Trim(text), after);
    forall b, a | Blank(b) && Blank(a) && text == b + name + a
        && (name != "" ==> !Space(name[0]) && !Space(name[|name| - 1]))
      ensures Trim(text) == name
    {
      if name == "" {
        BlankAll(text, b, a);
        AllBlank(text);
      } else {
        Regrouped(text, b, name, a);
        SkipBlank(b, name + a);
        SkipBack(name, a);
      }
    }
  }

  lemma Regrouped(text: string, b: string, name: string, a: string)
    requires text == b + name + a && name != ""
    ensures text == b + (name + a) && (name + a)[0] == name[0]
  {
  }

  lemma BlankAll(text: string, b: string, a: string)
    requires Blank(b) && Blank(a) && text == b + "" + a
    ensures Blank(text)
  {
  }

  lemma TrimParts(text: string, before: string, left: string, name: string, after: string)
    requires Blank(before) && Blank(after) && text == before + left && left == name + after
    requires (left != "" ==> !Space(left[0])) && (name != "" ==> !Space(name[|name| - 1]))
    ensures Trimmed(text, name)
  {
    hide Blank;
    assert text == before + name + after;
  }

  /** The name that a declaration of this text binds. */
  lemma NamesIff(value: string, name: string)
    ensures BindingName(value) == name <==> Names(value, name)
  {
    hide Trim, Trimmed;
    var i := IndexOf(value, ':');
    TrimIff(value[..i], name);
    forall k | 0 <= k <= |value| && ':' !in value[..k] && (k < |value| ==> value[k] == ':') ensures k == i {
      assert value[0..k] == value[..k] && value[0..i] == value[..i];
      FirstOnly(value, 0, k, i);
    }
  }

  // ----- The fragment -----

  /** An expression the machine has code for, with these names bound. */
  ghost predicate InExpr(e: Node, bound: set<string>)
    decreases e
  {
    match e.kind
    case NumberLiteral => exists n :: IntegerText(e.value, n)
    case BoolLiteral => true
    case Identifier => e.value in {"true", "false"} || e.value in bound
    case BinaryExpr =>
      && e.value in {"+", "-", "*", "/", "%", "<", "<=", ">", ">=", "==", "!=", "&&", "||", "and", "or"}
      && |e.children| >= 2 && InExpr(e.children[0], bound) && InExpr(e.children[1], bound)
    case UnaryExpr => e.value in {"-", "!"} && |e.children| >= 1 && InExpr(e.children[0], bound)
    case _ => false
  }

  ghost predicate InOperand(children: seq<Node>, bound: set<string>) {
    children != [] ==> InExpr(children[0], bound)
  }

  /** The names that a statement declares or assigns, wherever it does so. */
  function Declared(n: Node): set<string>
    decreases n
  {
    match n.kind
    case LetDecl | MutDecl => {BindingName(n.value)}
    case AssignStmt => {Trim(n.value)}
    case IfStmt => (if |n.children| > 1 then Declared(n.children[1]) else {})
        + if |n.children| > 2 then Declared(n.children[2]) else {}
    case WhileStmt => if |n.children| > 1 then Declared(n.children[1]) else {}
    case Block => DeclaredIn(n.children)
    case _ => {}
  }

  function DeclaredIn(ss: seq<Node>): set<string>
    decreases ss
  {
    if ss == [] then {} else Declared(ss[0]) + DeclaredIn(ss[1..])
  }

  /** A statement the machine has code for: its expressions use only names written before. */
  ghost predicate InStmt(n: Node, bound: set<string>)
    decreases n
  {
    match n.kind
    case LetDecl | MutDecl | AssignStmt | ReturnStmt => InOperand(n.children, bound)
    case IfStmt =>
      && n.children != [] && InExpr(n.children[0], bound) && (|n.children| > 1 ==> InStmt(n.children[1], bound))
      && (|n.children| > 2 ==> InStmt(n.children[2], bound + Declared(n.children[1])))
    case WhileStmt => n.children != [] && InExpr(n.children[0], bound)
        && (|n.children| > 1 ==> InStmt(n.children[1], bound))
    case Block => InBlock(n.children, bound)
    case _ => false
  }

  ghost predicate InBlock(ss: seq<Node>, bound: set<string>)
    decreases ss
  {
    ss != [] ==> InStmt(ss[0], bound) && InBlock(ss[1..], bound + Declared(ss[0]))
  }

  /** A parameter with no type, or with an integer type between its first colon and the next. */
  predicate IntegerParam(value: string) {
    || ':' !in value
    || exists i, j :: 0 <= i < j <= |value| && TypeAt(value, i, j) &&
         Trim(value[i + 1..j]) in {"Int", "Int8", "Int16", "Int32", "Bool", "Byte"}
  }

  predicate TypeAt(value: string, i: int, j: int) {
    && 0 <= i < j <= |value| && value[i] == ':' && ':' !in value[..i] && ':' !in value[i + 1..j]
        && (j < |value| ==> value[j] == ':')
  }

  /** The body is the first block, and the parameters are bound in it. */
  ghost predicate InFragment(flow: Node, declares64: bool) {
    && !declares64 && (forall i :: 0 <= i < |flow.children| && flow.children[i].kind.ParamDecl? ==> IntegerParam(flow.children[i].value))
    && exists b: nat :: b < |flow.children| && FirstBlock(flow.children, b)
        && InBlock(flow.children[b].children, Parameters(flow.children))
  }

  predicate FirstBlock(children: seq<Node>, b: nat) {
    b < |children| && children[b].kind.Block? && forall i :: 0 <= i < b ==> !children[i].kind.Block?
  }

  function Parameters(children: seq<Node>): set<string> {
    set i | 0 <= i < |children| && children[i].kind.ParamDecl? :: BindingName(children[i].value)
  }

  // ----- The compiler accepts exactly the fragment -----

  lemma OperatorKnown(op: string)
    ensures BinaryOpcode(op).Some? <==>
      op in {"+", "-", "*", "/", "%", "<", "<=", ">", ">=", "==", "!=", "&&", "||", "and", "or"}
    ensures UnaryOpcode(op).Some? <==> op in {"-", "!"}
  {
  }

  lemma LiteralKnown(text: string)
    ensures LiteralValue(text).Some? <==> exists n :: IntegerText(text, n)
  {
    hide LiteralValue, IntegerText;
    if LiteralValue(text).Some? { LiteralIff(text, LiteralValue(text).value); }
    if n :| IntegerText(text, n) {
      InThirtyTwo(text, n);
      LiteralIff(text, n);
    }
  }

  lemma InThirtyTwo(text: string, n: int)
    requires IntegerText(text, n)
    ensures I32_MIN <= n <= I32_MAX
  {
  }

  lemma {:induction false} ExprIff(e: Node, slots: Slots)
    ensures GenExpr(e, slots).Some? <==> InExpr(e, slots.Keys)
    decreases e
  {
    hide LiteralValue, BinaryOpcode, UnaryOpcode, IntegerText;
    OperatorKnown(e.value);
    LiteralKnown(e.value);
    if e.kind.BinaryExpr? && |e.children| >= 2 {
      ExprIff(e.children[0], slots);
      ExprIff(e.children[1], slots);
    }
    if e.kind.UnaryExpr? && |e.children| >= 1 { ExprIff(e.children[0], slots); }
  }

  lemma OperandIff(children: seq<Node>, slots: Slots)
    ensures GenFirst(children, slots).Some? <==> InOperand(children, slots.Keys)
  {
    hide GenExpr, InExpr;
    if children != [] { ExprIff(children[0], slots); }
  }

  lemma StoreIff(children: seq<Node>, name: string, slots: Slots)
    ensures GenStore(children, name, slots).Some? <==> InOperand(children, slots.Keys)
    ensures GenStore(children, name, slots).Some?
        ==> GenStore(children, name, slots).value.slots.Keys == slots.Keys + {name}
  {
    hide GenFirst, InOperand;
    OperandIff(children, slots);
  }

  /** A fragment was made, and its slots are for these names. */
  predicate Binds(f: Option<Fragment>, ok: bool, names: set<string>) {
    (f.Some? <==> ok) && (f.Some? ==> f.value.slots.Keys == names)
  }

  lemma {:induction false} StmtIff(n: Node, base: nat, slots: Slots)
    ensures Binds(GenStmt(n, base, slots), InStmt(n, slots.Keys), slots.Keys + Declared(n))
    decreases n, 2
  {
    hide GenStore, GenFirst, GenIf, GenWhile, GenBlock, InOperand, InBlock, InExpr, BindingName, Trim;
    match n.kind
    case LetDecl | MutDecl => StoreIff(n.children, BindingName(n.value), slots);
    case AssignStmt => StoreIff(n.children, Trim(n.value), slots);
    case ReturnStmt => OperandIff(n.children, slots);
    case IfStmt => IfIff(n, base, slots);
    case WhileStmt => WhileIff(n, base, slots);
    case Block => BlockIff(n.children, base, slots);
    case _ =>
  }

  lemma {:induction false} SecondIff(children: seq<Node>, base: nat, slots: Slots)
    ensures Binds(GenSecond(children, base, slots), |children| > 1 ==> InStmt(children[1], slots.Keys),
                  slots.Keys + if |children| > 1 then Declared(children[1]) else {})
    decreases children, 0
  {
    hide GenStmt, InStmt, Declared;
    if |children| > 1 { StmtIff(children[1], base, slots); }
  }

  lemma {:induction false} IfIff(n: Node, base: nat, slots: Slots)
    requires n.kind.IfStmt?
    ensures Binds(GenIf(n, base, slots), InStmt(n, slots.Keys), slots.Keys + Declared(n))
    decreases n, 1
  {
    hide GenExpr, GenSecond, InExpr, GenStmt;
    if n.children != [] {
      ExprIff(n.children[0], slots);
      if GenExpr(n.children[0], slots).Some? {
        var c := GenExpr(n.children[0], slots).value;
        SecondIff(n.children, base + |c| + 2, slots);
        var t := GenSecond(n.children, base + |c| + 2, slots);
        if t.Some? && |n.children| > 2 { StmtIff(n.children[2], base + |c| + 2 + |t.value.code| + 2, t.value.slots); }
      }
    }
  }

  lemma {:induction false} WhileIff(n: Node, base: nat, slots: Slots)
    requires n.kind.WhileStmt?
    ensures Binds(GenWhile(n, base, slots), InStmt(n, slots.Keys), slots.Keys + Declared(n))
    decreases n, 1
  {
    hide GenExpr, GenSecond, InExpr;
    if n.children != [] {
      ExprIff(n.children[0], slots);
      if GenExpr(n.children[0], slots).Some? {
        SecondIff(n.children, base + |GenExpr(n.children[0], slots).value| + 2, slots);
      }
    }
  }

  lemma {:induction false} BlockIff(ss: seq<Node>, base: nat, slots: Slots)
    ensures Binds(GenBlock(ss, base, slots), InBlock(ss, slots.Keys), slots.Keys + DeclaredIn(ss))
    decreases ss, 1
  {
    hide GenStmt, InStmt, Declared;
    if ss != [] {
      StmtIff(ss[0], base, slots);
      var f := GenStmt(ss[0], base, slots);
      if f.Some? { BlockIff(ss[1..], base + |f.value.code|, f.value.slots); }
    }
  }

  lemma {:induction false} ParamsBound(children: seq<Node>)
    ensures forall x :: x in ParamNames(children) <==> x in Parameters(children)
  {
    hide BindingName;
    if children != [] {
      ParamsBound(children[1..]);
      var rest := children[1..];
      assert forall i :: 0 <= i < |rest| ==> rest[i] == children[i + 1];
      assert Parameters(children) == Parameters(rest)
          + if children[0].kind.ParamDecl? then {BindingName(children[0].value)} else {} by {
        assert forall i :: 0 < i < |children| ==> children[i] == rest[i - 1];
      }
    }
  }

  lemma {:induction false} ParamsConcat(a: seq<Node>, b: seq<Node>)
    ensures ParamNames(a + b) == ParamNames(a) + ParamNames(b)
  {
    hide BindingName;
    if a == [] {
      assert a + b == b;
    } else {
      assert (a + b)[1..] == a[1..] + b;
      ParamsConcat(a[1..], b);
    }
  }

  /** The parameter declared by the child at `i` comes right after those declared by the children before it. */
  lemma ParamsInOrder(children: seq<Node>, i: nat)
    requires i < |children| && children[i].kind.ParamDecl?
    ensures var before := ParamNames(children[..i]);
            before + [BindingName(children[i].value)] <= ParamNames(children)
  {
    hide BindingName;
    assert children == children[..i] + children[i..] && children[i..][0] == children[i];
    ParamsConcat(children[..i], children[i..]);
  }

  lemma {:induction false} SlotKeys(names: seq<string>)
    ensures forall x :: x in SlotsFor(names) <==> x in names
  {
    if names != [] {
      SlotKeys(names[..|names| - 1]);
      assert names == names[..|names| - 1] + [names[|names| - 1]];
    }
  }

  lemma {:induction false} BodyIsFirst(children: seq<Node>)
    ensures Body(children).Some? <==> exists b: nat :: FirstBlock(children, b)
    ensures forall b: nat :: FirstBlock(children, b) ==> Body(children) == Some(children[b])
  {
    if children != [] && !children[0].kind.Block? {
      var rest := children[1..];
      BodyIsFirst(rest);
      forall b: nat | FirstBlock(children, b) ensures b > 0 && FirstBlock(rest, b - 1) && rest[b - 1] == children[b] {}
      if b: nat :| FirstBlock(rest, b) { assert FirstBlock(children, b + 1); }
    } else if children != [] {
      assert FirstBlock(children, 0);
    }
  }

  /** Two places that are both the end of the run of other characters from `start` are one. */
  lemma FirstOnly(value: string, start: nat, a: int, b: int)
    requires start <= a <= |value| && start <= b <= |value| && ':' !in value[start..a] && ':' !in value[start..b]
    requires (a < |value| ==> value[a] == ':') && (b < |value| ==> value[b] == ':')
    ensures a == b
  {
    assert forall k :: start <= k < a ==> value[k] == value[start..a][k - start];
    assert forall k :: start <= k < b ==> value[k] == value[start..b][k - start];
  }

  lemma IntegerParamIff(value: string)
    ensures ParamType(value) in {"Int", "Int8", "Int16", "Int32", "Bool", "Byte"} <==> IntegerParam(value)
  {
    hide Trim;
    var i := IndexOf(value, ':');
    if i < |value| {
      var rest := value[i + 1..];
      var j := i + 1 + IndexOf(rest, ':');
      assert value[i + 1..j] == rest[..j - (i + 1)];
      assert TypeAt(value, i, j);
      forall a, b | TypeAt(value, a, b) ensures a == i && b == j {
        FirstOnly(value, 0, a, i);
        FirstOnly(value, i + 1, b, j);
      }
    } else {
      assert value[..i] == value;
    }
  }

  /** The compiler accepts a flow exactly when it is in the fragment: a call, a float, a literal outside 32 bits, an
      unbound name, an unknown operator or any other statement is never compiled. */
  lemma CompiledIff(flow: Node, flowName: string, declares64: bool)
    ensures CompileFlow(flow, flowName, declares64).Some? <==> InFragment(flow, declares64)
  {
    hide GenBlock, InBlock, ParamType, IntegerParam, SlotsFor, Truncate, Parameters, ParamNames, Body, FirstBlock;
    forall i | 0 <= i < |flow.children|
      ensures ParamType(flow.children[i].value) in {"Int", "Int8", "Int16", "Int32", "Bool", "Byte"}
          <==> IntegerParam(flow.children[i].value)
    {
      IntegerParamIff(flow.children[i].value);
    }
    BodyIsFirst(flow.children);
    ParamsBound(flow.children);
    var slots := SlotsFor(ParamNames(flow.children));
    SlotKeys(ParamNames(flow.children));
    assert slots.Keys == Parameters(flow.children);
    forall b: nat | FirstBlock(flow.children, b) ensures b < |flow.children|
        && Body(flow.children) == Some(flow.children[b]) {
      InList(flow.children, b);
    }
    if Body(flow.children).Some? { BlockIff(Body(flow.children).value.children, 0, slots); }
  }

  lemma InList(children: seq<Node>, b: nat)
    requires FirstBlock(children, b)
    ensures b < |children|
  {
  }
}
