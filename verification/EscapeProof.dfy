/** Running a flow body: no handle of a record the analysis calls local ever leaves it. */
module EscapeProof {
  import opened Ast
  import opened Escape

  // ----- Executions -----

  datatype Value = Num(n: int) | Ref(h: nat)

  /** `leaked` holds the handles that were returned, passed to a call, stored in a record or
      otherwise handed to something outside the variables; `tracked` those allocated at a binding
      of the record under analysis. */
  datatype State = State(env: map<string, Value>, heap: map<nat, map<string, Value>>, leaked: set<nat>, tracked: set<nat>)

  /** A value code outside the flow can produce: a number or a handle it was given. */
  predicate Visible(st: State, v: Value) {
    v.Num? || v.h in st.leaked
  }

  /** How one node was executed. Everything but variables, field reads, bindings and record
      literals runs any of its children, in any order and any number of times: that covers blocks,
      branches, loops, matches and nested functions, whatever their conditions say. */
  datatype Run =
    | Use
    | Field(receiver: Run)
    | Bound(init: Run)
    | Alloc(steps: Steps, h: nat, fields: map<string, Value>)
    | Any(steps: Steps, result: Value)

  /** Children executed for their values, and binders (loop or pattern variables) set from outside. */
  datatype Steps = Done | Child(i: nat, run: Run, rest: Steps) | Binder(name: string, v: Value, rest: Steps)

  /** The variable a binding declares: the last word before the colon, past any safety qualifier. */
  function DeclaredName(n: Node): string {
    if n.kind.AssignStmt? then Trim(n.value) else LastWord(BindingName(n.value))
  }

  function LastWord(s: string): string {
    var i := IndexOf(s, ' ');
    if i == |s| then s else LastWord(s[i + 1..])
  }

  /** The type checker's guarantee, whatever the gate thinks of it: a literal of a known type has only that type's
      fields, and those declared `Int` or `Bool` hold numbers. A field of any other type may hold a handle, and nothing
      is known of a literal whose type is not known. */
  predicate Conforms(n: Node, fields: map<string, Value>, types: FieldTypes) {
    n.typeName in types ==>
      forall f :: f in fields ==> f in types[n.typeName] && (types[n.typeName][f] in {"Int", "Bool"} ==> fields[f].Num?)
  }

  /** The nodes that set a variable, and those that allocate a record, stated apart from the analysis. */
  predicate Assigns(n: Node) { n.kind.LetDecl? || n.kind.MutDecl? || n.kind.AssignStmt? }

  predicate MakesRecord(n: Node) { n.kind.CallExpr? && n.value in {"#record", "#record-update"} }

  /** State and value after executing `n` as `run` says; `None` when `run` does not fit `n`. */
  function Exec(n: Node, run: Run, st: State, record: string, types: FieldTypes): Option<(State, Value)>
    decreases run
  {
    match run
    case Use =>
      if n.kind.Identifier? && n.value in st.env then Some((st, st.env[n.value])) else None
    case Field(receiver) =>
      if !n.kind.MemberExpr? || n.children == [] || (n.children[0].kind.Identifier? && !receiver.Use?) then None
      else
        (match Exec(n.children[0], receiver, st, record, types)
         case None => None
         case Some((after, v)) =>
           if v.Ref? && v.h in after.heap && n.value in after.heap[v.h]
           then Some((after, after.heap[v.h][n.value]))
           else None)
    case Bound(init) =>
      if !Assigns(n) || n.children == [] || (n.children[0].kind.Identifier? && !init.Use?) then None
      else
        (match Exec(n.children[0], init, st, record, types)
         case None => None
         case Some((after, v)) => Some((Bindings(n, v, after, record), Num(0))))
    case Alloc(steps, h, fields) =>
      if !MakesRecord(n) then None
      else
        (match ExecSteps(n, steps, st, record, types)
         case None => None
         case Some(after) =>
           if h in after.heap || !Conforms(n, fields, types) || !(forall f :: f in fields ==> Visible(after, fields[f]))
           then None
           else Some((after.(heap := after.heap[h := fields]), Ref(h))))
    case Any(steps, result) =>
      if n.kind.MemberExpr? || Assigns(n) || MakesRecord(n) then None
      else
        (match ExecSteps(n, steps, st, record, types)
         case None => None
         case Some(after) => if Visible(after, result) then Some((after, result)) else None)
  }

  /** Store the initialiser's value; a record literal bound to the record's own name is tracked. */
  function Bindings(n: Node, v: Value, st: State, record: string): State
    requires n.children != []
  {
    var x := DeclaredName(n);
    st.(env := st.env[x := v],
        tracked := if x == record && MakesRecord(n.children[0]) && v.Ref? then st.tracked + {v.h} else st.tracked)
  }

  /** Each executed child hands its value on: it leaks. */
  function ExecSteps(n: Node, steps: Steps, st: State, record: string, types: FieldTypes): Option<State>
    decreases steps
  {
    match steps
    case Done => Some(st)
    case Child(i, run, rest) =>
      if i >= |n.children| then None
      else
        (match Exec(n.children[i], run, st, record, types)
         case None => None
         case Some((after, v)) => ExecSteps(n, rest, Leak(after, v), record, types))
    case Binder(x, v, rest) =>
      if Visible(st, v) then ExecSteps(n, rest, st.(env := st.env[x := v]), record, types) else None
  }

  function Leak(st: State, v: Value): State {
    if v.Ref? then st.(leaked := st.leaked + {v.h}) else st
  }

  // ----- Soundness -----

  /** Every binding under the node declares exactly the name the analysis reads off it. */
  predicate PlainNames(n: Node)
    decreases n
  {
    && (IsBinding(n) ==> BindingName(n.value) == DeclaredName(n) != "")
    && forall i :: 0 <= i < |n.children| ==> PlainNames(n.children[i])
  }

  ghost predicate Known(st: State, v: Value) {
    v.Ref? ==> v.h in st.heap
  }

  /** All handles are allocated, tracked ones have not leaked, only alias variables hold them, and
      no record field does. */
  ghost predicate Inv(st: State, aliases: set<string>) {
    && st.leaked <= st.heap.Keys && st.tracked <= st.heap.Keys && st.tracked !! st.leaked
    && (forall x :: x in st.env ==> Known(st, st.env[x]))
    && (forall x :: x in st.env && st.env[x].Ref? && st.env[x].h in st.tracked ==> x in aliases)
    && forall h, f :: h in st.heap && f in st.heap[h] ==>
         Known(st, st.heap[h][f]) && (st.heap[h][f].Ref? ==> st.heap[h][f].h !in st.tracked)
  }

  /** Nothing refers to this handle yet. */
  ghost predicate Unshared(st: State, h: nat) {
    && h !in st.leaked
    && (forall x :: x in st.env ==> st.env[x] != Ref(h))
    && forall k, f :: k in st.heap && f in st.heap[k] ==> st.heap[k][f] != Ref(h)
  }

  /** What executing a node keeps: the invariant, and a tracked handle only comes out of a bare
      alias name. */
  ghost predicate Kept(n: Node, after: State, v: Value, aliases: set<string>) {
    && Inv(after, aliases) && Known(after, v)
    && (v.Ref? && v.h in after.tracked ==> IsAliasId(n, aliases))
    && (IsRecordLiteral(n) ==> v.Ref? && Unshared(after, v.h))
  }

  lemma {:induction false} ClosedChild(n: Node, i: nat, aliases: set<string>)
    requires Closed(Binds(n), aliases) && i < |n.children|
    ensures Closed(Binds(n.children[i]), aliases)
  {
    InAll(n.children, i);
  }

  lemma {:induction false} InAll(ns: seq<Node>, i: nat)
    requires i < |ns|
    ensures forall b :: b in Binds(ns[i]) ==> b in BindsAll(ns)
  {
    if i > 0 {
      assert ns[1..][i - 1] == ns[i];
      InAll(ns[1..], i - 1);
    }
  }

  /** The node's own uses are local, its bindings stay inside the alias set. */
  ghost predicate Quiet(n: Node, aliases: set<string>) {
    !Escapes(n, aliases) && Closed(Binds(n), aliases) && PlainNames(n)
  }

  lemma {:induction false} ExecKeeps(n: Node, run: Run, st: State, record: string, types: FieldTypes,
        aliases: set<string>)
    requires Quiet(n, aliases) || (IsAliasId(n, aliases) && run.Use?)
    requires record in aliases && Inv(st, aliases)
    requires Exec(n, run, st, record, types).Some?
    ensures var (after, v) := Exec(n, run, st, record, types).value; Kept(n, after, v, aliases)
    decreases run, 1
  {
    match run {
      case Use =>
      case Field(receiver) =>
        ClosedChild(n, 0, aliases);
        ExecKeeps(n.children[0], receiver, st, record, types, aliases);
      case Bound(init) => BoundKeeps(n, run, st, record, types, aliases);
      case Alloc(steps, h, fields) => AllocKeeps(n, run, st, record, types, aliases);
      case Any(steps, result) => StepsKeep(n, steps, st, record, types, aliases);
    }
  }

  lemma {:induction false} AllocKeeps(n: Node, run: Run, st: State, record: string, types: FieldTypes,
        aliases: set<string>)
    requires Quiet(n, aliases) && run.Alloc?
    requires record in aliases && Inv(st, aliases)
    requires Exec(n, run, st, record, types).Some?
    ensures var (after, v) := Exec(n, run, st, record, types).value; Kept(n, after, v, aliases)
    decreases run, 0
  {
    StepsKeep(n, run.steps, st, record, types, aliases);
  }

  lemma {:induction false} BoundKeeps(n: Node, run: Run, st: State, record: string, types: FieldTypes,
        aliases: set<string>)
    requires Quiet(n, aliases) && run.Bound?
    requires record in aliases && Inv(st, aliases)
    requires Exec(n, run, st, record, types).Some?
    ensures var (after, v) := Exec(n, run, st, record, types).value; Kept(n, after, v, aliases)
    decreases run, 0
  {
    var e := n.children[0];
    ClosedChild(n, 0, aliases);
    ExecKeeps(e, run.init, st, record, types, aliases);
    assert Bind(BindingName(n.value), Some(e)) in Binds(n);
    var (after, v) := Exec(e, run.init, st, record, types).value;
    BindingKeeps(n, v, after, record, aliases);
  }

  /** Storing a value that is untracked, held by an alias, or a record nothing refers to yet. */
  lemma BindingKeeps(n: Node, v: Value, st: State, record: string, aliases: set<string>)
    requires n.children != [] && Inv(st, aliases) && Known(st, v) && record in aliases
    requires v.Ref? && v.h in st.tracked ==> DeclaredName(n) in aliases
    requires IsRecordLiteral(n.children[0]) && v.Ref? ==> Unshared(st, v.h)
    ensures Inv(Bindings(n, v, st, record), aliases)
  {
    hide DeclaredName;
  }

  lemma {:induction false} StepsKeep(n: Node, steps: Steps, st: State, record: string, types: FieldTypes,
        aliases: set<string>)
    requires Quiet(n, aliases) && !n.kind.MemberExpr? && !IsBinding(n)
    requires record in aliases && Inv(st, aliases)
    requires ExecSteps(n, steps, st, record, types).Some?
    ensures Inv(ExecSteps(n, steps, st, record, types).value, aliases)
    decreases steps
  {
    match steps
    case Done =>
    case Child(i, run, rest) =>
      ClosedChild(n, i, aliases);
      ExecKeeps(n.children[i], run, st, record, types, aliases);
      var (after, v) := Exec(n.children[i], run, st, record, types).value;
      StepsKeep(n, rest, Leak(after, v), record, types, aliases);
    case Binder(x, v, rest) =>
      StepsKeep(n, rest, st.(env := st.env[x := v]), record, types, aliases);
  }

  /** Soundness of the per-record answer: in every execution of a body with plain binding names,
      if the record does not escape then no handle allocated at one of its bindings leaves the
      flow's variables, and only its aliases ever hold one. */
  lemma LocalRecordsStayLocal(record: string, body: Node, aliases: set<string>, run: Run, start: State,
        types: FieldTypes)
    requires IsAliasSet(record, Binds(body), aliases) && !Escapes(body, aliases) && PlainNames(body)
    requires Inv(start, aliases) && start.tracked == {}
    requires body.kind.Block? && Exec(body, run, start, record, types).Some?
    ensures var (after, v) := Exec(body, run, start, record, types).value;
            && after.tracked !! after.leaked
            && (v.Ref? ==> v.h !in after.tracked)
            && (forall x :: x in after.env && after.env[x].Ref? && after.env[x].h in after.tracked ==> x in aliases)
            && (forall h, f :: h in after.heap && f in after.heap[h] && after.heap[h][f].Ref? ==>
                  after.heap[h][f].h !in after.tracked)
  {
    ExecKeeps(body, run, start, record, types, aliases);
  }

  // ----- The window gate -----

  /** Old records are untouched and every record allocated since holds only numbers. */
  ghost predicate OnlyScalarsAdded(before: State, after: State) {
    && (forall h :: h in before.heap ==> h in after.heap && after.heap[h] == before.heap[h])
    && forall h, f :: h in after.heap && h !in before.heap && f in after.heap[h] ==> after.heap[h][f].Num?
  }

  ghost predicate AllScalar(n: Node, types: FieldTypes) {
    forall literal :: literal in RecordLiterals(n) ==> ScalarOnly(literal, types)
  }

  lemma {:induction false} ScalarChild(n: Node, i: nat, types: FieldTypes)
    requires AllScalar(n, types) && i < |n.children|
    ensures AllScalar(n.children[i], types)
  {
    LiteralsInAll(n.children, i);
  }

  lemma {:induction false} LiteralsInAll(ns: seq<Node>, i: nat)
    requires i < |ns|
    ensures forall m :: m in RecordLiterals(ns[i]) ==> m in RecordLiteralsAll(ns)
  {
    if i > 0 {
      assert ns[1..][i - 1] == ns[i];
      LiteralsInAll(ns[1..], i - 1);
    }
  }

  /** When the gate opens, no field of any record allocated in the window, named or not, holds a
      pointer: reading a field hands out a copy. */
  lemma {:induction false} ArenaRecordsHoldNoPointers(n: Node, run: Run, st: State, record: string, types: FieldTypes)
    requires AllScalar(n, types) && Exec(n, run, st, record, types).Some?
    ensures OnlyScalarsAdded(st, Exec(n, run, st, record, types).value.0)
    decreases run, 1
  {
    match run {
      case Use =>
      case Field(receiver) =>
        ScalarChild(n, 0, types);
        ArenaRecordsHoldNoPointers(n.children[0], receiver, st, record, types);
      case Bound(init) =>
        ScalarChild(n, 0, types);
        ArenaRecordsHoldNoPointers(n.children[0], init, st, record, types);
      case Alloc(steps, h, fields) =>
        StepsAddScalars(n, steps, st, record, types);
        assert n in RecordLiterals(n);
      case Any(steps, result) => StepsAddScalars(n, steps, st, record, types);
    }
  }

  lemma {:induction false} StepsAddScalars(n: Node, steps: Steps, st: State, record: string, types: FieldTypes)
    requires AllScalar(n, types) && ExecSteps(n, steps, st, record, types).Some?
    ensures OnlyScalarsAdded(st, ExecSteps(n, steps, st, record, types).value)
    decreases steps
  {
    match steps
    case Done =>
    case Child(i, run, rest) =>
      ScalarChild(n, i, types);
      ArenaRecordsHoldNoPointers(n.children[i], run, st, record, types);
      var (after, v) := Exec(n.children[i], run, st, record, types).value;
      StepsAddScalars(n, rest, Leak(after, v), record, types);
    case Binder(x, v, rest) =>
      StepsAddScalars(n, rest, st.(env := st.env[x := v]), record, types);
  }

  /** No execution of the literal, from any state, makes a record with a pointer in one of its fields. */
  ghost predicate NeverHoldsPointer(literal: Node, types: FieldTypes) {
    forall run, st, record, f ::
      Exec(literal, run, st, record, types).Some? && HasField(Exec(literal, run, st, record, types).value, f) ==>
        FieldOf(Exec(literal, run, st, record, types).value, f).Num?
  }

  predicate HasField(result: (State, Value), f: string) {
    result.1.Ref? && result.1.h in result.0.heap && f in result.0.heap[result.1.h]
  }

  function FieldOf(result: (State, Value), f: string): Value
    requires HasField(result, f)
  {
    result.0.heap[result.1.h][f]
  }

  /** A state in which the flow was handed one record. */
  const GIVEN := State(map[], map[0 := map[]], {0}, {})

  /** The literal's field gets the record that the flow was handed. */
  function StorePointer(f: string): Run { Alloc(Done, 1, map[f := Ref(0)]) }

  lemma PointerStored(literal: Node, f: string, types: FieldTypes)
    requires IsRecordLiteral(literal)
    requires literal.typeName in types
        ==> f in types[literal.typeName] && types[literal.typeName][f] !in {"Int", "Bool"}
    ensures Inv(GIVEN, {})
    ensures var r := Exec(literal, StorePointer(f), GIVEN, "r", types); r.Some? && HasField(r.value, f) && FieldOf(r.value, f) == Ref(0)
  {
    assert Exec(literal, StorePointer(f), GIVEN, "r", types)
        == Some((GIVEN.(heap := GIVEN.heap[1 := map[f := Ref(0)]]), Ref(1)));
  }

  lemma LiteralHoldsNumbers(literal: Node, run: Run, st: State, record: string, types: FieldTypes, f: string)
    requires IsRecordLiteral(literal) && ScalarOnly(literal, types)
    requires Exec(literal, run, st, record, types).Some? && HasField(Exec(literal, run, st, record, types).value, f)
    ensures FieldOf(Exec(literal, run, st, record, types).value, f).Num?
  {
    assert run.Alloc?;
    hide ExecSteps;
  }

  /** The gate admits a literal exactly when its type is known and has fields, and no execution can put a pointer in any
      of them: for every literal of a type it refuses, some execution stores one. */
  lemma GateIsExact(literal: Node, types: FieldTypes)
    requires IsRecordLiteral(literal)
    ensures ScalarOnly(literal, types)
       <==> literal.typeName != "" && literal.typeName in types && types[literal.typeName] != map[] && NeverHoldsPointer(literal, types)
    ensures literal.typeName !in types ==> !NeverHoldsPointer(literal, types)
    ensures literal.typeName in types ==>
              forall f :: f in types[literal.typeName] && types[literal.typeName][f] !in {"Int", "Bool"} ==>
                !ScalarOnly(literal, types) && StoresPointer(literal, f, types)
  {
    hide Exec;
    if literal.typeName !in types { PointerStored(literal, "", types); }
    if literal.typeName in types {
      forall f | f in types[literal.typeName] && types[literal.typeName][f] !in {"Int", "Bool"}
        ensures StoresPointer(literal, f, types) && !NeverHoldsPointer(literal, types) && !ScalarOnly(literal, types)
      {
        PointerStored(literal, f, types);
      }
    }
    if ScalarOnly(literal, types) {
      forall run, st, record, f |
        Exec(literal, run, st, record, types).Some? && HasField(Exec(literal, run, st, record, types).value, f)
        ensures FieldOf(Exec(literal, run, st, record, types).value, f).Num?
      {
        LiteralHoldsNumbers(literal, run, st, record, types, f);
      }
    }
  }

  /** Some execution of the literal puts a pointer in that field. */
  ghost predicate StoresPointer(literal: Node, f: string, types: FieldTypes) {
    exists run, st :: Inv(st, {}) && Exec(literal, run, st, "r", types).Some?
                   && HasField(Exec(literal, run, st, "r", types).value, f)
                       && FieldOf(Exec(literal, run, st, "r", types).value, f).Ref?
  }

  // ----- Where the answers are wrong -----

  const START := State(map[], map[], {}, {})

  /** The analysis calls the record local although some execution hands its handle out. */
  ghost predicate Misjudged(record: string, body: Node) {
    exists aliases: set<string>, run: Run ::
      && IsAliasSet(record, Binds(body), aliases) && !Escapes(body, aliases)
      && Exec(body, run, START, record, map[]).Some?
      && !(Exec(body, run, START, record, map[]).value.0.tracked !! Exec(body, run, START, record, map[]).value.0.leaked)
  }

  const RECORD := Node(CallExpr, "#record", [])

  /** `let r = {}; let <text> = r; return x` where `x` is the variable that text declares. */
  function PassOn(text: string): Node {
    var alias := Node(LetDecl, text, [Node(Identifier, "r", [])]);
    Node(Block, "", [Node(LetDecl, "r", [RECORD]), alias,
                     Node(ReturnStmt, "", [Node(Identifier, DeclaredName(alias), [])])])
  }

  function DeclaredBy(text: string): string {
    LastWord(BindingName(text))
  }

  /** A safety prefix stays inside the name the analysis reads (`unsafe s`), so later uses of `s`
      are not recognised as aliases. On this family the verdict is wrong exactly for the binding
      texts whose declared variable is not the text before the colon. */
  lemma PrefixedBindingIsMisjudged(text: string)
    requires DeclaredBy(text) !in {"", "r"}
    ensures Misjudged("r", PassOn(text)) <==> BindingName(text) != DeclaredBy(text)
  {
    if BindingName(text) == DeclaredBy(text) {
      PlainTextIsJudged(text);
    } else {
      PrefixedTextLeaks(text);
    }
  }

  lemma PlainR()
    ensures BindingName("r") == "r" && LastWord("r") == "r"
  {
    assert IndexOf("r", ':') == 1 by { assert "r"[1..] == ""; }
    assert "r"[..1] == "r";
    assert TrimLeft("r") == "r" && TrimRight("r") == "r";
    assert IndexOf("r", ' ') == 1 by { assert "r"[1..] == ""; }
  }

  lemma PlainTextIsJudged(text: string)
    requires DeclaredBy(text) !in {"", "r"} && BindingName(text) == DeclaredBy(text)
    ensures !Misjudged("r", PassOn(text))
  {
    PlainR();
    var body := PassOn(text);
    PassOnIsPlain(text);
    forall aliases: set<string>, run: Run |
      && IsAliasSet("r", Binds(body), aliases) && !Escapes(body, aliases)
      && Exec(body, run, START, "r", map[]).Some?
      ensures Exec(body, run, START, "r", map[]).value.0.tracked !! Exec(body, run, START, "r", map[]).value.0.leaked
    {
      LocalRecordsStayLocal("r", body, aliases, run, START, map[]);
    }
  }

  lemma PassOnIsPlain(text: string)
    requires DeclaredBy(text) != "" && BindingName(text) == DeclaredBy(text)
    ensures PlainNames(PassOn(text))
  {
    PlainR();
    hide BindingName, LastWord;
    var cs := PassOn(text).children;
    assert PlainNames(RECORD) && PlainNames(Node(Identifier, "r", [])) && PlainNames(cs[2].children[0]);
    PlainParent(cs[0]);
    PlainParent(cs[1]);
    PlainParent(cs[2]);
  }

  lemma PlainParent(n: Node)
    requires |n.children| == 1 && PlainNames(n.children[0]) && (IsBinding(n) ==> BindingName(n.value) == DeclaredName(n) != "")
    ensures PlainNames(n)
  {
    hide BindingName, LastWord;
  }

  lemma PassOnBinds(text: string)
    ensures Binds(PassOn(text)) == [Bind(BindingName("r"), Some(RECORD)), Bind(BindingName(text), Some(Node(Identifier, "r", [])))]
  {
    hide BindingName, LastWord;
    var cs := PassOn(text).children;
    var use := Node(Identifier, "r", []);
    assert Binds(RECORD) == [] && Binds(use) == [] && Binds(cs[2].children[0]) == [];
    OneChild(RECORD);
    OneChild(use);
    OneChild(cs[2].children[0]);
    assert Binds(cs[0]) == [Bind(BindingName("r"), Some(RECORD))];
    assert Binds(cs[1]) == [Bind(BindingName(text), Some(use))];
    assert Binds(cs[2]) == [];
    assert BindsAll([cs[2]]) == [] by { OneChild(cs[2]); }
    assert cs[1..] == [cs[1], cs[2]] && [cs[1], cs[2]][1..] == [cs[2]];
    assert BindsAll([cs[1], cs[2]]) == Binds(cs[1]);
    assert BindsAll(cs) == Binds(cs[0]) + Binds(cs[1]);
  }

  lemma OneChild(n: Node)
    ensures BindsAll([n]) == Binds(n)
  {
    assert [n][1..] == [];
    assert BindsAll([n][1..]) == [];
  }

  lemma PrefixedTextLeaks(text: string)
    requires DeclaredBy(text) !in {"", "r"} && BindingName(text) != DeclaredBy(text)
    ensures Misjudged("r", PassOn(text))
  {
    PlainR();
    PassOnBinds(text);
    var body := PassOn(text);
    var x, written := DeclaredBy(text), BindingName(text);
    var aliases := if written == "" then {"r"} else {"r", written};
    hide BindingName, LastWord;
    assert IsAliasSet("r", Binds(body), aliases) by {
      assert Passes(Bind(written, Some(Node(Identifier, "r", []))), {"r"}) == (written != "");
      forall s: set<string> | "r" in s && Closed(Binds(body), s)
        ensures aliases <= s
      {
        assert Binds(body)[1] in Binds(body);
      }
    }
    assert !Escapes(body.children[0], aliases) by { assert !Escapes(RECORD, aliases); }
    assert !Escapes(body.children[2], aliases);
    assert !Escapes(body, aliases);
    var run := LeakRun();
    LeakRunWorks(text);
  }

  /** Allocate the record, pass it on, return it. */
  function LeakRun(): Run {
    Any(Child(0, Bound(Alloc(Done, 0, map[])), Child(1, Bound(Use), Child(2, Any(Child(0, Use, Done), Num(0)), Done))), Num(0))
  }

  lemma LeakRunWorks(text: string)
    requires DeclaredBy(text) != "r"
    ensures var r := Exec(PassOn(text), LeakRun(), START, "r", map[]);
            r.Some? && 0 in r.value.0.tracked && 0 in r.value.0.leaked
  {
    PlainR();
    var body, x := PassOn(text), DeclaredBy(text);
    hide BindingName, LastWord;
    var s1 := State(map["r" := Ref(0)], map[0 := map[]], {}, {0});
    var s2 := s1.(env := s1.env[x := Ref(0)]);
    RecordBound(body.children[0], s1);
    assert Exec(body.children[1], Bound(Use), s1, "r", map[]) == Some((s2, Num(0)));
    var ret, returning := body.children[2], Any(Child(0, Use, Done), Num(0));
    ReturnLeaks(ret, x, s2);
    hide Exec;
    var last := Child(2, returning, Done);
    assert ExecSteps(body, last, s2, "r", map[]) == Some(Leak(s2, Ref(0)));
    assert ExecSteps(body, Child(1, Bound(Use), last), s1, "r", map[]) == Some(Leak(s2, Ref(0)));
    assert ExecSteps(body, LeakRun().steps, START, "r", map[]) == Some(Leak(s2, Ref(0)));
    WholeRun(body, LeakRun(), Leak(s2, Ref(0)));
  }

  lemma RecordBound(binding: Node, s1: State)
    requires binding == Node(LetDecl, "r", [RECORD]) && s1 == State(map["r" := Ref(0)], map[0 := map[]], {}, {0})
    ensures Exec(binding, Bound(Alloc(Done, 0, map[])), START, "r", map[]) == Some((s1, Num(0)))
  {
    PlainR();
    hide BindingName, LastWord;
    assert Exec(RECORD, Alloc(Done, 0, map[]), START, "r", map[]) == Some((START.(heap := map[0 := map[]]), Ref(0)));
    assert DeclaredName(binding) == "r" && START.tracked + {0} == {0};
  }

  lemma ReturnLeaks(ret: Node, x: string, st: State)
    requires ret == Node(ReturnStmt, "", [Node(Identifier, x, [])]) && x in st.env && st.env[x] == Ref(0)
    ensures Exec(ret, Any(Child(0, Use, Done), Num(0)), st, "r", map[]) == Some((Leak(st, Ref(0)), Num(0)))
  {
    assert Exec(ret.children[0], Use, st, "r", map[]) == Some((st, Ref(0)));
    assert ExecSteps(ret, Child(0, Use, Done), st, "r", map[]) == Some(Leak(st, Ref(0)));
  }

  lemma WholeRun(body: Node, run: Run, after: State)
    requires body.kind.Block? && run.Any? && run.result == Num(0)
    requires ExecSteps(body, run.steps, START, "r", map[]) == Some(after)
    ensures Exec(body, run, START, "r", map[]) == Some((after, Num(0)))
  {
    hide ExecSteps;
  }

  /** The gate does not by itself keep a window's records inside it: a scalar-only literal that is
      returned without a name passes the gate, and its handle leaves. */
  lemma UnnamedLiteralLeavesTheWindow(literal: Node, types: FieldTypes)
    requires IsRecordLiteral(literal) && literal.children == [] && ScalarOnly(literal, types)
    ensures var window := Node(ReturnStmt, "", [literal]);
            && AllScalar(window, types)
            && exists run, h :: Exec(window, run, START, "r", types).Some? && h !in START.heap
                             && h in Exec(window, run, START, "r", types).value.0.leaked
  {
    var window := Node(ReturnStmt, "", [literal]);
    assert RecordLiterals(literal) == [literal];
    assert RecordLiteralsAll([literal]) == [literal] by { assert [literal][1..] == []; }
    var alloc := Alloc(Done, 0, map[]);
    var run := Any(Child(0, alloc, Done), Num(0));
    assert Exec(literal, alloc, START, "r", types) == Some((START.(heap := map[0 := map[]]), Ref(0)));
    assert Exec(window, run, START, "r", types).Some? && 0 in Exec(window, run, START, "r", types).value.0.leaked;
  }
}
