/** Checked-flow artifacts: the admitted tree and its copy under a budget, the fields of an artifact, and
    validation to a canonical copy. */
module Artifact {
  import opened Ast
  import opened Utf8
  import opened Json

  const MAX_BYTES := 262144
  const MAX_AST_NODES := 8192
  const LINE_FEED: Unit := 0x0A

  /** Index of the field named `key`. */
  function Find(fields: seq<Field>, key: Text): (r: Option<nat>)
    ensures r.Some? ==> r.value < |fields| && fields[r.value].key == key
    ensures r.None? ==> !HasKey(fields, key)
  {
    if fields == [] then None
    else if fields[0].key == key then Some(0)
    else
      match Find(fields[1..], key)
      case None => FindNone(fields, key); None
      case Some(i) => Some(i + 1)
  }

  lemma FindNone(fields: seq<Field>, key: Text)
    requires fields != [] && fields[0].key != key && !HasKey(fields[1..], key)
    ensures !HasKey(fields, key)
  {
    forall i | 0 <= i < |fields| ensures fields[i].key != key {
      if i > 0 { assert fields[i] == fields[1..][i - 1]; }
    }
  }

  function Lookup(fields: seq<Field>, key: Text): Option<Value> {
    match Find(fields, key)
    case None => None
    case Some(i) => Some(fields[i].value)
  }

  // ----- Syntax trees -----

  /** The children of a node: an absent list is not an empty one. */
  datatype Branches = Absent | Branches(nodes: seq<AstNode>)

  datatype AstNode = AstNode(
    kind: Text, value: Option<Text>, typeName: Option<Text>, conformsTo: Option<Text>, flowRef: Option<Text>,
    claim: Option<Text>, isMethod: bool, flags: Option<nat>, children: Branches)

  /** The fields of a node, in the order they are printed. */
  datatype AstField = NodeKind | NodeText | TypeName | ConformsTo | FlowRef | Claim | CallStyle | Flags | Children

  const AST_FIELDS := 9

  function AstKey(f: AstField): (t: Text)
    ensures forall i :: 0 <= i < |t| ==> t[i] < 0x80
  {
    match f
    case NodeKind => Ascii("kind")
    case NodeText => Ascii("value")
    case TypeName => Ascii("typeName")
    case ConformsTo => Ascii("conformsTo")
    case FlowRef => Ascii("flowRef")
    case Claim => Ascii("claim")
    case CallStyle => Ascii("callStyle")
    case Flags => Ascii("flags")
    case Children => Ascii("children")
  }

  function AstFieldAt(i: nat): AstField
    requires i < AST_FIELDS
  {
    match i
    case 0 => NodeKind
    case 1 => NodeText
    case 2 => TypeName
    case 3 => ConformsTo
    case 4 => FlowRef
    case 5 => Claim
    case 6 => CallStyle
    case 7 => Flags
    case 8 => Children
  }

  function METHOD(): Text { Ascii("method") }

  predicate IsLetter(u: Unit) { 0x41 <= u <= 0x5A || 0x61 <= u <= 0x7A }

  predicate IsKind(t: Text) {
    t != [] && IsLetter(t[0]) && forall i :: 1 <= i < |t| ==> IsLetter(t[i]) || IsDigit(t[i])
  }

  predicate GoodText(nfc: Text -> bool, t: Text) { CheckString(nfc, t).None? }

  /** A field holds what the node's type says, if it is there. */
  predicate GoodField(nfc: Text -> bool, f: AstField, v: Option<Value>) {
    match f
    case NodeKind => v.Some? && v.value.Str? && GoodText(nfc, v.value.text) && IsKind(v.value.text)
    case CallStyle => v.None? || v == Some(Str(METHOD()))
    case Flags => v.None? || (v.value.Number? && IsSafe(v.value.n) && v.value.n >= 0)
    case Children => v.None? || (v.value.Array? && |v.value.items| <= MAX_ARRAY_ITEMS)
    case _ => v.None? || (v.value.Str? && GoodText(nfc, v.value.text))
  }

  predicate IsAstKey(key: Text) { exists i :: 0 <= i < AST_FIELDS && AstKey(AstFieldAt(i)) == key }

  predicate GoodFields(nfc: Text -> bool, fields: seq<Field>) {
    && (forall i :: 0 <= i < |fields| ==> IsAstKey(fields[i].key))
    && (forall i :: 0 <= i < AST_FIELDS ==> GoodField(nfc, AstFieldAt(i), Lookup(fields, AstKey(AstFieldAt(i)))))
  }

  function TextOf(v: Option<Value>): Option<Text> {
    if v.Some? && v.value.Str? then Some(v.value.text) else None
  }

  function OrEmpty(t: Option<Text>): Text {
    if t.Some? then t.value else []
  }

  function NodeOf(fields: seq<Field>, children: Branches): AstNode {
    var flags := Lookup(fields, AstKey(Flags));
    AstNode(
      OrEmpty(TextOf(Lookup(fields, AstKey(NodeKind)))), TextOf(Lookup(fields, AstKey(NodeText))),
      TextOf(Lookup(fields, AstKey(TypeName))), TextOf(Lookup(fields, AstKey(ConformsTo))),
      TextOf(Lookup(fields, AstKey(FlowRef))), TextOf(Lookup(fields, AstKey(Claim))),
      Lookup(fields, AstKey(CallStyle)).Some?,
      if flags.Some? && flags.value.Number? && flags.value.n >= 0 then Some(flags.value.n) else None, children)
  }

  datatype Budget = Budget(values: nat, astNodes: nat)

  datatype Snap<T> = Snap(value: T, budget: Budget) | NoSnap

  function SnapshotAst(nfc: Text -> bool, v: Value, depth: nat, budget: Budget): Snap<AstNode>
    decreases v, 0
  {
    if depth > MAX_DEPTH || budget.values + 1 > MAX_VALUES || budget.astNodes + 1 > MAX_AST_NODES then NoSnap
    else if !v.Record? || !GoodFields(nfc, v.fields) then NoSnap
    else
      var spent := Budget(budget.values + 1, budget.astNodes + 1);
      match Find(v.fields, AstKey(Children))
      case None => Snap(NodeOf(v.fields, Absent), spent)
      case Some(i) =>
        if !v.fields[i].value.Array? then NoSnap
        else
          match SnapshotAll(nfc, v.fields[i].value.items, depth + 1, spent)
          case NoSnap => NoSnap
          case Snap(nodes, left) => Snap(NodeOf(v.fields, Branches(nodes)), left)
  }

  function SnapshotAll(nfc: Text -> bool, items: seq<Value>, depth: nat, budget: Budget): Snap<seq<AstNode>>
    decreases items, 1
  {
    if items == [] then Snap([], budget)
    else
      match SnapshotAst(nfc, items[0], depth, budget)
      case NoSnap => NoSnap
      case Snap(node, spent) =>
        (match SnapshotAll(nfc, items[1..], depth, spent)
         case NoSnap => NoSnap
         case Snap(nodes, left) => Snap([node] + nodes, left))
  }

  /** The admission budget, spent in place while a tree is copied. */
  class AstReader {
    const nfc: Text -> bool
    var values: nat
    var astNodes: nat

    constructor (nfc: Text -> bool)
      ensures this.nfc == nfc && values == 1 && astNodes == 0
    {
      this.nfc := nfc;
      values := 1;
      astNodes := 0;
    }

    /** What a reader that now holds this budget read is what `s` says. */
    ghost predicate Read<T>(r: Option<T>, s: Snap<T>)
      reads this
    {
      match s
      case NoSnap => r == None
      case Snap(value, budget) => r == Some(value) && budget == Budget(values, astNodes)
    }

    method Snapshot(v: Value, depth: nat) returns (r: Option<AstNode>)
      modifies this
      ensures Read(r, SnapshotAst(nfc, v, depth, old(Budget(values, astNodes))))
      decreases v, 0
    {
      hide SnapshotAst, SnapshotAll, GoodFields, NodeOf, AstKey, Find;
      SnapshotCases(nfc, v, depth, Budget(values, astNodes));
      if depth > MAX_DEPTH { return None; }
      values := values + 1;
      if values > MAX_VALUES { return None; }
      astNodes := astNodes + 1;
      if astNodes > MAX_AST_NODES { return None; }
      if !v.Record? || !GoodFields(nfc, v.fields) { return None; }
      var i := Find(v.fields, AstKey(Children));
      if i.None? { return Some(NodeOf(v.fields, Absent)); }
      var children := v.fields[i.value].value;
      if !children.Array? { return None; }
      var nodes := SnapshotChildren(children.items, depth + 1);
      if nodes.None? { return None; }
      r := Some(NodeOf(v.fields, Branches(nodes.value)));
    }

    method SnapshotChildren(items: seq<Value>, depth: nat) returns (r: Option<seq<AstNode>>)
      modifies this
      ensures Read(r, SnapshotAll(nfc, items, depth, old(Budget(values, astNodes))))
      decreases items, 1
    {
      hide SnapshotAst, SnapshotAll, Resumes;
      ghost var start := Budget(values, astNodes);
      var nodes: seq<AstNode> := [];
      var k := 0;
      ResumeStart(nfc, items, depth, start);
      while k < |items|
        invariant 0 <= k <= |items|
        invariant Resumes(nfc, items, depth, start, k, nodes, Budget(values, astNodes))
      {
        ghost var before := Budget(values, astNodes);
        var node := Snapshot(items[k], depth);
        ResumeStep(nfc, items, depth, start, k, nodes, before);
        if node.None? { return None; }
        nodes := nodes + [node.value];
        k := k + 1;
      }
      ResumeEnd(nfc, items, depth, start, nodes, Budget(values, astNodes));
      r := Some(nodes);
    }
  }

  /** After `k` items gave `nodes` and left `budget`, the rest decides the outcome. */
  ghost predicate Resumes(nfc: Text -> bool, items: seq<Value>, depth: nat, start: Budget, k: nat,
        nodes: seq<AstNode>, budget: Budget)
    requires k <= |items|
  {
    SnapshotAll(nfc, items, depth, start) == Prepend(nodes, SnapshotAll(nfc, items[k..], depth, budget))
  }

  function Prepend(nodes: seq<AstNode>, s: Snap<seq<AstNode>>): Snap<seq<AstNode>> {
    match s
    case NoSnap => NoSnap
    case Snap(more, budget) => Snap(nodes + more, budget)
  }

  lemma SnapshotCases(nfc: Text -> bool, v: Value, depth: nat, budget: Budget)
    ensures var s := SnapshotAst(nfc, v, depth, budget);
      if depth > MAX_DEPTH || budget.values >= MAX_VALUES || budget.astNodes >= MAX_AST_NODES ||
         !v.Record? || !GoodFields(nfc, v.fields) then
        s == NoSnap
      else
        var i := Find(v.fields, AstKey(Children));
        if i.None? then s == Snap(NodeOf(v.fields, Absent), Budget(budget.values + 1, budget.astNodes + 1))
        else
          var children := v.fields[i.value].value;
          children.Array? &&
          match SnapshotAll(nfc, children.items, depth + 1, Budget(budget.values + 1, budget.astNodes + 1))
          case NoSnap => s == NoSnap
          case Snap(nodes, left) => s == Snap(NodeOf(v.fields, Branches(nodes)), left)
  {
    hide SnapshotAll, NodeOf, AstKey, Find, CheckString;
    if v.Record? && GoodFields(nfc, v.fields) { ChildrenAreArray(nfc, v.fields); }
  }

  lemma ChildrenAreArray(nfc: Text -> bool, fields: seq<Field>)
    requires GoodFields(nfc, fields)
    ensures var i := Find(fields, AstKey(Children));
      i.Some? ==> fields[i.value].value.Array? && |fields[i.value].value.items| <= MAX_ARRAY_ITEMS
  {
    hide AstKey, Find, CheckString, IsAstKey;
    assert AstFieldAt(8) == Children;
  }

  lemma ResumeStart(nfc: Text -> bool, items: seq<Value>, depth: nat, start: Budget)
    ensures Resumes(nfc, items, depth, start, 0, [], start)
  {
    hide SnapshotAll;
    assert items[0..] == items;
    var s := SnapshotAll(nfc, items, depth, start);
    if s.Snap? { assert [] + s.value == s.value; }
  }

  lemma ResumeEnd(nfc: Text -> bool, items: seq<Value>, depth: nat, start: Budget, nodes: seq<AstNode>, budget: Budget)
    requires Resumes(nfc, items, depth, start, |items|, nodes, budget)
    ensures SnapshotAll(nfc, items, depth, start) == Snap(nodes, budget)
  {
    assert nodes + [] == nodes;
  }

  lemma ResumeStep(nfc: Text -> bool, items: seq<Value>, depth: nat, start: Budget, k: nat, nodes: seq<AstNode>,
        budget: Budget)
    requires k < |items| && Resumes(nfc, items, depth, start, k, nodes, budget)
    ensures match SnapshotAst(nfc, items[k], depth, budget)
      case NoSnap => SnapshotAll(nfc, items, depth, start) == NoSnap
      case Snap(node, left) => Resumes(nfc, items, depth, start, k + 1, nodes + [node], left)
  {
    hide SnapshotAst;
    assert items[k..][1..] == items[k + 1..];
    if SnapshotAst(nfc, items[k], depth, budget).Snap? {
      var left := SnapshotAst(nfc, items[k], depth, budget).budget;
      var node := SnapshotAst(nfc, items[k], depth, budget).value;
      var rest := SnapshotAll(nfc, items[k + 1..], depth, left);
      if rest.Snap? {
        assert nodes + ([node] + rest.value) == nodes + [node] + rest.value;
      }
    }
  }

  // ----- The one admitted tree -----

  predicate Shaped(n: AstNode, kind: Text, children: nat) {
    n.kind == kind && n.children.Branches? && |n.children.nodes| == children
  }

  predicate Leaf(n: AstNode, kind: Text, value: Text) {
    Shaped(n, kind, 0) && n.value == Some(value)
  }

  function Child(n: AstNode, i: nat): AstNode
    requires n.children.Branches? && i < |n.children.nodes|
  {
    n.children.nodes[i]
  }

  predicate IsArm(arm: AstNode, name: Text, literal: Text) {
    && Shaped(arm, Ascii("checkArm"), 1) && arm.value == Some(name)
    && Shaped(Child(arm, 0), Ascii("block"), 1)
    && Shaped(Child(Child(arm, 0), 0), Ascii("returnStmt"), 1)
    && Leaf(Child(Child(Child(arm, 0), 0), 0), Ascii("stringLiteral"), literal)
  }

  predicate IsCheck(check: AstNode) {
    && Shaped(check, Ascii("checkExpr"), 4)
    && Leaf(Child(check, 0), Ascii("identifier"), Ascii("subject"))
    && IsArm(Child(check, 1), Ascii("deny"), Ascii("\"deny\""))
    && IsArm(Child(check, 2), Ascii("ambig"), Ascii("\"ambig\""))
    && IsArm(Child(check, 3), Ascii("if"), Ascii("\"allow\""))
  }

  predicate HasExactScalarContract(n: AstNode) {
    && Shaped(n, Ascii("pureFlowDecl"), 4) && n.value == Some(Ascii("scalarOracle")) && n.flags == Some(33)
    && Shaped(Child(n, 0), Ascii("paramDecl"), 1) && Child(n, 0).value == Some(Ascii("subject: Verdict"))
    && Leaf(Child(Child(n, 0), 0), Ascii("typeRef"), Ascii("Verdict"))
    && Leaf(Child(n, 1), Ascii("typeRef"), Ascii("String"))
    && Shaped(Child(n, 2), Ascii("contractDecl"), 1)
    && Leaf(Child(Child(n, 2), 0), Ascii("identifier"), Ascii("effects:block"))
    && Shaped(Child(n, 3), Ascii("block"), 1)
    && IsCheck(Child(Child(n, 3), 0))
  }

  // ----- Artifacts -----

  /** The parts of an artifact that are not fixed by its contract. */
  datatype Artifact = Artifact(
    sourceDigest: Text, compilerVersion: Text, compilerPackageGraphDigest: Text, checkerSetDigest: Text,
    generatorSourceDigest: Text, checkedAst: AstNode)

  /** The fields of an artifact, in the order they are printed. */
  datatype Name =
    | Schema | HashAlgorithm | ProductId | PackageId | FlowLocator | FlowName | LanguageVersion | RuntimeProfile
    | SourceCanonicalization | SourceDigest | CompilerPackageId | CompilerVersion | CompilerPackageGraphDigest
    | CheckerSetId | CheckerSetDigest | GeneratorId | GeneratorSourceDigest | Qualifier | Parameters | ReturnType
    | DeclaredEffects | CheckedAst

  const NAMES := 22

  function NameAt(i: nat): Name
    requires i < NAMES
  {
    match i
    case 0 => Schema
    case 1 => HashAlgorithm
    case 2 => ProductId
    case 3 => PackageId
    case 4 => FlowLocator
    case 5 => FlowName
    case 6 => LanguageVersion
    case 7 => RuntimeProfile
    case 8 => SourceCanonicalization
    case 9 => SourceDigest
    case 10 => CompilerPackageId
    case 11 => CompilerVersion
    case 12 => CompilerPackageGraphDigest
    case 13 => CheckerSetId
    case 14 => CheckerSetDigest
    case 15 => GeneratorId
    case 16 => GeneratorSourceDigest
    case 17 => Qualifier
    case 18 => Parameters
    case 19 => ReturnType
    case 20 => DeclaredEffects
    case 21 => CheckedAst
  }

  function Spelling(n: Name): string
  {
    match n
    case Schema => "schema"
    case HashAlgorithm => "hashAlgorithm"
    case ProductId => "productId"
    case PackageId => "packageId"
    case FlowLocator => "flowLocator"
    case FlowName => "flowName"
    case LanguageVersion => "languageVersion"
    case RuntimeProfile => "runtimeProfile"
    case SourceCanonicalization => "sourceCanonicalization"
    case SourceDigest => "sourceDigest"
    case _ => LaterSpelling(n)
  }

  function LaterSpelling(n: Name): string {
    match n
    case CompilerPackageId => "compilerPackageId"
    case CompilerVersion => "compilerVersion"
    case CompilerPackageGraphDigest => "compilerPackageGraphDigest"
    case CheckerSetId => "checkerSetId"
    case CheckerSetDigest => "checkerSetDigest"
    case GeneratorId => "generatorId"
    case GeneratorSourceDigest => "generatorSourceDigest"
    case Qualifier => "qualifier"
    case Parameters => "parameters"
    case ReturnType => "returnType"
    case DeclaredEffects => "declaredEffects"
    case _ => "checkedAst"
  }

  function Key(n: Name): (t: Text)
    ensures forall i :: 0 <= i < |t| ==> t[i] < 0x80
  {
    Ascii(Spelling(n))
  }

  /** The text a fixed field must hold. */
  function Fixed(n: Name): Text {
    match n
    case Schema => Ascii("galerina.rd0858.checked-flow.v1")
    case HashAlgorithm => Ascii("sha256")
    case ProductId => Ascii("galerina")
    case PackageId => Ascii("rd0858-unit4-scalar-oracle")
    case FlowLocator => Ascii("rd0858/unit4/scalar-oracle")
    case FlowName => Ascii("scalarOracle")
    case RuntimeProfile => Ascii("scalar-1")
    case SourceCanonicalization => Ascii("UTF8_NO_BOM_LF_NFC_V1")
    case CompilerPackageId => Ascii("@galerina/core-compiler")
    case CheckerSetId => Ascii("galerina.strict-checks.v1")
    case GeneratorId => Ascii("rd0858-scalar-oracle-generator.v1")
    case Qualifier => Ascii("pure")
    case ReturnType => Ascii("String")
    case _ => []
  }

  predicate IsDigest(t: Text) {
    var prefix := Ascii("sha256:");
    |t| == 71 && t[..7] == prefix && forall i :: 7 <= i < 71 ==> IsDigit(t[i]) || 0x61 <= t[i] <= 0x66
  }

  /** Three dotted numbers, and possibly a hyphen and a tag. */
  predicate IsVersion(t: Text) {
    var major := DigitsEnd(t, 0);
    major > 0 && major < |t| && t[major] == 0x2E &&
    var minor := DigitsEnd(t, major + 1);
    minor > major + 1 && minor < |t| && t[minor] == 0x2E &&
    var patch := DigitsEnd(t, minor + 1);
    patch > minor + 1 &&
    (patch == |t| ||
     (t[patch] == MINUS && patch + 1 < |t| &&
      forall i :: patch < i < |t| ==> IsLetter(t[i]) || IsDigit(t[i]) || t[i] == 0x2E || t[i] == MINUS))
  }

  predicate IsSubjectParameter(v: Value) {
    v.Record? && |v.fields| == 2 &&
    Lookup(v.fields, Ascii("name")) == Some(Str(Ascii("subject"))) &&
    Lookup(v.fields, Ascii("type")) == Some(Str(Ascii("Verdict")))
  }

  function ReadAst(nfc: Text -> bool, v: Value): Snap<AstNode> {
    SnapshotAst(nfc, v, 1, Budget(1, 0))
  }

  predicate GoodPart(nfc: Text -> bool, n: Name, v: Value) {
    match n
    case LanguageVersion => v == Number(1)
    case Parameters => v.Array? && |v.items| == 1 && IsSubjectParameter(v.items[0])
    case DeclaredEffects => v == Array([])
    case CheckedAst => ReadAst(nfc, v).Snap? && HasExactScalarContract(ReadAst(nfc, v).value)
    case CompilerVersion => v.Str? && GoodText(nfc, v.text) && IsVersion(v.text)
    case SourceDigest | CompilerPackageGraphDigest | CheckerSetDigest | GeneratorSourceDigest =>
      v.Str? && GoodText(nfc, v.text) && IsDigest(v.text)
    case _ => v == Str(Fixed(n)) && GoodText(nfc, Fixed(n))
  }

  predicate IsKey(key: Text) { exists i :: 0 <= i < NAMES && Key(NameAt(i)) == key }

  predicate IsArtifact(nfc: Text -> bool, v: Value) {
    v.Record? && |v.fields| == NAMES &&
    (forall i :: 0 <= i < |v.fields| ==> IsKey(v.fields[i].key)) &&
    forall i :: 0 <= i < NAMES ==>
      Lookup(v.fields, Key(NameAt(i))).Some? && GoodPart(nfc, NameAt(i), Lookup(v.fields, Key(NameAt(i))).value)
  }

  function PartText(fields: seq<Field>, n: Name): Text {
    OrEmpty(TextOf(Lookup(fields, Key(n))))
  }

  function Assemble(fields: seq<Field>, ast: AstNode): Artifact {
    Artifact(
      PartText(fields, SourceDigest), PartText(fields, CompilerVersion), PartText(fields, CompilerPackageGraphDigest),
      PartText(fields, CheckerSetDigest), PartText(fields, GeneratorSourceDigest), ast)
  }

  /** The canonical copy of an admitted artifact. */
  function Validate(nfc: Text -> bool, v: Value): Option<Artifact> {
    if !IsArtifact(nfc, v) then None
    else
      var ast := Lookup(v.fields, Key(CheckedAst));
      if ast.None? || ReadAst(nfc, ast.value).NoSnap? then None
      else
        Some(Assemble(v.fields, ReadAst(nfc, ast.value).value))
  }
}
