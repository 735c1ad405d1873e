/** Which artifacts are valid, read off their parts, and one that is and fits the byte bound. */
module ArtifactWitness {
  import opened Ast
  import opened Utf8
  import opened Json
  import opened JsonRoundTrip
  import opened Artifact
  import opened ArtifactTree
  import opened ArtifactCodec
  import opened ArtifactRoundTrip

  // ----- The admitted tree fits the ceilings -----

  lemma {:induction false} SmallChildren(nodes: seq<AstNode>, tall: nat, size: nat)
    requires forall i :: 0 <= i < |nodes| ==> Tall(nodes[i]) <= tall && Size(nodes[i]) <= size
    ensures TallAll(nodes) <= tall && SizeAll(nodes) <= |nodes| * size
  {
    hide Tall, Size;
    if nodes != [] {
      SmallChildren(nodes[1..], tall, size);
      assert |nodes| * size == |nodes[1..]| * size + size;
    }
  }

  lemma SmallNode(n: AstNode, kind: Text, k: nat, tall: nat, size: nat)
    requires Shaped(n, kind, k) && forall i :: 0 <= i < k ==> Tall(Child(n, i)) <= tall && Size(Child(n, i)) <= size
    ensures Tall(n) <= tall + 1 && Size(n) <= 1 + k * size
  {
    hide TallAll, SizeAll;
    assert forall i :: 0 <= i < k ==> Child(n, i) == n.children.nodes[i];
    SmallChildren(n.children.nodes, tall, size);
  }

  lemma SmallArm(arm: AstNode, name: Text, literal: Text)
    requires IsArm(arm, name, literal)
    ensures Tall(arm) <= 4 && Size(arm) <= 4
  {
    hide Ascii, Tall, Size;
    var body := Child(arm, 0);
    SmallNode(Child(Child(body, 0), 0), Ascii("stringLiteral"), 0, 0, 0);
    SmallNode(Child(body, 0), Ascii("returnStmt"), 1, 1, 1);
    SmallNode(body, Ascii("block"), 1, 2, 2);
    SmallNode(arm, Ascii("checkArm"), 1, 3, 3);
  }

  lemma SmallCheck(check: AstNode)
    requires IsCheck(check)
    ensures Tall(check) <= 5 && Size(check) <= 17
  {
    hide Ascii, Tall, Size, IsArm;
    SmallNode(Child(check, 0), Ascii("identifier"), 0, 0, 0);
    SmallArm(Child(check, 1), Ascii("deny"), Ascii("\"deny\""));
    SmallArm(Child(check, 2), Ascii("ambig"), Ascii("\"ambig\""));
    SmallArm(Child(check, 3), Ascii("if"), Ascii("\"allow\""));
    SmallNode(check, Ascii("checkExpr"), 4, 4, 4);
  }

  lemma SmallFlow(n: AstNode)
    requires HasExactScalarContract(n)
    ensures Tall(n) <= 7 && Size(n) <= 73
  {
    hide Ascii, Tall, Size, IsCheck;
    SmallNode(Child(Child(n, 0), 0), Ascii("typeRef"), 0, 0, 0);
    SmallNode(Child(n, 0), Ascii("paramDecl"), 1, 1, 1);
    SmallNode(Child(n, 1), Ascii("typeRef"), 0, 0, 0);
    SmallNode(Child(Child(n, 2), 0), Ascii("identifier"), 0, 0, 0);
    SmallNode(Child(n, 2), Ascii("contractDecl"), 1, 1, 1);
    SmallCheck(Child(Child(n, 3), 0));
    SmallNode(Child(n, 3), Ascii("block"), 1, 5, 17);
    SmallNode(n, Ascii("pureFlowDecl"), 4, 6, 18);
  }

  // ----- Validity, part by part -----

  predicate GoodDigest(nfc: Text -> bool, t: Text) { GoodText(nfc, t) && IsDigest(t) }

  /** What validation asks of the parts that the contract does not fix. */
  predicate GoodParts(nfc: Text -> bool, a: Artifact) {
    && GoodDigest(nfc, a.sourceDigest) && GoodDigest(nfc, a.compilerPackageGraphDigest)
    && GoodDigest(nfc, a.checkerSetDigest) && GoodDigest(nfc, a.generatorSourceDigest)
    && GoodText(nfc, a.compilerVersion) && IsVersion(a.compilerVersion)
    && GoodNode(nfc, a.checkedAst) && HasExactScalarContract(a.checkedAst)
  }

  lemma FixedIsGood(nfc: Text -> bool, n: Name)
    requires AsciiIsNormal(nfc)
    ensures GoodText(nfc, Fixed(n))
  {
    hide CheckString, Ascii;
    assert |Fixed(n)| <= 40;
    AsciiIsGood(nfc, Fixed(n));
  }

  lemma TreeIsRead(nfc: Text -> bool, n: AstNode)
    requires GoodNode(nfc, n) && HasExactScalarContract(n)
    ensures ReadAst(nfc, NodeValue(n)).Snap? && ReadAst(nfc, NodeValue(n)).value == n
  {
    hide SnapshotAst, NodeValue, GoodNode, Tall, Size, HasExactScalarContract;
    SmallFlow(n);
    SnapshotOfNode(nfc, n, 1, Budget(1, 0));
  }

  lemma PartIsGood(nfc: Text -> bool, a: Artifact, n: Name)
    requires AsciiIsNormal(nfc) && GoodParts(nfc, a)
    ensures GoodPart(nfc, n, Part(a, n))
  {
    hide Fixed, HasExactScalarContract, NodeValue, SubjectParameter, AsciiIsNormal, CheckString, IsDigest, IsVersion, ReadAst,
      GoodNode, IsSubjectParameter;
    FixedIsGood(nfc, n);
    SubjectIsAdmitted();
    TreeIsRead(nfc, a.checkedAst);
  }

  lemma AllPartsGood(nfc: Text -> bool, a: Artifact)
    requires AsciiIsNormal(nfc) && GoodParts(nfc, a)
    ensures IsArtifact(nfc, ToValue(a))
  {
    hide Key, NameAt, Lookup, Parts, GoodPart, Part, GoodParts, AsciiIsNormal;
    var fields := Parts(a);
    forall i | 0 <= i < NAMES
      ensures IsKey(fields[i].key)
      ensures Lookup(fields, Key(NameAt(i))).Some? && GoodPart(nfc, NameAt(i), Lookup(fields, Key(NameAt(i))).value)
    {
      LookupPart(a, i);
      PartIsGood(nfc, a, NameAt(i));
    }
  }

  lemma GoodPartsAreValid(nfc: Text -> bool, a: Artifact)
    requires AsciiIsNormal(nfc) && GoodParts(nfc, a)
    ensures Valid(nfc, a)
  {
    hide Key, Lookup, IsArtifact, NodeValue, ReadAst, Parts, Part, Assemble, GoodNode, HasExactScalarContract, GoodDigest, IsVersion,
      CheckString, AsciiIsNormal;
    AllPartsGood(nfc, a);
    TreeIsRead(nfc, a.checkedAst);
    PartFound(a, CheckedAst);
    PartOfTree(a);
    AssembleBack(a);
  }

  /** The valid artifacts are those with four good digests, a good version and the admitted tree. */
  lemma ValidIff(nfc: Text -> bool, a: Artifact)
    requires AsciiIsNormal(nfc)
    ensures Valid(nfc, a) <==> GoodParts(nfc, a)
  {
    hide Validate, Fixed, HasExactScalarContract, NodeValue, SubjectParameter, AsciiIsNormal, CheckString, IsDigest, IsVersion,
      ReadAst, GoodNode, IsSubjectParameter, ToValue;
    if Valid(nfc, a) {
      TreeAgain(nfc, ToValue(a), a);
      GoodPartAgain(nfc, ToValue(a), a, SourceDigest);
      GoodPartAgain(nfc, ToValue(a), a, CompilerPackageGraphDigest);
      GoodPartAgain(nfc, ToValue(a), a, CheckerSetDigest);
      GoodPartAgain(nfc, ToValue(a), a, GeneratorSourceDigest);
      GoodPartAgain(nfc, ToValue(a), a, CompilerVersion);
    } else if GoodParts(nfc, a) {
      hide GoodParts;
      GoodPartsAreValid(nfc, a);
    }
  }

  // ----- How long the text of a value is -----

  /** No shorter than the printed text. */
  function Wide(v: Value): nat
    decreases v, 0
  {
    match v
    case Null | Bool(_) => 5
    case Number(n) => |PrintNumber(n)|
    case Str(s) => 6 * |s| + 2
    case Array(items) => 2 + WideItems(items)
    case Record(fields) => 2 + WideFields(fields)
  }

  function WideItems(items: seq<Value>): nat
    decreases items, 1
  {
    if items == [] then 0 else Wide(items[0]) + 1 + WideItems(items[1..])
  }

  function WideField(f: Field): nat
    decreases f, 1
  {
    6 * |f.key| + 4 + Wide(f.value)
  }

  function WideFields(fields: seq<Field>): nat
    decreases fields, 1
  {
    if fields == [] then 0 else WideField(fields[0]) + WideFields(fields[1..])
  }

  lemma UnitIsShort(u: Unit)
    ensures |UnitText(u)| <= 6
  {
  }

  lemma {:induction false} QuoteIsShort(s: Text)
    ensures |QuoteBody(s)| <= 6 * |s|
  {
    hide UnitText;
    if s != [] {
      if StartsPair(s) {
        QuoteIsShort(s[2..]);
      } else {
        UnitIsShort(s[0]);
        QuoteIsShort(s[1..]);
      }
    }
  }

  lemma {:induction false} PrintIsShort(v: Value)
    ensures |Print(v)| <= Wide(v)
    decreases v, 0
  {
    hide QuoteBody, PrintNumber, PrintItems, PrintFields, WideItems, WideFields;
    match v
    case Null | Bool(_) | Number(_) =>
    case Str(s) => QuoteIsShort(s);
    case Array(items) => if items != [] { ItemsAreShort(items); }
    case Record(fields) => if fields != [] { FieldsAreShort(fields); }
  }

  lemma {:induction false} ItemsAreShort(items: seq<Value>)
    requires items != []
    ensures |PrintItems(items)| <= WideItems(items)
    decreases items, 1
  {
    hide Print, Wide;
    PrintIsShort(items[0]);
    if |items| > 1 { ItemsAreShort(items[1..]); }
  }

  lemma {:induction false} FieldsAreShort(fields: seq<Field>)
    requires fields != []
    ensures |PrintFields(fields)| <= WideFields(fields)
    decreases fields, 1
  {
    hide Print, Wide, QuoteBody;
    PrintIsShort(fields[0].value);
    QuoteIsShort(fields[0].key);
    if |fields| > 1 { FieldsAreShort(fields[1..]); }
  }

  lemma {:induction false} EncodeIsShort(t: Text)
    ensures |Encode(t)| <= 3 * |t|
  {
    if t != [] { EncodeIsShort(t[if StartsPair(t) then 2 else 1..]); }
  }

  // ----- The length of a tree -----

  /** A node with no more than its kind, a value, flags and children. */
  predicate Small(n: AstNode) {
    && n.typeName.None? && n.conformsTo.None? && n.flowRef.None? && n.claim.None? && !n.isMethod && n.children.Branches?
    && |n.kind| <= 16 && (n.value.Some? ==> |n.value.value| <= 16) && (n.flags.Some? ==> |PrintNumber(n.flags.value)| <= 10)
  }

  lemma NodeFieldsNext(n: AstNode, i: nat)
    requires i < AST_FIELDS
    ensures var v := NodeField(n, AstFieldAt(i));
      WideFields(NodeFields(n, i)) == WideFields(NodeFields(n, i + 1)) + if v.Some? then 6 * |AstKey(AstFieldAt(i))| + 4 + Wide(v.value) else 0
  {
    hide AstKey, AstFieldAt, NodeField, Wide;
    var v := NodeField(n, AstFieldAt(i));
    if v.Some? {
      assert NodeFields(n, i)[1..] == NodeFields(n, i + 1);
    } else {
      assert [] + NodeFields(n, i + 1) == NodeFields(n, i + 1);
    }
  }

  lemma NodeIsShort(n: AstNode, k: nat, w: nat)
    requires Small(n) && |n.children.nodes| == k && forall i :: 0 <= i < k ==> Wide(NodeValue(Child(n, i))) <= w
    ensures Wide(NodeValue(n)) <= 360 + k * (w + 1)
  {
    hide NodeFields, NodeValues, WideFields, WideItems, PrintNumber, AstKey;
    assert forall i :: 0 <= i < k ==> Child(n, i) == n.children.nodes[i];
    NodesAreShort(n.children.nodes, w);
    AstKeysMarked(0); AstKeysMarked(1); AstKeysMarked(7); AstKeysMarked(8);
    NodeFieldsNext(n, 0); NodeFieldsNext(n, 1); NodeFieldsNext(n, 2); NodeFieldsNext(n, 3); NodeFieldsNext(n, 4);
    NodeFieldsNext(n, 5); NodeFieldsNext(n, 6); NodeFieldsNext(n, 7); NodeFieldsNext(n, 8);
    NoMoreFields(n);
  }

  lemma NoMoreFields(n: AstNode)
    ensures WideFields(NodeFields(n, AST_FIELDS)) == 0
  {
  }

  lemma {:induction false} NodesAreShort(nodes: seq<AstNode>, w: nat)
    requires forall i :: 0 <= i < |nodes| ==> Wide(NodeValue(nodes[i])) <= w
    ensures WideItems(NodeValues(nodes)) <= |nodes| * (w + 1)
  {
    hide Wide, NodeValue;
    if nodes != [] {
      NodesAreShort(nodes[1..], w);
      assert NodeValues(nodes)[1..] == NodeValues(nodes[1..]);
      assert |nodes| * (w + 1) == |nodes[1..]| * (w + 1) + w + 1;
    }
  }

  // ----- A valid artifact -----

  function Plain(kind: string, value: Option<string>, children: seq<AstNode>): AstNode {
    AstNode(Ascii(kind), if value.Some? then Some(Ascii(value.value)) else None, None, None, None, None, false, None,
            Branches(children))
  }

  predicate Letters(kind: string) {
    kind != "" && |kind| <= 16 && forall i :: 0 <= i < |kind| ==> 'a' <= kind[i] <= 'z' || 'A' <= kind[i] <= 'Z'
  }

  lemma PlainIsGood(nfc: Text -> bool, kind: string, value: Option<string>, children: seq<AstNode>)
    requires AsciiIsNormal(nfc) && Letters(kind) && (value.Some? ==> |value.value| <= 16) && |children| <= 4
    requires forall i :: 0 <= i < |children| ==> GoodNode(nfc, children[i])
    ensures GoodNode(nfc, Plain(kind, value, children)) && Small(Plain(kind, value, children))
  {
    hide CheckString, AsciiIsNormal;
    AsciiIsGood(nfc, Ascii(kind));
    if value.Some? { AsciiIsGood(nfc, Ascii(value.value)); }
  }

  /** Good, and within this length once printed. */
  predicate Fine(nfc: Text -> bool, n: AstNode, w: nat) { GoodNode(nfc, n) && Wide(NodeValue(n)) <= w }

  lemma PlainIsFine(nfc: Text -> bool, kind: string, value: Option<string>, children: seq<AstNode>, w: nat)
    requires AsciiIsNormal(nfc) && Letters(kind) && (value.Some? ==> |value.value| <= 16) && |children| <= 4
    requires forall i :: 0 <= i < |children| ==> Fine(nfc, children[i], w)
    ensures Fine(nfc, Plain(kind, value, children), 360 + |children| * (w + 1))
  {
    hide GoodNode, Wide, NodeValue, AsciiIsNormal, Letters, Small;
    PlainIsGood(nfc, kind, value, children);
    NodeIsShort(Plain(kind, value, children), |children|, w);
  }

  lemma Wider(nfc: Text -> bool, n: AstNode, w: nat, more: nat)
    requires Fine(nfc, n, w) && w <= more
    ensures Fine(nfc, n, more)
  {
    hide GoodNode, Wide, NodeValue;
  }

  function SampleArm(name: string, literal: string): AstNode {
    Plain("checkArm", Some(name), [Plain("block", None, [Plain("returnStmt", None, [Plain("stringLiteral", Some(literal), [])])])])
  }

  lemma ArmIsFine(nfc: Text -> bool, name: string, literal: string)
    requires AsciiIsNormal(nfc) && |name| <= 16 && |literal| <= 16
    ensures Fine(nfc, SampleArm(name, literal), 1500) && IsArm(SampleArm(name, literal), Ascii(name), Ascii(literal))
  {
    hide Fine, AsciiIsNormal, Ascii;
    var answer := Plain("stringLiteral", Some(literal), []);
    PlainIsFine(nfc, "stringLiteral", Some(literal), [], 0);
    PlainIsFine(nfc, "returnStmt", None, [answer], 360);
    PlainIsFine(nfc, "block", None, [Plain("returnStmt", None, [answer])], 721);
    PlainIsFine(nfc, "checkArm", Some(name), [Plain("block", None, [Plain("returnStmt", None, [answer])])], 1082);
    Wider(nfc, SampleArm(name, literal), 1443, 1500);
  }

  function SampleCheck(): AstNode {
    Plain("checkExpr", None, [Plain("identifier", Some("subject"), []), SampleArm("deny", "\"deny\""), SampleArm("ambig", "\"ambig\""),
                              SampleArm("if", "\"allow\"")])
  }

  lemma CheckIsFine(nfc: Text -> bool)
    requires AsciiIsNormal(nfc)
    ensures Fine(nfc, SampleCheck(), 6400) && IsCheck(SampleCheck())
  {
    hide Fine, AsciiIsNormal, Ascii, IsArm, SampleArm;
    PlainIsFine(nfc, "identifier", Some("subject"), [], 0);
    Wider(nfc, Plain("identifier", Some("subject"), []), 360, 1500);
    ArmIsFine(nfc, "deny", "\"deny\"");
    ArmIsFine(nfc, "ambig", "\"ambig\"");
    ArmIsFine(nfc, "if", "\"allow\"");
    var check := SampleCheck();
    PlainIsFine(nfc, "checkExpr", None, check.children.nodes, 1500);
    Wider(nfc, check, 6364, 6400);
  }

  function SampleBody(): seq<AstNode> {
    [Plain("paramDecl", Some("subject: Verdict"), [Plain("typeRef", Some("Verdict"), [])]), Plain("typeRef", Some("String"), []),
     Plain("contractDecl", None, [Plain("identifier", Some("effects:block"), [])]), Plain("block", None, [SampleCheck()])]
  }

  function SampleTree(): AstNode { Plain("pureFlowDecl", Some("scalarOracle"), SampleBody()).(flags := Some(33)) }

  lemma BodyIsFine(nfc: Text -> bool)
    requires AsciiIsNormal(nfc)
    ensures forall i :: 0 <= i < 4 ==> Fine(nfc, SampleBody()[i], 7000)
  {
    hide Fine, AsciiIsNormal, Ascii, SampleCheck;
    CheckIsFine(nfc);
    PlainIsFine(nfc, "typeRef", Some("Verdict"), [], 0);
    PlainIsFine(nfc, "paramDecl", Some("subject: Verdict"), [Plain("typeRef", Some("Verdict"), [])], 360);
    PlainIsFine(nfc, "typeRef", Some("String"), [], 0);
    PlainIsFine(nfc, "identifier", Some("effects:block"), [], 0);
    PlainIsFine(nfc, "contractDecl", None, [Plain("identifier", Some("effects:block"), [])], 360);
    PlainIsFine(nfc, "block", None, [SampleCheck()], 6400);
    var body := SampleBody();
    Wider(nfc, body[0], 721, 7000);
    Wider(nfc, body[1], 360, 7000);
    Wider(nfc, body[2], 721, 7000);
    Wider(nfc, body[3], 6761, 7000);
  }

  lemma TreeIsFine(nfc: Text -> bool)
    requires AsciiIsNormal(nfc)
    ensures Fine(nfc, SampleTree(), 28400) && HasExactScalarContract(SampleTree())
  {
    hide Fine, AsciiIsNormal, Ascii, SampleCheck, IsCheck;
    CheckIsFine(nfc);
    BodyIsFine(nfc);
    FlowIsFine(nfc, SampleBody());
  }

  lemma FlowIsFine(nfc: Text -> bool, body: seq<AstNode>)
    requires AsciiIsNormal(nfc) && |body| == 4 && forall i :: 0 <= i < 4 ==> Fine(nfc, body[i], 7000)
    ensures Fine(nfc, Plain("pureFlowDecl", Some("scalarOracle"), body).(flags := Some(33)), 28400)
  {
    hide NodeValue, AsciiIsNormal, Wide, CheckString;
    var n := Plain("pureFlowDecl", Some("scalarOracle"), body);
    PlainIsGood(nfc, "pureFlowDecl", Some("scalarOracle"), body);
    NodeIsShort(n.(flags := Some(33)), 4, 7000);
  }

  function SampleDigest(): Text { Ascii("sha256:") + seq(64, i => 0x30) }

  function SampleVersion(): Text { [0x30, 0x2E, 0x30, 0x2E, 0x30] }

  function Sample(): Artifact {
    Artifact(SampleDigest(), SampleVersion(), SampleDigest(), SampleDigest(), SampleDigest(), SampleTree())
  }

  lemma VersionIsGood(nfc: Text -> bool)
    requires AsciiIsNormal(nfc)
    ensures GoodText(nfc, SampleVersion()) && IsVersion(SampleVersion())
  {
    var t := SampleVersion();
    AsciiIsGood(nfc, t);
    assert DigitsEnd(t, 1) == 1 && DigitsEnd(t, 3) == 3 && DigitsEnd(t, 5) == 5;
    assert DigitsEnd(t, 0) == 1 && DigitsEnd(t, 2) == 3 && DigitsEnd(t, 4) == 5;
  }

  lemma DigestIsGood(nfc: Text -> bool)
    requires AsciiIsNormal(nfc)
    ensures GoodDigest(nfc, SampleDigest()) && |SampleDigest()| == 71
  {
    hide CheckString;
    AsciiIsGood(nfc, SampleDigest());
    assert SampleDigest()[..7] == Ascii("sha256:");
  }

  lemma SampleParts(nfc: Text -> bool)
    requires AsciiIsNormal(nfc)
    ensures GoodParts(nfc, Sample()) && Wide(NodeValue(SampleTree())) <= 28400
  {
    hide AsciiIsNormal, GoodNode, HasExactScalarContract, GoodDigest, IsVersion, CheckString, SampleTree, SampleDigest, SampleVersion;
    VersionIsGood(nfc);
    DigestIsGood(nfc);
    TreeIsFine(nfc);
  }

  // ----- Its length -----

  lemma {:induction false} FieldsAreNarrow(fields: seq<Field>, w: nat)
    requires forall i :: 0 <= i < |fields| ==> WideField(fields[i]) <= w
    ensures WideFields(fields) <= |fields| * w
    decreases |fields|
  {
    hide WideField;
    if fields != [] {
      FieldsAreNarrow(fields[1..], w);
      assert |fields| * w == |fields[1..]| * w + w;
    }
  }

  lemma SubjectIsShort()
    ensures Wide(Array([SubjectParameter()])) <= 200
  {
    hide Ascii;
    var p := SubjectParameter();
    assert p.fields[1..] == [p.fields[1]] && p.fields[1..][1..] == [];
    assert [p][1..] == [];
    assert WideFields(p.fields[1..]) == WideField(p.fields[1]);
    assert WideItems([p]) == Wide(p) + 1 + WideItems([]);
  }

  lemma KeyIsShort(n: Name)
    ensures |Key(n)| <= 30
  {
    hide Ascii;
  }

  /** Every part but the tree is short. */
  lemma PartIsShort(n: Name)
    requires n != CheckedAst
    ensures Wide(Part(Sample(), n)) <= 500
  {
    hide Wide, NodeValue, SampleTree, SampleDigest, SubjectParameter;
    SubjectIsShort();
    TextsAreShort(n);
  }

  lemma TextsAreShort(n: Name)
    ensures Wide(Str(Fixed(n))) <= 500 && Wide(Str(SampleDigest())) <= 500 && Wide(Str(SampleVersion())) <= 500
    ensures Wide(Number(1)) <= 500 && Wide(Array([])) <= 500
  {
    hide Ascii;
    assert |Fixed(n)| <= 40;
  }

  lemma AnyPartIsShort(n: Name)
    requires Wide(NodeValue(SampleTree())) <= 28400
    ensures Wide(Part(Sample(), n)) <= if n == CheckedAst then 28400 else 500
  {
    hide Wide, NodeValue, SampleTree;
    if n != CheckedAst { PartIsShort(n); }
  }

  lemma FieldIsShort(i: nat)
    requires i < NAMES && Wide(NodeValue(SampleTree())) <= 28400
    ensures WideField(Parts(Sample())[i]) <= if NameAt(i) == CheckedAst then 28600 else 700
  {
    hide Wide, Part, Sample, SampleTree, NameAt, Key;
    KeyIsShort(NameAt(i));
    AnyPartIsShort(NameAt(i));
  }

  lemma FieldsTogether(fields: seq<Field>)
    requires |fields| == 22 && WideField(fields[21]) <= 28600 && forall i :: 0 <= i < 21 ==> WideField(fields[i]) <= 700
    ensures WideFields(fields) <= 50000
  {
    hide WideField, WideFields;
    FieldsAreNarrow(fields[..21], 700);
    WideAppend(fields[..21], fields[21]);
    assert fields == fields[..21] + [fields[21]];
  }

  lemma SampleIsShort(nfc: Text -> bool)
    requires AsciiIsNormal(nfc)
    ensures |Print(ToValue(Sample()))| <= 60000
  {
    hide Parts, Print, NameAt, WideField, AsciiIsNormal, Sample, SampleTree, WideFields, NodeValue, GoodParts;
    var fields := Parts(Sample());
    SampleParts(nfc);
    FieldIsShort(21);
    forall i | 0 <= i < 21 ensures WideField(fields[i]) <= 700 {
      FieldIsShort(i);
      NotTree(i);
    }
    FieldsTogether(fields);
    PrintIsShort(ToValue(Sample()));
  }

  lemma NotTree(i: nat)
    requires i < 21
    ensures NameAt(i) != CheckedAst
  {
  }

  lemma {:induction false} WideAppend(fields: seq<Field>, f: Field)
    ensures WideFields(fields + [f]) == WideFields(fields) + WideField(f)
    decreases |fields|
  {
    hide WideField;
    if fields == [] {
      assert [] + [f] == [f] && [f][1..] == [] && WideFields([]) == 0;
    } else {
      assert (fields + [f])[1..] == fields[1..] + [f];
      WideAppend(fields[1..], f);
    }
  }

  /** There is an artifact that is valid under any normalisation test that accepts ASCII text, whose bytes are within the
      bound and which is therefore encoded and decoded. */
  lemma SampleRoundTrips(nfc: Text -> bool)
    requires AsciiIsNormal(nfc)
    ensures Valid(nfc, Sample()) && InByteBound(ArtifactBytes(Sample()))
    ensures EncodeArtifact(nfc, ToValue(Sample())) == Bytes(ArtifactBytes(Sample()))
    ensures DecodeArtifact(nfc, ArtifactBytes(Sample())) == Decoded(Sample())
  {
    hide AsciiIsNormal, GoodParts, Validate, Print, Encode, ToValue, DecodeArtifact, Sample;
    SampleParts(nfc);
    ValidIff(nfc, Sample());
    SampleIsShort(nfc);
    EncodeIsShort(Print(ToValue(Sample())) + [LINE_FEED]);
    BytesArePresentable(Sample());
    EncodedIsDecoded(nfc, Sample());
  }
}
