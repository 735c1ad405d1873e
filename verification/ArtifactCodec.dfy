/** The artifact codec: the canonical value and bytes of an artifact, the checks before decoding, and why
    validating a canonical value changes nothing and stays within the bounds of the scanner. */
module ArtifactCodec {
  import opened Ast
  import opened Utf8
  import opened Json
  import opened JsonRoundTrip
  import opened Artifact
  import opened ArtifactTree

  // ----- The canonical value of an artifact -----

  function SubjectParameter(): Value {
    Record([Field(Ascii("name"), Str(Ascii("subject"))), Field(Ascii("type"), Str(Ascii("Verdict")))])
  }

  function Part(a: Artifact, n: Name): Value {
    match n
    case LanguageVersion => Number(1)
    case Parameters => Array([SubjectParameter()])
    case DeclaredEffects => Array([])
    case CheckedAst => NodeValue(a.checkedAst)
    case CompilerVersion => Str(a.compilerVersion)
    case SourceDigest => Str(a.sourceDigest)
    case CompilerPackageGraphDigest => Str(a.compilerPackageGraphDigest)
    case CheckerSetDigest => Str(a.checkerSetDigest)
    case GeneratorSourceDigest => Str(a.generatorSourceDigest)
    case _ => Str(Fixed(n))
  }

  function Parts(a: Artifact): (r: seq<Field>)
    ensures |r| == NAMES
    ensures forall i :: 0 <= i < NAMES ==> r[i] == Field(Key(NameAt(i)), Part(a, NameAt(i)))
  {
    seq(NAMES, i requires 0 <= i < NAMES => Field(Key(NameAt(i)), Part(a, NameAt(i))))
  }

  function ToValue(a: Artifact): Value { Record(Parts(a)) }

  // ----- The codec -----

  datatype CodecRefusal =
    | Invalid | ByteBound | ByteOrderMark | CanonicalLf | CanonicalCr | InvalidUtf8 | Scanner(why: Refusal) | NonCanonical

  datatype Encoded = Bytes(bytes: seq<Byte>) | NotEncoded(why: CodecRefusal)

  datatype Decoded = Decoded(artifact: Artifact) | NotDecoded(why: CodecRefusal)

  function ArtifactBytes(a: Artifact): seq<Byte> {
    Encode(Print(ToValue(a)) + [LINE_FEED])
  }

  predicate InByteBound(b: seq<Byte>) { 2 <= |b| <= MAX_BYTES }

  function EncodeArtifact(nfc: Text -> bool, v: Value): Encoded {
    match Validate(nfc, v)
    case None => NotEncoded(Invalid)
    case Some(a) => if InByteBound(ArtifactBytes(a)) then Bytes(ArtifactBytes(a)) else NotEncoded(ByteBound)
  }

  predicate HasMark(b: seq<Byte>)
    requires |b| >= 2
  {
    b[0] == 0xEF && b[1] == 0xBB && |b| > 2 && b[2] == 0xBF
  }

  predicate EndsInOneLine(b: seq<Byte>)
    requires |b| >= 2
  {
    b[|b| - 1] == LINE_FEED && b[|b| - 2] != LINE_FEED
  }

  function DecodeArtifact(nfc: Text -> bool, b: seq<Byte>): Decoded {
    if !InByteBound(b) then NotDecoded(ByteBound)
    else if HasMark(b) then NotDecoded(ByteOrderMark)
    else if !EndsInOneLine(b) then NotDecoded(CanonicalLf)
    else if 0x0D in b then NotDecoded(CanonicalCr)
    else
      match Decode(b[..|b| - 1])
      case None => NotDecoded(InvalidUtf8)
      case Some(source) => DecodeText(nfc, source, b)
  }

  function DecodeText(nfc: Text -> bool, source: Text, b: seq<Byte>): Decoded {
    match ParseText(nfc, source)
    case Rejected(why) => NotDecoded(Scanner(why))
    case Parsed(v) =>
      match Validate(nfc, v)
      case None => NotDecoded(Invalid)
      case Some(a) =>
        match EncodeArtifact(nfc, ToValue(a))
        case NotEncoded(why) => NotDecoded(why)
        case Bytes(again) => if again == b then Decoded(a) else NotDecoded(NonCanonical)
  }

  method DecodeCheckedFlowArtifact(nfc: Text -> bool, bytes: seq<Byte>) returns (r: Decoded)
    ensures r == DecodeArtifact(nfc, bytes)
  {
    if |bytes| < 2 || |bytes| > MAX_BYTES { return NotDecoded(ByteBound); }
    if HasMark(bytes) { return NotDecoded(ByteOrderMark); }
    if bytes[|bytes| - 1] != LINE_FEED || bytes[|bytes| - 2] == LINE_FEED { return NotDecoded(CanonicalLf); }
    for i := 0 to |bytes|
      invariant 0x0D !in bytes[..i]
    {
      if bytes[i] == 0x0D { return NotDecoded(CanonicalCr); }
    }
    assert bytes[..|bytes|] == bytes;
    var source := Decode(bytes[..|bytes| - 1]);
    if source.None? { return NotDecoded(InvalidUtf8); }
    r := DecodeCanonical(nfc, source.value, bytes);
  }

  method DecodeCanonical(nfc: Text -> bool, source: Text, bytes: seq<Byte>) returns (r: Decoded)
    ensures r == DecodeText(nfc, source, bytes)
  {
    hide ParseText, Validate, EncodeArtifact, ToValue;
    var scanner := new JsonScanner(nfc, source);
    var parsed := scanner.Parse();
    if parsed.Rejected? { return NotDecoded(Scanner(parsed.why)); }
    var artifact := Validate(nfc, parsed.value);
    if artifact.None? { return NotDecoded(Invalid); }
    var again := EncodeArtifact(nfc, ToValue(artifact.value));
    if again.NotEncoded? { return NotDecoded(again.why); }
    if |again.bytes| != |bytes| { return NotDecoded(NonCanonical); }
    for i := 0 to |bytes|
      invariant again.bytes[..i] == bytes[..i]
    {
      if again.bytes[i] != bytes[i] { return NotDecoded(NonCanonical); }
    }
    assert again.bytes == bytes;
    r := Decoded(artifact.value);
  }

  // ----- Validation of a canonical value -----

  /** The fields of a canonical value are found under their names. */
  lemma LookupPart(a: Artifact, i: nat)
    requires i < NAMES
    ensures Lookup(Parts(a), Key(NameAt(i))) == Some(Part(a, NameAt(i)))
  {
    hide Key, NameAt, Part, Find;
    var j := Find(Parts(a), Key(NameAt(i)));
    assert Parts(a)[i].key == Key(NameAt(i));
    if j.Some? && j.value != i { NamesDiffer(i, j.value); }
  }

  lemma NameAtCovers(n: Name)
    ensures exists i: nat :: i < NAMES && NameAt(i) == n
  {
    match n
    case Schema => assert NameAt(0) == n;
    case HashAlgorithm => assert NameAt(1) == n;
    case ProductId => assert NameAt(2) == n;
    case PackageId => assert NameAt(3) == n;
    case FlowLocator => assert NameAt(4) == n;
    case FlowName => assert NameAt(5) == n;
    case LanguageVersion => assert NameAt(6) == n;
    case RuntimeProfile => assert NameAt(7) == n;
    case SourceCanonicalization => assert NameAt(8) == n;
    case SourceDigest => assert NameAt(9) == n;
    case CompilerPackageId => assert NameAt(10) == n;
    case CompilerVersion => assert NameAt(11) == n;
    case CompilerPackageGraphDigest => assert NameAt(12) == n;
    case CheckerSetId => assert NameAt(13) == n;
    case CheckerSetDigest => assert NameAt(14) == n;
    case GeneratorId => assert NameAt(15) == n;
    case GeneratorSourceDigest => assert NameAt(16) == n;
    case Qualifier => assert NameAt(17) == n;
    case Parameters => assert NameAt(18) == n;
    case ReturnType => assert NameAt(19) == n;
    case DeclaredEffects => assert NameAt(20) == n;
    case CheckedAst => assert NameAt(21) == n;
  }

  lemma PartFound(a: Artifact, n: Name)
    ensures Lookup(Parts(a), Key(n)) == Some(Part(a, n))
  {
    hide Key, NameAt, Part, Parts, Lookup;
    NameAtCovers(n);
    var i: nat :| i < NAMES && NameAt(i) == n;
    LookupPart(a, i);
  }

  lemma PartAdmitted(nfc: Text -> bool, v: Value, n: Name)
    requires IsArtifact(nfc, v)
    ensures v.Record? && Lookup(v.fields, Key(n)).Some? && GoodPart(nfc, n, Lookup(v.fields, Key(n)).value)
  {
    hide Key, NameAt, GoodPart, Lookup, IsKey;
    NameAtCovers(n);
  }

  lemma SubjectIsAdmitted()
    ensures IsSubjectParameter(SubjectParameter())
  {
    hide Ascii;
    var name, tpe := Ascii("name"), Ascii("type");
    ParameterNamesDiffer();
    LookupCons(Field(name, Str(Ascii("subject"))), [Field(tpe, Str(Ascii("Verdict")))], name);
    LookupCons(Field(name, Str(Ascii("subject"))), [Field(tpe, Str(Ascii("Verdict")))], tpe);
    LookupCons(Field(tpe, Str(Ascii("Verdict"))), [], tpe);
  }

  lemma ParameterNamesDiffer()
    ensures Ascii("name") != Ascii("type")
  {
    assert Ascii("name")[0] == 'n' as int;
  }

  /** The tree of an admitted artifact, printed and read again, is the same tree. */
  lemma TreeReadsBack(nfc: Text -> bool, v: Value)
    requires ReadAst(nfc, v).Snap?
    ensures ReadAst(nfc, NodeValue(ReadAst(nfc, v).value)) == ReadAst(nfc, v)
    ensures GoodNode(nfc, ReadAst(nfc, v).value)
  {
    hide SnapshotAst, NodeValue, GoodNode, Tall, Size;
    SnapshotIsGood(nfc, v, 1, Budget(1, 0));
    SnapshotOfNode(nfc, ReadAst(nfc, v).value, 1, Budget(1, 0));
  }

  lemma GoodPartAgain(nfc: Text -> bool, v: Value, a: Artifact, n: Name)
    requires Validate(nfc, v) == Some(a)
    ensures GoodPart(nfc, n, Part(a, n))
    ensures n != CheckedAst && n != Parameters ==> Lookup(v.fields, Key(n)) == Some(Part(a, n))
  {
    hide Key, NameAt, Lookup, IsArtifact, NodeValue, Fixed, CheckString, IsDigest, IsVersion, HasExactScalarContract,
      IsSubjectParameter, ReadAst, SubjectParameter;
    assert IsArtifact(nfc, v);
    PartAdmitted(nfc, v, n);
    if n == CheckedAst {
      TreeReadsBack(nfc, Lookup(v.fields, Key(n)).value);
    } else if n == Parameters {
      SubjectIsAdmitted();
    }
  }

  lemma CanonicalIsArtifact(nfc: Text -> bool, v: Value, a: Artifact)
    requires Validate(nfc, v) == Some(a)
    ensures IsArtifact(nfc, ToValue(a))
  {
    hide Key, NameAt, Lookup, Validate, Parts, GoodPart, Part;
    var fields := Parts(a);
    forall i | 0 <= i < NAMES
      ensures IsKey(fields[i].key)
      ensures Lookup(fields, Key(NameAt(i))).Some? && GoodPart(nfc, NameAt(i), Lookup(fields, Key(NameAt(i))).value)
    {
      LookupPart(a, i);
      GoodPartAgain(nfc, v, a, NameAt(i));
    }
  }

  lemma TreeAgain(nfc: Text -> bool, v: Value, a: Artifact)
    requires Validate(nfc, v) == Some(a)
    ensures ReadAst(nfc, NodeValue(a.checkedAst)).Snap? && ReadAst(nfc, NodeValue(a.checkedAst)).value == a.checkedAst
    ensures GoodNode(nfc, a.checkedAst) && HasExactScalarContract(a.checkedAst)
  {
    hide Key, Lookup, IsArtifact, NodeValue, ReadAst, HasExactScalarContract, GoodNode, PartText;
    PartAdmitted(nfc, v, CheckedAst);
    TreeReadsBack(nfc, Lookup(v.fields, Key(CheckedAst)).value);
  }

  lemma AssembleBack(a: Artifact)
    ensures Assemble(Parts(a), a.checkedAst) == a
  {
    hide Key, Lookup, Parts, NodeValue, Fixed;
    PartFound(a, SourceDigest);
    PartFound(a, CompilerVersion);
    PartFound(a, CompilerPackageGraphDigest);
    PartFound(a, CheckerSetDigest);
    PartFound(a, GeneratorSourceDigest);
  }

  lemma PartOfTree(a: Artifact)
    ensures Part(a, CheckedAst) == NodeValue(a.checkedAst)
  {
    hide NodeValue;
  }

  /** Validation returns the canonical copy: validating that copy changes nothing. */
  lemma ValidateIsIdempotent(nfc: Text -> bool, v: Value, a: Artifact)
    requires Validate(nfc, v) == Some(a)
    ensures Validate(nfc, ToValue(a)) == Some(a)
  {
    hide Key, Lookup, IsArtifact, NodeValue, ReadAst, Parts, Part, Assemble, GoodNode, HasExactScalarContract;
    CanonicalIsArtifact(nfc, v, a);
    TreeAgain(nfc, v, a);
    PartFound(a, CheckedAst);
    PartOfTree(a);
    AssembleBack(a);
  }

  // ----- A canonical value is within the scanner's bounds -----

  predicate IsAscii(t: Text) { forall i :: 0 <= i < |t| ==> t[i] < 0x80 }

  /** What is assumed of the platform's normalisation test. */
  ghost predicate AsciiIsNormal(nfc: Text -> bool) {
    forall t: Text :: IsAscii(t) ==> nfc(t)
  }

  lemma AsciiIsGood(nfc: Text -> bool, t: Text)
    requires AsciiIsNormal(nfc) && IsAscii(t) && |t| <= MAX_STRING_BYTES
    ensures GoodText(nfc, t)
  {
    AsciiLength(t);
  }

  lemma AstKeyIsGood(nfc: Text -> bool, i: nat)
    requires AsciiIsNormal(nfc) && i < AST_FIELDS
    ensures GoodText(nfc, AstKey(AstFieldAt(i)))
  {
    hide AstKey, CheckString;
    AstKeysMarked(i);
    AsciiIsGood(nfc, AstKey(AstFieldAt(i)));
  }

  lemma KeyIsGood(nfc: Text -> bool, i: nat)
    requires AsciiIsNormal(nfc) && i < NAMES
    ensures GoodText(nfc, Key(NameAt(i)))
  {
    hide Spelling, CheckString;
    SpellingsMarked(i);
    AsciiIsGood(nfc, Key(NameAt(i)));
  }

  lemma MethodIsGood(nfc: Text -> bool)
    requires AsciiIsNormal(nfc)
    ensures GoodText(nfc, METHOD())
  {
    hide CheckString;
    AsciiIsGood(nfc, METHOD());
  }

  lemma {:induction false} NodeIsAdmissible(nfc: Text -> bool, node: AstNode)
    requires AsciiIsNormal(nfc) && GoodNode(nfc, node)
    ensures Admissible(nfc, NodeValue(node))
    decreases node, 1
  {
    hide NodeFields, NodeField, GoodNode, AstKey, AstFieldAt, Admissible, DistinctKeys, CheckString;
    var fields := NodeFields(node, 0);
    NodeKeys(node, 0);
    forall k | 0 <= k < |fields| ensures AdmissibleField(nfc, fields[k]) {
      assert fields[k] in fields;
      var j: nat :| OwnField(node, 0, j, fields[k]);
      AstKeyIsGood(nfc, j);
      FieldIsAdmissible(nfc, node, AstFieldAt(j));
    }
    RecordIsAdmissible(nfc, fields);
  }

  lemma RecordIsAdmissible(nfc: Text -> bool, fields: seq<Field>)
    requires |fields| <= MAX_RECORD_FIELDS && DistinctKeys(fields)
    requires forall k :: 0 <= k < |fields| ==> AdmissibleField(nfc, fields[k])
    ensures Admissible(nfc, Record(fields))
  {
    hide AdmissibleField, DistinctKeys;
  }

  lemma {:induction false} FieldIsAdmissible(nfc: Text -> bool, node: AstNode, f: AstField)
    requires AsciiIsNormal(nfc) && GoodNode(nfc, node) && NodeField(node, f).Some?
    ensures Admissible(nfc, NodeField(node, f).value)
    decreases node, 0
  {
    hide NodeValues, CheckString, METHOD, IsKind, AsciiIsNormal;
    MethodIsGood(nfc);
    if f == Children { NodesAreAdmissible(nfc, node.children.nodes); }
  }

  lemma {:induction false} NodesAreAdmissible(nfc: Text -> bool, nodes: seq<AstNode>)
    requires AsciiIsNormal(nfc) && forall i :: 0 <= i < |nodes| ==> GoodNode(nfc, nodes[i])
    ensures forall i :: 0 <= i < |nodes| ==> Admissible(nfc, NodeValues(nodes)[i])
    decreases nodes, 2
  {
    hide NodeValue, GoodNode, Admissible, AsciiIsNormal;
    if nodes != [] {
      NodeIsAdmissible(nfc, nodes[0]);
      NodesAreAdmissible(nfc, nodes[1..]);
      assert NodeValues(nodes)[1..] == NodeValues(nodes[1..]);
    }
  }

  /** Fields of a node from `i` on: one value each, and the list of children within `h` and `c`. */
  lemma {:induction false} NodeFieldsFit(node: AstNode, i: nat, h: nat, c: nat)
    requires i <= AST_FIELDS && h >= 1 && c >= 1
    requires node.children.Branches? ==>
      Height(Array(NodeValues(node.children.nodes))) <= h && Count(Array(NodeValues(node.children.nodes))) <= c
    ensures FieldsHeight(NodeFields(node, i)) <= h
    ensures FieldsCount(NodeFields(node, i)) <= if i == AST_FIELDS then 0 else AST_FIELDS - 1 - i + c
    decreases AST_FIELDS - i
  {
    hide Height, Count, FieldsHeight, FieldsCount, NodeField, AstKey;
    if i == AST_FIELDS {
      NoFieldsFit();
    } else {
      NodeFieldsFit(node, i + 1, h, c);
      NodeFieldFits(node, i, h, c);
      var v := NodeField(node, AstFieldAt(i));
      if v.Some? {
        HeadOfFields(NodeFields(node, i));
        assert NodeFields(node, i)[1..] == NodeFields(node, i + 1);
      } else {
        assert [] + NodeFields(node, i + 1) == NodeFields(node, i + 1);
      }
    }
  }

  lemma NoFieldsFit()
    ensures FieldsHeight([]) == 0 && FieldsCount([]) == 0 && ItemsHeight([]) == 0 && ItemsCount([]) == 0
  {
  }

  lemma NodeFieldFits(node: AstNode, i: nat, h: nat, c: nat)
    requires i < AST_FIELDS && h >= 1 && c >= 1
    requires node.children.Branches? ==>
      Height(Array(NodeValues(node.children.nodes))) <= h && Count(Array(NodeValues(node.children.nodes))) <= c
    ensures var v := NodeField(node, AstFieldAt(i));
      v.Some? ==> Height(v.value) <= h && Count(v.value) <= if i == AST_FIELDS - 1 then c else 1
  {
    hide NodeValues, METHOD, ItemsHeight, ItemsCount;
  }

  /** Every child fits within `h` and `c`. */
  predicate AllFit(nodes: seq<AstNode>, h: nat, c: nat) {
    forall i :: 0 <= i < |nodes| ==> FitsIn(nodes[i], h, c)
  }

  predicate FitsIn(node: AstNode, h: nat, c: nat) { Height(NodeValue(node)) <= h && Count(NodeValue(node)) <= c }

  lemma {:induction false} NodesFit(nodes: seq<AstNode>, h: nat, c: nat)
    requires AllFit(nodes, h, c)
    ensures ItemsHeight(NodeValues(nodes)) <= h && ItemsCount(NodeValues(nodes)) <= |nodes| * c
  {
    hide Height, Count, NodeValue, ItemsHeight, ItemsCount;
    if nodes == [] {
      NoFieldsFit();
    } else {
      NodesFit(nodes[1..], h, c);
      HeadOfItems(NodeValues(nodes));
      assert FitsIn(nodes[0], h, c);
      assert NodeValues(nodes)[1..] == NodeValues(nodes[1..]);
      assert |nodes| * c == |nodes[1..]| * c + c;
    }
  }

  lemma NodeFits(node: AstNode, kind: Text, k: nat, h: nat, c: nat)
    requires Shaped(node, kind, k) && AllFit(node.children.nodes, h, c)
    ensures FitsIn(node, h + 2, 10 + k * c)
  {
    hide NodeFields, NodeValues, ItemsHeight, ItemsCount, FieldsHeight, FieldsCount, AllFit;
    NodesFit(node.children.nodes, h, c);
    NodeFieldsFit(node, 0, h + 1, 1 + k * c);
  }

  lemma LeafFits(node: AstNode, kind: Text, value: Text)
    requires Leaf(node, kind, value)
    ensures FitsIn(node, 2, 10)
  {
    hide FitsIn;
    NodeFits(node, kind, 0, 0, 0);
  }

  lemma SmallFits(node: AstNode, h: nat, c: nat, h': nat, c': nat)
    requires FitsIn(node, h, c) && h <= h' && c <= c'
    ensures FitsIn(node, h', c')
  {
    hide Height, Count, NodeValue;
  }

  lemma ArmFits(arm: AstNode, name: Text, literal: Text)
    requires IsArm(arm, name, literal)
    ensures FitsIn(arm, 8, 40)
  {
    hide FitsIn, Ascii;
    var body := Child(arm, 0);
    var answer := Child(body, 0);
    LeafFits(Child(answer, 0), Ascii("stringLiteral"), literal);
    NodeFits(answer, Ascii("returnStmt"), 1, 2, 10);
    NodeFits(body, Ascii("block"), 1, 4, 20);
    NodeFits(arm, Ascii("checkArm"), 1, 6, 30);
  }

  lemma CheckFits(check: AstNode)
    requires IsCheck(check)
    ensures FitsIn(check, 10, 170)
  {
    hide FitsIn, Ascii, IsArm;
    LeafFits(Child(check, 0), Ascii("identifier"), Ascii("subject"));
    SmallFits(Child(check, 0), 2, 10, 8, 40);
    ArmFits(Child(check, 1), Ascii("deny"), Ascii("\"deny\""));
    ArmFits(Child(check, 2), Ascii("ambig"), Ascii("\"ambig\""));
    ArmFits(Child(check, 3), Ascii("if"), Ascii("\"allow\""));
    NodeFits(check, Ascii("checkExpr"), 4, 8, 40);
  }

  lemma PartsOfFlowFit(n: AstNode)
    requires HasExactScalarContract(n)
    ensures FitsIn(Child(n, 0), 4, 20) && FitsIn(Child(n, 1), 2, 10) && FitsIn(Child(n, 2), 4, 20) && FitsIn(Child(n, 3), 12, 180)
  {
    hide FitsIn, Ascii, IsCheck;
    LeafFits(Child(Child(n, 0), 0), Ascii("typeRef"), Ascii("Verdict"));
    NodeFits(Child(n, 0), Ascii("paramDecl"), 1, 2, 10);
    LeafFits(Child(n, 1), Ascii("typeRef"), Ascii("String"));
    LeafFits(Child(Child(n, 2), 0), Ascii("identifier"), Ascii("effects:block"));
    NodeFits(Child(n, 2), Ascii("contractDecl"), 1, 2, 10);
    CheckFits(Child(Child(n, 3), 0));
    NodeFits(Child(n, 3), Ascii("block"), 1, 10, 170);
  }

  lemma FlowFits(n: AstNode)
    requires HasExactScalarContract(n)
    ensures FitsIn(n, 14, 730)
  {
    PartsOfFlowFit(n);
    hide FitsIn, Ascii, IsCheck;
    SmallFits(Child(n, 0), 4, 20, 12, 180);
    SmallFits(Child(n, 1), 2, 10, 12, 180);
    SmallFits(Child(n, 2), 4, 20, 12, 180);
    NodeFits(n, Ascii("pureFlowDecl"), 4, 12, 180);
  }

  lemma {:induction false} FieldsFit(fields: seq<Field>, h: nat, c: nat)
    requires forall i :: 0 <= i < |fields| ==> Height(fields[i].value) <= h && Count(fields[i].value) <= c
    ensures FieldsHeight(fields) <= h && FieldsCount(fields) <= |fields| * c
  {
    hide Height, Count;
    if fields != [] {
      FieldsFit(fields[..|fields| - 1], h, c);
      assert |fields| * c == (|fields| - 1) * c + c;
    }
  }

  lemma SubjectFits()
    ensures Height(Array([SubjectParameter()])) <= 14 && Count(Array([SubjectParameter()])) <= 730
  {
    hide Ascii;
    var p := SubjectParameter();
    FieldsFit(p.fields, 1, 1);
    AddItem([], p);
    assert [] + [p] == [p];
    NoFieldsFit();
  }

  lemma PartFits(a: Artifact, n: Name)
    requires HasExactScalarContract(a.checkedAst)
    ensures Height(Part(a, n)) <= 14 && Count(Part(a, n)) <= 730
  {
    hide Fixed, HasExactScalarContract, NodeValue, SubjectParameter;
    FlowFits(a.checkedAst);
    SubjectFits();
    NoFieldsFit();
  }

  lemma SubjectIsAdmissible(nfc: Text -> bool)
    requires AsciiIsNormal(nfc)
    ensures Admissible(nfc, Array([SubjectParameter()]))
  {
    hide Ascii, CheckString, AsciiIsNormal;
    SubjectTextsAreGood(nfc);
    ParameterNamesDiffer();
    var p := SubjectParameter();
    assert AdmissibleField(nfc, p.fields[0]) && AdmissibleField(nfc, p.fields[1]);
    RecordIsAdmissible(nfc, p.fields);
  }

  lemma SubjectTextsAreGood(nfc: Text -> bool)
    requires AsciiIsNormal(nfc)
    ensures GoodText(nfc, Ascii("name")) && GoodText(nfc, Ascii("type"))
    ensures GoodText(nfc, Ascii("subject")) && GoodText(nfc, Ascii("Verdict"))
  {
    hide CheckString;
    AsciiIsGood(nfc, Ascii("name"));
    AsciiIsGood(nfc, Ascii("type"));
    AsciiIsGood(nfc, Ascii("subject"));
    AsciiIsGood(nfc, Ascii("Verdict"));
  }

  lemma PartIsAdmissible(nfc: Text -> bool, v: Value, a: Artifact, n: Name)
    requires AsciiIsNormal(nfc) && Validate(nfc, v) == Some(a)
    ensures Admissible(nfc, Part(a, n))
  {
    hide Fixed, HasExactScalarContract, NodeValue, SubjectParameter, AsciiIsNormal, Validate, CheckString, IsDigest, IsVersion,
      ReadAst, GoodNode, IsSubjectParameter;
    GoodPartAgain(nfc, v, a, n);
    if n == CheckedAst {
      TreeAgain(nfc, v, a);
      NodeIsAdmissible(nfc, a.checkedAst);
    } else if n == Parameters {
      SubjectIsAdmissible(nfc);
    }
  }

  lemma PartKeysDiffer(a: Artifact)
    ensures DistinctKeys(Parts(a))
  {
    hide Key, NameAt, Part;
    forall i, j | 0 <= i < j < NAMES ensures Parts(a)[i].key != Parts(a)[j].key { NamesDiffer(i, j); }
  }

  lemma CanonicalIsBounded(nfc: Text -> bool, v: Value, a: Artifact)
    requires AsciiIsNormal(nfc) && Validate(nfc, v) == Some(a)
    ensures Bounded(nfc, ToValue(a))
  {
    hide Key, NameAt, Part, Height, Count, FieldsHeight, FieldsCount, Admissible, Validate, AsciiIsNormal, CheckString,
      HasExactScalarContract, GoodNode, DistinctKeys;
    var fields := Parts(a);
    TreeAgain(nfc, v, a);
    PartKeysDiffer(a);
    forall i | 0 <= i < NAMES
      ensures AdmissibleField(nfc, fields[i]) && Height(fields[i].value) <= 14 && Count(fields[i].value) <= 730
    {
      KeyIsGood(nfc, i);
      PartIsAdmissible(nfc, v, a, NameAt(i));
      PartFits(a, NameAt(i));
    }
    RecordIsAdmissible(nfc, fields);
    FieldsFit(fields, 14, 730);
    RecordSize(fields);
  }

  lemma RecordSize(fields: seq<Field>)
    ensures Height(Record(fields)) == 1 + FieldsHeight(fields) && Count(Record(fields)) == 1 + FieldsCount(fields)
  {
  }
}
