/** Canonical values of artifact trees, and why a snapshot of one is the tree itself: every field is found
    again under its own key, and the copy spends one unit of its budget for each node. */
module ArtifactTree {
  import opened Ast
  import opened Utf8
  import opened Json
  import opened JsonRoundTrip
  import opened Artifact

  // ----- The canonical value of a tree -----

  function TextField(t: Option<Text>): Option<Value> {
    if t.Some? then Some(Str(t.value)) else None
  }

  function NodeField(node: AstNode, f: AstField): Option<Value>
    decreases node, 2
  {
    match f
    case NodeKind => Some(Str(node.kind))
    case NodeText => TextField(node.value)
    case TypeName => TextField(node.typeName)
    case ConformsTo => TextField(node.conformsTo)
    case FlowRef => TextField(node.flowRef)
    case Claim => TextField(node.claim)
    case CallStyle => if node.isMethod then Some(Str(METHOD())) else None
    case Flags => if node.flags.Some? then Some(Number(node.flags.value)) else None
    case Children => if node.children.Branches? then Some(Array(NodeValues(node.children.nodes))) else None
  }

  /** The present fields of a node from position `i` on. */
  function NodeFields(node: AstNode, i: nat): seq<Field>
    requires i <= AST_FIELDS
    decreases node, 3 + AST_FIELDS - i
  {
    if i == AST_FIELDS then []
    else
      var v := NodeField(node, AstFieldAt(i));
      (if v.Some? then [Field(AstKey(AstFieldAt(i)), v.value)] else []) + NodeFields(node, i + 1)
  }

  function NodeValue(node: AstNode): Value
    decreases node, 4 + AST_FIELDS
  {
    Record(NodeFields(node, 0))
  }

  function NodeValues(nodes: seq<AstNode>): (r: seq<Value>)
    ensures |r| == |nodes|
    decreases nodes, 1
  {
    if nodes == [] then [] else [NodeValue(nodes[0])] + NodeValues(nodes[1..])
  }

  predicate GoodOption(nfc: Text -> bool, t: Option<Text>) { t.Some? ==> GoodText(nfc, t.value) }

  /** The trees a snapshot can produce. */
  predicate GoodNode(nfc: Text -> bool, node: AstNode)
    decreases node
  {
    && GoodText(nfc, node.kind) && IsKind(node.kind)
    && GoodOption(nfc, node.value) && GoodOption(nfc, node.typeName) && GoodOption(nfc, node.conformsTo)
    && GoodOption(nfc, node.flowRef) && GoodOption(nfc, node.claim)
    && (node.flags.Some? ==> IsSafe(node.flags.value))
    && (node.children.Branches? ==>
        |node.children.nodes| <= MAX_ARRAY_ITEMS &&
        forall i :: 0 <= i < |node.children.nodes| ==> GoodNode(nfc, node.children.nodes[i]))
  }

  // ----- Keys -----

  /** Length and first two characters tell the admitted keys apart. */
  function Mark(t: Text): (int, int, int) {
    (|t|, if |t| > 0 then t[0] else 0, if |t| > 1 then t[1] else 0)
  }

  function AstMark(i: nat): (int, int, int)
    requires i < AST_FIELDS
  {
    match i
    case 0 => (4, 0x6B, 0x69)
    case 1 => (5, 0x76, 0x61)
    case 2 => (8, 0x74, 0x79)
    case 3 => (10, 0x63, 0x6F)
    case 4 => (7, 0x66, 0x6C)
    case 5 => (5, 0x63, 0x6C)
    case 6 => (9, 0x63, 0x61)
    case 7 => (5, 0x66, 0x6C)
    case 8 => (8, 0x63, 0x68)
  }

  lemma AstKeysMarked(i: nat)
    requires i < AST_FIELDS
    ensures Mark(AstKey(AstFieldAt(i))) == AstMark(i)
  {
  }

  lemma AstKeysDiffer(i: nat, j: nat)
    requires i < AST_FIELDS && j < AST_FIELDS && i != j
    ensures AstKey(AstFieldAt(i)) != AstKey(AstFieldAt(j))
  {
    hide AstKey, Mark;
    AstKeysMarked(i);
    AstKeysMarked(j);
  }

  function NameMark(i: nat): (int, char, char)
    requires i < NAMES
  {
    match i
    case 0 => (6, 's', 'c')
    case 1 => (13, 'h', 'a')
    case 2 => (9, 'p', 'r')
    case 3 => (9, 'p', 'a')
    case 4 => (11, 'f', 'l')
    case 5 => (8, 'f', 'l')
    case 6 => (15, 'l', 'a')
    case 7 => (14, 'r', 'u')
    case 8 => (22, 's', 'o')
    case 9 => (12, 's', 'o')
    case 10 => (17, 'c', 'o')
    case 11 => (15, 'c', 'o')
    case 12 => (26, 'c', 'o')
    case 13 => (12, 'c', 'h')
    case 14 => (16, 'c', 'h')
    case 15 => (11, 'g', 'e')
    case 16 => (21, 'g', 'e')
    case 17 => (9, 'q', 'u')
    case 18 => (10, 'p', 'a')
    case 19 => (10, 'r', 'e')
    case 20 => (15, 'd', 'e')
    case 21 => (10, 'c', 'h')
  }

  predicate Marked(s: string, mark: (int, char, char)) { |s| >= 2 && (|s|, s[0], s[1]) == mark }

  lemma EarlierMarked(i: nat)
    requires i < 10
    ensures Marked(Spelling(NameAt(i)), NameMark(i))
  {
    hide LaterSpelling;
  }

  lemma LaterMarked(i: nat)
    requires 10 <= i < NAMES
    ensures Marked(LaterSpelling(NameAt(i)), NameMark(i))
  {
  }

  lemma SpellingsMarked(i: nat)
    requires i < NAMES
    ensures Marked(Spelling(NameAt(i)), NameMark(i))
  {
    hide LaterSpelling, Marked, NameMark;
    if i < 10 { EarlierMarked(i); } else { LaterMarked(i); }
  }

  lemma NamesDiffer(i: nat, j: nat)
    requires i < NAMES && j < NAMES && i != j
    ensures Key(NameAt(i)) != Key(NameAt(j))
  {
    hide Spelling, NameAt;
    SpellingsMarked(i);
    SpellingsMarked(j);
    var s, t := Key(NameAt(i)), Key(NameAt(j));
    assert |s| != |t| || s[0] != t[0] || s[1] != t[1];
  }

  // ----- Looking fields up -----

  lemma LookupCons(f: Field, rest: seq<Field>, key: Text)
    ensures Lookup([f] + rest, key) == if f.key == key then Some(f.value) else Lookup(rest, key)
  {
    assert ([f] + rest)[1..] == rest;
  }

  lemma {:induction false} LookupNodeFrom(node: AstNode, i: nat, j: nat)
    requires i <= AST_FIELDS && j < AST_FIELDS
    ensures Lookup(NodeFields(node, i), AstKey(AstFieldAt(j)))
         == if j >= i then NodeField(node, AstFieldAt(j)) else None
    decreases AST_FIELDS - i
  {
    hide AstKey, AstFieldAt, NodeField, Lookup;
    if i == AST_FIELDS {
      LookupNone(AstKey(AstFieldAt(j)));
    } else {
      LookupNodeFrom(node, i + 1, j);
      if i != j { AstKeysDiffer(i, j); }
      var v := NodeField(node, AstFieldAt(i));
      if v.Some? {
        LookupCons(Field(AstKey(AstFieldAt(i)), v.value), NodeFields(node, i + 1), AstKey(AstFieldAt(j)));
      } else {
        assert [] + NodeFields(node, i + 1) == NodeFields(node, i + 1);
      }
    }
  }

  lemma LookupNone(key: Text)
    ensures Lookup([], key) == None
  {
  }

  lemma LookupNode(node: AstNode, f: AstField)
    ensures Lookup(NodeFields(node, 0), AstKey(f)) == NodeField(node, f)
  {
    hide AstKey, NodeField, NodeFields, Lookup;
    var j: nat :| j < AST_FIELDS && AstFieldAt(j) == f by { AstFieldAtCovers(f); }
    LookupNodeFrom(node, 0, j);
  }

  lemma AstFieldAtCovers(f: AstField)
    ensures exists j: nat :: j < AST_FIELDS && AstFieldAt(j) == f
  {
    match f
    case NodeKind => assert AstFieldAt(0) == f;
    case NodeText => assert AstFieldAt(1) == f;
    case TypeName => assert AstFieldAt(2) == f;
    case ConformsTo => assert AstFieldAt(3) == f;
    case FlowRef => assert AstFieldAt(4) == f;
    case Claim => assert AstFieldAt(5) == f;
    case CallStyle => assert AstFieldAt(6) == f;
    case Flags => assert AstFieldAt(7) == f;
    case Children => assert AstFieldAt(8) == f;
  }

  /** `f` is field number `j` of the node, at or after `i`. */
  ghost predicate OwnField(node: AstNode, i: nat, j: nat, f: Field) {
    i <= j < AST_FIELDS && f.key == AstKey(AstFieldAt(j)) && NodeField(node, AstFieldAt(j)) == Some(f.value)
  }

  ghost predicate OwnFields(node: AstNode, i: nat, fields: seq<Field>) {
    forall f :: f in fields ==> exists j: nat :: OwnField(node, i, j, f)
  }

  lemma OwnCons(node: AstNode, i: nat, f: Field, rest: seq<Field>)
    requires i < AST_FIELDS && OwnField(node, i, i, f) && OwnFields(node, i + 1, rest) && DistinctKeys(rest)
    ensures OwnFields(node, i, [f] + rest) && DistinctKeys([f] + rest)
  {
    hide AstKey, AstFieldAt, NodeField;
    OwnLater(node, i, rest);
    forall k | 0 <= k < |rest| ensures rest[k].key != f.key {
      assert rest[k] in rest;
      var j: nat :| OwnField(node, i + 1, j, rest[k]);
      AstKeysDiffer(i, j);
    }
  }

  lemma OwnLater(node: AstNode, i: nat, rest: seq<Field>)
    requires OwnFields(node, i + 1, rest)
    ensures OwnFields(node, i, rest)
  {
    hide AstKey, AstFieldAt, NodeField;
    forall f | f in rest ensures exists j: nat :: OwnField(node, i, j, f) {
      var j: nat :| OwnField(node, i + 1, j, f);
      assert OwnField(node, i, j, f);
    }
  }

  lemma NoFields(node: AstNode, i: nat)
    ensures OwnFields(node, i, [])
  {
  }

  /** Every field printed for a node is one of the node's, under its own key, and no key repeats. */
  lemma {:induction false} NodeKeys(node: AstNode, i: nat)
    requires i <= AST_FIELDS
    ensures |NodeFields(node, i)| <= AST_FIELDS - i
    ensures OwnFields(node, i, NodeFields(node, i)) && DistinctKeys(NodeFields(node, i))
    decreases AST_FIELDS - i
  {
    hide AstKey, AstFieldAt, NodeField, OwnFields;
    if i == AST_FIELDS {
      NoFields(node, i);
    } else {
      NodeKeys(node, i + 1);
      var rest := NodeFields(node, i + 1);
      var v := NodeField(node, AstFieldAt(i));
      if v.Some? {
        OwnCons(node, i, Field(AstKey(AstFieldAt(i)), v.value), rest);
      } else {
        OwnLater(node, i, rest);
        assert [] + rest == rest;
      }
    }
  }

  // ----- A snapshot of a canonical tree is the tree -----

  /** Number of nodes. */
  function Size(node: AstNode): (n: nat)
    decreases node, 1
  {
    1 + if node.children.Branches? then SizeAll(node.children.nodes) else 0
  }

  function SizeAll(nodes: seq<AstNode>): nat
    decreases nodes, 0
  {
    if nodes == [] then 0 else Size(nodes[0]) + SizeAll(nodes[1..])
  }

  /** Levels of nodes. */
  function Tall(node: AstNode): (n: nat)
    decreases node, 1
  {
    1 + if node.children.Branches? then TallAll(node.children.nodes) else 0
  }

  function TallAll(nodes: seq<AstNode>): nat
    decreases nodes, 0
  {
    if nodes == [] then 0 else Max(Tall(nodes[0]), TallAll(nodes[1..]))
  }

  /** The ceilings of the snapshot leave room for so many levels and nodes. */
  predicate Affords(depth: nat, budget: Budget, tall: nat, size: nat) {
    depth + tall <= MAX_DEPTH + 1 && budget.values + size <= MAX_VALUES && budget.astNodes + size <= MAX_AST_NODES
  }

  function After(budget: Budget, size: nat): Budget {
    Budget(budget.values + size, budget.astNodes + size)
  }

  lemma GoodNodeField(nfc: Text -> bool, node: AstNode, f: AstField)
    requires GoodNode(nfc, node)
    ensures GoodField(nfc, f, NodeField(node, f))
  {
    hide CheckString, IsKind, METHOD, NodeValues;
  }

  lemma GoodNodeFields(nfc: Text -> bool, node: AstNode)
    requires GoodNode(nfc, node)
    ensures GoodFields(nfc, NodeFields(node, 0))
  {
    hide AstKey, AstFieldAt, NodeField, NodeFields, GoodNode, Lookup, GoodField;
    var fields := NodeFields(node, 0);
    NodeKeys(node, 0);
    forall k | 0 <= k < |fields| ensures IsAstKey(fields[k].key) {
      assert fields[k] in fields;
      var j: nat :| OwnField(node, 0, j, fields[k]);
    }
    forall i | 0 <= i < AST_FIELDS ensures GoodField(nfc, AstFieldAt(i), Lookup(fields, AstKey(AstFieldAt(i)))) {
      LookupNode(node, AstFieldAt(i));
      GoodNodeField(nfc, node, AstFieldAt(i));
    }
  }

  lemma NodeReadBack(node: AstNode)
    ensures NodeOf(NodeFields(node, 0), node.children) == node
  {
    hide AstKey, NodeFields, NodeValues, Lookup, METHOD;
    LookupNode(node, NodeKind);
    LookupNode(node, NodeText);
    LookupNode(node, TypeName);
    LookupNode(node, ConformsTo);
    LookupNode(node, FlowRef);
    LookupNode(node, Claim);
    LookupNode(node, CallStyle);
    LookupNode(node, Flags);
  }

  lemma FindChildren(node: AstNode)
    ensures var i := Find(NodeFields(node, 0), AstKey(Children));
      if node.children.Branches? then
        i.Some? && NodeFields(node, 0)[i.value].value == Array(NodeValues(node.children.nodes))
      else i.None?
  {
    hide AstKey, NodeFields, NodeValues;
    LookupNode(node, Children);
  }

  lemma {:induction false} SnapshotOfNode(nfc: Text -> bool, node: AstNode, depth: nat, budget: Budget)
    requires GoodNode(nfc, node) && Affords(depth, budget, Tall(node), Size(node))
    ensures SnapshotAst(nfc, NodeValue(node), depth, budget) == Snap(node, After(budget, Size(node)))
    decreases node, 1
  {
    hide SnapshotAst, SnapshotAll, NodeFields, NodeValues, NodeOf, GoodFields, Find, AstKey, CheckString, IsKind,
      SizeAll, TallAll;
    SnapshotCases(nfc, NodeValue(node), depth, budget);
    GoodNodeFields(nfc, node);
    NodeReadBack(node);
    FindChildren(node);
    if node.children.Branches? {
      SnapshotOfNodes(nfc, node.children.nodes, depth + 1, After(budget, 1));
    }
  }

  lemma {:induction false} SnapshotOfNodes(nfc: Text -> bool, nodes: seq<AstNode>, depth: nat, budget: Budget)
    requires forall i :: 0 <= i < |nodes| ==> GoodNode(nfc, nodes[i])
    requires Affords(depth, budget, TallAll(nodes), SizeAll(nodes))
    ensures SnapshotAll(nfc, NodeValues(nodes), depth, budget) == Snap(nodes, After(budget, SizeAll(nodes)))
    decreases nodes, 0
  {
    hide SnapshotAst, NodeValue, GoodNode, Size, Tall;
    if nodes != [] {
      SnapshotOfNode(nfc, nodes[0], depth, budget);
      SnapshotOfNodes(nfc, nodes[1..], depth, After(budget, Size(nodes[0])));
      assert NodeValues(nodes)[1..] == NodeValues(nodes[1..]);
      assert nodes == [nodes[0]] + nodes[1..];
    }
  }

  // ----- A snapshot is a good tree within the ceilings -----

  lemma FieldsMakeGoodNode(nfc: Text -> bool, fields: seq<Field>, children: Branches)
    requires GoodFields(nfc, fields)
    requires children.Branches? ==>
      |children.nodes| <= MAX_ARRAY_ITEMS && forall i :: 0 <= i < |children.nodes| ==> GoodNode(nfc, children.nodes[i])
    ensures GoodNode(nfc, NodeOf(fields, children))
  {
    hide Lookup, AstKey, CheckString, IsKind, IsAstKey;
    assert AstFieldAt(0) == NodeKind && AstFieldAt(1) == NodeText && AstFieldAt(2) == TypeName;
    assert AstFieldAt(3) == ConformsTo && AstFieldAt(4) == FlowRef && AstFieldAt(5) == Claim && AstFieldAt(7) == Flags;
  }

  lemma {:induction false} SnapshotIsGood(nfc: Text -> bool, v: Value, depth: nat, budget: Budget)
    requires SnapshotAst(nfc, v, depth, budget).Snap?
    ensures var s := SnapshotAst(nfc, v, depth, budget);
      GoodNode(nfc, s.value) && Affords(depth, budget, Tall(s.value), Size(s.value)) &&
      s.budget == After(budget, Size(s.value))
    decreases v, 1
  {
    hide SnapshotAst, SnapshotAll, GoodFields, Find, AstKey, SizeAll, TallAll, GoodNode, Lookup;
    SnapshotCases(nfc, v, depth, budget);
    var i := Find(v.fields, AstKey(Children));
    if i.None? {
      FieldsMakeGoodNode(nfc, v.fields, Absent);
    } else {
      var items := v.fields[i.value].value.items;
      ChildrenAreArray(nfc, v.fields);
      SnapshotsAreGood(nfc, items, depth + 1, After(budget, 1));
      FieldsMakeGoodNode(nfc, v.fields, Branches(SnapshotAll(nfc, items, depth + 1, After(budget, 1)).value));
    }
  }

  lemma {:induction false} SnapshotsAreGood(nfc: Text -> bool, items: seq<Value>, depth: nat, budget: Budget)
    requires SnapshotAll(nfc, items, depth, budget).Snap?
    requires depth <= MAX_DEPTH + 1 && budget.values <= MAX_VALUES && budget.astNodes <= MAX_AST_NODES
    ensures var s := SnapshotAll(nfc, items, depth, budget);
      && |s.value| == |items| && (forall i :: 0 <= i < |items| ==> GoodNode(nfc, s.value[i]))
      && Affords(depth, budget, TallAll(s.value), SizeAll(s.value))
      && s.budget == After(budget, SizeAll(s.value))
    decreases items, 0
  {
    hide SnapshotAst, GoodNode, Size, Tall;
    if items != [] {
      SnapshotIsGood(nfc, items[0], depth, budget);
      var head := SnapshotAst(nfc, items[0], depth, budget);
      SnapshotsAreGood(nfc, items[1..], depth, head.budget);
      var s := SnapshotAll(nfc, items, depth, budget);
      assert s.value[1..] == SnapshotAll(nfc, items[1..], depth, head.budget).value;
    }
  }
}
