/** The parser reads back every pattern from its canonical text, and every text it accepts has a canonical
    text that reads back as the same pattern. */
module PatternRoundTrip {
  import opened Ast
  import opened Pattern

  // ----- Canonical text -----

  function Digit10(d: nat): char
    requires d < 10
  {
    '0' + d as char
  }

  function Decimal(n: nat): (s: string)
    ensures s != "" && forall i :: 0 <= i < |s| ==> IsDigit(s[i])
  {
    if n < 10 then [Digit10(n)] else Decimal(n / 10) + [Digit10(n % 10)]
  }

  lemma {:induction false} NumberOfDecimal(n: nat)
    ensures Number(Decimal(n)) == n
  {
    if n >= 10 {
      NumberOfDecimal(n / 10);
      assert Decimal(n)[..|Decimal(n)| - 1] == Decimal(n / 10);
    } else {
      assert Decimal(n)[..0] == "";
    }
  }

  /** Characters that would be read as syntax outside an escape. */
  predicate IsSpecial(c: char) {
    c in {'\\', '.', '+', '*', '?', '(', ')', '[', ']', '{', '}', '|', '^', '$'}
  }

  function ShowChar(c: char): string {
    if IsSpecial(c) then ['\\', c] else [c]
  }

  function ShowClass(n: ClassName): string {
    match n
    case Digit => "\\d"
    case Word => "\\w"
    case Space => "\\s"
    case AnyButNewline => "."
  }

  /** Text of a pattern where one atom is expected: sequences and repetitions are grouped. */
  function ShowAtom(p: Pattern): (s: string)
    ensures s != ""
    decreases p, 2
  {
    match p
    case Lit(c) => ShowChar(c)
    case Class(n) => ShowClass(n)
    case _ => "(" + Show(p) + ")"
  }

  function ShowItem(p: Pattern): (s: string)
    ensures s != ""
    decreases p, 3
  {
    if p.Repeat? then ShowAtom(p.item) + "{" + Decimal(p.times) + "}" else ShowAtom(p)
  }

  function ShowItems(items: seq<Pattern>): string
    decreases items, 4
  {
    if items == [] then "" else ShowItem(items[0]) + ShowItems(items[1..])
  }

  /** Canonical text of a whole pattern. */
  function Show(p: Pattern): string
    decreases p, 1
  {
    match p
    case Lit(c) => ShowChar(c)
    case Class(n) => ShowClass(n)
    case Sequence(items) => ShowItems(items)
    case Repeat(item, times) => ShowAtom(item) + "{" + Decimal(times) + "}"
  }

  /** The trees the parser builds: a sequence never has exactly one item, a count is positive. */
  predicate Canonical(p: Pattern)
    decreases p
  {
    match p
    case Lit(_) | Class(_) => true
    case Sequence(items) => |items| != 1 && forall i :: 0 <= i < |items| ==> Canonical(items[i])
    case Repeat(item, times) => times > 0 && Canonical(item)
  }

  function MaxDepth(items: seq<Pattern>): nat
    decreases items, 0
  {
    if items == [] then 0
    else if GroupDepth(items[0]) > MaxDepth(items[1..]) then GroupDepth(items[0]) else MaxDepth(items[1..])
  }

  /** Groups nested in the text of an item. */
  function GroupDepth(p: Pattern): nat
    decreases p, 0
  {
    match p
    case Lit(_) | Class(_) => 0
    case Sequence(items) => 1 + MaxDepth(items)
    case Repeat(item, _) => AtomDepth(item)
  }

  function AtomDepth(p: Pattern): nat
    decreases p, 1
  {
    if p.Repeat? then 1 + GroupDepth(p) else GroupDepth(p)
  }

  /** Groups nested in the text of a whole pattern. */
  function TopDepth(p: Pattern): nat {
    if p.Sequence? then MaxDepth(p.items) else GroupDepth(p)
  }

  // ----- Reading it back -----

  /** `s` is written in `text` at `at`. */
  ghost predicate Written(text: string, at: nat, s: string) {
    at + |s| <= |text| && text[at..at + |s|] == s
  }

  lemma WrittenSplit(text: string, at: nat, a: string, b: string)
    requires Written(text, at, a + b)
    ensures Written(text, at, a) && Written(text, at + |a|, b)
  {
    assert text[at..at + |a|] == (a + b)[..|a|] == a;
    assert text[at + |a|..at + |a| + |b|] == (a + b)[|a|..] == b;
  }

  lemma WrittenAt(text: string, at: nat, s: string, i: nat)
    requires Written(text, at, s) && i < |s|
    ensures text[at + i] == s[i]
  {
    assert text[at..at + |s|][i] == s[i];
  }

  lemma DigitsRead(text: string, at: nat, s: string)
    requires Written(text, at, s) && (forall i :: 0 <= i < |s| ==> IsDigit(s[i]))
    requires at + |s| < |text| && !IsDigit(text[at + |s|])
    ensures DigitsEnd(text, at) == at + |s|
  {
    forall i | at <= i < at + |s| ensures IsDigit(text[i]) { WrittenAt(text, at, s, i - at); }
    DigitsEndHere(text, at, at + |s|);
  }

  lemma QuantifierRead(text: string, at: nat, item: Pattern, times: nat)
    requires times > 0 && Written(text, at, "{" + Decimal(times) + "}")
    requires Plain(text, at + |Decimal(times)| + 2)
    ensures ParseQuantifier(text, at, item) == Parsed(Repeat(item, times), at + |Decimal(times)| + 2)
  {
    hide Decimal, Number;
    var d := Decimal(times);
    WrittenSplit(text, at, "{" + d, "}");
    WrittenSplit(text, at, "{", d);
    WrittenAt(text, at, "{", 0);
    WrittenAt(text, at + 1 + |d|, "}", 0);
    DigitsRead(text, at + 1, d);
    NumberOfDecimal(times);
  }

  lemma CharRead(text: string, at: nat, c: char, depth: nat)
    requires Written(text, at, ShowChar(c))
    ensures ParseAtom(text, at, depth) == Parsed(Lit(c), at + |ShowChar(c)|)
  {
    WrittenAt(text, at, ShowChar(c), 0);
    if IsSpecial(c) {
      WrittenAt(text, at, ShowChar(c), 1);
    }
  }

  lemma ClassRead(text: string, at: nat, n: ClassName, depth: nat)
    requires Written(text, at, ShowClass(n))
    ensures ParseAtom(text, at, depth) == Parsed(Class(n), at + |ShowClass(n)|)
  {
    WrittenAt(text, at, ShowClass(n), 0);
    if n != AnyButNewline {
      WrittenAt(text, at, ShowClass(n), 1);
    }
  }

  lemma {:induction false} AtomRead(text: string, at: nat, p: Pattern, depth: nat)
    requires Canonical(p) && depth + AtomDepth(p) <= MAX_GROUP_DEPTH && Written(text, at, ShowAtom(p))
    ensures ParseAtom(text, at, depth) == Parsed(p, at + |ShowAtom(p)|)
    decreases p, 2
  {
    match p
    case Lit(c) => CharRead(text, at, c, depth);
    case Class(n) => ClassRead(text, at, n, depth);
    case _ =>
      GroupDepths(p);
      hide Show, ShowAtom, ParseAlternation, ParseAtom, Canonical, Plain, Written, Closes, AtomDepth, TopDepth;
      GroupPieces(text, at, p);
      ClosedByParenthesis(text, at + 1 + |Show(p)|);
      FirstChar(text, at + 1, p);
      PatternRead(text, at + 1, p, depth + 1);
      GroupRead(text, at, p, depth);
  }

  lemma GroupDepths(p: Pattern)
    requires p.Sequence? || p.Repeat?
    ensures AtomDepth(p) == 1 + TopDepth(p)
  {
    hide MaxDepth;
  }

  lemma GroupPieces(text: string, at: nat, p: Pattern)
    requires (p.Sequence? || p.Repeat?) && Written(text, at, ShowAtom(p))
    ensures |ShowAtom(p)| == |Show(p)| + 2 && Written(text, at + 1, Show(p))
    ensures CharAt(text, at) == Some('(') && CharAt(text, at + 1 + |Show(p)|) == Some(')')
  {
    hide Show;
    WrittenSplit(text, at, "(" + Show(p), ")");
    WrittenSplit(text, at, "(", Show(p));
    WrittenAt(text, at, "(", 0);
    WrittenAt(text, at + 1 + |Show(p)|, ")", 0);
  }

  lemma ClosedByParenthesis(text: string, at: nat)
    requires CharAt(text, at) == Some(')')
    ensures at < |text| && Plain(text, at) && Closes(text, at)
  {
  }

  lemma GroupRead(text: string, at: nat, p: Pattern, depth: nat)
    requires CharAt(text, at) == Some('(') && CharAt(text, at + 1 + |Show(p)|) == Some(')')
    requires at + 1 <= |text| && Plain(text, at + 1) && depth < MAX_GROUP_DEPTH
    requires ParseAlternation(text, at + 1, depth + 1) == Parsed(p, at + 1 + |Show(p)|)
    ensures ParseAtom(text, at, depth) == Parsed(p, at + |Show(p)| + 2)
  {
    hide Show, ParseAlternation;
  }

  /** A written pattern, or what follows it, does not look like a quantifier. */
  lemma {:induction false} FirstChar(text: string, at: nat, p: Pattern)
    requires Written(text, at, Show(p)) && Plain(text, at + |Show(p)|)
    ensures Plain(text, at)
    decreases p, 1
  {
    match p
    case Lit(c) => WrittenAt(text, at, ShowChar(c), 0);
    case Class(n) => WrittenAt(text, at, ShowClass(n), 0);
    case Sequence(items) => FirstItem(text, at, items);
    case Repeat(item, times) =>
      WrittenSplit(text, at, ShowAtom(item) + "{" + Decimal(times), "}");
      WrittenSplit(text, at, ShowAtom(item) + "{", Decimal(times));
      WrittenSplit(text, at, ShowAtom(item), "{");
      FirstAtom(text, at, item);
  }

  lemma FirstAtom(text: string, at: nat, p: Pattern)
    requires Written(text, at, ShowAtom(p))
    ensures Plain(text, at) && at < |text| && text[at] !in {'|', ')'}
  {
    match p
    case Lit(c) => WrittenAt(text, at, ShowChar(c), 0);
    case Class(n) => WrittenAt(text, at, ShowClass(n), 0);
    case _ =>
      WrittenSplit(text, at, "(" + Show(p), ")");
      WrittenSplit(text, at, "(", Show(p));
      WrittenAt(text, at, "(", 0);
  }

  lemma {:induction false} FirstItem(text: string, at: nat, items: seq<Pattern>)
    requires Written(text, at, ShowItems(items)) && Plain(text, at + |ShowItems(items)|)
    ensures Plain(text, at)
    ensures items != [] ==> at < |text| && text[at] !in {'|', ')'}
  {
    if items != [] {
      WrittenSplit(text, at, ShowItem(items[0]), ShowItems(items[1..]));
      ItemStart(text, at, items[0]);
    }
  }

  lemma ItemStart(text: string, at: nat, p: Pattern)
    requires Written(text, at, ShowItem(p))
    ensures Plain(text, at) && at < |text| && text[at] !in {'|', ')'}
  {
    if p.Repeat? {
      WrittenSplit(text, at, ShowAtom(p.item) + "{" + Decimal(p.times), "}");
      WrittenSplit(text, at, ShowAtom(p.item) + "{", Decimal(p.times));
      WrittenSplit(text, at, ShowAtom(p.item), "{");
      FirstAtom(text, at, p.item);
    } else {
      FirstAtom(text, at, p);
    }
  }

  lemma {:induction false} RepeatRead(text: string, at: nat, p: Pattern, depth: nat)
    requires p.Repeat? && Canonical(p) && depth + GroupDepth(p) <= MAX_GROUP_DEPTH
    requires Written(text, at, ShowItem(p)) && Plain(text, at + |ShowItem(p)|)
    ensures ParseItem(text, at, depth) == Parsed(p, at + |ShowItem(p)|)
    decreases p, 0
  {
    hide ShowAtom, ShowItem, Decimal, ParseAtom, ParseQuantifier, Plain, Written;
    var a := ShowAtom(p.item);
    RepeatPieces(text, at, p);
    AtomRead(text, at, p.item, depth);
    QuantifierRead(text, at + |a|, p.item, p.times);
    ItemFromAtom(text, at, depth, p.item, at + |a|, p, at + |ShowItem(p)|);
  }

  lemma RepeatPieces(text: string, at: nat, p: Pattern)
    requires p.Repeat? && Written(text, at, ShowItem(p))
    ensures var a, d := ShowAtom(p.item), Decimal(p.times);
      && at < |text| && at + |a| <= |text| && |ShowItem(p)| == |a| + |d| + 2
      && Written(text, at, a) && Written(text, at + |a|, "{" + d + "}")
  {
    hide ShowAtom, Decimal;
    WrittenSplit(text, at, ShowAtom(p.item), "{" + Decimal(p.times) + "}");
    assert ShowItem(p) == ShowAtom(p.item) + ("{" + Decimal(p.times) + "}");
  }

  lemma ItemFromAtom(text: string, at: nat, depth: nat, atom: Pattern, next: nat, p: Pattern, end: nat)
    requires at < |text| && next <= |text| && ParseAtom(text, at, depth) == Parsed(atom, next)
    requires ParseQuantifier(text, next, atom) == Parsed(p, end)
    ensures ParseItem(text, at, depth) == Parsed(p, end)
  {
    hide ParseAtom, ParseQuantifier;
  }

  lemma PlainRead(text: string, at: nat, p: Pattern)
    requires at <= |text| && Plain(text, at)
    ensures ParseQuantifier(text, at, p) == Parsed(p, at)
  {
  }

  lemma {:induction false} ItemRead(text: string, at: nat, p: Pattern, depth: nat)
    requires Canonical(p) && depth + GroupDepth(p) <= MAX_GROUP_DEPTH
    requires Written(text, at, ShowItem(p)) && Plain(text, at + |ShowItem(p)|)
    ensures ParseItem(text, at, depth) == Parsed(p, at + |ShowItem(p)|)
    decreases p, 3
  {
    if p.Repeat? {
      RepeatRead(text, at, p, depth);
    } else {
      hide ShowAtom, ParseAtom, ParseQuantifier, Plain, Canonical;
      WrittenAt(text, at, ShowAtom(p), 0);
      AtomRead(text, at, p, depth);
      PlainRead(text, at + |ShowAtom(p)|, p);
    }
  }

  function Whole(items: seq<Pattern>): Pattern {
    if |items| == 1 then items[0] else Sequence(items)
  }

  lemma SequenceStep(text: string, at: nat, depth: nat, before: seq<Pattern>, item: Pattern, next: nat)
    requires at < |text| && text[at] !in {'|', ')'} && ParseItem(text, at, depth) == Parsed(item, next)
    ensures ParseSequence(text, at, depth, before) == ParseSequence(text, next, depth, before + [item])
  {
    hide ParseItem;
  }

  lemma SequenceEnd(text: string, at: nat, depth: nat, before: seq<Pattern>)
    requires Closes(text, at)
    ensures ParseSequence(text, at, depth, before) == Parsed(Whole(before), at)
  {
  }

  lemma {:induction false} ItemsRead(text: string, at: nat, items: seq<Pattern>, depth: nat, before: seq<Pattern>)
    requires forall i :: 0 <= i < |items| ==> Canonical(items[i])
    requires depth + MaxDepth(items) <= MAX_GROUP_DEPTH
    requires Written(text, at, ShowItems(items)) && Closes(text, at + |ShowItems(items)|)
    ensures ParseSequence(text, at, depth, before) == Parsed(Whole(before + items), at + |ShowItems(items)|)
    decreases items, 4
  {
    hide ShowItem, ParseItem, ParseSequence, Canonical, GroupDepth, Closes, Plain;
    if items == [] {
      assert before + items == before;
      SequenceEnd(text, at, depth, before);
    } else {
      var first, rest := items[0], items[1..];
      var s := ShowItem(first);
      WrittenSplit(text, at, s, ShowItems(rest));
      ItemStart(text, at, first);
      ClosesPlain(text, at + |s| + |ShowItems(rest)|);
      FirstItem(text, at + |s|, rest);
      ItemRead(text, at, first, depth);
      SequenceStep(text, at, depth, before, first, at + |s|);
      ItemsRead(text, at + |s|, rest, depth, before + [first]);
      assert before + [first] + rest == before + items;
    }
  }

  predicate Closes(text: string, at: nat) {
    at == |text| || (at < |text| && text[at] == ')')
  }

  lemma ClosesPlain(text: string, at: nat)
    requires Closes(text, at)
    ensures Plain(text, at)
  {
  }

  /** An item that is followed by a closing mark is a whole pattern. */
  lemma OneItem(text: string, at: nat, p: Pattern, next: nat, depth: nat)
    requires at < |text| && text[at] !in {'|', ')'} && ParseItem(text, at, depth) == Parsed(p, next) && Closes(text, next)
    ensures ParseAlternation(text, at, depth) == Parsed(p, next)
  {
    hide ParseItem;
    assert ParseSequence(text, next, depth, [] + [p]) == Parsed(p, next);
    assert ParseSequence(text, at, depth, []) == ParseSequence(text, next, depth, [] + [p]);
  }

  lemma LeafRead(text: string, at: nat, p: Pattern, depth: nat)
    requires IsLeaf(p) && Written(text, at, ShowItem(p)) && Plain(text, at + |ShowItem(p)|)
    ensures ParseItem(text, at, depth) == Parsed(p, at + |ShowItem(p)|)
  {
    hide Plain, ParseQuantifier;
    WrittenAt(text, at, ShowAtom(p), 0);
    PlainRead(text, at + |ShowAtom(p)|, p);
    match p
    case Lit(c) => CharRead(text, at, c, depth);
    case Class(n) => ClassRead(text, at, n, depth);
  }

  predicate IsLeaf(p: Pattern) { p.Lit? || p.Class? }

  lemma {:induction false} PatternRead(text: string, at: nat, p: Pattern, depth: nat)
    requires Canonical(p) && depth + TopDepth(p) <= MAX_GROUP_DEPTH
    requires Written(text, at, Show(p)) && Closes(text, at + |Show(p)|)
    ensures ParseAlternation(text, at, depth) == Parsed(p, at + |Show(p)|)
    decreases p, 1
  {
    if p.Sequence? {
      hide ParseSequence, ShowItems, MaxDepth;
      ItemsRead(text, at, p.items, depth, []);
      assert [] + p.items == p.items;
    } else {
      ShownAsItem(p);
      hide ParseItem, ParseAlternation, Canonical, Plain, Show, ShowItem, GroupDepth, Written, Closes;
      ClosesPlain(text, at + |Show(p)|);
      ItemStart(text, at, p);
      if p.Repeat? {
        RepeatRead(text, at, p, depth);
      } else {
        LeafRead(text, at, p, depth);
      }
      OneItem(text, at, p, at + |Show(p)|, depth);
    }
  }

  lemma ShownAsItem(p: Pattern)
    requires !p.Sequence?
    ensures Show(p) == ShowItem(p) && (p.Lit? || p.Class? || p.Repeat?)
  {
  }

  /** Printing and parsing: every canonical pattern within the nesting bound is read back from its
      text, whole and unchanged. */
  lemma ParseInvertsShow(p: Pattern)
    requires Canonical(p) && TopDepth(p) <= MAX_GROUP_DEPTH
    ensures ParseAlternation(Show(p), 0, 0) == Parsed(p, |Show(p)|)
  {
    assert Show(p)[0..0 + |Show(p)|] == Show(p);
    PatternRead(Show(p), 0, p, 0);
  }

  // ----- What the parser builds -----

  /** A tree that prints and parses back inside the nesting bound. */
  predicate Nested(p: Pattern, depth: nat) {
    Canonical(p) && depth + TopDepth(p) <= MAX_GROUP_DEPTH
  }

  predicate AllNested(items: seq<Pattern>, depth: nat) {
    (forall i :: 0 <= i < |items| ==> Canonical(items[i])) && depth + MaxDepth(items) <= MAX_GROUP_DEPTH
  }

  lemma {:induction false} DepthAppend(items: seq<Pattern>, p: Pattern)
    ensures MaxDepth(items + [p]) == if GroupDepth(p) > MaxDepth(items) then GroupDepth(p) else MaxDepth(items)
  {
    if items == [] {
      assert [] + [p] == [p] && [p][1..] == [];
    } else {
      assert (items + [p])[1..] == items[1..] + [p];
      DepthAppend(items[1..], p);
    }
  }

  /** The cursor is inside an open group, or at the top level. */
  predicate Inside(text: string, at: nat, depth: nat, next: nat) {
    depth <= MAX_GROUP_DEPTH && (depth > 0 ==> 0 < at && next < |text|)
  }

  lemma {:induction false} SequenceBuilds(text: string, at: nat, depth: nat, before: seq<Pattern>)
    requires at <= |text| && AllNested(before, depth) && ParseSequence(text, at, depth, before).Parsed?
    requires Inside(text, at, depth, ParseSequence(text, at, depth, before).at)
    ensures Nested(ParseSequence(text, at, depth, before).node, depth)
    decreases |text| - at, 2
  {
    if at < |text| && text[at] !in {'|', ')'} {
      var item := ParseItem(text, at, depth);
      ItemBuilds(text, at, depth);
      DepthAppend(before, item.node);
      SequenceBuilds(text, item.at, depth, before + [item.node]);
    } else {
      WholeNested(before, depth);
    }
  }

  lemma WholeNested(items: seq<Pattern>, depth: nat)
    requires AllNested(items, depth)
    ensures Nested(Whole(items), depth)
  {
    if |items| == 1 {
      assert items[1..] == [];
      TopDepthAtMost(items[0]);
    }
  }

  lemma TopDepthAtMost(p: Pattern)
    ensures TopDepth(p) <= GroupDepth(p)
  {
  }

  lemma {:induction false} ItemBuilds(text: string, at: nat, depth: nat)
    requires at < |text| && ParseItem(text, at, depth).Parsed?
    requires Inside(text, at, depth, ParseItem(text, at, depth).at)
    ensures var item := ParseItem(text, at, depth).node; Canonical(item) && depth + GroupDepth(item) <= MAX_GROUP_DEPTH
    decreases |text| - at, 1
  {
    var atom := ParseAtom(text, at, depth);
    AtomBuilds(text, at, depth);
    QuantifierBuilds(text, atom.at, atom.node);
  }

  lemma QuantifierBuilds(text: string, at: nat, atom: Pattern)
    requires at <= |text| && ParseQuantifier(text, at, atom).Parsed?
    ensures var r := ParseQuantifier(text, at, atom);
            r == Parsed(atom, at) || (r.at > at && r.node.Repeat? && r.node.item == atom && r.node.times > 0)
  {
    hide Number;
  }

  lemma {:induction false} AtomBuilds(text: string, at: nat, depth: nat)
    requires at < |text| && ParseAtom(text, at, depth).Parsed?
    requires Inside(text, at, depth, ParseAtom(text, at, depth).at)
    ensures var atom := ParseAtom(text, at, depth).node; Canonical(atom) && depth + AtomDepth(atom) <= MAX_GROUP_DEPTH
    decreases |text| - at, 0
  {
    if text[at] == '(' {
      var inner := ParseAlternation(text, at + 1, depth + 1);
      SequenceBuilds(text, at + 1, depth + 1, []);
      GroupedDepth(inner.node);
    } else if text[at] == '\\' {
      hide ParseEscape;
      EscapeBuilds(text, at);
    }
  }

  lemma GroupedDepth(p: Pattern)
    ensures AtomDepth(p) <= 1 + TopDepth(p)
  {
  }

  lemma EscapeBuilds(text: string, at: nat)
    requires at < |text| && ParseEscape(text, at).Parsed?
    ensures IsLeaf(ParseEscape(text, at).node)
  {
  }

  /** Every tree the parser accepts is canonical and within the nesting bound, so its canonical
      text is read back as the same tree: printing an accepted pattern never changes its meaning. */
  lemma AcceptedTextsNormalise(text: string)
    requires ParseAlternation(text, 0, 0).Parsed? && ParseAlternation(text, 0, 0).at == |text|
    ensures var p := ParseAlternation(text, 0, 0).node;
            && Canonical(p) && TopDepth(p) <= MAX_GROUP_DEPTH
            && ParseAlternation(Show(p), 0, 0) == Parsed(p, |Show(p)|)
  {
    hide Show;
    SequenceBuilds(text, 0, 0, []);
    ParseInvertsShow(ParseAlternation(text, 0, 0).node);
  }
}
