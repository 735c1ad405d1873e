/** What a pattern's text means, read off the characters: the parser accepts exactly the texts that mean something, and
    the drawn circuit accepts exactly what the text matches. */
module PatternText {
  import opened Ast
  import opened Pattern
  import opened PatternRoundTrip
  import opened Circuit
  import opened CircuitProof

  // ----- The meaning of a text -----

  /** A character that stands for itself without an escape. */
  predicate Ordinary(c: char) {
    c !in {'\\', '.', '+', '*', '?', '(', ')', '[', '{', '|', '^', '$'}
  }

  /** What a character means after a backslash: a class, the line feed, tab and carriage return by their codes, or
      itself when it is one of these punctuation characters. */
  predicate Escaped(c: char, p: Pattern) {
    || (c == 'd' && p == Class(Digit)) || (c == 'w' && p == Class(Word)) || (c == 's' && p == Class(Space))
    || (c == 'n' && p == Lit(10 as char)) || (c == 't' && p == Lit(9 as char)) || (c == 'r' && p == Lit(13 as char))
    || (c in {'\\', '.', '+', '*', '?', '(', ')', '[', ']', '{', '}', '|', '^', '$', '/', '-'} && p == Lit(c))
  }

  /** One character: itself, any character but a line break, or an anchor at its own end of the whole text. */
  predicate OneChar(text: string, at: nat, p: Pattern)
    requires at < |text|
  {
    || (Ordinary(text[at]) && p == Lit(text[at]))
    || (text[at] == '.' && p == Class(AnyButNewline))
    || (text[at] == '^' && at == 0 && p == Sequence([]))
    || (text[at] == '$' && at == |text| - 1 && p == Sequence([]))
  }

  /** The text from `from` to `to` is one atom: a character, an escape, or a group at most six deep. */
  ghost predicate AtomText(text: string, from: nat, end: nat, depth: nat, p: Pattern)
    decreases end - from, 0
  {
    && from < end <= |text|
    && (|| (end == from + 1 && OneChar(text, from, p))
        || (end == from + 2 && text[from] == '\\' && Escaped(text[from + 1], p))
        || (from + 2 <= end && text[from] == '(' && text[end - 1] == ')' && depth < 6
            && WholeText(text, from + 1, end - 1, depth + 1, p)))
  }

  /** An atom, or an atom and the exact number of its copies. */
  ghost predicate ItemText(text: string, from: nat, end: nat, depth: nat, p: Pattern)
    decreases end - from, 1
  {
    || AtomText(text, from, end, depth, p)
    || (p.Repeat? && p.times > 0 && exists mid: nat :: from < mid < end && AtomText(text, from, mid, depth, p.item) && CountText(text, mid, end, p.times))
  }

  /** These items one after the other. */
  ghost predicate ItemsText(text: string, from: nat, end: nat, depth: nat, items: seq<Pattern>)
    decreases end - from, 2
  {
    if items == [] then from == end <= |text|
    else exists mid: nat :: from < mid <= end && ItemText(text, from, mid, depth, items[0]) && ItemsText(text, mid, end, depth, items[1..])
  }

  /** Items one after the other; a single one stands for itself. */
  ghost predicate WholeText(text: string, from: nat, end: nat, depth: nat, p: Pattern)
    decreases end - from, 3
  {
    exists items :: ItemsText(text, from, end, depth, items) && p == Whole(items)
  }

  /** The whole text means this pattern. */
  ghost predicate Means(text: string, p: Pattern) {
    WholeText(text, 0, |text|, 0, p)
  }

  /** The text matches the whole input. */
  ghost predicate TextMatches(text: string, classes: Classes, input: string) {
    exists p :: Means(text, p) && Matches(p, classes, input)
  }

  // ----- Every text the parser accepts means what it built -----

  lemma EscapeIff(text: string, at: nat, p: Pattern)
    requires at + 1 < |text|
    ensures ParseEscape(text, at) == Parsed(p, at + 2) <==> Escaped(text[at + 1], p)
    ensures ParseEscape(text, at).Parsed? ==> ParseEscape(text, at).at == at + 2
  {
  }

  lemma {:induction false} SequenceMeans(text: string, at: nat, depth: nat, before: seq<Pattern>)
    returns (items: seq<Pattern>)
    requires at <= |text| && ParseSequence(text, at, depth, before).Parsed?
    ensures var r := ParseSequence(text, at, depth, before);
            r.node == Whole(before + items) && ItemsText(text, at, r.at, depth, items)
    decreases |text| - at, 2
  {
    hide ParseItem, ItemText;
    if at < |text| && text[at] !in {'|', ')'} {
      var item := ParseItem(text, at, depth);
      ItemMeans(text, at, depth);
      var rest := SequenceMeans(text, item.at, depth, before + [item.node]);
      items := [item.node] + rest;
      assert items[1..] == rest && before + [item.node] + rest == before + items;
      assert ItemText(text, at, item.at, depth, items[0])
          && ItemsText(text, item.at, ParseSequence(text, at, depth, before).at, depth, items[1..]);
    } else {
      items := [];
      assert before + items == before;
    }
  }

  lemma {:induction false} ItemMeans(text: string, at: nat, depth: nat)
    requires at < |text| && text[at] != '|' && ParseItem(text, at, depth).Parsed?
    ensures var r := ParseItem(text, at, depth); ItemText(text, at, r.at, depth, r.node)
    decreases |text| - at, 1
  {
    hide ParseAtom, ParseQuantifier, AtomText, CountText;
    var atom, item := ParseAtom(text, at, depth), ParseItem(text, at, depth);
    AtomMeans(text, at, depth);
    QuantifierIff(text, atom.at, atom.node, item.at, item.node);
    if item.at != atom.at || item.node != atom.node {
      CountEnds(text, atom.at, item.at, item.node.times);
    }
  }

  lemma CountEnds(text: string, at: nat, next: nat, n: nat)
    requires CountText(text, at, next, n)
    ensures at < next
  {
  }

  lemma {:induction false} AtomMeans(text: string, at: nat, depth: nat)
    requires at < |text| && text[at] != '|' && ParseAtom(text, at, depth).Parsed?
    ensures var r := ParseAtom(text, at, depth); AtomText(text, at, r.at, depth, r.node)
    decreases |text| - at, 0
  {
    if text[at] == '(' {
      var inner := ParseAlternation(text, at + 1, depth + 1);
      hide ParseSequence, ItemsText;
      var items := SequenceMeans(text, at + 1, depth + 1, []);
      assert [] + items == items;
      assert WholeText(text, at + 1, inner.at, depth + 1, inner.node);
    } else if text[at] == '\\' {
      EscapeMeans(text, at, depth);
    } else {
      hide WholeText;
    }
  }

  lemma EscapeMeans(text: string, at: nat, depth: nat)
    requires at < |text| && text[at] == '\\' && ParseEscape(text, at).Parsed?
    ensures var r := ParseEscape(text, at); AtomText(text, at, r.at, depth, r.node)
  {
    hide WholeText;
    var r := ParseEscape(text, at);
    assert at + 1 < |text| && r.at == at + 2;
    EscapeIff(text, at, r.node);
    hide ParseEscape, Escaped;
    assert r == Parsed(r.node, at + 2);
  }

  // ----- The parser accepts every text that means something -----

  /** An atom does not start like a quantifier, nor where a sequence ends. */
  lemma AtomStarts(text: string, from: nat, end: nat, depth: nat, p: Pattern)
    requires AtomText(text, from, end, depth, p)
    ensures from < end <= |text| && text[from] !in {'?', '*', '+', '{', '|', ')'} && Plain(text, from)
  {
    hide WholeText;
  }

  lemma ItemStarts(text: string, from: nat, end: nat, depth: nat, p: Pattern)
    requires ItemText(text, from, end, depth, p)
    ensures from < |text| && text[from] !in {'?', '*', '+', '{', '|', ')'} && Plain(text, from)
  {
    hide AtomText, CountText;
    if AtomText(text, from, end, depth, p) {
      AtomStarts(text, from, end, depth, p);
    } else {
      var mid: nat :| from < mid < end && AtomText(text, from, mid, depth, p.item)
          && CountText(text, mid, end, p.times);
      AtomStarts(text, from, mid, depth, p.item);
    }
  }

  lemma ItemsStart(text: string, from: nat, end: nat, depth: nat, items: seq<Pattern>)
    requires ItemsText(text, from, end, depth, items) && Plain(text, end)
    ensures Plain(text, from)
  {
    hide ItemText, Plain;
    if items != [] {
      var mid: nat :| from < mid <= end && ItemText(text, from, mid, depth, items[0])
          && ItemsText(text, mid, end, depth, items[1..]);
      ItemStarts(text, from, mid, depth, items[0]);
    }
  }

  lemma {:induction false} ItemsAccepted(text: string, from: nat, end: nat, depth: nat, before: seq<Pattern>,
        items: seq<Pattern>)
    requires ItemsText(text, from, end, depth, items) && Closes(text, end)
    ensures from <= |text| && ParseSequence(text, from, depth, before) == Parsed(Whole(before + items), end)
    decreases end - from, 2
  {
    hide ItemText, ParseItem, ParseSequence, Closes;
    if items == [] {
      assert before + items == before;
      SequenceEnd(text, from, depth, before);
    } else {
      var mid: nat :| from < mid <= end && ItemText(text, from, mid, depth, items[0])
          && ItemsText(text, mid, end, depth, items[1..]);
      ClosesPlain(text, end);
      ItemsStart(text, mid, end, depth, items[1..]);
      ItemStarts(text, from, mid, depth, items[0]);
      ItemAccepted(text, from, mid, depth, items[0]);
      SequenceStep(text, from, depth, before, items[0], mid);
      ItemsAccepted(text, mid, end, depth, before + [items[0]], items[1..]);
      assert before + [items[0]] + items[1..] == before + items;
    }
  }

  lemma {:induction false} ItemAccepted(text: string, from: nat, end: nat, depth: nat, p: Pattern)
    requires ItemText(text, from, end, depth, p) && Plain(text, end)
    ensures from < |text| && ParseItem(text, from, depth) == Parsed(p, end)
    decreases end - from, 1
  {
    hide AtomText, CountText, ParseAtom, ParseQuantifier;
    if AtomText(text, from, end, depth, p) {
      AtomAccepted(text, from, end, depth, p);
      PlainRead(text, end, p);
    } else {
      var mid: nat :| from < mid < end && AtomText(text, from, mid, depth, p.item)
          && CountText(text, mid, end, p.times);
      AtomAccepted(text, from, mid, depth, p.item);
      QuantifierIff(text, mid, p.item, end, p);
    }
  }

  lemma {:induction false} AtomAccepted(text: string, from: nat, end: nat, depth: nat, p: Pattern)
    requires AtomText(text, from, end, depth, p)
    ensures from < end <= |text| && ParseAtom(text, from, depth) == Parsed(p, end)
    decreases end - from, 0
  {
    if text[from] == '(' {
      var items :| ItemsText(text, from + 1, end - 1, depth + 1, items) && p == Whole(items);
      hide ItemsText, ParseSequence;
      assert [] + items == items;
      ItemsAccepted(text, from + 1, end - 1, depth + 1, [], items);
      ItemsStart(text, from + 1, end - 1, depth + 1, items);
    } else if text[from] == '\\' {
      EscapeAccepted(text, from, end, depth, p);
    } else {
      hide WholeText;
    }
  }

  lemma EscapeAccepted(text: string, from: nat, end: nat, depth: nat, p: Pattern)
    requires AtomText(text, from, end, depth, p) && text[from] == '\\'
    ensures from + 1 < |text| && end == from + 2 && ParseAtom(text, from, depth) == Parsed(p, end)
  {
    hide WholeText;
    assert !OneChar(text, from, p);
    EscapeIff(text, from, p);
    hide ParseEscape, Escaped;
  }

  /** The parser accepts a text exactly when it means something, and builds what it means. */
  lemma ParsedIff(text: string, p: Pattern)
    ensures ParseAlternation(text, 0, 0) == Parsed(p, |text|) <==> Means(text, p)
  {
    hide ParseSequence, ItemsText;
    if ParseAlternation(text, 0, 0) == Parsed(p, |text|) {
      var items := SequenceMeans(text, 0, 0, []);
      assert [] + items == items;
    }
    if Means(text, p) {
      var items :| ItemsText(text, 0, |text|, 0, items) && p == Whole(items);
      assert [] + items == items;
      ItemsAccepted(text, 0, |text|, 0, [], items);
    }
  }

  // ----- The drawing -----

  /** A drawing exists exactly for a valid name and a printable text that means a pattern of at least one position,
      within both ceilings. */
  lemma DrawnIff(pattern: string, name: string)
    ensures Generation(pattern, name).Drawn?
       <==> ValidName(name) && |name| <= 64 && Printable(pattern)
            && exists p :: Means(pattern, p) && 0 < CountParts(p) <= 4094
  {
    hide ParseAlternation, Means, CountParts, DrawingOf, ValidName, Printable;
    forall p ensures ParseAlternation(pattern, 0, 0) == Parsed(p, |pattern|) <==> Means(pattern, p) {
      ParsedIff(pattern, p);
    }
    if pattern == "" {
      EmptyText();
    }
  }

  lemma EmptyText()
    ensures ParseAlternation("", 0, 0) == Parsed(Sequence([]), 0) && CountParts(Sequence([])) == 0
  {
  }

  /** The central law on texts: the circuit drawn from a text decides every input, and accepts it exactly when the text
      matches it. */
  lemma CircuitDecidesText(pattern: string, name: string, classes: Classes, input: string)
    requires Generation(pattern, name).Drawn?
    ensures var run := RunCircuit(Generation(pattern, name).drawing, classes, input);
            run.Some? && (run == Some(Accepted) <==> TextMatches(pattern, classes, input))
  {
    hide ParseAlternation, Means, Matches, DrawingOf, RunCircuit;
    var ast := ParseAlternation(pattern, 0, 0).node;
    forall p ensures ParseAlternation(pattern, 0, 0) == Parsed(p, |pattern|) <==> Means(pattern, p) {
      ParsedIff(pattern, p);
    }
    DrawingKeepsMeaning(pattern, name, classes, input);
  }
}
