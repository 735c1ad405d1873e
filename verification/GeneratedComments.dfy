/** Rewriting the machine-owned comment block above each flow declaration: the bottom-up splice, the lines
    it must not touch, and when a second rewrite changes nothing. */
module GeneratedComments {
  import opened Ast

  type Blocks = map<string, seq<string>>

  // ----- Lines -----

  predicate IsSpace(c: char) {
    || '\t' <= c <= '\r' || c == ' ' || c == '\U{00A0}' || c == '\U{1680}' || '\U{2000}' <= c <= '\U{200A}'
    || c == '\U{2028}' || c == '\U{2029}' || c == '\U{202F}' || c == '\U{205F}' || c == '\U{3000}' || c == '\U{FEFF}'
  }

  predicate IsWord(c: char) { 'a' <= c <= 'z' || 'A' <= c <= 'Z' || '0' <= c <= '9' || c == '_' }

  function SpaceEnd(line: string, at: nat): (r: nat)
    requires at <= |line|
    ensures at <= r <= |line| && (r < |line| ==> !IsSpace(line[r]))
    ensures forall i :: at <= i < r ==> IsSpace(line[i])
    decreases |line| - at
  {
    if at < |line| && IsSpace(line[at]) then SpaceEnd(line, at + 1) else at
  }

  function WordEnd(line: string, at: nat): (r: nat)
    requires at <= |line|
    ensures at <= r <= |line|
    decreases |line| - at
  {
    if at < |line| && IsWord(line[at]) then WordEnd(line, at + 1) else at
  }

  predicate StartsAt(line: string, at: nat, word: string) {
    at + |word| <= |line| && line[at..at + |word|] == word
  }

  /** End of `word` and the white space after it; `at` when they are not there. */
  function AfterKeyword(line: string, at: nat, word: string): (r: nat)
    requires at <= |line|
    ensures at <= r <= |line|
  {
    if StartsAt(line, at, word) && SpaceEnd(line, at + |word|) > at + |word| then SpaceEnd(line, at + |word|) else at
  }

  /** End of a qualifier and the white space after it, if there is one. */
  function AfterQualifier(line: string, at: nat): (r: nat)
    requires at <= |line|
    ensures at <= r <= |line|
  {
    if AfterKeyword(line, at, "pure") > at then AfterKeyword(line, at, "pure")
    else if AfterKeyword(line, at, "secure") > at then AfterKeyword(line, at, "secure")
    else AfterKeyword(line, at, "guarded")
  }

  /** The name of the flow that `line` declares. */
  function FlowName(line: string): Option<string> {
    var flow := AfterQualifier(line, SpaceEnd(line, 0));
    var name := AfterKeyword(line, flow, "flow");
    if name > flow && WordEnd(line, name) > name then Some(line[name..WordEnd(line, name)]) else None
  }

  // ----- Which lines declare a flow -----

  predicate Spaces(line: string, from: nat, end: nat) {
    from <= end <= |line| && forall i :: from <= i < end ==> IsSpace(line[i])
  }

  /** A word of letters, digits and underscores fills `from` up to `end`, and no longer one starts there. */
  predicate WordHere(line: string, from: nat, end: nat) {
    from < end <= |line| && (forall i :: from <= i < end ==> IsWord(line[i])) && (end < |line| ==> !IsWord(line[end]))
  }

  /** At most one qualifier, with white space after it, fills `from` up to `end`. */
  predicate QualifierHere(line: string, from: nat, end: nat) {
    || from == end
    || (StartsAt(line, from, "pure") && from + 4 < end && Spaces(line, from + 4, end))
    || (StartsAt(line, from, "secure") && from + 6 < end && Spaces(line, from + 6, end))
    || (StartsAt(line, from, "guarded") && from + 7 < end && Spaces(line, from + 7, end))
  }

  /** White space up to `start`, a qualifier up to `flow`, the keyword and white space up to `name`, and a word up to
      `end`. */
  predicate FlowLine(line: string, start: nat, flow: nat, name: nat, end: nat) {
    && Spaces(line, 0, start) && QualifierHere(line, start, flow) && StartsAt(line, flow, "flow")
    && flow + 4 < name && Spaces(line, flow + 4, name) && WordHere(line, name, end)
  }

  lemma {:induction false} SpaceEndIs(line: string, at: nat, end: nat)
    requires Spaces(line, at, end) && (end < |line| ==> !IsSpace(line[end]))
    ensures SpaceEnd(line, at) == end
    decreases end - at
  {
    if at < end { SpaceEndIs(line, at + 1, end); }
  }

  lemma {:induction false} WordEndIs(line: string, at: nat, end: nat)
    requires at <= end <= |line| && (forall i :: at <= i < end ==> IsWord(line[i]))
        && (end < |line| ==> !IsWord(line[end]))
    ensures WordEnd(line, at) == end
    decreases end - at
  {
    if at < end { WordEndIs(line, at + 1, end); }
  }

  lemma {:induction false} WordEndFills(line: string, at: nat)
    requires at <= |line|
    ensures var end := WordEnd(line, at);
            (forall i :: at <= i < end ==> IsWord(line[i])) && (end < |line| ==> !IsWord(line[end]))
    decreases |line| - at
  {
    if at < |line| && IsWord(line[at]) { WordEndFills(line, at + 1); }
  }

  lemma Letter(line: string, at: nat, word: string)
    requires StartsAt(line, at, word) && word != ""
    ensures at < |line| && line[at] == word[0]
  {
    assert line[at..at + |word|][0] == word[0];
  }

  lemma KeywordIs(line: string, at: nat, word: string, end: nat)
    requires StartsAt(line, at, word) && at + |word| < end && Spaces(line, at + |word|, end)
        && (end < |line| ==> !IsSpace(line[end]))
    ensures AfterKeyword(line, at, word) == end
  {
    SpaceEndIs(line, at + |word|, end);
  }

  lemma QualifierIs(line: string, start: nat, flow: nat)
    requires start <= |line| && QualifierHere(line, start, flow) && StartsAt(line, flow, "flow")
    ensures AfterQualifier(line, start) == flow && start < |line| && !IsSpace(line[start])
  {
    hide StartsAt, SpaceEnd;
    Letter(line, flow, "flow");
    if StartsAt(line, start, "pure") { Letter(line, start, "pure"); }
    if StartsAt(line, start, "secure") { Letter(line, start, "secure"); }
    if StartsAt(line, start, "guarded") { Letter(line, start, "guarded"); }
    if start != flow {
      if StartsAt(line, start, "pure") { KeywordIs(line, start, "pure", flow); }
      else if StartsAt(line, start, "secure") { KeywordIs(line, start, "secure", flow); }
      else { KeywordIs(line, start, "guarded", flow); }
    }
  }

  lemma QualifierFills(line: string, start: nat)
    requires start <= |line|
    ensures QualifierHere(line, start, AfterQualifier(line, start))
  {
    hide StartsAt, SpaceEnd;
  }

  /** A line declares a flow of that name exactly when it reads so. */
  lemma FlowNameIff(line: string, text: string)
    ensures FlowName(line) == Some(text)
        <==> exists start: nat, flow: nat, name: nat, end: nat :: FlowLine(line, start, flow, name, end) && line[name..end] == text
  {
    hide StartsAt, AfterKeyword, AfterQualifier, QualifierHere;
    if FlowName(line) == Some(text) {
      var start := SpaceEnd(line, 0);
      var flow := AfterQualifier(line, start);
      var name := AfterKeyword(line, flow, "flow");
      QualifierFills(line, start);
      KeywordFills(line, flow, "flow");
      WordEndFills(line, name);
      assert FlowLine(line, start, flow, name, WordEnd(line, name));
    }
    forall start: nat, flow: nat, name: nat, end: nat | FlowLine(line, start, flow, name, end)
      ensures FlowName(line) == Some(line[name..end])
    {
      QualifierIs(line, start, flow);
      SpaceEndIs(line, 0, start);
      WordsAreNotSpace(line[name]);
      KeywordIs(line, flow, "flow", name);
      WordEndIs(line, name, end);
    }
  }

  lemma KeywordFills(line: string, at: nat, word: string)
    requires at <= |line| && AfterKeyword(line, at, word) > at
    ensures var end := AfterKeyword(line, at, word); StartsAt(line, at, word) && at + |word| < end && Spaces(line, at + |word|, end)
  {
  }

  lemma WordsAreNotSpace(c: char)
    requires IsWord(c)
    ensures !IsSpace(c)
  {
  }

  const MARK := "//fungi:"

  predicate IsGenerated(line: string) { StartsAt(line, SpaceEnd(line, 0), MARK) }

  function Indented(indent: string, block: seq<string>): (r: seq<string>)
    ensures |r| == |block|
  {
    seq(|block|, i requires 0 <= i < |block| => indent + block[i])
  }

  /** The fresh block for the flow that `line` declares, if it has one. */
  function BlockFor(line: string, blocks: Blocks): Option<seq<string>> {
    match FlowName(line)
    case None => None
    case Some(name) => if name in blocks then Some(Indented(line[..SpaceEnd(line, 0)], blocks[name])) else None
  }

  /** A line is generated exactly when the mark is the first thing on it after white space. */
  lemma GeneratedIff(line: string)
    ensures IsGenerated(line) <==> exists start: nat :: Spaces(line, 0, start) && StartsAt(line, start, "//fungi:")
  {
    hide SpaceEnd;
    if IsGenerated(line) { assert Spaces(line, 0, SpaceEnd(line, 0)); }
    forall start: nat | Spaces(line, 0, start) && StartsAt(line, start, "//fungi:") ensures IsGenerated(line) {
      Letter(line, start, "//fungi:");
      SpaceEndIs(line, 0, start);
    }
  }

  /** The block of a flow line is the flow's own block, each line behind the white space that the flow line starts
      with. */
  lemma BlockIsIndented(line: string, blocks: Blocks, start: nat, flow: nat, name: nat, end: nat)
    requires FlowLine(line, start, flow, name, end)
    ensures var block := BlockFor(line, blocks);
            if line[name..end] in blocks then
              && block.Some? && |block.value| == |blocks[line[name..end]]|
              && forall i :: 0 <= i < |block.value| ==> block.value[i] == line[..start] + blocks[line[name..end]][i]
            else block.None?
  {
    QualifierIs(line, start, flow);
    SpaceEndIs(line, 0, start);
    hide FlowName, SpaceEnd;
    FlowNameIff(line, line[name..end]);
  }

  // ----- Rewriting -----

  /** Start of the run of generated lines that ends just before line `i`. */
  function RunStart(lines: seq<string>, i: nat): (r: nat)
    requires i <= |lines|
    ensures r <= i && (r > 0 ==> !IsGenerated(lines[r - 1]))
    ensures forall k :: r <= k < i ==> IsGenerated(lines[k])
  {
    if i > 0 && IsGenerated(lines[i - 1]) then RunStart(lines, i - 1) else i
  }

  /** The first `n` lines with every block replaced. */
  function Rewritten(lines: seq<string>, blocks: Blocks, n: nat): seq<string>
    requires n <= |lines|
  {
    if n == 0 then []
    else
      var line := lines[n - 1];
      match BlockFor(line, blocks)
      case None => Rewritten(lines, blocks, n - 1) + [line]
      case Some(block) => Rewritten(lines, blocks, RunStart(lines, n - 1)) + block + [line]
  }

  function Split(text: string): (r: seq<string>)
    ensures r != []
  {
    if text == "" then [""]
    else
      var rest := Split(text[1..]);
      if text[0] == '\n' then [""] + rest else [[text[0]] + rest[0]] + rest[1..]
  }

  function Join(lines: seq<string>): string
    requires lines != []
  {
    if |lines| == 1 then lines[0] else lines[0] + "\n" + Join(lines[1..])
  }

  lemma RewrittenNotEmpty(lines: seq<string>, blocks: Blocks, n: nat)
    requires 0 < n <= |lines|
    ensures Rewritten(lines, blocks, n) != [] && Rewritten(lines, blocks, n)[|Rewritten(lines, blocks, n)| - 1] == lines[n - 1]
  {
    hide BlockFor;
  }

  function Rewrite(source: string, blocks: Blocks): string {
    var lines := Split(source);
    RewrittenNotEmpty(lines, blocks, |lines|);
    Join(Rewritten(lines, blocks, |lines|))
  }

  /** With line `i` next, `lines` is the untouched lines before it and the finished ones after. */
  ghost predicate Scanning(original: seq<string>, blocks: Blocks, i: nat, done: seq<string>, lines: seq<string>) {
    && i <= |original| && lines == original[..i] + done
    && Rewritten(original, blocks, |original|) == Rewritten(original, blocks, i) + done
  }

  lemma KeepLine(original: seq<string>, blocks: Blocks, i: nat, done: seq<string>, lines: seq<string>)
    requires i < |original| && Scanning(original, blocks, i + 1, done, lines) && BlockFor(original[i], blocks).None?
    ensures Scanning(original, blocks, i, [original[i]] + done, lines)
  {
    RewrittenAtLine(original, blocks, i);
    assert original[..i + 1] == original[..i] + [original[i]];
    hide BlockFor, Rewritten;
    Reassociate(original[..i], [original[i]], done);
    Reassociate(Rewritten(original, blocks, i), [original[i]], done);
  }

  lemma RewrittenAtLine(original: seq<string>, blocks: Blocks, i: nat)
    requires i < |original| && BlockFor(original[i], blocks).None?
    ensures Rewritten(original, blocks, i + 1) == Rewritten(original, blocks, i) + [original[i]]
  {
    hide BlockFor;
  }

  lemma ReplaceBlock(original: seq<string>, blocks: Blocks, i: nat, start: nat, done: seq<string>, lines: seq<string>)
    requires i < |original| && Scanning(original, blocks, i + 1, done, lines) && BlockFor(original[i], blocks).Some?
    requires start == RunStart(original, i)
    ensures var block := BlockFor(original[i], blocks).value;
      i < |lines| && Scanning(original, blocks, start, block + [original[i]] + done, lines[..start] + block + lines[i..])
  {
    hide BlockFor, IsGenerated, RunStart;
    RewrittenAtBlock(original, blocks, i);
    hide Rewritten;
    Spliced(original, i, start, BlockFor(original[i], blocks).value, done, lines);
    Regrouped(Rewritten(original, blocks, start), BlockFor(original[i], blocks).value, original[i], done);
  }

  lemma RewrittenAtBlock(original: seq<string>, blocks: Blocks, i: nat)
    requires i < |original| && BlockFor(original[i], blocks).Some?
    ensures Rewritten(original, blocks, i + 1)
         == Rewritten(original, blocks, RunStart(original, i)) + BlockFor(original[i], blocks).value + [original[i]]
  {
    hide BlockFor, RunStart;
  }

  lemma Spliced(original: seq<string>, i: nat, start: nat, block: seq<string>, done: seq<string>, lines: seq<string>)
    requires start <= i < |original| && lines == original[..i + 1] + done
    ensures lines[..start] + block + lines[i..] == original[..start] + (block + [original[i]] + done)
  {
    assert lines[i..] == [original[i]] + done;
    assert lines[..start] == original[..start];
  }

  lemma Regrouped(kept: seq<string>, block: seq<string>, line: string, done: seq<string>)
    ensures kept + block + [line] + done == kept + (block + [line] + done)
  {
  }

  /** Bottom-up, splicing the line array in place. */
  method RewriteGeneratedComments(source: string, blocks: Blocks) returns (r: string)
    ensures r == Rewrite(source, blocks)
  {
    hide BlockFor, IsGenerated, Rewritten, Split, Join;
    var lines := Split(source);
    ghost var original := lines;
    ghost var done: seq<string> := [];
    var i := |lines|;
    while i > 0
      invariant i >= 0 && Scanning(original, blocks, i, done, lines)
    {
      i := i - 1;
      assert lines[i] == original[i];
      var block := BlockFor(lines[i], blocks);
      if block.None? {
        KeepLine(original, blocks, i, done, lines);
        done := [original[i]] + done;
        continue;
      }
      var start := RunAbove(original, lines, done, i);
      ReplaceBlock(original, blocks, i, start, done, lines);
      lines := lines[..start] + block.value + lines[i..];
      done := block.value + [original[i]] + done;
      i := start;
    }
    NoLinesLeft(original, blocks, done, lines);
    RewrittenNotEmpty(original, blocks, |original|);
    r := Join(lines);
  }

  lemma NoLinesLeft(original: seq<string>, blocks: Blocks, done: seq<string>, lines: seq<string>)
    requires Scanning(original, blocks, 0, done, lines)
    ensures lines == Rewritten(original, blocks, |original|)
  {
  }

  /** Moves up over the generated lines just above line `i`. */
  method RunAbove(ghost original: seq<string>, lines: seq<string>, ghost done: seq<string>, i: nat) returns (start: nat)
    requires i < |original| && lines == original[..i + 1] + done
    ensures start == RunStart(original, i)
  {
    hide IsGenerated;
    start := i;
    while start > 0 && IsGenerated(lines[start - 1])
      invariant 0 <= start <= i && RunStart(original, start) == RunStart(original, i)
    {
      start := start - 1;
    }
  }

  // ----- What rewriting keeps -----

  /** Every fresh line is a generated line, and one line. */
  predicate GoodBlocks(blocks: Blocks) {
    forall name, i :: name in blocks && 0 <= i < |blocks[name]| ==> MARK <= blocks[name][i] && '\n' !in blocks[name][i]
  }

  /** The lines that are not generated. */
  function Others(lines: seq<string>): seq<string> {
    if lines == [] then []
    else Others(lines[..|lines| - 1]) + if IsGenerated(lines[|lines| - 1]) then [] else [lines[|lines| - 1]]
  }

  predicate AllGenerated(lines: seq<string>) {
    forall i :: 0 <= i < |lines| ==> IsGenerated(lines[i])
  }

  lemma {:induction false} OthersConcat(a: seq<string>, b: seq<string>)
    ensures Others(a + b) == Others(a) + Others(b)
  {
    if b == [] {
      assert a + b == a;
    } else {
      hide Others, IsGenerated;
      var front, last := b[..|b| - 1], b[|b| - 1];
      OthersConcat(a, front);
      OthersLast(a + front, last);
      OthersLast(front, last);
      LastApart(a, b, front, last);
      Reassociate(Others(a), Others(front), if IsGenerated(last) then [] else [last]);
    }
  }

  lemma LastApart(a: seq<string>, b: seq<string>, front: seq<string>, last: string)
    requires b != [] && front == b[..|b| - 1] && last == b[|b| - 1]
    ensures a + front + [last] == a + b && front + [last] == b
  {
  }

  lemma Reassociate(a: seq<string>, b: seq<string>, c: seq<string>)
    ensures a + b + c == a + (b + c)
  {
  }

  lemma OthersLast(a: seq<string>, line: string)
    ensures Others(a + [line]) == Others(a) + if IsGenerated(line) then [] else [line]
  {
    hide IsGenerated;
    assert (a + [line])[..|a|] == a;
  }

  lemma {:induction false} GeneratedAreNotOthers(lines: seq<string>)
    requires AllGenerated(lines)
    ensures Others(lines) == []
  {
    hide IsGenerated;
    if lines != [] { GeneratedAreNotOthers(lines[..|lines| - 1]); }
  }

  lemma {:induction false} IndentIsSpace(line: string, at: nat, rest: string)
    requires at <= SpaceEnd(line, 0) && rest != "" && !IsSpace(rest[0])
    ensures SpaceEnd(line[..SpaceEnd(line, 0)] + rest, at) == SpaceEnd(line, 0)
    decreases SpaceEnd(line, 0) - at
  {
    if at < SpaceEnd(line, 0) { IndentIsSpace(line, at + 1, rest); }
  }

  lemma IndentedIsGenerated(line: string, text: string)
    requires MARK <= text
    ensures IsGenerated(line[..SpaceEnd(line, 0)] + text)
  {
    hide SpaceEnd;
    var indent := line[..SpaceEnd(line, 0)];
    IndentIsSpace(line, 0, text);
    assert (indent + text)[|indent|..|indent| + |MARK|] == text[..|MARK|];
  }

  lemma BlockIsGenerated(line: string, blocks: Blocks)
    requires GoodBlocks(blocks) && BlockFor(line, blocks).Some?
    ensures AllGenerated(BlockFor(line, blocks).value)
  {
    hide IsGenerated, FlowName, SpaceEnd;
    var name := FlowName(line).value;
    forall i | 0 <= i < |blocks[name]| ensures IsGenerated(line[..SpaceEnd(line, 0)] + blocks[name][i]) {
      IndentedIsGenerated(line, blocks[name][i]);
    }
  }

  /** Rewriting changes generated lines only: all other lines stay, in order. */
  lemma {:induction false} OtherLinesStay(lines: seq<string>, blocks: Blocks, n: nat)
    requires GoodBlocks(blocks) && n <= |lines|
    ensures Others(Rewritten(lines, blocks, n)) == Others(lines[..n])
  {
    hide BlockFor, IsGenerated, GoodBlocks, RunStart;
    if n > 0 {
      var line := lines[n - 1];
      var block := BlockFor(line, blocks);
      assert lines[..n] == lines[..n - 1] + [line];
      OthersConcat(lines[..n - 1], [line]);
      if block.None? {
        OtherLinesStay(lines, blocks, n - 1);
        OthersConcat(Rewritten(lines, blocks, n - 1), [line]);
      } else {
        var start := RunStart(lines, n - 1);
        OtherLinesStay(lines, blocks, start);
        BlockIsGenerated(line, blocks);
        BlockReplaced(lines, start, n - 1, Rewritten(lines, blocks, start), block.value);
        OthersConcat(Rewritten(lines, blocks, start) + block.value, [line]);
      }
    }
  }

  lemma BlockReplaced(lines: seq<string>, start: nat, i: nat, kept: seq<string>, block: seq<string>)
    requires start <= i <= |lines| && AllGenerated(lines[start..i]) && AllGenerated(block)
    requires Others(kept) == Others(lines[..start])
    ensures Others(kept + block) == Others(lines[..i])
  {
    hide AllGenerated, Others;
    OthersConcat(kept, block);
    GeneratedAreNotOthers(block);
    GeneratedAreNotOthers(lines[start..i]);
    OthersConcat(lines[..start], lines[start..i]);
    PrefixSplit(lines, start, i);
  }

  lemma PrefixSplit(lines: seq<string>, start: nat, i: nat)
    requires start <= i <= |lines|
    ensures lines[..i] == lines[..start] + lines[start..i]
  {
  }

  // ----- Every named flow has exactly its block -----

  /** The generated lines directly above line `k` are exactly its block. */
  predicate CurrentAt(lines: seq<string>, blocks: Blocks, k: nat)
    requires k < |lines|
  {
    match BlockFor(lines[k], blocks)
    case None => true
    case Some(block) => lines[RunStart(lines, k)..k] == block
  }

  predicate Current(lines: seq<string>, blocks: Blocks) {
    forall k :: 0 <= k < |lines| ==> CurrentAt(lines, blocks, k)
  }

  lemma {:induction false} RunStartPrefix(a: seq<string>, b: seq<string>, i: nat)
    requires i <= |a|
    ensures RunStart(a + b, i) == RunStart(a, i)
  {
    hide IsGenerated;
    if i > 0 && IsGenerated(a[i - 1]) { RunStartPrefix(a, b, i - 1); }
  }

  lemma CurrentPrefix(a: seq<string>, b: seq<string>, blocks: Blocks, k: nat)
    requires k < |a|
    ensures CurrentAt(a + b, blocks, k) <==> CurrentAt(a, blocks, k)
  {
    hide IsGenerated, BlockFor, RunStart;
    RunStartPrefix(a, b, k);
    assert (a + b)[RunStart(a, k)..k] == a[RunStart(a, k)..k];
  }

  lemma GeneratedIsNotFlow(line: string, blocks: Blocks)
    requires IsGenerated(line)
    ensures BlockFor(line, blocks).None?
  {
    hide SpaceEnd, AfterKeyword;
    var at := SpaceEnd(line, 0);
    assert line[at] == line[at..at + |MARK|][0] == '/';
    NoKeyword(line, at, "pure");
    NoKeyword(line, at, "secure");
    NoKeyword(line, at, "guarded");
    NoKeyword(line, at, "flow");
  }

  lemma NoKeyword(line: string, at: nat, word: string)
    requires at < |line| && word != "" && line[at] != word[0]
    ensures AfterKeyword(line, at, word) == at
  {
    assert at + |word| <= |line| ==> line[at..at + |word|][0] == line[at];
  }

  /** Of the lines of a block, the run of generated lines reaches its start exactly when all of them are generated. */
  lemma {:induction false} RunInsideBlock(kept: seq<string>, block: seq<string>, rest: seq<string>, n: nat)
    requires n <= |block| && (kept != [] ==> !IsGenerated(kept[|kept| - 1]))
    ensures |kept| <= RunStart(kept + block + rest, |kept| + n) <= |kept| + n
    ensures RunStart(kept + block + rest, |kept| + n) == |kept| <==> AllGenerated(block[..n])
  {
    hide IsGenerated;
    var all := kept + block + rest;
    if n > 0 {
      RunInsideBlock(kept, block, rest, n - 1);
      assert all[|kept| + n - 1] == block[n - 1];
      assert block[..n] == block[..n - 1] + [block[n - 1]];
    } else if kept != [] {
      assert all[|kept| - 1] == kept[|kept| - 1];
    }
  }

  lemma CurrentWithBlock(kept: seq<string>, block: seq<string>, line: string, blocks: Blocks)
    requires Current(kept, blocks) && AllGenerated(block) && BlockFor(line, blocks) == Some(block)
    requires kept != [] ==> !IsGenerated(kept[|kept| - 1])
    ensures Current(kept + block + [line], blocks)
  {
    hide IsGenerated, BlockFor, RunStart;
    var all := kept + block + [line];
    forall k | 0 <= k < |all| ensures CurrentAt(all, blocks, k) {
      if k < |kept| {
        assert all == kept + (block + [line]);
        CurrentPrefix(kept, block + [line], blocks, k);
      } else if k < |kept| + |block| {
        assert all[k] == block[k - |kept|];
        GeneratedIsNotFlow(all[k], blocks);
      } else {
        RunInsideBlock(kept, block, [line], |block|);
        assert block[..|block|] == block;
        assert all[|kept|..k] == block;
      }
    }
  }

  lemma CurrentWithLine(kept: seq<string>, line: string, blocks: Blocks)
    requires Current(kept, blocks) && BlockFor(line, blocks).None?
    ensures Current(kept + [line], blocks)
  {
    hide IsGenerated, BlockFor, RunStart, CurrentAt;
    var all := kept + [line];
    forall k | 0 <= k < |all| ensures CurrentAt(all, blocks, k) {
      if k < |kept| {
        CurrentPrefix(kept, [line], blocks, k);
      } else {
        NoBlockIsCurrent(all, blocks, k);
      }
    }
  }

  lemma NoBlockIsCurrent(lines: seq<string>, blocks: Blocks, k: nat)
    requires k < |lines| && BlockFor(lines[k], blocks).None?
    ensures CurrentAt(lines, blocks, k)
  {
    hide BlockFor;
  }

  /** After rewriting, exactly the given block stands directly above each named flow. */
  lemma {:induction false} RewrittenIsCurrent(lines: seq<string>, blocks: Blocks, n: nat)
    requires GoodBlocks(blocks) && n <= |lines|
    ensures Current(Rewritten(lines, blocks, n), blocks)
  {
    hide BlockFor, IsGenerated, GoodBlocks, RunStart, CurrentAt;
    if n > 0 {
      var line := lines[n - 1];
      var block := BlockFor(line, blocks);
      if block.None? {
        RewrittenIsCurrent(lines, blocks, n - 1);
        CurrentWithLine(Rewritten(lines, blocks, n - 1), line, blocks);
      } else {
        var start := RunStart(lines, n - 1);
        RewrittenIsCurrent(lines, blocks, start);
        if start > 0 { RewrittenNotEmpty(lines, blocks, start); }
        BlockIsGenerated(line, blocks);
        CurrentWithBlock(Rewritten(lines, blocks, start), block.value, line, blocks);
      }
    }
  }

  /** Rewriting leaves current lines alone. */
  lemma {:induction false} CurrentIsFixed(lines: seq<string>, blocks: Blocks, n: nat)
    requires Current(lines, blocks) && n <= |lines|
    ensures Rewritten(lines, blocks, n) == lines[..n]
  {
    hide BlockFor, IsGenerated, RunStart, CurrentAt;
    if n > 0 {
      assert CurrentAt(lines, blocks, n - 1);
      if BlockFor(lines[n - 1], blocks).None? {
        CurrentIsFixed(lines, blocks, n - 1);
        assert lines[..n] == lines[..n - 1] + [lines[n - 1]];
      } else {
        CurrentIsFixed(lines, blocks, RunStart(lines, n - 1));
        RewrittenAtBlock(lines, blocks, n - 1);
        BlockIsThere(lines, blocks, n - 1);
      }
    }
  }

  lemma BlockIsThere(lines: seq<string>, blocks: Blocks, k: nat)
    requires k < |lines| && CurrentAt(lines, blocks, k) && BlockFor(lines[k], blocks).Some?
    ensures lines[..k + 1] == lines[..RunStart(lines, k)] + BlockFor(lines[k], blocks).value + [lines[k]]
  {
    hide BlockFor, IsGenerated, RunStart;
    var start := RunStart(lines, k);
    assert lines[..k] == lines[..start] + lines[start..k];
  }

  // ----- Blocks that are not marked -----

  lemma {:induction false} RewrittenPrefix(a: seq<string>, b: seq<string>, blocks: Blocks, n: nat)
    requires n <= |a|
    ensures Rewritten(a + b, blocks, n) == Rewritten(a, blocks, n)
  {
    hide BlockFor, IsGenerated, RunStart;
    if n > 0 {
      RewrittenPrefix(a, b, blocks, n - 1);
      RunStartPrefix(a, b, n - 1);
      RewrittenPrefix(a, b, blocks, RunStart(a, n - 1));
    }
  }

  /** No fresh line is itself the declaration of a flow with a block. */
  predicate NoFlowLine(block: seq<string>, blocks: Blocks) {
    forall k :: 0 <= k < |block| ==> BlockFor(block[k], blocks).None?
  }

  lemma {:induction false} BlockLinesStay(kept: seq<string>, block: seq<string>, rest: seq<string>, blocks: Blocks, n: nat)
    requires n <= |block| && NoFlowLine(block, blocks)
    ensures Rewritten(kept + block + rest, blocks, |kept| + n) == Rewritten(kept, blocks, |kept|) + block[..n]
  {
    hide BlockFor, RunStart;
    var all := kept + block + rest;
    if n == 0 {
      RewrittenPrefix(kept, block + rest, blocks, |kept|);
      assert all == kept + (block + rest);
    } else {
      BlockLinesStay(kept, block, rest, blocks, n - 1);
      assert all[|kept| + n - 1] == block[n - 1];
      assert block[..n] == block[..n - 1] + [block[n - 1]];
    }
  }

  /** A second rewrite puts the whole block after whatever part of it was not recognised. */
  lemma BlockTwice(kept: seq<string>, block: seq<string>, line: string, blocks: Blocks) returns (n: nat)
    requires BlockFor(line, blocks) == Some(block) && NoFlowLine(block, blocks)
    requires kept != [] ==> !IsGenerated(kept[|kept| - 1])
    ensures n <= |block| && (n == 0 <==> AllGenerated(block))
    ensures Rewritten(kept + block + [line], blocks, |kept| + |block| + 1)
         == Rewritten(kept, blocks, |kept|) + block[..n] + block + [line]
  {
    hide BlockFor, IsGenerated, Rewritten, RunStart, AllGenerated, NoFlowLine;
    var all := kept + block + [line];
    RunInsideBlock(kept, block, [line], |block|);
    assert block[..|block|] == block;
    n := RunStart(all, |kept| + |block|) - |kept|;
    assert all[|kept| + |block|] == line;
    RewrittenAtBlock(all, blocks, |kept| + |block|);
    BlockLinesStay(kept, block, [line], blocks, n);
  }

  /** The block of every flow in the first `n` lines is recognised as generated. */
  predicate Marked(lines: seq<string>, blocks: Blocks, n: nat)
    requires n <= |lines|
  {
    forall k :: 0 <= k < n && BlockFor(lines[k], blocks).Some? ==> AllGenerated(BlockFor(lines[k], blocks).value)
  }

  /** The blocks of these lines declare no flow with a block of its own. */
  predicate Plain(lines: seq<string>, blocks: Blocks) {
    forall k :: 0 <= k < |lines| && BlockFor(lines[k], blocks).Some? ==> NoFlowLine(BlockFor(lines[k], blocks).value, blocks)
  }

  lemma MarkedRun(lines: seq<string>, blocks: Blocks, i: nat)
    requires i < |lines|
    ensures Marked(lines, blocks, i) <==> Marked(lines, blocks, RunStart(lines, i))
  {
    hide BlockFor, IsGenerated, AllGenerated;
    forall k | RunStart(lines, i) <= k < i ensures BlockFor(lines[k], blocks).None? { GeneratedIsNotFlow(lines[k], blocks); }
  }

  lemma MarkedNext(lines: seq<string>, blocks: Blocks, i: nat)
    requires i < |lines|
    ensures var block := BlockFor(lines[i], blocks);
      Marked(lines, blocks, i + 1) == (Marked(lines, blocks, i) && (block.Some? ==> AllGenerated(block.value)))
  {
    hide BlockFor, AllGenerated;
  }

  /** Rewriting again changes nothing if everything is marked, and otherwise makes the file longer. */
  predicate Twice(r: seq<string>, blocks: Blocks, marked: bool) {
    var again := Rewritten(r, blocks, |r|);
    if marked then again == r else |again| > |r|
  }

  lemma BlockTwiceLonger(kept: seq<string>, block: seq<string>, line: string, blocks: Blocks, marked: bool)
    requires BlockFor(line, blocks) == Some(block) && NoFlowLine(block, blocks) && Twice(kept, blocks, marked)
    requires kept != [] ==> !IsGenerated(kept[|kept| - 1])
    ensures Twice(kept + block + [line], blocks, marked && AllGenerated(block))
  {
    hide BlockFor, IsGenerated, Rewritten, AllGenerated, NoFlowLine;
    var n := BlockTwice(kept, block, line, blocks);
  }

  lemma LineTwiceLonger(kept: seq<string>, line: string, blocks: Blocks, marked: bool)
    requires BlockFor(line, blocks).None? && Twice(kept, blocks, marked)
    ensures Twice(kept + [line], blocks, marked)
  {
    hide BlockFor, Rewritten;
    LineTwice(kept, line, blocks);
  }

  /** Rewriting rewritten lines changes nothing exactly when every block written is marked. */
  lemma {:induction false} SecondRewrite(lines: seq<string>, blocks: Blocks, n: nat)
    requires n <= |lines| && Plain(lines, blocks)
    ensures Twice(Rewritten(lines, blocks, n), blocks, Marked(lines, blocks, n))
  {
    hide BlockFor, IsGenerated, RunStart, AllGenerated, Marked, NoFlowLine, Twice;
    if n == 0 {
      NothingTwice(lines, blocks);
    } else {
      MarkedNext(lines, blocks, n - 1);
      var line := lines[n - 1];
      var block := BlockFor(line, blocks);
      if block.None? {
        SecondRewrite(lines, blocks, n - 1);
        LineTwiceLonger(Rewritten(lines, blocks, n - 1), line, blocks, Marked(lines, blocks, n - 1));
      } else {
        var start := RunStart(lines, n - 1);
        SecondRewrite(lines, blocks, start);
        MarkedRun(lines, blocks, n - 1);
        if start > 0 { RewrittenNotEmpty(lines, blocks, start); }
        BlockTwiceLonger(Rewritten(lines, blocks, start), block.value, line, blocks, Marked(lines, blocks, start));
        hide Rewritten;
        RewrittenAtBlock(lines, blocks, n - 1);
      }
    }
  }

  lemma NothingTwice(lines: seq<string>, blocks: Blocks)
    ensures Marked(lines, blocks, 0) && Twice(Rewritten(lines, blocks, 0), blocks, true)
  {
  }

  lemma LineTwice(kept: seq<string>, line: string, blocks: Blocks)
    requires BlockFor(line, blocks).None?
    ensures var all := kept + [line]; Rewritten(all, blocks, |all|) == Rewritten(kept, blocks, |kept|) + [line]
  {
    hide BlockFor, RunStart;
    RewrittenPrefix(kept, [line], blocks, |kept|);
  }

  // ----- Whole sources -----

  predicate OneLine(line: string) { '\n' !in line }

  predicate AllOneLine(lines: seq<string>) { forall i :: 0 <= i < |lines| ==> OneLine(lines[i]) }

  lemma {:induction false} SplitLines(text: string)
    ensures AllOneLine(Split(text))
  {
    if text != "" { SplitLines(text[1..]); }
  }

  lemma {:induction false} SplitFirst(line: string, rest: string)
    requires OneLine(line)
    ensures Split(line + "\n" + rest) == [line] + Split(rest)
    ensures Split(line) == [line]
  {
    var text := line + "\n" + rest;
    if line == "" {
      assert text[1..] == rest;
    } else {
      SplitFirst(line[1..], rest);
      assert text[1..] == line[1..] + "\n" + rest;
      assert line[0] != '\n' && [line[0]] + line[1..] == line;
      assert ([line[1..]] + Split(rest))[1..] == Split(rest);
    }
  }

  lemma {:induction false} SplitInvertsJoin(lines: seq<string>)
    requires lines != [] && AllOneLine(lines)
    ensures Split(Join(lines)) == lines
  {
    assert OneLine(lines[0]);
    if |lines| == 1 {
      SplitFirst(lines[0], "");
    } else {
      SplitInvertsJoin(lines[1..]);
      SplitFirst(lines[0], Join(lines[1..]));
    }
  }

  predicate OneLineBlocks(blocks: Blocks) {
    forall name, i :: name in blocks && 0 <= i < |blocks[name]| ==> '\n' !in blocks[name][i]
  }

  lemma BlockLines(line: string, blocks: Blocks)
    requires OneLineBlocks(blocks) && OneLine(line) && BlockFor(line, blocks).Some?
    ensures AllOneLine(BlockFor(line, blocks).value)
  {
    hide FlowName, SpaceEnd;
  }

  lemma {:induction false} RewrittenLines(lines: seq<string>, blocks: Blocks, n: nat)
    requires OneLineBlocks(blocks) && AllOneLine(lines) && n <= |lines|
    ensures AllOneLine(Rewritten(lines, blocks, n))
  {
    hide BlockFor, OneLineBlocks, RunStart, OneLine;
    if n > 0 {
      assert OneLine(lines[n - 1]);
      if BlockFor(lines[n - 1], blocks).None? {
        RewrittenLines(lines, blocks, n - 1);
      } else {
        RewrittenLines(lines, blocks, RunStart(lines, n - 1));
        BlockLines(lines[n - 1], blocks);
      }
    }
  }

  /** The lines of a rewritten source. */
  lemma RewriteLines(source: string, blocks: Blocks)
    requires OneLineBlocks(blocks)
    ensures Split(Rewrite(source, blocks)) == Rewritten(Split(source), blocks, |Split(source)|)
  {
    hide Rewritten, OneLineBlocks, Split, Join, AllOneLine;
    var lines := Split(source);
    RewrittenNotEmpty(lines, blocks, |lines|);
    SplitLines(source);
    RewrittenLines(lines, blocks, |lines|);
    SplitInvertsJoin(Rewritten(lines, blocks, |lines|));
  }

  /** Without the mark a block is not recognised: whatever the source, a second rewrite changes nothing exactly when all
      lines of every block written are marked. */
  lemma StableIffMarked(source: string, blocks: Blocks)
    requires OneLineBlocks(blocks) && Plain(Split(source), blocks)
    ensures Rewrite(Rewrite(source, blocks), blocks) == Rewrite(source, blocks) <==> Marked(Split(source), blocks, |Split(source)|)
  {
    hide Rewritten, OneLineBlocks, Split, Join, Marked, Plain;
    var lines := Split(source);
    RewriteLines(source, blocks);
    RewriteLines(Rewrite(source, blocks), blocks);
    SecondRewrite(lines, blocks, |lines|);
  }

  /** A second rewrite with the same blocks changes nothing. */
  lemma RewriteIsIdempotent(source: string, blocks: Blocks)
    requires GoodBlocks(blocks)
    ensures Rewrite(Rewrite(source, blocks), blocks) == Rewrite(source, blocks)
  {
    hide Rewritten, GoodBlocks, Split, Join, Current;
    var lines := Split(source);
    var again := Rewritten(lines, blocks, |lines|);
    GoodIsOneLine(blocks);
    RewriteLines(source, blocks);
    RewrittenIsCurrent(lines, blocks, |lines|);
    CurrentIsFixed(again, blocks, |again|);
    assert again[..|again|] == again;
  }

  lemma GoodIsOneLine(blocks: Blocks)
    requires GoodBlocks(blocks)
    ensures OneLineBlocks(blocks)
  {
  }

  /** What one rewrite does to a source: other lines stay, and every named flow gets exactly its block. */
  lemma RewriteIsExact(source: string, blocks: Blocks)
    requires GoodBlocks(blocks)
    ensures Others(Split(Rewrite(source, blocks))) == Others(Split(source))
    ensures Current(Split(Rewrite(source, blocks)), blocks)
  {
    hide Rewritten, GoodBlocks, Split, Join, Current, Others;
    var lines := Split(source);
    GoodIsOneLine(blocks);
    RewriteLines(source, blocks);
    OtherLinesStay(lines, blocks, |lines|);
    RewrittenIsCurrent(lines, blocks, |lines|);
    assert lines[..|lines|] == lines;
  }
}
