/** The drawing accepts exactly what the pattern matches, with one producer per consumer and the
    counts predicted before it was built. */
module CircuitProof {
  import opened Ast
  import opened Pattern
  import opened Circuit

  // ----- The generator -----

  const MAX_PARTS := 4096
  const MAX_WIRES := 8192
  const MAX_IDENTIFIER := 64

  datatype Generated = Drawn(drawing: Drawing, parts: nat) | Declined(reason: Reason)

  predicate IsWordChar(c: char) {
    'a' <= c <= 'z' || 'A' <= c <= 'Z' || '0' <= c <= '9' || c == '_'
  }

  predicate ValidName(name: string) {
    name != "" && !IsDigit(name[0]) && forall i :: 0 <= i < |name| ==> IsWordChar(name[i])
  }

  predicate Printable(text: string) {
    forall i :: 0 <= i < |text| ==> ' ' <= text[i] <= '~'
  }

  function Tail(exit: End): seq<Wire> {
    [Wire(exit, Port(EndPart, Subject)), Wire(Port(EndPart, Okay), OutValue), Wire(Port(EndPart, More), Deny(TrailingInput))]
  }

  /** The drawing of a pattern: its character positions in a chain, closed by the boundary part. */
  function DrawingOf(p: Pattern): Drawing {
    var atoms := Flatten(p);
    Drawing(PartsFrom(1, atoms) + [Part(EndPart, Boundary)],
            WiresFrom(InRaw, 1, |atoms|) + Tail(FeedOf(InRaw, 1, |atoms|)),
            ReasonsFrom(1, |atoms|) + [TrailingInput])
  }

  function Generation(pattern: string, name: string): Generated {
    if !ValidName(name) then Declined(BadName)
    else if |name| > MAX_IDENTIFIER then Declined(LongName)
    else if pattern == "" then Declined(EmptyPattern)
    else if !Printable(pattern) then Declined(NonAscii)
    else
      match ParseAlternation(pattern, 0, 0)
      case Refused(reason) => Declined(reason)
      case Parsed(ast, at) =>
        if at != |pattern| then Declined(Unconsumed)
        else if CountParts(ast) + 1 > MAX_PARTS then Declined(TooManyParts)
        else if CountParts(ast) == 0 then Declined(DrawsNothing)
        else if 2 * CountParts(ast) + 3 > MAX_WIRES then Declined(TooManyWires)
        else Drawn(DrawingOf(ast), CountParts(ast) + 1)
  }

  method GenerateCircuit(pattern: string, name: string) returns (r: Generated)
    ensures r == Generation(pattern, name)
  {
    hide ParseAlternation, Flatten, PartsFrom, WiresFrom, ReasonsFrom, FeedOf;
    if !ValidName(name) {
      return Declined(BadName);
    }
    if |name| > MAX_IDENTIFIER {
      return Declined(LongName);
    }
    if |pattern| == 0 {
      return Declined(EmptyPattern);
    }
    if !Printable(pattern) {
      return Declined(NonAscii);
    }
    var parser := new PatternParser(pattern);
    var ast := parser.TakeAlternation();
    if ast.Refused? {
      return Declined(ast.reason);
    }
    if parser.at != |pattern| {
      return Declined(Unconsumed);
    }
    var partCount := CountParts(ast.node) + 1;
    if partCount > MAX_PARTS {
      return Declined(TooManyParts);
    }
    var out := new Emitter();
    var exit := out.Emit(ast.node, InRaw);
    if |out.parts| == 0 {
      return Declined(DrawsNothing);
    }
    out.parts := out.parts + [Part(EndPart, Boundary)];
    out.wires := out.wires + [Wire(exit, Port(EndPart, Subject))];
    out.wires := out.wires + [Wire(Port(EndPart, Okay), OutValue)];
    out.wires := out.wires + [Wire(Port(EndPart, More), Deny(TrailingInput))];
    out.reasons := out.reasons + [TrailingInput];
    if |out.wires| > MAX_WIRES {
      return Declined(TooManyWires);
    }
    return Drawn(Drawing(out.parts, out.wires, out.reasons), partCount);
  }

  // ----- Running a circuit -----

  datatype Verdict = Accepted | Denied(reason: DenyReason)

  /** Everything wired to an output. */
  function Targets(wires: seq<Wire>, from: End): seq<End> {
    if wires == [] then []
    else (if wires[0].from == from then [wires[0].to] else []) + Targets(wires[1..], from)
  }

  function ComponentAt(parts: seq<Part>, id: PartId): Option<Component> {
    if parts == [] then None
    else if parts[0].id == id then Some(parts[0].component)
    else ComponentAt(parts[1..], id)
  }

  /** Output a part drives for an input read up to `pos`, and how far it has then read. */
  function Fire(c: Component, classes: Classes, input: string, pos: nat): (PortName, nat) {
    match c
    case Literal(ch) => if pos < |input| && input[pos] == ch then (Match, pos + 1) else (No, pos)
    case ClassOf(n) => if pos < |input| && classes(n, input[pos]) then (Match, pos + 1) else (No, pos)
    case Boundary => if pos >= |input| then (Okay, pos) else (More, pos)
  }

  /** Follow the wires from a consumer until a terminal, entering at most `fuel` parts. */
  function Flow(d: Drawing, classes: Classes, input: string, at: End, pos: nat, fuel: nat): Option<Verdict>
    decreases fuel
  {
    match at
    case OutValue => Some(Accepted)
    case Deny(reason) => Some(Denied(reason))
    case InRaw => None
    case Port(id, port) =>
      if fuel == 0 || port != Subject || ComponentAt(d.parts, id).None? then None
      else
        var (out, pos') := Fire(ComponentAt(d.parts, id).value, classes, input, pos);
        var next := Targets(d.wires, Port(id, out));
        if |next| != 1 then None else Flow(d, classes, input, next[0], pos', fuel - 1)
  }

  /** What the circuit does with an input; no part is entered twice. */
  function RunCircuit(d: Drawing, classes: Classes, input: string): Option<Verdict> {
    var first := Targets(d.wires, InRaw);
    if |first| != 1 then None else Flow(d, classes, input, first[0], 0, |d.parts|)
  }

  // ----- Shape -----

  ghost predicate DistinctBy(wires: seq<Wire>) {
    && (forall i, j :: 0 <= i < j < |wires| ==> wires[i].from != wires[j].from)
    && forall i, j :: 0 <= i < j < |wires| ==> wires[i].to != wires[j].to
  }

  /** The `j`-th wire of a drawing with `n` character positions. */
  function WireAt(n: nat, j: nat): Wire {
    if j == 2 * n then Wire(FeedOf(InRaw, 1, n), Port(EndPart, Subject))
    else if j == 2 * n + 1 then Wire(Port(EndPart, Okay), OutValue)
    else if j == 2 * n + 2 then Wire(Port(EndPart, More), Deny(TrailingInput))
    else if j % 2 == 0 then Wire(FeedOf(InRaw, 1, j / 2), Port(P(1 + j / 2), Subject))
    else Wire(Port(P(1 + j / 2), No), Deny(NoMatchAt(1 + j / 2)))
  }

  lemma WiresInOrder(p: Pattern)
    ensures var n := CountParts(p); var w := DrawingOf(p).wires;
            |w| == 2 * n + 3 && forall j :: 0 <= j < |w| ==> w[j] == WireAt(n, j)
  {
    var n, w := CountParts(p), DrawingOf(p).wires;
    var chain := WiresFrom(InRaw, 1, n);
    forall j | 0 <= j < |w|
      ensures w[j] == WireAt(n, j)
    {
      if j < 2 * n {
        assert chain[j] == if j % 2 == 0 then chain[2 * (j / 2)] else chain[2 * (j / 2) + 1];
      }
    }
  }

  /** Single assignment: no output feeds two consumers and no consumer has two producers. */
  lemma OneProducerEach(p: Pattern)
    ensures DistinctBy(DrawingOf(p).wires)
  {
    WiresInOrder(p);
    var n, w := CountParts(p), DrawingOf(p).wires;
    forall i, j | 0 <= i < j < |w|
      ensures w[i].from != w[j].from && w[i].to != w[j].to
    {
      DistinctEnds(n, i, j);
    }
  }

  lemma DistinctEnds(n: nat, i: nat, j: nat)
    requires i < j < 2 * n + 3
    ensures WireAt(n, i).from != WireAt(n, j).from && WireAt(n, i).to != WireAt(n, j).to
  {
  }

  /** The result has the part count computed before expansion, one wire into each part and one out
      of each refusal, and one reason of its own per position. */
  lemma CountsAsPredicted(pattern: string, name: string)
    requires Generation(pattern, name).Drawn?
    ensures var g := Generation(pattern, name); var ast := ParseAlternation(pattern, 0, 0).node;
            && g.parts == |g.drawing.parts| == CountParts(ast) + 1
            && |g.drawing.wires| == 2 * CountParts(ast) + 3
            && |g.drawing.reasons| == CountParts(ast) + 1
            && DistinctBy(g.drawing.wires)
            && forall i, j :: 0 <= i < j < |g.drawing.reasons| ==> g.drawing.reasons[i] != g.drawing.reasons[j]
  {
    var ast := ParseAlternation(pattern, 0, 0).node;
    OneProducerEach(ast);
    WiresInOrder(ast);
  }

  // ----- Meaning -----

  predicate AtomMatches(atom: Pattern, classes: Classes, c: char) {
    match atom
    case Lit(ch) => c == ch
    case Class(n) => classes(n, c)
    case _ => false
  }

  ghost predicate MatchesAtoms(atoms: seq<Pattern>, classes: Classes, input: string) {
    |input| == |atoms| && forall i :: 0 <= i < |atoms| ==> AtomMatches(atoms[i], classes, input[i])
  }

  lemma SplitAtoms(a: seq<Pattern>, b: seq<Pattern>, classes: Classes, input: string)
    ensures MatchesAtoms(a + b, classes, input)
        <==> |input| >= |a| && MatchesAtoms(a, classes, input[..|a|]) && MatchesAtoms(b, classes, input[|a|..])
  {
    var ab := a + b;
    if MatchesAtoms(ab, classes, input) {
      forall i | 0 <= i < |a|
        ensures AtomMatches(a[i], classes, input[..|a|][i])
      {
        assert ab[i] == a[i];
      }
      forall i | 0 <= i < |b|
        ensures AtomMatches(b[i], classes, input[|a|..][i])
      {
        assert ab[|a| + i] == b[i];
      }
    }
  }

  /** A pattern matches an input exactly when its character positions do, one each. */
  lemma {:induction false} FlattenKeepsMeaning(p: Pattern, classes: Classes, input: string)
    ensures Matches(p, classes, input) <==> MatchesAtoms(Flatten(p), classes, input)
    decreases p, 0
  {
    match p
    case Lit(_) =>
      assert Flatten(p) == [p];
    case Class(_) =>
      assert Flatten(p) == [p];
    case Sequence(items) => AllKeepMeaning(items, classes, input);
    case Repeat(item, times) => TimesKeepMeaning(item, times, classes, input);
  }

  lemma {:induction false} AllKeepMeaning(items: seq<Pattern>, classes: Classes, input: string)
    ensures MatchesAll(items, classes, input) <==> MatchesAtoms(FlattenAll(items), classes, input)
    decreases items, |items|
  {
    if items != [] {
      hide MatchesAtoms;
      var a, b := Flatten(items[0]), FlattenAll(items[1..]);
      forall k | 0 <= k <= |input|
        ensures Matches(items[0], classes, input[..k]) <==> MatchesAtoms(a, classes, input[..k])
        ensures MatchesAll(items[1..], classes, input[k..]) <==> MatchesAtoms(b, classes, input[k..])
      {
        FlattenKeepsMeaning(items[0], classes, input[..k]);
        AllKeepMeaning(items[1..], classes, input[k..]);
      }
      SplitAnywhere(a, b, classes, input);
    } else {
      NoAtoms(classes, input);
    }
  }

  lemma NoAtoms(classes: Classes, input: string)
    ensures MatchesAtoms([], classes, input) <==> input == ""
  {
  }

  lemma SplitAnywhere(a: seq<Pattern>, b: seq<Pattern>, classes: Classes, input: string)
    ensures MatchesAtoms(a + b, classes, input)
        <==> exists k :: 0 <= k <= |input| && MatchesAtoms(a, classes, input[..k]) && MatchesAtoms(b, classes, input[k..])
  {
    SplitAtoms(a, b, classes, input);
    forall k | 0 <= k <= |input| && MatchesAtoms(a, classes, input[..k])
      ensures k == |a|
    {
    }
  }

  lemma {:induction false} TimesKeepMeaning(item: Pattern, times: nat, classes: Classes, input: string)
    ensures MatchesTimes(item, times, classes, input) <==> MatchesAtoms(Copies(Flatten(item), times), classes, input)
    decreases item, 1, times
  {
    if times > 0 {
      hide MatchesAtoms;
      var a := Flatten(item);
      var b := Copies(a, times - 1);
      forall k | 0 <= k <= |input|
        ensures Matches(item, classes, input[..k]) <==> MatchesAtoms(a, classes, input[..k])
        ensures MatchesTimes(item, times - 1, classes, input[k..]) <==> MatchesAtoms(b, classes, input[k..])
      {
        FlattenKeepsMeaning(item, classes, input[..k]);
        TimesKeepMeaning(item, times - 1, classes, input[k..]);
      }
      SplitAnywhere(a, b, classes, input);
      CopiesFront(a, times);
    } else {
      NoAtoms(classes, input);
    }
  }

  lemma {:induction false} CopiesFront(s: seq<Pattern>, times: nat)
    requires times > 0
    ensures Copies(s, times) == s + Copies(s, times - 1)
  {
    if times > 1 {
      CopiesFront(s, times - 1);
    }
  }

  /** Where an input is first refused: a position that does not match, or input left over. */
  function Expected(atoms: seq<Pattern>, classes: Classes, input: string, i: nat): Verdict
    requires i <= |atoms|
    decreases |atoms| - i
  {
    if i == |atoms| then if i >= |input| then Accepted else Denied(TrailingInput)
    else if i < |input| && AtomMatches(atoms[i], classes, input[i]) then Expected(atoms, classes, input, i + 1)
    else Denied(NoMatchAt(1 + i))
  }

  lemma {:induction false} ExpectedAccepts(atoms: seq<Pattern>, classes: Classes, input: string, i: nat)
    requires i <= |atoms| && i <= |input|
    ensures Expected(atoms, classes, input, i) == Accepted
        <==> |input| == |atoms| && forall k :: i <= k < |atoms| ==> AtomMatches(atoms[k], classes, input[k])
    decreases |atoms| - i
  {
    if i < |atoms| && i < |input| {
      ExpectedAccepts(atoms, classes, input, i + 1);
    }
  }

  lemma {:induction false} OnlyTarget(wires: seq<Wire>, j: nat)
    requires j < |wires| && forall a, b :: 0 <= a < b < |wires| ==> wires[a].from != wires[b].from
    ensures Targets(wires, wires[j].from) == [wires[j].to]
  {
    if j == 0 {
      NoTarget(wires[1..], wires[0].from);
    } else {
      assert wires[1..][j - 1] == wires[j];
      OnlyTarget(wires[1..], j - 1);
    }
  }

  lemma {:induction false} NoTarget(wires: seq<Wire>, from: End)
    requires forall i :: 0 <= i < |wires| ==> wires[i].from != from
    ensures Targets(wires, from) == []
  {
    if wires != [] {
      NoTarget(wires[1..], from);
    }
  }

  lemma {:induction false} FindPart(parts: seq<Part>, k: nat)
    requires k < |parts| && forall i, j :: 0 <= i < j < |parts| ==> parts[i].id != parts[j].id
    ensures ComponentAt(parts, parts[k].id) == Some(parts[k].component)
  {
    if k > 0 {
      assert parts[1..][k - 1] == parts[k];
      FindPart(parts[1..], k - 1);
    }
  }

  /** Entering the `i`-th position of the chain. */
  lemma {:induction false} FlowFrom(p: Pattern, classes: Classes, input: string, i: nat, fuel: nat)
    requires i <= CountParts(p) && fuel + i > CountParts(p)
    ensures Flow(DrawingOf(p), classes, input, if i == CountParts(p) then Port(EndPart, Subject) else Port(P(1 + i), Subject), i, fuel)
         == Some(Expected(Flatten(p), classes, input, i))
    decreases CountParts(p) - i
  {
    hide DrawingOf, Flatten;
    var n, atoms := CountParts(p), Flatten(p);
    Lookup(p, i);
    if i < n && i < |input| && AtomMatches(atoms[i], classes, input[i]) {
      FlowFrom(p, classes, input, i + 1, fuel - 1);
    }
  }

  /** The part at position `i` and where its outputs lead. */
  lemma Lookup(p: Pattern, i: nat)
    requires i <= CountParts(p)
    ensures var d := DrawingOf(p); var n := CountParts(p);
            if i == n then
              && ComponentAt(d.parts, EndPart) == Some(Boundary)
              && Targets(d.wires, Port(EndPart, Okay)) == [OutValue]
              && Targets(d.wires, Port(EndPart, More)) == [Deny(TrailingInput)]
            else
              && ComponentAt(d.parts, P(1 + i)) == Some(ComponentOf(Flatten(p)[i]))
              && Targets(d.wires, Port(P(1 + i), No)) == [Deny(NoMatchAt(1 + i))]
              && Targets(d.wires, Port(P(1 + i), Match)) == [if i + 1 == n then Port(EndPart, Subject) else Port(P(2 + i), Subject)]
  {
    var d, n := DrawingOf(p), CountParts(p);
    WiresInOrder(p);
    OneProducerEach(p);
    FindPart(d.parts, i);
    hide DrawingOf;
    if i == n {
      OnlyTarget(d.wires, 2 * n + 1);
      OnlyTarget(d.wires, 2 * n + 2);
    } else {
      OnlyTarget(d.wires, 2 * i + 1);
      OnlyTarget(d.wires, 2 * (i + 1));
    }
  }

  /** Every drawing decides every input, refusing at the first position that fails to match. */
  lemma RunIsExpected(p: Pattern, classes: Classes, input: string)
    ensures RunCircuit(DrawingOf(p), classes, input) == Some(Expected(Flatten(p), classes, input, 0))
  {
    WiresInOrder(p);
    OneProducerEach(p);
    OnlyTarget(DrawingOf(p).wires, 0);
    FlowFrom(p, classes, input, 0, |DrawingOf(p).parts|);
  }

  /** The drawing means what the pattern means: for every pattern text the generator accepts, every
      class table and every input, the circuit sends the input to OUT exactly when the whole input
      matches the pattern. */
  lemma DrawingKeepsMeaning(pattern: string, name: string, classes: Classes, input: string)
    requires Generation(pattern, name).Drawn?
    ensures var ast := ParseAlternation(pattern, 0, 0).node; var verdict := RunCircuit(Generation(pattern, name).drawing, classes, input);
            && verdict.Some?
            && (verdict == Some(Accepted) <==> Matches(ast, classes, input))
  {
    var ast := ParseAlternation(pattern, 0, 0).node;
    RunIsExpected(ast, classes, input);
    ExpectedAccepts(Flatten(ast), classes, input, 0);
    FlattenKeepsMeaning(ast, classes, input);
  }
}
