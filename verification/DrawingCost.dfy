/** How much work drawing a pattern takes: linear in its text and its part count, unless something that draws no
    part is repeated. */
module DrawingCost {
  import opened Ast
  import opened Pattern
  import opened PatternRoundTrip
  import opened Circuit
  import opened CircuitProof

  // ----- Size and work -----

  /** Nodes of a pattern. */
  function Size(p: Pattern): (r: nat)
    ensures r > 0
    decreases p, 0
  {
    match p
    case Lit(_) | Class(_) => 1
    case Sequence(items) => 1 + SizeAll(items)
    case Repeat(item, _) => 1 + Size(item)
  }

  function SizeAll(items: seq<Pattern>): nat
    decreases items, 0
  {
    if items == [] then 0 else SizeAll(items[..|items| - 1]) + Size(items[|items| - 1])
  }

  /** Somewhere an item that draws no part is repeated. */
  predicate Idle(p: Pattern)
    decreases p
  {
    match p
    case Lit(_) | Class(_) => false
    case Sequence(items) => exists i :: 0 <= i < |items| && Idle(items[i])
    case Repeat(item, _) => CountParts(item) == 0 || Idle(item)
  }

  function AtLeastOne(n: nat): nat { if n == 0 then 1 else n }

  lemma CountLast(items: seq<Pattern>)
    requires items != []
    ensures CountAll(items) == CountAll(items[..|items| - 1]) + CountParts(items[|items| - 1])
  {
    hide Flatten, FlattenAll;
    FlattenStep(items, |items| - 1);
    assert items[..|items| - 1 + 1] == items;
  }

  lemma {:induction false} CountEach(items: seq<Pattern>, i: nat)
    requires i < |items|
    ensures CountParts(items[i]) <= CountAll(items)
  {
    hide CountParts, CountAll;
    CountLast(items);
    if i < |items| - 1 { CountEach(items[..|items| - 1], i); }
  }

  // ----- Without idle repetition -----

  lemma Spread(a: nat, b: nat, m: nat)
    ensures a * m + b * m == (a + b) * m
    ensures m > 0 ==> 1 + a * m <= (1 + a) * m
  {
  }

  lemma Times(a: nat, b: nat, m: nat)
    requires a <= b
    ensures a * m <= b * m && m * a <= m * b
  {
  }

  lemma {:induction false} LinearAll(items: seq<Pattern>, m: nat)
    requires forall i :: 0 <= i < |items| ==> !Idle(items[i]) && AtLeastOne(CountParts(items[i])) <= m
    ensures StepsAll(items) <= SizeAll(items) * m
    decreases items, 0
  {
    hide EmitSteps, CountParts, Size, Idle;
    if items != [] {
      var n := |items| - 1;
      LinearAll(items[..n], m);
      LinearWork(items[n]);
      Times(AtLeastOne(CountParts(items[n])), m, Size(items[n]));
      Spread(SizeAll(items[..n]), Size(items[n]), m);
    }
  }

  /** Without idle repetition the part count, known before anything is emitted, bounds the work. */
  lemma {:induction false} LinearWork(p: Pattern)
    requires !Idle(p)
    ensures EmitSteps(p) <= Size(p) * AtLeastOne(CountParts(p))
    decreases p, 1
  {
    match p
    case Lit(_) | Class(_) =>
    case Sequence(items) =>
      hide StepsAll, SizeAll, CountAll;
      var m := AtLeastOne(CountAll(items));
      forall i | 0 <= i < |items| ensures AtLeastOne(CountParts(items[i])) <= m { CountEach(items, i); }
      LinearAll(items, m);
      Spread(SizeAll(items), 0, m);
    case Repeat(item, times) => LinearCopies(item, times);
  }

  lemma {:induction false} LinearCopies(item: Pattern, times: nat)
    requires CountParts(item) > 0 && !Idle(item)
    ensures 1 + times * EmitSteps(item) <= (1 + Size(item)) * AtLeastOne(times * CountParts(item))
    decreases item, 2
  {
    hide EmitSteps, CountParts, Size;
    LinearWork(item);
    var c, z := CountParts(item), Size(item);
    Times(EmitSteps(item), z * c, times);
    Regroup(times, z, c);
    if times == 0 {
      assert 0 * EmitSteps(item) == 0;
    } else {
      Times(1, times, c);
      Spread(z, 0, times * c);
    }
  }

  lemma Regroup(t: nat, z: nat, c: nat)
    ensures t * (z * c) == z * (t * c)
  {
  }

  // ----- Other counts in the same places -----

  /** The same pattern, but for the counts of its repetitions. */
  predicate SameShape(p: Pattern, q: Pattern)
    decreases p
  {
    match p
    case Lit(_) | Class(_) => q == p
    case Sequence(items) => q.Sequence? && |q.items| == |items| && forall i :: 0 <= i < |items| ==> SameShape(items[i], q.items[i])
    case Repeat(item, _) => q.Repeat? && SameShape(item, q.item)
  }

  /** The pattern with every idle repetition made `n` times. */
  function Recount(p: Pattern, n: nat): Pattern
    decreases p
  {
    match p
    case Lit(_) | Class(_) => p
    case Sequence(items) => Sequence(seq(|items|, i requires 0 <= i < |items| => Recount(items[i], n)))
    case Repeat(item, times) => if CountParts(item) == 0 then Repeat(item, n) else Repeat(Recount(item, n), times)
  }

  lemma {:induction false} SameAsItself(p: Pattern)
    ensures SameShape(p, p)
    decreases p
  {
    match p
    case Lit(_) | Class(_) =>
    case Sequence(items) => forall i | 0 <= i < |items| ensures SameShape(items[i], items[i]) { SameAsItself(items[i]); }
    case Repeat(item, _) => SameAsItself(item);
  }

  lemma {:induction false} CountsAlike(a: seq<Pattern>, b: seq<Pattern>)
    requires |a| == |b| && forall i :: 0 <= i < |a| ==> CountParts(a[i]) == CountParts(b[i])
    ensures CountAll(a) == CountAll(b)
  {
    hide CountParts;
    if a != [] { CountsAlike(a[1..], b[1..]); }
  }

  /** Recounting changes neither the shape nor the part count. */
  lemma {:induction false} RecountKeeps(p: Pattern, n: nat)
    requires n > 0 && Canonical(p)
    ensures Canonical(Recount(p, n)) && SameShape(p, Recount(p, n)) && CountParts(Recount(p, n)) == CountParts(p)
    decreases p
  {
    match p
    case Lit(_) | Class(_) =>
    case Sequence(items) =>
      var q := Recount(p, n);
      forall i | 0 <= i < |items|
        ensures Canonical(q.items[i]) && SameShape(items[i], q.items[i]) && CountParts(q.items[i]) == CountParts(items[i])
      {
        RecountKeeps(items[i], n);
      }
      CountsAlike(items, q.items);
    case Repeat(item, times) =>
      if CountParts(item) == 0 {
        SameAsItself(item);
        assert n * CountParts(item) == 0 == times * CountParts(item);
      } else {
        RecountKeeps(item, n);
      }
  }

  lemma {:induction false} StepsEach(items: seq<Pattern>, i: nat)
    requires i < |items|
    ensures EmitSteps(items[i]) <= StepsAll(items)
  {
    hide EmitSteps;
    if i < |items| - 1 { StepsEach(items[..|items| - 1], i); }
  }

  lemma SomeStep(p: Pattern)
    ensures EmitSteps(p) >= 1
  {
    hide StepsAll;
  }

  /** Work grows with the counts of idle repetitions. */
  lemma {:induction false} IdleWork(p: Pattern, n: nat)
    requires Canonical(p) && Idle(p)
    ensures EmitSteps(Recount(p, n)) >= n
    decreases p
  {
    match p
    case Sequence(items) =>
      var i :| 0 <= i < |items| && Idle(items[i]);
      IdleWork(items[i], n);
      StepsEach(Recount(p, n).items, i);
    case Repeat(item, times) =>
      if CountParts(item) == 0 {
        SomeStep(item);
        Times(1, EmitSteps(item), n);
      } else {
        IdleWork(item, n);
        Times(1, times, EmitSteps(Recount(item, n)));
      }
  }

  lemma {:induction false} NoPartsAlike(a: seq<Pattern>, b: seq<Pattern>)
    requires |a| == |b| && forall i :: 0 <= i < |a| ==> (CountParts(a[i]) == 0 <==> CountParts(b[i]) == 0)
    ensures CountAll(a) == 0 <==> CountAll(b) == 0
  {
    hide CountParts;
    if a != [] { NoPartsAlike(a[1..], b[1..]); }
  }

  /** Positive counts decide neither whether a pattern draws something nor whether it is idle. */
  lemma {:induction false} ShapeDecides(p: Pattern, q: Pattern)
    requires Canonical(p) && Canonical(q) && SameShape(p, q)
    ensures (CountParts(p) == 0 <==> CountParts(q) == 0) && (Idle(p) <==> Idle(q))
    decreases p
  {
    match p
    case Lit(_) | Class(_) =>
    case Sequence(items) =>
      forall i | 0 <= i < |items|
        ensures (CountParts(items[i]) == 0 <==> CountParts(q.items[i]) == 0) && (Idle(items[i]) <==> Idle(q.items[i]))
      {
        ShapeDecides(items[i], q.items[i]);
      }
      NoPartsAlike(items, q.items);
    case Repeat(item, times) =>
      ShapeDecides(item, q.item);
      ZeroProduct(times, CountParts(item));
      ZeroProduct(q.times, CountParts(q.item));
  }

  lemma ZeroProduct(t: nat, c: nat)
    requires t > 0
    ensures t * c == 0 <==> c == 0
  {
  }

  ghost predicate BoundedWork(p: Pattern) {
    EmitSteps(p) <= Size(p) * AtLeastOne(CountParts(p))
  }

  /** The part count bounds the work, whatever counts of the same part count the pattern has, exactly when nothing
      that draws no part is repeated. */
  lemma WorkBoundedIff(p: Pattern)
    requires Canonical(p)
    ensures (forall q :: Canonical(q) && SameShape(p, q) && CountParts(q) == CountParts(p) ==> BoundedWork(q)) <==> !Idle(p)
  {
    hide Canonical, SameShape, CountParts, Idle, EmitSteps, Size, Recount;
    if Idle(p) {
      var n := Size(p) * AtLeastOne(CountParts(p)) + 1;
      var q := Recount(p, n);
      RecountKeeps(p, n);
      IdleWork(p, n);
      SameSize(p, q);
      assert !BoundedWork(q);
    } else {
      forall q | Canonical(q) && SameShape(p, q) ensures BoundedWork(q) {
        ShapeDecides(p, q);
        LinearWork(q);
      }
    }
  }

  lemma {:induction false} SizesAlike(a: seq<Pattern>, b: seq<Pattern>)
    requires |a| == |b| && forall i :: 0 <= i < |a| ==> Size(a[i]) == Size(b[i])
    ensures SizeAll(a) == SizeAll(b)
  {
    hide Size;
    if a != [] { SizesAlike(a[..|a| - 1], b[..|b| - 1]); }
  }

  lemma {:induction false} SameSize(p: Pattern, q: Pattern)
    requires SameShape(p, q)
    ensures Size(p) == Size(q)
    decreases p
  {
    match p
    case Lit(_) | Class(_) =>
    case Sequence(items) =>
      forall i | 0 <= i < |items| ensures Size(items[i]) == Size(q.items[i]) { SameSize(items[i], q.items[i]); }
      SizesAlike(items, q.items);
    case Repeat(item, _) => SameSize(item, q.item);
  }

  // ----- From the text -----

  lemma {:induction false} SequenceSize(text: string, at: nat, depth: nat, before: seq<Pattern>)
    requires at <= |text| && ParseSequence(text, at, depth, before).Parsed?
    ensures var r := ParseSequence(text, at, depth, before); Size(r.node) <= 1 + SizeAll(before) + (r.at - at)
    decreases |text| - at, 2
  {
    hide Size, SizeAll;
    if at < |text| && text[at] !in {'|', ')'} {
      var item := ParseItem(text, at, depth);
      ItemSize(text, at, depth);
      SizeLast(before, item.node);
      SequenceSize(text, item.at, depth, before + [item.node]);
    } else {
      WholeSize(before);
    }
  }

  lemma SizeLast(before: seq<Pattern>, item: Pattern)
    ensures SizeAll(before + [item]) == SizeAll(before) + Size(item)
  {
    hide Size;
    assert (before + [item])[..|before|] == before;
  }

  lemma WholeSize(items: seq<Pattern>)
    ensures Size(Whole(items)) <= 1 + SizeAll(items)
  {
    if |items| == 1 {
      assert items == [] + [items[0]] && SizeAll([]) == 0;
      SizeLast([], items[0]);
    }
  }

  lemma {:induction false} ItemSize(text: string, at: nat, depth: nat)
    requires at < |text| && ParseItem(text, at, depth).Parsed?
    ensures var r := ParseItem(text, at, depth); Size(r.node) <= r.at - at
    decreases |text| - at, 1
  {
    var atom := ParseAtom(text, at, depth);
    AtomSize(text, at, depth);
    QuantifierBuilds(text, atom.at, atom.node);
  }

  lemma {:induction false} AtomSize(text: string, at: nat, depth: nat)
    requires at < |text| && ParseAtom(text, at, depth).Parsed?
    ensures var r := ParseAtom(text, at, depth); Size(r.node) <= r.at - at
    decreases |text| - at, 0
  {
    if text[at] == '(' {
      hide Size;
      SequenceSize(text, at + 1, depth + 1, []);
      NoSize();
    } else if text[at] == '\\' {
      hide ParseEscape, Size;
      EscapeBuilds(text, at);
      LeafSize(ParseEscape(text, at).node);
    }
  }

  lemma NoSize()
    ensures SizeAll([]) == 0
  {
  }

  lemma LeafSize(p: Pattern)
    requires IsLeaf(p)
    ensures Size(p) == 1
  {
  }

  /** Every pattern that is drawn takes work linear in the length of its text, within the part ceiling, unless it
      repeats something that draws no part. */
  lemma DrawnIsLinear(pattern: string, name: string)
    requires Generation(pattern, name).Drawn?
    ensures ParseAlternation(pattern, 0, 0).Parsed?
    ensures var p := ParseAlternation(pattern, 0, 0).node;
      && Canonical(p) && CountParts(p) == Generation(pattern, name).parts - 1 < MAX_PARTS && Size(p) <= |pattern| + 1
      && (!Idle(p) ==> EmitSteps(p) <= (|pattern| + 1) * CountParts(p))
  {
    hide ParseAlternation, Size, CountParts, EmitSteps, Idle, DrawingOf, Canonical, Show, TopDepth, ValidName, Printable;
    var p := ParseAlternation(pattern, 0, 0).node;
    AcceptedTextsNormalise(pattern);
    PatternSize(pattern);
    if !Idle(p) {
      LinearWork(p);
      Times(Size(p), |pattern| + 1, CountParts(p));
    }
  }

  lemma PatternSize(pattern: string)
    requires ParseAlternation(pattern, 0, 0).Parsed?
    ensures Size(ParseAlternation(pattern, 0, 0).node) <= |pattern| + 1
  {
    hide ParseSequence, Size;
    SequenceSize(pattern, 0, 0, []);
    NoSize();
  }

  /** An empty group repeated, then one letter. */
  function EmptyRepeated(n: nat): Pattern {
    Sequence([Repeat(Sequence([]), n), Lit('a')])
  }

  lemma EmptyRepeatedText(n: nat)
    ensures Show(EmptyRepeated(n)) == "()" + "{" + Decimal(n) + "}" + "a"
  {
    hide Decimal, ShowAtom;
    EmptyGroupText();
    LetterText();
    var items := EmptyRepeated(n).items;
    assert items[1..] == [Lit('a')];
    assert ShowItem(items[0]) == "()" + "{" + Decimal(n) + "}";
    assert Show(EmptyRepeated(n)) == ShowItems(items) == ShowItem(items[0]) + ShowItems(items[1..]);
  }

  lemma EmptyGroupText()
    ensures ShowAtom(Sequence([])) == "()"
  {
    assert Show(Sequence([])) == ShowItems([]) == "";
  }

  lemma LetterText()
    ensures ShowItems([Lit('a')]) == "a"
  {
    assert [Lit('a')][1..] == [] && ShowItems([]) == "";
    assert ShowItem(Lit('a')) == ShowAtom(Lit('a')) == "a";
  }

  lemma EmptyRepeatedCounts(n: nat)
    requires n > 0
    ensures CountParts(EmptyRepeated(n)) == 1 && EmitSteps(EmptyRepeated(n)) == n + 3 && Canonical(EmptyRepeated(n))
    ensures TopDepth(EmptyRepeated(n)) == 1
  {
    var items := EmptyRepeated(n).items;
    assert items[1..] == [Lit('a')] && items[1..][1..] == [];
    assert CountParts(items[0]) == n * 0 == 0;
    assert CountAll(items[1..]) == 1;
    assert items[..1] == [items[0]] && items[..1][..0] == [];
    assert StepsAll(items[..1]) == EmitSteps(items[0]);
    assert EmitSteps(Sequence([])) == 1 && EmitSteps(items[0]) == 1 + n * 1 && EmitSteps(items[1]) == 1;
    assert StepsAll(items) == StepsAll(items[..1]) + EmitSteps(items[1]);
    assert MaxDepth([]) == 0;
    assert GroupDepth(items[0]) == 1 && MaxDepth(items[1..]) == 0;
  }

  /** The count of an empty group passes every ceiling: the drawing has two parts, the work is the count. */
  lemma EmptyGroupWork(n: nat, name: string)
    requires n > 0 && ValidName(name) && |name| <= MAX_IDENTIFIER
    ensures var text := "()" + "{" + Decimal(n) + "}" + "a";
      && ParseAlternation(text, 0, 0) == Parsed(EmptyRepeated(n), |text|)
      && Generation(text, name) == Drawn(DrawingOf(EmptyRepeated(n)), 2)
      && EmitSteps(EmptyRepeated(n)) == n + 3
  {
    hide Show, Decimal, ParseAlternation, CountParts, EmitSteps, Canonical, TopDepth, DrawingOf, ValidName, EmptyRepeated;
    var text := "()" + "{" + Decimal(n) + "}" + "a";
    EmptyRepeatedText(n);
    EmptyRepeatedCounts(n);
    ParseInvertsShow(EmptyRepeated(n));
    PrintableText(n);
  }

  lemma PrintableText(n: nat)
    ensures Printable("()" + "{" + Decimal(n) + "}" + "a")
  {
    hide Decimal;
    assert forall i :: 0 <= i < |Decimal(n)| ==> IsDigit(Decimal(n)[i]);
  }
}
