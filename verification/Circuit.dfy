/** Drawing a pattern as a single-assignment circuit, and what the drawing accepts. */
module Circuit {
  import opened Ast
  import opened Pattern

  // ----- What a pattern means -----

  /** Which characters each named class holds; every result below is for any such table. */
  type Classes = (ClassName, char) -> bool

  /** Whole-input matching: a repetition is exactly `times` copies in a row. */
  ghost predicate Matches(p: Pattern, classes: Classes, input: string)
    decreases p, 0
  {
    match p
    case Lit(c) => input == [c]
    case Class(n) => |input| == 1 && classes(n, input[0])
    case Sequence(items) => MatchesAll(items, classes, input)
    case Repeat(item, times) => MatchesTimes(item, times, classes, input)
  }

  ghost predicate MatchesAll(items: seq<Pattern>, classes: Classes, input: string)
    decreases items, |items|
  {
    if items == [] then input == ""
    else exists k :: 0 <= k <= |input| && Matches(items[0], classes, input[..k]) && MatchesAll(items[1..], classes, input[k..])
  }

  ghost predicate MatchesTimes(item: Pattern, times: nat, classes: Classes, input: string)
    decreases item, 1, times
  {
    if times == 0 then input == ""
    else exists k :: 0 <= k <= |input| && Matches(item, classes, input[..k]) && MatchesTimes(item, times - 1, classes, input[k..])
  }

  // ----- The drawing -----

  datatype PartId = P(index: nat) | EndPart
  datatype Component = Literal(ch: char) | ClassOf(name: ClassName) | Boundary
  datatype PortName = Subject | Match | No | Okay | More
  datatype DenyReason = NoMatchAt(index: nat) | TrailingInput
  datatype End = InRaw | Port(part: PartId, port: PortName) | OutValue | Deny(reason: DenyReason)
  datatype Wire = Wire(from: End, to: End)
  datatype Part = Part(id: PartId, component: Component)
  datatype Drawing = Drawing(parts: seq<Part>, wires: seq<Wire>, reasons: seq<DenyReason>)

  /** Part count of the drawing, computed before anything is built. */
  function CountParts(p: Pattern): nat
    decreases p
  {
    match p
    case Lit(_) | Class(_) => 1
    case Sequence(items) => CountAll(items)
    case Repeat(item, times) => times * CountParts(item)
  }

  function CountAll(items: seq<Pattern>): nat
    decreases items
  {
    if items == [] then 0 else CountParts(items[0]) + CountAll(items[1..])
  }

  /** Calls the emitter makes for a pattern, one for each node and for each copy of a repeated one. */
  function EmitSteps(p: Pattern): nat
    decreases p, 0
  {
    match p
    case Lit(_) | Class(_) => 1
    case Sequence(items) => 1 + StepsAll(items)
    case Repeat(item, times) => 1 + times * EmitSteps(item)
  }

  function StepsAll(items: seq<Pattern>): nat
    decreases items, 0
  {
    if items == [] then 0 else StepsAll(items[..|items| - 1]) + EmitSteps(items[|items| - 1])
  }

  predicate IsAtom(p: Pattern) { p.Lit? || p.Class? }

  /** The character positions of a pattern, repetitions written out. */
  function Flatten(p: Pattern): (r: seq<Pattern>)
    ensures |r| == CountParts(p) && forall i :: 0 <= i < |r| ==> IsAtom(r[i])
    decreases p, 0
  {
    match p
    case Lit(_) | Class(_) => [p]
    case Sequence(items) => FlattenAll(items)
    case Repeat(item, times) => Copies(Flatten(item), times)
  }

  function FlattenAll(items: seq<Pattern>): (r: seq<Pattern>)
    ensures |r| == CountAll(items) && forall i :: 0 <= i < |r| ==> IsAtom(r[i])
    decreases items, 0
  {
    if items == [] then [] else Flatten(items[0]) + FlattenAll(items[1..])
  }

  function Copies(s: seq<Pattern>, times: nat): (r: seq<Pattern>)
    ensures |r| == times * |s| && forall i :: 0 <= i < |r| ==> r[i] in s
  {
    if times == 0 then [] else Copies(s, times - 1) + s
  }

  function ComponentOf(atom: Pattern): Component {
    match atom
    case Class(n) => ClassOf(n)
    case Lit(c) => Literal(c)
    case _ => Boundary
  }

  function PartsFrom(i: nat, atoms: seq<Pattern>): (r: seq<Part>)
    ensures |r| == |atoms| && forall k :: 0 <= k < |atoms| ==> r[k] == Part(P(i + k), ComponentOf(atoms[k]))
  {
    seq(|atoms|, k requires 0 <= k < |atoms| => Part(P(i + k), ComponentOf(atoms[k])))
  }

  function ReasonsFrom(i: nat, n: nat): (r: seq<DenyReason>)
    ensures |r| == n && forall k :: 0 <= k < n ==> r[k] == NoMatchAt(i + k)
  {
    seq(n, k requires 0 <= k < n => NoMatchAt(i + k))
  }

  /** Where the `k`-th of a chain of parts numbered from `i` is fed from. */
  function FeedOf(entry: End, i: nat, k: nat): End {
    if k == 0 then entry else Port(P(i + k - 1), Match)
  }

  /** A chain of `n` parts: each is fed by the one before and refuses with its own reason. */
  function WiresFrom(entry: End, i: nat, n: nat): (r: seq<Wire>)
    ensures |r| == 2 * n
    ensures forall k :: 0 <= k < n ==>
              r[2 * k] == Wire(FeedOf(entry, i, k), Port(P(i + k), Subject))
              && r[2 * k + 1] == Wire(Port(P(i + k), No), Deny(NoMatchAt(i + k)))
  {
    if n == 0 then []
    else
      WiresFrom(entry, i, n - 1)
        + [Wire(FeedOf(entry, i, n - 1), Port(P(i + n - 1), Subject)), Wire(Port(P(i + n - 1), No), Deny(NoMatchAt(i + n - 1)))]
  }

  /** What has been emitted so far. */
  datatype Emitted = Emitted(parts: seq<Part>, wires: seq<Wire>, reasons: seq<DenyReason>, next: nat)

  /** The drawing with a chain of these parts appended. */
  function Extended(d: Emitted, atoms: seq<Pattern>, entry: End): Emitted {
    Emitted(
      d.parts + PartsFrom(d.next, atoms), d.wires + WiresFrom(entry, d.next, |atoms|),
      d.reasons + ReasonsFrom(d.next, |atoms|), d.next + |atoms|)
  }

  /** The emitter: three growing lists and the next part number. */
  class Emitter {
    var parts: seq<Part>
    var wires: seq<Wire>
    var reasons: seq<DenyReason>
    var next: nat
    ghost var calls: nat

    constructor ()
      ensures parts == [] && wires == [] && reasons == [] && next == 1 && calls == 0
    {
      parts, wires, reasons, next, calls := [], [], [], 1, 0;
    }

    /** What was appended is exactly the chain of these parts, fed by `entry`. */
    twostate predicate Chained(atoms: seq<Pattern>, entry: End, exit: End)
      reads this
    {
      State() == Extended(old(State()), atoms, entry) && exit == FeedOf(entry, old(next), |atoms|)
    }

    function State(): Emitted
      reads this
    {
      Emitted(parts, wires, reasons, next)
    }

    method Emit(p: Pattern, entry: End) returns (exit: End)
      modifies this
      ensures Chained(Flatten(p), entry, exit) && calls == old(calls) + EmitSteps(p)
      decreases p, 1
    {
      calls := calls + 1;
      match p {
        case Lit(_) | Class(_) => exit := EmitAtom(p, entry);
        case Sequence(items) => exit := EmitItems(items, entry);
        case Repeat(item, times) => exit := EmitCopies(item, times, entry);
      }
    }

    method EmitAtom(p: Pattern, entry: End) returns (exit: End)
      requires IsAtom(p)
      modifies this
      ensures Chained([p], entry, exit) && calls == old(calls)
    {
      var index := next;
      next := next + 1;
      parts := parts + [Part(P(index), ComponentOf(p))];
      wires := wires + [Wire(entry, Port(P(index), Subject))];
      wires := wires + [Wire(Port(P(index), No), Deny(NoMatchAt(index)))];
      reasons := reasons + [NoMatchAt(index)];
      exit := Port(P(index), Match);
      OneLink(entry, index);
    }

    method EmitItems(items: seq<Pattern>, entry: End) returns (exit: End)
      modifies this
      ensures Chained(FlattenAll(items), entry, exit) && calls == old(calls) + StepsAll(items)
      decreases items
    {
      hide Extended, FeedOf, FlattenAll, Flatten, EmitSteps;
      exit := entry;
      NoLinks(State(), entry);
      for i := 0 to |items|
        invariant Chained(FlattenAll(items[..i]), entry, exit) && calls == old(calls) + StepsAll(items[..i])
      {
        assert items[..i + 1][..i] == items[..i];
        FlattenStep(items, i);
        Longer(old(State()), FlattenAll(items[..i]), Flatten(items[i]), entry);
        exit := Emit(items[i], exit);
      }
      assert items[..|items|] == items;
    }

    method EmitCopies(item: Pattern, times: nat, entry: End) returns (exit: End)
      modifies this
      ensures Chained(Copies(Flatten(item), times), entry, exit) && calls == old(calls) + times * EmitSteps(item)
      decreases item, 2
    {
      hide Extended, FeedOf, Flatten, EmitSteps;
      exit := entry;
      NoLinks(State(), entry);
      for i := 0 to times
        invariant Chained(Copies(Flatten(item), i), entry, exit) && calls == old(calls) + i * EmitSteps(item)
      {
        OneMore(i, EmitSteps(item));
        Longer(old(State()), Copies(Flatten(item), i), Flatten(item), entry);
        exit := Emit(item, exit);
      }
    }
  }

  lemma OneMore(i: nat, n: nat)
    ensures (i + 1) * n == i * n + n
  {
  }

  lemma NoLinks(d: Emitted, entry: End)
    ensures Extended(d, [], entry) == d && FeedOf(entry, d.next, 0) == entry && FlattenAll([]) == []
  {
  }

  lemma OneLink(entry: End, i: nat)
    ensures WiresFrom(entry, i, 1) == [Wire(entry, Port(P(i), Subject)), Wire(Port(P(i), No), Deny(NoMatchAt(i)))]
  {
    assert WiresFrom(entry, i, 0) == [];
  }

  lemma {:induction false} FlattenStep(items: seq<Pattern>, i: nat)
    requires i < |items|
    ensures FlattenAll(items[..i + 1]) == FlattenAll(items[..i]) + Flatten(items[i])
  {
    if i == 0 {
      assert items[..1] == [items[0]] && items[..1][1..] == [];
    } else {
      FlattenStep(items[1..], i - 1);
      assert items[..i + 1][1..] == items[1..][..i] && items[..i][1..] == items[1..][..i - 1];
    }
  }

  /** Two chains emitted one after the other are one longer chain. */
  lemma Longer(d: Emitted, a: seq<Pattern>, b: seq<Pattern>, entry: End)
    ensures Extended(Extended(d, a, entry), b, FeedOf(entry, d.next, |a|)) == Extended(d, a + b, entry)
    ensures Extended(d, a, entry).next == d.next + |a|
    ensures FeedOf(FeedOf(entry, d.next, |a|), d.next + |a|, |b|) == FeedOf(entry, d.next, |a + b|)
  {
    FedAlong(entry, d.next, |a|, |b|);
    MoreParts(d, a, b, entry);
    MoreWires(d, a, b, entry);
    MoreReasons(d, a, b, entry);
    hide PartsFrom, WiresFrom, ReasonsFrom, FeedOf;
  }

  lemma MoreParts(d: Emitted, a: seq<Pattern>, b: seq<Pattern>, entry: End)
    ensures d.parts + PartsFrom(d.next, a) + PartsFrom(d.next + |a|, b) == d.parts + PartsFrom(d.next, a + b)
  {
    LongerParts(d.next, a, b);
    hide PartsFrom;
    Associate(d.parts, PartsFrom(d.next, a), PartsFrom(d.next + |a|, b));
  }

  lemma MoreWires(d: Emitted, a: seq<Pattern>, b: seq<Pattern>, entry: End)
    ensures d.wires + WiresFrom(entry, d.next, |a|) + WiresFrom(FeedOf(entry, d.next, |a|), d.next + |a|, |b|)
         == d.wires + WiresFrom(entry, d.next, |a + b|)
  {
    LongerWires(entry, d.next, |a|, |b|);
    hide WiresFrom;
    Associate(d.wires, WiresFrom(entry, d.next, |a|), WiresFrom(FeedOf(entry, d.next, |a|), d.next + |a|, |b|));
  }

  lemma MoreReasons(d: Emitted, a: seq<Pattern>, b: seq<Pattern>, entry: End)
    ensures d.reasons + ReasonsFrom(d.next, |a|) + ReasonsFrom(d.next + |a|, |b|) == d.reasons + ReasonsFrom(d.next, |a + b|)
  {
    LongerParts(d.next, a, b);
    hide ReasonsFrom;
    Associate(d.reasons, ReasonsFrom(d.next, |a|), ReasonsFrom(d.next + |a|, |b|));
  }

  lemma Associate<T>(a: seq<T>, b: seq<T>, c: seq<T>)
    ensures a + b + c == a + (b + c)
  {
  }

  lemma FedAlong(entry: End, i: nat, m: nat, n: nat)
    ensures FeedOf(FeedOf(entry, i, m), i + m, n) == FeedOf(entry, i, m + n)
  {
  }

  lemma LongerParts(i: nat, a: seq<Pattern>, b: seq<Pattern>)
    ensures PartsFrom(i, a + b) == PartsFrom(i, a) + PartsFrom(i + |a|, b)
    ensures ReasonsFrom(i, |a + b|) == ReasonsFrom(i, |a|) + ReasonsFrom(i + |a|, |b|)
  {
  }

  lemma {:induction false} LongerWires(entry: End, i: nat, m: nat, n: nat)
    ensures WiresFrom(entry, i, m + n) == WiresFrom(entry, i, m) + WiresFrom(FeedOf(entry, i, m), i + m, n)
  {
    if n > 0 {
      LongerWires(entry, i, m, n - 1);
    }
  }
}
