/** Bounded patterns: the admitted syntax and its recursive-descent parser. */
module Pattern {
  import opened Ast

  datatype Pattern =
    | Lit(ch: char)
    | Class(name: ClassName)
    | Sequence(items: seq<Pattern>)
    | Repeat(item: Pattern, times: nat)

  datatype ClassName = Digit | Word | Space | AnyButNewline

  /** Why a pattern has no drawing. */
  datatype Reason =
    | Alternation | SpecialGroup | TooDeep | UnclosedGroup | UnopenedGroup | BracketClass | InteriorAnchor
    | NothingToRepeat | TrailingEscape | Backreference | WordBoundary | UnknownEscape
    | OptionalRepeat | UnboundedRepeat | MalformedRepeat | OpenRange | LazySuffix | ZeroRepeat
    | BadName | LongName | EmptyPattern | NonAscii | Unconsumed | TooManyParts | TooManyWires | DrawsNothing

  datatype Parsed = Parsed(node: Pattern, at: nat) | Refused(reason: Reason)

  const MAX_GROUP_DEPTH := 6

  function CharAt(text: string, at: nat): Option<char> {
    if at < |text| then Some(text[at]) else None
  }

  predicate IsDigit(c: char) { '0' <= c <= '9' }

  function ClassEscape(c: char): Option<ClassName> {
    if c == 'd' then Some(Digit) else if c == 'w' then Some(Word) else if c == 's' then Some(Space) else None
  }

  /** Characters an escape stands for. */
  function LiteralEscape(c: char): Option<char> {
    if c in {'\\', '.', '+', '*', '?', '(', ')', '[', ']', '{', '}', '|', '^', '$', '/', '-'} then Some(c)
    else if c == 'n' then Some('\n') else if c == 't' then Some('\t') else if c == 'r' then Some('\r')
    else None
  }

  function ParseAlternation(text: string, at: nat, depth: nat): (r: Parsed)
    requires at <= |text|
    ensures r.Parsed? ==> at <= r.at <= |text|
    decreases |text| - at, 3
  {
    var first := ParseSequence(text, at, depth, []);
    if first.Parsed? && CharAt(text, first.at) == Some('|') then Refused(Alternation) else first
  }

  /** Items up to the end, a `|` or a `)`; a single item stands for itself. */
  function ParseSequence(text: string, at: nat, depth: nat, items: seq<Pattern>): (r: Parsed)
    requires at <= |text|
    ensures r.Parsed? ==> at <= r.at <= |text|
    decreases |text| - at, 2
  {
    if at == |text| || text[at] == '|' || text[at] == ')' then
      Parsed(if |items| == 1 then items[0] else Sequence(items), at)
    else
      match ParseItem(text, at, depth)
      case Refused(reason) => Refused(reason)
      case Parsed(item, next) => ParseSequence(text, next, depth, items + [item])
  }

  function ParseItem(text: string, at: nat, depth: nat): (r: Parsed)
    requires at < |text|
    ensures r.Parsed? ==> at < r.at <= |text|
    decreases |text| - at, 1
  {
    match ParseAtom(text, at, depth)
    case Refused(reason) => Refused(reason)
    case Parsed(atom, next) => ParseQuantifier(text, next, atom)
  }

  function ParseAtom(text: string, at: nat, depth: nat): (r: Parsed)
    requires at < |text|
    ensures r.Parsed? ==> at < r.at <= |text|
    decreases |text| - at, 0
  {
    var ch := text[at];
    if ch == '(' then
      if CharAt(text, at + 1) == Some('?') then Refused(SpecialGroup)
      else if depth >= MAX_GROUP_DEPTH then Refused(TooDeep)
      else
        (match ParseAlternation(text, at + 1, depth + 1)
         case Refused(reason) => Refused(reason)
         case Parsed(inner, next) =>
           if CharAt(text, next) == Some(')') then Parsed(inner, next + 1) else Refused(UnclosedGroup))
    else if ch == ')' then Refused(UnopenedGroup)
    else if ch == '[' then Refused(BracketClass)
    else if ch == '^' || ch == '$' then
      if (at == 0 && ch == '^') || (at == |text| - 1 && ch == '$') then Parsed(Sequence([]), at + 1)
      else Refused(InteriorAnchor)
    else if ch == '*' || ch == '+' || ch == '?' || ch == '{' then Refused(NothingToRepeat)
    else if ch == '\\' then ParseEscape(text, at)
    else if ch == '.' then Parsed(Class(AnyButNewline), at + 1)
    else Parsed(Lit(ch), at + 1)
  }

  function ParseEscape(text: string, at: nat): (r: Parsed)
    requires at < |text|
    ensures r.Parsed? ==> at < r.at <= |text|
  {
    match CharAt(text, at + 1)
    case None => Refused(TrailingEscape)
    case Some(c) =>
      if '1' <= c <= '9' then Refused(Backreference)
      else if c == 'b' || c == 'B' then Refused(WordBoundary)
      else if ClassEscape(c).Some? then Parsed(Class(ClassEscape(c).value), at + 2)
      else if LiteralEscape(c).Some? then Parsed(Lit(LiteralEscape(c).value), at + 2)
      else Refused(UnknownEscape)
  }

  /** End of the digits starting at `at`. */
  function DigitsEnd(text: string, at: nat): (r: nat)
    requires at <= |text|
    ensures at <= r <= |text| && (r < |text| ==> !IsDigit(text[r]))
    ensures forall i :: at <= i < r ==> IsDigit(text[i])
    decreases |text| - at
  {
    if at < |text| && IsDigit(text[at]) then DigitsEnd(text, at + 1) else at
  }

  function Number(digits: string): nat {
    if digits == "" || !IsDigit(digits[|digits| - 1]) then 0
    else Number(digits[..|digits| - 1]) * 10 + (digits[|digits| - 1] as int - '0' as int)
  }

  /** `{n}`, `{n,n}`; everything else after an atom refuses. */
  function ParseQuantifier(text: string, at: nat, atom: Pattern): (r: Parsed)
    requires at <= |text|
    ensures r.Parsed? ==> at <= r.at <= |text|
  {
    match CharAt(text, at)
    case Some('?') => Refused(OptionalRepeat)
    case Some('*') => Refused(UnboundedRepeat)
    case Some('+') => Refused(UnboundedRepeat)
    case Some('{') =>
      var e1 := DigitsEnd(text, at + 1);
      if e1 == at + 1 then Refused(MalformedRepeat)
      else
        var min := Number(text[at + 1..e1]);
        if CharAt(text, e1) == Some('}') then Repetition(text, e1 + 1, atom, min, min)
        else if CharAt(text, e1) == Some(',') then
          var e2 := DigitsEnd(text, e1 + 1);
          if CharAt(text, e2) != Some('}') then Refused(MalformedRepeat)
          else if e2 == e1 + 1 then Refused(OpenRange)
          else Repetition(text, e2 + 1, atom, min, Number(text[e1 + 1..e2]))
        else Refused(MalformedRepeat)
    case _ => Parsed(atom, at)
  }

  function Repetition(text: string, at: nat, atom: Pattern, min: nat, max: nat): (r: Parsed)
    requires at <= |text|
    ensures r.Parsed? ==> r.at == at
  {
    if max != min then Refused(OptionalRepeat)
    else if CharAt(text, at) in {Some('?'), Some('+')} then Refused(LazySuffix)
    else if max == 0 then Refused(ZeroRepeat)
    else Parsed(Repeat(atom, min), at)
  }

  // ----- What a quantifier may be -----

  /** No quantifier starts at `at`. */
  predicate Plain(text: string, at: nat) {
    CharAt(text, at) !in {Some('?'), Some('*'), Some('+'), Some('{')}
  }

  /** A number `n` is written in decimal digits from `at` up to `end`. */
  predicate NumberText(text: string, at: nat, end: nat, n: nat) {
    at < end <= |text| && Number(text[at..end]) == n && forall i :: at <= i < end ==> IsDigit(text[i])
  }

  /** The same number is written twice, around a comma, between braces at `at` and just before `next`. */
  predicate TwoNumbers(text: string, at: nat, comma: nat, next: nat, n: nat) {
    next > 0 && NumberText(text, at + 1, comma, n) && CharAt(text, comma) == Some(',') && NumberText(text, comma + 1, next - 1, n)
  }

  /** `{n}` or `{n,n}` is written from `at` up to `next`; the two numbers may have different leading zeros. */
  ghost predicate CountText(text: string, at: nat, next: nat, n: nat) {
    && CharAt(text, at) == Some('{') && 0 < next && CharAt(text, next - 1) == Some('}')
    && (NumberText(text, at + 1, next - 1, n) || exists comma: nat :: TwoNumbers(text, at, comma, next, n))
  }

  /** What an atom followed by a quantifier means: itself, or exactly so many copies. */
  ghost predicate Quantified(text: string, at: nat, next: nat, atom: Pattern, p: Pattern) {
    || (Plain(text, at) && next == at && p == atom)
    || (p.Repeat? && p.item == atom && p.times > 0 && CountText(text, at, next, p.times)
        && CharAt(text, next) !in {Some('?'), Some('+')})
  }

  lemma {:induction false} DigitsEndHere(text: string, at: nat, end: nat)
    requires at <= end <= |text| && (forall i :: at <= i < end ==> IsDigit(text[i])) && (end < |text| ==> !IsDigit(text[end]))
    ensures DigitsEnd(text, at) == end
    decreases end - at
  {
    if at < end { DigitsEndHere(text, at + 1, end); }
  }

  /** A quantifier is accepted exactly when it is absent or an exact positive count without a suffix; the answer and
      the place after it are then determined by that text. */
  lemma QuantifierIff(text: string, at: nat, atom: Pattern, next: nat, p: Pattern)
    requires at <= |text|
    ensures ParseQuantifier(text, at, atom) == Parsed(p, next) <==> Quantified(text, at, next, atom, p)
  {
    hide Number, DigitsEnd;
    if ParseQuantifier(text, at, atom) == Parsed(p, next) {
      AcceptedQuantifier(text, at, atom);
    } else if Quantified(text, at, next, atom, p) && !Plain(text, at) {
      CountAccepted(text, at, next, atom, p.times);
    }
  }

  lemma AcceptedQuantifier(text: string, at: nat, atom: Pattern)
    requires at <= |text| && ParseQuantifier(text, at, atom).Parsed?
    ensures var r := ParseQuantifier(text, at, atom); Quantified(text, at, r.at, atom, r.node)
  {
    hide Number, DigitsEnd;
    if !Plain(text, at) {
      var comma := DigitsEnd(text, at + 1);
      assert NumberText(text, at + 1, comma, Number(text[at + 1..comma]));
      if CharAt(text, comma) == Some(',') {
        var end := DigitsEnd(text, comma + 1);
        assert TwoNumbers(text, at, comma, end + 1, Number(text[at + 1..comma]));
      }
    }
  }

  lemma CountAccepted(text: string, at: nat, next: nat, atom: Pattern, n: nat)
    requires at <= |text| && n > 0 && CountText(text, at, next, n) && CharAt(text, next) !in {Some('?'), Some('+')}
    ensures ParseQuantifier(text, at, atom) == Parsed(Repeat(atom, n), next)
  {
    hide Number, DigitsEnd;
    if NumberText(text, at + 1, next - 1, n) {
      DigitsEndHere(text, at + 1, next - 1);
    } else {
      var comma: nat :| TwoNumbers(text, at, comma, next, n);
      DigitsEndHere(text, at + 1, comma);
      DigitsEndHere(text, comma + 1, next - 1);
    }
  }

  /** The parser object: a cursor and a nesting depth, advanced in place. */
  class PatternParser {
    const text: string
    var at: nat
    var depth: nat

    constructor (text: string)
      ensures this.text == text && at == 0 && depth == 0
    {
      this.text, at, depth := text, 0, 0;
    }

    /** The method's answer and the cursor it leaves are the grammar function's. */
    ghost predicate Follows(r: Parsed, spec: Parsed)
      reads this
    {
      r == spec && (r.Parsed? ==> at == r.at)
    }

    method TakeAlternation() returns (r: Parsed)
      requires at <= |text|
      modifies this
      ensures Follows(r, ParseAlternation(text, old(at), old(depth)))
      ensures r.Parsed? ==> depth == old(depth)
      decreases |text| - at, 3
    {
      r := TakeSequence();
      if r.Parsed? && CharAt(text, at) == Some('|') {
        return Refused(Alternation);
      }
    }

    method TakeSequence() returns (r: Parsed)
      requires at <= |text|
      modifies this
      ensures Follows(r, ParseSequence(text, old(at), old(depth), []))
      ensures r.Parsed? ==> depth == old(depth)
      decreases |text| - at, 2
    {
      var items: seq<Pattern> := [];
      while at < |text| && text[at] != '|' && text[at] != ')'
        invariant old(at) <= at <= |text| && depth == old(depth)
        invariant ParseSequence(text, at, depth, items) == ParseSequence(text, old(at), old(depth), [])
        decreases |text| - at
      {
        var atom := TakeAtom();
        if atom.Refused? {
          return atom;
        }
        var item := TakeQuantifier(atom.node);
        if item.Refused? {
          return item;
        }
        items := items + [item.node];
      }
      return Parsed(if |items| == 1 then items[0] else Sequence(items), at);
    }

    method TakeAtom() returns (r: Parsed)
      requires at < |text|
      modifies this
      ensures Follows(r, ParseAtom(text, old(at), old(depth)))
      ensures r.Parsed? ==> depth == old(depth)
      decreases |text| - at, 0
    {
      if text[at] == '(' {
        if CharAt(text, at + 1) == Some('?') {
          return Refused(SpecialGroup);
        }
        if depth >= MAX_GROUP_DEPTH {
          return Refused(TooDeep);
        }
        at, depth := at + 1, depth + 1;
        var inner := TakeAlternation();
        if inner.Refused? {
          return inner;
        }
        depth := depth - 1;
        if CharAt(text, at) != Some(')') {
          return Refused(UnclosedGroup);
        }
        at := at + 1;
        return Parsed(inner.node, at);
      }
      var ch := text[at];
      if ch == ')' {
        return Refused(UnopenedGroup);
      }
      if ch == '[' {
        return Refused(BracketClass);
      }
      if ch == '^' || ch == '$' {
        if (at == 0 && ch == '^') || (at == |text| - 1 && ch == '$') {
          at := at + 1;
          return Parsed(Sequence([]), at);
        }
        return Refused(InteriorAnchor);
      }
      if ch == '*' || ch == '+' || ch == '?' || ch == '{' {
        return Refused(NothingToRepeat);
      }
      if ch == '\\' {
        r := TakeEscape();
        return;
      }
      at := at + 1;
      r := Parsed(if ch == '.' then Class(AnyButNewline) else Lit(ch), at);
    }

    method TakeEscape() returns (r: Parsed)
      requires at < |text|
      modifies this`at
      ensures Follows(r, ParseEscape(text, old(at)))
    {
      if at + 1 == |text| {
        return Refused(TrailingEscape);
      }
      var next := text[at + 1];
      if '1' <= next <= '9' {
        return Refused(Backreference);
      }
      if next == 'b' || next == 'B' {
        return Refused(WordBoundary);
      }
      var name, literal := ClassEscape(next), LiteralEscape(next);
      if name.None? && literal.None? {
        return Refused(UnknownEscape);
      }
      at := at + 2;
      r := Parsed(if name.Some? then Class(name.value) else Lit(literal.value), at);
    }

    /** End of the digits starting at `from`. */
    method SkipDigits(from: nat) returns (end: nat)
      requires from <= |text|
      ensures end == DigitsEnd(text, from)
    {
      end := from;
      while end < |text| && IsDigit(text[end])
        invariant from <= end <= |text| && DigitsEnd(text, end) == DigitsEnd(text, from)
      {
        end := end + 1;
      }
    }

    method TakeQuantifier(atom: Pattern) returns (r: Parsed)
      requires at <= |text|
      modifies this`at
      ensures Follows(r, ParseQuantifier(text, old(at), atom))
      ensures r.Parsed? ==> Quantified(text, old(at), at, atom, r.node)
      ensures r.Refused? ==> forall next, p :: !Quantified(text, old(at), next, atom, p)
    {
      hide Number, DigitsEnd, Quantified;
      forall next, p
        ensures Quantified(text, old(at), next, atom, p) <==> ParseQuantifier(text, old(at), atom) == Parsed(p, next)
      {
        QuantifierIff(text, old(at), atom, next, p);
      }
      var ch := CharAt(text, at);
      if ch == Some('?') {
        return Refused(OptionalRepeat);
      }
      if ch == Some('*') || ch == Some('+') {
        return Refused(UnboundedRepeat);
      }
      if ch != Some('{') {
        return Parsed(atom, at);
      }
      var end := SkipDigits(at + 1);
      if end == at + 1 {
        return Refused(MalformedRepeat);
      }
      var min := Number(text[at + 1..end]);
      if CharAt(text, end) == Some(',') {
        var second := end + 1;
        end := SkipDigits(second);
        if CharAt(text, end) != Some('}') {
          return Refused(MalformedRepeat);
        }
        if end == second {
          return Refused(OpenRange);
        }
        if Number(text[second..end]) != min {
          return Refused(OptionalRepeat);
        }
      } else if CharAt(text, end) != Some('}') {
        return Refused(MalformedRepeat);
      }
      at := end + 1;
      if CharAt(text, at) == Some('?') || CharAt(text, at) == Some('+') {
        return Refused(LazySuffix);
      }
      if min == 0 {
        return Refused(ZeroRepeat);
      }
      return Parsed(Repeat(atom, min), at);
    }
  }
}
