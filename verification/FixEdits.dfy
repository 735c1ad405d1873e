/** Applying machine fixes: single-line span replacements, applied in place from the end of the source
    and fail-safe, and when that equals replacing all spans at once. */
module FixEdits {
  import opened Ast

  datatype FixEdit = FixEdit(line: int, column: int, endColumn: int, replacement: string)

  // ----- Lines and their terminators -----

  datatype Lines = Lines(text: seq<string>, seps: seq<string>)

  /** Lines and the exact terminators between them. */
  function SplitLines(source: string): (r: Lines)
    ensures |r.text| == |r.seps| + 1
  {
    if source == "" then Lines([""], [])
    else if source[0] == '\n' then
      var rest := SplitLines(source[1..]);
      Lines([""] + rest.text, ["\n"] + rest.seps)
    else if |source| > 1 && source[0] == '\r' && source[1] == '\n' then
      var rest := SplitLines(source[2..]);
      Lines([""] + rest.text, ["\r\n"] + rest.seps)
    else
      var rest := SplitLines(source[1..]);
      Lines([[source[0]] + rest.text[0]] + rest.text[1..], rest.seps)
  }

  /** The first `n` lines with the terminators after them. */
  function Rejoin(text: seq<string>, seps: seq<string>, n: nat): string
    requires n <= |text|
  {
    if n == 0 then "" else Rejoin(text, seps, n - 1) + text[n - 1] + if n - 1 < |seps| then seps[n - 1] else ""
  }

  // ----- Admission -----

  predicate Overlaps(a: FixEdit, b: FixEdit) {
    a.line == b.line && a.column < b.endColumn && b.column < a.endColumn
  }

  /** Column `c` lies inside the span. */
  predicate Covers(e: FixEdit, c: int) { e.column <= c < e.endColumn }

  /** The spans overlap exactly when they share a column, or one of them is empty and lies strictly inside the other;
      spans that only touch do not. */
  lemma OverlapsIff(a: FixEdit, b: FixEdit)
    requires a.column <= a.endColumn && b.column <= b.endColumn
    ensures Overlaps(a, b)
       <==> a.line == b.line
            && (|| (exists c :: Covers(a, c) && Covers(b, c))
                || (a.column == a.endColumn && b.column < a.column < b.endColumn)
                || (b.column == b.endColumn && a.column < b.column < a.endColumn))
  {
    if Overlaps(a, b) && a.column < a.endColumn && b.column < b.endColumn {
      var c := if a.column < b.column then b.column else a.column;
      assert Covers(a, c) && Covers(b, c);
    }
  }

  predicate InRange(text: seq<string>, e: FixEdit) {
    1 <= e.line <= |text| && 1 <= e.column <= e.endColumn && e.endColumn - 1 <= |text[e.line - 1]|
  }

  /** `a` is applied before `b`: later positions first. */
  predicate Precedes(a: FixEdit, b: FixEdit) {
    a.line > b.line || (a.line == b.line && a.column > b.column)
  }

  /** Puts `e` after every edit it does not precede, so equal positions keep their order. */
  function Insert(e: FixEdit, sorted: seq<FixEdit>): (r: seq<FixEdit>)
    ensures |r| == |sorted| + 1
  {
    if sorted == [] || Precedes(e, sorted[0]) then [e] + sorted else [sorted[0]] + Insert(e, sorted[1..])
  }

  /** The stable descending order of the edits. */
  function Sorted(edits: seq<FixEdit>): (r: seq<FixEdit>)
    ensures |r| == |edits|
  {
    if edits == [] then [] else Insert(edits[|edits| - 1], Sorted(edits[..|edits| - 1]))
  }

  predicate Clashes(kept: seq<FixEdit>, e: FixEdit) {
    exists i :: 0 <= i < |kept| && Overlaps(kept[i], e)
  }

  /** The edits kept among the first `n`: in range, and overlapping none kept before. */
  function Kept(text: seq<string>, sorted: seq<FixEdit>, n: nat): (r: seq<FixEdit>)
    requires n <= |sorted|
    ensures |r| <= n
  {
    if n == 0 then []
    else
      var before := Kept(text, sorted, n - 1);
      var e := sorted[n - 1];
      if InRange(text, e) && !Clashes(before, e) then before + [e] else before
  }

  // ----- Application -----

  /** The edit's span, clipped to the line as it now is: the language's slices never fail. */
  function ReplaceClipped(line: string, e: FixEdit): string
    requires 1 <= e.column <= e.endColumn
  {
    var from := if e.column - 1 <= |line| then e.column - 1 else |line|;
    var to := if e.endColumn - 1 <= |line| then e.endColumn - 1 else |line|;
    line[..from] + e.replacement + line[to..]
  }

  /** The first `n` kept edits applied one after another. */
  function Applied(text: seq<string>, kept: seq<FixEdit>, n: nat): (r: seq<string>)
    requires n <= |kept| && forall i :: 0 <= i < |kept| ==> InRange(text, kept[i])
    ensures |r| == |text|
  {
    if n == 0 then text
    else
      var before := Applied(text, kept, n - 1);
      var e := kept[n - 1];
      before[e.line - 1 := ReplaceClipped(before[e.line - 1], e)]
  }

  lemma {:induction false} KeptAreInRange(text: seq<string>, sorted: seq<FixEdit>, n: nat)
    requires n <= |sorted|
    ensures forall e :: e in Kept(text, sorted, n) ==> InRange(text, e) && e in sorted
  {
    if n > 0 { KeptAreInRange(text, sorted, n - 1); }
  }

  datatype FixResult = FixResult(result: string, applied: nat, skipped: nat)

  ghost function FixedText(source: string, edits: seq<FixEdit>): seq<string> {
    var lines := SplitLines(source).text;
    var sorted := Sorted(edits);
    var kept := Kept(lines, sorted, |sorted|);
    KeptAreInRange(lines, sorted, |sorted|);
    Applied(lines, kept, |kept|)
  }

  ghost function KeptEdits(source: string, edits: seq<FixEdit>): seq<FixEdit> {
    Kept(SplitLines(source).text, Sorted(edits), |edits|)
  }

  method ApplyFixEdits(source: string, edits: seq<FixEdit>) returns (r: FixResult)
    ensures |FixedText(source, edits)| == |SplitLines(source).text|
    ensures edits == [] ==> r == FixResult(source, 0, 0)
    ensures edits != [] ==> r.result == Rejoin(FixedText(source, edits), SplitLines(source).seps, |FixedText(source, edits)|)
    ensures r.applied == |KeptEdits(source, edits)| && r.applied + r.skipped == |edits|
  {
    hide SplitLines, Sorted, InRange, Clashes;
    if edits == [] { return FixResult(source, 0, 0); }
    var split := SplitLines(source);
    var valid, skipped := Admit(split.text, Sorted(edits));
    var lineText := ApplyInOrder(split.text, valid);
    var out := "";
    for i := 0 to |lineText|
      invariant out == Rejoin(lineText, split.seps, i)
    {
      out := out + lineText[i];
      if i < |split.seps| { out := out + split.seps[i]; }
    }
    r := FixResult(out, |valid|, skipped);
  }

  method Admit(text: seq<string>, sorted: seq<FixEdit>) returns (valid: seq<FixEdit>, skipped: nat)
    ensures valid == Kept(text, sorted, |sorted|) && |valid| + skipped == |sorted|
    ensures forall i :: 0 <= i < |valid| ==> InRange(text, valid[i])
  {
    hide InRange, Overlaps;
    valid, skipped := [], 0;
    for i := 0 to |sorted|
      invariant valid == Kept(text, sorted, i) && |valid| + skipped == i
    {
      var e := sorted[i];
      if !InRange(text, e) { skipped := skipped + 1; continue; }
      if Clashes(valid, e) { skipped := skipped + 1; continue; }
      valid := valid + [e];
    }
    KeptAreInRange(text, sorted, |sorted|);
  }

  method ApplyInOrder(text: seq<string>, valid: seq<FixEdit>) returns (lineText: seq<string>)
    requires forall i :: 0 <= i < |valid| ==> InRange(text, valid[i])
    ensures lineText == Applied(text, valid, |valid|)
  {
    lineText := text;
    for i := 0 to |valid|
      invariant lineText == Applied(text, valid, i)
    {
      var li := valid[i].line - 1;
      lineText := lineText[li := ReplaceClipped(lineText[li], valid[i])];
    }
  }

  // ----- Automatic fixes -----

  datatype AutoFix = AutoFix(fixedSource: string, applied: nat, skipped: nat, accepted: bool)

  /** A fix is taken exactly when some edit was applied and checking the fixed source again reports no more errors; a
      check that fails rejects it. */
  method ComputeAutoFix(source: string, edits: seq<FixEdit>, errors: nat, recheck: string -> Option<nat>)
    returns (r: AutoFix)
    ensures var fixed := Rejoin(FixedText(source, edits), SplitLines(source).seps, |FixedText(source, edits)|);
      && (r.accepted <==> r.applied > 0 && recheck(fixed).Some? && recheck(fixed).value <= errors)
      && r.fixedSource == if r.accepted then fixed else source
    ensures r.applied == |KeptEdits(source, edits)| && r.applied + r.skipped == |edits|
  {
    hide SplitLines, Sorted, Kept, Rejoin;
    if edits == [] {
      var none := ApplyFixEdits(source, edits);
      return AutoFix(source, 0, 0, false);
    }
    var fixed := ApplyFixEdits(source, edits);
    if fixed.applied == 0 { return AutoFix(source, 0, fixed.skipped, false); }
    var found := recheck(fixed.result);
    var accepted := found.Some? && found.value <= errors;
    r := AutoFix(if accepted then fixed.result else source, fixed.applied, fixed.skipped, accepted);
  }

  // ----- Lines rejoin to the source -----

  lemma {:induction false} RejoinLine(line: string, sep: string, text: seq<string>, seps: seq<string>, n: nat)
    requires n <= |text| && |text| == |seps| + 1
    ensures Rejoin([line] + text, [sep] + seps, n + 1) == line + sep + Rejoin(text, seps, n)
  {
    var longer, more := [line] + text, [sep] + seps;
    if n == 0 {
      assert Rejoin(longer, more, 0) == "";
    } else {
      RejoinLine(line, sep, text, seps, n - 1);
      hide Rejoin;
      RejoinNext(longer, more, n);
      RejoinNext(text, seps, n - 1);
      assert longer[n] == text[n - 1] && (n < |more| ==> more[n] == seps[n - 1]);
      Reassociate(line + sep, Rejoin(text, seps, n - 1), text[n - 1], if n - 1 < |seps| then seps[n - 1] else "");
    }
  }

  lemma Reassociate(a: string, b: string, c: string, d: string)
    ensures a + b + c + d == a + (b + c + d)
  {
  }

  lemma RejoinNext(text: seq<string>, seps: seq<string>, n: nat)
    requires n < |text|
    ensures Rejoin(text, seps, n + 1) == Rejoin(text, seps, n) + text[n] + if n < |seps| then seps[n] else ""
  {
  }

  lemma {:induction false} RejoinChar(c: char, text: seq<string>, seps: seq<string>, n: nat)
    requires 1 <= n <= |text|
    ensures Rejoin([[c] + text[0]] + text[1..], seps, n) == [c] + Rejoin(text, seps, n)
  {
    var longer := [[c] + text[0]] + text[1..];
    if n == 1 {
      assert Rejoin(longer, seps, 0) == "" && Rejoin(text, seps, 0) == "";
    } else {
      RejoinChar(c, text, seps, n - 1);
      assert longer[n - 1] == text[n - 1];
    }
  }

  /** Splitting loses nothing: the lines and their terminators give the source back. */
  lemma {:induction false} RejoinInvertsSplit(source: string)
    ensures var s := SplitLines(source); Rejoin(s.text, s.seps, |s.text|) == source
  {
    hide Rejoin;
    var s := SplitLines(source);
    if source == "" {
      RejoinEmpty();
    } else if source[0] == '\n' || (|source| > 1 && source[0] == '\r' && source[1] == '\n') {
      var k := if source[0] == '\n' then 1 else 2;
      var rest := SplitLines(source[k..]);
      RejoinInvertsSplit(source[k..]);
      RejoinLine("", source[..k], rest.text, rest.seps, |rest.text|);
      assert source[..k] == (if k == 1 then "\n" else "\r\n") && source == source[..k] + source[k..];
    } else {
      RejoinInvertsSplit(source[1..]);
      var rest := SplitLines(source[1..]);
      RejoinChar(source[0], rest.text, rest.seps, |rest.text|);
    }
  }

  /** No line holds a line feed, and a line before a bare line feed does not end in a carriage return. */
  predicate WholeLines(s: Lines)
    requires |s.text| == |s.seps| + 1
  {
    && (forall i :: 0 <= i < |s.text| ==> '\n' !in s.text[i])
    && forall i :: 0 <= i < |s.seps| ==> s.seps[i] == "\r\n" || (s.seps[i] == "\n" && !EndsInReturn(s.text[i]))
  }

  predicate EndsInReturn(line: string) { line != "" && line[|line| - 1] == '\r' }

  lemma OneMoreLine(sep: string, rest: Lines)
    requires |rest.text| == |rest.seps| + 1 && WholeLines(rest) && sep in {"\n", "\r\n"}
    ensures WholeLines(Lines([""] + rest.text, [sep] + rest.seps))
  {
  }

  lemma OneMoreChar(c: char, rest: Lines)
    requires |rest.text| == |rest.seps| + 1 && WholeLines(rest) && c != '\n'
    requires c == '\r' && rest.seps != [] && rest.seps[0] == "\n" ==> rest.text[0] != ""
    ensures WholeLines(Lines([[c] + rest.text[0]] + rest.text[1..], rest.seps))
  {
    var text := [[c] + rest.text[0]] + rest.text[1..];
    assert text[0] == [c] + rest.text[0] && forall i :: 1 <= i < |text| ==> text[i] == rest.text[i];
    assert rest.text[0] != "" ==> text[0][|text[0]| - 1] == rest.text[0][|rest.text[0]| - 1];
  }

  /** A line ends at every line feed, together with the carriage return before it if there is one, and nowhere else. */
  lemma {:induction false} LinesAreWhole(source: string)
    ensures WholeLines(SplitLines(source))
  {
    hide WholeLines;
    if source == "" {
      NothingIsWhole();
    } else if source[0] == '\n' {
      LinesAreWhole(source[1..]);
      OneMoreLine("\n", SplitLines(source[1..]));
    } else if |source| > 1 && source[0] == '\r' && source[1] == '\n' {
      LinesAreWhole(source[2..]);
      OneMoreLine("\r\n", SplitLines(source[2..]));
    } else {
      LinesAreWhole(source[1..]);
      if SplitLines(source[1..]).seps != [] { EmptyFirstLine(source[1..]); }
      OneMoreChar(source[0], SplitLines(source[1..]));
    }
  }

  lemma NothingIsWhole()
    ensures WholeLines(SplitLines(""))
  {
  }

  lemma EmptyFirstLine(source: string)
    requires SplitLines(source).seps != []
    ensures SplitLines(source).text[0] == "" && SplitLines(source).seps[0] == "\n" ==> source != "" && source[0] == '\n'
  {
    assert |"\n"| == 1 && |"\r\n"| == 2;
    if source != "" && source[0] != '\n' && !(|source| > 1 && source[0] == '\r' && source[1] == '\n') {
      assert SplitLines(source).text[0] == [source[0]] + SplitLines(source[1..]).text[0];
    }
  }

  lemma RejoinEmpty()
    ensures Rejoin([""], [], 1) == ""
  {
    assert Rejoin([""], [], 0) == "";
  }

  // ----- The order of application -----

  predicate Ordered(es: seq<FixEdit>) {
    forall i, j :: 0 <= i < j < |es| ==> !Precedes(es[j], es[i])
  }

  predicate Disjoint(es: seq<FixEdit>) {
    forall i, j :: 0 <= i < j < |es| ==> !Overlaps(es[i], es[j])
  }

  lemma {:induction false} InsertSorts(e: FixEdit, sorted: seq<FixEdit>)
    requires Ordered(sorted)
    ensures Ordered(Insert(e, sorted)) && multiset(Insert(e, sorted)) == multiset(sorted) + multiset{e}
  {
    if sorted == [] {
    } else if Precedes(e, sorted[0]) {
      assert forall i :: 0 <= i < |sorted| ==> !Precedes(sorted[i], e);
    } else {
      InsertSorts(e, sorted[1..]);
      assert sorted == [sorted[0]] + sorted[1..];
      var rest := Insert(e, sorted[1..]);
      forall j | 0 <= j < |rest| ensures !Precedes(rest[j], sorted[0]) {
        assert rest[j] in multiset(rest);
        assert rest[j] == e || rest[j] in sorted[1..];
      }
    }
  }

  /** The edits in descending order of position, none lost. */
  lemma {:induction false} SortedIsOrdered(edits: seq<FixEdit>)
    ensures Ordered(Sorted(edits)) && multiset(Sorted(edits)) == multiset(edits)
  {
    hide Insert, Ordered;
    if edits == [] {
      assert Sorted(edits) == [];
      EmptyIsOrdered();
    } else {
      var n := |edits| - 1;
      SortedIsOrdered(edits[..n]);
      InsertSorts(edits[n], Sorted(edits[..n]));
      assert edits == edits[..n] + [edits[n]];
    }
  }

  lemma EmptyIsOrdered()
    ensures Ordered([])
  {
  }

  /** The edits of one position, in their order. */
  function AtPosition(es: seq<FixEdit>, line: int, column: int): seq<FixEdit> {
    if es == [] then [] else (if es[0].line == line && es[0].column == column then [es[0]] else []) + AtPosition(es[1..], line, column)
  }

  lemma {:induction false} NoneAt(es: seq<FixEdit>, line: int, column: int)
    requires forall i :: 0 <= i < |es| ==> es[i].line != line || es[i].column != column
    ensures AtPosition(es, line, column) == []
  {
    if es != [] { NoneAt(es[1..], line, column); }
  }

  lemma {:induction false} InsertAt(e: FixEdit, sorted: seq<FixEdit>, line: int, column: int)
    requires Ordered(sorted)
    ensures AtPosition(Insert(e, sorted), line, column)
         == AtPosition(sorted, line, column) + if e.line == line && e.column == column then [e] else []
  {
    if sorted == [] {
      assert Insert(e, []) == [e] && [e][1..] == [];
    } else if Precedes(e, sorted[0]) {
      if e.line == line && e.column == column {
        AllLater(e, sorted);
        NoneAt(sorted, line, column);
      }
      hide Ordered;
      FirstAt(e, sorted, line, column);
    } else {
      assert Ordered(sorted[1..]) by { assert forall i :: 0 <= i < |sorted| - 1 ==> sorted[1..][i] == sorted[i + 1]; }
      hide Ordered;
      InsertAt(e, sorted[1..], line, column);
      FirstAt(sorted[0], Insert(e, sorted[1..]), line, column);
    }
  }

  lemma AllLater(e: FixEdit, sorted: seq<FixEdit>)
    requires sorted != [] && Ordered(sorted) && Precedes(e, sorted[0])
    ensures forall i :: 0 <= i < |sorted| ==> sorted[i].line != e.line || sorted[i].column != e.column
  {
    forall i | 0 <= i < |sorted| ensures sorted[i].line != e.line || sorted[i].column != e.column {
      if i > 0 { assert !Precedes(sorted[i], sorted[0]); }
    }
  }

  lemma FirstAt(first: FixEdit, rest: seq<FixEdit>, line: int, column: int)
    ensures AtPosition([first] + rest, line, column)
         == (if first.line == line && first.column == column then [first] else []) + AtPosition(rest, line, column)
  {
    assert ([first] + rest)[1..] == rest;
  }

  lemma {:induction false} AtLast(es: seq<FixEdit>, e: FixEdit, line: int, column: int)
    ensures AtPosition(es + [e], line, column)
         == AtPosition(es, line, column) + if e.line == line && e.column == column then [e] else []
  {
    if es == [] {
      FirstAt(e, [], line, column);
      assert [] + [e] == [e] + [];
    } else {
      AtLast(es[1..], e, line, column);
      FirstAt(es[0], es[1..] + [e], line, column);
      FirstAt(es[0], es[1..], line, column);
      assert es + [e] == [es[0]] + (es[1..] + [e]) && es == [es[0]] + es[1..];
      hide AtPosition;
    }
  }

  /** The order is stable: edits of one position keep the order they were given in. */
  lemma {:induction false} SortedIsStable(edits: seq<FixEdit>, line: int, column: int)
    ensures AtPosition(Sorted(edits), line, column) == AtPosition(edits, line, column)
  {
    hide Insert, Ordered;
    if edits == [] {
      assert Sorted(edits) == [];
    } else {
      var n := |edits| - 1;
      SortedIsStable(edits[..n], line, column);
      SortedIsOrdered(edits[..n]);
      InsertAt(edits[n], Sorted(edits[..n]), line, column);
      assert edits == edits[..n] + [edits[n]];
      AtLast(edits[..n], edits[n], line, column);
    }
  }

  /** An edit is in range exactly when its line exists and splits around its span. */
  lemma InRangeIff(text: seq<string>, e: FixEdit)
    ensures InRange(text, e) <==> exists before, inside, after :: SplitsAround(text, e, before, inside, after)
  {
    if InRange(text, e) {
      var line := text[e.line - 1];
      assert line == line[..e.column - 1] + line[e.column - 1..e.endColumn - 1] + line[e.endColumn - 1..];
      assert SplitsAround(text, e, line[..e.column - 1], line[e.column - 1..e.endColumn - 1], line[e.endColumn - 1..]);
    }
    forall before, inside, after | SplitsAround(text, e, before, inside, after) ensures InRange(text, e) {}
  }

  predicate SplitsAround(text: seq<string>, e: FixEdit, before: string, inside: string, after: string) {
    && 1 <= e.line <= |text| && text[e.line - 1] == before + inside + after
    && |before| == e.column - 1 && |before| + |inside| == e.endColumn - 1
  }

  /** The kept edits stay in order and never overlap. */
  lemma {:induction false} KeptAreDisjoint(text: seq<string>, sorted: seq<FixEdit>, n: nat)
    requires n <= |sorted| && Ordered(sorted)
    ensures Ordered(Kept(text, sorted, n)) && Disjoint(Kept(text, sorted, n))
    ensures forall e :: e in Kept(text, sorted, n) ==> exists i :: 0 <= i < n && sorted[i] == e
  {
    hide InRange, Overlaps, Precedes;
    if n > 0 {
      KeptAreDisjoint(text, sorted, n - 1);
      var before, e := Kept(text, sorted, n - 1), sorted[n - 1];
      forall k | 0 <= k < |before| ensures !Precedes(e, before[k]) {
        assert before[k] in before;
        var i :| 0 <= i < n - 1 && sorted[i] == before[k];
      }
      assert sorted[n - 1] == e;
    }
  }

  /** An edit is dropped only for a span outside its line or for overlapping an edit that is kept. */
  lemma {:induction false} DroppedForAReason(text: seq<string>, sorted: seq<FixEdit>, n: nat, i: nat)
    requires i < n <= |sorted|
    ensures sorted[i] in Kept(text, sorted, n) || !InRange(text, sorted[i]) || Clashes(Kept(text, sorted, n), sorted[i])
  {
    hide InRange, Overlaps;
    var before := Kept(text, sorted, n - 1);
    if i < n - 1 {
      DroppedForAReason(text, sorted, n - 1, i);
      if Clashes(before, sorted[i]) {
        var k :| 0 <= k < |before| && Overlaps(before[k], sorted[i]);
        assert Kept(text, sorted, n)[k] == before[k];
      }
    }
  }

  // ----- One line -----

  /** The edits of line `l` among the first `n`. */
  function OnLine(kept: seq<FixEdit>, n: nat, l: int): seq<FixEdit>
    requires n <= |kept|
  {
    if n == 0 then [] else OnLine(kept, n - 1, l) + if kept[n - 1].line == l then [kept[n - 1]] else []
  }

  predicate Spans(line: string, es: seq<FixEdit>) {
    forall i :: 0 <= i < |es| ==> 1 <= es[i].column <= es[i].endColumn && es[i].endColumn - 1 <= |line|
  }

  /** The edits applied to the line one after another, each to the result of the one before. */
  function InTurn(line: string, es: seq<FixEdit>): string
    requires forall i :: 0 <= i < |es| ==> 1 <= es[i].column <= es[i].endColumn
  {
    if es == [] then line else ReplaceClipped(InTurn(line, es[..|es| - 1]), es[|es| - 1])
  }

  lemma {:induction false} OnLineEdits(text: seq<string>, kept: seq<FixEdit>, n: nat, l: int)
    requires n <= |kept| && (forall i :: 0 <= i < |kept| ==> InRange(text, kept[i])) && 1 <= l <= |text|
    ensures Spans(text[l - 1], OnLine(kept, n, l))
    ensures Applied(text, kept, n)[l - 1] == InTurn(text[l - 1], OnLine(kept, n, l))
  {
    hide ReplaceClipped, InTurn, InRange;
    if n == 0 {
      NoEdits(text[l - 1]);
    } else {
      OnLineEdits(text, kept, n - 1, l);
      var e := kept[n - 1];
      RangeOf(text, e);
      var es := OnLine(kept, n - 1, l);
      if e.line == l {
        InTurnLast(text[l - 1], es, e);
        assert OnLine(kept, n, l) == es + [e];
      } else {
        assert OnLine(kept, n, l) == es;
      }
    }
  }

  lemma RangeOf(text: seq<string>, e: FixEdit)
    requires InRange(text, e)
    ensures 1 <= e.line <= |text| && 1 <= e.column <= e.endColumn && e.endColumn - 1 <= |text[e.line - 1]|
  {
  }

  lemma InTurnLast(line: string, es: seq<FixEdit>, e: FixEdit)
    requires Spans(line, es) && 1 <= e.column <= e.endColumn
    ensures InTurn(line, es + [e]) == ReplaceClipped(InTurn(line, es), e)
  {
    hide ReplaceClipped;
    assert (es + [e])[..|es|] == es;
  }

  // ----- All edits of a line at once -----

  /** What the insertions at column `c` put there, the last of the list leftmost. */
  function InsertedAt(es: seq<FixEdit>, c: int): string {
    if es == [] then ""
    else
      var e := es[|es| - 1];
      (if e.column == e.endColumn == c then e.replacement else "") + InsertedAt(es[..|es| - 1], c)
  }

  /** What the spans starting at column `c` are replaced by. */
  function StartedAt(es: seq<FixEdit>, c: int): string {
    if es == [] then ""
    else
      var e := es[|es| - 1];
      (if e.column == c < e.endColumn then e.replacement else "") + StartedAt(es[..|es| - 1], c)
  }

  predicate Covered(es: seq<FixEdit>, c: int) {
    exists i :: 0 <= i < |es| && es[i].column <= c < es[i].endColumn
  }

  /** What the edits leave at column `c`: insertions, the text of a span that starts there, and the character unless
      a span covers it. */
  function AtColumn(line: string, es: seq<FixEdit>, c: int): string
    requires 1 <= c
  {
    InsertedAt(es, c) + StartedAt(es, c) + if c <= |line| && !Covered(es, c) then [line[c - 1]] else ""
  }

  function FromColumn(line: string, es: seq<FixEdit>, c: int): string
    requires 1 <= c
    decreases |line| + 1 - c
  {
    if c > |line| + 1 then "" else AtColumn(line, es, c) + FromColumn(line, es, c + 1)
  }

  /** Every edit made at once, at its place in the original line. */
  function Simultaneous(line: string, es: seq<FixEdit>): string {
    FromColumn(line, es, 1)
  }

  predicate OneLine(es: seq<FixEdit>, l: int) {
    forall i :: 0 <= i < |es| ==> es[i].line == l
  }

  predicate InsertsAt(e: FixEdit, c: int) {
    e.column == e.endColumn == c && e.replacement != ""
  }

  /** A text is inserted where a span starts that is replaced afterwards. */
  predicate Eats(es: seq<FixEdit>) {
    exists i, j :: 0 <= i < j < |es| && InsertsAt(es[i], es[j].column) && es[j].column < es[j].endColumn
  }

  /** Edits left to apply from the right: in order, apart, on one line. */
  predicate Applicable(es: seq<FixEdit>, l: int) {
    Ordered(es) && Disjoint(es) && OneLine(es, l)
  }

  lemma FrontApplies(es: seq<FixEdit>, l: int)
    requires es != [] && Applicable(es, l)
    ensures Applicable(es[..|es| - 1], l)
    ensures var e := es[|es| - 1]; forall i :: 0 <= i < |es| - 1 ==>
      es[i].column >= e.column && (es[i].column >= e.endColumn || es[i].endColumn <= e.column)
  {
    var n := |es| - 1;
    forall i | 0 <= i < n
      ensures es[i].column >= es[n].column && (es[i].column >= es[n].endColumn || es[i].endColumn <= es[n].column)
    {
      assert !Precedes(es[n], es[i]) && !Overlaps(es[i], es[n]);
    }
  }

  lemma {:induction false} NoInsertion(es: seq<FixEdit>, c: int)
    requires forall i :: 0 <= i < |es| ==> !InsertsAt(es[i], c)
    ensures InsertedAt(es, c) == ""
  {
    if es != [] { NoInsertion(es[..|es| - 1], c); }
  }

  lemma {:induction false} SomeInsertion(es: seq<FixEdit>, c: int, i: nat)
    requires i < |es| && InsertsAt(es[i], c)
    ensures InsertedAt(es, c) != ""
  {
    if i < |es| - 1 { SomeInsertion(es[..|es| - 1], c, i); }
  }

  lemma {:induction false} NoSpan(es: seq<FixEdit>, c: int)
    requires forall i :: 0 <= i < |es| ==> !(es[i].column <= c < es[i].endColumn)
    ensures StartedAt(es, c) == "" && !Covered(es, c)
  {
    if es != [] { NoSpan(es[..|es| - 1], c); }
  }

  lemma Untouched(line: string, es: seq<FixEdit>, c: int)
    requires 1 <= c <= |line| && forall i :: 0 <= i < |es| ==> es[i].column > c || (es[i].endColumn <= c && !InsertsAt(es[i], c))
    ensures AtColumn(line, es, c) == [line[c - 1]]
  {
    hide InsertedAt, StartedAt, Covered;
    NoInsertion(es, c);
    NoSpan(es, c);
  }

  /** Columns that no edit reaches keep their characters. */
  lemma {:induction false} Unchanged(line: string, es: seq<FixEdit>, from: int, end: int)
    requires 1 <= from <= end <= |line| + 1 && forall i :: 0 <= i < |es| ==> es[i].column >= end || es[i].endColumn < from
    ensures FromColumn(line, es, from) == line[from - 1..end - 1] + FromColumn(line, es, end)
    decreases end - from
  {
    hide AtColumn, FromColumn;
    if from < end {
      Unchanged(line, es, from + 1, end);
      Untouched(line, es, from);
      FromColumnStep(line, es, from);
      SliceFirst(line, from - 1, end - 1);
      Prepended(FromColumn(line, es, from), FromColumn(line, es, from + 1), line[from - 1], line[from..end - 1],
        line[from - 1..end - 1], FromColumn(line, es, end));
    } else {
      NothingBetween(line, from - 1, FromColumn(line, es, from));
    }
  }

  lemma Prepended(all: string, after: string, first: char, more: string, span: string, tail: string)
    requires all == [first] + after && after == more + tail && span == [first] + more
    ensures all == span + tail
  {
  }

  lemma NothingBetween(line: string, at: nat, tail: string)
    requires at <= |line|
    ensures tail == line[at..at] + tail
  {
  }

  lemma {:induction false} Gone(line: string, es: seq<FixEdit>, from: int, end: int)
    requires 1 <= from <= end <= |line| + 1 && forall c :: from <= c < end ==> AtColumn(line, es, c) == ""
    ensures FromColumn(line, es, from) == FromColumn(line, es, end)
    decreases end - from
  {
    hide AtColumn;
    if from < end {
      Gone(line, es, from + 1, end);
      assert AtColumn(line, es, from) == "";
    }
  }

  lemma {:induction false} Alike(line: string, es: seq<FixEdit>, es': seq<FixEdit>, from: int)
    requires 1 <= from && forall c :: from <= c ==> AtColumn(line, es, c) == AtColumn(line, es', c)
    ensures FromColumn(line, es, from) == FromColumn(line, es', from)
    decreases |line| + 1 - from
  {
    hide AtColumn;
    if from <= |line| + 1 { Alike(line, es, es', from + 1); }
  }

  lemma AddedAt(line: string, before: seq<FixEdit>, e: FixEdit, c: int)
    requires 1 <= c
    ensures InsertedAt(before + [e], c) == (if e.column == e.endColumn == c then e.replacement else "") + InsertedAt(before, c)
    ensures StartedAt(before + [e], c) == (if e.column == c < e.endColumn then e.replacement else "") + StartedAt(before, c)
    ensures Covered(before + [e], c) <==> Covered(before, c) || e.column <= c < e.endColumn
  {
    var es := before + [e];
    assert es[..|es| - 1] == before && es[|es| - 1] == e;
    assert forall i :: 0 <= i < |before| ==> es[i] == before[i];
  }

  lemma NotAdded(line: string, before: seq<FixEdit>, e: FixEdit, c: int)
    requires 1 <= c && (c < e.column || c >= e.endColumn) && !(e.column == e.endColumn == c)
    ensures AtColumn(line, before + [e], c) == AtColumn(line, before, c)
  {
    hide InsertedAt, StartedAt, Covered;
    AddedAt(line, before, e, c);
  }

  /** All columns before that of the leftmost edit stay as they are. */
  lemma LeftOfAll(line: string, es: seq<FixEdit>, k: int)
    requires 1 <= k <= |line| + 1 && forall i :: 0 <= i < |es| ==> es[i].column >= k
    ensures Simultaneous(line, es) == line[..k - 1] + FromColumn(line, es, k)
  {
    hide AtColumn, FromColumn;
    Unchanged(line, es, 1, k);
  }

  lemma AddInsertion(line: string, before: seq<FixEdit>, e: FixEdit)
    requires 1 <= e.column == e.endColumn <= |line| + 1
    requires forall i :: 0 <= i < |before| ==> before[i].column >= e.column
    ensures Simultaneous(line, before) == line[..e.column - 1] + FromColumn(line, before, e.column)
    ensures Simultaneous(line, before + [e]) == line[..e.column - 1] + e.replacement + FromColumn(line, before, e.column)
  {
    hide AtColumn, Simultaneous, FromColumn;
    var k, es := e.column, before + [e];
    LeftOfAll(line, before, k);
    LeftOfAll(line, es, k);
    AfterInsertion(line, before, e);
    InsertedFirst(line, before, e);
    FromColumnStep(line, before, k);
    FromColumnStep(line, es, k);
    InsertionFirst(line[..k - 1], e.replacement, AtColumn(line, before, k), FromColumn(line, before, k + 1),
      AtColumn(line, es, k), FromColumn(line, es, k), FromColumn(line, before, k));
  }

  lemma AfterInsertion(line: string, before: seq<FixEdit>, e: FixEdit)
    requires 1 <= e.column == e.endColumn
    ensures FromColumn(line, before + [e], e.column + 1) == FromColumn(line, before, e.column + 1)
  {
    hide AtColumn, FromColumn;
    forall c | e.column + 1 <= c ensures AtColumn(line, before + [e], c) == AtColumn(line, before, c) { NotAdded(line, before, e, c); }
    Alike(line, before + [e], before, e.column + 1);
  }

  lemma InsertionFirst(front: string, put: string, column: string, after: string, changed: string, now: string, was: string)
    requires changed == put + column && now == changed + after && was == column + after
    ensures front + now == front + put + was
  {
  }

  lemma InsertedFirst(line: string, before: seq<FixEdit>, e: FixEdit)
    requires 1 <= e.column == e.endColumn
    ensures AtColumn(line, before + [e], e.column) == e.replacement + AtColumn(line, before, e.column)
  {
    hide InsertedAt, StartedAt, Covered;
    AddedAt(line, before, e, e.column);
  }

  lemma SpanColumns(line: string, before: seq<FixEdit>, e: FixEdit)
    requires 1 <= e.column < e.endColumn <= |line| + 1
    requires forall i :: 0 <= i < |before| ==>
      before[i].column >= e.column && (before[i].column >= e.endColumn || before[i].endColumn <= e.column)
    ensures FromColumn(line, before, e.column) == InsertedAt(before, e.column)
      + (line[e.column - 1..e.endColumn - 1] + FromColumn(line, before, e.endColumn))
  {
    hide AtColumn, InsertedAt, FromColumn;
    var k, m := e.column, e.endColumn;
    NoneStarted(before, e);
    PlainColumn(line, before, e.column);
    SpanRestBefore(line, before, e);
    FromColumnStep(line, before, k);
    SliceFirst(line, k - 1, m - 1);
    SpanText(FromColumn(line, before, k), AtColumn(line, before, k), FromColumn(line, before, k + 1),
      InsertedAt(before, k), line[k - 1], line[k..m - 1], line[k - 1..m - 1], FromColumn(line, before, m));
  }

  /** A line before a span at its leftmost place is replaced, with the insertions made where the span starts. */
  lemma BeforeSpan(line: string, before: seq<FixEdit>, e: FixEdit)
    requires 1 <= e.column < e.endColumn <= |line| + 1
    requires forall i :: 0 <= i < |before| ==>
      before[i].column >= e.column && (before[i].column >= e.endColumn || before[i].endColumn <= e.column)
    ensures Simultaneous(line, before) == line[..e.column - 1] + InsertedAt(before, e.column)
      + line[e.column - 1..e.endColumn - 1] + FromColumn(line, before, e.endColumn)
  {
    hide InsertedAt, Simultaneous, FromColumn;
    LeftOfAll(line, before, e.column);
    SpanColumns(line, before, e);
    Flat(Simultaneous(line, before), line[..e.column - 1], FromColumn(line, before, e.column), InsertedAt(before, e.column),
      line[e.column - 1..e.endColumn - 1], FromColumn(line, before, e.endColumn));
  }

  lemma Flat(all: string, front: string, rest: string, put: string, span: string, tail: string)
    requires all == front + rest && rest == put + (span + tail)
    ensures all == front + put + span + tail
  {
  }

  lemma FlatColumn(all: string, front: string, rest: string, column: string, put: string, span: string, tail: string)
    requires all == front + rest && rest == column + tail && column == put + span
    ensures all == front + put + span + tail
  {
  }

  /** The line after it. */
  lemma AfterSpan(line: string, before: seq<FixEdit>, e: FixEdit)
    requires 1 <= e.column < e.endColumn <= |line| + 1
    requires forall i :: 0 <= i < |before| ==>
      before[i].column >= e.column && (before[i].column >= e.endColumn || before[i].endColumn <= e.column)
    ensures Simultaneous(line, before + [e]) == line[..e.column - 1] + InsertedAt(before, e.column)
      + e.replacement + FromColumn(line, before, e.endColumn)
  {
    hide AtColumn, InsertedAt, Simultaneous, FromColumn;
    var k, m, es := e.column, e.endColumn, before + [e];
    LeftOfAll(line, es, k);
    SpanStartAfter(line, before, e);
    SpanRestAfter(line, before, e);
    FromColumnStep(line, es, k);
    FlatColumn(Simultaneous(line, es), line[..k - 1], FromColumn(line, es, k), AtColumn(line, es, k), InsertedAt(before, k),
      e.replacement, FromColumn(line, before, m));
  }

  lemma SliceFirst(line: string, from: nat, end: nat)
    requires from < end <= |line|
    ensures line[from..end] == [line[from]] + line[from + 1..end]
  {
  }

  lemma FromColumnStep(line: string, es: seq<FixEdit>, c: int)
    requires 1 <= c <= |line| + 1
    ensures FromColumn(line, es, c) == AtColumn(line, es, c) + FromColumn(line, es, c + 1)
  {
    hide AtColumn;
  }

  lemma SpanText(all: string, start: string, after: string, put: string, first: char, more: string, span: string, tail: string)
    requires all == start + after && start == put + [first] && after == more + tail && span == [first] + more
    ensures all == put + (span + tail)
  {
  }

  lemma NoneStarted(before: seq<FixEdit>, e: FixEdit)
    requires forall i :: 0 <= i < |before| ==> before[i].column >= e.endColumn || before[i].endColumn <= e.column
    requires e.column < e.endColumn
    ensures StartedAt(before, e.column) == "" && !Covered(before, e.column)
  {
    hide StartedAt, Covered;
    NoSpan(before, e.column);
  }

  lemma PlainColumn(line: string, es: seq<FixEdit>, c: int)
    requires 1 <= c <= |line| && StartedAt(es, c) == "" && !Covered(es, c)
    ensures AtColumn(line, es, c) == InsertedAt(es, c) + [line[c - 1]]
  {
    hide InsertedAt, StartedAt, Covered;
  }

  lemma SpanStartAfter(line: string, before: seq<FixEdit>, e: FixEdit)
    requires 1 <= e.column < e.endColumn <= |line| + 1
    requires forall i :: 0 <= i < |before| ==> before[i].column >= e.endColumn || before[i].endColumn <= e.column
    ensures AtColumn(line, before + [e], e.column) == InsertedAt(before, e.column) + e.replacement
  {
    hide InsertedAt, StartedAt, Covered, AtColumn;
    SpanTexts(line, before, e);
    CoveredColumn(line, before + [e], e.column);
  }

  lemma SpanTexts(line: string, before: seq<FixEdit>, e: FixEdit)
    requires 1 <= e.column < e.endColumn <= |line| + 1
    requires forall i :: 0 <= i < |before| ==> before[i].column >= e.endColumn || before[i].endColumn <= e.column
    ensures InsertedAt(before + [e], e.column) == InsertedAt(before, e.column)
    ensures StartedAt(before + [e], e.column) == e.replacement && Covered(before + [e], e.column)
  {
    hide InsertedAt, StartedAt, Covered;
    NoSpan(before, e.column);
    AddedAt(line, before, e, e.column);
    Units(e.replacement);
    Units(InsertedAt(before, e.column));
  }

  lemma CoveredColumn(line: string, es: seq<FixEdit>, c: int)
    requires 1 <= c && Covered(es, c)
    ensures AtColumn(line, es, c) == InsertedAt(es, c) + StartedAt(es, c)
  {
    hide InsertedAt, StartedAt, Covered;
  }

  lemma Units(s: string)
    ensures "" + s == s && s + "" == s
  {
  }

  lemma SpanRestBefore(line: string, before: seq<FixEdit>, e: FixEdit)
    requires 1 <= e.column < e.endColumn <= |line| + 1
    requires forall i :: 0 <= i < |before| ==>
      before[i].column >= e.column && (before[i].column >= e.endColumn || before[i].endColumn <= e.column)
    ensures FromColumn(line, before, e.column + 1) == line[e.column..e.endColumn - 1] + FromColumn(line, before, e.endColumn)
  {
    hide AtColumn, FromColumn;
    Unchanged(line, before, e.column + 1, e.endColumn);
  }

  lemma SpanRestAfter(line: string, before: seq<FixEdit>, e: FixEdit)
    requires 1 <= e.column < e.endColumn <= |line| + 1
    requires forall i :: 0 <= i < |before| ==>
      before[i].column >= e.column && (before[i].column >= e.endColumn || before[i].endColumn <= e.column)
    ensures FromColumn(line, before + [e], e.column + 1) == FromColumn(line, before, e.endColumn)
  {
    hide AtColumn, FromColumn;
    var k, m, es := e.column, e.endColumn, before + [e];
    forall c | k + 1 <= c < m ensures AtColumn(line, es, c) == "" { InsideSpan(line, before, e, c); }
    Gone(line, es, k + 1, m);
    forall c | m <= c ensures AtColumn(line, es, c) == AtColumn(line, before, c) { NotAdded(line, before, e, c); }
    Alike(line, es, before, m);
  }

  lemma InsideSpan(line: string, before: seq<FixEdit>, e: FixEdit, c: int)
    requires 1 <= e.column < c < e.endColumn
    requires forall i :: 0 <= i < |before| ==>
      before[i].column >= e.column && (before[i].column >= e.endColumn || before[i].endColumn <= e.column)
    ensures AtColumn(line, before + [e], c) == ""
  {
    hide InsertedAt, StartedAt, Covered;
    NoInsertion(before, c);
    NoSpan(before, c);
    AddedAt(line, before, e, c);
  }

  /** Applying the edits from the right is making them all at once, unless one eats what another inserted. */
  lemma {:induction false} InTurnIsSimultaneous(line: string, es: seq<FixEdit>, l: int)
    requires Spans(line, es) && Applicable(es, l) && !Eats(es)
    ensures InTurn(line, es) == Simultaneous(line, es)
    decreases |es|
  {
    hide InTurn, ReplaceClipped, Simultaneous, InsertedAt, FromColumn, Applicable;
    if es == [] {
      NoEdits(line);
      LeftOfAll(line, es, |line| + 1);
      NothingAfter(line);
    } else {
      var before, e := es[..|es| - 1], es[|es| - 1];
      assert es == before + [e];
      FrontApplies(es, l);
      assert !Eats(before) by { assert forall i :: 0 <= i < |before| ==> before[i] == es[i]; }
      InTurnIsSimultaneous(line, before, l);
      InTurnLast(line, before, e);
      if e.column == e.endColumn {
        AddInsertion(line, before, e);
        ReplaceAfter(line[..e.column - 1], "", FromColumn(line, before, e.column), e);
      } else {
        assert forall i :: 0 <= i < |before| ==> !InsertsAt(before[i], e.column);
        NoInsertion(before, e.column);
        BeforeSpan(line, before, e);
        AfterSpan(line, before, e);
        ReplaceAfter(line[..e.column - 1], line[e.column - 1..e.endColumn - 1], FromColumn(line, before, e.endColumn), e);
      }
    }
  }

  lemma NothingAfter(line: string)
    ensures FromColumn(line, [], |line| + 1) == ""
  {
    assert FromColumn(line, [], |line| + 2) == "";
  }

  lemma ReplaceAfter(front: string, span: string, tail: string, e: FixEdit)
    requires 1 <= e.column <= e.endColumn && |front| == e.column - 1 && |span| == e.endColumn - e.column
    ensures ReplaceClipped(front + span + tail, e) == front + e.replacement + tail
    ensures ReplaceClipped(front + "" + span + tail, e) == front + "" + e.replacement + tail
    ensures span == "" ==> ReplaceClipped(front + tail, e) == front + e.replacement + tail
  {
    var now := front + span + tail;
    assert now[..e.column - 1] == front && now[e.endColumn - 1..] == tail;
    assert front + "" + span + tail == now && front + "" + e.replacement == front + e.replacement;
    assert span == "" ==> front + tail == now;
  }

  lemma {:induction false} OnLineKeeps(kept: seq<FixEdit>, n: nat, l: int)
    requires n <= |kept| && Ordered(kept) && Disjoint(kept)
    ensures Ordered(OnLine(kept, n, l)) && Disjoint(OnLine(kept, n, l))
    ensures forall e :: e in OnLine(kept, n, l) ==> e.line == l && exists i :: 0 <= i < n && kept[i] == e
  {
    hide Precedes, Overlaps;
    if n > 0 {
      OnLineKeeps(kept, n - 1, l);
      var before, e := OnLine(kept, n - 1, l), kept[n - 1];
      forall k | 0 <= k < |before| ensures !Precedes(e, before[k]) && !Overlaps(before[k], e) {
        assert before[k] in before;
        var i :| 0 <= i < n - 1 && kept[i] == before[k];
      }
      assert kept[n - 1] == e;
    }
  }

  lemma NoEdits(line: string)
    ensures InTurn(line, []) == line
  {
  }


  /** Every line of the fixed text has its kept edits made all at once in the original line, unless a kept edit eats
      what another inserted. Lines without kept edits stay as they were. */
  lemma FixIsSimultaneous(source: string, edits: seq<FixEdit>, l: int)
    requires 1 <= l <= |SplitLines(source).text|
    ensures var kept := KeptEdits(source, edits);
      var es := OnLine(kept, |kept|, l);
      var line := SplitLines(source).text[l - 1];
      && Spans(line, es) && Applicable(es, l) && |FixedText(source, edits)| == |SplitLines(source).text|
      && (!Eats(es) ==> FixedText(source, edits)[l - 1] == Simultaneous(line, es))
      && (es == [] ==> FixedText(source, edits)[l - 1] == line)
  {
    hide SplitLines, Sorted, Kept, Ordered, Disjoint, OnLine, InTurn, Simultaneous, Applied, Eats, InRange;
    var text, sorted := SplitLines(source).text, Sorted(edits);
    var kept := Kept(text, sorted, |sorted|);
    SortedIsOrdered(edits);
    KeptAreInRange(text, sorted, |sorted|);
    KeptAreDisjoint(text, sorted, |sorted|);
    OnLineEdits(text, kept, |kept|, l);
    OnLineKeeps(kept, |kept|, l);
    var es := OnLine(kept, |kept|, l);
    if !Eats(es) { InTurnIsSimultaneous(text[l - 1], es, l); }
    NoEdits(text[l - 1]);
  }

  // ----- Where one edit eats another -----

  function Copies(c: char, n: nat): string { seq(n, i => c) }

  /** How many characters of the text are not `c`. */
  function Others(s: string, c: char): nat {
    if s == "" then 0 else Others(s[..|s| - 1], c) + if s[|s| - 1] == c then 0 else 1
  }

  /** How many of those the edits bring in. */
  function BroughtIn(es: seq<FixEdit>, c: char): nat {
    if es == [] then 0 else BroughtIn(es[..|es| - 1], c) + Others(es[|es| - 1].replacement, c)
  }

  lemma {:induction false} OthersConcat(s: string, t: string, c: char)
    ensures Others(s + t, c) == Others(s, c) + Others(t, c)
  {
    if t == "" {
      assert s + t == s;
    } else {
      assert (s + t)[..|s + t| - 1] == s + t[..|t| - 1];
      OthersConcat(s, t[..|t| - 1], c);
    }
  }

  lemma {:induction false} NoOthers(s: string, c: char)
    requires forall i :: 0 <= i < |s| ==> s[i] == c
    ensures Others(s, c) == 0
  {
    if s != "" { NoOthers(s[..|s| - 1], c); }
  }

  lemma {:induction false} SomeOther(s: string, c: char, i: nat)
    requires i < |s| && s[i] != c
    ensures Others(s, c) > 0
  {
    if i < |s| - 1 { SomeOther(s[..|s| - 1], c, i); }
  }

  lemma OthersThree(a: string, b: string, t: string, c: char)
    ensures Others(a + b + t, c) == Others(a, c) + Others(b, c) + Others(t, c)
  {
    hide Others;
    OthersConcat(a + b, t, c);
    OthersConcat(a, b, c);
  }

  /** A replacement brings in no more than its own text, and less than that if it removes another character. */
  lemma ReplaceCount(s: string, e: FixEdit, c: char)
    requires 1 <= e.column <= e.endColumn
    ensures Others(ReplaceClipped(s, e), c) <= Others(s, c) + Others(e.replacement, c)
    ensures (exists i :: e.column - 1 <= i < e.endColumn - 1 && i < |s| && s[i] != c) ==>
      Others(ReplaceClipped(s, e), c) < Others(s, c) + Others(e.replacement, c)
  {
    hide Others, ReplaceClipped;
    var front, span, back := Clipped(s, e);
    OthersThree(front, span, back, c);
    OthersThree(front, e.replacement, back, c);
    if i :| e.column - 1 <= i < e.endColumn - 1 && i < |s| && s[i] != c {
      SomeOther(span, c, i - |front|);
    }
  }

  /** The text before, inside and after the clipped span. */
  lemma Clipped(s: string, e: FixEdit) returns (front: string, span: string, back: string)
    requires 1 <= e.column <= e.endColumn
    ensures s == front + span + back && ReplaceClipped(s, e) == front + e.replacement + back
    ensures forall i :: e.column - 1 <= i < e.endColumn - 1 && i < |s| ==> 0 <= i - |front| < |span| && span[i - |front|] == s[i]
  {
    var from := if e.column - 1 <= |s| then e.column - 1 else |s|;
    var end := if e.endColumn - 1 <= |s| then e.endColumn - 1 else |s|;
    front, span, back := s[..from], s[from..end], s[end..];
  }

  /** All edits at once, in a line of one repeated character, bring in all of their text. */
  lemma {:induction false} AllBroughtIn(line: string, c: char, es: seq<FixEdit>, l: int)
    requires line == Copies(c, |line|) && Spans(line, es) && Applicable(es, l)
    ensures Others(Simultaneous(line, es), c) == BroughtIn(es, c)
    decreases |es|
  {
    hide Others, Simultaneous, InsertedAt, FromColumn, Applicable;
    if es == [] {
      LeftOfAll(line, es, |line| + 1);
      NothingAfter(line);
      Units(line);
      NoOthers(line, c);
    } else {
      var before, e := es[..|es| - 1], es[|es| - 1];
      assert es == before + [e];
      FrontApplies(es, l);
      AllBroughtIn(line, c, before, l);
      var front := line[..e.column - 1];
      if e.column == e.endColumn {
        AddInsertion(line, before, e);
        OthersThree(front, e.replacement, FromColumn(line, before, e.column), c);
        OthersConcat(front, FromColumn(line, before, e.column), c);
      } else {
        var put, span, tail := InsertedAt(before, e.column), line[e.column - 1..e.endColumn - 1], FromColumn(line, before, e.endColumn);
        BeforeSpan(line, before, e);
        AfterSpan(line, before, e);
        OthersThree(front + put, e.replacement, tail, c);
        OthersThree(front + put, span, tail, c);
        NoOthers(span, c);
      }
    }
  }

  /** The first edit that eats an insertion. */
  lemma {:induction false} FirstEater(es: seq<FixEdit>) returns (j: nat)
    requires Eats(es)
    ensures j < |es| && !Eats(es[..j]) && es[j].column < es[j].endColumn && InsertedAt(es[..j], es[j].column) != ""
  {
    hide InsertedAt;
    var n := |es| - 1;
    if Eats(es[..n]) {
      j := FirstEater(es[..n]);
      assert es[..n][..j] == es[..j];
    } else {
      j := n;
      var i, k :| 0 <= i < k < |es| && InsertsAt(es[i], es[k].column) && es[k].column < es[k].endColumn;
      assert k == n by { assert forall m :: 0 <= m < n ==> es[..n][m] == es[m]; }
      assert es[..n][i] == es[i];
      SomeInsertion(es[..n], es[n].column, i);
    }
  }

  lemma {:induction false} NeverMore(line: string, c: char, es: seq<FixEdit>, n: nat, j: nat)
    requires j < n <= |es| && Spans(line, es)
    requires Others(InTurn(line, es[..j + 1]), c) < BroughtIn(es[..j + 1], c)
    ensures Others(InTurn(line, es[..n]), c) < BroughtIn(es[..n], c)
  {
    hide InTurn, Others, ReplaceClipped;
    if n > j + 1 {
      var e := es[n - 1];
      NeverMore(line, c, es, n - 1, j);
      assert es[..n] == es[..n - 1] + [e] && es[..n][..n - 1] == es[..n - 1];
      InTurnLast(line, es[..n - 1], e);
      ReplaceCount(InTurn(line, es[..n - 1]), e, c);
    }
  }

  /** The first edit that eats loses a character that the edits brought in. */
  lemma EaterLoses(line: string, c: char, es: seq<FixEdit>, j: nat, l: int)
    requires line == Copies(c, |line|) && Spans(line, es) && Applicable(es, l) && j < |es| && !Eats(es[..j])
    requires es[j].column < es[j].endColumn && InsertedAt(es[..j], es[j].column) != "" && InsertedAt(es[..j], es[j].column)[0] != c
    ensures Others(InTurn(line, es[..j + 1]), c) < BroughtIn(es[..j + 1], c)
  {
    hide InTurn, Others, ReplaceClipped, Eats, Simultaneous, InsertedAt, FromColumn;
    var before, e := es[..j], es[j];
    assert es[..j + 1] == before + [e] && es[..j + 1][..j] == before;
    FrontApplies(es[..j + 1], l);
    InTurnIsSimultaneous(line, before, l);
    AllBroughtIn(line, c, before, l);
    InTurnLast(line, before, e);
    BeforeSpan(line, before, e);
    var put := InsertedAt(before, e.column);
    var now := InTurn(line, before);
    assert now[e.column - 1] == put[0];
    ReplaceCount(now, e, c);
  }

  predicate Forward(es: seq<FixEdit>) {
    forall i :: 0 <= i < |es| ==> 1 <= es[i].column <= es[i].endColumn
  }

  /** A line width in which all edits fit. */
  function Width(es: seq<FixEdit>): (w: nat)
    ensures forall i :: 0 <= i < |es| ==> es[i].endColumn - 1 <= w
  {
    if es == [] then 0
    else
      var w, e := Width(es[..|es| - 1]), es[|es| - 1].endColumn - 1;
      if e > w then e else w
  }

  /** A line of one letter on which eating shows. */
  lemma LosingLine(es: seq<FixEdit>, l: int) returns (c: char)
    requires Applicable(es, l) && Forward(es) && Eats(es)
    ensures c == 'a' || c == 'b'
    ensures Spans(Copies(c, Width(es)), es) && InTurn(Copies(c, Width(es)), es) != Simultaneous(Copies(c, Width(es)), es)
  {
    hide InTurn, Others, Simultaneous, InsertedAt, Eats, Width, BroughtIn, Applicable;
    var j := FirstEater(es);
    c := if InsertedAt(es[..j], es[j].column)[0] == 'a' then 'b' else 'a';
    var line := Copies(c, Width(es));
    EaterLoses(line, c, es, j, l);
    NeverMore(line, c, es, |es|, j);
    assert es[..|es|] == es;
    AllBroughtIn(line, c, es, l);
  }

  // ----- Edits of one line of a source -----

  predicate Fits(source: string, es: seq<FixEdit>, l: int) {
    1 <= l <= |SplitLines(source).text| && Spans(SplitLines(source).text[l - 1], es)
  }

  lemma {:induction false} InsertLast(e: FixEdit, sorted: seq<FixEdit>)
    requires forall i :: 0 <= i < |sorted| ==> !Precedes(e, sorted[i])
    ensures Insert(e, sorted) == sorted + [e]
  {
    if sorted != [] {
      InsertLast(e, sorted[1..]);
      assert sorted + [e] == [sorted[0]] + (sorted[1..] + [e]);
    }
  }

  lemma {:induction false} SortedStays(es: seq<FixEdit>)
    requires Ordered(es)
    ensures Sorted(es) == es
  {
    hide Insert;
    if es != [] {
      var n := |es| - 1;
      SortedStays(es[..n]);
      InsertLast(es[n], es[..n]);
      assert es == es[..n] + [es[n]];
    } else {
      assert Sorted(es) == [];
    }
  }

  lemma {:induction false} AllKept(text: seq<string>, es: seq<FixEdit>, n: nat)
    requires n <= |es| && Disjoint(es) && forall i :: 0 <= i < |es| ==> InRange(text, es[i])
    ensures Kept(text, es, n) == es[..n]
  {
    hide InRange, Overlaps;
    if n > 0 {
      AllKept(text, es, n - 1);
      assert !Clashes(es[..n - 1], es[n - 1]);
      assert es[..n] == es[..n - 1] + [es[n - 1]];
    }
  }

  lemma {:induction false} AllOnLine(es: seq<FixEdit>, n: nat, l: int)
    requires n <= |es| && OneLine(es, l)
    ensures OnLine(es, n, l) == es[..n]
  {
    if n > 0 {
      AllOnLine(es, n - 1, l);
      assert es[..n] == es[..n - 1] + [es[n - 1]];
    }
  }

  /** Edits of one line that are in order and apart are all kept, and applied in turn to that line. */
  lemma AppliedInTurn(source: string, es: seq<FixEdit>, l: int)
    requires Applicable(es, l) && Fits(source, es, l)
    ensures KeptEdits(source, es) == es && |FixedText(source, es)| == |SplitLines(source).text|
    ensures FixedText(source, es)[l - 1] == InTurn(SplitLines(source).text[l - 1], es)
  {
    hide SplitLines, Sorted, Kept, OnLine, InTurn, Applied, Ordered, Disjoint;
    var text := SplitLines(source).text;
    SortedStays(es);
    AllKept(text, es, |es|);
    AllOnLine(es, |es|, l);
    assert es[..|es|] == es;
    KeptAreInRange(text, es, |es|);
    OnLineEdits(text, es, |es|, l);
  }

  lemma {:induction false} OneLineSource(c: char, m: nat)
    requires c == 'a' || c == 'b'
    ensures SplitLines(Copies(c, m)) == Lines([Copies(c, m)], [])
  {
    var source := Copies(c, m);
    if m > 0 {
      assert source[1..] == Copies(c, m - 1) && source == [c] + source[1..];
      OneLineSource(c, m - 1);
    } else {
      assert source == "";
    }
  }

  /** A source whose line `l` is the given line of one letter. */
  lemma {:induction false} LineAt(l: nat, c: char, m: nat) returns (source: string)
    requires 1 <= l && (c == 'a' || c == 'b')
    ensures |SplitLines(source).text| == l && SplitLines(source).text[l - 1] == Copies(c, m)
  {
    if l == 1 {
      source := Copies(c, m);
      OneLineSource(c, m);
    } else {
      var rest := LineAt(l - 1, c, m);
      source := ['\n'] + rest;
      assert source[1..] == rest;
    }
  }

  /** Edits of one line, in order and apart, give the simultaneous replacement on every source they fit exactly when
      none of them starts a span where another has inserted a text before it. */
  lemma FixSimultaneousIff(es: seq<FixEdit>, l: nat)
    requires 1 <= l && Applicable(es, l) && Forward(es)
    ensures (forall source :: Fits(source, es, l) ==> AppliedAtOnce(source, es, l)) <==> !Eats(es)
  {
    hide SplitLines, InTurn, Simultaneous, Eats, Applicable, Copies, Width;
    if Eats(es) {
      var c := LosingLine(es, l);
      var source := LineAt(l, c, Width(es));
      AppliedInTurn(source, es, l);
      assert Fits(source, es, l) && !AppliedAtOnce(source, es, l);
    } else {
      forall source | Fits(source, es, l) ensures AppliedAtOnce(source, es, l) {
        AppliedInTurn(source, es, l);
        InTurnIsSimultaneous(SplitLines(source).text[l - 1], es, l);
      }
    }
  }

  /** The fixed text has all these edits made at once in line `l`. */
  ghost predicate AppliedAtOnce(source: string, es: seq<FixEdit>, l: int) {
    && KeptEdits(source, es) == es
    && 1 <= l <= |SplitLines(source).text| == |FixedText(source, es)|
    && FixedText(source, es)[l - 1] == Simultaneous(SplitLines(source).text[l - 1], es)
  }

  /** An insertion `z` and an edit `e` of a span that starts at the same column, applied in that order. */
  predicate SameColumn(z: FixEdit, e: FixEdit) {
    1 <= z.column == z.endColumn == e.column < e.endColumn && 1 <= z.line == e.line
  }

  /** Both edits are kept, yet the second deletes what the first inserted: the result is the simultaneous one on every
      source exactly when nothing was inserted. */
  lemma InsertionSurvivesIff(z: FixEdit, e: FixEdit)
    requires SameColumn(z, e)
    ensures forall source :: InRange(SplitLines(source).text, e) ==> KeptEdits(source, [z, e]) == [z, e]
    ensures (forall source :: InRange(SplitLines(source).text, e) ==> AppliedAtOnce(source, [z, e], z.line))
       <==> z.replacement == ""
  {
    hide SplitLines, Simultaneous;
    var es := [z, e];
    assert Applicable(es, z.line) && Forward(es);
    assert Eats(es) <==> z.replacement != "" by { assert es[0] == z && es[1] == e; }
    forall source ensures InRange(SplitLines(source).text, e) <==> Fits(source, es, z.line) { FitsBoth(source, z, e); }
    FixSimultaneousIff(es, z.line);
    forall source | InRange(SplitLines(source).text, e) ensures KeptEdits(source, es) == es {
      AppliedInTurn(source, es, z.line);
    }
  }

  lemma FitsBoth(source: string, z: FixEdit, e: FixEdit)
    requires SameColumn(z, e)
    ensures InRange(SplitLines(source).text, e) <==> Fits(source, [z, e], z.line)
  {
    hide SplitLines;
    assert [z, e][0] == z && [z, e][1] == e;
  }
}
