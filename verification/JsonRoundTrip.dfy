/** The scanner reads back what the printer writes, within its bounds and only there. */
module JsonRoundTrip {
  import opened Ast
  import opened Utf8
  import opened Json

  // ----- The bounds -----

  function Height(v: Value): (h: nat)
    ensures h >= 1
    decreases v, 0
  {
    match v
    case Array(items) => 1 + ItemsHeight(items)
    case Record(fields) => 1 + FieldsHeight(fields)
    case _ => 1
  }

  function Max(a: nat, b: nat): nat { if a < b then b else a }

  function ItemsHeight(items: seq<Value>): nat
    decreases items, 1
  {
    if items == [] then 0 else Max(ItemsHeight(items[..|items| - 1]), Height(items[|items| - 1]))
  }

  function FieldsHeight(fields: seq<Field>): nat
    decreases fields, 1
  {
    if fields == [] then 0 else Max(FieldsHeight(fields[..|fields| - 1]), Height(fields[|fields| - 1].value))
  }

  /** Number of values in `v`, itself included. */
  function Count(v: Value): (n: nat)
    ensures n >= 1
    decreases v, 0
  {
    match v
    case Array(items) => 1 + ItemsCount(items)
    case Record(fields) => 1 + FieldsCount(fields)
    case _ => 1
  }

  function ItemsCount(items: seq<Value>): nat
    decreases items, 1
  {
    if items == [] then 0 else ItemsCount(items[..|items| - 1]) + Count(items[|items| - 1])
  }

  function FieldsCount(fields: seq<Field>): nat
    decreases fields, 1
  {
    if fields == [] then 0 else FieldsCount(fields[..|fields| - 1]) + Count(fields[|fields| - 1].value)
  }

  predicate DistinctKeys(fields: seq<Field>) {
    forall i, j :: 0 <= i < j < |fields| ==> fields[i].key != fields[j].key
  }

  /** Every leaf, array and record of `v` is one the scanner admits. */
  predicate Admissible(nfc: Text -> bool, v: Value)
    decreases v
  {
    match v
    case Null | Bool(_) => true
    case Number(n) => IsSafe(n)
    case Str(s) => CheckString(nfc, s).None?
    case Array(items) =>
      |items| <= MAX_ARRAY_ITEMS && forall i :: 0 <= i < |items| ==> Admissible(nfc, items[i])
    case Record(fields) =>
      && |fields| <= MAX_RECORD_FIELDS && DistinctKeys(fields)
      && forall i :: 0 <= i < |fields| ==> AdmissibleField(nfc, fields[i])
  }

  predicate AdmissibleField(nfc: Text -> bool, f: Field)
    decreases f
  {
    CheckString(nfc, f.key).None? && Admissible(nfc, f.value)
  }

  predicate Bounded(nfc: Text -> bool, v: Value) {
    Admissible(nfc, v) && Height(v) <= MAX_DEPTH && Count(v) <= MAX_VALUES
  }

  // ----- Pieces of text -----

  lemma Split(text: Text, at: nat, a: Text, b: Text)
    requires LiteralAt(text, at, a + b)
    ensures LiteralAt(text, at, a) && LiteralAt(text, at + |a|, b)
  {
    assert text[at..at + |a|] == (a + b)[..|a|] == a;
    assert text[at + |a|..at + |a| + |b|] == (a + b)[|a|..] == b;
  }

  lemma Cell(text: Text, at: nat, s: Text, i: nat)
    requires LiteralAt(text, at, s) && i < |s|
    ensures at + i < |text| && text[at + i] == s[i]
  {
    assert text[at..at + |s|][i] == s[i];
  }

  // ----- Strings -----

  lemma HexBack(d: nat)
    requires d < 16
    ensures IsHex(HexDigit(d)) && HexValue(HexDigit(d)) == d
  {
  }

  lemma HexDigitsBack(u: Unit)
    ensures FourHex(HexEscape(u), 2) && HexUnit(HexEscape(u)) == u
  {
    HexBack(u / 4096);
    HexBack(u / 256 % 16);
    HexBack(u / 16 % 16);
    HexBack(u % 16);
    assert u / 16 / 16 == u / 256 && u / 256 / 16 == u / 4096;
  }

  lemma UnescapeHex(u: Unit, rest: Text)
    ensures Unescape(HexEscape(u) + rest) == Then(u, Unescape(rest))
  {
    HexDigitsBack(u);
    var body := HexEscape(u) + rest;
    assert forall i :: 0 <= i < 6 ==> body[i] == HexEscape(u)[i];
    assert body[6..] == rest;
  }

  lemma UnescapeUnit(u: Unit, rest: Text)
    ensures Unescape(UnitText(u) + rest) == Then(u, Unescape(rest))
  {
    if ShortLetter(u).Some? {
      assert (UnitText(u) + rest)[2..] == rest;
    } else if u < 0x20 || High(u) || Low(u) {
      UnescapeHex(u, rest);
    } else {
      assert ([u] + rest)[1..] == rest;
    }
  }

  lemma UnescapePair(h: Unit, l: Unit, rest: Text)
    requires High(h) && Low(l)
    ensures Unescape([h, l] + rest) == Then(h, Then(l, Unescape(rest)))
  {
    assert ([h, l] + rest)[1..] == [l] + rest;
    assert ([l] + rest)[1..] == rest;
  }

  lemma {:induction false} UnescapeInvertsQuote(s: Text)
    ensures Unescape(QuoteBody(s)) == Some(s)
  {
    hide Unescape, UnitText;
    if s == [] {
      NothingQuoted();
    } else if StartsPair(s) {
      UnescapeInvertsQuote(s[2..]);
      UnescapePair(s[0], s[1], QuoteBody(s[2..]));
      assert s[..2] == [s[0], s[1]];
      assert s == [s[0]] + ([s[1]] + s[2..]);
    } else {
      UnescapeInvertsQuote(s[1..]);
      UnescapeUnit(s[0], QuoteBody(s[1..]));
      assert s == [s[0]] + s[1..];
    }
  }

  lemma NothingQuoted()
    ensures QuoteBody([]) == [] && Unescape([]) == Some([])
  {
  }

  lemma HexSkipped(text: Text, at: nat, u: Unit)
    requires LiteralAt(text, at, HexEscape(u))
    ensures StringEnd(text, at) == StringEnd(text, at + 6)
  {
    HexDigitsBack(u);
    forall i | 0 <= i < 6 ensures text[at + i] == HexEscape(u)[i] { Cell(text, at, HexEscape(u), i); }
  }

  lemma UnitSkipped(text: Text, at: nat, u: Unit)
    requires LiteralAt(text, at, UnitText(u))
    ensures StringEnd(text, at) == StringEnd(text, at + |UnitText(u)|)
  {
    Cell(text, at, UnitText(u), 0);
    if ShortLetter(u).Some? {
      Cell(text, at, UnitText(u), 1);
    } else if u < 0x20 || High(u) || Low(u) {
      HexSkipped(text, at, u);
    }
  }

  /** The text of the first character of `s`, or of the pair it starts with. */
  function QuoteHead(s: Text): (t: Text)
    requires s != []
    ensures t != []
  {
    if StartsPair(s) then s[..2] else UnitText(s[0])
  }

  function Width(s: Text): nat { if StartsPair(s) then 2 else 1 }

  lemma HeadSkipped(text: Text, at: nat, s: Text)
    requires s != [] && LiteralAt(text, at, QuoteHead(s))
    ensures StringEnd(text, at) == StringEnd(text, at + |QuoteHead(s)|)
  {
    if StartsPair(s) {
      Cell(text, at, QuoteHead(s), 0);
      Cell(text, at, QuoteHead(s), 1);
      assert StringEnd(text, at) == StringEnd(text, at + 1);
    } else {
      UnitSkipped(text, at, s[0]);
    }
  }

  lemma {:induction false} QuoteEnds(text: Text, at: nat, s: Text)
    requires LiteralAt(text, at, QuoteBody(s) + [QUOTE])
    ensures StringEnd(text, at) == Ended(at + |QuoteBody(s)| + 1)
    decreases |s|
  {
    if s == [] {
      Cell(text, at, [QUOTE], 0);
    } else {
      hide UnitText, StringEnd, LiteralAt;
      var rest := QuoteBody(s[Width(s)..]) + [QUOTE];
      assert QuoteBody(s) == QuoteHead(s) + QuoteBody(s[Width(s)..]);
      assert QuoteBody(s) + [QUOTE] == QuoteHead(s) + rest;
      Split(text, at, QuoteHead(s), rest);
      QuoteEnds(text, at + |QuoteHead(s)|, s[Width(s)..]);
      HeadSkipped(text, at, s);
    }
  }

  lemma StringRead(nfc: Text -> bool, text: Text, at: nat, spent: nat, s: Text)
    requires LiteralAt(text, at, Quote(s)) && CheckString(nfc, s).None?
    ensures text[at] == QUOTE && ScanString(nfc, text, at, spent) == Got(s, at + |Quote(s)|, spent)
  {
    hide QuoteBody, Unescape, StringEnd, CheckString;
    var body := QuoteBody(s) + [QUOTE];
    Split(text, at, [QUOTE], body);
    Cell(text, at, [QUOTE], 0);
    QuoteEnds(text, at + 1, s);
    Split(text, at + 1, QuoteBody(s), [QUOTE]);
    UnescapeInvertsQuote(s);
  }

  /** A string the scanner accepts always decodes: the decoder's own refusal cannot happen. */
  lemma {:induction false} ScannedStringsDecode(text: Text, at: nat)
    requires at <= |text| && StringEnd(text, at).Ended?
    ensures Unescape(text[at..StringEnd(text, at).at - 1]).Some?
    decreases |text| - at
  {
    var end := StringEnd(text, at).at;
    if text[at] != QUOTE {
      var k := if text[at] != BACKSLASH then 1 else if text[at + 1] == LETTER_U then 6 else 2;
      assert StringEnd(text, at + k) == Ended(end);
      ScannedStringsDecode(text, at + k);
      BodyStep(text, at, k, end - 1);
    }
  }

  lemma BodyStep(text: Text, at: nat, k: nat, end: nat)
    requires at + k <= end < |text| && k > 0 && text[at] != QUOTE && text[at] >= 0x20
    requires k == if text[at] != BACKSLASH then 1 else if UnitAt(text, at + 1) == Some(LETTER_U) then 6 else 2
    requires k == 6 ==> FourHex(text, at + 2)
    requires k == 2 ==> ShortValue(text[at + 1]).Some?
    requires Unescape(text[at + k..end]).Some?
    ensures Unescape(text[at..end]).Some?
  {
    var body := text[at..end];
    assert body[k..] == text[at + k..end];
  }

  // ----- Numbers -----

  lemma {:induction false} DecimalBack(n: nat)
    ensures DigitsValue(Decimal(n)) == n
  {
    if n >= 10 {
      DecimalBack(n / 10);
      assert Decimal(n)[..|Decimal(n)| - 1] == Decimal(n / 10);
    } else {
      assert Decimal(n)[..0] == [];
    }
  }

  lemma NumberBack(n: int)
    ensures IsNumeral(PrintNumber(n)) && NumeralValue(PrintNumber(n)) == n
  {
    hide Decimal, DigitsValue;
    if n < 0 {
      DecimalBack(-n);
      assert PrintNumber(n)[1..] == Decimal(-n);
    } else {
      DecimalBack(n);
    }
  }

  lemma {:induction false} DigitsRun(text: Text, at: nat, end: nat)
    requires at <= end <= |text|
    requires forall i :: at <= i < end ==> IsDigit(text[i])
    requires end < |text| ==> !IsDigit(text[end])
    ensures DigitsEnd(text, at) == end
    decreases end - at
  {
    if at < end { DigitsRun(text, at + 1, end); }
  }

  lemma NumeralRun(text: Text, at: nat, n: nat)
    requires LiteralAt(text, at, Decimal(n))
    requires at + |Decimal(n)| < |text| ==> !IsDigit(text[at + |Decimal(n)|])
    ensures IsDigit(text[at])
    ensures text[at] == ZERO ==> |Decimal(n)| == 1
    ensures DigitsEnd(text, at + 1) == at + |Decimal(n)|
  {
    hide Decimal;
    var d := Decimal(n);
    forall i | 0 <= i < |d| ensures text[at + i] == d[i] { Cell(text, at, d, i); }
    assert forall i :: at <= i < at + |d| ==> text[i] == d[i - at];
    DigitsRun(text, at + 1, at + |d|);
  }

  lemma NumberEnds(text: Text, at: nat, n: int)
    requires LiteralAt(text, at, PrintNumber(n))
    requires at + |PrintNumber(n)| < |text| ==> !IsDigit(text[at + |PrintNumber(n)|])
    ensures at < |text| && (text[at] == MINUS || IsDigit(text[at]))
    ensures NumberEnd(text, at) == Some(at + |PrintNumber(n)|)
  {
    LiteralFits(text, at, PrintNumber(n));
    hide Decimal, DigitsEnd, LiteralAt, NumberEnd;
    if n < 0 {
      Split(text, at, [MINUS], Decimal(-n));
      Cell(text, at, [MINUS], 0);
      NumeralRun(text, at + 1, -n);
      NumeralEnds(text, at, at + 1);
    } else {
      NumeralRun(text, at, n);
      NumeralEnds(text, at, at);
    }
  }

  lemma LiteralFits(text: Text, at: nat, t: Text)
    requires LiteralAt(text, at, t)
    ensures at + |t| <= |text|
  {
  }

  lemma NumeralEnds(text: Text, at: nat, start: nat)
    requires start < |text| && IsDigit(text[start]) && start == if at < |text| && text[at] == MINUS then at + 1 else at
    requires text[start] == ZERO ==> DigitsEnd(text, start + 1) == start + 1
    ensures NumberEnd(text, at) == Some(DigitsEnd(text, start + 1))
  {
    hide DigitsEnd, IsNumeral;
  }

  lemma NumberRead(text: Text, at: nat, spent: nat, n: int)
    requires LiteralAt(text, at, PrintNumber(n)) && IsSafe(n)
    requires at + |PrintNumber(n)| < |text| ==> !IsDigit(text[at + |PrintNumber(n)|])
    ensures ScanNumber(text, at, spent) == Got(Number(n), at + |PrintNumber(n)|, spent)
    ensures at < |text| && (text[at] == MINUS || IsDigit(text[at]))
  {
    hide PrintNumber, NumeralValue, NumberEnd;
    NumberEnds(text, at, n);
    NumberBack(n);
  }

  // ----- Values -----

  /** What follows a printed value: nothing, a separator or a closing bracket. */
  predicate Delimited(text: Text, at: nat) { at < |text| ==> !IsDigit(text[at]) }

  predicate Room(depth: nat, spent: nat, height: nat, count: nat) {
    depth + height <= MAX_DEPTH + 1 && spent + count <= MAX_VALUES
  }

  lemma ScalarRead(nfc: Text -> bool, text: Text, at: nat, spent: nat, depth: nat, v: Value)
    requires !v.Array? && !v.Record? && Admissible(nfc, v)
    requires LiteralAt(text, at, Print(v)) && Delimited(text, at + |Print(v)|) && Room(depth, spent, 1, 1)
    ensures ScanValue(nfc, text, at, spent, depth) == Got(v, at + |Print(v)|, spent + 1)
  {
    hide Quote, PrintNumber, ScanString, ScanNumber, CheckString;
    match v
    case Null => Cell(text, at, NULL, 0); FirstLetter(text, at, TRUE); FirstLetter(text, at, FALSE);
    case Bool(flag) => Cell(text, at, Print(v), 0); FirstLetter(text, at, TRUE);
    case Number(n) =>
      NumberRead(text, at, spent + 1, n);
      FirstLetter(text, at, TRUE);
      FirstLetter(text, at, FALSE);
      FirstLetter(text, at, NULL);
    case Str(s) => StringRead(nfc, text, at, spent + 1, s);
  }

  lemma HeadOfItems(items: seq<Value>)
    requires items != []
    ensures ItemsHeight(items) == Max(Height(items[0]), ItemsHeight(items[1..]))
    ensures ItemsCount(items) == Count(items[0]) + ItemsCount(items[1..])
    decreases |items|
  {
    hide Height, Count;
    var n := |items| - 1;
    if n == 0 {
      assert items[..0] == [] && items[1..] == [];
    } else {
      HeadOfItems(items[..n]);
      assert items[..n][1..] == items[1..][..n - 1];
      assert items[1..][n - 1] == items[n];
    }
  }

  lemma HeadOfFields(fields: seq<Field>)
    requires fields != []
    ensures FieldsHeight(fields) == Max(Height(fields[0].value), FieldsHeight(fields[1..]))
    ensures FieldsCount(fields) == Count(fields[0].value) + FieldsCount(fields[1..])
    decreases |fields|
  {
    hide Height, Count;
    var n := |fields| - 1;
    if n == 0 {
      assert fields[..0] == [] && fields[1..] == [];
    } else {
      HeadOfFields(fields[..n]);
      assert fields[..n][1..] == fields[1..][..n - 1];
      assert fields[1..][n - 1] == fields[n];
    }
  }

  lemma PrintStart(v: Value)
    ensures Print(v) != [] && Print(v)[0] != CLOSE_ARRAY
  {
    hide Decimal, QuoteBody, PrintItems, PrintFields;
  }

  lemma {:induction false} ValueRead(nfc: Text -> bool, text: Text, at: nat, spent: nat, depth: nat, v: Value)
    requires LiteralAt(text, at, Print(v)) && Delimited(text, at + |Print(v)|)
    requires Admissible(nfc, v) && Room(depth, spent, Height(v), Count(v))
    ensures ScanValue(nfc, text, at, spent, depth) == Got(v, at + |Print(v)|, spent + Count(v))
    decreases v, 0
  {
    hide LiteralAt, Print, PrintItems, PrintFields, Height, Count, ItemsHeight, FieldsHeight, ItemsCount, FieldsCount,
      Admissible, ScanValue, ScanItems, ScanFields;
    if v.Array? {
      ArrayRead(nfc, text, at, spent, depth, v.items);
    } else if v.Record? {
      RecordRead(nfc, text, at, spent, depth, v.fields);
    } else {
      ScalarCost(v);
      ScalarRead(nfc, text, at, spent, depth, v);
    }
  }

  lemma ScalarCost(v: Value)
    requires !v.Array? && !v.Record?
    ensures Height(v) == 1 && Count(v) == 1
  {
  }

  lemma OpenArray(nfc: Text -> bool, text: Text, at: nat, spent: nat, depth: nat, items: seq<Value>)
    requires items != [] && LiteralAt(text, at, Print(Array(items))) && Room(depth, spent, 1, 1)
    ensures LiteralAt(text, at + 1, PrintItems(items)) && |Print(Array(items))| == 1 + |PrintItems(items)|
    ensures ScanValue(nfc, text, at, spent, depth) == ScanItems(nfc, text, at + 1, spent + 1, depth, [])
  {
    hide LiteralAt, PrintItems, ScanItems, ScanFields, ScanString;
    Split(text, at, [OPEN_ARRAY], PrintItems(items));
    Cell(text, at, [OPEN_ARRAY], 0);
    ItemsStart(items);
    Cell(text, at + 1, PrintItems(items), 0);
  }

  lemma ItemsStart(items: seq<Value>)
    requires items != []
    ensures PrintItems(items) != [] && PrintItems(items)[0] != CLOSE_ARRAY
  {
    PrintStart(items[0]);
  }

  lemma EmptyRead(nfc: Text -> bool, text: Text, at: nat, spent: nat, depth: nat, v: Value)
    requires v == Array([]) || v == Record([])
    requires LiteralAt(text, at, Print(v)) && Room(depth, spent, 1, 1)
    ensures ScanValue(nfc, text, at, spent, depth) == Got(v, at + 2, spent + 1)
    ensures |Print(v)| == 2 && Count(v) == 1
  {
    hide LiteralAt, ScanItems, ScanFields, ScanString;
    Cell(text, at, Print(v), 0);
    Cell(text, at, Print(v), 1);
  }

  lemma {:induction false} ArrayRead(nfc: Text -> bool, text: Text, at: nat, spent: nat, depth: nat, items: seq<Value>)
    requires LiteralAt(text, at, Print(Array(items)))
    requires Admissible(nfc, Array(items)) && Room(depth, spent, Height(Array(items)), Count(Array(items)))
    ensures ScanValue(nfc, text, at, spent, depth)
         == Got(Array(items), at + |Print(Array(items))|, spent + Count(Array(items)))
    decreases items, 2
  {
    hide LiteralAt, Print, PrintItems, ItemsHeight, ItemsCount, ScanValue, ScanItems;
    if items == [] {
      EmptyRead(nfc, text, at, spent, depth, Array(items));
    } else {
      OpenArray(nfc, text, at, spent, depth, items);
      ItemsRead(nfc, text, at + 1, spent + 1, depth, [], items);
      assert [] + items == items;
    }
  }

  /** The text of an array's items, cut at the first item and its separator. */
  lemma ItemPieces(text: Text, at: nat, items: seq<Value>)
    requires items != [] && LiteralAt(text, at, PrintItems(items))
    ensures LiteralAt(text, at, Print(items[0]))
    ensures var next := at + |Print(items[0])|;
      && UnitAt(text, next) == Some(if |items| == 1 then CLOSE_ARRAY else COMMA)
      && (|items| > 1 ==> LiteralAt(text, next + 1, PrintItems(items[1..])))
      && at + |PrintItems(items)| == next + 1 + (if |items| > 1 then |PrintItems(items[1..])| else 0)
  {
    hide LiteralAt, Print;
    var next := at + |Print(items[0])|;
    var tail := if |items| == 1 then [CLOSE_ARRAY] else [COMMA] + PrintItems(items[1..]);
    assert PrintItems(items) == Print(items[0]) + tail;
    hide PrintItems;
    Split(text, at, Print(items[0]), tail);
    Cell(text, next, tail, 0);
    if |items| > 1 { Split(text, next, [COMMA], PrintItems(items[1..])); }
  }

  lemma ItemStep(nfc: Text -> bool, text: Text, at: nat, spent: nat, depth: nat, done: seq<Value>, item: Value,
        next: nat, used: nat)
    requires at <= |text| && |done| < MAX_ARRAY_ITEMS
    requires ScanValue(nfc, text, at, spent, depth + 1) == Got(item, next, used)
    ensures UnitAt(text, next) == Some(CLOSE_ARRAY) ==>
      ScanItems(nfc, text, at, spent, depth, done) == Got(Array(done + [item]), next + 1, used)
    ensures UnitAt(text, next) == Some(COMMA) ==>
      ScanItems(nfc, text, at, spent, depth, done) == ScanItems(nfc, text, next + 1, used, depth, done + [item])
  {
    hide ScanValue;
  }

  lemma {:induction false} ItemsRead(nfc: Text -> bool, text: Text, at: nat, spent: nat, depth: nat, done: seq<Value>,
        items: seq<Value>)
    requires items != [] && LiteralAt(text, at, PrintItems(items))
    requires |done| + |items| <= MAX_ARRAY_ITEMS
    requires forall i :: 0 <= i < |items| ==> Admissible(nfc, items[i])
    requires Room(depth + 1, spent, ItemsHeight(items), ItemsCount(items))
    ensures ScanItems(nfc, text, at, spent, depth, done)
         == Got(Array(done + items), at + |PrintItems(items)|, spent + ItemsCount(items))
    decreases items, 1
  {
    hide LiteralAt, Print, PrintItems, Height, Count, ItemsHeight, ItemsCount, Admissible, ScanValue, ScanItems, Delimited;
    HeadOfItems(items);
    ItemPieces(text, at, items);
    var next, used := at + |Print(items[0])|, spent + Count(items[0]);
    Separated(text, next);
    ValueRead(nfc, text, at, spent, depth + 1, items[0]);
    ItemStep(nfc, text, at, spent, depth, done, items[0], next, used);
    if |items| == 1 {
      assert items == [items[0]] && items[1..] == [];
      NoItems();
    } else {
      ItemsRead(nfc, text, next + 1, used, depth, done + [items[0]], items[1..]);
      assert done + [items[0]] + items[1..] == done + items;
    }
  }

  lemma Separated(text: Text, at: nat)
    requires UnitAt(text, at) in {Some(COMMA), Some(CLOSE_ARRAY), Some(CLOSE_RECORD)}
    ensures at < |text| && Delimited(text, at)
  {
  }

  lemma NoItems()
    ensures ItemsCount([]) == 0 && FieldsCount([]) == 0
  {
  }

  lemma OpenRecord(nfc: Text -> bool, text: Text, at: nat, spent: nat, depth: nat, fields: seq<Field>)
    requires fields != [] && LiteralAt(text, at, Print(Record(fields))) && Room(depth, spent, 1, 1)
    ensures LiteralAt(text, at + 1, PrintFields(fields)) && |Print(Record(fields))| == 1 + |PrintFields(fields)|
    ensures ScanValue(nfc, text, at, spent, depth) == ScanFields(nfc, text, at + 1, spent + 1, depth, [])
  {
    hide LiteralAt, PrintFields, ScanItems, ScanFields, ScanString;
    Split(text, at, [OPEN_RECORD], PrintFields(fields));
    Cell(text, at, [OPEN_RECORD], 0);
    FieldsStart(fields);
    Cell(text, at + 1, PrintFields(fields), 0);
  }

  lemma FieldsStart(fields: seq<Field>)
    requires fields != []
    ensures PrintFields(fields) != [] && PrintFields(fields)[0] == QUOTE
  {
    hide QuoteBody, Print;
  }

  lemma {:induction false} RecordRead(nfc: Text -> bool, text: Text, at: nat, spent: nat, depth: nat,
        fields: seq<Field>)
    requires LiteralAt(text, at, Print(Record(fields)))
    requires Admissible(nfc, Record(fields)) && Room(depth, spent, Height(Record(fields)), Count(Record(fields)))
    ensures ScanValue(nfc, text, at, spent, depth)
         == Got(Record(fields), at + |Print(Record(fields))|, spent + Count(Record(fields)))
    decreases fields, 2
  {
    hide LiteralAt, Print, PrintFields, FieldsHeight, FieldsCount, ScanValue, ScanFields;
    if fields == [] {
      EmptyRead(nfc, text, at, spent, depth, Record(fields));
    } else {
      OpenRecord(nfc, text, at, spent, depth, fields);
      assert [] + fields == fields;
      FieldsRead(nfc, text, at + 1, spent + 1, depth, [], fields);
    }
  }

  /** The text of a record's fields, cut at the key, the colon, the value and the separator. */
  lemma FieldPieces(text: Text, at: nat, fields: seq<Field>)
    requires fields != [] && LiteralAt(text, at, PrintFields(fields))
    ensures LiteralAt(text, at, Quote(fields[0].key))
    ensures var colon := at + |Quote(fields[0].key)|; var next := colon + 1 + |Print(fields[0].value)|;
      && UnitAt(text, colon) == Some(COLON)
      && LiteralAt(text, colon + 1, Print(fields[0].value))
      && UnitAt(text, next) == Some(if |fields| == 1 then CLOSE_RECORD else COMMA)
      && (|fields| > 1 ==> LiteralAt(text, next + 1, PrintFields(fields[1..])))
      && at + |PrintFields(fields)| == next + 1 + (if |fields| > 1 then |PrintFields(fields[1..])| else 0)
  {
    hide LiteralAt, Print, Quote;
    var key, value := Quote(fields[0].key), Print(fields[0].value);
    var tail := if |fields| == 1 then [CLOSE_RECORD] else [COMMA] + PrintFields(fields[1..]);
    assert PrintFields(fields) == (key + ([COLON] + value)) + tail;
    hide PrintFields;
    KeyAndValue(text, at, key, value, tail);
    var next := at + |key| + 1 + |value|;
    Cell(text, next, tail, 0);
    if |fields| > 1 { Split(text, next, [COMMA], PrintFields(fields[1..])); }
  }

  lemma KeyAndValue(text: Text, at: nat, key: Text, value: Text, tail: Text)
    requires LiteralAt(text, at, (key + ([COLON] + value)) + tail)
    ensures LiteralAt(text, at, key) && UnitAt(text, at + |key|) == Some(COLON) && LiteralAt(text, at + |key| + 1, value)
    ensures LiteralAt(text, at + |key| + 1 + |value|, tail)
  {
    hide LiteralAt;
    Split(text, at, key + ([COLON] + value), tail);
    Split(text, at, key, [COLON] + value);
    Split(text, at + |key|, [COLON], value);
    Cell(text, at + |key|, [COLON], 0);
  }

  lemma FieldStep(nfc: Text -> bool, text: Text, at: nat, spent: nat, depth: nat, done: seq<Field>, f: Field,
        next: nat, used: nat)
    requires LiteralAt(text, at, Quote(f.key)) && |done| < MAX_RECORD_FIELDS
    requires CheckString(nfc, f.key).None? && !HasKey(done, f.key)
    requires UnitAt(text, at + |Quote(f.key)|) == Some(COLON)
    requires ScanValue(nfc, text, at + |Quote(f.key)| + 1, spent, depth + 1) == Got(f.value, next, used)
    ensures at < |text|
    ensures UnitAt(text, next) == Some(CLOSE_RECORD) ==>
      ScanFields(nfc, text, at, spent, depth, done) == Got(Record(done + [f]), next + 1, used)
    ensures UnitAt(text, next) == Some(COMMA) ==>
      ScanFields(nfc, text, at, spent, depth, done) == ScanFields(nfc, text, next + 1, used, depth, done + [f])
  {
    hide LiteralAt, Print, Quote, PrintFields, ScanValue, Count, HasKey, CheckString, ScanString;
    StringRead(nfc, text, at, spent, f.key);
    assert Field(f.key, f.value) == f;
  }

  lemma KeyIsNew(done: seq<Field>, fields: seq<Field>)
    requires fields != [] && DistinctKeys(done + fields)
    ensures !HasKey(done, fields[0].key)
  {
    forall i | 0 <= i < |done| ensures done[i].key != fields[0].key {
      assert (done + fields)[i] == done[i] && (done + fields)[|done|] == fields[0];
    }
  }

  lemma {:induction false} FieldsRead(nfc: Text -> bool, text: Text, at: nat, spent: nat, depth: nat,
        done: seq<Field>, fields: seq<Field>)
    requires fields != [] && LiteralAt(text, at, PrintFields(fields))
    requires |done| + |fields| <= MAX_RECORD_FIELDS && DistinctKeys(done + fields)
    requires forall i :: 0 <= i < |fields| ==> AdmissibleField(nfc, fields[i])
    requires Room(depth + 1, spent, FieldsHeight(fields), FieldsCount(fields))
    ensures ScanFields(nfc, text, at, spent, depth, done)
         == Got(Record(done + fields), at + |PrintFields(fields)|, spent + FieldsCount(fields))
    decreases fields, 1
  {
    hide LiteralAt, Print, Quote, PrintFields, Height, Count, FieldsHeight, FieldsCount, Admissible, ScanValue, ScanFields,
      CheckString, HasKey, DistinctKeys;
    HeadOfFields(fields);
    FieldPieces(text, at, fields);
    KeyIsNew(done, fields);
    var colon, value := at + |Quote(fields[0].key)|, fields[0].value;
    var next, used := colon + 1 + |Print(value)|, spent + Count(value);
    Separated(text, next);
    ValueRead(nfc, text, colon + 1, spent, depth + 1, value);
    FieldStep(nfc, text, at, spent, depth, done, fields[0], next, used);
    if |fields| == 1 {
      assert fields == [fields[0]] && fields[1..] == [];
      NoItems();
    } else {
      assert done + [fields[0]] + fields[1..] == done + fields;
      FieldsRead(nfc, text, next + 1, used, depth, done + [fields[0]], fields[1..]);
    }
  }

  // ----- What the scanner accepts is within its bounds -----

  lemma StringChecked(nfc: Text -> bool, text: Text, at: nat, spent: nat)
    requires at < |text| && ScanString(nfc, text, at, spent).Got?
    ensures CheckString(nfc, ScanString(nfc, text, at, spent).value).None?
    ensures ScanString(nfc, text, at, spent).spent == spent
  {
    hide StringEnd, Unescape, CheckString;
  }

  lemma {:induction false} ValueBounded(nfc: Text -> bool, text: Text, at: nat, spent: nat, depth: nat)
    requires at <= |text| && ScanValue(nfc, text, at, spent, depth).Got?
    ensures var s := ScanValue(nfc, text, at, spent, depth);
      Admissible(nfc, s.value) && Room(depth, spent, Height(s.value), Count(s.value)) && s.spent == spent + Count(s.value)
    decreases |text| - at, 0
  {
    hide ScanItems, ScanFields, ScanString, NumberEnd, NumeralValue, LiteralAt, CheckString;
    if UnitAt(text, at) == Some(OPEN_RECORD) && UnitAt(text, at + 1) != Some(CLOSE_RECORD) {
      FieldsBounded(nfc, text, at + 1, spent + 1, depth, []);
    } else if UnitAt(text, at) == Some(OPEN_ARRAY) && UnitAt(text, at + 1) != Some(CLOSE_ARRAY) {
      ItemsBounded(nfc, text, at + 1, spent + 1, depth, []);
    } else if UnitAt(text, at) == Some(QUOTE) {
      StringChecked(nfc, text, at, spent + 1);
    }
  }

  lemma AddItem(items: seq<Value>, item: Value)
    ensures ItemsHeight(items + [item]) == Max(ItemsHeight(items), Height(item))
    ensures ItemsCount(items + [item]) == ItemsCount(items) + Count(item)
  {
    hide Height, Count;
    assert (items + [item])[..|items|] == items;
  }

  lemma {:induction false} ItemsBounded(nfc: Text -> bool, text: Text, at: nat, spent: nat, depth: nat,
        items: seq<Value>)
    requires at <= |text| && ScanItems(nfc, text, at, spent, depth, items).Got?
    requires forall i :: 0 <= i < |items| ==> Admissible(nfc, items[i])
    requires depth + 1 + ItemsHeight(items) <= MAX_DEPTH + 1
    ensures var s := ScanItems(nfc, text, at, spent, depth, items);
      && s.value.Array? && Admissible(nfc, s.value) && depth + Height(s.value) <= MAX_DEPTH + 1
      && s.spent == spent + ItemsCount(s.value.items) - ItemsCount(items) <= MAX_VALUES
    decreases |text| - at, 1
  {
    hide ScanValue, ItemsHeight, ItemsCount, Count;
    ValueBounded(nfc, text, at, spent, depth + 1);
    var s := ScanValue(nfc, text, at, spent, depth + 1);
    AddItem(items, s.value);
    if UnitAt(text, s.at) == Some(COMMA) {
      ItemsBounded(nfc, text, s.at + 1, s.spent, depth, items + [s.value]);
    }
  }

  lemma AddField(nfc: Text -> bool, fields: seq<Field>, f: Field)
    requires DistinctKeys(fields) && !HasKey(fields, f.key)
    ensures FieldsHeight(fields + [f]) == Max(FieldsHeight(fields), Height(f.value))
    ensures FieldsCount(fields + [f]) == FieldsCount(fields) + Count(f.value)
    ensures DistinctKeys(fields + [f])
  {
    hide Height, Count;
    assert (fields + [f])[..|fields|] == fields;
  }

  lemma {:induction false} FieldsBounded(nfc: Text -> bool, text: Text, at: nat, spent: nat, depth: nat,
        fields: seq<Field>)
    requires at <= |text| && ScanFields(nfc, text, at, spent, depth, fields).Got?
    requires forall i :: 0 <= i < |fields| ==> AdmissibleField(nfc, fields[i])
    requires DistinctKeys(fields) && depth + 1 + FieldsHeight(fields) <= MAX_DEPTH + 1
    ensures var s := ScanFields(nfc, text, at, spent, depth, fields);
      && s.value.Record? && Admissible(nfc, s.value) && depth + Height(s.value) <= MAX_DEPTH + 1
      && s.spent == spent + FieldsCount(s.value.fields) - FieldsCount(fields) <= MAX_VALUES
    decreases |text| - at, 1
  {
    hide ScanValue, ScanString, FieldsHeight, FieldsCount, Count, CheckString, HasKey, DistinctKeys;
    StringChecked(nfc, text, at, spent);
    var key := ScanString(nfc, text, at, spent);
    ValueBounded(nfc, text, key.at + 1, spent, depth + 1);
    var s := ScanValue(nfc, text, key.at + 1, spent, depth + 1);
    var f := Field(key.value, s.value);
    assert AdmissibleField(nfc, f);
    AddField(nfc, fields, f);
    if UnitAt(text, s.at) == Some(COMMA) {
      FieldsBounded(nfc, text, s.at + 1, s.spent, depth, fields + [f]);
    }
  }

  // ----- Main results -----

  /** The scanner accepts only values within its bounds. */
  lemma AcceptedIsBounded(nfc: Text -> bool, text: Text)
    requires ParseText(nfc, text).Parsed?
    ensures Bounded(nfc, ParseText(nfc, text).value)
  {
    hide Admissible, Height, Count, ScanValue;
    ValueBounded(nfc, text, 0, 0, 1);
  }

  /** Scanning inverts printing exactly on the values within the bounds. */
  lemma PrintedIsReadIffBounded(nfc: Text -> bool, v: Value)
    ensures ParseText(nfc, Print(v)) == Parsed(v) <==> Bounded(nfc, v)
  {
    hide Admissible, Height, Count, ScanValue, Print;
    var text := Print(v);
    if Bounded(nfc, v) {
      assert text[0..|text|] == text;
      ValueRead(nfc, text, 0, 0, 1, v);
    }
    if ParseText(nfc, text) == Parsed(v) {
      AcceptedIsBounded(nfc, text);
    }
  }

  /** Printing what was scanned gives a text that scans to the same value. */
  lemma CanonicalTextIsStable(nfc: Text -> bool, text: Text, v: Value)
    requires ParseText(nfc, text) == Parsed(v)
    ensures ParseText(nfc, Print(v)) == Parsed(v)
  {
    hide ParseText, Bounded;
    AcceptedIsBounded(nfc, text);
    PrintedIsReadIffBounded(nfc, v);
  }
}
