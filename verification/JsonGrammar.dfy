/** Which texts are JSON (RFC 8259, without white space and with integers only), read off their code units: the scanner
    accepts exactly those that mean a value within its bounds. */
module JsonGrammar {
  import opened Ast
  import opened Utf8
  import opened Json
  import opened JsonRoundTrip

  // ----- The grammar -----

  /** What a letter after a reverse solidus stands for (section 7 of RFC 8259). */
  predicate LetterMeans(letter: Unit, u: Unit) {
    || (letter == 0x22 && u == 0x22) || (letter == 0x5C && u == 0x5C) || (letter == 0x2F && u == 0x2F)
    || (letter == 0x62 && u == 8) || (letter == 0x66 && u == 12) || (letter == 0x6E && u == 10)
    || (letter == 0x72 && u == 13) || (letter == 0x74 && u == 9)
  }

  /** The value of a hexadecimal digit of either case. */
  predicate Nibble(digit: Unit, d: int) {
    (0x30 <= digit <= 0x39 && d == digit - 48) || (0x41 <= digit <= 0x46 && d == digit - 55)
        || (0x61 <= digit <= 0x66 && d == digit - 87)
  }

  /** The text of one code unit inside a string: itself, a letter escape, or four hexadecimal digits. */
  ghost predicate CharText(piece: Text, u: Unit) {
    || (|piece| == 1 && piece[0] == u && u >= 0x20 && u != 0x22 && u != 0x5C)
    || (|piece| == 2 && piece[0] == 0x5C && LetterMeans(piece[1], u))
    || (|piece| == 6 && piece[0] == 0x5C && piece[1] == 0x75 && HexText(piece, u))
  }

  ghost predicate HexText(piece: Text, u: Unit)
    requires |piece| == 6
  {
    exists a, b, c, d :: Nibble(piece[2], a) && Nibble(piece[3], b) && Nibble(piece[4], c) && Nibble(piece[5], d)
                     && u == 4096 * a + 256 * b + 16 * c + d
  }

  /** The characters between two quotes spell this string. */
  ghost predicate Spells(body: Text, s: Text)
    decreases |s|
  {
    if s == [] then body == []
    else exists k :: 0 < k <= |body| && CharText(body[..k], s[0]) && Spells(body[k..], s[1..])
  }

  ghost predicate QuotedText(text: Text, from: nat, end: nat, s: Text) {
    from + 2 <= end <= |text| && text[from] == 0x22 && text[end - 1] == 0x22 && Spells(text[from + 1..end - 1], s)
  }

  function TenValue(digits: Text): int {
    if digits == [] then 0 else 10 * TenValue(digits[..|digits| - 1]) + digits[|digits| - 1] - 48
  }

  /** Decimal digits with no needless leading zero. */
  predicate DigitsText(digits: Text) {
    digits != [] && (digits[0] == 0x30 ==> |digits| == 1) && forall i :: 0 <= i < |digits| ==> 0x30 <= digits[i] <= 0x39
  }

  predicate NumeralText(t: Text, n: int) {
    if t != [] && t[0] == 0x2D then DigitsText(t[1..]) && n == 0 - TenValue(t[1..])
    else DigitsText(t) && n == TenValue(t)
  }

  ghost predicate ValueText(text: Text, from: nat, end: nat, v: Value)
    decreases v, 0
  {
    && from < end <= |text|
    && match v
       case Null => text[from..end] == [0x6E, 0x75, 0x6C, 0x6C]
       case Bool(flag) => text[from..end] == if flag then [0x74, 0x72, 0x75, 0x65] else [0x66, 0x61, 0x6C, 0x73, 0x65]
       case Number(n) => NumeralText(text[from..end], n)
       case Str(s) => QuotedText(text, from, end, s)
       case Array(items) =>
         && text[from] == 0x5B && text[end - 1] == 0x5D
         && if items == [] then end == from + 2 else ItemsText(text, from + 1, end - 1, items)
       case Record(fields) =>
         && text[from] == 0x7B && text[end - 1] == 0x7D
         && if fields == [] then end == from + 2 else FieldsText(text, from + 1, end - 1, fields)
  }

  /** Items with commas between them. */
  ghost predicate ItemsText(text: Text, from: nat, end: nat, items: seq<Value>)
    requires items != []
    decreases items, 1
  {
    if |items| == 1 then ValueText(text, from, end, items[0])
    else exists comma: nat :: comma < end <= |text| && text[comma] == 0x2C
                           && ValueText(text, from, comma, items[0]) && ItemsText(text, comma + 1, end, items[1..])
  }

  ghost predicate FieldText(text: Text, from: nat, end: nat, f: Field)
    decreases f, 1
  {
    exists colon: nat :: colon < end <= |text| && text[colon] == 0x3A
                      && QuotedText(text, from, colon, f.key) && ValueText(text, colon + 1, end, f.value)
  }

  /** Keys and values with commas between them. */
  ghost predicate FieldsText(text: Text, from: nat, end: nat, fields: seq<Field>)
    requires fields != []
    decreases fields, 2
  {
    if |fields| == 1 then FieldText(text, from, end, fields[0])
    else exists comma: nat :: comma < end <= |text| && text[comma] == 0x2C
                           && FieldText(text, from, comma, fields[0]) && FieldsText(text, comma + 1, end, fields[1..])
  }

  // ----- Strings -----

  lemma LetterIff(letter: Unit, u: Unit)
    ensures ShortValue(letter) == Some(u) <==> LetterMeans(letter, u)
  {
  }

  lemma NibbleIff(digit: Unit, d: int)
    ensures IsHex(digit) && HexValue(digit) == d <==> Nibble(digit, d)
  {
  }

  lemma HexIff(piece: Text, u: Unit)
    requires |piece| == 6
    ensures FourHex(piece, 2) && HexUnit(piece) == u <==> HexText(piece, u)
  {
    hide IsHex, HexValue, Nibble;
    forall i, d | 2 <= i < 6 ensures IsHex(piece[i]) && HexValue(piece[i]) == d <==> Nibble(piece[i], d) {
      NibbleIff(piece[i], d);
    }
    if FourHex(piece, 2) && HexUnit(piece) == u {
      assert Nibble(piece[2], HexValue(piece[2])) && Nibble(piece[3], HexValue(piece[3]))
          && Nibble(piece[4], HexValue(piece[4])) && Nibble(piece[5], HexValue(piece[5]));
    }
  }

  /** How many units the first character of the body takes. */
  function Width(body: Text): nat
    requires body != []
  {
    if body[0] != BACKSLASH then 1 else if |body| > 1 && body[1] == LETTER_U then 6 else 2
  }

  /** Decoding the first character. */
  lemma FirstChar(body: Text, s: Text)
    requires body != []
    ensures Unescape(body) == Some(s)
       <==> s != [] && Width(body) <= |body| && CharText(body[..Width(body)], s[0]) && Unescape(body[Width(body)..]) == Some(s[1..])
  {
    var k := Width(body);
    if k == 6 && |body| >= 6 {
      if s != [] { HexIff(body[..6], s[0]); }
      SameHex(body);
      LetterIff(LETTER_U, 0);
    } else if k == 2 && |body| >= 2 && s != [] {
      LetterIff(body[1], s[0]);
    }
    hide HexText, FourHex, HexUnit, LetterMeans, ShortValue;
    if s != [] { assert s == [s[0]] + s[1..]; }
    if k <= |body| && Unescape(body[k..]).Some? { AfterFirst(body[0], Unescape(body[k..]).value); }
  }

  lemma AfterFirst(u: Unit, t: Text)
    ensures forall v :: ([v] + t)[1..] == t
  {
  }

  lemma SameHex(body: Text)
    requires |body| >= 6
    ensures FourHex(body, 2) == FourHex(body[..6], 2) && (FourHex(body, 2) ==> HexUnit(body) == HexUnit(body[..6]))
  {
  }

  lemma OneWidth(body: Text, k: nat, u: Unit)
    requires 0 < k <= |body| && CharText(body[..k], u)
    ensures k == Width(body)
  {
    hide HexText;
    var piece := body[..k];
    assert piece[0] == body[0];
    if k > 1 { assert piece[1] == body[1]; }
  }

  /** Decoding is what the grammar says, character by character. */
  lemma {:induction false} SpellsIff(body: Text, s: Text)
    ensures Unescape(body) == Some(s) <==> Spells(body, s)
    decreases |body|
  {
    hide CharText, Unescape;
    if body == [] {
      EmptyBody();
    } else {
      FirstChar(body, s);
      var k := Width(body);
      if s != [] && k <= |body| { SpellsIff(body[k..], s[1..]); }
      if s != [] && Spells(body, s) {
        var j :| 0 < j <= |body| && CharText(body[..j], s[0]) && Spells(body[j..], s[1..]);
        OneWidth(body, j, s[0]);
      }
    }
  }

  lemma EmptyBody()
    ensures Unescape([]) == Some([])
  {
  }

  lemma {:induction false} StringCloses(text: Text, at: nat, end: nat)
    requires at <= end < |text| && text[end] == QUOTE && Unescape(text[at..end]).Some?
    ensures StringEnd(text, at) == Ended(end + 1)
    decreases end - at
  {
    if at < end {
      var body := text[at..end];
      var k := Width(body);
      FirstChar(body, Unescape(body).value);
      assert body[0] == text[at] && body[k..] == text[at + k..end];
      if k > 1 { assert body[1] == text[at + 1]; }
      StringCloses(text, at + k, end);
      CharSkipped(text, at, end, k);
    }
  }

  lemma CharSkipped(text: Text, at: nat, end: nat, k: nat)
    requires at < end < |text| && k == Width(text[at..end]) && at + k <= end && Unescape(text[at..end]).Some?
    ensures StringEnd(text, at) == StringEnd(text, at + k)
  {
    var body := text[at..end];
    HeadOfBody(body);
    assert body[0] == text[at];
    if k > 1 { assert body[1] == text[at + 1]; }
    if k == 6 { HexMoved(text, at, end); }
    hide Unescape, FourHex, ShortValue;
    EscapeSkipped(text, at, k);
  }

  lemma HexMoved(text: Text, at: nat, end: nat)
    requires at + 6 <= end <= |text| && FourHex(text[at..end], 2)
    ensures FourHex(text, at + 2)
  {
    hide IsHex;
    assert forall i :: 2 <= i < 6 ==> text[at..end][i] == text[at + i];
  }

  lemma EscapeSkipped(text: Text, at: nat, k: nat)
    requires at < |text| && text[at] >= 0x20 && text[at] != QUOTE && k in {1, 2, 6}
        && (k == 1 <==> text[at] != BACKSLASH)
    requires k > 1 ==> at + 1 < |text| && (k == 6 <==> text[at + 1] == LETTER_U)
    requires k == 2 ==> ShortValue(text[at + 1]).Some?
    requires k == 6 ==> FourHex(text, at + 2)
    ensures StringEnd(text, at) == StringEnd(text, at + k)
  {
    hide FourHex, ShortValue;
  }

  lemma HeadOfBody(body: Text)
    requires body != [] && Unescape(body).Some?
    ensures body[0] != QUOTE && body[0] >= 0x20 && Width(body) <= |body|
    ensures Width(body) == 2 ==> ShortValue(body[1]).Some?
    ensures Width(body) == 6 ==> FourHex(body, 2)
  {
    hide IsHex;
  }

  /** The scanner reads a string exactly where a quoted text within its checks stands. */
  lemma StringIff(nfc: Text -> bool, text: Text, at: nat, spent: nat, end: nat, s: Text)
    requires at < |text| && text[at] == QUOTE
    ensures ScanString(nfc, text, at, spent) == Got(s, end, spent)
        <==> QuotedText(text, at, end, s) && CheckString(nfc, s).None?
  {
    hide StringEnd, Unescape, CheckString, Spells;
    if StringEnd(text, at + 1).Ended? { ScannedStringsDecode(text, at + 1); }
    if at + 2 <= end <= |text| {
      SpellsIff(text[at + 1..end - 1], s);
      if text[end - 1] == QUOTE && Unescape(text[at + 1..end - 1]).Some? { StringCloses(text, at + 1, end - 1); }
    }
  }

  // ----- Numbers -----

  lemma {:induction false} TenIs(t: Text)
    requires forall i :: 0 <= i < |t| ==> IsDigit(t[i])
    ensures DigitsValue(t) == TenValue(t)
  {
    if t != [] { TenIs(t[..|t| - 1]); }
  }

  lemma NumeralIff(t: Text, n: int)
    ensures NumeralText(t, n) ==> IsNumeral(t) && NumeralValue(t) == n
  {
    hide DigitsValue, TenValue;
    if NumeralText(t, n) { TenIs(if t[0] == MINUS then t[1..] else t); }
  }

  /** Where the scanner stops reading a number, a whole numeral ends. */
  lemma NumberMeans(text: Text, at: nat)
    requires at <= |text| && NumberEnd(text, at).Some?
    ensures NumeralText(text[at..NumberEnd(text, at).value], NumeralValue(text[at..NumberEnd(text, at).value]))
  {
    hide TenValue, DigitsValue;
    var end := NumberEnd(text, at).value;
    var t := text[at..end];
    var start := if text[at] == MINUS then at + 1 else at;
    var digits := text[start..end];
    assert digits == if t[0] == MINUS then t[1..] else t;
    assert forall i :: 0 <= i < |digits| ==> digits[i] == text[start + i];
    TenIs(digits);
  }

  lemma NumberAccepted(text: Text, at: nat, end: nat, n: int)
    requires at < end <= |text| && NumeralText(text[at..end], n) && Delimited(text, end)
    ensures NumberEnd(text, at) == Some(end) && NumeralValue(text[at..end]) == n
    ensures text[at] == MINUS || IsDigit(text[at])
  {
    hide TenValue, DigitsValue, NumeralValue;
    var t := text[at..end];
    NumeralIff(t, n);
    assert t[0] == text[at];
    var start := if text[at] == MINUS then at + 1 else at;
    var digits := text[start..end];
    assert digits == if t[0] == MINUS then t[1..] else t;
    assert forall i :: 0 <= i < |digits| ==> digits[i] == text[start + i];
    if digits[0] != ZERO {
      forall i | start + 1 <= i < end ensures IsDigit(text[i]) { assert digits[i - start] == text[i]; }
      DigitsRun(text, start + 1, end);
    }
    hide DigitsEnd;
  }

  // ----- What the scanner accepts means what it read -----

  lemma {:induction false} ValueMeans(nfc: Text -> bool, text: Text, at: nat, spent: nat, depth: nat)
    requires at <= |text| && ScanValue(nfc, text, at, spent, depth).Got?
    ensures var s := ScanValue(nfc, text, at, spent, depth); ValueText(text, at, s.at, s.value)
    decreases |text| - at, 0
  {
    hide ScanItems, ScanFields, ScanString, NumberEnd, NumeralValue, NumeralText, QuotedText, ItemsText, FieldsText;
    if UnitAt(text, at) == Some(OPEN_RECORD) {
      if UnitAt(text, at + 1) != Some(CLOSE_RECORD) {
        var more := FieldsMean(nfc, text, at + 1, spent + 1, depth, []);
        NoneBefore(more, []);
      }
    } else if UnitAt(text, at) == Some(OPEN_ARRAY) {
      if UnitAt(text, at + 1) != Some(CLOSE_ARRAY) {
        var more := ItemsMean(nfc, text, at + 1, spent + 1, depth, []);
        NoneBefore([], more);
      }
    } else if UnitAt(text, at) == Some(QUOTE) {
      var s := ScanString(nfc, text, at, spent + 1);
      StringChecked(nfc, text, at, spent + 1);
      StringIff(nfc, text, at, spent + 1, s.at, s.value);
    } else if !LiteralAt(text, at, TRUE) && !LiteralAt(text, at, FALSE) && !LiteralAt(text, at, NULL) {
      NumberMeans(text, at);
    }
  }

  lemma NoneBefore(fields: seq<Field>, items: seq<Value>)
    ensures [] + fields == fields && [] + items == items
  {
  }

  lemma {:induction false} ItemsMean(nfc: Text -> bool, text: Text, at: nat, spent: nat, depth: nat, done: seq<Value>)
    returns (more: seq<Value>)
    requires at <= |text| && ScanItems(nfc, text, at, spent, depth, done).Got?
    ensures var s := ScanItems(nfc, text, at, spent, depth, done);
            && more != [] && s.value == Array(done + more) && text[s.at - 1] == 0x5D
                && ItemsText(text, at, s.at - 1, more)
    decreases |text| - at, 1
  {
    hide ScanValue, ValueText;
    ValueMeans(nfc, text, at, spent, depth + 1);
    var v := ScanValue(nfc, text, at, spent, depth + 1);
    if UnitAt(text, v.at) == Some(CLOSE_ARRAY) {
      more := [v.value];
    } else {
      var rest := ItemsMean(nfc, text, v.at + 1, v.spent, depth, done + [v.value]);
      more := [v.value] + rest;
      assert done + [v.value] + rest == done + more;
      hide ItemsText;
      OneMoreItem(text, at, v.at, ScanItems(nfc, text, at, spent, depth, done).at - 1, v.value, rest);
    }
  }

  lemma ItemsFit(text: Text, from: nat, end: nat, items: seq<Value>)
    requires items != [] && ItemsText(text, from, end, items)
    ensures from < end <= |text|
  {
  }

  lemma FieldsFit(text: Text, from: nat, end: nat, fields: seq<Field>)
    requires fields != [] && FieldsText(text, from, end, fields)
    ensures from < end <= |text|
  {
    hide Spells, ValueText;
  }

  lemma OneMoreItem(text: Text, at: nat, comma: nat, end: nat, v: Value, rest: seq<Value>)
    requires ValueText(text, at, comma, v) && comma < |text| && text[comma] == 0x2C && rest != []
        && ItemsText(text, comma + 1, end, rest)
    ensures ItemsText(text, at, end, [v] + rest)
  {
    ItemsFit(text, comma + 1, end, rest);
    hide ValueText;
    assert ([v] + rest)[1..] == rest;
  }

  lemma OneMoreField(text: Text, at: nat, comma: nat, end: nat, f: Field, rest: seq<Field>)
    requires FieldText(text, at, comma, f) && comma < |text| && text[comma] == 0x2C && rest != []
        && FieldsText(text, comma + 1, end, rest)
    ensures FieldsText(text, at, end, [f] + rest)
  {
    FieldsFit(text, comma + 1, end, rest);
    hide FieldText;
    assert ([f] + rest)[1..] == rest;
  }

  lemma OneField(text: Text, at: nat, colon: nat, end: nat, f: Field)
    requires colon < end <= |text| && text[colon] == 0x3A && QuotedText(text, at, colon, f.key)
        && ValueText(text, colon + 1, end, f.value)
    ensures FieldText(text, at, end, f) && FieldsText(text, at, end, [f])
  {
    hide QuotedText, ValueText;
  }

  lemma {:induction false} FieldsMean(nfc: Text -> bool, text: Text, at: nat, spent: nat, depth: nat, done: seq<Field>)
    returns (more: seq<Field>)
    requires at <= |text| && ScanFields(nfc, text, at, spent, depth, done).Got?
    ensures var s := ScanFields(nfc, text, at, spent, depth, done);
            && more != [] && s.value == Record(done + more) && text[s.at - 1] == 0x7D
                && FieldsText(text, at, s.at - 1, more)
    decreases |text| - at, 1
  {
    hide ScanValue, ValueText, ScanString, QuotedText, HasKey, FieldsText;
    var key := ScanString(nfc, text, at, spent);
    StringChecked(nfc, text, at, spent);
    StringIff(nfc, text, at, spent, key.at, key.value);
    ValueMeans(nfc, text, key.at + 1, spent, depth + 1);
    var v := ScanValue(nfc, text, key.at + 1, spent, depth + 1);
    var f := Field(key.value, v.value);
    OneField(text, at, key.at, v.at, f);
    hide FieldText;
    if UnitAt(text, v.at) == Some(CLOSE_RECORD) {
      more := [f];
    } else {
      var rest := FieldsMean(nfc, text, v.at + 1, v.spent, depth, done + [f]);
      more := [f] + rest;
      assert done + [f] + rest == done + more;
      OneMoreField(text, at, v.at, ScanFields(nfc, text, at, spent, depth, done).at - 1, f, rest);
    }
  }

  // ----- The scanner accepts every text that means a bounded value -----

  /** A value does not start with a closing bracket, and a number starts with a digit or a minus sign. */
  lemma ValueStarts(text: Text, from: nat, end: nat, v: Value)
    requires ValueText(text, from, end, v)
    ensures from < end <= |text| && text[from] != CLOSE_ARRAY
  {
    hide Spells, ItemsText, FieldsText, TenValue;
    assert text[from..end][0] == text[from];
  }

  lemma FirstIs(text: Text, from: nat, end: nat, t: Text)
    requires from < end <= |text| && text[from..end] == t
    ensures t != [] && text[from] == t[0] && LiteralAt(text, from, t) && end == from + |t|
  {
  }

  lemma ScalarAccepted(nfc: Text -> bool, text: Text, from: nat, end: nat, v: Value, spent: nat, depth: nat)
    requires !v.Array? && !v.Record? && ValueText(text, from, end, v) && Delimited(text, end)
    requires Admissible(nfc, v) && Room(depth, spent, 1, 1)
    ensures from <= |text| && ScanValue(nfc, text, from, spent, depth) == Got(v, end, spent + 1)
  {
    hide ScanItems, ScanFields, ScanString, NumberEnd, NumeralValue, NumeralText, QuotedText, CheckString;
    match v
    case Null => FirstIs(text, from, end, NULL); FirstLetter(text, from, TRUE); FirstLetter(text, from, FALSE);
    case Bool(flag) => FirstIs(text, from, end, if flag then TRUE else FALSE); FirstLetter(text, from, TRUE);
    case Number(n) =>
      NumberAccepted(text, from, end, n);
      FirstLetter(text, from, TRUE);
      FirstLetter(text, from, FALSE);
      FirstLetter(text, from, NULL);
    case Str(s) =>
      QuoteFirst(text, from, end, s);
      StringIff(nfc, text, from, spent + 1, end, s);
  }

  lemma QuoteFirst(text: Text, from: nat, end: nat, s: Text)
    requires QuotedText(text, from, end, s)
    ensures from < |text| && text[from] == QUOTE && from + 2 <= end <= |text|
  {
    hide Spells;
  }

  lemma {:induction false} ValueAccepted(nfc: Text -> bool, text: Text, from: nat, end: nat, v: Value, spent: nat,
        depth: nat)
    requires ValueText(text, from, end, v) && Delimited(text, end)
    requires Admissible(nfc, v) && Room(depth, spent, Height(v), Count(v))
    ensures from <= |text| && ScanValue(nfc, text, from, spent, depth) == Got(v, end, spent + Count(v))
    decreases v, 0
  {
    if v.Array? {
      ArrayAccepted(nfc, text, from, end, v, spent, depth);
    } else if v.Record? {
      RecordAccepted(nfc, text, from, end, v, spent, depth);
    } else {
      hide Admissible, ScanValue, ValueText;
      ScalarCost(v);
      ScalarAccepted(nfc, text, from, end, v, spent, depth);
    }
  }

  lemma {:induction false} ArrayAccepted(nfc: Text -> bool, text: Text, from: nat, end: nat, v: Value, spent: nat,
        depth: nat)
    requires v.Array? && ValueText(text, from, end, v)
    requires Admissible(nfc, v) && Room(depth, spent, Height(v), Count(v))
    ensures from <= |text| && ScanValue(nfc, text, from, spent, depth) == Got(v, end, spent + Count(v))
    decreases v.items, 2
  {
    hide ScanItems, ScanFields, ScanString, ItemsText, ItemsHeight, ItemsCount;
    if v.items == [] {
      NoItems();
    } else {
      ItemsOpen(text, from + 1, end - 1, v.items);
      ItemsAccepted(nfc, text, from + 1, end - 1, v.items, spent + 1, depth, []);
      NoneBefore([], v.items);
    }
  }

  lemma ItemsOpen(text: Text, from: nat, end: nat, items: seq<Value>)
    requires items != [] && ItemsText(text, from, end, items)
    ensures from < end <= |text| && text[from] != CLOSE_ARRAY
  {
    if |items| == 1 {
      ValueStarts(text, from, end, items[0]);
    } else {
      var comma: nat :| comma < end <= |text| && text[comma] == 0x2C
                     && ValueText(text, from, comma, items[0]) && ItemsText(text, comma + 1, end, items[1..]);
      ValueStarts(text, from, comma, items[0]);
    }
  }

  lemma {:induction false} ItemsAccepted(nfc: Text -> bool, text: Text, from: nat, end: nat, items: seq<Value>,
        spent: nat, depth: nat,
        done: seq<Value>)
    requires items != [] && ItemsText(text, from, end, items) && end < |text| && text[end] == CLOSE_ARRAY
    requires |done| + |items| <= MAX_ARRAY_ITEMS && forall i :: 0 <= i < |items| ==> Admissible(nfc, items[i])
    requires Room(depth + 1, spent, ItemsHeight(items), ItemsCount(items))
    ensures from <= |text| && ScanItems(nfc, text, from, spent, depth, done)
        == Got(Array(done + items), end + 1, spent + ItemsCount(items))
    decreases items, 1
  {
    hide ValueText, Height, Count, ItemsHeight, ItemsCount, Admissible, ScanValue, ScanItems;
    HeadOfItems(items);
    if |items| == 1 {
      ValueAccepted(nfc, text, from, end, items[0], spent, depth + 1);
      ItemStep(nfc, text, from, spent, depth, done, items[0], end, spent + Count(items[0]));
      assert items == [items[0]] && items[1..] == [];
      NoItems();
    } else {
      var comma: nat :| comma < end <= |text| && text[comma] == 0x2C
                     && ValueText(text, from, comma, items[0]) && ItemsText(text, comma + 1, end, items[1..]);
      hide ItemsText;
      ValueAccepted(nfc, text, from, comma, items[0], spent, depth + 1);
      var used := spent + Count(items[0]);
      ItemStep(nfc, text, from, spent, depth, done, items[0], comma, used);
      ItemsAccepted(nfc, text, comma + 1, end, items[1..], used, depth, done + [items[0]]);
      assert done + [items[0]] + items[1..] == done + items;
    }
  }

  lemma {:induction false} RecordAccepted(nfc: Text -> bool, text: Text, from: nat, end: nat, v: Value, spent: nat,
        depth: nat)
    requires v.Record? && ValueText(text, from, end, v)
    requires Admissible(nfc, v) && Room(depth, spent, Height(v), Count(v))
    ensures from <= |text| && ScanValue(nfc, text, from, spent, depth) == Got(v, end, spent + Count(v))
    decreases v.fields, 3
  {
    hide ScanItems, ScanFields, ScanString, FieldsText, FieldsHeight, FieldsCount, AdmissibleField;
    if v.fields == [] {
      NoItems();
    } else {
      FieldsOpen(text, from + 1, end - 1, v.fields);
      FieldsAccepted(nfc, text, from + 1, end - 1, v.fields, spent + 1, depth, []);
      NoneBefore(v.fields, []);
    }
  }

  lemma FieldsOpen(text: Text, from: nat, end: nat, fields: seq<Field>)
    requires fields != [] && FieldsText(text, from, end, fields)
    ensures from < end <= |text| && text[from] == QUOTE
  {
    hide Spells, ValueText;
  }

  lemma FieldAccepted(nfc: Text -> bool, text: Text, from: nat, end: nat, f: Field, spent: nat, depth: nat,
        done: seq<Field>, colon: nat,
        used: nat)
    requires colon < end <= |text| && text[colon] == 0x3A && QuotedText(text, from, colon, f.key)
        && CheckString(nfc, f.key).None?
    requires ScanValue(nfc, text, colon + 1, spent, depth + 1) == Got(f.value, end, used)
    requires |done| < MAX_RECORD_FIELDS && !HasKey(done, f.key)
    ensures from < |text|
    ensures UnitAt(text, end) == Some(CLOSE_RECORD) ==>
      ScanFields(nfc, text, from, spent, depth, done) == Got(Record(done + [f]), end + 1, used)
    ensures UnitAt(text, end) == Some(COMMA) ==>
      ScanFields(nfc, text, from, spent, depth, done) == ScanFields(nfc, text, end + 1, used, depth, done + [f])
  {
    hide QuotedText, CheckString, ScanValue, ScanString, HasKey;
    QuoteFirst(text, from, colon, f.key);
    StringIff(nfc, text, from, spent, colon, f.key);
  }

  lemma {:induction false} FieldsAccepted(nfc: Text -> bool, text: Text, from: nat, end: nat, fields: seq<Field>,
        spent: nat, depth: nat,
        done: seq<Field>)
    requires fields != [] && FieldsText(text, from, end, fields) && end < |text| && text[end] == CLOSE_RECORD
    requires |done| + |fields| <= MAX_RECORD_FIELDS && DistinctKeys(done + fields)
    requires forall i :: 0 <= i < |fields| ==> AdmissibleField(nfc, fields[i])
    requires Room(depth + 1, spent, FieldsHeight(fields), FieldsCount(fields))
    ensures from <= |text| && ScanFields(nfc, text, from, spent, depth, done)
        == Got(Record(done + fields), end + 1, spent + FieldsCount(fields))
    decreases fields, 2
  {
    hide QuotedText, ValueText, Height, Count, FieldsHeight, FieldsCount, Admissible, ScanValue, ScanFields,
        CheckString, HasKey, DistinctKeys;
    HeadOfFields(fields);
    KeyIsNew(done, fields);
    var f := fields[0];
    assert AdmissibleField(nfc, f);
    var used := spent + Count(f.value);
    if |fields| == 1 {
      var colon: nat :| colon < end <= |text| && text[colon] == 0x3A && QuotedText(text, from, colon, f.key)
          && ValueText(text, colon + 1, end, f.value);
      hide FieldsText;
      ValueAccepted(nfc, text, colon + 1, end, f.value, spent, depth + 1);
      FieldAccepted(nfc, text, from, end, f, spent, depth, done, colon, used);
      assert fields == [f] && fields[1..] == [];
      NoItems();
    } else {
      var comma: nat :| comma < end <= |text| && text[comma] == 0x2C
                     && FieldText(text, from, comma, f) && FieldsText(text, comma + 1, end, fields[1..]);
      var colon: nat :| colon < comma <= |text| && text[colon] == 0x3A && QuotedText(text, from, colon, f.key)
                     && ValueText(text, colon + 1, comma, f.value);
      hide FieldsText, FieldText;
      ValueAccepted(nfc, text, colon + 1, comma, f.value, spent, depth + 1);
      FieldAccepted(nfc, text, from, comma, f, spent, depth, done, colon, used);
      assert done + [f] + fields[1..] == done + fields;
      FieldsAccepted(nfc, text, comma + 1, end, fields[1..], used, depth, done + [f]);
    }
  }

  /** The scanner accepts exactly the texts that mean a value within its bounds, and returns that value. */
  lemma ParsedIff(nfc: Text -> bool, text: Text, v: Value)
    ensures ParseText(nfc, text) == Parsed(v) <==> ValueText(text, 0, |text|, v) && Bounded(nfc, v)
  {
    hide Admissible, Height, Count, ScanValue, ValueText;
    if ParseText(nfc, text) == Parsed(v) {
      AcceptedIsBounded(nfc, text);
      ValueMeans(nfc, text, 0, 0, 1);
    }
    if ValueText(text, 0, |text|, v) && Bounded(nfc, v) { ValueAccepted(nfc, text, 0, |text|, v, 0, 1); }
  }

  /** What the printer writes for a value within the bounds means that value. */
  lemma PrintedMeans(nfc: Text -> bool, v: Value)
    requires Bounded(nfc, v)
    ensures ValueText(Print(v), 0, |Print(v)|, v)
  {
    hide Bounded, ParseText, ValueText, Print;
    PrintedIsReadIffBounded(nfc, v);
    ParsedIff(nfc, Print(v), v);
  }
}
