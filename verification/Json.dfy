/** Canonical JSON text of integer-only values, and the bounded scanner that reads it. */
module Json {
  import opened Ast
  import opened Utf8

  datatype Value =
    | Null
    | Bool(flag: bool)
    | Number(n: int)
    | Str(text: Text)
    | Array(items: seq<Value>)
    | Record(fields: seq<Field>)

  datatype Field = Field(key: Text, value: Value)

  datatype Refusal =
    | DepthBound | ValueBound | ControlCharacter | BadEscape | Truncated | BadString | NotNfc | StringBound
    | BadToken | UnsafeInteger | ArrayBound | ArraySyntax | FieldBound | KeySyntax | DuplicateKey | ColonSyntax
    | ObjectSyntax | Trailing

  const MAX_DEPTH := 64
  const MAX_VALUES := 16384
  const MAX_STRING_BYTES := 65536
  const MAX_ARRAY_ITEMS := 8192
  const MAX_RECORD_FIELDS := 32
  const MAX_SAFE := 0x1F_FFFF_FFFF_FFFF

  const QUOTE: Unit := 0x22
  const BACKSLASH: Unit := 0x5C
  const COMMA: Unit := 0x2C
  const COLON: Unit := 0x3A
  const MINUS: Unit := 0x2D
  const ZERO: Unit := 0x30
  const NINE: Unit := 0x39
  const OPEN_ARRAY: Unit := 0x5B
  const CLOSE_ARRAY: Unit := 0x5D
  const OPEN_RECORD: Unit := 0x7B
  const CLOSE_RECORD: Unit := 0x7D
  const LETTER_U: Unit := 0x75

  const TRUE: Text := [0x74, 0x72, 0x75, 0x65]
  const FALSE: Text := [0x66, 0x61, 0x6C, 0x73, 0x65]
  const NULL: Text := [0x6E, 0x75, 0x6C, 0x6C]

  // ----- Printing -----

  predicate IsDigit(u: Unit) { ZERO <= u <= NINE }

  function Decimal(n: nat): (t: Text)
    ensures t != [] && forall i :: 0 <= i < |t| ==> IsDigit(t[i])
    ensures t[0] == ZERO ==> n == 0
    ensures n == 0 ==> t == [ZERO]
  {
    if n < 10 then [ZERO + n] else Decimal(n / 10) + [ZERO + n % 10]
  }

  function HexDigit(d: nat): Unit
    requires d < 16
  {
    if d < 10 then ZERO + d else 0x61 + d - 10
  }

  function HexEscape(u: Unit): (t: Text)
    ensures |t| == 6
  {
    [BACKSLASH, LETTER_U, HexDigit(u / 4096), HexDigit(u / 256 % 16), HexDigit(u / 16 % 16), HexDigit(u % 16)]
  }

  /** The letter of a two-character escape, for the characters that are printed that way. */
  function ShortLetter(u: Unit): Option<Unit> {
    match u
    case 0x22 => Some(0x22)
    case 0x5C => Some(0x5C)
    case 0x08 => Some(0x62)
    case 0x0C => Some(0x66)
    case 0x0A => Some(0x6E)
    case 0x0D => Some(0x72)
    case 0x09 => Some(0x74)
    case _ => None
  }

  /** Text of one code unit that is not part of a surrogate pair. */
  function UnitText(u: Unit): (t: Text)
    ensures t != []
  {
    if ShortLetter(u).Some? then [BACKSLASH, ShortLetter(u).value]
    else if u < 0x20 || High(u) || Low(u) then HexEscape(u)
    else [u]
  }

  function QuoteBody(s: Text): Text {
    if s == [] then []
    else if StartsPair(s) then s[..2] + QuoteBody(s[2..])
    else UnitText(s[0]) + QuoteBody(s[1..])
  }

  function Quote(s: Text): Text {
    [QUOTE] + (QuoteBody(s) + [QUOTE])
  }

  function PrintNumber(n: int): Text {
    if n < 0 then [MINUS] + Decimal(-n) else Decimal(n)
  }

  function Print(v: Value): Text
    decreases v, 0
  {
    match v
    case Null => NULL
    case Bool(flag) => if flag then TRUE else FALSE
    case Number(n) => PrintNumber(n)
    case Str(s) => Quote(s)
    case Array(items) => [OPEN_ARRAY] + if items == [] then [CLOSE_ARRAY] else PrintItems(items)
    case Record(fields) => [OPEN_RECORD] + if fields == [] then [CLOSE_RECORD] else PrintFields(fields)
  }

  /** Items and the bracket that closes them. */
  function PrintItems(items: seq<Value>): Text
    requires items != []
    decreases items, 1
  {
    Print(items[0]) + if |items| == 1 then [CLOSE_ARRAY] else [COMMA] + PrintItems(items[1..])
  }

  function PrintField(f: Field): Text
    decreases f, 1
  {
    Quote(f.key) + ([COLON] + Print(f.value))
  }

  function PrintFields(fields: seq<Field>): Text
    requires fields != []
    decreases fields, 1
  {
    PrintField(fields[0]) + if |fields| == 1 then [CLOSE_RECORD] else [COMMA] + PrintFields(fields[1..])
  }

  // ----- Scanning -----

  datatype Scan<T> = Got(value: T, at: nat, spent: nat) | Refused(why: Refusal)

  datatype Ended = Ended(at: nat) | Broken(why: Refusal)

  function UnitAt(text: Text, at: nat): Option<Unit> {
    if at < |text| then Some(text[at]) else None
  }

  predicate IsHex(u: Unit) { IsDigit(u) || 0x41 <= u <= 0x46 || 0x61 <= u <= 0x66 }

  function HexValue(u: Unit): (d: nat)
    requires IsHex(u)
    ensures d < 16
  {
    if IsDigit(u) then u - ZERO else if u <= 0x46 then u - 0x41 + 10 else u - 0x61 + 10
  }

  predicate FourHex(text: Text, at: nat) {
    at + 4 <= |text| && forall i :: at <= i < at + 4 ==> IsHex(text[i])
  }

  /** What an escape letter stands for. */
  function ShortValue(u: Unit): Option<Unit> {
    match u
    case 0x22 => Some(0x22)
    case 0x5C => Some(0x5C)
    case 0x2F => Some(0x2F)
    case 0x62 => Some(0x08)
    case 0x66 => Some(0x0C)
    case 0x6E => Some(0x0A)
    case 0x72 => Some(0x0D)
    case 0x74 => Some(0x09)
    case _ => None
  }

  /** Position after the closing quote of the string whose characters start at `at`. */
  function StringEnd(text: Text, at: nat): (r: Ended)
    ensures r.Ended? ==> at < r.at <= |text| && text[r.at - 1] == QUOTE
    decreases |text| - at
  {
    if at >= |text| then Broken(Truncated)
    else if text[at] == QUOTE then Ended(at + 1)
    else if text[at] < 0x20 then Broken(ControlCharacter)
    else if text[at] == BACKSLASH then
      if UnitAt(text, at + 1) == Some(LETTER_U) then
        if FourHex(text, at + 2) then StringEnd(text, at + 6) else Broken(BadEscape)
      else if at + 1 < |text| && ShortValue(text[at + 1]).Some? then StringEnd(text, at + 2)
      else Broken(BadEscape)
    else StringEnd(text, at + 1)
  }

  /** Decodes the characters between two quotes (section 7 of RFC 8259). */
  function Unescape(body: Text): Option<Text> {
    if body == [] then Some([])
    else if body[0] == QUOTE || body[0] < 0x20 then None
    else if body[0] != BACKSLASH then Then(body[0], Unescape(body[1..]))
    else if |body| == 1 then None
    else if body[1] == LETTER_U then
      if FourHex(body, 2) then Then(HexUnit(body), Unescape(body[6..])) else None
    else if ShortValue(body[1]).Some? then Then(ShortValue(body[1]).value, Unescape(body[2..]))
    else None
  }

  function Then(u: Unit, rest: Option<Text>): Option<Text> {
    match rest
    case None => None
    case Some(t) => Some([u] + t)
  }

  function HexUnit(body: Text): Unit
    requires FourHex(body, 2)
  {
    HexValue(body[2]) * 4096 + HexValue(body[3]) * 256 + HexValue(body[4]) * 16 + HexValue(body[5])
  }

  function CheckString(nfc: Text -> bool, s: Text): Option<Refusal> {
    if !nfc(s) then Some(NotNfc)
    else if |Encode(s)| > MAX_STRING_BYTES then Some(StringBound)
    else None
  }

  function ScanString(nfc: Text -> bool, text: Text, at: nat, spent: nat): (r: Scan<Text>)
    requires at < |text|
    ensures r.Got? ==> at < r.at <= |text|
  {
    match StringEnd(text, at + 1)
    case Broken(why) => Refused(why)
    case Ended(end) =>
      match Unescape(text[at + 1..end - 1])
      case None => Refused(BadString)
      case Some(s) =>
        match CheckString(nfc, s)
        case Some(why) => Refused(why)
        case None => Got(s, end, spent)
  }

  function DigitsEnd(text: Text, at: nat): (r: nat)
    requires at <= |text|
    ensures at <= r <= |text| && (r < |text| ==> !IsDigit(text[r]))
    ensures forall i :: at <= i < r ==> IsDigit(text[i])
    decreases |text| - at
  {
    if at < |text| && IsDigit(text[at]) then DigitsEnd(text, at + 1) else at
  }

  /** End of the longest integer literal at `at`: no leading zeros, an optional minus. */
  function NumberEnd(text: Text, at: nat): (r: Option<nat>)
    requires at <= |text|
    ensures r.Some? ==> at < r.value <= |text|
    ensures r.Some? ==> IsNumeral(text[at..r.value])
  {
    var start := if UnitAt(text, at) == Some(MINUS) then at + 1 else at;
    if start == |text| || !IsDigit(text[start]) then None
    else if text[start] == ZERO then Some(start + 1)
    else Some(DigitsEnd(text, start + 1))
  }

  predicate IsNumeral(t: Text) {
    t != [] && (IsDigit(t[0]) || (t[0] == MINUS && |t| > 1)) && forall i :: 1 <= i < |t| ==> IsDigit(t[i])
  }

  function DigitOf(u: Unit): (d: nat)
    requires IsDigit(u)
    ensures d < 10
  {
    u - ZERO
  }

  function DigitsValue(t: Text): nat
    requires forall i :: 0 <= i < |t| ==> IsDigit(t[i])
  {
    if t == [] then 0 else DigitsValue(t[..|t| - 1]) * 10 + DigitOf(t[|t| - 1])
  }

  function NumeralValue(t: Text): int
    requires IsNumeral(t)
  {
    if t[0] == MINUS then 0 - DigitsValue(t[1..]) else DigitsValue(t)
  }

  predicate IsSafe(n: int) { -MAX_SAFE <= n <= MAX_SAFE }

  function ScanNumber(text: Text, at: nat, spent: nat): (r: Scan<Value>)
    requires at <= |text|
    ensures r.Got? ==> at < r.at <= |text|
  {
    match NumberEnd(text, at)
    case None => Refused(BadToken)
    case Some(end) =>
      if IsSafe(NumeralValue(text[at..end])) then Got(Number(NumeralValue(text[at..end])), end, spent)
      else Refused(UnsafeInteger)
  }

  predicate LiteralAt(text: Text, at: nat, literal: Text) {
    at + |literal| <= |text| && text[at..at + |literal|] == literal
  }

  /** One value: it costs one unit of the budget, whatever it holds. */
  function ScanValue(nfc: Text -> bool, text: Text, at: nat, spent: nat, depth: nat): (r: Scan<Value>)
    requires at <= |text|
    ensures r.Got? ==> at < r.at <= |text|
    decreases |text| - at, 0
  {
    if depth > MAX_DEPTH then Refused(DepthBound)
    else if spent + 1 > MAX_VALUES then Refused(ValueBound)
    else if UnitAt(text, at) == Some(OPEN_RECORD) then
      if UnitAt(text, at + 1) == Some(CLOSE_RECORD) then Got(Record([]), at + 2, spent + 1)
      else ScanFields(nfc, text, at + 1, spent + 1, depth, [])
    else if UnitAt(text, at) == Some(OPEN_ARRAY) then
      if UnitAt(text, at + 1) == Some(CLOSE_ARRAY) then Got(Array([]), at + 2, spent + 1)
      else ScanItems(nfc, text, at + 1, spent + 1, depth, [])
    else if UnitAt(text, at) == Some(QUOTE) then
      (match ScanString(nfc, text, at, spent + 1)
       case Refused(why) => Refused(why)
       case Got(s, next, left) => Got(Str(s), next, left))
    else if LiteralAt(text, at, TRUE) then Got(Bool(true), at + 4, spent + 1)
    else if LiteralAt(text, at, FALSE) then Got(Bool(false), at + 5, spent + 1)
    else if LiteralAt(text, at, NULL) then Got(Null, at + 4, spent + 1)
    else ScanNumber(text, at, spent + 1)
  }

  /** The remaining items of an array, after the ones already read. */
  function ScanItems(nfc: Text -> bool, text: Text, at: nat, spent: nat, depth: nat,
        items: seq<Value>): (r: Scan<Value>)
    requires at <= |text|
    ensures r.Got? ==> at < r.at <= |text|
    decreases |text| - at, 1
  {
    if |items| >= MAX_ARRAY_ITEMS then Refused(ArrayBound)
    else
      match ScanValue(nfc, text, at, spent, depth + 1)
      case Refused(why) => Refused(why)
      case Got(item, next, used) =>
        if UnitAt(text, next) == Some(CLOSE_ARRAY) then Got(Array(items + [item]), next + 1, used)
        else if UnitAt(text, next) == Some(COMMA) then ScanItems(nfc, text, next + 1, used, depth, items + [item])
        else Refused(ArraySyntax)
  }

  predicate HasKey(fields: seq<Field>, key: Text) {
    exists i :: 0 <= i < |fields| && fields[i].key == key
  }

  /** The remaining fields of a record, after the ones already read. */
  function ScanFields(nfc: Text -> bool, text: Text, at: nat, spent: nat, depth: nat,
        fields: seq<Field>): (r: Scan<Value>)
    requires at <= |text|
    ensures r.Got? ==> at < r.at <= |text|
    decreases |text| - at, 1
  {
    if |fields| >= MAX_RECORD_FIELDS then Refused(FieldBound)
    else if UnitAt(text, at) != Some(QUOTE) then Refused(KeySyntax)
    else
      match ScanString(nfc, text, at, spent)
      case Refused(why) => Refused(why)
      case Got(key, colon, _) =>
        if HasKey(fields, key) then Refused(DuplicateKey)
        else if UnitAt(text, colon) != Some(COLON) then Refused(ColonSyntax)
        else
          match ScanValue(nfc, text, colon + 1, spent, depth + 1)
          case Refused(why) => Refused(why)
          case Got(value, next, used) =>
            if UnitAt(text, next) == Some(CLOSE_RECORD) then Got(Record(fields + [Field(key, value)]), next + 1, used)
            else if UnitAt(text, next) == Some(COMMA) then
              ScanFields(nfc, text, next + 1, used, depth, fields + [Field(key, value)])
            else Refused(ObjectSyntax)
  }

  datatype Parsed = Parsed(value: Value) | Rejected(why: Refusal)

  function ParseText(nfc: Text -> bool, text: Text): Parsed {
    match ScanValue(nfc, text, 0, 0, 1)
    case Refused(why) => Rejected(why)
    case Got(value, at, _) => if at == |text| then Parsed(value) else Rejected(Trailing)
  }

  // ----- The scanner -----

  datatype Outcome<T> = Done(value: T) | Stop(why: Refusal)

  /** A method that stopped at `at` having spent `spent` did what `s` says. */
  ghost predicate Did<T>(r: Outcome<T>, at: nat, spent: nat, s: Scan<T>) {
    match s
    case Got(value, next, used) => r == Done(value) && at == next && spent == used
    case Refused(why) => r == Stop(why)
  }

  class JsonScanner {
    const nfc: Text -> bool
    const source: Text
    var index: nat
    var values: nat

    constructor (nfc: Text -> bool, source: Text)
      ensures this.nfc == nfc && this.source == source && index == 0 && values == 0
    {
      this.nfc := nfc;
      this.source := source;
      index := 0;
      values := 0;
    }

    method Parse() returns (r: Parsed)
      requires index == 0 && values == 0
      modifies this
      ensures r == ParseText(nfc, source)
    {
      var value := ParseValue(1);
      match value
      case Stop(why) => r := Rejected(why);
      case Done(v) => r := if index != |source| then Rejected(Trailing) else Parsed(v);
    }

    method Spend(depth: nat) returns (r: Option<Refusal>)
      modifies this`values
      ensures depth > MAX_DEPTH ==> r == Some(DepthBound)
      ensures depth <= MAX_DEPTH && old(values) + 1 > MAX_VALUES ==> r == Some(ValueBound)
      ensures depth <= MAX_DEPTH && old(values) + 1 <= MAX_VALUES ==> r == None && values == old(values) + 1
    {
      if depth > MAX_DEPTH { return Some(DepthBound); }
      values := values + 1;
      r := if values > MAX_VALUES then Some(ValueBound) else None;
    }

    method ParseValue(depth: nat) returns (r: Outcome<Value>)
      requires index <= |source|
      modifies this`index, this`values
      ensures Did(r, index, values, old(ScanValue(nfc, source, index, values, depth)))
      decreases |source| - index, 1
    {
      var bound := Spend(depth);
      if bound.Some? { return Stop(bound.value); }
      var current := UnitAt(source, index);
      if current == Some(OPEN_RECORD) {
        r := ParseObject(depth);
      } else if current == Some(OPEN_ARRAY) {
        r := ParseArray(depth);
      } else if current == Some(QUOTE) {
        var s := ParseString();
        r := match s case Stop(why) => Stop(why) case Done(t) => Done(Str(t));
      } else {
        r := ParseToken(current);
      }
    }

    /** Literals, each tried only after its first letter, then numbers. */
    method ParseToken(current: Option<Unit>) returns (r: Outcome<Value>)
      requires index <= |source| && current == UnitAt(source, index)
      modifies this`index
      ensures Did(r, index, values, old(
        if LiteralAt(source, index, TRUE) then Got(Bool(true), index + 4, values)
        else if LiteralAt(source, index, FALSE) then Got(Bool(false), index + 5, values)
        else if LiteralAt(source, index, NULL) then Got(Null, index + 4, values)
        else ScanNumber(source, index, values)))
    {
      ghost var at := index;
      FirstLetter(source, index, TRUE);
      FirstLetter(source, index, FALSE);
      FirstLetter(source, index, NULL);
      if current == Some(0x74) {
        var taken := TakeLiteral(TRUE);
        if taken { return Done(Bool(true)); }
      }
      if current == Some(0x66) {
        var taken := TakeLiteral(FALSE);
        if taken { return Done(Bool(false)); }
      }
      if current == Some(0x6E) {
        var taken := TakeLiteral(NULL);
        if taken { return Done(Null); }
      }
      r := ParseNumber();
    }

    method TakeLiteral(literal: Text) returns (taken: bool)
      modifies this`index
      ensures taken == old(LiteralAt(source, index, literal))
      ensures index == if taken then old(index) + |literal| else old(index)
    {
      if !LiteralAt(source, index, literal) { return false; }
      index := index + |literal|;
      taken := true;
    }

    method ParseString() returns (r: Outcome<Text>)
      requires index < |source|
      modifies this`index
      ensures Did(r, index, values, old(ScanString(nfc, source, index, values)))
    {
      hide Unescape, CheckString, FourHex, ShortValue;
      var start := index;
      index := index + 1;
      while index < |source|
        invariant start < index
        invariant StringEnd(source, index) == StringEnd(source, start + 1)
        decreases |source| - index
      {
        var code := source[index];
        if code == QUOTE {
          index := index + 1;
          var decoded := Unescape(source[start + 1..index - 1]);
          if decoded.None? { return Stop(BadString); }
          var wrong := CheckString(nfc, decoded.value);
          return if wrong.Some? then Stop(wrong.value) else Done(decoded.value);
        }
        if code < 0x20 { return Stop(ControlCharacter); }
        if code == BACKSLASH {
          index := index + 1;
          var escaped := UnitAt(source, index);
          if escaped == Some(LETTER_U) {
            if !FourHex(source, index + 1) { return Stop(BadEscape); }
            index := index + 5;
            continue;
          }
          if escaped.None? || ShortValue(escaped.value).None? { return Stop(BadEscape); }
        }
        index := index + 1;
      }
      r := Stop(Truncated);
    }

    method ParseNumber() returns (r: Outcome<Value>)
      requires index <= |source|
      modifies this`index
      ensures Did(r, index, values, old(ScanNumber(source, index, values)))
    {
      var end := NumberEnd(source, index);
      if end.None? { return Stop(BadToken); }
      var value := NumeralValue(source[index..end.value]);
      index := end.value;
      r := if IsSafe(value) then Done(Number(value)) else Stop(UnsafeInteger);
    }

    method ParseArray(depth: nat) returns (r: Outcome<Value>)
      requires UnitAt(source, index) == Some(OPEN_ARRAY)
      modifies this`index, this`values
      ensures Did(r, index, values, old(
        if UnitAt(source, index + 1) == Some(CLOSE_ARRAY) then Got(Array([]), index + 2, values)
        else ScanItems(nfc, source, index + 1, values, depth, [])))
      decreases |source| - index, 0
    {
      ghost var from, spent := index, values;
      index := index + 1;
      var items: seq<Value> := [];
      if UnitAt(source, index) == Some(CLOSE_ARRAY) {
        index := index + 1;
        return Done(Array(items));
      }
      while true
        invariant from < index <= |source|
        invariant ScanItems(nfc, source, index, values, depth, items) == ScanItems(nfc, source, from + 1, spent, depth, [])
        decreases |source| - index
      {
        if |items| >= MAX_ARRAY_ITEMS { return Stop(ArrayBound); }
        var item := ParseValue(depth + 1);
        if item.Stop? { return Stop(item.why); }
        items := items + [item.value];
        var separator := UnitAt(source, index);
        index := index + 1;
        if separator == Some(CLOSE_ARRAY) { return Done(Array(items)); }
        if separator != Some(COMMA) { return Stop(ArraySyntax); }
      }
    }

    method ParseObject(depth: nat) returns (r: Outcome<Value>)
      requires UnitAt(source, index) == Some(OPEN_RECORD)
      modifies this`index, this`values
      ensures Did(r, index, values, old(
        if UnitAt(source, index + 1) == Some(CLOSE_RECORD) then Got(Record([]), index + 2, values)
        else ScanFields(nfc, source, index + 1, values, depth, [])))
      decreases |source| - index, 0
    {
      hide ScanString, ScanValue, HasKey;
      ghost var from, spent := index, values;
      index := index + 1;
      var fields: seq<Field> := [];
      if UnitAt(source, index) == Some(CLOSE_RECORD) {
        index := index + 1;
        return Done(Record(fields));
      }
      while true
        invariant from < index <= |source|
        invariant ScanFields(nfc, source, index, values, depth, fields) == ScanFields(nfc, source, from + 1, spent, depth, [])
        decreases |source| - index
      {
        if |fields| >= MAX_RECORD_FIELDS { return Stop(FieldBound); }
        if UnitAt(source, index) != Some(QUOTE) { return Stop(KeySyntax); }
        var key := ParseString();
        if key.Stop? { return Stop(key.why); }
        if HasKey(fields, key.value) { return Stop(DuplicateKey); }
        if UnitAt(source, index) != Some(COLON) { return Stop(ColonSyntax); }
        index := index + 1;
        var value := ParseValue(depth + 1);
        if value.Stop? { return Stop(value.why); }
        fields := fields + [Field(key.value, value.value)];
        var separator := UnitAt(source, index);
        index := index + 1;
        if separator == Some(CLOSE_RECORD) { return Done(Record(fields)); }
        if separator != Some(COMMA) { return Stop(ObjectSyntax); }
      }
    }
  }

  lemma FirstLetter(text: Text, at: nat, literal: Text)
    requires literal != []
    ensures LiteralAt(text, at, literal) ==> UnitAt(text, at) == Some(literal[0])
  {
    if LiteralAt(text, at, literal) {
      assert text[at] == text[at..at + |literal|][0];
    }
  }
}
