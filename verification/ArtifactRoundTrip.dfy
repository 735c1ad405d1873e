/** Decoding an artifact inverts encoding, and accepts nothing else. */
module ArtifactRoundTrip {
  import opened Ast
  import opened Utf8
  import opened Json
  import opened JsonRoundTrip
  import opened Artifact
  import opened ArtifactTree
  import opened ArtifactCodec

  /** Text with paired surrogates and no control characters. */
  predicate Plain(t: Text) {
    WellFormed(t) && forall i :: 0 <= i < |t| ==> t[i] >= 0x20
  }

  lemma PlainConcat(a: Text, b: Text)
    requires Plain(a) && Plain(b)
    ensures Plain(a + b)
  {
    hide WellFormed;
    WellFormedConcat(a, b);
  }

  lemma {:induction false} PlainWithoutSurrogates(t: Text)
    requires forall i :: 0 <= i < |t| ==> 0x20 <= t[i] < 0xD800
    ensures Plain(t)
  {
    if t != [] { PlainWithoutSurrogates(t[1..]); }
  }

  lemma PlainUnit(u: Unit)
    ensures Plain(UnitText(u))
  {
    hide Plain;
    if ShortLetter(u).Some? || u < 0x20 || High(u) || Low(u) {
      PlainWithoutSurrogates(UnitText(u));
    } else {
      PlainOne(u);
    }
  }

  lemma PlainOne(u: Unit)
    requires u >= 0x20 && !High(u) && !Low(u)
    ensures Plain([u])
  {
    assert [u][1..] == [];
  }

  lemma PlainPair(s: Text)
    requires StartsPair(s)
    ensures Plain(s[..2])
  {
    assert s[..2][2..] == [];
  }

  lemma {:induction false} PlainQuote(s: Text)
    ensures Plain(QuoteBody(s))
  {
    hide Plain, UnitText;
    if s == [] {
      PlainWithoutSurrogates([]);
    } else if StartsPair(s) {
      PlainPair(s);
      PlainQuote(s[2..]);
      PlainConcat(s[..2], QuoteBody(s[2..]));
    } else {
      PlainUnit(s[0]);
      PlainQuote(s[1..]);
      PlainConcat(UnitText(s[0]), QuoteBody(s[1..]));
    }
  }

  lemma PlainString(s: Text)
    ensures Plain(Quote(s))
  {
    hide Plain, QuoteBody;
    PlainQuote(s);
    PlainWithoutSurrogates([QUOTE]);
    PlainConcat(QuoteBody(s), [QUOTE]);
    PlainConcat([QUOTE], QuoteBody(s) + [QUOTE]);
  }

  lemma PlainNumber(n: int)
    ensures Plain(PrintNumber(n))
  {
    hide Plain, Decimal;
    PlainWithoutSurrogates(PrintNumber(n));
  }

  lemma PlainMarks()
    ensures Plain([OPEN_ARRAY]) && Plain([CLOSE_ARRAY]) && Plain([OPEN_RECORD]) && Plain([CLOSE_RECORD])
    ensures Plain([COMMA]) && Plain([COLON]) && Plain(NULL) && Plain(TRUE) && Plain(FALSE)
  {
    hide Plain;
    PlainWithoutSurrogates([OPEN_ARRAY]);
    PlainWithoutSurrogates([CLOSE_ARRAY]);
    PlainWithoutSurrogates([OPEN_RECORD]);
    PlainWithoutSurrogates([CLOSE_RECORD]);
    PlainWithoutSurrogates([COMMA]);
    PlainWithoutSurrogates([COLON]);
    PlainWithoutSurrogates(NULL);
    PlainWithoutSurrogates(TRUE);
    PlainWithoutSurrogates(FALSE);
  }

  /** Canonical text is well-formed and holds no control character, whatever the strings in it hold. */
  lemma {:induction false} PrintIsPlain(v: Value)
    ensures Plain(Print(v))
    decreases v, 0
  {
    hide Plain, PrintItems, PrintFields, Quote, PrintNumber;
    PlainMarks();
    match v
    case Null | Bool(_) =>
    case Number(n) => PlainNumber(n);
    case Str(s) => PlainString(s);
    case Array(items) =>
      if items == [] {
        PlainConcat([OPEN_ARRAY], [CLOSE_ARRAY]);
      } else {
        ItemsArePlain(items);
        PlainConcat([OPEN_ARRAY], PrintItems(items));
      }
    case Record(fields) =>
      if fields == [] {
        PlainConcat([OPEN_RECORD], [CLOSE_RECORD]);
      } else {
        FieldsArePlain(fields);
        PlainConcat([OPEN_RECORD], PrintFields(fields));
      }
  }

  lemma {:induction false} ItemsArePlain(items: seq<Value>)
    requires items != []
    ensures Plain(PrintItems(items))
    decreases items, 1
  {
    hide Plain, Print;
    PlainMarks();
    PrintIsPlain(items[0]);
    if |items| == 1 {
      PlainConcat(Print(items[0]), [CLOSE_ARRAY]);
    } else {
      ItemsArePlain(items[1..]);
      PlainConcat([COMMA], PrintItems(items[1..]));
      PlainConcat(Print(items[0]), [COMMA] + PrintItems(items[1..]));
    }
  }

  lemma {:induction false} FieldsArePlain(fields: seq<Field>)
    requires fields != []
    ensures Plain(PrintFields(fields))
    decreases fields, 1
  {
    hide Plain, Print, Quote;
    PlainMarks();
    PlainString(fields[0].key);
    PrintIsPlain(fields[0].value);
    PlainConcat([COLON], Print(fields[0].value));
    PlainConcat(Quote(fields[0].key), [COLON] + Print(fields[0].value));
    if |fields| == 1 {
      PlainConcat(PrintField(fields[0]), [CLOSE_RECORD]);
    } else {
      FieldsArePlain(fields[1..]);
      PlainConcat([COMMA], PrintFields(fields[1..]));
      PlainConcat(PrintField(fields[0]), [COMMA] + PrintFields(fields[1..]));
    }
  }

  // ----- The bytes of an artifact pass every check before the scanner -----

  lemma {:induction false} EncodeConcat(a: Text, b: Text)
    requires WellFormed(a)
    ensures Encode(a + b) == Encode(a) + Encode(b)
  {
    hide PairBytes, UnitBytes;
    if a == [] {
      assert a + b == b;
    } else {
      var k := if StartsPair(a) then 2 else 1;
      EncodeConcat(a[k..], b);
      EncodeHead(a, k, b);
      EncodeHead(a, k, []);
      assert a + [] == a && a[k..] + [] == a[k..];
    }
  }

  lemma EncodeHead(a: Text, k: nat, b: Text)
    requires a != [] && WellFormed(a) && k == if StartsPair(a) then 2 else 1
    ensures Encode(a + b) == (if k == 2 then PairBytes(a[0], a[1]) else UnitBytes(a[0])) + Encode(a[k..] + b)
  {
    hide PairBytes, UnitBytes;
    assert (a + b)[k..] == a[k..] + b;
  }

  lemma BytesSplit(text: Text)
    requires Plain(text)
    ensures Encode(text + [LINE_FEED]) == Encode(text) + [LINE_FEED]
    ensures forall i :: 0 <= i < |Encode(text)| ==> Encode(text)[i] >= 0x20
  {
    EncodeConcat(text, [LINE_FEED]);
    NoControlBytes(text);
    assert [LINE_FEED][1..] == [];
  }

  lemma FirstByte(text: Text)
    requires text != [] && text[0] == OPEN_RECORD
    ensures Encode(text) != [] && Encode(text)[0] == OPEN_RECORD
  {
  }

  lemma ArtifactTextStart(a: Artifact)
    ensures Print(ToValue(a)) != [] && Print(ToValue(a))[0] == OPEN_RECORD
  {
    hide Parts, PrintFields;
  }

  /** What the checks before the scanner see of the bytes of an artifact. */
  lemma BytesArePresentable(a: Artifact)
    ensures var b := ArtifactBytes(a);
      |b| >= 2 && !HasMark(b) && EndsInOneLine(b) && 0x0D !in b && Decode(b[..|b| - 1]) == Some(Print(ToValue(a)))
  {
    hide Encode, Print, ToValue, Decode, WellFormed;
    var text := Print(ToValue(a));
    PrintIsPlain(ToValue(a));
    BytesSplit(text);
    ArtifactTextStart(a);
    FirstByte(text);
    DecodeInvertsEncode(text);
    assert ArtifactBytes(a)[..|ArtifactBytes(a)| - 1] == Encode(text);
  }

  // ----- Main results -----

  /** The artifacts that validation returns. */
  predicate Valid(nfc: Text -> bool, a: Artifact) {
    Validate(nfc, ToValue(a)) == Some(a)
  }

  /** The text of a valid artifact is read back as its canonical value. */
  lemma ArtifactTextReads(nfc: Text -> bool, a: Artifact)
    requires AsciiIsNormal(nfc) && Valid(nfc, a)
    ensures ParseText(nfc, Print(ToValue(a))) == Parsed(ToValue(a))
  {
    hide AsciiIsNormal, Validate, Bounded, ParseText, Print, ToValue;
    CanonicalIsBounded(nfc, ToValue(a), a);
    PrintedIsReadIffBounded(nfc, ToValue(a));
  }

  lemma EncodedIsDecoded(nfc: Text -> bool, a: Artifact)
    requires AsciiIsNormal(nfc) && Valid(nfc, a) && InByteBound(ArtifactBytes(a))
    ensures DecodeArtifact(nfc, ArtifactBytes(a)) == Decoded(a)
  {
    hide AsciiIsNormal, Validate, ParseText, Print, ToValue, ArtifactBytes, HasMark, EndsInOneLine, Decode;
    BytesArePresentable(a);
    ArtifactTextReads(nfc, a);
  }

  /** Decoding accepts exactly the byte strings that encoding produces for valid artifacts. */
  lemma DecodeAcceptsExactly(nfc: Text -> bool, b: seq<Byte>, a: Artifact)
    requires AsciiIsNormal(nfc)
    ensures DecodeArtifact(nfc, b) == Decoded(a) <==> Valid(nfc, a) && EncodeArtifact(nfc, ToValue(a)) == Bytes(b)
  {
    hide AsciiIsNormal, Validate, ParseText, Print, ToValue, ArtifactBytes, HasMark, EndsInOneLine, Decode;
    if DecodeArtifact(nfc, b) == Decoded(a) {
      var v := ParseText(nfc, Decode(b[..|b| - 1]).value).value;
      ValidateIsIdempotent(nfc, v, a);
    }
    if Valid(nfc, a) && EncodeArtifact(nfc, ToValue(a)) == Bytes(b) {
      EncodedIsDecoded(nfc, a);
    }
  }

  /** Whatever value was encoded, decoding its bytes gives its canonical copy. */
  lemma DecodeAfterEncode(nfc: Text -> bool, v: Value, b: seq<Byte>)
    requires AsciiIsNormal(nfc) && EncodeArtifact(nfc, v) == Bytes(b)
    ensures Validate(nfc, v).Some? && DecodeArtifact(nfc, b) == Decoded(Validate(nfc, v).value)
  {
    hide AsciiIsNormal, Validate, ToValue, ArtifactBytes, InByteBound, DecodeArtifact;
    ValidateIsIdempotent(nfc, v, Validate(nfc, v).value);
    EncodedIsDecoded(nfc, Validate(nfc, v).value);
  }

  /** Two byte strings that decode to the same artifact are the same. */
  lemma DecodeIsInjective(nfc: Text -> bool, b: seq<Byte>, c: seq<Byte>, a: Artifact)
    requires AsciiIsNormal(nfc) && DecodeArtifact(nfc, b) == Decoded(a) && DecodeArtifact(nfc, c) == Decoded(a)
    ensures b == c
  {
    hide AsciiIsNormal, DecodeArtifact, EncodeArtifact, Valid;
    DecodeAcceptsExactly(nfc, b, a);
    DecodeAcceptsExactly(nfc, c, a);
  }
}
