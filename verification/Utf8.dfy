/** UTF-16 text as code units, its UTF-8 bytes with lone surrogates replaced, and the strict decoder that
    refuses every malformed byte. */
module Utf8 {
  import opened Ast

  type Unit = n: int | 0 <= n < 0x10000
  type Text = seq<Unit>
  type Byte = n: int | 0 <= n < 0x100

  /** The code units of an ASCII literal. */
  function Ascii(s: string): (t: Text)
    ensures |t| == |s| && forall i :: 0 <= i < |t| ==> t[i] < 0x80
  {
    seq(|s|, i requires 0 <= i < |s| => if s[i] < 128 as char then s[i] as int else 0x3F)
  }

  predicate High(u: Unit) { 0xD800 <= u < 0xDC00 }

  predicate Low(u: Unit) { 0xDC00 <= u < 0xE000 }

  predicate StartsPair(t: Text) { |t| >= 2 && High(t[0]) && Low(t[1]) }

  /** Every surrogate belongs to a pair. */
  predicate WellFormed(t: Text) {
    t == [] ||
    if StartsPair(t) then WellFormed(t[2..])
    else !High(t[0]) && !Low(t[0]) && WellFormed(t[1..])
  }

  /** A lone surrogate is written as the replacement character. */
  function UnitBytes(u: Unit): (b: seq<Byte>)
    ensures 1 <= |b| <= 3
  {
    if u < 0x80 then [u]
    else if u < 0x800 then [0xC0 + u / 64, 0x80 + u % 64]
    else if High(u) || Low(u) then [0xEF, 0xBF, 0xBD]
    else [0xE0 + u / 4096, 0x80 + u / 64 % 64, 0x80 + u % 64]
  }

  function PairBytes(h: Unit, l: Unit): (b: seq<Byte>)
    requires High(h) && Low(l)
    ensures |b| == 4
  {
    var p := 0x10000 + (h - 0xD800) * 0x400 + (l - 0xDC00);
    [0xF0 + p / 262144, 0x80 + p / 4096 % 64, 0x80 + p / 64 % 64, 0x80 + p % 64]
  }

  function Encode(t: Text): seq<Byte> {
    if t == [] then []
    else if StartsPair(t) then PairBytes(t[0], t[1]) + Encode(t[2..])
    else UnitBytes(t[0]) + Encode(t[1..])
  }

  /** Examples from section 7 of RFC 3629, in code units: one, two and three bytes for a unit, and four for a pair; a
      surrogate on its own is written as U+FFFD. */
  lemma Rfc3629Examples()
    ensures Encode([0x0041, 0x2262, 0x0391, 0x002E]) == [0x41, 0xE2, 0x89, 0xA2, 0xCE, 0x91, 0x2E]
    ensures Encode([0xD84C, 0xDFB4]) == [0xF0, 0xA3, 0x8E, 0xB4]
    ensures Encode([0xDFB4]) == [0xEF, 0xBF, 0xBD]
  {
    NextUnit([0x002E], [], [0x2E], [], [0x2E]);
    NextUnit([0x0391, 0x002E], [0x002E], [0xCE, 0x91], [0x2E], [0xCE, 0x91, 0x2E]);
    NextUnit([0x2262, 0x0391, 0x002E], [0x0391, 0x002E], [0xE2, 0x89, 0xA2], [0xCE, 0x91, 0x2E],
        [0xE2, 0x89, 0xA2, 0xCE, 0x91, 0x2E]);
    NextUnit([0x0041, 0x2262, 0x0391, 0x002E], [0x2262, 0x0391, 0x002E], [0x41], [0xE2, 0x89, 0xA2, 0xCE, 0x91, 0x2E],
             [0x41, 0xE2, 0x89, 0xA2, 0xCE, 0x91, 0x2E]);
    NextUnit([0xDFB4], [], [0xEF, 0xBF, 0xBD], [], [0xEF, 0xBF, 0xBD]);
    OnePair([0xD84C, 0xDFB4]);
    hide Encode;
  }

  lemma NextUnit(t: Text, rest: Text, a: seq<Byte>, b: seq<Byte>, all: seq<Byte>)
    requires t != [] && !StartsPair(t) && t[1..] == rest && UnitBytes(t[0]) == a && Encode(rest) == b && all == a + b
    ensures Encode(t) == all
  {
    hide UnitBytes;
  }

  lemma OnePair(t: Text)
    requires |t| == 2 && StartsPair(t)
    ensures Encode(t) == PairBytes(t[0], t[1])
  {
    hide PairBytes;
    assert t[2..] == [];
  }

  predicate Continues(b: seq<Byte>, i: nat) { i < |b| && 0x80 <= b[i] < 0xC0 }

  /** The six payload bits of a continuation byte. */
  function Six(b: seq<Byte>, i: nat): (r: int)
    requires Continues(b, i)
    ensures 0 <= r < 64
  {
    b[i] - 0x80
  }

  function Scalar(p: int): Text
    requires 0 <= p < 0x110000
  {
    if p < 0x10000 then [p] else [0xD800 + (p - 0x10000) / 0x400, 0xDC00 + (p - 0x10000) % 0x400]
  }

  /** The first scalar value of `b` and the number of bytes it takes. */
  function TakeScalar(b: seq<Byte>): (r: Option<(Text, nat)>)
    requires b != []
    ensures r.Some? ==> 0 < r.value.1 <= |b|
  {
    var a: int := b[0];
    if a < 0x80 then Some(([a], 1))
    else if 0xC2 <= a < 0xE0 && Continues(b, 1) then
      Some(([(a - 0xC0) * 64 + Six(b, 1)], 2))
    else if 0xE0 <= a < 0xF0 && Continues(b, 1) && Continues(b, 2) &&
            (a == 0xE0 ==> b[1] >= 0xA0) && (a == 0xED ==> b[1] < 0xA0) then
      Some(([(a - 0xE0) * 4096 + Six(b, 1) * 64 + Six(b, 2)], 3))
    else if 0xF0 <= a < 0xF5 && Continues(b, 1) && Continues(b, 2) && Continues(b, 3) &&
            (a == 0xF0 ==> b[1] >= 0x90) && (a == 0xF4 ==> b[1] < 0x90) then
      Some((Scalar((a - 0xF0) * 262144 + Six(b, 1) * 4096 + Six(b, 2) * 64 + Six(b, 3)), 4))
    else None
  }

  /** The strict decoder: any malformed byte refuses the whole input. */
  function Decode(b: seq<Byte>): Option<Text> {
    if b == [] then Some([])
    else
      match TakeScalar(b)
      case None => None
      case Some((units, taken)) =>
        (match Decode(b[taken..])
         case None => None
         case Some(rest) => Some(units + rest))
  }

  lemma TakeUnit(u: Unit, rest: seq<Byte>)
    requires !High(u) && !Low(u)
    ensures TakeScalar(UnitBytes(u) + rest) == Some(([u], |UnitBytes(u)|))
  {
    var b := UnitBytes(u) + rest;
    assert forall i :: 0 <= i < |UnitBytes(u)| ==> b[i] == UnitBytes(u)[i];
    if 0x800 <= u {
      assert u == u / 4096 * 4096 + u / 64 % 64 * 64 + u % 64;
    }
  }

  lemma PairParts(p: int)
    requires 0 <= p < 0x110000
    ensures p / 262144 * 262144 + p / 4096 % 64 * 4096 + p / 64 % 64 * 64 + p % 64 == p
  {
    assert p / 64 / 64 == p / 4096 && p / 4096 / 64 == p / 262144;
  }

  lemma TakePair(h: Unit, l: Unit, rest: seq<Byte>)
    requires High(h) && Low(l)
    ensures TakeScalar(PairBytes(h, l) + rest) == Some(([h, l], 4))
  {
    var b := PairBytes(h, l) + rest;
    assert forall i :: 0 <= i < 4 ==> b[i] == PairBytes(h, l)[i];
    var p := 0x10000 + (h - 0xD800) * 0x400 + (l - 0xDC00);
    PairParts(p);
    PairBack(h, l);
  }

  lemma PairBack(h: Unit, l: Unit)
    requires High(h) && Low(l)
    ensures Scalar(0x10000 + (h - 0xD800) * 0x400 + (l - 0xDC00)) == [h, l]
  {
  }

  /** Decoding inverts encoding on every text whose surrogates are paired. */
  lemma {:induction false} DecodeInvertsEncode(t: Text)
    requires WellFormed(t)
    ensures Decode(Encode(t)) == Some(t)
  {
    if t != [] {
      var k := if StartsPair(t) then 2 else 1;
      var head := if k == 2 then PairBytes(t[0], t[1]) else UnitBytes(t[0]);
      DecodeInvertsEncode(t[k..]);
      HeadDecodes(t[..k], head, t[k..]);
      assert t == t[..k] + t[k..];
    }
  }

  lemma HeadDecodes(units: Text, head: seq<Byte>, rest: Text)
    requires Decode(Encode(rest)) == Some(rest)
    requires
      || (|units| == 2 && StartsPair(units) && head == PairBytes(units[0], units[1]))
      || (|units| == 1 && !High(units[0]) && !Low(units[0]) && head == UnitBytes(units[0]))
    ensures Decode(head + Encode(rest)) == Some(units + rest)
  {
    hide Encode, WellFormed, TakeScalar, PairBytes, UnitBytes;
    var b := head + Encode(rest);
    if |units| == 2 {
      TakePair(units[0], units[1], Encode(rest));
      assert [units[0], units[1]] == units;
    } else {
      TakeUnit(units[0], Encode(rest));
      assert [units[0]] == units;
    }
    assert b[|head|..] == Encode(rest);
  }

  lemma {:induction false} WellFormedConcat(a: Text, b: Text)
    requires WellFormed(a) && WellFormed(b)
    ensures WellFormed(a + b)
  {
    if a == [] {
      assert a + b == b;
    } else {
      var k := if StartsPair(a) then 2 else 1;
      WellFormedConcat(a[k..], b);
      assert (a + b)[k..] == a[k..] + b;
    }
  }

  /** Text without control characters has bytes without control characters. */
  lemma {:induction false} NoControlBytes(t: Text)
    requires forall i :: 0 <= i < |t| ==> t[i] >= 0x20
    ensures forall i :: 0 <= i < |Encode(t)| ==> Encode(t)[i] >= 0x20
    ensures t != [] ==> Encode(t) != []
  {
    if t != [] {
      NoControlBytes(t[if StartsPair(t) then 2 else 1..]);
    }
  }

  lemma {:induction false} AsciiLength(t: Text)
    requires forall i :: 0 <= i < |t| ==> t[i] < 0x80
    ensures |Encode(t)| == |t|
  {
    if t != [] { AsciiLength(t[1..]); }
  }

  lemma Digits64(w: int, x: int, y: int, z: int)
    requires 0 <= w && 0 <= x < 64 && 0 <= y < 64 && 0 <= z < 64
    ensures var p := w * 262144 + x * 4096 + y * 64 + z;
      p / 262144 == w && p / 4096 % 64 == x && p / 64 % 64 == y && p % 64 == z
  {
    var p := w * 262144 + x * 4096 + y * 64 + z;
    assert p / 64 == w * 4096 + x * 64 + y;
    assert p / 4096 == w * 64 + x;
  }

  lemma ScalarIsPair(p: int)
    requires 0x10000 <= p < 0x110000
    ensures StartsPair(Scalar(p)) && |Scalar(p)| == 2
    ensures PairBytes(Scalar(p)[0], Scalar(p)[1])
         == [0xF0 + p / 262144, 0x80 + p / 4096 % 64, 0x80 + p / 64 % 64, 0x80 + p % 64]
  {
    var q := p - 0x10000;
    assert q / 0x400 * 0x400 + q % 0x400 == q;
  }

  /** What `TakeScalar` returned, and that the bytes it took are the ones that would be written. */
  ghost predicate WrittenBack(b: seq<Byte>, units: Text, taken: nat) {
    taken <= |b| &&
    ((|units| == 2 && StartsPair(units) && b[..taken] == PairBytes(units[0], units[1])) ||
     (|units| == 1 && !High(units[0]) && !Low(units[0]) && b[..taken] == UnitBytes(units[0])))
  }

  lemma TakenFour(b: seq<Byte>)
    requires b != [] && b[0] >= 0xF0 && TakeScalar(b).Some?
    ensures WrittenBack(b, TakeScalar(b).value.0, TakeScalar(b).value.1)
  {
    var p := (b[0] - 0xF0) * 262144 + Six(b, 1) * 4096 + Six(b, 2) * 64 + Six(b, 3);
    Digits64(b[0] - 0xF0, Six(b, 1), Six(b, 2), Six(b, 3));
    ScalarIsPair(p);
  }

  lemma TakenThree(b: seq<Byte>)
    requires b != [] && 0xE0 <= b[0] < 0xF0 && TakeScalar(b).Some?
    ensures WrittenBack(b, TakeScalar(b).value.0, TakeScalar(b).value.1)
  {
    Digits64(0, b[0] - 0xE0, Six(b, 1), Six(b, 2));
  }

  lemma TakenIsWritten(b: seq<Byte>)
    requires b != [] && TakeScalar(b).Some?
    ensures WrittenBack(b, TakeScalar(b).value.0, TakeScalar(b).value.1)
  {
    if b[0] >= 0xF0 {
      TakenFour(b);
    } else if b[0] >= 0xE0 {
      TakenThree(b);
    }
  }

  /** Whatever the decoder accepts is the encoding of what it returns. */
  lemma {:induction false} EncodeInvertsDecode(b: seq<Byte>)
    requires Decode(b).Some?
    ensures WellFormed(Decode(b).value) && Encode(Decode(b).value) == b
  {
    if b != [] {
      var (units, taken) := TakeScalar(b).value;
      EncodeInvertsDecode(b[taken..]);
      TakenIsWritten(b);
      var rest := Decode(b[taken..]).value;
      assert (units + rest)[|units|..] == rest;
      assert b == b[..taken] + b[taken..];
    }
  }
}
