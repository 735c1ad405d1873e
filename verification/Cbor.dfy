/** Deterministic CBOR: shortest-form encoding (section 4.2.1 of RFC 8949) and the strict decoder that inverts it. */
module Cbor {
  import opened Ast
  import opened Utf8

  datatype Item =
    | Int(n: int)
    | Str(text: Text)
    | Array(items: seq<Item>)
    | Map(entries: seq<Entry>)

  datatype Entry = Entry(key: Item, value: Item)

  const MAX_ARGUMENT := 0x7FFF_FFFF

  const INT: nat := 0
  const NEGATIVE: nat := 1
  const STRING: nat := 3
  const ARRAY: nat := 4
  const MAP: nat := 5

  // ----- Encoding -----

  function Bytes32(v: nat): (b: seq<Byte>)
    requires v <= MAX_ARGUMENT
    ensures |b| == 4
  {
    [v / 0x1000000 % 256, v / 0x10000 % 256, v / 0x100 % 256, v % 256]
  }

  /** The initial byte and argument, in the fewest bytes; no encoding outside the argument range. */
  function Head(major: nat, value: int): (r: Option<seq<Byte>>)
    requires major < 8
    ensures r.Some? <==> 0 <= value <= MAX_ARGUMENT
    ensures r.Some? ==> r.value != []
  {
    if value < 0 || value > MAX_ARGUMENT then None
    else if value < 24 then Some([major * 32 + value])
    else if value < 0x100 then Some([major * 32 + 24, value])
    else if value < 0x10000 then Some([major * 32 + 25, value / 0x100, value % 0x100])
    else Some([major * 32 + 26] + Bytes32(value))
  }

  function Append(a: Option<seq<Byte>>, b: Option<seq<Byte>>): Option<seq<Byte>> {
    if a.Some? && b.Some? then Some(a.value + b.value) else None
  }

  function EncodeItem(item: Item): (r: Option<seq<Byte>>)
    ensures r.Some? ==> r.value != []
    decreases item, 0
  {
    match item
    case Int(n) => if n >= 0 then Head(INT, n) else Head(NEGATIVE, -1 - n)
    case Str(t) => Append(Head(STRING, |Encode(t)|), Some(Encode(t)))
    case Array(items) => Append(Head(ARRAY, |items|), EncodeItems(items))
    case Map(entries) => Append(Head(MAP, |entries|), EncodeEntries(entries))
  }

  function EncodeItems(items: seq<Item>): Option<seq<Byte>>
    decreases items, 1
  {
    if items == [] then Some([]) else Append(EncodeItem(items[0]), EncodeItems(items[1..]))
  }

  function EncodeEntry(e: Entry): (r: Option<seq<Byte>>)
    ensures r.Some? ==> r.value != []
    decreases e, 1
  {
    Append(EncodeItem(e.key), EncodeItem(e.value))
  }

  function EncodeEntries(entries: seq<Entry>): Option<seq<Byte>>
    decreases entries, 1
  {
    if entries == [] then Some([]) else Append(EncodeEntry(entries[0]), EncodeEntries(entries[1..]))
  }

  /** Examples from appendix A of RFC 8949: they fix the major types and the order of the bytes. */
  lemma AppendixA()
    ensures EncodeItem(Int(10)) == Some([0x0A]) && EncodeItem(Int(24)) == Some([0x18, 0x18])
    ensures EncodeItem(Int(1000)) == Some([0x19, 0x03, 0xE8])
        && EncodeItem(Int(1000000)) == Some([0x1A, 0x00, 0x0F, 0x42, 0x40])
    ensures EncodeItem(Int(-10)) == Some([0x29]) && EncodeItem(Int(-1000)) == Some([0x39, 0x03, 0xE7])
  {
    assert Bytes32(1000000) == [0x00, 0x0F, 0x42, 0x40];
    Headed(Some([0x1A]), [0x1A], Bytes32(1000000), [0x1A, 0x00, 0x0F, 0x42, 0x40]);
  }

  lemma AppendixAStructures()
    ensures EncodeItem(Str([0x61])) == Some([0x61, 0x61])
    ensures EncodeItem(Array([Int(1), Int(2), Int(3)])) == Some([0x83, 0x01, 0x02, 0x03])
    ensures EncodeItem(Map([Entry(Int(1), Int(2)), Entry(Int(3), Int(4))])) == Some([0xA2, 0x01, 0x02, 0x03, 0x04])
  {
    NextItem([Int(3)], 3, [], [], [3]);
    NextItem([Int(2), Int(3)], 2, [Int(3)], [3], [2, 3]);
    NextItem([Int(1), Int(2), Int(3)], 1, [Int(2), Int(3)], [2, 3], [1, 2, 3]);
    NextEntry([Entry(Int(3), Int(4))], 3, 4, [], [], [3, 4]);
    NextEntry([Entry(Int(1), Int(2)), Entry(Int(3), Int(4))], 1, 2, [Entry(Int(3), Int(4))], [3, 4], [1, 2, 3, 4]);
    assert [0x61][1..] == [] && Encode([0x61]) == [0x61];
    Headed(Head(STRING, 1), [0x61], [0x61], [0x61, 0x61]);
    Headed(Head(ARRAY, 3), [0x83], [1, 2, 3], [0x83, 0x01, 0x02, 0x03]);
    Headed(Head(MAP, 2), [0xA2], [1, 2, 3, 4], [0xA2, 0x01, 0x02, 0x03, 0x04]);
    hide EncodeItems, EncodeEntries, Encode, Append, Head;
  }

  lemma Headed(head: Option<seq<Byte>>, a: seq<Byte>, b: seq<Byte>, all: seq<Byte>)
    requires head == Some(a) && all == a + b
    ensures Append(head, Some(b)) == Some(all)
  {
  }

  lemma NextItem(items: seq<Item>, n: nat, rest: seq<Item>, b: seq<Byte>, all: seq<Byte>)
    requires n < 24 && items == [Int(n)] + rest && all == [n] + b && EncodeItems(rest) == Some(b)
    ensures EncodeItems(items) == Some(all)
  {
    assert items[1..] == rest;
    assert EncodeItem(Int(n)) == Some([n]);
  }

  lemma NextEntry(entries: seq<Entry>, k: nat, v: nat, rest: seq<Entry>, b: seq<Byte>,
        all: seq<Byte>)
    requires k < 24 && v < 24 && entries == [Entry(Int(k), Int(v))] + rest && all == [k, v] + b
        && EncodeEntries(rest) == Some(b)
    ensures EncodeEntries(entries) == Some(all)
  {
    var e := Entry(Int(k), Int(v));
    assert entries[1..] == rest;
    assert EncodeItem(Int(k)) == Some([k]) && EncodeItem(Int(v)) == Some([v]) && [k] + [v] == [k, v];
    assert EncodeEntry(e) == Some([k, v]);
  }

  function Flatten(parts: seq<seq<Byte>>): seq<Byte> {
    if parts == [] then [] else Flatten(parts[..|parts| - 1]) + parts[|parts| - 1]
  }

  function TotalLength(parts: seq<seq<Byte>>): (n: nat)
    ensures n == |Flatten(parts)|
  {
    if parts == [] then 0 else TotalLength(parts[..|parts| - 1]) + |parts[|parts| - 1]|
  }

  /** Copies the parts one after another into one buffer. */
  method Concat(parts: seq<seq<Byte>>) returns (buffer: array<Byte>)
    ensures fresh(buffer) && buffer[..] == Flatten(parts)
  {
    hide Flatten;
    buffer := new Byte[TotalLength(parts)];
    var offset := 0;
    NothingFlat();
    for i := 0 to |parts|
      invariant offset == |Flatten(parts[..i])| <= buffer.Length
      invariant buffer[..offset] == Flatten(parts[..i])
    {
      ghost var before := buffer[..offset];
      FlattenNext(parts, i);
      FlattenPrefix(parts, i + 1);
      SetAt(buffer, offset, parts[i]);
      offset := offset + |parts[i]|;
      assert buffer[..offset] == before + parts[i];
    }
    assert parts[..|parts|] == parts;
  }

  lemma NothingFlat()
    ensures Flatten([]) == []
  {
  }

  lemma FlattenNext(parts: seq<seq<Byte>>, i: nat)
    requires i < |parts|
    ensures Flatten(parts[..i + 1]) == Flatten(parts[..i]) + parts[i]
  {
    assert parts[..i + 1][..i] == parts[..i];
  }

  lemma {:induction false} FlattenPrefix(parts: seq<seq<Byte>>, i: nat)
    requires i <= |parts|
    ensures |Flatten(parts[..i])| <= |Flatten(parts)|
    decreases |parts| - i
  {
    if i == |parts| {
      assert parts[..i] == parts;
    } else {
      FlattenNext(parts, i);
      FlattenPrefix(parts, i + 1);
    }
  }

  method SetAt(buffer: array<Byte>, offset: nat, part: seq<Byte>)
    requires offset + |part| <= buffer.Length
    modifies buffer
    ensures buffer[..offset] == old(buffer[..offset])
    ensures buffer[offset..offset + |part|] == part
    ensures buffer[offset + |part|..] == old(buffer[offset + |part|..])
  {
    for k := 0 to |part|
      invariant buffer[..offset] == old(buffer[..offset])
      invariant forall j :: 0 <= j < k ==> buffer[offset + j] == part[j]
      invariant forall j :: offset + |part| <= j < buffer.Length ==> buffer[j] == old(buffer[j])
    {
      buffer[offset + k] := part[k];
    }
  }

  // ----- Strict decoding -----

  datatype Taken = Taken(major: nat, value: nat, rest: seq<Byte>) | NotTaken

  /** Reads an initial byte and its argument; an argument that fits a shorter form is refused. */
  function TakeHead(b: seq<Byte>): (r: Taken)
    ensures r.Taken? ==> |r.rest| < |b| && r.major < 8 && r.value <= MAX_ARGUMENT
  {
    if b == [] then NotTaken
    else
      var major, info := b[0] / 32, b[0] % 32;
      if info < 24 then Taken(major, info, b[1..])
      else if info == 24 && |b| >= 2 && b[1] >= 24 then Taken(major, b[1], b[2..])
      else if info == 25 && |b| >= 3 && b[1] > 0 then Taken(major, Two(b[1], b[2]), b[3..])
      else if info == 26 && |b| >= 5 && b[1] < 128 && (b[1] > 0 || b[2] > 0) then Taken(major, Four(b[1], b[2], b[3], b[4]), b[5..])
      else NotTaken
  }

  function Two(a: nat, b: nat): nat { a * 0x100 + b }

  function Four(a: nat, b: nat, c: nat, d: nat): nat { ((a * 0x100 + b) * 0x100 + c) * 0x100 + d }

  datatype Read<T> = Read(value: T, rest: seq<Byte>) | NotRead

  function ReadItem(b: seq<Byte>): (r: Read<Item>)
    ensures r.Read? ==> |r.rest| < |b|
    decreases |b|, 0
  {
    match TakeHead(b)
    case NotTaken => NotRead
    case Taken(major, value, rest) =>
      if major == INT then Read(Int(value), rest)
      else if major == NEGATIVE then Read(Int(-1 - value), rest)
      else if major == STRING then
        if value > |rest| then NotRead
        else (match Decode(rest[..value]) case None => NotRead case Some(t) => Read(Str(t), rest[value..]))
      else if major == ARRAY then
        (match ReadItems(rest, value) case NotRead => NotRead case Read(items, left) => Read(Array(items), left))
      else if major == MAP then
        (match ReadEntries(rest, value) case NotRead => NotRead case Read(entries, left) => Read(Map(entries), left))
      else NotRead
  }

  function ReadItems(b: seq<Byte>, count: nat): (r: Read<seq<Item>>)
    ensures r.Read? ==> |r.rest| <= |b|
    decreases |b|, 1, count
  {
    if count == 0 then Read([], b)
    else
      match ReadItem(b)
      case NotRead => NotRead
      case Read(item, rest) =>
        (match ReadItems(rest, count - 1)
         case NotRead => NotRead
         case Read(items, left) => Read([item] + items, left))
  }

  function ReadEntries(b: seq<Byte>, count: nat): (r: Read<seq<Entry>>)
    ensures r.Read? ==> |r.rest| <= |b|
    decreases |b|, 1, count
  {
    if count == 0 then Read([], b)
    else
      match ReadItem(b)
      case NotRead => NotRead
      case Read(key, after) =>
        match ReadItem(after)
        case NotRead => NotRead
        case Read(value, rest) =>
          (match ReadEntries(rest, count - 1)
           case NotRead => NotRead
           case Read(entries, left) => Read([Entry(key, value)] + entries, left))
  }

  // ----- Reading inverts writing -----

  lemma Bytes32Back(v: nat)
    requires v <= MAX_ARGUMENT
    ensures var b := Bytes32(v); Four(b[0], b[1], b[2], b[3]) == v && b[0] < 128
    ensures v >= 0x10000 <==> Bytes32(v)[0] > 0 || Bytes32(v)[1] > 0
  {
    var q1 := v / 0x100;
    var q2 := q1 / 0x100;
    var q3 := q2 / 0x100;
    assert v / 0x10000 == q2 && v / 0x1000000 == q3 && q3 < 128;
    FourOf(q3, q2 % 0x100, q1 % 0x100, v % 0x100, q2, q1, v);
  }

  lemma FourOf(a: nat, b: nat, c: nat, d: nat, q2: nat, q1: nat, v: nat)
    requires q2 == a * 0x100 + b && q1 == q2 * 0x100 + c && v == q1 * 0x100 + d && b < 0x100 && c < 0x100 && d < 0x100
    ensures Four(a, b, c, d) == v && (v >= 0x10000 <==> a > 0 || b > 0)
  {
  }

  lemma HeadRead(major: nat, value: int, rest: seq<Byte>)
    requires major < 8 && Head(major, value).Some?
    ensures TakeHead(Head(major, value).value + rest) == Taken(major, value, rest)
  {
    var head := Head(major, value).value;
    var b := head + rest;
    assert forall i :: 0 <= i < |head| ==> b[i] == head[i];
    assert b[|head|..] == rest;
    if value >= 0x10000 {
      Bytes32Back(value);
      assert forall i :: 0 <= i < 4 ==> b[i + 1] == Bytes32(value)[i];
    }
  }

  lemma FourBack(a: nat, b: nat, c: nat, d: nat)
    requires a < 128 && b < 256 && c < 256 && d < 256
    ensures Four(a, b, c, d) <= MAX_ARGUMENT && Bytes32(Four(a, b, c, d)) == [a, b, c, d]
    ensures Four(a, b, c, d) >= 0x10000 <==> a > 0 || b > 0
  {
    var v := Four(a, b, c, d);
    assert v / 0x100 == (a * 0x100 + b) * 0x100 + c;
    assert v / 0x10000 == v / 0x100 / 0x100 == a * 0x100 + b;
    assert v / 0x1000000 == v / 0x10000 / 0x100 == a;
  }

  /** A head that was read is the one that would be written: shorter arguments are never accepted in longer forms. */
  lemma HeadWritten(b: seq<Byte>)
    requires TakeHead(b).Taken?
    ensures var t := TakeHead(b); Head(t.major, t.value).Some? && b == Head(t.major, t.value).value + t.rest
  {
    var t := TakeHead(b);
    var info := b[0] % 32;
    assert b[0] == t.major * 32 + info;
    if info == 26 {
      FourBack(b[1], b[2], b[3], b[4]);
      assert b[1..5] == [b[1], b[2], b[3], b[4]];
    }
  }

  /** Items whose text can be told apart after encoding. */
  predicate PairedText(item: Item)
    decreases item
  {
    match item
    case Int(_) => true
    case Str(t) => WellFormed(t)
    case Array(items) => forall i :: 0 <= i < |items| ==> PairedText(items[i])
    case Map(entries) => forall i :: 0 <= i < |entries| ==> PairedEntry(entries[i])
  }

  predicate PairedEntry(e: Entry)
    decreases e
  {
    PairedText(e.key) && PairedText(e.value)
  }

  lemma Regroup(a: seq<Byte>, b: seq<Byte>, c: seq<Byte>)
    ensures (a + b) + c == a + (b + c)
  {
  }

  lemma StringRead(t: Text, rest: seq<Byte>)
    requires WellFormed(t) && EncodeItem(Str(t)).Some?
    ensures ReadItem(EncodeItem(Str(t)).value + rest) == Read(Str(t), rest)
  {
    hide Encode, Decode, Head, TakeHead, WellFormed;
    var head, payload := Head(STRING, |Encode(t)|).value, Encode(t);
    Regroup(head, payload, rest);
    HeadRead(STRING, |payload|, payload + rest);
    DecodeInvertsEncode(t);
    assert (payload + rest)[..|payload|] == payload && (payload + rest)[|payload|..] == rest;
  }

  /** The strict decoder is a left inverse of the encoder, whatever follows the item. */
  lemma {:induction false} ReadInvertsEncode(item: Item, rest: seq<Byte>)
    requires PairedText(item) && EncodeItem(item).Some?
    ensures ReadItem(EncodeItem(item).value + rest) == Read(item, rest)
    decreases item, 0
  {
    hide Head, TakeHead, EncodeItems, EncodeEntries, ReadItems, ReadEntries, Encode, Decode;
    match item
    case Int(n) => HeadRead(if n >= 0 then INT else NEGATIVE, if n >= 0 then n else -1 - n, rest);
    case Str(t) => StringRead(t, rest);
    case Array(items) =>
      var head, body := Head(ARRAY, |items|).value, EncodeItems(items).value;
      Regroup(head, body, rest);
      HeadRead(ARRAY, |items|, body + rest);
      ReadItemsBack(items, rest);
    case Map(entries) =>
      var head, body := Head(MAP, |entries|).value, EncodeEntries(entries).value;
      Regroup(head, body, rest);
      HeadRead(MAP, |entries|, body + rest);
      ReadEntriesBack(entries, rest);
  }

  lemma {:induction false} ReadItemsBack(items: seq<Item>, rest: seq<Byte>)
    requires EncodeItems(items).Some? && forall i :: 0 <= i < |items| ==> PairedText(items[i])
    ensures ReadItems(EncodeItems(items).value + rest, |items|) == Read(items, rest)
    decreases items, 1
  {
    hide EncodeItem, ReadItem, PairedText;
    if items == [] {
      assert [] + rest == rest;
    } else {
      var head, tail := EncodeItem(items[0]).value, EncodeItems(items[1..]).value;
      Regroup(head, tail, rest);
      ReadInvertsEncode(items[0], tail + rest);
      ReadItemsBack(items[1..], rest);
      assert [items[0]] + items[1..] == items;
    }
  }

  lemma {:induction false} ReadEntriesBack(entries: seq<Entry>, rest: seq<Byte>)
    requires EncodeEntries(entries).Some? && forall i :: 0 <= i < |entries| ==> PairedEntry(entries[i])
    ensures ReadEntries(EncodeEntries(entries).value + rest, |entries|) == Read(entries, rest)
    decreases entries, 1
  {
    hide EncodeItem, ReadItem, PairedText;
    if entries == [] {
      assert [] + rest == rest;
    } else {
      var e := entries[0];
      assert PairedEntry(e);
      var key, value, tail := EncodeItem(e.key).value, EncodeItem(e.value).value, EncodeEntries(entries[1..]).value;
      assert key + value + tail + rest == key + (value + (tail + rest));
      ReadEntryBack(e, tail + rest);
      ReadEntriesBack(entries[1..], rest);
      assert [e] + entries[1..] == entries;
    }
  }

  lemma {:induction false} ReadEntryBack(e: Entry, rest: seq<Byte>)
    requires PairedEntry(e) && EncodeEntry(e).Some?
    ensures var key, value := EncodeItem(e.key).value, EncodeItem(e.value).value;
      ReadItem(key + (value + rest)) == Read(e.key, value + rest) && ReadItem(value + rest) == Read(e.value, rest)
    decreases e, 0
  {
    hide EncodeItem, ReadItem, PairedText;
    ReadInvertsEncode(e.key, EncodeItem(e.value).value + rest);
    ReadInvertsEncode(e.value, rest);
  }

  /** Conversely, whatever the strict decoder reads is the encoding of what it returns: each item has one encoding. */
  lemma {:induction false} EncodeInvertsRead(b: seq<Byte>)
    requires ReadItem(b).Read?
    ensures var r := ReadItem(b); PairedText(r.value) && EncodeItem(r.value).Some? && EncodeItem(r.value).value + r.rest == b
    decreases |b|, 0
  {
    hide Head, EncodeItems, EncodeEntries, ReadItems, ReadEntries, Encode, Decode, TakeHead, WellFormed;
    HeadWritten(b);
    var t := TakeHead(b);
    var head := Head(t.major, t.value).value;
    if t.major == STRING {
      EncodeInvertsDecode(t.rest[..t.value]);
      Regroup(head, t.rest[..t.value], t.rest[t.value..]);
      assert t.rest[..t.value] + t.rest[t.value..] == t.rest;
    } else if t.major == ARRAY {
      EncodeInvertsReadItems(t.rest, t.value);
      var r := ReadItems(t.rest, t.value);
      Regroup(head, EncodeItems(r.value).value, r.rest);
    } else if t.major == MAP {
      EncodeInvertsReadEntries(t.rest, t.value);
      var r := ReadEntries(t.rest, t.value);
      Regroup(head, EncodeEntries(r.value).value, r.rest);
    }
  }

  lemma {:induction false} EncodeInvertsReadItems(b: seq<Byte>, count: nat)
    requires ReadItems(b, count).Read?
    ensures var r := ReadItems(b, count);
      && |r.value| == count && (forall i :: 0 <= i < count ==> PairedText(r.value[i]))
      && EncodeItems(r.value).Some? && EncodeItems(r.value).value + r.rest == b
    decreases |b|, 1, count
  {
    hide EncodeItem, ReadItem, PairedText;
    if count == 0 {
      assert [] + b == b;
    } else {
      EncodeInvertsRead(b);
      var first := ReadItem(b);
      EncodeInvertsReadItems(first.rest, count - 1);
      var more := ReadItems(first.rest, count - 1);
      assert ([first.value] + more.value)[1..] == more.value;
      Regroup(EncodeItem(first.value).value, EncodeItems(more.value).value, more.rest);
    }
  }

  lemma {:induction false} EncodeInvertsReadEntries(b: seq<Byte>, count: nat)
    requires ReadEntries(b, count).Read?
    ensures var r := ReadEntries(b, count);
      && |r.value| == count && (forall i :: 0 <= i < count ==> PairedEntry(r.value[i]))
      && EncodeEntries(r.value).Some? && EncodeEntries(r.value).value + r.rest == b
    decreases |b|, 1, count
  {
    hide EncodeItem, ReadItem, PairedText;
    if count == 0 {
      assert [] + b == b;
    } else {
      EncodeInvertsRead(b);
      var key := ReadItem(b);
      EncodeInvertsRead(key.rest);
      var value := ReadItem(key.rest);
      EncodeInvertsReadEntries(value.rest, count - 1);
      var more := ReadEntries(value.rest, count - 1);
      var e := Entry(key.value, value.value);
      assert ([e] + more.value)[1..] == more.value;
      EntryBytes(EncodeItem(e.key).value, EncodeItem(e.value).value, EncodeEntries(more.value).value, more.rest);
    }
  }

  lemma EntryBytes(key: seq<Byte>, value: seq<Byte>, tail: seq<Byte>, rest: seq<Byte>)
    ensures key + value + tail + rest == key + (value + (tail + rest))
  {
  }

  // ----- Consequences -----

  /** No encoding is a prefix of another item's: a reader needs no length to find where an item ends. */
  lemma EncodingsArePrefixFree(a: Item, b: Item)
    requires PairedText(a) && PairedText(b) && EncodeItem(a).Some? && EncodeItem(b).Some?
    requires EncodeItem(a).value <= EncodeItem(b).value
    ensures a == b
  {
    hide EncodeItem, ReadItem, PairedText;
    var x, y := EncodeItem(a).value, EncodeItem(b).value;
    ReadInvertsEncode(a, y[|x|..]);
    ReadInvertsEncode(b, []);
    assert x + y[|x|..] == y == y + [];
  }

  /** Integers are encoded exactly in the signed 32-bit range. */
  lemma IntegersInRange(n: int)
    ensures EncodeItem(Int(n)).Some? <==> -0x8000_0000 <= n <= 0x7FFF_FFFF
  {
  }

  /** What any argument form, shortest or not, stands for. */
  function AnyArgument(b: seq<Byte>): Option<(nat, nat)>
    requires b != []
  {
    var info := b[0] % 32;
    if info < 24 then Some((info, 1))
    else if info == 24 && |b| >= 2 then Some((b[1], 2))
    else if info == 25 && |b| >= 3 then Some((Two(b[1], b[2]), 3))
    else if info == 26 && |b| >= 5 then Some((Four(b[1], b[2], b[3], b[4]), 5))
    else None
  }

  /** No form of the same argument is shorter. */
  lemma HeadIsShortest(major: nat, b: seq<Byte>)
    requires major < 8 && b != [] && AnyArgument(b).Some? && AnyArgument(b).value.0 <= MAX_ARGUMENT
    ensures |Head(major, AnyArgument(b).value.0).value| <= AnyArgument(b).value.1
  {
  }

  // ----- The order of map keys -----

  /** The bytewise lexicographic order of section 4.2.1 of RFC 8949. */
  predicate Before(a: seq<Byte>, b: seq<Byte>) {
    b != [] && (a == [] || a[0] < b[0] || (a[0] == b[0] && Before(a[1..], b[1..])))
  }

  lemma {:induction false} NeverBeforeItself(a: seq<Byte>)
    ensures !Before(a, a)
  {
    if a != [] { NeverBeforeItself(a[1..]); }
  }

  lemma SecondDecides(h: Byte, a: seq<Byte>, b: seq<Byte>)
    requires Before(a, b)
    ensures Before([h] + a, [h] + b)
  {
    assert ([h] + a)[1..] == a && ([h] + b)[1..] == b;
  }

  lemma TwoBefore(a: nat, b: nat, c: nat, d: nat)
    requires a < 256 && b < 256 && c < 256 && d < 256 && Two(a, b) < Two(c, d)
    ensures Before([a, b], [c, d])
  {
    assert [a, b][1..] == [b] && [c, d][1..] == [d];
  }

  lemma FourBefore(x: nat, y: nat)
    requires x < y <= MAX_ARGUMENT
    ensures Before(Bytes32(x), Bytes32(y))
  {
    var a, b := Bytes32(x), Bytes32(y);
    Bytes32Back(x);
    Bytes32Back(y);
    assert a == [a[0]] + ([a[1]] + [a[2], a[3]]) && b == [b[0]] + ([b[1]] + [b[2], b[3]]);
    if a[0] == b[0] {
      if a[1] == b[1] {
        TwoBefore(a[2], a[3], b[2], b[3]);
        SecondDecides(a[1], [a[2], a[3]], [b[2], b[3]]);
      }
      SecondDecides(a[0], [a[1]] + [a[2], a[3]], [b[1]] + [b[2], b[3]]);
    }
  }

  /** Heads of one major type are in the order of their arguments. */
  lemma HeadsAscend(major: nat, x: nat, y: nat)
    requires major < 8 && x < y <= MAX_ARGUMENT
    ensures Before(Head(major, x).value, Head(major, y).value)
  {
    hide Bytes32;
    if x >= 0x10000 {
      FourBefore(x, y);
      SecondDecides(major * 32 + 26, Bytes32(x), Bytes32(y));
    } else if x >= 0x100 && y < 0x10000 {
      TwoBefore(x / 0x100, x % 0x100, y / 0x100, y % 0x100);
      SecondDecides(major * 32 + 25, [x / 0x100, x % 0x100], [y / 0x100, y % 0x100]);
      assert Head(major, x).value == [major * 32 + 25] + [x / 0x100, x % 0x100];
      assert Head(major, y).value == [major * 32 + 25] + [y / 0x100, y % 0x100];
    } else if 24 <= x && y < 0x100 {
      SecondDecides(major * 32 + 24, [x], [y]);
      assert Head(major, x).value == [major * 32 + 24] + [x] && Head(major, y).value == [major * 32 + 24] + [y];
    }
  }

  predicate Ascending(entries: seq<Entry>) {
    forall i, j :: 0 <= i < j < |entries| ==> KeyBefore(entries[i].key, entries[j].key)
  }

  predicate KeyBefore(a: Item, b: Item) {
    EncodeItem(a).Some? && EncodeItem(b).Some? && Before(EncodeItem(a).value, EncodeItem(b).value)
  }

  /** Every map in the item has its keys in strictly ascending order of their encodings. */
  predicate Deterministic(item: Item)
    decreases item
  {
    match item
    case Int(_) | Str(_) => true
    case Array(items) => forall i :: 0 <= i < |items| ==> Deterministic(items[i])
    case Map(entries) => Ascending(entries) && forall i :: 0 <= i < |entries| ==> DeterministicEntry(entries[i])
  }

  predicate DeterministicEntry(e: Entry)
    decreases e
  {
    Deterministic(e.key) && Deterministic(e.value)
  }

  /** No key is repeated in ascending entries. */
  lemma AscendingKeysDiffer(entries: seq<Entry>, i: nat, j: nat)
    requires Ascending(entries) && i < j < |entries|
    ensures entries[i].key != entries[j].key
  {
    hide EncodeItem;
    assert KeyBefore(entries[i].key, entries[j].key);
    if entries[i].key == entries[j].key { NeverBeforeItself(EncodeItem(entries[i].key).value); }
  }

  /** Entries numbered from 0 are ascending. */
  lemma NumberedAscend(entries: seq<Entry>)
    requires |entries| <= MAX_ARGUMENT && forall i :: 0 <= i < |entries| ==> entries[i].key == Int(i)
    ensures Ascending(entries)
  {
    hide Head, Before;
    forall i, j | 0 <= i < j < |entries| ensures KeyBefore(entries[i].key, entries[j].key) { HeadsAscend(INT, i, j); }
  }
}
