/** The map around the emitted functions: its keys are in the deterministic order, and its bytes determine the function. */
module GirRoot {
  import opened Ast
  import opened Gir
  import opened GirProof
  import opened Utf8
  import Cbor

  const BASE_LIMITS: seq<nat> := [24576, 1, 3, 8, 32, 48, 4, 2, 0, 0, 0, 0, 96, 256, 1024, 16, 8, 8, 4, 4096, 0]
  const FAILURES: seq<seq<nat>> := [[1, 2, 1, 1], [2, 3, 2, 1], [3, 4, 2, 1], [4, 1, 1, 1]]
  const ROOT_FIELDS: nat := 21

  function TextItem(s: string): Cbor.Item { Cbor.Str(Ascii(s)) }

  function NumberItems(ns: seq<nat>): Cbor.Item { Cbor.Array(IntItems(ns)) }

  function FailureItems(failures: seq<seq<nat>>): (r: seq<Cbor.Item>)
    ensures |r| == |failures| && forall i :: 0 <= i < |r| ==> r[i] == NumberItems(failures[i])
  {
    seq(|failures|, i requires 0 <= i < |failures| => NumberItems(failures[i]))
  }

  function RootValue(f: FunctionValue, k: nat): Cbor.Item {
    match k
    case 0 => Cbor.Int(2)
    case 1 => Cbor.Int(1)
    case 2 => TextItem("slide.semantic.executable-gir.v2")
    case 3 => TextItem("slide.digest.sha256.v1")
    case 4 =>
      Cbor.Array([TextItem("slide.registry.executable-gir.v2c"),
                  TextItem("366c36a35ee5493bd59c2329783c33ccbb15055288b1a361d2a16b58a9b0aa66")])
    case 5 => TextItem("slide.memory.safe-value.v1")
    case 6 => NumberItems([1, 2, 3, 4, 5])
    case 7 => NumberItems(BASE_LIMITS)
    case 8 => NumberItems([1])
    case 9 => NumberItems([1, 2, 3, 4, 5, 6, 7, 8, 9, 10, 11, 12, 13])
    case 11 => Cbor.Array([FunctionItem(f)])
    case 12 => Cbor.Array(FailureItems(FAILURES))
    case _ => Cbor.Array([])
  }

  function RootEntries(f: FunctionValue): (r: seq<Cbor.Entry>)
    ensures |r| == ROOT_FIELDS && forall k :: 0 <= k < ROOT_FIELDS ==> r[k] == Cbor.Entry(Cbor.Int(k), RootValue(f, k))
  {
    seq(ROOT_FIELDS, k requires 0 <= k < ROOT_FIELDS => Cbor.Entry(Cbor.Int(k), RootValue(f, k)))
  }

  /** The document the emitter writes for one function. */
  function Root(f: FunctionValue): Cbor.Item { Cbor.Map(RootEntries(f)) }

  /** Text that survives encoding, and every map in order. */
  predicate Sound(item: Cbor.Item) { Cbor.PairedText(item) && Cbor.Deterministic(item) }

  lemma {:induction false} NoSurrogates(t: Text)
    requires forall i :: 0 <= i < |t| ==> t[i] < 0x80
    ensures WellFormed(t)
  {
    if t != [] { NoSurrogates(t[1..]); }
  }

  lemma TextIsSound(s: string)
    ensures Sound(TextItem(s))
  {
    hide WellFormed;
    NoSurrogates(Ascii(s));
  }

  lemma ListIsSound(items: seq<Cbor.Item>)
    requires forall i :: 0 <= i < |items| ==> Sound(items[i])
    ensures Sound(Cbor.Array(items))
  {
  }

  lemma NumbersAreSound(ns: seq<nat>)
    ensures Sound(NumberItems(ns))
  {
    hide OnlyNumbers, Cbor.PairedText, Cbor.Deterministic;
    IntsAreNumbers(ns);
    NumbersAreSafe(NumberItems(ns));
  }

  lemma FunctionIsSound(f: FunctionValue)
    ensures Sound(Cbor.Array([FunctionItem(f)]))
  {
    hide OnlyNumbers, Cbor.PairedText, Cbor.Deterministic, FunctionItem;
    FunctionItemIsNumbers(f);
    NumbersAreSafe(FunctionItem(f));
    hide Sound;
    assert Sound(FunctionItem(f)) by { SoundIs(FunctionItem(f)); }
    ListIsSound([FunctionItem(f)]);
  }

  lemma SoundIs(item: Cbor.Item)
    requires Cbor.PairedText(item) && Cbor.Deterministic(item)
    ensures Sound(item)
  {
  }

  lemma FailuresAreSound()
    ensures Sound(Cbor.Array(FailureItems(FAILURES)))
  {
    hide Sound, NumberItems;
    forall i | 0 <= i < |FAILURES| ensures Sound(FailureItems(FAILURES)[i]) { NumbersAreSound(FAILURES[i]); }
    ListIsSound(FailureItems(FAILURES));
  }

  lemma ValueIsSound(f: FunctionValue, k: nat)
    requires k < ROOT_FIELDS
    ensures Sound(RootValue(f, k))
  {
    hide Sound, TextItem, NumberItems, FunctionItem, FailureItems;
    ListIsSound([]);
    match k
    case 2 => TextIsSound("slide.semantic.executable-gir.v2");
    case 3 => TextIsSound("slide.digest.sha256.v1");
    case 4 =>
      var id, digest := "slide.registry.executable-gir.v2c", "366c36a35ee5493bd59c2329783c33ccbb15055288b1a361d2a16b58a9b0aa66";
      TextIsSound(id);
      TextIsSound(digest);
      ListIsSound([TextItem(id), TextItem(digest)]);
    case 5 => TextIsSound("slide.memory.safe-value.v1");
    case 6 => NumbersAreSound([1, 2, 3, 4, 5]);
    case 7 => NumbersAreSound(BASE_LIMITS);
    case 8 => NumbersAreSound([1]);
    case 9 => NumbersAreSound([1, 2, 3, 4, 5, 6, 7, 8, 9, 10, 11, 12, 13]);
    case 11 => FunctionIsSound(f);
    case 12 => FailuresAreSound();
    case _ => NumberIsSound(2); NumberIsSound(1);
  }

  lemma NumberIsSound(n: int)
    ensures Sound(Cbor.Int(n))
  {
  }

  /** Every map of the document has its keys in strictly ascending order of their encodings, and its text survives. */
  lemma RootIsDeterministic(f: FunctionValue)
    ensures Cbor.PairedText(Root(f)) && Cbor.Deterministic(Root(f))
  {
    hide RootValue, Cbor.Ascending;
    var entries := RootEntries(f);
    Cbor.NumberedAscend(entries);
    forall k | 0 <= k < ROOT_FIELDS ensures Cbor.PairedEntry(entries[k]) && Cbor.DeterministicEntry(entries[k]) {
      ValueIsSound(f, k);
    }
  }

  /** The bytes of the document determine its function: equal bytes, or one a prefix of the other, come from one function. */
  lemma DocumentDeterminesFunction(f: FunctionValue, g: FunctionValue)
    requires Cbor.EncodeItem(Root(f)).Some? && Cbor.EncodeItem(Root(g)).Some?
    requires Cbor.EncodeItem(Root(f)).value <= Cbor.EncodeItem(Root(g)).value
    ensures f == g
  {
    hide Cbor.EncodeItem, Cbor.PairedText, Cbor.Deterministic, FunctionItem, RootEntries, RootValue;
    RootIsDeterministic(f);
    RootIsDeterministic(g);
    Cbor.EncodingsArePrefixFree(Root(f), Root(g));
    assert RootEntries(f)[11] == RootEntries(g)[11];
    EleventhIs(f);
    EleventhIs(g);
    FunctionItemDetermines(f, g);
  }

  lemma EleventhIs(f: FunctionValue)
    ensures RootValue(f, 11) == Cbor.Array([FunctionItem(f)]) && RootValue(f, 11).items[0] == FunctionItem(f)
  {
    hide FunctionItem;
  }
}
